/** Turning one resolved anchor into an edit: which kind, and where in HEAD. */
module Placement {
  import opened Bytes
  import opened Splice

  datatype Extent = Extent(start: nat, end: nat)
  {
    predicate Within(outer: Extent) {
      outer.start <= start && end <= outer.end
    }
  }

  datatype Resolution = Resolution(extent: Extent, anchor: string, container: string, enclosing: string, pseudo: bool)
  {
    function EnclosingName(): string {
      if enclosing != "" then enclosing else container
    }
  }

  /** What resolving an anchor against one parsed source answers. */
  datatype Outcome = Found(res: Resolution) | Unresolvable | Ambiguous | Broken

  type Table = map<string, Outcome>

  function Lookup(table: Table, anchor: string): Outcome {
    if anchor in table then table[anchor] else Unresolvable
  }

  /** One file: both sides' bytes, both anchor tables, and the worktree's
      declaration order. The three flags are the language's own conventions. */
  datatype Sources = Sources(headSrc: Text, headExists: bool, workSrc: Text, workExists: bool, workOrder: seq<string>,
                             head: Table, work: Table, flatContainer: bool, membersSitFlush: bool, ownsSeparator: bool)
  {
    /** Every extent handed out lies in the source it was resolved against. */
    ghost predicate Valid() {
      && (forall a <- head :: head[a].Found? ==> head[a].res.extent.start <= head[a].res.extent.end <= |headSrc|)
      && (forall a <- work :: work[a].Found? ==> work[a].res.extent.start <= work[a].res.extent.end <= |workSrc|)
      && (!headExists ==> headSrc == [])
    }

    function InHead(anchor: string): Outcome {
      if headExists then Lookup(head, anchor) else Unresolvable
    }

    function InWork(anchor: string): Outcome {
      if workExists then Lookup(work, anchor) else Unresolvable
    }
  }

  // ----- lines and gaps -----

  function LineBegin(src: Text, off: nat): (start: nat)
    requires off <= |src|
    ensures start <= off && NL !in src[start..off] && (start == 0 || src[start - 1] == NL)
  {
    if off > 0 && src[off - 1] != NL then LineBegin(src, off - 1) else off
  }

  method LineStartOf(src: Text, off: nat) returns (start: nat)
    requires off <= |src|
    ensures start == LineBegin(src, off)
  {
    start := off;
    while start > 0 && src[start - 1] != NL
      invariant start <= off && LineBegin(src, start) == LineBegin(src, off)
    {
      start := start - 1;
    }
  }

  predicate Blank(b: byte) {
    b == 32 || b == 9
  }

  /** The start of the line holding `off` when only blanks separate the two, else `off`. */
  function LineStart(src: Text, off: nat): (start: nat)
    requires off <= |src|
    ensures start <= off && forall i :: start <= i < off ==> Blank(src[i])
  {
    var start := LineBegin(src, off);
    if forall i :: start <= i < off ==> Blank(src[i]) then start else off
  }

  function RunBefore(src: Text, start: nat): (from: nat)
    requires start <= |src|
    ensures from <= start && AllNL(src[from..start]) && (from == 0 || src[from - 1] != NL)
  {
    if start > 0 && src[start - 1] == NL then
      var from := RunBefore(src, start - 1);
      assert src[from..start] == src[from..start - 1] + [NL];
      from
    else start
  }

  function RunAfter(src: Text, end: nat): (stop: nat)
    requires end <= |src|
    ensures end <= stop <= |src| && AllNL(src[end..stop]) && (stop == |src| || src[stop] != NL)
    decreases |src| - end
  {
    if end < |src| && src[end] == NL then RunAfter(src, end + 1) else end
  }

  lemma {:induction false} RunBeforeIs(src: Text, lo: nat, start: nat)
    requires lo <= start <= |src| && AllNL(src[lo..start]) && (lo == 0 || src[lo - 1] != NL)
    ensures RunBefore(src, start) == lo
  {
    if start > lo {
      assert src[lo..start - 1] == src[lo..start][..start - 1 - lo];
      assert src[start - 1] == src[lo..start][start - 1 - lo];
      RunBeforeIs(src, lo, start - 1);
    }
  }

  /** The maximal newline run just before `start`. */
  method LeadingGap(src: Text, start: nat) returns (gap: Text)
    requires start <= |src|
    ensures gap == src[RunBefore(src, start)..start] && AllNL(gap)
  {
    var end := start;
    while end > 0 && src[end - 1] == NL
      invariant 0 <= end <= start && RunBefore(src, end) == RunBefore(src, start)
    {
      end := end - 1;
    }
    gap := src[end..start];
  }

  /** The maximal newline run just after `end`. */
  method TrailingGap(src: Text, end: nat) returns (gap: Text)
    requires end <= |src|
    ensures gap == src[end..RunAfter(src, end)] && AllNL(gap)
  {
    var stop := end;
    while stop < |src| && src[stop] == NL
      invariant end <= stop <= |src| && RunAfter(src, stop) == RunAfter(src, end)
    {
      stop := stop + 1;
    }
    gap := src[end..stop];
  }

  // ----- the end of a container's body -----

  predicate IsSpace(b: byte) {
    b == 32 || b == 9 || b == NL || b == 13
  }

  /** `}`, `)` or `]`. */
  predicate Closes(b: byte) {
    b == 125 || b == 41 || b == 93
  }

  function TrimSpace(src: Text, lo: nat, end: nat): (stop: nat)
    requires lo <= end <= |src|
    ensures lo <= stop <= end && (forall i :: stop <= i < end ==> IsSpace(src[i])) && (stop == lo || !IsSpace(src[stop - 1]))
  {
    if end > lo && IsSpace(src[end - 1]) then TrimSpace(src, lo, end - 1) else end
  }

  function LineBeginFrom(src: Text, lo: nat, off: nat): (start: nat)
    requires lo <= off <= |src|
    ensures lo <= start <= off && NL !in src[start..off] && (start == lo || src[start - 1] == NL)
  {
    if off > lo && src[off - 1] != NL then LineBeginFrom(src, lo, off - 1) else off
  }

  function BodyEnd(src: Text, ext: Extent): nat
    requires ext.start <= ext.end <= |src|
  {
    var end := TrimSpace(src, ext.start, ext.end);
    if end == ext.start || !Closes(src[end - 1]) then ext.end
    else LineBeginFrom(src, ext.start, end - 1)
  }

  method LineStartWithin(src: Text, lo: nat, off: nat) returns (pos: nat)
    requires lo <= off <= |src|
    ensures pos == LineBeginFrom(src, lo, off)
  {
    pos := off;
    while pos > lo && src[pos - 1] != NL
      invariant lo <= pos <= off && LineBeginFrom(src, lo, pos) == LineBeginFrom(src, lo, off)
    {
      pos := pos - 1;
    }
  }

  method ContainerBodyEnd(src: Text, ext: Extent) returns (pos: nat)
    requires ext.start <= ext.end <= |src|
    ensures pos == BodyEnd(src, ext)
  {
    hide IsSpace, Closes, LineBeginFrom;
    var end := ext.end;
    while end > ext.start && IsSpace(src[end - 1])
      invariant ext.start <= end <= ext.end && TrimSpace(src, ext.start, end) == TrimSpace(src, ext.start, ext.end)
    {
      end := end - 1;
    }
    if end == ext.start || !Closes(src[end - 1]) {
      return ext.end;
    }
    pos := LineStartWithin(src, ext.start, end - 1);
  }

  /** The place of the closing delimiter: a `}`, `)` or `]` with nothing but white space
      behind it in the extent. */
  ghost predicate ClosedAt(src: Text, ext: Extent, close: nat)
    requires ext.start <= ext.end <= |src|
  {
    && ext.start <= close < ext.end && (src[close] == 125 || src[close] == 41 || src[close] == 93)
    && forall i :: close < i < ext.end ==> src[i] == 32 || src[i] == 9 || src[i] == 10 || src[i] == 13
  }

  /** A first member goes inside its container, at the start of the closing delimiter's own
      line, exactly when the delimiter is not on the container's first line; otherwise the
      position is the container's own start. */
  lemma BodyEndInsideIff(src: Text, ext: Extent, close: nat)
    requires ext.start <= ext.end <= |src| && ClosedAt(src, ext, close)
    ensures ext.start <= BodyEnd(src, ext) <= close && forall i :: BodyEnd(src, ext) <= i < close ==> src[i] != 10
    ensures BodyEnd(src, ext) == ext.start || src[BodyEnd(src, ext) - 1] == 10
    ensures BodyEnd(src, ext) > ext.start <==> exists i :: ext.start <= i < close && src[i] == 10
  {
    assert TrimSpace(src, ext.start, ext.end) == close + 1;
    var start := BodyEnd(src, ext);
    assert forall i :: start <= i < close ==> src[i] in src[start..close];
    if start > ext.start {
      assert src[start - 1] == 10;
    }
  }

  /** Without one, as in languages that close by indentation, the position is the
      container's end. */
  lemma OpenBodyEnd(src: Text, ext: Extent)
    requires ext.start <= ext.end <= |src| && forall close: nat :: !ClosedAt(src, ext, close)
    ensures BodyEnd(src, ext) == ext.end
  {
    var end := TrimSpace(src, ext.start, ext.end);
    assert end > ext.start ==> !ClosedAt(src, ext, end - 1);
  }

  // ----- the insertion point -----

  function IndexOf(order: seq<string>, name: string): (i: nat)
    ensures i <= |order| && (i < |order| ==> order[i] == name) && (i == |order| ==> name !in order)
    ensures forall j :: 0 <= j < i ==> order[j] != name
  {
    if order == [] then 0
    else if order[0] == name then 0
    else 1 + IndexOf(order[1..], name)
  }

  /** The first declaration, from `i` on, that starts after `start`. */
  function FirstAfter(s: Sources, start: nat, i: nat): (idx: nat)
    requires i <= |s.workOrder|
    ensures i <= idx <= |s.workOrder|
    ensures idx < |s.workOrder| ==>
              Lookup(s.work, s.workOrder[idx]).Found? && Lookup(s.work, s.workOrder[idx]).res.extent.start > start
    ensures forall j :: i <= j < idx ==>
              var sib := Lookup(s.work, s.workOrder[j]); sib.Found? ==> sib.res.extent.start <= start
    decreases |s.workOrder| - i
  {
    if i == |s.workOrder| then i
    else
      var sib := Lookup(s.work, s.workOrder[i]);
      if sib.Found? && sib.res.extent.start > start then i else FirstAfter(s, start, i + 1)
  }

  /** Where the anchor sits in the declaration table, or where it would sit. */
  function TableIndex(s: Sources, res: Resolution): nat {
    var named := IndexOf(s.workOrder, res.anchor);
    if named < |s.workOrder| then named else FirstAfter(s, res.extent.start, 0)
  }

  predicate EnclosesInWork(s: Sources, anchor: string, res: Resolution) {
    match Lookup(s.work, anchor)
    case Found(outer) => res.extent.Within(outer.extent) && outer.extent != res.extent
    case _ => false
  }

  /** The first declaration from `i` on that HEAD has too. */
  function NextInHead(s: Sources, i: nat): (j: nat)
    ensures j >= i
    ensures j < |s.workOrder| ==> Lookup(s.head, s.workOrder[j]).Found?
    ensures forall k :: i <= k < j && k < |s.workOrder| ==> !Lookup(s.head, s.workOrder[k]).Found?
    decreases |s.workOrder| - i
  {
    if i >= |s.workOrder| || Lookup(s.head, s.workOrder[i]).Found? then i else NextInHead(s, i + 1)
  }

  /** One past the last declaration before `i` that HEAD has too; 0 when there is none. */
  function PrevInHead(s: Sources, i: nat): (j: nat)
    requires i <= |s.workOrder|
    ensures j <= i
    ensures j > 0 ==> Lookup(s.head, s.workOrder[j - 1]).Found?
    ensures forall k :: j <= k < i ==> !Lookup(s.head, s.workOrder[k]).Found?
  {
    if i == 0 || Lookup(s.head, s.workOrder[i - 1]).Found? then i else PrevInHead(s, i - 1)
  }

  /** Inside a container HEAD has: ahead of the next member HEAD has, else at the
      end of the body. */
  function InsidePosition(s: Sources, sib: Resolution, idx: nat): nat
    requires s.Valid() && sib.extent.start <= sib.extent.end <= |s.headSrc|
  {
    var j := NextInHead(s, idx + 1);
    if j < |s.workOrder| && Lookup(s.head, s.workOrder[j]).res.extent.Within(sib.extent)
    then LineBegin(s.headSrc, Lookup(s.head, s.workOrder[j]).res.extent.start)
    else BodyEnd(s.headSrc, sib.extent)
  }

  lemma FoundInBounds(s: Sources, anchor: string)
    requires s.Valid() && Lookup(s.head, anchor).Found?
    ensures
      var ext := Lookup(s.head, anchor).res.extent;
      ext.start <= ext.end <= |s.headSrc|
  {
  }

  function Position(s: Sources, res: Resolution): nat
    requires s.Valid()
  {
    var idx := TableIndex(s, res);
    if !s.headExists then 0
    else
      var i := PrevInHead(s, idx);
      if i > 0 then
        var sib := Lookup(s.head, s.workOrder[i - 1]).res;
        if EnclosesInWork(s, s.workOrder[i - 1], res) then InsidePosition(s, sib, idx) else sib.extent.end
      else
        var j := NextInHead(s, idx + 1);
        if j < |s.workOrder| then Lookup(s.head, s.workOrder[j]).res.extent.start else |s.headSrc|
  }

  /** Indentation and all: the text an insertion carries. */
  function InsertionText(src: Text, ext: Extent): Text
    requires ext.start <= ext.end <= |src|
  {
    src[LineStart(src, ext.start)..ext.start] + src[ext.start..ext.end]
  }

  // ----- classification -----

  datatype Failure = ResolverBroken | AnchorAmbiguous | AnchorUnresolvable

  datatype Classified = Planned(op: EditOp, identical: bool) | Failed(error: Failure)

  /** A member of a container that HEAD lacks is widened to the container. */
  datatype Widened = Widened(res: Resolution, isMember: bool, escalated: bool) | WideningFailed(error: Failure)

  function Escalation(s: Sources, member: Resolution): Widened {
    if member.container == "" || s.flatContainer then Widened(member, false, false)
    else match Lookup(s.work, member.EnclosingName())
      case Unresolvable => Widened(member, false, false)
      case Ambiguous => WideningFailed(AnchorAmbiguous)
      case Broken => WideningFailed(ResolverBroken)
      case Found(outer) =>
        if !member.extent.Within(outer.extent) then Widened(member, false, false)
        else if s.InHead(member.EnclosingName()).Found? then Widened(member, true, false)
        else Widened(outer, false, true)
  }

  /** What naming a new symbol stages, if anything. */
  function Staged(s: Sources, anchor: string): Extent {
    match Lookup(s.work, anchor)
    case Found(res) => (match Escalation(s, res) case Widened(part, _, _) => part.extent case _ => Extent(0, 0))
    case _ => Extent(0, 0)
  }

  /** The worktree declaration that holds `member` under the name of its container. */
  predicate Holder(s: Sources, member: Resolution, outer: Resolution) {
    && member.container != "" && !s.flatContainer
    && Lookup(s.work, member.EnclosingName()) == Found(outer) && member.extent.Within(outer.extent)
  }

  /** What is staged for a new member always has the member in it. It is more than the
      member exactly when the container that holds it in the worktree is missing in HEAD,
      and then it is that container; the member sits among siblings exactly when HEAD has
      that container; and only a container name that cannot be resolved to one
      declaration, and is asked about, stops it. */
  lemma EscalationMeans(s: Sources, member: Resolution)
    ensures
      var w := Escalation(s, member);
      && (w.Widened? ==> member.extent.Within(w.res.extent))
      && (w.Widened? && w.escalated <==>
            exists outer :: Holder(s, member, outer) && !s.InHead(member.EnclosingName()).Found?)
      && (w.Widened? && w.escalated ==> Holder(s, member, w.res))
      && (w.Widened? && !w.escalated ==> w.res == member)
      && (w.Widened? && w.isMember <==>
            exists outer :: Holder(s, member, outer) && s.InHead(member.EnclosingName()).Found?)
      && (w.WideningFailed? <==>
            && member.container != "" && !s.flatContainer
            && (Lookup(s.work, member.EnclosingName()).Ambiguous? || Lookup(s.work, member.EnclosingName()).Broken?))
  {
    var o := Lookup(s.work, member.EnclosingName());
    if o.Found? {
      assert Holder(s, member, o.res) || !Holder(s, member, o.res);
    }
  }

  /** Nothing in the worktree holds it: a receiver method stands alone, a struct field does not. */
  predicate StandsAlone(s: Sources, res: Resolution) {
    Escalation(s, res) == Widened(res, false, false)
  }

  /** A member of a container that HEAD lacks. */
  ghost predicate LacksContainer(s: Sources, res: Resolution) {
    exists outer :: Holder(s, res, outer) && !s.InHead(res.EnclosingName()).Found?
  }

  /** Widening goes up one container and stops. What is staged stands alone exactly when
      nothing holds it in turn and its own container's name is not one that stops it; and it
      is itself a member of a container HEAD lacks exactly when it was widened and would be
      widened again. */
  lemma WideningStopsIff(s: Sources, member: Resolution)
    requires Escalation(s, member).Widened?
    ensures
      var w := Escalation(s, member);
      var again := Escalation(s, w.res);
      && (StandsAlone(s, w.res) <==> again.Widened? && !exists outer :: Holder(s, w.res, outer))
      && (LacksContainer(s, w.res) <==> w.escalated && again.Widened? && again.escalated)
  {
    hide Escalation, Holder;
    EscalationMeans(s, member);
    EscalationMeans(s, Escalation(s, member).res);
  }

  function InsertOp(s: Sources, res: Resolution, isMember: bool): EditOp
    requires s.Valid() && res.extent.start <= res.extent.end <= |s.workSrc|
  {
    EditOp(Insert, Position(s, res), 0, InsertionText(s.workSrc, res.extent), res.extent.start,
           res.extent.start, res.extent.end, isMember && s.membersSitFlush,
           s.workSrc[RunBefore(s.workSrc, res.extent.start)..res.extent.start],
           s.workSrc[res.extent.end..RunAfter(s.workSrc, res.extent.end)])
  }

  function ReplaceOp(s: Sources, work: Extent, head: Extent): EditOp
    requires work.start <= work.end <= |s.workSrc|
  {
    EditOp(Replace, head.start, head.end, s.workSrc[work.start..work.end], 0, work.start, work.end, false, [], [])
  }

  function DeleteOp(s: Sources, head: Extent): EditOp
    requires head.start <= head.end <= |s.headSrc|
  {
    EditOp(Delete, LineStart(s.headSrc, head.start), head.end, [], 0, 0, 0, false, [], [])
  }

  function Classification(s: Sources, anchor: string): Classified
    requires s.Valid()
  {
    var w, h := s.InWork(anchor), s.InHead(anchor);
    if w.Broken? || h.Broken? then Failed(ResolverBroken)
    else if w.Ambiguous? || h.Ambiguous? then Failed(AnchorAmbiguous)
    else if w.Found? && h.Found? then
      Planned(ReplaceOp(s, w.res.extent, h.res.extent),
              s.workSrc[w.res.extent.start..w.res.extent.end] == s.headSrc[h.res.extent.start..h.res.extent.end])
    else if w.Found? then
      var widened := Escalation(s, w.res);
      if widened.WideningFailed? then Failed(widened.error)
      else Planned(InsertOp(s, widened.res, widened.isMember), false)
    else if h.Found? then Planned(DeleteOp(s, h.res.extent), false)
    else Failed(AnchorUnresolvable)
  }

  /** The worktree resolutions a language server is asked about. */
  function CrossChecked(s: Sources, anchor: string): seq<Resolution>
    requires s.Valid()
  {
    var w := s.InWork(anchor);
    if Classification(s, anchor).Failed? || !w.Found? then []
    else
      var res := if s.InHead(anchor).Found? then w.res else Escalation(s, w.res).res;
      if res.pseudo then [] else [res]
  }

  function Escalated(s: Sources, anchor: string): seq<(string, string)>
    requires s.Valid()
  {
    var w := s.InWork(anchor);
    if w.Found? && !s.InHead(anchor).Found? && Classification(s, anchor).Planned? && Escalation(s, w.res).escalated
    then [(w.res.anchor, w.res.EnclosingName())] else []
  }

  /** One file's plan: edits, notices and queued cross-checks accumulate on it. */
  class FilePlan {
    const src: Sources
    var ops: seq<EditOp>
    var pendingCrossCheck: seq<Resolution>
    var escalated: seq<(string, string)>

    constructor (src: Sources)
      ensures this.src == src && ops == [] && pendingCrossCheck == [] && escalated == []
    {
      this.src := src;
      ops, pendingCrossCheck, escalated := [], [], [];
    }

    method DeferCrossCheck(res: Resolution)
      modifies this`pendingCrossCheck
      ensures pendingCrossCheck == old(pendingCrossCheck) + if res.pseudo then [] else [res]
    {
      if res.pseudo {
        return;
      }
      pendingCrossCheck := pendingCrossCheck + [res];
    }

    method EscalateToContainer(member: Resolution) returns (r: Widened)
      modifies this`escalated
      ensures r == Escalation(src, member)
      ensures escalated == old(escalated) +
                if r.Widened? && r.escalated then [(member.anchor, member.EnclosingName())] else []
    {
      if member.container == "" {
        return Widened(member, false, false);
      }
      if src.flatContainer {
        return Widened(member, false, false);
      }
      var container := member.EnclosingName();
      match Lookup(src.work, container)
      case Unresolvable => return Widened(member, false, false);
      case Ambiguous => return WideningFailed(AnchorAmbiguous);
      case Broken => return WideningFailed(ResolverBroken);
      case Found(outer) =>
        if outer.extent.start > member.extent.start || member.extent.end > outer.extent.end {
          return Widened(member, false, false);
        }
        if src.headExists && Lookup(src.head, container).Found? {
          return Widened(member, true, false);
        }
        escalated := escalated + [(member.anchor, container)];
        return Widened(outer, false, true);
    }

    /** The anchor's place in the declaration table, by name or else by offset. */
    method Locate(res: Resolution) returns (idx: nat)
      ensures idx == TableIndex(src, res) && idx <= |src.workOrder|
    {
      var n := |src.workOrder|;
      idx := IndexOf(src.workOrder, res.anchor);
      if idx < n {
        return;
      }
      idx := 0;
      while idx < n
        invariant idx <= n && FirstAfter(src, res.extent.start, idx) == FirstAfter(src, res.extent.start, 0)
      {
        var sib := Lookup(src.work, src.workOrder[idx]);
        if sib.Found? && sib.res.extent.start > res.extent.start {
          return;
        }
        idx := idx + 1;
      }
    }

    /** The place inside the container `sib`: ahead of the next member HEAD has. */
    method PointInside(sib: Resolution, idx: nat) returns (pos: nat)
      requires src.Valid() && sib.extent.start <= sib.extent.end <= |src.headSrc|
      ensures pos == InsidePosition(src, sib, idx)
    {
      var j := idx + 1;
      while j < |src.workOrder|
        invariant NextInHead(src, j) == NextInHead(src, idx + 1)
      {
        var after := Lookup(src.head, src.workOrder[j]);
        if after.Found? {
          if after.res.extent.start >= sib.extent.start && after.res.extent.end <= sib.extent.end {
            pos := LineStartOf(src.headSrc, after.res.extent.start);
            return;
          }
          break;
        }
        j := j + 1;
      }
      pos := ContainerBodyEnd(src.headSrc, sib.extent);
    }

    method InsertionPoint(res: Resolution) returns (pos: nat, order: int)
      requires src.Valid()
      ensures pos == Position(src, res) && order == res.extent.start
    {
      hide Sources.Valid, TableIndex, InsidePosition, EnclosesInWork, Lookup;
      order := res.extent.start;
      var idx := Locate(res);
      if !src.headExists {
        return 0, order;
      }
      var i := idx;
      while i > 0
        invariant 0 <= i <= idx && PrevInHead(src, i) == PrevInHead(src, idx)
      {
        i := i - 1;
        var sib := Lookup(src.head, src.workOrder[i]);
        if sib.Found? {
          FoundInBounds(src, src.workOrder[i]);
          if EnclosesInWork(src, src.workOrder[i], res) {
            pos := PointInside(sib.res, idx);
            return;
          }
          return sib.res.extent.end, order;
        }
      }
      var j := idx + 1;
      while j < |src.workOrder|
        invariant NextInHead(src, j) == NextInHead(src, idx + 1)
      {
        var sib := Lookup(src.head, src.workOrder[j]);
        if sib.Found? {
          return sib.res.extent.start, order;
        }
        j := j + 1;
      }
      return |src.headSrc|, order;
    }

    method Classify(anchor: string) returns (r: Classified)
      requires src.Valid()
      modifies this`pendingCrossCheck, this`escalated
      ensures r == Classification(src, anchor)
      ensures pendingCrossCheck == old(pendingCrossCheck) + CrossChecked(src, anchor)
      ensures escalated == old(escalated) + Escalated(src, anchor)
    {
      var w, h := src.InWork(anchor), src.InHead(anchor);
      if w.Broken? || h.Broken? {
        return Failed(ResolverBroken);
      }
      if w.Ambiguous? || h.Ambiguous? {
        return Failed(AnchorAmbiguous);
      }
      if w.Found? && h.Found? {
        DeferCrossCheck(w.res);
        r := Planned(ReplaceOp(src, w.res.extent, h.res.extent),
                     src.workSrc[w.res.extent.start..w.res.extent.end] == src.headSrc[h.res.extent.start..h.res.extent.end]);
      } else if w.Found? {
        var widened := EscalateToContainer(w.res);
        match widened
        case WideningFailed(e) => return Failed(e);
        case Widened(res, isMember, _) =>
          var pos, order := InsertionPoint(res);
          DeferCrossCheck(res);
          var lead := LeadingGap(src.workSrc, res.extent.start);
          var trail := TrailingGap(src.workSrc, res.extent.end);
          r := Planned(EditOp(Insert, pos, 0, InsertionText(src.workSrc, res.extent), order, res.extent.start,
                              res.extent.end, isMember && src.membersSitFlush, lead, trail), false);
      } else if h.Found? {
        r := Planned(DeleteOp(src, h.res.extent), false);
      } else {
        r := Failed(AnchorUnresolvable);
      }
    }
  }

  /** When an anchor cannot be staged, and why: a broken resolver on either side before all
      else, then a name either side finds ambiguous, then one neither side has; and for a new
      member, a container's name that breaks the resolver or is ambiguous. */
  lemma FailsIff(s: Sources, anchor: string)
    requires s.Valid()
    ensures
      var w, h, c := s.InWork(anchor), s.InHead(anchor), Classification(s, anchor);
      var added := w.Found? && h.Unresolvable?;
      var outer := if added && w.res.container != "" && !s.flatContainer then Lookup(s.work, w.res.EnclosingName()) else Unresolvable;
      && (c == Failed(ResolverBroken) <==> w.Broken? || h.Broken? || (added && outer.Broken?))
      && (c == Failed(AnchorAmbiguous) <==>
            && !w.Broken? && !h.Broken?
            && (w.Ambiguous? || h.Ambiguous? || (added && outer.Ambiguous?)))
      && (c == Failed(AnchorUnresolvable) <==> w.Unresolvable? && h.Unresolvable?)
      && (c.Planned? ==>
            && (c.op.kind.Replace? <==> w.Found? && h.Found?)
            && (c.op.kind.Insert? <==> added)
            && (c.op.kind.Delete? <==> w.Unresolvable? && h.Found?))
  {
    hide Position, LineStart, RunBefore, RunAfter;
  }

  /** What is queued for the language server is what is staged from the worktree, pseudo-anchors
      aside; nothing is for a deletion. A notice is given exactly for a symbol staged as the
      container that holds it. */
  lemma QueuedIsStaged(s: Sources, anchor: string)
    requires s.Valid() && Classification(s, anchor).Planned?
    ensures
      var op := Classification(s, anchor).op;
      && (op.kind.Delete? ==> CrossChecked(s, anchor) == [])
      && (!op.kind.Delete? ==> exists res: Resolution ::
            res.extent.start == op.wstart && res.extent.end == op.wend
            && CrossChecked(s, anchor) == if res.pseudo then [] else [res])
      && (Escalated(s, anchor) != [] <==>
            op.kind.Insert? && exists outer :: Holder(s, s.InWork(anchor).res, outer)
                                 && !s.InHead(s.InWork(anchor).res.EnclosingName()).Found?)
      && (Escalated(s, anchor) != [] ==>
            && Escalated(s, anchor) == [(s.InWork(anchor).res.anchor, s.InWork(anchor).res.EnclosingName())]
            && Lookup(s.work, s.InWork(anchor).res.EnclosingName()).Found?
            && Lookup(s.work, s.InWork(anchor).res.EnclosingName()).res.extent == Extent(op.wstart, op.wend))
  {
    hide Position, LineStart, RunBefore, RunAfter;
    var w := s.InWork(anchor);
    if w.Found? {
      EscalationMeans(s, w.res);
    }
  }

  // ----- what every planned edit promises -----

  /** Whatever the tables hold, a planned edit addresses HEAD in bounds, and its gaps
      are newline runs read off the worktree. */
  lemma PlannedInBounds(s: Sources, anchor: string)
    requires s.Valid() && Classification(s, anchor).Planned?
    ensures
      var op := Classification(s, anchor).op;
      op.start <= op.End() <= |s.headSrc| && op.GapsAreNewlines()
  {
    var w := s.InWork(anchor);
    if w.Found? && !s.InHead(anchor).Found? {
      var res := Escalation(s, w.res).res;
      PositionInBounds(s, res);
    }
  }

  lemma PositionInBounds(s: Sources, res: Resolution)
    requires s.Valid()
    ensures Position(s, res) <= |s.headSrc|
  {
    var idx := TableIndex(s, res);
    var i := PrevInHead(s, idx);
    if s.headExists && i > 0 && EnclosesInWork(s, s.workOrder[i - 1], res) {
      var sib := Lookup(s.head, s.workOrder[i - 1]).res;
      assert BodyEnd(s.headSrc, sib.extent) <= sib.extent.end;
    }
  }

  /** A deletion takes the symbol's own indentation with it and nothing else: the cut
      begins a line exactly when only blanks stand before the symbol on its line. */
  lemma DeleteTakesIndent(s: Sources, head: Extent)
    requires head.start <= head.end <= |s.headSrc|
    ensures
      var op := DeleteOp(s, head);
      && op.end == head.end && op.start <= head.start
      && (forall i :: op.start <= i < head.start ==> s.headSrc[i] == 32 || s.headSrc[i] == 9)
      && (op.start == 0 || s.headSrc[op.start - 1] == 10 <==>
            forall i :: LineBegin(s.headSrc, head.start) <= i < head.start ==> s.headSrc[i] == 32 || s.headSrc[i] == 9)
  {
  }
}
