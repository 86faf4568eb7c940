/** A file HEAD does not have: the automatic preamble, and staging everything. */
module NewFile {
  import opened Seqs
  import opened Bytes
  import opened Sorting
  import opened Splice
  import opened SpliceLaws
  import opened Coalesce
  import opened ApplyEdits
  import opened Placement

  // ----- the preamble -----

  function SeparatorEnd(src: Text, end: nat, limit: nat): (stop: nat)
    requires limit <= |src|
    ensures end <= stop && (end < stop ==> stop <= limit)
    ensures forall i :: end <= i < stop ==> IsSpace(src[i])
    ensures stop >= limit || !IsSpace(src[stop])
    decreases limit - end
  {
    if end < limit && IsSpace(src[end]) then SeparatorEnd(src, end + 1, limit) else end
  }

  /** Widens an extent through the blank space after it, where the language's own
      convention makes that space part of the region. */
  method ExtendThroughOwnedSeparator(owns: bool, src: Text, ext: Extent, limit: nat) returns (r: Extent)
    requires limit <= |src|
    ensures r == Extent(ext.start, if owns then SeparatorEnd(src, ext.end, limit) else ext.end)
  {
    if !owns {
      return ext;
    }
    var end := ext.end;
    while end < limit
      invariant SeparatorEnd(src, end, limit) == SeparatorEnd(src, ext.end, limit)
    {
      if IsSpace(src[end]) {
        end := end + 1;
      } else {
        return Extent(ext.start, end);
      }
    }
    return Extent(ext.start, end);
  }

  const HEADER := "@header"
  const IMPORTS := "@imports"

  function FirstDeclStart(s: Sources): (limit: nat)
    requires s.Valid()
    ensures limit <= |s.workSrc|
  {
    if s.workOrder != [] && Lookup(s.work, s.workOrder[0]).Found?
    then Lookup(s.work, s.workOrder[0]).res.extent.start
    else |s.workSrc|
  }

  function Limit(s: Sources, pseudo: string): (limit: nat)
    requires s.Valid()
    ensures limit <= |s.workSrc|
  {
    if pseudo == HEADER && Lookup(s.work, IMPORTS).Found? then Lookup(s.work, IMPORTS).res.extent.start
    else FirstDeclStart(s)
  }

  /** The insertion staged for a pseudo-anchor nobody named. */
  function PreambleOp(s: Sources, pseudo: string): EditOp
    requires s.Valid() && Lookup(s.work, pseudo).Found?
  {
    var ext := Lookup(s.work, pseudo).res.extent;
    var end := if s.ownsSeparator then SeparatorEnd(s.workSrc, ext.end, Limit(s, pseudo)) else ext.end;
    EditOp(Insert, 0, 0, s.workSrc[ext.start..end], ext.start, 0, 0, false, [], [])
  }

  function PreambleFor(s: Sources, pseudo: string, named: set<string>): seq<EditOp>
    requires s.Valid()
  {
    if pseudo in named || !Lookup(s.work, pseudo).Found? then [] else [PreambleOp(s, pseudo)]
  }

  function Preamble(s: Sources, named: set<string>): seq<EditOp>
    requires s.Valid()
  {
    if s.headExists || !s.workExists then []
    else PreambleFor(s, HEADER, named) + PreambleFor(s, IMPORTS, named)
  }

  /** Stages `@header` and `@imports` for a file that HEAD lacks; a region that
      resolves to nothing is skipped. */
  method AddPreamble(plan: FilePlan, named: set<string>)
    requires plan.src.Valid()
    modifies plan`ops
    ensures plan.ops == old(plan.ops) + Preamble(plan.src, named)
    ensures plan.src.headExists || !plan.src.workExists ==> plan.ops == old(plan.ops)
  {
    var s := plan.src;
    if s.headExists || !s.workExists {
      return;
    }
    var pseudos := [HEADER, IMPORTS];
    ghost var before := plan.ops;
    for i := 0 to 2
      invariant plan.ops == before + (if i > 0 then PreambleFor(s, HEADER, named) else [])
                                   + (if i > 1 then PreambleFor(s, IMPORTS, named) else [])
    {
      var pseudo := pseudos[i];
      if pseudo in named {
        continue;
      }
      match Lookup(s.work, pseudo)
      case Found(res) =>
        var ext := ExtendThroughOwnedSeparator(s.ownsSeparator, s.workSrc, res.extent, Limit(s, pseudo));
        var op := EditOp(Insert, 0, 0, s.workSrc[ext.start..ext.end], res.extent.start, 0, 0, false, [], []);
        plan.ops := plan.ops + [op];
      case _ =>
    }
  }

  /** The preamble is one insertion at the top for each of the two regions that the new file
      has and nobody named, in the region's own place; a tracked file has none. */
  lemma PreambleIs(s: Sources, named: set<string>)
    requires s.Valid()
    ensures s.headExists || !s.workExists ==> Preamble(s, named) == []
    ensures forall op <- Preamble(s, named) :: exists a <- ["@header", "@imports"] ::
              a !in named && Lookup(s.work, a).Found? && op == PreambleOp(s, a)
              && op.kind.Insert? && op.start == 0 && op.order == Lookup(s.work, a).res.extent.start
    ensures !s.headExists && s.workExists ==> forall a <- ["@header", "@imports"] ::
              a !in named && Lookup(s.work, a).Found? ==> PreambleOp(s, a) in Preamble(s, named)
  {
    hide Limit, SeparatorEnd;
    assert "@header" in ["@header", "@imports"] && "@imports" in ["@header", "@imports"];
  }

  /** Where the language makes the blank line after such a region part of it, the staged text
      reaches to the next region; elsewhere it is the region's own. */
  lemma PreambleTakesSeparator(s: Sources, pseudo: string)
    requires s.Valid() && Lookup(s.work, pseudo).Found?
    ensures
      var e, limit := Lookup(s.work, pseudo).res.extent, Limit(s, pseudo);
      && (!s.ownsSeparator ==> PreambleOp(s, pseudo).text == s.workSrc[e.start..e.end])
      && (s.ownsSeparator && e.end <= limit
          && (forall i :: e.end <= i < limit ==> s.workSrc[i] == 32 || s.workSrc[i] == 9 || s.workSrc[i] == 10 || s.workSrc[i] == 13) ==>
            PreambleOp(s, pseudo).text == s.workSrc[e.start..limit])
  {
    hide Limit;
    var e, limit := Lookup(s.work, pseudo).res.extent, Limit(s, pseudo);
    if s.ownsSeparator && e.end <= limit && forall i :: e.end <= i < limit ==> IsSpace(s.workSrc[i]) {
      assert SeparatorEnd(s.workSrc, e.end, limit) == limit;
    }
  }

  /** The end-of-file newline of a file with no HEAD blob comes from the worktree. */
  function InheritEOF(s: Sources, content: Text): Text {
    if s.headExists || !s.workExists || content == [] then content
    else if EndsNL(s.workSrc) && !EndsNL(content) then content + [NL]
    else content
  }

  // ----- a file that is a chain of parts -----

  /** Parts side by side from the start of the file, each free of newlines at its two
      ends, at least one blank line between neighbours, and at most one newline at
      the end of the file. */
  ghost predicate Chain(src: Text, parts: seq<Extent>) {
    && parts != [] && parts[0].start == 0
    && (forall i :: 0 <= i < |parts| ==> SolidPart(src, parts[i]))
    && (forall i :: 0 < i < |parts| ==> BlankLineBetween(src, parts[i - 1], parts[i]))
    && (src[parts[|parts| - 1].end..] == [] || src[parts[|parts| - 1].end..] == [NL])
  }

  ghost predicate SolidPart(src: Text, e: Extent) {
    e.start < e.end <= |src| && src[e.start] != NL && src[e.end - 1] != NL
  }

  ghost predicate BlankLineBetween(src: Text, a: Extent, b: Extent) {
    a.end + 2 <= b.start <= |src| && AllNL(src[a.end..b.start])
  }

  /** `op` stages the part `parts[i]`: its text, perhaps with newlines after it, at
      the top of an empty blob, joined by the gap the file has in front of it. */
  ghost predicate StagesPart(src: Text, parts: seq<Extent>, i: nat, op: EditOp)
    requires Chain(src, parts) && i < |parts|
  {
    var e := parts[i];
    && op.kind.Insert? && op.start == 0 && op.order == e.start && !op.member && op.GapsAreNewlines()
    && src[e.start..e.end] <= op.text && AllNL(op.text[e.end - e.start..])
    && (i > 0 ==> WiderGap(false, op.leadGap) == src[parts[i - 1].end..e.start])
    && (op.wstart == op.wend == 0 || (op.wstart == e.start && op.wend == e.end))
  }

  lemma JoinNext(src: Text, a: Extent, b: Extent, text: Text, op: EditOp)
    requires SolidPart(src, a) && SolidPart(src, b) && BlankLineBetween(src, a, b)
    requires src[..a.end] <= text && AllNL(text[a.end..])
    requires src[b.start..b.end] <= op.text && AllNL(op.text[b.end - b.start..])
    requires WiderGap(false, op.leadGap) == src[a.end..b.start]
    ensures
      var r := Join(text, op.text, WiderGap(false, op.leadGap));
      src[..b.end] <= r && AllNL(r[b.end..])
  {
    hide TrimLeft, TrimRight, WiderGap;
    var l, tail := src[..a.end], op.text[b.end - b.start..];
    assert text == l + text[a.end..];
    TrimRightIs(l, text[a.end..]);
    assert op.text == src[b.start..b.end] + tail;
    assert op.text[0] == src[b.start];
    TrimLeftIs([], op.text);
    assert [] + op.text == op.text;
    var r := Join(text, op.text, WiderGap(false, op.leadGap));
    assert r == l + src[a.end..b.start] + op.text;
    assert src[..b.end] == l + src[a.end..b.start] + src[b.start..b.end];
    assert r == src[..b.end] + tail;
  }

  /** Joining the parts in order rebuilds the file up to the last part's end. */
  lemma {:induction false} JoinRebuilds(src: Text, parts: seq<Extent>, ops: seq<EditOp>, i: nat, text: Text)
    requires Chain(src, parts) && |ops| == |parts| && i < |parts|
    requires forall k :: 0 <= k < |ops| ==> StagesPart(src, parts, k, ops[k])
    requires src[..parts[i].end] <= text && AllNL(text[parts[i].end..])
    ensures
      var last := parts[|parts| - 1];
      var r := JoinTexts(text, ops[i + 1..], false);
      last.end <= |src| && src[..last.end] <= r && AllNL(r[last.end..])
    decreases |parts| - i
  {
    hide TrimLeft, TrimRight, WiderGap, Join;
    if i + 1 < |parts| {
      var op := ops[i + 1];
      assert SolidPart(src, parts[i]) && SolidPart(src, parts[i + 1]);
      assert BlankLineBetween(src, parts[(i + 1) - 1], parts[i + 1]);
      assert StagesPart(src, parts, i + 1, op);
      JoinNext(src, parts[i], parts[i + 1], text, op);
      assert ops[i + 1..][1..] == ops[i + 2..];
      JoinRebuilds(src, parts, ops, i + 1, Join(text, op.text, WiderGap(false, op.leadGap)));
    }
  }

  // ----- one group of insertions, in whatever order it was named -----

  lemma LeastFirst<T(!new)>(s: seq<T>, t: seq<T>, key: T -> int)
    requires multiset(s) == multiset(t) && Sorted(s, key) && t != []
    requires forall i, j :: 0 <= i < j < |t| ==> key(t[i]) < key(t[j])
    ensures s != [] && s[0] == t[0]
  {
    assert |multiset(s)| == |multiset(t)|;
    assert s[0] in multiset(s) && t[0] in multiset(t);
    var i :| 0 <= i < |t| && t[i] == s[0];
    var j :| 0 <= j < |s| && s[j] == t[0];
    assert key(s[0]) <= key(s[j]);
  }

  lemma RestSame<T>(s: seq<T>, t: seq<T>)
    requires s != [] && t != [] && s[0] == t[0] && multiset(s) == multiset(t)
    ensures multiset(s[1..]) == multiset(t[1..])
  {
    assert s == [s[0]] + s[1..] && t == [t[0]] + t[1..];
    assert multiset(s[1..]) == multiset(s) - multiset{s[0]};
    assert multiset(t[1..]) == multiset(t) - multiset{t[0]};
  }

  lemma {:induction false} StrictlySortedUnique<T(!new)>(s: seq<T>, t: seq<T>, key: T -> int)
    requires multiset(s) == multiset(t)
    requires Sorted(s, key)
    requires forall i, j :: 0 <= i < j < |t| ==> key(t[i]) < key(t[j])
    ensures s == t
  {
    if t == [] {
      assert |multiset(s)| == |multiset(t)|;
    } else {
      LeastFirst(s, t, key);
      RestSame(s, t);
      StrictlySortedUnique(s[1..], t[1..], key);
      assert s == [s[0]] + s[1..] && t == [t[0]] + t[1..];
    }
  }

  lemma {:induction false} AllOneGroup(ops: seq<EditOp>)
    requires forall op <- ops :: op.kind.Insert? && op.start == 0
    ensures GroupAt(ops, 0) == ops && Ranges(ops) == [] && Offsets(ops) == if ops == [] then [] else [0]
  {
    if ops != [] {
      var before, op := ops[..|ops| - 1], ops[|ops| - 1];
      assert ops == before + [op];
      AllOneGroup(before);
    }
  }

  lemma FoldOne(m: EditOp)
    requires m.kind.Insert?
    ensures Ordered([m]) && Fold([], [m]) == Some(SpliceInsert([], m))
  {
    hide SpliceInsert;
    assert [m][1..] == [];
  }

  lemma MergeGroupKind(group: seq<EditOp>)
    requires group != []
    ensures MergeGroup(0, group).kind.Insert? && MergeGroup(0, group).start == 0
  {
  }

  lemma OneMerged(ranked: seq<EditOp>, m: EditOp)
    requires Grouped(ranked, 0) != [] && m == MergeGroup(0, Grouped(ranked, 0))
    requires Ranges(ranked) == [] && Offsets(ranked) == [0]
    ensures Merged(ranked) == [m] && StableSort(Merged(ranked), HighestFirst) == [m]
  {
    hide Grouped, MergeGroup;
    assert [0][..0] == [];
    assert MergeAll(ranked, [0]) == MergeAll(ranked, []) + MergedAt(ranked, 0);
    assert [m][..0] == [];
    assert StableSort([m], HighestFirst) == InsertByKey(m, [], HighestFirst) == [m];
  }

  lemma {:induction false} KeepSub(kept: seq<EditOp>, ranked: seq<EditOp>)
    ensures multiset(Keep(kept, ranked)) <= multiset(kept) + multiset(ranked)
    decreases |ranked|
  {
    hide Swallowed;
    if ranked != [] {
      var op, rest := ranked[0], ranked[1..];
      assert ranked == [op] + rest;
      KeepSub(if Swallowed(kept, op) then kept else kept + [op], rest);
    }
  }

  lemma {:induction false} AtMostOnce<T>(s: seq<T>, x: T)
    requires forall a, b :: 0 <= a < b < |s| ==> s[a] != x || s[b] != x
    ensures multiset(s)[x] <= 1
  {
    if s != [] {
      var r := s[..|s| - 1];
      assert s == r + [s[|s| - 1]];
      AtMostOnce(r, x);
      if s[|s| - 1] == x {
        assert x !in r;
      }
    }
  }

  lemma OnceThere(s: seq<EditOp>, i: nat)
    requires i < |s| && forall i, j :: 0 <= i < j < |s| ==> s[i].order < s[j].order
    ensures multiset(s)[s[i]] == 1
  {
    AtMostOnce(s, s[i]);
    assert s[i] in multiset(s);
  }

  /** `ops` names each of `inOrder`, a declaration perhaps more than once. */
  ghost predicate Covering(ops: seq<EditOp>, inOrder: seq<EditOp>) {
    && (forall op :: op in ops <==> op in inOrder)
    && (forall op <- ops :: op.wend > op.wstart || multiset(ops)[op] == 1)
  }

  /** The insertions of an empty blob, one for each part, none part of another. */
  ghost predicate PartsOf(inOrder: seq<EditOp>) {
    && inOrder != [] && (forall op <- inOrder :: op.kind.Insert? && op.start == 0)
    && (forall i, j :: 0 <= i < j < |inOrder| ==> inOrder[i].order < inOrder[j].order)
    && (forall i, j :: 0 <= i < |inOrder| && 0 <= j < |inOrder| && i != j ==> !Swallows(inOrder[i], inOrder[j]))
  }

  /** Each is kept once. */
  lemma KeptOnce(ops: seq<EditOp>, inOrder: seq<EditOp>)
    requires Covering(ops, inOrder) && PartsOf(inOrder)
    ensures multiset(Coalesced(ops)) == multiset(inOrder)
  {
    hide Keep;
    var kept := Coalesced(ops);
    CoalescedAccounts(ops);
    forall op | op in inOrder
      ensures op in kept
    {
      forall k | k in kept && Swallows(k, op)
        ensures k == op
      {
        SwallowsItself(inOrder, k, op);
      }
    }
    forall x
      ensures multiset(kept)[x] == multiset(inOrder)[x]
    {
      if x in inOrder {
        var i :| 0 <= i < |inOrder| && inOrder[i] == x;
        OnceThere(inOrder, i);
        KeptAtMostOnce(ops, x);
        assert x in multiset(kept);
      } else {
        assert x !in multiset(kept) && x !in multiset(inOrder);
      }
    }
  }

  lemma SwallowsItself(inOrder: seq<EditOp>, k: EditOp, op: EditOp)
    requires PartsOf(inOrder) && k in inOrder && op in inOrder && Swallows(k, op)
    ensures k == op
  {
    hide Swallows;
    var i :| 0 <= i < |inOrder| && inOrder[i] == op;
    var j :| 0 <= j < |inOrder| && inOrder[j] == k;
    assert i == j;
  }

  lemma KeptAtMostOnce(ops: seq<EditOp>, x: EditOp)
    requires x.kind.Insert? && (x.wend > x.wstart || multiset(ops)[x] == 1)
    ensures multiset(Coalesced(ops))[x] <= 1
  {
    hide Keep;
    var ranked := StableSort(ops, WidestFirst);
    StableSortCorrect(ops, WidestFirst);
    KeepSub([], ranked);
    assert [] + ranked == ranked;
    KeepOrder([], ranked);
    if x.wend > x.wstart {
      assert Swallows(x, x);
      AtMostOnce(Coalesced(ops), x);
    }
  }

  /** The one group of what is kept sorts into file order. */
  lemma KeptInOrder(ops: seq<EditOp>, inOrder: seq<EditOp>)
    requires Covering(ops, inOrder) && PartsOf(inOrder)
    ensures Ranges(Coalesced(ops)) == [] && Offsets(Coalesced(ops)) == [0]
    ensures Grouped(Coalesced(ops), 0) == inOrder
  {
    hide Swallows, StableSort, Coalesced, Ranges, Offsets, GroupAt;
    var kept := Coalesced(ops);
    KeptOnce(ops, inOrder);
    forall op | op in kept
      ensures op in inOrder
    {
      assert op in multiset(kept);
    }
    AllOneGroup(kept);
    StableSortCorrect(kept, WorktreeOrder);
    StrictlySortedUnique(StableSort(kept, WorktreeOrder), inOrder, WorktreeOrder);
    assert |multiset(kept)| == |multiset(inOrder)|;
  }

  /** Insertions into an empty blob are applied as the one text they merge into. */
  lemma OneGroupApplied(ops: seq<EditOp>, inOrder: seq<EditOp>)
    requires Covering(ops, inOrder) && PartsOf(inOrder)
    ensures WellFormed([], ops)
    ensures Applied([], ops) == Some(SpliceInsert([], MergeGroup(0, inOrder)))
  {
    hide Swallows, MergeGroup, SpliceInsert, StableSort, Merged, Coalesced, Grouped, Offsets, Ranges;
    var kept := Coalesced(ops);
    KeptInOrder(ops, inOrder);
    var m := MergeGroup(0, inOrder);
    OneMerged(kept, m);
    DescendingOrdered([], ops);
    MergeGroupKind(inOrder);
    FoldOne(m);
  }

  /** Staging every part of a chain, in any order, once or more, rebuilds the file byte for byte. */
  lemma ChainRebuilt(s: Sources, parts: seq<Extent>, inOrder: seq<EditOp>, ops: seq<EditOp>)
    requires !s.headExists && s.workExists && Chain(s.workSrc, parts)
    requires |inOrder| == |parts| && Covering(ops, inOrder)
    requires forall i :: 0 <= i < |parts| ==> StagesPart(s.workSrc, parts, i, inOrder[i])
    ensures WellFormed([], ops) && Applied([], ops).Some?
    ensures InheritEOF(s, Applied([], ops).value) == s.workSrc
  {
    hide JoinTexts, Applied, Chain, StagesPart, SpliceInsert;
    ChainEnds(s.workSrc, parts);
    PartsApart(s.workSrc, parts, inOrder);
    OneGroupApplied(ops, inOrder);
    var m := MergeGroup(0, inOrder);
    MergedText(s.workSrc, parts, inOrder);
    InsertIntoEmpty(m);
    FinalNewline(s, parts, m.text);
  }

  lemma MergedText(src: Text, parts: seq<Extent>, inOrder: seq<EditOp>)
    requires Chain(src, parts) && |inOrder| == |parts|
    requires forall i :: 0 <= i < |parts| ==> StagesPart(src, parts, i, inOrder[i])
    ensures
      var m, last := MergeGroup(0, inOrder), parts[|parts| - 1];
      && last.end <= |src| && src[..last.end] <= m.text && AllNL(m.text[last.end..])
      && m.kind.Insert? && m.start == 0 && m.text != [] && m.text[0] != NL
  {
    hide JoinTexts, WiderGap;
    var first, last := parts[0], parts[|parts| - 1];
    assert StagesPart(src, parts, 0, inOrder[0]);
    assert src[..first.end] == src[first.start..first.end];
    assert inOrder[0].text[first.end..] == inOrder[0].text[first.end - first.start..];
    JoinRebuilds(src, parts, inOrder, 0, inOrder[0].text);
    assert SolidPart(src, last) && SolidPart(src, first);
    assert MergeGroup(0, inOrder).text[0] == src[..last.end][0];
  }

  lemma FinalNewline(s: Sources, parts: seq<Extent>, text: Text)
    requires !s.headExists && s.workExists && Chain(s.workSrc, parts)
    requires
      var last := parts[|parts| - 1];
      last.end <= |s.workSrc| && s.workSrc[..last.end] <= text && AllNL(text[last.end..])
    ensures InheritEOF(s, TrimRight(text)) == s.workSrc
  {
    hide TrimRight;
    var src, last := s.workSrc, parts[|parts| - 1];
    assert SolidPart(src, last);
    assert text == src[..last.end] + text[last.end..];
    TrimRightIs(src[..last.end], text[last.end..]);
    assert src == src[..last.end] + src[last.end..];
  }

  lemma InsertIntoEmpty(m: EditOp)
    requires m.kind.Insert? && m.start == 0 && m.text != [] && m.text[0] != NL
    ensures SpliceInsert([], m) == TrimRight(m.text)
  {
    hide WiderGap;
    assert TrimRight([]) == [] && TrimLeft([]) == [];
    assert TrimLeft(m.text) == m.text;
  }

  lemma {:induction false} ChainAscends(src: Text, parts: seq<Extent>, i: nat, j: nat)
    requires Chain(src, parts) && i < j < |parts|
    ensures parts[i].end < parts[j].start
    decreases j - i
  {
    assert SolidPart(src, parts[i]) && SolidPart(src, parts[j - 1]);
    assert BlankLineBetween(src, parts[j - 1], parts[j]);
    if i + 1 < j {
      ChainAscends(src, parts, i, j - 1);
    }
  }

  lemma PartsApart(src: Text, parts: seq<Extent>, inOrder: seq<EditOp>)
    requires Chain(src, parts) && |inOrder| == |parts|
    requires forall i :: 0 <= i < |parts| ==> StagesPart(src, parts, i, inOrder[i])
    ensures forall op <- inOrder :: op.kind.Insert? && op.start == 0
    ensures forall i, j :: 0 <= i < j < |inOrder| ==> inOrder[i].order < inOrder[j].order
    ensures forall i, j :: 0 <= i < |inOrder| && 0 <= j < |inOrder| && i != j ==> !Swallows(inOrder[i], inOrder[j])
  {
    hide WiderGap;
    forall i, j | 0 <= i < j < |inOrder|
      ensures inOrder[i].order < inOrder[j].order
      ensures !Swallows(inOrder[i], inOrder[j]) && !Swallows(inOrder[j], inOrder[i])
    {
      ChainAscends(src, parts, i, j);
      assert StagesPart(src, parts, i, inOrder[i]) && StagesPart(src, parts, j, inOrder[j]);
      assert SolidPart(src, parts[i]) && SolidPart(src, parts[j]);
    }
  }

  // ----- the plan for a flat new file -----

  function PseudoExtent(s: Sources, pseudo: string): seq<Extent> {
    if Lookup(s.work, pseudo).Found? then [Lookup(s.work, pseudo).res.extent] else []
  }

  function DeclExtents(s: Sources, outer: seq<string>): seq<Extent>
    requires forall i :: 0 <= i < |outer| ==> Lookup(s.work, outer[i]).Found?
  {
    seq(|outer|, i requires 0 <= i < |outer| => Lookup(s.work, outer[i]).res.extent)
  }

  /** Naming `name` stages the declaration `o`. */
  predicate Brings(s: Sources, name: string, o: string) {
    && Lookup(s.work, name).Found? && Lookup(s.work, o).Found? && Escalation(s, Lookup(s.work, name).res).Widened?
    && Staged(s, name) == Lookup(s.work, o).res.extent
  }

  ghost predicate Brought(s: Sources, outer: seq<string>, name: string) {
    exists o <- outer :: Brings(s, name, o)
  }

  predicate IsOuter(s: Sources, o: string) {
    o in s.workOrder && Lookup(s.work, o).Found? && StandsAlone(s, Lookup(s.work, o).res)
  }

  /** Header, imports and the outermost declarations, in column zero and in that order,
      make up the whole file, with one blank line exactly between header and imports.
      What else is listed may be anything. */
  ghost predicate FlatNewFile(s: Sources, outer: seq<string>) {
    && s.Valid() && !s.headExists && s.workExists
    && HEADER !in s.workOrder && IMPORTS !in s.workOrder
    && (forall i :: 0 <= i < |outer| ==> IsOuter(s, outer[i]))
    && (if s.workOrder == [] then outer == [] else outer != [] && outer[0] == s.workOrder[0])
    && Chain(s.workSrc, PseudoExtent(s, HEADER) + PseudoExtent(s, IMPORTS) + DeclExtents(s, outer))
    && (Lookup(s.work, HEADER).Found? && Lookup(s.work, IMPORTS).Found? ==>
          Lookup(s.work, IMPORTS).res.extent.start == Lookup(s.work, HEADER).res.extent.end + 2)
  }

  /** The edits planned for `names`, in the order they are named. */
  function PlannedOps(s: Sources, names: seq<string>): seq<EditOp>
    requires s.Valid() && forall a <- names :: Classification(s, a).Planned?
  {
    if names == [] then []
    else PlannedOps(s, names[..|names| - 1]) + [Classification(s, names[|names| - 1]).op]
  }

  lemma {:induction false} PlannedOpsAt(s: Sources, names: seq<string>)
    requires s.Valid() && forall a <- names :: Classification(s, a).Planned?
    ensures |PlannedOps(s, names)| == |names|
    ensures forall i :: 0 <= i < |names| ==> PlannedOps(s, names)[i] == Classification(s, names[i]).op
  {
    hide Classification;
    if names != [] {
      PlannedOpsAt(s, names[..|names| - 1]);
    }
  }

  lemma FlatPlanned(s: Sources, outer: seq<string>, name: string)
    requires FlatNewFile(s, outer) && name in outer
    ensures Classification(s, name).Planned?
    ensures Classification(s, name).op == InsertOp(s, Lookup(s.work, name).res, false)
  {
    hide Chain, LineStart, RunBefore, RunAfter, Position;
    var i :| 0 <= i < |outer| && outer[i] == name;
    assert IsOuter(s, outer[i]);
  }

  /** A name that stages an outermost declaration stages the very edit of it. */
  lemma MemberPlanned(s: Sources, outer: seq<string>, name: string)
    requires FlatNewFile(s, outer) && Brought(s, outer, name)
    ensures Classification(s, name).Planned?
    ensures forall o <- outer :: Classification(s, o).Planned?
    ensures forall o <- outer :: Brings(s, name, o) ==> Classification(s, name).op == Classification(s, o).op
  {
    hide FlatNewFile, LineStart, RunBefore, RunAfter, Classification, Brings;
    FlatParts(s, outer);
    forall o | o in outer
      ensures Classification(s, o).Planned?
      ensures Brings(s, name, o) ==> Classification(s, name).Planned? && Classification(s, name).op == Classification(s, o).op
    {
      FlatPlanned(s, outer, o);
      if Brings(s, name, o) {
        BroughtAlike(s, name, o);
      }
    }
  }

  lemma BroughtBy(s: Sources, outer: seq<string>, name: string) returns (o: string)
    requires FlatNewFile(s, outer) && Brought(s, outer, name)
    ensures o in outer && Brings(s, name, o)
    ensures Classification(s, name).Planned? && Classification(s, o).Planned?
    ensures Classification(s, name).op == Classification(s, o).op
  {
    hide FlatNewFile, Brings, Classification;
    o :| o in outer && Brings(s, name, o);
    MemberPlanned(s, outer, name);
  }

  /** In a file HEAD lacks the staged extent alone makes the edit. */
  lemma BroughtAlike(s: Sources, name: string, o: string)
    requires s.Valid() && !s.headExists && s.workExists && Brings(s, name, o)
    requires Classification(s, o).Planned? && Classification(s, o).op == InsertOp(s, Lookup(s.work, o).res, false)
    ensures Classification(s, name).Planned? && Classification(s, name).op == Classification(s, o).op
  {
    hide LineStart, RunBefore, RunAfter, TableIndex;
  }

  /** The edits staged for the whole file, in file order. */
  function WholeFile(s: Sources, outer: seq<string>): seq<EditOp>
    requires s.Valid() && forall a <- outer :: Classification(s, a).Planned?
  {
    PreambleFor(s, HEADER, {}) + PreambleFor(s, IMPORTS, {}) + PlannedOps(s, outer)
  }

  lemma DeclStages(s: Sources, outer: seq<string>, parts: seq<Extent>, i: nat, name: string)
    requires FlatNewFile(s, outer) && Chain(s.workSrc, parts) && i < |parts|
    requires name in outer && Lookup(s.work, name).Found? && parts[i] == Lookup(s.work, name).res.extent
    ensures Classification(s, name).Planned? && StagesPart(s.workSrc, parts, i, Classification(s, name).op)
  {
    hide FlatNewFile, Classification, Position, LineStart, RunBefore, RunAfter;
    FlatPlanned(s, outer, name);
    FlatParts(s, outer);
    AtTheTop(s, Lookup(s.work, name).res);
    var src, e := s.workSrc, parts[i];
    assert SolidPart(src, e);
    if i > 0 {
      assert SolidPart(src, parts[i - 1]) && BlankLineBetween(src, parts[i - 1], e);
      GapBefore(src, parts[i - 1], e);
    } else {
      TopOfFile(src);
    }
    hide Chain, SolidPart, BlankLineBetween;
    assert src[e.start..e.start] == [];
    assert InsertionText(src, e) == src[e.start..e.end];
  }

  lemma AtTheTop(s: Sources, res: Resolution)
    requires s.Valid() && !s.headExists
    ensures Position(s, res) == 0
  {
    hide TableIndex;
  }

  lemma TopOfFile(src: Text)
    ensures LineStart(src, 0) == 0
  {
  }

  lemma GapBefore(src: Text, a: Extent, b: Extent)
    requires SolidPart(src, a) && BlankLineBetween(src, a, b)
    ensures LineStart(src, b.start) == b.start
    ensures WiderGap(false, src[RunBefore(src, b.start)..b.start]) == src[a.end..b.start]
  {
    RunBeforeIs(src, a.end, b.start);
    assert src[b.start - 1] == src[a.end..b.start][b.start - 1 - a.end] == NL;
    var gap := src[a.end..b.start];
    SameRun(gap, [NL, NL]);
  }

  lemma PreambleStages(s: Sources, parts: seq<Extent>, i: nat, pseudo: string)
    requires s.Valid() && Chain(s.workSrc, parts) && i < |parts|
    requires Lookup(s.work, pseudo).Found? && parts[i] == Lookup(s.work, pseudo).res.extent
    requires i + 1 < |parts| ==> Limit(s, pseudo) == parts[i + 1].start
    requires i + 1 == |parts| ==> Limit(s, pseudo) == |s.workSrc|
    requires i > 0 ==> parts[i].start == parts[i - 1].end + 2
    ensures StagesPart(s.workSrc, parts, i, PreambleOp(s, pseudo))
  {
    hide Limit, SeparatorEnd;
    var src, e, limit := s.workSrc, parts[i], Limit(s, pseudo);
    assert SolidPart(src, e);
    assert e.end <= limit && AllNL(src[e.end..limit]) by {
      if i + 1 < |parts| {
        assert BlankLineBetween(src, parts[(i + 1) - 1], parts[i + 1]);
      }
    }
    var end := if s.ownsSeparator then SeparatorEnd(src, e.end, limit) else e.end;
    OwnedText(src, e, end, limit);
    if i > 0 {
      assert BlankLineBetween(src, parts[i - 1], e);
      SameRun(src[parts[i - 1].end..e.start], [NL, NL]);
    }
  }

  lemma OwnedText(src: Text, e: Extent, end: nat, limit: nat)
    requires e.start < e.end <= end <= limit <= |src| && AllNL(src[e.end..limit])
    ensures src[e.start..e.end] <= src[e.start..end] && AllNL(src[e.start..end][e.end - e.start..])
  {
    var core, tail := src[e.start..e.end], src[e.end..end];
    assert src[e.start..end] == core + tail;
    Cut(core, tail);
    assert tail == src[e.end..limit][..end - e.end];
  }

  lemma WholeFileStages(s: Sources, outer: seq<string>)
    requires FlatNewFile(s, outer)
    ensures forall a <- outer :: Classification(s, a).Planned?
    ensures
      var parts := PseudoExtent(s, HEADER) + PseudoExtent(s, IMPORTS) + DeclExtents(s, outer);
      && |WholeFile(s, outer)| == |parts|
      && forall i :: 0 <= i < |parts| ==> StagesPart(s.workSrc, parts, i, WholeFile(s, outer)[i])
  {
    hide Classification, StagesPart, PreambleOp, Chain, FlatNewFile;
    FlatParts(s, outer);
    forall a | a in outer
      ensures Classification(s, a).Planned?
    {
      FlatPlanned(s, outer, a);
    }
    PlannedOpsAt(s, outer);
    var parts := PseudoExtent(s, HEADER) + PseudoExtent(s, IMPORTS) + DeclExtents(s, outer);
    forall i | 0 <= i < |parts|
      ensures StagesPart(s.workSrc, parts, i, WholeFile(s, outer)[i])
    {
      PartStaged(s, outer, i);
    }
  }

  lemma FlatParts(s: Sources, outer: seq<string>)
    requires FlatNewFile(s, outer)
    ensures !s.headExists && s.workExists && HEADER !in s.workOrder && IMPORTS !in s.workOrder
    ensures if s.workOrder == [] then outer == [] else outer != [] && outer[0] == s.workOrder[0]
    ensures s.Valid() && forall i :: 0 <= i < |outer| ==> Lookup(s.work, outer[i]).Found?
    ensures Chain(s.workSrc, PseudoExtent(s, HEADER) + PseudoExtent(s, IMPORTS) + DeclExtents(s, outer))
    ensures Lookup(s.work, HEADER).Found? && Lookup(s.work, IMPORTS).Found? ==>
              Lookup(s.work, IMPORTS).res.extent.start == Lookup(s.work, HEADER).res.extent.end + 2
  {
    hide Chain;
  }

  lemma PartStaged(s: Sources, outer: seq<string>, i: nat)
    requires FlatNewFile(s, outer) && forall a <- outer :: Classification(s, a).Planned?
    requires s.Valid() && forall i :: 0 <= i < |outer| ==> Lookup(s.work, outer[i]).Found?
    requires i < |PseudoExtent(s, HEADER) + PseudoExtent(s, IMPORTS) + DeclExtents(s, outer)|
    ensures
      var parts := PseudoExtent(s, HEADER) + PseudoExtent(s, IMPORTS) + DeclExtents(s, outer);
      i < |WholeFile(s, outer)| && Chain(s.workSrc, parts) && StagesPart(s.workSrc, parts, i, WholeFile(s, outer)[i])
  {
    hide Classification, StagesPart, PreambleOp, Chain, FlatNewFile, Limit, PlannedOps, Sources.Valid;
    FlatParts(s, outer);
    PlannedOpsAt(s, outer);
    var h, m, d := PseudoExtent(s, HEADER), PseudoExtent(s, IMPORTS), DeclExtents(s, outer);
    var parts := h + m + d;
    ChainEnds(s.workSrc, parts);
    PreambleLimits(s, outer);
    if i < |h| {
      PreambleStages(s, parts, i, HEADER);
    } else if i < |h| + |m| {
      PreambleStages(s, parts, i, IMPORTS);
    } else {
      var k := i - |h| - |m|;
      assert parts[i] == d[k];
      DeclStages(s, outer, parts, i, outer[k]);
      assert WholeFile(s, outer)[i] == PlannedOps(s, outer)[k];
    }
  }

  /** Each pseudo-anchor's own separator reaches no further than the next part. */
  lemma PreambleLimits(s: Sources, outer: seq<string>)
    requires s.Valid() && forall i :: 0 <= i < |outer| ==> Lookup(s.work, outer[i]).Found?
    requires if s.workOrder == [] then outer == [] else outer != [] && outer[0] == s.workOrder[0]
    ensures
      var h, m, d := PseudoExtent(s, HEADER), PseudoExtent(s, IMPORTS), DeclExtents(s, outer);
      var first := if d != [] then d[0].start else |s.workSrc|;
      && (h != [] ==> Limit(s, HEADER) == if m != [] then m[0].start else first)
      && (m != [] ==> Limit(s, IMPORTS) == first)
  {
  }

  lemma ChainEnds(src: Text, parts: seq<Extent>)
    requires Chain(src, parts)
    ensures parts != [] && parts[|parts| - 1].end <= |src|
  {
    assert SolidPart(src, parts[|parts| - 1]);
  }

  /** Naming every outermost declaration of a file that HEAD lacks, itself or through a
      member, in any order and as often as may be, stages the worktree file byte for
      byte: preamble, coalescing, tie merging, splicing and end-of-file inheritance
      together lose and add nothing. */
  lemma NewFileReproduced(s: Sources, outer: seq<string>, names: seq<string>)
    requires FlatNewFile(s, outer) && forall a <- names :: a in s.workOrder && Brought(s, outer, a)
    requires forall o <- outer :: exists a <- names :: Brings(s, a, o)
    ensures forall a <- names :: Classification(s, a).Planned?
    ensures
      var ops := PlannedOps(s, names) + Preamble(s, set a | a in names);
      && WellFormed(s.headSrc, ops) && Applied(s.headSrc, ops).Some?
      && InheritEOF(s, Applied(s.headSrc, ops).value) == s.workSrc
  {
    hide Classification, Applied, StagesPart, Chain, PreambleOp, Brings, Brought, Covering, PlannedOps, FlatNewFile,
      WholeFile, PseudoExtent, InheritEOF, Preamble;
    FlatParts(s, outer);
    var parts := PseudoExtent(s, HEADER) + PseudoExtent(s, IMPORTS) + DeclExtents(s, outer);
    WholeFileStages(s, outer);
    forall a | a in names
      ensures Classification(s, a).Planned?
    {
      MemberPlanned(s, outer, a);
    }
    NamesCover(s, outer, names);
    ChainRebuilt(s, parts, WholeFile(s, outer), PlannedOps(s, names) + Preamble(s, set a | a in names));
  }

  lemma SamePreamble(s: Sources, names: seq<string>)
    requires s.Valid() && !s.headExists && s.workExists
    requires HEADER !in s.workOrder && IMPORTS !in s.workOrder && forall a <- names :: a in s.workOrder
    ensures Preamble(s, set a | a in names) == PreambleFor(s, HEADER, {}) + PreambleFor(s, IMPORTS, {})
  {
    hide PreambleOp;
    var named := set a | a in names;
    assert HEADER !in named && IMPORTS !in named;
    assert PreambleFor(s, HEADER, named) == PreambleFor(s, HEADER, {});
    assert PreambleFor(s, IMPORTS, named) == PreambleFor(s, IMPORTS, {});
  }

  lemma PlannedMembers(s: Sources, names: seq<string>)
    requires s.Valid() && forall a <- names :: Classification(s, a).Planned?
    ensures forall op :: op in PlannedOps(s, names) <==> exists a <- names :: Classification(s, a).op == op
  {
    hide Classification, PlannedOps;
    PlannedOpsAt(s, names);
    forall op | op in PlannedOps(s, names)
      ensures exists a <- names :: Classification(s, a).op == op
    {
      var i :| 0 <= i < |names| && PlannedOps(s, names)[i] == op;
      assert names[i] in names;
    }
    forall a | a in names
      ensures Classification(s, a).op in PlannedOps(s, names)
    {
      var i :| 0 <= i < |names| && names[i] == a;
      assert PlannedOps(s, names)[i] in PlannedOps(s, names);
    }
  }

  lemma NamesCover(s: Sources, outer: seq<string>, names: seq<string>)
    requires FlatNewFile(s, outer)
    requires forall a <- names :: a in s.workOrder && Brought(s, outer, a) && Classification(s, a).Planned?
    requires forall o <- outer :: Classification(s, o).Planned? && exists a <- names :: Brings(s, a, o)
    ensures Covering(PlannedOps(s, names) + Preamble(s, set a | a in names), WholeFile(s, outer))
  {
    hide Classification, FlatNewFile, Preamble, PreambleFor, Brings, Brought, PlannedOps;
    FlatParts(s, outer);
    SamePreamble(s, names);
    var planned, preamble := PlannedOps(s, names), PreambleFor(s, HEADER, {}) + PreambleFor(s, IMPORTS, {});
    SamePlanned(s, outer, names);
    PreambleOnce(s, outer);
    Together(planned, PlannedOps(s, outer), preamble);
  }

  lemma Together(planned: seq<EditOp>, outer: seq<EditOp>, preamble: seq<EditOp>)
    requires forall op :: op in planned <==> op in outer
    requires forall op <- planned :: op.wend > op.wstart
    requires forall op <- preamble :: op.wend == op.wstart && multiset(preamble)[op] == 1
    ensures Covering(planned + preamble, preamble + outer)
  {
    var ops := planned + preamble;
    forall op | op in ops && !(op.wend > op.wstart)
      ensures multiset(ops)[op] == 1
    {
      assert op !in multiset(planned);
      assert op in preamble;
    }
  }

  lemma SamePlanned(s: Sources, outer: seq<string>, names: seq<string>)
    requires FlatNewFile(s, outer) && s.Valid()
    requires forall a <- names :: a in s.workOrder && Brought(s, outer, a) && Classification(s, a).Planned?
    requires forall o <- outer :: Classification(s, o).Planned? && exists a <- names :: Brings(s, a, o)
    ensures forall op :: op in PlannedOps(s, names) <==> op in PlannedOps(s, outer)
    ensures forall op <- PlannedOps(s, names) :: op.wend > op.wstart
  {
    hide Classification, FlatNewFile, Brings, Brought, PlannedOps;
    PlannedMembers(s, names);
    PlannedMembers(s, outer);
    forall a | a in names
      ensures Classification(s, a).op in PlannedOps(s, outer)
    {
      var o := BroughtBy(s, outer, a);
    }
    forall o | o in outer
      ensures Classification(s, o).op in PlannedOps(s, names)
    {
      var a :| a in names && Brings(s, a, o);
      MemberPlanned(s, outer, a);
    }
    forall op | op in PlannedOps(s, names)
      ensures op.wend > op.wstart
    {
      var o :| o in outer && Classification(s, o).op == op;
      OuterProper(s, outer, o);
    }
  }

  lemma OuterProper(s: Sources, outer: seq<string>, o: string)
    requires FlatNewFile(s, outer) && o in outer
    ensures Classification(s, o).Planned? && Classification(s, o).op.wend > Classification(s, o).op.wstart
  {
    hide FlatNewFile, AllNL, BlankLineBetween, Classification;
    FlatPlanned(s, outer, o);
    FlatParts(s, outer);
    var i :| 0 <= i < |outer| && outer[i] == o;
    PartAt(s.workSrc, PseudoExtent(s, HEADER) + PseudoExtent(s, IMPORTS), DeclExtents(s, outer), i);
    hide Chain, PseudoExtent, Position, LineStart, RunBefore, RunAfter;
  }

  lemma PartAt(src: Text, first: seq<Extent>, rest: seq<Extent>, i: nat)
    requires Chain(src, first + rest) && i < |rest|
    ensures SolidPart(src, rest[i])
  {
    hide BlankLineBetween;
    assert (first + rest)[|first| + i] == rest[i];
  }

  lemma PreambleOnce(s: Sources, outer: seq<string>)
    requires FlatNewFile(s, outer)
    ensures
      var preamble := PreambleFor(s, HEADER, {}) + PreambleFor(s, IMPORTS, {});
      forall op <- preamble :: op.wend == op.wstart && multiset(preamble)[op] == 1
  {
    hide FlatNewFile, Limit, SeparatorEnd;
    FlatParts(s, outer);
    if Lookup(s.work, HEADER).Found? && Lookup(s.work, IMPORTS).Found? {
      HeaderAhead(s, outer);
    }
  }

  lemma HeaderAhead(s: Sources, outer: seq<string>)
    requires FlatNewFile(s, outer) && Lookup(s.work, HEADER).Found? && Lookup(s.work, IMPORTS).Found?
    ensures Lookup(s.work, HEADER).res.extent.start < Lookup(s.work, IMPORTS).res.extent.start
  {
  }
}
