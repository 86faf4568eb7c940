/** The splice pass: resolved edits applied to HEAD bytes in descending offset
    order, always at HEAD's original offsets. */
module Splice {
  import opened Seqs
  import opened Bytes

  datatype EditKind = Replace | Insert | Delete

  /** One resolved edit. `start`/`end` are offsets into HEAD; `wstart`/`wend` the
      anchor's extent in the worktree (zero for a deletion); `order` is the
      worktree offset that ranks insertions landing on one HEAD offset. */
  datatype EditOp = EditOp(kind: EditKind, start: nat, end: nat, text: Text, order: int,
                           wstart: nat, wend: nat, member: bool, leadGap: Text, trailGap: Text)
  {
    /** One past the last HEAD byte addressed: an insertion is a point. */
    function End(): nat {
      if kind.Insert? then start else end
    }

    function Span(): int {
      if kind.Insert? then 0 else end - start
    }

    /** The bytes the edit contributes to the blob. */
    function Piece(): Text {
      if kind.Delete? then [] else text
    }

    predicate GapsAreNewlines() {
      AllNL(leadGap) && AllNL(trailGap)
    }
  }

  // ----- the three splices -----

  /** The separator to use: the worktree's own gap when it is wider than the
      minimum (one newline between members, a blank line otherwise). */
  function WiderGap(member: bool, gap: Text): (sep: Text)
    ensures |sep| == if |gap| > (if member then 1 else 2) then |gap| else if member then 1 else 2
    ensures AllNL(gap) ==> AllNL(sep)
  {
    var minimum := if member then [NL] else [NL, NL];
    if |gap| > |minimum| then gap else minimum
  }

  function Join(a: Text, b: Text, sep: Text): Text {
    var l, r := TrimRight(a), TrimLeft(b);
    if l == [] then r else if r == [] then l else l + sep + r
  }

  /** `None` stands for the slice-bounds panic Go raises when `end` lies past the buffer. */
  function SpliceReplace(out: Text, start: nat, end: nat, text: Text): Option<Text>
    requires start <= end
  {
    if end > |out| then None else Some(out[..start] + text + out[end..])
  }

  function SpliceExcise(out: Text, start: nat, end: nat): Option<Text>
    requires start <= end
  {
    if end > |out| then None
    else
      var trimmed := TrimLeft(out[end..]);
      if trimmed != [] then Some(out[..start] + trimmed)
      else
        var prefix := TrimRight(out[..start]);
        if prefix == [] then Some([])
        else if EndsNL(out) then Some(prefix + [NL])
        else Some(prefix)
  }

  function SpliceInsert(out: Text, op: EditOp): Text {
    var start := if op.start < |out| then op.start else |out|;
    var after := out[start..];
    var mid := Join(out[..start], op.text, WiderGap(op.member, op.leadGap));
    if TrimLeft(after) == [] then
      if EndsNL(out) then TrimRight(mid) + [NL] else TrimRight(mid)
    else Join(mid, after, WiderGap(op.member, op.trailGap))
  }

  function Step(out: Text, op: EditOp): Option<Text>
    requires op.start <= op.End()
  {
    match op.kind
    case Replace => SpliceReplace(out, op.start, op.end, op.text)
    case Delete => SpliceExcise(out, op.start, op.end)
    case Insert => Some(SpliceInsert(out, op))
  }

  // ----- the pass over an ascending list, highest edit first -----

  ghost predicate Ordered(ops: seq<EditOp>) {
    forall op <- ops :: op.start <= op.End()
  }

  function Pass(head: Text, asc: seq<EditOp>): Option<Text>
    requires Ordered(asc)
  {
    if asc == [] then Some(head)
    else match Pass(head, asc[1..])
      case None => None
      case Some(out) => Step(out, asc[0])
  }

  function StartOf(head: Text, asc: seq<EditOp>): nat {
    if asc == [] then |head| else asc[0].start
  }

  /** Edits in ascending order, each ending no later than the next begins. */
  ghost predicate Ascending(head: Text, asc: seq<EditOp>) {
    asc == [] || (asc[0].start <= asc[0].End() <= StartOf(head, asc[1..]) && Ascending(head, asc[1..]))
  }

  lemma {:induction false} AscendingBounds(head: Text, asc: seq<EditOp>)
    requires Ascending(head, asc)
    ensures StartOf(head, asc) <= |head| && Ordered(asc)
  {
    if asc != [] {
      AscendingBounds(head, asc[1..]);
      assert asc == [asc[0]] + asc[1..];
    }
  }

  /** What the blob holds from the first edit on: each edit's piece, then the
      HEAD segment up to the next edit. */
  function Tail(head: Text, asc: seq<EditOp>): seq<Text> {
    if asc == [] then []
    else [asc[0].Piece(), Segment(head, asc[0].End(), StartOf(head, asc[1..]))] + Tail(head, asc[1..])
  }

  function Segment(head: Text, lo: nat, hi: nat): Text {
    if lo <= hi <= |head| then head[lo..hi] else []
  }

  /** Simultaneous substitution at original offsets. */
  function Segments(head: Text, asc: seq<EditOp>): seq<Text> {
    [Segment(head, 0, StartOf(head, asc))] + Tail(head, asc)
  }

  ghost predicate HasContent(parts: seq<Text>) {
    exists p <- parts :: !AllNL(p)
  }

  /** How far up HEAD's own bytes are still in place once `op` has been applied
      below `above`. Only an insertion, or a deletion that leaves nothing but
      newlines after it, disturbs bytes below its own start. */
  ghost function ReachOf(head: Text, op: EditOp, above: seq<Text>): nat
    requires op.start <= |head|
  {
    var solid := |TrimRight(head[..op.start])|;
    match op.kind
    case Replace => op.start
    case Delete => if HasContent(above) then op.start else solid
    case Insert =>
      var gap := |WiderGap(op.member, op.leadGap)|;
      if solid == 0 || AllNL(op.text) then solid
      else if op.start <= solid + gap then op.start else solid + gap
  }

  /** `ReachOf` the lowest edit of the list. */
  ghost function Reach(head: Text, asc: seq<EditOp>): nat
    requires Ascending(head, asc)
  {
    if asc == [] then |head|
    else
      AscendingBounds(head, asc);
      ReachOf(head, asc[0], Tail(head, asc)[1..])
  }

  /** Every edit ends within the bytes the edits above it leave in place; an
      insertion at the very start of a range needs no more than that. */
  ghost predicate Clear(head: Text, asc: seq<EditOp>)
    requires Ascending(head, asc)
  {
    asc == [] ||
    (Clear(head, asc[1..]) &&
     (asc[0].End() <= Reach(head, asc[1..]) ||
      (asc[0].kind.Insert? && asc[1..] != [] && asc[0].start == asc[1].start && !asc[1].kind.Insert?)))
  }

  ghost predicate NewlineGaps(ops: seq<EditOp>) {
    forall op <- ops :: op.GapsAreNewlines()
  }

  // ----- one step of each kind -----

  /** `out` agrees with HEAD below `t`, HEAD is blank from there to `s`, and
      beyond `t` it holds `parts`. */
  ghost predicate Holds(out: Text, head: Text, t: nat, s: nat, parts: seq<Text>) {
    t <= s <= |head| && t <= |out| && out[..t] == head[..t] && AllNL(head[t..s]) && Spaced(out[t..], parts)
  }

  /** Dropping to any lower offset `u` adds HEAD's own bytes as one more part. */
  lemma HoldsBelow(out: Text, head: Text, t: nat, s: nat, parts: seq<Text>, u: nat)
    requires Holds(out, head, t, s, parts) && u <= t
    ensures out[..u] == head[..u] && Spaced(out[u..], [head[u..s]] + parts)
  {
    hide Core, Spaced, AllNL;
    assert out[..u] == out[..t][..u] && head[..u] == head[..t][..u];
    assert out[u..t] == out[..t][u..] && head[u..t] == head[..t][u..];
    assert out[u..] == out[u..t] + out[t..];
    assert head[u..s] == head[u..t] + head[t..s];
    CoreTrail(head[u..t], head[t..s]);
    SpacedCons(head[u..t], head[u..s], out[t..], parts);
  }

  lemma CoreTrail(a: Text, n: Text)
    requires AllNL(n)
    ensures Core(a + n) == Core(a)
  {
    var l, m := CoreSplits(a);
    CoreIs(l, Core(a), m + n);
    assert l + Core(a) + (m + n) == a + n;
  }

  lemma ReplaceHolds(out: Text, head: Text, op: EditOp, above: seq<Text>)
    requires op.kind.Replace? && op.start <= op.end <= |head| && op.end <= |out|
    requires out[..op.end] == head[..op.end] && Spaced(out[op.end..], above)
    ensures Step(out, op).Some?
    ensures Holds(Step(out, op).value, head, op.start, op.start, [op.text] + above)
  {
    var r := Step(out, op).value;
    assert r[..op.start] == out[..op.end][..op.start] == head[..op.end][..op.start] == head[..op.start];
    assert r[op.start..] == op.text + out[op.end..];
    SpacedCons(op.text, op.text, out[op.end..], above);
  }

  lemma DeleteHolds(out: Text, head: Text, op: EditOp, above: seq<Text>) returns (t: nat)
    requires op.kind.Delete? && op.start <= op.end <= |head| && op.end <= |out|
    requires out[..op.end] == head[..op.end] && Spaced(out[op.end..], above)
    ensures Step(out, op).Some?
    ensures t == ReachOf(head, op, above)
    ensures Holds(Step(out, op).value, head, t, op.start, [[]] + above)
    ensures t == op.start || AllNL(Step(out, op).value[t..])
  {
    hide Spaced, TrimLeft, TrimRight;
    var r := Step(out, op).value;
    var after := out[op.end..];
    SpacedBlankIff(after, above);
    AllNLTrims(after);
    assert out[..op.start] == out[..op.end][..op.start] == head[..op.end][..op.start] == head[..op.start];
    var n := TrimLeftSplits(after);
    SpacedCons([], [], after, above);
    assert [] + after == after;
    SpacedUnlead(n, TrimLeft(after), [[]] + above);
    if HasContent(above) {
      assert TrimLeft(after) != [];
      t := op.start;
      assert r[t..] == TrimLeft(after);
      assert r[..t] == head[..t];
    } else {
      assert AllNL(after) by {
        assert forall i :: 0 <= i < |above| ==> above[i] in above;
      }
      var m := TrimRightSplits(head[..op.start]);
      t := |TrimRight(head[..op.start])|;
      assert head[..op.start][..t] == head[..t];
      assert head[..op.start][t..] == head[t..op.start] == m;
      SpacedBlank(after, r[t..], [[]] + above);
    }
  }

  /** What `Join` makes of a text put after `before`: the trimmed left side, the
      separator when there is a left side, and the text up to its own newlines. */
  lemma JoinShape(before: Text, text: Text, sep: Text) returns (body: Text, k: Text)
    requires AllNL(sep)
    ensures
      var a := TrimRight(before);
      var g := if a == [] || AllNL(text) then [] else sep;
      && Join(before, text, sep) == (a + body) + k && AllNL(k) && !EndsNL(a + body)
      && g <= body && Core(body) == Core(text)
  {
    hide TrimLeft, TrimRight;
    var a, b := TrimRight(before), TrimLeft(text);
    var _ := TrimRightSplits(before);
    AllNLTrims(text);
    if b == [] {
      body, k := [], [];
      AllNLTrims(body);
      assert (a + body) + k == a;
    } else {
      var g := if a == [] then [] else sep;
      k := TrimRightSplits(g + b);
      body := TrimRight(g + b);
      BodyCore(g, b, text);
      assert (a + body) + k == a + (body + k);
      assert a + (g + b) == Join(before, text, sep);
    }
  }

  /** The insertion splice writes the trimmed left side, the text, a gap, and the
      trimmed right side. */
  lemma InsertShape(out: Text, op: EditOp, body: Text, k: Text) returns (gap: Text)
    requires op.kind.Insert? && op.GapsAreNewlines() && AllNL(k)
    requires
      var start := if op.start < |out| then op.start else |out|;
      var a := TrimRight(out[..start]);
      && Join(out[..start], op.text, WiderGap(op.member, op.leadGap)) == (a + body) + k
      && !EndsNL(a + body)
    ensures
      var start := if op.start < |out| then op.start else |out|;
      AllNL(gap) && SpliceInsert(out, op) == TrimRight(out[..start]) + (body + (gap + TrimLeft(out[start..])))
  {
    hide TrimLeft, TrimRight;
    var start := if op.start < |out| then op.start else |out|;
    var a, q := TrimRight(out[..start]), TrimLeft(out[start..]);
    TrimRightIs(a + body, k);
    if q == [] {
      gap := if EndsNL(out) then [NL] else [];
      assert (a + body) + gap == a + (body + (gap + q));
    } else {
      gap := if a + body == [] then [] else WiderGap(op.member, op.trailGap);
      assert (a + body) + gap + q == a + (body + (gap + q));
    }
  }

  /** The insertion splice, for any split of the buffer at its position. */
  lemma InsertSplice(out: Text, op: EditOp, above: seq<Text>)
    requires op.kind.Insert? && op.GapsAreNewlines()
    requires Spaced(out[if op.start < |out| then op.start else |out|..], above)
    ensures
      var a := TrimRight(out[..if op.start < |out| then op.start else |out|]);
      var r := SpliceInsert(out, op);
      var gap := if a == [] || AllNL(op.text) then 0 else |WiderGap(op.member, op.leadGap)|;
      && a <= r && |a| + gap <= |r| && AllNL(r[|a|..|a| + gap])
      && Spaced(r[|a|..], [op.text] + above)
  {
    hide Spaced, TrimLeft, TrimRight, SpliceInsert, Join;
    var start := if op.start < |out| then op.start else |out|;
    var a, after := TrimRight(out[..start]), out[start..];
    var sep := WiderGap(op.member, op.leadGap);
    var body, k := JoinShape(out[..start], op.text, sep);
    var gap2 := InsertShape(out, op, body, k);
    var g := if a == [] || AllNL(op.text) then [] else sep;
    var q := TrimLeft(after);
    AssembleParts(body, gap2, after, op.text, above);
    Cut(a, body + (gap2 + q));
    GapFirst(a, g, body, gap2 + q);
  }

  lemma AssembleParts(body: Text, gap: Text, after: Text, text: Text, above: seq<Text>)
    requires Core(body) == Core(text) && AllNL(gap) && Spaced(after, above)
    ensures Spaced(body + (gap + TrimLeft(after)), [text] + above)
  {
    hide Spaced, TrimLeft, TrimRight;
    SpacedOne(body, text);
    var l := TrimLeftSplits(after);
    SpacedUnlead(l, TrimLeft(after), above);
    SpacedLead(gap, TrimLeft(after), above);
    SpacedAppend(body, [text], gap + TrimLeft(after), above);
  }

  lemma GapFirst(a: Text, g: Text, body: Text, rest: Text)
    requires g <= body
    ensures |a| + |g| <= |a + (body + rest)|
    ensures (a + (body + rest))[|a|..|a| + |g|] == g
  {
  }

  lemma BodyCore(g: Text, b: Text, text: Text)
    requires AllNL(g) && b != [] && b == TrimLeft(text)
    ensures Core(TrimRight(g + b)) == Core(text) && g <= TrimRight(g + b)
  {
    var _ := TrimLeftSplits(text);
    var k := TrimRightSplits(b);
    var c := TrimRight(b);
    AllNLTrims(b);
    assert !AllNL(b) by {
      assert b[0] != NL;
    }
    assert c[0] == b[0];
    assert g + b == (g + c) + k;
    TrimRightIs(g + c, k);
    CoreIs(g, c, []);
    assert g + c + [] == g + c;
  }

  lemma InsertHolds(out: Text, head: Text, op: EditOp, above: seq<Text>) returns (t: nat)
    requires op.kind.Insert? && op.GapsAreNewlines() && op.start <= |head|
    requires
      var start := if op.start < |out| then op.start else |out|;
      TrimRight(out[..start]) == TrimRight(head[..op.start]) && Spaced(out[start..], above)
    ensures t == ReachOf(head, op, above)
    ensures Holds(SpliceInsert(out, op), head, t, op.start, [op.text] + above)
  {
    hide Spaced, TrimLeft, TrimRight, SpliceInsert, WiderGap;
    InsertSplice(out, op, above);
    var r, below := SpliceInsert(out, op), head[..op.start];
    var n := TrimRightSplits(below);
    var a := TrimRight(below);
    var gap := if a == [] || AllNL(op.text) then 0 else |WiderGap(op.member, op.leadGap)|;
    t := if op.start <= |a| + gap then op.start else |a| + gap;
    var d, z := t - |a|, r[|a|..];
    assert z[..gap] == r[|a|..|a| + gap];
    assert AllNL(z[..d]) by {
      assert z[..d] == z[..gap][..d];
    }
    Agree(a, z, n, d);
    assert r == a + z;
    assert head[..t] == below[..t];
    assert head[t..op.start] == below[t..];
    assert z == z[..d] + r[t..];
    SpacedUnlead(z[..d], r[t..], [op.text] + above);
  }

  lemma Agree(a: Text, z: Text, n: Text, d: nat)
    requires d <= |n| && d <= |z| && AllNL(n) && AllNL(z[..d])
    ensures (a + z)[..|a| + d] == (a + n)[..|a| + d]
    ensures AllNL((a + n)[|a| + d..])
  {
    assert (a + z)[..|a| + d] == a + z[..d];
    assert (a + n)[..|a| + d] == a + n[..d];
    assert z[..d] == n[..d];
    assert (a + n)[|a| + d..] == n[d..];
  }

  // ----- the pass keeps its invariant -----

  /** One edit below everything applied so far. */
  lemma StepHolds(out: Text, head: Text, op: EditOp, t: nat, s: nat, parts: seq<Text>) returns (r: nat)
    requires op.GapsAreNewlines() && op.start <= op.End() <= t && Holds(out, head, t, s, parts)
    ensures
      var above := [head[op.End()..s]] + parts;
      && Step(out, op).Some? && r == ReachOf(head, op, above)
      && Holds(Step(out, op).value, head, r, op.start, [op.Piece()] + above)
      && (!op.kind.Insert? ==> r == op.start || AllNL(Step(out, op).value[r..]))
  {
    hide Spaced, TrimLeft, TrimRight, SpliceInsert, SpliceReplace, SpliceExcise;
    var above := [head[op.End()..s]] + parts;
    HoldsBelow(out, head, t, s, parts, op.End());
    match op.kind {
      case Replace =>
        ReplaceHolds(out, head, op, above);
        r := op.start;
      case Delete =>
        r := DeleteHolds(out, head, op, above);
      case Insert =>
        r := InsertHolds(out, head, op, above);
    }
  }

  /** An insertion right before a deletion that took the blank lines below it. */
  lemma TieHolds(out: Text, head: Text, op: EditOp, t: nat, parts: seq<Text>) returns (r: nat)
    requires op.kind.Insert? && op.GapsAreNewlines() && t < op.start
    requires Holds(out, head, t, op.start, parts) && AllNL(out[t..])
    ensures
      var above := [[]] + parts;
      && r == ReachOf(head, op, above)
      && Holds(SpliceInsert(out, op), head, r, op.start, [op.text] + above)
  {
    hide Spaced, TrimLeft, TrimRight, SpliceInsert;
    var start := if op.start < |out| then op.start else |out|;
    BlankTail(out, head, op, t, start);
    assert out[t..] == out[t..start] + out[start..];
    SpacedUnlead(out[t..start], out[start..], parts);
    SpacedCons([], [], out[start..], parts);
    assert [] + out[start..] == out[start..];
    r := InsertHolds(out, head, op, [[]] + parts);
  }

  /** Every step of the pass is in bounds, leaves HEAD's bytes in place up to
      `Reach`, and has built exactly the parts above it. */
  lemma {:induction false} PassInvariant(head: Text, asc: seq<EditOp>)
    requires Ascending(head, asc) && Clear(head, asc) && NewlineGaps(asc)
    ensures Ordered(asc) && Pass(head, asc).Some?
    ensures Holds(Pass(head, asc).value, head, Reach(head, asc), StartOf(head, asc), Tail(head, asc))
    ensures asc != [] && !asc[0].kind.Insert? ==>
              Reach(head, asc) == asc[0].start || AllNL(Pass(head, asc).value[Reach(head, asc)..])
  {
    hide Spaced, TrimLeft, TrimRight, Step, SpliceInsert, ReachOf;
    AscendingBounds(head, asc);
    if asc == [] {
      assert head[|head|..] == [];
      SpacedNil([]);
    } else {
      var op, rest := asc[0], asc[1..];
      assert asc == [op] + rest;
      PassInvariant(head, rest);
      var out := Pass(head, rest).value;
      var t', s' := Reach(head, rest), StartOf(head, rest);
      assert Segment(head, op.End(), s') == head[op.End()..s'];
      var above := [head[op.End()..s']] + Tail(head, rest);
      assert Tail(head, asc) == [op.Piece()] + above;
      assert Tail(head, asc)[1..] == above;
      if op.End() <= t' {
        var r := StepHolds(out, head, op, t', s', Tail(head, rest));
      } else {
        assert head[op.End()..s'] == [];
        StepInsert(out, op);
        var r := TieHolds(out, head, op, t', Tail(head, rest));
      }
    }
  }

  lemma StepInsert(out: Text, op: EditOp)
    requires op.kind.Insert?
    ensures Step(out, op) == Some(SpliceInsert(out, op))
  {
  }

  lemma BlankTail(out: Text, head: Text, op: EditOp, t: nat, start: nat)
    requires t <= op.start <= |head| && t <= |out| && start == if op.start < |out| then op.start else |out|
    requires out[..t] == head[..t] && AllNL(head[t..op.start]) && AllNL(out[t..])
    ensures t <= start && AllNL(out[t..start]) && TrimRight(out[..start]) == TrimRight(head[..op.start])
  {
    var a := TrimRight(head[..t]);
    var n := TrimRightSplits(head[..t]);
    assert AllNL(out[t..start]) by {
      assert out[t..start] == out[t..][..start - t];
    }
    assert out[..start] == out[..t] + out[t..start] == a + (n + out[t..start]);
    assert head[..op.start] == head[..t] + head[t..op.start] == a + (n + head[t..op.start]);
    TrimRightIs(a, n + out[t..start]);
    TrimRightIs(a, n + head[t..op.start]);
  }

  /** The splice pass refines simultaneous substitution at original offsets: it
      never leaves the buffer's bounds, and the blob is the untouched HEAD
      segments and the edits' texts in ascending order, each complete except for
      newlines at the seams. */
  lemma PassRefinesSubstitution(head: Text, asc: seq<EditOp>)
    requires Ascending(head, asc) && Clear(head, asc) && NewlineGaps(asc)
    ensures Ordered(asc) && Pass(head, asc).Some?
    ensures Spaced(Pass(head, asc).value, Segments(head, asc))
  {
    PassInvariant(head, asc);
    AscendingBounds(head, asc);
    var out := Pass(head, asc).value;
    HoldsBelow(out, head, Reach(head, asc), StartOf(head, asc), Tail(head, asc), 0);
    assert out[0..] == out;
  }
}
