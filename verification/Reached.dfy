/** Files and anchors whose classified edits reach the limits of the splice pass. */
module Reached {
  import opened Seqs
  import opened Bytes
  import opened Sorting
  import opened Splice
  import opened SpliceLaws
  import opened SpliceLimits
  import opened Coalesce
  import opened ApplyEdits
  import opened BlobLaws
  import opened BlobLimits
  import opened Placement
  import opened Tables
  import opened WorktreeOrder
  import opened StagedWorktree
  import NewFile

  // ----- a deletion that ends the file -----

  /** Two Markdown sections, each owning the blank lines after it. The worktree has edited
      the first and dropped the second. */
  function TwoSections(): Sources {
    Sources([97, NL, NL, 98, NL], true, [99, NL, NL], true, ["a"],
            map["a" := Entity("a", "", 0, 3), "b" := Entity("b", "", 3, 5)],
            map["a" := Entity("a", "", 0, 3)], false, false, false)
  }

  /** Ranges that share no byte are all applied, in the one ascending order they have. */
  lemma ApartApplied(head: Text, ops: seq<EditOp>, asc: seq<EditOp>)
    requires WellFormed(head, ops) && forall op <- ops :: IsRange(op)
    requires forall a <- ops, b <- ops :: a != b ==> !Overlap(a, b)
    requires Ascending(head, asc) && forall op :: op in asc <==> op in ops
    ensures Ordered(asc) && Applied(head, ops) == Pass(head, asc)
  {
    hide Applied, Layout, MergedLayout, Coalesced, PairwiseDisjoint, Ascending, Pass;
    var kept := Coalesced(ops);
    CoalescedAccounts(ops);
    assert forall op <- ops :: op in kept;
    AscendingBounds(head, asc);
    AppliedIsPass(head, ops);
    RangeLayout(kept, 0, |head|);
    LayoutAscends(head, kept, 0);
    LayoutInOrder(head, kept, 0);
    SameAscending(head, MergedLayout(kept, 0, |head|), asc);
  }

  /** Editing the first section while deleting the last runs out of bounds. */
  lemma EditAboveDeletedEndPanics()
    ensures
      var s := TwoSections();
      && s.Valid() && Classification(s, "a").Planned? && Classification(s, "b").Planned?
      && var ops := [Classification(s, "a").op, Classification(s, "b").op];
      WellFormed(s.headSrc, ops) && Applied(s.headSrc, ops).None?
  {
    var s := TwoSections();
    var head := s.headSrc;
    assert "a"[0] != "b"[0];
    assert Lookup(s.head, "a") == Entity("a", "", 0, 3) && Lookup(s.head, "b") == Entity("b", "", 3, 5);
    assert Lookup(s.work, "a") == Entity("a", "", 0, 3) && Lookup(s.work, "b").Unresolvable?;
    var lower, upper := Classification(s, "a").op, Classification(s, "b").op;
    assert LineStart(head, 3) == 3;
    hide TwoSections, Classification, Applied, RangesFit;
    OverrunHere(head, lower, upper);
    ApartApplied(head, [lower, upper], [lower, upper]);
    PanicsIff(head, [lower, upper]);
  }

  lemma OverrunHere(head: Text, lower: EditOp, upper: EditOp)
    requires head == [97, NL, NL, 98, NL]
    requires lower.kind.Replace? && lower.start == 0 && lower.end == 3 && lower.GapsAreNewlines()
    requires upper.kind.Delete? && upper.start == 3 && upper.end == 5 && upper.GapsAreNewlines()
    ensures Ascending(head, [lower, upper]) && !RangesFit(head, [lower, upper])
  {
    assert [lower, upper][1..] == [upper] && [upper][1..] == [];
    AscendingBounds(head, [lower, upper]);
    assert Tail(head, [upper])[1..] == [[]];
    assert head[..3] == [97] + [NL, NL];
    TrimRightIs([97], [NL, NL]);
    assert Floor(head, [upper]) == 2;
  }

  // ----- two insertions in one newline run -----

  lemma {:induction false} NoneFrom(kept: seq<EditOp>, p: nat, hi: nat)
    requires forall op <- kept :: op.start < p
    ensures MergedLayout(kept, p, hi) == []
    decreases hi + 1 - p
  {
    if p <= hi {
      NoneAt(kept, p);
      NoneFrom(kept, p + 1, hi);
    }
  }

  lemma NoneAt(kept: seq<EditOp>, p: nat)
    requires forall op <- kept :: op.start != p
    ensures MergedAt(kept, p) == [] && RangesAt(kept, p) == []
  {
    GroupedMembers(kept, p);
    RangesMembers(kept);
    WithKeyNone(ApplyEdits.Ranges(kept), HighestFirst, Neg(p));
    hide Grouped;
  }

  lemma {:induction false} SkipTo(kept: seq<EditOp>, p: nat, q: nat, hi: nat)
    requires p <= q <= hi + 1 && forall op <- kept :: !(p <= op.start < q)
    ensures MergedLayout(kept, p, hi) == MergedLayout(kept, q, hi)
    decreases q - p
  {
    hide MergedAt, RangesAt;
    if p < q {
      NoneAt(kept, p);
      SkipTo(kept, p + 1, q, hi);
    }
  }

  /** What one insertion alone at its offset is merged into. */
  function Alone(op: EditOp): EditOp
    requires op.kind.Insert?
  {
    MergeGroup(op.start, [op])
  }

  /** What one edit alone at its offset is merged into. */
  function Single(op: EditOp): EditOp {
    if op.kind.Insert? then Alone(op) else op
  }

  predicate Pair(kept: seq<EditOp>, a: EditOp, b: EditOp) {
    kept == [a, b] || kept == [b, a]
  }

  lemma OneAt(kept: seq<EditOp>, a: EditOp, b: EditOp)
    requires Pair(kept, a, b) && a.start != b.start
    ensures MergedAt(kept, a.start) + RangesAt(kept, a.start) == [Single(a)]
  {
    hide MergeGroup;
    var p, first, last := a.start, kept[0], kept[1];
    assert kept[..1] == [first] && [first][..0] == [];
    assert GroupAt([], p) == [] && ApplyEdits.Ranges([]) == [];
    assert GroupAt([first], p) == if first.kind.Insert? && first.start == p then [first] else [];
    assert GroupAt(kept, p) == if a.kind.Insert? then [a] else [];
    assert ApplyEdits.Ranges([first]) == if first.kind.Insert? then [] else [first];
    var ranges := ApplyEdits.Ranges(kept);
    assert ranges == (if first.kind.Insert? then [] else [first]) + if last.kind.Insert? then [] else [last];
    SortOne(a);
    OneKey(ranges, a, b);
    assert StableSort<EditOp>([], ApplyEdits.WorktreeOrder) == [];
  }

  lemma OneKey(ranges: seq<EditOp>, a: EditOp, b: EditOp)
    requires ranges == [] || ranges == [a] || ranges == [b] || Pair(ranges, a, b)
    requires a.start != b.start
    ensures WithKey(ranges, HighestFirst, Neg(a.start)) == if a in ranges then [a] else []
  {
    assert HighestFirst(a) == Neg(a.start) && HighestFirst(b) != Neg(a.start);
    if |ranges| == 2 {
      assert ranges[1..] == [ranges[1]] && ranges[1..][1..] == [];
    } else if |ranges| == 1 {
      assert ranges[1..] == [];
    }
  }

  lemma SortOne(op: EditOp)
    ensures StableSort([op], ApplyEdits.WorktreeOrder) == [op]
  {
    assert [op][..0] == [];
    assert StableSort<EditOp>([], ApplyEdits.WorktreeOrder) == [];
  }

  lemma TwoLaid(kept: seq<EditOp>, lo: EditOp, hi: EditOp, n: nat)
    requires Pair(kept, lo, hi) && lo.start < hi.start <= n
    ensures MergedLayout(kept, 0, n) == [Single(lo), Single(hi)]
  {
    hide MergedAt, RangesAt, Single;
    OneAt(kept, lo, hi);
    OneAt(kept, hi, lo);
    SkipTo(kept, 0, lo.start, n);
    SkipTo(kept, lo.start + 1, hi.start, n);
    NoneFrom(kept, hi.start + 1, n);
    var top := MergedLayout(kept, hi.start, n);
    assert top == [Single(hi)] + [];
    assert MergedLayout(kept, lo.start, n) == [Single(lo)] + top;
  }

  /** Two edits at different offsets, neither part of the other, are applied one after the other. */
  lemma TwoApplied(head: Text, lo: EditOp, hi: EditOp)
    requires WellFormed(head, [lo, hi]) && lo.start < hi.start && lo.End() <= hi.start
    requires !Swallows(lo, hi) && !Swallows(hi, lo)
    ensures Ordered([Single(lo), Single(hi)])
    ensures Applied(head, [lo, hi]) == Pass(head, [Single(lo), Single(hi)])
  {
    hide Applied, Pass, Single, Coalesced, MergedLayout, Swallows;
    assert lo in [lo, hi] && hi in [lo, hi];
    BothKept(lo, hi);
    TwoLaid(Coalesced([lo, hi]), lo, hi, |head|);
    AppliedIsPass(head, [lo, hi]);
    CoalescedAccounts([lo, hi]);
    SingleOrdered(lo);
    SingleOrdered(hi);
  }

  lemma SingleOrdered(op: EditOp)
    requires op.start <= op.End()
    ensures Single(op).start <= Single(op).End()
  {
  }

  /** One edit alone. */
  lemma OneApplied(head: Text, op: EditOp)
    requires WellFormed(head, [op])
    ensures Ordered([Single(op)]) && Applied(head, [op]) == Pass(head, [Single(op)])
  {
    hide Applied, Pass, MergedAt, RangesAt, Coalesced, Swallows;
    assert op in [op];
    OneKept(op);
    OneLaid(op);
    SkipTo([op], 0, op.start, |head|);
    NoneFrom([op], op.start + 1, |head|);
    assert MergedLayout([op], op.start, |head|) == [Single(op)] + [];
    assert MergedLayout([op], 0, |head|) == [Single(op)];
    AppliedIsPass(head, [op]);
    CoalescedAccounts([op]);
    SingleOrdered(op);
  }

  lemma OneKept(op: EditOp)
    ensures Coalesced([op]) == [op] && PairwiseDisjoint([op])
  {
    hide Swallows;
    assert [op][..0] == [] && StableSort<EditOp>([], WidestFirst) == [];
    assert StableSort([op], WidestFirst) == InsertByKey(op, [], WidestFirst) == [op];
    assert [op][1..] == [] && [] + [op] == [op];
    assert !Swallowed([], op);
    assert Keep([], [op]) == Keep([op], []);
  }

  lemma OneLaid(op: EditOp)
    ensures MergedAt([op], op.start) + RangesAt([op], op.start) == [Single(op)]
  {
    hide MergeGroup;
    assert [op][..0] == [] && GroupAt([], op.start) == [] && ApplyEdits.Ranges([]) == [];
    assert GroupAt([op], op.start) == if op.kind.Insert? then [op] else [];
    assert ApplyEdits.Ranges([op]) == if op.kind.Insert? then [] else [op];
    SortOne(op);
    assert StableSort<EditOp>([], ApplyEdits.WorktreeOrder) == [];
    assert [op][1..] == [] && WithKey<EditOp>([], HighestFirst, Neg(op.start)) == [];
    assert RangesAt([op], op.start) == if op.kind.Insert? then [] else [op];
    assert MergedAt([op], op.start) == if op.kind.Insert? then [Alone(op)] else [];
  }

  /** A target is reported as unchanged exactly when staging it alone leaves the file as
      HEAD has it. */
  lemma UnchangedIff(s: Sources, anchor: string)
    requires s.Valid() && s.InWork(anchor).Found? && s.InHead(anchor).Found?
    requires s.InHead(anchor).res.extent.start < s.InHead(anchor).res.extent.end
    ensures Classification(s, anchor).Planned?
    ensures
      var c := Classification(s, anchor);
      WellFormed(s.headSrc, [c.op]) && (c.identical <==> Applied(s.headSrc, [c.op]) == Some(s.headSrc))
  {
    hide Applied, LineStart;
    var c, head := Classification(s, anchor), s.headSrc;
    var op := c.op;
    OneApplied(head, op);
    assert Pass(head, []) == Some(head) && [op][1..] == [];
    var blob := head[..op.start] + op.text + head[op.end..];
    assert Pass(head, [op]) == Some(blob);
    assert head == head[..op.start] + head[op.start..op.end] + head[op.end..];
    if blob == head {
      assert |op.text| == op.end - op.start;
      assert blob[op.start..op.end] == op.text;
    }
  }

  lemma BothKept(lo: EditOp, hi: EditOp)
    requires !Swallows(lo, hi) && !Swallows(hi, lo) && lo != hi
    ensures Pair(Coalesced([lo, hi]), lo, hi)
  {
    hide Swallows;
    var ranked := StableSort([lo, hi], WidestFirst);
    StableSortCorrect([lo, hi], WidestFirst);
    TwoOf(ranked, lo, hi);
    var x, y := ranked[0], ranked[1];
    assert ranked[1..] == [y] && [y][1..] == [];
    assert [] + [x] == [x] && [x] + [y] == [x, y];
    assert Keep([], ranked) == Keep([x], [y]) == Keep([x, y], []);
  }

  lemma TwoOf(s: seq<EditOp>, a: EditOp, b: EditOp)
    requires multiset(s) == multiset([a, b])
    ensures Pair(s, a, b)
  {
    assert |s| == |multiset(s)| == 2;
    assert s == [s[0], s[1]];
    assert s[0] in multiset(s) && s[1] in multiset(s);
    if s[0] == a {
      assert multiset(s) - multiset{a} == multiset{s[1]} && multiset([a, b]) - multiset{a} == multiset{b};
    } else {
      assert multiset(s) - multiset{b} == multiset{s[1]} && multiset([a, b]) - multiset{b} == multiset{a};
    }
  }

  /** A section that owns three newlines of five, then a one-line container. New are a
      section between the two and a member at the container's front. */
  function SectionsAndContainer(): Sources {
    Sources([97, NL, NL, NL, NL, NL, 98, 123, 120], true,
            [97, NL, NL, 107, NL, NL, 98, 123, 121, 120], true, ["a", "k", "b", "by", "bx"],
            map["a" := Entity("a", "", 0, 4), "b" := Entity("b", "", 6, 9), "bx" := Entity("bx", "b", 8, 9)],
            map["a" := Entity("a", "", 0, 1), "k" := Entity("k", "", 3, 4), "b" := Entity("b", "", 6, 10),
                "by" := Entity("by", "b", 8, 9), "bx" := Entity("bx", "b", 9, 10)],
            false, false, true)
  }

  lemma SectionsLookup(s: Sources)
    requires s == SectionsAndContainer()
    ensures s.Valid() && |s.headSrc| == 9 && |s.workSrc| == 10
    ensures Lookup(s.work, "k") == Entity("k", "", 3, 4) && Lookup(s.head, "k").Unresolvable?
    ensures Lookup(s.work, "by") == Entity("by", "b", 8, 9) && Lookup(s.head, "by").Unresolvable?
    ensures Lookup(s.work, "a") == Entity("a", "", 0, 1) && Lookup(s.head, "a") == Entity("a", "", 0, 4)
    ensures Lookup(s.work, "b") == Entity("b", "", 6, 10) && Lookup(s.head, "b") == Entity("b", "", 6, 9)
    ensures Lookup(s.head, "bx") == Entity("bx", "b", 8, 9)
    ensures s.headExists && s.workExists && !s.flatContainer && !s.membersSitFlush
    ensures s.headSrc == [97, NL, NL, NL, NL, NL, 98, 123, 120]
    ensures s.workSrc == [97, NL, NL, 107, NL, NL, 98, 123, 121, 120]
    ensures IndexOf(s.workOrder, "k") == 1 && IndexOf(s.workOrder, "by") == 3
  {
    hide IndexOf;
    Spelled();
    FifthOf(s.workOrder);
  }

  lemma Spelled()
    ensures "a" != "k" && "a" != "b" && "a" != "by" && "a" != "bx" && "k" != "b" && "k" != "by" && "k" != "bx"
    ensures "b" != "by" && "b" != "bx" && "by" != "bx"
  {
    assert "a"[0] == 'a' && "k"[0] == 'k' && "b"[0] == 'b' && |"b"| == 1 && |"by"| == 2 && |"bx"| == 2;
    assert "by"[1] == 'y' && "bx"[1] == 'x';
  }

  lemma FifthOf(o: seq<string>)
    requires o == ["a", "k", "b", "by", "bx"]
    ensures IndexOf(o, "k") == 1 && IndexOf(o, "by") == 3
  {
    Spelled();
    assert forall a, b :: 0 <= a < b < |o| ==> o[a] != o[b];
    assert o[1] == "k" && o[3] == "by";
    IndexOfDistinct(o, 1);
    IndexOfDistinct(o, 3);
  }

  lemma SectionsPlaced(s: Sources)
    requires s == SectionsAndContainer() && s.Valid()
    ensures Lookup(s.work, "k").Found? && Position(s, Lookup(s.work, "k").res) == 4
    ensures Lookup(s.work, "by").Found? && Position(s, Lookup(s.work, "by").res) == 6
  {
    SectionsLookup(s);
    hide Position, BodyEnd;
    PositionCases(s, Lookup(s.work, "k").res, 1);
    PositionCases(s, Lookup(s.work, "by").res, 3);
    assert s.headSrc[5] == NL && s.headSrc[6] != NL && s.headSrc[7] != NL;
    assert LineBegin(s.headSrc, 6) == 6 && LineBegin(s.headSrc, 7) == 6 && LineBegin(s.headSrc, 8) == 6;
  }

  /** Staging both tears the member's text: the blob is not the substitution. */
  lemma InsertionsInRunTear()
    ensures
      var s := SectionsAndContainer();
      && s.Valid() && Classification(s, "k").Planned? && Classification(s, "by").Planned?
      && var lo, hi := Classification(s, "k").op, Classification(s, "by").op;
      && WellFormed(s.headSrc, [lo, hi]) && Applied(s.headSrc, [lo, hi]).Some?
      && lo.kind.Insert? && hi.kind.Insert? && lo.start < hi.start
      && Erase(Applied(s.headSrc, [lo, hi]).value) != Erase(Flatten(Segments(s.headSrc, [Alone(lo), Alone(hi)])))
  {
    hide SectionsAndContainer, Classification, Erase, Segments, Flatten, Pass, Applied, Alone, Solid;
    var s := SectionsAndContainer();
    SectionsEdits(s);
    var lo, hi := Classification(s, "k").op, Classification(s, "by").op;
    TwoApplied(s.headSrc, lo, hi);
    AloneIs(lo);
    AloneIs(hi);
    var n := [NL, NL, NL, NL, NL];
    assert [97][0] != NL && [107][0] != NL && [121][0] != NL && Solid([107]) && Solid([121]) by {
      SolidOne(107);
      SolidOne(121);
    }
    InsertsInsideRunIff([97], n, [98, 123, 120], Alone(lo), Alone(hi));
  }

  lemma SolidOne(c: byte)
    requires c != NL
    ensures Solid([c])
  {
  }

  lemma AloneIs(op: EditOp)
    requires op.kind.Insert?
    ensures Alone(op).kind.Insert? && Alone(op).start == op.start && Alone(op).text == op.text
    ensures Alone(op).member == op.member && Alone(op).leadGap == op.leadGap && Alone(op).trailGap == op.trailGap
  {
    assert [op][1..] == [];
  }

  lemma SectionsEdits(s: Sources)
    requires s == SectionsAndContainer()
    ensures s.Valid() && Classification(s, "k").Planned? && Classification(s, "by").Planned?
    ensures s.headSrc == [97] + [NL, NL, NL, NL, NL] + [98, 123, 120]
    ensures
      var op := Classification(s, "k").op;
      && op.kind.Insert? && op.start == 4 && op.text == [107] && op.wstart == 3 && op.wend == 4 && op.GapsAreNewlines()
    ensures
      var op := Classification(s, "by").op;
      && op.kind.Insert? && op.start == 6 && op.text == [121] && op.wstart == 8 && op.wend == 9
      && op.GapsAreNewlines() && !op.member && op.leadGap == []
  {
    hide SectionsAndContainer, Position, LineStart, RunAfter, RunBefore, Sources.Valid;
    SectionsLookup(s);
    SectionsPlaced(s);
    WorkLines(s.workSrc);
    OwnInsertion(s, "k", 3, false);
    OwnInsertion(s, "by", 8, true);
    assert s.workSrc[3..4] == [107] && s.workSrc[8..9] == [121];
  }

  /** A new one-byte symbol right where its line's text begins. */
  lemma OwnInsertion(s: Sources, anchor: string, at: nat, isMember: bool)
    requires s.Valid() && s.headExists && s.workExists && !s.membersSitFlush
    requires Lookup(s.work, anchor).Found? && Lookup(s.head, anchor).Unresolvable?
    requires
      var res := Lookup(s.work, anchor).res;
      && res.extent == Extent(at, at + 1) && at < |s.workSrc| && LineStart(s.workSrc, at) == at
      && Escalation(s, res) == Widened(res, isMember, false)
    ensures Classification(s, anchor).Planned?
    ensures
      var op := Classification(s, anchor).op;
      && op.kind.Insert? && op.start == Position(s, Lookup(s.work, anchor).res) && op.text == s.workSrc[at..at + 1]
      && op.wstart == at && op.wend == at + 1 && op.GapsAreNewlines() && !op.member
      && op.leadGap == s.workSrc[RunBefore(s.workSrc, at)..at]
  {
    hide Position, LineStart, Escalation, Sources.Valid;
    assert s.workSrc[at..at] == [];
  }

  lemma WorkLines(work: Text)
    requires work == [97, NL, NL, 107, NL, NL, 98, 123, 121, 120]
    ensures LineStart(work, 3) == 3 && LineStart(work, 8) == 8 && RunBefore(work, 8) == 8
  {
    assert work[2] == NL && work[7] == 123 && !Blank(work[7]);
    assert LineBegin(work, 3) == 3 && LineBegin(work, 8) <= 7;
  }

  // ----- a section that ends in the run an insertion spaces anew -----

  /** Two blank lines between two Markdown sections. The worktree has edited the first,
      which now owns one, and added a section after it. */
  function NewAfterEdited(): Sources {
    Sources([97, NL, NL, NL, 98], true, [99, NL, NL, 120, NL, NL, 98], true, ["a", "x", "b"],
            map["a" := Entity("a", "", 0, 4), "b" := Entity("b", "", 4, 5)],
            map["a" := Entity("a", "", 0, 3), "x" := Entity("x", "", 3, 6), "b" := Entity("b", "", 6, 7)],
            false, false, false)
  }

  /** The same two sections, the first under a new name. */
  function RenamedSection(): Sources {
    Sources([97, NL, NL, NL, 98], true, [120, NL, NL, 98], true, ["x", "b"],
            map["a" := Entity("a", "", 0, 4), "b" := Entity("b", "", 4, 5)],
            map["x" := Entity("x", "", 0, 3), "b" := Entity("b", "", 3, 4)], false, false, false)
  }

  /** The insertion moves up to the minimum gap, into bytes the range below still takes. */
  lemma SpacedAnew(hi: EditOp)
    requires hi.kind.Insert? && hi.start == 4 && hi.text == [120, NL, NL] && !hi.member
    requires WiderGap(hi.member, hi.leadGap) == [NL, NL] == WiderGap(hi.member, hi.trailGap)
    ensures SpliceInsert([97, NL, NL, NL, 98], hi) == [97, NL, NL, 120, NL, NL, 98]
  {
    var out := [97, NL, NL, NL, 98];
    assert out[..4] == [97] + [NL, NL, NL] && out[4..] == [98];
    TrimRightIs([97], [NL, NL, NL]);
    var mid := [97, NL, NL] + [120, NL, NL];
    assert mid == [97, NL, NL, 120] + [NL, NL];
    TrimRightIs([97, NL, NL, 120], [NL, NL]);
    assert Join(out[..4], hi.text, [NL, NL]) == mid;
    assert Join(mid, [98], [NL, NL]) == [97, NL, NL, 120] + [NL, NL] + [98];
  }

  lemma TakenAlong(head: Text, lo: EditOp, hi: EditOp)
    requires head == [97, NL, NL, NL, 98]
    requires !lo.kind.Insert? && lo.start == 0 && lo.end == 4
    requires hi.kind.Insert? && hi.start == 4 && hi.text == [120, NL, NL] && !hi.member
    requires !Swallows(lo, hi) && AllNL(hi.leadGap) && |hi.leadGap| <= 2 && hi.trailGap == []
    ensures WellFormed(head, [lo, hi])
    ensures lo.kind.Replace? ==> Applied(head, [lo, hi]) == Some(lo.text + [NL, NL, 98])
    ensures lo.kind.Delete? ==> Applied(head, [lo, hi]) == Some([98])
  {
    hide Applied, SpliceInsert, Pass;
    TwoApplied(head, lo, hi);
    AloneIs(hi);
    var m := Single(hi);
    assert WiderGap(m.member, m.leadGap) == [NL, NL] && WiderGap(m.member, m.trailGap) == [NL, NL];
    SpacedAnew(m);
    TwoPassed(head, lo, m);
    var out := [97, NL, NL, 120, NL, NL, 98];
    assert out[4..] == [NL, NL, 98] && out[..0] == [];
    TrimLeftIs([NL, NL], [98]);
    assert [NL, NL] + [98] == [NL, NL, 98];
    assert Single(lo) == lo;
    assert [] + lo.text == lo.text && [] + [98] == [98];
    if lo.kind.Replace? {
      assert Step(out, lo) == Some(out[..0] + lo.text + out[4..]);
    } else {
      assert Step(out, lo) == Some(out[..0] + [98]);
    }
  }

  lemma TwoPassed(head: Text, lo: EditOp, hi: EditOp)
    requires hi.kind.Insert? && lo.start <= lo.End()
    ensures Ordered([lo, hi]) && Pass(head, [lo, hi]) == Step(SpliceInsert(head, hi), lo)
  {
    assert [lo, hi][1..] == [hi] && [hi][1..] == [];
    assert Pass(head, []) == Some(head);
    assert Pass(head, [hi]) == Some(SpliceInsert(head, hi));
  }

  /** Staging the edited section together with the new one after it leaves the new one out. */
  lemma NewSectionIsLost()
    ensures
      var s := NewAfterEdited();
      && Tabled(s) && s.Valid() && Classification(s, "a").Planned? && Classification(s, "x").Planned?
      && var ops := [Classification(s, "a").op, Classification(s, "x").op];
      WellFormed(s.headSrc, ops) && Applied(s.headSrc, ops) == Some([99, NL, NL, NL, NL, 98])
  {
    hide NewAfterEdited, Tabled, Swallows, Applied, WellFormed, Sources.Valid, Classification;
    var s := NewAfterEdited();
    NewSectionTabled(s);
    NewSectionPlanned(s);
    var lo, hi := Classification(s, "a").op, Classification(s, "x").op;
    NotWithin(lo, hi);
    TakenAlong(s.headSrc, lo, hi);
    assert [99, NL, NL] + [NL, NL, 98] == [99, NL, NL, NL, NL, 98];
  }

  lemma NewSectionTabled(s: Sources)
    requires s == NewAfterEdited()
    ensures Tabled(s) && s.Valid() && s.headSrc == [97, NL, NL, NL, 98] && |s.workOrder| == 3 && s.workOrder[1] == "x"
    ensures Lookup(s.head, "a") == Entity("a", "", 0, 4) && Lookup(s.work, "a") == Entity("a", "", 0, 3)
    ensures Lookup(s.work, "x") == Entity("x", "", 3, 6) && Lookup(s.head, "x").Unresolvable?
  {
    hide Tabled;
    assert "a"[0] != "x"[0] && "a"[0] != "b"[0] && "x"[0] != "b"[0];
    assert s.workOrder[0] == "a" && s.workOrder[1] == "x" && s.workOrder[2] == "b";
    assert Lookup(s.head, "a") == Entity("a", "", 0, 4) && Lookup(s.head, "b") == Entity("b", "", 4, 5);
    assert Lookup(s.work, "a") == Entity("a", "", 0, 3) && Lookup(s.work, "b") == Entity("b", "", 6, 7);
    assert Lookup(s.work, "x") == Entity("x", "", 3, 6) && Lookup(s.head, "x").Unresolvable?;
    assert |s.headSrc| == 5 && |s.workSrc| == 7;
    assert Listed(s, 0) && Listed(s, 1) && Listed(s, 2);
    assert PairInOrder(s, 0, 1) && PairInOrder(s, 0, 2) && PairInOrder(s, 1, 2);
    ThreeTabled(s);
  }

  lemma NotWithin(lo: EditOp, hi: EditOp)
    requires !lo.kind.Insert? && hi.kind.Insert? && (lo.kind.Delete? || hi.wend > lo.wend)
    ensures !Swallows(lo, hi)
  {
  }

  lemma NewSectionPlanned(s: Sources)
    requires s == NewAfterEdited() && s.Valid() && |s.workOrder| == 3 && s.workOrder[1] == "x"
    requires Lookup(s.head, "a") == Entity("a", "", 0, 4) && Lookup(s.work, "a") == Entity("a", "", 0, 3)
    requires Lookup(s.work, "x") == Entity("x", "", 3, 6) && Lookup(s.head, "x").Unresolvable?
    requires Tabled(s)
    ensures Classification(s, "a").Planned? && Classification(s, "x").Planned?
    ensures
      var lo, hi := Classification(s, "a").op, Classification(s, "x").op;
      && lo.kind.Replace? && lo.start == 0 && lo.end == 4 && lo.text == [99, NL, NL] && lo.wend == 3
      && hi.kind.Insert? && hi.start == 4 && hi.text == [120, NL, NL] && !hi.member && hi.wend == 6
      && AllNL(hi.leadGap) && |hi.leadGap| <= 2 && hi.trailGap == []
  {
    hide Tabled, Position, LineStart, RunBefore, RunAfter;
    ListedSits(s, 1);
    assert PrevInHead(s, 1) == 1;
    PositionCases(s, Lookup(s.work, "x").res, 1);
    var work := s.workSrc;
    assert LineStart(work, 3) == 3 && RunBefore(work, 3) == 1 && RunAfter(work, 6) == 6 by {
      NewSectionLines(work);
    }
    assert work[0..3] == [99, NL, NL] && work[3..6] == [120, NL, NL] && work[3..3] == [] && work[6..6] == [];
    assert work[1..3] == [NL, NL];
  }

  lemma NewSectionLines(work: Text)
    requires work == [99, NL, NL, 120, NL, NL, 98]
    ensures LineStart(work, 3) == 3 && RunBefore(work, 3) == 1 && RunAfter(work, 6) == 6
  {
    assert work[2] == NL && work[1] == NL && work[0] != NL && work[6] != NL;
    assert RunBefore(work, 1) == 1 && RunBefore(work, 2) == 1;
  }

  /** So does staging a section under its new name: both the old name and the new one are
      named, and the deletion takes the insertion along. */
  lemma RenamedSectionIsLost()
    ensures
      var s := RenamedSection();
      && s.Valid() && Classification(s, "a").Planned? && Classification(s, "x").Planned?
      && var ops := [Classification(s, "a").op, Classification(s, "x").op];
      WellFormed(s.headSrc, ops) && Applied(s.headSrc, ops) == Some([98])
  {
    var s := RenamedSection();
    assert "a"[0] != "x"[0] && "a"[0] != "b"[0] && "x"[0] != "b"[0];
    assert s.workOrder[0] == "x" && s.workOrder[1] == "b";
    assert Lookup(s.head, "a") == Entity("a", "", 0, 4) && Lookup(s.head, "b") == Entity("b", "", 4, 5);
    assert Lookup(s.work, "a").Unresolvable? && Lookup(s.work, "b") == Entity("b", "", 3, 4);
    assert Lookup(s.work, "x") == Entity("x", "", 0, 3) && Lookup(s.head, "x").Unresolvable?;
    hide LineStart, RunBefore, RunAfter, Swallows, Applied, WellFormed;
    RenamedPlanned(s);
    var lo, hi := Classification(s, "a").op, Classification(s, "x").op;
    hide RenamedSection, Classification;
    NotWithin(lo, hi);
    TakenAlong(s.headSrc, lo, hi);
  }

  lemma RenamedPlanned(s: Sources)
    requires s == RenamedSection() && s.Valid() && s.workOrder[0] == "x" && s.workOrder[1] == "b"
    requires Lookup(s.head, "a") == Entity("a", "", 0, 4) && Lookup(s.work, "a").Unresolvable?
    requires Lookup(s.head, "b") == Entity("b", "", 4, 5)
    requires Lookup(s.work, "x") == Entity("x", "", 0, 3) && Lookup(s.head, "x").Unresolvable?
    ensures Classification(s, "a").Planned? && Classification(s, "x").Planned?
    ensures
      var lo, hi := Classification(s, "a").op, Classification(s, "x").op;
      && lo.kind.Delete? && lo.start == 0 && lo.end == 4
      && hi.kind.Insert? && hi.start == 4 && hi.text == [120, NL, NL] && !hi.member
      && AllNL(hi.leadGap) && |hi.leadGap| <= 2 && hi.trailGap == []
  {
    hide Position, LineStart, RunBefore, RunAfter;
    assert TableIndex(s, Lookup(s.work, "x").res) == 0 && PrevInHead(s, 0) == 0 && NextInHead(s, 1) == 1;
    PositionCases(s, Lookup(s.work, "x").res, 0);
    var work := s.workSrc;
    assert LineStart(work, 0) == 0 && RunBefore(work, 0) == 0 && RunAfter(work, 3) == 3 && LineStart(s.headSrc, 0) == 0 by {
      RenamedLines(work);
      RenamedLines([120] + work[1..]);
    }
    assert work[0..0] == [] && work[0..3] == [120, NL, NL] && work[3..3] == [];
  }

  lemma RenamedLines(work: Text)
    requires |work| == 4 && work[3] != NL
    ensures LineStart(work, 0) == 0 && RunBefore(work, 0) == 0 && RunAfter(work, 3) == 3
  {
  }

  // ----- one part named twice over -----

  /** A symbol HEAD lacks that can be staged, with some text to it. */
  ghost predicate NewPart(s: Sources, anchor: string) {
    && s.Valid() && s.workExists && Lookup(s.work, anchor).Found? && s.InHead(anchor).Unresolvable?
    && Escalation(s, Lookup(s.work, anchor).res).Widened? && Staged(s, anchor).start < Staged(s, anchor).end
  }

  ghost predicate NamesParts(s: Sources, ops: seq<EditOp>, named: seq<string>) {
    |ops| == |named| && forall k :: 0 <= k < |named| ==>
      && NewPart(s, named[k]) && Classification(s, named[k]).Planned? && ops[k] == Classification(s, named[k]).op
  }

  predicate OneOrApart(a: Extent, b: Extent) {
    a == b || a.end <= b.start || b.end <= a.start
  }

  /** Naming new symbols, in any order, stages no byte of the worktree twice exactly when
      what any two of them are widened to is one part or lies apart. Widening goes up one
      container and no further, so one part may still hold the other. */
  lemma NamedOnceIff(s: Sources, ops: seq<EditOp>, named: seq<string>)
    requires NamesParts(s, ops, named)
    ensures NothingTwice(Coalesced(ops)) <==>
            forall k, l :: 0 <= k < |named| && 0 <= l < |named| ==> OneOrApart(Staged(s, named[k]), Staged(s, named[l]))
  {
    hide NewPart, Classification, Coalesced, Staged, Sources.Valid;
    var parts := seq(|named|, k requires 0 <= k < |named| => Staged(s, named[k]));
    forall k | 0 <= k < |ops|
      ensures ops[k].kind.Insert? && ops[k].wstart == parts[k].start < ops[k].wend == parts[k].end
    {
      PartStaged(s, named[k]);
    }
    OnceIff(ops, parts);
    assert forall k :: 0 <= k < |named| ==> parts[k] == Staged(s, named[k]);
  }

  lemma OnceIff(ops: seq<EditOp>, parts: seq<Extent>)
    requires |ops| == |parts|
    requires forall k :: 0 <= k < |ops| ==>
               ops[k].kind.Insert? && ops[k].wstart == parts[k].start < ops[k].wend == parts[k].end
    ensures NothingTwice(Coalesced(ops)) <==>
            forall k, l :: 0 <= k < |parts| && 0 <= l < |parts| ==> OneOrApart(parts[k], parts[l])
  {
    hide Coalesced, NothingTwice;
    assert forall op <- ops :: exists k :: 0 <= k < |ops| && ops[k] == op;
    NothingTwiceIff(ops);
    forall k, l | 0 <= k < |ops| && 0 <= l < |ops|
      ensures ops[k] in ops && ops[l] in ops
      ensures OneOrApart(parts[k], parts[l]) <==> SameWork(ops[k], ops[l]) || WorkApart(ops[k], ops[l])
    {
    }
  }

  lemma PartStaged(s: Sources, anchor: string)
    requires NewPart(s, anchor)
    ensures s.Valid() && Classification(s, anchor).Planned?
    ensures
      var op := Classification(s, anchor).op;
      && op.kind.Insert? && op.wstart == Staged(s, anchor).start < op.wend == Staged(s, anchor).end
  {
    hide Position, LineStart, RunBefore, RunAfter;
  }

  // ----- an element and one inside it -----

  /** An empty HTML file, and in the worktree one element inside another. Anchors name an
      element by its own tag, so nothing says which element holds it. */
  function ElementInElement(): Sources {
    Sources([], true, [60, 105, 105, 62], true, ["o", "i"], map[],
            map["o" := Entity("o", "", 0, 4), "i" := Entity("i", "tag", 1, 3)], true, false, false)
  }

  /** Naming both stages the inner one twice: an insertion is dropped only for one with the
      very same extent. */
  lemma InnerElementTwice()
    ensures
      var s := ElementInElement();
      && s.Valid() && Classification(s, "o").Planned? && Classification(s, "i").Planned?
      && var ops := [Classification(s, "o").op, Classification(s, "i").op];
      && WellFormed(s.headSrc, ops) && Applied(s.headSrc, ops) == Some(s.workSrc + [NL, NL] + s.workSrc[1..3])
  {
    hide Applied, SpliceInsert, Classification, NewPart;
    var s := ElementInElement();
    assert "o"[0] != "i"[0];
    assert Lookup(s.work, "o") == Entity("o", "", 0, 4) && Lookup(s.work, "i") == Entity("i", "tag", 1, 3);
    InnerLines(s.workSrc);
    OuterPlanned(s, "o", Lookup(s.work, "o").res);
    OuterPlanned(s, "i", Lookup(s.work, "i").res);
    assert s.workSrc[0..0] + s.workSrc[0..4] == s.workSrc && s.workSrc[1..1] + s.workSrc[1..3] == s.workSrc[1..3];
    TwoInto(s.workSrc, Classification(s, "o").op, Classification(s, "i").op);
  }

  lemma InnerLines(work: Text)
    requires work == [60, 105, 105, 62]
    ensures LineStart(work, 0) == 0 && LineStart(work, 1) == 1 && RunBefore(work, 0) == 0 && RunBefore(work, 1) == 1
  {
    assert LineBegin(work, 1) == 0 && !Blank(work[0]);
  }

  lemma EmptyHeadPlace(s: Sources, res: Resolution)
    requires s.Valid() && s.headExists && s.headSrc == [] && s.head == map[]
    ensures Position(s, res) == 0
  {
    PositionCases(s, res, TableIndex(s, res));
    assert forall c :: 0 <= c < |s.workOrder| ==> Lookup(s.head, s.workOrder[c]).Unresolvable?;
  }

  lemma TwoInto(work: Text, o: EditOp, i: EditOp)
    requires work == [60, 105, 105, 62] && o.kind.Insert? && i.kind.Insert? && o.start == i.start == 0
    requires o.text == work && i.text == work[1..3] && !o.member && i.leadGap == []
    requires o.order == o.wstart == 0 && o.wend == 4 && i.order == i.wstart == 1 && i.wend == 3
    ensures WellFormed([], [o, i]) && Applied([], [o, i]) == Some(work + [NL, NL] + work[1..3])
  {
    hide Applied, SpliceInsert;
    NewFile.OneGroupApplied([o, i], [o, i]);
    var m := MergeGroup(0, [o, i]);
    assert [o, i][1..] == [i] && [i][1..] == [];
    SolidTrims(work);
    SolidTrims(work[1..3]);
    var text := work + [NL, NL] + work[1..3];
    assert JoinTexts(work, [i], false) == JoinTexts(Join(work, i.text, WiderGap(false, [])), [], false);
    assert Join(work, i.text, [NL, NL]) == text;
    assert m.text == text;
    NewFile.InsertIntoEmpty(m);
    assert text[|text| - 1] == 105;
    TrimRightIs(text, []);
    assert text + [] == text;
  }

  /** Three Markdown sections, each inside the one before, or three nested JSON keys. A
      container is named one level up, and looked up by that name. */
  function ThreeDeep(): Sources {
    var inner := Entity("o.i", "o", 1, 3);
    Sources([], true, [60, 105, 105, 62], true, ["o", "o.i", "i.c"], map[],
            map["o" := Entity("o", "", 0, 4), "o.i" := inner, "i" := inner, "i.c" := Entity("i.c", "i", 2, 3)],
            false, false, false)
  }

  lemma ThreeDeepLooksUp(s: Sources)
    requires s == ThreeDeep()
    ensures s.Valid() && s.headExists && s.workExists && s.headSrc == [] && s.head == map[] && !s.flatContainer
    ensures s.workSrc == [60, 105, 105, 62] && !s.membersSitFlush
    ensures Lookup(s.work, "o") == Entity("o", "", 0, 4) && Lookup(s.head, "o").Unresolvable?
    ensures Lookup(s.work, "i.c") == Entity("i.c", "i", 2, 3) && Lookup(s.head, "i.c").Unresolvable?
    ensures Lookup(s.work, "i") == Entity("o.i", "o", 1, 3) && Lookup(s.head, "i").Unresolvable?
  {
    assert |"o"| == 1 && |"i"| == 1 && |"o.i"| == 3 && |"i.c"| == 3;
    assert "o"[0] == 'o' && "i"[0] == 'i' && "o.i"[0] == 'o' && "i.c"[0] == 'i';
  }

  /** Naming the outermost and the innermost stages the middle one twice: the innermost is
      widened to the middle one, which the outermost already holds. */
  lemma MiddleSectionTwice()
    ensures
      var s := ThreeDeep();
      && NewPart(s, "o") && NewPart(s, "i.c")
      && Classification(s, "o").Planned? && Classification(s, "i.c").Planned?
      && var ops := [Classification(s, "o").op, Classification(s, "i.c").op];
      && WellFormed(s.headSrc, ops) && !NothingTwice(Coalesced(ops))
      && Applied(s.headSrc, ops) == Some(s.workSrc + [NL, NL] + s.workSrc[1..3])
  {
    hide ThreeDeep, Applied, SpliceInsert, Sources.Valid, Classification, NewPart, Coalesced;
    var s := ThreeDeep();
    ThreeDeepLooksUp(s);
    ThreeDeepPlanned(s);
    var o, i := Classification(s, "o").op, Classification(s, "i.c").op;
    TwoInto(s.workSrc, o, i);
    assert o in [o, i] && i in [o, i] && !SameWork(o, i) && !WorkApart(o, i);
    NothingTwiceIff([o, i]);
  }

  /** Naming the innermost alone stages the middle one, whose own container HEAD lacks. */
  lemma MiddleSectionAlone()
    ensures
      var s := ThreeDeep();
      && NewPart(s, "i.c") && Escalation(s, Lookup(s.work, "i.c").res).escalated
      && LacksContainer(s, Escalation(s, Lookup(s.work, "i.c").res).res)
  {
    hide ThreeDeep, NewPart, Classification;
    var s := ThreeDeep();
    ThreeDeepLooksUp(s);
    ThreeDeepPlanned(s);
    assert Holder(s, Lookup(s.work, "i").res, Lookup(s.work, "o").res);
  }

  lemma ThreeDeepPlanned(s: Sources)
    requires s == ThreeDeep()
    ensures NewPart(s, "o") && NewPart(s, "i.c")
    ensures s.Valid() && Classification(s, "o").Planned? && Classification(s, "i.c").Planned?
    ensures
      var o, i := Classification(s, "o").op, Classification(s, "i.c").op;
      && o.kind.Insert? && i.kind.Insert? && o.start == i.start == 0
      && o.text == s.workSrc && i.text == s.workSrc[1..3] && !o.member && i.leadGap == []
      && o.order == o.wstart == 0 && o.wend == 4 && i.order == i.wstart == 1 && i.wend == 3
  {
    hide ThreeDeep, Sources.Valid, Classification, NewPart;
    ThreeDeepLooksUp(s);
    InnerLines(s.workSrc);
    OuterPlanned(s, "o", Lookup(s.work, "o").res);
    OuterPlanned(s, "i.c", Lookup(s.work, "i").res);
    assert s.workSrc[0..0] + s.workSrc[0..4] == s.workSrc && s.workSrc[1..1] + s.workSrc[1..3] == s.workSrc[1..3];
  }

  /** Staging the part `res` for an anchor of an empty HEAD, where its line's text begins. */
  lemma OuterPlanned(s: Sources, anchor: string, res: Resolution)
    requires s.Valid() && s.headExists && s.workExists && s.headSrc == [] && s.head == map[] && !s.membersSitFlush
    requires Lookup(s.work, anchor).Found? && res.extent.start < res.extent.end <= |s.workSrc|
    requires Escalation(s, Lookup(s.work, anchor).res).Widened? && Escalation(s, Lookup(s.work, anchor).res).res == res
    requires LineStart(s.workSrc, res.extent.start) == res.extent.start && RunBefore(s.workSrc, res.extent.start) == res.extent.start
    ensures NewPart(s, anchor) && Classification(s, anchor).Planned?
    ensures
      var op, e := Classification(s, anchor).op, res.extent;
      && op.kind.Insert? && op.start == 0 && op.text == s.workSrc[e.start..e.start] + s.workSrc[e.start..e.end]
      && !op.member && op.leadGap == [] && op.order == op.wstart == e.start && op.wend == e.end
  {
    hide Position, LineStart, RunBefore, RunAfter, Escalation, Sources.Valid;
    EmptyHeadPlace(s, res);
  }
}
