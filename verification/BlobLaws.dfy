/** What the synthesized blob contains, for any batch of edits. */
module BlobLaws {
  import opened Seqs
  import opened Bytes
  import opened Sorting
  import opened Splice
  import opened SpliceLaws
  import opened Coalesce
  import opened ApplyEdits

  /** No insertion lands strictly inside a range. */
  ghost predicate NoStraddle(kept: seq<EditOp>) {
    forall r <- kept, i <- kept :: IsRange(r) && i.kind.Insert? ==> !(r.start < i.start < r.end)
  }

  lemma MergedAtShape(kept: seq<EditOp>, p: nat)
    ensures |MergedAt(kept, p)| <= 1
    ensures forall m <- MergedAt(kept, p) :: m.kind.Insert? && m.start == p && exists op <- kept :: op.kind.Insert? && op.start == p
  {
    GroupedMembers(kept, p);
    if Grouped(kept, p) != [] {
      assert Grouped(kept, p)[0] in Grouped(kept, p);
    }
  }

  /** A layout entry is a kept range, or starts where a kept insertion does. */
  ghost predicate Stems(kept: seq<EditOp>, entry: EditOp) {
    if IsRange(entry) then entry in kept
    else exists op <- kept :: op.kind.Insert? && op.start == entry.start
  }

  /** The next offset an edit starts at. */
  lemma {:induction false} LayoutStart(head: Text, kept: seq<EditOp>, p: nat)
    requires WellFormed(head, kept) && PairwiseDisjoint(kept) && p <= |head| + 1
    ensures
      var asc := MergedLayout(kept, p, |head|);
      asc == [] || (asc[0].start >= p && Stems(kept, asc[0]))
    decreases |head| + 1 - p
  {
    hide Grouped, RangesAt, GroupAt;
    if p <= |head| {
      LayoutStart(head, kept, p + 1);
      MergedAtShape(kept, p);
      OneRangeAt(head, kept, p);
      var asc := MergedLayout(kept, p, |head|);
      if MergedAt(kept, p) != [] {
        assert asc[0] == MergedAt(kept, p)[0];
        assert asc[0] in MergedAt(kept, p);
      } else if RangesAt(kept, p) != [] {
        assert asc[0] == RangesAt(kept, p)[0];
        assert asc[0] in RangesAt(kept, p);
      } else {
        assert asc == MergedLayout(kept, p + 1, |head|);
      }
    }
  }

  lemma AscendCons(head: Text, op: EditOp, rest: seq<EditOp>)
    requires Ascending(head, rest) && op.start <= op.End() <= StartOf(head, rest)
    ensures Ascending(head, [op] + rest) && StartOf(head, [op] + rest) == op.start
  {
    assert ([op] + rest)[1..] == rest;
  }

  lemma RangeAscends(head: Text, kept: seq<EditOp>, p: nat, above: seq<EditOp>)
    requires WellFormed(head, kept) && PairwiseDisjoint(kept) && NoStraddle(kept) && p <= |head|
    requires Ascending(head, above) && (above == [] || (above[0].start > p && Stems(kept, above[0])))
    ensures Ascending(head, RangesAt(kept, p) + above) && p <= StartOf(head, RangesAt(kept, p) + above)
  {
    hide Ascending, RangesAt, PairwiseDisjoint, NoStraddle;
    OneRangeAt(head, kept, p);
    if RangesAt(kept, p) == [] {
      assert RangesAt(kept, p) + above == above;
    } else {
      var r := RangesAt(kept, p)[0];
      assert r in RangesAt(kept, p) && RangesAt(kept, p) == [r];
      RangeEndsBelow(head, kept, r, above);
      AscendCons(head, r, above);
    }
  }

  lemma {:induction false} LayoutAscends(head: Text, kept: seq<EditOp>, p: nat)
    requires WellFormed(head, kept) && PairwiseDisjoint(kept) && NoStraddle(kept) && p <= |head| + 1
    ensures Ascending(head, MergedLayout(kept, p, |head|))
    decreases |head| + 1 - p
  {
    hide Ascending, RangesAt, MergedAt, WellFormed, PairwiseDisjoint, NoStraddle, Stems;
    if p <= |head| {
      LayoutAscends(head, kept, p + 1);
      LayoutStart(head, kept, p + 1);
      MergedAtShape(kept, p);
      var above := MergedLayout(kept, p + 1, |head|);
      RangeAscends(head, kept, p, above);
      var mid := RangesAt(kept, p) + above;
      Assoc(MergedAt(kept, p), RangesAt(kept, p), above);
      if MergedAt(kept, p) == [] {
        assert MergedAt(kept, p) + mid == mid;
      } else {
        var m := MergedAt(kept, p)[0];
        assert m in MergedAt(kept, p) && MergedAt(kept, p) == [m];
        AscendCons(head, m, mid);
      }
    } else {
      AscendNil(head);
    }
  }

  lemma AscendNil(head: Text)
    ensures Ascending(head, [])
  {
  }

  lemma RangeEndsBelow(head: Text, kept: seq<EditOp>, r: EditOp, above: seq<EditOp>)
    requires WellFormed(head, kept) && PairwiseDisjoint(kept) && NoStraddle(kept)
    requires r in kept && IsRange(r)
    requires above != [] ==> r.start < above[0].start && Stems(kept, above[0])
    ensures r.end <= StartOf(head, above)
  {
    if above != [] && IsRange(above[0]) {
      var i :| 0 <= i < |kept| && kept[i] == above[0];
      var j :| 0 <= j < |kept| && kept[j] == r;
      assert i != j;
      assert !Overlap(r, above[0]);
    }
  }

  // ----- from merged insertions to the edits they stand for -----

  /** Any blob with the tail of `m` has the tail of `l`. */
  ghost predicate Refines(head: Text, m: seq<EditOp>, l: seq<EditOp>) {
    StartOf(head, m) == StartOf(head, l) &&
    forall x: Text :: Spaced(x, Tail(head, m)) ==> Spaced(x, Tail(head, l))
  }

  lemma RefinesCons(head: Text, op: EditOp, m: seq<EditOp>, l: seq<EditOp>)
    requires Refines(head, m, l)
    ensures Refines(head, [op] + m, [op] + l)
  {
    hide Spaced;
    assert ([op] + m)[1..] == m && ([op] + l)[1..] == l;
    var seg := Segment(head, op.End(), StartOf(head, m));
    forall x: Text | Spaced(x, Tail(head, [op] + m))
      ensures Spaced(x, Tail(head, [op] + l))
    {
      PeelTwo(x, op.Piece(), seg, Tail(head, m), Tail(head, l));
    }
  }

  /** Two leading parts carry over to a refined remainder. */
  lemma PeelTwo(x: Text, a: Text, b: Text, m: seq<Text>, l: seq<Text>)
    requires Spaced(x, [a, b] + m) && forall y: Text :: Spaced(y, m) ==> Spaced(y, l)
    ensures Spaced(x, [a, b] + l)
  {
    hide Spaced;
    assert [a, b] + m == [a] + ([b] + m);
    var n, y := SpacedElim(x, a, [b] + m);
    var n', y' := SpacedElim(y, b, m);
    SpacedIntro(n', y', b, l);
    SpacedIntro(n, y, a, [b] + l);
    assert [a, b] + l == [a] + ([b] + l);
  }

  function Texts(group: seq<EditOp>): seq<Text> {
    if group == [] then [] else [group[0].text] + Texts(group[1..])
  }

  /** `Join` adds its right side as one more part. */
  lemma JoinSpaced(a: Text, parts: seq<Text>, b: Text, sep: Text)
    requires Spaced(a, parts) && AllNL(sep)
    ensures Spaced(Join(a, b, sep), parts + [b])
  {
    hide Spaced, TrimLeft, TrimRight, Join;
    var body, k := JoinShape(a, b, sep);
    var n := TrimRightSplits(a);
    SpacedTrail(TrimRight(a), n, parts);
    CoreTrail(body, k);
    SpacedOne(body + k, b);
    SpacedAppend(TrimRight(a), parts, body + k, [b]);
    Assoc(TrimRight(a), body, k);
  }

  /** A merged insertion's text is the group's texts, in worktree order. */
  lemma {:induction false} JoinTextsSpaced(text: Text, parts: seq<Text>, rest: seq<EditOp>, member: bool)
    requires Spaced(text, parts) && NewlineGaps(rest)
    ensures Spaced(JoinTexts(text, rest, member), parts + Texts(rest))
    decreases |rest|
  {
    hide Spaced, Join;
    if rest == [] {
      assert parts + Texts(rest) == parts;
    } else {
      var g := rest[0];
      assert g in rest && g.GapsAreNewlines();
      var sep := WiderGap(member, g.leadGap);
      JoinSpaced(text, parts, g.text, sep);
      JoinTextsSpaced(Join(text, g.text, sep), parts + [g.text], rest[1..], member);
      Assoc(parts, [g.text], Texts(rest[1..]));
    }
  }

  /** Empty HEAD segments between insertions at one offset add nothing. */
  lemma {:induction false} GroupTail(x: Text, head: Text, p: nat, group: seq<EditOp>, l: seq<EditOp>)
    requires group != [] && p <= StartOf(head, l) && p <= |head|
    requires forall g <- group :: g.kind.Insert? && g.start == p
    requires Spaced(x, Texts(group) + ([Segment(head, p, StartOf(head, l))] + Tail(head, l)))
    ensures Spaced(x, Tail(head, group + l)) && StartOf(head, group + l) == p
    decreases |group|
  {
    hide Spaced, Tail;
    var g, rest := group[0], group[1..];
    assert g in group && forall o <- rest :: o in group;
    assert [g] + (rest + l) == group + l;
    TailCons(head, g, rest + l);
    var seg, tail := Segment(head, p, StartOf(head, l)), Tail(head, l);
    if rest == [] {
      assert rest + l == l && Texts(group) == [g.text];
      assert [g.text] + ([seg] + tail) == [g.text, seg] + tail;
    } else {
      var below := Texts(rest) + ([seg] + tail);
      Assoc([g.text], Texts(rest), [seg] + tail);
      var n, y := SpacedElim(x, g.text, below);
      GroupTail(y, head, p, rest, l);
      assert Segment(head, g.End(), StartOf(head, rest + l)) == [];
      SpacedCons([], [], y, Tail(head, rest + l));
      assert [] + y == y;
      SpacedIntro(n, y, g.text, [[]] + Tail(head, rest + l));
      assert [g.text] + ([[]] + Tail(head, rest + l)) == [g.text, []] + Tail(head, rest + l);
    }
  }

  lemma TailCons(head: Text, op: EditOp, rest: seq<EditOp>)
    ensures Tail(head, [op] + rest) == [op.Piece(), Segment(head, op.End(), StartOf(head, rest))] + Tail(head, rest)
  {
    assert ([op] + rest)[1..] == rest;
  }

  lemma RefinesGroup(head: Text, kept: seq<EditOp>, p: nat, m: seq<EditOp>, l: seq<EditOp>)
    requires Refines(head, m, l) && NewlineGaps(kept) && p <= |head| && p <= StartOf(head, l)
    ensures Refines(head, MergedAt(kept, p) + m, Grouped(kept, p) + l)
  {
    hide Spaced, Grouped, MergeGroup, Tail;
    var group := Grouped(kept, p);
    GroupedMembers(kept, p);
    if group == [] {
      assert MergedAt(kept, p) + m == m && group + l == l;
    } else {
      var mg := MergeGroup(p, group);
      MergedStart(kept, p);
      assert MergedAt(kept, p) + m == [mg] + m;
      forall x: Text | Spaced(x, Tail(head, [mg] + m))
        ensures Spaced(x, Tail(head, group + l))
      {
        GroupRefined(x, head, p, group, m, l);
      }
      assert group[0] in group && (group + l)[0] == group[0];
    }
  }

  lemma GroupRefined(x: Text, head: Text, p: nat, group: seq<EditOp>, m: seq<EditOp>, l: seq<EditOp>)
    requires Refines(head, m, l) && p <= |head| && p <= StartOf(head, l)
    requires group != [] && NewlineGaps(group) && forall g <- group :: g.kind.Insert? && g.start == p
    requires Spaced(x, Tail(head, [MergeGroup(p, group)] + m))
    ensures Spaced(x, Tail(head, group + l))
  {
    hide Spaced, Tail, Segment, JoinTexts;
    var mg := MergeGroup(p, group);
    var seg := Segment(head, p, StartOf(head, m));
    TailCons(head, mg, m);
    PeelTwo(x, mg.text, seg, Tail(head, m), Tail(head, l));
    assert [mg.text, seg] + Tail(head, l) == [mg.text] + ([seg] + Tail(head, l));
    MergeGroupSpaced(p, group);
    SpacedExpand(x, mg.text, Texts(group), [seg] + Tail(head, l));
    GroupTail(x, head, p, group, l);
  }

  lemma MergeGroupSpaced(p: nat, group: seq<EditOp>)
    requires group != [] && NewlineGaps(group)
    ensures Spaced(MergeGroup(p, group).text, Texts(group))
  {
    hide Spaced;
    SpacedOne(group[0].text, group[0].text);
    assert forall g <- group[1..] :: g in group;
    JoinTextsSpaced(group[0].text, [group[0].text], group[1..], group[0].member);
  }

  lemma {:induction false} LayoutRefines(head: Text, kept: seq<EditOp>, p: nat)
    requires WellFormed(head, kept) && PairwiseDisjoint(kept) && NewlineGaps(kept) && p <= |head| + 1
    ensures Refines(head, MergedLayout(kept, p, |head|), Layout(kept, p, |head|))
    ensures p <= |head| ==> p <= StartOf(head, MergedLayout(kept, p, |head|))
    decreases |head| + 1 - p
  {
    hide Spaced, Tail, Refines, Grouped, MergedAt, RangesAt, Stems, PairwiseDisjoint, WellFormed;
    LayoutStart(head, kept, p);
    if p <= |head| {
      LayoutRefines(head, kept, p + 1);
      OneRangeAt(head, kept, p);
      var m, l := MergedLayout(kept, p + 1, |head|), Layout(kept, p + 1, |head|);
      var r := RangesAt(kept, p);
      if r == [] {
        assert r + m == m && r + l == l;
      } else {
        assert r[0] in r && r == [r[0]];
        RefinesCons(head, r[0], m, l);
      }
      LayoutStart(head, kept, p + 1);
      RefinesStart(head, m, l);
      RefinesGroup(head, kept, p, r + m, r + l);
      Assoc(MergedAt(kept, p), r, m);
      Assoc(Grouped(kept, p), r, l);
    } else {
      RefinesNil(head);
    }
  }

  lemma RefinesNil(head: Text)
    ensures Refines(head, [], [])
  {
  }

  lemma RefinesStart(head: Text, m: seq<EditOp>, l: seq<EditOp>)
    requires Refines(head, m, l)
    ensures StartOf(head, m) == StartOf(head, l)
  {
  }

  // ----- the main theorems -----

  /** The conditions under which a batch addresses HEAD soundly: edits kept after
      coalescing do not cut into each other, and each ends within the bytes that the
      edits above it leave in place. */
  ghost predicate Sound(head: Text, ops: seq<EditOp>) {
    && WellFormed(head, ops) && NewlineGaps(ops) && NoStraddle(Coalesced(ops))
    && var asc := MergedLayout(Coalesced(ops), 0, |head|);
       Ascending(head, asc) && Clear(head, asc)
  }

  lemma MergedGaps(kept: seq<EditOp>, p: nat, hi: nat)
    requires NewlineGaps(kept)
    ensures NewlineGaps(MergedLayout(kept, p, hi))
    decreases hi + 1 - p
  {
    if p <= hi {
      MergedGaps(kept, p + 1, hi);
      GroupedMembers(kept, p);
      WithKeyMembers(Ranges(kept), HighestFirst, Neg(p));
      RangesMembers(kept);
      var g := Grouped(kept, p);
      if g != [] {
        assert g[0] in g && g[|g| - 1] in g;
      }
    }
  }

  /** Synthesis refines simultaneous substitution at HEAD's original offsets. It is
      in bounds at every step; the blob is the untouched HEAD segments, the
      replacement texts and the insertion texts in ascending offset order, insertions
      at one offset in worktree order, every part complete up to newlines at the
      seams. Nothing is lost, duplicated or reordered. */
  lemma SynthesisRefinesSubstitution(head: Text, ops: seq<EditOp>)
    requires Sound(head, ops)
    ensures Applied(head, ops).Some?
    ensures Spaced(Applied(head, ops).value, Segments(head, Layout(Coalesced(ops), 0, |head|)))
  {
    hide Spaced, Clear;
    var kept := Coalesced(ops);
    CoalescedAccounts(ops);
    var asc, lay := MergedLayout(kept, 0, |head|), Layout(kept, 0, |head|);
    AppliedIsPass(head, ops);
    MergedGaps(kept, 0, |head|);
    PassRefinesSubstitution(head, asc);
    LayoutRefines(head, kept, 0);
    var seg := Segment(head, 0, StartOf(head, asc));
    var n, y := SpacedElim(Applied(head, ops).value, seg, Tail(head, asc));
    SpacedIntro(n, y, seg, Tail(head, lay));
  }

  /** The same, with newlines erased on both sides. */
  lemma SynthesisLosesNothing(head: Text, ops: seq<EditOp>)
    requires Sound(head, ops)
    ensures Applied(head, ops).Some?
    ensures Erase(Applied(head, ops).value) == Erase(Flatten(Segments(head, Layout(Coalesced(ops), 0, |head|))))
  {
    hide Spaced;
    SynthesisRefinesSubstitution(head, ops);
    SpacedErase(Applied(head, ops).value, Segments(head, Layout(Coalesced(ops), 0, |head|)));
  }

  /** A caller's check that makes a batch sound. */
  lemma AnchoredIsSound(head: Text, ops: seq<EditOp>)
    requires WellFormed(head, ops) && NewlineGaps(ops) && NoStraddle(Coalesced(ops))
    requires Ascending(head, MergedLayout(Coalesced(ops), 0, |head|)) ==>
               AllAnchored(head, MergedLayout(Coalesced(ops), 0, |head|))
    ensures Sound(head, ops)
  {
    CoalescedAccounts(ops);
    LayoutAscends(head, Coalesced(ops), 0);
    AnchoredIsClear(head, MergedLayout(Coalesced(ops), 0, |head|));
  }

  lemma {:induction false} NoGroups(kept: seq<EditOp>, p: nat)
    requires forall op <- kept :: IsRange(op)
    ensures GroupAt(kept, p) == [] && Grouped(kept, p) == []
  {
    if kept != [] {
      assert kept[|kept| - 1] in kept;
      assert forall op <- kept[..|kept| - 1] :: op in kept;
      NoGroups(kept[..|kept| - 1], p);
    }
    assert StableSort([], WorktreeOrder) == [];
  }

  lemma {:induction false} RangeLayout(kept: seq<EditOp>, p: nat, hi: nat)
    requires forall op <- kept :: IsRange(op)
    ensures MergedLayout(kept, p, hi) == Layout(kept, p, hi)
    ensures forall op <- Layout(kept, p, hi) :: op in kept
    decreases hi + 1 - p
  {
    if p <= hi {
      hide RangesAt, Grouped;
      NoGroups(kept, p);
      RangeLayout(kept, p + 1, hi);
      RangesAtMembers(kept, p);
    }
  }

  /** A batch of replacements alone is byte-exact substitution. */
  lemma ReplacementsAreExact(head: Text, ops: seq<EditOp>)
    requires WellFormed(head, ops) && forall op <- ops :: op.kind.Replace?
    ensures Applied(head, ops) == Some(Flatten(Segments(head, Layout(Coalesced(ops), 0, |head|))))
  {
    var kept := Coalesced(ops);
    CoalescedAccounts(ops);
    LayoutAscends(head, kept, 0);
    RangeLayout(kept, 0, |head|);
    AppliedIsPass(head, ops);
    ReplaceOnlyExact(head, MergedLayout(kept, 0, |head|));
  }

  /** Putting any extents' own bytes back, nested or crossing as they may be, changes nothing. */
  lemma IdentitySplice(head: Text, ops: seq<EditOp>)
    requires WellFormed(head, ops)
    requires forall op <- ops :: op.kind.Replace? && op.start <= op.end <= |head| && op.text == head[op.start..op.end]
    ensures Applied(head, ops) == Some(head)
  {
    hide Applied, Coalesced, Layout, MergedLayout, Ascending, PairwiseDisjoint;
    var kept := Coalesced(ops);
    CoalescedAccounts(ops);
    ReplacementsAreExact(head, ops);
    LayoutAscends(head, kept, 0);
    RangeLayout(kept, 0, |head|);
    var asc := Layout(kept, 0, |head|);
    IdentityTail(head, asc);
    assert Segment(head, 0, StartOf(head, asc)) + head[StartOf(head, asc)..] == head;
  }

  lemma {:induction false} IdentityTail(head: Text, asc: seq<EditOp>)
    requires Ascending(head, asc)
    requires forall op <- asc :: op.kind.Replace? && op.start <= op.end <= |head| && op.text == head[op.start..op.end]
    ensures StartOf(head, asc) <= |head| && Flatten(Tail(head, asc)) == head[StartOf(head, asc)..]
  {
    AscendingBounds(head, asc);
    if asc == [] {
      assert head[|head|..] == [];
    } else {
      var op, rest := asc[0], asc[1..];
      IdentityTail(head, rest);
      var s := StartOf(head, rest);
      FlattenTwo(op.text, head[op.end..s], Tail(head, rest));
      assert head[op.start..] == head[op.start..op.end] + (head[op.end..s] + head[s..]);
    }
  }

  lemma FlattenTwo(a: Text, b: Text, rest: seq<Text>)
    ensures Flatten([a, b] + rest) == a + (b + Flatten(rest))
  {
    assert ([a, b] + rest)[1..] == [b] + rest && ([b] + rest)[1..] == rest;
  }

  lemma {:induction false} MergedSolid(head: Text, kept: seq<EditOp>, p: nat, hi: nat)
    requires NewlineGaps(kept) && forall op <- kept :: SolidEdit(head, op)
    ensures forall op <- MergedLayout(kept, p, hi) :: SolidEdit(head, op)
    decreases hi + 1 - p
  {
    hide Spaced, Grouped, RangesAt;
    if p <= hi {
      MergedSolid(head, kept, p + 1, hi);
      RangesAtMembers(kept, p);
      MergedAtSolid(head, kept, p);
    }
  }

  lemma RangesAtMembers(kept: seq<EditOp>, p: nat)
    ensures forall op <- RangesAt(kept, p) :: op in kept
  {
    WithKeyMembers(Ranges(kept), HighestFirst, Neg(p));
    RangesMembers(kept);
  }

  lemma MergedAtSolid(head: Text, kept: seq<EditOp>, p: nat)
    requires NewlineGaps(kept) && forall op <- kept :: SolidEdit(head, op)
    ensures forall op <- MergedAt(kept, p) :: SolidEdit(head, op)
  {
    hide Spaced, Grouped;
    GroupedMembers(kept, p);
    var g := Grouped(kept, p);
    if g != [] {
      MergeGroupSpaced(p, g);
      SpacedBlankIff(MergeGroup(p, g).text, Texts(g));
      assert g[0] in g && SolidEdit(head, g[0]);
      assert Texts(g)[0] == g[0].text;
    }
  }

  /** For all three kinds of edit in any mix, the blob ends in a newline exactly when
      HEAD does, unless a deletion has emptied the buffer on the way. */
  lemma SynthesisKeepsEOF(head: Text, ops: seq<EditOp>)
    requires Sound(head, ops) && forall op <- ops :: SolidEdit(head, op)
    ensures Applied(head, ops).Some?
    ensures EndsNL(Applied(head, ops).value) <==>
            EndsNL(head) && !EverEmpties(head, MergedLayout(Coalesced(ops), 0, |head|))
  {
    hide Clear;
    var kept := Coalesced(ops);
    CoalescedAccounts(ops);
    AppliedIsPass(head, ops);
    MergedGaps(kept, 0, |head|);
    MergedSolid(head, kept, 0, |head|);
    BatchKeepsEOF(head, MergedLayout(kept, 0, |head|));
  }
}
