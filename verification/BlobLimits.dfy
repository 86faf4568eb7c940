/** Exactly which batches a blob can be synthesized from without panic or loss. */
module BlobLimits {
  import opened Seqs
  import opened Bytes
  import opened Sorting
  import opened Splice
  import opened SpliceLaws
  import opened SpliceLimits
  import opened Coalesce
  import opened ApplyEdits
  import opened BlobLaws

  /** A whole batch of replacements and deletions, overlapping or not, panics exactly when
      a kept range ends above what a deletion right above it that ends the file leaves. */
  lemma BatchPanicsIff(head: Text, ops: seq<EditOp>)
    requires WellFormed(head, ops) && forall op <- ops :: IsRange(op)
    ensures Ascending(head, Layout(Coalesced(ops), 0, |head|))
    ensures Applied(head, ops).None? <==> !RangesFit(head, Layout(Coalesced(ops), 0, |head|))
  {
    hide Applied, Layout, MergedLayout, Coalesced, Ascending, RangesFit;
    var kept := Coalesced(ops);
    CoalescedAccounts(ops);
    LayoutAscends(head, kept, 0);
    RangeLayout(kept, 0, |head|);
    AppliedIsPass(head, ops);
    PanicsIff(head, Layout(kept, 0, |head|));
  }

  // ----- all three kinds of edit -----

  /** Insertions are not blank; ranges address more than newlines. */
  ghost predicate Weighty(head: Text, ops: seq<EditOp>)
    requires WellFormed(head, ops)
  {
    forall op <- ops :: if op.kind.Insert? then !AllNL(op.text) else !AllNL(head[op.start..op.end])
  }

  lemma {:induction false} LayoutWeighty(head: Text, kept: seq<EditOp>, p: nat)
    requires WellFormed(head, kept) && NewlineGaps(kept) && Weighty(head, kept)
    ensures Tidy(MergedLayout(kept, p, |head|))
    ensures forall op <- MergedLayout(kept, p, |head|) :: op.start <= op.End() <= |head| && HoldsContent(head, op)
    decreases |head| + 1 - p
  {
    hide MergedAt, RangesAt, AllNL;
    if p <= |head| {
      LayoutWeighty(head, kept, p + 1);
      RangesAtMembers(kept, p);
      RangesAtRanges(kept, p);
      MergedWeighty(head, kept, p);
    }
  }

  lemma RangesAtRanges(kept: seq<EditOp>, p: nat)
    ensures forall op <- RangesAt(kept, p) :: IsRange(op)
  {
    WithKeyMembers(ApplyEdits.Ranges(kept), HighestFirst, Neg(p));
    RangesMembers(kept);
  }

  lemma MergedWeighty(head: Text, kept: seq<EditOp>, p: nat)
    requires WellFormed(head, kept) && NewlineGaps(kept) && Weighty(head, kept)
    ensures forall op <- MergedAt(kept, p) :: op.kind.Insert? && op.start == p <= |head|
    ensures forall op <- MergedAt(kept, p) :: op.GapsAreNewlines() && !AllNL(op.text)
  {
    hide Spaced, Grouped, AllNL;
    GroupedMembers(kept, p);
    var g := Grouped(kept, p);
    if g != [] {
      assert g[0] in g && g[|g| - 1] in g;
      MergeGroupSpaced(p, g);
      SpacedBlankIff(MergeGroup(p, g).text, Texts(g));
      assert Texts(g)[0] == g[0].text;
    }
  }

  lemma {:induction false} FlattenSpaced(parts: seq<Text>)
    ensures Spaced(Flatten(parts), parts)
  {
    hide Spaced;
    if parts == [] {
      SpacedNil([]);
    } else {
      FlattenSpaced(parts[1..]);
      SpacedCons(parts[0], parts[0], Flatten(parts[1..]), parts[1..]);
      assert parts == [parts[0]] + parts[1..];
    }
  }

  /** Merging changes nothing but newlines in what a batch should amount to. */
  lemma MergedAmounts(head: Text, kept: seq<EditOp>)
    requires WellFormed(head, kept) && PairwiseDisjoint(kept) && NewlineGaps(kept)
    ensures Erase(Flatten(Segments(head, MergedLayout(kept, 0, |head|))))
            == Erase(Flatten(Segments(head, Layout(kept, 0, |head|))))
  {
    hide Spaced, Erase, MergedLayout, Layout, PairwiseDisjoint;
    var m, l := MergedLayout(kept, 0, |head|), Layout(kept, 0, |head|);
    LayoutRefines(head, kept, 0);
    FlattenSpaced(Tail(head, m));
    SpacedErase(Flatten(Tail(head, m)), Tail(head, l));
    var seg := Segment(head, 0, StartOf(head, m));
    assert Segments(head, m)[1..] == Tail(head, m) && Segments(head, l)[1..] == Tail(head, l);
    EraseAppend(seg, Flatten(Tail(head, m)));
    EraseAppend(seg, Flatten(Tail(head, l)));
  }

  /** A batch of any kinds of edit, its insertions placed within what the edits above leave,
      is synthesized without panic and without loss exactly when each of its ranges ends
      within HEAD's bytes as the edits above it leave them. */
  lemma SynthesisLosesNothingIff(head: Text, ops: seq<EditOp>)
    requires WellFormed(head, ops) && NewlineGaps(ops) && NoStraddle(Coalesced(ops)) && Weighty(head, ops)
    requires Ascending(head, MergedLayout(Coalesced(ops), 0, |head|)) ==>
               InsertsFit(head, MergedLayout(Coalesced(ops), 0, |head|))
    ensures Ascending(head, MergedLayout(Coalesced(ops), 0, |head|))
    ensures
      && Applied(head, ops).Some?
      && Erase(Applied(head, ops).value) == Erase(Flatten(Segments(head, Layout(Coalesced(ops), 0, |head|))))
      <==> RangesFit(head, MergedLayout(Coalesced(ops), 0, |head|))
  {
    hide Applied, Layout, MergedLayout, Coalesced, Ascending, RangesFit, InsertsFit, PairwiseDisjoint, NoStraddle, Erase,
      Segments, AllNL, HoldsContent;
    var kept := Coalesced(ops);
    CoalescedAccounts(ops);
    LayoutAscends(head, kept, 0);
    LayoutWeighty(head, kept, 0);
    AppliedIsPass(head, ops);
    MergedAmounts(head, kept);
    KeepsAllIff(head, MergedLayout(kept, 0, |head|));
  }
}
