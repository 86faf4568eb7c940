/** The whole synthesis of one file's blob: coalesce, merge insertions that land on
    one offset, and apply everything in descending offset order. */
module ApplyEdits {
  import opened Seqs
  import opened Bytes
  import opened Sorting
  import opened Splice
  import opened SpliceLaws
  import opened Coalesce

  // ----- merging insertions at one offset -----

  function WorktreeOrder(op: EditOp): int {
    op.order
  }

  function Ranges(ops: seq<EditOp>): seq<EditOp> {
    if ops == [] then []
    else Ranges(ops[..|ops| - 1]) + (if IsRange(ops[|ops| - 1]) then [ops[|ops| - 1]] else [])
  }

  function GroupAt(ops: seq<EditOp>, p: nat): seq<EditOp> {
    if ops == [] then []
    else
      var op := ops[|ops| - 1];
      GroupAt(ops[..|ops| - 1], p) + (if op.kind.Insert? && op.start == p then [op] else [])
  }

  /** The insertion offsets, in order of first mention. */
  function Offsets(ops: seq<EditOp>): seq<nat> {
    if ops == [] then []
    else
      var op, before := ops[|ops| - 1], Offsets(ops[..|ops| - 1]);
      if op.kind.Insert? && op.start !in before then before + [op.start] else before
  }

  function JoinTexts(text: Text, rest: seq<EditOp>, member: bool): Text
    decreases |rest|
  {
    if rest == [] then text
    else JoinTexts(Join(text, rest[0].text, WiderGap(member, rest[0].leadGap)), rest[1..], member)
  }

  /** One insertion standing for a group in worktree order. */
  function MergeGroup(p: nat, group: seq<EditOp>): EditOp
    requires group != []
  {
    EditOp(Insert, p, 0, JoinTexts(group[0].text, group[1..], group[0].member), 0, 0, 0,
           group[0].member, group[0].leadGap, group[|group| - 1].trailGap)
  }

  function Grouped(ops: seq<EditOp>, p: nat): seq<EditOp> {
    StableSort(GroupAt(ops, p), WorktreeOrder)
  }

  function MergedAt(ops: seq<EditOp>, p: nat): seq<EditOp> {
    if Grouped(ops, p) == [] then [] else [MergeGroup(p, Grouped(ops, p))]
  }

  function MergeAll(ops: seq<EditOp>, offsets: seq<nat>): seq<EditOp> {
    if offsets == [] then []
    else MergeAll(ops, offsets[..|offsets| - 1]) + MergedAt(ops, offsets[|offsets| - 1])
  }

  function Merged(ops: seq<EditOp>): seq<EditOp> {
    Ranges(ops) + MergeAll(ops, Offsets(ops))
  }

  lemma {:induction false} GroupAtMembers(ops: seq<EditOp>, p: nat)
    ensures forall op :: op in GroupAt(ops, p) <==> op in ops && op.kind.Insert? && op.start == p
  {
    if ops != [] {
      GroupAtMembers(ops[..|ops| - 1], p);
      assert ops == ops[..|ops| - 1] + [ops[|ops| - 1]];
    }
  }

  lemma {:induction false} RangesMembers(ops: seq<EditOp>)
    ensures forall op :: op in Ranges(ops) <==> op in ops && IsRange(op)
  {
    if ops != [] {
      RangesMembers(ops[..|ops| - 1]);
      assert ops == ops[..|ops| - 1] + [ops[|ops| - 1]];
    }
  }

  lemma {:induction false} OffsetsMembers(ops: seq<EditOp>)
    ensures forall p :: p in Offsets(ops) <==> GroupAt(ops, p) != []
    ensures forall i, j :: 0 <= i < j < |Offsets(ops)| ==> Offsets(ops)[i] != Offsets(ops)[j]
  {
    if ops != [] {
      OffsetsMembers(ops[..|ops| - 1]);
    }
  }

  lemma GroupedMembers(ops: seq<EditOp>, p: nat)
    ensures forall op :: op in Grouped(ops, p) <==> op in ops && op.kind.Insert? && op.start == p
    ensures Grouped(ops, p) == [] <==> GroupAt(ops, p) == []
    ensures Sorted(Grouped(ops, p), WorktreeOrder)
  {
    StableSortCorrect(GroupAt(ops, p), WorktreeOrder);
    StableSortMembers(GroupAt(ops, p), WorktreeOrder);
    GroupAtMembers(ops, p);
  }

  /** The texts of one group, joined in order. */
  method MergeTexts(group: seq<EditOp>) returns (text: Text)
    requires group != []
    ensures text == JoinTexts(group[0].text, group[1..], group[0].member)
  {
    hide Join;
    var member := group[0].member;
    text := group[0].text;
    for j := 1 to |group|
      invariant JoinTexts(text, group[j..], member) == JoinTexts(group[0].text, group[1..], member)
    {
      assert group[j..][1..] == group[j + 1..];
      text := Join(text, group[j].text, WiderGap(member, group[j].leadGap));
    }
    assert group[|group|..] == [];
  }

  /** The first loop: ranges pass through, insertions are grouped by offset. */
  method GroupInsertions(ops: seq<EditOp>)
    returns (ranges: seq<EditOp>, groups: map<nat, seq<EditOp>>, order: seq<nat>)
    ensures ranges == Ranges(ops) && order == Offsets(ops)
    ensures forall p <- order :: p in groups && groups[p] == GroupAt(ops, p)
  {
    ranges, groups, order := [], map[], [];
    for i := 0 to |ops|
      invariant ranges == Ranges(ops[..i])
      invariant order == Offsets(ops[..i])
      invariant forall p: nat :: p in groups <==> p in order
      invariant forall p: nat :: p in groups ==> groups[p] == GroupAt(ops[..i], p)
    {
      var op := ops[i];
      assert ops[..i + 1][..i] == ops[..i];
      OffsetsMembers(ops[..i]);
      if !op.kind.Insert? {
        ranges := ranges + [op];
      } else {
        if op.start !in groups {
          order := order + [op.start];
          groups := groups[op.start := []];
        }
        groups := groups[op.start := groups[op.start] + [op]];
      }
    }
    assert ops[..|ops|] == ops;
  }

  lemma MergeAllNone(ops: seq<EditOp>)
    ensures MergeAll(ops, []) == []
  {
  }

  lemma MergeAllNext(ops: seq<EditOp>, offsets: seq<nat>, i: nat)
    requires i < |offsets|
    ensures MergeAll(ops, offsets[..i + 1]) == MergeAll(ops, offsets[..i]) + MergedAt(ops, offsets[i])
  {
    assert offsets[..i + 1][..i] == offsets[..i];
  }

  method MergeInsertTies(ops: seq<EditOp>) returns (merged: seq<EditOp>)
    ensures merged == Merged(ops)
  {
    hide StableSort, JoinTexts, GroupAt, Ranges, Offsets, MergeAll;
    var ranges, groups, order := GroupInsertions(ops);
    merged := ranges;
    OffsetsMembers(ops);
    assert order[..0] == [];
    MergeAllNone(ops);
    for i := 0 to |order|
      invariant merged == Ranges(ops) + MergeAll(ops, order[..i])
    {
      var start := order[i];
      GroupedMembers(ops, start);
      var group := StableSort(groups[start], WorktreeOrder);
      var text := MergeTexts(group);
      MergeAllNext(ops, order, i);
      merged := merged + [EditOp(Insert, start, 0, text, 0, 0, 0, group[0].member,
                                 group[0].leadGap, group[|group| - 1].trailGap)];
    }
    assert order[..|order|] == order;
  }

  // ----- the pass -----

  function Neg(p: int): int {
    -p
  }

  function HighestFirst(op: EditOp): int {
    Neg(op.start)
  }

  function Fold(out: Text, desc: seq<EditOp>): Option<Text>
    requires Ordered(desc)
    decreases |desc|
  {
    if desc == [] then Some(out)
    else match Step(out, desc[0])
      case None => None
      case Some(next) => Fold(next, desc[1..])
  }

  /** What the caller demands of the resolved edits: ranges are proper and lie in HEAD. */
  ghost predicate WellFormed(head: Text, ops: seq<EditOp>) {
    forall op <- ops :: op.start <= op.End() <= |head| && (IsRange(op) ==> op.start < op.end)
  }

  ghost function Descending(ops: seq<EditOp>): seq<EditOp> {
    StableSort(Merged(Coalesced(ops)), HighestFirst)
  }

  lemma {:induction false} MergeAllMembers(ops: seq<EditOp>, offsets: seq<nat>)
    requires forall p <- offsets :: GroupAt(ops, p) != []
    ensures forall m <- MergeAll(ops, offsets) :: m.kind.Insert? && m.start in offsets && GroupAt(ops, m.start) != []
    ensures Ordered(MergeAll(ops, offsets))
  {
    if offsets != [] {
      MergeAllMembers(ops, offsets[..|offsets| - 1]);
    }
  }

  lemma MergedWellFormed(head: Text, ops: seq<EditOp>)
    requires WellFormed(head, ops)
    ensures WellFormed(head, Merged(ops)) && Ordered(Merged(ops))
  {
    RangesMembers(ops);
    OffsetsMembers(ops);
    MergeAllMembers(ops, Offsets(ops));
    forall m | m in MergeAll(ops, Offsets(ops))
      ensures m.start <= |head|
    {
      GroupAtMembers(ops, m.start);
      var op := GroupAt(ops, m.start)[0];
      assert op in GroupAt(ops, m.start);
    }
  }

  lemma DescendingOrdered(head: Text, ops: seq<EditOp>)
    requires WellFormed(head, ops)
    ensures Ordered(Descending(ops)) && WellFormed(head, Coalesced(ops))
  {
    CoalescedAccounts(ops);
    MergedWellFormed(head, Coalesced(ops));
    StableSortMembers(Merged(Coalesced(ops)), HighestFirst);
  }

  ghost function Applied(head: Text, ops: seq<EditOp>): Option<Text>
    requires WellFormed(head, ops)
  {
    DescendingOrdered(head, ops);
    Fold(head, Descending(ops))
  }

  /** The synthesized blob, or `None` where Go would panic on a slice bound. */
  method ApplyEdits(head: Text, ops: seq<EditOp>) returns (blob: Option<Text>)
    requires WellFormed(head, ops)
    ensures blob == Applied(head, ops)
  {
    var kept := CoalesceOverlaps(ops);
    var merged := MergeInsertTies(kept);
    var sorted := StableSort(merged, HighestFirst);
    DescendingOrdered(head, ops);
    var out := head;
    for i := 0 to |sorted|
      invariant Ordered(sorted[i..]) && Fold(out, sorted[i..]) == Applied(head, ops)
    {
      var op := sorted[i];
      assert sorted[i..][1..] == sorted[i + 1..];
      assert op in sorted[i..];
      match op.kind {
        case Replace =>
          var r := SpliceReplace(out, op.start, op.end, op.text);
          if r.None? { return None; }
          out := r.value;
        case Delete =>
          var r := SpliceExcise(out, op.start, op.end);
          if r.None? { return None; }
          out := r.value;
        case Insert =>
          out := SpliceInsert(out, op);
      }
    }
    assert sorted[|sorted|..] == [];
    return Some(out);
  }

  // ----- the ascending layout -----

  function RangesAt(ops: seq<EditOp>, p: nat): seq<EditOp> {
    WithKey(Ranges(ops), HighestFirst, Neg(p))
  }

  /** The merged edits in ascending offset order, an insertion ahead of the range
      that starts at its offset. */
  function MergedLayout(kept: seq<EditOp>, p: nat, hi: nat): seq<EditOp>
    decreases hi + 1 - p
  {
    if p > hi then [] else MergedAt(kept, p) + RangesAt(kept, p) + MergedLayout(kept, p + 1, hi)
  }

  /** The kept edits as the blob lays them out: ascending offset; at each offset the
      insertions in worktree order, then the range. */
  function Layout(kept: seq<EditOp>, p: nat, hi: nat): seq<EditOp>
    decreases hi + 1 - p
  {
    if p > hi then [] else Grouped(kept, p) + RangesAt(kept, p) + Layout(kept, p + 1, hi)
  }

  function Reverse<T>(s: seq<T>): seq<T> {
    if s == [] then [] else Reverse(s[1..]) + [s[0]]
  }

  lemma {:induction false} ReverseAppend<T>(a: seq<T>, b: seq<T>)
    ensures Reverse(a + b) == Reverse(b) + Reverse(a)
  {
    if a == [] {
      assert a + b == b;
    } else {
      assert (a + b)[1..] == a[1..] + b;
      ReverseAppend(a[1..], b);
      Assoc(Reverse(b), Reverse(a[1..]), [a[0]]);
    }
  }

  lemma {:induction false} ReverseMembers<T>(s: seq<T>)
    ensures forall x :: x in Reverse(s) <==> x in s
  {
    if s != [] {
      ReverseMembers(s[1..]);
    }
  }

  lemma {:induction false} FoldAppend(out: Text, a: seq<EditOp>, op: EditOp)
    requires Ordered(a) && op.start <= op.End()
    ensures Ordered(a + [op])
    ensures Fold(out, a + [op]) ==
            match Fold(out, a) case None => None case Some(r) => Step(r, op)
    decreases |a|
  {
    hide Step;
    if a == [] {
      assert a + [op] == [op];
      assert [op][1..] == [];
    } else {
      assert (a + [op])[1..] == a[1..] + [op];
      assert forall x <- a[1..] :: x in a;
      match Step(out, a[0])
      case None =>
      case Some(r) => FoldAppend(r, a[1..], op);
    }
  }

  /** The descending fold is the ascending pass. */
  lemma {:induction false} FoldIsPass(head: Text, asc: seq<EditOp>)
    requires Ordered(asc)
    ensures Ordered(Reverse(asc)) && Fold(head, Reverse(asc)) == Pass(head, asc)
  {
    hide Step;
    ReverseMembers(asc);
    if asc != [] {
      FoldIsPass(head, asc[1..]);
      FoldAppend(head, Reverse(asc[1..]), asc[0]);
    }
  }

  lemma {:induction false} BucketsLast<T(!new)>(s: seq<T>, key: T -> int, lo: int, hi: int)
    requires lo <= hi + 1
    ensures Buckets(s, key, lo, hi + 1) == Buckets(s, key, lo, hi) + WithKey(s, key, hi + 1)
    decreases hi - lo
  {
    if lo <= hi {
      BucketsLast(s, key, lo + 1, hi);
      Assoc(WithKey(s, key, lo), Buckets(s, key, lo + 1, hi), WithKey(s, key, hi + 1));
    } else {
      assert Buckets(s, key, hi + 2, hi + 1) == [];
    }
  }

  lemma {:induction false} MergeAllAt(ops: seq<EditOp>, offsets: seq<nat>, p: nat)
    requires forall i, j :: 0 <= i < j < |offsets| ==> offsets[i] != offsets[j]
    requires forall q <- offsets :: GroupAt(ops, q) != []
    ensures WithKey(MergeAll(ops, offsets), HighestFirst, Neg(p)) == if p in offsets then MergedAt(ops, p) else []
  {
    hide Grouped, GroupAt, MergeGroup, WithKey, HighestFirst;
    if offsets == [] {
      WithKeyNone<EditOp>([], HighestFirst, Neg(p));
    } else {
      var q, before := offsets[|offsets| - 1], offsets[..|offsets| - 1];
      assert offsets == before + [q];
      MergeAllAt(ops, before, p);
      WithKeyAppend(MergeAll(ops, before), MergedAt(ops, q), HighestFirst, Neg(p));
      GroupedMembers(ops, q);
      MergedStart(ops, q);
      WithKeyOne(MergeGroup(q, Grouped(ops, q)), p);
    }
  }

  lemma MergedStart(ops: seq<EditOp>, q: nat)
    requires Grouped(ops, q) != []
    ensures MergeGroup(q, Grouped(ops, q)).start == q && MergeGroup(q, Grouped(ops, q)).kind.Insert?
  {
  }

  lemma WithKeyOne(op: EditOp, p: nat)
    ensures WithKey([op], HighestFirst, Neg(p)) == if op.start == p then [op] else []
  {
    assert [op][1..] == [];
  }

  lemma MergedBucket(ops: seq<EditOp>, p: nat)
    ensures WithKey(Merged(ops), HighestFirst, Neg(p)) == RangesAt(ops, p) + MergedAt(ops, p)
  {
    OffsetsMembers(ops);
    MergeAllAt(ops, Offsets(ops), p);
    WithKeyAppend(Ranges(ops), MergeAll(ops, Offsets(ops)), HighestFirst, Neg(p));
    GroupedMembers(ops, p);
  }

  /** No two kept ranges start at one offset. */
  lemma OneRangeAt(head: Text, kept: seq<EditOp>, p: nat)
    requires WellFormed(head, kept) && PairwiseDisjoint(kept)
    ensures |RangesAt(kept, p)| <= 1
    ensures forall op <- RangesAt(kept, p) :: op in kept && IsRange(op) && op.start == p
  {
    RangesMembers(kept);
    WithKeyMembers(Ranges(kept), HighestFirst, Neg(p));
    RangesDisjoint(kept);
    WithKeyDistinct(Ranges(kept), p);
    forall op | op in RangesAt(kept, p)
      ensures op in kept && IsRange(op) && op.start == p
    {
      assert op in Ranges(kept);
    }
  }

  lemma {:induction false} RangesDisjoint(kept: seq<EditOp>)
    requires PairwiseDisjoint(kept)
    ensures PairwiseDisjoint(Ranges(kept)) && forall op <- Ranges(kept) :: IsRange(op) && op in kept
  {
    if kept != [] {
      var last, before := kept[|kept| - 1], kept[..|kept| - 1];
      assert PairwiseDisjoint(before);
      RangesDisjoint(before);
      forall op | op in Ranges(before) && IsRange(last)
        ensures !Overlap(op, last)
      {
        var i :| 0 <= i < |before| && before[i] == op;
        assert kept[i] == op;
      }
    }
  }

  lemma {:induction false} WithKeyDistinct(ranges: seq<EditOp>, p: nat)
    requires PairwiseDisjoint(ranges) && forall op <- ranges :: IsRange(op) && op.start < op.end
    ensures |WithKey(ranges, HighestFirst, Neg(p))| <= 1
  {
    if ranges != [] {
      var op, rest := ranges[0], ranges[1..];
      assert PairwiseDisjoint(rest) by {
        forall i, j | 0 <= i < j < |rest|
          ensures !Overlap(rest[i], rest[j])
        {
          assert rest[i] == ranges[i + 1] && rest[j] == ranges[j + 1];
        }
      }
      WithKeyDistinct(rest, p);
      if op.start == p {
        forall o | o in rest
          ensures HighestFirst(o) != Neg(p)
        {
          var i :| 0 <= i < |rest| && rest[i] == o;
          assert ranges[i + 1] == o;
        }
        WithKeyNone(rest, HighestFirst, Neg(p));
      }
    }
  }

  lemma MergedAtReversed(kept: seq<EditOp>, p: nat)
    requires |RangesAt(kept, p)| <= 1
    ensures Reverse(MergedAt(kept, p) + RangesAt(kept, p)) == RangesAt(kept, p) + MergedAt(kept, p)
  {
    ReverseAppend(MergedAt(kept, p), RangesAt(kept, p));
    ReverseShort(MergedAt(kept, p));
    ReverseShort(RangesAt(kept, p));
  }

  lemma ReverseShort<T>(s: seq<T>)
    requires |s| <= 1
    ensures Reverse(s) == s
  {
  }

  lemma {:induction false} DescendingIsReversed(kept: seq<EditOp>, p: nat, hi: nat)
    requires p <= hi + 1 && forall q: nat :: |RangesAt(kept, q)| <= 1
    ensures Buckets(Merged(kept), HighestFirst, Neg(hi), Neg(p)) == Reverse(MergedLayout(kept, p, hi))
    decreases hi + 1 - p
  {
    if p <= hi {
      DescendingIsReversed(kept, p + 1, hi);
      BucketsLast(Merged(kept), HighestFirst, Neg(hi), Neg(p + 1));
      MergedBucket(kept, p);
      MergedAtReversed(kept, p);
      ReverseAppend(MergedAt(kept, p) + RangesAt(kept, p), MergedLayout(kept, p + 1, hi));
    }
  }

  /** The real pass is the ascending pass over the merged layout. */
  lemma AppliedIsPass(head: Text, ops: seq<EditOp>)
    requires WellFormed(head, ops)
    ensures Ordered(MergedLayout(Coalesced(ops), 0, |head|))
    ensures Applied(head, ops) == Pass(head, MergedLayout(Coalesced(ops), 0, |head|))
  {
    var kept := Coalesced(ops);
    DescendingOrdered(head, ops);
    CoalescedAccounts(ops);
    MergedWellFormed(head, kept);
    forall q: nat
      ensures |RangesAt(kept, q)| <= 1
    {
      OneRangeAt(head, kept, q);
    }
    StableSortIsBuckets(Merged(kept), HighestFirst, Neg(|head|), 0);
    DescendingIsReversed(kept, 0, |head|);
    var asc := MergedLayout(kept, 0, |head|);
    ReverseMembers(asc);
    assert Ordered(asc);
    FoldIsPass(head, asc);
  }
}
