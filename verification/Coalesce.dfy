/** Overlapping edits of one file: the widest range wins, and one declaration named
    twice is inserted once. */
module Coalesce {
  import opened Seqs
  import opened Bytes
  import opened Sorting
  import opened Splice

  predicate IsRange(op: EditOp) {
    !op.kind.Insert?
  }

  predicate Overlap(a: EditOp, b: EditOp) {
    a.start < b.end && b.start < a.end
  }

  /** `k`, already kept, makes `op` redundant. */
  predicate Swallows(k: EditOp, op: EditOp) {
    if k.kind.Insert? then
      op.kind.Insert? && op.wend > op.wstart && op.wstart == k.wstart && op.wend == k.wend
    else if op.kind.Insert? then
      k.kind.Replace? && op.wend > op.wstart && op.wstart >= k.wstart && op.wend <= k.wend
    else Overlap(op, k)
  }

  ghost predicate Swallowed(kept: seq<EditOp>, op: EditOp) {
    exists k <- kept :: Swallows(k, op)
  }

  method SwallowedBy(kept: seq<EditOp>, op: EditOp) returns (yes: bool)
    ensures yes <==> Swallowed(kept, op)
  {
    for i := 0 to |kept|
      invariant !Swallowed(kept[..i], op)
    {
      var k := kept[i];
      assert kept[..i + 1] == kept[..i] + [k];
      assert k in kept;
      if k.kind.Insert? {
        if op.kind.Insert? && op.wend > op.wstart && op.wstart == k.wstart && op.wend == k.wend {
          assert Swallows(k, op);
          return true;
        }
        continue;
      }
      if op.kind.Insert? {
        if k.kind.Replace? && op.wend > op.wstart && op.wstart >= k.wstart && op.wend <= k.wend {
          return true;
        }
        continue;
      }
      if op.start < k.end && k.start < op.end {
        return true;
      }
    }
    assert kept[..|kept|] == kept;
    return false;
  }

  function WidestFirst(op: EditOp): int {
    -op.Span()
  }

  ghost function Keep(kept: seq<EditOp>, ranked: seq<EditOp>): seq<EditOp>
    decreases |ranked|
  {
    if ranked == [] then kept
    else Keep(if Swallowed(kept, ranked[0]) then kept else kept + [ranked[0]], ranked[1..])
  }

  ghost function Coalesced(ops: seq<EditOp>): seq<EditOp> {
    Keep([], StableSort(ops, WidestFirst))
  }

  method CoalesceOverlaps(ops: seq<EditOp>) returns (kept: seq<EditOp>)
    ensures kept == Coalesced(ops)
  {
    var ranked := StableSort(ops, WidestFirst);
    kept := [];
    for i := 0 to |ranked|
      invariant Keep(kept, ranked[i..]) == Coalesced(ops)
    {
      assert ranked[i..][1..] == ranked[i + 1..];
      var swallowed := SwallowedBy(kept, ranked[i]);
      if !swallowed {
        kept := kept + [ranked[i]];
      }
    }
    assert ranked[|ranked|..] == [];
  }

  /** Kept ranges share no byte of HEAD. */
  ghost predicate PairwiseDisjoint(kept: seq<EditOp>) {
    forall i, j :: 0 <= i < j < |kept| && IsRange(kept[i]) && IsRange(kept[j]) ==> !Overlap(kept[i], kept[j])
  }

  lemma {:induction false} KeepDisjoint(kept: seq<EditOp>, ranked: seq<EditOp>)
    requires PairwiseDisjoint(kept)
    ensures PairwiseDisjoint(Keep(kept, ranked))
    decreases |ranked|
  {
    if ranked != [] {
      var op := ranked[0];
      if Swallowed(kept, op) {
        KeepDisjoint(kept, ranked[1..]);
      } else {
        forall i | 0 <= i < |kept| && IsRange(kept[i]) && IsRange(op)
          ensures !Overlap(kept[i], op)
        {
          assert kept[i] in kept;
        }
        KeepDisjoint(kept + [op], ranked[1..]);
      }
    }
  }

  lemma NarrowerAfter(ranked: seq<EditOp>)
    requires ranked != [] && Sorted(ranked, WidestFirst)
    ensures Sorted(ranked[1..], WidestFirst) && forall o <- ranked[1..] :: o.Span() <= ranked[0].Span()
  {
    forall o | o in ranked[1..]
      ensures o.Span() <= ranked[0].Span()
    {
      var i :| 0 <= i < |ranked[1..]| && ranked[1..][i] == o;
      assert WidestFirst(ranked[0]) <= WidestFirst(ranked[i + 1]);
    }
  }

  /** Nothing is kept that was not given, and what is dropped is swallowed by
      something kept that was ranked no narrower. */
  lemma {:induction false} KeepAccounts(kept: seq<EditOp>, ranked: seq<EditOp>)
    requires Sorted(ranked, WidestFirst)
    requires forall k <- kept, op <- ranked :: op.Span() <= k.Span()
    ensures kept <= Keep(kept, ranked)
    ensures forall k <- Keep(kept, ranked) :: k in kept || k in ranked
    ensures forall op <- ranked :: op in Keep(kept, ranked) ||
              exists k <- Keep(kept, ranked) :: Swallows(k, op) && op.Span() <= k.Span()
    decreases |ranked|
  {
    hide Swallows, Sorted;
    if ranked != [] {
      var op, rest := ranked[0], ranked[1..];
      var next := if Swallowed(kept, op) then kept else kept + [op];
      assert ranked == [op] + rest;
      NarrowerAfter(ranked);
      KeepAccounts(next, rest);
      assert forall k <- next :: k in Keep(next, rest);
      if Swallowed(kept, op) {
        var k :| k in kept && Swallows(k, op);
        assert op in ranked && op.Span() <= k.Span();
      } else {
        assert op in next;
      }
    }
  }

  /** Coalescing leaves pairwise disjoint ranges, keeps only given edits, and drops
      an edit only when one that was kept swallows it. */
  lemma CoalescedAccounts(ops: seq<EditOp>)
    ensures PairwiseDisjoint(Coalesced(ops))
    ensures forall k <- Coalesced(ops) :: k in ops
    ensures forall op <- ops :: op in Coalesced(ops) ||
              exists k <- Coalesced(ops) :: Swallows(k, op) && op.Span() <= k.Span()
  {
    StableSortCorrect(ops, WidestFirst);
    StableSortMembers(ops, WidestFirst);
    KeepDisjoint([], StableSort(ops, WidestFirst));
    KeepAccounts([], StableSort(ops, WidestFirst));
  }

  /** A dropped insertion lies inside a kept replacement's worktree extent, or is a
      kept insertion's extent named again. */
  lemma DroppedInsertionIsCarried(ops: seq<EditOp>, op: EditOp)
    requires op in ops && op.kind.Insert? && op !in Coalesced(ops)
    ensures exists k <- Coalesced(ops) ::
              || (k.kind.Replace? && k.wstart <= op.wstart < op.wend <= k.wend)
              || (k.kind.Insert? && k.wstart == op.wstart < op.wend == k.wend)
  {
    CoalescedAccounts(ops);
    var k :| k in Coalesced(ops) && Swallows(k, op) && op.Span() <= k.Span();
  }

  // ----- later edits are not part of earlier ones -----

  lemma {:induction false} KeepOrder(kept: seq<EditOp>, ranked: seq<EditOp>)
    requires Sorted(kept + ranked, WidestFirst)
    requires forall i, j :: 0 <= i < j < |kept| ==> !Swallows(kept[i], kept[j])
    ensures
      var all := Keep(kept, ranked);
      Sorted(all, WidestFirst) && forall i, j :: 0 <= i < j < |all| ==> !Swallows(all[i], all[j])
    decreases |ranked|
  {
    hide Swallows, WidestFirst;
    if ranked == [] {
      assert kept + ranked == kept;
    } else {
      var op, rest := ranked[0], ranked[1..];
      assert kept + ranked == kept + [op] + rest;
      if Swallowed(kept, op) {
        SortedWithout(kept, op, rest);
        KeepOrder(kept, rest);
      } else {
        assert forall k <- kept :: !Swallows(k, op);
        KeepOrder(kept + [op], rest);
      }
    }
  }

  lemma SortedWithout(a: seq<EditOp>, op: EditOp, b: seq<EditOp>)
    requires Sorted(a + [op] + b, WidestFirst)
    ensures Sorted(a + b, WidestFirst)
  {
    hide WidestFirst;
    var all, less := a + [op] + b, a + b;
    assert forall i :: 0 <= i < |less| ==> less[i] == all[if i < |a| then i else i + 1];
  }

  /** A kept insertion is not part of a kept replacement. */
  lemma KeptApart(ops: seq<EditOp>, r: EditOp, i: EditOp)
    requires r in Coalesced(ops) && i in Coalesced(ops) && IsRange(r) && r.start < r.end && i.kind.Insert?
    ensures !Swallows(r, i)
  {
    hide Swallows, Keep;
    var ranked := StableSort(ops, WidestFirst);
    StableSortCorrect(ops, WidestFirst);
    assert [] + ranked == ranked;
    KeepOrder([], ranked);
    var kept := Coalesced(ops);
    var a :| 0 <= a < |kept| && kept[a] == r;
    var b :| 0 <= b < |kept| && kept[b] == i;
    assert b < a ==> WidestFirst(i) <= WidestFirst(r);
  }

  // ----- what is staged twice -----

  predicate SameWork(a: EditOp, b: EditOp) {
    a.wstart == b.wstart && a.wend == b.wend
  }

  predicate WorkApart(a: EditOp, b: EditOp) {
    a.wend <= b.wstart || b.wend <= a.wstart
  }

  /** No worktree byte is staged by two of the edits. */
  ghost predicate NothingTwice(kept: seq<EditOp>) {
    forall i, j :: 0 <= i < j < |kept| ==> WorkApart(kept[i], kept[j])
  }

  /** Of a batch of insertions nothing is kept that stages a byte twice exactly when any two
      of them have one extent or are apart: an insertion is dropped only for one with the
      very same extent. */
  lemma NothingTwiceIff(ops: seq<EditOp>)
    requires forall op <- ops :: op.kind.Insert? && op.wstart < op.wend
    ensures NothingTwice(Coalesced(ops)) <==> forall a <- ops, b <- ops :: SameWork(a, b) || WorkApart(a, b)
  {
    hide Keep;
    var kept, ranked := Coalesced(ops), StableSort(ops, WidestFirst);
    StableSortCorrect(ops, WidestFirst);
    assert [] + ranked == ranked;
    KeepOrder([], ranked);
    CoalescedAccounts(ops);
    assert forall i :: 0 <= i < |kept| ==> kept[i] in ops;
    if NothingTwice(kept) {
      forall a, b | a in ops && b in ops
        ensures SameWork(a, b) || WorkApart(a, b)
      {
        var i := KeptFor(ops, a);
        var j := KeptFor(ops, b);
      }
    }
  }

  /** A kept edit with an insertion's own extent. */
  lemma KeptFor(ops: seq<EditOp>, op: EditOp) returns (i: nat)
    requires op in ops && forall o <- ops :: o.kind.Insert? && o.wstart < o.wend
    ensures i < |Coalesced(ops)| && SameWork(Coalesced(ops)[i], op)
  {
    hide Coalesced;
    CoalescedAccounts(ops);
    var kept := Coalesced(ops);
    if op in kept {
      i :| 0 <= i < |kept| && kept[i] == op;
    } else {
      var k :| k in kept && Swallows(k, op);
      i :| 0 <= i < |kept| && kept[i] == k;
    }
  }

  // ----- nested extents -----

  /** Extents of syntax nodes: any two ranges are nested or apart. */
  ghost predicate NestedOrDisjoint(ops: seq<EditOp>) {
    forall a <- ops, b <- ops :: IsRange(a) && IsRange(b) ==> Within(a, b) || Within(b, a) || !Overlap(a, b)
  }

  predicate Within(a: EditOp, b: EditOp) {
    b.start <= a.start && a.end <= b.end
  }

  predicate Covers(op: EditOp, i: nat) {
    IsRange(op) && op.start <= i < op.end
  }

  /** The container wins: a dropped range lies within a kept one. */
  lemma DroppedRangeIsContained(ops: seq<EditOp>, op: EditOp)
    requires NestedOrDisjoint(ops) && op in ops && IsRange(op) && op !in Coalesced(ops)
    ensures exists k <- Coalesced(ops) :: IsRange(k) && Within(op, k)
  {
    CoalescedAccounts(ops);
    var k :| k in Coalesced(ops) && Swallows(k, op) && op.Span() <= k.Span();
    assert k in ops;
    assert Within(op, k) || Within(k, op);
  }

  /** For nested or disjoint inputs the kept ranges address exactly the HEAD bytes
      the given ones did. */
  lemma CoalescedCovers(ops: seq<EditOp>, i: nat)
    requires NestedOrDisjoint(ops)
    ensures (exists op <- ops :: Covers(op, i)) <==> (exists k <- Coalesced(ops) :: Covers(k, i))
  {
    CoalescedAccounts(ops);
    if op :| op in ops && Covers(op, i) {
      if op in Coalesced(ops) {
        assert Covers(op, i);
      } else {
        DroppedRangeIsContained(ops, op);
        var k :| k in Coalesced(ops) && IsRange(k) && Within(op, k);
        assert Covers(k, i);
      }
    }
  }

  /** The boundary of that law: two ranges keep the bytes they address exactly when they are
      nested or apart. Of two that cross one is dropped, and with it the bytes it alone
      addressed. */
  lemma PairCoversIff(a: EditOp, b: EditOp)
    requires IsRange(a) && IsRange(b) && a != b && a.start < a.end && b.start < b.end
    ensures (forall i: nat :: (Covers(a, i) || Covers(b, i)) <==> (exists k <- Coalesced([a, b]) :: Covers(k, i)))
            <==> NestedOrDisjoint([a, b])
  {
    hide Coalesced;
    var kept := Coalesced([a, b]);
    if NestedOrDisjoint([a, b]) {
      forall i: nat
        ensures (Covers(a, i) || Covers(b, i)) <==> (exists k <- kept :: Covers(k, i))
      {
        CoalescedCovers([a, b], i);
        assert a in [a, b] && b in [a, b];
        assert Covers(a, i) || Covers(b, i) <==> exists op <- [a, b] :: Covers(op, i);
      }
    } else {
      CoalescedAccounts([a, b]);
      assert a in [a, b] && b in [a, b];
      var o := CrossedOut(a, b);
      var k := if o == a then b else a;
      var i := if o.start < k.start then o.start else o.end - 1;
      assert Covers(o, i) && !Covers(k, i);
      assert forall x <- kept :: x != o ==> x == k;
    }
  }

  lemma CrossedOut(a: EditOp, b: EditOp) returns (o: EditOp)
    requires IsRange(a) && IsRange(b) && a != b && Overlap(a, b) && !Within(a, b) && !Within(b, a)
    ensures o in [a, b] && o !in Coalesced([a, b])
  {
    hide Coalesced;
    CoalescedAccounts([a, b]);
    o := if a in Coalesced([a, b]) then b else a;
  }
}
