/** Changing symbols in place and staging them: the blob against the worktree file. */
module StagedWorktree {
  import opened Seqs
  import opened Bytes
  import opened Splice
  import opened SpliceLaws
  import opened Coalesce
  import opened ApplyEdits
  import opened BlobLaws
  import opened Placement
  import opened Tables
  import opened WorktreeOrder

  /** A file with the same declarations on both sides, members included. Names that share
      an extent share it on both sides. */
  ghost predicate SameDecls(s: Sources) {
    && Tabled(s) && (forall i :: 0 <= i < |s.workOrder| ==> Common(s, i))
    && forall i, j :: 0 <= i < j < |s.workOrder| ==> SharedAlike(s, i, j)
  }

  ghost predicate SharedAlike(s: Sources, i: nat, j: nat)
    requires i < |s.workOrder| && j < |s.workOrder| && Common(s, i) && Common(s, j)
  {
    && Lookup(s.work, s.workOrder[i]).Found? && Lookup(s.work, s.workOrder[j]).Found?
    && (HeadExtent(s, i) == HeadExtent(s, j) <==> WorkExtent(s, i) == WorkExtent(s, j))
  }

  function HeadTo(s: Sources, i: nat): nat
    requires i <= |s.workOrder| && (i < |s.workOrder| ==> Common(s, i))
  {
    if i == |s.workOrder| then |s.headSrc| else HeadExtent(s, i).start
  }

  function WorkTo(s: Sources, i: nat): nat
    requires i <= |s.workOrder| && (i < |s.workOrder| ==> Lookup(s.work, s.workOrder[i]).Found?)
  {
    if i == |s.workOrder| then |s.workSrc| else WorkExtent(s, i).start
  }

  /** The first declaration from `j` on that does not lie in the `i`th. */
  ghost function After(s: Sources, i: nat, j: nat): (next: nat)
    requires SameDecls(s) && i < j <= |s.workOrder|
    ensures j <= next <= |s.workOrder|
    decreases |s.workOrder| - j
  {
    Bounds(s, i);
    if j == |s.workOrder| then j
    else
      Bounds(s, j);
      if WorkExtent(s, j).Within(WorkExtent(s, i)) then After(s, i, j + 1) else j
  }

  lemma Bounds(s: Sources, i: nat)
    requires SameDecls(s) && i <= |s.workOrder|
    ensures s.Valid() && s.headExists && s.workExists
    ensures i < |s.workOrder| ==> Common(s, i) && Lookup(s.work, s.workOrder[i]).Found?
    ensures i < |s.workOrder| ==> HeadExtent(s, i).start < HeadExtent(s, i).end <= |s.headSrc|
    ensures i < |s.workOrder| ==> WorkExtent(s, i).start < WorkExtent(s, i).end <= |s.workSrc|
  {
    TabledIsValid(s);
    if i < |s.workOrder| {
      assert Common(s, i);
      Entry(s, i);
    }
  }

  lemma NextBounds(s: Sources, i: nat)
    requires SameDecls(s) && i < |s.workOrder|
    ensures Common(s, i) && Lookup(s.work, s.workOrder[i]).Found?
    ensures i + 1 < |s.workOrder| ==> Common(s, i + 1) && Lookup(s.work, s.workOrder[i + 1]).Found?
    ensures HeadTo(s, i) <= HeadTo(s, i + 1) <= |s.headSrc| && WorkTo(s, i) <= WorkTo(s, i + 1) <= |s.workSrc|
  {
    hide Tabled;
    Bounds(s, i);
    Bounds(s, i + 1);
    if i + 1 < |s.workOrder| {
      Pair(s, i, i + 1);
    }
  }

  lemma {:induction false} AfterIs(s: Sources, i: nat, j: nat)
    requires SameDecls(s) && i < j <= |s.workOrder|
    requires forall c :: i < c < j ==> Common(s, i) && Common(s, c) && HeadExtent(s, c).Within(HeadExtent(s, i))
    ensures Common(s, i) && Lookup(s.work, s.workOrder[i]).Found?
    ensures
      var next := After(s, i, j);
      && (next < |s.workOrder| ==> Common(s, next) && Lookup(s.work, s.workOrder[next]).Found?)
      && HeadExtent(s, i).end <= HeadTo(s, next) <= |s.headSrc| && WorkExtent(s, i).end <= WorkTo(s, next) <= |s.workSrc|
      && forall c :: i < c < next ==> Common(s, c) && HeadExtent(s, c).Within(HeadExtent(s, i))
    decreases |s.workOrder| - j
  {
    hide Tabled;
    Bounds(s, i);
    if j < |s.workOrder| {
      Bounds(s, j);
      Pair(s, i, j);
      if WorkExtent(s, j).Within(WorkExtent(s, i)) {
        AfterIs(s, i, j + 1);
      }
    }
  }

  /** HEAD from `lo` on, as seen from declaration `i`, with the named declarations' worktree
      text for their own; what lies in a named one comes along with it. */
  ghost function Weave(s: Sources, named: seq<nat>, i: nat, lo: nat): Text
    requires SameDecls(s) && i <= |s.workOrder|
    decreases |s.workOrder| - i
  {
    Bounds(s, i);
    if i == |s.workOrder| then Segment(s.headSrc, lo, |s.headSrc|)
    else if i in named then
      var h, w := HeadExtent(s, i), WorkExtent(s, i);
      Segment(s.headSrc, lo, h.start) + (s.workSrc[w.start..w.end] + Weave(s, named, After(s, i, i + 1), h.end))
    else Weave(s, named, i + 1, lo)
  }

  /** The edits of the outermost named declarations from `i` on, in file order. */
  ghost function EditsFrom(s: Sources, named: seq<nat>, i: nat): seq<EditOp>
    requires SameDecls(s) && i <= |s.workOrder|
    decreases |s.workOrder| - i
  {
    if i == |s.workOrder| then []
    else if i in named then
      EditIs(s, i);
      [OpFor(s, i)] + EditsFrom(s, named, After(s, i, i + 1))
    else EditsFrom(s, named, i + 1)
  }

  lemma EditIs(s: Sources, i: nat)
    requires SameDecls(s) && i < |s.workOrder|
    ensures s.Valid() && Classification(s, s.workOrder[i]).Planned? && Common(s, i)
    ensures Lookup(s.work, s.workOrder[i]).Found? && WorkExtent(s, i).start < WorkExtent(s, i).end <= |s.workSrc|
    ensures
      var op := OpFor(s, i);
      && op.kind.Replace? && op.start == HeadExtent(s, i).start < op.end == HeadExtent(s, i).end <= |s.headSrc|
      && op.text == s.workSrc[WorkExtent(s, i).start..WorkExtent(s, i).end]
      && op == ReplaceOp(s, WorkExtent(s, i), HeadExtent(s, i))
  {
    hide Tabled;
    Bounds(s, i);
  }

  lemma {:induction false} EditsAscend(s: Sources, named: seq<nat>, i: nat)
    requires SameDecls(s) && i <= |s.workOrder|
    ensures i < |s.workOrder| ==> Common(s, i)
    ensures HeadTo(s, i) <= StartOf(s.headSrc, EditsFrom(s, named, i)) <= |s.headSrc|
    ensures Ascending(s.headSrc, EditsFrom(s, named, i))
    decreases |s.workOrder| - i
  {
    hide SameDecls, OpFor, Ascending;
    Bounds(s, i);
    if i == |s.workOrder| {
      AscendNil(s.headSrc);
    } else if i in named {
      EditIs(s, i);
      AfterIs(s, i, i + 1);
      EditsAscend(s, named, After(s, i, i + 1));
      AscendCons(s.headSrc, OpFor(s, i), EditsFrom(s, named, After(s, i, i + 1)));
    } else {
      EditsAscend(s, named, i + 1);
      NextBounds(s, i);
    }
  }

  /** Substituting those edits weaves the file. */
  lemma {:induction false} EditsWeave(s: Sources, named: seq<nat>, i: nat, lo: nat)
    requires SameDecls(s) && i <= |s.workOrder| && (i < |s.workOrder| ==> Common(s, i)) && lo <= HeadTo(s, i)
    ensures
      var asc := EditsFrom(s, named, i);
      Segment(s.headSrc, lo, StartOf(s.headSrc, asc)) + Flatten(Tail(s.headSrc, asc)) == Weave(s, named, i, lo)
    decreases |s.workOrder| - i
  {
    hide SameDecls, OpFor, Flatten, Tail, Ascending, Segment;
    var head := s.headSrc;
    Bounds(s, i);
    if i == |s.workOrder| {
      NothingLeft(head);
    } else if i in named {
      EditIs(s, i);
      AfterIs(s, i, i + 1);
      var next := After(s, i, i + 1);
      EditsAscend(s, named, next);
      EditsWeave(s, named, next, HeadExtent(s, i).end);
      NamedStep(head, lo, OpFor(s, i), EditsFrom(s, named, next), Weave(s, named, next, HeadExtent(s, i).end));
    } else {
      NextBounds(s, i);
      EditsWeave(s, named, i + 1, lo);
    }
  }

  lemma NothingLeft(head: Text)
    ensures Flatten(Tail(head, [])) == []
  {
  }

  lemma NamedStep(head: Text, lo: nat, op: EditOp, rest: seq<EditOp>, w: Text)
    requires op.kind.Replace? && lo <= op.start <= op.end <= StartOf(head, rest) <= |head|
    requires Segment(head, op.end, StartOf(head, rest)) + Flatten(Tail(head, rest)) == w
    ensures Segment(head, lo, StartOf(head, [op] + rest)) + Flatten(Tail(head, [op] + rest))
            == Segment(head, lo, op.start) + (op.text + w)
  {
    hide Flatten, Tail;
    TailCons(head, op, rest);
    FlattenTwo(op.text, Segment(head, op.end, StartOf(head, rest)), Tail(head, rest));
  }

  lemma EmptyAlike(a: seq<EditOp>, b: seq<EditOp>)
    requires forall op :: op in a <==> op in b
    ensures a == [] <==> b == []
  {
    if a != [] {
      assert a[0] in b;
    }
    if b != [] {
      assert b[0] in a;
    }
  }

  /** Ascending lists of proper ranges with the same members are the same list. */
  lemma {:induction false} SameAscending(head: Text, a: seq<EditOp>, b: seq<EditOp>)
    requires Ascending(head, a) && Ascending(head, b)
    requires forall op <- a + b :: IsRange(op) && op.start < op.end
    requires forall op :: op in a <==> op in b
    ensures a == b
  {
    EmptyAlike(a, b);
    if a != [] {
      assert a[0] in a && b[0] in b && a[0] in a + b && b[0] in a + b;
      LeastStart(head, a);
      LeastStart(head, b);
      assert a[0] == b[0];
      var r, t := a[1..], b[1..];
      assert a == [a[0]] + r && b == [b[0]] + t;
      forall op
        ensures op in r <==> op in t
      {
        assert op in r ==> op in a && op in b && op != b[0];
        assert op in t ==> op in b && op in a && op != a[0];
      }
      assert forall op <- r + t :: op in a + b;
      SameAscending(head, r, t);
    }
  }

  lemma {:induction false} LeastStart(head: Text, a: seq<EditOp>)
    requires a != [] && Ascending(head, a) && forall op <- a :: IsRange(op) && op.start < op.end
    ensures forall op <- a[1..] :: a[0].start < op.start
  {
    var r := a[1..];
    assert a[0] in a;
    if r != [] {
      assert forall op <- r :: op in a;
      LeastStart(head, r);
      assert r == [r[0]] + r[1..];
    }
  }

  // ----- the outermost named edits are the ones kept -----

  ghost predicate EditOfNamed(s: Sources, named: seq<nat>, op: EditOp, k: nat)
    requires SameDecls(s)
  {
    k < |s.workOrder| && k in named && (EditIs(s, k); op == OpFor(s, k))
  }

  lemma {:induction false} EditsNamed(s: Sources, named: seq<nat>, i: nat)
    requires SameDecls(s) && i <= |s.workOrder|
    ensures forall op <- EditsFrom(s, named, i) :: exists k: nat :: EditOfNamed(s, named, op, k)
    decreases |s.workOrder| - i
  {
    hide SameDecls, OpFor;
    if i < |s.workOrder| {
      EditIs(s, i);
      if i in named {
        EditsNamed(s, named, After(s, i, i + 1));
        assert EditOfNamed(s, named, OpFor(s, i), i);
      } else {
        EditsNamed(s, named, i + 1);
      }
    }
  }

  lemma {:induction false} EditsCover(s: Sources, named: seq<nat>, i: nat, k: nat) returns (o: EditOp)
    requires SameDecls(s) && i <= k < |s.workOrder| && k in named
    ensures Common(s, k)
    ensures o in EditsFrom(s, named, i) && o.start <= HeadExtent(s, k).start && HeadExtent(s, k).end <= o.end
    decreases |s.workOrder| - i
  {
    hide SameDecls, OpFor;
    Bounds(s, k);
    EditIs(s, i);
    if i in named {
      AfterIs(s, i, i + 1);
      var next := After(s, i, i + 1);
      if k < next {
        o := OpFor(s, i);
      } else {
        o := EditsCover(s, named, next, k);
      }
    } else {
      o := EditsCover(s, named, i + 1, k);
    }
  }

  lemma {:induction false} AscendingApart(head: Text, asc: seq<EditOp>, a: EditOp, b: EditOp)
    requires Ascending(head, asc) && a in asc && b in asc && a != b
    requires forall op <- asc :: IsRange(op) && op.start < op.end
    ensures !Overlap(a, b)
  {
    var rest := asc[1..];
    assert asc == [asc[0]] + rest;
    if a != asc[0] && b != asc[0] {
      AscendingApart(head, rest, a, b);
    } else {
      AllAfter(head, rest);
    }
  }

  lemma {:induction false} AllAfter(head: Text, asc: seq<EditOp>)
    requires Ascending(head, asc)
    ensures forall op <- asc :: StartOf(head, asc) <= op.start
  {
    if asc != [] {
      AllAfter(head, asc[1..]);
      assert asc == [asc[0]] + asc[1..];
    }
  }

  /** The edits of the named declarations, in the order they are named. */
  ghost predicate NamesShared(s: Sources, ops: seq<EditOp>, named: seq<nat>)
    requires SameDecls(s)
  {
    |ops| == |named| && forall k :: 0 <= k < |named| ==> EditOfNamed(s, named, ops[k], named[k])
  }

  lemma AnEditOf(s: Sources, ops: seq<EditOp>, named: seq<nat>, op: EditOp) returns (k: nat)
    requires SameDecls(s) && NamesShared(s, ops, named) && op in ops
    ensures EditOfNamed(s, named, op, k)
  {
    var j :| 0 <= j < |ops| && ops[j] == op;
    k := named[j];
  }

  lemma AnEditIn(s: Sources, ops: seq<EditOp>, named: seq<nat>, op: EditOp, k: nat)
    requires SameDecls(s) && NamesShared(s, ops, named) && EditOfNamed(s, named, op, k)
    ensures op in ops
  {
    hide SameDecls;
    var j :| 0 <= j < |named| && named[j] == k;
    assert EditOfNamed(s, named, ops[j], named[j]);
  }

  /** Edits of one HEAD extent are one edit, and any two nest or are apart. */
  lemma NamedNest(s: Sources, a: EditOp, b: EditOp, named: seq<nat>, i: nat, j: nat)
    requires SameDecls(s) && EditOfNamed(s, named, a, i) && EditOfNamed(s, named, b, j)
    ensures Within(a, b) || Within(b, a) || !Overlap(a, b)
    ensures a.start == b.start && a.end == b.end ==> a == b
  {
    hide Tabled, OpFor;
    EditIs(s, i);
    EditIs(s, j);
    if i < j {
      Pair(s, i, j);
      assert SharedAlike(s, i, j);
    } else if j < i {
      Pair(s, j, i);
      assert SharedAlike(s, j, i);
    }
  }

  lemma KeptIsOutermost(s: Sources, ops: seq<EditOp>, named: seq<nat>, op: EditOp)
    requires SameDecls(s) && NamesShared(s, ops, named) && op in Coalesced(ops)
    ensures op in EditsFrom(s, named, 0)
  {
    hide SameDecls, NamesShared, EditOfNamed, Coalesced, EditsFrom, Ascending;
    var asc := EditsFrom(s, named, 0);
    CoalescedAccounts(ops);
    EditsAscend(s, named, 0);
    EditsNamed(s, named, 0);
    AllProper(s, named, asc);
    var o := CoveredBy(s, ops, named, op);
    var m: nat :| EditOfNamed(s, named, o, m);
    AnEditIn(s, ops, named, o, m);
    var i := AnEditOf(s, ops, named, op);
    ProperEdit(s, named, op, i);
    if o in Coalesced(ops) {
      KeptDisjoint(ops, o, op);
    } else {
      var k :| k in Coalesced(ops) && Swallows(k, o) && o.Span() <= k.Span();
      var x := AnEditOf(s, ops, named, k);
      ProperEdit(s, named, k, x);
      NamedNest(s, k, o, named, x, m);
      var o' := CoveredBy(s, ops, named, k);
      if o' != o {
        AscendingApart(s.headSrc, asc, o, o');
      }
      KeptDisjoint(ops, k, op);
    }
  }

  lemma ProperEdit(s: Sources, named: seq<nat>, op: EditOp, k: nat)
    requires SameDecls(s) && EditOfNamed(s, named, op, k)
    ensures op.kind.Replace? && op.start < op.end <= |s.headSrc|
  {
    hide SameDecls, OpFor;
    EditIs(s, k);
  }

  lemma AllProper(s: Sources, named: seq<nat>, asc: seq<EditOp>)
    requires SameDecls(s) && forall op <- asc :: exists k: nat :: EditOfNamed(s, named, op, k)
    ensures forall op <- asc :: op.kind.Replace? && op.start < op.end <= |s.headSrc|
  {
    hide SameDecls, EditOfNamed;
    forall op | op in asc
      ensures op.kind.Replace? && op.start < op.end <= |s.headSrc|
    {
      var k: nat :| EditOfNamed(s, named, op, k);
      ProperEdit(s, named, op, k);
    }
  }

  lemma CoveredBy(s: Sources, ops: seq<EditOp>, named: seq<nat>, op: EditOp) returns (o: EditOp)
    requires SameDecls(s) && NamesShared(s, ops, named) && op in ops
    ensures o in EditsFrom(s, named, 0) && Within(op, o)
  {
    hide SameDecls, OpFor, EditsFrom;
    var i := AnEditOf(s, ops, named, op);
    EditIs(s, i);
    o := EditsCover(s, named, 0, i);
  }

  lemma KeptDisjoint(ops: seq<EditOp>, a: EditOp, b: EditOp)
    requires a in Coalesced(ops) && b in Coalesced(ops) && IsRange(a) && IsRange(b) && Overlap(a, b)
    ensures a == b
  {
    hide Keep;
    CoalescedAccounts(ops);
    var kept := Coalesced(ops);
    var i :| 0 <= i < |kept| && kept[i] == a;
    var j :| 0 <= j < |kept| && kept[j] == b;
  }

  lemma OutermostIsKept(s: Sources, ops: seq<EditOp>, named: seq<nat>, op: EditOp)
    requires SameDecls(s) && NamesShared(s, ops, named) && op in EditsFrom(s, named, 0)
    ensures op in Coalesced(ops)
  {
    hide SameDecls, NamesShared, EditOfNamed, Coalesced, EditsFrom, Ascending;
    var asc := EditsFrom(s, named, 0);
    CoalescedAccounts(ops);
    EditsAscend(s, named, 0);
    EditsNamed(s, named, 0);
    AllProper(s, named, asc);
    var m: nat :| EditOfNamed(s, named, op, m);
    AnEditIn(s, ops, named, op, m);
    if op !in Coalesced(ops) {
      var k :| k in Coalesced(ops) && Swallows(k, op) && op.Span() <= k.Span();
      KeptIsOutermost(s, ops, named, k);
      AscendingApart(s.headSrc, asc, k, op);
    }
  }

  /** Naming any of the declarations of a file, nested or not, in any order, stages HEAD
      with exactly those declarations' bytes as the worktree has them. */
  lemma NamedSymbolsOnly(s: Sources, ops: seq<EditOp>, named: seq<nat>)
    requires SameDecls(s) && NamesShared(s, ops, named)
    ensures WellFormed(s.headSrc, ops) && Applied(s.headSrc, ops) == Some(Weave(s, named, 0, 0))
  {
    hide SameDecls, NamesShared, EditOfNamed, OpFor, Applied, Layout, MergedLayout, Coalesced, Ascending,
      PairwiseDisjoint, Weave, EditsFrom;
    var head, kept := s.headSrc, Coalesced(ops);
    forall op | op in ops
      ensures op.kind.Replace? && op.start < op.end <= |head|
    {
      var k := AnEditOf(s, ops, named, op);
      ProperEdit(s, named, op, k);
    }
    ReplacementsAreExact(head, ops);
    CoalescedAccounts(ops);
    LayoutAscends(head, kept, 0);
    RangeLayout(kept, 0, |head|);
    LayoutInOrder(head, kept, 0);
    var lay, asc := Layout(kept, 0, |head|), EditsFrom(s, named, 0);
    EditsAscend(s, named, 0);
    EditsNamed(s, named, 0);
    AllProper(s, named, asc);
    forall op
      ensures op in lay <==> op in asc
    {
      if op in lay {
        KeptIsOutermost(s, ops, named, op);
      }
      if op in asc {
        OutermostIsKept(s, ops, named, op);
      }
    }
    SameAscending(head, lay, asc);
    Bounds(s, 0);
    EditsWeave(s, named, 0, 0);
  }

  // ----- nothing changed but what is named -----

  /** Outside the outermost named declarations the two files agree, gap by gap. */
  ghost predicate SameOutside(s: Sources, named: seq<nat>, i: nat, lo: nat, wlo: nat)
    requires SameDecls(s) && i <= |s.workOrder|
    decreases |s.workOrder| - i
  {
    Bounds(s, i);
    if i == |s.workOrder| then Segment(s.headSrc, lo, |s.headSrc|) == Segment(s.workSrc, wlo, |s.workSrc|)
    else if i in named then
      var h, w := HeadExtent(s, i), WorkExtent(s, i);
      && Segment(s.headSrc, lo, h.start) == Segment(s.workSrc, wlo, w.start)
      && SameOutside(s, named, After(s, i, i + 1), h.end, w.end)
    else SameOutside(s, named, i + 1, lo, wlo)
  }

  /** Those gaps are as long on one side as on the other. */
  ghost predicate SameShape(s: Sources, named: seq<nat>, i: nat, lo: nat, wlo: nat)
    requires SameDecls(s) && i <= |s.workOrder|
    decreases |s.workOrder| - i
  {
    Bounds(s, i);
    if i == |s.workOrder| then |s.headSrc| - lo == |s.workSrc| - wlo
    else if i in named then
      var h, w := HeadExtent(s, i), WorkExtent(s, i);
      h.start - lo == w.start - wlo && SameShape(s, named, After(s, i, i + 1), h.end, w.end)
    else SameShape(s, named, i + 1, lo, wlo)
  }

  lemma {:induction false} WeaveIsWorktreeIff(s: Sources, named: seq<nat>, i: nat, lo: nat, wlo: nat)
    requires SameDecls(s) && i <= |s.workOrder|
    requires i < |s.workOrder| ==> Common(s, i) && Lookup(s.work, s.workOrder[i]).Found?
    requires lo <= HeadTo(s, i) && wlo <= WorkTo(s, i)
    ensures wlo <= |s.workSrc|
    ensures SameOutside(s, named, i, lo, wlo) ==> SameShape(s, named, i, lo, wlo)
    ensures SameShape(s, named, i, lo, wlo) ==>
              (Weave(s, named, i, lo) == s.workSrc[wlo..] <==> SameOutside(s, named, i, lo, wlo))
    decreases |s.workOrder| - i
  {
    hide SameDecls;
    Bounds(s, i);
    var work := s.workSrc;
    if i == |s.workOrder| {
      assert work[wlo..|work|] == work[wlo..];
    } else if i in named {
      AfterIs(s, i, i + 1);
      var next, h, w := After(s, i, i + 1), HeadExtent(s, i), WorkExtent(s, i);
      Bounds(s, next);
      WeaveIsWorktreeIff(s, named, next, h.end, w.end);
      assert work[wlo..] == work[wlo..w.start] + (work[w.start..w.end] + work[w.end..]);
      SplitAlike(s.headSrc[lo..h.start], work[wlo..w.start], work[w.start..w.end], Weave(s, named, next, h.end), work[w.end..]);
    } else {
      NextBounds(s, i);
      WeaveIsWorktreeIff(s, named, i + 1, lo, wlo);
    }
  }

  lemma SplitAlike(g: Text, g': Text, t: Text, x: Text, y: Text)
    ensures |g| == |g'| ==> (g + (t + x) == g' + (t + y) <==> g == g' && x == y)
  {
    var a, b := g + (t + x), g' + (t + y);
    if |g| == |g'| && a == b {
      assert a[..|g|] == g && b[..|g'|] == g';
      assert a[|g + t|..] == x && b[|g' + t|..] == y;
    }
  }

  /** rgit's own promise: change some symbols and nothing else, name at least those, in
      any order, and the blob is the worktree file byte for byte. Where the named symbols
      stand at matching offsets, the blob is the worktree file only then. */
  lemma StagedIsWorktree(s: Sources, ops: seq<EditOp>, named: seq<nat>)
    requires SameDecls(s) && NamesShared(s, ops, named)
    ensures WellFormed(s.headSrc, ops)
    ensures SameOutside(s, named, 0, 0, 0) ==> Applied(s.headSrc, ops) == Some(s.workSrc)
    ensures SameShape(s, named, 0, 0, 0) ==>
              (Applied(s.headSrc, ops) == Some(s.workSrc) <==> SameOutside(s, named, 0, 0, 0))
  {
    hide SameDecls, NamesShared, Weave, SameOutside, SameShape, Applied;
    Bounds(s, 0);
    NamedSymbolsOnly(s, ops, named);
    WeaveIsWorktreeIff(s, named, 0, 0, 0);
    assert s.workSrc[0..] == s.workSrc;
  }
}
