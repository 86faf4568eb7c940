/** Whatever subset of a declaration table is staged, the blob lists the symbols in
    worktree order. */
module WorktreeOrder {
  import opened Seqs
  import opened Bytes
  import opened Sorting
  import opened Splice
  import opened SpliceLaws
  import opened Coalesce
  import opened ApplyEdits
  import opened BlobLaws
  import opened SpliceLimits
  import opened BlobLimits
  import opened Placement
  import opened Tables

  // ----- the edit of one declaration -----

  /** Not a member that is widened to a container HEAD lacks. */
  ghost predicate Unwidened(s: Sources, i: nat)
    requires i < |s.workOrder| && Lookup(s.work, s.workOrder[i]).Found?
  {
    var res := Lookup(s.work, s.workOrder[i]).res;
    Common(s, i) || (Escalation(s, res).Widened? && Escalation(s, res).res == res)
  }

  lemma OwnEdit(s: Sources, i: nat)
    requires Tabled(s) && i < |s.workOrder|
    ensures s.Valid() && Lookup(s.work, s.workOrder[i]).Found? && WorkExtent(s, i).start < WorkExtent(s, i).end
    ensures Unwidened(s, i) ==> Classification(s, s.workOrder[i]).Planned?
    ensures Common(s, i) ==>
              var op := Classification(s, s.workOrder[i]).op;
              && op.kind.Replace? && op.start == HeadExtent(s, i).start && op.end == HeadExtent(s, i).end
              && op.wstart == WorkExtent(s, i).start && op.wend == WorkExtent(s, i).end
              && WorkExtent(s, i).end <= |s.workSrc| && op.text == s.workSrc[WorkExtent(s, i).start..WorkExtent(s, i).end]
    ensures !Common(s, i) && Unwidened(s, i) ==>
              var op := Classification(s, s.workOrder[i]).op;
              && op.kind.Insert? && op.start == Position(s, Lookup(s.work, s.workOrder[i]).res)
              && op.order == op.wstart == WorkExtent(s, i).start && op.wend == WorkExtent(s, i).end
  {
    Entry(s, i);
    hide Tabled, Position, LineStart, RunBefore, RunAfter;
  }

  /** Naming a widened member stages its container, as naming the container does but for the
      blank-line minimum. A container that is widened itself stages more under its own name;
      then neither edit makes the other redundant. */
  lemma WidenedIsContainer(s: Sources, i: nat, o: nat)
    requires Tabled(s) && i < |s.workOrder| && o < |s.workOrder|
    requires Lookup(s.work, s.workOrder[i]).Found? && Lookup(s.work, s.workOrder[o]).Found?
    requires !Unwidened(s, i) && Classification(s, s.workOrder[i]).Planned?
    requires s.workOrder[o] == Lookup(s.work, s.workOrder[i]).res.EnclosingName()
    ensures s.Valid() && !Common(s, o) && WorkExtent(s, i).Within(WorkExtent(s, o))
    ensures
      var op := Classification(s, s.workOrder[i]).op;
      op.kind.Insert? && op.wstart == WorkExtent(s, o).start && op.wend == WorkExtent(s, o).end
    ensures Unwidened(s, o) ==>
              && Classification(s, s.workOrder[o]).Planned?
              && Classification(s, s.workOrder[i]).op == Classification(s, s.workOrder[o]).op.(member := false)
    ensures !Unwidened(s, o) && Classification(s, s.workOrder[o]).Planned? ==>
              var inner, outer := Classification(s, s.workOrder[i]).op, Classification(s, s.workOrder[o]).op;
              && outer.kind.Insert? && outer.wstart <= inner.wstart < inner.wend <= outer.wend
              && (!SameWork(inner, outer) ==> !Swallows(inner, outer) && !Swallows(outer, inner))
  {
    Entry(s, i);
    Entry(s, o);
    EscalationMeans(s, Lookup(s.work, s.workOrder[o]).res);
    hide Tabled, Position, LineStart, RunBefore, RunAfter;
  }

  // ----- where symbols land relative to each other -----

  /** A declaration that may be named: its guard holds when it is new. */
  ghost predicate Ready(s: Sources, i: nat)
    requires Tabled(s) && i < |s.workOrder|
  {
    Entry(s, i);
    TabledIsValid(s);
    TabledFound(s);
    Unwidened(s, i) && (Common(s, i) || Settled(s, Lookup(s.work, s.workOrder[i]).res, i))
  }

  lemma TabledFound(s: Sources)
    requires Tabled(s)
    ensures forall c :: 0 <= c < |s.workOrder| ==> Lookup(s.work, s.workOrder[c]).Found?
  {
    forall c | 0 <= c < |s.workOrder|
      ensures Lookup(s.work, s.workOrder[c]).Found?
    {
      Entry(s, c);
    }
  }

  lemma ReadyIs(s: Sources, i: nat)
    requires Tabled(s) && i < |s.workOrder| && Ready(s, i)
    ensures s.Valid() && Lookup(s.work, s.workOrder[i]).Found? && Unwidened(s, i)
    ensures Classification(s, s.workOrder[i]).Planned?
    ensures !Common(s, i) ==>
              var res := Lookup(s.work, s.workOrder[i]).res;
              && Sits(s, res, i) && TableIndex(s, res) == i && SeesNext(s, res, i) && Settled(s, res, i)
  {
    hide Tabled, TableIndex, SeesNext, Settled, Classification;
    OwnEdit(s, i);
    if !Common(s, i) {
      ListedSits(s, i);
    }
  }

  function OpFor(s: Sources, i: nat): EditOp
    requires s.Valid() && i < |s.workOrder| && Classification(s, s.workOrder[i]).Planned?
  {
    Classification(s, s.workOrder[i]).op
  }

  /** A new symbol lands at or after the end of every shared symbol that ends before it
      in the worktree, and at or before the start of every shared symbol after it. */
  lemma NewAmongShared(s: Sources, k: nat, c: nat)
    requires Tabled(s) && k < |s.workOrder| && c < |s.workOrder| && !Common(s, k) && Common(s, c) && Ready(s, k)
    ensures s.Valid() && Classification(s, s.workOrder[k]).Planned?
    ensures Lookup(s.work, s.workOrder[k]).Found? && Lookup(s.work, s.workOrder[c]).Found?
    ensures WorkExtent(s, c).end <= WorkExtent(s, k).start ==> HeadExtent(s, c).end <= OpFor(s, k).start
    ensures WorkExtent(s, k).end <= WorkExtent(s, c).start ==> OpFor(s, k).start <= HeadExtent(s, c).start
    ensures HeadExtent(s, c).start < OpFor(s, k).start < HeadExtent(s, c).end ==>
              WorkExtent(s, k).Within(WorkExtent(s, c))
  {
    hide Tabled, TableIndex, Position, SeesNext, Settled, Classification, Ready;
    ReadyIs(s, k);
    OwnEdit(s, k);
    Entry(s, c);
    var res := Lookup(s.work, s.workOrder[k]).res;
    if c < k {
      Pair(s, c, k);
      if WorkExtent(s, c).end <= res.extent.start {
        BeforePlace(s, res, k, c);
      }
    } else {
      Pair(s, k, c);
      AfterPlace(s, res, k, c);
    }
  }

  /** Two new symbols side by side land in worktree order, ties broken by offset. */
  lemma NewAmongNew(s: Sources, k: nat, l: nat)
    requires Tabled(s) && k < l < |s.workOrder| && !Common(s, k) && !Common(s, l) && Ready(s, k) && Ready(s, l)
    requires Lookup(s.work, s.workOrder[k]).Found? && Lookup(s.work, s.workOrder[l]).Found?
    requires WorkExtent(s, k).end <= WorkExtent(s, l).start
    ensures s.Valid() && Classification(s, s.workOrder[k]).Planned? && Classification(s, s.workOrder[l]).Planned?
    ensures OpFor(s, k).start <= OpFor(s, l).start && OpFor(s, k).order < OpFor(s, l).order
  {
    hide Tabled, TableIndex, Position, SeesNext, Settled, Classification, Ready;
    ReadyIs(s, k);
    ReadyIs(s, l);
    OwnEdit(s, k);
    OwnEdit(s, l);
    var i := PrevInHead(s, l);
    if i > k + 1 {
      SharedBetween(s, k, l);
    } else {
      SameNeighbours(s, k, l);
    }
  }

  /** With nothing shared between them both are placed by the same neighbours. */
  lemma SameNeighbours(s: Sources, k: nat, l: nat)
    requires Tabled(s) && k < l < |s.workOrder| && !Common(s, k) && !Common(s, l)
    requires Lookup(s.work, s.workOrder[k]).Found? && Lookup(s.work, s.workOrder[l]).Found?
    requires WorkExtent(s, k).end <= WorkExtent(s, l).start && PrevInHead(s, l) <= k + 1 && s.Valid()
    ensures Position(s, Lookup(s.work, s.workOrder[k]).res) <= Position(s, Lookup(s.work, s.workOrder[l]).res)
  {
    hide Tabled, TableIndex, Position, SeesNext, Settled, Sits, EnclosesInWork, PrevInHead, NextInHead;
    var rk, rl := Lookup(s.work, s.workOrder[k]).res, Lookup(s.work, s.workOrder[l]).res;
    ListedSits(s, k);
    ListedSits(s, l);
    TabledIsValid(s);
    NothingBetween(s, k, l);
    PositionCases(s, rk, k);
    PositionCases(s, rl, l);
    var i := PrevInHead(s, k);
    if i > 0 {
      InsideFrom(s, rk, k);
      if EnclosesInWork(s, s.workOrder[i - 1], rl) {
        EnclosesEarlier(s, i - 1, k, l);
      }
    }
  }

  lemma NothingBetween(s: Sources, k: nat, l: nat)
    requires k < l < |s.workOrder| && !Common(s, k) && !Common(s, l) && PrevInHead(s, l) <= k + 1
    ensures PrevInHead(s, l) == PrevInHead(s, k) <= k && NextInHead(s, l + 1) == NextInHead(s, k + 1)
  {
    var i := PrevInHead(s, l);
    assert i != k + 1;
    assert forall c :: k <= c < l ==> !Common(s, c);
    PrevSkips(s, k, l);
    NextSkips(s, k + 1, l + 1);
  }

  lemma {:induction false} PrevSkips(s: Sources, a: nat, b: nat)
    requires a <= b <= |s.workOrder| && forall c :: a <= c < b ==> !Common(s, c)
    ensures PrevInHead(s, b) == PrevInHead(s, a)
  {
    if a < b {
      assert !Common(s, b - 1);
      PrevSkips(s, a, b - 1);
    }
  }

  lemma EnclosesEarlier(s: Sources, c: nat, k: nat, l: nat)
    requires Tabled(s) && c < k < l < |s.workOrder|
    requires Lookup(s.work, s.workOrder[k]).Found? && Lookup(s.work, s.workOrder[l]).Found?
    requires WorkExtent(s, k).end <= WorkExtent(s, l).start
    requires EnclosesInWork(s, s.workOrder[c], Lookup(s.work, s.workOrder[l]).res)
    ensures EnclosesInWork(s, s.workOrder[c], Lookup(s.work, s.workOrder[k]).res)
  {
    hide Tabled;
    Pair(s, c, k);
    Pair(s, c, l);
  }

  lemma {:induction false} NextSkips(s: Sources, a: nat, b: nat)
    requires a <= b <= |s.workOrder| && forall c :: a <= c < b ==> !Common(s, c)
    ensures NextInHead(s, a) == NextInHead(s, b)
    decreases b - a
  {
    if a < b {
      assert !Common(s, a);
      NextSkips(s, a + 1, b);
    }
  }

  /** With something shared between them, the last such lies between their places. */
  lemma SharedBetween(s: Sources, k: nat, l: nat)
    requires Tabled(s) && k < l < |s.workOrder| && !Common(s, k) && !Common(s, l) && s.Valid()
    requires Lookup(s.work, s.workOrder[k]).Found? && Lookup(s.work, s.workOrder[l]).Found?
    requires forall c :: 0 <= c < |s.workOrder| ==> Lookup(s.work, s.workOrder[c]).Found?
    requires WorkExtent(s, k).end <= WorkExtent(s, l).start && PrevInHead(s, l) > k + 1
    requires Settled(s, Lookup(s.work, s.workOrder[l]).res, l)
    ensures Position(s, Lookup(s.work, s.workOrder[k]).res) <= Position(s, Lookup(s.work, s.workOrder[l]).res)
  {
    hide Tabled, TableIndex, Position, LineBegin, BodyEnd, Settled, Sits, SeesNext;
    var rk, rl := Lookup(s.work, s.workOrder[k]).res, Lookup(s.work, s.workOrder[l]).res;
    ListedSits(s, l);
    var c := PrevInHead(s, l) - 1;
    FromLastShared(s, l);
    if Position(s, rk) > HeadExtent(s, c).start {
      UpToShared(s, k, c);
      var e := PrevInHead(s, k) - 1;
      Entry(s, e);
      Entry(s, c);
      Pair(s, c, l);
      ClosesAlike(s, e, c, l);
    }
  }

  /** Where its guard holds, a place is at or after the start of the nearest shared one. */
  lemma FromLastShared(s: Sources, l: nat)
    requires Tabled(s) && l < |s.workOrder| && !Common(s, l) && s.Valid() && PrevInHead(s, l) > 0
    requires forall c :: 0 <= c < |s.workOrder| ==> Lookup(s.work, s.workOrder[c]).Found?
    requires Settled(s, Lookup(s.work, s.workOrder[l]).res, l)
    ensures HeadExtent(s, PrevInHead(s, l) - 1).start <= Position(s, Lookup(s.work, s.workOrder[l]).res)
  {
    hide Tabled, TableIndex, Position, LineBegin, BodyEnd, Settled, EnclosesInWork;
    var rl := Lookup(s.work, s.workOrder[l]).res;
    ListedSits(s, l);
    Entry(s, PrevInHead(s, l) - 1);
    PositionCases(s, rl, l);
    InsideFrom(s, rl, l);
  }

  /** A place past the start of a later shared declaration comes after a sibling with the
      new symbol's own extent, which holds that declaration. */
  lemma UpToShared(s: Sources, k: nat, c: nat)
    requires Tabled(s) && k < c < |s.workOrder| && !Common(s, k) && Common(s, c) && s.Valid()
    requires Lookup(s.work, s.workOrder[k]).Found? && Lookup(s.work, s.workOrder[c]).Found?
    requires Position(s, Lookup(s.work, s.workOrder[k]).res) > HeadExtent(s, c).start
    ensures PrevInHead(s, k) > 0
    ensures
      var e := PrevInHead(s, k) - 1;
      && Lookup(s.work, s.workOrder[e]).Found? && WorkExtent(s, e) == WorkExtent(s, k)
      && Position(s, Lookup(s.work, s.workOrder[k]).res) == HeadExtent(s, e).end
      && WorkExtent(s, c).Within(WorkExtent(s, e)) && HeadExtent(s, c).Within(HeadExtent(s, e))
  {
    hide Tabled, TableIndex, Position, LineBegin, BodyEnd, Sits, SeesNext;
    var rk := Lookup(s.work, s.workOrder[k]).res;
    ListedSits(s, k);
    TabledIsValid(s);
    PositionCases(s, rk, k);
    Pair(s, k, c);
    var i, j := PrevInHead(s, k), NextInHead(s, k + 1);
    assert j <= c;
    if j < c {
      Pair(s, j, c);
    }
    if i > 0 {
      Entry(s, i - 1);
      Pair(s, i - 1, k);
      Pair(s, i - 1, c);
      Pair(s, i - 1, j);
      BodyEndWithin(s.headSrc, HeadExtent(s, i - 1));
    }
  }

  lemma ClosesAlike(s: Sources, e: nat, c: nat, l: nat)
    requires Tabled(s) && e < c < l < |s.workOrder| && !Common(s, l) && Common(s, e) && Common(s, c) && s.Valid()
    requires forall c :: 0 <= c < |s.workOrder| ==> Lookup(s.work, s.workOrder[c]).Found?
    requires c == PrevInHead(s, l) - 1 && Settled(s, Lookup(s.work, s.workOrder[l]).res, l)
    requires WorkExtent(s, c).Within(WorkExtent(s, e)) && HeadExtent(s, c).Within(HeadExtent(s, e))
    requires WorkExtent(s, e).end <= WorkExtent(s, l).start < WorkExtent(s, l).end
    ensures Position(s, Lookup(s.work, s.workOrder[l]).res) == HeadExtent(s, e).end
  {
    hide Tabled, TableIndex, Position, Sits, SeesNext, BodyEnd, LineBegin, OpensOwnLine, PrevInHead, NextInHead, LineStart;
    ListedSits(s, l);
    TabledIsValid(s);
    PositionCases(s, Lookup(s.work, s.workOrder[l]).res, l);
  }

  /** The order the blob lays edits out in: by offset; at one offset the insertions,
      by worktree offset, and then the range. */
  predicate LaidBefore(a: EditOp, b: EditOp) {
    || a.start < b.start
    || (a.start == b.start && a.kind.Insert? && (IsRange(b) || a.order < b.order))
  }

  lemma OpsLaidInOrder(s: Sources, i: nat, j: nat)
    requires Tabled(s) && i < j < |s.workOrder| && Ready(s, i) && Ready(s, j)
    requires Lookup(s.work, s.workOrder[i]).Found? && Lookup(s.work, s.workOrder[j]).Found?
    requires WorkExtent(s, i).end <= WorkExtent(s, j).start
    ensures s.Valid() && Classification(s, s.workOrder[i]).Planned? && Classification(s, s.workOrder[j]).Planned?
    ensures LaidBefore(OpFor(s, i), OpFor(s, j))
  {
    hide Tabled, Classification, Ready;
    ReadyIs(s, i);
    ReadyIs(s, j);
    OwnEdit(s, i);
    OwnEdit(s, j);
    Pair(s, i, j);
    if Common(s, i) && !Common(s, j) {
      NewAmongShared(s, j, i);
    } else if !Common(s, i) && Common(s, j) {
      NewAmongShared(s, i, j);
    } else if !Common(s, i) && !Common(s, j) {
      NewAmongNew(s, i, j);
    }
  }

  // ----- the layout respects that order -----

  ghost predicate NeverLaidBack(lay: seq<EditOp>) {
    forall a, b :: 0 <= a < b < |lay| ==> !LaidBefore(lay[b], lay[a])
  }

  lemma {:induction false} LayoutInOrder(head: Text, kept: seq<EditOp>, p: nat)
    requires WellFormed(head, kept) && PairwiseDisjoint(kept) && p <= |head| + 1
    ensures NeverLaidBack(Layout(kept, p, |head|))
    ensures forall op <- Layout(kept, p, |head|) :: op.start >= p && op in kept
    ensures forall op <- kept :: op.start >= p ==> op in Layout(kept, p, |head|)
    decreases |head| + 1 - p
  {
    hide Grouped, RangesAt, PairwiseDisjoint;
    if p <= |head| {
      LayoutInOrder(head, kept, p + 1);
      GroupedMembers(kept, p);
      OneRangeAt(head, kept, p);
      RangesAtHolds(kept, p);
      var g, r, l := Grouped(kept, p), RangesAt(kept, p), Layout(kept, p + 1, |head|);
      assert forall i :: 0 <= i < |g| ==> g[i] in g;
      assert forall i :: 0 <= i < |r| ==> r[i] in r;
      assert forall i :: 0 <= i < |l| ==> l[i] in l;
      GroupThenRange(p, g, r, l);
      forall op | op in kept && op.start >= p
        ensures op in g + r + l
      {
        if op.start == p && IsRange(op) {
          assert op in r;
        }
      }
    }
  }

  lemma GroupThenRange(p: nat, g: seq<EditOp>, r: seq<EditOp>, l: seq<EditOp>)
    requires Sorted(g, WorktreeOrder) && |r| <= 1 && NeverLaidBack(l)
    requires forall i :: 0 <= i < |g| ==> g[i].kind.Insert? && g[i].start == p
    requires forall i :: 0 <= i < |r| ==> IsRange(r[i]) && r[i].start == p
    requires forall i :: 0 <= i < |l| ==> l[i].start > p
    ensures NeverLaidBack(g + r + l)
  {
    var lay := g + r + l;
    forall a, b | 0 <= a < b < |lay|
      ensures !LaidBefore(lay[b], lay[a])
    {
      if b < |g| {
        assert lay[a] == g[a] && lay[b] == g[b];
        assert WorktreeOrder(g[a]) <= WorktreeOrder(g[b]);
      } else if b >= |g| + |r| {
        assert lay[b] == l[b - |g| - |r|];
        if a >= |g| + |r| {
          assert lay[a] == l[a - |g| - |r|];
        }
      }
    }
  }

  lemma {:induction false} RangesAtHolds(kept: seq<EditOp>, p: nat)
    ensures forall op <- kept :: IsRange(op) && op.start == p ==> op in RangesAt(kept, p)
  {
    RangesMembers(kept);
    WithKeyMembers(Ranges(kept), HighestFirst, Neg(p));
    forall op | op in kept && IsRange(op) && op.start == p
      ensures op in RangesAt(kept, p)
    {
      assert op in Ranges(kept) && HighestFirst(op) == Neg(p);
    }
  }

  /** Of two declarations side by side, the earlier one's edit stands first. */
  ghost predicate InWorktreeOrder(s: Sources, lay: seq<EditOp>) {
    forall a, b, i, j ::
      (0 <= a < |lay| && 0 <= b < |lay| && 0 <= i < j < |s.workOrder| && SideBySide(s, i, j)
       && IsEditOf(s, lay[a], i) && IsEditOf(s, lay[b], j)) ==> a < b
  }

  ghost predicate SideBySide(s: Sources, i: nat, j: nat)
    requires i < |s.workOrder| && j < |s.workOrder|
  {
    && Lookup(s.work, s.workOrder[i]).Found? && Lookup(s.work, s.workOrder[j]).Found?
    && WorkExtent(s, i).end <= WorkExtent(s, j).start
  }

  /** `op` is the edit of a declaration that may be named. */
  ghost predicate IsEditOf(s: Sources, op: EditOp, i: nat)
    requires i < |s.workOrder|
  {
    && Tabled(s) && Ready(s, i)
    && s.Valid() && Classification(s, s.workOrder[i]).Planned? && Classification(s, s.workOrder[i]).op == op
  }

  lemma LaidInWorktreeOrder(s: Sources, lay: seq<EditOp>)
    requires Tabled(s) && NeverLaidBack(lay)
    ensures InWorktreeOrder(s, lay)
  {
    hide Tabled, Ready, Classification;
    forall a, b, i, j | 0 <= a < |lay| && 0 <= b < |lay| && 0 <= i < j < |s.workOrder| && SideBySide(s, i, j)
      && IsEditOf(s, lay[a], i) && IsEditOf(s, lay[b], j)
      ensures a < b
    {
      OpsLaidInOrder(s, i, j);
    }
  }

  // ----- a batch of named anchors -----

  /** An extent that neither starts nor ends with a newline. */
  predicate SolidExtent(src: Text, e: Extent) {
    e.start < e.end <= |src| && src[e.start] != NL && src[e.end - 1] != NL
  }

  /** No shared declaration's HEAD extent starts or ends with a newline. */
  ghost predicate SolidHead(s: Sources) {
    forall i :: 0 <= i < |s.workOrder| && Common(s, i) ==> SolidExtent(s.headSrc, HeadExtent(s, i))
  }

  /** A symbol HEAD alone has. */
  ghost predicate HeadOnly(s: Sources, anchor: string) {
    && Lookup(s.head, anchor).Found? && Lookup(s.work, anchor).Unresolvable?
    && ProperExtent(s.headSrc, Lookup(s.head, anchor).res.extent)
  }

  /** A region of the worktree without an entry in the table, such as a pseudo-anchor's: new
      in the file, or lying among the same shared declarations in HEAD. */
  ghost predicate RegionAt(s: Sources, anchor: string, k: nat) {
    && Tabled(s) && s.Valid() && Lookup(s.work, anchor).Found? && Unlisted(s, Lookup(s.work, anchor).res, k)
    && match Lookup(s.head, anchor)
       case Found(res) => ProperExtent(s.headSrc, res.extent) && Between(s, res.extent, k)
       case Unresolvable =>
         var res := Lookup(s.work, anchor).res;
         && Escalation(s, res) == Widened(res, false, false) && Settled(s, res, k)
         && (|| k == |s.workOrder| || !Common(s, k) || exists c :: 0 <= c < k && Common(s, c))
       case _ => false
  }

  /** In HEAD the extent lies after what is shared before `k` and before the rest. */
  ghost predicate Between(s: Sources, e: Extent, k: nat)
    requires k <= |s.workOrder|
  {
    && (forall c :: 0 <= c < k && Common(s, c) ==> HeadExtent(s, c).end <= e.start)
    && (forall c :: k <= c < |s.workOrder| && Common(s, c) ==> e.end <= HeadExtent(s, c).start)
  }

  ghost predicate IsRegion(s: Sources, anchor: string) {
    exists k :: RegionAt(s, anchor, k)
  }

  ghost predicate IsListed(s: Sources, op: EditOp, anchor: string) {
    exists i :: 0 <= i < |s.workOrder| && s.workOrder[i] == anchor && IsEditOf(s, op, i)
  }

  ghost predicate Edits(s: Sources, op: EditOp, anchor: string) {
    && s.Valid() && Classification(s, anchor).Planned? && op == Classification(s, anchor).op
    && (HeadOnly(s, anchor) || IsListed(s, op, anchor) || IsRegion(s, anchor))
  }

  /** The edits of the named anchors, in the order they are named: shared symbols, new
      ones whose guard holds, symbols HEAD alone has, and regions without an entry. */
  ghost predicate Names(s: Sources, ops: seq<EditOp>, named: seq<string>) {
    |ops| == |named| && forall k :: 0 <= k < |named| ==> Edits(s, ops[k], named[k])
  }

  /** No range that is named ends with a newline, and no shared declaration in HEAD. */
  ghost predicate SolidEnds(s: Sources, ops: seq<EditOp>) {
    && SolidHead(s)
    && forall op <- ops :: IsRange(op) ==> 0 < op.end <= |s.headSrc| && s.headSrc[op.end - 1] != NL
  }

  /** No named symbol is placed inside one that is named to be deleted. */
  ghost predicate OutsideDeleted(ops: seq<EditOp>) {
    forall i <- ops, d <- ops :: i.kind.Insert? && d.kind.Delete? ==> !(d.start < i.start < d.end)
  }

  // ----- batches are sound -----

  /** A place in HEAD next to a byte that is no newline, or an end of the file. */
  predicate FirmPlace(head: Text, p: nat) {
    p == 0 || p >= |head| || head[p - 1] != NL || head[p] != NL
  }

  ghost predicate FirmEdit(head: Text, op: EditOp)
    requires op.start <= op.End() <= |head| && (IsRange(op) ==> op.start < op.end)
  {
    if IsRange(op) then head[op.end - 1] != NL else FirmPlace(head, op.start)
  }

  lemma AnchorCons(head: Text, op: EditOp, rest: seq<EditOp>)
    requires Ascending(head, rest) && AllAnchored(head, rest)
    requires StartOf(head, rest) <= |head| && op.start <= op.End() <= StartOf(head, rest) && Anchored(head, op, rest)
    ensures Ascending(head, [op] + rest) && AllAnchored(head, [op] + rest)
  {
    AscendCons(head, op, rest);
    AscendingBounds(head, rest);
    assert ([op] + rest)[1..] == rest;
  }

  lemma AnchorNil(head: Text)
    ensures Ascending(head, []) && AllAnchored(head, [])
  {
  }

  lemma {:induction false} FirmIsAnchored(head: Text, kept: seq<EditOp>, p: nat)
    requires WellFormed(head, kept) && PairwiseDisjoint(kept) && NoStraddle(kept) && p <= |head| + 1
    requires forall op <- kept :: FirmEdit(head, op)
    ensures Ascending(head, MergedLayout(kept, p, |head|)) && AllAnchored(head, MergedLayout(kept, p, |head|))
    decreases |head| + 1 - p
  {
    hide RangesAt, PairwiseDisjoint, NoStraddle, MergedAt, Ascending, AllAnchored, Anchored, Stems;
    if p <= |head| {
      FirmIsAnchored(head, kept, p + 1);
      LayoutStart(head, kept, p + 1);
      MergedAtShape(kept, p);
      var above, r, m := MergedLayout(kept, p + 1, |head|), RangesAt(kept, p), MergedAt(kept, p);
      FirmRange(head, kept, p, above);
      AscendingBounds(head, r + above);
      Assoc(m, r, above);
      if m == [] {
        assert m + (r + above) == r + above;
      } else {
        assert m[0] in m && m == [m[0]];
        OneRangeAt(head, kept, p);
        FirmAnchors(head, m[0], r, above);
        AnchorCons(head, m[0], r + above);
      }
    } else {
      AnchorNil(head);
    }
  }

  lemma FirmRange(head: Text, kept: seq<EditOp>, p: nat, above: seq<EditOp>)
    requires WellFormed(head, kept) && PairwiseDisjoint(kept) && NoStraddle(kept) && p <= |head|
    requires forall op <- kept :: FirmEdit(head, op)
    requires Ascending(head, above) && AllAnchored(head, above)
    requires above == [] || (above[0].start > p && Stems(kept, above[0]))
    ensures
      var asc := RangesAt(kept, p) + above;
      Ascending(head, asc) && AllAnchored(head, asc) && p <= StartOf(head, asc)
  {
    hide RangesAt, PairwiseDisjoint, NoStraddle, Ascending, AllAnchored, Stems;
    RangeAscends(head, kept, p, above);
    OneRangeAt(head, kept, p);
    AscendingBounds(head, above);
    var r := RangesAt(kept, p);
    if r == [] {
      assert r + above == above;
    } else {
      assert r[0] in r && r == [r[0]];
      RangeEndsBelow(head, kept, r[0], above);
      AnchorCons(head, r[0], above);
    }
  }

  lemma FirmAnchors(head: Text, m: EditOp, r: seq<EditOp>, above: seq<EditOp>)
    requires m.kind.Insert? && FirmPlace(head, m.start)
    requires Ascending(head, r + above) && m.start <= StartOf(head, r + above) <= |head|
    requires |r| <= 1 && forall op <- r :: IsRange(op) && op.start == m.start
    requires above == [] || above[0].start > m.start
    ensures Anchored(head, m, r + above)
  {
    if r != [] {
      assert r[0] in r;
    } else {
      assert r + above == above;
      if above != [] && m.start > 0 && head[m.start - 1] == NL {
        assert head[m.start..above[0].start][0] == head[m.start];
      }
    }
  }

  lemma IsSolid(s: Sources, i: nat)
    requires SolidHead(s) && i < |s.workOrder| && Common(s, i)
    ensures SolidExtent(s.headSrc, HeadExtent(s, i))
  {
  }

  lemma InsertFirm(s: Sources, res: Resolution, k: nat)
    requires Tabled(s) && SolidHead(s) && TableIndex(s, res) == k <= |s.workOrder| && s.Valid()
    ensures FirmPlace(s.headSrc, Position(s, res)) && Position(s, res) <= |s.headSrc|
  {
    hide Tabled, TableIndex, Position, EnclosesInWork, SolidHead, LineBegin, BodyEnd;
    TabledIsValid(s);
    PositionCases(s, res, k);
    var i, j := PrevInHead(s, k), NextInHead(s, k + 1);
    if j < |s.workOrder| {
      IsSolid(s, j);
      LineBeginFirm(s.headSrc, HeadExtent(s, j).start);
    }
    if i > 0 {
      IsSolid(s, i - 1);
      BodyEndFirm(s.headSrc, HeadExtent(s, i - 1));
    }
  }

  lemma LineBeginFirm(src: Text, p: nat)
    requires p < |src| && src[p] != NL
    ensures FirmPlace(src, LineBegin(src, p)) && LineBegin(src, p) <= |src|
  {
    var b := LineBegin(src, p);
    if b < p {
      assert src[b] in src[b..p];
    }
  }

  lemma BodyEndFirm(src: Text, e: Extent)
    requires SolidExtent(src, e)
    ensures FirmPlace(src, BodyEnd(src, e)) && BodyEnd(src, e) <= |src|
  {
    var end := TrimSpace(src, e.start, e.end);
    if end != e.start && Closes(src[end - 1]) {
      var b := LineBeginFrom(src, e.start, end - 1);
      if b < end - 1 {
        assert src[b] in src[b..end - 1];
      }
    }
  }

  /** What a region without an entry classifies to. */
  lemma RegionIs(s: Sources, anchor: string, k: nat)
    requires RegionAt(s, anchor, k)
    ensures Tabled(s) && s.Valid() && s.headExists && Classification(s, anchor).Planned? && k <= |s.workOrder|
    ensures Lookup(s.work, anchor).Found? && Sits(s, Lookup(s.work, anchor).res, k)
    ensures TableIndex(s, Lookup(s.work, anchor).res) == k
    ensures
      var op, h := Classification(s, anchor).op, Lookup(s.head, anchor);
      if h.Found? then
        && op.kind.Replace? && op.start == h.res.extent.start < op.end == h.res.extent.end <= |s.headSrc|
        && Between(s, h.res.extent, k)
      else
        && op.kind.Insert? && op.start == Position(s, Lookup(s.work, anchor).res)
        && Settled(s, Lookup(s.work, anchor).res, k) && SeesNext(s, Lookup(s.work, anchor).res, k)
  {
    hide Tabled, Position, LineStart, RunBefore, RunAfter, TableIndex, Settled, EnclosesInWork, Between;
    TabledIsValid(s);
    UnlistedSits(s, Lookup(s.work, anchor).res, k);
    if Lookup(s.head, anchor).Unresolvable? && k < |s.workOrder| && Common(s, k) {
      var c :| 0 <= c < k && Common(s, c);
      assert PrevInHead(s, k) > c;
      assert !EnclosesInWork(s, s.workOrder[PrevInHead(s, k) - 1], Lookup(s.work, anchor).res);
    }
  }

  lemma EditProper(s: Sources, op: EditOp, anchor: string)
    requires Tabled(s) && Edits(s, op, anchor)
    ensures op.start <= op.End() <= |s.headSrc| && (IsRange(op) ==> op.start < op.end) && op.GapsAreNewlines()
  {
    hide Tabled, Ready, Position, TableIndex, Classification, RegionAt, LineStart;
    PlannedInBounds(s, anchor);
    TabledIsValid(s);
    if HeadOnly(s, anchor) {
      DeletedIs(s, anchor);
    } else if IsListed(s, op, anchor) {
      var i :| 0 <= i < |s.workOrder| && s.workOrder[i] == anchor && IsEditOf(s, op, i);
      ReadyIs(s, i);
      OwnEdit(s, i);
      Entry(s, i);
    } else {
      var k :| RegionAt(s, anchor, k);
      RegionIs(s, anchor, k);
    }
  }

  lemma PlaceFirm(s: Sources, op: EditOp, anchor: string)
    requires Tabled(s) && SolidHead(s) && Edits(s, op, anchor) && op.kind.Insert?
    ensures FirmPlace(s.headSrc, op.start)
  {
    hide Tabled, Ready, Position, TableIndex, Classification, RegionAt, LineStart, FirmPlace, SolidHead;
    TabledIsValid(s);
    if HeadOnly(s, anchor) {
      DeletedIs(s, anchor);
    } else if IsListed(s, op, anchor) {
      var i :| 0 <= i < |s.workOrder| && s.workOrder[i] == anchor && IsEditOf(s, op, i);
      ReadyIs(s, i);
      OwnEdit(s, i);
      if !Common(s, i) {
        InsertFirm(s, Lookup(s.work, anchor).res, i);
      }
    } else {
      var k :| RegionAt(s, anchor, k);
      RegionIs(s, anchor, k);
      InsertFirm(s, Lookup(s.work, anchor).res, k);
    }
  }

  lemma DeletedIs(s: Sources, anchor: string)
    requires s.Valid() && s.headExists && s.workExists && HeadOnly(s, anchor)
    ensures Classification(s, anchor).Planned?
    ensures
      var op, e := Classification(s, anchor).op, Lookup(s.head, anchor).res.extent;
      && op.kind.Delete? && op.start <= e.start < e.end == op.end <= |s.headSrc|
  {
    hide Position, LineStart;
  }

  lemma BatchProper(s: Sources, ops: seq<EditOp>, named: seq<string>)
    requires Tabled(s) && Names(s, ops, named)
    ensures WellFormed(s.headSrc, ops) && NewlineGaps(ops)
  {
    hide Tabled, Edits;
    forall op | op in ops
      ensures op.start <= op.End() <= |s.headSrc| && (IsRange(op) ==> op.start < op.end) && op.GapsAreNewlines()
    {
      var k :| 0 <= k < |ops| && ops[k] == op;
      EditProper(s, op, named[k]);
    }
  }

  lemma BatchFirm(s: Sources, ops: seq<EditOp>, named: seq<string>)
    requires Tabled(s) && SolidEnds(s, ops) && Names(s, ops, named)
    ensures WellFormed(s.headSrc, ops) && NewlineGaps(ops)
    ensures forall op <- ops :: FirmEdit(s.headSrc, op)
  {
    hide Tabled, Edits, FirmPlace, SolidHead;
    BatchProper(s, ops, named);
    forall op | op in ops
      ensures FirmEdit(s.headSrc, op)
    {
      var k :| 0 <= k < |ops| && ops[k] == op;
      if op.kind.Insert? {
        PlaceFirm(s, op, named[k]);
      }
    }
  }

  // ----- no kept range is straddled -----

  lemma KeptUnstraddled(s: Sources, ops: seq<EditOp>, named: seq<string>)
    requires Tabled(s) && Names(s, ops, named) && OutsideDeleted(ops)
    ensures NoStraddle(Coalesced(ops))
  {
    hide Tabled, Ready, Coalesced, Classification, Swallows, Edits;
    CoalescedAccounts(ops);
    BatchProper(s, ops, named);
    forall r, i | r in Coalesced(ops) && i in Coalesced(ops) && IsRange(r) && i.kind.Insert?
      ensures !(r.start < i.start < r.end)
    {
      var a :| 0 <= a < |ops| && ops[a] == r;
      var b :| 0 <= b < |ops| && ops[b] == i;
      KeptApart(ops, r, i);
      InsideIsSwallowed(s, r, i, named[a], named[b]);
    }
  }

  /** An insertion that lands inside a named range is part of it, unless that is a deletion. */
  lemma InsideIsSwallowed(s: Sources, r: EditOp, i: EditOp, a: string, b: string)
    requires Tabled(s) && Edits(s, r, a) && Edits(s, i, b) && IsRange(r) && i.kind.Insert?
    ensures r.start < i.start < r.end && r.kind.Replace? ==> Swallows(r, i)
  {
    hide Tabled, Ready, Classification, RegionAt, IsListed, Swallows;
    TabledIsValid(s);
    if HeadOnly(s, b) {
      DeletedIs(s, b);
    } else if HeadOnly(s, a) {
      DeletedIs(s, a);
    } else if IsListed(s, r, a) {
      InsideListed(s, r, i, a, b);
    } else {
      OutsideRegion(s, r, i, a, b);
    }
  }

  lemma InsideListed(s: Sources, r: EditOp, i: EditOp, a: string, b: string)
    requires Tabled(s) && IsListed(s, r, a) && Edits(s, i, b) && IsRange(r) && i.kind.Insert? && !HeadOnly(s, b)
    ensures r.start < i.start < r.end ==> Swallows(r, i)
  {
    hide Tabled, Ready, Classification, RegionAt, TableIndex, Settled, Position, SeesNext, HeadOnly;
    var c :| 0 <= c < |s.workOrder| && s.workOrder[c] == a && IsEditOf(s, r, c);
    ReadyIs(s, c);
    OwnEdit(s, c);
    if IsListed(s, i, b) {
      var k :| 0 <= k < |s.workOrder| && s.workOrder[k] == b && IsEditOf(s, i, k);
      ReadyIs(s, k);
      OwnEdit(s, k);
      NewAmongShared(s, k, c);
    } else {
      var k :| RegionAt(s, b, k);
      RegionIs(s, b, k);
      RegionOutside(s, b, k, c);
    }
  }

  /** A new region without an entry never lands inside a shared declaration. */
  lemma RegionOutside(s: Sources, anchor: string, k: nat, c: nat)
    requires RegionAt(s, anchor, k) && !Lookup(s.head, anchor).Found? && c < |s.workOrder| && Common(s, c)
    ensures s.Valid() && Lookup(s.work, anchor).Found?
    ensures !(HeadExtent(s, c).start < Position(s, Lookup(s.work, anchor).res) < HeadExtent(s, c).end)
  {
    hide Tabled, TableIndex, Settled, Position, SeesNext, Sits;
    RegionIs(s, anchor, k);
    var res := Lookup(s.work, anchor).res;
    if c < k {
      BeforePlace(s, res, k, c);
    } else {
      AfterPlace(s, res, k, c);
    }
  }

  lemma OutsideRegion(s: Sources, r: EditOp, i: EditOp, a: string, b: string)
    requires Tabled(s) && IsRegion(s, a) && Edits(s, r, a) && Edits(s, i, b) && IsRange(r) && i.kind.Insert? && !HeadOnly(s, b)
    ensures !(r.start < i.start < r.end)
  {
    hide Tabled, Ready, Classification, RegionAt, TableIndex, Settled, Position, SeesNext, Sits, Between, HeadOnly;
    var m :| RegionAt(s, a, m);
    RegionIs(s, a, m);
    var e := Lookup(s.head, a).res.extent;
    if IsListed(s, i, b) {
      var k :| 0 <= k < |s.workOrder| && s.workOrder[k] == b && IsEditOf(s, i, k);
      ReadyIs(s, k);
      OwnEdit(s, k);
      PlaceOutside(s, Lookup(s.work, b).res, k, e, m);
    } else {
      var k :| RegionAt(s, b, k);
      RegionIs(s, b, k);
      PlaceOutside(s, Lookup(s.work, b).res, k, e, m);
    }
  }

  /** Every place is at a shared declaration, or in a container, or at the end of the file. */
  lemma PlaceOutside(s: Sources, res: Resolution, k: nat, e: Extent, m: nat)
    requires Tabled(s) && Sits(s, res, k) && TableIndex(s, res) == k <= |s.workOrder| && s.Valid() && Settled(s, res, k)
    requires e.start < e.end <= |s.headSrc| && m <= |s.workOrder| && Between(s, e, m)
    ensures !(e.start < Position(s, res) < e.end)
  {
    hide Tabled, TableIndex, Settled, Position, Sits, EnclosesInWork, LineBegin, BodyEnd;
    TabledIsValid(s);
    PositionCases(s, res, k);
    InsideFrom(s, res, k);
    var i, j := PrevInHead(s, k), NextInHead(s, k + 1);
    if i > 0 {
      Entry(s, i - 1);
      assert Common(s, i - 1);
    } else if j < |s.workOrder| {
      Entry(s, j);
      assert Common(s, j);
    }
  }

  /** Where the layout stands: its edits are named ones, every named one is among them or
      carried by one of them, and symbols that stand side by side appear in worktree order. */
  ghost predicate LaysOut(s: Sources, lay: seq<EditOp>, ops: seq<EditOp>) {
    && (forall op <- lay :: op in ops)
    && (forall op <- ops :: op in lay || exists k <- lay :: Swallows(k, op))
    && InWorktreeOrder(s, lay)
  }

  lemma BatchLaidOut(s: Sources, ops: seq<EditOp>, named: seq<string>)
    requires Tabled(s) && Names(s, ops, named) && OutsideDeleted(ops)
    ensures WellFormed(s.headSrc, ops) && NewlineGaps(ops) && NoStraddle(Coalesced(ops))
    ensures LaysOut(s, Layout(Coalesced(ops), 0, |s.headSrc|), ops)
  {
    hide Tabled, Names, Layout, PairwiseDisjoint, Swallows, InWorktreeOrder, Coalesced, OutsideDeleted, NoStraddle;
    var head, kept := s.headSrc, Coalesced(ops);
    CoalescedAccounts(ops);
    BatchProper(s, ops, named);
    KeptUnstraddled(s, ops, named);
    LayoutInOrder(head, kept, 0);
    LaidInWorktreeOrder(s, Layout(kept, 0, |head|));
  }

  /** Any set of anchors of a file, named in any order: replacements, insertions and
      deletions together are applied in bounds. The blob is the untouched HEAD segments
      and the kept edits' texts, each complete up to newlines at the seams; every named
      symbol is among them or carried by one of them; and symbols that stand side by side
      appear in worktree order. */
  lemma BatchInWorktreeOrder(s: Sources, ops: seq<EditOp>, named: seq<string>)
    requires Tabled(s) && SolidEnds(s, ops) && Names(s, ops, named) && OutsideDeleted(ops)
    ensures WellFormed(s.headSrc, ops) && Applied(s.headSrc, ops).Some?
    ensures
      var lay := Layout(Coalesced(ops), 0, |s.headSrc|);
      Spaced(Applied(s.headSrc, ops).value, Segments(s.headSrc, lay)) && LaysOut(s, lay, ops)
  {
    hide Spaced, AllAnchored, Clear, Ascending, Tabled, Names, Sound, Applied, Layout, MergedLayout, FirmEdit,
      PairwiseDisjoint, LaysOut, Coalesced, SolidEnds, OutsideDeleted, NoStraddle;
    var head, kept := s.headSrc, Coalesced(ops);
    CoalescedAccounts(ops);
    BatchFirm(s, ops, named);
    BatchLaidOut(s, ops, named);
    KeptLikewise(head, ops, kept);
    FirmIsAnchored(head, kept, 0);
    AnchoredIsSound(head, ops);
    SoundIsWellFormed(head, ops);
    SynthesisRefinesSubstitution(head, ops);
  }

  /** Extents that may end in newlines, as Markdown sections do. With every insertion placed
      within what the edits above it leave, the same blob comes out, newlines aside, exactly
      when each kept range ends within HEAD's bytes as the edits above leave them; if not,
      synthesis panics or loses content. */
  lemma BatchLosesNothingIff(s: Sources, ops: seq<EditOp>, named: seq<string>)
    requires Tabled(s) && Names(s, ops, named) && OutsideDeleted(ops)
    requires WellFormed(s.headSrc, ops) ==> Weighty(s.headSrc, ops)
    requires Ascending(s.headSrc, MergedLayout(Coalesced(ops), 0, |s.headSrc|)) ==>
               InsertsFit(s.headSrc, MergedLayout(Coalesced(ops), 0, |s.headSrc|))
    ensures WellFormed(s.headSrc, ops) && Ascending(s.headSrc, MergedLayout(Coalesced(ops), 0, |s.headSrc|))
    ensures LaysOut(s, Layout(Coalesced(ops), 0, |s.headSrc|), ops)
    ensures
      && Applied(s.headSrc, ops).Some?
      && Erase(Applied(s.headSrc, ops).value) == Erase(Flatten(Segments(s.headSrc, Layout(Coalesced(ops), 0, |s.headSrc|))))
      <==> RangesFit(s.headSrc, MergedLayout(Coalesced(ops), 0, |s.headSrc|))
  {
    hide Ascending, Tabled, Names, Applied, Layout, MergedLayout, PairwiseDisjoint, LaysOut, Coalesced, OutsideDeleted,
      NoStraddle, InsertsFit, RangesFit, Weighty, Erase, Segments;
    BatchLaidOut(s, ops, named);
    SynthesisLosesNothingIff(s.headSrc, ops);
  }

  /** Symbols that stand side by side all survive coalescing. */
  lemma SideBySideSurvive(s: Sources, i: nat, j: nat)
    requires Tabled(s) && i < |s.workOrder| && j < |s.workOrder| && Ready(s, i) && Ready(s, j)
    requires SideBySide(s, i, j) || SideBySide(s, j, i)
    ensures s.Valid() && Classification(s, s.workOrder[i]).Planned? && Classification(s, s.workOrder[j]).Planned?
    ensures !Swallows(OpFor(s, i), OpFor(s, j))
  {
    hide Tabled, Ready, Classification;
    ReadyIs(s, i);
    ReadyIs(s, j);
    OwnEdit(s, i);
    OwnEdit(s, j);
    if i < j {
      Pair(s, i, j);
    } else {
      Pair(s, j, i);
    }
  }

  lemma SoundIsWellFormed(head: Text, ops: seq<EditOp>)
    requires Sound(head, ops)
    ensures WellFormed(head, ops)
  {
  }

  lemma KeptLikewise(head: Text, ops: seq<EditOp>, kept: seq<EditOp>)
    requires WellFormed(head, ops) && forall op <- ops :: FirmEdit(head, op)
    requires forall op <- kept :: op in ops
    ensures WellFormed(head, kept) && forall op <- kept :: FirmEdit(head, op)
  {
    hide FirmEdit;
  }
}
