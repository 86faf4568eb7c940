/** Declaration tables with members in them, and where a new symbol lands in one. */
module Tables {
  import opened Bytes
  import opened Splice
  import opened Placement

  function WorkExtent(s: Sources, i: nat): Extent
    requires i < |s.workOrder| && Lookup(s.work, s.workOrder[i]).Found?
  {
    Lookup(s.work, s.workOrder[i]).res.extent
  }

  predicate Common(s: Sources, i: nat)
    requires i < |s.workOrder|
  {
    Lookup(s.head, s.workOrder[i]).Found?
  }

  function HeadExtent(s: Sources, i: nat): Extent
    requires i < |s.workOrder| && Common(s, i)
  {
    Lookup(s.head, s.workOrder[i]).res.extent
  }

  predicate ProperExtent(src: Text, e: Extent) {
    e.start < e.end <= |src|
  }

  ghost predicate Listed(s: Sources, i: nat)
    requires i < |s.workOrder|
  {
    && Lookup(s.work, s.workOrder[i]).Found?
    && Lookup(s.work, s.workOrder[i]).res.anchor == s.workOrder[i]
    && ProperExtent(s.workSrc, WorkExtent(s, i))
    && if Common(s, i) then ProperExtent(s.headSrc, HeadExtent(s, i)) else Lookup(s.head, s.workOrder[i]).Unresolvable?
  }

  /** The `j`th entry lies inside the `i`th or after it, and in HEAD likewise. */
  ghost predicate PairInOrder(s: Sources, i: nat, j: nat)
    requires i < |s.workOrder| && j < |s.workOrder| && Listed(s, i) && Listed(s, j)
  {
    && (WorkExtent(s, j).Within(WorkExtent(s, i)) || WorkExtent(s, i).end <= WorkExtent(s, j).start)
    && (Common(s, i) && Common(s, j) ==>
          if WorkExtent(s, j).Within(WorkExtent(s, i)) then HeadExtent(s, j).Within(HeadExtent(s, i))
          else HeadExtent(s, i).end <= HeadExtent(s, j).start)
  }

  /** A tracked file. A container is listed ahead of its members, any two declarations
      are nested or apart, and the ones both sides have nest alike and stand in one
      order. A name not shared is absent from HEAD, not ambiguous. */
  ghost predicate Tabled(s: Sources) {
    && s.Valid() && s.headExists && s.workExists
    && (forall i, j :: 0 <= i < j < |s.workOrder| ==> s.workOrder[i] != s.workOrder[j])
    && (forall i :: 0 <= i < |s.workOrder| ==> Listed(s, i))
    && (forall i, j :: 0 <= i < j < |s.workOrder| ==> PairInOrder(s, i, j))
  }

  lemma Entry(s: Sources, i: nat)
    requires Tabled(s) && i < |s.workOrder|
    ensures s.Valid() && s.headExists && s.workExists && Lookup(s.work, s.workOrder[i]).Found?
    ensures Lookup(s.work, s.workOrder[i]).res.anchor == s.workOrder[i]
    ensures ProperExtent(s.workSrc, WorkExtent(s, i))
    ensures Common(s, i) ==> ProperExtent(s.headSrc, HeadExtent(s, i))
    ensures !Common(s, i) ==> Lookup(s.head, s.workOrder[i]).Unresolvable?
  {
    assert Listed(s, i);
  }

  lemma Pair(s: Sources, i: nat, j: nat)
    requires Tabled(s) && i < j < |s.workOrder|
    ensures Lookup(s.work, s.workOrder[i]).Found? && Lookup(s.work, s.workOrder[j]).Found?
    ensures WorkExtent(s, i).start < WorkExtent(s, i).end && WorkExtent(s, j).start < WorkExtent(s, j).end
    ensures WorkExtent(s, j).Within(WorkExtent(s, i)) || WorkExtent(s, i).end <= WorkExtent(s, j).start
    ensures Common(s, i) && Common(s, j) ==>
              if WorkExtent(s, j).Within(WorkExtent(s, i)) then HeadExtent(s, j).Within(HeadExtent(s, i))
              else HeadExtent(s, i).end <= HeadExtent(s, j).start
    ensures Common(s, i) ==> HeadExtent(s, i).start < HeadExtent(s, i).end <= |s.headSrc|
    ensures Common(s, j) ==> HeadExtent(s, j).start < HeadExtent(s, j).end <= |s.headSrc|
  {
    assert Listed(s, i) && Listed(s, j) && PairInOrder(s, i, j);
  }

  // ----- where a new region lands -----

  /** A region of the worktree in its place in the table: what is listed before `k`
      holds it or ends before it, what is shared from `k` on lies in it or after it. */
  ghost predicate Sits(s: Sources, res: Resolution, k: nat) {
    && k <= |s.workOrder| && res.extent.start < res.extent.end
    && (forall c :: 0 <= c < |s.workOrder| ==> Lookup(s.work, s.workOrder[c]).Found?)
    && (forall c :: 0 <= c < k ==>
          res.extent.Within(WorkExtent(s, c)) || WorkExtent(s, c).end <= res.extent.start)
    && (forall c :: k <= c < |s.workOrder| && Common(s, c) ==>
          WorkExtent(s, c).Within(res.extent) || res.extent.end <= WorkExtent(s, c).start)
  }

  lemma PositionCases(s: Sources, res: Resolution, k: nat)
    requires s.Valid() && s.headExists && TableIndex(s, res) == k <= |s.workOrder|
    ensures
      var i, j, pos := PrevInHead(s, k), NextInHead(s, k + 1), Position(s, res);
      && (i == 0 && j < |s.workOrder| ==> pos == HeadExtent(s, j).start)
      && (i == 0 && j >= |s.workOrder| ==> pos == |s.headSrc|)
      && (i > 0 && !EnclosesInWork(s, s.workOrder[i - 1], res) ==> pos == HeadExtent(s, i - 1).end)
    ensures
      var i, j := PrevInHead(s, k), NextInHead(s, k + 1);
      i > 0 && EnclosesInWork(s, s.workOrder[i - 1], res) ==>
        var e := HeadExtent(s, i - 1);
        && e.start <= e.end <= |s.headSrc|
        && if j < |s.workOrder| && HeadExtent(s, j).Within(e)
           then HeadExtent(s, j).start <= |s.headSrc| && Position(s, res) == LineBegin(s.headSrc, HeadExtent(s, j).start)
           else Position(s, res) == BodyEnd(s.headSrc, e)
  {
    hide TableIndex, EnclosesInWork, LineBegin, BodyEnd;
    var i := PrevInHead(s, k);
    if i > 0 {
      FoundInBounds(s, s.workOrder[i - 1]);
      var j := NextInHead(s, k + 1);
      if j < |s.workOrder| {
        FoundInBounds(s, s.workOrder[j]);
      }
    }
  }

  /** The guard of a sound place. Next to a shared sibling: whatever container that
      sibling closes and the new region is not in ends there too. Inside a shared
      container, ahead of a shared member: that member does not start on the line the
      container opens on, unless the container begins its own line. */
  ghost predicate Settled(s: Sources, res: Resolution, k: nat)
    requires s.Valid() && k <= |s.workOrder|
    requires forall c :: 0 <= c < |s.workOrder| ==> Lookup(s.work, s.workOrder[c]).Found?
  {
    var i, j := PrevInHead(s, k), NextInHead(s, k + 1);
    i == 0 ||
    var e := HeadExtent(s, i - 1);
    if !EnclosesInWork(s, s.workOrder[i - 1], res) then
      forall c :: 0 <= c < i && Common(s, c) && !res.extent.Within(WorkExtent(s, c)) && e.Within(HeadExtent(s, c)) ==>
        HeadExtent(s, c).end == e.end
    else j < |s.workOrder| && HeadExtent(s, j).Within(e) ==> OpensOwnLine(s.headSrc, e.start, HeadExtent(s, j).start)
  }

  /** The forward walk starts one past `k`: no matter when nothing shared stands there, or
      when the walk is not taken. */
  ghost predicate SeesNext(s: Sources, res: Resolution, k: nat)
    requires k <= |s.workOrder|
  {
    || k == |s.workOrder| || !Common(s, k)
    || (PrevInHead(s, k) > 0 && !EnclosesInWork(s, s.workOrder[PrevInHead(s, k) - 1], res))
  }

  predicate OpensOwnLine(src: Text, start: nat, member: nat) {
    start <= member <= |src| ==> LineBegin(src, start) == start || NL in src[start..member]
  }

  /** `pos` is where the worktree has the region, as far as shared declarations tell:
      after those that end before it, before those that start after it, and within
      those that hold it. */
  ghost predicate InPlace(s: Sources, res: Resolution, pos: nat)
    requires forall c :: 0 <= c < |s.workOrder| ==> Lookup(s.work, s.workOrder[c]).Found?
  {
    forall c :: 0 <= c < |s.workOrder| && Common(s, c) ==> PlacedBy(s, res, pos, c)
  }

  ghost predicate PlacedBy(s: Sources, res: Resolution, pos: nat, c: nat)
    requires c < |s.workOrder| && Common(s, c) && Lookup(s.work, s.workOrder[c]).Found?
  {
    && (WorkExtent(s, c).end <= res.extent.start ==> HeadExtent(s, c).end <= pos)
    && (res.extent.end <= WorkExtent(s, c).start ==> pos <= HeadExtent(s, c).start)
    && (EnclosesInWork(s, s.workOrder[c], res) ==> HeadExtent(s, c).start <= pos <= HeadExtent(s, c).end)
  }

  lemma {:induction false} LineBeginSame(src: Text, a: nat, b: nat)
    requires a <= b <= |src|
    ensures LineBegin(src, b) >= a <==> LineBegin(src, a) == a || NL in src[a..b]
    ensures NL !in src[a..b] ==> LineBegin(src, b) == LineBegin(src, a)
    ensures a < LineBegin(src, b) <==> NL in src[a..b]
  {
    if a < b {
      LineBeginSame(src, a, b - 1);
      assert src[a..b] == src[a..b - 1] + [src[b - 1]];
    } else {
      assert src[a..b] == [];
    }
  }

  /** A shared declaration from `k` on never starts before the place. */
  lemma AfterPlace(s: Sources, res: Resolution, k: nat, c: nat)
    requires Tabled(s) && Sits(s, res, k) && TableIndex(s, res) == k && SeesNext(s, res, k)
    requires k <= c < |s.workOrder| && Common(s, c)
    ensures s.Valid() && !(HeadExtent(s, c).start < Position(s, res) < HeadExtent(s, c).end)
    ensures res.extent.end <= WorkExtent(s, c).start ==> Position(s, res) <= HeadExtent(s, c).start
  {
    hide Tabled, TableIndex, Position, BodyEnd, LineBegin, EnclosesInWork;
    Entry(s, c);
    var i := PrevInHead(s, k);
    if i > 0 && !EnclosesInWork(s, s.workOrder[i - 1], res) {
      AfterSibling(s, res, k, c);
    } else {
      PositionCases(s, res, k);
      var j := NextInHead(s, k + 1);
      if j < c {
        Pair(s, j, c);
      }
      if i > 0 {
        Entry(s, i - 1);
        Pair(s, i - 1, j);
        BodyEndWithin(s.headSrc, HeadExtent(s, i - 1));
      }
    }
  }

  lemma AfterSibling(s: Sources, res: Resolution, k: nat, c: nat)
    requires Tabled(s) && Sits(s, res, k) && TableIndex(s, res) == k && PrevInHead(s, k) > 0
    requires !EnclosesInWork(s, s.workOrder[PrevInHead(s, k) - 1], res)
    requires k <= c < |s.workOrder| && Common(s, c)
    ensures s.Valid() && !(HeadExtent(s, c).start < Position(s, res) < HeadExtent(s, c).end)
    ensures res.extent.end <= WorkExtent(s, c).start ==> Position(s, res) <= HeadExtent(s, c).start
  {
    hide Tabled, TableIndex, Position;
    var i := PrevInHead(s, k);
    Entry(s, c);
    Entry(s, i - 1);
    PositionCases(s, res, k);
    Pair(s, i - 1, c);
  }

  /** Nor does one that ends before the region reach past it, where the guard holds. */
  lemma BeforePlace(s: Sources, res: Resolution, k: nat, c: nat)
    requires Tabled(s) && Sits(s, res, k) && TableIndex(s, res) == k
    requires s.Valid() && Settled(s, res, k)
    requires c < k && Common(s, c) && WorkExtent(s, c).end <= res.extent.start
    ensures HeadExtent(s, c).end <= Position(s, res)
  {
    hide Tabled, TableIndex, Position;
    Entry(s, c);
    PositionCases(s, res, k);
    var i, j := PrevInHead(s, k), NextInHead(s, k + 1);
    assert c < i;
    if c < i - 1 {
      Pair(s, c, i - 1);
    }
    InsideFrom(s, res, k);
  }

  /** Inside a shared container the place is not ahead of it, where the guard holds. */
  lemma InsideFrom(s: Sources, res: Resolution, k: nat)
    requires Tabled(s) && Sits(s, res, k) && TableIndex(s, res) == k && s.Valid()
    ensures
      var i, j := PrevInHead(s, k), NextInHead(s, k + 1);
      i > 0 && EnclosesInWork(s, s.workOrder[i - 1], res) ==>
        && Position(s, res) <= HeadExtent(s, i - 1).end
        && (HeadExtent(s, i - 1).start <= Position(s, res) <==> Settled(s, res, k))
  {
    hide Tabled, TableIndex, Position, BodyEnd, LineBegin;
    var i, j := PrevInHead(s, k), NextInHead(s, k + 1);
    if i > 0 && EnclosesInWork(s, s.workOrder[i - 1], res) {
      Entry(s, i - 1);
      PositionCases(s, res, k);
      var e := HeadExtent(s, i - 1);
      if j < |s.workOrder| && HeadExtent(s, j).Within(e) {
        Entry(s, j);
        LineBeginSame(s.headSrc, e.start, HeadExtent(s, j).start);
      } else {
        BodyEndWithin(s.headSrc, e);
      }
    }
  }

  lemma BodyEndWithin(src: Text, e: Extent)
    requires e.start <= e.end <= |src|
    ensures e.start <= BodyEnd(src, e) <= e.end
  {
  }

  lemma HoldingPlace(s: Sources, res: Resolution, k: nat, c: nat)
    requires Tabled(s) && Sits(s, res, k) && TableIndex(s, res) == k && SeesNext(s, res, k)
    requires s.Valid() && Settled(s, res, k)
    requires c < |s.workOrder| && Common(s, c) && EnclosesInWork(s, s.workOrder[c], res)
    ensures HeadExtent(s, c).start <= Position(s, res) <= HeadExtent(s, c).end
  {
    hide Tabled, TableIndex, Position, Settled;
    Entry(s, c);
    PositionCases(s, res, k);
    InsideFrom(s, res, k);
    var i, j := PrevInHead(s, k), NextInHead(s, k + 1);
    assert c < k && c < i;
    if c < i - 1 {
      Pair(s, c, i - 1);
    }
  }

  /** A new region is in place exactly when its guard holds. */
  lemma PlacedIff(s: Sources, res: Resolution, k: nat)
    requires Tabled(s) && Sits(s, res, k) && TableIndex(s, res) == k && SeesNext(s, res, k)
    ensures s.Valid() && (InPlace(s, res, Position(s, res)) <==> Settled(s, res, k))
  {
    hide Tabled, TableIndex, Position, EnclosesInWork, Settled;
    assert s.Valid() by {
      TabledIsValid(s);
    }
    if Settled(s, res, k) {
      forall c | 0 <= c < |s.workOrder| && Common(s, c)
        ensures PlacedBy(s, res, Position(s, res), c)
      {
        OnePlaced(s, res, k, c);
      }
    } else {
      var c := Misplaced(s, res, k);
      assert !PlacedBy(s, res, Position(s, res), c);
    }
  }

  lemma TabledIsValid(s: Sources)
    requires Tabled(s)
    ensures s.Valid() && s.headExists && s.workExists
  {
  }

  lemma OnePlaced(s: Sources, res: Resolution, k: nat, c: nat)
    requires Tabled(s) && Sits(s, res, k) && TableIndex(s, res) == k && SeesNext(s, res, k)
    requires s.Valid() && Settled(s, res, k) && c < |s.workOrder| && Common(s, c)
    ensures PlacedBy(s, res, Position(s, res), c)
  {
    hide Tabled, TableIndex, Position, EnclosesInWork, Settled;
    Entry(s, c);
    if c >= k {
      AfterPlace(s, res, k, c);
    } else if WorkExtent(s, c).end <= res.extent.start {
      BeforePlace(s, res, k, c);
    }
    if EnclosesInWork(s, s.workOrder[c], res) {
      HoldingPlace(s, res, k, c);
    }
  }

  lemma Misplaced(s: Sources, res: Resolution, k: nat) returns (c: nat)
    requires Tabled(s) && Sits(s, res, k) && TableIndex(s, res) == k && s.Valid() && !Settled(s, res, k)
    ensures c < |s.workOrder| && Common(s, c) && !PlacedBy(s, res, Position(s, res), c)
  {
    hide Tabled, TableIndex, Position, EnclosesInWork;
    assert s.headExists by {
      TabledIsValid(s);
    }
    PositionCases(s, res, k);
    var i := PrevInHead(s, k);
    var e := HeadExtent(s, i - 1);
    if EnclosesInWork(s, s.workOrder[i - 1], res) {
      InsideFrom(s, res, k);
      c := i - 1;
    } else {
      c :| 0 <= c < i && Common(s, c) && !res.extent.Within(WorkExtent(s, c)) && e.Within(HeadExtent(s, c))
           && HeadExtent(s, c).end != e.end;
    }
  }

  // ----- a new declaration of the table -----

  lemma IndexOfDistinct(order: seq<string>, i: nat)
    requires i < |order| && forall a, b :: 0 <= a < b < |order| ==> order[a] != order[b]
    ensures IndexOf(order, order[i]) == i
  {
    var k := IndexOf(order, order[i]);
    assert k <= i;
  }

  lemma ListedSits(s: Sources, k: nat)
    requires Tabled(s) && k < |s.workOrder| && !Common(s, k)
    ensures Lookup(s.work, s.workOrder[k]).Found?
    ensures
      var res := Lookup(s.work, s.workOrder[k]).res;
      Sits(s, res, k) && TableIndex(s, res) == k && SeesNext(s, res, k)
  {
    Entry(s, k);
    IndexOfDistinct(s.workOrder, k);
    hide Tabled, TableIndex;
    forall c | 0 <= c < |s.workOrder|
      ensures Lookup(s.work, s.workOrder[c]).Found?
    {
      Entry(s, c);
    }
    forall c | 0 <= c < |s.workOrder| && c != k
      ensures c < k ==> WorkExtent(s, k).Within(WorkExtent(s, c)) || WorkExtent(s, c).end <= WorkExtent(s, k).start
      ensures c > k ==> WorkExtent(s, c).Within(WorkExtent(s, k)) || WorkExtent(s, k).end <= WorkExtent(s, c).start
    {
      if c < k {
        Pair(s, c, k);
      } else {
        Pair(s, k, c);
      }
    }
  }

  /** Next to a shared container that holds the new region: the place is no later than its
      end. Ahead of a shared member it is in the container unless that member starts on the
      line the container opens on, and strictly inside exactly when a line break parts the
      two. With no shared member after it, it is strictly inside exactly when the container
      ends in a closing delimiter that is not on its first line. */
  lemma InsidePlacedIff(s: Sources, res: Resolution, k: nat)
    requires s.Valid() && s.headExists && TableIndex(s, res) == k <= |s.workOrder| && PrevInHead(s, k) > 0
    requires EnclosesInWork(s, s.workOrder[PrevInHead(s, k) - 1], res)
    requires ProperExtent(s.headSrc, HeadExtent(s, PrevInHead(s, k) - 1))
    requires !IsSpace(s.headSrc[HeadExtent(s, PrevInHead(s, k) - 1).end - 1])
    requires
      var j := NextInHead(s, k + 1);
      j < |s.workOrder| ==> HeadExtent(s, j).start < HeadExtent(s, j).end
    ensures
      var e, j, pos := HeadExtent(s, PrevInHead(s, k) - 1), NextInHead(s, k + 1), Position(s, res);
      && pos <= e.end
      && if j < |s.workOrder| && HeadExtent(s, j).Within(e) then
           && (e.start <= pos <==> OpensOwnLine(s.headSrc, e.start, HeadExtent(s, j).start))
           && (e.start < pos < e.end <==> NL in s.headSrc[e.start..HeadExtent(s, j).start])
         else
           && e.start <= pos
           && (e.start < pos < e.end <==>
                 Closes(s.headSrc[e.end - 1]) && NL in s.headSrc[e.start..e.end - 1])
  {
    hide TableIndex, Position, EnclosesInWork, LineBegin, BodyEnd;
    PositionCases(s, res, k);
    var e, j := HeadExtent(s, PrevInHead(s, k) - 1), NextInHead(s, k + 1);
    if j < |s.workOrder| && HeadExtent(s, j).Within(e) {
      LineBeginSame(s.headSrc, e.start, HeadExtent(s, j).start);
    } else if Closes(s.headSrc[e.end - 1]) {
      var close := e.end - 1;
      BodyEndInsideIff(s.headSrc, e, close);
      assert forall i :: e.start <= i < close ==> s.headSrc[i] in s.headSrc[e.start..close];
    } else {
      OpenBodyEnd(s.headSrc, e);
    }
  }

  // ----- past the end of a container -----

  /** A place after a shared sibling is strictly inside any extent that is nested with
      the sibling's or apart from it exactly when it holds the sibling and reaches past it. */
  lemma LandsInsideIff(s: Sources, res: Resolution, k: nat, o: Extent)
    requires s.Valid() && s.headExists && TableIndex(s, res) == k <= |s.workOrder| && PrevInHead(s, k) > 0
    requires !EnclosesInWork(s, s.workOrder[PrevInHead(s, k) - 1], res)
    requires
      var e := HeadExtent(s, PrevInHead(s, k) - 1);
      e.start < e.end && o.start < o.end && (e.Within(o) || o.Within(e) || e.end <= o.start || o.end <= e.start)
    ensures
      var e := HeadExtent(s, PrevInHead(s, k) - 1);
      o.start < Position(s, res) < o.end <==> e.Within(o) && e.end < o.end
  {
    PositionCases(s, res, k);
  }

  function Entity(anchor: string, container: string, start: nat, end: nat): Outcome {
    Found(Resolution(Extent(start, end), anchor, container, "", false))
  }

  /** A struct with one field, and in the worktree a function after it. */
  function StructThenFunction(): Sources {
    var head := [83, 32, 123, NL, 9, 65, 32, 98, NL, 125];
    Sources(head, true, head + [NL, NL, 70, 40, 41], true, ["S", "S.A", "F"],
            map["S" := Entity("S", "", 0, 10), "S.A" := Entity("S.A", "S", 5, 8)],
            map["S" := Entity("S", "", 0, 10), "S.A" := Entity("S.A", "S", 5, 8), "F" := Entity("F", "", 12, 15)],
            false, true, false)
  }

  /** The new function is spliced in behind the field, inside the struct. */
  lemma TopLevelLandsInside()
    ensures
      var s := StructThenFunction();
      && Tabled(s) && !Common(s, 2)
      && Classification(s, "F").Planned? && Classification(s, "F").op.kind.Insert?
      && HeadExtent(s, 0).start < Classification(s, "F").op.start < HeadExtent(s, 0).end
      && HeadExtent(s, 0).end <= |s.headSrc| && WorkExtent(s, 0).end <= WorkExtent(s, 2).start
  {
    hide Tabled, Position, LineStart, RunBefore, RunAfter, TableIndex;
    var s := StructThenFunction();
    StructTabled(s);
    var res := Lookup(s.work, "F").res;
    ListedSits(s, 2);
    assert PrevInHead(s, 2) == 2;
    PositionCases(s, res, 2);
  }

  lemma StructTabled(s: Sources)
    requires s == StructThenFunction()
    ensures Tabled(s) && s.headExists && s.workExists && s.Valid() && |s.workOrder| == 3
    ensures Lookup(s.head, "S") == Entity("S", "", 0, 10) && Lookup(s.head, "S.A") == Entity("S.A", "S", 5, 8)
    ensures Lookup(s.work, "S") == Entity("S", "", 0, 10) && Lookup(s.work, "F") == Entity("F", "", 12, 15)
    ensures Lookup(s.head, "F").Unresolvable?
  {
    hide Tabled;
    assert |"S"| == 1 && |"S.A"| == 3 && |"F"| == 1 && "S"[0] != "F"[0];
    assert s.workOrder[0] == "S" && s.workOrder[1] == "S.A" && s.workOrder[2] == "F";
    assert Lookup(s.head, "S") == Entity("S", "", 0, 10) && Lookup(s.head, "S.A") == Entity("S.A", "S", 5, 8);
    assert Lookup(s.work, "S") == Entity("S", "", 0, 10) && Lookup(s.work, "S.A") == Entity("S.A", "S", 5, 8);
    assert Lookup(s.work, "F") == Entity("F", "", 12, 15) && Lookup(s.head, "F").Unresolvable?;
    assert |s.headSrc| == 10 && |s.workSrc| == 15;
    assert Listed(s, 0) && Listed(s, 1) && Listed(s, 2);
    assert PairInOrder(s, 0, 1) && PairInOrder(s, 0, 2) && PairInOrder(s, 1, 2);
    ThreeTabled(s);
  }

  lemma ThreeTabled(s: Sources)
    requires s.Valid() && s.headExists && s.workExists && |s.workOrder| == 3
    requires s.workOrder[0] != s.workOrder[1] && s.workOrder[0] != s.workOrder[2] && s.workOrder[1] != s.workOrder[2]
    requires Listed(s, 0) && Listed(s, 1) && Listed(s, 2)
    requires PairInOrder(s, 0, 1) && PairInOrder(s, 0, 2) && PairInOrder(s, 1, 2)
    ensures Tabled(s)
  {
    hide Sources.Valid, Listed, PairInOrder;
  }

  // ----- an anchor without an entry in the table -----

  /** A region of the worktree with no name in the table, lying before declaration `k`. */
  ghost predicate Unlisted(s: Sources, res: Resolution, k: nat) {
    && res.anchor !in s.workOrder && k <= |s.workOrder| && res.extent.start < res.extent.end
    && (forall c :: 0 <= c < |s.workOrder| ==>
          Lookup(s.work, s.workOrder[c]).Found? && WorkExtent(s, c).start < WorkExtent(s, c).end)
    && (forall c :: 0 <= c < k ==> WorkExtent(s, c).end <= res.extent.start)
    && (forall c :: k <= c < |s.workOrder| ==> res.extent.end <= WorkExtent(s, c).start)
  }

  lemma UnlistedSits(s: Sources, res: Resolution, k: nat)
    requires Tabled(s) && Unlisted(s, res, k)
    ensures Sits(s, res, k) && TableIndex(s, res) == k
    ensures forall c :: 0 <= c < |s.workOrder| ==> !EnclosesInWork(s, s.workOrder[c], res)
  {
    hide Tabled;
    assert IndexOf(s.workOrder, res.anchor) == |s.workOrder|;
    var idx := FirstAfter(s, res.extent.start, 0);
    assert idx >= k;
    assert k < |s.workOrder| ==> WorkExtent(s, k).start > res.extent.start;
  }

  /** A new pseudo-anchor is looked up by offset, and its forward walk skips the
      declaration right after it. It is in place exactly when its guard holds and that
      declaration is absent from HEAD, or some earlier one is present there, or the next
      shared one starts with it. */
  lemma PseudoAnchorPlacedIff(s: Sources, res: Resolution, k: nat)
    requires Tabled(s) && Unlisted(s, res, k)
    ensures s.Valid() && Sits(s, res, k)
    ensures InPlace(s, res, Position(s, res)) <==>
            && Settled(s, res, k)
            && (|| k == |s.workOrder| || !Common(s, k) || (exists c :: 0 <= c < k && Common(s, c))
                || (exists j :: k < j < |s.workOrder| && Common(s, j) && HeadExtent(s, j).start == HeadExtent(s, k).start))
  {
    hide Tabled, TableIndex, Position, Settled, EnclosesInWork;
    TabledIsValid(s);
    UnlistedSits(s, res, k);
    var i, j := PrevInHead(s, k), NextInHead(s, k + 1);
    assert i > 0 ==> Common(s, i - 1);
    if k == |s.workOrder| || !Common(s, k) || i > 0 {
      PlacedIff(s, res, k);
    } else {
      SkippedPlacedIff(s, res, k);
    }
  }

  lemma SkippedPlacedIff(s: Sources, res: Resolution, k: nat)
    requires Tabled(s) && Unlisted(s, res, k) && Sits(s, res, k) && TableIndex(s, res) == k && s.Valid()
    requires k < |s.workOrder| && Common(s, k) && PrevInHead(s, k) == 0
    ensures Settled(s, res, k) && forall c :: 0 <= c < k ==> !Common(s, c)
    ensures InPlace(s, res, Position(s, res)) <==>
            exists j :: k < j < |s.workOrder| && Common(s, j) && HeadExtent(s, j).start == HeadExtent(s, k).start
  {
    hide Tabled, TableIndex, Position, EnclosesInWork, Sits;
    UnlistedSits(s, res, k);
    Entry(s, k);
    PositionCases(s, res, k);
    var j := NextInHead(s, k + 1);
    var pos := Position(s, res);
    forall c | k < c < |s.workOrder| && Common(s, c)
      ensures j <= c && HeadExtent(s, k).start <= HeadExtent(s, j).start <= HeadExtent(s, c).start
    {
      Pair(s, k, j);
      if j < c {
        Pair(s, j, c);
      }
    }
    if j < |s.workOrder| && HeadExtent(s, j).start == HeadExtent(s, k).start {
      assert Common(s, j);
      forall c | 0 <= c < |s.workOrder| && Common(s, c)
        ensures PlacedBy(s, res, pos, c)
      {
        assert c >= k;
        Entry(s, c);
      }
    } else {
      assert pos > HeadExtent(s, k).start;
      assert !PlacedBy(s, res, pos, k);
    }
  }

  /** A file of one function, and in the worktree imports ahead of it. */
  function ImportsAdded(): Sources {
    var f := Found(Resolution(Extent(0, 1), "f", "", "", false));
    Sources([102], true, [105, NL, NL, 102], true, ["f"], map["f" := f],
            map["f" := Entity("f", "", 3, 4), "@imports" := Found(Resolution(Extent(0, 1), "@imports", "", "", true))],
            false, true, true)
  }

  /** The new imports are spliced in behind the function. */
  lemma ImportsLandBehind()
    ensures
      var s := ImportsAdded();
      && s.Valid() && Lookup(s.work, "@imports").Found? && Unlisted(s, Lookup(s.work, "@imports").res, 0) && Common(s, 0)
      && Classification(s, "@imports").Planned? && Classification(s, "@imports").op.kind.Insert?
      && Classification(s, "@imports").op.start == 1 == |s.headSrc|
  {
    hide Position, LineStart, RunBefore, RunAfter;
    var s := ImportsAdded();
    assert "f"[0] != "@imports"[0] && s.workOrder[0] == "f";
    var res := Resolution(Extent(0, 1), "@imports", "", "", true);
    assert Lookup(s.work, "@imports") == Found(res) && Lookup(s.work, "f") == Entity("f", "", 3, 4);
    assert Lookup(s.head, "@imports").Unresolvable? && Lookup(s.head, "f").Found?;
    assert TableIndex(s, res) == 0;
    PositionCases(s, res, 0);
  }
}
