/** Bounded fan-out: one goroutine per file behind a semaphore, results merged in
    index order. */
module FanOut {
  import opened Seqs
  import opened Bytes

  type FileReport = string

  /** What building one file's report returns. */
  datatype Outcome = Outcome(report: Option<FileReport>, warnings: seq<string>, tsOnly: bool, err: Option<string>)

  datatype Merged = Failure(err: string) | Success(files: seq<FileReport>, warnings: seq<string>, tsOnly: bool)

  const MAX_CONCURRENT: nat := 8

  // ----- the merge -----

  function Extend(acc: Merged, r: Outcome): Merged
    requires acc.Success?
  {
    Success(acc.files + (if r.report.Some? then [r.report.value] else []), acc.warnings + r.warnings, acc.tsOnly || r.tsOnly)
  }

  /** What a plain loop over the files would return: it stops at the first error. */
  function Sequential(build: nat -> Outcome, i: nat, n: nat, acc: Merged): Merged
    requires i <= n && acc.Success?
    decreases n - i
  {
    if i == n then acc
    else if build(i).err.Some? then Failure(build(i).err.value)
    else Sequential(build, i + 1, n, Extend(acc, build(i)))
  }

  const NOTHING := Success([], [], false)

  method MergeResults(results: seq<Outcome>, ghost build: nat -> Outcome) returns (merged: Merged)
    requires forall i :: 0 <= i < |results| ==> results[i] == build(i)
    ensures merged == Sequential(build, 0, |results|, NOTHING)
  {
    var files, warnings, tsOnly := [], [], false;
    for i := 0 to |results|
      invariant Sequential(build, i, |results|, Success(files, warnings, tsOnly)) == Sequential(build, 0, |results|, NOTHING)
    {
      var r := results[i];
      if r.err.Some? {
        return Failure(r.err.value);
      }
      if r.report.Some? {
        files := files + [r.report.value];
      } else {
        assert files + [] == files;
      }
      warnings := warnings + r.warnings;
      tsOnly := tsOnly || r.tsOnly;
    }
    return Success(files, warnings, tsOnly);
  }

  /** The sequential loop, stated outright: the error of the least failing index, or
      every report and warning in index order. */
  lemma {:induction false} SequentialMeans(build: nat -> Outcome, i: nat, n: nat, acc: Merged)
    requires i <= n && acc.Success?
    ensures
      var r := Sequential(build, i, n, acc);
      && (r.Failure? <==> exists k: nat :: i <= k < n && build(k).err.Some?)
      && (r.Failure? ==> exists k: nat :: i <= k < n && build(k).err == Some(r.err) && forall j: nat :: i <= j < k ==> build(j).err.None?)
      && (r.Success? ==> r.files == acc.files + Reports(build, i, n) && r.warnings == acc.warnings + Warnings(build, i, n)
                         && (r.tsOnly <==> acc.tsOnly || exists k: nat :: i <= k < n && build(k).tsOnly))
    decreases n - i
  {
    if i < n && build(i).err.None? {
      SequentialMeans(build, i + 1, n, Extend(acc, build(i)));
      var own := if build(i).report.Some? then [build(i).report.value] else [];
      Assoc(acc.files, own, Reports(build, i + 1, n));
      Assoc(acc.warnings, build(i).warnings, Warnings(build, i + 1, n));
    }
  }

  function Reports(build: nat -> Outcome, i: nat, n: nat): seq<FileReport>
    decreases n - i
  {
    if i >= n then []
    else (if build(i).report.Some? then [build(i).report.value] else []) + Reports(build, i + 1, n)
  }

  function Warnings(build: nat -> Outcome, i: nat, n: nat): seq<string>
    decreases n - i
  {
    if i >= n then [] else build(i).warnings + Warnings(build, i + 1, n)
  }

  // ----- the goroutines -----

  datatype Go = Unborn | Building | Written | Released | Gone

  datatype Main = Spawning | Waiting | Returned(merged: Merged)

  /** `writes` is history: how often each slot of `results` has been assigned. */
  datatype State = State(started: nat, sem: nat, gos: seq<Go>, slots: seq<Option<Outcome>>, writes: seq<nat>, main: Main)

  ghost predicate Init(st: State, n: nat) {
    && st.started == 0 && st.sem == 0 && st.main.Spawning?
    && |st.gos| == |st.slots| == |st.writes| == n
    && forall i :: 0 <= i < n ==> st.gos[i].Unborn? && st.slots[i].None? && st.writes[i] == 0
  }

  /** The loop blocks on the semaphore, then starts the next goroutine. */
  ghost predicate Spawn(st: State, st': State, n: nat) {
    && st.main.Spawning? && st.started < n && st.started < |st.gos| && st.sem < MAX_CONCURRENT
    && st' == st.(started := st.started + 1, sem := st.sem + 1, gos := st.gos[st.started := Building])
  }

  ghost predicate AllSpawned(st: State, st': State, n: nat) {
    st.main.Spawning? && st.started == n && st' == st.(main := Waiting)
  }

  ghost predicate Write(st: State, st': State, build: nat -> Outcome, i: nat) {
    && i < |st.gos| && i < |st.slots| && i < |st.writes| && st.gos[i].Building?
    && st' == st.(gos := st.gos[i := Written], slots := st.slots[i := Some(build(i))],
                  writes := st.writes[i := st.writes[i] + 1])
  }

  /** Deferred calls run last in, first out: the semaphore before the wait group. */
  ghost predicate Release(st: State, st': State, i: nat) {
    i < |st.gos| && st.gos[i].Written? && st.sem > 0 && st' == st.(gos := st.gos[i := Released], sem := st.sem - 1)
  }

  ghost predicate SignalDone(st: State, st': State, i: nat) {
    i < |st.gos| && st.gos[i].Released? && st' == st.(gos := st.gos[i := Gone])
  }

  ghost predicate AllGone(st: State) {
    forall i :: 0 <= i < |st.gos| ==> st.gos[i].Gone?
  }

  /** `wg.Wait()` returns and the merge loop reads the slots, absent ones as zero values. */
  ghost predicate Merge(st: State, st': State) {
    && st.main.Waiting? && AllGone(st)
    && st' == st.(main := Returned(Sequential(Slots(st), 0, |st.slots|, NOTHING)))
  }

  function Slots(st: State): nat -> Outcome {
    (i: nat) => SlotAt(st, i)
  }

  function SlotAt(st: State, i: nat): Outcome {
    if i < |st.slots| && st.slots[i].Some? then st.slots[i].value else Outcome(None, [], false, None)
  }

  ghost predicate Next(st: State, st': State, build: nat -> Outcome, n: nat) {
    || Spawn(st, st', n) || AllSpawned(st, st', n) || Merge(st, st')
    || (exists i: nat :: Write(st, st', build, i))
    || (exists i: nat :: Release(st, st', i))
    || (exists i: nat :: SignalDone(st, st', i))
  }

  ghost predicate CanStep(st: State, build: nat -> Outcome, n: nat) {
    exists st': State :: Next(st, st', build, n)
  }

  ghost predicate Run(states: seq<State>, build: nat -> Outcome, n: nat) {
    && states != [] && Init(states[0], n)
    && forall i :: 0 < i < |states| ==> Next(states[i - 1], states[i], build, n)
  }

  predicate Holds(g: Go) {
    g.Building? || g.Written?
  }

  predicate InFlight(g: Go) {
    g.Building?
  }

  function CountIf(gos: seq<Go>, p: Go -> bool): nat {
    if gos == [] then 0 else (if p(gos[0]) then 1 else 0) + CountIf(gos[1..], p)
  }

  lemma {:induction false} CountUpdate(gos: seq<Go>, i: nat, g: Go, p: Go -> bool)
    requires i < |gos|
    ensures CountIf(gos[i := g], p) == CountIf(gos, p) + (if p(g) then 1 else 0) - (if p(gos[i]) then 1 else 0)
  {
    if i == 0 {
      assert gos[0 := g][1..] == gos[1..];
    } else {
      assert gos[i := g][1..] == gos[1..][i - 1 := g];
      CountUpdate(gos[1..], i - 1, g, p);
    }
  }

  lemma {:induction false} CountNone(gos: seq<Go>, p: Go -> bool)
    requires forall i :: 0 <= i < |gos| ==> !p(gos[i])
    ensures CountIf(gos, p) == 0
  {
    if gos != [] {
      CountNone(gos[1..], p);
    }
  }

  lemma {:induction false} CountSome(gos: seq<Go>, p: Go -> bool)
    requires CountIf(gos, p) > 0
    ensures exists i :: 0 <= i < |gos| && p(gos[i])
  {
    if !p(gos[0]) {
      CountSome(gos[1..], p);
      var i :| 0 <= i < |gos[1..]| && p(gos[1..][i]);
      assert p(gos[i + 1]);
    }
  }

  lemma {:induction false} CountMonotone(gos: seq<Go>, p: Go -> bool, q: Go -> bool)
    requires forall g :: p(g) ==> q(g)
    ensures CountIf(gos, p) <= CountIf(gos, q)
  {
    if gos != [] {
      CountMonotone(gos[1..], p, q);
    }
  }

  ghost predicate Inv(st: State, build: nat -> Outcome, n: nat) {
    && |st.gos| == |st.slots| == |st.writes| == n && st.started <= n
    && (!st.main.Spawning? ==> st.started == n)
    && (st.main.Returned? ==> AllGone(st) && st.main.merged == Sequential(build, 0, n, NOTHING))
    && st.sem == CountIf(st.gos, Holds) && st.sem <= MAX_CONCURRENT
    && (forall i :: 0 <= i < n ==> (st.gos[i].Unborn? <==> i >= st.started))
    && (forall i :: 0 <= i < n ==>
          if st.gos[i].Unborn? || st.gos[i].Building? then st.slots[i].None? && st.writes[i] == 0
          else st.slots[i] == Some(build(i)) && st.writes[i] == 1)
  }

  lemma {:induction false} SequentialSame(f: nat -> Outcome, g: nat -> Outcome, i: nat, n: nat, acc: Merged)
    requires i <= n && acc.Success? && forall k: nat :: i <= k < n ==> f(k) == g(k)
    ensures Sequential(f, i, n, acc) == Sequential(g, i, n, acc)
    decreases n - i
  {
    if i < n && f(i).err.None? {
      SequentialSame(f, g, i + 1, n, Extend(acc, f(i)));
    }
  }

  /** One goroutine moves to its next phase. */
  lemma GoKeepsInv(st: State, st': State, build: nat -> Outcome, n: nat, i: nat)
    requires Inv(st, build, n) && (Write(st, st', build, i) || Release(st, st', i) || SignalDone(st, st', i))
    ensures Inv(st', build, n)
  {
    hide Sequential, CountIf;
    CountUpdate(st.gos, i, st'.gos[i], Holds);
  }

  lemma SpawnKeepsInv(st: State, st': State, build: nat -> Outcome, n: nat)
    requires Inv(st, build, n) && Spawn(st, st', n)
    ensures Inv(st', build, n)
  {
    hide Sequential, CountIf;
    CountUpdate(st.gos, st.started, Building, Holds);
  }

  lemma MergeKeepsInv(st: State, st': State, build: nat -> Outcome, n: nat)
    requires Inv(st, build, n) && Merge(st, st')
    ensures Inv(st', build, n)
  {
    hide Sequential, CountIf;
    SequentialSame(Slots(st), build, 0, n, NOTHING);
  }

  lemma StepKeepsInv(st: State, st': State, build: nat -> Outcome, n: nat)
    requires Inv(st, build, n) && Next(st, st', build, n)
    ensures Inv(st', build, n)
  {
    hide Sequential, CountIf, Spawn, Merge, Write, Release, SignalDone;
    if Spawn(st, st', n) {
      SpawnKeepsInv(st, st', build, n);
    } else if Merge(st, st') {
      MergeKeepsInv(st, st', build, n);
    } else if !AllSpawned(st, st', n) {
      var i: nat :| Write(st, st', build, i) || Release(st, st', i) || SignalDone(st, st', i);
      GoKeepsInv(st, st', build, n, i);
    }
  }

  lemma {:induction false} RunKeepsInv(states: seq<State>, build: nat -> Outcome, n: nat)
    requires Run(states, build, n)
    ensures Inv(states[|states| - 1], build, n)
  {
    if |states| == 1 {
      CountNone(states[0].gos, Holds);
    } else {
      RunKeepsInv(states[..|states| - 1], build, n);
      assert Next(states[|states| - 1 - 1], states[|states| - 1], build, n);
      StepKeepsInv(states[|states| - 2], states[|states| - 1], build, n);
    }
  }

  /** Under every schedule at most eight builds are in flight, every slot is written
      at most once and before the merge, and whatever is returned is what the
      sequential loop returns. */
  lemma EveryScheduleIsSequential(states: seq<State>, build: nat -> Outcome, n: nat)
    requires Run(states, build, n)
    ensures
      var st := states[|states| - 1];
      && CountIf(st.gos, InFlight) <= 8
      && |st.writes| == n && (forall i :: 0 <= i < n ==> st.writes[i] <= 1)
      && (st.main.Returned? ==>
            st.main.merged == Sequential(build, 0, n, NOTHING) && forall i :: 0 <= i < n ==> st.writes[i] == 1)
  {
    RunKeepsInv(states, build, n);
    CountMonotone(states[|states| - 1].gos, InFlight, Holds);
  }

  // ----- every schedule ends -----

  function Left(g: Go): nat {
    match g case Unborn => 4 case Building => 3 case Written => 2 case Released => 1 case Gone => 0
  }

  function TotalLeft(gos: seq<Go>): nat {
    if gos == [] then 0 else Left(gos[0]) + TotalLeft(gos[1..])
  }

  function Measure(st: State): nat {
    TotalLeft(st.gos) + match st.main case Spawning => 2 case Waiting => 1 case Returned(_) => 0
  }

  lemma {:induction false} TotalLeftUpdate(gos: seq<Go>, i: nat, g: Go)
    requires i < |gos|
    ensures TotalLeft(gos[i := g]) == TotalLeft(gos) + Left(g) - Left(gos[i])
  {
    if i == 0 {
      assert gos[0 := g][1..] == gos[1..];
    } else {
      assert gos[i := g][1..] == gos[1..][i - 1 := g];
      TotalLeftUpdate(gos[1..], i - 1, g);
    }
  }

  lemma {:induction false} TotalLeftUnborn(gos: seq<Go>)
    requires forall i :: 0 <= i < |gos| ==> gos[i].Unborn?
    ensures TotalLeft(gos) == 4 * |gos|
  {
    if gos != [] {
      TotalLeftUnborn(gos[1..]);
    }
  }

  lemma StepConsumes(st: State, st': State, build: nat -> Outcome, n: nat)
    requires Inv(st, build, n) && Next(st, st', build, n)
    ensures Measure(st') == Measure(st) - 1
  {
    hide Write, Release, SignalDone, TotalLeft, Sequential;
    if Spawn(st, st', n) {
      TotalLeftUpdate(st.gos, st.started, Building);
    } else if AllSpawned(st, st', n) || Merge(st, st') {
    } else if i: nat :| Write(st, st', build, i) {
      GoConsumes(st, st', build, i);
    } else if i: nat :| Release(st, st', i) {
      GoConsumes(st, st', build, i);
    } else {
      var i: nat :| SignalDone(st, st', i);
      GoConsumes(st, st', build, i);
    }
  }

  lemma GoConsumes(st: State, st': State, build: nat -> Outcome, i: nat)
    requires Write(st, st', build, i) || Release(st, st', i) || SignalDone(st, st', i)
    ensures Measure(st') == Measure(st) - 1
  {
    TotalLeftUpdate(st.gos, i, st'.gos[i]);
  }

  /** A run that can take no further step has returned: nothing deadlocks on the
      semaphore or the wait group. */
  lemma NoDeadlock(st: State, build: nat -> Outcome, n: nat)
    requires Inv(st, build, n) && !st.main.Returned?
    ensures CanStep(st, build, n)
  {
    if i :| 0 <= i < n && st.gos[i].Building? {
      var st' := st.(gos := st.gos[i := Written], slots := st.slots[i := Some(build(i))],
                     writes := st.writes[i := st.writes[i] + 1]);
      assert Write(st, st', build, i);
      assert Next(st, st', build, n);
    } else if i :| 0 <= i < n && st.gos[i].Written? {
      if st.sem == 0 {
        CountUpdate(st.gos, i, Gone, Holds);
      }
      var st' := st.(gos := st.gos[i := Released], sem := st.sem - 1);
      assert Release(st, st', i);
      assert Next(st, st', build, n);
    } else if i :| 0 <= i < n && st.gos[i].Released? {
      var st' := st.(gos := st.gos[i := Gone]);
      assert SignalDone(st, st', i);
      assert Next(st, st', build, n);
    } else if st.main.Spawning? {
      CountNone(st.gos, Holds);
      if st.started < n {
        var st' := st.(started := st.started + 1, sem := st.sem + 1, gos := st.gos[st.started := Building]);
        assert Spawn(st, st', n);
        assert Next(st, st', build, n);
      } else {
        var st' := st.(main := Waiting);
        assert AllSpawned(st, st', n);
        assert Next(st, st', build, n);
      }
    } else {
      var st' := st.(main := Returned(Sequential(Slots(st), 0, |st.slots|, NOTHING)));
      assert Merge(st, st');
      assert Next(st, st', build, n);
    }
  }

  /** Every schedule takes exactly four steps a file and two more, and then it has
      returned. */
  lemma {:induction false} EveryScheduleEnds(states: seq<State>, build: nat -> Outcome, n: nat)
    requires Run(states, build, n)
    ensures |states| - 1 + Measure(states[|states| - 1]) == 4 * n + 2
    ensures states[|states| - 1].main.Returned? <==> |states| == 4 * n + 3
    ensures states[|states| - 1].main.Returned? || CanStep(states[|states| - 1], build, n)
  {
    hide Inv, Next;
    RunKeepsInv(states, build, n);
    var st := states[|states| - 1];
    if |states| == 1 {
      TotalLeftUnborn(st.gos);
    } else {
      var before := states[..|states| - 1];
      EveryScheduleEnds(before, build, n);
      RunKeepsInv(before, build, n);
      assert Next(states[|states| - 1 - 1], st, build, n);
      StepConsumes(states[|states| - 2], st, build, n);
    }
    ReturnedIsZero(st, build, n);
    if !st.main.Returned? {
      NoDeadlock(st, build, n);
    }
  }

  lemma {:induction false} GoneIsZero(gos: seq<Go>)
    requires forall i :: 0 <= i < |gos| ==> gos[i].Gone?
    ensures TotalLeft(gos) == 0
  {
    if gos != [] {
      GoneIsZero(gos[1..]);
    }
  }

  lemma ReturnedIsZero(st: State, build: nat -> Outcome, n: nat)
    requires Inv(st, build, n)
    ensures st.main.Returned? <==> Measure(st) == 0
  {
    if st.main.Returned? {
      GoneIsZero(st.gos);
    }
  }
}
