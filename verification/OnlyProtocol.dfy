/** `commit --only`: several rgit processes take a lock, build on the HEAD they read
    and commit from a private index, while writers that ignore the lock append
    commits of their own. */
module OnlyProtocol {
  import opened Bytes

  type Path = string

  datatype Entry = Entry(mode: string, sha: string)

  type Tree = map<Path, Entry>

  /** A commit's identity is its position in the object store. */
  datatype Commit = Commit(parent: Option<nat>, tree: Tree)

  type Pid = nat

  /** A private index and what it was seeded from. `touched` is every path staged into it,
      by rgit or by a hook, with what was last asked for there: an entry, or none. */
  datatype Session = Session(base: Option<nat>, baseTree: Tree, index: Tree, touched: map<Path, Option<Entry>>, amend: bool)

  datatype Phase =
    | Idle
    | Locked
    | Staging(s: Session)
    | Committing(s: Session, seen: Option<nat>)
    | Landed(s: Session, seen: Option<nat>, ours: nat)
    | Finished

  /** History: a `--only` commit that was reported as a success. */
  datatype Landing = Landing(s: Session, seen: Option<nat>, ours: nat)

  datatype State = State(commits: seq<Commit>, head: Option<nat>, lock: Option<Pid>,
                         procs: map<Pid, Phase>, passed: seq<Landing>)

  function PhaseOf(st: State, p: Pid): Phase {
    if p in st.procs then st.procs[p] else Idle
  }

  function TreeOf(commits: seq<Commit>, c: Option<nat>): Tree {
    if c.Some? && c.value < |commits| then commits[c.value].tree else map[]
  }

  function ParentOf(commits: seq<Commit>, c: Option<nat>): Option<nat> {
    if c.Some? && c.value < |commits| then commits[c.value].parent else None
  }

  predicate SameAt(a: Tree, b: Tree, path: Path) {
    (path in a <==> path in b) && (path in a ==> a[path] == b[path])
  }

  function Read(tree: Tree, path: Path): Option<Entry> {
    if path in tree then Some(tree[path]) else None
  }

  /** `a` is `b` with exactly what was asked for laid over it. */
  ghost predicate Overlays(a: Tree, b: Tree, touched: map<Path, Option<Entry>>) {
    forall path :: Read(a, path) == if path in touched then touched[path] else Read(b, path)
  }

  // ----- steps -----

  /** `LockCommits`: blocks until no other rgit holds the lock. */
  ghost predicate Acquire(st: State, st': State, p: Pid) {
    PhaseOf(st, p).Idle? && st.lock.None? &&
    st' == st.(lock := Some(p), procs := st.procs[p := Locked])
  }

  /** `NewOnlyIndex`: reads HEAD and seeds the private index with its tree. */
  ghost predicate Seed(st: State, st': State, p: Pid, amend: bool) {
    PhaseOf(st, p).Locked? &&
    var tree := TreeOf(st.commits, st.head);
    st' == st.(procs := st.procs[p := Staging(Session(st.head, tree, tree, map[], amend))])
  }

  function Stage(s: Session, path: Path, entry: Option<Entry>): Session {
    s.(index := if entry.Some? then s.index[path := entry.value] else s.index - {path},
       touched := s.touched[path := entry])
  }

  /** `StageInto`, or a pre-commit hook, writes one entry of the private index. */
  ghost predicate StageOne(st: State, st': State, p: Pid, path: Path, entry: Option<Entry>) {
    match PhaseOf(st, p)
    case Staging(s) => st' == st.(procs := st.procs[p := Staging(Stage(s, path, entry))])
    case Committing(s, seen) => st' == st.(procs := st.procs[p := Committing(Stage(s, path, entry), seen)])
    case _ => false
  }

  /** `git commit` starts: it takes its parent from HEAD as it is now. */
  ghost predicate GitStart(st: State, st': State, p: Pid) {
    PhaseOf(st, p).Staging? &&
    var s := PhaseOf(st, p).s;
    (s.amend ==> st.head.Some?) &&
    st' == st.(procs := st.procs[p := Committing(s, st.head)])
  }

  /** `git commit` finishes: git's own ref check lets it through only if HEAD is
      still what it read. */
  ghost predicate GitFinish(st: State, st': State, p: Pid) {
    PhaseOf(st, p).Committing? &&
    var s, seen := PhaseOf(st, p).s, PhaseOf(st, p).seen;
    st.head == seen &&
    var parent := if s.amend then ParentOf(st.commits, seen) else seen;
    st' == st.(commits := st.commits + [Commit(parent, s.index)], head := Some(|st.commits|),
               procs := st.procs[p := Landed(s, seen, |st.commits|)])
  }

  /** The moved-HEAD check of `finishOnlyCommit`, on HEAD as it is by now. */
  predicate PassesCheck(st: State, s: Session) {
    s.amend || s.base.None? || (st.head.Some? && ParentOf(st.commits, st.head) == s.base)
  }

  ghost predicate Finish(st: State, st': State, p: Pid) {
    PhaseOf(st, p).Landed? &&
    var l := PhaseOf(st, p);
    st' == st.(procs := st.procs[p := Finished],
               passed := if PassesCheck(st, l.s) then st.passed + [Landing(l.s, l.seen, l.ours)] else st.passed)
  }

  /** Release, a failure, or a crash at any point: the OS drops the lock. */
  ghost predicate Quit(st: State, st': State, p: Pid) {
    !PhaseOf(st, p).Idle? &&
    st' == st.(lock := None, procs := st.procs[p := Idle])
  }

  /** A writer outside rgit appends a commit, with any tree, at any moment. */
  ghost predicate Outside(st: State, st': State, tree: Tree) {
    st' == st.(commits := st.commits + [Commit(st.head, tree)], head := Some(|st.commits|))
  }

  ghost predicate RgitStep(st: State, st': State, p: Pid) {
    || Acquire(st, st', p)
    || (exists amend: bool :: Seed(st, st', p, amend))
    || (exists path: Path, entry: Option<Entry> :: StageOne(st, st', p, path, entry))
    || GitStart(st, st', p)
    || GitFinish(st, st', p)
    || Finish(st, st', p)
    || Quit(st, st', p)
  }

  ghost predicate Next(st: State, st': State) {
    || (exists p: Pid :: RgitStep(st, st', p))
    || (exists tree: Tree :: Outside(st, st', tree))
  }

  /** Any repository, before rgit touches it. */
  ghost predicate Init(st: State) {
    && (forall i :: 0 <= i < |st.commits| && st.commits[i].parent.Some? ==> st.commits[i].parent.value < i)
    && (st.head.Some? ==> st.head.value < |st.commits|)
    && st.lock.None? && st.procs == map[] && st.passed == []
  }

  ghost predicate Run(states: seq<State>) {
    states != [] && Init(states[0]) && forall i :: 0 < i < |states| ==> Next(states[i - 1], states[i])
  }

  // ----- what every step keeps -----

  ghost predicate StoreOK(commits: seq<Commit>, head: Option<nat>) {
    && (forall i :: 0 <= i < |commits| && commits[i].parent.Some? ==> commits[i].parent.value < i)
    && (head.Some? ==> head.value < |commits|)
  }

  /** HEAD is `c`, or something appended since then. */
  ghost predicate GrownFrom(commits: seq<Commit>, c: nat, head: Option<nat>) {
    && head.Some? && c <= head.value < |commits|
    && (c == head.value || (commits[head.value].parent.Some? && c <= commits[head.value].parent.value))
  }

  ghost predicate SessionOK(commits: seq<Commit>, head: Option<nat>, s: Session) {
    && s.baseTree == TreeOf(commits, s.base)
    && (s.base.Some? ==> s.base.value < |commits| && GrownFrom(commits, s.base.value, head))
    && Overlays(s.index, s.baseTree, s.touched)
  }

  /** What a landed commit is, whoever has written since. */
  ghost predicate Made(commits: seq<Commit>, s: Session, seen: Option<nat>, ours: nat) {
    && ours < |commits| && (seen.Some? ==> seen.value < ours)
    && (s.base.Some? ==> s.base.value < ours && GrownFrom(commits, s.base.value, seen))
    && s.baseTree == TreeOf(commits, s.base)
    && commits[ours] == Commit(if s.amend then ParentOf(commits, seen) else seen, s.index)
    && Overlays(s.index, s.baseTree, s.touched)
  }

  ghost predicate PhaseOK(commits: seq<Commit>, head: Option<nat>, ph: Phase) {
    match ph
    case Staging(s) => SessionOK(commits, head, s)
    case Committing(s, seen) =>
      SessionOK(commits, head, s) && (seen.Some? ==> seen.value < |commits|) &&
      (s.base.Some? ==> GrownFrom(commits, s.base.value, seen))
    case Landed(s, seen, ours) => Made(commits, s, seen, ours) && GrownFrom(commits, ours, head)
    case _ => true
  }

  /** A reported success whose base was checked has that base as its parent. */
  ghost predicate PassedOK(commits: seq<Commit>, l: Landing) {
    Made(commits, l.s, l.seen, l.ours) &&
    (!l.s.amend && l.s.base.Some? ==> commits[l.ours].parent == l.s.base)
  }

  ghost predicate Inv(st: State) {
    && StoreOK(st.commits, st.head)
    && (forall p: Pid :: !PhaseOf(st, p).Idle? ==> st.lock == Some(p))
    && (forall p: Pid :: PhaseOK(st.commits, st.head, PhaseOf(st, p)))
    && (forall i :: 0 <= i < |st.passed| ==> PassedOK(st.commits, st.passed[i]))
  }

  /** At most one process is past the lock. */
  lemma OneHolder(st: State, p: Pid, q: Pid)
    requires Inv(st) && !PhaseOf(st, p).Idle? && !PhaseOf(st, q).Idle?
    ensures p == q
  {
  }

  /** Appending a commit on top of HEAD keeps everything recorded so far. */
  lemma AppendKeeps(commits: seq<Commit>, head: Option<nat>, c: Commit, ph: Phase)
    requires StoreOK(commits, head) && c.parent == head && PhaseOK(commits, head, ph)
    ensures StoreOK(commits + [c], Some(|commits|)) && PhaseOK(commits + [c], Some(|commits|), ph)
  {
  }

  lemma StoreGrows(commits: seq<Commit>, c: Commit, l: Landing)
    requires PassedOK(commits, l)
    ensures PassedOK(commits + [c], l)
  {
  }

  lemma StageKeeps(s: Session, path: Path, entry: Option<Entry>)
    requires Overlays(s.index, s.baseTree, s.touched)
    ensures Overlays(Stage(s, path, entry).index, s.baseTree, Stage(s, path, entry).touched)
  {
  }

  /** The check, read on whatever HEAD is by now, still speaks of our own commit. */
  lemma CheckIsAboutOurs(st: State, s: Session, seen: Option<nat>, ours: nat)
    requires StoreOK(st.commits, st.head) && Made(st.commits, s, seen, ours) && GrownFrom(st.commits, ours, st.head)
    requires PassesCheck(st, s)
    ensures PassedOK(st.commits, Landing(s, seen, ours))
  {
  }

  lemma GitFinishMakes(st: State, st': State, p: Pid)
    requires Inv(st) && GitFinish(st, st', p)
    ensures StoreOK(st'.commits, st'.head) && PhaseOK(st'.commits, st'.head, PhaseOf(st', p))
  {
    var s, seen := PhaseOf(st, p).s, PhaseOf(st, p).seen;
    assert PhaseOK(st.commits, st.head, PhaseOf(st, p));
  }

  lemma GitFinishKeepsInv(st: State, st': State, p: Pid)
    requires Inv(st) && GitFinish(st, st', p)
    ensures Inv(st')
  {
    hide StoreOK, PhaseOK, PassedOK;
    GitFinishMakes(st, st', p);
    forall q: Pid | q != p
      ensures PhaseOf(st', q).Idle?
    {
      if !PhaseOf(st, q).Idle? {
        OneHolder(st, p, q);
      }
    }
    IdleIsFine(st'.commits, st'.head);
    forall i | 0 <= i < |st.passed|
      ensures PassedOK(st'.commits, st.passed[i])
    {
      StoreGrows(st.commits, st'.commits[|st.commits|], st.passed[i]);
    }
  }

  lemma IdleIsFine(commits: seq<Commit>, head: Option<nat>)
    ensures PhaseOK(commits, head, Idle)
  {
  }

  lemma FinishKeepsInv(st: State, st': State, p: Pid)
    requires Inv(st) && Finish(st, st', p)
    ensures Inv(st')
  {
    assert PhaseOK(st.commits, st.head, PhaseOf(st, p));
    hide StoreOK, PassedOK;
    var l := PhaseOf(st, p);
    if PassesCheck(st, l.s) {
      CheckIsAboutOurs(st, l.s, l.seen, l.ours);
    }
    assert forall q: Pid :: q != p ==> PhaseOf(st', q) == PhaseOf(st, q);
    IdleIsFine(st'.commits, st'.head);
  }

  lemma StageOneKeepsInv(st: State, st': State, p: Pid, path: Path, entry: Option<Entry>)
    requires Inv(st) && StageOne(st, st', p, path, entry)
    ensures Inv(st')
  {
    hide StoreOK, PassedOK, GrownFrom;
    assert PhaseOK(st.commits, st.head, PhaseOf(st, p));
    StageKeeps(PhaseOf(st, p).s, path, entry);
    assert forall q: Pid :: q != p ==> PhaseOf(st', q) == PhaseOf(st, q);
  }

  lemma RgitStepKeepsInv(st: State, st': State, p: Pid)
    requires Inv(st) && RgitStep(st, st', p)
    ensures Inv(st')
  {
    assert PhaseOK(st.commits, st.head, PhaseOf(st, p));
    assert forall q: Pid :: q != p ==> PhaseOf(st', q) == PhaseOf(st, q);
    assert forall q: Pid :: q != p ==> PhaseOK(st.commits, st.head, PhaseOf(st, q));
    if GitFinish(st, st', p) {
      GitFinishKeepsInv(st, st', p);
    } else if Finish(st, st', p) {
      FinishKeepsInv(st, st', p);
    } else if path: Path, entry: Option<Entry> :| StageOne(st, st', p, path, entry) {
      StageOneKeepsInv(st, st', p, path, entry);
    }
  }

  lemma OutsideKeepsInv(st: State, st': State, tree: Tree)
    requires Inv(st) && Outside(st, st', tree)
    ensures Inv(st')
  {
    var c := Commit(st.head, tree);
    forall p: Pid
      ensures PhaseOK(st'.commits, st'.head, PhaseOf(st', p))
    {
      AppendKeeps(st.commits, st.head, c, PhaseOf(st, p));
    }
    AppendKeeps(st.commits, st.head, c, Idle);
    forall i | 0 <= i < |st.passed|
      ensures PassedOK(st'.commits, st'.passed[i])
    {
      StoreGrows(st.commits, c, st.passed[i]);
    }
  }

  lemma {:induction false} RunKeepsInv(states: seq<State>)
    requires Run(states)
    ensures Inv(states[|states| - 1])
  {
    hide Inv, RgitStep, Outside;
    if |states| == 1 {
      InitInv(states[0]);
    } else {
      var before := states[..|states| - 1];
      RunKeepsInv(before);
      var st, st' := states[|states| - 2], states[|states| - 1];
      assert Next(states[|states| - 1 - 1], states[|states| - 1]);
      if p: Pid :| RgitStep(st, st', p) {
        RgitStepKeepsInv(st, st', p);
      } else {
        var tree: Tree :| Outside(st, st', tree);
        OutsideKeepsInv(st, st', tree);
      }
    }
  }

  lemma InitInv(st: State)
    requires Init(st)
    ensures Inv(st)
  {
  }

  // ----- safety over whole runs -----

  /** In every interleaving of rgit processes and outside writers, a reported
      non-amend success that was built on an existing commit has that very commit as
      its parent, and its tree is the parent's with exactly what was staged into its private
      index laid over it: every target is in, and no other writer's change is undone. */
  lemma CommitIsBasePlusTargets(states: seq<State>, l: Landing)
    requires Run(states) && l in states[|states| - 1].passed && !l.s.amend && l.s.base.Some?
    ensures
      var commits := states[|states| - 1].commits;
      && l.ours < |commits| && commits[l.ours].parent == l.s.base
      && Overlays(commits[l.ours].tree, TreeOf(commits, commits[l.ours].parent), l.s.touched)
  {
    RunKeepsInv(states);
    var st := states[|states| - 1];
    var i :| 0 <= i < |st.passed| && st.passed[i] == l;
    assert PassedOK(st.commits, st.passed[i]);
  }

  /** On an unborn branch the check is skipped: the commit has its recorded base,
      nothing, as its parent exactly when HEAD was still unborn when git started. */
  lemma UnbornBaseIff(states: seq<State>, l: Landing)
    requires Run(states) && l in states[|states| - 1].passed && !l.s.amend
    ensures l.ours < |states[|states| - 1].commits|
    ensures states[|states| - 1].commits[l.ours].parent == l.s.base <==> l.s.base.Some? || l.seen.None?
  {
    RunKeepsInv(states);
    var st := states[|states| - 1];
    var i :| 0 <= i < |st.passed| && st.passed[i] == l;
    assert PassedOK(st.commits, st.passed[i]);
  }

  /** An amend is not checked either: it replaces the commit it was built on exactly
      when HEAD had not moved by the time git started. */
  lemma AmendReplacesBaseIff(states: seq<State>, l: Landing)
    requires Run(states) && l in states[|states| - 1].passed && l.s.amend && l.s.base.Some?
    ensures l.ours < |states[|states| - 1].commits|
    ensures
      var commits := states[|states| - 1].commits;
      commits[l.ours].parent == ParentOf(commits, l.s.base) <==> l.seen == l.s.base
  {
    RunKeepsInv(states);
    var st := states[|states| - 1];
    var i :| 0 <= i < |st.passed| && st.passed[i] == l;
    assert PassedOK(st.commits, st.passed[i]);
  }

  /** On an unborn branch, a process that has staged "b" while an outside writer landed "a". */
  lemma OutsiderLandsFirst(ses: Session, theirs: Commit) returns (states: seq<State>)
    requires ses == Session(None, map[], map["b" := Entry("100644", "2")], map["b" := Some(Entry("100644", "2"))], false)
    requires theirs == Commit(None, map["a" := Entry("100644", "1")])
    ensures states != [] && Run(states)
    ensures states[|states| - 1] == State([theirs], Some(0), Some(7), map[7 := Staging(ses)], [])
  {
    hide Run;
    var f := Entry("100644", "2");
    var s0 := State([], None, None, map[], []);
    var s1 := State([], None, Some(7), map[7 := Locked], []);
    var empty := Session(None, map[], map[], map[], false);
    var s2 := State([], None, Some(7), map[7 := Staging(empty)], []);
    var s3 := State([], None, Some(7), map[7 := Staging(ses)], []);
    states := Starting(s0);
    states := ThenMove(states, s1, 7) by { assert Acquire(s0, s1, 7); }
    states := ThenMove(states, s2, 7) by { assert Seed(s1, s2, 7, false); }
    states := ThenMove(states, s3, 7) by {
      assert Stage(empty, "b", Some(f)) == ses;
      assert StageOne(s2, s3, 7, "b", Some(f));
    }
    states := ThenOutside(states, theirs);
  }

  /** A run that ends with an outside writer's file undone by a reported success: the
      branch was unborn when rgit read HEAD and an outside writer landed first. */
  lemma UnbornBranchUndoesOutsider() returns (states: seq<State>, l: Landing, path: Path)
    ensures states != [] && Run(states)
    ensures l in states[|states| - 1].passed && !l.s.amend && path !in l.s.touched
    ensures
      var commits := states[|states| - 1].commits;
      && l.ours < |commits|
      && !SameAt(commits[l.ours].tree, TreeOf(commits, commits[l.ours].parent), path)
  {
    hide Run, SameAt;
    path := "a";
    var ses := Session(None, map[], map["b" := Entry("100644", "2")], map["b" := Some(Entry("100644", "2"))], false);
    var theirs := Commit(None, map["a" := Entry("100644", "1")]);
    var ours := Commit(Some(0), ses.index);
    l := Landing(ses, Some(0), 1);
    var s4 := State([theirs], Some(0), Some(7), map[7 := Staging(ses)], []);
    var s5 := State([theirs], Some(0), Some(7), map[7 := Committing(ses, Some(0))], []);
    var s6 := State([theirs, ours], Some(1), Some(7), map[7 := Landed(ses, Some(0), 1)], []);
    var s7 := State([theirs, ours], Some(1), Some(7), map[7 := Finished], [l]);
    states := OutsiderLandsFirst(ses, theirs);
    states := ThenMove(states, s5, 7) by { assert GitStart(s4, s5, 7); }
    states := ThenMove(states, s6, 7) by { assert GitFinish(s5, s6, 7); }
    states := ThenMove(states, s7, 7) by { assert Finish(s6, s7, 7); }
    OnlyOneHas(ours.tree, theirs.tree, path);
  }

  /** A run that ends with a reported amend replacing an outside writer's commit, not the one
      it was built on, and undoing that writer's file. */
  lemma AmendUndoesOutsider() returns (states: seq<State>, l: Landing, path: Path)
    ensures states != [] && Run(states)
    ensures l in states[|states| - 1].passed && l.s.amend && l.s.base.Some? && path !in l.s.touched
    ensures
      var commits := states[|states| - 1].commits;
      && l.ours < |commits| && commits[l.ours].parent == l.s.base && l.seen.Some? && l.seen != l.s.base
      && l.seen.value < |commits| && !SameAt(commits[l.ours].tree, commits[l.seen.value].tree, path)
  {
    hide Run, SameAt;
    path := "a";
    var first := Commit(None, map[]);
    var theirs := Commit(Some(0), map["a" := Entry("100644", "1")]);
    var ses := Session(Some(0), map[], map[], map[], true);
    var ours := Commit(Some(0), map[]);
    l := Landing(ses, Some(1), 2);
    var s0 := State([first], Some(0), None, map[], []);
    var s1 := State([first], Some(0), Some(7), map[7 := Locked], []);
    var s2 := State([first], Some(0), Some(7), map[7 := Staging(ses)], []);
    var s3 := State([first, theirs], Some(1), Some(7), map[7 := Staging(ses)], []);
    var s4 := State([first, theirs], Some(1), Some(7), map[7 := Committing(ses, Some(1))], []);
    var s5 := State([first, theirs, ours], Some(2), Some(7), map[7 := Landed(ses, Some(1), 2)], []);
    var s6 := State([first, theirs, ours], Some(2), Some(7), map[7 := Finished], [l]);
    states := Starting(s0);
    states := ThenMove(states, s1, 7) by { assert Acquire(s0, s1, 7); }
    states := ThenMove(states, s2, 7) by { assert Seed(s1, s2, 7, true); }
    states := ThenOutside(states, theirs);
    assert states[|states| - 1] == s3;
    states := ThenMove(states, s4, 7) by { assert GitStart(s3, s4, 7); }
    states := ThenMove(states, s5, 7) by { assert GitFinish(s4, s5, 7); }
    states := ThenMove(states, s6, 7) by { assert Finish(s5, s6, 7); }
    OnlyOneHas(ours.tree, theirs.tree, path);
  }

  lemma OnlyOneHas(a: Tree, b: Tree, path: Path)
    requires path in b && path !in a
    ensures !SameAt(a, b, path)
  {
  }

  lemma Starting(st: State) returns (states: seq<State>)
    requires Init(st)
    ensures states != [] && Run(states) && states[|states| - 1] == st
  {
    states := [st];
  }

  lemma ThenMove(states: seq<State>, st: State, p: Pid) returns (longer: seq<State>)
    requires states != [] && Run(states) && RgitStep(states[|states| - 1], st, p)
    ensures longer != [] && Run(longer) && longer[|longer| - 1] == st
  {
    hide RgitStep, Init;
    assert Next(states[|states| - 1], st);
    longer := states + [st];
  }

  lemma ThenOutside(states: seq<State>, c: Commit) returns (longer: seq<State>)
    requires states != [] && Run(states) && c.parent == states[|states| - 1].head
    ensures longer != [] && Run(longer)
    ensures
      var st := states[|states| - 1];
      longer[|longer| - 1] == st.(commits := st.commits + [c], head := Some(|st.commits|))
  {
    hide RgitStep, Init;
    var st := states[|states| - 1];
    var st' := st.(commits := st.commits + [c], head := Some(|st.commits|));
    assert Outside(st, st', c.tree);
    assert Next(states[|states| - 1], st');
    longer := states + [st'];
  }

  // ----- without outside writers -----

  ghost predicate RgitMoves(st: State, st': State) {
    exists p: Pid :: RgitStep(st, st', p)
  }

  ghost predicate LockedRun(states: seq<State>) {
    Run(states) && forall i :: 0 < i < |states| ==> RgitMoves(states[i - 1], states[i])
  }

  /** HEAD has not moved since this process read it. */
  ghost predicate Undisturbed(st: State, ph: Phase) {
    match ph
    case Staging(s) => s.base == st.head
    case Committing(s, seen) => s.base == st.head && seen == st.head
    case Landed(s, seen, ours) => st.head == Some(ours) && seen == s.base
    case _ => true
  }

  ghost predicate Quiet(st: State) {
    Inv(st) && forall p: Pid :: Undisturbed(st, PhaseOf(st, p))
  }

  lemma QuietStep(st: State, st': State, p: Pid)
    requires Quiet(st) && RgitStep(st, st', p)
    ensures Quiet(st')
  {
    RgitStepKeepsInv(st, st', p);
    assert Undisturbed(st, PhaseOf(st, p));
    forall q: Pid
      ensures Undisturbed(st', PhaseOf(st', q))
    {
      if q != p {
        assert PhaseOf(st', q) == PhaseOf(st, q) && Undisturbed(st, PhaseOf(st, q));
        if !PhaseOf(st, q).Idle? && !PhaseOf(st, p).Idle? {
          OneHolder(st, p, q);
        }
      }
    }
  }

  lemma {:induction false} LockedRunQuiet(states: seq<State>)
    requires LockedRun(states)
    ensures Quiet(states[|states| - 1])
  {
    hide RgitStep, Inv;
    if |states| == 1 {
      InitInv(states[0]);
    } else {
      var before := states[..|states| - 1];
      assert forall i :: 0 <= i < |before| ==> before[i] == states[i];
      LockedRunQuiet(before);
      assert RgitMoves(states[|states| - 1 - 1], states[|states| - 1]);
      var p: Pid :| RgitStep(states[|states| - 1 - 1], states[|states| - 1], p);
      QuietStep(states[|states| - 2], states[|states| - 1], p);
    }
  }

  /** With no outside writer, HEAD is the recorded base when git starts, so the parent
      is always the base, unborn or not, and the check never refuses a commit. */
  lemma LockAloneSuffices(states: seq<State>, p: Pid)
    requires LockedRun(states)
    ensures
      var st := states[|states| - 1];
      && (PhaseOf(st, p).Committing? ==> PhaseOf(st, p).seen == PhaseOf(st, p).s.base == st.head)
      && (PhaseOf(st, p).Landed? ==>
            var l := PhaseOf(st, p);
            && PassesCheck(st, l.s) && l.ours < |st.commits|
            && st.commits[l.ours].parent == if l.s.amend then ParentOf(st.commits, l.s.base) else l.s.base)
  {
    LockedRunQuiet(states);
    var st := states[|states| - 1];
    assert Undisturbed(st, PhaseOf(st, p));
    assert PhaseOK(st.commits, st.head, PhaseOf(st, p));
  }
}
