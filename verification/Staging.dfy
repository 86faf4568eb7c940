/** Staging through a temporary index file, and undoing it when the commit fails.
    Every system call and git invocation that can fail takes its outcome from a list
    of fates, so what is proved holds for every choice of failing steps. */
module Staging {
  import opened Bytes
  import opened OnlyProtocol
  import opened IndexSync

  /** An index file; `Torn` is one git refuses to read, a zero-length file included. */
  datatype IndexFile = Whole(entries: Tree) | Torn(bytes: Text)

  datatype Blob = Blob(path: Path, entry: Entry)

  /** What a plan writes: what `git add` makes of its pathspecs (`None` removes the
      entry), then one synthesized blob per file. */
  datatype Plan = Plan(pathspecs: seq<string>, added: map<Path, Option<Entry>>, blobs: seq<Blob>)

  // ----- what a plan stages -----

  /** One index write by git, which leaves an index that needs no change alone. */
  function Rewritten(file: Option<IndexFile>, changes: map<Path, Option<Entry>>): Option<IndexFile> {
    if changes == map[] || file == Some(Torn(TornBytes(file))) then file
    else
      var entries := if file.Some? then file.value.entries else map[];
      Some(Whole(map path | path in entries.Keys + changes.Keys && (path in changes ==> changes[path].Some?) ::
        if path in changes then changes[path].value else entries[path]))
  }

  function TornBytes(file: Option<IndexFile>): Text {
    if file.Some? && file.value.Torn? then file.value.bytes else []
  }

  predicate Readable(file: Option<IndexFile>) {
    file.Some? ==> file.value.Whole?
  }

  function WithBlobs(file: Option<IndexFile>, blobs: seq<Blob>): Option<IndexFile> {
    if blobs == [] then file
    else
      var last := blobs[|blobs| - 1];
      Rewritten(WithBlobs(file, blobs[..|blobs| - 1]), map[last.path := Some(last.entry)])
  }

  lemma WithNoBlobs(file: Option<IndexFile>)
    ensures WithBlobs(file, []) == file
  {
  }

  lemma WithBlobsNext(file: Option<IndexFile>, blobs: seq<Blob>, i: nat)
    requires i < |blobs|
    ensures WithBlobs(file, blobs[..i + 1])
            == Rewritten(WithBlobs(file, blobs[..i]), map[blobs[i].path := Some(blobs[i].entry)])
  {
    assert blobs[..i + 1][..i] == blobs[..i];
  }

  function Planned(file: Option<IndexFile>, plan: Plan): Option<IndexFile> {
    WithBlobs(if plan.pathspecs == [] then file else Rewritten(file, plan.added), plan.blobs)
  }

  function Lookup(file: Option<IndexFile>, path: Path): Option<Entry> {
    if file.Some? && file.value.Whole? && path in file.value.entries then Some(file.value.entries[path]) else None
  }

  ghost predicate IsLast(blobs: seq<Blob>, path: Path, i: int) {
    0 <= i < |blobs| && blobs[i].path == path && forall j :: i < j < |blobs| ==> blobs[j].path != path
  }

  /** The plan's last word on `path`: an entry, or its absence. */
  ghost predicate Names(plan: Plan, path: Path, made: Option<Entry>) {
    || (exists i :: IsLast(plan.blobs, path, i) && made == Some(plan.blobs[i].entry))
    || (plan.pathspecs != [] && path in plan.added && made == plan.added[path]
          && forall j :: 0 <= j < |plan.blobs| ==> plan.blobs[j].path != path)
  }

  lemma RewrittenLookup(file: Option<IndexFile>, changes: map<Path, Option<Entry>>, path: Path)
    requires Readable(file)
    ensures Readable(Rewritten(file, changes))
    ensures Lookup(Rewritten(file, changes), path) == if path in changes then changes[path] else Lookup(file, path)
  {
  }

  lemma {:induction false} BlobsLookup(file: Option<IndexFile>, blobs: seq<Blob>, path: Path)
    requires Readable(file)
    ensures Readable(WithBlobs(file, blobs))
    ensures (forall j :: 0 <= j < |blobs| ==> blobs[j].path != path) ==>
              Lookup(WithBlobs(file, blobs), path) == Lookup(file, path)
    ensures forall i :: IsLast(blobs, path, i) ==> Lookup(WithBlobs(file, blobs), path) == Some(blobs[i].entry)
  {
    hide Lookup, Rewritten, Readable;
    if blobs != [] {
      var rest, last := blobs[..|blobs| - 1], blobs[|blobs| - 1];
      BlobsLookup(file, rest, path);
      RewrittenLookup(WithBlobs(file, rest), map[last.path := Some(last.entry)], path);
      forall i | IsLast(blobs, path, i)
        ensures Lookup(WithBlobs(file, blobs), path) == Some(blobs[i].entry)
      {
        if i < |rest| {
          assert IsLast(rest, path, i);
        }
      }
    }
  }

  /** A plan writes the paths it names, the last word on each winning, and no other. */
  lemma PlannedNamesOnly(file: Option<IndexFile>, plan: Plan, path: Path)
    requires Readable(file)
    ensures Readable(Planned(file, plan))
    ensures forall made :: Names(plan, path, made) ==> Lookup(Planned(file, plan), path) == made
    ensures (exists made :: Names(plan, path, made)) || Lookup(Planned(file, plan), path) == Lookup(file, path)
  {
    hide Lookup, Rewritten, Readable, WithBlobs;
    RewrittenLookup(file, plan.added, path);
    var base := if plan.pathspecs == [] then file else Rewritten(file, plan.added);
    BlobsLookup(base, plan.blobs, path);
    if exists i :: 0 <= i < |plan.blobs| && plan.blobs[i].path == path {
      var i := LastNaming(plan.blobs, path);
      assert Names(plan, path, Some(plan.blobs[i].entry));
    } else if plan.pathspecs != [] && path in plan.added {
      assert Names(plan, path, plan.added[path]);
    }
  }

  lemma {:induction false} LastNaming(blobs: seq<Blob>, path: Path) returns (i: nat)
    requires exists i :: 0 <= i < |blobs| && blobs[i].path == path
    ensures IsLast(blobs, path, i)
  {
    i := |blobs| - 1;
    if blobs[i].path != path {
      i := LastNaming(blobs[..i], path);
    }
  }

  /** Staging leaves every entry as it was exactly when the plan only repeats what is there. */
  lemma PlannedChangesNothingIff(file: Option<IndexFile>, plan: Plan)
    requires Readable(file)
    ensures (forall path :: Lookup(Planned(file, plan), path) == Lookup(file, path))
            <==> forall path, made :: Names(plan, path, made) ==> made == Lookup(file, path)
  {
    hide Lookup, Planned, Names, Readable;
    forall path {
      PlannedNamesOnly(file, plan, path);
    }
  }

  // ----- the disk, and calls that may fail -----

  /** How one call ends; a failed write may leave anything, or nothing, at its target. */
  datatype Fate = Fine | Fault(left: Option<IndexFile>)

  datatype Call = FindIndex | CreateTemp | ReadIndex | SeedTemp | CloseTemp | KeepTimes | ClearTemp
                | GitAdd | FileMode | HashObject | UpdateIndex | ReadBack | WriteBack | ReadMessage | GitCommit
                | ReadParent | HeadMoved | ReadPrivate | ReadShared | CopyIntoIndex

  datatype Outcome = Done | Failed(at: Call)

  /** A failed commit also says whether the index was put back. */
  datatype CommitOutcome = Committed | Refused(at: Call, restored: bool)

  /** `NoSnapshot` when nothing was staged; `Snapshot(None)` when no index file existed. */
  datatype IndexSnapshot = NoSnapshot | Snapshot(data: Option<IndexFile>)

  function At(files: map<string, IndexFile>, path: string): Option<IndexFile> {
    if path in files then Some(files[path]) else None
  }

  function Put(files: map<string, IndexFile>, path: string, file: Option<IndexFile>): map<string, IndexFile> {
    if file.Some? then files[path := file.value] else files - {path}
  }

  ghost predicate Calm(fates: seq<Fate>) {
    forall i :: 0 <= i < |fates| ==> fates[i].Fine?
  }

  function Faults(fates: seq<Fate>): nat {
    if fates == [] then 0 else (if fates[0].Fault? then 1 else 0) + Faults(fates[1..])
  }

  lemma {:induction false} NoFaultsIsCalm(fates: seq<Fate>)
    ensures Faults(fates) == 0 <==> Calm(fates)
  {
    if fates != [] {
      NoFaultsIsCalm(fates[1..]);
      assert forall i :: 0 < i < |fates| ==> fates[i] == fates[1..][i - 1];
    }
  }

  class Disk {
    const index: string
    var files: map<string, IndexFile>
    var fates: seq<Fate>

    constructor (index: string, files: map<string, IndexFile>, fates: seq<Fate>)
      ensures this.index == index && this.files == files && this.fates == fates
    {
      this.index, this.files, this.fates := index, files, fates;
    }

    /** The fate of the next call; a list that has run out means no more faults. */
    method Next() returns (fate: Fate)
      modifies this`fates
      ensures fates == if old(fates) == [] then [] else old(fates)[1..]
      ensures fate == if old(fates) == [] then Fine else old(fates)[0]
      ensures Calm(old(fates)) ==> fate.Fine? && Calm(fates)
      ensures Faults(fates) == Faults(old(fates)) - if fate.Fault? then 1 else 0
    {
      fate := Fine;
      if fates != [] {
        fate, fates := fates[0], fates[1..];
      }
    }

    /** `os.Remove`; its error is the caller's to look at or to ignore. */
    method Remove(path: string) returns (ok: bool)
      modifies this
      ensures forall p :: p != path ==> At(files, p) == At(old(files), p)
      ensures At(files, path) == if ok then None else At(old(files), path)
      ensures Calm(old(fates)) ==> ok && Calm(fates)
      ensures Faults(fates) <= Faults(old(fates))
    {
      var fate := Next();
      ok := fate.Fine?;
      if ok {
        files := files - {path};
      }
    }

    /** `os.WriteFile`. */
    method WriteFile(path: string, data: IndexFile) returns (ok: bool)
      modifies this
      ensures forall p :: p != path ==> At(files, p) == At(old(files), p)
      ensures ok <==> old(fates) == [] || old(fates)[0].Fine?
      ensures At(files, path) == if ok then Some(data) else old(fates)[0].left
      ensures Calm(old(fates)) ==> ok && Calm(fates)
      ensures Faults(fates) <= Faults(old(fates))
    {
      var fate := Next();
      ok := fate.Fine?;
      files := Put(files, path, if ok then Some(data) else fate.left);
    }

    /** A git command that rewrites the index file at `path`. */
    method GitWrite(path: string, changes: map<Path, Option<Entry>>) returns (ok: bool)
      modifies this
      ensures forall p :: p != path ==> At(files, p) == At(old(files), p)
      ensures ok ==> Readable(At(old(files), path)) && At(files, path) == Rewritten(At(old(files), path), changes)
      ensures Calm(old(fates)) ==> Calm(fates) && (Readable(At(old(files), path)) ==> ok)
      ensures Faults(fates) <= Faults(old(fates)) - if !ok && Readable(At(old(files), path)) then 1 else 0
    {
      var fate := Next();
      ok := fate.Fine? && Readable(At(files, path));
      if ok {
        files := Put(files, path, Rewritten(At(files, path), changes));
      } else if fate.Fault? {
        files := Put(files, path, fate.left);
      }
    }

    /** Seeds the temporary file as a copy of the index, or leaves it missing when the
        index is. `os.CreateTemp` promises that `temp` is a new name. */
    method NewTempStaging(temp: string) returns (res: Outcome)
      requires temp !in files && temp != index
      modifies this
      ensures forall p :: p != temp ==> At(files, p) == At(old(files), p)
      ensures res.Done? ==> At(files, temp) == At(files, index)
      ensures res.Failed? ==> res.at in {FindIndex, CreateTemp, ReadIndex, SeedTemp, CloseTemp, KeepTimes, ClearTemp}
      ensures Calm(old(fates)) ==> res.Done? && Calm(fates)
      ensures Faults(fates) <= Faults(old(fates))
    {
      hide Faults;
      var fate := Next();
      if fate.Fault? {
        return Failed(FindIndex);
      }
      fate := Next();
      if fate.Fault? {
        return Failed(CreateTemp);
      }
      files := files[temp := Torn([])];
      fate := Next();
      if fate.Fault? {
        var removed := Remove(temp);
        return Failed(ReadIndex);
      }
      if index !in files {
        fate := Next();
        if fate.Fault? {
          var removed := Remove(temp);
          return Failed(CloseTemp);
        }
        var ok := Remove(temp);
        return if ok then Done else Failed(ClearTemp);
      }
      var seeded := WriteFile(temp, files[index]);
      if !seeded {
        var removed := Remove(temp);
        return Failed(SeedTemp);
      }
      fate := Next();
      if fate.Fault? {
        var removed := Remove(temp);
        return Failed(CloseTemp);
      }
      fate := Next();
      if fate.Fault? {
        var removed := Remove(temp);
        return Failed(KeepTimes);
      }
      return Done;
    }

    /** Writes the plan's entries into the index file at `target`, and nothing else. */
    method StageInto(plan: Plan, target: string) returns (res: Outcome)
      modifies this
      ensures forall p :: p != target ==> At(files, p) == At(old(files), p)
      ensures res.Done? ==> At(files, target) == Planned(At(old(files), target), plan)
      ensures res.Failed? ==> res.at in {GitAdd, FileMode, HashObject, UpdateIndex}
      ensures Calm(old(fates)) ==> Calm(fates) && (Readable(At(old(files), target)) ==> res.Done?)
      ensures Faults(fates) <= Faults(old(fates))
    {
      hide Rewritten, At, Readable, WithBlobs, Calm;
      if plan.pathspecs != [] {
        var ok := GitWrite(target, plan.added);
        if !ok {
          return Failed(GitAdd);
        }
      }
      ghost var base := At(files, target);
      if plan.pathspecs != [] && Readable(At(old(files), target)) {
        RewrittenLookup(At(old(files), target), plan.added, "");
      }
      assert plan.blobs[..0] == [];
      WithNoBlobs(base);
      for i := 0 to |plan.blobs|
        invariant forall p :: p != target ==> At(files, p) == At(old(files), p)
        invariant At(files, target) == WithBlobs(base, plan.blobs[..i])
        invariant Calm(old(fates)) ==> Calm(fates)
        invariant Faults(fates) <= Faults(old(fates))
      {
        var mode := Next();
        if mode.Fault? {
          return Failed(FileMode);
        }
        var hashed := Next();
        if hashed.Fault? {
          return Failed(HashObject);
        }
        var blob := plan.blobs[i];
        if Readable(base) {
          BlobsLookup(base, plan.blobs[..i], blob.path);
        }
        var ok := GitWrite(target, map[blob.path := Some(blob.entry)]);
        if !ok {
          return Failed(UpdateIndex);
        }
        WithBlobsNext(base, plan.blobs, i);
      }
      assert plan.blobs[..|plan.blobs|] == plan.blobs;
      return Done;
    }

    /** Moves the staged file over the index: a rename, else a byte copy. */
    method Swap(temp: string) returns (res: Outcome)
      requires temp != index
      modifies this
      ensures forall p :: p != temp && p != index ==> At(files, p) == At(old(files), p)
      ensures res.Done? ==> At(files, index) == if temp in old(files) then At(old(files), temp) else At(old(files), index)
      ensures res.Failed? ==> res.at in {ReadBack, WriteBack}
      ensures res == Failed(ReadBack) ==> At(files, index) == At(old(files), index)
      ensures res == Failed(WriteBack) <==>
                temp in old(files) && |old(fates)| > 2
                && old(fates)[0].Fault? && old(fates)[1].Fine? && old(fates)[2].Fault?
      ensures res == Failed(WriteBack) ==> At(files, index) == old(fates)[2].left
      ensures Calm(old(fates)) ==> res.Done? && Calm(fates)
      ensures Faults(fates) <= Faults(old(fates))
    {
      if temp !in files {
        return Done;
      }
      var renamed := Next();
      if renamed.Fine? {
        files := files[index := files[temp]] - {temp};
        return Done;
      }
      var read := Next();
      if read.Fault? {
        return Failed(ReadBack);
      }
      var ok := WriteFile(index, files[temp]);
      if !ok {
        return Failed(WriteBack);
      }
      ok := Remove(temp);
      return Done;
    }

    /** The whole staging step. On every failure but one the caller's index, or its
        absence, is exactly as found; that one is the copy that stands in for a failed
        rename, when it too stops part-way. */
    method Apply(plan: Plan, temp: string) returns (res: Outcome)
      requires temp !in files && temp != index
      modifies this
      ensures forall p :: p != temp && p != index ==> At(files, p) == At(old(files), p)
      ensures res.Failed? && res.at != WriteBack ==> At(files, index) == At(old(files), index)
      ensures res.Failed? ==> res.at !in {ReadMessage, GitCommit, ReadParent, HeadMoved, ReadPrivate, ReadShared, CopyIntoIndex}
      ensures res.Done? ==> At(files, index) == Planned(At(old(files), index), plan)
      ensures Calm(old(fates)) && Readable(At(old(files), index)) ==> res.Done? && Calm(fates)
      ensures Faults(fates) <= Faults(old(fates))
    {
      if plan.pathspecs == [] && plan.blobs == [] {
        return Done;
      }
      res := NewTempStaging(temp);
      if res.Failed? {
        return;
      }
      res := StageInto(plan, temp);
      if res.Done? {
        if At(old(files), index).Some? {
          PlannedIsPresent(At(old(files), index), plan);
        }
        res := Swap(temp);
      }
      if res.Failed? {
        var removed := Remove(temp);
      }
    }

    /** `None` when the index cannot be read. */
    method TakeSnapshot() returns (res: Outcome, snap: IndexSnapshot)
      modifies this`fates
      ensures res.Done? ==> snap == Snapshot(At(files, index))
      ensures res.Failed? ==> res.at in {FindIndex, ReadIndex}
      ensures Calm(old(fates)) ==> res.Done? && Calm(fates)
      ensures Faults(fates) <= Faults(old(fates))
    {
      snap := NoSnapshot;
      var fate := Next();
      if fate.Fault? {
        return Failed(FindIndex), snap;
      }
      fate := Next();
      if fate.Fault? {
        return Failed(ReadIndex), snap;
      }
      return Done, Snapshot(if index in files then Some(files[index]) else None);
    }

    /** Writes the snapshot back, or removes the file when there was none. */
    method Restore(snap: IndexSnapshot) returns (ok: bool)
      modifies this
      ensures forall p :: p != index ==> At(files, p) == At(old(files), p)
      ensures snap.NoSnapshot? ==> ok && files == old(files)
      ensures ok && snap.Snapshot? ==> At(files, index) == snap.data
      ensures Calm(old(fates)) ==> ok
    {
      if snap.NoSnapshot? {
        return true;
      }
      if snap.data.None? {
        var existed := index in files;
        ok := Remove(index);
        return ok || !existed;
      }
      ok := WriteFile(index, snap.data.value);
      if ok {
        var mode := Next();
        ok := mode.Fine?;
      }
    }

    /** `diff-index --cached` against a tree, on the index file at `path`. */
    method CachedEntries(path: string, base: Tree) returns (ok: bool, found: map<Path, Entry>)
      modifies this`fates
      ensures ok ==> Readable(At(files, path)) && found == Differing(EntriesOf(At(files, path)), base)
      ensures Calm(old(fates)) ==> Calm(fates) && (Readable(At(files, path)) ==> ok)
    {
      var fate := Next();
      ok, found := fate.Fine? && Readable(At(files, path)), map[];
      if ok {
        found := Differing(EntriesOf(At(files, path)), base);
      }
    }

    /** `finishOnlyCommit`, after git has made the commit: the moved-HEAD check, then the
        copy-back into the shared index. `checked` says that the commit is no amend and had
        a base; `moved` is what the comparison finds. */
    method FinishOnly(private: string, checked: bool, moved: bool, base: Tree) returns (res: Outcome)
      requires private != index
      modifies this
      ensures forall p :: p != index ==> At(files, p) == At(old(files), p)
      ensures res.Failed? ==> res.at in {ReadParent, HeadMoved, ReadPrivate, ReadShared, CopyIntoIndex}
      ensures res.Failed? && res.at != CopyIntoIndex ==> At(files, index) == At(old(files), index)
      ensures res == Failed(HeadMoved) ==> checked && moved
      ensures res.Done? ==> !(checked && moved)
      ensures res.Done? ==> At(files, index) == Synced(At(old(files), index), At(files, private), base)
      ensures Calm(old(fates)) && Readable(At(old(files), index)) && Readable(At(old(files), private)) ==>
                (res.Done? <==> !(checked && moved))
    {
      hide Synced, Differing, Disagreeing;
      if checked {
        var parent := Next();
        if parent.Fault? {
          return Failed(ReadParent);
        }
        if moved {
          return Failed(HeadMoved);
        }
      }
      var ok, changed := CachedEntries(private, base);
      if !ok {
        return Failed(ReadPrivate);
      }
      var current: map<Path, Entry>;
      ok, current := CachedEntries(index, base);
      if !ok {
        return Failed(ReadShared);
      }
      var todo := DropAgreeing(changed, current);
      SyncedIs(At(files, index), At(files, private), base);
      if todo == map[] {
        return Done;
      }
      ok := GitWrite(index, AsChanges(todo));
      return if ok then Done else Failed(CopyIntoIndex);
    }

    /** `commit` from staging to rollback. `plan` is absent for an amend or empty commit
        that names no target; `only` is the private index of a `--only` commit; `hooks` is
        what git's hooks stage before it commits. A failed commit leaves in the index git
        ran on whatever the hooks wrote there. `tree` is what is committed. */
    method RunCommit(plan: Option<Plan>, temp: string, only: Option<string>, messageOnStdin: bool,
                     hooks: map<Path, Option<Entry>>, checked: bool, moved: bool, base: Tree)
      returns (res: CommitOutcome, tree: Tree)
      requires temp !in files && temp != index
      requires only.Some? ==> only.value != index && only.value != temp
      modifies this
      ensures forall p :: p != temp && p != index && Some(p) != only ==> At(files, p) == At(old(files), p)
      ensures res.Committed? && only.None? ==>
                && At(files, index) == Rewritten(Targeted(At(old(files), index), plan), hooks)
                && tree == EntriesOf(At(files, index))
      ensures res.Committed? && only.Some? ==>
                && At(files, only.value) == Rewritten(Targeted(At(old(files), only.value), plan), hooks)
                && tree == EntriesOf(At(files, only.value)) && !(checked && moved)
                && At(files, index) == Synced(At(old(files), index), At(files, only.value), base)
      ensures res.Refused? && only.Some? && res.at != CopyIntoIndex ==> At(files, index) == At(old(files), index)
      ensures res.Refused? && res.at in {ReadParent, HeadMoved, ReadPrivate, ReadShared, CopyIntoIndex} ==> only.Some?
      ensures res.Refused? && res.at !in {WriteBack, ReadMessage, GitCommit, CopyIntoIndex} ==>
                At(files, index) == At(old(files), index)
      ensures res.Refused? && res.at == GitCommit && res.restored && plan.Some? ==>
                At(files, index) == At(old(files), index)
      ensures (&& res.Refused? && res.at == GitCommit && Faults(old(fates)) <= 1 && Readable(At(old(files), index))
               && (only.Some? ==> Readable(At(old(files), only.value)))) ==> res.restored
      ensures res.Refused? && res.at == ReadMessage ==>
                At(files, index) == if only.None? then Targeted(At(old(files), index), plan) else At(old(files), index)
      ensures (&& Calm(old(fates)) && Readable(At(old(files), index))
               && (only.Some? ==> Readable(At(old(files), only.value)))) ==>
                (res.Committed? <==> !(only.Some? && checked && moved))
    {
      hide Planned, Synced, Faults, Rewritten, Readable;
      var ran := if only.Some? then only.value else index;
      var snap, staged := NoSnapshot, Done;
      tree := map[];
      if plan.Some? {
        if only.Some? {
          staged := StageInto(plan.value, only.value);
        } else {
          staged, snap := TakeSnapshot();
          if staged.Done? {
            staged := Apply(plan.value, temp);
          }
        }
        if staged.Failed? {
          return Refused(staged.at, false), tree;
        }
      }
      assert At(files, ran) == Targeted(At(old(files), ran), plan);
      if messageOnStdin {
        var message := Next();
        if message.Fault? {
          return Refused(ReadMessage, false), tree;
        }
      }
      StillReadable(At(old(files), ran), plan);
      var made := GitWrite(ran, hooks);
      if !made {
        NoFaultsIsCalm(fates);
        var restored := Restore(snap);
        return Refused(GitCommit, restored), tree;
      }
      tree := EntriesOf(At(files, ran));
      RewrittenReadable(Targeted(At(old(files), ran), plan), hooks);
      if only.None? {
        return Committed, tree;
      }
      var finished := FinishOnly(only.value, checked, moved, base);
      if finished.Failed? {
        var restored := Restore(snap);
        return Refused(finished.at, restored), tree;
      }
      return Committed, tree;
    }
  }

  // ----- what a commit holds -----

  /** An index file with the plan's targets staged, when there is a plan. */
  function Targeted(file: Option<IndexFile>, plan: Option<Plan>): Option<IndexFile> {
    if plan.Some? then Planned(file, plan.value) else file
  }

  lemma StillReadable(file: Option<IndexFile>, plan: Option<Plan>)
    ensures Readable(file) ==> Readable(Targeted(file, plan))
  {
    if Readable(file) && plan.Some? {
      PlannedNamesOnly(file, plan.value, "");
    }
  }

  lemma RewrittenReadable(file: Option<IndexFile>, changes: map<Path, Option<Entry>>)
    ensures Readable(file) ==> Readable(Rewritten(file, changes))
  {
    if Readable(file) {
      RewrittenLookup(file, changes, "");
    }
  }

  /** The committed tree has each target as planned, removals included, whatever hooks
      staged on top, and every other path as the index had it. */
  lemma CommitHoldsTargets(file: Option<IndexFile>, plan: Option<Plan>, hooks: map<Path, Option<Entry>>, path: Path)
    requires Readable(file)
    ensures
      var tree := EntriesOf(Rewritten(Targeted(file, plan), hooks));
      var got := if path in tree then Some(tree[path]) else None;
      && (path in hooks ==> got == hooks[path])
      && (path !in hooks && plan.Some? ==> forall made :: Names(plan.value, path, made) ==> got == made)
      && (path !in hooks && (plan.None? || !exists made :: Names(plan.value, path, made)) ==> got == Lookup(file, path))
  {
    hide Planned, Rewritten, Names;
    if plan.Some? {
      PlannedNamesOnly(file, plan.value, path);
    }
    RewrittenLookup(Targeted(file, plan), hooks, path);
  }

  // ----- the copy-back on index files -----

  function EntriesOf(file: Option<IndexFile>): Tree {
    if file.Some? && file.value.Whole? then file.value.entries else map[]
  }

  /** A record of mode 000000 removes its entry. */
  function AsChanges(records: map<Path, Entry>): map<Path, Option<Entry>> {
    map path | path in records :: if records[path].mode == "000000" then None else Some(records[path])
  }

  /** The shared index file after a `--only` commit: left alone when it has everything the
      commit changed, else the copy-back. */
  function Synced(shared: Option<IndexFile>, private: Option<IndexFile>, base: Tree): Option<IndexFile> {
    if Disagreeing(Differing(EntriesOf(private), base), Differing(EntriesOf(shared), base)) == map[] then shared
    else Some(Whole(CopyBack(EntriesOf(shared), EntriesOf(private), base)))
  }

  /** The records are exactly the entries to rewrite. */
  lemma SyncedIs(shared: Option<IndexFile>, private: Option<IndexFile>, base: Tree)
    requires Readable(shared) && Readable(private)
    ensures
      var todo := Disagreeing(Differing(EntriesOf(private), base), Differing(EntriesOf(shared), base));
      Synced(shared, private, base) == if todo == map[] then shared else Rewritten(shared, AsChanges(todo))
  {
    hide Differing, Disagreeing;
    var todo := Disagreeing(Differing(EntriesOf(private), base), Differing(EntriesOf(shared), base));
    if todo != map[] {
      var path :| path in todo;
      assert path in AsChanges(todo);
      var entries := EntriesOf(shared);
      assert CopyBack(entries, EntriesOf(private), base) == Rewritten(shared, AsChanges(todo)).value.entries;
    }
  }

  /** Each path the commit changed reads in the shared index as in the private one; every
      other path is as it was. */
  lemma SyncedAgrees(shared: Option<IndexFile>, private: Option<IndexFile>, base: Tree, path: Path)
    requires Readable(shared) && Readable(private) && ValidIndex(EntriesOf(shared)) && ValidIndex(EntriesOf(private))
    ensures Lookup(Synced(shared, private, base), path) ==
            if SameAt(EntriesOf(private), base, path) then Lookup(shared, path) else Lookup(private, path)
  {
    CopyBackAgrees(EntriesOf(shared), EntriesOf(private), base, path);
    var todo := Disagreeing(Differing(EntriesOf(private), base), Differing(EntriesOf(shared), base));
    if todo == map[] {
      assert path !in todo;
      hide CopyBack;
    }
  }

  lemma PlannedIsPresent(file: Option<IndexFile>, plan: Plan)
    requires file.Some?
    ensures Planned(file, plan).Some?
  {
    BlobsKeepPresent(if plan.pathspecs == [] then file else Rewritten(file, plan.added), plan.blobs);
  }

  lemma {:induction false} BlobsKeepPresent(file: Option<IndexFile>, blobs: seq<Blob>)
    requires file.Some?
    ensures WithBlobs(file, blobs).Some?
  {
    if blobs != [] {
      BlobsKeepPresent(file, blobs[..|blobs| - 1]);
    }
  }
}
