/** Copying what a `--only` commit changed back into the shared index. */
module IndexSync {
  import opened Bytes
  import opened OnlyProtocol

  /** `--index-info` reads a record of mode 000000 as a removal. */
  const REMOVED := Entry("000000", "0000000000000000000000000000000000000000")

  ghost predicate ValidIndex(index: Tree) {
    forall path <- index :: index[path].mode != "000000"
  }

  /** The index side of one path, as `git diff-index --cached --raw` prints it. */
  function SideAt(index: Tree, path: Path): Entry {
    if path in index then index[path] else REMOVED
  }

  /** Every path whose index entry differs from the tree, with its index side. */
  function Differing(index: Tree, base: Tree): map<Path, Entry> {
    map path | path in index.Keys + base.Keys && !SameAt(index, base, path) :: SideAt(index, path)
  }

  /** One `update-index --index-info` record. */
  function Written(index: Tree, path: Path, entry: Entry): Tree {
    if entry.mode == "000000" then index - {path} else index[path := entry]
  }

  /** The changed entries that the other side does not have already. */
  function Disagreeing(changed: map<Path, Entry>, current: map<Path, Entry>): map<Path, Entry> {
    map path | path in changed && !(path in current && current[path] == changed[path]) :: changed[path]
  }

  /** The index after copy-back: what the commit changed and the index does not
      already say is written, nothing else. */
  function CopyBack(shared: Tree, private: Tree, base: Tree): Tree {
    var todo := Disagreeing(Differing(private, base), Differing(shared, base));
    map path | path in shared.Keys + todo.Keys && (path in todo ==> todo[path].mode != "000000") ::
      if path in todo then todo[path] else shared[path]
  }

  /** One index file, real or private. */
  class Index {
    var entries: Tree

    constructor (entries: Tree)
      ensures this.entries == entries
    {
      this.entries := entries;
    }

    /** `diff-index --cached` against `base`, its records gathered into a map. */
    method CachedEntries(base: Tree) returns (found: map<Path, Entry>)
      ensures found == Differing(entries, base)
    {
      found := map[];
      var paths := entries.Keys + base.Keys;
      var left := paths;
      while left != {}
        invariant left <= paths
        invariant forall path :: path in found <==> path in paths - left && !SameAt(entries, base, path)
        invariant forall path <- found :: found[path] == SideAt(entries, path)
        decreases left
      {
        var path :| path in left;
        if !SameAt(entries, base, path) {
          found := found[path := SideAt(entries, path)];
        }
        left := left - {path};
      }
    }

    /** Applies the records, in whatever order the map yields them. */
    method WriteEntries(records: map<Path, Entry>)
      modifies this
      ensures forall path :: path !in records ==> SameAt(entries, old(entries), path)
      ensures forall path <- records ::
                if records[path].mode == "000000" then path !in entries
                else path in entries && entries[path] == records[path]
    {
      var left := records.Keys;
      while left != {}
        invariant left <= records.Keys
        invariant forall path :: path !in records || path in left ==> SameAt(entries, old(entries), path)
        invariant forall path <- records :: path !in left ==>
                    if records[path].mode == "000000" then path !in entries
                    else path in entries && entries[path] == records[path]
        decreases left
      {
        var path :| path in left;
        entries := Written(entries, path, records[path]);
        left := left - {path};
      }
    }

    /** `syncCommittedEntries`: this is the shared index, `committed` the private one. */
    method SyncCommittedEntries(committed: Index, base: Tree)
      requires this != committed && ValidIndex(entries) && ValidIndex(committed.entries)
      modifies this
      ensures entries == CopyBack(old(entries), committed.entries, base)
    {
      hide CopyBack, Differing;
      var changed := committed.CachedEntries(base);
      var current := this.CachedEntries(base);
      var todo := DropAgreeing(changed, current);
      ghost var before := entries;
      WriteEntries(todo);
      WrittenIsCopyBack(before, committed.entries, base, todo, entries);
    }
  }

  /** Drops from `changed` each path whose entry `current` already has. */
  method DropAgreeing(changed: map<Path, Entry>, current: map<Path, Entry>) returns (todo: map<Path, Entry>)
    ensures todo == Disagreeing(changed, current)
  {
    todo := changed;
    var left := current.Keys;
    while left != {}
      invariant left <= current.Keys
      invariant forall path :: path in todo <==>
                  path in changed && !(path in current && path !in left && current[path] == changed[path])
      invariant forall path <- todo :: todo[path] == changed[path]
      decreases left
    {
      var path :| path in left;
      if path in todo && todo[path] == current[path] {
        todo := todo - {path};
      }
      left := left - {path};
    }
  }

  /** The new index is determined by what each record says of its path. */
  lemma WrittenIsCopyBack(before: Tree, private: Tree, base: Tree, todo: map<Path, Entry>, after: Tree)
    requires ValidIndex(before) && ValidIndex(private)
    requires todo == Disagreeing(Differing(private, base), Differing(before, base))
    requires forall path :: path !in todo ==> SameAt(after, before, path)
    requires forall path <- todo ::
               if todo[path].mode == "000000" then path !in after
               else path in after && after[path] == todo[path]
    ensures after == CopyBack(before, private, base)
  {
    forall path
      ensures SameAt(after, CopyBack(before, private, base), path)
    {
      if path !in todo {
        assert SameAt(after, before, path);
      }
    }
    MapsAgree(after, CopyBack(before, private, base));
  }

  lemma MapsAgree(a: Tree, b: Tree)
    requires forall path :: SameAt(a, b, path)
    ensures a == b
  {
    forall path
      ensures path in a <==> path in b
      ensures path in a ==> a[path] == b[path]
    {
      assert SameAt(a, b, path);
    }
  }

  /** Every path the commit changed reads in the shared index as in the commit,
      removals included; every other path is as it was. */
  lemma CopyBackAgrees(shared: Tree, private: Tree, base: Tree, path: Path)
    requires ValidIndex(shared) && ValidIndex(private)
    ensures SameAt(private, base, path) ==> SameAt(CopyBack(shared, private, base), shared, path)
    ensures !SameAt(private, base, path) ==> SameAt(CopyBack(shared, private, base), private, path)
    ensures ValidIndex(CopyBack(shared, private, base))
  {
    var changed, current := Differing(private, base), Differing(shared, base);
    if !SameAt(private, base, path) && path in current && current[path] == changed[path] {
      assert SameAt(shared, private, path);
    }
  }

  /** The whole effect in one expression: changed paths from the private index,
      everything else from the shared one. */
  lemma CopyBackIsOverlay(shared: Tree, private: Tree, base: Tree)
    requires ValidIndex(shared) && ValidIndex(private)
    ensures
      var changed := Differing(private, base).Keys;
      CopyBack(shared, private, base) ==
        (map path | path in shared && path !in changed :: shared[path]) +
        (map path | path in private && path in changed :: private[path])
  {
    var changed := Differing(private, base).Keys;
    var overlay := (map path | path in shared && path !in changed :: shared[path]) +
                   (map path | path in private && path in changed :: private[path]);
    forall path
      ensures SameAt(CopyBack(shared, private, base), overlay, path)
    {
      CopyBackAgrees(shared, private, base, path);
    }
    MapsAgree(CopyBack(shared, private, base), overlay);
  }

  /** Nothing is left to write the second time. */
  lemma CopyBackSettles(shared: Tree, private: Tree, base: Tree)
    requires ValidIndex(shared) && ValidIndex(private)
    ensures CopyBack(CopyBack(shared, private, base), private, base) == CopyBack(shared, private, base)
  {
    var once := CopyBack(shared, private, base);
    CopyBackAgrees(shared, private, base, "");
    forall path
      ensures SameAt(CopyBack(once, private, base), once, path)
    {
      CopyBackAgrees(shared, private, base, path);
      CopyBackAgrees(once, private, base, path);
    }
    MapsAgree(CopyBack(once, private, base), once);
  }

  /** With no other staged work the shared index ends up as the commit's own tree. */
  lemma CleanIndexFollowsCommit(private: Tree, base: Tree)
    requires ValidIndex(base) && ValidIndex(private)
    ensures CopyBack(base, private, base) == private
  {
    forall path
      ensures SameAt(CopyBack(base, private, base), private, path)
    {
      CopyBackAgrees(base, private, base, path);
    }
    MapsAgree(CopyBack(base, private, base), private);
  }
}
