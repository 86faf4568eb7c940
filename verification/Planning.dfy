/** One file's plan from the named anchors to the blob: their own edits, the new siblings
    they refer to, and the preamble of a file HEAD does not have. */
module Planning {
  import opened Bytes
  import opened Splice
  import opened Coalesce
  import opened ApplyEdits
  import opened Placement
  import opened NewFile

  // ----- whole identifiers in a text -----

  predicate IdentByte(b: byte) {
    b == 95 || b == 36 || b >= 128 || 97 <= b <= 122 || 65 <= b <= 90 || 48 <= b <= 57
  }

  predicate IsIdentifier(id: Text) {
    id != [] && !(48 <= id[0] <= 57) && forall c <- id :: IdentByte(c)
  }

  predicate OccursAt(text: Text, id: Text, i: nat) {
    i + |id| <= |text| && text[i..i + |id|] == id
  }

  /** `id` stands at `i` as a word of its own: neither neighbour may be part of a word. */
  predicate WholeAt(text: Text, id: Text, i: nat) {
    && OccursAt(text, id, i)
    && (i == 0 || !IdentByte(text[i - 1])) && (i + |id| == |text| || !IdentByte(text[i + |id|]))
  }

  ghost predicate Refers(text: Text, id: Text) {
    exists i: nat :: WholeAt(text, id, i)
  }

  /** `bytes.Index` from an offset on. */
  method IndexFrom(text: Text, id: Text, off: nat) returns (at: int)
    ensures at == -1 ==> forall i: nat :: off <= i ==> !OccursAt(text, id, i)
    ensures at != -1 ==> off <= at && OccursAt(text, id, at) && forall i: nat :: off <= i < at ==> !OccursAt(text, id, i)
  {
    var i := off;
    while i + |id| <= |text|
      invariant off <= i && forall k: nat :: off <= k < i ==> !OccursAt(text, id, k)
    {
      if text[i..i + |id|] == id {
        return i;
      }
      i := i + 1;
    }
    return -1;
  }

  method ReferencesIdentifier(text: Text, id: Text) returns (yes: bool)
    ensures yes <==> Refers(text, id)
  {
    var off := 0;
    while off + |id| <= |text|
      invariant forall i: nat :: i < off ==> !WholeAt(text, id, i)
      decreases |text| - off
    {
      var i := IndexFrom(text, id, off);
      if i < 0 {
        return false;
      }
      var end := i + |id|;
      if (i == 0 || !IdentByte(text[i - 1])) && (end == |text| || !IdentByte(text[end])) {
        assert WholeAt(text, id, i);
        return true;
      }
      off := i + 1;
    }
    return false;
  }

  // ----- siblings an edit refers to -----

  /** A new top-level declaration, named by a plain identifier, that stands outside the
      edit's worktree text and is referred to in it. `spell` gives a name's bytes. */
  ghost predicate Pulls(s: Sources, spell: string -> Text, op: EditOp, name: string)
    requires op.wend <= |s.workSrc|
  {
    && s.workExists && op.wstart < op.wend && IsIdentifier(spell(name)) && Refers(s.workSrc[op.wstart..op.wend], spell(name))
    && Lookup(s.work, name).Found? && Lookup(s.work, name).res.container == ""
    && !(op.wstart <= Lookup(s.work, name).res.extent.start && Lookup(s.work, name).res.extent.end <= op.wend)
    && s.InHead(name).Unresolvable?
  }

  method ReferencedNewSiblings(s: Sources, spell: string -> Text, op: EditOp) returns (out: seq<string>)
    requires op.wend <= |s.workSrc|
    ensures forall name :: name in out <==> name in s.workOrder && Pulls(s, spell, op, name)
  {
    out := [];
    if !s.workExists || op.wend <= op.wstart {
      return;
    }
    var text := s.workSrc[op.wstart..op.wend];
    for i := 0 to |s.workOrder|
      invariant forall name :: name in out <==> name in s.workOrder[..i] && Pulls(s, spell, op, name)
    {
      var name := s.workOrder[i];
      assert s.workOrder[..i + 1] == s.workOrder[..i] + [name];
      if !IsIdentifier(spell(name)) {
        continue;
      }
      var referred := ReferencesIdentifier(text, spell(name));
      if !referred {
        continue;
      }
      var res := Lookup(s.work, name);
      if !res.Found? || res.res.container != "" {
        continue;
      }
      if res.res.extent.start >= op.wstart && res.res.extent.end <= op.wend {
        continue;
      }
      if !s.InHead(name).Unresolvable? {
        continue;
      }
      out := out + [name];
    }
    assert s.workOrder[..|s.workOrder|] == s.workOrder;
  }

  /** A name is referred to exactly where the text can be parted into what comes before it,
      the name, and what comes after, no letter, digit or such on either side of it. */
  lemma RefersAt(before: Text, id: Text, after: Text)
    requires before == [] || !IdentByte(before[|before| - 1])
    requires after == [] || !IdentByte(after[0])
    ensures Refers(before + id + after, id)
  {
    assert WholeAt(before + id + after, id, |before|);
  }

  lemma RefersParts(text: Text, id: Text) returns (before: Text, after: Text)
    requires Refers(text, id)
    ensures text == before + id + after
    ensures before == [] || !IdentByte(before[|before| - 1])
    ensures after == [] || !IdentByte(after[0])
  {
    var i: nat :| WholeAt(text, id, i);
    before, after := text[..i], text[i + |id|..];
  }

  /** Of the new top-level declarations a text refers to by name, those the edit's own text
      carries already are not pulled in, and all others are. */
  lemma PulledUnlessCarried(s: Sources, spell: string -> Text, op: EditOp, name: string)
    requires s.workExists && op.wstart < op.wend <= |s.workSrc| && Lookup(s.work, name).Found?
    requires IsIdentifier(spell(name)) && Refers(s.workSrc[op.wstart..op.wend], spell(name))
    requires Lookup(s.work, name).res.container == "" && s.InHead(name).Unresolvable?
    ensures Pulls(s, spell, op, name) <==> !Lookup(s.work, name).res.extent.Within(Extent(op.wstart, op.wend))
  {
    hide Refers, IsIdentifier;
  }

  /** Some edit refers to a sibling that nobody named. */
  ghost predicate Wanted(s: Sources, spell: string -> Text, ops: seq<EditOp>, named: set<string>, name: string)
    requires forall op <- ops :: op.wend <= |s.workSrc|
  {
    name in s.workOrder && name !in named && exists op <- ops :: Pulls(s, spell, op, name)
  }

  /** What is pulled in always classifies, as an insertion of its own extent. */
  lemma SiblingStandsAlone(s: Sources, spell: string -> Text, op: EditOp, name: string)
    requires s.Valid() && op.wend <= |s.workSrc| && Pulls(s, spell, op, name)
    ensures Classification(s, name).Planned?
    ensures
      var own, e := Classification(s, name).op, Lookup(s.work, name).res.extent;
      own.kind.Insert? && own.wstart == e.start && own.wend == e.end
  {
    hide Position, LineStart, RunBefore, RunAfter, Refers, IsIdentifier;
  }

  /** A deletion has no worktree text, and pulls nothing in. */
  lemma DeletionPullsNothing(s: Sources, spell: string -> Text, anchor: string, name: string)
    requires s.Valid() && Classification(s, anchor).Planned? && Classification(s, anchor).op.kind.Delete?
    ensures Classification(s, anchor).op.wend <= |s.workSrc| && !Pulls(s, spell, Classification(s, anchor).op, name)
  {
    hide Position, LineStart;
  }

  method WantedSiblings(s: Sources, spell: string -> Text, ops: seq<EditOp>, named: set<string>) returns (want: seq<string>)
    requires forall op <- ops :: op.wend <= |s.workSrc|
    ensures forall i, j :: 0 <= i < j < |want| ==> want[i] != want[j]
    ensures forall name :: name in want <==> Wanted(s, spell, ops, named, name)
  {
    hide Pulls;
    want := [];
    for k := 0 to |ops|
      invariant forall i, j :: 0 <= i < j < |want| ==> want[i] != want[j]
      invariant forall name :: name in want <==> Wanted(s, spell, ops[..k], named, name)
    {
      assert ops[..k + 1] == ops[..k] + [ops[k]] && ops[k] in ops;
      var found := ReferencedNewSiblings(s, spell, ops[k]);
      ghost var before := want;
      for m := 0 to |found|
        invariant forall i, j :: 0 <= i < j < |want| ==> want[i] != want[j]
        invariant forall name :: name in want <==> name in before || (name in found[..m] && name !in named)
      {
        assert found[..m + 1] == found[..m] + [found[m]];
        if found[m] in named || found[m] in want {
          continue;
        }
        want := want + [found[m]];
      }
      assert found[..|found|] == found;
      forall name
        ensures name in want <==> Wanted(s, spell, ops[..k + 1], named, name)
      {
        WantedNext(s, spell, ops, named, k, name);
      }
    }
    assert ops[..|ops|] == ops;
  }

  lemma WantedNext(s: Sources, spell: string -> Text, ops: seq<EditOp>, named: set<string>, k: nat, name: string)
    requires k < |ops| && forall op <- ops :: op.wend <= |s.workSrc|
    ensures ops[k] in ops
    ensures Wanted(s, spell, ops[..k + 1], named, name) <==>
            || Wanted(s, spell, ops[..k], named, name)
            || (name in s.workOrder && name !in named && Pulls(s, spell, ops[k], name))
  {
    hide Pulls;
    assert ops[..k + 1] == ops[..k] + [ops[k]] && ops[k] in ops[..k + 1];
  }

  // ----- the whole plan -----

  lemma PlannedNext(s: Sources, names: seq<string>, name: string)
    requires s.Valid() && forall a <- names + [name] :: Classification(s, a).Planned?
    ensures forall a <- names :: Classification(s, a).Planned?
    ensures name in names + [name]
    ensures PlannedOps(s, names + [name]) == PlannedOps(s, names) + [Classification(s, name).op]
  {
    hide Classification;
    assert (names + [name])[..|names|] == names;
    assert forall a <- names :: a in names + [name];
  }

  /** The worktree bytes an edit speaks of are there. */
  lemma WorkInBounds(s: Sources, names: seq<string>)
    requires s.Valid() && forall a <- names :: Classification(s, a).Planned?
    ensures forall op <- PlannedOps(s, names) :: op.wend <= |s.workSrc|
  {
    hide Classification, PlannedOps;
    PlannedMembers(s, names);
    forall a | a in names
      ensures Classification(s, a).op.wend <= |s.workSrc|
    {
      OneInBounds(s, a);
    }
  }

  lemma OneInBounds(s: Sources, a: string)
    requires s.Valid() && Classification(s, a).Planned?
    ensures Classification(s, a).op.wend <= |s.workSrc|
  {
    hide Position, LineStart, RunBefore, RunAfter;
  }

  /** Appends the edits of some anchors, or stops at the first that cannot be staged. */
  method PlanAnchors(plan: FilePlan, anchors: seq<string>) returns (err: Option<Failure>)
    requires plan.src.Valid()
    modifies plan
    ensures err.None? <==> forall a <- anchors :: Classification(plan.src, a).Planned?
    ensures err.None? ==> plan.ops == old(plan.ops) + PlannedOps(plan.src, anchors)
    ensures err.Some? ==> exists k :: 0 <= k < |anchors| && Classification(plan.src, anchors[k]) == Failed(err.value)
                            && forall i :: 0 <= i < k ==> Classification(plan.src, anchors[i]).Planned?
  {
    hide Classification;
    for k := 0 to |anchors|
      invariant forall a <- anchors[..k] :: Classification(plan.src, a).Planned?
      invariant plan.ops == old(plan.ops) + PlannedOps(plan.src, anchors[..k])
    {
      var r := plan.Classify(anchors[k]);
      match r
      case Failed(e) =>
        assert forall i :: 0 <= i < k ==> anchors[..k][i] == anchors[i] && anchors[i] in anchors[..k];
        return Some(e);
      case Planned(op, _) =>
        assert anchors[..k + 1] == anchors[..k] + [anchors[k]];
        PlannedNext(plan.src, anchors[..k], anchors[k]);
        plan.ops := plan.ops + [op];
    }
    assert anchors[..|anchors|] == anchors;
    return None;
  }

  /** `want` is exactly the unnamed siblings that the named anchors' own texts refer to. */
  ghost predicate BringsAlong(s: Sources, spell: string -> Text, anchors: seq<string>, want: seq<string>) {
    && s.Valid() && (forall a <- anchors :: Classification(s, a).Planned?)
    && var ops := PlannedOps(s, anchors);
    && (forall op <- ops :: op.wend <= |s.workSrc|)
    && forall name :: name in want <==> Wanted(s, spell, ops, (set a | a in anchors), name)
  }

  /** A file's plan: the named anchors, the siblings they refer to, the preamble. Only a
      named anchor can make it fail, and then nothing of it is used. */
  method PlanFile(plan: FilePlan, spell: string -> Text, anchors: seq<string>)
    returns (err: Option<Failure>, want: seq<string>)
    requires plan.src.Valid() && plan.ops == []
    modifies plan
    ensures err.None? <==> forall a <- anchors :: Classification(plan.src, a).Planned?
    ensures err.None? ==>
              && (forall a <- want :: Classification(plan.src, a).Planned?)
              && plan.ops == PlannedOps(plan.src, anchors) + PlannedOps(plan.src, want) + Preamble(plan.src, set a | a in anchors)
    ensures err.None? ==> BringsAlong(plan.src, spell, anchors, want)
    ensures err.None? && plan.src.headExists ==> plan.ops == PlannedOps(plan.src, anchors) + PlannedOps(plan.src, want)
  {
    hide Classification, Pulls, PlannedOps;
    want := [];
    var named := set a | a in anchors;
    err := PlanAnchors(plan, anchors);
    if err.Some? {
      return;
    }
    WorkInBounds(plan.src, anchors);
    assert plan.ops == PlannedOps(plan.src, anchors);
    want := WantedSiblings(plan.src, spell, plan.ops, named);
    forall name | name in want
      ensures Classification(plan.src, name).Planned?
    {
      var op :| op in plan.ops && Pulls(plan.src, spell, op, name);
      SiblingStandsAlone(plan.src, spell, op, name);
    }
    err := PlanAnchors(plan, want);
    AddPreamble(plan, named);
  }

  /** The blob of a file: every edit applied, and a new file's last newline inherited. For
      a tracked file it is what the named anchors' own edits and their siblings' give. */
  method StageFile(plan: FilePlan, spell: string -> Text, anchors: seq<string>)
    returns (err: Option<Failure>, want: seq<string>, blob: Option<Text>)
    requires plan.src.Valid() && plan.ops == []
    requires forall a <- anchors + plan.src.workOrder :: ProperEdit(plan.src, a)
    modifies plan
    ensures err.None? <==> forall a <- anchors :: Classification(plan.src, a).Planned?
    ensures err.None? ==> BringsAlong(plan.src, spell, anchors, want)
    ensures err.None? && plan.src.headExists ==>
              && (forall a <- anchors + want :: Classification(plan.src, a).Planned?)
              && WellFormed(plan.src.headSrc, PlannedOps(plan.src, anchors + want))
              && blob == Applied(plan.src.headSrc, PlannedOps(plan.src, anchors + want))
    ensures err.None? && !plan.src.headExists ==>
              && (forall a <- anchors + want :: Classification(plan.src, a).Planned?)
              && var ops := PlannedOps(plan.src, anchors + want) + Preamble(plan.src, set a | a in anchors);
              && WellFormed([], ops) && blob == (match Applied([], ops) case Some(b) => Some(InheritEOF(plan.src, b)) case None => None)
  {
    hide Classification, Pulls, PlannedOps, Applied, Preamble, ProperEdit;
    blob := None;
    err, want := PlanFile(plan, spell, anchors);
    if err.Some? {
      return;
    }
    var s := plan.src;
    PlannedTogether(s, anchors, want);
    ProperTogether(s, anchors + want, set a | a in anchors);
    blob := ApplyEdits.ApplyEdits(s.headSrc, plan.ops);
    if blob.Some? {
      blob := Some(InheritEOF(s, blob.value));
    }
  }

  /** A range that is planned is not empty. */
  ghost predicate ProperEdit(s: Sources, a: string) {
    s.Valid() && (Classification(s, a).Planned? && IsRange(Classification(s, a).op) ==>
                    Classification(s, a).op.start < Classification(s, a).op.end)
  }

  lemma {:induction false} PlannedTogether(s: Sources, a: seq<string>, b: seq<string>)
    requires s.Valid() && (forall x <- a :: Classification(s, x).Planned?) && forall x <- b :: Classification(s, x).Planned?
    ensures forall x <- a + b :: Classification(s, x).Planned?
    ensures PlannedOps(s, a + b) == PlannedOps(s, a) + PlannedOps(s, b)
  {
    hide Classification;
    if b == [] {
      assert a + b == a;
    } else {
      var rest := b[..|b| - 1];
      assert b == rest + [b[|b| - 1]];
      PlannedTogether(s, a, rest);
      assert (a + b)[..|a + b| - 1] == a + rest;
    }
  }

  lemma ProperTogether(s: Sources, names: seq<string>, named: set<string>)
    requires s.Valid() && forall a <- names :: Classification(s, a).Planned? && ProperEdit(s, a)
    ensures WellFormed(s.headSrc, PlannedOps(s, names)) && WellFormed(s.headSrc, PlannedOps(s, names) + Preamble(s, named))
    ensures s.headExists ==> Preamble(s, named) == [] && forall b :: InheritEOF(s, b) == b
    ensures !s.headExists ==> s.headSrc == []
  {
    hide Classification, PlannedOps;
    PlannedMembers(s, names);
    forall a | a in names
      ensures
        var op := Classification(s, a).op;
        op.start <= op.End() <= |s.headSrc| && (IsRange(op) ==> op.start < op.end)
    {
      PlannedInBounds(s, a);
    }
    PreambleIsInsertions(s, named);
  }

  lemma PreambleIsInsertions(s: Sources, named: set<string>)
    requires s.Valid()
    ensures forall op <- Preamble(s, named) :: op.kind.Insert? && op.start == 0
  {
    hide Limit, SeparatorEnd;
  }
}
