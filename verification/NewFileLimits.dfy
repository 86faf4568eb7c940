/** A file HEAD does not have is staged whole exactly when every part is named for itself. */
module NewFileLimits {
  import opened Seqs
  import opened Bytes
  import opened Sorting
  import opened Splice
  import opened SpliceLimits
  import opened Coalesce
  import opened ApplyEdits
  import opened BlobLaws
  import opened Placement
  import opened NewFile

  // ----- how much text a batch carries -----

  function Weight(ops: seq<EditOp>): nat {
    if ops == [] then 0 else |Erase(ops[0].text)| + Weight(ops[1..])
  }

  lemma {:induction false} WeightWithout(ops: seq<EditOp>, i: nat)
    requires i < |ops|
    ensures Weight(ops) == |Erase(ops[i].text)| + Weight(ops[..i] + ops[i + 1..])
  {
    hide Erase;
    var less := ops[..i] + ops[i + 1..];
    if i > 0 {
      var rest := ops[1..];
      WeightWithout(rest, i - 1);
      assert rest[..i - 1] == ops[1..i] && rest[i..] == ops[i + 1..];
      assert less[0] == ops[0] && less[1..] == ops[1..i] + ops[i + 1..];
    } else {
      assert less == ops[1..];
    }
  }

  lemma Without(ops: seq<EditOp>, i: nat)
    requires i < |ops|
    ensures multiset(ops[..i] + ops[i + 1..]) == multiset(ops) - multiset{ops[i]}
  {
    assert ops == ops[..i] + [ops[i]] + ops[i + 1..];
  }

  /** A part of a batch weighs no more than the whole. */
  lemma {:induction false} WeightOfPart(part: seq<EditOp>, whole: seq<EditOp>)
    requires multiset(part) <= multiset(whole)
    ensures Weight(part) <= Weight(whole)
  {
    hide Erase;
    if part != [] {
      assert part[0] in multiset(part) && part[0] in multiset(whole);
      var i :| 0 <= i < |whole| && whole[i] == part[0];
      Without(whole, i);
      WeightWithout(whole, i);
      assert part == [part[0]] + part[1..];
      WeightOfPart(part[1..], whole[..i] + whole[i + 1..]);
    }
  }

  lemma WeightAlike(a: seq<EditOp>, b: seq<EditOp>)
    requires multiset(a) == multiset(b)
    ensures Weight(a) == Weight(b)
  {
    WeightOfPart(a, b);
    WeightOfPart(b, a);
  }

  lemma {:induction false} TextsWeigh(group: seq<EditOp>)
    ensures |Erase(Flatten(Texts(group)))| == Weight(group)
  {
    if group != [] {
      TextsWeigh(group[1..]);
      EraseAppend(group[0].text, Flatten(Texts(group[1..])));
      assert Texts(group)[1..] == Texts(group[1..]);
    }
  }

  // ----- insertions into an empty blob -----

  /** The blob has exactly the text of what is kept. */
  lemma EmptyBlobWeighs(ops: seq<EditOp>)
    requires forall op <- ops :: op.kind.Insert? && op.start == 0 && op.GapsAreNewlines()
    ensures WellFormed([], ops) && Applied([], ops).Some?
    ensures |Erase(Applied([], ops).value)| == Weight(Coalesced(ops))
  {
    hide MergeGroup, SpliceInsert, Merged, Coalesced, Grouped, Offsets, Ranges, Erase, Weight, Spaced;
    var kept := Coalesced(ops);
    CoalescedAccounts(ops);
    AllOneGroup(kept);
    DescendingOrdered([], ops);
    if kept == [] {
      NothingMerged(kept);
      WeighsNothing();
    } else {
      var g := Grouped(kept, 0);
      GroupSorted(kept);
      var m := MergeGroup(0, g);
      OneMerged(kept, m);
      MergeGroupKind(g);
      FoldOne(m);
      MergedWeighs(g);
      WeightAlike(g, kept);
    }
  }

  lemma GroupSorted(kept: seq<EditOp>)
    requires kept != [] && GroupAt(kept, 0) == kept && forall op <- kept :: op.kind.Insert? && op.GapsAreNewlines()
    ensures Grouped(kept, 0) != [] && multiset(Grouped(kept, 0)) == multiset(kept)
    ensures forall op <- Grouped(kept, 0) :: op.kind.Insert? && op.GapsAreNewlines()
  {
    StableSortCorrect(kept, ApplyEdits.WorktreeOrder);
    StableSortMembers(kept, ApplyEdits.WorktreeOrder);
    assert |multiset(Grouped(kept, 0))| == |multiset(kept)|;
  }

  lemma NothingMerged(kept: seq<EditOp>)
    requires kept == [] && Offsets(kept) == [] && Ranges(kept) == []
    ensures Merged(kept) == [] && StableSort(Merged(kept), HighestFirst) == []
  {
  }

  lemma WeighsNothing()
    ensures Weight([]) == 0 && Erase([]) == []
  {
  }

  lemma MergedWeighs(g: seq<EditOp>)
    requires g != [] && forall op <- g :: op.kind.Insert? && op.GapsAreNewlines()
    ensures |Erase(SpliceInsert([], MergeGroup(0, g)))| == Weight(g)
  {
    hide SpliceInsert, Erase, Weight, Spaced;
    var m := MergeGroup(0, g);
    assert g[0] in g && g[|g| - 1] in g;
    ErasedInsert([], m);
    WeighsNothing();
    MergeGroupSpaced(0, g);
    SpacedErase(m.text, Texts(g));
    TextsWeigh(g);
  }

  lemma {:induction false} SameUpToEOF(s: Sources, content: Text)
    ensures |Erase(InheritEOF(s, content))| == |Erase(content)|
  {
    EraseAppend(content, [NL]);
    EraseNL([NL]);
  }

  // ----- the converse -----

  ghost predicate AllBrought(s: Sources, outer: seq<string>, names: seq<string>) {
    forall o <- outer :: exists a <- names :: Brings(s, a, o)
  }

  ghost predicate AllBring(s: Sources, outer: seq<string>, names: seq<string>) {
    forall a <- names :: Brought(s, outer, a)
  }

  /** Names that can be staged, each with some text to it. */
  ghost predicate Stageable(s: Sources, names: seq<string>)
    requires s.Valid()
  {
    forall a <- names ::
      && a in s.workOrder && Lookup(s.work, a).Found? && Escalation(s, Lookup(s.work, a).res).Widened?
      && Staged(s, a).start < Staged(s, a).end <= |s.workSrc|
      && !AllNL(s.workSrc[Staged(s, a).start..Staged(s, a).end])
  }

  lemma NameStaged(s: Sources, names: seq<string>, a: string)
    requires s.Valid() && !s.headExists && s.workExists && Stageable(s, names) && a in names
    ensures Classification(s, a).Planned?
    ensures
      var op := Classification(s, a).op;
      && op.kind.Insert? && op.start == 0 && op.GapsAreNewlines()
      && op.wstart == Staged(s, a).start < op.wend == Staged(s, a).end && Erase(op.text) != []
  {
    hide Position, LineStart, RunBefore, RunAfter, Erase, AllNL, TableIndex;
    PlannedInBounds(s, a);
    var e := Staged(s, a);
    var lead, text := s.workSrc[LineStart(s.workSrc, e.start)..e.start], s.workSrc[e.start..e.end];
    EraseAppend(lead, text);
    ErasedIsBlank(text);
    assert Classification(s, a).op.text == lead + text;
    AtTheTop(s, Escalation(s, Lookup(s.work, a).res).res);
  }

  /** All edits of a batch for a new file. */
  function AllOps(s: Sources, names: seq<string>): seq<EditOp>
    requires s.Valid() && forall a <- names :: Classification(s, a).Planned?
  {
    PlannedOps(s, names) + Preamble(s, set a | a in names)
  }

  /** The whole file's own edits weigh what the file does. */
  lemma WholeFileWeighs(s: Sources, outer: seq<string>)
    requires FlatNewFile(s, outer)
    ensures forall a <- outer :: Classification(s, a).Planned?
    ensures |Erase(s.workSrc)| == Weight(WholeFile(s, outer))
    ensures PartsOf(WholeFile(s, outer))
  {
    hide Classification, Applied, StagesPart, Chain, Covering, FlatNewFile, WholeFile, PseudoExtent, InheritEOF, Erase,
      Weight, Coalesced, PartsOf;
    FlatParts(s, outer);
    var parts := PseudoExtent(s, HEADER) + PseudoExtent(s, IMPORTS) + DeclExtents(s, outer);
    WholeFileStages(s, outer);
    var whole := WholeFile(s, outer);
    NonEmptyChain(s.workSrc, parts);
    WholeParts(s.workSrc, parts, whole);
    CoversItself(whole);
    ChainRebuilt(s, parts, whole, whole);
    KeptOnce(whole, whole);
    WholeGaps(s.workSrc, parts, whole);
    EmptyBlobWeighs(whole);
    WeightAlike(Coalesced(whole), whole);
    SameUpToEOF(s, Applied([], whole).value);
  }

  lemma NonEmptyChain(src: Text, parts: seq<Extent>)
    requires Chain(src, parts)
    ensures parts != []
  {
  }

  lemma WholeParts(src: Text, parts: seq<Extent>, whole: seq<EditOp>)
    requires Chain(src, parts) && |whole| == |parts| && parts != []
    requires forall i :: 0 <= i < |parts| ==> StagesPart(src, parts, i, whole[i])
    ensures PartsOf(whole)
  {
    hide StagesPart, Chain, Swallows;
    PartsApart(src, parts, whole);
  }

  lemma WholeGaps(src: Text, parts: seq<Extent>, whole: seq<EditOp>)
    requires Chain(src, parts) && |whole| == |parts|
    requires forall i :: 0 <= i < |parts| ==> StagesPart(src, parts, i, whole[i])
    ensures forall op <- whole :: op.kind.Insert? && op.start == 0 && op.GapsAreNewlines()
  {
    hide Chain;
    forall op | op in whole
      ensures op.kind.Insert? && op.start == 0 && op.GapsAreNewlines()
    {
      var i :| 0 <= i < |whole| && whole[i] == op;
      assert StagesPart(src, parts, i, whole[i]);
    }
  }

  lemma CoversItself(whole: seq<EditOp>)
    requires PartsOf(whole)
    ensures Covering(whole, whole)
  {
    hide Swallows;
    forall op | op in whole
      ensures multiset(whole)[op] == 1
    {
      var i :| 0 <= i < |whole| && whole[i] == op;
      OnceThere(whole, i);
    }
  }

  // ----- which edits there are -----

  function Pseudos(s: Sources): seq<EditOp>
    requires s.Valid()
  {
    PreambleFor(s, HEADER, {}) + PreambleFor(s, IMPORTS, {})
  }

  /** An edit of the batch is a pseudo-anchor's or a named one's. */
  lemma OpsAre(s: Sources, outer: seq<string>, names: seq<string>)
    requires FlatNewFile(s, outer) && s.Valid() && Stageable(s, names)
    ensures forall a <- names :: Classification(s, a).Planned?
    ensures forall op :: op in AllOps(s, names) <==> op in Pseudos(s) || exists a <- names :: Classification(s, a).op == op
    ensures forall op <- Pseudos(s) :: op.wend == op.wstart && multiset(AllOps(s, names))[op] == 1
    ensures forall op <- AllOps(s, names) :: op.kind.Insert? && op.start == 0 && op.GapsAreNewlines()
  {
    hide Classification, FlatNewFile, Preamble, PreambleFor, PlannedOps, Brings, Stageable, Sources.Valid;
    FlatParts(s, outer);
    forall a | a in names
      ensures a in s.workOrder && Classification(s, a).Planned?
      ensures
        var op := Classification(s, a).op;
        op.kind.Insert? && op.start == 0 && op.GapsAreNewlines() && op.wend > op.wstart
    {
      NameStaged(s, names, a);
      NameListed(s, names, a);
    }
    SamePreamble(s, names);
    PlannedMembers(s, names);
    PreambleOnce(s, outer);
    PreambleShape(s);
    var planned, pseudos := PlannedOps(s, names), Pseudos(s);
    assert AllOps(s, names) == planned + pseudos;
    forall op | op in pseudos
      ensures multiset(planned + pseudos)[op] == 1
    {
      assert op !in planned;
      assert op !in multiset(planned);
    }
  }

  lemma NameListed(s: Sources, names: seq<string>, a: string)
    requires s.Valid() && Stageable(s, names) && a in names
    ensures a in s.workOrder
  {
  }

  lemma PreambleShape(s: Sources)
    requires s.Valid()
    ensures forall op <- Pseudos(s) :: op.kind.Insert? && op.start == 0 && op.GapsAreNewlines()
  {
    hide Limit, SeparatorEnd;
  }

  /** The whole file's edits are the pseudo-anchors' and the outermost declarations'. */
  lemma WholeAre(s: Sources, outer: seq<string>)
    requires FlatNewFile(s, outer) && s.Valid() && forall a <- outer :: Classification(s, a).Planned?
    ensures forall op :: op in WholeFile(s, outer) <==> op in Pseudos(s) || exists o <- outer :: Classification(s, o).op == op
  {
    hide Classification, FlatNewFile, PreambleFor, PlannedOps;
    PlannedMembers(s, outer);
  }

  /** A named edit with an outermost declaration's extent is that declaration's. */
  lemma SameExtent(s: Sources, outer: seq<string>, names: seq<string>, a: string, o: string)
    requires FlatNewFile(s, outer) && s.Valid() && Stageable(s, names) && a in names && o in outer
    ensures Classification(s, a).Planned? && Classification(s, o).Planned?
    ensures Brings(s, a, o) <==> SameWork(Classification(s, a).op, Classification(s, o).op)
    ensures Brings(s, a, o) ==> Classification(s, a).op == Classification(s, o).op
    ensures Classification(s, o).op.wend > Classification(s, o).op.wstart
  {
    hide FlatNewFile, Position, LineStart, RunBefore, RunAfter, AllNL, Classification, Sources.Valid;
    FlatParts(s, outer);
    NameStaged(s, names, a);
    FlatPlanned(s, outer, o);
    OuterProper(s, outer, o);
    if Brings(s, a, o) {
      BroughtAlike(s, a, o);
    }
  }

  /** The edit kept for an insertion that has an extent. */
  lemma KeptInstead(ops: seq<EditOp>, op: EditOp) returns (k: EditOp)
    requires op in ops && forall o <- ops :: o.kind.Insert?
    ensures k in Coalesced(ops) && k in ops
    ensures k == op || (SameWork(k, op) && op.wend > op.wstart)
  {
    hide Coalesced;
    CoalescedAccounts(ops);
    if op in Coalesced(ops) {
      k := op;
    } else {
      k :| k in Coalesced(ops) && Swallows(k, op);
    }
  }

  lemma {:induction false} MoreThan(part: seq<EditOp>, x: EditOp, whole: seq<EditOp>)
    requires multiset(part + [x]) <= multiset(whole) && Erase(x.text) != []
    ensures Weight(part) < Weight(whole)
  {
    hide Erase, Weight;
    WeightOfPart(part + [x], whole);
    WeightWithout(part + [x], |part|);
    assert (part + [x])[..|part|] + (part + [x])[|part| + 1..] == part;
  }

  lemma OnceInside(part: seq<EditOp>, x: EditOp, whole: seq<EditOp>)
    requires forall op <- part :: op in whole && multiset(part)[op] <= 1
    requires x in whole && x !in part
    ensures multiset(part + [x]) <= multiset(whole)
  {
    forall op
      ensures multiset(part + [x])[op] <= multiset(whole)[op]
    {
      assert op in part ==> op in multiset(whole);
      assert x in multiset(whole) && x !in multiset(part);
      assert op !in part ==> op !in multiset(part);
    }
  }

  /** With every part named, a name that stages an inner piece puts it in a second time. */
  lemma InnerIsExtra(s: Sources, outer: seq<string>, names: seq<string>, a: string)
    requires FlatNewFile(s, outer) && s.Valid() && Stageable(s, names) && AllBrought(s, outer, names)
    requires a in names && !Brought(s, outer, a)
    ensures forall a <- names :: Classification(s, a).Planned?
    ensures Weight(Coalesced(AllOps(s, names))) > |Erase(s.workSrc)|
  {
    hide Classification, FlatNewFile, Pseudos, PlannedOps, Brings, Stageable, Sources.Valid, AllOps, WholeFile, PartsOf,
      Erase, Weight, Coalesced, SameWork;
    OpsAre(s, outer, names);
    WholeFileWeighs(s, outer);
    WholeAre(s, outer);
    var ops, whole := AllOps(s, names), WholeFile(s, outer);
    forall op | op in whole
      ensures op in Coalesced(ops) && multiset(whole)[op] <= 1
    {
      WholeKept(s, outer, names, op);
      WholeOnce(whole, op);
    }
    var x := ExtraKept(s, outer, names, a);
    OnceInside(whole, x, Coalesced(ops));
    MoreThan(whole, x, Coalesced(ops));
  }

  lemma WholeOnce(whole: seq<EditOp>, op: EditOp)
    requires PartsOf(whole) && op in whole
    ensures multiset(whole)[op] == 1
  {
    hide Swallows;
    var i :| 0 <= i < |whole| && whole[i] == op;
    OnceThere(whole, i);
  }

  lemma WholeKept(s: Sources, outer: seq<string>, names: seq<string>, op: EditOp)
    requires FlatNewFile(s, outer) && s.Valid() && Stageable(s, names) && AllBrought(s, outer, names)
    requires forall a <- outer :: Classification(s, a).Planned?
    requires op in WholeFile(s, outer)
    ensures forall a <- names :: Classification(s, a).Planned?
    ensures op in Coalesced(AllOps(s, names))
  {
    hide Classification, FlatNewFile, Pseudos, PlannedOps, Brings, Stageable, Sources.Valid, AllOps, WholeFile, Coalesced,
      SameWork;
    OpsAre(s, outer, names);
    WholeAre(s, outer);
    var ops := AllOps(s, names);
    if op in Pseudos(s) {
      var k := KeptInstead(ops, op);
    } else {
      var o :| o in outer && Classification(s, o).op == op;
      var b :| b in names && Brings(s, b, o);
      SameExtent(s, outer, names, b, o);
      var k := KeptInstead(ops, op);
      if k != op {
        SameIsProper(k, op);
        var c :| c in names && Classification(s, c).op == k;
        SameExtent(s, outer, names, c, o);
      }
    }
  }

  lemma SameIsProper(k: EditOp, op: EditOp)
    requires SameWork(k, op) && op.wend > op.wstart
    ensures k.wend > k.wstart
  {
  }

  lemma ExtraKept(s: Sources, outer: seq<string>, names: seq<string>, a: string) returns (x: EditOp)
    requires FlatNewFile(s, outer) && s.Valid() && Stageable(s, names) && a in names && !Brought(s, outer, a)
    requires forall a <- outer :: Classification(s, a).Planned?
    ensures forall a <- names :: Classification(s, a).Planned?
    ensures x in Coalesced(AllOps(s, names)) && x !in WholeFile(s, outer) && Erase(x.text) != []
  {
    hide Classification, FlatNewFile, Pseudos, PlannedOps, Brings, Stageable, Sources.Valid, AllOps, WholeFile, Coalesced,
      Erase;
    OpsAre(s, outer, names);
    WholeAre(s, outer);
    FlatParts(s, outer);
    NameStaged(s, names, a);
    var op := Classification(s, a).op;
    x := KeptInstead(AllOps(s, names), op);
    var c :| c in names && Classification(s, c).op == x;
    NameStaged(s, names, c);
    forall o | o in outer
      ensures Classification(s, o).op != x
    {
      SameExtent(s, outer, names, a, o);
    }
  }

  /** A part that nothing named brings is missing. */
  lemma PartIsMissing(s: Sources, outer: seq<string>, names: seq<string>, o: string)
    requires FlatNewFile(s, outer) && s.Valid() && Stageable(s, names) && AllBring(s, outer, names)
    requires o in outer && forall a <- names :: !Brings(s, a, o)
    ensures forall a <- names :: Classification(s, a).Planned?
    ensures Weight(Coalesced(AllOps(s, names))) < |Erase(s.workSrc)|
  {
    hide Classification, FlatNewFile, Pseudos, PlannedOps, Brings, Stageable, Sources.Valid, AllOps, WholeFile, PartsOf,
      Erase, Weight, Coalesced, SameWork, Brought;
    OpsAre(s, outer, names);
    WholeFileWeighs(s, outer);
    WholeAre(s, outer);
    var ops, whole := AllOps(s, names), WholeFile(s, outer);
    CoalescedAccounts(ops);
    var x := Classification(s, o).op;
    forall op | op in Coalesced(ops)
      ensures op in whole && op != x && multiset(Coalesced(ops))[op] <= 1
    {
      KeptIsWhole(s, outer, names, op, o);
    }
    OuterText(s, outer, o);
    OnceInside(Coalesced(ops), x, whole);
    MoreThan(Coalesced(ops), x, whole);
  }

  lemma KeptIsWhole(s: Sources, outer: seq<string>, names: seq<string>, op: EditOp, o: string)
    requires FlatNewFile(s, outer) && s.Valid() && Stageable(s, names) && AllBring(s, outer, names)
    requires forall a <- outer :: Classification(s, a).Planned?
    requires forall a <- names :: Classification(s, a).Planned?
    requires op in AllOps(s, names) && o in outer && forall a <- names :: !Brings(s, a, o)
    ensures op in WholeFile(s, outer) && op != Classification(s, o).op && multiset(Coalesced(AllOps(s, names)))[op] <= 1
  {
    hide Classification, FlatNewFile, Pseudos, PlannedOps, Brings, Stageable, Sources.Valid, AllOps, WholeFile, Coalesced;
    OpsAre(s, outer, names);
    WholeAre(s, outer);
    if op in Pseudos(s) {
      OuterProper(s, outer, o);
    } else {
      var a :| a in names && Classification(s, a).op == op;
      var p := BroughtBy(s, outer, a);
      SameExtent(s, outer, names, a, p);
      SameExtent(s, outer, names, a, o);
    }
    KeptAtMostOnce(AllOps(s, names), op);
  }

  lemma OuterText(s: Sources, outer: seq<string>, o: string)
    requires FlatNewFile(s, outer) && o in outer
    ensures Classification(s, o).Planned? && Erase(Classification(s, o).op.text) != []
  {
    hide FlatNewFile, AllNL, BlankLineBetween, Classification, Erase;
    FlatPlanned(s, outer, o);
    FlatParts(s, outer);
    var i :| 0 <= i < |outer| && outer[i] == o;
    PartAt(s.workSrc, PseudoExtent(s, HEADER) + PseudoExtent(s, IMPORTS), DeclExtents(s, outer), i);
    var e := Lookup(s.work, o).res.extent;
    hide Chain, PseudoExtent, Position, LineStart, RunBefore, RunAfter;
    var lead, text := s.workSrc[LineStart(s.workSrc, e.start)..e.start], s.workSrc[e.start..e.end];
    EraseAppend(lead, text);
    HasSolid(text, 0);
    ErasedIsBlank(text);
    assert InsertionText(s.workSrc, e) == lead + text;
  }

  /** Staging a file that HEAD lacks. When every part of it is named, or every name stages
      a part, the worktree file comes out exactly when both hold: a name that is widened
      only as far as an inner piece puts that piece in a second time, and a part nothing
      names is missing. */
  lemma NewFileReproducedIff(s: Sources, outer: seq<string>, names: seq<string>)
    requires FlatNewFile(s, outer) && s.Valid() && Stageable(s, names)
    requires AllBrought(s, outer, names) || AllBring(s, outer, names)
    ensures forall a <- names :: Classification(s, a).Planned?
    ensures
      var ops := PlannedOps(s, names) + Preamble(s, set a | a in names);
      && WellFormed(s.headSrc, ops) && Applied(s.headSrc, ops).Some?
      && (InheritEOF(s, Applied(s.headSrc, ops).value) == s.workSrc <==>
            AllBrought(s, outer, names) && AllBring(s, outer, names))
  {
    hide Classification, FlatNewFile, Pseudos, PlannedOps, Preamble, Brings, Brought, Sources.Valid, Applied, Coalesced,
      Erase, Weight, InheritEOF;
    OpsAre(s, outer, names);
    FlatParts(s, outer);
    EmptyHead(s);
    var ops := AllOps(s, names);
    EmptyBlobWeighs(ops);
    SameUpToEOF(s, Applied([], ops).value);
    if !AllBring(s, outer, names) {
      var a :| a in names && !Brought(s, outer, a);
      InnerIsExtra(s, outer, names, a);
    } else if !AllBrought(s, outer, names) {
      var o :| o in outer && forall a <- names :: !Brings(s, a, o);
      PartIsMissing(s, outer, names, o);
    } else {
      NewFileReproduced(s, outer, names);
    }
  }

  lemma EmptyHead(s: Sources)
    requires s.Valid() && !s.headExists
    ensures s.headSrc == []
  {
  }
}
