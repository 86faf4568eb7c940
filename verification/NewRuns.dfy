/** Several new symbols side by side between two that HEAD has, down to the last byte, and
    the lines they count for. */
module NewRuns {
  import opened Seqs
  import opened Bytes
  import opened Sorting
  import opened Splice
  import opened SpliceLaws
  import opened Coalesce
  import opened ApplyEdits
  import opened BlobLaws
  import opened Placement
  import opened Attribution
  import opened Reached
  import NewFile

  /** The symbols' texts with the worktree's own gaps between them. */
  function InWorktree(run: seq<EditOp>): Text
    requires run != []
  {
    if |run| == 1 then run[0].text else run[0].text + run[1].leadGap + InWorktree(run[1..])
  }

  /** The same with each gap at least the minimum. */
  function InBlob(member: bool, run: seq<EditOp>): Text
    requires run != []
  {
    if |run| == 1 then run[0].text
    else run[0].text + WiderGap(member, run[1].leadGap) + InBlob(member, run[1..])
  }

  ghost predicate NewSymbol(op: EditOp) {
    op.kind.Insert? && op.GapsAreNewlines() && Solid(op.text)
  }

  lemma {:induction false} RunSolid(member: bool, run: seq<EditOp>)
    requires run != [] && forall op <- run :: NewSymbol(op)
    ensures Solid(InBlob(member, run))
  {
    assert run[0] in run;
    if |run| > 1 {
      assert forall op <- run[1..] :: op in run;
      RunSolid(member, run[1..]);
      assert InBlob(member, run)[0] == run[0].text[0];
      LastOf(run[0].text + WiderGap(member, run[1].leadGap), InBlob(member, run[1..]));
    }
  }

  lemma JoinSolid(a: Text, b: Text, sep: Text)
    requires Solid(a) && Solid(b)
    ensures Join(a, b, sep) == a + sep + b
  {
    SolidTrims(a);
    SolidTrims(b);
  }

  lemma {:induction false} JoinsExactly(text: Text, first: EditOp, rest: seq<EditOp>, member: bool)
    requires Solid(text) && NewSymbol(first) && |first.text| <= |text| && text[|text| - |first.text|..] == first.text
    requires forall op <- rest :: NewSymbol(op)
    ensures JoinTexts(text, rest, member) == text[..|text| - |first.text|] + InBlob(member, [first] + rest)
    decreases |rest|
  {
    hide Join, WiderGap, Solid;
    var before := text[..|text| - |first.text|];
    assert text == before + first.text;
    if rest == [] {
      assert [first] + rest == [first];
    } else {
      var next, sep := rest[0], WiderGap(member, rest[0].leadGap);
      assert NewSymbol(next);
      JoinSolid(text, next.text, sep);
      var joined := text + sep + next.text;
      SolidBoth(text, sep, next.text);
      assert joined[|joined| - |next.text|..] == next.text && joined[..|joined| - |next.text|] == text + sep;
      JoinsExactly(joined, next, rest[1..], member);
      assert ([first] + rest)[1..] == rest == [next] + rest[1..];
      assert text + sep + InBlob(member, rest) == before + (first.text + sep + InBlob(member, rest));
    }
  }

  lemma SolidBoth(a: Text, sep: Text, b: Text)
    requires Solid(a) && Solid(b)
    ensures Solid(a + sep + b)
  {
  }

  lemma RunText(run: seq<EditOp>)
    requires run != [] && forall op <- run :: NewSymbol(op)
    ensures JoinTexts(run[0].text, run[1..], run[0].member) == InBlob(run[0].member, run)
  {
    hide Solid, JoinTexts, InBlob, AllNL;
    var first := run[0];
    assert first in run && forall op <- run[1..] :: op in run;
    assert first.text[|first.text| - |first.text|..] == first.text;
    JoinsExactly(first.text, first, run[1..], first.member);
    assert [first] + run[1..] == run;
    assert first.text[..0] + InBlob(first.member, run) == InBlob(first.member, run);
  }

  /** The merged insertion carries the run with each later symbol's own gap, the first one's
      gap in front and the last one's behind. */
  lemma MergedExactly(p: nat, run: seq<EditOp>)
    requires run != [] && forall op <- run :: NewSymbol(op)
    ensures
      var m := MergeGroup(p, run);
      && m.kind.Insert? && m.start == p && m.GapsAreNewlines() && Solid(m.text)
      && m.text == InBlob(run[0].member, run) && m.member == run[0].member
      && m.leadGap == run[0].leadGap && m.trailGap == run[|run| - 1].trailGap
  {
    hide Solid, JoinTexts, InBlob, AllNL;
    RunText(run);
    RunSolid(run[0].member, run);
    assert run[0] in run && run[|run| - 1] in run;
    assert NewSymbol(run[0]) && NewSymbol(run[|run| - 1]);
  }

  // ----- a batch that is one run -----

  /** New symbols, side by side in the worktree and in its order, all placed at `p`. */
  ghost predicate Run(run: seq<EditOp>, p: nat) {
    && run != [] && (forall op <- run :: NewSymbol(op) && op.start == p && op.order == op.wstart < op.wend)
    && forall i, j :: 0 <= i < j < |run| ==> run[i].wend <= run[j].wstart
  }

  lemma {:induction false} KeepsEverything(kept: seq<EditOp>, ranked: seq<EditOp>)
    requires forall i, j :: 0 <= i < j < |kept + ranked| ==> !Swallows((kept + ranked)[i], (kept + ranked)[j])
    ensures Keep(kept, ranked) == kept + ranked
    decreases |ranked|
  {
    hide Swallows;
    if ranked == [] {
      assert kept + ranked == kept;
    } else {
      var all := kept + ranked;
      assert all == kept + [ranked[0]] + ranked[1..] && all[|kept|] == ranked[0];
      forall k | k in kept
        ensures !Swallows(k, ranked[0])
      {
        var i :| 0 <= i < |kept| && kept[i] == k;
        assert all[i] == k;
      }
      KeepsEverything(kept + [ranked[0]], ranked[1..]);
    }
  }

  lemma RunKept(ops: seq<EditOp>, run: seq<EditOp>, p: nat)
    requires Run(run, p) && multiset(ops) == multiset(run)
    ensures multiset(Coalesced(ops)) == multiset(run)
  {
    hide Keep, Swallows;
    var ranked := StableSort(ops, WidestFirst);
    StableSortCorrect(ops, WidestFirst);
    forall i, j | 0 <= i < j < |ranked|
      ensures !Swallows(ranked[i], ranked[j])
    {
      var u, v := TwoOfRun(ranked, run, p, i, j);
      NoneSwallows(run, p, u, v);
    }
    assert [] + ranked == ranked;
    KeepsEverything([], ranked);
  }

  /** Two places of a reordered run hold two different symbols of it. */
  lemma TwoOfRun(ranked: seq<EditOp>, run: seq<EditOp>, p: nat, i: nat, j: nat) returns (u: nat, v: nat)
    requires Run(run, p) && multiset(ranked) == multiset(run) && i < j < |ranked|
    ensures u < |run| && v < |run| && u != v && run[u] == ranked[i] && run[v] == ranked[j]
  {
    assert ranked[i] in multiset(ranked) && ranked[j] in multiset(ranked);
    u :| 0 <= u < |run| && run[u] == ranked[i];
    v :| 0 <= v < |run| && run[v] == ranked[j];
    forall a, b | 0 <= a < b < |run|
      ensures run[a] != run[u] || run[b] != run[u]
    {
      assert run[a] in run && run[b] in run;
    }
    NewFile.AtMostOnce(run, run[u]);
    Different(ranked, i, j);
  }

  lemma Different(s: seq<EditOp>, i: nat, j: nat)
    requires i < j < |s| && multiset(s)[s[i]] <= 1
    ensures s[i] != s[j]
  {
    assert s == s[..i] + [s[i]] + s[i + 1..j] + [s[j]] + s[j + 1..];
    assert multiset(s) == multiset(s[..i]) + multiset{s[i]} + multiset(s[i + 1..j]) + multiset{s[j]} + multiset(s[j + 1..]);
  }

  lemma NoneSwallows(run: seq<EditOp>, p: nat, u: nat, v: nat)
    requires Run(run, p) && u < |run| && v < |run| && u != v
    ensures !Swallows(run[u], run[v])
  {
    assert run[u] in run && run[v] in run;
  }

  lemma {:induction false} OneGroup(kept: seq<EditOp>, p: nat)
    requires forall op <- kept :: op.kind.Insert? && op.start == p
    ensures GroupAt(kept, p) == kept && ApplyEdits.Ranges(kept) == []
  {
    if kept != [] {
      var before := kept[..|kept| - 1];
      assert kept == before + [kept[|kept| - 1]];
      OneGroup(before, p);
    }
  }

  lemma RunLaid(kept: seq<EditOp>, run: seq<EditOp>, p: nat, n: nat)
    requires Run(run, p) && multiset(kept) == multiset(run) && p <= n
    ensures MergedLayout(kept, 0, n) == [MergeGroup(p, run)]
  {
    hide MergeGroup, Solid;
    forall op | op in kept
      ensures op.kind.Insert? && op.start == p
    {
      assert op in multiset(kept);
      assert op in run;
    }
    OneGroup(kept, p);
    hide Swallows;
    RunGrouped(kept, run, p);
    hide StableSort, GroupAt, Run;
    SkipTo(kept, 0, p, n);
    NoneFrom(kept, p + 1, n);
    assert MergedAt(kept, p) == [MergeGroup(p, run)] && RangesAt(kept, p) == [];
    assert [MergeGroup(p, run)] + [] + [] == [MergeGroup(p, run)];
  }

  lemma RunGrouped(kept: seq<EditOp>, run: seq<EditOp>, p: nat)
    requires Run(run, p) && multiset(kept) == multiset(run) && GroupAt(kept, p) == kept
    ensures Grouped(kept, p) == run && run != []
  {
    hide Solid, StableSort, GroupAt;
    StableSortCorrect(kept, ApplyEdits.WorktreeOrder);
    forall i, j | 0 <= i < j < |run|
      ensures ApplyEdits.WorktreeOrder(run[i]) < ApplyEdits.WorktreeOrder(run[j])
    {
      assert run[i] in run && run[j] in run;
    }
    NewFile.StrictlySortedUnique(StableSort(kept, ApplyEdits.WorktreeOrder), run, ApplyEdits.WorktreeOrder);
  }

  /** Naming the run's symbols in any order splices it in as one. */
  lemma RunApplied(head: Text, ops: seq<EditOp>, run: seq<EditOp>, p: nat)
    requires Run(run, p) && multiset(ops) == multiset(run) && p <= |head|
    ensures WellFormed(head, ops) && Applied(head, ops) == Some(SpliceInsert(head, MergeGroup(p, run)))
  {
    hide MergeGroup, Coalesced, Applied, MergedLayout, Solid, SpliceInsert;
    forall op | op in ops
      ensures op.kind.Insert? && op.start == p
    {
      assert op in multiset(ops);
      assert op in run;
    }
    RunKept(ops, run, p);
    RunLaid(Coalesced(ops), run, p, |head|);
    AppliedIsPass(head, ops);
    MergedExactly(p, run);
    var m := MergeGroup(p, run);
    assert [m][1..] == [] && Pass(head, []) == Some(head);
  }

  ghost predicate WideEnough(member: bool, gap: Text) {
    |gap| >= if member then 1 else 2
  }

  lemma {:induction false} BlobIsWorktreeIff(member: bool, run: seq<EditOp>)
    requires run != [] && forall op <- run :: NewSymbol(op)
    ensures |InBlob(member, run)| >= |InWorktree(run)|
    ensures |InBlob(member, run)| == |InWorktree(run)| <==>
            forall i :: 0 < i < |run| ==> WideEnough(member, run[i].leadGap)
    ensures |InBlob(member, run)| == |InWorktree(run)| ==> InBlob(member, run) == InWorktree(run)
  {
    hide Solid, AllNL;
    if |run| > 1 {
      var rest := run[1..];
      assert run[1] in run && forall op <- rest :: op in run;
      BlobIsWorktreeIff(member, rest);
      GapIsWide(member, run[1].leadGap);
      assert forall i :: 0 < i < |rest| ==> rest[i] == run[i + 1];
      assert forall i :: 1 < i < |run| ==> run[i] == rest[i - 1];
    }
  }

  /** The worktree has the run between two symbols of HEAD. Staging all of it, named in any
      order, gives the worktree's bytes exactly when every gap, in front, between and
      behind, is at least the minimum. */
  lemma RunBetweenExactIff(a: Text, g: Text, b: Text, ops: seq<EditOp>, run: seq<EditOp>, p: nat)
    requires a != [] && !EndsNL(a) && AllNL(g) && b != [] && b[0] != NL
    requires Run(run, p) && multiset(ops) == multiset(run) && |a| <= p <= |a| + |g|
    ensures WellFormed(a + g + b, ops)
    ensures Applied(a + g + b, ops) == Some(a + run[0].leadGap + InWorktree(run) + run[|run| - 1].trailGap + b) <==>
            && WideEnough(run[0].member, run[|run| - 1].trailGap)
            && forall i :: 0 <= i < |run| ==> WideEnough(run[0].member, run[i].leadGap)
  {
    hide MergeGroup, Applied, Solid, SpliceInsert, WiderGap, InBlob, InWorktree, AllNL;
    RunApplied(a + g + b, ops, run, p);
    MergedExactly(p, run);
    var m, last := MergeGroup(p, run), run[|run| - 1];
    BetweenSplice(a, g, b, m);
    BlobIsWorktreeIff(m.member, run);
    GapIsWide(m.member, m.leadGap);
    GapIsWide(m.member, m.trailGap);
    assert run[0] in run && last in run;
    var lead, trail := WiderGap(m.member, m.leadGap), WiderGap(m.member, m.trailGap);
    var blob, work := a + lead + m.text + trail + b, a + run[0].leadGap + InWorktree(run) + last.trailGap + b;
    assert |blob| == |a| + |lead| + |m.text| + |trail| + |b|;
    assert |work| == |a| + |run[0].leadGap| + |InWorktree(run)| + |last.trailGap| + |b|;
  }

  lemma GapIsWide(member: bool, gap: Text)
    requires AllNL(gap)
    ensures |WiderGap(member, gap)| >= |gap|
    ensures |WiderGap(member, gap)| == |gap| <==> WideEnough(member, gap)
    ensures WideEnough(member, gap) ==> WiderGap(member, gap) == gap
  {
    SameRun(WiderGap(member, gap), gap);
  }

  // ----- the lines a new symbol counts for -----

  lemma {:induction false} NLCount(n: Text)
    requires AllNL(n)
    ensures multiset(n)[10] == |n|
  {
    if n != [] {
      assert n == [n[0]] + n[1..];
      NLCount(n[1..]);
    }
  }

  /** The listing promises to agree with the commit. For a new symbol between two others it
      does, the lines the blob gains being those of the symbol's row, exactly when the two
      gaps written add up to the gap that was there, one line end and the blank line the row
      takes. */
  lemma RowAgreesIff(a: Text, g: Text, b: Text, op: EditOp, nested: bool)
    requires op.kind.Insert? && |a| <= op.start <= |a| + |g| && Solid(op.text) && op.GapsAreNewlines()
    requires a != [] && !EndsNL(a) && AllNL(g) && b != [] && b[0] != NL
    ensures
      var work, e := a + op.leadGap + op.text + op.trailGap + b, |a + op.leadGap|;
      var blank := if TakesBlank(work, Extent(e, e + |op.text|), nested) then 1 else 0;
      LinesOf(SpliceInsert(a + g + b, op)) - LinesOf(a + g + b) == LinesOf(op.text) + blank <==>
        |WiderGap(op.member, op.leadGap)| + |WiderGap(op.member, op.trailGap)| == |g| + 1 + blank
  {
    hide SpliceInsert, WiderGap, AllNL, TakesBlank;
    BetweenSplice(a, g, b, op);
    var lead, trail := WiderGap(op.member, op.leadGap), WiderGap(op.member, op.trailGap);
    NLCount(g);
    NLCount(lead);
    NLCount(trail);
    var blob := a + lead + op.text + trail + b;
    assert multiset(blob) == multiset(a) + multiset(lead) + multiset(op.text) + multiset(trail) + multiset(b);
    assert multiset(a + g + b) == multiset(a) + multiset(g) + multiset(b);
    assert blob[|blob| - 1] == b[|b| - 1] == (a + g + b)[|a + g + b| - 1];
  }

  /** A blank line is taken exactly by a symbol no other holds with a gap behind it. */
  lemma BlankIsTrailing(a: Text, b: Text, op: EditOp, nested: bool)
    requires AllNL(op.trailGap) && b != [] && b[0] != NL
    ensures
      var work, e := a + op.leadGap + op.text + op.trailGap + b, |a + op.leadGap|;
      TakesBlank(work, Extent(e, e + |op.text|), nested) <==> !nested && op.trailGap != []
  {
    var work, e := a + op.leadGap + op.text + op.trailGap + b, |a + op.leadGap|;
    var end := e + |op.text|;
    assert work[end..] == op.trailGap + b;
    assert work[end + |op.trailGap|] == b[0];
    assert op.trailGap != [] ==> work[end] == op.trailGap[0];
    assert op.trailGap == [] ==> work[end] == b[0];
  }

  /** Where a file keeps gaps of three newlines or more, as one with two blank lines between
      declarations does, the blob gains the whole gap and the row counts one blank line of it. */
  lemma WideGapsDisagree(a: Text, g: Text, b: Text, op: EditOp)
    requires op.kind.Insert? && |a| <= op.start <= |a| + |g| && Solid(op.text) && op.GapsAreNewlines() && !op.member
    requires a != [] && !EndsNL(a) && AllNL(g) && b != [] && b[0] != NL
    requires |op.leadGap| == |op.trailGap| == |g| >= 3
    ensures
      var work, e := a + op.leadGap + op.text + op.trailGap + b, |a + op.leadGap|;
      && TakesBlank(work, Extent(e, e + |op.text|), false)
      && LinesOf(SpliceInsert(a + g + b, op)) - LinesOf(a + g + b) == LinesOf(op.text) + 1 + (|g| - 2)
  {
    hide SpliceInsert, AllNL, TakesBlank;
    BetweenSplice(a, g, b, op);
    BlankIsTrailing(a, b, op, false);
    NLCount(g);
    NLCount(op.leadGap);
    NLCount(op.trailGap);
    var blob := a + op.leadGap + op.text + op.trailGap + b;
    assert multiset(blob) == multiset(a) + multiset(op.leadGap) + multiset(op.text) + multiset(op.trailGap) + multiset(b);
    assert multiset(a + g + b) == multiset(a) + multiset(g) + multiset(b);
    assert blob[|blob| - 1] == b[|b| - 1] == (a + g + b)[|a + g + b| - 1];
  }
}
