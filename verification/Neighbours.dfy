/** One symbol from the worktree into HEAD and out again, between two neighbours. */
module Neighbours {
  import opened Seqs
  import opened Bytes
  import opened Splice
  import opened SpliceLaws
  import opened Placement

  /** A symbol `t`, indented by `ind`, on lines of its own between `a` and `b`. */
  datatype Site = Site(a: Text, lead: Text, ind: Text, t: Text, trail: Text, b: Text)
  {
    function Bytes(): Text {
      a + lead + ind + t + trail + b
    }

    function Extent(): Extent {
      var start := |a + lead + ind|;
      Placement.Extent.Extent(start, start + |t|)
    }

    ghost predicate Valid() {
      && a != [] && !EndsNL(a) && b != [] && b[0] != NL && Solid(t)
      && lead != [] && AllNL(lead) && AllNL(trail) && forall c <- ind :: Blank(c)
    }
  }

  /** The gap in front of an indented symbol is never seen: blanks, not newlines, stand
      right before it. */
  lemma SeenGaps(w: Site)
    requires w.Valid()
    ensures w.Extent().start <= w.Extent().end <= |w.Bytes()|
    ensures w.Bytes()[RunBefore(w.Bytes(), w.Extent().start)..w.Extent().start] == if w.ind == [] then w.lead else []
    ensures w.Bytes()[w.Extent().end..RunAfter(w.Bytes(), w.Extent().end)] == w.trail
    ensures InsertionText(w.Bytes(), w.Extent()) == w.ind + w.t
    ensures LineStart(w.Bytes(), w.Extent().start) == |w.a + w.lead|
  {
    hide RunBefore, RunAfter, LineStart;
    var src, e := w.Bytes(), w.Extent();
    var before, after := w.a + w.lead + w.ind, w.trail + w.b;
    assert src == before + w.t + after;
    assert src[..e.start] == before && src[e.start..e.end] == w.t && src[e.end..] == after;
    LineBeginsAt(src, w.a + w.lead, w.ind);
    assert src[|w.a + w.lead|..e.start] == w.ind;
    assert src[|w.a|..|w.a + w.lead|] == w.lead;
    if w.ind == [] {
      assert before == w.a + w.lead;
      RunBeforeIs(src, |w.a|, e.start);
    } else {
      assert w.ind[|w.ind| - 1] in w.ind && src[e.start - 1] == w.ind[|w.ind| - 1];
      RunBeforeIs(src, e.start, e.start);
    }
    assert src[e.end..e.end + |w.trail|] == w.trail && src[e.end + |w.trail|] == w.b[0];
    RunAfterIs(src, e.end, e.end + |w.trail|);
  }

  lemma {:induction false} RunAfterIs(src: Text, end: nat, stop: nat)
    requires end <= stop < |src| && AllNL(src[end..stop]) && src[stop] != NL
    ensures RunAfter(src, end) == stop
    decreases stop - end
  {
    if end < stop {
      assert src[end..stop][0] == src[end];
      assert src[end + 1..stop] == src[end..stop][1..];
      RunAfterIs(src, end + 1, stop);
    }
  }

  lemma LineBeginsAt(src: Text, above: Text, ind: Text)
    requires above + ind <= src && EndsNL(above) && forall c <- ind :: Blank(c)
    ensures LineStart(src, |above + ind|) == |above|
  {
    var off := |above + ind|;
    assert src[..off] == above + ind;
    assert forall i :: |above| <= i < off ==> src[i] == ind[i - |above|] && src[i] in ind;
    assert src[|above| - 1] == NL;
    var start := LineBegin(src, off);
    assert forall i :: start <= i < off ==> src[i] == src[start..off][i - start] && src[i] in src[start..off];
  }

  /** Staging a new symbol between two shared neighbours reproduces the worktree bytes
      exactly when its gaps are wide enough. An indented symbol's wider leading gap is
      not seen, so in front of it the gap must be the minimum itself. */
  lemma StagedBetweenExactIff(s: Sources, res: Resolution, isMember: bool, w: Site, g: Text)
    requires s.Valid() && w.Valid() && AllNL(g)
    requires s.headSrc == w.a + g + w.b && s.workSrc == w.Bytes() && res.extent == w.Extent()
    requires Position(s, res) == |w.a|
    ensures res.extent.start <= res.extent.end <= |s.workSrc|
    ensures
      var minimum := if isMember && s.membersSitFlush then 1 else 2;
      SpliceInsert(s.headSrc, InsertOp(s, res, isMember)) == s.workSrc
      <==> (if w.ind == [] then |w.lead| >= minimum else |w.lead| == minimum) && |w.trail| >= minimum
  {
    hide Sources.Valid, Position, RunBefore, RunAfter, InsertionText, SpliceInsert, Site.Valid, Site.Bytes, Site.Extent, Solid;
    SeenGaps(w);
    Regrouped(w);
    SiteEnds(w);
    var op := InsertOp(s, res, isMember);
    var text := w.ind + w.t;
    BetweenSplice(w.a, g, w.b, op);
    var lead, trail := WiderGap(op.member, op.leadGap), WiderGap(op.member, op.trailGap);
    SameSeams(w.a, lead, w.lead, text, trail, w.trail, w.b);
  }

  lemma SameSeams(a: Text, lead: Text, lead': Text, t: Text, trail: Text, trail': Text, b: Text)
    requires AllNL(lead) && AllNL(lead') && AllNL(trail) && AllNL(trail') && Solid(t)
    ensures a + lead + t + trail + b == a + lead' + t + trail' + b <==> |lead| == |lead'| && |trail| == |trail'|
  {
    var x, y := a + lead + t + trail + b, a + lead' + t + trail' + b;
    if |lead| < |lead'| {
      assert x[|a| + |lead|] == t[0] && y[|a| + |lead|] == lead'[|lead|];
    } else if |lead'| < |lead| {
      assert y[|a| + |lead'|] == t[0] && x[|a| + |lead'|] == lead[|lead'|];
    } else {
      SameRun(lead, lead');
      SameRun(trail, trail');
      assert |x| - |y| == |trail| - |trail'|;
    }
  }

  /** Deleting the symbol again, its indentation included, gives the earlier bytes back
      exactly when its leading gap was the gap the neighbours had. */
  lemma UnstagedBetweenExactIff(s: Sources, w: Site, g: Text)
    requires w.Valid() && AllNL(g) && s.headSrc == w.Bytes()
    ensures w.Extent().start <= w.Extent().end <= |s.headSrc|
    ensures
      var op := DeleteOp(s, w.Extent());
      op.start <= op.End() && (Step(s.headSrc, op) == Some(w.a + g + w.b) <==> w.lead == g)
  {
    hide LineStart, SpliceExcise, Site.Valid, Site.Bytes, Site.Extent, Solid;
    SeenGaps(w);
    Regrouped(w);
    SiteEnds(w);
    ExciseBetweenExact(w.a, g, w.b, w.lead, w.ind + w.t, w.trail);
  }

  lemma Regrouped(w: Site)
    ensures w.Bytes() == w.a + w.lead + (w.ind + w.t) + w.trail + w.b
    ensures w.Extent().end == |w.a + w.lead + (w.ind + w.t)|
  {
  }

  lemma SiteEnds(w: Site)
    requires w.Valid()
    ensures AllNL(w.lead) && AllNL(w.trail) && w.b != [] && w.b[0] != NL && w.a != [] && !EndsNL(w.a)
    ensures Solid(w.ind + w.t) && w.lead != []
  {
    if w.ind != [] {
      assert w.ind[0] in w.ind;
    }
  }
}
