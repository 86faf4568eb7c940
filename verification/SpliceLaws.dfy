/** Byte-exact laws of the splice pass, and where its promises stop. */
module SpliceLaws {
  import opened Seqs
  import opened Bytes
  import opened Splice

  // ----- when an edit is clear of the ones above it -----

  /** A caller's check for `Clear`: a range ends in a byte other than a newline; an
      insertion follows such a byte, or starts the file, or has one between it and
      the next edit, or sits exactly where the next range starts. */
  ghost predicate Anchored(head: Text, op: EditOp, rest: seq<EditOp>)
    requires op.start <= op.End() <= StartOf(head, rest) <= |head|
  {
    if op.kind.Insert? then
      || op.start == 0
      || head[op.start - 1] != NL
      || !AllNL(head[op.start..StartOf(head, rest)])
      || rest == []
      || (rest[0].start == op.start && !rest[0].kind.Insert?)
    else op.start < op.end && head[op.end - 1] != NL
  }

  ghost predicate AllAnchored(head: Text, asc: seq<EditOp>)
    requires Ascending(head, asc)
  {
    AscendingBounds(head, asc);
    asc == [] || (AscendingBounds(head, asc[1..]); Anchored(head, asc[0], asc[1..]) && AllAnchored(head, asc[1..]))
  }

  /** A byte that is no newline keeps everything up to it out of the trimming. */
  lemma SolidBelow(head: Text, i: nat, s: nat)
    requires i < s <= |head| && head[i] != NL
    ensures i < |TrimRight(head[..s])|
  {
    var n := TrimRightSplits(head[..s]);
    var a := TrimRight(head[..s]);
    assert head[i] == head[..s][i] == (a + n)[i];
  }

  lemma ReachIsSolid(head: Text, asc: seq<EditOp>)
    requires Ascending(head, asc)
    ensures StartOf(head, asc) <= |head|
    ensures |TrimRight(head[..StartOf(head, asc)])| <= Reach(head, asc)
  {
    AscendingBounds(head, asc);
    var n := TrimRightSplits(head[..StartOf(head, asc)]);
  }

  lemma {:induction false} AnchoredIsClear(head: Text, asc: seq<EditOp>)
    requires Ascending(head, asc) && AllAnchored(head, asc)
    ensures Clear(head, asc)
  {
    hide Reach, Anchored;
    AscendingBounds(head, asc);
    if asc != [] {
      AnchoredIsClear(head, asc[1..]);
      AscendingBounds(head, asc[1..]);
      AnchoredEnds(head, asc[0], asc[1..]);
    }
  }

  lemma AnchoredEnds(head: Text, op: EditOp, rest: seq<EditOp>)
    requires Ascending(head, rest) && op.start <= op.End() <= StartOf(head, rest) <= |head| && Anchored(head, op, rest)
    ensures || op.End() <= Reach(head, rest)
            || (op.kind.Insert? && rest != [] && op.start == rest[0].start && !rest[0].kind.Insert?)
  {
    hide TrimRight, TrimLeft, ReachOf, AllNL;
    ReachIsSolid(head, rest);
    EndsBelow(head, op, StartOf(head, rest));
  }

  /** Content at an edit's end, or between an insertion and the next edit, stays in place. */
  lemma EndsBelow(head: Text, op: EditOp, s: nat)
    requires op.End() <= s <= |head|
    ensures 0 < op.End() && head[op.End() - 1] != NL ==> op.End() <= |TrimRight(head[..s])|
    ensures !AllNL(head[op.End()..s]) ==> op.End() <= |TrimRight(head[..s])|
  {
    hide TrimRight;
    if 0 < op.End() && head[op.End() - 1] != NL {
      SolidBelow(head, op.End() - 1, s);
    }
    if !AllNL(head[op.End()..s]) {
      var i :| 0 <= i < |head[op.End()..s]| && head[op.End()..s][i] != NL;
      SolidBelow(head, op.End() + i, s);
    }
  }

  // ----- replacements alone are byte-exact -----

  lemma {:induction false} FlattenAppend(a: seq<Text>, b: seq<Text>)
    ensures Flatten(a + b) == Flatten(a) + Flatten(b)
  {
    if a == [] {
      assert a + b == b;
    } else {
      assert (a + b)[1..] == a[1..] + b;
      FlattenAppend(a[1..], b);
      Assoc(a[0], Flatten(a[1..]), Flatten(b));
    }
  }

  /** A batch of replacements alone is byte-exact, whatever its newlines. */
  lemma {:induction false} ReplaceOnlyExact(head: Text, asc: seq<EditOp>)
    requires Ascending(head, asc) && forall op <- asc :: op.kind.Replace?
    ensures Ordered(asc) && Pass(head, asc) == Some(Flatten(Segments(head, asc)))
  {
    hide TrimLeft, TrimRight;
    AscendingBounds(head, asc);
    if asc == [] {
      assert Segments(head, asc)[1..] == [];
      assert head[0..|head|] + [] == head;
    } else {
      var op, rest := asc[0], asc[1..];
      assert asc == [op] + rest;
      ReplaceOnlyExact(head, rest);
      AscendingBounds(head, rest);
      var s, tail := StartOf(head, rest), Flatten(Tail(head, rest));
      assert Segments(head, rest)[1..] == Tail(head, rest);
      var out := head[0..s] + tail;
      assert out[..op.start] == head[0..op.start];
      assert out[op.end..] == head[op.end..s] + tail;
      var mid := head[op.end..s];
      assert Tail(head, asc) == [op.text, mid] + Tail(head, rest);
      FlattenAppend([op.text, mid], Tail(head, rest));
      assert Flatten([op.text, mid]) == op.text + mid by {
        assert [op.text, mid][1..] == [mid];
        assert [mid][1..] == [];
      }
      assert Segments(head, asc)[1..] == Tail(head, asc);
      Assoc(op.text, mid, tail);
      Assoc(head[0..op.start], op.text, mid + tail);
    }
  }

  // ----- the end-of-file newline -----

  /** The deletion at the front of `asc` leaves no byte but newlines. */
  ghost predicate Empties(head: Text, asc: seq<EditOp>)
    requires Ascending(head, asc) && asc != []
  {
    AscendingBounds(head, asc);
    asc[0].kind.Delete? && AllNL(head[..asc[0].start]) && !HasContent(Tail(head, asc)[1..])
  }

  ghost predicate EverEmpties(head: Text, asc: seq<EditOp>)
    requires Ascending(head, asc)
  {
    asc != [] && (Empties(head, asc) || EverEmpties(head, asc[1..]))
  }

  /** Replacements take and give text not ending in a newline; insertions are not blank. */
  ghost predicate SolidEdit(head: Text, op: EditOp) {
    match op.kind
    case Replace => op.start < op.end <= |head| && head[op.end - 1] != NL && op.text != [] && !EndsNL(op.text)
    case Insert => !AllNL(op.text)
    case Delete => true
  }

  lemma TrimLeftKeepsEnd(s: Text)
    requires TrimLeft(s) != []
    ensures EndsNL(TrimLeft(s)) <==> EndsNL(s)
  {
    var n := TrimLeftSplits(s);
  }

  lemma InsertKeepsEOF(out: Text, op: EditOp)
    requires op.kind.Insert? && !AllNL(op.text) && op.GapsAreNewlines()
    ensures EndsNL(SpliceInsert(out, op)) <==> EndsNL(out)
  {
    hide TrimLeft, TrimRight, Join;
    var start := if op.start < |out| then op.start else |out|;
    var after := out[start..];
    var body, k := JoinShape(out[..start], op.text, WiderGap(op.member, op.leadGap));
    var gap := InsertShape(out, op, body, k);
    TrimRightIs(TrimRight(out[..start]) + body, k);
    var q := TrimLeft(after);
    if q != [] {
      var n := TrimLeftSplits(after);
      TrimLeftKeepsEnd(after);
      LastOf(TrimRight(out[..start]) + (body + gap), q);
      Assoc(body, gap, q);
      Assoc(TrimRight(out[..start]), body + gap, q);
      LastOf(out[..start], after);
      assert out[..start] + after == out;
    } else {
      AllNLTrims(TrimRight(out[..start]) + body);
    }
  }

  lemma LastOf(a: Text, b: Text)
    requires b != []
    ensures EndsNL(a + b) <==> EndsNL(b)
  {
  }

  lemma DeleteKeepsEOF(out: Text, op: EditOp)
    requires op.kind.Delete? && op.start <= op.end <= |out|
    ensures
      var r := SpliceExcise(out, op.start, op.end).value;
      EndsNL(r) <==> EndsNL(out) && !(AllNL(out[op.end..]) && AllNL(out[..op.start]))
  {
    hide TrimLeft, TrimRight;
    var after := out[op.end..];
    AllNLTrims(after);
    AllNLTrims(out[..op.start]);
    var _ := TrimRightSplits(out[..op.start]);
    if TrimLeft(after) != [] {
      TrimLeftKeepsEnd(after);
    }
  }

  /** A whole batch keeps the file's end-of-file newline, except when a deletion
      empties the buffer of a file that ended in one. */
  lemma {:induction false} BatchKeepsEOF(head: Text, asc: seq<EditOp>)
    requires Ascending(head, asc) && Clear(head, asc) && NewlineGaps(asc)
    requires forall op <- asc :: SolidEdit(head, op)
    ensures Ordered(asc) && Pass(head, asc).Some?
    ensures EndsNL(Pass(head, asc).value) <==> EndsNL(head) && !EverEmpties(head, asc)
  {
    hide Spaced, TrimLeft, TrimRight, SpliceInsert, SpliceExcise, ReachOf, HasContent, WiderGap;
    AscendingBounds(head, asc);
    PassInvariant(head, asc);
    if asc != [] {
      var op, rest := asc[0], asc[1..];
      assert asc == [op] + rest;
      assert op in asc && SolidEdit(head, op);
      BatchKeepsEOF(head, rest);
      PassInvariant(head, rest);
      var out := Pass(head, rest).value;
      match op.kind {
        case Insert =>
          InsertKeepsEOF(out, op);
        case Replace =>
          HoldsBelow(out, head, Reach(head, rest), StartOf(head, rest), Tail(head, rest), op.end);
          assert out[..op.end][op.end - 1] == head[..op.end][op.end - 1];
        case Delete =>
          var above := [head[op.end..StartOf(head, rest)]] + Tail(head, rest);
          assert Tail(head, asc)[1..] == above;
          DeleteStepEOF(out, head, op, Reach(head, rest), StartOf(head, rest), Tail(head, rest));
      }
    }
  }

  lemma DeleteStepEOF(out: Text, head: Text, op: EditOp, t: nat, s: nat, parts: seq<Text>)
    requires op.kind.Delete? && op.start <= op.end <= t && Holds(out, head, t, s, parts)
    ensures Step(out, op).Some?
    ensures EndsNL(Step(out, op).value) <==>
            EndsNL(out) && !(AllNL(head[..op.start]) && !HasContent([head[op.end..s]] + parts))
  {
    hide Spaced, TrimLeft, TrimRight, SpliceExcise, HasContent;
    DeleteKeepsEOF(out, op);
    HoldsBelow(out, head, t, s, parts, op.end);
    assert out[..op.start] == out[..op.end][..op.start] == head[..op.end][..op.start] == head[..op.start];
    BlankAbove(out[op.end..], [head[op.end..s]] + parts);
    ExciseInBounds(out, op);
  }

  lemma ExciseInBounds(out: Text, op: EditOp)
    requires op.kind.Delete? && op.start <= op.end <= |out|
    ensures Step(out, op).Some? && Step(out, op) == SpliceExcise(out, op.start, op.end)
  {
  }

  lemma BlankAbove(after: Text, above: seq<Text>)
    requires Spaced(after, above)
    ensures AllNL(after) <==> !HasContent(above)
  {
    hide Spaced;
    SpacedBlankIff(after, above);
    assert (forall p <- above :: AllNL(p)) <==> forall i :: 0 <= i < |above| ==> AllNL(above[i]);
  }

  // ----- one symbol in, and out again -----

  ghost predicate Solid(t: Text) {
    t != [] && t[0] != NL && !EndsNL(t)
  }

  lemma SolidTrims(t: Text)
    requires Solid(t)
    ensures TrimLeft(t) == t && TrimRight(t) == t
  {
  }

  lemma SameRun(a: Text, b: Text)
    requires AllNL(a) && AllNL(b)
    ensures a == b <==> |a| == |b|
  {
  }

  /** Anywhere in the newline run between two neighbours, the splice writes its text and
      the two separators for it. */
  lemma BetweenSplice(a: Text, g: Text, b: Text, op: EditOp)
    requires op.kind.Insert? && |a| <= op.start <= |a| + |g| && Solid(op.text) && op.GapsAreNewlines()
    requires a != [] && !EndsNL(a) && AllNL(g) && b != [] && b[0] != NL
    ensures SpliceInsert(a + g + b, op)
            == a + WiderGap(op.member, op.leadGap) + op.text + WiderGap(op.member, op.trailGap) + b
  {
    var out, t, x := a + g + b, op.text, op.start - |a|;
    var lead, trail := WiderGap(op.member, op.leadGap), WiderGap(op.member, op.trailGap);
    assert out[..op.start] == a + g[..x] && out[op.start..] == g[x..] + b;
    TrimLeftIs(g[x..], b);
    TrimRightIs(a, g[..x]);
    SolidTrims(t);
    var mid := a + lead + t;
    assert Join(a + g[..x], t, lead) == mid;
    TrimRightIs(mid, []);
    assert mid + [] == mid;
  }

  /** Behind the last symbol of a file the splice writes its text and one separator, and
      ends the file in one newline where it ended in any, else in none. */
  lemma InsertAtEndExact(a: Text, g: Text, op: EditOp)
    requires op.kind.Insert? && |a| <= op.start && Solid(op.text) && op.GapsAreNewlines()
    requires a != [] && !EndsNL(a) && AllNL(g)
    ensures SpliceInsert(a + g, op)
            == a + WiderGap(op.member, op.leadGap) + op.text + if g != [] then [10] else []
  {
    var out, t, lead := a + g, op.text, WiderGap(op.member, op.leadGap);
    var start := if op.start < |out| then op.start else |out|;
    assert out[..start] == a + g[..start - |a|] && out[start..] == g[start - |a|..];
    TrimLeftIs(out[start..], []);
    assert out[start..] + [] == out[start..];
    TrimRightIs(a, g[..start - |a|]);
    SolidTrims(t);
    var mid := a + lead + t;
    assert Join(out[..start], t, lead) == mid;
    TrimRightIs(mid, []);
    assert mid + [] == mid;
  }

  /** Inserting a symbol between two neighbours reproduces the worktree bytes
      exactly when its two gaps there are at least the minimum. */
  lemma InsertBetweenExact(a: Text, g: Text, b: Text, op: EditOp)
    requires op.kind.Insert? && op.start == |a| && Solid(op.text) && op.GapsAreNewlines()
    requires a != [] && !EndsNL(a) && AllNL(g) && b != [] && b[0] != NL
    ensures
      var minimum := if op.member then 1 else 2;
      SpliceInsert(a + g + b, op) == a + op.leadGap + op.text + op.trailGap + b
      <==> |op.leadGap| >= minimum && |op.trailGap| >= minimum
  {
    var t := op.text;
    var lead, trail := WiderGap(op.member, op.leadGap), WiderGap(op.member, op.trailGap);
    BetweenSplice(a, g, b, op);
    var mid := a + lead + t;
    var want := a + op.leadGap + t + op.trailGap + b;
    SameRun(lead, op.leadGap);
    SameRun(trail, op.trailGap);
    assert |lead| >= |op.leadGap| && |trail| >= |op.trailGap|;
    assert |mid + trail + b| == |a| + |lead| + |t| + |trail| + |b|;
    assert |want| == |a| + |op.leadGap| + |t| + |op.trailGap| + |b|;
  }

  /** Excising that symbol again gives HEAD back exactly when its leading gap was
      HEAD's own gap. */
  lemma ExciseBetweenExact(a: Text, g: Text, b: Text, lead: Text, t: Text, trail: Text)
    requires AllNL(g) && AllNL(lead) && AllNL(trail) && b != [] && b[0] != NL
    ensures
      var work := a + lead + t + trail + b;
      SpliceExcise(work, |a + lead|, |a + lead + t|) == Some(a + g + b) <==> lead == g
  {
    var work := a + lead + t + trail + b;
    assert work[|a + lead + t|..] == trail + b;
    assert work[..|a + lead|] == a + lead;
    TrimLeftIs(trail, b);
    assert SpliceExcise(work, |a + lead|, |a + lead + t|) == Some(a + lead + b);
    SameRun(lead, g);
    assert |a + lead + b| == |a| + |lead| + |b| && |a + g + b| == |a| + |g| + |b|;
  }
}
