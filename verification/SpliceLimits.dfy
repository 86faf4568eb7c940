/** Where the splice pass stops being safe, exactly. */
module SpliceLimits {
  import opened Seqs
  import opened Bytes
  import opened Splice
  import opened SpliceLaws

  // ----- how far HEAD's bytes stand -----

  /** Insertions carry a text that is not blank, between newlines. */
  ghost predicate Tidy(asc: seq<EditOp>) {
    forall op <- asc :: op.kind.Insert? ==> op.GapsAreNewlines() && !AllNL(op.text)
  }

  /** The buffer's length once a batch of ranges has left nothing but newlines from its
      lowest edit on. */
  function BlankLength(head: Text, asc: seq<EditOp>): int
    requires forall op <- asc :: op.start <= op.End() <= |head|
  {
    if asc == [] then |head|
    else
      var op, above := asc[0], BlankLength(head, asc[1..]);
      match op.kind
      case Replace => above - (op.end - op.start) + |op.text|
      case Insert => above
      case Delete =>
        var prefix := TrimRight(head[..op.start]);
        |prefix| + if prefix != [] && (above > op.end || EndsNL(head[..op.End()])) then 1 else 0
  }

  /** How far up HEAD's own bytes are still in place after a pass: up to the lowest edit,
      unless that is a deletion that ends the file, or an insertion that has written its
      own separator over the newlines below it. */
  ghost function Floor(head: Text, asc: seq<EditOp>): nat
    requires Ascending(head, asc)
  {
    InBounds(head, asc);
    if asc == [] then |head|
    else
      var op := asc[0];
      match op.kind
      case Replace => op.start
      case Delete =>
        var left := BlankLength(head, asc);
        if HasContent(Tail(head, asc)[1..]) || left >= op.start then op.start else left
      case Insert => InsertFloor(head, op)
  }

  /** A separator is written only below something. */
  function InsertFloor(head: Text, op: EditOp): nat
    requires op.start <= |head|
  {
    var solid, gap := |TrimRight(head[..op.start])|, |WiderGap(op.member, op.leadGap)|;
    if solid == 0 then 0 else if op.start <= solid + gap then op.start else solid + gap
  }

  lemma {:induction false} InBounds(head: Text, asc: seq<EditOp>)
    requires Ascending(head, asc)
    ensures forall op <- asc :: op.start <= op.End() <= |head|
    ensures StartOf(head, asc) <= |head| && Ordered(asc)
  {
    AscendingBounds(head, asc);
    if asc != [] {
      AscendingBounds(head, asc[1..]);
      InBounds(head, asc[1..]);
      assert asc == [asc[0]] + asc[1..];
    }
  }

  /** Every range ends within HEAD's bytes as the edits above it leave them. */
  ghost predicate RangesFit(head: Text, asc: seq<EditOp>)
    requires Ascending(head, asc)
  {
    asc == [] || (RangesFit(head, asc[1..]) && (asc[0].kind.Insert? || asc[0].end <= Floor(head, asc[1..])))
  }

  /** Every insertion is placed within them too, or has nothing but newlines above it. */
  ghost predicate InsertsFit(head: Text, asc: seq<EditOp>)
    requires Ascending(head, asc)
  {
    asc == [] ||
    (InsertsFit(head, asc[1..]) &&
     (asc[0].kind.Insert? ==> asc[0].start <= Floor(head, asc[1..]) || !HasContent(Tail(head, asc[1..]))))
  }

  /** The buffer agrees with HEAD up to `t`, where HEAD is blank up to `s`, and holds `rest`
      beyond that, newlines aside. */
  ghost predicate Agrees(out: Text, head: Text, t: nat, s: nat, rest: Text) {
    t <= |out| && t <= s <= |head| && out[..t] == head[..t] && AllNL(head[t..s]) && Erase(out[t..]) == rest
  }

  /** After a pass: where HEAD's bytes stop below the lowest edit there is content of the
      edits above, or the buffer ends. */
  ghost predicate Stands(out: Text, head: Text, asc: seq<EditOp>)
    requires Ascending(head, asc)
  {
    InBounds(head, asc);
    var t, s := Floor(head, asc), StartOf(head, asc);
    && Agrees(out, head, t, s, Erase(Flatten(Tail(head, asc))))
    && (HasContent(Tail(head, asc)) ==> t < s ==> t < |out| && out[t] != NL)
    && (!HasContent(Tail(head, asc)) ==> |out| == BlankLength(head, asc) && (t < s ==> t == |out|))
  }

  // ----- one step, newlines aside -----

  lemma ErasedIsBlank(s: Text)
    ensures Erase(s) == [] <==> AllNL(s)
  {
    if AllNL(s) {
      EraseNL(s);
    } else {
      var i :| 0 <= i < |s| && s[i] != NL;
      assert s == s[..i] + ([s[i]] + s[i + 1..]);
      EraseAppend(s[..i], [s[i]] + s[i + 1..]);
    }
  }

  lemma ErasedTrims(s: Text)
    ensures Erase(TrimLeft(s)) == Erase(s) && Erase(TrimRight(s)) == Erase(s)
  {
    hide TrimLeft, TrimRight, Erase;
    var n := TrimLeftSplits(s);
    var m := TrimRightSplits(s);
    EraseNL(n);
    EraseNL(m);
    EraseAppend(n, TrimLeft(s));
    EraseAppend(TrimRight(s), m);
  }

  lemma ErasedJoin(a: Text, b: Text, sep: Text)
    requires AllNL(sep)
    ensures Erase(Join(a, b, sep)) == Erase(a) + Erase(b)
  {
    ErasedTrims(a);
    ErasedTrims(b);
    var l, r := TrimRight(a), TrimLeft(b);
    ErasedIsBlank(l);
    ErasedIsBlank(r);
    EraseNL(sep);
    hide TrimLeft, TrimRight, Erase, AllNL;
    EraseAppend(l + sep, r);
    EraseAppend(l, sep);
    assert Erase(l) + [] == Erase(l) && [] + Erase(r) == Erase(r);
  }

  lemma ErasedInsert(out: Text, op: EditOp)
    requires op.kind.Insert? && op.GapsAreNewlines()
    ensures
      var start := if op.start < |out| then op.start else |out|;
      Erase(SpliceInsert(out, op)) == Erase(out[..start]) + Erase(op.text) + Erase(out[start..])
  {
    hide TrimLeft, TrimRight, Erase, Join, WiderGap;
    var start := if op.start < |out| then op.start else |out|;
    var after := out[start..];
    var lead, trail := WiderGap(op.member, op.leadGap), WiderGap(op.member, op.trailGap);
    var mid := Join(out[..start], op.text, lead);
    ErasedJoin(out[..start], op.text, lead);
    ErasedJoin(mid, after, trail);
    ErasedTrims(mid);
    EraseAppend(TrimRight(mid), [NL]);
    EraseNL([NL]);
    AllNLTrims(after);
    if TrimLeft(after) == [] {
      EraseNL(after);
    }
  }

  lemma ErasedRange(out: Text, op: EditOp)
    requires !op.kind.Insert? && op.start <= op.end <= |out|
    ensures Step(out, op).Some?
    ensures Erase(Step(out, op).value) == Erase(out[..op.start]) + Erase(op.Piece()) + Erase(out[op.end..])
  {
    hide TrimLeft, TrimRight, Erase;
    var before, after := out[..op.start], out[op.end..];
    match op.kind {
      case Replace =>
        EraseAppend(before + op.text, after);
        EraseAppend(before, op.text);
      case Delete =>
        EraseNL([]);
        EraseNL([NL]);
        ErasedTrims(after);
        ErasedTrims(before);
        EraseAppend(before, TrimLeft(after));
        EraseAppend(TrimRight(before), [NL]);
    }
  }

  /** Down to any lower offset HEAD's own bytes come in addition. */
  lemma AgreesBelow(out: Text, head: Text, t: nat, s: nat, rest: Text, u: nat)
    requires Agrees(out, head, t, s, rest) && u <= t
    ensures out[..u] == head[..u] && Erase(out[u..]) == Erase(head[u..s]) + rest
  {
    hide Erase, AllNL;
    assert out[..u] == out[..t][..u] && head[..u] == head[..t][..u];
    assert out[u..t] == out[..t][u..] == head[..t][u..] == head[u..t];
    assert out[u..] == out[u..t] + out[t..] && head[u..s] == head[u..t] + head[t..s];
    EraseAppend(out[u..t], out[t..]);
    EraseAppend(head[u..t], head[t..s]);
    EraseNL(head[t..s]);
  }

  /** What agrees up to `t` holds the rest beyond it. */
  lemma AgreesFrom(out: Text, head: Text, t: nat, s: nat, rest: Text)
    requires t <= |out| && t <= s <= |head| && out[..t] == head[..t] && AllNL(head[t..s])
    requires Erase(out) == Erase(head[..s]) + rest
    ensures Agrees(out, head, t, s, rest)
  {
    hide Erase, AllNL;
    assert out == out[..t] + out[t..] && head[..s] == head[..t] + head[t..s];
    EraseAppend(out[..t], out[t..]);
    EraseAppend(head[..t], head[t..s]);
    EraseNL(head[t..s]);
    assert (Erase(head[..t]) + Erase(out[t..]))[|Erase(head[..t])|..] == Erase(out[t..]);
    assert (Erase(head[..t]) + [] + rest)[|Erase(head[..t])|..] == rest;
  }

  lemma ErasedTail(head: Text, asc: seq<EditOp>)
    requires Ascending(head, asc) && asc != []
    ensures
      var op, rest := asc[0], asc[1..];
      && op.End() <= StartOf(head, rest) <= |head|
      && var above := Erase(head[op.End()..StartOf(head, rest)]) + Erase(Flatten(Tail(head, rest)));
      && Erase(Flatten(Tail(head, asc))) == Erase(op.Piece()) + above
      && (HasContent(Tail(head, asc)[1..]) <==> above != [])
      && (HasContent(Tail(head, asc)) <==> Erase(Flatten(Tail(head, asc))) != [])
      && (HasContent(Tail(head, rest)) ==> above != [])
  {
    hide Erase, Flatten, HasContent;
    InBounds(head, asc);
    InBounds(head, asc[1..]);
    var op, rest := asc[0], asc[1..];
    PartsErased(op.Piece(), Segment(head, op.End(), StartOf(head, rest)), Tail(head, rest));
  }

  lemma PartsErased(piece: Text, mid: Text, tail: seq<Text>)
    ensures
      var above := Erase(mid) + Erase(Flatten(tail));
      var parts := [piece, mid] + tail;
      && Erase(Flatten(parts)) == Erase(piece) + above
      && (HasContent(parts[1..]) <==> above != [])
      && (HasContent(parts) <==> Erase(Flatten(parts)) != [])
      && (HasContent(tail) ==> above != [])
  {
    hide Erase, Flatten, HasContent;
    assert [piece, mid] + tail == [piece] + ([mid] + tail);
    assert ([piece, mid] + tail)[1..] == [mid] + tail;
    FlattenAppend([piece], [mid] + tail);
    FlattenAppend([mid], tail);
    FlattenOne(piece);
    FlattenOne(mid);
    EraseAppend(piece, Flatten([mid] + tail));
    EraseAppend(mid, Flatten(tail));
    ContentErased([piece, mid] + tail);
    ContentErased([mid] + tail);
    ContentErased(tail);
  }

  lemma FlattenOne(t: Text)
    ensures Flatten([t]) == t
  {
    assert Flatten([t][1..]) == [];
  }

  lemma {:induction false} ContentErased(parts: seq<Text>)
    ensures HasContent(parts) <==> Erase(Flatten(parts)) != []
  {
    if parts != [] {
      ContentErased(parts[1..]);
      EraseAppend(parts[0], Flatten(parts[1..]));
      ErasedIsBlank(parts[0]);
      assert parts == [parts[0]] + parts[1..];
    }
  }

  // ----- the pass, while everything fits -----

  lemma ReplaceStands(out: Text, head: Text, asc: seq<EditOp>)
    requires Ascending(head, asc) && asc != [] && asc[0].kind.Replace? && Stands(out, head, asc[1..])
    requires asc[0].end <= Floor(head, asc[1..])
    ensures Step(out, asc[0]).Some? && Stands(Step(out, asc[0]).value, head, asc)
  {
    hide Erase, HasContent, TrimRight;
    InBounds(head, asc);
    InBounds(head, asc[1..]);
    var op, rest := asc[0], asc[1..];
    var t, s := Floor(head, rest), StartOf(head, rest);
    AgreesBelow(out, head, t, s, Erase(Flatten(Tail(head, rest))), op.end);
    ErasedTail(head, asc);
    ErasedRange(out, op);
    var r := Step(out, op).value;
    assert out[..op.start] == out[..op.end][..op.start] == head[..op.end][..op.start] == head[..op.start];
    assert r[..op.start] == head[..op.start];
    Assoc(Erase(op.text), Erase(head[op.end..s]), Erase(Flatten(Tail(head, rest))));
    Assoc(Erase(head[..op.start]), Erase(op.text), Erase(out[op.end..]));
    AgreesFrom(r, head, op.start, op.start, Erase(Flatten(Tail(head, asc))));
  }

  lemma DeleteStands(out: Text, head: Text, asc: seq<EditOp>)
    requires Ascending(head, asc) && asc != [] && asc[0].kind.Delete? && Stands(out, head, asc[1..])
    requires asc[0].end <= Floor(head, asc[1..])
    ensures Step(out, asc[0]).Some? && Stands(Step(out, asc[0]).value, head, asc)
  {
    hide Erase, HasContent, TrimRight, TrimLeft, Floor, BlankLength;
    InBounds(head, asc);
    InBounds(head, asc[1..]);
    var op, rest := asc[0], asc[1..];
    var t, s := Floor(head, rest), StartOf(head, rest);
    AgreesBelow(out, head, t, s, Erase(Flatten(Tail(head, rest))), op.end);
    ErasedTail(head, asc);
    ErasedRange(out, op);
    EraseNL([]);
    var r := Step(out, op).value;
    var above := Erase(out[op.end..]);
    assert out[..op.start] == out[..op.end][..op.start] == head[..op.end][..op.start] == head[..op.start];
    assert Erase(r) == Erase(head[..op.start]) + above;
    assert Erase(Flatten(Tail(head, asc))) == above;
    ErasedIsBlank(out[op.end..]);
    AllNLTrims(out[op.end..]);
    if above != [] {
      assert r[..op.start] == head[..op.start];
      AgreesFrom(r, head, op.start, op.start, above);
      FloorOfDelete(head, asc);
    } else {
      EndsLikeHead(out, head, op.end);
      var n := TrimRightSplits(head[..op.start]);
      var u := if |r| >= op.start then op.start else |r|;
      CutShort(head[..op.start], r, n, u);
      assert head[..op.start][u..] == head[u..op.start];
      assert head[..op.start][..u] == head[..u];
      AgreesFrom(r, head, u, op.start, above);
      FloorOfDelete(head, asc);
      BlankAfterDelete(head, asc);
    }
  }

  lemma FloorOfDelete(head: Text, asc: seq<EditOp>)
    requires Ascending(head, asc) && asc != [] && asc[0].kind.Delete?
    ensures forall op <- asc :: op.start <= op.End() <= |head|
    ensures
      var left := BlankLength(head, asc);
      Floor(head, asc) == if HasContent(Tail(head, asc)[1..]) || left >= asc[0].start then asc[0].start else left
  {
    InBounds(head, asc);
  }

  lemma BlankAfterDelete(head: Text, asc: seq<EditOp>)
    requires Ascending(head, asc) && asc != [] && asc[0].kind.Delete?
    ensures asc[0].start <= asc[0].end <= |head| && Ascending(head, asc[1..])
    ensures forall op <- asc :: op.start <= op.End() <= |head|
    ensures
      var prefix := TrimRight(head[..asc[0].start]);
      BlankLength(head, asc) ==
      |prefix| + if prefix != [] && (BlankLength(head, asc[1..]) > asc[0].end || EndsNL(head[..asc[0].end])) then 1 else 0
  {
    InBounds(head, asc);
  }

  /** A buffer that is blank beyond `e` ends in a newline when it is longer, and else as HEAD
      does there. */
  lemma EndsLikeHead(out: Text, head: Text, e: nat)
    requires e <= |out| && e <= |head| && out[..e] == head[..e] && AllNL(out[e..])
    ensures EndsNL(out) <==> |out| > e || EndsNL(head[..e])
  {
    if |out| > e {
      assert out[|out| - 1] == out[e..][|out| - 1 - e];
    } else {
      assert out[..e] == out;
    }
  }

  /** Of a text whose trailing newlines go but for one, what is left agrees with it. */
  lemma CutShort(below: Text, r: Text, n: Text, u: nat)
    requires AllNL(n) && below == TrimRight(below) + n && u <= |r| && u <= |below| && (u == |r| || u == |below|)
    requires r == TrimRight(below) || r == TrimRight(below) + [NL]
    ensures r[..u] == below[..u] && AllNL(below[u..])
  {
    hide TrimRight;
    var p := TrimRight(below);
    if u > |p| {
      assert n[0] == NL && below[..u] == p + [NL] == r[..u];
    }
    assert forall i :: 0 <= i < |below[u..]| ==> u + i >= |p| ==> below[u..][i] == n[u + i - |p|];
  }

  /** What the insertion splice writes at its place: the separator, unless nothing stands
      below, and then the text's first byte that is no newline. */
  lemma InsertFirst(out: Text, op: EditOp)
    requires op.kind.Insert? && op.GapsAreNewlines() && !AllNL(op.text)
    ensures
      var a := TrimRight(out[..if op.start < |out| then op.start else |out|]);
      var gap := if a == [] then 0 else |WiderGap(op.member, op.leadGap)|;
      var r := SpliceInsert(out, op);
      a <= r && |a| + gap < |r| && AllNL(r[|a|..|a| + gap]) && r[|a| + gap] != NL
  {
    hide TrimLeft, TrimRight, WiderGap;
    var start := if op.start < |out| then op.start else |out|;
    var a, b := TrimRight(out[..start]), TrimLeft(op.text);
    var sep := WiderGap(op.member, op.leadGap);
    var g := if a == [] then [] else sep;
    var _ := TrimLeftSplits(op.text);
    AllNLTrims(op.text);
    var mid := Join(out[..start], op.text, sep);
    assert mid == (a + g) + b;
    FirstKept(a + g, b, mid);
    InsertExtends(out, op, mid, TrimRight(mid));
    var x :| SpliceInsert(out, op) == TrimRight(mid) + x;
    PrefixKept(a, g, TrimRight(mid), x);
  }

  /** Trimming on the right leaves a byte that is no newline where it is. */
  lemma FirstKept(p: Text, b: Text, mid: Text)
    requires mid == p + b && b != [] && b[0] != NL
    ensures |p| < |TrimRight(mid)| && TrimRight(mid)[..|p|] == p && TrimRight(mid)[|p|] != NL
  {
    hide TrimRight;
    var k := TrimRightSplits(mid);
    var m := TrimRight(mid);
    assert mid[|p|] == b[0] && mid[|p|] == (m + k)[|p|];
    assert m[..|p|] == mid[..|p|] == p;
  }

  lemma PrefixKept(a: Text, g: Text, m: Text, x: Text)
    requires |a + g| < |m| && m[..|a + g|] == a + g && m[|a + g|] != NL
    ensures
      var r := m + x;
      a <= r && |a| + |g| < |r| && r[|a|..|a| + |g|] == g && r[|a| + |g|] != NL
  {
    var at := |a + g|;
    var r := m + x;
    assert r[..at] == m[..at] == a + g;
    assert r[|a|..at] == r[..at][|a|..] == g;
    assert r[..|a|] == r[..at][..|a|] == a;
  }

  lemma InsertExtends(out: Text, op: EditOp, mid: Text, m: Text)
    requires op.kind.Insert? && m == TrimRight(mid) && m != []
    requires mid == Join(out[..if op.start < |out| then op.start else |out|], op.text, WiderGap(op.member, op.leadGap))
    ensures exists x :: SpliceInsert(out, op) == m + x
  {
    hide TrimLeft, TrimRight, WiderGap;
    var q := TrimLeft(out[if op.start < |out| then op.start else |out|..]);
    var x := if q != [] then WiderGap(op.member, op.trailGap) + q else if EndsNL(out) then [NL] else [];
    assert SpliceInsert(out, op) == m + x;
  }

  lemma InsertAgrees(out: Text, head: Text, op: EditOp)
    requires op.kind.Insert? && op.GapsAreNewlines() && !AllNL(op.text) && op.start <= |head|
    requires TrimRight(out[..if op.start < |out| then op.start else |out|]) == TrimRight(head[..op.start])
    ensures
      var t, r := InsertFloor(head, op), SpliceInsert(out, op);
      && t <= op.start && t < |r| && r[..t] == head[..t] && AllNL(head[t..op.start])
      && (t < op.start ==> r[t] != NL)
  {
    hide TrimRight, TrimLeft, SpliceInsert, WiderGap;
    InsertFirst(out, op);
    var r, a := SpliceInsert(out, op), TrimRight(head[..op.start]);
    var gap := if a == [] then 0 else |WiderGap(op.member, op.leadGap)|;
    var n := TrimRightSplits(head[..op.start]);
    var t := InsertFloor(head, op);
    assert t == if op.start <= |a| + gap && a != [] then op.start else |a| + gap;
    var d, z := t - |a|, r[|a|..];
    assert r == a + z && z[..gap] == r[|a|..|a| + gap];
    assert AllNL(z[..d]) by {
      assert z[..d] == z[..gap][..d];
    }
    Agree(a, z, n, d);
    assert head[..t] == head[..op.start][..t];
    assert head[t..op.start] == head[..op.start][t..];
  }

  lemma InsertStands(out: Text, head: Text, asc: seq<EditOp>)
    requires Ascending(head, asc) && asc != [] && asc[0].kind.Insert? && Stands(out, head, asc[1..])
    requires asc[0].GapsAreNewlines() && !AllNL(asc[0].text)
    requires asc[0].start <= Floor(head, asc[1..]) || !HasContent(Tail(head, asc[1..]))
    ensures Step(out, asc[0]).Some? && Stands(Step(out, asc[0]).value, head, asc)
  {
    hide Erase, HasContent, TrimRight, TrimLeft, SpliceInsert, WiderGap, InsertFloor;
    InBounds(head, asc);
    InBounds(head, asc[1..]);
    var op, rest := asc[0], asc[1..];
    ErasedTail(head, asc);
    InsertPlace(out, head, op, rest);
    ErasedInsert(out, op);
    InsertAgrees(out, head, op);
    var start := if op.start < |out| then op.start else |out|;
    var tail := Erase(Flatten(Tail(head, asc)));
    ErasedTrims(out[..start]);
    ErasedTrims(head[..op.start]);
    Assoc(Erase(head[..op.start]), Erase(op.text), Erase(out[start..]));
    ErasedIsBlank(op.text);
    AgreesFrom(SpliceInsert(out, op), head, InsertFloor(head, op), op.start, tail);
  }

  /** The buffer at an insertion's place is HEAD there, newlines at its end aside. */
  lemma InsertPlace(out: Text, head: Text, op: EditOp, rest: seq<EditOp>)
    requires Ascending(head, rest) && Stands(out, head, rest) && op.start <= StartOf(head, rest) <= |head|
    requires op.start <= Floor(head, rest) || !HasContent(Tail(head, rest))
    ensures
      var start := if op.start < |out| then op.start else |out|;
      && TrimRight(out[..start]) == TrimRight(head[..op.start])
      && Erase(out[start..]) == Erase(head[op.start..StartOf(head, rest)]) + Erase(Flatten(Tail(head, rest)))
  {
    hide Erase, HasContent, TrimRight, Floor;
    var t, s := Floor(head, rest), StartOf(head, rest);
    var tail := Erase(Flatten(Tail(head, rest)));
    if op.start <= t {
      AgreesBelow(out, head, t, s, tail, op.start);
    } else {
      assert t == |out|;
      ContentErased(Tail(head, rest));
      assert out[..|out|] == out && out[|out|..] == [];
      assert head[op.start..s] == head[t..s][op.start - t..];
      EraseNL(head[op.start..s]);
      EraseNL([]);
      var n := TrimRightSplits(head[..t]);
      var a := TrimRight(head[..t]);
      assert head[..op.start] == head[..t] + head[t..op.start] == a + (n + head[t..op.start]);
      assert head[t..op.start] == head[t..s][..op.start - t];
      TrimRightIs(a, n + head[t..op.start]);
    }
  }

  /** While every edit fits, the pass is in bounds, leaves HEAD's bytes in place up to the
      floor and nothing out. */
  lemma {:induction false} FitsStands(head: Text, asc: seq<EditOp>)
    requires Ascending(head, asc) && Tidy(asc) && RangesFit(head, asc) && InsertsFit(head, asc)
    ensures Ordered(asc) && Pass(head, asc).Some? && Stands(Pass(head, asc).value, head, asc)
  {
    hide Stands, Step, HasContent, AllNL, Floor;
    InBounds(head, asc);
    if asc == [] {
      NothingApplied(head);
    } else {
      var op, rest := asc[0], asc[1..];
      assert forall o <- rest :: o in asc;
      FitsStands(head, rest);
      var out := Pass(head, rest).value;
      match op.kind {
        case Replace => ReplaceStands(out, head, asc);
        case Delete => DeleteStands(out, head, asc);
        case Insert => InsertStands(out, head, asc);
      }
    }
  }

  lemma NothingApplied(head: Text)
    ensures Ascending(head, []) && Pass(head, []) == Some(head) && Stands(head, head, [])
  {
    assert head[|head|..] == [];
  }

  // ----- the pass, once a range has overrun -----

  /** HEAD's bytes stand up to `t`, but of the content from there on some is gone. */
  ghost predicate Lost(out: Text, head: Text, asc: seq<EditOp>, t: nat)
    requires Ascending(head, asc)
  {
    InBounds(head, asc);
    var s := StartOf(head, asc);
    && t <= |out| && t <= s && out[..t] == head[..t] && AllNL(head[t..s])
    && |Erase(out)| < |Erase(head[..s])| + |Erase(Flatten(Tail(head, asc)))|
  }

  /** A range that starts where HEAD's bytes stand takes no less from the buffer than from HEAD,
      and more when it reaches a byte that is no newline beyond them. */
  lemma RangeTakes(out: Text, head: Text, t: nat, a: nat, e: nat)
    requires a <= t <= |out| && a <= e <= |out| && e <= |head| && t <= |head| && out[..t] == head[..t]
    requires t < e ==> AllNL(head[t..e])
    ensures |Erase(out[a..e])| >= |Erase(head[a..e])| + if t < e && out[t] != NL then 1 else 0
  {
    hide Erase, AllNL;
    if e <= t {
      assert out[a..e] == out[..t][a..e] == head[..t][a..e] == head[a..e];
    } else {
      assert out[a..t] == out[..t][a..] == head[..t][a..] == head[a..t];
      assert out[a..e] == out[a..t] + out[t..e] && head[a..e] == head[a..t] + head[t..e];
      EraseAppend(out[a..t], out[t..e]);
      EraseAppend(head[a..t], head[t..e]);
      EraseNL(head[t..e]);
      if out[t] != NL {
        ErasedIsBlank(out[t..e]);
        assert out[t..e][0] != NL && !AllNL(out[t..e]) by {
          NotBlank(out[t..e]);
        }
      }
    }
  }

  lemma NotBlank(s: Text)
    requires s != [] && s[0] != NL
    ensures !AllNL(s)
  {
  }

  lemma BlankPart(head: Text, t: nat, s: nat, a: nat, e: nat)
    requires t <= s <= |head| && a <= e <= s && AllNL(head[t..s])
    ensures t <= a ==> AllNL(head[a..e])
  {
    assert forall i :: t <= i < s ==> head[i] == head[t..s][i - t];
  }

  ghost predicate HoldsContent(head: Text, op: EditOp)
    requires op.start <= op.End() <= |head|
  {
    op.kind.Insert? || !AllNL(head[op.start..op.end])
  }

  ghost predicate Contents(head: Text, asc: seq<EditOp>)
    requires Ascending(head, asc)
  {
    InBounds(head, asc);
    forall op <- asc :: HoldsContent(head, op)
  }

  /** How many bytes, newlines aside, a range leaves. */
  lemma RangeLeaves(out: Text, op: EditOp)
    requires !op.kind.Insert? && op.start <= op.end <= |out|
    ensures Step(out, op).Some?
    ensures |Erase(Step(out, op).value)| == |Erase(out)| - |Erase(out[op.start..op.end])| + |Erase(op.Piece())|
  {
    hide Erase, Step;
    ErasedRange(out, op);
    assert out == out[..op.start] + out[op.start..op.end] + out[op.end..];
    EraseAppend(out[..op.start] + out[op.start..op.end], out[op.end..]);
    EraseAppend(out[..op.start], out[op.start..op.end]);
  }

  /** What a list should amount to, newlines aside, by what its lowest edit takes and gives. */
  lemma AmountsTo(head: Text, asc: seq<EditOp>)
    requires Ascending(head, asc) && asc != []
    ensures
      var op, rest := asc[0], asc[1..];
      && op.start <= op.End() <= StartOf(head, rest) <= |head|
      && |Erase(head[..op.start])| + |Erase(Flatten(Tail(head, asc)))|
         == |Erase(head[..StartOf(head, rest)])| + |Erase(Flatten(Tail(head, rest)))|
            - |Erase(head[op.start..op.End()])| + |Erase(op.Piece())|
  {
    hide Erase, HasContent, Flatten, Tail, Ascending;
    InBounds(head, asc);
    ErasedTail(head, asc);
    var op, s := asc[0], StartOf(head, asc[1..]);
    assert head[..s] == head[..op.start] + head[op.start..op.End()] + head[op.End()..s];
    EraseAppend(head[..op.start] + head[op.start..op.End()], head[op.End()..s]);
    EraseAppend(head[..op.start], head[op.start..op.End()]);
  }

  /** A range that ends above the floor runs out of bounds or takes content of the edits above. */
  lemma OverrunLoses(out: Text, head: Text, asc: seq<EditOp>)
    requires Ascending(head, asc) && asc != [] && !asc[0].kind.Insert? && Stands(out, head, asc[1..])
    requires asc[0].end > Floor(head, asc[1..]) && Contents(head, asc)
    ensures Step(out, asc[0]).Some? ==> exists t :: Lost(Step(out, asc[0]).value, head, asc, t)
  {
    hide Erase, HasContent, AllNL, Step, Floor;
    InBounds(head, asc);
    InBounds(head, asc[1..]);
    var op, rest := asc[0], asc[1..];
    var t, s := Floor(head, rest), StartOf(head, rest);
    assert op in asc;
    if Step(out, op).Some? {
      StepBounds(out, op);
      BlankPart(head, t, s, op.start, op.end);
      if t < op.end {
        BlankPart(head, t, s, t, op.end);
      }
      RangeTakes(out, head, t, op.start, op.end);
      AgreesBelow(out, head, t, s, Erase(Flatten(Tail(head, rest))), 0);
      assert out[0..] == out && head[0..s] == head[..s];
      LossKept(out, head, asc, t);
    }
  }

  lemma StepBounds(out: Text, op: EditOp)
    requires !op.kind.Insert? && op.start <= op.end
    ensures Step(out, op).Some? <==> op.end <= |out|
  {
  }

  /** A range applied where HEAD's bytes stand leaves them standing, and a loss stays one. */
  lemma LossKept(out: Text, head: Text, asc: seq<EditOp>, t: nat)
    requires Ascending(head, asc) && asc != [] && !asc[0].kind.Insert? && asc[0].start <= asc[0].end <= |out|
    requires t <= |out| && t <= StartOf(head, asc[1..]) <= |head| && out[..t] == head[..t] && asc[0].start < t
    requires AllNL(head[t..StartOf(head, asc[1..])])
    requires
      var op, s := asc[0], StartOf(head, asc[1..]);
      && op.end <= |head|
      && |Erase(out)| - |Erase(out[op.start..op.end])|
         < |Erase(head[..s])| + |Erase(Flatten(Tail(head, asc[1..])))| - |Erase(head[op.start..op.end])|
    ensures Step(out, asc[0]).Some? && exists u :: Lost(Step(out, asc[0]).value, head, asc, u)
  {
    hide Erase, HasContent, AllNL, Step;
    InBounds(head, asc);
    var op := asc[0];
    RangeLeaves(out, op);
    AmountsTo(head, asc);
    var r := Step(out, op).value;
    assert out[..op.start] == out[..t][..op.start] == head[..t][..op.start] == head[..op.start];
    var u := StepLeaves(out, head, op);
    assert Lost(r, head, asc, u);
  }

  lemma StepLeaves(out: Text, head: Text, op: EditOp) returns (u: nat)
    requires !op.kind.Insert? && op.start <= op.end <= |out| && op.start <= |head| && out[..op.start] == head[..op.start]
    ensures Step(out, op).Some?
    ensures
      var r := Step(out, op).value;
      u <= op.start && u <= |r| && r[..u] == head[..u] && AllNL(head[u..op.start])
  {
    hide TrimRight, TrimLeft;
    var r := Step(out, op).value;
    var n := TrimRightSplits(out[..op.start]);
    if op.kind.Replace? || TrimLeft(out[op.end..]) != [] {
      u := op.start;
      assert r[..u] == out[..op.start];
    } else {
      u := |TrimRight(out[..op.start])|;
      assert r[..u] == out[..op.start][..u] == head[..u];
      assert head[u..op.start] == out[..op.start][u..] == n;
    }
  }

  /** An insertion adds its text and takes nothing, wherever it lands. */
  lemma InsertKeepsLoss(out: Text, head: Text, asc: seq<EditOp>, t: nat)
    requires Ascending(head, asc) && asc != [] && asc[0].kind.Insert? && asc[0].GapsAreNewlines()
    requires Lost(out, head, asc[1..], t)
    ensures exists u :: Lost(SpliceInsert(out, asc[0]), head, asc, u)
  {
    hide Erase, HasContent, SpliceInsert, AllNL;
    InBounds(head, asc);
    InBounds(head, asc[1..]);
    var op := asc[0];
    AmountsTo(head, asc);
    ErasedInsert(out, op);
    var start := if op.start < |out| then op.start else |out|;
    assert out == out[..start] + out[start..];
    EraseAppend(out[..start], out[start..]);
    assert head[op.start..op.start] == [];
    EmptyErased();
    var u := InsertLeaves(out, head, op, t, StartOf(head, asc[1..]));
    assert Lost(SpliceInsert(out, op), head, asc, u);
  }

  lemma EmptyErased()
    ensures Erase([]) == []
  {
  }

  lemma InsertLeaves(out: Text, head: Text, op: EditOp, t: nat, s: nat) returns (u: nat)
    requires op.kind.Insert? && op.GapsAreNewlines() && op.start <= s <= |head|
    requires t <= |out| && t <= s && out[..t] == head[..t] && AllNL(head[t..s])
    ensures
      var r := SpliceInsert(out, op);
      u <= op.start && u <= |r| && r[..u] == head[..u] && AllNL(head[u..op.start])
  {
    hide SpliceInsert, TrimRight;
    var start := if op.start < |out| then op.start else |out|;
    var r, a := SpliceInsert(out, op), TrimRight(out[..start]);
    InsertBegins(out, op);
    var n := TrimRightSplits(out[..start]);
    u := if |a| < t then |a| else t;
    u := if u < op.start then u else op.start;
    assert r[..u] == r[..|a|][..u] == a[..u] == out[..start][..u] == out[..t][..u] == head[..u];
    BlankFrom(out, head, start, t, op.start, s, n, |a|);
  }

  lemma InsertBegins(out: Text, op: EditOp)
    requires op.kind.Insert? && op.GapsAreNewlines()
    ensures TrimRight(out[..if op.start < |out| then op.start else |out|]) <= SpliceInsert(out, op)
  {
    hide Spaced, TrimRight, SpliceInsert;
    var start := if op.start < |out| then op.start else |out|;
    SpacedOne(out[start..], out[start..]);
    InsertSplice(out, op, [out[start..]]);
  }

  lemma BlankFrom(out: Text, head: Text, start: nat, t: nat, p: nat, s: nat, n: Text, a: nat)
    requires t <= |out| && t <= s <= |head| && p <= s && out[..t] == head[..t] && AllNL(head[t..s]) && AllNL(n)
    requires start == (if p < |out| then p else |out|) && a <= start && out[a..start] == n
    ensures
      var u := if a < t then a else t;
      forall i :: u <= i < p ==> head[i] == NL
  {
    forall i | (if a < t then a else t) <= i < p
      ensures head[i] == NL
    {
      if i >= t {
        assert head[i] == head[t..s][i - t];
      } else {
        assert head[i] == head[..t][i] == out[i] == n[i - a];
      }
    }
  }

  /** No later edit makes up for a loss. */
  lemma StepKeepsLoss(out: Text, head: Text, asc: seq<EditOp>, t: nat)
    requires Ascending(head, asc) && asc != [] && Tidy(asc) && Contents(head, asc) && Lost(out, head, asc[1..], t)
    ensures Ordered(asc) && (Step(out, asc[0]).Some? ==> exists u :: Lost(Step(out, asc[0]).value, head, asc, u))
  {
    hide Erase, HasContent, AllNL, Step;
    InBounds(head, asc);
    InBounds(head, asc[1..]);
    var op, s := asc[0], StartOf(head, asc[1..]);
    assert op in asc;
    if op.kind.Insert? {
      StepInsert(out, op);
      InsertKeepsLoss(out, head, asc, t);
    } else if Step(out, op).Some? {
      StepBounds(out, op);
      BlankPart(head, t, s, op.start, op.end);
      if t < op.end {
        BlankPart(head, t, s, t, op.end);
      }
      RangeTakes(out, head, t, op.start, op.end);
      LossKept(out, head, asc, t);
    }
  }

  lemma {:induction false} OverrunStays(head: Text, asc: seq<EditOp>)
    requires Ascending(head, asc) && Tidy(asc) && InsertsFit(head, asc) && Contents(head, asc) && !RangesFit(head, asc)
    ensures Ordered(asc)
    ensures Pass(head, asc).Some? ==> exists t :: Lost(Pass(head, asc).value, head, asc, t)
  {
    hide Stands, Step, AllNL, Floor, Lost, HoldsContent;
    InBounds(head, asc);
    var op, rest := asc[0], asc[1..];
    assert forall o <- rest :: o in asc;
    InBounds(head, rest);
    if !RangesFit(head, rest) {
      OverrunStays(head, rest);
      if Pass(head, rest).Some? {
        var t :| Lost(Pass(head, rest).value, head, rest, t);
        StepKeepsLoss(Pass(head, rest).value, head, asc, t);
      }
    } else {
      FitsStands(head, rest);
      OverrunLoses(Pass(head, rest).value, head, asc);
    }
  }

  lemma SubstitutionErased(head: Text, asc: seq<EditOp>)
    requires Ascending(head, asc)
    ensures StartOf(head, asc) <= |head|
    ensures Erase(Flatten(Segments(head, asc))) == Erase(head[..StartOf(head, asc)]) + Erase(Flatten(Tail(head, asc)))
  {
    hide Erase;
    InBounds(head, asc);
    var seg := Segment(head, 0, StartOf(head, asc));
    assert Segments(head, asc)[1..] == Tail(head, asc);
    assert seg == head[..StartOf(head, asc)];
    EraseAppend(seg, Flatten(Tail(head, asc)));
  }

  /** Replacements, deletions and insertions in any mix, the insertions placed within what the
      edits above them leave: the pass stays in bounds and its blob is the substitution,
      newlines aside, exactly when every range ends within HEAD's bytes as the edits above
      leave them. Otherwise it panics or loses content. */
  lemma KeepsAllIff(head: Text, asc: seq<EditOp>)
    requires Ascending(head, asc) && Tidy(asc) && InsertsFit(head, asc) && Contents(head, asc)
    ensures Ordered(asc)
    ensures Pass(head, asc).Some? && Erase(Pass(head, asc).value) == Erase(Flatten(Segments(head, asc)))
            <==> RangesFit(head, asc)
  {
    hide Erase, Segments, Floor, Pass, HoldsContent, RangesFit, InsertsFit, HasContent;
    InBounds(head, asc);
    SubstitutionErased(head, asc);
    if RangesFit(head, asc) {
      FitsStands(head, asc);
      var out, s := Pass(head, asc).value, StartOf(head, asc);
      AgreesBelow(out, head, Floor(head, asc), s, Erase(Flatten(Tail(head, asc))), 0);
      assert out[0..] == out && head[0..s] == head[..s];
    } else {
      OverrunStays(head, asc);
    }
  }

  // ----- ranges alone -----

  ghost predicate RangesAlone(asc: seq<EditOp>) {
    forall op <- asc :: !op.kind.Insert?
  }

  /** A batch of replacements and deletions, of any length, runs out of bounds exactly when
      some range ends above what a deletion right above it that ends the file leaves. */
  lemma {:induction false} PanicsIff(head: Text, asc: seq<EditOp>)
    requires Ascending(head, asc) && RangesAlone(asc)
    ensures Ordered(asc) && (Pass(head, asc).None? <==> !RangesFit(head, asc))
  {
    hide Stands, Step, Floor;
    InBounds(head, asc);
    if asc == [] {
      NothingApplied(head);
    } else {
      var op, rest := asc[0], asc[1..];
      assert forall o <- rest :: o in asc;
      InBounds(head, rest);
      PanicsIff(head, rest);
      RangesOnly(head, rest);
      if RangesFit(head, rest) {
        FitsStands(head, rest);
        StepBounds(Pass(head, rest).value, op);
        EndsAtFloor(Pass(head, rest).value, head, rest);
      }
    }
  }

  lemma {:induction false} RangesOnly(head: Text, asc: seq<EditOp>)
    requires Ascending(head, asc) && RangesAlone(asc)
    ensures Tidy(asc) && InsertsFit(head, asc)
  {
    hide Floor;
    if asc != [] {
      assert forall o <- asc[1..] :: o in asc;
      RangesOnly(head, asc[1..]);
    }
  }

  /** Below the lowest of a batch of ranges the buffer is HEAD's, or ends. */
  lemma EndsAtFloor(out: Text, head: Text, asc: seq<EditOp>)
    requires Ascending(head, asc) && RangesAlone(asc) && Stands(out, head, asc)
    ensures Floor(head, asc) <= |out| && (Floor(head, asc) < StartOf(head, asc) ==> Floor(head, asc) == |out|)
  {
    hide AllNL, Erase;
    InBounds(head, asc);
    if asc != [] {
      ContentAbove(head, asc);
    }
  }

  lemma ContentAbove(head: Text, asc: seq<EditOp>)
    requires Ascending(head, asc) && asc != []
    ensures asc[0].kind.Delete? ==> (HasContent(Tail(head, asc)) <==> HasContent(Tail(head, asc)[1..]))
  {
    assert Tail(head, asc) == [asc[0].Piece()] + Tail(head, asc)[1..];
  }

  // ----- insertions inside one newline run -----

  lemma EraseThree(a: Text, b: Text, c: Text)
    ensures Erase(a + b + c) == Erase(a) + Erase(b) + Erase(c)
  {
    EraseAppend(a + b, c);
    EraseAppend(a, b);
  }

  /** What the two insertions should amount to, newlines aside. */
  lemma RunSubstituted(a: Text, n: Text, b: Text, lo: EditOp, hi: EditOp)
    requires AllNL(n) && lo.kind.Insert? && hi.kind.Insert? && |a| <= lo.start <= hi.start <= |a| + |n|
    ensures Erase(Flatten(Segments(a + n + b, [lo, hi]))) == Erase(a) + Erase(lo.text) + Erase(hi.text) + Erase(b)
  {
    hide Erase, AllNL;
    var head := a + n + b;
    var x, y := lo.start - |a|, hi.start - |a|;
    assert [lo, hi][1..] == [hi] && [hi][1..] == [];
    assert head[0..lo.start] == a + n[..x] && head[lo.start..hi.start] == n[x..y] && head[hi.start..|head|] == n[y..] + b;
    var parts := [a + n[..x], lo.text, n[x..y], hi.text, n[y..] + b];
    assert Tail(head, [hi]) == [hi.text, n[y..] + b];
    assert Segments(head, [lo, hi]) == parts;
    FlattenFive(parts);
    assert AllNL(n[..x]) && AllNL(n[x..y]) && AllNL(n[y..]) by {
      RunParts(n, x, y);
    }
    EraseNL(n[..x]);
    EraseNL(n[x..y]);
    EraseNL(n[y..]);
    EraseAppend(a, n[..x]);
    EraseAppend(n[y..], b);
    EraseAppend(a + n[..x] + lo.text + n[x..y] + hi.text, n[y..] + b);
    EraseAppend(a + n[..x] + lo.text + n[x..y], hi.text);
    EraseThree(a + n[..x], lo.text, n[x..y]);
  }

  lemma RunParts(n: Text, x: nat, y: nat)
    requires AllNL(n) && x <= y <= |n|
    ensures AllNL(n[..x]) && AllNL(n[x..y]) && AllNL(n[y..])
  {
  }

  lemma FlattenFive(parts: seq<Text>)
    requires |parts| == 5
    ensures Flatten(parts) == parts[0] + parts[1] + parts[2] + parts[3] + parts[4]
  {
    assert parts[1..][1..] == parts[2..] && parts[2..][1..] == parts[3..] && parts[3..][1..] == parts[4..];
    assert parts[4..][1..] == [];
    assert Flatten(parts[4..]) == parts[4];
    assert Flatten(parts[3..]) == parts[3] + parts[4];
    assert Flatten(parts[2..]) == parts[2] + (parts[3] + parts[4]);
    assert Flatten(parts[1..]) == parts[1] + (parts[2] + (parts[3] + parts[4]));
  }

  /** Two insertions inside one newline run, their texts starting differently: the blob is
      the substitution, newlines aside, exactly when the lower one is placed within the
      separator the upper one writes in front of itself. Further up it lands in the upper
      one's text. */
  lemma InsertsInsideRunIff(a: Text, n: Text, b: Text, lo: EditOp, hi: EditOp)
    requires lo.kind.Insert? && hi.kind.Insert? && lo.GapsAreNewlines() && hi.GapsAreNewlines()
    requires Solid(lo.text) && Solid(hi.text) && lo.text[0] != hi.text[0]
    requires a != [] && !EndsNL(a) && AllNL(n) && b != [] && b[0] != NL
    requires |a| <= lo.start < hi.start <= |a| + |n|
    ensures Ordered([lo, hi]) && Pass(a + n + b, [lo, hi]).Some?
    ensures
      var blob := Pass(a + n + b, [lo, hi]).value;
      Erase(blob) == Erase(Flatten(Segments(a + n + b, [lo, hi]))) <==>
        lo.start <= |a| + |WiderGap(hi.member, hi.leadGap)|
  {
    hide Erase, Segments, Flatten, SpliceInsert, Pass, WiderGap, Solid, AllNL;
    TwoInserted(a + n + b, lo, hi);
    BetweenSplice(a, n, b, hi);
    RunSubstituted(a, n, b, lo, hi);
    var lead, trail := WiderGap(hi.member, hi.leadGap), WiderGap(hi.member, hi.trailGap);
    SecondInsert(a, lead, lo, hi.text, trail, b);
  }

  lemma SecondInsert(a: Text, lead: Text, lo: EditOp, t: Text, trail: Text, b: Text)
    requires lo.kind.Insert? && lo.GapsAreNewlines() && Solid(lo.text) && |a| <= lo.start
    requires a != [] && !EndsNL(a) && AllNL(lead) && AllNL(trail) && Solid(t) && lo.text[0] != t[0]
    ensures Erase(SpliceInsert(a + lead + t + trail + b, lo)) == Erase(a) + Erase(lo.text) + Erase(t) + Erase(b)
            <==> lo.start <= |a| + |lead|
  {
    hide Erase, SpliceInsert, AllNL;
    var more := t[1..] + trail + b;
    if lo.start <= |a| + |lead| {
      WithinSeparator(a, lead, lo, t, trail, b);
      assert a + lead + t + trail + b == a + lead + (t + trail + b);
    } else {
      assert a + lead + t + trail + b == a + lead + ([t[0]] + more);
      var rest := PastSeparator(a, lead, t[0], more, lo);
      TornApart(a, lead, t[0], rest, lo.text, t, b);
    }
  }

  lemma TwoInserted(head: Text, lo: EditOp, hi: EditOp)
    requires lo.kind.Insert? && hi.kind.Insert? && lo.start <= hi.start
    ensures Ordered([lo, hi]) && Pass(head, [lo, hi]) == Some(SpliceInsert(SpliceInsert(head, hi), lo))
  {
    hide SpliceInsert;
    assert [lo, hi][1..] == [hi] && [hi][1..] == [];
    assert Pass(head, []) == Some(head);
    assert Pass(head, [hi]) == Some(SpliceInsert(head, hi));
  }

  lemma WithinSeparator(a: Text, lead: Text, lo: EditOp, t: Text, trail: Text, b: Text)
    requires lo.kind.Insert? && lo.GapsAreNewlines() && Solid(lo.text) && |a| <= lo.start <= |a| + |lead|
    requires a != [] && !EndsNL(a) && AllNL(lead) && AllNL(trail) && Solid(t)
    ensures Erase(SpliceInsert(a + lead + (t + trail + b), lo)) == Erase(a) + Erase(lo.text) + Erase(t) + Erase(b)
  {
    hide Erase, SpliceInsert;
    BetweenSplice(a, lead, t + trail + b, lo);
    ErasedParts(a, WiderGap(lo.member, lo.leadGap), lo.text, WiderGap(lo.member, lo.trailGap), t, trail, b);
  }

  lemma ErasedParts(a: Text, l: Text, x: Text, g: Text, t: Text, trail: Text, b: Text)
    requires AllNL(l) && AllNL(g) && AllNL(trail)
    ensures Erase(a + l + x + g + (t + trail + b)) == Erase(a) + Erase(x) + Erase(t) + Erase(b)
  {
    hide Erase, AllNL;
    EraseNL(l);
    EraseNL(g);
    EraseNL(trail);
    EraseThree(t, trail, b);
    EraseAppend(a + l + x + g, t + trail + b);
    EraseAppend(a + l + x, g);
    EraseThree(a, l, x);
    assert Erase(a) + [] + Erase(x) + [] + (Erase(t) + [] + Erase(b)) == Erase(a) + Erase(x) + Erase(t) + Erase(b);
  }

  /** A splice beyond a byte that is no newline leaves everything up to it alone. */
  lemma PastSeparator(a: Text, lead: Text, c: byte, above: Text, op: EditOp) returns (rest: Text)
    requires c != NL && op.kind.Insert? && op.GapsAreNewlines() && op.start > |a| + |lead|
    ensures SpliceInsert(a + lead + ([c] + above), op) == a + lead + [c] + rest
  {
    hide SpliceInsert, TrimRight, AllNL;
    var front := a + lead + [c];
    var out := front + above;
    assert a + lead + ([c] + above) == out;
    var start := if op.start < |out| then op.start else |out|;
    InsertBegins(out, op);
    SolidBelow(out, |front| - 1, start);
    var kept, r := TrimRight(out[..start]), SpliceInsert(out, op);
    var n := TrimRightSplits(out[..start]);
    BeginsWith(front, above, start, kept, n, r);
    rest := r[|front|..];
  }

  lemma BeginsWith(front: Text, above: Text, start: nat, kept: Text, n: Text, r: Text)
    requires start <= |front + above| && (front + above)[..start] == kept + n && |front| <= |kept| && kept <= r
    ensures |front| <= |r| && r == front + r[|front|..]
  {
    assert kept[..|front|] == (kept + n)[..|front|] == (front + above)[..|front|] == front;
    assert r[..|front|] == r[..|kept|][..|front|];
  }

  lemma TornApart(a: Text, lead: Text, c: byte, rest: Text, lo: Text, hi: Text, b: Text)
    requires AllNL(lead) && c != NL && lo != [] && lo[0] != NL && lo[0] != c
    ensures Erase(a + lead + [c] + rest) != Erase(a) + Erase(lo) + Erase(hi) + Erase(b)
  {
    EraseFirst([c]);
    EraseFirst(lo);
    hide Erase, AllNL;
    EraseAppend(a + lead + [c], rest);
    EraseThree(a, lead, [c]);
    EraseNL(lead);
    ApartAt(Erase(a), Erase([c]), Erase(rest), Erase(lo), Erase(hi), Erase(b));
  }

  lemma EraseFirst(t: Text)
    requires t != [] && t[0] != NL
    ensures Erase(t) != [] && Erase(t)[0] == t[0]
  {
  }

  lemma ApartAt(a: Text, c: Text, x: Text, d: Text, y: Text, z: Text)
    requires c != [] && d != [] && c[0] != d[0]
    ensures a + [] + c + x != a + d + y + z
  {
    assert (a + [] + c + x)[|a|] == c[0] && (a + d + y + z)[|a|] == d[0];
  }

  // ----- a range that ends in the run an insertion spaces anew -----

  /** A symbol replaced or deleted, and an insertion above it in the newline run it ends in:
      the blob is the substitution, newlines aside, exactly when the symbol ends within the
      separator the insertion writes. Further up it takes the new symbol's text with it. */
  lemma RangeBelowInsertIff(a: Text, n: Text, b: Text, lo: EditOp, hi: EditOp)
    requires !lo.kind.Insert? && hi.kind.Insert? && hi.GapsAreNewlines() && !AllNL(hi.text)
    requires a != [] && !EndsNL(a) && AllNL(n)
    requires lo.start < |a| <= lo.end <= hi.start <= |a| + |n|
    ensures Ordered([lo, hi])
    ensures
      var head := a + n + b;
      Pass(head, [lo, hi]).Some? && Erase(Pass(head, [lo, hi]).value) == Erase(Flatten(Segments(head, [lo, hi]))) <==>
        lo.end <= |a| + |WiderGap(hi.member, hi.leadGap)|
  {
    hide Erase, Segments, Flatten, Pass, WiderGap, AllNL, HasContent, TrimRight;
    var head := a + n + b;
    assert [lo, hi][1..] == [hi] && [hi][1..] == [];
    assert Ascending(head, []) && Ascending(head, [hi]) && Ascending(head, [lo, hi]);
    assert head[..hi.start] == a + n[..hi.start - |a|];
    RunParts(n, hi.start - |a|, |n|);
    TrimRightIs(a, n[..hi.start - |a|]);
    NothingAbove(head);
    assert head[lo.start..lo.end][|a| - 1 - lo.start] == a[|a| - 1] != NL;
    HasSolid(head[lo.start..lo.end], |a| - 1 - lo.start);
    assert Tidy([lo, hi]) && Contents(head, [lo, hi]);
    assert InsertsFit(head, []) && InsertsFit(head, [hi]) && InsertsFit(head, [lo, hi]);
    KeepsAllIff(head, [lo, hi]);
    assert Floor(head, [hi]) == InsertFloor(head, hi);
    assert RangesFit(head, []) && RangesFit(head, [hi]);
  }

  lemma HasSolid(s: Text, i: nat)
    requires i < |s| && s[i] != NL
    ensures !AllNL(s)
  {
  }

  lemma NothingAbove(head: Text)
    ensures !HasContent(Tail(head, []))
  {
  }
}
