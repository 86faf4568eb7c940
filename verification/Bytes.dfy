/** Byte strings, newline trimming, and the relation "these parts, re-spaced". */
module Bytes {
  import opened Seqs

  newtype byte = x: int | 0 <= x < 256

  type Text = seq<byte>

  const NL: byte := 10

  datatype Option<+T> = None | Some(value: T)

  predicate AllNL(s: Text) {
    forall i :: 0 <= i < |s| ==> s[i] == NL
  }

  predicate EndsNL(s: Text) {
    s != [] && s[|s| - 1] == NL
  }

  /** `bytes.TrimLeft(s, "\n")`. */
  function TrimLeft(s: Text): Text {
    if s != [] && s[0] == NL then TrimLeft(s[1..]) else s
  }

  /** `bytes.TrimRight(s, "\n")`. */
  function TrimRight(s: Text): Text {
    if EndsNL(s) then TrimRight(s[..|s| - 1]) else s
  }

  /** The text without the newline runs at its two ends. */
  function Core(s: Text): Text {
    TrimRight(TrimLeft(s))
  }

  /** `s` with every newline removed. */
  function Erase(s: Text): Text {
    if s == [] then [] else (if s[0] == NL then [] else [s[0]]) + Erase(s[1..])
  }

  function Flatten(parts: seq<Text>): Text {
    if parts == [] then [] else parts[0] + Flatten(parts[1..])
  }

  // ----- trimming, by uniqueness of the decomposition -----

  lemma {:induction false} TrimLeftIs(n: Text, t: Text)
    requires AllNL(n) && (t == [] || t[0] != NL)
    ensures TrimLeft(n + t) == t
  {
    if n == [] {
      assert n + t == t;
    } else {
      assert (n + t)[1..] == n[1..] + t;
      TrimLeftIs(n[1..], t);
    }
  }

  lemma {:induction false} TrimRightIs(t: Text, n: Text)
    requires AllNL(n) && !EndsNL(t)
    ensures TrimRight(t + n) == t
  {
    if n == [] {
      assert t + n == t;
    } else {
      assert (t + n)[..|t + n| - 1] == t + n[..|n| - 1];
      TrimRightIs(t, n[..|n| - 1]);
    }
  }

  lemma {:induction false} TrimLeftSplits(s: Text) returns (n: Text)
    ensures AllNL(n) && s == n + TrimLeft(s)
    ensures TrimLeft(s) == [] || TrimLeft(s)[0] != NL
  {
    n := [];
    if s != [] && s[0] == NL {
      n := TrimLeftSplits(s[1..]);
      n := [NL] + n;
    }
  }

  lemma {:induction false} TrimRightSplits(s: Text) returns (n: Text)
    ensures AllNL(n) && s == TrimRight(s) + n
    ensures !EndsNL(TrimRight(s))
  {
    n := [];
    if EndsNL(s) {
      n := TrimRightSplits(s[..|s| - 1]);
      n := n + [NL];
    }
  }

  lemma AllNLTrims(s: Text)
    ensures AllNL(s) <==> TrimLeft(s) == []
    ensures AllNL(s) <==> TrimRight(s) == []
    ensures AllNL(s) <==> Core(s) == []
  {
    var n := TrimLeftSplits(s);
    var m := TrimRightSplits(s);
    var k := TrimRightSplits(TrimLeft(s));
    if AllNL(s) {
      assert s + [] == s == [] + s;
      TrimLeftIs(s, []);
      TrimRightIs([], s);
    }
  }

  /** A text is its core between two newline runs. */
  lemma CoreSplits(s: Text) returns (n: Text, m: Text)
    ensures AllNL(n) && AllNL(m) && s == n + Core(s) + m
    ensures Core(s) != [] ==> Core(s)[0] != NL && !EndsNL(Core(s))
    ensures Core(s) != [] ==> TrimLeft(s) == Core(s) + m
  {
    n := TrimLeftSplits(s);
    m := TrimRightSplits(TrimLeft(s));
    assert s == n + Core(s) + m;
  }

  /** Only the newline runs at the ends are lost by `Core`. */
  lemma CoreIs(n: Text, c: Text, m: Text)
    requires AllNL(n) && AllNL(m)
    requires c == [] || (c[0] != NL && !EndsNL(c))
    ensures Core(n + c + m) == c
  {
    if c == [] {
      assert AllNL(n + c + m);
      AllNLTrims(n + c + m);
    } else {
      assert n + c + m == n + (c + m);
      TrimLeftIs(n, c + m);
      TrimRightIs(c, m);
    }
  }

  // ----- parts, re-spaced -----

  /** `out` is the parts in order, each complete but for the newlines at its own
      two ends, and separated by nothing but newlines. */
  ghost predicate Spaced(out: Text, parts: seq<Text>)
    decreases |parts|
  {
    if parts == [] then AllNL(out)
    else exists n: Text, y: Text :: Gap(n, y) && out == n + Core(parts[0]) + y && Spaced(y, parts[1..])
  }

  /** `n` is a gap before `y`. */
  ghost predicate Gap(n: Text, y: Text) {
    AllNL(n)
  }

  lemma SpacedIntro(n: Text, y: Text, part: Text, rest: seq<Text>)
    requires AllNL(n) && Spaced(y, rest)
    ensures Spaced(n + Core(part) + y, [part] + rest)
  {
    assert ([part] + rest)[1..] == rest;
    assert Gap(n, y);
  }

  lemma SpacedElim(out: Text, part: Text, rest: seq<Text>) returns (n: Text, y: Text)
    requires Spaced(out, [part] + rest)
    ensures AllNL(n) && out == n + Core(part) + y && Spaced(y, rest)
  {
    assert ([part] + rest)[1..] == rest;
    n, y :| Gap(n, y) && out == n + Core(part) + y && Spaced(y, rest);
  }

  lemma SpacedNil(n: Text)
    ensures Spaced(n, []) <==> AllNL(n)
  {
  }

  /** Leading newlines carry no part. */
  lemma {:induction false} SpacedLead(n: Text, out: Text, parts: seq<Text>)
    requires AllNL(n) && Spaced(out, parts)
    ensures Spaced(n + out, parts)
  {
    hide Spaced, TrimLeft, TrimRight;
    if parts == [] {
      SpacedNil(out);
      SpacedNil(n + out);
    } else {
      var part, rest := parts[0], parts[1..];
      assert [part] + rest == parts;
      var m, y := SpacedElim(out, part, rest);
      SpacedIntro(n + m, y, part, rest);
      Assoc(m, Core(part), y);
      Assoc(n, m, Core(part) + y);
      Assoc(n + m, Core(part), y);
    }
  }

  lemma {:induction false} SpacedUnlead(n: Text, out: Text, parts: seq<Text>)
    requires AllNL(n) && Spaced(n + out, parts)
    ensures Spaced(out, parts)
    decreases |parts|
  {
    hide Spaced, TrimLeft, TrimRight;
    Cut(n, out);
    if parts == [] {
      SpacedNil(n + out);
      SpacedNil(out);
    } else {
      var part, rest := parts[0], parts[1..];
      assert [part] + rest == parts;
      var c := Core(part);
      var m, y := SpacedElim(n + out, part, rest);
      Assoc(m, c, y);
      Cut(m, c + y);
      if |n| <= |m| {
        SpacedIntro(m[|n|..], y, part, rest);
        assert (m + (c + y))[|n|..] == m[|n|..] + (c + y);
        Assoc(m[|n|..], c, y);
      } else {
        var _, _ := CoreSplits(part);
        assert c + y == n[|m|..] + out;
        assert (c + y)[0] == NL;
        SpacedUnlead(n[|m|..], out, rest);
        SpacedIntro([], out, part, rest);
        assert [] + c + out == out;
      }
    }
  }

  /** A blank text is spaced from the same parts as any other blank text. */
  lemma SpacedBlank(a: Text, b: Text, parts: seq<Text>)
    requires AllNL(a) && AllNL(b) && Spaced(a, parts)
    ensures Spaced(b, parts)
  {
    assert a + [] == a && b + [] == b;
    SpacedUnlead(a, [], parts);
    SpacedLead(b, [], parts);
  }

  lemma {:induction false} SpacedAppend(x: Text, texts: seq<Text>, y: Text, rest: seq<Text>)
    requires Spaced(x, texts) && Spaced(y, rest)
    ensures Spaced(x + y, texts + rest)
    decreases |texts|
  {
    hide Spaced, TrimLeft, TrimRight;
    if texts == [] {
      SpacedNil(x);
      assert texts + rest == rest;
      SpacedLead(x, y, rest);
    } else {
      var part, tail := texts[0], texts[1..];
      assert [part] + tail == texts;
      var n, z := SpacedElim(x, part, tail);
      SpacedAppend(z, tail, y, rest);
      SpacedIntro(n, z + y, part, tail + rest);
      Assoc(n + Core(part), z, y);
      Assoc([part], tail, rest);
    }
  }

  lemma SpacedOne(x: Text, part: Text)
    requires Core(x) == Core(part)
    ensures Spaced(x, [part])
  {
    var n, m := CoreSplits(x);
    SpacedIntro(n, m, part, []);
    assert [part] + [] == [part];
  }

  lemma SpacedCons(p: Text, piece: Text, out: Text, parts: seq<Text>)
    requires Spaced(out, parts) && Core(p) == Core(piece)
    ensures Spaced(p + out, [piece] + parts)
  {
    SpacedOne(p, piece);
    SpacedAppend(p, [piece], out, parts);
  }

  /** Trailing newlines carry no part. */
  lemma {:induction false} SpacedTrail(x: Text, n: Text, parts: seq<Text>)
    requires AllNL(n) && Spaced(x + n, parts)
    ensures Spaced(x, parts)
    decreases |parts|
  {
    hide Spaced, TrimLeft, TrimRight;
    if parts == [] {
      SpacedNil(x + n);
      SpacedNil(x);
      assert x == (x + n)[..|x|];
    } else {
      assert [parts[0]] + parts[1..] == parts;
      var c := Core(parts[0]);
      var _, _ := CoreSplits(parts[0]);
      var m, y := SpacedElim(x + n, parts[0], parts[1..]);
      if |n| <= |y| {
        var z := y[..|y| - |n|];
        assert z + n == y by {
          assert y[|y| - |n|..] == (x + n)[|x|..];
        }
        SpacedTrail(z, n, parts[1..]);
        SpacedIntro(m, z, parts[0], parts[1..]);
        assert x == (x + n)[..|x|] == m + c + z;
      } else {
        assert forall i :: 0 <= i < |y| ==> y[i] == (x + n)[|m| + |c| + i];
        assert AllNL(y);
        SpacedBlank(y, [], parts[1..]);
        assert (m + c)[|m + c| - 1] == (x + n)[|m + c| - 1];
        assert EndsNL(m + c);
        assert c == [];
        assert forall i :: 0 <= i < |x| ==> x[i] == (x + n)[i] == m[i];
        SpacedIntro(x, [], parts[0], parts[1..]);
        assert x + c + [] == x;
      }
    }
  }

  /** A blank text spaces only blank parts, and blank parts only give a blank text. */
  lemma {:induction false} SpacedBlankIff(out: Text, parts: seq<Text>)
    requires Spaced(out, parts)
    ensures AllNL(out) <==> forall i :: 0 <= i < |parts| ==> AllNL(parts[i])
    decreases |parts|
  {
    hide Spaced, TrimLeft, TrimRight;
    if parts == [] {
      SpacedNil(out);
    } else {
      assert [parts[0]] + parts[1..] == parts;
      var n, y := SpacedElim(out, parts[0], parts[1..]);
      SpacedBlankIff(y, parts[1..]);
      AllNLTrims(parts[0]);
      var _, _ := CoreSplits(parts[0]);
      var c := Core(parts[0]);
      assert c != [] ==> out[|n|] == c[0];
      assert y == out[|n| + |c|..];
      assert parts[1..] == parts[1..|parts|];
      assert (forall i :: 0 <= i < |parts| ==> AllNL(parts[i])) <==>
             AllNL(parts[0]) && forall i :: 0 <= i < |parts[1..]| ==> AllNL(parts[1..][i]) by {
        assert forall i :: 0 < i < |parts| ==> parts[i] == parts[1..][i - 1];
      }
    }
  }

  /** Replacing one part by the parts it was itself spaced from. */
  lemma SpacedExpand(x: Text, part: Text, texts: seq<Text>, rest: seq<Text>)
    requires Spaced(x, [part] + rest) && Spaced(part, texts)
    ensures Spaced(x, texts + rest)
  {
    hide Spaced, TrimLeft, TrimRight;
    var n, m := CoreSplits(part);
    var c := Core(part);
    assert part == n + (c + m);
    SpacedUnlead(n, c + m, texts);
    SpacedTrail(c, m, texts);
    var k, y := SpacedElim(x, part, rest);
    SpacedAppend(c, texts, y, rest);
    SpacedLead(k, c + y, texts + rest);
    Assoc(k, c, y);
  }

  /** Alternating newline gaps and cores: `gaps[0] + Core(parts[0]) + gaps[1] + ...`. */
  function Weave(gaps: seq<Text>, parts: seq<Text>): Text
    requires |gaps| == |parts| + 1
  {
    if parts == [] then gaps[0]
    else gaps[0] + Core(parts[0]) + Weave(gaps[1..], parts[1..])
  }

  /** `Spaced` in terms of the gaps it hides. */
  lemma {:induction false} SpacedIffWoven(out: Text, parts: seq<Text>)
    ensures Spaced(out, parts) <==>
            exists gaps :: |gaps| == |parts| + 1 && (forall g <- gaps :: AllNL(g)) && out == Weave(gaps, parts)
  {
    if Spaced(out, parts) {
      var gaps := SpacedGaps(out, parts);
    }
    if gaps :| |gaps| == |parts| + 1 && (forall g <- gaps :: AllNL(g)) && out == Weave(gaps, parts) {
      WovenSpaced(gaps, parts);
    }
  }

  lemma {:induction false} SpacedGaps(out: Text, parts: seq<Text>) returns (gaps: seq<Text>)
    requires Spaced(out, parts)
    ensures |gaps| == |parts| + 1 && (forall g <- gaps :: AllNL(g)) && out == Weave(gaps, parts)
    decreases |parts|
  {
    if parts == [] {
      gaps := [out];
    } else {
      assert [parts[0]] + parts[1..] == parts;
      var n, y := SpacedElim(out, parts[0], parts[1..]);
      var g := SpacedGaps(y, parts[1..]);
      gaps := [n] + g;
      assert gaps[1..] == g;
    }
  }

  lemma {:induction false} WovenSpaced(gaps: seq<Text>, parts: seq<Text>)
    requires |gaps| == |parts| + 1 && (forall g <- gaps :: AllNL(g))
    ensures Spaced(Weave(gaps, parts), parts)
    decreases |parts|
  {
    if parts != [] {
      WovenSpaced(gaps[1..], parts[1..]);
      SpacedIntro(gaps[0], Weave(gaps[1..], parts[1..]), parts[0], parts[1..]);
      assert [parts[0]] + parts[1..] == parts;
    }
  }

  // ----- erasing newlines -----

  lemma {:induction false} EraseAppend(a: Text, b: Text)
    ensures Erase(a + b) == Erase(a) + Erase(b)
  {
    if a == [] {
      assert a + b == b;
    } else {
      assert (a + b)[1..] == a[1..] + b;
      EraseAppend(a[1..], b);
    }
  }

  lemma {:induction false} EraseNL(n: Text)
    requires AllNL(n)
    ensures Erase(n) == []
  {
    if n != [] {
      EraseNL(n[1..]);
    }
  }

  lemma EraseCore(s: Text)
    ensures Erase(Core(s)) == Erase(s)
  {
    var n, m := CoreSplits(s);
    EraseAppend(n + Core(s), m);
    EraseAppend(n, Core(s));
    EraseNL(n);
    EraseNL(m);
  }

  /** Up to newlines, a spaced text is exactly its parts in order. */
  lemma {:induction false} SpacedErase(out: Text, parts: seq<Text>)
    requires Spaced(out, parts)
    ensures Erase(out) == Erase(Flatten(parts))
    decreases |parts|
  {
    if parts == [] {
      EraseNL(out);
    } else {
      assert [parts[0]] + parts[1..] == parts;
      var n, y := SpacedElim(out, parts[0], parts[1..]);
      SpacedErase(y, parts[1..]);
      EraseAppend(parts[0], Flatten(parts[1..]));
      EraseCore(parts[0]);
      EraseNL(n);
      EraseAppend(n, Core(parts[0]));
      EraseAppend(n + Core(parts[0]), y);
    }
  }
}
