/** The distance behind "did you mean": a two-row table, and the metric it computes. */
module EditDistance {
  import opened Seqs

  function Min(a: int, b: int): int {
    if a <= b then a else b
  }

  function Init<T>(s: seq<T>): seq<T>
    requires s != []
  {
    s[..|s| - 1]
  }

  function Last<T>(s: seq<T>): T
    requires s != []
  {
    s[|s| - 1]
  }

  /** Distance by the recurrence on last characters. */
  function Dist(a: string, b: string): int
    decreases |a| + |b|
  {
    if a == [] then |b|
    else if b == [] then |a|
    else
      Min(Dist(Init(a), b) + 1,
          Min(Dist(a, Init(b)) + 1, Dist(Init(a), Init(b)) + if Last(a) == Last(b) then 0 else 1))
  }

  /** Two rows, swapped after each character of `a`. */
  method Levenshtein(a: string, b: string) returns (d: int)
    ensures d == Dist(a, b)
  {
    hide Dist;
    var prev := new int[|b| + 1];
    var curr := new int[|b| + 1];
    for j := 0 to |b| + 1
      invariant forall k :: 0 <= k < j ==> prev[k] == Dist(a[..0], b[..k])
    {
      DistNil(a[..0], b[..j]);
      prev[j] := j;
    }
    for i := 1 to |a| + 1
      invariant prev != curr && prev.Length == curr.Length == |b| + 1
      invariant fresh(prev) && fresh(curr)
      invariant forall k :: 0 <= k <= |b| ==> prev[k] == Dist(a[..i - 1], b[..k])
    {
      DistNil(a[..i], b[..0]);
      curr[0] := i;
      for j := 1 to |b| + 1
        invariant forall k :: 0 <= k < j ==> curr[k] == Dist(a[..i], b[..k])
        invariant forall k :: 0 <= k <= |b| ==> prev[k] == Dist(a[..i - 1], b[..k])
      {
        var cost := 1;
        if a[i - 1] == b[j - 1] {
          cost := 0;
        }
        DistCell(a, b, i, j);
        curr[j] := Min(prev[j] + 1, Min(curr[j - 1] + 1, prev[j - 1] + cost));
      }
      prev, curr := curr, prev;
    }
    assert a[..|a|] == a && b[..|b|] == b;
    return prev[|b|];
  }

  lemma DistNil(a: string, b: string)
    ensures a == [] ==> Dist(a, b) == |b|
    ensures b == [] ==> Dist(a, b) == |a|
  {
  }

  lemma DistStep(a: string, b: string)
    requires a != [] && b != []
    ensures Dist(a, b) == Min(Dist(Init(a), b) + 1,
                              Min(Dist(a, Init(b)) + 1, Dist(Init(a), Init(b)) + if Last(a) == Last(b) then 0 else 1))
  {
    hide Min, Init, Last;
  }

  lemma DistCell(a: string, b: string, i: nat, j: nat)
    requires 0 < i <= |a| && 0 < j <= |b|
    ensures Dist(a[..i], b[..j]) ==
            Min(Dist(a[..i - 1], b[..j]) + 1,
                Min(Dist(a[..i], b[..j - 1]) + 1, Dist(a[..i - 1], b[..j - 1]) + if a[i - 1] == b[j - 1] then 0 else 1))
  {
    hide Dist, Min;
    var x, y := a[..i], b[..j];
    DistStep(x, y);
    assert Init(x) == a[..i - 1] && Init(y) == b[..j - 1];
  }

  // ----- the least cost of an edit script -----

  datatype Edit = Keep(c: char) | Substitute(c: char, d: char) | Add(d: char) | Remove(c: char)

  function Source(script: seq<Edit>): string {
    if script == [] then []
    else Source(Init(script)) + match Last(script)
      case Keep(c) => [c]
      case Substitute(c, _) => [c]
      case Add(_) => []
      case Remove(c) => [c]
  }

  function Target(script: seq<Edit>): string {
    if script == [] then []
    else Target(Init(script)) + match Last(script)
      case Keep(c) => [c]
      case Substitute(_, d) => [d]
      case Add(d) => [d]
      case Remove(_) => []
  }

  function Cost(script: seq<Edit>): int {
    if script == [] then 0 else Cost(Init(script)) + if Last(script).Keep? then 0 else 1
  }

  lemma Snoc<T>(s: seq<T>, x: T)
    ensures s + [x] != [] && Init(s + [x]) == s && Last(s + [x]) == x
  {
  }

  /** The recurrence, read off appended characters. */
  lemma DistSnoc(a: string, b: string, c: char, d: char)
    ensures Dist(a + [c], b) <= Dist(a, b) + 1
    ensures Dist(a, b + [d]) <= Dist(a, b) + 1
    ensures Dist(a + [c], b + [d]) <= Dist(a, b) + if c == d then 0 else 1
  {
    Snoc(a, c);
    Snoc(b, d);
  }

  /** No script is cheaper. */
  lemma {:induction false} ScriptCostsAtLeast(script: seq<Edit>)
    ensures Dist(Source(script), Target(script)) <= Cost(script)
  {
    hide Dist;
    if script == [] {
      DistNil([], []);
    } else {
      var rest, e := Init(script), Last(script);
      ScriptCostsAtLeast(rest);
      var s, t := Source(rest), Target(rest);
      assert s + [] == s && t + [] == t;
      match e
      case Keep(c) => DistSnoc(s, t, c, c);
      case Substitute(c, d) => DistSnoc(s, t, c, d);
      case Add(d) => DistSnoc(s, t, d, d);
      case Remove(c) => DistSnoc(s, t, c, c);
    }
  }

  /** Some script attains it. */
  lemma {:induction false} BestScript(a: string, b: string) returns (script: seq<Edit>)
    ensures Source(script) == a && Target(script) == b && Cost(script) == Dist(a, b)
    decreases |a| + |b|
  {
    hide Dist;
    DistNil(a, b);
    if a == [] && b == [] {
      script := [];
    } else {
      var rest: seq<Edit>, e: Edit;
      if a == [] || (b != [] && Dist(a, b) == Dist(a, Init(b)) + 1) {
        DistNil(a, Init(b));
        e := Add(Last(b));
        rest := BestScript(a, Init(b));
      } else if b == [] || Dist(a, b) == Dist(Init(a), b) + 1 {
        DistNil(Init(a), b);
        e := Remove(Last(a));
        rest := BestScript(Init(a), b);
      } else {
        DistStep(a, b);
        e := if Last(a) == Last(b) then Keep(Last(a)) else Substitute(Last(a), Last(b));
        rest := BestScript(Init(a), Init(b));
      }
      script := rest + [e];
      Snoc(rest, e);
      assert a != [] ==> Init(a) + [Last(a)] == a;
      assert b != [] ==> Init(b) + [Last(b)] == b;
      assert a + [] == a && b + [] == b;
    }
  }

  /** The distance is the least number of single-character edits. */
  lemma DistIsLeastCost(a: string, b: string)
    ensures exists script :: Source(script) == a && Target(script) == b && Cost(script) == Dist(a, b)
    ensures forall script :: Source(script) == a && Target(script) == b ==> Dist(a, b) <= Cost(script)
  {
    var script := BestScript(a, b);
    forall s | Source(s) == a && Target(s) == b
      ensures Dist(a, b) <= Cost(s)
    {
      ScriptCostsAtLeast(s);
    }
  }

  // ----- a metric -----

  lemma {:induction false} DistBounds(a: string, b: string)
    ensures Dist(a, b) >= 0 && Dist(a, b) >= |a| - |b| && Dist(a, b) >= |b| - |a| && Dist(a, b) <= |a| + |b|
    decreases |a| + |b|
  {
    if a != [] && b != [] {
      DistBounds(Init(a), b);
      DistBounds(a, Init(b));
      DistBounds(Init(a), Init(b));
    }
  }

  lemma {:induction false} ZeroIffEqual(a: string, b: string)
    ensures Dist(a, b) == 0 <==> a == b
    decreases |a| + |b|
  {
    if a != [] && b != [] {
      assert Init(a) + [Last(a)] == a && Init(b) + [Last(b)] == b;
      DistBounds(Init(a), b);
      DistBounds(a, Init(b));
      DistBounds(Init(a), Init(b));
      ZeroIffEqual(Init(a), Init(b));
    }
  }

  lemma {:induction false} Symmetric(a: string, b: string)
    ensures Dist(a, b) == Dist(b, a)
    decreases |a| + |b|
  {
    if a != [] && b != [] {
      Symmetric(Init(a), b);
      Symmetric(a, Init(b));
      Symmetric(Init(a), Init(b));
    }
  }

  lemma {:induction false} Triangle(a: string, b: string, c: string)
    ensures Dist(a, c) <= Dist(a, b) + Dist(b, c)
    decreases |a| + |b| + |c|
  {
    hide Dist;
    if a == [] || b == [] || c == [] {
      DistBounds(a, b);
      DistBounds(b, c);
      DistBounds(a, c);
      DistNil(a, b);
      DistNil(b, c);
      DistNil(a, c);
      return;
    }
    DistStep(a, b);
    DistStep(b, c);
    DistStep(a, c);
    if Dist(a, b) == Dist(Init(a), b) + 1 {
      Triangle(Init(a), b, c);
    } else if Dist(b, c) == Dist(b, Init(c)) + 1 {
      Triangle(a, b, Init(c));
    } else if Dist(a, b) == Dist(a, Init(b)) + 1 {
      if Dist(b, c) == Dist(Init(b), c) + 1 {
        Triangle(a, Init(b), c);
      } else {
        Triangle(a, Init(b), Init(c));
      }
    } else if Dist(b, c) == Dist(Init(b), c) + 1 {
      Triangle(Init(a), Init(b), c);
    } else {
      Triangle(Init(a), Init(b), Init(c));
    }
  }
}
