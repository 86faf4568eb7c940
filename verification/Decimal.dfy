/** Decimal numerals, and the `Name#N` ordinal form built from them. */
module Decimal {
  import opened Seqs
  import opened Bytes

  const MAX_INT: int := 0x7fff_ffff_ffff_ffff

  function Digit(d: nat): char
    requires d < 10
  {
    ('0' as int + d) as char
  }

  predicate IsDigit(c: char) {
    '0' <= c <= '9'
  }

  function Value(c: char): nat
    requires IsDigit(c)
  {
    c as int - '0' as int
  }

  /** `strconv.Itoa` of a natural number. */
  function Itoa(n: nat): (s: string)
    ensures s != [] && forall c <- s :: IsDigit(c)
  {
    if n < 10 then [Digit(n)] else Itoa(n / 10) + [Digit(n % 10)]
  }

  /** The value of a run of digits. */
  function Number(s: string): int
    requires forall c <- s :: IsDigit(c)
  {
    if s == [] then 0
    else
      assert forall c <- s[..|s| - 1] :: c in s;
      Number(s[..|s| - 1]) * 10 + Value(s[|s| - 1])
  }

  predicate Digits(s: string) {
    s != [] && forall c <- s :: IsDigit(c)
  }

  /** `strconv.Atoi`: an optional sign, digits, and a value in range. */
  function Atoi(s: string): Option<int> {
    var signed := s != [] && (s[0] == '+' || s[0] == '-');
    var body := if signed then s[1..] else s;
    if !Digits(body) then None
    else
      var v := if signed && s[0] == '-' then -Number(body) else Number(body);
      if -MAX_INT - 1 <= v <= MAX_INT then Some(v) else None
  }

  lemma {:induction false} NumberOfItoa(n: nat)
    ensures Number(Itoa(n)) == n
  {
    if n < 10 {
      assert [Digit(n)][..0] == [];
    } else {
      var s := Itoa(n / 10);
      NumberOfItoa(n / 10);
      assert (s + [Digit(n % 10)])[..|s + [Digit(n % 10)]| - 1] == s;
    }
  }

  lemma AtoiOfItoa(n: nat)
    ensures Atoi(Itoa(n)) == if n <= MAX_INT then Some(n) else None
  {
    NumberOfItoa(n);
    assert IsDigit(Itoa(n)[0]) by {
      assert Itoa(n)[0] in Itoa(n);
    }
  }

  /** A sign in front of digits is read, and an integer has one more negative number than
      positive ones. */
  lemma SignedDigits(s: string)
    requires Digits(s)
    ensures Atoi("+" + s) == if Number(s) <= MAX_INT then Some(Number(s)) else None
    ensures Atoi("-" + s) == if Number(s) <= MAX_INT + 1 then Some(-Number(s)) else None
  {
    hide Number;
    NumberNatural(s);
    assert ("+" + s)[1..] == s && ("-" + s)[1..] == s;
    assert ("+" + s)[0] == '+' && ("-" + s)[0] == '-';
  }

  lemma {:induction false} NumberNatural(s: string)
    requires forall c <- s :: IsDigit(c)
    ensures Number(s) >= 0
  {
    if s != "" {
      assert forall c <- s[..|s| - 1] :: c in s;
      NumberNatural(s[..|s| - 1]);
    }
  }

  /** A longer numeral for a larger number. */
  lemma {:induction false} ItoaLengthMonotone(m: nat, n: nat)
    requires m <= n
    ensures |Itoa(m)| <= |Itoa(n)|
  {
    if m >= 10 {
      ItoaLengthMonotone(m / 10, n / 10);
    }
  }

  // ----- ordinals -----

  function LastIndexOf(s: string, c: char): (i: int)
    ensures -1 <= i < |s|
    ensures i >= 0 ==> s[i] == c
    ensures forall k :: i < k < |s| ==> s[k] != c
  {
    if s == [] then -1
    else if s[|s| - 1] == c then |s| - 1
    else LastIndexOf(s[..|s| - 1], c)
  }

  /** `Bare#N` split at the last `#`, `N` a positive integer. */
  function ParseOrdinal(anchor: string): Option<(string, int)> {
    var i := LastIndexOf(anchor, '#');
    if i <= 0 then None
    else match Atoi(anchor[i + 1..])
      case None => None
      case Some(n) => if n <= 0 then None else Some((anchor[..i], n))
  }

  function OrdinalName(name: string, k: nat): string {
    name + "#" + Itoa(k)
  }

  lemma {:induction false} LastIndexIs(s: string, i: nat, c: char)
    requires i < |s| && s[i] == c && c !in s[i + 1..]
    ensures LastIndexOf(s, c) == i
  {
    if i < |s| - 1 {
      var r := s[..|s| - 1];
      assert s[i + 1..] == r[i + 1..] + [s[|s| - 1]];
      LastIndexIs(r, i, c);
    }
  }

  lemma OrdinalSplits(name: string, k: nat)
    ensures LastIndexOf(OrdinalName(name, k), '#') == |name|
    ensures OrdinalName(name, k)[|name| + 1..] == Itoa(k) && OrdinalName(name, k)[..|name|] == name
  {
    hide Itoa;
    var s := OrdinalName(name, k);
    assert s[|name| + 1..] == Itoa(k);
    LastIndexIs(s, |name|, '#');
  }

  /** An ordinal may be written with a plus, which none is emitted with, and not with a
      minus; what is no number is no ordinal. */
  lemma OrdinalSpellings(name: string, k: nat, other: string)
    requires name != ""
    ensures ParseOrdinal(name + "#" + ("+" + Itoa(k))) == if 0 < k <= MAX_INT then Some((name, k)) else None
    ensures ParseOrdinal(name + "#" + ("-" + Itoa(k))) == None
    ensures '#' !in other && !Digits(other) && (other == "" || other[0] !in "+-") ==> ParseOrdinal(name + "#" + other) == None
  {
    hide Itoa, Number, Atoi;
    NumberOfItoa(k);
    SignedDigits(Itoa(k));
    HashAt(name, "+" + Itoa(k));
    HashAt(name, "-" + Itoa(k));
    if '#' !in other && !Digits(other) && (other == "" || other[0] !in "+-") {
      HashAt(name, other);
      NoNumber(other);
    }
  }

  lemma NoNumber(s: string)
    requires !Digits(s) && (s == "" || s[0] !in "+-")
    ensures Atoi(s) == None
  {
  }

  lemma HashAt(name: string, rest: string)
    requires '#' !in rest
    ensures
      var s := name + "#" + rest;
      LastIndexOf(s, '#') == |name| && s[..|name|] == name && s[|name| + 1..] == rest
  {
    var s := name + "#" + rest;
    assert s[|name| + 1..] == rest;
    LastIndexIs(s, |name|, '#');
  }

  /** `ParseOrdinal` inverts the ordinal form, for every positive ordinal an integer
      holds and every non-empty name, `#` in the name or not. */
  lemma ParseOrdinalInverts(name: string, k: nat)
    ensures ParseOrdinal(OrdinalName(name, k)) == Some((name, k)) <==> name != [] && 0 < k <= 0x7fff_ffff_ffff_ffff
    ensures ParseOrdinal(OrdinalName(name, k)).Some? ==> ParseOrdinal(OrdinalName(name, k)) == Some((name, k))
  {
    OrdinalSplits(name, k);
    AtoiOfItoa(k);
  }

  /** The ordinal form is unambiguous. */
  lemma OrdinalNameInjective(a: string, j: nat, b: string, k: nat)
    requires OrdinalName(a, j) == OrdinalName(b, k)
    ensures a == b && j == k
  {
    OrdinalSplits(a, j);
    OrdinalSplits(b, k);
    NumberOfItoa(j);
    NumberOfItoa(k);
  }
}
