/** Anchor names: what is emitted for each declaration, and what an anchor resolves to. */
module Names {
  import opened Seqs
  import opened Bytes
  import opened Decimal
  import opened Slugs

  datatype Decl = Decl(bare: string, container: string, sep: string)

  /** A declaration's name before ordinals. */
  function ContainerQualified(d: Decl): string {
    if d.container == "" then d.bare else d.container + (if d.sep == "" then "." else d.sep) + d.bare
  }

  function NamesOf(decls: seq<Decl>): seq<string> {
    seq(|decls|, i requires 0 <= i < |decls| => ContainerQualified(decls[i]))
  }

  // ----- emitted names -----

  function Count(names: seq<string>, name: string): nat {
    if names == [] then 0
    else Count(names[..|names| - 1], name) + if names[|names| - 1] == name then 1 else 0
  }

  /** The emitted name of the `i`th declaration: its own name, or `name#k` for the
      `k`th of several. */
  function EmittedName(names: seq<string>, i: nat): string
    requires i < |names|
  {
    if Count(names, names[i]) == 1 then names[i] else OrdinalName(names[i], Count(names[..i + 1], names[i]))
  }

  function Emitted(names: seq<string>): seq<string> {
    seq(|names|, i requires 0 <= i < |names| => EmittedName(names, i))
  }

  /** One declaration in the index; the two names are filled in afterwards. */
  class Symbol {
    const decl: Decl
    var qualified: string
    var sameName: nat

    constructor (decl: Decl)
      ensures this.decl == decl
    {
      this.decl := decl;
      qualified, sameName := "", 0;
    }
  }

  function DeclsOf(syms: seq<Symbol>): seq<Decl> {
    seq(|syms|, i requires 0 <= i < |syms| => syms[i].decl)
  }

  lemma CountNext(names: seq<string>, i: nat, name: string)
    requires i < |names|
    ensures Count(names[..i + 1], name) == Count(names[..i], name) + if names[i] == name then 1 else 0
  {
    assert names[..i + 1][..i] == names[..i];
  }

  lemma CountEmpty()
    ensures forall name :: Count([], name) == 0
  {
  }

  method CountNames(syms: seq<Symbol>) returns (total: map<string, nat>)
    ensures
      var names := NamesOf(DeclsOf(syms));
      (forall name <- total :: total[name] == Count(names, name)) && forall i :: 0 <= i < |names| ==> names[i] in total
  {
    hide Count, ContainerQualified;
    ghost var names := NamesOf(DeclsOf(syms));
    CountEmpty();
    assert names[..0] == [];
    total := map[];
    for i := 0 to |syms|
      invariant forall name :: (if name in total then total[name] else 0) == Count(names[..i], name)
      invariant forall k :: 0 <= k < i ==> names[k] in total
    {
      var name := ContainerQualified(syms[i].decl);
      assert name == names[i];
      forall n {
        CountNext(names, i, n);
      }
      total := total[name := (if name in total then total[name] else 0) + 1];
    }
    assert names[..|syms|] == names;
    forall name | name in total
      ensures total[name] == Count(names, name)
    {
      assert (if name in total then total[name] else 0) == Count(names[..|syms|], name);
    }
  }

  method AssignQualifiedNames(syms: seq<Symbol>)
    requires forall i, j :: 0 <= i < j < |syms| ==> syms[i] != syms[j]
    modifies syms
    ensures
      var names := NamesOf(DeclsOf(syms));
      forall i :: 0 <= i < |syms| ==>
        syms[i].qualified == EmittedName(names, i) && syms[i].sameName == Count(names, names[i])
  {
    hide Count, OrdinalName, ContainerQualified;
    ghost var names := NamesOf(DeclsOf(syms));
    var total := CountNames(syms);
    assert names[..0] == [];
    CountEmpty();
    var seen: map<string, nat> := map[];
    for i := 0 to |syms|
      invariant forall name :: Count(names, name) != 1 ==>
                  (if name in seen then seen[name] else 0) == Count(names[..i], name)
      invariant forall k :: 0 <= k < i ==>
                  syms[k].qualified == EmittedName(names, k) && syms[k].sameName == Count(names, names[k])
    {
      var s := syms[i];
      var name := ContainerQualified(s.decl);
      assert name == names[i];
      forall n {
        CountNext(names, i, n);
      }
      s.sameName := total[name];
      if total[name] == 1 {
        s.qualified := name;
        continue;
      }
      var k := (if name in seen then seen[name] else 0) + 1;
      seen := seen[name := k];
      s.qualified := OrdinalName(name, k);
    }
  }

  // ----- names are unique, and ordinals count -----

  lemma {:induction false} CountMonotone(names: seq<string>, i: nat, j: nat, name: string)
    requires i <= j <= |names|
    ensures Count(names[..i], name) <= Count(names[..j], name)
    decreases j - i
  {
    if i < j {
      CountMonotone(names, i, j - 1, name);
      CountNext(names, j - 1, name);
    }
  }

  /** The ordinals of one name are exactly 1 to their number, in source order. */
  lemma OrdinalsInOrder(names: seq<string>, i: nat, j: nat)
    requires i < j < |names| && names[i] == names[j]
    ensures 1 <= Count(names[..i + 1], names[i]) < Count(names[..j + 1], names[i]) <= Count(names, names[i])
  {
    hide Count;
    CountNext(names, i, names[i]);
    CountNext(names, j, names[i]);
    CountMonotone(names, i + 1, j, names[i]);
    CountMonotone(names, j + 1, |names|, names[i]);
    assert names[..|names|] == names;
  }

  lemma OrdinalInRange(names: seq<string>, i: nat)
    requires i < |names|
    ensures 1 <= Count(names[..i + 1], names[i]) <= Count(names, names[i])
  {
    CountNext(names, i, names[i]);
    CountMonotone(names, i + 1, |names|, names[i]);
    assert names[..|names|] == names;
  }

  lemma {:induction false} OrdinalAttained(names: seq<string>, name: string, k: nat) returns (i: nat)
    requires 1 <= k <= Count(names, name)
    ensures i < |names| && names[i] == name && Count(names[..i + 1], name) == k
  {
    var r := names[..|names| - 1];
    if k <= Count(r, name) {
      i := OrdinalAttained(r, name, k);
      assert names[..i + 1] == r[..i + 1];
    } else {
      i := |names| - 1;
      assert names[..i + 1] == names;
    }
  }

  /** A name that needs no ordinal but already reads like some repeated name's ordinal. */
  ghost predicate Imposter(names: seq<string>, i: nat, j: nat)
    requires i < |names| && j < |names|
  {
    Count(names, names[i]) == 1 && Count(names, names[j]) != 1 && names[i] == EmittedName(names, j)
  }

  /** Emitted names are unique exactly when no imposter exists. */
  lemma EmittedUniqueIff(names: seq<string>)
    ensures (forall i, j :: 0 <= i < j < |names| ==> EmittedName(names, i) != EmittedName(names, j))
            <==> forall i, j :: 0 <= i < |names| && 0 <= j < |names| ==> !Imposter(names, i, j)
  {
    hide Count, OrdinalName;
    if forall i, j :: 0 <= i < |names| && 0 <= j < |names| ==> !Imposter(names, i, j) {
      forall i, j | 0 <= i < j < |names|
        ensures EmittedName(names, i) != EmittedName(names, j)
      {
        assert !Imposter(names, i, j) && !Imposter(names, j, i);
        if EmittedName(names, i) == EmittedName(names, j) {
          SameEmitted(names, i, j);
        }
      }
    }
    if i, j :| 0 <= i < |names| && 0 <= j < |names| && Imposter(names, i, j) {
      if i < j {
        assert EmittedName(names, i) == EmittedName(names, j);
      } else {
        assert i != j;
        assert EmittedName(names, j) == EmittedName(names, i);
      }
    }
  }

  lemma SameEmitted(names: seq<string>, i: nat, j: nat)
    requires i < j < |names| && EmittedName(names, i) == EmittedName(names, j)
    ensures Imposter(names, i, j) || Imposter(names, j, i)
  {
    hide Count, OrdinalName;
    if names[i] == names[j] {
      OrdinalsInOrder(names, i, j);
    }
    if Count(names, names[i]) != 1 && Count(names, names[j]) != 1 {
      OrdinalNameInjective(names[i], Count(names[..i + 1], names[i]), names[j], Count(names[..j + 1], names[j]));
    }
  }

  /** An ordinal anchor reads back as its name and its place in source order. */
  lemma OrdinalAnchorParses(names: seq<string>, i: nat)
    requires i < |names| && names[i] != "" && Count(names, names[i]) != 1 && |names| <= MAX_INT
    ensures ParseOrdinal(EmittedName(names, i)) == Some((names[i], Count(names[..i + 1], names[i])))
  {
    OrdinalInRange(names, i);
    CountAtMost(names, names[i]);
    ParseOrdinalInverts(names[i], Count(names[..i + 1], names[i]));
  }

  lemma {:induction false} CountAtMost(names: seq<string>, name: string)
    ensures Count(names, name) <= |names|
  {
    if names != [] {
      CountAtMost(names[..|names| - 1], name);
    }
  }

  // ----- the index -----

  /** Both lookups, by position in source order. */
  datatype Index = Index(emitted: seq<string>, byQualified: map<string, nat>, byBare: map<string, seq<nat>>, allowRawHeading: bool)

  predicate Carries(d: Decl, key: string) {
    d.bare == key || ContainerQualified(d) == key
  }

  /** The declarations carrying a name, in source order. */
  function Carriers(decls: seq<Decl>, key: string): seq<nat> {
    if decls == [] then []
    else Carriers(decls[..|decls| - 1], key) + if Carries(decls[|decls| - 1], key) then [|decls| - 1] else []
  }

  lemma {:induction false} CarriersAre(decls: seq<Decl>, key: string)
    ensures forall i: nat :: i in Carriers(decls, key) <==> i < |decls| && Carries(decls[i], key)
    ensures forall a, b :: 0 <= a < b < |Carriers(decls, key)| ==> Carriers(decls, key)[a] < Carriers(decls, key)[b]
  {
    if decls != [] {
      CarriersAre(decls[..|decls| - 1], key);
      var c := Carriers(decls[..|decls| - 1], key);
      assert forall a :: 0 <= a < |c| ==> c[a] in c;
    }
  }

  ghost predicate IndexOf(idx: Index, decls: seq<Decl>) {
    && idx.emitted == Emitted(NamesOf(decls))
    && (forall q <- idx.byQualified :: idx.byQualified[q] < |decls| && idx.emitted[idx.byQualified[q]] == q)
    && (forall i :: 0 <= i < |decls| ==> idx.emitted[i] in idx.byQualified && i <= idx.byQualified[idx.emitted[i]])
    && (forall key :: key in idx.byBare <==> Carriers(decls, key) != [])
    && (forall key <- idx.byBare :: idx.byBare[key] == Carriers(decls, key))
  }

  lemma CarriersNext(decls: seq<Decl>, i: nat, key: string)
    requires i < |decls|
    ensures Carriers(decls[..i + 1], key) == Carriers(decls[..i], key) + if Carries(decls[i], key) then [i] else []
  {
    assert decls[..i + 1][..i] == decls[..i];
  }

  lemma CarriersEmpty()
    ensures forall key :: Carriers([], key) == []
  {
  }

  function Group(byBare: map<string, seq<nat>>, key: string): seq<nat> {
    if key in byBare then byBare[key] else []
  }

  method BuildBare(decls: seq<Decl>) returns (byBare: map<string, seq<nat>>)
    ensures forall key :: key in byBare <==> Carriers(decls, key) != []
    ensures forall key <- byBare :: byBare[key] == Carriers(decls, key)
  {
    hide Carriers, ContainerQualified;
    byBare := map[];
    CarriersEmpty();
    assert decls[..0] == [];
    for i := 0 to |decls|
      invariant forall key :: Group(byBare, key) == Carriers(decls[..i], key)
      invariant forall key <- byBare :: byBare[key] != []
    {
      forall key {
        CarriersNext(decls, i, key);
      }
      var d := decls[i];
      ghost var before := byBare;
      byBare := byBare[d.bare := Group(byBare, d.bare) + [i]];
      var cq := ContainerQualified(d);
      if cq != d.bare {
        byBare := byBare[cq := Group(byBare, cq) + [i]];
      }
      forall key
        ensures Group(byBare, key) == Carriers(decls[..i + 1], key)
      {
        assert Group(before, key) == Carriers(decls[..i], key);
      }
    }
    assert decls[..|decls|] == decls;
    forall key
      ensures Group(byBare, key) == Carriers(decls, key)
    {
    }
  }

  method BuildIndex(decls: seq<Decl>, allowRawHeading: bool) returns (idx: Index)
    ensures IndexOf(idx, decls) && idx.allowRawHeading == allowRawHeading
  {
    hide Carriers, Count, EmittedName;
    var emitted := Emitted(NamesOf(decls));
    var byQualified: map<string, nat> := map[];
    for i := 0 to |decls|
      invariant forall q <- byQualified :: byQualified[q] < i && emitted[byQualified[q]] == q
      invariant forall k :: 0 <= k < i ==> emitted[k] in byQualified && k <= byQualified[emitted[k]]
    {
      byQualified := byQualified[emitted[i] := i];
    }
    var byBare := BuildBare(decls);
    idx := Index(emitted, byQualified, byBare, allowRawHeading);
  }

  // ----- resolution -----

  predicate IsWhite(c: char) {
    || c in " \t\n\r" || c == 11 as char || c == 12 as char || c == 0x85 as char || c == 0xA0 as char
    || c == 0x1680 as char || 0x2000 as char <= c <= 0x200A as char
    || c == 0x2028 as char || c == 0x2029 as char || c == 0x202F as char || c == 0x205F as char || c == 0x3000 as char
  }

  function TrimSpace(s: string): string {
    if s != [] && IsWhite(s[0]) then TrimSpace(s[1..])
    else if s != [] && IsWhite(s[|s| - 1]) then TrimSpace(s[..|s| - 1])
    else s
  }

  function FirstIndexOf(s: string, c: char): (i: nat)
    ensures i <= |s| && (i < |s| ==> s[i] == c)
  {
    if s == [] || s[0] == c then 0 else 1 + FirstIndexOf(s[1..], c)
  }

  /** Rewrites the receiver spelling `(*A).Get` to `A.Get`. */
  function Normalize(anchor: string): string {
    if anchor == [] || anchor[0] != '(' then anchor
    else
      var close := FirstIndexOf(anchor, ')');
      if close == |anchor| || close == 0 then anchor
      else
        var recv := TrimSpace(anchor[1..close]);
        (if recv != [] && recv[0] == '*' then recv[1..] else recv) + anchor[close + 1..]
  }

  /** A heading's raw text, tried as its slug. */
  function RawHeadingFallback(lower: char -> char, anchor: string): Option<string> {
    var slug := Slug(lower, anchor);
    if slug == "" || slug == anchor then None else Some(slug)
  }

  /** What an anchor resolves to; `Region` stands for what a pseudo-anchor answers. */
  datatype Resolved = Symbol_(i: nat) | Region(anchor: string) | AmbiguousAmong(candidates: seq<string>) | NotFound

  predicate AllBelow(group: seq<nat>, n: nat) {
    forall k :: 0 <= k < |group| ==> group[k] < n
  }

  function NamesAt(emitted: seq<string>, group: seq<nat>): seq<string>
    requires AllBelow(group, |emitted|)
  {
    seq(|group|, k requires 0 <= k < |group| => emitted[group[k]])
  }

  // ----- the listing is sorted -----

  predicate NoLater(a: string, b: string) {
    if a == "" then true
    else if b == "" then false
    else a[0] < b[0] || (a[0] == b[0] && NoLater(a[1..], b[1..]))
  }

  lemma {:induction false} Ordered(a: string, b: string, c: string)
    ensures NoLater(a, b) || NoLater(b, a)
    ensures NoLater(a, b) && NoLater(b, c) ==> NoLater(a, c)
    ensures NoLater(a, b) && NoLater(b, a) ==> a == b
  {
    if a != "" && b != "" {
      Ordered(a[1..], b[1..], if c == "" then "" else c[1..]);
      assert a == [a[0]] + a[1..] && b == [b[0]] + b[1..];
    } else if a != "" || b != "" {
      assert NoLater(a, b) || NoLater(b, a);
    }
  }

  function Placed(name: string, names: seq<string>): seq<string> {
    if names == [] || NoLater(name, names[0]) then [name] + names else [names[0]] + Placed(name, names[1..])
  }

  /** `slices.Sort` of strings. */
  function SortNames(names: seq<string>): seq<string> {
    if names == [] then [] else Placed(names[0], SortNames(names[1..]))
  }

  predicate InNameOrder(names: seq<string>) {
    forall i :: 0 < i < |names| ==> NoLater(names[i - 1], names[i])
  }

  lemma {:induction false} PlacedInOrder(name: string, names: seq<string>)
    requires InNameOrder(names)
    ensures InNameOrder(Placed(name, names)) && Placed(name, names) != []
    ensures Placed(name, names)[0] == name || (names != [] && Placed(name, names)[0] == names[0])
  {
    hide NoLater;
    if names == [] || NoLater(name, names[0]) {
      OneAhead(name, names);
    } else {
      var rest := names[1..];
      assert forall i :: 0 < i < |rest| ==> rest[i - 1] == names[i] && rest[i] == names[i + 1];
      PlacedInOrder(name, rest);
      Ordered(name, names[0], "");
      assert rest != [] ==> NoLater(names[0], names[1]);
      OneAhead(names[0], Placed(name, rest));
    }
  }

  lemma OneAhead(name: string, names: seq<string>)
    requires InNameOrder(names) && (names != [] ==> NoLater(name, names[0]))
    ensures InNameOrder([name] + names)
  {
    hide NoLater;
    var all := [name] + names;
    assert forall k :: 0 <= k < |names| ==> all[k + 1] == names[k];
    forall i | 0 < i < |all|
      ensures NoLater(all[i - 1], all[i])
    {
      if i > 1 {
        assert all[i] == names[i - 1] && all[i - 1] == names[i - 2];
      }
    }
  }

  lemma {:induction false} PlacedPermutes(name: string, names: seq<string>)
    ensures multiset(Placed(name, names)) == multiset(names) + multiset{name}
  {
    hide NoLater;
    if names != [] && !NoLater(name, names[0]) {
      PlacedPermutes(name, names[1..]);
      assert names == [names[0]] + names[1..];
    }
  }

  /** The listing is sorted, and nothing but reordered. */
  lemma {:induction false} SortNamesSorts(names: seq<string>)
    ensures InNameOrder(SortNames(names)) && multiset(SortNames(names)) == multiset(names)
  {
    if names != [] {
      SortNamesSorts(names[1..]);
      PlacedInOrder(names[0], SortNames(names[1..]));
      PlacedPermutes(names[0], SortNames(names[1..]));
      assert names == [names[0]] + names[1..];
    }
  }

  ghost predicate Sane(idx: Index) {
    && (forall q <- idx.byQualified :: idx.byQualified[q] < |idx.emitted|)
    && forall key <- idx.byBare :: AllBelow(idx.byBare[key], |idx.emitted|)
  }

  /** A retry is tried on a slug, and a slug is never retried. */
  lemma RetriedOnce(lower: char -> char, anchor: string)
    requires FixesSlugs(lower) && RawHeadingFallback(lower, anchor).Some?
    ensures
      var slug := RawHeadingFallback(lower, anchor).value;
      Normalize(slug) == slug && RawHeadingFallback(lower, slug).None?
  {
    SlugFixedIff(lower, anchor);
  }

  ghost function Resolve(idx: Index, lower: char -> char, anchor: string): Resolved
    requires FixesSlugs(lower) && Sane(idx)
    decreases if RawHeadingFallback(lower, Normalize(anchor)).Some? then 1 else 0
  {
    var a := Normalize(anchor);
    if a in idx.byQualified then Symbol_(idx.byQualified[a])
    else if a in idx.byBare then
      if |idx.byBare[a]| == 1 then Symbol_(idx.byBare[a][0]) else AmbiguousAmong(SortNames(NamesAt(idx.emitted, idx.byBare[a])))
    else if idx.allowRawHeading && RawHeadingFallback(lower, a).Some? then
      RetriedOnce(lower, a);
      Resolve(idx, lower, RawHeadingFallback(lower, a).value)
    else NotFound
  }

  lemma CarriersBelow(decls: seq<Decl>, key: string)
    ensures AllBelow(Carriers(decls, key), |decls|)
  {
    CarriersAre(decls, key);
    var c := Carriers(decls, key);
    assert forall k :: 0 <= k < |c| ==> c[k] in c;
  }

  lemma IndexIsSane(idx: Index, decls: seq<Decl>)
    requires IndexOf(idx, decls)
    ensures Sane(idx)
  {
    forall key | key in idx.byBare
      ensures AllBelow(idx.byBare[key], |idx.emitted|)
    {
      CarriersBelow(decls, key);
    }
  }

  /** A pseudo-anchor is answered from the file's regions, before the index is asked. */
  predicate IsPseudo(anchor: string) {
    anchor in ["@header", "@imports", "@toplevel"]
  }

  ghost function ResolveAnchor(idx: Index, lower: char -> char, anchor: string): Resolved
    requires FixesSlugs(lower) && Sane(idx)
  {
    if IsPseudo(anchor) then Region(anchor) else Resolve(idx, lower, anchor)
  }

  /** Looked up as it stands, `key` leads to symbol `i`: the last one emitted under it, or
      when none is, the one symbol carrying it. */
  ghost predicate LeadsTo(idx: Index, decls: seq<Decl>, key: string, i: nat) {
    if key in idx.emitted then
      i < |idx.emitted| && idx.emitted[i] == key && forall j :: i < j < |idx.emitted| ==> idx.emitted[j] != key
    else Carriers(decls, key) == [i]
  }

  lemma LooksUp(idx: Index, decls: seq<Decl>, key: string)
    requires IndexOf(idx, decls)
    ensures Sane(idx) && (key in idx.emitted <==> key in idx.byQualified)
    ensures key in idx.byQualified ==> forall i: nat :: LeadsTo(idx, decls, key, i) <==> idx.byQualified[key] == i
    ensures key !in idx.byQualified && key in idx.byBare ==>
              forall i: nat :: LeadsTo(idx, decls, key, i) <==> |idx.byBare[key]| == 1 && idx.byBare[key][0] == i
    ensures key !in idx.byQualified && key !in idx.byBare ==> forall i: nat :: !LeadsTo(idx, decls, key, i)
    ensures key in idx.byBare <==> Carriers(decls, key) != []
  {
    hide Carriers, Count, EmittedName;
    IndexIsSane(idx, decls);
    if key in idx.byQualified {
      var w := idx.byQualified[key];
      assert idx.emitted[w] == key;
    }
    if key in idx.emitted {
      var k :| 0 <= k < |idx.emitted| && idx.emitted[k] == key;
      assert idx.emitted[k] in idx.byQualified;
    }
  }

  /** Without a retry an anchor leads where its rewritten spelling does. */
  lemma DirectlyLeads(idx: Index, decls: seq<Decl>, lower: char -> char, anchor: string, i: nat)
    requires IndexOf(idx, decls) && FixesSlugs(lower)
    ensures Sane(idx)
    ensures
      var a := Normalize(anchor);
      a in idx.emitted || Carriers(decls, a) != [] || !idx.allowRawHeading || RawHeadingFallback(lower, a).None? ==>
        (Resolve(idx, lower, anchor) == Symbol_(i) <==> LeadsTo(idx, decls, a, i))
  {
    hide LeadsTo, Normalize, RawHeadingFallback, IndexOf, Carriers, FixesSlugs;
    var a := Normalize(anchor);
    LooksUp(idx, decls, a);
    if a in idx.byQualified {
      assert LeadsTo(idx, decls, a, i) <==> idx.byQualified[a] == i;
    } else if a in idx.byBare {
      assert LeadsTo(idx, decls, a, i) <==> |idx.byBare[a]| == 1 && idx.byBare[a][0] == i;
    } else {
      assert !LeadsTo(idx, decls, a, i);
    }
  }

  /** What any anchor resolves to, for every spelling of it. */
  lemma ResolvesToIff(idx: Index, decls: seq<Decl>, lower: char -> char, anchor: string, i: nat)
    requires IndexOf(idx, decls) && FixesSlugs(lower)
    ensures Sane(idx)
    ensures
      var a := Normalize(anchor);
      ResolveAnchor(idx, lower, anchor) == Symbol_(i) <==>
        && !IsPseudo(anchor)
        && (|| LeadsTo(idx, decls, a, i)
            || (&& a !in idx.emitted && Carriers(decls, a) == [] && idx.allowRawHeading
                && RawHeadingFallback(lower, a).Some? && LeadsTo(idx, decls, RawHeadingFallback(lower, a).value, i)))
  {
    hide LeadsTo, Normalize, RawHeadingFallback, IndexOf, Carriers, FixesSlugs;
    var a := Normalize(anchor);
    LooksUp(idx, decls, a);
    DirectlyLeads(idx, decls, lower, anchor, i);
    if a !in idx.byQualified && a !in idx.byBare {
      assert !LeadsTo(idx, decls, a, i);
      if idx.allowRawHeading && RawHeadingFallback(lower, a).Some? {
        var slug := RawHeadingFallback(lower, a).value;
        RetriedOnce(lower, a);
        assert Resolve(idx, lower, anchor) == Resolve(idx, lower, slug);
        DirectlyLeads(idx, decls, lower, slug, i);
      }
    }
  }

  // ----- the spellings an anchor may have -----

  ghost predicate White(s: string) {
    forall c <- s :: IsWhite(c)
  }

  lemma {:induction false} FirstAt(s: string, c: char, rest: string)
    requires c !in s
    ensures FirstIndexOf(s + [c] + rest, c) == |s|
  {
    if s == "" {
      assert (s + [c] + rest)[0] == c;
    } else {
      assert (s + [c] + rest)[1..] == s[1..] + [c] + rest;
      FirstAt(s[1..], c, rest);
    }
  }

  lemma {:induction false} NoneAt(s: string, c: char)
    requires c !in s
    ensures FirstIndexOf(s, c) == |s|
  {
    if s != "" {
      NoneAt(s[1..], c);
    }
  }

  lemma {:induction false} Trims(before: string, s: string, after: string)
    requires White(before) && White(after) && (s == "" || (!IsWhite(s[0]) && !IsWhite(s[|s| - 1])))
    ensures TrimSpace(before + s + after) == s
    decreases |before| + |after|
  {
    hide IsWhite;
    var all := before + s + after;
    if before != "" {
      assert before[0] in before && all[0] == before[0];
      assert all[1..] == before[1..] + s + after;
      Trims(before[1..], s, after);
    } else if after != "" {
      var rest := after[..|after| - 1];
      assert after[|after| - 1] in after && after[0] in after;
      if s == "" {
        assert all[0] == after[0] && all[1..] == "" + s + after[1..];
        Trims("", s, after[1..]);
      } else {
        assert all[0] == s[0] && all[..|all| - 1] == before + s + rest;
        Trims(before, s, rest);
      }
    } else {
      assert all == s;
    }
  }

  /** A receiver in parentheses, with or without its star and blanks around it, spells the
      name that rgit emits; every other anchor is looked up as it stands. */
  lemma ReceiverSpelling(before: string, star: bool, recv: string, after: string, rest: string)
    requires White(before) && White(after) && ')' !in before + recv + after
    requires recv == "" || (!IsWhite(recv[|recv| - 1]) && (star || (!IsWhite(recv[0]) && recv[0] != '*')))
    ensures Normalize("(" + before + (if star then "*" else "") + recv + after + ")" + rest) == recv + rest
  {
    hide IsWhite, TrimSpace, Normalize;
    var inner := (if star then "*" else "") + recv;
    var body := before + inner + after;
    assert "(" + before + (if star then "*" else "") + recv + after + ")" + rest == "(" + body + ")" + rest;
    StarIsNotWhite();
    Trims(before, inner, after);
    InParentheses(body, rest);
    assert star ==> inner[1..] == recv;
  }

  /** What stands in the first parentheses is trimmed, and loses one star. */
  lemma InParentheses(body: string, rest: string)
    requires ')' !in body
    ensures
      var recv := TrimSpace(body);
      Normalize("(" + body + ")" + rest) == (if recv != "" && recv[0] == '*' then recv[1..] else recv) + rest
  {
    hide IsWhite, TrimSpace;
    var anchor := ("(" + body) + [')'] + rest;
    FirstAt("(" + body, ')', rest);
    assert anchor == "(" + body + ")" + rest;
    assert anchor[1..|body| + 1] == body && anchor[|body| + 2..] == rest;
  }

  lemma StarIsNotWhite()
    ensures !IsWhite('*')
  {
  }

  lemma OtherSpelling(anchor: string)
    requires anchor == "" || anchor[0] != '(' || ')' !in anchor
    ensures Normalize(anchor) == anchor
  {
    if ')' !in anchor {
      NoneAt(anchor, ')');
    }
  }

  lemma ReceiverNormal(star: bool, recv: string, rest: string)
    requires recv != "" && ')' !in recv && recv[0] != '*' && !IsWhite(recv[0]) && !IsWhite(recv[|recv| - 1])
    ensures Normalize("(" + ((if star then "*" else "") + recv) + ")" + rest) == recv + rest
  {
    hide IsWhite, TrimSpace, Normalize;
    var body := (if star then "*" else "") + recv;
    StarIsNotWhite();
    Trims("", body, "");
    assert "" + body + "" == body;
    InParentheses(body, rest);
    assert star ==> body[1..] == recv;
  }

  /** So `(*A).Get` and `(A).Get` resolve as `A.Get` does. */
  lemma ReceiverResolvesAlike(idx: Index, decls: seq<Decl>, lower: char -> char, star: bool, recv: string, rest: string)
    requires IndexOf(idx, decls) && FixesSlugs(lower)
    requires recv != "" && ')' !in recv && recv[0] !in "(*" && !IsWhite(recv[0]) && !IsWhite(recv[|recv| - 1])
    ensures Sane(idx)
    ensures Resolve(idx, lower, "(" + ((if star then "*" else "") + recv) + ")" + rest) == Resolve(idx, lower, recv + rest)
  {
    hide Normalize, RawHeadingFallback, FixesSlugs, Resolve, IsWhite;
    IndexIsSane(idx, decls);
    NotMarked(recv);
    ReceiverNormal(star, recv, rest);
    assert (recv + rest)[0] == recv[0];
    OtherSpelling(recv + rest);
    OneLookup(idx, lower, "(" + ((if star then "*" else "") + recv) + ")" + rest, recv + rest);
  }

  lemma NotMarked(recv: string)
    requires recv != "" && recv[0] !in "(*"
    ensures recv[0] != '(' && recv[0] != '*'
  {
    assert "(*"[0] == '(' && "(*"[1] == '*';
  }

  lemma OneLookup(idx: Index, lower: char -> char, a: string, b: string)
    requires FixesSlugs(lower) && Sane(idx) && Normalize(a) == Normalize(b)
    ensures Resolve(idx, lower, a) == Resolve(idx, lower, b)
  {
    hide Normalize, RawHeadingFallback, FixesSlugs;
  }

  /** In a language of headings, text that names nothing as it stands reaches the symbol its
      slug does: the words of the heading, lower-cased and hyphened. */
  lemma RawHeadingResolves(idx: Index, decls: seq<Decl>, lower: char -> char, before: string, words: seq<string>,
                           partings: seq<string>, i: nat)
    requires IndexOf(idx, decls) && FixesSlugs(lower) && idx.allowRawHeading && words != []
    requires |words| == |partings| && forall i :: 0 <= i < |words| ==> Word(lower, words[i])
    requires forall i :: 0 <= i < |words| - 1 ==> Parting(lower, partings[i])
    requires forall i, c :: 0 <= i < |words| && c in partings[i] ==> !Alphanumeric(lower, c)
    requires forall c <- before :: !Alphanumeric(lower, c)
    requires
      var text := before + Spelled(words, partings);
      && text != "" && text[0] !in "(@" && text !in idx.emitted && Carriers(decls, text) == [] && text != Hyphened(lower, words)
    requires LeadsTo(idx, decls, Hyphened(lower, words), i)
    ensures Sane(idx) && ResolveAnchor(idx, lower, before + Spelled(words, partings)) == Symbol_(i)
  {
    var text, slug := before + Spelled(words, partings), Hyphened(lower, words);
    SlugOfWords(lower, before, words, partings);
    assert slug != "" by {
      assert Word(lower, words[0]);
      assert Lowered(lower, words[0]) != "";
    }
    hide LeadsTo, Normalize, Carriers, FixesSlugs, Slug, Word, Parting, Resolve;
    OtherSpelling(text);
    PseudosAreMarked(text);
    ResolvesToIff(idx, decls, lower, text, i);
  }

  /** A member alone of its name is reached as `Container.Bare`, a dot being the separator
      unless the declaration has one of its own. */
  lemma MemberResolves(idx: Index, decls: seq<Decl>, lower: char -> char, i: nat)
    requires IndexOf(idx, decls) && FixesSlugs(lower) && i < |decls| && decls[i].container != "" && decls[i].sep == ""
    requires decls[i].container[0] !in "(@" && Count(NamesOf(decls), NamesOf(decls)[i]) == 1
    requires forall j, k :: 0 <= j < |decls| && 0 <= k < |decls| ==> !Imposter(NamesOf(decls), j, k)
    ensures Sane(idx) && ResolveAnchor(idx, lower, decls[i].container + "." + decls[i].bare) == Symbol_(i)
  {
    hide Count, Resolve, Normalize, Carriers, RawHeadingFallback, FixesSlugs;
    var name := decls[i].container + "." + decls[i].bare;
    assert NamesOf(decls)[i] == name && name[0] == decls[i].container[0];
    NamedResolves(idx, decls, lower, i, name);
  }

  /** The `k`th of several symbols of one name is reached as `Name#k`. */
  lemma NthResolves(idx: Index, decls: seq<Decl>, lower: char -> char, i: nat)
    requires IndexOf(idx, decls) && FixesSlugs(lower) && i < |decls|
    requires NamesOf(decls)[i] != "" && NamesOf(decls)[i][0] !in "(@" && Count(NamesOf(decls), NamesOf(decls)[i]) > 1
    requires forall j, k :: 0 <= j < |decls| && 0 <= k < |decls| ==> !Imposter(NamesOf(decls), j, k)
    ensures Sane(idx)
    ensures ResolveAnchor(idx, lower, NamesOf(decls)[i] + "#" + Itoa(Count(NamesOf(decls)[..i + 1], NamesOf(decls)[i])))
            == Symbol_(i)
  {
    hide Count, Resolve, Normalize, Carriers, RawHeadingFallback, FixesSlugs, Itoa;
    var name := NamesOf(decls)[i];
    var e := name + "#" + Itoa(Count(NamesOf(decls)[..i + 1], name));
    assert e[0] == name[0];
    NamedResolves(idx, decls, lower, i, e);
  }

  lemma NamedResolves(idx: Index, decls: seq<Decl>, lower: char -> char, i: nat, e: string)
    requires IndexOf(idx, decls) && FixesSlugs(lower) && i < |decls| && e == EmittedName(NamesOf(decls), i)
    requires e != "" && e[0] !in "(@"
    requires forall j, k :: 0 <= j < |decls| && 0 <= k < |decls| ==> !Imposter(NamesOf(decls), j, k)
    ensures Sane(idx) && ResolveAnchor(idx, lower, e) == Symbol_(i)
  {
    hide Count, Resolve, EmittedName, Normalize, Carriers, RawHeadingFallback, FixesSlugs;
    var names := NamesOf(decls);
    EmittedUniqueIff(names);
    assert idx.emitted[i] == e;
    forall j | i < j < |decls|
      ensures idx.emitted[j] != e
    {
      assert idx.emitted[j] == EmittedName(names, j);
    }
    OtherSpelling(e);
    ResolvesToIff(idx, decls, lower, e, i);
    assert LeadsTo(idx, decls, e, i);
    PseudosAreMarked(e);
  }

  lemma PseudosAreMarked(anchor: string)
    requires anchor == "" || anchor[0] != '@'
    ensures !IsPseudo(anchor)
  {
    assert "@header"[0] == '@' && "@imports"[0] == '@' && "@toplevel"[0] == '@';
  }

  /** An emitted name resolves to its own symbol exactly when it is no pseudo-anchor, and
      either it is spelled as anchors are looked up and no later symbol is emitted under
      it, or its rewritten spelling leads to that symbol. */
  lemma EmittedResolvesToItselfIff(idx: Index, decls: seq<Decl>, lower: char -> char, i: nat)
    requires IndexOf(idx, decls) && FixesSlugs(lower) && i < |decls|
    ensures Sane(idx)
    ensures
      var e, a := idx.emitted[i], Normalize(idx.emitted[i]);
      ResolveAnchor(idx, lower, e) == Symbol_(i) <==>
        && !IsPseudo(e)
        && if a == e then forall j :: i < j < |decls| ==> idx.emitted[j] != e
           else && a !in idx.emitted
                && (|| Carriers(decls, a) == [i]
                    || (&& Carriers(decls, a) == [] && idx.allowRawHeading
                        && RawHeadingFallback(lower, a).Some? && LeadsTo(idx, decls, RawHeadingFallback(lower, a).value, i)))
  {
    hide Normalize, RawHeadingFallback, Carriers, Resolve, FixesSlugs, EmittedName;
    ResolvesToIff(idx, decls, lower, idx.emitted[i], i);
  }

  /** With no imposter and no raw-heading retry, an emitted name resolves to its own symbol
      exactly when it is no pseudo-anchor and is spelled as anchors are looked up, or else
      its rewritten spelling is nobody's emitted name and its own alone to carry. */
  lemma EmittedResolvesIff(idx: Index, decls: seq<Decl>, lower: char -> char, i: nat)
    requires IndexOf(idx, decls) && FixesSlugs(lower) && i < |decls| && !idx.allowRawHeading
    requires forall j, k :: 0 <= j < |decls| && 0 <= k < |decls| ==> !Imposter(NamesOf(decls), j, k)
    ensures Sane(idx)
    ensures
      var e, a := idx.emitted[i], Normalize(idx.emitted[i]);
      ResolveAnchor(idx, lower, e) == Symbol_(i) <==>
        !IsPseudo(e) && (a == e || (a !in idx.emitted && Carriers(decls, a) == [i]))
  {
    hide Count, Resolve, EmittedName, Normalize, Carriers, RawHeadingFallback, FixesSlugs;
    var names := NamesOf(decls);
    EmittedUniqueIff(names);
    forall j | i < j < |decls|
      ensures idx.emitted[j] != idx.emitted[i]
    {
      assert idx.emitted[j] == EmittedName(names, j) && idx.emitted[i] == EmittedName(names, i);
    }
    EmittedResolvesToItselfIff(idx, decls, lower, i);
  }

  /** A JSON key that starts with a parenthesis is emitted as it is and then not found. */
  lemma ParenthesisedKeyIsLost(idx: Index, lower: char -> char)
    requires IndexOf(idx, [Decl("(a)b", "", "")]) && FixesSlugs(lower) && !idx.allowRawHeading
    ensures Sane(idx) && |idx.emitted| == 1 && idx.emitted[0] == "(a)b"
    ensures ResolveAnchor(idx, lower, "(a)b") == NotFound
  {
    var decls := [Decl("(a)b", "", "")];
    hide Normalize, Carriers, Count, EmittedName, RawHeadingFallback, FixesSlugs;
    assert NamesOf(decls) == ["(a)b"];
    LoneNameEmitted("(a)b");
    ParenthesisDropped();
    assert |"ab"| == 2 && |"(a)b"| == 4;
    NotCarried(decls[0], "ab");
    LooksUp(idx, decls, "ab");
  }

  lemma LoneNameEmitted(name: string)
    ensures EmittedName([name], 0) == name
  {
    var names := [name];
    assert names[..0] == [] && names[..1] == names;
    CountEmpty();
    CountNext(names, 0, name);
  }

  lemma NotCarried(d: Decl, key: string)
    requires !Carries(d, key)
    ensures Carriers([d], key) == []
  {
    assert [d][..0] == [];
  }

  lemma ParenthesisDropped()
    ensures Normalize("(a)b") == "ab"
  {
    assert "(a)b"[1..] == "a)b" && "a)b"[1..] == ")b";
    assert FirstIndexOf(")b", ')') == 0 && FirstIndexOf("a)b", ')') == 1 && FirstIndexOf("(a)b", ')') == 2;
    assert "(a)b"[1..2] == "a" && "(a)b"[3..] == "b" && TrimSpace("a") == "a";
  }

  /** A name somebody carries resolves exactly when it is itself an emitted name or one
      symbol alone carries it; otherwise the answer lists the emitted names of all its
      carriers, sorted. */
  lemma CarriedNameResolvesIff(idx: Index, decls: seq<Decl>, lower: char -> char, anchor: string)
    requires IndexOf(idx, decls) && FixesSlugs(lower) && !IsPseudo(anchor)
    requires exists i :: 0 <= i < |decls| && Carries(decls[i], Normalize(anchor))
    ensures
      var name := Normalize(anchor);
      && Sane(idx) && AllBelow(Carriers(decls, name), |idx.emitted|)
      && var r := ResolveAnchor(idx, lower, anchor);
      && (r.Symbol_? <==> name in idx.emitted || |Carriers(decls, name)| == 1)
      && (r.Symbol_? ==> r.i < |decls| && (idx.emitted[r.i] == name || Carries(decls[r.i], name)))
      && (!r.Symbol_? ==> r == AmbiguousAmong(SortNames(NamesAt(idx.emitted, Carriers(decls, name)))))
  {
    hide NamesAt, SortNames, Normalize, RawHeadingFallback;
    var name := Normalize(anchor);
    IndexIsSane(idx, decls);
    CarriersBelow(decls, name);
    CarriersAre(decls, name);
    var i :| 0 <= i < |decls| && Carries(decls[i], name);
    assert i in Carriers(decls, name);
    assert Carriers(decls, name)[0] in Carriers(decls, name);
    if name in idx.emitted {
      var k :| 0 <= k < |idx.emitted| && idx.emitted[k] == name;
      assert idx.emitted[k] in idx.byQualified;
    }
  }

  /** The ambiguity listing has one entry for each carrier, its emitted name, in order. */
  lemma ListingIsComplete(emitted: seq<string>, group: seq<nat>)
    requires AllBelow(group, |emitted|)
    ensures
      var listing := SortNames(NamesAt(emitted, group));
      && InNameOrder(listing) && |listing| == |group| && multiset(listing) == multiset(NamesAt(emitted, group))
      && forall i <- group :: emitted[i] in listing
  {
    var names := NamesAt(emitted, group);
    SortNamesSorts(names);
    var listing := SortNames(names);
    assert |multiset(listing)| == |listing| && |multiset(names)| == |names|;
    forall i | i in group
      ensures emitted[i] in listing
    {
      var k :| 0 <= k < |group| && group[k] == i;
      assert names[k] in multiset(names);
      assert emitted[i] in multiset(listing);
    }
  }

  /** A free function and a method of one bare name: the bare name resolves to the
      function, although two symbols carry it, because it is the function's own
      emitted name. */
  lemma SharedBareNameStillResolves(idx: Index, lower: char -> char)
    requires IndexOf(idx, [Decl("Get", "", ""), Decl("Get", "A", "")]) && FixesSlugs(lower)
    ensures Sane(idx) && Carriers([Decl("Get", "", ""), Decl("Get", "A", "")], "Get") == [0, 1]
    ensures Resolve(idx, lower, "Get") == Symbol_(0)
  {
    var decls := [Decl("Get", "", ""), Decl("Get", "A", "")];
    IndexIsSane(idx, decls);
    hide Carriers, Count, EmittedName, Normalize, FixesSlugs, RawHeadingFallback;
    BothCarry(decls[0], decls[1], "Get");
    PlainIsNormal(lower);
    assert "A" + "." + "Get" == "A.Get";
    assert NamesOf(decls) == ["Get", "A.Get"];
    TwoNamesEmitted("Get", "A.Get");
    assert idx.emitted[0] == "Get" && idx.emitted[1] == "A.Get";
    assert |"Get"| == 3 && |"A.Get"| == 5;
  }

  lemma BothCarry(a: Decl, b: Decl, key: string)
    requires a.bare == key && b.bare == key
    ensures Carriers([a, b], key) == [0, 1]
  {
    assert [a, b][..1] == [a] && [a][..0] == [];
    assert Carriers([a], key) == [0];
  }

  lemma PlainIsNormal(lower: char -> char)
    ensures Normalize("Get") == "Get"
  {
    assert "Get"[0] == 'G' && "Get"[2] == 't';
  }

  lemma TwoNamesEmitted(a: string, b: string)
    requires a != b
    ensures EmittedName([a, b], 0) == a && EmittedName([a, b], 1) == b
  {
    assert [a, b][..1] == [a] && [a][..0] == [];
    assert Count([a], a) == 1 && Count([a], b) == 0;
  }
}
