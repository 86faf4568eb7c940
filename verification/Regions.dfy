/** The regions a file's changes are attributed to, from its syntax tree. */
module Regions {
  import opened Seqs
  import opened Bytes
  import opened Placement
  import opened Extents
  import opened Attribution

  // ----- the regions of one tree nest -----

  /** One region a declaration, under its emitted name, in source order. */
  function DeclRegions(lang: Language, src: Text, n: Node, paths: seq<seq<nat>>, names: seq<string>): seq<Region>
    requires WellFormed(n) && n.end <= |src| && |paths| == |names|
    requires forall k :: 0 <= k < |paths| ==> InTree(n, paths[k])
  {
    seq(|paths|, k requires 0 <= k < |paths| => Region(names[k], ExtentAt(lang, src, n, paths[k])))
  }

  function Pseudo(name: string, ext: Option<Extent>): seq<Region> {
    if ext.Some? then [Region(name, ext.value)] else []
  }

  function ExtentsOf(regions: seq<Region>): seq<Extent> {
    seq(|regions|, k requires 0 <= k < |regions| => regions[k].ext)
  }

  /** The declarations, then `@header` and `@imports` where the file has them. */
  function AllRegions(lang: Language, src: Text, n: Node, decls: seq<Region>): seq<Region>
    requires SideBySide(n.children, 0, |src|)
  {
    decls
    + Pseudo("@header", ResolveHeader(lang, src, n.children, ExtentsOf(decls)))
    + Pseudo("@imports", Imports(lang, n.children))
  }

  /** Declarations in source order, none of them in an import, under distinct names. */
  ghost predicate Declared(lang: Language, src: Text, n: Node, paths: seq<seq<nat>>, names: seq<string>) {
    && WellFormed(n) && n.end <= |src| && |paths| == |names|
    && (forall k :: 0 <= k < |paths| ==>
          InTree(n, paths[k]) && Declares(lang, n, paths[k]) && !Importing(lang, n.children[paths[k][0]]))
    && (forall i, j :: 0 <= i < j < |names| ==> names[i] != names[j])
    && (forall k :: 0 <= k < |names| ==> names[k] != "@header" && names[k] != "@imports")
    && (forall k :: 0 <= k < |paths| ==> ExtentAt(lang, src, n, paths[0]).start <= ExtentAt(lang, src, n, paths[k]).start)
    && (forall c <- n.children :: Importing(lang, c) ==> c.kind !in lang.prefixes + lang.comments)
  }

  /** No declaration reaches across the imports: nothing but imports and comments stands
      among them, and a comment there belongs to an import. */
  lemma ImportsApart(lang: Language, src: Text, n: Node, path: seq<nat>)
    requires WellFormed(n) && n.end <= |src| && InTree(n, path) && Declares(lang, n, path)
    requires !Importing(lang, n.children[path[0]]) && Imports(lang, n.children).Some?
    requires forall c <- n.children :: Importing(lang, c) ==> c.kind !in lang.prefixes + lang.comments
    ensures Apart(ExtentAt(lang, src, n, path), Imports(lang, n.children).value)
  {
    hide WellFormed;
    var sibs := n.children;
    var first := FirstImport(lang, sibs, 0);
    var last := LastImport(lang, sibs, first + 1, first);
    ChildFits(n, src, path[0]);
    ExtentInside(lang, src, n, path);
    assert sibs[first] in sibs && sibs[last] in sibs;
    if path[0] > last {
      LaterIsApart(lang, src, n, path, last);
    } else {
      assert path[0] < first;
    }
  }

  /** `@header` ends where the first declaration starts, or before. */
  lemma HeaderApart(lang: Language, src: Text, n: Node, decls: seq<Region>)
    requires WellFormed(n) && n.end <= |src| && SideBySide(n.children, 0, |src|) && !lang.lede && decls != []
    requires ResolveHeader(lang, src, n.children, ExtentsOf(decls)).Some?
    ensures ResolveHeader(lang, src, n.children, ExtentsOf(decls)).value.end <= decls[0].ext.start
  {
    HeaderStopsShort(lang, src, n.children, ExtentsOf(decls));
  }

  /** The regions of one well-formed tree are the nested family attribution relies on. */
  lemma TreeRegionsAreFamily(lang: Language, src: Text, n: Node, paths: seq<seq<nat>>, names: seq<string>)
    requires Declared(lang, src, n, paths, names) && !lang.lede
    ensures SideBySide(n.children, 0, |src|)
    ensures Family(AllRegions(lang, src, n, DeclRegions(lang, src, n, paths, names)))
  {
    assert SideBySide(n.children, 0, |src|);
    hide Declared, AllRegions, DeclRegions, WellFormed, NestedOrApart, SideBySide;
    var all := AllRegions(lang, src, n, DeclRegions(lang, src, n, paths, names));
    forall i, j | 0 <= i < j < |all|
      ensures all[i].name != all[j].name && NestedOrApart(all[i].ext, all[j].ext)
    {
      RegionPair(lang, src, n, paths, names, i, j);
    }
    PairsAreFamily(all);
  }

  lemma PairsAreFamily(all: seq<Region>)
    requires forall i, j :: 0 <= i < j < |all| ==> all[i].name != all[j].name && NestedOrApart(all[i].ext, all[j].ext)
    ensures Family(all)
  {
    forall a, b | a in all && b in all
      ensures NestedOrApart(a.ext, b.ext)
    {
      var i :| 0 <= i < |all| && all[i] == a;
      var j :| 0 <= j < |all| && all[j] == b;
      if i < j {
        assert NestedOrApart(all[i].ext, all[j].ext);
      } else if j < i {
        assert NestedOrApart(all[j].ext, all[i].ext);
      }
    }
  }

  predicate NestedOrApart(a: Extent, b: Extent) {
    Extents.Nested(a, b) || Apart(a, b)
  }

  lemma RegionPair(lang: Language, src: Text, n: Node, paths: seq<seq<nat>>, names: seq<string>, i: nat, j: nat)
    requires Declared(lang, src, n, paths, names) && !lang.lede && SideBySide(n.children, 0, |src|)
    requires i < j < |AllRegions(lang, src, n, DeclRegions(lang, src, n, paths, names))|
    ensures
      var all := AllRegions(lang, src, n, DeclRegions(lang, src, n, paths, names));
      all[i].name != all[j].name && NestedOrApart(all[i].ext, all[j].ext)
  {
    hide WellFormed, ExtentAt, ResolveHeader, Imports, Declares, InTree;
    var decls := DeclRegions(lang, src, n, paths, names);
    var header, imports := ResolveHeader(lang, src, n.children, ExtentsOf(decls)), Imports(lang, n.children);
    assert "@header"[1] != "@imports"[1];
    if j < |paths| {
      ExtentsNest(lang, src, n, paths[i], paths[j]);
    } else {
      if header.Some? {
        HeaderStopsShort(lang, src, n.children, ExtentsOf(decls));
        if i < |paths| {
          HeaderApart(lang, src, n, decls);
        }
      }
      if imports.Some? && i < |paths| {
        ImportsApart(lang, src, n, paths[i]);
      }
    }
  }

  // ----- narrowing a region to its first declarator -----

  /** Where a scan stands: open brackets, the quote it is in (0 for none), and whether the
      byte before was a backslash inside that quote. */
  datatype Lex = Lex(depth: int, quote: byte, escaped: bool)

  predicate Quotes(c: byte) {
    c == 34 || c == 39 || c == 96
  }

  predicate Opens(c: byte) {
    c == 40 || c == 91 || c == 123
  }

  function Next(l: Lex, c: byte): Lex {
    if l.quote != 0 then
      if l.escaped then l.(escaped := false)
      else if c == 92 then l.(escaped := true)
      else if c == l.quote then l.(quote := 0)
      else l
    else if Quotes(c) then l.(quote := c)
    else if Opens(c) then l.(depth := l.depth + 1)
    else if Closes(c) then l.(depth := l.depth - 1)
    else l
  }

  function StateAt(text: Text, i: nat): Lex
    requires i <= |text|
  {
    if i == 0 then Lex(0, 0, false) else Next(StateAt(text, i - 1), text[i - 1])
  }

  /** A comma outside every bracket pair and every quoted span. */
  predicate TopLevel(text: Text, i: nat)
    requires i < |text|
  {
    text[i] == 44 && StateAt(text, i).depth == 0 && StateAt(text, i).quote == 0
  }

  /** The first top-level comma, or -1. */
  method TopLevelComma(text: Text) returns (comma: int)
    ensures -1 <= comma < |text|
    ensures comma >= 0 ==> TopLevel(text, comma) && forall j: nat :: j < comma ==> !TopLevel(text, j)
    ensures comma == -1 ==> forall j: nat :: j < |text| ==> !TopLevel(text, j)
  {
    var depth, quote: byte := 0, 0;
    var i := 0;
    while i < |text|
      invariant i <= |text| + 1
      invariant i <= |text| ==> StateAt(text, i) == Lex(depth, quote, false)
      invariant forall j: nat :: j < i && j < |text| ==> !TopLevel(text, j)
    {
      var c := text[i];
      assert StateAt(text, i + 1) == Next(Lex(depth, quote, false), c);
      if quote != 0 {
        if c == 92 {
          assert i + 2 <= |text| ==> StateAt(text, i + 2) == Next(StateAt(text, i + 1), text[i + 1]);
          i := i + 2;
          continue;
        }
        if c == quote {
          quote := 0;
        }
      } else if Quotes(c) {
        quote := c;
      } else if Opens(c) {
        depth := depth + 1;
      } else if Closes(c) {
        depth := depth - 1;
      } else if c == 44 && depth == 0 {
        return i;
      }
      i := i + 1;
    }
    return -1;
  }

  /** What a region is cut down to: all of it without a top-level comma, else what stands
      before the first one. */
  method NarrowMultiDeclarator(src: Text, ext: Extent) returns (r: Extent)
    requires ext.start <= ext.end <= |src|
    ensures r.start == ext.start <= r.end <= ext.end
    ensures
      var text := src[ext.start..ext.end];
      && (forall j: nat :: j < r.end - r.start ==> !TopLevel(text, j))
      && (r.end < ext.end ==> TopLevel(text, r.end - r.start))
  {
    var comma := TopLevelComma(src[ext.start..ext.end]);
    r := if comma >= 0 then Extent(ext.start, ext.start + comma) else ext;
  }

  /** A byte the scan does not look at. */
  predicate Plain(c: byte) {
    !Quotes(c) && !Opens(c) && !Closes(c) && c != 44
  }

  /** A comma in a doc comment is a top-level comma: the region ends there, ahead of the
      declaration the comment belongs to. */
  lemma CommaInDocCommentCuts(comment: Text, rest: Text)
    requires forall c <- comment :: Plain(c)
    ensures TopLevel(comment + [44] + rest, |comment|)
    ensures forall j: nat :: j < |comment| ==> !TopLevel(comment + [44] + rest, j)
  {
    var text := comment + [44] + rest;
    assert forall j :: 0 <= j < |comment| ==> text[j] == comment[j] && text[j] in comment;
    PlainState(text, |comment|);
  }

  lemma {:induction false} PlainState(text: Text, i: nat)
    requires i <= |text| && forall j :: 0 <= j < i ==> Plain(text[j])
    ensures StateAt(text, i) == Lex(0, 0, false)
  {
    if i > 0 {
      PlainState(text, i - 1);
    }
  }

  // ----- the scan against bracketed and quoted text -----

  /** One byte of a quoted span: as it is, or behind a backslash. */
  datatype Inside = Raw(c: byte) | Escaped(c: byte)

  /** Text as brackets and quotes divide it. */
  datatype Piece = Single(c: byte) | Quoted(quote: byte, inside: seq<Inside>) | Group(open: byte, pieces: seq<Piece>, close: byte)

  /** No quote, backslash-escaped or not, ends a span early; brackets hold balanced text. */
  ghost predicate Fits(p: Piece) {
    match p
    case Single(c) => c !in [34, 39, 96, 40, 91, 123, 41, 93, 125]
    case Quoted(q, inside) => q in [34, 39, 96] && forall i <- inside :: i.Raw? ==> i.c != q && i.c != 92
    case Group(open, pieces, close) => open in [40, 91, 123] && close in [41, 93, 125] && forall x <- pieces :: Fits(x)
  }

  function Unquoted(inside: seq<Inside>): Text {
    if inside == [] then [] else (match inside[0] case Raw(c) => [c] case Escaped(c) => [92, c]) + Unquoted(inside[1..])
  }

  function Written(p: Piece): Text {
    match p
    case Single(c) => [c]
    case Quoted(q, inside) => [q] + Unquoted(inside) + [q]
    case Group(open, pieces, close) => [open] + AllWritten(pieces) + [close]
  }

  function AllWritten(pieces: seq<Piece>): Text {
    if pieces == [] then [] else Written(pieces[0]) + AllWritten(pieces[1..])
  }

  /** The state after some text, from any state. */
  function After(l: Lex, text: Text): Lex
    decreases |text|
  {
    if text == [] then l else After(Next(l, text[0]), text[1..])
  }

  lemma {:induction false} AfterAppend(l: Lex, a: Text, b: Text)
    ensures After(l, a + b) == After(After(l, a), b)
    decreases |a|
  {
    if a == [] {
      assert a + b == b;
    } else {
      assert (a + b)[1..] == a[1..] + b;
      AfterAppend(Next(l, a[0]), a[1..], b);
    }
  }

  lemma {:induction false} StateIsAfter(text: Text, i: nat)
    requires i <= |text|
    ensures StateAt(text, i) == After(Lex(0, 0, false), text[..i])
  {
    if i > 0 {
      StateIsAfter(text, i - 1);
      assert text[..i] == text[..i - 1] + [text[i - 1]];
      AfterAppend(Lex(0, 0, false), text[..i - 1], [text[i - 1]]);
      AfterOne(StateAt(text, i - 1), text[i - 1]);
    }
  }

  lemma AfterOne(l: Lex, c: byte)
    ensures After(l, [c]) == Next(l, c)
  {
    assert [c][1..] == [];
  }

  /** Inside a quoted span nothing but its own quote is looked at. */
  lemma {:induction false} QuoteHolds(l: Lex, inside: seq<Inside>, j: nat)
    requires l.quote in [34, 39, 96] && !l.escaped && j <= |Unquoted(inside)|
    requires forall i <- inside :: i.Raw? ==> i.c != l.quote && i.c != 92
    ensures After(l, Unquoted(inside)[..j]).quote == l.quote
    ensures j == |Unquoted(inside)| ==> After(l, Unquoted(inside)[..j]) == l
    decreases |inside|
  {
    var text := Unquoted(inside);
    if inside == [] {
      assert text[..j] == [];
    } else {
      var rest := Unquoted(inside[1..]);
      assert inside[0] in inside && forall i <- inside[1..] :: i in inside;
      match inside[0] {
        case Raw(c) =>
          if j > 0 {
            assert text[..j] == [c] + rest[..j - 1];
            AfterAppend(l, [c], rest[..j - 1]);
            AfterOne(l, c);
            QuoteHolds(l, inside[1..], j - 1);
          } else {
            assert text[..j] == [];
          }
        case Escaped(c) =>
          EscapePasses(l, c);
          if j > 1 {
            assert text[..j] == [92, c] + rest[..j - 2];
            AfterAppend(l, [92, c], rest[..j - 2]);
            QuoteHolds(l, inside[1..], j - 2);
          } else if j == 1 {
            assert text[..j] == [92];
            AfterOne(l, 92);
          } else {
            assert text[..j] == [];
          }
      }
    }
  }

  lemma EscapePasses(l: Lex, c: byte)
    requires l.quote in [34, 39, 96] && !l.escaped
    ensures After(l, [92, c]) == l && Next(l, 92).quote == l.quote
  {
    assert [92, c] == [92] + [c];
    AfterAppend(l, [92], [c]);
    AfterOne(l, 92);
    AfterOne(Next(l, 92), c);
  }

  /** A quoted span or a bracketed group leaves the scan as it found it, and from behind its
      first byte up to its last the scan is never at the outermost level. */
  lemma {:induction false} PieceHolds(l: Lex, p: Piece, j: nat)
    requires Fits(p) && l.quote == 0 && !l.escaped && j <= |Written(p)|
    ensures After(l, Written(p)) == l
    ensures 0 < j < |Written(p)| ==> After(l, Written(p)[..j]).quote != 0 || After(l, Written(p)[..j]).depth > l.depth
    decreases p, 1, 0
  {
    var text := Written(p);
    match p {
      case Single(c) =>
        AfterOne(l, c);
      case Quoted(q, inside) =>
        var body, started := Unquoted(inside), Next(l, q);
        assert started == l.(quote := q);
        QuoteHolds(started, inside, |body|);
        assert body[..|body|] == body;
        AfterOne(l, q);
        AfterOne(started, q);
        AfterAppend(l, [q], body);
        AfterAppend(l, [q] + body, [q]);
        if 0 < j < |text| {
          assert text[..j] == [q] + body[..j - 1];
          AfterAppend(l, [q], body[..j - 1]);
          QuoteHolds(started, inside, j - 1);
        }
      case Group(open, pieces, close) =>
        var body, started := AllWritten(pieces), Next(l, open);
        assert started == l.(depth := l.depth + 1);
        PiecesHold(started, p, pieces, |body|);
        assert body[..|body|] == body;
        AfterOne(l, open);
        AfterOne(started, close);
        AfterAppend(l, [open], body);
        AfterAppend(l, [open] + body, [close]);
        if 0 < j < |text| {
          assert text[..j] == [open] + body[..j - 1];
          AfterAppend(l, [open], body[..j - 1]);
          PiecesHold(started, p, pieces, j - 1);
        }
    }
  }

  lemma {:induction false} PiecesHold(l: Lex, of: Piece, pieces: seq<Piece>, j: nat)
    requires (forall x <- pieces :: Fits(x)) && l.quote == 0 && !l.escaped && j <= |AllWritten(pieces)|
    requires forall x <- pieces :: x < of
    ensures After(l, AllWritten(pieces)) == l
    ensures After(l, AllWritten(pieces)[..j]).quote != 0 || After(l, AllWritten(pieces)[..j]).depth >= l.depth
    decreases of, 0, |pieces|
  {
    var text := AllWritten(pieces);
    if pieces == [] {
      assert text[..j] == [];
    } else {
      var first, rest := Written(pieces[0]), AllWritten(pieces[1..]);
      assert pieces[0] in pieces && forall x <- pieces[1..] :: x in pieces;
      PieceHolds(l, pieces[0], if j <= |first| then j else |first|);
      AfterAppend(l, first, rest);
      if j <= |first| {
        assert text[..j] == first[..j];
        assert first[..|first|] == first && first[..0] == [];
        PiecesHold(l, of, pieces[1..], 0);
      } else {
        assert text[..j] == first + rest[..j - |first|];
        AfterAppend(l, first, rest[..j - |first|]);
        PiecesHold(l, of, pieces[1..], j - |first|);
      }
    }
  }

  /** In text whose brackets and quotes are balanced the commas the scan looks for are the
      ones outside all of them: escapes, other quotes inside a quote, and commas in
      arguments, literals and strings are passed over. */
  lemma {:induction false} CommaIsOutermost(pieces: seq<Piece>, i: nat)
    requires (forall x <- pieces :: Fits(x)) && i < |AllWritten(pieces)|
    ensures TopLevel(AllWritten(pieces), i) <==>
            exists k :: 0 <= k < |pieces| && pieces[k] == Single(44) && i == |AllWritten(pieces[..k])|
  {
    var start := Lex(0, 0, false);
    var text := AllWritten(pieces);
    var k := PieceAt(pieces, i);
    var lo := |AllWritten(pieces[..k])|;
    WrittenSplits(pieces, k);
    assert text == AllWritten(pieces[..k]) + (Written(pieces[k]) + AllWritten(pieces[k + 1..]));
    StateIsAfter(text, i);
    assert pieces[k] in pieces && forall x <- pieces[..k] :: x in pieces;
    PiecesPass(start, pieces[..k]);
    assert text[..i] == AllWritten(pieces[..k]) + Written(pieces[k])[..i - lo];
    AfterAppend(start, AllWritten(pieces[..k]), Written(pieces[k])[..i - lo]);
    PieceHolds(start, pieces[k], i - lo);
    assert text[i] == Written(pieces[k])[i - lo];
    assert Written(pieces[k])[..0] == [];
    forall m | 0 <= m < |pieces| && pieces[m] == Single(44) && i == |AllWritten(pieces[..m])|
      ensures m == k
    {
      OnePlace(pieces, m, k, i);
    }
  }

  lemma {:induction false} PiecesPass(l: Lex, pieces: seq<Piece>)
    requires (forall x <- pieces :: Fits(x)) && l.quote == 0 && !l.escaped
    ensures After(l, AllWritten(pieces)) == l
  {
    if pieces != [] {
      var first := Written(pieces[0]);
      assert pieces[0] in pieces && forall x <- pieces[1..] :: x in pieces;
      PieceHolds(l, pieces[0], 0);
      AfterAppend(l, first, AllWritten(pieces[1..]));
      PiecesPass(l, pieces[1..]);
    }
  }

  lemma {:induction false} WrittenSplits(pieces: seq<Piece>, k: nat)
    requires k < |pieces|
    ensures AllWritten(pieces) == AllWritten(pieces[..k]) + (Written(pieces[k]) + AllWritten(pieces[k + 1..]))
  {
    hide Written;
    if k > 0 {
      WrittenSplits(pieces[1..], k - 1);
      assert pieces[1..][..k - 1] == pieces[..k][1..] && pieces[1..][k..] == pieces[k + 1..];
      var a, b := Written(pieces[0]), AllWritten(pieces[..k][1..]);
      assert pieces[..k][0] == pieces[0] && AllWritten(pieces[..k]) == a + b;
      Assoc(a, b, Written(pieces[k]) + AllWritten(pieces[k + 1..]));
    } else {
      assert pieces[..0] == [];
    }
  }

  /** The piece that holds the `i`th byte. */
  lemma {:induction false} PieceAt(pieces: seq<Piece>, i: nat) returns (k: nat)
    requires i < |AllWritten(pieces)|
    ensures k < |pieces| && |AllWritten(pieces[..k])| <= i < |AllWritten(pieces[..k])| + |Written(pieces[k])|
  {
    var first := Written(pieces[0]);
    if i < |first| {
      k := 0;
      assert pieces[..0] == [];
    } else {
      k := PieceAt(pieces[1..], i - |first|);
      assert pieces[1..][..k] == pieces[..k + 1][1..];
      k := k + 1;
    }
  }

  lemma OnePlace(pieces: seq<Piece>, m: nat, k: nat, i: nat)
    requires m < |pieces| && k < |pieces| && i == |AllWritten(pieces[..m])| && pieces[m] == Single(44)
    requires |AllWritten(pieces[..k])| <= i < |AllWritten(pieces[..k])| + |Written(pieces[k])|
    ensures m == k
  {
    if m < k {
      PrefixGrows(pieces, m, k);
    } else if k < m {
      PrefixGrows(pieces, k, m);
    }
  }

  lemma {:induction false} PrefixGrows(pieces: seq<Piece>, a: nat, b: nat)
    requires a < b <= |pieces|
    ensures |AllWritten(pieces[..a])| + |Written(pieces[a])| <= |AllWritten(pieces[..b])|
  {
    WrittenSplits(pieces[..b], a);
    assert pieces[..b][..a] == pieces[..a];
  }
}
