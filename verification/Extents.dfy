/** Symbol extents over an abstract syntax tree: doc-comment attribution, and the
    regions that no declaration owns. */
module Extents {
  import opened Bytes
  import opened Splice
  import opened Coalesce
  import opened Placement

  /** A named syntax node. Trees from the parser are ordered: children lie inside
      their parent, side by side. */
  datatype Node = Node(start: nat, end: nat, kind: string, children: seq<Node>)

  /** What one language says of nodes. `binds` is false of a comment that documents the
      scope it stands in rather than the item below it; `matcher`, where there is one,
      tells imports by their text; `lede` is Markdown's, whose `@toplevel` is the text
      ahead of the first heading. */
  datatype Language = Language(comments: set<string>, prefixes: set<string>, binds: Node -> bool, headers: set<string>,
                               imports: set<string>, matcher: Option<Node -> bool>, lede: bool)

  ghost predicate SideBySide(sibs: seq<Node>, lo: nat, hi: nat) {
    && (forall i :: 0 <= i < |sibs| ==> lo <= sibs[i].start <= sibs[i].end <= hi)
    && (forall i, j :: 0 <= i < j < |sibs| ==> sibs[i].end <= sibs[j].start)
  }

  ghost predicate WellFormed(n: Node) {
    && n.start <= n.end && SideBySide(n.children, n.start, n.end)
    && forall c <- n.children :: WellFormed(c)
  }

  // ----- doc-comment attribution -----

  function CountNL(s: Text): nat {
    if s == [] then 0 else (if s[0] == NL then 1 else 0) + CountNL(s[1..])
  }

  /** The end of a comment without the line ending its node may include. */
  function CommentEnd(src: Text, lo: nat, end: nat): (stop: nat)
    requires lo <= end <= |src|
    ensures lo <= stop <= end
  {
    if end > lo && (src[end - 1] == NL || src[end - 1] == 13) then CommentEnd(src, lo, end - 1) else end
  }

  /** `prev` belongs to what starts at `start`: an attribute always, a comment unless
      a blank line parts them. */
  predicate Attached(lang: Language, src: Text, prev: Node, start: nat)
    requires prev.start <= prev.end <= start <= |src|
  {
    prev.kind in lang.prefixes ||
    (prev.kind in lang.comments && lang.binds(prev) &&
     CountNL(src[CommentEnd(src, prev.start, prev.end)..start]) <= 1)
  }

  /** `r` is the start of one of the siblings before `j`, and every sibling from it
      up to `j` is a comment or an attribute. */
  ghost predicate StartsOver(lang: Language, sibs: seq<Node>, j: nat, r: nat)
    requires j <= |sibs|
  {
    exists i :: 0 <= i < j && sibs[i].start == r && AllAttachable(lang, sibs, i, j)
  }

  ghost predicate AllAttachable(lang: Language, sibs: seq<Node>, i: nat, j: nat)
    requires j <= |sibs|
  {
    forall k :: i <= k < j ==> sibs[k].kind in lang.prefixes + lang.comments
  }

  /** The start reached by walking back over the siblings before index `j`. */
  function WalkBack(lang: Language, src: Text, sibs: seq<Node>, j: nat, start: nat): (r: nat)
    requires j <= |sibs| && start <= |src| && SideBySide(sibs, 0, |src|)
    requires j > 0 ==> sibs[j - 1].end <= start
    ensures r <= start
    decreases j
  {
    if j > 0 && Attached(lang, src, sibs[j - 1], start) then WalkBack(lang, src, sibs, j - 1, sibs[j - 1].start)
    else start
  }

  lemma {:induction false} WalkBackOver(lang: Language, src: Text, sibs: seq<Node>, j: nat, start: nat)
    requires j <= |sibs| && start <= |src| && SideBySide(sibs, 0, |src|)
    requires j > 0 ==> sibs[j - 1].end <= start
    ensures WalkBack(lang, src, sibs, j, start) == start || StartsOver(lang, sibs, j, WalkBack(lang, src, sibs, j, start))
    decreases j
  {
    hide CountNL, CommentEnd;
    if j > 0 && Attached(lang, src, sibs[j - 1], start) {
      var r := WalkBack(lang, src, sibs, j - 1, sibs[j - 1].start);
      WalkBackOver(lang, src, sibs, j - 1, sibs[j - 1].start);
      if r == sibs[j - 1].start {
        assert AllAttachable(lang, sibs, j - 1, j);
      } else {
        var i :| 0 <= i < j - 1 && sibs[i].start == r && AllAttachable(lang, sibs, i, j - 1);
        assert AllAttachable(lang, sibs, i, j);
      }
    }
  }

  method TrimLineEnd(src: Text, lo: nat, end: nat) returns (stop: nat)
    requires lo <= end <= |src|
    ensures stop == CommentEnd(src, lo, end)
  {
    stop := end;
    while stop > lo && (src[stop - 1] == NL || src[stop - 1] == 13)
      invariant lo <= stop <= end && CommentEnd(src, lo, stop) == CommentEnd(src, lo, end)
    {
      stop := stop - 1;
    }
  }

  method DocStart(lang: Language, src: Text, sibs: seq<Node>, i: nat) returns (start: nat)
    requires i < |sibs| && SideBySide(sibs, 0, |src|)
    ensures start == WalkBack(lang, src, sibs, i, sibs[i].start)
  {
    hide CountNL, CommentEnd;
    start := sibs[i].start;
    var prev := i;
    while prev > 0
      invariant 0 <= prev <= i && start <= |src| && (prev > 0 ==> sibs[prev - 1].end <= start)
      invariant WalkBack(lang, src, sibs, prev, start) == WalkBack(lang, src, sibs, i, sibs[i].start)
    {
      var node := sibs[prev - 1];
      if node.kind !in lang.prefixes {
        if node.kind !in lang.comments {
          return;
        }
        if !lang.binds(node) {
          return;
        }
        var end := TrimLineEnd(src, node.start, node.end);
        if CountNL(src[end..start]) > 1 {
          return;
        }
      }
      start := node.start;
      prev := prev - 1;
    }
  }

  /** The extent of the `i`th of some siblings, leading comments included. */
  function FullExtent(lang: Language, src: Text, sibs: seq<Node>, i: nat): (e: Extent)
    requires i < |sibs| && SideBySide(sibs, 0, |src|)
    ensures e.end == sibs[i].end && e.start <= sibs[i].start
  {
    Extent(WalkBack(lang, src, sibs, i, sibs[i].start), sibs[i].end)
  }

  // ----- what an extent takes in -----

  /** `stop` is where a comment node's own text ends, its line ending aside. */
  predicate TextEnd(src: Text, n: Node, stop: nat)
    requires n.start <= n.end <= |src|
  {
    && n.start <= stop <= n.end && (forall i :: stop <= i < n.end ==> src[i] == 10 || src[i] == 13)
    && (stop == n.start || (src[stop - 1] != 10 && src[stop - 1] != 13))
  }

  /** At most one line break stands between the comment's text and what starts at `next`. */
  ghost predicate OneBreak(src: Text, n: Node, next: nat)
    requires n.start <= n.end <= next <= |src|
  {
    exists stop: nat :: TextEnd(src, n, stop) && forall i, j :: stop <= i < j < next ==> src[i] != 10 || src[j] != 10
  }

  /** The sibling belongs to the next one: an attribute, or a comment of the item below it
      with no blank line in between. */
  ghost predicate Belongs(lang: Language, src: Text, sibs: seq<Node>, m: nat)
    requires m + 1 < |sibs| && SideBySide(sibs, 0, |src|)
  {
    || sibs[m].kind in lang.prefixes
    || (sibs[m].kind in lang.comments && lang.binds(sibs[m]) && OneBreak(src, sibs[m], sibs[m + 1].start))
  }

  lemma {:induction false} OneBreakCounted(s: Text)
    ensures CountNL(s) == 0 <==> forall i :: 0 <= i < |s| ==> s[i] != NL
    ensures CountNL(s) <= 1 <==> forall i, j :: 0 <= i < j < |s| ==> s[i] != NL || s[j] != NL
  {
    if s != [] {
      var r := s[1..];
      OneBreakCounted(r);
      assert forall i :: 0 < i < |s| ==> s[i] == r[i - 1];
      if s[0] == NL && CountNL(r) == 0 {
        assert forall j :: 0 < j < |s| ==> s[j] != NL;
      } else if s[0] == NL {
        var j :| 0 <= j < |r| && r[j] == NL;
        assert s[0] == NL && s[j + 1] == NL;
      } else if CountNL(r) > 1 {
        var i, j :| 0 <= i < j < |r| && r[i] == NL && r[j] == NL;
        assert s[i + 1] == NL && s[j + 1] == NL;
      }
    }
  }

  lemma {:induction false} CommentEndIs(src: Text, lo: nat, end: nat)
    requires lo <= end <= |src|
    ensures
      var stop := CommentEnd(src, lo, end);
      && (forall i :: stop <= i < end ==> src[i] == 10 || src[i] == 13)
      && (stop == lo || (src[stop - 1] != 10 && src[stop - 1] != 13))
  {
    if end > lo && (src[end - 1] == NL || src[end - 1] == 13) {
      CommentEndIs(src, lo, end - 1);
    }
  }

  lemma AttachedIsBelongs(lang: Language, src: Text, sibs: seq<Node>, m: nat)
    requires m + 1 < |sibs| && SideBySide(sibs, 0, |src|)
    ensures Attached(lang, src, sibs[m], sibs[m + 1].start) <==> Belongs(lang, src, sibs, m)
  {
    hide CountNL, CommentEnd;
    var n, next := sibs[m], sibs[m + 1].start;
    var stop := CommentEnd(src, n.start, n.end);
    CommentEndIs(src, n.start, n.end);
    var gap := src[stop..next];
    OneBreakCounted(gap);
    assert forall i :: stop <= i < next ==> src[i] == gap[i - stop];
    assert TextEnd(src, n, stop);
    assert forall other: nat :: TextEnd(src, n, other) ==> other == stop;
  }

  lemma {:induction false} WalkStopsAt(lang: Language, src: Text, sibs: seq<Node>, i: nat) returns (k: nat)
    requires i < |sibs| && SideBySide(sibs, 0, |src|)
    ensures k <= i && WalkBack(lang, src, sibs, i, sibs[i].start) == sibs[k].start
    ensures forall m :: k <= m < i ==> Belongs(lang, src, sibs, m)
    ensures k > 0 ==> !Belongs(lang, src, sibs, k - 1)
  {
    hide Attached, Belongs;
    k := i;
    if i > 0 {
      AttachedIsBelongs(lang, src, sibs, i - 1);
      if Attached(lang, src, sibs[i - 1], sibs[i - 1 + 1].start) {
        k := WalkStopsAt(lang, src, sibs, i - 1);
      }
    }
  }

  /** A declaration's extent starts with the first of the siblings before it that belong
      to it in an unbroken row: attributes, and comments no blank line parts from what
      comes next. Where nothing does, it starts at the declaration itself. */
  lemma DocStartIff(lang: Language, src: Text, sibs: seq<Node>, i: nat, k: nat)
    requires i < |sibs| && SideBySide(sibs, 0, |src|) && k <= i
    requires k > 0 ==> !Belongs(lang, src, sibs, k - 1)
    requires forall m :: k <= m < i ==> Belongs(lang, src, sibs, m)
    ensures FullExtent(lang, src, sibs, i).start == sibs[k].start
  {
    hide Belongs;
    var l := WalkStopsAt(lang, src, sibs, i);
    assert k == l;
  }

  /** A comment with a blank line below it stays out, whatever stands above it. */
  lemma BlankLineParts(lang: Language, src: Text, sibs: seq<Node>, i: nat, b: nat)
    requires 0 < i < |sibs| && SideBySide(sibs, 0, |src|) && sibs[i - 1].kind !in lang.prefixes
    requires sibs[i - 1].end <= b && b + 1 < sibs[i].start && src[b] == 10 && src[b + 1] == 10
    ensures FullExtent(lang, src, sibs, i).start == sibs[i].start
  {
    assert !Belongs(lang, src, sibs, i - 1);
    DocStartIff(lang, src, sibs, i, i);
  }

  // ----- extents nest -----

  /** A path of child indices from the root to a node below it. */
  ghost predicate InTree(n: Node, path: seq<nat>) {
    path != [] && path[0] < |n.children| && (|path| == 1 || InTree(n.children[path[0]], path[1..]))
  }

  /** Neither the node nor anything above it is a comment or an attribute. */
  ghost predicate Declares(lang: Language, n: Node, path: seq<nat>)
    requires InTree(n, path)
  {
    && n.children[path[0]].kind !in lang.prefixes + lang.comments
    && (|path| == 1 || Declares(lang, n.children[path[0]], path[1..]))
  }

  lemma ChildFits(n: Node, src: Text, i: nat)
    requires WellFormed(n) && n.end <= |src| && i < |n.children|
    ensures SideBySide(n.children, 0, |src|)
    ensures WellFormed(n.children[i]) && n.start <= n.children[i].start && n.children[i].end <= n.end
  {
    assert n.children[i] in n.children;
  }

  function ExtentAt(lang: Language, src: Text, n: Node, path: seq<nat>): Extent
    requires WellFormed(n) && n.end <= |src| && InTree(n, path)
    decreases |path|
  {
    ChildFits(n, src, path[0]);
    if |path| == 1 then FullExtent(lang, src, n.children, path[0])
    else ExtentAt(lang, src, n.children[path[0]], path[1..])
  }

  predicate Nested(a: Extent, b: Extent) {
    a.Within(b) || b.Within(a)
  }

  predicate Apart(a: Extent, b: Extent) {
    a.end <= b.start || b.end <= a.start
  }

  /** An extent stays within its parent node: comments come from inside it too. */
  lemma {:induction false} ExtentInside(lang: Language, src: Text, n: Node, path: seq<nat>)
    requires WellFormed(n) && n.end <= |src| && InTree(n, path)
    ensures
      var e := ExtentAt(lang, src, n, path);
      && n.start <= e.start && e.end <= n.end
      && (|path| > 1 ==> n.children[path[0]].start <= e.start && e.end <= n.children[path[0]].end)
      && (|path| == 1 ==> e.end == n.children[path[0]].end)
    decreases |path|
  {
    ChildFits(n, src, path[0]);
    if |path| > 1 {
      ExtentInside(lang, src, n.children[path[0]], path[1..]);
    } else {
      WalkBackOver(lang, src, n.children, path[0], n.children[path[0]].start);
    }
  }

  /** A later sibling's comments do not reach back past an earlier declaration. */
  lemma LaterIsApart(lang: Language, src: Text, n: Node, path: seq<nat>, i: nat)
    requires WellFormed(n) && n.end <= |src| && InTree(n, path) && i < path[0]
    requires n.children[i].kind !in lang.prefixes + lang.comments
    ensures n.children[i].end <= ExtentAt(lang, src, n, path).start
  {
    hide WellFormed;
    ChildFits(n, src, path[0]);
    ChildFits(n, src, i);
    ExtentInside(lang, src, n, path);
    assert n.children[i].end <= n.children[path[0]].start;
    if |path| == 1 {
      var own := n.children[path[0]].start;
      WalkBackOver(lang, src, n.children, path[0], own);
      var r := WalkBack(lang, src, n.children, path[0], own);
      if r != own {
        var k :| 0 <= k < path[0] && n.children[k].start == r && AllAttachable(lang, n.children, k, path[0]);
        assert i < k;
      }
    }
  }

  /** On any well-formed tree, the doc-comment-extended extents of two declarations
      are nested or apart. */
  lemma {:induction false} ExtentsNest(lang: Language, src: Text, n: Node, p: seq<nat>, q: seq<nat>)
    requires WellFormed(n) && n.end <= |src| && InTree(n, p) && InTree(n, q)
    requires Declares(lang, n, p) && Declares(lang, n, q)
    ensures
      var a, b := ExtentAt(lang, src, n, p), ExtentAt(lang, src, n, q);
      Nested(a, b) || Apart(a, b)
    decreases |p|
  {
    hide WellFormed;
    ChildFits(n, src, p[0]);
    ChildFits(n, src, q[0]);
    ExtentInside(lang, src, n, p);
    ExtentInside(lang, src, n, q);
    if p[0] < q[0] {
      LaterIsApart(lang, src, n, q, p[0]);
    } else if q[0] < p[0] {
      LaterIsApart(lang, src, n, p, q[0]);
    } else if |p| > 1 && |q| > 1 {
      ExtentsNest(lang, src, n.children[p[0]], p[1..], q[1..]);
    } else if |p| == |q| {
      assert p == q;
    }
  }

  // ----- the regions no declaration owns -----

  /** The leading run of header nodes that start before `limit`. */
  function HeaderRun(lang: Language, sibs: seq<Node>, limit: nat, i: nat): (stop: nat)
    requires i <= |sibs|
    ensures i <= stop <= |sibs|
    ensures forall k :: i <= k < stop ==> sibs[k].kind in lang.headers && sibs[k].start < limit
    ensures stop < |sibs| ==> sibs[stop].kind !in lang.headers || sibs[stop].start >= limit
    decreases |sibs| - i
  {
    if i < |sibs| && sibs[i].kind in lang.headers && sibs[i].start < limit then HeaderRun(lang, sibs, limit, i + 1)
    else i
  }

  method HeaderExtent(lang: Language, sibs: seq<Node>, limit: nat) returns (ext: Option<Extent>)
    ensures ext == Header(lang, sibs, limit)
  {
    var end, found := 0, false;
    for i := 0 to |sibs|
      invariant HeaderRun(lang, sibs, limit, i) == HeaderRun(lang, sibs, limit, 0)
      invariant found <==> i > 0
      invariant i > 0 ==> end == sibs[i - 1].end
    {
      if sibs[i].kind !in lang.headers || sibs[i].start >= limit {
        break;
      }
      end, found := sibs[i].end, true;
    }
    if !found {
      return None;
    }
    return Some(Extent(0, end));
  }

  function Header(lang: Language, sibs: seq<Node>, limit: nat): Option<Extent> {
    var stop := HeaderRun(lang, sibs, limit, 0);
    if stop == 0 then None else Some(Extent(0, sibs[stop - 1].end))
  }

  predicate Importing(lang: Language, n: Node) {
    if lang.matcher.Some? then lang.matcher.value(n) else n.kind in lang.imports
  }

  function FirstImport(lang: Language, sibs: seq<Node>, i: nat): (first: nat)
    requires i <= |sibs|
    ensures i <= first <= |sibs| && (first < |sibs| ==> Importing(lang, sibs[first]))
    ensures forall k :: i <= k < first ==> !Importing(lang, sibs[k])
    decreases |sibs| - i
  {
    if i == |sibs| || Importing(lang, sibs[i]) then i else FirstImport(lang, sibs, i + 1)
  }

  /** The last import of the run that has reached `i`, `last` being the latest so far. */
  function LastImport(lang: Language, sibs: seq<Node>, i: nat, last: nat): (r: nat)
    requires last < i <= |sibs| && Importing(lang, sibs[last])
    ensures last <= r < |sibs| && Importing(lang, sibs[r])
    ensures forall k :: i <= k <= r ==> Importing(lang, sibs[k]) || sibs[k].kind in lang.comments
    decreases |sibs| - i
  {
    if i == |sibs| then last
    else if Importing(lang, sibs[i]) then LastImport(lang, sibs, i + 1, i)
    else if sibs[i].kind in lang.comments then LastImport(lang, sibs, i + 1, last)
    else last
  }

  /** Past the last of the run no import follows without something else in between. */
  lemma {:induction false} LastImportReaches(lang: Language, sibs: seq<Node>, i: nat, last: nat, k: nat)
    requires last < i <= |sibs| && Importing(lang, sibs[last])
    requires LastImport(lang, sibs, i, last) < k < |sibs| && i <= k && Importing(lang, sibs[k])
    ensures exists m :: i <= m < k && !Importing(lang, sibs[m]) && sibs[m].kind !in lang.comments
    decreases |sibs| - i
  {
    hide Importing;
    if Importing(lang, sibs[i]) {
      LastImportReaches(lang, sibs, i + 1, i, k);
    } else if sibs[i].kind in lang.comments {
      LastImportReaches(lang, sibs, i + 1, last, k);
    }
  }

  /** From the first import to the last one that only imports and comments part from it. */
  function Imports(lang: Language, sibs: seq<Node>): Option<Extent> {
    var first := FirstImport(lang, sibs, 0);
    if first == |sibs| then None
    else Some(Extent(sibs[first].start, sibs[LastImport(lang, sibs, first + 1, first)].end))
  }

  method ImportsExtent(lang: Language, sibs: seq<Node>) returns (ext: Option<Extent>)
    ensures ext == Imports(lang, sibs)
  {
    var start, end := -1, -1;
    for i := 0 to |sibs|
      invariant -1 <= start < i && (start == -1 <==> end == -1)
      invariant start == -1 ==> FirstImport(lang, sibs, i) == FirstImport(lang, sibs, 0)
      invariant start >= 0 ==> start == FirstImport(lang, sibs, 0) && start <= end < i && Importing(lang, sibs[end])
      invariant start >= 0 ==> LastImport(lang, sibs, i, end) == LastImport(lang, sibs, start + 1, start)
    {
      if Importing(lang, sibs[i]) {
        if start == -1 {
          start := i;
        }
        end := i;
        continue;
      }
      if start == -1 {
        continue;
      }
      if sibs[i].kind in lang.comments {
        continue;
      }
      break;
    }
    if start == -1 {
      return None;
    }
    return Some(Extent(sibs[start].start, sibs[end].end));
  }

  /** Where `@toplevel` starts, from the first declaration's own start `first`: the
      doc-comment start of the top-level node that holds it. */
  function TopStart(lang: Language, src: Text, sibs: seq<Node>, first: nat, i: nat, acc: nat): (r: nat)
    requires i <= |sibs| && SideBySide(sibs, 0, |src|)
    ensures r <= acc
    decreases |sibs| - i
  {
    if i == |sibs| then acc
    else
      var outer := FullExtent(lang, src, sibs, i).start;
      TopStart(lang, src, sibs, first, i + 1,
               if sibs[i].start <= first < sibs[i].end && outer < acc then outer else acc)
  }

  function TopEnd(sibs: seq<Node>, last: nat, i: nat, acc: nat): (r: nat)
    requires i <= |sibs|
    ensures r >= acc
    decreases |sibs| - i
  {
    if i == |sibs| then acc
    else TopEnd(sibs, last, i + 1, if sibs[i].start < last <= sibs[i].end && sibs[i].end > acc then sibs[i].end else acc)
  }

  /** What stands between the frontmatter and the first heading. */
  function Lede(lang: Language, src: Text, sibs: seq<Node>, decls: seq<Extent>): Option<Extent> {
    var start := if sibs != [] && sibs[0].kind in lang.headers then sibs[0].end else 0;
    var end := if decls != [] then decls[0].start else |src|;
    if sibs == [] || end <= start then None else Some(Extent(start, end))
  }

  method LedeExtent(lang: Language, src: Text, sibs: seq<Node>, decls: seq<Extent>) returns (ext: Option<Extent>)
    ensures ext == Lede(lang, src, sibs, decls)
  {
    if |sibs| == 0 {
      return None;
    }
    var start := 0;
    if sibs[0].kind in lang.headers {
      start := sibs[0].end;
    }
    var end := |src|;
    if |decls| > 0 {
      end := decls[0].start;
    }
    if end <= start {
      return None;
    }
    return Some(Extent(start, end));
  }

  /** `decls` are the declarations' extents in source order. */
  function Toplevel(lang: Language, src: Text, sibs: seq<Node>, decls: seq<Extent>): Option<Extent>
    requires SideBySide(sibs, 0, |src|)
  {
    if lang.lede then Lede(lang, src, sibs, decls)
    else if decls == [] then None
    else
      var first, last := decls[0].start, decls[|decls| - 1].end;
      Some(Extent(TopStart(lang, src, sibs, first, 0, first), TopEnd(sibs, last, 0, last)))
  }

  method ToplevelExtent(lang: Language, src: Text, sibs: seq<Node>, decls: seq<Extent>) returns (ext: Option<Extent>)
    requires SideBySide(sibs, 0, |src|)
    ensures ext == Toplevel(lang, src, sibs, decls)
  {
    if lang.lede {
      ext := LedeExtent(lang, src, sibs, decls);
      return;
    }
    if decls == [] {
      return None;
    }
    var first, last := decls[0], decls[|decls| - 1];
    var start, end := first.start, last.end;
    for i := 0 to |sibs|
      invariant TopStart(lang, src, sibs, first.start, i, start) == TopStart(lang, src, sibs, first.start, 0, first.start)
      invariant TopEnd(sibs, last.end, i, end) == TopEnd(sibs, last.end, 0, last.end)
    {
      var c := sibs[i];
      if c.start <= first.start < c.end {
        var outer := DocStart(lang, src, sibs, i);
        if outer < start {
          start := outer;
        }
      }
      if c.start < last.end <= c.end {
        if c.end > end {
          end := c.end;
        }
      }
    }
    return Some(Extent(start, end));
  }

  predicate CutsNothing(n: Node, p: nat) {
    n.end <= p || p <= n.start
  }

  lemma StartCutsNothing(sibs: seq<Node>, hi: nat, m: nat, k: nat)
    requires SideBySide(sibs, 0, hi) && m < |sibs| && k < |sibs|
    ensures CutsNothing(sibs[k], sibs[m].start)
  {
  }

  lemma OuterCutsNothing(lang: Language, src: Text, sibs: seq<Node>, i: nat, k: nat)
    requires SideBySide(sibs, 0, |src|) && i < |sibs| && k < |sibs|
    ensures CutsNothing(sibs[k], FullExtent(lang, src, sibs, i).start)
  {
    WalkBackOver(lang, src, sibs, i, sibs[i].start);
    var r := FullExtent(lang, src, sibs, i).start;
    if r == sibs[i].start {
      StartCutsNothing(sibs, |src|, i, k);
    } else {
      var m :| 0 <= m < i && sibs[m].start == r && AllAttachable(lang, sibs, m, i);
      StartCutsNothing(sibs, |src|, m, k);
    }
  }

  /** No top-level node reaches across the place where `@toplevel` starts. */
  lemma {:induction false} TopStartCutsNothing(lang: Language, src: Text, sibs: seq<Node>, first: nat, i: nat, acc: nat, k: nat)
    requires i <= |sibs| && SideBySide(sibs, 0, |src|) && k < |sibs| && acc <= first
    requires CutsNothing(sibs[k], acc) || (k >= i && acc == first)
    ensures CutsNothing(sibs[k], TopStart(lang, src, sibs, first, i, acc))
    decreases |sibs| - i
  {
    hide WalkBack, SideBySide;
    if i < |sibs| {
      OuterCutsNothing(lang, src, sibs, i, k);
      var outer := FullExtent(lang, src, sibs, i).start;
      var next := if sibs[i].start <= first < sibs[i].end && outer < acc then outer else acc;
      TopStartCutsNothing(lang, src, sibs, first, i + 1, next, k);
    }
  }

  /** `@toplevel` starts with the doc comments of the top-level node that holds the first
      declaration, or with the declaration's own, whichever comes first. */
  lemma {:induction false} TopStartIs(lang: Language, src: Text, sibs: seq<Node>, first: nat, i: nat, acc: nat)
    requires i <= |sibs| && SideBySide(sibs, 0, |src|)
    ensures
      var r := TopStart(lang, src, sibs, first, i, acc);
      && (forall k :: i <= k < |sibs| && sibs[k].start <= first < sibs[k].end ==> r <= FullExtent(lang, src, sibs, k).start)
      && (r == acc || exists k :: i <= k < |sibs| && sibs[k].start <= first < sibs[k].end
                        && r == FullExtent(lang, src, sibs, k).start)
    decreases |sibs| - i
  {
    hide WalkBack, SideBySide;
    if i < |sibs| {
      var outer := FullExtent(lang, src, sibs, i).start;
      var next := if sibs[i].start <= first < sibs[i].end && outer < acc then outer else acc;
      TopStartIs(lang, src, sibs, first, i + 1, next);
    }
  }

  /** It ends with the top-level node that holds the end of the last declaration. */
  lemma {:induction false} TopEndIs(sibs: seq<Node>, last: nat, i: nat, acc: nat)
    requires i <= |sibs|
    ensures
      var r := TopEnd(sibs, last, i, acc);
      && (forall k :: i <= k < |sibs| && sibs[k].start < last <= sibs[k].end ==> sibs[k].end <= r)
      && (r == acc || exists k :: i <= k < |sibs| && sibs[k].start < last <= sibs[k].end && r == sibs[k].end)
    decreases |sibs| - i
  {
    if i < |sibs| {
      TopEndIs(sibs, last, i + 1, if sibs[i].start < last <= sibs[i].end && sibs[i].end > acc then sibs[i].end else acc);
    }
  }

  /** Markdown's `@toplevel` is exactly the bytes ahead of the first heading that no
      frontmatter takes; where there are none, there is no such region. */
  lemma LedeIs(lang: Language, src: Text, sibs: seq<Node>, decls: seq<Extent>, i: nat)
    requires lang.lede && SideBySide(sibs, 0, |src|) && (decls != [] ==> decls[0].start <= |src|)
    ensures
      var top := Toplevel(lang, src, sibs, decls);
      && (top.Some? ==> top.value.start < top.value.end)
      && (top.Some? && top.value.start <= i < top.value.end <==>
            && sibs != [] && i < |src| && (decls != [] ==> i < decls[0].start)
            && (sibs[0].kind in lang.headers ==> sibs[0].end <= i))
  {
  }

  /** The bound `@header` is given. */
  function HeaderLimit(lang: Language, src: Text, sibs: seq<Node>, decls: seq<Extent>): Option<nat>
    requires SideBySide(sibs, 0, |src|)
  {
    var top, imp := Toplevel(lang, src, sibs, decls), Imports(lang, sibs);
    if top.None? && imp.None? then None
    else if top.None? then Some(imp.value.start)
    else if imp.Some? && imp.value.start < top.value.start then Some(imp.value.start)
    else Some(top.value.start)
  }

  function ResolveHeader(lang: Language, src: Text, sibs: seq<Node>, decls: seq<Extent>): Option<Extent>
    requires SideBySide(sibs, 0, |src|)
  {
    var limit := HeaderLimit(lang, src, sibs, decls);
    Header(lang, sibs, if limit.Some? then limit.value else |src| + 1)
  }

  /** `@header` never reaches past the start of `@imports` or of `@toplevel`. */
  lemma HeaderStopsShort(lang: Language, src: Text, sibs: seq<Node>, decls: seq<Extent>)
    requires SideBySide(sibs, 0, |src|) && ResolveHeader(lang, src, sibs, decls).Some?
    ensures
      var header := ResolveHeader(lang, src, sibs, decls).value;
      && (Imports(lang, sibs).Some? ==> header.end <= Imports(lang, sibs).value.start)
      && (Toplevel(lang, src, sibs, decls).Some? ==> header.end <= Toplevel(lang, src, sibs, decls).value.start)
  {
    hide TopStart, TopEnd, HeaderRun, FirstImport, LastImport;
    var limit := HeaderLimit(lang, src, sibs, decls);
    if limit.Some? {
      var k := HeaderRun(lang, sibs, limit.value, 0) - 1;
      assert sibs[k].start < limit.value;
      if lang.lede {
        assert k > 0 ==> sibs[0].end <= sibs[k].start;
      } else if decls != [] {
        TopStartCutsNothing(lang, src, sibs, decls[0].start, 0, decls[0].start, k);
      }
    }
  }

  /** Nor does it stop sooner than it must: it takes every leading header node that starts
      before `@imports` and before `@toplevel`. */
  lemma HeaderReaches(lang: Language, src: Text, sibs: seq<Node>, decls: seq<Extent>, k: nat)
    requires SideBySide(sibs, 0, |src|) && k < |sibs| && forall m :: 0 <= m <= k ==> sibs[m].kind in lang.headers
    requires Imports(lang, sibs).Some? ==> sibs[k].start < Imports(lang, sibs).value.start
    requires Toplevel(lang, src, sibs, decls).Some? ==> sibs[k].start < Toplevel(lang, src, sibs, decls).value.start
    ensures ResolveHeader(lang, src, sibs, decls).Some?
    ensures ResolveHeader(lang, src, sibs, decls).value.start == 0
    ensures ResolveHeader(lang, src, sibs, decls).value.end >= sibs[k].end
  {
    hide Toplevel, Imports;
    var limit := HeaderLimit(lang, src, sibs, decls);
    var bound := if limit.Some? then limit.value else |src| + 1;
    assert sibs[k].start < bound;
    var stop := HeaderRun(lang, sibs, bound, 0);
    assert forall m :: 0 <= m <= k ==> sibs[m].start <= sibs[k].start;
    assert stop > k;
  }

  // ----- the edits of one tree -----

  /** An extent that starts and ends with a byte that is no blank. */
  predicate Tight(src: Text, e: Extent) {
    e.start < e.end <= |src| && !Blank(src[e.start]) && !Blank(src[e.end - 1])
  }

  /** A range edit of the declaration at `e`; a deletion takes the indentation too. */
  predicate RangeEditOf(src: Text, e: Extent, op: EditOp)
    requires e.start <= |src|
  {
    IsRange(op) && op.end == e.end && op.start == if op.kind.Delete? then LineStart(src, e.start) else e.start
  }

  /** An indented declaration is deleted that starts, and does not end, with a replaced one:
      its indentation is outside what is replaced. */
  predicate Outgrows(src: Text, d: Extent, del: EditOp, r: Extent, rep: EditOp) {
    && d.start <= |src| && del.kind.Delete? && rep.kind.Replace?
    && d.start == r.start && d.end < r.end && LineStart(src, d.start) < d.start
  }

  lemma PairEditsNestIff(src: Text, d: Extent, a: EditOp, r: Extent, b: EditOp)
    requires Tight(src, d) && Tight(src, r) && (Nested(d, r) || Apart(d, r))
    requires RangeEditOf(src, d, a) && RangeEditOf(src, r, b)
    ensures Coalesce.Within(a, b) || Coalesce.Within(b, a) || !Overlap(a, b)
            <==> !Outgrows(src, d, a, r, b) && !Outgrows(src, r, b, d, a)
  {
    LineStartOver(src, d.start);
    LineStartOver(src, r.start);
  }

  lemma LineStartOver(src: Text, p: nat)
    requires p <= |src|
    ensures forall i :: LineStart(src, p) <= i < p ==> Blank(src[i])
    ensures forall q :: LineStart(src, p) <= q <= p ==> LineStart(src, q) == LineStart(src, p)
  {
    forall q | LineStart(src, p) <= q <= p
      ensures LineStart(src, q) == LineStart(src, p)
    {
      var b := LineStart(src, p);
      if q < p {
        assert b == LineBegin(src, p);
        assert forall i :: b <= i < p ==> src[i] in src[b..p] by {
          assert forall i :: b <= i < p ==> src[b..p][i - b] == src[i];
        }
        LineBeginUnder(src, q, p);
      }
    }
  }

  lemma {:induction false} LineBeginUnder(src: Text, q: nat, p: nat)
    requires p <= |src| && LineBegin(src, p) <= q <= p
    ensures LineBegin(src, q) == LineBegin(src, p)
    decreases p - q
  {
    if q < p {
      LineBeginUnder(src, q, p - 1);
    }
  }

  /** The edits that replace or delete declarations of one tree are what coalescing
      expects, any two nested or disjoint, exactly when no deletion outgrows a replaced
      declaration it starts with. */
  lemma TreeEditsNestIff(lang: Language, src: Text, n: Node, ops: seq<EditOp>, paths: seq<seq<nat>>)
    requires WellFormed(n) && n.end <= |src| && |ops| == |paths|
    requires forall k :: 0 <= k < |ops| ==>
               && InTree(n, paths[k]) && Declares(lang, n, paths[k])
               && Tight(src, ExtentAt(lang, src, n, paths[k])) && RangeEditOf(src, ExtentAt(lang, src, n, paths[k]), ops[k])
    ensures NestedOrDisjoint(ops) <==>
            forall i, j :: 0 <= i < |ops| && 0 <= j < |ops| ==>
              !Outgrows(src, ExtentAt(lang, src, n, paths[i]), ops[i], ExtentAt(lang, src, n, paths[j]), ops[j])
  {
    hide WellFormed, ExtentAt, Outgrows, Overlap, Declares, InTree, LineStart;
    forall i, j | 0 <= i < |ops| && 0 <= j < |ops|
      ensures Coalesce.Within(ops[i], ops[j]) || Coalesce.Within(ops[j], ops[i]) || !Overlap(ops[i], ops[j]) <==>
              && !Outgrows(src, ExtentAt(lang, src, n, paths[i]), ops[i], ExtentAt(lang, src, n, paths[j]), ops[j])
              && !Outgrows(src, ExtentAt(lang, src, n, paths[j]), ops[j], ExtentAt(lang, src, n, paths[i]), ops[i])
    {
      ExtentsNest(lang, src, n, paths[i], paths[j]);
      PairEditsNestIff(src, ExtentAt(lang, src, n, paths[i]), ops[i], ExtentAt(lang, src, n, paths[j]), ops[j]);
    }
    if NestedOrDisjoint(ops) {
      forall i, j | 0 <= i < |ops| && 0 <= j < |ops|
        ensures !Outgrows(src, ExtentAt(lang, src, n, paths[i]), ops[i], ExtentAt(lang, src, n, paths[j]), ops[j])
      {
        assert ops[i] in ops && ops[j] in ops;
      }
    }
  }
}
