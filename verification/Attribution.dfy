/** Splitting a file's change into rows: which region owns which byte, and what the
    rows sum to. */
module Attribution {
  import opened Seqs
  import opened Bytes
  import opened Sorting
  import opened Placement

  /** A named, addressable byte range. */
  datatype Region = Region(name: string, ext: Extent)

  predicate Covers(e: Extent, i: nat) {
    e.start <= i < e.end
  }

  ghost predicate InSource(src: Text, regions: seq<Region>) {
    forall r <- regions :: r.ext.start <= r.ext.end <= |src|
  }

  // ----- the text a region owns alone -----

  /** `r`, another region inside `self`, punches a hole at `i`. */
  predicate Holes(self: Region, r: Region, i: nat) {
    r.name != self.name && r.ext.Within(self.ext) && Covers(r.ext, i)
  }

  ghost predicate Owns(self: Region, siblings: seq<Region>, i: nat) {
    Covers(self.ext, i) && !exists r <- siblings :: Holes(self, r, i)
  }

  /** The bytes of `src[lo..hi]` at the positions `self` owns. */
  ghost function Owned(src: Text, self: Region, siblings: seq<Region>, lo: nat, hi: nat): Text
    requires hi <= |src|
    decreases hi - lo
  {
    if lo >= hi then []
    else (if Owns(self, siblings, lo) then [src[lo]] else []) + Owned(src, self, siblings, lo + 1, hi)
  }

  lemma {:induction false} OwnedSplit(src: Text, self: Region, siblings: seq<Region>, lo: nat, mid: nat, hi: nat)
    requires lo <= mid <= hi <= |src|
    ensures Owned(src, self, siblings, lo, hi) == Owned(src, self, siblings, lo, mid) + Owned(src, self, siblings, mid, hi)
    decreases mid - lo
  {
    hide Owns;
    if lo < mid {
      OwnedSplit(src, self, siblings, lo + 1, mid, hi);
      Assoc(if Owns(self, siblings, lo) then [src[lo]] else [], Owned(src, self, siblings, lo + 1, mid),
            Owned(src, self, siblings, mid, hi));
    }
  }

  lemma {:induction false} OwnedAll(src: Text, self: Region, siblings: seq<Region>, lo: nat, hi: nat)
    requires lo <= hi <= |src| && forall i :: lo <= i < hi ==> Owns(self, siblings, i)
    ensures Owned(src, self, siblings, lo, hi) == src[lo..hi]
    decreases hi - lo
  {
    hide Owns;
    if lo < hi {
      OwnedAll(src, self, siblings, lo + 1, hi);
      assert src[lo..hi] == [src[lo]] + src[lo + 1..hi];
    }
  }

  lemma {:induction false} OwnedNone(src: Text, self: Region, siblings: seq<Region>, lo: nat, hi: nat)
    requires lo <= hi <= |src| && forall i :: lo <= i < hi ==> !Owns(self, siblings, i)
    ensures Owned(src, self, siblings, lo, hi) == []
    decreases hi - lo
  {
    hide Owns;
    if lo < hi {
      OwnedNone(src, self, siblings, lo + 1, hi);
    }
  }

  function StartKey(e: Extent): int {
    e.start
  }

  method HolesIn(self: Region, siblings: seq<Region>) returns (holes: seq<Extent>)
    ensures forall h <- holes :: exists r <- siblings :: r.name != self.name && r.ext == h && h.Within(self.ext)
    ensures forall r <- siblings :: r.name != self.name && r.ext.Within(self.ext) ==> r.ext in holes
  {
    holes := [];
    for k := 0 to |siblings|
      invariant forall h <- holes :: exists r <- siblings :: r.name != self.name && r.ext == h && h.Within(self.ext)
      invariant forall j :: 0 <= j < k && siblings[j].name != self.name && siblings[j].ext.Within(self.ext) ==> siblings[j].ext in holes
    {
      var r := siblings[k];
      if r.name == self.name {
        continue;
      }
      if r.ext.start >= self.ext.start && r.ext.end <= self.ext.end {
        holes := holes + [r.ext];
      }
    }
  }

  /** The region's bytes with every region inside it taken out: one sweep over the
      holes by start offset. */
  method ExclusiveText(src: Text, self: Region, siblings: seq<Region>) returns (text: Text)
    requires self.ext.start <= self.ext.end <= |src| && InSource(src, siblings)
    ensures text == Owned(src, self, siblings, self.ext.start, self.ext.end)
  {
    hide Owned, Owns, Sorted, StableSort;
    var ext := self.ext;
    var holes := HolesIn(self, siblings);
    if holes == [] {
      NoHoles(src, self, siblings);
      return src[ext.start..ext.end];
    }
    var sorted := StableSort(holes, StartKey);
    StableSortMembers(holes, StartKey);
    StableSortCorrect(holes, StartKey);
    text := [];
    var pos := ext.start;
    OwnedNone(src, self, siblings, pos, pos);
    for k := 0 to |sorted|
      invariant ext.start <= pos <= ext.end && text == Owned(src, self, siblings, ext.start, pos)
      invariant forall j :: 0 <= j < k ==> sorted[j].end <= pos
    {
      var h := sorted[k];
      assert h in sorted && h in holes;
      if h.start > pos {
        GapOwned(src, self, siblings, sorted, k, pos, h.start);
        OwnedSplit(src, self, siblings, ext.start, pos, h.start);
        text := text + src[pos..h.start];
      }
      if h.end > pos {
        var from := if h.start > pos then h.start else pos;
        HoleOwned(src, self, siblings, h, from, h.end);
        OwnedSplit(src, self, siblings, ext.start, from, h.end);
        pos := h.end;
      }
    }
    if ext.end > pos {
      GapOwned(src, self, siblings, sorted, |sorted|, pos, ext.end);
      OwnedSplit(src, self, siblings, ext.start, pos, ext.end);
      text := text + src[pos..ext.end];
    }
  }

  lemma NoHoles(src: Text, self: Region, siblings: seq<Region>)
    requires self.ext.start <= self.ext.end <= |src|
    requires forall r <- siblings :: !(r.name != self.name && r.ext.Within(self.ext))
    ensures Owned(src, self, siblings, self.ext.start, self.ext.end) == src[self.ext.start..self.ext.end]
  {
    OwnedAll(src, self, siblings, self.ext.start, self.ext.end);
  }

  /** Between the holes already passed and the next one, every byte is owned. */
  lemma GapOwned(src: Text, self: Region, siblings: seq<Region>, sorted: seq<Extent>, k: nat, lo: nat, hi: nat)
    requires self.ext.start <= lo <= hi <= self.ext.end <= |src| && k <= |sorted| && Sorted(sorted, StartKey)
    requires forall r <- siblings :: r.name != self.name && r.ext.Within(self.ext) ==> r.ext in sorted
    requires forall j :: 0 <= j < k ==> sorted[j].end <= lo
    requires k < |sorted| ==> hi <= sorted[k].start
    ensures Owned(src, self, siblings, lo, hi) == src[lo..hi]
  {
    forall i | lo <= i < hi
      ensures Owns(self, siblings, i)
    {
      forall r | r in siblings
        ensures !Holes(self, r, i)
      {
        if r.name != self.name && r.ext.Within(self.ext) {
          var j :| 0 <= j < |sorted| && sorted[j] == r.ext;
          if j >= k {
            assert StartKey(sorted[k]) <= StartKey(sorted[j]);
          }
        }
      }
    }
    OwnedAll(src, self, siblings, lo, hi);
  }

  lemma HoleOwned(src: Text, self: Region, siblings: seq<Region>, h: Extent, lo: nat, hi: nat)
    requires lo <= hi <= |src| && h.start <= lo && hi <= h.end
    requires exists r <- siblings :: r.name != self.name && r.ext == h && h.Within(self.ext)
    ensures Owned(src, self, siblings, lo, hi) == []
  {
    var r :| r in siblings && r.name != self.name && r.ext == h && h.Within(self.ext);
    forall i | lo <= i < hi
      ensures !Owns(self, siblings, i)
    {
      assert Holes(self, r, i);
    }
    OwnedNone(src, self, siblings, lo, hi);
  }

  // ----- the texts partition the covered bytes -----

  /** Regions carry distinct names, and any two are nested or apart. */
  ghost predicate Family(regions: seq<Region>) {
    && (forall i, j :: 0 <= i < j < |regions| ==> regions[i].name != regions[j].name)
    && (forall a <- regions, b <- regions :: a.ext.Within(b.ext) || b.ext.Within(a.ext) || a.ext.end <= b.ext.start || b.ext.end <= a.ext.start)
  }

  lemma SameName(regions: seq<Region>, a: Region, b: Region)
    requires Family(regions) && a in regions && b in regions && a.name == b.name
    ensures a == b
  {
    var i :| 0 <= i < |regions| && regions[i] == a;
    var j :| 0 <= j < |regions| && regions[j] == b;
  }

  /** No byte is attributed twice. */
  lemma OneOwner(regions: seq<Region>, a: Region, b: Region, i: nat)
    requires Family(regions) && a in regions && b in regions
    requires Owns(a, regions, i) && Owns(b, regions, i)
    ensures a == b
  {
    if a.name == b.name {
      SameName(regions, a, b);
    }
  }

  /** The innermost regions around a byte. */
  ghost predicate Innermost(regions: seq<Region>, a: Region, i: nat) {
    a in regions && Covers(a.ext, i) && forall r <- regions :: Covers(r.ext, i) ==> a.ext.Within(r.ext)
  }

  lemma {:induction false} InnermostExists(regions: seq<Region>, r: Region, i: nat) returns (a: Region)
    requires Family(regions) && r in regions && Covers(r.ext, i)
    ensures Innermost(regions, a, i)
    decreases r.ext.end - r.ext.start
  {
    if s :| s in regions && Covers(s.ext, i) && !r.ext.Within(s.ext) {
      a := InnermostExists(regions, s, i);
    } else {
      a := r;
    }
  }

  /** A covered byte is attributed to some region exactly when its innermost extent is
      not shared by two names; a shared extent (a Go multi-name spec) is attributed to
      neither. */
  lemma OwnedIffNotShared(regions: seq<Region>, a: Region, i: nat)
    requires Family(regions) && Innermost(regions, a, i)
    ensures (exists r <- regions :: Owns(r, regions, i)) <==> forall b <- regions :: b.ext == a.ext ==> b == a
  {
    hide Owns, Innermost, Family;
    if forall b <- regions :: b.ext == a.ext ==> b == a {
      InnermostOwns(regions, a, i);
    } else {
      var b :| b in regions && b.ext == a.ext && b != a;
      forall r | r in regions
        ensures !Owns(r, regions, i)
      {
        SharedOwnsNothing(regions, a, b, r, i);
      }
    }
  }

  lemma InnermostOwns(regions: seq<Region>, a: Region, i: nat)
    requires Innermost(regions, a, i) && forall b <- regions :: b.ext == a.ext ==> b == a
    ensures a in regions && Owns(a, regions, i)
  {
    forall r | r in regions
      ensures !Holes(a, r, i)
    {
      if r.ext.Within(a.ext) && Covers(r.ext, i) {
        assert a.ext.Within(r.ext);
      }
    }
  }

  lemma SharedOwnsNothing(regions: seq<Region>, a: Region, b: Region, r: Region, i: nat)
    requires Family(regions) && Innermost(regions, a, i) && b in regions && b.ext == a.ext && b != a && r in regions
    ensures !Owns(r, regions, i)
  {
    hide Family;
    if a.name == b.name {
      SameName(regions, a, b);
    }
    if Covers(r.ext, i) {
      assert a.ext.Within(r.ext);
      assert Holes(r, a, i) || Holes(r, b, i);
    }
  }

  ghost predicate DistinctExtents(regions: seq<Region>) {
    forall a <- regions, b <- regions :: a.ext == b.ext ==> a == b
  }

  /** How many of the listed regions own byte `i`. */
  ghost function OwnerCount(listed: seq<Region>, regions: seq<Region>, i: nat): nat {
    if listed == [] then 0
    else (if Owns(listed[0], regions, i) then 1 else 0) + OwnerCount(listed[1..], regions, i)
  }

  lemma {:induction false} OwnerCountIs(listed: seq<Region>, regions: seq<Region>, i: nat)
    requires Family(regions) && forall r <- listed :: r in regions
    requires forall i, j :: 0 <= i < j < |listed| ==> listed[i].name != listed[j].name
    ensures OwnerCount(listed, regions, i) == if exists r <- listed :: Owns(r, regions, i) then 1 else 0
  {
    hide Owns, Family;
    if listed != [] {
      OwnerCountIs(listed[1..], regions, i);
      if Owns(listed[0], regions, i) {
        if r :| r in listed[1..] && Owns(r, regions, i) {
          OneOwner(regions, listed[0], r, i);
        }
      }
    }
  }

  ghost function Sizes(listed: seq<Region>, src: Text, regions: seq<Region>, hi: nat): nat
    requires hi <= |src|
  {
    if listed == [] then 0
    else |Owned(src, listed[0], regions, 0, hi)| + Sizes(listed[1..], src, regions, hi)
  }

  lemma {:induction false} SizesGrow(listed: seq<Region>, src: Text, regions: seq<Region>, hi: nat)
    requires hi < |src|
    ensures Sizes(listed, src, regions, hi + 1) == Sizes(listed, src, regions, hi) + OwnerCount(listed, regions, hi)
  {
    hide Owns;
    if listed != [] {
      SizesGrow(listed[1..], src, regions, hi);
      OwnedSplit(src, listed[0], regions, 0, hi, hi + 1);
      assert Owned(src, listed[0], regions, hi + 1, hi + 1) == [];
    }
  }

  ghost function CoveredCount(regions: seq<Region>, hi: nat): nat {
    if hi == 0 then 0
    else CoveredCount(regions, hi - 1) + if exists r <- regions :: Covers(r.ext, hi - 1) then 1 else 0
  }

  lemma {:induction false} SizesZero(listed: seq<Region>, src: Text, regions: seq<Region>)
    ensures Sizes(listed, src, regions, 0) == 0
  {
    if listed != [] {
      SizesZero(listed[1..], src, regions);
    }
  }

  lemma {:induction false} PrefixPartition(src: Text, regions: seq<Region>, hi: nat)
    requires Family(regions) && DistinctExtents(regions) && hi <= |src|
    ensures Sizes(regions, src, regions, hi) == CoveredCount(regions, hi)
  {
    hide Owns, Sizes, Family;
    if hi == 0 {
      SizesZero(regions, src, regions);
    } else {
      PrefixPartition(src, regions, hi - 1);
      SizesGrow(regions, src, regions, hi - 1);
      NamesDiffer(regions);
      OwnerCountIs(regions, regions, hi - 1);
      CoveredIsOwned(regions, hi - 1);
    }
  }

  /** The sizes of the exclusive texts, as `ExclusiveText` computes them. */
  ghost function ExclusiveSizes(listed: seq<Region>, src: Text, regions: seq<Region>): nat
    requires InSource(src, listed)
  {
    if listed == [] then 0
    else
      var r := listed[0];
      |Owned(src, r, regions, r.ext.start, r.ext.end)| + ExclusiveSizes(listed[1..], src, regions)
  }

  lemma {:induction false} ExclusiveSizesAre(listed: seq<Region>, src: Text, regions: seq<Region>)
    requires InSource(src, listed)
    ensures ExclusiveSizes(listed, src, regions) == Sizes(listed, src, regions, |src|)
  {
    if listed != [] {
      var r := listed[0];
      ExclusiveSizesAre(listed[1..], src, regions);
      OwnedSplit(src, r, regions, 0, r.ext.start, |src|);
      OwnedSplit(src, r, regions, r.ext.start, r.ext.end, |src|);
      OwnedNone(src, r, regions, 0, r.ext.start);
      OwnedNone(src, r, regions, r.ext.end, |src|);
    }
  }

  /** Over a nested family with distinct extents the exclusive texts hold each covered
      byte exactly once: their sizes add up to the number of covered bytes. */
  lemma TextsPartition(src: Text, regions: seq<Region>)
    requires Family(regions) && DistinctExtents(regions) && InSource(src, regions)
    ensures ExclusiveSizes(regions, src, regions) == CoveredCount(regions, |src|)
  {
    ExclusiveSizesAre(regions, src, regions);
    PrefixPartition(src, regions, |src|);
  }

  lemma NamesDiffer(regions: seq<Region>)
    requires Family(regions)
    ensures forall i, j :: 0 <= i < j < |regions| ==> regions[i].name != regions[j].name
  {
  }

  lemma OwnsCovers(r: Region, regions: seq<Region>, i: nat)
    ensures Owns(r, regions, i) ==> Covers(r.ext, i)
  {
  }

  lemma CoveredIsOwned(regions: seq<Region>, i: nat)
    requires Family(regions) && DistinctExtents(regions)
    ensures (exists r <- regions :: Covers(r.ext, i)) <==> exists r <- regions :: Owns(r, regions, i)
  {
    hide Family, Owns, Holes;
    if r :| r in regions && Covers(r.ext, i) {
      var a := InnermostExists(regions, r, i);
      OwnedIffNotShared(regions, a, i);
    } else {
      forall r | r in regions
        ensures !Owns(r, regions, i)
      {
        OwnsCovers(r, regions, i);
      }
    }
  }

  // ----- counting lines -----

  /** Lines as numstat counts them: one per newline, one more for an unterminated tail. */
  function CountLines(b: Text): nat {
    if b == [] then 0
    else if b[0] == NL then 1 + CountLines(b[1..])
    else if |b| == 1 then 1
    else CountLines(b[1..])
  }

  /** Blank lines a one-sided region takes with it: never more than one. */
  function SeparatorLines(src: Text, start: nat, end: nat, member: bool): (n: nat)
    requires start <= end <= |src|
    ensures n <= 1
  {
    var trailing, leading := RunAfter(src, end) - end, start - RunBefore(src, start);
    if member then 0
    else if end + trailing < |src| then if trailing >= 1 then 1 else 0
    else if leading >= 2 then 1 else 0
  }

  /** A region that no other holds takes a blank line with it: when text follows, one that
      stands right behind it; when only newlines do, one that stands right before it. */
  ghost predicate TakesBlank(src: Text, e: Extent, nested: bool)
    requires e.start <= e.end <= |src|
  {
    !nested &&
    if exists i :: e.end <= i < |src| && src[i] != 10 then src[e.end] == 10
    else e.start >= 2 && src[e.start - 1] == 10 && src[e.start - 2] == 10
  }

  lemma SeparatorIs(src: Text, e: Extent, nested: bool)
    requires e.start <= e.end <= |src|
    ensures SeparatorLines(src, e.start, e.end, nested) == if TakesBlank(src, e, nested) then 1 else 0
  {
    var stop, from := RunAfter(src, e.end), RunBefore(src, e.start);
    assert forall i :: e.end <= i < stop ==> src[i] == src[e.end..stop][i - e.end];
    assert forall i :: from <= i < e.start ==> src[i] == src[from..e.start][i - from];
    if stop < |src| {
      assert src[stop] != 10;
      assert stop > e.end <==> src[e.end] == 10;
    }
  }

  method CountSeparatorLines(src: Text, start: nat, end: nat, member: bool) returns (n: nat)
    requires start <= end <= |src|
    ensures n == SeparatorLines(src, start, end, member)
  {
    if member {
      return 0;
    }
    var e := end;
    while e < |src| && src[e] == NL
      invariant end <= e <= |src| && RunAfter(src, e) == RunAfter(src, end)
    {
      e := e + 1;
    }
    if e < |src| {
      return if e - end < 1 then e - end else 1;
    }
    var s := start;
    while s > 0 && src[s - 1] == NL
      invariant 0 <= s <= start && RunBefore(src, s) == RunBefore(src, start)
    {
      s := s - 1;
    }
    var leading := start - s;
    return if leading >= 2 then 1 else 0;
  }

  ghost predicate IsNested(r: Region, siblings: seq<Region>) {
    exists s <- siblings :: s.name != r.name && r.ext.Within(s.ext)
  }

  // ----- rows -----

  datatype Status = Modified | Deleted | Unanchorable

  datatype Row = Row(symbol: string, status: Status, added: nat, deleted: nat, pos: nat)

  /** Both sides of one file: bytes, regions, and what anchors resolve to. `diff` is the line
      differ, an outside library. */
  datatype Sides = Sides(oldSrc: Text, newSrc: Text, oldRegions: seq<Region>, newRegions: seq<Region>,
                         oldTable: Table, newTable: Table, flatContainer: bool, diff: (Text, Text) -> (nat, nat))

  ghost predicate SidesOK(s: Sides) {
    InSource(s.oldSrc, s.oldRegions) && InSource(s.newSrc, s.newRegions)
  }

  /** The extent the name index holds: the last region of that name. */
  function Indexed(regions: seq<Region>, name: string): Option<Extent> {
    if regions == [] then None
    else
      var last := regions[|regions| - 1];
      if last.name == name then Some(last.ext) else Indexed(regions[..|regions| - 1], name)
  }

  lemma {:induction false} IndexedInSource(src: Text, regions: seq<Region>, name: string)
    requires InSource(src, regions) && Indexed(regions, name).Some?
    ensures Indexed(regions, name).value.start <= Indexed(regions, name).value.end <= |src|
  {
    if regions[|regions| - 1].name != name {
      IndexedInSource(src, regions[..|regions| - 1], name);
    }
  }

  /** The row a name gets, or none when nothing of its own changed. */
  ghost function RowFor(s: Sides, name: string): Option<Row>
    requires SidesOK(s)
  {
    var o, n := Indexed(s.oldRegions, name), Indexed(s.newRegions, name);
    if o.Some? then IndexedInSource(s.oldSrc, s.oldRegions, name);
      if n.Some? then IndexedInSource(s.newSrc, s.newRegions, name);
        var oldText := Owned(s.oldSrc, Region(name, o.value), s.oldRegions, o.value.start, o.value.end);
        var newText := Owned(s.newSrc, Region(name, n.value), s.newRegions, n.value.start, n.value.end);
        var (added, deleted) := s.diff(oldText, newText);
        if added == 0 && deleted == 0 then None else Some(Row(name, Modified, added, deleted, n.value.start))
      else
        var deleted := CountLines(Owned(s.oldSrc, Region(name, o.value), s.oldRegions, o.value.start, o.value.end));
        if deleted == 0 then None
        else Some(Row(name, Deleted, 0,
                      deleted + SeparatorLines(s.oldSrc, o.value.start, o.value.end, IsNested(Region(name, o.value), s.oldRegions)),
                      o.value.start))
    else if n.Some? then IndexedInSource(s.newSrc, s.newRegions, name);
      var added := CountLines(Owned(s.newSrc, Region(name, n.value), s.newRegions, n.value.start, n.value.end));
      if added == 0 then None
      else Some(Row(name, Modified,
                    added + SeparatorLines(s.newSrc, n.value.start, n.value.end, IsNested(Region(name, n.value), s.newRegions)),
                    0, n.value.start))
    else None
  }

  /** Lines as `numstat` counts them: one for each byte that is a newline, and one for a
      last line that has none. */
  function LinesOf(b: Text): nat {
    multiset(b)[10] + if b != [] && b[|b| - 1] != 10 then 1 else 0
  }

  lemma {:induction false} CountLinesIs(b: Text)
    ensures CountLines(b) == LinesOf(b)
    ensures CountLines(b) == 0 <==> b == []
  {
    if b != [] {
      var r := b[1..];
      CountLinesIs(r);
      assert b == [b[0]] + r;
      assert r != [] ==> r[|r| - 1] == b[|b| - 1];
    }
  }

  ghost function OwnText(src: Text, regions: seq<Region>, name: string): Text
    requires InSource(src, regions)
  {
    var e := Indexed(regions, name);
    if e.None? then [] else IndexedInSource(src, regions, name); Owned(src, Region(name, e.value), regions, e.value.start, e.value.end)
  }

  /** What a region that only one side has counts for: its own lines, and a blank line it takes. */
  ghost function OneSided(src: Text, regions: seq<Region>, name: string): nat
    requires InSource(src, regions) && Indexed(regions, name).Some?
  {
    IndexedInSource(src, regions, name);
    var e := Indexed(regions, name).value;
    LinesOf(OwnText(src, regions, name)) +
    if TakesBlank(src, e, exists r <- regions :: r.name != name && r.ext.start <= e.start && e.end <= r.ext.end) then 1 else 0
  }

  /** A name gets a row exactly when bytes that are its own changed. The row speaks for those
      bytes alone: the differ's answer on them when both sides have the name; else every line
      of them, and the blank line the region takes, on the one side that has it. It is a
      deletion exactly when the new side lacks the name, and stands where the name last stood. */
  lemma RowMeans(s: Sides, name: string)
    requires SidesOK(s)
    ensures
      var o, n := Indexed(s.oldRegions, name), Indexed(s.newRegions, name);
      var was, now := OwnText(s.oldSrc, s.oldRegions, name), OwnText(s.newSrc, s.newRegions, name);
      var row := RowFor(s, name);
      && (o.Some? && n.Some? ==> (row.Some? <==> s.diff(was, now) != (0, 0)))
      && (!(o.Some? && n.Some?) ==> (row.Some? <==> was != [] || now != []))
      && (row.Some? ==>
            && row.value.symbol == name && (row.value.status.Deleted? <==> n.None?) && !row.value.status.Unanchorable?
            && row.value.pos == (if n.Some? then n.value.start else o.value.start)
            && (o.Some? && n.Some? ==> (row.value.added, row.value.deleted) == s.diff(was, now))
            && (o.None? ==> row.value.deleted == 0 && row.value.added == OneSided(s.newSrc, s.newRegions, name))
            && (n.None? ==> row.value.added == 0 && row.value.deleted == OneSided(s.oldSrc, s.oldRegions, name)))
  {
    hide Owned, Indexed, CountLines, LinesOf, SeparatorLines, IsNested, TakesBlank;
    CountLinesIs(OwnText(s.oldSrc, s.oldRegions, name));
    CountLinesIs(OwnText(s.newSrc, s.newRegions, name));
    var o, n := Indexed(s.oldRegions, name), Indexed(s.newRegions, name);
    if o.Some? {
      IndexedInSource(s.oldSrc, s.oldRegions, name);
      HeldByOther(s.oldRegions, name, o.value);
      SeparatorIs(s.oldSrc, o.value, IsNested(Region(name, o.value), s.oldRegions));
    }
    if n.Some? {
      IndexedInSource(s.newSrc, s.newRegions, name);
      HeldByOther(s.newRegions, name, n.value);
      SeparatorIs(s.newSrc, n.value, IsNested(Region(name, n.value), s.newRegions));
    }
  }

  lemma HeldByOther(regions: seq<Region>, name: string, e: Extent)
    ensures IsNested(Region(name, e), regions) <==>
            exists r <- regions :: r.name != name && r.ext.start <= e.start && e.end <= r.ext.end
  {
  }

  /** Several regions may bear one name; the last of them is the one that counts. */
  lemma {:induction false} IndexedIsLast(regions: seq<Region>, name: string)
    ensures Indexed(regions, name).None? <==> forall r <- regions :: r.name != name
    ensures forall i :: 0 <= i < |regions| && regions[i].name == name && (forall j :: i < j < |regions| ==> regions[j].name != name)
              ==> Indexed(regions, name) == Some(regions[i].ext)
  {
    if regions != [] {
      var before := regions[..|regions| - 1];
      IndexedIsLast(before, name);
      assert regions == before + [regions[|regions| - 1]];
      assert forall i :: 0 <= i < |before| ==> before[i] == regions[i];
    }
  }

  /** Rows for the names in order, each name once. */
  ghost function RowsFor(s: Sides, regions: seq<Region>): seq<Row>
    requires SidesOK(s)
  {
    if regions == [] then []
    else
      var before, name := regions[..|regions| - 1], regions[|regions| - 1].name;
      RowsFor(s, before) +
      if Listed(before, name) || RowFor(s, name).None? then [] else [RowFor(s, name).value]
  }

  ghost predicate Listed(regions: seq<Region>, name: string) {
    exists r <- regions :: r.name == name
  }

  // ----- notices of containers that would be staged whole -----

  /** The new container that committing `name` is said to bring along. */
  method NewlyEscalatedContainer(s: Sides, name: string) returns (container: Option<string>)
    ensures container == NewContainer(s, name)
  {
    if s.flatContainer {
      return None;
    }
    var member := Lookup(s.newTable, name);
    if !member.Found? || member.res.container == "" {
      return None;
    }
    var outer := Lookup(s.newTable, member.res.EnclosingName());
    if !outer.Found? || outer.res.extent.start > member.res.extent.start || member.res.extent.end > outer.res.extent.end {
      return None;
    }
    if Lookup(s.oldTable, member.res.EnclosingName()).Found? {
      return None;
    }
    return Some(member.res.EnclosingName());
  }

  function NewContainer(s: Sides, name: string): Option<string> {
    match Lookup(s.newTable, name)
    case Found(member) =>
      if s.flatContainer || member.container == "" then None
      else (match Lookup(s.newTable, member.EnclosingName())
            case Found(outer) =>
              if member.extent.Within(outer.extent) && !Lookup(s.oldTable, member.EnclosingName()).Found?
              then Some(member.EnclosingName()) else None
            case _ => None)
    case _ => None
  }

  /** Staging sees the same two sides. */
  predicate SameFile(s: Sides, p: Sources) {
    && p.headExists && p.workExists && p.head == s.oldTable && p.work == s.newTable && p.flatContainer == s.flatContainer
  }

  /** The listing names a container exactly when staging would widen the symbol to it. */
  lemma NoticeIsEscalation(s: Sides, p: Sources, name: string)
    requires SameFile(s, p)
    ensures
      var notice, w := NewContainer(s, name), Lookup(p.work, name);
      && (notice.Some? <==> w.Found? && Escalation(p, w.res).Widened? && Escalation(p, w.res).escalated)
      && (notice.Some? ==> notice.value == w.res.EnclosingName() && Lookup(p.work, notice.value).Found?
                           && Escalation(p, w.res).res == Lookup(p.work, notice.value).res)
  {
    var w := Lookup(p.work, name);
    if w.Found? {
      EscalationMeans(p, w.res);
    }
  }

  /** So a notice is borne out, the whole container staged for the symbol, exactly when the
      old side does not resolve the symbol's name at all. */
  lemma NoticeBorneOutIff(s: Sides, p: Sources, name: string)
    requires SameFile(s, p) && p.Valid() && NewContainer(s, name).Some?
    requires !Lookup(p.head, name).Broken?
    ensures Lookup(p.work, NewContainer(s, name).value).Found?
    ensures
      var c, outer := Classification(p, name), Lookup(p.work, NewContainer(s, name).value).res.extent;
      (c.Planned? && c.op.kind.Insert? && c.op.wstart == outer.start && c.op.wend == outer.end)
      <==> Lookup(p.head, name).Unresolvable?
  {
    hide Escalation, NewContainer, Position, LineStart, RunBefore, RunAfter, Sources.Valid;
    NoticeIsEscalation(s, p, name);
  }

  /** The notices for the names in order, each name once. */
  ghost function NoticesFor(s: Sides, regions: seq<Region>): seq<(string, string)>
    requires SidesOK(s)
  {
    if regions == [] then []
    else
      var before, name := regions[..|regions| - 1], regions[|regions| - 1].name;
      NoticesFor(s, before) + if Listed(before, name) then [] else NoticeFor(s, name)
  }

  /** A symbol that is new, has a row, and would bring a new container. */
  ghost function NoticeFor(s: Sides, name: string): seq<(string, string)>
    requires SidesOK(s)
  {
    if Indexed(s.oldRegions, name).None? && RowFor(s, name).Some? && NewContainer(s, name).Some?
    then [(name, NewContainer(s, name).value)] else []
  }

  /** There is a notice exactly for each listed name that is new, has text of its own, and
      would bring a new container; and for each only one. */
  lemma {:induction false} NoticesMean(s: Sides, regions: seq<Region>, name: string, container: string)
    requires SidesOK(s)
    ensures (name, container) in NoticesFor(s, regions) <==>
            && Listed(regions, name) && Indexed(s.oldRegions, name).None?
            && OwnText(s.newSrc, s.newRegions, name) != [] && NewContainer(s, name) == Some(container)
    ensures multiset(NoticesFor(s, regions))[(name, container)] <= 1
  {
    hide RowFor, Indexed, NewContainer, OwnText;
    if regions != [] {
      var before, last := regions[..|regions| - 1], regions[|regions| - 1].name;
      assert regions == before + [regions[|regions| - 1]];
      NoticesMean(s, before, name, container);
      NewRowIff(s, name);
      assert (name, container) in NoticesFor(s, before) <==> multiset(NoticesFor(s, before))[(name, container)] > 0;
      assert Listed(regions, name) <==> Listed(before, name) || name == last;
    }
  }

  lemma NewRowIff(s: Sides, name: string)
    requires SidesOK(s)
    ensures Indexed(s.oldRegions, name).None? ==>
              (RowFor(s, name).Some? <==> OwnText(s.newSrc, s.newRegions, name) != [])
  {
    RowMeans(s, name);
  }

  function SumAdded(rows: seq<Row>): nat {
    if rows == [] then 0 else rows[0].added + SumAdded(rows[1..])
  }

  function SumDeleted(rows: seq<Row>): nat {
    if rows == [] then 0 else rows[0].deleted + SumDeleted(rows[1..])
  }

  function Position(row: Row): int {
    row.pos
  }

  /** The listing: rows in file order, then what git counted and no symbol owns. */
  ghost function Report(s: Sides, totalAdded: nat, totalDeleted: nat): seq<Row>
    requires SidesOK(s)
  {
    var rows := RowsFor(s, s.oldRegions + s.newRegions);
    StableSort(rows, Position) + Remainder(rows, totalAdded, totalDeleted)
  }

  function Remainder(rows: seq<Row>, totalAdded: nat, totalDeleted: nat): seq<Row> {
    var a := if totalAdded > SumAdded(rows) then totalAdded - SumAdded(rows) else 0;
    var d := if totalDeleted > SumDeleted(rows) then totalDeleted - SumDeleted(rows) else 0;
    if a > 0 || d > 0 then [Row("", Unanchorable, a, d, 0)] else []
  }

  method FindRegion(regions: seq<Region>, name: string) returns (ext: Option<Extent>)
    ensures ext == Indexed(regions, name)
  {
    var k := |regions|;
    assert regions[..k] == regions;
    while k > 0
      invariant 0 <= k <= |regions| && Indexed(regions[..k], name) == Indexed(regions, name)
    {
      k := k - 1;
      assert regions[..k + 1][..k] == regions[..k];
      if regions[k].name == name {
        return Some(regions[k].ext);
      }
    }
    return None;
  }

  method Nested(r: Region, siblings: seq<Region>) returns (yes: bool)
    ensures yes <==> IsNested(r, siblings)
  {
    for k := 0 to |siblings|
      invariant !IsNested(r, siblings[..k])
    {
      var s := siblings[k];
      assert siblings[..k + 1] == siblings[..k] + [s];
      assert s in siblings;
      if s.name == r.name {
        continue;
      }
      if r.ext.start >= s.ext.start && r.ext.end <= s.ext.end {
        return true;
      }
    }
    assert siblings[..|siblings|] == siblings;
    return false;
  }

  /** One name's row, from both sides, and its notice. */
  method Handle(s: Sides, name: string) returns (row: Option<Row>, notice: Option<string>)
    requires SidesOK(s)
    ensures row == RowFor(s, name)
    ensures NoticeFor(s, name) == if notice.Some? then [(name, notice.value)] else []
  {
    hide Owned, SeparatorLines, CountLines, IsNested, Indexed, NewContainer;
    var o := FindRegion(s.oldRegions, name);
    var n := FindRegion(s.newRegions, name);
    if o.Some? {
      IndexedInSource(s.oldSrc, s.oldRegions, name);
    }
    if n.Some? {
      IndexedInSource(s.newSrc, s.newRegions, name);
    }
    if o.Some? && n.Some? {
      var oldText := ExclusiveText(s.oldSrc, Region(name, o.value), s.oldRegions);
      var newText := ExclusiveText(s.newSrc, Region(name, n.value), s.newRegions);
      var (added, deleted) := s.diff(oldText, newText);
      if added == 0 && deleted == 0 {
        return None, None;
      }
      return Some(Row(name, Modified, added, deleted, n.value.start)), None;
    }
    if o.Some? {
      var self := Region(name, o.value);
      var text := ExclusiveText(s.oldSrc, self, s.oldRegions);
      var deleted := CountLines(text);
      if deleted == 0 {
        return None, None;
      }
      var member := Nested(self, s.oldRegions);
      var blank := CountSeparatorLines(s.oldSrc, self.ext.start, self.ext.end, member);
      return Some(Row(name, Deleted, 0, deleted + blank, self.ext.start)), None;
    }
    if n.Some? {
      var self := Region(name, n.value);
      var text := ExclusiveText(s.newSrc, self, s.newRegions);
      var added := CountLines(text);
      if added == 0 {
        return None, None;
      }
      var member := Nested(self, s.newRegions);
      var blank := CountSeparatorLines(s.newSrc, self.ext.start, self.ext.end, member);
      row := Some(Row(name, Modified, added + blank, 0, self.ext.start));
      notice := NewlyEscalatedContainer(s, name);
      return;
    }
    return None, None;
  }

  /** The loop over both sides' names, each handled once, with running totals. */
  method CollectRows(s: Sides, regions: seq<Region>)
    returns (rows: seq<Row>, notices: seq<(string, string)>, added: nat, deleted: nat)
    requires SidesOK(s)
    ensures rows == RowsFor(s, regions) && added == SumAdded(rows) && deleted == SumDeleted(rows)
    ensures notices == NoticesFor(s, regions)
  {
    hide RowFor, NoticeFor, SumAdded, SumDeleted, SidesOK;
    rows, notices, added, deleted := [], [], 0, 0;
    NoRows();
    var seen: set<string> := {};
    for k := 0 to |regions|
      invariant rows == RowsFor(s, regions[..k]) && added == SumAdded(rows) && deleted == SumDeleted(rows)
      invariant notices == NoticesFor(s, regions[..k])
      invariant forall name :: name in seen <==> Listed(regions[..k], name)
    {
      var name := regions[k].name;
      ListedGrows(regions, k);
      assert regions[..k + 1][..k] == regions[..k];
      if name !in seen {
        seen := seen + {name};
        var row, notice := Handle(s, name);
        if notice.Some? {
          notices := notices + [(name, notice.value)];
        }
        if row.Some? {
          SumsAppend(rows, [row.value]);
          OneRow(row.value);
          rows, added, deleted := rows + [row.value], added + row.value.added, deleted + row.value.deleted;
        }
      }
    }
    assert regions[..|regions|] == regions;
  }

  lemma NoRows()
    ensures SumAdded([]) == 0 && SumDeleted([]) == 0
  {
  }

  lemma OneRow(row: Row)
    ensures SumAdded([row]) == row.added && SumDeleted([row]) == row.deleted
  {
    assert [row][1..] == [];
  }

  lemma ListedGrows(regions: seq<Region>, k: nat)
    requires k < |regions|
    ensures forall name :: Listed(regions[..k + 1], name) <==> Listed(regions[..k], name) || name == regions[k].name
  {
    assert regions[..k + 1] == regions[..k] + [regions[k]];
    assert regions[k] in regions[..k + 1];
    forall name
      ensures Listed(regions[..k], name) ==> Listed(regions[..k + 1], name)
    {
      if Listed(regions[..k], name) {
        var r :| r in regions[..k] && r.name == name;
        assert r in regions[..k + 1];
      }
    }
  }

  method AttributeSymbols(s: Sides, totalAdded: nat, totalDeleted: nat)
    returns (report: seq<Row>, notices: seq<(string, string)>)
    requires SidesOK(s)
    ensures report == Report(s, totalAdded, totalDeleted)
    ensures notices == NoticesFor(s, s.oldRegions + s.newRegions)
  {
    hide RowsFor, NoticesFor, StableSort, SumAdded, SumDeleted, SidesOK;
    var rows, accAdded, accDeleted;
    rows, notices, accAdded, accDeleted := CollectRows(s, s.oldRegions + s.newRegions);
    var unAdded: int := totalAdded - accAdded;
    var unDeleted: int := totalDeleted - accDeleted;
    if unAdded < 0 {
      unAdded := 0;
    }
    if unDeleted < 0 {
      unDeleted := 0;
    }
    report := StableSort(rows, Position);
    if unAdded > 0 || unDeleted > 0 {
      report := report + [Row("", Unanchorable, unAdded, unDeleted, 0)];
    } else {
      assert report + [] == report;
    }
  }

  lemma {:induction false} SumsAppend(a: seq<Row>, b: seq<Row>)
    ensures SumAdded(a + b) == SumAdded(a) + SumAdded(b) && SumDeleted(a + b) == SumDeleted(a) + SumDeleted(b)
  {
    if a == [] {
      assert a + b == b;
    } else {
      assert (a + b)[1..] == a[1..] + b;
      SumsAppend(a[1..], b);
    }
  }

  lemma {:induction false} SumsInsert(x: Row, s: seq<Row>)
    ensures SumAdded(InsertByKey(x, s, Position)) == SumAdded(s) + x.added
    ensures SumDeleted(InsertByKey(x, s, Position)) == SumDeleted(s) + x.deleted
  {
    if s == [] || Position(x) < Position(s[0]) {
      assert ([x] + s)[1..] == s;
    } else {
      SumsInsert(x, s[1..]);
    }
  }

  lemma {:induction false} SumsSorted(s: seq<Row>)
    ensures SumAdded(StableSort(s, Position)) == SumAdded(s) && SumDeleted(StableSort(s, Position)) == SumDeleted(s)
  {
    if s != [] {
      var x, r := s[|s| - 1], s[..|s| - 1];
      assert s == r + [x];
      SumsSorted(r);
      SumsInsert(x, StableSort(r, Position));
      SumsAppend(r, [x]);
    }
  }

  /** The listing is in file order, rows at one place in the order they were found, and
      nothing is dropped; git's remainder comes last. */
  lemma ReportInOrder(s: Sides, totalAdded: nat, totalDeleted: nat)
    requires SidesOK(s)
    ensures
      var found, report := RowsFor(s, s.oldRegions + s.newRegions), Report(s, totalAdded, totalDeleted);
      && |found| <= |report| <= |found| + 1
      && multiset(report[..|found|]) == multiset(found)
      && (forall i, j :: 0 <= i < j < |found| ==> report[i].pos <= report[j].pos)
      && (forall p :: WithKey(report[..|found|], Position, p) == WithKey(found, Position, p))
      && (|report| > |found| ==> report[|found|].status.Unanchorable?)
      && (|report| > |found| <==> totalAdded > SumAdded(found) || totalDeleted > SumDeleted(found))
  {
    hide RowsFor, StableSort;
    var found := RowsFor(s, s.oldRegions + s.newRegions);
    StableSortCorrect(found, Position);
    var sorted, rest := StableSort(found, Position), Remainder(found, totalAdded, totalDeleted);
    assert |multiset(sorted)| == |multiset(found)|;
    assert (sorted + rest)[..|found|] == sorted;
  }

  /** On each side the emitted rows sum to git's own total, or to what symbols were
      attributed when that is more; and they sum to git's total exactly when symbols
      were not attributed more than it. */
  lemma RowsSumToTotal(s: Sides, totalAdded: nat, totalDeleted: nat)
    requires SidesOK(s)
    ensures
      var attributed := RowsFor(s, s.oldRegions + s.newRegions);
      var report := Report(s, totalAdded, totalDeleted);
      && SumAdded(report) == (if totalAdded > SumAdded(attributed) then totalAdded else SumAdded(attributed))
      && SumDeleted(report) == (if totalDeleted > SumDeleted(attributed) then totalDeleted else SumDeleted(attributed))
      && (SumAdded(report) == totalAdded <==> SumAdded(attributed) <= totalAdded)
      && (SumDeleted(report) == totalDeleted <==> SumDeleted(attributed) <= totalDeleted)
  {
    hide StableSort, RowsFor;
    var rows := RowsFor(s, s.oldRegions + s.newRegions);
    SumsSorted(rows);
    var rest := Remainder(rows, totalAdded, totalDeleted);
    SumsAppend(StableSort(rows, Position), rest);
    if rest != [] {
      assert rest[1..] == [];
    }
  }
}
