/** The boot information left by the loader (section 3.6 of the Multiboot2 specification), as 32-bit
    cells: what a walk over its tags reads, and the layout a loader writes. */
module BootInfo {
  import opened Words
  import opened ReservedSpans

  const ELF_SECTIONS: u32 := 9
  const MEMORY_MAP: u32 := 6

  /** The remainder of the source, which has the sign of the dividend. */
  function Rem8(val: int): int {
    if 0 <= val then val % 8 else -(-val % 8)
  }

  /** Padding of a signed number. */
  function Padd8(val: int): (r: int)
    ensures 0 <= val ==> r % 8 == 0 && val <= r < val + 8
  {
    if Rem8(val) == 0 then val else val + (8 - Rem8(val))
  }

  /** `r` is the least multiple of 8 at or above `size`. */
  predicate IsPadded(size: u32, r: int) {
    r % 8 == 0 && size <= r < size + 8
  }

  /** A size is padded right if and only if it is no negative number, or needs no padding. */
  lemma PaddedIff(size: u32)
    ensures IsPadded(size, Padd8(Signed(size)) % U32) <==> size < INT_END || size % 8 == 0
  {
    if size >= INT_END {
      var k, r := (U32 - size) / 8, (U32 - size) % 8;
      assert Signed(size) == -(8 * k + r);
      Rem8Is(k, r);
      if r == 0 {
        WholeEights(0x2000_0000 - k, 0);
      } else {
        WholeEights(0x2000_0000 - k - 1, 8 - r);
        PastTheEnd(size);
      }
    } else {
      PaddedBelow(size, Padd8(size));
    }
  }

  /** The sum is too far behind the size, or wraps round to before it. */
  lemma PastTheEnd(size: u32)
    requires size % 8 != 0 && Padd8(Signed(size)) == size - U32 + 8 + (U32 - size) % 8
    requires INT_END <= size
    ensures !IsPadded(size, Padd8(Signed(size)) % U32)
  {
  }

  lemma PaddedBelow(size: u32, r: int)
    requires r % 8 == 0 && size <= r < size + 8 && size < INT_END
    ensures IsPadded(size, r % U32)
  {
  }

  lemma WholeEights(q: nat, r: nat)
    requires r < 8
    ensures (8 * q + r) % 8 == r
  {
  }

  lemma Rem8Is(k: int, r: int)
    requires 0 <= k && 0 <= r < 8
    ensures Rem8(-(8 * k + r)) == -r
  {
  }

  /** The padded size of a huge tag comes out 12 bytes behind it. */
  lemma HugeTagIsPaddedWrong()
    ensures Padd8(Signed(0x8000_0004)) % U32 == 0x8000_0010
  {
  }

  /** Two consecutive cells read as one 64-bit value. */
  function Long(b: seq<u32>, w: nat): u64
    requires w + 1 < |b|
  {
    b[w] + U32 * b[w + 1]
  }

  // ---------------------------------------------------------------- what the walk reads
  // A tag at cell w holds its type at w, its size in bytes at w + 1 and its data from w + 2.

  predicate ElfFits(size: u32, entries: u32, entrySize: u32) {
    20 <= size && (entrySize == 64 ==> 20 + 64 * entries <= size)
  }

  predicate MapFits(size: u32, entrySize: u32, version: u32) {
    16 <= size && (entrySize == 24 && version == 0 ==> (size - 16) % 24 == 0)
  }

  predicate TagFits(b: seq<u32>, w: nat) {
    && 4 * |b| < INT_END && w + 2 <= |b| && 8 <= b[w + 1] && w + Padd8(b[w + 1]) / 4 <= |b|
    && (b[w] == ELF_SECTIONS ==> w + 5 <= |b| && ElfFits(b[w + 1], b[w + 2], b[w + 3]))
    && (b[w] == MEMORY_MAP ==> w + 4 <= |b| && MapFits(b[w + 1], b[w + 2], b[w + 3]))
  }

  function NextTag(b: seq<u32>, w: nat): (next: nat)
    requires TagFits(b, w)
    ensures w + 2 <= next <= |b|
  {
    w + Padd8(b[w + 1]) / 4
  }

  predicate WalkFits(b: seq<u32>, w: nat)
    decreases |b| - w
  {
    w >= |b| || (TagFits(b, w) && WalkFits(b, NextTag(b, w)))
  }

  /** The cells at which the walk finds a tag, in order. */
  function Visits(b: seq<u32>, w: nat): seq<nat>
    requires WalkFits(b, w)
    decreases |b| - w
  {
    if w >= |b| then [] else [w] + Visits(b, NextTag(b, w))
  }

  /** The address and size of each of the `n` 64-byte section headers from cell `w` on. */
  function ElfEntries(b: seq<u32>, w: nat, n: nat): seq<Span>
    requires w + 16 * n <= |b|
  {
    seq(n, i requires 0 <= i < n => Span(Long(b, w + 16 * i + 4), Long(b, w + 16 * i + 8)))
  }

  /** A range of physical addresses with its type; type 1 is usable memory. */
  datatype Region = Region(start: nat, size: nat, kind: u32) {
    function End(): nat {
      start + size
    }
  }

  /** Each of the `n` 24-byte memory-map entries from cell `w` on. */
  function MapEntries(b: seq<u32>, w: nat, n: nat): seq<Region>
    requires w + 6 * n <= |b|
  {
    seq(n, i requires 0 <= i < n => Region(Long(b, w + 6 * i), Long(b, w + 6 * i + 2), b[w + 6 * i + 4]))
  }

  function TagSections(b: seq<u32>, w: nat): seq<Span>
    requires TagFits(b, w)
  {
    if b[w] == ELF_SECTIONS && b[w + 3] == 64 then ElfEntries(b, w + 5, b[w + 2]) else []
  }

  function TagRegions(b: seq<u32>, w: nat): seq<Region>
    requires TagFits(b, w)
  {
    if b[w] == MEMORY_MAP && b[w + 2] == 24 && b[w + 3] == 0
    then MapEntries(b, w + 4, (b[w + 1] - 16) / 24) else []
  }

  function Sections(b: seq<u32>, w: nat): seq<Span>
    requires WalkFits(b, w)
    decreases |b| - w
  {
    if w >= |b| then [] else TagSections(b, w) + Sections(b, NextTag(b, w))
  }

  function Regions(b: seq<u32>, w: nat): seq<Region>
    requires WalkFits(b, w)
    decreases |b| - w
  {
    if w >= |b| then [] else TagRegions(b, w) + Regions(b, NextTag(b, w))
  }

  /** In numbers: sections come only from a tag of type 9 with headers of 64 bytes, regions only from one
      of type 6 with entries of 24 bytes and version 0. */
  lemma OtherTagsGiveNothing(b: seq<u32>, w: nat)
    requires TagFits(b, w)
    ensures TagSections(b, w) == [] <==> b[w] != 9 || b[w + 3] != 64 || b[w + 2] == 0
    ensures TagRegions(b, w) == [] <==> b[w] != 6 || b[w + 2] != 24 || b[w + 3] != 0 || b[w + 1] == 16
  {
    if b[w] == 6 && b[w + 2] == 24 && b[w + 3] == 0 {
      assert b[w + 1] != 16 ==> (b[w + 1] - 16) / 24 > 0;
    }
  }

  // ---------------------------------------------------------------- what a loader writes

  function Halves(v: u64): seq<u32> {
    [v % U32, v / U32]
  }

  /** A 64-byte section header: 16 cells, of which the walk uses the address and the size. */
  datatype Section = Section(name: seq<u32>, addr: u64, offset: seq<u32>, size: u64, rest: seq<u32>) {
    predicate Wf() {
      |name| == 4 && |offset| == 2 && |rest| == 6
    }

    function Cells(): (r: seq<u32>)
      requires Wf()
      ensures |r| == 16
    {
      name + Halves(addr) + offset + Halves(size) + rest
    }
  }

  datatype MapEntry = MapEntry(addr: u64, length: u64, kind: u32, reserved: u32) {
    function Cells(): (r: seq<u32>)
      ensures |r| == 6
    {
      Halves(addr) + Halves(length) + [kind, reserved]
    }
  }

  datatype Tag =
    | Elf(shndx: u32, sections: seq<Section>, padding: u32)
    | MemMap(entries: seq<MapEntry>)
    | Other(kind: u32, size: u32, payload: seq<u32>)
  {
    ghost predicate Wf() {
      match this
      case Elf(_, sections, _) => 20 + 64 * |sections| < U32 && forall s :: s in sections ==> s.Wf()
      case MemMap(entries) => 16 + 24 * |entries| < U32
      case Other(kind, size, payload) =>
        kind != ELF_SECTIONS && kind != MEMORY_MAP && 8 <= size && 8 + 4 * |payload| == Padd8(size)
    }

    /** The cells of the tag, padded to a multiple of 8 bytes. */
    ghost function Cells(): (r: seq<u32>)
      requires Wf()
    {
      match this
      case Elf(shndx, sections, padding) =>
        [ELF_SECTIONS, 20 + 64 * |sections|, |sections|, 64, shndx] + SectionCells(sections) + [padding]
      case MemMap(entries) => [MEMORY_MAP, 16 + 24 * |entries|, 24, 0] + EntryCells(entries)
      case Other(kind, size, payload) => [kind, size] + payload
    }

    ghost function Sections(): seq<Span> {
      if Elf? then SectionSpans(sections) else []
    }

    ghost function Regions(): seq<Region> {
      if MemMap? then EntryRegions(entries) else []
    }
  }

  ghost function SectionCells(ss: seq<Section>): (r: seq<u32>)
    requires forall s :: s in ss ==> s.Wf()
    ensures |r| == 16 * |ss|
  {
    if ss == [] then [] else ss[0].Cells() + SectionCells(ss[1..])
  }

  ghost function SectionSpans(ss: seq<Section>): seq<Span> {
    seq(|ss|, i requires 0 <= i < |ss| => Span(ss[i].addr, ss[i].size))
  }

  ghost function EntryCells(es: seq<MapEntry>): (r: seq<u32>)
    ensures |r| == 6 * |es|
  {
    if es == [] then [] else es[0].Cells() + EntryCells(es[1..])
  }

  ghost function EntryRegions(es: seq<MapEntry>): seq<Region> {
    seq(|es|, i requires 0 <= i < |es| => Region(es[i].addr, es[i].length, es[i].kind))
  }

  ghost predicate AllWf(tags: seq<Tag>) {
    forall t :: t in tags ==> t.Wf()
  }

  ghost function TagCells(tags: seq<Tag>): seq<u32>
    requires AllWf(tags)
  {
    if tags == [] then [] else tags[0].Cells() + TagCells(tags[1..])
  }

  ghost function Starts(tags: seq<Tag>, w: nat): seq<nat>
    requires AllWf(tags)
  {
    if tags == [] then [] else [w] + Starts(tags[1..], w + |tags[0].Cells()|)
  }

  ghost function AllSections(tags: seq<Tag>): seq<Span> {
    if tags == [] then [] else tags[0].Sections() + AllSections(tags[1..])
  }

  ghost function AllRegions(tags: seq<Tag>): seq<Region> {
    if tags == [] then [] else tags[0].Regions() + AllRegions(tags[1..])
  }

  // ---------------------------------------------------------------- reading back what was written

  lemma SliceOfSlice<T>(b: seq<T>, lo: nat, hi: nat, i: nat, j: nat)
    requires lo <= hi <= |b| && i <= j <= hi - lo
    ensures b[lo..hi][i..j] == b[lo + i..lo + j]
  {
    forall k | 0 <= k < j - i ensures b[lo..hi][i..j][k] == b[lo + i..lo + j][k] {
      assert b[lo..hi][i + k] == b[lo + (i + k)];
    }
  }

  lemma SplitAt<T>(b: seq<T>, w: nat, front: seq<T>, rest: seq<T>)
    requires w <= |b| && b[w..] == front + rest
    ensures w + |front| <= |b| && b[w..w + |front|] == front && b[w + |front|..] == rest
  {
    assert b == b[..w] + front + rest;
  }

  lemma SectionReadBack(b: seq<u32>, w: nat, s: Section)
    requires s.Wf() && w + 16 <= |b| && b[w..w + 16] == s.Cells()
    ensures Long(b, w + 4) == s.addr && Long(b, w + 8) == s.size
  {
    var cells := b[w..w + 16];
    assert cells[4] == s.addr % U32 && cells[5] == s.addr / U32;
    assert cells[8] == s.size % U32 && cells[9] == s.size / U32;
  }

  lemma ElfEntriesFirst(b: seq<u32>, w: nat, n: nat)
    requires 0 < n && w + 16 * n <= |b|
    ensures ElfEntries(b, w, n) == [Span(Long(b, w + 4), Long(b, w + 8))] + ElfEntries(b, w + 16, n - 1)
  {
    forall i | 0 < i < n ensures ElfEntries(b, w, n)[i] == ElfEntries(b, w + 16, n - 1)[i - 1] {
      assert w + 16 * i == w + 16 + 16 * (i - 1);
    }
  }

  lemma MapEntriesFirst(b: seq<u32>, w: nat, n: nat)
    requires 0 < n && w + 6 * n <= |b|
    ensures MapEntries(b, w, n) == [Region(Long(b, w), Long(b, w + 2), b[w + 4])] + MapEntries(b, w + 6, n - 1)
  {
    forall i | 0 < i < n ensures MapEntries(b, w, n)[i] == MapEntries(b, w + 6, n - 1)[i - 1] {
      assert w + 6 * i == w + 6 + 6 * (i - 1);
    }
  }

  lemma {:induction false} ElfEntriesReadBack(b: seq<u32>, w: nat, ss: seq<Section>)
    requires forall s :: s in ss ==> s.Wf()
    requires w + 16 * |ss| <= |b| && b[w..w + 16 * |ss|] == SectionCells(ss)
    ensures ElfEntries(b, w, |ss|) == SectionSpans(ss)
    decreases |ss|
  {
    if ss != [] {
      var n := 16 * |ss|;
      SliceOfSlice(b, w, w + n, 0, 16);
      SliceOfSlice(b, w, w + n, 16, n);
      SectionReadBack(b, w, ss[0]);
      ElfEntriesReadBack(b, w + 16, ss[1..]);
      ElfEntriesFirst(b, w, |ss|);
      assert SectionSpans(ss) == [Span(ss[0].addr, ss[0].size)] + SectionSpans(ss[1..]);
    }
  }

  lemma EntryReadBack(b: seq<u32>, w: nat, e: MapEntry)
    requires w + 6 <= |b| && b[w..w + 6] == e.Cells()
    ensures Long(b, w) == e.addr && Long(b, w + 2) == e.length && b[w + 4] == e.kind
  {
    var cells := b[w..w + 6];
    assert cells[0] == e.addr % U32 && cells[1] == e.addr / U32;
    assert cells[2] == e.length % U32 && cells[3] == e.length / U32 && cells[4] == e.kind;
  }

  lemma {:induction false} MapEntriesReadBack(b: seq<u32>, w: nat, es: seq<MapEntry>)
    requires w + 6 * |es| <= |b| && b[w..w + 6 * |es|] == EntryCells(es)
    ensures MapEntries(b, w, |es|) == EntryRegions(es)
    decreases |es|
  {
    if es != [] {
      var n := 6 * |es|;
      SliceOfSlice(b, w, w + n, 0, 6);
      SliceOfSlice(b, w, w + n, 6, n);
      EntryReadBack(b, w, es[0]);
      MapEntriesReadBack(b, w + 6, es[1..]);
      MapEntriesFirst(b, w, |es|);
      assert EntryRegions(es) == [Region(es[0].addr, es[0].length, es[0].kind)] + EntryRegions(es[1..]);
    }
  }

  /** A tag made of a few leading cells and a body. */
  lemma HeadAndBody(b: seq<u32>, w: nat, head: seq<u32>, body: seq<u32>)
    requires w + |head| + |body| <= |b| && b[w..w + |head| + |body|] == head + body
    ensures forall i :: 0 <= i < |head| ==> head[i] == b[w + i]
    ensures b[w..w + |head|] == head
    ensures b[w + |head|..w + |head| + |body|] == body
  {
    var n := |head| + |body|;
    SliceOfSlice(b, w, w + n, 0, |head|);
    SliceOfSlice(b, w, w + n, |head|, n);
    assert (head + body)[..|head|] == head && (head + body)[|head|..] == body;
    forall i | 0 <= i < |head| ensures head[i] == b[w + i] {
      assert head[i] == b[w..w + |head|][i];
    }
  }

  lemma ElfReadBack(b: seq<u32>, w: nat, t: Tag)
    requires t.Wf() && t.Elf? && 4 * |b| < INT_END
    requires w + |t.Cells()| <= |b| && b[w..w + |t.Cells()|] == t.Cells()
    ensures TagFits(b, w) && NextTag(b, w) == w + |t.Cells()|
    ensures TagSections(b, w) == t.Sections() && TagRegions(b, w) == []
  {
    hide TagFits, NextTag, TagSections, TagRegions, Padd8, Rem8, ElfEntries;
    var n := |t.sections|;
    var head: seq<u32> := [ELF_SECTIONS, 20 + 64 * n, n, 64, t.shndx];
    var cells := SectionCells(t.sections);
    assert t.Cells() == head + (cells + [t.padding]);
    assert |cells| == 16 * n;
    ElfPartsReadBack(b, w, t.sections, head, cells, [t.padding]);
  }

  lemma {:induction false} ElfPartsReadBack(b: seq<u32>, w: nat, ss: seq<Section>, head: seq<u32>, cells: seq<u32>,
                                            padding: seq<u32>)
    requires 20 + 64 * |ss| < U32 && (forall s :: s in ss ==> s.Wf()) && cells == SectionCells(ss)
    requires |head| == 5 && head[0] == ELF_SECTIONS && head[1] == 20 + 64 * |ss| && head[2] == |ss| && head[3] == 64
    requires |padding| == 1
    requires 4 * |b| < INT_END && w + 6 + |cells| <= |b| && b[w..w + 6 + |cells|] == head + (cells + padding)
    ensures TagFits(b, w) && NextTag(b, w) == w + 6 + |cells|
    ensures TagSections(b, w) == SectionSpans(ss) && TagRegions(b, w) == []
  {
    hide SectionCells, SectionSpans, ElfEntries, Padd8, Rem8, TagFits, TagSections, TagRegions;
    HeadAndBody(b, w, head, cells + padding);
    assert b[w] == head[0] && b[w + 1] == head[1] && b[w + 2] == head[2] && b[w + 3] == head[3];
    HeadAndBody(b, w + 5, cells, padding);
    ElfTagReadBack(b, w, ss);
  }

  lemma {:induction false} ElfTagReadBack(b: seq<u32>, w: nat, ss: seq<Section>)
    requires 20 + 64 * |ss| < U32 && (forall s :: s in ss ==> s.Wf())
    requires 4 * |b| < INT_END && w + 6 + 16 * |ss| <= |b| && b[w + 5..w + 5 + 16 * |ss|] == SectionCells(ss)
    requires b[w] == ELF_SECTIONS && b[w + 1] == 20 + 64 * |ss| && b[w + 2] == |ss| && b[w + 3] == 64
    ensures TagFits(b, w) && NextTag(b, w) == w + 6 + 16 * |ss|
    ensures TagSections(b, w) == SectionSpans(ss) && TagRegions(b, w) == []
  {
    hide SectionCells, SectionSpans, ElfEntries;
    ElfEntriesReadBack(b, w + 5, ss);
    ElfArithmetic(|ss|);
    hide Padd8, Rem8;
  }

  lemma ElfArithmetic(n: nat)
    ensures Padd8(20 + 64 * n) / 4 == 6 + 16 * n
  {
    assert 20 + 64 * n == 8 * (2 + 8 * n) + 4;
  }

  lemma MemMapReadBack(b: seq<u32>, w: nat, t: Tag)
    requires t.Wf() && t.MemMap? && 4 * |b| < INT_END
    requires w + |t.Cells()| <= |b| && b[w..w + |t.Cells()|] == t.Cells()
    ensures TagFits(b, w) && NextTag(b, w) == w + |t.Cells()|
    ensures TagSections(b, w) == [] && TagRegions(b, w) == t.Regions()
  {
    var n := |t.entries|;
    var head: seq<u32> := [MEMORY_MAP, 16 + 24 * n, 24, 0];
    HeadAndBody(b, w, head, EntryCells(t.entries));
    assert b[w] == head[0] && b[w + 1] == head[1] && b[w + 2] == head[2] && b[w + 3] == head[3];
    MapEntriesReadBack(b, w + 4, t.entries);
    MapArithmetic(n);
  }

  lemma MapArithmetic(n: nat)
    ensures Padd8(16 + 24 * n) == 16 + 24 * n && (16 + 24 * n) / 4 == 4 + 6 * n
    ensures 24 * n % 24 == 0 && 24 * n / 24 == n
  {
  }

  lemma TagReadBack(b: seq<u32>, w: nat, t: Tag)
    requires t.Wf() && 4 * |b| < INT_END && w + |t.Cells()| <= |b| && b[w..w + |t.Cells()|] == t.Cells()
    ensures TagFits(b, w) && NextTag(b, w) == w + |t.Cells()|
    ensures TagSections(b, w) == t.Sections() && TagRegions(b, w) == t.Regions()
  {
    match t
    case Elf(_, _, _) => ElfReadBack(b, w, t);
    case MemMap(_) => MemMapReadBack(b, w, t);
    case Other(_, _, _) =>
      var cells := b[w..w + |t.Cells()|];
      assert b[w] == cells[0] && b[w + 1] == cells[1];
  }

  lemma TagAndRest(b: seq<u32>, w: nat, t: Tag, rest: seq<u32>)
    requires t.Wf() && 4 * |b| < INT_END && w <= |b| && b[w..] == t.Cells() + rest
    ensures TagFits(b, w) && NextTag(b, w) == w + |t.Cells()| && b[NextTag(b, w)..] == rest
    ensures TagSections(b, w) == t.Sections() && TagRegions(b, w) == t.Regions()
  {
    SplitAt(b, w, t.Cells(), rest);
    TagReadBack(b, w, t);
  }

  lemma {:induction false} StartsStep(tags: seq<Tag>, w: nat, next: nat)
    requires AllWf(tags) && tags != [] && next == w + |tags[0].Cells()|
    ensures Starts(tags, w) == [w] + Starts(tags[1..], next)
  {
  }

  lemma {:induction false} TagsReadBack(b: seq<u32>, w: nat, tags: seq<Tag>)
    requires AllWf(tags) && 4 * |b| < INT_END && w <= |b| && b[w..] == TagCells(tags)
    ensures WalkFits(b, w) && Visits(b, w) == Starts(tags, w)
    ensures Sections(b, w) == AllSections(tags) && Regions(b, w) == AllRegions(tags)
    decreases |tags|
  {
    if tags != [] {
      TagAndRest(b, w, tags[0], TagCells(tags[1..]));
      var next := NextTag(b, w);
      TagsReadBack(b, next, tags[1..]);
      StartsStep(tags, w, next);
      assert Visits(b, w) == [w] + Visits(b, next);
    }
  }

  /** What a loader writes: the size of the whole in bytes, a reserved cell, and the tags. */
  ghost function Blob(tags: seq<Tag>, reserved: u32): seq<u32>
    requires AllWf(tags) && 8 + 4 * |TagCells(tags)| < INT_END
  {
    [8 + 4 * |TagCells(tags)|, reserved] + TagCells(tags)
  }

  /** The walk over what a loader wrote ends, stops at exactly the start of every tag in order, and
      reads back every section and every usable region. */
  lemma {:induction false} WalkReadsBack(tags: seq<Tag>, reserved: u32)
    requires AllWf(tags) && 8 + 4 * |TagCells(tags)| < INT_END
    ensures var b := Blob(tags, reserved);
            && b[0] == 4 * |b| && WalkFits(b, 2) && Visits(b, 2) == Starts(tags, 2)
            && Sections(b, 2) == AllSections(tags) && Regions(b, 2) == AllRegions(tags)
  {
    TagsReadBack(Blob(tags, reserved), 2, tags);
  }
}
