/** The boot parser: walks the boot information in memory and seeds the frame allocator, first with
    the spans that the kernel image occupies, then with the regions of usable memory. */
module BootParser {
  import opened Words
  import opened ReservedSpans
  import opened Frames
  import opened BootInfo

  const MAGIC: u32 := 0x36d76289

  /** The 32-bit cell at `a`, a multiple of 4: one half of the word it lies in. */
  function Cell(m: Memory, a: nat): u32 {
    if a % 8 == 4 then Word(m, a - 4) / U32 else Word(m, a) % U32
  }

  function Cell64(m: Memory, a: nat): u64 {
    Cell(m, a) + U32 * Cell(m, a + 4)
  }

  /** The boot information `b` stands in memory at `base`. */
  ghost predicate BlobAt(m: Memory, base: nat, b: seq<u32>) {
    base % 8 == 0 && forall i :: 0 <= i < |b| ==> b[i] == Cell(m, base + 4 * i)
  }

  lemma CellIs(m: Memory, base: nat, b: seq<u32>, i: nat)
    requires BlobAt(m, base, b) && i < |b|
    ensures Cell(m, base + 4 * i) == b[i]
  {
  }

  lemma LongIs(m: Memory, base: nat, b: seq<u32>, i: nat)
    requires BlobAt(m, base, b) && i + 1 < |b|
    ensures Cell64(m, base + 4 * i) == Long(b, i)
  {
    CellIs(m, base, b, i);
    CellIs(m, base, b, i + 1);
  }

  ghost predicate Avoids(pages: seq<u64>, base: nat, length: nat) {
    forall p :: p in pages ==> p + PAGE <= base || base + length <= p
  }

  lemma CellKept(m: Memory, m': Memory, base: nat, length: nat, a: nat, pages: seq<u64>)
    requires base % 8 == 0 && a % 4 == 0 && base <= a < base + length
    requires SameElsewhere(m, m', pages) && Avoids(pages, base, length)
    ensures Cell(m', a) == Cell(m, a)
  {
    var word := if a % 8 == 4 then a - 4 else a;
    assert word !in pages;
  }

  lemma FourthAligned(base: nat, i: nat)
    requires base % 8 == 0
    ensures (base + 4 * i) % 4 == 0
  {
  }

  lemma BlobKept(m: Memory, m': Memory, base: nat, b: seq<u32>, pages: seq<u64>)
    requires BlobAt(m, base, b)
    requires SameElsewhere(m, m', pages) && Avoids(pages, base, 4 * |b|)
    ensures BlobAt(m', base, b)
  {
    hide Cell, SameElsewhere, Avoids;
    forall i | 0 <= i < |b| ensures b[i] == Cell(m', base + 4 * i) {
      CellIs(m, base, b, i);
      FourthAligned(base, i);
      CellKept(m, m', base, 4 * |b|, base + 4 * i, pages);
    }
  }

  // ---------------------------------------------------------------- usable regions

  /** `p` is a page that adding the region appends: an eligible one inside it or, when it holds none, the
      first eligible one from its start on, which sticks out of it or lies behind it. */
  ghost predicate Takes(spans: seq<Span>, r: Region, p: nat) {
    if HoldsEligible(spans, r.start, r.End()) then Eligible(spans, p) && Inside(p, r.start, r.End())
    else IsLeastEligible(spans, r.start, p)
  }

  /** Usable regions the parser can take: no page is taken twice, none of them holds boot information,
      and the searches end. */
  ghost predicate Usable(spans: seq<Span>, regs: seq<Region>, base: nat, length: nat) {
    && Recordable(spans)
    && (forall i :: 0 <= i < |regs| && regs[i].kind == 1 ==>
          regs[i].End() <= TOP - PAGE && RegionEnds(spans, regs[i].start, regs[i].End()))
    && (forall i, j, p: nat :: 0 <= i < j < |regs| && regs[i].kind == 1 && regs[j].kind == 1 ==>
          !(Takes(spans, regs[i], p) && Takes(spans, regs[j], p)))
    && (forall i, p: nat :: 0 <= i < |regs| && regs[i].kind == 1 && Takes(spans, regs[i], p) ==>
          p + PAGE <= base || base + length <= p)
  }

  /** Every usable region holds an eligible page. */
  ghost predicate AllHold(spans: seq<Span>, regs: seq<Region>) {
    forall i :: 0 <= i < |regs| && regs[i].kind == 1 ==> HoldsEligible(spans, regs[i].start, regs[i].End())
  }

  /** Regions that lie apart and hold eligible pages take no page twice. */
  lemma ApartRegionsTakeOnce(spans: seq<Span>, r: Region, s: Region, p: nat)
    requires r.End() <= s.start || s.End() <= r.start
    requires HoldsEligible(spans, r.start, r.End()) && HoldsEligible(spans, s.start, s.End())
    ensures !(Takes(spans, r, p) && Takes(spans, s, p))
  {
    hide Eligible, HoldsEligible;
  }

  /** `p` is taken by one of the first `k` regions, a usable one. */
  ghost predicate FromRegion(p: nat, spans: seq<Span>, regs: seq<Region>, k: nat)
    requires k <= |regs|
  {
    exists i :: 0 <= i < k && regs[i].kind == 1 && Takes(spans, regs[i], p)
  }

  /** The list holds exactly the pages taken by the usable ones among the first `k` regions. */
  ghost predicate Harvest(free: seq<u64>, spans: seq<Span>, regs: seq<Region>, k: nat) {
    k <= |regs| && forall p: u64 :: p in free <==> FromRegion(p, spans, regs, k)
  }

  /** The allocator after the first `k` regions, with all it needs for those still to come. No word of
      the memory `first` changed but the links of listed frames. */
  ghost predicate Harvesting(frames: FrameAllocator, regs: seq<Region>, k: nat, base: nat, length: nat, first: Memory)
    reads frames, frames.ram, frames.reserved, frames.reserved.addresses, frames.reserved.sizes
  {
    && frames.Valid() && (frames.free == [] ==> frames.pageHead == 0) && frames.reserved.Valid()
    && Usable(frames.reserved.spans, regs, base, length) && Harvest(frames.free, frames.reserved.spans, regs, k)
    && SameElsewhere(first, frames.ram.words, frames.free)
  }

  lemma HarvestStep(free: seq<u64>, added: seq<u64>, spans: seq<Span>, regs: seq<Region>, k: nat)
    requires Harvest(free, spans, regs, k) && k < |regs|
    requires if regs[k].kind == 1 then forall p: u64 :: p in added <==> Takes(spans, regs[k], p) else added == []
    ensures Harvest(free + added, spans, regs, k + 1)
  {
    hide Takes;
    forall p: u64 ensures p in free + added <==> FromRegion(p, spans, regs, k + 1) {
      if FromRegion(p, spans, regs, k + 1) {
        var i :| 0 <= i < k + 1 && regs[i].kind == 1 && Takes(spans, regs[i], p);
        assert i < k ==> FromRegion(p, spans, regs, k);
      }
    }
  }

  /** What adding a region appends is what the region takes. */
  lemma AppendedIsTaken(added: seq<u64>, spans: seq<Span>, r: Region)
    requires Appended(added, spans, r.start, r.End())
    ensures forall p: u64 :: p in added <==> Takes(spans, r, p)
  {
    hide Eligible;
    if !HoldsEligible(spans, r.start, r.End()) {
      forall p: u64 | IsLeastEligible(spans, r.start, p) ensures p == added[0] {
        LeastIsOne(spans, r.start, p, added[0]);
      }
    }
  }

  lemma LeastIsOne(spans: seq<Span>, lo: nat, p: nat, q: nat)
    requires IsLeastEligible(spans, lo, p) && IsLeastEligible(spans, lo, q)
    ensures p == q
  {
    hide Eligible;
  }

  lemma NextRegionIsApart(free: seq<u64>, spans: seq<Span>, regs: seq<Region>, k: nat, base: nat, length: nat)
    requires Usable(spans, regs, base, length) && Harvest(free, spans, regs, k)
    requires k < |regs| && regs[k].kind == 1
    ensures Apart(free, spans, regs[k].start, regs[k].End())
  {
    hide Eligible, RegionEnds;
    forall p | p in free
      ensures !(Eligible(spans, p) && Inside(p, regs[k].start, regs[k].End())) && !IsLeastEligible(spans, regs[k].start, p)
    {
      assert FromRegion(p, spans, regs, k);
      assert !Takes(spans, regs[k], p);
      NotTaken(spans, regs[k], p);
    }
  }

  lemma NotTaken(spans: seq<Span>, r: Region, p: u64)
    requires !Takes(spans, r, p)
    ensures !(Eligible(spans, p) && Inside(p, r.start, r.End())) && !IsLeastEligible(spans, r.start, p)
  {
    hide Eligible;
    if HoldsEligible(spans, r.start, r.End()) {
      var q: u64 :| Eligible(spans, q) && Inside(q, r.start, r.End());
      assert IsLeastEligible(spans, r.start, p) ==> p <= q;
    }
  }

  // ---------------------------------------------------------------- the parsers of the two tags

  lemma {:induction false} AddAllAppend(spans: seq<Span>, a: seq<Span>, b: seq<Span>)
    requires Recordable(spans) && AllBelowTop(a) && AllBelowTop(b)
    ensures AllBelowTop(a + b) && AddAll(spans, a + b) == AddAll(AddAll(spans, a), b)
    decreases |a|
  {
    if a == [] {
      assert a + b == b;
    } else {
      assert (a + b)[1..] == a[1..] + b;
      AddAllAppend(AddSpan(spans, a[0]), a[1..], b);
    }
  }

  lemma SectionIs(b: seq<u32>, w: nat, i: nat, at: nat)
    requires TagFits(b, w) && i < |TagSections(b, w)| && at == w + 5 + 16 * i
    ensures at + 16 <= |b| && TagSections(b, w)[i] == Span(Long(b, at + 4), Long(b, at + 8))
  {
  }

  lemma {:induction false} ElfTagIs(b: seq<u32>, w: nat, spans: seq<Span>)
    requires TagFits(b, w) && b[w] == ELF_SECTIONS && Recordable(spans)
    ensures |TagSections(b, w)| == if b[w + 3] == 64 then b[w + 2] else 0
    ensures AddAll(spans, []) == spans
  {
  }

  lemma MapTagIs(b: seq<u32>, w: nat)
    requires TagFits(b, w) && b[w] == MEMORY_MAP
    ensures b[w + 2] == 24 && b[w + 3] == 0 ==> b[w + 1] - 8 == 8 + 24 * |TagRegions(b, w)|
    ensures b[w + 2] != 24 || b[w + 3] != 0 ==> TagRegions(b, w) == []
  {
  }

  lemma RegionIs(b: seq<u32>, w: nat, i: nat, at: nat)
    requires TagFits(b, w) && i < |TagRegions(b, w)| && at == w + 4 + 6 * i
    ensures at + 6 <= |b| && TagRegions(b, w)[i] == Region(Long(b, at), Long(b, at + 2), b[at + 4])
  {
    var n := (b[w + 1] - 16) / 24;
    MapRoom(b[w + 1], Padd8(b[w + 1]), n);
    assert TagRegions(b, w) == MapEntries(b, w + 4, n);
    hide Long, Padd8, Rem8, TagFits, TagRegions, MapEntries;
    MapEntryAt(b, w + 4, n, i);
  }

  lemma MapRoom(size: nat, padded: nat, n: nat)
    requires 16 <= size <= padded && (size - 16) % 24 == 0 && n == (size - 16) / 24
    ensures 4 + 6 * n <= padded / 4
  {
    assert size == 16 + 24 * n;
  }

  lemma MapEntryAt(b: seq<u32>, w: nat, n: nat, i: nat)
    requires w + 6 * n <= |b| && i < n
    ensures w + 6 * i + 6 <= |b|
    ensures MapEntries(b, w, n)[i] == Region(Long(b, w + 6 * i), Long(b, w + 6 * i + 2), b[w + 6 * i + 4])
  {
    hide Long;
  }

  /** Recording one more of `all`. */
  lemma {:induction false} AddOneMore(spans: seq<Span>, all: seq<Span>, i: nat)
    requires Recordable(spans) && AllBelowTop(all) && i < |all|
    ensures all[i].End() <= TOP && AllBelowTop(all[..i]) && AllBelowTop(all[..i + 1])
    ensures AddAll(spans, all[..i + 1]) == AddSpan(AddAll(spans, all[..i]), all[i])
  {
    hide AddAll, AddSpan;
    assert all[..i + 1] == all[..i] + [all[i]];
    AddAllSnoc(spans, all[..i], all[i]);
  }

  /** Records the section whose 64-byte header starts at `entry`, and returns the end of the header. */
  method ParseSection(reserved: SpanTable, ram: Ram, entry: nat, ghost base: nat, ghost b: seq<u32>, ghost at: nat,
                      ghost section: Span)
    returns (ptr: nat)
    requires BlobAt(ram.words, base, b) && at + 16 <= |b| && entry == base + 4 * at
    requires section == Span(Long(b, at + 4), Long(b, at + 8))
    requires reserved.Valid() && section.End() <= TOP
    modifies reserved, reserved.addresses, reserved.sizes
    ensures reserved.Valid() && ptr == entry + 64
    ensures reserved.spans == AddSpan(old(reserved.spans), section)
  {
    hide Cell64, Long, Records, BlobAt;
    LongIs(ram.words, base, b, at + 4);
    LongIs(ram.words, base, b, at + 8);
    ptr := entry + 16;
    assert ptr == base + 4 * (at + 4);
    var address := Cell64(ram.words, ptr);
    ptr := ptr + 16;
    assert ptr == base + 4 * (at + 8);
    var size := Cell64(ram.words, ptr);
    ptr := ptr + 32;
    reserved.Add(address, size);
  }

  /** Records every section of an ELF tag, whose data starts at `data`. */
  method ParseElf(reserved: SpanTable, ram: Ram, data: nat, ghost base: nat, ghost b: seq<u32>, ghost w: nat)
    requires BlobAt(ram.words, base, b) && TagFits(b, w) && b[w] == ELF_SECTIONS && data == base + 4 * (w + 2)
    requires reserved.Valid() && AllBelowTop(TagSections(b, w))
    modifies reserved, reserved.addresses, reserved.sizes
    ensures reserved.Valid() && reserved.spans == AddAll(old(reserved.spans), TagSections(b, w))
  {
    hide TagSections, ElfEntries, AddAll, Cell;
    ghost var all, spans, first := TagSections(b, w), reserved.spans, w + 5;
    ElfTagIs(b, w, spans);
    CellIs(ram.words, base, b, w + 2);
    CellIs(ram.words, base, b, w + 3);
    var ptr := data;
    var entries := Cell(ram.words, ptr);
    ptr := ptr + 4;
    var entrySize := Cell(ram.words, ptr);
    ptr := ptr + 4;
    ptr := ptr + 4;
    if entrySize != 64 {
      return;
    }
    var i := 0;
    while i < entries
      invariant 0 <= i <= entries && ptr == base + 4 * (first + 16 * i)
      invariant AllBelowTop(all[..i])
      invariant reserved.Valid() && reserved.spans == AddAll(spans, all[..i])
    {
      AddOneMore(spans, all, i);
      ghost var at := first + 16 * i;
      SectionIs(b, w, i, at);
      ptr := ParseSection(reserved, ram, ptr, base, b, at, all[i]);
      i := i + 1;
    }
    assert all[..entries] == all;
  }

  /** Adds every usable region of a memory-map tag of `size` data bytes, whose data starts at `data`.
      Of all the usable regions `regs`, the first `k` were added by earlier tags. */
  method ParseMemMap(frames: FrameAllocator, size: u32, data: nat, ghost base: nat, ghost b: seq<u32>, ghost w: nat,
                     ghost regs: seq<Region>, ghost k: nat, ghost first: Memory)
    requires BlobAt(frames.ram.words, base, b) && TagFits(b, w) && b[w] == MEMORY_MAP
    requires data == base + 4 * (w + 2) && size == b[w + 1] - 8
    requires Harvesting(frames, regs, k, base, 4 * |b|, first)
    requires k + |TagRegions(b, w)| <= |regs| && regs[k..k + |TagRegions(b, w)|] == TagRegions(b, w)
    modifies frames, frames.ram
    ensures BlobAt(frames.ram.words, base, b)
    ensures Harvesting(frames, regs, k + |TagRegions(b, w)|, base, 4 * |b|, first)
  {
    hide TagRegions, MapEntries, Cell, BlobAt, Harvesting;
    MapTagIs(b, w);
    CellIs(frames.ram.words, base, b, w + 2);
    CellIs(frames.ram.words, base, b, w + 3);
    var ptr := data;
    var entrySize := Cell(frames.ram.words, ptr);
    ptr := ptr + 4;
    if entrySize != 24 {
      return;
    }
    var version := Cell(frames.ram.words, ptr);
    ptr := ptr + 4;
    if version != 0 {
      return;
    }
    var consumed := 8;
    ghost var i, entries := 0, w + 4;
    while consumed < size
      invariant consumed == 8 + 24 * i && consumed <= size && ptr == base + 4 * (entries + 6 * i)
      invariant BlobAt(frames.ram.words, base, b) && Harvesting(frames, regs, k + i, base, 4 * |b|, first)
    {
      assert regs[k + i] == regs[k..k + |TagRegions(b, w)|][i];
      ghost var at := entries + 6 * i;
      RegionIs(b, w, i, at);
      ptr := ParseEntry(frames, ptr, base, b, at, regs, k + i, first);
      consumed := consumed + 24;
      i := i + 1;
    }
  }

  /** Adds the region of one 24-byte entry if it is usable, and returns the end of the entry. */
  method ParseEntry(frames: FrameAllocator, entry: nat, ghost base: nat, ghost b: seq<u32>, ghost at: nat,
                    ghost regs: seq<Region>, ghost k: nat, ghost first: Memory)
    returns (ptr: nat)
    requires BlobAt(frames.ram.words, base, b) && at + 6 <= |b| && entry == base + 4 * at
    requires Harvesting(frames, regs, k, base, 4 * |b|, first)
    requires k < |regs| && regs[k] == Region(Long(b, at), Long(b, at + 2), b[at + 4])
    modifies frames, frames.ram
    ensures BlobAt(frames.ram.words, base, b) && ptr == entry + 24
    ensures Harvesting(frames, regs, k + 1, base, 4 * |b|, first)
  {
    hide Cell64, Cell, Long, Harvesting, BlobAt;
    LongIs(frames.ram.words, base, b, at);
    LongIs(frames.ram.words, base, b, at + 2);
    CellIs(frames.ram.words, base, b, at + 4);
    ptr := entry;
    var start := Cell64(frames.ram.words, ptr);
    ptr := ptr + 8;
    assert ptr == base + 4 * (at + 2);
    var length := Cell64(frames.ram.words, ptr);
    ptr := ptr + 8;
    assert ptr == base + 4 * (at + 4);
    var kind := Cell(frames.ram.words, ptr);
    ptr := ptr + 8;
    if kind == 1 {
      AddRegion(frames, start, length, base, b, regs, k, first);
    } else {
      SkipRegion(frames, regs, k, base, 4 * |b|, first);
    }
  }

  lemma SkipRegion(frames: FrameAllocator, regs: seq<Region>, k: nat, base: nat, length: nat, first: Memory)
    requires Harvesting(frames, regs, k, base, length, first) && k < |regs| && regs[k].kind != 1
    ensures Harvesting(frames, regs, k + 1, base, length, first)
  {
    HarvestStep(frames.free, [], frames.reserved.spans, regs, k);
    assert frames.free + [] == frames.free;
    hide Harvest, Usable;
  }

  /** One usable region, with what the parser needs to go on reading afterwards. */
  method AddRegion(frames: FrameAllocator, start: u64, length: u64, ghost base: nat, ghost b: seq<u32>,
                   ghost regs: seq<Region>, ghost k: nat, ghost first: Memory)
    requires BlobAt(frames.ram.words, base, b)
    requires Harvesting(frames, regs, k, base, 4 * |b|, first)
    requires k < |regs| && regs[k] == Region(start, length, 1)
    modifies frames, frames.ram
    ensures BlobAt(frames.ram.words, base, b) && Harvesting(frames, regs, k + 1, base, 4 * |b|, first)
  {
    ghost var before, m := frames.free, frames.ram.words;
    ghost var spans := frames.reserved.spans;
    NextRegionIsApart(before, spans, regs, k, base, 4 * |b|);
    UsableRegion(spans, regs, k, base, 4 * |b|);
    hide Usable, Harvest, BlobAt, Apart, RegionEnds, Appended, Takes, Represents, AreFrames, SameElsewhere;
    hide SpanTable.Valid;
    ghost var added := frames.AddAddressSpace(start, length);
    AppendedIsTaken(added, spans, regs[k]);
    HarvestStep(before, added, spans, regs, k);
    SameElsewhereGrows(first, m, frames.ram.words, before, added);
    HarvestAvoids(frames.free, spans, regs, k + 1, base, 4 * |b|);
    BlobKept(m, frames.ram.words, base, b, frames.free);
  }

  lemma SameElsewhereGrows(first: Memory, m: Memory, m': Memory, pages: seq<u64>, added: seq<u64>)
    requires SameElsewhere(first, m, pages) && SameElsewhere(m, m', pages + added)
    ensures SameElsewhere(first, m', pages + added)
  {
  }

  lemma UsableRegion(spans: seq<Span>, regs: seq<Region>, k: nat, base: nat, length: nat)
    requires Usable(spans, regs, base, length) && k < |regs| && regs[k].kind == 1
    ensures regs[k].End() <= TOP - PAGE && RegionEnds(spans, regs[k].start, regs[k].End())
  {
  }

  /** Harvested frames stand apart from the boot information. */
  lemma HarvestAvoids(free: seq<u64>, spans: seq<Span>, regs: seq<Region>, k: nat, base: nat, length: nat)
    requires Usable(spans, regs, base, length) && Harvest(free, spans, regs, k)
    ensures Avoids(free, base, length)
  {
    hide Takes, RegionEnds;
    forall p | p in free ensures p + PAGE <= base || base + length <= p {
      assert FromRegion(p, spans, regs, k);
    }
  }

  // ---------------------------------------------------------------- the walk over the tags

  /** The two parsers that are handed to the walk, each with the tag type it is called for. */
  datatype Parser = ElfParser | MapParser {
    function TagType(): u32 {
      if this == ElfParser then ELF_SECTIONS else MEMORY_MAP
    }
  }

  /** The boot information handed over in the two saved registers. */
  ghost predicate Handed(m: Memory, eax: u32, ebx: u32, b: seq<u32>) {
    eax == MAGIC ==> BlobAt(m, ebx, b) && 2 <= |b| && b[0] == 4 * |b| && WalkFits(b, 2)
  }

  /** The spans still to be recorded when the walk stands at `w`. */
  ghost predicate ElfPending(reserved: SpanTable, spans: seq<Span>, b: seq<u32>, w: nat)
    requires WalkFits(b, w) && WalkFits(b, 2)
    reads reserved, reserved.addresses, reserved.sizes
  {
    && reserved.Valid() && Recordable(spans) && AllBelowTop(Sections(b, w)) && AllBelowTop(Sections(b, 2))
    && AddAll(reserved.spans, Sections(b, w)) == AddAll(spans, Sections(b, 2))
  }

  /** The regions still to be added when the walk stands at `w`, after the first `k`. */
  ghost predicate MapPending(frames: FrameAllocator, b: seq<u32>, w: nat, base: nat, k: nat, first: Memory)
    requires WalkFits(b, w) && WalkFits(b, 2)
    reads frames, frames.ram, frames.reserved, frames.reserved.addresses, frames.reserved.sizes
  {
    var regs := Regions(b, 2);
    Harvesting(frames, regs, k, base, 4 * |b|, first) && k <= |regs| && regs[k..] == Regions(b, w)
  }

  lemma {:induction false} SectionsStep(spans: seq<Span>, b: seq<u32>, w: nat)
    requires WalkFits(b, w) && w < |b| && Recordable(spans) && AllBelowTop(Sections(b, w))
    ensures AllBelowTop(TagSections(b, w)) && AllBelowTop(Sections(b, NextTag(b, w)))
    ensures AddAll(spans, Sections(b, w)) == AddAll(AddAll(spans, TagSections(b, w)), Sections(b, NextTag(b, w)))
    ensures b[w] != ELF_SECTIONS ==> AddAll(spans, TagSections(b, w)) == spans
  {
    var here, rest := TagSections(b, w), Sections(b, NextTag(b, w));
    assert Sections(b, w) == here + rest;
    assert b[w] != ELF_SECTIONS ==> here == [];
    hide TagSections, Sections;
    BelowTopSplit(here, rest);
    AddAllAppend(spans, here, rest);
    assert AddAll(spans, []) == spans;
  }

  lemma BelowTopSplit(a: seq<Span>, b: seq<Span>)
    requires AllBelowTop(a + b)
    ensures AllBelowTop(a) && AllBelowTop(b)
  {
    assert forall i :: 0 <= i < |a| ==> a[i] == (a + b)[i];
    assert forall i :: 0 <= i < |b| ==> b[i] == (a + b)[|a| + i];
  }

  lemma {:induction false} RegionsStep(b: seq<u32>, w: nat, regs: seq<Region>, k: nat)
    requires WalkFits(b, w) && w < |b| && k <= |regs| && regs[k..] == Regions(b, w)
    ensures var n := |TagRegions(b, w)|;
            && k + n <= |regs| && regs[k..k + n] == TagRegions(b, w) && regs[k + n..] == Regions(b, NextTag(b, w))
    ensures b[w] != MEMORY_MAP ==> TagRegions(b, w) == []
  {
    assert Regions(b, w) == TagRegions(b, w) + Regions(b, NextTag(b, w));
    assert b[w] != MEMORY_MAP ==> TagRegions(b, w) == [];
    hide TagRegions, Regions, WalkFits, TagFits;
    SplitAt(regs, k, TagRegions(b, w), Regions(b, NextTag(b, w)));
  }

  /** What the parser still has to do when the walk stands at `w`. */
  ghost predicate Pending(frames: FrameAllocator, parser: Parser, spans: seq<Span>, b: seq<u32>, w: nat, base: nat, k: nat,
                          first: Memory)
    requires WalkFits(b, w) && WalkFits(b, 2)
    reads frames, frames.ram, frames.reserved, frames.reserved.addresses, frames.reserved.sizes
  {
    if parser == ElfParser then ElfPending(frames.reserved, spans, b, w) else MapPending(frames, b, w, base, k, first)
  }

  /** All that the parsers can change. */
  datatype Snapshot = Snapshot(fields: FreePages, free: seq<u64>, words: Memory, spans: seq<Span>)

  ghost function Snap(frames: FrameAllocator): Snapshot
    reads frames, frames.ram, frames.reserved
  {
    Snapshot(frames.Fields(), frames.free, frames.ram.words, frames.reserved.spans)
  }

  /** The section parser leaves the frames and memory alone, the region parser the recorded spans. */
  predicate OnlyOwnPart(parser: Parser, before: Snapshot, after: Snapshot) {
    if parser == ElfParser then after == before.(spans := after.spans) else after.spans == before.spans
  }

  lemma OwnPartAgain(parser: Parser, s0: Snapshot, s1: Snapshot, s2: Snapshot)
    ensures OnlyOwnPart(parser, s0, s0)
    ensures OnlyOwnPart(parser, s0, s1) && OnlyOwnPart(parser, s1, s2) ==> OnlyOwnPart(parser, s0, s2)
  {
  }

  /** Runs the parser on the data of the tag at `w`, `data` being its address. */
  method RunParser(frames: FrameAllocator, parser: Parser, size: u32, data: nat,
                   ghost base: nat, ghost b: seq<u32>, ghost w: nat, ghost spans: seq<Span>, ghost k: nat,
                   ghost first: Memory)
    returns (ghost k': nat)
    requires BlobAt(frames.ram.words, base, b) && data == base + 4 * (w + 2)
    requires WalkFits(b, 2) && WalkFits(b, w) && w < |b| && b[w] == parser.TagType() && size == b[w + 1] - 8
    requires Pending(frames, parser, spans, b, w, base, k, first)
    modifies frames, frames.ram, frames.reserved, frames.reserved.addresses, frames.reserved.sizes
    ensures BlobAt(frames.ram.words, base, b) && Pending(frames, parser, spans, b, NextTag(b, w), base, k', first)
    ensures OnlyOwnPart(parser, old(Snap(frames)), Snap(frames))
  {
    hide TagSections, TagRegions, Sections, Regions, Cell;
    k' := k;
    if parser == ElfParser {
      SectionsStep(frames.reserved.spans, b, w);
      ParseElf(frames.reserved, frames.ram, data, base, b, w);
    } else {
      RegionsStep(b, w, Regions(b, 2), k);
      ParseMemMap(frames, size, data, base, b, w, Regions(b, 2), k, first);
      k' := k + |TagRegions(b, w)|;
    }
  }

  /** A tag of another type leaves nothing more to do than before. */
  lemma {:induction false} SkipTag(frames: FrameAllocator, parser: Parser, spans: seq<Span>, b: seq<u32>, w: nat,
                                   base: nat, k: nat, first: Memory)
    requires WalkFits(b, 2) && WalkFits(b, w) && w < |b| && b[w] != parser.TagType()
    requires Pending(frames, parser, spans, b, w, base, k, first)
    ensures Pending(frames, parser, spans, b, NextTag(b, w), base, k, first)
  {
    hide TagSections, TagRegions, Sections, Regions;
    if parser == ElfParser {
      SectionsStep(frames.reserved.spans, b, w);
    } else {
      RegionsStep(b, w, Regions(b, 2), k);
    }
  }

  lemma {:induction false} TagInWalk(b: seq<u32>, w: nat)
    requires WalkFits(b, w) && w < |b|
    ensures TagFits(b, w) && WalkFits(b, NextTag(b, w)) && w + 2 <= |b| && 8 <= b[w + 1]
  {
  }

  lemma TagAdvances(b: seq<u32>, w: nat)
    requires TagFits(b, w)
    ensures 4 * NextTag(b, w) == 4 * w + Padd8(Signed(b[w + 1])) && w < NextTag(b, w) <= |b|
  {
    Quarter(Padd8(b[w + 1]));
  }

  lemma Quarter(r: nat)
    requires r % 8 == 0
    ensures 4 * (r / 4) == r
  {
  }

  /** Looks at one tag, and runs the parser on it if it is of its type. */
  method VisitTag(frames: FrameAllocator, parser: Parser, tag: nat,
                  ghost base: nat, ghost b: seq<u32>, ghost w: nat, ghost spans: seq<Span>, ghost k: nat,
                  ghost first: Memory)
    returns (size: u32, ghost k': nat)
    requires BlobAt(frames.ram.words, base, b) && tag == base + 4 * w
    requires WalkFits(b, 2) && WalkFits(b, w) && w < |b| && Pending(frames, parser, spans, b, w, base, k, first)
    modifies frames, frames.ram, frames.reserved, frames.reserved.addresses, frames.reserved.sizes
    ensures BlobAt(frames.ram.words, base, b) && Pending(frames, parser, spans, b, NextTag(b, w), base, k', first)
    ensures OnlyOwnPart(parser, old(Snap(frames)), Snap(frames)) && size == b[w + 1]
  {
    hide Cell, Pending, BlobAt, WalkFits, TagFits, OnlyOwnPart, Snap, Padd8, Rem8, Parser.TagType;
    TagInWalk(b, w);
    CellIs(frames.ram.words, base, b, w);
    CellIs(frames.ram.words, base, b, w + 1);
    OwnPartAgain(parser, Snap(frames), Snap(frames), Snap(frames));
    var kind := Cell(frames.ram.words, tag);
    size := Cell(frames.ram.words, tag + 4);
    k' := k;
    if kind == parser.TagType() {
      k' := RunParser(frames, parser, size - 8, tag + 8, base, b, w, spans, k, first);
    } else {
      SkipTag(frames, parser, spans, b, w, base, k, first);
    }
  }

  /** What a whole walk does, from where nothing was parsed yet. */
  ghost predicate Parsed(frames: FrameAllocator, parser: Parser, spans: seq<Span>, b: seq<u32>, first: Memory)
    requires WalkFits(b, 2)
    reads frames, frames.ram, frames.reserved, frames.reserved.addresses, frames.reserved.sizes
  {
    if parser == ElfParser then
      && frames.reserved.Valid() && Recordable(spans) && AllBelowTop(Sections(b, 2))
      && frames.reserved.spans == AddAll(spans, Sections(b, 2))
    else
      && frames.Valid() && frames.reserved.Valid() && SameElsewhere(first, frames.ram.words, frames.free)
      && Harvest(frames.free, frames.reserved.spans, Regions(b, 2), |Regions(b, 2)|)
  }

  lemma {:induction false} WalkEnds(frames: FrameAllocator, parser: Parser, spans: seq<Span>, b: seq<u32>, w: nat,
                                    base: nat, k: nat, first: Memory)
    requires WalkFits(b, 2) && |b| <= w && Pending(frames, parser, spans, b, w, base, k, first)
    ensures Parsed(frames, parser, spans, b, first)
  {
    hide Harvest, Usable, Sections, Regions, WalkFits, TagFits, AddAll, AllBelowTop, Recordable, Represents, AreFrames;
    hide SameElsewhere;
    NothingLeft(b, w, frames.reserved.spans);
  }

  lemma {:induction false} NothingLeft(b: seq<u32>, w: nat, spans: seq<Span>)
    requires |b| <= w
    ensures WalkFits(b, w) && Sections(b, w) == [] && Regions(b, w) == []
    ensures Recordable(spans) ==> AddAll(spans, []) == spans
  {
  }

  /** Walks the tags and runs the parser on those of its type. */
  method ParseTag(eax: u32, ebx: u32, frames: FrameAllocator, parser: Parser, ghost b: seq<u32>)
    requires Handed(frames.ram.words, eax, ebx, b)
    requires eax == MAGIC ==> Pending(frames, parser, frames.reserved.spans, b, 2, ebx, 0, frames.ram.words)
    modifies frames, frames.ram, frames.reserved, frames.reserved.addresses, frames.reserved.sizes
    ensures Handed(frames.ram.words, eax, ebx, b)
    ensures OnlyOwnPart(parser, old(Snap(frames)), Snap(frames))
    ensures eax != MAGIC ==>
              unchanged(frames, frames.ram, frames.reserved, frames.reserved.addresses, frames.reserved.sizes)
    ensures eax == MAGIC ==> Parsed(frames, parser, old(frames.reserved.spans), b, old(frames.ram.words))
  {
    hide Cell, Pending, BlobAt, Parsed, WalkFits, TagFits, Snap, Padd8, Signed, OnlyOwnPart, Parser.TagType;
    OwnPartAgain(parser, Snap(frames), Snap(frames), Snap(frames));
    if eax != MAGIC {
      return;
    }
    ghost var w: nat, k: nat, spans, before := 2, 0, frames.reserved.spans, Snap(frames);
    ghost var first := frames.ram.words;
    var consumed := 8;
    CellIs(frames.ram.words, ebx, b, 0);
    while consumed < Cell(frames.ram.words, ebx)
      invariant consumed == 4 * w && w <= |b| && WalkFits(b, w)
      invariant BlobAt(frames.ram.words, ebx, b) && Cell(frames.ram.words, ebx) == 4 * |b|
      invariant Pending(frames, parser, spans, b, w, ebx, k, first) && OnlyOwnPart(parser, before, Snap(frames))
      decreases |b| - w
    {
      TagInWalk(b, w);
      TagAdvances(b, w);
      ghost var next := NextTag(b, w);
      ghost var snap := Snap(frames);
      var size;
      size, k := VisitTag(frames, parser, ebx + consumed, ebx, b, w, spans, k, first);
      CellIs(frames.ram.words, ebx, b, 0);
      consumed := consumed + Padd8(Signed(size));
      w := next;
      OwnPartAgain(parser, before, snap, Snap(frames));
    }
    WalkEnds(frames, parser, spans, b, w, ebx, k, first);
  }

  // ---------------------------------------------------------------- the whole boot

  /** What the boot needs of the information: no wrapping address, no more separate spans than the
      table holds, and regions the parser can take. */
  ghost predicate Bootable(b: seq<u32>, base: nat) {
    && WalkFits(b, 2) && AllBelowTop(Sections(b, 2)) && NeverFull([], Sections(b, 2))
    && Usable(AddAll([], Sections(b, 2)), Regions(b, 2), base, 4 * |b|)
  }

  /** The frame is aligned and not null, lies wholly in a usable region, and shares no byte with a
      section of the kernel image. */
  ghost predicate FrameSafe(p: nat, sections: seq<Span>, regs: seq<Region>) {
    && IsFrame(p)
    && (exists i :: 0 <= i < |regs| && regs[i].kind == 1 && Inside(p, regs[i].start, regs[i].End()))
    && (forall j :: 0 <= j < |sections| && 0 < sections[j].size ==>
          p + PAGE <= sections[j].start || sections[j].End() <= p)
  }

  ghost predicate BootSafe(free: seq<u64>, sections: seq<Span>, regs: seq<Region>) {
    forall p :: p in free ==> FrameSafe(p, sections, regs)
  }

  /** A harvested page shares no byte with a section of the kernel image. */
  lemma {:induction false} HarvestAvoidsSections(p: u64, sections: seq<Span>, regs: seq<Region>, j: nat)
    requires AllBelowTop(sections) && NeverFull([], sections) && j < |sections| && 0 < sections[j].size
    requires FromRegion(p, AddAll([], sections), regs, |regs|)
    ensures IsFrame(p) && (p + PAGE <= sections[j].start || sections[j].End() <= p)
  {
    var spans := AddAll([], sections);
    AddAllCovers([], sections, j);
    hide AddAll, NeverFull;
    assert Eligible(spans, p);
    EligibleIsDisjoint(spans, sections[j], p);
  }

  /** A search that ends finds a page. */
  lemma {:induction false} EndsFinds(spans: seq<Span>, start: nat) returns (p: u64)
    requires Recordable(spans) && start <= TOP && Ends(spans, start)
    ensures p <= TOP && IsLeastEligible(spans, start, p)
    decreases TOP - FirstPage(start)
  {
    if FirstHit(spans, FirstPage(start)) != 0 {
      EndsJump(spans, start);
      p := EndsFinds(spans, AlignUp(FirstHit(spans, FirstPage(start))));
    } else {
      SearchStops(spans, start);
      p := FirstPage(start);
    }
  }

  /** The harvest is safe if and only if every usable region holds an eligible page. A region that holds
      none puts a page on the list that lies wholly in no usable region. */
  lemma {:induction false} HarvestIsBootSafeIff(free: seq<u64>, sections: seq<Span>, regs: seq<Region>,
                                                base: nat, length: nat)
    requires AllBelowTop(sections) && NeverFull([], sections)
    requires Harvest(free, AddAll([], sections), regs, |regs|) && Usable(AddAll([], sections), regs, base, length)
    ensures BootSafe(free, sections, regs) <==> AllHold(AddAll([], sections), regs)
  {
    var spans := AddAll([], sections);
    hide AddAll, NeverFull, AllBelowTop;
    if AllHold(spans, regs) {
      forall p | p in free ensures FrameSafe(p, sections, regs) {
        HeldPageIsSafe(p, sections, regs);
      }
    } else {
      var i :| 0 <= i < |regs| && regs[i].kind == 1 && !HoldsEligible(spans, regs[i].start, regs[i].End());
      var p := StrayPage(spans, regs, base, length, i);
      hide Usable, HoldsEligible;
      assert FromRegion(p, spans, regs, |regs|);
      assert p in free;
    }
  }

  lemma {:induction false} HeldPageIsSafe(p: u64, sections: seq<Span>, regs: seq<Region>)
    requires AllBelowTop(sections) && NeverFull([], sections) && AllHold(AddAll([], sections), regs)
    requires FromRegion(p, AddAll([], sections), regs, |regs|)
    ensures FrameSafe(p, sections, regs)
  {
    var spans := AddAll([], sections);
    hide AddAll, NeverFull, AllBelowTop, HoldsEligible;
    assert Eligible(spans, p);
    forall j | 0 <= j < |sections| && 0 < sections[j].size
      ensures p + PAGE <= sections[j].start || sections[j].End() <= p
    {
      HarvestAvoidsSections(p, sections, regs, j);
    }
  }

  lemma StrayPage(spans: seq<Span>, regs: seq<Region>, base: nat, length: nat, i: nat) returns (p: u64)
    requires Usable(spans, regs, base, length) && i < |regs| && regs[i].kind == 1
    requires !HoldsEligible(spans, regs[i].start, regs[i].End())
    ensures Takes(spans, regs[i], p)
    ensures forall j :: 0 <= j < |regs| && regs[j].kind == 1 ==> !Inside(p, regs[j].start, regs[j].End())
  {
    p := EndsFinds(spans, AlignUp(regs[i].start));
    AlignSkipsNone(spans, regs[i].start, p);
    assert Takes(spans, regs[i], p) && Eligible(spans, p);
    hide Eligible, HoldsEligible, RegionEnds, Takes;
    forall j | 0 <= j < |regs| && regs[j].kind == 1 ensures !Inside(p, regs[j].start, regs[j].End()) {
      InsideIsTaken(spans, regs[j], p);
    }
  }

  lemma InsideIsTaken(spans: seq<Span>, r: Region, p: u64)
    requires Eligible(spans, p)
    ensures Inside(p, r.start, r.End()) ==> HoldsEligible(spans, r.start, r.End()) && Takes(spans, r, p)
  {
  }

  /** A map whose one usable region holds no whole page: the page that sticks out of it is listed. */
  lemma StrayPageIsListed(free: seq<u64>)
    requires Harvest(free, [], [Region(0x2800, 0x1000, 1)], 1)
    ensures 0x3000 in free && !FrameSafe(0x3000, [], [Region(0x2800, 0x1000, 1)])
  {
    var r := Region(0x2800, 0x1000, 1);
    assert !HoldsEligible([], r.start, r.End());
    assert IsLeastEligible([], 0x2800, 0x3000);
    assert Takes([], [r][0], 0x3000);
    hide Takes;
    assert FromRegion(0x3000, [], [r], 1);
  }

  /** Seeds the allocator: the kernel image is recorded before any region is added, wherever its tag
      stands. Afterwards the free list holds exactly the pages that the usable regions take, and no
      word of memory changed but the links of listed frames. */
  method MulParse(eax: u32, ebx: u32, frames: FrameAllocator, ghost b: seq<u32>)
    requires Handed(frames.ram.words, eax, ebx, b) && (eax == MAGIC ==> Bootable(b, ebx))
    requires frames.Valid() && frames.free == [] && frames.pageHead == 0
    requires frames.reserved.Valid() && frames.reserved.spans == []
    modifies frames, frames.ram, frames.reserved, frames.reserved.addresses, frames.reserved.sizes
    ensures frames.Valid() && frames.reserved.Valid()
    ensures eax != 0x36D7_6289 ==> unchanged(frames) && unchanged(frames.ram) && unchanged(frames.reserved)
    ensures eax == 0x36D7_6289 ==>
              && frames.reserved.spans == AddAll([], Sections(b, 2))
              && Harvest(frames.free, frames.reserved.spans, Regions(b, 2), |Regions(b, 2)|)
              && (BootSafe(frames.free, Sections(b, 2), Regions(b, 2)) <==> AllHold(frames.reserved.spans, Regions(b, 2)))
    ensures SameElsewhere(old(frames.ram.words), frames.ram.words, frames.free)
  {
    hide Sections, Regions, AddAll;
    assert eax == MAGIC ==> Regions(b, 2)[0..] == Regions(b, 2);
    ParseTag(eax, ebx, frames, ElfParser, b);
    ParseTag(eax, ebx, frames, MapParser, b);
    if eax == MAGIC {
      HarvestIsBootSafeIff(frames.free, Sections(b, 2), Regions(b, 2), ebx, 4 * |b|);
    }
  }
}
