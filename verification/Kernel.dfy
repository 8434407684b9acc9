/** The boot sequence: empty allocator, boot parser, page tables. */
module Kernel {
  import opened Words
  import opened ReservedSpans
  import opened Frames
  import opened BootInfo
  import opened BootParser
  import opened Entries
  import opened PageNumbers
  import opened PageTree
  import opened Paging
  import opened HeapModel
  import opened Allocator
  import opened AllocatorRuns

  /** Fewer pages of usable memory than the 32-bit frame counter can count. */
  ghost predicate Countable(spans: seq<Span>, regs: seq<Region>) {
    forall pages: seq<u64> :: TakenPages(pages, spans, regs) ==> |pages| < U32
  }

  /** Usable memory ends below 2^52, where the address field of a page-table entry ends. */
  ghost predicate Addressed(regs: seq<Region>) {
    forall i :: 0 <= i < |regs| && regs[i].kind == 1 ==> regs[i].End() <= 0x10_0000_0000_0000
  }

  /** The page table of the boot loader stands inside a section of the kernel image. */
  ghost predicate InImage(sections: seq<Span>, page: nat) {
    exists j :: 0 <= j < |sections| && sections[j].start <= page && page + PAGE <= sections[j].End()
  }

  /** A list of different pages that the usable regions take. */
  ghost predicate TakenPages(pages: seq<u64>, spans: seq<Span>, regs: seq<Region>) {
    Distinct(pages) && forall p :: p in pages ==> FromRegion(p, spans, regs, |regs|)
  }

  /** There are pages for one root and 512 leaves. */
  ghost predicate EnoughFrames(spans: seq<Span>, regs: seq<Region>) {
    exists pages: seq<u64> :: |pages| == 513 && TakenPages(pages, spans, regs)
  }

  lemma SubsetSize<T>(a: set<T>, b: set<T>)
    requires a <= b
    ensures |a| <= |b|
  {
    assert b == a + (b - a);
  }

  function Below(n: nat): (r: set<nat>)
    ensures |r| == n && forall i: nat :: i in r <==> i < n
  {
    if n == 0 then {} else Below(n - 1) + {n - 1}
  }

  function Elements(s: seq<u64>): (r: set<u64>)
    ensures |r| <= |s| && forall x :: x in r <==> x in s
  {
    if s == [] then {} else assert s == [s[0]] + s[1..]; Elements(s[1..]) + {s[0]}
  }

  lemma DistinctBelow(s: seq<nat>, n: nat)
    requires Distinct(s) && forall i :: 0 <= i < |s| ==> s[i] < n
    ensures |s| <= n
  {
    DistinctSize(s);
    SubsetSize((set x | x in s), Below(n));
  }

  const MAX_ADDRESS: nat := 0x1000_0000_0000

  /** Usable memory that ends below 2^44 is countable. */
  lemma LowMemoryIsCountable(spans: seq<Span>, regs: seq<Region>)
    requires forall i :: 0 <= i < |regs| && regs[i].kind == 1 ==> regs[i].End() <= MAX_ADDRESS
    requires AllHold(spans, regs)
    ensures Countable(spans, regs)
  {
    hide HoldsEligible;
    forall pages: seq<u64> | TakenPages(pages, spans, regs) ensures |pages| < U32 {
      forall i | 0 <= i < |pages| ensures IsFrame(pages[i]) && pages[i] + PAGE <= MAX_ADDRESS {
        assert pages[i] in pages && FromRegion(pages[i], spans, regs, |regs|);
      }
      LowPagesAreFew(pages);
    }
  }

  lemma LowPagesAreFew(pages: seq<u64>)
    requires Distinct(pages) && forall i :: 0 <= i < |pages| ==> IsFrame(pages[i]) && pages[i] + PAGE <= MAX_ADDRESS
    ensures |pages| < U32
  {
    var numbers: seq<nat> := seq(|pages|, i requires 0 <= i < |pages| => pages[i] / PAGE - 1);
    forall i, j | 0 <= i < j < |numbers| ensures numbers[i] != numbers[j] {
      assert pages[i] != pages[j];
    }
    DistinctBelow(numbers, U32 - 1);
  }

  /** A harvest is at least as long as any list of pages that the regions take. */
  lemma PagesFit(pages: seq<u64>, free: seq<u64>, spans: seq<Span>, regs: seq<Region>)
    requires Harvest(free, spans, regs, |regs|) && TakenPages(pages, spans, regs)
    ensures |pages| <= |free|
  {
    hide FromRegion;
    DistinctSize(pages);
    assert forall p :: p in pages ==> p in Elements(free);
    SubsetSize((set p | p in pages), Elements(free));
  }

  /** What the boot parser leaves is what the page tables need. */
  lemma HarvestSuitsTables(free: seq<u64>, sections: seq<Span>, spans: seq<Span>, regs: seq<Region>, p3: nat)
    requires Harvest(free, spans, regs, |regs|) && Distinct(free) && BootSafe(free, sections, regs)
    requires Countable(spans, regs) && Addressed(regs) && InImage(sections, p3) && EnoughFrames(spans, regs) && Aligned(p3)
    ensures BootFrames(free, p3) && |free| < U32
  {
    hide FromRegion;
    var pages: seq<u64> :| |pages| == 513 && TakenPages(pages, spans, regs);
    PagesFit(pages, free, spans, regs);
    assert TakenPages(free, spans, regs);
    hide Harvest, EnoughFrames, Countable, TakenPages;
    forall i | 0 <= i < |free| ensures IsFrame(free[i]) && Addressable(free[i]) {
      assert free[i] in free;
    }
  }

  /** What the boot needs: boot information that was handed over and that it can take, a countable
      number of pages but enough of them for the tables, and a page table inside the kernel image. */
  ghost predicate BootReady(m: Memory, ebx: u32, p3: nat, b: seq<u32>) {
    && Handed(m, MAGIC, ebx, b) && Bootable(b, ebx) && Aligned(p3)
    && var spans, regs := AddAll([], Sections(b, 2)), Regions(b, 2);
       && AllHold(spans, regs) && Countable(spans, regs) && Addressed(regs) && EnoughFrames(spans, regs)
       && InImage(Sections(b, 2), p3)
  }

  /** The words of these frames but their first ones are the same. */
  ghost predicate InnerKept(frames: seq<u64>, m: Memory, m': Memory) {
    forall i, a: nat :: 0 <= i < |frames| && frames[i] < a < frames[i] + PAGE ==> Word(m', a) == Word(m, a)
  }

  /** The word at `a` holds a byte of the section. */
  predicate WordIn(a: nat, section: Span) {
    AtWord(a) && 0 < section.size && a < section.End() && section.start < a + 8
  }

  /** Every word that holds a byte of a nonempty section is the same, but for the link at p3. */
  ghost predicate ImageKept(sections: seq<Span>, p3: nat, m: Memory, m': Memory) {
    forall j, a: nat :: 0 <= j < |sections| && a != p3 + 8 && WordIn(a, sections[j]) ==> Word(m', a) == Word(m, a)
  }

  lemma FramesSpareImage(m: Memory, m': Memory, frames: set<u64>, sections: seq<Span>, regs: seq<Region>, p3: nat)
    requires OnlyIn(m, m', frames, p3) && AllSafe(frames, sections, regs)
    ensures ImageKept(sections, p3, m, m')
  {
    hide AtWord;
    forall j, a: nat | 0 <= j < |sections| && a != p3 + 8 && WordIn(a, sections[j])
      ensures Word(m', a) == Word(m, a)
    {
      forall f | f in frames ensures !(f <= a < f + PAGE) {
        assert FrameSafe(f, sections, regs);
        WordInFrame(f, a);
      }
      assert !InFrames(frames, a);
    }
  }

  lemma WordInFrame(f: nat, a: nat)
    requires Aligned(f) && AtWord(a)
    ensures f <= a < f + PAGE ==> a + 8 <= f + PAGE
  {
    PageWord(f, 512);
  }

  /** After the parser, only links in listed frames changed; after the tables, only they did. */
  lemma ParsedOnlyIn(m: Memory, m': Memory, free: seq<u64>, p3: nat)
    requires SameElsewhere(m, m', free)
    ensures OnlyIn(m, m', AsSet(free), p3)
  {
    forall a: nat | !InFrames(AsSet(free), a) ensures Word(m', a) == Word(m, a) {
      if a in free { assert a in AsSet(free); }
    }
  }

  lemma InnerWordsKept(m: Memory, m1: Memory, m2: Memory, free: seq<u64>, rest: seq<u64>)
    requires SameElsewhere(m, m1, free) && SameWords(rest, m1, m2) && AreFrames(free) && AreFrames(rest)
    ensures InnerKept(rest, m, m2)
  {
    hide Word;
    forall i, a: nat | 0 <= i < |rest| && rest[i] < a < rest[i] + PAGE ensures Word(m2, a) == Word(m, a) {
      assert rest[i] in rest;
      InnerIsNoFrame(rest[i], a);
      assert a !in free;
    }
  }

  lemma InnerIsNoFrame(f: nat, a: nat)
    requires Aligned(f) && f < a < f + PAGE
    ensures !Aligned(a)
  {
  }

  /** From the loader's hand-over to a working pager: every frame the pager will ever use comes from
      usable memory and overlaps no section of the kernel image; free frames keep all but their links. */
  method Boot(ram: Ram, eax: u32, ebx: u32, p3: nat, ghost b: seq<u32>) returns (pager: Pager)
    requires eax == MAGIC && WalkFits(b, 2) && BootReady(ram.words, ebx, p3, b)
    modifies ram
    ensures pager.Valid() && pager.ram == ram && pager.p3 == p3 && pager.numbers.Count() == 0
    ensures fresh(pager) && fresh(pager.frames) && fresh(pager.numbers)
    ensures forall f: u64 :: f in pager.owner <==> FromRegion(f, AddAll([], Sections(b, 2)), Regions(b, 2), |Regions(b, 2)|)
    ensures AllSafe(pager.owner.Keys, Sections(b, 2), Regions(b, 2))
    ensures pager.booted == old(ram.words) && InnerKept(pager.frames.free, old(ram.words), ram.words)
    ensures ManyFree(|pager.frames.free| + 513, AddAll([], Sections(b, 2)), Regions(b, 2))
  {
    hide Sections, Regions, AddAll, WalkFits, Pager.Sound, Issued, BootFrames, EnoughFrames, OnlyIn, SameElsewhere;
    hide FromRegion, FrameSafe, Countable, InnerKept, SameWords, Usable, Represents, ManyFree, AllHold, AreFrames;
    var reserved := new SpanTable();
    var frames := new FrameAllocator(ram, reserved);
    MulParse(eax, ebx, frames, b);
    ghost var free, m := frames.free, ram.words;
    frames.ListIsDistinct();
    HarvestSuitsTables(free, Sections(b, 2), reserved.spans, Regions(b, 2), p3);
    ParsedOnlyIn(old(ram.words), m, free, p3);
    HarvestIsMany(free, reserved.spans, Regions(b, 2));
    var numbers := new PageCounter();
    pager := new Pager.PtInit(frames, numbers, p3, old(ram.words));
    pager.FreeAreFrames();
    InnerWordsKept(old(ram.words), m, ram.words, free, pager.frames.free);
  }

  /** No list of pages that the regions take is longer than `n`. */
  ghost predicate ManyFree(n: nat, spans: seq<Span>, regs: seq<Region>) {
    forall pages: seq<u64> :: TakenPages(pages, spans, regs) ==> |pages| <= n
  }

  lemma HarvestIsMany(free: seq<u64>, spans: seq<Span>, regs: seq<Region>)
    requires Harvest(free, spans, regs, |regs|)
    ensures ManyFree(|free|, spans, regs)
  {
    forall pages: seq<u64> | TakenPages(pages, spans, regs) ensures |pages| <= |free| {
      PagesFit(pages, free, spans, regs);
    }
  }

  ghost predicate AllSafe(frames: set<u64>, sections: seq<Span>, regs: seq<Region>) {
    forall f :: f in frames ==> FrameSafe(f, sections, regs)
  }

  /** Boot, and any run of heap calls after it: the run is the chain of the steps of its calls, from the
      empty heap on; every word of virtual memory, so every word that a caller holds, stands in a frame
      of usable memory that overlaps no section of the kernel image; and the image itself is unchanged,
      but for the one link to the new tables. */
  method BootAndRun(ram: Ram, ebx: u32, p3: nat, poolAddress: seq<u64>, calls: seq<Call>, ghost b: seq<u32>)
    returns (heap: KernelHeap, given: map<nat, u32>, results: seq<Option<nat>>, ghost trace: seq<State>)
    requires WalkFits(b, 2) && BootReady(ram.words, ebx, p3, b) && PoolAddresses(poolAddress)
    modifies ram
    ensures heap.Valid() && heap.pager.ram == ram && heap.poolAddress == poolAddress && Holds(given, heap.model)
    ensures Chain(trace, calls, results, poolAddress) && trace[|calls|] == StateOf(heap, given)
    ensures FreshStart(trace[0], old(ram.words), Sections(b, 2), Regions(b, 2))
    ensures WordsSafe(heap.pager, Sections(b, 2), Regions(b, 2))
    ensures ImageKept(Sections(b, 2), p3, old(ram.words), ram.words)
  {
    hide Sections, Regions, AddAll, BootReady, Pager.Sound, Issued, Ok, FromRegion, FrameSafe, Chain, Backing, WalkFits;
    hide Handed, PoolAddresses, Holds, WordsSafe, AllSafe, Pager.Contents, Intact, Mapped, Backed, OnlyIn, ImageKept;
    hide InnerKept, ManyFree, FreshStart;
    var pager := Boot(ram, MAGIC, ebx, p3, b);
    FreeIsSafe(pager, Sections(b, 2), Regions(b, 2));
    heap := new KernelHeap(pager, poolAddress);
    HoldsNothing();
    ReadyIsBelowTop(old(ram.words), ebx, p3, b);
    BootIsFresh(heap, old(ram.words), Sections(b, 2), Regions(b, 2));
    given, results, trace := Run(heap, calls, map[]);
    OwnedIsSafe(heap.pager, Sections(b, 2), Regions(b, 2));
    heap.pager.OnlyFramesChanged();
    FramesSpareImage(old(ram.words), ram.words, heap.pager.owner.Keys, Sections(b, 2), Regions(b, 2), p3);
  }

  /** The state before the first call: nothing is allocated or held, no page was asked for, and all
      frames but those of the tables are free and safe, with all their words but the links as at first. */
  ghost predicate FreshStart(s: State, m: Memory, sections: seq<Span>, regs: seq<Region>) {
    && s.heap == EMPTY && s.given == map[] && s.count == 0
    && InnerKept(s.free, m, s.words) && AllSafe(AsSet(s.free), sections, regs)
    && AllBelowTop(sections) && ManyFree(|s.free| + 513, AddAll([], sections), regs)
  }

  lemma {:induction false} BootIsFresh(heap: KernelHeap, m: Memory, sections: seq<Span>, regs: seq<Region>)
    requires heap.Valid() && heap.model == EMPTY && heap.pager.numbers.Count() == 0
    requires InnerKept(heap.pager.frames.free, m, heap.pager.ram.words)
    requires AllSafe(AsSet(heap.pager.frames.free), sections, regs)
    requires AllBelowTop(sections) && ManyFree(|heap.pager.frames.free| + 513, AddAll([], sections), regs)
    ensures FreshStart(StateOf(heap, map[]), m, sections, regs)
  {
    hide Ok, Backing, Pager.Sound, Issued, InnerKept, AllSafe, ManyFree, Pager.Contents;
  }

  lemma {:induction false} ReadyIsBelowTop(m: Memory, ebx: u32, p3: nat, b: seq<u32>)
    requires BootReady(m, ebx, p3, b)
    ensures WalkFits(b, 2) && AllBelowTop(Sections(b, 2))
  {
    hide Handed, AllBelowTop, NeverFull, Usable, Sections, Regions, AddAll;
  }

  lemma FreeIsSafe(pager: Pager, sections: seq<Span>, regs: seq<Region>)
    requires pager.Valid() && AllSafe(pager.owner.Keys, sections, regs)
    ensures AllSafe(AsSet(pager.frames.free), sections, regs)
  {
    hide FrameSafe;
    pager.FreeAreOwned();
    hide Pager.Sound, Issued;
  }

  /** Every backed word stands in a frame of usable memory that overlaps no section. */
  ghost predicate WordsSafe(pager: Pager, sections: seq<Span>, regs: seq<Region>)
    reads pager, pager.ram
  {
    && |pager.phase| == PAGES
    && forall va: nat :: Backed(pager.phase, va) ==>
         var f := pager.phase[PageNumber(va)].frame;
         FrameSafe(f, sections, regs) && Translate(pager.ram.words, pager.p3, va) == f + va % PAGE
  }

  lemma OwnedIsSafe(pager: Pager, sections: seq<Span>, regs: seq<Region>)
    requires pager.Valid() && AllSafe(pager.owner.Keys, sections, regs)
    ensures WordsSafe(pager, sections, regs)
  {
    hide Pager.Sound, Issued, FrameSafe, Translate, PageNumber, InHeapRange, AtWord;
    forall va: nat | Backed(pager.phase, va)
      ensures var f := pager.phase[PageNumber(va)].frame;
              FrameSafe(f, sections, regs) && Translate(pager.ram.words, pager.p3, va) == f + va % PAGE
    {
      pager.BackedIsOwned(va);
    }
  }

  // ---------------------------------------------------------------- a boot that meets the conditions

  const IMAGE: Section := Section([0, 0, 0, 0], 0x10_0000, [0, 0], 0x5F38, [0, 0, 0, 0, 0, 0])
  const USABLE: MapEntry := MapEntry(0x20_0000, 0x100_0000, 1, 0)

  ghost function ExampleTags(): (tags: seq<Tag>)
    ensures AllWf(tags)
  {
    [Elf(0, [IMAGE], 0), MemMap([USABLE])]
  }

  /** The cells of the example: the size of the whole, a tag of type 9 with one header of 64 bytes, its
      padding, and a tag of type 6 with one entry of 24 bytes. */
  function ExampleCells(): seq<u32> {
    [136, 0] +
    [9, 84, 1, 64, 0] + [0, 0, 0, 0, 0x10_0000, 0, 0, 0, 0x5F38, 0, 0, 0, 0, 0, 0, 0] + [0] +
    [6, 40, 24, 0] + [0x20_0000, 0, 0x100_0000, 0, 1, 0]
  }

  lemma ExampleBlob() returns (b: seq<u32>)
    ensures b == ExampleCells()
    ensures WalkFits(b, 2) && |b| == 34 && 2 <= |b| && b[0] == 4 * |b|
    ensures Sections(b, 2) == [Span(0x10_0000, 0x5F38)] && Regions(b, 2) == [Region(0x20_0000, 0x100_0000, 1)]
  {
    var tags := ExampleTags();
    ExampleTagCells(tags);
    ExampleContents(tags);
    hide TagCells, AllSections, AllRegions, AllWf;
    WalkReadsBack(tags, 0);
    b := Blob(tags, 0);
  }

  lemma {:induction false} ExampleTagCells(tags: seq<Tag>)
    requires tags == ExampleTags()
    ensures AllWf(tags) && |TagCells(tags)| == 32 && [136, 0] + TagCells(tags) == ExampleCells()
  {
    hide Section.Cells, MapEntry.Cells, SectionCells, EntryCells;
    OneEntryEach();
    assert tags[1..] == [tags[1]] && tags[1..][1..] == [];
    assert tags[1].Cells() == [6, 40, 24, 0] + [0x20_0000, 0, 0x100_0000, 0, 1, 0];
    assert TagCells(tags[1..]) == tags[1].Cells() + [];
    assert TagCells(tags) == tags[0].Cells() + TagCells(tags[1..]);
  }

  lemma OneEntryEach()
    ensures SectionCells([IMAGE]) == [0, 0, 0, 0, 0x10_0000, 0, 0, 0, 0x5F38, 0, 0, 0, 0, 0, 0, 0]
    ensures EntryCells([USABLE]) == [0x20_0000, 0, 0x100_0000, 0, 1, 0]
  {
    assert [IMAGE][1..] == [] && [USABLE][1..] == [];
    assert SectionCells([IMAGE]) == IMAGE.Cells() + SectionCells([]);
    assert EntryCells([USABLE]) == USABLE.Cells() + EntryCells([]);
    assert IMAGE.Cells() == [0, 0, 0, 0] + [0x10_0000, 0] + [0, 0] + [0x5F38, 0] + [0, 0, 0, 0, 0, 0];
    assert USABLE.Cells() == [0x20_0000, 0] + [0x100_0000, 0] + [1, 0];
  }

  lemma {:induction false} ExampleContents(tags: seq<Tag>)
    requires tags == ExampleTags()
    ensures AllSections(tags) == [Span(0x10_0000, 0x5F38)] && AllRegions(tags) == [Region(0x20_0000, 0x100_0000, 1)]
  {
    assert tags[1..] == [tags[1]] && tags[1..][1..] == [];
    assert AllSections(tags[1..][1..]) == [] && AllRegions(tags[1..][1..]) == [];
    assert AllSections(tags[1..]) == tags[1].Sections() + [] == [];
    assert AllRegions(tags[1..]) == tags[1].Regions() + [] == [Region(0x20_0000, 0x100_0000, 1)];
    assert AllSections(tags) == tags[0].Sections() + [] && AllRegions(tags) == [] + AllRegions(tags[1..]);
  }

  /** A memory that holds these cells from `base` on. */
  ghost function MemoryOf(b: seq<u32>, base: nat): Memory
    requires |b| % 2 == 0
  {
    map a: nat | base <= a < base + 4 * |b| && a % 8 == 0 && (a - base) / 4 + 1 < |b| ::
      b[(a - base) / 4] + U32 * b[(a - base) / 4 + 1]
  }

  lemma MemoryHolds(b: seq<u32>, base: nat)
    requires |b| % 2 == 0 && base % 8 == 0
    ensures BlobAt(MemoryOf(b, base), base, b)
  {
    var m := MemoryOf(b, base);
    forall i | 0 <= i < |b| ensures b[i] == Cell(m, base + 4 * i) {
      MemoryCell(b, base, i / 2);
    }
  }

  lemma MemoryCell(b: seq<u32>, base: nat, k: nat)
    requires |b| % 2 == 0 && base % 8 == 0 && 2 * k + 1 < |b|
    ensures Cell(MemoryOf(b, base), base + 8 * k) == b[2 * k]
    ensures Cell(MemoryOf(b, base), base + 8 * k + 4) == b[2 * k + 1]
  {
    var a := base + 8 * k;
    CellPlace(base, k);
    MemoryWord(b, base, a, 2 * k);
    hide MemoryOf;
    Halves32(b[2 * k], b[2 * k + 1]);
  }

  lemma CellPlace(base: nat, k: nat)
    requires base % 8 == 0
    ensures (base + 8 * k) % 8 == 0 && (base + 8 * k + 4) % 8 == 4
  {
  }

  lemma MemoryWord(b: seq<u32>, base: nat, a: nat, i: nat)
    requires |b| % 2 == 0 && a % 8 == 0 && a == base + 4 * i && i + 1 < |b|
    ensures a in MemoryOf(b, base) && MemoryOf(b, base)[a] == b[i] + U32 * b[i + 1]
  {
    assert (a - base) / 4 == i;
  }

  lemma Halves32(low: u32, high: u32)
    ensures (low + U32 * high) % U32 == low && (low + U32 * high) / U32 == high
  {
  }

  /** The conditions of the boot can be met: boot information at 0x8000, an image below 2 MiB, and
      16 MiB of memory above it. */
  lemma ExampleBoots() returns (m: Memory, b: seq<u32>)
    ensures WalkFits(b, 2) && |b| == 34 && m == MemoryOf(b, 0x8000) && BootReady(m, 0x8000, 0x10_1000, b)
    ensures b == ExampleCells()
    ensures Sections(b, 2) == [Span(0x10_0000, 0x5F38)] && Regions(b, 2) == [Region(0x20_0000, 0x100_0000, 1)]
  {
    hide WalkFits, Bootable, Sections, Regions, AddAll, AllHold, Countable, Addressed, EnoughFrames, BlobAt, MemoryOf;
    hide InImage, Aligned;
    b := ExampleBlob();
    m := MemoryOf(b, 0x8000);
    MemoryHolds(b, 0x8000);
    ExampleConditions(b);
  }

  lemma {:induction false} ExampleConditions(b: seq<u32>)
    requires WalkFits(b, 2) && |b| == 34
    requires Sections(b, 2) == [Span(0x10_0000, 0x5F38)] && Regions(b, 2) == [Region(0x20_0000, 0x100_0000, 1)]
    ensures Bootable(b, 0x8000) && Aligned(0x10_1000) && InImage(Sections(b, 2), 0x10_1000)
    ensures var spans, regs := AddAll([], Sections(b, 2)), Regions(b, 2);
            AllHold(spans, regs) && Countable(spans, regs) && Addressed(regs) && EnoughFrames(spans, regs)
  {
    var image := Span(0x10_0000, 0x5F38);
    var spans, regs := [image], [Region(0x20_0000, 0x100_0000, 1)];
    hide WalkFits, Sections, Regions, FromRegion, HoldsEligible, AddAll, AddSpan, NeverFull, Ends, EnoughFrames, Countable;
    ExampleSpans(image);
    ExamplePages(spans, regs);
    EverySearchEndsIff(spans);
    TakenIsInside(spans, regs[0]);
    hide Takes;
    LowMemoryIsCountable(spans, regs);
  }

  lemma TakenIsInside(spans: seq<Span>, r: Region)
    requires HoldsEligible(spans, r.start, r.End())
    ensures forall p: nat :: Takes(spans, r, p) ==> Inside(p, r.start, r.End())
  {
  }

  lemma ExampleSpans(image: Span)
    requires image == Span(0x10_0000, 0x5F38)
    ensures AllBelowTop([image]) && Recordable([]) && AddAll([], [image]) == [image] && NeverFull([], [image])
    ensures Recordable([image]) && !IsTrap([image], image.End())
  {
    assert [image][1..] == [];
    assert AddSpan([], image) == [] + [image] == [image];
    assert AddAll([image], []) == [image] && NeverFull([image], []);
  }

  lemma ExamplePages(spans: seq<Span>, regs: seq<Region>)
    requires spans == [Span(0x10_0000, 0x5F38)] && regs == [Region(0x20_0000, 0x100_0000, 1)]
    ensures EnoughFrames(spans, regs) && HoldsEligible(spans, regs[0].start, regs[0].End())
    ensures exists pages: seq<u64> :: |pages| == 514 && TakenPages(pages, spans, regs)
  {
    ExampleTaken(513, spans, regs);
    ExampleTaken(514, spans, regs);
    ExampleEligible(0, spans, regs);
  }

  /** The first n pages of the region are different, and taken. */
  function ExampleList(n: nat): (pages: seq<u64>)
    requires n <= 514
    ensures |pages| == n
  {
    seq(n, i requires 0 <= i < n => 0x20_0000 + PAGE * i)
  }

  lemma ExampleTaken(n: nat, spans: seq<Span>, regs: seq<Region>)
    requires n <= 514 && spans == [Span(0x10_0000, 0x5F38)] && regs == [Region(0x20_0000, 0x100_0000, 1)]
    ensures TakenPages(ExampleList(n), spans, regs)
  {
    forall i | 0 <= i < n ensures FromRegion(ExampleList(n)[i], spans, regs, 1) {
      ExamplePage(i, spans, regs);
    }
    hide FromRegion;
  }

  lemma ExampleEligible(i: nat, spans: seq<Span>, regs: seq<Region>)
    requires i < 514 && spans == [Span(0x10_0000, 0x5F38)] && regs == [Region(0x20_0000, 0x100_0000, 1)]
    ensures var p := 0x20_0000 + PAGE * i; Eligible(spans, p) && Inside(p, regs[0].start, regs[0].End())
    ensures HoldsEligible(spans, regs[0].start, regs[0].End())
  {
    var p: u64 := 0x20_0000 + PAGE * i;
    assert p == PAGE * (512 + i);
    assert Eligible(spans, p) && Inside(p, regs[0].start, regs[0].End());
  }

  lemma ExamplePage(i: nat, spans: seq<Span>, regs: seq<Region>)
    requires i < 514 && spans == [Span(0x10_0000, 0x5F38)] && regs == [Region(0x20_0000, 0x100_0000, 1)]
    ensures FromRegion(0x20_0000 + PAGE * i, spans, regs, 1)
  {
    ExampleEligible(i, spans, regs);
    hide Eligible, HoldsEligible;
    assert Takes(spans, regs[0], 0x20_0000 + PAGE * i);
  }

  /** And the heap serves: booted from this memory, a first request of 100 bytes gets the first block of
      the first page, behind its header. */
  method ExampleServes(ram: Ram, poolAddress: seq<u64>, ghost b: seq<u32>)
    returns (heap: KernelHeap, results: seq<Option<nat>>)
    requires WalkFits(b, 2) && |b| == 34 && ram.words == MemoryOf(b, 0x8000)
    requires BootReady(ram.words, 0x8000, 0x10_1000, b) && PoolAddresses(poolAddress)
    requires Sections(b, 2) == [Span(0x10_0000, 0x5F38)] && Regions(b, 2) == [Region(0x20_0000, 0x100_0000, 1)]
    modifies ram
    ensures heap.Valid() && results == [Some(0x4000_100C)] && IsLive(heap.model, 0x4000_1000, 100)
  {
    hide Sections, Regions, BootReady, WalkFits, MemoryOf, Chain, FreshStart, WordsSafe, ImageKept, AddAll;
    hide Ok, Backing, Pager.Sound, Pager.Contents, Issued, Holds, IsLive, PoolAddresses;
    ghost var m := ram.words;
    ghost var trace;
    var given;
    heap, given, results, trace := BootAndRun(ram, 0x8000, 0x10_1000, poolAddress, [Allocate(100)], b);
    ChainAt(trace, [Allocate(100)], results, poolAddress, 0);
    ExampleAffords(trace[0], m, b);
    FirstIsServed(trace[0], results[0], trace[1], poolAddress);
  }

  lemma {:induction false} ExampleAffords(s: State, m: Memory, b: seq<u32>)
    requires WalkFits(b, 2) && |b| == 34 && m == MemoryOf(b, 0x8000)
    requires Sections(b, 2) == [Span(0x10_0000, 0x5F38)] && Regions(b, 2) == [Region(0x20_0000, 0x100_0000, 1)]
    requires FreshStart(s, m, Sections(b, 2), Regions(b, 2))
    ensures s.heap == EMPTY && s.count == 0 && AffordableAt(s.heap, s.count, s.free, s.words, 100)
  {
    hide WalkFits, Sections, Regions, AddAll, NeverFull, AllBelowTop, MemoryOf, InnerKept, AllSafe, ManyFree;
    ExampleFree(s.free, Span(0x10_0000, 0x5F38), [Region(0x20_0000, 0x100_0000, 1)]);
    InnerWord(s.free, m, s.words, PAGE - 512);
    OutsideMemory(b, s.free[0] + (PAGE - 512));
    FirstTile();
  }

  lemma ExampleFree(free: seq<u64>, image: Span, regs: seq<Region>)
    requires image == Span(0x10_0000, 0x5F38) && regs == [Region(0x20_0000, 0x100_0000, 1)]
    requires AllSafe(AsSet(free), [image], regs) && AllBelowTop([image]) && ManyFree(|free| + 513, AddAll([], [image]), regs)
    ensures free != [] && 0x20_0000 <= free[0]
  {
    hide AddAll, NeverFull, AllBelowTop, TakenPages, ExampleList;
    ExampleSpans(image);
    ExampleTaken(514, [image], regs);
    assert |ExampleList(514)| <= |free| + 513;
    assert free[0] in AsSet(free) && FrameSafe(free[0], [image], regs);
    assert Inside(free[0], 0x20_0000, 0x120_0000);
  }

  lemma InnerWord(frames: seq<u64>, m: Memory, m': Memory, i: nat)
    requires InnerKept(frames, m, m') && frames != [] && 0 < i < PAGE
    ensures Word(m', frames[0] + i) == Word(m, frames[0] + i)
  {
  }

  lemma OutsideMemory(b: seq<u32>, a: nat)
    requires |b| == 34 && 0x20_0000 <= a
    ensures Word(MemoryOf(b, 0x8000), a) == 0
  {
  }

  lemma FirstIsServed(s: State, result: Option<nat>, t: State, addr: seq<u64>)
    requires CallStep(s, Allocate(100), result, t) && Good(t, addr)
    requires s.heap == EMPTY && s.count == 0 && AffordableAt(s.heap, s.count, s.free, s.words, 100)
    ensures result == Some(0x4000_100C) && IsLive(t.heap, 0x4000_1000, 100)
  {
    hide AffordableAt, Intact, Ok, Backing;
    FirstTile();
    hide Tiles;
    assert Holds(t.given, t.heap);
  }

  lemma FirstTile()
    ensures PoolFor(100) == 1 && Tiles(0x4000_1000, 512)[0] == 0x4000_1000
  {
  }
}
