/** The virtual allocator and demand pager. */
module Paging {
  import opened Words
  import opened Entries
  import opened Frames
  import opened PageNumbers
  import opened PageTree

  /** Page 0 and the pages beyond the k-th are untouched; the pages handed out are not. */
  ghost predicate Issued(phase: seq<Phase>, k: int) {
    forall n :: 0 <= n < |phase| ==> (phase[n] == Untouched <==> n == 0 || k < n)
  }

  /** How far a page has come in its life. */
  function Stage(ph: Phase): nat {
    match ph
    case Untouched => 0
    case Allocatable => 1
    case Present(_) => 2
    case Freed => 3
  }

  /** Pages only move forward, and a present page keeps its frame as long as it is present. */
  ghost predicate Advances(before: seq<Phase>, after: seq<Phase>) {
    && |before| == |after|
    && forall n :: 0 <= n < |before| ==>
         Stage(before[n]) <= Stage(after[n]) && (Stage(before[n]) == Stage(after[n]) ==> before[n] == after[n])
  }

  /** One call hands out the k-th page, which nobody used before, and marks it; past the last page it
      hands out null and marks nothing. */
  ghost predicate HandsOut(before: seq<Phase>, after: seq<Phase>, k: nat, address: u64) {
    if k < |before|
    then address == PageAddress(k) && before[k] == Untouched && after == before[k := Allocatable]
    else address == 0 && after == before
  }

  /** `num` calls hand out the pages that follow the k-th. */
  ghost predicate HandsOutMany(before: seq<Phase>, after: seq<Phase>, k: nat, num: nat) {
    && |after| == |before|
    && forall n :: 0 <= n < |before| ==> after[n] == if k < n <= k + num then Allocatable else before[n]
  }

  /** `num` pages from n on are freed, and their frames are appended in the order of the pages. */
  ghost predicate FreesMany(before: seq<Phase>, after: seq<Phase>, free: seq<u64>, free': seq<u64>, n: nat, num: nat) {
    && |after| == |before| && n + num <= |before| && |free'| == |free| + num && free <= free'
    && (forall k :: 0 <= k < |before| ==> after[k] == if n <= k < n + num then Freed else before[k])
    && (forall k :: n <= k < n + num ==> before[k].Present? && free'[|free| + (k - n)] == before[k].frame)
  }

  lemma NextPageNumber(start: nat, i: nat, address: nat)
    requires InHeapRange(start) && PageNumber(start) + i < PAGES && address == start + PAGE * i
    ensures InHeapRange(address) && PageNumber(address) == PageNumber(start) + i
  {
    PageNumberIs(address, PageNumber(start) + i);
  }

  /** A page that was absent now shows the words of a frame; all other contents are as before. */
  ghost predicate ShowsFrame(before: Memory, after: Memory, page: nat, m: Memory, f: u64) {
    && (forall va :: va in before ==> va in after && after[va] == before[va])
    && (forall va :: va in after && va !in before ==> page <= va < page + PAGE)
    && (forall va :: va in before ==> !(page <= va < page + PAGE))
    && (forall va :: page <= va < page + PAGE && AtWord(va) ==> va in after && after[va] == Word(m, f + (va - page)))
  }

  /** The contents without one page. */
  ghost function Without(m: Memory, page: nat): Memory {
    map va | va in m && !(page <= va < page + PAGE) :: m[va]
  }

  lemma InWithout(m: Memory, page: nat, va: nat)
    ensures va in Without(m, page) <==> va in m && !(page <= va < page + PAGE)
    ensures va in Without(m, page) ==> Without(m, page)[va] == m[va]
  {
  }

  ghost predicate OneWordChanged(m: Memory, m': Memory, a: nat) {
    m' == m[a := Word(m', a)]
  }

  /** The entry of a page that was never handed out. */
  method UntouchedEntry() returns (w: u64)
    ensures Shows(w, Untouched) && w == 6
  {
    w := Clear();
    w := SetPresent(w, false);
    w := SetUs(w, true);
    w := SetRw(w, true);
    w := SetAddress(w, 0);
    w := SetAllocatable(w, false);
  }

  /** The entry of a page that is handed out. */
  method AllocatableEntry() returns (w: u64)
    ensures Shows(w, Allocatable) && w == 0x10_0000_0000_0000
  {
    w := Clear();
    w := SetPresent(w, false);
    w := SetAddress(w, 0);
    w := SetAllocatable(w, true);
  }

  /** The flags stand below the address. */
  lemma FlagsBelow(f: u64)
    requires Addressable(f)
    ensures f % 2 == 0 && (f + 1) / 4 % 2 == 0 && (f + 5) / 2 % 2 == 0 && f / 0x10_0000_0000_0000 % 2 == 0
  {
    assert f == 8 * (512 * (f / 4096));
    Eights(512 * (f / 4096));
    BelowTop(f);
  }

  lemma Eights(k: nat)
    ensures 8 * k % 2 == 0 && (8 * k + 1) / 4 % 2 == 0 && (8 * k + 5) / 2 % 2 == 0
  {
    Quarters(2 * k, 1);
    Halves(4 * k + 2, 1);
    Halves(4 * k, 0);
    Evens(k);
  }

  lemma Quarters(q: nat, r: nat)
    requires r < 4
    ensures (4 * q + r) / 4 == q
  {
  }

  lemma Halves(q: nat, r: nat)
    requires r < 2
    ensures (2 * q + r) / 2 == q && (2 * q + r) % 2 == r
  {
  }

  lemma Evens(k: nat)
    ensures 2 * k % 2 == 0 && (4 * k + 2) % 2 == 0
  {
    Halves(k, 0);
    Halves(2 * k + 1, 0);
  }

  lemma BelowTop(f: nat)
    requires f < 0x10_0000_0000_0000
    ensures f / 0x10_0000_0000_0000 == 0
  {
  }

  /** The entry of a page that is bound to a frame. */
  method PresentEntry(frame: u64) returns (w: u64)
    requires Addressable(frame)
    ensures Shows(w, Present(frame)) && w == (frame as int) + 7
  {
    hide Decode, Addressable;
    FlagsBelow(frame);
    w := Clear();
    w := SetAddress(w, frame);
    assert w == frame && Decode(w) == Entry(false, false, false, false, frame);
    w := SetAllocatable(w, false);
    assert w == frame && Decode(w) == Entry(false, false, false, false, frame);
    w := SetPresent(w, true);
    w := SetUs(w, true);
    assert w == (frame as int) + 5 && Decode(w) == Entry(true, false, true, false, frame);
    w := SetRw(w, true);
  }

  /** The entry of a page that was freed. */
  method FreedEntry() returns (w: u64)
    ensures Shows(w, Freed) && w == 0
  {
    w := Clear();
    w := SetPresent(w, false);
    w := SetAllocatable(w, false);
    w := SetAddress(w, 0);
    w := SetRw(w, false);
    w := SetUs(w, false);
  }

  lemma StoreKeepsQueue(frames: FrameAllocator, page: nat, a: nat, w: u64)
    requires frames.Valid() && Aligned(page) && page !in frames.free && page <= a < page + PAGE
    ensures Represents(frames.ram.words[a := w], frames.Fields(), frames.free)
  {
    var m := frames.ram.words;
    assert SameOutside(m, m[a := w], page);
    QueueKept(m, m[a := w], page, frames.Fields(), frames.free);
  }

  lemma BootLeaf(boot: seq<u64>, p3: nat, i: nat)
    requires BootFrames(boot, p3) && i < 512
    ensures Aligned(boot[1 + i]) && boot[1 + i] + PAGE <= U64 && boot[1 + i] != p3
    ensures boot[1 + i] !in boot[2 + i..] && boot[1 + i] !in boot[..1 + i]
  {
  }

  /** Makes the 512 entries of a new leaf neither present nor allocatable. */
  method ClearLeaf(frames: FrameAllocator, pml1: u64, ghost p3: nat, ghost boot: seq<u64>, ghost i: nat)
    requires frames.Valid() && BootFrames(boot, p3) && i < 512
    requires pml1 == boot[1 + i] && frames.free == boot[2 + i..]
    requires Built(frames.ram.words, p3, boot, i)
    modifies frames.ram
    ensures frames.Valid() && Built(frames.ram.words, p3, boot, i) && LeafClear(frames.ram.words, pml1, 512)
    ensures SameOutside(old(frames.ram.words), frames.ram.words, pml1)
  {
    hide Built, Decode, Represents, AreFrames, AtWord, BootFrames;
    BootLeaf(boot, p3, i);
    var j := 0;
    while j < 512
      invariant 0 <= j <= 512 && frames.Valid()
      invariant Built(frames.ram.words, p3, boot, i) && LeafClear(frames.ram.words, pml1, j)
      invariant SameOutside(old(frames.ram.words), frames.ram.words, pml1)
    {
      ghost var m := frames.ram.words;
      var w := UntouchedEntry();
      StoreKeepsQueue(frames, pml1, pml1 + 8 * j, w);
      PageWord(pml1, j);
      frames.ram.Store(pml1 + 8 * j, w);
      assert SameOutside(m, frames.ram.words, pml1);
      BuiltKept(m, frames.ram.words, pml1, p3, boot, i);
      j := j + 1;
    }
  }

  /** Links the table of the heap range into p3: the first frame taken is the root. */
  method LinkRoot(frames: FrameAllocator, p3: nat, ghost boot: seq<u64>) returns (pml2: u64)
    requires frames.Valid() && frames.free == boot && BootFrames(boot, p3)
    modifies frames, frames.ram
    ensures frames.Valid() && frames.free == boot[1..] && pml2 == boot[0]
    ensures Built(frames.ram.words, p3, boot, 0)
    ensures OnlyIn(old(frames.ram.words), frames.ram.words, {}, p3)
  {
    hide Represents;
    pml2 := frames.Alloc();
    var w := Clear();
    w := SetPresent(w, true);
    w := SetUs(w, true);
    w := SetRw(w, true);
    w := SetAddress(w, pml2);
    assert Links(w, pml2);
    StoreKeepsQueue(frames, p3, p3 + 8, w);
    PageWord(p3, 1);
    frames.ram.Store(p3 + 8, w);
  }

  /** Takes one more leaf, clears it and links it into the root. */
  method LinkLeaf(frames: FrameAllocator, pml2: u64, i: nat, ghost p3: nat, ghost boot: seq<u64>, ghost first: Memory)
    requires frames.Valid() && BootFrames(boot, p3) && i < 512
    requires pml2 == boot[0] && frames.free == boot[1 + i..]
    requires Built(frames.ram.words, p3, boot, i) && OnlyIn(first, frames.ram.words, Tables(boot), p3)
    modifies frames, frames.ram
    ensures frames.Valid() && frames.free == boot[2 + i..]
    ensures Built(frames.ram.words, p3, boot, i + 1) && OnlyIn(first, frames.ram.words, Tables(boot), p3)
  {
    hide Built, Represents, LeafClear, OnlyIn;
    ghost var m := frames.ram.words;
    var pml1 := frames.Alloc();
    assert pml1 == boot[1 + i] && frames.free == boot[2 + i..];
    ClearLeaf(frames, pml1, p3, boot, i);
    TablesHold(boot, i);
    OnlyInGrows(first, m, frames.ram.words, Tables(boot), Tables(boot), pml1, p3);
    m := frames.ram.words;
    var w := Clear();
    w := SetAddress(w, pml1);
    w := SetPresent(w, true);
    w := SetRw(w, true);
    w := SetUs(w, true);
    assert Links(w, pml1);
    StoreKeepsQueue(frames, pml2, pml2 + 8 * i, w);
    PageWord(pml2, i);
    BuiltNext(frames.ram.words, p3, boot, i, w);
    frames.ram.Store(pml2 + 8 * i, w);
    OnePageWritten(m, pml2, pml2 + 8 * i, w);
    OnlyInGrows(first, m, frames.ram.words, Tables(boot), Tables(boot), pml2, p3);
  }

  /** The frames that become tables. */
  ghost function Tables(boot: seq<u64>): set<u64>
    requires 513 <= |boot|
  {
    set f | f in boot[..513]
  }

  lemma TablesHold(boot: seq<u64>, i: nat)
    requires 513 <= |boot| && i < 512
    ensures boot[0] in Tables(boot) && boot[1 + i] in Tables(boot)
  {
    assert boot[..513][0] == boot[0] && boot[..513][1 + i] == boot[1 + i];
  }

  ghost function AsSet(s: seq<u64>): set<u64> {
    set f | f in s
  }

  lemma TablesAreFree(boot: seq<u64>, p3: nat)
    requires BootFrames(boot, p3)
    ensures 513 <= |boot| && Tables(boot) <= AsSet(boot)
  {
  }

  lemma OnlyInNone(m: Memory, m': Memory, frames: set<u64>, p3: nat)
    requires OnlyIn(m, m', {}, p3)
    ensures OnlyIn(m, m', frames, p3)
  {
  }

  /** The free frames that stay behind the tables keep all their words. */
  lemma RestUntouched(boot: seq<u64>, p3: nat, m: Memory, m': Memory)
    requires BootFrames(boot, p3) && OnlyIn(m, m', Tables(boot), p3)
    ensures SameWords(boot[513..], m, m')
  {
    forall i, a: nat | 513 <= i < |boot| && boot[i] <= a < boot[i] + PAGE ensures Word(m', a) == Word(m, a) {
      forall f | f in Tables(boot) ensures !(f <= a < f + PAGE) {
        var k :| 0 <= k < 513 && boot[k] == f;
        FramesApart(f, boot[i], a);
      }
      FramesApart(p3, boot[i], a);
      LinkInPage(p3, a);
    }
  }

  lemma LinkInPage(p3: nat, a: nat)
    requires !(p3 <= a < p3 + PAGE)
    ensures a != p3 + 8
  {
  }

  lemma FramesApart(f: nat, g: nat, a: nat)
    requires Aligned(f) && Aligned(g) && f != g && g <= a < g + PAGE
    ensures !(f <= a < f + PAGE)
  {
    if f < g { AlignedGap(f, g); } else { AlignedGap(g, f); }
  }

  /** Every word of these frames reads the same. */
  ghost predicate SameWords(frames: seq<u64>, m: Memory, m': Memory) {
    forall i, a: nat :: 0 <= i < |frames| && frames[i] <= a < frames[i] + PAGE ==> Word(m', a) == Word(m, a)
  }

  /** Builds the tree: the root and the leaves are the first 513 free frames. */
  method BuildTree(frames: FrameAllocator, p3: nat)
    returns (ghost root: u64, ghost leaves: seq<u64>, ghost phase: seq<Phase>, ghost owner: map<u64, Owner>)
    requires frames.Valid() && BootFrames(frames.free, p3)
    modifies frames, frames.ram
    ensures frames.Valid() && frames.free == old(frames.free)[513..]
    ensures Consistent(frames.ram.words, p3, frames.Fields(), frames.free,
                       root, leaves, phase, owner)
    ensures Issued(phase, 0) && |phase| == PAGES && |leaves| == 512
    ensures root == old(frames.free)[0] && leaves == old(frames.free)[1..513]
    ensures FreshWords(frames.ram.words, p3, root, leaves)
    ensures (forall f :: f in owner <==> f in old(frames.free)) && |owner| == |old(frames.free)|
    ensures OnlyIn(old(frames.ram.words), frames.ram.words, Tables(old(frames.free)), p3)
  {
    hide Built, Represents, Consistent, OnlyIn, FreshWords;
    ghost var boot, first := frames.free, frames.ram.words;
    var pml2 := LinkRoot(frames, p3, boot);
    OnlyInNone(first, frames.ram.words, Tables(boot), p3);
    var i := 0;
    while i < 512
      invariant 0 <= i <= 512 && frames.Valid() && frames.free == boot[1 + i..]
      invariant Built(frames.ram.words, p3, boot, i) && OnlyIn(first, frames.ram.words, Tables(boot), p3)
    {
      LinkLeaf(frames, pml2, i, p3, boot, first);
      i := i + 1;
    }
    root, leaves, phase, owner := boot[0], boot[1..513], seq(PAGES, _ => Untouched), FirstOwners(boot);
    BuiltIsConsistent(frames.ram.words, p3, boot, frames.Fields());
    BuiltWords(frames.ram.words, p3, boot);
  }

  /** The words of the tables: links to the root and the leaves, and 512 * 512 entries that are 6. */
  ghost predicate FreshWords(m: Memory, p3: nat, root: u64, leaves: seq<u64>) {
    && |leaves| == 512 && Word(m, p3 + 8) == (root as int) + 7
    && (forall i :: 0 <= i < 512 ==> Word(m, root + 8 * i) == (leaves[i] as int) + 7 && AllSix(m, leaves[i]))
  }

  ghost predicate AllSix(m: Memory, leaf: nat) {
    forall j :: 0 <= j < 512 ==> Word(m, leaf + 8 * j) == 6
  }

  lemma BuiltWords(m: Memory, p3: nat, boot: seq<u64>)
    requires 513 <= |boot| && Built(m, p3, boot, 512)
    ensures FreshWords(m, p3, boot[0], boot[1..513])
  {
    hide Decode;
    var root: nat, leaves := boot[0], boot[1..513];
    forall i | 0 <= i < 512 ensures Word(m, root + 8 * i) == (leaves[i] as int) + 7 && AllSix(m, leaves[i]) {
      assert Links(Word(m, root + 8 * (i + 1 - 1)), boot[i + 1]) && LeafClear(m, boot[i + 1], 512);
    }
  }

  class Pager {
    const ram: Ram
    const frames: FrameAllocator
    const numbers: PageCounter
    const p3: nat
    ghost var root: u64
    ghost var leaves: seq<u64>
    ghost var phase: seq<Phase>
    ghost var owner: map<u64, Owner>
    /** Memory at the boot. Only frames of the pager, and the link to its root, have changed since. */
    ghost const booted: Memory

    /** Memory, queue, tables and ownership fit together. */
    ghost predicate Sound()
      reads this, ram, frames
    {
      && frames.ram == ram && frames.Valid() && |owner| < U32 && |leaves| == 512 && |phase| == PAGES
      && Consistent(ram.words, p3, frames.Fields(), frames.free, root, leaves, phase, owner)
      && OnlyIn(booted, ram.words, owner.Keys, p3)
    }

    ghost predicate Valid()
      reads this, ram, frames, numbers
    {
      Sound() && |phase| == PAGES && numbers.Valid() && Issued(phase, numbers.Count())
    }

    /** The word that the hardware finds at a virtual address. */
    ghost function VirtualWord(va: nat): u64
      reads ram
    {
      Word(ram.words, Translate(ram.words, p3, va))
    }

    /** Builds the tables: one root, 512 leaves, and 512 * 512 entries that are neither present nor
        allocatable. The root and the leaves are the first 513 free frames. */
    constructor PtInit(frames: FrameAllocator, numbers: PageCounter, p3: nat, ghost first: Memory)
      requires frames.Valid() && BootFrames(frames.free, p3) && |frames.free| < U32
      requires OnlyIn(first, frames.ram.words, AsSet(frames.free), p3)
      requires numbers.Valid() && numbers.Count() == 0
      modifies frames, frames.ram
      ensures this.frames == frames && this.numbers == numbers && this.p3 == p3 && this.ram == frames.ram
      ensures Valid() && booted == first && |frames.free| + 513 == |old(frames.free)|
      ensures SameWords(frames.free, old(frames.ram.words), frames.ram.words)
      ensures root == old(frames.free)[0] && leaves == old(frames.free)[1..513]
      ensures FreshWords(ram.words, p3, root, leaves)
      ensures forall f :: f in owner <==> f in old(frames.free)
    {
      hide Represents, Consistent, BootFrames, AreFrames, AtWord, OnlyIn, SameWords, FreshWords;
      ghost var boot, m := frames.free, frames.ram.words;
      booted := first;
      this.ram, this.frames, this.numbers, this.p3 := frames.ram, frames, numbers, p3;
      root, leaves, phase, owner := 0, [], [], map[];
      new;
      ghost var r, l, ph, o := BuildTree(frames, p3);
      root, leaves, phase, owner := r, l, ph, o;
      TablesAreFree(boot, p3);
      OnlyInThen(first, m, frames.ram.words, AsSet(boot), Tables(boot), p3);
      assert owner.Keys == AsSet(boot);
      RestUntouched(boot, p3, m, frames.ram.words);
    }

    /** Writing the entry of a page leaves everything but the frames of the pager alone. */
    lemma EntryInFrames(n: nat, w: u64)
      requires OnlyIn(booted, ram.words, owner.Keys, p3)
      requires |leaves| == 512 && n < PAGES && leaves[n / 512] in owner
      ensures OnlyIn(booted, ram.words[EntryAt(leaves, n) := w], owner.Keys, p3)
    {
      hide OnlyIn;
      OnePageWritten(ram.words, leaves[n / 512], EntryAt(leaves, n), w);
      OnlyInGrows(booted, ram.words, ram.words[EntryAt(leaves, n) := w], owner.Keys, owner.Keys, leaves[n / 512], p3);
    }

    lemma OnlyFramesChanged()
      requires Sound()
      ensures OnlyIn(booted, ram.words, owner.Keys, p3)
    {
    }

    lemma FreeAreFrames()
      requires Sound()
      ensures AreFrames(frames.free)
    {
      frames.ListIsDistinct();
    }

    lemma FreeAreOwned()
      requires Sound()
      ensures forall f :: f in frames.free ==> f in owner
    {
      hide TreeAt, EntriesAt, Represents, OnlyIn, AreFrames;
    }

    lemma LeafOwned(n: nat)
      requires Sound() && n < PAGES
      ensures leaves[n / 512] in owner
    {
      hide TreeAt, EntriesAt, Represents, OnlyIn;
    }

    /** So does linking a freed frame behind the tail and writing its entry. */
    lemma ReleaseInFrames(m: Memory, tail: u64, n: nat, f: u64, w: u64)
      requires OnlyIn(booted, m, owner.Keys, p3) && tail in owner
      requires |leaves| == 512 && n < PAGES && leaves[n / 512] in owner
      ensures OnlyIn(booted, m[tail := f][EntryAt(leaves, n) := w], owner.Keys, p3)
    {
      hide OnlyIn;
      var m1 := m[tail := f];
      var m2 := m1[EntryAt(leaves, n) := w];
      OnePageWritten(m, tail, tail, f);
      OnePageWritten(m1, leaves[n / 512], EntryAt(leaves, n), w);
      OnlyInGrows(booted, m, m1, owner.Keys, owner.Keys, tail, p3);
      OnlyInGrows(booted, m1, m2, owner.Keys, owner.Keys, leaves[n / 512], p3);
    }

    lemma TailOwned()
      requires Sound() && frames.free != []
      ensures frames.pageTail in owner
    {
      hide TreeAt, EntriesAt, OnlyIn;
      TailIsFree(ram.words, frames.Fields(), frames.free);
    }

    /** The virtual memory of all present pages, word by word. */
    ghost function Contents(): Memory
      requires |phase| == PAGES
      reads this, ram
    {
      map va: nat | BASE <= va < BASE + PAGE * PAGES && Backed(phase, va) :: VirtualWord(va)
    }

    lemma EntryFound(a: nat)
      requires Sound() && InHeapRange(a)
      ensures Pml1Entry(ram.words, p3, a) == EntryAt(leaves, PageNumber(a)) && AtWord(EntryAt(leaves, PageNumber(a)))
      ensures Shows(Word(ram.words, Pml1Entry(ram.words, p3, a)), phase[PageNumber(a)])
    {
      WalkReachesEntry(ram.words, p3, root, leaves, a);
      LeavesDistinct(owner, frames.free, root, leaves, phase);
      hide Owned, TreeAt, Represents, Decode, Shows, Pml1Entry, AtWord, Aligned;
      EntryAtWord(leaves, PageNumber(a));
    }

    /** A backed word stands in a frame of the pager. */
    lemma BackedIsOwned(va: nat)
      requires Sound() && Backed(phase, va)
      ensures var f := phase[PageNumber(va)].frame; f in owner && Translate(ram.words, p3, va) == f + va % PAGE
    {
      TranslateBacked(ram.words, p3, root, leaves, phase, va);
    }

    /** The entry of a page that was never handed out names the null frame. */
    lemma UntouchedNamesNull(a: nat)
      requires Valid() && InHeapRange(a) && phase[PageNumber(a)] == Untouched
      ensures GetAdd(Word(ram.words, Pml1Entry(ram.words, p3, a))) == 0 && 0 !in owner
    {
      EntryFound(a);
    }

    /** So when the tables were just built, freeing any page would hand over the null frame. */
    lemma FreshPageNamesNull()
      requires Valid() && numbers.Count() == 0
      ensures GetAdd(Word(ram.words, Pml1Entry(ram.words, p3, 0x4000_5000))) == 0 && 0 !in owner
    {
      PageNumberIs(0x4000_5000, 5);
      UntouchedNamesNull(0x4000_5000);
    }

    /** The counter of free frames is exact: fewer than 2^32 frames exist. */
    lemma CountIsExact()
      requires Sound()
      ensures frames.count == |frames.free| && |frames.free| + 513 + |Mapped(phase)| == |owner|
    {
      hide Owned, TreeAt, EntriesAt, AreFrames, AtWord, Mapped;
      FramesConserved(owner, frames.free, root, leaves, phase);
    }

    lemma FirstFree()
      requires Sound()
      ensures frames.free != [] ==> frames.pageHead == frames.free[0]
    {
    }

    method IsPresent(a: nat) returns (r: bool)
      requires Valid() && InHeapRange(a)
      ensures r <==> phase[PageNumber(a)].Present?
    {
      EntryFound(a);
      r := Bit(Word(ram.words, Pml1Entry(ram.words, p3, a)), PRESENT);
    }

    method IsAllocatable(a: nat) returns (r: bool)
      requires Valid() && InHeapRange(a)
      ensures r <==> phase[PageNumber(a)] == Allocatable
    {
      EntryFound(a);
      r := Bit(Word(ram.words, Pml1Entry(ram.words, p3, a)), ALLOCATABLE);
    }

    /** Hands out the next virtual page and marks it for demand allocation. Its entry was untouched,
        so no present page is ever wiped. From the last page on it returns null. */
    method AllocPage() returns (address: u64)
      requires Valid() && numbers.Count() < LAST_COUNT
      modifies this`phase, ram, numbers
      ensures Valid() && numbers.Count() == old(numbers.Count()) + 1
      ensures HandsOut(old(phase), phase, numbers.Count(), address)
      ensures Contents() == old(Contents())
      ensures numbers.Count() < PAGES ==> OneWordChanged(old(ram.words), ram.words, EntryAt(leaves, numbers.Count()))
      ensures numbers.Count() >= PAGES ==> ram.words == old(ram.words)
      ensures var n := numbers.Count();
              n < 262144 ==> Word(ram.words, leaves[n / 512] + 8 * (n % 512)) == 0x10_0000_0000_0000
      ensures forall f, a: nat :: f in frames.free && f <= a < f + PAGE ==> Word(ram.words, a) == Word(old(ram.words), a)
      ensures forall va :: Backed(old(phase), va) ==> Backed(phase, va) && VirtualWord(va) == old(VirtualWord(va))
    {
      hide Consistent, Decode, Translate, Pml1Entry, Shows, AreFrames, AtWord, Represents, Contents;
      hide InHeapRange, PageNumber, OnlyIn;
      ghost var contents := Contents();
      ContentsAre();
      numbers.CountBoundsDigit();
      address := numbers.Next();
      if address == 0 {
        return;
      }
      ghost var k := numbers.Count();
      PageNumberIs(address, k);
      EntryFound(address);
      var entry := Pml1Entry(ram.words, p3, address);
      var w := AllocatableEntry();
      ReserveStep(ram.words, p3, frames.Fields(), frames.free, root, leaves, phase, owner, k, w);
      MarkKeepsView(k, w);
      LeafOwned(k);
      EntryInFrames(k, w);
      EntryIsNotFree(k);
      ram.Store(entry, w);
      phase := phase[k := Allocatable];
      ContentsSame(contents);
    }

    /** No entry stands in a free frame. */
    lemma EntryIsNotFree(k: nat)
      requires Sound() && k < PAGES
      ensures forall f :: f in frames.free ==> EntryAt(leaves, k) < f || f + PAGE <= EntryAt(leaves, k)
    {
      UsesDiffer(owner, frames.free, root, leaves, phase, p3);
      forall f | f in frames.free ensures EntryAt(leaves, k) < f || f + PAGE <= EntryAt(leaves, k) {
        hide Owned, TreeAt, EntriesAt, Represents;
        var leaf := leaves[k / 512];
        if leaf < f { AlignedGap(leaf, f); } else { AlignedGap(f, leaf); }
      }
    }

    /** Marking an untouched page leaves the contents of all present pages alone. */
    lemma MarkKeepsView(k: nat, w: u64)
      requires Sound() && k < PAGES && phase[k] == Untouched && Shows(w, Allocatable)
      ensures var m := ram.words[EntryAt(leaves, k) := w];
              forall va :: Backed(phase, va) ==>
                Backed(phase[k := Allocatable], va) && Word(m, Translate(m, p3, va)) == VirtualWord(va)
    {
      var m := ram.words[EntryAt(leaves, k) := w];
      forall va | Backed(phase, va) ensures Word(m, Translate(m, p3, va)) == VirtualWord(va) {
        EntryWriteKeepsView(ram.words, m, p3, frames.Fields(), frames.free, root, leaves, phase, owner, k, w,
                            Allocatable, va);
      }
    }

    /** Hands out consecutive pages if at least as many frames are free; null otherwise. */
    method AllocPages(num: int) returns (start: u64)
      requires Valid() && numbers.Count() + num <= LAST_COUNT
      modifies this`phase, ram, numbers
      ensures Valid()
      ensures num < 1 || num > |frames.free| ==>
                start == 0 && phase == old(phase) && numbers.Count() == old(numbers.Count())
      ensures 1 <= num <= |frames.free| ==>
                var k := old(numbers.Count());
                && start == (if k + 1 < PAGES then PageAddress(k + 1) else 0)
                && numbers.Count() == k + num && HandsOutMany(old(phase), phase, k, num)
      ensures Contents() == old(Contents())
    {
      hide Consistent;
      if num < 1 {
        return 0;
      }
      CountIsExact();
      if num > frames.count {
        return 0;
      }
      ghost var k, before := numbers.Count(), phase;
      start := AllocPage();
      var left := num - 1;
      while left != 0
        invariant 0 <= left < num && Valid() && numbers.Count() == k + (num - left)
        invariant HandsOutMany(before, phase, k, num - left) && Contents() == old(Contents())
      {
        var _ := AllocPage();
        left := left - 1;
      }
    }

    /** The page-fault handler's question, answered by allocating: it binds the first free frame when
        the page is allocatable and a frame remains, and otherwise changes nothing at all. */
    method CanAllocate(a: nat) returns (r: bool)
      requires Valid() && InHeapRange(a)
      modifies this`phase, this`owner, ram, frames
      ensures Valid() && owner.Keys == old(owner).Keys
      ensures r <==> old(phase)[PageNumber(a)] == Allocatable && old(frames.free) != []
      ensures r ==>
                var n, f := PageNumber(a), old(frames.free)[0];
                && phase == old(phase)[n := Present(f)] && owner == old(owner)[f := Page(n)]
                && frames.free == old(frames.free)[1..]
                && OneWordChanged(old(ram.words), ram.words, EntryAt(leaves, n))
      ensures var n := PageNumber(a);
              r ==> Word(ram.words, leaves[n / 512] + 8 * (n % 512)) == (old(frames.free)[0] as int) + 7
      ensures !r ==>
                phase == old(phase) && owner == old(owner) && frames.free == old(frames.free) && ram.words == old(ram.words)
      ensures forall va :: Backed(old(phase), va) ==> Backed(phase, va) && VirtualWord(va) == old(VirtualWord(va))
    {
      hide TreeAt, EntriesAt, Owned, Decode, Translate, Pml1Entry, Shows, Represents, OnlyIn;
      ghost var n := PageNumber(a);
      EntryFound(a);
      var allocatable := IsAllocatable(a);
      if !allocatable {
        return false;
      }
      CountIsExact();
      if frames.count < 1 {
        return false;
      }
      var entry := Pml1Entry(ram.words, p3, a);
      ghost var queue, free := frames.Fields(), frames.free;
      BindFacts();
      LeafOwned(n);
      var frame := frames.Alloc();
      var w := PresentEntry(frame);
      EntryInFrames(n, w);
      BindStep(ram.words, p3, queue, free, root, leaves, phase, owner, n, w);
      BindKeepsView(queue, free, n, w);
      ram.Store(entry, w);
      ghost var keys := owner.Keys;
      phase, owner := phase[n := Present(frame)], owner[frame := Page(n)];
      assert owner.Keys == keys;
      return true;
    }

    lemma BindFacts()
      requires Sound() && frames.free != []
      ensures Addressable(frames.free[0]) && frames.free[0] in owner && frames.free[0] != 0
    {
      assert frames.free[0] in frames.free;
    }

    lemma BindKeepsView(queue: FreePages, free: seq<u64>, n: nat, w: u64)
      requires Consistent(ram.words, p3, queue, free, root, leaves, phase, owner) && |leaves| == 512 && |phase| == PAGES
      requires free != [] && n < PAGES && phase[n] == Allocatable && Shows(w, Present(free[0]))
      ensures var m := ram.words[EntryAt(leaves, n) := w];
              forall va :: Backed(phase, va) ==>
                Backed(phase[n := Present(free[0])], va) && Word(m, Translate(m, p3, va)) == VirtualWord(va)
    {
      var m := ram.words[EntryAt(leaves, n) := w];
      forall va | Backed(phase, va) ensures Word(m, Translate(m, p3, va)) == VirtualWord(va) {
        EntryWriteKeepsView(ram.words, m, p3, queue, free, root, leaves, phase, owner, n, w, Present(free[0]), va);
      }
    }

    /** Takes a present page out of its entry and puts its frame at the end of the queue. */
    method FreePage(a: nat)
      requires Valid() && InHeapRange(a) && phase[PageNumber(a)].Present? && frames.free != []
      modifies this`phase, this`owner, ram, frames
      ensures Valid() && owner.Keys == old(owner).Keys
      ensures var n := PageNumber(a);
              var f := old(phase)[n].frame;
              && phase == old(phase)[n := Freed] && owner == old(owner)[f := Free]
              && frames.free == old(frames.free) + [f]
              && OneWordChanged(old(ram.words)[old(frames.pageTail) := f], ram.words, EntryAt(leaves, n))
              && Word(ram.words, leaves[n / 512] + 8 * (n % 512)) == 0
      ensures forall va :: Backed(phase, va) ==> Backed(old(phase), va) && VirtualWord(va) == old(VirtualWord(va))
      ensures Contents() == Without(old(Contents()), PageAddress(PageNumber(a)))
      ensures forall va :: Backed(phase, va) ==> Word(Contents(), va) == Word(old(Contents()), va)
    {
      hide TreeAt, EntriesAt, Owned, Decode, Translate, Pml1Entry, Shows, Represents, AreFrames, AtWord, Contents;
      hide IsFrame, InHeapRange, PageNumber, PageAddress, Without, OnlyIn;
      ghost var n, before, contents := PageNumber(a), phase, Contents();
      ghost var queue, free, m := frames.Fields(), frames.free, ram.words;
      ContentsAre();
      EntryFound(a);
      ReleaseFacts(n);
      var entry := Pml1Entry(ram.words, p3, a);
      var frame := GetAdd(Word(ram.words, entry));
      LeafOwned(n);
      TailOwned();
      ghost var tail := frames.pageTail;
      frames.Free(frame);
      var w := FreedEntry();
      ReleaseInFrames(m, tail, n, frame, w);
      ReleaseStep(m, p3, queue, free, root, leaves, phase, owner, n, w);
      ReleaseLeavesView(m, queue, free, n, w);
      ram.Store(entry, w);
      ghost var keys := owner.Keys;
      phase, owner := phase[n := Freed], owner[frame := Free];
      assert owner.Keys == keys;
      ContentsFreed(contents, before, n);
      ContentsAre();
    }

    lemma ContentsAre()
      requires |phase| == PAGES
      ensures forall va: nat :: va in Contents() <==> Backed(phase, va)
      ensures forall va: nat :: Backed(phase, va) ==> Contents()[va] == VirtualWord(va)
    {
      hide VirtualWord, AtWord, PageNumber;
    }

    lemma ContentsSame(contents: Memory)
      requires |phase| == PAGES
      requires forall va: nat :: va in contents <==> Backed(phase, va)
      requires forall va: nat :: Backed(phase, va) ==> VirtualWord(va) == contents[va]
      ensures Contents() == contents
    {
      ContentsAre();
      hide VirtualWord, AtWord, Contents;
      assert Contents().Keys == contents.Keys;
    }

    lemma ContentsFreed(contents: Memory, before: seq<Phase>, n: nat)
      requires |phase| == PAGES && |before| == PAGES && n < PAGES && before[n].Present? && phase == before[n := Freed]
      requires forall va: nat :: va in contents <==> Backed(before, va)
      requires forall va: nat :: Backed(phase, va) ==> Backed(before, va) && VirtualWord(va) == contents[va]
      ensures Contents() == Without(contents, PageAddress(n))
    {
      ContentsAre();
      hide VirtualWord, AtWord, Contents, Without;
      forall va: nat ensures va in Contents() <==> va in Without(contents, PageAddress(n)) {
        InWithout(contents, PageAddress(n), va);
        if PageAddress(n) <= va < PageAddress(n) + PAGE { PageNumberIs(va, n); }
      }
      forall va: nat | va in Contents() ensures Contents()[va] == Without(contents, PageAddress(n))[va] {
        InWithout(contents, PageAddress(n), va);
      }
    }

    lemma ContentsBound(contents: Memory, before: seq<Phase>, n: nat, f: u64, m: Memory)
      requires |phase| == PAGES && |before| == PAGES && n < PAGES && !before[n].Present? && phase == before[n := Present(f)]
      requires forall va: nat :: va in contents <==> Backed(before, va)
      requires forall va: nat :: Backed(before, va) ==> VirtualWord(va) == contents[va]
      requires forall va: nat :: PageAddress(n) <= va < PageAddress(n) + PAGE && AtWord(va) ==>
                 Backed(phase, va) && PageNumber(va) == n && VirtualWord(va) == Word(m, f + (va - PageAddress(n)))
      ensures ShowsFrame(contents, Contents(), PageAddress(n), m, f)
    {
      ContentsAre();
      hide VirtualWord, AtWord, Contents;
    }

    lemma ReleaseFacts(n: nat)
      requires Sound() && n < PAGES && phase[n].Present?
      ensures var f := phase[n].frame;
              f in owner && f !in frames.free && IsFrame(f) && GetAdd(Word(ram.words, EntryAt(leaves, n))) == f
      ensures frames.free != [] ==> frames.pageTail == frames.free[|frames.free| - 1]
    {
      OwnedRelease(owner, frames.free, root, leaves, phase, n);
      assert Shows(Word(ram.words, EntryAt(leaves, n)), phase[n]);
    }

    lemma ReleaseLeavesView(m: Memory, queue: FreePages, free: seq<u64>, n: nat, w: u64)
      requires Consistent(m, p3, queue, free, root, leaves, phase, owner) && |leaves| == 512 && |phase| == PAGES
      requires free != [] && n < PAGES && phase[n].Present? && Shows(w, Freed)
      ensures var m' := m[queue.tail := phase[n].frame][EntryAt(leaves, n) := w];
              forall va :: Backed(phase[n := Freed], va) ==>
                Backed(phase, va) && Word(m', Translate(m', p3, va)) == Word(m, Translate(m, p3, va))
    {
      var m' := m[queue.tail := phase[n].frame][EntryAt(leaves, n) := w];
      forall va | Backed(phase[n := Freed], va) ensures Word(m', Translate(m', p3, va)) == Word(m, Translate(m, p3, va)) {
        assert PageNumber(va) != n;
        ReleaseKeepsView(m, m', p3, queue, free, root, leaves, phase, owner, n, w, va);
      }
    }

    /** Frees `num` consecutive present pages, in order. */
    method FreePages(start: nat, num: nat)
      requires Valid() && frames.free != [] && InHeapRange(start) && PageNumber(start) + num <= PAGES
      requires forall n :: PageNumber(start) <= n < PageNumber(start) + num ==> phase[n].Present?
      modifies this`phase, this`owner, ram, frames
      ensures Valid() && FreesMany(old(phase), phase, old(frames.free), frames.free, PageNumber(start), num)
      ensures owner.Keys == old(owner).Keys
      ensures forall va :: Backed(phase, va) ==> Word(Contents(), va) == Word(old(Contents()), va)
    {
      hide Sound, Contents, Without, VirtualWord, Issued, AtWord;
      ghost var n, before, free := PageNumber(start), phase, frames.free;
      var address, left := start, num;
      while left != 0
        invariant 0 <= left <= num && address == start + PAGE * (num - left) && Valid() && frames.free != []
        invariant FreesMany(before, phase, free, frames.free, n, num - left)
        invariant forall va :: Backed(phase, va) ==> Word(Contents(), va) == Word(old(Contents()), va)
        invariant owner.Keys == old(owner).Keys
      {
        NextPageNumber(start, num - left, address);
        FreePage(address);
        address := address + PAGE;
        left := left - 1;
      }
    }

    /** What the hardware does for a load. */
    method Load(va: nat) returns (v: u64)
      requires Valid() && Backed(phase, va)
      ensures v == Word(Contents(), va)
    {
      v := Word(ram.words, Translate(ram.words, p3, va));
    }

    /** What an access to an absent page makes of it: it faults, and the handler backs a page that was
        handed out by the first free frame, with whatever that frame happens to hold. */
    method Fault(va: nat) returns (r: bool)
      requires Valid() && InHeapRange(va)
      modifies this`phase, this`owner, ram, frames
      ensures Valid() && owner.Keys == old(owner).Keys
      ensures r <==> old(phase)[PageNumber(va)] == Allocatable && old(frames.free) != []
      ensures r ==>
                var n, f := PageNumber(va), old(frames.free)[0];
                && phase == old(phase)[n := Present(f)] && owner == old(owner)[f := Page(n)]
                && frames.free == old(frames.free)[1..]
                && ShowsFrame(old(Contents()), Contents(), PageAddress(n), old(ram.words), f)
      ensures !r ==> phase == old(phase) && owner == old(owner) && frames.free == old(frames.free)
      ensures !r ==> Contents() == old(Contents())
    {
      hide Consistent, Translate, AreFrames, AtWord, InHeapRange, PageNumber, PageAddress, Contents, ShowsFrame, VirtualWord;
      hide Represents;
      ghost var n, free, m, before, contents := PageNumber(va), frames.free, ram.words, phase, Contents();
      ContentsAre();
      r := CanAllocate(va);
      if r {
        PageShowsFrame(n, free[0], m);
        ContentsBound(contents, before, n, free[0], m);
      } else {
        ContentsSame(contents);
      }
    }

    /** The first access to a page that was handed out, while a frame is free. */
    method Touch(va: nat)
      requires Valid() && InHeapRange(va) && frames.free != []
      requires phase[PageNumber(va)] == Allocatable
      modifies this`phase, this`owner, ram, frames
      ensures Valid() && owner.Keys == old(owner).Keys
      ensures var n, f := PageNumber(va), old(frames.free)[0];
              && phase == old(phase)[n := Present(f)] && frames.free == old(frames.free)[1..]
              && ShowsFrame(old(Contents()), Contents(), PageAddress(n), old(ram.words), f)
      ensures forall vb :: Backed(old(phase), vb) ==> Word(Contents(), vb) == Word(old(Contents()), vb)
    {
      hide Sound, VirtualWord;
      var _ := Fault(va);
    }

    /** A page that was just bound shows the words that its frame held before. */
    lemma PageShowsFrame(n: nat, f: u64, m: Memory)
      requires Sound() && n < PAGES && phase[n] == Present(f) && SameOutside(m, ram.words, leaves[n / 512])
      ensures forall va: nat :: PageAddress(n) <= va < PageAddress(n) + PAGE && AtWord(va) ==>
                Backed(phase, va) && PageNumber(va) == n && VirtualWord(va) == Word(m, f + (va - PageAddress(n)))
    {
      hide Consistent, Translate, AtWord, InHeapRange, PageNumber, PageAddress;
      forall va: nat | PageAddress(n) <= va < PageAddress(n) + PAGE && AtWord(va)
        ensures Backed(phase, va) && PageNumber(va) == n && VirtualWord(va) == Word(m, f + (va - PageAddress(n)))
      {
        WordShown(n, f, m, va);
      }
    }

    lemma WordShown(n: nat, f: u64, m: Memory, va: nat)
      requires Sound() && n < PAGES && phase[n] == Present(f) && SameOutside(m, ram.words, leaves[n / 512])
      requires PageAddress(n) <= va < PageAddress(n) + PAGE && AtWord(va)
      ensures Backed(phase, va) && PageNumber(va) == n && VirtualWord(va) == Word(m, f + (va - PageAddress(n)))
    {
      hide Owned, TreeAt, EntriesAt, Represents, Translate, AtWord, Decode, Shows, AreFrames;
      hide Aligned;
      UsesDiffer(owner, frames.free, root, leaves, phase, p3);
      PageNumberIs(va, n);
      TranslateBacked(ram.words, p3, root, leaves, phase, va);
      PageOffset(n, va);
      OutsideOther(m, ram.words, leaves[n / 512], f, va % PAGE);
    }

    lemma PageOffset(n: nat, va: nat)
      requires n < PAGES && PageAddress(n) <= va < PageAddress(n) + PAGE
      ensures va % PAGE == va - PageAddress(n)
    {
      assert va == PAGE * (BASE / PAGE + n) + (va - PageAddress(n));
    }

    /** What the hardware does for a store to a present page: one virtual word changes, and neither
        the queue nor the tables nor any other virtual word do. */
    method Store(va: nat, v: u64)
      requires Valid() && Backed(phase, va)
      modifies ram
      ensures Valid()
      ensures forall vb :: Backed(phase, vb) ==> VirtualWord(vb) == if vb == va then v else old(VirtualWord(vb))
      ensures Contents() == old(Contents())[va := v]
    {
      hide Consistent, Translate, AtWord, Issued;
      StoreStep(va, v);
      StoreView(va, v);
      ram.Store(Translate(ram.words, p3, va), v);
    }

    /** The word behind a virtual one can change: queue, tables and entries stay. */
    lemma StoreStep(va: nat, v: u64)
      requires Sound() && Backed(phase, va)
      ensures var a := Translate(ram.words, p3, va);
              && AtWord(a) && frames.ValidIn(ram.words[a := v])
              && Consistent(ram.words[a := v], p3, frames.Fields(), frames.free, root, leaves, phase, owner)
              && OnlyIn(booted, ram.words[a := v], owner.Keys, p3)
    {
      hide OnlyIn;
      hide Owned, TreeAt, EntriesAt, Represents, Translate, AtWord, Decode, Shows, AreFrames;
      hide PageNumber, InHeapRange, Aligned;
      StoreTarget(va);
      var n, a := PageNumber(va), phase[PageNumber(va)].frame + va % PAGE;
      MappedWriteStep(ram.words, p3, frames.Fields(), frames.free, root, leaves, phase, owner, n, a, v);
      BackedIsOwned(va);
      OnePageWritten(ram.words, phase[n].frame, a, v);
      OnlyInGrows(booted, ram.words, ram.words[a := v], owner.Keys, owner.Keys, phase[n].frame, p3);
    }

    lemma StoreTarget(va: nat)
      requires Sound() && Backed(phase, va)
      ensures Translate(ram.words, p3, va) == phase[PageNumber(va)].frame + va % PAGE
      ensures AtWord(phase[PageNumber(va)].frame + va % PAGE)
    {
      hide Owned, TreeAt, EntriesAt, Represents, Translate, AtWord, Decode, Shows, AreFrames;
      hide PageNumber, InHeapRange, Aligned;
      TranslateBacked(ram.words, p3, root, leaves, phase, va);
      UsesDiffer(owner, frames.free, root, leaves, phase, p3);
      TranslateAtWord(phase[PageNumber(va)].frame, va);
    }

    lemma StoreView(va: nat, v: u64)
      requires Sound() && Backed(phase, va)
      ensures var m, m' := ram.words, ram.words[Translate(ram.words, p3, va) := v];
              forall vb :: Backed(phase, vb) ==>
                Word(m', Translate(m', p3, vb)) == if vb == va then v else Word(m, Translate(m, p3, vb))
    {
      StoreStep(va, v);
      hide Consistent, Translate, AtWord;
      forall vb | Backed(phase, vb)
        ensures var m, m' := ram.words, ram.words[Translate(ram.words, p3, va) := v];
                Word(m', Translate(m', p3, vb)) == if vb == va then v else Word(m, Translate(m, p3, vb))
      {
        StoreSeen(va, v, vb);
      }
    }

    lemma StoreSeen(va: nat, v: u64, vb: nat)
      requires Sound() && Backed(phase, va) && Backed(phase, vb)
      ensures var m, m' := ram.words, ram.words[Translate(ram.words, p3, va) := v];
              Word(m', Translate(m', p3, vb)) == if vb == va then v else Word(m, Translate(m, p3, vb))
    {
      hide Owned, TreeAt, EntriesAt, Represents, Translate, AtWord, Decode, Shows, AreFrames;
      hide PageNumber, InHeapRange, Aligned;
      var m, m' := ram.words, ram.words[Translate(ram.words, p3, va) := v];
      StoreStep(va, v);
      if vb != va {
        TranslationIsInjective(m, p3, frames.Fields(), frames.free, root, leaves, phase, owner, va, vb);
      }
      TranslateBacked(m, p3, root, leaves, phase, vb);
      TranslateBacked(m', p3, root, leaves, phase, vb);
    }
  }
}
