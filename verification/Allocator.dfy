/** The kernel heap on top of the pager: pools of equal blocks, and whole pages for big sizes. */
module Allocator {
  import opened Words
  import opened PageNumbers
  import opened PageTree
  import opened Paging
  import opened HeapModel

  /** What the heap needs of the pages it was handed: pool pages and the first pages of big
      allocations are present, and no page of the heap is still to be handed out. */
  ghost predicate Backing(phase: seq<Phase>, h: Heap) {
    && |phase| == PAGES
    && (forall g :: g in h.pages ==> InHeapRange(g) && Aligned(g) && phase[PageNumber(g)] != Untouched)
    && (forall g :: g in h.pages && h.pages[g].PoolPage? ==> phase[PageNumber(g)].Present?)
    && (forall s :: s in h.bigs ==> s in h.pages && phase[PageNumber(s)].Present?)
  }

  lemma BackedInPage(phase: seq<Phase>, g: nat, a: nat)
    requires |phase| == PAGES && InHeapRange(g) && Aligned(g) && g <= a < g + PAGE
    ensures InHeapRange(a) && PageNumber(a) == PageNumber(g)
  {
    var n := PageNumber(g);
    assert g == BASE + PAGE * n by { assert (g - BASE) % PAGE == 0; }
    PageNumberIs(a, n);
  }

  lemma BackedIsLow(phase: seq<Phase>, va: nat)
    requires |phase| == PAGES && Backed(phase, va)
    ensures va + HEADER < U64
  {
  }

  /** The two header words of a block or big allocation are backed. */
  lemma HeaderBacked(m: Memory, addr: seq<u64>, h: Heap, phase: seq<Phase>, a: nat)
    requires Ok(m, addr, h) && Backing(phase, h) && (a in h.blocks || a in h.bigs)
    ensures Backed(phase, a) && Backed(phase, a + 8)
  {
    var g := HeaderInPage(h, a);
    hide Ok, AtWord, InHeapRange, PageNumber;
    BackedInPage(phase, g, a);
    BackedInPage(phase, g, a + 8);
  }

  /** Page k is about to be bound to the first free frame, whose last link word is zero. */
  ghost predicate CanTouch(phase: seq<Phase>, m: Memory, free: seq<u64>, k: nat, n: nat) {
    && k < |phase| && phase[k] == Allocatable && free != [] && n <= PAGE
    && Word(m, free[0] + PAGE - n) == 0
  }

  /** The first j blocks of the page are linked; its last link word is zero; nothing else changed. */
  ghost predicate Cut(c0: Memory, c: Memory, page: u64, n: nat, j: nat) {
    && n in {64, 512, 2048} && page + PAGE < U64 && j <= PAGE / n
    && AgreeOutside(c0, c, page) && Linked(c, page, n, j) && Word(c, page + PAGE - n) == 0
  }

  lemma FrameShown(c0: Memory, c: Memory, page: u64, m: Memory, f: u64, n: nat)
    requires ShowsFrame(c0, c, page, m, f) && n in {64, 512, 2048} && page + PAGE < U64
    requires Word(m, f + PAGE - n) == 0 && Aligned(page)
    ensures Cut(c0, c[page := 0], page, n, 1)
  {
    PageWord(page, (PAGE - n) / 8);
    assert page + 8 * ((PAGE - n) / 8) == page + PAGE - n;
    hide AtWord, Aligned;
    assert page + PAGE - n in c;
  }

  lemma CutNext(c0: Memory, c: Memory, page: u64, n: nat, j: nat)
    requires Cut(c0, c, page, n, j) && 0 < j < PAGE / n
    ensures Cut(c0, c[TileAt(page, n, j - 1) := TileAt(page, n, j)], page, n, j + 1)
  {
    LinkNext(c, page, n, j);
  }

  lemma PageOffset(k: nat)
    ensures Aligned(PageAddress(k))
  {
    assert PageAddress(k) == PAGE * (BASE / PAGE + k);
  }

  lemma BackingRefilled(phase: seq<Phase>, phase': seq<Phase>, h: Heap, p: nat, k: nat)
    requires Backing(phase, h) && p < POOLS && |h.heads| == POOLS && |h.free| == POOLS && k < PAGES
    requires phase[k] == Untouched && |phase'| == PAGES && phase'[k].Present?
    requires forall n :: 0 <= n < PAGES && n != k ==> phase'[n] == phase[n]
    ensures Backing(phase', Refilled(h, p, PageAddress(k)))
  {
    PageNumberIs(PageAddress(k), k);
    PageOffset(k);
    hide Tiles;
  }

  lemma BackingKept(phase: seq<Phase>, h: Heap, h': Heap)
    requires Backing(phase, h) && h'.pages == h.pages && h'.bigs == h.bigs
    ensures Backing(phase, h')
  {
  }

  /** The pages that were not freed yet are still present. */
  lemma StillPresent(first: seq<Phase>, now: seq<Phase>, free: seq<u64>, waiting: seq<u64>, n: nat, i: nat)
    requires FreesMany(first, now, free, waiting, n, i)
    ensures n + i < |first| && first[n + i].Present? ==> now[n + i].Present?
  {
  }

  /** After `pages` pages, `required` is what is left of the signed total. */
  predicate BigLeft(required: int, size: u32, pages: nat) {
    required == Signed(Required(size)) - PAGE * (pages - 1)
  }

  lemma BigLeftFirst(size: u32)
    ensures BigLeft(Signed(Required(size)), size, 1) && 1 <= BigPages(size)
  {
  }

  lemma BigLeftNext(required: int, size: u32, pages: nat)
    requires BigLeft(required, size, pages) && 0 < required && 1 <= pages <= BigPages(size)
    ensures BigLeft(required - PAGE, size, pages + 1) && pages + 1 <= BigPages(size)
  {
  }

  lemma BigLeftDone(required: int, size: u32, pages: nat)
    requires BigLeft(required, size, pages) && required <= 0 && 1 <= pages <= BigPages(size)
    ensures pages == BigPages(size)
  {
  }

  /** `pages` pages from k on were handed out. */
  ghost predicate IssuedFrom(before: seq<Phase>, after: seq<Phase>, k: nat, pages: nat) {
    && |after| == |before| && k + pages <= |before|
    && (forall n :: k <= n < k + pages ==> after[n] != Untouched)
    && (forall n :: 0 <= n < |before| && !(k <= n < k + pages) ==> after[n] == before[n])
  }

  lemma IssuedOneMore(first: seq<Phase>, before: seq<Phase>, after: seq<Phase>, k: nat, pages: nat)
    requires IssuedFrom(first, before, k, pages) && k + pages < |first| && after == before[k + pages := Allocatable]
    ensures IssuedFrom(first, after, k, pages + 1)
  {
  }

  lemma BackingEnlarged(phase: seq<Phase>, phase': seq<Phase>, h: Heap, k: nat, size: u32)
    requires Backing(phase, h) && k + BigPages(size) <= PAGES
    requires IssuedFrom(phase, phase', k, BigPages(size)) && phase'[k].Present?
    requires forall n :: k <= n < PAGES ==> phase[n] == Untouched
    ensures Backing(phase', Enlarged(h, PageAddress(k), size))
  {
    var start, n := PageAddress(k), BigPages(size);
    PageNumberIs(start, k);
    PageOffset(k);
    forall g: nat | Aligned(g) && start <= g < start + PAGE * n
      ensures InHeapRange(g) && k <= PageNumber(g) < k + n
    {
    }
  }

  /** What setting aside pages from the k-th on makes of the heap. */
  lemma BigAllocated(m: Memory, m': Memory, addr: seq<u64>, h: Heap, phase: seq<Phase>, phase': seq<Phase>, k: nat, size: u32)
    requires Ok(m, addr, h) && Backing(phase, h) && PoolFor(size) == POOLS
    requires 0 < k && k + BigPages(size) <= PAGES && IssuedFrom(phase, phase', k, BigPages(size)) && phase'[k].Present?
    requires forall n :: k <= n < PAGES ==> phase[n] == Untouched
    requires forall g :: g in h.pages ==> g < PageAddress(k)
    requires AgreeOutside(m, m', PageAddress(k)) && HeaderAt(m', PageAddress(k), 0, size)
    ensures var h' := Enlarged(h, PageAddress(k), size);
            && Ok(m', addr, h') && Backing(phase', h') && h'.heads == h.heads && h'.free == h.free
            && GainsLive(h, h', PageAddress(k), size) && Intact(m, m', h, {})
  {
    assert Enlarged(h, PageAddress(k), size).heads == h.heads && Enlarged(h, PageAddress(k), size).free == h.free;
    hide Ok, Intact, GainsLive, Backing, IssuedFrom, AgreeOutside, HeaderAt, PoolFor, Enlarged;
    PageOffset(k);
    BigStep(m, m', addr, h, PageAddress(k), size);
    BigSpares(m, m', addr, h, PageAddress(k), size);
    BackingEnlarged(phase, phase', h, k, size);
  }

  /** Every word that is still backed is as it was. */
  ghost predicate ViewShrinks(m: Memory, m': Memory, phase: seq<Phase>)
    requires |phase| == PAGES
  {
    forall va :: Backed(phase, va) ==> Word(m', va) == Word(m, va)
  }

  lemma FreesNothingIff(size: u32)
    ensures BigFreed(size) == 0 <==> Signed(size) <= 0
  {
  }

  lemma FreedLeft(left: int, size: u32, i: nat)
    requires left == Signed(size) - PAGE * i && 0 < left && i <= BigFreed(size)
    ensures i + 1 <= BigFreed(size)
  {
  }

  lemma FreedDone(left: int, size: u32, i: nat)
    requires left == Signed(size) - PAGE * i && left <= 0 && i <= BigFreed(size)
    requires PoolFor(size) == POOLS && FreesOwnPages(size)
    ensures i == BigFreed(size) && i <= BigPages(size)
  {
    BigLeak(size);
  }

  lemma AlignedPage(g: nat)
    requires InHeapRange(g) && Aligned(g)
    ensures g == PageAddress(PageNumber(g))
  {
    assert (g - BASE) % PAGE == 0;
  }

  /** The freed pages are all pages of the allocation itself. */
  lemma OwnPagesOnly(m: Memory, h: Heap, start: nat, i: nat, g: nat)
    requires BigsOk(m, h) && start in h.bigs && i <= BigPages(h.bigs[start])
    requires InHeapRange(start) && start == PageAddress(PageNumber(start))
    requires g in h.pages && h.pages[g] != BigPage(start) && InHeapRange(g) && Aligned(g)
    ensures !(PageNumber(start) <= PageNumber(g) < PageNumber(start) + i)
  {
    AlignedPage(g);
    hide BigsOk;
    if PageNumber(start) <= PageNumber(g) < PageNumber(start) + i {
      BigOwns(m, h, start, g);
    }
  }

  // ---------------------------------------------------------------- what the calls need and do

  /** What one allocation of this size needs: pages left to hand out, a free frame to back the first
      of them, and for a pool that must be refilled a zero word where its last link will be. */
  ghost predicate AffordableAt(h: Heap, count: int, free: seq<u64>, words: Memory, size: u32)
    requires |h.free| == POOLS
  {
    var p := PoolFor(size);
    if p == POOLS then count + BigPages(size) < PAGES && free != []
    else h.free[p] != [] || (count + 1 < PAGES && free != [] && Word(words, free[0] + PAGE - BlockSize(p)) == 0)
  }

  /** Freeing a big allocation returns pages of its own only, all of them present, and to a queue that is
      not empty. A free that returns no page needs no frame. */
  ghost predicate BigReturnableAt(h: Heap, phase: seq<Phase>, free: seq<u64>, start: nat, size: u32) {
    && start in h.bigs && h.bigs[start] == size && FreesOwnPages(size) && (BigFreed(size) > 0 ==> free != [])
    && InHeapRange(start) && PageNumber(start) + BigFreed(size) <= |phase|
    && forall n :: PageNumber(start) <= n < PageNumber(start) + BigFreed(size) ==> phase[n].Present?
  }

  /** What a free needs of its caller: a live address; for a block, a pool whose list is not empty;
      for a big allocation, pages that were all touched. */
  ghost predicate FreeableAt(h: Heap, phase: seq<Phase>, free: seq<u64>, start: nat, p: nat, size: u32)
    requires |h.free| == POOLS
  {
    if p < POOLS
    then start in h.blocks && h.blocks[start] == Live(size) && InPool(h.pages, p, start) && h.free[p] != []
    else BigReturnableAt(h, phase, free, start, size)
  }

  /** The first block of the pool became live; no other block, page or big allocation changed. */
  ghost predicate Took(h: Heap, h': Heap, p: nat, size: u32, address: nat)
    requires p < POOLS
  {
    && |h.free| == POOLS && h.free[p] != [] && address == h.free[p][0] + HEADER
    && h'.free == h.free[p := h.free[p][1..]] && h'.blocks == h.blocks[h.free[p][0] := Live(size)]
    && h'.pages == h.pages && h'.bigs == h.bigs
  }

  /** What an allocation makes of the heap, after `count` pages were asked for: the first block of the
      smallest pool that fits, which is refilled if it is empty, or whole pages. */
  ghost predicate Served(h: Heap, count: int, size: u32, address: nat, h': Heap) {
    && |h.free| == POOLS && |h.heads| == POOLS && 0 <= count
    && var p := PoolFor(size);
       if p < POOLS && h.free[p] != [] then Took(h, h', p, size, address)
       else
         && count + 1 < PAGES
         && if p < POOLS then Took(Refilled(h, p, PageAddress(count + 1)), h', p, size, address)
            else address == PageAddress(count + 1) + HEADER && h' == Enlarged(h, PageAddress(count + 1), size)
  }

  /** Pages that an allocation asks for. */
  function PagesAsked(h: Heap, size: u32): nat
    requires |h.free| == POOLS
  {
    if PoolFor(size) == POOLS then BigPages(size) else if h.free[PoolFor(size)] == [] then 1 else 0
  }

  /** What a free makes of the heap. */
  ghost predicate GivenBack(h: Heap, start: u64, p: nat, size: u32, h': Heap) {
    if p >= POOLS then h' == GaveUp(h, start)
    else if Signed(size) > 0 then |h.free| == POOLS && h' == Pushed(h, p, start)
    else h' == h.(blocks := h.blocks[start := Lost])
  }

  class KernelHeap {
    const pager: Pager
    const poolAddress: seq<u64>
    var heads: seq<u64>
    ghost var model: Heap

    ghost predicate Valid()
      reads this, pager, pager.ram, pager.frames, pager.numbers
    {
      && pager.Valid() && heads == model.heads && |heads| == POOLS && |model.free| == POOLS && |poolAddress| == POOLS
      && Ok(pager.Contents(), poolAddress, model) && Backing(pager.phase, model)
    }

    /** Empty pools; `poolAddress` are the addresses of the three pool records. */
    constructor (pager: Pager, poolAddress: seq<u64>)
      requires pager.Valid() && PoolAddresses(poolAddress)
      ensures this.pager == pager && this.poolAddress == poolAddress
      ensures Valid() && model == EMPTY
    {
      hide Consistent, Pager.Contents, Pager.Sound, Issued, Ok;
      this.pager, this.poolAddress := pager, poolAddress;
      heads := [0, 0, 0];
      model := EMPTY;
      new;
      EmptyOk(pager.Contents(), poolAddress);
    }

    /** Writes the 12 bytes of a header: a pool address and, in the low half of the next word, a size. */
    method PutHeader(a: nat, pool: u64, size: u32) returns (ghost v: u64)
      requires pager.Valid() && Backed(pager.phase, a) && Backed(pager.phase, a + 8)
      modifies pager.ram
      ensures pager.Valid() && pager.Contents() == old(pager.Contents())[a := pool][a + 8 := v]
      ensures HeaderAt(pager.Contents(), a, pool, size) && v / U32 == Word(old(pager.Contents()), a + 8) / U32
    {
      hide Consistent, Pager.Contents, Pager.Sound, Issued, Backed;
      pager.Store(a, pool);
      var w := pager.Load(a + 8);
      LowHalf(w, size);
      pager.Store(a + 8, w - w % U32 + size);
      v := w - w % U32 + size;
    }

    /** Where a block of pool p stands in memory. */
    lemma BlockBacked(p: nat, b: nat)
      requires Valid() && p < POOLS && b in model.blocks && InPool(model.pages, p, b)
      ensures Backed(pager.phase, b) && Backed(pager.phase, b + 8)
    {
      hide Consistent, Pager.Contents, Pager.Sound, Issued, Backed, Ok, Backing;
      HeaderBacked(pager.Contents(), poolAddress, model, pager.phase, b);
    }

    /** Cuts a new page into the blocks of a pool whose list is empty. The page is backed by the first
        free frame when its first word is written; the last word that a block of the pool could use
        for its link must happen to be zero in that frame. */
    method AllocateForPool(p: nat)
      requires Valid() && p < POOLS && model.free[p] == []
      requires pager.numbers.Count() + 1 < PAGES && pager.frames.free != []
      requires Word(pager.ram.words, pager.frames.free[0] + PAGE - BlockSize(p)) == 0
      modifies this, pager, pager.ram, pager.frames, pager.numbers
      ensures Valid() && pager.numbers.Count() == old(pager.numbers.Count()) + 1
      ensures pager.frames.free == old(pager.frames.free)[1..]
      ensures model == Refilled(old(model), p, PageAddress(pager.numbers.Count()))
      ensures IssuedFrom(old(pager.phase), pager.phase, pager.numbers.Count(), 1)
      ensures CutsPage(old(model), p, PageAddress(pager.numbers.Count()), model)
      ensures pager.owner.Keys == old(pager.owner.Keys)
      ensures SameLive(old(model), model) && Intact(old(pager.Contents()), pager.Contents(), old(model), {})
    {
      hide Consistent, Pager.Contents, Pager.Sound, Issued, Ok, Backing, Linked, AgreeOutside, SameLive, Intact, Tiles;
      hide ListAt, Backed, Aligned, AtWord, CutsPage;
      ghost var c0, k, n := pager.Contents(), pager.numbers.Count() + 1, BlockSize(p);
      ghost var free, phase, h := pager.frames.free, pager.phase, model;
      EmptyHead(p);
      NewPage(k);
      assert free[0] in free;
      var page := pager.AllocPage();
      LinkBlocks(p, page, k);
      LinkedIsListIff(pager.Contents(), page, p);
      RefillStep(c0, pager.Contents(), poolAddress, h, p, page);
      RefillSpares(c0, pager.Contents(), poolAddress, h, p, page);
      RefilledCuts(h, p, page);
      BackingRefilled(phase, pager.phase, h, p, k);
      model := Refilled(h, p, page);
    }

    /** Links the blocks of the k-th page, which was just handed out, into an empty pool. */
    method LinkBlocks(p: nat, page: u64, ghost k: nat)
      requires pager.Valid() && p < POOLS && |heads| == POOLS && heads[p] == 0
      requires k < PAGES && page == PageAddress(k) && page + PAGE < U64
      requires CanTouch(pager.phase, pager.ram.words, pager.frames.free, k, BlockSize(p))
      modifies this`heads, pager, pager.ram, pager.frames
      ensures pager.Valid() && heads == old(heads)[p := page] && pager.owner.Keys == old(pager.owner.Keys)
      ensures Cut(old(pager.Contents()), pager.Contents(), page, BlockSize(p), PAGE / BlockSize(p))
      ensures pager.frames.free == old(pager.frames.free)[1..]
      ensures pager.phase == old(pager.phase)[k := Present(old(pager.frames.free)[0])]
    {
      hide Consistent, Pager.Contents, Pager.Sound, Issued, Linked, AgreeOutside;
      ghost var c0, n, free, phase := pager.Contents(), BlockSize(p), pager.frames.free, pager.phase;
      var prev, i := heads[p], 0;
      ghost var j := 0;
      while i < PAGE
        invariant pager.Valid() && j <= PAGE / n && |heads| == POOLS && pager.owner.Keys == old(pager.owner.Keys)
        invariant if i < PAGE then j < PAGE / n && TileAt(page, n, j) == page + i else j == PAGE / n
        invariant j == 0 ==> prev == 0 && heads == old(heads) && pager.Contents() == c0
        invariant j == 0 ==> CanTouch(pager.phase, pager.ram.words, pager.frames.free, k, n)
        invariant j == 0 ==> pager.frames.free == free && pager.phase == phase
        invariant j > 0 ==> prev == TileAt(page, n, j - 1) && heads == old(heads)[p := page]
        invariant j > 0 ==> Cut(c0, pager.Contents(), page, n, j)
        invariant j > 0 ==> pager.frames.free == free[1..] && pager.phase == phase[k := Present(free[0])]
      {
        TileNext(page, n, j);
        var address := page + i;
        if prev == 0 {
          heads := heads[p := address];
          prev := address;
          StartList(prev, k, n);
        } else {
          LinkBlock(c0, page, k, n, j, prev, address);
        }
        prev := address;
        i := i + BlockSize(p);
        j := j + 1;
      }
    }

    /** A page that nobody was handed yet is no page of the heap. */
    lemma NewPage(k: nat)
      requires Valid() && k < PAGES && (k == 0 || k > pager.numbers.Count())
      ensures PageAddress(k) !in model.pages && InHeapRange(PageAddress(k)) && PageNumber(PageAddress(k)) == k
      ensures Aligned(PageAddress(k))
    {
      hide Consistent, Pager.Contents, Pager.Sound, Ok;
      PageNumberIs(PageAddress(k), k);
      PageOffset(k);
    }

    lemma EmptyHead(p: nat)
      requires Valid() && p < POOLS && model.free[p] == []
      ensures |heads| == POOLS && |model.free| == POOLS && heads[p] == 0
    {
      hide Consistent, Pager.Contents, Pager.Sound, Issued, Backing;
      assert ListAt(pager.Contents(), model.heads[p], model.free[p]);
    }

    /** The first write to a new page binds its frame. */
    method StartList(page: u64, ghost k: nat, ghost n: nat)
      requires pager.Valid() && k < PAGES && page == PageAddress(k) && n in {64, 512, 2048}
      requires CanTouch(pager.phase, pager.ram.words, pager.frames.free, k, n)
      modifies pager, pager.ram, pager.frames
      ensures pager.Valid() && Cut(old(pager.Contents()), pager.Contents(), page, n, 1)
      ensures pager.owner.Keys == old(pager.owner.Keys)
      ensures pager.frames.free == old(pager.frames.free)[1..]
      ensures pager.phase == old(pager.phase)[k := Present(old(pager.frames.free)[0])]
    {
      hide Consistent, Pager.Contents, Pager.Sound, Issued, Cut, ShowsFrame, AtWord, Aligned;
      PageNumberIs(page, k);
      PageOffset(k);
      PageWord(page, 0);
      ghost var c0, m, f := pager.Contents(), pager.ram.words, pager.frames.free[0];
      pager.Touch(page);
      FrameShown(c0, pager.Contents(), page, m, f, n);
      pager.Store(page, 0);
    }

    method LinkBlock(ghost c0: Memory, ghost page: u64, ghost k: nat, ghost n: nat, ghost j: nat, prev: u64, address: u64)
      requires pager.Valid() && k < PAGES && page == PageAddress(k) && page + PAGE < U64
      requires n in {64, 512, 2048} && 0 < j < PAGE / n
      requires prev == TileAt(page, n, j - 1) && address == TileAt(page, n, j)
      requires Cut(c0, pager.Contents(), page, n, j) && pager.phase[k].Present?
      modifies pager.ram
      ensures pager.Valid() && Cut(c0, pager.Contents(), page, n, j + 1)
    {
      hide Consistent, Pager.Contents, Pager.Sound, Issued, Cut, AtWord, Aligned;
      TileNext(page, n, j - 1);
      PageNumberIs(prev, k);
      PageOffset(k);
      TileAtWord(page, n, j - 1);
      CutNext(c0, pager.Contents(), page, n, j);
      pager.Store(prev, address);
    }

    lemma FirstBlock(p: nat)
      requires Valid() && p < POOLS && model.free[p] != []
      ensures var b := model.free[p][0];
              heads[p] == b && b in model.blocks && Backed(pager.phase, b) && Backed(pager.phase, b + 8)
      ensures model.free[p][0] + HEADER < U64
    {
      hide Consistent, Pager.Contents, Pager.Sound, Issued, Backing, PagesOk, BlocksOk, LiveOk, BigsOk, InPool, Backed;
      ListWalk(p, 0);
      FirstIsFree(pager.Contents(), model, p);
      BlockBacked(p, model.free[p][0]);
      BackedIsLow(pager.phase, model.free[p][0]);
    }

    /** Takes the first block of a pool that has one. */
    method TakeBlock(p: nat, size: u32) returns (address: u64)
      requires Valid() && p < POOLS && model.free[p] != [] && PoolFor(size) == p
      modifies this, pager.ram
      ensures Valid() && Took(old(model), model, p, size, address)
      ensures GivesOut(old(model), model, address, size) && Intact(old(pager.Contents()), pager.Contents(), old(model), {})
    {
      hide Consistent, Pager.Contents, Pager.Sound, Issued, InPool, Ok, Backing, GainsLive, Intact, SameHeaders, HeaderAt;
      hide Backed, PoolFor;
      ghost var b := model.free[p][0];
      FirstBlock(p);
      ghost var m := pager.Contents();
      address := heads[p];
      assert address == b && heads == model.heads;
      var next := pager.Load(address);
      heads := heads[p := next];
      ghost var v := PutHeader(address, poolAddress[p], size);
      HeaderWrite(m, poolAddress, model, b, poolAddress[p], v);
      PopStep(m, pager.Contents(), poolAddress, model, p, size);
      PopSpares(m, poolAddress, model, p, size, pager.Contents());
      BackingKept(pager.phase, model, Popped(m, model, p, size));
      model := Popped(m, model, p, size);
      address := address + HEADER;
    }

    /** The i-th block of a free list, and where its link leads. */
    lemma ListWalk(p: nat, i: nat)
      requires Valid() && p < POOLS && i < |model.free[p]|
      ensures var b := model.free[p][i];
              && b != 0 && Backed(pager.phase, b)
              && Word(pager.Contents(), b) == if i + 1 < |model.free[p]| then model.free[p][i + 1] else 0
      ensures i + 1 < |model.free[p]| ==> model.free[p][i + 1] != 0
      ensures heads[p] == model.free[p][0]
    {
      hide Consistent, Pager.Contents, Pager.Sound, Issued, Backing, PagesOk, BlocksOk, LiveOk, BigsOk, InPool;
      assert ListAt(pager.Contents(), model.heads[p], model.free[p]);
      assert model.free[p][i] in model.free[p] && (i + 1 < |model.free[p]| ==> model.free[p][i + 1] in model.free[p]);
      BlockBacked(p, model.free[p][i]);
    }

    /** Walks a free list to the block that links to null: the last one. */
    method Traverse(p: nat) returns (tail: u64)
      requires Valid() && p < POOLS && model.free[p] != []
      ensures tail == model.free[p][|model.free[p]| - 1]
    {
      hide Consistent, Pager.Contents, Pager.Sound, Issued, Backing, Ok;
      ghost var i := 0;
      ListWalk(p, 0);
      tail := heads[p];
      var next := pager.Load(tail);
      while next != 0
        invariant i < |model.free[p]| && tail == model.free[p][i]
        invariant next == if i + 1 < |model.free[p]| then model.free[p][i + 1] else 0
        invariant i + 1 < |model.free[p]| ==> model.free[p][i + 1] != 0
        decreases |model.free[p]| - i
      {
        i := i + 1;
        ListWalk(p, i);
        tail := next;
        next := pager.Load(tail);
      }
    }

    lemma LiveBlock(p: nat, b: nat)
      requires Valid() && p < POOLS && b in model.blocks && model.blocks[b].Live? && InPool(model.pages, p, b)
      ensures Backed(pager.phase, b) && Backed(pager.phase, b + 8) && b != 0
      ensures HeaderAt(pager.Contents(), b, poolAddress[p], model.blocks[b].size) && PoolFor(model.blocks[b].size) == p
    {
      hide Consistent, Pager.Contents, Pager.Sound, Issued, Backing, ListsOk, BlocksOk, BigsOk, HeaderAt;
      BlockBacked(p, b);
      BlockInPage(b, p);
    }

    /** Returns a block of pool p: to the end of the list if the size in its header is positive as a
        signed number, and nowhere otherwise. */
    method ReturnBlock(p: nat, start: u64, size: u32)
      requires Valid() && p < POOLS && model.free[p] != []
      requires start in model.blocks && model.blocks[start] == Live(size) && InPool(model.pages, p, start)
      modifies this, pager.ram
      ensures Valid()
      ensures model == if Signed(size) > 0 then Pushed(old(model), p, start)
                       else old(model).(blocks := old(model).blocks[start := Lost])
      ensures LosesLive(old(model), model, start) && Intact(old(pager.Contents()), pager.Contents(), old(model), Only(start))
    {
      hide Consistent, Pager.Contents, Pager.Sound, Issued, Backing, Ok, InPool, PoolFor, Signed, BlockSize, HeaderAt;
      hide Intact, GainsLive, LosesLive;
      ghost var m, h := pager.Contents(), model;
      LiveBlock(p, start);
      SignedFitsBlock(size);
      var tail := Traverse(p);
      ListWalk(p, |h.free[p]| - 1);
      var left := Signed(size);
      while left > 0
        invariant pager.Valid() && heads == h.heads && model == h
        invariant left == Signed(size) || (left <= 0 < Signed(size))
        invariant pager.Contents() == if left == Signed(size) then m else m[tail := start][start := 0]
      {
        left := left - BlockSize(p);
        pager.Store(tail, start);
        var next := pager.Load(tail);
        pager.Store(next, 0);
      }
      if Signed(size) > 0 {
        PushStep(m, pager.Contents(), poolAddress, h, p, start);
        PushSpares(m, poolAddress, h, p, start);
        BackingKept(pager.phase, h, Pushed(h, p, start));
        model := Pushed(h, p, start);
      } else {
        LoseStep(m, poolAddress, h, start);
        BigIsNoBlock(m, poolAddress, h, start);
        LoseSpares(m, h, start);
        BackingKept(pager.phase, h, h.(blocks := h.blocks[start := Lost]));
        model := h.(blocks := h.blocks[start := Lost]);
      }
    }

    /** Sets aside consecutive pages for a size that no pool fits, and writes the header into the
        first. Only that page is backed by a frame at once. */
    method KMallocBig(size: u32) returns (address: u64)
      requires Valid() && PoolFor(size) == POOLS
      requires pager.numbers.Count() + BigPages(size) < PAGES && pager.frames.free != []
      modifies this, pager, pager.ram, pager.frames, pager.numbers
      ensures Valid() && pager.numbers.Count() == old(pager.numbers.Count()) + BigPages(size)
      ensures pager.frames.free == old(pager.frames.free)[1..]
      ensures address == PageAddress(old(pager.numbers.Count()) + 1) + HEADER
      ensures model == Enlarged(old(model), address - HEADER, size)
      ensures IssuedFrom(old(pager.phase), pager.phase, old(pager.numbers.Count()) + 1, BigPages(size))
      ensures pager.owner.Keys == old(pager.owner.Keys)
      ensures GivesOut(old(model), model, address, size) && Intact(old(pager.Contents()), pager.Contents(), old(model), {})
    {
      hide Consistent, Pager.Contents, Pager.Sound, Issued, Backing, Ok, PoolFor, HeaderAt, AgreeOutside, InPool;
      hide Intact, GainsLive, LosesLive, Enlarged, IssuedFrom, BigLeft, Backed, NotLive;
      BigLeftFirst(size);
      ghost var m, k, h, phase := pager.Contents(), pager.numbers.Count() + 1, model, pager.phase;
      NewPage(k);
      PagesBelow(k);
      var required := Signed(Required(size));
      var start := FirstBigPage(size, k);
      var pages := 1;
      while required > 0
        invariant pager.Valid() && pager.numbers.Count() == k - 1 + pages && 1 <= pages <= BigPages(size)
        invariant heads == h.heads && model == h && pager.owner.Keys == old(pager.owner.Keys)
        invariant BigLeft(required, size, pages)
        invariant pager.frames.free == old(pager.frames.free)[1..]
        invariant AgreeOutside(m, pager.Contents(), start) && HeaderAt(pager.Contents(), start, 0, size)
        invariant pager.phase[k].Present? && IssuedFrom(phase, pager.phase, k, pages)
      {
        BigLeftNext(required, size, pages);
        required := required - PAGE;
        ghost var before := pager.phase;
        var _ := pager.AllocPage();
        IssuedOneMore(phase, before, pager.phase, k, pages);
        pages := pages + 1;
      }
      BigLeftDone(required, size, pages);
      PageOffset(k);
      BigAllocated(m, pager.Contents(), poolAddress, h, phase, pager.phase, k, size);
      model := Enlarged(h, start, size);
      address := start + HEADER;
    }

    method FirstBigPage(size: u32, ghost k: nat) returns (start: u64)
      requires pager.Valid() && pager.numbers.Count() + 1 == k < PAGES && pager.frames.free != []
      modifies pager, pager.ram, pager.frames, pager.numbers
      ensures pager.Valid() && pager.numbers.Count() == k && start == PageAddress(k)
      ensures pager.owner.Keys == old(pager.owner.Keys)
      ensures pager.frames.free == old(pager.frames.free)[1..]
      ensures AgreeOutside(old(pager.Contents()), pager.Contents(), start) && HeaderAt(pager.Contents(), start, 0, size)
      ensures pager.phase[k].Present? && IssuedFrom(old(pager.phase), pager.phase, k, 1)
    {
      hide Consistent, Pager.Contents, Pager.Sound, Issued, HeaderAt;
      ghost var m := pager.Contents();
      PageNumberIs(PageAddress(k), k);
      PageNumberIs(PageAddress(k) + 8, k);
      start := pager.AllocPage();
      pager.Touch(start);
      ghost var v := PutHeader(start, 0, size);
    }

    lemma PagesBelow(k: nat)
      requires Valid() && k == pager.numbers.Count() + 1
      ensures forall g :: g in model.pages ==> g < PageAddress(k)
      ensures forall n :: k <= n < PAGES ==> pager.phase[n] == Untouched
    {
      hide Consistent, Pager.Contents, Pager.Sound, Ok;
    }

    ghost predicate Affordable(size: u32)
      requires |model.free| == POOLS && pager.numbers.Valid()
      reads this, pager, pager.ram, pager.frames, pager.numbers
    {
      AffordableAt(model, pager.numbers.Count(), pager.frames.free, pager.ram.words, size)
    }

    /** Allocates: the first block of the smallest pool that fits, refilling an empty pool once, or
        whole pages. */
    method KMalloc(size: u32) returns (address: u64)
      requires Valid() && Affordable(size)
      modifies this, pager, pager.ram, pager.frames, pager.numbers
      ensures Valid()
      ensures Served(old(model), old(pager.numbers.Count()), size, address, model)
      ensures var asked := PagesAsked(old(model), size);
              && pager.numbers.Count() == old(pager.numbers.Count()) + asked
              && (if asked == 0 then pager.frames.free == old(pager.frames.free) && pager.phase == old(pager.phase)
                  else pager.frames.free == old(pager.frames.free)[1..]
                       && IssuedFrom(old(pager.phase), pager.phase, old(pager.numbers.Count()) + 1, asked))
      ensures pager.owner.Keys == old(pager.owner.Keys)
      ensures GivesOut(old(model), model, address, size) && Intact(old(pager.Contents()), pager.Contents(), old(model), {})
      ensures Placed(model, size, address)
      decreases if PoolFor(size) < POOLS && model.free[PoolFor(size)] == [] then 1 else 0
    {
      hide Consistent, Pager.Contents, Pager.Sound, Issued, Backing, Ok, Tiles, GivesOut, SameLive, LivesOn, Intact;
      hide Refilled, Enlarged, Placed, CutsPage;
      ghost var m, h := pager.Contents(), model;
      var required := Required(size);
      var p := 0;
      while p < POOLS && required > BlockSize(p)
        invariant p <= PoolFor(size)
      {
        p := p + 1;
      }
      if p == POOLS {
        address := KMallocBig(size);
        GivenIsPlaced(h, address, size);
        return;
      }
      if |model.free[p]| > 0 { ListWalk(p, 0); } else { EmptyHead(p); }
      if heads[p] == 0 {
        AllocateForPool(p);
        RefilledShape(h, p, PageAddress(pager.numbers.Count()));
        ghost var m1, h1 := pager.Contents(), model;
        address := KMalloc(size);
        SameLivesOn(h, h1);
        IntactThen(m, m1, pager.Contents(), h, h1, {});
        GivesOutAfterSame(h, h1, model, address, size);
        return;
      }
      address := TakeBlock(p, size);
      GivenIsPlaced(h, address, size);
    }

    lemma GivenIsPlaced(h: Heap, address: nat, size: u32)
      requires Valid() && GivesOut(h, model, address, size)
      ensures Placed(model, size, address)
    {
      hide Consistent, Pager.Contents, Pager.Sound, Issued, Backing, Ok, IsLive, Placed;
      LiveIsPlaced(pager.Contents(), poolAddress, model, address - HEADER, size);
    }

    ghost predicate BigReturnable(start: nat, size: u32)
      reads this, pager, pager.frames
    {
      BigReturnableAt(model, pager.phase, pager.frames.free, start, size)
    }

    /** Frees the pages of a big allocation from the first on, as many as its size without the header
        takes up; each once. `address` is what the caller was given, behind the header. */
    method KFreeBig(address: u64, ghost start: nat, ghost size: u32)
      requires Valid() && BigReturnable(start, size) && address == start + HEADER
      modifies this, pager, pager.ram, pager.frames
      ensures Valid() && model == GaveUp(old(model), start)
      ensures FreesMany(old(pager.phase), pager.phase, old(pager.frames.free), pager.frames.free,
                        PageNumber(start), BigFreed(size))
      ensures pager.owner.Keys == old(pager.owner.Keys)
      ensures LosesLive(old(model), model, start) && Intact(old(pager.Contents()), pager.Contents(), old(model), Only(start))
    {
      hide Intact, GainsLive, LosesLive, FreesMany, ViewShrinks, Without, SameHeaders, Backed, AtWord;
      hide Consistent, Pager.Contents, Pager.Sound, Issued, Backing, Ok, HeaderAt, InPool, BigFreed, BigPages;
      ghost var h, m := model, pager.Contents();
      ghost var n, phase, free := PageNumber(start), pager.phase, pager.frames.free;
      BigFacts(start);
      KeysAreBacked();
      FreedNone(phase, free, n, m);
      FreesNothingIff(size);
      var word := pager.Load(address - HEADER + 8);
      var at, left := address, Signed(word % U32);
      ghost var i := 0;
      while left > 0
        invariant pager.Valid() && heads == h.heads && model == h && i <= BigFreed(size)
        invariant pager.owner.Keys == old(pager.owner.Keys)
        invariant at == start + HEADER + PAGE * i && left == Signed(size) - PAGE * i
        invariant left > 0 ==> pager.frames.free != []
        invariant FreesMany(phase, pager.phase, free, pager.frames.free, n, i)
        invariant ViewShrinks(m, pager.Contents(), pager.phase)
        decreases left
      {
        FreedLeft(left, size, i);
        PageNumberIs(at, n + i);
        StillPresent(phase, pager.phase, free, pager.frames.free, n, i);
        ghost var before, waiting, view := pager.phase, pager.frames.free, pager.Contents();
        pager.FreePage(at);
        FreedOneMore(phase, before, free, waiting, n, i);
        ShrinksOnce(m, view, before, n + i);
        at := at + PAGE;
        left := left - PAGE;
        i := i + 1;
      }
      FreedDone(left, size, i);
      FreedAll(phase, free, start, i);
      FreedKeepsHeaders(m, phase, start, i);
      FreedSpares(m, phase, start, i);
      BigReleased(m, start);
      BigFreeStep(m, pager.Contents(), poolAddress, h, start);
      model := GaveUp(h, start);
    }

    lemma KeysAreBacked()
      requires |pager.phase| == PAGES
      ensures forall x: nat :: x in pager.Contents() <==> Backed(pager.phase, x)
    {
      hide Pager.VirtualWord;
    }

    lemma FreedNone(phase: seq<Phase>, free: seq<u64>, n: nat, m: Memory)
      requires |pager.phase| == PAGES && phase == pager.phase && free == pager.frames.free && n <= PAGES
      requires m == pager.Contents()
      ensures FreesMany(phase, pager.phase, free, pager.frames.free, n, 0) && ViewShrinks(m, pager.Contents(), pager.phase)
    {
    }

    lemma FreedOneMore(first: seq<Phase>, before: seq<Phase>, free: seq<u64>, waiting: seq<u64>, n: nat, i: nat)
      requires FreesMany(first, before, free, waiting, n, i) && n + i < |first| && before[n + i].Present?
      requires pager.phase == before[n + i := Freed] && pager.frames.free == waiting + [before[n + i].frame]
      ensures FreesMany(first, pager.phase, free, pager.frames.free, n, i + 1)
    {
    }

    lemma ShrinksOnce(m: Memory, view: Memory, before: seq<Phase>, n: nat)
      requires |pager.phase| == PAGES && |before| == PAGES && n < PAGES && pager.phase == before[n := Freed]
      requires ViewShrinks(m, view, before)
      requires forall va :: Backed(pager.phase, va) ==> Word(pager.Contents(), va) == Word(view, va)
      ensures ViewShrinks(m, pager.Contents(), pager.phase)
    {
      hide Pager.Contents, AtWord, PageNumber, InHeapRange;
      assert forall va :: Backed(pager.phase, va) ==> Backed(before, va);
    }

    lemma FreedAll(phase: seq<Phase>, free: seq<u64>, start: nat, i: nat)
      requires |phase| == PAGES && InHeapRange(start) && start == PageAddress(PageNumber(start))
      requires FreesMany(phase, pager.phase, free, pager.frames.free, PageNumber(start), i)
      ensures FreedFrom(phase, start, i)
    {
    }

    lemma BigFacts(start: nat)
      requires Valid() && start in model.bigs
      ensures start in model.pages && InHeapRange(start) && start == PageAddress(PageNumber(start))
      ensures Backed(pager.phase, start + 8) && Word(pager.Contents(), start + 8) % U32 == model.bigs[start]
      ensures PoolFor(model.bigs[start]) == POOLS
    {
      hide Consistent, Pager.Contents, Pager.Sound, Issued, Backed;
      HeaderBacked(pager.Contents(), poolAddress, model, pager.phase, start);
      AlignedPage(start);
    }

    /** `i` pages from `start` on were freed. */
    ghost predicate FreedFrom(phase: seq<Phase>, start: nat, i: nat)
      reads pager
    {
      && InHeapRange(start) && start == PageAddress(PageNumber(start)) && PageNumber(start) + i <= PAGES
      && |phase| == PAGES && |pager.phase| == PAGES
      && forall n :: 0 <= n < PAGES ==>
           pager.phase[n] == if PageNumber(start) <= n < PageNumber(start) + i then Freed else phase[n]
    }

    /** Freeing the pages of one big allocation leaves all others intact. */
    lemma FreedSpares(m: Memory, phase: seq<Phase>, start: nat, i: nat)
      requires Ok(m, poolAddress, model) && Backing(phase, model) && |pager.phase| == PAGES && |poolAddress| == POOLS
      requires start in model.bigs && i <= BigPages(model.bigs[start]) && FreedFrom(phase, start, i)
      requires forall x: nat :: x in m <==> Backed(phase, x)
      requires ViewShrinks(m, pager.Contents(), pager.phase)
      ensures Intact(m, pager.Contents(), model, Only(start))
    {
      hide Ok, Backing, FreedFrom, ViewShrinks, IsLive, Granted, Backed, Pager.Contents, BigPages;
      forall c: nat, size: u32, x: nat | IsLive(model, c, size) && c !in Only(start) && c <= x < c + Granted(size) && x in m
        ensures x in pager.Contents() && pager.Contents()[x] == m[x]
      {
        OtherWordStays(m, phase, start, i, c, size, x);
        StaysInView(m, x);
      }
    }

    lemma StaysInView(m: Memory, x: nat)
      requires |pager.phase| == PAGES && Backed(pager.phase, x) && x in m && ViewShrinks(m, pager.Contents(), pager.phase)
      ensures x in pager.Contents() && pager.Contents()[x] == m[x]
    {
      KeysAreBacked();
      hide Pager.Contents, Backed;
      assert Word(pager.Contents(), x) == Word(m, x);
    }

    lemma BigReleased(m: Memory, start: nat)
      requires Ok(m, poolAddress, model) && |poolAddress| == POOLS && start in model.bigs
      ensures LosesLive(model, GaveUp(model, start), start)
    {
      if start in model.blocks { BigIsNoBlock(m, poolAddress, model, start); }
      hide Ok;
      BigFreeSpares(model, start);
    }

    /** A word of another allocation stays backed. */
    lemma OtherWordStays(m: Memory, phase: seq<Phase>, start: nat, i: nat, c: nat, size: u32, x: nat)
      requires Ok(m, poolAddress, model) && Backing(phase, model) && |pager.phase| == PAGES && |poolAddress| == POOLS
      requires start in model.bigs && i <= BigPages(model.bigs[start]) && FreedFrom(phase, start, i)
      requires IsLive(model, c, size) && c != start && c <= x < c + Granted(size) && Backed(phase, x)
      ensures Backed(pager.phase, x)
    {
      LiveOccupies(m, poolAddress, model, c, size);
      ExtentInPages(m, poolAddress, model, c, Granted(size), x);
      hide ListsOk, LiveOk, BigsOk, BlocksOk, IsLive, Granted, Occupies, PageOf;
      OwnPagesOnly(m, model, start, i, PageOf(x));
      BackedInPage(phase, PageOf(x), x);
    }

    /** The pages of the heap that are not part of the allocation given up keep their phases. */
    ghost predicate OthersKeepPhase(phase: seq<Phase>, start: nat)
      reads this, pager
    {
      && |phase| == PAGES && |pager.phase| == PAGES
      && forall g :: g in model.pages && model.pages[g] != BigPage(start) ==>
           InHeapRange(g) && pager.phase[PageNumber(g)] == phase[PageNumber(g)]
    }

    /** Freeing the pages of one big allocation touches no other header and no backing. */
    lemma FreedKeepsHeaders(m: Memory, phase: seq<Phase>, start: nat, i: nat)
      requires Ok(m, poolAddress, model) && Backing(phase, model) && |pager.phase| == PAGES && |poolAddress| == POOLS
      requires start in model.bigs && i <= BigPages(model.bigs[start]) && FreedFrom(phase, start, i)
      requires ViewShrinks(m, pager.Contents(), pager.phase)
      ensures SameHeaders(m, pager.Contents(), model, start)
      ensures Backing(pager.phase, GaveUp(model, start))
    {
      hide Pager.Contents, ListsOk, LiveOk, BlocksOk, BigsOk, Backed, ViewShrinks, PagesOk, Aligned, BigPages;
      forall g | g in model.pages && model.pages[g] != BigPage(start)
        ensures InHeapRange(g) && pager.phase[PageNumber(g)] == phase[PageNumber(g)]
      {
        OwnPagesOnly(m, model, start, i, g);
      }
      BackingGivenUp(m, phase, start);
      hide Ok, Backing, BigsOk;
      forall c | (c in model.blocks || c in model.bigs) && c != start
        ensures Word(pager.Contents(), c) == Word(m, c) && Word(pager.Contents(), c + 8) == Word(m, c + 8)
      {
        OtherKeyBacked(m, phase, start, c);
        StillSeen(m, c);
        StillSeen(m, c + 8);
      }
    }

    lemma StillSeen(m: Memory, x: nat)
      requires |pager.phase| == PAGES && Backed(pager.phase, x) && ViewShrinks(m, pager.Contents(), pager.phase)
      ensures Word(pager.Contents(), x) == Word(m, x)
    {
      hide Pager.Contents, Backed;
    }

    lemma BackingGivenUp(m: Memory, phase: seq<Phase>, start: nat)
      requires Backing(phase, model) && OthersKeepPhase(phase, start) && BigsOk(m, model)
      requires forall n :: 0 <= n < PAGES ==> pager.phase[n] == phase[n] || pager.phase[n] == Freed
      requires forall s :: s in model.bigs ==> Aligned(s)
      ensures Backing(pager.phase, GaveUp(model, start))
    {
      hide Pager.Contents, BigsOk, Aligned, InHeapRange, PageNumber;
      forall s | s in model.bigs ensures s in model.pages && model.pages[s] == BigPage(s) {
        BigOwns(m, model, s, s);
      }
    }

    lemma OtherKeyBacked(m: Memory, phase: seq<Phase>, start: nat, c: nat)
      requires Ok(m, poolAddress, model) && Backing(phase, model) && |pager.phase| == PAGES && |poolAddress| == POOLS
      requires (c in model.blocks || c in model.bigs) && c != start
      requires OthersKeepPhase(phase, start)
      ensures Backed(pager.phase, c) && Backed(pager.phase, c + 8)
    {
      hide ListsOk, LiveOk, BlocksOk, BigsOk, PagesOk, AtWord, InHeapRange, PageNumber, Aligned;
      if c in model.bigs {
        BigOwns(m, model, c, c);
      }
      var g := HeaderInPage(model, c);
      assert pager.phase[PageNumber(g)].Present? && InHeapRange(g) && Aligned(g);
      hide Ok, Backing, OthersKeepPhase;
      BackedInPage(phase, g, c);
      BackedInPage(phase, g, c + 8);
    }

    ghost predicate Freeable(start: nat, p: nat, size: u32)
      requires |model.free| == POOLS
      reads this, pager, pager.frames
    {
      FreeableAt(model, pager.phase, pager.frames.free, start, p, size)
    }

    /** Frees what was allocated: the header tells which pool the block returns to, or that its pages
        are given back. */
    method KFree(address: u64, ghost start: u64, ghost p: nat, ghost size: u32)
      requires Valid() && Freeable(start, p, size) && address == start + HEADER
      modifies this, pager, pager.ram, pager.frames
      ensures Valid()
      ensures GivenBack(old(model), start, p, size, model)
      ensures if p < POOLS then pager.phase == old(pager.phase) && pager.frames.free == old(pager.frames.free)
              else FreesMany(old(pager.phase), pager.phase, old(pager.frames.free), pager.frames.free,
                             PageNumber(start), BigFreed(size))
      ensures pager.owner.Keys == old(pager.owner.Keys)
      ensures LosesLive(old(model), model, start) && Intact(old(pager.Contents()), pager.Contents(), old(model), Only(start))
    {
      hide GainsLive, LosesLive, Intact;
      hide Consistent, Pager.Contents, Pager.Sound, Issued, Backing, Ok, InPool, Signed;
      var header := address - HEADER;
      FreeFacts(start, p, size);
      var pool := pager.Load(header);
      if pool == 0 {
        KFreeBig(address, start, size);
        return;
      }
      var word := pager.Load(header + 8);
      var q := if pool == poolAddress[0] then 0 else if pool == poolAddress[1] then 1 else 2;
      ReturnBlock(q, header, word % U32);
    }

    lemma HeadIsNullIff(p: nat)
      requires Valid() && p < POOLS
      ensures heads[p] == 0 <==> model.free[p] == []
    {
      hide Consistent, Pager.Contents, Pager.Sound, Issued, Backing, Ok;
      if model.free[p] == [] { EmptyHead(p); } else { ListWalk(p, 0); }
    }

    /** A live allocation is a block of the pool that its size selects, or a big one. */
    lemma LiveKind(start: nat, size: u32)
      requires Valid() && IsLive(model, start, size)
      ensures if PoolFor(size) < POOLS
              then start in model.blocks && model.blocks[start] == Live(size) && InPool(model.pages, PoolFor(size), start)
              else start in model.bigs && model.bigs[start] == size && InHeapRange(start)
    {
      hide Consistent, Pager.Contents, Pager.Sound, Issued, ListsOk, HeaderAt;
      if start in model.blocks && model.blocks[start] == Live(size) {
        var p :| 0 <= p < POOLS && InPool(model.pages, p, start);
        assert PoolFor(size) == p;
      }
    }

    lemma ReleasedFits(start: nat, size: u32)
      requires Valid() && IsLive(model, start, size)
      ensures start + HEADER < U64
    {
      LiveKind(start, size);
      if PoolFor(size) < POOLS { BlockBacked(PoolFor(size), start); }
    }

    lemma LiveIsNotFree(b: nat, p: nat)
      requires Valid() && p < POOLS && b in model.blocks && model.blocks[b].Live?
      ensures b !in model.free[p]
    {
      hide Consistent, Pager.Contents, Pager.Sound, Issued, Backing, InPool, ListAt;
    }

    lemma FreeFacts(start: nat, p: nat, size: u32)
      requires Valid() && Freeable(start, p, size)
      ensures Backed(pager.phase, start) && Backed(pager.phase, start + 8) && PoolAddresses(poolAddress)
      ensures HeaderAt(pager.Contents(), start, if p < POOLS then poolAddress[p] else 0, size)
    {
      hide Consistent, Pager.Contents, Pager.Sound, Issued, Backing;
      if p < POOLS {
        LiveBlock(p, start);
      } else {
        HeaderBacked(pager.Contents(), poolAddress, model, pager.phase, start);
      }
    }

    /** A caller writes a word of its own allocation. Only the low half of the second word is not the
        caller's: it is the size in the header. */
    method PayloadStore(a: nat, n: nat, x: nat, v: u64)
      requires Valid() && Backed(pager.phase, x) && a + 8 <= x < a + n
      requires Occupies(model, a, n) && ((a in model.blocks && model.blocks[a].Live?) || a in model.bigs)
      requires x == a + 8 ==> v % U32 == Word(pager.Contents(), x) % U32
      modifies pager.ram
      ensures Valid() && pager.Contents() == old(pager.Contents())[x := v]
    {
      hide Consistent, Pager.Contents, Pager.Sound, Issued, Backing, Ok, Occupies, SameHeaders;
      ghost var m := pager.Contents();
      OccupiesAligned(m, poolAddress, model, a, n);
      WordsApart(m, poolAddress, model, a, n, x);
      assert SameHeaders(m, m[x := v], model, a) by { OneWrite(m, model, a, x, v); }
      PayloadStep(m, m[x := v], poolAddress, model, a);
      pager.Store(x, v);
    }

    /** A caller's first access to a further page of its big allocation binds a frame to it. */
    method PayloadTouch(x: nat)
      requires Valid() && InHeapRange(x) && pager.frames.free != [] && pager.phase[PageNumber(x)] == Allocatable
      modifies pager, pager.ram, pager.frames
      ensures Valid() && pager.owner.Keys == old(pager.owner.Keys)
      ensures var n := PageNumber(x);
              && pager.phase == old(pager.phase)[n := Present(old(pager.frames.free)[0])]
              && pager.frames.free == old(pager.frames.free)[1..]
              && Without(pager.Contents(), PageAddress(n)) == old(pager.Contents())
    {
      hide Consistent, Pager.Contents, Pager.Sound, Issued;
      ghost var m, phase := pager.Contents(), pager.phase;
      pager.Touch(x);
      TouchedKeepsHeap(m, phase);
    }

    lemma TouchedKeepsHeap(m: Memory, phase: seq<Phase>)
      requires Ok(m, poolAddress, model) && Backing(phase, model) && |pager.phase| == PAGES && |poolAddress| == POOLS
      requires forall n :: 0 <= n < PAGES ==>
                 pager.phase[n] == phase[n] || (phase[n] == Allocatable && pager.phase[n].Present?)
      requires forall va :: Backed(phase, va) ==> Word(pager.Contents(), va) == Word(m, va)
      ensures Ok(pager.Contents(), poolAddress, model) && Backing(pager.phase, model)
    {
      hide Pager.Contents, InPool, ListAt;
      forall c | c in model.blocks || c in model.bigs
        ensures Word(pager.Contents(), c) == Word(m, c) && Word(pager.Contents(), c + 8) == Word(m, c + 8)
      {
        HeaderBacked(m, poolAddress, model, phase, c);
      }
      AllHeadersKept(m, pager.Contents(), poolAddress, model);
    }
  }

  /** The caller is given `address`, behind the header of what is now allocated and was not before. */
  ghost predicate GivesOut(h: Heap, h': Heap, address: nat, size: u32) {
    HEADER <= address && GainsLive(h, h', address - HEADER, size)
  }

  lemma GivesOutAfterSame(h: Heap, h1: Heap, h2: Heap, address: nat, size: u32)
    requires SameLive(h, h1) && GivesOut(h1, h2, address, size)
    ensures GivesOut(h, h2, address, size)
  {
    GainAfterSame(h, h1, h2, address - HEADER, size);
  }

  /** A freed block of pool p stands at the end of the pool's list if the size in its header is positive
      as a signed number; else it is on no list, and no list changes. */
  lemma FreedIsListedIff(m: Memory, addr: seq<u64>, h: Heap, b: u64, p: nat, size: u32, h': Heap)
    requires Ok(m, addr, h) && p < POOLS && b in h.blocks && h.blocks[b] == Live(size) && GivenBack(h, b, p, size, h')
    ensures |h.free| == 3 && |h'.free| == 3
    ensures h'.free[p] == if 0 < size < 0x8000_0000 then h.free[p] + [b] else h.free[p]
    ensures forall q :: 0 <= q < 3 && q != p ==> h'.free[q] == h.free[q]
    ensures b in h'.free[p] <==> 0 < size < 0x8000_0000
  {
    hide InPool, ListsLinked, LiveOk, BigsOk, BlocksOk, PagesOk;
    if b in h.free[p] {
      assert h.blocks[b] == FreeBlock;
    }
  }

  /** A request of 0 bytes gets a block; freeing it puts the block on no list, and it is never free again. */
  lemma ZeroSizeIsLost(m: Memory, addr: seq<u64>, h: Heap, b: u64, h': Heap)
    requires Ok(m, addr, h) && b in h.blocks && h.blocks[b] == Live(0) && GivenBack(h, b, PoolFor(0), 0, h')
    ensures PoolFor(0) == 0 && Signed(0) <= 0
    ensures h'.blocks[b] == Lost && forall p :: 0 <= p < POOLS ==> b !in h'.free[p]
  {
    hide InPool, ListsLinked, LiveOk, BigsOk, BlocksOk, PagesOk;
  }

  lemma LowHalf(w: u64, size: u32)
    ensures 0 <= w - w % U32 + size < U64 && (w - w % U32 + size) % U32 == size
    ensures (w - w % U32 + size) / U32 == w / U32
  {
    assert w - w % U32 == U32 * (w / U32);
  }
}
