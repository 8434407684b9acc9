/** The kernel heap as a value: three pools of blocks on free lists, and multi-page allocations. */
module HeapModel {
  import opened Words
  import opened PageNumbers

  const HEADER: nat := 12
  const POOLS: nat := 3

  function BlockSize(p: nat): nat
    requires p < POOLS
  {
    if p == 0 then 64 else if p == 1 then 512 else 2048
  }

  // ---------------------------------------------------------------- sizes

  /** Bytes needed with the header, as the 32-bit unsigned sum. */
  function Required(size: u32): u32 {
    (size + HEADER) % U32
  }

  /** The smallest pool that the sum fits, or POOLS. */
  function PoolFor(size: u32): (p: nat)
    ensures p <= POOLS
    ensures p < POOLS ==> Required(size) <= BlockSize(p)
    ensures forall q :: 0 <= q < p && q < POOLS ==> BlockSize(q) < Required(size)
  {
    if Required(size) <= 64 then 0 else if Required(size) <= 512 then 1 else if Required(size) <= 2048 then 2 else POOLS
  }

  function CeilPages(n: nat): (pages: nat)
    ensures PAGE * pages >= n && (0 < pages ==> PAGE * (pages - 1) < n)
  {
    (n + PAGE - 1) / PAGE
  }

  /** Pages reserved for a big allocation: one, and one for each page of the signed total. */
  function BigPages(size: u32): nat {
    1 + if Signed(Required(size)) > 0 then CeilPages(Signed(Required(size))) else 0
  }

  /** Pages given back for it: those of the size without the header. */
  function BigFreed(size: u32): nat {
    if Signed(size) > 0 then CeilPages(Signed(size)) else 0
  }

  /** Bytes set aside for an allocation, header included. */
  function Granted(size: u32): nat {
    if PoolFor(size) < POOLS then BlockSize(PoolFor(size)) else PAGE * BigPages(size)
  }

  /** The pool in numbers: the request and 12 bytes, as a 32-bit sum, up to 64, 512 or 2048. */
  lemma PoolForIs(size: u32)
    ensures var n := (size + 12) % 0x1_0000_0000;
            && (PoolFor(size) == 0 <==> n <= 64)
            && (PoolFor(size) == 1 <==> 64 < n <= 512)
            && (PoolFor(size) == 2 <==> 512 < n <= 2048)
            && (PoolFor(size) == 3 <==> 2048 < n)
  {
  }

  /** What is set aside, in numbers: a block of 64, 512 or 2048 bytes, or the pages reserved; of these one
      and as many as the sum fills, and when it is negative as a signed number only the one. */
  lemma GrantedIs(size: u32)
    ensures var n := (size + 12) % 0x1_0000_0000;
            && Granted(size) == (if n <= 64 then 64 else if n <= 512 then 512 else if n <= 2048 then 2048
                                 else 4096 * BigPages(size))
            && (2048 < n < 0x8000_0000 ==> 4096 * (BigPages(size) - 2) < n <= 4096 * (BigPages(size) - 1))
            && (0x8000_0000 <= n ==> BigPages(size) == 1)
  {
  }

  /** What is given back of a big allocation, in numbers: the pages that the request fills, without the
      header, and none when it is negative as a signed number. */
  lemma BigFreedIs(size: u32)
    ensures 0 < size < 0x8000_0000 ==> 4096 * (BigFreed(size) - 1) < size <= 4096 * BigFreed(size)
    ensures size == 0 || 0x8000_0000 <= size ==> BigFreed(size) == 0
  {
  }

  /** The header and all requested bytes fit what is set aside if and only if neither the unsigned nor
      the signed 32-bit sum overflows. */
  lemma GrantSufficesIff(size: u32)
    ensures HEADER + size <= Granted(size) <==> size + HEADER < INT_END
  {
  }

  /** The unsigned sum of a huge size and the header wraps round, and the smallest pool is chosen. */
  lemma HugeSizeGetsSmallBlock()
    ensures PoolFor(0xFFFF_FFF8) == 0 && Granted(0xFFFF_FFF8) == 64
    ensures HEADER + 0xFFFF_FFF8 > Granted(0xFFFF_FFF8)
  {
  }

  /** A size whose sum with the header is negative as a signed number gets a single page. */
  lemma LargeSizeGetsOnePage()
    ensures PoolFor(0x8000_0000) == POOLS && Granted(0x8000_0000) == PAGE
    ensures HEADER + 0x8000_0000 > Granted(0x8000_0000)
  {
  }

  /** In a pool, the size as a signed number never exceeds one block. */
  lemma SignedFitsBlock(size: u32)
    requires PoolFor(size) < POOLS
    ensures Signed(size) <= BlockSize(PoolFor(size))
  {
  }

  /** Sizes for which header and bytes add up without overflow, or which are negative as signed numbers. */
  predicate FreesOwnPages(size: u32) {
    size + HEADER < INT_END || INT_END <= size
  }

  /** Freeing a big allocation gives back no more pages than were reserved for it, if and only if the
      signed sum with the header does not overflow from a size that is still positive. */
  lemma BigFreedIff(size: u32)
    requires PoolFor(size) == POOLS
    ensures BigFreed(size) <= BigPages(size) <==> FreesOwnPages(size)
  {
  }

  /** Eight bytes below 2^31: one page is reserved, and the free would go on over 2 GiB. */
  lemma FreeRunsBeyond()
    ensures PoolFor(0x7FFF_FFF8) == POOLS && BigPages(0x7FFF_FFF8) == 1 && BigFreed(0x7FFF_FFF8) == 524288
  {
  }

  /** At 2^31 bytes the free gives back nothing at all. */
  lemma FreeGivesNothingBack()
    ensures BigPages(0x8000_0000) == 1 && BigFreed(0x8000_0000) == 0
  {
  }

  lemma LargeLeak(size: u32)
    requires PoolFor(size) == POOLS && INT_END <= size
    ensures BigFreed(size) == 0 && BigPages(size) == 1
  {
  }

  /** Of a big allocation, one or two pages are never given back: two exactly when the header spills
      onto a further page. */
  lemma BigLeak(size: u32)
    requires PoolFor(size) == POOLS && FreesOwnPages(size)
    ensures BigFreed(size) <= BigPages(size)
    ensures BigPages(size) - BigFreed(size) ==
              if size < INT_END && (size + PAGE - 1) % PAGE + HEADER >= PAGE then 2 else 1
    ensures BigPages(size) == if size < INT_END then 1 + CeilPages(size + HEADER) else 1
  {
    if size >= INT_END {
      LargeLeak(size);
      return;
    }
    hide PoolFor;
    var q, r := (size + PAGE - 1) / PAGE, (size + PAGE - 1) % PAGE;
    assert size + PAGE - 1 == PAGE * q + r;
    assert size + HEADER + PAGE - 1 == PAGE * q + (r + HEADER);
    if r + HEADER >= PAGE {
      WholePages(q + 1, r + HEADER - PAGE);
    } else {
      WholePages(q, r + HEADER);
    }
  }

  lemma WholePages(q: nat, r: nat)
    requires r < PAGE
    ensures (PAGE * q + r) / PAGE == q
  {
  }

  // ---------------------------------------------------------------- lists and blocks

  /** A null-terminated list of distinct blocks, linked through their first words. */
  ghost predicate ListAt(m: Memory, head: u64, list: seq<u64>) {
    && Distinct(list) && (forall b :: b in list ==> b != 0)
    && head == (if list == [] then 0 else list[0])
    && (forall i :: 0 <= i < |list| - 1 ==> Word(m, list[i]) == list[i + 1])
    && (list != [] ==> Word(m, list[|list| - 1]) == 0)
  }

  lemma ListPop(m: Memory, head: u64, list: seq<u64>)
    requires ListAt(m, head, list) && list != []
    ensures head == list[0] && ListAt(m, Word(m, head), list[1..])
  {
    var rest := list[1..];
    assert forall i :: 0 <= i < |rest| ==> rest[i] == list[i + 1];
    assert forall b :: b in rest ==> b in list;
  }

  /** Linking a block behind the tail and ending the list there. */
  lemma ListPush(m: Memory, head: u64, list: seq<u64>, b: u64)
    requires ListAt(m, head, list) && list != [] && b !in list && b != 0
    ensures ListAt(m[list[|list| - 1] := b][b := 0], head, list + [b])
  {
    var tail := list[|list| - 1];
    var m', longer := m[tail := b][b := 0], list + [b];
    forall i | 0 <= i < |longer| - 1 ensures Word(m', longer[i]) == longer[i + 1] {
      if i < |list| - 1 {
        assert list[i] != tail && Word(m, list[i]) == list[i + 1];
      }
    }
  }

  lemma ListKept(m: Memory, m': Memory, head: u64, list: seq<u64>)
    requires ListAt(m, head, list) && forall b :: b in list ==> Word(m', b) == Word(m, b)
    ensures ListAt(m', head, list)
  {
  }

  // ---------------------------------------------------------------- the heap

  datatype PageUse = PoolPage(pool: nat) | BigPage(start: nat)

  /** A block is free, allocated for a request of `size` bytes, or lost: returned without reaching
      its free list. */
  datatype Block = FreeBlock | Live(size: u32) | Lost

  /** `heads` are the list heads of the three pools; `free` are their lists, `pages` the uses of the
      pages the heap was handed, `blocks` the states of all blocks of pool pages, `bigs` the sizes of
      the big allocations by their first page. */
  datatype Heap = Heap(heads: seq<u64>, free: seq<seq<u64>>, pages: map<nat, PageUse>, blocks: map<nat, Block>,
                       bigs: map<nat, u32>)

  /** The heap before its first allocation. */
  const EMPTY: Heap := Heap([0, 0, 0], [[], [], []], map[], map[], map[])

  function PageOf(a: nat): nat {
    a - a % PAGE
  }

  predicate InPool(pages: map<nat, PageUse>, p: nat, b: nat)
    requires p < POOLS
  {
    PageOf(b) in pages && pages[PageOf(b)] == PoolPage(p) && b % BlockSize(p) == 0
  }

  predicate HeaderAt(m: Memory, a: nat, pool: u64, size: u32) {
    Word(m, a) == pool && Word(m, a + 8) % U32 == size
  }

  ghost predicate PagesOk(pages: map<nat, PageUse>) {
    forall g :: g in pages ==> Aligned(g) && BASE <= g && (pages[g].PoolPage? ==> pages[g].pool < POOLS)
  }

  /** The blocks are exactly the blocks of the pool pages. */
  ghost predicate BlocksOk(h: Heap) {
    forall b: nat :: b in h.blocks <==> exists p :: 0 <= p < POOLS && InPool(h.pages, p, b)
  }

  ghost predicate ListsLinked(m: Memory, h: Heap)
    requires |h.heads| == POOLS && |h.free| == POOLS
  {
    forall p :: 0 <= p < POOLS ==> ListAt(m, h.heads[p], h.free[p])
  }

  ghost predicate ListsMatch(h: Heap)
    requires |h.free| == POOLS
  {
    forall p, b :: 0 <= p < POOLS ==>
      (b in h.free[p] <==> b in h.blocks && h.blocks[b] == FreeBlock && InPool(h.pages, p, b))
  }

  /** Each pool's list holds exactly the free blocks of that pool, each once. */
  ghost predicate ListsOk(m: Memory, h: Heap) {
    |h.heads| == POOLS && |h.free| == POOLS && ListsLinked(m, h) && ListsMatch(h)
  }

  ghost predicate LiveOk(m: Memory, addr: seq<u64>, h: Heap)
    requires |addr| == POOLS
  {
    forall p, b :: 0 <= p < POOLS && b in h.blocks && h.blocks[b].Live? && InPool(h.pages, p, b) ==>
      HeaderAt(m, b, addr[p], h.blocks[b].size) && PoolFor(h.blocks[b].size) == p
  }

  /** A big allocation owns all its pages. */
  ghost predicate BigsOk(m: Memory, h: Heap) {
    forall s :: s in h.bigs ==> BigOk(m, h, s)
  }

  ghost predicate BigOk(m: Memory, h: Heap, s: nat)
    requires s in h.bigs
  {
    && HeaderAt(m, s, 0, h.bigs[s]) && PoolFor(h.bigs[s]) == POOLS
    && forall g: nat :: Aligned(g) && s <= g < s + PAGE * BigPages(h.bigs[s]) ==> g in h.pages && h.pages[g] == BigPage(s)
  }

  ghost predicate PoolAddresses(addr: seq<u64>) {
    |addr| == POOLS && Distinct(addr) && forall p :: 0 <= p < POOLS ==> addr[p] != 0
  }

  ghost predicate Ok(m: Memory, addr: seq<u64>, h: Heap) {
    && PoolAddresses(addr) && PagesOk(h.pages) && BlocksOk(h) && ListsOk(m, h) && LiveOk(m, addr, h) && BigsOk(m, h)
    && forall s :: s in h.bigs ==> Aligned(s)
  }

  lemma EmptyOk(m: Memory, addr: seq<u64>)
    requires PoolAddresses(addr)
    ensures Ok(m, addr, EMPTY)
  {
  }

  // ---------------------------------------------------------------- extents

  /** The block or big allocation at `a` takes up `n` bytes. */
  ghost predicate Occupies(h: Heap, a: nat, n: nat) {
    || (a in h.blocks && exists p :: 0 <= p < POOLS && InPool(h.pages, p, a) && n == BlockSize(p))
    || (a in h.bigs && n == PAGE * BigPages(h.bigs[a]))
  }

  lemma BlockInPage(b: nat, p: nat)
    requires p < POOLS && b % BlockSize(p) == 0
    ensures PageOf(b) <= b && b + BlockSize(p) <= PageOf(b) + PAGE && Aligned(PageOf(b))
    ensures AtWord(b)
  {
    var q := b / PAGE;
    assert PageOf(b) == PAGE * q;
    if p == 0 {
      InPage64(b / 64, q);
    } else if p == 1 {
      InPage512(b / 512, q);
    } else {
      InPage2048(b / 2048, q);
    }
  }

  // Linear facts about multiples of the three block sizes.
  lemma InPage64(k: nat, q: nat)
    ensures PAGE * q <= 64 * k < PAGE * q + PAGE ==> 64 * k + 64 <= PAGE * q + PAGE
    ensures (64 * k) % 8 == 0
  {
    MultipleOf8(8 * k);
  }

  lemma InPage512(k: nat, q: nat)
    ensures PAGE * q <= 512 * k < PAGE * q + PAGE ==> 512 * k + 512 <= PAGE * q + PAGE
    ensures (512 * k) % 8 == 0
  {
    MultipleOf8(64 * k);
  }

  lemma InPage2048(k: nat, q: nat)
    ensures PAGE * q <= 2048 * k < PAGE * q + PAGE ==> 2048 * k + 2048 <= PAGE * q + PAGE
    ensures (2048 * k) % 8 == 0
  {
    MultipleOf8(256 * k);
  }

  lemma MultipleOf8(j: nat)
    ensures (8 * j) % 8 == 0
  {
  }

  lemma BlocksOfPoolApart(b: nat, c: nat, p: nat)
    requires p < POOLS && b % BlockSize(p) == 0 && c % BlockSize(p) == 0 && b < c
    ensures b + BlockSize(p) <= c
  {
    match p
    case 0 => MultiplesApart64(b, c);
    case 1 => MultiplesApart512(b, c);
    case 2 => MultiplesApart2048(b, c);
  }

  lemma MultiplesApart64(b: nat, c: nat)
    requires b % 64 == 0 && c % 64 == 0 && b < c
    ensures b + 64 <= c
  {
  }

  lemma MultiplesApart512(b: nat, c: nat)
    requires b % 512 == 0 && c % 512 == 0 && b < c
    ensures b + 512 <= c
  {
  }

  lemma MultiplesApart2048(b: nat, c: nat)
    requires b % 2048 == 0 && c % 2048 == 0 && b < c
    ensures b + 2048 <= c
  {
  }

  lemma PageOfOrder(a: nat, c: nat)
    requires a <= c
    ensures Aligned(PageOf(a)) && PageOf(a) <= a < PageOf(a) + PAGE && PageOf(a) <= PageOf(c)
    ensures PageOf(a) < PageOf(c) ==> PageOf(a) + PAGE <= PageOf(c)
    ensures Aligned(a) ==> PageOf(a) == a && a <= PageOf(c)
  {
  }

  /** The header of a block or big allocation stands in one page: a page of a pool, or the first of the
      big allocation. */
  lemma HeaderInPage(h: Heap, a: nat) returns (g: nat)
    requires PagesOk(h.pages) && BlocksOk(h) && (a in h.blocks || (a in h.bigs && Aligned(a) && a in h.pages))
    ensures g in h.pages && g <= a && a + 16 <= g + PAGE && AtWord(a) && AtWord(a + 8)
    ensures h.pages[g].PoolPage? || (g == a && a in h.bigs)
  {
    if a in h.blocks {
      var p :| 0 <= p < POOLS && InPool(h.pages, p, a);
      g := PageOf(a);
      BlockInPage(a, p);
    } else {
      g := a;
      PageWord(a, 0);
    }
    hide PagesOk, BlocksOk, InPool, PageOf, Aligned;
    NextWord(a);
    hide AtWord;
  }

  /** No two blocks or big allocations overlap, whatever pools they come from. */
  lemma ExtentsApart(m: Memory, addr: seq<u64>, h: Heap, a: nat, n: nat, c: nat, k: nat)
    requires Ok(m, addr, h) && Occupies(h, a, n) && Occupies(h, c, k) && a != c
    ensures a + n <= c || c + k <= a
  {
    if a < c { LowerEndsFirst(m, addr, h, a, n, c, k); } else { LowerEndsFirst(m, addr, h, c, k, a, n); }
  }

  lemma BigOwns(m: Memory, h: Heap, s: nat, g: nat)
    requires BigsOk(m, h) && s in h.bigs && Aligned(g) && s <= g < s + PAGE * BigPages(h.bigs[s])
    ensures g in h.pages && h.pages[g] == BigPage(s)
  {
  }

  lemma LowerEndsFirst(m: Memory, addr: seq<u64>, h: Heap, a: nat, n: nat, c: nat, k: nat)
    requires Ok(m, addr, h) && Occupies(h, a, n) && Occupies(h, c, k) && a < c
    ensures a + n <= c
  {
    hide ListsOk, LiveOk, HeaderAt, BigsOk;
    PageOfOrder(a, c);
    PageOfOrder(c, c);
    var g := PageOf(c);
    if c in h.bigs { BigOwns(m, h, c, c); }
    if a in h.bigs && g < a + PAGE * BigPages(h.bigs[a]) { BigOwns(m, h, a, g); }
    if a !in h.bigs || n != PAGE * BigPages(h.bigs[a]) {
      var p :| 0 <= p < POOLS && InPool(h.pages, p, a) && n == BlockSize(p);
      BlockInPage(a, p);
      if PageOf(a) == g && c in h.blocks {
        var q :| 0 <= q < POOLS && InPool(h.pages, q, c);
        BlocksOfPoolApart(a, c, p);
      }
    }
  }

  // ---------------------------------------------------------------- steps

  /** The first two words of every block and big allocation but the one at `a` are unchanged. */
  ghost predicate SameHeaders(m: Memory, m': Memory, h: Heap, a: nat) {
    forall c :: (c in h.blocks || c in h.bigs) && c != a ==> Word(m', c) == Word(m, c) && Word(m', c + 8) == Word(m, c + 8)
  }

  lemma KeyOccupies(m: Memory, addr: seq<u64>, h: Heap, c: nat) returns (k: nat)
    requires Ok(m, addr, h) && (c in h.blocks || c in h.bigs)
    ensures Occupies(h, c, k) && 16 <= k
  {
    if c in h.blocks {
      var p :| 0 <= p < POOLS && InPool(h.pages, p, c);
      k := BlockSize(p);
    } else {
      k := PAGE * BigPages(h.bigs[c]);
    }
  }

  /** No word inside one allocation is a header word or link of another. */
  lemma WordsApart(m: Memory, addr: seq<u64>, h: Heap, a: nat, n: nat, x: nat)
    requires Ok(m, addr, h) && Occupies(h, a, n) && a <= x < a + n
    ensures forall c :: (c in h.blocks || c in h.bigs) && c != a ==> x != c && x != c + 8
  {
    forall c | (c in h.blocks || c in h.bigs) && c != a ensures x != c && x != c + 8 {
      var k := KeyOccupies(m, addr, h, c);
      ExtentsApart(m, addr, h, a, n, c, k);
    }
  }

  lemma OneWrite(m: Memory, h: Heap, a: nat, x: nat, v: u64)
    requires forall c :: (c in h.blocks || c in h.bigs) && c != a ==> x != c && x != c + 8
    ensures SameHeaders(m, m[x := v], h, a)
  {
  }

  lemma OccupiesAligned(m: Memory, addr: seq<u64>, h: Heap, a: nat, n: nat)
    requires Ok(m, addr, h) && Occupies(h, a, n)
    ensures a % 8 == 0
  {
    hide ListsOk, LiveOk, BigsOk, BlocksOk, PagesOk;
    if a in h.blocks && exists p :: 0 <= p < POOLS && InPool(h.pages, p, a) && n == BlockSize(p) {
      var p :| 0 <= p < POOLS && InPool(h.pages, p, a) && n == BlockSize(p);
      BlockInPage(a, p);
    }
  }

  /** Writing the two header words of one allocation leaves all others alone. */
  lemma HeaderWrite(m: Memory, addr: seq<u64>, h: Heap, a: nat, v: u64, w: u64)
    requires Ok(m, addr, h) && (a in h.blocks || a in h.bigs)
    ensures SameHeaders(m, m[a := v][a + 8 := w], h, a)
  {
    hide Ok, Occupies, SameHeaders;
    var n := KeyOccupies(m, addr, h, a);
    WordsApart(m, addr, h, a, n, a);
    WordsApart(m, addr, h, a, n, a + 8);
    OneWrite(m, h, a, a, v);
    OneWrite(m[a := v], h, a, a + 8, w);
    HeadersThen(m, m[a := v], m[a := v][a + 8 := w], h, a);
  }

  lemma HeadersThen(m: Memory, m1: Memory, m2: Memory, h: Heap, a: nat)
    requires SameHeaders(m, m1, h, a) && SameHeaders(m1, m2, h, a)
    ensures SameHeaders(m, m2, h, a)
  {
    hide Word;
  }

  lemma ListsKept(m: Memory, m': Memory, h: Heap, a: nat)
    requires ListsOk(m, h) && SameHeaders(m, m', h, a)
    requires forall p :: 0 <= p < POOLS ==> a !in h.free[p]
    ensures ListsOk(m', h)
  {
    forall p | 0 <= p < POOLS ensures ListAt(m', h.heads[p], h.free[p]) {
      assert forall b :: b in h.free[p] ==> b in h.blocks && b != a;
      ListKept(m, m', h.heads[p], h.free[p]);
    }
  }

  /** The lists carry over to a heap that has the same blocks and pools. */
  lemma ListsCarry(m: Memory, m': Memory, h: Heap, h': Heap, a: nat)
    requires ListsOk(m, h) && SameHeaders(m, m', h, a) && a !in h.blocks
    requires h'.heads == h.heads && h'.free == h.free && h'.blocks == h.blocks
    requires forall p, b: nat :: 0 <= p < POOLS ==> (InPool(h'.pages, p, b) <==> InPool(h.pages, p, b))
    ensures ListsOk(m', h')
  {
    hide InPool;
    ListsKept(m, m', h, a);
  }

  lemma BlocksCarry(h: Heap, h': Heap)
    requires BlocksOk(h) && h'.blocks == h.blocks
    requires forall p, b: nat :: 0 <= p < POOLS ==> (InPool(h'.pages, p, b) <==> InPool(h.pages, p, b))
    ensures BlocksOk(h')
  {
    hide InPool;
    forall b: nat ensures b in h'.blocks <==> exists p :: 0 <= p < POOLS && InPool(h'.pages, p, b) {
      if b in h'.blocks {
        var p :| 0 <= p < POOLS && InPool(h.pages, p, b);
        assert InPool(h'.pages, p, b);
      }
    }
  }

  /** Live blocks other than `a` keep their headers, and `a`, if it is live now, has one. */
  lemma LiveKept(m: Memory, m': Memory, addr: seq<u64>, h: Heap, h': Heap, a: nat)
    requires |addr| == POOLS && LiveOk(m, addr, h) && SameHeaders(m, m', h, a)
    requires h'.pages == h.pages && h'.blocks.Keys == h.blocks.Keys
    requires forall c :: c in h.blocks && c != a ==> h'.blocks[c] == h.blocks[c] || !h'.blocks[c].Live?
    requires forall p :: 0 <= p < POOLS && a in h.blocks && h'.blocks[a].Live? && InPool(h.pages, p, a) ==>
               HeaderAt(m', a, addr[p], h'.blocks[a].size) && PoolFor(h'.blocks[a].size) == p
    ensures LiveOk(m', addr, h')
  {
    hide InPool;
  }

  lemma BigsKept(m: Memory, m': Memory, h: Heap, h': Heap, a: nat)
    requires BigsOk(m, h) && SameHeaders(m, m', h, a)
    requires h'.pages == h.pages && h'.bigs == h.bigs
    requires a in h.bigs ==> HeaderAt(m', a, 0, h.bigs[a])
    ensures BigsOk(m', h')
  {
  }

  lemma BlocksKept(h: Heap, h': Heap)
    requires BlocksOk(h) && h'.pages == h.pages && h'.blocks.Keys == h.blocks.Keys
    ensures BlocksOk(h')
  {
    hide InPool;
    assert forall b :: b in h'.blocks <==> b in h.blocks;
  }

  /** Writes inside one live allocation that keep its header keep the heap. */
  lemma PayloadStep(m: Memory, m': Memory, addr: seq<u64>, h: Heap, a: nat)
    requires Ok(m, addr, h) && SameHeaders(m, m', h, a)
    requires (a in h.blocks && h.blocks[a].Live?) || a in h.bigs
    requires Word(m', a) == Word(m, a) && Word(m', a + 8) % U32 == Word(m, a + 8) % U32
    ensures Ok(m', addr, h)
  {
    if a in h.blocks { BigIsNoBlock(m, addr, h, a); }
    assert forall p :: 0 <= p < POOLS ==> a !in h.free[p] by { hide InPool, PagesOk, BlocksOk, ListAt; }
    ListsKept(m, m', h, a);
    LiveKept(m, m', addr, h, h, a);
    BigsKept(m, m', h, h, a);
    hide ListsOk, LiveOk, BigsOk, BlocksOk, PagesOk;
  }

  /** A memory in which every header and link reads the same holds the same heap. */
  lemma AllHeadersKept(m: Memory, m': Memory, addr: seq<u64>, h: Heap)
    requires Ok(m, addr, h)
    requires forall c :: c in h.blocks || c in h.bigs ==> Word(m', c) == Word(m, c) && Word(m', c + 8) == Word(m, c + 8)
    ensures Ok(m', addr, h)
  {
    hide InPool, BlocksOk, PagesOk;
    AllListsKept(m, m', h);
    assert LiveOk(m', addr, h) by { hide ListsOk, BigsOk; }
    assert BigsOk(m', h) by { hide ListsOk, LiveOk; }
    hide ListsOk, LiveOk, BigsOk;
  }

  lemma AllListsKept(m: Memory, m': Memory, h: Heap)
    requires ListsOk(m, h) && forall c :: c in h.blocks ==> Word(m', c) == Word(m, c)
    ensures ListsOk(m', h)
  {
    hide InPool;
    forall p | 0 <= p < POOLS ensures ListAt(m', h.heads[p], h.free[p]) {
      assert forall b :: b in h.free[p] ==> b in h.blocks;
      ListKept(m, m', h.heads[p], h.free[p]);
    }
    hide ListAt;
  }

  lemma BigIsNoBlock(m: Memory, addr: seq<u64>, h: Heap, a: nat)
    requires Ok(m, addr, h) && a in h.blocks
    ensures a !in h.bigs
  {
    var p :| 0 <= p < POOLS && InPool(h.pages, p, a);
    if a in h.bigs {
      PageOfOrder(a, a);
      BigOwns(m, h, a, a);
    }
  }

  function Popped(m: Memory, h: Heap, p: nat, size: u32): Heap
    requires p < POOLS && |h.heads| == POOLS && |h.free| == POOLS && h.free[p] != []
  {
    h.(heads := h.heads[p := Word(m, h.free[p][0])], free := h.free[p := h.free[p][1..]],
       blocks := h.blocks[h.free[p][0] := Live(size)])
  }

  /** Taking the first block of a pool and writing its header. */
  lemma PopStep(m: Memory, m': Memory, addr: seq<u64>, h: Heap, p: nat, size: u32)
    requires Ok(m, addr, h) && p < POOLS && h.free[p] != [] && PoolFor(size) == p
    requires var b := h.free[p][0]; SameHeaders(m, m', h, b) && HeaderAt(m', b, addr[p], size)
    ensures Ok(m', addr, Popped(m, h, p, size))
  {
    hide InPool, ListAt, SameHeaders, HeaderAt, ListsOk, LiveOk, BigsOk, BlocksOk, PagesOk, PoolFor, Distinct;
    ListsShape(m, h);
    var b, h' := h.free[p][0], Popped(m, h, p, size);
    FirstIsFree(m, h, p);
    BigIsNoBlock(m, addr, h, b);
    PopLists(m, m', h, p, size);
    PoolUnique(h.pages, p, b);
    LiveKept(m, m', addr, h, h', b);
    BigsKept(m, m', h, h', b);
    BlocksKept(h, h');
  }

  lemma ListsShape(m: Memory, h: Heap)
    requires ListsOk(m, h)
    ensures |h.heads| == POOLS && |h.free| == POOLS
  {
  }

  lemma FirstIsFree(m: Memory, h: Heap, p: nat)
    requires ListsOk(m, h) && p < POOLS && h.free[p] != []
    ensures var b := h.free[p][0]; b in h.blocks && h.blocks[b] == FreeBlock && InPool(h.pages, p, b)
  {
    hide InPool, ListAt;
    assert h.free[p][0] in h.free[p];
  }

  /** A block belongs to one pool. */
  lemma PoolUnique(pages: map<nat, PageUse>, p: nat, b: nat)
    requires p < POOLS && InPool(pages, p, b)
    ensures forall q :: 0 <= q < POOLS && InPool(pages, q, b) ==> q == p
  {
  }

  lemma PopLists(m: Memory, m': Memory, h: Heap, p: nat, size: u32)
    requires ListsOk(m, h) && p < POOLS && h.free[p] != [] && SameHeaders(m, m', h, h.free[p][0])
    ensures ListsOk(m', Popped(m, h, p, size))
  {
    hide InPool, ListAt, SameHeaders, Word, ListsMatch, ListsLinked;
    PopMatch(m, h, p, size);
    PopLinked(m, m', h, p, size);
  }

  /** What the first of a list is: not in the rest. */
  lemma RestOfList(m: Memory, head: u64, list: seq<u64>)
    requires ListAt(m, head, list) && list != []
    ensures list[0] in list && list[0] !in list[1..]
    ensures forall c :: c in list[1..] <==> c in list && c != list[0]
  {
    assert list == [list[0]] + list[1..];
    hide Word;
  }

  lemma PopMatch(m: Memory, h: Heap, p: nat, size: u32)
    requires ListsOk(m, h) && p < POOLS && h.free[p] != []
    ensures ListsMatch(Popped(m, h, p, size))
  {
    hide ListAt, InPool, Word;
    RestOfList(m, h.heads[p], h.free[p]);
    var b, h' := h.free[p][0], Popped(m, h, p, size);
    PoolUnique(h.pages, p, b);
    forall q, c | 0 <= q < POOLS
      ensures c in h'.free[q] <==> c in h'.blocks && h'.blocks[c] == FreeBlock && InPool(h'.pages, q, c)
    {
      assert c in h.free[q] <==> c in h.blocks && h.blocks[c] == FreeBlock && InPool(h.pages, q, c);
    }
  }

  lemma PopLinked(m: Memory, m': Memory, h: Heap, p: nat, size: u32)
    requires ListsOk(m, h) && p < POOLS && h.free[p] != [] && SameHeaders(m, m', h, h.free[p][0])
    ensures ListsLinked(m', Popped(m, h, p, size))
  {
    hide ListAt, InPool, Word;
    var b, h' := h.free[p][0], Popped(m, h, p, size);
    ListPop(m, h.heads[p], h.free[p]);
    RestOfList(m, h.heads[p], h.free[p]);
    PoolUnique(h.pages, p, b);
    forall q | 0 <= q < POOLS ensures ListAt(m', h'.heads[q], h'.free[q]) {
      assert forall c :: c in h'.free[q] ==> c in h.free[q] && c in h.blocks && c != b;
      hide ListsMatch;
      ListKept(m, m', h'.heads[q], h'.free[q]);
    }
  }

  function Pushed(h: Heap, p: nat, b: u64): Heap
    requires p < POOLS && |h.free| == POOLS
  {
    h.(free := h.free[p := h.free[p] + [b]], blocks := h.blocks[b := FreeBlock])
  }

  /** Returning a block to the end of its pool's list. */
  lemma PushStep(m: Memory, m': Memory, addr: seq<u64>, h: Heap, p: nat, b: u64)
    requires Ok(m, addr, h) && p < POOLS && b in h.blocks && h.blocks[b].Live? && InPool(h.pages, p, b) && b != 0
    requires h.free[p] != [] && m' == m[h.free[p][|h.free[p]| - 1] := b][b := 0]
    ensures Ok(m', addr, Pushed(h, p, b))
  {
    hide InPool, ListAt, ListsOk, LiveOk, BigsOk, BlocksOk, PagesOk, Distinct, Occupies;
    ListsShape(m, h);
    var tail, h' := h.free[p][|h.free[p]| - 1], Pushed(h, p, b);
    LastIsFree(m, h, p);
    BlockOccupies(h, p, tail);
    BlockOccupies(h, p, b);
    WordsApart(m, addr, h, tail, BlockSize(p), tail);
    WordsApart(m, addr, h, b, BlockSize(p), b);
    BigIsNoBlock(m, addr, h, tail);
    BigIsNoBlock(m, addr, h, b);
    PushLists(m, m', h, p, b);
    PushHeaders(m, m', addr, h, p, b, tail);
    BlocksKept(h, h');
  }

  lemma LastIsFree(m: Memory, h: Heap, p: nat)
    requires ListsOk(m, h) && p < POOLS && h.free[p] != []
    ensures var b := h.free[p][|h.free[p]| - 1]; b in h.blocks && h.blocks[b] == FreeBlock && InPool(h.pages, p, b)
  {
    hide InPool, ListAt;
    assert h.free[p][|h.free[p]| - 1] in h.free[p];
  }

  lemma BlockOccupies(h: Heap, p: nat, b: nat)
    requires b in h.blocks && p < POOLS && InPool(h.pages, p, b)
    ensures Occupies(h, b, BlockSize(p))
  {
  }

  lemma PushHeaders(m: Memory, m': Memory, addr: seq<u64>, h: Heap, p: nat, b: u64, tail: u64)
    requires |addr| == POOLS && LiveOk(m, addr, h) && BigsOk(m, h) && |h.free| == POOLS && p < POOLS
    requires b in h.blocks && tail in h.blocks && h.blocks[tail] == FreeBlock && b !in h.bigs && tail !in h.bigs
    requires forall c :: (c in h.blocks || c in h.bigs) && c != b ==> b != c && b != c + 8
    requires forall c :: (c in h.blocks || c in h.bigs) && c != tail ==> tail != c && tail != c + 8
    requires m' == m[tail := b][b := 0]
    ensures LiveOk(m', addr, Pushed(h, p, b)) && BigsOk(m', Pushed(h, p, b))
  {
    hide InPool;
  }

  lemma PushMatch(h: Heap, p: nat, b: u64)
    requires |h.free| == POOLS && ListsMatch(h) && p < POOLS && b in h.blocks && h.blocks[b].Live? && InPool(h.pages, p, b)
    ensures ListsMatch(Pushed(h, p, b))
  {
    PoolUnique(h.pages, p, b);
    hide InPool;
    var h' := Pushed(h, p, b);
    forall q, c | 0 <= q < POOLS
      ensures c in h'.free[q] <==> c in h'.blocks && h'.blocks[c] == FreeBlock && InPool(h'.pages, q, c)
    {
      assert c in h.free[q] <==> c in h.blocks && h.blocks[c] == FreeBlock && InPool(h.pages, q, c);
    }
  }

  lemma PushLists(m: Memory, m': Memory, h: Heap, p: nat, b: u64)
    requires ListsOk(m, h) && p < POOLS && b in h.blocks && h.blocks[b].Live? && InPool(h.pages, p, b) && b != 0
    requires h.free[p] != [] && m' == m[h.free[p][|h.free[p]| - 1] := b][b := 0]
    ensures ListsOk(m', Pushed(h, p, b))
  {
    hide InPool, ListAt;
    PushMatch(h, p, b);
    var tail, h' := h.free[p][|h.free[p]| - 1], Pushed(h, p, b);
    assert tail in h.free[p] && InPool(h.pages, p, tail) && b !in h.free[p];
    ListPush(m, h.heads[p], h.free[p], b);
    PoolUnique(h.pages, p, b);
    PoolUnique(h.pages, p, tail);
    forall q | 0 <= q < POOLS ensures ListAt(m', h'.heads[q], h'.free[q]) {
      if q != p {
        assert forall c :: c in h.free[q] ==> InPool(h.pages, q, c) && c != tail && c != b;
        ListKept(m, m', h.heads[q], h.free[q]);
      }
    }
  }

  /** A block that is returned without reaching its list. */
  lemma LoseStep(m: Memory, addr: seq<u64>, h: Heap, b: nat)
    requires Ok(m, addr, h) && b in h.blocks && h.blocks[b].Live?
    ensures Ok(m, addr, h.(blocks := h.blocks[b := Lost]))
  {
    hide InPool, ListsLinked, BlocksOk, PagesOk, BigsOk;
    var h' := h.(blocks := h.blocks[b := Lost]);
    BlocksKept(h, h');
    LostLists(m, h, b);
    LostLive(m, addr, h, b);
    assert BigsOk(m, h') by { BigsSame(m, h, h'); }
    hide ListsMatch, LiveOk;
  }

  lemma LostLists(m: Memory, h: Heap, b: nat)
    requires ListsOk(m, h) && b in h.blocks && h.blocks[b].Live?
    ensures ListsOk(m, h.(blocks := h.blocks[b := Lost]))
  {
    hide InPool, ListAt;
  }

  lemma LostLive(m: Memory, addr: seq<u64>, h: Heap, b: nat)
    requires |addr| == POOLS && LiveOk(m, addr, h)
    ensures LiveOk(m, addr, h.(blocks := h.blocks[b := Lost]))
  {
    hide InPool, HeaderAt, PoolFor;
  }

  lemma BigsSame(m: Memory, h: Heap, h': Heap)
    requires BigsOk(m, h) && h'.pages == h.pages && h'.bigs == h.bigs
    ensures BigsOk(m, h')
  {
    hide HeaderAt, PoolFor, BigPages;
  }

  // ---------------------------------------------------------------- new pages

  /** The blocks of a page, in address order. */
  function Tiles(page: u64, size: nat): (r: seq<u64>)
    requires size in {64, 512, 2048} && page + PAGE < U64
    ensures |r| == PAGE / size
  {
    seq(PAGE / size, i requires 0 <= i < PAGE / size => TileAt(page, size, i))
  }

  function TileAt(page: u64, size: nat, i: nat): (a: u64)
    requires size in {64, 512, 2048} && page + PAGE < U64 && i < PAGE / size
    ensures a == page + size * i
  {
    if size == 64 then page + 64 * i else if size == 512 then page + 512 * i else page + 2048 * i
  }

  /** The tiles of a page are exactly the blocks in it; they are adjacent and fill it. */
  lemma TilesAreBlocks(page: u64, p: nat)
    requires Aligned(page) && p < POOLS && page + PAGE < U64
    ensures var t := Tiles(page, BlockSize(p));
            && Distinct(t) && t[0] == page && t[|t| - 1] + BlockSize(p) == page + PAGE
            && (forall i :: 0 < i < |t| ==> t[i] == t[i - 1] + BlockSize(p))
            && (forall b: nat :: b in t <==> PageOf(b) == page && b % BlockSize(p) == 0)
  {
    var n, t := BlockSize(p), Tiles(page, BlockSize(p));
    forall b: nat | b in t ensures PageOf(b) == page && b % n == 0 {
      var i :| 0 <= i < |t| && t[i] == b;
      TileIsBlock(page, p, i);
    }
    forall b: nat | PageOf(b) == page && b % n == 0 ensures b in t {
      var i := BlockIsTile(page, p, b);
      assert t[i] == b;
    }
  }

  lemma TileIsBlock(page: u64, p: nat, i: nat)
    requires Aligned(page) && p < POOLS && page + PAGE < U64 && i < PAGE / BlockSize(p)
    ensures var b := TileAt(page, BlockSize(p), i); PageOf(b) == page && b % BlockSize(p) == 0
  {
    var q := page / PAGE;
    PageOfIs(TileAt(page, BlockSize(p), i), page);
    if p == 0 {
      Tile64(q, i);
    } else if p == 1 {
      Tile512(q, i);
    } else {
      Tile2048(q, i);
    }
  }

  lemma TileAtWord(page: u64, size: nat, i: nat)
    requires size in {64, 512, 2048} && Aligned(page) && page + PAGE < U64 && i < PAGE / size
    ensures AtWord(TileAt(page, size, i))
  {
    hide AtWord, Aligned;
    if size == 64 {
      PageWord(page, 8 * i);
    } else if size == 512 {
      PageWord(page, 64 * i);
    } else {
      PageWord(page, 256 * i);
    }
  }

  lemma TileNext(page: u64, size: nat, i: nat)
    requires size in {64, 512, 2048} && page + PAGE < U64 && i < PAGE / size
    ensures if i + 1 < PAGE / size then TileAt(page, size, i + 1) == TileAt(page, size, i) + size
            else TileAt(page, size, i) + size == page + PAGE
  {
  }

  /** The first `k` blocks of a page are linked in address order. */
  ghost predicate Linked(m: Memory, page: u64, size: nat, k: nat)
    requires size in {64, 512, 2048} && page + PAGE < U64 && k <= PAGE / size
  {
    forall i :: 0 < i < k ==> Word(m, TileAt(page, size, i - 1)) == TileAt(page, size, i)
  }

  lemma LinkNext(m: Memory, page: u64, size: nat, k: nat)
    requires size in {64, 512, 2048} && page + PAGE < U64 && 0 < k < PAGE / size
    requires Linked(m, page, size, k)
    ensures Linked(m[TileAt(page, size, k - 1) := TileAt(page, size, k)], page, size, k + 1)
    ensures TileAt(page, size, k - 1) + size < page + PAGE
  {
  }

  /** Linking the blocks of a page never writes the link of its last block. So the result is a
      null-terminated list if and only if that word was zero in the frame behind the page. */
  lemma LinkedIsListIff(m: Memory, page: u64, p: nat)
    requires p < POOLS && Aligned(page) && BASE <= page && page + PAGE < U64
    requires Linked(m, page, BlockSize(p), PAGE / BlockSize(p))
    ensures ListAt(m, page, Tiles(page, BlockSize(p))) <==> Word(m, page + PAGE - BlockSize(p)) == 0
  {
    TilesAreBlocks(page, p);
    var t := Tiles(page, BlockSize(p));
    assert forall i :: 0 <= i < |t| ==> t[i] == TileAt(page, BlockSize(p), i);
    forall i | 0 <= i < |t| - 1 ensures Word(m, t[i]) == t[i + 1] {
      assert Word(m, TileAt(page, BlockSize(p), i + 1 - 1)) == TileAt(page, BlockSize(p), i + 1);
    }
  }

  /** A page of two linked blocks, in a frame whose last link word held 77: no list. */
  lemma StaleLinkIsNoList()
    ensures var m: Memory := map[0x4000_1000 := 0x4000_1800, 0x4000_1800 := 77];
            && Linked(m, 0x4000_1000, 2048, 2)
            && !ListAt(m, 0x4000_1000, Tiles(0x4000_1000, 2048))
  {
    var m: Memory := map[0x4000_1000 := 0x4000_1800, 0x4000_1800 := 77];
    LinkedIsListIff(m, 0x4000_1000, 2);
  }

  lemma Tile64(q: nat, i: nat)
    ensures (PAGE * q + 64 * i) % 64 == 0
  {
    assert PAGE * q + 64 * i == 64 * (64 * q + i);
  }

  lemma Tile512(q: nat, i: nat)
    ensures (PAGE * q + 512 * i) % 512 == 0
  {
    assert PAGE * q + 512 * i == 512 * (8 * q + i);
  }

  lemma Tile2048(q: nat, i: nat)
    ensures (PAGE * q + 2048 * i) % 2048 == 0
  {
    assert PAGE * q + 2048 * i == 2048 * (2 * q + i);
  }

  lemma BlockIsTile(page: u64, p: nat, b: nat) returns (i: nat)
    requires Aligned(page) && p < POOLS && page + PAGE < U64 && PageOf(b) == page && b % BlockSize(p) == 0
    ensures i < PAGE / BlockSize(p) && b == TileAt(page, BlockSize(p), i)
  {
    var q := page / PAGE;
    if p == 0 {
      i := b / 64 - 64 * q;
    } else if p == 1 {
      i := b / 512 - 8 * q;
    } else {
      i := b / 2048 - 2 * q;
    }
  }

  lemma PageOfIs(b: nat, page: nat)
    requires Aligned(page) && page <= b < page + PAGE
    ensures PageOf(b) == page
  {
  }

  function Refilled(h: Heap, p: nat, page: u64): Heap
    requires p < POOLS && |h.heads| == POOLS && |h.free| == POOLS && page + PAGE < U64
  {
    var tiles := Tiles(page, BlockSize(p));
    h.(heads := h.heads[p := page], free := h.free[p := tiles], pages := h.pages[page := PoolPage(p)],
       blocks := h.blocks + map b | b in tiles :: FreeBlock)
  }

  /** A refilled pool in numbers: its list is the 64 blocks of 64 bytes, the 8 of 512 or the 2 of 2048 of
      the page, one behind the other; all of them are free, and no other block, list or page changes. */
  ghost predicate CutsPage(h: Heap, p: nat, page: nat, h': Heap) {
    && p < 3 && |h.free| == 3 && |h'.free| == 3 && |h'.heads| == 3 && h'.heads[p] == page
    && var size, count := if p == 0 then 64 else if p == 1 then 512 else 2048, if p == 0 then 64 else if p == 1 then 8 else 2;
       && |h'.free[p]| == count && (forall i :: 0 <= i < count ==> h'.free[p][i] == page + size * i)
       && (forall q :: 0 <= q < 3 && q != p ==> h'.free[q] == h.free[q])
       && (forall b: nat :: b in h'.blocks <==> b in h.blocks || b in h'.free[p])
       && (forall b: nat :: b in h'.free[p] ==> h'.blocks[b] == FreeBlock)
       && (forall b: nat :: b in h.blocks && b !in h'.free[p] ==> h'.blocks[b] == h.blocks[b])
       && h'.bigs == h.bigs && h'.pages == h.pages[page := PoolPage(p)]
  }

  lemma RefilledCuts(h: Heap, p: nat, page: u64)
    requires p < POOLS && |h.heads| == POOLS && |h.free| == POOLS && page + PAGE < U64
    ensures CutsPage(h, p, page, Refilled(h, p, page))
  {
    var tiles := Tiles(page, BlockSize(p));
    assert |tiles| == if p == 0 then 64 else if p == 1 then 8 else 2;
    assert forall i :: 0 <= i < |tiles| ==> tiles[i] == TileAt(page, BlockSize(p), i);
    hide Tiles;
  }

  /** Where a request is placed, in numbers: at a multiple of 64, 512 or 2048 in a page of that pool, or at
      the start of pages of its own; the address given out is 12 above. */
  ghost predicate Placed(h: Heap, size: u32, address: nat) {
    && 12 <= address
    && var n, b := (size + 12) % 0x1_0000_0000, address - 12;
       if 2048 < n then b in h.bigs && h.bigs[b] == size && b % 4096 == 0 && b !in h.blocks
       else
         && b in h.blocks && h.blocks[b] == Live(size) && b - b % 4096 in h.pages
         && (if n <= 64 then h.pages[b - b % 4096] == PoolPage(0) && b % 64 == 0
             else if n <= 512 then h.pages[b - b % 4096] == PoolPage(1) && b % 512 == 0
             else h.pages[b - b % 4096] == PoolPage(2) && b % 2048 == 0)
  }

  lemma LiveIsPlaced(m: Memory, addr: seq<u64>, h: Heap, a: nat, size: u32)
    requires Ok(m, addr, h) && IsLive(h, a, size)
    ensures Placed(h, size, a + 12)
  {
    hide ListsLinked, ListsMatch, HeaderAt;
    PoolForIs(size);
    if a in h.blocks && h.blocks[a] == Live(size) {
      var p :| 0 <= p < POOLS && InPool(h.pages, p, a);
      assert PoolFor(size) == p;
      hide PoolFor, Required;
    } else {
      assert BigOk(m, h, a);
      hide PoolFor, Required;
      if a in h.blocks { BigIsNoBlock(m, addr, h, a); }
    }
  }

  /** The two memories agree outside one page, and no word is gone. */
  ghost predicate AgreeOutside(m: Memory, m': Memory, page: nat) {
    && m.Keys <= m'.Keys
    && forall a: nat :: a < page || page + PAGE <= a ==> Word(m', a) == Word(m, a)
  }

  /** A page that the heap was not handed yet holds no header. */
  lemma NewPageKeepsHeaders(m: Memory, m': Memory, addr: seq<u64>, h: Heap, page: nat)
    requires Ok(m, addr, h) && Aligned(page) && page !in h.pages && AgreeOutside(m, m', page)
    ensures SameHeaders(m, m', h, page) && page !in h.blocks && page !in h.bigs
  {
    forall c | c in h.blocks || c in h.bigs
      ensures c != page && Word(m', c) == Word(m, c) && Word(m', c + 8) == Word(m, c + 8)
    {
      PageOfOrder(c, c);
      if c in h.blocks {
        var p :| 0 <= p < POOLS && InPool(h.pages, p, c);
        BlockInPage(c, p);
      } else {
        BigOwns(m, h, c, c);
      }
      hide Ok;
      assert PageOf(c) != page && c + 16 <= PageOf(c) + PAGE;
      if page < PageOf(c) { AlignedGap(page, PageOf(c)); } else { AlignedGap(PageOf(c), page); }
    }
  }

  lemma PoolAfterRefill(h: Heap, p: nat, page: u64)
    requires p < POOLS && |h.heads| == POOLS && |h.free| == POOLS && page + PAGE < U64 && page !in h.pages
    ensures var h' := Refilled(h, p, page);
            forall q, b: nat :: 0 <= q < POOLS ==>
              (InPool(h'.pages, q, b) <==> InPool(h.pages, q, b) || (q == p && PageOf(b) == page && b % BlockSize(p) == 0))
  {
  }

  lemma RefillMember(h: Heap, p: nat, page: u64, q: nat, b: nat)
    requires |h.heads| == POOLS && |h.free| == POOLS && ListsMatch(h) && p < POOLS && q < POOLS && h.free[p] == []
    requires Aligned(page) && page + PAGE < U64 && page !in h.pages
    requires b in h.blocks ==> PageOf(b) != page
    ensures var h' := Refilled(h, p, page);
            b in h'.free[q] <==> b in h'.blocks && h'.blocks[b] == FreeBlock && InPool(h'.pages, q, b)
  {
    hide InPool, Tiles, PageOf, Distinct;
    TilesAreBlocks(page, p);
    PoolAfterRefill(h, p, page);
    var h', tiles := Refilled(h, p, page), Tiles(page, BlockSize(p));
    assert b in h'.blocks <==> b in h.blocks || b in tiles;
    assert b in tiles <==> PageOf(b) == page && b % BlockSize(p) == 0;
    PoolPageOf(h.pages, q, b);
    hide BlockSize;
    assert h'.free[q] == if q == p then tiles else h.free[q];
    assert b in h.free[q] <==> b in h.blocks && h.blocks[b] == FreeBlock && InPool(h.pages, q, b);
  }

  lemma PoolPageOf(pages: map<nat, PageUse>, q: nat, b: nat)
    requires q < POOLS
    ensures InPool(pages, q, b) ==> PageOf(b) in pages
  {
  }

  lemma RefillLists(m: Memory, m': Memory, h: Heap, p: nat, page: u64)
    requires ListsOk(m, h) && p < POOLS && h.free[p] == [] && SameHeaders(m, m', h, page)
    requires Aligned(page) && page + PAGE < U64 && page !in h.pages && page !in h.blocks
    requires ListAt(m', page, Tiles(page, BlockSize(p)))
    requires forall b :: b in h.blocks ==> PageOf(b) != page
    ensures ListsOk(m', Refilled(h, p, page))
  {
    hide InPool, PageOf, Tiles, ListAt, Word;
    var h' := Refilled(h, p, page);
    RefillMatch(h, p, page);
    forall q | 0 <= q < POOLS ensures ListAt(m', h'.heads[q], h'.free[q]) {
      if q != p {
        assert forall c :: c in h.free[q] ==> c in h.blocks && c != page;
        hide ListsMatch;
        ListKept(m, m', h.heads[q], h.free[q]);
      }
    }
  }

  lemma RefillMatch(h: Heap, p: nat, page: u64)
    requires |h.heads| == POOLS && |h.free| == POOLS && ListsMatch(h) && p < POOLS && h.free[p] == []
    requires Aligned(page) && page + PAGE < U64 && page !in h.pages
    requires forall b :: b in h.blocks ==> PageOf(b) != page
    ensures ListsMatch(Refilled(h, p, page))
  {
    hide InPool, PageOf, Tiles, Refilled;
    var h' := Refilled(h, p, page);
    assert |h'.free| == POOLS by { RefilledShape(h, p, page); }
    forall q, b | 0 <= q < POOLS
      ensures b in h'.free[q] <==> b in h'.blocks && h'.blocks[b] == FreeBlock && InPool(h'.pages, q, b)
    {
      RefillMember(h, p, page, q, b);
    }
  }

  lemma RefilledShape(h: Heap, p: nat, page: u64)
    requires p < POOLS && |h.heads| == POOLS && |h.free| == POOLS && page + PAGE < U64
    ensures var h' := Refilled(h, p, page); |h'.free| == POOLS && |h'.heads| == POOLS && h'.free[p] != []
  {
    hide Tiles;
  }

  lemma RefillBlocks(m: Memory, addr: seq<u64>, h: Heap, p: nat, page: u64)
    requires Ok(m, addr, h) && p < POOLS && Aligned(page) && page + PAGE < U64 && page !in h.pages
    ensures BlocksOk(Refilled(h, p, page)) && forall b :: b in h.blocks ==> PageOf(b) != page
  {
    hide ListsLinked, ListsMatch, LiveOk, BigsOk, PagesOk, InPool, Tiles, PageOf, Distinct, Aligned;
    TilesAreBlocks(page, p);
    PoolAfterRefill(h, p, page);
    var h', tiles := Refilled(h, p, page), Tiles(page, BlockSize(p));
    assert forall b: nat :: b in tiles <==> PageOf(b) == page && b % BlockSize(p) == 0;
    hide BlockSize;
    forall b | b in h.blocks ensures PageOf(b) != page {
      var q :| 0 <= q < POOLS && InPool(h.pages, q, b);
      PoolPageOf(h.pages, q, b);
    }
    forall b: nat ensures b in h'.blocks <==> exists q :: 0 <= q < POOLS && InPool(h'.pages, q, b) {
      if b in h.blocks {
        var q :| 0 <= q < POOLS && InPool(h.pages, q, b);
        assert InPool(h'.pages, q, b);
      } else if b in tiles {
        assert InPool(h'.pages, p, b);
      }
      if q :| 0 <= q < POOLS && InPool(h'.pages, q, b) {
        assert b in h.blocks || b in tiles;
      }
    }
  }

  /** Cutting a new page into the blocks of an empty pool. */
  lemma RefillStep(m: Memory, m': Memory, addr: seq<u64>, h: Heap, p: nat, page: u64)
    requires Ok(m, addr, h) && p < POOLS && h.free[p] == []
    requires Aligned(page) && BASE <= page && page + PAGE < U64 && page !in h.pages
    requires AgreeOutside(m, m', page) && ListAt(m', page, Tiles(page, BlockSize(p)))
    ensures Ok(m', addr, Refilled(h, p, page))
  {
    hide ListAt, Tiles, AgreeOutside, SameHeaders, InPool, PageOf, LiveOk, BigsOk, BlocksOk;
    NewPageKeepsHeaders(m, m', addr, h, page);
    RefillBlocks(m, addr, h, p, page);
    RefillLists(m, m', h, p, page);
    RefillHeaders(m, m', addr, h, p, page);
    hide ListsOk;
  }

  lemma RefillHeaders(m: Memory, m': Memory, addr: seq<u64>, h: Heap, p: nat, page: u64)
    requires |addr| == POOLS && LiveOk(m, addr, h) && BigsOk(m, h) && SameHeaders(m, m', h, page)
    requires p < POOLS && |h.heads| == POOLS && |h.free| == POOLS && page + PAGE < U64
    requires page !in h.pages && page !in h.blocks && page !in h.bigs
    requires forall b :: b in h.blocks ==> PageOf(b) != page
    ensures LiveOk(m', addr, Refilled(h, p, page)) && BigsOk(m', Refilled(h, p, page))
  {
    RefillKeeps(h, p, page);
    var h' := Refilled(h, p, page);
    hide Refilled, InPool;
    RefillLive(m, m', addr, h, h', page);
    assert BigsOk(m', h');
  }

  /** What refilling a pool leaves as it was. */
  lemma RefillKeeps(h: Heap, p: nat, page: u64)
    requires p < POOLS && |h.heads| == POOLS && |h.free| == POOLS && page + PAGE < U64
    requires page !in h.pages && forall b :: b in h.blocks ==> PageOf(b) != page
    ensures var h' := Refilled(h, p, page);
            && (forall b :: b in h'.blocks && h'.blocks[b].Live? ==> b in h.blocks && h'.blocks[b] == h.blocks[b])
            && (forall g :: g in h.pages ==> g in h'.pages && h'.pages[g] == h.pages[g])
            && (forall q, b: nat :: 0 <= q < POOLS && b in h.blocks && InPool(h'.pages, q, b) ==> InPool(h.pages, q, b))
            && h'.bigs == h.bigs
  {
    hide Tiles;
  }

  lemma RefillLive(m: Memory, m': Memory, addr: seq<u64>, h: Heap, h': Heap, page: u64)
    requires |addr| == POOLS && LiveOk(m, addr, h) && SameHeaders(m, m', h, page) && page !in h.blocks
    requires forall b :: b in h'.blocks && h'.blocks[b].Live? ==> b in h.blocks && h'.blocks[b] == h.blocks[b]
    requires forall q, b: nat :: 0 <= q < POOLS && b in h.blocks && InPool(h'.pages, q, b) ==> InPool(h.pages, q, b)
    ensures LiveOk(m', addr, h')
  {
    hide InPool, PoolFor;
  }

  // ---------------------------------------------------------------- big allocations

  function Enlarged(h: Heap, start: u64, size: u32): Heap {
    h.(pages := h.pages + map g | start <= g < start + PAGE * BigPages(size) && Aligned(g) :: BigPage(start),
       bigs := h.bigs[start := size])
  }

  /** Setting aside consecutive new pages and writing the header into the first. */
  lemma BigStep(m: Memory, m': Memory, addr: seq<u64>, h: Heap, start: u64, size: u32)
    requires Ok(m, addr, h) && Aligned(start) && BASE <= start
    requires forall g :: g in h.pages ==> g < start
    requires AgreeOutside(m, m', start) && HeaderAt(m', start, 0, size) && PoolFor(size) == POOLS
    ensures Ok(m', addr, Enlarged(h, start, size))
  {
    hide AgreeOutside, SameHeaders, InPool, ListsOk, LiveOk, BigsOk, BlocksOk, HeaderAt;
    NewPageKeepsHeaders(m, m', addr, h, start);
    EnlargedPools(h, start, size);
    var h' := Enlarged(h, start, size);
    ListsCarry(m, m', h, h', start);
    BlocksCarry(h, h');
    LiveCarry(m, m', addr, h, h', start);
    BigAdded(m, m', h, start, size);
  }

  lemma EnlargedPools(h: Heap, start: u64, size: u32)
    requires forall g :: g in h.pages ==> g < start
    ensures var h' := Enlarged(h, start, size);
            forall p, b: nat :: 0 <= p < POOLS ==> (InPool(h'.pages, p, b) <==> InPool(h.pages, p, b))
  {
  }

  lemma LiveCarry(m: Memory, m': Memory, addr: seq<u64>, h: Heap, h': Heap, a: nat)
    requires |addr| == POOLS && LiveOk(m, addr, h) && SameHeaders(m, m', h, a) && a !in h.blocks
    requires h'.blocks == h.blocks
    requires forall p, b: nat :: 0 <= p < POOLS ==> (InPool(h'.pages, p, b) <==> InPool(h.pages, p, b))
    ensures LiveOk(m', addr, h')
  {
    hide InPool;
  }

  lemma BigAdded(m: Memory, m': Memory, h: Heap, start: u64, size: u32)
    requires BigsOk(m, h) && SameHeaders(m, m', h, start) && start !in h.bigs
    requires (forall g :: g in h.pages ==> g < start) && HeaderAt(m', start, 0, size) && PoolFor(size) == POOLS
    ensures BigsOk(m', Enlarged(h, start, size))
  {
    hide BigOk, SameHeaders, HeaderAt, PoolFor, Enlarged;
    var h' := Enlarged(h, start, size);
    EnlargedAt(h, start, size, 0);
    forall s | s in h'.bigs ensures BigOk(m', h', s) {
      BigAddedOne(m, m', h, start, size, s);
    }
  }

  lemma BigAddedOne(m: Memory, m': Memory, h: Heap, start: u64, size: u32, s: nat)
    requires (s in h.bigs && BigOk(m, h, s)) || s == start
    requires SameHeaders(m, m', h, start) && start !in h.bigs
    requires (forall g :: g in h.pages ==> g < start) && HeaderAt(m', start, 0, size) && PoolFor(size) == POOLS
    ensures s in Enlarged(h, start, size).bigs && BigOk(m', Enlarged(h, start, size), s)
  {
    hide PoolFor, BigPages, HeaderAt, SameHeaders, Aligned, Enlarged;
    var h' := Enlarged(h, start, size);
    EnlargedAt(h, start, size, 0);
    if s != start { HeaderSame(m, m', h, start, s, 0, h.bigs[s]); }
    forall g: nat | Aligned(g) && s <= g < s + PAGE * BigPages(h'.bigs[s])
      ensures g in h'.pages && h'.pages[g] == BigPage(s)
    {
      EnlargedAt(h, start, size, g);
    }
  }

  lemma EnlargedAt(h: Heap, start: u64, size: u32, g: nat)
    ensures var h' := Enlarged(h, start, size);
            && h'.bigs == h.bigs[start := size]
            && (Aligned(g) && start <= g < start + PAGE * BigPages(size) ==> g in h'.pages && h'.pages[g] == BigPage(start))
            && (g in h.pages && g < start ==> g in h'.pages && h'.pages[g] == h.pages[g])
  {
    hide BigPages, Aligned;
  }

  lemma HeaderSame(m: Memory, m': Memory, h: Heap, a: nat, c: nat, pool: u64, size: u32)
    requires SameHeaders(m, m', h, a) && (c in h.blocks || c in h.bigs) && c != a && HeaderAt(m, c, pool, size)
    ensures HeaderAt(m', c, pool, size)
  {
  }

  function GaveUp(h: Heap, start: nat): Heap {
    h.(bigs := h.bigs - {start})
  }

  /** Giving up a big allocation; its pages are never used again. */
  lemma BigFreeStep(m: Memory, m': Memory, addr: seq<u64>, h: Heap, start: nat)
    requires Ok(m, addr, h) && start in h.bigs && SameHeaders(m, m', h, start)
    ensures Ok(m', addr, GaveUp(h, start))
  {
    var h' := GaveUp(h, start);
    assert start !in h.blocks by { if start in h.blocks { BigIsNoBlock(m, addr, h, start); } }
    BigRemoved(m, m', h, start);
    hide InPool, ListsOk, LiveOk, BigsOk, BlocksOk, SameHeaders;
    ListsCarry(m, m', h, h', start);
    BlocksCarry(h, h');
    LiveCarry(m, m', addr, h, h', start);
  }

  lemma BigRemoved(m: Memory, m': Memory, h: Heap, start: nat)
    requires BigsOk(m, h) && start in h.bigs && SameHeaders(m, m', h, start)
    ensures BigsOk(m', GaveUp(h, start))
  {
  }

  // ---------------------------------------------------------------- what holds of every heap

  /** The partition: each block of each pool's pages is in exactly one state, and stands on its own
      pool's list, once, exactly when it is free. */
  lemma BlocksArePartitioned(m: Memory, addr: seq<u64>, h: Heap, p: nat, b: nat)
    requires Ok(m, addr, h) && p < POOLS && InPool(h.pages, p, b)
    ensures b in h.blocks && (h.blocks[b] == FreeBlock <==> b in h.free[p])
    ensures forall q :: 0 <= q < POOLS && b in h.free[q] ==> q == p
    ensures forall i, j :: 0 <= i < |h.free[p]| && 0 <= j < |h.free[p]| && h.free[p][i] == b && h.free[p][j] == b ==> i == j
  {
    PoolUnique(h.pages, p, b);
    hide InPool, LiveOk, BigsOk;
    assert ListAt(m, h.heads[p], h.free[p]);
  }

  /** The bytes that a caller may use: behind the header, as many as were asked for. */
  predicate InPayload(a: nat, size: u32, x: nat) {
    a + HEADER <= x < a + HEADER + size
  }

  ghost predicate IsLive(h: Heap, a: nat, size: u32) {
    (a in h.blocks && h.blocks[a] == Live(size)) || (a in h.bigs && h.bigs[a] == size)
  }

  /** A live allocation takes up what its size was granted. */
  lemma LiveOccupies(m: Memory, addr: seq<u64>, h: Heap, a: nat, size: u32)
    requires Ok(m, addr, h) && IsLive(h, a, size)
    ensures Occupies(h, a, Granted(size))
  {
    if a in h.blocks && h.blocks[a] == Live(size) {
      var p :| 0 <= p < POOLS && InPool(h.pages, p, a);
      assert HeaderAt(m, a, addr[p], size);
    }
  }

  /** No byte belongs to two live allocations, of whatever sizes and pools. */
  lemma LivePayloadsApart(m: Memory, addr: seq<u64>, h: Heap, a: nat, size: u32, c: nat, size': u32, x: nat)
    requires Ok(m, addr, h) && IsLive(h, a, size) && IsLive(h, c, size') && a != c
    requires size + HEADER < INT_END && size' + HEADER < INT_END
    requires InPayload(a, size, x)
    ensures !InPayload(c, size', x)
  {
    hide Ok, IsLive, Occupies, Granted;
    LiveOccupies(m, addr, h, a, size);
    LiveOccupies(m, addr, h, c, size');
    GrantSufficesIff(size);
    GrantSufficesIff(size');
    ExtentsApart(m, addr, h, a, Granted(size), c, Granted(size'));
  }

  // ---------------------------------------------------------------- what a call leaves to all other callers

  /** The live allocations afterwards are those before and one new one, at an address that was free. */
  ghost predicate GainsLive(h: Heap, h': Heap, a: nat, size: u32) {
    NotLive(h, a) && forall c: nat, n: u32 :: IsLive(h', c, n) <==> IsLive(h, c, n) || (c == a && n == size)
  }

  /** The live allocations afterwards are those before except the one at `a`. */
  ghost predicate LosesLive(h: Heap, h': Heap, a: nat) {
    forall c: nat, n: u32 :: IsLive(h', c, n) <==> IsLive(h, c, n) && c != a
  }

  ghost predicate SameLive(h: Heap, h': Heap) {
    forall c: nat, n: u32 :: IsLive(h', c, n) <==> IsLive(h, c, n)
  }

  ghost predicate NotLive(h: Heap, a: nat) {
    forall n: u32 :: !IsLive(h, a, n)
  }

  /** All live allocations but those in `except` are live afterwards, with the same sizes. */
  ghost predicate LivesOn(h: Heap, h': Heap, except: set<nat>) {
    forall c: nat, n: u32 :: IsLive(h, c, n) && c !in except ==> IsLive(h', c, n)
  }

  /** Every word of the live allocations but those in `except` that was backed by a frame still is,
      and reads the same. */
  ghost predicate Intact(m: Memory, m': Memory, h: Heap, except: set<nat>) {
    forall c: nat, size: u32, x: nat :: IsLive(h, c, size) && c !in except && c <= x < c + Granted(size) && x in m ==>
      x in m' && m'[x] == m[x]
  }

  function Only(a: nat): set<nat> {
    {a}
  }

  lemma IntactThen(m: Memory, m1: Memory, m2: Memory, h: Heap, h1: Heap, except: set<nat>)
    requires Intact(m, m1, h, except) && LivesOn(h, h1, except) && Intact(m1, m2, h1, except)
    ensures Intact(m, m2, h, except)
  {
    hide IsLive, Granted;
    forall c: nat, size: u32, x: nat | IsLive(h, c, size) && c !in except && c <= x < c + Granted(size) && x in m
      ensures x in m2 && m2[x] == m[x]
    {
      assert x in m1 && m1[x] == m[x];
      assert IsLive(h1, c, size);
    }
  }

  lemma IntactMore(m: Memory, m': Memory, h: Heap, except: set<nat>, more: set<nat>)
    requires Intact(m, m', h, except) && except <= more
    ensures Intact(m, m', h, more)
  {
    hide IsLive, Granted;
  }

  lemma GainAfterSame(h: Heap, h1: Heap, h2: Heap, a: nat, size: u32)
    requires SameLive(h, h1) && GainsLive(h1, h2, a, size)
    ensures GainsLive(h, h2, a, size)
  {
    hide IsLive;
  }

  lemma SameLivesOn(h: Heap, h': Heap)
    requires SameLive(h, h')
    ensures LivesOn(h, h', {})
  {
    hide IsLive;
  }

  /** Writes inside one extent leave the allocations elsewhere intact. */
  lemma IntactOutside(m0: Memory, addr: seq<u64>, h: Heap, m: Memory, m': Memory, a: nat, n: nat, except: set<nat>)
    requires Ok(m0, addr, h) && Occupies(h, a, n) && (a in except || NotLive(h, a))
    requires forall x :: x in m && !(a <= x < a + n) ==> x in m' && m'[x] == m[x]
    ensures Intact(m, m', h, except)
  {
    hide Ok, IsLive, Occupies, Granted;
    forall c: nat, size: u32, x: nat | IsLive(h, c, size) && c !in except && c <= x < c + Granted(size) && x in m
      ensures x in m' && m'[x] == m[x]
    {
      LiveOccupies(m0, addr, h, c, size);
      ExtentsApart(m0, addr, h, c, Granted(size), a, n);
    }
  }

  /** The page of every word of an extent is a page of the heap. */
  lemma ExtentInPages(m: Memory, addr: seq<u64>, h: Heap, c: nat, n: nat, x: nat)
    requires Ok(m, addr, h) && Occupies(h, c, n) && c <= x < c + n
    ensures PageOf(x) in h.pages && Aligned(PageOf(x)) && PageOf(x) <= x < PageOf(x) + PAGE
    ensures h.pages[PageOf(x)].BigPage? ==> h.pages[PageOf(x)].start == c
  {
    PageOfOrder(c, x);
    PageOfOrder(x, x);
    hide ListsOk, LiveOk, BigsOk, PageOf, InPool, BigPages, Aligned;
    if c in h.bigs && n == PAGE * BigPages(h.bigs[c]) {
      assert Aligned(c);
      BigOwns(m, h, c, PageOf(x));
    } else {
      var p :| 0 <= p < POOLS && InPool(h.pages, p, c) && n == BlockSize(p);
      BlockWordInPage(h.pages, c, p, x);
    }
  }

  lemma BlockWordInPage(pages: map<nat, PageUse>, c: nat, p: nat, x: nat)
    requires p < POOLS && InPool(pages, p, c) && c <= x < c + BlockSize(p)
    ensures PageOf(x) in pages && pages[PageOf(x)] == PoolPage(p)
  {
    BlockInPage(c, p);
    PageOfIs(x, PageOf(c));
  }

  lemma IntactNewPage(m: Memory, m': Memory, addr: seq<u64>, h: Heap, page: nat)
    requires Ok(m, addr, h) && Aligned(page) && page !in h.pages && AgreeOutside(m, m', page)
    ensures Intact(m, m', h, {})
  {
    hide Ok, IsLive, Occupies, Granted, PageOf;
    forall c: nat, size: u32, x: nat | IsLive(h, c, size) && c <= x < c + Granted(size) && x in m
      ensures x in m' && m'[x] == m[x]
    {
      LiveOccupies(m, addr, h, c, size);
      ExtentInPages(m, addr, h, c, Granted(size), x);
      if page < PageOf(x) { AlignedGap(page, PageOf(x)); }
      if PageOf(x) < page { AlignedGap(PageOf(x), page); }
      assert Word(m', x) == Word(m, x);
    }
  }

  lemma FreeIsNotLive(m: Memory, addr: seq<u64>, h: Heap, p: nat, b: nat)
    requires Ok(m, addr, h) && p < POOLS && b in h.free[p]
    ensures NotLive(h, b) && b in h.blocks && InPool(h.pages, p, b) && Occupies(h, b, BlockSize(p))
  {
    hide InPool, ListAt, LiveOk, BigsOk, PagesOk;
    BigIsNoBlock(m, addr, h, b);
  }

  /** Taking a block leaves every live allocation intact. */
  lemma PopSpares(m: Memory, addr: seq<u64>, h: Heap, p: nat, size: u32, m': Memory)
    requires Ok(m, addr, h) && p < POOLS && h.free[p] != []
    requires var b: nat := h.free[p][0];
             forall x: nat :: x in m && x != b && x != b + 8 ==> x in m' && m'[x] == m[x]
    ensures GainsLive(h, Popped(m, h, p, size), h.free[p][0], size) && Intact(m, m', h, {})
  {
    hide ListsLinked, ListsMatch, LiveOk, BigsOk, BlocksOk, PagesOk, InPool, Occupies, Intact, GainsLive, Distinct;
    var b := h.free[p][0];
    FreeIsNotLive(m, addr, h, p, b);
    IntactOutside(m, addr, h, m, m', b, BlockSize(p), {});
    PopGains(m, h, p, size);
  }

  lemma PopGains(m: Memory, h: Heap, p: nat, size: u32)
    requires p < POOLS && |h.heads| == POOLS && |h.free| == POOLS && h.free[p] != [] && NotLive(h, h.free[p][0])
    ensures GainsLive(h, Popped(m, h, p, size), h.free[p][0], size)
  {
    hide Word;
  }

  /** Returning a block leaves every other live allocation intact. */
  lemma PushSpares(m: Memory, addr: seq<u64>, h: Heap, p: nat, b: u64)
    requires Ok(m, addr, h) && p < POOLS && b in h.blocks && h.blocks[b].Live? && InPool(h.pages, p, b) && h.free[p] != []
    ensures var tail := h.free[p][|h.free[p]| - 1];
            LosesLive(h, Pushed(h, p, b), b) && Intact(m, m[tail := b][b := 0], h, Only(b))
  {
    var tail := h.free[p][|h.free[p]| - 1];
    var m1 := m[tail := b];
    FreeIsNotLive(m, addr, h, p, tail);
    BigIsNoBlock(m, addr, h, b);
    assert LosesLive(h, Pushed(h, p, b), b) by { hide Ok, InPool; }
    assert Occupies(h, b, BlockSize(p));
    hide Ok, InPool, Occupies, IsLive, LosesLive;
    IntactOutside(m, addr, h, m, m1, tail, BlockSize(p), Only(b));
    IntactOutside(m, addr, h, m1, m1[b := 0], b, BlockSize(p), Only(b));
    assert LivesOn(h, h, Only(b));
    IntactThen(m, m1, m1[b := 0], h, h, Only(b));
  }

  lemma BigFreeSpares(h: Heap, start: nat)
    requires start !in h.blocks
    ensures LosesLive(h, GaveUp(h, start), start)
  {
  }

  lemma LoseSpares(m: Memory, h: Heap, b: nat)
    requires b !in h.bigs
    ensures LosesLive(h, h.(blocks := h.blocks[b := Lost]), b) && Intact(m, m, h, Only(b))
  {
  }

  /** Refilling a pool leaves every live allocation intact. */
  lemma RefillSpares(m: Memory, m': Memory, addr: seq<u64>, h: Heap, p: nat, page: u64)
    requires Ok(m, addr, h) && p < POOLS && Aligned(page) && page + PAGE < U64 && page !in h.pages
    requires AgreeOutside(m, m', page)
    ensures SameLive(h, Refilled(h, p, page)) && Intact(m, m', h, {})
  {
    IntactNewPage(m, m', addr, h, page);
    RefillBlocks(m, addr, h, p, page);
    TilesAreBlocks(page, p);
    hide Ok, Tiles, PageOf, AgreeOutside, Intact;
  }

  lemma EnlargedGains(h: Heap, start: u64, size: u32)
    requires start !in h.blocks && start !in h.bigs
    ensures GainsLive(h, Enlarged(h, start, size), start, size)
  {
    hide BigPages;
  }

  /** So does setting aside whole pages. */
  lemma BigSpares(m: Memory, m': Memory, addr: seq<u64>, h: Heap, start: u64, size: u32)
    requires Ok(m, addr, h) && Aligned(start) && AgreeOutside(m, m', start)
    requires forall g :: g in h.pages ==> g < start
    ensures GainsLive(h, Enlarged(h, start, size), start, size) && Intact(m, m', h, {})
  {
    NewPageKeepsHeaders(m, m', addr, h, start);
    IntactNewPage(m, m', addr, h, start);
    hide Ok, AgreeOutside, Intact, SameHeaders;
    EnlargedGains(h, start, size);
  }
}
