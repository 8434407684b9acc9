/** What a caller sees of several heap calls in a row. */
module AllocatorRuns {
  import opened Words
  import opened PageNumbers
  import opened PageTree
  import opened Paging
  import opened HeapModel
  import opened Allocator

  /** The pools rotate: a freed block waits behind every block that was free before it, in their
      order, and only then is handed out again. The calls in between may ask for any sizes of that
      pool. */
  method FreedBlockComesLast(heap: KernelHeap, address: u64, ghost start: nat, p: nat, ghost size: u32, sizes: seq<u32>)
    returns (handed: seq<u64>)
    requires heap.Valid() && p < POOLS && heap.Freeable(start, p, size) && address == start + HEADER && Signed(size) > 0
    requires |sizes| == |heap.model.free[p]| + 1 && forall s :: s in sizes ==> PoolFor(s) == p
    modifies heap, heap.pager, heap.pager.ram, heap.pager.frames, heap.pager.numbers
    ensures heap.Valid() && |handed| == |sizes|
    ensures forall i :: 0 <= i < |handed| - 1 ==> handed[i] == old(heap.model.free[p])[i] + HEADER
    ensures handed[|handed| - 1] == address && start !in old(heap.model.free[p])
  {
    hide Ok, Backing, Pager.Valid, Required;
    heap.LiveIsNotFree(start, p);
    ghost var queue := heap.model.free[p] + [start];
    heap.KFree(address, start, p, size);
    handed := [];
    var i := 0;
    while i < |sizes|
      invariant 0 <= i <= |sizes| && |handed| == i && heap.Valid()
      invariant heap.model.free[p] == queue[i..]
      invariant forall j :: 0 <= j < i ==> handed[j] == queue[j] + HEADER
    {
      assert sizes[i] in sizes;
      var a := heap.KMalloc(sizes[i]);
      handed := handed + [a];
      i := i + 1;
    }
  }

  // ---------------------------------------------------------------- what each call does

  /** What the callers do: the two calls, and writes and first accesses to what they were given. */
  datatype Call =
    | Allocate(size: u32)
    | Release(start: u64)
    | Write(start: u64, x: nat, value: u64)
    | Reach(x: nat)

  /** All that a run can change: the heap, what its callers hold, and the pager below it. */
  datatype State = State(heap: Heap, given: map<nat, u32>, phase: seq<Phase>, count: int, free: seq<u64>,
                         words: Memory, contents: Memory)

  ghost function StateOf(heap: KernelHeap, given: map<nat, u32>): (s: State)
    requires heap.Valid()
    reads heap, heap.pager, heap.pager.ram, heap.pager.frames, heap.pager.numbers
  {
    State(heap.model, given, heap.pager.phase, heap.pager.numbers.Count(), heap.pager.frames.free,
          heap.pager.ram.words, heap.pager.Contents())
  }

  /** What the callers hold, with the sizes they asked for, is exactly what is allocated. */
  ghost predicate Holds(given: map<nat, u32>, h: Heap) {
    forall a: nat, size: u32 :: IsLive(h, a, size) <==> a in given && given[a] == size
  }

  lemma HoldsNothing()
    ensures Holds(map[], EMPTY)
  {
  }

  lemma HoldsMore(given: map<nat, u32>, h: Heap, h': Heap, a: nat, size: u32)
    requires Holds(given, h) && GainsLive(h, h', a, size)
    ensures Holds(given[a := size], h') && a !in given
  {
    hide IsLive;
    var n := if a in given then given[a] else 0;
    assert !IsLive(h, a, n);
  }

  lemma HoldsLess(given: map<nat, u32>, h: Heap, h': Heap, a: nat)
    requires Holds(given, h) && LosesLive(h, h', a)
    ensures Holds(given - {a}, h')
  {
    hide IsLive;
  }

  /** Everything held before that is not in `except` is held afterwards. */
  predicate Keeps(given: map<nat, u32>, given': map<nat, u32>, except: set<nat>) {
    forall a :: a in given && a !in except ==> a in given' && given'[a] == given[a]
  }

  /** What holds of every state: the heap is a partition, its pages are backed, and the callers hold
      exactly what is allocated. */
  ghost predicate Good(s: State, addr: seq<u64>) {
    Ok(s.contents, addr, s.heap) && Backing(s.phase, s.heap) && Holds(s.given, s.heap)
  }

  ghost predicate Allocates(s: State, size: u32, address: nat, t: State)
    requires |s.heap.free| == POOLS
  {
    && HEADER <= address && address - HEADER !in s.given && t.given == s.given[address - HEADER := size]
    && Served(s.heap, s.count, size, address, t.heap)
    && t.count == s.count + PagesAsked(s.heap, size)
    && (if PagesAsked(s.heap, size) == 0 then t.free == s.free && t.phase == s.phase
        else s.free != [] && t.free == s.free[1..] && s.count >= 0
             && IssuedFrom(s.phase, t.phase, s.count + 1, PagesAsked(s.heap, size)))
    && Intact(s.contents, t.contents, s.heap, {})
  }

  ghost predicate Releases(s: State, start: u64, t: State)
    requires start in s.given
  {
    var size, p := s.given[start], PoolFor(s.given[start]);
    && t.given == s.given - {start} && GivenBack(s.heap, start, p, size, t.heap) && t.count == s.count
    && Intact(s.contents, t.contents, s.heap, Only(start))
    && (if p < POOLS then t.phase == s.phase && t.free == s.free
        else InHeapRange(start) && FreesMany(s.phase, t.phase, s.free, t.free, PageNumber(start), BigFreed(size)))
  }

  /** A caller may write the backed words of what it holds, except for the size in the header. */
  ghost predicate Writable(s: State, start: u64, x: nat, value: u64) {
    && start in s.given && start + 8 <= x < start + Granted(s.given[start]) && x in s.contents
    && (x == start + 8 ==> value % U32 == s.contents[x] % U32)
  }

  /** Page n gets the first free frame, and all other contents stay. */
  ghost predicate Reaches(s: State, n: nat, t: State)
    requires n < |s.phase| && s.free != []
  {
    && t == s.(phase := s.phase[n := Present(s.free[0])], free := s.free[1..], words := t.words, contents := t.contents)
    && Without(t.contents, PageAddress(n)) == s.contents
  }

  /** What each call makes of a state, and what it returns. A call that the code's callers must not make
      changes nothing. */
  ghost predicate CallStep(s: State, call: Call, result: Option<nat>, t: State) {
    && |s.heap.free| == POOLS && |s.phase| == PAGES
    && match call
       case Allocate(size) =>
         if AffordableAt(s.heap, s.count, s.free, s.words, size)
         then result.Some? && Allocates(s, size, result.value, t) else result.None? && t == s
       case Release(start) =>
         && result.None?
         && if start in s.given && FreeableAt(s.heap, s.phase, s.free, start, PoolFor(s.given[start]), s.given[start])
            then Releases(s, start, t) else t == s
       case Write(start, x, value) =>
         && result.None?
         && t == if Writable(s, start, x, value) then s.(contents := s.contents[x := value], words := t.words) else s
       case Reach(x) =>
         && result.None?
         && if InHeapRange(x) && s.phase[PageNumber(x)] == Allocatable && s.free != []
            then Reaches(s, PageNumber(x), t) else t == s
  }

  /** Every two neighbours of the trace are one call apart, and every state is good. */
  ghost predicate Chain(trace: seq<State>, calls: seq<Call>, results: seq<Option<nat>>, addr: seq<u64>) {
    && |trace| == |calls| + 1 && |results| == |calls|
    && (forall i :: 0 <= i < |trace| ==> Good(trace[i], addr))
    && (forall i :: 0 <= i < |calls| ==> CallStep(trace[i], calls[i], results[i], trace[i + 1]))
  }

  lemma StartOfChain(s: State, addr: seq<u64>)
    requires Good(s, addr)
    ensures Chain([s], [], [], addr)
  {
  }

  lemma ChainGrows(trace: seq<State>, calls: seq<Call>, results: seq<Option<nat>>, addr: seq<u64>,
                   call: Call, result: Option<nat>, t: State)
    requires Chain(trace, calls, results, addr) && CallStep(trace[|calls|], call, result, t) && Good(t, addr)
    ensures Chain(trace + [t], calls + [call], results + [result], addr)
  {
    hide CallStep, Good;
    var longer, n := trace + [t], |calls|;
    forall i | 0 <= i < n + 1 ensures CallStep(longer[i], (calls + [call])[i], (results + [result])[i], longer[i + 1]) {
      assert longer[i] == trace[i];
    }
  }

  // ---------------------------------------------------------------- which calls take effect, in numbers

  /** A request is served when its pool has a free block, and else when pages are left, a frame is free
      and, for a pool, the last link word of that frame is zero. The address is 12 above the first free
      block, or above the next page. */
  lemma RequestIsServedIff(s: State, size: u32, result: Option<nat>, t: State)
    requires CallStep(s, Allocate(size), result, t)
    ensures |s.heap.free| == 3
    ensures var n, next := (size + 12) % 0x1_0000_0000, 0x4000_0000 + 4096 * (s.count + 1);
            var p := if n <= 64 then 0 else if n <= 512 then 1 else 2;
            var block := if n <= 64 then 64 else if n <= 512 then 512 else 2048;
            if 2048 < n then
              && (result.Some? <==> s.count + BigPages(size) < 262144 && s.free != [])
              && (result.Some? ==> result.value == next + 12)
            else if s.heap.free[p] != [] then result == Some((s.heap.free[p][0] as int) + 12)
            else
              && (result.Some? <==>
                    s.count + 1 < 262144 && s.free != [] && Word(s.words, (s.free[0] as int) + 4096 - block) == 0)
              && (result.Some? ==> result.value == next + 12)
  {
    hide Intact, Enlarged, BigPages;
    PoolForIs(size);
    hide PoolFor, Required;
    if result.Some? {
      ServedAddress(s.heap, s.count, size, result.value, t.heap);
    }
    hide Served, Refilled;
  }

  lemma ServedAddress(h: Heap, count: int, size: u32, address: nat, h': Heap)
    requires Served(h, count, size, address, h')
    ensures |h.free| == 3 && 0 <= count
    ensures var p := PoolFor(size);
            address == if p < 3 && h.free[p] != [] then h.free[p][0] + 12 else 0x4000_0000 + 4096 * (count + 1) + 12
  {
    hide PoolFor, BigPages;
    if PoolFor(size) < POOLS && h.free[PoolFor(size)] == [] {
      RefilledCuts(h, PoolFor(size), PageAddress(count + 1));
      hide Refilled;
    }
  }

  /** A request of 5000000 bytes needs 1222 pages: it is served whenever so many are left, and a frame. */
  lemma FiveMillionBytes(s: State, result: Option<nat>, t: State)
    requires CallStep(s, Allocate(5000000), result, t)
    ensures s.count + 1222 < 262144 && s.free != [] <==> result == Some(0x4000_0000 + 4096 * (s.count + 1) + 12)
  {
    hide CallStep;
    RequestIsServedIff(s, 5000000, result, t);
    GrantedIs(5000000);
    hide BigPages;
    assert BigPages(5000000) == 1222;
  }

  /** The list that blocks of this size return to is not empty. */
  ghost predicate PoolHasFree(h: Heap, size: u32) {
    && |h.free| == 3
    && var n := (size + 12) % 0x1_0000_0000;
       if n <= 64 then h.free[0] != [] else if n <= 512 then h.free[1] != [] else h.free[2] != []
  }

  /** A held block is freed whenever its pool's list is not empty. */
  lemma BlockIsFreedIff(s: State, start: u64, size: u32, t: State, addr: seq<u64>)
    requires start in s.given && s.given[start] == size && (size + 12) % 0x1_0000_0000 <= 2048
    requires CallStep(s, Release(start), None, t) && Good(s, addr)
    ensures start !in t.given <==> PoolHasFree(s.heap, size)
  {
    hide Intact, Holds, BigReturnableAt, IsLive, GivenBack, FreesMany, Ok, Backing, InPool;
    HeldIsLive(s, start, addr);
    PoolForIs(size);
    hide PoolFor, Required;
    LiveIsKind(s, start, size, addr);
  }

  /** Held pages are freed whenever those to give back are present, no more than were reserved, and go to
      a queue that is not empty; when none is given back, nothing is asked for. */
  lemma PagesAreFreedIff(s: State, start: u64, size: u32, t: State, addr: seq<u64>)
    requires start in s.given && s.given[start] == size && 2048 < (size + 12) % 0x1_0000_0000
    requires CallStep(s, Release(start), None, t) && Good(s, addr)
    ensures start !in t.given <==>
              size >= 0x8000_0000
              || (size + 12 < 0x8000_0000 && s.free != [] && PagesPresent(s.phase, start, BigFreed(size)))
  {
    hide Intact, Holds, IsLive, GivenBack, FreesMany, Ok, Backing, InPool, Issued;
    HeldIsLive(s, start, addr);
    PoolForIs(size);
    LiveIsKind(s, start, size, addr);
    BigStartsInRange(s, start, addr);
    BigFreedIs(size);
    hide PoolFor, Required, BigFreed;
  }

  /** `count` pages from the one at `start` on exist and are present. */
  ghost predicate PagesPresent(phase: seq<Phase>, start: nat, count: nat) {
    && 0x4000_0000 <= start && (start - 0x4000_0000) / 4096 + count <= |phase|
    && forall k :: (start - 0x4000_0000) / 4096 <= k < (start - 0x4000_0000) / 4096 + count ==> phase[k].Present?
  }

  lemma HeldIsLive(s: State, start: u64, addr: seq<u64>)
    requires Good(s, addr) && start in s.given
    ensures IsLive(s.heap, start, s.given[start])
  {
    hide Ok, Backing, IsLive;
  }

  lemma BigStartsInRange(s: State, start: u64, addr: seq<u64>)
    requires Good(s, addr) && start in s.heap.bigs
    ensures InHeapRange(start)
  {
    hide Ok, Holds;
  }

  lemma LiveIsKind(s: State, start: u64, size: u32, addr: seq<u64>)
    requires Good(s, addr) && IsLive(s.heap, start, size)
    ensures if PoolFor(size) < POOLS
            then start in s.heap.blocks && s.heap.blocks[start] == Live(size) && InPool(s.heap.pages, PoolFor(size), start)
            else start in s.heap.bigs && s.heap.bigs[start] == size
  {
    hide ListsOk, Backing, Holds, HeaderAt;
    if start in s.heap.blocks && s.heap.blocks[start] == Live(size) {
      var p :| 0 <= p < POOLS && InPool(s.heap.pages, p, start);
      assert PoolFor(size) == p;
    } else {
      assert BigOk(s.contents, s.heap, start);
    }
  }

  // ---------------------------------------------------------------- what a call leaves to other callers

  /** The allocations that a call releases or writes to. */
  function Named(call: Call): set<nat> {
    match call
    case Release(start) => Only(start)
    case Write(start, _, _) => Only(start)
    case _ => {}
  }

  function AllNamed(calls: seq<Call>): set<nat> {
    if calls == [] then {} else AllNamed(calls[..|calls| - 1]) + Named(calls[|calls| - 1])
  }

  lemma KeepsSelf(given: map<nat, u32>)
    ensures Keeps(given, given, {})
  {
  }

  lemma HeldLivesOn(given: map<nat, u32>, given': map<nat, u32>, h: Heap, h': Heap, except: set<nat>)
    requires Holds(given, h) && Holds(given', h') && Keeps(given, given', except)
    ensures LivesOn(h, h', except)
  {
    hide IsLive;
  }

  /** A call leaves every word of the allocations that it does not name as it was. */
  lemma StepSpares(s: State, call: Call, result: Option<nat>, t: State, addr: seq<u64>)
    requires Good(s, addr) && CallStep(s, call, result, t)
    ensures Keeps(s.given, t.given, Named(call)) && Intact(s.contents, t.contents, s.heap, Named(call))
  {
    hide Ok, Backing, Served, GivenBack, FreesMany, AffordableAt, FreeableAt, PageNumber;
    match call
    case Allocate(size) =>
      NothingChanged(s.contents, s.heap, {});
    case Release(start) =>
      NothingChanged(s.contents, s.heap, Only(start));
    case Write(start, x, value) =>
      NothingChanged(s.contents, s.heap, Only(start));
      if Writable(s, start, x, value) {
        assert IsLive(s.heap, start, s.given[start]);
        hide IsLive, Holds, Intact;
        LiveOccupies(s.contents, addr, s.heap, start, s.given[start]);
        IntactOutside(s.contents, addr, s.heap, s.contents, t.contents, start, Granted(s.given[start]), Only(start));
      }
    case Reach(x) =>
      hide Intact;
      if t == s {
        NothingChanged(s.contents, s.heap, {});
      } else {
        GrownIsIntact(s.contents, t.contents, PageAddress(PageNumber(x)), s.heap);
      }
  }

  /** One more call of a run. */
  lemma RunGrows(trace: seq<State>, calls: seq<Call>, i: nat, results: seq<Option<nat>>, addr: seq<u64>,
                 result: Option<nat>, t: State)
    requires i < |calls| && Chain(trace, calls[..i], results, addr)
    requires CallStep(trace[i], calls[i], result, t) && Good(t, addr)
    requires Keeps(trace[0].given, trace[i].given, AllNamed(calls[..i]))
    requires Intact(trace[0].contents, trace[i].contents, trace[0].heap, AllNamed(calls[..i]))
    ensures Chain(trace + [t], calls[..i + 1], results + [result], addr)
    ensures Keeps(trace[0].given, t.given, AllNamed(calls[..i + 1]))
    ensures Intact(trace[0].contents, t.contents, trace[0].heap, AllNamed(calls[..i + 1]))
  {
    var s, now, all := trace[0], trace[i], AllNamed(calls[..i + 1]);
    assert calls[..i + 1] == calls[..i] + [calls[i]] && calls[..i + 1][..i] == calls[..i];
    assert all == AllNamed(calls[..i]) + Named(calls[i]);
    assert Good(s, addr) && Good(now, addr);
    hide CallStep, Intact, LivesOn, Ok, Backing, Holds;
    ChainGrows(trace, calls[..i], results, addr, calls[i], result, t);
    StepSpares(now, calls[i], result, t, addr);
    IntactMore(s.contents, now.contents, s.heap, AllNamed(calls[..i]), all);
    IntactMore(now.contents, t.contents, now.heap, Named(calls[i]), all);
    HeldLivesOn(s.given, now.given, s.heap, now.heap, all);
    IntactThen(s.contents, now.contents, t.contents, s.heap, now.heap, all);
  }

  lemma ValidIsGood(heap: KernelHeap, given: map<nat, u32>)
    requires heap.Valid() && Holds(given, heap.model)
    ensures Good(StateOf(heap, given), heap.poolAddress)
  {
  }

  lemma NothingChanged(m: Memory, h: Heap, except: set<nat>)
    ensures Intact(m, m, h, except)
  {
  }

  lemma GrownIsIntact(m: Memory, m': Memory, page: nat, h: Heap)
    requires Without(m', page) == m
    ensures Intact(m, m', h, {})
  {
    hide IsLive, Granted;
    assert forall x :: x in m ==> x in m' && m'[x] == m[x];
  }

  /** What the caller can find out before it allocates. */
  method CanAllocate(heap: KernelHeap, size: u32) returns (r: bool)
    requires heap.Valid()
    ensures r <==> heap.Affordable(size)
  {
    hide Ok, Backing, Consistent, Pager.Sound, Pager.Contents, Issued, BigPages, PoolFor;
    var pager, p := heap.pager, PoolFor(size);
    pager.CountIsExact();
    pager.FirstFree();
    var count := pager.numbers.pml1 + 512 * pager.numbers.pml2 + PAGES * (pager.numbers.pml3 - 1);
    var first := pager.frames.pageHead;
    if p == POOLS {
      return count + BigPages(size) < PAGES && pager.frames.count > 0;
    }
    heap.HeadIsNullIff(p);
    return heap.heads[p] != 0 ||
      (count + 1 < PAGES && pager.frames.count > 0 && Word(pager.ram.words, first + PAGE - BlockSize(p)) == 0);
  }

  /** What the caller can find out before it frees an allocation that it holds. */
  method CanRelease(heap: KernelHeap, start: nat, size: u32) returns (r: bool)
    requires heap.Valid() && IsLive(heap.model, start, size)
    ensures r <==> heap.Freeable(start, PoolFor(size), size)
  {
    hide Ok, Backing, Consistent, Pager.Contents, Pager.Sound, Issued, BigPages, BigFreed, PoolFor;
    var pager, p := heap.pager, PoolFor(size);
    heap.LiveKind(start, size);
    if p < POOLS {
      heap.HeadIsNullIff(p);
      return heap.heads[p] != 0;
    }
    pager.CountIsExact();
    if !FreesOwnPages(size) || PageNumber(start) + BigFreed(size) > PAGES {
      return false;
    }
    if BigFreed(size) > 0 && pager.frames.count == 0 {
      return false;
    }
    var i := 0;
    while i < BigFreed(size)
      invariant 0 <= i <= BigFreed(size)
      invariant forall n :: PageNumber(start) <= n < PageNumber(start) + i ==> pager.phase[n].Present?
    {
      NextPageNumber(start, i, start + PAGE * i);
      var present := pager.IsPresent(start + PAGE * i);
      if !present {
        return false;
      }
      i := i + 1;
    }
    return true;
  }

  // ---------------------------------------------------------------- the calls

  method StepAllocate(heap: KernelHeap, size: u32, given: map<nat, u32>)
    returns (given': map<nat, u32>, result: Option<nat>)
    requires heap.Valid() && Holds(given, heap.model)
    modifies heap, heap.pager, heap.pager.ram, heap.pager.frames, heap.pager.numbers
    ensures heap.Valid() && Holds(given', heap.model) && heap.pager.owner.Keys == old(heap.pager.owner.Keys)
    ensures CallStep(old(StateOf(heap, given)), Allocate(size), result, StateOf(heap, given'))
  {
    hide Ok, Backing, Pager.Sound, Pager.Contents, Issued, Served, Intact, Holds, GainsLive;
    var can := CanAllocate(heap, size);
    if !can {
      return given, None;
    }
    ghost var h := heap.model;
    var address := heap.KMalloc(size);
    HoldsMore(given, h, heap.model, address - HEADER, size);
    return given[address - HEADER := size], Some(address);
  }

  method StepRelease(heap: KernelHeap, start: u64, given: map<nat, u32>) returns (given': map<nat, u32>)
    requires heap.Valid() && Holds(given, heap.model)
    modifies heap, heap.pager, heap.pager.ram, heap.pager.frames
    ensures heap.Valid() && Holds(given', heap.model) && heap.pager.owner.Keys == old(heap.pager.owner.Keys)
    ensures CallStep(old(StateOf(heap, given)), Release(start), None, StateOf(heap, given'))
  {
    hide Ok, Backing, Pager.Sound, Pager.Contents, Issued, FreeableAt, Intact, GivenBack, FreesMany, LosesLive;
    hide PageNumber, InHeapRange;
    given' := given;
    if start in given {
      var size := given[start];
      assert IsLive(heap.model, start, size);
      hide IsLive, Holds;
      var can := CanRelease(heap, start, size);
      if can {
        heap.ReleasedFits(start, size);
        heap.LiveKind(start, size);
        ghost var h := heap.model;
        heap.KFree(start + HEADER, start, PoolFor(size), size);
        HoldsLess(given, h, heap.model, start);
        given' := given - {start};
      }
    }
  }

  /** Writes one word of an allocation that the caller holds; the size in the header stays. */
  method StepWrite(heap: KernelHeap, start: u64, x: nat, value: u64, given: map<nat, u32>)
    requires heap.Valid() && Holds(given, heap.model)
    modifies heap.pager.ram
    ensures heap.Valid()
    ensures CallStep(old(StateOf(heap, given)), Write(start, x, value), None, StateOf(heap, given))
  {
    hide Ok, Backing, Pager.Sound, Pager.Contents, Issued, Granted;
    heap.KeysAreBacked();
    if start !in given {
      return;
    }
    assert IsLive(heap.model, start, given[start]);
    hide IsLive, Holds;
    if !(start + 8 <= x < start + Granted(given[start]) && InHeapRange(x) && x % 8 == 0) {
      return;
    }
    var present := heap.pager.IsPresent(x);
    if !present {
      return;
    }
    var word := heap.pager.Load(x);
    if x == start + 8 && value % U32 != word % U32 {
      return;
    }
    LiveOccupies(heap.pager.Contents(), heap.poolAddress, heap.model, start, given[start]);
    heap.LiveKind(start, given[start]);
    hide Occupies, PoolFor, Backed;
    heap.PayloadStore(start, Granted(given[start]), x, value);
  }

  method StepReach(heap: KernelHeap, x: nat, given: map<nat, u32>)
    requires heap.Valid() && Holds(given, heap.model)
    modifies heap.pager, heap.pager.ram, heap.pager.frames
    ensures heap.Valid() && heap.pager.owner.Keys == old(heap.pager.owner.Keys)
    ensures CallStep(old(StateOf(heap, given)), Reach(x), None, StateOf(heap, given))
  {
    hide Ok, Backing, Pager.Sound, Pager.Contents, Issued, Without, PageNumber, InHeapRange, Holds;
    if !InHeapRange(x) {
      return;
    }
    var allocatable := heap.pager.IsAllocatable(x);
    heap.pager.CountIsExact();
    if allocatable && heap.pager.frames.count > 0 {
      heap.PayloadTouch(x);
    }
  }

  /** One call: exactly its step. */
  method Step(heap: KernelHeap, call: Call, given: map<nat, u32>) returns (given': map<nat, u32>, result: Option<nat>)
    requires heap.Valid() && Holds(given, heap.model)
    modifies heap, heap.pager, heap.pager.ram, heap.pager.frames, heap.pager.numbers
    ensures heap.Valid() && Holds(given', heap.model) && heap.pager.owner.Keys == old(heap.pager.owner.Keys)
    ensures CallStep(old(StateOf(heap, given)), call, result, StateOf(heap, given'))
  {
    hide Ok, Backing, Pager.Sound, Pager.Contents, Issued, Holds, CallStep;
    given', result := given, None;
    match call {
      case Allocate(size) => given', result := StepAllocate(heap, size, given);
      case Release(start) => given' := StepRelease(heap, start, given);
      case Write(start, x, value) => StepWrite(heap, start, x, value, given);
      case Reach(x) => StepReach(heap, x, given);
    }
  }

  /** Over every run, the states are a chain of the steps of its calls, every one of them good. Whatever
      was held before the run and is not named by any of its calls is still held, with every word
      unchanged; and the frames below stay the same, none lost. */
  method Run(heap: KernelHeap, calls: seq<Call>, given: map<nat, u32>)
    returns (given': map<nat, u32>, results: seq<Option<nat>>, ghost trace: seq<State>)
    requires heap.Valid() && Holds(given, heap.model)
    modifies heap, heap.pager, heap.pager.ram, heap.pager.frames, heap.pager.numbers
    ensures heap.Valid() && Holds(given', heap.model) && Chain(trace, calls, results, heap.poolAddress)
    ensures trace[0] == old(StateOf(heap, given)) && trace[|calls|] == StateOf(heap, given')
    ensures Keeps(given, given', AllNamed(calls))
    ensures Intact(old(heap.pager.Contents()), heap.pager.Contents(), old(heap.model), AllNamed(calls))
    ensures heap.pager.owner.Keys == old(heap.pager.owner.Keys)
    ensures |heap.pager.frames.free| + 513 + |Mapped(heap.pager.phase)| == |heap.pager.owner|
  {
    hide Ok, Backing, Pager.Sound, Pager.Contents, Issued, Holds, CallStep, Chain, Intact, Keeps, LivesOn, Mapped;
    ghost var s := StateOf(heap, given);
    given', results, trace := given, [], [s];
    ValidIsGood(heap, given);
    StartOfChain(s, heap.poolAddress);
    NothingChanged(s.contents, s.heap, {});
    KeepsSelf(given);
    assert calls[..0] == [];
    var i := 0;
    while i < |calls|
      invariant 0 <= i <= |calls| && heap.Valid() && |trace| == i + 1 && Holds(given', heap.model)
      invariant Chain(trace, calls[..i], results, heap.poolAddress)
      invariant trace[0] == s && trace[i] == StateOf(heap, given')
      invariant Keeps(given, given', AllNamed(calls[..i]))
      invariant Intact(s.contents, heap.pager.Contents(), s.heap, AllNamed(calls[..i]))
      invariant heap.pager.owner.Keys == old(heap.pager.owner.Keys)
    {
      var result;
      given', result := Step(heap, calls[i], given');
      ghost var next := StateOf(heap, given');
      ValidIsGood(heap, given');
      RunGrows(trace, calls, i, results, heap.poolAddress, result, next);
      trace, results := trace + [next], results + [result];
      i := i + 1;
    }
    assert calls[..i] == calls;
    heap.pager.CountIsExact();
  }

  // ---------------------------------------------------------------- rotation

  /** The call was served from pool p. */
  predicate FromPool(call: Call, result: Option<nat>, p: nat) {
    call.Allocate? && PoolFor(call.size) == p && result.Some?
  }

  /** How many of the first `n` calls were served from pool p. */
  function ServedCount(calls: seq<Call>, results: seq<Option<nat>>, p: nat, n: nat): nat
    requires n <= |calls| == |results|
  {
    if n == 0 then 0
    else ServedCount(calls, results, p, n - 1) + if FromPool(calls[n - 1], results[n - 1], p) then 1 else 0
  }

  ghost predicate Ahead(rest: seq<u64>, h: Heap, p: nat)
    requires p < POOLS
  {
    |h.free| == POOLS && rest <= h.free[p]
  }

  /** A call served from a pool takes the first of the blocks ahead; no other call takes any. */
  lemma StepTakesFirst(s: State, call: Call, result: Option<nat>, t: State, p: nat, rest: seq<u64>)
    requires CallStep(s, call, result, t) && p < POOLS && Ahead(rest, s.heap, p)
    ensures !FromPool(call, result, p) ==> Ahead(rest, t.heap, p)
    ensures FromPool(call, result, p) && rest != [] ==>
              result == Some(rest[0] + HEADER) && Ahead(rest[1..], t.heap, p)
  {
    hide Intact, FreeableAt, AffordableAt, FreesMany, InHeapRange, PageNumber;
    match call
    case Allocate(size) =>
      if result.Some? {
        ServedKeepsAhead(s.heap, s.count, size, result.value, t.heap, p, rest);
      }
    case Release(start) =>
    case Write(start, x, value) =>
    case Reach(x) =>
  }

  lemma ServedKeepsAhead(h: Heap, count: int, size: u32, address: nat, h': Heap, p: nat, rest: seq<u64>)
    requires Served(h, count, size, address, h') && p < POOLS && Ahead(rest, h, p)
    ensures PoolFor(size) != p ==> Ahead(rest, h', p)
    ensures PoolFor(size) == p && rest != [] ==> address == rest[0] + HEADER && Ahead(rest[1..], h', p)
  {
    hide PoolFor, Tiles, PageAddress;
  }

  /** As long as no more calls were served from a pool than it had free blocks, the rest of these blocks
      stand first on its list. */
  lemma {:induction false} RestIsAhead(trace: seq<State>, calls: seq<Call>, results: seq<Option<nat>>, addr: seq<u64>,
                                       p: nat, n: nat)
    requires Chain(trace, calls, results, addr) && p < POOLS && n <= |calls|
    requires |trace[0].heap.free| == POOLS && ServedCount(calls, results, p, n) <= |trace[0].heap.free[p]|
    ensures Ahead(trace[0].heap.free[p][ServedCount(calls, results, p, n)..], trace[n].heap, p)
    decreases n
  {
    hide Chain, CallStep, Good, FromPool;
    ChainAt(trace, calls, results, addr, 0);
    var first := trace[0].heap.free[p];
    if n > 0 {
      var c := ServedCount(calls, results, p, n - 1);
      ChainAt(trace, calls, results, addr, n - 1);
      RestIsAhead(trace, calls, results, addr, p, n - 1);
      hide Ahead;
      StepTakesFirst(trace[n - 1], calls[n - 1], results[n - 1], trace[n], p, first[c..]);
      if c < |first| { assert first[c..][0] == first[c] && first[c..][1..] == first[c + 1..]; }
    }
  }

  /** The pools rotate: the block at place i of a pool's list is handed out by the call that is the
      (i + 1)-th to be served from that pool, and by none before, whatever calls lie between. */
  lemma {:induction false} PoolServesInOrder(trace: seq<State>, calls: seq<Call>, results: seq<Option<nat>>,
                                             addr: seq<u64>, p: nat, i: nat, k: nat)
    requires Chain(trace, calls, results, addr) && p < POOLS && |trace[0].heap.free| == POOLS
    requires i < |trace[0].heap.free[p]| && k < |calls| && ServedCount(calls, results, p, k) <= i
    ensures results[k] == Some(trace[0].heap.free[p][i] + HEADER) <==>
            FromPool(calls[k], results[k], p) && ServedCount(calls, results, p, k) == i
  {
    hide Chain, Good, CallStep, ServedCount, FromPool;
    ChainAt(trace, calls, results, addr, k);
    ChainAt(trace, calls, results, addr, 0);
    var c, first, t := ServedCount(calls, results, p, k), trace[0].heap.free[p], trace[k + 1];
    RestIsAhead(trace, calls, results, addr, p, k);
    GoodIsDistinct(trace[0], addr, p);
    StepTakesFirst(trace[k], calls[k], results[k], t, p, first[c..]);
    assert first[c..][0] == first[c] && first[c..][i - c] == first[i];
    if !FromPool(calls[k], results[k], p) {
      AheadIsListed(first[c..], t.heap, p, i - c);
    }
    if results[k] == Some(first[i] + HEADER) {
      HandedIsNotFree(trace[k], calls[k], first[i], t, addr, p);
    }
  }

  /** A block that is freed while n blocks of its pool are free is handed out again by the (n + 1)-th call
      served from that pool after it, and by none before, whatever calls lie between. */
  lemma {:induction false} FreedServedLast(trace: seq<State>, calls: seq<Call>, results: seq<Option<nat>>,
                                           addr: seq<u64>, start: u64, p: nat, k: nat)
    requires Chain(trace, calls, results, addr) && 0 < k < |calls| && calls[0] == Release(start) && p < POOLS
    requires |trace[0].heap.free| == POOLS && start in trace[0].given
    requires var size := trace[0].given[start];
             PoolFor(size) == p && Signed(size) > 0
             && FreeableAt(trace[0].heap, trace[0].phase, trace[0].free, start, p, size)
    requires ServedCount(calls[1..], results[1..], p, k - 1) <= |trace[0].heap.free[p]|
    ensures results[k] == Some(start + HEADER) <==>
            && FromPool(calls[k], results[k], p)
            && ServedCount(calls[1..], results[1..], p, k - 1) == |trace[0].heap.free[p]|
  {
    hide ServedCount, FromPool, Chain, Good, CallStep, FreeableAt, PoolFor, Signed;
    ChainAt(trace, calls, results, addr, 0);
    ChainTail(trace, calls, results, addr);
    ReleaseAppends(trace[0], start, results[0], trace[1], p);
    assert trace[1].heap.free[p][|trace[0].heap.free[p]|] == start;
    PoolServesInOrder(trace[1..], calls[1..], results[1..], addr, p, |trace[0].heap.free[p]|, k - 1);
  }

  lemma ReleaseAppends(s: State, start: u64, result: Option<nat>, t: State, p: nat)
    requires CallStep(s, Release(start), result, t) && p < POOLS && start in s.given
    requires PoolFor(s.given[start]) == p && Signed(s.given[start]) > 0
    requires FreeableAt(s.heap, s.phase, s.free, start, p, s.given[start])
    ensures |t.heap.free| == POOLS && t.heap.free[p] == s.heap.free[p] + [start]
  {
    hide Intact, FreesMany, FreeableAt, PoolFor;
  }

  lemma ChainTail(trace: seq<State>, calls: seq<Call>, results: seq<Option<nat>>, addr: seq<u64>)
    requires Chain(trace, calls, results, addr) && calls != []
    ensures Chain(trace[1..], calls[1..], results[1..], addr)
  {
    hide Good, CallStep;
    forall i | 0 <= i < |calls| - 1
      ensures CallStep(trace[1..][i], calls[1..][i], results[1..][i], trace[1..][i + 1])
    {
      assert trace[1..][i] == trace[i + 1];
    }
  }

  lemma AheadIsListed(rest: seq<u64>, h: Heap, p: nat, j: nat)
    requires p < POOLS && Ahead(rest, h, p) && j < |rest|
    ensures rest[j] in h.free[p]
  {
    assert h.free[p][j] == rest[j];
  }

  lemma ChainAt(trace: seq<State>, calls: seq<Call>, results: seq<Option<nat>>, addr: seq<u64>, k: nat)
    requires Chain(trace, calls, results, addr)
    ensures |trace| == |calls| + 1 && |results| == |calls|
    ensures k < |trace| ==> Good(trace[k], addr)
    ensures k < |calls| ==>
              CallStep(trace[k], calls[k], results[k], trace[k + 1]) && Good(trace[k + 1], addr)
              && |trace[k].heap.free| == POOLS
  {
    hide Good;
  }

  lemma GoodIsDistinct(s: State, addr: seq<u64>, p: nat)
    requires Good(s, addr) && p < POOLS
    ensures |s.heap.free| == POOLS && Distinct(s.heap.free[p])
  {
    hide LiveOk, BigsOk, BlocksOk, PagesOk, Holds, Backing, InPool;
    assert ListAt(s.contents, s.heap.heads[p], s.heap.free[p]);
  }

  lemma HandedIsNotFree(s: State, call: Call, b: u64, t: State, addr: seq<u64>, p: nat)
    requires CallStep(s, call, Some(b + HEADER), t) && Good(t, addr) && p < POOLS
    ensures |t.heap.free| == POOLS && b !in t.heap.free[p]
  {
    hide Served, Intact, FreeableAt, AffordableAt, Ok, Backing;
    GoodIsDistinct(t, addr, p);
    assert b in t.given && IsLive(t.heap, b, t.given[b]);
    hide CallStep, Holds, IsLive;
    if b in t.heap.free[p] {
      FreeIsNotLive(t.contents, addr, t.heap, p, b);
    }
  }
}
