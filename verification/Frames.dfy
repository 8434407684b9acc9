/** The physical frame allocator: free frames on a queue threaded through their own first words. */
module Frames {
  import opened Words
  import opened ReservedSpans

  /** Head, tail and count, as the source keeps them; the count is a 32-bit counter. */
  datatype FreePages = FreePages(head: u64, tail: u64, count: u32)

  /** The segment from head to tail is `pages`. What the tail links to is not part of the meaning:
      a frame that is freed keeps whatever its first word held. */
  ghost predicate Represents(m: Memory, f: FreePages, pages: seq<u64>) {
    && f.count == |pages| % U32
    && Distinct(pages)
    && (pages != [] ==> f.head == pages[0] && f.tail == pages[|pages| - 1])
    && forall i :: 0 <= i < |pages| - 1 ==> Word(m, pages[i]) == pages[i + 1]
  }

  function Taken(m: Memory, f: FreePages): FreePages {
    FreePages(Word(m, f.head), f.tail, if f.count == 0 then U32 - 1 else f.count - 1)
  }

  function Returned(f: FreePages, pf: u64): FreePages {
    FreePages(f.head, pf, (f.count + 1) % U32)
  }

  /** Taking a frame removes the first element of the queue. */
  lemma TakeRefinesQueue(m: Memory, f: FreePages, pages: seq<u64>)
    requires Represents(m, f, pages) && pages != []
    ensures f.head == pages[0] && Represents(m, Taken(m, f), pages[1..])
  {
    var rest := pages[1..];
    assert forall i :: 0 <= i < |rest| ==> rest[i] == pages[i + 1];
  }

  /** Returning a frame that is not free appends it to the queue, except on an empty queue, where the
      head is not reset: then the queue is right only if the stale head happens to be that frame. */
  lemma ReturnRefinesQueueIff(m: Memory, f: FreePages, pages: seq<u64>, pf: u64)
    requires Represents(m, f, pages)
    ensures Represents(m[f.tail := pf], Returned(f, pf), pages + [pf]) <==>
            pf !in pages && (pages != [] || f.head == pf)
  {
    var m', longer := m[f.tail := pf], pages + [pf];
    assert longer[|pages|] == pf;
    if pf in pages {
      var i :| 0 <= i < |pages| && pages[i] == pf;
      assert longer[i] == longer[|pages|];
      return;
    }
    assert longer[0] == if pages == [] then pf else pages[0];
    assert |longer| % U32 == (|pages| % U32 + 1) % U32;
    if pages != [] {
      forall i | 0 <= i < |longer| - 1 ensures Word(m', longer[i]) == longer[i + 1] {
        if i < |pages| - 1 {
          assert pages[i] != pages[|pages| - 1];
          assert Word(m, pages[i]) == pages[i + 1];
        }
      }
    }
  }

  /** A frame freed onto an empty queue is lost, and the word that is written belongs to a frame
      that is in use: the last one taken. */
  lemma ReturnToEmptyQueueFails()
    ensures var m: Memory := map[4096 := 77];
            var f := FreePages(4096, 4096, 1);
            var emptied := Taken(m, f);
            && Represents(m, f, [4096]) && Represents(m, emptied, [])
            && !Represents(m[emptied.tail := 8192], Returned(emptied, 8192), [8192])
            && Word(m[emptied.tail := 8192], 4096) == 8192
  {
  }

  lemma QueueEnds(m: Memory, f: FreePages, pages: seq<u64>)
    requires Represents(m, f, pages)
    ensures f.count == |pages| % U32
    ensures pages != [] ==> f.head == pages[0] && f.tail == pages[|pages| - 1]
  {
  }

  lemma StartsQueue(m: Memory, page: u64)
    ensures Represents(m, FreePages(page, page, 1), [page])
  {
  }

  /** Only the links of the queue matter: any write that leaves them alone preserves it. */
  lemma WritesElsewhereKeepQueue(m: Memory, m': Memory, f: FreePages, pages: seq<u64>)
    requires Represents(m, f, pages)
    requires forall i :: 0 <= i < |pages| - 1 ==> Word(m', pages[i]) == Word(m, pages[i])
    ensures Represents(m', f, pages)
  {
  }

  lemma EndingKeepsQueue(m: Memory, f: FreePages, pages: seq<u64>)
    requires Represents(m, f, pages) && pages != []
    ensures Represents(m[f.tail := 0], f, pages)
  {
    WritesElsewhereKeepQueue(m, m[f.tail := 0], f, pages);
  }

  /** `pages` lists, in ascending order, exactly the eligible pages that lie wholly in [lo, hi). */
  ghost predicate ListsEligible(pages: seq<u64>, spans: seq<Span>, lo: nat, hi: nat) {
    && (forall i, j :: 0 <= i < j < |pages| ==> pages[i] < pages[j])
    && (forall p: u64 :: p in pages <==> Eligible(spans, p) && Inside(p, lo, hi))
  }

  ghost predicate HoldsEligible(spans: seq<Span>, lo: nat, hi: nat) {
    exists p: u64 :: Eligible(spans, p) && Inside(p, lo, hi)
  }

  /** What adding a region appends: the eligible pages of the region or, when it has none, the first
      eligible page after its start, which the code takes without looking at the region's end. */
  ghost predicate Appended(added: seq<u64>, spans: seq<Span>, lo: nat, hi: nat) {
    if HoldsEligible(spans, lo, hi) then ListsEligible(added, spans, lo, hi)
    else |added| == 1 && IsLeastEligible(spans, lo, added[0])
  }

  /** A region is added exactly if and only if it holds an eligible page. */
  lemma AppendedIsExactIff(added: seq<u64>, spans: seq<Span>, lo: nat, hi: nat)
    requires Appended(added, spans, lo, hi)
    ensures ListsEligible(added, spans, lo, hi) <==> HoldsEligible(spans, lo, hi)
  {
    if !HoldsEligible(spans, lo, hi) {
      assert added[0] in added;
    }
  }

  /** A region that holds no whole page: the page behind it is appended. */
  lemma PageBeyondRegion(added: seq<u64>)
    requires Appended(added, [], 0x2800, 0x3800)
    ensures added == [0x3000] && !Inside(0x3000, 0x2800, 0x3800)
  {
    assert Eligible([], 0x3000);
  }

  /** The searches that adding a region runs all end: the first one, and one behind every page found. */
  ghost predicate RegionEnds(spans: seq<Span>, lo: nat, hi: nat)
    requires Recordable(spans)
  {
    Ends(spans, AlignUp(lo)) && forall p: nat :: Eligible(spans, p) && Inside(p, lo, hi) ==> Ends(spans, p + PAGE)
  }

  /** The list so far, extended by the next eligible page. */
  lemma ListNextEligible(added: seq<u64>, spans: seq<Span>, lo: nat, last: u64, next: u64)
    requires ListsEligible(added, spans, lo, last + PAGE) && last in added
    requires IsLeastEligible(spans, last + PAGE, next)
    ensures ListsEligible(added + [next], spans, lo, next + PAGE)
  {
    var longer := added + [next];
    assert forall p :: p in added ==> Inside(p, lo, last + PAGE);
    assert forall i :: 0 <= i < |added| ==> added[i] in added;
    forall p: u64 | p in longer ensures Eligible(spans, p) && Inside(p, lo, next + PAGE) {
      assert p in added || p == next;
    }
    forall p: u64 | Eligible(spans, p) && Inside(p, lo, next + PAGE) ensures p in longer {
      if p == next {
        assert longer[|added|] == next;
      } else {
        assert p < last + PAGE;
        AlignedGap(p, last + PAGE);
        assert Inside(p, lo, last + PAGE);
        assert p in added;
      }
    }
  }

  /** The page found next stands neither among the frames listed before nor among those just added. */
  lemma NextIsNew(before: seq<u64>, added: seq<u64>, spans: seq<Span>, lo: nat, last: u64, next: u64, hi: nat)
    requires Apart(before, spans, lo, hi)
    requires ListsEligible(added, spans, lo, last + PAGE) && last in added
    requires IsLeastEligible(spans, last + PAGE, next) && next + PAGE <= hi
    ensures next !in before + added
  {
    assert Inside(last, lo, last + PAGE);
    assert Inside(next, lo, hi);
    assert !Inside(next, lo, last + PAGE);
  }

  /** A first page that does not fit the region is all that is added. */
  lemma FirstDoesNotFit(spans: seq<Span>, lo: nat, p: u64, hi: nat)
    requires IsLeastEligible(spans, lo, p) && hi < p + PAGE
    ensures Appended([p], spans, lo, hi)
  {
  }

  lemma ListIsComplete(added: seq<u64>, spans: seq<Span>, lo: nat, last: u64, next: nat, hi: nat)
    requires ListsEligible(added, spans, lo, last + PAGE) && last in added && last + PAGE <= hi
    requires IsLeastEligible(spans, last + PAGE, next) && hi < next + PAGE
    ensures Appended(added, spans, lo, hi)
  {
    forall p: u64 | Eligible(spans, p) && Inside(p, lo, hi) ensures p in added {
      assert p < last + PAGE;
      AlignedGap(p, last + PAGE);
      assert Inside(p, lo, last + PAGE);
    }
    assert Inside(last, lo, hi);
  }

  lemma AlignSkipsNone(spans: seq<Span>, lo: nat, p: nat)
    requires IsLeastEligible(spans, AlignUp(lo), p)
    ensures IsLeastEligible(spans, lo, p)
  {
    forall q | lo <= q < AlignUp(lo) && Aligned(q) ensures false {
      AlignedGap(q, AlignUp(lo));
    }
  }

  lemma FirstIsList(spans: seq<Span>, lo: nat, p: u64)
    requires IsLeastEligible(spans, lo, p)
    ensures ListsEligible([p], spans, lo, p + PAGE)
  {
  }

  /** None of the frames on the list can be appended again by the region. */
  ghost predicate Apart(pages: seq<u64>, spans: seq<Span>, lo: nat, hi: nat) {
    forall p :: p in pages ==> !(Eligible(spans, p) && Inside(p, lo, hi)) && !IsLeastEligible(spans, lo, p)
  }

  ghost predicate AreFrames(pages: seq<u64>) {
    forall p :: p in pages ==> IsFrame(p)
  }

  lemma FirstAndLast(pages: seq<u64>)
    requires AreFrames(pages) && pages != []
    ensures IsFrame(pages[0]) && IsFrame(pages[|pages| - 1]) && AreFrames(pages[1..])
    ensures AtWord(pages[0]) && AtWord(pages[|pages| - 1])
  {
    assert pages[0] in pages && pages[|pages| - 1] in pages;
    FrameWord(pages[0]);
    FrameWord(pages[|pages| - 1]);
  }

  lemma OneMoreFrame(pages: seq<u64>, f: u64)
    requires AreFrames(pages)
    ensures AreFrames(pages + [f]) <==> IsFrame(f)
    ensures IsFrame(f) ==> AtWord(f)
  {
    if IsFrame(f) {
      FrameWord(f);
    }
    assert f in pages + [f];
  }

  /** The two memories agree on every word that does not stand at the start of a listed page. */
  ghost predicate SameElsewhere(m: Memory, m': Memory, pages: seq<u64>) {
    forall a: nat :: a !in pages ==> Word(m', a) == Word(m, a)
  }

  lemma WriteInList(first: Memory, m: Memory, pages: seq<u64>, i: nat, v: u64, more: seq<u64>)
    requires SameElsewhere(first, m, pages) && i < |pages|
    ensures SameElsewhere(first, m[pages[i] := v], pages + more)
  {
    assert pages[i] in pages;
  }

  lemma RegionStarts(spans: seq<Span>, lo: nat, hi: nat)
    requires Recordable(spans) && RegionEnds(spans, lo, hi)
    ensures Ends(spans, AlignUp(lo))
  {
  }

  lemma SearchBehind(added: seq<u64>, spans: seq<Span>, lo: nat, last: u64, hi: nat)
    requires Recordable(spans) && RegionEnds(spans, lo, hi)
    requires ListsEligible(added, spans, lo, last + PAGE) && last in added && last + PAGE <= hi
    ensures Ends(spans, last + PAGE)
  {
    hide Ends;
    assert Eligible(spans, last) && Inside(last, lo, hi);
  }

  lemma FirstIsNew(pages: seq<u64>, spans: seq<Span>, lo: nat, p: u64, hi: nat)
    requires Apart(pages, spans, lo, hi) && IsLeastEligible(spans, lo, p)
    ensures p !in pages && IsFrame(p)
  {
  }

  lemma NextIsFrame(spans: seq<Span>, lo: nat, p: u64)
    requires IsLeastEligible(spans, lo, p)
    ensures IsFrame(p)
  {
  }

  class FrameAllocator {
    const ram: Ram
    const reserved: SpanTable
    var pageHead: u64
    var pageTail: u64
    var count: u32
    ghost var free: seq<u64>

    ghost function Fields(): FreePages
      reads this
    {
      FreePages(pageHead, pageTail, count)
    }

    ghost predicate ValidIn(m: Memory)
      reads this
    {
      Represents(m, Fields(), free) && AreFrames(free) && AtWord(pageTail)
    }

    ghost predicate Valid()
      reads this, ram
    {
      ValidIn(ram.words)
    }

    lemma ListIsDistinct()
      requires Valid()
      ensures Distinct(free) && AreFrames(free)
    {
    }

    constructor (ram: Ram, reserved: SpanTable)
      ensures this.ram == ram && this.reserved == reserved
      ensures Valid() && free == [] && pageHead == 0
    {
      this.ram := ram;
      this.reserved := reserved;
      pageHead, pageTail, count := 0, 0, 0;
      free := [];
    }

    /** Takes the first frame of the queue. On an empty queue it returns the head: null, or a stale
        one, and then the fields no longer represent a queue. */
    method Alloc() returns (frame: u64)
      requires Valid()
      modifies this
      ensures frame == old(pageHead)
      ensures Fields() == if frame == 0 then old(Fields()) else Taken(ram.words, old(Fields()))
      ensures if old(free) == [] then free == [] else frame == old(free)[0] && free == old(free)[1..]
      ensures Valid() <==> old(free) != [] || frame == 0
    {
      hide AreFrames, AtWord;
      if free != [] { FirstAndLast(free); }
      var head := pageHead;
      if head == 0 {
        return 0;
      }
      if free != [] {
        TakeRefinesQueue(ram.words, Fields(), free);
      }
      pageHead := Word(ram.words, head);
      count := if count == 0 then U32 - 1 else count - 1;
      free := if free == [] then [] else free[1..];
      return head;
    }

    /** Puts a frame at the end of the queue. The only word written is the link of the old tail. The
        fields represent the longer queue exactly when the frame is one, is not free already, and the
        queue was not empty or its stale head is this frame. */
    method Free(frame: u64)
      requires Valid()
      modifies this, ram
      ensures free == old(free) + [frame] && Fields() == Returned(old(Fields()), frame)
      ensures ram.words == old(ram.words)[old(pageTail) := frame]
      ensures Valid() <==> IsFrame(frame) && frame !in old(free) && (old(free) != [] || old(pageHead) == frame)
      ensures old(free) != [] ==> old(pageTail) == old(free)[|old(free)| - 1]
    {
      ReturnRefinesQueueIff(ram.words, Fields(), free, frame);
      OneMoreFrame(free, frame);
      QueueEnds(ram.words, Fields(), free);
      hide AreFrames, AtWord, IsFrame, Represents;
      ram.Store(pageTail, frame);
      pageTail := frame;
      count := (count + 1) % U32;
      free := free + [frame];
    }

    /** Links the first page of a region behind the tail, or makes it the head, and ends the list there. */
    method LinkFirst(page: u64)
      requires Valid() && (free == [] ==> pageHead == 0)
      requires IsFrame(page) && page !in free
      modifies this, ram
      ensures Valid() && free == old(free) + [page] && pageTail == page
      ensures SameElsewhere(old(ram.words), ram.words, free)
      ensures Word(ram.words, page) == 0
    {
      if free != [] { FirstAndLast(free); }
      QueueEnds(ram.words, Fields(), free);
      OneMoreFrame(free, page);
      StartsQueue(ram.words, page);
      hide AreFrames, AtWord, IsFrame, Represents;
      if pageHead != 0 {
        ReturnRefinesQueueIff(ram.words, Fields(), free, page);
        ram.Store(pageTail, page);
        pageTail := page;
      } else {
        pageHead := page;
        pageTail := page;
      }
      count := (count + 1) % U32;
      free := free + [page];
      EndingKeepsQueue(ram.words, Fields(), free);
      ram.Store(page, 0);
    }

    /** A list is being built: `added` are the pages appended to `before` so far, all eligible pages from
        `start` up to its last page `curr`; no word but the links of listed pages differs from `first`. */
    ghost predicate Building(before: seq<u64>, added: seq<u64>, start: nat, curr: u64, first: Memory)
      reads this, ram, reserved
    {
      && free == before + added && added != [] && added[|added| - 1] == curr
      && AreFrames(free) && Represents(ram.words, FreePages(pageHead, curr, count), free)
      && ListsEligible(added, reserved.spans, start, curr + PAGE)
      && SameElsewhere(first, ram.words, free)
    }

    /** Appends the eligible pages of [start, start + size) to the queue. */
    method AddAddressSpace(start: u64, size: u64) returns (ghost added: seq<u64>)
      requires Valid() && reserved.Valid() && start + size <= TOP - PAGE
      requires RegionEnds(reserved.spans, start, start + size)
      requires free == [] ==> pageHead == 0
      requires Apart(free, reserved.spans, start, start + size)
      modifies this, ram
      ensures Valid() && free != []
      ensures free == old(free) + added && Appended(added, reserved.spans, start, start + size)
      ensures SameElsewhere(old(ram.words), ram.words, free)
      ensures Word(ram.words, pageTail) == 0
    {
      hide ListsEligible, Appended, IsLeastEligible, Represents, AreFrames, Apart, Ends, AtWord;
      RecordedFits();
      RegionStarts(reserved.spans, start, start + size);
      hide SpanTable.Valid, Word;
      hide RegionEnds, Recordable, Building, SameElsewhere, Closed, Valid, ValidIn, AlignUp, FirstPage, Eligible;
      ghost var before, first := free, ram.words;
      var max := start + size;
      var curr := reserved.FindFreePage(AlignUp(start));
      added := StartList(start, curr, max);
      while curr + PAGE <= max
        invariant curr <= TOP && Building(before, added, start, curr, first)
        invariant curr + PAGE > max ==> Closed(added, start, max)
      {
        var more;
        curr, more, added := AddNext(curr, max, before, added, start, first);
        if !more {
          break;
        }
      }
      ListBuilt(before, added, start, max, curr, first);
    }

    lemma RecordedFits()
      requires reserved.Valid()
      ensures Recordable(reserved.spans)
    {
    }

    lemma SearchGoesOn(before: seq<u64>, added: seq<u64>, start: nat, curr: u64, max: nat, first: Memory)
      requires reserved.Valid() && RegionEnds(reserved.spans, start, max)
      requires Building(before, added, start, curr, first) && curr + PAGE <= max
      ensures Ends(reserved.spans, curr + PAGE)
    {
      assert curr in added;
      SearchBehind(added, reserved.spans, start, curr, max);
    }

    lemma ListBuilt(before: seq<u64>, added: seq<u64>, start: nat, max: nat, curr: u64, first: Memory)
      requires Building(before, added, start, curr, first) && Closed(added, start, max)
      ensures Valid() && free == before + added && free != [] && SameElsewhere(first, ram.words, free)
      ensures Appended(added, reserved.spans, start, max) && Word(ram.words, pageTail) == 0
    {
      hide SameElsewhere, Appended;
    }

    /** Finds the page behind the last one, and links it if it lies in the region; else the list ends. */
    method AddNext(curr: u64, max: u64, ghost before: seq<u64>, ghost added: seq<u64>, ghost start: nat, ghost first: Memory)
      returns (last: u64, more: bool, ghost longer: seq<u64>)
      requires reserved.Valid() && max <= TOP - PAGE && RegionEnds(reserved.spans, start, max)
      requires Building(before, added, start, curr, first) && Apart(before, reserved.spans, start, max)
      requires curr + PAGE <= max
      modifies this`count, this`free, this`pageTail, ram
      ensures Building(before, longer, start, last, first)
      ensures if more then curr < last <= max - PAGE else Closed(longer, start, max)
    {
      SearchGoesOn(before, added, start, curr, max, first);
      hide ListsEligible, Appended, Represents, AreFrames, Apart, Ends, AtWord, SpanTable.Valid;
      hide RegionEnds, Recordable, Building, SameElsewhere, Closed, Valid, AlignUp, FirstPage, Eligible;
      var next := reserved.FindFreePage(curr + PAGE);
      if next + PAGE > max {
        CloseList(curr, next, max, before, added, start, first);
        return curr, false, added;
      }
      longer := LinkNext(curr, next, max, before, added, start, first);
      return next, true, longer;
    }

    /** The list is complete, and ends with a null link. */
    ghost predicate Closed(added: seq<u64>, start: nat, max: nat)
      reads this, ram, reserved
    {
      Valid() && Appended(added, reserved.spans, start, max) && Word(ram.words, pageTail) == 0
    }

    /** Links the first page found, which may lie behind the region. */
    method StartList(start: nat, curr: u64, max: nat) returns (ghost added: seq<u64>)
      requires Valid() && (free == [] ==> pageHead == 0)
      requires IsLeastEligible(reserved.spans, AlignUp(start), curr) && Apart(free, reserved.spans, start, max)
      modifies this, ram
      ensures added == [curr] && Building(old(free), added, start, curr, old(ram.words))
      ensures curr + PAGE > max ==> Closed(added, start, max)
    {
      AlignSkipsNone(reserved.spans, start, curr);
      FirstIsNew(free, reserved.spans, start, curr, max);
      FirstIsList(reserved.spans, start, curr);
      if curr + PAGE > max { FirstDoesNotFit(reserved.spans, start, curr, max); }
      hide ListsEligible, Appended, IsLeastEligible, Represents, AreFrames, Apart, AtWord;
      LinkFirst(curr);
      added := [curr];
    }

    /** Ends the list that is being built at its last page: the next one lies behind the region. */
    method CloseList(curr: u64, ghost next: nat, ghost max: nat, ghost before: seq<u64>, ghost added: seq<u64>,
                     ghost start: nat, ghost first: Memory)
      requires Building(before, added, start, curr, first) && curr + PAGE <= max < next + PAGE
      requires IsLeastEligible(reserved.spans, curr + PAGE, next)
      modifies this`pageTail, ram
      ensures Building(before, added, start, curr, first) && Closed(added, start, max)
    {
      assert curr in added && free[|free| - 1] == curr;
      ListIsComplete(added, reserved.spans, start, curr, next, max);
      EndingKeepsQueue(ram.words, FreePages(pageHead, curr, count), free);
      FirstAndLast(free);
      WriteInList(first, ram.words, free, |free| - 1, 0, []);
      hide ListsEligible, Appended, IsLeastEligible, Represents, AreFrames, AtWord, SameElsewhere;
      ram.Store(curr, 0);
      pageTail := curr;
    }

    /** Links one more page behind the last page of the list that is being built. */
    method LinkNext(curr: u64, next: u64, ghost max: nat, ghost before: seq<u64>, ghost added: seq<u64>,
                    ghost start: nat, ghost first: Memory) returns (ghost longer: seq<u64>)
      requires Building(before, added, start, curr, first) && next + PAGE <= max
      requires IsLeastEligible(reserved.spans, curr + PAGE, next) && Apart(before, reserved.spans, start, max)
      modifies this`count, this`free, ram
      ensures longer == added + [next] && Building(before, longer, start, next, first)
    {
      assert curr in added && free[|free| - 1] == curr;
      NextIsNew(before, added, reserved.spans, start, curr, next, max);
      ListNextEligible(added, reserved.spans, start, curr, next);
      NextIsFrame(reserved.spans, curr + PAGE, next);
      WriteInList(first, ram.words, free, |free| - 1, next, [next]);
      ReturnRefinesQueueIff(ram.words, FreePages(pageHead, curr, count), free, next);
      FirstAndLast(free);
      OneMoreFrame(free, next);
      hide ListsEligible, IsLeastEligible, Represents, AreFrames, Apart, AtWord, IsFrame, SameElsewhere;
      ram.Store(curr, next);
      count := (count + 1) % U32;
      free := free + [next];
      longer := added + [next];
    }
  }
}
