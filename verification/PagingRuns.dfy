/** Arbitrary runs of the pager: reservations, page faults, frees and stores, in any order. */
module PagingRuns {
  import opened Words
  import opened PageNumbers
  import opened PageTree
  import opened Paging

  datatype Op =
    | Reserve
    | Fault(address: nat)
    | Release(address: nat)
    | Write(address: nat, value: u64)

  lemma AdvancesTransitive(a: seq<Phase>, b: seq<Phase>, c: seq<Phase>)
    requires Advances(a, b) && Advances(b, c)
    ensures Advances(a, c)
  {
  }

  lemma AdvancesSelf(a: seq<Phase>)
    ensures Advances(a, a)
  {
  }

  /** What a run preserves: the boot frames stay the same set, each with exactly one owner; pages only
      move forward in their lives; and free, table and present frames keep adding up to all frames. */
  ghost predicate Preserved(before: seq<Phase>, after: seq<Phase>, owners: map<u64, Owner>, owners': map<u64, Owner>,
                            free: seq<u64>) {
    && Advances(before, after)
    && owners'.Keys == owners.Keys
    && |free| + 513 + |Mapped(after)| == |owners|
  }

  /** Pages handed out by consecutive reservations after the k-th: consecutive addresses, none twice,
      whatever was freed in between; null when the range is exhausted. */
  ghost predicate HandedInOrder(handed: seq<u64>, k: nat) {
    forall i :: 0 <= i < |handed| ==>
      handed[i] == if k + 1 + i < 262144 then 0x4000_0000 + 4096 * (k + 1 + i) else 0
  }

  // ---------------------------------------------------------------- what each operation does

  /** All that a run can change, with the physical memory taken as the virtual memory it backs. */
  datatype State = State(phase: seq<Phase>, owner: map<u64, Owner>, free: seq<u64>, count: int, contents: Memory)

  ghost function StateOf(pager: Pager): (s: State)
    requires pager.Valid()
    reads pager, pager.ram, pager.frames, pager.numbers
    ensures |s.phase| == PAGES
  {
    State(pager.phase, pager.owner, pager.frames.free, pager.numbers.Count(), pager.Contents())
  }

  /** The next page is handed out while there is one. */
  ghost predicate Reserves(s: State, t: State) {
    t == s.(count := s.count + 1, phase := t.phase) && s.count >= 0 &&
    t.phase == if s.count + 1 < |s.phase| then s.phase[s.count + 1 := Allocatable] else s.phase
  }

  /** Page n gets the first free frame, and all other contents stay. */
  ghost predicate Binds(s: State, t: State, n: nat)
    requires |s.phase| == PAGES && n < PAGES && s.free != []
  {
    var f := s.free[0];
    && t == State(s.phase[n := Present(f)], s.owner[f := Page(n)], s.free[1..], s.count, t.contents)
    && Without(t.contents, PageAddress(n)) == s.contents
  }

  /** Page n gives its frame to the end of the queue, and all other contents stay. */
  ghost predicate Frees(s: State, t: State, n: nat)
    requires |s.phase| == PAGES && n < PAGES && s.phase[n].Present?
  {
    var f := s.phase[n].frame;
    t == State(s.phase[n := Freed], s.owner[f := Free], s.free + [f], s.count, Without(s.contents, PageAddress(n)))
  }

  /** What each operation makes of a state. An operation that the code's callers or the hardware would
      not carry out changes nothing. */
  ghost predicate OpStep(s: State, op: Op, t: State) {
    && |s.phase| == PAGES
    && match op
       case Reserve => Reserves(s, t)
       case Fault(a) =>
         if InHeapRange(a) && s.phase[PageNumber(a)] == Allocatable && s.free != []
         then Binds(s, t, PageNumber(a)) else t == s
       case Release(a) =>
         if InHeapRange(a) && s.phase[PageNumber(a)].Present? && s.free != []
         then Frees(s, t, PageNumber(a)) else t == s
       case Write(a, v) =>
         if Backed(s.phase, a) then t == s.(contents := s.contents[a := v]) else t == s
  }

  /** Every two neighbours of the trace are one operation apart. */
  ghost predicate Chain(trace: seq<State>, ops: seq<Op>) {
    |trace| == |ops| + 1 && forall i :: 0 <= i < |ops| ==> OpStep(trace[i], ops[i], trace[i + 1])
  }

  lemma ChainGrows(trace: seq<State>, ops: seq<Op>, op: Op, t: State)
    requires Chain(trace, ops) && OpStep(trace[|ops|], op, t)
    ensures Chain(trace + [t], ops + [op])
  {
    hide OpStep;
    var longer := trace + [t];
    forall i | 0 <= i < |ops| + 1 ensures OpStep(longer[i], (ops + [op])[i], longer[i + 1]) {
      assert longer[i] == trace[i];
    }
  }

  function ReserveCount(ops: seq<Op>): nat {
    if ops == [] then 0 else ReserveCount(ops[..|ops| - 1]) + if ops[|ops| - 1].Reserve? then 1 else 0
  }

  /** No page moves back, by one operation. */
  lemma StepAdvances(s: State, op: Op, t: State)
    requires OpStep(s, op, t) && (op.Reserve? && 0 <= s.count + 1 < PAGES ==> s.phase[s.count + 1] == Untouched)
    ensures Advances(s.phase, t.phase)
  {
  }

  // ---------------------------------------------------------------- the operations

  method StepReserve(pager: Pager) returns (address: u64)
    requires pager.Valid() && pager.numbers.Count() < LAST_COUNT
    modifies pager, pager.ram, pager.numbers
    ensures pager.Valid() && Reserves(old(StateOf(pager)), StateOf(pager))
    ensures pager.owner == old(pager.owner)
    ensures pager.numbers.Count() < PAGES ==> old(pager.phase)[pager.numbers.Count()] == Untouched
    ensures HandedInOrder([address], old(pager.numbers.Count()))
  {
    hide Pager.Sound, Pager.Contents, Issued;
    pager.numbers.CountBoundsDigit();
    address := pager.AllocPage();
  }

  method StepFault(pager: Pager, a: nat)
    requires pager.Valid() && InHeapRange(a)
    modifies pager, pager.ram, pager.frames
    ensures pager.Valid() && OpStep(old(StateOf(pager)), Fault(a), StateOf(pager))
    ensures pager.owner.Keys == old(pager.owner.Keys)
  {
    hide Pager.Sound, Pager.Contents, Issued, InHeapRange, PageNumber;
    ghost var s := StateOf(pager);
    var r := pager.Fault(a);
    if r {
      ShownIsGrown(s.contents, pager.Contents(), PageAddress(PageNumber(a)));
    }
  }

  lemma ShownIsGrown(before: Memory, after: Memory, page: nat)
    requires forall va :: va in before ==> va in after && after[va] == before[va] && !(page <= va < page + PAGE)
    requires forall va :: va in after && va !in before ==> page <= va < page + PAGE
    ensures Without(after, page) == before
  {
  }

  /** A page is freed only if it is present and another frame is free, as the code needs of its callers. */
  method StepRelease(pager: Pager, a: nat)
    requires pager.Valid() && InHeapRange(a)
    modifies pager, pager.ram, pager.frames
    ensures pager.Valid() && OpStep(old(StateOf(pager)), Release(a), StateOf(pager))
    ensures pager.owner.Keys == old(pager.owner.Keys)
  {
    hide Pager.Sound, Pager.Contents, Issued, InHeapRange, PageNumber, Without;
    var present := pager.IsPresent(a);
    pager.CountIsExact();
    if present && pager.frames.count > 0 {
      pager.FreePage(a);
    }
  }

  method StepWrite(pager: Pager, a: nat, v: u64)
    requires pager.Valid() && InHeapRange(a)
    modifies pager.ram
    ensures pager.Valid() && OpStep(old(StateOf(pager)), Write(a, v), StateOf(pager))
  {
    hide Pager.Sound, Pager.Contents, Issued, InHeapRange, PageNumber;
    var present := pager.IsPresent(a);
    if present && a % 8 == 0 {
      pager.Store(a, v);
    }
  }

  /** One operation: exactly its step, with the address that a reservation returns. */
  method Step(pager: Pager, op: Op) returns (handed: seq<u64>)
    requires pager.Valid() && pager.numbers.Count() < LAST_COUNT
    modifies pager, pager.ram, pager.frames, pager.numbers
    ensures pager.Valid() && OpStep(old(StateOf(pager)), op, StateOf(pager))
    ensures Preserved(old(pager.phase), pager.phase, old(pager.owner), pager.owner, pager.frames.free)
    ensures pager.numbers.Count() == old(pager.numbers.Count()) + |handed|
    ensures |handed| == if op.Reserve? then 1 else 0
    ensures HandedInOrder(handed, old(pager.numbers.Count()))
  {
    hide Pager.Sound, Pager.Contents, Issued, InHeapRange, PageNumber, Binds, Frees, Without, Advances, Mapped;
    ghost var s := StateOf(pager);
    handed := [];
    match op {
      case Reserve =>
        var address := StepReserve(pager);
        handed := [address];
      case Fault(a) =>
        if InHeapRange(a) {
          StepFault(pager, a);
        }
      case Release(a) =>
        if InHeapRange(a) {
          StepRelease(pager, a);
        }
      case Write(a, v) =>
        if InHeapRange(a) {
          StepWrite(pager, a, v);
        }
    }
    StepAdvances(s, op, StateOf(pager));
    pager.CountIsExact();
  }

  /** Every run from a valid pager is a chain of the steps of its operations. It preserves the frames,
      hands out one address for each reservation, and each page once. */
  method Run(pager: Pager, ops: seq<Op>) returns (handed: seq<u64>, ghost trace: seq<State>)
    requires pager.Valid() && pager.numbers.Count() + |ops| <= LAST_COUNT
    modifies pager, pager.ram, pager.frames, pager.numbers
    ensures pager.Valid()
    ensures Chain(trace, ops) && trace[0] == old(StateOf(pager)) && trace[|ops|] == StateOf(pager)
    ensures Preserved(old(pager.phase), pager.phase, old(pager.owner), pager.owner, pager.frames.free)
    ensures |handed| == ReserveCount(ops) && HandedInOrder(handed, old(pager.numbers.Count()))
  {
    hide Pager.Sound, Pager.Contents, Issued, OpStep, Chain, Advances, Mapped;
    handed, trace := [], [StateOf(pager)];
    ghost var k, first, owners := pager.numbers.Count(), pager.phase, pager.owner;
    pager.CountIsExact();
    var i := 0;
    StartOfChain(trace);
    AdvancesSelf(first);
    assert ops[..0] == [];
    while i < |ops|
      invariant 0 <= i <= |ops| && pager.Valid() && |trace| == i + 1
      invariant pager.numbers.Count() == k + |handed| && |handed| == ReserveCount(ops[..i]) && |handed| <= i
      invariant Chain(trace, ops[..i]) && trace[0] == old(StateOf(pager)) && trace[i] == StateOf(pager)
      invariant Preserved(first, pager.phase, owners, pager.owner, pager.frames.free)
      invariant HandedInOrder(handed, k)
    {
      ghost var before := pager.phase;
      assert ops[..i + 1] == ops[..i] + [ops[i]];
      var more := Step(pager, ops[i]);
      AdvancesTransitive(first, before, pager.phase);
      ChainGrows(trace, ops[..i], ops[i], StateOf(pager));
      trace := trace + [StateOf(pager)];
      handed := handed + more;
      i := i + 1;
    }
    assert ops[..i] == ops;
  }

  lemma StartOfChain(trace: seq<State>)
    requires |trace| == 1
    ensures Chain(trace, [])
  {
  }
}
