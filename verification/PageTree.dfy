/** The page-table tree in physical memory, and who owns each frame. */
module PageTree {
  import opened Words
  import opened Entries
  import opened Frames
  import opened PageNumbers

  // ---------------------------------------------------------------- the walk

  /** Physical address of the lowest-level entry for a virtual address. */
  function Pml1Entry(m: Memory, p3: nat, a: nat): nat {
    var pml2 := GetAdd(Word(m, p3 + 8 * Pml3Index(a)));
    var pml1 := GetAdd(Word(m, pml2 + 8 * Pml2Index(a)));
    pml1 + 8 * Pml1Index(a)
  }

  /** Entry 1 of the table at p3 leads to `root`, and its entries lead to the 512 `leaves`. */
  ghost predicate TreeAt(m: Memory, p3: nat, root: u64, leaves: seq<u64>) {
    && |leaves| == 512
    && Links(Word(m, p3 + 8), root)
    && forall i :: 0 <= i < 512 ==> Links(Word(m, root + 8 * i), leaves[i])
  }

  /** Where the entry of page n stands. */
  function EntryAt(leaves: seq<u64>, n: nat): nat
    requires |leaves| == 512 && n < PAGES
  {
    leaves[n / 512] + 8 * (n % 512)
  }

  lemma EntryAtWord(leaves: seq<u64>, n: nat)
    requires |leaves| == 512 && n < PAGES && forall f :: f in leaves ==> Aligned(f)
    ensures AtWord(EntryAt(leaves, n))
  {
    PageWord(leaves[n / 512], n % 512);
  }

  lemma WalkReachesEntry(m: Memory, p3: nat, root: u64, leaves: seq<u64>, a: nat)
    requires TreeAt(m, p3, root, leaves) && InHeapRange(a)
    ensures Pml1Entry(m, p3, a) == EntryAt(leaves, PageNumber(a))
  {
    IndexesAreDigits(a);
  }

  /** The walk in numbers: for the n-th page, behind entry 1 of the table at p3, entry n / 512 of the
      table that it names, and then entry n % 512. */
  lemma WalkInNumbers(m: Memory, p3: nat, n: nat, offset: nat)
    requires n < 262144 && offset < 4096
    ensures var root := GetAdd(Word(m, p3 + 8));
            Pml1Entry(m, p3, 0x4000_0000 + 4096 * n + offset) == GetAdd(Word(m, root + 8 * (n / 512))) + 8 * (n % 512)
  {
    var a := 0x4000_0000 + 4096 * n + offset;
    PageNumberIs(a, n);
    IndexesAreDigits(a);
    hide Pml1Index, Pml2Index, Pml3Index;
  }

  // ---------------------------------------------------------------- pages and frames

  /** The life of a virtual page, from left to right. */
  datatype Phase = Untouched | Allocatable | Present(frame: u64) | Freed

  /** The entry of a page that links to a frame or a table. */
  function LinkTo(f: u64): Entry {
    Entry(true, true, true, false, f)
  }

  /** What the entry of a page looks like in each phase: present, writable, user, allocatable, frame. */
  function EntryFor(ph: Phase): Entry {
    match ph
    case Untouched => Entry(false, true, true, false, 0)
    case Allocatable => Entry(false, false, false, true, 0)
    case Present(f) => LinkTo(f)
    case Freed => Entry(false, false, false, false, 0)
  }

  /** The whole word of an entry in each phase: no bit is set but those of the flags and the frame. */
  function WordFor(ph: Phase): nat {
    match ph
    case Untouched => 6
    case Allocatable => 0x10_0000_0000_0000
    case Present(f) => f + 7
    case Freed => 0
  }

  predicate Shows(w: u64, ph: Phase) {
    Decode(w) == EntryFor(ph) && w == WordFor(ph)
  }

  /** An entry that links to the table at `f`. */
  predicate Links(w: u64, f: u64) {
    Decode(w) == LinkTo(f) && w == f + 7
  }

  ghost predicate EntriesAt(m: Memory, leaves: seq<u64>, phase: seq<Phase>) {
    && |leaves| == 512 && |phase| == PAGES
    && forall n :: 0 <= n < PAGES ==> Shows(Word(m, EntryAt(leaves, n)), phase[n])
  }

  /** What a frame of the boot is used for; a map to these gives each frame exactly one use. */
  datatype Owner = Free | Root | Leaf(index: nat) | Page(number: nat)

  ghost predicate Owned(owner: map<u64, Owner>, free: seq<u64>, root: u64, leaves: seq<u64>, phase: seq<Phase>) {
    && |leaves| == 512 && |phase| == PAGES && Distinct(free)
    && (forall f :: f in owner ==> IsFrame(f) && Addressable(f))
    && (forall f :: f in free <==> f in owner && owner[f].Free?)
    && root in owner && (forall f :: f in owner && owner[f].Root? <==> f == root)
    && (forall i :: 0 <= i < 512 ==> leaves[i] in owner && owner[leaves[i]] == Leaf(i))
    && (forall f :: f in owner && owner[f].Leaf? ==> owner[f].index < 512 && leaves[owner[f].index] == f)
    && (forall n :: 0 <= n < PAGES && phase[n].Present? ==> phase[n].frame in owner && owner[phase[n].frame] == Page(n))
    && (forall f :: f in owner && owner[f].Page? ==> owner[f].number < PAGES && phase[owner[f].number] == Present(f))
  }

  function Mapped(phase: seq<Phase>): set<nat> {
    set n | 0 <= n < |phase| && phase[n].Present? :: n
  }

  lemma {:induction false} ImageSize(s: set<nat>, phase: seq<Phase>) returns (image: set<u64>)
    requires s <= Mapped(phase)
    requires forall a, b :: a in s && b in s && phase[a].frame == phase[b].frame ==> a == b
    ensures |image| == |s| && forall f :: f in image <==> exists n :: n in s && phase[n].frame == f
    decreases s
  {
    if s == {} {
      image := {};
    } else {
      var x :| x in s;
      var rest := ImageSize(s - {x}, phase);
      image := rest + {phase[x].frame};
      forall f | f in image ensures exists n :: n in s && phase[n].frame == f {
        if f == phase[x].frame { assert x in s; }
      }
    }
  }

  /** Conservation: free frames, the 513 table frames and the present pages add up to all frames. */
  lemma FramesConserved(owner: map<u64, Owner>, free: seq<u64>, root: u64, leaves: seq<u64>, phase: seq<Phase>)
    requires Owned(owner, free, root, leaves, phase)
    ensures |free| + 513 + |Mapped(phase)| == |owner|
  {
    assert |leaves| == 512 && Distinct(free);
    LeavesDistinct(owner, free, root, leaves, phase);
    hide Owned;
    DistinctSize(free);
    DistinctSize(leaves);
    var pages := MappedFrames(owner, free, root, leaves, phase);
    AllFrames(owner, free, root, leaves, phase, pages);
    assert |owner| == |owner.Keys|;
  }

  lemma MappedFrames(owner: map<u64, Owner>, free: seq<u64>, root: u64, leaves: seq<u64>, phase: seq<Phase>)
    returns (pages: set<u64>)
    requires Owned(owner, free, root, leaves, phase)
    ensures forall f :: f in pages <==> exists n :: n in Mapped(phase) && phase[n].frame == f
    ensures |pages| == |Mapped(phase)|
  {
    MappedFramesDiffer(owner, free, root, leaves, phase);
    hide Owned;
    pages := ImageSize(Mapped(phase), phase);
  }

  lemma MappedFramesDiffer(owner: map<u64, Owner>, free: seq<u64>, root: u64, leaves: seq<u64>, phase: seq<Phase>)
    requires Owned(owner, free, root, leaves, phase)
    ensures forall a, b :: a in Mapped(phase) && b in Mapped(phase) && phase[a].frame == phase[b].frame ==> a == b
  {
    forall a, b | a in Mapped(phase) && b in Mapped(phase) && phase[a].frame == phase[b].frame ensures a == b {
      assert owner[phase[a].frame] == Page(a) && owner[phase[b].frame] == Page(b);
    }
  }

  lemma AllFrames(owner: map<u64, Owner>, free: seq<u64>, root: u64, leaves: seq<u64>, phase: seq<Phase>, pages: set<u64>)
    requires Owned(owner, free, root, leaves, phase)
    requires forall f :: f in pages <==> exists n :: n in Mapped(phase) && phase[n].frame == f
    ensures var frees, tables := set f | f in free, set f | f in leaves;
            && owner.Keys == frees + {root} + tables + pages
            && |owner.Keys| == |frees| + 1 + |tables| + |pages|
  {
    var frees, tables := set f | f in free, set f | f in leaves;
    hide Mapped;
    KeysAreUsed(owner, free, root, leaves, phase, pages);
    TablesApart(owner, free, root, leaves, phase);
    hide Owned;
    assert forall f :: f in pages ==> owner[f].Page?;
    UnionSize(frees, root, tables, pages);
  }

  lemma UnionSize(a: set<u64>, x: u64, b: set<u64>, c: set<u64>)
    requires a !! b && a !! c && b !! c && x !in a && x !in b && x !in c
    ensures |a + {x} + b + c| == |a| + 1 + |b| + |c|
  {
    DisjointSize(a, {x});
    DisjointSize(a + {x}, b);
    DisjointSize(a + {x} + b, c);
  }

  lemma TablesApart(owner: map<u64, Owner>, free: seq<u64>, root: u64, leaves: seq<u64>, phase: seq<Phase>)
    requires Owned(owner, free, root, leaves, phase)
    ensures forall f :: f in free ==> f in owner && owner[f] == Free
    ensures forall f :: f in leaves ==> f in owner && owner[f].Leaf?
    ensures root in owner && owner[root].Root?
  {
  }

  lemma DisjointSize(a: set<u64>, b: set<u64>)
    requires a !! b
    ensures |a + b| == |a| + |b|
  {
  }

  lemma KeysAreUsed(owner: map<u64, Owner>, free: seq<u64>, root: u64, leaves: seq<u64>, phase: seq<Phase>, pages: set<u64>)
    requires Owned(owner, free, root, leaves, phase)
    requires forall f :: f in pages <==> exists n :: n in Mapped(phase) && phase[n].frame == f
    ensures owner.Keys == (set f | f in free) + {root} + (set f | f in leaves) + pages
    ensures forall f :: f in pages ==> owner[f].Page?
  {
    var used := (set f | f in free) + {root} + (set f | f in leaves) + pages;
    forall f | f in owner ensures f in used {
      match owner[f]
      case Free => assert f in free;
      case Root =>
      case Leaf(i) => assert leaves[i] == f;
      case Page(n) => assert n in Mapped(phase);
    }
    forall f | f in pages ensures f in owner && owner[f].Page? {
      var n :| n in Mapped(phase) && phase[n].frame == f;
    }
  }

  // ---------------------------------------------------------------- what one write can change

  /** The two memories agree on every word outside the page at `page`. */
  ghost predicate SameOutside(m: Memory, m': Memory, page: nat) {
    forall a: nat :: a < page || page + PAGE <= a ==> Word(m', a) == Word(m, a)
  }

  ghost predicate InFrames(frames: set<u64>, a: nat) {
    exists f :: f in frames && f <= a < f + PAGE
  }

  /** Only words of these frames, and the link in the table at p3, differ between the two memories. */
  ghost predicate OnlyIn(m: Memory, m': Memory, frames: set<u64>, p3: nat) {
    forall a: nat :: a != p3 + 8 && !InFrames(frames, a) ==> Word(m', a) == Word(m, a)
  }

  lemma OnlyInGrows(first: Memory, m: Memory, m': Memory, frames: set<u64>, more: set<u64>, f: u64, p3: nat)
    requires OnlyIn(first, m, frames, p3) && SameOutside(m, m', f) && frames <= more && f in more
    ensures OnlyIn(first, m', more, p3)
  {
    forall a: nat | a != p3 + 8 && !InFrames(more, a) ensures Word(m', a) == Word(first, a) {
      assert !InFrames(frames, a);
    }
  }

  lemma OnlyInThen(first: Memory, m: Memory, m': Memory, frames: set<u64>, more: set<u64>, p3: nat)
    requires OnlyIn(first, m, frames, p3) && OnlyIn(m, m', more, p3) && more <= frames
    ensures OnlyIn(first, m', frames, p3)
  {
    forall a: nat | a != p3 + 8 && !InFrames(frames, a) ensures Word(m', a) == Word(first, a) {
      assert !InFrames(more, a);
    }
  }

  lemma OnePageWritten(m: Memory, page: nat, a: nat, v: u64)
    requires page <= a < page + PAGE
    ensures SameOutside(m, m[a := v], page)
  {
  }

  lemma TailIsFree(m: Memory, f: FreePages, free: seq<u64>)
    requires Represents(m, f, free) && free != []
    ensures f.tail in free
  {
    assert free[|free| - 1] in free;
  }

  lemma QueueKept(m: Memory, m': Memory, page: nat, f: FreePages, free: seq<u64>)
    requires Represents(m, f, free) && SameOutside(m, m', page) && Aligned(page)
    requires page !in free && forall p :: p in free ==> Aligned(p)
    ensures Represents(m', f, free)
  {
    forall i | 0 <= i < |free| - 1 ensures Word(m', free[i]) == Word(m, free[i]) {
      OutsideOther(m, m', page, free[i], 0);
    }
    WritesElsewhereKeepQueue(m, m', f, free);
  }

  lemma OutsideOther(m: Memory, m': Memory, page: nat, other: nat, i: nat)
    requires SameOutside(m, m', page) && Aligned(page) && Aligned(other) && other != page && i < PAGE
    ensures Word(m', other + i) == Word(m, other + i)
  {
    if page < other { AlignedGap(page, other); } else { AlignedGap(other, page); }
  }

  lemma TreeKept(m: Memory, m': Memory, page: nat, p3: nat, root: u64, leaves: seq<u64>)
    requires TreeAt(m, p3, root, leaves) && SameOutside(m, m', page) && Aligned(page)
    requires Aligned(p3) && Aligned(root) && page != p3 && page != root
    ensures TreeAt(m', p3, root, leaves)
  {
    OutsideOther(m, m', page, p3, 8);
    hide Decode;
    forall i | 0 <= i < 512 ensures Links(Word(m', root + 8 * i), leaves[i]) {
      OutsideOther(m, m', page, root, 8 * i);
    }
  }

  lemma EntriesKept(m: Memory, m': Memory, page: nat, leaves: seq<u64>, phase: seq<Phase>)
    requires EntriesAt(m, leaves, phase) && SameOutside(m, m', page) && Aligned(page)
    requires page !in leaves && forall f :: f in leaves ==> Aligned(f)
    ensures EntriesAt(m', leaves, phase)
  {
    hide Decode, Shows;
    forall n | 0 <= n < PAGES ensures Shows(Word(m', EntryAt(leaves, n)), phase[n]) {
      OutsideOther(m, m', page, leaves[n / 512], 8 * (n % 512));
    }
  }

  /** Different pages have different entries. */
  lemma EntriesApart(leaves: seq<u64>, n: nat, k: nat)
    requires |leaves| == 512 && Distinct(leaves) && (forall f :: f in leaves ==> Aligned(f))
    requires n < PAGES && k < PAGES && n != k
    ensures EntryAt(leaves, n) != EntryAt(leaves, k)
  {
    assert n / 512 != k / 512 || n % 512 != k % 512;
    if EntryAt(leaves, n) == EntryAt(leaves, k) {
      PagesApart(leaves[n / 512], leaves[k / 512], 8 * (n % 512), 8 * (k % 512));
    }
  }

  lemma EntryChanged(m: Memory, leaves: seq<u64>, phase: seq<Phase>, n: nat, w: u64, ph: Phase)
    requires EntriesAt(m, leaves, phase) && Distinct(leaves) && (forall f :: f in leaves ==> Aligned(f))
    requires n < PAGES && Shows(w, ph)
    ensures EntriesAt(m[EntryAt(leaves, n) := w], leaves, phase[n := ph])
  {
    hide Decode, Shows;
    var m' := m[EntryAt(leaves, n) := w];
    forall k | 0 <= k < PAGES ensures Shows(Word(m', EntryAt(leaves, k)), phase[n := ph][k]) {
      if k != n { EntriesApart(leaves, n, k); }
    }
  }

  // ---------------------------------------------------------------- the whole memory

  /** Free queue, page tables, entries and ownership agree with each other. */
  ghost predicate Consistent(m: Memory, p3: nat, f: FreePages, free: seq<u64>, root: u64, leaves: seq<u64>,
                             phase: seq<Phase>, owner: map<u64, Owner>) {
    && Represents(m, f, free) && TreeAt(m, p3, root, leaves) && EntriesAt(m, leaves, phase)
    && Owned(owner, free, root, leaves, phase) && Aligned(p3) && p3 !in owner.Keys
  }

  /** The page walk tells addresses apart exactly by their page numbers, and never leaves the leaves. */
  lemma WalkIsInjective(m: Memory, p3: nat, root: u64, leaves: seq<u64>, phase: seq<Phase>, owner: map<u64, Owner>,
                        free: seq<u64>, a: nat, b: nat)
    requires TreeAt(m, p3, root, leaves) && Owned(owner, free, root, leaves, phase)
    requires InHeapRange(a) && InHeapRange(b)
    ensures Pml1Entry(m, p3, a) == Pml1Entry(m, p3, b) <==> a / PAGE == b / PAGE
    ensures exists i :: 0 <= i < 512 && leaves[i] <= Pml1Entry(m, p3, a) <= leaves[i] + PAGE - 8
  {
    WalkReachesEntry(m, p3, root, leaves, a);
    WalkReachesEntry(m, p3, root, leaves, b);
    LeavesDistinct(owner, free, root, leaves, phase);
    if PageNumber(a) != PageNumber(b) {
      EntriesApart(leaves, PageNumber(a), PageNumber(b));
    }
    SamePage(a, b);
    var i := PageNumber(a) / 512;
    assert leaves[i] <= Pml1Entry(m, p3, a) <= leaves[i] + PAGE - 8;
  }

  lemma SamePage(a: nat, b: nat)
    requires InHeapRange(a) && InHeapRange(b)
    ensures PageNumber(a) == PageNumber(b) <==> a / PAGE == b / PAGE
  {
    assert a / PAGE == PageNumber(a) + BASE / PAGE && b / PAGE == PageNumber(b) + BASE / PAGE;
  }

  lemma LeavesDistinct(owner: map<u64, Owner>, free: seq<u64>, root: u64, leaves: seq<u64>, phase: seq<Phase>)
    requires Owned(owner, free, root, leaves, phase)
    ensures Distinct(leaves) && forall f :: f in leaves ==> Aligned(f)
  {
    forall i, j | 0 <= i < j < 512 ensures leaves[i] != leaves[j] {
      assert owner[leaves[i]] == Leaf(i) && owner[leaves[j]] == Leaf(j);
    }
  }

  // ---------------------------------------------------------------- the steps of the pager

  lemma OwnedBind(owner: map<u64, Owner>, free: seq<u64>, root: u64, leaves: seq<u64>, phase: seq<Phase>, n: nat)
    requires Owned(owner, free, root, leaves, phase) && free != [] && n < PAGES && !phase[n].Present?
    ensures Owned(owner[free[0] := Page(n)], free[1..], root, leaves, phase[n := Present(free[0])])
  {
    var f, rest, owner' := free[0], free[1..], owner[free[0] := Page(n)];
    assert free == [f] + rest;
    assert f in free && owner[f] == Free;
    assert f !in rest;
    assert forall g :: g in rest <==> g in free && g != f;
    forall k | 0 <= k < PAGES && phase[k].Present? ensures phase[k].frame != f {
      assert owner[phase[k].frame] == Page(k);
    }
  }

  lemma OwnedRelease(owner: map<u64, Owner>, free: seq<u64>, root: u64, leaves: seq<u64>, phase: seq<Phase>, n: nat)
    requires Owned(owner, free, root, leaves, phase) && n < PAGES && phase[n].Present?
    ensures var f := phase[n].frame;
            f !in free && Owned(owner[f := Free], free + [f], root, leaves, phase[n := Freed])
  {
    var f := phase[n].frame;
    assert owner[f] == Page(n);
    forall k | 0 <= k < PAGES && k != n && phase[k].Present? ensures phase[k].frame != f {
      assert owner[phase[k].frame] == Page(k);
    }
  }

  lemma OwnedMark(owner: map<u64, Owner>, free: seq<u64>, root: u64, leaves: seq<u64>, phase: seq<Phase>, n: nat, ph: Phase)
    requires Owned(owner, free, root, leaves, phase) && n < PAGES && !phase[n].Present? && !ph.Present?
    ensures Owned(owner, free, root, leaves, phase[n := ph])
  {
  }

  /** Ownership tells the pages of different uses apart. */
  lemma UsesDiffer(owner: map<u64, Owner>, free: seq<u64>, root: u64, leaves: seq<u64>, phase: seq<Phase>, p3: nat)
    requires Owned(owner, free, root, leaves, phase) && p3 !in owner.Keys
    ensures |leaves| == 512 && |phase| == PAGES
    ensures Distinct(leaves) && root !in leaves && p3 !in leaves && p3 != root
    ensures root !in free && p3 !in free && forall f :: f in leaves ==> f !in free
    ensures Aligned(root) && (forall f :: f in leaves ==> Aligned(f)) && (forall f :: f in free ==> Aligned(f))
    ensures forall n :: 0 <= n < PAGES && phase[n].Present? ==>
              var f := phase[n].frame; Aligned(f) && f != root && f != p3 && f !in leaves && f !in free
  {
    LeavesDistinct(owner, free, root, leaves, phase);
    assert forall f :: f in leaves ==> owner[f].Leaf?;
  }

  /** Writing the entry of a page whose frame use does not change. */
  lemma EntryWritten(m: Memory, p3: nat, f: FreePages, free: seq<u64>, root: u64, leaves: seq<u64>, phase: seq<Phase>,
                     owner: map<u64, Owner>, n: nat, w: u64, ph: Phase)
    requires Consistent(m, p3, f, free, root, leaves, phase, owner)
    requires n < PAGES && Shows(w, ph)
    ensures var m' := m[EntryAt(leaves, n) := w];
            Represents(m', f, free) && TreeAt(m', p3, root, leaves) && EntriesAt(m', leaves, phase[n := ph])
  {
    UsesDiffer(owner, free, root, leaves, phase, p3);
    hide Owned, Decode, Shows, Represents, TreeAt;
    var m' := m[EntryAt(leaves, n) := w];
    assert SameOutside(m, m', leaves[n / 512]);
    QueueKept(m, m', leaves[n / 512], f, free);
    TreeKept(m, m', leaves[n / 512], p3, root, leaves);
    EntryChanged(m, leaves, phase, n, w, ph);
  }

  /** Marking an untouched page allocatable. */
  lemma ReserveStep(m: Memory, p3: nat, f: FreePages, free: seq<u64>, root: u64, leaves: seq<u64>, phase: seq<Phase>,
                    owner: map<u64, Owner>, n: nat, w: u64)
    requires Consistent(m, p3, f, free, root, leaves, phase, owner)
    requires n < PAGES && phase[n] == Untouched && Shows(w, Allocatable)
    ensures Consistent(m[EntryAt(leaves, n) := w], p3, f, free, root, leaves, phase[n := Allocatable], owner)
  {
    EntryWritten(m, p3, f, free, root, leaves, phase, owner, n, w, Allocatable);
    OwnedMark(owner, free, root, leaves, phase, n, Allocatable);
  }

  /** Binding the first free frame to an allocatable page. */
  lemma BindStep(m: Memory, p3: nat, f: FreePages, free: seq<u64>, root: u64, leaves: seq<u64>, phase: seq<Phase>,
                 owner: map<u64, Owner>, n: nat, w: u64)
    requires Consistent(m, p3, f, free, root, leaves, phase, owner)
    requires n < PAGES && phase[n] == Allocatable && free != [] && Shows(w, Present(free[0]))
    ensures Consistent(m[EntryAt(leaves, n) := w], p3, Taken(m, f), free[1..], root, leaves,
                       phase[n := Present(free[0])], owner[free[0] := Page(n)])
  {
    hide Decode, Shows, TreeAt, EntriesAt;
    var m' := m[EntryAt(leaves, n) := w];
    var rest := free[1..];
    TakeRefinesQueue(m, f, free);
    OwnedBind(owner, free, root, leaves, phase, n);
    EntryWritten(m, p3, f, free, root, leaves, phase, owner, n, w, Present(free[0]));
    UsesDiffer(owner, free, root, leaves, phase, p3);
    assert free[0] in free;
    hide Owned, Represents;
    assert SameOutside(m, m', leaves[n / 512]);
    QueueKept(m, m', leaves[n / 512], Taken(m, f), rest);
  }

  /** Returning the frame of a present page: first to the end of the queue, then out of the entry. */
  lemma ReleaseStep(m: Memory, p3: nat, f: FreePages, free: seq<u64>, root: u64, leaves: seq<u64>, phase: seq<Phase>,
                    owner: map<u64, Owner>, n: nat, w: u64)
    requires Consistent(m, p3, f, free, root, leaves, phase, owner)
    requires n < PAGES && phase[n].Present? && free != [] && Shows(w, Freed)
    ensures var g := phase[n].frame;
            Consistent(m[f.tail := g][EntryAt(leaves, n) := w], p3, Returned(f, g), free + [g], root, leaves,
                       phase[n := Freed], owner[g := Free])
  {
    hide Decode, Shows, TreeAt, EntriesAt;
    var g := phase[n].frame;
    OwnedRelease(owner, free, root, leaves, phase, n);
    UsesDiffer(owner, free, root, leaves, phase, p3);
    var m1 := m[f.tail := g];
    ReturnRefinesQueueIff(m, f, free, g);
    assert f.tail in free;
    hide Owned, Represents;
    assert SameOutside(m, m1, f.tail);
    TreeKept(m, m1, f.tail, p3, root, leaves);
    EntriesKept(m, m1, f.tail, leaves, phase);
    var m2 := m1[EntryAt(leaves, n) := w];
    assert SameOutside(m1, m2, leaves[n / 512]);
    QueueKept(m1, m2, leaves[n / 512], Returned(f, g), free + [g]);
    TreeKept(m1, m2, leaves[n / 512], p3, root, leaves);
    EntryChanged(m1, leaves, phase, n, w, Freed);
  }

  /** A write through a mapping damages neither a free-list link nor a page table. */
  lemma MappedWriteStep(m: Memory, p3: nat, f: FreePages, free: seq<u64>, root: u64, leaves: seq<u64>, phase: seq<Phase>,
                        owner: map<u64, Owner>, n: nat, a: nat, v: u64)
    requires Consistent(m, p3, f, free, root, leaves, phase, owner)
    requires n < PAGES && phase[n].Present? && phase[n].frame <= a < phase[n].frame + PAGE && AtWord(a)
    ensures Consistent(m[a := v], p3, f, free, root, leaves, phase, owner)
  {
    var g := phase[n].frame;
    UsesDiffer(owner, free, root, leaves, phase, p3);
    hide Owned, Represents, Decode, Shows, TreeAt, EntriesAt;
    assert SameOutside(m, m[a := v], g);
    QueueKept(m, m[a := v], g, f, free);
    TreeKept(m, m[a := v], g, p3, root, leaves);
    EntriesKept(m, m[a := v], g, leaves, phase);
  }

  /** Freeing a page hands the address in its entry to the frame allocator: that is one of the boot
      frames if and only if the page is present. Any other page would hand over the null frame. */
  lemma EntryNamesFrameIff(m: Memory, p3: nat, f: FreePages, free: seq<u64>, root: u64, leaves: seq<u64>,
                           phase: seq<Phase>, owner: map<u64, Owner>, n: nat)
    requires Consistent(m, p3, f, free, root, leaves, phase, owner) && n < PAGES
    ensures GetAdd(Word(m, EntryAt(leaves, n))) in owner <==> phase[n].Present?
  {
    assert Shows(Word(m, EntryAt(leaves, n)), phase[n]);
  }

  // ---------------------------------------------------------------- virtual memory

  /** Physical address behind a virtual one, as the hardware walks the tables. */
  function Translate(m: Memory, p3: nat, va: nat): nat {
    GetAdd(Word(m, Pml1Entry(m, p3, va))) + va % PAGE
  }

  /** A virtual word, at an address at which words start, is backed by a frame. */
  predicate Backed(phase: seq<Phase>, va: nat)
    requires |phase| == PAGES
  {
    InHeapRange(va) && AtWord(va) && phase[PageNumber(va)].Present?
  }

  lemma TranslateBacked(m: Memory, p3: nat, root: u64, leaves: seq<u64>, phase: seq<Phase>, va: nat)
    requires TreeAt(m, p3, root, leaves) && EntriesAt(m, leaves, phase) && Backed(phase, va)
    ensures Translate(m, p3, va) == phase[PageNumber(va)].frame + va % PAGE
  {
    WalkReachesEntry(m, p3, root, leaves, va);
    assert Shows(Word(m, EntryAt(leaves, PageNumber(va))), phase[PageNumber(va)]);
  }

  lemma TranslateAtWord(frame: nat, va: nat)
    requires Aligned(frame) && AtWord(va)
    ensures AtWord(frame + va % PAGE)
  {
    var q := va / 8;
    assert va % PAGE == 8 * (q % 512);
    PageWord(frame, q % 512);
  }

  /** The three entries that the hardware meets on its way to a backed word are present, writable and
      open to the user, and have no bit set but these and the address: none that is reserved. */
  lemma HardwareCanWalk(m: Memory, p3: nat, root: u64, leaves: seq<u64>, phase: seq<Phase>, owner: map<u64, Owner>,
                        free: seq<u64>, va: nat)
    requires TreeAt(m, p3, root, leaves) && EntriesAt(m, leaves, phase) && Owned(owner, free, root, leaves, phase)
    requires Backed(phase, va)
    ensures var n := PageNumber(va);
            && FlagsOnly(Word(m, p3 + 8)) && FlagsOnly(Word(m, root + 8 * (n / 512)))
            && FlagsOnly(Word(m, leaves[n / 512] + 8 * (n % 512)))
  {
    hide Decode, FlagsOnly, Represents, AtWord, InHeapRange, Addressable;
    var n := PageNumber(va);
    assert Shows(Word(m, EntryAt(leaves, n)), phase[n]) && Links(Word(m, root + 8 * (n / 512)), leaves[n / 512]);
    assert Addressable(root) && Addressable(leaves[n / 512]) && Addressable(phase[n].frame);
    hide Owned, TreeAt, EntriesAt, PageNumber;
    LinkFlags(root);
    LinkFlags(leaves[n / 512]);
    LinkFlags(phase[n].frame);
  }

  lemma LinkFlags(f: u64)
    requires Addressable(f)
    ensures f + 7 < 0x1_0000_0000_0000_0000 && FlagsOnly(f + 7)
  {
  }

  predicate FlagsOnly(w: u64) {
    w % 4096 == 7 && w < 0x10_0000_0000_0000
  }

  /** No two virtual addresses share a physical one: virtual memory is memory. */
  lemma TranslationIsInjective(m: Memory, p3: nat, f: FreePages, free: seq<u64>, root: u64, leaves: seq<u64>,
                               phase: seq<Phase>, owner: map<u64, Owner>, va: nat, vb: nat)
    requires Consistent(m, p3, f, free, root, leaves, phase, owner)
    requires Backed(phase, va) && Backed(phase, vb) && va != vb
    ensures Translate(m, p3, va) != Translate(m, p3, vb)
  {
    TranslateBacked(m, p3, root, leaves, phase, va);
    TranslateBacked(m, p3, root, leaves, phase, vb);
    UsesDiffer(owner, free, root, leaves, phase, p3);
    MappedFramesDiffer(owner, free, root, leaves, phase);
    var a, b := PageNumber(va), PageNumber(vb);
    assert a in Mapped(phase) && b in Mapped(phase);
    hide Owned, TreeAt, EntriesAt, Represents;
    if Translate(m, p3, va) == Translate(m, p3, vb) {
      PagesApart(phase[a].frame, phase[b].frame, va % PAGE, vb % PAGE);
      SamePage(va, vb);
    }
  }

  /** A write to one page goes unnoticed by a virtual page that is backed by another. */
  lemma ViewKept(m: Memory, m': Memory, page: nat, p3: nat, root: u64, leaves: seq<u64>,
                 phase: seq<Phase>, phase': seq<Phase>, va: nat)
    requires TreeAt(m, p3, root, leaves) && EntriesAt(m, leaves, phase)
    requires TreeAt(m', p3, root, leaves) && EntriesAt(m', leaves, phase')
    requires |phase| == PAGES && |phase'| == PAGES
    requires Backed(phase, va) && phase'[PageNumber(va)] == phase[PageNumber(va)]
    requires SameOutside(m, m', page) && Aligned(page) && page != phase[PageNumber(va)].frame
    requires Aligned(phase[PageNumber(va)].frame)
    ensures Word(m', Translate(m', p3, va)) == Word(m, Translate(m, p3, va))
  {
    hide TreeAt, EntriesAt, Translate, SameOutside, Aligned, PageNumber, InHeapRange, AtWord;
    TranslateBacked(m, p3, root, leaves, phase, va);
    TranslateBacked(m', p3, root, leaves, phase', va);
    OutsideOther(m, m', page, phase[PageNumber(va)].frame, va % PAGE);
  }

  /** The entry of one page can change without any other page noticing. */
  lemma EntryWriteKeepsView(m: Memory, m': Memory, p3: nat, f: FreePages, free: seq<u64>, root: u64, leaves: seq<u64>,
                            phase: seq<Phase>, owner: map<u64, Owner>, n: nat, w: u64, ph: Phase, va: nat)
    requires Consistent(m, p3, f, free, root, leaves, phase, owner)
    requires n < PAGES && Shows(w, ph) && Backed(phase, va) && PageNumber(va) != n
    requires m' == m[EntryAt(leaves, n) := w]
    ensures Word(m', Translate(m', p3, va)) == Word(m, Translate(m, p3, va))
  {
    EntryWritten(m, p3, f, free, root, leaves, phase, owner, n, w, ph);
    UsesDiffer(owner, free, root, leaves, phase, p3);
    hide Owned, Represents, TreeAt, EntriesAt, Translate, Decode, Shows;
    assert SameOutside(m, m', leaves[n / 512]);
    ViewKept(m, m', leaves[n / 512], p3, root, leaves, phase, phase[n := ph], va);
  }

  /** Freeing one page writes a link and an entry; all other pages go on unnoticed. */
  lemma ReleaseKeepsView(m: Memory, m': Memory, p3: nat, f: FreePages, free: seq<u64>, root: u64, leaves: seq<u64>,
                         phase: seq<Phase>, owner: map<u64, Owner>, n: nat, w: u64, va: nat)
    requires Consistent(m, p3, f, free, root, leaves, phase, owner) && free != []
    requires n < PAGES && phase[n].Present? && Shows(w, Freed) && Backed(phase, va) && PageNumber(va) != n
    requires m' == m[f.tail := phase[n].frame][EntryAt(leaves, n) := w]
    ensures Word(m', Translate(m', p3, va)) == Word(m, Translate(m, p3, va))
  {
    hide Owned, Represents, TreeAt, EntriesAt, Translate, Decode, Shows, SameOutside, PageNumber, InHeapRange, AtWord;
    hide Aligned, Distinct;
    UsesDiffer(owner, free, root, leaves, phase, p3);
    var m1 := m[f.tail := phase[n].frame];
    TailIsFree(m, f, free);
    OnePageWritten(m, f.tail, f.tail, phase[n].frame);
    OnePageWritten(m1, leaves[n / 512], EntryAt(leaves, n), w);
    TreeKept(m, m1, f.tail, p3, root, leaves);
    EntriesKept(m, m1, f.tail, leaves, phase);
    ViewKept(m, m1, f.tail, p3, root, leaves, phase, phase, va);
    TreeKept(m1, m', leaves[n / 512], p3, root, leaves);
    EntryChanged(m1, leaves, phase, n, w, Freed);
    ViewKept(m1, m', leaves[n / 512], p3, root, leaves, phase, phase[n := Freed], va);
  }

  // ---------------------------------------------------------------- building the tree

  ghost predicate LeafClear(m: Memory, leaf: u64, k: nat) {
    forall j :: 0 <= j < k ==> Shows(Word(m, leaf + 8 * j), Untouched)
  }

  /** The root is linked, and so are the first k leaves, all clear. `boot` lists the frames in the
      order in which they are taken: the root first, then the leaves. */
  ghost predicate Built(m: Memory, p3: nat, boot: seq<u64>, k: nat) {
    && k <= 512 && k < |boot| && Links(Word(m, p3 + 8), boot[0])
    && (forall i :: 0 < i <= k ==> Links(Word(m, boot[0] + 8 * (i - 1)), boot[i]) && LeafClear(m, boot[i], 512))
  }

  ghost predicate BootFrames(boot: seq<u64>, p3: nat) {
    && 513 <= |boot| && Distinct(boot) && Aligned(p3) && p3 !in boot
    && forall i :: 0 <= i < |boot| ==> IsFrame(boot[i]) && Addressable(boot[i])
  }

  lemma LeafKept(m: Memory, m': Memory, page: nat, leaf: u64)
    requires LeafClear(m, leaf, 512) && SameOutside(m, m', page) && Aligned(page) && Aligned(leaf) && page != leaf
    ensures LeafClear(m', leaf, 512)
  {
    hide Decode, Shows;
    forall j | 0 <= j < 512 ensures Shows(Word(m', leaf + 8 * j), Untouched) {
      OutsideOther(m, m', page, leaf, 8 * j);
    }
  }

  lemma BuiltKept(m: Memory, m': Memory, page: nat, p3: nat, boot: seq<u64>, k: nat)
    requires Built(m, p3, boot, k) && BootFrames(boot, p3) && SameOutside(m, m', page) && Aligned(page)
    requires page != p3 && page !in boot[..1 + k]
    ensures Built(m', p3, boot, k)
  {
    hide LeafClear, Decode;
    OutsideOther(m, m', page, p3, 8);
    assert boot[..1 + k][0] == boot[0] && Aligned(boot[0]);
    forall i | 0 < i <= k
      ensures Links(Word(m', boot[0] + 8 * (i - 1)), boot[i]) && LeafClear(m', boot[i], 512)
    {
      assert boot[..1 + k][i] == boot[i];
      OutsideOther(m, m', page, boot[0], 8 * (i - 1));
      LeafKept(m, m', page, boot[i]);
    }
  }

  /** Linking one more clear leaf into the root. */
  lemma BuiltNext(m: Memory, p3: nat, boot: seq<u64>, k: nat, w: u64)
    requires Built(m, p3, boot, k) && BootFrames(boot, p3) && k < 512
    requires LeafClear(m, boot[1 + k], 512) && Links(w, boot[1 + k])
    ensures Built(m[boot[0] + 8 * k := w], p3, boot, k + 1)
  {
    hide LeafClear, Decode;
    var m' := m[boot[0] + 8 * k := w];
    assert SameOutside(m, m', boot[0]) && Aligned(boot[0]);
    OutsideOther(m, m', boot[0], p3, 8);
    forall i | 0 < i <= k + 1 ensures LeafClear(m', boot[i], 512) {
      LeafKept(m, m', boot[0], boot[i]);
    }
  }

  ghost function IndexOf(s: seq<u64>, x: u64): (k: nat)
    requires x in s
    ensures k < |s| && s[k] == x
  {
    var k :| 0 <= k < |s| && s[k] == x; k
  }

  /** Who owns the frames when the tree is built. */
  ghost function FirstOwners(boot: seq<u64>): map<u64, Owner> {
    map f | f in boot :: FirstUse(IndexOf(boot, f))
  }

  function FirstUse(k: nat): Owner {
    if k == 0 then Root else if k <= 512 then Leaf(k - 1) else Free
  }

  lemma FirstOwnersAt(boot: seq<u64>)
    requires Distinct(boot)
    ensures forall k :: 0 <= k < |boot| ==> boot[k] in FirstOwners(boot) && FirstOwners(boot)[boot[k]] == FirstUse(k)
  {
  }

  lemma BuiltIsConsistent(m: Memory, p3: nat, boot: seq<u64>, f: FreePages)
    requires Built(m, p3, boot, 512) && BootFrames(boot, p3) && Represents(m, f, boot[513..])
    ensures Consistent(m, p3, f, boot[513..], boot[0], boot[1..513], seq(PAGES, _ => Untouched), FirstOwners(boot))
    ensures |FirstOwners(boot)| == |boot|
  {
    hide LeafClear, Represents, Owned, FirstUse;
    var leaves, phase, owner, free := boot[1..513], seq(PAGES, _ => Untouched), FirstOwners(boot), boot[513..];
    BuiltEntries(m, p3, boot, phase);
    assert forall k :: 0 <= k < |boot| ==> IndexOf(boot, boot[k]) == k;
    FirstOwnersOwn(boot, p3);
    DistinctSize(boot);
    assert owner.Keys == set g | g in boot;
    assert |owner| == |owner.Keys|;
  }

  lemma BuiltEntries(m: Memory, p3: nat, boot: seq<u64>, phase: seq<Phase>)
    requires Built(m, p3, boot, 512) && |boot| >= 513
    requires |phase| == PAGES && forall n :: 0 <= n < PAGES ==> phase[n] == Untouched
    ensures EntriesAt(m, boot[1..513], phase)
  {
    hide Decode, Shows;
    forall n | 0 <= n < PAGES ensures Shows(Word(m, EntryAt(boot[1..513], n)), Untouched) {
      assert LeafClear(m, boot[1 + n / 512], 512);
    }
  }

  lemma FirstOwnersOwn(boot: seq<u64>, p3: nat)
    requires BootFrames(boot, p3)
    ensures Owned(FirstOwners(boot), boot[513..], boot[0], boot[1..513], seq(PAGES, _ => Untouched))
  {
    var owner, free, leaves := FirstOwners(boot), boot[513..], boot[1..513];
    FirstOwnersAt(boot);
    FirstOwnersIndexed(boot, p3);
    assert forall i :: 0 <= i < 512 ==> leaves[i] == boot[1 + i];
    hide FirstOwners, BootFrames;
    forall f | f in free ensures f in owner && owner[f].Free? {
      var i :| 0 <= i < |free| && free[i] == f;
      assert boot[513 + i] == f;
    }
    assert Distinct(free) by { SuffixDistinct(boot, 513); }
  }

  lemma SuffixDistinct(s: seq<u64>, n: nat)
    requires n <= |s| && Distinct(s)
    ensures Distinct(s[n..])
  {
  }

  lemma FirstOwnersIndexed(boot: seq<u64>, p3: nat)
    requires BootFrames(boot, p3)
    ensures var owner, free, leaves := FirstOwners(boot), boot[513..], boot[1..513];
            forall f :: f in owner ==>
              && IsFrame(f) && Addressable(f) && (owner[f].Root? <==> f == boot[0])
              && (owner[f].Leaf? ==> owner[f].index < 512 && leaves[owner[f].index] == f)
              && !owner[f].Page? && (owner[f].Free? ==> f in free)
  {
    var owner, free, leaves := FirstOwners(boot), boot[513..], boot[1..513];
    FirstOwnersAt(boot);
    forall f | f in owner
      ensures IsFrame(f) && Addressable(f) && (owner[f].Root? <==> f == boot[0])
      ensures owner[f].Leaf? ==> owner[f].index < 512 && leaves[owner[f].index] == f
      ensures !owner[f].Page? && (owner[f].Free? ==> f in free)
    {
      var k := IndexOf(boot, f);
      hide FirstOwners;
      assert owner[f] == FirstUse(k);
      if k >= 513 { assert free[k - 513] == f; }
    }
  }
}
