/** Machine words, pages and the word-addressed physical memory shared by every layer. */
module Words {

  datatype Option<+T> = None | Some(value: T)

  const PAGE: nat := 4096
  const U32: nat := 0x1_0000_0000
  const U64: nat := 0x1_0000_0000_0000_0000

  type u32 = x: int | 0 <= x < 0x1_0000_0000
  type u64 = x: int | 0 <= x < 0x1_0000_0000_0000_0000

  /** The 8-byte words of memory, keyed by their byte address, a multiple of 8; a word that is not a
      key holds 0. */
  type Memory = map<nat, u64>

  /** Addresses at which a word starts. Words at other addresses would overlap two of these. */
  predicate AtWord(a: nat) {
    a % 8 == 0
  }

  function Word(m: Memory, a: nat): u64 {
    if a in m then m[a] else 0
  }

  /** Physical memory: one object that the frame list, the page tables and every mapping write to. */
  class Ram {
    var words: Memory

    constructor (contents: Memory)
      ensures words == contents
    {
      words := contents;
    }

    method Store(a: nat, v: u64)
      requires AtWord(a)
      modifies this
      ensures words == old(words)[a := v]
    {
      words := words[a := v];
    }
  }

  const INT_END: nat := 0x8000_0000

  /** A 32-bit word read as a signed number. */
  function Signed(x: u32): int {
    if x < INT_END then x else x - U32
  }

  predicate Aligned(a: nat) {
    a % PAGE == 0
  }

  lemma AlignedGap(p: nat, q: nat)
    requires Aligned(p) && Aligned(q) && p < q
    ensures p + PAGE <= q
  {
  }

  /** Words of a page. */
  lemma PageWord(page: nat, j: nat)
    requires Aligned(page)
    ensures AtWord(page + 8 * j)
  {
    assert page == 8 * (512 * (page / PAGE));
  }

  lemma NextWord(a: nat)
    requires AtWord(a)
    ensures AtWord(a + 8)
  {
  }

  /** Words of different pages are different. */
  lemma PagesApart(f: nat, g: nat, i: nat, j: nat)
    requires Aligned(f) && Aligned(g) && i < PAGE && j < PAGE && f + i == g + j
    ensures f == g && i == j
  {
    if f < g { AlignedGap(f, g); }
    if g < f { AlignedGap(g, f); }
  }

  /** A physical page that can stand on the free list: aligned, and not the null address. */
  predicate IsFrame(f: nat) {
    Aligned(f) && f != 0
  }

  lemma FrameWord(f: nat)
    requires IsFrame(f)
    ensures AtWord(f)
  {
    PageWord(f, 0);
  }

  ghost predicate Distinct<T>(s: seq<T>) {
    forall i, j :: 0 <= i < j < |s| ==> s[i] != s[j]
  }

  lemma {:induction false} DistinctSize<T>(s: seq<T>)
    requires Distinct(s)
    ensures |set x | x in s| == |s|
  {
    if s == [] {
      assert (set x | x in s) == {};
    } else {
      var init, last := s[..|s| - 1], s[|s| - 1];
      DistinctSize(init);
      assert s == init + [last];
      assert last !in init;
      assert (set x | x in s) == (set x | x in init) + {last};
    }
  }
}
