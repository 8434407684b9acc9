/** Virtual addresses and the three-digit counter that hands out virtual pages. */
module PageNumbers {
  import opened Words

  type u16 = x: int | 0 <= x < 0x1_0000

  /** Start of the virtual addresses that are handed out; the number of pages behind it. */
  const BASE: nat := 0x4000_0000
  const PAGES: nat := 512 * 512

  // ---------------------------------------------------------------- virtual addresses

  /** The bit fields of a virtual address, lowest first. */
  datatype VirtualAddress = VirtualAddress(offset: nat, pml1: nat, pml2: nat, pml3: nat, pml4: nat, signExt: nat) {
    predicate Fits() {
      offset < 4096 && pml1 < 512 && pml2 < 512 && pml3 < 512 && pml4 < 512 && signExt < 65536
    }

    /** The fields read as one 64-bit integer. */
    function AsInt(): (a: u64)
      requires Fits()
    {
      offset + 0x1000 * pml1 + 0x20_0000 * pml2 + 0x4000_0000 * pml3 + 0x80_0000_0000 * pml4 + 0x1_0000_0000_0000 * signExt
    }
  }

  // The index fields as the page walk extracts them, by shift and mask.
  function Pml3Index(a: nat): nat { a / 0x4000_0000 % 512 }
  function Pml2Index(a: nat): nat { a / 0x20_0000 % 512 }
  function Pml1Index(a: nat): nat { a / 0x1000 % 512 }

  /** What was packed into the bit fields is what the walk extracts. */
  lemma UnpackPacked(v: VirtualAddress)
    requires v.Fits()
    ensures var a := v.AsInt();
            && a % PAGE == v.offset && Pml1Index(a) == v.pml1 && Pml2Index(a) == v.pml2 && Pml3Index(a) == v.pml3
  {
    var above3 := v.pml4 + 512 * v.signExt;
    var above2 := v.pml3 + 512 * above3;
    var above1 := v.pml2 + 512 * above2;
    Digit1(v.offset, v.pml1, above1);
    Digit2(v.offset + 0x1000 * v.pml1, v.pml2, above2);
    Digit3(v.offset + 0x1000 * v.pml1 + 0x20_0000 * v.pml2, v.pml3, above3);
  }

  lemma Digit1(low: nat, digit: nat, above: nat)
    requires low < 0x1000 && digit < 512
    ensures var a := low + 0x1000 * digit + 0x20_0000 * above; a % PAGE == low && Pml1Index(a) == digit
  {
    assert (low + 0x1000 * digit + 0x20_0000 * above) / 0x1000 == digit + 512 * above;
  }

  lemma Digit2(low: nat, digit: nat, above: nat)
    requires low < 0x20_0000 && digit < 512
    ensures Pml2Index(low + 0x20_0000 * digit + 0x4000_0000 * above) == digit
  {
    assert (low + 0x20_0000 * digit + 0x4000_0000 * above) / 0x20_0000 == digit + 512 * above;
  }

  lemma Digit3(low: nat, digit: nat, above: nat)
    requires low < 0x4000_0000 && digit < 512
    ensures Pml3Index(low + 0x4000_0000 * digit + 0x80_0000_0000 * above) == digit
  {
    assert (low + 0x4000_0000 * digit + 0x80_0000_0000 * above) / 0x4000_0000 == digit + 512 * above;
  }

  /** Address of the n-th page. */
  function PageAddress(n: nat): nat {
    BASE + PAGE * n
  }

  predicate InHeapRange(a: nat) {
    BASE <= a < BASE + PAGE * PAGES
  }

  /** Number of the page an address lies in. */
  function PageNumber(a: nat): (n: nat)
    requires InHeapRange(a)
    ensures n < PAGES && PageAddress(n) <= a < PageAddress(n) + PAGE
  {
    (a - BASE) / PAGE
  }

  lemma PageNumberIs(a: nat, n: nat)
    requires n < PAGES && PageAddress(n) <= a < PageAddress(n) + PAGE
    ensures InHeapRange(a) && PageNumber(a) == n
  {
  }

  /** The two lower index fields are the digits of the page number; the third is 1. */
  lemma IndexesAreDigits(a: nat)
    requires InHeapRange(a)
    ensures Pml3Index(a) == 1 && Pml2Index(a) == PageNumber(a) / 512 && Pml1Index(a) == PageNumber(a) % 512
  {
    var n, off := PageNumber(a), a - PageAddress(PageNumber(a));
    var v := VirtualAddress(off, n % 512, n / 512, 1, 0, 0);
    assert v.AsInt() == a;
    UnpackPacked(v);
  }

  // ---------------------------------------------------------------- the counter

  /** The counter must not reach this number, or its 16-bit high digit would wrap. */
  const LAST_COUNT: nat := PAGES * 0xFFFE

  class PageCounter {
    var pml1: u16
    var pml2: u16
    var pml3: u16

    ghost predicate Valid()
      reads this
    {
      pml1 < 512 && pml2 < 512 && 1 <= pml3
    }

    /** How many pages were asked for: the three indexes read as one number. */
    ghost function Count(): nat
      requires Valid()
      reads this
    {
      pml1 + 512 * pml2 + PAGES * (pml3 - 1)
    }

    lemma CountBoundsDigit()
      requires Valid() && Count() < LAST_COUNT
      ensures 0 <= Count() && pml3 < 0xFFFF
    {
    }

    constructor ()
      ensures Valid() && Count() == 0
    {
      pml1, pml2, pml3 := 0, 0, 1;
    }

    /** The k-th call returns the k-th page, and null from the last page on. */
    method Next() returns (address: u64)
      requires Valid() && Count() < LAST_COUNT
      modifies this
      ensures Valid() && Count() == old(Count()) + 1
      ensures address == if Count() < 262144 then 0x4000_0000 + 4096 * Count() else 0
    {
      CountBoundsDigit();
      pml1 := pml1 + 1;
      if pml1 >= 512 {
        pml1 := 0;
        pml2 := pml2 + 1;
      }
      if pml2 >= 512 {
        pml2 := 0;
        pml3 := pml3 + 1;
      }
      if pml3 > 1 {
        return 0;
      }
      return VirtualAddress(0, pml1, pml2, pml3, 0, 0).AsInt();
    }
  }
}
