/** Page-table entries: 64-bit words with flag bits and a frame address (section 4.5 of the Intel
    SDM, volume 3A), and the bitwise operations the source applies to them. */
module Entries {
  import opened Words

  const PRESENT: nat := 0
  const WRITABLE: nat := 1
  const USER: nat := 2
  const ALLOCATABLE: nat := 52
  const ADDRESS_MASK: u64 := 0xFFFFFFFFFF000

  // ---------------------------------------------------------------- bitwise operators on words

  function Pow2(n: nat): (r: nat)
    ensures 0 < r
  {
    if n == 0 then 1 else 2 * Pow2(n - 1)
  }

  predicate Bit(w: nat, i: nat) {
    if i == 0 then w % 2 == 1 else Bit(w / 2, i - 1)
  }

  function Or(a: nat, b: nat): nat {
    if a == 0 && b == 0 then 0
    else 2 * Or(a / 2, b / 2) + (if a % 2 == 1 || b % 2 == 1 then 1 else 0)
  }

  function And(a: nat, b: nat): nat {
    if a == 0 || b == 0 then 0
    else 2 * And(a / 2, b / 2) + (if a % 2 == 1 && b % 2 == 1 then 1 else 0)
  }

  /** The 64-bit complement. */
  function Not(a: u64): u64 {
    U64 - 1 - a
  }

  lemma {:induction false} OrBit(a: nat, b: nat, i: nat)
    ensures Bit(Or(a, b), i) <==> Bit(a, i) || Bit(b, i)
    decreases i
  {
    if a == 0 && b == 0 {
      ZeroBit(i);
    } else if i > 0 {
      OrBit(a / 2, b / 2, i - 1);
    }
  }

  lemma {:induction false} AndBit(a: nat, b: nat, i: nat)
    ensures Bit(And(a, b), i) <==> Bit(a, i) && Bit(b, i)
    decreases i
  {
    if a == 0 || b == 0 {
      ZeroBit(i);
    } else if i > 0 {
      AndBit(a / 2, b / 2, i - 1);
    }
  }

  lemma {:induction false} ZeroBit(i: nat)
    ensures !Bit(0, i)
  {
    if i > 0 { ZeroBit(i - 1); }
  }

  lemma {:induction false} NotBit(a: nat, n: nat, i: nat)
    requires a < Pow2(n) && i < n
    ensures Bit(Pow2(n) - 1 - a, i) <==> !Bit(a, i)
    decreases i
  {
    if i > 0 {
      assert (Pow2(n) - 1 - a) / 2 == Pow2(n - 1) - 1 - a / 2;
      NotBit(a / 2, n - 1, i - 1);
    }
  }

  /** Words below 2^n have no bit from n on. */
  lemma {:induction false} HighBits(w: nat, n: nat, i: nat)
    requires w < Pow2(n) && n <= i
    ensures !Bit(w, i)
    decreases i
  {
    if n == 0 {
      ZeroBit(i);
    } else {
      HighBits(w / 2, n - 1, i - 1);
    }
  }

  /** Multiplying by 2^k moves every bit up by k places. */
  lemma {:induction false} ShiftBit(q: nat, k: nat, i: nat)
    ensures Bit(q * Pow2(k), i) <==> k <= i && Bit(q, i - k)
    decreases k
  {
    if k > 0 {
      assert q * Pow2(k) == 2 * (q * Pow2(k - 1));
      if i > 0 { ShiftBit(q, k - 1, i - 1); }
    }
  }

  lemma {:induction false} OnesBit(n: nat, i: nat)
    ensures Bit(Pow2(n) - 1, i) <==> i < n
    decreases n
  {
    if n == 0 {
      ZeroBit(i);
    } else {
      assert (Pow2(n) - 1) / 2 == Pow2(n - 1) - 1;
      if i > 0 { OnesBit(n - 1, i - 1); }
    }
  }

  /** Words are equal when their bits are. */
  lemma {:induction false} SameBits(a: nat, b: nat)
    requires forall i :: Bit(a, i) == Bit(b, i)
    ensures a == b
    decreases a + b
  {
    assert Bit(a, 0) == Bit(b, 0);
    if a != 0 || b != 0 {
      forall i: nat ensures Bit(a / 2, i) == Bit(b / 2, i) {
        assert Bit(a, i + 1) == Bit(b, i + 1);
      }
      SameBits(a / 2, b / 2);
    }
  }

  lemma {:induction false} OrBelow(a: nat, b: nat, n: nat)
    requires a < Pow2(n) && b < Pow2(n)
    ensures Or(a, b) < Pow2(n)
    decreases n
  {
    if n > 0 { OrBelow(a / 2, b / 2, n - 1); }
  }

  lemma {:induction false} AndBelow(a: nat, b: nat)
    ensures And(a, b) <= a
  {
    if a != 0 && b != 0 { AndBelow(a / 2, b / 2); }
  }

  lemma {:induction false} Pow2Grows(i: nat, n: nat)
    requires i < n
    ensures Pow2(i) < Pow2(n)
    decreases n
  {
    if i < n - 1 { Pow2Grows(i, n - 1); }
  }

  lemma {:induction false} Pow2Sum(a: nat, b: nat)
    ensures Pow2(a + b) == Pow2(a) * Pow2(b)
    decreases a
  {
    if a > 0 { Pow2Sum(a - 1, b); }
  }

  lemma Pow2Known(a: nat, x: nat, b: nat, y: nat)
    requires Pow2(a) == x && Pow2(b) == y
    ensures Pow2(a + b) == x * y
  {
    Pow2Sum(a, b);
  }

  lemma Pow2Values()
    ensures Pow2(12) == 4096 && Pow2(40) == 0x100_0000_0000
    ensures Pow2(52) == 0x10_0000_0000_0000 && Pow2(64) == U64
  {
    assert Pow2(1) == 2 && Pow2(2) == 4;
    hide Pow2;
    Pow2Known(2, 4, 2, 4);
    Pow2Known(4, 16, 4, 16);
    Pow2Known(8, 256, 4, 16);
    Pow2Known(8, 256, 8, 256);
    Pow2Known(16, 0x1_0000, 16, 0x1_0000);
    Pow2Known(32, U32, 8, 256);
    Pow2Known(40, 0x100_0000_0000, 12, 4096);
    Pow2Known(32, U32, 32, U32);
  }

  // ---------------------------------------------------------------- operations on entries

  /** Sets or clears one bit. */
  function ModifyBit(w: u64, i: nat, val: bool): u64
    requires i < 64
  {
    Pow2Values();
    Pow2Grows(i, 64);
    if val then OrBelow(w, Pow2(i), 64); Or(w, Pow2(i))
    else AndBelow(w, Not(Pow2(i))); And(w, Not(Pow2(i)))
  }

  /** Bits 12 to 51 of an address, or'ed into the entry. */
  function SetAdd(w: u64, add: u64): u64 {
    Pow2Values();
    AndBelow(add, ADDRESS_MASK);
    OrBelow(w, And(add, ADDRESS_MASK), 64);
    Or(w, And(add, ADDRESS_MASK))
  }

  function GetAdd(w: u64): u64 {
    AndBelow(ADDRESS_MASK, w);
    And(ADDRESS_MASK, w)
  }

  lemma {:induction false} ModifiedBit(w: u64, i: nat, val: bool, j: nat)
    requires i < 64 && j < 64
    ensures Bit(ModifyBit(w, i, val), j) <==> if i == j then val else Bit(w, j)
  {
    hide Bit, Or, And, Pow2;
    Pow2Grows(i, 64);
    Pow2Values();
    ShiftBit(1, i, j);
    assert Pow2(i) == 1 * Pow2(i);
    OneBit(j - i);
    OrBit(w, Pow2(i), j);
    NotBit(Pow2(i), 64, j);
    AndBit(w, Not(Pow2(i)), j);
  }

  /** Or'ing numbers that share no bit adds them. */
  lemma {:induction false} OrAdds(a: nat, b: nat)
    requires forall j :: !(Bit(a, j) && Bit(b, j))
    ensures Or(a, b) == a + b
    decreases a + b
  {
    if a != 0 || b != 0 {
      assert !(Bit(a, 0) && Bit(b, 0));
      forall j: nat ensures !(Bit(a / 2, j) && Bit(b / 2, j)) {
        assert !(Bit(a, j + 1) && Bit(b, j + 1));
      }
      OrAdds(a / 2, b / 2);
    }
  }

  lemma {:induction false} PowerBit(i: nat, j: nat)
    ensures Bit(Pow2(i), j) <==> i == j
  {
    ShiftBit(1, i, j);
    assert Pow2(i) == 1 * Pow2(i);
    OneBit(j - i);
  }

  /** What changing a bit does to the number. */
  lemma {:induction false} ModifiedWord(w: u64, i: nat, val: bool)
    requires i < 64
    ensures ModifyBit(w, i, val) == w - (if Bit(w, i) then Pow2(i) else 0) + (if val then Pow2(i) else 0)
  {
    var v := ModifyBit(w, i, false);
    forall j ensures !(Bit(v, j) && Bit(Pow2(i), j)) {
      PowerBit(i, j);
      if j < 64 { ModifiedBit(w, i, false, j); }
    }
    OrAdds(v, Pow2(i));
    forall j: nat ensures Bit(Or(v, Pow2(i)), j) == Bit(Or(w, Pow2(i)), j) {
      OrBit(v, Pow2(i), j);
      OrBit(w, Pow2(i), j);
      PowerBit(i, j);
      BitAfter(w, i, false, j);
    }
    SameBits(Or(v, Pow2(i)), Or(w, Pow2(i)));
    forall j: nat ensures Bit(if Bit(w, i) then Or(w, Pow2(i)) else v, j) == Bit(w, j) {
      OrBit(w, Pow2(i), j);
      PowerBit(i, j);
      BitAfter(w, i, false, j);
    }
    SameBits(if Bit(w, i) then Or(w, Pow2(i)) else v, w);
  }

  lemma {:induction false} BitAfter(w: u64, i: nat, val: bool, j: nat)
    requires i < 64
    ensures Bit(ModifyBit(w, i, val), j) <==> if i == j then val else Bit(w, j)
  {
    if j < 64 {
      ModifiedBit(w, i, val, j);
    } else {
      Pow2Values();
      HighBits(w, 64, j);
      HighBits(ModifyBit(w, i, val), 64, j);
    }
  }

  lemma {:induction false} OneBit(k: int)
    ensures 0 <= k ==> (Bit(1, k) <==> k == 0)
  {
    if 0 < k { ZeroBit(k - 1); }
  }

  lemma {:induction false} MaskBit(i: nat)
    ensures Bit(ADDRESS_MASK, i) <==> 12 <= i < 52
  {
    Pow2Values();
    assert ADDRESS_MASK == (Pow2(40) - 1) * Pow2(12);
    ShiftBit(Pow2(40) - 1, 12, i);
    if 12 <= i { OnesBit(40, i - 12); }
  }

  /** Addresses that fit the address field: those of page frames below 2^52. */
  predicate Addressable(f: nat) {
    Aligned(f) && f < 0x10_0000_0000_0000
  }

  lemma {:induction false} AddressableBit(f: nat, i: nat)
    requires Addressable(f) && Bit(f, i)
    ensures 12 <= i < 52
  {
    Pow2Values();
    assert f == (f / 4096) * Pow2(12);
    ShiftBit(f / 4096, 12, i);
    if 52 <= i { HighBits(f, 52, i); }
  }

  /** The fields of an entry that the kernel uses. */
  datatype Entry = Entry(present: bool, writable: bool, user: bool, allocatable: bool, frame: u64)

  function Decode(w: u64): Entry {
    Entry(Bit(w, PRESENT), Bit(w, WRITABLE), Bit(w, USER), Bit(w, ALLOCATABLE), GetAdd(w))
  }

  /** Changing a bit outside the address field leaves the address alone. */
  lemma AddressKept(w: u64, i: nat, val: bool)
    requires i < 64 && !(12 <= i < 52)
    ensures GetAdd(ModifyBit(w, i, val)) == GetAdd(w)
  {
    var v := ModifyBit(w, i, val);
    forall j: nat ensures Bit(GetAdd(v), j) == Bit(GetAdd(w), j) {
      MaskBit(j);
      AndBit(ADDRESS_MASK, v, j);
      AndBit(ADDRESS_MASK, w, j);
      if j < 64 { ModifiedBit(w, i, val, j); }
    }
    SameBits(GetAdd(v), GetAdd(w));
  }

  /** Setting one flag changes that field of the entry and no other. */
  lemma FlagSet(w: u64, i: nat, val: bool)
    requires i in {PRESENT, WRITABLE, USER, ALLOCATABLE}
    ensures var d := Decode(w);
            Decode(ModifyBit(w, i, val)) ==
              Entry(if i == PRESENT then val else d.present, if i == WRITABLE then val else d.writable,
                    if i == USER then val else d.user, if i == ALLOCATABLE then val else d.allocatable, d.frame)
  {
    hide ModifyBit, Bit, GetAdd;
    AddressKept(w, i, val);
    ModifiedBit(w, i, val, PRESENT);
    ModifiedBit(w, i, val, WRITABLE);
    ModifiedBit(w, i, val, USER);
    ModifiedBit(w, i, val, ALLOCATABLE);
  }

  lemma {:induction false} SetAddBit(w: u64, f: u64, j: nat)
    ensures Bit(SetAdd(w, f), j) <==> Bit(w, j) || (Bit(f, j) && 12 <= j < 52)
  {
    OrBit(w, And(f, ADDRESS_MASK), j);
    AndBit(f, ADDRESS_MASK, j);
    MaskBit(j);
  }

  /** Setting an address or's its bits 12 to 51 into the address that is there; no flag changes. */
  lemma AddressOred(w: u64, f: u64)
    ensures Decode(SetAdd(w, f)) == Decode(w).(frame := SetAdd(Decode(w).frame, f))
  {
    hide SetAdd;
    var v, a := SetAdd(w, f), SetAdd(GetAdd(w), f);
    forall j: nat ensures Bit(GetAdd(v), j) == Bit(a, j) {
      MaskBit(j);
      SetAddBit(w, f, j);
      SetAddBit(GetAdd(w), f, j);
      AndBit(ADDRESS_MASK, v, j);
      AndBit(ADDRESS_MASK, w, j);
    }
    SameBits(GetAdd(v), a);
    forall j: nat | !(12 <= j < 52) ensures Bit(v, j) == Bit(w, j) {
      SetAddBit(w, f, j);
    }
  }

  lemma AddressAlone(f: u64)
    requires Addressable(f)
    ensures SetAdd(0, f) == f
  {
    hide SetAdd;
    forall j: nat ensures Bit(SetAdd(0, f), j) == Bit(f, j) {
      SetAddBit(0, f, j);
      ZeroBit(j);
      if Bit(f, j) { AddressableBit(f, j); }
    }
    SameBits(SetAdd(0, f), f);
  }

  /** Setting the address of an entry whose address field is clear: reading it back gives the same
      frame, and no flag changes. */
  lemma AddressSet(w: u64, f: u64)
    requires Addressable(f) && Decode(w).frame == 0
    ensures Decode(SetAdd(w, f)) == Decode(w).(frame := f)
  {
    hide SetAdd;
    AddressOred(w, f);
    AddressAlone(f);
  }

  lemma ClearEntry()
    ensures Decode(0) == Entry(false, false, false, false, 0)
  {
    ZeroBit(PRESENT);
    ZeroBit(WRITABLE);
    ZeroBit(USER);
    ZeroBit(ALLOCATABLE);
  }

  /** The flags that the kernel uses, as digits of the number. */
  lemma {:induction false} FlagDigits(w: nat)
    ensures Bit(w, PRESENT) <==> w % 2 == 1
    ensures Bit(w, WRITABLE) <==> w / 2 % 2 == 1
    ensures Bit(w, USER) <==> w / 4 % 2 == 1
    ensures Bit(w, ALLOCATABLE) <==> w / 0x10_0000_0000_0000 % 2 == 1
  {
    hide Bit;
    assert Pow2(0) == 1 && Pow2(1) == 2 && Pow2(2) == 4;
    BitDigit(w, 0);
    BitDigit(w, 1);
    BitDigit(w, 2);
    BitDigit(w, 52);
    Pow2Values();
  }

  lemma {:induction false} BitDigit(w: nat, i: nat)
    ensures Bit(w, i) <==> w / Pow2(i) % 2 == 1
    decreases i
  {
    if i > 0 {
      BitDigit(w / 2, i - 1);
      HalfThenPower(w, Pow2(i - 1));
    }
  }

  lemma HalfThenPower(w: nat, p: nat)
    requires 0 < p
    ensures w / 2 / p == w / (2 * p)
  {
    var q, r := w / 2 / p, w / 2 % p;
    assert w / 2 == q * p + r;
    QuotientIs(w, 2 * p, q, 2 * r + w % 2);
  }

  lemma QuotientIs(w: nat, d: nat, q: nat, r: nat)
    requires w == q * d + r && r < d
    ensures w / d == q
  {
    var k := w / d;
    assert w == k * d + w % d;
    if k < q {
      MulStep(k, q, d);
    }
    if q < k {
      MulStep(q, k, d);
    }
  }

  lemma MulStep(a: nat, b: nat, d: nat)
    requires a < b
    ensures a * d + d <= b * d
  {
    MulMono(a + 1, b, d);
  }

  lemma MulMono(a: nat, b: nat, d: nat)
    requires a <= b
    ensures a * d <= b * d
  {
  }

  /** An address put beside flags below bit 12 is added to them. */
  lemma AddressAdded(w: u64, f: u64)
    requires w < 4096 && Addressable(f)
    ensures SetAdd(w, f) == w + f
  {
    hide SetAdd;
    Pow2Values();
    forall j ensures !(Bit(w, j) && Bit(f, j)) {
      if Bit(f, j) {
        AddressableBit(f, j);
        HighBits(w, 12, j);
      }
    }
    OrAdds(w, f);
    forall j: nat ensures Bit(SetAdd(w, f), j) == Bit(Or(w, f), j) {
      SetAddBit(w, f, j);
      OrBit(w, f, j);
      if Bit(f, j) { AddressableBit(f, j); }
    }
    SameBits(SetAdd(w, f), Or(w, f));
  }

  // ---------------------------------------------------------------- the setters of the source

  function SetPresent(w: u64, val: bool): (r: u64)
    ensures Decode(r) == Decode(w).(present := val)
    ensures r == w - w % 2 + (if val then 1 else 0)
  {
    FlagDigits(w);
    ModifiedWord(w, PRESENT, val);
    FlagSet(w, PRESENT, val);
    ModifyBit(w, PRESENT, val)
  }

  function SetRw(w: u64, val: bool): (r: u64)
    ensures Decode(r) == Decode(w).(writable := val)
    ensures r == w - 2 * (w / 2 % 2) + (if val then 2 else 0)
  {
    FlagDigits(w);
    ModifiedWord(w, WRITABLE, val);
    FlagSet(w, WRITABLE, val);
    ModifyBit(w, WRITABLE, val)
  }

  function SetUs(w: u64, val: bool): (r: u64)
    ensures Decode(r) == Decode(w).(user := val)
    ensures r == w - 4 * (w / 4 % 2) + (if val then 4 else 0)
  {
    FlagDigits(w);
    ModifiedWord(w, USER, val);
    assert Pow2(1) == 2 && Pow2(2) == 4;
    FlagSet(w, USER, val);
    ModifyBit(w, USER, val)
  }

  function SetAllocatable(w: u64, val: bool): (r: u64)
    ensures Decode(r) == Decode(w).(allocatable := val)
    ensures r == w - 0x10_0000_0000_0000 * (w / 0x10_0000_0000_0000 % 2) + (if val then 0x10_0000_0000_0000 else 0)
  {
    FlagDigits(w);
    ModifiedWord(w, ALLOCATABLE, val);
    Pow2Values();
    FlagSet(w, ALLOCATABLE, val);
    ModifyBit(w, ALLOCATABLE, val)
  }

  /** An address that is set while another one is there gets mixed with it. */
  function SetAddress(w: u64, f: u64): (r: u64)
    ensures Decode(r) == Decode(w).(frame := SetAdd(Decode(w).frame, f))
    ensures Addressable(f) && Decode(w).frame == 0 ==> Decode(r) == Decode(w).(frame := f)
    ensures Addressable(f) && w < 4096 ==> r == w + f
  {
    AddressOred(w, f);
    if Addressable(f) then
      AddressAlone(f);
      if w < 4096 then AddressAdded(w, f); SetAdd(w, f) else SetAdd(w, f)
    else SetAdd(w, f)
  }

  /** A cleared entry. */
  function Clear(): (r: u64)
    ensures Decode(r) == Entry(false, false, false, false, 0) && r == 0
  {
    ClearEntry();
    0
  }
}
