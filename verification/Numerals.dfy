/** Numbers as text: the digits are produced lowest first and then reversed in place. */
module Numerals {
  import opened Words

  type Long = x: int | -0x8000_0000_0000_0000 <= x < 0x8000_0000_0000_0000

  predicate IsBase(base: int) {
    2 <= base <= 36
  }

  function Digit(r: nat): char
    requires r < 36
  {
    if r >= 10 then ((r - 10) + 'a' as int) as char else (r + '0' as int) as char
  }

  function DigitValue(c: char): int {
    if 'a' <= c <= 'z' then c as int - 'a' as int + 10 else c as int - '0' as int
  }

  /** The number to print without its sign: signed in base 10, the unsigned reading in other bases. */
  function Magnitude(i: Long, base: int): u64
    requires base == 10 ==> -0x8000_0000_0000_0000 < i
  {
    if 0 <= i then i else if base == 10 then -i else i + U64
  }

  function Quotient(n: nat, base: nat): nat
    requires 0 < base
  {
    n / base
  }

  function Remainder(n: nat, base: nat): nat
    requires 0 < base
  {
    n % base
  }

  lemma DivMod(n: nat, base: nat)
    requires 0 < base
    ensures n == Quotient(n, base) * base + Remainder(n, base) && Remainder(n, base) < base
    ensures 1 < base && 0 < n ==> Quotient(n, base) < n
  {
    if 1 < base && 0 < n {
      MulMono(Quotient(n, base), 2, base);
    }
  }

  /** The digits, lowest first. */
  function LowFirst(n: nat, base: nat): (r: seq<char>)
    requires IsBase(base)
    decreases n
  {
    if n == 0 then []
    else DivMod(n, base); [Digit(Remainder(n, base))] + LowFirst(Quotient(n, base), base)
  }

  function Reversed(s: seq<char>): (r: seq<char>)
    ensures |r| == |s|
  {
    if s == [] then [] else Reversed(s[1..]) + [s[0]]
  }

  function Digits(n: nat, base: nat): seq<char>
    requires IsBase(base)
  {
    if n == 0 then ['0'] else Reversed(LowFirst(n, base))
  }

  predicate IsNegative(i: Long, base: int) {
    base == 10 && i < 0
  }

  /** The text of a number. */
  function Numeral(i: Long, base: nat): seq<char>
    requires IsBase(base) && (base == 10 ==> -0x8000_0000_0000_0000 < i)
  {
    (if IsNegative(i, base) then ['-'] else []) + Digits(Magnitude(i, base), base)
  }

  // ---------------------------------------------------------------- reading back

  /** The value of a string of digits, highest first. */
  function Value(s: seq<char>, base: nat): int {
    if s == [] then 0 else Value(s[..|s| - 1], base) * base + DigitValue(s[|s| - 1])
  }

  /** The value of a numeral with an optional sign. */
  function Read(s: seq<char>, base: nat): int {
    if s != [] && s[0] == '-' then -Value(s[1..], base) else Value(s, base)
  }

  /** The digits are those of the usual alphabet. */
  lemma DigitIs(r: nat)
    requires r < 36
    ensures Digit(r) == "0123456789abcdefghijklmnopqrstuvwxyz"[r]
  {
  }

  lemma DigitReadsBack(r: nat)
    requires r < 36
    ensures DigitValue(Digit(r)) == r && Digit(r) != '-' && (Digit(r) == '0' <==> r == 0)
  {
  }

  lemma {:induction false} ValueSnoc(s: seq<char>, c: char, base: nat)
    ensures Value(s + [c], base) == Value(s, base) * base + DigitValue(c)
  {
    assert (s + [c])[..|s|] == s;
  }

  lemma {:induction false} DigitsReadBack(n: nat, base: nat)
    requires IsBase(base)
    ensures Value(Reversed(LowFirst(n, base)), base) == n
    decreases n
  {
    if n > 0 {
      DivMod(n, base);
      var q, r := Quotient(n, base), Remainder(n, base);
      var rest := LowFirst(q, base);
      DigitsReadBack(q, base);
      assert LowFirst(n, base) == [Digit(r)] + rest;
      assert LowFirst(n, base)[1..] == rest;
      hide LowFirst, Digit, DigitValue, Value, Quotient, Remainder;
      ValueSnoc(Reversed(rest), Digit(r), base);
      DigitReadsBack(r);
    }
  }

  function Pow(b: nat, e: nat): nat {
    if e == 0 then 1 else b * Pow(b, e - 1)
  }

  /** As many digits as the number needs, and no more. */
  lemma {:induction false} DigitCount(n: nat, base: nat)
    requires IsBase(base) && n > 0
    ensures var k := |LowFirst(n, base)|; k > 0 && Pow(base, k - 1) <= n < Pow(base, k)
    decreases n
  {
    hide Quotient, Remainder;
    DivMod(n, base);
    var q, r, k := Quotient(n, base), Remainder(n, base), |LowFirst(n, base)|;
    assert LowFirst(n, base) == [Digit(r)] + LowFirst(q, base);
    if q > 0 {
      DigitCount(q, base);
      PowStep(n, q, r, base, k);
    } else {
      assert Pow(base, 1) == base * Pow(base, 0);
    }
  }

  lemma PowStep(n: nat, q: nat, r: nat, base: nat, k: nat)
    requires n == q * base + r && r < base && 2 <= k
    requires Pow(base, k - 2) <= q < Pow(base, k - 1)
    ensures Pow(base, k - 1) <= n < Pow(base, k)
  {
    assert Pow(base, k - 1) == base * Pow(base, k - 2) && Pow(base, k) == base * Pow(base, k - 1);
    hide Pow;
    MulMono(base, Pow(base, k - 2), q);
    MulMono(base, q + 1, Pow(base, k - 1));
    Distribute(base, q);
  }

  lemma Distribute(b: nat, q: nat)
    ensures b * (q + 1) == q * b + b && b * q == q * b
  {
  }

  lemma MulMono(b: nat, x: nat, y: nat)
    requires x <= y
    ensures b * x <= b * y
  {
  }

  lemma {:induction false} TopDigitNotZero(n: nat, base: nat)
    requires IsBase(base) && n > 0
    ensures var d := LowFirst(n, base); d[|d| - 1] != '0' && d[|d| - 1] != '-'
    decreases n
  {
    hide Quotient, Remainder;
    DivMod(n, base);
    var q, r := Quotient(n, base), Remainder(n, base);
    DigitReadsBack(r);
    assert LowFirst(n, base) == [Digit(r)] + LowFirst(q, base);
    if q > 0 {
      assert LowFirst(q, base) != [];
      hide LowFirst, Digit;
      TopDigitNotZero(q, base);
    } else {
      hide Digit;
      assert r == n;
    }
  }

  lemma {:induction false} ReversedFirst(s: seq<char>)
    requires s != []
    ensures Reversed(s)[0] == s[|s| - 1]
    decreases |s|
  {
    if |s| > 1 {
      ReversedFirst(s[1..]);
    }
  }

  /** Reading the text back gives the number: signed in base 10, unsigned in other bases. */
  lemma NumeralReadsBack(i: Long, base: nat)
    requires IsBase(base) && (base == 10 ==> -0x8000_0000_0000_0000 < i)
    ensures Read(Numeral(i, base), base) == if base == 10 || 0 <= i then i else i + U64
  {
    var n := Magnitude(i, base);
    DigitsReadBack(n, base);
    DigitsNotSign(n, base);
    hide Digits, LowFirst;
    assert IsNegative(i, base) ==> Numeral(i, base)[1..] == Digits(n, base);
    assert !IsNegative(i, base) ==> Numeral(i, base) == Digits(n, base);
  }

  lemma {:induction false} DigitsNotSign(n: nat, base: nat)
    requires IsBase(base)
    ensures Value(Digits(n, base), base) == n && Digits(n, base) != [] && Digits(n, base)[0] != '-'
  {
    if n == 0 {
      ValueSnoc([], '0', base);
      assert [] + ['0'] == ['0'];
    } else {
      DigitsReadBack(n, base);
      TopDigitNotZero(n, base);
      ReversedFirst(LowFirst(n, base));
    }
  }

  /** One digit besides the sign, or no leading zero and exactly as many digits as the number needs. The
      text of 0 is a single 0 in every base. */
  lemma {:induction false} NumeralIsShortest(i: Long, base: nat)
    requires IsBase(base) && (base == 10 ==> -0x8000_0000_0000_0000 < i)
    ensures var s, sign := Numeral(i, base), if base == 10 && i < 0 then 1 else 0;
            && |s| > sign && (s[sign] == '0' ==> i == 0 && s == ['0']) && (sign == 1 <==> s[0] == '-')
            && (i != 0 ==> Pow(base, |s| - sign - 1) <= Magnitude(i, base) < Pow(base, |s| - sign))
    ensures i == 0 ==> Numeral(i, base) == ['0']
  {
    if i == 0 {
      return;
    }
    var n := Magnitude(i, base);
    DigitCount(n, base);
    TopDigitNotZero(n, base);
    ReversedFirst(LowFirst(n, base));
  }

  /** Two texts. */
  lemma ExampleNumerals()
    ensures Numeral(255, 16) == "ff" && Numeral(-42, 10) == "-42"
  {
    TwoDigits(255, 16, 15, 15);
    TwoDigits(42, 10, 4, 2);
  }

  lemma {:induction false} TwoDigits(n: nat, base: nat, high: nat, low: nat)
    requires IsBase(base) && 0 < high < base && low < base && n == high * base + low
    ensures Digits(n, base) == [Digit(high), Digit(low)]
  {
    LastDigit(n, base, high, low);
    LastDigit(high, base, 0, high);
    assert LowFirst(high, base) == [Digit(high)] + LowFirst(0, base);
    assert LowFirst(n, base) == [Digit(low)] + LowFirst(high, base) == [Digit(low), Digit(high)];
    assert Reversed([Digit(high)]) == Reversed([]) + [Digit(high)];
    assert [Digit(low), Digit(high)][1..] == [Digit(high)];
  }

  lemma LastDigit(n: nat, base: nat, high: nat, low: nat)
    requires 0 < base && n == high * base + low && low < base
    ensures Quotient(n, base) == high && Remainder(n, base) == low
  {
    DivMod(n, base);
    var q, r := Quotient(n, base), Remainder(n, base);
    hide Quotient, Remainder;
    if q < high { MulMono(base, q + 1, high); Distribute(base, q); }
    if high < q { MulMono(base, high + 1, q); Distribute(base, high); }
  }

  // ---------------------------------------------------------------- the code

  /** Swapping the ends towards the middle reverses the first n cells and leaves the others. */
  method ReverseFirst(s: array<char>, n: nat)
    requires 0 < n <= s.Length
    modifies s
    ensures s[..n] == Reversed(old(s[..n]))
    ensures forall k :: n <= k < s.Length ==> s[k] == old(s[k])
  {
    ghost var was := s[..];
    var start, end := 0, n - 1;
    while start < end
      invariant 0 <= start && end == n - 1 - start && start <= end + 1
      invariant forall k :: 0 <= k < n && !(start <= k <= end) ==> s[k] == was[n - 1 - k]
      invariant forall k :: start <= k <= end ==> s[k] == was[k]
      invariant forall k :: n <= k < s.Length ==> s[k] == was[k]
    {
      var tmp := s[start];
      s[start] := s[end];
      s[end] := tmp;
      start := start + 1;
      end := end - 1;
    }
    forall k | 0 <= k < n ensures s[k] == Reversed(was[..n])[k] {
      ReversedCell(was[..n], k);
    }
  }

  lemma {:induction false} ReversedCell(s: seq<char>, k: nat)
    requires k < |s|
    ensures Reversed(s)[k] == s[|s| - 1 - k]
    decreases |s|
  {
    if k < |s| - 1 {
      ReversedCell(s[1..], k);
    }
  }

  /** Writes the digits of a number, lowest first, and returns how many. */
  method PutDigits(number: u64, s: array<char>, base: nat) returns (index: nat)
    requires IsBase(base) && |LowFirst(number, base)| < s.Length
    modifies s
    ensures index == |LowFirst(number, base)| && s[..index] == LowFirst(number, base)
    ensures forall k :: index <= k < s.Length ==> s[k] == old(s[k])
  {
    index := 0;
    var i: u64 := number;
    ghost var all, was := LowFirst(number, base), s[..];
    while i != 0
      invariant 0 <= index <= |all| && LowFirst(i, base) == all[index..]
      invariant s[..index] == all[..index]
      invariant forall k :: index <= k < s.Length ==> s[k] == was[k]
      decreases i
    {
      hide Quotient, Remainder;
      DivMod(i, base);
      ghost var q := Quotient(i, base);
      var remainder := Remainder(i, base);
      assert LowFirst(i, base) == [Digit(remainder)] + LowFirst(q, base);
      assert all[index] == all[index..][0] && all[index + 1..] == all[index..][1..];
      s[index] := if remainder >= 10 then ((remainder - 10) + 'a' as int) as char else (remainder + '0' as int) as char;
      index := index + 1;
      i := Quotient(i, base);
    }
  }

  /** Writes the text of a number and a closing zero; base 0 is refused. */
  method ToString(number: Long, s: array<char>, base: Long)
    requires base == 0 || (IsBase(base) && (base == 10 ==> -0x8000_0000_0000_0000 < number))
    requires base != 0 ==> |Numeral(number, base)| < s.Length
    modifies s
    ensures base == 0 ==> s[..] == old(s[..])
    ensures base != 0 ==>
              var n := |Numeral(number, base)|;
              && s[..n] == Numeral(number, base) && s[n] == '\0'
              && (number == 0 ==> s[0] == '0' && s[1] == '\0')
              && forall k :: n < k < s.Length ==> s[k] == old(s[k])
  {
    if base == 0 {
      return;
    }
    if number == 0 {
      s[0] := '0';
      s[1] := '\0';
      return;
    }
    var isNegative := base == 10 && number < 0;
    var signed := if isNegative then -number else number;
    var i: u64 := if signed >= 0 then signed else signed + U64;
    assert i == Magnitude(number, base);
    ghost var all := LowFirst(i, base);
    assert all != [];
    hide LowFirst;
    var index := PutDigits(i, s, base);
    if isNegative {
      s[index] := '-';
      index := index + 1;
      ReversedSnoc(all, '-');
    }
    assert s[..index] == all + (if isNegative then ['-'] else []);
    s[index] := '\0';
    ReverseFirst(s, index);
  }

  lemma {:induction false} ReversedSnoc(s: seq<char>, c: char)
    ensures Reversed(s + [c]) == [c] + Reversed(s)
    decreases |s|
  {
    if s != [] {
      assert (s + [c])[1..] == s[1..] + [c];
      ReversedSnoc(s[1..], c);
    }
  }
}
