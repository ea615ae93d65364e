/**
 * The parts of JavaScript number semantics that the core files use on integer values:
 * Number.parseInt with radix 10, Number.prototype.toString in bases 10 and 2, the
 * ToInt32/ToUint32 conversions, and the 32-bit operators `<<`, `>>>`, `&`, `|`, `~`.
 * Numbers are exact integers here; a NaN result is kept as its own value.
 */
module JsNumber {
  import opened JsText

  /** A JavaScript Number that is an integer, or NaN. */
  datatype Num = NaN | Int(value: int)

  /** JavaScript truthiness of a Number: NaN and 0 are falsy. */
  predicate Truthy(n: Num) {
    n.Int? && n.value != 0
  }

  const TWO31: int := 0x8000_0000
  const TWO32: int := 0x1_0000_0000

  function Pow2(k: nat): (r: nat)
    ensures r >= 1
  {
    if k == 0 then 1 else 2 * Pow2(k - 1)
  }

  lemma {:induction false} Pow2Monotone(j: nat, k: nat)
    requires j <= k
    ensures Pow2(j) <= Pow2(k)
    ensures j < k ==> 2 * Pow2(j) <= Pow2(k)
  {
    if j < k {
      Pow2Monotone(j, k - 1);
    }
  }

  /** ToUint32: the integer modulo 2^32. */
  function ToUint32(x: int): (r: nat)
    ensures r < TWO32
  {
    x % TWO32
  }

  /** ToInt32: the integer modulo 2^32, read as a signed two's-complement value. */
  function ToInt32(x: int): (r: int)
    ensures -TWO31 <= r < TWO31
    ensures ToUint32(r) == ToUint32(x)
  {
    var u := x % TWO32;
    if u >= TWO31 then u - TWO32 else u
  }

  /** Bitwise and of two non-negative integers, one bit at a time. */
  function BitAnd(a: nat, b: nat): nat
    decreases a
  {
    if a == 0 || b == 0 then 0
    else 2 * BitAnd(a / 2, b / 2) + (if a % 2 == 1 && b % 2 == 1 then 1 else 0)
  }

  /** Bitwise or of two non-negative integers, one bit at a time. */
  function BitOr(a: nat, b: nat): nat
    decreases a + b
  {
    if a == 0 then b
    else if b == 0 then a
    else 2 * BitOr(a / 2, b / 2) + (if a % 2 == 1 || b % 2 == 1 then 1 else 0)
  }

  /** a & b */
  function JsAnd(a: int, b: int): int {
    ToInt32(BitAnd(ToUint32(a), ToUint32(b)))
  }

  /** a | b */
  function JsOr(a: int, b: int): int {
    ToInt32(BitOr(ToUint32(a), ToUint32(b)))
  }

  /** ~a */
  function JsNot(a: int): int {
    ToInt32(-ToInt32(a) - 1)
  }

  /** a << k (the shift count is taken modulo 32) */
  function JsShl(a: int, k: nat): int {
    ToInt32(ToInt32(a) * Pow2(k % 32))
  }

  /** a << k where a may be NaN (ToInt32 sends NaN to 0). */
  function JsShlNum(a: Num, k: nat): int {
    JsShl(if a.NaN? then 0 else a.value, k)
  }

  /** a >>> 0 where a may be NaN (ToUint32 sends NaN to 0). */
  function ToUint32Num(a: Num): (r: nat)
    ensures r < TWO32
  {
    if a.NaN? then 0 else ToUint32(a.value)
  }

  /** a + b on Numbers: NaN if either side is NaN. */
  function AddNum(a: int, b: Num): Num {
    if b.NaN? then NaN else Int(a + b.value)
  }

  lemma Pow2Values()
    ensures Pow2(8) == 0x100 && Pow2(16) == 0x1_0000 && Pow2(24) == 0x100_0000
    ensures Pow2(31) == TWO31 && Pow2(32) == TWO32
  {
    assert Pow2(4) == 16;
    assert Pow2(8) == 256;
    assert Pow2(12) == 4096;
    assert Pow2(16) == 0x1_0000;
    assert Pow2(20) == 0x10_0000;
    assert Pow2(24) == 0x100_0000;
    assert Pow2(28) == 0x1000_0000;
  }

  lemma {:induction false} Pow2Add(j: nat, k: nat)
    ensures Pow2(j + k) == Pow2(j) * Pow2(k)
  {
    if k > 0 {
      Pow2Add(j, k - 1);
      assert Pow2(j + k) == 2 * Pow2(j + (k - 1));
    }
  }

  /** a >>> k: the unsigned value shifted right by k % 32 bits. */
  function JsUShr(a: int, k: nat): nat {
    ShiftRight(ToUint32(a), k % 32)
  }

  /** x shifted right by k bits, one bit at a time. */
  function ShiftRight(x: nat, k: nat): nat {
    if k == 0 then x else ShiftRight(x / 2, k - 1)
  }

  /** Shifting right by k bits divides by 2^k. */
  lemma {:induction false} ShiftRightIsDiv(x: nat, k: nat)
    ensures ShiftRight(x, k) == x / Pow2(k)
  {
    if k > 0 {
      ShiftRightIsDiv(x / 2, k - 1);
      var q := x / 2 / Pow2(k - 1);
      var r := x / 2 % Pow2(k - 1);
      assert x == Pow2(k) * q + (2 * r + x % 2);
      DivModUnique(x, Pow2(k), q, 2 * r + x % 2);
    }
  }

  /** Splitting off the lowest bit of x % 2^k and x / 2^k. */
  lemma ModPow2Step(x: nat, k: nat)
    requires k > 0
    ensures x % Pow2(k) == x % 2 + 2 * ((x / 2) % Pow2(k - 1))
    ensures x / Pow2(k) == (x / 2) / Pow2(k - 1)
  {
    var p := Pow2(k - 1);
    var q := x / 2;
    assert x == 2 * q + x % 2;
    assert q == p * (q / p) + q % p;
    assert x == (2 * p) * (q / p) + (x % 2 + 2 * (q % p));
    DivModUnique(x, 2 * p, q / p, x % 2 + 2 * (q % p));
  }

  lemma DivModUnique(x: int, d: int, m: int, r: int)
    requires d > 0 && 0 <= r < d && x == d * m + r
    ensures x % d == r && x / d == m
  {
    var m' := x / d;
    var r' := x % d;
    assert x == d * m' + r';
    assert d * (m - m') == r' - r;
    if m > m' {
      MulAtLeast(d, m - m');
      assert false;
    } else if m < m' {
      MulAtLeast(d, m' - m);
      assert false;
    }
  }

  lemma ModOfSmall(x: int, m: int)
    requires 0 <= x < m
    ensures x % m == x && x / m == 0
  {
    DivModUnique(x, m, 0, x);
  }

  lemma DivAtMost(x: nat, p: nat)
    requires p >= 1
    ensures x / p <= x
  {
    if x / p >= 1 {
      MulAtLeast(x / p, p);
    }
  }

  lemma {:induction false} MulAtLeast(d: int, t: int)
    requires d > 0 && t >= 1
    ensures d * t >= d
  {
    if t > 1 {
      MulAtLeast(d, t - 1);
      assert d * t == d * (t - 1) + d;
    }
  }

  /** x & (2^k - 1) keeps the low k bits. */
  lemma {:induction false} BitAndLowMask(x: nat, k: nat)
    ensures BitAnd(x, Pow2(k) - 1) == x % Pow2(k)
  {
    if k > 0 {
      var m := Pow2(k - 1);
      assert Pow2(k) - 1 == 2 * m - 1;
      BitAndLowMask(x / 2, k - 1);
      BitAndOddMask(x, m);
      ModPow2Step(x, k);
    } else {
      DivModUnique(x, 1, x, 0);
    }
  }

  /** The lowest bit of an odd mask keeps the lowest bit of x. */
  lemma BitAndOddMask(x: nat, m: nat)
    requires m >= 1
    ensures BitAnd(x, 2 * m - 1) == 2 * BitAnd(x / 2, m - 1) + x % 2
  {
    DivModUnique(2 * m - 1, 2, m - 1, 1);
  }

  /** x with its low k bits cleared, one bit at a time. */
  function ClearLow(x: nat, k: nat): nat {
    if k == 0 then x else 2 * ClearLow(x / 2, k - 1)
  }

  /** Clearing the low k bits subtracts x mod 2^k. */
  lemma {:induction false} ClearLowValue(x: nat, k: nat)
    ensures ClearLow(x, k) == x - x % Pow2(k)
  {
    if k > 0 {
      ClearLowValue(x / 2, k - 1);
      ModPow2Step(x, k);
    } else {
      DivModUnique(x, 1, x, 0);
    }
  }

  /** x & (2^n - 2^k) clears the low k bits of an n-bit x. */
  lemma {:induction false} BitAndHighMask(x: nat, n: nat, k: nat, mask: nat)
    requires k < n && x < Pow2(n) && mask == Pow2(n) - Pow2(k)
    ensures BitAnd(x, mask) == ClearLow(x, k)
  {
    if k == 0 {
      BitAndLowMask(x, n);
      ModOfSmall(x, Pow2(n));
    } else {
      HalfBelow(x, n);
      Pow2Monotone(k - 1, n - 2);
      BitAndHighMask(x / 2, n - 1, k - 1, Pow2(n - 1) - Pow2(k - 1));
      BitAndEvenStep(x, mask, Pow2(n - 1) - Pow2(k - 1), ClearLow(x / 2, k - 1));
    }
  }


  lemma HalfBelow(x: nat, n: nat)
    requires n > 0 && x < Pow2(n)
    ensures x / 2 < Pow2(n - 1)
  {
    assert Pow2(n) == 2 * Pow2(n - 1);
  }



  /** An even mask keeps no low bit: x & 2h is twice (x / 2) & h. */
  lemma BitAndEvenStep(x: nat, mask: nat, half: nat, c: nat)
    requires mask == 2 * half && BitAnd(x / 2, half) == c
    ensures BitAnd(x, mask) == 2 * c
  {
    assert mask / 2 == half && mask % 2 == 0;
  }


  /** y | (2^k - 1) fills the low k bits of a y whose low k bits are clear. */
  lemma {:induction false} BitOrLowMask(y: nat, k: nat)
    requires y % Pow2(k) == 0
    ensures BitOr(y, Pow2(k) - 1) == y + Pow2(k) - 1
  {
    if k > 0 && y != 0 {
      var m := Pow2(k - 1);
      assert Pow2(k) - 1 == 2 * m - 1;
      ModPow2Step(y, k);
      BitOrLowMask(y / 2, k - 1);
      BitOrOddMask(y, m);
    }
  }

  /** An odd mask sets the lowest bit of a nonzero y. */
  lemma BitOrOddMask(y: nat, m: nat)
    requires m >= 1 && y != 0
    ensures BitOr(y, 2 * m - 1) == 2 * BitOr(y / 2, m - 1) + 1
  {
    DivModUnique(2 * m - 1, 2, m - 1, 1);
  }

  function DigitChar(d: nat): (c: char)
    requires d < 10
    ensures IsDigit(c)
  {
    ('0' as int + d) as char
  }

  predicate IsDigit(c: char) {
    '0' <= c <= '9'
  }

  predicate AllDigits(s: string) {
    forall i :: 0 <= i < |s| ==> IsDigit(s[i])
  }

  /** Number.prototype.toString() of a non-negative integer: its decimal digits. */
  function NatToString(n: nat): (s: string)
    ensures |s| >= 1 && AllDigits(s)
    ensures n < 10 <==> |s| == 1
  {
    if n < 10 then [DigitChar(n)] else NatToString(n / 10) + [DigitChar(n % 10)]
  }

  /** The value of a string of decimal digits, most significant first. */
  function DigitsValue(s: string): nat
    requires AllDigits(s)
  {
    if s == [] then 0 else DigitsValue(s[..|s| - 1]) * 10 + (s[|s| - 1] as int - '0' as int)
  }

  lemma {:induction false} DigitsValueOfNatToString(n: nat)
    ensures DigitsValue(NatToString(n)) == n
  {
    if n >= 10 {
      var s := NatToString(n);
      assert s[..|s| - 1] == NatToString(n / 10);
      DigitsValueOfNatToString(n / 10);
    }
  }

  lemma NatToStringInjective(a: nat, b: nat)
    requires NatToString(a) == NatToString(b)
    ensures a == b
  {
    DigitsValueOfNatToString(a);
    DigitsValueOfNatToString(b);
  }

  /** The longest prefix of s made of decimal digits. */
  function LeadingDigits(s: string): (d: string)
    ensures AllDigits(d) && |d| <= |s| && d == s[..|d|]
    ensures |d| < |s| ==> !IsDigit(s[|d|])
  {
    if s != [] && IsDigit(s[0]) then [s[0]] + LeadingDigits(s[1..]) else ""
  }

  lemma {:induction false} LeadingDigitsOfDigits(s: string)
    requires AllDigits(s)
    ensures LeadingDigits(s) == s
  {
    if s != [] {
      LeadingDigitsOfDigits(s[1..]);
    }
  }

  /**
   * Number.parseInt(s, 10): skip leading whitespace, read an optional sign and then
   * the longest run of decimal digits; NaN when there is no digit.
   */
  function ParseInt(s: string): Num {
    var t := TrimStart(s);
    if t != [] && (t[0] == '-' || t[0] == '+') then
      SignedDigits(t[0] == '-', LeadingDigits(t[1..]))
    else
      SignedDigits(false, LeadingDigits(t))
  }

  function SignedDigits(negative: bool, digits: string): Num
    requires AllDigits(digits)
  {
    if digits == [] then NaN
    else Int(if negative then -(DigitsValue(digits) as int) else DigitsValue(digits))
  }

  /** Reading back the decimal text of a number gives the number. */
  lemma ParseIntOfNatToString(n: nat)
    ensures ParseInt(NatToString(n)) == Int(n)
  {
    var s := NatToString(n);
    assert IsDigit(s[0]);
    TrimStartOfDigits(s);
    assert s[0] != '-' && s[0] != '+';
    assert ParseInt(s) == SignedDigits(false, LeadingDigits(s));
    LeadingDigitsOfDigits(s);
    DigitsValueOfNatToString(n);
    assert SignedDigits(false, s) == Int(DigitsValue(s));
  }

  lemma TrimStartOfDigits(s: string)
    requires s != [] && IsDigit(s[0])
    ensures TrimStart(s) == s
  {
    assert !IsWhitespace(s[0]);
  }

  /** Number.prototype.toString(2) of a non-negative integer. */
  function BinaryString(n: nat): string {
    if n < 2 then [if n == 0 then '0' else '1']
    else BinaryString(n / 2) + [if n % 2 == 0 then '0' else '1']
  }

  /** The number of one bits of n. */
  function Popcount(n: nat): nat {
    if n == 0 then 0 else n % 2 + Popcount(n / 2)
  }

  lemma {:induction false} OnesInBinaryString(n: nat)
    ensures Count(BinaryString(n), '1') == Popcount(n)
  {
    if n >= 2 {
      OnesInBinaryString(n / 2);
      CountAppend(BinaryString(n / 2), [if n % 2 == 0 then '0' else '1'], '1');
    }
  }

  /** A run of n - k one bits followed by k zero bits has n - k one bits. */
  lemma {:induction false} PopcountOfRun(n: nat, k: nat)
    requires k <= n
    ensures Pow2(k) <= Pow2(n)
    ensures Popcount(Pow2(n) - Pow2(k)) == n - k
  {
    Pow2Monotone(k, n);
    if k > 0 {
      if n > k {
        Pow2Monotone(k, n - 1);
        PopcountOfRun(n - 1, k - 1);
        DivModUnique(Pow2(n) - Pow2(k), 2, Pow2(n - 1) - Pow2(k - 1), 0);
      }
    } else if n > 0 {
      PopcountOfRun(n - 1, 0);
      DivModUnique(Pow2(n) - 1, 2, Pow2(n - 1) - 1, 1);
    }
  }
}
