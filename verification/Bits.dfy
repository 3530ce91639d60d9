/** Fixed-width unsigned and two's-complement integers as mathematical integers: the C++ operators
    |, ^, <<, >> and the integer conversions that bytearray.cpp and endian.h use. */
module Bits {
  type Byte = b: int | 0 <= b < 256

  function Pow2(n: nat): (p: nat)
    ensures p >= 1
  {
    if n == 0 then 1 else 2 * Pow2(n - 1)
  }

  /** Bitwise or of two non-negative integers. */
  function Or(a: nat, b: nat): nat
    decreases a + b
  {
    if a == 0 && b == 0 then 0
    else (if a % 2 == 1 || b % 2 == 1 then 1 else 0) + 2 * Or(a / 2, b / 2)
  }

  /** Bitwise exclusive or of two non-negative integers. */
  function Xor(a: nat, b: nat): nat
    decreases a + b
  {
    if a == 0 && b == 0 then 0
    else (if a % 2 != b % 2 then 1 else 0) + 2 * Xor(a / 2, b / 2)
  }

  /** The value of an integer converted to an unsigned type of `width` bits. */
  function ToUnsigned(x: int, width: nat): (u: nat)
    ensures u < Pow2(width)
  {
    x % Pow2(width)
  }

  /** The value of an unsigned integer reinterpreted as a signed type of `width` bits. */
  function ToSigned(u: nat, width: nat): int
    requires width > 0
  {
    if u % Pow2(width) < Pow2(width - 1) then u % Pow2(width) else u % Pow2(width) - Pow2(width)
  }

  predicate IsSigned(x: int, width: nat)
    requires width > 0
  {
    -x <= Pow2(width - 1) && x < Pow2(width - 1)
  }

  /** A negative number is converted to its two's complement. */
  lemma TwosComplement(x: int, width: nat)
    requires 0 <= x + Pow2(width) && x < Pow2(width)
    ensures ToUnsigned(x, width) == if x < 0 then x + Pow2(width) else x
  {
    DivModUnique(x, if x < 0 then -1 else 0, if x < 0 then x + Pow2(width) else x, Pow2(width));
  }

  /** Left shift of an unsigned value of `width` bits: bits pushed out on the left are lost. */
  function Shl(x: nat, shift: nat, width: nat): nat {
    x * Pow2(shift) % Pow2(width)
  }

  lemma {:induction false} Pow2Add(a: nat, b: nat)
    ensures Pow2(a + b) == Pow2(a) * Pow2(b)
  {
    if a > 0 {
      Pow2Add(a - 1, b);
      assert Pow2(a + b) == 2 * Pow2(a - 1 + b);
    }
  }

  lemma Pow2Plus7(n: nat)
    ensures Pow2(n + 7) == Pow2(n) * 128
  {
    Pow2Add(n, 7);
    assert Pow2(7) == 128;
  }

  /** A value of `width - i` bits shifted left by i still fits in `width` bits. */
  lemma ShiftFits(v: nat, i: nat, width: nat)
    requires i <= width && v < Pow2(width - i)
    ensures v * Pow2(i) < Pow2(width)
  {
    Pow2Add(width - i, i);
    MulLess(v, Pow2(width - i), Pow2(i));
  }

  lemma BlockLess(a: nat, b: nat, c: nat)
    requires a * c < b * c + c
    ensures a <= b
  {
    if a > b { MulAtMost(b + 1, a, c); }
  }

  lemma MulAtMost(a: nat, b: nat, c: nat)
    requires a <= b
    ensures a * c <= b * c
  {
  }

  lemma MulLess(a: nat, b: nat, c: nat)
    requires a < b && c > 0
    ensures a * c < b * c
  {
  }

  lemma {:induction false} Pow2Monotone(a: nat, b: nat)
    requires a <= b
    ensures Pow2(a) <= Pow2(b)
  {
    if a < b { Pow2Monotone(a, b - 1); }
  }

  lemma Pow2Octet()
    ensures Pow2(7) == 128 && Pow2(8) == 256
  {
  }

  lemma Pow2Wide()
    ensures Pow2(16) == 65536 && Pow2(31) == 0x8000_0000 && Pow2(32) == 0x1_0000_0000
  {
    Pow2Octet();
    Pow2Add(8, 8);
    Pow2Add(16, 8);
    Pow2Add(24, 7);
    Pow2Add(31, 1);
  }

  lemma DivModUnique(x: int, q: int, r: int, m: nat)
    requires m > 0 && 0 <= r < m && x == q * m + r
    ensures x / m == q && x % m == r
  {
    var d := x / m - q;
    assert d * m == r - x % m;
    assert d >= 1 ==> d * m >= 1 * m;
    assert -d >= 1 ==> -d * m >= 1 * m;
  }

  lemma DivTwice(x: nat, a: nat, b: nat)
    requires a > 0 && b > 0
    ensures a * b > 0 && x / a / b == x / (a * b)
  {
    var q, r := x / a / b, x / a % b;
    assert x == (q * b + r) * a + x % a;
    assert (q * b + r) * a == q * (a * b) + r * a;
    assert r * a + x % a < a * b by {
      assert (r + 1) * a <= b * a;
    }
    MulLess(0, a, b);
    DivModUnique(x, q, r * a + x % a, a * b);
  }

  lemma ModScale(x: nat, m: nat, p: nat)
    requires m > 0 && p > 0
    ensures m * p > 0 && x * p % (m * p) == x % m * p
  {
    var q, r := x / m, x % m;
    assert x * p == (q * m + r) * p == q * (m * p) + r * p;
    MulLess(r, m, p);
    MulLess(0, m, p);
    DivModUnique(x * p, q, r * p, m * p);
  }

  /** Or-ing a value into bits that are still clear adds it: what makes the varint reader's
      `result |= x << i` an addition. */
  lemma {:induction false} OrDisjoint(a: nat, b: nat, i: nat)
    requires a < Pow2(i)
    ensures Or(a, b * Pow2(i)) == a + b * Pow2(i)
    decreases i
  {
    if i == 0 {
      OrZero(b);
      assert b * Pow2(0) == b;
    } else {
      var c := b * Pow2(i - 1);
      assert b * Pow2(i) == 2 * c;
      OrDisjoint(a / 2, b, i - 1);
    }
  }

  lemma {:induction false} OrZero(b: nat)
    ensures Or(0, b) == b
  {
    if b > 0 { OrZero(b / 2); }
  }

  /** Exclusive or with all-ones is the complement. */
  lemma {:induction false} XorOnes(a: nat, width: nat)
    requires a < Pow2(width)
    ensures Xor(a, Pow2(width) - 1) == Pow2(width) - 1 - a
  {
    if width > 0 {
      var half := Pow2(width - 1);
      assert (2 * half - 1) / 2 == half - 1 && (2 * half - 1) % 2 == 1;
      XorOnes(a / 2, width - 1);
    }
  }

  lemma {:induction false} XorZero(a: nat)
    ensures Xor(a, 0) == a
  {
    if a > 0 { XorZero(a / 2); }
  }
}
