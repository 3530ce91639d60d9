/** Base-128 varints and zigzag integers, as bytearray.cpp computes them
    (Protocol Buffers encoding specification, sections "Base 128 Varints" and "Signed Integers"). */
module Varint {
  import opened Bits

  /** The bytes the write loop puts into its `tmp` buffer. */
  function Encode(v: nat): (s: seq<Byte>)
    ensures |s| >= 1
  {
    if v < 128 then [v] else [v % 128 + 128] + Encode(v / 128)
  }

  /** A read loop either meets its end (with the bytes it consumed) or runs out of input. */
  datatype Scan = Done(value: nat, used: nat) | Short(used: nat)

  /** The read loop from shift `i` on, for a result of `width` bits accumulated in `acc`. */
  function Groups(s: seq<Byte>, i: nat, width: nat, acc: nat): (r: Scan)
    ensures r.used <= |s|
    ensures i < width ==> r.used <= (width - i + 6) / 7
    ensures i >= width ==> r.used == 0
    ensures r.Short? ==> r.used == |s|
    decreases width - i
  {
    if i >= width then Done(acc, 0)
    else if s == [] then Short(0)
    else if s[0] < 128 then Done(Or(acc, Shl(s[0], i, width)), 1)
    else
      var r := Groups(s[1..], i + 7, width, Or(acc, Shl(s[0] - 128, i, width)));
      r.(used := r.used + 1)
  }

  function Decode(s: seq<Byte>, width: nat): Scan {
    Groups(s, 0, width, 0)
  }

  /** A scan of what follows `used` bytes, as a scan of the whole. */
  function Later(r: Scan, used: nat): Scan {
    r.(used := used + r.used)
  }

  /** One turn of the read loop, and its end. */
  lemma Unroll(data: seq<Byte>, used: nat, i: nat, width: nat, acc: nat)
    requires used <= |data| && i < width
    ensures Groups(data[used..], i, width, acc) ==
            if used == |data| then Short(0)
            else if data[used] < 128 then Done(Or(acc, Shl(data[used], i, width)), 1)
            else Later(Groups(data[used + 1..], i + 7, width, Or(acc, Shl(data[used] % 128, i, width))), 1)
  {
    if used < |data| {
      assert data[used..][1..] == data[used + 1..];
    }
  }

  lemma Finished(s: seq<Byte>, i: nat, width: nat, acc: nat)
    requires i >= width
    ensures Groups(s, i, width, acc) == Done(acc, 0)
  {
  }

  /** The encoding has n bytes or fewer exactly when the value fits in 7*n bits. */
  lemma {:induction false} LengthBound(v: nat, n: nat)
    requires n >= 1
    ensures |Encode(v)| <= n <==> v < Pow2(7 * n)
  {
    Pow2Plus7(7 * (n - 1));
    Pow2Octet();
    if n == 1 {
      assert v >= 128 ==> |Encode(v / 128)| >= 1;
    } else if v >= 128 {
      LengthBound(v / 128, n - 1);
      assert |Encode(v)| == 1 + |Encode(v / 128)|;
    } else {
      assert Pow2(7 * n) >= 128 * 1;
    }
  }

  /** `uint8_t tmp[5]` and `uint8_t tmp[10]` never overflow. */
  lemma BufferBound(v: nat)
    ensures v < Pow2(32) ==> |Encode(v)| <= 5
    ensures v < Pow2(64) ==> |Encode(v)| <= 10
  {
    LengthBound(v, 5);
    LengthBound(v, 10);
    Pow2Monotone(32, 35);
    Pow2Monotone(64, 70);
  }

  /** On arbitrary input the readers consume at most 5 and 10 bytes. */
  lemma ReaderBound(s: seq<Byte>)
    ensures Decode(s, 32).used <= 5 && Decode(s, 64).used <= 10
  {
  }

  lemma ShlExact(x: nat, i: nat, width: nat)
    requires x * Pow2(i) < Pow2(width)
    ensures Shl(x, i, width) == x * Pow2(i)
  {
    var p := x * Pow2(i);
    DivModUnique(p, 0, p, Pow2(width));
  }

  lemma {:induction false} GroupsOfEncode(v: nat, rest: seq<Byte>, i: nat, width: nat, acc: nat)
    requires i < width && acc < Pow2(i) && v < Pow2(width - i)
    ensures Groups(Encode(v) + rest, i, width, acc) == Done(acc + v * Pow2(i), |Encode(v)|)
    decreases v
  {
    hide Pow2, Or, Shl;
    var s := Encode(v) + rest;
    if v < 128 {
      ShiftFits(v, i, width);
      ShlExact(v, i, width);
      OrDisjoint(acc, v, i);
    } else {
      var low, high := v % 128, v / 128;
      GroupStep(v, low, high, i, width);
      ShlExact(low, i, width);
      OrDisjoint(acc, low, i);
      GroupsOfEncode(high, rest, i + 7, width, acc + low * Pow2(i));
      assert s[1..] == Encode(high) + rest;
    }
  }

  /** Splitting off the low seven bits of a value that stands at bit i. */
  lemma GroupStep(v: nat, low: nat, high: nat, i: nat, width: nat)
    requires i < width && 128 <= v < Pow2(width - i)
    requires v == high * 128 + low && low < 128
    ensures i + 7 < width && high < Pow2(width - i - 7)
    ensures low * Pow2(i) < Pow2(width)
    ensures low * Pow2(i) + high * Pow2(i + 7) == v * Pow2(i)
    ensures low * Pow2(i) + Pow2(i) <= Pow2(i + 7)
  {
    assert Pow2(7) == 128;
    if width - i <= 7 { Pow2Monotone(width - i, 7); }
    Pow2Plus7(width - i - 7);
    Pow2Plus7(i);
    ShiftFits(v, i, width);
    LowPart(low, high, v, Pow2(i));
  }

  lemma LowPart(low: nat, high: nat, v: nat, p: nat)
    requires v == high * 128 + low && low < 128
    ensures low * p <= v * p
    ensures low * p + high * (p * 128) == v * p
    ensures low * p + p <= p * 128
  {
    assert v * p == high * 128 * p + low * p;
    assert high * 128 * p == high * (p * 128);
    assert (low + 1) * p <= 128 * p;
  }

  /** Every byte but the last has the high bit set, and byte k carries the k-th seven bits. */
  lemma {:induction false} EncodeByte(v: nat, k: nat)
    requires k < |Encode(v)|
    ensures Encode(v)[k] >= 128 <==> k < |Encode(v)| - 1
    ensures Encode(v)[k] % 128 == v / Pow2(7 * k) % 128
  {
    if k > 0 {
      EncodeByte(v / 128, k - 1);
      Pow2Octet();
      Pow2Add(7, 7 * (k - 1));
      DivTwice(v, 128, Pow2(7 * (k - 1)));
    }
  }

  /** The value that groups of seven bits spell, least significant first. */
  function Spelled(s: seq<Byte>): nat {
    if s == [] then 0 else s[0] % 128 + 128 * Spelled(s[1..])
  }

  /** One group put into the accumulator: the bits beyond the width are lost. */
  lemma OneGroup(acc: nat, x: nat, i: nat, width: nat)
    requires i < width && acc < Pow2(i) && x < 128
    ensures Or(acc, Shl(x, i, width)) == (acc + x * Pow2(i)) % Pow2(width)
    ensures i + 7 < width ==> acc + x * Pow2(i) < Pow2(i + 7) <= Pow2(width)
    ensures i + 7 < width ==> Or(acc, Shl(x, i, width)) == acc + x * Pow2(i)
  {
    hide Or, Pow2;
    var p, m := Pow2(i), Pow2(width - i);
    Pow2Add(width - i, i);
    ModScale(x, m, p);
    OrDisjoint(acc, x % m, i);
    BelowCarry(acc, x, m, p);
    if i + 7 < width {
      Pow2Plus7(i);
      Pow2Monotone(i + 7, width);
      MulAtMost(x + 1, 128, p);
      DivModUnique(acc + x * p, 0, acc + x * p, Pow2(width));
    }
  }

  lemma BelowCarry(acc: nat, x: nat, m: nat, p: nat)
    requires m > 0 && acc < p
    ensures m * p > 0 && (acc + x * p) % (m * p) == acc + x % m * p
  {
    ModScale(x, m, p);
    MulAtMost(x % m + 1, m, p);
    assert (x % m + 1) * p == x % m * p + p;
    AddBelow(acc, x * p, m * p);
  }

  lemma AddBelow(a: nat, y: nat, m: nat)
    requires m > 0 && a + y % m < m
    ensures (a + y) % m == a + y % m
  {
    DivModUnique(a + y, y / m, a + y % m, m);
  }

  /** What a reader returns on any bytes: the value they spell, cut to the width of the result. */
  lemma ReaderValue(s: seq<Byte>, width: nat)
    ensures var r := Decode(s, width);
            r.Done? ==> r.used <= |s| && r.value == Spelled(s[..r.used]) % Pow2(width)
  {
    GroupsValue(s, 0, width, 0);
    assert Spelled(s[..Decode(s, width).used]) * Pow2(0) == Spelled(s[..Decode(s, width).used]);
  }

  lemma {:induction false} GroupsValue(s: seq<Byte>, i: nat, width: nat, acc: nat)
    requires acc < Pow2(width) && (i < width ==> acc < Pow2(i))
    ensures var r := Groups(s, i, width, acc);
            r.Done? ==> r.value == (acc + Spelled(s[..r.used]) * Pow2(i)) % Pow2(width)
    decreases width - i
  {
    hide Pow2, Or, Shl;
    if i >= width {
      DivModUnique(acc, 0, acc, Pow2(width));
    } else if s != [] {
      var x, next := s[0] % 128, Or(acc, Shl(s[0] % 128, i, width));
      OneGroup(acc, x, i, width);
      assert s[..1][1..] == [];
      if s[0] >= 128 {
        GroupsValue(s[1..], i + 7, width, next);
        var r := Groups(s[1..], i + 7, width, next);
        assert s[..r.used + 1][1..] == s[1..][..r.used];
        Pow2Plus7(i);
        SpelledStep(acc, x, Spelled(s[1..][..r.used]), Pow2(i));
        if i + 7 >= width {
          assert s[1..][..0] == [];
        }
      }
    }
  }

  lemma SpelledStep(acc: nat, x: nat, rest: nat, p: nat)
    ensures acc + x * p + rest * (p * 128) == acc + (x + 128 * rest) * p
  {
    assert (x + 128 * rest) * p == x * p + 128 * rest * p;
  }

  /** A reader of too few bits gives the low bits of what was written and, beyond its number of groups, leaves
      the rest of the bytes unread. */
  lemma {:induction false} ReaderCuts(v: nat, rest: seq<Byte>, width: nat)
    requires width > 0
    ensures Decode(Encode(v) + rest, width) ==
            Done(v % Pow2(width), if |Encode(v)| <= (width + 6) / 7 then |Encode(v)| else (width + 6) / 7)
  {
    CutGroups(v, rest, 0, width, 0);
    assert v * Pow2(0) == v;
  }

  lemma {:induction false} CutGroups(v: nat, rest: seq<Byte>, i: nat, width: nat, acc: nat)
    requires i < width && acc < Pow2(i)
    ensures Groups(Encode(v) + rest, i, width, acc) ==
            Done((acc + v * Pow2(i)) % Pow2(width),
                 if |Encode(v)| <= (width - i + 6) / 7 then |Encode(v)| else (width - i + 6) / 7)
    decreases v
  {
    hide Pow2, Or, Shl;
    var s := Encode(v) + rest;
    OneGroup(acc, v % 128, i, width);
    if v >= 128 {
      assert s[1..] == Encode(v / 128) + rest;
      Pow2Plus7(i);
      SpelledStep(acc, v % 128, v / 128, Pow2(i));
      if i + 7 < width {
        CutGroups(v / 128, rest, i + 7, width, acc + v % 128 * Pow2(i));
      } else {
        HighLost(acc + v % 128 * Pow2(i), v / 128, i, width);
      }
    }
  }

  /** A multiple of 2^(i + 7) is nothing to a width of at most i + 7 bits. */
  lemma HighLost(a: nat, high: nat, i: nat, width: nat)
    requires width <= i + 7
    ensures (a + high * Pow2(i + 7)) % Pow2(width) == a % Pow2(width)
  {
    var m, k := Pow2(width), Pow2(i + 7 - width);
    Pow2Add(i + 7 - width, width);
    assert high * Pow2(i + 7) == high * k * m;
    assert a + high * k * m == (a / m + high * k) * m + a % m;
    DivModUnique(a + high * k * m, a / m + high * k, a % m, m);
  }

  /** Reading back a written varint returns the value and consumes exactly its bytes, whatever follows. */
  lemma RoundTrip(v: nat, rest: seq<Byte>, width: nat)
    requires width > 0 && v < Pow2(width)
    ensures Decode(Encode(v) + rest, width) == Done(v, |Encode(v)|)
  {
    GroupsOfEncode(v, rest, 0, width, 0);
    assert v * Pow2(0) == v;
  }

  /** No encoding is a prefix of another one, so a stream of varints is read unambiguously. */
  lemma PrefixFree(u: nat, v: nat, rest: seq<Byte>)
    requires Encode(v) == Encode(u) + rest
    ensures u == v && rest == []
  {
    var width := u + v + 1;
    BelowPow2(width);
    RoundTrip(u, rest, width);
    RoundTrip(v, [], width);
    assert Encode(v) + [] == Encode(v);
  }

  lemma {:induction false} BelowPow2(n: nat)
    ensures n < Pow2(n)
  {
    if n > 0 { BelowPow2(n - 1); }
  }

  /** EncodeZigzag32 and EncodeZigzag64: negation and doubling wrap around at the type's width. */
  function ZigzagEncode(v: int, width: nat): (u: nat)
    requires width > 0
    ensures u < Pow2(width)
  {
    if v < 0 then ToUnsigned(ToUnsigned(ToSigned(ToUnsigned(-v, width), width), width) * 2 - 1, width)
    else ToUnsigned(ToSigned(ToUnsigned(v * 2, width), width), width)
  }

  /** DecodeZigzag32 and DecodeZigzag64: `(v >> 1) ^ -(v & 1)`, converted to the signed type. */
  function ZigzagDecode(u: nat, width: nat): int
    requires width > 0
  {
    ToSigned(Xor(u / 2, ToUnsigned(-(u % 2), width)), width)
  }

  /** The wrapped computation has the specification's closed form, the minimum included. */
  lemma ZigzagClosedForm(v: int, width: nat)
    requires width > 0 && IsSigned(v, width)
    ensures ZigzagEncode(v, width) == if v < 0 then -2 * v - 1 else 2 * v
  {
    var m := Pow2(width);
    assert m == 2 * Pow2(width - 1);
    if v < 0 {
      SignedUnsigned(-v, width);
      DivModUnique(-v, 0, -v, m);
      DivModUnique(-2 * v - 1, 0, -2 * v - 1, m);
    } else {
      SignedUnsigned(v * 2, width);
      DivModUnique(v * 2, 0, v * 2, m);
    }
  }

  /** Passing through the signed type does not change the unsigned value. */
  lemma SignedUnsigned(x: int, width: nat)
    requires width > 0
    ensures ToUnsigned(ToSigned(ToUnsigned(x, width), width), width) == ToUnsigned(x, width)
  {
    var m := Pow2(width);
    var u := x % m;
    DivModUnique(u, 0, u, m);
    DivModUnique(u - m, -1, u, m);
  }

  lemma ZigzagDecodeForm(u: nat, width: nat)
    requires width > 0 && u < Pow2(width)
    ensures ZigzagDecode(u, width) == if u % 2 == 0 then u / 2 else -(u / 2) - 1
  {
    XorOnes(u / 2, width);
    XorZero(u / 2);
    AllOnes(u % 2, width);
    SmallSigned(u / 2, width);
    SmallSigned(Pow2(width) - 1 - u / 2, width);
  }

  lemma AllOnes(b: nat, width: nat)
    requires b < 2
    ensures ToUnsigned(0 - b, width) == if b == 0 then 0 else Pow2(width) - 1
  {
    DivModUnique(0 - b, if b == 0 then 0 else -1, if b == 0 then 0 else Pow2(width) - 1, Pow2(width));
  }

  lemma SmallSigned(x: nat, width: nat)
    requires width > 0 && x < Pow2(width)
    ensures ToSigned(x, width) == if x < Pow2(width - 1) then x else x - Pow2(width)
  {
    DivModUnique(x, 0, x, Pow2(width));
  }

  /** Zigzag is a bijection between the signed and the unsigned type of every width. */
  lemma ZigzagRoundTrip(v: int, width: nat)
    requires width > 0 && IsSigned(v, width)
    ensures ZigzagDecode(ZigzagEncode(v, width), width) == v
  {
    hide Pow2, ZigzagEncode, ZigzagDecode;
    ZigzagClosedForm(v, width);
    ZigzagDecodeForm(ZigzagEncode(v, width), width);
  }

  lemma ZigzagOnto(u: nat, width: nat)
    requires width > 0 && u < Pow2(width)
    ensures IsSigned(ZigzagDecode(u, width), width)
    ensures ZigzagEncode(ZigzagDecode(u, width), width) == u
  {
    ZigzagDecodeForm(u, width);
    ZigzagClosedForm(ZigzagDecode(u, width), width);
  }

  /** Small magnitudes give small codes, so n bytes carry every value of magnitude below 2^(7n-1). */
  lemma ZigzagShort(v: int, width: nat, n: nat)
    requires width > 0 && IsSigned(v, width) && n >= 1
    requires -v < Pow2(7 * n - 1) && v < Pow2(7 * n - 1)
    ensures |Encode(ZigzagEncode(v, width))| <= n
  {
    ZigzagClosedForm(v, width);
    ZigzagMagnitude(v, width, 7 * n - 1);
    LengthBound(ZigzagEncode(v, width), n);
  }

  lemma ZigzagMagnitude(v: int, width: nat, k: nat)
    requires width > 0 && IsSigned(v, width) && -v < Pow2(k) && v < Pow2(k)
    ensures ZigzagEncode(v, width) < Pow2(k + 1)
  {
    ZigzagClosedForm(v, width);
    assert Pow2(k + 1) == 2 * Pow2(k);
  }
}
