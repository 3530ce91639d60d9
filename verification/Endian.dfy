/** Host and wire byte order (endian.h): integers as memory images, and byteswap. */
module Endian {
  import opened Bits

  datatype Order = Little | Big

  /** The bytes of an integer of `w` bytes, least significant first. */
  function LittleBytes(v: nat, w: nat): (s: seq<Byte>)
    ensures |s| == w
  {
    if w == 0 then [] else [v % 256] + LittleBytes(v / 256, w - 1)
  }

  function LittleValue(s: seq<Byte>): nat {
    if s == [] then 0 else s[0] + 256 * LittleValue(s[1..])
  }

  function Reverse(s: seq<Byte>): (r: seq<Byte>)
    ensures |r| == |s|
    ensures forall i :: 0 <= i < |s| ==> r[i] == s[|s| - 1 - i]
  {
    if s == [] then [] else Reverse(s[1..]) + [s[0]]
  }

  /** What memcpy of an integer of `w` bytes copies on a machine of the given byte order. */
  function Image(o: Order, v: nat, w: nat): (s: seq<Byte>)
    ensures |s| == w
  {
    if o.Little? then LittleBytes(v, w) else Reverse(LittleBytes(v, w))
  }

  /** What memcpy of those bytes into an integer gives back. */
  function ValueOf(o: Order, s: seq<Byte>): nat {
    if o.Little? then LittleValue(s) else LittleValue(Reverse(s))
  }

  /** bswap_16, bswap_32 and bswap_64: the lowest byte moves to the top, and so on. */
  function Byteswap(v: nat, w: nat): nat {
    if w == 0 then 0 else v % 256 * Pow2(8 * (w - 1)) + Byteswap(v / 256, w - 1)
  }

  /** The value after `if(m_endian != SYLAR_BYTE_ORDER) value = byteswap(value)`. */
  function Ordered(host: Order, wire: Order, v: nat, w: nat): nat {
    if wire != host then Byteswap(v, w) else v
  }

  lemma {:induction false} LittleValueBound(s: seq<Byte>)
    ensures LittleValue(s) < Pow2(8 * |s|)
  {
    if s != [] {
      LittleValueBound(s[1..]);
      Pow2Octet();
      Pow2Add(8, 8 * (|s| - 1));
    }
  }

  lemma {:induction false} LittleRoundTrip(v: nat, w: nat)
    requires v < Pow2(8 * w)
    ensures LittleValue(LittleBytes(v, w)) == v
  {
    if w > 0 {
      Pow2Octet();
      Pow2Add(8, 8 * (w - 1));
      LittleRoundTrip(v / 256, w - 1);
    }
  }

  lemma {:induction false} LittleBytesOfValue(s: seq<Byte>)
    ensures LittleBytes(LittleValue(s), |s|) == s
  {
    if s != [] {
      LittleBytesOfValue(s[1..]);
      DivModUnique(LittleValue(s), LittleValue(s[1..]), s[0], 256);
      assert s == [s[0]] + s[1..];
    }
  }

  lemma {:induction false} ValueAppend(s: seq<Byte>, b: Byte)
    ensures LittleValue(s + [b]) == LittleValue(s) + b * Pow2(8 * |s|)
  {
    if s == [] {
      assert s + [b] == [b];
      assert LittleValue([b][1..]) == 0;
    } else {
      ValueAppend(s[1..], b);
      assert (s + [b])[1..] == s[1..] + [b];
      Pow2Octet();
      Pow2Add(8, 8 * (|s| - 1));
      assert Pow2(8 * |s|) == 256 * Pow2(8 * (|s| - 1));
      assert b * Pow2(8 * |s|) == 256 * (b * Pow2(8 * (|s| - 1)));
    }
  }

  lemma ReverseTwice(s: seq<Byte>)
    ensures Reverse(Reverse(s)) == s
  {
  }

  /** Byte k of a little-endian image is the k-th lowest of the value, that of a big-endian one the k-th highest. */
  lemma ImageByte(v: nat, w: nat, k: nat)
    requires k < w
    ensures Image(Little, v, w)[k] == v / Pow2(8 * k) % 256
    ensures Image(Big, v, w)[k] == v / Pow2(8 * (w - 1 - k)) % 256
  {
    LittleByte(v, w, k);
    LittleByte(v, w, w - 1 - k);
  }

  lemma {:induction false} LittleByte(v: nat, w: nat, k: nat)
    requires k < w
    ensures LittleBytes(v, w)[k] == v / Pow2(8 * k) % 256
  {
    if k > 0 {
      LittleByte(v / 256, w - 1, k - 1);
      Pow2Octet();
      Pow2Add(8, 8 * (k - 1));
      DivTwice(v, 256, Pow2(8 * (k - 1)));
    }
  }

  /** byteswap is exactly reversal of the memory image. */
  lemma {:induction false} ByteswapReverses(v: nat, w: nat)
    ensures Byteswap(v, w) == LittleValue(Reverse(LittleBytes(v, w)))
  {
    if w > 0 {
      ByteswapReverses(v / 256, w - 1);
      var rest := LittleBytes(v / 256, w - 1);
      assert LittleBytes(v, w)[1..] == rest;
      ValueAppend(Reverse(rest), v % 256);
    }
  }

  lemma ByteswapImage(v: nat, w: nat)
    ensures Byteswap(v, w) < Pow2(8 * w)
    ensures LittleBytes(Byteswap(v, w), w) == Reverse(LittleBytes(v, w))
  {
    ByteswapReverses(v, w);
    LittleValueBound(Reverse(LittleBytes(v, w)));
    LittleBytesOfValue(Reverse(LittleBytes(v, w)));
  }

  lemma ByteswapInvolution(v: nat, w: nat)
    requires v < Pow2(8 * w)
    ensures Byteswap(v, w) < Pow2(8 * w) && Byteswap(Byteswap(v, w), w) == v
  {
    ByteswapImage(v, w);
    ByteswapReverses(Byteswap(v, w), w);
    ReverseTwice(LittleBytes(v, w));
    LittleRoundTrip(v, w);
  }

  /** A fixed-width write puts the value in wire order whatever the host's order is. */
  lemma WireImage(host: Order, wire: Order, v: nat, w: nat)
    ensures Image(host, Ordered(host, wire, v, w), w) == Image(wire, v, w)
  {
    if wire != host {
      ByteswapImage(v, w);
      ReverseTwice(LittleBytes(v, w));
    }
  }

  /** A fixed-width read takes the bytes in wire order whatever the host's order is. */
  lemma WireValue(host: Order, wire: Order, s: seq<Byte>)
    ensures Ordered(host, wire, ValueOf(host, s), |s|) == ValueOf(wire, s)
    ensures ValueOf(wire, s) < Pow2(8 * |s|)
  {
    LittleValueBound(s);
    LittleValueBound(Reverse(s));
    if wire != host {
      ByteswapReverses(ValueOf(host, s), |s|);
      LittleBytesOfValue(s);
      LittleBytesOfValue(Reverse(s));
      ReverseTwice(s);
    }
  }

  lemma ImageRoundTrip(o: Order, v: nat, w: nat)
    requires v < Pow2(8 * w)
    ensures ValueOf(o, Image(o, v, w)) == v
  {
    LittleRoundTrip(v, w);
    ReverseTwice(LittleBytes(v, w));
  }
}
