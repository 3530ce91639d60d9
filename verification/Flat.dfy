/** The specification of ByteArray: a flat byte memory with a cursor, a data size and a capacity that
    grows by whole blocks, and the typed values read and written through it. */
module FlatStream {
  import opened Bits
  import opened Endian
  import Varint

  /** `mem` is the whole capacity; bytes at or beyond `size` are allocated but hold no data yet. `longest`
      is max_size() of std::string, which depends on the library. */
  datatype Flat = Flat(base: nat, longest: nat, mem: seq<Byte>, pos: nat, size: nat)

  /** How a call can end: normally, or by throwing std::out_of_range, by following a null node, or by the
      exception of std::string::resize for a length beyond max_size(). */
  datatype Outcome<+T> = Ok(value: T) | Fault(why: Why)
  datatype Why = OutOfRange | NullDeref | LengthError

  predicate Valid(f: Flat) {
    f.base >= 1 && f.pos <= f.size <= |f.mem|
  }

  function Max(a: nat, b: nat): nat {
    if a < b then b else a
  }

  // ----- capacity -----

  function CeilDiv(n: nat, base: nat): nat
    requires base >= 1
  {
    n / base + (if n % base > 0 then 1 else 0)
  }

  /** The capacity after making room up to address `need`. */
  function Grown(base: nat, cap: nat, need: nat): nat
    requires base >= 1
  {
    if need <= cap then cap else cap + CeilDiv(need - cap, base) * base
  }

  lemma CeilDivUnique(n: nat, base: nat, k: nat)
    requires base >= 1 && n <= k * base < n + base
    ensures CeilDiv(n, base) == k
  {
    if n == k * base {
      DivModUnique(n, k, 0, base);
    } else {
      assert n == (k - 1) * base + (n + base - k * base);
      DivModUnique(n, k - 1, n + base - k * base, base);
    }
  }

  lemma CeilDivBounds(n: nat, base: nat)
    requires base >= 1
    ensures n <= CeilDiv(n, base) * base < n + base
  {
    assert n == n / base * base + n % base;
  }

  /** The new capacity is the least block-wise extension that holds the address. */
  lemma GrownLeast(base: nat, cap: nat, need: nat, blocks: nat)
    requires base >= 1 && need <= cap + blocks * base
    ensures need <= Grown(base, cap, need) <= cap + blocks * base
  {
    if need > cap {
      var k := CeilDiv(need - cap, base);
      CeilDivBounds(need - cap, base);
      BlockLess(k, blocks, base);
      MulAtMost(k, blocks, base);
    } else {
      MulAtMost(0, blocks, base);
    }
  }

  /** Growing in two steps ends with the same capacity as growing at once. */
  lemma GrownTwice(base: nat, cap: nat, need: nat, more: nat)
    requires base >= 1 && need <= more
    ensures Grown(base, Grown(base, cap, need), more) == Grown(base, cap, more)
  {
    var c := Grown(base, cap, need);
    if cap < need {
      var k := CeilDiv(need - cap, base);
      CeilDivBounds(need - cap, base);
      if more <= c {
        CeilDivUnique(more - cap, base, k);
      } else {
        var j := CeilDiv(more - c, base);
        CeilDivBounds(more - c, base);
        assert (k + j) * base == k * base + j * base;
        CeilDivUnique(more - cap, base, k + j);
      }
    }
  }

  // ----- writing -----

  /** g is f with `buf` put at the cursor and the cursor moved over it: no other byte below the old
      capacity changes. Capacity that is new holds unspecified bytes. */
  predicate Stored(f: Flat, buf: seq<Byte>, g: Flat) {
    && Valid(f) && Valid(g)
    && g.base == f.base && g.longest == f.longest
    && g.pos == f.pos + |buf|
    && g.size == Max(f.size, g.pos)
    && |f.mem| <= |g.mem|
    && g.mem[f.pos..g.pos] == buf
    && (forall k :: 0 <= k < |f.mem| && !(f.pos <= k < g.pos) ==> g.mem[k] == f.mem[k])
  }

  /** g is a result of write(buf) in f: the capacity grows only when it has to. */
  predicate Wrote(f: Flat, buf: seq<Byte>, g: Flat) {
    Stored(f, buf, g) && |g.mem| == Grown(f.base, |f.mem|, g.pos)
  }

  /** Two ways of storing the same bytes give the same data, cursor and size. */
  lemma StoredUnique(f: Flat, buf: seq<Byte>, g: Flat, h: Flat)
    requires Stored(f, buf, g) && Stored(f, buf, h)
    ensures g.pos == h.pos && g.size == h.size && g.mem[..g.size] == h.mem[..h.size]
  {
    forall k | 0 <= k < g.size
      ensures g.mem[k] == h.mem[k]
    {
      if f.pos <= k < g.pos {
        assert g.mem[k] == g.mem[f.pos..g.pos][k - f.pos] == h.mem[f.pos..h.pos][k - f.pos];
      }
    }
  }

  lemma StoredNothing(f: Flat)
    requires Valid(f)
    ensures Stored(f, [], f) && Wrote(f, [], f)
  {
  }

  /** Storing twice is storing the concatenation. */
  lemma StoredTwice(f: Flat, a: seq<Byte>, g: Flat, b: seq<Byte>, h: Flat)
    requires Stored(f, a, g) && Stored(g, b, h)
    ensures Stored(f, a + b, h)
  {
    assert h.mem[f.pos..g.pos] == g.mem[f.pos..g.pos];
    assert h.mem[f.pos..h.pos] == h.mem[f.pos..g.pos] + h.mem[g.pos..h.pos];
  }

  /** Consecutive writes are one write of the concatenation. */
  lemma WroteTwice(f: Flat, a: seq<Byte>, g: Flat, b: seq<Byte>, h: Flat)
    requires Wrote(f, a, g) && Wrote(g, b, h)
    ensures Wrote(f, a + b, h)
  {
    StoredTwice(f, a, g, b, h);
    GrownTwice(f.base, |f.mem|, g.pos, h.pos);
  }

  // ----- reading -----

  /** read(buf, n): the length check comes first, then the current node is dereferenced. */
  function Take(f: Flat, n: nat): (Outcome<seq<Byte>>, Flat)
    requires Valid(f)
  {
    if n > f.size - f.pos then (Fault(OutOfRange), f)
    else if f.pos == |f.mem| then (Fault(NullDeref), f)
    else (Ok(f.mem[f.pos..f.pos + n]), f.(pos := f.pos + n))
  }

  /** The only fault of a read: nothing is asked for while the cursor stands at the capacity. */
  lemma TakeFaultIff(f: Flat, n: nat)
    requires Valid(f)
    ensures Take(f, n).0 == Fault(NullDeref) <==> n == 0 && f.pos == |f.mem|
  {
  }

  /** size_t subtraction. */
  function Minus64(a: nat, b: nat): nat {
    ToUnsigned(a - b, 64)
  }

  /** read(buf, n, p): the guard subtracts in size_t, so an address beyond the data size wraps. */
  function Peek(f: Flat, n: nat, p: nat): Outcome<seq<Byte>>
    requires Valid(f)
  {
    if n > Minus64(f.size, p) then Fault(OutOfRange)
    else if p >= |f.mem| || p + n > |f.mem| then Fault(NullDeref)
    else Ok(f.mem[p..p + n])
  }

  /** The positional read refuses every read past the data exactly when its start address is within
      the data, or the wrapped difference happens to be too small. */
  lemma PeekGuardIff(f: Flat, n: nat, p: nat)
    requires Valid(f) && p < Pow2(64) && f.size < Pow2(64) && p + n > f.size
    ensures Peek(f, n, p) == Fault(OutOfRange) <==> p <= f.size || n > Pow2(64) - (p - f.size)
  {
    hide Pow2;
    if p <= f.size {
      DivModUnique(f.size - p, 0, f.size - p, Pow2(64));
    } else {
      DivModUnique(f.size - p, -1, f.size - p + Pow2(64), Pow2(64));
    }
  }

  lemma PeekInside(f: Flat, n: nat, p: nat)
    requires Valid(f) && f.size < Pow2(64) && p + n <= f.size
    ensures Peek(f, n, p) == if p == |f.mem| then Fault(NullDeref) else Ok(f.mem[p..p + n])
  {
    hide Pow2;
    DivModUnique(f.size - p, 0, f.size - p, Pow2(64));
  }

  /** Concrete failure of the guard: one byte of data, a one-byte read at address 2 is served from
      memory that was never written. */
  lemma PeekStale(b: Byte, c: Byte, d: Byte)
    ensures Peek(Flat(4, 100, [b, c, d, d], 0, 1), 1, 2) == Ok([d])
  {
    var f := Flat(4, 100, [b, c, d, d], 0, 1);
    Pow2Monotone(3, 64);
    assert Pow2(3) == 8;
    PeekGuardIff(f, 1, 2);
    assert f.mem[2..3] == [d];
  }

  // ----- typed values -----

  /** The overloads: fixed-width (`F`) integers, varints, zigzag varints and length-prefixed strings.
      Widths are in bytes; float and double travel as Fuint(4) and Fuint(8) bit patterns. */
  datatype Kind = Fuint(w: nat) | Fint(w: nat) | Uint(w: nat) | Int(w: nat) | StringF(w: nat) | StringVint
  datatype Value = Number(n: int) | Text(s: seq<Byte>)
  datatype Item = Item(kind: Kind, value: Value)

  /** The value has the C++ type of the overload's argument. */
  predicate Typed(i: Item) {
    match i.kind
    case Fuint(w) => w in {1, 2, 4, 8} && i.value.Number? && 0 <= i.value.n < Pow2(8 * w)
    case Fint(w) => w in {1, 2, 4, 8} && i.value.Number? && IsSigned(i.value.n, 8 * w)
    case Uint(w) => w in {4, 8} && i.value.Number? && 0 <= i.value.n < Pow2(8 * w)
    case Int(w) => w in {4, 8} && i.value.Number? && IsSigned(i.value.n, 8 * w)
    case StringF(w) => w in {2, 4, 8} && i.value.Text?
    case StringVint => i.value.Text? && |i.value.s| < Pow2(64)
  }

  /** A string is one that can exist, and its length fits its prefix. */
  predicate Fits(i: Item, longest: nat) {
    && Typed(i)
    && (i.value.Text? ==> |i.value.s| <= longest)
    && (i.kind.StringF? ==> |i.value.s| < Pow2(8 * i.kind.w))
  }

  /** The bytes an item is written as; a string's length is truncated to its prefix type. */
  function Encode(i: Item, o: Order): (s: seq<Byte>)
    requires Typed(i)
    ensures |s| >= 1
  {
    match i.kind
    case Fuint(w) => Image(o, i.value.n, w)
    case Fint(w) => Image(o, ToUnsigned(i.value.n, 8 * w), w)
    case Uint(w) => Varint.Encode(i.value.n)
    case Int(w) => Varint.Encode(Varint.ZigzagEncode(i.value.n, 8 * w))
    case StringF(w) => Image(o, ToUnsigned(|i.value.s|, 8 * w), w) + i.value.s
    case StringVint => Varint.Encode(|i.value.s|) + i.value.s
  }

  predicate AllTyped(items: seq<Item>) {
    forall k :: 0 <= k < |items| ==> Typed(items[k])
  }

  predicate AllFit(items: seq<Item>, longest: nat): (b: bool)
    ensures b ==> AllTyped(items)
  {
    forall k :: 0 <= k < |items| ==> Fits(items[k], longest)
  }

  function EncodeAll(items: seq<Item>, o: Order): seq<Byte>
    requires AllTyped(items)
  {
    if items == [] then [] else Encode(items[0], o) + EncodeAll(items[1..], o)
  }

  function TakeFuint(f: Flat, w: nat, o: Order): (Outcome<nat>, Flat)
    requires Valid(f)
  {
    match Take(f, w)
    case (Ok(s), g) => (Ok(ValueOf(o, s)), g)
    case (Fault(why), g) => (Fault(why), g)
  }

  /** A varint that runs out of data throws after the cursor has moved over what there was. */
  function TakeUint(f: Flat, w: nat): (Outcome<nat>, Flat)
    requires Valid(f)
  {
    match Varint.Decode(f.mem[f.pos..f.size], 8 * w)
    case Done(v, used) => (Ok(v), f.(pos := f.pos + used))
    case Short(used) => (Fault(OutOfRange), f.(pos := f.pos + used))
  }

  function AsNumber(r: (Outcome<nat>, Flat)): (Outcome<Value>, Flat) {
    match r
    case (Ok(n), g) => (Ok(Number(n)), g)
    case (Fault(why), g) => (Fault(why), g)
  }

  /** The body of a string whose length prefix has been read. */
  function TakeBody(r: (Outcome<nat>, Flat)): (Outcome<Value>, Flat)
    requires Valid(r.1)
  {
    match r
    case (Ok(n), g) =>
      if n > g.longest then (Fault(LengthError), g)
      else
      (match Take(g, n)
       case (Ok(s), h) => (Ok(Text(s)), h)
       case (Fault(why), h) => (Fault(why), h))
    case (Fault(why), g) => (Fault(why), g)
  }

  function TakeFint(f: Flat, w: nat, o: Order): (Outcome<Value>, Flat)
    requires Valid(f)
  {
    match TakeFuint(f, w, o)
    case (Ok(n), g) => (Ok(Number(if w == 0 then 0 else ToSigned(n, 8 * w))), g)
    case (Fault(why), g) => (Fault(why), g)
  }

  function TakeInt(f: Flat, w: nat): (Outcome<Value>, Flat)
    requires Valid(f)
  {
    match TakeUint(f, w)
    case (Ok(n), g) => (Ok(Number(if w == 0 then 0 else Varint.ZigzagDecode(n, 8 * w))), g)
    case (Fault(why), g) => (Fault(why), g)
  }

  function TakeItem(f: Flat, k: Kind, o: Order): (r: (Outcome<Value>, Flat))
    requires Valid(f)
    ensures Valid(r.1)
  {
    match k
    case Fuint(w) => AsNumber(TakeFuint(f, w, o))
    case Fint(w) => TakeFint(f, w, o)
    case Uint(w) => AsNumber(TakeUint(f, w))
    case Int(w) => TakeInt(f, w)
    case StringF(w) => TakeBody(TakeFuint(f, w, o))
    case StringVint => TakeBody(TakeUint(f, 8))
  }

  /** Reads in order until one does not end normally. */
  function TakeAll(f: Flat, kinds: seq<Kind>, o: Order): (Outcome<seq<Value>>, Flat)
    requires Valid(f)
    decreases kinds
  {
    if kinds == [] then (Ok([]), f)
    else
      match TakeItem(f, kinds[0], o)
      case (Ok(v), g) =>
        (match TakeAll(g, kinds[1..], o)
         case (Ok(vs), h) => (Ok([v] + vs), h)
         case (Fault(why), h) => (Fault(why), h))
      case (Fault(why), g) => (Fault(why), g)
  }

  function Kinds(items: seq<Item>): (ks: seq<Kind>)
    ensures |ks| == |items|
  {
    if items == [] then [] else [items[0].kind] + Kinds(items[1..])
  }

  function Values(items: seq<Item>): (vs: seq<Value>)
    ensures |vs| == |items|
  {
    if items == [] then [] else [items[0].value] + Values(items[1..])
  }

  // ----- round trips -----

  lemma SignedRoundTrip(n: int, width: nat)
    requires width > 0 && IsSigned(n, width)
    ensures ToSigned(ToUnsigned(n, width), width) == n
  {
    var m := Pow2(width);
    assert m == 2 * Pow2(width - 1);
    if n >= 0 {
      DivModUnique(n, 0, n, m);
    } else {
      DivModUnique(n, -1, n + m, m);
    }
    Varint.SmallSigned(ToUnsigned(n, width), width);
  }

  lemma AfterPrefix(f: Flat, bytes: seq<Byte>, rest: seq<Byte>)
    requires Valid(f) && f.mem[f.pos..f.size] == bytes + rest
    ensures f.pos + |bytes| <= f.size
    ensures f.mem[f.pos..f.pos + |bytes|] == bytes
    ensures f.mem[f.pos + |bytes|..f.size] == rest
  {
    var data := f.mem[f.pos..f.size];
    assert |data| == |bytes| + |rest|;
    assert f.mem[f.pos..f.pos + |bytes|] == data[..|bytes|];
    assert f.mem[f.pos + |bytes|..f.size] == data[|bytes|..];
  }

  lemma TakeFuintPrefix(f: Flat, v: nat, w: nat, o: Order, rest: seq<Byte>)
    requires Valid(f) && w >= 1 && v < Pow2(8 * w)
    requires f.mem[f.pos..f.size] == Image(o, v, w) + rest
    ensures TakeFuint(f, w, o) == (Ok(v), f.(pos := f.pos + w))
  {
    hide Image, ValueOf;
    ImageRoundTrip(o, v, w);
    AfterPrefix(f, Image(o, v, w), rest);
  }

  lemma TakeUintPrefix(f: Flat, v: nat, w: nat, rest: seq<Byte>)
    requires Valid(f) && w >= 1 && v < Pow2(8 * w)
    requires f.mem[f.pos..f.size] == Varint.Encode(v) + rest
    ensures TakeUint(f, w) == (Ok(v), f.(pos := f.pos + |Varint.Encode(v)|))
  {
    Varint.RoundTrip(v, rest, 8 * w);
  }

  lemma SliceTake(s: seq<Byte>, a: nat, b: nat, n: nat)
    requires a + n <= b <= |s|
    ensures s[a..b][..n] == s[a..a + n]
  {
  }

  lemma TakeBodyPrefix(f: Flat, used: nat, n: nat, tail: seq<Byte>)
    requires Valid(f) && n <= |tail| && n <= f.longest
    requires f.pos + used + |tail| == f.size && f.mem[f.pos + used..f.size] == tail
    ensures var g := f.(pos := f.pos + used);
            Valid(g) && TakeBody((Ok(n), g)) ==
            if n == 0 && g.pos == |f.mem| then (Fault(NullDeref), g)
            else (Ok(Text(tail[..n])), g.(pos := g.pos + n))
  {
    SliceTake(f.mem, f.pos + used, f.size, n);
  }

  /** Whether reading the item back, ending at address `end` of `cap`, asks for nothing at the capacity. */
  predicate EmptyAtCapacity(i: Item, end: nat, cap: nat) {
    i.value == Text([]) && end == cap
  }

  lemma TakeNumber(f: Flat, i: Item, o: Order, rest: seq<Byte>)
    requires Valid(f) && Fits(i, f.longest) && i.value.Number?
    requires f.mem[f.pos..f.size] == Encode(i, o) + rest
    ensures TakeItem(f, i.kind, o) == (Ok(i.value), f.(pos := f.pos + |Encode(i, o)|))
  {
    hide TakeFuint, TakeUint, Image, IsSigned, Pow2;
    match i.kind
    case Fuint(w) =>
      TakeFuintPrefix(f, i.value.n, w, o, rest);
    case Fint(w) =>
      TakeFuintPrefix(f, ToUnsigned(i.value.n, 8 * w), w, o, rest);
      SignedRoundTrip(i.value.n, 8 * w);
    case Uint(w) =>
      TakeUintPrefix(f, i.value.n, w, rest);
    case Int(w) =>
      TakeUintPrefix(f, Varint.ZigzagEncode(i.value.n, 8 * w), w, rest);
      Varint.ZigzagRoundTrip(i.value.n, 8 * w);
  }

  /** Reading an item from the bytes it was written as, whatever follows. */
  lemma TakeEncoded(f: Flat, i: Item, o: Order, rest: seq<Byte>)
    requires Valid(f) && Fits(i, f.longest)
    requires f.mem[f.pos..f.size] == Encode(i, o) + rest
    ensures TakeItem(f, i.kind, o) ==
            (if EmptyAtCapacity(i, f.pos + |Encode(i, o)|, |f.mem|) then Fault(NullDeref) else Ok(i.value),
             f.(pos := f.pos + |Encode(i, o)|))
  {
    hide TakeItem, Encode, Fits, Typed;
    if i.value.Number? {
      TakeNumber(f, i, o, rest);
    } else {
      TakeString(f, i, o, rest);
    }
  }

  lemma TakeString(f: Flat, i: Item, o: Order, rest: seq<Byte>)
    requires Valid(f) && Fits(i, f.longest) && i.value.Text?
    requires f.mem[f.pos..f.size] == Encode(i, o) + rest
    ensures TakeItem(f, i.kind, o) ==
            (if EmptyAtCapacity(i, f.pos + |Encode(i, o)|, |f.mem|) then Fault(NullDeref) else Ok(i.value),
             f.(pos := f.pos + |Encode(i, o)|))
  {
    hide TakeFuint, TakeUint, TakeBody, TakeFint, TakeInt, Image, IsSigned, AsNumber, Pow2, Varint.Encode;
    var s := i.value.s;
    match i.kind
    case StringVint =>
      TakeText(f, Varint.Encode(|s|), s, rest);
      TakeUintPrefix(f, |s|, 8, s + rest);
    case StringF(w) =>
      ModSmall(|s|, Pow2(8 * w));
      TakeText(f, Image(o, |s|, w), s, rest);
      TakeFuintPrefix(f, |s|, w, o, s + rest);
  }

  /** A string's body after its prefix of any form. */
  lemma TakeText(f: Flat, prefix: seq<Byte>, s: seq<Byte>, rest: seq<Byte>)
    requires Valid(f) && f.mem[f.pos..f.size] == prefix + s + rest && |s| <= f.longest
    ensures f.mem[f.pos..f.size] == prefix + (s + rest)
    ensures f.pos + |prefix| <= f.size
    ensures var g := f.(pos := f.pos + |prefix|);
            TakeBody((Ok(|s|), g)) ==
            if s == [] && g.pos == |f.mem| then (Fault(NullDeref), g) else (Ok(Text(s)), g.(pos := g.pos + |s|))
  {
    var tail := s + rest;
    assert prefix + s + rest == prefix + tail;
    assert |f.mem[f.pos..f.size]| == f.size - f.pos;
    assert f.mem[f.pos + |prefix|..f.size] == (prefix + tail)[|prefix|..] == tail;
    TakeBodyPrefix(f, |prefix|, |s|, tail);
    assert tail[..|s|] == s;
  }

  /** Whether the last item is an empty string whose encoding ends exactly at the capacity. */
  predicate EndsAtCapacity(items: seq<Item>, end: nat, cap: nat) {
    items != [] && EmptyAtCapacity(items[|items| - 1], end, cap)
  }

  lemma {:induction false} TakeAllEncoded(f: Flat, items: seq<Item>, o: Order, rest: seq<Byte>)
    requires Valid(f) && AllFit(items, f.longest)
    requires f.mem[f.pos..f.size] == EncodeAll(items, o) + rest
    ensures TakeAll(f, Kinds(items), o) ==
            (if EndsAtCapacity(items, f.pos + |EncodeAll(items, o)|, |f.mem|)
             then Fault(NullDeref) else Ok(Values(items)),
             f.(pos := f.pos + |EncodeAll(items, o)|))
    decreases |items|
  {
    hide TakeItem, Encode, Fits, Typed;
    if items == [] {
      assert f.(pos := f.pos + 0) == f;
    } else {
      var first, tail := Encode(items[0], o), EncodeAll(items[1..], o);
      assert EncodeAll(items, o) + rest == first + (tail + rest);
      assert AllFit(items[1..], f.longest);
      var r := TakeItem(f, items[0].kind, o);
      var g := f.(pos := f.pos + |first|);
      assert r == (if EmptyAtCapacity(items[0], g.pos, |f.mem|) then Fault(NullDeref) else Ok(items[0].value), g) by {
        TakeEncoded(f, items[0], o, tail + rest);
      }
      AfterPrefix(f, first, tail + rest);
      if r.0.Ok? {
        TakeAllEncoded(g, items[1..], o, rest);
        assert items[1..] != [] ==> items[1..][|items| - 2] == items[|items| - 1];
      } else {
        NothingAfter(items[1..], o);
      }
    }
  }

  lemma NothingAfter(items: seq<Item>, o: Order)
    requires AllTyped(items)
    ensures EncodeAll(items, o) == [] <==> items == []
  {
    if items != [] {
      assert |EncodeAll(items, o)| >= |Encode(items[0], o)|;
    }
  }

  /** The typed stream law, with its exact condition: after writing the items and moving the cursor
      back, reading the same types returns the same values and the same final cursor, unless the last
      item is an empty string that ends exactly at the capacity. In that one case the final
      zero-length read follows a null node. */
  lemma StreamRoundTrip(f: Flat, items: seq<Item>, o: Order, g: Flat)
    requires AllFit(items, f.longest)
    requires Wrote(f, EncodeAll(items, o), g)
    ensures var r := TakeAll(g.(pos := f.pos), Kinds(items), o);
            && r.1 == g
            && (r.0 == Ok(Values(items)) <==> !EndsAtCapacity(items, g.pos, |g.mem|))
            && (EndsAtCapacity(items, g.pos, |g.mem|) ==> r.0 == Fault(NullDeref))
  {
    hide TakeAll, EncodeAll, AllFit, Kinds, Values;
    var h := g.(pos := f.pos);
    var bytes := EncodeAll(items, o);
    assert g.mem[f.pos..g.size] == g.mem[f.pos..g.pos] + g.mem[g.pos..g.size];
    TakeAllEncoded(h, items, o, g.mem[g.pos..g.size]);
  }

  /** The part of a string that its length prefix of `w` bytes can announce. */
  function Announced(s: seq<Byte>, w: nat): seq<Byte> {
    ModSmall(|s|, Pow2(8 * w));
    s[..|s| % Pow2(8 * w)]
  }

  /** A string longer than its prefix can say is cut: exactly the strings that fit come back whole. */
  lemma StringFIff(f: Flat, s: seq<Byte>, w: nat, o: Order, rest: seq<Byte>)
    requires Valid(f) && w in {2, 4, 8} && |s| <= f.longest
    requires f.mem[f.pos..f.size] == Encode(Item(StringF(w), Text(s)), o) + rest
    ensures TakeItem(f, StringF(w), o).0 ==
            if Announced(s, w) == [] && f.pos + w == |f.mem| then Fault(NullDeref) else Ok(Text(Announced(s, w)))
    ensures Announced(s, w) == s <==> |s| < Pow2(8 * w)
  {
    ModSmall(|s|, Pow2(8 * w));
    TakeLongText(f, s, |s| % Pow2(8 * w), w, o, rest);
  }

  /** 65536 bytes behind a prefix of two come back as the empty string. */
  lemma StringVanishes(f: Flat, s: seq<Byte>, o: Order)
    requires Valid(f) && |s| == 65536 <= f.longest
    requires f.mem[f.pos..f.size] == Encode(Item(StringF(2), Text(s)), o)
    ensures TakeItem(f, StringF(2), o).0 == Ok(Text([])) && s != []
  {
    hide TakeItem, Image, Pow2;
    Pow2Wide();
    assert 8 * 2 == 16 && s[..0] == [];
    assert Encode(Item(StringF(2), Text(s)), o) + [] == Encode(Item(StringF(2), Text(s)), o);
    StringFIff(f, s, 2, o, []);
  }

  lemma TakeLongText(f: Flat, s: seq<Byte>, n: nat, w: nat, o: Order, rest: seq<Byte>)
    requires Valid(f) && w >= 1 && n <= |s| <= f.longest && n < Pow2(8 * w)
    requires f.mem[f.pos..f.size] == Image(o, n, w) + s + rest
    ensures TakeBody(TakeFuint(f, w, o)).0 ==
            if n == 0 && f.pos + w == |f.mem| then Fault(NullDeref) else Ok(Text(s[..n]))
  {
    hide TakeFuint, TakeBody, Image;
    assert f.mem[f.pos..f.size] == Image(o, n, w) + s[..n] + (s[n..] + rest) by {
      assert s == s[..n] + s[n..];
    }
    TakeText(f, Image(o, n, w), s[..n], s[n..] + rest);
    TakeFuintPrefix(f, n, w, o, s[..n] + (s[n..] + rest));
  }

  lemma ModSmall(x: nat, m: nat)
    requires m > 0
    ensures x % m <= x && (x % m == x <==> x < m)
  {
    assert x == x / m * m + x % m;
    if x < m { DivModUnique(x, 0, x, m); }
  }
}
