/** A flat memory cut into blocks of equal size: where a flat address lies, and what a copy into one
    block does to the whole. */
module Blocks {
  import opened Bits

  function Concat(bs: seq<seq<Byte>>): seq<Byte> {
    if bs == [] then [] else bs[0] + Concat(bs[1..])
  }

  predicate Uniform(bs: seq<seq<Byte>>, base: nat) {
    forall i :: 0 <= i < |bs| ==> |bs[i]| == base
  }

  function Splice(s: seq<Byte>, at: nat, chunk: seq<Byte>): (r: seq<Byte>)
    requires at + |chunk| <= |s|
    ensures |r| == |s|
  {
    s[..at] + chunk + s[at + |chunk|..]
  }

  /** The flat address of offset `off` in block k, and back. */
  function Address(k: nat, off: nat, base: nat): nat {
    k * base + off
  }

  function BlockOf(p: nat, base: nat): nat
    requires base >= 1
  {
    p / base
  }

  function OffsetOf(p: nat, base: nat): (off: nat)
    requires base >= 1
    ensures off < base
  {
    p % base
  }

  lemma AddressOf(p: nat, base: nat)
    requires base >= 1
    ensures Address(BlockOf(p, base), OffsetOf(p, base), base) == p
  {
  }

  /** Moving within a block, and over its end. */
  lemma AddressMoves(k: nat, off: nat, n: nat, base: nat)
    ensures Address(k, off, base) + n == Address(k, off + n, base)
    ensures Address(k, base, base) == Address(k + 1, 0, base)
    ensures Address(0, off, base) == off
  {
    assert (k + 1) * base == k * base + base;
  }

  lemma Located(k: nat, off: nat, base: nat)
    requires off < base
    ensures BlockOf(Address(k, off, base), base) == k && OffsetOf(Address(k, off, base), base) == off
  {
    DivModUnique(k * base + off, k, off, base);
  }

  lemma {:induction false} ConcatLength(bs: seq<seq<Byte>>, base: nat)
    requires Uniform(bs, base)
    ensures |Concat(bs)| == Address(|bs|, 0, base)
  {
    if bs != [] {
      ConcatLength(bs[1..], base);
      assert |bs| * base == base + (|bs| - 1) * base;
    }
  }

  /** An address below the total length lies in an existing block, the total length in none. */
  lemma InRange(bs: seq<seq<Byte>>, base: nat, k: nat, off: nat)
    requires Uniform(bs, base) && off < base
    ensures Address(k, off, base) < |Concat(bs)| <==> k < |bs|
    ensures Address(k, off, base) == |Concat(bs)| <==> k == |bs| && off == 0
  {
    hide Address, Concat;
    ConcatLength(bs, base);
    BeforeBlock(k, off, |bs|, base);
  }

  lemma BeforeBlock(k: nat, off: nat, n: nat, base: nat)
    requires off < base
    ensures Address(k, off, base) < Address(n, 0, base) <==> k < n
    ensures Address(k, off, base) == Address(n, 0, base) <==> k == n && off == 0
  {
    if k < n {
      MulAtMost(k + 1, n, base);
    } else if n < k {
      MulAtMost(n + 1, k, base);
    }
  }

  lemma NotBeyond(bs: seq<seq<Byte>>, base: nat, k: nat, off: nat)
    requires Uniform(bs, base) && off > 0 && Address(k, off, base) <= |Concat(bs)|
    ensures k < |bs|
  {
    ConcatLength(bs, base);
    if |bs| <= k { MulAtMost(|bs|, k, base); }
  }

  lemma BlockFits(bs: seq<seq<Byte>>, base: nat, k: nat, off: nat, n: nat)
    requires Uniform(bs, base) && k < |bs| && off + n <= base
    ensures Address(k, off, base) + n <= |Concat(bs)|
  {
    ConcatLength(bs, base);
    MulAtMost(k + 1, |bs|, base);
  }

  /** Address(k, off) is offset `off` of block k. */
  lemma {:induction false} ConcatSlice(bs: seq<seq<Byte>>, base: nat, k: nat, off: nat, n: nat)
    requires Uniform(bs, base) && k < |bs| && off + n <= base
    requires Address(k, off, base) + n <= |Concat(bs)|
    ensures Concat(bs)[Address(k, off, base)..Address(k, off, base) + n] == bs[k][off..off + n]
  {
    hide Address;
    AddressMoves(k, off, 0, base);
    if k == 0 {
      assert Concat(bs)[off..off + n] == bs[0][off..off + n];
    } else {
      var at := Address(k - 1, off, base);
      NextBlock(k, off, base);
      ConcatSlice(bs[1..], base, k - 1, off, n);
      SliceRight(bs[0], Concat(bs[1..]), at, n);
    }
  }

  lemma NextBlock(k: nat, off: nat, base: nat)
    requires k > 0
    ensures Address(k, off, base) == base + Address(k - 1, off, base)
  {
  }

  lemma SliceRight(a: seq<Byte>, s: seq<Byte>, at: nat, n: nat)
    requires at + n <= |s|
    ensures (a + s)[|a| + at..|a| + at + n] == s[at..at + n]
  {
  }

  lemma {:induction false} ConcatSplice(bs: seq<seq<Byte>>, base: nat, k: nat, off: nat, chunk: seq<Byte>)
    requires Uniform(bs, base) && k < |bs| && off + |chunk| <= base
    requires Address(k, off, base) + |chunk| <= |Concat(bs)|
    ensures Concat(bs[k := Splice(bs[k], off, chunk)]) == Splice(Concat(bs), Address(k, off, base), chunk)
  {
    hide Address, Splice;
    AddressMoves(k, off, 0, base);
    var b := Splice(bs[k], off, chunk);
    if k == 0 {
      assert bs[0 := b][1..] == bs[1..];
      SpliceLeft(bs[0], off, chunk, Concat(bs[1..]));
    } else {
      var at := Address(k - 1, off, base);
      NextBlock(k, off, base);
      ConcatSplice(bs[1..], base, k - 1, off, chunk);
      assert bs[k := b][1..] == bs[1..][k - 1 := b];
      SpliceRight(bs[0], Concat(bs[1..]), at, chunk);
    }
  }

  lemma SpliceLeft(s: seq<Byte>, at: nat, chunk: seq<Byte>, a: seq<Byte>)
    requires at + |chunk| <= |s|
    ensures Splice(s, at, chunk) + a == Splice(s + a, at, chunk)
  {
  }

  lemma SpliceRight(a: seq<Byte>, s: seq<Byte>, at: nat, chunk: seq<Byte>)
    requires at + |chunk| <= |s|
    ensures a + Splice(s, at, chunk) == Splice(a + s, |a| + at, chunk)
  {
  }

  lemma SpliceTwice(s: seq<Byte>, at: nat, a: seq<Byte>, b: seq<Byte>)
    requires at + |a| + |b| <= |s|
    ensures Splice(Splice(s, at, a), at + |a|, b) == Splice(s, at, a + b)
  {
  }

  lemma SliceTwice(s: seq<Byte>, p: nat, n: nat, m: nat)
    requires p + n + m <= |s|
    ensures s[p..p + n] + s[p + n..p + n + m] == s[p..p + n + m]
  {
  }

  lemma {:induction false} ConcatAppend(bs: seq<seq<Byte>>, b: seq<Byte>)
    ensures Concat(bs + [b]) == Concat(bs) + b
  {
    if bs == [] {
      assert bs + [b] == [b] && [b][1..] == [];
    } else {
      ConcatAppend(bs[1..], b);
      assert (bs + [b])[1..] == bs[1..] + [b];
    }
  }
}
