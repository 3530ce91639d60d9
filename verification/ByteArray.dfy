/** ByteArray (bytearray.cpp, bytearray.h): a byte stream in a chain of equal blocks, refining FlatStream. */
module ByteArrays {
  import opened Bits
  import opened Blocks
  import opened Endian
  import opened FlatStream
  import Varint

  /** struct iovec: a stretch of a block's buffer. */
  datatype Iovec = Iovec(base: array<Byte>, off: nat, len: nat)

  function Total(iovs: seq<Iovec>): nat {
    if iovs == [] then 0 else Total(iovs[..|iovs| - 1]) + iovs[|iovs| - 1].len
  }

  predicate WellFormed(iovs: seq<Iovec>) {
    forall i :: 0 <= i < |iovs| ==> iovs[i].off + iovs[i].len <= iovs[i].base.Length
  }

  /** The bytes that a send of the slices hands to the kernel. */
  ghost function Gather(iovs: seq<Iovec>): seq<Byte>
    requires WellFormed(iovs)
    reads set v | v in iovs :: v.base
  {
    if iovs == [] then []
    else
      var v := iovs[|iovs| - 1];
      Gather(iovs[..|iovs| - 1]) + v.base[v.off..v.off + v.len]
  }

  lemma {:induction false} TotalMonotone(iovs: seq<Iovec>, i: nat, j: nat)
    requires i < j <= |iovs|
    ensures Total(iovs[..i]) + iovs[i].len <= Total(iovs[..j])
  {
    assert iovs[..j][..j - 1] == iovs[..j - 1];
    if i < j - 1 { TotalMonotone(iovs, i, j - 1); }
  }

  lemma TotalStep(iovs: seq<Iovec>, i: nat)
    ensures i < |iovs| ==> Total(iovs[..i + 1]) == Total(iovs[..i]) + iovs[i].len
  {
    if i < |iovs| {
      assert iovs[..i + 1][..i] == iovs[..i];
    }
  }

  lemma TotalWhole(iovs: seq<Iovec>, i: nat)
    ensures i == |iovs| ==> Total(iovs[..i]) == Total(iovs)
  {
    assert i == |iovs| ==> iovs[..i] == iovs;
  }

  lemma TotalNothing(iovs: seq<Iovec>)
    ensures Total(iovs[..0]) == 0
  {
  }

  /** The kinds the overloads exist for. */
  predicate KnownKind(k: Kind) {
    k.StringVint? || k.w >= 1
  }

  lemma AllTypedPrefix(items: seq<Item>, i: nat)
    requires AllTyped(items)
    ensures i <= |items| ==> AllTyped(items[..i])
    ensures i < |items| ==> Typed(items[i])
  {
    hide Typed;
  }

  lemma NothingEncoded(items: seq<Item>, o: Order)
    ensures AllTyped(items[..0]) && EncodeAll(items[..0], o) == []
  {
  }

  function ToNumber(r: Outcome<nat>): Outcome<Value> {
    match r
    case Ok(n) => Ok(Number(n))
    case Fault(why) => Fault(why)
  }

  lemma {:induction false} KindsKnown(items: seq<Item>)
    requires AllTyped(items)
    ensures forall k :: k in Kinds(items) ==> KnownKind(k)
  {
    if items != [] {
      assert Typed(items[0]);
      assert AllTyped(items[1..]);
      KindsKnown(items[1..]);
    }
  }

  lemma WroteCursor(f: Flat, buf: seq<Byte>, g: Flat)
    requires Wrote(f, buf, g)
    ensures FlatStream.Valid(f) && FlatStream.Valid(g) && f.pos <= g.pos == f.pos + |buf| <= g.size <= |g.mem|
    ensures |g.mem| == Grown(f.base, |f.mem|, g.pos)
    ensures g.base == f.base
  {
  }

  lemma {:induction false} EncodeAllAppend(items: seq<Item>, i: Item, o: Order)
    requires AllTyped(items) && Typed(i)
    ensures AllTyped(items + [i]) && EncodeAll(items + [i], o) == EncodeAll(items, o) + Encode(i, o)
  {
    hide Encode, Typed;
    if items == [] {
      assert items + [i] == [i];
      assert EncodeAll([i][1..], o) == [];
    } else {
      assert AllTyped(items[1..]);
      EncodeAllAppend(items[1..], i, o);
      assert (items + [i])[1..] == items[1..] + [i];
    }
  }

  lemma NextByte(f: Flat, o: Order)
    requires FlatStream.Valid(f)
    ensures TakeFuint(f, 1, o) ==
            if f.pos == f.size then (Fault(OutOfRange), f) else (Ok(f.mem[f.pos]), f.(pos := f.pos + 1))
  {
    hide ValueOf;
    if f.pos < f.size {
      OneByte(f.mem[f.pos], o);
      assert f.mem[f.pos..f.pos + 1] == [f.mem[f.pos]];
    }
  }

  lemma OneByte(b: Byte, o: Order)
    ensures ValueOf(o, [b]) == b
  {
    assert [b][1..] == [] && Reverse([b]) == [b];
    assert LittleValue([b]) == b + 256 * LittleValue([]);
  }

  function Min(a: nat, b: nat): nat {
    if a < b then a else b
  }

  lemma NoGrowth(base: nat, cap: nat, need: nat)
    requires base >= 1 && need <= cap
    ensures Grown(base, cap, need) == cap
  {
  }

  lemma FirstBlock(bs: seq<seq<Byte>>, base: nat)
    requires Uniform(bs, base) && bs != []
    ensures base <= |Concat(bs)| && Concat(bs[..1]) == Concat(bs)[..base]
  {
    assert Concat(bs[..1][1..]) == [];
  }

  lemma SpliceNothing(s: seq<Byte>, at: nat)
    requires at <= |s|
    ensures Splice(s, at, []) == s
  {
  }

  lemma GrownHolds(base: nat, pos: nat, mem: seq<Byte>, n: nat)
    requires base >= 1
    ensures pos + n <= Grown(base, |mem|, pos + n)
  {
    if |mem| < pos + n { CeilDivBounds(pos + n - |mem|, base); }
  }

  /** Overwriting at the cursor, in memory whose old part is unchanged, is storing. */
  lemma SplicedIsStored(f: Flat, mem: seq<Byte>, buf: seq<Byte>, g: Flat)
    requires FlatStream.Valid(f) && f.pos + |buf| <= |mem|
    requires |f.mem| <= |mem| && mem[..|f.mem|] == f.mem
    requires g == Flat(f.base, f.longest, Splice(mem, f.pos, buf), f.pos + |buf|, Max(f.size, f.pos + |buf|))
    ensures Stored(f, buf, g)
  {
    forall k | 0 <= k < |f.mem| && !(f.pos <= k < g.pos)
      ensures g.mem[k] == f.mem[k]
    {
      assert g.mem[k] == mem[k] == mem[..|f.mem|][k];
    }
  }

  class Node {
    var next: Node?
    const data: array<Byte>

    /** A block of n bytes with unspecified contents. */
    constructor (n: nat)
      ensures next == null && data.Length == n && fresh(data)
    {
      next := null;
      data := new Byte[n];
    }
  }

  class ByteArray {
    const baseSize: nat
    const host: Order
    /** max_size() of std::string. */
    const longest: nat
    const root: Node
    var position: nat
    var capacity: nat
    var size: nat
    var order: Order
    var cur: Node?

    /** The chain from root on: its nodes, their buffers, and what those hold. */
    ghost var nodes: seq<Node>
    ghost var arrays: seq<array<Byte>>
    ghost var blocks: seq<seq<Byte>>

    ghost function NodeAt(i: nat): Node?
      reads this`nodes
    {
      if i < |nodes| then nodes[i] else null
    }

    /** The links, buffers and contents of the chain. */
    ghost predicate Chain()
      reads this`nodes, this`arrays, this`blocks, this`capacity, nodes, arrays
      ensures Chain() ==> baseSize >= 1 && |nodes| == |arrays| >= 1 && capacity == |Memory()|
    {
      && baseSize >= 1
      && |nodes| == |arrays| == |blocks| >= 1 && nodes[0] == root
      && Uniform(blocks, baseSize)
      && (forall i {:trigger nodes[i].data} :: 0 <= i < |nodes| ==> nodes[i].data == arrays[i])
      && (forall i {:trigger nodes[i].next} :: 0 <= i < |nodes| ==> nodes[i].next == NodeAt(i + 1))
      && (forall i :: 0 <= i < |arrays| ==> arrays[i].Length == baseSize)
      && (forall i, j :: 0 <= i < |arrays| && 0 <= j < baseSize ==> arrays[i][j] == blocks[i][j])
      && (forall i, j :: 0 <= i < j < |nodes| ==> nodes[i] != nodes[j] && arrays[i] != arrays[j])
      && capacity == |Memory()|
    }

    /** The cursor's node is the one its address lies in; there is none exactly at the capacity. */
    ghost predicate Valid()
      reads this, nodes, arrays
    {
      && Chain()
      && position <= size <= capacity
      && cur == NodeAt(BlockOf(position, baseSize))
    }

    ghost function Memory(): seq<Byte>
      reads this`blocks
    {
      Concat(blocks)
    }

    /** The abstract state. */
    ghost function Abs(): (f: Flat)
      reads this
    {
      Flat(baseSize, longest, Memory(), position, size)
    }

    /** No object of another owner has become part of the chain. */
    twostate predicate Owns()
      reads this`nodes, this`arrays
    {
      forall i :: 0 <= i < |nodes| && i < |arrays| ==>
        (nodes[i] in old(nodes) || fresh(nodes[i])) && (arrays[i] in old(arrays) || fresh(arrays[i]))
    }

    constructor (baseSize: nat, host: Order, longest: nat)
      requires baseSize >= 1
      ensures Valid() && fresh(nodes) && fresh(arrays)
      ensures this.baseSize == capacity == baseSize && position == size == 0
      ensures order == Big && this.host == host && this.longest == longest
    {
      this.baseSize := baseSize;
      this.host, this.longest := host, longest;
      position, capacity, size, order := 0, baseSize, 0, Big;
      var first := new Node(baseSize);
      root, cur := first, first;
      nodes, arrays, blocks := [first], [first.data], [first.data[..]];
      new;
      assert Concat(blocks[1..]) == [];
      Located(0, 0, baseSize);
    }

    /** getReadSize. */
    function ReadSize(): nat
      requires position <= size
      reads this
    {
      size - position
    }

    /** getCapacity: what can still be written without growing. */
    function Room(): nat
      requires position <= capacity
      reads this
    {
      capacity - position
    }

    // ----- one block -----

    /** memcpy into a block. */
    method CopyIn(ghost k: nat, a: array<Byte>, npos: nat, chunk: seq<Byte>)
      requires Chain() && k < |arrays| && a == arrays[k] && npos + |chunk| <= baseSize
      modifies a, this`blocks
      ensures Chain() && Address(k, npos, baseSize) + |chunk| <= capacity
      ensures Memory() == Splice(old(Memory()), Address(k, npos, baseSize), chunk)
    {
      hide Address;
      forall i | 0 <= i < |chunk| {
        a[npos + i] := chunk[i];
      }
      MemorySplice(k, npos, chunk);
      blocks := blocks[k := Splice(blocks[k], npos, chunk)];
    }

    lemma MemorySplice(k: nat, npos: nat, chunk: seq<Byte>)
      requires |blocks| > k && Uniform(blocks, baseSize) && npos + |chunk| <= baseSize
      ensures Address(k, npos, baseSize) + |chunk| <= |Memory()|
      ensures Concat(blocks[k := Splice(blocks[k], npos, chunk)]) == Splice(Memory(), Address(k, npos, baseSize), chunk)
    {
      BlockFits(blocks, baseSize, k, npos, |chunk|);
      ConcatSplice(blocks, baseSize, k, npos, chunk);
    }

    /** memcpy out of a node. */
    method CopyOut(ghost k: nat, node: Node, npos: nat, n: nat) returns (chunk: seq<Byte>)
      requires Chain() && k < |nodes| && node == nodes[k] && npos + n <= baseSize
      ensures Address(k, npos, baseSize) + n <= capacity
      ensures chunk == Memory()[Address(k, npos, baseSize)..Address(k, npos, baseSize) + n]
    {
      hide Address;
      chunk := node.data[npos..npos + n];
      BlockFits(blocks, baseSize, k, npos, n);
      ConcatSlice(blocks, baseSize, k, npos, n);
      assert chunk == blocks[k][npos..npos + n];
    }

    // ----- growing -----

    method Append(last: Node) returns (n: Node)
      requires Chain() && last == nodes[|nodes| - 1]
      modifies this`nodes, this`arrays, this`blocks, this`capacity, last
      ensures Chain() && fresh(n) && fresh(n.data)
      ensures nodes == old(nodes) + [n] && arrays == old(arrays) + [n.data]
      ensures capacity == old(capacity) + baseSize && Memory()[..old(capacity)] == old(Memory())
    {
      n := new Node(baseSize);
      last.next := n;
      ConcatAppend(blocks, n.data[..]);
      nodes, arrays, blocks := nodes + [n], arrays + [n.data], blocks + [n.data[..]];
      capacity := capacity + baseSize;
    }

    /** Makes room for n bytes after the cursor with as few new blocks as possible. */
    method AddCapacity(n: nat)
      requires Valid()
      modifies this, nodes
      ensures Valid() && Owns()
      ensures order == old(order) && position == old(position) && size == old(size)
      ensures old(nodes) <= nodes && old(arrays) <= arrays
      ensures old(capacity) <= capacity == Grown(baseSize, old(capacity), position + n)
      ensures Memory()[..old(capacity)] == old(Memory())
    {
      hide BlockOf, OffsetOf, Address, Chain, Memory, CeilDiv;
      if n == 0 { return; }
      var oldCap := Room();
      if oldCap >= n { return; }
      var extra := n - oldCap;
      var count := CeilDiv(extra, baseSize);
      CursorBlock();
      CeilDivBounds(extra, baseSize);
      var last := LastNode();
      var first := Extend(last, count);
      if oldCap == 0 {
        cur := first;
      }
    }

    /** The cursor has a node exactly when it is below the capacity. */
    lemma CursorBlock()
      requires Chain() && position <= capacity
      ensures position < capacity <==> BlockOf(position, baseSize) < |nodes|
      ensures position == capacity <==> BlockOf(position, baseSize) == |nodes|
    {
      AddressOf(position, baseSize);
      InRange(blocks, baseSize, BlockOf(position, baseSize), OffsetOf(position, baseSize));
    }

    /** The node addCapacity appends to, found by following the links. */
    method LastNode() returns (last: Node)
      requires Chain()
      ensures last == nodes[|nodes| - 1]
    {
      last := root;
      ghost var at := 0;
      while last.next != null
        invariant 0 <= at < |nodes| && last == nodes[at]
        decreases |nodes| - at
      {
        last := last.next;
        at := at + 1;
      }
    }

    /** The node-appending loop of addCapacity. */
    method Extend(last: Node, count: nat) returns (first: Node?)
      requires Chain() && last == nodes[|nodes| - 1]
      modifies this`nodes, this`arrays, this`blocks, this`capacity, last
      ensures Chain() && |nodes| == |old(nodes)| + count
      ensures old(nodes) <= nodes && old(arrays) <= arrays
      ensures forall i :: |old(nodes)| <= i < |nodes| ==> fresh(nodes[i]) && fresh(arrays[i])
      ensures capacity == old(capacity) + count * baseSize
      ensures Memory()[..old(capacity)] == old(Memory())
      ensures first == if count == 0 then null else nodes[|old(nodes)|]
    {
      hide Chain, Memory;
      first := null;
      var tmp := last;
      var i := 0;
      while i < count
        invariant 0 <= i <= count
        invariant Chain() && |nodes| == |old(nodes)| + i && tmp == nodes[|nodes| - 1]
        invariant old(nodes) <= nodes && old(arrays) <= arrays
        invariant forall i :: |old(nodes)| <= i < |nodes| ==> fresh(nodes[i]) && fresh(arrays[i])
        invariant capacity == old(capacity) + i * baseSize
        invariant Memory()[..old(capacity)] == old(Memory())
        invariant first == if i == 0 then null else nodes[|old(nodes)|]
      {
        ghost var mem := Memory();
        tmp := Append(tmp);
        if first == null { first := tmp; }
        assert Memory()[..old(capacity)] == mem[..old(capacity)];
        assert (i + 1) * baseSize == i * baseSize + baseSize;
        i := i + 1;
      }
    }

    // ----- raw access -----

    /** What Chain says of one node. */
    lemma NodeFacts(k: nat)
      requires Chain() && k < |nodes|
      ensures nodes[k].data == arrays[k] && arrays[k].Length == baseSize
      ensures nodes[k].next == NodeAt(k + 1)
    {
    }

    /** The block after moving to offset `off` of block k, which may be just past its end. */
    lemma CursorAt(k: nat, off: nat)
      requires Chain() && off <= baseSize
      ensures BlockOf(Address(k, off, baseSize), baseSize) == if off < baseSize then k else k + 1
    {
      hide Chain;
      AddressMoves(k, off, 0, baseSize);
      if off < baseSize {
        Located(k, off, baseSize);
      } else {
        Located(k + 1, 0, baseSize);
      }
    }

    /** Moving m bytes on inside block k, possibly to its end. */
    lemma Step(k: nat, npos: nat, m: nat)
      requires Chain() && k < |nodes| && npos + m <= baseSize
      ensures nodes[k].data == arrays[k] && arrays[k].Length == baseSize && nodes[k].next == NodeAt(k + 1)
      ensures npos + m < baseSize ==> BlockOf(Address(k, npos, baseSize) + m, baseSize) == k
      ensures npos + m == baseSize ==>
                Address(k, npos, baseSize) + m == Address(k + 1, 0, baseSize)
                && BlockOf(Address(k, npos, baseSize) + m, baseSize) == k + 1
    {
      hide Chain, BlockOf, Address;
      NodeFacts(k);
      AddressMoves(k, npos, m, baseSize);
      CursorAt(k, npos + m);
    }

    /** An address at offset `off` of an existing or the next block is in range only in an existing one. */
    lemma BlockExists(k: nat, off: nat)
      requires Chain() && off < baseSize && Address(k, off, baseSize) < capacity
      ensures k < |nodes|
    {
      InRange(blocks, baseSize, k, off);
    }

    /** The block and offset of the cursor. */
    lemma CursorAddress()
      requires Valid() && position < capacity
      ensures BlockOf(position, baseSize) < |nodes| && cur == nodes[BlockOf(position, baseSize)]
      ensures Address(BlockOf(position, baseSize), OffsetOf(position, baseSize), baseSize) == position
      ensures cur.data == arrays[BlockOf(position, baseSize)] && cur.data.Length == baseSize
    {
      CursorBlock();
      AddressOf(position, baseSize);
      NodeFacts(BlockOf(position, baseSize));
    }

    /** write(buf, size). */
    method Write(buf: seq<Byte>)
      requires Valid()
      modifies this, nodes, arrays
      ensures Valid() && Owns() && order == old(order)
      ensures Wrote(old(Abs()), buf, Abs())
    {
      hide Chain, BlockOf, OffsetOf, Address, Memory, Stored, Grown, Splice, NodeAt;
      if |buf| == 0 {
        StoredNothing(Abs());
        return;
      }
      ghost var f := Abs();
      AddCapacity(|buf|);
      GrownHolds(baseSize, f.pos, f.mem, |buf|);
      ghost var mem := Memory();
      CursorAddress();
      Overwrite(buf);
      if position > size {
        size := position;
      }
      SplicedIsStored(f, mem, buf, Abs());
    }

    /** The copying loop of write. */
    method Overwrite(buf: seq<Byte>)
      requires Valid() && buf != [] && position + |buf| <= capacity
      modifies this`position, this`cur, this`blocks, arrays
      ensures Chain() && cur == NodeAt(BlockOf(position, baseSize))
      ensures position == old(position) + |buf|
      ensures Memory() == Splice(old(Memory()), old(position), buf)
    {
      hide Chain, BlockOf, OffsetOf, Address, Memory, Splice;
      CursorAddress();
      var npos: nat := OffsetOf(position, baseSize);
      var ncap: nat := cur.data.Length - npos;
      var bpos: nat, n: nat := 0, |buf|;
      ghost var k: nat := BlockOf(position, baseSize);
      assert Splice(Memory(), position, []) == Memory() by { SpliceNothing(Memory(), position); }
      assert buf[..bpos] == [];
      while n > 0
        invariant Chain() && bpos + n == |buf| && position == old(position) + bpos && position + n <= capacity
        invariant Memory() == Splice(old(Memory()), old(position), buf[..bpos])
        invariant n > 0 ==> k < |nodes| && cur == nodes[k] && npos < baseSize && npos + ncap == baseSize
                            && position == Address(k, npos, baseSize)
        invariant n == 0 ==> cur == NodeAt(BlockOf(position, baseSize))
        decreases n
      {
        var m := if ncap >= n then n else ncap;
        Step(k, npos, m);
        SpliceTwice(old(Memory()), old(position), buf[..bpos], buf[bpos..bpos + m]);
        assert buf[..bpos] + buf[bpos..bpos + m] == buf[..bpos + m];
        CopyIn(k, cur.data, npos, buf[bpos..bpos + m]);
        if ncap >= n {
          if cur.data.Length == npos + n {
            cur := cur.next;
          }
          position := position + n;
          bpos := bpos + n;
          n := 0;
        } else {
          BlockExists(k + 1, 0);
          position := position + ncap;
          bpos := bpos + ncap;
          n := n - ncap;
          cur := cur.next;
          k := k + 1;
          NodeFacts(k);
          ncap := cur.data.Length;
          npos := 0;
        }
      }
      assert buf[..bpos] == buf;
    }

    /** read(buf, size): throws when there is too little data, and faults when nothing is asked for
        while the cursor stands at the capacity, since the current node is then null. */
    method Read(n: nat) returns (r: Outcome<seq<Byte>>)
      requires Valid()
      modifies this`position, this`cur
      ensures Valid()
      ensures (r, Abs()) == Take(old(Abs()), n)
    {
      hide Chain, BlockOf, OffsetOf, Address, Memory;
      if n > ReadSize() {
        return Fault(OutOfRange);
      }
      CursorBlock();
      if cur == null {
        return Fault(NullDeref);
      }
      CursorAddress();
      var after;
      r, after := CopyRange(BlockOf(position, baseSize), cur, OffsetOf(position, baseSize), n);
      cur := after;
      position := position + n;
    }

    /** read(buf, size, position) const. */
    method ReadAt(n: nat, p: nat) returns (r: Outcome<seq<Byte>>)
      requires Valid()
      ensures r == Peek(Abs(), n, p)
    {
      hide Chain, BlockOf, OffsetOf, Address, Memory, Minus64;
      if n > Minus64(size, p) {
        return Fault(OutOfRange);
      }
      var node := Walk(BlockOf(p, baseSize));
      AddressOf(p, baseSize);
      BlockInside(BlockOf(p, baseSize), OffsetOf(p, baseSize));
      if node == null {
        return Fault(NullDeref);
      }
      var after;
      r, after := CopyRange(BlockOf(p, baseSize), node, OffsetOf(p, baseSize), n);
    }

    /** Follows `count` links from the root. */
    method Walk(count: nat) returns (node: Node?)
      requires Chain()
      ensures node == NodeAt(count)
    {
      node := root;
      var i := 0;
      while i < count && node != null
        invariant 0 <= i <= count && i <= |nodes|
        invariant node == NodeAt(i)
      {
        NodeFacts(i);
        node := node.next;
        i := i + 1;
      }
    }

    /** The copying loop of the two reads: n bytes from offset `npos` of a node on, following the
        links. It meets a null node exactly when the capacity ends first. */
    method CopyRange(ghost block: nat, start: Node, offset: nat, n: nat)
      returns (r: Outcome<seq<Byte>>, cur: Node?)
      requires Chain() && block < |nodes| && start == nodes[block] && offset < baseSize
      ensures var p := Address(block, offset, baseSize);
              if p + n <= capacity
              then r == Ok(Memory()[p..p + n]) && cur == NodeAt(BlockOf(p + n, baseSize))
              else r == Fault(NullDeref)
    {
      hide Chain, BlockOf, OffsetOf, Address, Memory, Concat, Uniform;
      ghost var p: nat, k: nat := Address(block, offset, baseSize), block;
      var npos: nat := offset;
      NodeFacts(k);
      Located(k, npos, baseSize);
      cur := start;
      var ncap: nat := start.data.Length - npos;
      var left: nat := n;
      var buf := [];
      BlockInside(k, npos);
      while left > 0
        invariant |buf| + left == n && p + |buf| <= capacity
        invariant buf == Memory()[p..p + |buf|]
        invariant left > 0 ==> k < |nodes| && cur == nodes[k] && npos < baseSize && npos + ncap == baseSize
                               && p + |buf| == Address(k, npos, baseSize)
        invariant left == 0 ==> cur == NodeAt(BlockOf(p + |buf|, baseSize))
        decreases left
      {
        var m := if ncap >= left then left else ncap;
        Step(k, npos, m);
        var chunk := CopyOut(k, cur, npos, m);
        SliceTwice(Memory(), p, |buf|, m);
        buf := buf + chunk;
        if ncap >= left {
          if cur.data.Length == npos + left {
            cur := cur.next;
          }
          left := 0;
        } else {
          left := left - ncap;
          cur := cur.next;
          k := k + 1;
          BlockInside(k, 0);
          if cur == null {
            return Fault(NullDeref), null;
          }
          NodeFacts(k);
          ncap := cur.data.Length;
          npos := 0;
        }
      }
      r := Ok(buf);
    }

    /** Block k exists exactly when an address in it is below the capacity; the first missing block
        begins at the capacity. */
    lemma BlockInside(k: nat, off: nat)
      requires Chain() && off < baseSize
      ensures k < |nodes| <==> Address(k, off, baseSize) < capacity
      ensures k == |nodes| && off == 0 <==> Address(k, off, baseSize) == capacity
    {
      InRange(blocks, baseSize, k, off);
    }

    /** Where writeToFile takes every chunk at its own position. */
    predicate FileRight()
      requires baseSize >= 1
      reads this`position, this`size
    {
      position % baseSize == 0 || position >= size || size - position >= baseSize
    }

    /** writeToFile: it subtracts the offset in the block even from a chunk that ends inside it. Then the
        position falls back and forth, nothing is ever left to do less, and the walk over the nodes ends
        with the null node. A write of a negative length writes nothing. */
    method WriteToFile() returns (r: Outcome<seq<Byte>>)
      requires Valid()
      ensures baseSize >= 1 && r == if FileRight() then Ok(Memory()[position..size]) else Fault(NullDeref)
    {
      hide Valid, Chain, BlockOf, OffsetOf, Offset, Address, Memory, Concat, Uniform, FileRight, Astray;
      ghost var k: nat := CursorPlace();
      var left: nat, pos: nat, node := size - position, position, cur;
      var bytes: seq<Byte> := [];
      RightMeans();
      while left > 0
        invariant node == NodeAt(k)
        invariant FileRight() ==> position <= pos && pos + left == size && bytes == Memory()[position..pos]
        invariant FileRight() && left > 0 ==> k < |nodes| && pos == Address(k, OffsetOf(pos, baseSize), baseSize)
        invariant FileRight() ==> left == 0 || OffsetOf(pos, baseSize) == 0 || left >= baseSize
        invariant !FileRight() ==> left > 0 && Astray(pos, left)
        decreases |nodes| - k
      {
        if node == null {
          return Fault(NullDeref);
        }
        var diff := Offset(pos);
        var len := (if left > baseSize then baseSize else left) - diff;
        if !FileRight() {
          StaysAstray(pos, left);
        }
        var chunk := FileChunk(k, node, pos, diff, len);
        if FileRight() {
          SliceTwice(Memory(), position, pos - position, len);
        }
        bytes := bytes + chunk;
        node := node.next;
        pos := pos + len;
        left := left - len;
        k := k + 1;
      }
      return Ok(bytes);
    }

    lemma RightMeans()
      requires Valid()
      ensures baseSize >= 1
      ensures FileRight() <==> OffsetOf(position, baseSize) == 0 || position == size || size - position >= baseSize
      ensures !FileRight() ==> position < size && Astray(position, size - position)
    {
      hide Chain;
    }

    /** The two states between which the loop then goes back and forth. */
    ghost predicate Astray(pos: nat, left: nat)
      requires baseSize >= 1
      reads this`position, this`size
    {
      var diff := OffsetOf(position, baseSize);
      var rest := size - position;
      && 0 < diff && 0 < rest < baseSize
      && ((pos == position && left == rest) || (pos == position - diff + rest && left == diff))
    }

    lemma StaysAstray(pos: nat, left: nat)
      requires baseSize >= 1 && Astray(pos, left)
      ensures var len := (if left > baseSize then baseSize else left) - OffsetOf(pos, baseSize);
              0 < left < baseSize && pos + len >= 0 && left - len > 0 && Astray(pos + len, left - len)
    {
      hide BlockOf;
      var diff := OffsetOf(position, baseSize);
      AddressOf(position, baseSize);
      AddressMoves(BlockOf(position, baseSize), 0, diff, baseSize);
      AddressMoves(BlockOf(position, baseSize), 0, size - position, baseSize);
      Located(BlockOf(position, baseSize), size - position, baseSize);
    }

    /** Where the cursor stands in the chain. */
    ghost method CursorPlace() returns (k: nat)
      requires Valid()
      ensures Chain() && position <= size <= capacity && cur == NodeAt(k) && k <= |nodes|
      ensures position < capacity ==> k < |nodes| && position == Address(k, OffsetOf(position, baseSize), baseSize)
    {
      hide Chain, BlockOf, OffsetOf, Address;
      k := BlockOf(position, baseSize);
      AddressOf(position, baseSize);
      CursorBlock();
    }

    /** One chunk. */
    method FileChunk(ghost k: nat, node: Node, ghost pos: nat, diff: nat, len: int) returns (chunk: seq<Byte>)
      requires Chain() && k < |nodes| && node == nodes[k] && diff + len <= baseSize
      ensures node.next == NodeAt(k + 1)
      ensures len > 0 && pos == Address(k, diff, baseSize) ==>
                && pos + len <= capacity && chunk == Memory()[pos..pos + len]
                && (diff + len == baseSize && pos + len < capacity ==>
                     k + 1 < |nodes| && OffsetOf(pos + len, baseSize) == 0 && pos + len == Address(k + 1, 0, baseSize))
    {
      hide Chain, BlockOf, OffsetOf, Address, Memory;
      NodeFacts(k);
      chunk := [];
      if len > 0 {
        Step(k, diff, len);
        chunk := CopyOut(k, node, diff, len);
        Located(k + 1, 0, baseSize);
        BlockInside(k + 1, 0);
      }
    }

    /** p % m_baseSize. */
    function Offset(p: nat): (off: nat)
      requires baseSize >= 1
      ensures off == OffsetOf(p, baseSize) < baseSize
    {
      p % baseSize
    }

    /** setPosition(v): throws beyond the capacity. */
    method SetPosition(v: nat) returns (ok: bool)
      requires Valid()
      modifies this`position, this`size, this`cur
      ensures Valid()
      ensures ok <==> v <= capacity
      ensures Abs() == if ok then old(Abs()).(pos := v, size := Max(old(size), v)) else old(Abs())
    {
      hide Chain, BlockOf, Address, Memory;
      if v > capacity {
        return false;
      }
      position := v;
      if position > size {
        size := position;
      }
      var node, left: nat := root, v;
      ghost var k: nat := 0;
      RootFirst();
      AddressMoves(0, v, 0, baseSize);
      while left > node.data.Length
        invariant k < |nodes| && node == nodes[k] && v == Address(k, left, baseSize)
        invariant position == v && size == Max(old(size), v)
        decreases left
      {
        NodeFacts(k);
        AddressMoves(k, baseSize, left - baseSize, baseSize);
        AddressMoves(k + 1, 0, left - baseSize, baseSize);
        StillInside(k + 1, left - baseSize);
        left := left - node.data.Length;
        node := node.next;
        k := k + 1;
      }
      NodeFacts(k);
      CursorAt(k, left);
      cur := node;
      if left == node.data.Length {
        cur := node.next;
      }
      return true;
    }

    lemma RootFirst()
      requires Chain()
      ensures nodes[0] == root
    {
    }

    lemma StillInside(k: nat, off: nat)
      requires Chain() && off > 0 && Address(k, off, baseSize) <= capacity
      ensures k < |nodes|
    {
      NotBeyond(blocks, baseSize, k, off);
    }

    /** clear: back to the first block, whose bytes stay. */
    method Clear()
      requires Valid()
      modifies this, root
      ensures Valid() && Owns() && order == old(order)
      ensures capacity == baseSize <= old(capacity)
      ensures Abs() == Flat(baseSize, longest, old(Memory())[..baseSize], 0, 0)
    {
      position, size := 0, 0;
      capacity := baseSize;
      cur := root;
      root.next := null;
      FirstBlock(blocks, baseSize);
      Located(0, 0, baseSize);
      nodes, arrays, blocks := nodes[..1], arrays[..1], blocks[..1];
    }

    // ----- scatter and gather -----

    /** The slice v is the memory at address `at`, within one block. */
    ghost predicate Slice(v: Iovec, at: nat)
      requires baseSize >= 1
      reads this`arrays
    {
      && BlockOf(at, baseSize) < |arrays| && v.base == arrays[BlockOf(at, baseSize)]
      && v.off == OffsetOf(at, baseSize) && 0 < v.len && v.off + v.len <= baseSize
    }

    /** The slices are, in order and without gaps, the memory from p to q; none is empty. */
    ghost predicate Covers(iovs: seq<Iovec>, p: nat, q: nat)
      requires baseSize >= 1
      reads this`arrays
    {
      if iovs == [] then p == q
      else
        var v := iovs[|iovs| - 1];
        p + v.len <= q && Slice(v, q - v.len) && Covers(iovs[..|iovs| - 1], p, q - v.len)
    }

    /** The loop that the three buffer getters share: slices from offset `offset` of a node on. It
        meets a null node exactly when the capacity ends first. */
    method Slices(ghost block: nat, start: Node, offset: nat, len: nat) returns (r: Outcome<seq<Iovec>>)
      requires Chain() && block < |nodes| && start == nodes[block] && offset < baseSize && len > 0
      ensures var p := Address(block, offset, baseSize);
              if p + len <= capacity
              then r.Ok? && Covers(r.value, p, p + len)
              else r == Fault(NullDeref)
    {
      hide Chain, BlockOf, OffsetOf, Address, Memory, Slice;
      ghost var p: nat, k: nat := Address(block, offset, baseSize), block;
      var cur: Node?, npos: nat, left: nat := start, offset, len;
      NodeFacts(k);
      var ncap: nat := start.data.Length - npos;
      var iovs: seq<Iovec> := [];
      BlockInside(k, npos);
      while left > 0
        invariant p + (len - left) <= capacity && left <= len
        invariant Covers(iovs, p, p + (len - left))
        invariant left > 0 ==> k < |nodes| && cur == nodes[k] && npos < baseSize && npos + ncap == baseSize
                               && p + (len - left) == Address(k, npos, baseSize)
        decreases left
      {
        var m := if ncap >= left then left else ncap;
        Step(k, npos, m);
        StepFits(k, npos, m);
        ghost var before := iovs;
        var iov := Iovec(cur.data, npos, m);
        SliceHere(iov, k);
        if ncap >= left {
          left := 0;
        } else {
          left := left - ncap;
          cur := cur.next;
          k := k + 1;
          BlockInside(k, 0);
          if cur == null {
            return Fault(NullDeref);
          }
          NodeFacts(k);
          ncap := cur.data.Length;
          npos := 0;
        }
        iovs := iovs + [iov];
        assert iovs[..|iovs| - 1] == before;
      }
      r := Ok(iovs);
    }

    lemma CoversNothing(p: nat)
      requires baseSize >= 1
      ensures Covers([], p, p)
    {
    }

    lemma StepFits(k: nat, npos: nat, m: nat)
      requires Chain() && k < |nodes| && npos + m <= baseSize
      ensures Address(k, npos, baseSize) + m <= capacity
    {
      BlockFits(blocks, baseSize, k, npos, m);
    }

    lemma SliceHere(v: Iovec, k: nat)
      requires Chain() && k < |arrays| && v.base == arrays[k]
      requires 0 < v.len && v.off + v.len <= baseSize
      ensures Slice(v, Address(k, v.off, baseSize))
    {
      Located(k, v.off, baseSize);
    }

    /** getReadBuffers(buffers, len): the cursor does not move. */
    method GetReadBuffers(len: nat) returns (iovs: seq<Iovec>, n: nat)
      requires Valid()
      ensures n == Min(len, size - position)
      ensures Covers(iovs, position, position + n)
    {
      hide Chain, BlockOf, OffsetOf, Address, Memory, Slice;
      n := if len > ReadSize() then ReadSize() else len;
      if n == 0 {
        return [], 0;
      }
      CursorAddress();
      var r := Slices(BlockOf(position, baseSize), cur, OffsetOf(position, baseSize), n);
      iovs := r.value;
    }

    /** getReadBuffers(buffers, len, position): the length is still clamped by what follows the cursor,
        not by what follows the given address. The slices then have the length they should exactly if
        that makes no difference, and stay within the data exactly if the cursor is not before the
        address or the data do not end before the request. */
    method GetReadBuffersAt(len: nat, p: nat) returns (r: Outcome<seq<Iovec>>)
      requires Valid()
      ensures var n := Min(len, size - position);
              if n == 0 then r == Ok([])
              else if p + n <= capacity then r.Ok? && Covers(r.value, p, p + n)
              else r == Fault(NullDeref)
      ensures r.Ok? ==> Total(r.value) == Min(len, size - position)
      ensures r.Ok? && p <= size ==>
                (Total(r.value) == Min(len, size - p) <==> p == position || len <= size - Max(p, position))
      ensures r.Ok? ==>
                (r.value == [] || p + Total(r.value) <= size <==>
                 len == 0 || position == size || p <= position || p + len <= size)
    {
      hide Chain, BlockOf, OffsetOf, Address, Memory, Slice;
      var n := if len > ReadSize() then ReadSize() else len;
      if n == 0 {
        return Ok([]);
      }
      var node := Walk(BlockOf(p, baseSize));
      AddressOf(p, baseSize);
      BlockInside(BlockOf(p, baseSize), OffsetOf(p, baseSize));
      if node == null {
        return Fault(NullDeref);
      }
      r := Slices(BlockOf(p, baseSize), node, OffsetOf(p, baseSize), n);
      if r.Ok? {
        CoversTotal(r.value, p, p + n);
      }
    }

    /** getWriteBuffers(buffers, len): room is made, the data does not change. */
    method GetWriteBuffers(len: nat) returns (iovs: seq<Iovec>)
      requires Valid()
      modifies this, nodes
      ensures Valid() && Owns() && order == old(order)
      ensures position == old(position) && size == old(size)
      ensures old(capacity) <= capacity == Grown(baseSize, old(capacity), position + len)
      ensures position + len <= capacity
      ensures Memory()[..old(capacity)] == old(Memory())
      ensures Covers(iovs, position, position + len)
    {
      hide Chain, BlockOf, OffsetOf, Address, Memory, Slice, Grown, Covers, NodeAt;
      if len == 0 {
        iovs := [];
        CoversNothing(position);
        GrownHolds(baseSize, position, Memory(), 0);
        NoGrowth(baseSize, capacity, position);
        return;
      }
      AddCapacity(len);
      GrownHolds(baseSize, position, old(Memory()), len);
      CursorAddress();
      var r := Slices(BlockOf(position, baseSize), cur, OffsetOf(position, baseSize), len);
      iovs := r.value;
    }

    /** Slice i starts at p plus the lengths before it. */
    lemma {:induction false} CoversAt(iovs: seq<Iovec>, p: nat, q: nat, i: nat)
      requires baseSize >= 1 && Covers(iovs, p, q) && i < |iovs|
      ensures Slice(iovs[i], p + Total(iovs[..i])) && p + Total(iovs[..i]) + iovs[i].len <= q
    {
      hide Slice;
      var front := iovs[..|iovs| - 1];
      var v := iovs[|iovs| - 1];
      CoversTotal(front, p, q - v.len);
      if i < |iovs| - 1 {
        CoversAt(front, p, q - v.len, i);
        assert front[..i] == iovs[..i];
      }
    }

    lemma {:induction false} CoversTotal(iovs: seq<Iovec>, p: nat, q: nat)
      requires baseSize >= 1 && Covers(iovs, p, q)
      ensures p + Total(iovs) == q
    {
      if iovs != [] {
        CoversTotal(iovs[..|iovs| - 1], p, q - iovs[|iovs| - 1].len);
      }
    }

    /** No byte is in two slices. */
    lemma SlicesDisjoint(iovs: seq<Iovec>, p: nat, q: nat, i: nat, j: nat)
      requires Chain() && Covers(iovs, p, q) && i < j < |iovs|
      ensures iovs[i].base != iovs[j].base || iovs[i].off + iovs[i].len <= iovs[j].off
    {
      hide Chain, Slice, Covers, Total;
      CoversAt(iovs, p, q, i);
      CoversAt(iovs, p, q, j);
      TotalMonotone(iovs, i, j);
      if iovs[i].base == iovs[j].base {
        SameBlock(iovs[i], p + Total(iovs[..i]), iovs[j], p + Total(iovs[..j]));
      }
    }

    lemma SameBlock(v: Iovec, at: nat, w: Iovec, bt: nat)
      requires Chain() && Slice(v, at) && Slice(w, bt) && at + v.len <= bt && v.base == w.base
      ensures v.off + v.len <= w.off
    {
      AddressOf(at, baseSize);
      AddressOf(bt, baseSize);
      assert BlockOf(at, baseSize) == BlockOf(bt, baseSize);
    }

    /** What the slices hold, read in order, is the memory they cover. */
    lemma {:induction false} GatherCovered(iovs: seq<Iovec>, p: nat, q: nat)
      requires Chain() && Covers(iovs, p, q) && p <= q <= capacity
      requires WellFormed(iovs)
      ensures Gather(iovs) == Memory()[p..q]
    {
      hide Chain, Memory, Slice;
      if iovs != [] {
        var v := iovs[|iovs| - 1];
        GatherCovered(iovs[..|iovs| - 1], p, q - v.len);
        SliceMemory(v, q - v.len);
        SliceTwice(Memory(), p, q - v.len - p, v.len);
      }
    }

    lemma SliceMemory(v: Iovec, at: nat)
      requires Chain() && Slice(v, at)
      ensures v.off + v.len <= v.base.Length && at + v.len <= capacity
      ensures v.base[v.off..v.off + v.len] == Memory()[at..at + v.len]
    {
      var k := BlockOf(at, baseSize);
      AddressOf(at, baseSize);
      StepFits(k, v.off, v.len);
      ConcatSlice(blocks, baseSize, k, v.off, v.len);
      assert v.base[v.off..v.off + v.len] == blocks[k][v.off..v.off + v.len];
    }

    lemma {:induction false} CoveredWellFormed(iovs: seq<Iovec>, p: nat, q: nat)
      requires Chain() && Covers(iovs, p, q)
      ensures WellFormed(iovs)
    {
      forall i | 0 <= i < |iovs|
        ensures iovs[i].off + iovs[i].len <= iovs[i].base.Length
      {
        CoversAt(iovs, p, q, i);
      }
    }

    /** What recvmsg does with the slices: the received bytes fill them from the front. */
    method Scatter(iovs: seq<Iovec>, bytes: seq<Byte>, ghost p: nat, ghost q: nat)
      requires Chain() && Covers(iovs, p, q) && |bytes| <= q - p && q <= capacity
      modifies this`blocks, arrays
      ensures Chain()
      ensures Memory() == Splice(old(Memory()), p, bytes)
    {
      hide Chain, BlockOf, OffsetOf, Address, Memory, Splice, Covers, Total;
      var i: nat, done: nat := 0, 0;
      SpliceNothing(Memory(), p);
      CoversTotal(iovs, p, q);
      TotalNothing(iovs);
      assert bytes[..0] == [];
      while done < |bytes|
        invariant Chain() && i <= |iovs| && done <= |bytes|
        invariant done < |bytes| ==> done == Total(iovs[..i])
        invariant Memory() == Splice(old(Memory()), p, bytes[..done])
        decreases |bytes| - done, |iovs| - i
      {
        TotalWhole(iovs, i);
        TotalStep(iovs, i);
        CoversAt(iovs, p, q, i);
        var v := iovs[i];
        var m := Min(v.len, |bytes| - done);
        AddressOf(p + done, baseSize);
        SpliceTwice(old(Memory()), p, bytes[..done], bytes[done..done + m]);
        assert bytes[..done] + bytes[done..done + m] == bytes[..done + m];
        CopyIn(BlockOf(p + done, baseSize), v.base, v.off, bytes[done..done + m]);
        done := done + m;
        i := i + 1;
      }
      assert bytes[..done] == bytes;
    }

    // ----- typed writers -----

    lemma AbsValid()
      requires Valid()
      ensures FlatStream.Valid(Abs()) && |nodes| == |arrays|
    {
    }

    /** writeFuint8, writeFuint16, writeFuint32, writeFuint64. */
    method WriteFuint(w: nat, v: nat)
      requires Valid() && w in {1, 2, 4, 8} && v < Pow2(8 * w)
      modifies this, nodes, arrays
      ensures Valid() && Owns() && order == old(order)
      ensures Wrote(old(Abs()), Image(order, v, w), Abs())
    {
      hide Image, Byteswap, Wrote, Chain;
      var value := v;
      if order != host {
        value := Byteswap(value, w);
      }
      WireImage(host, order, v, w);
      Write(Image(host, value, w));
    }

    /** writeFint8, writeFint16, writeFint32, writeFint64: the bit pattern of the signed value. */
    method WriteFint(w: nat, v: int)
      requires Valid() && w in {1, 2, 4, 8} && IsSigned(v, 8 * w)
      modifies this, nodes, arrays
      ensures Valid() && Owns() && order == old(order)
      ensures Wrote(old(Abs()), Image(order, ToUnsigned(v, 8 * w), w), Abs())
    {
      hide Image, Wrote, Chain;
      WriteFuint(w, ToUnsigned(v, 8 * w));
    }

    /** writeUint32, writeUint64: the groups are collected in a buffer of 5 or 10 bytes. */
    method WriteUint(w: nat, v: nat)
      requires Valid() && w in {4, 8} && v < Pow2(8 * w)
      modifies this, nodes, arrays
      ensures Valid() && Owns() && order == old(order)
      ensures Wrote(old(Abs()), Varint.Encode(v), Abs())
    {
      hide Wrote, Valid, Abs, Varint.Encode, Pow2;
      var tmp := new Byte[if w == 4 then 5 else 10];
      Varint.BufferBound(v);
      var i := FillGroups(tmp, v);
      Write(tmp[..i]);
    }

    /** The loop that cuts a value into groups of seven bits. */
    static method FillGroups(tmp: array<Byte>, v: nat) returns (i: nat)
      requires |Varint.Encode(v)| <= tmp.Length
      modifies tmp
      ensures i <= tmp.Length && tmp[..i] == Varint.Encode(v)
    {
      hide Or;
      var value: nat := v;
      i := 0;
      while value >= 128
        invariant i + |Varint.Encode(value)| == |Varint.Encode(v)|
        invariant tmp[..i] + Varint.Encode(value) == Varint.Encode(v)
        decreases value
      {
        ghost var before := tmp[..i];
        OrDisjoint(value % 128, 1, 7);
        Pow2Octet();
        tmp[i] := Or(value % 128, 128);
        assert tmp[..i + 1] == before + [value % 128 + 128];
        i := i + 1;
        value := value / 128;
      }
      tmp[i] := value;
      i := i + 1;
    }

    /** writeInt32, writeInt64. */
    method WriteInt(w: nat, v: int)
      requires Valid() && w in {4, 8} && IsSigned(v, 8 * w)
      modifies this, nodes, arrays
      ensures Valid() && Owns() && order == old(order)
      ensures Wrote(old(Abs()), Varint.Encode(Varint.ZigzagEncode(v, 8 * w)), Abs())
    {
      hide Wrote, Chain;
      WriteUint(w, Varint.ZigzagEncode(v, 8 * w));
    }

    /** writeStringF16, writeStringF32, writeStringF64: the length is truncated to the prefix type. */
    method WriteStringF(w: nat, s: seq<Byte>)
      requires Valid() && w in {2, 4, 8}
      modifies this, nodes, arrays
      ensures Valid() && Owns() && order == old(order)
      ensures Wrote(old(Abs()), Image(order, ToUnsigned(|s|, 8 * w), w) + s, Abs())
    {
      hide Image, Wrote, Valid, Abs, ToUnsigned;
      AbsValid();
      ghost var f := Abs();
      WriteFuint(w, ToUnsigned(|s|, 8 * w));
      AbsValid();
      ghost var g := Abs();
      Write(s);
      WroteTwice(f, Image(order, ToUnsigned(|s|, 8 * w), w), g, s, Abs());
    }

    /** writeStringVint. */
    method WriteStringVint(s: seq<Byte>)
      requires Valid() && |s| < Pow2(64)
      modifies this, nodes, arrays
      ensures Valid() && Owns() && order == old(order)
      ensures Wrote(old(Abs()), Varint.Encode(|s|) + s, Abs())
    {
      hide Wrote, Valid, Abs, Varint.Encode, Pow2;
      AbsValid();
      ghost var f := Abs();
      WriteUint(8, |s|);
      AbsValid();
      ghost var g := Abs();
      Write(s);
      WroteTwice(f, Varint.Encode(|s|), g, s, Abs());
    }

    // ----- typed readers -----

    /** readFuint8, readFuint16, readFuint32, readFuint64. */
    method ReadFuint(w: nat) returns (r: Outcome<nat>)
      requires Valid()
      modifies this`position, this`cur
      ensures Valid()
      ensures (r, Abs()) == TakeFuint(old(Abs()), w, order)
    {
      hide Byteswap, ValueOf, Chain;
      var s := Read(w);
      match s
      case Fault(why) => return Fault(why);
      case Ok(bytes) =>
        var v := ValueOf(host, bytes);
        WireValue(host, order, bytes);
        if order == host {
          return Ok(v);
        }
        return Ok(Byteswap(v, w));
    }

    /** readFint8, readFint16, readFint32, readFint64. */
    method ReadFint(w: nat) returns (r: Outcome<Value>)
      requires Valid() && w >= 1
      modifies this`position, this`cur
      ensures Valid()
      ensures (r, Abs()) == TakeFint(old(Abs()), w, order)
    {
      hide TakeFuint, Chain;
      var u := ReadFuint(w);
      match u
      case Fault(why) => return Fault(why);
      case Ok(n) => return Ok(Number(ToSigned(n, 8 * w)));
    }

    /** readUint32, readUint64: one byte at a time, so data that runs out has been consumed. */
    method ReadUint(w: nat) returns (r: Outcome<nat>)
      requires Valid() && w >= 1
      modifies this`position, this`cur
      ensures Valid()
      ensures (r, Abs()) == TakeUint(old(Abs()), w)
    {
      hide TakeFuint, Valid, Abs, Or, Shl, Varint.Groups, Pow2;
      AbsValid();
      ghost var f := Abs();
      ghost var data := f.mem[f.pos..f.size];
      var result: nat, i: nat := 0, 0;
      ghost var used: nat := 0;
      assert data[0..] == data;
      while i < 8 * w
        invariant Valid() && used <= |data| && Abs() == f.(pos := f.pos + used)
        invariant Varint.Decode(data, 8 * w) == Varint.Later(Varint.Groups(data[used..], i, 8 * w, result), used)
        decreases 8 * w - i
      {
        AbsValid();
        NextByte(Abs(), order);
        Varint.Unroll(data, used, i, 8 * w, result);
        var b := ReadFuint(1);
        if !b.Ok? {
          assert used == |data|;
          return Fault(OutOfRange);
        }
        assert b.value == data[used];
        used := used + 1;
        if b.value < 128 {
          return Ok(Or(result, Shl(b.value, i, 8 * w)));
        }
        result := Or(result, Shl(b.value % 128, i, 8 * w));
        i := i + 7;
      }
      Varint.Finished(data[used..], i, 8 * w, result);
      r := Ok(result);
    }

    /** readInt32, readInt64. */
    method ReadInt(w: nat) returns (r: Outcome<Value>)
      requires Valid() && w >= 1
      modifies this`position, this`cur
      ensures Valid()
      ensures (r, Abs()) == TakeInt(old(Abs()), w)
    {
      hide TakeUint, Chain;
      var u := ReadUint(w);
      match u
      case Fault(why) => return Fault(why);
      case Ok(n) => return Ok(Number(Varint.ZigzagDecode(n, 8 * w)));
    }

    /** The second half of the string readers. */
    method ReadBody(len: Outcome<nat>) returns (r: Outcome<Value>)
      requires Valid()
      modifies this`position, this`cur
      ensures Valid()
      ensures (r, Abs()) == TakeBody((len, old(Abs())))
    {
      hide Chain, Take;
      match len
      case Fault(why) => return Fault(why);
      case Ok(n) =>
        if n > longest {
          return Fault(LengthError);
        }
        var s := Read(n);
        match s
        case Fault(why) => return Fault(why);
        case Ok(text) => return Ok(Text(text));
    }

    /** readStringF16, readStringF32, readStringF64. */
    method ReadStringF(w: nat) returns (r: Outcome<Value>)
      requires Valid()
      modifies this`position, this`cur
      ensures Valid()
      ensures (r, Abs()) == TakeBody(TakeFuint(old(Abs()), w, order))
    {
      hide Chain, TakeFuint, TakeBody;
      var len := ReadFuint(w);
      r := ReadBody(len);
    }

    /** readStringVint. */
    method ReadStringVint() returns (r: Outcome<Value>)
      requires Valid()
      modifies this`position, this`cur
      ensures Valid()
      ensures (r, Abs()) == TakeBody(TakeUint(old(Abs()), 8))
    {
      hide Chain, TakeUint, TakeBody;
      var len := ReadUint(8);
      r := ReadBody(len);
    }

    // ----- lists of typed values -----

    method WriteItem(i: Item)
      requires Valid() && Typed(i)
      modifies this, nodes, arrays
      ensures Valid() && Owns() && order == old(order)
      ensures Wrote(old(Abs()), Encode(i, order), Abs())
    {
      hide Wrote, Chain, Owns, Image, IsSigned;
      match i.kind
      case Fuint(w) => WriteFuint(w, i.value.n);
      case Fint(w) => WriteFint(w, i.value.n);
      case Uint(w) => WriteUint(w, i.value.n);
      case Int(w) => WriteInt(w, i.value.n);
      case StringF(w) => WriteStringF(w, i.value.s);
      case StringVint => WriteStringVint(i.value.s);
    }

    method ReadItem(k: Kind) returns (r: Outcome<Value>)
      requires Valid() && KnownKind(k)
      modifies this`position, this`cur
      ensures Valid()
      ensures (r, Abs()) == TakeItem(old(Abs()), k, order)
    {
      hide Chain, TakeFuint, TakeFint, TakeUint, TakeInt, TakeBody;
      match k
      case Fuint(w) =>
        var n := ReadFuint(w);
        r := ToNumber(n);
      case Fint(w) => r := ReadFint(w);
      case Uint(w) =>
        var n := ReadUint(w);
        r := ToNumber(n);
      case Int(w) => r := ReadInt(w);
      case StringF(w) => r := ReadStringF(w);
      case StringVint => r := ReadStringVint();
    }

    method WriteAll(items: seq<Item>)
      requires Valid() && AllTyped(items)
      modifies this, nodes, arrays
      ensures Valid() && Owns() && order == old(order)
      ensures Wrote(old(Abs()), EncodeAll(items, order), Abs())
    {
      hide Wrote, Valid, Abs, Encode, Typed, AllTyped, EncodeAll;
      AbsValid();
      StoredNothing(Abs());
      NothingEncoded(items, order);
      ghost var f := Abs();
      for i := 0 to |items|
        invariant Valid() && Owns() && order == old(order)
        invariant AllTyped(items[..i]) && Wrote(f, EncodeAll(items[..i], order), Abs())
      {
        ghost var g := Abs();
        AbsValid();
        AllTypedPrefix(items, i);
        WriteItem(items[i]);
        WroteTwice(f, EncodeAll(items[..i], order), g, Encode(items[i], order), Abs());
        EncodeAllAppend(items[..i], items[i], order);
        assert items[..i + 1] == items[..i] + [items[i]];
      }
      assert items[..|items|] == items;
    }

    method ReadAll(kinds: seq<Kind>) returns (r: Outcome<seq<Value>>)
      requires Valid() && forall k :: k in kinds ==> KnownKind(k)
      modifies this`position, this`cur
      ensures Valid()
      ensures (r, Abs()) == TakeAll(old(Abs()), kinds, order)
      decreases |kinds|
    {
      hide Chain, TakeItem;
      if kinds == [] {
        return Ok([]);
      }
      var first := ReadItem(kinds[0]);
      match first
      case Fault(why) => return Fault(why);
      case Ok(v) =>
        var rest := ReadAll(kinds[1..]);
        match rest
        case Fault(why) => return Fault(why);
        case Ok(vs) => return Ok([v] + vs);
    }

    /** The typed stream law on the block chain itself: write the items, move the cursor back, read
        the same types. The values and the final cursor come back, whatever the block size, unless the
        last item is an empty string that ends exactly at the capacity, which can be told beforehand. */
    method WriteThenRead(items: seq<Item>) returns (r: Outcome<seq<Value>>)
      requires Valid() && AllFit(items, longest)
      modifies this, nodes, arrays
      ensures Valid() && Owns() && baseSize >= 1
      ensures var end := old(position) + |EncodeAll(items, order)|;
              && position == end
              && r == if EndsAtCapacity(items, end, Grown(baseSize, old(capacity), end))
                      then Fault(NullDeref) else Ok(Values(items))
    {
      hide Wrote, Chain, EncodeAll, TakeAll, AllFit, Kinds, Values, Grown, EndsAtCapacity;
      var start := position;
      ghost var f := Abs();
      WriteAll(items);
      ghost var g := Abs();
      WroteCursor(f, EncodeAll(items, order), g);
      var ok := SetPosition(start);
      KindsKnown(items);
      r := ReadAll(Kinds(items));
      StreamRoundTrip(f, items, order, g);
    }
  }

  /** The empty string at the end of a block of two bytes: its prefix fills the block. */
  method EmptyStringAtEnd(host: Order, longest: nat) returns (r: Outcome<seq<Value>>)
    ensures r == Fault(NullDeref)
  {
    hide ByteArray.Chain, ByteArray.Memory, Image;
    var ba := new ByteArray(2, host, longest);
    var item := Item(StringF(2), Text([]));
    assert EncodeAll([item], ba.order) == Encode(item, ba.order) + EncodeAll([], ba.order);
    r := ba.WriteThenRead([item]);
  }

  /** Three bytes of data and a request for three bytes at address 2: the slices are the memory from 2 to 5,
      and its last two bytes have never been written. */
  method SlicesPastData(host: Order, longest: nat, buf: seq<Byte>) returns (ba: ByteArray, r: Outcome<seq<Iovec>>)
    requires |buf| == 3
    ensures ba.Valid() && ba.Abs().size == 3 && r.Ok? && ba.Covers(r.value, 2, 5)
  {
    hide ByteArray.Chain, ByteArray.Memory, ByteArray.Covers, Total;
    ba := new ByteArray(8, host, longest);
    ba.Write(buf);
    var ok := ba.SetPosition(0);
    r := ba.GetReadBuffersAt(3, 2);
  }

  /** Two of three bytes in a block of four: the file is not written. */
  method MisalignedFile(host: Order, longest: nat, buf: seq<Byte>) returns (r: Outcome<seq<Byte>>)
    requires |buf| == 3
    ensures r == Fault(NullDeref)
  {
    hide ByteArray.Chain, ByteArray.Memory;
    var ba := new ByteArray(4, host, longest);
    ba.Write(buf);
    var ok := ba.SetPosition(1);
    r := ba.WriteToFile();
  }
}
