/** SocketStream (socket_stream.cpp) and the fixed-size loops of Stream (stream.cpp). */
module SocketStreams {
  import opened Bits
  import opened Blocks
  import opened FlatStream
  import opened ByteArrays

  /** A connected socket. Each call to the kernel consumes one entry of `results`: an entry at or below
      zero is returned as it is, a positive one bounds how many bytes this call moves. Without further
      entries the peer has closed. */
  class Socket {
    var connected: bool
    var incoming: seq<Byte>
    var outgoing: seq<Byte>
    var results: seq<int>

    method NextResult() returns (r: int)
      modifies this`results
      ensures r == Head(old(results)) && results == Tail(old(results))
    {
      if results == [] {
        return 0;
      }
      r := results[0];
      results := results[1..];
    }

    /** recv into a buffer of n bytes. */
    method Recv(n: nat) returns (rt: int, bytes: seq<Byte>)
      modifies this`results, this`incoming
      ensures rt == Granted(Head(old(results)), n, |old(incoming)|) && results == Tail(old(results))
      ensures |bytes| == Positive(rt) && old(incoming) == bytes + incoming
    {
      rt := NextResult();
      if rt <= 0 {
        return rt, [];
      }
      rt := Min(rt, Min(n, |incoming|));
      bytes := incoming[..rt];
      incoming := incoming[rt..];
    }

    /** recvmsg into slices of a byte array. */
    method RecvSlices(ba: ByteArray, iovs: seq<Iovec>, ghost p: nat, ghost q: nat) returns (rt: int)
      requires ba.Chain() && ba.Covers(iovs, p, q) && p <= q <= ba.capacity
      modifies this`results, this`incoming, ba`blocks, ba.arrays
      ensures ba.Chain() && rt == Granted(Head(old(results)), q - p, |old(incoming)|) && results == Tail(old(results))
      ensures incoming == old(incoming)[Positive(rt)..]
      ensures ba.Memory() == Splice(old(ba.Memory()), p, old(incoming)[..Positive(rt)])
    {
      hide ByteArray.Chain, ByteArray.Memory, ByteArray.Covers, Total, Splice;
      ghost var all := incoming;
      ba.CoversTotal(iovs, p, q);
      var bytes;
      rt, bytes := Recv(Total(iovs));
      ba.Scatter(iovs, bytes, p, q);
      assert all[..|bytes|] == bytes && all[|bytes|..] == incoming;
    }

    /** send of n bytes: how many are accepted. */
    method Send(bytes: seq<Byte>) returns (rt: int)
      modifies this`results, this`outgoing
      ensures rt == Granted(Head(old(results)), |bytes|, |bytes|) && results == Tail(old(results))
      ensures outgoing == old(outgoing) + bytes[..Positive(rt)]
    {
      rt := NextResult();
      if rt > 0 {
        rt := Min(rt, |bytes|);
      }
      outgoing := outgoing + bytes[..Positive(rt)];
    }
  }

  /** The number of bytes that a result stands for. */
  function Positive(rt: int): nat {
    if rt > 0 then rt else 0
  }

  /** The entry that a call to the kernel consumes; without entries the peer has closed. */
  function Head(results: seq<int>): int {
    if results == [] then 0 else results[0]
  }

  function Tail(results: seq<int>): seq<int> {
    if results == [] then [] else results[1..]
  }

  /** What a call for n bytes returns, with `avail` bytes there to be moved. */
  function Granted(entry: int, n: nat, avail: nat): (rt: int)
    ensures rt <= n && Positive(rt) <= avail && (rt > 0 <==> entry > 0 && n > 0 && avail > 0)
  {
    if entry <= 0 then entry else Min(entry, Min(n, avail))
  }

  /** How many bytes the entries before the first one at or below zero let through. */
  function Allowed(results: seq<int>): nat {
    if results == [] || results[0] <= 0 then 0 else results[0] + Allowed(results[1..])
  }

  /** The end of a fixed-size call that wanted `want` bytes, had `avail`, and met `before` as the results of the
      kernel, of which `after` are left: everything is moved that was wanted, there and let through. A call
      that falls short returns -1 without a connection, else the entry at or below zero that ended it, else 0,
      as the entries or the bytes have run out. */
  ghost predicate Transferred(connected: bool, before: seq<int>, avail: nat, want: nat, after: seq<int>, moved: nat,
                              ret: int)
  {
    var used := |before| - |after|;
    && used >= 0 && after == before[used..] && (!connected ==> used == 0)
    && moved == (if connected then Min(want, Min(avail, Allowed(before))) else 0)
    && (forall k :: 0 <= k < used - 1 ==> before[k] > 0)
    && (moved < want ==>
          if !connected then ret == -1
          else if used > 0 && before[used - 1] <= 0 then ret == before[used - 1]
          else ret == 0 && (after == [] || moved == avail))
    && (moved == want && used > 0 ==> before[used - 1] > 0)
  }

  /** The loop between two calls: `left` bytes are still wanted, and what is going to be moved is fixed. */
  ghost predicate Going(connected: bool, before: seq<int>, avail: nat, want: nat, now: seq<int>, moved: nat, left: nat)
  {
    var used := |before| - |now|;
    && used >= 0 && now == before[used..] && (!connected ==> used == 0 && moved == 0)
    && moved + left == want && moved <= avail
    && (forall k :: 0 <= k < used ==> before[k] > 0)
    && moved + Min(left, Min(avail - moved, Allowed(now))) == Min(want, Min(avail, Allowed(before)))
  }

  lemma Begins(connected: bool, before: seq<int>, avail: nat, want: nat)
    ensures Going(connected, before, avail, want, before, 0, want)
  {
    assert before[0..] == before;
  }

  /** One call to the kernel, and what is left of the loop. */
  lemma Goes(before: seq<int>, avail: nat, want: nat, now: seq<int>, moved: nat, left: nat, rt: int)
    requires Going(true, before, avail, want, now, moved, left) && left > 0
    requires rt == Granted(Head(now), left, avail - moved)
    ensures rt > 0 ==> rt <= left && Going(true, before, avail, want, Tail(now), moved + rt, left - rt)
    ensures rt <= 0 ==> Transferred(true, before, avail, want, Tail(now), moved, rt)
  {
    var used := |before| - |now|;
    if now != [] {
      assert now[0] == before[used] && now[1..] == before[used + 1..];
    }
  }

  /** The same without knowing yet what the call returns. */
  lemma Called(connected: bool, before: seq<int>, avail: nat, want: nat, now: seq<int>, moved: nat, left: nat)
    requires Going(connected, before, avail, want, now, moved, left) && left > 0
    ensures !connected ==> Transferred(false, before, avail, want, now, moved, -1)
    ensures connected ==>
              moved <= avail
              && var rt := Granted(Head(now), left, avail - moved);
              if rt > 0 then rt <= left && Going(true, before, avail, want, Tail(now), moved + rt, left - rt)
              else Transferred(true, before, avail, want, Tail(now), moved, rt)
  {
    hide Head, Tail;
    if connected {
      Goes(before, avail, want, now, moved, left, Granted(Head(now), left, avail - moved));
    }
  }

  lemma Completes(connected: bool, before: seq<int>, avail: nat, want: nat, now: seq<int>, moved: nat, ret: int)
    requires Going(connected, before, avail, want, now, moved, 0)
    ensures Transferred(connected, before, avail, want, now, moved, ret)
  {
  }

  /** How a fixed-size call ends. Either everything was moved and the length is returned, through the
      conversions size_t -> int64_t (the loop's counter) and size_t -> int (the result); or fewer bytes
      were moved and the result that stopped the loop is returned. */
  ghost predicate FixSizeEnd(length: nat, moved: nat, ret: int) {
    if moved == Positive(ToSigned(length, 64)) then ret == ToSigned(length, 32)
    else moved < Positive(ToSigned(length, 64)) && ret <= 0
  }

  /** What `ret == length` tells a caller, for every size_t: exactly below 2^31 it tells success from a
      short transfer; from there on it never holds; and from 2^63 on nothing is moved at all, although the
      result is positive whenever the low 32 bits are a positive int. */
  lemma FixSizeVerdict(length: nat, moved: nat, ret: int)
    requires length < Pow2(64) && FixSizeEnd(length, moved, ret)
    ensures length < Pow2(31) ==> (moved == length <==> ret == length)
    ensures length >= Pow2(31) ==> ret != length
    ensures length >= Pow2(63) ==> moved == 0 && (ret > 0 <==> 0 < length % Pow2(32) < Pow2(31))
  {
    hide ToSigned, Pow2;
    Pow2Monotone(31, 63);
    LowHalf(length, 32);
    SignedBelow(length, 32);
    if length < Pow2(63) {
      SignedSmall(length, 64);
    } else {
      SignedHigh(length, 64);
    }
    if length < Pow2(31) {
      SignedSmall(length, 32);
    }
  }

  /** Below 2^31 the length comes back exactly if nothing was wanted, or there is a connection, the bytes are there
      and the kernel's entries let them through; in particular, however small the pieces, if no entry is at or
      below zero and there are enough. */
  lemma FixSizeComplete(connected: bool, before: seq<int>, avail: nat, length: nat, after: seq<int>, moved: nat,
                        ret: int)
    requires length < Pow2(31) && FixSizeEnd(length, moved, ret)
    requires Transferred(connected, before, avail, Positive(ToSigned(length, 64)), after, moved, ret)
    ensures ret == length <==> length == 0 || (connected && length <= avail && length <= Allowed(before))
    ensures connected && (forall k :: 0 <= k < |before| ==> before[k] > 0) && length <= |before| && length <= avail ==>
              ret == length && moved == length
  {
    hide ToSigned, Pow2;
    Pow2Monotone(31, 63);
    SignedSmall(length, 64);
    SignedSmall(length, 32);
    if forall k :: 0 <= k < |before| ==> before[k] > 0 {
      AllowedAtLeast(before);
    }
  }

  lemma {:induction false} AllowedAtLeast(results: seq<int>)
    requires forall k :: 0 <= k < |results| ==> results[k] > 0
    ensures |results| <= Allowed(results)
  {
    if results != [] {
      AllowedAtLeast(results[1..]);
    }
  }

  /** Eight bytes in two pieces: the call goes on after the first. */
  method TwoPieces(stream: SocketStream, bytes: seq<Byte>) returns (ret: int, got: seq<Byte>)
    requires stream.socket.connected && stream.socket.results == [3, 5] && |bytes| == 8
    requires stream.socket.incoming == bytes
    modifies stream.socket
    ensures ret == 8 && got == bytes
  {
    hide ToSigned, Pow2;
    Pow2Monotone(4, 31);
    Pow2Monotone(31, 63);
    Sixteen();
    SignedSmall(8, 64);
    assert Allowed([5]) == 5 && Allowed([3, 5]) == 8 by {
      assert [3, 5][1..] == [5] && [5][1..] == [];
    }
    ret, got := stream.ReadFixSizeBytes(8);
    FixSizeComplete(true, [3, 5], 8, 8, stream.socket.results, |got|, ret);
  }

  lemma Sixteen()
    ensures Pow2(4) == 16
  {
  }

  /** A complete transfer of 2^31 bytes returns a negative number. */
  lemma CompleteLooksFailed(length: nat, ret: int)
    requires length == 0x8000_0000 && FixSizeEnd(length, length, ret)
    ensures ret == -0x8000_0000
  {
    hide Pow2;
    Pow2Wide();
    Pow2Monotone(32, 63);
    SignedSmall(length, 64);
    SignedHigh(length, 32);
  }

  lemma SignedHigh(n: nat, width: nat)
    requires width > 0 && Pow2(width - 1) <= n < Pow2(width)
    ensures ToSigned(n, width) == n - Pow2(width) < 0
  {
    DivModUnique(n, 0, n, Pow2(width));
  }

  lemma LowHalf(n: nat, width: nat)
    requires width > 0
    ensures ToSigned(n, width) > 0 <==> 0 < n % Pow2(width) < Pow2(width - 1)
  {
  }

  lemma SignedSmall(n: nat, width: nat)
    requires width > 0 && n < Pow2(width - 1)
    ensures ToSigned(n, width) == n
  {
    DivModUnique(n, 0, n, Pow2(width));
  }

  lemma SignedBelow(n: nat, width: nat)
    requires width > 0
    ensures ToSigned(n, width) < Pow2(width - 1)
  {
    assert Pow2(width) == 2 * Pow2(width - 1);
  }

  /** The first k bytes after the cursor. */
  ghost function Sent(f: Flat, k: nat): seq<Byte> {
    if FlatStream.Valid(f) && k <= f.size - f.pos then f.mem[f.pos..f.pos + k] else []
  }

  lemma SentPrefix(f: Flat, m: nat, k: nat)
    requires FlatStream.Valid(f) && k <= m <= f.size - f.pos
    ensures f.mem[f.pos..f.pos + m][..k] == Sent(f, k)
  {
  }

  lemma MorePrefix(s: seq<Byte>, k: nat, n: nat)
    requires k + n <= |s|
    ensures s[..k] + s[k..][..n] == s[..k + n] && s[k..][n..] == s[k + n..]
  {
  }

  lemma SentNothing(f: Flat)
    ensures Sent(f, 0) == []
  {
  }

  lemma SentMore(f: Flat, moved: nat, k: nat)
    requires FlatStream.Valid(f) && moved + k <= f.size - f.pos
    ensures Sent(f, moved) + Sent(f.(pos := f.pos + moved), k) == Sent(f, moved + k)
  {
  }

  class SocketStream {
    const socket: Socket

    constructor (socket: Socket)
      ensures this.socket == socket
    {
      this.socket := socket;
    }

    /** read(ba, length). The bytes received are stored exactly as ba.write would store them. */
    method Read(ba: ByteArray, n: nat) returns (rt: int)
      requires ba.Valid()
      modifies socket`results, socket`incoming, ba, ba.nodes, ba.arrays
      ensures ba.Valid() && ba.Owns() && Positive(rt) <= |old(socket.incoming)|
      ensures rt == if socket.connected then Granted(Head(old(socket.results)), n, |old(socket.incoming)|) else -1
      ensures socket.results == if socket.connected then Tail(old(socket.results)) else old(socket.results)
      ensures socket.incoming == old(socket.incoming)[Positive(rt)..]
      ensures Stored(old(ba.Abs()), old(socket.incoming)[..Positive(rt)], ba.Abs())
      ensures ba.capacity == if socket.connected then Grown(ba.baseSize, old(ba.capacity), old(ba.position) + n)
                             else old(ba.capacity)
    {
      hide ByteArray.Chain, ByteArray.Memory, ByteArray.Covers, BlockOf, Splice, Grown, Stored, Granted, Head, Tail;
      ghost var f := ba.Abs();
      if !socket.connected {
        StoredNothing(f);
        return -1;
      }
      var iovs := ba.GetWriteBuffers(n);
      ghost var mem := ba.Memory();
      rt := socket.RecvSlices(ba, iovs, ba.position, ba.position + n);
      ghost var bytes := old(socket.incoming)[..Positive(rt)];
      if rt > 0 {
        var ok := ba.SetPosition(ba.position + rt);
      }
      SplicedIsStored(f, mem, bytes, ba.Abs());
    }

    /** write(ba, length): sends from the cursor on and moves it over what was accepted. */
    method Write(ba: ByteArray, n: nat) returns (rt: int)
      requires ba.Valid()
      modifies socket`results, socket`outgoing, ba`position, ba`size, ba`cur
      ensures ba.Valid()
      ensures rt == if socket.connected then Granted(Head(old(socket.results)), n, old(ba.ReadSize())) else -1
      ensures socket.results == if socket.connected then Tail(old(socket.results)) else old(socket.results)
      ensures ba.Abs() == old(ba.Abs()).(pos := old(ba.position) + Positive(rt))
      ensures socket.outgoing == old(socket.outgoing) + Sent(old(ba.Abs()), Positive(rt))
    {
      hide ByteArray.Chain, ByteArray.Memory, ByteArray.Covers, WellFormed, Gather;
      if !socket.connected {
        return -1;
      }
      var iovs, m := ba.GetReadBuffers(n);
      ba.CoveredWellFormed(iovs, ba.position, ba.position + m);
      var bytes := CollectSlices(ba, iovs, ba.position, ba.position + m);
      rt := socket.Send(bytes);
      SentPrefix(ba.Abs(), m, Positive(rt));
      if rt > 0 {
        var ok := ba.SetPosition(ba.position + rt);
      }
    }

    /** What sendmsg does with the slices: it takes their bytes in order. */
    static method CollectSlices(ba: ByteArray, iovs: seq<Iovec>, ghost p: nat, ghost q: nat) returns (bytes: seq<Byte>)
      requires ba.Chain() && ba.Covers(iovs, p, q) && p <= q <= ba.capacity && WellFormed(iovs)
      ensures bytes == ba.Memory()[p..q]
    {
      bytes := [];
      for i := 0 to |iovs|
        invariant bytes == Gather(iovs[..i])
      {
        assert iovs[..i + 1][..i] == iovs[..i];
        bytes := bytes + iovs[i].base[iovs[i].off..iovs[i].off + iovs[i].len];
      }
      assert iovs[..|iovs|] == iovs;
      ba.GatherCovered(iovs, p, q);
    }

    /** read(buffer, length). */
    method ReadBytes(n: nat) returns (rt: int, bytes: seq<Byte>)
      modifies socket`results, socket`incoming
      ensures rt == if socket.connected then Granted(Head(old(socket.results)), n, |old(socket.incoming)|) else -1
      ensures socket.results == if socket.connected then Tail(old(socket.results)) else old(socket.results)
      ensures |bytes| == Positive(rt) && old(socket.incoming) == bytes + socket.incoming
    {
      if !socket.connected {
        return -1, [];
      }
      rt, bytes := socket.Recv(n);
    }

    /** write(buffer, length). */
    method WriteBytes(bytes: seq<Byte>) returns (rt: int)
      modifies socket`results, socket`outgoing
      ensures rt == if socket.connected then Granted(Head(old(socket.results)), |bytes|, |bytes|) else -1
      ensures socket.results == if socket.connected then Tail(old(socket.results)) else old(socket.results)
      ensures socket.outgoing == old(socket.outgoing) + bytes[..Positive(rt)]
    {
      if !socket.connected {
        assert bytes[..0] == [];
        return -1;
      }
      rt := socket.Send(bytes);
    }

    // ----- the fixed-size loops: `moved` is the number of bytes transferred -----

    /** readFixSize(ba, length): however the kernel cuts the stream, exactly the next `moved` bytes of
        it are stored. All of them, unless a result at or below zero ended the loop. */
    method ReadFixSize(ba: ByteArray, length: nat) returns (ret: int, ghost moved: nat)
      requires ba.Valid()
      modifies socket`results, socket`incoming, ba, ba.nodes, ba.arrays
      ensures ba.Valid() && ba.Owns() && moved <= |old(socket.incoming)|
      ensures socket.incoming == old(socket.incoming)[moved..]
      ensures Stored(old(ba.Abs()), old(socket.incoming)[..moved], ba.Abs())
      ensures FixSizeEnd(length, moved, ret)
      ensures Transferred(socket.connected, old(socket.results), |old(socket.incoming)|, Positive(ToSigned(length, 64)),
                          socket.results, moved, ret)
    {
      hide ByteArray.Chain, ByteArray.Memory, ByteArray.NodeAt, BlockOf, Grown, Stored, ToSigned, Going, Transferred;
      hide Granted, Head, Tail;
      var left := ToSigned(length, 64);
      ghost var want := Positive(left);
      moved := 0;
      ghost var f, stream, before := ba.Abs(), socket.incoming, socket.results;
      Begins(socket.connected, before, |stream|, want);
      StoredNothing(f);
      assert stream[..0] == [] && stream[0..] == stream;
      while left > 0
        invariant ba.Valid() && ba.Owns()
        invariant moved <= |stream| && socket.incoming == stream[moved..]
        invariant Stored(f, stream[..moved], ba.Abs())
        invariant moved + Positive(left) == want == Positive(ToSigned(length, 64)) && left <= ToSigned(length, 64)
        invariant Going(socket.connected, before, |stream|, want, socket.results, moved,
                        Positive(left))
        decreases left
      {
        ghost var g, rest := ba.Abs(), socket.incoming;
        Called(socket.connected, before, |stream|, want, socket.results, moved, left);
        var len := Read(ba, left);
        StoredTwice(f, stream[..moved], g, rest[..Positive(len)], ba.Abs());
        MorePrefix(stream, moved, Positive(len));
        moved := moved + Positive(len);
        if len <= 0 {
          return len, moved;
        }
        left := left - len;
      }
      ret := ToSigned(length, 32);
      Completes(socket.connected, before, |stream|, want, socket.results, moved, ret);
    }

    /** writeFixSize(ba, length): exactly the bytes [pos, pos + moved) leave, in order. */
    method WriteFixSize(ba: ByteArray, length: nat) returns (ret: int, ghost moved: nat)
      requires ba.Valid()
      modifies socket`results, socket`outgoing, ba`position, ba`size, ba`cur
      ensures ba.Valid() && moved <= old(ba.ReadSize())
      ensures ba.Abs() == old(ba.Abs()).(pos := old(ba.position) + moved)
      ensures socket.outgoing == old(socket.outgoing) + Sent(old(ba.Abs()), moved)
      ensures FixSizeEnd(length, moved, ret)
      ensures Transferred(socket.connected, old(socket.results), old(ba.ReadSize()), Positive(ToSigned(length, 64)),
                          socket.results, moved, ret)
    {
      hide ByteArray.Chain, ByteArray.Memory, Sent, ToSigned, Going, Transferred, Granted, Head, Tail;
      var left := ToSigned(length, 64);
      ghost var want := Positive(left);
      moved := 0;
      ghost var f, before := ba.Abs(), socket.results;
      Begins(socket.connected, before, f.size - f.pos, want);
      SentNothing(f);
      while left > 0
        invariant ba.Valid() && moved <= f.size - f.pos
        invariant ba.Abs() == f.(pos := f.pos + moved)
        invariant socket.outgoing == old(socket.outgoing) + Sent(f, moved)
        invariant moved + Positive(left) == want == Positive(ToSigned(length, 64)) && left <= ToSigned(length, 64)
        invariant Going(socket.connected, before, f.size - f.pos, want, socket.results, moved,
                        Positive(left))
        decreases left
      {
        Called(socket.connected, before, f.size - f.pos, want, socket.results, moved, left);
        var len := Write(ba, left);
        SentMore(f, moved, Positive(len));
        moved := moved + Positive(len);
        if len <= 0 {
          return len, moved;
        }
        left := left - len;
      }
      ret := ToSigned(length, 32);
      Completes(socket.connected, before, f.size - f.pos, want, socket.results, moved, ret);
    }

    /** readFixSize(buffer, length). */
    method ReadFixSizeBytes(length: nat) returns (ret: int, bytes: seq<Byte>)
      modifies socket`results, socket`incoming
      ensures old(socket.incoming) == bytes + socket.incoming
      ensures FixSizeEnd(length, |bytes|, ret)
      ensures Transferred(socket.connected, old(socket.results), |old(socket.incoming)|, Positive(ToSigned(length, 64)),
                          socket.results, |bytes|, ret)
    {
      hide ToSigned, Going, Transferred, Granted, Head, Tail;
      var left := ToSigned(length, 64);
      ghost var want := Positive(left);
      bytes := [];
      ghost var before, avail := socket.results, |socket.incoming|;
      Begins(socket.connected, before, avail, want);
      while left > 0
        invariant old(socket.incoming) == bytes + socket.incoming
        invariant |bytes| + Positive(left) == want == Positive(ToSigned(length, 64)) && left <= ToSigned(length, 64)
        invariant Going(socket.connected, before, avail, want, socket.results, |bytes|,
                        Positive(left))
        decreases left
      {
        Called(socket.connected, before, avail, want, socket.results, |bytes|, left);
        var len, chunk := ReadBytes(left);
        bytes := bytes + chunk;
        if len <= 0 {
          return len, bytes;
        }
        left := left - len;
      }
      ret := ToSigned(length, 32);
      Completes(socket.connected, before, avail, want, socket.results, |bytes|, ret);
    }

    /** writeFixSize(buffer, length) with the whole buffer; its size is below 2^63. */
    method WriteFixSizeBytes(buffer: seq<Byte>) returns (ret: int, ghost moved: nat)
      requires ToSigned(|buffer|, 64) == |buffer|
      modifies socket`results, socket`outgoing
      ensures moved <= |buffer|
      ensures socket.outgoing == old(socket.outgoing) + buffer[..moved]
      ensures FixSizeEnd(|buffer|, moved, ret)
      ensures Transferred(socket.connected, old(socket.results), |buffer|, |buffer|,
                          socket.results, moved, ret)
    {
      hide ToSigned, Going, Transferred, Granted, Head, Tail;
      var left := ToSigned(|buffer|, 64);
      var offset: nat := 0;
      moved := 0;
      ghost var before := socket.results;
      Begins(socket.connected, before, |buffer|, |buffer|);
      while left > 0
        invariant moved == offset <= |buffer| && offset + left == |buffer|
        invariant socket.outgoing == old(socket.outgoing) + buffer[..offset]
        invariant Going(socket.connected, before, |buffer|, |buffer|, socket.results, moved, left)
        decreases left
      {
        Called(socket.connected, before, |buffer|, |buffer|, socket.results, moved, left);
        var len := WriteBytes(buffer[offset..]);
        assert buffer[..offset] + buffer[offset..][..Positive(len)] == buffer[..offset + Positive(len)];
        moved := moved + Positive(len);
        if len <= 0 {
          return len, moved;
        }
        offset := offset + len;
        left := left - len;
      }
      ret := ToSigned(|buffer|, 32);
      Completes(socket.connected, before, |buffer|, |buffer|, socket.results, moved, ret);
    }
  }
}
