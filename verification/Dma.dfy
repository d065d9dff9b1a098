/** DMA requests of the AHCI driver: how a request is cut into physical buffers,
    what a device that fills those buffers leaves in memory, and how the bytes
    are copied out again. */
module Dma {
  import opened Basics
  import opened LittleEndian

  // A sector is 512 bytes, and a buffer holds at most 0x2000 bytes, which is sixteen sectors.

  datatype DmaBuffer = DmaBuffer(start: nat, dataSize: nat)

  datatype DmaRequest = DmaRequest(sector: nat, count: nat, buffer: seq<DmaBuffer>)

  function CeilDiv(n: nat, d: nat): nat
    requires d > 0
  {
    (n + d - 1) / d
  }

  // ----- the address stream of a buffer list -----

  function Span(start: nat, n: nat): (s: seq<nat>)
    ensures |s| == n
  {
    seq(n, i requires 0 <= i => start + i)
  }

  /** The physical addresses a buffer list describes, in transfer order. */
  function Addrs(bufs: seq<DmaBuffer>): seq<nat> {
    if bufs == [] then [] else Span(bufs[0].start, bufs[0].dataSize) + Addrs(bufs[1..])
  }

  /** All buffers hold `0x2000` bytes but the last, and together they hold `size`. */
  ghost predicate Shaped(bufs: seq<DmaBuffer>, size: nat) {
    && size <= 0x2000 * |bufs| < size + 0x2000
    && forall i :: 0 <= i < |bufs| ==> bufs[i].dataSize == Min(0x2000, size - 0x2000 * i)
  }

  /** The buffers of a request of `size` bytes on the given blocks. */
  function Buffers(blocks: seq<nat>, size: nat): (bufs: seq<DmaBuffer>)
    requires size <= 0x2000 * |blocks|
  {
    seq(CeilDiv(size, 0x2000), i requires 0 <= i < CeilDiv(size, 0x2000) =>
      DmaBuffer(blocks[i], Min(0x2000, size - 0x2000 * i)))
  }

  lemma BuffersShaped(blocks: seq<nat>, size: nat)
    requires size <= 0x2000 * |blocks|
    ensures Shaped(Buffers(blocks, size), size)
  {
  }

  lemma ShapedTail(bufs: seq<DmaBuffer>, size: nat)
    requires Shaped(bufs, size) && bufs != []
    ensures Shaped(bufs[1..], if size < 0x2000 then 0 else size - 0x2000)
  {
  }

  /** Closed form: byte `k` of the stream lies in buffer `k / 0x2000`. */
  lemma {:induction false} AddrsAt(bufs: seq<DmaBuffer>, size: nat)
    requires Shaped(bufs, size)
    ensures |Addrs(bufs)| == size
    ensures forall k :: 0 <= k < size ==> Addrs(bufs)[k] == bufs[k / 0x2000].start + k % 0x2000
  {
    if bufs != [] {
      var n := bufs[0].dataSize;
      ShapedTail(bufs, size);
      AddrsAt(bufs[1..], size - n);
      forall k | 0 <= k < size
        ensures Addrs(bufs)[k] == bufs[k / 0x2000].start + k % 0x2000
      {
        if k >= n {
          assert Addrs(bufs)[k] == Addrs(bufs[1..])[k - n];
          assert (k - n) / 0x2000 == k / 0x2000 - 1;
        }
      }
    }
  }

  // ----- physical memory under a transfer -----

  ghost predicate InRam(addrs: seq<nat>, ram: seq<Byte>) {
    forall i :: 0 <= i < |addrs| ==> addrs[i] < |ram|
  }

  /** Memory after byte `from + i` of `data` was stored at `addrs[i]`, for each `i` in turn. */
  function Scatter(ram: seq<Byte>, addrs: seq<nat>, data: nat -> Byte, from: nat): (r: seq<Byte>)
    requires InRam(addrs, ram)
    ensures |r| == |ram|
    decreases |addrs|
  {
    if addrs == [] then ram
    else
      var n := |addrs| - 1;
      Scatter(ram, addrs[..n], data, from)[addrs[n] := data(from + n)]
  }

  /** What a reader of `addrs` sees. */
  ghost function Gather(ram: seq<Byte>, addrs: seq<nat>): (r: seq<Byte>)
    requires InRam(addrs, ram)
    ensures |r| == |addrs|
  {
    seq(|addrs|, i requires 0 <= i < |addrs| => ram[addrs[i]])
  }

  /** Two transfers in sequence are one transfer of the concatenated stream. */
  lemma {:induction false} ScatterConcat(ram: seq<Byte>, a: seq<nat>, b: seq<nat>, data: nat -> Byte, from: nat)
    requires InRam(a, ram) && InRam(b, ram)
    ensures InRam(a + b, ram)
    ensures Scatter(ram, a + b, data, from) == Scatter(Scatter(ram, a, data, from), b, data, from + |a|)
    decreases |b|
  {
    if b == [] {
      assert a + b == a;
    } else {
      var n := |b| - 1;
      assert (a + b)[..|a| + n] == a + b[..n] && (a + b)[|a| + n] == b[n];
      assert |a + b| - 1 == |a| + n && from + (|a| + n) == from + |a| + n;
      ScatterConcat(ram, a, b[..n], data, from);
    }
  }

  ghost predicate SameByte(d: nat -> Byte, p: nat, e: nat -> Byte, q: nat, i: nat) {
    d(p + i) == e(q + i)
  }

  lemma {:induction false} ScatterCongruent(
    ram: seq<Byte>, addrs: seq<nat>, d: nat -> Byte, p: nat, e: nat -> Byte, q: nat)
    requires InRam(addrs, ram)
    requires forall i :: 0 <= i < |addrs| ==> SameByte(d, p, e, q, i)
    ensures Scatter(ram, addrs, d, p) == Scatter(ram, addrs, e, q)
    decreases |addrs|
  {
    if addrs != [] {
      var n := |addrs| - 1;
      ScatterCongruent(ram, addrs[..n], d, p, e, q);
      assert SameByte(d, p, e, q, n);
    }
  }

  /** The last store to an address is the one that stays. */
  lemma {:induction false} ScatterLast(ram: seq<Byte>, addrs: seq<nat>, data: nat -> Byte, from: nat, k: nat)
    requires InRam(addrs, ram) && k < |addrs|
    requires forall j :: k < j < |addrs| ==> addrs[j] != addrs[k]
    ensures Scatter(ram, addrs, data, from)[addrs[k]] == data(from + k)
    decreases |addrs|
  {
    var n := |addrs| - 1;
    if k < n {
      ScatterLast(ram, addrs[..n], data, from, k);
    }
  }

  /** An address that is not stored to keeps its byte. */
  lemma {:induction false} ScatterFrame(ram: seq<Byte>, addrs: seq<nat>, data: nat -> Byte, from: nat, a: nat)
    requires InRam(addrs, ram) && a < |ram| && a !in addrs
    ensures Scatter(ram, addrs, data, from)[a] == ram[a]
    decreases |addrs|
  {
    if addrs != [] {
      ScatterFrame(ram, addrs[..|addrs| - 1], data, from, a);
    }
  }

  /** None of the first `len` stream bytes is overwritten by a later one. */
  ghost predicate Unclobbered(addrs: seq<nat>, len: nat) {
    forall i, j :: 0 <= i < len && i < j < |addrs| ==> addrs[i] != addrs[j]
  }

  // ----- reading a request back -----

  /** The bytes of buffer `i` in the stream. */
  lemma BufferPart(bufs: seq<DmaBuffer>, size: nat, i: nat, k: nat)
    requires Shaped(bufs, size) && i < |bufs| && 0x2000 * i <= k < 0x2000 * (i + 1) && k < size
    ensures |Addrs(bufs)| == size && Addrs(bufs)[k] == bufs[i].start + (k - 0x2000 * i)
  {
    hide Addrs;
    AddrsAt(bufs, size);
    assert k / 0x2000 == i;
  }

  /** `DmaRequest::copy_into`: reads the buffers back in order. */
  method CopyInto(request: DmaRequest, ram: seq<Byte>, into: array<Byte>)
    requires Shaped(request.buffer, request.count * 512)
    requires InRam(Addrs(request.buffer), ram)
    requires into.Length <= request.count * 512
    modifies into
    ensures |Addrs(request.buffer)| == request.count * 512
    ensures into[..] == Gather(ram, Addrs(request.buffer)[..into.Length])
  {
    hide Addrs, Shaped;
    var offset, remaining := 0, into.Length;
    ghost var size, addrs := request.count * 512, Addrs(request.buffer);
    AddrsAt(request.buffer, size);
    BuffersHold(request.buffer, size);
    for i := 0 to |request.buffer|
      invariant offset == Min(into.Length, 0x2000 * i) && remaining == into.Length - offset
      invariant forall k :: 0 <= k < offset ==> into[k] == ram[addrs[k]]
    {
      var count := Min(remaining, 0x2000);
      var start := request.buffer[i].start;
      forall k | offset <= k < offset + count
        ensures addrs[k] == start + (k - offset)
      {
        BufferPart(request.buffer, size, i, k);
      }
      assert count > 0 ==> addrs[offset + count - 1] == start + count - 1;
      forall k | offset <= k < offset + count {
        into[k] := ram[start + (k - offset)];
      }
      remaining := remaining - count;
      offset := offset + count;
    }
  }

  lemma BuffersHold(bufs: seq<DmaBuffer>, size: nat)
    requires Shaped(bufs, size)
    ensures size <= 0x2000 * |bufs|
  {
  }
}
