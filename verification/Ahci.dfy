/** The slot-allocating half of the AHCI driver: requests run on a port's 32 command slots,
    and whole reads into a caller's buffer. */
module Ahci {
  import opened Basics
  import opened LittleEndian
  import opened Dma
  import opened Commands
  import opened Hba
  import opened Pmm
  import Frames
  import Heap

  /** An issued command: its request, its slot, and what the slot's table said. */
  datatype Issued = Issued(request: DmaRequest, slot: nat, chunk: Chunk, prds: seq<DmaBuffer>)

  // ----- slots -----

  function FreeCount(cmds: seq<Option<DmaRequest>>): nat {
    if cmds == [] then 0
    else FreeCount(cmds[..|cmds| - 1]) + if cmds[|cmds| - 1].None? then 1 else 0
  }

  lemma {:induction false} FreeCountTake(cmds: seq<Option<DmaRequest>>, i: nat, request: DmaRequest)
    requires i < |cmds| && cmds[i].None?
    ensures FreeCount(cmds[i := Some(request)]) == FreeCount(cmds) - 1
  {
    var n := |cmds| - 1;
    var after := cmds[i := Some(request)];
    if i < n {
      FreeCountTake(cmds[..n], i, request);
      assert after[..n] == cmds[..n][i := Some(request)];
    } else {
      assert after[..n] == cmds[..n];
    }
  }

  lemma {:induction false} FreeCountZero(cmds: seq<Option<DmaRequest>>)
    ensures FreeCount(cmds) <= |cmds|
    ensures FreeCount(cmds) == 0 <==> forall i :: 0 <= i < |cmds| ==> cmds[i].Some?
    ensures (forall i :: 0 <= i < |cmds| ==> cmds[i].None?) ==> FreeCount(cmds) == |cmds|
  {
    if cmds != [] {
      var n := |cmds| - 1;
      FreeCountZero(cmds[..n]);
      assert FreeCount(cmds[..n]) == 0 ==> forall i :: 0 <= i < n ==> cmds[..n][i] == cmds[i];
    }
  }

  /** The lowest empty slot. */
  function FirstFree(cmds: seq<Option<DmaRequest>>): (r: Option<nat>)
    ensures r.None? ==> forall i :: 0 <= i < |cmds| ==> cmds[i].Some?
    ensures r.Some? ==> r.value < |cmds| && cmds[r.value].None? && forall i :: 0 <= i < r.value ==> cmds[i].Some?
  {
    if cmds == [] then None
    else
      var r := FirstFree(cmds[..|cmds| - 1]);
      assert forall i :: 0 <= i < |cmds| - 1 ==> cmds[..|cmds| - 1][i] == cmds[i];
      if r.Some? then r else if cmds[|cmds| - 1].None? then Some(|cmds| - 1) else None
  }

  // ----- the offsets of the two request loops -----

  /** Commands one inner call issues with `free` empty slots. */
  function Steps(free: nat, count: nat, offset: nat): nat
    requires offset <= count
  {
    Min(CeilDiv(count - offset, 128), free)
  }

  /** The offset one inner call returns. */
  function InnerEnd(free: nat, count: nat, offset: nat): nat
    requires offset <= count
  {
    Min(count, offset + 128 * Steps(free, count, offset))
  }

  /** Offset and free slots after `n` rounds of the outer loop. */
  function Outer(n: nat, free: nat, count: nat): (r: (nat, nat))
    ensures r.0 <= count
  {
    if n == 0 then (0, free)
    else
      var (offset, left) := Outer(n - 1, free, count);
      (InnerEnd(left, count, offset), left - Steps(left, count, offset))
  }

  lemma {:induction false} OuterAfter(n: nat, free: nat, count: nat)
    requires n > 0
    ensures Outer(n, free, count) == (InnerEnd(free, count, 0), free - Steps(free, count, 0))
  {
    hide Steps, InnerEnd;
    if n > 1 {
      OuterAfter(n - 1, free, count);
      InnerTwice(free, count);
    } else {
      assert Outer(0, free, count) == (0, free);
    }
  }

  /** A second inner call finds nothing left to do, or no free slot. */
  lemma InnerTwice(free: nat, count: nat)
    ensures
      var offset, left := InnerEnd(free, count, 0), free - Steps(free, count, 0);
      offset <= count && left >= 0 && InnerEnd(left, count, offset) == offset && Steps(left, count, offset) == 0
  {
    assert InnerEnd(free, count, 0) == count || free == Steps(free, count, 0);
  }

  /** The outer loop ends exactly when the free slots suffice; otherwise it spins at the same offset
      for ever, since no slot is ever released. */
  lemma OuterEndsIff(free: nat, count: nat)
    ensures (exists n :: Outer(n, free, count).0 == count) <==> CeilDiv(count, 128) <= free
    ensures CeilDiv(count, 128) > free ==> forall n :: n > 0 ==> Outer(n, free, count) == (128 * free, 0)
  {
    OuterAfter(1, free, count);
    forall n: nat | n > 0
      ensures Outer(n, free, count) == Outer(1, free, count)
    {
      OuterAfter(n, free, count);
    }
    if CeilDiv(count, 128) <= free {
      assert Outer(1, free, count).0 == count;
    } else {
      forall n: nat
        ensures Outer(n, free, count).0 != count
      {
        if n > 0 {
          OuterAfter(n, free, count);
        }
      }
    }
  }

  /** The slots a list of requests needs in all. */
  function SlotsFor(counts: seq<nat>): nat {
    if counts == [] then 0 else CeilDiv(counts[0], 128) + SlotsFor(counts[1..])
  }

  function Counts(requests: seq<DmaRequest>): (r: seq<nat>)
    ensures |r| == |requests|
  {
    seq(|requests|, i requires 0 <= i < |requests| => requests[i].count)
  }

  lemma SlotsNext(requests: seq<DmaRequest>)
    requires requests != []
    ensures SlotsFor(Counts(requests)) == CeilDiv(requests[0].count, 128) + SlotsFor(Counts(requests[1..]))
  {
    assert Counts(requests)[1..] == Counts(requests[1..]);
  }

  lemma NoSlots()
    ensures SlotsFor(Counts([])) == 0
  {
  }

  /** Any number of rounds ends a request that fits, and none ends another. */
  lemma RoundsEndIff(n: nat, free: nat, count: nat)
    requires n > 0
    ensures Outer(n, free, count).0 == count <==> CeilDiv(count, 128) <= free
    ensures Outer(n, free, count).0 == count ==> Outer(n, free, count).1 == free - CeilDiv(count, 128)
  {
    OuterAfter(n, free, count);
  }

  lemma InnerAligned(free: nat, count: nat, offset: nat)
    requires offset <= count && (offset % 128 == 0 || offset == count)
    ensures InnerEnd(free, count, offset) % 128 == 0 || InnerEnd(free, count, offset) == count
    ensures offset == count ==> InnerEnd(free, count, offset) == count && Steps(free, count, offset) == 0
    ensures Steps(free, count, offset) <= free && InnerEnd(free, count, offset) <= count
  {
  }

  /** All requests of a list come to an end, run one after the other. */
  ghost predicate AllEnd(free: nat, counts: seq<nat>)
    decreases |counts|
  {
    counts == [] || exists n ::
      Outer(n, free, counts[0]).0 == counts[0] && AllEnd(Outer(n, free, counts[0]).1, counts[1..])
  }

  /** Since slots are never released, a port serves a sequence of requests if and only if their commands
      together fit into the slots it has left: 32 commands in its whole life. */
  lemma {:induction false} AllEndIff(free: nat, counts: seq<nat>)
    ensures AllEnd(free, counts) <==> SlotsFor(counts) <= free
    decreases |counts|
  {
    hide Outer, CeilDiv;
    if counts != [] {
      var count, rest := counts[0], counts[1..];
      OuterEndsIff(free, count);
      forall n: nat | Outer(n, free, count).0 == count
        ensures CeilDiv(count, 128) <= free && Outer(n, free, count).1 == free - CeilDiv(count, 128)
      {
        EndLeaves(n, free, count);
      }
      if CeilDiv(count, 128) <= free {
        AllEndIff(free - CeilDiv(count, 128), rest);
      }
    }
  }

  lemma EndLeaves(n: nat, free: nat, count: nat)
    requires Outer(n, free, count).0 == count
    ensures CeilDiv(count, 128) <= free && Outer(n, free, count).1 == free - CeilDiv(count, 128)
  {
    if n > 0 {
      OuterAfter(n, free, count);
    }
  }

  // ----- one command of a request -----

  /** A request whose buffers are real memory; the addresses fit the 64-bit descriptor field. */
  ghost predicate Ready(request: DmaRequest, ram: seq<Byte>) {
    && Shaped(request.buffer, request.count * 512)
    && InRam(Addrs(request.buffer), ram)
    && forall i :: 0 <= i < |request.buffer| ==> request.buffer[i].start < Pow256(8)
  }

  /** `set_lba` never sees a sector of more than 48 bits. */
  ghost predicate LbaFits(request: DmaRequest) {
    request.count > 0 ==> request.sector + 128 * ((request.count - 1) / 128) < Pow256(6)
  }

  /** One buffer for every sixteen sectors, or part of sixteen. */
  predicate Sixteenths(request: DmaRequest) {
    request.count <= 16 * |request.buffer| < request.count + 16
  }

  lemma ShapedSixteenths(request: DmaRequest)
    requires Shaped(request.buffer, request.count * 512)
    ensures Sixteenths(request)
  {
  }

  /** Where the command at `offset` ends. */
  function NextOffset(request: DmaRequest, offset: nat): (next: nat)
    requires offset < request.count
    ensures offset < next <= request.count && next <= offset + 128
  {
    if request.count - offset < 128 then request.count else offset + 128
  }

  /** The descriptors a command at `offset` gets: `at_offset` cut to the command's length. */
  function CommandBuffers(request: DmaRequest, offset: nat): (r: seq<DmaBuffer>)
    requires offset < request.count && Sixteenths(request)
  {
    request.buffer[offset / 16..offset / 16 + PrdLength(NextOffset(request, offset) - offset)]
  }

  /** A buffer of a command holds as much of the command as it holds of the request. */
  lemma PartSize(total: nat, offset: nat, count: nat, i: nat)
    requires offset + count <= total && offset % 16 == 0 && 16 * i < count
    requires count == 128 || count == total - offset
    ensures Min(0x2000, total * 512 - 0x2000 * (offset / 16 + i)) == Min(0x2000, 512 * count - 0x2000 * i)
  {
  }

  /** A command takes the buffers its sectors lie in, from a whole buffer on. */
  lemma CommandLength(request: DmaRequest, offset: nat)
    requires Sixteenths(request) && offset < request.count && offset % 128 == 0
    ensures
      var bufs, first, count := CommandBuffers(request, offset), offset / 16, NextOffset(request, offset) - offset;
      && 16 * first == offset && (count == 128 || count == request.count - offset)
      && 16 * |bufs| - 16 < count <= 16 * |bufs| && first + |bufs| <= |request.buffer|
      && forall i :: 0 <= i < |bufs| ==> bufs[i] == request.buffer[first + i]
  {
    BufferCount(request.count, |request.buffer|, offset, NextOffset(request, offset) - offset);
  }

  lemma BufferCount(total: nat, n: nat, offset: nat, count: nat)
    requires total <= 16 * n < total + 16 && offset % 128 == 0 && offset + count <= total && count > 0
    ensures 16 * (offset / 16) == offset && offset / 16 + PrdLength(count) <= n
    ensures 16 * PrdLength(count) - 16 < count <= 16 * PrdLength(count)
  {
    hide PrdLength;
    Whole16(offset, offset / 128);
    PrdBounds(count);
  }

  lemma Whole16(offset: nat, q: nat)
    requires offset == 128 * q
    ensures 16 * (offset / 16) == offset
  {
    assert offset / 16 == 8 * q;
  }

  lemma PrdBounds(count: nat)
    requires count > 0
    ensures 16 * PrdLength(count) - 16 < count <= 16 * PrdLength(count)
  {
  }

  lemma SizeAt(bufs: seq<DmaBuffer>, size: nat, i: nat)
    requires Shaped(bufs, size) && i < |bufs|
    ensures bufs[i].dataSize == Min(0x2000, size - 0x2000 * i)
  {
  }

  lemma CommandShaped(request: DmaRequest, offset: nat)
    requires Shaped(request.buffer, request.count * 512)
    requires offset < request.count && offset % 128 == 0
    ensures Shaped(CommandBuffers(request, offset), 512 * (NextOffset(request, offset) - offset))
  {
    hide Min, Shaped, CommandBuffers, NextOffset, Sixteenths;
    ShapedSixteenths(request);
    CommandLength(request, offset);
    var count := NextOffset(request, offset) - offset;
    var bufs, first := CommandBuffers(request, offset), offset / 16;
    forall i | 0 <= i < |bufs|
      ensures bufs[i].dataSize == Min(0x2000, 512 * count - 0x2000 * i)
    {
      SizeAt(request.buffer, request.count * 512, first + i);
      PartSize(request.count, offset, count, i);
    }
    ShapedBySizes(bufs, count);
  }

  lemma ShapedBySizes(bufs: seq<DmaBuffer>, count: nat)
    requires 16 * |bufs| - 16 < count <= 16 * |bufs|
    requires forall i :: 0 <= i < |bufs| ==> bufs[i].dataSize == Min(0x2000, 512 * count - 0x2000 * i)
    ensures Shaped(bufs, 512 * count)
  {
  }

  /** A command's descriptor list is exactly its own part of the request's address stream. */
  lemma CommandAddrs(request: DmaRequest, offset: nat)
    requires Shaped(request.buffer, request.count * 512)
    requires offset < request.count && offset % 128 == 0
    ensures |Addrs(request.buffer)| == request.count * 512
    ensures Addrs(CommandBuffers(request, offset))
      == Addrs(request.buffer)[512 * offset..512 * NextOffset(request, offset)]
  {
    hide Addrs, Shaped, CommandBuffers, NextOffset, Sixteenths;
    ShapedSixteenths(request);
    CommandLength(request, offset);
    CommandShaped(request, offset);
    var next := NextOffset(request, offset);
    var bufs, first, size := CommandBuffers(request, offset), offset / 16, 512 * (next - offset);
    AddrsAt(bufs, size);
    AddrsAt(request.buffer, request.count * 512);
    forall k | 0 <= k < size
      ensures Addrs(bufs)[k] == Addrs(request.buffer)[512 * offset + k]
    {
      SameBuffer(first, k, |bufs|, size);
    }
    assert Addrs(bufs) == Addrs(request.buffer)[512 * offset..512 * next];
  }

  lemma SameBuffer(first: nat, k: nat, n: nat, size: nat)
    requires k < size <= 0x2000 * n
    ensures (0x2000 * first + k) / 0x2000 == first + k / 0x2000 && k / 0x2000 < n
    ensures (0x2000 * first + k) % 0x2000 == k % 0x2000
  {
  }

  /** `n` commands take the offset from `from` to `offset`. */
  ghost predicate Advanced(count: nat, from: nat, n: nat, offset: nat) {
    && from <= offset <= count && (n > 0 ==> from + 128 * (n - 1) < count)
    && (offset < count ==> offset == from + 128 * n)
    && (offset == count ==> n == CeilDiv(count - from, 128))
  }

  lemma AdvancedNext(request: DmaRequest, from: nat, n: nat, offset: nat)
    requires Advanced(request.count, from, n, offset) && offset < request.count
    requires from % 128 == 0 || from == request.count
    ensures offset == from + 128 * n && offset % 128 == 0
    ensures Advanced(request.count, from, n + 1, NextOffset(request, offset))
  {
  }

  lemma AdvancedEnd(free: nat, count: nat, from: nat, n: nat, offset: nat)
    requires Advanced(count, from, n, offset) && n <= free && (offset == count || n == free)
    ensures n == Steps(free, count, from) && offset == InnerEnd(free, count, from)
  {
  }

  lemma CommandFits(request: DmaRequest, offset: nat)
    requires LbaFits(request) && offset < request.count && offset % 128 == 0
    ensures request.sector + offset < Pow256(6)
  {
    assert offset / 128 <= (request.count - 1) / 128;
  }

  /** All that `run_command` needs of the command at `offset`. */
  lemma CommandReady(request: DmaRequest, ram: seq<Byte>, offset: nat, slot: nat)
    requires Ready(request, ram) && LbaFits(request) && offset < request.count && offset % 128 == 0
    ensures
      var count := NextOffset(request, offset) - offset;
      var e := CommandAt(request, offset, slot);
      && request.sector + offset < Pow256(6) && 0 < count <= 128 && offset / 16 <= |request.buffer|
      && PrdLength(count) <= |request.buffer[offset / 16..]|
      && e == Issued(request, slot, Chunk(request.sector + offset, count),
                     request.buffer[offset / 16..][..PrdLength(count)])
      && (forall k :: 0 <= k < |e.prds| ==> e.prds[k].start < Pow256(8) && 0 < e.prds[k].dataSize <= 0x2000)
      && e.prds == CommandBuffers(request, offset) && |Addrs(e.prds)| == 512 * count
  {
    hide Addrs, Shaped, InRam, LbaFits, NextOffset;
    ShapedSixteenths(request);
    CommandAddrs(request, offset);
    CommandShaped(request, offset);
    CommandFits(request, offset);
    var bufs, count := CommandBuffers(request, offset), NextOffset(request, offset) - offset;
    CommandLength(request, offset);
    forall k | 0 <= k < |bufs|
      ensures 0 < bufs[k].dataSize <= 0x2000
    {
      SizeAt(bufs, 512 * count, k);
    }
  }

  /** Inside one command the stream is consecutive disk bytes. */
  lemma CommandData(disk: nat -> Byte, mode: Addressing, sector: nat, offset: nat, i: nat)
    requires offset % 128 == 0 && i < 0x10000
    ensures SameByte(disk, 512 * Addressed(mode, CommandFor(sector), sector + offset),
                     StreamData(disk, mode, sector), 512 * offset, i)
  {
    assert 512 * offset == 0x10000 * (offset / 128);
    assert (512 * offset + i) / 0x10000 == offset / 128 && (512 * offset + i) % 0x10000 == i;
    assert Source(mode, sector, 512 * offset + i)
        == 512 * Addressed(mode, CommandFor(sector), sector + offset) + i;
  }

  /** Memory once sectors `from` to `to` of a request have arrived in its buffers. */
  ghost function Filled(ram: seq<Byte>, request: DmaRequest, disk: nat -> Byte, mode: Addressing,
                        from: nat, to: nat): (r: seq<Byte>)
    requires Ready(request, ram) && from <= to <= request.count
    ensures |r| == |ram|
  {
    AddrsAt(request.buffer, request.count * 512);
    Scatter(ram, Addrs(request.buffer)[512 * from..512 * to], StreamData(disk, mode, request.sector), 512 * from)
  }

  lemma FilledNone(ram: seq<Byte>, request: DmaRequest, disk: nat -> Byte, mode: Addressing, from: nat)
    requires Ready(request, ram) && from <= request.count
    ensures Filled(ram, request, disk, mode, from, from) == ram
  {
    AddrsAt(request.buffer, request.count * 512);
    assert Addrs(request.buffer)[512 * from..512 * from] == [];
  }

  /** A transfer up to `offset` followed by one command's transfer is a transfer up to that command's end. */
  lemma TransferExtends(ram: seq<Byte>, all: seq<nat>, disk: nat -> Byte, mode: Addressing, sector: nat,
                        from: nat, offset: nat, end: nat)
    requires InRam(all, ram) && from <= offset <= end <= offset + 128 && 512 * end <= |all|
    requires offset % 128 == 0
    ensures
      var data := StreamData(disk, mode, sector);
      var mid := Scatter(ram, all[512 * from..512 * offset], data, 512 * from);
      Scatter(mid, all[512 * offset..512 * end], disk, 512 * Addressed(mode, CommandFor(sector), sector + offset))
      == Scatter(ram, all[512 * from..512 * end], data, 512 * from)
  {
    hide Scatter, Addressed, CommandFor, StreamData;
    var data := StreamData(disk, mode, sector);
    var a, b := all[512 * from..512 * offset], all[512 * offset..512 * end];
    var pos := 512 * Addressed(mode, CommandFor(sector), sector + offset);
    assert a + b == all[512 * from..512 * end];
    ScatterConcat(ram, a, b, data, 512 * from);
    forall i | 0 <= i < |b|
      ensures SameByte(disk, pos, data, 512 * offset, i)
    {
      CommandData(disk, mode, sector, offset, i);
    }
    ScatterCongruent(Scatter(ram, a, data, 512 * from), b, disk, pos, data, 512 * offset);
  }

  lemma FilledNext(ram: seq<Byte>, request: DmaRequest, disk: nat -> Byte, mode: Addressing, from: nat, offset: nat,
                   mid: seq<Byte>)
    requires Ready(request, ram) && from <= offset < request.count && offset % 128 == 0
    requires mid == Filled(ram, request, disk, mode, from, offset)
    ensures InRam(Addrs(CommandBuffers(request, offset)), mid)
    ensures Filled(ram, request, disk, mode, from, NextOffset(request, offset))
      == Scatter(mid, Addrs(CommandBuffers(request, offset)), disk,
                 512 * Addressed(mode, CommandFor(request.sector), request.sector + offset))
  {
    hide Scatter, Addrs, Shaped, CommandBuffers, NextOffset;
    CommandAddrs(request, offset);
    TransferExtends(ram, Addrs(request.buffer), disk, mode, request.sector, from, offset, NextOffset(request, offset));
  }

  lemma FilledAll(ram: seq<Byte>, request: DmaRequest, disk: nat -> Byte, mode: Addressing)
    requires Ready(request, ram)
    ensures Filled(ram, request, disk, mode, 0, request.count)
      == Scatter(ram, Addrs(request.buffer), StreamData(disk, mode, request.sector), 0)
    ensures |Addrs(request.buffer)| == 512 * request.count
    ensures InRam(Addrs(request.buffer), Filled(ram, request, disk, mode, 0, request.count))
  {
    AddrsAt(request.buffer, request.count * 512);
    assert Addrs(request.buffer)[0..512 * request.count] == Addrs(request.buffer);
  }

  /** What reading the buffers back after a whole request gives. */
  lemma ReadMeans(ram: seq<Byte>, request: DmaRequest, disk: nat -> Byte, mode: Addressing, len: nat)
    requires Ready(request, ram) && len <= 512 * request.count
    ensures
      var addrs := Addrs(request.buffer);
      var filled := Filled(ram, request, disk, mode, 0, request.count);
      && |addrs| == 512 * request.count && InRam(addrs[..len], filled)
      && Gather(filled, addrs[..len]) == ReadResult(ram, addrs, disk, mode, request.sector, len)
      && (Unclobbered(addrs, len) && Addressable(mode, request.sector, request.count)
          ==> ReadResult(ram, addrs, disk, mode, request.sector, len) == DiskSlice(disk, request.sector, len))
  {
    hide Scatter, Addrs, Filled, Unclobbered, Addressable, Shaped;
    FilledAll(ram, request, disk, mode);
    var addrs := Addrs(request.buffer);
    if Unclobbered(addrs, len) && Addressable(mode, request.sector, request.count) {
      FaithfulWhen(ram, addrs, disk, mode, request.sector, request.count, len);
    }
  }

  /** The request `read` builds for a buffer of `len` bytes. */
  function RequestFor(sector: nat, len: nat, blocks: seq<nat>): DmaRequest
    requires CeilDiv(len, 512) * 512 <= 0x2000 * |blocks|
  {
    DmaRequest(sector, CeilDiv(len, 512), Buffers(blocks, CeilDiv(len, 512) * 512))
  }

  /** Buffers for `len` bytes, rounded up to sectors. */
  function BlocksNeeded(len: nat): nat {
    CeilDiv(CeilDiv(len, 512) * 512, 0x2000)
  }

  /** The request `read` builds from the allocator's list and cursor. */
  function RequestFrom(frames: seq<nat>, next: nat, steps: seq<Heap.MapStep>, sector: nat, len: nat): DmaRequest
    requires |steps| == BlocksNeeded(len) && EnoughFrames(frames, next, steps)
  {
    RequestFor(sector, len, Blocks(frames, next, steps))
  }

  /** What a request needs of memory is its size only. */
  lemma ReadyAny(request: DmaRequest, a: seq<Byte>, b: seq<Byte>)
    requires Ready(request, a) && |a| == |b|
    ensures Ready(request, b) && InRam(Addrs(request.buffer), b)
  {
  }

  /** The parts of the blocks that a request of `size` bytes uses are memory with 64-bit addresses. */
  ghost predicate BlocksInRam(blocks: seq<nat>, size: nat, limit: nat)
    requires size <= 0x2000 * |blocks|
  {
    limit <= 0x1_0000_0000_0000_0000 &&
    forall i :: 0 <= i < |blocks| && 0x2000 * i < size ==> blocks[i] + Min(0x2000, size - 0x2000 * i) <= limit
  }

  lemma BlocksReady(ram: seq<Byte>, blocks: seq<nat>, sector: nat, len: nat)
    requires CeilDiv(len, 512) * 512 <= 0x2000 * |blocks|
    requires BlocksInRam(blocks, CeilDiv(len, 512) * 512, |ram|)
    ensures Ready(RequestFor(sector, len, blocks), ram)
  {
    var size := CeilDiv(len, 512) * 512;
    var bufs := Buffers(blocks, size);
    BuffersShaped(blocks, size);
    AddrsAt(bufs, size);
    WordWidth();
    forall k | 0 <= k < size
      ensures Addrs(bufs)[k] < |ram|
    {
      assert k % 0x2000 < bufs[k / 0x2000].dataSize;
    }
  }

  lemma WordWidth()
    ensures Pow256(8) == 0x1_0000_0000_0000_0000
  {
    assert Pow256(4) == 0x1_0000_0000;
    assert Pow256(6) == 0x1_0000_0000_0000;
  }

  /** The first `n` blocks are at least 8 KiB apart. */
  ghost predicate Apart(blocks: seq<nat>, n: nat)
    requires n <= |blocks|
  {
    forall i :: 0 <= i < n - 1 ==> blocks[i] + 0x2000 <= blocks[i + 1]
  }

  /** With blocks in ascending order, as a one-frame-at-a-time `pmm_alloc` returns them, a read is right on
      every disk exactly when neighbouring blocks are 8 KiB apart and every command is addressable.
      32 slots hold at most 4096 sectors, so the bound on the length excludes no read that ends. */
  lemma AscendingReadIff(ram: seq<Byte>, blocks: seq<nat>, mode: Addressing, sector: nat, len: nat)
    requires CeilDiv(len, 512) * 512 <= 0x2000 * |blocks| && CeilDiv(len, 512) <= 0x1000
    requires BlocksInRam(blocks, CeilDiv(len, 512) * 512, |ram|) && Ascending(blocks)
    ensures Ready(RequestFor(sector, len, blocks), ram)
    ensures
      var bufs := RequestFor(sector, len, blocks).buffer;
      && |Addrs(bufs)| == CeilDiv(len, 512) * 512 && |bufs| <= |blocks|
      && ((forall disk :: Faithful(ram, Addrs(bufs), disk, mode, sector, len)) <==>
          Apart(blocks, |bufs|) && Addressable(mode, sector, CeilDiv(len, 512)))
  {
    hide Faithful, Addressable, Addrs, Unclobbered, InRam, BlocksInRam;
    var count := CeilDiv(len, 512);
    BlocksReady(ram, blocks, sector, len);
    var bufs := RequestFor(sector, len, blocks).buffer;
    BuffersShaped(blocks, count * 512);
    UnclobberedIffGaps(bufs, count, len);
    FaithfulIff(ram, Addrs(bufs), mode, sector, count, len);
    assert forall i :: 0 <= i < |bufs| - 1 ==>
      (bufs[i].start + 0x2000 <= bufs[i + 1].start <==> blocks[i] + 0x2000 <= blocks[i + 1]);
  }

  /** Two adjacent frames are too close: a read of seventeen sectors into them goes wrong on some disk. */
  lemma AdjacentFramesClobber(ram: seq<Byte>, mode: Addressing, sector: nat, frame: nat)
    requires frame + 0x3000 <= |ram| <= 0x1_0000_0000_0000_0000
    ensures
      var addrs := Addrs(RequestFor(sector, 8704, [frame, frame + 0x1000]).buffer);
      && InRam(addrs, ram) && |addrs| == 8704
      && exists disk :: !Faithful(ram, addrs, disk, mode, sector, 8704)
  {
    hide Faithful, Addressable, Unclobbered;
    var blocks := [frame, frame + 0x1000];
    var bufs := RequestFor(sector, 8704, blocks).buffer;
    BuffersShaped(blocks, 8704);
    AddrsAt(bufs, 8704);
    assert bufs == [DmaBuffer(frame, 0x2000), DmaBuffer(frame + 0x1000, 512)];
    AscendingReadIff(ram, blocks, mode, sector, 8704);
    assert blocks[0] + 0x2000 > blocks[0 + 1];
  }

  /** A device of the ATA command set answers a request for sector 2^24 with sector 0. */
  lemma SectorAboveThreeBytes(disk: nat -> Byte, i: nat)
    requires i < 512
    ensures StreamData(disk, ByCommandSet, 0x100_0000)(i) == disk(i)
  {
    assert CommandFor(0x100_0000) == ReadDma && i / 0x10000 == 0;
    assert Source(ByCommandSet, 0x100_0000, i) == i;
  }

  // ----- the log of issued commands -----

  /** The table of an issued command still says what was issued. */
  ghost predicate Recorded(t: seq<Byte>, e: Issued)
    requires |t| == TABLES
  {
    Holds(t, e.slot, e.chunk.lba, e.chunk.count, e.prds) && ReadCode(t, e.slot, e.request.sector)
  }

  /** The command byte of a slot: READ DMA EXT for requests beyond 28 bits, READ DMA for all others. */
  predicate ReadCode(t: seq<Byte>, slot: nat, sector: nat)
    requires |t| == TABLES && slot < 32
  {
    t[Table(slot) + 2] == if sector > 0x0FFF_FFFF then 0x25 else 0xC8
  }

  function CommandAt(request: DmaRequest, offset: nat, slot: nat): Issued
    requires offset < request.count && Sixteenths(request)
  {
    Issued(request, slot, Chunk(request.sector + offset, NextOffset(request, offset) - offset),
           CommandBuffers(request, offset))
  }

  /** A log grown by the first `n` commands of a request from offset `from` on, in consecutive slots. */
  function Extended(log: seq<Issued>, request: DmaRequest, from: nat, n: nat): (r: seq<Issued>)
    requires n > 0 ==> from + 128 * (n - 1) < request.count
    requires Sixteenths(request)
    ensures |r| == |log| + n
  {
    if n == 0 then log
    else Extended(log, request, from, n - 1) + [CommandAt(request, from + 128 * (n - 1), |log| + n - 1)]
  }

  lemma ExtendedNone(log: seq<Issued>, request: DmaRequest, from: nat)
    requires Sixteenths(request)
    ensures Extended(log, request, from, 0) == log
  {
  }

  lemma ExtendedNext(log: seq<Issued>, request: DmaRequest, from: nat, n: nat, offset: nat, now: seq<Issued>)
    requires offset == from + 128 * n < request.count && Sixteenths(request)
    requires now == Extended(log, request, from, n)
    ensures now + [CommandAt(request, offset, |now|)] == Extended(log, request, from, n + 1)
  {
  }

  /** The chunks a request adds to the log are its plan. */
  lemma {:induction false} ExtendedIsPlan(log: seq<Issued>, request: DmaRequest, n: nat)
    requires Sixteenths(request) && (n > 0 ==> 128 * (n - 1) < request.count)
    ensures |Plan(request.sector, request.count)| == CeilDiv(request.count, 128)
    ensures Extended(log, request, 0, n)[..|log|] == log
    ensures forall i :: 0 <= i < n ==>
      Extended(log, request, 0, n)[|log| + i].chunk == Plan(request.sector, request.count)[i]
  {
    PlanAt(request.sector, request.count);
    if n > 0 {
      ExtendedIsPlan(log, request, n - 1);
    }
  }

  function Flatten(log: seq<Issued>): seq<DmaBuffer> {
    if log == [] then [] else Flatten(log[..|log| - 1]) + log[|log| - 1].prds
  }

  lemma FlattenNext(log: seq<Issued>, e: Issued)
    ensures Flatten(log + [e]) == Flatten(log) + e.prds
  {
    assert (log + [e])[..|log|] == log;
  }

  lemma CommandSlice(request: DmaRequest, n: nat)
    requires Sixteenths(request) && 128 * n < request.count
    ensures 8 * n <= |request.buffer|
    ensures request.buffer[..8 * n] + CommandBuffers(request, 128 * n)
      == request.buffer[..Min(8 * (n + 1), |request.buffer|)]
  {
    var prds := CommandBuffers(request, 128 * n);
    assert 128 * n / 16 == 8 * n && 8 * n + |prds| == Min(8 * (n + 1), |request.buffer|);
    assert prds == request.buffer[8 * n..8 * n + |prds|];
  }

  lemma ConcatAssociates<T>(a: seq<T>, b: seq<T>, c: seq<T>)
    ensures a + b + c == a + (b + c)
  {
  }

  lemma {:induction false} FlattenExtended(log: seq<Issued>, request: DmaRequest, n: nat)
    requires Sixteenths(request) && (n > 0 ==> 128 * (n - 1) < request.count)
    ensures Flatten(Extended(log, request, 0, n)) == Flatten(log) + request.buffer[..Min(8 * n, |request.buffer|)]
  {
    if n > 0 {
      FlattenExtended(log, request, n - 1);
      CommandSlice(request, n - 1);
      var before := Extended(log, request, 0, n - 1);
      FlattenNext(before, CommandAt(request, 128 * (n - 1), |before|));
      ConcatAssociates(Flatten(log), request.buffer[..8 * (n - 1)], CommandBuffers(request, 128 * (n - 1)));
    }
  }

  /** The descriptor lists of a request's commands, one after the other, are its buffer list, each buffer once. */
  lemma DescriptorsConcatenate(log: seq<Issued>, request: DmaRequest)
    requires Sixteenths(request)
    ensures Flatten(Extended(log, request, 0, CeilDiv(request.count, 128))) == Flatten(log) + request.buffer
  {
    var n := CeilDiv(request.count, 128);
    FlattenExtended(log, request, n);
    assert request.buffer[..Min(8 * n, |request.buffer|)] == request.buffer;
  }

  /** The commands issued so far took slots 0, 1, 2 and so on, one each; each slot holds its command's
      request, the others are empty, and `free` counts them. */
  ghost predicate SlotLog(cmds: seq<Option<DmaRequest>>, free: nat, issued: seq<Issued>) {
    && |cmds| == 32 && free == FreeCount(cmds) && |issued| + free == 32
    && (forall s :: 0 <= s < 32 ==> cmds[s] == if s < |issued| then Some(issued[s].request) else None)
    && (forall i :: 0 <= i < |issued| ==> issued[i].slot == i)
  }

  lemma SlotLogNext(cmds: seq<Option<DmaRequest>>, free: nat, issued: seq<Issued>, e: Issued)
    requires SlotLog(cmds, free, issued) && FirstFree(cmds) == Some(e.slot)
    ensures e.slot == |issued| < 32 && free > 0 && forall i :: 0 <= i < |issued| ==> issued[i].slot == i
    ensures SlotLog(cmds[e.slot := Some(e.request)], free - 1, issued + [e])
  {
    FreeCountZero(cmds);
    assert cmds[|issued|].None?;
    FreeCountTake(cmds, e.slot, e.request);
  }

  /** Every issued command's table is intact. */
  ghost predicate LogIntact(t: seq<Byte>, issued: seq<Issued>)
    requires |t| == TABLES
  {
    forall i :: 0 <= i < |issued| ==> Recorded(t, issued[i])
  }

  lemma TableRecorded(t: seq<Byte>, e: Issued)
    requires |t| == TABLES && Holds(t, e.slot, e.chunk.lba, e.chunk.count, e.prds)
    requires Names(t[Table(e.slot) + 2], CommandFor(e.request.sector))
    ensures Recorded(t, e)
  {
  }

  lemma LogIntactNext(a: seq<Byte>, b: seq<Byte>, issued: seq<Issued>, e: Issued)
    requires e.slot == |issued| < 32 && SameOutside(a, b, Table(e.slot), Table(e.slot + 1))
    requires LogIntact(a, issued) && Recorded(b, e)
    requires forall i :: 0 <= i < |issued| ==> issued[i].slot == i
    ensures LogIntact(b, issued + [e])
  {
    forall i | 0 <= i < |issued|
      ensures Recorded(b, issued[i])
    {
      HoldsFrame(a, b, e.slot, i, issued[i].chunk.lba, issued[i].chunk.count, issued[i].prds);
    }
  }

  class AhciPort {
    const hba: HbaPort
    var cmds: seq<Option<DmaRequest>>
    var freeCmds: nat
    ghost var issued: seq<Issued>

    /** Holds in every reachable state. */
    ghost predicate Valid()
      reads this, hba, hba.tables
    {
      hba.Valid() && SlotLog(cmds, freeCmds, issued) && LogIntact(hba.tables[..], issued)
    }

    /** `AhciPort::new`. */
    constructor (hba: HbaPort)
      requires hba.Valid()
      ensures Valid() && this.hba == hba && freeCmds == 32 && issued == []
    {
      this.hba, freeCmds, issued := hba, 32, [];
      cmds := seq(32, _ => None);
      new;
      FreeCountZero(cmds);
    }

    /** One round of the inner loop, on the lowest empty slot. */
    method Issue(request: DmaRequest, lba: nat, count: nat, slot: nat, buffer: seq<DmaBuffer>, ghost e: Issued)
      requires Valid() && FirstFree(cmds) == Some(slot)
      requires lba < Pow256(6) && 0 < count <= 128 && PrdLength(count) <= |buffer|
      requires e == Issued(request, slot, Chunk(lba, count), buffer[..PrdLength(count)])
      requires forall k :: 0 <= k < |e.prds| ==> e.prds[k].start < Pow256(8) && 0 < e.prds[k].dataSize <= 0x2000
      requires InRam(Addrs(e.prds), hba.ram) && |Addrs(e.prds)| == 512 * count
      modifies this, hba, hba.tables
      ensures Valid() && old(freeCmds) > 0 && freeCmds == old(freeCmds) - 1
      ensures slot == |old(issued)| && issued == old(issued) + [e]
      ensures hba.ram == Scatter(old(hba.ram), Addrs(e.prds), hba.disk,
                                 512 * Addressed(hba.addressing, CommandFor(request.sector), lba))
    {
      hide Scatter, Addrs, FreeCount, FirstFree, Holds, SameOutside, DescribedUpTo, Clear, InRam, Addressed, SlotLog;
      hide LogIntact, Recorded, HeaderFor, PrdLength, Pow256, hba.Valid;
      SlotLogNext(cmds, freeCmds, issued, e);
      assert forall k :: 0 <= k < PrdLength(count) ==> e.prds[k] == buffer[k];
      hba.RunCommand(CommandFor(request.sector), lba, count, slot, buffer);
      hba.BlockSize();
      TableRecorded(hba.tables[..], e);
      LogIntactNext(old(hba.tables[..]), hba.tables[..], issued, e);
      cmds := cmds[slot := Some(request)];
      freeCmds := freeCmds - 1;
      issued := issued + [e];
    }

    lemma NoSlotLeft()
      requires Valid() && FirstFree(cmds).None?
      ensures freeCmds == 0
    {
      FreeCountZero(cmds);
    }

    /** Where the inner loop stands after `n` commands, having entered it with `free` empty slots. */
    ghost predicate Running(request: DmaRequest, ram: seq<Byte>, log: seq<Issued>, free: nat, from: nat, n: nat,
                            offset: nat)
      reads this, hba, hba.tables
    {
      && Valid() && Ready(request, ram) && LbaFits(request)
      && Advanced(request.count, from, n, offset) && (from % 128 == 0 || from == request.count)
      && freeCmds + n == free
      && issued == Extended(log, request, from, n)
      && hba.ram == Filled(ram, request, hba.disk, hba.addressing, from, offset)
    }

    /** One round of the inner loop. */
    method Round(request: DmaRequest, offset: nat, slot: nat,
                 ghost ram: seq<Byte>, ghost log: seq<Issued>, ghost free: nat, ghost from: nat, ghost n: nat)
      returns (next: nat)
      requires Running(request, ram, log, free, from, n, offset) && offset < request.count
      requires FirstFree(cmds) == Some(slot)
      modifies this, hba, hba.tables
      ensures Running(request, ram, log, free, from, n + 1, next)
      ensures offset < next <= request.count
    {
      hide Scatter, Addrs, Filled, FirstFree, Extended, Advanced, SlotLog, LogIntact;
      hide InRam, Shaped, LbaFits, CommandBuffers, CommandAt;
      ShapedSixteenths(request);
      AdvancedNext(request, from, n, offset);
      ExtendedNext(log, request, from, n, offset, issued);
      CommandReady(request, ram, offset, slot);
      FilledNext(ram, request, hba.disk, hba.addressing, from, offset, hba.ram);
      next := NextOffset(request, offset);
      Issue(request, request.sector + offset, next - offset, slot, request.buffer[offset / 16..],
            CommandAt(request, offset, slot));
    }

    /** `AhciPortProtected::run_request`: issues commands while slots last. */
    method RunInner(request: DmaRequest, from: nat) returns (offset: nat)
      requires Valid() && Ready(request, hba.ram) && LbaFits(request)
      requires from <= request.count && (from % 128 == 0 || from == request.count)
      modifies this, hba, hba.tables
      ensures Valid()
      ensures offset == InnerEnd(old(freeCmds), request.count, from)
      ensures freeCmds == old(freeCmds) - Steps(old(freeCmds), request.count, from)
      ensures issued == Extended(old(issued), request, from, Steps(old(freeCmds), request.count, from))
      ensures hba.ram == Filled(old(hba.ram), request, hba.disk, hba.addressing, from, offset)
    {
      hide Filled, Extended, FirstFree, InRam, Shaped, LbaFits;
      offset := from;
      var remaining := request.count - offset;
      ghost var n := 0;
      ShapedSixteenths(request);
      ExtendedNone(issued, request, from);
      FilledNone(hba.ram, request, hba.disk, hba.addressing, from);
      while remaining > 0
        invariant offset <= request.count && remaining == request.count - offset
        invariant Running(request, old(hba.ram), old(issued), old(freeCmds), from, n, offset)
      {
        var slot := FirstFree(cmds);
        if slot.None? {
          NoSlotLeft();
          break;
        }
        offset := Round(request, offset, slot.value, old(hba.ram), old(issued), old(freeCmds), from, n);
        remaining := request.count - offset;
        n := n + 1;
      }
      AdvancedEnd(old(freeCmds), request.count, from, n, offset);
    }

    /** `AhciPort::run_request`; with fewer free slots than commands the source loops for ever (`OuterEndsIff`). */
    method RunRequest(request: DmaRequest) returns (bytes: nat)
      requires Valid() && Ready(request, hba.ram) && LbaFits(request)
      requires CeilDiv(request.count, 128) <= freeCmds
      modifies this, hba, hba.tables
      ensures Valid() && bytes == request.count * 512
      ensures freeCmds == old(freeCmds) - CeilDiv(request.count, 128)
      ensures issued == Extended(old(issued), request, 0, CeilDiv(request.count, 128))
      ensures hba.ram == Filled(old(hba.ram), request, hba.disk, hba.addressing, 0, request.count)
    {
      hide Filled, Extended, InRam, Shaped, LbaFits, SlotLog, LogIntact;
      ShapedSixteenths(request);
      ExtendedNone(issued, request, 0);
      FilledNone(hba.ram, request, hba.disk, hba.addressing, 0);
      var offset := 0;
      while offset < request.count
        invariant Valid() && offset <= request.count
        invariant offset == 0 || offset == request.count
        invariant offset < request.count ==>
          hba.ram == old(hba.ram) && issued == old(issued) && freeCmds == old(freeCmds)
        invariant offset == request.count ==>
          && freeCmds == old(freeCmds) - CeilDiv(request.count, 128)
          && issued == Extended(old(issued), request, 0, CeilDiv(request.count, 128))
          && hba.ram == Filled(old(hba.ram), request, hba.disk, hba.addressing, 0, request.count)
      {
        offset := RunInner(request, offset);
      }
      bytes := request.count * 512;
    }

    /** The outer loop cut off after `n` rounds, for any number of free slots. */
    method RunRounds(request: DmaRequest, n: nat) returns (offset: nat)
      requires Valid() && Ready(request, hba.ram) && LbaFits(request)
      modifies this, hba, hba.tables
      ensures Valid() && |hba.ram| == |old(hba.ram)|
      ensures (offset, freeCmds) == Outer(n, old(freeCmds), request.count)
    {
      hide Filled, Extended, InRam, Shaped, LbaFits, SlotLog, LogIntact, Steps, InnerEnd, hba.Valid;
      offset := 0;
      for i := 0 to n
        invariant Valid() && |hba.ram| == |old(hba.ram)| && offset <= request.count
        invariant (offset, freeCmds) == Outer(i, old(freeCmds), request.count)
        invariant offset % 128 == 0 || offset == request.count
      {
        InnerAligned(freeCmds, request.count, offset);
        if offset < request.count {
          ReadyAny(request, old(hba.ram), hba.ram);
          offset := RunInner(request, offset);
        }
      }
    }

    /** Requests one after the other, each given `rounds` rounds of the outer loop, up to the first that has not
        come to its end. More rounds than one make no difference. */
    method RunAll(requests: seq<DmaRequest>, rounds: nat) returns (ended: bool)
      requires Valid() && rounds > 0
      requires forall i :: 0 <= i < |requests| ==> Ready(requests[i], hba.ram) && LbaFits(requests[i])
      modifies this, hba, hba.tables
      ensures Valid() && (ended <==> AllEnd(old(freeCmds), Counts(requests)))
      ensures ended ==> freeCmds == old(freeCmds) - SlotsFor(Counts(requests))
    {
      hide InRam, Shaped, LbaFits, SlotLog, LogIntact, CeilDiv, Outer, AllEnd, SlotsFor, Counts;
      AllEndIff(freeCmds, Counts(requests));
      NoSlots();
      assert requests[0..] == requests && requests[|requests|..] == [];
      for i := 0 to |requests|
        invariant Valid() && |hba.ram| == |old(hba.ram)|
        invariant freeCmds - SlotsFor(Counts(requests[i..])) == old(freeCmds) - SlotsFor(Counts(requests))
      {
        assert requests[i..][1..] == requests[i + 1..];
        SlotsNext(requests[i..]);
        ReadyAny(requests[i], old(hba.ram), hba.ram);
        RoundsEndIff(rounds, freeCmds, requests[i].count);
        var offset := RunRounds(requests[i], rounds);
        if offset < requests[i].count {
          return false;
        }
      }
      return true;
    }

    /** `AhciPort::read`; `steps` are the page-table frames drawn while the buffers are allocated. When no buffer
        overwrites another and the device takes every address as meant, the caller gets the bytes of the disk. */
    method Read(sector: nat, buffer: array<Byte>, falloc: Frames.KernelFrameAlloc, steps: seq<Heap.MapStep>)
      returns (bytes: Option<nat>)
      requires Valid() && buffer != hba.tables
      requires |steps| == BlocksNeeded(buffer.Length) && EnoughFrames(Frames.Usable(falloc.map_), falloc.next, steps)
      requires CeilDiv(CeilDiv(buffer.Length, 512), 128) <= freeCmds
      requires
        var request := RequestFrom(Frames.Usable(falloc.map_), falloc.next, steps, sector, buffer.Length);
        Ready(request, hba.ram) && LbaFits(request)
      modifies this, hba, hba.tables, buffer, falloc
      ensures Valid() && bytes == Some(512 * CeilDiv(buffer.Length, 512))
      ensures bytes.value % 512 == 0 && buffer.Length <= bytes.value < buffer.Length + 512
      ensures WritesOnly(old(hba.ram), hba.ram,
        RequestFrom(Frames.Usable(falloc.map_), old(falloc.next), steps, sector, buffer.Length).buffer)
      ensures falloc.next == Heap.Pos(old(falloc.next), steps, |steps|)
      ensures
        var request := RequestFrom(Frames.Usable(falloc.map_), old(falloc.next), steps, sector, buffer.Length);
        var addrs := Addrs(request.buffer);
        && issued == Extended(old(issued), request, 0, CeilDiv(request.count, 128))
        && InRam(addrs, ZeroedBy(old(hba.ram), request.buffer)) && |addrs| == 512 * CeilDiv(buffer.Length, 512)
        && buffer[..] == ReadResult(ZeroedBy(old(hba.ram), request.buffer), addrs, hba.disk, hba.addressing,
                                    sector, buffer.Length)
        && (Unclobbered(addrs, buffer.Length) && Addressable(hba.addressing, sector, request.count)
            ==> buffer[..] == DiskSlice(hba.disk, sector, buffer.Length))
    {
      hide Filled, Extended, InRam, Shaped, LbaFits, SlotLog, LogIntact, Scatter, Addrs, Gather, Unclobbered;
      hide Addressable, Blocks, Buffers, ZeroedBy, EnoughFrames, Heap.Pos, WritesOnly;
      var count := (buffer.Length + 512 - 1) / 512;
      var request, _, zeroed := NewRequest(falloc, sector, count, steps, hba.ram);
      ReadyAny(request, hba.ram, zeroed);
      hba.ram := zeroed;
      FilledAll(zeroed, request, hba.disk, hba.addressing);
      TransferWrites(old(hba.ram), request.buffer, StreamData(hba.disk, hba.addressing, sector));
      var n := RunRequest(request);
      CopyInto(request, hba.ram, buffer);
      ReadMeans(zeroed, request, hba.disk, hba.addressing, buffer.Length);
      bytes := Some(n);
    }
  }
}
