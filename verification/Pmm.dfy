/** Where the DMA buffers come from: `pmm_alloc` takes a single frame whatever size is asked for, mapping it
    draws page-table frames from the same allocator, and then the block is cleared. */
module Pmm {
  import opened Basics
  import opened LittleEndian
  import opened Dma
  import opened Heap
  import Frames

  datatype BuddyOrdering = Size4KiB | Size8KiB

  /** The bytes `pmm_alloc` clears: the order is an index into the table of buddy sizes, and the entry
      of the 8 KiB order is that of a 2 MiB page. */
  function FillBytes(order: BuddyOrdering): nat {
    match order
    case Size4KiB => 0x1000
    case Size8KiB => 0x20_0000
  }

  /** The order of a buffer; all that is left of a request decides it. */
  function OrderFor(size: nat): BuddyOrdering {
    if size > 0x1000 then Size8KiB else Size4KiB
  }

  /** Every buffer lies within the pages that were mapped for it: two for the 8 KiB order, which is asked for exactly
      when one is too small. */
  ghost predicate Mapped(bufs: seq<DmaBuffer>, orders: seq<BuddyOrdering>) {
    |orders| == |bufs| && forall i :: 0 <= i < |bufs| ==> MappedFor(bufs[i], orders[i])
  }

  predicate MappedFor(b: DmaBuffer, order: BuddyOrdering) {
    if order == Size8KiB then 0x1000 < b.dataSize <= 0x2000 else 0 < b.dataSize <= 0x1000
  }

  function ZeroFill(ram: seq<Byte>, start: nat, n: nat): (r: seq<Byte>)
    ensures |r| == |ram|
  {
    seq(|ram|, i requires 0 <= i < |ram| => if start <= i < start + n then 0 else ram[i])
  }

  /** Memory once all buffers of a list were allocated, in order. */
  function ZeroedBy(ram: seq<Byte>, bufs: seq<DmaBuffer>): (r: seq<Byte>)
    ensures |r| == |ram|
  {
    if bufs == [] then ram
    else
      var n := |bufs| - 1;
      ZeroFill(ZeroedBy(ram, bufs[..n]), bufs[n].start, FillBytes(OrderFor(bufs[n].dataSize)))
  }

  ghost predicate Cleared(b: DmaBuffer, a: nat) {
    b.start <= a < b.start + FillBytes(OrderFor(b.dataSize))
  }

  ghost predicate ClearedBy(bufs: seq<DmaBuffer>, a: nat) {
    exists i :: 0 <= i < |bufs| && Cleared(bufs[i], a)
  }

  /** The bytes a read writes: the device stores into the buffers, and `pmm_alloc` cleared them before. */
  ghost predicate Written(bufs: seq<DmaBuffer>, a: nat) {
    a in Addrs(bufs) || ClearedBy(bufs, a)
  }

  /** Allocating buffers clears their fill ranges and nothing else. */
  lemma {:induction false} ZeroedAt(ram: seq<Byte>, bufs: seq<DmaBuffer>, a: nat)
    requires a < |ram|
    ensures ZeroedBy(ram, bufs)[a] == if ClearedBy(bufs, a) then 0 else ram[a]
  {
    if bufs != [] {
      var n := |bufs| - 1;
      ZeroedAt(ram, bufs[..n], a);
      ClearedSplit(bufs, a);
    }
  }

  lemma ClearedSplit(bufs: seq<DmaBuffer>, a: nat)
    requires bufs != []
    ensures var n := |bufs| - 1;
      ClearedBy(bufs, a) <==> ClearedBy(bufs[..n], a) || Cleared(bufs[n], a)
  {
    var n := |bufs| - 1;
    if ClearedBy(bufs[..n], a) {
      var i :| 0 <= i < n && Cleared(bufs[..n][i], a);
      assert Cleared(bufs[i], a);
    }
    if ClearedBy(bufs, a) && !Cleared(bufs[n], a) {
      var i :| 0 <= i < |bufs| && Cleared(bufs[i], a);
      assert Cleared(bufs[..n][i], a);
    }
  }

  /** Memory before and after a read: a byte that is not written stays, and one that was cleared and that the device
      did not store to is zero. */
  ghost predicate WritesOnly(before: seq<Byte>, after: seq<Byte>, bufs: seq<DmaBuffer>) {
    && |after| == |before|
    && (forall a :: 0 <= a < |before| && !Written(bufs, a) ==> after[a] == before[a])
    && (forall a :: 0 <= a < |before| && a !in Addrs(bufs) && ClearedBy(bufs, a) ==> after[a] == 0)
  }

  lemma TransferWrites(before: seq<Byte>, bufs: seq<DmaBuffer>, data: nat -> Byte)
    requires InRam(Addrs(bufs), ZeroedBy(before, bufs))
    ensures WritesOnly(before, Scatter(ZeroedBy(before, bufs), Addrs(bufs), data, 0), bufs)
  {
    hide Addrs, ZeroedBy, Scatter, ClearedBy;
    var zeroed := ZeroedBy(before, bufs);
    forall a: nat | a < |before| && a !in Addrs(bufs)
      ensures Scatter(zeroed, Addrs(bufs), data, 0)[a] == if ClearedBy(bufs, a) then 0 else before[a]
    {
      ZeroedAt(before, bufs, a);
      ScatterFrame(zeroed, Addrs(bufs), data, 0, a);
    }
  }

  /** All calls a list of steps stands for find their frames. */
  predicate EnoughFrames(frames: seq<nat>, next: nat, steps: seq<MapStep>) {
    |steps| > 0 ==> Pos(next, steps, |steps|) <= |frames|
  }

  /** The blocks successive `pmm_alloc` calls return from a cursor on; `steps` says how many page-table
      frames each call draws. */
  function Blocks(frames: seq<nat>, next: nat, steps: seq<MapStep>): (r: seq<nat>)
    requires EnoughFrames(frames, next, steps)
    ensures |r| == |steps|
  {
    seq(|steps|, i requires 0 <= i < |steps| => PosAscends(next, steps, i, |steps|); frames[Pos(next, steps, i)])
  }

  lemma BlocksAscend(frames: seq<nat>, next: nat, steps: seq<MapStep>)
    requires Ascending(frames) && EnoughFrames(frames, next, steps)
    ensures Ascending(Blocks(frames, next, steps))
  {
    forall i, j | 0 <= i < j < |steps|
      ensures Blocks(frames, next, steps)[i] < Blocks(frames, next, steps)[j]
    {
      PosAscends(next, steps, i, j);
      PosAscends(next, steps, j, |steps|);
    }
  }

  /** `pmm_alloc`; running out of frames panics. */
  method PmmAlloc(falloc: Frames.KernelFrameAlloc, order: BuddyOrdering, tables: nat, ram: seq<Byte>)
    returns (block: nat, zeroed: seq<Byte>)
    requires falloc.next + tables < |Frames.Usable(falloc.map_)|
    modifies falloc
    ensures block == Frames.Usable(falloc.map_)[old(falloc.next)]
    ensures falloc.next == old(falloc.next) + 1 + tables
    ensures zeroed == ZeroFill(ram, block, FillBytes(order))
    ensures forall i :: 0 <= i < |ram| ==>
      var size := if order == Size8KiB then 0x20_0000 else 0x1000;
      zeroed[i] == if block <= i < block + size then 0 else ram[i]
  {
    var frame := falloc.AllocateFrame();
    block := frame.value;
    for i := 0 to tables
      invariant falloc.next == old(falloc.next) + 1 + i
    {
      var _ := falloc.AllocateFrame();
    }
    zeroed := ZeroFill(ram, block, FillBytes(order));
  }

  /** What the next call finds and leaves. */
  lemma CallAt(frames: seq<nat>, next: nat, steps: seq<MapStep>, i: nat)
    requires EnoughFrames(frames, next, steps) && i < |steps|
    ensures Pos(next, steps, i) + steps[i].tables < |frames|
    ensures Pos(next, steps, i + 1) == Pos(next, steps, i) + 1 + steps[i].tables
    ensures Blocks(frames, next, steps)[i] == frames[Pos(next, steps, i)]
  {
    PosAscends(next, steps, i + 1, |steps|);
  }

  /** `DmaRequest::new`, calling `pmm_alloc` for every buffer; `steps` are the page-table draws of the calls. */
  method NewRequest(falloc: Frames.KernelFrameAlloc, sector: nat, count: nat, steps: seq<MapStep>, ram: seq<Byte>)
    returns (request: DmaRequest, orders: seq<BuddyOrdering>, zeroed: seq<Byte>)
    requires |steps| == CeilDiv(count * 512, 0x2000)
    requires EnoughFrames(Frames.Usable(falloc.map_), falloc.next, steps)
    modifies falloc
    ensures request == DmaRequest(sector, count,
      Buffers(Blocks(Frames.Usable(falloc.map_), old(falloc.next), steps), count * 512))
    ensures falloc.next == Pos(old(falloc.next), steps, |steps|)
    ensures zeroed == ZeroedBy(ram, request.buffer)
    ensures Mapped(request.buffer, orders)
  {
    hide Pos, Blocks, ZeroFill, EnoughFrames, Mapped, ZeroedBy;
    ghost var frames, start := Frames.Usable(falloc.map_), falloc.next;
    ghost var blocks := Blocks(frames, start, steps);
    ghost var all := Buffers(blocks, count * 512);
    var size := count * 512;
    var buffer: seq<DmaBuffer> := [];
    orders, zeroed := [], ram;
    PosNone(start, steps);
    NoBuffers(ram);
    while size > 0
      invariant 0 <= size <= count * 512 && |buffer| <= |all|
      invariant size > 0 ==> size == count * 512 - 0x2000 * |buffer| && |buffer| < |all|
      invariant size == 0 ==> |buffer| == |all|
      invariant buffer == all[..|buffer|] && zeroed == ZeroedBy(ram, buffer)
      invariant falloc.next == Pos(start, steps, |buffer|)
      invariant Mapped(buffer, orders)
    {
      ghost var i := |buffer|;
      CallAt(frames, start, steps, i);
      var dataSize := Min(size, 0x2000);
      var ordering := if size > 0x1000 then Size8KiB else Size4KiB;
      assert ordering == OrderFor(dataSize) && all[i] == DmaBuffer(blocks[i], dataSize);
      var block, cleared := PmmAlloc(falloc, ordering, steps[|buffer|].tables, zeroed);
      ZeroedNext(ram, buffer, DmaBuffer(block, dataSize));
      MappedNext(buffer, orders, DmaBuffer(block, dataSize), ordering);
      assert all[..i] + [all[i]] == all[..i + 1];
      buffer, zeroed := buffer + [DmaBuffer(block, dataSize)], cleared;
      orders := orders + [ordering];
      size := size - dataSize;
    }
    assert all[..|all|] == all;
    request := DmaRequest(sector, count, buffer);
  }

  lemma NoBuffers(ram: seq<Byte>)
    ensures ZeroedBy(ram, []) == ram && Mapped([], [])
  {
  }

  lemma MappedNext(bufs: seq<DmaBuffer>, orders: seq<BuddyOrdering>, b: DmaBuffer, order: BuddyOrdering)
    requires Mapped(bufs, orders) && MappedFor(b, order)
    ensures Mapped(bufs + [b], orders + [order])
  {
  }

  lemma ZeroedNext(ram: seq<Byte>, bufs: seq<DmaBuffer>, b: DmaBuffer)
    ensures ZeroedBy(ram, bufs + [b]) == ZeroFill(ZeroedBy(ram, bufs), b.start, FillBytes(OrderFor(b.dataSize)))
  {
    assert (bufs + [b])[..|bufs|] == bufs;
  }
}
