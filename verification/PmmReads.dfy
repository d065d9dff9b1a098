/** Whole reads on the blocks `pmm_alloc` hands out: when they return the bytes of the disk, and when they
    leave the rest of memory alone. */
module PmmReads {
  import opened Basics
  import opened LittleEndian
  import opened Dma
  import opened Commands
  import opened Ahci
  import opened Pmm
  import opened Heap
  import opened Frames
  import Hba

  // ----- the bytes of a read -----

  /** What a read needs of the allocator: frames in order, and enough of them for its buffers. */
  ghost predicate Supplied(frames: seq<nat>, next: nat, steps: seq<MapStep>, len: nat) {
    && Ascending(frames) && Aligned(frames)
    && |steps| == BlocksNeeded(len) && EnoughFrames(frames, next, steps)
  }

  /** The parts of the blocks that are used are memory; 32 slots hold at most 4096 sectors. */
  ghost predicate Placed(ram: seq<Byte>, frames: seq<nat>, next: nat, steps: seq<MapStep>, len: nat)
    requires Supplied(frames, next, steps, len)
  {
    && CeilDiv(len, 512) <= 0x1000
    && BlocksInRam(Blocks(frames, next, steps), CeilDiv(len, 512) * 512, |ram|)
  }

  /** The frame after block `i` is not block `i + 1`, or it is not next to block `i` in memory. */
  ghost predicate Gap(frames: seq<nat>, next: nat, steps: seq<MapStep>, i: nat)
    requires EnoughFrames(frames, next, steps) && i + 1 < |steps|
  {
    CallAt(frames, next, steps, i + 1);
    steps[i].tables > 0 || frames[Pos(next, steps, i) + 1] != frames[Pos(next, steps, i)] + 4096
  }

  ghost predicate AllGaps(frames: seq<nat>, next: nat, steps: seq<MapStep>)
    requires EnoughFrames(frames, next, steps)
  {
    forall i :: 0 <= i < |steps| - 1 ==> Gap(frames, next, steps, i)
  }

  lemma NeighbourGap(frames: seq<nat>, next: nat, steps: seq<MapStep>, i: nat)
    requires Ascending(frames) && Aligned(frames) && EnoughFrames(frames, next, steps) && i + 1 < |steps|
    ensures Blocks(frames, next, steps)[i] + 0x2000 <= Blocks(frames, next, steps)[i + 1]
      <==> Gap(frames, next, steps, i)
  {
    hide Pos, EnoughFrames, Blocks;
    CallAt(frames, next, steps, i);
    CallAt(frames, next, steps, i + 1);
    var p := Pos(next, steps, i);
    assert frames[p] + 4096 <= frames[p + 1] <= frames[p + 1 + steps[i].tables];
    assert steps[i].tables > 0 ==> frames[p + 1] + 4096 <= frames[p + 1 + steps[i].tables];
  }

  lemma ApartIff(frames: seq<nat>, next: nat, steps: seq<MapStep>)
    requires Ascending(frames) && Aligned(frames) && EnoughFrames(frames, next, steps)
    ensures Apart(Blocks(frames, next, steps), |steps|) <==> AllGaps(frames, next, steps)
  {
    hide Pos, EnoughFrames, Blocks, Gap, Ascending, Aligned;
    var blocks := Blocks(frames, next, steps);
    if Apart(blocks, |steps|) {
      forall i | 0 <= i < |steps| - 1
        ensures Gap(frames, next, steps, i)
      {
        NeighbourGap(frames, next, steps, i);
        assert blocks[i] + 0x2000 <= blocks[i + 1];
      }
    }
    if AllGaps(frames, next, steps) {
      forall i | 0 <= i < |steps| - 1
        ensures blocks[i] + 0x2000 <= blocks[i + 1]
      {
        NeighbourGap(frames, next, steps, i);
      }
    }
  }

  /** A read returns the bytes of the disk, whatever they are. */
  ghost predicate Right(ram: seq<Byte>, frames: seq<nat>, next: nat, steps: seq<MapStep>, mode: Addressing,
                        sector: nat, len: nat)
    requires Supplied(frames, next, steps, len) && Placed(ram, frames, next, steps, len)
  {
    BlocksReady(ram, Blocks(frames, next, steps), sector, len);
    var addrs := Addrs(RequestFrom(frames, next, steps, sector, len).buffer);
    |addrs| >= len && forall disk :: Faithful(ram, addrs, disk, mode, sector, len)
  }

  /** On any list of frames in order, a read is right on every disk exactly when every buffer but the last was
      followed by a page-table frame or by a hole, and every command is addressable. */
  lemma PmmReadIff(ram: seq<Byte>, frames: seq<nat>, next: nat, steps: seq<MapStep>, mode: Addressing,
                   sector: nat, len: nat)
    requires Supplied(frames, next, steps, len) && Placed(ram, frames, next, steps, len)
    ensures Right(ram, frames, next, steps, mode, sector, len)
      <==> AllGaps(frames, next, steps) && Addressable(mode, sector, CeilDiv(len, 512))
  {
    hide Faithful, Addressable, Addrs, InRam, Shaped, Ready, Apart, AllGaps, Blocks, BlocksInRam, EnoughFrames;
    var blocks := Blocks(frames, next, steps);
    BlocksAscend(frames, next, steps);
    AscendingReadIff(ram, blocks, mode, sector, len);
    ApartIff(frames, next, steps);
    assert |RequestFor(sector, len, blocks).buffer| == |steps|;
  }

  // ----- the memory around a read -----

  /** A byte of a usable frame that no page table of the read occupies. */
  ghost predicate Harmless(frames: seq<nat>, next: nat, steps: seq<MapStep>, a: nat)
    requires EnoughFrames(frames, next, steps)
  {
    FrameOf(a) in frames && FrameOf(a) !in TableFrames(frames, next, steps, |steps|)
  }

  /** A read writes usable memory only, and no page table drawn for its own buffers. It may still write frames that
      it was never given. */
  ghost predicate Contained(frames: seq<nat>, next: nat, steps: seq<MapStep>, len: nat)
    requires Supplied(frames, next, steps, len)
  {
    forall a :: Written(RequestFrom(frames, next, steps, 0, len).buffer, a) ==> Harmless(frames, next, steps, a)
  }

  /** A read writes only frames that it was given as blocks. */
  ghost predicate Owned(frames: seq<nat>, next: nat, steps: seq<MapStep>, len: nat)
    requires Supplied(frames, next, steps, len)
  {
    forall a :: Written(RequestFrom(frames, next, steps, 0, len).buffer, a) ==>
      FrameOf(a) in Blocks(frames, next, steps)
  }

  /** At most eight sectors, which take the 4 KiB order; or at most sixteen, when mapping the block drew no
      page table and the 2 MiB from the block on are usable. */
  ghost predicate SmallRead(frames: seq<nat>, next: nat, steps: seq<MapStep>, len: nat) {
    || len <= 0x1000
    || (&& |steps| == 1 && steps[0].tables == 0
        && next + 511 < |frames| && frames[next + 511] == frames[next] + 4096 * 511)
  }

  lemma DrawnTable(frames: seq<nat>, next: nat, steps: seq<MapStep>, i: nat)
    requires EnoughFrames(frames, next, steps) && i < |steps| && steps[i].tables > 0
    ensures Pos(next, steps, i) + 1 < |frames|
    ensures frames[Pos(next, steps, i) + 1] in TableFrames(frames, next, steps, |steps|)
  {
    CallAt(frames, next, steps, i);
    TableFramesHold(frames, next, steps, |steps|, i);
  }

  lemma {:induction false} TableFramesHold(frames: seq<nat>, next: nat, steps: seq<MapStep>, k: nat, i: nat)
    requires i < k <= |steps| && Pos(next, steps, k) <= |frames| && steps[i].tables > 0
    ensures Pos(next, steps, i) + 1 < |frames|
    ensures frames[Pos(next, steps, i) + 1] in TableFrames(frames, next, steps, k)
  {
    hide Pos;
    PosNext(next, steps, k - 1);
    PosAscends(next, steps, i, k - 1);
    if i == k - 1 {
      assert frames[Pos(next, steps, k - 1) + 1..Pos(next, steps, k)][0] == frames[Pos(next, steps, i) + 1];
    } else {
      TableFramesHold(frames, next, steps, k - 1, i);
    }
  }

  /** In order, the frame next to another in memory is next to it in the list. */
  lemma NextInList(frames: seq<nat>, p: nat)
    requires Ascending(frames) && Aligned(frames) && p < |frames| && frames[p] + 4096 in frames
    ensures p + 1 < |frames| && frames[p + 1] == frames[p] + 4096
  {
    var q :| 0 <= q < |frames| && frames[q] == frames[p] + 4096;
    assert p < q;
    assert frames[p] < frames[p + 1] <= frames[q];
  }

  /** The stream of a read passes through both pages of every full buffer. */
  lemma SecondPageWritten(frames: seq<nat>, next: nat, steps: seq<MapStep>, len: nat, i: nat)
    requires Supplied(frames, next, steps, len)
    requires i < |steps| && 0x2000 * i + 4096 < CeilDiv(len, 512) * 512
    ensures Blocks(frames, next, steps)[i] + 4096 in Addrs(RequestFrom(frames, next, steps, 0, len).buffer)
  {
    hide EnoughFrames, Blocks, Ascending, Aligned;
    var blocks, size := Blocks(frames, next, steps), CeilDiv(len, 512) * 512;
    BuffersShaped(blocks, size);
    AddrsAt(Buffers(blocks, size), size);
    var k := 0x2000 * i + 4096;
    assert k / 0x2000 == i && k % 0x2000 == 4096;
    assert Addrs(Buffers(blocks, size))[k] == blocks[i] + 4096;
  }

  /** What the second page of a full buffer is: no usable memory, or a page table, or the next block. */
  lemma SecondPage(frames: seq<nat>, next: nat, steps: seq<MapStep>, i: nat)
    requires Ascending(frames) && Aligned(frames) && EnoughFrames(frames, next, steps) && i + 1 < |steps|
    ensures
      var page := Blocks(frames, next, steps)[i] + 4096;
      || page !in frames
      || page in TableFrames(frames, next, steps, |steps|)
      || !Gap(frames, next, steps, i)
  {
    hide Pos, EnoughFrames, Blocks, TableFrames, Ascending, Aligned;
    CallAt(frames, next, steps, i);
    CallAt(frames, next, steps, i + 1);
    if frames[Pos(next, steps, i)] + 4096 in frames {
      NextInList(frames, Pos(next, steps, i));
      if steps[i].tables > 0 {
        DrawnTable(frames, next, steps, i);
      }
    }
  }

  /** A read of more than sixteen sectors is wrong on some disk, or the device stores into a page table of the
      read or into memory that is not usable. */
  lemma LongReadsHarm(ram: seq<Byte>, frames: seq<nat>, next: nat, steps: seq<MapStep>, mode: Addressing,
                      sector: nat, len: nat)
    requires Supplied(frames, next, steps, len) && Placed(ram, frames, next, steps, len) && len > 0x2000
    ensures
      || !Right(ram, frames, next, steps, mode, sector, len)
      || exists a :: a in Addrs(RequestFrom(frames, next, steps, 0, len).buffer) && !Harmless(frames, next, steps, a)
  {
    hide Right, Addressable, Addrs, Blocks, Placed, TableFrames, Ascending, EnoughFrames, Gap;
    assert |steps| >= 2;
    PmmReadIff(ram, frames, next, steps, mode, sector, len);
    SecondPage(frames, next, steps, 0);
    SecondPageWritten(frames, next, steps, len, 0);
    var page := Blocks(frames, next, steps)[0] + 4096;
    CallAt(frames, next, steps, 0);
    assert FrameOf(page) == page;
    assert AllGaps(frames, next, steps) ==> Gap(frames, next, steps, 0);
  }

  lemma {:induction false} Run2MiB(frames: seq<nat>, next: nat, k: nat)
    requires Ascending(frames) && Aligned(frames) && next < |frames|
    requires forall j: nat :: j <= k ==> PageFrom(frames, next, j) in frames
    ensures next + k < |frames| && frames[next + k] == PageFrom(frames, next, k)
  {
    if k > 0 {
      Run2MiB(frames, next, k - 1);
      assert PageFrom(frames, next, k) in frames;
      NextInList(frames, next + k - 1);
    }
  }

  function PageFrom(frames: seq<nat>, next: nat, j: nat): nat
    requires next < |frames|
  {
    frames[next] + 4096 * j
  }

  /** Frames in order that span no more than their number leave no hole. */
  lemma {:induction false} NoHoleBetween(frames: seq<nat>, next: nat, n: nat, k: nat)
    requires Ascending(frames) && Aligned(frames) && k <= n && next + n < |frames|
    requires frames[next + n] == frames[next] + 4096 * n
    ensures frames[next + k] == frames[next] + 4096 * k
  {
    AtLeast(frames, next, k);
    AtLeast(frames, next + k, n - k);
  }

  lemma {:induction false} AtLeast(frames: seq<nat>, next: nat, k: nat)
    requires Ascending(frames) && Aligned(frames) && next + k < |frames|
    ensures frames[next + k] >= frames[next] + 4096 * k
  {
    if k > 0 {
      AtLeast(frames, next, k - 1);
      PageApart(frames[next + k - 1], frames[next + k]);
    }
  }

  /** The written bytes of a single buffer: all that was cleared. */
  lemma OneBufferWritten(b: DmaBuffer, a: nat)
    requires b.dataSize <= 0x2000
    ensures Written([b], a) <==> Cleared(b, a)
  {
    assert Addrs([b]) == Dma.Span(b.start, b.dataSize) + [];
    assert a in Addrs([b]) ==> Cleared(b, a);
    assert Cleared([b][0], a) ==> Written([b], a);
  }

  lemma NothingWritten()
    ensures forall a :: !Written([], a)
  {
  }

  /** The tables of a read with one buffer are the frames right after its block. */
  lemma OneBufferTables(frames: seq<nat>, next: nat, steps: seq<MapStep>)
    requires Ascending(frames) && EnoughFrames(frames, next, steps) && |steps| == 1
    ensures next < |frames| && frames[next] !in TableFrames(frames, next, steps, 1)
    ensures steps[0].tables == 0 ==> TableFrames(frames, next, steps, 1) == []
    ensures steps[0].tables > 0 ==>
      next + 1 < |frames| && frames[next + 1] in TableFrames(frames, next, steps, 1)
  {
    assert TableFrames(frames, next, steps, 1) == frames[next + 1..next + 1 + steps[0].tables];
  }

  /** The one buffer of a read of at most sixteen sectors. */
  lemma OneBuffer(frames: seq<nat>, next: nat, steps: seq<MapStep>, len: nat)
    requires Supplied(frames, next, steps, len) && 0 < len <= 0x2000
    ensures |steps| == 1 && next < |frames|
    ensures
      var bufs := RequestFrom(frames, next, steps, 0, len).buffer;
      |bufs| == 1 && bufs == [DmaBuffer(frames[next], CeilDiv(len, 512) * 512)]
  {
    CallAt(frames, next, steps, 0);
  }

  /** A read of at most eight sectors writes the frame of its block and no other. */
  lemma ShortWrites(frames: seq<nat>, next: nat, steps: seq<MapStep>, len: nat, a: nat)
    requires Supplied(frames, next, steps, len) && len <= 0x1000
    requires Written(RequestFrom(frames, next, steps, 0, len).buffer, a)
    ensures |steps| == 1 && next < |frames| && FrameOf(a) == frames[next] == Blocks(frames, next, steps)[0]
  {
    hide EnoughFrames, Addrs, Blocks, Ascending, Aligned, Written;
    if len == 0 {
      assert RequestFrom(frames, next, steps, 0, len).buffer == [];
      NothingWritten();
    }
    OneBuffer(frames, next, steps, len);
    CallAt(frames, next, steps, 0);
    OneBufferWritten(DmaBuffer(frames[next], CeilDiv(len, 512) * 512), a);
    PageOffset(frames, next, a);
  }

  lemma ShortContained(frames: seq<nat>, next: nat, steps: seq<MapStep>, len: nat)
    requires Supplied(frames, next, steps, len) && len <= 0x1000
    ensures Contained(frames, next, steps, len) && Owned(frames, next, steps, len)
  {
    hide EnoughFrames, TableFrames, Blocks, Ascending, Aligned, Written;
    forall a: nat | Written(RequestFrom(frames, next, steps, 0, len).buffer, a)
      ensures Harmless(frames, next, steps, a) && FrameOf(a) in Blocks(frames, next, steps)
    {
      ShortWrites(frames, next, steps, len, a);
      OneBufferTables(frames, next, steps);
    }
  }

  lemma SixteenContained(frames: seq<nat>, next: nat, steps: seq<MapStep>, len: nat)
    requires Supplied(frames, next, steps, len) && 0x1000 < len <= 0x2000
    ensures Contained(frames, next, steps, len) <==> SmallRead(frames, next, steps, len)
  {
    hide EnoughFrames, Addrs, TableFrames, Blocks, Ascending, Aligned, Written;
    OneBuffer(frames, next, steps, len);
    OneBufferTables(frames, next, steps);
    var b := DmaBuffer(frames[next], CeilDiv(len, 512) * 512);
    if Contained(frames, next, steps, len) {
      forall j: nat | j <= 511
        ensures PageFrom(frames, next, j) in frames && Harmless(frames, next, steps, PageFrom(frames, next, j))
      {
        OneBufferWritten(b, PageFrom(frames, next, j));
        PageFrame(frames, next, j);
      }
      Run2MiB(frames, next, 511);
      Run2MiB(frames, next, 1);
      PageFrame(frames, next, 1);
      assert Harmless(frames, next, steps, PageFrom(frames, next, 1));
    }
    if SmallRead(frames, next, steps, len) {
      forall a: nat | Written([b], a)
        ensures Harmless(frames, next, steps, a)
      {
        OneBufferWritten(b, a);
        var k := (a - b.start) / 4096;
        NoHoleBetween(frames, next, 511, k);
        PageOffset(frames, next, a);
      }
    }
  }

  lemma PageFrame(frames: seq<nat>, next: nat, j: nat)
    requires Aligned(frames) && next < |frames|
    ensures FrameOf(PageFrom(frames, next, j)) == PageFrom(frames, next, j)
  {
  }

  lemma PageOffset(frames: seq<nat>, next: nat, a: nat)
    requires Aligned(frames) && next < |frames| && frames[next] <= a
    ensures FrameOf(a) == frames[next] + 4096 * ((a - frames[next]) / 4096)
  {
  }

  /** A read is right on every disk, and writes only usable memory and no page table of its own, exactly when it is
      small and addressable. */
  lemma ContainedIff(ram: seq<Byte>, frames: seq<nat>, next: nat, steps: seq<MapStep>, mode: Addressing,
                     sector: nat, len: nat)
    requires Supplied(frames, next, steps, len) && Placed(ram, frames, next, steps, len)
    ensures Right(ram, frames, next, steps, mode, sector, len) && Contained(frames, next, steps, len)
      <==> SmallRead(frames, next, steps, len) && Addressable(mode, sector, CeilDiv(len, 512))
  {
    hide Right, Addressable, Blocks, Placed, Ascending, Aligned, EnoughFrames, Harmless;
    if len > 0x2000 {
      LongReadsHarm(ram, frames, next, steps, mode, sector, len);
      assert |steps| >= 2;
    } else {
      assert |steps| <= 1;
      PmmReadIff(ram, frames, next, steps, mode, sector, len);
      if len <= 0x1000 {
        ShortContained(frames, next, steps, len);
      } else {
        SixteenContained(frames, next, steps, len);
      }
    }
  }

  // ----- frames a read was never given -----

  /** With its blocks apart, the second page of the first buffer is no block of the read. */
  lemma SecondPageForeign(frames: seq<nat>, next: nat, steps: seq<MapStep>)
    requires Ascending(frames) && Aligned(frames) && EnoughFrames(frames, next, steps)
    requires steps != [] && AllGaps(frames, next, steps)
    ensures Blocks(frames, next, steps)[0] + 4096 !in Blocks(frames, next, steps)
  {
    hide EnoughFrames, Blocks, Aligned, Gap;
    var blocks := Blocks(frames, next, steps);
    BlocksAscend(frames, next, steps);
    if |steps| > 1 {
      assert Gap(frames, next, steps, 0);
      NeighbourGap(frames, next, steps, 0);
    }
    forall j | 0 <= j < |blocks|
      ensures blocks[j] != blocks[0] + 4096
    {
      assert j > 1 ==> blocks[1] < blocks[j];
    }
  }

  lemma LongNotOwned(frames: seq<nat>, next: nat, steps: seq<MapStep>, len: nat)
    requires Supplied(frames, next, steps, len) && len > 0x1000 && AllGaps(frames, next, steps)
    ensures !Owned(frames, next, steps, len)
  {
    hide EnoughFrames, Blocks, Ascending, Addrs, AllGaps;
    SecondPageForeign(frames, next, steps);
    SecondPageWritten(frames, next, steps, len, 0);
    CallAt(frames, next, steps, 0);
    var page := Blocks(frames, next, steps)[0] + 4096;
    assert FrameOf(page) == page;
    assert Written(RequestFrom(frames, next, steps, 0, len).buffer, page);
  }

  /** A read is right on every disk and keeps to the memory it was given exactly when it has at most eight sectors
      and is addressable. */
  lemma OwnedIff(ram: seq<Byte>, frames: seq<nat>, next: nat, steps: seq<MapStep>, mode: Addressing,
                 sector: nat, len: nat)
    requires Supplied(frames, next, steps, len) && Placed(ram, frames, next, steps, len)
    ensures Right(ram, frames, next, steps, mode, sector, len) && Owned(frames, next, steps, len)
      <==> len <= 0x1000 && Addressable(mode, sector, CeilDiv(len, 512))
  {
    hide Right, Addressable, Placed, Ascending, Aligned, EnoughFrames, Owned, Contained;
    PmmReadIff(ram, frames, next, steps, mode, sector, len);
    if len <= 0x1000 {
      assert |steps| <= 1;
      ShortContained(frames, next, steps, len);
    } else if AllGaps(frames, next, steps) {
      LongNotOwned(frames, next, steps, len);
    }
  }

  ghost predicate StoredInto(bufs: seq<DmaBuffer>, frame: nat) {
    exists a :: a in Addrs(bufs) && FrameOf(a) == frame
  }

  /** The last buffer has a second page, and the frame after its block is that page and was not drawn as a page
      table. */
  ghost predicate SpillsOver(frames: seq<nat>, next: nat, steps: seq<MapStep>, len: nat)
    requires Supplied(frames, next, steps, len) && steps != []
  {
    var n := |steps| - 1;
    && CeilDiv(len, 512) * 512 > 0x2000 * n + 4096 && steps[n].tables == 0
    && Blocks(frames, next, steps)[n] + 4096 in frames
  }

  /** What a byte of the stream can mean for the frame under the cursor after the read. */
  lemma StreamBelow(frames: seq<nat>, next: nat, steps: seq<MapStep>, len: nat, k: nat)
    requires Supplied(frames, next, steps, len) && Pos(next, steps, |steps|) < |frames| && k < CeilDiv(len, 512) * 512
    ensures k / 0x2000 < |steps|
    ensures
      var a := Blocks(frames, next, steps)[k / 0x2000] + k % 0x2000;
      FrameOf(a) == frames[Pos(next, steps, |steps|)] ==> SpillsOver(frames, next, steps, len)
  {
    hide EnoughFrames, Blocks, Ascending, Aligned, Pos;
    var i, after := k / 0x2000, Pos(next, steps, |steps|);
    CallAt(frames, next, steps, i);
    PosAscends(next, steps, i + 1, |steps|);
    var p := Pos(next, steps, i);
    PageOffset(frames, p, frames[p] + k % 0x2000);
    InOrder(frames, p, after);
    if frames[after] == frames[p] + 4096 {
      NextInList(frames, p);
      InOrder(frames, p + 1, after);
    }
  }

  lemma InOrder(frames: seq<nat>, p: nat, q: nat)
    requires Ascending(frames) && p <= q < |frames|
    ensures p == q || frames[p] < frames[q]
  {
  }

  /** The device stores into the frame that the allocator hands to the next caller exactly when the last buffer spills
      over into it. */
  lemma NextCallerIff(frames: seq<nat>, next: nat, steps: seq<MapStep>, len: nat)
    requires Supplied(frames, next, steps, len) && steps != [] && Pos(next, steps, |steps|) < |frames|
    ensures
      var given := frames[Pos(next, steps, |steps|)];
      && Alloc(frames, Pos(next, steps, |steps|), One).0 == Some(FrameRange(given, given))
      && (StoredInto(RequestFrom(frames, next, steps, 0, len).buffer, given) <==> SpillsOver(frames, next, steps, len))
  {
    hide EnoughFrames, Blocks, Ascending, Aligned, Pos, Addrs, SpillsOver;
    var blocks, size := Blocks(frames, next, steps), CeilDiv(len, 512) * 512;
    var addrs, given := Addrs(Buffers(blocks, size)), frames[Pos(next, steps, |steps|)];
    BuffersShaped(blocks, size);
    AddrsAt(Buffers(blocks, size), size);
    forall k | 0 <= k < size
      ensures FrameOf(addrs[k]) == given ==> SpillsOver(frames, next, steps, len)
    {
      StreamBelow(frames, next, steps, len, k);
    }
    if SpillsOver(frames, next, steps, len) {
      Spilled(frames, next, steps, len);
    }
  }

  lemma Spilled(frames: seq<nat>, next: nat, steps: seq<MapStep>, len: nat)
    requires Supplied(frames, next, steps, len) && steps != [] && Pos(next, steps, |steps|) < |frames|
    requires SpillsOver(frames, next, steps, len)
    ensures StoredInto(RequestFrom(frames, next, steps, 0, len).buffer, frames[Pos(next, steps, |steps|)])
  {
    hide EnoughFrames, Blocks, Ascending, Pos, Addrs;
    var n := |steps| - 1;
    SecondPageWritten(frames, next, steps, len, n);
    CallAt(frames, next, steps, n);
    NextInList(frames, Pos(next, steps, n));
    assert FrameOf(frames[Pos(next, steps, n + 1)]) == frames[Pos(next, steps, n + 1)];
  }

  // ----- the command tables -----

  /** `start` takes the block of the command tables from `pmm_alloc` as well: the tables of slots 0 to 15 lie in the
      frame it was given, those of slots 16 to 31 in the page after it. */
  lemma TablePages(block: nat, slot: nat, j: nat)
    requires block % 4096 == 0 && slot < 32 && j < 256
    ensures FrameOf(block + Hba.Table(slot) + j) == if slot < 16 then block else block + 4096
  {
  }

  /** When that page is usable memory, the tables of slots 16 to 31 share it with a page table drawn by `start`
      itself or, if it drew none, with the first buffer of the read that comes next. */
  lemma TablesShared(frames: seq<nat>, next: nat, start: MapStep, steps: seq<MapStep>, len: nat)
    requires EnoughFrames(frames, next, [start]) && next < |frames| && frames[next] + 4096 in frames
    requires Supplied(frames, next + 1 + start.tables, steps, len) && steps != []
    ensures
      var upper := frames[next] + 4096;
      if start.tables > 0 then upper in TableFrames(frames, next, [start], 1)
      else
        && upper == Blocks(frames, next + 1, steps)[0]
        && upper in Addrs(RequestFrom(frames, next + 1, steps, 0, len).buffer)
  {
    hide Addrs, Ascending, Aligned, TableFrames;
    CallAt(frames, next + 1 + start.tables, steps, 0);
    NextInList(frames, next);
    if start.tables > 0 {
      DrawnTable(frames, next, [start], 0);
    } else {
      FirstByteWritten(frames, next + 1, steps, len);
    }
  }

  lemma FirstByteWritten(frames: seq<nat>, next: nat, steps: seq<MapStep>, len: nat)
    requires Supplied(frames, next, steps, len) && steps != []
    ensures Blocks(frames, next, steps)[0] in Addrs(RequestFrom(frames, next, steps, 0, len).buffer)
  {
    hide EnoughFrames, Blocks, Ascending, Aligned;
    var blocks, size := Blocks(frames, next, steps), CeilDiv(len, 512) * 512;
    BuffersShaped(blocks, size);
    AddrsAt(Buffers(blocks, size), size);
    assert Addrs(Buffers(blocks, size))[0] == blocks[0];
  }

  // ----- every memory map, and one region -----

  /** The three conditions, for the frames of any memory map the boot loader may hand over, holes included. */
  lemma MapReads(ram: seq<Byte>, map_: seq<Region>, next: nat, steps: seq<MapStep>, mode: Addressing,
                 sector: nat, len: nat)
    requires WellFormed(map_) && |steps| == BlocksNeeded(len) && EnoughFrames(Usable(map_), next, steps)
    ensures Supplied(Usable(map_), next, steps, len)
    ensures Placed(ram, Usable(map_), next, steps, len) ==>
      && (Right(ram, Usable(map_), next, steps, mode, sector, len)
          <==> AllGaps(Usable(map_), next, steps) && Addressable(mode, sector, CeilDiv(len, 512)))
      && (Right(ram, Usable(map_), next, steps, mode, sector, len) && Owned(Usable(map_), next, steps, len)
          <==> len <= 0x1000 && Addressable(mode, sector, CeilDiv(len, 512)))
      && (Right(ram, Usable(map_), next, steps, mode, sector, len) && Contained(Usable(map_), next, steps, len)
          <==> SmallRead(Usable(map_), next, steps, len) && Addressable(mode, sector, CeilDiv(len, 512)))
  {
    hide Right, Contained, Owned, AllGaps, SmallRead, Placed, Addressable, EnoughFrames, Usable, WellFormed;
    FloorZero(map_);
    if Placed(ram, Usable(map_), next, steps, len) {
      PmmReadIff(ram, Usable(map_), next, steps, mode, sector, len);
      OwnedIff(ram, Usable(map_), next, steps, mode, sector, len);
      ContainedIff(ram, Usable(map_), next, steps, mode, sector, len);
    }
  }

  lemma FloorZero(map_: seq<Region>)
    requires WellFormed(map_)
    ensures Ascending(Usable(map_)) && Aligned(Usable(map_))
  {
    UsableAscending(map_, 0);
  }

  ghost predicate Contiguous(frames: seq<nat>) {
    forall i, j :: 0 <= i <= j < |frames| ==> frames[j] == frames[i] + 4096 * (j - i)
  }

  /** All buffers but the last drew page-table frames. */
  ghost predicate TablesDrawn(steps: seq<MapStep>) {
    forall i :: 0 <= i < |steps| - 1 ==> steps[i].tables > 0
  }

  /** In one contiguous region a read returns the right bytes exactly when every buffer but the last drew a
      page-table frame, and every command is addressable; but then the frame it drew is the second page of its
      own buffer, so the device stores into a page table. */
  lemma ContiguousReadIff(ram: seq<Byte>, frames: seq<nat>, next: nat, steps: seq<MapStep>, mode: Addressing,
                          sector: nat, len: nat)
    requires Contiguous(frames)
    requires Supplied(frames, next, steps, len) && Placed(ram, frames, next, steps, len)
    ensures Right(ram, frames, next, steps, mode, sector, len)
      <==> TablesDrawn(steps) && Addressable(mode, sector, CeilDiv(len, 512))
    ensures Right(ram, frames, next, steps, mode, sector, len) ==>
      forall i :: 0 <= i < |steps| - 1 ==> TableOverwritten(frames, next, steps, len, i)
  {
    hide Right, Addressable, Blocks, Placed, Ascending, Aligned, EnoughFrames, Gap, Contiguous, TableOverwritten;
    PmmReadIff(ram, frames, next, steps, mode, sector, len);
    forall i | 0 <= i < |steps| - 1
      ensures Gap(frames, next, steps, i) <==> steps[i].tables > 0
      ensures steps[i].tables > 0 ==> TableOverwritten(frames, next, steps, len, i)
    {
      ContiguousGap(frames, next, steps, i);
      if steps[i].tables > 0 {
        ContiguousOverwrites(frames, next, steps, len, i);
      }
    }
  }

  /** The device stores into the second page of buffer `i`, and that page holds a page table. */
  ghost predicate TableOverwritten(frames: seq<nat>, next: nat, steps: seq<MapStep>, len: nat, i: nat)
    requires Supplied(frames, next, steps, len) && i < |steps|
  {
    var page := Blocks(frames, next, steps)[i] + 4096;
    && page in Addrs(RequestFrom(frames, next, steps, 0, len).buffer)
    && page in TableFrames(frames, next, steps, |steps|)
  }

  lemma ContiguousOverwrites(frames: seq<nat>, next: nat, steps: seq<MapStep>, len: nat, i: nat)
    requires Contiguous(frames) && Supplied(frames, next, steps, len)
    requires i + 1 < |steps| && steps[i].tables > 0
    ensures TableOverwritten(frames, next, steps, len, i)
  {
    hide Addrs, Blocks, TableFrames, Ascending, Aligned, Gap, Contiguous;
    ContiguousGap(frames, next, steps, i);
    SecondPageWritten(frames, next, steps, len, i);
    DrawnTable(frames, next, steps, i);
  }

  lemma ContiguousGap(frames: seq<nat>, next: nat, steps: seq<MapStep>, i: nat)
    requires Contiguous(frames) && EnoughFrames(frames, next, steps) && i + 1 < |steps|
    ensures Gap(frames, next, steps, i) <==> steps[i].tables > 0
    ensures Pos(next, steps, i) + 1 < |frames|
    ensures frames[Pos(next, steps, i) + 1] == Blocks(frames, next, steps)[i] + 4096
  {
    hide Pos, EnoughFrames;
    CallAt(frames, next, steps, i);
    CallAt(frames, next, steps, i + 1);
  }
}
