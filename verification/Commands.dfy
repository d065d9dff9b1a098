/** How a request becomes ATA commands, which sectors a device returns for them,
    and when the bytes handed to the caller are the bytes of the disk. */
module Commands {
  import opened Basics
  import opened LittleEndian
  import opened Dma

  // A command has at most 128 sectors: eight buffers, 0x10000 bytes.

  datatype AtaCommand = ReadDma | ReadDmaExt | WriteDma | WriteDmaExt

  function OpCode(c: AtaCommand): Byte {
    match c
    case ReadDma => 0xC8
    case ReadDmaExt => 0x25
    case WriteDma => 0xCA
    case WriteDmaExt => 0x35
  }

  /** `DmaRequest::as_command`: decided by the first sector of the whole request. */
  function CommandFor(sector: nat): AtaCommand {
    if sector > 0x0FFF_FFFF then ReadDmaExt else ReadDma
  }

  // ----- cutting a request into commands -----

  datatype Chunk = Chunk(lba: nat, count: nat)

  function Plan(sector: nat, count: nat): seq<Chunk>
    decreases count
  {
    if count == 0 then []
    else
      var c := Min(count, 128);
      [Chunk(sector, c)] + Plan(sector + c, count - c)
  }

  lemma {:induction false} PlanAt(sector: nat, count: nat)
    ensures |Plan(sector, count)| == CeilDiv(count, 128)
    ensures forall i :: 0 <= i < |Plan(sector, count)| ==>
      Plan(sector, count)[i] == Chunk(sector + 128 * i, Min(128, count - 128 * i))
    decreases count
  {
    if count > 0 {
      var c := Min(count, 128);
      PlanAt(sector + c, count - c);
    }
  }

  ghost predicate Covers(c: Chunk, lba: nat) {
    c.lba <= lba < c.lba + c.count
  }

  /** The commands read every requested sector, no other sector, and none twice;
      each follows the one before it without a gap, and all but the last are full. */
  lemma PlanTiles(sector: nat, count: nat, lba: nat)
    ensures (exists i :: 0 <= i < |Plan(sector, count)| && Covers(Plan(sector, count)[i], lba))
      <==> sector <= lba < sector + count
    ensures forall i, j :: 0 <= i < j < |Plan(sector, count)| ==>
      !(Covers(Plan(sector, count)[i], lba) && Covers(Plan(sector, count)[j], lba))
    ensures forall i :: 0 <= i < |Plan(sector, count)| - 1 ==>
      && Plan(sector, count)[i].count == 128
      && Plan(sector, count)[i + 1].lba == Plan(sector, count)[i].lba + Plan(sector, count)[i].count
  {
    PlanAt(sector, count);
    if sector <= lba < sector + count {
      assert Covers(Plan(sector, count)[(lba - sector) / 128], lba);
    }
  }

  // ----- which sector the device reads -----

  /** How a device takes the start sector from the register FIS. `SixBytes` trusts all six
      address bytes of every command. `ByCommandSet` is the ATA command set: READ DMA is a
      28-bit command whose address is three bytes and the low nibble of the device byte. */
  datatype Addressing = SixBytes | ByCommandSet

  /** The start sector a device sees for a command the driver issued at `lba`:
      the driver always leaves the device nibble zero. */
  function Addressed(mode: Addressing, command: AtaCommand, lba: nat): nat {
    if mode.SixBytes? || command == ReadDmaExt || command == WriteDmaExt then lba else lba % 0x100_0000
  }

  /** The disk byte that arrives as byte `k` of the whole request's stream. */
  function Source(mode: Addressing, sector: nat, k: nat): nat {
    512 * Addressed(mode, CommandFor(sector), sector + 128 * (k / 0x10000)) + k % 0x10000
  }

  function StreamData(disk: nat -> Byte, mode: Addressing, sector: nat): nat -> Byte {
    (k: nat) => disk(Source(mode, sector, k))
  }

  /** Every command of the request is addressed as the driver meant it. */
  ghost predicate Addressable(mode: Addressing, sector: nat, count: nat) {
    || mode.SixBytes?
    || sector > 0x0FFF_FFFF
    || count == 0
    || sector + 128 * ((count - 1) / 128) < 0x100_0000
  }

  /** What `AhciPort::read` leaves in a caller's buffer of `len` bytes. */
  ghost function ReadResult(ram: seq<Byte>, addrs: seq<nat>, disk: nat -> Byte, mode: Addressing,
                            sector: nat, len: nat): seq<Byte>
    requires InRam(addrs, ram) && len <= |addrs|
  {
    Gather(Scatter(ram, addrs, StreamData(disk, mode, sector), 0), addrs[..len])
  }

  ghost function DiskSlice(disk: nat -> Byte, sector: nat, len: nat): seq<Byte> {
    seq(len, i requires 0 <= i => disk(512 * sector + i))
  }

  ghost predicate Faithful(ram: seq<Byte>, addrs: seq<nat>, disk: nat -> Byte, mode: Addressing,
                           sector: nat, len: nat)
    requires InRam(addrs, ram) && len <= |addrs|
  {
    ReadResult(ram, addrs, disk, mode, sector, len) == DiskSlice(disk, sector, len)
  }

  lemma AddressableSource(mode: Addressing, sector: nat, count: nat, k: nat)
    requires Addressable(mode, sector, count) && k < count * 512
    ensures Source(mode, sector, k) == 512 * sector + k
  {
    assert k / 0x10000 <= (count - 1) / 128;
    var lba := sector + 128 * (k / 0x10000);
    assert Addressed(mode, CommandFor(sector), lba) == lba;
  }

  /** A request of at most 2^24 sectors never gets byte `i` of the disk through another stream byte. */
  lemma SourceMisses(mode: Addressing, sector: nat, i: nat, j: nat)
    requires i != j && i < 512 * 0x100_0000 && j < 512 * 0x100_0000
    ensures Source(mode, sector, j) != 512 * sector + i
  {
    var lba := sector + 128 * (j / 0x10000);
    var a := Addressed(mode, CommandFor(sector), lba);
    assert a == lba || a == lba % 0x100_0000;
    assert j == 0x10000 * (j / 0x10000) + j % 0x10000;
    assert Source(mode, sector, j) - (512 * sector + j) == 512 * (a - lba);
  }

  lemma FaithfulAt(ram: seq<Byte>, addrs: seq<nat>, disk: nat -> Byte, mode: Addressing,
                   sector: nat, len: nat, i: nat)
    requires InRam(addrs, ram) && i < len <= |addrs|
    requires Faithful(ram, addrs, disk, mode, sector, len)
    ensures Scatter(ram, addrs, StreamData(disk, mode, sector), 0)[addrs[i]] == disk(512 * sector + i)
  {
    assert ReadResult(ram, addrs, disk, mode, sector, len)[i] == DiskSlice(disk, sector, len)[i];
  }

  /** The last stream byte stored at the address of byte `i`. */
  lemma LastAlias(addrs: seq<nat>, i: nat) returns (j: nat)
    requires i < |addrs|
    ensures i <= j < |addrs| && addrs[j] == addrs[i]
    ensures forall l :: j < l < |addrs| ==> addrs[l] != addrs[j]
  {
    j := i;
    for l := i + 1 to |addrs|
      invariant i <= j < l && addrs[j] == addrs[i]
      invariant forall m :: j < m < l ==> addrs[m] != addrs[j]
    {
      if addrs[l] == addrs[i] {
        j := l;
      }
    }
  }

  lemma FaithfulWhen(ram: seq<Byte>, addrs: seq<nat>, disk: nat -> Byte, mode: Addressing,
                     sector: nat, count: nat, len: nat)
    requires InRam(addrs, ram) && |addrs| == count * 512 && len <= |addrs|
    requires Unclobbered(addrs, len) && Addressable(mode, sector, count)
    ensures Faithful(ram, addrs, disk, mode, sector, len)
  {
    var data := StreamData(disk, mode, sector);
    forall i | 0 <= i < len
      ensures ReadResult(ram, addrs, disk, mode, sector, len)[i] == DiskSlice(disk, sector, len)[i]
    {
      ScatterLast(ram, addrs, data, 0, i);
      AddressableSource(mode, sector, count, i);
    }
  }

  /** If the read is right on every disk, stream byte `i` is stored last and comes from its own place. */
  lemma FaithfulNeeds(ram: seq<Byte>, addrs: seq<nat>, mode: Addressing, sector: nat, len: nat, i: nat)
    requires InRam(addrs, ram) && |addrs| <= 512 * 0x100_0000 && i < len <= |addrs|
    requires forall disk :: Faithful(ram, addrs, disk, mode, sector, len)
    ensures Source(mode, sector, i) == 512 * sector + i
    ensures forall j :: i < j < |addrs| ==> addrs[j] != addrs[i]
  {
    var j := LastAlias(addrs, i);
    var disk: nat -> Byte := (p: nat) => if p == 512 * sector + i then 1 else 0;
    assert Faithful(ram, addrs, disk, mode, sector, len);
    FaithfulAt(ram, addrs, disk, mode, sector, len, i);
    ScatterLast(ram, addrs, StreamData(disk, mode, sector), 0, j);
    assert StreamData(disk, mode, sector)(j) == 1;
    if j != i {
      SourceMisses(mode, sector, i, j);
    }
  }

  /** The first byte of the last command is read back, and it comes from where it should only if the command is
      addressable. */
  lemma LastCommand(mode: Addressing, sector: nat, count: nat, len: nat)
    requires 0 < count && count * 512 < len + 512
    ensures
      var last := 0x10000 * ((count - 1) / 128);
      last < len && (Source(mode, sector, last) == 512 * sector + last ==> Addressable(mode, sector, count))
  {
    var q := (count - 1) / 128;
    assert 128 * q <= count - 1;
    assert 0x10000 * q / 0x10000 == q && 0x10000 * q % 0x10000 == 0;
  }

  /** A read is right on every disk exactly when no buffer overwrites another
      and the device takes every command's address as it was meant. */
  lemma FaithfulIff(ram: seq<Byte>, addrs: seq<nat>, mode: Addressing, sector: nat, count: nat, len: nat)
    requires InRam(addrs, ram) && |addrs| == count * 512 && count <= 0x100_0000
    requires len <= count * 512 < len + 512
    ensures (forall disk :: Faithful(ram, addrs, disk, mode, sector, len))
      <==> Unclobbered(addrs, len) && Addressable(mode, sector, count)
  {
    hide Faithful, Source;
    if forall disk :: Faithful(ram, addrs, disk, mode, sector, len) {
      forall i | 0 <= i < len
        ensures Source(mode, sector, i) == 512 * sector + i
        ensures forall j :: i < j < |addrs| ==> addrs[j] != addrs[i]
      {
        FaithfulNeeds(ram, addrs, mode, sector, len, i);
      }
      if count > 0 {
        LastCommand(mode, sector, count, len);
        assert Source(mode, sector, 0x10000 * ((count - 1) / 128)) == 512 * sector + 0x10000 * ((count - 1) / 128);
      }
    }
    if Unclobbered(addrs, len) && Addressable(mode, sector, count) {
      forall disk
        ensures Faithful(ram, addrs, disk, mode, sector, len)
      {
        FaithfulWhen(ram, addrs, disk, mode, sector, count, len);
      }
    }
  }

  // ----- buffers from a one-frame-at-a-time allocator -----

  ghost function Starts(bufs: seq<DmaBuffer>): (s: seq<nat>)
    ensures |s| == |bufs|
  {
    seq(|bufs|, i requires 0 <= i < |bufs| => bufs[i].start)
  }

  /** Neighbouring starts are a whole buffer apart. */
  ghost predicate Gaps(bufs: seq<DmaBuffer>) {
    forall i :: 0 <= i < |bufs| - 1 ==> bufs[i].start + 0x2000 <= bufs[i + 1].start
  }

  /** `pmm_alloc` takes one 4 KiB frame whatever the order, so for frames in ascending order
      no buffer is overwritten exactly when neighbouring starts are a whole buffer apart. */
  lemma UnclobberedIffGaps(bufs: seq<DmaBuffer>, count: nat, len: nat)
    requires Shaped(bufs, count * 512) && Ascending(Starts(bufs))
    requires len <= count * 512 < len + 512
    ensures |Addrs(bufs)| == count * 512
    ensures Unclobbered(Addrs(bufs), len) <==> Gaps(bufs)
  {
    hide Addrs, Shaped;
    AddrsAt(bufs, count * 512);
    if Gaps(bufs) {
      forall i, j | 0 <= i < len && i < j < count * 512
        ensures Addrs(bufs)[i] != Addrs(bufs)[j]
      {
        GapsDiffer(bufs, count * 512, i, j);
      }
    } else {
      var i :| 0 <= i < |bufs| - 1 && bufs[i + 1].start < bufs[i].start + 0x2000;
      assert Starts(bufs)[i] < Starts(bufs)[i + 1];
      var k, l := OverlapAt(bufs, count * 512, i);
      Before(i, k, count, len);
    }
  }

  /** The last byte before a buffer is read back when a byte of the buffer is transferred. */
  lemma Before(i: nat, k: nat, count: nat, len: nat)
    requires k < 0x2000 * (i + 1) < count * 512 < len + 512
    ensures k < len
  {
    assert 16 * (i + 1) < count;
  }

  lemma GapsDiffer(bufs: seq<DmaBuffer>, size: nat, i: nat, j: nat)
    requires Shaped(bufs, size) && Gaps(bufs) && i < j < size
    ensures |Addrs(bufs)| == size && Addrs(bufs)[i] != Addrs(bufs)[j]
  {
    hide Addrs, Gaps;
    AddrsAt(bufs, size);
    LaterByte(i, j);
    GapsSeparate(bufs, i / 0x2000, j / 0x2000);
  }

  lemma LaterByte(i: nat, j: nat)
    requires i < j
    ensures i / 0x2000 < j / 0x2000 || (i / 0x2000 == j / 0x2000 && i % 0x2000 < j % 0x2000)
  {
  }

  /** The first byte of buffer `i + 1` lands inside buffer `i`. */
  lemma OverlapAt(bufs: seq<DmaBuffer>, size: nat, i: nat) returns (k: nat, l: nat)
    requires Shaped(bufs, size) && i + 1 < |bufs|
    requires bufs[i].start < bufs[i + 1].start < bufs[i].start + 0x2000
    ensures |Addrs(bufs)| == size && k < 0x2000 * (i + 1) == l < size && Addrs(bufs)[k] == Addrs(bufs)[l]
  {
    AddrsAt(bufs, size);
    k, l := 0x2000 * i + (bufs[i + 1].start - bufs[i].start), 0x2000 * (i + 1);
    assert k / 0x2000 == i && l / 0x2000 == i + 1;
  }

  lemma {:induction false} GapsSeparate(bufs: seq<DmaBuffer>, i: nat, j: nat)
    requires Gaps(bufs) && i <= j < |bufs|
    ensures i < j ==> bufs[i].start + 0x2000 <= bufs[j].start
    decreases j - i
  {
    if i < j {
      GapsSeparate(bufs, i, j - 1);
      assert bufs[j - 1].start + 0x2000 <= bufs[j - 1 + 1].start;
    }
  }
}
