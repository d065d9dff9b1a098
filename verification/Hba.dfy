/** One AHCI port: its 32 command headers, the 8 KiB block of command tables, and a device
    that executes what it finds in those bytes. */
module Hba {
  import opened LittleEndian
  import opened Dma
  import opened Commands

  // A table has 256 bytes: 128 for the command FIS and other fields, then eight descriptors of 16 bytes.

  datatype HeaderFlags = HeaderFlags(fisLength: nat, write: bool, prefetchable: bool, clearBusy: bool)

  datatype CmdHeader = CmdHeader(flags: HeaderFlags, prdtl: nat, prdbc: nat, ctb: nat)

  // ----- layout of the table block -----

  /** The bytes of the block of command tables. */
  const TABLES: nat := 0x2000

  function Table(slot: nat): nat {
    256 * slot
  }

  function Prd(slot: nat, k: nat): nat {
    Table(slot) + 128 + 16 * k
  }

  /** The 32 tables tile the 8 KiB block: every byte is in exactly one of them,
      and all descriptors of a slot lie in its own table, behind the FIS and apart from each other. */
  lemma TablesTile(b: nat)
    requires b < TABLES
    ensures b / 256 < 32
    ensures forall s :: 0 <= s < 32 ==> (Table(s) <= b < Table(s) + 256 <==> s == b / 256)
    ensures forall s, k :: 0 <= s < 32 && 0 <= k < 8 ==>
      (Prd(s, k) <= b < Prd(s, k) + 16 <==>
        && s == b / 256
        && 128 + 16 * k <= b % 256 < 128 + 16 * (k + 1))
  {
  }

  // ----- descriptor words (section 4.2.3.3 of Serial ATA AHCI 1.3.1) -----

  /** `set_bits(0..21, v)` on a 32-bit word. */
  function SetLow21(w: nat, v: nat): nat
    requires v < 0x20_0000
  {
    w / 0x20_0000 * 0x20_0000 + v
  }

  /** `set_bit(31, yes)` on a 32-bit word. */
  function SetTop(w: nat, yes: bool): nat {
    w % 0x8000_0000 + if yes then 0x8000_0000 else 0
  }

  /** The two stores touch their own bits of a word and no other. */
  lemma BitStores(w: nat, v: nat, yes: bool)
    requires w < 0x1_0000_0000 && v < 0x20_0000
    ensures SetLow21(w, v) % 0x20_0000 == v && SetLow21(w, v) / 0x20_0000 == w / 0x20_0000
    ensures SetTop(w, yes) % 0x8000_0000 == w % 0x8000_0000 && (SetTop(w, yes) / 0x8000_0000 == 1 <==> yes)
    ensures SetTop(w, yes) < 0x1_0000_0000
  {
    var high := w / 0x20_0000;
    assert SetLow21(w, v) == 0x20_0000 * high + v;
  }

  /** Bits 21 to 30, which no store of the driver changes, are clear. */
  predicate ReservedClear(w: nat) {
    w % 0x8000_0000 < 0x20_0000 && w < 2 * 0x8000_0000
  }

  lemma DescriptorWord(w: nat, size: nat, last: bool)
    requires ReservedClear(w) && 0 < size <= 0x20_0000
    ensures var r := SetTop(SetLow21(w, size - 1), last);
      ReservedClear(r) && r % 0x40_0000 + 1 == size && (r >= 0x8000_0000 <==> last) && r % 2 == (size - 1) % 2
  {
    var v := SetLow21(w, size - 1);
    assert v == size - 1 || v == 0x8000_0000 + (size - 1);
    assert v % 0x8000_0000 == size - 1;
  }

  /** The descriptor a device reads at `o`: a 64-bit address and a 22-bit byte count less one. */
  function DecodePrd(t: seq<Byte>, o: nat): DmaBuffer
    requires o + 16 <= |t|
  {
    DmaBuffer(Load(t, o, 8), Load(t, o + 12, 4) % 0x40_0000 + 1)
  }

  predicate InterruptsAt(t: seq<Byte>, o: nat)
    requires o + 16 <= |t|
  {
    Load(t, o + 12, 4) >= 0x8000_0000
  }

  /** Descriptor `k` of a slot is `buffer`; an even size leaves bit 0 of its count field set. */
  ghost predicate Described(t: seq<Byte>, slot: nat, k: nat, buffer: DmaBuffer, last: bool)
    requires slot < 32 && k < 8 && |t| == TABLES
  {
    && DecodePrd(t, Prd(slot, k)) == buffer
    && InterruptsAt(t, Prd(slot, k)) == last
    && (buffer.dataSize % 2 == 0 ==> Load(t, Prd(slot, k) + 12, 4) % 2 == 1)
  }

  lemma DescribedFrame(a: seq<Byte>, b: seq<Byte>, slot: nat, k: nat, buffer: DmaBuffer, last: bool)
    requires slot < 32 && k < 8 && |a| == |b| == TABLES
    requires forall j :: Prd(slot, k) <= j < Prd(slot, k) + 16 ==> a[j] == b[j]
    requires Described(a, slot, k, buffer, last)
    ensures Described(b, slot, k, buffer, last)
  {
    hide Load;
    LoadFrame(a, b, Prd(slot, k), 8);
    LoadFrame(a, b, Prd(slot, k) + 12, 4);
  }

  ghost predicate Clear(t: seq<Byte>)
    requires |t| == TABLES
  {
    forall i, k :: 0 <= i < 32 && 0 <= k < 8 ==> ReservedClear(Load(t, Prd(i, k) + 12, 4))
  }

  /** `a` and `b` differ in `[lo, hi)` at most. */
  ghost predicate SameOutside(a: seq<Byte>, b: seq<Byte>, lo: nat, hi: nat) {
    |a| == |b| == TABLES && forall j :: 0 <= j < TABLES && !(lo <= j < hi) ==> a[j] == b[j]
  }

  /** The first `n` descriptors of a slot are those of a list of `length` buffers, the last one interrupting. */
  ghost predicate DescribedUpTo(t: seq<Byte>, slot: nat, buffer: seq<DmaBuffer>, length: nat, n: nat)
    requires slot < 32 && n <= 8 && n <= |buffer| && |t| == TABLES
  {
    forall k :: 0 <= k < n ==> Described(t, slot, k, buffer[k], k == length - 1)
  }

  lemma DescribedNext(a: seq<Byte>, b: seq<Byte>, slot: nat, buffer: seq<DmaBuffer>, length: nat, n: nat)
    requires slot < 32 && n < 8 && n < |buffer|
    requires SameOutside(a, b, Prd(slot, n), Prd(slot, n + 1))
    requires DescribedUpTo(a, slot, buffer, length, n)
    requires Described(b, slot, n, buffer[n], n == length - 1)
    ensures DescribedUpTo(b, slot, buffer, length, n + 1)
  {
    forall k | 0 <= k < n
      ensures Described(b, slot, k, buffer[k], k == length - 1)
    {
      DescribedFrame(a, b, slot, k, buffer[k], k == length - 1);
    }
  }

  lemma DescribedAfterFis(a: seq<Byte>, b: seq<Byte>, slot: nat, buffer: seq<DmaBuffer>, length: nat)
    requires slot < 32 && length <= 8 && length <= |buffer|
    requires SameOutside(a, b, Table(slot), Table(slot) + 20)
    requires DescribedUpTo(a, slot, buffer, length, length)
    ensures DescribedUpTo(b, slot, buffer, length, length)
  {
    forall k | 0 <= k < length
      ensures Described(b, slot, k, buffer[k], k == length - 1)
    {
      DescribedFrame(a, b, slot, k, buffer[k], k == length - 1);
    }
  }

  lemma DescribedPrds(t: seq<Byte>, slot: nat, buffer: seq<DmaBuffer>, length: nat)
    requires slot < 32 && length <= 8 && length <= |buffer| && |t| == TABLES
    requires DescribedUpTo(t, slot, buffer, length, length)
    ensures DecodePrds(t, slot, length) == buffer[..length]
  {
    forall k | 0 <= k < length
      ensures DecodePrds(t, slot, length)[k] == buffer[k]
    {
      assert Described(t, slot, k, buffer[k], k == length - 1);
    }
  }

  /** A descriptor after its address was stored (`a` to `m`) and then its flag word (`m` to `b`). */
  lemma DescriptorStored(a: seq<Byte>, m: seq<Byte>, b: seq<Byte>, slot: nat, k: nat, buffer: DmaBuffer, last: bool)
    requires slot < 32 && k < 8 && 0 < buffer.dataSize <= 0x2000 && |a| == TABLES && Clear(a)
    requires SameOutside(a, m, Prd(slot, k), Prd(slot, k) + 8) && Load(m, Prd(slot, k), 8) == buffer.start
    requires SameOutside(m, b, Prd(slot, k) + 12, Prd(slot, k) + 16)
    requires Load(b, Prd(slot, k) + 12, 4) == SetTop(SetLow21(Load(m, Prd(slot, k) + 12, 4), buffer.dataSize - 1), last)
    ensures Described(b, slot, k, buffer, last) && Clear(b) && SameOutside(a, b, Prd(slot, k), Prd(slot, k + 1))
  {
    hide Load, SetLow21, SetTop, ReservedClear;
    var o := Prd(slot, k);
    LoadFrame(a, m, o + 12, 4);
    LoadFrame(m, b, o, 8);
    DescriptorWord(Load(a, o + 12, 4), buffer.dataSize, last);
    ClearAfterPrd(a, b, slot, k);
  }

  lemma ClearAfterFis(a: seq<Byte>, b: seq<Byte>, slot: nat)
    requires slot < 32 && SameOutside(a, b, Table(slot), Table(slot) + 20) && Clear(a)
    ensures Clear(b)
  {
    hide Load, ReservedClear;
    forall i, k | 0 <= i < 32 && 0 <= k < 8
      ensures ReservedClear(Load(b, Prd(i, k) + 12, 4))
    {
      BehindFis(slot, i, k);
      LoadFrame(a, b, Prd(i, k) + 12, 4);
    }
  }

  /** The flag word of a descriptor is no byte of a command FIS. */
  lemma BehindFis(slot: nat, i: nat, k: nat)
    requires slot < 32 && i < 32 && k < 8
    ensures Prd(i, k) + 16 <= Table(slot) || Table(slot) + 20 <= Prd(i, k) + 12
    ensures Prd(i, k) + 16 <= TABLES
  {
    if i < slot {
      assert 256 * (i + 1) <= 256 * slot;
    }
  }

  lemma ClearAfterPrd(a: seq<Byte>, b: seq<Byte>, slot: nat, k: nat)
    requires slot < 32 && k < 8 && SameOutside(a, b, Prd(slot, k), Prd(slot, k + 1)) && Clear(a)
    requires ReservedClear(Load(b, Prd(slot, k) + 12, 4))
    ensures Clear(b)
  {
    hide Load, ReservedClear;
    forall i, j | 0 <= i < 32 && 0 <= j < 8
      ensures ReservedClear(Load(b, Prd(i, j) + 12, 4))
    {
      if i != slot || j != k {
        LoadFrame(a, b, Prd(i, j) + 12, 4);
      }
    }
  }

  function DecodePrds(t: seq<Byte>, slot: nat, n: nat): (r: seq<DmaBuffer>)
    requires slot < 32 && n <= 8 && |t| == TABLES
    ensures |r| == n
  {
    seq(n, k requires 0 <= k < n => DecodePrd(t, Prd(slot, k)))
  }

  // ----- register FIS -----

  function Lba48(t: seq<Byte>, o: nat): nat
    requires o + 20 <= |t|
  {
    FromLe(t[o + 4..o + 7] + t[o + 8..o + 11])
  }

  function Lba28(t: seq<Byte>, o: nat): nat
    requires o + 20 <= |t|
  {
    FromLe(t[o + 4..o + 7] + [t[o + 7] % 16])
  }

  /** The start sector a device takes from the FIS at `o`: READ DMA EXT and WRITE DMA EXT have a 48-bit address. */
  function DecodeLba(mode: Addressing, t: seq<Byte>, o: nat): nat
    requires o + 20 <= |t|
  {
    if mode.SixBytes? || t[o + 2] == 0x25 || t[o + 2] == 0x35
    then Lba48(t, o) else Lba28(t, o)
  }

  /** `FisRegH2D::set_lba` stores bytes 0 to 2 of the sector, then bytes 3 to 5. */
  lemma LbaBytes(t: seq<Byte>, o: nat, lba: nat)
    requires o + 20 <= |t| && lba < Pow256(6)
    requires t[o + 4..o + 7] == ToLe(lba, 3)
    requires t[o + 8..o + 11] == ToLe(lba / 0x100_0000, 3)
    ensures Lba48(t, o) == lba
    ensures t[o + 7] == 0x40 ==> Lba28(t, o) == lba % 0x100_0000
  {
    hide ToLe, FromLe, Pow256;
    ToLeSplit(lba);
    FromLeToLe(lba, 6);
    LowBytes(lba);
  }

  lemma LowBytes(lba: nat)
    ensures FromLe(ToLe(lba, 3) + [0]) == lba % 0x100_0000
  {
    hide ToLe;
    ToLeLow(lba);
    FromLeConcat(ToLe(lba, 3), [0]);
    assert Pow256(3) == 0x100_0000;
    FromLeToLe(lba % 0x100_0000, 3);
  }

  lemma ToLe3(n: nat)
    ensures ToLe(n, 3) == [n % 256, n / 256 % 256, n / 256 / 256 % 256]
  {
    assert ToLe(n / 256 / 256, 1) == [n / 256 / 256 % 256];
    assert ToLe(n / 256, 2) == [n / 256 % 256] + ToLe(n / 256 / 256, 1);
  }

  lemma ToLeSplit(n: nat)
    ensures ToLe(n, 3) + ToLe(n / 0x100_0000, 3) == ToLe(n, 6)
  {
    assert n / 256 / 256 / 256 == n / 0x100_0000;
    assert ToLe(n / 256, 5) == [n / 256 % 256] + ToLe(n / 256 / 256, 4);
    assert ToLe(n / 256 / 256, 4) == [n / 256 / 256 % 256] + ToLe(n / 256 / 256 / 256, 3);
    ToLe3(n);
  }

  lemma ToLeLow(n: nat)
    ensures ToLe(n, 3) == ToLe(n % 0x100_0000, 3)
  {
    var q, m := n / 0x100_0000, n % 0x100_0000;
    assert n == 0x100_0000 * q + m;
    assert n / 256 == 0x1_0000 * q + m / 256;
    assert n / 256 / 256 == 0x100 * q + m / 256 / 256;
    ToLe3(n);
    ToLe3(m);
  }

  lemma ZeroWord()
    ensures FromLe([0, 0, 0, 0]) == 0
  {
    assert [0, 0, 0, 0][1..] == [0, 0, 0] && [0, 0, 0][1..] == [0, 0] && [0, 0][1..] == [0];
    assert FromLe([0]) == 0 && FromLe([0, 0]) == 0;
  }

  /** `((count - 1) >> 4) + 1`: descriptors for `count` sectors. */
  function PrdLength(count: nat): nat
    requires count > 0
  {
    (count - 1) / 16 + 1
  }

  /** The header fields `run_command` sets; the FIS length is not among them. */
  function HeaderFor(h: CmdHeader, command: AtaCommand, length: nat): CmdHeader {
    h.(prdtl := length,
       flags := HeaderFlags(h.flags.fisLength, command.WriteDma? || command.WriteDmaExt?, true, true))
  }

  /** The command byte as the ATA command set has it: READ DMA, READ DMA EXT, WRITE DMA and WRITE DMA EXT. */
  predicate Names(code: Byte, command: AtaCommand) {
    && (code == 0xC8 <==> command == ReadDma)
    && (code == 0x25 <==> command == ReadDmaExt)
    && (code == 0xCA <==> command == WriteDma)
    && (code == 0x35 <==> command == WriteDmaExt)
  }

  /** The fixed fields of a command FIS; of the flag byte only the top bit is the driver's. */
  ghost predicate FisFields(before: seq<Byte>, t: seq<Byte>, o: nat, command: AtaCommand)
    requires o + 20 <= |t| == |before|
  {
    && t[o] == 0x27 && t[o + 1] == before[o + 1] % 0x80 + 0x80 && Names(t[o + 2], command) && t[o + 7] == 0x40
    && t[o + 3] == t[o + 11] == t[o + 14] == t[o + 15] == 0
    && forall i :: o + 16 <= i < o + 20 ==> t[i] == 0
  }

  /** A slot's table holds a command: start sector, sector count and descriptor list. */
  ghost predicate Holds(t: seq<Byte>, slot: nat, lba: nat, count: nat, prds: seq<DmaBuffer>)
    requires |t| == TABLES
  {
    && slot < 32 && |prds| <= 8
    && DecodePrds(t, slot, |prds|) == prds
    && Lba48(t, Table(slot)) == lba
    && Load(t, Table(slot) + 12, 2) == count
  }

  lemma HoldsFrame(a: seq<Byte>, b: seq<Byte>, other: nat, slot: nat, lba: nat, count: nat, prds: seq<DmaBuffer>)
    requires other < 32 && SameOutside(a, b, Table(other), Table(other + 1))
    requires Holds(a, slot, lba, count, prds) && slot != other
    ensures Holds(b, slot, lba, count, prds)
  {
    hide Load;
    var o := Table(slot);
    assert a[o + 4..o + 7] == b[o + 4..o + 7] && a[o + 8..o + 11] == b[o + 8..o + 11];
    LoadFrame(a, b, o + 12, 2);
    forall k | 0 <= k < |prds|
      ensures DecodePrds(b, slot, |prds|)[k] == DecodePrds(a, slot, |prds|)[k]
    {
      LoadFrame(a, b, Prd(slot, k), 8);
      LoadFrame(a, b, Prd(slot, k) + 12, 4);
    }
  }

  class HbaPort {
    const disk: nat -> Byte
    const addressing: Addressing
    const tables: array<Byte>
    const tableBase: nat
    var headers: seq<CmdHeader>
    var ram: seq<Byte>

    /** Each header points at its own table, reserved descriptor bits are clear, and the firmware
        left the command FIS length at five words (the driver's own store of it is lost). */
    ghost predicate Valid()
      reads this, tables
    {
      && |headers| == 32 && tables.Length == TABLES
      && (forall i :: 0 <= i < 32 ==> headers[i].ctb == tableBase + Table(i) && headers[i].flags.fisLength == 5)
      && Clear(tables[..])
    }

    lemma BlockSize()
      requires Valid()
      ensures tables.Length == TABLES
    {
    }

    /** `HbaPort::start`: `frame` is the zeroed 8 KiB block for the tables. */
    constructor (disk: nat -> Byte, addressing: Addressing, firmware: seq<CmdHeader>, frame: nat, ram: seq<Byte>)
      requires |firmware| == 32 && forall i :: 0 <= i < 32 ==> firmware[i].flags.fisLength == 5
      ensures Valid() && fresh(tables)
      ensures this.disk == disk && this.addressing == addressing && this.ram == ram && tableBase == frame
      ensures forall i :: 0 <= i < 32 ==> headers[i] == firmware[i].(prdtl := 8, prdbc := 0, ctb := frame + 256 * i)
    {
      this.disk, this.addressing, this.tableBase, this.ram := disk, addressing, frame, ram;
      var h := firmware;
      for i := 0 to 32
        invariant |h| == 32
        invariant forall j :: 0 <= j < 32 ==>
          h[j] == if j < i then firmware[j].(prdtl := 8, prdbc := 0, ctb := frame + 256 * j) else firmware[j]
      {
        h := h[i := h[i].(prdtl := 8, prdbc := 0, ctb := frame + 256 * i)];
      }
      headers, tables := h, new Byte[TABLES](_ => 0);
      new;
      forall i, k | 0 <= i < 32 && 0 <= k < 8
        ensures ReservedClear(Load(tables[..], Prd(i, k) + 12, 4))
      {
        assert tables[..][Prd(i, k) + 12..Prd(i, k) + 16] == [0, 0, 0, 0];
        ZeroWord();
      }
    }

    /** One step of the descriptor loop of `run_command`. */
    method WriteDescriptor(slot: nat, k: nat, buffer: DmaBuffer, last: bool)
      requires Valid() && slot < 32 && k < 8
      requires buffer.start < Pow256(8) && 0 < buffer.dataSize <= 0x2000
      modifies tables
      ensures Valid()
      ensures Described(tables[..], slot, k, buffer, last)
      ensures Load(tables[..], 256 * slot + 128 + 16 * k, 8) == buffer.start
      ensures Load(tables[..], 256 * slot + 140 + 16 * k, 4) % 0x40_0000 + 1 == buffer.dataSize
      ensures SameOutside(old(tables[..]), tables[..], Prd(slot, k), Prd(slot, k + 1))
    {
      var o := headers[slot].ctb - tableBase + 128 + 16 * k;
      assert o == Prd(slot, k);
      Store(tables, o, buffer.start, 8);
      ghost var mid := tables[..];
      LoadFrame(old(tables[..]), mid, o + 12, 4);
      var w := Load(tables[..], o + 12, 4);
      var flags := SetTop(SetLow21(w, buffer.dataSize - 1), last);
      assert flags < Pow256(4) by {
        assert Pow256(4) == 2 * 0x8000_0000;
      }
      Store(tables, o + 12, flags, 4);
      DescriptorStored(old(tables[..]), mid, tables[..], slot, k, buffer, last);
    }

    /** The descriptor loop of `run_command`: nothing outside the slot's own descriptors changes,
        and only the last descriptor interrupts. */
    method WriteDescriptors(slot: nat, buffer: seq<DmaBuffer>, length: nat)
      requires Valid() && slot < 32 && 0 < length <= 8 && length <= |buffer|
      requires forall k :: 0 <= k < length ==> buffer[k].start < Pow256(8) && 0 < buffer[k].dataSize <= 0x2000
      modifies tables
      ensures Valid()
      ensures DescribedUpTo(tables[..], slot, buffer, length, length)
      ensures SameOutside(old(tables[..]), tables[..], Prd(slot, 0), Prd(slot, length))
    {
      for pri := 0 to length
        invariant Valid()
        invariant DescribedUpTo(tables[..], slot, buffer, length, pri)
        invariant SameOutside(old(tables[..]), tables[..], Prd(slot, 0), Prd(slot, pri))
      {
        ghost var before := tables[..];
        WriteDescriptor(slot, pri, buffer[pri], pri == length - 1);
        DescribedNext(before, tables[..], slot, buffer, length, pri);
      }
    }

    /** The register FIS of `run_command`. */
    method WriteFis(slot: nat, command: AtaCommand, sector: nat, count: nat)
      requires Valid() && slot < 32 && sector < Pow256(6) && count < Pow256(2)
      modifies tables
      ensures Valid()
      ensures DecodeLba(addressing, tables[..], Table(slot)) == Addressed(addressing, command, sector)
      ensures Lba48(tables[..], Table(slot)) == sector
      ensures Load(tables[..], Table(slot) + 12, 2) == count
      ensures FisFields(old(tables[..]), tables[..], Table(slot), command)
      ensures SameOutside(old(tables[..]), tables[..], Table(slot), Table(slot) + 20)
    {
      hide Load, Lba48, Lba28, Clear;
      var o := headers[slot].ctb - tableBase;
      assert o == Table(slot);
      ClearFis(o, command);
      Store(tables, o + 12, count, 2);
      ghost var counted := tables[..];
      SetLba(o, sector);
      tables[o + 1] := tables[o + 1] % 0x80 + 0x80;
      LoadFrame(counted, tables[..], o + 12, 2);
      assert tables[..][o + 4..o + 7] == ToLe(sector, 3);
      assert tables[..][o + 8..o + 11] == ToLe(sector / 0x100_0000, 3);
      LbaBytes(tables[..], o, sector);
      ClearAfterFis(old(tables[..]), tables[..], slot);
    }

    /** The fixed fields of the FIS; the stale flag byte at `o + 1` stays. */
    method ClearFis(o: nat, command: AtaCommand)
      requires o + 20 <= tables.Length == TABLES
      modifies tables
      ensures tables[o] == 0x27 && tables[o + 2] == OpCode(command) && tables[o + 7] == 0x40
      ensures tables[o + 3] == tables[o + 11] == tables[o + 14] == tables[o + 15] == 0
      ensures tables[o + 1] == old(tables[o + 1]) && forall i :: o + 16 <= i < o + 20 ==> tables[i] == 0
      ensures SameOutside(old(tables[..]), tables[..], o, o + 20)
    {
      tables[o + 15], tables[o + 14], tables[o + 3], tables[o + 11] := 0, 0, 0, 0;
      forall i | o + 16 <= i < o + 20 {
        tables[i] := 0;
      }
      tables[o], tables[o + 7], tables[o + 2] := 0x27, 0x40, OpCode(command);
    }

    /** `FisRegH2D::set_lba`. */
    method SetLba(o: nat, lba: nat)
      requires o + 20 <= tables.Length == TABLES && lba < Pow256(6)
      modifies tables
      ensures tables[o + 4..o + 7] == ToLe(lba, 3)
      ensures tables[o + 8..o + 11] == ToLe(lba / 0x100_0000, 3)
      ensures SameOutside(old(tables[..]), tables[..], o + 4, o + 11) && tables[o + 7] == old(tables[o + 7])
    {
      Store(tables, o + 4, lba, 3);
      ghost var low := tables[o + 4..o + 7];
      Store(tables, o + 8, lba / 0x100_0000, 3);
      assert tables[o + 4..o + 7] == low;
    }

    /** The header fields `run_command` sets. `set_command_fis_size` works on a copy of the
        flag bits, so the FIS length stays what the firmware left. */
    method UpdateHeader(slot: nat, command: AtaCommand, length: nat)
      requires Valid() && slot < 32
      modifies this`headers
      ensures Valid()
      ensures headers == old(headers)[slot := HeaderFor(old(headers[slot]), command, length)]
      ensures headers[slot].prdtl == length && headers[slot].ctb == old(headers[slot].ctb)
      ensures
        var flags := headers[slot].flags;
        && flags.prefetchable && flags.clearBusy && flags.fisLength == old(headers[slot].flags.fisLength)
        && (flags.write <==> command == WriteDma || command == WriteDmaExt)
    {
      var flags := headers[slot].flags;
      if command == WriteDmaExt || command == WriteDma {
        flags := flags.(write := true);
      } else {
        flags := flags.(write := false);
      }
      flags := flags.(prefetchable := true, clearBusy := true);
      headers := headers[slot := headers[slot].(flags := flags, prdtl := length)];
    }

    /** The device, as a hypothesis: for READ DMA and READ DMA EXT with a whole register FIS it fills the descriptor
        list it finds in the table, in order, with the sectors the FIS names. */
    method Execute(slot: nat)
      requires Valid() && slot < 32 && headers[slot].prdtl <= 8
      requires !headers[slot].flags.write && headers[slot].flags.fisLength == 5
      requires tables[Table(slot)] == 0x27 && tables[Table(slot) + 1] >= 0x80
      requires tables[Table(slot) + 2] == 0xC8 || tables[Table(slot) + 2] == 0x25
      requires var addrs := Addrs(DecodePrds(tables[..], slot, headers[slot].prdtl));
        InRam(addrs, ram) && 512 * Load(tables[..], Table(slot) + 12, 2) == |addrs|
      modifies this`ram
      ensures ram == Scatter(old(ram), Addrs(DecodePrds(tables[..], slot, headers[slot].prdtl)), disk,
                             512 * DecodeLba(addressing, tables[..], Table(slot)))
    {
      ram := Scatter(ram, Addrs(DecodePrds(tables[..], slot, headers[slot].prdtl)), disk,
                     512 * DecodeLba(addressing, tables[..], Table(slot)));
    }

    /** `HbaPort::run_command` for a read, up to the completed command. */
    method RunCommand(command: AtaCommand, sector: nat, count: nat, slot: nat, buffer: seq<DmaBuffer>)
      requires Valid() && slot < 32 && (command.ReadDma? || command.ReadDmaExt?)
      requires sector < Pow256(6) && 0 < count <= 128 && PrdLength(count) <= |buffer|
      requires forall k :: 0 <= k < PrdLength(count) ==> buffer[k].start < Pow256(8) && 0 < buffer[k].dataSize <= 0x2000
      requires InRam(Addrs(buffer[..PrdLength(count)]), ram) && |Addrs(buffer[..PrdLength(count)])| == 512 * count
      modifies this, tables
      ensures Valid()
      ensures ram == Scatter(old(ram), Addrs(buffer[..PrdLength(count)]), disk,
                             512 * Addressed(addressing, command, sector))
      ensures headers == old(headers)[slot := HeaderFor(old(headers[slot]), command, PrdLength(count))]
      ensures DescribedUpTo(tables[..], slot, buffer, PrdLength(count), PrdLength(count))
      ensures Holds(tables[..], slot, sector, count, buffer[..PrdLength(count)])
      ensures Names(tables[Table(slot) + 2], command)
      ensures SameOutside(old(tables[..]), tables[..], Table(slot), Table(slot + 1))
    {
      hide Addrs, Scatter, Load, Lba48, Clear, Described, DecodePrds, DecodeLba, Addressed;
      var length := PrdLength(count);
      UpdateHeader(slot, command, length);
      WriteDescriptors(slot, buffer, length);
      ghost var described := tables[..];
      assert count < Pow256(2) by {
        assert Pow256(2) == 0x10000;
      }
      WriteFis(slot, command, sector, count);
      DescribedAfterFis(described, tables[..], slot, buffer, length);
      DescribedPrds(tables[..], slot, buffer, length);
      Execute(slot);
    }
  }
}
