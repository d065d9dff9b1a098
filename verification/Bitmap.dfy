/** The block-packed bitmap of the PCI driver, as a finite set of indices. */
module Bitmap {
  import opened Basics

  /** A `usize` block of 64 bits. */
  type Block = x: int | 0 <= x < 0x1_0000_0000_0000_0000

  const FULL: Block := 0xFFFF_FFFF_FFFF_FFFF

  // ----- bits of a block -----

  predicate Bit(n: nat, k: nat) {
    if k == 0 then n % 2 == 1 else Bit(n / 2, k - 1)
  }

  /** `set_bit`. */
  function SetBit(n: nat, k: nat, yes: bool): nat {
    if k == 0 then n / 2 * 2 + (if yes then 1 else 0) else n % 2 + 2 * SetBit(n / 2, k - 1, yes)
  }

  function Pow2(k: nat): (p: nat)
    ensures p > 0
  {
    if k == 0 then 1 else 2 * Pow2(k - 1)
  }

  lemma {:induction false} SetBitFits(n: nat, k: nat, yes: bool, w: nat)
    requires n < Pow2(w) && k < w
    ensures SetBit(n, k, yes) < Pow2(w)
  {
    var half := n / 2;
    assert half < Pow2(w - 1);
    if k > 0 {
      SetBitFits(half, k - 1, yes, w - 1);
    }
  }

  lemma {:induction false} SetBitMeans(n: nat, k: nat, yes: bool, j: nat)
    ensures Bit(SetBit(n, k, yes), j) == if j == k then yes else Bit(n, j)
  {
    if k > 0 && j > 0 {
      SetBitMeans(n / 2, k - 1, yes, j - 1);
      assert SetBit(n, k, yes) / 2 == SetBit(n / 2, k - 1, yes);
    }
  }

  lemma {:induction false} ZeroBits(k: nat)
    ensures !Bit(0, k)
  {
    if k > 0 {
      ZeroBits(k - 1);
    }
  }

  lemma {:induction false} OnesBits(w: nat, k: nat)
    requires k < w
    ensures Bit(Pow2(w) - 1, k)
  {
    assert (Pow2(w) - 1) / 2 == Pow2(w - 1) - 1;
    if k > 0 {
      OnesBits(w - 1, k - 1);
    }
  }

  /** Only the all-ones number has all its bits. */
  lemma {:induction false} AllOnes(n: nat, w: nat)
    requires n < Pow2(w) && forall k :: 0 <= k < w ==> Bit(n, k)
    ensures n == Pow2(w) - 1
  {
    if w > 0 {
      forall k | 0 <= k < w - 1
        ensures Bit(n / 2, k)
      {
        assert Bit(n, k + 1);
      }
      AllOnes(n / 2, w - 1);
      assert Bit(n, 0);
    }
  }

  /** The block value after `k` shifts to the right. */
  function Shift(n: nat, k: nat): nat {
    if k == 0 then n else Shift(n / 2, k - 1)
  }

  lemma {:induction false} ShiftNext(n: nat, k: nat)
    ensures Shift(n, k + 1) == Shift(n, k) / 2
    ensures Bit(n, k) <==> Shift(n, k) % 2 == 1
  {
    if k > 0 {
      ShiftNext(n / 2, k - 1);
    }
  }

  lemma {:induction false} ShiftOut(n: nat, w: nat)
    requires n < Pow2(w)
    ensures Shift(n, w) == 0
  {
    if w > 0 {
      ShiftOut(n / 2, w - 1);
    }
  }

  lemma BlockWidth()
    ensures Pow2(64) == 0x1_0000_0000_0000_0000
  {
    assert Pow2(8) == 0x100;
    assert Pow2(16) == 0x1_0000;
    assert Pow2(24) == 0x100_0000;
    assert Pow2(32) == 0x1_0000_0000;
    assert Pow2(40) == 0x100_0000_0000;
    assert Pow2(48) == 0x1_0000_0000_0000;
    assert Pow2(56) == 0x100_0000_0000_0000;
  }

  // ----- the set behind the blocks -----

  ghost predicate Has(blocks: seq<Block>, i: nat) {
    i / 64 < |blocks| && Bit(blocks[i / 64], i % 64)
  }

  ghost function Members(blocks: seq<Block>): set<nat> {
    set i: nat | i < 64 * |blocks| && Has(blocks, i)
  }

  /** `calculate_blocks`: the fewest blocks that hold `bits` bits. */
  function CalculateBlocks(bits: nat): (n: nat)
    ensures 64 * n >= bits && (n > 0 ==> 64 * (n - 1) < bits)
  {
    if bits % 64 == 0 then bits / 64 else bits / 64 + 1
  }

  /** The blocks after one `set` call; an index beyond the last block is ignored. */
  function SetIn(blocks: seq<Block>, i: nat, yes: bool): (r: seq<Block>)
    ensures |r| == |blocks|
  {
    if i / 64 < |blocks| then
      BlockWidth();
      SetBitFits(blocks[i / 64], i % 64, yes, 64);
      blocks[i / 64 := SetBit(blocks[i / 64], i % 64, yes)]
    else blocks
  }

  lemma SetInMeans(blocks: seq<Block>, i: nat, yes: bool)
    ensures Members(SetIn(blocks, i, yes))
      == if i >= 64 * |blocks| then Members(blocks) else if yes then Members(blocks) + {i} else Members(blocks) - {i}
  {
    if i / 64 < |blocks| {
      forall j: nat | j < 64 * |blocks|
        ensures Has(SetIn(blocks, i, yes), j) == if j == i then yes else Has(blocks, j)
      {
        SetBitMeans(blocks[i / 64], i % 64, yes, j % 64);
      }
    }
  }

  function RunIn(blocks: seq<Block>, calls: seq<(nat, bool)>): (r: seq<Block>)
    ensures |r| == |blocks|
    decreases |calls|
  {
    if calls == [] then blocks else RunIn(SetIn(blocks, calls[0].0, calls[0].1), calls[1..])
  }

  /** What the last call for an index asked for, or what held before all calls. */
  function LastCall(calls: seq<(nat, bool)>, i: nat, before: bool): bool {
    if calls == [] then before
    else
      var n := |calls| - 1;
      if calls[n].0 == i then calls[n].1 else LastCall(calls[..n], i, before)
  }

  lemma {:induction false} RunInSplit(blocks: seq<Block>, calls: seq<(nat, bool)>)
    requires calls != []
    ensures var n := |calls| - 1;
      RunIn(blocks, calls) == SetIn(RunIn(blocks, calls[..n]), calls[n].0, calls[n].1)
    decreases |calls|
  {
    var n := |calls| - 1;
    if n > 0 {
      RunInSplit(SetIn(blocks, calls[0].0, calls[0].1), calls[1..]);
      assert calls[1..][..n - 1] == calls[..n][1..];
    }
  }

  /** After any run of `set` calls an index within the blocks is a member exactly when the last call for it
      said so, or none did and it was one before. */
  lemma {:induction false} RunRefinesSet(blocks: seq<Block>, calls: seq<(nat, bool)>, i: nat)
    requires i < 64 * |blocks|
    ensures i in Members(RunIn(blocks, calls)) <==> LastCall(calls, i, i in Members(blocks))
    decreases |calls|
  {
    if calls != [] {
      var n := |calls| - 1;
      RunRefinesSet(blocks, calls[..n], i);
      RunInSplit(blocks, calls);
      SetInMeans(RunIn(blocks, calls[..n]), calls[n].0, calls[n].1);
    }
  }

  class BlockMap {
    var blocks: seq<Block>

    constructor NewIn(size: nat)
      ensures |blocks| == CalculateBlocks(size) && Members(blocks) == {}
    {
      blocks := seq(CalculateBlocks(size), _ => 0);
      new;
      forall i | 0 <= i < 64 * |blocks|
        ensures !Has(blocks, i)
      {
        ZeroBits(i % 64);
      }
    }

    method Set(i: nat, yes: bool)
      modifies this
      ensures blocks == SetIn(old(blocks), i, yes)
      ensures Members(blocks)
        == if i >= 64 * |blocks| then old(Members(blocks))
           else if yes then old(Members(blocks)) + {i}
           else old(Members(blocks)) - {i}
    {
      SetInMeans(blocks, i, yes);
      var b, k := i / 64, i % 64;
      if b < |blocks| {
        BlockWidth();
        SetBitFits(blocks[b], k, yes, 64);
        blocks := blocks[b := SetBit(blocks[b], k, yes)];
      }
    }

    /** The index panics beyond the last block. */
    method IsSet(i: nat) returns (r: bool)
      requires i / 64 < |blocks|
      ensures r <==> i in Members(blocks)
    {
      var n := blocks[i / 64];
      return Bit(n, i % 64);
    }

    /** `find_first_set`: the least member, or nothing for the empty set. */
    method FindFirstSet() returns (r: Option<nat>)
      ensures r.None? ==> Members(blocks) == {}
      ensures r.Some? ==> r.value in Members(blocks) && forall i :: i in Members(blocks) ==> r.value <= i
    {
      for b := 0 to |blocks|
        invariant forall i: nat :: i < 64 * b ==> !Has(blocks, i)
      {
        if blocks[b] != 0 {
          var bit := LowestSet(blocks[b]);
          assert (64 * b + bit) / 64 == b && (64 * b + bit) % 64 == bit;
          forall i: nat | i < 64 * b + bit
            ensures !Has(blocks, i)
          {
            assert i >= 64 * b ==> i / 64 == b && i % 64 < bit;
          }
          return Some(64 * b + bit);
        }
        forall i: nat | 64 * b <= i < 64 * (b + 1)
          ensures !Has(blocks, i)
        {
          assert i / 64 == b;
          ZeroBits(i % 64);
        }
      }
      return None;
    }

    /** `find_first_unset`. Only block 0 is looked at: the answer is the least index that is not a member
        exactly when that block has a clear bit, or the next index is a clear bit of a second block. */
    method FindFirstUnset() returns (r: Option<nat>)
      ensures r.None? <==> |blocks| == 0
      ensures r.Some? ==>
        && (r.value == 64 <==> blocks[0] == FULL)
        && (LeastUnset(blocks, r.value) <==> blocks[0] != FULL || (|blocks| > 1 && 64 !in Members(blocks)))
    {
      if |blocks| == 0 {
        return None;
      }
      var bit;
      if blocks[0] == 0 {
        bit := 0;
        ZeroBits(0);
      } else {
        bit := LowestClear(blocks[0]);
      }
      assert forall j: nat :: j < 64 ==> (Has(blocks, j) <==> Bit(blocks[0], j));
      r := Some(bit);
    }
  }

  ghost predicate LeastUnset(blocks: seq<Block>, i: nat) {
    i < 64 * |blocks| && i !in Members(blocks) && forall j: nat :: j < i ==> j in Members(blocks)
  }

  /** A full block 0 hides the rest: index 64, which `find_first_unset` then answers, is a member when the second
      block has its first bit, and there the least index that is not one is 65; and with one block there is no
      index 64. */
  lemma FullBlockHides()
    ensures 64 in Members([FULL, 1]) && LeastUnset([FULL, 1], 65)
    ensures !LeastUnset([FULL, 1], 64) && !LeastUnset([FULL], 64)
  {
    var blocks: seq<Block> := [FULL, 1];
    FullBits();
    assert forall j: nat :: j < 64 ==> (Has(blocks, j) <==> Bit(FULL, j));
    assert Has(blocks, 64) && !Has(blocks, 65);
  }

  /** The shift loop of `find_first_set`. */
  method LowestSet(block: Block) returns (bit: nat)
    requires block != 0
    ensures bit < 64 && Bit(block, bit) && forall k :: 0 <= k < bit ==> !Bit(block, k)
  {
    var value: nat := block;
    bit := 0;
    BlockWidth();
    ShiftOut(block, 64);
    while value % 2 == 0
      invariant value == Shift(block, bit) && value > 0 && bit < 64
      invariant forall k :: 0 <= k < bit ==> !Bit(block, k)
      decreases value
    {
      ShiftNext(block, bit);
      value := value / 2;
      bit := bit + 1;
    }
    ShiftNext(block, bit);
  }

  /** The shift loop of `find_first_unset`; it also ends on a block of all ones. */
  method LowestClear(block: Block) returns (bit: nat)
    ensures bit <= 64 && !Bit(block, bit) && forall k :: 0 <= k < bit ==> Bit(block, k)
    ensures bit == 64 <==> block == FULL
  {
    var value: nat := block;
    bit := 0;
    BlockWidth();
    ShiftOut(block, 64);
    FullBits();
    while value % 2 == 1
      invariant value == Shift(block, bit) && bit <= 64
      invariant forall k :: 0 <= k < bit ==> Bit(block, k)
      decreases value
    {
      ShiftNext(block, bit);
      value := value / 2;
      bit := bit + 1;
    }
    ShiftNext(block, bit);
    if bit == 64 {
      AllOnes(block, 64);
    }
  }

  lemma FullBits()
    ensures forall k :: 0 <= k < 64 ==> Bit(FULL, k)
  {
    BlockWidth();
    forall k | 0 <= k < 64
      ensures Bit(FULL, k)
    {
      OnesBits(64, k);
    }
  }
}
