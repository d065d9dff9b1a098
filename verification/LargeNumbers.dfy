/** 256-bit and 512-bit unsigned integers as two limbs each: a 256-bit number is two 128-bit limbs, a
    512-bit number is two 256-bit limbs, and the carry chain of the wider one runs on that of the narrower. */
module LargeNumbers {
  import opened LittleEndian

  type Limb = x: int | 0 <= x < M128
  type U256 = s: seq<Limb> | |s| == 2 witness [0, 0]

  const ZERO: U256 := [0, 0]
  type U512 = s: seq<U256> | |s| == 2 witness [ZERO, ZERO]

  const M128: int := 0x1_0000_0000_0000_0000_0000_0000_0000_0000
  const M256: int := Times128(M128)
  const M512: int := Times128(Times128(M256))

  /** `v` shifted by one limb. */
  function Times128(v: int): int {
    0x1_0000_0000_0000_0000_0000_0000_0000_0000 * v
  }

  /** `v` reduced modulo 2^512, for sums and differences of two 512-bit values. */
  function Wrap(v: int): int {
    if v < 0 then v + M512 else if v >= M512 then v - M512 else v
  }

  lemma WrapIsMod(v: int)
    requires -M512 <= v < 2 * M512
    ensures Wrap(v) == v % M512
  {
  }

  datatype Ordering = Less | Equal | Greater

  function Val256(a: U256): (v: int)
    ensures 0 <= v < M256
  {
    a[0] as int + Times128(a[1] as int)
  }

  function Val512(a: U512): (v: int)
    ensures 0 <= v < M512
  {
    Val256(a[0]) + Times128(Times128(Val256(a[1])))
  }

  lemma Val256Injective(a: U256, b: U256)
    requires Val256(a) == Val256(b)
    ensures a == b
  {
    assert a[0] == b[0] && a[1] == b[1];
  }

  /** Equal values are equal limbs. */
  lemma ValInjective(a: U512, b: U512)
    requires Val512(a) == Val512(b)
    ensures a == b
  {
    hide Val256;
    assert Val256(a[1]) == Val256(b[1]) && Val256(a[0]) == Val256(b[0]);
    Val256Injective(a[0], b[0]);
    Val256Injective(a[1], b[1]);
  }

  function From128(x: Limb): (r: U256)
    ensures Val256(r) == x
  {
    [x, 0]
  }

  function From256(x: U256): (r: U512)
    ensures Val512(r) == Val256(x)
  {
    [x, From128(0)]
  }

  /** `u128::overflowing_add`. */
  function AddLimb(x: Limb, y: Limb): (Limb, bool) {
    var sum := x as int + y as int;
    if sum < M128 then (sum, false) else (sum - M128, true)
  }

  /** `u128::overflowing_sub`. */
  function SubLimb(x: Limb, y: Limb): (Limb, bool) {
    var difference := x as int - y as int;
    if difference >= 0 then (difference, false) else (difference + M128, true)
  }

  // ----- 256 bits -----

  method OverflowingAdd256(a: U256, b: U256) returns (r: U256, overflow: bool)
    ensures Val256(r) + (if overflow then M256 else 0) == Val256(a) + Val256(b)
  {
    var out: U256 := ZERO;
    var carry: Limb := 0;
    for i := 0 to 2
      invariant carry <= 1 && (i == 0 ==> carry == 0)
      invariant i == 1 ==> out[0] as int + Times128(carry as int) == a[0] as int + b[0] as int
      invariant i == 2 ==> Val256(out) + (if carry == 1 then M256 else 0) == Val256(a) + Val256(b)
    {
      var (sum, o1) := AddLimb(a[i], b[i]);
      var (total, o2) := AddLimb(sum, carry);
      carry := if o1 || o2 then 1 else 0;
      out := out[i := total];
    }
    return out, carry != 0;
  }

  /** The borrow flag says that the subtrahend is larger, exactly as `cmp` does. */
  method OverflowingSub256(a: U256, b: U256) returns (r: U256, borrow: bool)
    ensures Val256(r) - (if borrow then M256 else 0) == Val256(a) - Val256(b)
    ensures borrow <==> Cmp256(a, b) == Less
  {
    var out: U256 := ZERO;
    var carry: Limb := 0;
    for i := 0 to 2
      invariant carry <= 1 && (i == 0 ==> carry == 0)
      invariant i == 1 ==> out[0] as int - Times128(carry as int) == a[0] as int - b[0] as int
      invariant i == 2 ==> Val256(out) - (if carry == 1 then M256 else 0) == Val256(a) - Val256(b)
    {
      var (difference, o1) := SubLimb(a[i], b[i]);
      var (total, o2) := SubLimb(difference, carry);
      carry := if o1 || o2 then 1 else 0;
      out := out[i := total];
    }
    return out, carry != 0;
  }

  method Not256(a: U256) returns (r: U256)
    ensures Val256(r) == M256 - 1 - Val256(a)
  {
    var out: U256 := ZERO;
    for i := 0 to 2
      invariant i > 0 ==> out[0] as int == M128 - 1 - a[0] as int
      invariant i > 1 ==> out[1] as int == M128 - 1 - a[1] as int
    {
      out := out[i := M128 - 1 - a[i] as int];
    }
    return out;
  }

  method Neg256(a: U256) returns (r: U256)
    ensures Val256(r) == if Val256(a) == 0 then 0 else M256 - Val256(a)
  {
    var flipped := Not256(a);
    var sum, _ := OverflowingAdd256(flipped, From128(1));
    return sum;
  }

  function Cmp256(a: U256, b: U256): (r: Ordering)
    ensures r == Less <==> Val256(a) < Val256(b)
    ensures r == Equal <==> Val256(a) == Val256(b)
  {
    if a[1] > b[1] then Greater
    else if a[1] < b[1] then Less
    else if a[0] > b[0] then Greater
    else if a[0] < b[0] then Less
    else Equal
  }

  // ----- 512 bits, on the carry chain of 256 -----

  method Add512(a: U512, b: U512) returns (r: U512)
    ensures Val512(r) == Wrap(Val512(a) + Val512(b))
  {
    var out: U512 := [ZERO, ZERO];
    var carry: Limb := 0;
    for i := 0 to 2
      invariant carry <= 1 && (i == 0 ==> carry == 0)
      invariant i == 1 ==> Val256(out[0]) + (if carry == 1 then M256 else 0) == Val256(a[0]) + Val256(b[0])
      invariant i == 2 ==> Val512(out) + (if carry == 1 then M512 else 0) == Val512(a) + Val512(b)
    {
      var sum, o1 := OverflowingAdd256(a[i], b[i]);
      var total, o2 := OverflowingAdd256(sum, From128(carry));
      carry := if o1 || o2 then 1 else 0;
      out := out[i := total];
    }
    return out;
  }

  method Sub512(a: U512, b: U512) returns (r: U512)
    ensures Val512(r) == Wrap(Val512(a) - Val512(b))
  {
    var out: U512 := [ZERO, ZERO];
    var carry: Limb := 0;
    for i := 0 to 2
      invariant carry <= 1 && (i == 0 ==> carry == 0)
      invariant i == 1 ==> Val256(out[0]) - (if carry == 1 then M256 else 0) == Val256(a[0]) - Val256(b[0])
      invariant i == 2 ==> Val512(out) - (if carry == 1 then M512 else 0) == Val512(a) - Val512(b)
    {
      var difference, o1 := OverflowingSub256(a[i], b[i]);
      var total, o2 := OverflowingSub256(difference, From128(carry));
      carry := if o1 || o2 then 1 else 0;
      out := out[i := total];
    }
    return out;
  }

  method Neg512(a: U512) returns (r: U512)
    ensures Wrap(Val512(r) + Val512(a)) == 0
  {
    var out: U512 := [ZERO, ZERO];
    for i := 0 to 2
      invariant i > 0 ==> Val256(out[0]) == M256 - 1 - Val256(a[0])
      invariant i > 1 ==> Val256(out[1]) == M256 - 1 - Val256(a[1])
    {
      var flipped := Not256(a[i]);
      out := out[i := flipped];
    }
    assert Val512(out) == M512 - 1 - Val512(a);
    r := Add512(out, From256(From128(1)));
  }

  function Cmp512(a: U512, b: U512): (r: Ordering)
    ensures r == Less <==> Val512(a) < Val512(b)
    ensures r == Equal <==> Val512(a) == Val512(b)
  {
    if Cmp256(a[1], b[1]) == Greater then Greater
    else if Cmp256(a[1], b[1]) == Less then Less
    else if Cmp256(a[0], b[0]) == Greater then Greater
    else if Cmp256(a[0], b[0]) == Less then Less
    else Equal
  }

  /** What was added can be taken away again, and taking away is adding the negative. */
  method AddSubNeg(a: U512, b: U512) returns (back: U512, viaNeg: U512, direct: U512)
    ensures back == a && viaNeg == direct
  {
    var sum := Add512(a, b);
    back := Sub512(sum, b);
    var minus := Neg512(b);
    viaNeg := Add512(a, minus);
    direct := Sub512(a, b);
    ValInjective(back, a);
    ValInjective(viaNeg, direct);
  }

  // ----- little-endian bytes -----

  lemma Pow256Product(j: nat, k: nat)
    ensures Pow256(j + k) == Pow256(j) * Pow256(k)
  {
    if j > 0 {
      Pow256Product(j - 1, k);
      MulAssociates(256, Pow256(j - 1), Pow256(k));
    }
  }

  lemma Pow256Values()
    ensures Pow256(16) == M128 && Pow256(32) == M256
  {
    assert Pow256(2) == 0x1_0000;
    Pow256Product(2, 2);
    Pow256Product(4, 4);
    Pow256Product(8, 8);
    Pow256Product(16, 16);
  }

  function ToLeBytes256(a: U256): (out: seq<Byte>)
    ensures |out| == 32 && FromLe(out) == Val256(a)
  {
    Pow256Values();
    FromLeToLe(a[0], 16);
    FromLeToLe(a[1], 16);
    FromLeConcat(ToLe(a[0], 16), ToLe(a[1], 16));
    ToLe(a[0], 16) + ToLe(a[1], 16)
  }

  function ToLeBytes512(a: U512): (out: seq<Byte>)
    ensures |out| == 64 && FromLe(out) == Val512(a)
  {
    Pow256Values();
    FromLeConcat(ToLeBytes256(a[0]), ToLeBytes256(a[1]));
    ToLeBytes256(a[0]) + ToLeBytes256(a[1])
  }
}
