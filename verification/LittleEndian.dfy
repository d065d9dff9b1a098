/** Little-endian byte strings, as `to_le_bytes` and the register stores of the
    AHCI driver lay integers out in memory. */
module LittleEndian {

  type Byte = x: int | 0 <= x < 256

  function Pow256(k: nat): (p: nat)
    ensures p > 0
  {
    if k == 0 then 1 else 256 * Pow256(k - 1)
  }

  /** The `k` low bytes of `n`, least significant first. */
  function ToLe(n: nat, k: nat): (s: seq<Byte>)
    ensures |s| == k
  {
    if k == 0 then [] else [n % 256] + ToLe(n / 256, k - 1)
  }

  /** The value of a byte string in base 256. */
  function FromLe(s: seq<Byte>): nat {
    if s == [] then 0 else s[0] + 256 * FromLe(s[1..])
  }

  lemma {:induction false} FromLeToLe(n: nat, k: nat)
    requires n < Pow256(k)
    ensures FromLe(ToLe(n, k)) == n
  {
    if k > 0 {
      FromLeToLe(n / 256, k - 1);
      assert ToLe(n, k)[1..] == ToLe(n / 256, k - 1);
    }
  }

  lemma {:induction false} FromLeConcat(a: seq<Byte>, b: seq<Byte>)
    ensures FromLe(a + b) == FromLe(a) + Pow256(|a|) * FromLe(b)
  {
    if a == [] {
      assert a + b == b;
    } else {
      assert (a + b)[1..] == a[1..] + b;
      FromLeConcat(a[1..], b);
      MulAssociates(256, Pow256(|a| - 1), FromLe(b));
    }
  }

  lemma MulAssociates(x: nat, y: nat, z: nat)
    ensures (x * y) * z == x * (y * z)
  {
  }

  /** The `k`-byte integer at `o`. */
  function Load(mem: seq<Byte>, o: nat, k: nat): nat
    requires o + k <= |mem|
  {
    FromLe(mem[o..o + k])
  }

  lemma LoadFrame(a: seq<Byte>, b: seq<Byte>, o: nat, k: nat)
    requires |a| == |b| && o + k <= |a|
    requires forall i :: o <= i < o + k ==> a[i] == b[i]
    ensures Load(a, o, k) == Load(b, o, k)
  {
    assert a[o..o + k] == b[o..o + k];
  }

  /** Stores the `k` low bytes of `n` at `o`. */
  method Store(mem: array<Byte>, o: nat, n: nat, k: nat)
    requires o + k <= mem.Length
    modifies mem
    ensures n < Pow256(k) ==> Load(mem[..], o, k) == n
    ensures mem[o..o + k] == ToLe(n, k)
    ensures forall i :: 0 <= i < mem.Length && !(o <= i < o + k) ==> mem[i] == old(mem[i])
  {
    var bytes := ToLe(n, k);
    forall i | o <= i < o + k {
      mem[i] := bytes[i - o];
    }
    assert mem[o..o + k] == bytes == mem[..][o..o + k];
    if n < Pow256(k) {
      FromLeToLe(n, k);
    }
  }
}
