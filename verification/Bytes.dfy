/** Bytes and the big-endian loads and stores of sysdep.h. */
module Bytes {

  newtype byte = x: int | 0 <= x < 256

  /** 256 to the power k: the number of values of a k-byte field. */
  function Pow256(k: nat): (r: nat)
    ensures r > 0
  {
    if k == 0 then 1 else 256 * Pow256(k - 1)
  }

  lemma PowValues()
    ensures Pow256(1) == 0x100
    ensures Pow256(2) == 0x1_0000
    ensures Pow256(4) == 0x1_0000_0000
    ensures Pow256(8) == 0x1_0000_0000_0000_0000
  {
    assert Pow256(3) == 0x100_0000;
    assert Pow256(5) == 256 * Pow256(4);
    assert Pow256(6) == 256 * Pow256(5);
    assert Pow256(7) == 256 * Pow256(6);
  }

  /** The unsigned value of a big-endian field. */
  function Load(s: seq<byte>): (n: nat)
    ensures n < Pow256(|s|)
  {
    if s == [] then 0 else Load(s[..|s| - 1]) * 256 + s[|s| - 1] as int
  }

  /** The big-endian field of k bytes that holds n. */
  function Store(n: nat, k: nat): (s: seq<byte>)
    requires n < Pow256(k)
    ensures |s| == k && Load(s) == n
  {
    if k == 0 then [] else Store(n / 256, k - 1) + [(n % 256) as byte]
  }

  /** The bytes in front count Pow256 of the number behind them: the first byte is the most significant one. */
  lemma {:induction false} LoadConcat(a: seq<byte>, b: seq<byte>)
    ensures Load(a + b) == Load(a) * Pow256(|b|) + Load(b)
  {
    if b == [] {
      assert a + b == a;
    } else {
      var c := b[..|b| - 1];
      assert (a + b)[..|a + b| - 1] == a + c;
      LoadConcat(a, c);
      Horner(Load(a), Pow256(|c|), Load(c), b[|b| - 1] as int);
    }
  }

  lemma Horner(x: nat, p: nat, y: nat, z: nat)
    ensures (x * p + y) * 256 + z == x * (256 * p) + (y * 256 + z)
  {
  }

  lemma LoadTwo(a: byte, b: byte)
    ensures Load([a, b]) == a as int * 0x100 + b as int
  {
    PowValues();
    LoadConcat([a], [b]);
    assert [a] + [b] == [a, b];
  }

  lemma LoadFour(a: byte, b: byte, c: byte, d: byte)
    ensures Load([a, b, c, d]) == a as int * 0x100_0000 + b as int * 0x1_0000 + c as int * 0x100 + d as int
  {
    PowValues();
    LoadTwo(a, b);
    LoadTwo(c, d);
    LoadConcat([a, b], [c, d]);
    assert [a, b] + [c, d] == [a, b, c, d];
  }

  /** Storing what was loaded gives the same bytes back. */
  lemma {:induction false} StoreLoad(s: seq<byte>)
    ensures Store(Load(s), |s|) == s
  {
    if s != [] {
      StoreLoad(s[..|s| - 1]);
    }
  }

  /** The two's complement reading of an unsigned k-byte value, as the casts to int8_t .. int64_t make it. */
  function Signed(n: nat, k: nat): int
  {
    if 2 * n < Pow256(k) then n else n - Pow256(k)
  }

  /** The unsigned k-byte value that represents v in two's complement. */
  function Unsigned(v: int, k: nat): (n: nat)
    requires 0 <= 2 * v + Pow256(k) < 2 * Pow256(k)
    ensures n < Pow256(k) && Signed(n, k) == v
  {
    if v >= 0 then v else v + Pow256(k)
  }
}
