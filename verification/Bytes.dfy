/** Bytes, big-endian integers and two's complement, as mpack.h loads and stores them. */
module Bytes {
  type byte = x: int | 0 <= x < 256

  datatype Option<+T> = None | Some(value: T)

  const TWO31: int := 0x8000_0000
  const TWO32: int := 0x1_0000_0000
  const TWO63: int := 0x8000_0000_0000_0000
  const TWO64: int := 0x1_0000_0000_0000_0000

  function Min(a: nat, b: nat): nat { if a < b then a else b }

  function Pow256(n: nat): (p: nat)
    ensures p > 0
  {
    if n == 0 then 1 else 256 * Pow256(n - 1)
  }

  lemma Pow256Values()
    ensures Pow256(1) == 256 && Pow256(2) == 0x1_0000 && Pow256(4) == TWO32 && Pow256(8) == TWO64
  {
    assert Pow256(2) == 256 * Pow256(1);
    assert Pow256(4) == 256 * (256 * Pow256(2));
    assert Pow256(6) == 256 * (256 * Pow256(4));
    assert Pow256(8) == 256 * (256 * Pow256(6));
  }

  /** Byte strings one after the other. */
  function Join(chunks: seq<seq<byte>>): seq<byte> {
    if chunks == [] then [] else chunks[0] + Join(chunks[1..])
  }

  /** The `n` bytes that store `v` (modulo 256^n), most significant first. */
  function Store(n: nat, v: nat): (s: seq<byte>)
    ensures |s| == n
  {
    if n == 0 then [] else Store(n - 1, v / 256) + [v % 256]
  }

  /** The most significant byte comes first. */
  lemma BigEndian(v: nat)
    ensures Store(1, v) == [v % 0x100]
    ensures Store(2, v) == [v / 0x100 % 0x100, v % 0x100]
    ensures Store(4, v) == [v / 0x100_0000 % 0x100, v / 0x1_0000 % 0x100, v / 0x100 % 0x100, v % 0x100]
    ensures Store(8, v) == Store(4, v / 0x1_0000_0000) + Store(4, v)
  {
    hide Store;
    var a, b, c, high := v / 0x100, v / 0x1_0000, v / 0x100_0000, v / 0x1_0000_0000;
    StoreFour(0, v);
    StoreFour(4, v);
    assert Store(0, a) == [] == Store(0, b) == Store(0, high) by {
      NoBytes(a);
      NoBytes(b);
      NoBytes(high);
    }
  }

  lemma NoBytes(v: nat)
    ensures Store(0, v) == []
  {
  }

  lemma StoreFour(n: nat, v: nat)
    ensures Store(n + 1, v) == Store(n, v / 0x100) + [v % 0x100]
    ensures Store(n + 2, v) == Store(n, v / 0x1_0000) + [v / 0x100 % 0x100, v % 0x100]
    ensures Store(n + 4, v) == Store(n, v / 0x1_0000_0000) +
                               [v / 0x100_0000 % 0x100, v / 0x1_0000 % 0x100, v / 0x100 % 0x100, v % 0x100]
  {
    var a, b, c := v / 0x100, v / 0x1_0000, v / 0x100_0000;
    assert a / 0x100 == b && b / 0x100 == c && c / 0x100 == v / 0x1_0000_0000;
    assert Store(n + 2, v) == Store(n + 1, a) + [v % 0x100] && Store(n + 1, a) == Store(n, b) + [a % 0x100];
    assert Store(n + 4, v) == Store(n + 3, a) + [v % 0x100] && Store(n + 3, a) == Store(n + 2, b) + [a % 0x100];
    assert Store(n + 2, b) == Store(n + 1, c) + [b % 0x100] && Store(n + 1, c) == Store(n, c / 0x100) + [c % 0x100];
  }

  /** The number that big-endian bytes denote. */
  function Load(s: seq<byte>): (v: nat)
    ensures v < Pow256(|s|)
  {
    if s == [] then 0 else Load(s[..|s| - 1]) * 256 + s[|s| - 1]
  }

  lemma {:induction false} LoadStore(n: nat, v: nat)
    requires v < Pow256(n)
    ensures Load(Store(n, v)) == v
  {
    if n > 0 {
      LoadStore(n - 1, v / 256);
      assert Store(n, v)[..n - 1] == Store(n - 1, v / 256);
    }
  }

  lemma {:induction false} StoreLoad(s: seq<byte>)
    ensures Store(|s|, Load(s)) == s
  {
    if s != [] {
      StoreLoad(s[..|s| - 1]);
      assert Load(s) / 256 == Load(s[..|s| - 1]) && Load(s) % 256 == s[|s| - 1];
    }
  }

  /** The `n`-byte two's complement reading of an unsigned value. */
  function Signed(n: nat, v: nat): int {
    if 2 * v >= Pow256(n) then v - Pow256(n) else v
  }

  predicate IsI32(v: int) { -TWO31 <= v < TWO31 }

  /** A cast from uint32_t to int, and back. */
  function AsI32(u: nat): int { if u < TWO31 then u else u - TWO32 }
  function AsU32(i: int): int { if i < 0 then i + TWO32 else i }
}
