/** Raw memory: bytes and little-endian words in them. */
module Bytes {

  type byte = x: int | 0 <= x < 256

  const WORD: nat := 0x1_0000_0000
  const WORD64: nat := 0x1_0000_0000_0000_0000

  function Min(a: nat, b: nat): nat
  {
    if a < b then a else b
  }

  function Zeros(n: nat): (r: seq<byte>)
    ensures |r| == n && forall i :: 0 <= i < n ==> r[i] == 0
  {
    seq(n, _ => 0)
  }

  function Number(a: int, b: int, c: int, d: int): int
  {
    a + 0x100 * (b + 0x100 * (c + 0x100 * d))
  }

  function Get32(m: seq<byte>, p: nat): (r: nat)
    requires p + 4 <= |m|
    ensures r < WORD
  {
    Number(m[p], m[p + 1], m[p + 2], m[p + 3])
  }

  function Get16(m: seq<byte>, p: nat): (r: nat)
    requires p + 2 <= |m|
    ensures r < 0x1_0000
  {
    Number(m[p], m[p + 1], 0, 0)
  }

  function Bytes16(v: nat): (r: seq<byte>)
    ensures |r| == 2
  {
    [v % 0x100, v / 0x100 % 0x100]
  }

  function Get64(m: seq<byte>, p: nat): nat
    requires p + 8 <= |m|
  {
    Get32(m, p) + WORD * Get32(m, p + 4)
  }

  function Bytes32(v: nat): (r: seq<byte>)
    ensures |r| == 4
  {
    [v % 0x100, v / 0x100 % 0x100, v / 0x100 / 0x100 % 0x100, v / 0x100 / 0x100 / 0x100 % 0x100]
  }

  function Put(m: seq<byte>, p: nat, b: seq<byte>): (r: seq<byte>)
    requires p + |b| <= |m|
    ensures |r| == |m|
    ensures forall a :: 0 <= a < |m| ==> r[a] == if p <= a < p + |b| then b[a - p] else m[a]
  {
    m[..p] + b + m[p + |b|..]
  }

  /** A store of a uint32_t keeps the value modulo 2^32. */
  function Put32(m: seq<byte>, p: nat, v: nat): (r: seq<byte>)
    requires p + 4 <= |m|
    ensures |r| == |m| && SameOutside(m, r, p, p + 4)
    ensures Get32(r, p) == v % WORD
  {
    Digits(v);
    Put(m, p, Bytes32(v))
  }

  lemma Digits(v: nat)
    ensures var b := Bytes32(v); Number(b[0], b[1], b[2], b[3]) == v % WORD
  {
    var x, y, z := v / 0x100, v / 0x100 / 0x100, v / 0x100 / 0x100 / 0x100;
    var n := Number(v % 0x100, x % 0x100, y % 0x100, z % 0x100);
    assert v == n + WORD * (z / 0x100);
    Remainder(v, z / 0x100, n);
  }

  lemma Remainder(v: nat, q: nat, r: nat)
    requires v == r + WORD * q && r < WORD
    ensures v % WORD == r && v / WORD == q
  {
  }

  ghost predicate SameOutside(m: seq<byte>, m': seq<byte>, lo: nat, hi: nat)
  {
    |m'| == |m| && forall a :: 0 <= a < |m| && !(lo <= a < hi) ==> m'[a] == m[a]
  }

  ghost predicate SameOn(m: seq<byte>, m': seq<byte>, lo: nat, hi: nat)
  {
    |m'| == |m| && forall a :: lo <= a < hi && a < |m| ==> m'[a] == m[a]
  }

  function Put64(m: seq<byte>, p: nat, v: nat): (r: seq<byte>)
    requires p + 8 <= |m| && v < WORD64
    ensures |r| == |m| && SameOutside(m, r, p, p + 8)
    ensures Get64(r, p) == v
  {
    var m1 := Put32(m, p, v);
    var m2 := Put32(m1, p + 4, v / WORD);
    assert Get32(m2, p) == Get32(m1, p);
    Halves(v);
    m2
  }

  lemma Halves(v: nat)
    requires v < WORD64
    ensures v % WORD + WORD * (v / WORD % WORD) == v
  {
    Remainder(v / WORD, 0, v / WORD);
  }

  ghost function LowFirst(a: int, b: int, c: int, d: int): int
  {
    a + 0x100 * b + 0x1_0000 * c + 0x100_0000 * d
  }

  /** Words lie in memory with their lowest byte first. */
  lemma LittleEndian(m: seq<byte>, p: nat, v: nat)
    requires p + 8 <= |m| && v < WORD64
    ensures Get16(m, p) == LowFirst(m[p], m[p + 1], 0, 0)
    ensures Get32(m, p) == LowFirst(m[p], m[p + 1], m[p + 2], m[p + 3])
    ensures Get64(m, p) == Get32(m, p) + 0x1_0000_0000 * Get32(m, p + 4)
    ensures Put32(m, p, v)[p..p + 4] == [v % 0x100, v / 0x100 % 0x100, v / 0x1_0000 % 0x100, v / 0x100_0000 % 0x100]
    ensures Put64(m, p, v)[p..p + 8] == Put32(m, p, v)[p..p + 4] + Put32(m, p, v / 0x1_0000_0000)[p..p + 4]
  {
    assert v / 0x100 / 0x100 == v / 0x1_0000 && v / 0x100 / 0x100 / 0x100 == v / 0x100_0000;
  }

  /** A slice of a slice. */
  lemma SliceOfSlice(w: seq<byte>, a: nat, n: nat, off: nat, k: nat)
    requires a + n <= |w| && off + k <= n
    ensures w[a..a + n][off..off + k] == w[a + off..a + off + k]
  {
    var x, y := w[a..a + n][off..off + k], w[a + off..a + off + k];
    forall i | 0 <= i < |x|
      ensures x[i] == y[i]
    {
      assert w[a..a + n][off + i] == w[a + off + i];
    }
  }
}
