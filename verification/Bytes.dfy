/** Machine integers, big-endian encodings and the splice that every byte-addressed write performs. */
module Bytes {

  type byte = x: int | 0 <= x < 0x100
  type u16 = x: int | 0 <= x < 0x1_0000
  type u32 = x: int | 0 <= x < 0x1_0000_0000
  type u64 = x: int | 0 <= x < 0x1_0000_0000_0000_0000

  const TWO32 := 0x1_0000_0000

  function Min(a: int, b: int): int {
    if a <= b then a else b
  }

  function Max(a: int, b: int): int {
    if a <= b then b else a
  }

  // -- Big-endian integers ---------------------------------------------------

  function Be16(v: u16): (s: seq<byte>)
    ensures |s| == 2
  {
    [v / 0x100, v % 0x100]
  }

  function Be32(v: u32): (s: seq<byte>)
    ensures |s| == 4
  {
    var hi, lo := v / 0x1_0000, v % 0x1_0000;
    [hi / 0x100, hi % 0x100, lo / 0x100, lo % 0x100]
  }

  function Be64(v: u64): (s: seq<byte>)
    ensures |s| == 8
  {
    Be32(v / 0x1_0000_0000) + Be32(v % 0x1_0000_0000)
  }

  function FromBe16(s: seq<byte>): u16
    requires |s| == 2
  {
    0x100 * (s[0] as int) + s[1] as int
  }

  function FromBe32(s: seq<byte>): u32
    requires |s| == 4
  {
    0x100_0000 * (s[0] as int) + 0x1_0000 * (s[1] as int) + 0x100 * (s[2] as int) + s[3] as int
  }

  function FromBe64(s: seq<byte>): u64
    requires |s| == 8
  {
    0x1_0000_0000 * (FromBe32(s[..4]) as int) + FromBe32(s[4..]) as int
  }

  lemma Be32RoundTrip(v: u32)
    ensures FromBe32(Be32(v)) == v
  {
    var hi, lo := v / 0x1_0000, v % 0x1_0000;
    assert hi == 0x100 * (hi / 0x100) + hi % 0x100 && lo == 0x100 * (lo / 0x100) + lo % 0x100;
  }

  lemma Be32Of(d: seq<byte>)
    requires |d| == 4
    ensures Be32(FromBe32(d)) == d
  {
    var hi, lo := 0x100 * (d[0] as int) + d[1] as int, 0x100 * (d[2] as int) + d[3] as int;
    assert FromBe32(d) / 0x1_0000 == hi && FromBe32(d) % 0x1_0000 == lo;
  }

  lemma Be64RoundTrip(v: u64)
    ensures FromBe64(Be64(v)) == v
  {
    var hi, lo := v / 0x1_0000_0000, v % 0x1_0000_0000;
    assert Be64(v)[..4] == Be32(hi) && Be64(v)[4..] == Be32(lo);
    Be32RoundTrip(hi);
    Be32RoundTrip(lo);
  }

  // -- Byte strings ----------------------------------------------------------

  function Zeros(n: nat): (s: seq<byte>)
    ensures |s| == n
    ensures forall i :: 0 <= i < n ==> s[i] == 0
  {
    seq(n, _ => 0)
  }

  /** A concatenation comes apart where it was joined. */
  lemma Parted(a: seq<byte>, b: seq<byte>)
    ensures (a + b)[..|a|] == a && (a + b)[|a|..] == b
  {
  }

  lemma SubSlice(s: seq<byte>, a: nat, b: nat, x: nat, y: nat)
    requires a <= b <= |s| && x <= y <= b - a
    ensures s[a..b][x..y] == s[a + x..a + y]
  {
    var t := s[a..b];
    forall i | 0 <= i < y - x
      ensures t[x..y][i] == s[a + x..a + y][i]
    {
    }
    assert |t[x..y]| == |s[a + x..a + y]|;
  }

  /** `s` with the bytes from `at` on replaced by `d`; the length does not change. */
  function Splice(s: seq<byte>, at: nat, d: seq<byte>): (r: seq<byte>)
    requires at + |d| <= |s|
    ensures |r| == |s|
    ensures forall i :: 0 <= i < |s| ==> r[i] == if at <= i < at + |d| then d[i - at] else s[i]
  {
    s[..at] + d + s[at + |d|..]
  }
}
