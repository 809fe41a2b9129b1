/** Unsigned integers of fixed width and their little-endian byte image.
    The decoder reads fields with `*((uintN_t*) p)`, which on the supported
    (little-endian) hosts is the little-endian value of the bytes at `p`. */
module Bytes {

  type byte = x: int | 0 <= x < 0x100
  type u16 = x: int | 0 <= x < 0x1_0000
  type u32 = x: int | 0 <= x < 0x1_0000_0000
  type u64 = x: int | 0 <= x < 0x1_0000_0000_0000_0000

  /** 256 to the power n: one more than the largest value n bytes hold. */
  function Pow256(n: nat): (r: nat)
    ensures r >= 1
  {
    if n == 0 then 1 else 0x100 * Pow256(n - 1)
  }

  lemma Pow256Widths()
    ensures Pow256(1) == 0x100
    ensures Pow256(2) == 0x1_0000
    ensures Pow256(4) == 0x1_0000_0000
    ensures Pow256(8) == 0x1_0000_0000_0000_0000
  {
  }

  /** The value of `s` read as a little-endian unsigned integer. */
  function FromLittleEndian(s: seq<byte>): (r: nat)
    ensures r < Pow256(|s|)
  {
    if |s| == 0 then 0
    else
      var rest := FromLittleEndian(s[1..]);
      assert s[0] + 0x100 * rest <= 0xFF + 0x100 * (Pow256(|s| - 1) - 1);
      s[0] + 0x100 * rest
  }

  /** The n-byte little-endian image of `x` (the low n bytes of x). */
  function ToLittleEndian(x: nat, n: nat): (r: seq<byte>)
    ensures |r| == n
  {
    if n == 0 then [] else [x % 0x100] + ToLittleEndian(x / 0x100, n - 1)
  }

  /** Writing a value that fits in n bytes and reading it back gives the value. */
  lemma {:induction false} ReadAfterWrite(x: nat, n: nat)
    requires x < Pow256(n)
    ensures FromLittleEndian(ToLittleEndian(x, n)) == x
  {
    if n > 0 {
      var s := ToLittleEndian(x, n);
      assert s[1..] == ToLittleEndian(x / 0x100, n - 1);
      ReadAfterWrite(x / 0x100, n - 1);
    }
  }

  /** Reading n bytes and writing the value back gives the same bytes. */
  lemma {:induction false} WriteAfterRead(s: seq<byte>)
    ensures ToLittleEndian(FromLittleEndian(s), |s|) == s
  {
    if |s| > 0 {
      var v := FromLittleEndian(s);
      var rest := FromLittleEndian(s[1..]);
      assert v % 0x100 == s[0] && v / 0x100 == rest;
      WriteAfterRead(s[1..]);
    }
  }

  /** Little-endian values compose: the value of `t` is the value of its
      first `n` bytes plus 256^n times the value of the rest. */
  lemma {:induction false} FromLittleEndianSplit(t: seq<byte>, n: nat)
    requires n <= |t|
    ensures FromLittleEndian(t) == FromLittleEndian(t[..n]) + Pow256(n) * FromLittleEndian(t[n..])
    decreases n
  {
    if n == 0 {
      assert t[..0] == [] && t[0..] == t;
    } else {
      var u := t[1..];
      FromLittleEndianSplit(u, n - 1);
      assert t[..n][1..] == u[..n - 1];
      assert u[n - 1..] == t[n..];
      var a := FromLittleEndian(u[..n - 1]);
      var x := FromLittleEndian(t[n..]);
      var p := Pow256(n - 1);
      assert FromLittleEndian(t) == t[0] + 0x100 * (a + p * x);
      assert FromLittleEndian(t[..n]) == t[0] + 0x100 * a;
      assert Pow256(n) == 0x100 * p;
      Regroup(a, p, x);
    }
  }

  lemma Regroup(a: int, p: int, x: int)
    ensures 0x100 * (a + p * x) == 0x100 * a + (0x100 * p) * x
  {
  }

  /** `*((uint16_t*) (s + at))`. */
  function Le16(s: seq<byte>, at: nat): (r: u16)
    requires at + 2 <= |s|
  {
    s[at] as int + 0x100 * s[at + 1] as int
  }

  /** `*((uint32_t*) (s + at))`: two 16-bit halves, low half first. */
  function Le32(s: seq<byte>, at: nat): (r: u32)
    requires at + 4 <= |s|
  {
    Le16(s, at) as int + 0x1_0000 * Le16(s, at + 2) as int
  }

  /** `*((uint64_t*) (s + at))`: two 32-bit halves, low half first. */
  function Le64(s: seq<byte>, at: nat): (r: u64)
    requires at + 8 <= |s|
  {
    Le32(s, at) as int + 0x1_0000_0000 * Le32(s, at + 4) as int
  }

  /** The fixed-width reads are the little-endian values of the bytes read. */
  lemma Le16IsLittleEndian(s: seq<byte>, at: nat)
    requires at + 2 <= |s|
    ensures Le16(s, at) == FromLittleEndian(s[at..at + 2])
  {
    var t := s[at..at + 2];
    assert t[1..][1..] == [];
  }

  lemma Le32IsLittleEndian(s: seq<byte>, at: nat)
    requires at + 4 <= |s|
    ensures Le32(s, at) == FromLittleEndian(s[at..at + 4])
  {
    var t := s[at..at + 4];
    FromLittleEndianSplit(t, 2);
    assert t[..2] == s[at..at + 2] && t[2..] == s[at + 2..at + 4];
    Le16IsLittleEndian(s, at);
    Le16IsLittleEndian(s, at + 2);
    Pow256Widths();
  }

  lemma Le64IsLittleEndian(s: seq<byte>, at: nat)
    requires at + 8 <= |s|
    ensures Le64(s, at) == FromLittleEndian(s[at..at + 8])
  {
    var t := s[at..at + 8];
    FromLittleEndianSplit(t, 4);
    assert t[..4] == s[at..at + 4] && t[4..] == s[at + 4..at + 8];
    Le32IsLittleEndian(s, at);
    Le32IsLittleEndian(s, at + 4);
    Pow256Widths();
  }

  /** A run of n zero bytes: a freshly resized `std::vector<char>`. */
  function Zeros(n: nat): (r: seq<byte>)
    ensures |r| == n
    ensures forall i :: 0 <= i < n ==> r[i] == 0
  {
    seq(n, _ => 0)
  }
}
