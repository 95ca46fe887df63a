/** Bytes, 16-bit words and the little-endian layout of the records in the index files. */
module Bytes {

  type byte = x: int | 0 <= x < 0x100
  type u16 = x: int | 0 <= x < 0x1_0000

  const U16: nat := 0x1_0000
  const U32: nat := 0x1_0000_0000
  const U64: nat := 0x1_0000_0000_0000_0000

  /** Number of values `n` bytes can hold. */
  function Range(n: nat): (r: nat)
    ensures r > 0
  {
    if n == 0 then 1 else 256 * Range(n - 1)
  }

  /** The low `n` bytes of `v`, least significant first. */
  function Encode(v: nat, n: nat): (s: seq<byte>)
    ensures |s| == n
  {
    if n == 0 then [] else [v % 256] + Encode(v / 256, n - 1)
  }

  function Decode(s: seq<byte>): (v: nat)
  {
    if s == [] then 0 else s[0] + 256 * Decode(s[1..])
  }

  lemma {:induction false} DecodeEncode(v: nat, n: nat)
    requires v < Range(n)
    ensures Decode(Encode(v, n)) == v
  {
    if n > 0 {
      assert Encode(v, n)[1..] == Encode(v / 256, n - 1);
      DecodeEncode(v / 256, n - 1);
    }
  }

  /** The least significant byte comes first. */
  lemma LeastFirst(v: nat, n: nat)
    requires n > 0
    ensures Encode(v, n)[0] == v % 256 && Encode(v, n)[1..] == Encode(v / 256, n - 1)
  {
  }

  lemma Ranges()
    ensures Range(1) == 0x100 && Range(2) == U16 && Range(4) == U32 && Range(8) == U64
  {
    assert Range(3) == 0x100_0000;
    assert Range(5) == 0x100_0000_0000;
    assert Range(6) == 0x1_0000_0000_0000;
    assert Range(7) == 0x100_0000_0000_0000;
  }

  /** Two little-endian bytes of `s` at `at`. */
  function Word(s: seq<byte>, at: nat): (w: u16)
    requires at + 2 <= |s|
  {
    s[at] as int + 256 * (s[at + 1] as int)
  }
}
