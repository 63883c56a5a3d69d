/**
 * Little-endian packing of unsigned integers, as done by Python's
 * `struct.pack` with the formats "B" (one byte), "<H" (two bytes) and
 * "<I" (four bytes).  `struct.pack` raises `struct.error` for a value that
 * does not fit the format; here that is the `None` result of `Pack`.
 */
module LittleEndian {
  import opened Options

  type byte = x: int | 0 <= x < 256

  /** Widths, in bytes, of the three formats the writer uses. */
  const U8: nat := 1
  const U16: nat := 2
  const U32: nat := 4

  /** 256^n: the number of distinct values an n-byte unsigned field holds. */
  function Pow256(n: nat): (r: nat)
    ensures r >= 1
    ensures n > 0 ==> r >= 256
  {
    if n == 0 then 1 else 256 * Pow256(n - 1)
  }

  lemma Pow256Values()
    ensures Pow256(U8) == 0x100
    ensures Pow256(U16) == 0x1_0000
    ensures Pow256(U32) == 0x1_0000_0000
  {
  }

  /** The n low-order base-256 digits of x, least significant first. */
  function ToLE(x: nat, n: nat): (r: seq<byte>)
    ensures |r| == n
  {
    if n == 0 then [] else [x % 256] + ToLE(x / 256, n - 1)
  }

  /** The unsigned value of a little-endian byte string. */
  function FromLE(s: seq<byte>): (r: nat)
    ensures r < Pow256(|s|)
  {
    if s == [] then 0 else s[0] + 256 * FromLE(s[1..])
  }

  /** Decoding an encoded value gives the value back, when it fits. */
  lemma {:induction false} FromToLE(x: nat, n: nat)
    requires x < Pow256(n)
    ensures FromLE(ToLE(x, n)) == x
  {
    if n > 0 {
      FromToLE(x / 256, n - 1);
      assert ToLE(x, n)[1..] == ToLE(x / 256, n - 1);
    }
  }

  /** Encoding a decoded byte string at its own width gives the bytes back. */
  lemma {:induction false} ToFromLE(s: seq<byte>)
    ensures ToLE(FromLE(s), |s|) == s
  {
    if s != [] {
      ToFromLE(s[1..]);
      var x := FromLE(s);
      assert x % 256 == s[0] && x / 256 == FromLE(s[1..]);
    }
  }

  /** An n-byte field holds exactly one encoding of each value that fits. */
  lemma EncodingUnique(x: nat, s: seq<byte>)
    requires FromLE(s) == x
    ensures s == ToLE(x, |s|)
  {
    ToFromLE(s);
  }

  /** `struct.pack` of x into an n-byte little-endian unsigned field. */
  function Pack(x: int, n: nat): (r: Option<seq<byte>>)
    ensures r.Some? <==> 0 <= x < Pow256(n)
    ensures r.Some? ==> |r.value| == n && FromLE(r.value) == x
  {
    if 0 <= x < Pow256(n) then
      FromToLE(x, n);
      Some(ToLE(x, n))
    else
      None
  }
}
