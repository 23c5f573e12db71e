/** Bytes and the fixed-width little-endian unsigned integers of the skin header. */
module Bytes {

  type uint8 = b: int | 0 <= b < 256

  /** 256 to the power n: one more than the largest n-byte unsigned value. */
  function Pow256(n: nat): (r: nat)
    ensures r >= 1
  {
    if n == 0 then 1 else 256 * Pow256(n - 1)
  }

  /** The unsigned value of b read least significant byte first, as the `<H` and `<I`
      formats of Python's struct module read it. */
  function FromLittleEndian(b: seq<uint8>): (r: nat)
    ensures r < Pow256(|b|)
  {
    if |b| == 0 then 0 else b[0] + 256 * FromLittleEndian(b[1..])
  }

  /** The width-byte little-endian encoding of x (x is taken modulo 256^width). */
  function ToLittleEndian(x: nat, width: nat): (r: seq<uint8>)
    ensures |r| == width
  {
    if width == 0 then [] else [x % 256] + ToLittleEndian(x / 256, width - 1)
  }

  /** Encoding a value that fits in width bytes and reading it back gives the value. */
  lemma {:induction false} FromToLittleEndian(x: nat, width: nat)
    requires x < Pow256(width)
    ensures FromLittleEndian(ToLittleEndian(x, width)) == x
  {
    if width > 0 {
      var r := ToLittleEndian(x, width);
      assert r[1..] == ToLittleEndian(x / 256, width - 1);
      FromToLittleEndian(x / 256, width - 1);
    }
  }

  /** Every byte string is the encoding of the value it denotes. */
  lemma {:induction false} ToFromLittleEndian(b: seq<uint8>)
    ensures ToLittleEndian(FromLittleEndian(b), |b|) == b
  {
    if |b| > 0 {
      var x := FromLittleEndian(b);
      var rest := FromLittleEndian(b[1..]);
      assert x % 256 == b[0] && x / 256 == rest;
      ToFromLittleEndian(b[1..]);
      assert b == [b[0]] + b[1..];
    }
  }

  /** n zero bytes: the padding of a fixed-width text field. */
  function Zeros(n: nat): (r: seq<uint8>)
    ensures |r| == n
    ensures forall i :: 0 <= i < n ==> r[i] == 0
  {
    seq(n, _ => 0)
  }
}
