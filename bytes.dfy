/** Bytes, 32-bit words and the little-endian layout `binary_rw` writes with
    `Endian::Little`. */
module Bytes {

  type byte = x: int | 0 <= x < 0x100

  type u32 = x: int | 0 <= x < 0x1_0000_0000

  /** 256 to the power `w`: the number of values `w` bytes can hold. */
  function Pow256(w: nat): (r: nat)
    ensures r >= 1
  {
    if w == 0 then 1 else 256 * Pow256(w - 1)
  }

  /** The `w` low-order bytes of `v`, least significant first. A value too
      wide for `w` bytes keeps only its low-order bytes, which is what an
      `as u32` cast followed by a 4-byte write does. */
  function LittleEndian(v: nat, w: nat): (r: seq<byte>)
    ensures |r| == w
  {
    if w == 0 then [] else [v % 256] + LittleEndian(v / 256, w - 1)
  }

  /** The number whose little-endian bytes are `b`. */
  function FromLittleEndian(b: seq<byte>): nat {
    if b == [] then 0 else b[0] + 256 * FromLittleEndian(b[1..])
  }

  /** Reading back `w` written bytes gives the value modulo `256^w`; a value
      that fits comes back unchanged. */
  lemma {:induction false} LittleEndianRoundTrip(v: nat, w: nat)
    ensures FromLittleEndian(LittleEndian(v, w)) == v % Pow256(w)
  {
    if w > 0 {
      var p := Pow256(w - 1);
      LittleEndianRoundTrip(v / 256, w - 1);
      assert LittleEndian(v, w)[1..] == LittleEndian(v / 256, w - 1);
      ModSplit(v, p);
    }
  }

  /** `v mod 256p` splits into its low byte and the rest. */
  lemma ModSplit(v: nat, p: nat)
    requires p >= 1
    ensures v % (256 * p) == v % 256 + 256 * ((v / 256) % p)
  {
    var q := v / 256;
    assert v == 256 * q + v % 256;
    assert q == p * (q / p) + q % p;
    assert v == 256 * p * (q / p) + (256 * (q % p) + v % 256);
    var r := 256 * (q % p) + v % 256;
    assert 0 <= r < 256 * p;
    DivModUnique(v, 256 * p, q / p, r);
  }

  /** Euclidean division has one quotient and one remainder. */
  lemma DivModUnique(n: int, d: int, q: int, r: int)
    requires d > 0 && 0 <= r < d && n == d * q + r
    ensures n / d == q && n % d == r
  {
    var q' := n / d;
    if q' < q {
      MulLeq(d, q' + 1, q);
    } else if q' > q {
      MulLeq(d, q + 1, q');
    }
  }

  lemma MulLeq(d: int, a: int, b: int)
    requires d >= 0 && a <= b
    ensures d * a <= d * b
  {
  }

  /** The four bytes `write_u32` emits. */
  function U32Le(v: u32): (r: seq<byte>)
    ensures |r| == 4
  {
    LittleEndian(v, 4)
  }

  /** A `u32` written with `U32Le` reads back unchanged. */
  lemma U32LeRoundTrip(v: u32)
    ensures FromLittleEndian(U32Le(v)) == v
  {
    LittleEndianRoundTrip(v, 4);
  }
}
