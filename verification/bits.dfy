/**
  Bit strings as the container format sees them: a `seq<bool>` in which
  `true` is a 1 bit, every multi-bit field written most significant bit
  first, and bytes unpacked in that order.
 */
module Bits {

  type byte = x: int | 0 <= x < 256

  function Pow2(n: nat): (r: nat)
    ensures r >= 1
  {
    if n == 0 then 1 else 2 * Pow2(n - 1)
  }

  function Min(a: int, b: int): int { if a <= b then a else b }

  function Max(a: int, b: int): int { if a >= b then a else b }

  /** `n` zero bits. */
  function Zeros(n: nat): (r: seq<bool>)
    ensures |r| == n
    ensures forall i | 0 <= i < n :: !r[i]
  {
    if n == 0 then [] else Zeros(n - 1) + [false]
  }

  /** The low `w` bits of `v`, most significant first. */
  function NatToBits(v: nat, w: nat): (r: seq<bool>)
    ensures |r| == w
  {
    if w == 0 then [] else NatToBits(v / 2, w - 1) + [v % 2 == 1]
  }

  /** The low `wa` bits of `a` followed by the `wb` bits of `b` are the low bits of the number they spell together. */
  lemma {:induction false} NatToBitsConcat(a: nat, wa: nat, b: nat, wb: nat)
    requires b < Pow2(wb)
    ensures NatToBits(a, wa) + NatToBits(b, wb) == NatToBits(a * Pow2(wb) + b, wa + wb)
  {
    if wb > 0 {
      var p := Pow2(wb - 1);
      var q := a * p + b / 2;
      assert a * Pow2(wb) == 2 * (a * p) by { assert Pow2(wb) == 2 * p; }
      Halves(a * Pow2(wb) + b, q, b % 2);
      NatToBitsConcat(a, wa, b / 2, wb - 1);
      var x, y, z := NatToBits(a, wa), NatToBits(b / 2, wb - 1), [b % 2 == 1];
      assert x + (y + z) == (x + y) + z;
    }
  }

  lemma Halves(v: nat, q: nat, r: nat)
    requires v == 2 * q + r && r < 2
    ensures v / 2 == q && v % 2 == r
  {
  }

  /** The value of an MSB-first bit string, as `int(bits.to01(), 2)` computes it. */
  function BitsToNat(bs: seq<bool>): (r: nat)
    ensures r < Pow2(|bs|)
  {
    if bs == [] then 0
    else 2 * BitsToNat(bs[..|bs| - 1]) + (if bs[|bs| - 1] then 1 else 0)
  }

  lemma {:induction false} BitsToNatOfNatToBits(v: nat, w: nat)
    requires v < Pow2(w)
    ensures BitsToNat(NatToBits(v, w)) == v
  {
    if w > 0 {
      var r := NatToBits(v, w);
      assert r[..w - 1] == NatToBits(v / 2, w - 1);
      BitsToNatOfNatToBits(v / 2, w - 1);
    }
  }

  lemma {:induction false} NatToBitsOfBitsToNat(bs: seq<bool>)
    ensures NatToBits(BitsToNat(bs), |bs|) == bs
  {
    if bs != [] {
      var p := bs[..|bs| - 1];
      NatToBitsOfBitsToNat(p);
      assert bs == p + [bs[|bs| - 1]];
    }
  }

  /** Two bit strings of one width with the same value are the same string. */
  lemma BitsToNatInjective(a: seq<bool>, b: seq<bool>)
    requires |a| == |b| && BitsToNat(a) == BitsToNat(b)
    ensures a == b
  {
    NatToBitsOfBitsToNat(a);
    NatToBitsOfBitsToNat(b);
  }

  /** Number of binary digits Python prints for `v` (one digit for 0). */
  function BitLength(v: nat): (r: nat)
    ensures r >= 1 && v < Pow2(r)
    ensures v >= 1 ==> Pow2(r - 1) <= v
  {
    if v < 2 then 1 else 1 + BitLength(v / 2)
  }

  /**
    `'{0:0{w}b}'.format(v)`: the binary digits of `v`, left-padded with zeros
    to at least `w` characters. The field is `w` bits wide exactly when `v`
    fits in `w` bits; otherwise it silently grows.
   */
  function FormatBinary(v: nat, w: nat): (r: seq<bool>)
    ensures BitsToNat(r) == v
    ensures 1 <= w && v < Pow2(w) ==> r == NatToBits(v, w)
    ensures v >= Pow2(w) ==> |r| > w
  {
    var width := Max(w, BitLength(v));
    FormatWidth(v, w);
    BitsToNatOfNatToBits(v, width);
    NatToBits(v, width)
  }

  /** The padded width is `w` when `v` fits in `w >= 1` bits and more than `w` otherwise. */
  lemma FormatWidth(v: nat, w: nat)
    ensures v < Pow2(Max(w, BitLength(v)))
    ensures 1 <= w && v < Pow2(w) ==> Max(w, BitLength(v)) == w
    ensures v >= Pow2(w) ==> Max(w, BitLength(v)) > w
  {
    PowMonotone(BitLength(v), Max(w, BitLength(v)));
    if v >= Pow2(w) && BitLength(v) <= w {
      PowMonotone(BitLength(v), w);
    }
    if 1 <= w && v < Pow2(w) && BitLength(v) > w {
      PowMonotone(w, BitLength(v) - 1);
    }
  }

  lemma {:induction false} PowMonotone(a: nat, b: nat)
    requires a <= b
    ensures Pow2(a) <= Pow2(b)
  {
    if a < b {
      PowMonotone(a, b - 1);
    }
  }

  function ByteBits(b: byte): (r: seq<bool>)
    ensures |r| == 8
  {
    NatToBits(b, 8)
  }

  /** The bit string of a byte sequence, each byte MSB-first. */
  function BytesToBits(bs: seq<byte>): (r: seq<bool>)
    ensures |r| == 8 * |bs|
  {
    if bs == [] then [] else ByteBits(bs[0]) + BytesToBits(bs[1..])
  }

  lemma {:induction false} BytesToBitsAppend(a: seq<byte>, b: seq<byte>)
    ensures BytesToBits(a + b) == BytesToBits(a) + BytesToBits(b)
  {
    if a != [] {
      assert (a + b)[0] == a[0] && (a + b)[1..] == a[1..] + b;
      BytesToBitsAppend(a[1..], b);
      assert BytesToBits(a + b) == ByteBits(a[0]) + BytesToBits(a[1..] + b);
      assert BytesToBits(a) == ByteBits(a[0]) + BytesToBits(a[1..]);
    } else {
      assert a + b == b;
    }
  }

  /** Bytes `i .. j` of a file occupy bits `8 * i .. 8 * j` of its bit string. */
  lemma BytesToBitsSlice(bs: seq<byte>, i: nat, j: nat)
    requires i <= j <= |bs|
    ensures BytesToBits(bs)[8 * i .. 8 * j] == BytesToBits(bs[i..j])
  {
    assert bs == bs[..i] + bs[i..j] + bs[j..];
    BytesToBitsAppend(bs[..i] + bs[i..j], bs[j..]);
    BytesToBitsAppend(bs[..i], bs[i..j]);
  }

  /** Packs a bit string whose length is a multiple of 8 into bytes. */
  function BitsToBytes(bits: seq<bool>): (r: seq<byte>)
    requires |bits| % 8 == 0
    ensures BytesToBits(r) == bits
    decreases |bits|
  {
    if bits == [] then []
    else
      var b := BitsToNat(bits[..8]);
      assert b < 256 by { assert Pow2(8) == 256; }
      NatToBitsOfBitsToNat(bits[..8]);
      var rest := BitsToBytes(bits[8..]);
      assert bits == bits[..8] + bits[8..];
      [b] + rest
  }

  /** Unpacking and packing again gives back the bytes. */
  lemma BitsToBytesOfBytesToBits(bs: seq<byte>)
    ensures BitsToBytes(BytesToBits(bs)) == bs
  {
    var bits := BytesToBits(bs);
    assert |bits| % 8 == 0 by { assert |bits| == 8 * |bs|; }
    var r := BitsToBytes(bits);
    BytesToBitsInjective(r, bs);
  }

  lemma {:induction false} BytesToBitsInjective(a: seq<byte>, b: seq<byte>)
    requires BytesToBits(a) == BytesToBits(b)
    ensures a == b
  {
    if a != [] {
      var ba := BytesToBits(a);
      assert ba == ByteBits(a[0]) + BytesToBits(a[1..]);
      assert ba == ByteBits(b[0]) + BytesToBits(b[1..]);
      assert ByteBits(a[0]) == ba[..8] == ByteBits(b[0]);
      assert BytesToBits(a[1..]) == ba[8..] == BytesToBits(b[1..]);
      BitsToNatOfNatToBits(a[0], 8);
      BitsToNatOfNatToBits(b[0], 8);
      BytesToBitsInjective(a[1..], b[1..]);
    }
  }

  /** Zero bits `bitarray.tofile` adds to reach a byte boundary. */
  function PadLength(n: nat): (r: nat)
    ensures r < 8 && (n + r) % 8 == 0
  {
    (8 - n % 8) % 8
  }

  /**
    `bitarray.tofile`: the bytes written for a bit string, which is padded
    with zero bits up to the next byte boundary.
   */
  function ToFile(bits: seq<bool>): (r: seq<byte>)
    ensures BytesToBits(r) == bits + Zeros(PadLength(|bits|))
    ensures |r| == (|bits| + 7) / 8
  {
    BitsToBytes(bits + Zeros(PadLength(|bits|)))
  }
}
