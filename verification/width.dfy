/**
  The width of the byte-count field at the head of every header entry, as
  the command line derives it from the block size, and the width the
  container actually needs.

  A block holds at most `b` characters of at most four UTF-8 bytes each, so
  the count field must hold every value up to `4 * b`. The command line
  takes the ceiling of the base-2 logarithm of `4 * b`, which is one bit
  short exactly when `4 * b` is a power of two: `4 * b` itself then needs
  one bit more than the logarithm.
 */
module Width {
  import opened Bits
  import Utf8
  import Container

  /** The least `r` with `v <= 2^r`: the exact value of `ceil(log2(v))`. */
  function CeilLog2(v: nat): (r: nat)
    requires v >= 1
    ensures v <= Pow2(r)
    ensures r >= 1 ==> Pow2(r - 1) < v
  {
    if v == 1 then 0 else 1 + CeilLog2((v + 1) / 2)
  }

  /** The count-field width the command line computes for block size `b`. */
  function CliHeaderWidth(b: nat): (r: nat)
    requires b >= 1
    ensures r >= 2 && 4 * b <= Pow2(r) && Pow2(r - 1) < 4 * b
  {
    CeilLog2(4 * b)
  }

  /** The logarithm of a power of two is exact, so nothing is rounded up. */
  lemma {:induction false} CeilLog2OfPow2(n: nat)
    ensures CeilLog2(Pow2(n)) == n
  {
    if n > 0 {
      assert (Pow2(n) + 1) / 2 == Pow2(n - 1);
      CeilLog2OfPow2(n - 1);
    }
  }

  /**
    For every power-of-two block size the largest count, `4 * b`, is exactly
    `2^L` for the command line's width `L`, one more than an `L`-bit field holds.
   */
  lemma CliWidthTooNarrow(k: nat)
    ensures var b := Pow2(k);
            CliHeaderWidth(b) == k + 2 && 4 * b == Pow2(CliHeaderWidth(b))
  {
    assert 4 * Pow2(k) == Pow2(k + 2);
    CeilLog2OfPow2(k + 2);
  }

  /**
    Block size 1 and the single character U+1F600, four bytes in UTF-8: the
    command line's width is 2, the entry's count field `100` spills into a
    third bit, and a decoder reading the first two bits finds the count 2.
   */
  lemma CliEntryMisread(code: seq<bool>)
    requires |code| < 32
    ensures var s := "\U{1F600}";
            && CliHeaderWidth(1) == 2
            && |Utf8.Encode(s)| == 4
            && !Container.Fits(s, code, CliHeaderWidth(1))
            && var e := Container.EncodeEntry(s, code, CliHeaderWidth(1));
               |e| >= 3 && e[..3] == [true, false, false] && BitsToNat(e[..2]) == 2
  {
    var s := "\U{1F600}";
    CliWidthTooNarrow(0);
    FourBytes(s);
    var field := FourInTwo();
    var e := Container.EncodeEntry(s, code, 2);
    EntryHead(e, field, BytesToBits(Utf8.Encode(s)), FormatBinary(|code|, 5), code);
  }

  lemma FourBytes(s: string)
    requires s == "\U{1F600}"
    ensures |Utf8.Encode(s)| == 4
  {
    assert Utf8.Encode(s) == Utf8.EncodeChar(s[0]) + Utf8.Encode(s[1..]);
  }

  /** The count 4 formatted into a field of two bits takes three. */
  lemma FourInTwo() returns (field: seq<bool>)
    ensures field == FormatBinary(4, 2) == [true, false, false]
  {
    assert BitLength(4) == 3 by {
      assert BitLength(4) == 1 + BitLength(2) == 2 + BitLength(1);
    }
    field := FormatBinary(4, 2);
    assert field == NatToBits(4, 3);
  }

  lemma EntryHead(e: seq<bool>, field: seq<bool>, b: seq<bool>, c: seq<bool>, d: seq<bool>)
    requires field == [true, false, false] && e == field + b + c + d
    ensures |e| >= 3 && e[..3] == field && BitsToNat(e[..2]) == 2
  {
    assert e[..2] == [true, false];
  }

  /** The width the container needs: the bit length of `4 * b`, the least width holding `4 * b`. */
  function HeaderWidth(b: nat): (r: nat)
    ensures r >= 1 && 4 * b < Pow2(r)
    ensures b >= 1 ==> Pow2(r - 1) <= 4 * b
  {
    BitLength(4 * b)
  }

  /** The corrected width agrees with the command line's except where the latter is one bit short. */
  lemma HeaderWidthVersusCli(b: nat)
    requires b >= 1
    ensures HeaderWidth(b) == CliHeaderWidth(b)
            || (HeaderWidth(b) == CliHeaderWidth(b) + 1 && 4 * b == Pow2(CliHeaderWidth(b)))
  {
    BitLengthVersusCeilLog2(4 * b);
  }

  /** The bit length of `v` exceeds its rounded-up logarithm only when `v` is a power of two. */
  lemma BitLengthVersusCeilLog2(v: nat)
    requires v >= 1
    ensures BitLength(v) == CeilLog2(v) || (BitLength(v) == CeilLog2(v) + 1 && v == Pow2(CeilLog2(v)))
  {
    var h, c := BitLength(v), CeilLog2(v);
    assert v < Pow2(h) && Pow2(h - 1) <= v;
    assert v <= Pow2(c) && (c >= 1 ==> Pow2(c - 1) < v);
    if c == 0 {
      assert v == 1;
    } else {
      Between(h, c, v);
    }
  }

  /** Two widths that both bracket `v` differ by at most the one bit lost when `v` is a power of two. */
  lemma Between(h: nat, c: nat, v: nat)
    requires h >= 1 && v < Pow2(h) && Pow2(h - 1) <= v
    requires c >= 1 && v <= Pow2(c) && Pow2(c - 1) < v
    ensures h == c || (h == c + 1 && v == Pow2(c))
  {
    if h < c {
      PowMonotone(h, c - 1);
    } else if h > c + 1 {
      PowMonotone(c + 1, h - 1);
    }
  }
}
