/**
  The UTF-8 encoding of RFC 3629, section 3, which the container uses for
  the text of every symbol. Only encoding is needed: the decoder keeps each
  symbol as its byte string.
 */
module Utf8 {
  import opened Bits

  /** The one to four bytes that encode the scalar value `c`. */
  function EncodeChar(c: char): (r: seq<byte>)
    ensures 1 <= |r| <= 4
    ensures |r| == 1 <==> c as int < 0x80
    ensures |r| == 1 ==> r[0] == c as int
    ensures |r| > 1 ==> 0xC0 <= r[0]
    ensures forall i | 1 <= i < |r| :: 0x80 <= r[i] < 0xC0
  {
    var v := c as int;
    if v < 0x80 then [v]
    else if v < 0x800 then [0xC0 + v / 64, 0x80 + v % 64]
    else if v < 0x10000 then [0xE0 + v / 4096, 0x80 + (v / 64) % 64, 0x80 + v % 64]
    else [0xF0 + v / 262144, 0x80 + (v / 4096) % 64, 0x80 + (v / 64) % 64, 0x80 + v % 64]
  }

  /** The UTF-8 bytes of a string: at least one and at most four per character. */
  function Encode(s: string): (r: seq<byte>)
    ensures |s| <= |r| <= 4 * |s|
  {
    if s == [] then [] else EncodeChar(s[0]) + Encode(s[1..])
  }

  lemma {:induction false} EncodeAppend(a: string, b: string)
    ensures Encode(a + b) == Encode(a) + Encode(b)
  {
    if a == [] {
      assert a + b == b;
    } else {
      var ab := a + b;
      assert ab[0] == a[0] && ab[1..] == a[1..] + b;
      calc {
        Encode(ab);
        EncodeChar(a[0]) + Encode(a[1..] + b);
        { EncodeAppend(a[1..], b); }
        EncodeChar(a[0]) + (Encode(a[1..]) + Encode(b));
        Encode(a) + Encode(b);
      }
    }
  }

  /** A string of characters below 0x80 encodes to exactly one byte per character. */
  lemma {:induction false} EncodeAscii(s: string)
    requires forall c | c in s :: c as int < 0x80
    ensures |Encode(s)| == |s|
  {
    if s != [] {
      assert s[0] in s;
      assert forall c | c in s[1..] :: c in s;
      EncodeAscii(s[1..]);
    }
  }

  /** A single byte below 0x80 is the encoding of exactly one string: that character alone. */
  lemma EncodeIsSingleByte(s: string, b: byte)
    requires b < 0x80 && Encode(s) == [b]
    ensures s == [b as char]
  {
    assert |s| == 1;
    assert Encode(s) == EncodeChar(s[0]);
  }
}
