/**
  The body of a `.huff` file: the code of every symbol of the text, then the
  code of the end-of-file symbol U+001C. The decoder extends a pending code
  one bit at a time until it is a key of the decoding map, writes that key's
  symbol and starts over; it stops at the code of U+001C or at the end of the
  file, whichever comes first.
 */
module Body {
  import opened Bits
  import opened Seqs
  import Utf8
  import opened BitReader
  import opened Huffman

  /** What the body loop wrote, and whether it stopped at the end-of-file code. */
  datatype Decoded = Decoded(text: seq<byte>, ended: bool)

  /** The UTF-8 bytes of U+001C. */
  const EofBytes: seq<byte> := [0x1C]

  /**
    The body loop over a plain bit string: `pending` is the code read so far.
    This is the reference the reader-driven loop is proved against.
   */
  function DecodeBits(dmap: map<Code, seq<byte>>, bits: seq<bool>, pending: Code): (d: Decoded)
    decreases |bits|
  {
    if bits == [] then Decoded([], false)
    else
      var e := pending + [bits[0]];
      if e in dmap then
        if dmap[e] == EofBytes then Decoded([], true)
        else
          var d := DecodeBits(dmap, bits[1..], []);
          Decoded(dmap[e] + d.text, d.ended)
      else DecodeBits(dmap, bits[1..], e)
  }

  /**
    The body loop of `decode`, driven by `for bit in reader`. It decodes
    exactly what is left unread in the file, as `DecodeBits` does.
   */
  function BodyLoop(dmap: map<Code, seq<byte>>, r: Reader, pending: Code): (d: Decoded)
    requires BitReader.Valid(r)
    ensures d == DecodeBits(dmap, Unread(r), pending)
    decreases 8 * |r.data| - Consumed(r)
  {
    match Next(r)
    case Stop => Decoded([], false)
    case Bit(read) =>
      UnreadStep(r, read);
      var e := pending + read.bits;
      if e in dmap then
        if dmap[e] == EofBytes then Decoded([], true)
        else
          var d := BodyLoop(dmap, read.next, []);
          Decoded(dmap[e] + d.text, d.ended)
      else BodyLoop(dmap, read.next, e)
  }

  /** One bit handed out by the iterator is the first unread bit, and the rest stays unread. */
  lemma UnreadStep(r: Reader, read: Read)
    requires BitReader.Valid(r) && Next(r) == Bit(read)
    ensures Unread(r) != [] && read.bits == [Unread(r)[0]] && Unread(read.next) == Unread(r)[1..]
  {
  }

  /** `bitarray.encode`: the codes of the symbols, one after the other. */
  function EncodeSymbols(m: map<string, Code>, gs: seq<string>): (r: seq<bool>)
    requires forall i | 0 <= i < |gs| :: gs[i] in m
    decreases |gs|
  {
    if gs == [] then [] else m[gs[0]] + EncodeSymbols(m, gs[1..])
  }

  /** Encoding two runs of symbols one after the other is encoding them together. */
  lemma {:induction false} EncodeSymbolsAppend(m: map<string, Code>, a: seq<string>, b: seq<string>)
    requires forall s | s in a :: s in m
    requires forall s | s in b :: s in m
    ensures EncodeSymbols(m, a + b) == EncodeSymbols(m, a) + EncodeSymbols(m, b)
  {
    if a == [] {
      assert a + b == b;
    } else {
      assert (a + b)[0] == a[0] && (a + b)[1..] == a[1..] + b;
      EncodeSymbolsAppend(m, a[1..], b);
    }
  }

  /**
    The encoder's loop, `encoded_input.encode(encoding_map, groups)` once for
    every batch the grouping reader yields: the body it builds holds the
    codes of all the symbols of all the batches, in order.
   */
  function EncodeBatches(m: map<string, Code>, bs: seq<seq<string>>): (r: seq<bool>)
    requires forall s | s in Flatten(bs) :: s in m
    ensures r == EncodeSymbols(m, Flatten(bs))
    decreases |bs|
  {
    if bs == [] then []
    else
      EncodeSymbolsAppend(m, bs[0], Flatten(bs[1..]));
      EncodeSymbols(m, bs[0]) + EncodeBatches(m, bs[1..])
  }

  /** No code is a prefix of another symbol's code. */
  predicate PrefixFree(m: map<string, Code>)
  {
    forall s1, s2 | s1 in m && s2 in m && s1 != s2 :: !(m[s1] <= m[s2])
  }

  /** `dmap` maps each code of `m` to its symbol's UTF-8 bytes, and has no other keys. */
  predicate Inverse(dmap: map<Code, seq<byte>>, m: map<string, Code>)
  {
    && (forall s | s in m :: m[s] in dmap && dmap[m[s]] == Utf8.Encode(s))
    && (forall c | c in dmap :: exists s | s in m :: m[s] == c)
  }

  /** Only U+001C is written as the byte 0x1C. */
  lemma EofOnly(s: string)
    ensures Utf8.Encode(s) == EofBytes <==> s == [28 as char]
  {
    if Utf8.Encode(s) == EofBytes {
      Utf8.EncodeIsSingleByte(s, 0x1C);
    }
    if s == [28 as char] {
      assert Utf8.Encode(s) == Utf8.EncodeChar(28 as char) + Utf8.Encode([]);
    }
  }

  /** One bit that does not complete a key is added to the pending code. */
  lemma StepMiss(dmap: map<Code, seq<byte>>, b: bool, rest: seq<bool>, pending: Code)
    requires pending + [b] !in dmap
    ensures DecodeBits(dmap, [b] + rest, pending) == DecodeBits(dmap, rest, pending + [b])
  {
    assert ([b] + rest)[0] == b && ([b] + rest)[1..] == rest;
  }

  /** One bit that completes a key writes that key's symbol, or stops at the end-of-file symbol. */
  lemma StepHit(dmap: map<Code, seq<byte>>, b: bool, rest: seq<bool>, pending: Code)
    requires pending + [b] in dmap
    ensures var d := DecodeBits(dmap, [b] + rest, pending);
            if dmap[pending + [b]] == EofBytes then d == Decoded([], true)
            else d == Decoded(dmap[pending + [b]] + DecodeBits(dmap, rest, []).text, DecodeBits(dmap, rest, []).ended)
  {
    assert ([b] + rest)[0] == b && ([b] + rest)[1..] == rest;
  }

  /** The next bit of a code, taken off the front. */
  lemma NextBit(c: Code, j: nat, tail: seq<bool>)
    requires j < |c|
    ensures c[j..] + tail == [c[j]] + (c[j + 1..] + tail)
    ensures c[..j] + [c[j]] == c[..j + 1]
  {
    assert c[j..] == [c[j]] + c[j + 1..];
  }

  /** What the loop makes of the code of `s` followed by `tail`. */
  predicate DecodesCode(dmap: map<Code, seq<byte>>, s: string, d: Decoded, tail: seq<bool>)
  {
    if s == [28 as char] then d == Decoded([], true)
    else d == Decoded(Utf8.Encode(s) + DecodeBits(dmap, tail, []).text, DecodeBits(dmap, tail, []).ended)
  }

  /**
    Reading the code of `s` from where `pending` (its first `j` bits) left
    off: no shorter prefix is a key, so the loop writes exactly `s`'s bytes,
    or stops if `s` is U+001C.
   */
  lemma {:induction false} DecodeOneCode(dmap: map<Code, seq<byte>>, m: map<string, Code>, s: string, j: nat, tail: seq<bool>)
    requires Inverse(dmap, m) && PrefixFree(m) && s in m && j < |m[s]|
    ensures DecodesCode(dmap, s, DecodeBits(dmap, m[s][j..] + tail, m[s][..j]), tail)
    decreases |m[s]| - j, 1
  {
    if j + 1 == |m[s]| {
      LastBit(dmap, m, s, j, tail);
    } else {
      MiddleBit(dmap, m, s, j, tail);
    }
  }

  lemma LastBit(dmap: map<Code, seq<byte>>, m: map<string, Code>, s: string, j: nat, tail: seq<bool>)
    requires Inverse(dmap, m) && s in m && j + 1 == |m[s]|
    ensures DecodesCode(dmap, s, DecodeBits(dmap, m[s][j..] + tail, m[s][..j]), tail)
  {
    var c := m[s];
    NextBit(c, j, tail);
    assert c[..j + 1] == c && c[j + 1..] + tail == tail;
    EofOnly(s);
    StepHit(dmap, c[j], tail, c[..j]);
  }

  lemma {:induction false} MiddleBit(dmap: map<Code, seq<byte>>, m: map<string, Code>, s: string, j: nat, tail: seq<bool>)
    requires Inverse(dmap, m) && PrefixFree(m) && s in m && j + 1 < |m[s]|
    ensures DecodesCode(dmap, s, DecodeBits(dmap, m[s][j..] + tail, m[s][..j]), tail)
    decreases |m[s]| - j, 0
  {
    var c := m[s];
    NextBit(c, j, tail);
    NotAKey(dmap, m, s, j + 1);
    StepMiss(dmap, c[j], c[j + 1..] + tail, c[..j]);
    DecodeOneCode(dmap, m, s, j + 1, tail);
  }

  /** The whole code of `s`, read from the start. */
  lemma DecodeWholeCode(dmap: map<Code, seq<byte>>, m: map<string, Code>, s: string, tail: seq<bool>)
    requires Inverse(dmap, m) && PrefixFree(m) && s in m && m[s] != []
    ensures DecodesCode(dmap, s, DecodeBits(dmap, m[s] + tail, []), tail)
  {
    var nil: Code := [];
    assert m[s][0..] == m[s] && m[s][..0] == nil;
    DecodeOneCode(dmap, m, s, 0, tail);
  }

  /** A proper prefix of a code is not a key of the decoding map. */
  lemma NotAKey(dmap: map<Code, seq<byte>>, m: map<string, Code>, s: string, k: nat)
    requires Inverse(dmap, m) && PrefixFree(m) && s in m && k < |m[s]|
    ensures m[s][..k] !in dmap
  {
    forall s' | s' in m ensures m[s'] != m[s][..k] {
      if s' != s {
        assert !(m[s'] <= m[s]);
      }
    }
  }

  /** The codes of `gs` and then the end-of-file code decode to the bytes of `gs` and stop there. */
  lemma {:induction false} DecodeEncodedBody(dmap: map<Code, seq<byte>>, m: map<string, Code>, gs: seq<string>, rest: seq<bool>)
    requires Inverse(dmap, m) && PrefixFree(m)
    requires [28 as char] in m && m[[28 as char]] != []
    requires forall i | 0 <= i < |gs| :: gs[i] in m && gs[i] != [28 as char] && m[gs[i]] != []
    ensures DecodeBits(dmap, EncodeSymbols(m, gs) + m[[28 as char]] + rest, []) == Decoded(Utf8.Encode(Flatten(gs)), true)
    decreases |gs|, 1
  {
    if gs == [] {
      EmptyBody(dmap, m, gs, rest);
    } else {
      SymbolThenBody(dmap, m, gs, rest);
    }
  }

  lemma EmptyBody(dmap: map<Code, seq<byte>>, m: map<string, Code>, gs: seq<string>, rest: seq<bool>)
    requires Inverse(dmap, m) && PrefixFree(m) && gs == []
    requires [28 as char] in m && m[[28 as char]] != []
    ensures DecodeBits(dmap, EncodeSymbols(m, gs) + m[[28 as char]] + rest, []) == Decoded(Utf8.Encode(Flatten(gs)), true)
  {
    var eof: string := [28 as char];
    assert EncodeSymbols(m, gs) + m[eof] + rest == m[eof] + rest;
    DecodeWholeCode(dmap, m, eof, rest);
  }

  lemma {:induction false} SymbolThenBody(dmap: map<Code, seq<byte>>, m: map<string, Code>, gs: seq<string>, rest: seq<bool>)
    requires Inverse(dmap, m) && PrefixFree(m) && gs != []
    requires [28 as char] in m && m[[28 as char]] != []
    requires forall i | 0 <= i < |gs| :: gs[i] in m && gs[i] != [28 as char] && m[gs[i]] != []
    ensures DecodeBits(dmap, EncodeSymbols(m, gs) + m[[28 as char]] + rest, []) == Decoded(Utf8.Encode(Flatten(gs)), true)
    decreases |gs|, 0
  {
    var eof: string := [28 as char];
    var s := gs[0];
    var later := EncodeSymbols(m, gs[1..]);
    Assoc(m[s], later, m[eof], rest);
    DecodeWholeCode(dmap, m, s, later + m[eof] + rest);
    assert forall i | 0 <= i < |gs| - 1 :: gs[1..][i] == gs[i + 1];
    DecodeEncodedBody(dmap, m, gs[1..], rest);
    Utf8.EncodeAppend(s, Flatten(gs[1..]));
  }

  /** When the only key is the empty code, no bit string ever matches and nothing is written. */
  lemma {:induction false} NothingMatches(dmap: map<Code, seq<byte>>, bits: seq<bool>, pending: Code)
    requires forall c | c in dmap :: c == []
    ensures DecodeBits(dmap, bits, pending) == Decoded([], false)
    decreases |bits|
  {
    if bits != [] {
      assert |pending + [bits[0]]| > 0;
      NothingMatches(dmap, bits[1..], pending + [bits[0]]);
    }
  }
}
