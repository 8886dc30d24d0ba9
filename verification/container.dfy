/**
  The `.huff` container of `huffman_coding.py`. A file is a header, then a
  body, then padding. The header holds one entry per code: the symbol's
  UTF-8 byte count in `width` bits, the symbol's bytes, the code's length in
  5 bits, and the code. A terminator entry for U+001D ends the header. The
  body holds the code of every symbol of the text and then the code of the
  end-of-file symbol U+001C. The decoder keeps every symbol as its UTF-8
  bytes, so it needs no UTF-8 decoder.
 */
module Container {
  import opened Bits
  import opened Seqs
  import opened Dicts
  import Utf8
  import opened BitReader
  import opened Huffman

  /** U+001D, the separator written after the last header entry. */
  const MapEnd: string := [29 as char]

  /** U+001C, the symbol whose code ends the body. */
  const Eof: string := [28 as char]

  lemma SeparatorBytes()
    ensures Utf8.Encode(MapEnd) == [0x1D] && Utf8.Encode(Eof) == [0x1C]
  {
    assert Utf8.Encode(MapEnd) == Utf8.EncodeChar(29 as char) + Utf8.Encode([]);
    assert Utf8.Encode(Eof) == Utf8.EncodeChar(28 as char) + Utf8.Encode([]);
  }

  // ---------------------------------------------------------------------
  // The header
  // ---------------------------------------------------------------------

  /**
    `_encode_huffman_map_entry`. When the byte count fits in `width >= 1`
    bits and the code is shorter than 32 bits, every field has its fixed
    width. A byte count too large for `width` bits gets a wider field, as
    the padded format does, so the entry no longer has the fixed layout.
   */
  function EncodeEntry(symbol: string, code: Code, width: nat): (r: seq<bool>)
    ensures 1 <= width && |Utf8.Encode(symbol)| < Pow2(width) && |code| < 32 ==>
              r == NatToBits(|Utf8.Encode(symbol)|, width) + BytesToBits(Utf8.Encode(symbol))
                   + NatToBits(|code|, 5) + code
    ensures |Utf8.Encode(symbol)| >= Pow2(width) ==>
              |r| > width + 8 * |Utf8.Encode(symbol)| + 5 + |code|
  {
    var bytes := Utf8.Encode(symbol);
    assert Pow2(5) == 32;
    FormatBinary(|bytes|, width) + BytesToBits(bytes) + FormatBinary(|code|, 5) + code
  }

  /**
    The header's last entry: `width - 1` zero bits and a one bit (a byte
    count of 1), then the byte 0x1D. These are the first two fields of an
    entry for U+001D.
   */
  function Terminator(width: nat): (r: seq<bool>)
    ensures width >= 1 ==> r == FormatBinary(|Utf8.Encode(MapEnd)|, width) + BytesToBits(Utf8.Encode(MapEnd))
  {
    SeparatorBytes();
    if width >= 1 then
      OneBits(width);
      Zeros(width - 1) + [true] + BytesToBits([0x1D])
    else
      [true] + BytesToBits([0x1D])
  }

  /** The value 1 in `w >= 1` bits is `w - 1` zeros and a one. */
  lemma {:induction false} OneBits(w: nat)
    requires w >= 1
    ensures NatToBits(1, w) == Zeros(w - 1) + [true]
    ensures FormatBinary(1, w) == NatToBits(1, w)
  {
    ZeroBits(w - 1);
    assert Pow2(w) >= 2 by { if w > 1 { PowMonotone(1, w); } }
  }

  lemma {:induction false} ZeroBits(w: nat)
    ensures NatToBits(0, w) == Zeros(w)
  {
    if w > 0 {
      ZeroBits(w - 1);
    }
  }

  /** The entries of `items`, in order. */
  function EncodeEntries(items: seq<(string, Code)>, width: nat): (r: seq<bool>)
  {
    if items == [] then [] else EncodeEntry(items[0].0, items[0].1, width) + EncodeEntries(items[1..], width)
  }

  /** `_encode_huffman_map`: an entry per item of the map, in the map's order, then the terminator. */
  function EncodeMap(m: Dict<string, Code>, width: nat): (r: seq<bool>)
    requires Dicts.Valid(m)
  {
    EncodeEntries(Items(m), width) + Terminator(width)
  }

  /** What one call of `_decode_huffman_map_entry` sees. */
  datatype EntryStep =
    | Malformed
    | MapDone(next: Reader)
    | Entry(code: Code, symbol: seq<byte>, next: Reader)

  /** A decoding step that reads on from `r` over the same file. */
  predicate Advances(r: Reader, e: EntryStep)
    requires BitReader.Valid(r)
  {
    !e.Malformed? ==> && BitReader.Valid(e.next) && e.next.data == r.data && Consumed(r) <= Consumed(e.next)
  }

  /**
    `_decode_huffman_map_entry`: read the byte count, the symbol's bytes
    and, unless the symbol is the separator U+001D, the code's length and
    the code. A field cut short by the end of the file is `Malformed`.
   */
  function DecodeEntry(r: Reader, width: nat): (e: EntryStep)
    requires BitReader.Valid(r)
    ensures Advances(r, e)
    ensures !e.Malformed? ==> width >= 1 && Consumed(r) + width <= Consumed(e.next)
  {
    var count := ReadBits(r, width);
    if count.bits == [] || |count.bits| < width then Malformed
    else DecodeSymbol(count.next, BitsToNat(count.bits))
  }

  /** The symbol's `count` bytes, then, unless it is U+001D, the code. */
  function DecodeSymbol(r: Reader, count: nat): (e: EntryStep)
    requires BitReader.Valid(r)
    ensures Advances(r, e)
  {
    var sym := ReadBits(r, 8 * count);
    if |sym.bits| < 8 * count then Malformed
    else
      WholeBytes(sym.bits, count);
      var symbol := BitsToBytes(sym.bits);
      if symbol == [0x1D] then MapDone(sym.next) else DecodeCode(sym.next, symbol)
  }

  /** The code's length in 5 bits, then the code. */
  function DecodeCode(r: Reader, symbol: seq<byte>): (e: EntryStep)
    requires BitReader.Valid(r)
    ensures Advances(r, e)
  {
    var len := ReadBits(r, 5);
    if |len.bits| < 5 then Malformed
    else
      var code := ReadBits(len.next, BitsToNat(len.bits));
      if |code.bits| < BitsToNat(len.bits) then Malformed else Entry(code.bits, symbol, code.next)
  }

  lemma WholeBytes(bits: seq<bool>, n: nat)
    requires |bits| == 8 * n
    ensures |bits| % 8 == 0
  {
  }

  /** An entry the encoder writes with fixed-width fields. */
  predicate Fits(symbol: string, code: Code, width: nat)
  {
    1 <= width && |Utf8.Encode(symbol)| < Pow2(width) && |code| < 32 && symbol != MapEnd
  }

  /** Every entry of `items` is written with fixed-width fields. */
  predicate AllFit(items: seq<(string, Code)>, width: nat)
    decreases |items|
  {
    items != [] ==> Fits(items[0].0, items[0].1, width) && AllFit(items[1..], width)
  }

  /**
    Decoding an encoded entry gives back its code and its symbol's bytes and
    consumes exactly the entry's bits.
   */
  lemma DecodeEncodedEntry(r: Reader, symbol: string, code: Code, width: nat, rest: seq<bool>)
    requires BitReader.Valid(r) && Unread(r) == EncodeEntry(symbol, code, width) + rest
    requires Fits(symbol, code, width)
    ensures var e := DecodeEntry(r, width);
            e.Entry? && e.code == code && e.symbol == Utf8.Encode(symbol) && Unread(e.next) == rest
  {
    var bytes := Utf8.Encode(symbol);
    if bytes == [0x1D] {
      Utf8.EncodeIsSingleByte(symbol, 0x1D);
      assert false;
    }
    EntryKnown(r, bytes, code, width, rest);
  }

  /** `DecodeEncodedEntry` in terms of the symbol's bytes. */
  lemma EntryKnown(r: Reader, bytes: seq<byte>, code: Code, width: nat, rest: seq<bool>)
    requires BitReader.Valid(r) && 1 <= width && |bytes| < Pow2(width) && |code| < 32 && bytes != [0x1D]
    requires Unread(r) == NatToBits(|bytes|, width) + BytesToBits(bytes) + NatToBits(|code|, 5) + code + rest
    ensures var e := DecodeEntry(r, width);
            e.Entry? && e.code == code && e.symbol == bytes && Unread(e.next) == rest
  {
    var f1, f2, f3 := NatToBits(|bytes|, width), BytesToBits(bytes), NatToBits(|code|, 5);
    Assoc(f1 + f2, f3, code, rest);
    ReadTwo(r, f1, f2, f3 + code + rest);
    var count := ReadBits(r, width);
    var sym := ReadBits(count.next, |f2|);
    BitsToNatOfNatToBits(|bytes|, width);
    BitsToBytesOfBytesToBits(bytes);
    assert |sym.bits| == 8 * |bytes| == 8 * BitsToNat(count.bits);
    WholeBytes(sym.bits, |bytes|);
    SymbolFromReads(r, width, count, sym);
    CodeKnown(sym.next, bytes, code, rest);
  }

  /** `DecodeEntry` once the count and the symbol's bytes are read in full. */
  lemma SymbolFromReads(r: Reader, width: nat, count: Read, sym: Read)
    requires BitReader.Valid(r) && width >= 1 && count == ReadBits(r, width) && |count.bits| == width
    requires sym == ReadBits(count.next, 8 * BitsToNat(count.bits)) && |sym.bits| == 8 * BitsToNat(count.bits)
    requires |sym.bits| % 8 == 0
    ensures var symbol := BitsToBytes(sym.bits);
            DecodeEntry(r, width) == if symbol == [0x1D] then MapDone(sym.next) else DecodeCode(sym.next, symbol)
  {
  }

  /** Decoding from the length field of an entry. */
  lemma CodeKnown(r: Reader, symbol: seq<byte>, code: Code, rest: seq<bool>)
    requires BitReader.Valid(r) && |code| < 32
    requires Unread(r) == NatToBits(|code|, 5) + code + rest
    ensures var e := DecodeCode(r, symbol);
            e.Entry? && e.code == code && e.symbol == symbol && Unread(e.next) == rest
  {
    var f := NatToBits(|code|, 5);
    ReadTwo(r, f, code, rest);
    var len := ReadBits(r, 5);
    assert Pow2(5) == 32;
    BitsToNatOfNatToBits(|code|, 5);
    CodeFromReads(r, symbol, len, ReadBits(len.next, |code|));
  }

  lemma CodeFromReads(r: Reader, symbol: seq<byte>, len: Read, c: Read)
    requires BitReader.Valid(r) && len == ReadBits(r, 5) && |len.bits| == 5
    requires c == ReadBits(len.next, BitsToNat(len.bits)) && |c.bits| == BitsToNat(len.bits)
    ensures DecodeCode(r, symbol) == Entry(c.bits, symbol, c.next)
  {
  }

  /** Decoding the terminator ends the header and consumes exactly the terminator's bits. */
  lemma DecodeTerminator(r: Reader, width: nat, rest: seq<bool>)
    requires BitReader.Valid(r) && width >= 1 && Unread(r) == Terminator(width) + rest
    ensures var e := DecodeEntry(r, width); e.MapDone? && Unread(e.next) == rest
  {
    SeparatorBytes();
    OneBits(width);
    var f1, f2 := NatToBits(1, width), BytesToBits([0x1D]);
    ReadTwo(r, f1, f2, rest);
    var count := ReadBits(r, width);
    assert Pow2(width) >= 2 by { PowMonotone(1, width); }
    BitsToNatOfNatToBits(1, width);
    BitsToBytesOfBytesToBits([0x1D]);
    SymbolFromReads(r, width, count, ReadBits(count.next, 8));
  }

  /** What the header loop of `decode` ends with. */
  datatype HeaderStep = HeaderErr | Header(codes: map<Code, seq<byte>>, next: Reader)

  /**
    The header loop of `decode`: decode entries into `codes` until the
    terminator. A later entry with the same code overwrites an earlier one.
   */
  function DecodeHeader(codes: map<Code, seq<byte>>, r: Reader, width: nat): (h: HeaderStep)
    requires BitReader.Valid(r)
    ensures h.Header? ==> && BitReader.Valid(h.next) && h.next.data == r.data
                          && Consumed(r) + width <= Consumed(h.next)
                          && codes.Keys <= h.codes.Keys
    decreases 8 * |r.data| - Consumed(r)
  {
    match DecodeEntry(r, width)
    case Malformed => HeaderErr
    case MapDone(next) => Header(codes, next)
    case Entry(code, symbol, next) => DecodeHeader(codes[code := symbol], next, width)
  }

  /** The decoding map after `decoding_map[code] = symbol` for every item, in order. */
  function Invert(codes: map<Code, seq<byte>>, items: seq<(string, Code)>): map<Code, seq<byte>>
    decreases |items|
  {
    if items == [] then codes else Invert(codes[items[0].1 := Utf8.Encode(items[0].0)], items[1..])
  }

  /** The decoding map holds the old codes and the items' codes, and no others. */
  lemma {:induction false} InvertKeys(codes: map<Code, seq<byte>>, items: seq<(string, Code)>)
    ensures forall c :: c in Invert(codes, items) <==> c in codes || exists i | 0 <= i < |items| :: items[i].1 == c
    decreases |items|
  {
    if items != [] {
      var codes' := codes[items[0].1 := Utf8.Encode(items[0].0)];
      InvertKeys(codes', items[1..]);
      forall c ensures c in Invert(codes, items) <==> c in codes || exists i | 0 <= i < |items| :: items[i].1 == c {
        if exists j | 0 <= j < |items| - 1 :: items[1..][j].1 == c {
          var j :| 0 <= j < |items| - 1 && items[1..][j].1 == c;
          assert items[j + 1].1 == c;
        }
        if exists i | 0 <= i < |items| :: items[i].1 == c {
          var i :| 0 <= i < |items| && items[i].1 == c;
          if i > 0 {
            assert items[1..][i - 1].1 == c;
          }
        }
      }
    }
  }

  /** The codes of an item list are pairwise distinct. */
  predicate DistinctCodes(items: seq<(string, Code)>)
  {
    forall i, j | 0 <= i < j < |items| :: items[i].1 != items[j].1
  }

  /** With distinct codes, every code ends up mapped to its own symbol's bytes, and other codes keep their values. */
  lemma {:induction false} InvertDistinct(codes: map<Code, seq<byte>>, items: seq<(string, Code)>)
    requires DistinctCodes(items)
    ensures forall i | 0 <= i < |items| :: items[i].1 in Invert(codes, items) && Invert(codes, items)[items[i].1] == Utf8.Encode(items[i].0)
    ensures forall c | c in codes && (forall i | 0 <= i < |items| :: items[i].1 != c) :: c in Invert(codes, items) && Invert(codes, items)[c] == codes[c]
    decreases |items|
  {
    if items != [] {
      var codes' := codes[items[0].1 := Utf8.Encode(items[0].0)];
      assert DistinctCodes(items[1..]) by {
        forall i, j | 0 <= i < j < |items| - 1 ensures items[1..][i].1 != items[1..][j].1 {
          assert items[1..][i] == items[i + 1] && items[1..][j] == items[j + 1];
        }
      }
      InvertDistinct(codes', items[1..]);
      var r := Invert(codes, items);
      assert r == Invert(codes', items[1..]);
      forall i | 0 <= i < |items| ensures items[i].1 in r && r[items[i].1] == Utf8.Encode(items[i].0) {
        if i > 0 {
          assert items[1..][i - 1] == items[i];
        } else {
          assert forall j | 0 <= j < |items| - 1 :: items[1..][j].1 != items[0].1 by {
            forall j | 0 <= j < |items| - 1 ensures items[1..][j].1 != items[0].1 {
              assert items[1..][j] == items[j + 1];
            }
          }
        }
      }
      forall c | c in codes && (forall i | 0 <= i < |items| :: items[i].1 != c) ensures c in r && r[c] == codes[c] {
        assert forall j | 0 <= j < |items| - 1 :: items[1..][j].1 != c by {
          forall j | 0 <= j < |items| - 1 ensures items[1..][j].1 != c {
            assert items[1..][j] == items[j + 1];
          }
        }
      }
    }
  }

  /**
    Decoding a header written for `items` adds the inverse of `items` to the
    decoding map and stops right after the terminator.
   */
  lemma {:induction false} DecodeEncodedHeader(codes: map<Code, seq<byte>>, r: Reader, items: seq<(string, Code)>,
                                               width: nat, rest: seq<bool>) returns (next: Reader)
    requires BitReader.Valid(r) && Unread(r) == EncodeEntries(items, width) + Terminator(width) + rest
    requires width >= 1 && AllFit(items, width)
    ensures HeaderDecodes(codes, r, items, width, rest, next)
    decreases |items|, 2
  {
    if items == [] {
      next := HeaderEnd(codes, r, items, width, rest);
    } else {
      next := HeaderEntry(codes, r, items, width, rest);
    }
  }

  /**
    The header `_encode_huffman_map` writes for a map whose entries all fit
    is read back by `_decode_huffman_map` as the inverse of that map, and
    the reader stops right where the header ends.
   */
  lemma EncodeMapDecodes(m: Dict<string, Code>, r: Reader, width: nat, rest: seq<bool>) returns (next: Reader)
    requires Dicts.Valid(m) && width >= 1 && AllFit(Items(m), width)
    requires BitReader.Valid(r) && Unread(r) == EncodeMap(m, width) + rest
    ensures BitReader.Valid(next) && Unread(next) == rest
    ensures DecodeHeader(map[], r, width) == Header(Invert(map[], Items(m)), next)
  {
    next := DecodeEncodedHeader(map[], r, Items(m), width, rest);
  }

  lemma EntriesNil(items: seq<(string, Code)>, width: nat, t: seq<bool>, rest: seq<bool>)
    requires items == []
    ensures EncodeEntries(items, width) + t + rest == t + rest
  {
  }

  lemma InvertNil(codes: map<Code, seq<byte>>, items: seq<(string, Code)>)
    requires items == []
    ensures Invert(codes, items) == codes
  {
  }

  predicate HeaderDecodes(codes: map<Code, seq<byte>>, r: Reader, items: seq<(string, Code)>, width: nat, rest: seq<bool>, next: Reader)
    requires BitReader.Valid(r)
  {
    BitReader.Valid(next) && DecodeHeader(codes, r, width) == Header(Invert(codes, items), next) && Unread(next) == rest
  }

  lemma HeaderEnd(codes: map<Code, seq<byte>>, r: Reader, items: seq<(string, Code)>, width: nat, rest: seq<bool>)
    returns (next: Reader)
    requires BitReader.Valid(r) && Unread(r) == EncodeEntries(items, width) + Terminator(width) + rest
    requires width >= 1 && items == []
    ensures HeaderDecodes(codes, r, items, width, rest, next)
  {
    EntriesNil(items, width, Terminator(width), rest);
    InvertNil(codes, items);
    DecodeTerminator(r, width, rest);
    next := DecodeEntry(r, width).next;
  }

  lemma {:induction false} HeaderEntry(codes: map<Code, seq<byte>>, r: Reader, items: seq<(string, Code)>,
                                       width: nat, rest: seq<bool>) returns (next: Reader)
    requires BitReader.Valid(r) && items != [] && Unread(r) == EncodeEntries(items, width) + Terminator(width) + rest
    requires width >= 1 && AllFit(items, width)
    ensures HeaderDecodes(codes, r, items, width, rest, next)
    decreases |items|, 1
  {
    var tail := EncodeEntries(items[1..], width) + Terminator(width) + rest;
    EntriesHead(items, width, Terminator(width), rest);
    DecodeEncodedEntry(r, items[0].0, items[0].1, width, tail);
    next := HeaderStepOn(codes, r, items, width, rest);
  }

  lemma EntriesHead(items: seq<(string, Code)>, width: nat, t: seq<bool>, rest: seq<bool>)
    requires items != []
    ensures EncodeEntries(items, width) + t + rest
            == EncodeEntry(items[0].0, items[0].1, width) + (EncodeEntries(items[1..], width) + t + rest)
  {
    Assoc(EncodeEntry(items[0].0, items[0].1, width), EncodeEntries(items[1..], width), t, rest);
  }

  lemma {:induction false} HeaderStepOn(codes: map<Code, seq<byte>>, r: Reader, items: seq<(string, Code)>,
                                        width: nat, rest: seq<bool>) returns (next: Reader)
    requires BitReader.Valid(r) && items != [] && width >= 1
    requires AllFit(items, width)
    requires var e := DecodeEntry(r, width);
             && e.Entry? && e.code == items[0].1 && e.symbol == Utf8.Encode(items[0].0)
             && Unread(e.next) == EncodeEntries(items[1..], width) + Terminator(width) + rest
    ensures HeaderDecodes(codes, r, items, width, rest, next)
    decreases |items|, 0
  {
    var e := DecodeEntry(r, width);
    next := DecodeEncodedHeader(codes[items[0].1 := Utf8.Encode(items[0].0)], e.next, items[1..], width, rest);
  }
}
