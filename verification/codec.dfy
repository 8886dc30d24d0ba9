/**
  `encode` and `decode` of `huffman_coding.py`: count the symbols of the
  text, build the Huffman map, write the header, the body and the
  end-of-file code, and pad to whole bytes; then read the header back into a
  decoding map and decode the body with it. The decoder's output is the
  UTF-8 bytes it would write to the output file.
 */
module Codec {
  import opened Bits
  import opened Seqs
  import Dicts
  import Utf8
  import BitReader
  import Grouping
  import Huffman
  import HuffmanCodes
  import Container
  import Body
  import Width

  datatype Option<T> = None | Some(value: T)

  /**
    The counting loop of `_get_symbol_occurrences`: every symbol of `gs`, in
    order, adds one to its count, and a symbol seen for the first time is
    added after the ones already counted.
   */
  function Tally(d: Dicts.Dict<string, nat>, gs: seq<string>): (r: Dicts.Dict<string, nat>)
    requires Dicts.Valid(d)
    ensures Dicts.Valid(r)
    ensures forall s :: s in r.values <==> s in d.values || s in gs
    ensures forall s | s in r.values :: r.values[s] == (if s in d.values then d.values[s] else 0) + multiset(gs)[s]
    decreases |gs|
  {
    if gs == [] then d
    else
      var s := gs[0];
      var d1 := Dicts.Insert(d, s, if s in d.values then d.values[s] + 1 else 1);
      assert gs == [s] + gs[1..];
      Tally(d1, gs[1..])
  }

  /**
    `_get_symbol_occurrences`: the count of every symbol of the text, and the
    end-of-file symbol U+001C with count 1, which overrides any count it had.
   */
  function Occurrences(gs: seq<string>): (freq: Dicts.Dict<string, nat>)
    ensures Dicts.Valid(freq)
    ensures forall s :: s in freq.values <==> s == Container.Eof || s in gs
    ensures Container.Eof in freq.values && freq.values[Container.Eof] == 1
    ensures forall s | s in freq.values && s != Container.Eof :: freq.values[s] == multiset(gs)[s]
  {
    Dicts.Insert(Tally(Dicts.Empty(), gs), Container.Eof, 1)
  }

  /** The symbols the encoder reads from `lines` in groups of `size`, and the Huffman map built for them. */
  function MapFor(lines: seq<string>, size: nat): (m: Dicts.Dict<string, Huffman.Code>)
    requires size >= 1 && forall i | 0 <= i < |lines| :: lines[i] != []
    ensures Dicts.Valid(m)
    ensures forall s :: s in m.values <==> s == Container.Eof || s in Grouping.Groups(lines, size)
  {
    var freq := Occurrences(Grouping.Groups(lines, size));
    HuffmanCodes.BuildHuffmanMap(freq)
  }

  /**
    `encode`: the header for the map, the codes of the symbols as the grouping
    reader yields them batch by batch, the end-of-file code, and zero bits up
    to a whole byte. Encoding batch by batch writes the file `Layout`
    describes for the text's symbols taken all at once.
   */
  function Encode(lines: seq<string>, size: nat, width: nat): (data: seq<byte>)
    requires size >= 1 && forall i | 0 <= i < |lines| :: lines[i] != []
    ensures var m := MapFor(lines, size);
            && Dicts.Valid(m) && Container.Eof in m.values
            && (forall s | s in Grouping.Groups(lines, size) :: s in m.values)
            && data == Layout(m, Grouping.Groups(lines, size), width)
  {
    var gs := Grouping.Groups(lines, size);
    var m := MapFor(lines, size);
    SymbolsCoded(gs, m.values);
    var body := Body.EncodeBatches(m.values, Grouping.Run(Grouping.Init(lines, size)));
    ToFile(Container.EncodeMap(m, width) + body + m.values[Container.Eof])
  }

  /**
    The file for the map `m` and the symbols `gs`: its bits are the header,
    the symbols' codes in order and the end-of-file code, padded with zero
    bits to a whole number of bytes.
   */
  function Layout(m: Dicts.Dict<string, Huffman.Code>, gs: seq<string>, width: nat): (data: seq<byte>)
    requires Dicts.Valid(m) && Container.Eof in m.values && forall s | s in gs :: s in m.values
    ensures var bits := Container.EncodeMap(m, width) + Body.EncodeSymbols(m.values, gs) + m.values[Container.Eof];
            BytesToBits(data) == bits + Zeros(PadLength(|bits|))
  {
    ToFile(Container.EncodeMap(m, width) + Body.EncodeSymbols(m.values, gs) + m.values[Container.Eof])
  }

  lemma SymbolsCoded(gs: seq<string>, codes: map<string, Huffman.Code>)
    requires forall s :: s in codes <==> s == Container.Eof || s in gs
    ensures Container.Eof in codes && forall i | 0 <= i < |gs| :: gs[i] in codes
  {
  }

  /**
    `decode`: `None` when the header is cut short, otherwise the bytes the
    body loop writes. An empty file has no header.
   */
  function Decode(data: seq<byte>, width: nat): (out: Option<seq<byte>>)
    ensures data == [] ==> out == None
  {
    var r := BitReader.Open(data);
    match Container.DecodeHeader(map[], r, width)
    case HeaderErr => None
    case Header(dmap, next) => Some(Body.BodyLoop(dmap, next, []).text)
  }

  /** The text holds neither separator character the container format reserves. */
  predicate Clean(text: string)
  {
    28 as char !in text && 29 as char !in text
  }

  /** No symbol is one of the two separators on its own; a separator inside a longer symbol is harmless. */
  predicate NoSeparators(gs: seq<string>)
  {
    forall i | 0 <= i < |gs| :: gs[i] != Container.Eof && gs[i] != Container.MapEnd
  }

  /** Every Huffman code of the map built for `lines` fits the 5-bit length field. */
  predicate ShortCodes(lines: seq<string>, size: nat)
    requires size >= 1 && forall i | 0 <= i < |lines| :: lines[i] != []
  {
    var m := MapFor(lines, size);
    forall s | s in m.values :: |m.values[s]| < 32
  }

  /**
    The texts the round trip covers: non-empty lines, a block size of at
    least one, no symbol that is a separator on its own, and codes shorter
    than 32 bits.
   */
  predicate Encodable(lines: seq<string>, size: nat)
  {
    && size >= 1 && (forall i | 0 <= i < |lines| :: lines[i] != [])
    && NoSeparators(Grouping.Groups(lines, size)) && ShortCodes(lines, size)
  }

  /** Every symbol's UTF-8 byte count fits a count field of `width` bits. */
  predicate SymbolsFit(gs: seq<string>, width: nat)
  {
    forall i | 0 <= i < |gs| :: |Utf8.Encode(gs[i])| < Pow2(width)
  }

  /**
    The round trip: for a text none of whose symbols is a separator on its
    own, whose symbols' UTF-8 byte counts fit in `width` bits, and whose
    codes are shorter than 32 bits, decoding the encoded file gives back
    the text's UTF-8 bytes.
   */
  lemma RoundTrip(lines: seq<string>, size: nat, width: nat)
    requires Encodable(lines, size) && width >= 1
    requires SymbolsFit(Grouping.Groups(lines, size), width)
    ensures Decode(Encode(lines, size, width), width) == Some(Utf8.Encode(Flatten(lines)))
  {
    var gs := Grouping.Groups(lines, size);
    var m := MapFor(lines, size);
    MapShape(gs);
    HeaderFits(m, gs, width);
    Distinct(m);
    assert CodesFor(m.values, gs);
    DecodeEncoded(m, gs, width);
  }

  /** A field wide enough for `4 * size`, the most bytes a block can take, fits every symbol. */
  lemma RoundTripWide(lines: seq<string>, size: nat, width: nat)
    requires Encodable(lines, size) && 4 * size < Pow2(width)
    ensures Decode(Encode(lines, size, width), width) == Some(Utf8.Encode(Flatten(lines)))
  {
    assert width >= 1 by { assert Pow2(0) == 1; }
    RoundTrip(lines, size, width);
  }

  /**
    With the count-field width derived from the block size by the corrected
    rule (the bit length of `4 * size`), every text of the round trip's kind
    decodes to itself: no block's byte count overflows its field.
   */
  lemma RoundTripAtHeaderWidth(lines: seq<string>, size: nat)
    requires Encodable(lines, size)
    ensures var width := Width.HeaderWidth(size);
            Decode(Encode(lines, size, width), width) == Some(Utf8.Encode(Flatten(lines)))
  {
    RoundTripWide(lines, size, Width.HeaderWidth(size));
  }

  /** Every character is below 0x80, so each takes one byte in UTF-8. */
  predicate Ascii(text: string)
  {
    forall c | c in text :: c as int < 0x80
  }

  /**
    At the command line's own width, the default block sizes included, an
    ASCII text round-trips: its blocks take at most `size` bytes, which the
    field of `ceil(log2(4 * size))` bits holds.
   */
  lemma RoundTripAsciiAtCliWidth(lines: seq<string>, size: nat)
    requires Encodable(lines, size) && Ascii(Flatten(lines))
    ensures var width := Width.CliHeaderWidth(size);
            Decode(Encode(lines, size, width), width) == Some(Utf8.Encode(Flatten(lines)))
  {
    var width := Width.CliHeaderWidth(size);
    AsciiFits(Grouping.Groups(lines, size), size, width);
    RoundTrip(lines, size, width);
  }

  lemma AsciiFits(gs: seq<string>, size: nat, width: nat)
    requires Ascii(Flatten(gs)) && 4 * size <= Pow2(width)
    requires forall i | 0 <= i < |gs| :: 1 <= |gs[i]| <= size
    ensures SymbolsFit(gs, width)
  {
    forall i | 0 <= i < |gs| ensures |Utf8.Encode(gs[i])| < Pow2(width) {
      forall c | c in gs[i] ensures c as int < 0x80 {
        FlattenContains(gs, i, c);
      }
      Utf8.EncodeAscii(gs[i]);
    }
  }

  /**
    `m` codes the end-of-file marker and every symbol of `gs` and nothing
    else, no code is a prefix of another, and the codes are non-empty unless
    the marker is the only symbol.
   */
  ghost predicate CodesFor(m: map<string, Huffman.Code>, gs: seq<string>)
  {
    && Body.PrefixFree(m)
    && (forall s :: s in m <==> s == Container.Eof || s in gs)
    && (forall i | 0 <= i < |gs| :: gs[i] != Container.Eof)
    && (gs != [] ==> forall s | s in m :: m[s] != [])
    && (gs == [] ==> m == map[Container.Eof := []])
  }

  /** Decoding the file written for the map `m` and the symbols `gs` gives back the symbols' bytes. */
  lemma DecodeEncoded(m: Dicts.Dict<string, Huffman.Code>, gs: seq<string>, width: nat)
    requires Dicts.Valid(m) && width >= 1 && CodesFor(m.values, gs)
    requires Container.DistinctCodes(Dicts.Items(m)) && Container.AllFit(Dicts.Items(m), width)
    ensures forall i | 0 <= i < |gs| :: gs[i] in m.values
    ensures Decode(ToFile(Container.EncodeMap(m, width) + Body.EncodeSymbols(m.values, gs) + m.values[Container.Eof]), width)
            == Some(Utf8.Encode(Flatten(gs)))
  {
    var items := Dicts.Items(m);
    var body := Body.EncodeSymbols(m.values, gs);
    var eof := m.values[Container.Eof];
    var bits := Container.EncodeMap(m, width) + body + eof;
    var z := Zeros(PadLength(|bits|));
    var next := HeaderOfFile(m, width, body, eof);
    var dmap := Container.Invert(map[], items);
    DecodeOf(ToFile(bits), width, dmap, next);
    InverseOfHeader(m, dmap);
    BodyText(dmap, m, gs, next, z);
  }

  /** The header of an encoded file reads back as the inverse of the map, and the rest of the file follows it. */
  lemma HeaderOfFile(m: Dicts.Dict<string, Huffman.Code>, width: nat, body: seq<bool>, eof: seq<bool>)
    returns (next: BitReader.Reader)
    requires Dicts.Valid(m) && width >= 1 && Container.AllFit(Dicts.Items(m), width)
    ensures var bits := Container.EncodeMap(m, width) + body + eof;
            && BitReader.Valid(next)
            && Container.DecodeHeader(map[], BitReader.Open(ToFile(bits)), width)
               == Container.Header(Container.Invert(map[], Dicts.Items(m)), next)
            && BitReader.Unread(next) == body + eof + Zeros(PadLength(|bits|))
  {
    var items := Dicts.Items(m);
    var bits := Container.EncodeMap(m, width) + body + eof;
    var z := Zeros(PadLength(|bits|));
    var data := ToFile(bits);
    var r := BitReader.Open(data);
    FileLayout(r, data, Container.EncodeEntries(items, width), Container.Terminator(width), body, eof, z);
    next := Container.DecodeEncodedHeader(map[], r, items, width, body + eof + z);
  }

  /** `decode` once the header has been read. */
  lemma DecodeOf(data: seq<byte>, width: nat, dmap: map<Huffman.Code, seq<byte>>, next: BitReader.Reader)
    requires BitReader.Valid(next)
    requires Container.DecodeHeader(map[], BitReader.Open(data), width) == Container.Header(dmap, next)
    ensures Decode(data, width) == Some(Body.BodyLoop(dmap, next, []).text)
  {
  }

  /** A group of the text contains only characters of the text, so neither separator is a group. */
  lemma GroupsClean(gs: seq<string>, text: string)
    requires Flatten(gs) == text && Clean(text)
    ensures NoSeparators(gs)
  {
    forall i | 0 <= i < |gs| ensures gs[i] != Container.Eof && gs[i] != Container.MapEnd {
      if gs[i] == Container.Eof {
        FlattenContains(gs, i, 28 as char);
      }
      if gs[i] == Container.MapEnd {
        FlattenContains(gs, i, 29 as char);
      }
    }
  }

  /** A text with neither separator character meets the separator condition at every block size. */
  lemma CleanIsEncodable(lines: seq<string>, size: nat)
    requires size >= 1 && (forall i | 0 <= i < |lines| :: lines[i] != [])
    requires Clean(Flatten(lines)) && ShortCodes(lines, size)
    ensures Encodable(lines, size)
  {
    GroupsClean(Grouping.Groups(lines, size), Flatten(lines));
  }

  /**
    The map for a text with symbols gives every symbol a non-empty code and
    no code is a prefix of another; the map for an empty text holds the
    end-of-file symbol alone, with the empty code.
   */
  lemma MapShape(gs: seq<string>)
    requires forall i | 0 <= i < |gs| :: gs[i] != Container.Eof
    ensures var m := HuffmanCodes.BuildHuffmanMap(Occurrences(gs));
            && Body.PrefixFree(m.values)
            && (gs != [] ==> forall s | s in m.values :: m.values[s] != [])
            && (gs == [] ==> m.values == map[Container.Eof := []])
  {
    var freq := Occurrences(gs);
    var m := HuffmanCodes.BuildHuffmanMap(freq);
    if gs != [] {
      assert gs[0] in m.values && Container.Eof in m.values && gs[0] != Container.Eof;
      forall s | s in m.values ensures m.values[s] != [] {
        var other := if s == Container.Eof then gs[0] else Container.Eof;
        assert other in m.values && other != s;
        assert !(m.values[s] <= m.values[other]);
      }
    } else {
      assert Tally(Dicts.Empty(), gs) == Dicts.Empty();
      assert freq.keys == [Container.Eof];
    }
  }

  /** Every entry of the header is written with fixed-width fields. */
  lemma HeaderFits(m: Dicts.Dict<string, Huffman.Code>, gs: seq<string>, width: nat)
    requires Dicts.Valid(m) && width >= 1
    requires forall s :: s in m.values <==> s == Container.Eof || s in gs
    requires NoSeparators(gs) && SymbolsFit(gs, width)
    requires forall s | s in m.values :: |m.values[s]| < 32
    ensures Container.AllFit(Dicts.Items(m), width)
  {
    var items := Dicts.Items(m);
    forall i | 0 <= i < |items| ensures Container.Fits(items[i].0, items[i].1, width) {
      var s := items[i].0;
      assert s in m.values by { assert m.keys[i] in m.values; }
      if s != Container.Eof {
        var j :| 0 <= j < |gs| && gs[j] == s;
      } else {
        Container.SeparatorBytes();
        PowMonotone(1, width);
      }
    }
    AllFitOf(items, width);
  }

  lemma {:induction false} AllFitOf(items: seq<(string, Huffman.Code)>, width: nat)
    requires forall i | 0 <= i < |items| :: Container.Fits(items[i].0, items[i].1, width)
    ensures Container.AllFit(items, width)
    decreases |items|
  {
    if items != [] {
      assert forall i | 0 <= i < |items| - 1 :: items[1..][i] == items[i + 1];
      AllFitOf(items[1..], width);
    }
  }

  /** Prefix-free codes of distinct symbols are distinct. */
  lemma Distinct(m: Dicts.Dict<string, Huffman.Code>)
    requires Dicts.Valid(m) && Body.PrefixFree(m.values)
    ensures Container.DistinctCodes(Dicts.Items(m))
  {
    var items := Dicts.Items(m);
    forall i, j | 0 <= i < j < |items| ensures items[i].1 != items[j].1 {
      assert m.keys[i] != m.keys[j] && m.keys[i] in m.values && m.keys[j] in m.values;
      assert !(m.values[m.keys[i]] <= m.values[m.keys[j]]);
    }
  }

  /** The unread bits of a freshly opened encoded file, grouped as the header lemma expects them. */
  lemma FileLayout(r: BitReader.Reader, data: seq<byte>, e: seq<bool>, t: seq<bool>, b: seq<bool>, c: seq<bool>, z: seq<bool>)
    requires r == BitReader.Open(data) && BytesToBits(data) == e + t + b + c + z
    ensures BitReader.Valid(r) && BitReader.Unread(r) == e + t + (b + c + z)
  {
    BitReader.UnreadOpen(data);
    Assoc(e + t, b, c, z);
  }

  /** The decoding map read back from the header is the inverse of the encoding map. */
  lemma InverseOfHeader(m: Dicts.Dict<string, Huffman.Code>, dmap: map<Huffman.Code, seq<byte>>)
    requires Dicts.Valid(m) && Container.DistinctCodes(Dicts.Items(m))
    requires dmap == Container.Invert(map[], Dicts.Items(m))
    ensures Body.Inverse(dmap, m.values)
  {
    var items := Dicts.Items(m);
    Container.InvertDistinct(map[], items);
    Container.InvertKeys(map[], items);
    forall s | s in m.values ensures m.values[s] in dmap && dmap[m.values[s]] == Utf8.Encode(s) {
      var i :| 0 <= i < |m.keys| && m.keys[i] == s;
      assert items[i] == (s, m.values[s]);
    }
    forall c | c in dmap ensures exists s | s in m.values :: m.values[s] == c {
      var i :| 0 <= i < |items| && items[i].1 == c;
      assert m.keys[i] in m.values;
    }
  }

  /** The body loop on what follows the header writes the text's bytes. */
  lemma BodyText(dmap: map<Huffman.Code, seq<byte>>, m: Dicts.Dict<string, Huffman.Code>, gs: seq<string>,
                 next: BitReader.Reader, z: seq<bool>)
    requires Body.Inverse(dmap, m.values) && CodesFor(m.values, gs)
    requires BitReader.Valid(next)
    requires BitReader.Unread(next) == Body.EncodeSymbols(m.values, gs) + m.values[Container.Eof] + z
    ensures Body.BodyLoop(dmap, next, []).text == Utf8.Encode(Flatten(gs))
  {
    var nil: Huffman.Code := [];
    if gs == [] {
      forall c | c in dmap ensures c == nil {
        var s :| s in m.values && m.values[s] == c;
      }
      Body.NothingMatches(dmap, BitReader.Unread(next), nil);
    } else {
      Body.DecodeEncodedBody(dmap, m.values, gs, z);
    }
  }
}
