/**
  A worked example of the header width the command line picks: a one-line
  text holding the single character U+1F600, compressed with block size 1.
  The symbol's UTF-8 encoding is four bytes; at the command line's width of
  two bits the count field overflows into a third bit, and the decoder,
  reading two bits, loses its place and rejects the file. At the corrected
  width of three bits the same text comes back.
 */
module CliExample {
  import opened Bits
  import opened Seqs
  import Dicts
  import Utf8
  import Grouping
  import Huffman
  import HuffmanCodes
  import Body
  import BitReader
  import Container
  import Codec
  import Width

  /** U+1F600 GRINNING FACE, a character whose UTF-8 encoding is four bytes. */
  const Grinning: string := "\U{1F600}"

  /** The Huffman map the encoder builds for the example: one bit per symbol. */
  const Codes := Dicts.Dict([Grinning, Container.Eof], map[Grinning := [false], Container.Eof := [true]])

  /** The 72 bits of the file written at width 2, as a number. */
  const FileValue: nat := 2916023073949247185832

  /** The example's map is a well-formed dictionary holding both symbols. */
  lemma CodesValid()
    ensures Dicts.Valid(Codes) && Grinning in Codes.values && Container.Eof in Codes.values
  {
    assert Container.Eof[0] != Grinning[0];
  }

  // ---------------------------------------------------------------------
  // Building the map
  // ---------------------------------------------------------------------

  lemma GroupsOfExample()
    ensures Grouping.Groups([Grinning], 1) == [Grinning]
  {
    var gs := Grouping.Groups([Grinning], 1);
    Grouping.FlattenFull(gs, 1);
    assert [Grinning][1..] == [];
    assert Flatten([Grinning]) == Grinning + Flatten([Grinning][1..]);
    assert |gs| == 1;
    assert gs[1..] == [];
    assert Flatten(gs) == gs[0] + Flatten(gs[1..]);
    assert gs[0] == Flatten(gs) == Grinning;
    assert gs == [gs[0]];
  }

  lemma TallyOfExample()
    ensures Codec.Tally(Dicts.Empty(), [Grinning]) == Dicts.Dict([Grinning], map[Grinning := 1])
  {
    var d1 := Dicts.Insert(Dicts.Empty(), Grinning, 1);
    assert d1 == Dicts.Dict([Grinning], map[Grinning := 1]);
    assert [Grinning][1..] == [];
    assert Codec.Tally(Dicts.Empty(), [Grinning]) == Codec.Tally(d1, []);
  }

  lemma CountsOfExample()
    ensures Codec.Occurrences([Grinning]) == Dicts.Dict([Grinning, Container.Eof], map[Grinning := 1, Container.Eof := 1])
  {
    TallyOfExample();
    var t := Dicts.Dict([Grinning], map[Grinning := 1]);
    assert Container.Eof !in t.values by { assert Container.Eof[0] != Grinning[0]; }
    assert Dicts.Insert(t, Container.Eof, 1) == Dicts.Dict([Grinning] + [Container.Eof], map[Grinning := 1, Container.Eof := 1]);
    assert [Grinning] + [Container.Eof] == [Grinning, Container.Eof];
  }

  const SymbolSlot := Huffman.Slot(Huffman.Leaf(Grinning, 1), 0)
  const EofSlot := Huffman.Slot(Huffman.Leaf(Container.Eof, 1), 1)

  lemma SlotsOfExample()
    ensures Huffman.LeafSlots([Grinning, Container.Eof], map[Grinning := 1, Container.Eof := 1], 0) == [SymbolSlot, EofSlot]
  {
  }

  /** Both leaves weigh 1; the first one popped is the symbol's, which goes to the left. */
  lemma TreeOfExample()
    ensures Huffman.BuildTree([SymbolSlot, EofSlot], 2) == Huffman.Combine(SymbolSlot.node, EofSlot.node)
  {
    assert Huffman.MinIndex([SymbolSlot, EofSlot]) == 0;
    assert Huffman.Pop([SymbolSlot, EofSlot]) == Huffman.Popped(SymbolSlot, [EofSlot]);
    assert Huffman.MinIndex([EofSlot]) == 0;
    assert Huffman.Pop([EofSlot]) == Huffman.Popped(EofSlot, []);
    assert Huffman.Merge([SymbolSlot, EofSlot], 2) == [Huffman.Slot(Huffman.Combine(SymbolSlot.node, EofSlot.node), 2)];
  }

  lemma CodesOfExample()
    ensures HuffmanCodes.Traverse(Huffman.Combine(SymbolSlot.node, EofSlot.node), [], Dicts.Empty()) == Codes
  {
    var d1 := HuffmanCodes.Traverse(SymbolSlot.node, [false], Dicts.Empty());
    assert d1 == Dicts.Dict([Grinning], map[Grinning := [false]]);
    assert HuffmanCodes.Traverse(EofSlot.node, [true], d1) == Dicts.Insert(d1, Container.Eof, [true]);
    assert Container.Eof[0] != Grinning[0];
    assert Dicts.Insert(d1, Container.Eof, [true]) == Dicts.Dict([Grinning] + [Container.Eof], Codes.values);
    assert [Grinning] + [Container.Eof] == [Grinning, Container.Eof];
    assert [] + [false] == [false] && [] + [true] == [true];
  }

  /** The symbol gets the code 0 and the end-of-file marker the code 1. */
  lemma MapOfExample()
    ensures Codec.MapFor([Grinning], 1) == Codes
  {
    GroupsOfExample();
    CountsOfExample();
    SlotsOfExample();
    TreeOfExample();
    CodesOfExample();
  }

  lemma GrinningBytes()
    ensures Utf8.Encode(Grinning) == [0xF0, 0x9F, 0x98, 0x80]
  {
    assert Utf8.Encode(Grinning) == Utf8.EncodeChar(Grinning[0]) + Utf8.Encode([]);
  }

  // ---------------------------------------------------------------------
  // Bit strings as numbers
  // ---------------------------------------------------------------------

  /** Eight more bits multiply the place value by 256. */
  lemma ByteShift(n: nat)
    ensures Pow2(n + 8) == 256 * Pow2(n)
  {
    assert Pow2(n + 8) == 2 * Pow2(n + 7) == 4 * Pow2(n + 6) == 8 * Pow2(n + 5) == 16 * Pow2(n + 4);
    assert Pow2(n + 4) == 2 * Pow2(n + 3) == 4 * Pow2(n + 2) == 8 * Pow2(n + 1) == 16 * Pow2(n);
  }

  lemma PlaceValues()
    ensures Pow2(8) == 256 && Pow2(16) == 65536 && Pow2(24) == 16777216 && Pow2(32) == 4294967296
  {
    ByteShift(0);
    ByteShift(8);
    ByteShift(16);
    ByteShift(24);
  }

  lemma OneByte(a: byte)
    ensures BytesToBits([a]) == NatToBits(a, 8)
  {
    assert [a][1..] == [];
  }

  lemma TwoBytes(a: byte, b: byte)
    ensures BytesToBits([a, b]) == NatToBits(a * 256 + b, 16)
  {
    assert [a, b][1..] == [b];
    OneByte(b);
    assert Pow2(8) == 256;
    NatToBitsConcat(a, 8, b, 8);
  }

  /** Two 16-bit fields side by side. */
  lemma JoinHalves(x: nat, y: nat) returns (n: nat)
    requires y < 65536
    ensures NatToBits(x, 16) + NatToBits(y, 16) == NatToBits(n, 32)
    ensures n == x * 65536 + y
  {
    ByteShift(0);
    ByteShift(8);
    NatToBitsConcat(x, 16, y, 16);
    n := x * 65536 + y;
  }

  lemma FourBytes(a: byte, b: byte, c: byte, d: byte) returns (n: nat)
    ensures BytesToBits([a, b, c, d]) == NatToBits(n, 32)
    ensures n == ((a * 256 + b) * 256 + c) * 256 + d
  {
    assert [a, b, c, d] == [a, b] + [c, d];
    BytesToBitsAppend([a, b], [c, d]);
    TwoBytes(a, b);
    TwoBytes(c, d);
    n := JoinHalves(a * 256 + b, c * 256 + d);
  }

  // ---------------------------------------------------------------------
  // The file written at width 2
  // ---------------------------------------------------------------------

  /** An entry as the encoder lays it out, for a symbol whose UTF-8 bytes are `bytes`. */
  lemma EntryLayout(symbol: string, code: Huffman.Code, width: nat, bytes: seq<byte>)
    requires Utf8.Encode(symbol) == bytes
    ensures Container.EncodeEntry(symbol, code, width)
            == FormatBinary(|bytes|, width) + BytesToBits(bytes) + FormatBinary(|code|, 5) + code
  {
  }

  /** A field of `wa` bits followed by a field of `wb` bits, where `p` is the place value of the first. */
  lemma Join(a: nat, wa: nat, b: nat, wb: nat, p: nat) returns (n: nat)
    requires p == Pow2(wb) && b < p
    ensures NatToBits(a, wa) + NatToBits(b, wb) == NatToBits(n, wa + wb)
    ensures n == a * p + b
  {
    NatToBitsConcat(a, wa, b, wb);
    n := a * p + b;
  }

  /** Four fields side by side, given the place values `pq`, `pr`, `ps` of the last three. */
  lemma JoinFields(x: seq<bool>, p: nat, wp: nat, q: nat, wq: nat, r: nat, wr: nat, s: nat, ws: nat, pq: nat, pr: nat, ps: nat)
    returns (n: nat)
    requires pq == Pow2(wq) && pr == Pow2(wr) && ps == Pow2(ws) && q < pq && r < pr && s < ps
    requires x == NatToBits(p, wp) + NatToBits(q, wq) + NatToBits(r, wr) + NatToBits(s, ws)
    ensures x == NatToBits(n, wp + wq + wr + ws)
    ensures n == ((p * pq + q) * pr + r) * ps + s
  {
    n := Join(p, wp, q, wq, pq);
    n := Join(n, wp + wq, r, wr, pr);
    n := Join(n, wp + wq + wr, s, ws, ps);
  }

  /** The symbol's entry as the encoder lays it out. */
  lemma SymbolLayout(symbol: string, code: Huffman.Code, bytes: seq<byte>)
    requires symbol == Grinning && code == [false] && bytes == [0xF0, 0x9F, 0x98, 0x80]
    ensures Container.EncodeEntry(symbol, code, 2) == FormatBinary(4, 2) + BytesToBits(bytes) + FormatBinary(1, 5) + [false]
  {
    GrinningBytes();
    EntryLayout(symbol, code, 2, bytes);
  }

  /**
    The fields around the symbol's bytes: the byte count 4 overflows the
    two-bit field into the three bits 100; the code length 1 and the code 0
    fill their fields.
   */
  lemma SymbolFields()
    ensures FormatBinary(4, 2) == NatToBits(4, 3)
    ensures FormatBinary(1, 5) == NatToBits(1, 5)
    ensures [false] == NatToBits(0, 1)
  {
    var field := Width.FourInTwo();
    assert field == NatToBits(4, 3);
    assert Pow2(5) == 32;
  }

  /** The symbol's entry with its four bytes read as one 32-bit field. */
  lemma SymbolWords(symbol: string, code: Huffman.Code) returns (v: nat)
    requires symbol == Grinning && code == [false]
    ensures Container.EncodeEntry(symbol, code, 2) == NatToBits(4, 3) + NatToBits(v, 32) + NatToBits(1, 5) + NatToBits(0, 1)
    ensures v == 4036991104
  {
    var a, b, c, d: byte := 0xF0, 0x9F, 0x98, 0x80;
    SymbolLayout(symbol, code, [a, b, c, d]);
    SymbolFields();
    v := FourBytes(a, b, c, d);
  }

  /** The four fields of the symbol's entry as one 41-bit number. */
  lemma SymbolNumber(x: seq<bool>, v: nat) returns (n: nat)
    requires v == 4036991104 && x == NatToBits(4, 3) + NatToBits(v, 32) + NatToBits(1, 5) + NatToBits(0, 1)
    ensures x == NatToBits(n, 41)
    ensures n == 1357879058434
  {
    PlaceValues();
    assert Pow2(5) == 32 && Pow2(1) == 2;
    n := JoinFields(x, 4, 3, v, 32, 1, 5, 0, 1, 4294967296, 32, 2);
  }

  /** The symbol's entry as one 41-bit number. */
  lemma SymbolEntry(symbol: string, code: Huffman.Code) returns (n: nat)
    requires symbol == Grinning && code == [false]
    ensures Container.EncodeEntry(symbol, code, 2) == NatToBits(n, 41)
    ensures n == 1357879058434
  {
    var v := SymbolWords(symbol, code);
    n := SymbolNumber(Container.EncodeEntry(symbol, code, 2), v);
  }

  /** The end-of-file marker's entry: count 1, the byte 0x1C, code length 1, code 1. */
  lemma EofEntry(symbol: string, code: Huffman.Code) returns (n: nat)
    requires symbol == Container.Eof && code == [true]
    ensures Container.EncodeEntry(symbol, code, 2) == NatToBits(n, 16)
    ensures n == 18179
  {
    var e: byte := 0x1C;
    Container.SeparatorBytes();
    assert Pow2(2) == 4 && Pow2(5) == 32 && Pow2(1) == 2;
    OneByte(e);
    assert [true] == NatToBits(1, 1);
    ByteShift(0);
    n := JoinFields(Container.EncodeEntry(symbol, code, 2), 1, 2, e, 8, 1, 5, 1, 1, 256, 32, 2);
  }

  /** The map terminator at width 2: count 1 and the byte 0x1D. */
  lemma TerminatorFields()
    ensures Container.Terminator(2) == NatToBits(1, 2) + NatToBits(29, 8)
  {
    var t: byte := 0x1D;
    Container.SeparatorBytes();
    assert Pow2(2) == 4;
    assert FormatBinary(1, 2) == NatToBits(1, 2);
    OneByte(t);
  }

  lemma TerminatorAtTwo() returns (n: nat)
    ensures Container.Terminator(2) == NatToBits(n, 10)
    ensures n == 285
  {
    TerminatorFields();
    ByteShift(0);
    n := Join(1, 2, 29, 8, 256);
  }

  lemma ItemsOfExample(m: Dicts.Dict<string, Huffman.Code>)
    requires m == Codes
    ensures Dicts.Items(m) == [(Grinning, [false]), (Container.Eof, [true])]
  {
    var items := Dicts.Items(m);
    assert |items| == 2;
    assert items[0] == (Grinning, [false]);
    assert items[1] == (Container.Eof, [true]);
  }

  /** The entry of a one-item map. */
  lemma OneEntry(items: seq<(string, Huffman.Code)>, width: nat, e: string, c1: Huffman.Code)
    requires items == [(e, c1)]
    ensures Container.EncodeEntries(items, width) == Container.EncodeEntry(e, c1, width)
  {
    assert items[1..] == [];
    assert Container.EncodeEntries(items, width) == Container.EncodeEntry(e, c1, width) + Container.EncodeEntries(items[1..], width);
    assert Container.EncodeEntry(e, c1, width) + [] == Container.EncodeEntry(e, c1, width);
  }

  /** The entries of a two-item map, one after the other. */
  lemma TwoEntries(items: seq<(string, Huffman.Code)>, width: nat, g: string, c0: Huffman.Code, e: string, c1: Huffman.Code)
    requires items == [(g, c0), (e, c1)]
    ensures Container.EncodeEntries(items, width) == Container.EncodeEntry(g, c0, width) + Container.EncodeEntry(e, c1, width)
  {
    assert items[1..] == [(e, c1)];
    OneEntry(items[1..], width, e, c1);
  }

  /** Both entries at width 2, 57 bits. */
  lemma EntriesAtTwo(m: Dicts.Dict<string, Huffman.Code>, width: nat) returns (n: nat)
    requires m == Codes && width == 2
    ensures Container.EncodeEntries(Dicts.Items(m), width) == NatToBits(n, 57)
    ensures n == 88989961973548803
  {
    var g, c0, e, c1 := Grinning, [false], Container.Eof, [true];
    ItemsOfExample(m);
    TwoEntries(Dicts.Items(m), width, g, c0, e, c1);
    var e1 := SymbolEntry(g, c0);
    var e2 := EofEntry(e, c1);
    PlaceValues();
    n := Join(e1, 41, e2, 16, 65536);
  }

  /** The header written at width 2: both entries and the terminator, 67 bits. */
  lemma HeaderAtTwo(m: Dicts.Dict<string, Huffman.Code>, width: nat) returns (n: nat)
    requires m == Codes && width == 2
    ensures Container.EncodeMap(m, width) == NatToBits(n, 67)
    ensures n == 91125721060913974557
  {
    var entries := EntriesAtTwo(m, width);
    var t := TerminatorAtTwo();
    assert Pow2(10) == 1024;
    n := Join(entries, 57, t, 10, 1024);
  }

  /** The body: the symbol's code 0, then the end-of-file code 1. */
  lemma BodyAtTwo(m: Dicts.Dict<string, Huffman.Code>, gs: seq<string>)
    requires m == Codes && gs == [Grinning]
    ensures Body.EncodeSymbols(m.values, gs) == [false]
    ensures m.values[Container.Eof] == [true]
  {
    assert gs[1..] == [];
    assert Body.EncodeSymbols(m.values, gs) == m.values[Grinning] + Body.EncodeSymbols(m.values, gs[1..]);
  }

  /** A 67-bit header followed by the bits 0 and 1. */
  lemma HeaderThenCodes(header: seq<bool>, h: nat, body: seq<bool>, eof: seq<bool>) returns (n: nat)
    requires header == NatToBits(h, 67) && body == [false] && eof == [true]
    ensures header + body + eof == NatToBits(n, 69)
    ensures n == 4 * h + 1
  {
    assert body == NatToBits(0, 1) && eof == NatToBits(1, 1) && Pow2(1) == 2;
    n := Join(h, 67, 0, 1, 2);
    n := Join(n, 68, 1, 1, 2);
  }

  /** The encoder writes the layout of the example's map and symbols. */
  lemma EncodedLayout(lines: seq<string>, size: nat, width: nat)
    requires lines == [Grinning] && size == 1
    ensures Codec.Encode(lines, size, width) == Codec.Layout(Codes, [Grinning], width)
  {
    MapOfExample();
    GroupsOfExample();
  }

  /** 69 bits padded with three zero bits to nine bytes. */
  lemma Padded(bits: seq<bool>, b: nat) returns (n: nat)
    requires bits == NatToBits(b, 69)
    ensures bits + Zeros(PadLength(|bits|)) == NatToBits(n, 72)
    ensures n == 8 * b
  {
    var pad := PadLength(|bits|);
    assert pad == 3;
    Container.ZeroBits(pad);
    assert Pow2(3) == 8;
    n := Join(b, 69, 0, pad, 8);
  }

  /** A layout whose header is 67 bits, whose body is the code 0 and whose end-of-file code is 1, padded to nine bytes. */
  lemma PaddedLayout(m: Dicts.Dict<string, Huffman.Code>, gs: seq<string>, width: nat, h: nat) returns (n: nat)
    requires Dicts.Valid(m) && Container.Eof in m.values && forall s | s in gs :: s in m.values
    requires Container.EncodeMap(m, width) == NatToBits(h, 67)
    requires Body.EncodeSymbols(m.values, gs) == [false] && m.values[Container.Eof] == [true]
    ensures BytesToBits(Codec.Layout(m, gs, width)) == NatToBits(n, 72)
    ensures n == 8 * (4 * h + 1)
  {
    var header, body, eof := Container.EncodeMap(m, width), Body.EncodeSymbols(m.values, gs), m.values[Container.Eof];
    var b := HeaderThenCodes(header, h, body, eof);
    n := Padded(header + body + eof, b);
  }

  /** The whole file written at width 2. */
  lemma FileAtTwo(lines: seq<string>, size: nat, width: nat) returns (n: nat)
    requires lines == [Grinning] && size == 1 && width == 2
    ensures BytesToBits(Codec.Encode(lines, size, width)) == NatToBits(n, 72)
    ensures n == FileValue
  {
    EncodedLayout(lines, size, width);
    var m, gs := Codes, [Grinning];
    CodesValid();
    var h := HeaderAtTwo(m, width);
    BodyAtTwo(m, gs);
    n := PaddedLayout(m, gs, width, h);
  }

  // ---------------------------------------------------------------------
  // The same file read back at width 2
  // ---------------------------------------------------------------------

  /**
    The first 48 bits as the decoder reads them: a count of 2, the two bytes
    0x78 0x4F, a code length of 25 and a 25-bit code.
   */
  lemma FirstMisreadEntry(a: byte, b: byte, code: Huffman.Code) returns (n: nat)
    requires a == 0x78 && b == 0x4F && code == NatToBits(17826083, 25)
    ensures NatToBits(2, 2) + BytesToBits([a, b]) + NatToBits(25, 5) + code == NatToBits(n, 48)
    ensures n == 173808519479587
  {
    TwoBytes(a, b);
    PlaceValues();
    assert Pow2(2) == 4 && Pow2(5) == 32;
    n := JoinFields(NatToBits(2, 2) + BytesToBits([a, b]) + NatToBits(25, 5) + code,
                    2, 2, a * 256 + b, 16, 25, 5, 17826083, 25, 65536, 32, 33554432);
  }

  /**
    The last 24 bits as the decoder reads them: a count of 2, the two bytes
    0x06 0x8E, a code length of 20 and a single bit.
   */
  lemma SecondMisreadEntry(a: byte, b: byte) returns (n: nat)
    requires a == 0x06 && b == 0x8E
    ensures NatToBits(2, 2) + BytesToBits([a, b]) + NatToBits(20, 5) + NatToBits(0, 1) == NatToBits(n, 24)
    ensures n == 8496040
  {
    TwoBytes(a, b);
    PlaceValues();
    assert Pow2(2) == 4 && Pow2(5) == 32 && Pow2(1) == 2;
    n := JoinFields(NatToBits(2, 2) + BytesToBits([a, b]) + NatToBits(20, 5) + NatToBits(0, 1),
                    2, 2, a * 256 + b, 16, 20, 5, 0, 1, 65536, 32, 2);
  }

  /** The second entry's symbol is read, but its code runs past the end of the file. */
  lemma SecondEntryMalformed(r: BitReader.Reader, a: byte, b: byte)
    requires BitReader.Valid(r) && a == 0x06 && b == 0x8E
    requires BitReader.Unread(r) == NatToBits(2, 2) + BytesToBits([a, b]) + NatToBits(20, 5) + NatToBits(0, 1)
    ensures Container.DecodeEntry(r, 2) == Container.Malformed
  {
    var f1, f2, f3, f4 := NatToBits(2, 2), BytesToBits([a, b]), NatToBits(20, 5), NatToBits(0, 1);
    assert f1 + f2 + f3 + f4 == f1 + f2 + (f3 + f4);
    BitReader.ReadTwo(r, f1, f2, f3 + f4);
    var count := BitReader.ReadBits(r, 2);
    var sym := BitReader.ReadBits(count.next, 16);
    assert Pow2(2) == 4 && Pow2(5) == 32;
    BitsToNatOfNatToBits(2, 2);
    BitsToBytesOfBytesToBits([a, b]);
    Container.SymbolFromReads(r, 2, count, sym);
    BitReader.ReadKnown(sym.next, f3, f4);
    var len := BitReader.ReadBits(sym.next, 5);
    BitsToNatOfNatToBits(20, 5);
    BitReader.ReadShort(len.next, 20);
  }

  /** The file at width 2 as the decoder splits it: a first entry, then the bits of a second one. */
  lemma FileAsRead(data: seq<byte>, n: nat, a: byte, b: byte, code: Huffman.Code, c: byte, d: byte)
    requires BytesToBits(data) == NatToBits(n, 72) && n == FileValue
    requires a == 0x78 && b == 0x4F && code == NatToBits(17826083, 25) && c == 0x06 && d == 0x8E
    ensures BitReader.Unread(BitReader.Open(data))
            == NatToBits(2, 2) + BytesToBits([a, b]) + NatToBits(25, 5) + code
               + (NatToBits(2, 2) + BytesToBits([c, d]) + NatToBits(20, 5) + NatToBits(0, 1))
  {
    BitReader.UnreadOpen(data);
    var first := FirstMisreadEntry(a, b, code);
    var second := SecondMisreadEntry(c, d);
    PlaceValues();
    var joined := Join(first, 48, second, 24, 16777216);
  }

  /** Read back at width 2, the header loses its place after one entry and the file is rejected. */
  lemma HeaderMisread(data: seq<byte>, n: nat)
    requires BytesToBits(data) == NatToBits(n, 72) && n == FileValue
    ensures Container.DecodeHeader(map[], BitReader.Open(data), 2) == Container.HeaderErr
  {
    var a, b, c, d: byte := 0x78, 0x4F, 0x06, 0x8E;
    var code := NatToBits(17826083, 25);
    var rest := NatToBits(2, 2) + BytesToBits([c, d]) + NatToBits(20, 5) + NatToBits(0, 1);
    FileAsRead(data, n, a, b, code, c, d);
    var r := BitReader.Open(data);
    assert Pow2(2) == 4;
    Container.EntryKnown(r, [a, b], code, 2, rest);
    var e := Container.DecodeEntry(r, 2);
    SecondEntryMalformed(e.next, c, d);
  }

  // ---------------------------------------------------------------------
  // What a user sees
  // ---------------------------------------------------------------------

  /**
    Compressed at the width the command line computes for block size 1,
    which is 2, the one-character text does not come back: the decoder
    rejects the file.
   */
  lemma GrinningFaceLostAtCliWidth()
    ensures Width.CliHeaderWidth(1) == 2
    ensures var w := Width.CliHeaderWidth(1);
            Codec.Decode(Codec.Encode([Grinning], 1, w), w) == Codec.None
  {
    Width.CliWidthTooNarrow(0);
    var n := FileAtTwo([Grinning], 1, 2);
    HeaderMisread(Codec.Encode([Grinning], 1, 2), n);
  }

  lemma ExampleShortCodes(lines: seq<string>, size: nat)
    requires lines == [Grinning] && size == 1
    ensures Codec.ShortCodes(lines, size)
  {
    MapOfExample();
  }

  lemma ExampleNoSeparators(lines: seq<string>, size: nat)
    requires lines == [Grinning] && size == 1
    ensures Codec.NoSeparators(Grouping.Groups(lines, size))
  {
    GroupsOfExample();
    assert Grinning[0] != Container.Eof[0] && Grinning[0] != Container.MapEnd[0];
  }

  /** The example meets the round trip's conditions: one symbol that is not a separator, and one-bit codes. */
  lemma ExampleEncodable(lines: seq<string>, size: nat)
    requires lines == [Grinning] && size == 1
    ensures Codec.Encodable(lines, size)
  {
    ExampleShortCodes(lines, size);
    ExampleNoSeparators(lines, size);
  }

  /** At the corrected width for block size 1, which is 3, the same text comes back byte for byte. */
  lemma GrinningFaceKeptAtHeaderWidth()
    ensures Width.HeaderWidth(1) == 3
    ensures var w := Width.HeaderWidth(1);
            Codec.Decode(Codec.Encode([Grinning], 1, w), w) == Codec.Some(Utf8.Encode(Grinning))
  {
    assert Width.HeaderWidth(1) == 3;
    ExampleEncodable([Grinning], 1);
    assert Flatten([Grinning]) == Grinning + Flatten([]);
    Codec.RoundTripAtHeaderWidth([Grinning], 1);
  }
}
