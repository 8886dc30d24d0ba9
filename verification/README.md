# Huffman text compressor, modelled in Dafny

This project models the lossless Huffman compressor of the `data-compression`
repository (`lossless/huffman`):

- **Symbol grouping.** `GroupingFileReader` cuts the lines of a text file into
  symbols of `block_size` characters. A short group at the end of a line is
  carried over to the next line.
- **Counting and the code map.** `_get_symbol_occurrences` counts the symbols
  and adds the end-of-file symbol U+001C with count 1.
  `build_huffman_map` builds a Huffman tree from the counts with a priority
  queue. It then walks the tree, adding `0` for the zero child and `1` for
  the one child.
- **The `.huff` file.** `encode` writes a header, then the codes of the text,
  then the code of U+001C, padded to whole bytes by `bitarray.tofile`.
  The header has one entry per code:
  - the symbol's UTF-8 byte count in `bits_utf8_block` bits;
  - the symbol's bytes;
  - the code's length in 5 bits;
  - the code.

  A U+001D entry without a code ends the header.
- **The bit reader.** `BinaryFileReader` hands out the file's bits through a
  one-byte buffer. It sets an end-of-file flag once a read from the file
  comes up short.
- **Decoding.** `decode` reads the header back into a decoding map. It then
  grows a pending code one bit at a time until the code is a key of the
  map, and stops at the code of U+001C.

Modules, one per concern of the source:

| module | file | models |
|---|---|---|
| `Bits` | `bits.dfy` | bit strings (`seq<bool>`, most significant bit first), bytes, `'{0:0{n}b}'` formatting, `tofile` padding |
| `Seqs` | `seqs.dfy` | concatenation of a sequence of sequences, regrouping of concatenations, distinctness |
| `Utf8` | `utf8.dfy` | the UTF-8 encoder of section 3 of RFC 3629 (`bytes(s, 'utf-8')`) |
| `Dicts` | `dicts.dfy` | Python's insertion-ordered `dict` |
| `Grouping` | `grouping.dfy` | `GroupingFileReader` |
| `BitReader` | `bit_reader.dfy` | `BinaryFileReader` |
| `Huffman` | `huffman.dfy` | `HuffmanTreeNode`, the heap and `_build_huffman_tree` |
| `HuffmanCodes` | `huffman_codes.dfy` | `_build_huffman_map` and `build_huffman_map` |
| `Container` | `container.dfy` | the header: `_encode_huffman_map(_entry)`, `_decode_huffman_map_entry` and the header loop |
| `Body` | `body.dfy` | the body: `bitarray.encode` and the decoding loop |
| `Codec` | `codec.dfy` | `_get_symbol_occurrences`, `encode`, `decode` and the round trip |
| `Width` | `width.dfy` | the count-field width the command line derives from `--block-size` |
| `CliExample` | `cli_example.dfy` | one file worked through bit by bit: the text U+1F600 at `--block-size 1`, encoded and decoded at the command line's width and at the corrected width |

The reader is an immutable value, `Reader(data, pos, buffer, eof)`. Every
operation returns the bits it hands out together with the next reader.
A file is its byte sequence.
The encoder's output is the byte sequence `tofile` writes. The decoder's
output is the UTF-8 bytes it writes.

## Model

| member | source | states |
|---|---|---|
| Grouping.Chunks | lossless/huffman/grouping_file_reader.py:26-27 | the slices spell the string; every slice but the last has exactly `k` characters; the last has 1 to `k`; a non-empty string gives at least one slice |
| Grouping.Singles | lossless/huffman/grouping_file_reader.py:21 | `list(s)`: one single-character group per character, in order |
| Grouping.Next | lossless/huffman/grouping_file_reader.py:11-36 | iteration stops exactly when the lines are used up and nothing is carried over. For a line, the batch plus the new carry-over spell the old carry-over plus the line, and the batch holds `|text| / size` full groups. At the end, the carry-over comes out one character per group and is cleared |
| Grouping.Run | lossless/huffman/grouping_file_reader.py:11-36 | all the batches together spell the carry-over followed by the unread lines, so no character is lost, repeated or moved; every group has 1 to `size` characters |
| Grouping.Groups | lossless/huffman/huffman_coding.py:164-168 | the symbols the encoder reads from a fresh reader spell the whole text, and each has 1 to `block_size` characters |
| BitReader.FromFile | lossless/huffman/binary_file_reader.py:62-66 | reading `n` bytes appends the bits of the next `min(n, remaining)` bytes and sets the flag exactly when fewer than `n` were left |
| BitReader.Open | lossless/huffman/binary_file_reader.py:13-20 | a new reader is valid, has handed out nothing, has taken the first byte (if any), and is at end of file exactly for an empty file |
| BitReader.ReadBits | lossless/huffman/binary_file_reader.py:22-60 | `read_bits(n)` hands out the next `min(n, remaining)` bits of the file, in order, and advances by exactly that many. After the flag it hands out nothing. A request the buffer can serve takes no byte from the file |
| BitReader.FromBuffer | lossless/huffman/binary_file_reader.py:36-38 | a request shorter than the buffer hands out the file's next `n` bits without taking a byte |
| BitReader.TopUp | lossless/huffman/binary_file_reader.py:41-58 | the refill path, through whole bytes and then a partial byte or a fresh buffer, hands out the same bits as a direct slice of the file |
| BitReader.ReadSplit | lossless/huffman/binary_file_reader.py:22-60 | the bits a read hands out, followed by what is still unread, are what was unread before |
| BitReader.ReadKnown | lossless/huffman/binary_file_reader.py:22-60 | when the unread bits start with `x`, a read of `|x|` bits hands out exactly `x` and leaves the rest |
| BitReader.ReadShort | lossless/huffman/binary_file_reader.py:22-60 | with fewer than `n` bits left, a read of `n` bits comes up short |
| BitReader.ReadMany | lossless/huffman/binary_file_reader.py:22-60 | any sequence of reads hands out a prefix of the unread bits and leaves the rest unread |
| BitReader.Next | lossless/huffman/binary_file_reader.py:71-75 | iteration stops exactly when every bit of the file has been handed out; otherwise it yields the next bit alone |
| BitReader.Iterate | lossless/huffman/binary_file_reader.py:68-75 | `for bit in reader` yields as many values as there are unread bits |
| BitReader.IterateYields | lossless/huffman/binary_file_reader.py:68-75 | the `i`-th value yielded is the `i`-th unread bit, on its own |
| BitReader.IterateFresh | lossless/huffman/binary_file_reader.py:13-20 | a fresh reader over a `k`-byte file yields exactly `8k` one-bit values, the file's bits in order, then stops |
| Huffman.MinIndex | lossless/huffman/huffman_map.py:103-104 | picks an entry that no entry orders before, comparing by weight (`__lt__`) and then by age |
| Huffman.Pop | lossless/huffman/huffman_map.py:52-53 | `heappop` removes one minimal entry and keeps all the others: the multisets of entries, leaf labels and total weight are preserved |
| Huffman.Merge | lossless/huffman/huffman_map.py:50-66 | one pass shrinks the queue by one and keeps the multiset of leaf labels and the total weight |
| Huffman.MergeTakesLightest | lossless/huffman/huffman_map.py:50-66 | the new node is pushed last. Its zero child is no heavier than any queued node, and its one child no heavier than any node left behind. Its weight and label combine the children's. The two children plus the nodes left behind are exactly the old queue |
| Huffman.BuildTree | lossless/huffman/huffman_map.py:47-69 | the returned root's leaf labels are the queue's, as a multiset, and it weighs the queue's total |
| Huffman.BuildTreeMerges | lossless/huffman/huffman_map.py:50-69 | a queue of `n` nodes is merged exactly `n - 1` times, and the one node left is the returned root |
| Huffman.BuildTreeWellWeighted | lossless/huffman/huffman_map.py:58-63 | every inner node of the tree weighs as much as its two children together |
| Huffman.LeafSlots | lossless/huffman/huffman_map.py:26-27 | one leaf per table entry, in table order, weighted with its count |
| Huffman.RootWeight | lossless/huffman/huffman_map.py:26-29 | the root weighs the sum of all counts |
| HuffmanCodes.Paths | lossless/huffman/huffman_map.py:39-44 | one path per leaf, in zero-side-first order; a lone leaf has the empty path |
| HuffmanCodes.PathsPrefixFree | lossless/huffman/huffman_map.py:10-11 | no leaf's code is a prefix of another leaf's code (nor equal to it) |
| HuffmanCodes.TraverseRecordsPaths | lossless/huffman/huffman_map.py:39-44 | the recursive walk inserts into the dict exactly the leaves' (symbol, path) pairs, in walk order, each behind the starting prefix |
| HuffmanCodes.MapHoldsPaths | lossless/huffman/huffman_map.py:31-33 | for distinct leaf symbols, the map the walk builds sends each leaf's symbol to its path and holds no other key |
| HuffmanCodes.BuildTreeMonotone | lossless/huffman/huffman_map.py:47-69 | in the merged tree no leaf with a larger count lies deeper than one with a smaller count, and leaf weights are the table's counts |
| HuffmanCodes.BuildHuffmanMap | lossless/huffman/huffman_map.py:5-33 | the map's keys are exactly the table's symbols; no code is a prefix of another; a more frequent symbol never gets a longer code; a one-symbol table maps its symbol to the empty code |
| Container.SeparatorBytes | lossless/huffman/huffman_coding.py:133-135 | U+001D and U+001C are one byte each in UTF-8, 0x1D and 0x1C |
| Container.EncodeEntry | lossless/huffman/huffman_coding.py:142-158 | when the byte count fits `width` bits and the code is under 32 bits, the entry is the four fixed-width fields in order; a byte count too large for `width` widens its field |
| Container.Terminator | lossless/huffman/huffman_coding.py:132-135 | the terminator is the count and bytes fields of an entry for U+001D |
| Container.DecodeEntry | lossless/huffman/huffman_coding.py:100-123 | a decoded entry leaves a valid reader on the same file, at least `width` bits further on |
| Container.DecodeSymbol | lossless/huffman/huffman_coding.py:103-110 | reading the symbol's bytes and then, unless they are 0x1D, the code leaves a valid reader on the same file, never further back |
| Container.DecodeCode | lossless/huffman/huffman_coding.py:112-121 | reading the code's length and the code leaves a valid reader on the same file, never further back |
| Container.CodeKnown | lossless/huffman/huffman_coding.py:112-121 | when the unread bits are a 5-bit length and a code of that length, the entry read has exactly that code and the symbol already read, and the reader stops just after the code |
| Container.EntryKnown | lossless/huffman/huffman_coding.py:100-121 | when the unread bits are a fitting count, the bytes of a symbol other than U+001D, a length and the code, the entry read gives back that code and those bytes, and the reader stops just after the entry |
| Container.DecodeEncodedEntry | lossless/huffman/huffman_coding.py:100-123 | decoding an encoded entry gives back its code and the symbol's UTF-8 bytes, and leaves the reader just after it |
| Container.DecodeTerminator | lossless/huffman/huffman_coding.py:107-110 | decoding the terminator ends the header and leaves the reader just after it |
| Container.DecodeHeader | lossless/huffman/huffman_coding.py:76-77 | the header loop only adds codes and leaves the reader further on in the same file |
| Container.InvertKeys | lossless/huffman/huffman_coding.py:121 | for `Container.Invert`, the stores `decoding_map[code] = symbol` of the header loop: the decoding map's keys are the old keys and the entries' codes, and no others |
| Container.InvertDistinct | lossless/huffman/huffman_coding.py:121 | for `Container.Invert`: with distinct codes, every code maps to its own symbol's bytes, and untouched keys keep their value |
| Container.DecodeEncodedHeader | lossless/huffman/huffman_coding.py:126-139 | for `Container.EncodeEntries`, the entry loop of `_encode_huffman_map`: the entries written for any items followed by the terminator, with fields that fit, decodes to the map from each item's code to its symbol's bytes, and stops just after the terminator |
| Container.EncodeMapDecodes | lossless/huffman/huffman_coding.py:126-139 | for `Container.EncodeMap`: the header written for a map whose entries fit is read back by the header loop of `decode` as the map's inverse, and the reader stops just after the terminator |
| Codec.InverseOfHeader | lossless/huffman/huffman_coding.py:69-77 | the map decoded from the header of a prefix-free map is its exact inverse: each code maps to its symbol's bytes, and there is no other key |
| Body.EncodeSymbolsAppend | lossless/huffman/huffman_coding.py:34-35 | for `Body.EncodeSymbols` (`bitarray.encode`): encoding two runs of symbols one after the other gives the same bits as encoding them joined |
| Body.EncodeBatches | lossless/huffman/huffman_coding.py:29-35 | the encoder's loop, which encodes each batch of groups onto the end of the body, builds the codes of all the groups of all the batches, in order |
| Body.BodyLoop | lossless/huffman/huffman_coding.py:85-96 | the reader-driven loop writes what the reference loop over the plain unread bit string writes |
| Body.EofOnly | lossless/huffman/huffman_coding.py:92 | a symbol is written as the byte 0x1C exactly when it is U+001C |
| Body.NotAKey | lossless/huffman/huffman_coding.py:88 | in a prefix-free map, no proper prefix of a code is a key of the decoding map |
| Body.DecodeEncodedBody | lossless/huffman/huffman_coding.py:85-96 | for a prefix-free map with non-empty codes, the codes of the symbols and then the U+001C code decode to the symbols' bytes and end the loop, whatever follows |
| Body.NothingMatches | lossless/huffman/huffman_coding.py:85-96 | when the only code is empty, no bit string completes a key: nothing is written and the loop runs to the end of the file |
| Codec.Tally | lossless/huffman/huffman_coding.py:167-170 | each symbol's count is its old count plus its number of occurrences, and the keys are the old ones plus the symbols seen |
| Codec.Occurrences | lossless/huffman/huffman_coding.py:161-178 | every symbol of the text has its number of occurrences; U+001C is present with count 1; there is no other key |
| Codec.MapFor | lossless/huffman/huffman_coding.py:25 | the encoding map has a code for exactly U+001C and the symbols the grouping reader yields |
| Codec.Encode | lossless/huffman/huffman_coding.py:11-45 | the file `encode` writes, encoding batch by batch as the grouping reader yields, is the `Layout` of the map built for the text and of all the text's symbols at once |
| Codec.Layout | lossless/huffman/huffman_coding.py:29-45 | the file's bits are the header, the symbols' codes in order, the U+001C code, and then zero bits up to a whole byte |
| Codec.Decode | lossless/huffman/huffman_coding.py:48-96 | an empty file has no header, so it does not decode |
| Codec.MapShape | lossless/huffman/huffman_coding.py:25 | the map built from the counts is prefix-free; every code is non-empty when the text has a symbol; an empty text gives U+001C the empty code |
| Codec.HeaderFits | lossless/huffman/huffman_coding.py:146-152 | when `width >= 1`, every symbol's UTF-8 byte count fits in `width` bits, no symbol is U+001D, and codes are under 32 bits, every header entry uses fixed-width fields; the U+001C entry takes one byte, which any such width holds |
| Codec.DecodeEncoded | lossless/huffman/huffman_coding.py:37-96 | the file built from a fitting, prefix-free map and the symbols' codes decodes to the symbols' UTF-8 bytes |
| Codec.RoundTrip | lossless/huffman/huffman_coding.py:11-96 | decoding the encoded file gives back the text's UTF-8 bytes. This holds for any text of non-empty lines none of whose symbols is U+001C or U+001D on its own, any width of at least 1 bit that holds every symbol's UTF-8 byte count, and codes under 32 bits |
| Codec.RoundTripWide | lossless/huffman/huffman_coding.py:220-223 | the round trip holds at every width whose field holds `4 * block_size`, the most bytes a block of `block_size` characters takes |
| Codec.RoundTripAsciiAtCliWidth | lossless/huffman/huffman_coding.py:223 | at the command line's own width, for every block size including the default 2, a text of characters below 0x80 round-trips: its blocks take at most `block_size` bytes, which that width holds |
| Codec.CleanIsEncodable | lossless/huffman/huffman_coding.py:107-110 | a text containing neither U+001C nor U+001D has no symbol that is a separator on its own, at every block size |
| Codec.RoundTripAtHeaderWidth | lossless/huffman/huffman_coding.py:220-223 | with the corrected width the round trip holds for every block size |
| Width.CeilLog2 | lossless/huffman/huffman_coding.py:223 | exact `ceil(log2(v))`: the least `r` with `v <= 2^r` |
| Width.CliHeaderWidth | lossless/huffman/huffman_coding.py:223 | the command line's width `L` satisfies `2^(L-1) < 4b <= 2^L` |
| Width.CliWidthTooNarrow | lossless/huffman/huffman_coding.py:223 | for every power-of-two block size, `4b` is exactly `2^L`, one more than an `L`-bit field holds |
| Width.CliEntryMisread | lossless/huffman/huffman_coding.py:223 | block size 1 and U+1F600: the entry does not fit; its count field `100` takes three bits, and the two bits the decoder reads give 2 |
| Width.HeaderWidth | lossless/huffman/huffman_coding.py:220-223 | the corrected width holds `4b` in its field and is the least that does |
| Width.HeaderWidthVersusCli | lossless/huffman/huffman_coding.py:223 | the corrected width equals the command line's, except one bit more exactly when `4b` is a power of two |
| CliExample.GrinningFaceLostAtCliWidth | lossless/huffman/huffman_coding.py:223-233 | with `--block-size 1` the command line passes width 2, and the file `encode` writes for the one-character text U+1F600 does not decode: its 72 bits, read with 2-bit count fields, give a first entry of 2 bytes (`xO`) with a 25-bit code, then a second entry whose fields run past the end of the file, so no text comes back |
| CliExample.HeaderMisread | lossless/huffman/huffman_coding.py:76-77 | the header loop over that 72-bit file at width 2 ends in a malformed entry instead of at the U+001D terminator |
| CliExample.FileAtTwo | lossless/huffman/huffman_coding.py:25-45 | the file `encode` writes for U+1F600 at block size 1 and width 2 is the 9 bytes whose bits spell one fixed 72-bit number: the entry for U+1F600 with code `0`, the entry for U+001C with code `1`, the terminator, the body `0`, the end code `1` and 3 padding bits |
| CliExample.GrinningFaceKeptAtHeaderWidth | lossless/huffman/huffman_coding.py:220-233 | at the corrected width 3 the same text decodes back to its four UTF-8 bytes |
| Bits.FormatBinary | lossless/huffman/huffman_coding.py:147 | `'{0:0{n}b}'` reads back as its value; it is the `n`-bit form when the value fits, and longer when it does not |
| Bits.ToFile | lossless/huffman/huffman_coding.py:44-45 | `tofile` writes the bits followed by fewer than 8 zero bits, in whole bytes |
| Bits.BitsToNatOfNatToBits | lossless/huffman/huffman_coding.py:101 | `int(bits, 2)` of a value written in `w` bits gives the value back when it fits |
| Utf8.EncodeAscii | lossless/huffman/huffman_coding.py:143 | characters below 0x80 take one UTF-8 byte each |
| Utf8.EncodeAppend | lossless/huffman/huffman_coding.py:143 | the UTF-8 bytes of a concatenation are the concatenation of the bytes |
| Dicts.Insert | lossless/huffman/huffman_coding.py:169-170 | `d[k] = v` sets the value; a new key is listed last, and an existing key keeps its place |
| Dicts.InsertAll | lossless/huffman/huffman_map.py:41 | inserting fresh, distinct keys lists them after the old entries, in order |

## Left out

- File I/O, `print`, `argparse` and `paths.py`. Files are byte sequences and the text is its sequence of lines. The decoder's output file is the bytes it writes.
- The floating-point `math.log`. `Width.CliHeaderWidth` models the exact `ceil(log2(4b))`. Rounding error in the logarithm is not modelled. For `b = 2^k` with `k` at most 26 the double-precision logarithm is exact. For some larger powers (`k` = 27, 29, 37, 45, ...) it comes out just above the integer, so the command line gets one bit more than the exact rule.
- UTF-8 decoding. The decoder keeps each symbol as its UTF-8 bytes. Undecodable bytes, which raise `UnicodeDecodeError` in the source, are not modelled. The comparison with U+001D is a comparison with the byte `0x1D`.
- `heapq`'s internal layout. The source orders nodes by weight only, so equal weights come out in an order the heap's layout decides. The model breaks ties by age: leaves in table order, then merged nodes in creation order. The proved properties hold for this order; the exact codes under other tie orders are not modelled.
- Container.DecodeEntry, Container.DecodeSymbol, Container.DecodeCode: a field cut short by the end of the file makes the header malformed. The source raises `ValueError` only for an empty count or length field, and otherwise parses a short field. Decoding of truncated files is therefore modelled as an error, weaker than the source's partial reads.
- CliExample.GrinningFaceLostAtCliWidth: the model's decoder fails at the second header entry, whose length field asks for 20 code bits where one is left. The source fails on that same entry one step earlier: its bytes `0x06 0x8E` are not UTF-8, so `decode('utf-8')` raises `UnicodeDecodeError`. The model keeps symbols as bytes, as the UTF-8 line above says.
- Codec.Decode: its own contract only covers the empty file. Its promise for well-formed files is `Codec.RoundTrip`.
- Body.EncodeSymbols, Container.EncodeEntries, Container.EncodeMap, Container.Invert and Body.DecodeBits: no contract of their own. Their properties are stated by `Body.EncodeSymbolsAppend` and `Body.EncodeBatches`, `Container.DecodeEncodedHeader`, `Container.EncodeMapDecodes`, `Container.InvertKeys` and `Container.InvertDistinct`, and `Body.BodyLoop`, `Body.DecodeEncodedBody` and `Body.NothingMatches`. `EncodeSymbols` requires every symbol to be a key of the map, which `build_huffman_map` guarantees; the source would raise otherwise.
- Codec.RoundTrip: texts in which U+001C or U+001D forms a symbol on its own, and texts whose codes reach 32 bits, are excluded. For those inputs the source itself does not round-trip. A U+001C symbol shares the end-of-file code, so decoding stops at its first occurrence. A U+001D symbol's entry reads as the header's terminator. A 32-bit length does not fit the 5-bit field. A separator inside a longer symbol is harmless and is covered. A symbol whose byte count does not fit the field is the subject of the finding below.
- Lines are non-empty, since text-mode iteration never yields an empty line. Newline characters are part of the lines.
- A one-symbol table gets the empty code, as the code does: `_build_huffman_map` records the root's empty path, and `Body.NothingMatches` shows the decoder then writes nothing.
- Generic `HuffmanTreeNode` properties that are not used (`__str__`, the child setters) are not modelled.

## Findings

| source | as written | input that shows it | evidently intended | confidence | as-written member | corrected member |
|---|---|---|---|---|---|---|
| lossless/huffman/huffman_coding.py:223 | the count-field width is `ceil(log2(4 * block_size))`, which holds values below `4 * block_size` only | `--block-size 1` gives width 2; the character U+1F600 is 4 UTF-8 bytes, so its count `100` takes 3 bits and the decoder reads `10` = 2. Every power-of-two block size `2^k` with `k` at most 26, including the default 2, has the same gap. For some larger powers the floating-point logarithm rounds up and hides it | a width that holds `4 * block_size`, the bit length of `4 * block_size` | not executed | CliExample.GrinningFaceLostAtCliWidth | Width.HeaderWidth |

`Width.CliEntryMisread` shows the misread count field of that entry, and
`CliExample.GrinningFaceLostAtCliWidth` follows the whole file through the
decoder: at the command line's width it does not decode, while
`CliExample.GrinningFaceKeptAtHeaderWidth` gives the text back at the
corrected width.
`Width.CliWidthTooNarrow` shows the gap for every power-of-two block size under the exact logarithm. That is what the command line computes for `2^k` with `k` at most 26.
`Width.HeaderWidthVersusCli` shows the corrected width differs from the
command line's only there. `Codec.RoundTripAtHeaderWidth` proves the round
trip at the corrected width for every block size.
