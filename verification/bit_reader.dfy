/**
  The buffered bit reader of `binary_file_reader.py`, as an immutable state
  advanced by pure step functions. The file is the byte sequence `data`;
  `bitarray.fromfile(f, n)` appends up to `n` of the bytes that remain and
  raises EOFError (which sets the end-of-file flag) when fewer than `n` were
  left.
 */
module BitReader {
  import opened Bits
  import opened Seqs

  /**
    A reader over the file `data`: `pos` bytes have been taken from the file,
    `buffer` holds the bits of the last byte taken that have not been handed
    out yet, and `eof` is set once a read from the file came up short.
   */
  datatype Reader = Reader(data: seq<byte>, pos: nat, buffer: seq<bool>, eof: bool)

  /** The outcome of one request: the bits handed out and the reader afterwards. */
  datatype Read = Read(next: Reader, bits: seq<bool>)

  /** The number of bits of the file handed out so far. */
  function Consumed(r: Reader): int
  {
    8 * r.pos - |r.buffer|
  }

  /**
    The reader's invariant: the buffer never holds more than one byte, it is
    the unread tail of the bytes taken so far, it is empty exactly when the
    end-of-file flag is set, and the flag is only set once the whole file
    has been taken.
   */
  predicate Valid(r: Reader)
  {
    && r.pos <= |r.data|
    && |r.buffer| <= 8
    && |r.buffer| <= 8 * r.pos
    && r.buffer == BytesToBits(r.data)[8 * r.pos - |r.buffer| .. 8 * r.pos]
    && (r.eof ==> r.pos == |r.data| && r.buffer == [])
    && (!r.eof ==> r.buffer != [])
  }

  /** Python's `s[:k]`. */
  function Take(s: seq<bool>, k: nat): seq<bool>
  {
    if k <= |s| then s[..k] else s
  }

  /** Python's `s[k:]`. */
  function Drop(s: seq<bool>, k: nat): seq<bool>
  {
    if k <= |s| then s[k..] else []
  }

  /** `_read_bytes_from_file`: the bits of up to `n` further bytes; a short read sets the flag. */
  function FromFile(r: Reader, n: nat): (res: Read)
    requires r.pos <= |r.data|
    ensures res.next.pos == Min(r.pos + n, |r.data|)
    ensures res.next.data == r.data && res.next.buffer == r.buffer
    ensures res.next.eof == (r.eof || r.pos + n > |r.data|)
    ensures res.bits == BytesToBits(r.data)[8 * r.pos .. 8 * res.next.pos]
  {
    var end := Min(r.pos + n, |r.data|);
    BytesToBitsSlice(r.data, r.pos, end);
    Read(r.(pos := end, eof := r.eof || r.pos + n > |r.data|), BytesToBits(r.data[r.pos .. end]))
  }

  /** The constructor: start at offset 0 and preload the first byte. */
  function Open(data: seq<byte>): (r: Reader)
    ensures Valid(r) && r.data == data && Consumed(r) == 0
    ensures r.pos == Min(1, |data|)
    ensures r.eof <==> data == []
  {
    var f := FromFile(Reader(data, 0, [], false), 1);
    var b := BytesToBits(data);
    assert 8 * f.next.pos <= |b|;
    assert |f.bits| == 8 * f.next.pos;
    f.next.(buffer := f.bits)
  }

  lemma SliceConcat(s: seq<bool>, i: nat, j: nat, k: nat)
    requires i <= j <= k <= |s|
    ensures s[i..j] + s[j..k] == s[i..k]
  {
  }

  /**
    What a request for `n` bits promises: the reader stays valid on the same
    file, and the bits handed out are the next `n` of the file, or all that
    remain when fewer do.
   */
  predicate Serves(r: Reader, n: nat, res: Read)
    requires Valid(r)
  {
    && Valid(res.next) && res.next.data == r.data
    && res.bits == BytesToBits(r.data)[Consumed(r) .. Min(Consumed(r) + n, 8 * |r.data|)]
    && Consumed(res.next) == Consumed(r) + |res.bits|
  }

  /**
    `read_bits(n)`: the next `n` bits of the file, or all that remain when
    fewer do, and nothing at all once the flag is set. It reads nothing from
    the file while the buffer holds more than `n` bits.
   */
  function ReadBits(r: Reader, n: nat): (res: Read)
    requires Valid(r)
    ensures Serves(r, n, res) && |res.bits| <= n
    ensures r.eof ==> res.bits == [] && res.next == r
    ensures !r.eof && |r.buffer| > n ==> res.next.pos == r.pos
  {
    if r.eof then Read(r, [])
    else if |r.buffer| > n then FromBuffer(r, n)
    else TopUp(r, n)
  }

  /** A request the buffer can serve: hand out its first `n` bits and keep the rest. */
  function FromBuffer(r: Reader, n: nat): (res: Read)
    requires Valid(r) && !r.eof && |r.buffer| > n
    ensures Serves(r, n, res) && res.next.pos == r.pos
  {
    var b := BytesToBits(r.data);
    assert r.buffer[..n] == b[Consumed(r) .. Consumed(r) + n];
    assert r.buffer[n..] == b[Consumed(r) + n .. 8 * r.pos];
    Read(r.(buffer := r.buffer[n..]), r.buffer[..n])
  }

  /** A request the buffer cannot serve: hand out the buffer, then read the missing bits from the file. */
  function TopUp(r: Reader, n: nat): (res: Read)
    requires Valid(r) && !r.eof && |r.buffer| <= n
    ensures Serves(r, n, res)
  {
    var missing := n - |r.buffer|;
    var whole, part := missing / 8, missing % 8;
    var w := WholeFirst(r, n, whole, part);
    if part > 0 then TopUpPartial(r, n, whole, part, w) else TopUpWhole(r, n, whole, part, w)
  }

  /** The state after the `whole` missing bytes were read: what both top-up paths start from. */
  predicate WholeBytesRead(r: Reader, n: nat, whole: nat, part: nat, w: Read)
  {
    && Valid(r) && !r.eof && n == |r.buffer| + 8 * whole + part && part < 8
    && w.next.data == r.data && w.next.buffer == r.buffer
    && w.next.pos == Min(r.pos + whole, |r.data|)
    && w.next.eof == (r.pos + whole > |r.data|)
    && w.bits == BytesToBits(r.data)[8 * r.pos .. 8 * w.next.pos]
  }

  /** The `whole` missing bytes, read from the file when there are any. */
  function WholeFirst(r: Reader, n: nat, whole: nat, part: nat): (w: Read)
    requires Valid(r) && !r.eof && |r.buffer| <= n
    requires whole == (n - |r.buffer|) / 8 && part == (n - |r.buffer|) % 8
    ensures WholeBytesRead(r, n, whole, part, w)
  {
    if whole > 0 then FromFile(r, whole) else Read(r, [])
  }

  /** A request that ends inside a byte: read one more byte, hand out its head and buffer its tail. */
  function TopUpPartial(r: Reader, n: nat, whole: nat, part: nat, w: Read): (res: Read)
    requires WholeBytesRead(r, n, whole, part, w) && part > 0
    ensures Serves(r, n, res)
  {
    var t := FromFile(w.next, 1);
    var res := Read(t.next.(buffer := Drop(t.bits, part)), r.buffer + w.bits + Take(t.bits, part));
    if w.next.pos < |r.data| then
      PartialInside(r, n, whole, part, w, t, res);
      res
    else
      PartialAtEnd(r, n, whole, part, w, t, res);
      res
  }

  lemma PartialInside(r: Reader, n: nat, whole: nat, part: nat, w: Read, t: Read, res: Read)
    requires WholeBytesRead(r, n, whole, part, w) && part > 0 && w.next.pos < |r.data|
    requires t == FromFile(w.next, 1)
    requires res == Read(t.next.(buffer := Drop(t.bits, part)), r.buffer + w.bits + Take(t.bits, part))
    ensures Serves(r, n, res)
  {
    var b := BytesToBits(r.data);
    var c, e := Consumed(r), w.next.pos;
    assert e == r.pos + whole && c + n == 8 * e + part;
    assert t.bits == b[8 * e .. 8 * e + 8];
    SubSlice(b, 8 * e, 8 * e + 8, part);
    SliceConcat3(b, c, 8 * r.pos, 8 * e, 8 * e + part, r.buffer, w.bits, Take(t.bits, part));
    assert Min(c + n, 8 * |r.data|) == 8 * e + part;
    assert res.next.pos == e + 1 && res.next.buffer == b[8 * e + part .. 8 * e + 8];
  }

  lemma SliceConcat3(s: seq<bool>, i: nat, j: nat, k: nat, l: nat, x: seq<bool>, y: seq<bool>, z: seq<bool>)
    requires i <= j <= k <= l <= |s| && x == s[i..j] && y == s[j..k] && z == s[k..l]
    ensures x + y + z == s[i..l]
  {
    SliceConcat(s, i, j, k);
    SliceConcat(s, i, k, l);
  }

  lemma SubSlice(s: seq<bool>, i: nat, j: nat, k: nat)
    requires i + k <= j <= |s|
    ensures Take(s[i..j], k) == s[i..i + k] && Drop(s[i..j], k) == s[i + k..j]
  {
  }

  lemma PartialAtEnd(r: Reader, n: nat, whole: nat, part: nat, w: Read, t: Read, res: Read)
    requires WholeBytesRead(r, n, whole, part, w) && part > 0 && w.next.pos == |r.data|
    requires t == FromFile(w.next, 1)
    requires res == Read(t.next.(buffer := Drop(t.bits, part)), r.buffer + w.bits + Take(t.bits, part))
    ensures Serves(r, n, res)
  {
    var b := BytesToBits(r.data);
    assert t.bits == [];
    SliceConcat(b, Consumed(r), 8 * r.pos, 8 * |r.data|);
  }

  /** A request that ends on a byte boundary: empty the buffer and preload the next byte. */
  function TopUpWhole(r: Reader, n: nat, whole: nat, part: nat, w: Read): (res: Read)
    requires WholeBytesRead(r, n, whole, part, w) && part == 0
    ensures Serves(r, n, res)
  {
    var t := FromFile(w.next.(buffer := []), 1);
    var res := Read(t.next.(buffer := t.bits), r.buffer + w.bits);
    WholeRefill(r, n, whole, part, w, t, res);
    res
  }

  lemma WholeRefill(r: Reader, n: nat, whole: nat, part: nat, w: Read, t: Read, res: Read)
    requires WholeBytesRead(r, n, whole, part, w) && part == 0
    requires t == FromFile(w.next.(buffer := []), 1)
    requires res == Read(t.next.(buffer := t.bits), r.buffer + w.bits)
    ensures Serves(r, n, res)
  {
    if w.next.pos < |r.data| {
      RefillInside(r, n, whole, part, w, t, res);
    } else {
      RefillAtEnd(r, n, whole, part, w, t, res);
    }
  }

  lemma RefillInside(r: Reader, n: nat, whole: nat, part: nat, w: Read, t: Read, res: Read)
    requires WholeBytesRead(r, n, whole, part, w) && part == 0 && w.next.pos < |r.data|
    requires t == FromFile(w.next.(buffer := []), 1)
    requires res == Read(t.next.(buffer := t.bits), r.buffer + w.bits)
    ensures Serves(r, n, res)
  {
    var b := BytesToBits(r.data);
    var c, e := Consumed(r), w.next.pos;
    assert e == r.pos + whole && c + n == 8 * e;
    SliceConcat(b, c, 8 * r.pos, 8 * e);
    assert Min(c + n, 8 * |r.data|) == 8 * e;
    assert t.next.pos == e + 1 && !t.next.eof && t.bits == b[8 * e .. 8 * e + 8];
  }

  lemma RefillAtEnd(r: Reader, n: nat, whole: nat, part: nat, w: Read, t: Read, res: Read)
    requires WholeBytesRead(r, n, whole, part, w) && part == 0 && w.next.pos == |r.data|
    requires t == FromFile(w.next.(buffer := []), 1)
    requires res == Read(t.next.(buffer := t.bits), r.buffer + w.bits)
    ensures Serves(r, n, res)
  {
    var b := BytesToBits(r.data);
    assert t.bits == [] && t.next.eof && t.next.pos == |r.data|;
    SliceConcat(b, Consumed(r), 8 * r.pos, 8 * |r.data|);
  }

  /** Successive `read_bits` calls with the sizes `ns`: together they hand out the next bits of the file, in order, and leave the rest unread. */
  function ReadMany(r: Reader, ns: seq<nat>): (res: Read)
    requires Valid(r)
    ensures Valid(res.next) && res.next.data == r.data
    ensures res.bits + Unread(res.next) == Unread(r)
    decreases |ns|
  {
    if ns == [] then Read(r, [])
    else
      var first := ReadBits(r, ns[0]);
      ReadSplit(r, ns[0]);
      var rest := ReadMany(first.next, ns[1..]);
      Regroup(first.bits, rest.bits, Unread(rest.next), Unread(first.next), Unread(r));
      Read(rest.next, first.bits + rest.bits)
  }

  /** The bits of the file not handed out yet. */
  function Unread(r: Reader): (u: seq<bool>)
    requires Valid(r)
    ensures |u| == 8 * |r.data| - Consumed(r)
  {
    BytesToBits(r.data)[Consumed(r)..]
  }

  /** Nothing of a freshly opened file has been handed out. */
  lemma UnreadOpen(data: seq<byte>)
    ensures Unread(Open(data)) == BytesToBits(data)
  {
    assert BytesToBits(data)[0..] == BytesToBits(data);
  }

  /** When the unread bits are known to start with `x`, a request for `|x|` bits hands out exactly `x`. */
  lemma ReadKnown(r: Reader, x: seq<bool>, rest: seq<bool>)
    requires Valid(r) && Unread(r) == x + rest
    ensures var f := ReadBits(r, |x|); f.bits == x && Unread(f.next) == rest
  {
    ReadSplit(r, |x|);
    var f := ReadBits(r, |x|);
    assert |f.bits| == |x|;
    SplitEqual(f.bits, Unread(f.next), x, rest);
  }

  lemma SplitEqual(a: seq<bool>, b: seq<bool>, c: seq<bool>, d: seq<bool>)
    requires a + b == c + d && |a| == |c|
    ensures a == c && b == d
  {
    assert a == (a + b)[..|a|] && c == (c + d)[..|c|];
    assert b == (a + b)[|a|..] && d == (c + d)[|c|..];
  }

  /** Two reads in a row when the unread bits are known to start with `x` and then `y`. */
  lemma ReadTwo(r: Reader, x: seq<bool>, y: seq<bool>, rest: seq<bool>)
    requires Valid(r) && Unread(r) == x + y + rest
    ensures var f := ReadBits(r, |x|); var g := ReadBits(f.next, |y|);
            f.bits == x && g.bits == y && Unread(g.next) == rest
  {
    assert x + y + rest == x + (y + rest);
    ReadKnown(r, x, y + rest);
    ReadKnown(ReadBits(r, |x|).next, y, rest);
  }

  /** A read hands out the first bits of what was unread and leaves the others. */
  lemma ReadSplit(r: Reader, n: nat)
    requires Valid(r)
    ensures var f := ReadBits(r, n); f.bits + Unread(f.next) == Unread(r)
  {
    ServedSplit(r, n, ReadBits(r, n));
  }

  lemma ServedSplit(r: Reader, n: nat, f: Read)
    requires Valid(r) && Serves(r, n, f)
    ensures f.bits + Unread(f.next) == Unread(r)
  {
    var b := BytesToBits(r.data);
    var c, d := Consumed(r), Consumed(f.next);
    assert f.bits == b[c .. d];
    assert Unread(f.next) == b[d..] && Unread(r) == b[c..];
    SliceConcat(b, c, d, |b|);
  }

  /** When fewer than `n` bits are unread, a request for `n` bits comes up short. */
  lemma ReadShort(r: Reader, n: nat)
    requires Valid(r) && |Unread(r)| < n
    ensures |ReadBits(r, n).bits| < n
  {
  }

  /** One step of `for bit in reader`. */
  datatype Step = Stop | Bit(read: Read)

  /** `__next__`: stop once the flag is set, otherwise `read_bits(1)`. */
  function Next(r: Reader): (s: Step)
    requires Valid(r)
    ensures s.Stop? <==> Consumed(r) == 8 * |r.data|
    ensures s.Bit? ==> && Valid(s.read.next) && s.read.next.data == r.data
                       && s.read.bits == [BytesToBits(r.data)[Consumed(r)]]
                       && Consumed(s.read.next) == Consumed(r) + 1
  {
    if r.eof then Stop else Bit(ReadBits(r, 1))
  }

  /** Everything `for bit in reader` yields: one single-bit value per remaining bit of the file, then the end. */
  function Iterate(r: Reader): (ys: seq<seq<bool>>)
    requires Valid(r)
    ensures |ys| == |Unread(r)|
    decreases 8 * |r.data| - Consumed(r)
  {
    match Next(r)
    case Stop => []
    case Bit(read) => [read.bits] + Iterate(read.next)
  }

  /** The `i`-th value the iteration yields is the `i`-th unread bit of the file, on its own. */
  lemma {:induction false} IterateYields(r: Reader)
    requires Valid(r)
    ensures forall i | 0 <= i < |Iterate(r)| :: Iterate(r)[i] == [Unread(r)[i]]
    decreases 8 * |r.data| - Consumed(r)
  {
    match Next(r)
    case Stop =>
    case Bit(read) =>
      IterateYields(read.next);
      var ys, rest := Iterate(r), Iterate(read.next);
      assert ys == [read.bits] + rest;
      forall i | 0 <= i < |ys| ensures ys[i] == [Unread(r)[i]] {
        if i > 0 {
          assert ys[i] == rest[i - 1];
          assert Unread(read.next)[i - 1] == Unread(r)[i];
        }
      }
  }

  /** A fresh reader over a file of `k` bytes yields exactly `8 * k` values: the file's bits, one at a time, in order. */
  lemma IterateFresh(data: seq<byte>)
    ensures var ys := Iterate(Open(data));
            && |ys| == 8 * |data|
            && forall i | 0 <= i < |ys| :: ys[i] == [BytesToBits(data)[i]]
  {
    UnreadOpen(data);
    IterateYields(Open(data));
  }
}
