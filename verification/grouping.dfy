/**
  `GroupingFileReader`: cuts the text of a file, read line by line, into
  symbols of `size` characters. A short group at the end of a line is kept
  back and put in front of the next line; when the lines run out it is
  handed out once, one character per group.
 */
module Grouping {
  import opened Seqs

  /**
    The reader after `next` of the file's `lines` were read. `remainder` is
    the short group waiting for more characters; the empty string stands for
    the source's `None`, which it treats the same way.
   */
  datatype Grouper = Grouper(lines: seq<string>, next: nat, remainder: string, size: nat)

  /** One call of `__next__`: the end of iteration, or a batch of groups and the reader afterwards. */
  datatype Step = Done | Batch(groups: seq<string>, rest: Grouper)

  /**
    Text-mode iteration never yields an empty line, the group size is
    positive, and a kept-back group is shorter than a full one.
   */
  predicate Valid(g: Grouper)
  {
    && g.size >= 1
    && g.next <= |g.lines|
    && (forall i | 0 <= i < |g.lines| :: g.lines[i] != [])
    && |g.remainder| < g.size
  }

  /** The constructor: nothing read yet, nothing kept back. */
  function Init(lines: seq<string>, size: nat): (g: Grouper)
    requires size >= 1 && forall i | 0 <= i < |lines| :: lines[i] != []
    ensures Valid(g)
  {
    Grouper(lines, 0, [], size)
  }

  /** `[s[i:i + k] for i in range(0, len(s), k)]`: full chunks of `k` characters and a last one of at most `k`. */
  function Chunks(s: string, k: nat): (r: seq<string>)
    requires k >= 1
    ensures Flatten(r) == s
    ensures forall i | 0 <= i < |r| - 1 :: |r[i]| == k
    ensures |r| > 0 ==> 0 < |r[|r| - 1]| <= k
    ensures s != [] ==> |r| > 0
    decreases |s|
  {
    if s == [] then []
    else if |s| <= k then [s]
    else [s[..k]] + Chunks(s[k..], k)
  }

  /** `list(s)`: every character as a group of its own. */
  function Singles(s: string): (r: seq<string>)
    ensures |r| == |s| && Flatten(r) == s
    ensures forall i | 0 <= i < |r| :: r[i] == [s[i]]
  {
    if s == [] then [] else [[s[0]]] + Singles(s[1..])
  }

  /** Groups of exactly `k` characters flatten to `k` characters each. */
  lemma {:induction false} FlattenFull(gs: seq<string>, k: nat)
    requires forall i | 0 <= i < |gs| :: |gs[i]| == k
    ensures |Flatten(gs)| == |gs| * k
  {
    if gs != [] {
      FlattenFull(gs[1..], k);
    }
  }

  /** The quotient of `a` by `k` is the unique `q` with `a = q * k + r` and `0 <= r < k`. */
  lemma DivUnique(a: nat, k: nat, q: nat, r: nat)
    requires k >= 1 && a == q * k + r && r < k
    ensures q == a / k
  {
    var q', r' := a / k, a % k;
    if q < q' {
      MulMonotone(q + 1, q', k);
    } else if q' < q {
      MulMonotone(q' + 1, q, k);
    }
  }

  lemma MulMonotone(x: nat, y: nat, k: nat)
    requires x <= y
    ensures x * k <= y * k
  {
  }

  /**
    `__next__`. With a line left, the batch is the full groups of the kept-back
    group followed by that line, and the short tail is kept back; with the
    lines exhausted, the kept-back group comes out once, character by
    character, and after that iteration stops.
   */
  function Next(g: Grouper): (s: Step)
    requires Valid(g)
    ensures s.Done? <==> g.next == |g.lines| && g.remainder == []
    ensures s.Batch? ==> Valid(s.rest) && s.rest.lines == g.lines && s.rest.size == g.size
    ensures s.Batch? && g.next < |g.lines| ==>
              && s.rest.next == g.next + 1
              && Flatten(s.groups) + s.rest.remainder == g.remainder + g.lines[g.next]
              && (forall i | 0 <= i < |s.groups| :: |s.groups[i]| == g.size)
              && |s.groups| == |g.remainder + g.lines[g.next]| / g.size
    ensures s.Batch? && g.next == |g.lines| ==>
              && s.rest.next == g.next && s.rest.remainder == []
              && s.groups == Singles(g.remainder)
  {
    if g.next == |g.lines| then
      if g.remainder == [] then Done
      else Batch(Singles(g.remainder), g.(remainder := []))
    else
      var text := g.remainder + g.lines[g.next];
      var chunks := Chunks(text, g.size);
      var last := chunks[|chunks| - 1];
      var full := chunks[..|chunks| - 1];
      assert chunks == full + [last];
      FlattenAppend(full, [last]);
      FlattenFull(full, g.size);
      if |last| < g.size then
        DivUnique(|text|, g.size, |full|, |last|);
        Batch(full, g.(next := g.next + 1, remainder := last))
      else
        FlattenFull(chunks, g.size);
        DivUnique(|text|, g.size, |chunks|, 0);
        Batch(chunks, g.(next := g.next + 1, remainder := []))
  }

  /**
    Every batch the reader hands out until iteration stops. Together they
    spell the kept-back group followed by the unread lines: no character is
    lost, duplicated or moved, and every group has between one and `size`
    characters.
   */
  function Run(g: Grouper): (bs: seq<seq<string>>)
    requires Valid(g)
    ensures Flatten(Flatten(bs)) == g.remainder + Flatten(g.lines[g.next..])
    ensures forall i, j | 0 <= i < |bs| && 0 <= j < |bs[i]| :: 1 <= |bs[i][j]| <= g.size
    decreases |g.lines| - g.next, |g.remainder|
  {
    match Next(g)
    case Done => []
    case Batch(groups, rest) =>
      var tail := Run(rest);
      BatchThenRest(g, groups, rest, tail);
      BatchBounded(g, groups, rest);
      ConsBounded(groups, tail, g.size);
      [groups] + tail
  }

  /** Every group of a batch has between one and `size` characters. */
  lemma BatchBounded(g: Grouper, groups: seq<string>, rest: Grouper)
    requires Valid(g) && Next(g) == Batch(groups, rest)
    ensures forall j | 0 <= j < |groups| :: 1 <= |groups[j]| <= g.size
  {
  }

  lemma ConsBounded(groups: seq<string>, tail: seq<seq<string>>, size: nat)
    requires forall j | 0 <= j < |groups| :: 1 <= |groups[j]| <= size
    requires forall i, j | 0 <= i < |tail| && 0 <= j < |tail[i]| :: 1 <= |tail[i][j]| <= size
    ensures var bs := [groups] + tail;
            forall i, j | 0 <= i < |bs| && 0 <= j < |bs[i]| :: 1 <= |bs[i][j]| <= size
  {
    var bs := [groups] + tail;
    assert forall i | 1 <= i < |bs| :: bs[i] == tail[i - 1];
  }

  /** One batch followed by the batches of the reader after it spells what the reader had left. */
  lemma BatchThenRest(g: Grouper, groups: seq<string>, rest: Grouper, tail: seq<seq<string>>)
    requires g.next <= |g.lines| && rest.lines == g.lines
    requires g.next < |g.lines| ==>
               rest.next == g.next + 1 && Flatten(groups) + rest.remainder == g.remainder + g.lines[g.next]
    requires g.next == |g.lines| ==> rest.next == g.next && rest.remainder == [] && Flatten(groups) == g.remainder
    requires Flatten(Flatten(tail)) == rest.remainder + Flatten(rest.lines[rest.next..])
    ensures Flatten(Flatten([groups] + tail)) == g.remainder + Flatten(g.lines[g.next..])
  {
    FlattenAppend([groups], tail);
    assert Flatten([groups]) == groups;
    FlattenAppend(groups, Flatten(tail));
    if g.next < |g.lines| {
      var line := g.lines[g.next];
      assert g.lines[g.next..] == [line] + g.lines[g.next + 1..];
      FlattenAppend([line], g.lines[g.next + 1..]);
      assert Flatten([line]) == line;
      var later := Flatten(g.lines[g.next + 1..]);
      Regroup(Flatten(groups), rest.remainder, later, rest.remainder + later, Flatten(groups) + (rest.remainder + later));
      Regroup(g.remainder, line, later, line + later, g.remainder + (line + later));
    } else {
      assert g.lines[g.next..] == [];
    }
  }


  /**
    The symbols a fresh reader produces for `lines`, in order, as the encoder
    consumes them: they spell the whole text, and each has between one and
    `size` characters.
   */
  function Groups(lines: seq<string>, size: nat): (gs: seq<string>)
    requires size >= 1 && forall i | 0 <= i < |lines| :: lines[i] != []
    ensures Flatten(gs) == Flatten(lines)
    ensures forall i | 0 <= i < |gs| :: 1 <= |gs[i]| <= size
  {
    var bs := Run(Init(lines, size));
    assert lines[0..] == lines;
    GroupsBounded(bs, size);
    Flatten(bs)
  }

  lemma {:induction false} GroupsBounded(bs: seq<seq<string>>, size: nat)
    requires forall i, j | 0 <= i < |bs| && 0 <= j < |bs[i]| :: 1 <= |bs[i][j]| <= size
    ensures forall i | 0 <= i < |Flatten(bs)| :: 1 <= |Flatten(bs)[i]| <= size
  {
    if bs != [] {
      GroupsBounded(bs[1..], size);
      assert Flatten(bs) == bs[0] + Flatten(bs[1..]);
    }
  }
}
