/**
  The code map of `huffman_map.py`: the walk of `_build_huffman_map` from the
  root, which records for every leaf the bits of its way down, and the
  properties the map it builds has: one code per symbol of the frequency
  table, no code a prefix of another, and no more frequent symbol with a
  longer code than a less frequent one.
 */
module HuffmanCodes {
  import opened Seqs
  import opened Dicts
  import opened Huffman

  /** A leaf of a tree: its symbol, its count and the bits of the way down to it. */
  datatype Path = Path(symbol: string, weight: nat, code: Code)

  /** The paths of a subtree seen from its parent: each code gains the bit of the branch in front. */
  function Under(bit: bool, ps: seq<Path>): (r: seq<Path>)
    ensures |r| == |ps|
    ensures forall i | 0 <= i < |ps| :: r[i] == ps[i].(code := [bit] + ps[i].code)
  {
    if ps == [] then [] else [ps[0].(code := [bit] + ps[0].code)] + Under(bit, ps[1..])
  }

  /** The leaves of `t` in walk order, zero side first, each with its path from the root of `t`. */
  function Paths(t: Tree): (ps: seq<Path>)
    ensures |ps| == |Syms(t)| >= 1
    ensures forall i | 0 <= i < |ps| :: ps[i].symbol == Syms(t)[i]
    ensures t.Leaf? ==> ps == [Path(t.symbol, t.weight, [])]
  {
    match t
    case Leaf(s, w) => [Path(s, w, [])]
    case Node(_, _, z, o) =>
      var ps := Under(false, Paths(z)) + Under(true, Paths(o));
      assert forall i | |Paths(z)| <= i < |ps| :: ps[i].symbol == Syms(o)[i - |Paths(z)|];
      ps
  }

  /** A path below a branch starts with that branch's bit and continues as a path of the subtree. */
  lemma UnderMember(bit: bool, ps: seq<Path>, a: Path)
    requires a in Under(bit, ps)
    ensures |a.code| >= 1 && a.code[0] == bit
    ensures a.(code := a.code[1..]) in ps
  {
    var r := Under(bit, ps);
    var i :| 0 <= i < |r| && r[i] == a;
    assert a.code[1..] == ps[i].code;
    assert a.(code := a.code[1..]) == ps[i];
  }

  /** No code in the list is a prefix of another one (nor equal to it). */
  predicate PrefixFree(ps: seq<Path>)
  {
    forall i, j | 0 <= i < |ps| && 0 <= j < |ps| && i != j :: !(ps[i].code <= ps[j].code)
  }

  lemma ConsPrefix(b: bool, x: seq<bool>, y: seq<bool>)
    requires [b] + x <= [b] + y
    ensures x <= y
  {
    assert x == ([b] + x)[1..];
    assert y[..|x|] == ([b] + y)[1..|x| + 1];
  }

  /** Putting the same bit in front of every code keeps a list prefix-free. */
  lemma UnderPrefixFree(bit: bool, ps: seq<Path>)
    requires PrefixFree(ps)
    ensures PrefixFree(Under(bit, ps))
  {
    var r := Under(bit, ps);
    forall i, j | 0 <= i < |r| && 0 <= j < |r| && i != j ensures !(r[i].code <= r[j].code) {
      if r[i].code <= r[j].code {
        ConsPrefix(bit, ps[i].code, ps[j].code);
      }
    }
  }

  /** Two prefix-free lists whose codes start with different bits make a prefix-free list together. */
  lemma JoinPrefixFree(a: seq<Path>, b: seq<Path>)
    requires PrefixFree(a) && PrefixFree(b)
    requires forall i | 0 <= i < |a| :: |a[i].code| >= 1 && !a[i].code[0]
    requires forall i | 0 <= i < |b| :: |b[i].code| >= 1 && b[i].code[0]
    ensures PrefixFree(a + b)
  {
    var r := a + b;
    forall i, j | 0 <= i < |r| && 0 <= j < |r| && i != j ensures !(r[i].code <= r[j].code) {
      if i < |a| && j < |a| {
        assert r[i] == a[i] && r[j] == a[j];
      } else if |a| <= i && |a| <= j {
        assert r[i] == b[i - |a|] && r[j] == b[j - |a|];
      } else {
        assert r[i].code[0] != r[j].code[0];
      }
    }
  }

  /** The leaves of a tree get a prefix-free code: no leaf's code is a prefix of another leaf's code. */
  lemma {:induction false} PathsPrefixFree(t: Tree)
    ensures PrefixFree(Paths(t))
  {
    match t
    case Leaf(_, _) =>
    case Node(_, _, z, o) =>
      PathsPrefixFree(z);
      PathsPrefixFree(o);
      UnderPrefixFree(false, Paths(z));
      UnderPrefixFree(true, Paths(o));
      JoinPrefixFree(Under(false, Paths(z)), Under(true, Paths(o)));
  }

  /** The dict entries `(symbol, bits + code)` for a list of paths below the prefix `bits`. */
  function Entries(bits: Code, ps: seq<Path>): (r: seq<(string, Code)>)
    ensures |r| == |ps|
    ensures forall i | 0 <= i < |ps| :: r[i] == (ps[i].symbol, bits + ps[i].code)
  {
    if ps == [] then [] else [(ps[0].symbol, bits + ps[0].code)] + Entries(bits, ps[1..])
  }

  lemma EntriesSplit(bits: Code, pz: seq<Path>, po: seq<Path>)
    ensures Entries(bits, Under(false, pz) + Under(true, po))
         == Entries(bits + [false], pz) + Entries(bits + [true], po)
  {
    var l := Entries(bits, Under(false, pz) + Under(true, po));
    var r := Entries(bits + [false], pz) + Entries(bits + [true], po);
    forall i | 0 <= i < |l| ensures l[i] == r[i] {
      if i < |pz| {
        assert bits + ([false] + pz[i].code) == (bits + [false]) + pz[i].code;
      } else {
        var k := i - |pz|;
        assert bits + ([true] + po[k].code) == (bits + [true]) + po[k].code;
      }
    }
  }

  /**
    `_build_huffman_map(root, encoding_map, bits)`: at a leaf, record the
    accumulated bits under the leaf's symbol; at an inner node, walk the zero
    side with a 0 appended and then the one side with a 1.
   */
  function Traverse(t: Tree, bits: Code, d: Dict<string, Code>): (r: Dict<string, Code>)
    requires Valid(d)
    ensures Valid(r)
  {
    match t
    case Leaf(s, _) => Insert(d, s, bits)
    case Node(_, _, z, o) => Traverse(o, bits + [true], Traverse(z, bits + [false], d))
  }

  /** The walk records exactly the leaves' paths, in walk order, each behind the prefix it started with. */
  lemma {:induction false} TraverseRecordsPaths(t: Tree, bits: Code, d: Dict<string, Code>)
    requires Valid(d)
    ensures Traverse(t, bits, d) == InsertAll(d, Entries(bits, Paths(t)))
  {
    match t
    case Leaf(s, w) =>
      assert bits + [] == bits;
      assert Entries(bits, Paths(t)) == [(s, bits)];
      assert Entries(bits, Paths(t))[1..] == [];
    case Node(_, _, z, o) =>
      var d1 := Traverse(z, bits + [false], d);
      TraverseRecordsPaths(z, bits + [false], d);
      TraverseRecordsPaths(o, bits + [true], d1);
      EntriesSplit(bits, Paths(z), Paths(o));
      InsertAllAppend(d, Entries(bits + [false], Paths(z)), Entries(bits + [true], Paths(o)));
  }

  /**
    Once every leaf symbol is different, the map the walk builds from an empty
    dict sends each leaf's symbol to its path, and holds no other symbol.
   */
  lemma MapHoldsPaths(t: Tree)
    requires Distinct(Syms(t))
    ensures Lists(Paths(t), Traverse(t, [], Empty()))
  {
    var bits: Code := [];
    var m := Traverse(t, bits, Empty());
    WalkItems(t, bits);
    ListedCodes(Paths(t), m, bits);
    ListedKeys(Paths(t), m, bits);
  }

  /** The items of the walk's dict are the entries of the paths, in walk order. */
  lemma WalkItems(t: Tree, bits: Code)
    requires Distinct(Syms(t))
    ensures Items(Traverse(t, bits, Empty())) == Entries(bits, Paths(t))
  {
    var e: Dict<string, Code> := Empty();
    TraverseRecordsPaths(t, bits, e);
    EntriesDistinct(Paths(t), Syms(t), bits);
    assert Items(e) == [];
  }

  lemma EntriesDistinct(ps: seq<Path>, syms: seq<string>, bits: Code)
    requires Distinct(syms) && |ps| == |syms| && forall i | 0 <= i < |ps| :: ps[i].symbol == syms[i]
    ensures DistinctKeys(Entries(bits, ps))
  {
  }

  lemma ListedCodes(ps: seq<Path>, m: Dict<string, Code>, bits: Code)
    requires Valid(m) && Items(m) == Entries(bits, ps)
    ensures forall i | 0 <= i < |ps| :: ps[i].symbol in m.values && m.values[ps[i].symbol] == bits + ps[i].code
  {
    forall i | 0 <= i < |ps| ensures ps[i].symbol in m.values && m.values[ps[i].symbol] == bits + ps[i].code {
      assert Items(m)[i] == Entries(bits, ps)[i];
    }
  }

  lemma ListedKeys(ps: seq<Path>, m: Dict<string, Code>, bits: Code)
    requires Valid(m) && Items(m) == Entries(bits, ps)
    ensures forall s | s in m.values :: exists i | 0 <= i < |ps| :: ps[i].symbol == s
  {
    forall s | s in m.values ensures exists i | 0 <= i < |ps| :: ps[i].symbol == s {
      var i :| 0 <= i < |m.keys| && m.keys[i] == s;
      assert Items(m)[i].0 == s;
    }
  }

  /** The dict `m` maps the symbol of each path in `ps` to its code, and has no other key. */
  predicate Lists(ps: seq<Path>, m: Dict<string, Code>)
  {
    && (forall i | 0 <= i < |ps| :: ps[i].symbol in m.values && m.values[ps[i].symbol] == ps[i].code)
    && (forall s | s in m.values :: exists i | 0 <= i < |ps| :: ps[i].symbol == s)
  }

  /** A dict listing a prefix-free set of paths is a prefix-free code. */
  lemma ListedPrefixFree(ps: seq<Path>, m: Dict<string, Code>)
    requires Lists(ps, m) && PrefixFree(ps)
    ensures forall s1, s2 | s1 in m.values && s2 in m.values && s1 != s2 :: !(m.values[s1] <= m.values[s2])
  {
    forall s1, s2 | s1 in m.values && s2 in m.values && s1 != s2 ensures !(m.values[s1] <= m.values[s2]) {
      var i := ListedAt(ps, m, s1);
      var j := ListedAt(ps, m, s2);
    }
  }

  /** The path a listed symbol comes from. */
  lemma ListedAt(ps: seq<Path>, m: Dict<string, Code>, s: string) returns (i: nat)
    requires Lists(ps, m) && s in m.values
    ensures i < |ps| && ps[i].symbol == s && m.values[s] == ps[i].code
  {
    i :| 0 <= i < |ps| && ps[i].symbol == s;
  }

  /** A dict listing paths in which no heavier leaf is deeper gives no more frequent symbol a longer code. */
  lemma ListedMonotone(ps: seq<Path>, m: Dict<string, Code>, counts: map<string, nat>)
    requires Lists(ps, m) && forall s | s in counts :: s in m.values
    requires CountedWeights(ps, counts) && HeavierHigher(ps)
    ensures forall s1, s2 | s1 in counts && s2 in counts && counts[s1] > counts[s2] :: |m.values[s1]| <= |m.values[s2]|
  {
    forall s1, s2 | s1 in counts && s2 in counts && counts[s1] > counts[s2]
      ensures |m.values[s1]| <= |m.values[s2]|
    {
      var i := ListedAt(ps, m, s1);
      var j := ListedAt(ps, m, s2);
    }
  }

  /** Every path's weight is its symbol's count. */
  predicate CountedWeights(ps: seq<Path>, counts: map<string, nat>)
  {
    forall i | 0 <= i < |ps| :: ps[i].symbol in counts && ps[i].weight == counts[ps[i].symbol]
  }

  /** No path is longer than a lighter one. */
  predicate HeavierHigher(ps: seq<Path>)
  {
    forall i, j | 0 <= i < |ps| && 0 <= j < |ps| && ps[i].weight > ps[j].weight :: |ps[i].code| <= |ps[j].code|
  }

  /** `Monotone` and `LeafWeights` stated by position in the list of paths. */
  lemma MonotoneByIndex(t: Tree, counts: map<string, nat>)
    requires Monotone(t) && LeafWeights(t, counts)
    ensures CountedWeights(Paths(t), counts) && HeavierHigher(Paths(t))
  {
    var ps := Paths(t);
    forall i | 0 <= i < |ps| ensures ps[i].symbol in counts && ps[i].weight == counts[ps[i].symbol] {
      assert ps[i] in ps;
    }
    forall i, j | 0 <= i < |ps| && 0 <= j < |ps| && ps[i].weight > ps[j].weight ensures |ps[i].code| <= |ps[j].code| {
      assert ps[i] in ps && ps[j] in ps;
    }
  }

  /** With the paths' symbols the table's keys, counted with multiplicity, the dict's keys are the table's. */
  lemma KeysMatch(ps: seq<Path>, syms: seq<string>, m: Dict<string, Code>, freq: Dict<string, nat>)
    requires Valid(freq) && Lists(ps, m) && multiset(syms) == multiset(freq.keys)
    requires |ps| == |syms| && forall i | 0 <= i < |ps| :: ps[i].symbol == syms[i]
    ensures forall s :: s in m.values <==> s in freq.values
  {
    forall s ensures s in m.values <==> s in freq.values {
      if s in m.values {
        var i :| 0 <= i < |ps| && ps[i].symbol == s;
        assert syms[i] == s;
        assert s in multiset(syms);
        assert s in multiset(freq.keys);
      }
      if s in freq.values {
        assert s in multiset(freq.keys);
        assert s in multiset(syms);
        var i :| 0 <= i < |syms| && syms[i] == s;
        assert ps[i].symbol == s;
      }
    }
  }

  /**
    The ordering fact the merge loop keeps between two queue entries `x` and
    `y`: a leaf of `x` that is heavier than a leaf of `y` is strictly higher
    up, or at the same height with `y` leaving the queue first (or `x` and `y`
    being one entry). What every later merge adds to the depths of `x`'s
    leaves is then at most what it adds to `y`'s.
   */
  predicate MonoPair(x: Slot, y: Slot)
  {
    forall a, b | a in Paths(x.node) && b in Paths(y.node) && a.weight > b.weight ::
      |a.code| < |b.code| || (|a.code| == |b.code| && (x == y || Before(y, x)))
  }

  /** A heavier leaf is never deeper than a lighter one. */
  predicate Monotone(t: Tree)
  {
    forall a, b | a in Paths(t) && b in Paths(t) && a.weight > b.weight :: |a.code| <= |b.code|
  }

  /** Both children of an inner node weigh at most `w`. */
  predicate ChildrenBelow(t: Tree, w: nat)
  {
    t.Node? ==> t.zero.weight <= w && t.one.weight <= w
  }

  /** Every leaf's weight is its symbol's count. */
  predicate LeafWeights(t: Tree, counts: map<string, nat>)
  {
    forall a | a in Paths(t) :: a.symbol in counts && a.weight == counts[a.symbol]
  }

  /**
    What holds of the queue before every pass of the loop: entries are
    numbered apart and below the next number, inner nodes weigh what their
    children do, every child inside the queue weighs at most any entry (the
    loop pops in order of weight), and every pair of entries is ordered as
    `MonoPair` says.
   */
  predicate QueueInv(q: seq<Slot>, seqno: nat, counts: map<string, nat>)
  {
    && DistinctSeqnos(q)
    && (forall x | x in q :: x.seqno < seqno && WellWeighted(x.node) && LeafWeights(x.node, counts))
    && (forall x, y | x in q && y in q :: ChildrenBelow(x.node, y.node.weight))
    && (forall x, y | x in q && y in q :: MonoPair(x, y))
  }

  /** A path of a merged node comes from a path of one of the two merged nodes, one bit longer. */
  lemma CombinedPath(x: Tree, y: Tree, a: Path)
    requires a in Paths(Combine(x, y))
    ensures |a.code| >= 1
    ensures a.(code := a.code[1..]) in Paths(x) || a.(code := a.code[1..]) in Paths(y)
  {
    if a in Under(false, Paths(x)) {
      UnderMember(false, Paths(x), a);
    } else {
      UnderMember(true, Paths(y), a);
    }
  }

  lemma MonoPairAt(x: Slot, y: Slot, a: Path, b: Path)
    requires MonoPair(x, y) && a in Paths(x.node) && b in Paths(y.node) && a.weight > b.weight
    ensures |a.code| < |b.code| || (|a.code| == |b.code| && (x == y || Before(y, x)))
  {
  }

  /** Within the merged node, the order between and inside the two merged entries carries over. */
  lemma MonoMergedSelf(x: Slot, y: Slot, seqno: nat)
    requires MonoPair(x, x) && MonoPair(y, y) && MonoPair(x, y) && MonoPair(y, x)
    ensures var z := Slot(Combine(x.node, y.node), seqno); MonoPair(z, z)
  {
    var z := Slot(Combine(x.node, y.node), seqno);
    forall a, b | a in Paths(z.node) && b in Paths(z.node) && a.weight > b.weight
      ensures |a.code| <= |b.code|
    {
      CombinedPath(x.node, y.node, a);
      CombinedPath(x.node, y.node, b);
      var a', b' := a.(code := a.code[1..]), b.(code := b.code[1..]);
      var u := if a' in Paths(x.node) then x else y;
      var v := if b' in Paths(x.node) then x else y;
      MonoPairAt(u, v, a', b');
    }
  }

  /**
    A leaf of the merged node heavier than a leaf of an older entry `u`: the
    merged entries came out before `u`, so the leaf was strictly higher than
    `u`'s, and at equal heights after the merge `u` is an inner node whose
    children weigh at most the merged ones, so `u` leaves the queue first.
   */
  lemma MonoMergedVsOther(x: Slot, y: Slot, u: Slot, seqno: nat)
    requires MonoPair(x, u) && MonoPair(y, u)
    requires x != u && y != u && !Before(u, x) && !Before(u, y)
    requires u.seqno < seqno && WellWeighted(u.node)
    requires ChildrenBelow(u.node, x.node.weight) && ChildrenBelow(u.node, y.node.weight)
    ensures MonoPair(Slot(Combine(x.node, y.node), seqno), u)
  {
    var z := Slot(Combine(x.node, y.node), seqno);
    forall a, b | a in Paths(z.node) && b in Paths(u.node) && a.weight > b.weight
      ensures |a.code| < |b.code| || (|a.code| == |b.code| && (z == u || Before(u, z)))
    {
      CombinedPath(x.node, y.node, a);
      var a' := a.(code := a.code[1..]);
      MonoPairAt(if a' in Paths(x.node) then x else y, u, a', b);
      if |a.code| == |b.code| {
        OlderFirst(x, y, u, seqno, b);
      }
    }
  }

  /** An older entry with a leaf below its root weighs at most the two merged entries together. */
  lemma OlderFirst(x: Slot, y: Slot, u: Slot, seqno: nat, b: Path)
    requires b in Paths(u.node) && |b.code| >= 1
    requires u.seqno < seqno && WellWeighted(u.node)
    requires ChildrenBelow(u.node, x.node.weight) && ChildrenBelow(u.node, y.node.weight)
    ensures Before(u, Slot(Combine(x.node, y.node), seqno))
  {
    LeafPaths(u.node);
  }

  /** A leaf's only path is the empty one. */
  lemma LeafPaths(n: Tree)
    ensures n.Leaf? ==> Paths(n) == [Path(n.symbol, n.weight, [])]
  {
  }

  /** A leaf of an older entry heavier than a leaf of the merged node is no lower than before, and that leaf moved down. */
  lemma MonoOtherVsMerged(u: Slot, x: Slot, y: Slot, seqno: nat)
    requires MonoPair(u, x) && MonoPair(u, y)
    ensures MonoPair(u, Slot(Combine(x.node, y.node), seqno))
  {
    var z := Slot(Combine(x.node, y.node), seqno);
    forall a, b | a in Paths(u.node) && b in Paths(z.node) && a.weight > b.weight
      ensures |a.code| < |b.code|
    {
      CombinedPath(x.node, y.node, b);
      var b' := b.(code := b.code[1..]);
      MonoPairAt(u, if b' in Paths(x.node) then x else y, a, b');
    }
  }

  /** The merged node's leaves are the merged entries' leaves, and its weight their sum. */
  lemma CombinedFacts(x: Slot, y: Slot, seqno: nat, q: seq<Slot>, counts: map<string, nat>)
    requires WellWeighted(x.node) && WellWeighted(y.node)
    requires LeafWeights(x.node, counts) && LeafWeights(y.node, counts)
    ensures var z := Combine(x.node, y.node); WellWeighted(z) && LeafWeights(z, counts)
  {
    var z := Combine(x.node, y.node);
    forall a | a in Paths(z) ensures a.symbol in counts && a.weight == counts[a.symbol] {
      CombinedPath(x.node, y.node, a);
    }
  }

  /** One pass of the loop keeps the queue invariant. */
  lemma MergeKeepsInv(q: seq<Slot>, seqno: nat, counts: map<string, nat>)
    requires |q| >= 2 && QueueInv(q, seqno, counts)
    ensures QueueInv(Merge(q, seqno), seqno + 1, counts)
  {
    var a := Pop(q);
    var b := Pop(a.rest);
    var x, y, rest := a.min, b.min, b.rest;
    var z := Slot(Combine(x.node, y.node), seqno);
    PoppedTwo(q);
    assert Merge(q, seqno) == rest + [z];
    InvAfterPass(q, seqno, counts, x, y, rest);
  }

  /** The invariant for the queue a pass leaves, from what the two pops guarantee. */
  lemma InvAfterPass(q: seq<Slot>, seqno: nat, counts: map<string, nat>, x: Slot, y: Slot, rest: seq<Slot>)
    requires QueueInv(q, seqno, counts)
    requires x in q && y in q && x != y && !Before(y, x) && DistinctSeqnos(rest)
    requires forall w | w in rest :: w in q && w != x && w != y && !Before(w, x) && !Before(w, y)
    ensures QueueInv(rest + [Slot(Combine(x.node, y.node), seqno)], seqno + 1, counts)
  {
    MergedEntries(q, seqno, counts, x, y, rest);
    MergedPairs(q, seqno, counts, x, y, rest);
  }

  /** After a pass, the entries are still numbered apart and below the next number, and well formed. */
  lemma MergedEntries(q: seq<Slot>, seqno: nat, counts: map<string, nat>, x: Slot, y: Slot, rest: seq<Slot>)
    requires QueueInv(q, seqno, counts)
    requires x in q && y in q && DistinctSeqnos(rest) && forall w | w in rest :: w in q
    ensures var z := Slot(Combine(x.node, y.node), seqno);
            && DistinctSeqnos(rest + [z])
            && forall u | u in rest + [z] :: u.seqno < seqno + 1 && WellWeighted(u.node) && LeafWeights(u.node, counts)
  {
    var z := Slot(Combine(x.node, y.node), seqno);
    CombinedFacts(x, y, seqno, q, counts);
    AppendNewest(rest, z, seqno);
    forall u | u in rest + [z] ensures u.seqno < seqno + 1 && WellWeighted(u.node) && LeafWeights(u.node, counts) {
      if u != z {
        assert u in q;
      }
    }
  }

  /** After a pass, every pair of entries is still ordered. */
  lemma MergedPairs(q: seq<Slot>, seqno: nat, counts: map<string, nat>, x: Slot, y: Slot, rest: seq<Slot>)
    requires QueueInv(q, seqno, counts)
    requires x in q && y in q && x != y && !Before(y, x)
    requires forall w | w in rest :: w in q && w != x && w != y && !Before(w, x) && !Before(w, y)
    ensures var z := Slot(Combine(x.node, y.node), seqno);
            forall u, v | u in rest + [z] && v in rest + [z] :: ChildrenBelow(u.node, v.node.weight) && MonoPair(u, v)
  {
    var z := Slot(Combine(x.node, y.node), seqno);
    forall u, v | u in rest + [z] && v in rest + [z] ensures ChildrenBelow(u.node, v.node.weight) && MonoPair(u, v) {
      MergedPair(q, seqno, counts, x, y, rest, u, v);
    }
  }

  /** What the two pops of a pass leave: two different entries, the first no heavier, and the rest behind both. */
  lemma PoppedTwo(q: seq<Slot>)
    requires |q| >= 2 && DistinctSeqnos(q)
    ensures var a := Pop(q); var b := Pop(a.rest);
            && a.min in q && b.min in q && a.min != b.min && !Before(b.min, a.min)
            && DistinctSeqnos(b.rest)
            && forall u | u in b.rest :: u in q && u != a.min && u != b.min && !Before(u, a.min) && !Before(u, b.min)
  {
    var a := Pop(q);
    var b := Pop(a.rest);
    assert b.min in a.rest;
    forall u | u in b.rest ensures u in q && u != a.min && u != b.min && !Before(u, a.min) && !Before(u, b.min) {
      assert u in a.rest;
    }
  }

  /** Appending an entry numbered above all others keeps the numbers apart. */
  lemma AppendNewest(rest: seq<Slot>, z: Slot, seqno: nat)
    requires DistinctSeqnos(rest) && z.seqno == seqno
    requires forall u | u in rest :: u.seqno < seqno
    ensures DistinctSeqnos(rest + [z])
  {
    var r := rest + [z];
    forall i, j | 0 <= i < j < |r| ensures r[i].seqno != r[j].seqno {
      assert r[i] == rest[i];
      assert r[i] in rest;
    }
  }

  /** The invariant for one pair of entries after a pass, by where the two entries come from. */
  lemma MergedPair(q: seq<Slot>, seqno: nat, counts: map<string, nat>, x: Slot, y: Slot, rest: seq<Slot>, u: Slot, v: Slot)
    requires QueueInv(q, seqno, counts)
    requires x in q && y in q && x != y && !Before(y, x)
    requires forall w | w in rest :: w in q && w != x && w != y && !Before(w, x) && !Before(w, y)
    requires u in rest + [Slot(Combine(x.node, y.node), seqno)]
    requires v in rest + [Slot(Combine(x.node, y.node), seqno)]
    ensures ChildrenBelow(u.node, v.node.weight) && MonoPair(u, v)
  {
    var z := Slot(Combine(x.node, y.node), seqno);
    assert MonoPair(x, x) && MonoPair(y, y) && MonoPair(x, y) && MonoPair(y, x);
    if u == z && v == z {
      MonoMergedSelf(x, y, seqno);
    } else if u == z {
      assert v in rest && v in q;
      assert MonoPair(x, v) && MonoPair(y, v);
      assert ChildrenBelow(v.node, x.node.weight) && ChildrenBelow(v.node, y.node.weight);
      MonoMergedVsOther(x, y, v, seqno);
    } else if v == z {
      assert u in rest && u in q;
      assert MonoPair(u, x) && MonoPair(u, y);
      assert ChildrenBelow(u.node, x.node.weight);
      MonoOtherVsMerged(u, x, y, seqno);
    } else {
      assert u in q && v in q;
    }
  }

  /** The tree the loop builds from a queue satisfying the invariant never puts a heavier leaf deeper than a lighter one. */
  lemma BuildTreeMonotone(q: seq<Slot>, seqno: nat, counts: map<string, nat>)
    requires |q| >= 1 && QueueInv(q, seqno, counts)
    ensures Monotone(BuildTree(q, seqno)) && LeafWeights(BuildTree(q, seqno), counts)
    decreases |q|
  {
    if |q| == 1 {
      LastEntry(q, seqno, counts);
    } else {
      MergeKeepsInv(q, seqno, counts);
      var q' := Merge(q, seqno);
      BuildTreeMonotone(q', seqno + 1, counts);
      TreeAfterMerge(q, seqno, counts);
    }
  }

  /** The last entry left in an invariant queue is a monotone tree, and it is the tree built. */
  lemma LastEntry(q: seq<Slot>, seqno: nat, counts: map<string, nat>)
    requires |q| == 1 && QueueInv(q, seqno, counts)
    ensures Monotone(BuildTree(q, seqno)) && LeafWeights(BuildTree(q, seqno), counts)
  {
    assert q[0] in q;
    assert MonoPair(q[0], q[0]);
    assert BuildTree(q, seqno) == q[0].node;
  }

  /** The tree built from a longer queue is the tree built after its first pass. */
  lemma TreeAfterMerge(q: seq<Slot>, seqno: nat, counts: map<string, nat>)
    requires |q| > 1
    requires Monotone(BuildTree(Merge(q, seqno), seqno + 1))
    requires LeafWeights(BuildTree(Merge(q, seqno), seqno + 1), counts)
    ensures Monotone(BuildTree(q, seqno)) && LeafWeights(BuildTree(q, seqno), counts)
  {
    assert BuildTree(q, seqno) == BuildTree(Merge(q, seqno), seqno + 1);
  }

  /** The leaves `build_huffman_map` starts from satisfy the invariant. */
  lemma InitialInv(keys: seq<string>, counts: map<string, nat>)
    requires forall i | 0 <= i < |keys| :: keys[i] in counts
    ensures QueueInv(LeafSlots(keys, counts, 0), |keys|, counts)
  {
    var q := LeafSlots(keys, counts, 0);
    forall x, y | x in q && y in q ensures MonoPair(x, y) {
      forall a, b | a in Paths(x.node) && b in Paths(y.node) && a.weight > b.weight
        ensures |a.code| < |b.code| || (|a.code| == |b.code| && (x == y || Before(y, x)))
      {
      }
    }
  }

  /**
    `build_huffman_map`: a leaf per entry of the frequency table, merged into
    one tree and walked from the root. Every symbol of the table gets a code
    and the map has no other key; no code is a prefix of another; a more
    frequent symbol never gets a longer code than a less frequent one; and a
    table with a single symbol maps it to the empty code, since no merge
    happens.
   */
  function BuildHuffmanMap(freq: Dict<string, nat>): (m: Dict<string, Code>)
    requires Valid(freq) && |freq.keys| >= 1
    ensures Valid(m)
    ensures forall s :: s in m.values <==> s in freq.values
    ensures forall s1, s2 | s1 in m.values && s2 in m.values && s1 != s2 :: !(m.values[s1] <= m.values[s2])
    ensures forall s1, s2 | s1 in freq.values && s2 in freq.values && freq.values[s1] > freq.values[s2] ::
              |m.values[s1]| <= |m.values[s2]|
    ensures |freq.keys| == 1 ==> m.values == map[freq.keys[0] := []]
  {
    var q := LeafSlots(freq.keys, freq.values, 0);
    var root := BuildTree(q, |freq.keys|);
    var m := Traverse(root, [], Empty());
    MapFacts(freq, q, root, m);
    m
  }

  lemma MapFacts(freq: Dict<string, nat>, q: seq<Slot>, root: Tree, m: Dict<string, Code>)
    requires Valid(freq) && |freq.keys| >= 1
    requires q == LeafSlots(freq.keys, freq.values, 0)
    requires root == BuildTree(q, |freq.keys|)
    requires m == Traverse(root, [], Empty())
    ensures forall s :: s in m.values <==> s in freq.values
    ensures forall s1, s2 | s1 in m.values && s2 in m.values && s1 != s2 :: !(m.values[s1] <= m.values[s2])
    ensures forall s1, s2 | s1 in freq.values && s2 in freq.values && freq.values[s1] > freq.values[s2] ::
              |m.values[s1]| <= |m.values[s2]|
    ensures |freq.keys| == 1 ==> m.values == map[freq.keys[0] := []]
  {
    RootSymbols(freq, q, root);
    MapKeySet(freq, root, m);
    MapPrefixFree(root, m);
    MapMonotone(freq, q, root, m);
    if |freq.keys| == 1 {
      MapSingle(freq, q, root, m);
    }
  }

  /** The root's leaves are the table's keys, each once. */
  lemma RootSymbols(freq: Dict<string, nat>, q: seq<Slot>, root: Tree)
    requires Valid(freq) && |freq.keys| >= 1
    requires q == LeafSlots(freq.keys, freq.values, 0)
    requires root == BuildTree(q, |freq.keys|)
    ensures multiset(Syms(root)) == multiset(freq.keys) && Distinct(Syms(root))
  {
    SameMultisetDistinct(Syms(root), freq.keys);
  }

  lemma MapKeySet(freq: Dict<string, nat>, root: Tree, m: Dict<string, Code>)
    requires Valid(freq) && multiset(Syms(root)) == multiset(freq.keys) && Distinct(Syms(root))
    requires m == Traverse(root, [], Empty())
    ensures forall s :: s in m.values <==> s in freq.values
  {
    MapHoldsPaths(root);
    KeysMatch(Paths(root), Syms(root), m, freq);
  }

  lemma MapPrefixFree(root: Tree, m: Dict<string, Code>)
    requires Distinct(Syms(root)) && m == Traverse(root, [], Empty())
    ensures forall s1, s2 | s1 in m.values && s2 in m.values && s1 != s2 :: !(m.values[s1] <= m.values[s2])
  {
    MapHoldsPaths(root);
    PathsPrefixFree(root);
    ListedPrefixFree(Paths(root), m);
  }

  lemma MapMonotone(freq: Dict<string, nat>, q: seq<Slot>, root: Tree, m: Dict<string, Code>)
    requires Valid(freq) && |freq.keys| >= 1
    requires q == LeafSlots(freq.keys, freq.values, 0)
    requires root == BuildTree(q, |freq.keys|) && Distinct(Syms(root))
    requires m == Traverse(root, [], Empty()) && forall s :: s in m.values <==> s in freq.values
    ensures forall s1, s2 | s1 in freq.values && s2 in freq.values && freq.values[s1] > freq.values[s2] ::
              |m.values[s1]| <= |m.values[s2]|
  {
    RootMonotone(freq, q, root);
    MonotoneListed(freq, root, m);
  }

  lemma MonotoneListed(freq: Dict<string, nat>, root: Tree, m: Dict<string, Code>)
    requires Distinct(Syms(root)) && m == Traverse(root, [], Empty())
    requires forall s :: s in m.values <==> s in freq.values
    requires CountedWeights(Paths(root), freq.values) && HeavierHigher(Paths(root))
    ensures forall s1, s2 | s1 in freq.values && s2 in freq.values && freq.values[s1] > freq.values[s2] ::
              |m.values[s1]| <= |m.values[s2]|
  {
    MapHoldsPaths(root);
    ListedMonotone(Paths(root), m, freq.values);
  }

  /** The leaves of the tree built from the table: weights are counts, and no heavier leaf is deeper. */
  lemma RootMonotone(freq: Dict<string, nat>, q: seq<Slot>, root: Tree)
    requires Valid(freq) && |freq.keys| >= 1
    requires q == LeafSlots(freq.keys, freq.values, 0)
    requires root == BuildTree(q, |freq.keys|)
    ensures CountedWeights(Paths(root), freq.values) && HeavierHigher(Paths(root))
  {
    InitialInv(freq.keys, freq.values);
    BuildTreeMonotone(q, |freq.keys|, freq.values);
    MonotoneByIndex(root, freq.values);
  }

  lemma MapSingle(freq: Dict<string, nat>, q: seq<Slot>, root: Tree, m: Dict<string, Code>)
    requires Valid(freq) && |freq.keys| == 1
    requires q == LeafSlots(freq.keys, freq.values, 0)
    requires root == BuildTree(q, |freq.keys|) && Distinct(Syms(root))
    requires m == Traverse(root, [], Empty())
    ensures m.values == map[freq.keys[0] := []]
  {
    MapHoldsPaths(root);
    assert root == q[0].node;
    assert Paths(root)[0].symbol == freq.keys[0];
    assert m.values.Keys == {freq.keys[0]};
  }
}
