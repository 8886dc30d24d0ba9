/**
  The Huffman tree and code map builder of `huffman_map.py`: one leaf per
  symbol goes into a priority queue ordered by weight, the two lightest nodes
  are merged until one node is left, and a walk from that root assigns every
  leaf the bits of its path (0 towards `zero_child`, 1 towards `one_child`).

  The source's heap compares weights only, so the order among nodes of equal
  weight depends on `heapq`'s layout. The model fixes it: every queue entry
  carries a sequence number (leaves in the frequency table's order, merged
  nodes numbered on creation), and the lighter node, or among equal weights
  the older one, comes out first.
 */
module Huffman {
  import opened Seqs
  import opened Dicts

  type Code = seq<bool>

  /** `HuffmanTreeNode`: a leaf holds an input symbol, an inner node the concatenation of its children's labels. */
  datatype Tree =
    | Leaf(symbol: string, weight: nat)
    | Node(symbol: string, weight: nat, zero: Tree, one: Tree)

  /** A queue entry: a node and the sequence number that orders it among nodes of equal weight. */
  datatype Slot = Slot(node: Tree, seqno: nat)

  /** `__lt__` with ties broken by age: `x` leaves the queue before `y`. */
  predicate Before(x: Slot, y: Slot)
  {
    x.node.weight < y.node.weight || (x.node.weight == y.node.weight && x.seqno < y.seqno)
  }

  /** The leaf labels of a tree, zero side first. */
  function Syms(t: Tree): seq<string>
  {
    match t
    case Leaf(s, _) => [s]
    case Node(_, _, z, o) => Syms(z) + Syms(o)
  }

  /** Every inner node weighs what its two children weigh together. */
  predicate WellWeighted(t: Tree)
  {
    match t
    case Leaf(_, _) => true
    case Node(_, w, z, o) => w == z.weight + o.weight && WellWeighted(z) && WellWeighted(o)
  }

  /** The leaf labels of all queued trees. */
  function QueueSyms(q: seq<Slot>): seq<string>
  {
    if q == [] then [] else Syms(q[0].node) + QueueSyms(q[1..])
  }

  function QueueWeight(q: seq<Slot>): nat
  {
    if q == [] then 0 else q[0].node.weight + QueueWeight(q[1..])
  }

  lemma {:induction false} QueueAppend(a: seq<Slot>, b: seq<Slot>)
    ensures QueueSyms(a + b) == QueueSyms(a) + QueueSyms(b)
    ensures QueueWeight(a + b) == QueueWeight(a) + QueueWeight(b)
  {
    if a == [] {
      assert a + b == b;
    } else {
      assert (a + b)[0] == a[0] && (a + b)[1..] == a[1..] + b;
      QueueAppend(a[1..], b);
    }
  }

  /** The position of the entry that leaves the queue first. */
  function MinIndex(q: seq<Slot>): (i: nat)
    requires |q| > 0
    ensures i < |q|
    ensures forall j | 0 <= j < |q| :: !Before(q[j], q[i])
  {
    if |q| == 1 then 0
    else
      var k := 1 + MinIndex(q[1..]);
      assert forall j | 1 <= j < |q| :: q[j] == q[1..][j - 1];
      if Before(q[k], q[0]) then k else 0
  }

  /** No two entries of the queue carry the same sequence number. */
  predicate DistinctSeqnos(q: seq<Slot>)
  {
    forall i, j | 0 <= i < j < |q| :: q[i].seqno != q[j].seqno
  }

  /** Taking out the entry at `i` keeps the others, with their labels and weights. */
  lemma RemoveFacts(q: seq<Slot>, i: nat)
    requires i < |q|
    ensures multiset(q[..i] + q[i + 1..]) + multiset{q[i]} == multiset(q)
    ensures multiset(QueueSyms(q[..i] + q[i + 1..])) + multiset(Syms(q[i].node)) == multiset(QueueSyms(q))
    ensures QueueWeight(q[..i] + q[i + 1..]) + q[i].node.weight == QueueWeight(q)
    ensures DistinctSeqnos(q) ==> DistinctSeqnos(q[..i] + q[i + 1..]) && q[i] !in q[..i] + q[i + 1..]
  {
    var left, right := q[..i], q[i + 1..];
    SplitAt(q, i);
    RemoveSplit(left, q[i], right);
    if DistinctSeqnos(q) {
      RemoveDistinct(q, i);
    }
  }

  lemma SplitAt<T>(q: seq<T>, i: nat)
    requires i < |q|
    ensures q[..i] + [q[i]] + q[i + 1..] == q
  {
  }

  lemma RemoveSplit(left: seq<Slot>, x: Slot, right: seq<Slot>)
    ensures multiset(QueueSyms(left + right)) + multiset(Syms(x.node)) == multiset(QueueSyms(left + [x] + right))
    ensures QueueWeight(left + right) + x.node.weight == QueueWeight(left + [x] + right)
    ensures multiset(left + right) + multiset{x} == multiset(left + [x] + right)
  {
    QueueAppend(left + [x], right);
    QueueAppend(left, [x]);
    QueueAppend(left, right);
    assert QueueSyms([x]) == Syms(x.node) + QueueSyms([]);
    assert QueueWeight([x]) == x.node.weight + QueueWeight([]);
  }

  lemma RemoveDistinct(q: seq<Slot>, i: nat)
    requires i < |q| && DistinctSeqnos(q)
    ensures DistinctSeqnos(q[..i] + q[i + 1..]) && q[i] !in q[..i] + q[i + 1..]
  {
    var r := q[..i] + q[i + 1..];
    assert forall k | 0 <= k < |r| :: r[k] == if k < i then q[k] else q[k + 1];
    forall k | 0 <= k < |r| ensures r[k].seqno != q[i].seqno {
    }
  }

  /** What `heappop` hands back: the entry taken out and the queue left behind. */
  datatype Popped = Popped(min: Slot, rest: seq<Slot>)

  /**
    `heapq.heappop`: takes out an entry no other entry comes before, and
    leaves every other entry in the queue.
   */
  function Pop(q: seq<Slot>): (p: Popped)
    requires |q| >= 1
    ensures |p.rest| == |q| - 1
    ensures multiset(p.rest) + multiset{p.min} == multiset(q)
    ensures p.min in q && forall x | x in p.rest :: x in q
    ensures forall x | x in q :: !Before(x, p.min)
    ensures DistinctSeqnos(q) ==> DistinctSeqnos(p.rest) && p.min !in p.rest
    ensures multiset(QueueSyms(p.rest)) + multiset(Syms(p.min.node)) == multiset(QueueSyms(q))
    ensures QueueWeight(p.rest) + p.min.node.weight == QueueWeight(q)
  {
    var i := MinIndex(q);
    RemoveFacts(q, i);
    var p := Popped(q[i], q[..i] + q[i + 1..]);
    assert forall x | x in p.rest :: x in multiset(q);
    p
  }

  /** The inner node made of two popped nodes: labels and weights combined, the first popped on the zero side. */
  function Combine(a: Tree, b: Tree): Tree
  {
    Node(a.symbol + b.symbol, a.weight + b.weight, a, b)
  }

  /**
    One pass of the loop in `_build_huffman_tree`: pop two entries and push
    their combination, numbered `seqno`. The queue shrinks by one, and the
    labels and total weight it holds stay the same.
   */
  function Merge(q: seq<Slot>, seqno: nat): (r: seq<Slot>)
    requires |q| >= 2
    ensures |r| == |q| - 1
    ensures multiset(QueueSyms(r)) == multiset(QueueSyms(q))
    ensures QueueWeight(r) == QueueWeight(q)
  {
    var a := Pop(q);
    var b := Pop(a.rest);
    var n := Slot(Combine(a.min.node, b.min.node), seqno);
    QueueAppend(b.rest, [n]);
    assert QueueSyms([n]) == Syms(a.min.node) + Syms(b.min.node);
    b.rest + [n]
  }

  /**
    The pass merges the two lightest entries: the zero child weighs no more
    than any entry of the queue, the one child no more than any entry left
    behind, and the entries left behind together with the two merged ones
    are exactly the old queue. The new entry is last, with the new number.
   */
  lemma MergeTakesLightest(q: seq<Slot>, seqno: nat)
    requires |q| >= 2
    ensures var r := Merge(q, seqno); var z := r[|r| - 1];
            && z.seqno == seqno && z.node.Node?
            && z.node.weight == z.node.zero.weight + z.node.one.weight
            && z.node.symbol == z.node.zero.symbol + z.node.one.symbol
            && (forall x | x in q :: z.node.zero.weight <= x.node.weight)
            && (forall x | x in r[..|r| - 1] :: z.node.one.weight <= x.node.weight)
            && exists x: Slot, y: Slot :: && x.node == z.node.zero && y.node == z.node.one
                              && multiset(r[..|r| - 1]) + multiset{x, y} == multiset(q)
  {
    var a := Pop(q);
    var b := Pop(a.rest);
    var r := Merge(q, seqno);
    assert r[..|r| - 1] == b.rest;
    assert b.min in a.rest;
    assert multiset(b.rest) + multiset{a.min, b.min} == multiset(q);
  }

  /** `_build_huffman_tree` from the queue `q` on: merge until one node is left, and return it. */
  function BuildTree(q: seq<Slot>, seqno: nat): (t: Tree)
    requires |q| >= 1
    ensures multiset(Syms(t)) == multiset(QueueSyms(q))
    ensures t.weight == QueueWeight(q)
    decreases |q|
  {
    if |q| == 1 then
      assert QueueSyms(q) == Syms(q[0].node) + QueueSyms([]);
      q[0].node
    else
      BuildTree(Merge(q, seqno), seqno + 1)
  }

  /** The queue after `k` passes of the loop, numbering the new nodes from `seqno`. */
  function Merges(q: seq<Slot>, seqno: nat, k: nat): (r: seq<Slot>)
    requires k < |q|
    ensures |r| == |q| - k
    decreases k
  {
    if k == 0 then q else Merges(Merge(q, seqno), seqno + 1, k - 1)
  }

  /** A queue of `n` nodes is merged `n - 1` times, and the one node left is the tree's root. */
  lemma {:induction false} BuildTreeMerges(q: seq<Slot>, seqno: nat)
    requires |q| >= 1
    ensures |Merges(q, seqno, |q| - 1)| == 1
    ensures BuildTree(q, seqno) == Merges(q, seqno, |q| - 1)[0].node
    decreases |q|, 1
  {
    if |q| == 1 {
      LastNode(q, seqno);
    } else {
      MergedOnce(q, seqno);
    }
  }

  lemma {:induction false} MergedOnce(q: seq<Slot>, seqno: nat)
    requires |q| >= 2
    ensures |Merges(q, seqno, |q| - 1)| == 1
    ensures BuildTree(q, seqno) == Merges(q, seqno, |q| - 1)[0].node
    decreases |q|, 0
  {
    var q' := Merge(q, seqno);
    BuildTreeMerges(q', seqno + 1);
    var r, t := Merges(q', seqno + 1, |q'| - 1), BuildTree(q', seqno + 1);
    MergeFirst(q, seqno, |q| - 1, r);
    BuildAfterMerge(q, seqno, t);
  }

  lemma LastNode(q: seq<Slot>, seqno: nat)
    requires |q| == 1
    ensures |Merges(q, seqno, |q| - 1)| == 1
    ensures BuildTree(q, seqno) == Merges(q, seqno, |q| - 1)[0].node
  {
    assert Merges(q, seqno, 0) == q;
  }

  lemma MergeFirst(q: seq<Slot>, seqno: nat, k: nat, r: seq<Slot>)
    requires 0 < k < |q| && Merges(Merge(q, seqno), seqno + 1, k - 1) == r
    ensures Merges(q, seqno, k) == r
  {
  }

  lemma BuildAfterMerge(q: seq<Slot>, seqno: nat, t: Tree)
    requires |q| > 1 && BuildTree(Merge(q, seqno), seqno + 1) == t
    ensures BuildTree(q, seqno) == t
  {
  }

  /** Merging keeps every inner node's weight the sum of its children's. */
  lemma {:induction false} BuildTreeWellWeighted(q: seq<Slot>, seqno: nat)
    requires |q| >= 1 && forall x | x in q :: WellWeighted(x.node)
    ensures WellWeighted(BuildTree(q, seqno))
    decreases |q|
  {
    if |q| > 1 {
      var a := Pop(q);
      var b := Pop(a.rest);
      var r := Merge(q, seqno);
      var n := Slot(Combine(a.min.node, b.min.node), seqno);
      assert r == b.rest + [n];
      assert WellWeighted(n.node) by {
        assert a.min in q && b.min in q;
      }
      assert forall x | x in r :: x in b.rest || x == n;
      BuildTreeWellWeighted(r, seqno + 1);
    }
  }

  /**
    The list comprehension of `build_huffman_map`: a leaf per key, weighted
    with its count and numbered in the table's order from `first` on.
   */
  function LeafSlots(keys: seq<string>, weights: map<string, nat>, first: nat): (q: seq<Slot>)
    requires forall i | 0 <= i < |keys| :: keys[i] in weights
    ensures |q| == |keys|
    ensures forall i | 0 <= i < |keys| :: q[i] == Slot(Leaf(keys[i], weights[keys[i]]), first + i)
    ensures QueueSyms(q) == keys
    decreases |keys|
  {
    if keys == [] then []
    else
      var rest := LeafSlots(keys[1..], weights, first + 1);
      var q := [Slot(Leaf(keys[0], weights[keys[0]]), first)] + rest;
      assert q[1..] == rest;
      assert keys == [keys[0]] + keys[1..];
      q
  }

  /** The sum of the weights of `keys`. */
  function Total(keys: seq<string>, weights: map<string, nat>): nat
    requires forall i | 0 <= i < |keys| :: keys[i] in weights
    decreases |keys|
  {
    if keys == [] then 0 else weights[keys[0]] + Total(keys[1..], weights)
  }

  /** The root built from the leaves weighs as much as all counts together. */
  lemma RootWeight(keys: seq<string>, weights: map<string, nat>)
    requires |keys| >= 1 && forall i | 0 <= i < |keys| :: keys[i] in weights
    ensures BuildTree(LeafSlots(keys, weights, 0), |keys|).weight == Total(keys, weights)
  {
    LeafSlotsWeight(keys, weights, 0);
  }

  lemma {:induction false} LeafSlotsWeight(keys: seq<string>, weights: map<string, nat>, first: nat)
    requires forall i | 0 <= i < |keys| :: keys[i] in weights
    ensures QueueWeight(LeafSlots(keys, weights, first)) == Total(keys, weights)
    decreases |keys|
  {
    if keys != [] {
      var q := LeafSlots(keys, weights, first);
      assert q[1..] == LeafSlots(keys[1..], weights, first + 1);
      LeafSlotsWeight(keys[1..], weights, first + 1);
    }
  }
}
