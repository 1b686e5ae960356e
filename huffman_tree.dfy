/** Huffman trees as every Huffman variant builds them: leaves carry a value
    and its frequency, an internal node's frequency is the sum of its
    children's, and the tree is grown by repeatedly merging two minimum-frequency
    nodes of a min-heap until one node is left. The heap's tie-breaking and the
    iteration order of the frequency map are unspecified, so every choice of a
    minimum is allowed. */
module HuffmanTree {
  import opened Common

  datatype Node<D> =
    | Leaf(frequency: nat, data: D)
    | Internal(frequency: nat, left: Node<D>, right: Node<D>)

  /** The frequency of every internal node is the sum of its children's, as the
      InternalHuffmanNode constructor sets it. */
  ghost predicate WellFormed<D>(t: Node<D>) {
    match t
    case Leaf(_, _) => true
    case Internal(f, l, r) => f == l.frequency + r.frequency && WellFormed(l) && WellFormed(r)
  }

  /** Every internal node's left child was popped first, so it is no heavier
      than the right one. */
  ghost predicate LeftLighter<D>(t: Node<D>) {
    match t
    case Leaf(_, _) => true
    case Internal(_, l, r) => l.frequency <= r.frequency && LeftLighter(l) && LeftLighter(r)
  }

  /** The values at the leaves, with multiplicity. */
  function Leaves<D>(t: Node<D>): (m: multiset<D>)
    ensures |m| >= 1
  {
    match t
    case Leaf(_, v) => multiset{v}
    case Internal(_, l, r) => Leaves(l) + Leaves(r)
  }

  /** Each leaf's value counted as often as its frequency says. */
  function Weight<D>(t: Node<D>): multiset<D> {
    match t
    case Leaf(f, v) => multiset{}[v := f]
    case Internal(_, l, r) => Weight(l) + Weight(r)
  }

  /** No value sits at two leaves. */
  ghost predicate Distinct<D>(t: Node<D>) {
    forall v :: v in Leaves(t) ==> Leaves(t)[v] == 1
  }

  /** The depth of the deepest leaf. */
  function Height<D>(t: Node<D>): nat {
    match t
    case Leaf(_, _) => 0
    case Internal(_, l, r) => 1 + Max(Height(l), Height(r))
  }

  function Max(a: nat, b: nat): nat {
    if a < b then b else a
  }

  function InternalCount<D>(t: Node<D>): nat {
    match t
    case Leaf(_, _) => 0
    case Internal(_, l, r) => 1 + InternalCount(l) + InternalCount(r)
  }

  /** The root's frequency is the total weight of the leaves. */
  lemma {:induction false} RootFrequency<D>(t: Node<D>)
    requires WellFormed(t)
    ensures t.frequency == |Weight(t)|
  {
    match t
    case Leaf(f, v) =>
    case Internal(_, l, r) =>
      RootFrequency(l);
      RootFrequency(r);
  }

  /** A binary tree has one leaf more than it has internal nodes. */
  lemma {:induction false} LeafCount<D>(t: Node<D>)
    ensures |Leaves(t)| == InternalCount(t) + 1
  {
    match t
    case Leaf(_, _) =>
    case Internal(_, l, r) =>
      LeafCount(l);
      LeafCount(r);
  }

  /** The children of a tree with distinct leaves have distinct, disjoint leaves. */
  lemma DistinctChildren<D>(t: Node<D>)
    requires t.Internal? && Distinct(t)
    ensures Distinct(t.left) && Distinct(t.right)
    ensures forall v :: v in Leaves(t.left) ==> v !in Leaves(t.right)
  {
    forall v | v in Leaves(t.left) ensures Leaves(t.left)[v] == 1 && v !in Leaves(t.right) {
      assert Leaves(t)[v] == Leaves(t.left)[v] + Leaves(t.right)[v];
    }
    forall v | v in Leaves(t.right) ensures Leaves(t.right)[v] == 1 {
      assert Leaves(t)[v] == Leaves(t.left)[v] + Leaves(t.right)[v];
    }
  }

  // ----- the heap as a sequence of trees -----

  function ForestLeaves<D>(h: seq<Node<D>>): multiset<D> {
    if h == [] then multiset{} else Leaves(h[0]) + ForestLeaves(h[1..])
  }

  function ForestWeight<D>(h: seq<Node<D>>): multiset<D> {
    if h == [] then multiset{} else Weight(h[0]) + ForestWeight(h[1..])
  }

  function ForestInternal<D>(h: seq<Node<D>>): nat {
    if h == [] then 0 else InternalCount(h[0]) + ForestInternal(h[1..])
  }

  lemma {:induction false} ForestSplit<D>(a: seq<Node<D>>, b: seq<Node<D>>)
    ensures ForestLeaves(a + b) == ForestLeaves(a) + ForestLeaves(b)
    ensures ForestWeight(a + b) == ForestWeight(a) + ForestWeight(b)
    ensures ForestInternal(a + b) == ForestInternal(a) + ForestInternal(b)
  {
    if a == [] {
      assert a + b == b;
    } else {
      assert (a + b)[1..] == a[1..] + b;
      ForestSplit(a[1..], b);
    }
  }

  lemma ForestOne<D>(t: Node<D>)
    ensures ForestLeaves([t]) == Leaves(t)
    ensures ForestWeight([t]) == Weight(t)
    ensures ForestInternal([t]) == InternalCount(t)
  {
    assert [t][1..] == [];
  }

  predicate IsMinAt<D>(h: seq<Node<D>>, i: nat) {
    i < |h| && forall k :: 0 <= k < |h| ==> h[i].frequency <= h[k].frequency
  }

  lemma {:induction false} MinIndexExists<D>(h: seq<Node<D>>)
    requires |h| > 0
    ensures exists i :: IsMinAt(h, i)
  {
    if |h| == 1 {
      assert IsMinAt(h, 0);
    } else {
      MinIndexExists(h[1..]);
      var j: nat :| IsMinAt(h[1..], j);
      if h[0].frequency <= h[1..][j].frequency {
        assert IsMinAt(h, 0);
      } else {
        assert IsMinAt(h, j + 1);
      }
    }
  }

  /** Every tree of the heap has consistent frequencies and lighter left
      children. */
  ghost predicate AllSound<D>(h: seq<Node<D>>) {
    forall k :: 0 <= k < |h| ==> WellFormed(h[k]) && LeftLighter(h[k])
  }

  /** The heap with the node at index i taken out. */
  function Without<D>(h: seq<Node<D>>, i: nat): (r: seq<Node<D>>)
    requires i < |h|
    ensures |r| == |h| - 1
  {
    h[..i] + h[i + 1..]
  }

  /** One Huffman merge: `next` is `heap` with a least node taken out, then a
      least node of what remains, and the internal node joining them (the
      first on the left, frequencies summed) pushed. */
  ghost predicate HuffmanMerge<D>(heap: seq<Node<D>>, next: seq<Node<D>>) {
    exists i: nat, j: nat :: IsMinAt(heap, i) && IsMinAt(Without(heap, i), j) &&
      next == Without(Without(heap, i), j) +
        [Internal(heap[i].frequency + Without(heap, i)[j].frequency, heap[i], Without(heap, i)[j])]
  }

  /** `top()` then `pop()` on the min-heap: one node of least frequency is
      removed and the rest of the heap is as before. Which least node the heap
      yields is unspecified; `at` names the one taken. */
  method PopMin<D>(heap: seq<Node<D>>) returns (top: Node<D>, rest: seq<Node<D>>, at: nat)
    requires |heap| > 0 && AllSound(heap)
    ensures IsMinAt(heap, at) && top == heap[at] && rest == Without(heap, at)
    ensures |rest| == |heap| - 1
    ensures forall k :: 0 <= k < |rest| ==> top.frequency <= rest[k].frequency
    ensures WellFormed(top) && LeftLighter(top) && AllSound(rest)
    ensures ForestLeaves(heap) == Leaves(top) + ForestLeaves(rest)
    ensures ForestWeight(heap) == Weight(top) + ForestWeight(rest)
    ensures ForestInternal(heap) == InternalCount(top) + ForestInternal(rest)
  {
    MinIndexExists(heap);
    at :| IsMinAt(heap, at);
    top := heap[at];
    rest := Without(heap, at);
    RemoveSums(heap, at);
    RemoveKeeps(heap, at);
  }

  /** Removing the node at index i takes its leaves, weight and internal nodes
      out of the forest's. */
  lemma RemoveSums<D>(heap: seq<Node<D>>, i: nat)
    requires i < |heap|
    ensures var rest := Without(heap, i);
      && ForestLeaves(heap) == Leaves(heap[i]) + ForestLeaves(rest)
      && ForestWeight(heap) == Weight(heap[i]) + ForestWeight(rest)
      && ForestInternal(heap) == InternalCount(heap[i]) + ForestInternal(rest)
  {
    var top := heap[i];
    assert heap[i..] == [top] + heap[i + 1..];
    assert heap == heap[..i] + heap[i..];
    assert heap[..i] + ([top] + heap[i + 1..]) == heap[..i] + [top] + heap[i + 1..];
    ForestSplit(heap[..i] + [top], heap[i + 1..]);
    ForestSplit(heap[..i], [top]);
    ForestSplit(heap[..i], heap[i + 1..]);
    ForestOne(top);
  }

  /** The nodes left after removing a least one are sound and no lighter. */
  lemma RemoveKeeps<D>(heap: seq<Node<D>>, i: nat)
    requires IsMinAt(heap, i) && AllSound(heap)
    ensures var rest := Without(heap, i);
      && (forall k :: 0 <= k < |rest| ==> heap[i].frequency <= rest[k].frequency)
      && AllSound(rest)
  {
    var rest := Without(heap, i);
    forall k | 0 <= k < |rest|
      ensures heap[i].frequency <= rest[k].frequency && WellFormed(rest[k]) && LeftLighter(rest[k])
    {
      if k < i {
        assert rest[k] == heap[k];
      } else {
        assert rest[k] == heap[k + 1];
      }
    }
  }

  /** One iteration of the tree-building loop: pop the two lightest nodes and
      push the internal node joining them, the first popped on the left. */
  method MergeStep<D>(heap: seq<Node<D>>) returns (next: seq<Node<D>>)
    requires |heap| >= 2 && AllSound(heap)
    ensures |next| == |heap| - 1 && AllSound(next)
    ensures ForestLeaves(next) == ForestLeaves(heap)
    ensures ForestWeight(next) == ForestWeight(heap)
    ensures ForestInternal(next) == ForestInternal(heap) + 1
    ensures HuffmanMerge(heap, next)
  {
    var left, rest1, i := PopMin(heap);
    var right, rest2, j := PopMin(rest1);
    assert left.frequency <= right.frequency;
    var node := Internal(left.frequency + right.frequency, left, right);
    next := rest2 + [node];
    MergeAt(heap, i, j, next);
    PushSound(rest2, node);
    ForestSplit(rest2, [node]);
    ForestOne(node);
    Regroup(ForestLeaves(heap), ForestLeaves(rest1), ForestLeaves(rest2), Leaves(left), Leaves(right));
    Regroup(ForestWeight(heap), ForestWeight(rest1), ForestWeight(rest2), Weight(left), Weight(right));
  }

  /** Two least nodes taken out at i and then j, and their join pushed, make
      a Huffman merge. */
  lemma MergeAt<D>(heap: seq<Node<D>>, i: nat, j: nat, next: seq<Node<D>>)
    requires IsMinAt(heap, i) && IsMinAt(Without(heap, i), j)
    requires next == Without(Without(heap, i), j) +
      [Internal(heap[i].frequency + Without(heap, i)[j].frequency, heap[i], Without(heap, i)[j])]
    ensures HuffmanMerge(heap, next)
  {
  }

  /** Every heap of the sequence is a Huffman merge of the one before. */
  ghost predicate MergeChain<D>(trace: seq<seq<Node<D>>>) {
    forall k :: 0 <= k < |trace| - 1 ==> HuffmanMerge(trace[k], trace[k + 1])
  }

  lemma ChainGrow<D>(trace: seq<seq<Node<D>>>, next: seq<Node<D>>)
    requires trace != [] && MergeChain(trace) && HuffmanMerge(trace[|trace| - 1], next)
    ensures MergeChain(trace + [next])
  {
    var t := trace + [next];
    forall k | 0 <= k < |t| - 1 ensures HuffmanMerge(t[k], t[k + 1]) {
      if k < |trace| - 1 {
        assert t[k] == trace[k] && t[k + 1] == trace[k + 1];
      } else {
        assert t[k] == trace[|trace| - 1] && t[k + 1] == next;
      }
    }
  }

  lemma Regroup<D>(h: multiset<D>, r1: multiset<D>, r2: multiset<D>, a: multiset<D>, b: multiset<D>)
    requires h == a + r1 && r1 == b + r2
    ensures r2 + (a + b) == h
  {
  }

  lemma PushSound<D>(h: seq<Node<D>>, t: Node<D>)
    requires AllSound(h) && WellFormed(t) && LeftLighter(t)
    ensures AllSound(h + [t])
  {
    forall k | 0 <= k < |h + [t]| ensures WellFormed((h + [t])[k]) && LeftLighter((h + [t])[k]) {
      if k < |h| {
        assert (h + [t])[k] == h[k];
      }
    }
  }

  /** The tree-building loop: while the heap holds more than one node, merge
      two minimum-frequency nodes. Each iteration shrinks the heap by one, so a
      heap of n leaves takes n - 1 merges. An empty heap is excluded: the loop
      would pop from it. `trace` records the heap before every merge and after
      the last, so that the contract can say each step is a Huffman merge. */
  method BuildTree<D>(leaves: seq<Node<D>>) returns (root: Node<D>, merges: nat, ghost trace: seq<seq<Node<D>>>)
    requires |leaves| >= 1
    requires forall k :: 0 <= k < |leaves| ==> leaves[k].Leaf?
    ensures WellFormed(root) && LeftLighter(root)
    ensures Leaves(root) == ForestLeaves(leaves)
    ensures Weight(root) == ForestWeight(leaves)
    ensures merges == |leaves| - 1 && InternalCount(root) == merges
    ensures |trace| == merges + 1 && trace[0] == leaves && trace[merges] == [root]
    ensures MergeChain(trace)
  {
    var heap := leaves;
    merges := 0;
    trace := [leaves];
    LeavesOnly(leaves);
    while |heap| != 1
      invariant |heap| >= 1 && AllSound(heap)
      invariant ForestLeaves(heap) == ForestLeaves(leaves)
      invariant ForestWeight(heap) == ForestWeight(leaves)
      invariant ForestInternal(heap) == merges
      invariant merges + |heap| == |leaves|
      invariant |trace| == merges + 1 && trace[0] == leaves && trace[merges] == heap
      invariant MergeChain(trace)
      decreases |heap|
    {
      var next := MergeStep(heap);
      ChainGrow(trace, next);
      heap := next;
      merges := merges + 1;
      trace := trace + [heap];
    }
    root := heap[0];
    assert heap == [root];
    ForestOne(root);
  }

  lemma {:induction false} LeavesOnly<D>(h: seq<Node<D>>)
    requires forall k :: 0 <= k < |h| ==> h[k].Leaf?
    ensures ForestInternal(h) == 0 && AllSound(h)
  {
    if h != [] {
      LeavesOnly(h[1..]);
    }
  }

  /** `++frequencies[cell]` for every cell: each value of the column is mapped
      to the number of its occurrences. */
  method CountFrequencies<D>(column: seq<D>) returns (freq: map<D, nat>)
    ensures forall v :: v in freq <==> v in column
    ensures forall v :: v in freq ==> freq[v] == multiset(column)[v]
  {
    freq := map[];
    for i := 0 to |column|
      invariant forall v :: v in freq <==> v in column[..i]
      invariant forall v :: v in freq ==> freq[v] == multiset(column[..i])[v]
    {
      assert column[..i + 1] == column[..i] + [column[i]];
      var cell := column[i];
      var count := if cell in freq then freq[cell] else 0;
      freq := freq[cell := count + 1];
    }
    assert column[..|column|] == column;
  }

  /** One leaf per entry of the frequency map, pushed in the map's iteration
      order (any order). */
  method MakeLeaves<D>(freq: map<D, nat>) returns (heap: seq<Node<D>>)
    ensures |heap| == |freq.Keys|
    ensures forall k :: 0 <= k < |heap| ==> heap[k].Leaf?
    ensures forall v :: ForestLeaves(heap)[v] == if v in freq then 1 else 0
    ensures forall v :: ForestWeight(heap)[v] == if v in freq then freq[v] else 0
  {
    heap := [];
    var remaining := freq.Keys;
    while remaining != {}
      invariant remaining <= freq.Keys
      invariant |heap| + |remaining| == |freq.Keys|
      invariant forall k :: 0 <= k < |heap| ==> heap[k].Leaf?
      invariant forall v :: ForestLeaves(heap)[v] == if v in freq && v !in remaining then 1 else 0
      invariant forall v :: ForestWeight(heap)[v] == if v in freq && v !in remaining then freq[v] else 0
      decreases remaining
    {
      var key :| key in remaining;
      var leaf := Leaf(freq[key], key);
      PushLeaf(heap, freq, remaining, key);
      heap := heap + [leaf];
      remaining := remaining - {key};
    }
  }

  /** Pushing the leaf of one more key moves that key from "remaining" to
      "in the heap". */
  lemma PushLeaf<D>(heap: seq<Node<D>>, freq: map<D, nat>, remaining: set<D>, key: D)
    requires key in remaining && remaining <= freq.Keys
    requires forall v :: ForestLeaves(heap)[v] == if v in freq && v !in remaining then 1 else 0
    requires forall v :: ForestWeight(heap)[v] == if v in freq && v !in remaining then freq[v] else 0
    ensures forall v :: ForestLeaves(heap + [Leaf(freq[key], key)])[v] == if v in freq && v !in remaining - {key} then 1 else 0
    ensures forall v :: ForestWeight(heap + [Leaf(freq[key], key)])[v] == if v in freq && v !in remaining - {key} then freq[v] else 0
  {
    var leaf := Leaf(freq[key], key);
    ForestSplit(heap, [leaf]);
    ForestOne(leaf);
    forall v
      ensures ForestLeaves(heap + [leaf])[v] == if v in freq && v !in remaining - {key} then 1 else 0
      ensures ForestWeight(heap + [leaf])[v] == if v in freq && v !in remaining - {key} then freq[v] else 0
    {
      assert ForestLeaves(heap + [leaf])[v] == ForestLeaves(heap)[v] + Leaves(leaf)[v];
      assert ForestWeight(heap + [leaf])[v] == ForestWeight(heap)[v] + Weight(leaf)[v];
    }
  }

  /** The Huffman tree of a non-empty column: its leaves are the distinct
      values, each weighted by its number of occurrences, and the root's
      frequency is the column length. */
  method ColumnTree<D(==)>(column: seq<D>) returns (root: Node<D>)
    requires |column| > 0
    ensures WellFormed(root) && LeftLighter(root) && Distinct(root)
    ensures Leaves(root) == multiset(SetOf(column))
    ensures Weight(root) == multiset(column)
    ensures root.frequency == |column|
  {
    var freq := CountFrequencies(column);
    assert column[0] in freq;
    var heap := MakeLeaves(freq);
    CountsAgree(ForestWeight(heap), freq, column);
    assert freq.Keys == SetOf(column);
    OnceEach(ForestLeaves(heap), freq.Keys);
    var merges;
    ghost var trace;
    root, merges, trace := BuildTree(heap);
    SetLeavesDistinct(root, SetOf(column));
    RootFrequency(root);
  }

  /** A multiset that holds each key of the frequency map as often as the map
      says is the multiset of the counted column. */
  lemma CountsAgree<D>(m: multiset<D>, freq: map<D, nat>, column: seq<D>)
    requires forall v :: m[v] == if v in freq then freq[v] else 0
    requires forall v :: v in freq <==> v in column
    requires forall v :: v in freq ==> freq[v] == multiset(column)[v]
    ensures m == multiset(column)
  {
    forall v ensures m[v] == multiset(column)[v] {
      if v !in freq {
        assert v !in column;
      }
    }
  }

  lemma OnceEach<D>(m: multiset<D>, s: set<D>)
    requires forall v :: m[v] == if v in s then 1 else 0
    ensures m == multiset(s)
  {
    forall v ensures m[v] == multiset(s)[v] {
    }
  }

  /** The leaves of a tree are distinct when they are the elements of a set. */
  lemma SetLeavesDistinct<D>(t: Node<D>, s: set<D>)
    requires Leaves(t) == multiset(s)
    ensures Distinct(t)
  {
  }

  // ----- cpp/tree_test.cpp -----

  /** `tree_depth` as written: `++depth` runs before each of the two recursive
      calls, so the right child is measured from depth + 2. */
  function TreeDepth<D>(t: Node<D>, depth: nat): (r: nat)
    ensures depth <= r
  {
    match t
    case Leaf(_, _) => depth
    case Internal(_, l, r) => Max(TreeDepth(l, depth + 1), TreeDepth(r, depth + 2))
  }

  /** `tree_depth` overestimates: it lies between the true height and twice it. */
  lemma {:induction false} TreeDepthBounds<D>(t: Node<D>, depth: nat)
    ensures depth + Height(t) <= TreeDepth(t, depth) <= depth + 2 * Height(t)
  {
    match t
    case Leaf(_, _) =>
    case Internal(_, l, r) =>
      TreeDepthBounds(l, depth + 1);
      TreeDepthBounds(r, depth + 2);
  }

  /** Two leaves under one root have height 1, but `tree_depth` reports 2. */
  lemma TreeDepthOvercounts<D>(a: D, b: D)
    ensures Height(Internal(2, Leaf(1, a), Leaf(1, b))) == 1
    ensures TreeDepth(Internal(2, Leaf(1, a), Leaf(1, b)), 0) == 2
  {
  }

  /** The depth computation the function evidently intends: both children are
      one level below their parent. */
  function Depth<D>(t: Node<D>, depth: nat): (r: nat) {
    match t
    case Leaf(_, _) => depth
    case Internal(_, l, r) => Max(Depth(l, depth + 1), Depth(r, depth + 1))
  }

  lemma {:induction false} DepthIsHeight<D>(t: Node<D>, depth: nat)
    ensures Depth(t, depth) == depth + Height(t)
  {
    match t
    case Leaf(_, _) =>
    case Internal(_, l, r) =>
      DepthIsHeight(l, depth + 1);
      DepthIsHeight(r, depth + 1);
  }

  /** The program of cpp/tree_test.cpp: `size` keys of frequency 1 go into the
      heap, the loop merges them into one tree, and its `tree_depth` is
      reported. The loop needs a non-empty heap, so `size` must be at least 1. */
  method TreeTest(size: nat) returns (depth: nat, merges: nat, root: Node<nat>)
    requires size >= 1
    ensures merges == size - 1 && depth == TreeDepth(root, 0)
    ensures WellFormed(root) && root.frequency == size
    ensures forall v :: v in Leaves(root) <==> 0 <= v < size
    ensures |Leaves(root)| == size && InternalCount(root) == size - 1
    ensures Height(root) <= depth <= 2 * Height(root) && Height(root) < size
  {
    var freq: map<nat, nat> := map[];
    for i := 0 to size
      invariant |freq| == i
      invariant forall v: nat :: v in freq <==> v < i
      invariant forall v :: v in freq ==> freq[v] == 1
    {
      freq := freq[i := 1];
    }
    var heap := MakeLeaves(freq);
    UnitCounts(ForestWeight(heap), ForestLeaves(heap), freq);
    ghost var trace;
    root, merges, trace := BuildTree(heap);
    depth := TreeDepth(root, 0);
    forall v ensures v in Leaves(root) <==> 0 <= v < size {
      assert v in Leaves(root) <==> v in freq.Keys;
    }
    RootFrequency(root);
    LeafCount(root);
    TreeDepthBounds(root, 0);
    HeightBelowLeaves(root);
  }

  lemma UnitCounts<D>(w: multiset<D>, l: multiset<D>, freq: map<D, nat>)
    requires forall v :: w[v] == if v in freq then freq[v] else 0
    requires forall v :: l[v] == if v in freq then 1 else 0
    requires forall v :: v in freq ==> freq[v] == 1
    ensures w == l && l == multiset(freq.Keys)
  {
    forall v ensures w[v] == l[v] {
    }
  }

  /** A tree is no higher than it has internal nodes. */
  lemma {:induction false} HeightBelowLeaves<D>(t: Node<D>)
    ensures Height(t) <= InternalCount(t)
  {
    match t
    case Leaf(_, _) =>
    case Internal(_, l, r) =>
      HeightBelowLeaves(l);
      HeightBelowLeaves(r);
  }
}
