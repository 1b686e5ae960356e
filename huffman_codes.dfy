/** The code table read off a Huffman tree: walking from the root, a left edge
    appends `false` and a right edge `true` to the prefix, and each leaf's value
    receives the prefix that reaches it. The table is what the decoder inverts,
    so the properties that matter are that the codes name the leaves exactly,
    are pairwise different and no code extends another. */
module HuffmanCodes {
  import opened Common
  import opened HuffmanTree

  /** `buildCodes`: every leaf's value mapped to its path, with the right
      subtree's entries written after (and so over) the left subtree's. */
  function BuildCodes<D(!new)>(t: Node<D>, prefix: seq<bool>): (m: map<D, seq<bool>>)
    ensures forall v :: v in m <==> v in Leaves(t)
  {
    match t
    case Leaf(_, v) => map[v := prefix]
    case Internal(_, l, r) => BuildCodes(l, prefix + [false]) + BuildCodes(r, prefix + [true])
  }

  /** The decoder's view of the tree: follow the bits from the root; a code
      names a value exactly when it ends at a leaf. */
  function Walk<D(!new)>(t: Node<D>, code: seq<bool>): (r: Option<D>)
    ensures r.Some? ==> r.value in Leaves(t)
  {
    match t
    case Leaf(_, v) => if code == [] then Some(v) else None
    case Internal(_, l, r) =>
      if code == [] then None
      else if code[0] then Walk(r, code[1..])
      else Walk(l, code[1..])
  }

  /** A code that starts with `prefix + [b]` starts with `prefix`, and the bit
      after `prefix` is `b`. */
  lemma PrefixStep(prefix: seq<bool>, b: bool, code: seq<bool>)
    requires IsPrefix(prefix + [b], code)
    ensures IsPrefix(prefix, code) && |prefix| < |code|
    ensures code[|prefix|..] != [] && code[|prefix|..][0] == b
    ensures code[|prefix|..][1..] == code[|prefix| + 1..]
  {
    assert code[..|prefix| + 1][..|prefix|] == code[..|prefix|];
    assert code[|prefix|] == code[..|prefix| + 1][|prefix|];
  }

  /** Every code of the table starts with the prefix, and its remainder leads
      from the root to the leaf holding the value. */
  lemma {:induction false} CodesWalk<D(!new)>(t: Node<D>, prefix: seq<bool>, v: D)
    requires Distinct(t) && v in BuildCodes(t, prefix)
    ensures IsPrefix(prefix, BuildCodes(t, prefix)[v])
    ensures Walk(t, BuildCodes(t, prefix)[v][|prefix|..]) == Some(v)
  {
    match t
    case Leaf(_, _) =>
    case Internal(_, l, r) =>
      DistinctChildren(t);
      var code := BuildCodes(t, prefix)[v];
      if v in BuildCodes(r, prefix + [true]) {
        assert code == BuildCodes(r, prefix + [true])[v];
        CodesWalk(r, prefix + [true], v);
        PrefixStep(prefix, true, code);
        assert Walk(t, code[|prefix|..]) == Walk(r, code[|prefix|..][1..]);
      } else {
        assert v in BuildCodes(l, prefix + [false]);
        assert code == BuildCodes(l, prefix + [false])[v];
        CodesWalk(l, prefix + [false], v);
        PrefixStep(prefix, false, code);
        assert Walk(t, code[|prefix|..]) == Walk(l, code[|prefix|..][1..]);
      }
  }

  /** Conversely, every path to a leaf is that leaf value's code. */
  lemma {:induction false} WalkCodes<D(!new)>(t: Node<D>, prefix: seq<bool>, code: seq<bool>, v: D)
    requires Distinct(t) && Walk(t, code) == Some(v)
    ensures v in BuildCodes(t, prefix) && BuildCodes(t, prefix)[v] == prefix + code
    decreases t, 1
  {
    match t
    case Leaf(_, _) =>
      assert prefix + code == prefix;
    case Internal(_, l, r) =>
      if code[0] {
        WalkRight(t, prefix, code, v);
      } else {
        WalkLeft(t, prefix, code, v);
      }
  }

  /** A path into the right subtree is a code of the right subtree's table,
      which wins the union. */
  lemma {:induction false} WalkRight<D(!new)>(t: Node<D>, prefix: seq<bool>, code: seq<bool>, v: D)
    requires t.Internal? && Distinct(t) && Walk(t, code) == Some(v)
    requires code != [] && code[0]
    ensures v in BuildCodes(t, prefix) && BuildCodes(t, prefix)[v] == prefix + code
    decreases t, 0
  {
    DistinctChildren(t);
    assert prefix + code == (prefix + [true]) + code[1..];
    assert Walk(t.right, code[1..]) == Some(v);
    WalkCodes(t.right, prefix + [true], code[1..], v);
  }

  /** A path into the left subtree is a code of the left subtree's table, and
      its value is not in the right subtree's. */
  lemma {:induction false} WalkLeft<D(!new)>(t: Node<D>, prefix: seq<bool>, code: seq<bool>, v: D)
    requires t.Internal? && Distinct(t) && Walk(t, code) == Some(v)
    requires code != [] && !code[0]
    ensures v in BuildCodes(t, prefix) && BuildCodes(t, prefix)[v] == prefix + code
    decreases t, 0
  {
    DistinctChildren(t);
    assert prefix + code == (prefix + [false]) + code[1..];
    assert Walk(t.left, code[1..]) == Some(v);
    WalkCodes(t.left, prefix + [false], code[1..], v);
    assert v !in BuildCodes(t.right, prefix + [true]);
  }

  /** The code table of a tree with distinct leaves, seen from the decoder:
      value `v` has code `c` exactly when the remainder of `c` leads to `v`. */
  lemma CodeIffWalk<D(!new)>(t: Node<D>, prefix: seq<bool>, v: D, c: seq<bool>)
    requires Distinct(t)
    ensures (v in BuildCodes(t, prefix) && BuildCodes(t, prefix)[v] == c)
      <==> (IsPrefix(prefix, c) && Walk(t, c[|prefix|..]) == Some(v))
  {
    if v in BuildCodes(t, prefix) && BuildCodes(t, prefix)[v] == c {
      CodesWalk(t, prefix, v);
    }
    if IsPrefix(prefix, c) && Walk(t, c[|prefix|..]) == Some(v) {
      WalkCodes(t, prefix, c[|prefix|..], v);
      assert c == prefix + c[|prefix|..];
    }
  }

  /** A path that ends at a leaf cannot be continued to another leaf. */
  lemma {:induction false} WalkPrefixFree<D(!new)>(t: Node<D>, c: seq<bool>, d: seq<bool>)
    requires Walk(t, c).Some? && Walk(t, c + d).Some?
    ensures d == []
  {
    match t
    case Leaf(_, _) =>
    case Internal(_, l, r) =>
      assert (c + d)[1..] == c[1..] + d;
      if c[0] {
        WalkPrefixFree(r, c[1..], d);
      } else {
        WalkPrefixFree(l, c[1..], d);
      }
  }

  /** Different values receive different codes, and no code is a proper prefix
      of another: the table can be decoded. */
  lemma CodesDecodable<D(!new)>(t: Node<D>)
    requires Distinct(t)
    ensures Injective(BuildCodes(t, []))
    ensures forall v, u :: v in BuildCodes(t, []) && u in BuildCodes(t, []) && IsPrefix(BuildCodes(t, [])[v], BuildCodes(t, [])[u]) ==> v == u
  {
    var m := BuildCodes(t, []);
    forall v, u | v in m && u in m && IsPrefix(m[v], m[u]) ensures v == u {
      CodesWalk(t, [], v);
      CodesWalk(t, [], u);
      assert m[v][0..] == m[v] && m[u][0..] == m[u];
      var d := m[u][|m[v]|..];
      assert m[u] == m[v] + d;
      WalkPrefixFree(t, m[v], d);
      assert m[u] == m[v];
    }
  }

  /** A code is never longer than the path to the deepest leaf; below an
      internal root every code has at least one bit. */
  lemma {:induction false} CodeLengths<D(!new)>(t: Node<D>, prefix: seq<bool>, v: D)
    requires v in BuildCodes(t, prefix)
    ensures |BuildCodes(t, prefix)[v]| <= |prefix| + Height(t)
    ensures t.Internal? ==> |BuildCodes(t, prefix)[v]| > |prefix|
  {
    match t
    case Leaf(_, _) =>
    case Internal(_, l, r) =>
      if v in BuildCodes(r, prefix + [true]) {
        CodeLengths(r, prefix + [true], v);
      } else {
        CodeLengths(l, prefix + [false], v);
      }
  }

  /** A column with one distinct value is a single leaf, whose code is empty. */
  lemma SingleLeafCode<D(!new)>(f: nat, v: D)
    ensures BuildCodes(Leaf(f, v), []) == map[v := []]
  {
  }
}
