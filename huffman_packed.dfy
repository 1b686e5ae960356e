/** The bit-packing Huffman codec (cpp_for_review/huffman.cpp), for integer
    columns. Codes are std::bitset<B>: a leaf at depth d gets its root-to-leaf
    path in the d most significant positions followed by a terminating 1.
    Compression packs whole codes into B-bit blocks; decompression scans each
    block with a growing window and emits a value whenever the window holds a
    code. bitset::set and bitset::flip throw std::out_of_range for a position
    outside the set; that exception is the `Err` result here. */
module HuffmanPacked {
  import opened Common
  import opened Bitsets
  import opened HuffmanTree
  import opened HuffmanCodes

  // ----- the code table -----

  /** `buildCodes`: a leaf sets the terminating 1 at the position for its
      depth; an internal node passes a copy of the prefix to the left child,
      flips the position for its depth in another copy and passes that to the
      right child. The right subtree's entries are written last. */
  function BuildBitCodes(t: Node<int>, prefix: seq<bool>, depth: nat, B: nat): (res: Result<map<int, seq<bool>>>)
    requires |prefix| == B
    ensures res.Ok? ==> forall v :: v in res.value ==> |res.value[v]| == B
  {
    match t
    case Leaf(_, v) =>
      if depth >= B then Err(OutOfRange) else Ok(map[v := prefix[depth := true]])
    case Internal(_, lt, rt) =>
      var left := BuildBitCodes(lt, prefix, depth + 1, B);
      if left.Err? then left
      else if depth >= B then Err(OutOfRange)
      else
        var right := BuildBitCodes(rt, prefix[depth := !prefix[depth]], depth + 1, B);
        if right.Err? then right else Ok(left.value + right.value)
  }

  /** Every path of a table followed by the terminating bit, as a B-bit code. */
  function Sentinel(m: map<int, seq<bool>>, B: nat): (r: map<int, seq<bool>>)
    ensures r.Keys == m.Keys
  {
    map v | v in m :: Pad(m[v] + [true], B)
  }

  lemma SentinelUnion(a: map<int, seq<bool>>, b: map<int, seq<bool>>, B: nat)
    ensures Sentinel(a + b, B) == Sentinel(a, B) + Sentinel(b, B)
  {
  }

  lemma PadStep(p: seq<bool>, bit: bool, B: nat)
    requires |p| < B
    ensures Pad(p, B)[|p|] == false
    ensures Pad(p, B)[|p| := bit] == Pad(p + [bit], B)
  {
    assert Pad(p, B) == p + Zeros(B - |p|);
    assert Pad(p + [bit], B) == p + [bit] + Zeros(B - |p| - 1);
  }

  lemma PadLong(p: seq<bool>, bit: bool, B: nat)
    requires |p| >= B
    ensures Pad(p + [bit], B) == Pad(p, B)
  {
    assert (p + [bit])[..B] == p[..B];
  }

  /** The bitset table the paths of `t` below `p` call for: their sentinel
      codes when every leaf is above depth B, otherwise the exception. */
  function PaddedPaths(t: Node<int>, p: seq<bool>, B: nat): Result<map<int, seq<bool>>> {
    if |p| + Height(t) < B then Ok(Sentinel(BuildCodes(t, p), B)) else Err(OutOfRange)
  }

  /** The bitset codes are the vector<bool> paths with a terminating 1, padded
      to B bits, as long as every leaf is above depth B; a deeper leaf makes
      `set` or `flip` throw. */
  lemma {:induction false} BitCodesArePaddedPaths(t: Node<int>, p: seq<bool>, B: nat)
    ensures BuildBitCodes(t, Pad(p, B), |p|, B) == PaddedPaths(t, p, B)
  {
    match t
    case Leaf(_, v) =>
      if |p| < B {
        PadStep(p, true, B);
        assert BuildCodes(t, p) == map[v := p];
        assert Sentinel(map[v := p], B) == map[v := Pad(p + [true], B)];
      }
    case Internal(_, lt, rt) =>
      if |p| < B {
        PadStep(p, false, B);
        assert Pad(p, B)[|p| := false] == Pad(p, B);
      } else {
        PadLong(p, false, B);
      }
      assert Pad(p + [false], B) == Pad(p, B);
      BitCodesArePaddedPaths(lt, p + [false], B);
      if |p| < B {
        BitCodesArePaddedPaths(rt, p + [true], B);
      }
      InternalPaddedPaths(t, p, B);
  }

  /** The inductive step of `BitCodesArePaddedPaths` for an internal node. */
  lemma InternalPaddedPaths(t: Node<int>, p: seq<bool>, B: nat)
    requires t.Internal?
    requires BuildBitCodes(t.left, Pad(p, B), |p| + 1, B) == PaddedPaths(t.left, p + [false], B)
    requires |p| < B ==> BuildBitCodes(t.right, Pad(p + [true], B), |p| + 1, B) == PaddedPaths(t.right, p + [true], B)
    ensures BuildBitCodes(t, Pad(p, B), |p|, B) == PaddedPaths(t, p, B)
  {
    var pre := Pad(p, B);
    if |p| < B {
      PadStep(p, true, B);
      assert pre[|p| := !pre[|p|]] == Pad(p + [true], B);
      SentinelUnion(BuildCodes(t.left, p + [false]), BuildCodes(t.right, p + [true]), B);
    }
  }

  /** `getCodeLength`: scanning positions from the least significant one, the
      first set position i gives length B - i; an empty set gives 0. */
  method GetCodeLength(bs: seq<bool>) returns (n: nat)
    ensures n == CodeLen(bs)
  {
    var i := 0;
    while i < |bs|
      invariant i <= |bs|
      invariant forall k :: |bs| - i <= k < |bs| ==> !bs[k]
    {
      if bs[|bs| - 1 - i] {
        CodeLenUnique(bs, |bs| - i);
        return |bs| - i;
      }
      i := i + 1;
    }
    CodeLenUnique(bs, 0);
    return 0;
  }

  /** A 64-bit set holding only bit 60 has code length 4. */
  lemma BitSixtyHasLengthFour()
    ensures CodeLen(Zeros(64)[3 := true]) == 4
  {
    assert Zeros(64)[3 := true] == Pad(Zeros(3) + [true], 64);
    WordOfPad(Zeros(3) + [true], 64);
  }

  /** What decoding needs of a table of B-bit codes: each code is non-zero,
      different values have different codes, and no code's word (its bits up
      to the terminating 1) starts another's. */
  ghost predicate Decodable(codes: map<int, seq<bool>>, B: nat) {
    && (forall v :: v in codes ==> |codes[v]| == B && CodeLen(codes[v]) > 0)
    && Injective(codes)
    && (forall u, v :: u in codes && v in codes && IsPrefix(Word(codes[u]), Word(codes[v])) ==> u == v)
  }

  /** The word of a sentinel code is the path with its terminating 1. */
  lemma SentinelWord(m: map<int, seq<bool>>, B: nat, v: int)
    requires v in m && |m[v]| < B
    ensures Word(Sentinel(m, B)[v]) == m[v] + [true]
    ensures CodeLen(Sentinel(m, B)[v]) == |m[v]| + 1
  {
    WordOfPad(m[v] + [true], B);
  }

  /** Paths that stay prefixes of each other once both are terminated. */
  lemma ExtendedPrefix(a: seq<bool>, b: seq<bool>)
    requires IsPrefix(a + [true], b + [true])
    ensures IsPrefix(a, b)
  {
    var wa, wb := a + [true], b + [true];
    assert wb[..|a|] == wa[..|a|] == a;
    if |a| < |b| {
      assert b[..|a|] == wb[..|a|];
    } else {
      assert b == wb[..|b|];
      assert |a| == |b|;
    }
  }

  /** The table of a tree with distinct leaves, all above depth B, is
      decodable: every code ends in its terminating 1 and the paths are
      prefix-free. */
  lemma SentinelCodesDecodable(t: Node<int>, B: nat)
    requires Distinct(t) && Height(t) < B
    ensures Decodable(Sentinel(BuildCodes(t, []), B), B)
  {
    var m := BuildCodes(t, []);
    CodesDecodable(t);
    forall v | v in m ensures |m[v]| < B {
      CodeLengths(t, [], v);
    }
    SentinelShape(m, B);
    SentinelPrefixFree(m, B);
    PrefixFreeInjective(Sentinel(m, B));
  }

  lemma SentinelShape(m: map<int, seq<bool>>, B: nat)
    requires forall v :: v in m ==> |m[v]| < B
    ensures forall v :: v in Sentinel(m, B) ==> |Sentinel(m, B)[v]| == B && CodeLen(Sentinel(m, B)[v]) > 0
  {
    forall v | v in Sentinel(m, B) ensures |Sentinel(m, B)[v]| == B && CodeLen(Sentinel(m, B)[v]) > 0 {
      SentinelWord(m, B, v);
    }
  }

  lemma SentinelPrefixFree(m: map<int, seq<bool>>, B: nat)
    requires forall v :: v in m ==> |m[v]| < B
    requires forall v, u :: v in m && u in m && IsPrefix(m[v], m[u]) ==> v == u
    ensures forall u, v :: u in Sentinel(m, B) && v in Sentinel(m, B) && IsPrefix(Word(Sentinel(m, B)[u]), Word(Sentinel(m, B)[v])) ==> u == v
  {
    var codes := Sentinel(m, B);
    forall u, v | u in codes && v in codes && IsPrefix(Word(codes[u]), Word(codes[v])) ensures u == v {
      SentinelWord(m, B, u);
      SentinelWord(m, B, v);
      ExtendedPrefix(m[u], m[v]);
    }
  }

  /** Codes whose words are prefix-free are pairwise different. */
  lemma PrefixFreeInjective(codes: map<int, seq<bool>>)
    requires forall u, v :: u in codes && v in codes && IsPrefix(Word(codes[u]), Word(codes[v])) ==> u == v
    ensures Injective(codes)
  {
    forall u, v | u in codes && v in codes && u != v ensures codes[u] != codes[v] {
      if codes[u] == codes[v] {
        assert IsPrefix(Word(codes[u]), Word(codes[v]));
      }
    }
  }

  // ----- packing codes into blocks -----

  /** The bits a cell contributes to a block: its code up to the terminating 1. */
  function WordOf(codes: map<int, seq<bool>>, v: int): seq<bool> {
    if v in codes then Word(codes[v]) else []
  }

  /** The contents of a block holding the cells of `g`, in order. */
  function GroupBits(codes: map<int, seq<bool>>, g: seq<int>): seq<bool>
    decreases |g|
  {
    if g == [] then [] else GroupBits(codes, g[..|g| - 1]) + WordOf(codes, g[|g| - 1])
  }

  lemma GroupBitsAppend(codes: map<int, seq<bool>>, g: seq<int>, v: int)
    ensures GroupBits(codes, g + [v]) == GroupBits(codes, g) + WordOf(codes, v)
  {
    assert (g + [v])[..|g|] == g;
  }

  /** The cells of a sequence of groups, in order. */
  function Join(groups: seq<seq<int>>): seq<int>
    decreases |groups|
  {
    if groups == [] then [] else groups[0] + Join(groups[1..])
  }

  lemma {:induction false} JoinAppend(groups: seq<seq<int>>, g: seq<int>)
    ensures Join(groups + [g]) == Join(groups) + g
    decreases |groups|
  {
    if groups == [] {
      assert [] + [g] == [g];
      assert [g][1..] == [];
    } else {
      assert (groups + [g])[1..] == groups[1..] + [g];
      JoinAppend(groups[1..], g);
    }
  }

  /** Every cell of a group is a cell of the joined groups. */
  lemma {:induction false} JoinHolds(groups: seq<seq<int>>, k: nat, m: nat)
    requires k < |groups| && m < |groups[k]|
    ensures groups[k][m] in Join(groups)
    decreases k
  {
    if k > 0 {
      JoinHolds(groups[1..], k - 1, m);
    }
  }

  /** The state of compression after a prefix of the column: the blocks
      already pushed (`closed`), the cells held by the current block (`open`)
      and whether the last cell started a new block (`pushed`). */
  datatype Packing = Packing(closed: seq<seq<int>>, open: seq<int>, pushed: bool)

  /** Placing one cell: it joins the current block when its code fits,
      otherwise the current block is pushed and the cell starts a new one. */
  function Place(codes: map<int, seq<bool>>, q: Packing, v: int, B: nat): (p: Packing)
    ensures p.open != []
  {
    if |GroupBits(codes, q.open)| + |WordOf(codes, v)| > B then Packing(q.closed + [q.open], [v], true)
    else Packing(q.closed, q.open + [v], false)
  }

  /** Greedy packing of a column, one cell after another. */
  function Greedy(codes: map<int, seq<bool>>, cells: seq<int>, B: nat): (p: Packing)
    ensures cells != [] ==> p.open != []
    decreases |cells|
  {
    if cells == [] then Packing([], [], false)
    else Place(codes, Greedy(codes, cells[..|cells| - 1], B), cells[|cells| - 1], B)
  }

  lemma GreedyStep(codes: map<int, seq<bool>>, cells: seq<int>, i: nat, B: nat)
    requires i < |cells|
    ensures Greedy(codes, cells[..i + 1], B) == Place(codes, Greedy(codes, cells[..i], B), cells[i], B)
  {
    assert cells[..i + 1][..i] == cells[..i];
  }

  /** The blocks compression returns: the pushed ones, and the current one
      unless the last cell has just been placed in a fresh block. */
  function AsWritten(p: Packing): seq<seq<int>> {
    if p.pushed then p.closed else p.closed + [p.open]
  }

  /** Every block, the current one included. */
  function Completed(p: Packing): seq<seq<int>> {
    p.closed + [p.open]
  }

  /** The B-bit sets that hold the groups. */
  function Blocks(codes: map<int, seq<bool>>, groups: seq<seq<int>>, B: nat): (bs: seq<seq<bool>>)
    ensures |bs| == |groups| && forall k :: 0 <= k < |bs| ==> |bs[k]| == B
  {
    seq(|groups|, k requires 0 <= k < |groups| => Pad(GroupBits(codes, groups[k]), B))
  }

  /** A packing of `cells` into groups that each fit a block, whose current
      group holds only the last cell when that cell was pushed into a fresh
      block. */
  ghost predicate Shaped(codes: map<int, seq<bool>>, cells: seq<int>, B: nat, p: Packing) {
    && Join(Completed(p)) == cells
    && (forall k :: 0 <= k < |p.closed| ==> |GroupBits(codes, p.closed[k])| <= B)
    && |GroupBits(codes, p.open)| <= B
    && (p.pushed ==> |cells| >= 2 && p.open == [cells[|cells| - 1]])
  }

  lemma SingletonBits(codes: map<int, seq<bool>>, v: int)
    ensures GroupBits(codes, [v]) == WordOf(codes, v)
  {
    assert [v][..0] == [];
  }

  /** Placing a cell whose code fits in a block keeps the packing shaped. */
  lemma PlaceShape(codes: map<int, seq<bool>>, cells: seq<int>, q: Packing, v: int, B: nat)
    requires Shaped(codes, cells, B, q) && |WordOf(codes, v)| <= B
    requires cells == [] ==> q.open == []
    ensures Shaped(codes, cells + [v], B, Place(codes, q, v, B))
  {
    if |GroupBits(codes, q.open)| + |WordOf(codes, v)| > B {
      FlushShape(codes, cells, q, v, B);
    } else {
      FitShape(codes, cells, q, v, B);
    }
  }

  lemma FlushShape(codes: map<int, seq<bool>>, cells: seq<int>, q: Packing, v: int, B: nat)
    requires Shaped(codes, cells, B, q) && |WordOf(codes, v)| <= B
    requires cells == [] ==> q.open == []
    requires |GroupBits(codes, q.open)| + |WordOf(codes, v)| > B
    ensures Shaped(codes, cells + [v], B, Packing(q.closed + [q.open], [v], true))
  {
    var closed := q.closed + [q.open];
    JoinAppend(q.closed, q.open);
    JoinAppend(closed, [v]);
    assert Join(Completed(Packing(closed, [v], true))) == cells + [v];
    SingletonBits(codes, v);
    forall k | 0 <= k < |closed| ensures |GroupBits(codes, closed[k])| <= B {
      if k < |q.closed| {
        assert closed[k] == q.closed[k];
      }
    }
  }

  lemma FitShape(codes: map<int, seq<bool>>, cells: seq<int>, q: Packing, v: int, B: nat)
    requires Shaped(codes, cells, B, q)
    requires |GroupBits(codes, q.open)| + |WordOf(codes, v)| <= B
    ensures Shaped(codes, cells + [v], B, Packing(q.closed, q.open + [v], false))
  {
    JoinAppend(q.closed, q.open);
    JoinAppend(q.closed, q.open + [v]);
    GroupBitsAppend(codes, q.open, v);
  }

  /** The greedy packing splits the column into groups that each fit a block;
      the current group holds only the last cell when that cell was pushed
      into a fresh block, which the first cell never is. */
  lemma {:induction false} GreedyShape(codes: map<int, seq<bool>>, cells: seq<int>, B: nat)
    requires forall k :: 0 <= k < |cells| ==> |WordOf(codes, cells[k])| <= B
    ensures Shaped(codes, cells, B, Greedy(codes, cells, B))
    decreases |cells|
  {
    if cells == [] {
      assert Join([[]]) == [] + Join([]);
    } else {
      var init := cells[..|cells| - 1];
      GreedyShape(codes, init, B);
      assert cells == init + [cells[|cells| - 1]];
      PlaceShape(codes, init, Greedy(codes, init, B), cells[|cells| - 1], B);
    }
  }

  /** The cells of the blocks compression returns: all of them, or all but
      the last when the last cell was pushed into a fresh block. */
  lemma AsWrittenCells(codes: map<int, seq<bool>>, cells: seq<int>, B: nat)
    requires forall k :: 0 <= k < |cells| ==> |WordOf(codes, cells[k])| <= B
    ensures var p := Greedy(codes, cells, B);
      Join(AsWritten(p)) == if p.pushed then cells[..|cells| - 1] else cells
  {
    var p := Greedy(codes, cells, B);
    GreedyShape(codes, cells, B);
    JoinAppend(p.closed, p.open);
    if p.pushed {
      assert cells[..|cells| - 1] + [cells[|cells| - 1]] == cells;
    }
  }

  /** The smallest value of a block, `std::min` folded over its cells. */
  function SeqMin(s: seq<int>): (r: int)
    requires s != []
    ensures r in s && forall k :: 0 <= k < |s| ==> r <= s[k]
    decreases |s|
  {
    if |s| == 1 then s[0]
    else
      var m := SeqMin(s[..|s| - 1]);
      if s[|s| - 1] < m then s[|s| - 1] else m
  }

  /** The largest value of a block, `std::max` folded over its cells. */
  function SeqMax(s: seq<int>): (r: int)
    requires s != []
    ensures r in s && forall k :: 0 <= k < |s| ==> s[k] <= r
    decreases |s|
  {
    if |s| == 1 then s[0]
    else
      var m := SeqMax(s[..|s| - 1]);
      if m < s[|s| - 1] then s[|s| - 1] else m
  }

  /** What the variables of the compression loop hold for a packing: the
      pushed blocks, and the length and bits of the current block. */
  ghost predicate Mirrors(codes: map<int, seq<bool>>, B: nat, p: Packing,
                          attributeVector: seq<seq<bool>>, bitsetLength: int, currentBitset: seq<bool>) {
    && attributeVector == Blocks(codes, p.closed, B)
    && bitsetLength == |GroupBits(codes, p.open)| <= B
    && currentBitset == Pad(GroupBits(codes, p.open), B)
  }

  /** A code that overflows the block: the block is pushed and the shifted
      code alone fills the cleared one. */
  lemma FlushStep(codes: map<int, seq<bool>>, B: nat, q: Packing, v: int,
                  attributeVector: seq<seq<bool>>, bitsetLength: int, currentBitset: seq<bool>)
    requires Mirrors(codes, B, q, attributeVector, bitsetLength, currentBitset)
    requires v in codes && |codes[v]| == B && bitsetLength + CodeLen(codes[v]) > B
    ensures var p := Place(codes, q, v, B);
      && p.pushed && p.open == [v]
      && Mirrors(codes, B, p, attributeVector + [currentBitset], CodeLen(codes[v]), Or(Zeros(B), ShiftRight(codes[v], 0)))
  {
    var code := codes[v];
    PadWord(code);
    SingletonBits(codes, v);
    assert Blocks(codes, q.closed + [q.open], B) == Blocks(codes, q.closed, B) + [Pad(GroupBits(codes, q.open), B)];
    assert Pad([], B) == Zeros(B);
    AppendShifted([], Word(code), B);
  }

  /** A code that fits: it is appended to the current block. */
  lemma FitStep(codes: map<int, seq<bool>>, B: nat, q: Packing, v: int,
                attributeVector: seq<seq<bool>>, bitsetLength: int, currentBitset: seq<bool>)
    requires Mirrors(codes, B, q, attributeVector, bitsetLength, currentBitset)
    requires v in codes && |codes[v]| == B && bitsetLength + CodeLen(codes[v]) <= B
    ensures var p := Place(codes, q, v, B);
      && !p.pushed && p.open == q.open + [v]
      && Mirrors(codes, B, p, attributeVector, bitsetLength + CodeLen(codes[v]), Or(currentBitset, ShiftRight(codes[v], bitsetLength)))
  {
    var code := codes[v];
    PadWord(code);
    GroupBitsAppend(codes, q.open, v);
    AppendShifted(GroupBits(codes, q.open), Word(code), B);
  }

  /** Folding one more cell into the bounds of a block. */
  lemma BoundsStep(open: seq<int>, v: int)
    requires open != []
    ensures SeqMin(open + [v]) == if v < SeqMin(open) then v else SeqMin(open)
    ensures SeqMax(open + [v]) == if SeqMax(open) < v then v else SeqMax(open)
  {
    assert (open + [v])[..|open|] == open;
  }

  /** The variables of the `compress` loop after the first i cells: they hold
      the greedy packing of those cells. */
  ghost predicate PackState(codes: map<int, seq<bool>>, column: seq<int>, i: nat, B: nat,
                            attributeVector: seq<seq<bool>>, bitsetLength: int, currentBitset: seq<bool>,
                            bounds: (int, int), pushed: bool)
    requires i <= |column|
  {
    var p := Greedy(codes, column[..i], B);
    && Mirrors(codes, B, p, attributeVector, bitsetLength, currentBitset)
    && pushed == p.pushed
    && (i > 0 ==> bounds == (SeqMin(p.open), SeqMax(p.open)))
  }

  /** One iteration of the `compress` loop keeps the variables in step with the
      greedy packing. */
  lemma PackStep(codes: map<int, seq<bool>>, column: seq<int>, i: nat, B: nat,
                 attributeVector: seq<seq<bool>>, bitsetLength: int, currentBitset: seq<bool>,
                 bounds: (int, int), pushed: bool,
                 attributeVector': seq<seq<bool>>, bitsetLength': int, currentBitset': seq<bool>,
                 bounds': (int, int), pushed': bool)
    requires i < |column| && column[i] in codes && |codes[column[i]]| == B
    requires PackState(codes, column, i, B, attributeVector, bitsetLength, currentBitset, bounds, pushed)
    requires var v := column[i]; var n := CodeLen(codes[v]);
      if bitsetLength + n > B then
        && attributeVector' == attributeVector + [currentBitset] && bitsetLength' == n
        && currentBitset' == Or(Zeros(B), ShiftRight(codes[v], 0)) && pushed' && bounds' == (v, v)
      else
        && attributeVector' == attributeVector && bitsetLength' == bitsetLength + n
        && currentBitset' == Or(currentBitset, ShiftRight(codes[v], bitsetLength)) && !pushed'
        && bounds' == (if i == 0 then (v, v) else (if v < bounds.0 then v else bounds.0, if bounds.1 < v then v else bounds.1))
    ensures PackState(codes, column, i + 1, B, attributeVector', bitsetLength', currentBitset', bounds', pushed')
  {
    var q := Greedy(codes, column[..i], B);
    var v := column[i];
    GreedyStep(codes, column, i, B);
    if bitsetLength + CodeLen(codes[v]) > B {
      FlushStep(codes, B, q, v, attributeVector, bitsetLength, currentBitset);
      assert SeqMin([v]) == v && SeqMax([v]) == v;
    } else {
      FitStep(codes, B, q, v, attributeVector, bitsetLength, currentBitset);
      if i > 0 {
        BoundsStep(q.open, v);
      } else {
        assert q.open + [v] == [v];
        assert SeqMin([v]) == v && SeqMax([v]) == v;
      }
    }
  }

  /** The loop of `compress`: each code is shifted past the bits already in the
      current block and or-ed in, after pushing the block when the code does
      not fit; `bounds` follows the smallest and largest value of the current
      block. The results are the pushed blocks, the current block, its bounds
      and whether the last cell started a fresh block. */
  method PackCells(column: seq<int>, codes: map<int, seq<bool>>, B: nat)
    returns (attributeVector: seq<seq<bool>>, currentBitset: seq<bool>, bounds: (int, int), pushed: bool)
    requires forall i :: 0 <= i < |column| ==> column[i] in codes
    requires forall v :: v in codes ==> |codes[v]| == B
    ensures var p := Greedy(codes, column, B);
      && attributeVector == Blocks(codes, p.closed, B)
      && currentBitset == Pad(GroupBits(codes, p.open), B)
      && pushed == p.pushed
      && (column != [] ==> bounds == (SeqMin(p.open), SeqMax(p.open)))
  {
    attributeVector := [];
    var bitsetLength := 0;
    currentBitset := Zeros(B);
    bounds := (0, 0);
    pushed := false;
    var firstRun := true;
    assert Pad([], B) == Zeros(B);
    for i := 0 to |column|
      invariant PackState(codes, column, i, B, attributeVector, bitsetLength, currentBitset, bounds, pushed)
      invariant firstRun == (i == 0)
    {
      ghost var av0, len0, cur0, bounds0, pushed0 := attributeVector, bitsetLength, currentBitset, bounds, pushed;
      pushed := false;
      var v := column[i];
      var code := codes[v];
      var codeLength := GetCodeLength(code);
      if bitsetLength + codeLength > B {
        bitsetLength := 0;
        attributeVector := attributeVector + [currentBitset];
        currentBitset := Zeros(B);
        pushed := true;
        firstRun := true;
      }
      code := ShiftRight(code, bitsetLength);
      currentBitset := Or(currentBitset, code);
      bitsetLength := bitsetLength + codeLength;
      if firstRun {
        bounds := (v, v);
      } else {
        bounds := (if v < bounds.0 then v else bounds.0, if bounds.1 < v then v else bounds.1);
      }
      firstRun := false;
      PackStep(codes, column, i, B, av0, len0, cur0, bounds0, pushed0,
               attributeVector, bitsetLength, currentBitset, bounds, pushed);
    }
    assert column[..|column|] == column;
  }

  // ----- decoding blocks -----

  /** The scan `decompress` makes of one block, from index i on: `set(top - i)`
      adds the next position to the mask (and throws once that position is
      outside the set), the masked bits moved up by `shift` are the window;
      an empty window in a non-empty block is skipped, and a window that is a
      code emits its value and restarts the mask after it. */
  function Scan(rev: map<seq<bool>, int>, bits: seq<bool>, top: nat, i: nat, mask: seq<bool>, shift: nat, out: seq<int>): (r: Result<seq<int>>)
    requires |mask| == |bits| && i <= |bits|
    ensures r.Ok? ==> IsPrefix(out, r.value)
    ensures r.Ok? ==> forall k :: |out| <= k < |r.value| ==> r.value[k] in rev.Values
    decreases |bits| - i
  {
    if i == |bits| then Ok(out)
    else if i > top || top - i >= |bits| then Err(OutOfRange)
    else
      var m := mask[|bits| - 1 - (top - i) := true];
      var search := ShiftLeft(And(bits, m), shift);
      if IsNone(search) && !IsNone(bits) then Scan(rev, bits, top, i + 1, m, shift, out)
      else if search in rev then Scan(rev, bits, top, i + 1, Zeros(|bits|), i + 1, out + [rev[search]])
      else Scan(rev, bits, top, i + 1, m, shift, out)
  }

  /** The inner loop of `decompress`, over one block. */
  method DecodeBlock(rev: map<seq<bool>, int>, bits: seq<bool>, top: nat) returns (r: Result<seq<int>>)
    ensures r == Scan(rev, bits, top, 0, Zeros(|bits|), 0, [])
  {
    var mask := Zeros(|bits|);
    var shift := 0;
    var out := [];
    var i := 0;
    while i < |bits|
      invariant i <= |bits| && |mask| == |bits|
      invariant Scan(rev, bits, top, 0, Zeros(|bits|), 0, []) == Scan(rev, bits, top, i, mask, shift, out)
    {
      if i > top || top - i >= |bits| {
        return Err(OutOfRange);
      }
      mask := mask[|bits| - 1 - (top - i) := true];
      var search := ShiftLeft(And(bits, mask), shift);
      if IsNone(search) && !IsNone(bits) {
        i := i + 1;
        continue;
      }
      if search in rev {
        shift := i + 1;
        mask := Zeros(|bits|);
        out := out + [rev[search]];
      }
      i := i + 1;
    }
    return Ok(out);
  }

  /** The values `decompress` emits for a sequence of blocks; an exception in
      any block ends decompression. */
  function DecodeAll(rev: map<seq<bool>, int>, blocks: seq<seq<bool>>, top: nat): (r: Result<seq<int>>)
    ensures r.Ok? ==> forall k :: 0 <= k < |r.value| ==> r.value[k] in rev.Values
    decreases |blocks|
  {
    if blocks == [] then Ok([])
    else
      var first := Scan(rev, blocks[0], top, 0, Zeros(|blocks[0]|), 0, []);
      if first.Err? then first
      else
        var rest := DecodeAll(rev, blocks[1..], top);
        if rest.Err? then rest else Ok(first.value + rest.value)
  }

  /** Values already emitted, followed by the outcome of the remaining blocks. */
  function Then(out: seq<int>, res: Result<seq<int>>): Result<seq<int>> {
    if res.Err? then res else Ok(out + res.value)
  }

  /** The reverse dictionary of an injective table: every code mapped back to
      the value that has it. */
  ghost function ReverseOf(m: map<int, seq<bool>>): (rev: map<seq<bool>, int>)
    ensures forall c :: c in rev <==> c in m.Values
    ensures forall c :: c in rev ==> rev[c] in m && m[rev[c]] == c
  {
    map c | c in m.Values :: KeyOf(m, c)
  }

  /** Decoding from block k on: block k, then the blocks after it. */
  lemma DecodeAllStep(rev: map<seq<bool>, int>, blocks: seq<seq<bool>>, k: nat, top: nat, out: seq<int>)
    requires k < |blocks|
    ensures var first := Scan(rev, blocks[k], top, 0, Zeros(|blocks[k]|), 0, []);
      Then(out, DecodeAll(rev, blocks[k..], top))
        == if first.Err? then first else Then(out + first.value, DecodeAll(rev, blocks[k + 1..], top))
  {
    assert blocks[k..][0] == blocks[k] && blocks[k..][1..] == blocks[k + 1..];
    var first := Scan(rev, blocks[k], top, 0, Zeros(|blocks[k]|), 0, []);
    var rest := DecodeAll(rev, blocks[k + 1..], top);
    if first.Ok? && rest.Ok? {
      assert out + (first.value + rest.value) == (out + first.value) + rest.value;
    }
  }

  lemma ThenNothing(res: Result<seq<int>>)
    ensures Then([], res) == res
  {
    if res.Ok? {
      assert [] + res.value == res.value;
    }
  }

  /** Any reverse of an injective table is `ReverseOf` it. */
  lemma ReverseUnique(rev: map<seq<bool>, int>, m: map<int, seq<bool>>)
    requires Injective(m) && IsReverse(rev, m)
    requires forall c :: c in rev <==> c in m.Values
    ensures rev == ReverseOf(m)
  {
    var r := ReverseOf(m);
    assert rev.Keys == r.Keys;
    forall c | c in rev ensures rev[c] == r[c] {
      assert m[rev[c]] == c == m[r[c]];
    }
  }

  /** `decompress` with the mask's top position as a parameter: the reverse
      dictionary, then every block scanned in order. */
  method DecompressMasked(dictionary: map<int, seq<bool>>, blocks: seq<seq<bool>>, top: nat) returns (r: Result<seq<int>>)
    ensures Injective(dictionary) ==> r == DecodeAll(ReverseOf(dictionary), blocks, top)
  {
    var reverse := Invert(dictionary);
    if Injective(dictionary) {
      ReverseUnique(reverse, dictionary);
    }
    var decompressed := [];
    assert blocks[0..] == blocks;
    ThenNothing(DecodeAll(reverse, blocks, top));
    for k := 0 to |blocks|
      invariant DecodeAll(reverse, blocks, top) == Then(decompressed, DecodeAll(reverse, blocks[k..], top))
    {
      DecodeAllStep(reverse, blocks, k, top, decompressed);
      var part := DecodeBlock(reverse, blocks[k], top);
      if part.Err? {
        return Err(part.error);
      }
      decompressed := decompressed + part.value;
    }
    assert blocks[|blocks|..] == [];
    assert decompressed + [] == decompressed;
    r := Ok(decompressed);
  }

  /** `decompress` as written: the mask starts at position 63 whatever B is. */
  method Decompress(dictionary: map<int, seq<bool>>, blocks: seq<seq<bool>>) returns (r: Result<seq<int>>)
    ensures Injective(dictionary) ==> r == DecodeAll(ReverseOf(dictionary), blocks, 63)
  {
    r := DecompressMasked(dictionary, blocks, 63);
  }

  /** `decompress` with the mask starting at the top position B - 1, as the
      comment beside it intends. */
  method DecompressFixed(dictionary: map<int, seq<bool>>, blocks: seq<seq<bool>>, B: nat) returns (r: Result<seq<int>>)
    requires B > 0
    ensures Injective(dictionary) ==> r == DecodeAll(ReverseOf(dictionary), blocks, B - 1)
  {
    r := DecompressMasked(dictionary, blocks, B - 1);
  }

  // ----- decoding is correct for the top position B - 1 -----

  /** One position of the scan with the mask starting at B - 1: the mask is
      the window from `shift` up to i, and the search value is the block's
      bits in that window placed at the top of a set. */
  lemma ScanStep(rev: map<seq<bool>, int>, bits: seq<bool>, i: nat, shift: nat, out: seq<int>)
    requires shift <= i < |bits|
    ensures var n := |bits|;
      var search := Pad(bits[shift..i + 1], n);
      Scan(rev, bits, n - 1, i, Window(shift, i, n), shift, out)
        == if IsNone(search) && !IsNone(bits) then Scan(rev, bits, n - 1, i + 1, Window(shift, i + 1, n), shift, out)
           else if search in rev then Scan(rev, bits, n - 1, i + 1, Window(i + 1, i + 1, n), i + 1, out + [rev[search]])
           else Scan(rev, bits, n - 1, i + 1, Window(shift, i + 1, n), shift, out)
  {
    var n := |bits|;
    assert n - 1 - (n - 1 - i) == i;
    WindowGrow(shift, i, n);
    WindowSearch(bits, shift, i + 1);
    ZerosWindow(i + 1, n);
  }

  lemma {:induction false} GroupBitsPrefix(codes: map<int, seq<bool>>, g: seq<int>, j: nat)
    requires j <= |g|
    ensures IsPrefix(GroupBits(codes, g[..j]), GroupBits(codes, g))
    decreases |g|
  {
    if j == |g| {
      assert g[..j] == g;
    } else {
      var init := g[..|g| - 1];
      GroupBitsPrefix(codes, init, j);
      assert init[..j] == g[..j];
      var a := GroupBits(codes, g[..j]);
      assert GroupBits(codes, g) == GroupBits(codes, init) + WordOf(codes, g[|g| - 1]);
      assert GroupBits(codes, g)[..|a|] == GroupBits(codes, init)[..|a|];
    }
  }

  /** Where the word of cell j sits in the contents of its block. */
  lemma WordAt(codes: map<int, seq<bool>>, g: seq<int>, j: nat)
    requires j < |g|
    ensures |GroupBits(codes, g[..j])| + |WordOf(codes, g[j])| == |GroupBits(codes, g[..j + 1])| <= |GroupBits(codes, g)|
    ensures GroupBits(codes, g)[|GroupBits(codes, g[..j])|..|GroupBits(codes, g[..j + 1])|] == WordOf(codes, g[j])
  {
    assert g[..j + 1] == g[..j] + [g[j]];
    GroupBitsAppend(codes, g[..j], g[j]);
    GroupBitsPrefix(codes, g, j + 1);
    var b := GroupBits(codes, g[..j + 1]);
    assert GroupBits(codes, g)[..|b|] == b;
    var a := |GroupBits(codes, g[..j])|;
    assert GroupBits(codes, g)[a..|b|] == b[a..];
  }

  /** A window that is a prefix of a code's word matches the code of a value
      only when it is that whole word, and then matches this very value. */
  lemma MatchIsWhole(codes: map<int, seq<bool>>, B: nat, u: int, v: int, x: seq<bool>)
    requires Decodable(codes, B) && u in codes && v in codes
    requires |x| <= |Word(codes[v])| && x == Word(codes[v])[..|x|]
    requires codes[u] == Pad(x, B)
    ensures u == v && |x| == |Word(codes[v])|
  {
    var c := codes[u];
    var n := CodeLen(c);
    assert n <= |x|;
    assert c[..|x|] == x;
    assert Word(c) == x[..n];
    assert Word(c) == Word(codes[v])[..n];
  }

  /** What the scan finds in a window holding the start of a cell's word. */
  lemma WindowVerdict(codes: map<int, seq<bool>>, rev: map<seq<bool>, int>, B: nat, v: int, x: seq<bool>)
    requires Decodable(codes, B) && rev == ReverseOf(codes) && v in codes
    requires |x| <= |Word(codes[v])| && x == Word(codes[v])[..|x|]
    ensures |x| < |Word(codes[v])| ==> Pad(x, B) !in rev
    ensures |x| == |Word(codes[v])| ==> Pad(x, B) in rev && rev[Pad(x, B)] == v && !IsNone(Pad(x, B))
  {
    var w := Word(codes[v]);
    if |x| == |w| {
      assert x == w;
      PadWord(codes[v]);
      assert codes[v] in codes.Values;
      assert codes[v][CodeLen(codes[v]) - 1];
    } else if Pad(x, B) in rev {
      MatchIsWhole(codes, B, rev[Pad(x, B)], v, x);
    }
  }

  /** An empty window is no code. */
  lemma NoneNotCode(codes: map<int, seq<bool>>, rev: map<seq<bool>, int>, B: nat, c: seq<bool>)
    requires Decodable(codes, B) && rev == ReverseOf(codes) && IsNone(c)
    ensures c !in rev
  {
    forall u | u in codes ensures !IsNone(codes[u]) {
      assert codes[u][CodeLen(codes[u]) - 1];
    }
  }

  /** The conditions under which the scan of a block holding the cells of
      `g` is at index i, having emitted cells before j, with the window for
      cell j starting at `shift`. */
  ghost predicate ScanState(codes: map<int, seq<bool>>, rev: map<seq<bool>, int>, g: seq<int>, B: nat,
                            i: nat, shift: nat, j: nat) {
    && B > 0 && Decodable(codes, B) && rev == ReverseOf(codes)
    && (forall m :: 0 <= m < |g| ==> g[m] in codes)
    && |GroupBits(codes, g)| <= B
    && j <= |g| && shift == |GroupBits(codes, g[..j])| && shift <= i <= B
    && (j < |g| ==> i - shift < |WordOf(codes, g[j])|)
  }

  /** A slice of a sequence's prefix, read inside that prefix. */
  lemma SliceInside(bits: seq<bool>, G: seq<bool>, w: seq<bool>, a: nat, b: nat, c: nat)
    requires |G| <= |bits| && bits[..|G|] == G
    requires a <= b <= c <= |G| && G[a..c] == w
    ensures bits[a..b] == w[..b - a]
  {
    forall k | 0 <= k < b - a ensures bits[a..b][k] == w[k] {
      assert bits[a + k] == G[a + k] == G[a..c][k];
    }
  }

  /** The window of a scan inside the word of cell j holds the start of that
      word. */
  lemma WindowInWord(codes: map<int, seq<bool>>, g: seq<int>, B: nat, i: nat, shift: nat, j: nat)
    requires j < |g| && g[j] in codes && |GroupBits(codes, g)| <= B
    requires shift == |GroupBits(codes, g[..j])| && shift <= i && i - shift < |WordOf(codes, g[j])|
    ensures i + 1 - shift <= |WordOf(codes, g[j])|
    ensures i + 1 <= B && Pad(GroupBits(codes, g), B)[shift..i + 1] == Word(codes[g[j]])[..i + 1 - shift]
    ensures i + 1 - shift == |WordOf(codes, g[j])| ==> i + 1 == |GroupBits(codes, g[..j + 1])|
  {
    var G := GroupBits(codes, g);
    WordAt(codes, g, j);
    SliceInside(Pad(G, B), G, WordOf(codes, g[j]), shift, i + 1, |GroupBits(codes, g[..j + 1])|);
  }

  /** A window short of the word of cell j is no code: the scan moves on. */
  lemma ShortStep(codes: map<int, seq<bool>>, rev: map<seq<bool>, int>, g: seq<int>, B: nat,
                  i: nat, shift: nat, j: nat, out: seq<int>)
    requires ScanState(codes, rev, g, B, i, shift, j) && i < B && j < |g|
    requires i + 1 - shift < |WordOf(codes, g[j])|
    ensures ScanState(codes, rev, g, B, i + 1, shift, j)
    ensures var bits := Pad(GroupBits(codes, g), B);
      Scan(rev, bits, B - 1, i, Window(shift, i, B), shift, out)
        == Scan(rev, bits, B - 1, i + 1, Window(shift, i + 1, B), shift, out)
  {
    var bits := Pad(GroupBits(codes, g), B);
    assert |bits| == B;
    WindowInWord(codes, g, B, i, shift, j);
    WindowVerdict(codes, rev, B, g[j], bits[shift..i + 1]);
    assert Pad(bits[shift..i + 1], B) !in rev;
    ScanStep(rev, bits, i, shift, out);
  }

  /** A window holding the whole word of cell j emits the cell, and the next
      window starts after it. */
  lemma WholeStep(codes: map<int, seq<bool>>, rev: map<seq<bool>, int>, g: seq<int>, B: nat,
                  i: nat, shift: nat, j: nat, out: seq<int>)
    requires ScanState(codes, rev, g, B, i, shift, j) && i < B && j < |g|
    requires i + 1 - shift >= |WordOf(codes, g[j])|
    ensures ScanState(codes, rev, g, B, i + 1, i + 1, j + 1)
    ensures var bits := Pad(GroupBits(codes, g), B);
      Scan(rev, bits, B - 1, i, Window(shift, i, B), shift, out)
        == Scan(rev, bits, B - 1, i + 1, Window(i + 1, i + 1, B), i + 1, out + [g[j]])
  {
    var bits := Pad(GroupBits(codes, g), B);
    WindowInWord(codes, g, B, i, shift, j);
    ScanStep(rev, bits, i, shift, out);
    WindowVerdict(codes, rev, B, g[j], bits[shift..i + 1]);
    NextWord(codes, rev, g, B, i, shift, j);
  }

  /** After emitting cell j the scan is at the start of cell j + 1. */
  lemma NextWord(codes: map<int, seq<bool>>, rev: map<seq<bool>, int>, g: seq<int>, B: nat,
                 i: nat, shift: nat, j: nat)
    requires ScanState(codes, rev, g, B, i, shift, j) && i < B && j < |g|
    requires i + 1 == |GroupBits(codes, g[..j + 1])|
    ensures ScanState(codes, rev, g, B, i + 1, i + 1, j + 1)
  {
    assert Decodable(codes, B);
    if j + 1 < |g| {
      var v := g[j + 1];
      assert v in codes;
      assert CodeLen(codes[v]) > 0;
      assert |WordOf(codes, v)| > 0;
    }
  }

  /** After the last word of the block, every window is empty and moves on. */
  lemma PastWordsStep(codes: map<int, seq<bool>>, rev: map<seq<bool>, int>, g: seq<int>, B: nat,
                      i: nat, shift: nat, out: seq<int>)
    requires ScanState(codes, rev, g, B, i, shift, |g|) && i < B
    ensures ScanState(codes, rev, g, B, i + 1, shift, |g|)
    ensures var bits := Pad(GroupBits(codes, g), B);
      Scan(rev, bits, B - 1, i, Window(shift, i, B), shift, out)
        == Scan(rev, bits, B - 1, i + 1, Window(shift, i + 1, B), shift, out)
  {
    var bits := Pad(GroupBits(codes, g), B);
    assert |bits| == B;
    assert g[..|g|] == g;
    var x := bits[shift..i + 1];
    assert IsNone(Pad(x, B));
    NoneNotCode(codes, rev, B, Pad(x, B));
    ScanStep(rev, bits, i, shift, out);
  }

  /** At the end of the block every cell has been emitted. */
  lemma AllEmitted(codes: map<int, seq<bool>>, rev: map<seq<bool>, int>, g: seq<int>, B: nat, shift: nat, j: nat)
    requires ScanState(codes, rev, g, B, B, shift, j)
    ensures j == |g|
  {
    if j < |g| {
      WordAt(codes, g, j);
    }
  }

  /** From such a state the scan emits the remaining cells. */
  lemma {:induction false} ScanGroup(codes: map<int, seq<bool>>, rev: map<seq<bool>, int>, g: seq<int>, B: nat,
                                     i: nat, shift: nat, j: nat, out: seq<int>)
    requires ScanState(codes, rev, g, B, i, shift, j)
    ensures Scan(rev, Pad(GroupBits(codes, g), B), B - 1, i, Window(shift, i, B), shift, out) == Ok(out + g[j..])
    decreases B - i, 1
  {
    if i == B {
      AllEmitted(codes, rev, g, B, shift, j);
      assert out + g[j..] == out;
    } else if j == |g| {
      ScanPast(codes, rev, g, B, i, shift, out);
    } else if i + 1 - shift < |WordOf(codes, g[j])| {
      ScanShort(codes, rev, g, B, i, shift, j, out);
    } else {
      ScanWhole(codes, rev, g, B, i, shift, j, out);
    }
  }

  lemma {:induction false} ScanPast(codes: map<int, seq<bool>>, rev: map<seq<bool>, int>, g: seq<int>, B: nat,
                                    i: nat, shift: nat, out: seq<int>)
    requires ScanState(codes, rev, g, B, i, shift, |g|) && i < B
    ensures Scan(rev, Pad(GroupBits(codes, g), B), B - 1, i, Window(shift, i, B), shift, out) == Ok(out + g[|g|..])
    decreases B - i, 0
  {
    PastWordsStep(codes, rev, g, B, i, shift, out);
    ScanGroup(codes, rev, g, B, i + 1, shift, |g|, out);
  }

  lemma {:induction false} ScanShort(codes: map<int, seq<bool>>, rev: map<seq<bool>, int>, g: seq<int>, B: nat,
                                     i: nat, shift: nat, j: nat, out: seq<int>)
    requires ScanState(codes, rev, g, B, i, shift, j) && i < B && j < |g|
    requires i + 1 - shift < |WordOf(codes, g[j])|
    ensures Scan(rev, Pad(GroupBits(codes, g), B), B - 1, i, Window(shift, i, B), shift, out) == Ok(out + g[j..])
    decreases B - i, 0
  {
    ShortStep(codes, rev, g, B, i, shift, j, out);
    ScanGroup(codes, rev, g, B, i + 1, shift, j, out);
  }

  lemma {:induction false} ScanWhole(codes: map<int, seq<bool>>, rev: map<seq<bool>, int>, g: seq<int>, B: nat,
                                     i: nat, shift: nat, j: nat, out: seq<int>)
    requires ScanState(codes, rev, g, B, i, shift, j) && i < B && j < |g|
    requires i + 1 - shift >= |WordOf(codes, g[j])|
    ensures Scan(rev, Pad(GroupBits(codes, g), B), B - 1, i, Window(shift, i, B), shift, out) == Ok(out + g[j..])
    decreases B - i, 0
  {
    WholeStep(codes, rev, g, B, i, shift, j, out);
    ScanGroup(codes, rev, g, B, i + 1, i + 1, j + 1, out + [g[j]]);
    EmitOne(out, g, j);
  }

  lemma EmitOne(out: seq<int>, g: seq<int>, j: nat)
    requires j < |g|
    ensures out + [g[j]] + g[j + 1..] == out + g[j..]
  {
    assert g[j..] == [g[j]] + g[j + 1..];
  }

  /** A block packed with the cells of `g` decodes to exactly those cells. */
  lemma DecodeGroup(codes: map<int, seq<bool>>, rev: map<seq<bool>, int>, g: seq<int>, B: nat)
    requires B > 0 && Decodable(codes, B) && rev == ReverseOf(codes)
    requires forall m :: 0 <= m < |g| ==> g[m] in codes
    requires |GroupBits(codes, g)| <= B
    ensures Scan(rev, Pad(GroupBits(codes, g), B), B - 1, 0, Zeros(B), 0, []) == Ok(g)
  {
    ZerosWindow(0, B);
    assert g[..0] == [] && g[0..] == g && [] + g == g;
    ScanGroup(codes, rev, g, B, 0, 0, 0, []);
  }

  /** Blocks packed with groups of cells decode to the cells of all groups. */
  lemma {:induction false} DecodeGroups(codes: map<int, seq<bool>>, rev: map<seq<bool>, int>, groups: seq<seq<int>>, B: nat)
    requires B > 0 && Decodable(codes, B) && rev == ReverseOf(codes)
    requires forall k, m :: 0 <= k < |groups| && 0 <= m < |groups[k]| ==> groups[k][m] in codes
    requires forall k :: 0 <= k < |groups| ==> |GroupBits(codes, groups[k])| <= B
    ensures DecodeAll(rev, Blocks(codes, groups, B), B - 1) == Ok(Join(groups))
    decreases |groups|
  {
    if groups != [] {
      var blocks := Blocks(codes, groups, B);
      assert blocks[1..] == Blocks(codes, groups[1..], B);
      DecodeGroup(codes, rev, groups[0], B);
      DecodeGroups(codes, rev, groups[1..], B);
    }
  }

  /** Every cell of groups that join up to cells of a table is in the table. */
  lemma GroupsIn(codes: map<int, seq<bool>>, column: seq<int>, groups: seq<seq<int>>)
    requires Join(groups) == column
    requires forall k :: 0 <= k < |column| ==> column[k] in codes
    ensures forall k, m :: 0 <= k < |groups| && 0 <= m < |groups[k]| ==> groups[k][m] in codes
  {
    forall k, m | 0 <= k < |groups| && 0 <= m < |groups[k]| ensures groups[k][m] in codes {
      JoinHolds(groups, k, m);
    }
  }

  /** Decoding the packed blocks of a column with a decodable table: all
      blocks give the column back; the blocks compression returns lose the last
      cell exactly when that cell started a fresh block. */
  lemma PackedRoundTrip(codes: map<int, seq<bool>>, column: seq<int>, B: nat)
    requires B > 0 && Decodable(codes, B)
    requires forall k :: 0 <= k < |column| ==> column[k] in codes
    ensures var p := Greedy(codes, column, B);
      && DecodeAll(ReverseOf(codes), Blocks(codes, Completed(p), B), B - 1) == Ok(column)
      && DecodeAll(ReverseOf(codes), Blocks(codes, AsWritten(p), B), B - 1)
           == Ok(if p.pushed then column[..|column| - 1] else column)
  {
    CompletedDecodes(codes, column, B);
    AsWrittenDecodes(codes, column, B);
  }

  /** Every code of a decodable table fits a block. */
  lemma WordsFit(codes: map<int, seq<bool>>, column: seq<int>, B: nat)
    requires Decodable(codes, B)
    requires forall k :: 0 <= k < |column| ==> column[k] in codes
    ensures forall k :: 0 <= k < |column| ==> |WordOf(codes, column[k])| <= B
  {
    forall k | 0 <= k < |column| ensures |WordOf(codes, column[k])| <= B {
      assert column[k] in codes;
    }
  }

  /** The greedy packing with its last block pushed decodes to the column. */
  lemma CompletedDecodes(codes: map<int, seq<bool>>, column: seq<int>, B: nat)
    requires B > 0 && Decodable(codes, B)
    requires forall k :: 0 <= k < |column| ==> column[k] in codes
    ensures DecodeAll(ReverseOf(codes), Blocks(codes, Completed(Greedy(codes, column, B)), B), B - 1) == Ok(column)
  {
    var p := Greedy(codes, column, B);
    WordsFit(codes, column, B);
    GreedyShape(codes, column, B);
    GroupsIn(codes, column, Completed(p));
    DecodeGroups(codes, ReverseOf(codes), Completed(p), B);
  }

  /** The blocks as `compress` returns them decode to the column, less its last
      cell when that cell started a fresh block. */
  lemma AsWrittenDecodes(codes: map<int, seq<bool>>, column: seq<int>, B: nat)
    requires B > 0 && Decodable(codes, B)
    requires forall k :: 0 <= k < |column| ==> column[k] in codes
    ensures var p := Greedy(codes, column, B);
      DecodeAll(ReverseOf(codes), Blocks(codes, AsWritten(p), B), B - 1)
        == Ok(if p.pushed then column[..|column| - 1] else column)
  {
    var p := Greedy(codes, column, B);
    var groups := AsWritten(p);
    WordsFit(codes, column, B);
    GreedyShape(codes, column, B);
    AsWrittenCells(codes, column, B);
    var cells := Join(groups);
    if p.pushed {
      PrefixIn(codes, column, |column| - 1);
    }
    GroupsIn(codes, cells, groups);
    AsWrittenFits(codes, p, B);
    DecodeGroups(codes, ReverseOf(codes), groups, B);
  }

  /** The cells of a prefix of the column are cells of the column. */
  lemma PrefixIn(codes: map<int, seq<bool>>, column: seq<int>, n: nat)
    requires n <= |column|
    requires forall k :: 0 <= k < |column| ==> column[k] in codes
    ensures forall k :: 0 <= k < n ==> column[..n][k] in codes
  {
  }

  /** The blocks `compress` returns are blocks of the packing, so they fit. */
  lemma AsWrittenFits(codes: map<int, seq<bool>>, p: Packing, B: nat)
    requires forall k :: 0 <= k < |p.closed| ==> |GroupBits(codes, p.closed[k])| <= B
    requires |GroupBits(codes, p.open)| <= B
    ensures forall k :: 0 <= k < |AsWritten(p)| ==> |GroupBits(codes, AsWritten(p)[k])| <= B
  {
    if !p.pushed {
      assert forall k :: 0 <= k < |AsWritten(p)| ==> AsWritten(p)[k] == if k < |p.closed| then p.closed[k] else p.open;
    }
  }

  // ----- the mask's top position fixed at 63 -----

  /** When the mask's top position is not the last index of a block, the scan
      of a non-empty block throws: either the first `set` is out of range, or
      the position count runs past 0 before the block ends. */
  lemma {:induction false} ScanWrongTop(rev: map<seq<bool>, int>, bits: seq<bool>, top: nat, i: nat,
                                        mask: seq<bool>, shift: nat, out: seq<int>)
    requires |mask| == |bits| && i < |bits| && top + 1 != |bits|
    requires top + 1 < |bits| ==> i <= top + 1
    requires top + 1 > |bits| ==> i == 0
    ensures Scan(rev, bits, top, i, mask, shift, out).Err?
    decreases |bits| - i
  {
    if i <= top && top - i < |bits| {
      var m := mask[|bits| - 1 - (top - i) := true];
      var search := ShiftLeft(And(bits, m), shift);
      if search in rev {
        ScanWrongTop(rev, bits, top, i + 1, Zeros(|bits|), i + 1, out + [rev[search]]);
      }
      ScanWrongTop(rev, bits, top, i + 1, m, shift, out);
    }
  }

  /** `decompress` throws on blocks of any width but 64 bits. */
  lemma MaskOutOfRange(rev: map<seq<bool>, int>, blocks: seq<seq<bool>>)
    requires blocks != [] && |blocks[0]| > 0 && |blocks[0]| != 64
    ensures DecodeAll(rev, blocks, 63).Err?
  {
    ScanWrongTop(rev, blocks[0], 63, 0, Zeros(|blocks[0]|), 0, []);
  }

  // ----- compression -----

  /** `compress`'s result together with the bounds vector it builds: the code
      table, the blocks, and the bounds of the current block when it is
      pushed at the end. */
  datatype Packed = Packed(dictionary: map<int, seq<bool>>, attributeVector: seq<seq<bool>>, boundsAttributeVector: seq<(int, int)>)

  /** The code table of a column's tree, or the exception when a code does not
      fit B bits. */
  method ColumnCodes(column: seq<int>, B: nat) returns (codes: Result<map<int, seq<bool>>>, tree: Node<int>)
    requires |column| > 0
    ensures WellFormed(tree) && LeftLighter(tree) && Distinct(tree)
    ensures Weight(tree) == multiset(column) && Leaves(tree) == multiset(SetOf(column))
    ensures codes == PaddedPaths(tree, [], B)
    ensures codes.Ok? ==> forall k :: 0 <= k < |column| ==> column[k] in codes.value
  {
    tree := ColumnTree(column);
    var prefix := Zeros(B);
    assert Pad([], B) == prefix;
    BitCodesArePaddedPaths(tree, [], B);
    codes := BuildBitCodes(tree, prefix, 0, B);
    forall k | 0 <= k < |column| ensures column[k] in BuildCodes(tree, []) {
      assert column[k] in SetOf(column);
    }
  }

  /** Pushing the current block appends its bits to the pushed blocks. */
  lemma LastBlock(codes: map<int, seq<bool>>, p: Packing, B: nat)
    ensures Blocks(codes, Completed(p), B) == Blocks(codes, p.closed, B) + [Pad(GroupBits(codes, p.open), B)]
  {
  }

  /** `compress` for a B-bit set: the tree, the sentinel codes, then the
      greedy packing of the column; the last block and its bounds are kept
      only when the last cell did not start a fresh block. */
  method Compress(column: seq<int>, B: nat) returns (r: Result<Packed>, tree: Node<int>)
    requires |column| > 0
    ensures WellFormed(tree) && LeftLighter(tree) && Distinct(tree)
    ensures Weight(tree) == multiset(column) && Leaves(tree) == multiset(SetOf(column))
    ensures r.Err? <==> B <= Height(tree)
    ensures r.Ok? ==>
      var codes := Sentinel(BuildCodes(tree, []), B);
      var p := Greedy(codes, column, B);
      && r.value.dictionary == codes
      && r.value.attributeVector == Blocks(codes, AsWritten(p), B)
      && r.value.boundsAttributeVector == if p.pushed then [] else [(SeqMin(p.open), SeqMax(p.open))]
  {
    var codes;
    codes, tree := ColumnCodes(column, B);
    if codes.Err? {
      r := Err(codes.error);
      return;
    }
    var dictionary := codes.value;
    var attributeVector, currentBitset, bounds, pushed := PackCells(column, dictionary, B);
    ghost var p := Greedy(dictionary, column, B);
    var boundsAttributeVector := [];
    if !pushed {
      boundsAttributeVector := [bounds];
      attributeVector := attributeVector + [currentBitset];
      LastBlock(dictionary, p, B);
    }
    r := Ok(Packed(dictionary, attributeVector, boundsAttributeVector));
  }

  /** `compress` pushing the last block and its bounds unconditionally. */
  method CompressFixed(column: seq<int>, B: nat) returns (r: Result<Packed>, tree: Node<int>)
    requires |column| > 0
    ensures WellFormed(tree) && LeftLighter(tree) && Distinct(tree)
    ensures Weight(tree) == multiset(column) && Leaves(tree) == multiset(SetOf(column))
    ensures r.Err? <==> B <= Height(tree)
    ensures r.Ok? ==>
      var codes := Sentinel(BuildCodes(tree, []), B);
      var p := Greedy(codes, column, B);
      && r.value.dictionary == codes
      && r.value.attributeVector == Blocks(codes, Completed(p), B)
      && r.value.boundsAttributeVector == [(SeqMin(p.open), SeqMax(p.open))]
  {
    var codes;
    codes, tree := ColumnCodes(column, B);
    if codes.Err? {
      r := Err(codes.error);
      return;
    }
    var dictionary := codes.value;
    var attributeVector, currentBitset, bounds, pushed := PackCells(column, dictionary, B);
    ghost var p := Greedy(dictionary, column, B);
    LastBlock(dictionary, p, B);
    r := Ok(Packed(dictionary, attributeVector + [currentBitset], [bounds]));
  }

  /** A tree is lower than it has leaves. */
  lemma HeightBelowValues(tree: Node<int>, column: seq<int>)
    requires Leaves(tree) == multiset(SetOf(column))
    ensures Height(tree) < |SetOf(column)|
  {
    HeightBelowLeaves(tree);
    LeafCount(tree);
  }

  /** The benchmark's check with B = 64: decompressing what `compress`
      returns gives the column back, except that the last cell is lost when it
      started a fresh block. */
  method RoundTripAsWritten(column: seq<int>) returns (r: Result<seq<int>>, tree: Node<int>)
    requires |column| > 0
    ensures Distinct(tree) && Leaves(tree) == multiset(SetOf(column))
    ensures r.Err? <==> 64 <= Height(tree)
    ensures r.Ok? ==>
      r.value == if Greedy(Sentinel(BuildCodes(tree, []), 64), column, 64).pushed then column[..|column| - 1] else column
  {
    var c;
    c, tree := Compress(column, 64);
    if c.Err? {
      r := Err(c.error);
      return;
    }
    SentinelCodesDecodable(tree, 64);
    PackedRoundTrip(c.value.dictionary, column, 64);
    r := Decompress(c.value.dictionary, c.value.attributeVector);
  }

  /** With the last block always pushed and the mask starting at B - 1,
      decompression returns every column whose codes fit, in particular every
      column with at most B distinct values. */
  method RoundTripFixed(column: seq<int>, B: nat) returns (r: Result<seq<int>>, tree: Node<int>)
    requires |column| > 0
    ensures Distinct(tree) && Leaves(tree) == multiset(SetOf(column))
    ensures r.Err? <==> B <= Height(tree)
    ensures r.Ok? ==> r.value == column
    ensures |SetOf(column)| <= B ==> r == Ok(column)
  {
    var c;
    c, tree := CompressFixed(column, B);
    HeightBelowValues(tree, column);
    if c.Err? {
      r := Err(c.error);
      return;
    }
    SentinelCodesDecodable(tree, B);
    PackedRoundTrip(c.value.dictionary, column, B);
    r := DecompressFixed(c.value.dictionary, c.value.attributeVector, B);
  }

  // ----- the last cell lost -----

  /** A table with one value gives it the one-bit code 1. */
  lemma OneCode(v: int, B: nat)
    requires B > 0
    ensures WordOf(Sentinel(map[v := []], B), v) == [true]
  {
    assert [] + [true] == [true];
    assert Sentinel(map[v := []], B)[v] == Pad([true], B);
    WordOfPad([true], B);
  }

  /** With a one-bit code, at most B copies of a value fill one block. */
  lemma {:induction false} OneValueFills(codes: map<int, seq<bool>>, v: int, B: nat, cells: seq<int>)
    requires |WordOf(codes, v)| == 1 && |cells| <= B
    requires forall k :: 0 <= k < |cells| ==> cells[k] == v
    ensures Greedy(codes, cells, B) == Packing([], cells, false)
    ensures |GroupBits(codes, cells)| == |cells|
    decreases |cells|
  {
    if cells != [] {
      var init := cells[..|cells| - 1];
      OneValueFills(codes, v, B, init);
      FillStep(codes, v, B, init);
      assert init + [v] == cells;
    }
  }

  /** One more copy of a value with a one-bit code joins a block that has room. */
  lemma FillStep(codes: map<int, seq<bool>>, v: int, B: nat, init: seq<int>)
    requires |WordOf(codes, v)| == 1 && |GroupBits(codes, init)| == |init| < B
    requires Greedy(codes, init, B) == Packing([], init, false)
    ensures Greedy(codes, init + [v], B) == Packing([], init + [v], false)
    ensures |GroupBits(codes, init + [v])| == |init| + 1
  {
    assert (init + [v])[..|init|] == init;
    GroupBitsAppend(codes, init, v);
  }

  /** B + 1 copies of one value: the last copy starts a fresh block, which
      `compress` then drops. */
  lemma LastCellLost(v: int, B: nat)
    requires B > 0
    ensures var codes := Sentinel(map[v := []], B);
      var p := Greedy(codes, seq(B + 1, _ => v), B);
      p.pushed && AsWritten(p) == [seq(B, _ => v)]
  {
    OneCode(v, B);
    OneValueOverflows(Sentinel(map[v := []], B), v, B);
  }

  /** With a one-bit code, B + 1 copies of a value overflow one block by one. */
  lemma OneValueOverflows(codes: map<int, seq<bool>>, v: int, B: nat)
    requires |WordOf(codes, v)| == 1
    ensures Greedy(codes, seq(B + 1, _ => v), B) == Packing([seq(B, _ => v)], [v], true)
  {
    var cells := seq(B + 1, _ => v);
    var init := seq(B, _ => v);
    OneValueFills(codes, v, B, init);
    assert cells[..B] == init && cells[B] == v;
    assert Greedy(codes, cells, B) == Place(codes, Packing([], init, false), v, B);
    assert [] + [init] == [init];
  }

  /** The benchmark's `assert(column == decompress(compress(column)))` fails
      for a column of 65 equal values: 64 of them come back. */
  method BenchmarkLosesLastCell(v: int) returns (r: Result<seq<int>>)
    ensures r == Ok(seq(64, _ => v))
  {
    var column := seq(65, _ => v);
    var tree;
    r, tree := RoundTripAsWritten(column);
    assert SetOf(column) == {v} by {
      assert column[0] == v;
    }
    OneLeaf(tree, v);
    LastCellLost(v, 64);
    assert column[..64] == seq(64, _ => v);
  }

  /** A tree whose only leaf value is v is the single leaf holding v. */
  lemma OneLeaf(tree: Node<int>, v: int)
    requires Leaves(tree) == multiset{v}
    ensures tree.Leaf? && tree.data == v
    ensures Height(tree) == 0 && BuildCodes(tree, []) == map[v := []]
  {
  }
}
