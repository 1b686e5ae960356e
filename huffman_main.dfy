/** The Huffman codec of the benchmark program (cpp/main.cpp, namespace
    Huffman): compression builds the tree, reads the code table off it and
    replaces every cell by its code; decompression inverts the table and looks
    every code up. */
module HuffmanMain {
  import opened Common
  import opened HuffmanTree
  import opened HuffmanCodes

  /** `compress`. The tree-building loop pops from an empty heap when the
      column is empty, so the column must have a cell. The tree is returned so
      that the contract can name it. */
  method Compress<D(==,!new)>(column: seq<D>) returns (dictionary: map<D, seq<bool>>, av: seq<seq<bool>>, tree: Node<D>)
    requires |column| > 0
    ensures WellFormed(tree) && LeftLighter(tree) && Distinct(tree)
    ensures Weight(tree) == multiset(column) && Leaves(tree) == multiset(SetOf(column))
    ensures dictionary == BuildCodes(tree, [])
    ensures forall v :: v in dictionary <==> v in column
    ensures Injective(dictionary)
    ensures |av| == |column|
    ensures forall i :: 0 <= i < |column| ==> column[i] in dictionary && av[i] == dictionary[column[i]]
  {
    tree := ColumnTree(column);
    dictionary := BuildCodes(tree, []);
    CodesDecodable(tree);
    assert forall v :: v in dictionary <==> v in column by {
      forall v ensures v in dictionary <==> v in column {
        assert v in Leaves(tree) <==> v in SetOf(column);
      }
    }
    var attributeVector := new seq<bool>[|column|](_ => []);
    for i := 0 to |column|
      invariant forall m :: 0 <= m < i ==> attributeVector[m] == dictionary[column[m]]
    {
      assert column[i] in column;
      attributeVector[i] := dictionary[column[i]];
    }
    av := attributeVector[..];
  }

  /** `decompress`: the reverse dictionary maps every code back to a value
      with that code; a code missing from it yields the default value `zero`
      (std::map's `operator[]` inserts and returns `D()`). */
  method Decompress<D(==,!new)>(dictionary: map<D, seq<bool>>, av: seq<seq<bool>>, zero: D) returns (r: seq<D>)
    ensures |r| == |av|
    ensures forall i :: 0 <= i < |av| && av[i] in dictionary.Values ==> r[i] in dictionary && dictionary[r[i]] == av[i]
    ensures forall i :: 0 <= i < |av| && av[i] !in dictionary.Values ==> r[i] == zero
    ensures Injective(dictionary) ==>
      forall i, v :: 0 <= i < |av| && v in dictionary && dictionary[v] == av[i] ==> r[i] == v
  {
    var reverse := Invert(dictionary);
    var decompressed := new D[|av|](_ => zero);
    for i := 0 to |av|
      invariant forall m :: 0 <= m < i ==> decompressed[m] == if av[m] in reverse then reverse[av[m]] else zero
    {
      decompressed[i] := if av[i] in reverse then reverse[av[i]] else zero;
    }
    r := decompressed[..];
  }

  /** Decompressing what compression produced gives the column back. */
  method RoundTrip<D(==,!new)>(column: seq<D>, zero: D) returns (r: seq<D>)
    requires |column| > 0
    ensures r == column
  {
    var dictionary, av, tree := Compress(column);
    r := Decompress(dictionary, av, zero);
  }
}

/** The templated HuffmanEncoder (cpp/huffman.hpp): the same tree and code
    table, but the compressed column keeps an empty std::set as its dictionary,
    and decompression is unfinished: it returns default values. */
module HuffmanEncoder {
  import opened Common
  import opened HuffmanTree
  import opened HuffmanCodes
  import HuffmanMain

  datatype CompressedColumn<D> = CompressedColumn(dictionary: set<D>, attributeVector: seq<seq<bool>>)

  /** `HuffmanEncoder::compress`: the attribute vector holds the codes of the
      tree's table, and the code table itself is not stored. */
  method Compress<D(==,!new)>(column: seq<D>) returns (c: CompressedColumn<D>, tree: Node<D>)
    requires |column| > 0
    ensures WellFormed(tree) && Distinct(tree) && Weight(tree) == multiset(column)
    ensures c.dictionary == {}
    ensures |c.attributeVector| == |column|
    ensures forall i :: 0 <= i < |column| ==>
      column[i] in BuildCodes(tree, []) && c.attributeVector[i] == BuildCodes(tree, [])[column[i]]
  {
    var table, av;
    table, av, tree := HuffmanMain.Compress(column);
    c := CompressedColumn({}, av);
  }

  /** `HuffmanEncoder::decompress` as written: a vector of default values, one
      per code. */
  method Decompress<D>(c: CompressedColumn<D>, zero: D) returns (r: seq<D>)
    ensures |r| == |c.attributeVector|
    ensures forall k :: 0 <= k < |r| ==> r[k] == zero
  {
    var decompressed := new D[|c.attributeVector|](_ => zero);
    r := decompressed[..];
  }

  /** Compressing and decompressing with this encoder restores a column only
      when every cell already holds the default value. */
  method RoundTripAsWritten<D(==,!new)>(column: seq<D>, zero: D) returns (r: seq<D>)
    requires |column| > 0
    ensures r == column <==> forall k :: 0 <= k < |column| ==> column[k] == zero
  {
    var c, tree := Compress(column);
    r := Decompress(c, zero);
    if forall k :: 0 <= k < |column| ==> column[k] == zero {
      assert r == column;
    }
  }

  /** `HuffmanEncoder::size`, a stub. */
  function Size<D>(c: CompressedColumn<D>): nat {
    0
  }
}
