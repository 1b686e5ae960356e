/** The std::set-based dictionary encoders: the templated DictionaryEncoder
    (cpp/dictionary.hpp) and the string-column Dictionary (cpp/dictionary.cpp).
    Both rank a cell by finding it in the set and measuring the distance from
    the set's beginning; both decompression loops forget to advance their
    output index. */
module DictionaryEncoder {
  import opened Common
  import opened Ordered
  import opened DictionaryCodec

  /** A compressed column: the std::set, held as its ascending iteration
      sequence, and the attribute vector. */
  datatype CompressedColumn = CompressedColumn(dictionary: seq<int>, attributeVector: seq<nat>)

  /** `std::distance(dictionary.begin(), dictionary.find(x))` for a value that
      is in the set: the number of steps from the first element to `x`. */
  method FindDistance(d: seq<int>, x: int) returns (n: nat)
    requires StrictlyAscending(d) && x in d
    ensures n < |d| && d[n] == x
    ensures n == LessCount(d, x)
  {
    ghost var k :| 0 <= k < |d| && d[k] == x;
    n := 0;
    while d[n] != x
      invariant n <= k
      decreases k - n
    {
      n := n + 1;
    }
    LessCountAt(d, n);
  }

  /** `DictionaryEncoder::compress` with an attribute type `w` bits wide: the
      distance is converted to the attribute type, so it wraps modulo 2^w. */
  method Compress(column: seq<int>, w: nat) returns (c: CompressedColumn)
    ensures c.dictionary == Dictionary(column)
    ensures c.attributeVector == Codes(column, w)
    ensures forall i :: 0 <= i < |c.attributeVector| ==> c.attributeVector[i] < |c.dictionary|
  {
    var dictionary := CollectSet(column);
    CellsInDictionary(column);
    var attributeVector := EncodeCells(dictionary, column, w);
    assert attributeVector == Codes(column, w);
    c := CompressedColumn(dictionary, attributeVector);
    CodesInRange(column, w);
  }

  /** The loop of `DictionaryEncoder::compress`: each cell's distance in the
      set, converted to the attribute type. */
  method EncodeCells(dictionary: seq<int>, column: seq<int>, w: nat) returns (av: seq<nat>)
    requires StrictlyAscending(dictionary)
    requires forall i :: 0 <= i < |column| ==> column[i] in dictionary
    ensures |av| == |column|
    ensures forall i :: 0 <= i < |column| ==> av[i] == LessCount(dictionary, column[i]) % Pow2(w)
  {
    var attributeVector := new nat[|column|];
    for i := 0 to |column|
      invariant forall m :: 0 <= m < i ==> attributeVector[m] == LessCount(dictionary, column[m]) % Pow2(w)
    {
      var index := FindDistance(dictionary, column[i]);
      attributeVector[i] := index % Pow2(w);
    }
    av := attributeVector[..];
  }

  /** `DictionaryEncoder::decompress` as written: `i` is never incremented, so
      every iteration writes slot 0, which ends up holding the value of the last
      code; the other slots keep the default value 0. `std::next` may not run
      past the set, so every code must index it. */
  method Decompress(c: CompressedColumn) returns (r: seq<int>)
    requires forall i :: 0 <= i < |c.attributeVector| ==> c.attributeVector[i] < |c.dictionary|
    ensures |r| == |c.attributeVector|
    ensures 0 < |r| ==> r[0] == c.dictionary[c.attributeVector[|r| - 1]]
    ensures forall k :: 1 <= k < |r| ==> r[k] == 0
  {
    var av := c.attributeVector;
    var decompressed := new int[|av|](_ => 0);
    var i := 0;
    for k := 0 to |av|
      invariant 0 < k ==> decompressed[0] == c.dictionary[av[k - 1]]
      invariant forall m :: 1 <= m < |av| ==> decompressed[m] == 0
    {
      decompressed[i] := c.dictionary[av[k]];
    }
    r := decompressed[..];
  }

  /** Decompression with the output index advancing: each code indexes the set. */
  method DecompressFixed(c: CompressedColumn) returns (r: seq<int>)
    requires forall i :: 0 <= i < |c.attributeVector| ==> c.attributeVector[i] < |c.dictionary|
    ensures r == Decode(c.dictionary, c.attributeVector)
  {
    var av := c.attributeVector;
    var decompressed := new int[|av|](_ => 0);
    var i := 0;
    for k := 0 to |av|
      invariant i == k
      invariant forall m :: 0 <= m < k ==> decompressed[m] == c.dictionary[av[m]]
    {
      decompressed[i] := c.dictionary[av[k]];
      i := i + 1;
    }
    r := decompressed[..];
  }

  /** Round trip as written: the last cell's value lands in slot 0 and all
      other slots are 0. */
  method RoundTripAsWritten(column: seq<int>, w: nat) returns (r: seq<int>)
    requires |SetOf(column)| <= Pow2(w)
    ensures |r| == |column|
    ensures 0 < |column| ==> r[0] == column[|column| - 1]
    ensures forall k :: 1 <= k < |r| ==> r[k] == 0
  {
    var c := Compress(column, w);
    RoundTrip(column, w);
    r := Decompress(c);
  }

  /** Round trip with the corrected decompression and a wide enough attribute
      type: the column comes back. */
  method RoundTripFixed(column: seq<int>, w: nat) returns (r: seq<int>)
    requires |SetOf(column)| <= Pow2(w)
    ensures r == column
  {
    var c := Compress(column, w);
    RoundTrip(column, w);
    r := DecompressFixed(c);
  }

  /** `DictionaryEncoder::size`, a stub. */
  function Size(c: CompressedColumn): nat {
    0
  }
}

/** cpp/dictionary.cpp: the same compression for a column of strings with a
    `size_t` attribute vector; its decompression copies the attribute vector
    and assigns an attribute-vector entry, not a dictionary entry, to slot 0
    of a vector of strings. Cell values are represented by integers, which
    carry the order the std::set needs. */
module DictionarySet {
  import opened Common
  import opened Ordered
  import opened DictionaryCodec
  import DictionaryEncoder

  /** `Dictionary::compress`: the ranks are `size_t` distances, always below the
      column length, so they never wrap. */
  method Compress(column: seq<int>) returns (c: DictionaryEncoder.CompressedColumn)
    ensures c.dictionary == Dictionary(column)
    ensures |c.attributeVector| == |column|
    ensures forall i :: 0 <= i < |column| ==> c.attributeVector[i] < |c.dictionary| && c.dictionary[c.attributeVector[i]] == column[i]
  {
    var dictionary := CollectSet(column);
    CellsInDictionary(column);
    var attributeVector := RankCells(dictionary, column);
    c := DictionaryEncoder.CompressedColumn(dictionary, attributeVector);
    RanksIndex(column, c.attributeVector);
  }

  /** The loop of `Dictionary::compress`: each cell's distance in the set. */
  method RankCells(dictionary: seq<int>, column: seq<int>) returns (av: seq<nat>)
    requires StrictlyAscending(dictionary)
    requires forall i :: 0 <= i < |column| ==> column[i] in dictionary
    ensures |av| == |column|
    ensures forall i :: 0 <= i < |column| ==> av[i] == LessCount(dictionary, column[i])
  {
    var attributeVector := new nat[|column|];
    for i := 0 to |column|
      invariant forall m :: 0 <= m < i ==> attributeVector[m] == LessCount(dictionary, column[m])
    {
      var index := DictionaryEncoder.FindDistance(dictionary, column[i]);
      attributeVector[i] := index;
    }
    av := attributeVector[..];
  }

  /** The one-character string a `size_t` becomes when assigned to a
      std::string: its value truncated to a byte. */
  function CharOf(v: nat): (s: string)
    ensures |s| == 1 && s[0] as int == v % 256
  {
    [(v % 256) as char]
  }

  /** `Dictionary::decompress` as written: slot 0 receives, in turn, the
      attribute-vector entry at each code (as a one-character string), ending
      with the one at the last code; the other slots stay empty. Each code must
      index the attribute vector. */
  method Decompress(c: DictionaryEncoder.CompressedColumn) returns (r: seq<string>)
    requires forall i :: 0 <= i < |c.attributeVector| ==> c.attributeVector[i] < |c.attributeVector|
    ensures |r| == |c.attributeVector|
    ensures 0 < |r| ==> r[0] == CharOf(c.attributeVector[c.attributeVector[|r| - 1]])
    ensures forall k :: 1 <= k < |r| ==> r[k] == ""
  {
    var attributeVector := c.attributeVector;
    var decompressed := new string[|c.attributeVector|](_ => "");
    var i := 0;
    for k := 0 to |c.attributeVector|
      invariant 0 < k ==> decompressed[0] == CharOf(attributeVector[c.attributeVector[k - 1]])
      invariant forall m :: 1 <= m < |c.attributeVector| ==> decompressed[m] == ""
    {
      var cell := c.attributeVector[k];
      decompressed[i] := CharOf(attributeVector[cell]);
    }
    r := decompressed[..];
  }

  /** Round trip as written: no cell's value comes back; slot 0 holds a
      character made from a rank. */
  method RoundTripAsWritten(column: seq<int>) returns (r: seq<string>)
    ensures |r| == |column|
    ensures forall k :: 1 <= k < |r| ==> r[k] == ""
  {
    var c := Compress(column);
    SetOfSize(column);
    r := Decompress(c);
  }

  /** The decompression the loop evidently intends: slot i receives the set
      element at code i. */
  method DecompressFixed(c: DictionaryEncoder.CompressedColumn) returns (r: seq<int>)
    requires forall i :: 0 <= i < |c.attributeVector| ==> c.attributeVector[i] < |c.dictionary|
    ensures r == Decode(c.dictionary, c.attributeVector)
  {
    r := DictionaryEncoder.DecompressFixed(c);
  }

  /** With the corrected decompression the column comes back. */
  method RoundTripFixed(column: seq<int>) returns (r: seq<int>)
    ensures r == column
  {
    var c := Compress(column);
    r := DecompressFixed(c);
  }

  /** `Dictionary::size`, a stub. */
  function Size(c: DictionaryEncoder.CompressedColumn): nat {
    0
  }
}
