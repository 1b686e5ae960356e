/** The dictionary codec of the benchmark program (cpp/main.cpp, namespace
    Dictionary): compression through a std::set and a hash map from value to
    rank, the decompression loop, and the benchmark's choice of code width. */
module DictionaryMain {
  import opened Common
  import opened Ordered
  import opened DictionaryCodec

  /** Compression with codes `w` bits wide. The std::set is held as its ascending
      iteration sequence; the rank counter `j` has the code type, so it wraps
      modulo 2^w. */
  method Compress(column: seq<int>, w: nat) returns (dict: seq<int>, av: seq<nat>)
    ensures dict == Dictionary(column)
    ensures av == Codes(column, w)
  {
    dict := CollectSet(column);
    var lookup := RankLookup(dict, w);
    assert forall i :: 0 <= i < |column| ==> column[i] in column;
    av := LookUpCells(column, w, dict, lookup);
    assert forall i :: 0 <= i < |column| ==> av[i] == Codes(column, w)[i];
  }

  /** Decompression as written: the result vector is only given capacity
      (`reserve`), each element is written past its size, and the vector that
      is returned still has size zero. Every code must index the dictionary. */
  method Decompress(dict: seq<int>, codes: seq<nat>) returns (r: seq<int>)
    requires forall i :: 0 <= i < |codes| ==> codes[i] < |dict|
    ensures r == []
  {
    var storage := new int[|codes|];
    var size := 0;
    for i := 0 to |codes| {
      storage[i] := dict[codes[i]];
    }
    r := storage[..size];
  }

  /** Decompression with the result vector sized to the attribute vector, which
      is what the loop evidently intends. */
  method DecompressResized(dict: seq<int>, codes: seq<nat>) returns (r: seq<int>)
    requires forall i :: 0 <= i < |codes| ==> codes[i] < |dict|
    ensures r == Decode(dict, codes)
  {
    var decompressed := new int[|codes|];
    for i := 0 to |codes|
      invariant forall m :: 0 <= m < i ==> decompressed[m] == dict[codes[m]]
    {
      decompressed[i] := dict[codes[i]];
    }
    r := decompressed[..];
  }

  /** Compressing and decompressing as written loses every cell of the column,
      whatever the code width. */
  method RoundTripAsWritten(column: seq<int>, w: nat) returns (r: seq<int>)
    ensures r == []
    ensures column != [] ==> r != column
  {
    var dict, av := Compress(column, w);
    CodesInRange(column, w);
    r := Decompress(dict, av);
  }

  /** With the corrected decompression and a wide enough code type, the column
      comes back unchanged. */
  method RoundTripResized(column: seq<int>, w: nat) returns (r: seq<int>)
    requires |SetOf(column)| <= Pow2(w)
    ensures r == column
  {
    var dict, av := Compress(column, w);
    RoundTrip(column, w);
    r := DecompressResized(dict, av);
  }

  /** The benchmark's compression step: count the distinct values with a
      std::set, pick the narrowest code type that addresses them all, and
      compress with it; with more than 2^64 distinct values nothing is
      compressed. */
  method CompressForBenchmark(column: seq<int>) returns (r: Option<(nat, seq<int>, seq<nat>)>)
    ensures r.None? <==> |SetOf(column)| > Pow2(64)
    ensures r.Some? ==> r.value.0 in Widths && r.value.1 == Dictionary(column) && r.value.2 == Codes(column, r.value.0)
    ensures r.Some? ==>
      && (forall i :: 0 <= i < |r.value.2| ==> r.value.2[i] < |r.value.1|)
      && Decode(r.value.1, r.value.2) == column
  {
    var uniques := CollectSet(column);
    var width := SelectCodeWidth(|uniques|);
    if width.None? {
      r := None;
    } else {
      var dict, av := Compress(column, width.value);
      SelectedWidthRoundTrips(column);
      r := Some((width.value, dict, av));
    }
  }
}
