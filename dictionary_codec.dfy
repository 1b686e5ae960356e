/** What every dictionary-encoding variant computes: the dictionary of a column
    (its distinct values in ascending order), the attribute vector (each cell
    replaced by its rank in the dictionary, truncated to the width of the code
    type), the decoder that indexes the dictionary, and the code width the
    benchmark picks for a column. */
module DictionaryCodec {
  import opened Common
  import opened Ordered

  /** The distinct values of the column, ascending: what the codecs store as the
      dictionary of the compressed column. */
  ghost function Dictionary(column: seq<int>): (d: seq<int>)
    ensures StrictlyAscending(d)
    ensures forall x :: x in d <==> x in column
    ensures |d| == |SetOf(column)|
  {
    SortedOf(SetOf(column))
  }

  /** The attribute vector when codes are unsigned integers `w` bits wide: the
      rank of each cell in the dictionary, reduced modulo 2^w as an assignment
      to the narrow code type reduces it. */
  ghost function Codes(column: seq<int>, w: nat): (r: seq<nat>)
    ensures |r| == |column|
    ensures forall i :: 0 <= i < |r| ==> r[i] < Pow2(w)
  {
    var d := Dictionary(column);
    seq(|column|, i requires 0 <= i < |column| => LessCount(d, column[i]) % Pow2(w))
  }

  /** Decoding: every code indexes the dictionary. */
  function Decode(dict: seq<int>, codes: seq<nat>): (r: seq<int>)
    requires forall i :: 0 <= i < |codes| ==> codes[i] < |dict|
  {
    seq(|codes|, i requires 0 <= i < |codes| => dict[codes[i]])
  }

  /** The rank of a cell is the position of that cell's value in the dictionary. */
  lemma RankIndexes(column: seq<int>, i: nat)
    requires i < |column|
    ensures LessCount(Dictionary(column), column[i]) < |Dictionary(column)|
    ensures Dictionary(column)[LessCount(Dictionary(column), column[i])] == column[i]
  {
    var d := Dictionary(column);
    assert column[i] in d;
    var k :| 0 <= k < |d| && d[k] == column[i];
    LessCountAt(d, k);
  }

  /** Every cell's value is in the dictionary. */
  lemma CellsInDictionary(column: seq<int>)
    ensures forall i :: 0 <= i < |column| ==> column[i] in Dictionary(column)
  {
    forall i | 0 <= i < |column| ensures column[i] in Dictionary(column) {
      assert column[i] in column;
    }
  }

  /** A vector of unreduced ranks indexes the dictionary at each cell's value. */
  lemma RanksIndex(column: seq<int>, ranks: seq<nat>)
    requires |ranks| == |column|
    requires forall i :: 0 <= i < |column| ==> ranks[i] == LessCount(Dictionary(column), column[i])
    ensures forall i :: 0 <= i < |column| ==> ranks[i] < |Dictionary(column)| && Dictionary(column)[ranks[i]] == column[i]
  {
    forall i | 0 <= i < |column| ensures ranks[i] < |Dictionary(column)| && Dictionary(column)[ranks[i]] == column[i] {
      RankIndexes(column, i);
    }
  }

  /** A code is the dictionary position of its value, reduced modulo 2^w. */
  lemma CodeIsWrappedPosition(column: seq<int>, w: nat, i: nat, k: nat)
    requires i < |column| && k < |Dictionary(column)|
    requires Dictionary(column)[k] == column[i]
    ensures Codes(column, w)[i] == k % Pow2(w)
  {
    LessCountAt(Dictionary(column), k);
  }

  /** When the code type can address every dictionary entry, no code wraps, every
      code indexes the dictionary, and decoding gives the column back. */
  lemma RoundTrip(column: seq<int>, w: nat)
    requires |Dictionary(column)| <= Pow2(w)
    ensures forall i :: 0 <= i < |column| ==> Codes(column, w)[i] < |Dictionary(column)|
    ensures Decode(Dictionary(column), Codes(column, w)) == column
  {
    var d, c := Dictionary(column), Codes(column, w);
    forall i | 0 <= i < |column| ensures c[i] < |d| && d[c[i]] == column[i] {
      RankIndexes(column, i);
      ModBelow(LessCount(d, column[i]), Pow2(w));
    }
  }

  /** Whatever the code width, every code indexes the dictionary: a wrapped rank
      is no larger than the rank. */
  lemma CodesInRange(column: seq<int>, w: nat)
    ensures forall i :: 0 <= i < |column| ==> Codes(column, w)[i] < |Dictionary(column)|
  {
    var d, c := Dictionary(column), Codes(column, w);
    forall i | 0 <= i < |column| ensures c[i] < |d| {
      RankIndexes(column, i);
      ModAtMost(LessCount(d, column[i]), Pow2(w));
    }
  }

  /** When the dictionary is larger than 2^w, two cells with different values
      receive the same code, so no decoder can recover the column. */
  lemma WrapCollides(column: seq<int>, w: nat)
    requires |Dictionary(column)| > Pow2(w)
    ensures exists i, j ::
      && 0 <= i < |column| && 0 <= j < |column|
      && column[i] != column[j] && Codes(column, w)[i] == Codes(column, w)[j]
  {
    var d := Dictionary(column);
    var p := Pow2(w);
    assert d[0] in column && d[p] in column;
    var i :| 0 <= i < |column| && column[i] == d[0];
    var j :| 0 <= j < |column| && column[j] == d[p];
    CodeIsWrappedPosition(column, w, i, 0);
    CodeIsWrappedPosition(column, w, j, p);
    assert d[0] < d[p];
  }

  /** Filling a std::set with every cell of the column (the set is held as its
      ascending iteration sequence) yields the dictionary. */
  method CollectSet(column: seq<int>) returns (d: seq<int>)
    ensures d == Dictionary(column)
  {
    d := [];
    for i := 0 to |column|
      invariant StrictlyAscending(d)
      invariant forall y :: y in d <==> y in column[..i]
    {
      assert column[..i + 1] == column[..i] + [column[i]];
      d := Insert(d, column[i]);
    }
    assert column[..|column|] == column;
    SortedUnique(d, Dictionary(column));
  }

  /** The hash map from each dictionary value to its wrapped rank, filled in
      the set's ascending order. */
  method RankLookup(dict: seq<int>, w: nat) returns (lookup: map<int, nat>)
    requires StrictlyAscending(dict)
    ensures forall y :: y in lookup <==> y in dict
    ensures forall m :: 0 <= m < |dict| ==> dict[m] in lookup && lookup[dict[m]] == m % Pow2(w)
  {
    lookup := map[];
    var j: nat := 0;
    for k := 0 to |dict|
      invariant j == k % Pow2(w)
      invariant forall y :: y in lookup <==> y in dict[..k]
      invariant forall m :: 0 <= m < k ==> dict[m] in lookup && lookup[dict[m]] == m % Pow2(w)
    {
      assert dict[..k + 1] == dict[..k] + [dict[k]];
      forall m | 0 <= m < k ensures dict[m] != dict[k] {
        assert dict[m] < dict[k];
      }
      lookup := lookup[dict[k] := j];
      ModSucc(k, Pow2(w));
      j := (j + 1) % Pow2(w);
    }
    assert dict[..|dict|] == dict;
  }

  /** The attribute vector: every cell replaced by what the lookup map holds
      for it. */
  method LookUpCells(column: seq<int>, w: nat, dict: seq<int>, lookup: map<int, nat>) returns (av: seq<nat>)
    requires StrictlyAscending(dict)
    requires forall i :: 0 <= i < |column| ==> column[i] in dict
    requires forall m :: 0 <= m < |dict| ==> dict[m] in lookup && lookup[dict[m]] == m % Pow2(w)
    ensures |av| == |column|
    ensures forall i :: 0 <= i < |column| ==> av[i] == LessCount(dict, column[i]) % Pow2(w)
  {
    var attributeVector := new nat[|column|];
    for i := 0 to |column|
      invariant forall m :: 0 <= m < i ==> attributeVector[m] == LessCount(dict, column[m]) % Pow2(w)
    {
      assert column[i] in dict;
      var k :| 0 <= k < |dict| && dict[k] == column[i];
      LessCountAt(dict, k);
      attributeVector[i] := lookup[column[i]];
    }
    av := attributeVector[..];
  }

  /** The widths the benchmark tries, in order: uint8_t, uint16_t, uint32_t,
      uint64_t. */
  const Widths: seq<nat> := [8, 16, 32, 64]

  /** The benchmark's choice of code type for a column with `uniques` distinct
      values: the narrowest width whose 2^w bounds the count, or none (the
      "cannot address" branch). */
  function SelectCodeWidth(uniques: nat): (r: Option<nat>)
    ensures r.Some? <==> uniques <= Pow2(64)
    ensures r.Some? ==> r.value in Widths && uniques <= Pow2(r.value)
    ensures r != Some(8) ==> Pow2(8) < uniques
    ensures r != Some(8) && r != Some(16) ==> Pow2(16) < uniques
    ensures r != Some(8) && r != Some(16) && r != Some(32) ==> Pow2(32) < uniques
  {
    Pow2Monotone(8, 16);
    Pow2Monotone(16, 32);
    Pow2Monotone(32, 64);
    if uniques <= Pow2(8) then Some(8)
    else if uniques <= Pow2(16) then Some(16)
    else if uniques <= Pow2(32) then Some(32)
    else if uniques <= Pow2(64) then Some(64)
    else None
  }

  /** The width the benchmark picks never wraps a code, so compressing with it
      and decoding gives the column back. */
  lemma SelectedWidthRoundTrips(column: seq<int>)
    requires SelectCodeWidth(|SetOf(column)|).Some?
    ensures var w := SelectCodeWidth(|SetOf(column)|).value;
      && (forall i :: 0 <= i < |column| ==> Codes(column, w)[i] < |Dictionary(column)|)
      && Decode(Dictionary(column), Codes(column, w)) == column
  {
    var w := SelectCodeWidth(|SetOf(column)|).value;
    RoundTrip(column, w);
  }
}
