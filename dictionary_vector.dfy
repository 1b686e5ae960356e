/** The two vector-based dictionary compressors
    (cpp_for_review/dictionary_map_vector_test.cpp): both copy the column,
    sort the copy, drop adjacent duplicates with std::unique and erase the tail;
    `compress` then ranks cells through a hash map, `compress_v2` through
    std::lower_bound. */
module DictionaryVector {
  import opened Common
  import opened Ordered
  import opened DictionaryCodec

  /** std::sort on the copied dictionary vector: ascending afterwards, and a
      permutation of what was there. */
  method Sort(a: array<int>)
    modifies a
    ensures Ascending(a[..])
    ensures multiset(a[..]) == multiset(old(a[..]))
  {
    var i := 0;
    while i < a.Length
      invariant 0 <= i <= a.Length
      invariant Ascending(a[..i])
      invariant multiset(a[..]) == multiset(old(a[..]))
    {
      var j := i;
      while j > 0 && a[j - 1] > a[j]
        invariant 0 <= j <= i
        invariant forall p, q :: 0 <= p < q <= i && q != j ==> a[p] <= a[q]
        invariant forall q :: j < q <= i ==> a[j] <= a[q]
        invariant multiset(a[..]) == multiset(old(a[..]))
      {
        Swap(a, j);
        j := j - 1;
      }
      i := i + 1;
    }
  }

  /** std::unique: moves the first element of every run of equal neighbours to
      the front and returns where the kept elements end. */
  method Unique(a: array<int>) returns (last: nat)
    modifies a
    ensures last <= a.Length
    ensures a[..last] == Dedup(old(a[..]))
  {
    if a.Length == 0 {
      return 0;
    }
    ghost var s := a[..];
    var result := 0;
    var first := 1;
    while first < a.Length
      invariant 1 <= first <= a.Length
      invariant result < first
      invariant a[..result + 1] == Dedup(s[..first])
      invariant a[first..] == s[first..]
    {
      DedupLast(s[..first]);
      assert s[..first + 1][..first] == s[..first];
      assert a[first] == s[first];
      assert a[first + 1..] == a[first..][1..] == s[first..][1..] == s[first + 1..];
      if a[result] != a[first] {
        result := result + 1;
        a[result] := a[first];
        assert a[..result + 1] == a[..result] + [s[first]];
      }
      first := first + 1;
    }
    assert s[..a.Length] == s;
    last := result + 1;
  }

  /** Exchanging two neighbouring elements permutes the array. */
  method Swap(a: array<int>, j: nat)
    requires 0 < j < a.Length
    modifies a
    ensures a[..] == old(a[..])[j - 1 := old(a[j])][j := old(a[j - 1])]
    ensures multiset(a[..]) == multiset(old(a[..]))
  {
    a[j - 1], a[j] := a[j], a[j - 1];
  }

  /** The dictionary-building step shared by both compressors: copy, sort,
      unique, erase. The column itself is a value and is not changed. */
  method SortedDistinct(column: seq<int>) returns (dict: seq<int>)
    ensures dict == Dictionary(column)
  {
    var a := new int[|column|](i requires 0 <= i < |column| => column[i]);
    assert a[..] == column;
    Sort(a);
    ghost var sorted := a[..];
    var last := Unique(a);
    dict := a[..last];
    DedupAscending(sorted);
    forall x ensures x in dict <==> x in column {
      calc {
        x in column;
        multiset(column)[x] > 0;
        multiset(sorted)[x] > 0;
        x in sorted;
      }
    }
    SortedUnique(dict, Dictionary(column));
  }

  /** `compress`: sort/unique, then a hash map from value to wrapped rank. */
  method Compress(column: seq<int>, w: nat) returns (dict: seq<int>, av: seq<nat>)
    ensures dict == Dictionary(column)
    ensures av == Codes(column, w)
  {
    dict := SortedDistinct(column);
    var lookup := RankLookup(dict, w);
    assert forall i :: 0 <= i < |column| ==> column[i] in column;
    av := LookUpCells(column, w, dict, lookup);
    assert forall i :: 0 <= i < |column| ==> av[i] == Codes(column, w)[i];
  }

  /** std::lower_bound over an ascending sequence: the first position whose
      element is not less than `x`. */
  method LowerBound(d: seq<int>, x: int) returns (r: nat)
    requires Ascending(d)
    ensures r <= |d|
    ensures forall k :: 0 <= k < r ==> d[k] < x
    ensures forall k :: r <= k < |d| ==> x <= d[k]
  {
    var first := 0;
    var count := |d|;
    while count > 0
      invariant 0 <= count && first + count <= |d|
      invariant forall k :: 0 <= k < first ==> d[k] < x
      invariant forall k :: first + count <= k < |d| ==> x <= d[k]
      decreases count
    {
      var step := count / 2;
      var it := first + step;
      if d[it] < x {
        first := it + 1;
        count := count - (step + 1);
      } else {
        count := step;
      }
    }
    r := first;
  }

  /** The position `lower_bound` returns is the number of smaller elements. */
  lemma {:induction false} LessCountSplit(d: seq<int>, x: int, r: nat)
    requires r <= |d|
    requires forall k :: 0 <= k < r ==> d[k] < x
    requires forall k :: r <= k < |d| ==> x <= d[k]
    ensures LessCount(d, x) == r
  {
    if d != [] {
      if r == 0 {
        LessCountNone(d, x);
      } else {
        LessCountSplit(d[1..], x, r - 1);
      }
    }
  }

  /** `compress_v2`: sort/unique, then each code is the distance from the
      beginning of the dictionary to `lower_bound` of the cell, truncated to
      the code type. */
  method CompressV2(column: seq<int>, w: nat) returns (dict: seq<int>, av: seq<nat>)
    ensures dict == Dictionary(column)
    ensures av == Codes(column, w)
  {
    dict := SortedDistinct(column);
    var attributeVector := new nat[|column|];
    for i := 0 to |column|
      invariant forall m :: 0 <= m < i ==> attributeVector[m] == Codes(column, w)[m]
    {
      var index := LowerBound(dict, column[i]);
      LessCountSplit(dict, column[i], index);
      attributeVector[i] := index % Pow2(w);
    }
    av := attributeVector[..];
  }

  /** Both compressors return the same pair for every column and every code
      width, wrapped ranks included. */
  method CompareVariants(column: seq<int>, w: nat) returns (byMap: (seq<int>, seq<nat>), byLowerBound: (seq<int>, seq<nat>))
    ensures byMap == byLowerBound
    ensures |SetOf(column)| <= Pow2(w) ==>
      && (forall i :: 0 <= i < |byMap.1| ==> byMap.1[i] < |byMap.0|)
      && Decode(byMap.0, byMap.1) == column
  {
    var d1, a1 := Compress(column, w);
    var d2, a2 := CompressV2(column, w);
    byMap, byLowerBound := (d1, a1), (d2, a2);
    if |SetOf(column)| <= Pow2(w) {
      RoundTrip(column, w);
    }
  }
}
