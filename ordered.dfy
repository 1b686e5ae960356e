/** Sorted sequences of column values: the canonical form of a dictionary.
    `SortedOf(s)` is the order in which a std::set<int> iterates over `s`;
    `LessCount(d, x)` is the `std::distance` from the beginning of such a set to
    the element `x`; `Dedup` is what std::unique keeps of a sequence. */
module Ordered {
  import opened Common

  predicate Ascending(s: seq<int>) {
    forall i, j :: 0 <= i < j < |s| ==> s[i] <= s[j]
  }

  predicate StrictlyAscending(s: seq<int>) {
    forall i, j :: 0 <= i < j < |s| ==> s[i] < s[j]
  }

  /** A non-empty finite set of integers has a least element. */
  lemma {:induction false} Least(s: set<int>) returns (least: int)
    requires s != {}
    ensures least in s && forall y :: y in s ==> least <= y
    decreases s
  {
    var x := Pick(s);
    if s == {x} {
      least := x;
    } else {
      var rest := s - {x};
      var z := PickOther(s, x);
      assert z in rest;
      var m := Least(rest);
      least := if x < m then x else m;
      forall y | y in s ensures least <= y {
        if y != x {
          assert y in rest;
        }
      }
    }
  }

  /** The same fact as an existence claim, from which `SetMin` chooses. */
  lemma MinExists(s: set<int>)
    requires s != {}
    ensures exists m :: m in s && forall y :: y in s ==> m <= y
  {
    var m := Least(s);
  }

  /** The first element a std::set<int> holding `s` iterates over. */
  function SetMin(s: set<int>): (m: int)
    requires s != {}
    ensures m in s && forall y :: y in s ==> m <= y
  {
    MinExists(s);
    var m :| m in s && forall y :: y in s ==> m <= y;
    m
  }

  /** The elements of `s` in the order of a std::set<int>: ascending, each once. */
  function SortedOf(s: set<int>): (r: seq<int>)
    ensures StrictlyAscending(r)
    ensures |r| == |s|
    ensures forall x :: x in r <==> x in s
    decreases s
  {
    if s == {} then []
    else
      var m := SetMin(s);
      [m] + SortedOf(s - {m})
  }

  lemma FirstIsLeast(a: seq<int>)
    requires StrictlyAscending(a) && a != []
    ensures forall x :: x in a ==> a[0] <= x
  {
    forall x | x in a ensures a[0] <= x {
      var i :| 0 <= i < |a| && a[i] == x;
      if i > 0 {
        assert a[0] < a[i];
      }
    }
  }

  /** std::set::emplace on a set held as its ascending iteration sequence:
      the value is added unless it is already there, and the order is kept. */
  function Insert(d: seq<int>, x: int): (r: seq<int>)
    requires StrictlyAscending(d)
    ensures StrictlyAscending(r)
    ensures forall y :: y in r <==> y in d || y == x
    decreases |d|
  {
    if d == [] then [x]
    else if x < d[0] then [x] + d
    else if x == d[0] then d
    else
      var rest := Insert(d[1..], x);
      assert forall k :: 0 <= k < |rest| ==> rest[k] in d[1..] || rest[k] == x;
      assert forall k :: 0 < k < |d| ==> d[0] < d[k];
      [d[0]] + rest
  }

  /** A strictly ascending sequence is determined by its elements. */
  lemma {:induction false} SortedUnique(a: seq<int>, b: seq<int>)
    requires StrictlyAscending(a) && StrictlyAscending(b)
    requires forall x :: x in a <==> x in b
    ensures a == b
  {
    assert b != [] ==> b[0] in b && b[0] in a;
    assert a != [] ==> a[0] in a && a[0] in b;
    if a != [] {
      FirstIsLeast(a);
      FirstIsLeast(b);
      forall x ensures x in a[1..] <==> x in b[1..] {
        if x in a[1..] {
          var k :| 0 <= k < |a| - 1 && a[1..][k] == x;
          assert a[k + 1] == x && a[0] < x;
          assert x in b;
          var j :| 0 <= j < |b| && b[j] == x;
          assert j != 0;
          assert b[1..][j - 1] == x;
        }
        if x in b[1..] {
          var k :| 0 <= k < |b| - 1 && b[1..][k] == x;
          assert b[k + 1] == x && b[0] < x;
          assert x in a;
          var j :| 0 <= j < |a| && a[j] == x;
          assert j != 0;
          assert a[1..][j - 1] == x;
        }
      }
      SortedUnique(a[1..], b[1..]);
      assert a == [a[0]] + a[1..] && b == [b[0]] + b[1..];
    }
  }

  /** The number of elements of `d` that are less than `x`. */
  function LessCount(d: seq<int>, x: int): nat {
    if d == [] then 0 else (if d[0] < x then 1 else 0) + LessCount(d[1..], x)
  }

  lemma {:induction false} LessCountNone(d: seq<int>, x: int)
    requires forall k :: 0 <= k < |d| ==> x <= d[k]
    ensures LessCount(d, x) == 0
  {
    if d != [] {
      LessCountNone(d[1..], x);
    }
  }

  /** In a strictly ascending sequence the number of smaller elements is the index. */
  lemma {:induction false} LessCountAt(d: seq<int>, k: nat)
    requires StrictlyAscending(d) && k < |d|
    ensures LessCount(d, d[k]) == k
  {
    if k == 0 {
      LessCountNone(d[1..], d[0]);
    } else {
      assert d[1..][k - 1] == d[k];
      LessCountAt(d[1..], k - 1);
    }
  }

  /** What std::unique keeps of `s`: the first element of each run of equal
      adjacent elements, in order. */
  function Dedup(s: seq<int>): seq<int>
    decreases |s|
  {
    if |s| <= 1 then s
    else if s[|s| - 2] == s[|s| - 1] then Dedup(s[..|s| - 1])
    else Dedup(s[..|s| - 1]) + [s[|s| - 1]]
  }

  lemma {:induction false} DedupLast(s: seq<int>)
    requires |s| > 0
    ensures |Dedup(s)| > 0 && Dedup(s)[|Dedup(s)| - 1] == s[|s| - 1]
    decreases |s|
  {
    if |s| > 1 {
      DedupLast(s[..|s| - 1]);
    }
  }

  /** Removing adjacent duplicates from an ascending sequence leaves a strictly
      ascending sequence with the same elements. */
  lemma {:induction false} DedupAscending(s: seq<int>)
    requires Ascending(s)
    ensures StrictlyAscending(Dedup(s))
    ensures forall x :: x in Dedup(s) <==> x in s
    decreases |s|
  {
    if |s| > 1 {
      var p := s[..|s| - 1];
      var x := s[|s| - 1];
      DedupAscending(p);
      assert s == p + [x];
      if p[|p| - 1] == x {
        assert x in p;
      } else {
        var dp := Dedup(p);
        forall i | 0 <= i < |dp| ensures dp[i] < x {
          assert dp[i] in dp;
          assert dp[i] in p;
          var k :| 0 <= k < |p| && p[k] == dp[i];
          assert p[k] <= p[|p| - 1];
        }
      }
    }
  }
}
