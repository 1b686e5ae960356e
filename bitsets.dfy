/** std::bitset<B> as a sequence of B booleans, most significant position
    first: sequence index j holds bit position B-1-j. Under this reading
    `operator>>` moves bits towards higher indices, `operator<<` towards lower
    ones, and `set(B-1-j)` sets index j. */
module Bitsets {

  function Zeros(n: nat): (z: seq<bool>)
    ensures |z| == n && forall k :: 0 <= k < n ==> !z[k]
  {
    seq(n, _ => false)
  }

  /** `none()`: no bit is set. */
  predicate IsNone(s: seq<bool>) {
    forall k :: 0 <= k < |s| ==> !s[k]
  }

  /** A bit pattern placed at the most significant end of an n-bit set (cut
      to n bits when longer). */
  function Pad(s: seq<bool>, n: nat): (r: seq<bool>)
    ensures |r| == n
    ensures |s| <= n ==> r[..|s|] == s && forall k :: |s| <= k < n ==> !r[k]
  {
    if |s| <= n then s + Zeros(n - |s|) else s[..n]
  }

  /** `|`: bitwise or. */
  function Or(a: seq<bool>, b: seq<bool>): (r: seq<bool>)
    requires |a| == |b|
    ensures |r| == |a|
  {
    seq(|a|, k requires 0 <= k < |a| => a[k] || b[k])
  }

  /** `&`: bitwise and. */
  function And(a: seq<bool>, b: seq<bool>): (r: seq<bool>)
    requires |a| == |b|
    ensures |r| == |a|
  {
    seq(|a|, k requires 0 <= k < |a| => a[k] && b[k])
  }

  /** `<< k`: every bit moves k positions up; the low positions fill with 0. */
  function ShiftLeft(s: seq<bool>, k: nat): (r: seq<bool>)
    ensures |r| == |s|
  {
    if k >= |s| then Zeros(|s|) else s[k..] + Zeros(k)
  }

  /** `>> k`: every bit moves k positions down; the high positions fill with 0. */
  function ShiftRight(s: seq<bool>, k: nat): (r: seq<bool>)
    ensures |r| == |s|
  {
    if k >= |s| then Zeros(|s|) else Zeros(k) + s[..|s| - k]
  }

  /** An n-bit mask whose set bits are exactly the indices lo .. hi-1. */
  function Window(lo: nat, hi: nat, n: nat): (m: seq<bool>)
    ensures |m| == n
  {
    seq(n, k => lo <= k < hi)
  }

  /** The number of leading positions up to and including the last set bit,
      in index order: 0 when no bit is set. */
  function CodeLen(s: seq<bool>): (n: nat)
    ensures n <= |s|
    ensures n > 0 ==> s[n - 1]
    ensures forall k :: n <= k < |s| ==> !s[k]
  {
    if s == [] then 0
    else if s[|s| - 1] then |s|
    else CodeLen(s[..|s| - 1])
  }

  /** The bits of a code up to its last set bit. */
  function Word(s: seq<bool>): (w: seq<bool>)
    ensures |w| == CodeLen(s)
  {
    s[..CodeLen(s)]
  }

  /** The two conditions of `CodeLen`'s contract determine it. */
  lemma CodeLenUnique(s: seq<bool>, n: nat)
    requires n <= |s| && (n > 0 ==> s[n - 1])
    requires forall k :: n <= k < |s| ==> !s[k]
    ensures CodeLen(s) == n
  {
  }

  /** A code is its word followed by zeros. */
  lemma PadWord(s: seq<bool>)
    ensures Pad(Word(s), |s|) == s
  {
    var w := Word(s);
    assert Pad(w, |s|) == w + Zeros(|s| - |w|);
    forall k | 0 <= k < |s| ensures Pad(w, |s|)[k] == s[k] {
      if k < |w| {
        assert Pad(w, |s|)[k] == w[k];
      }
    }
  }

  /** Padding a word that ends in a set bit keeps it as the word. */
  lemma WordOfPad(w: seq<bool>, n: nat)
    requires |w| <= n && w != [] && w[|w| - 1]
    ensures CodeLen(Pad(w, n)) == |w| && Word(Pad(w, n)) == w
  {
    var p := Pad(w, n);
    assert p[|w| - 1] == w[|w| - 1];
    CodeLenUnique(p, |w|);
  }

  /** Shifting a code down past the bits already in a block and or-ing it in
      appends its word to the block's contents. */
  lemma AppendShifted(x: seq<bool>, w: seq<bool>, n: nat)
    requires |x| + |w| <= n
    ensures Or(Pad(x, n), ShiftRight(Pad(w, n), |x|)) == Pad(x + w, n)
  {
    var sh := ShiftRight(Pad(w, n), |x|);
    if |x| < n {
      assert sh == Zeros(|x|) + Pad(w, n)[..n - |x|];
    }
    forall k | 0 <= k < n ensures Or(Pad(x, n), sh)[k] == Pad(x + w, n)[k] {
      if k < |x| {
        assert Pad(x + w, n)[k] == (x + w)[k];
      } else if k < |x| + |w| {
        assert sh[k] == Pad(w, n)[k - |x|];
        assert Pad(x + w, n)[k] == (x + w)[k];
      } else {
        assert sh[k] == Pad(w, n)[k - |x|];
      }
    }
  }

  /** Masking bits lo .. hi-1 and shifting them up by lo moves the window to
      the most significant end. */
  lemma WindowSearch(bits: seq<bool>, lo: nat, hi: nat)
    requires lo <= hi <= |bits|
    ensures ShiftLeft(And(bits, Window(lo, hi, |bits|)), lo) == Pad(bits[lo..hi], |bits|)
  {
    var n := |bits|;
    var a := And(bits, Window(lo, hi, n));
    var r := ShiftLeft(a, lo);
    forall k | 0 <= k < n ensures r[k] == Pad(bits[lo..hi], n)[k] {
      if lo < n {
        assert r == a[lo..] + Zeros(lo);
        if k < n - lo {
          assert r[k] == a[lo + k];
        }
      }
      if k < hi - lo {
        assert Pad(bits[lo..hi], n)[k] == bits[lo + k];
      }
    }
  }

  /** Setting the next index of a window extends it. */
  lemma WindowGrow(lo: nat, i: nat, n: nat)
    requires lo <= i < n
    ensures Window(lo, i, n)[i := true] == Window(lo, i + 1, n)
  {
  }

  /** A cleared mask is the empty window at any index. */
  lemma ZerosWindow(i: nat, n: nat)
    ensures Zeros(n) == Window(i, i, n)
  {
  }
}
