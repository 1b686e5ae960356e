/** Small vocabulary shared by both codecs: optional values, the error the bit-set
    operations raise, powers of two for the unsigned code types, prefixes of
    sequences and the inversion of a code table. */
module Common {

  datatype Option<T> = None | Some(value: T)

  /** The only exception the codecs can raise: std::bitset's set/flip with a
      position outside the bit set throw std::out_of_range. */
  datatype Error = OutOfRange

  datatype Result<T> = Ok(value: T) | Err(error: Error)

  /** 2^n: the number of values of an unsigned integer type that is n bits wide. */
  function Pow2(n: nat): (r: nat)
    ensures r >= 1
  {
    if n == 0 then 1 else 2 * Pow2(n - 1)
  }

  lemma {:induction false} Pow2Monotone(a: nat, b: nat)
    requires a <= b
    ensures Pow2(a) <= Pow2(b)
    decreases b
  {
    if a < b {
      Pow2Monotone(a, b - 1);
    }
  }

  lemma MulAtLeast(k: int, p: int)
    requires k >= 1 && p > 0
    ensures k * p >= p
  {
  }

  /** Euclidean division is unique: a remainder in range is the remainder. */
  lemma ModUnique(a: int, p: int, q: int, r: int)
    requires p > 0 && 0 <= r < p && a == q * p + r
    ensures a % p == r
  {
    var q', r' := a / p, a % p;
    assert (q - q') * p == r' - r;
    if q > q' {
      MulAtLeast(q - q', p);
    } else if q' > q {
      MulAtLeast(q' - q, p);
    }
  }

  /** Incrementing a counter that wraps modulo p keeps it equal to the
      unwrapped count modulo p. */
  lemma ModSucc(a: nat, p: nat)
    requires p > 0
    ensures (a % p + 1) % p == (a + 1) % p
  {
    var q, r := a / p, a % p;
    if r + 1 < p {
      ModUnique(a + 1, p, q, r + 1);
      ModUnique(r + 1, p, 0, r + 1);
    } else {
      ModUnique(a + 1, p, q + 1, 0);
      ModUnique(r + 1, p, 1, 0);
    }
  }

  /** A value below the modulus is its own remainder. */
  lemma ModBelow(a: nat, p: nat)
    requires a < p
    ensures a % p == a
  {
  }

  /** Reducing a natural number modulo p never makes it larger. */
  lemma ModAtMost(a: nat, p: nat)
    requires p > 0
    ensures a % p <= a
  {
    if a >= p {
      ModUnique(a, p, a / p, a % p);
    }
  }

  /** Some element of a non-empty set. */
  lemma Pick<T>(s: set<T>) returns (x: T)
    requires s != {}
    ensures x in s
  {
    x :| x in s;
  }

  /** Some element of `s` other than `y`, when `s` holds more than `y`. */
  lemma PickOther<T>(s: set<T>, y: T) returns (z: T)
    requires y in s && s != {y}
    ensures z in s && z != y
  {
    z :| z in s && z != y;
  }

  /** The set of values occurring in a sequence. */
  function SetOf<T>(s: seq<T>): set<T> {
    set x | x in s
  }

  /** A sequence has at most as many distinct values as elements. */
  lemma {:induction false} SetOfSize<T>(s: seq<T>)
    ensures |SetOf(s)| <= |s|
  {
    if s != [] {
      SetOfSize(s[1..]);
      assert SetOf(s) == {s[0]} + SetOf(s[1..]);
    }
  }

  predicate IsPrefix<T(==)>(p: seq<T>, s: seq<T>) {
    |p| <= |s| && s[..|p|] == p
  }

  /** `rev` undoes `m` as far as `m` can be undone: every code of `m` is a key of
      `rev`, and `rev` sends each of its keys to a value that `m` encodes as it. */
  ghost predicate IsReverse<K, V>(rev: map<V, K>, m: map<K, V>) {
    && (forall k :: k in m ==> m[k] in rev)
    && (forall c :: c in rev ==> rev[c] in m && m[rev[c]] == c)
  }

  /** A key under which a map holds a given value. */
  ghost function KeyOf<K, V>(m: map<K, V>, c: V): (k: K)
    requires c in m.Values
    ensures k in m && m[k] == c
  {
    var k :| k in m && m[k] == c; k
  }

  predicate Injective<K, V(==)>(m: map<K, V>) {
    forall k1, k2 :: k1 in m && k2 in m && k1 != k2 ==> m[k1] != m[k2]
  }

  /** Building the reverse dictionary of a decoder: every entry of the code table
      is visited once and its code is mapped back to its value. The iteration order
      of the table is unspecified, so each step takes any key not yet visited. */
  method Invert<K, V(==)>(m: map<K, V>) returns (rev: map<V, K>)
    ensures IsReverse(rev, m)
    ensures Injective(m) ==> forall k :: k in m ==> rev[m[k]] == k
    ensures forall c :: c in rev <==> c in m.Values
  {
    rev := map[];
    var remaining := m.Keys;
    while remaining != {}
      invariant remaining <= m.Keys
      invariant forall k :: k in m && k !in remaining ==> m[k] in rev
      invariant forall c :: c in rev ==> rev[c] in m && rev[c] !in remaining && m[rev[c]] == c
      decreases remaining
    {
      var k :| k in remaining;
      rev := rev[m[k] := k];
      remaining := remaining - {k};
    }
    forall c | c in m.Values ensures c in rev {
      var k :| k in m && m[k] == c;
    }
  }
}
