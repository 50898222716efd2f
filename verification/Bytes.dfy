/** Byte strings, NUL-terminated keys, the unsigned lexicographic order, and counting of bytes. */
module Bytes {

  type Byte = b: int | 0 <= b < 256

  /** A key as the tree sees it: the bytes of a C string together with its terminator. */
  predicate IsKey(k: seq<Byte>) {
    |k| > 0 && k[|k| - 1] == 0 && forall i | 0 <= i < |k| - 1 :: k[i] != 0
  }

  type Key = k: seq<Byte> | IsKey(k) witness [0]

  /** How far `a` agrees with `b` read from offset `off`, given that the first `i` bytes do. */
  function MatchFrom(a: seq<Byte>, b: seq<Byte>, off: nat, i: nat): (n: nat)
    requires i <= |a| && off + i <= |b| && a[..i] == b[off..off + i]
    ensures i <= n <= |a| && off + n <= |b| && a[..n] == b[off..off + n]
    ensures n < |a| && off + n < |b| ==> a[n] != b[off + n]
    decreases |a| - i
  {
    if i == |a| || off + i == |b| || a[i] != b[off + i] then i
    else
      assert a[..i + 1] == a[..i] + [a[i]];
      MatchFrom(a, b, off, i + 1)
  }

  /** The number of bytes of `prefix` that `key` repeats from `depth` on. */
  function MatchLen(prefix: seq<Byte>, key: seq<Byte>, depth: nat): (n: nat)
    requires depth <= |key|
    ensures n <= |prefix| && depth + n <= |key| && prefix[..n] == key[depth..depth + n]
    ensures n < |prefix| && depth + n < |key| ==> prefix[n] != key[depth + n]
  {
    MatchFrom(prefix, key, depth, 0)
  }

  /** The number of leading bytes on which two strings agree. */
  function CommonLen(a: seq<Byte>, b: seq<Byte>): (n: nat)
    ensures n <= |a| && n <= |b| && a[..n] == b[..n]
    ensures n < |a| && n < |b| ==> a[n] != b[n]
  {
    MatchLen(a, b, 0)
  }

  lemma AgreeAt(a: seq<Byte>, b: seq<Byte>, n: nat)
    requires n <= |a| && n <= |b| && a[..n] == b[..n]
    ensures forall i | 0 <= i < n :: a[i] == b[i]
  {
    forall i | 0 <= i < n ensures a[i] == b[i] {
      assert a[i] == a[..n][i] == b[..n][i] == b[i];
    }
  }

  /** Any length at which comparison stops is the common length. */
  lemma CommonLenUnique(a: seq<Byte>, b: seq<Byte>, n: nat)
    requires n <= |a| && n <= |b| && a[..n] == b[..n]
    requires n == |a| || n == |b| || a[n] != b[n]
    ensures n == CommonLen(a, b)
  {
    AgreeAt(a, b, n);
    AgreeAt(a, b, CommonLen(a, b));
  }

  lemma MatchLenUnique(prefix: seq<Byte>, key: seq<Byte>, depth: nat, n: nat)
    requires n <= |prefix| && depth + n <= |key| && prefix[..n] == key[depth..depth + n]
    requires n == |prefix| || depth + n == |key| || prefix[n] != key[depth + n]
    ensures n == MatchLen(prefix, key, depth)
  {
    var m := MatchLen(prefix, key, depth);
    assert forall i | 0 <= i < n :: prefix[i] == prefix[..n][i] == key[depth..depth + n][i] == key[depth + i];
    assert forall i | 0 <= i < m :: prefix[i] == prefix[..m][i] == key[depth..depth + m][i] == key[depth + i];
  }

  /** No key is a proper prefix of another: two keys that differ, differ at a byte of both. */
  lemma KeysDiverge(a: Key, b: Key)
    requires a != b
    ensures CommonLen(a, b) < |a| && CommonLen(a, b) < |b|
  {
    AgreeAt(a, b, CommonLen(a, b));
  }

  /** A proper prefix of a key has no zero byte. */
  lemma ProperPrefixNonZero(p: seq<Byte>, k: Key)
    requires p <= k && |p| < |k|
    ensures forall i | 0 <= i < |p| :: p[i] != 0
  {
    forall i | 0 <= i < |p| ensures p[i] != 0 {
      assert p[i] == k[i];
    }
  }

  /** The order of memcmp on unsigned bytes, a proper prefix first. */
  predicate LexLess(a: seq<Byte>, b: seq<Byte>) {
    var n := CommonLen(a, b);
    n < |b| && (n == |a| || a[n] < b[n])
  }

  /** Ordered by the first byte in which they differ, or by length if there is none. */
  lemma {:induction false} LexLessMeans(a: seq<Byte>, b: seq<Byte>)
    ensures LexLess(a, b)
            <==> exists n :: 0 <= n <= |a| && n < |b| && a[..n] == b[..n] && (n == |a| || a[n] < b[n])
  {
    var n := CommonLen(a, b);
    if m :| 0 <= m <= |a| && m < |b| && a[..m] == b[..m] && (m == |a| || a[m] < b[m]) {
      CommonLenUnique(a, b, m);
    }
  }

  /** Strings that branch at one byte are ordered by that byte. */
  lemma BranchOrder(p: seq<Byte>, x: Byte, y: Byte, a: seq<Byte>, b: seq<Byte>)
    requires p + [x] <= a && p + [y] <= b && x < y
    ensures LexLess(a, b)
  {
    var n := |p|;
    assert a[..n] == (p + [x])[..n] == p && b[..n] == (p + [y])[..n] == p;
    assert a[n] == (p + [x])[n] && b[n] == (p + [y])[n];
    CommonLenUnique(a, b, n);
  }

  lemma LexIrreflexive(a: seq<Byte>)
    ensures !LexLess(a, a)
  {
    CommonLenUnique(a, a, |a|);
  }

  lemma LexTransitive(a: seq<Byte>, b: seq<Byte>, c: seq<Byte>)
    requires LexLess(a, b) && LexLess(b, c)
    ensures LexLess(a, c)
  {
    var m, n := CommonLen(a, b), CommonLen(b, c);
    var l := if m < n then m else n;
    AgreeAt(a, b, m);
    AgreeAt(b, c, n);
    CommonLenUnique(a, c, l);
  }

  // ----- counting -----

  lemma {:induction false} MapGrow<K, T>(m: map<K, T>, b: K, x: T)
    ensures |m[b := x]| == |m| + (if b in m then 0 else 1)
  {
    assert m[b := x].Keys == m.Keys + {b};
    assert |m[b := x].Keys| == |m[b := x]|;
    assert |m.Keys| == |m|;
  }

  /** Two bindings. */
  function Pair<T>(a: Byte, x: T, b: Byte, y: T): (m: map<Byte, T>)
    requires a != b
    ensures m.Keys == {a, b} && m[a] == x && m[b] == y && |m| == 2
  {
    var one: map<Byte, T> := map[a := x];
    assert one.Keys == {a} && |one.Keys| == |one|;
    MapGrow(one, b, y);
    one[b := y]
  }

  lemma {:induction false} MapDrop<K, T>(m: map<K, T>, b: K)
    requires b in m
    ensures |m - {b}| == |m| - 1
  {
    assert (m - {b}).Keys == m.Keys - {b};
    assert |(m - {b}).Keys| == |m - {b}|;
    assert |m.Keys| == |m|;
  }

  /** A set of numbers below n has at most n elements. */
  lemma {:induction false} CountBelow(s: set<Byte>, n: nat)
    requires forall b | b in s :: b < n
    ensures |s| <= n
  {
    if n == 0 {
      assert s == {};
    } else if n - 1 < 256 && n - 1 in s {
      CountBelow(s - {n - 1}, n - 1);
    } else {
      CountBelow(s, n - 1);
    }
  }

  /** A set that holds the distinct elements of a sequence is at least as large. */
  lemma {:induction false} CountDistinct(s: set<Byte>, owners: seq<Byte>)
    requires forall i | 0 <= i < |owners| :: owners[i] in s
    requires forall i, j | 0 <= i < j < |owners| :: owners[i] != owners[j]
    ensures |s| >= |owners|
  {
    if owners != [] {
      var n := |owners| - 1;
      CountDistinct(s - {owners[n]}, owners[..n]);
    }
  }
}
