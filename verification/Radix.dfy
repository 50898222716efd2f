/**
 The path-compressed radix tree that the adaptive radix tree stands for: inner nodes carry their
 whole compressed prefix and a map from branch byte to child.  Lookup and insertion are defined here,
 deletion in `RadixDelete`, by comparing whole prefixes; the node layouts and the ten-byte prefix
 buffer of the program are related to these definitions in `ArtNodes` and `ArtTree`.
 */
module Radix {
  import opened Wrappers
  import opened Bytes

  /** A stored value: the word given by the caller and its type tag. */
  datatype Value = Value(data: nat, tag: nat)

  datatype Tree =
    | Tip(key: Key, value: Value)
    | Branch(prefix: seq<Byte>, kids: map<Byte, Tree>)

  /**
   The path-compression invariant of a subtree reached over the bytes `path`: every inner node has
   at least two children, and every key below agrees with the path, the compressed prefix and the
   branch byte.
   */
  ghost predicate WellFormed(t: Tree, path: seq<Byte>) {
    match t
    case Tip(k, _) => path <= k
    case Branch(prefix, kids) =>
      |kids| >= 2 && forall b {:trigger kids[b]} | b in kids :: WellFormed(kids[b], path + prefix + [b])
  }

  lemma {:induction false} KidOnPath(t: Tree, path: seq<Byte>, b: Byte)
    requires t.Branch? && WellFormed(t, path) && b in t.kids
    ensures WellFormed(t.kids[b], path + t.prefix + [b])
  {
  }

  // ----- lookup -----

  /** Whether a key repeats the prefix of an inner node and then names one of its children. */
  predicate Follows(t: Tree, depth: nat, key: Key)
    requires t.Branch?
  {
    var e := depth + |t.prefix|;
    e < |key| && key[depth..e] == t.prefix && key[e] in t.kids
  }

  function Lookup(t: Tree, depth: nat, key: Key): Option<Value> {
    match t
    case Tip(k, v) => if k == key then Some(v) else None
    case Branch(prefix, kids) =>
      var e := depth + |prefix|;
      if Follows(t, depth, key) then Lookup(kids[key[e]], e + 1, key) else None
  }

  /** Only keys that continue the path are found below it. */
  lemma {:induction false} LookupOnPath(t: Tree, path: seq<Byte>, key: Key)
    requires WellFormed(t, path)
    ensures Lookup(t, |path|, key).Some? ==> path <= key
  {
    if t.Branch? && Lookup(t, |path|, key).Some? {
      var e := |path| + |t.prefix|;
      var next := path + t.prefix + [key[e]];
      LookupOnPath(t.kids[key[e]], next, key);
      assert path <= next;
    }
  }

  /** A key found below an inner node continues its whole prefix and its branch byte. */
  lemma {:induction false} LookupThrough(t: Tree, path: seq<Byte>, key: Key, b: Byte)
    requires WellFormed(t, path) && t.Branch? && b in t.kids
    requires Lookup(t.kids[b], |path| + |t.prefix| + 1, key).Some?
    ensures path + t.prefix + [b] <= key
    ensures Lookup(t, |path|, key) == Lookup(t.kids[b], |path| + |t.prefix| + 1, key)
  {
    var next := path + t.prefix + [b];
    LookupOnPath(t.kids[b], next, key);
    var e := |path| + |t.prefix|;
    assert key[e] == next[e];
    assert key[|path|..e] == next[|path|..e] == t.prefix;
  }

  /** Descending without comparing the prefix finds the same, hit or miss. */
  lemma {:induction false} OptimisticStep(t: Tree, path: seq<Byte>, key: Key)
    requires t.Branch? && WellFormed(t, path) && |path| + |t.prefix| < |key|
    ensures var e := |path| + |t.prefix|;
            Lookup(t, |path|, key) == if key[e] in t.kids then Lookup(t.kids[key[e]], e + 1, key) else None
  {
    var e := |path| + |t.prefix|;
    if key[e] in t.kids && Lookup(t.kids[key[e]], e + 1, key).Some? {
      LookupThrough(t, path, key, key[e]);
    }
  }

  /** A byte of the prefix that the key does not repeat rules the key out. */
  lemma {:induction false} PartialMiss(t: Tree, depth: nat, key: Key, n: nat)
    requires t.Branch? && depth <= |key| && n <= |t.prefix| && MatchLen(t.prefix[..n], key, depth) < n
    ensures !Follows(t, depth, key) && Lookup(t, depth, key) == None
  {
    var m := MatchLen(t.prefix[..n], key, depth);
    var part := if depth + |t.prefix| <= |key| then key[depth..depth + |t.prefix|] else [];
    assert m < |part| ==> part[m] == key[depth + m];
  }

  // ----- the leftmost leaf -----

  ghost predicate IsLeast(kids: map<Byte, Tree>, b: Byte) {
    b in kids && forall c | c in kids :: b <= c
  }

  /** The least byte of a set, found by scanning upwards from a lower bound. */
  function LeastFrom(s: set<Byte>, i: Byte): (b: Byte)
    requires s != {} && forall c | c in s :: i <= c
    ensures b in s && forall c | c in s :: b <= c
    decreases 256 - i
  {
    if i in s then i
    else
      assert i < 255 by {
        var c :| c in s;
      }
      LeastFrom(s, i + 1)
  }

  function LeastByte(kids: map<Byte, Tree>): (b: Byte)
    requires kids.Keys != {}
    ensures IsLeast(kids, b)
  {
    LeastFrom(kids.Keys, 0)
  }

  /** The leftmost leaf; the tree itself when a branch has no child. */
  function Minimum(t: Tree): (m: Tree) {
    if t.Tip? || t.kids.Keys == {} then t else Minimum(t.kids[LeastByte(t.kids)])
  }

  lemma {:induction false} MinimumOnPath(t: Tree, path: seq<Byte>)
    requires WellFormed(t, path)
    ensures Minimum(t).Tip? && path <= Minimum(t).key
    ensures t.Branch? ==> path + t.prefix <= Minimum(t).key && |path + t.prefix| < |Minimum(t).key|
    ensures Lookup(t, |path|, Minimum(t).key) == Some(Minimum(t).value)
  {
    if t.Branch? {
      assert |t.kids.Keys| == |t.kids|;
      var b := LeastByte(t.kids);
      var next := path + t.prefix + [b];
      MinimumOnPath(t.kids[b], next);
      assert path + t.prefix <= next && path <= next;
      LookupThrough(t, path, Minimum(t).key, b);
    }
  }

  /** The bytes above and inside an inner node are never the terminator. */
  lemma {:induction false} PathNonZero(t: Tree, path: seq<Byte>)
    requires WellFormed(t, path) && t.Branch?
    ensures forall i | 0 <= i < |path| :: path[i] != 0
    ensures forall i | 0 <= i < |t.prefix| :: t.prefix[i] != 0
  {
    MinimumOnPath(t, path);
    var whole := path + t.prefix;
    ProperPrefixNonZero(whole, Minimum(t).key);
    forall i | 0 <= i < |path| ensures path[i] != 0 {
      assert whole[i] == path[i];
    }
    forall i | 0 <= i < |t.prefix| ensures t.prefix[i] != 0 {
      assert whole[|path| + i] == t.prefix[i];
    }
  }

  /** A key that shares the path of an inner node has a byte left wherever it stops matching. */
  lemma {:induction false} KeyOutlasts(t: Tree, depth: nat, key: Key)
    requires depth <= |key| && WellFormed(t, key[..depth]) && t.Branch?
    ensures depth + MatchLen(t.prefix, key, depth) < |key|
  {
    PathNonZero(t, key[..depth]);
    var n := MatchLen(t.prefix, key, depth);
    forall i | 0 <= i < depth + n ensures key[i] != 0 {
      assert key[i] == if i < depth then key[..depth][i] else t.prefix[..n][i - depth];
    }
  }

  // ----- insertion -----

  /** A leaf replaced by an inner node over the old and the new leaf. */
  function Expand(t: Tree, depth: nat, key: Key, value: Value): (r: Tree)
    requires t.Tip? && t.key != key && depth <= |key| && key[..depth] <= t.key
  {
    DivergeBelow(t.key, key, depth);
    var e := CommonLen(key, t.key);
    Branch(key[depth..e], Pair(key[e], Tip(key, value), t.key[e], t))
  }

  /** An inner node cut after n bytes of its prefix, with the new leaf beside the lower part. */
  function Split(t: Tree, depth: nat, n: nat, key: Key, value: Value): (r: Tree)
    requires t.Branch? && n < |t.prefix| && depth + n < |key| && t.prefix[n] != key[depth + n]
  {
    Branch(t.prefix[..n], Pair(key[depth + n], Tip(key, value), t.prefix[n], Branch(t.prefix[n + 1..], t.kids)))
  }

  function Insert(t: Tree, depth: nat, key: Key, value: Value): (r: Tree)
    requires depth <= |key| && WellFormed(t, key[..depth])
  {
    match t
    case Tip(k, v) => if k == key then Tip(key, value) else Expand(t, depth, key, value)
    case Branch(prefix, kids) =>
      KeyOutlasts(t, depth, key);
      var n := MatchLen(prefix, key, depth);
      if n < |prefix| then Split(t, depth, n, key, value)
      else
        var e := depth + |prefix|;
        assert key[..e + 1] == key[..depth] + prefix + [key[e]];
        Branch(prefix,
               kids[key[e] := if key[e] in kids then Insert(kids[key[e]], e + 1, key, value) else Tip(key, value)])
  }

  // The three ways an insertion goes on from an inner node.

  lemma {:induction false} InsertSplits(t: Tree, depth: nat, key: Key, value: Value)
    requires depth <= |key| && WellFormed(t, key[..depth]) && t.Branch? && MatchLen(t.prefix, key, depth) < |t.prefix|
    ensures depth + MatchLen(t.prefix, key, depth) < |key|
    ensures Insert(t, depth, key, value) == Split(t, depth, MatchLen(t.prefix, key, depth), key, value)
    ensures Lookup(t, depth, key) == None
  {
    KeyOutlasts(t, depth, key);
    assert t.prefix[..|t.prefix|] == t.prefix;
    PartialMiss(t, depth, key, |t.prefix|);
  }

  lemma {:induction false} WholePrefix(t: Tree, depth: nat, key: Key)
    requires depth <= |key| && WellFormed(t, key[..depth]) && t.Branch? && MatchLen(t.prefix, key, depth) == |t.prefix|
    ensures depth + |t.prefix| < |key| && key[depth..depth + |t.prefix|] == t.prefix
    ensures key[..depth + |t.prefix| + 1] == key[..depth] + t.prefix + [key[depth + |t.prefix|]]
    ensures key[depth + |t.prefix|] in t.kids ==>
              WellFormed(t.kids[key[depth + |t.prefix|]], key[..depth + |t.prefix| + 1])
  {
    KeyOutlasts(t, depth, key);
    assert t.prefix[..|t.prefix|] == t.prefix;
    PathThrough(t.prefix, key, depth);
  }

  lemma {:induction false} InsertAdds(t: Tree, depth: nat, key: Key, value: Value)
    requires depth <= |key| && WellFormed(t, key[..depth]) && t.Branch? && MatchLen(t.prefix, key, depth) == |t.prefix|
    requires depth + |t.prefix| < |key| && key[depth + |t.prefix|] !in t.kids
    ensures Insert(t, depth, key, value) == Branch(t.prefix, t.kids[key[depth + |t.prefix|] := Tip(key, value)])
    ensures Lookup(t, depth, key) == None
  {
    hide WellFormed;
  }

  lemma {:induction false} InsertDescends(t: Tree, depth: nat, key: Key, value: Value)
    requires depth <= |key| && WellFormed(t, key[..depth]) && t.Branch? && MatchLen(t.prefix, key, depth) == |t.prefix|
    requires depth + |t.prefix| < |key| && key[depth + |t.prefix|] in t.kids
    requires WellFormed(t.kids[key[depth + |t.prefix|]], key[..depth + |t.prefix| + 1])
    ensures var e := depth + |t.prefix|;
            Insert(t, depth, key, value) == Branch(t.prefix, t.kids[key[e] := Insert(t.kids[key[e]], e + 1, key,
                  value)])
    ensures Lookup(t, depth, key) == Lookup(t.kids[key[depth + |t.prefix|]], depth + |t.prefix| + 1, key)
  {
    hide WellFormed, MatchLen, Split, Expand, LeastByte, Minimum;
    WholePrefix(t, depth, key);
  }

  lemma {:induction false} DivergeBelow(a: Key, b: Key, depth: nat)
    requires a != b && depth <= |b| && b[..depth] <= a
    ensures depth <= CommonLen(b, a) < |a| && CommonLen(b, a) < |b|
  {
    KeysDiverge(b, a);
    AgreeAt(b, a, depth);
  }

  /** A well-formed child may be added or replaced. */
  lemma {:induction false} KidWellFormed(t: Tree, path: seq<Byte>, b: Byte, kid: Tree)
    requires t.Branch? && WellFormed(t, path) && WellFormed(kid, path + t.prefix + [b])
    ensures WellFormed(Branch(t.prefix, t.kids[b := kid]), path)
  {
    MapGrow(t.kids, b, kid);
  }

  lemma {:induction false} ExpandWellFormed(t: Tree, depth: nat, key: Key, value: Value)
    requires t.Tip? && t.key != key && depth <= |key| && key[..depth] <= t.key
    ensures WellFormed(Expand(t, depth, key, value), key[..depth])
  {
    DivergeBelow(t.key, key, depth);
    var e := CommonLen(key, t.key);
    assert key[..depth] + key[depth..e] == key[..e];
    assert key[..e] + [key[e]] == key[..e + 1];
    assert t.key[..e] + [t.key[e]] == t.key[..e + 1];
  }

  lemma {:induction false} ExpandLookup(t: Tree, depth: nat, key: Key, value: Value, other: Key)
    requires t.Tip? && t.key != key && depth <= |key| && key[..depth] <= t.key
    ensures Lookup(Expand(t, depth, key, value), depth, other)
            == if other == key then Some(value) else Lookup(t, depth, other)
  {
    DivergeBelow(t.key, key, depth);
    var e := CommonLen(key, t.key);
    assert key[depth..e] == key[..e][depth..] == t.key[..e][depth..] == t.key[depth..e];
  }

  /** The lower part of a cut inner node, reached over the upper part and the byte between. */
  lemma {:induction false} LowerPart(t: Tree, path: seq<Byte>, n: nat)
    requires t.Branch? && n < |t.prefix| && WellFormed(t, path)
    ensures WellFormed(Branch(t.prefix[n + 1..], t.kids), path + t.prefix[..n] + [t.prefix[n]])
  {
    assert path + t.prefix[..n] + [t.prefix[n]] + t.prefix[n + 1..] == path + t.prefix;
  }

  lemma {:induction false} SplitWellFormed(t: Tree, depth: nat, n: nat, key: Key, value: Value)
    requires t.Branch? && n < |t.prefix| && depth + n < |key| && WellFormed(t, key[..depth])
    requires t.prefix[..n] == key[depth..depth + n] && t.prefix[n] != key[depth + n]
    ensures WellFormed(Split(t, depth, n, key, value), key[..depth])
  {
    LowerPart(t, key[..depth], n);
    PathThrough(t.prefix[..n], key, depth);
  }

  /** Cutting a prefix in two at byte n looks up the same keys. */
  lemma {:induction false} SplitLookup(t: Tree, depth: nat, n: nat, key: Key)
    requires t.Branch? && n < |t.prefix|
    ensures Lookup(t, depth, key)
            == if depth + n < |key| && key[depth..depth + n] == t.prefix[..n] && key[depth + n] == t.prefix[n]
               then Lookup(Branch(t.prefix[n + 1..], t.kids), depth + n + 1, key) else None
  {
    var e := depth + |t.prefix|;
    var m := depth + n;
    if e < |key| {
      assert key[depth..e] == key[depth..m] + [key[m]] + key[m + 1..e];
      assert t.prefix == t.prefix[..n] + [t.prefix[n]] + t.prefix[n + 1..];
      if key[depth..e] == t.prefix {
        assert key[depth..m] == key[depth..e][..n] && key[m] == key[depth..e][n]
              && key[m + 1..e] == key[depth..e][n + 1..];
      }
    }
  }

  lemma {:induction false} SplitInsertLookup(t: Tree, depth: nat, n: nat, key: Key, value: Value, other: Key)
    requires t.Branch? && n < |t.prefix| && depth + n < |key|
    requires t.prefix[..n] == key[depth..depth + n] && t.prefix[n] != key[depth + n]
    ensures Lookup(Split(t, depth, n, key, value), depth, other)
            == if other == key then Some(value) else Lookup(t, depth, other)
  {
    SplitLookup(t, depth, n, other);
    SplitLookup(t, depth, n, key);
  }

  lemma {:induction false} PathThrough(prefix: seq<Byte>, key: Key, depth: nat)
    requires depth + |prefix| < |key| && key[depth..depth + |prefix|] == prefix
    ensures key[..depth + |prefix| + 1] == key[..depth] + prefix + [key[depth + |prefix|]]
  {
  }

  lemma {:induction false} InsertAtTipWellFormed(t: Tree, depth: nat, key: Key, value: Value)
    requires depth <= |key| && t.Tip? && WellFormed(t, key[..depth])
    ensures WellFormed(Insert(t, depth, key, value), key[..depth])
  {
    if t.key != key {
      ExpandWellFormed(t, depth, key, value);
    }
  }

  lemma {:induction false} InsertAtTipLookup(t: Tree, depth: nat, key: Key, value: Value, other: Key)
    requires depth <= |key| && t.Tip? && WellFormed(t, key[..depth])
    ensures Lookup(Insert(t, depth, key, value), depth, other)
            == if other == key then Some(value) else Lookup(t, depth, other)
  {
    if t.key != key {
      ExpandLookup(t, depth, key, value, other);
    }
  }

  /** Insertion keeps the path-compression invariant, wherever the keys diverge. */
  lemma {:induction false} InsertWellFormed(t: Tree, depth: nat, key: Key, value: Value)
    requires depth <= |key| && WellFormed(t, key[..depth])
    ensures WellFormed(Insert(t, depth, key, value), key[..depth])
    decreases t
  {
    hide WellFormed, Insert, Split;
    if t.Tip? {
      InsertAtTipWellFormed(t, depth, key, value);
    } else {
      var n := MatchLen(t.prefix, key, depth);
      if n < |t.prefix| {
        InsertSplits(t, depth, key, value);
        SplitWellFormed(t, depth, n, key, value);
      } else {
        WholePrefix(t, depth, key);
        var e := depth + n;
        if key[e] in t.kids {
          InsertDescends(t, depth, key, value);
          InsertWellFormed(t.kids[key[e]], e + 1, key, value);
          KidWellFormed(t, key[..depth], key[e], Insert(t.kids[key[e]], e + 1, key, value));
        } else {
          InsertAdds(t, depth, key, value);
          LeafWellFormed(key, value, key[..e + 1]);
          KidWellFormed(t, key[..depth], key[e], Tip(key, value));
        }
      }
    }
  }

  lemma {:induction false} LeafWellFormed(key: Key, value: Value, path: seq<Byte>)
    requires path <= key
    ensures WellFormed(Tip(key, value), path)
  {
  }

  /** Replacing or adding child b redirects exactly the keys that continue the prefix and b. */
  lemma {:induction false} KidLookup(t: Tree, depth: nat, b: Byte, kid: Tree, key: Key)
    requires t.Branch?
    ensures var e := depth + |t.prefix|;
            Lookup(Branch(t.prefix, t.kids[b := kid]), depth, key)
            == if e < |key| && key[depth..e] == t.prefix && key[e] == b then Lookup(kid, e + 1, key)
               else Lookup(t, depth, key)
  {
  }

  /** If the new child answers as the old one but for `key`, so does the whole node. */
  lemma {:induction false} KidAnswers(t: Tree, depth: nat, key: Key, kid: Tree, other: Key, answer: Option<Value>)
    requires t.Branch? && depth + |t.prefix| < |key| && key[depth..depth + |t.prefix|] == t.prefix
    requires var e := depth + |t.prefix|;
             Lookup(kid, e + 1, other)
             == if other == key then answer else if key[e] in t.kids then Lookup(t.kids[key[e]], e + 1, other) else None
    ensures Lookup(Branch(t.prefix, t.kids[key[depth + |t.prefix|] := kid]), depth, other)
            == if other == key then answer else Lookup(t, depth, other)
  {
    KidLookup(t, depth, key[depth + |t.prefix|], kid, other);
  }

  lemma {:induction false} LeafAnswers(t: Tree, depth: nat, key: Key, value: Value, other: Key)
    requires t.Branch? && depth + |t.prefix| < |key| && key[depth..depth + |t.prefix|] == t.prefix
    requires key[depth + |t.prefix|] !in t.kids
    ensures Lookup(Branch(t.prefix, t.kids[key[depth + |t.prefix|] := Tip(key, value)]), depth, other)
            == if other == key then Some(value) else Lookup(t, depth, other)
  {
    KidAnswers(t, depth, key, Tip(key, value), other, Some(value));
  }

  /** Insertion changes the lookup of its own key and of no other. */
  lemma {:induction false} InsertLookup(t: Tree, depth: nat, key: Key, value: Value, other: Key)
    requires depth <= |key| && WellFormed(t, key[..depth])
    ensures Lookup(Insert(t, depth, key, value), depth, other)
            == if other == key then Some(value) else Lookup(t, depth, other)
    decreases t
  {
    hide WellFormed, Insert, Split, Lookup;
    if t.Tip? {
      InsertAtTipLookup(t, depth, key, value, other);
    } else {
      var n := MatchLen(t.prefix, key, depth);
      if n < |t.prefix| {
        InsertSplits(t, depth, key, value);
        SplitInsertLookup(t, depth, n, key, value, other);
      } else {
        WholePrefix(t, depth, key);
        var e := depth + n;
        if key[e] in t.kids {
          InsertDescends(t, depth, key, value);
          InsertLookup(t.kids[key[e]], e + 1, key, value, other);
          KidAnswers(t, depth, key, Insert(t.kids[key[e]], e + 1, key, value), other, Some(value));
        } else {
          InsertAdds(t, depth, key, value);
          LeafAnswers(t, depth, key, value, other);
        }
      }
    }
  }
}
