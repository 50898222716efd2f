/**
 The path-compressed radix tree is canonical: what it maps determines its prefixes, its branch
 bytes and its nesting.
 */
module RadixCanonical {
  import opened Bytes
  import opened Radix

  /** Some key below child b of an inner node. */
  lemma {:induction false} KidWitness(t: Tree, path: seq<Byte>, b: Byte) returns (key: Key)
    requires t.Branch? && WellFormed(t, path) && b in t.kids
    ensures path + t.prefix + [b] <= key
    ensures Lookup(t, |path|, key).Some? && Lookup(t, |path|, key) == Lookup(t.kids[b], |path| + |t.prefix| + 1, key)
  {
    var next := path + t.prefix + [b];
    MinimumOnPath(t.kids[b], next);
    key := Minimum(t.kids[b]).key;
    LookupThrough(t, path, key, b);
  }

  lemma {:induction false} TwoKids(t: Tree) returns (b: Byte, c: Byte)
    requires t.Branch? && |t.kids| >= 2
    ensures b in t.kids && c in t.kids && b != c
  {
    assert |t.kids.Keys| == |t.kids|;
    b :| b in t.kids.Keys;
    assert |t.kids.Keys - {b}| == |t.kids.Keys| - 1;
    c :| c in t.kids.Keys - {b};
  }

  ghost predicate SameLookups(s: Tree, t: Tree, depth: nat) {
    forall k: Key :: Lookup(s, depth, k) == Lookup(t, depth, k)
  }

  /** A key found below an inner node repeats its prefix and has a byte after it. */
  lemma {:induction false} FoundFollows(t: Tree, depth: nat, k: Key)
    requires t.Branch? && Lookup(t, depth, k).Some?
    ensures depth + |t.prefix| < |k| && k[depth + |t.prefix|] in t.kids
    ensures forall i | depth <= i < depth + |t.prefix| :: k[i] == t.prefix[i - depth]
  {
    var part := k[depth..depth + |t.prefix|];
    assert part == t.prefix;
    assert forall i | depth <= i < depth + |t.prefix| :: k[i] == part[i - depth];
  }

  /** Two keys below an inner node that branch right after its prefix. */
  lemma {:induction false} BranchingKeys(t: Tree, path: seq<Byte>) returns (j: Key, k: Key)
    requires t.Branch? && WellFormed(t, path)
    ensures Lookup(t, |path|, j).Some? && Lookup(t, |path|, k).Some?
    ensures var e := |path| + |t.prefix|; e < |j| && e < |k| && j[e] != k[e]
  {
    var b, c := TwoKids(t);
    j := KidWitness(t, path, b);
    k := KidWitness(t, path, c);
    var x, y := path + t.prefix + [b], path + t.prefix + [c];
    var e := |path| + |t.prefix|;
    assert j[e] == x[e] && k[e] == y[e];
  }

  /** The prefix of an inner node is as long as the keys below agree, so no tree with those keys has a longer one. */
  lemma {:induction false} PrefixNotLonger(s: Tree, t: Tree, path: seq<Byte>)
    requires s.Branch? && WellFormed(s, path) && SameLookups(s, t, |path|)
    ensures t.Branch? && |t.prefix| <= |s.prefix|
    ensures |t.prefix| == |s.prefix| ==> t.prefix == s.prefix
  {
    var j, k := BranchingKeys(s, path);
    assert Lookup(t, |path|, j).Some? && Lookup(t, |path|, k).Some?;
    FoundFollows(s, |path|, j);
    FoundFollows(t, |path|, j);
    FoundFollows(t, |path|, k);
    if |t.prefix| == |s.prefix| {
      var part := j[|path|..|path| + |t.prefix|];
      assert part == t.prefix && part == s.prefix;
    }
  }

  lemma {:induction false} SameKidLookup(s: Tree, t: Tree, path: seq<Byte>, b: Byte, k: Key)
    requires s.Branch? && t.Branch? && WellFormed(s, path)
    requires s.prefix == t.prefix && b in s.kids && b in t.kids && Lookup(s, |path|, k) == Lookup(t, |path|, k)
    requires Lookup(s.kids[b], |path| + |s.prefix| + 1, k).Some?
    ensures Lookup(t.kids[b], |path| + |s.prefix| + 1, k) == Lookup(s.kids[b], |path| + |s.prefix| + 1, k)
  {
    LookupThrough(s, path, k, b);
    var next := path + s.prefix + [b];
    assert k[|path| + |s.prefix|] == next[|path| + |s.prefix|];
  }

  lemma {:induction false} EqualKidLookup(s: Tree, t: Tree, path: seq<Byte>, b: Byte, k: Key)
    requires s.Branch? && t.Branch? && WellFormed(s, path) && WellFormed(t, path)
    requires s.prefix == t.prefix && b in s.kids && b in t.kids && SameLookups(s, t, |path|)
    ensures Lookup(s.kids[b], |path| + |s.prefix| + 1, k) == Lookup(t.kids[b], |path| + |s.prefix| + 1, k)
  {
    assert Lookup(s, |path|, k) == Lookup(t, |path|, k);
    if Lookup(s.kids[b], |path| + |s.prefix| + 1, k).Some? {
      SameKidLookup(s, t, path, b, k);
    } else if Lookup(t.kids[b], |path| + |s.prefix| + 1, k).Some? {
      SameKidLookup(t, s, path, b, k);
    }
  }

  lemma {:induction false} KidPresent(s: Tree, t: Tree, path: seq<Byte>, b: Byte)
    requires s.Branch? && t.Branch? && WellFormed(s, path)
    requires s.prefix == t.prefix && SameLookups(s, t, |path|) && b in s.kids
    ensures b in t.kids
  {
    var j := KidWitness(s, path, b);
    assert Lookup(t, |path|, j).Some?;
    FoundFollows(t, |path|, j);
    var next := path + s.prefix + [b];
    assert j[|path| + |s.prefix|] == next[|path| + |s.prefix|];
  }

  lemma {:induction false} SameKids(s: Tree, t: Tree, path: seq<Byte>, b: Byte)
    requires s.Branch? && t.Branch? && WellFormed(s, path) && WellFormed(t, path)
    requires s.prefix == t.prefix && SameLookups(s, t, |path|) && b in s.kids
    ensures b in t.kids && SameLookups(s.kids[b], t.kids[b], |path| + |s.prefix| + 1)
  {
    KidPresent(s, t, path, b);
    var x, y, f := s.kids[b], t.kids[b], |path| + |s.prefix| + 1;
    forall k: Key ensures Lookup(x, f, k) == Lookup(y, f, k) {
      EqualKidLookup(s, t, path, b, k);
    }
  }

  /** The tree is determined by what it maps: equal lookups, equal prefixes, branch bytes and nesting. */
  lemma {:induction false} Canonical(s: Tree, t: Tree, path: seq<Byte>)
    requires WellFormed(s, path) && WellFormed(t, path) && SameLookups(s, t, |path|)
    ensures s == t
  {
    if s.Branch? {
      PrefixNotLonger(s, t, path);
      PrefixNotLonger(t, s, path);
      forall b | b in s.kids ensures b in t.kids && s.kids[b] == t.kids[b] {
        SameKids(s, t, path, b);
        Canonical(s.kids[b], t.kids[b], path + s.prefix + [b]);
      }
      forall b | b in t.kids ensures b in s.kids {
        SameKids(t, s, path, b);
      }
      assert s.kids.Keys == t.kids.Keys;
      assert s.kids == t.kids;
    } else if t.Branch? {
      PrefixNotLonger(t, s, path);
    } else {
      assert Lookup(s, |path|, s.key) == Lookup(t, |path|, s.key);
    }
  }
}
