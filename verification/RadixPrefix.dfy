/** Which entries start with a given prefix, and what one descent step keeps of them. */
module RadixPrefix {
  import opened Wrappers
  import opened Bytes
  import opened Radix
  import opened RadixOrder

  /** The entries whose key starts with `q`, in order. */
  function Matching(es: seq<Entry>, q: seq<Byte>): seq<Entry> {
    if es == [] then []
    else (if q <= es[0].key then [es[0]] else []) + Matching(es[1..], q)
  }

  lemma {:induction false} MatchingConcat(a: seq<Entry>, b: seq<Entry>, q: seq<Byte>)
    ensures Matching(a + b, q) == Matching(a, q) + Matching(b, q)
  {
    if a == [] {
      assert a + b == b;
    } else {
      assert (a + b)[1..] == a[1..] + b;
      MatchingConcat(a[1..], b, q);
    }
  }

  lemma {:induction false} MatchingAll(es: seq<Entry>, q: seq<Byte>)
    requires forall x | x in es :: q <= x.key
    ensures Matching(es, q) == es
  {
    if es != [] {
      MatchingAll(es[1..], q);
    }
  }

  lemma {:induction false} MatchingNone(es: seq<Entry>, q: seq<Byte>)
    requires forall x | x in es :: !(q <= x.key)
    ensures Matching(es, q) == []
  {
    if es != [] {
      MatchingNone(es[1..], q);
    }
  }

  lemma {:induction false} MatchingExact(es: seq<Entry>, q: seq<Byte>, x: Entry)
    ensures x in Matching(es, q) <==> x in es && q <= x.key
  {
    if es != [] {
      MatchingExact(es[1..], q, x);
    }
  }

  lemma {:induction false} MatchingSorted(es: seq<Entry>, q: seq<Byte>)
    requires Sorted(es)
    ensures Sorted(Matching(es, q))
  {
    if es != [] {
      var rest := Matching(es[1..], q);
      MatchingSorted(es[1..], q);
      forall y | y in rest ensures LexLess(es[0].key, y.key) {
        MatchingExact(es[1..], q, y);
      }
      SortedConcat(if q <= es[0].key then [es[0]] else [], rest);
    }
  }

  /** The bindings of the map whose key starts with `q`, once each and in key order. */
  lemma {:induction false} MatchingListsMap(t: Option<Tree>, m: map<Key, Value>, q: seq<Byte>)
    requires Models(t, m)
    ensures Sorted(Matching(EntriesIn(t), q))
    ensures forall x: Entry :: x in Matching(EntriesIn(t), q) <==> x.key in m && m[x.key] == x.value && q <= x.key
  {
    WalkListsMap(t, m);
    MatchingSorted(EntriesIn(t), q);
    forall x: Entry ensures x in Matching(EntriesIn(t), q) <==> x.key in m && m[x.key] == x.value && q <= x.key {
      MatchingExact(EntriesIn(t), q, x);
    }
  }

  // ----- one step of the descent -----

  lemma {:induction false} EntryThrough(t: Tree, path: seq<Byte>, x: Entry)
    requires t.Branch? && WellFormed(t, path) && x in Entries(t)
    ensures path + t.prefix <= x.key
  {
    var b := EntryRoute(t, 0, x);
    EntryOnPath(t.kids[b], path + t.prefix + [b], x);
    assert path + t.prefix <= path + t.prefix + [b];
  }

  /** One byte of disagreement with the path or the compressed prefix rules out the whole subtree. */
  lemma {:induction false} PrefixMismatch(t: Tree, path: seq<Byte>, q: seq<Byte>, i: nat)
    requires t.Branch? && WellFormed(t, path)
    requires i < |path + t.prefix| && i < |q| && q[i] != (path + t.prefix)[i]
    ensures Matching(Entries(t), q) == []
  {
    forall x | x in Entries(t) ensures !(q <= x.key) {
      EntryThrough(t, path, x);
      assert x.key[i] == (path + t.prefix)[i];
    }
    MatchingNone(Entries(t), q);
  }

  /** Once the prefix ends inside the compressed prefix, one leaf decides for the whole subtree. */
  lemma {:induction false} PrefixDecidedByMinimum(t: Tree, path: seq<Byte>, q: seq<Byte>)
    requires t.Branch? && WellFormed(t, path) && |q| <= |path| + |t.prefix|
    ensures Minimum(t).Tip?
    ensures Matching(Entries(t), q) == if q <= Minimum(t).key then Entries(t) else []
  {
    MinimumOnPath(t, path);
    var whole := path + t.prefix;
    assert q <= Minimum(t).key <==> q <= whole;
    forall x | x in Entries(t) ensures q <= x.key <==> q <= whole {
      EntryThrough(t, path, x);
    }
    if q <= whole {
      MatchingAll(Entries(t), q);
    } else {
      MatchingNone(Entries(t), q);
    }
  }

  lemma {:induction false} OtherKid(t: Tree, path: seq<Byte>, q: seq<Byte>, b: Byte)
    requires t.Branch? && WellFormed(t, path) && |path| + |t.prefix| < |q| && b in t.kids
    requires q[|path| + |t.prefix|] != b
    ensures Matching(Entries(t.kids[b]), q) == []
  {
    var next := path + t.prefix + [b];
    forall x | x in Entries(t.kids[b]) ensures !(q <= x.key) {
      EntryOnPath(t.kids[b], next, x);
      assert x.key[|path| + |t.prefix|] == next[|path| + |t.prefix|];
    }
    MatchingNone(Entries(t.kids[b]), q);
  }

  lemma {:induction false} PrefixDescendFrom(t: Tree, path: seq<Byte>, q: seq<Byte>, i: nat)
    requires t.Branch? && i <= 256 && WellFormed(t, path) && |path| + |t.prefix| < |q|
    ensures var b := q[|path| + |t.prefix|];
            Matching(EntriesFrom(t, i), q) == if b in t.kids && i <= b then Matching(Entries(t.kids[b]), q) else []
    decreases 256 - i
  {
    hide WellFormed;
    if i < 256 {
      PrefixDescendFrom(t, path, q, i + 1);
      if i in t.kids {
        MatchingConcat(Entries(t.kids[i]), EntriesFrom(t, i + 1), q);
        if i != q[|path| + |t.prefix|] {
          OtherKid(t, path, q, i);
        }
      } else {
        assert EntriesFrom(t, i) == EntriesFrom(t, i + 1);
      }
    }
  }

  /** A longer prefix matches only below the child its next byte names, even when skipped bytes disagree. */
  lemma {:induction false} PrefixDescend(t: Tree, path: seq<Byte>, q: seq<Byte>)
    requires t.Branch? && WellFormed(t, path) && |path| + |t.prefix| < |q|
    ensures var b := q[|path| + |t.prefix|];
            Matching(Entries(t), q) == if b in t.kids then Matching(Entries(t.kids[b]), q) else []
  {
    PrefixDescendFrom(t, path, q, 0);
  }
}
