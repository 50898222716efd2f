/** The entries of a radix tree in the order of the recursive walk, and the keys under a prefix. */
module RadixOrder {
  import opened Wrappers
  import opened Bytes
  import opened Radix
  import opened RadixDelete
  import opened RadixCanonical

  datatype Entry = Entry(key: Key, value: Value)

  /** The walk: a leaf, or the children of an inner node in increasing branch byte. */
  function Entries(t: Tree): seq<Entry>
    decreases t, 257
  {
    match t
    case Tip(k, v) => [Entry(k, v)]
    case Branch(_, _) => EntriesFrom(t, 0)
  }

  function EntriesFrom(t: Tree, i: nat): seq<Entry>
    requires t.Branch? && i <= 256
    decreases t, 256 - i
  {
    if i == 256 then [] else (if i in t.kids then Entries(t.kids[i]) else []) + EntriesFrom(t, i + 1)
  }

  ghost predicate Sorted(es: seq<Entry>) {
    forall i, j | 0 <= i < j < |es| :: LexLess(es[i].key, es[j].key)
  }

  lemma {:induction false} SortedConcat(a: seq<Entry>, b: seq<Entry>)
    requires Sorted(a) && Sorted(b)
    requires forall x, y | x in a && y in b :: LexLess(x.key, y.key)
    ensures Sorted(a + b)
  {
    var c := a + b;
    forall i, j | 0 <= i < j < |c| ensures LexLess(c[i].key, c[j].key) {
      if i < |a| <= j {
        assert c[i] in a && c[j] in b;
      }
    }
  }

  /** Every entry of the walk below an inner node comes from the child of some branch byte. */
  lemma {:induction false} EntryRoute(t: Tree, i: nat, x: Entry) returns (b: Byte)
    requires t.Branch? && i <= 256 && x in EntriesFrom(t, i)
    ensures i <= b && b in t.kids && x in Entries(t.kids[b])
    decreases 256 - i
  {
    if i in t.kids && x in Entries(t.kids[i]) {
      b := i;
    } else {
      b := EntryRoute(t, i + 1, x);
    }
  }

  lemma {:induction false} KidEntry(t: Tree, i: nat, b: Byte, x: Entry)
    requires t.Branch? && i <= b && b in t.kids && x in Entries(t.kids[b])
    ensures x in EntriesFrom(t, i)
    decreases b - i
  {
    if i < b {
      KidEntry(t, i + 1, b, x);
    }
  }

  lemma {:induction false} EntryOnPath(t: Tree, path: seq<Byte>, x: Entry)
    requires WellFormed(t, path) && x in Entries(t)
    ensures path <= x.key
  {
    if t.Branch? {
      var b := EntryRoute(t, 0, x);
      var next := path + t.prefix + [b];
      EntryOnPath(t.kids[b], next, x);
      assert path <= next;
    }
  }

  /** The walk below an inner node visits keys in strictly increasing order. */
  lemma {:induction false} EntriesFromSorted(t: Tree, path: seq<Byte>, i: nat)
    requires t.Branch? && i <= 256 && WellFormed(t, path)
    ensures Sorted(EntriesFrom(t, i))
    decreases t, 256 - i
  {
    hide WellFormed;
    if i < 256 {
      EntriesFromSorted(t, path, i + 1);
      if i in t.kids {
        KidOnPath(t, path, i);
        EntriesSorted(t.kids[i], path + t.prefix + [i]);
        var here, rest := Entries(t.kids[i]), EntriesFrom(t, i + 1);
        forall x, y | x in here && y in rest ensures LexLess(x.key, y.key) {
          var b := EntryRoute(t, i + 1, y);
          KidOnPath(t, path, b);
          EntryOnPath(t.kids[i], path + t.prefix + [i], x);
          EntryOnPath(t.kids[b], path + t.prefix + [b], y);
          BranchOrder(path + t.prefix, i, b, x.key, y.key);
        }
        SortedConcat(here, rest);
      } else {
        assert EntriesFrom(t, i) == EntriesFrom(t, i + 1);
      }
    }
  }

  /** The walk visits keys in strictly increasing unsigned lexicographic order, so each key once. */
  lemma {:induction false} EntriesSorted(t: Tree, path: seq<Byte>)
    requires WellFormed(t, path)
    ensures Sorted(Entries(t))
    decreases t, 257
  {
    if t.Branch? {
      EntriesFromSorted(t, path, 0);
    }
  }

  lemma {:induction false} EntryIsFound(t: Tree, path: seq<Byte>, x: Entry)
    requires WellFormed(t, path) && x in Entries(t)
    ensures Lookup(t, |path|, x.key) == Some(x.value)
  {
    if t.Branch? {
      var b := EntryRoute(t, 0, x);
      KidOnPath(t, path, b);
      hide WellFormed;
      EntryIsFound(t.kids[b], path + t.prefix + [b], x);
      LookupThrough(t, path, x.key, b);
    }
  }

  lemma {:induction false} FoundIsEntry(t: Tree, depth: nat, x: Entry)
    requires Lookup(t, depth, x.key) == Some(x.value)
    ensures x in Entries(t)
  {
    if t.Branch? {
      FoundFollows(t, depth, x.key);
      var b := x.key[depth + |t.prefix|];
      FoundIsEntry(t.kids[b], depth + |t.prefix| + 1, x);
      KidEntry(t, 0, b, x);
    }
  }

  /** The walk visits exactly what lookup finds. */
  lemma {:induction false} EntriesExact(t: Tree, path: seq<Byte>, x: Entry)
    requires WellFormed(t, path)
    ensures x in Entries(t) <==> Lookup(t, |path|, x.key) == Some(x.value)
  {
    hide WellFormed, Lookup, Entries;
    if x in Entries(t) {
      EntryIsFound(t, path, x);
    } else if Lookup(t, |path|, x.key) == Some(x.value) {
      FoundIsEntry(t, |path|, x);
    }
  }

  // ----- as a finite map -----

  function Get(m: map<Key, Value>, k: Key): Option<Value> {
    if k in m then Some(m[k]) else None
  }

  /** The tree at the root answers every lookup as the map does. */
  ghost predicate Models(t: Option<Tree>, m: map<Key, Value>) {
    && (t.Some? ==> WellFormed(t.value, []))
    && forall k: Key :: LookupIn(t, 0, k) == Get(m, k)
  }

  function EntriesIn(t: Option<Tree>): seq<Entry> {
    if t.None? then [] else Entries(t.value)
  }

  function KeysOf(es: seq<Entry>): set<Key> {
    set x | x in es :: x.key
  }

  lemma {:induction false} SortedCount(es: seq<Entry>)
    requires Sorted(es)
    ensures |KeysOf(es)| == |es|
  {
    if es != [] {
      var n := |es| - 1;
      var front, last := es[..n], es[n].key;
      SortedCount(front);
      assert es == front + [es[n]];
      assert KeysOf(es) == KeysOf(front) + {last};
      assert last !in KeysOf(front) by {
        LexIrreflexive(last);
      }
    }
  }

  /** The walk lists the map: every binding once, in key order, and nothing else. */
  lemma {:induction false} WalkListsMap(t: Option<Tree>, m: map<Key, Value>)
    requires Models(t, m)
    ensures Sorted(EntriesIn(t))
    ensures forall x: Entry :: x in EntriesIn(t) <==> x.key in m && m[x.key] == x.value
    ensures |EntriesIn(t)| == |m|
  {
    var es := EntriesIn(t);
    if t.Some? {
      EntriesSorted(t.value, []);
    }
    forall x: Entry ensures x in es <==> x.key in m && m[x.key] == x.value {
      assert LookupIn(t, 0, x.key) == Get(m, x.key);
      if t.Some? {
        EntriesExact(t.value, [], x);
      }
    }
    SortedCount(es);
    assert KeysOf(es) == m.Keys by {
      forall k | k in m ensures k in KeysOf(es) {
        assert Entry(k, m[k]) in es;
      }
    }
    assert |m.Keys| == |m|;
  }

  lemma {:induction false} Inhabited(t: Option<Tree>, m: map<Key, Value>)
    requires Models(t, m)
    ensures t.Some? <==> m != map[]
  {
    if m != map[] {
      var k :| k in m;
      assert LookupIn(t, 0, k) == Get(m, k) == Some(m[k]);
    }
    if t.Some? {
      MinimumOnPath(t.value, []);
      assert Get(m, Minimum(t.value).key) == LookupIn(t, 0, Minimum(t.value).key);
    }
  }

  /** Two trees that model one map are equal. */
  lemma {:induction false} ModelsCanonical(s: Option<Tree>, t: Option<Tree>, m: map<Key, Value>)
    requires Models(s, m) && Models(t, m)
    ensures s == t
  {
    Inhabited(s, m);
    Inhabited(t, m);
    if s.Some? {
      forall k: Key ensures Lookup(s.value, 0, k) == Lookup(t.value, 0, k) {
        assert LookupIn(s, 0, k) == LookupIn(t, 0, k);
      }
      Canonical(s.value, t.value, []);
    }
  }
}
