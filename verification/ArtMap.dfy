/** The tree object: a root reference and a size, standing for a finite map from keys to values. */
module ArtMap {
  import opened Wrappers
  import opened Bytes
  import opened Radix
  import opened RadixDelete
  import opened RadixOrder
  import opened RadixPrefix
  import opened RadixRuns
  import opened ArtNodes
  import opened ArtTree
  import opened ArtInsert
  import opened ArtDelete
  import opened ArtWalk

  class Art {
    var root: Option<Ref>
    var size: nat

    ghost var contents: map<Key, Value> // the map that the tree stands for
    ghost var repr: set<object>

    ghost predicate Valid()
      reads this, repr
    {
      && this in repr
      && (root.Some? && root.value.Inner? ==>
            root.value.node in repr && root.value.node.repr <= repr && this !in root.value.node.repr)
      && RootValid(root)
      && Models(RootTree(root), contents)
      && size == |contents|
    }

    constructor ()
      ensures Valid() && contents == map[] && fresh(repr)
    {
      root, size := None, 0;
      contents, repr := map[], {this};
    }

    /** The root after an operation whose tree models the new map. */
    ghost method Adopt(m: map<Key, Value>)
      requires RootValid(root) && this !in ReprOfOption(root) && Models(RootTree(root), m) && size == |m|
      modifies this`contents, this`repr
      ensures Valid() && contents == m && repr == {this} + ReprOfOption(root)
    {
      hide Models, RootValid, RootTree, ReprOfOption, Valid;
      RootSelf(root);
      contents := m;
      repr := {this} + ReprOfOption(root);
      Whole();
    }

    /** The parts make up a valid tree object. */
    lemma {:induction false} Whole()
      requires RootValid(root) && this !in ReprOfOption(root) && repr == {this} + ReprOfOption(root)
      requires root.Some? && root.value.Inner? ==> root.value.node in root.value.node.repr
      requires Models(RootTree(root), contents) && size == |contents|
      ensures Valid()
    {
      hide Models, RootValid, RootTree;
    }

    /** The parts of a valid tree object. */
    lemma {:induction false} Parts()
      requires Valid()
      ensures RootValid(root) && Models(RootTree(root), contents) && size == |contents|
      ensures ReprOfOption(root) <= repr && this !in ReprOfOption(root) && this in repr
      ensures root.Some?
              ==> RefValid(root.value) && WellFormed(TreeOf(root.value), [])
                  && RootTree(root) == Some(TreeOf(root.value))
      ensures root.None? ==> RootTree(root) == None && ReprOfOption(root) == {}
    {
      hide Models, Lookup, RefValid, ArtTree.Valid, WellFormed;
    }

    /** Insert below the root; the new root stands for the map with the new binding. */
    method PutRoot(key: Key, value: Value) returns (previous: Option<Value>)
      requires Valid()
      modifies repr
      ensures RootValid(root) && Models(RootTree(root), old(contents)[key := value])
      ensures this !in ReprOfOption(root) && fresh(ReprOfOption(root) - old(repr))
      ensures previous == Get(old(contents), key)
      ensures size == old(size) && contents == old(contents)
    {
      hide Valid, RefValid, ArtTree.Valid, WellFormed, Models, Lookup, Radix.Insert, LookupIn, Get;
      Parts();
      assert key[..0] == [];
      InsertModels(RootTree(root), contents, key, value);
      AnswerOf(RootTree(root), contents, key);
      var r;
      r, previous := InsertAt(root, 0, key, value);
      root := Some(r);
      ModelsWellFormed(RootTree(root), contents[key := value]);
    }

    /** A null key is refused with 1; otherwise the key is bound to the value, replacing any other. */
    method Insert(key: Option<Key>, value: Value) returns (rc: int)
      requires Valid()
      modifies repr
      ensures Valid() && fresh(repr - old(repr))
      ensures rc == if key.None? then 1 else 0
      ensures contents == if key.None? then old(contents) else old(contents)[key.value := value]
    {
      hide Valid, RootValid, RefValid, ArtTree.Valid, WellFormed, Models, LookupIn;
      if key.None? {
        return 1;
      }
      Parts();
      MapGrow(contents, key.value, value);
      var previous := PutRoot(key.value, value);
      if previous.None? {
        size := size + 1;
      }
      Adopt(contents[key.value := value]);
      rc := 0;
    }

    /** Delete below the root; the new root stands for the map without the key. */
    method DropRoot(key: Key) returns (removed: Option<Value>)
      requires Valid()
      modifies repr
      ensures RootValid(root) && Models(RootTree(root), old(contents) - {key})
      ensures this !in ReprOfOption(root) && fresh(ReprOfOption(root) - old(repr))
      ensures removed == Get(old(contents), key)
      ensures size == old(size) && contents == old(contents)
    {
      hide Valid, RefValid, ArtTree.Valid, WellFormed, Models, Lookup, RadixDelete.Delete, Get;
      Parts();
      DeleteModels(RootTree(root), contents, key);
      AnswerOf(RootTree(root), contents, key);
      removed := None;
      if root.Some? {
        root, removed := DeleteAt(root.value, key);
      }
      if root.Some? {
        ModelsWellFormed(RootTree(root), contents - {key});
      }
    }

    /** A null key is refused with 1; a key that is not there is no error. */
    method Delete(key: Option<Key>) returns (rc: int)
      requires Valid()
      modifies repr
      ensures Valid() && fresh(repr - old(repr))
      ensures rc == if key.None? then 1 else 0
      ensures contents == if key.None? then old(contents) else old(contents) - {key.value}
    {
      hide Valid, RootValid, RefValid, ArtTree.Valid, WellFormed, Models, LookupIn;
      if key.None? {
        return 1;
      }
      Parts();
      Without(contents, key.value);
      var removed := DropRoot(key.value);
      if removed.Some? {
        size := size - 1;
      }
      Adopt(contents - {key.value});
      rc := 0;
    }

    method Clear()
      requires Valid()
      modifies this
      ensures Valid() && repr == {this} && contents == map[]
    {
      NothingModels();
      root, size := None, 0;
      Adopt(map[]);
    }

    method Search(key: Option<Key>) returns (value: Option<Value>)
      requires Valid()
      ensures value == if key.Some? && key.value in contents then Some(contents[key.value]) else None
    {
      if key.None? {
        return None;
      }
      AnswerOf(RootTree(root), contents, key.value);
      value := ArtTree.Search(root, key.value);
    }

    method ContainsKey(key: Option<Key>) returns (found: bool)
      requires Valid()
      ensures found == (key.Some? && key.value in contents)
    {
      var value := Search(key);
      found := value.Some?;
    }

    /** -1 for an empty tree or a limit that is not positive, otherwise the first `max` matches in key order. */
    method PrefixSearch(prefix: Option<seq<Byte>>, max: int) returns (count: int, matches: seq<Entry>)
      requires Valid()
      ensures contents == map[] || max <= 0 ==> count == -1
      ensures contents != map[] && max > 0 ==>
                exists all: seq<Entry> :: ListsPrefix(all, contents, prefix.GetOr([]))
                  && count == (if |all| <= max then |all| else max) && matches == all[..count]
    {
      hide Valid, RootValid, RefValid, ArtTree.Valid, WellFormed, Models, Lookup, Matching, EntriesIn;
      Parts();
      Inhabited(RootTree(root), contents);
      MatchingListsMap(RootTree(root), contents, prefix.GetOr([]));
      assert ListsPrefix(Matching(EntriesIn(RootTree(root)), prefix.GetOr([])), contents, prefix.GetOr([]));
      count, matches := ArtWalk.PrefixSearch(root, prefix, max);
    }

    /** The callback gets every binding once, in key order, until it asks to stop. */
    method ForEach<S>(cb: (S, Entry) -> (S, bool), s: S) returns (s': S, stop: bool)
      requires Valid()
      ensures exists es :: ListsMap(es, contents) && |es| == size && (s', stop) == Walk(cb, s, es)
    {
      hide Valid, RootValid, RefValid, WellFormed, Models, RadixOrder.Entries, Sorted;
      Parts();
      WalkListsMap(RootTree(root), contents);
      s', stop := s, false;
      if root.Some? {
        s', stop := Iterate(root.value, cb, s);
      }
      assert ListsMap(EntriesIn(RootTree(root)), contents);
    }

    /** The whole map in key order. */
    method Entries() returns (es: seq<Entry>)
      requires Valid()
      ensures ListsMap(es, contents) && |es| == size
    {
      hide Valid, ListsMap, Walk, Collector;
      var stopped;
      es, stopped := ForEach(Collector(size), []);
      ghost var all :| ListsMap(all, contents) && |all| == size && (es, stopped) == Walk(Collector(size), [], all);
      WalkCollects([], all, size);
      assert [] + all[..|all|] == all;
    }
  }

  /** Every binding of the map once, in key order. */
  ghost predicate ListsMap(entries: seq<Entry>, contents: map<Key, Value>) {
    Sorted(entries) && forall x: Entry :: x in entries <==> x.key in contents && contents[x.key] == x.value
  }

  /** The bindings whose key starts with a prefix, once each and in key order. */
  ghost predicate ListsPrefix(all: seq<Entry>, contents: map<Key, Value>, q: seq<Byte>) {
    Sorted(all) && forall x: Entry :: x in all <==> x.key in contents && contents[x.key] == x.value && q <= x.key
  }

  /** Objects that hold the same map are the same tree, whatever operations built them. */
  lemma {:induction false} SameContentsSameTree(a: Art, b: Art)
    requires a.Valid() && b.Valid() && a.contents == b.contents
    ensures RootTree(a.root) == RootTree(b.root) && a.size == b.size
  {
    hide ArtTree.Valid;
    ModelsCanonical(RootTree(a.root), RootTree(b.root), a.contents);
  }

  lemma {:induction false} RootSelf(root: Option<Ref>)
    requires RootValid(root)
    ensures root.Some? && root.value.Inner?
            ==> root.value.node in root.value.node.repr && ReprOfOption(root) == root.value.node.repr
  {
  }

  lemma {:induction false} ModelsWellFormed(t: Option<Tree>, m: map<Key, Value>)
    requires Models(t, m) && t.Some?
    ensures WellFormed(t.value, [])
  {
  }

  lemma {:induction false} Without(m: map<Key, Value>, k: Key)
    ensures |m - {k}| == |m| - (if k in m then 1 else 0)
  {
    if k in m {
      MapDrop(m, k);
    } else {
      assert m - {k} == m;
    }
  }
}
