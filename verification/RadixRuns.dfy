/** Runs of insertions, deletions and clears from the empty tree, against runs on a finite map. */
module RadixRuns {
  import opened Wrappers
  import opened Bytes
  import opened Radix
  import opened RadixDelete
  import opened RadixOrder

  datatype Op = Put(key: Key, value: Value) | Remove(key: Key) | Clear

  /** A tree and the number kept beside it. */
  datatype State = State(root: Option<Tree>, size: int)

  function InsertRoot(t: Option<Tree>, key: Key, value: Value): Tree
    requires t.Some? ==> WellFormed(t.value, key[..0])
  {
    if t.None? then Tip(key, value) else Insert(t.value, 0, key, value)
  }

  function DeleteRoot(t: Option<Tree>, key: Key): Option<Tree> {
    if t.None? then None else Delete(t.value, 0, key)
  }

  lemma {:induction false} InsertModels(t: Option<Tree>, m: map<Key, Value>, key: Key, value: Value)
    requires Models(t, m)
    ensures t.Some? ==> WellFormed(t.value, key[..0])
    ensures Models(Some(InsertRoot(t, key, value)), m[key := value])
  {
    assert key[..0] == [];
    if t.Some? {
      InsertWellFormed(t.value, 0, key, value);
    }
    var r := Some(InsertRoot(t, key, value));
    forall k: Key ensures LookupIn(r, 0, k) == Get(m[key := value], k) {
      assert LookupIn(t, 0, k) == Get(m, k);
      if t.Some? {
        InsertLookup(t.value, 0, key, value, k);
      }
    }
  }

  lemma {:induction false} DeleteModels(t: Option<Tree>, m: map<Key, Value>, key: Key)
    requires Models(t, m)
    ensures Models(DeleteRoot(t, key), m - {key})
  {
    if t.Some? {
      DeleteWellFormed(t.value, [], key);
    }
    var r := DeleteRoot(t, key);
    forall k: Key ensures LookupIn(r, 0, k) == Get(m - {key}, k) {
      assert LookupIn(t, 0, k) == Get(m, k);
      if t.Some? {
        DeleteLookup(t.value, [], key, k);
      }
    }
  }

  /** One operation on the tree; the size follows the answer of the operation, not the tree. */
  function Step(s: State, op: Op): State
    requires s.root.Some? ==> WellFormed(s.root.value, [])
  {
    match op
    case Put(k, v) =>
      assert k[..0] == [];
      State(Some(InsertRoot(s.root, k, v)), if LookupIn(s.root, 0, k).None? then s.size + 1 else s.size)
    case Remove(k) =>
      State(DeleteRoot(s.root, k), if LookupIn(s.root, 0, k).Some? then s.size - 1 else s.size)
    case Clear => State(None, 0)
  }

  function MapStep(m: map<Key, Value>, op: Op): map<Key, Value> {
    match op
    case Put(k, v) => m[k := v]
    case Remove(k) => m - {k}
    case Clear => map[]
  }

  function MapRun(ops: seq<Op>): map<Key, Value> {
    if ops == [] then map[] else MapStep(MapRun(ops[..|ops| - 1]), ops[|ops| - 1])
  }

  ghost predicate Represents(s: State, m: map<Key, Value>) {
    Models(s.root, m) && s.size == |m|
  }

  lemma {:induction false} StepRepresents(s: State, m: map<Key, Value>, op: Op)
    requires Represents(s, m)
    ensures Represents(Step(s, op), MapStep(m, op))
  {
    hide WellFormed, Models, Lookup;
    match op
    case Put(k, v) =>
      InsertModels(s.root, m, k, v);
      AnswerOf(s.root, m, k);
      MapGrow(m, k, v);
    case Remove(k) =>
      DeleteModels(s.root, m, k);
      AnswerOf(s.root, m, k);
      if k in m {
        MapDrop(m, k);
      } else {
        assert m - {k} == m;
      }
    case Clear =>
      NothingModels();
  }

  lemma {:induction false} AnswerOf(t: Option<Tree>, m: map<Key, Value>, key: Key)
    requires Models(t, m)
    ensures LookupIn(t, 0, key) == Get(m, key)
  {
  }

  lemma {:induction false} NothingModels()
    ensures Models(None, map[])
  {
  }

  /** The state after a run; every run keeps the invariant and follows the finite map. */
  function Run(ops: seq<Op>): (s: State)
    ensures Represents(s, MapRun(ops))
  {
    if ops == [] then State(None, 0)
    else
      var before := Run(ops[..|ops| - 1]);
      StepRepresents(before, MapRun(ops[..|ops| - 1]), ops[|ops| - 1]);
      Step(before, ops[|ops| - 1])
  }

  /** After every run, lookup, the walk and the size are those of the map. */
  lemma {:induction false} RunFollowsMap(ops: seq<Op>, key: Key)
    ensures LookupIn(Run(ops).root, 0, key) == Get(MapRun(ops), key)
    ensures Run(ops).size == |EntriesIn(Run(ops).root)| == |MapRun(ops)|
    ensures Sorted(EntriesIn(Run(ops).root))
  {
    WalkListsMap(Run(ops).root, MapRun(ops));
  }

  /** Runs that end with the same map end with the same tree: prefixes, branch bytes and nesting. */
  lemma {:induction false} RunsCanonical(ops: seq<Op>, ops': seq<Op>)
    requires MapRun(ops) == MapRun(ops')
    ensures Run(ops) == Run(ops')
  {
    ModelsCanonical(Run(ops).root, Run(ops').root, MapRun(ops));
  }

  /** Inserting a fresh key and deleting it restores the state exactly. */
  lemma {:induction false} InsertDeleteRestores(ops: seq<Op>, key: Key, value: Value)
    requires key !in MapRun(ops)
    ensures Run(ops + [Put(key, value), Remove(key)]) == Run(ops)
  {
    var once, twice := ops + [Put(key, value)], ops + [Put(key, value), Remove(key)];
    assert twice[..|twice| - 1] == once && once[..|once| - 1] == ops;
    assert MapRun(twice) == MapRun(once) - {key} == MapRun(ops)[key := value] - {key} == MapRun(ops);
    RunsCanonical(twice, ops);
  }

  /** Insertions of different keys commute. */
  lemma {:induction false} InsertsCommute(ops: seq<Op>, j: Key, v: Value, k: Key, w: Value)
    requires j != k
    ensures Run(ops + [Put(j, v), Put(k, w)]) == Run(ops + [Put(k, w), Put(j, v)])
  {
    var a, b := ops + [Put(j, v), Put(k, w)], ops + [Put(k, w), Put(j, v)];
    assert a[..|a| - 1] == ops + [Put(j, v)] && b[..|b| - 1] == ops + [Put(k, w)];
    assert (ops + [Put(j, v)])[..|ops|] == ops && (ops + [Put(k, w)])[..|ops|] == ops;
    assert MapRun(a) == MapRun(ops)[j := v][k := w] == MapRun(ops)[k := w][j := v] == MapRun(b);
    RunsCanonical(a, b);
  }
}
