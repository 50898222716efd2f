/**
 Deletion from the path-compressed radix tree: an inner node left with one child is merged with it.
 A deletion keeps the path-compression invariant and changes the answer for its own key alone.
 */
module RadixDelete {
  import opened Wrappers
  import opened Bytes
  import opened Radix

  /** An inner node that lost a child: with one child left it is merged with that child. */
  function Shrink(prefix: seq<Byte>, kids: map<Byte, Tree>): (r: Tree) {
    if |kids| != 1 then Branch(prefix, kids)
    else
      assert |kids.Keys| == |kids|;
      var b := LeastByte(kids);
      match kids[b]
      case Tip(_, _) => kids[b]
      case Branch(below, grandkids) => Branch(prefix + [b] + below, grandkids)
  }

  function Delete(t: Tree, depth: nat, key: Key): (r: Option<Tree>)
    ensures t.Branch? ==> r.Some?
  {
    match t
    case Tip(k, _) => if k == key then None else Some(t)
    case Branch(prefix, kids) =>
      var e := depth + |prefix|;
      if Follows(t, depth, key) then
        match kids[key[e]]
        case Tip(k, _) => Some(if k == key then Shrink(prefix, kids - {key[e]}) else t)
        case Branch(_, _) => Some(Branch(prefix, kids[key[e] := Delete(kids[key[e]], e + 1, key).value]))
      else Some(t)
  }

  lemma {:induction false} LoneKid(kids: map<Byte, Tree>)
    requires |kids| == 1
    ensures kids.Keys != {} && forall c | c in kids :: c == LeastByte(kids)
  {
    assert |kids.Keys| == |kids|;
    var b := LeastByte(kids);
    assert |kids.Keys - {b}| == 0;
    assert forall c | c in kids :: c == b || c in kids.Keys - {b};
  }

  /** Merging an inner node with its child at byte b keeps every path below. */
  lemma {:induction false} MergeWellFormed(path: seq<Byte>, prefix: seq<Byte>, b: Byte, kid: Tree)
    requires WellFormed(kid, path + prefix + [b])
    ensures WellFormed(if kid.Tip? then kid else Branch(prefix + [b] + kid.prefix, kid.kids), path)
  {
    var next := path + prefix + [b];
    if kid.Branch? {
      assert next + kid.prefix == path + (prefix + [b] + kid.prefix);
    } else {
      assert path <= next;
    }
  }

  /** Dropping one of at least two children, then merging if one is left, keeps the invariant. */
  lemma {:induction false} ShrinkWellFormed(t: Tree, path: seq<Byte>, b: Byte)
    requires t.Branch? && WellFormed(t, path) && b in t.kids
    ensures WellFormed(Shrink(t.prefix, t.kids - {b}), path)
  {
    var rest := t.kids - {b};
    MapDrop(t.kids, b);
    if |rest| == 1 {
      LoneKid(rest);
      var c := LeastByte(rest);
      MergeWellFormed(path, t.prefix, c, t.kids[c]);
    }
  }

  lemma {:induction false} MergeLookup(path: seq<Byte>, prefix: seq<Byte>, b: Byte, kid: Tree, key: Key)
    requires WellFormed(kid, path + prefix + [b])
    ensures Lookup(if kid.Tip? then kid else Branch(prefix + [b] + kid.prefix, kid.kids), |path|, key)
            == if |path| + |prefix| < |key| && key[|path|..|path| + |prefix|] == prefix && key[|path| + |prefix|] == b
               then Lookup(kid, |path| + |prefix| + 1, key) else None
  {
    if kid.Branch? {
      var merged := Branch(prefix + [b] + kid.prefix, kid.kids);
      SplitLookup(merged, |path|, |prefix|, key);
      assert merged.prefix[..|prefix|] == prefix;
      assert merged.prefix[|prefix| + 1..] == kid.prefix;
    } else {
      var next := path + prefix + [b];
      assert kid.key[|path|..|path| + |prefix|] == next[|path|..|path| + |prefix|] == prefix;
      assert kid.key[|path| + |prefix|] == next[|path| + |prefix|];
    }
  }

  lemma {:induction false} ShrinkLookup(t: Tree, path: seq<Byte>, b: Byte, key: Key)
    requires t.Branch? && WellFormed(t, path) && b in t.kids
    ensures Lookup(Shrink(t.prefix, t.kids - {b}), |path|, key)
            == Lookup(Branch(t.prefix, t.kids - {b}), |path|, key)
  {
    hide WellFormed;
    var rest := t.kids - {b};
    if |rest| == 1 {
      LoneKid(rest);
      var c := LeastByte(rest);
      KidOnPath(t, path, c);
      MergeLookup(path, t.prefix, c, t.kids[c], key);
    }
  }

  /** Deletion keeps the path-compression invariant, including when a node merges with its last child. */
  lemma {:induction false} DeleteWellFormed(t: Tree, path: seq<Byte>, key: Key)
    requires WellFormed(t, path)
    ensures Delete(t, |path|, key).Some? ==> WellFormed(Delete(t, |path|, key).value, path)
  {
    if t.Branch? {
      var e := |path| + |t.prefix|;
      if Follows(t, |path|, key) {
        var b := key[e];
        if t.kids[b].Tip? {
          ShrinkWellFormed(t, path, b);
        } else {
          DeleteWellFormed(t.kids[b], path + t.prefix + [b], key);
          KidWellFormed(t, path, b, Delete(t.kids[b], e + 1, key).value);
        }
      }
    }
  }

  /** Removing child b hides exactly the keys that continue the prefix and b. */
  lemma {:induction false} WithoutKidLookup(t: Tree, depth: nat, b: Byte, key: Key)
    requires t.Branch?
    ensures Lookup(Branch(t.prefix, t.kids - {b}), depth, key)
            == if Follows(t, depth, key) && key[depth + |t.prefix|] == b then None else Lookup(t, depth, key)
  {
  }

  lemma {:induction false} DropLookup(t: Tree, depth: nat, b: Byte, other: Key)
    requires t.Branch? && b in t.kids && t.kids[b].Tip? && Follows(t, depth, t.kids[b].key)
    requires b == t.kids[b].key[depth + |t.prefix|]
    ensures Lookup(Branch(t.prefix, t.kids - {b}), depth, other)
            == if other == t.kids[b].key then None else Lookup(t, depth, other)
  {
    WithoutKidLookup(t, depth, b, other);
  }

  /** What a lookup finds after an operation that may leave no tree. */
  function LookupIn(t: Option<Tree>, depth: nat, key: Key): Option<Value> {
    if t.None? then None else Lookup(t.value, depth, key)
  }

  lemma {:induction false} DeleteLeafLookup(t: Tree, path: seq<Byte>, key: Key, other: Key)
    requires t.Branch? && WellFormed(t, path) && Follows(t, |path|, key) && t.kids[key[|path| + |t.prefix|]].Tip?
    ensures LookupIn(Delete(t, |path|, key), |path|, other)
            == if other == key then None else Lookup(t, |path|, other)
  {
    hide WellFormed, Shrink;
    var b := key[|path| + |t.prefix|];
    if t.kids[b].key == key {
      ShrinkLookup(t, path, b, other);
      DropLookup(t, |path|, b, other);
    } else {
      assert Lookup(t, |path|, key) == Lookup(t.kids[b], |path| + |t.prefix| + 1, key) == None;
    }
  }

  /** Deletion forgets its own key and changes the lookup of no other. */
  lemma {:induction false} DeleteLookup(t: Tree, path: seq<Byte>, key: Key, other: Key)
    requires WellFormed(t, path)
    ensures LookupIn(Delete(t, |path|, key), |path|, other)
            == if other == key then None else Lookup(t, |path|, other)
  {
    hide WellFormed;
    if t.Branch? && Follows(t, |path|, key) {
      var e := |path| + |t.prefix|;
      var b := key[e];
      KidOnPath(t, path, b);
      if t.kids[b].Branch? {
        DeleteLookup(t.kids[b], path + t.prefix + [b], key, other);
        KidAnswers(t, |path|, key, Delete(t.kids[b], e + 1, key).value, other, None);
      } else {
        DeleteLeafLookup(t, path, key, other);
      }
    }
  }

  /** Deleting a key that is not there gives back the tree itself. */
  lemma {:induction false} DeleteAbsent(t: Tree, depth: nat, key: Key)
    requires Lookup(t, depth, key).None?
    ensures Delete(t, depth, key) == Some(t)
  {
    if t.Branch? {
      var e := depth + |t.prefix|;
      if Follows(t, depth, key) {
        DeleteAbsent(t.kids[key[e]], e + 1, key);
        assert t.kids[key[e] := t.kids[key[e]]] == t.kids;
      }
    }
  }

  // The ways a deletion goes on from an inner node.

  lemma {:induction false} DeleteDrops(t: Tree, depth: nat, key: Key)
    requires t.Branch? && Lookup(t, depth, key).Some?
    requires depth + |t.prefix| < |key| && key[depth + |t.prefix|] in t.kids && t.kids[key[depth + |t.prefix|]].Tip?
    ensures Delete(t, depth, key) == Some(Shrink(t.prefix, t.kids - {key[depth + |t.prefix|]}))
  {
    hide Shrink;
  }

  /** Going down without comparing the whole prefix deletes the same. */
  lemma {:induction false} DeleteDescends(t: Tree, depth: nat, key: Key)
    requires t.Branch? && depth + |t.prefix| < |key| && key[depth + |t.prefix|] in t.kids
    requires t.kids[key[depth + |t.prefix|]].Branch?
    requires Lookup(t, depth, key) == Lookup(t.kids[key[depth + |t.prefix|]], depth + |t.prefix| + 1, key)
    ensures var e := depth + |t.prefix|;
            Delete(t, depth, key) == Some(Branch(t.prefix, t.kids[key[e] := Delete(t.kids[key[e]], e + 1, key).value]))
  {
    var e := depth + |t.prefix|;
    if !Follows(t, depth, key) {
      DeleteAbsent(t.kids[key[e]], e + 1, key);
      assert t.kids[key[e] := t.kids[key[e]]] == t.kids;
    }
  }
}
