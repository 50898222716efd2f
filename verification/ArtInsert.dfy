/** Insertion in place, against insertion in the radix tree. */
module ArtInsert {
  import opened Wrappers
  import opened Bytes
  import opened Radix
  import opened RadixDelete
  import opened ArtLayout
  import opened ArtNodes
  import opened ArtTree

  /** A new Node4 over a leaf and another child. */
  method Fork(prefixLen: nat, buffer: seq<Byte>, ch: Byte, leaf: Ref, other: Byte, below: Ref, ghost prefix: seq<Byte>)
    returns (n: Node)
    requires leaf.Leaf? && RefValid(below) && ch != other && HeaderOf(prefixLen, buffer, prefix)
    ensures Valid(n) && n.tree == Branch(prefix, Pair(ch, TreeOf(leaf), other, TreeOf(below)))
    ensures n.repr == {n, n.keys, n.children} + ReprOf(below)
    ensures fresh({n, n.keys, n.children})
  {
    hide Node.Ok, Valid, HeaderOf, Forked;
    n := NewFork(prefixLen, buffer, ch, leaf, other, below, prefix);
    ForkValid(n, ch, leaf, other, below);
  }

  method NewFork(prefixLen: nat, buffer: seq<Byte>, ch: Byte, leaf: Ref, other: Byte, below: Ref,
        ghost prefix: seq<Byte>)
    returns (n: Node)
    requires leaf.Leaf? && RefValid(below) && ch != other && HeaderOf(prefixLen, buffer, prefix)
    ensures n.Ok() && HeaderOf(n.prefixLen, n.prefix, prefix) && Forked(n, ch, leaf, other, below)
    ensures n.tree == Branch(prefix, Pair(ch, TreeOf(leaf), other, TreeOf(below)))
    ensures n.repr == {n, n.keys, n.children} + ReprOf(below)
    ensures fresh({n, n.keys, n.children})
  {
    assert |buffer| == MAX_PREFIX_LEN;
    hide Node.Ok, Valid, HeaderOf, Forked;
    ghost var objects := ReprOf(below);
    n := NewPair(prefixLen, buffer, ch, leaf, other, below);
    n.SetView(Branch(prefix, Pair(ch, TreeOf(leaf), other, TreeOf(below))), {n, n.keys, n.children} + objects);
    IsForked(n, ch, leaf, other, below, prefix);
  }

  /** The shape that `Fork` gives its new node. */
  ghost predicate Forked(n: Node, ch: Byte, leaf: Ref, other: Byte, below: Ref)
    reads n, if below.Inner? then {below.node} else {}
  {
    && leaf.Leaf? && ch != other && n.kind == Node4 && n.kids == Pair(ch, leaf, other, below)
    && n.tree.Branch? && n.tree.kids == Pair(ch, TreeOf(leaf), other, TreeOf(below))
    && n.repr == {n, n.keys, n.children} + ReprOf(below)
    && n !in ReprOf(below) && n.keys !in ReprOf(below) && n.children !in ReprOf(below)
  }

  lemma {:induction false} IsForked(n: Node, ch: Byte, leaf: Ref, other: Byte, below: Ref, prefix: seq<Byte>)
    requires leaf.Leaf? && ch != other && n.kind == Node4 && n.kids == Pair(ch, leaf, other, below)
    requires n.tree == Branch(prefix, Pair(ch, TreeOf(leaf), other, TreeOf(below)))
    requires n.repr == {n, n.keys, n.children} + ReprOf(below)
    requires n !in ReprOf(below) && n.keys !in ReprOf(below) && n.children !in ReprOf(below)
    ensures Forked(n, ch, leaf, other, below)
  {
  }

  lemma {:induction false} ForkedKids(n: Node, ch: Byte, leaf: Ref, other: Byte, below: Ref)
    requires Forked(n, ch, leaf, other, below) && RefValid(below)
    ensures KidsOk(n.kids, n.tree.kids, n.repr - SelfOf(n))
  {
    hide Valid, KidsOk, Separate, EachOk;
    hide Pair;
    NoKids({});
    KidsPut(map[], map[], {}, ch, leaf);
    KidsPut(map[ch := leaf], map[ch := TreeOf(leaf)], {}, other, below);
    PairBuilt(ch, leaf, other, below);
    PairBuilt(ch, TreeOf(leaf), other, TreeOf(below));
    assert n.repr - SelfOf(n) == {} + ReprOf(below);
  }

  lemma {:induction false} PairBuilt<T>(a: Byte, x: T, b: Byte, y: T)
    requires a != b
    ensures var one: map<Byte, T> := map[a := x]; Pair(a, x, b, y) == one[b := y]
  {
  }

  lemma {:induction false} ForkValid(n: Node, ch: Byte, leaf: Ref, other: Byte, below: Ref)
    requires Forked(n, ch, leaf, other, below) && RefValid(below)
    requires n.Ok() && HeaderOf(n.prefixLen, n.prefix, n.tree.prefix)
    ensures Valid(n)
  {
    hide Node.Ok, HeaderOf, KidsOk;
    ForkedKids(n, ch, leaf, other, below);
  }

  method NewPair(prefixLen: nat, buffer: seq<Byte>, ch: Byte, leaf: Ref, other: Byte, below: Ref) returns (n: Node)
    requires |buffer| == MAX_PREFIX_LEN && ch != other
    ensures n.Ok() && n.kind == Node4 && n.kids == Pair(ch, leaf, other, below)
    ensures n.prefixLen == prefixLen && n.prefix == buffer
    ensures fresh({n, n.keys, n.children})
  {
    hide Node.Ok;
    n := new Node(Node4);
    n.SetPrefix(prefixLen, buffer);
    n.OkCount();
    n.AddOrdered(ch, leaf);
    n.OkCount();
    n.AddOrdered(other, below);
    assert n.kids == Pair(ch, leaf, other, below);
  }

  /** The bytes that two keys share from `depth` on, the first ten of them stored. */
  method SharedPrefix(k: Key, key: Key, depth: nat) returns (idx: nat, buffer: seq<Byte>)
    requires k != key && depth <= |key| && key[..depth] <= k
    ensures idx == CommonLen(key, k) && depth <= idx && HeaderOf(idx - depth, buffer, key[depth..idx])
  {
    buffer, idx := seq(MAX_PREFIX_LEN, i => 0), depth;
    while idx < Min(|key|, |k|) && key[idx] == k[idx]
      invariant depth <= idx <= |key| && idx <= |k| && key[..idx] == k[..idx]
      invariant HeaderOf(idx - depth, buffer, key[depth..idx])
    {
      assert key[..idx + 1] == key[..idx] + [key[idx]];
      buffer := NextByte(buffer, key[depth..idx], key[idx]);
      assert key[depth..idx + 1] == key[depth..idx] + [key[idx]];
      idx := idx + 1;
    }
    CommonLenUnique(key, k, idx);
  }

  /** Store one more byte of a prefix, if there is room. */
  function NextByte(buffer: seq<Byte>, prefix: seq<Byte>, x: Byte): (r: seq<Byte>)
    requires HeaderOf(|prefix|, buffer, prefix)
    ensures HeaderOf(|prefix| + 1, r, prefix + [x])
  {
    if |prefix| < MAX_PREFIX_LEN then buffer[|prefix| := x] else buffer
  }

  /** A leaf gives way to a Node4 over both leaves, with the bytes they share as its prefix. */
  method ExpandLeaf(k: Key, v: Value, depth: nat, key: Key, value: Value) returns (n: Node)
    requires k != key && depth <= |key| && key[..depth] <= k
    ensures Valid(n) && n.tree == Expand(Tip(k, v), depth, key, value) && fresh(n.repr)
  {
    hide Valid, HeaderOf;
    var idx, buffer := SharedPrefix(k, key, depth);
    DivergeBelow(k, key, depth);
    n := Fork(idx - depth, buffer, key[idx], Leaf(key, value), k[idx], Leaf(k, v), key[depth..idx]);
  }

  /** What is left of a stored prefix after its first `diff` bytes and the branch byte. */
  method LowerHeader(n: Node, depth: nat, diff: nat, ghost path: seq<Byte>)
    returns (other: Byte, len: nat, buffer: seq<Byte>)
    requires Valid(n) && WellFormed(n.tree, path) && |path| == depth && diff < |n.tree.prefix|
    ensures other == n.tree.prefix[diff] && HeaderOf(len, buffer, n.tree.prefix[diff + 1..])
  {
    hide Node.Ok, KidsOk, WellFormed;
    ghost var prefix := n.tree.prefix;
    len := n.prefixLen - (diff + 1);
    if n.prefixLen <= MAX_PREFIX_LEN {
      other := n.prefix[diff];
      buffer := n.prefix[diff + 1..n.prefixLen] + n.prefix[len..];
      assert n.prefix[..n.prefixLen] == prefix;
      assert n.prefix[diff + 1..n.prefixLen] == prefix[diff + 1..];
    } else {
      MinimumOnPath(n.tree, path);
      var leafKey, _ := FindMinimum(Inner(n), path);
      LeafRepeats(path, prefix, leafKey);
      StoredFromLeaf(leafKey, depth, prefix, diff, n.prefix);
      var e := depth + diff;
      other := leafKey[e];
      var stored := Min(MAX_PREFIX_LEN, len);
      hide HeaderOf;
      buffer := leafKey[e + 1..e + 1 + stored] + n.prefix[stored..];
    }
  }

  /** The bytes behind the branch byte, as a leaf below repeats them, make up a header. */
  lemma {:induction false} StoredFromLeaf(key: Key, depth: nat, prefix: seq<Byte>, diff: nat, tail: seq<Byte>)
    requires depth + |prefix| <= |key| && key[depth..depth + |prefix|] == prefix && diff < |prefix|
    requires |tail| == MAX_PREFIX_LEN
    ensures key[depth + diff] == prefix[diff]
    ensures var e, len := depth + diff + 1, |prefix| - (diff + 1);
            var stored := Min(MAX_PREFIX_LEN, len);
            HeaderOf(len, key[e..e + stored] + tail[stored..], prefix[diff + 1..])
  {
    var e, len := depth + diff + 1, |prefix| - (diff + 1);
    var stored := Min(MAX_PREFIX_LEN, len);
    assert forall m | 0 <= m < |prefix| :: prefix[m] == key[depth + m];
    assert key[e..e + stored] == prefix[diff + 1..diff + 1 + stored];
  }

  /** Cut the first `diff` bytes and the branch byte off the prefix of a node. */
  method LowerNode(n: Node, depth: nat, diff: nat, ghost path: seq<Byte>) returns (top: seq<Byte>, other: Byte)
    requires Valid(n) && WellFormed(n.tree, path) && |path| == depth && diff < |n.tree.prefix|
    modifies n`prefixLen, n`prefix, n`tree, n`repr
    ensures Valid(n) && n.tree == Branch(old(n.tree.prefix)[diff + 1..], old(n.tree.kids)) && n.repr == old(n.repr)
    ensures other == old(n.tree.prefix)[diff] && HeaderOf(diff, top, old(n.tree.prefix)[..diff])
  {
    hide Node.Ok, KidsOk, WellFormed;
    ghost var prefix := n.tree.prefix;
    var len, buffer;
    other, len, buffer := LowerHeader(n, depth, diff, path);
    UpperHeader(n.prefixLen, n.prefix, prefix, diff);
    top := n.prefix;
    hide Valid, HeaderOf;
    SetHeader(n, len, buffer, prefix[diff + 1..]);
  }

  /** An inner node is cut where the key leaves its prefix. */
  method SplitNode(n: Node, depth: nat, diff: nat, key: Key, value: Value) returns (m: Node)
    requires Valid(n) && depth <= |key| && WellFormed(n.tree, key[..depth])
    requires diff < |n.tree.prefix| && depth + diff < |key| && n.tree.prefix[diff] != key[depth + diff]
    modifies n`prefixLen, n`prefix, n`tree, n`repr
    ensures Valid(m) && m.tree == Split(old(n.tree), depth, diff, key, value)
    ensures fresh(m.repr - old(n.repr))
  {
    hide Valid, SelfValid, KidsOk, Separate, EachOk, HeaderOf, WellFormed;
    TreeBranch(n);
    ghost var prefix := n.tree.prefix;
    var top, other := LowerNode(n, depth, diff, key[..depth]);
    m := Fork(diff, top, key[depth + diff], Leaf(key, value), other, Inner(n), prefix[..diff]);
  }

  lemma {:induction false} UpperHeader(prefixLen: nat, buffer: seq<Byte>, prefix: seq<Byte>, diff: nat)
    requires HeaderOf(prefixLen, buffer, prefix) && diff < |prefix|
    ensures HeaderOf(diff, buffer, prefix[..diff])
  {
    var m := Min(MAX_PREFIX_LEN, diff);
    assert buffer[..m] == buffer[..Min(MAX_PREFIX_LEN, prefixLen)][..m];
    assert prefix[..m] == prefix[..Min(MAX_PREFIX_LEN, prefixLen)][..m];
  }

  /** Add a leaf to the arrays of a node. */
  method GrowNode(n: Node, ch: Byte, leaf: Ref) returns (m: Node)
    requires SelfValid(n) && ch !in n.kids
    modifies n`count, n`kids, n`owner, n.keys, n.children
    ensures m.Ok() && m.kids == old(n.kids)[ch := leaf] && Sized(m.kind, |m.kids|)
    ensures HeaderOf(m.prefixLen, m.prefix, n.tree.prefix)
    ensures m == n || fresh(SelfOf(m))
  {
    hide Node.Ok, HeaderOf, Sized, KindAfterAdd;
    MapGrow(n.kids, ch, leaf);
    AtMost256(n.kids[ch := leaf]);
    SizedAfterAdd(n.kind, |n.kids|);
    m := n.AddChild(ch, leaf);
    HeaderKept(n, m, n.tree.prefix);
  }

  lemma {:induction false} AtMost256<T>(kids: map<Byte, T>)
    ensures |kids| <= 256
  {
    CountBelow(kids.Keys, 256);
    assert |kids.Keys| == |kids|;
  }

  /** A leaf is added beside the children of a node, which may become another node. */
  method AddLeaf(n: Node, ch: Byte, key: Key, value: Value) returns (m: Node)
    requires Valid(n) && ch !in n.kids
    modifies n, n.keys, n.children
    ensures Valid(m) && m.tree == Branch(old(n.tree.prefix), old(n.tree.kids)[ch := Tip(key, value)])
    ensures fresh(m.repr - old(n.repr))
  {
    hide Valid, SelfValid, KidsOk, Separate, EachOk, HeaderOf, Node.Ok, Sized;
    ghost var t, kids, below := n.tree, n.kids, n.repr - SelfOf(n);
    TreeBranch(n);
    ValidParts(n);
    KidsPut(kids, t.kids, below, ch, Leaf(key, value));
    assert below + ReprOf(Leaf(key, value)) == below;
    m := GrowNode(n, ch, Leaf(key, value));
    Settle(m, Branch(t.prefix, t.kids[ch := Tip(key, value)]), below);
  }

  // ----- the recursive descent -----

  /** Insertion at a reference: the new reference, and the value replaced if there was one. */
  method InsertAt(r: Option<Ref>, depth: nat, key: Key, value: Value) returns (r': Ref, previous: Option<Value>)
    requires depth <= |key|
    requires r.Some? ==> RefValid(r.value) && WellFormed(TreeOf(r.value), key[..depth])
    modifies ReprOfOption(r)
    ensures RefValid(r') && fresh(ReprOf(r') - old(ReprOfOption(r)))
    ensures TreeOf(r') == if r.None? then Tip(key, value) else old(Insert(TreeOf(r.value), depth, key, value))
    ensures previous == old(LookupIn(RootTree(r), depth, key))
    decreases |key| - depth, 2
  {
    hide Valid, WellFormed;
    if r.None? {
      return Leaf(key, value), None;
    }
    match r.value
    case Leaf(k, v) =>
      if k == key {
        return Leaf(key, value), Some(v);
      }
      LeafOnPath(k, v, key[..depth]);
      var n := ExpandLeaf(k, v, depth, key, value);
      return Inner(n), None;
    case Inner(n) =>
      var m;
      m, previous := InsertInto(n, depth, key, value);
      r' := Inner(m);
  }

  lemma {:induction false} LeafOnPath(k: Key, v: Value, path: seq<Byte>)
    requires WellFormed(Tip(k, v), path)
    ensures path <= k
  {
  }

  method InsertInto(n: Node, depth: nat, key: Key, value: Value) returns (m: Node, previous: Option<Value>)
    requires depth <= |key| && Valid(n) && WellFormed(n.tree, key[..depth])
    modifies n.repr
    ensures Valid(m) && fresh(m.repr - old(n.repr))
    ensures m.tree == old(Insert(n.tree, depth, key, value))
    ensures previous == old(Lookup(n.tree, depth, key))
    decreases |key| - depth, 1
  {
    hide Valid, KidsOk, WellFormed, HeaderOf, Node.Ok, Awaiting, Insert, Lookup, Split;
    TreeBranch(n);
    ghost var t := n.tree;
    var diff := CheckPrefix(n, key, depth);
    if diff < n.prefixLen {
      InsertSplits(t, depth, key, value);
      m := SplitNode(n, depth, diff, key, value);
      previous := None;
      return;
    }
    WholePrefix(t, depth, key);
    var e := depth + n.prefixLen;
    var slot := n.GetChild(key[e]);
    KidKeys(n);
    if slot == -1 || n.children[slot] == None {
      InsertAdds(t, depth, key, value);
      m := AddLeaf(n, key[e], key, value);
      previous := None;
    } else {
      m := n;
      previous := InsertBelow(n, depth, slot, key, value);
    }
  }

  /** The descent into child `key[e]`, whose slot then takes the new reference. */
  method InsertBelow(n: Node, depth: nat, slot: nat, key: Key, value: Value) returns (previous: Option<Value>)
    requires depth <= |key| && Valid(n) && WellFormed(n.tree, key[..depth])
    requires MatchLen(n.tree.prefix, key, depth) == |n.tree.prefix| == n.prefixLen && depth + n.prefixLen < |key|
    requires slot < n.children.Length && n.SlotOf(key[depth + n.prefixLen], slot) && key[depth + n.prefixLen] in n.kids
    requires n.children[slot] == Some(n.kids[key[depth + n.prefixLen]])
    modifies n.repr
    ensures Valid(n) && fresh(n.repr - old(n.repr))
    ensures n.tree == old(Insert(n.tree, depth, key, value))
    ensures previous == old(Lookup(n.tree, depth, key))
    decreases |key| - depth, 0
  {
    hide Valid, KidsOk, WellFormed, HeaderOf, Node.Ok, Awaiting, Insert, Lookup;
    TreeBranch(n);
    var e := depth + n.prefixLen;
    var child := n.children[slot].value;
    KidRef(n, key[e]);
    ghost var t, rest := n.tree, n.repr - SelfOf(n) - ReprOf(child);
    WholePrefix(t, depth, key);
    InsertDescends(t, depth, key, value);
    Detach(n, key[e]);
    var child';
    child', previous := InsertAt(Some(child), e + 1, key, value);
    Attach(n, t.prefix, t.kids, key[e], slot, child', rest);
  }
}
