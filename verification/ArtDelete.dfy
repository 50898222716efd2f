/** Deletion in place, against deletion in the radix tree. */
module ArtDelete {
  import opened Wrappers
  import opened Bytes
  import opened Radix
  import opened RadixDelete
  import opened ArtLayout
  import opened ArtNodes
  import opened ArtTree

  /** The stored bytes of a merged prefix: those of the parent, the branch byte, those of the child. */
  method MergedHeader(n: Node, b: Byte, child: Node, ghost above: seq<Byte>, ghost below: seq<Byte>)
    returns (buffer: seq<Byte>)
    requires HeaderOf(n.prefixLen, n.prefix, above) && HeaderOf(child.prefixLen, child.prefix, below)
    ensures HeaderOf(n.prefixLen + 1 + child.prefixLen, buffer, above + [b] + below)
  {
    buffer := n.prefix;
    var len := n.prefixLen;
    ghost var all := above + [b] + below;
    if len < MAX_PREFIX_LEN {
      assert all[..len] == above == buffer[..len];
      buffer := buffer[len := b];
      len := len + 1;
      assert all[..len] == buffer[..len];
    } else {
      assert all[..MAX_PREFIX_LEN] == above[..MAX_PREFIX_LEN];
    }
    var i := 0;
    while len + i < MAX_PREFIX_LEN && i < child.prefixLen
      invariant i <= child.prefixLen && |buffer| == MAX_PREFIX_LEN
      invariant |above| < MAX_PREFIX_LEN
                ==> len == |above| + 1 && len + i <= MAX_PREFIX_LEN && buffer[..len + i] == all[..len + i]
      invariant |above| >= MAX_PREFIX_LEN ==> len >= MAX_PREFIX_LEN && buffer[..MAX_PREFIX_LEN] == all[..MAX_PREFIX_LEN]
    {
      assert child.prefix[i] == child.prefix[..Min(MAX_PREFIX_LEN, child.prefixLen)][i] == below[i] == all[len + i];
      buffer := buffer[len + i := child.prefix[i]];
      i := i + 1;
    }
  }

  /** Take a child out of the arrays of a node. */
  method ShrinkNode(n: Node, ch: Byte) returns (m: Node)
    requires SelfValid(n) && ch in n.kids
    modifies n`count, n`kids, n`owner, n.keys, n.children
    ensures m.Ok() && m.kids == old(n.kids) - {ch}
    ensures if n.kind == Node4 && |old(n.kids)| == 2 then m.kind == Node4 && |m.kids| == 1 else Sized(m.kind, |m.kids|)
    ensures HeaderOf(m.prefixLen, m.prefix, n.tree.prefix)
    ensures m == n || fresh(SelfOf(m))
  {
    hide Node.Ok, HeaderOf, Sized, KindAfterRemove;
    MapDrop(n.kids, ch);
    SizedAfterRemove(n.kind, |n.kids|);
    m := n.RemoveChild(ch);
    HeaderKept(n, m, n.tree.prefix);
  }

  /** A node left with one child gives way to it; an inner child takes over the prefix and the branch byte. */
  method MergeWithChild(m: Node, ghost prefix: seq<Byte>, ghost trees: map<Byte, Tree>, ghost below: set<object>)
    returns (r: Ref)
    requires m.Ok() && m.kind == Node4 && |m.kids| == 1 && HeaderOf(m.prefixLen, m.prefix, prefix)
    requires KidsOk(m.kids, trees, below) && below !! SelfOf(m)
    modifies below
    ensures RefValid(r) && ReprOf(r) <= below
    ensures TreeOf(r) == Shrink(prefix, trees)
  {
    hide Valid, SelfValid, KidsOk, Separate, EachOk, HeaderOf, Node.Ok, Sized;
    var byte;
    r, byte := m.OnlyChild();
    SoleKid(m.kids, trees, below, byte);
    KidFacts(m.kids, trees, below, byte);
    if r.Inner? {
      var child := r.node;
      TreeBranch(child);
      ValidParts(child);
      ghost var t := child.tree;
      ChildHeader(child);
      var buffer := MergedHeader(m, byte, child, prefix, t.prefix);
      SetHeader(child, m.prefixLen + 1 + child.prefixLen, buffer, prefix + [byte] + t.prefix);
    }
  }

  /** Remove leaf `ch` below a node; the node may become another node or give way to its last child. */
  method RemoveLeaf(n: Node, ch: Byte) returns (r: Ref)
    requires Valid(n) && ch in n.kids && n.kids[ch].Leaf?
    modifies n.repr
    ensures RefValid(r) && TreeOf(r) == old(Shrink(n.tree.prefix, n.tree.kids - {ch}))
    ensures fresh(ReprOf(r) - old(n.repr))
  {
    hide Valid, SelfValid, KidsOk, Separate, EachOk, HeaderOf, Node.Ok, Sized, Shrink;
    ghost var t, kids, below := n.tree, n.kids, n.repr - SelfOf(n);
    TreeBranch(n);
    ValidParts(n);
    KidsDrop(kids, t.kids, below, ch);
    assert below - ReprOf(n.kids[ch]) == below;
    MapDrop(kids, ch);
    KidKeys(n);
    MapDrop(t.kids, ch);
    var m := ShrinkNode(n, ch);
    if m.kind == Node4 && m.count == 1 {
      m.OkCount();
      r := MergeWithChild(m, t.prefix, t.kids - {ch}, below);
    } else {
      m.OkCount();
      SizedBranches(m.kind, |m.kids|);
      ShrinkKeeps(t.prefix, t.kids - {ch});
      Settle(m, Branch(t.prefix, t.kids - {ch}), below);
      r := Inner(m);
    }
  }

  lemma {:induction false} ShrinkKeeps(prefix: seq<Byte>, kids: map<Byte, Tree>)
    requires |kids| != 1
    ensures Shrink(prefix, kids) == Branch(prefix, kids)
  {
  }

  /** Deletion below an inner node: what takes its place, and the value removed if there was one. */
  method DeleteFrom(n: Node, depth: nat, key: Key, ghost path: seq<Byte>) returns (r: Ref, removed: Option<Value>)
    requires Valid(n) && WellFormed(n.tree, path) && |path| == depth <= |key|
    modifies n.repr
    ensures RefValid(r) && fresh(ReprOf(r) - old(n.repr))
    ensures Some(TreeOf(r)) == old(Delete(n.tree, depth, key))
    ensures removed == old(Lookup(n.tree, depth, key))
    decreases |key| - depth
  {
    hide Valid, KidsOk, WellFormed, HeaderOf, Node.Ok, Awaiting, Delete, Lookup, Shrink;
    TreeBranch(n);
    ghost var t := n.tree;
    r := Inner(n);
    var child, slot := OptimisticChild(n, depth, key, path);
    if child.None? {
      DeleteAbsent(t, depth, key);
      return r, None;
    }
    var e := depth + n.prefixLen;
    match child.value
    case Leaf(k, v) =>
      LeafLookup(k, v, e + 1, key);
      if k == key {
        DeleteDrops(t, depth, key);
        r := RemoveLeaf(n, key[e]);
        removed := Some(v);
      } else {
        DeleteAbsent(t, depth, key);
        removed := None;
      }
    case Inner(m) =>
      TreeBranch(m);
      KidRef(n, key[e]);
      ghost var rest := n.repr - SelfOf(n) - m.repr;
      DeleteDescends(t, depth, key);
      Detach(n, key[e]);
      var r';
      r', removed := DeleteFrom(m, e + 1, key, path + t.prefix + [key[e]]);
      Attach(n, t.prefix, t.kids, key[e], slot, r', rest);
  }

  lemma {:induction false} LeafLookup(k: Key, v: Value, depth: nat, key: Key)
    ensures Lookup(Tip(k, v), depth, key) == if k == key then Some(v) else None
  {
  }

  /** Deletion at the root, which alone can be a leaf. */
  method DeleteAt(r: Ref, key: Key) returns (r': Option<Ref>, removed: Option<Value>)
    requires RefValid(r) && WellFormed(TreeOf(r), [])
    modifies ReprOf(r)
    ensures r'.Some? ==> RefValid(r'.value)
    ensures RootTree(r') == old(Delete(TreeOf(r), 0, key))
    ensures fresh(ReprOfOption(r') - old(ReprOf(r)))
    ensures removed == old(Lookup(TreeOf(r), 0, key))
  {
    hide Valid, WellFormed;
    match r
    case Leaf(k, v) =>
      r', removed := Some(r), None;
      if k == key {
        r', removed := None, Some(v);
      }
    case Inner(n) =>
      var below;
      below, removed := DeleteFrom(n, 0, key, []);
      r' := Some(below);
  }
}
