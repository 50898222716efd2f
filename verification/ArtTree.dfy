/** Trees of nodes: what a valid tree stands for, and the descents that only read it. */
module ArtTree {
  import opened Wrappers
  import opened Bytes
  import opened Radix
  import opened RadixDelete
  import opened ArtLayout
  import opened ArtNodes

  /** The radix tree below a reference. */
  ghost function TreeOf(r: Ref): Tree
    reads if r.Inner? then {r.node} else {}
  {
    match r
    case Leaf(k, v) => Tip(k, v)
    case Inner(n) => n.tree
  }

  ghost function ReprOf(r: Ref): set<object>
    reads if r.Inner? then {r.node} else {}
  {
    match r
    case Leaf(_, _) => {}
    case Inner(n) => n.repr
  }

  /** The header of a node holds the length of its prefix and the first bytes of it. */
  ghost predicate HeaderOf(prefixLen: nat, buffer: seq<Byte>, prefix: seq<Byte>) {
    && |buffer| == 10 && prefixLen == |prefix|
    && buffer[..Min(10, prefixLen)] == prefix[..Min(10, prefixLen)]
  }

  /** The objects of the node itself. */
  ghost function SelfOf(n: Node): set<object> {
    {n, n.keys, n.children}
  }

  /** A child stands for `t` and keeps to `objects`. */
  ghost predicate KidOk(r: Ref, t: Tree, objects: set<object>)
    reads objects
    decreases objects, 1
  {
    match r
    case Leaf(k, v) => t == Tip(k, v)
    case Inner(m) => m in objects && m.repr <= objects && Valid(m) && m.tree == t
  }

  ghost predicate EachOk(kids: map<Byte, Ref>, trees: map<Byte, Tree>, objects: set<object>)
    reads objects
    decreases objects, 2
  {
    kids.Keys == trees.Keys && forall b | b in kids :: KidOk(kids[b], trees[b], objects)
  }

  ghost predicate Separate(kids: map<Byte, Ref>, objects: set<object>)
    reads objects
  {
    forall b, c | b in kids && c in kids && b != c && kids[b].Inner? && kids[c].Inner? ::
      kids[b].node in objects && kids[c].node in objects && kids[b].node.repr !! kids[c].node.repr
  }

  /** The children stand for `trees`, keep to `objects` and share none of them. */
  ghost predicate KidsOk(kids: map<Byte, Ref>, trees: map<Byte, Tree>, objects: set<object>)
    reads objects
    decreases objects, 3
  {
    EachOk(kids, trees, objects) && Separate(kids, objects)
  }

  /** All that concerns the node alone. */
  ghost predicate SelfValid(n: Node)
    reads n, n.keys, n.children
  {
    && n.Ok() && Sized(n.kind, |n.kids|)
    && n.tree.Branch? && HeaderOf(n.prefixLen, n.prefix, n.tree.prefix)
  }

  /** The node and all below it stand for `n.tree`. */
  ghost predicate Valid(n: Node)
    reads n, n.repr
    decreases n.repr, 0
  {
    && n in n.repr && SelfOf(n) <= n.repr
    && SelfValid(n)
    && KidsOk(n.kids, n.tree.kids, n.repr - SelfOf(n))
  }

  ghost predicate RefValid(r: Ref)
    reads if r.Inner? then {r.node} + r.node.repr else {}
  {
    r.Inner? ==> Valid(r.node)
  }

  /** A child of a valid node is a valid reference to the child tree. */
  lemma {:induction false} KidRef(n: Node, b: Byte)
    requires Valid(n) && b in n.kids
    ensures b in n.tree.kids
    ensures RefValid(n.kids[b]) && TreeOf(n.kids[b]) == n.tree.kids[b]
    ensures ReprOf(n.kids[b]) < n.repr && ReprOf(n.kids[b]) <= n.repr - SelfOf(n)
  {
    assert EachOk(n.kids, n.tree.kids, n.repr - SelfOf(n));
    assert KidOk(n.kids[b], n.tree.kids[b], n.repr - SelfOf(n));
    hide SelfValid;
  }

  lemma {:induction false} KidKeys(n: Node)
    requires Valid(n)
    ensures n.kids.Keys == n.tree.kids.Keys && |n.kids| == |n.tree.kids|
  {
    assert EachOk(n.kids, n.tree.kids, n.repr - SelfOf(n));
    assert |n.kids.Keys| == |n.kids| && |n.tree.kids.Keys| == |n.tree.kids|;
  }

  lemma {:induction false} TreeBranch(n: Node)
    requires Valid(n)
    ensures n.tree.Branch? && n.prefixLen == |n.tree.prefix| && Sized(n.kind, |n.kids|) && SelfOf(n) <= n.repr && n.Ok()
  {
    hide Node.Ok, KidsOk;
  }

  lemma {:induction false} ValidParts(n: Node)
    requires Valid(n)
    ensures SelfValid(n) && KidsOk(n.kids, n.tree.kids, n.repr - SelfOf(n))
  {
    hide SelfValid, KidsOk;
  }

  lemma {:induction false} ChildHeader(n: Node)
    requires Valid(n)
    ensures n.tree.Branch? && HeaderOf(n.prefixLen, n.prefix, n.tree.prefix)
  {
    hide KidsOk, HeaderOf, Node.Ok;
  }

  lemma {:induction false} KidFacts(kids: map<Byte, Ref>, trees: map<Byte, Tree>, objects: set<object>, b: Byte)
    requires KidsOk(kids, trees, objects) && b in kids
    ensures b in trees && RefValid(kids[b]) && TreeOf(kids[b]) == trees[b] && ReprOf(kids[b]) <= objects
    ensures kids[b].Inner? ==> kids[b].node in objects
  {
    hide Valid;
    assert EachOk(kids, trees, objects);
    assert KidOk(kids[b], trees[b], objects);
  }

  /** A lone child decides the merge. */
  lemma {:induction false} SoleKid(kids: map<Byte, Ref>, trees: map<Byte, Tree>, objects: set<object>, b: Byte)
    requires KidsOk(kids, trees, objects) && |kids| == 1 && b in kids
    ensures |trees| == 1 && b in trees && LeastByte(trees) == b
  {
    hide KidOk;
    assert EachOk(kids, trees, objects);
    assert |kids.Keys| == |kids| && |trees.Keys| == |trees|;
    LoneKid(trees);
  }

  // ----- changing the children -----

  lemma {:induction false} KidsDrop(kids: map<Byte, Ref>, trees: map<Byte, Tree>, objects: set<object>, b: Byte)
    requires KidsOk(kids, trees, objects) && b in kids
    ensures KidsOk(kids - {b}, trees - {b}, objects - ReprOf(kids[b]))
  {
    hide Valid;
    assert EachOk(kids, trees, objects);
    var less := objects - ReprOf(kids[b]);
    assert KidOk(kids[b], trees[b], objects);
    forall c | c in kids - {b} ensures KidOk(kids[c], trees[c], less) {
      assert KidOk(kids[c], trees[c], objects);
      ValidSelf(kids[b]);
      ValidSelf(kids[c]);
    }
  }

  lemma {:induction false} KidsPut(kids: map<Byte, Ref>, trees: map<Byte, Tree>, objects: set<object>, b: Byte, r: Ref)
    requires KidsOk(kids, trees, objects) && b !in kids && RefValid(r) && ReprOf(r) !! objects
    ensures KidsOk(kids[b := r], trees[b := TreeOf(r)], objects + ReprOf(r))
  {
    hide Valid;
    assert EachOk(kids, trees, objects);
    var more := objects + ReprOf(r);
    ValidSelf(r);
    forall c | c in kids ensures KidOk(kids[c], trees[c], more) {
      assert KidOk(kids[c], trees[c], objects);
    }
    assert KidOk(r, TreeOf(r), more);
  }

  lemma {:induction false} ValidSelf(r: Ref)
    requires RefValid(r)
    ensures r.Inner? ==> r.node in r.node.repr
  {
  }

  /** A node over children that keep to `below` is valid with its own objects added. */
  lemma {:induction false} Rebuilt(n: Node, below: set<object>)
    requires n.Ok() && Sized(n.kind, |n.kids|)
    requires n.tree.Branch? && HeaderOf(n.prefixLen, n.prefix, n.tree.prefix)
    requires n.repr == below + SelfOf(n) && below !! SelfOf(n) && KidsOk(n.kids, n.tree.kids, below)
    ensures Valid(n)
  {
    hide Node.Ok, HeaderOf, KidsOk;
    assert n.repr - SelfOf(n) == below;
  }

  /** Record what a node stands for once its arrays and header are in place. */
  ghost method Settle(n: Node, t: Tree, below: set<object>)
    requires n.Ok() && Sized(n.kind, |n.kids|)
    requires t.Branch? && HeaderOf(n.prefixLen, n.prefix, t.prefix)
    requires below !! SelfOf(n) && KidsOk(n.kids, t.kids, below)
    modifies n`tree, n`repr
    ensures Valid(n) && n.tree == t && n.repr == below + SelfOf(n)
  {
    hide Node.Ok, HeaderOf, KidsOk, Valid;
    n.SetView(t, below + SelfOf(n));
    Rebuilt(n, below);
  }

  lemma {:induction false} HeaderKept(n: Node, m: Node, prefix: seq<Byte>)
    requires HeaderOf(n.prefixLen, n.prefix, prefix) && m.SameHeader(n)
    ensures HeaderOf(m.prefixLen, m.prefix, prefix)
  {
  }

  lemma {:induction false} NoKids(objects: set<object>)
    ensures KidsOk(map[], map[], objects)
  {
  }

  /** Give a node another prefix over the same children. */
  method SetHeader(n: Node, len: nat, buffer: seq<Byte>, ghost prefix: seq<Byte>)
    requires Valid(n) && HeaderOf(len, buffer, prefix)
    modifies n`prefixLen, n`prefix, n`tree, n`repr
    ensures Valid(n) && n.tree == Branch(prefix, old(n.tree.kids)) && n.repr == old(n.repr)
  {
    hide Node.Ok, KidsOk;
    assert |buffer| == MAX_PREFIX_LEN;
    hide HeaderOf;
    ghost var objects := n.repr;
    n.SetPrefix(len, buffer);
    n.SetView(Branch(prefix, n.tree.kids), objects);
  }

  /** All of a valid node but one child, whose slot may be written. */
  ghost predicate Awaiting(n: Node, prefix: seq<Byte>, trees: map<Byte, Tree>, ch: Byte, rest: set<object>)
    reads n, n.keys, n.children, rest
  {
    && n.Ok() && Sized(n.kind, |n.kids|) && HeaderOf(n.prefixLen, n.prefix, prefix)
    && ch in n.kids && SelfOf(n) !! rest
    && KidsOk(n.kids - {ch}, trees - {ch}, rest)
  }

  lemma {:induction false} Detach(n: Node, ch: Byte)
    requires Valid(n) && ch in n.kids
    ensures Awaiting(n, n.tree.prefix, n.tree.kids, ch, n.repr - SelfOf(n) - ReprOf(n.kids[ch]))
  {
    hide Node.Ok, HeaderOf, KidsOk;
    KidsDrop(n.kids, n.tree.kids, n.repr - SelfOf(n), ch);
    assert SelfValid(n);
    assert SelfOf(n) !! n.repr - SelfOf(n) - ReprOf(n.kids[ch]);
  }

  /** Put a child into the awaiting slot. */
  method Attach(n: Node, ghost prefix: seq<Byte>, ghost trees: map<Byte, Tree>, ch: Byte, slot: nat, r: Ref,
        ghost rest: set<object>)
    requires Awaiting(n, prefix, trees, ch, rest) && slot < n.children.Length && n.SlotOf(ch, slot)
    requires RefValid(r) && ReprOf(r) !! rest && ReprOf(r) !! SelfOf(n)
    modifies n`kids, n`tree, n`repr, n.children
    ensures Valid(n) && n.tree == Branch(prefix, trees[ch := TreeOf(r)])
    ensures n.repr == rest + ReprOf(r) + SelfOf(n)
  {
    hide Node.Ok, Valid, HeaderOf, KidsOk;
    ValidSelf(r);
    KidsPut(n.kids - {ch}, trees - {ch}, rest, ch, r);
    assert (n.kids - {ch})[ch := r] == n.kids[ch := r];
    assert (trees - {ch})[ch := TreeOf(r)] == trees[ch := TreeOf(r)];
    MapGrow(n.kids, ch, r);
    n.Store(ch, slot, r);
    Settle(n, Branch(prefix, trees[ch := TreeOf(r)]), rest + ReprOf(r));
  }

  // ----- prefix comparison -----

  /** How far the stored part of the prefix agrees with the key. */
  method CheckPrefixPartial(n: Node, key: seq<Byte>, depth: nat) returns (len: nat)
    requires depth <= |key| && |n.prefix| == MAX_PREFIX_LEN
    ensures len == MatchLen(n.prefix[..Min(n.prefixLen, MAX_PREFIX_LEN)], key, depth)
  {
    len := 0;
    var maxCmp := Min(Min(n.prefixLen, MAX_PREFIX_LEN), |key| - depth);
    ghost var stored := n.prefix[..Min(n.prefixLen, MAX_PREFIX_LEN)];
    while len < maxCmp && key[depth + len] == n.prefix[len]
      invariant len <= maxCmp && stored[..len] == key[depth..depth + len]
    {
      assert stored[..len + 1] == stored[..len] + [stored[len]];
      len := len + 1;
    }
    MatchLenUnique(stored, key, depth, len);
  }

  /** The leftmost leaf below a reference. */
  method FindMinimum(r: Ref, ghost above: seq<Byte>) returns (key: Key, value: Value)
    requires RefValid(r) && WellFormed(TreeOf(r), above)
    ensures Minimum(TreeOf(r)) == Tip(key, value)
  {
    ghost var path := above;
    var cur := r;
    while cur.Inner?
      invariant RefValid(cur) && Minimum(TreeOf(cur)) == Minimum(TreeOf(r)) && WellFormed(TreeOf(cur), path)
      decreases ReprOf(cur)
    {
      hide Node.Ok;
      ghost var n := cur.node;
      assert |n.tree.kids.Keys| >= 2;
      ghost var b;
      cur, b := cur.node.FirstChild();
      KidRef(n, b);
      KidKeys(n);
      LeastUnique(n.tree.kids, b);
      assert Minimum(n.tree) == Minimum(n.tree.kids[b]);
      path := path + n.tree.prefix + [b];
    }
    key, value := cur.key, cur.value;
  }

  lemma {:induction false} LeastUnique(kids: map<Byte, Tree>, b: Byte)
    requires IsLeast(kids, b)
    ensures kids.Keys != {} && LeastByte(kids) == b
  {
    var c := LeastByte(kids);
    assert b <= c <= b;
  }

  /** The stored bytes and then the leftmost leaf tell where the key leaves the whole prefix. */
  method CheckPrefix(n: Node, key: Key, depth: nat) returns (len: nat)
    requires Valid(n) && depth <= |key| && WellFormed(n.tree, key[..depth])
    ensures Min(len, |n.tree.prefix|) == MatchLen(n.tree.prefix, key, depth)
  {
    hide Node.Ok, KidsOk, WellFormed;
    ghost var prefix := n.tree.prefix;
    len := CheckPrefixPartial(n, key, depth);
    if len < MAX_PREFIX_LEN {
      PartialIsFull(prefix, key, depth, Min(n.prefixLen, MAX_PREFIX_LEN));
      return;
    }
    MinimumOnPath(n.tree, key[..depth]);
    var leafKey, _ := FindMinimum(Inner(n), key[..depth]);
    LeafRepeats(key[..depth], prefix, leafKey);
    assert leafKey[depth..depth + len] == key[depth..depth + len] by {
      assert leafKey[depth..depth + len] == prefix[..len];
    }
    len := CompareKeys(leafKey, key, depth, len);
    LeafComparison(prefix, leafKey, key, depth, len);
  }

  /** Go on comparing two keys that agree on `start` bytes from `depth` on. */
  method CompareKeys(a: seq<Byte>, b: seq<Byte>, depth: nat, start: nat) returns (len: nat)
    requires depth + start <= |a| && depth + start <= |b| && a[depth..depth + start] == b[depth..depth + start]
    ensures depth + len <= |a| && depth + len <= |b| && a[depth..depth + len] == b[depth..depth + len]
    ensures depth + len == |a| || depth + len == |b| || a[depth + len] != b[depth + len]
  {
    len := start;
    var maxCmp := Min(|a|, |b|) - depth;
    while len < maxCmp && a[depth + len] == b[depth + len]
      invariant len <= maxCmp && a[depth..depth + len] == b[depth..depth + len]
    {
      assert a[depth..depth + len + 1] == a[depth..depth + len] + [a[depth + len]];
      assert b[depth..depth + len + 1] == b[depth..depth + len] + [b[depth + len]];
      len := len + 1;
    }
  }

  lemma {:induction false} LeafRepeats(path: seq<Byte>, prefix: seq<Byte>, leafKey: seq<Byte>)
    requires path + prefix <= leafKey
    ensures leafKey[|path|..|path| + |prefix|] == prefix
  {
    assert prefix == (path + prefix)[|path|..];
  }

  /** Below ten bytes the comparison with the stored part is the comparison with the prefix. */
  lemma {:induction false} PartialIsFull(prefix: seq<Byte>, key: seq<Byte>, depth: nat, stored: nat)
    requires depth <= |key| && stored == Min(|prefix|, MAX_PREFIX_LEN)
    requires MatchLen(prefix[..stored], key, depth) < MAX_PREFIX_LEN
    ensures MatchLen(prefix, key, depth) == MatchLen(prefix[..stored], key, depth)
  {
    var m := MatchLen(prefix[..stored], key, depth);
    assert prefix[..stored][..m] == prefix[..m];
    MatchLenUnique(prefix, key, depth, m);
  }

  /** A leaf below the node repeats the prefix, so comparing with it compares with the prefix. */
  lemma {:induction false} LeafComparison(prefix: seq<Byte>, leafKey: seq<Byte>, key: seq<Byte>, depth: nat, len: nat)
    requires depth + |prefix| < |leafKey| && leafKey[depth..depth + |prefix|] == prefix
    requires depth + len <= |leafKey| && depth + len <= |key| && leafKey[depth..depth + len] == key[depth..depth + len]
    requires depth + len == |leafKey| || depth + len == |key| || leafKey[depth + len] != key[depth + len]
    ensures Min(len, |prefix|) == MatchLen(prefix, key, depth)
  {
    var m := Min(len, |prefix|);
    assert prefix[..m] == leafKey[depth..depth + |prefix|][..m] == leafKey[depth..depth + m];
    assert leafKey[depth..depth + m] == leafKey[depth..depth + len][..m] == key[depth..depth + len][..m]
          == key[depth..depth + m];
    if len < |prefix| {
      assert prefix[len] == leafKey[depth..depth + |prefix|][len] == leafKey[depth + len];
    }
    MatchLenUnique(prefix, key, depth, m);
  }

  // ----- search -----

  ghost predicate RootValid(root: Option<Ref>)
    reads if root.Some? && root.value.Inner? then {root.value.node} + root.value.node.repr else {}
  {
    root.Some? ==> RefValid(root.value) && WellFormed(TreeOf(root.value), [])
  }

  ghost function RootTree(root: Option<Ref>): Option<Tree>
    reads if root.Some? && root.value.Inner? then {root.value.node} else {}
  {
    if root.None? then None else Some(TreeOf(root.value))
  }

  ghost function ReprOfOption(r: Option<Ref>): set<object>
    reads if r.Some? && r.value.Inner? then {r.value.node} else {}
  {
    if r.None? then {} else ReprOf(r.value)
  }

  /** One step of a descent that compares only the stored part of the prefix. */
  method OptimisticChild(n: Node, depth: nat, key: Key, ghost path: seq<Byte>) returns (child: Option<Ref>, slot: int)
    requires Valid(n) && WellFormed(n.tree, path) && |path| == depth <= |key|
    ensures n.tree.Branch? && n.prefixLen == |n.tree.prefix|
    ensures child.None? ==> Lookup(n.tree, depth, key) == None
    ensures child.Some? ==>
              var e := depth + n.prefixLen;
              && e < |key| && key[e] in n.kids && key[e] in n.tree.kids && child == Some(n.kids[key[e]])
              && 0 <= slot < n.children.Length && n.keys.Length == KeySlots(n.kind) && n.SlotOf(key[e], slot)
              && RefValid(child.value) && TreeOf(child.value) == n.tree.kids[key[e]]
              && WellFormed(TreeOf(child.value), path + n.tree.prefix + [key[e]])
              && Lookup(n.tree, depth, key) == Lookup(TreeOf(child.value), e + 1, key)
  {
    hide Node.Ok, KidsOk, WellFormed, Lookup;
    var len := CheckPrefixPartial(n, key, depth);
    var stored := Min(n.prefixLen, MAX_PREFIX_LEN);
    if len != stored {
      PartialMiss(n.tree, depth, key, stored);
      return None, -1;
    }
    var e := depth + n.prefixLen;
    if e >= |key| {
      TooShort(n.tree, depth, key);
      return None, -1;
    }
    OptimisticStep(n.tree, path, key);
    KidKeys(n);
    n.OkCount();
    slot := n.GetChild(key[e]);
    child := if slot == -1 then None else n.children[slot];
    if child.Some? {
      KidRef(n, key[e]);
      KidOnPath(n.tree, path, key[e]);
    }
  }

  /** The optimistic descent finds exactly what comparing whole prefixes finds. */
  method Search(root: Option<Ref>, key: Key) returns (value: Option<Value>)
    requires RootValid(root)
    ensures value == LookupIn(RootTree(root), 0, key)
  {
    hide Valid, WellFormed;
    if root.None? {
      return None;
    }
    var cur, depth := root.value, 0;
    ghost var path: seq<Byte> := [];
    while cur.Inner?
      invariant RefValid(cur) && WellFormed(TreeOf(cur), path) && |path| == depth <= |key|
      invariant Lookup(TreeOf(cur), depth, key) == Lookup(TreeOf(root.value), 0, key)
      decreases |key| - depth, cur.Inner?
    {
      hide Lookup;
      var next, _ := OptimisticChild(cur.node, depth, key, path);
      if next.None? {
        return None;
      }
      depth := depth + cur.node.prefixLen;
      path := path + cur.node.tree.prefix + [key[depth]];
      cur, depth := next.value, depth + 1;
    }
    value := if cur.key == key then Some(cur.value) else None;
  }

  lemma {:induction false} TooShort(t: Tree, depth: nat, key: Key)
    requires t.Branch? && depth + |t.prefix| >= |key|
    ensures Lookup(t, depth, key) == None
  {
  }
}
