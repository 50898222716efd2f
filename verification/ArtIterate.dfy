/** The iterator with its queue of references, and what is still to come from it. */
module ArtIterate {
  import opened Wrappers
  import opened Bytes
  import opened Radix
  import opened RadixOrder
  import opened ArtNodes
  import opened ArtTree
  import opened ArtWalk
  import opened ArtMap

  /** The children of an inner node in byte order, from byte i on. */
  function KidList(t: Tree, i: nat): (ts: seq<Tree>)
    requires t.Branch? && i <= 256
    decreases 256 - i
  {
    if i == 256 then [] else (if i in t.kids then [t.kids[i]] else []) + KidList(t, i + 1)
  }

  /** All entries below a sequence of trees. */
  function Bag(ts: seq<Tree>): multiset<Entry> {
    if ts == [] then multiset{} else multiset(Entries(ts[0])) + Bag(ts[1..])
  }

  /** The number of leaves and inner nodes of a tree, and of a sequence of trees. */
  function Nodes(t: Tree): nat
    decreases t, 257
  {
    match t
    case Tip(_, _) => 1
    case Branch(_, _) => 1 + NodesFrom(t, 0)
  }

  function NodesFrom(t: Tree, i: nat): nat
    requires t.Branch? && i <= 256
    decreases t, 256 - i
  {
    if i == 256 then 0 else (if i in t.kids then Nodes(t.kids[i]) else 0) + NodesFrom(t, i + 1)
  }

  function AllNodes(ts: seq<Tree>): nat {
    if ts == [] then 0 else Nodes(ts[0]) + AllNodes(ts[1..])
  }

  lemma {:induction false} BagConcat(a: seq<Tree>, b: seq<Tree>)
    ensures Bag(a + b) == Bag(a) + Bag(b) && AllNodes(a + b) == AllNodes(a) + AllNodes(b)
  {
    if a == [] {
      assert a + b == b;
    } else {
      assert (a + b)[1..] == a[1..] + b;
      BagConcat(a[1..], b);
    }
  }

  lemma {:induction false} BagOfKids(t: Tree, i: nat)
    requires t.Branch? && i <= 256
    ensures Bag(KidList(t, i)) == multiset(EntriesFrom(t, i)) && AllNodes(KidList(t, i)) == NodesFrom(t, i)
    decreases 256 - i
  {
    if i < 256 {
      BagOfKids(t, i + 1);
      LargeKidStep(t, i);
      EntriesStep(t, i);
      hide Bag, AllNodes, KidList, EntriesFrom;
      if i in t.kids {
        BagPut(t.kids[i], KidList(t, i + 1));
      }
    }
  }

  lemma {:induction false} BagPut(t: Tree, ts: seq<Tree>)
    ensures Bag([t] + ts) == multiset(Entries(t)) + Bag(ts) && AllNodes([t] + ts) == Nodes(t) + AllNodes(ts)
  {
    hide Entries;
    assert ([t] + ts)[1..] == ts;
  }

  lemma {:induction false} EntriesStep(t: Tree, i: nat)
    requires t.Branch? && i < 256
    ensures multiset(EntriesFrom(t, i))
            == (if i in t.kids then multiset(Entries(t.kids[i])) else multiset{}) + multiset(EntriesFrom(t, i + 1))
    ensures NodesFrom(t, i) == (if i in t.kids then Nodes(t.kids[i]) else 0) + NodesFrom(t, i + 1)
  {
  }

  /** Replacing an inner node at the head by its children at the tail loses and gains nothing, and is smaller. */
  lemma {:induction false} Expanded(t: Tree, rest: seq<Tree>)
    requires t.Branch?
    ensures Bag(rest + KidList(t, 0)) == Bag([t] + rest)
    ensures AllNodes(rest + KidList(t, 0)) < AllNodes([t] + rest)
  {
    BagConcat(rest, KidList(t, 0));
    BagOfKids(t, 0);
    assert ([t] + rest)[1..] == rest;
  }

  lemma {:induction false} KidListGap(t: Tree, i: nat, j: nat)
    requires t.Branch? && i <= j <= 256 && forall b: Byte | i <= b < j :: b !in t.kids
    ensures KidList(t, i) == KidList(t, j)
    decreases j - i
  {
    if i < j {
      KidListGap(t, i + 1, j);
    }
  }

  lemma {:induction false} SmallKidStep(n: Node, i: nat)
    requires Valid(n) && IsSmall(n.kind) && i < n.count
    ensures n.count as int <= n.keys.Length == n.children.Length && n.tree.Branch?
    ensures n.keys[i] in n.kids && n.keys[i] in n.tree.kids && n.children[i] == Some(n.kids[n.keys[i]])
    ensures KidList(n.tree, KeyFrom(n.keys[..], n.count, i))
            == [n.tree.kids[n.keys[i]]] + KidList(n.tree, KeyFrom(n.keys[..], n.count, i + 1))
  {
    hide KidsOk, KidList;
    KidKeys(n);
    OrderedSlot(n.keys[..], n.children[..], n.count, n.kids, i);
    NoKeyBetween(n.keys[..], n.count, n.kids, i);
    SkipGap(n.tree, n.kids, n.keys[i], KeyFrom(n.keys[..], n.count, i + 1));
  }

  lemma {:induction false} SkipGap(t: Tree, kids: map<Byte, Ref>, lo: Byte, hi: int)
    requires t.Branch? && t.kids.Keys == kids.Keys && lo < hi <= 256 && lo in t.kids
    requires forall b | b in kids :: b <= lo || hi <= b
    ensures KidList(t, lo) == [t.kids[lo]] + KidList(t, hi)
  {
    KidListGap(t, lo + 1, hi);
  }

  lemma {:induction false} SmallKidStart(n: Node)
    requires Valid(n) && IsSmall(n.kind)
    ensures n.count as int <= n.keys.Length && n.tree.Branch?
    ensures KidList(n.tree, 0) == KidList(n.tree, KeyFrom(n.keys[..], n.count, 0))
  {
    hide KidsOk;
    KidKeys(n);
    NoKeyBefore(n.keys[..], n.count, n.kids);
    hide Valid;
    KidListGap(n.tree, 0, KeyFrom(n.keys[..], n.count, 0));
  }

  // ----- the queue -----

  /** The queued references stand for `trees` and lie within `objects`. */
  ghost predicate QueueOk(que: seq<Ref>, trees: seq<Tree>, objects: set<object>)
    reads objects
  {
    |que| == |trees| && forall i | 0 <= i < |que| :: KidOk(que[i], trees[i], objects)
  }

  lemma {:induction false} QueueAppend(que: seq<Ref>, trees: seq<Tree>, objects: set<object>, r: Ref, t: Tree)
    requires QueueOk(que, trees, objects) && KidOk(r, t, objects)
    ensures QueueOk(que + [r], trees + [t], objects)
  {
    hide KidOk;
  }

  lemma {:induction false} KidQueues(n: Node, b: Byte, objects: set<object>)
    requires Valid(n) && n.repr <= objects && b in n.kids
    ensures b in n.tree.kids && KidOk(n.kids[b], n.tree.kids[b], objects)
  {
    KidRef(n, b);
    hide Valid;
    ValidSelf(n.kids[b]);
  }

  method PushSmall(n: Node, que: seq<Ref>, ghost trees: seq<Tree>, ghost objects: set<object>)
    returns (que': seq<Ref>, ghost trees': seq<Tree>)
    requires Valid(n) && n.tree.Branch? && IsSmall(n.kind) && n.repr <= objects && QueueOk(que, trees, objects)
    ensures QueueOk(que', trees', objects) && trees' == trees + KidList(n.tree, 0)
  {
    hide Valid, KidOk, Node.Ok, KidList, QueueOk;
    ghost var t := n.tree;
    SmallKidStart(n);
    que', trees' := que, trees;
    var i := 0;
    while i < n.count
      invariant i <= n.count as int <= n.keys.Length && QueueOk(que', trees', objects)
      invariant trees' + KidList(t, KeyFrom(n.keys[..], n.count, i)) == trees + KidList(t, 0)
    {
      SmallKidStep(n, i);
      ghost var b := n.keys[i];
      KidQueues(n, b, objects);
      QueueAppend(que', trees', objects, n.kids[b], t.kids[b]);
      PushedOne(trees', t.kids[b], KidList(t, KeyFrom(n.keys[..], n.count, i + 1)));
      que', trees' := que' + [n.children[i].value], trees' + [t.kids[b]];
      i := i + 1;
    }
    NoneLeft(t, trees');
  }

  lemma {:induction false} PushedOne(a: seq<Tree>, t: Tree, b: seq<Tree>)
    ensures a + ([t] + b) == a + [t] + b
  {
  }

  lemma {:induction false} NoneLeft(t: Tree, a: seq<Tree>)
    requires t.Branch?
    ensures a + KidList(t, 256) == a
  {
  }

  lemma {:induction false} LargeKidStep(t: Tree, i: Byte)
    requires t.Branch?
    ensures KidList(t, i) == if i in t.kids then [t.kids[i]] + KidList(t, i + 1) else KidList(t, i + 1)
  {
  }

  method PushLarge(n: Node, que: seq<Ref>, ghost trees: seq<Tree>, ghost objects: set<object>)
    returns (que': seq<Ref>, ghost trees': seq<Tree>)
    requires Valid(n) && n.tree.Branch? && !IsSmall(n.kind) && n.repr <= objects && QueueOk(que, trees, objects)
    ensures QueueOk(que', trees', objects) && trees' == trees + KidList(n.tree, 0)
  {
    hide Valid, KidOk, Node.Ok, KidList, QueueOk;
    ghost var t := n.tree;
    TreeBranch(n);
    KidKeys(n);
    que', trees' := que, trees;
    for i := 0 to 256
      invariant QueueOk(que', trees', objects) && trees' + KidList(t, i) == trees + KidList(t, 0)
    {
      LargeKidStep(t, i);
      var child := n.ByteChild(i);
      if child.Some? {
        KidQueues(n, i, objects);
        QueueAppend(que', trees', objects, child.value, t.kids[i]);
        PushedOne(trees', t.kids[i], KidList(t, i + 1));
        que', trees' := que' + [child.value], trees' + [t.kids[i]];
      }
    }
    NoneLeft(t, trees');
  }

  /** The children of a node at the end of the queue, in the order its layout lists them. */
  method PushKids(n: Node, que: seq<Ref>, ghost trees: seq<Tree>, ghost objects: set<object>)
    returns (que': seq<Ref>, ghost trees': seq<Tree>)
    requires Valid(n) && n.tree.Branch? && n.repr <= objects && QueueOk(que, trees, objects)
    ensures QueueOk(que', trees', objects) && |que'| == |trees'| && trees' == trees + KidList(n.tree, 0)
  {
    hide Valid, QueueOk, KidList;
    if IsSmall(n.kind) {
      que', trees' := PushSmall(n, que, trees, objects);
    } else {
      que', trees' := PushLarge(n, que, trees, objects);
    }
    QueueLengths(que', trees', objects);
  }

  /** The iterator counts in 32 bits, the tree in 64. */
  const COUNT_LIMIT := 0x1_0000_0000

  /** How often the root has been queued before n entries are returned: whenever the count is zero. */
  function Rounds(n: nat): nat {
    (n + COUNT_LIMIT - 1) / COUNT_LIMIT
  }

  ghost function Times(m: multiset<Entry>, n: nat): multiset<Entry> {
    if n == 0 then multiset{} else Times(m, n - 1) + m
  }

  lemma {:induction false} TimesSize(m: multiset<Entry>, n: nat)
    ensures |Times(m, n)| == n * |m|
  {
    if n > 0 {
      TimesSize(m, n - 1);
      assert n * |m| == (n - 1) * |m| + |m|;
    }
  }

  lemma {:induction false} NextRound(n: nat)
    ensures Rounds(n + 1) == n / COUNT_LIMIT + 1 && Rounds(n + 1) * COUNT_LIMIT > n
    ensures Rounds(n + 1) == if n % COUNT_LIMIT == 0 then Rounds(n) + 1 else Rounds(n)
    ensures (n % COUNT_LIMIT + 1) % COUNT_LIMIT == (n + 1) % COUNT_LIMIT
  {
  }

  class ArtIterator {
    const tree: Art
    var que: seq<Ref>
    var count: nat                // 32 bits in the program
    var current: Option<Entry>

    ghost var trees: seq<Tree>    // what the queued references stand for
    ghost var given: seq<Entry>   // what has been returned so far

    /** Given entries and queued trees make up the tree, once for every time the root has been queued. */
    ghost predicate Valid()
      reads this, tree, tree.repr
    {
      && this !in tree.repr && tree.Valid() && count == |given| % COUNT_LIMIT
      && (tree.size < COUNT_LIMIT ==> |given| <= tree.size)
      && QueueOk(que, trees, tree.repr)
      && multiset(given) + Bag(trees) == Times(multiset(EntriesIn(RootTree(tree.root))), Rounds(|given|))
    }

    constructor (t: Art)
      requires t.Valid()
      ensures tree == t && Valid() && given == []
    {
      tree, que, count, current := t, [], 0, None;
      trees, given := [], [];
    }

    /** Take references off the queue until one is a leaf; an inner node puts its children at the end. */
    method NextLeaf() returns (more: bool)
      requires this !in tree.repr && QueueOk(que, trees, tree.repr)
      modifies this`que, this`trees, this`current
      ensures QueueOk(que, trees, tree.repr)
      ensures more ==> current.Some? && multiset{current.value} + Bag(trees) == Bag(old(trees))
      ensures !more ==> Bag(old(trees)) == multiset{}
    {
      hide Valid, ArtTree.Valid, Bag, AllNodes, KidOk, EachOk, Separate, KidsOk, QueueOk, KidList;
      ghost var objects := tree.repr;
      QueueLengths(que, trees, objects);
      while que != []
        invariant QueueOk(que, trees, objects) && |que| == |trees| && Bag(trees) == Bag(old(trees))
        decreases AllNodes(trees)
      {
        var r := que[0];
        ghost var t, rest := trees[0], trees[1..];
        assert trees == [t] + rest;
        QueueHead(que, trees, objects);
        que, trees := que[1..], rest;
        match r
        case Leaf(k, v) =>
          LeafAhead(k, v, rest);
          current := Some(Entry(k, v));
          return true;
        case Inner(n) =>
          TreeBranch(n);
          Expanded(t, rest);
          que, trees := PushKids(n, que, trees, objects);
      }
      EmptyBag(trees);
      more := false;
    }

    /** Whether an entry is still to come: always, once there are more than the count can tell. */
    ghost predicate Ahead()
      reads this, tree
    {
      tree.size >= 0x1_0000_0000 || |given| < tree.size
    }

    /** The root goes on the queue whenever the count is zero, and so before the first entry is returned. */
    method Begin()
      requires Valid() && Ahead()
      modifies this`que, this`trees
      ensures this !in tree.repr && tree.Valid() && QueueOk(que, trees, tree.repr)
      ensures multiset(given) + Bag(trees)
              == Times(multiset(EntriesIn(RootTree(tree.root))), Rounds(|given| + 1))
    {
      hide Art.Valid, KidOk, EntriesIn, Bag, QueueOk, Times, Rounds, Valid;
      Unpack();
      NextRound(|given|);
      if count == 0 {
        RootReady(tree);
        var r := tree.root.value;
        RootBag(given, trees, TreeOf(r), |given|);
        QueueAppend(que, trees, tree.repr, r, TreeOf(r));
        que := que + [r];
        trees := trees + [TreeOf(r)];
      }
    }

    /**
     True and a new entry as long as fewer than `size` were returned, false from then on.  A tree of 2^32 entries or
     more never comes to an end: the count wraps before it reaches the size.
     */
    method Next() returns (more: bool)
      requires Valid()
      modifies this
      ensures Valid()
      ensures more == old(Ahead())
      ensures more ==> current.Some?
      ensures given == if more then old(given) + [current.value] else old(given)
    {
      hide Art.Valid, KidOk, EntriesIn, QueueOk, Bag, Valid, Times, Rounds;
      Unpack();
      if count == tree.size {
        return false;
      }
      Begin();
      ghost var before := trees;
      SomeLeft(tree, given, before);
      more := NextLeaf();
      MoveOver(given, current, trees, before);
      Record();
    }

    /** Whether `Next` will answer true. */
    method HasNext() returns (more: bool)
      requires Valid()
      ensures more == Ahead()
    {
      hide Art.Valid, KidOk, EntriesIn, QueueOk, Bag, Times;
      more := count < tree.size;
    }

    lemma {:induction false} Unpack()
      requires Valid()
      ensures this !in tree.repr && tree in tree.repr && tree.Valid()
      ensures count == |given| % COUNT_LIMIT && (tree.size < COUNT_LIMIT ==> |given| <= tree.size)
      ensures QueueOk(que, trees, tree.repr)
      ensures multiset(given) + Bag(trees) == Times(multiset(EntriesIn(RootTree(tree.root))), Rounds(|given|))
    {
      hide RootValid, Models, QueueOk, EntriesIn, Bag, Times;
    }

    /** The current entry counts as returned. */
    method Record()
      requires this !in tree.repr && tree.Valid() && count == |given| % COUNT_LIMIT && Ahead()
      requires current.Some? && QueueOk(que, trees, tree.repr)
      requires multiset(given + [current.value]) + Bag(trees)
               == Times(multiset(EntriesIn(RootTree(tree.root))), Rounds(|given| + 1))
      modifies this`count, this`given
      ensures Valid() && given == old(given) + [current.value]
    {
      hide Art.Valid, KidOk, EntriesIn, QueueOk, Bag, Times, Rounds;
      NextRound(|given|);
      count, given := (count + 1) % COUNT_LIMIT, given + [current.value];
    }
  }

  /** A tree that is not empty has a root, and it may be queued. */
  lemma {:induction false} RootReady(a: Art)
    requires a.Valid() && a.size > 0
    ensures a.root.Some? && KidOk(a.root.value, TreeOf(a.root.value), a.repr)
  {
    hide ArtTree.Valid, Models;
    a.Parts();
    Inhabited(RootTree(a.root), a.contents);
    ValidSelf(a.root.value);
  }

  /** Queueing the root begins the next round. */
  lemma {:induction false} RootBag(given: seq<Entry>, trees: seq<Tree>, t: Tree, n: nat)
    requires n % COUNT_LIMIT == 0
    requires multiset(given) + Bag(trees) == Times(multiset(EntriesIn(Some(t))), Rounds(n))
    ensures multiset(given) + Bag(trees + [t]) == Times(multiset(EntriesIn(Some(t))), Rounds(n + 1))
  {
    hide Bag, EntriesIn;
    NextRound(n);
    BagConcat(trees, [t]);
    BagOfOne(t);
  }

  lemma {:induction false} BagOfOne(t: Tree)
    ensures Bag([t]) == multiset(EntriesIn(Some(t)))
  {
    assert [t][1..] == [];
  }

  lemma {:induction false} MoveOver(given: seq<Entry>, x: Option<Entry>, after: seq<Tree>, before: seq<Tree>)
    ensures x.Some? && multiset{x.value} + Bag(after) == Bag(before)
            ==> multiset(given + [x.value]) + Bag(after) == multiset(given) + Bag(before)
  {
    hide Bag;
  }

  /** As many entries as the size says are returned for every time the root was queued, and then the queue is dry. */
  lemma {:induction false} AllGiven(a: Art, given: seq<Entry>, trees: seq<Tree>, rounds: nat)
    requires a.Valid()
    requires multiset(given) + Bag(trees) == Times(multiset(EntriesIn(RootTree(a.root))), rounds)
    ensures Bag(trees) == multiset{} <==> |given| == rounds * a.size
  {
    hide ArtTree.Valid, Models, Bag, Times;
    a.Parts();
    var entries := EntriesIn(RootTree(a.root));
    WalkListsMap(RootTree(a.root), a.contents);
    TimesSize(multiset(entries), rounds);
    assert |multiset(given)| == |given| && |multiset(entries)| == |entries|;
    assert |multiset(given) + Bag(trees)| == |multiset(given)| + |Bag(trees)|;
  }

  /** The rounds begun hold more entries than were returned. */
  lemma {:induction false} SomeLeft(a: Art, given: seq<Entry>, trees: seq<Tree>)
    requires a.Valid() && (a.size >= COUNT_LIMIT || |given| < a.size)
    requires multiset(given) + Bag(trees) == Times(multiset(EntriesIn(RootTree(a.root))), Rounds(|given| + 1))
    ensures Bag(trees) != multiset{}
  {
    hide Bag, Times, Art.Valid, EntriesIn;
    var n, rounds := |given|, Rounds(|given| + 1);
    NextRound(n);
    AllGiven(a, given, trees, rounds);
    if a.size >= COUNT_LIMIT {
      assert rounds * a.size >= rounds * COUNT_LIMIT;
    } else {
      assert rounds == 1;
    }
  }

  /** Calling `Next` until it answers false yields every entry of the tree, each exactly once. */
  method Drain(a: Art) returns (es: seq<Entry>)
    requires a.Valid() && a.size < COUNT_LIMIT
    ensures multiset(es) == multiset(EntriesIn(RootTree(a.root))) && |es| == a.size
  {
    var it := new ArtIterator(a);
    es := [];
    var more := true;
    while more
      invariant it.tree == a && fresh(it) && it.Valid() && es == it.given
      invariant !more ==> |es| == a.size
      decreases a.size - |es|, more
    {
      hide Art.Valid, QueueOk, Bag, EntriesIn, Times;
      more := it.Next();
      if more {
        es := es + [it.current.value];
      }
    }
    hide Art.Valid, QueueOk;
    Complete(it);
  }

  lemma {:induction false} Complete(it: ArtIterator)
    requires it.Valid() && |it.given| == it.tree.size < COUNT_LIMIT
    ensures multiset(it.given) == multiset(EntriesIn(RootTree(it.tree.root)))
  {
    hide Art.Valid, QueueOk, Models, Bag;
    var m := multiset(EntriesIn(RootTree(it.tree.root)));
    AllGiven(it.tree, it.given, it.trees, Rounds(|it.given|));
    assert Times(m, 1) == Times(m, 0) + m == m;
    if it.given == [] {
      it.tree.Parts();
      WalkListsMap(RootTree(it.tree.root), it.tree.contents);
    } else {
      assert Rounds(|it.given|) == 1;
    }
  }

  lemma {:induction false} EmptyBag(ts: seq<Tree>)
    requires ts == []
    ensures Bag(ts) == multiset{}
  {
  }

  lemma {:induction false} LeafAhead(k: Key, v: Value, rest: seq<Tree>)
    ensures Bag([Tip(k, v)] + rest) == multiset{Entry(k, v)} + Bag(rest)
  {
    assert ([Tip(k, v)] + rest)[1..] == rest;
  }

  lemma {:induction false} QueueLengths(que: seq<Ref>, trees: seq<Tree>, objects: set<object>)
    requires QueueOk(que, trees, objects)
    ensures |que| == |trees|
  {
    hide KidOk;
  }

  lemma {:induction false} QueueHead(que: seq<Ref>, trees: seq<Tree>, objects: set<object>)
    requires QueueOk(que, trees, objects) && que != []
    ensures QueueOk(que[1..], trees[1..], objects)
    ensures RefValid(que[0]) && TreeOf(que[0]) == trees[0] && ReprOf(que[0]) <= objects
  {
    hide Valid;
    assert KidOk(que[0], trees[0], objects);
  }
}
