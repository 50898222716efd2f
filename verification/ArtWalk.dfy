/** Walks over a tree of nodes: the recursive one with a callback that may stop it, prefix search, and the queue. */
module ArtWalk {
  import opened Wrappers
  import opened Bytes
  import opened Radix
  import opened RadixOrder
  import opened RadixPrefix
  import opened ArtLayout
  import opened ArtNodes
  import opened ArtTree

  // ----- callbacks -----

  /** A callback applied to entries in turn until it asks to stop: the state it leaves, and whether it stopped. */
  function Walk<S>(cb: (S, Entry) -> (S, bool), s: S, es: seq<Entry>): (S, bool) {
    if es == [] then (s, false)
    else
      var (next, stop) := cb(s, es[0]);
      if stop then (next, true) else Walk(cb, next, es[1..])
  }

  lemma {:induction false} WalkConcat<S>(cb: (S, Entry) -> (S, bool), s: S, a: seq<Entry>, b: seq<Entry>)
    ensures var (t, stop) := Walk(cb, s, a);
            Walk(cb, s, a + b) == if stop then (t, true) else Walk(cb, t, b)
  {
    if a == [] {
      assert a + b == b;
    } else {
      assert (a + b)[1..] == a[1..] + b;
      WalkConcat(cb, cb(s, a[0]).0, a[1..], b);
    }
  }

  lemma {:induction false} WalkOne<S>(cb: (S, Entry) -> (S, bool), s: S, x: Entry)
    ensures Walk(cb, s, [x]) == cb(s, x)
  {
    assert [x][1..] == [];
  }

  /** The states a walk goes through: one for each entry that was offered, until the callback asked to stop. */
  lemma {:induction false} WalkStates<S>(cb: (S, Entry) -> (S, bool), s: S, es: seq<Entry>) returns (states: seq<S>)
    ensures 1 <= |states| <= |es| + 1 && states[0] == s
    ensures forall i :: 0 <= i < |states| - 1 ==> cb(states[i], es[i]).0 == states[i + 1]
    ensures forall i :: 0 <= i < |states| - 2 ==> !cb(states[i], es[i]).1
    ensures var (t, stopped), n := Walk(cb, s, es), |states| - 1;
            && t == states[n] && (stopped <==> n > 0 && cb(states[n - 1], es[n - 1]).1)
            && (!stopped ==> n == |es|)
  {
    if es == [] {
      states := [s];
    } else if cb(s, es[0]).1 {
      states := [s, cb(s, es[0]).0];
    } else {
      var rest := WalkStates(cb, cb(s, es[0]).0, es[1..]);
      states := [s] + rest;
      assert forall i :: 0 <= i < |rest| ==> states[i + 1] == rest[i];
      assert forall i :: 0 < i < |es| ==> es[i] == es[1..][i - 1];
    }
  }

  /** The callback of prefix search: refuse when the limit is reached, otherwise take the entry. */
  function Collector(max: nat): (seq<Entry>, Entry) -> (seq<Entry>, bool) {
    (out: seq<Entry>, x: Entry) => if |out| >= max then (out, true) else (out + [x], false)
  }

  /** It takes as many entries as there is room for, and stops the walk if there are more. */
  lemma {:induction false} WalkCollects(out: seq<Entry>, es: seq<Entry>, max: nat)
    requires |out| <= max
    ensures var room := max - |out|;
            Walk(Collector(max), out, es) == (out + es[..if |es| <= room then |es| else room], |es| > room)
    decreases |es|
  {
    if es == [] {
      assert out + [] == out;
    } else if |out| < max {
      WalkCollects(out + [es[0]], es[1..], max);
      var n := if |es| <= max - |out| then |es| else max - |out|;
      assert out + [es[0]] + es[1..][..n - 1] == out + es[..n];
    } else {
      assert out + es[..0] == out;
    }
  }

  // ----- the recursive walk -----

  /** Branch bytes without a child add nothing to the walk. */
  lemma {:induction false} SkipGap(t: Tree, i: nat, j: nat)
    requires t.Branch? && i <= j <= 256 && forall b: Byte | i <= b < j :: b !in t.kids
    ensures EntriesFrom(t, i) == EntriesFrom(t, j)
    decreases j - i
  {
    if i < j {
      SkipGap(t, i + 1, j);
      assert EntriesFrom(t, i) == EntriesFrom(t, i + 1);
    }
  }

  /** Where the walk stands before the i-th sorted key. */
  ghost function KeyFrom(keys: seq<Byte>, n: nat, i: nat): nat
    requires i <= n <= |keys|
  {
    if i == n then 256 else keys[i]
  }

  lemma {:induction false} OrderedStep(keys: seq<Byte>, slots: seq<Option<Ref>>, n: nat, kids: map<Byte, Ref>,
        t: Tree, i: nat)
    requires Ordered(keys, slots, n, kids) && t.Branch? && t.kids.Keys == kids.Keys && i < n
    ensures keys[i] in t.kids
    ensures EntriesFrom(t, keys[i]) == Entries(t.kids[keys[i]]) + EntriesFrom(t, KeyFrom(keys, n, i + 1))
  {
    NoKeyBetween(keys, n, kids, i);
    assert keys[i] in kids;
    hide Ordered;
    var lo: int, hi := keys[i], KeyFrom(keys, n, i + 1);
    SkipGap(t, lo + 1, hi);
  }

  lemma {:induction false} NoKeyBetween(keys: seq<Byte>, n: nat, kids: map<Byte, Ref>, i: nat)
    requires i < n <= |keys| && SortedKeys(keys, n) && Covered(keys, n, kids)
    ensures keys[i] < KeyFrom(keys, n, i + 1) <= 256
    ensures forall b | b in kids :: b <= keys[i] || KeyFrom(keys, n, i + 1) <= b
  {
    SortedPairs(keys, n);
    hide SortedKeys;
    forall b | b in kids ensures b <= keys[i] || KeyFrom(keys, n, i + 1) <= b {
      var j := Position(keys, n, kids, b);
    }
  }

  lemma {:induction false} OrderedStart(keys: seq<Byte>, slots: seq<Option<Ref>>, n: nat, kids: map<Byte, Ref>, t: Tree)
    requires Ordered(keys, slots, n, kids) && t.Branch? && t.kids.Keys == kids.Keys
    ensures EntriesFrom(t, 0) == EntriesFrom(t, KeyFrom(keys, n, 0))
  {
    NoKeyBefore(keys, n, kids);
    hide Ordered;
    SkipGap(t, 0, KeyFrom(keys, n, 0));
  }

  lemma {:induction false} NoKeyBefore(keys: seq<Byte>, n: nat, kids: map<Byte, Ref>)
    requires n <= |keys| && SortedKeys(keys, n) && Covered(keys, n, kids)
    ensures KeyFrom(keys, n, 0) <= 256 && forall b | b in kids :: KeyFrom(keys, n, 0) <= b
  {
    SortedPairs(keys, n);
    forall b | b in kids ensures KeyFrom(keys, n, 0) <= b {
      var j := Position(keys, n, kids, b);
    }
  }

  /** The layouts whose children lie in key order. */
  predicate IsSmall(kind: Kind) {
    kind == Node4 || kind == Node16
  }

  /** The recursive walk: the callback gets the entries in order until it asks to stop. */
  method Iterate<S>(r: Ref, cb: (S, Entry) -> (S, bool), s: S) returns (s': S, stop: bool)
    requires RefValid(r)
    ensures (s', stop) == Walk(cb, s, Entries(TreeOf(r)))
    decreases ReprOf(r), 1
  {
    hide Valid;
    match r
    case Leaf(k, v) =>
      var (next, stopped) := cb(s, Entry(k, v));
      s', stop := next, stopped;
      WalkOne(cb, s, Entry(k, v));
    case Inner(n) =>
      TreeBranch(n);
      if IsSmall(n.kind) {
        s', stop := IterateSmall(n, cb, s);
      } else {
        s', stop := IterateLarge(n, cb, s);
      }
  }

  /** Between two children: going on from here with what is still to come is the whole walk. */
  ghost predicate Midway<S>(cb: (S, Entry) -> (S, bool), cur: S, rest: seq<Entry>, s: S, all: seq<Entry>) {
    Walk(cb, cur, rest) == Walk(cb, s, all)
  }

  lemma {:induction false} MidwayStep<S>(cb: (S, Entry) -> (S, bool), cur: S, here: seq<Entry>, rest: seq<Entry>,
                                         s: S, all: seq<Entry>)
    requires Midway(cb, cur, here + rest, s, all)
    ensures var (next, stop) := Walk(cb, cur, here);
            if stop then Walk(cb, s, all) == (next, true) else Midway(cb, next, rest, s, all)
  {
    WalkConcat(cb, cur, here, rest);
  }

  lemma {:induction false} SmallStep(n: Node, i: nat)
    requires Valid(n) && IsSmall(n.kind) && i < n.count
    ensures n.count as int <= n.keys.Length == n.children.Length && n.tree.Branch?
    ensures n.keys[i] in n.kids && n.keys[i] in n.tree.kids && n.children[i] == Some(n.kids[n.keys[i]])
    ensures EntriesFrom(n.tree, KeyFrom(n.keys[..], n.count, i))
            == Entries(n.tree.kids[n.keys[i]]) + EntriesFrom(n.tree, KeyFrom(n.keys[..], n.count, i + 1))
  {
    hide EntriesFrom, Entries, KidsOk;
    KidKeys(n);
    OrderedStep(n.keys[..], n.children[..], n.count, n.kids, n.tree, i);
    OrderedSlot(n.keys[..], n.children[..], n.count, n.kids, i);
  }

  lemma {:induction false} OrderedSlot(keys: seq<Byte>, slots: seq<Option<Ref>>, n: nat, kids: map<Byte, Ref>, i: nat)
    requires Ordered(keys, slots, n, kids) && i < n
    ensures keys[i] in kids && slots[i] == Some(kids[keys[i]])
  {
  }

  lemma {:induction false} SmallStart(n: Node)
    requires Valid(n) && IsSmall(n.kind)
    ensures n.count as int <= n.keys.Length && n.tree.Branch?
    ensures EntriesFrom(n.tree, 0) == EntriesFrom(n.tree, KeyFrom(n.keys[..], n.count, 0))
  {
    hide EntriesFrom, Entries, KidsOk;
    KidKeys(n);
    OrderedStart(n.keys[..], n.children[..], n.count, n.kids, n.tree);
  }

  /** Node4 and Node16: the children in the order of the sorted keys. */
  method IterateSmall<S>(n: Node, cb: (S, Entry) -> (S, bool), s: S) returns (s': S, stop: bool)
    requires Valid(n) && n.tree.Branch? && IsSmall(n.kind)
    ensures (s', stop) == Walk(cb, s, EntriesFrom(n.tree, 0))
    decreases ReprOf(Inner(n)), 0
  {
    hide Valid, Node.Ok, EntriesFrom, Entries, Walk, Midway;
    ghost var t, all := n.tree, EntriesFrom(n.tree, 0);
    SmallStart(n);
    s', stop := s, false;
    MidwayStart(cb, s, all);
    var i := 0;
    while i < n.count
      invariant i <= n.count as int <= n.keys.Length && !stop
      invariant Midway(cb, s', EntriesFrom(t, KeyFrom(n.keys[..], n.count, i)), s, all)
    {
      SmallStep(n, i);
      KidRef(n, n.keys[i]);
      MidwayStep(cb, s', Entries(t.kids[n.keys[i]]), EntriesFrom(t, KeyFrom(n.keys[..], n.count, i + 1)), s, all);
      s', stop := Iterate(n.children[i].value, cb, s');
      if stop {
        return;
      }
      i := i + 1;
    }
    MidwayEnd(cb, t, s', s, all);
  }

  lemma {:induction false} MidwayStart<S>(cb: (S, Entry) -> (S, bool), s: S, all: seq<Entry>)
    ensures Midway(cb, s, all, s, all)
  {
  }

  lemma {:induction false} MidwayEnd<S>(cb: (S, Entry) -> (S, bool), t: Tree, cur: S, s: S, all: seq<Entry>)
    requires t.Branch? && Midway(cb, cur, EntriesFrom(t, 256), s, all)
    ensures Walk(cb, s, all) == (cur, false)
  {
  }

  lemma {:induction false} LargeStep(t: Tree, i: Byte)
    requires t.Branch?
    ensures EntriesFrom(t, i) == (if i in t.kids then Entries(t.kids[i]) else []) + EntriesFrom(t, i + 1)
  {
  }

  /** Node48 and Node256: every byte in turn. */
  method IterateLarge<S>(n: Node, cb: (S, Entry) -> (S, bool), s: S) returns (s': S, stop: bool)
    requires Valid(n) && n.tree.Branch? && !IsSmall(n.kind)
    ensures (s', stop) == Walk(cb, s, EntriesFrom(n.tree, 0))
    decreases ReprOf(Inner(n)), 0
  {
    hide Valid, Node.Ok, EntriesFrom, Entries, Walk, Midway;
    ghost var t, all := n.tree, EntriesFrom(n.tree, 0);
    TreeBranch(n);
    KidKeys(n);
    s', stop := s, false;
    MidwayStart(cb, s, all);
    for i := 0 to 256
      invariant !stop && Midway(cb, s', EntriesFrom(t, i), s, all)
    {
      LargeStep(t, i);
      var child := n.ByteChild(i);
      if child.None? {
        assert EntriesFrom(t, i) == EntriesFrom(t, i + 1);
        continue;
      }
      KidRef(n, i);
      MidwayStep(cb, s', Entries(t.kids[i]), EntriesFrom(t, i + 1), s, all);
      s', stop := Iterate(child.value, cb, s');
      if stop {
        return;
      }
    }
    MidwayEnd(cb, t, s', s, all);
  }

  // ----- prefix search -----

  ghost function RootEntries(root: Option<Ref>): seq<Entry>
    reads if root.Some? && root.value.Inner? then {root.value.node} else {}
  {
    EntriesIn(RootTree(root))
  }

  /** A leaf is taken when its key starts with the prefix. */
  method CollectMatch(k: Key, v: Value, q: seq<Byte>, max: nat) returns (matches: seq<Entry>)
    requires max > 0
    ensures matches == Matching([Entry(k, v)], q) && |matches| <= 1
  {
    assert Matching([Entry(k, v)], q) == (if q <= k then [Entry(k, v)] else []) by {
      assert [Entry(k, v)][1..] == [];
    }
    matches := [];
    if |k| >= |q| && k[..|q|] == q {
      matches := Collector(max)(matches, Entry(k, v)).0;
    }
  }

  /**
   The first `max` entries, in order, whose key starts with the prefix; -1 for an empty tree or a
   limit that is not positive.  Bytes beyond the stored part of a prefix are skipped, and one leaf
   decides for a whole subtree.
   */
  method PrefixSearch(root: Option<Ref>, prefix: Option<seq<Byte>>, max: int) returns (count: int, matches: seq<Entry>)
    requires RootValid(root)
    ensures root.None? || max <= 0 ==> count == -1
    ensures root.Some? && max > 0 ==>
              var all := Matching(RootEntries(root), prefix.GetOr([]));
              count == (if |all| <= max then |all| else max) && matches == all[..count]
  {
    hide Valid, WellFormed, Entries, Matching, Minimum;
    if root.None? || max <= 0 {
      return -1, [];
    }
    if prefix.None? || prefix.value == [] {
      EmptyPrefix(Entries(TreeOf(root.value)));
      WalkCollects([], Entries(TreeOf(root.value)), max);
      var stopped;
      matches, stopped := Iterate(root.value, Collector(max), []);
      return |matches|, matches;
    }
    matches := PrefixBelow(root.value, prefix.value, max);
    count := |matches|;
  }

  lemma {:induction false} EmptyPrefix(es: seq<Entry>)
    ensures Matching(es, []) == es
  {
    MatchingAll(es, []);
  }

  method PrefixBelow(root: Ref, q: seq<Byte>, max: nat) returns (matches: seq<Entry>)
    requires RefValid(root) && WellFormed(TreeOf(root), []) && max > 0
    ensures var all := Matching(Entries(TreeOf(root)), q); matches == all[..if |all| <= max then |all| else max]
  {
    hide Valid, WellFormed, Entries, Matching, Minimum;
    var cur, depth := root, 0;
    ghost var path: seq<Byte> := [];
    while true
      invariant RefValid(cur) && WellFormed(TreeOf(cur), path) && |path| == depth <= |q|
      invariant Matching(Entries(TreeOf(cur)), q) == Matching(Entries(TreeOf(root)), q)
      decreases |q| - depth
    {
      if cur.Leaf? {
        LeafEntries(cur.key, cur.value);
        matches := CollectMatch(cur.key, cur.value, q, max);
        return;
      }
      var n := cur.node;
      TreeBranch(n);
      var decided, next;
      decided, matches, next := PrefixStep(n, q, depth, max, path);
      if decided {
        return;
      }
      path := path + n.tree.prefix + [q[depth + n.prefixLen]];
      cur, depth := next, depth + n.prefixLen + 1;
    }
  }

  lemma {:induction false} LeafEntries(k: Key, v: Value)
    ensures Entries(Tip(k, v)) == [Entry(k, v)]
  {
  }

  /** One inner node: mismatch, a decision for the whole subtree, a dead end, or the child to go on with. */
  method PrefixStep(n: Node, q: seq<Byte>, depth: nat, max: nat, ghost path: seq<Byte>)
    returns (decided: bool, matches: seq<Entry>, next: Ref)
    requires Valid(n) && WellFormed(n.tree, path) && |path| == depth <= |q| && max > 0
    ensures n.tree.Branch? && n.prefixLen == |n.tree.prefix|
    ensures decided ==>
              var all := Matching(Entries(n.tree), q); matches == all[..if |all| <= max then |all| else max]
    ensures !decided ==>
              && depth + n.prefixLen < |q|
              && RefValid(next) && WellFormed(TreeOf(next), path + n.tree.prefix + [q[depth + n.prefixLen]])
              && Matching(Entries(TreeOf(next)), q) == Matching(Entries(n.tree), q)
  {
    hide Valid, WellFormed, Entries, Matching, Minimum, KidsOk, Node.Ok;
    TreeBranch(n);
    ChildHeader(n);
    next, matches := Inner(n), [];
    ghost var t := n.tree;
    var cpl := CheckPrefixPartial(n, q, depth);
    var stored := Min(n.prefixLen, MAX_PREFIX_LEN);
    if cpl < stored && depth + cpl < |q| {
      assert (path + t.prefix)[depth + cpl] == t.prefix[cpl] == t.prefix[..stored][cpl];
      PrefixMismatch(t, path, q, depth + cpl);
      return true, matches, next;
    }
    var e := depth + n.prefixLen;
    if e >= |q| {
      PrefixDecidedByMinimum(t, path, q);
      var k, v := FindMinimum(Inner(n), path);
      if |k| >= |q| && k[..|q|] == q {
        var stopped;
        WalkCollects([], Entries(t), max);
        matches, stopped := Iterate(Inner(n), Collector(max), []);
      }
      return true, matches, next;
    }
    PrefixDescend(t, path, q);
    KidKeys(n);
    var slot := n.GetChild(q[e]);
    if slot == -1 || n.children[slot] == None {
      return true, matches, next;
    }
    KidRef(n, q[e]);
    KidOnPath(t, path, q[e]);
    decided, next := false, n.children[slot].value;
  }
}
