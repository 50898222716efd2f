/**
 What the arrays of a node stand for, as predicates over their contents: a map `kids` from branch
 byte to child.  One lemma for each update of the arrays.
 */
module ArtLayout {
  import opened Wrappers
  import opened Bytes

  datatype Kind = Node4 | Node16 | Node48 | Node256

  function Capacity(kind: Kind): nat {
    match kind
    case Node4 => 4
    case Node16 => 16
    case Node48 => 48
    case Node256 => 256
  }

  function KeySlots(kind: Kind): nat {
    match kind
    case Node4 => 4
    case Node16 => 16
    case Node48 => 256
    case Node256 => 0
  }

  /** The numbers of children that a node of each kind has between operations on a tree. */
  predicate Sized(kind: Kind, n: nat) {
    match kind
    case Node4 => 2 <= n <= 4
    case Node16 => 4 <= n <= 16
    case Node48 => 13 <= n <= 48
    case Node256 => 38 <= n <= 256
  }

  // ----- shifting part of an array -----

  /** The first n elements with x put in at position i; what follows is unused. */
  function InsertAt<T>(s: seq<T>, i: nat, n: nat, x: T): (r: seq<T>)
    requires i <= n < |s|
    ensures |r| == |s|
    ensures forall j | 0 <= j < |s| :: r[j] == if j < i then s[j] else if j == i then x
          else if j <= n then s[j - 1] else s[j]
  {
    s[..i] + [x] + s[i..n] + s[n + 1..]
  }

  /** The first n elements without the one at position i; the last one stays behind, unused. */
  function RemoveAt<T>(s: seq<T>, i: nat, n: nat): (r: seq<T>)
    requires i < n <= |s|
    ensures |r| == |s|
    ensures forall j | 0 <= j < |s| :: r[j] == if i <= j < n - 1 then s[j + 1] else s[j]
  {
    s[..i] + s[i + 1..n] + s[n - 1..]
  }

  // ----- the sorted arrays of Node4 and Node16 -----

  ghost predicate SortedKeys(keys: seq<Byte>, n: nat)
    requires n <= |keys|
  {
    n < 2 || (keys[n - 2] < keys[n - 1] && SortedKeys(keys, n - 1))
  }

  lemma {:induction false} SortedPairs(keys: seq<Byte>, n: nat)
    requires n <= |keys| && SortedKeys(keys, n)
    ensures forall i, j | 0 <= i < j < n :: keys[i] < keys[j]
  {
    if n >= 2 {
      SortedPairs(keys, n - 1);
    }
  }

  lemma {:induction false} SortedAt(keys: seq<Byte>, n: nat, i: nat)
    requires n <= |keys| && SortedKeys(keys, n) && 0 < i < n
    ensures keys[i - 1] < keys[i]
  {
    SortedPairs(keys, n);
  }

  lemma {:induction false} PairsSorted(keys: seq<Byte>, n: nat)
    requires n <= |keys| && forall i, j | 0 <= i < j < n :: keys[i] < keys[j]
    ensures SortedKeys(keys, n)
  {
    if n >= 2 {
      PairsSorted(keys, n - 1);
    }
  }

  ghost predicate Bound<T>(keys: seq<Byte>, slots: seq<Option<T>>, n: nat, kids: map<Byte, T>)
    requires n <= |keys| == |slots|
  {
    forall i | 0 <= i < n :: keys[i] in kids && slots[i] == Some(kids[keys[i]])
  }

  ghost predicate Covered<T>(keys: seq<Byte>, n: nat, kids: map<Byte, T>)
    requires n <= |keys|
  {
    forall b | b in kids :: b in keys[..n]
  }

  ghost predicate Ordered<T>(keys: seq<Byte>, slots: seq<Option<T>>, n: nat, kids: map<Byte, T>) {
    && n <= |keys| == |slots| && n == |kids|
    && SortedKeys(keys, n) && Bound(keys, slots, n, kids) && Covered(keys, n, kids)
  }

  lemma {:induction false} Position<T>(keys: seq<Byte>, n: nat, kids: map<Byte, T>, b: Byte) returns (i: nat)
    requires n <= |keys| && Covered(keys, n, kids) && b in kids
    ensures i < n && keys[i] == b
  {
    assert b in keys[..n];
    i :| 0 <= i < n && keys[..n][i] == b;
  }

  lemma {:induction false} SortedInsert(keys: seq<Byte>, n: nat, at: nat, ch: Byte)
    requires n < |keys| && at <= n && SortedKeys(keys, n)
    requires forall i | 0 <= i < at :: keys[i] < ch
    requires forall i | at <= i < n :: ch < keys[i]
    ensures SortedKeys(InsertAt(keys, at, n, ch), n + 1)
  {
    SortedPairs(keys, n);
    PairsSorted(InsertAt(keys, at, n, ch), n + 1);
  }

  lemma {:induction false} BoundInsert<T>(
      keys: seq<Byte>, slots: seq<Option<T>>, n: nat, kids: map<Byte, T>, at: nat, ch: Byte, kid: T)
    requires n < |keys| == |slots| && at <= n && ch !in kids && Bound(keys, slots, n, kids)
    ensures Bound(InsertAt(keys, at, n, ch), InsertAt(slots, at, n, Some(kid)), n + 1, kids[ch := kid])
  {
    var ks, ss, kids' := InsertAt(keys, at, n, ch), InsertAt(slots, at, n, Some(kid)), kids[ch := kid];
    forall i | 0 <= i < n + 1 ensures ks[i] in kids' && ss[i] == Some(kids'[ks[i]]) {
      if i != at {
        var j := if i < at then i else i - 1;
        assert ks[i] == keys[j] && ss[i] == slots[j] && keys[j] in kids;
      }
    }
  }

  lemma {:induction false} CoveredInsert<T>(keys: seq<Byte>, n: nat, kids: map<Byte, T>, at: nat, ch: Byte, kid: T)
    requires n < |keys| && at <= n && Covered(keys, n, kids)
    ensures Covered(InsertAt(keys, at, n, ch), n + 1, kids[ch := kid])
  {
    var ks, kids' := InsertAt(keys, at, n, ch), kids[ch := kid];
    forall b | b in kids' ensures b in ks[..n + 1] {
      if b == ch {
        assert ks[..n + 1][at] == b;
      } else {
        var i := Position(keys, n, kids, b);
        assert ks[..n + 1][if i < at then i else i + 1] == b;
      }
    }
  }

  /** Putting a child in at its place in the order adds exactly that child. */
  lemma {:induction false} OrderedInsert<T>(
      keys: seq<Byte>, slots: seq<Option<T>>, n: nat, kids: map<Byte, T>, at: nat, ch: Byte, kid: T)
    requires Ordered(keys, slots, n, kids) && n < |keys| && at <= n && ch !in kids
    requires forall i | 0 <= i < at :: keys[i] < ch
    requires forall i | at <= i < n :: ch < keys[i]
    ensures Ordered(InsertAt(keys, at, n, ch), InsertAt(slots, at, n, Some(kid)), n + 1, kids[ch := kid])
  {
    MapGrow(kids, ch, kid);
    SortedInsert(keys, n, at, ch);
    BoundInsert(keys, slots, n, kids, at, ch, kid);
    CoveredInsert(keys, n, kids, at, ch, kid);
  }

  lemma {:induction false} SortedRemove(keys: seq<Byte>, n: nat, at: nat)
    requires at < n <= |keys| && SortedKeys(keys, n)
    ensures SortedKeys(RemoveAt(keys, at, n), n - 1)
    ensures forall i | 0 <= i < n - 1 :: RemoveAt(keys, at, n)[i] != keys[at]
  {
    SortedPairs(keys, n);
    PairsSorted(RemoveAt(keys, at, n), n - 1);
  }

  lemma {:induction false} BoundRemove<T>(keys: seq<Byte>, slots: seq<Option<T>>, n: nat, kids: map<Byte, T>, at: nat)
    requires at < n <= |keys| == |slots| && SortedKeys(keys, n) && Bound(keys, slots, n, kids)
    ensures Bound(RemoveAt(keys, at, n), RemoveAt(slots, at, n), n - 1, kids - {keys[at]})
  {
    SortedRemove(keys, n, at);
    var ks, ss, kids' := RemoveAt(keys, at, n), RemoveAt(slots, at, n), kids - {keys[at]};
    forall i | 0 <= i < n - 1 ensures ks[i] in kids' && ss[i] == Some(kids'[ks[i]]) {
      var j := if i < at then i else i + 1;
      assert ks[i] == keys[j] && ss[i] == slots[j] && keys[j] in kids;
    }
  }

  lemma {:induction false} CoveredRemove<T>(keys: seq<Byte>, n: nat, kids: map<Byte, T>, at: nat)
    requires at < n <= |keys| && Covered(keys, n, kids)
    ensures Covered(RemoveAt(keys, at, n), n - 1, kids - {keys[at]})
  {
    var ks, kids' := RemoveAt(keys, at, n), kids - {keys[at]};
    forall b | b in kids' ensures b in ks[..n - 1] {
      var i := Position(keys, n, kids, b);
      assert ks[..n - 1][if i < at then i else i - 1] == b;
    }
  }

  /** Closing the gap over one child removes exactly that child. */
  lemma {:induction false} OrderedRemove<T>(keys: seq<Byte>, slots: seq<Option<T>>, n: nat, kids: map<Byte, T>, at: nat)
    requires Ordered(keys, slots, n, kids) && at < n
    ensures Ordered(RemoveAt(keys, at, n), RemoveAt(slots, at, n), n - 1, kids - {keys[at]})
  {
    MapDrop(kids, keys[at]);
    SortedRemove(keys, n, at);
    BoundRemove(keys, slots, n, kids, at);
    CoveredRemove(keys, n, kids, at);
  }

  lemma {:induction false} BoundStore<T>(keys: seq<Byte>, slots: seq<Option<T>>, n: nat, kids: map<Byte, T>,
        at: nat, kid: T)
    requires at < n <= |keys| == |slots| && SortedKeys(keys, n) && Bound(keys, slots, n, kids)
    ensures Bound(keys, slots[at := Some(kid)], n, kids[keys[at] := kid])
  {
    SortedPairs(keys, n);
    hide SortedKeys;
    var kids' := kids[keys[at] := kid];
    forall i | 0 <= i < n ensures keys[i] in kids' && slots[at := Some(kid)][i] == Some(kids'[keys[i]]) {
      assert i != at ==> keys[i] != keys[at];
    }
  }

  lemma {:induction false} OrderedStore<T>(keys: seq<Byte>, slots: seq<Option<T>>, n: nat, kids: map<Byte, T>,
        at: nat, kid: T)
    requires Ordered(keys, slots, n, kids) && at < n
    ensures Ordered(keys, slots[at := Some(kid)], n, kids[keys[at] := kid])
  {
    BoundStore(keys, slots, n, kids, at, kid);
    hide Bound, SortedKeys;
    MapGrow(kids, keys[at], kid);
  }

  /** A search that ends between two keys, or beyond the last, has missed nothing. */
  lemma {:induction false} SearchMiss<T>(keys: seq<Byte>, slots: seq<Option<T>>, n: nat, kids: map<Byte, T>, ch: Byte)
    requires Ordered(keys, slots, n, kids) && forall i | 0 <= i < n :: keys[i] != ch
    ensures ch !in kids
  {
    if ch in kids {
      var i := Position(keys, n, kids, ch);
      assert false;
    }
  }

  lemma {:induction false} AbsentKey<T>(keys: seq<Byte>, slots: seq<Option<T>>, n: nat, kids: map<Byte, T>, ch: Byte)
    requires Ordered(keys, slots, n, kids) && ch !in kids
    ensures forall i | 0 <= i < n :: keys[i] != ch
  {
  }

  lemma {:induction false} OrderedKeys<T>(keys: seq<Byte>, slots: seq<Option<T>>, n: nat, kids: map<Byte, T>)
    requires Ordered(keys, slots, n, kids)
    ensures n <= |keys| && SortedKeys(keys, n)
  {
  }

  /** The first key is the least branch byte. */
  lemma {:induction false} FirstOrdered<T>(keys: seq<Byte>, slots: seq<Option<T>>, n: nat, kids: map<Byte, T>)
    requires Ordered(keys, slots, n, kids) && kids != map[]
    ensures n > 0 && keys[0] in kids && slots[0] == Some(kids[keys[0]])
    ensures forall c | c in kids :: keys[0] <= c
  {
    var some :| some in kids;
    var j := Position(keys, n, kids, some);
    SortedPairs(keys, n);
    forall c | c in kids ensures keys[0] <= c {
      var i := Position(keys, n, kids, c);
    }
  }

  /** The same first n elements in longer or shorter arrays. */
  lemma {:induction false} OrderedCopy<T>(
      keys: seq<Byte>, slots: seq<Option<T>>, n: nat, kids: map<Byte, T>, keys': seq<Byte>, slots': seq<Option<T>>)
    requires Ordered(keys, slots, n, kids) && n <= |keys'| == |slots'|
    requires keys'[..n] == keys[..n] && slots'[..n] == slots[..n]
    ensures Ordered(keys', slots', n, kids)
  {
    assert forall i | 0 <= i < n :: keys'[i] == keys'[..n][i] == keys[..n][i] == keys[i];
    forall i | 0 <= i < n ensures keys'[i] in kids && slots'[i] == Some(kids[keys'[i]]) {
      assert slots'[i] == slots'[..n][i] == slots[..n][i] == slots[i];
      assert keys'[i] == keys'[..n][i] == keys[..n][i] == keys[i] && keys[i] in kids;
    }
    SortedPairs(keys, n);
    PairsSorted(keys', n);
    forall b | b in kids ensures b in keys'[..n] {
      assert b in keys[..n];
    }
  }

  /** The map of the first i elements. */
  ghost function FirstKids<T>(keys: seq<Byte>, slots: seq<Option<T>>, i: nat): (m: map<Byte, T>)
    requires i <= |keys| == |slots|
  {
    if i == 0 then map[]
    else
      var before := FirstKids(keys, slots, i - 1);
      if slots[i - 1].None? then before else before[keys[i - 1] := slots[i - 1].value]
  }

  lemma {:induction false} FirstKidsStep<T>(keys: seq<Byte>, slots: seq<Option<T>>, i: nat)
    requires 0 < i <= |keys| == |slots| && slots[i - 1].Some?
    ensures FirstKids(keys, slots, i) == FirstKids(keys, slots, i - 1)[keys[i - 1] := slots[i - 1].value]
  {
  }

  lemma {:induction false} FirstKidsWithin<T>(keys: seq<Byte>, slots: seq<Option<T>>, n: nat, kids: map<Byte, T>,
        i: nat)
    requires Ordered(keys, slots, n, kids) && i <= n
    ensures forall b | b in FirstKids(keys, slots, i) :: b in kids && FirstKids(keys, slots, i)[b] == kids[b]
    ensures forall b | b in FirstKids(keys, slots, i) :: i > 0 && b <= keys[i - 1]
    ensures |FirstKids(keys, slots, i)| == i
  {
    if i > 0 {
      FirstKidsWithin(keys, slots, n, kids, i - 1);
      assert slots[i - 1] == Some(kids[keys[i - 1]]);
      if i > 1 {
        SortedAt(keys, n, i - 1);
      }
      hide Ordered, FirstKids;
      FirstKidsStep(keys, slots, i);
      GrowsAbove(FirstKids(keys, slots, i - 1), kids, keys[i - 1]);
    }
  }

  /** A part of a map whose keys lie below one more key of the map. */
  lemma {:induction false} GrowsAbove<T>(part: map<Byte, T>, kids: map<Byte, T>, k: Byte)
    requires forall b | b in part :: b in kids && part[b] == kids[b] && b < k
    requires k in kids
    ensures forall b | b in part[k := kids[k]] :: b in kids && part[k := kids[k]][b] == kids[b] && b <= k
    ensures k !in part && |part[k := kids[k]]| == |part| + 1
  {
    MapGrow(part, k, kids[k]);
  }

  lemma {:induction false} FirstKidsNext<T>(keys: seq<Byte>, slots: seq<Option<T>>, n: nat, kids: map<Byte, T>, i: nat)
    requires Ordered(keys, slots, n, kids) && i < n
    ensures keys[i] !in FirstKids(keys, slots, i) && slots[i].Some?
    ensures FirstKids(keys, slots, i + 1) == FirstKids(keys, slots, i)[keys[i] := slots[i].value]
  {
    FirstKidsWithin(keys, slots, n, kids, i);
    assert slots[i] == Some(kids[keys[i]]);
    if i > 0 {
      SortedAt(keys, n, i);
    }
  }

  lemma {:induction false} FirstKidsAll<T>(keys: seq<Byte>, slots: seq<Option<T>>, n: nat, kids: map<Byte, T>)
    requires Ordered(keys, slots, n, kids)
    ensures FirstKids(keys, slots, n) == kids
  {
    FirstKidsWithin(keys, slots, n, kids, n);
    SameSizeSubmap(FirstKids(keys, slots, n), kids);
  }

  /** A submap with as many bindings is the map itself. */
  lemma {:induction false} SameSizeSubmap<T>(m: map<Byte, T>, all: map<Byte, T>)
    requires |m| == |all| && forall b | b in m :: b in all && m[b] == all[b]
    ensures m == all
  {
    assert |m.Keys| == |m| && |all.Keys| == |all|;
    assert m.Keys <= all.Keys;
    assert |all.Keys - m.Keys| == |all.Keys| - |m.Keys|;
    assert forall b | b in all :: b in m || b in all.Keys - m.Keys;
  }

  /** The children whose branch byte is below i. */
  ghost function KidsBelow<T>(kids: map<Byte, T>, i: nat): map<Byte, T> {
    map b | b in kids && b < i :: kids[b]
  }

  lemma {:induction false} KidsBelowStep<T>(kids: map<Byte, T>, i: Byte)
    ensures i !in KidsBelow(kids, i)
    ensures KidsBelow(kids, i + 1) == if i in kids then KidsBelow(kids, i)[i := kids[i]] else KidsBelow(kids, i)
  {
  }

  lemma {:induction false} KidsBelowRoom<T>(kids: map<Byte, T>, i: Byte)
    requires i in kids
    ensures |KidsBelow(kids, i)| < |kids|
  {
    var m := KidsBelow(kids, i);
    var rest := kids.Keys - m.Keys;
    assert m.Keys <= kids.Keys && |m.Keys| == |m| && |kids.Keys| == |kids|;
    assert |rest| == |kids.Keys| - |m.Keys|;
    assert i in rest;
  }

  lemma {:induction false} KeysBelow<T>(keys: seq<Byte>, slots: seq<Option<T>>, n: nat, kids: map<Byte, T>, i: nat)
    requires Ordered(keys, slots, n, KidsBelow(kids, i))
    ensures forall j | 0 <= j < n :: keys[j] < i
  {
  }

  lemma {:induction false} KidsBelowAll<T>(kids: map<Byte, T>)
    ensures KidsBelow(kids, 256) == kids && KidsBelow(kids, 0) == map[]
  {
  }

  // ----- the indirection table of Node48 -----

  /** Zero for no child, otherwise the slot plus one; `owner` names the branch byte of each used slot. */
  ghost predicate Indexed<T>(keys: seq<Byte>, slots: seq<Option<T>>, owner: seq<Byte>, n: nat, kids: map<Byte, T>) {
    && |keys| == 256 && |slots| == |owner| == 48 && n == |kids|
    && (forall b: Byte | b !in kids :: keys[b] == 0)
    && (forall b: Byte | b in kids ::
          0 < keys[b] <= 48 && slots[keys[b] - 1] == Some(kids[b]) && owner[keys[b] - 1] == b)
    && (forall j | 0 <= j < 48 && slots[j].Some? :: owner[j] in kids && keys[owner[j]] == j + 1)
  }

  ghost predicate FreeFrom<T>(slots: seq<Option<T>>, i: nat) {
    forall j | i <= j < |slots| :: slots[j] == None
  }

  lemma {:induction false} EmptyIsFree<T>(keys: seq<Byte>, slots: seq<Option<T>>, owner: seq<Byte>, n: nat)
    requires Indexed(keys, slots, owner, n, map[])
    ensures FreeFrom(slots, 0)
  {
  }

  /** A Node48 below its capacity has a free slot. */
  lemma {:induction false} FreeSlot<T>(keys: seq<Byte>, slots: seq<Option<T>>, owner: seq<Byte>, n: nat,
        kids: map<Byte, T>)
    requires Indexed(keys, slots, owner, n, kids)
    ensures n <= 48
    ensures (forall j | 0 <= j < 48 :: slots[j].Some?) ==> n == 48
  {
    var used := set b | b in kids :: keys[b];
    assert |kids.Keys| == |kids|;
    SlotsOf(keys, owner, kids.Keys);
    if forall j | 0 <= j < 48 :: slots[j].Some? {
      forall i, j | 0 <= i < j < 48 ensures owner[i] != owner[j] {
        assert keys[owner[i]] == i + 1 && keys[owner[j]] == j + 1;
      }
      CountDistinct(kids.Keys, owner);
    }
  }

  /** Bytes with distinct table entries of at most 48 are at most 48. */
  lemma {:induction false} SlotsOf(keys: seq<Byte>, owner: seq<Byte>, bytes: set<Byte>)
    requires |keys| == 256 && |owner| == 48
    requires forall b | b in bytes :: 0 < keys[b] <= 48 && owner[keys[b] - 1] == b
    ensures |bytes| <= 48
  {
    var used := set b | b in bytes :: keys[b] - 1;
    SameSize(keys, owner, bytes);
    CountBelow(set b | b in bytes :: (keys[b] - 1) as Byte, 48);
  }

  lemma {:induction false} SameSize(keys: seq<Byte>, owner: seq<Byte>, bytes: set<Byte>)
    requires |keys| == 256 && |owner| == 48
    requires forall b | b in bytes :: 0 < keys[b] <= 48 && owner[keys[b] - 1] == b
    ensures |set b | b in bytes :: (keys[b] - 1) as Byte| == |bytes|
  {
    if bytes != {} {
      var c :| c in bytes;
      SameSize(keys, owner, bytes - {c});
      assert (set b | b in bytes :: (keys[b] - 1) as Byte)
            == (set b | b in bytes - {c} :: (keys[b] - 1) as Byte) + {keys[c] - 1};
      assert keys[c] - 1 !in (set b | b in bytes - {c} :: (keys[b] - 1) as Byte);
    }
  }

  lemma {:induction false} IndexedInsert<T>(
      keys: seq<Byte>, slots: seq<Option<T>>, owner: seq<Byte>, n: nat, kids: map<Byte, T>, pos: nat, ch: Byte, kid: T)
    requires Indexed(keys, slots, owner, n, kids) && ch !in kids && pos < 48 && slots[pos].None?
    ensures Indexed(keys[ch := pos + 1], slots[pos := Some(kid)], owner[pos := ch], n + 1, kids[ch := kid])
  {
    MapGrow(kids, ch, kid);
  }

  lemma {:induction false} IndexedRemove<T>(
      keys: seq<Byte>, slots: seq<Option<T>>, owner: seq<Byte>, n: nat, kids: map<Byte, T>, ch: Byte)
    requires Indexed(keys, slots, owner, n, kids) && ch in kids
    ensures Indexed(keys[ch := 0], slots[keys[ch] - 1 := None], owner, n - 1, kids - {ch})
  {
    MapDrop(kids, ch);
    var freed := keys[ch] - 1;
    forall b: Byte | b in kids && b != ch ensures keys[b] - 1 != freed {
      assert owner[freed] == ch && owner[keys[b] - 1] == b;
    }
  }

  lemma {:induction false} IndexedStore<T>(
      keys: seq<Byte>, slots: seq<Option<T>>, owner: seq<Byte>, n: nat, kids: map<Byte, T>, ch: Byte, kid: T)
    requires Indexed(keys, slots, owner, n, kids) && ch in kids
    ensures Indexed(keys, slots[keys[ch] - 1 := Some(kid)], owner, n, kids[ch := kid])
  {
    MapGrow(kids, ch, kid);
  }

  // ----- the direct slots of Node256 -----

  /** A slot for every byte; the 8-bit counter wraps at 256 children. */
  ghost predicate Direct<T>(slots: seq<Option<T>>, count: nat, kids: map<Byte, T>) {
    && |slots| == 256 && count == |kids| % 256
    && (forall b: Byte :: slots[b] == if b in kids then Some(kids[b]) else None)
  }

  lemma {:induction false} DirectInsert<T>(slots: seq<Option<T>>, count: nat, kids: map<Byte, T>, ch: Byte, kid: T)
    requires Direct(slots, count, kids)
    ensures Direct(slots[ch := Some(kid)], if ch in kids then count else (count + 1) % 256, kids[ch := kid])
  {
    MapGrow(kids, ch, kid);
  }

  lemma {:induction false} DirectRemove<T>(slots: seq<Option<T>>, count: nat, kids: map<Byte, T>, ch: Byte)
    requires Direct(slots, count, kids) && ch in kids
    ensures Direct(slots[ch := None], (count - 1) % 256, kids - {ch})
  {
    MapDrop(kids, ch);
  }

  /** The wrapped counter, decremented, is the true number of children left, so it never misleads a downgrade. */
  lemma {:induction false} CounterExact<T>(slots: seq<Option<T>>, count: nat, kids: map<Byte, T>)
    requires Direct(slots, count, kids) && kids != map[]
    ensures |kids| <= 256 && (count - 1) % 256 == |kids| - 1
  {
    CountBelow(kids.Keys, 256);
    assert |kids.Keys| == |kids|;
  }

  // ----- a node of any kind -----

  ghost predicate Layout<T>(
      kind: Kind, keys: seq<Byte>, slots: seq<Option<T>>, owner: seq<Byte>, count: nat, kids: map<Byte, T>) {
    && |keys| == KeySlots(kind) && |slots| == Capacity(kind)
    && match kind
       case Node4 => Ordered(keys, slots, count, kids)
       case Node16 => Ordered(keys, slots, count, kids)
       case Node48 => Indexed(keys, slots, owner, count, kids)
       case Node256 => Direct(slots, count, kids)
  }

  lemma {:induction false} LayoutCount<T>(
      kind: Kind, keys: seq<Byte>, slots: seq<Option<T>>, owner: seq<Byte>, count: nat, kids: map<Byte, T>)
    requires Layout(kind, keys, slots, owner, count, kids)
    ensures |keys| == KeySlots(kind) && |slots| == Capacity(kind)
    ensures if kind == Node256 then count == |kids| % 256 else count == |kids| <= Capacity(kind)
  {
    if kind == Node48 {
      FreeSlot(keys, slots, owner, count, kids);
    }
  }

  /** The kind after a child is added to a node with n children: only a full node grows. */
  function KindAfterAdd(kind: Kind, n: nat): Kind {
    match kind
    case Node4 => if n < 4 then Node4 else Node16
    case Node16 => if n < 16 then Node16 else Node48
    case Node48 => if n < 48 then Node48 else Node256
    case Node256 => Node256
  }

  /** The kind after a child is removed from a node with n children: shrinking lags behind growing. */
  function KindAfterRemove(kind: Kind, n: nat): Kind {
    match kind
    case Node4 => Node4
    case Node16 => if n - 1 <= 3 then Node4 else Node16
    case Node48 => if n - 1 <= 12 then Node16 else Node48
    case Node256 => if n - 1 <= 37 then Node48 else Node256
  }

  lemma {:induction false} SizedAfterAdd(kind: Kind, n: nat)
    requires Sized(kind, n) && n < 256
    ensures Sized(KindAfterAdd(kind, n), n + 1)
  {
  }

  /** A removal leaves a node within its sizes, unless it leaves a Node4 with one child, which is merged away. */
  lemma {:induction false} SizedAfterRemove(kind: Kind, n: nat)
    requires Sized(kind, n)
    ensures if kind == Node4 && n == 2 then KindAfterRemove(kind, n) == Node4
            else Sized(KindAfterRemove(kind, n), n - 1)
  {
  }

  /** A node changes its kind exactly when it is full, and exactly when it is left with 3, 12 or 37 children. */
  lemma {:induction false} KindChanges(kind: Kind, n: nat)
    requires Sized(kind, n)
    ensures KindAfterAdd(kind, n) != kind
            <==> (kind == Node4 && n == 4) || (kind == Node16 && n == 16) || (kind == Node48 && n == 48)
    ensures KindAfterRemove(kind, n) != kind
            <==> (kind == Node16 && n == 4) || (kind == Node48 && n == 13) || (kind == Node256 && n == 38)
  {
  }

  lemma {:induction false} SizedBranches(kind: Kind, n: nat)
    ensures Sized(kind, n) ==> n >= 2
  {
  }
}
