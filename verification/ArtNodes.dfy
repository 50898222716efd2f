/**
 The nodes of the adaptive radix tree.  Each method updates the arrays of a node in place, or moves
 them to a new node of another kind, and is stated on the map `kids` that the arrays stand for.
 */
module ArtNodes {
  import opened Wrappers
  import opened Bytes
  import opened Radix
  import opened ArtLayout

  const MAX_PREFIX_LEN := 10

  function Min(a: nat, b: nat): nat {
    if a < b then a else b
  }

  /** What a child slot refers to: a leaf or an inner node. */
  datatype Ref = Leaf(key: Key, value: Value) | Inner(node: Node)

  /** Make room for x at position `at` of the first n elements. */
  method Shift<T>(a: array<T>, at: nat, n: nat, x: T)
    requires at <= n < a.Length
    modifies a
    ensures a[..] == InsertAt(old(a[..]), at, n, x)
  {
    forall i | at <= i < n {
      a[i + 1] := a[i];
    }
    a[at] := x;
  }

  /** Close the gap over position `at` of the first n elements. */
  method Close<T>(a: array<T>, at: nat, n: nat)
    requires at < n <= a.Length
    modifies a
    ensures a[..] == RemoveAt(old(a[..]), at, n)
  {
    forall i | at <= i < n - 1 {
      a[i] := a[i + 1];
    }
  }

  /** Copy the first n elements. */
  method Copy<T>(src: array<T>, dst: array<T>, n: nat)
    requires n <= src.Length && n <= dst.Length && src != dst
    modifies dst
    ensures dst[..n] == src[..n]
  {
    forall i | 0 <= i < n {
      dst[i] := src[i];
    }
  }

  /** Binary search: the last of the first `length` sorted keys that is at most `ch`, or -1. */
  method FindIndex(ch: Byte, keys: array<Byte>, length: nat) returns (idx: int)
    requires length <= keys.Length && SortedKeys(keys[..], length)
    ensures -1 <= idx < length
    ensures forall i | 0 <= i < idx :: keys[i] < ch
    ensures idx >= 0 ==> keys[idx] <= ch
    ensures forall i | idx < i < length :: ch < keys[i]
  {
    hide SortedKeys;
    var left, right := 0, length - 1;
    if length == 0 {
      return -1;
    }
    while left + 1 < right
      invariant 0 <= left <= right < length
      invariant left == 0 || keys[left] <= ch
      invariant right == length - 1 || ch < keys[right]
    {
      var mid := (left + right) / 2;
      if keys[mid] == ch {
        Bracket(keys, length, mid, ch);
        return mid;
      }
      if keys[mid] < ch {
        left := mid;
      } else {
        right := mid;
      }
    }
    if keys[right] <= ch {
      Bracket(keys, length, right, ch);
      return right;
    } else if keys[left] <= ch {
      Bracket(keys, length, left, ch);
      return left;
    }
    Bracket(keys, length, -1, ch);
    return -1;
  }

  /** Two neighbours that enclose a byte place it among all the sorted keys. */
  lemma {:induction false} Bracket(keys: array<Byte>, length: nat, idx: int, ch: Byte)
    requires -1 <= idx < length <= keys.Length && SortedKeys(keys[..], length)
    requires idx >= 0 ==> keys[idx] <= ch
    requires idx + 1 < length ==> ch < keys[idx + 1] || (idx >= 0 && keys[idx] == ch)
    ensures forall i | 0 <= i < idx :: keys[i] < ch
    ensures forall i | idx < i < length :: ch < keys[i]
  {
    SortedPairs(keys[..], length);
    hide SortedKeys;
    forall i, j | 0 <= i < j < length ensures keys[i] < keys[j] {
      assert keys[i] == keys[..][i] && keys[j] == keys[..][j];
    }
  }

  /** The place behind a key that is the last one below an absent byte. */
  lemma {:induction false} Place(keys: array<Byte>, length: nat, idx: int, ch: Byte)
    requires -1 <= idx < length <= keys.Length && forall i | 0 <= i < length :: keys[..][i] != ch
    requires forall i | 0 <= i < idx :: keys[i] < ch
    requires idx >= 0 ==> keys[idx] <= ch
    requires forall i | idx < i < length :: ch < keys[i]
    ensures forall i | 0 <= i <= idx :: keys[..][i] < ch
    ensures forall i | idx < i < length :: ch < keys[..][i]
  {
    assert forall i | 0 <= i < length :: keys[..][i] == keys[i];
  }

  class Node {
    const kind: Kind
    var prefixLen: nat
    var prefix: seq<Byte>          // a buffer of MAX_PREFIX_LEN bytes, used up to prefixLen
    var count: Byte                // an 8-bit counter
    const keys: array<Byte>
    const children: array<Option<Ref>>

    ghost var kids: map<Byte, Ref> // what the arrays stand for
    ghost var owner: seq<Byte>     // in a Node48, the branch byte of each used slot
    ghost var tree: Tree           // the radix tree below this node
    ghost var repr: set<object>    // the objects of this node and of the nodes below

    ghost predicate Ok()
      reads `prefix, `count, `kids, `owner, keys, children
    {
      |prefix| == MAX_PREFIX_LEN && Layout(kind, keys[..], children[..], owner, count, kids)
    }

    constructor (kind: Kind)
      ensures this.kind == kind && Ok() && kids == map[]
      ensures prefixLen == 0
      ensures fresh(keys) && fresh(children)
    {
      this.kind := kind;
      prefixLen, count := 0, 0;
      prefix := seq(MAX_PREFIX_LEN, i => 0);
      keys := new Byte[KeySlots(kind)](_ => 0);
      children := new Option<Ref>[Capacity(kind)](_ => None);
      kids, owner := map[], seq(48, i => 0);
    }

    lemma {:induction false} OkCount()
      requires Ok()
      ensures |prefix| == MAX_PREFIX_LEN && keys.Length == KeySlots(kind) && children.Length == Capacity(kind)
      ensures if kind == Node256 then count == |kids| % 256 else count == |kids| <= Capacity(kind)
    {
      LayoutCount(kind, keys[..], children[..], owner, count, kids);
    }

    /** The position of `ch` in the sorted keys, or -1. */
    method FindSlot(ch: Byte) returns (slot: int)
      requires Ok() && (kind == Node4 || kind == Node16)
      ensures -1 <= slot < count && count as int <= keys.Length
      ensures slot == -1 ==> ch !in kids
      ensures slot >= 0 ==> keys[slot] == ch
    {
      hide Bound, Covered, Indexed, Direct;
      slot := FindIndex(ch, keys, count);
      if slot == -1 || keys[slot] != ch {
        SearchMiss(keys[..], children[..], count, kids, ch);
        slot := -1;
      }
    }

    /** Slot `slot` is the one that holds, or in a Node256 would hold, child `ch`. */
    ghost predicate SlotOf(ch: Byte, slot: nat)
      reads this, keys
      requires keys.Length == KeySlots(kind)
    {
      match kind
      case Node4 => slot < count && count <= 4 && keys[slot] == ch
      case Node16 => slot < count && count <= 16 && keys[slot] == ch
      case Node48 => keys[ch] == slot + 1
      case Node256 => slot == ch
    }

    /** The slot of child `ch`, or -1; a Node256 has a slot for every byte. */
    method GetChild(ch: Byte) returns (slot: int)
      requires Ok()
      ensures -1 <= slot < children.Length
      ensures slot == -1 ==> kind != Node256 && ch !in kids
      ensures slot >= 0 ==> children[slot] == if ch in kids then Some(kids[ch]) else None
      ensures slot >= 0 ==> SlotOf(ch, slot)
    {
      match kind
      case Node4 =>
        slot := FindSlot(ch);
      case Node16 =>
        slot := FindSlot(ch);
      case Node48 =>
        slot := keys[ch] as int - 1;
      case Node256 =>
        slot := ch;
    }

    /** The child with the least branch byte. */
    method FirstChild() returns (r: Ref, ghost b: Byte)
      requires Ok() && kids != map[]
      ensures b in kids && r == kids[b] && forall c | c in kids :: b <= c
    {
      match kind
      case Node4 =>
        FirstOrdered(keys[..], children[..], count, kids);
        r, b := children[0].value, keys[0];
      case Node16 =>
        FirstOrdered(keys[..], children[..], count, kids);
        r, b := children[0].value, keys[0];
      case Node48 =>
        ghost var some :| some in kids;
        var idx := 0;
        while keys[idx] == 0
          invariant 0 <= idx <= some && forall c | c in kids :: idx <= c
          decreases 256 - idx
        {
          idx := idx + 1;
        }
        r, b := children[keys[idx] - 1].value, idx;
      case Node256 =>
        ghost var some :| some in kids;
        var idx := 0;
        while children[idx] == None
          invariant 0 <= idx <= some && forall c | c in kids :: idx <= c
          decreases 256 - idx
        {
          idx := idx + 1;
        }
        r, b := children[idx].value, idx;
    }

    /** The child left in a Node4 that lost its other one. */
    method OnlyChild() returns (r: Ref, b: Byte)
      requires Ok() && kind == Node4 && |kids| == 1
      ensures b in kids && r == kids[b]
    {
      FirstOrdered(keys[..], children[..], count, kids);
      r, b := children[0].value, keys[0];
    }

    /** Write through the slot of a child that is there. */
    method Store(ch: Byte, slot: nat, child: Ref)
      requires Ok() && slot < children.Length && SlotOf(ch, slot) && ch in kids
      modifies this`kids, children
      ensures Ok() && kids == old(kids)[ch := child]
    {
      hide Ordered, Indexed, Direct;
      match kind {
        case Node4 => OrderedStore(keys[..], children[..], count, kids, slot, child);
        case Node16 => OrderedStore(keys[..], children[..], count, kids, slot, child);
        case Node48 => IndexedStore(keys[..], children[..], owner, count, kids, ch, child);
        case Node256 => DirectInsert(children[..], count, kids, ch, child);
      }
      children[slot] := Some(child);
      kids := kids[ch := child];
    }

    // ----- adding a child -----

    /** The number of keys below a byte that is not among the keys. */
    method FindPlace(ch: Byte) returns (at: nat)
      requires Ok() && (kind == Node4 || kind == Node16) && ch !in kids
      ensures at <= count as int <= keys.Length
      ensures forall i | 0 <= i < at :: keys[..][i] < ch
      ensures forall i | at <= i < count :: ch < keys[..][i]
    {
      AbsentKey(keys[..], children[..], count, kids, ch);
      OrderedKeys(keys[..], children[..], count, kids);
      hide Ok, SortedKeys;
      var idx := FindIndex(ch, keys, count);
      at := idx + 1;
      Place(keys, count, idx, ch);
    }

    /** Put a child at a place of the sorted arrays of a small node. */
    method PutOrdered(at: nat, ch: Byte, child: Ref)
      requires Ok() && (kind == Node4 || kind == Node16) && count as int < keys.Length && ch !in kids && at <= count
      requires forall i | 0 <= i < at :: keys[..][i] < ch
      requires forall i | at <= i < count :: ch < keys[..][i]
      modifies this`count, this`kids, keys, children
      ensures Ok() && kids == old(kids)[ch := child]
    {
      hide Ordered, Indexed, Direct, InsertAt;
      OrderedInsert(keys[..], children[..], count, kids, at, ch, child);
      Shift(keys, at, count, ch);
      Shift(children, at, count, Some(child));
      count, kids := count + 1, kids[ch := child];
    }

    /** Put a child into a small node that is not full. */
    method AddOrdered(ch: Byte, child: Ref)
      requires Ok() && (kind == Node4 || kind == Node16) && count as int < keys.Length && ch !in kids
      modifies this`count, this`kids, keys, children
      ensures Ok() && kids == old(kids)[ch := child]
    {
      var at := FindPlace(ch);
      PutOrdered(at, ch, child);
    }

    /** Put a child into a free slot and point its byte there. */
    method PutIndexed(pos: nat, ch: Byte, child: Ref)
      requires Ok() && kind == Node48 && pos < 48 && children[..][pos] == None && ch !in kids && count < 255
      modifies this`count, this`kids, this`owner, keys, children
      ensures Ok() && kids == old(kids)[ch := child] && count == old(count) + 1
      ensures children[..] == old(children[..])[pos := Some(child)]
    {
      hide Ordered, Direct;
      IndexedInsert(keys[..], children[..], owner, count, kids, pos, ch, child);
      children[pos] := Some(child);
      keys[ch] := pos + 1;
      owner := owner[pos := ch];
      count, kids := count + 1, kids[ch := child];
    }

    /** Take the first slot that is free: deletions may have left gaps. */
    method AddIndexed(ch: Byte, child: Ref)
      requires Ok() && kind == Node48 && count < 48 && ch !in kids
      modifies this`count, this`kids, this`owner, keys, children
      ensures Ok() && kids == old(kids)[ch := child]
    {
      var pos := 0;
      FreeSlot(keys[..], children[..], owner, count, kids);
      ghost var free :| 0 <= free < 48 && children[..][free].None?;
      while children[pos] != None
        invariant 0 <= pos <= free
        decreases 48 - pos
      {
        pos := pos + 1;
      }
      PutIndexed(pos, ch, child);
    }

    method AddDirect(ch: Byte, child: Ref)
      requires Ok() && kind == Node256 && ch !in kids
      modifies this`count, this`kids, children
      ensures Ok() && kids == old(kids)[ch := child] && count as int == (old(count) + 1) % 256
    {
      DirectInsert(children[..], count, kids, ch, child);
      count := (count + 1) % 256;
      children[ch] := Some(child);
      kids := kids[ch := child];
    }

    // ----- moving to a node of another kind -----

    /** The prefix length and the prefix bytes in use. */
    method CopyPrefix(src: Node)
      requires |prefix| == MAX_PREFIX_LEN && |src.prefix| == MAX_PREFIX_LEN
      modifies this`prefixLen, this`prefix
      ensures SameHeader(src)
    {
      prefixLen := src.prefixLen;
      var n := Min(MAX_PREFIX_LEN, src.prefixLen);
      prefix := src.prefix[..n] + prefix[n..];
    }

    method SetPrefix(len: nat, buffer: seq<Byte>)
      requires Ok() && |buffer| == MAX_PREFIX_LEN
      modifies this`prefixLen, this`prefix
      ensures Ok() && prefixLen == len && prefix == buffer
    {
      prefixLen, prefix := len, buffer;
    }

    /** Record what the node stands for. */
    ghost method SetView(t: Tree, objects: set<object>)
      requires Ok()
      modifies this`tree, this`repr
      ensures Ok() && tree == t && repr == objects
    {
      tree, repr := t, objects;
    }

    /** A copied prefix. */
    ghost predicate SameHeader(src: Node)
      reads `prefixLen, `prefix, src`prefixLen, src`prefix
    {
      && |prefix| == MAX_PREFIX_LEN && |src.prefix| == MAX_PREFIX_LEN
      && prefixLen == src.prefixLen
      && prefix[..Min(MAX_PREFIX_LEN, prefixLen)] == src.prefix[..Min(MAX_PREFIX_LEN, prefixLen)]
    }

    /** The same children in a new Node16, or in a new Node4 when they fit. */
    method MoveOrdered(to: Kind) returns (n: Node)
      requires Ok() && (kind == Node4 || kind == Node16) && (to == Node4 || to == Node16)
            && count as int <= Capacity(to)
      ensures n.Ok() && n.kind == to && n.kids == kids && n.SameHeader(this)
      ensures fresh(n) && fresh(n.keys) && fresh(n.children)
    {
      hide Ordered, Indexed, Direct;
      LayoutCount(kind, keys[..], children[..], owner, count, kids);
      n := new Node(to);
      n.CopyPrefix(this);
      n.count := count;
      Copy(children, n.children, count);
      Copy(keys, n.keys, count);
      n.kids := kids;
      assert n.keys[..][..count] == n.keys[..count] == keys[..count] == keys[..][..count];
      assert n.children[..][..count] == n.children[..count] == children[..count] == children[..][..count];
      OrderedCopy(keys[..], children[..], count, kids, n.keys[..], n.children[..]);
    }

    /** The first i children of a Node16 have been taken over. */
    ghost predicate Filled(src: Node, i: nat)
      reads this, keys, children, src, src.keys, src.children
    {
      && Ok() && kind == Node48 && src.Ok() && src.kind == Node16
      && src != this && src.keys != keys && src.children != children
      && i == count <= src.count && FreeFrom(children[..], i)
      && kids == FirstKids(src.keys[..], src.children[..], i)
    }

    method NthChild(i: nat) returns (b: Byte, child: Ref)
      requires Ok() && kind == Node16 && i < count
      ensures count <= 16 && keys.Length == children.Length == 16
      ensures b !in FirstKids(keys[..], children[..], i)
      ensures FirstKids(keys[..], children[..], i + 1) == FirstKids(keys[..], children[..], i)[b := child]
    {
      FirstKidsNext(keys[..], children[..], count, kids, i);
      b, child := keys[i], children[i].value;
    }

    method FillOne(src: Node, i: nat)
      requires Filled(src, i) && i < src.count
      modifies this`count, this`kids, this`owner, keys, children
      ensures Filled(src, i + 1)
    {
      var b, child := src.NthChild(i);
      hide Ok;
      PutIndexed(i, b, child);
    }

    /** Slot i keeps the i-th child of a Node16, and the byte of the child points at it. */
    method FillIndexed(src: Node)
      requires Filled(src, 0)
      modifies this`count, this`kids, this`owner, keys, children
      ensures Ok() && kids == src.kids
    {
      hide Ordered, Indexed, Direct;
      var i := 0;
      while i < src.count
        invariant Filled(src, i)
      {
        FillOne(src, i);
        i := i + 1;
      }
      FirstKidsAll(src.keys[..], src.children[..], src.count, src.kids);
    }

    method GrowTo48() returns (n: Node)
      requires Ok() && kind == Node16
      ensures n.Ok() && n.kind == Node48 && n.kids == kids && n.SameHeader(this)
      ensures fresh(n) && fresh(n.keys) && fresh(n.children)
    {
      n := new Node(Node48);
      n.CopyPrefix(this);
      EmptyIsFree(n.keys[..], n.children[..], n.owner, n.count);
      n.FillIndexed(this);
    }

    /** The children below byte i have been taken over. */
    ghost predicate Scanned(to: Kind, src: Node, i: nat)
      reads this, keys, children, src, src.keys, src.children
    {
      && Ok() && kind == to && src.Ok()
      && src != this && src.keys != keys && src.children != children
      && kids == KidsBelow(src.kids, i)
    }

    /** The child of a large node for a byte. */
    method ByteChild(b: Byte) returns (child: Option<Ref>)
      requires Ok() && (kind == Node48 || kind == Node256)
      ensures child == if b in kids then Some(kids[b]) else None
    {
      if kind == Node48 {
        child := if keys[b] == 0 then None else children[keys[b] - 1];
      } else {
        child := children[b];
      }
    }

    /** Slot b takes the child that a Node48 has for byte b. */
    method SpreadDirect(src: Node)
      requires Scanned(Node256, src, 0) && src.kind == Node48
      modifies this`count, this`kids, children
      ensures Ok() && kids == src.kids
    {
      hide Ok;
      KidsBelowAll(src.kids);
      for i := 0 to 256
        invariant Scanned(Node256, src, i)
      {
        KidsBelowStep(src.kids, i);
        var child := src.ByteChild(i);
        if child != None {
          AddDirect(i, child.value);
        }
      }
    }

    method GrowTo256() returns (n: Node)
      requires Ok() && kind == Node48
      ensures n.Ok() && n.kind == Node256 && n.kids == kids && n.SameHeader(this)
      ensures fresh(n) && fresh(n.keys) && fresh(n.children)
    {
      KidsBelowAll(kids);
      n := new Node(Node256);
      n.CopyPrefix(this);
      n.SpreadDirect(this);
    }

    /** Add a child; a full node is replaced by a node of the next kind. */
    method AddChild(ch: Byte, child: Ref) returns (n: Node)
      requires Ok() && ch !in kids
      modifies this`count, this`kids, this`owner, keys, children
      ensures n.Ok() && n.kids == old(kids)[ch := child] && n.SameHeader(this)
      ensures n.kind == KindAfterAdd(kind, |old(kids)|)
      ensures n == this || (fresh(n) && fresh(n.keys) && fresh(n.children))
    {
      hide Ok;
      OkCount();
      n := this;
      match kind {
        case Node4 =>
          if count < 4 {
            AddOrdered(ch, child);
          } else {
            n := MoveOrdered(Node16);
            n.OkCount();
            n.AddOrdered(ch, child);
          }
        case Node16 =>
          if count < 16 {
            AddOrdered(ch, child);
          } else {
            n := GrowTo48();
            n.OkCount();
            n.AddIndexed(ch, child);
          }
        case Node48 =>
          if count < 48 {
            AddIndexed(ch, child);
          } else {
            n := GrowTo256();
            n.OkCount();
            n.AddDirect(ch, child);
          }
        case Node256 =>
          AddDirect(ch, child);
      }
    }

    // ----- removing a child -----

    method RemoveOrdered(ch: Byte)
      requires Ok() && (kind == Node4 || kind == Node16) && ch in kids
      modifies this`count, this`kids, keys, children
      ensures Ok() && kids == old(kids) - {ch} && count as int == old(count) as int - 1
    {
      hide Ok;
      var idx := FindSlot(ch);
      CloseOver(ch, idx);
    }

    method CloseOver(ch: Byte, idx: nat)
      requires Ok() && (kind == Node4 || kind == Node16) && idx < count && idx < keys.Length && keys[idx] == ch
      modifies this`count, this`kids, keys, children
      ensures Ok() && kids == old(kids) - {ch} && count as int == old(count) as int - 1
    {
      hide Ordered, Indexed, Direct, RemoveAt;
      LayoutCount(kind, keys[..], children[..], owner, count, kids);
      OrderedRemove(keys[..], children[..], count, kids, idx);
      Close(keys, idx, count);
      Close(children, idx, count);
      count, kids := count - 1, kids - {ch};
    }

    method RemoveIndexed(ch: Byte)
      requires Ok() && kind == Node48 && ch in kids
      modifies this`count, this`kids, keys, children
      ensures Ok() && kids == old(kids) - {ch} && count as int == old(count) as int - 1
    {
      IndexedRemove(keys[..], children[..], owner, count, kids, ch);
      children[keys[ch] - 1] := None;
      keys[ch] := 0;
      count, kids := count - 1, kids - {ch};
    }

    /** The counter of a full Node256 is zero and wraps back to 255. */
    method RemoveDirect(ch: Byte)
      requires Ok() && kind == Node256 && ch in kids
      modifies this`count, this`kids, children
      ensures Ok() && kids == old(kids) - {ch} && count as int == |old(kids)| - 1
    {
      CounterExact(children[..], count, kids);
      DirectRemove(children[..], count, kids, ch);
      children[ch] := None;
      count, kids := (count - 1) % 256, kids - {ch};
    }

    method PutLast(ch: Byte, child: Ref, ghost all: map<Byte, Ref>)
      requires Ok() && kind == Node16 && |kids| < 16 && kids == KidsBelow(all, ch)
      modifies this`count, this`kids, keys, children
      ensures Ok() && kids == old(kids)[ch := child]
    {
      LayoutCount(kind, keys[..], children[..], owner, count, kids);
      KeysBelow(keys[..], children[..], count, all, ch);
      hide Ok;
      PutOrdered(count, ch, child);
    }

    /** The children of a Node48 in byte order at the front of a new Node16. */
    method CollectOrdered(src: Node)
      requires Scanned(Node16, src, 0) && src.kind == Node48 && |src.kids| <= 12
      modifies this`count, this`kids, keys, children
      ensures Ok() && kids == src.kids
    {
      hide Ok;
      KidsBelowAll(src.kids);
      for i := 0 to 256
        invariant Scanned(Node16, src, i)
      {
        KidsBelowStep(src.kids, i);
        var child := src.ByteChild(i);
        if child != None {
          KidsBelowRoom(src.kids, i);
          PutLast(i, child.value, src.kids);
        }
      }
    }

    /** The children of a Node256 in byte order in the first slots of a new Node48. */
    method CollectIndexed(src: Node)
      requires Scanned(Node48, src, 0) && src.kind == Node256 && |src.kids| <= 37 && FreeFrom(children[..], count)
      modifies this`count, this`kids, this`owner, keys, children
      ensures Ok() && kids == src.kids
    {
      hide Ok;
      KidsBelowAll(src.kids);
      for i := 0 to 256
        invariant Scanned(Node48, src, i) && FreeFrom(children[..], count)
      {
        KidsBelowStep(src.kids, i);
        var child := src.ByteChild(i);
        if child != None {
          KidsBelowRoom(src.kids, i);
          OkCount();
          PutIndexed(count, i, child.value);
        }
      }
    }

    method ShrinkTo16() returns (n: Node)
      requires Ok() && kind == Node48 && count <= 12
      ensures n.Ok() && n.kind == Node16 && n.kids == kids && n.SameHeader(this)
      ensures fresh(n) && fresh(n.keys) && fresh(n.children)
    {
      OkCount();
      KidsBelowAll(kids);
      n := new Node(Node16);
      n.CopyPrefix(this);
      n.CollectOrdered(this);
    }

    method ShrinkTo48() returns (n: Node)
      requires Ok() && kind == Node256 && |kids| <= 37
      ensures n.Ok() && n.kind == Node48 && n.kids == kids && n.SameHeader(this)
      ensures fresh(n) && fresh(n.keys) && fresh(n.children)
    {
      KidsBelowAll(kids);
      n := new Node(Node48);
      n.CopyPrefix(this);
      EmptyIsFree(n.keys[..], n.children[..], n.owner, n.count);
      n.OkCount();
      n.CollectIndexed(this);
    }

    /** Remove a child; a node left with few children is replaced by a node of the kind below. */
    method RemoveChild(ch: Byte) returns (n: Node)
      requires Ok() && ch in kids
      modifies this`count, this`kids, this`owner, keys, children
      ensures n.Ok() && n.kids == old(kids) - {ch} && n.SameHeader(this)
      ensures n.kind == KindAfterRemove(kind, |old(kids)|)
      ensures n == this || (fresh(n) && fresh(n.keys) && fresh(n.children))
    {
      hide Ok;
      OkCount();
      MapDrop(kids, ch);
      n := this;
      match kind {
        case Node4 =>
          RemoveOrdered(ch);
        case Node16 =>
          RemoveOrdered(ch);
          if count <= 3 {
            n := MoveOrdered(Node4);
          }
        case Node48 =>
          RemoveIndexed(ch);
          if count <= 12 {
            n := ShrinkTo16();
          }
        case Node256 =>
          RemoveDirect(ch);
          if count <= 37 {
            n := ShrinkTo48();
          }
      }
    }
  }
}
