/** The intrusive doubly linked list with owner pointers (util/list.c). */
module IntrusiveList {

  class Node {
    var next: Node?
    var prev: Node?
    var list: List?

    constructor ()
      ensures next == null && prev == null && list == null
    {
      next, prev, list := null, null, null;
    }
  }

  /** The node at a place of a chain, or null just off either end. */
  ghost function Place(s: seq<Node>, i: int): Node? {
    if 0 <= i < |s| then s[i] else null
  }

  /** Consecutive nodes of s are linked forwards and backwards, and both ends are closed. */
  ghost predicate Linked(s: seq<Node>)
    reads s`next, s`prev
  {
    && (forall i {:trigger s[i].next} | 0 <= i < |s| :: s[i].next == Place(s, i + 1))
    && (forall i {:trigger s[i].prev} | 0 <= i < |s| :: s[i].prev == Place(s, i - 1))
  }

  ghost predicate Distinct(s: seq<Node>) {
    forall i, j | 0 <= i < j < |s| :: s[i] != s[j]
  }

  /** The place of a node in a chain. */
  ghost function IndexOf(s: seq<Node>, n: Node): (i: nat)
    requires n in s
    ensures i < |s| && s[i] == n
  {
    var i: nat :| i < |s| && s[i] == n; i
  }

  /** An index counts from the back when it is negative. */
  function Position(i: int, size: nat): int {
    if i < 0 then size + i else i
  }

  predicate InRange(i: int, size: nat) {
    0 <= Position(i, size) < size
  }

  function Inserted<T>(s: seq<T>, k: nat, x: T): seq<T>
    requires k <= |s|
  {
    s[..k] + [x] + s[k..]
  }

  function Dropped<T>(s: seq<T>, k: nat): seq<T>
    requires k < |s|
  {
    s[..k] + s[k + 1..]
  }

  /** The links of s are right except that the node before place k and the node at k have been
      pointed at `item` instead of at each other. */
  ghost predicate Spliced(s: seq<Node>, k: nat, item: Node)
    requires k <= |s|
    reads s`next, s`prev, item`next, item`prev
  {
    && Distinct(s) && item !in s
    && item.prev == Place(s, k - 1) && item.next == Place(s, k)
    && (forall i {:trigger s[i].next} | 0 <= i < |s| :: s[i].next == if i + 1 == k then item else Place(s, i + 1))
    && (forall i {:trigger s[i].prev} | 0 <= i < |s| :: s[i].prev == if i == k then item else Place(s, i - 1))
  }

  lemma SplicedIsLinked(s: seq<Node>, k: nat, item: Node)
    requires k <= |s| && Spliced(s, k, item)
    ensures Linked(Inserted(s, k, item)) && Distinct(Inserted(s, k, item))
  {
  }

  /** The links of s are right except that the neighbours of place k have been pointed at each other. */
  ghost predicate Bridged(s: seq<Node>, k: nat)
    requires k < |s|
    reads s`next, s`prev
  {
    && Distinct(s)
    && (forall i {:trigger s[i].next} | 0 <= i < |s| && i != k ::
          s[i].next == if i + 1 == k then Place(s, k + 1) else Place(s, i + 1))
    && (forall i {:trigger s[i].prev} | 0 <= i < |s| && i != k ::
          s[i].prev == if i - 1 == k then Place(s, k - 1) else Place(s, i - 1))
  }

  lemma BridgedIsLinked(s: seq<Node>, k: nat)
    requires k < |s| && Bridged(s, k)
    ensures Linked(Dropped(s, k)) && Distinct(Dropped(s, k)) && s[k] !in Dropped(s, k)
    ensures forall n | n in s && n != s[k] :: n in Dropped(s, k)
  {
    var r := Dropped(s, k);
    forall n | n in s && n != s[k]
      ensures n in r
    {
      var i :| 0 <= i < |s| && s[i] == n;
      assert r[if i < k then i else i - 1] == n;
    }
  }

  /** The forward links of these nodes lead to these nodes only. */
  ghost predicate Inside(s: seq<Node>)
    reads s`next
  {
    forall i {:trigger s[i].next} | 0 <= i < |s| :: s[i].next == null || s[i].next in s
  }

  /** Points a node and the one after it at item, and item at them. */
  method SpliceAfter(ghost s: seq<Node>, ghost k: nat, prev: Node, item: Node)
    requires Linked(s) && Distinct(s) && 0 < k <= |s| && prev == s[k - 1]
    modifies item`next, item`prev, s`next, s`prev
    ensures if item in s then Inside(s) else Spliced(s, k, item)
  {
    item.prev := prev;
    item.next := prev.next;
    if prev.next != null {
      prev.next.prev := item;
    }
    prev.next := item;
  }

  /** Points a node and the one before it at item, and item at them. */
  method SpliceBefore(ghost s: seq<Node>, ghost k: nat, next: Node, item: Node)
    requires Linked(s) && Distinct(s) && k < |s| && next == s[k]
    modifies item`next, item`prev, s`next, s`prev
    ensures if item in s then Inside(s) else Spliced(s, k, item)
  {
    item.next := next;
    item.prev := next.prev;
    if next.prev != null {
      next.prev.next := item;
    }
    next.prev := item;
  }

  /** Points the first node at item, and item at it. */
  method SpliceFront(ghost s: seq<Node>, first: Node, item: Node)
    requires Linked(s) && Distinct(s) && s != [] && first == s[0]
    modifies item`next, item`prev, s`prev
    ensures if item in s then Inside(s) else Spliced(s, 0, item)
  {
    item.prev := null;
    item.next := first;
    first.prev := item;
  }

  /** Points the last node at item, and item at it. */
  method SpliceBack(ghost s: seq<Node>, last: Node, item: Node)
    requires Linked(s) && Distinct(s) && s != [] && last == s[|s| - 1]
    modifies item`next, item`prev, s`next
    ensures if item in s then Inside(s) else Spliced(s, |s|, item)
  {
    item.next := null;
    item.prev := last;
    last.next := item;
  }

  lemma InsertedHas<T>(s: seq<T>, k: nat, x: T)
    requires k <= |s|
    ensures var r := Inserted(s, k, x);
      && |r| == |s| + 1 && r[k] == x && (k > 0 ==> r[0] == s[0]) && (k < |s| ==> r[|s|] == s[|s| - 1])
      && forall y :: y in r <==> y in s || y == x
  {
  }

  lemma InsertedAtEnds<T>(s: seq<T>, x: T)
    ensures Inserted(s, 0, x) == [x] + s && Inserted(s, |s|, x) == s + [x]
  {
  }

  class List {
    var head: Node?
    var tail: Node?
    var size: nat
    ghost var nodes: seq<Node>
    ghost var pool: set<Node>

    /** Head, tail, size and both chains of links represent the sequence `nodes`. */
    ghost predicate Chain()
      reads this, nodes`next, nodes`prev
    {
      && size == |nodes| && head == Place(nodes, 0) && tail == Place(nodes, |nodes| - 1)
      && Distinct(nodes) && Linked(nodes)
    }

    /** Of the nodes this list has dealt with, exactly those in the chain name it as their owner. */
    ghost predicate Owned()
      reads this, pool`list
    {
      && (forall n | n in nodes :: n in pool)
      && (forall n | n in pool :: n.list == this <==> n in nodes)
    }

    /** A node that was in the chain has been linked a second time: the links lead from the head to these
        nodes only, but the size counts one more. */
    ghost predicate Tangled()
      reads this, nodes`next
    {
      size == |nodes| + 1 && Distinct(nodes) && head in nodes && Inside(nodes)
    }

    constructor ()
      ensures Chain() && Owned() && nodes == []
    {
      head, tail, size, nodes, pool := null, null, 0, [], {};
    }

    method AddHead(item: Node) returns (ret: int)
      requires Chain()
      modifies this, item, nodes`prev
      ensures ret == if old(item.list) == this then -1 else 0
      ensures ret == -1 || item !in old(nodes) ==> Chain()
      ensures ret == 0 && item in old(nodes) ==> nodes == old(nodes) && Tangled()
      ensures ret == 0 && item !in old(nodes) ==> nodes == [item] + old(nodes)
      ensures ret == 0 ==> item.list == this && pool == old(pool) + {item}
      ensures ret == -1 ==> unchanged(this) && unchanged(item)
      ensures old(Owned()) ==> Owned()
    {
      if item.list == this {
        return -1;
      }
      if size == 0 {
        PutFirst(item);
      } else {
        PutFront(item);
      }
      return 0;
    }

    /** Makes a node the only one. */
    method PutFirst(item: Node)
      requires Chain() && item.list != this && nodes == []
      modifies this, item
      ensures Chain() && nodes == [item] && item.list == this && pool == old(pool) + {item}
      ensures old(Owned()) ==> Owned()
    {
      nodes, pool := [item], pool + {item};
      item.prev, item.next := null, null;
      head, tail := item, item;
      size := size + 1;
      item.list := this;
    }

    /** Links a node in before the first one. */
    method PutFront(item: Node)
      requires Chain() && item.list != this && nodes != []
      modifies this, item, nodes`prev
      ensures item !in old(nodes) ==> Chain() && nodes == [item] + old(nodes)
      ensures item in old(nodes) ==> nodes == old(nodes) && Tangled()
      ensures item.list == this && pool == old(pool) + {item}
      ensures old(Owned()) ==> Owned()
    {
      ghost var s := nodes;
      nodes, pool := if item in s then s else [item] + s, pool + {item};
      item.list := this;
      SpliceFront(s, head, item);
      InsertedAtEnds(s, item);
      if item !in s {
        SplicedIsLinked(s, 0, item);
      }
      head := item;
      size := size + 1;
    }

    /** Links a node in after the last one. */
    method PutBack(item: Node)
      requires Chain() && item.list != this && nodes != []
      modifies this, item, nodes`next
      ensures item !in old(nodes) ==> Chain() && nodes == old(nodes) + [item]
      ensures item in old(nodes) ==> nodes == old(nodes) && Tangled()
      ensures item.list == this && pool == old(pool) + {item}
      ensures old(Owned()) ==> Owned()
    {
      ghost var s := nodes;
      nodes, pool := if item in s then s else s + [item], pool + {item};
      item.list := this;
      SpliceBack(s, tail, item);
      InsertedAtEnds(s, item);
      if item !in s {
        SplicedIsLinked(s, |s|, item);
      }
      tail := item;
      size := size + 1;
    }

    method AddTail(item: Node) returns (ret: int)
      requires Chain()
      modifies this, item, nodes`next
      ensures ret == if old(item.list) == this then -1 else 0
      ensures ret == -1 || item !in old(nodes) ==> Chain()
      ensures ret == 0 && item in old(nodes) ==> nodes == old(nodes) && Tangled()
      ensures ret == 0 && item !in old(nodes) ==> nodes == old(nodes) + [item]
      ensures ret == 0 ==> item.list == this && pool == old(pool) + {item}
      ensures ret == -1 ==> unchanged(this) && unchanged(item)
      ensures old(Owned()) ==> Owned()
    {
      if item.list == this {
        return -1;
      }
      if size == 0 {
        PutFirst(item);
      } else {
        PutBack(item);
      }
      return 0;
    }

    method AddAfter(prev: Node, item: Node) returns (ret: int)
      requires Chain() && (prev.list == this ==> prev in nodes)
      modifies this, item, nodes`next, nodes`prev
      ensures ret == if old(prev.list != this || item.list == this) then -1 else 0
      ensures ret == -1 || item !in old(nodes) ==> Chain()
      ensures ret == 0 && item in old(nodes) ==> nodes == old(nodes) && Tangled()
      ensures ret == 0 && item !in old(nodes) ==>
        var k := IndexOf(old(nodes), prev); nodes == old(nodes)[..k + 1] + [item] + old(nodes)[k + 1..]
      ensures ret == 0 ==> item.list == this && pool == old(pool) + {item}
      ensures ret == -1 ==> unchanged(this) && unchanged(item)
      ensures old(Owned()) ==> Owned()
    {
      if prev.list != this || item.list == this {
        return -1;
      }
      PutAfter(IndexOf(nodes, prev) + 1, prev, item);
      return 0;
    }

    /** Links a node in at place k, just after another. */
    method PutAfter(ghost k: nat, prev: Node, item: Node)
      requires Chain() && item.list != this && 0 < k <= |nodes| && prev == nodes[k - 1]
      modifies this, item, nodes`next, nodes`prev
      ensures item !in old(nodes) ==> Chain() && nodes == Inserted(old(nodes), k, item)
      ensures item in old(nodes) ==> nodes == old(nodes) && Tangled()
      ensures item.list == this && pool == old(pool) + {item}
      ensures old(Owned()) ==> Owned()
    {
      ghost var s := nodes;
      nodes, pool := if item in s then s else Inserted(s, k, item), pool + {item};
      item.list := this;
      SpliceAfter(s, k, prev, item);
      if item !in s {
        SplicedIsLinked(s, k, item);
        InsertedHas(s, k, item);
      }
      if prev == tail {
        tail := item;
      }
      size := size + 1;
    }

    method AddBefore(next: Node, item: Node) returns (ret: int)
      requires Chain() && (next.list == this ==> next in nodes)
      modifies this, item, nodes`next, nodes`prev
      ensures ret == if old(next.list != this || item.list == this) then -1 else 0
      ensures ret == -1 || item !in old(nodes) ==> Chain()
      ensures ret == 0 && item in old(nodes) ==> nodes == old(nodes) && Tangled()
      ensures ret == 0 && item !in old(nodes) ==>
        var k := IndexOf(old(nodes), next); nodes == old(nodes)[..k] + [item] + old(nodes)[k..]
      ensures ret == 0 ==> item.list == this && pool == old(pool) + {item}
      ensures ret == -1 ==> unchanged(this) && unchanged(item)
      ensures old(Owned()) ==> Owned()
    {
      if next.list != this || item.list == this {
        return -1;
      }
      PutBefore(IndexOf(nodes, next), next, item);
      return 0;
    }

    /** Links a node in just before the node at place k. */
    method PutBefore(ghost k: nat, next: Node, item: Node)
      requires Chain() && item.list != this && k < |nodes| && next == nodes[k]
      modifies this, item, nodes`next, nodes`prev
      ensures item !in old(nodes) ==> Chain() && nodes == Inserted(old(nodes), k, item)
      ensures item in old(nodes) ==> nodes == old(nodes) && Tangled()
      ensures item.list == this && pool == old(pool) + {item}
      ensures old(Owned()) ==> Owned()
    {
      ghost var s := nodes;
      nodes, pool := if item in s then s else Inserted(s, k, item), pool + {item};
      item.list := this;
      SpliceBefore(s, k, next, item);
      if item !in s {
        SplicedIsLinked(s, k, item);
        InsertedHas(s, k, item);
      }
      if next == head {
        head := item;
      }
      size := size + 1;
    }

    /** The node at index i, counted from the back when i is negative; null out of range. */
    method At(i: int) returns (node: Node?)
      requires Chain()
      ensures 0 <= i < |nodes| ==> node == nodes[i]
      ensures 0 < -i <= |nodes| ==> node == nodes[|nodes| - (-i)]
      ensures i < -|nodes| || |nodes| <= i ==> node == null
      ensures node == if InRange(i, size) then nodes[Position(i, size)] else null
    {
      if i < 0 - size || i >= size {
        return null;
      }
      var j := Position(i, size);
      ghost var k := 0;
      node := head;
      while node != null && j != 0
        invariant 0 <= j && k + j == Position(i, size) && node == Place(nodes, k)
        decreases j
      {
        node := node.next;
        j, k := j - 1, k + 1;
      }
    }

    method InsertAt(item: Node, i: int) returns (ret: int)
      requires Chain()
      modifies this, item, nodes`next, nodes`prev
      ensures ret == if old(item.list == this || !(InRange(i, size) || i == size)) then -1 else 0
      ensures ret == -1 || item !in old(nodes) ==> Chain()
      ensures ret == 0 && item in old(nodes) ==> nodes == old(nodes) && Tangled()
      ensures ret == 0 && item !in old(nodes) ==>
        var k := if i < 0 then |old(nodes)| + i else i;
        0 <= k <= |old(nodes)| && nodes == old(nodes)[..k] + [item] + old(nodes)[k..]
      ensures ret == 0 ==> item.list == this && pool == old(pool) + {item}
      ensures ret == -1 ==> unchanged(this) && unchanged(item)
      ensures old(Owned()) ==> Owned()
    {
      if item.list == this {
        return -1;
      }
      if i == size {
        ret := AddTail(item);
        return 0;
      }
      var next := At(i);
      if next == null {
        return -1;
      }
      PutBefore(Position(i, size), next, item);
      return 0;
    }

    method Del(item: Node) returns (ret: int)
      requires Chain() && (item.list == this ==> item in nodes)
      modifies this, item, nodes`next, nodes`prev
      ensures Chain() && pool == old(pool) && ret == if old(size == 0 || item.list != this) then -1 else 0
      ensures ret == 0 ==>
        var k := IndexOf(old(nodes), item);
        item.list == null && nodes == old(nodes)[..k] + old(nodes)[k + 1..]
      ensures ret == -1 ==> unchanged(this) && unchanged(item)
      ensures old(Owned()) ==> Owned()
    {
      if size == 0 || item.list != this {
        return -1;
      }
      ghost var k := IndexOf(nodes, item);
      if size == 1 {
        nodes := [];
        head, tail := null, null;
        size := 0;
        item.list := null;
        return 0;
      }
      if item == head {
        head := head.next;
        if head != null {
          head.prev := null;
        }
        Detach(k, item);
        return 0;
      }
      if item == tail {
        tail := tail.prev;
        if tail != null {
          tail.next := null;
        }
        Detach(k, item);
        return 0;
      }
      if item.prev != null {
        item.prev.next := item.next;
      }
      if item.next != null {
        item.next.prev := item.prev;
      }
      Detach(k, item);
      return 0;
    }

    /** How every branch of a deletion ends, once the neighbours are bridged: the node is cleared and
        the size shrinks. */
    method Detach(ghost k: nat, item: Node)
      requires k < |nodes| == size && nodes[k] == item && Bridged(nodes, k)
      requires head == Place(Dropped(nodes, k), 0) && tail == Place(Dropped(nodes, k), size - 2)
      modifies `size, `nodes, item
      ensures Chain() && nodes == Dropped(old(nodes), k) && item.list == null
      ensures old(Owned()) ==> Owned()
    {
      BridgedIsLinked(nodes, k);
      nodes := Dropped(nodes, k);
      item.prev, item.next := null, null;
      assert Linked(nodes);
      size := size - 1;
      item.list := null;
    }

    /** Unlinks the node at index i. A node whose owner has been lost is returned, but stays. */
    method DelByIndex(i: int) returns (node: Node?)
      requires Chain()
      modifies this, nodes
      ensures Chain() && pool == old(pool)
      ensures node == old(if InRange(i, size) then nodes[Position(i, size)] else null)
      ensures nodes == if node == null || old(nodes[Position(i, size)].list) != this then old(nodes)
                       else Dropped(old(nodes), Position(i, old(size)))
      ensures node != null && old(Owned()) ==>
        var k := if i < 0 then |old(nodes)| + i else i;
        0 <= k < |old(nodes)| && node == old(nodes)[k] && nodes == old(nodes)[..k] + old(nodes)[k + 1..]
      ensures old(Owned()) ==> Owned() && (node != null ==> node.list == null)
    {
      if i < 0 - size || i >= size {
        return null;
      }
      var tmp := At(i);
      if tmp != null {
        var ret := Del(tmp);
        return tmp;
      } else {
        return null;
      }
    }

    /** Unlinks the first node. The owner of the node that becomes first is cleared as well, so the
        owners stay right exactly when no node is left. */
    method DelHead() returns (ret: int)
      requires Chain()
      modifies this, nodes
      ensures Chain() && pool == old(pool) && ret == if old(size) == 0 then -1 else 0
      ensures nodes == if ret == 0 then old(nodes)[1..] else old(nodes)
      ensures ret == 0 ==> old(head).list == null && (size > 0 ==> head.list == null)
      ensures old(Owned()) ==> (Owned() <==> old(size) <= 1)
    {
      if size == 0 {
        return -1;
      }
      head.list := null;
      nodes := nodes[1..];
      if size <= 1 {
        head, tail := null, null;
        size := size - 1;
        return 0;
      }
      head := head.next;
      head.prev := null;
      size := size - 1;
      head.list := null;
      return 0;
    }

    method DelTail() returns (ret: int)
      requires Chain()
      modifies this, nodes
      ensures Chain() && pool == old(pool) && ret == if old(size) == 0 then -1 else 0
      ensures nodes == if ret == 0 then old(nodes)[..old(size) - 1] else old(nodes)
      ensures ret == 0 ==> old(tail).list == null
      ensures old(Owned()) ==> Owned()
    {
      if size == 0 {
        return -1;
      }
      tail.list := null;
      nodes := nodes[..size - 1];
      if size <= 1 {
        head, tail := null, null;
        size := size - 1;
        return 0;
      }
      tail := tail.prev;
      tail.next := null;
      size := size - 1;
      return 0;
    }

    method PopHead() returns (node: Node?)
      requires Chain()
      modifies this, nodes
      ensures Chain() && pool == old(pool)
      ensures node == Place(old(nodes), 0) && nodes == if node == null then [] else old(nodes)[1..]
      ensures old(Owned()) ==> (Owned() <==> old(size) <= 1)
    {
      node := head;
      var ret := DelHead();
    }

    method PopTail() returns (node: Node?)
      requires Chain()
      modifies this, nodes
      ensures Chain() && pool == old(pool)
      ensures node == Place(old(nodes), |old(nodes)| - 1)
      ensures nodes == if node == null then [] else old(nodes)[..old(size) - 1]
      ensures old(Owned()) ==> Owned()
    {
      node := tail;
      var ret := DelTail();
    }

    method Contains(item: Node) returns (found: bool)
      requires Chain()
      ensures found <==> item in nodes
    {
      if size == 0 {
        return false;
      }
      var iter := new Iter(this, FROM_HEAD);
      ghost var k := 0;
      while true
        invariant 0 <= k <= |nodes| && iter.next == Place(nodes, k) && iter.direction == FROM_HEAD
        invariant item !in nodes[..k]
        decreases |nodes| - k
      {
        var node := iter.Next();
        if node == null {
          return false;
        }
        if node == item {
          return true;
        }
        k := k + 1;
      }
    }
  }

  lemma DistinctBySize(s: seq<Node>)
    requires Distinct(s)
    ensures |set n | n in s| == |s|
  {
    if s != [] {
      var front, last := s[..|s| - 1], s[|s| - 1];
      DistinctBySize(front);
      assert (set n | n in s) == (set n | n in front) + {last};
    }
  }

  /** More places than nodes: some node is met twice. */
  lemma MetTwice(s: seq<Node>, nodes: seq<Node>)
    requires |s| > |nodes| && Distinct(nodes) && forall n | n in s :: n in nodes
    ensures !Distinct(s)
  {
    if Distinct(s) {
      var all := set n | n in nodes;
      DistinctBySize(s);
      DistinctBySize(nodes);
      SubsetIsNotLarger((set n | n in s), all);
    }
  }

  lemma SubsetIsNotLarger(a: set<Node>, b: set<Node>)
    requires a <= b
    ensures |a| <= |b|
  {
    if a != {} {
      var x :| x in a;
      SubsetIsNotLarger(a - {x}, b - {x});
    }
  }

  lemma {:induction false} StaysInside(s: seq<Node>, nodes: seq<Node>, i: nat)
    requires Linked(s) && i < |s| && s[0] in nodes && Inside(nodes)
    ensures s[i] in nodes
  {
    if i > 0 {
      StaysInside(s, nodes, i - 1);
      var j :| 0 <= j < |nodes| && nodes[j] == s[i - 1];
      assert s[i - 1].next == s[i] && nodes[j].next == s[i];
    }
  }

  /** A chain that meets a node twice goes round for ever. */
  lemma {:induction false} NoReturn(s: seq<Node>, i: nat, j: nat)
    requires Linked(s) && i < j < |s|
    ensures s[i] != s[j]
    decreases |s| - j
  {
    if s[i] == s[j] {
      assert s[i].next == s[i + 1] && s[j].next == Place(s, j + 1);
      if j + 1 < |s| {
        NoReturn(s, i + 1, j + 1);
      }
    }
  }

  /** When a node has been linked a second time, no sequence of as many nodes as the list counts is
      linked from its head. */
  lemma TangledIsNoList(list: List, s: seq<Node>)
    requires list.Tangled() && |s| == list.size && Place(s, 0) == list.head
    ensures !Linked(s)
  {
    if Linked(s) {
      forall n | n in s
        ensures n in list.nodes
      {
        var i :| 0 <= i < |s| && s[i] == n;
        StaysInside(s, list.nodes, i);
      }
      MetTwice(s, list.nodes);
      var i, j :| 0 <= i < j < |s| && s[i] == s[j];
      NoReturn(s, i, j);
    }
  }

  const FROM_HEAD: int := 1
  const FROM_TAIL: int := -1

  /** A position in a list. It moves on before it yields a node. */
  class Iter {
    var next: Node?
    var direction: int

    constructor (list: List, direction: int)
      ensures this.direction == direction && next == if direction == FROM_HEAD then list.head else list.tail
    {
      this.direction := direction;
      next := if direction == FROM_HEAD then list.head else list.tail;
    }

    method Next() returns (cur: Node?)
      modifies `next
      ensures cur == old(next)
      ensures cur == null ==> next == null
      ensures cur != null ==> next == if direction == FROM_HEAD then cur.next else cur.prev
    {
      cur := next;
      if cur == null {
        return null;
      }
      next := if direction == FROM_HEAD then next.next else next.prev;
    }
  }

  /** The elements of s that a traversal leaves when it drops the k-th one it meets iff drop(k). */
  function Kept<T>(s: seq<T>, drop: nat -> bool): (r: seq<T>)
  {
    if s == [] then []
    else
      var n := |s| - 1;
      if drop(n) then Kept(s[..n], drop) else Kept(s[..n], drop) + [s[n]]
  }

  /** What is kept are the elements not dropped, in order. */
  lemma {:induction false} KeptIs<T>(s: seq<T>, drop: nat -> bool)
    ensures forall k: nat | k < |s| && !drop(k) :: s[k] in Kept(s, drop)
    ensures forall x | x in Kept(s, drop) :: exists k: nat | k < |s| && !drop(k) :: s[k] == x
    ensures |Kept(s, drop)| <= |s|
    decreases |s|
  {
    if s != [] {
      var n := |s| - 1;
      KeptIs(s[..n], drop);
      assert forall k: nat | k < n :: s[..n][k] == s[k];
      forall x | x in Kept(s, drop)
        ensures exists k: nat | k < |s| && !drop(k) :: s[k] == x
      {
        if x in Kept(s[..n], drop) {
          var k: nat :| k < n && !drop(k) && s[..n][k] == x;
          assert s[k] == x;
        } else {
          assert s[n] == x && !drop(n);
        }
      }
    }
  }

  lemma KeptIff(s: seq<Node>, drop: nat -> bool)
    requires Distinct(s)
    ensures forall k: nat | k < |s| :: s[k] in Kept(s, drop) <==> !drop(k)
  {
    KeptIs(s, drop);
    forall k: nat | k < |s| && s[k] in Kept(s, drop)
      ensures !drop(k)
    {
      var j: nat :| j < |s| && !drop(j) && s[j] == s[k];
      assert j == k;
    }
  }

  /** Each element not dropped comes just after those of the elements before it that are kept. */
  lemma {:induction false} KeptInOrder<T>(s: seq<T>, drop: nat -> bool, k: nat)
    requires k < |s| && !drop(k)
    ensures |Kept(s[..k], drop)| < |Kept(s, drop)| && Kept(s, drop)[|Kept(s[..k], drop)|] == s[k]
    ensures Kept(s[..k], drop) <= Kept(s, drop)
    decreases |s|
  {
    var n := |s| - 1;
    if k < n {
      KeptInOrder(s[..n], drop, k);
      assert s[..n][..k] == s[..k];
    }
  }

  /** When the nodes before place k of s have been dealt with, the chain shows s[k] after the d nodes
      kept so far, and dealing with s[k] leaves the chain as it must be for k + 1. */
  lemma SweepStep(s: seq<Node>, k: nat, drop: nat -> bool, nodes: seq<Node>)
    requires k <= |s| && nodes == Kept(s[..k], drop) + s[k..]
    ensures var d := |Kept(s[..k], drop)|;
      && d <= |nodes| && Place(nodes, d) == Place(s, k) && Place(nodes, d + 1) == Place(s, k + 1)
      && (k < |s| ==> (if drop(k) then Dropped(nodes, d) else nodes) == Kept(s[..k + 1], drop) + s[k + 1..])
  {
    if k < |s| {
      assert s[..k + 1][..k] == s[..k];
      assert s[k..] == [s[k]] + s[k + 1..];
    }
  }

  lemma SweepEnds(s: seq<Node>, drop: nat -> bool)
    ensures Kept(s[..0], drop) + s[0..] == s && Kept(s[..|s|], drop) + s[|s|..] == Kept(s, drop)
  {
    assert s[..|s|] == s;
  }

  /** A traversal of the nodes s has met the first k of them and dropped those it was told to. */
  ghost predicate Sweeping(list: List, iter: Iter, s: seq<Node>, k: nat, drop: nat -> bool)
    reads list, list.nodes`next, list.nodes`prev, list.pool`list, iter
  {
    && list.Chain() && list.Owned() && iter.direction == FROM_HEAD
    && k <= |s| && list.nodes == Kept(s[..k], drop) + s[k..] && iter.next == Place(s, k)
  }

  method YieldAndDrop(list: List, iter: Iter, drop: bool, ghost d: nat) returns (cur: Node?)
    requires list.Chain() && list.Owned() && iter.direction == FROM_HEAD
    requires d <= |list.nodes| && iter.next == Place(list.nodes, d)
    modifies list, list.pool, iter`next
    ensures list.Chain() && list.Owned() && cur == Place(old(list.nodes), d)
    ensures list.pool == old(list.pool)
    ensures cur == null ==> iter.next == null && list.nodes == old(list.nodes)
    ensures cur != null ==> iter.next == Place(old(list.nodes), d + 1)
    ensures cur != null ==> list.nodes == if drop then Dropped(old(list.nodes), d) else old(list.nodes)
  {
    cur := iter.Next();
    if cur != null && drop {
      assert IndexOf(list.nodes, cur) == d;
      var ret := list.Del(cur);
    }
  }

  /** One turn of a traversal that may unlink the node it is given. */
  method SweepTurn(list: List, iter: Iter, ghost s: seq<Node>, k: nat, drop: nat -> bool) returns (cur: Node?)
    requires Sweeping(list, iter, s, k, drop)
    modifies list, list.pool, iter`next
    ensures cur == Place(s, k) && list.pool == old(list.pool)
    ensures Sweeping(list, iter, s, if cur == null then k else k + 1, drop)
  {
    SweepStep(s, k, drop, list.nodes);
    cur := YieldAndDrop(list, iter, drop(k), |Kept(s[..k], drop)|);
  }

  /** The loop of a traversal, from the node at place k on. */
  method SweepFrom(list: List, iter: Iter, ghost s: seq<Node>, drop: nat -> bool) returns (visited: seq<Node>)
    requires Sweeping(list, iter, s, 0, drop)
    modifies list, list.pool, iter`next
    ensures visited == s && Sweeping(list, iter, s, |s|, drop)
  {
    var k := 0;
    visited := [];
    while true
      invariant 0 <= k <= |s| && visited == s[..k] && Sweeping(list, iter, s, k, drop)
      invariant list.pool == old(list.pool)
      decreases |s| - k
    {
      var cur := SweepTurn(list, iter, s, k, drop);
      if cur == null {
        break;
      }
      visited := visited + [cur];
      k := k + 1;
    }
  }

  /** Walks a list from its head, unlinking nodes as it goes: drop(k) decides on the k-th node met.
      Every node is met once, in order, and the kept ones stay in order. */
  method Sweep(list: List, drop: nat -> bool) returns (visited: seq<Node>)
    requires list.Chain() && list.Owned()
    modifies list, list.pool
    ensures list.Chain() && list.Owned()
    ensures visited == old(list.nodes)
    ensures list.nodes == Kept(old(list.nodes), drop)
    ensures forall k: nat | k < |visited| :: visited[k] in list.nodes <==> !drop(k)
  {
    var iter := new Iter(list, FROM_HEAD);
    SweepEnds(list.nodes, drop);
    visited := SweepFrom(list, iter, list.nodes, drop);
    KeptIff(visited, drop);
  }
}
