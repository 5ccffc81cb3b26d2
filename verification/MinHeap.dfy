/** The timer subsystem's indexed binary min-heap (timer/minheap.c). */
module MinHeap {
  import opened HeapOrder

  /** One more than the largest value of the source's 32-bit clock and deadline fields. */
  const U32_LIMIT: int := 0x1_0000_0000

  type U32 = t: int | 0 <= t < U32_LIMIT

  class TimerEntry {
    var time: U32
    var interval: U32
    var idx: int

    /** A zeroed entry that is in no heap. */
    constructor ()
      ensures time == 0 && interval == 0 && idx == -1
    {
      time, interval, idx := 0, 0, -1;
    }
  }

  class Heap {
    var elements: array<TimerEntry?>
    var size: nat
    var capacity: nat

    /** The first |v| slots hold the entries of v, at the deadlines of v. */
    ghost predicate Shows(v: seq<Slot<TimerEntry>>)
      reads this, elements, elements[..]
    {
      && |v| <= elements.Length
      && forall i | 0 <= i < |v| :: elements[i] == v[i].item && elements[i].time == v[i].time
    }

    /** The back-pointers of the first n slots name their slots, so no entry sits in two. */
    ghost predicate Indexed(n: nat)
      reads this, elements, elements[..]
    {
      && n <= elements.Length
      && forall i | 0 <= i < n :: elements[i] != null && elements[i].idx == i
    }

    ghost predicate Live()
      reads this, elements
    {
      && size <= capacity == elements.Length
      && forall i | 0 <= i < size :: elements[i] != null
    }

    /** The live slots, with the deadlines of the entries in them. */
    ghost function View(): (v: seq<Slot<TimerEntry>>)
      requires Live()
      reads this, elements, elements[..]
      ensures |v| == size && Shows(v)
    {
      seq(size, i requires 0 <= i < size && Live() reads this, elements, elements[..] =>
                  Slot(elements[i], elements[i].time))
    }

    function Members(): (m: set<TimerEntry>)
      requires Live()
      reads this, elements
    {
      set i | 0 <= i < size :: elements[i]
    }

    lemma MembersAreItems()
      requires Live()
      ensures Members() == Items(View())
    {
      forall i | 0 <= i < size
        ensures elements[i] in Items(View())
      {
        assert View()[i].item == elements[i];
      }
    }

    ghost predicate Valid()
      reads this, elements, elements[..]
    {
      Live() && Indexed(size) && Ordered(View())
    }

    constructor ()
      ensures Valid() && size == 0 && capacity == 0 && fresh(elements)
    {
      elements, size, capacity := new TimerEntry?[0], 0, 0;
    }

    /** Slot h is a hole waiting for elem: the slots hold v in all other places, and when `indexed`
        their back-pointers are right and none of them is elem. */
    ghost predicate Hole(v: seq<Slot<TimerEntry>>, h: nat, elem: TimerEntry, pool: set<TimerEntry>, indexed: bool)
      reads this, elements, elements[..], elem
    {
      && h < |v| <= elements.Length && v[h] == Slot(elem, elem.time) && elem in pool
      && (forall i | 0 <= i < |v| && i != h :: elements[i] == v[i].item && elements[i].time == v[i].time)
      && (forall i | 0 <= i < |v| && i != h :: v[i].item in pool)
      && (indexed ==> forall i | 0 <= i < |v| && i != h :: v[i].item.idx == i && v[i].item != elem)
    }

    /** Moves the entry of slot c into the hole h, which leaves the hole at c. */
    method MoveHole(h: nat, c: nat, elem: TimerEntry, ghost v: seq<Slot<TimerEntry>>, ghost pool: set<TimerEntry>,
                    ghost indexed: bool)
      requires Hole(v, h, elem, pool, indexed) && c < |v| && c != h
      modifies elements, pool`idx
      ensures Hole(Swap(v, h, c), c, elem, pool, indexed)
    {
      elements[h] := elements[c];
      elements[h].idx := h;
    }

    /** Stores elem in the hole. */
    method FillHole(h: nat, elem: TimerEntry, ghost v: seq<Slot<TimerEntry>>, ghost pool: set<TimerEntry>,
                    ghost indexed: bool)
      requires Hole(v, h, elem, pool, indexed)
      modifies elements, pool`idx
      ensures Shows(v) && (indexed ==> Indexed(|v|))
    {
      elements[h] := elem;
      elements[h].idx := h;
    }

    method ShiftUp(start: nat, elem: TimerEntry, ghost v0: seq<Slot<TimerEntry>>, ghost pool: set<TimerEntry>,
                   ghost indexed: bool)
      requires |v0| == start + 1 && Hole(v0, start, elem, pool, indexed)
      modifies elements, pool`idx
      ensures Shows(SiftUp(v0, start)) && (indexed ==> Indexed(|v0|))
    {
      var index := start;
      ghost var v := v0;
      while index > 0
        invariant 0 <= index < |v| == |v0| && Hole(v, index, elem, pool, indexed)
        invariant SiftUp(v, index) == SiftUp(v0, start)
      {
        var pindex := (index - 1) / 2;
        if elements[pindex].time <= elem.time {
          break;
        }
        MoveHole(index, pindex, elem, v, pool, indexed);
        v := Swap(v, index, pindex);
        index := pindex;
      }
      FillHole(index, elem, v, pool, indexed);
    }

    /** Moves the hole at `start` down to where `elem` fits, and stores it there. A hole just past
        the live slots stays where it is. */
    method ShiftDown(start: nat, elem: TimerEntry, ghost v0: seq<Slot<TimerEntry>>, ghost pool: set<TimerEntry>,
                     ghost indexed: bool)
      requires size <= |v0| && Hole(v0, start, elem, pool, indexed)
      modifies elements, pool`idx
      ensures Shows(SiftDown(v0, size, start)) && (indexed ==> Indexed(|v0|))
    {
      var index, half := start, size / 2;
      ghost var v := v0;
      while index < half
        invariant 0 <= index < |v| == |v0| && Hole(v, index, elem, pool, indexed)
        invariant SiftDown(v, size, index) == SiftDown(v0, size, start)
        decreases |v| - index
      {
        var left, right := 2 * index + 1, 2 * index + 2;
        var child, childIndex := elements[left], left;
        if right < size && elements[right].time < child.time {
          child, childIndex := elements[right], right;
        }
        if elem.time < child.time {
          break;
        }
        assert childIndex == EarlierChild(v, size, index) && v[index].time >= v[childIndex].time;
        MoveHole(index, childIndex, elem, v, pool, indexed);
        v := Swap(v, index, childIndex);
        index := childIndex;
      }
      FillHole(index, elem, v, pool, indexed);
    }

    method EnsureCapacity(n: nat)
      requires Live()
      modifies this
      ensures Live() && n <= capacity && size == old(size)
      ensures View() == old(View()) && Members() == old(Members()) && Indexed(size) == old(Indexed(size))
      ensures elements == old(elements) || fresh(elements)
      ensures elements[..size] == old(elements[..size])
      ensures old(capacity) < n ==>
        capacity == if old(capacity) == 0 && n <= 8 then 8 else if n <= 2 * old(capacity) then 2 * old(capacity) else n
      ensures n <= old(capacity) ==> elements == old(elements)
    {
      if capacity < n {
        var a := if capacity != 0 then capacity * 2 else 8;
        if a < n {
          a := n;
        }
        var p := new TimerEntry?[a](i requires 0 <= i reads this, elements =>
                                      if i < elements.Length then elements[i] else null);
        elements := p;
        capacity := a;
      }
    }

    lemma ShownIsView(v: seq<Slot<TimerEntry>>)
      requires size == |v| <= capacity == elements.Length && Shows(v)
      ensures Live() && View() == v
    {
    }

    method Push(elem: TimerEntry)
      requires Live()
      modifies this, elements, Members()`idx, elem`idx
      ensures Live() && size == old(size) + 1
      ensures View() == Pushed(old(View()), Slot(elem, elem.time))
      ensures old(Indexed(size)) ==> (Indexed(size) <==> elem !in old(Members()))
      ensures Members() == old(Members()) + {elem}
      ensures old(Valid()) && elem !in old(Members()) ==> Valid()
      ensures elements == old(elements) || fresh(elements)
    {
      ghost var v, x, indexed := View(), Slot(elem, elem.time), Indexed(size);
      MembersAreItems();
      EnsureCapacity(size + 1);
      PushSpare(elem);
      PushedIsHeap(v, x);
      PushedItems(v, x);
      if indexed && elem in Items(v) {
        PushedTwice(v, x);
      }
      MembersAreItems();
    }

    method PushSpare(elem: TimerEntry)
      requires Live() && size < capacity
      modifies elements, `size, Members()`idx, elem`idx
      ensures Live() && size == old(size) + 1
      ensures View() == Pushed(old(View()), Slot(elem, elem.time))
      ensures old(Indexed(size)) && elem !in old(Members()) ==> Indexed(size)
    {
      ghost var v := View() + [Slot(elem, elem.time)];
      ShiftUp(size, elem, v, Members() + {elem}, Indexed(size) && elem !in Members());
      size := size + 1;
      ShownIsView(SiftUp(v, size - 1));
    }

    /** What pop and delete share: the last entry leaves its slot and is sifted down from slot h. */
    method TakeOut(h: nat)
      requires Live() && h < size
      modifies elements, `size, Members()`idx
      ensures Live() && size == old(size) - 1
      ensures View() == Removed(old(View()), h)
      ensures old(Indexed(size)) ==> Indexed(size)
    {
      var last := elements[size - 1];
      ghost var v := View();
      ghost var pool, indexed := Members(), Indexed(size);
      size := size - 1;
      elements[size] := null;
      ghost var w := if h < size then v[..size][h := v[size]] else v;
      ShiftDown(h, last, w, pool, indexed);
      RemovedFromPrefix(v, h);
      ShownIsView(SiftDown(w, size, h)[..size]);
    }

    lemma TopIsEarliestMember()
      requires Valid() && size > 0
      ensures forall e | e in Members() :: elements[0].time <= e.time
    {
      TopItemIsEarliest(View());
    }

    /** Takes the entry in slot 0 off the heap. */
    method Pop() returns (root: TimerEntry?)
      requires Live()
      modifies elements, `size, Members()`idx
      ensures Live()
      ensures root == null <==> old(size) == 0
      ensures root == null ==> View() == old(View())
      ensures root != null ==> root == old(View()[0].item) && root.idx == -1 && View() == Removed(old(View()), 0)
      ensures root != null && old(Indexed(size)) ==> Members() == old(Members()) - {root}
      ensures old(Indexed(size)) ==> Indexed(size)
      ensures old(Valid()) ==> Valid()
      ensures root != null && old(Valid()) ==> forall e | e in old(Members()) :: root.time <= e.time
    {
      if size <= 0 {
        return null;
      }
      root := elements[0];
      if Valid() {
        TopIsEarliestMember();
      }
      ghost var v, indexed := View(), Indexed(size);
      MembersAreItems();
      TakeOut(0);
      MembersAreItems();
      RemovedIsHeapIff(v, 0);
      if indexed {
        RemovedItems(v, 0);
      }
      Unlink(root);
    }

    /** The entry is in no slot any more. */
    method Unlink(e: TimerEntry)
      requires Live()
      modifies e`idx
      ensures e.idx == -1 && View() == old(View())
      ensures old(Indexed(size)) && e !in Members() ==> Indexed(size)
    {
      e.idx := -1;
    }

    /** Takes one entry off the heap, wherever it sits. Its slot is refilled by sifting down only,
        which keeps heap order exactly when the slot was the root or the moved last entry is not
        earlier than the parent of that slot. */
    method Delete(elem: TimerEntry) returns (ret: int)
      requires Live()
      requires size > 0 && elem.idx >= 0 ==> elem.idx < size && elements[elem.idx] == elem
      modifies elements, `size, Members()`idx
      ensures Live()
      ensures ret == if old(size) == 0 then -1 else 0
      ensures old(size == 0 || elem.idx < 0) ==> View() == old(View()) && elem.idx == old(elem.idx)
      ensures old(size > 0 && elem.idx >= 0) ==> elem.idx == -1 && View() == Removed(old(View()), old(elem.idx))
      ensures old(Indexed(size)) ==> Indexed(size)
      ensures old(size > 0 && elem.idx >= 0 && Indexed(size)) ==> Members() == old(Members()) - {elem}
      ensures old(size > 0 && elem.idx >= 0 && Valid()) ==>
        (Valid() <==> old(elem.idx == 0 || elements[Parent(elem.idx)].time <= elements[size - 1].time))
    {
      if size <= 0 {
        return -1;
      }
      if elem.idx < 0 {
        return 0;
      }
      ghost var v, h := View(), elem.idx;
      Extract(elem);
      RemovedIsHeapIff(v, h);
      return 0;
    }

    /** Takes an entry out of the slot that its index names. */
    method Extract(elem: TimerEntry)
      requires Live() && 0 <= elem.idx < size && elements[elem.idx] == elem
      modifies elements, `size, Members()`idx
      ensures Live() && elem.idx == -1 && View() == Removed(old(View()), old(elem.idx))
      ensures old(Indexed(size)) ==> Indexed(size) && Members() == old(Members()) - {elem}
    {
      ghost var v, h, indexed := View(), elem.idx, Indexed(size);
      MembersAreItems();
      TakeOut(elem.idx);
      MembersAreItems();
      if indexed {
        RemovedItems(v, h);
      }
      Unlink(elem);
    }

    /** Of the entries in use, each is in the heap at the slot that its index names, or has index -1. */
    ghost predicate Tracks(pool: set<TimerEntry>)
      reads this, elements, elements[..], pool
    {
      && Live() && Indexed(size) && Members() <= pool
      && forall e | e in pool :: e in Members() || e.idx == -1
    }

    /** Gives an entry that is not in the heap a deadline, and pushes it. */
    method ArmEntry(elem: TimerEntry, time: U32, ghost pool: set<TimerEntry>)
      requires Tracks(pool) && elem in pool && elem !in Members()
      modifies this, elements, Members()`idx, elem`idx, elem`time
      ensures Tracks(pool) && (elements == old(elements) || fresh(elements))
      ensures Members() == old(Members()) + {elem} && elem.time == time
      ensures View() == Pushed(old(View()), Slot(elem, time))
    {
      elem.time := time;
      assert View() == old(View());
      Push(elem);
    }

    /** The entries of an indexed heap sit at the places their indexes name, once each. */
    lemma IndexIsPlace(elem: TimerEntry)
      requires Live() && Indexed(size)
      ensures Distinct(View()) && Members() == Items(View())
      ensures elem in Members() ==> PlaceOf(View(), elem) == elem.idx
    {
      MembersAreItems();
      assert forall i | 0 <= i < size :: View()[i].item.idx == i;
    }

    /** Takes the top off the heap, if there is one. */
    method TakeTop(ghost pool: set<TimerEntry>) returns (top: TimerEntry?)
      requires Tracks(pool)
      modifies elements, `size, Members()`idx
      ensures Tracks(pool) && View() == SlotsAfter(Take, old(View())) && top == TopOf(Take, old(View()))
      ensures OpDone(Take, old(Members()), Members(), top)
    {
      top := Pop();
    }

    /** Removes an entry, if it is in the heap. */
    method RemoveEntry(elem: TimerEntry, ghost pool: set<TimerEntry>)
      requires Tracks(pool) && elem in pool
      modifies elements, `size, Members()`idx
      ensures Tracks(pool) && View() == SlotsAfter(Remove(elem), old(View())) && Members() == old(Members()) - {elem}
    {
      IndexIsPlace(elem);
      var ret := Delete(elem);
    }

    /** Performs one operation on the heap. */
    method Perform(op: HeapOp, ghost pool: set<TimerEntry>) returns (top: TimerEntry?)
      requires Tracks(pool) && Legal(op, Members(), pool)
      modifies this, elements, pool`idx, pool`time
      ensures Tracks(pool) && (elements == old(elements) || fresh(elements))
      ensures View() == SlotsAfter(op, old(View())) && top == TopOf(op, old(View()))
      ensures OpDone(op, old(Members()), Members(), top)
      ensures old(Valid()) ==> (Valid() <==> KeepsOrder(op, old(View())))
      ensures old(Valid()) && top != null ==> forall e | e in old(Members()) :: old(top.time) <= old(e.time)
      ensures forall e | e in pool :: e.time == if op.Arm? && e == op.elem then op.time else old(e.time)
    {
      top := null;
      if Valid() {
        OrderAfterIff(op, View());
        if size > 0 {
          TopIsEarliestMember();
        }
      }
      match op
      case Arm(elem, time) =>
        ArmEntry(elem, time, pool);
      case Take =>
        top := TakeTop(pool);
      case Remove(elem) =>
        RemoveEntry(elem, pool);
    }
  }

  /** What users of a heap do: arm an entry that is not in it, take the top, remove an entry. */
  datatype HeapOp = Arm(elem: TimerEntry, time: U32) | Take | Remove(elem: TimerEntry)

  ghost predicate Legal(op: HeapOp, members: set<TimerEntry>, pool: set<TimerEntry>) {
    match op
    case Arm(elem, _) => elem in pool && elem !in members
    case Take => true
    case Remove(elem) => elem in pool
  }

  /** The slots after an operation. */
  ghost function SlotsAfter(op: HeapOp, v: seq<Slot<TimerEntry>>): seq<Slot<TimerEntry>> {
    match op
    case Arm(elem, time) => Pushed(v, Slot(elem, time))
    case Take => if v == [] then v else Removed(v, 0)
    case Remove(elem) => if elem in Items(v) then Removed(v, PlaceOf(v, elem)) else v
  }

  /** The entry that the operation gives back. */
  ghost function TopOf(op: HeapOp, v: seq<Slot<TimerEntry>>): TimerEntry? {
    if op.Take? && v != [] then v[0].item else null
  }

  /** The operation takes the members m to m', and gives back top. */
  ghost predicate OpDone(op: HeapOp, m: set<TimerEntry>, m': set<TimerEntry>, top: TimerEntry?) {
    match op
    case Arm(elem, _) => m' == m + {elem} && top == null
    case Take => if m == {} then m' == {} && top == null else top != null && top in m && m' == m - {top}
    case Remove(elem) => m' == m - {elem} && top == null
  }

  /** The operation keeps a heap in order: one that removes an entry meets the condition for that. */
  ghost predicate KeepsOrder(op: HeapOp, v: seq<Slot<TimerEntry>>) {
    op.Remove? && op.elem in Items(v) ==> Removable(v, PlaceOf(v, op.elem))
  }

  /** From a heap in order, an operation leads to one in order exactly when it meets the condition. */
  lemma OrderAfterIff(op: HeapOp, v: seq<Slot<TimerEntry>>)
    requires Ordered(v)
    ensures Ordered(SlotsAfter(op, v)) <==> KeepsOrder(op, v)
  {
    match op
    case Arm(elem, time) =>
      PushedIsHeap(v, Slot(elem, time));
    case Take =>
      if v != [] {
        RemovedIsHeapIff(v, 0);
      }
    case Remove(elem) =>
      if elem in Items(v) {
        RemovedIsHeapIff(v, PlaceOf(v, elem));
      }
  }

  /** What users of a heap do in a run: the k-th operation when the heap has the members m is next(k, m). */
  type Plan = (nat, set<TimerEntry>) -> HeapOp

  /** The slots after the first k operations of a run. */
  ghost function SlotsAt(v: seq<Slot<TimerEntry>>, next: Plan, k: nat): seq<Slot<TimerEntry>> {
    if k == 0 then v
    else
      var before := SlotsAt(v, next, k - 1);
      SlotsAfter(next(k - 1, Items(before)), before)
  }

  /** The operation that comes after the first k. */
  ghost function OpAt(v: seq<Slot<TimerEntry>>, next: Plan, k: nat): HeapOp {
    next(k, Items(SlotsAt(v, next, k)))
  }

  /** Every removal among the first n operations of a run meets the condition. */
  ghost predicate AllKeepOrder(v: seq<Slot<TimerEntry>>, next: Plan, n: nat) {
    forall k | 0 <= k < n :: KeepsOrder(OpAt(v, next, k), SlotsAt(v, next, k))
  }

  lemma {:induction false} OrderedUpTo(v: seq<Slot<TimerEntry>>, next: Plan, n: nat, k: nat)
    requires Ordered(v) && AllKeepOrder(v, next, n) && k <= n
    ensures Ordered(SlotsAt(v, next, k))
  {
    if k > 0 {
      OrderedUpTo(v, next, n, k - 1);
      OrderAfterIff(OpAt(v, next, k - 1), SlotsAt(v, next, k - 1));
    }
  }

  /** The heap is in order before each of the first n operations of a run, and after the last. */
  ghost predicate OrderedAllAlong(v: seq<Slot<TimerEntry>>, next: Plan, n: nat) {
    forall k | 0 <= k <= n :: Ordered(SlotsAt(v, next, k))
  }

  /** Over a run the heap is in order all along exactly when it is at first and every removal meets the
      condition. */
  lemma RunInOrderIff(v: seq<Slot<TimerEntry>>, next: Plan, n: nat)
    ensures OrderedAllAlong(v, next, n) <==> Ordered(v) && AllKeepOrder(v, next, n)
  {
    if OrderedAllAlong(v, next, n) {
      assert SlotsAt(v, next, 0) == v;
      forall k | 0 <= k < n
        ensures KeepsOrder(OpAt(v, next, k), SlotsAt(v, next, k))
      {
        assert Ordered(SlotsAt(v, next, k)) && Ordered(SlotsAt(v, next, k + 1));
        OrderAfterIff(OpAt(v, next, k), SlotsAt(v, next, k));
      }
    }
    if Ordered(v) && AllKeepOrder(v, next, n) {
      forall k | 0 <= k <= n
        ensures Ordered(SlotsAt(v, next, k))
      {
        OrderedUpTo(v, next, n, k);
      }
    }
  }

  /** The entries taken off the top by the operations of a run. */
  ghost predicate TopsOf(v: seq<Slot<TimerEntry>>, next: Plan, tops: seq<TimerEntry?>) {
    forall k | 0 <= k < |tops| :: tops[k] == TopOf(OpAt(v, next, k), SlotsAt(v, next, k))
  }

  lemma TopsStep(v: seq<Slot<TimerEntry>>, next: Plan, tops: seq<TimerEntry?>, top: TimerEntry?)
    requires TopsOf(v, next, tops) && top == TopOf(OpAt(v, next, |tops|), SlotsAt(v, next, |tops|))
    ensures TopsOf(v, next, tops + [top])
    ensures SlotsAt(v, next, |tops| + 1) == SlotsAfter(OpAt(v, next, |tops|), SlotsAt(v, next, |tops|))
  {
  }

  /** While every removal has met the condition, what is taken off the top is the earliest entry of the
      heap at that point. */
  lemma TopsAreEarliest(v: seq<Slot<TimerEntry>>, next: Plan, tops: seq<TimerEntry?>, k: nat, i: nat)
    requires Ordered(v) && AllKeepOrder(v, next, k) && TopsOf(v, next, tops)
    requires k < |tops| && tops[k] != null && i < |SlotsAt(v, next, k)|
    ensures tops[k] == SlotsAt(v, next, k)[0].item && SlotsAt(v, next, k)[0].time <= SlotsAt(v, next, k)[i].time
  {
    OrderedUpTo(v, next, k, k);
    TopIsEarliest(SlotsAt(v, next, k), i);
  }

  /** Each operation of a run takes the members that it is told of to the next ones. */
  ghost predicate AllDone(next: Plan, members: seq<set<TimerEntry>>, tops: seq<TimerEntry?>) {
    && |members| == |tops| + 1
    && forall k | 0 <= k < |tops| :: OpDone(next(k, members[k]), members[k], members[k + 1], tops[k])
  }

  lemma AllDoneStep(next: Plan, members: seq<set<TimerEntry>>, tops: seq<TimerEntry?>, m: set<TimerEntry>,
                    top: TimerEntry?)
    requires AllDone(next, members, tops) && OpDone(next(|tops|, members[|tops|]), members[|tops|], m, top)
    ensures AllDone(next, members + [m], tops + [top])
  {
  }

  /** Over every run of n operations: the slots, and the entries taken off the top, are those that the
      operations lead to one after the other; entries are in the heap at the slots that their indexes
      name, or have index -1; the heap is valid if every removal met the condition for order; and the
      members change operation by operation as requested. */
  method RunOps(heap: Heap, n: nat, next: Plan, ghost pool: set<TimerEntry>)
    returns (tops: seq<TimerEntry?>, ghost members: seq<set<TimerEntry>>)
    requires heap.Tracks(pool)
    requires forall k: nat, m | m <= pool :: Legal(next(k, m), m, pool)
    modifies heap, heap.elements, pool
    ensures heap.Tracks(pool) && (heap.elements == old(heap.elements) || fresh(heap.elements))
    ensures var v := old(heap.View());
      && heap.View() == SlotsAt(v, next, n) && heap.Members() == Items(SlotsAt(v, next, n))
      && |tops| == n && TopsOf(v, next, tops)
      && (Ordered(v) && AllKeepOrder(v, next, n) ==> heap.Valid())
    ensures AllDone(next, members, tops) && members[0] == old(heap.Members()) && members[n] == heap.Members()
  {
    tops, members := [], [heap.Members()];
    ghost var v := heap.View();
    for k := 0 to n
      invariant heap.Tracks(pool) && (heap.elements == old(heap.elements) || fresh(heap.elements))
      invariant heap.View() == SlotsAt(v, next, k) && |tops| == k && TopsOf(v, next, tops)
      invariant AllDone(next, members, tops) && members[0] == old(heap.Members()) && members[k] == heap.Members()
    {
      heap.MembersAreItems();
      var top := heap.Perform(next(k, heap.Members()), pool);
      TopsStep(v, next, tops, top);
      AllDoneStep(next, members, tops, heap.Members(), top);
      tops, members := tops + [top], members + [heap.Members()];
    }
    heap.MembersAreItems();
    if Ordered(v) && AllKeepOrder(v, next, n) {
      OrderedUpTo(v, next, n, n);
    }
  }
}
