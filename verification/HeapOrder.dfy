/** Heap order on plain sequences, and what the two sift loops do to it. */
module HeapOrder {

  /** What a live slot shows: the item stored there and its deadline. */
  datatype Slot<T> = Slot(item: T, time: int)

  function Parent(i: nat): (p: nat)
    requires i > 0
    ensures p < i && (i == 2 * p + 1 || i == 2 * p + 2)
  {
    (i - 1) / 2
  }

  /** No slot is earlier than its parent. */
  ghost predicate Ordered<T>(s: seq<Slot<T>>) {
    forall i | 0 < i < |s| :: s[Parent(i)].time <= s[i].time
  }

  /** Ordered, but for slot h against its parent and its children; the children of h still
      respect the parent of h. */
  ghost predicate OrderedExcept<T>(s: seq<Slot<T>>, h: nat) {
    && (forall i | 0 < i < |s| && i != h && Parent(i) != h :: s[Parent(i)].time <= s[i].time)
    && (h > 0 ==> forall i | 0 < i < |s| && Parent(i) == h :: s[Parent(h)].time <= s[i].time)
  }

  ghost predicate AboveChildren<T>(s: seq<Slot<T>>, h: nat)
    requires h < |s|
  {
    forall i | 0 < i < |s| && Parent(i) == h :: s[h].time <= s[i].time
  }

  function Swap<T>(s: seq<T>, i: nat, j: nat): (r: seq<T>)
    requires i < |s| && j < |s|
    ensures |r| == |s|
  {
    s[i := s[j]][j := s[i]]
  }

  lemma SwapKeepsItems<T>(s: seq<T>, i: nat, j: nat)
    requires i < |s| && j < |s|
    ensures multiset(Swap(s, i, j)) == multiset(s)
  {
  }

  /** The sift-up loop: slot h trades places with its parent while the parent is later. */
  function SiftUp<T>(s: seq<Slot<T>>, h: nat): (r: seq<Slot<T>>)
    requires h < |s|
    ensures |r| == |s|
    decreases h
  {
    if h == 0 || s[Parent(h)].time <= s[h].time then s
    else SiftUp(Swap(s, h, Parent(h)), Parent(h))
  }

  /** The sift-down loop over the first n slots: slot h trades places with its earlier child (the
      left one on a tie) unless it is strictly earlier than that child. */
  function SiftDown<T>(s: seq<Slot<T>>, n: nat, h: nat): (r: seq<Slot<T>>)
    requires n <= |s| && h < |s|
    ensures |r| == |s|
    decreases |s| - h
  {
    if h >= n / 2 || s[h].time < s[EarlierChild(s, n, h)].time then s
    else SiftDown(Swap(s, h, EarlierChild(s, n, h)), n, EarlierChild(s, n, h))
  }

  function EarlierChild<T>(s: seq<Slot<T>>, n: nat, h: nat): (c: nat)
    requires h < n / 2 && n <= |s|
    ensures h < c < n
  {
    if 2 * h + 2 < n && s[2 * h + 2].time < s[2 * h + 1].time then 2 * h + 2 else 2 * h + 1
  }

  lemma EarlierChildIsEarliest<T>(s: seq<Slot<T>>, h: nat)
    requires h < |s| / 2
    ensures Parent(EarlierChild(s, |s|, h)) == h
    ensures forall i | 0 < i < |s| && Parent(i) == h :: s[EarlierChild(s, |s|, h)].time <= s[i].time
  {
  }

  lemma {:induction false} SiftUpKeepsSlots<T>(s: seq<Slot<T>>, h: nat)
    requires h < |s|
    ensures multiset(SiftUp(s, h)) == multiset(s)
    decreases h
  {
    if h > 0 && s[Parent(h)].time > s[h].time {
      SwapKeepsItems(s, h, Parent(h));
      SiftUpKeepsSlots(Swap(s, h, Parent(h)), Parent(h));
    }
  }

  lemma {:induction false} SiftDownKeepsSlots<T>(s: seq<Slot<T>>, h: nat)
    requires h < |s|
    ensures multiset(SiftDown(s, |s|, h)) == multiset(s)
    decreases |s| - h
  {
    if h < |s| / 2 && s[h].time >= s[EarlierChild(s, |s|, h)].time {
      SwapKeepsItems(s, h, EarlierChild(s, |s|, h));
      SiftDownKeepsSlots(Swap(s, h, EarlierChild(s, |s|, h)), EarlierChild(s, |s|, h));
    }
  }

  lemma StepUp<T>(s: seq<Slot<T>>, h: nat)
    requires 0 < h < |s| && OrderedExcept(s, h) && AboveChildren(s, h) && s[Parent(h)].time > s[h].time
    ensures OrderedExcept(Swap(s, h, Parent(h)), Parent(h)) && AboveChildren(Swap(s, h, Parent(h)), Parent(h))
  {
  }

  lemma {:induction false} SiftUpOrders<T>(s: seq<Slot<T>>, h: nat)
    requires h < |s| && OrderedExcept(s, h) && AboveChildren(s, h)
    ensures Ordered(SiftUp(s, h))
    decreases h
  {
    if h > 0 && s[Parent(h)].time > s[h].time {
      StepUp(s, h);
      SiftUpOrders(Swap(s, h, Parent(h)), Parent(h));
    }
  }

  lemma StepDown<T>(s: seq<Slot<T>>, h: nat, c: nat)
    requires h < |s| && 0 < c < |s| && Parent(c) == h && OrderedExcept(s, h)
    requires s[c].time <= s[h].time && forall i | 0 < i < |s| && Parent(i) == h :: s[c].time <= s[i].time
    ensures OrderedExcept(Swap(s, h, c), c) && Swap(s, h, c)[h].time <= Swap(s, h, c)[c].time
  {
  }

  lemma SettledIff<T>(s: seq<Slot<T>>, h: nat)
    requires h < |s| && OrderedExcept(s, h) && AboveChildren(s, h)
    ensures Ordered(s) <==> h == 0 || s[Parent(h)].time <= s[h].time
  {
    if h > 0 && s[Parent(h)].time <= s[h].time {
      forall i | 0 < i < |s|
        ensures s[Parent(i)].time <= s[i].time
      {
        if i != h && Parent(i) != h {
          assert s[Parent(i)].time <= s[i].time;
        }
      }
    }
  }

  /** Sifting down from an out-of-place slot restores heap order exactly when that slot is the
      root or is not earlier than its parent. */
  lemma {:induction false} SiftDownOrdersIff<T>(s: seq<Slot<T>>, h: nat)
    requires h < |s| && OrderedExcept(s, h)
    ensures Ordered(SiftDown(s, |s|, h)) <==> h == 0 || s[Parent(h)].time <= s[h].time
    decreases |s| - h
  {
    if h >= |s| / 2 {
      SettledIff(s, h);
    } else {
      var c := EarlierChild(s, |s|, h);
      EarlierChildIsEarliest(s, h);
      if s[h].time < s[c].time {
        SettledIff(s, h);
      } else {
        StepDown(s, h, c);
        SiftDownOrdersIff(Swap(s, h, c), c);
      }
    }
  }

  /** In an ordered heap slot 0 is the earliest. */
  lemma {:induction false} TopIsEarliest<T>(s: seq<Slot<T>>, i: nat)
    requires Ordered(s) && i < |s|
    ensures s[0].time <= s[i].time
  {
    if i > 0 {
      TopIsEarliest(s, Parent(i));
    }
  }

  /** The heap after a push. */
  function Pushed<T>(v: seq<Slot<T>>, x: Slot<T>): (r: seq<Slot<T>>)
    ensures |r| == |v| + 1
  {
    SiftUp(v + [x], |v|)
  }

  /** The heap after the entry in slot h is taken out: the last entry is sifted down from there. */
  function Removed<T>(v: seq<Slot<T>>, h: nat): (r: seq<Slot<T>>)
    requires h < |v|
    ensures |r| == |v| - 1
  {
    SiftDown(v[h := v[|v| - 1]], |v| - 1, h)[..|v| - 1]
  }

  lemma PushedIsHeap<T>(v: seq<Slot<T>>, x: Slot<T>)
    ensures multiset(Pushed(v, x)) == multiset(v) + multiset{x}
    ensures Ordered(v) ==> Ordered(Pushed(v, x))
  {
    SiftUpKeepsSlots(v + [x], |v|);
    if Ordered(v) {
      SiftUpOrders(v + [x], |v|);
    }
  }

  /** Sifting down over the first n slots does not depend on the slots after them. */
  lemma {:induction false} SiftDownIgnoresTail<T>(s: seq<Slot<T>>, n: nat, h: nat)
    requires h < n <= |s|
    ensures SiftDown(s, n, h)[..n] == SiftDown(s[..n], n, h)
    decreases |s| - h
  {
    if h < n / 2 && s[h].time >= s[EarlierChild(s, n, h)].time {
      var c := EarlierChild(s, n, h);
      assert Swap(s, h, c)[..n] == Swap(s[..n], h, c);
      SiftDownIgnoresTail(Swap(s, h, c), n, c);
    }
  }

  lemma RemovedFromPrefix<T>(v: seq<Slot<T>>, h: nat)
    requires h < |v|
    ensures var n := |v| - 1;
      Removed(v, h) == if h < n then SiftDown(v[..n][h := v[n]], n, h) else SiftDown(v, n, h)[..n]
  {
    var n := |v| - 1;
    if h < n {
      SiftDownIgnoresTail(v[h := v[n]], n, h);
      assert v[h := v[n]][..n] == v[..n][h := v[n]];
    } else {
      assert v[h := v[n]] == v;
    }
  }

  lemma RemovedKeepsSlots<T>(v: seq<Slot<T>>, h: nat)
    requires h < |v|
    ensures multiset(Removed(v, h)) + multiset{v[h]} == multiset(v)
  {
    var n := |v| - 1;
    assert v == v[..n] + [v[n]];
    RemovedFromPrefix(v, h);
    if h < n {
      SiftDownKeepsSlots(v[..n][h := v[n]], h);
    }
  }

  /** Replacing slot h of an ordered heap by any other entry leaves order everywhere else. */
  lemma HoleInOrdered<T>(v: seq<Slot<T>>, h: nat, x: Slot<T>)
    requires Ordered(v) && h < |v|
    ensures OrderedExcept(v[h := x], h)
  {
    var w := v[h := x];
    forall i | 0 < i < |w| && Parent(i) == h && h > 0
      ensures w[Parent(h)].time <= w[i].time
    {
      assert v[Parent(i)].time <= v[i].time && v[Parent(h)].time <= v[h].time;
    }
  }

  /** Taking out slot h removes that one entry; the rest stays a heap exactly when h is the root or
      the last entry, which moves, is not earlier than the parent of h. */
  lemma RemovedIsHeapIff<T>(v: seq<Slot<T>>, h: nat)
    requires h < |v|
    ensures multiset(Removed(v, h)) + multiset{v[h]} == multiset(v)
    ensures Ordered(v) ==> (Ordered(Removed(v, h)) <==> h == 0 || v[Parent(h)].time <= v[|v| - 1].time)
  {
    var n := |v| - 1;
    RemovedKeepsSlots(v, h);
    RemovedFromPrefix(v, h);
    if Ordered(v) && h < n {
      HoleInOrdered(v[..n], h, v[n]);
      SiftDownOrdersIff(v[..n][h := v[n]], h);
    }
  }

  /** The items in the slots. */
  ghost function Items<T>(v: seq<Slot<T>>): set<T> {
    set i | 0 <= i < |v| :: v[i].item
  }

  ghost predicate Distinct<T>(v: seq<Slot<T>>) {
    forall i, j | 0 <= i < j < |v| :: v[i].item != v[j].item
  }

  /** The slot of an item. */
  ghost function PlaceOf<T>(v: seq<Slot<T>>, x: T): (i: nat)
    requires x in Items(v)
    ensures i < |v| && v[i].item == x
  {
    var i: nat :| i < |v| && v[i].item == x; i
  }

  /** The entry that moves when slot h is taken out is not earlier than the parent of h. */
  predicate Removable<T>(v: seq<Slot<T>>, h: nat)
    requires h < |v|
  {
    h == 0 || v[Parent(h)].time <= v[|v| - 1].time
  }

  lemma SameItems<T>(a: seq<Slot<T>>, b: seq<Slot<T>>)
    requires multiset(a) == multiset(b)
    ensures Items(a) <= Items(b)
  {
    forall i | 0 <= i < |a|
      ensures a[i].item in Items(b)
    {
      assert a[i] in multiset(b);
    }
  }

  lemma ItemsWithout<T>(v: seq<Slot<T>>, h: nat)
    requires h < |v| && Distinct(v)
    ensures Items(v[..h] + v[h + 1..]) == Items(v) - {v[h].item}
  {
    var rest := v[..h] + v[h + 1..];
    forall x | x in Items(v) - {v[h].item}
      ensures x in Items(rest)
    {
      var i :| 0 <= i < |v| && v[i].item == x;
      assert v[i] == rest[if i < h then i else i - 1];
    }
  }

  lemma CancelOne<S>(a: multiset<S>, b: multiset<S>, x: S)
    requires a + multiset{x} == b + multiset{x}
    ensures a == b
  {
    assert a == (a + multiset{x}) - multiset{x};
    assert b == (b + multiset{x}) - multiset{x};
  }

  lemma RemovedItems<T>(v: seq<Slot<T>>, h: nat)
    requires h < |v| && Distinct(v)
    ensures Items(Removed(v, h)) == Items(v) - {v[h].item}
  {
    var r, rest := Removed(v, h), v[..h] + v[h + 1..];
    RemovedIsHeapIff(v, h);
    assert v == v[..h] + ([v[h]] + v[h + 1..]);
    assert multiset(v) == multiset(rest) + multiset{v[h]};
    CancelOne(multiset(r), multiset(rest), v[h]);
    SameItems(r, rest);
    SameItems(rest, r);
    ItemsWithout(v, h);
  }

  lemma PushedItems<T>(v: seq<Slot<T>>, x: Slot<T>)
    ensures Items(Pushed(v, x)) == Items(v) + {x.item}
  {
    PushedIsHeap(v, x);
    SameItems(Pushed(v, x), v + [x]);
    SameItems(v + [x], Pushed(v, x));
    forall i | 0 <= i < |v|
      ensures v[i].item in Items(v + [x])
    {
      assert (v + [x])[i] == v[i];
    }
    assert (v + [x])[|v|] == x;
  }

  lemma LastItem<T>(v: seq<Slot<T>>)
    requires v != []
    ensures Items(v) == Items(v[..|v| - 1]) + {v[|v| - 1].item}
    ensures Distinct(v) ==> v[|v| - 1].item !in Items(v[..|v| - 1])
  {
    var u := v[..|v| - 1];
    forall x | x in Items(v)
      ensures x in Items(u) || x == v[|v| - 1].item
    {
      var i :| 0 <= i < |v| && v[i].item == x;
      assert i < |u| ==> u[i] == v[i];
    }
  }

  lemma DistinctBySize<T>(v: seq<Slot<T>>)
    requires Distinct(v)
    ensures |Items(v)| == |v|
  {
    if |v| > 0 {
      LastItem(v);
      DistinctBySize(v[..|v| - 1]);
    }
  }

  lemma ItemsAtMostLength<T>(v: seq<Slot<T>>)
    ensures |Items(v)| <= |v|
  {
    if |v| > 0 {
      LastItem(v);
      ItemsAtMostLength(v[..|v| - 1]);
    }
  }

  /** Pushing an item that is already in the heap leaves it in two slots. */
  lemma PushedTwice<T>(v: seq<Slot<T>>, x: Slot<T>)
    requires x.item in Items(v)
    ensures !Distinct(Pushed(v, x))
  {
    PushedItems(v, x);
    ItemsAtMostLength(v);
    assert Items(v) + {x.item} == Items(v);
    if Distinct(Pushed(v, x)) {
      DistinctBySize(Pushed(v, x));
    }
  }

  /** An entry earlier than its parent stays where it is when it is sifted down. */
  lemma EarlyEntryStays<T>(v: seq<Slot<T>>, h: nat, x: Slot<T>)
    requires Ordered(v) && 0 < h < |v| && x.time < v[Parent(h)].time
    ensures SiftDown(v[h := x], |v|, h) == v[h := x] && AboveChildren(v[h := x], h)
  {
    var w := v[h := x];
    forall i | 0 < i < |w| && Parent(i) == h
      ensures w[h].time < w[i].time
    {
      assert v[Parent(i)].time <= v[i].time && v[Parent(h)].time <= v[h].time;
    }
    if h < |w| / 2 {
      EarlierChildIsEarliest(w, h);
    }
  }

  /** The step the deletion leaves out: sifting the moved entry up as well restores heap order
      whatever entry was deleted. */
  lemma SiftingUpRepairs<T>(v: seq<Slot<T>>, h: nat)
    requires Ordered(v) && h < |v| - 1
    ensures Ordered(SiftUp(Removed(v, h), h))
  {
    var n := |v| - 1;
    RemovedFromPrefix(v, h);
    RemovedIsHeapIff(v, h);
    if h > 0 && v[n].time < v[Parent(h)].time {
      EarlyEntryStays(v[..n], h, v[n]);
      HoleInOrdered(v[..n], h, v[n]);
      SiftUpOrders(v[..n][h := v[n]], h);
    } else {
      assert SiftUp(Removed(v, h), h) == Removed(v, h);
    }
  }

  /** Seven timers where the deletion of slot 3 leaves a heap out of order. */
  lemma DeleteCanBreakOrder()
    ensures var ts := [1, 10, 2, 11, 12, 3, 4]; var v := seq(7, i requires 0 <= i < 7 => Slot(i, ts[i]));
      Ordered(v) && !Ordered(Removed(v, 3))
  {
    var ts := [1, 10, 2, 11, 12, 3, 4];
    var v := seq(7, i requires 0 <= i < 7 => Slot(i, ts[i]));
    assert Parent(1) == 0 && Parent(2) == 0 && Parent(3) == 1 && Parent(4) == 1 && Parent(5) == 2 && Parent(6) == 2;
    assert Ordered(v);
    RemovedIsHeapIff(v, 3);
  }

  /** No item is earlier than the one in slot 0. */
  lemma TopItemIsEarliest<T>(v: seq<Slot<T>>)
    requires Ordered(v) && |v| > 0
    ensures forall i | 0 <= i < |v| :: v[0].time <= v[i].time
  {
    forall i | 0 <= i < |v|
      ensures v[0].time <= v[i].time
    {
      TopIsEarliest(v, i);
    }
  }
}
