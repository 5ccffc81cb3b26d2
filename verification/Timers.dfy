/** Arming timers and firing the due ones (timer/mh-timer.c), with the clock readings as parameters. */
module Timers {
  import opened HeapOrder
  import opened MinHeap

  const HALF: int := 0x8000_0000

  /** The 32-bit sum of a clock reading and a delay. */
  function Deadline(now: U32, msec: U32): (t: U32)
    ensures t == if now + msec < U32_LIMIT then now + msec else now + msec - U32_LIMIT
  {
    (now + msec) % U32_LIMIT
  }

  function AsSigned(t: U32): int {
    if t < HALF then t else t - U32_LIMIT
  }

  /** A difference of two 32-bit signed values, wrapped to 32 bits. */
  function SignedDiff(a: U32, b: U32): int {
    var d := AsSigned(a) - AsSigned(b);
    if d < -HALF then d + U32_LIMIT else if d >= HALF then d - U32_LIMIT else d
  }

  /** The wait for the next timer and the expiry loop agree on whether a deadline is due exactly
      when deadline and clock are less than half the clock's range apart. */
  lemma DueAgreesIff(deadline: U32, now: U32)
    ensures (SignedDiff(deadline, now) <= 0 <==> deadline <= now) <==> -HALF <= deadline - now < HALF
    ensures -HALF <= deadline - now < HALF ==> SignedDiff(deadline, now) == deadline - now
  {
  }

  /** The members of a heap, with their deadlines. */
  ghost function Deadlines(heap: Heap): (m: map<TimerEntry, int>)
    requires heap.Live()
    reads heap, heap.elements, heap.elements[..]
    ensures m.Keys == heap.Members() && forall e | e in m :: m[e] == e.time
  {
    assert forall e | e in heap.Members() :: e in heap.elements[..];
    map e | e in heap.Members() :: e.time
  }

  /** Gives an entry its next deadline, without moving it in any heap. */
  method SetDeadline(heap: Heap, te: TimerEntry, now: U32, msec: U32)
    requires heap.Live()
    modifies te`time, te`interval
    ensures te.interval == (if msec > 0 then msec else old(te.interval)) && te.time == Deadline(now, te.interval)
    ensures heap.Indexed(heap.size) == old(heap.Indexed(heap.size))
    ensures te !in heap.Members() ==> heap.View() == old(heap.View()) && Deadlines(heap) == old(Deadlines(heap))
  {
    if msec > 0 {
      te.interval := msec;
    }
    te.time := Deadline(now, te.interval);
  }

  /** Puts an entry that has its deadline on the heap. */
  method Arm(heap: Heap, te: TimerEntry)
    requires heap.Live()
    modifies heap, heap.elements, heap.Members()`idx, te`idx
    ensures heap.Live() && heap.Members() == old(heap.Members()) + {te}
    ensures heap.elements == old(heap.elements) || fresh(heap.elements)
    ensures old(heap.Indexed(heap.size)) ==> (heap.Indexed(heap.size) <==> te !in old(heap.Members()))
    ensures old(heap.Valid()) && te !in old(heap.Members()) ==>
      heap.Valid() && Deadlines(heap) == old(Deadlines(heap))[te := te.time]
  {
    ghost var m := Deadlines(heap);
    heap.Push(te);
    if te !in m {
      OneMore(m, Deadlines(heap), te, te.time);
    }
  }

  lemma OneMore(m: map<TimerEntry, int>, m': map<TimerEntry, int>, te: TimerEntry, time: int)
    requires m'.Keys == m.Keys + {te} && te !in m && m'[te] == time && forall e | e in m :: m'[e] == m[e]
    ensures m' == m[te := time]
  {
  }

  method AddTimer(heap: Heap, now: U32, msec: U32) returns (te: TimerEntry)
    requires heap.Valid()
    modifies heap, heap.elements, heap.Members()`idx
    ensures heap.Valid() && fresh(te) && te.time == Deadline(now, msec) && te.interval == msec
    ensures Deadlines(heap) == old(Deadlines(heap))[te := te.time]
    ensures heap.elements == old(heap.elements) || fresh(heap.elements)
  {
    ghost var m := Deadlines(heap);
    te := new TimerEntry();
    te.time := Deadline(now, msec);
    te.interval := msec;
    assert heap.Valid() && Deadlines(heap) == m;
    Arm(heap, te);
  }

  /** Re-arms a timer by pushing it, whether or not it is still in the heap. */
  method ResetTimer(heap: Heap, te: TimerEntry, now: U32, msec: U32)
    requires heap.Live()
    modifies heap, heap.elements, heap.Members()`idx, te
    ensures heap.Live() && te.interval == (if msec > 0 then msec else old(te.interval))
    ensures te.time == Deadline(now, te.interval)
    ensures heap.Members() == old(heap.Members()) + {te}
    ensures old(heap.Indexed(heap.size)) ==> (heap.Indexed(heap.size) <==> te !in old(heap.Members()))
    ensures old(heap.Valid()) && te !in old(heap.Members()) ==>
      heap.Valid() && Deadlines(heap) == old(Deadlines(heap))[te := te.time]
    ensures heap.elements == old(heap.elements) || fresh(heap.elements)
  {
    SetDeadline(heap, te, now, msec);
    Arm(heap, te);
  }

  method FindNearest(heap: Heap, now: U32) returns (wait: int)
    requires heap.Live()
    ensures wait == -1 <==> heap.size == 0
    ensures heap.size > 0 ==> wait >= 0
    ensures heap.Valid() && (forall e | e in heap.Members() :: -HALF <= e.time - now < HALF) ==>
      && (wait == 0 <==> exists e | e in heap.Members() :: e.time <= now)
      && (forall e | e in heap.Members() :: now + wait <= e.time || e.time <= now)
      && (wait > 0 ==> exists e | e in heap.Members() :: e.time == now + wait)
  {
    if heap.size == 0 {
      return -1;
    }
    ghost var v := heap.View();
    if Ordered(v) {
      TopItemIsEarliest(v);
    }
    assert heap.elements[0] in heap.Members();
    var diff := SignedDiff(heap.elements[0].time, now);
    DueAgreesIff(heap.elements[0].time, now);
    return if diff > 0 then diff else 0;
  }

  /** A request to arm a timer: the clock reading it is based on, and the delay. */
  datatype Arming = Arming(now: U32, msec: U32)

  /** One thing that a handler does: it adds a timer, or re-arms one that is not in the heap. */
  datatype Action = Add(arming: Arming) | Rearm(te: TimerEntry, arming: Arming)

  /** What a handler does: the k-th one called, for timer te, when these timers are not in the heap. */
  type Script = (nat, TimerEntry, set<TimerEntry>) -> seq<Action>

  function NextInterval(msec: U32, interval: U32): U32 {
    if msec > 0 then msec else interval
  }

  /** The actions re-arm only timers that are not in the heap then, and arm only deadlines strictly after
      cur; iv are the intervals of the idle timers. */
  ghost predicate Arms(actions: seq<Action>, idle: set<TimerEntry>, iv: map<TimerEntry, U32>, cur: U32) {
    actions != [] ==>
      match actions[0]
      case Add(a) => cur < Deadline(a.now, a.msec) && Arms(actions[1..], idle, iv, cur)
      case Rearm(te, a) =>
        && te in idle && te in iv && cur < Deadline(a.now, NextInterval(a.msec, iv[te]))
        && Arms(actions[1..], idle - {te}, iv, cur)
  }

  /** Whatever timers of the pool are idle when a handler is called, it re-arms only such, and arms only
      deadlines strictly after cur. */
  ghost predicate Sane(script: Script, pool: set<TimerEntry>, iv: map<TimerEntry, U32>, cur: U32) {
    forall k: nat, te, idle {:trigger script(k, te, idle)} | te in idle && idle <= pool ::
      Arms(script(k, te, idle), idle, iv, cur)
  }

  /** The deadlines of the armed timers of the pool after the actions. */
  function ArmedBy(armed: map<TimerEntry, U32>, actions: seq<Action>, iv: map<TimerEntry, U32>): map<TimerEntry, U32>
    decreases |actions|
  {
    if actions == [] then armed
    else
      match actions[0]
      case Add(_) => ArmedBy(armed, actions[1..], iv)
      case Rearm(te, a) =>
        ArmedBy(armed[te := Deadline(a.now, NextInterval(a.msec, if te in iv then iv[te] else 0))], actions[1..], iv)
  }

  /** The timers that the actions add. */
  function AddsBy(actions: seq<Action>): seq<Arming> {
    if actions == [] then []
    else (if actions[0].Add? then [actions[0].arming] else []) + AddsBy(actions[1..])
  }

  /** What the handler of the last timer of `fired` does, where `armed` are the others' deadlines then. */
  function HandlerOf(armed: map<TimerEntry, U32>, te: TimerEntry, k: nat, script: Script,
                     pool: set<TimerEntry>): seq<Action> {
    script(k, te, pool - armed.Keys)
  }

  /** The deadlines of the armed timers of the pool after the handlers of `fired` have run. */
  function ArmedAfter(armed: map<TimerEntry, U32>, fired: seq<TimerEntry>, script: Script, pool: set<TimerEntry>,
                      iv: map<TimerEntry, U32>): map<TimerEntry, U32> {
    if fired == [] then armed
    else
      var k := |fired| - 1;
      var now := ArmedAfter(armed, fired[..k], script, pool, iv) - {fired[k]};
      ArmedBy(now, HandlerOf(now, fired[k], k, script, pool), iv)
  }

  /** The timers that the handlers of `fired` have added. */
  function AddsAfter(armed: map<TimerEntry, U32>, fired: seq<TimerEntry>, script: Script, pool: set<TimerEntry>,
                     iv: map<TimerEntry, U32>): seq<Arming> {
    if fired == [] then []
    else
      var k := |fired| - 1;
      var now := ArmedAfter(armed, fired[..k], script, pool, iv) - {fired[k]};
      AddsAfter(armed, fired[..k], script, pool, iv) + AddsBy(HandlerOf(now, fired[k], k, script, pool))
  }

  // ---------- What the handlers did ----------

  /** A call of a handler: the timers that were not in the heap then, and what the handler did. */
  datatype Call = Call(idle: set<TimerEntry>, actions: seq<Action>)

  /** The calls of the handlers of `fired`. */
  ghost function CallsOf(armed: map<TimerEntry, U32>, fired: seq<TimerEntry>, script: Script, pool: set<TimerEntry>,
                         iv: map<TimerEntry, U32>): (calls: seq<Call>)
    ensures |calls| == |fired|
  {
    if fired == [] then []
    else
      var k := |fired| - 1;
      var idle := pool - (ArmedAfter(armed, fired[..k], script, pool, iv) - {fired[k]}).Keys;
      CallsOf(armed, fired[..k], script, pool, iv) + [Call(idle, script(k, fired[k], idle))]
  }

  /** One of the actions re-arms the timer. */
  ghost predicate RearmedIn(actions: seq<Action>, e: TimerEntry) {
    exists i | 0 <= i < |actions| :: actions[i].Rearm? && actions[i].te == e
  }

  /** One of the calls re-armed the timer. */
  ghost predicate Asked(calls: seq<Call>, e: TimerEntry) {
    exists k | 0 <= k < |calls| :: RearmedIn(calls[k].actions, e)
  }

  /** The action re-arms a timer that is at the deadline asked for. */
  ghost predicate Granted(action: Action, armed: map<TimerEntry, U32>, iv: map<TimerEntry, U32>) {
    action.Rearm? ==>
      && action.te in armed && action.te in iv
      && armed[action.te] == Deadline(action.arming.now, NextInterval(action.arming.msec, iv[action.te]))
  }

  /** Actions that re-arm idle timers only leave these at the deadlines asked for, and all others alone. */
  lemma {:induction false} ArmedByIs(armed: map<TimerEntry, U32>, actions: seq<Action>, idle: set<TimerEntry>,
                                     iv: map<TimerEntry, U32>, cur: U32)
    requires Arms(actions, idle, iv, cur) && idle !! armed.Keys
    ensures var armed' := ArmedBy(armed, actions, iv);
      && (forall e :: e in armed' <==> e in armed || RearmedIn(actions, e))
      && (forall e | e in armed :: armed'[e] == armed[e])
      && (forall i | 0 <= i < |actions| :: Granted(actions[i], armed', iv))
    ensures forall i | 0 <= i < |actions| && actions[i].Rearm? :: actions[i].te in idle
    decreases |actions|
  {
    if actions != [] {
      var a, rest := actions[0], actions[1..];
      assert forall e :: RearmedIn(actions, e) <==> RearmedIn([a], e) || RearmedIn(rest, e) by {
        RearmedFirst(actions);
      }
      assert a == [a][0];
      match a
      case Add(_) =>
        ArmedByIs(armed, rest, idle, iv, cur);
      case Rearm(te, arming) =>
        ArmedByIs(armed[te := Deadline(arming.now, NextInterval(arming.msec, iv[te]))], rest, idle - {te}, iv, cur);
      forall i | 0 <= i < |actions|
        ensures Granted(actions[i], ArmedBy(armed, actions, iv), iv)
        ensures actions[i].Rearm? ==> actions[i].te in idle
      {
        assert i > 0 ==> actions[i] == rest[i - 1];
      }
    }
  }

  lemma RearmedFirst(actions: seq<Action>)
    requires actions != []
    ensures forall e :: RearmedIn(actions, e) <==> RearmedIn([actions[0]], e) || RearmedIn(actions[1..], e)
  {
    forall e
      ensures RearmedIn(actions, e) <==> RearmedIn([actions[0]], e) || RearmedIn(actions[1..], e)
    {
      assert [actions[0]][0] == actions[0];
      if RearmedIn(actions, e) {
        var i :| 0 <= i < |actions| && actions[i].Rearm? && actions[i].te == e;
        assert i > 0 ==> actions[1..][i - 1] == actions[i];
      }
      if RearmedIn(actions[1..], e) {
        var i :| 0 <= i < |actions[1..]| && actions[1..][i].Rearm? && actions[1..][i].te == e;
        assert actions[i + 1] == actions[1..][i];
      }
    }
  }

  /** The call of the k-th handler: it was told which timers were not in the heap then, and re-armed only
      such. */
  ghost predicate RightCall(calls: seq<Call>, k: nat, armed0: map<TimerEntry, U32>, fired: seq<TimerEntry>,
                            script: Script, pool: set<TimerEntry>)
    requires k < |calls| == |fired|
  {
    && calls[k].actions == script(k, fired[k], calls[k].idle) && fired[k] in calls[k].idle && calls[k].idle <= pool
    && (forall e | e in pool ::
          e in calls[k].idle <==> (e !in armed0 || e in fired[..k + 1]) && !Asked(calls[..k], e))
    && (forall i | 0 <= i < |calls[k].actions| && calls[k].actions[i].Rearm? :: calls[k].actions[i].te in calls[k].idle)
  }

  /** What the calls asked for is what is armed: every timer re-armed is at its deadline, and nothing else is
      in the heap but what was and has not fired. */
  ghost predicate Accounted(calls: seq<Call>, armed0: map<TimerEntry, U32>, fired: seq<TimerEntry>,
                            armed: map<TimerEntry, U32>, script: Script, pool: set<TimerEntry>,
                            iv: map<TimerEntry, U32>) {
    && |calls| == |fired|
    && (forall k | 0 <= k < |calls| :: RightCall(calls, k, armed0, fired, script, pool))
    && (forall k, i | 0 <= k < |calls| && 0 <= i < |calls[k].actions| :: Granted(calls[k].actions[i], armed, iv))
    && (forall e | e in armed :: Asked(calls, e) || (e in armed0 && e !in fired && armed[e] == armed0[e]))
    && (forall e | e in armed0 && e !in fired :: e in armed)
  }

  lemma AskedStep(calls: seq<Call>, c: Call)
    ensures forall e :: Asked(calls + [c], e) <==> Asked(calls, e) || RearmedIn(c.actions, e)
  {
    var calls' := calls + [c];
    forall e
      ensures Asked(calls', e) <==> Asked(calls, e) || RearmedIn(c.actions, e)
    {
      if Asked(calls, e) {
        var k :| 0 <= k < |calls| && RearmedIn(calls[k].actions, e);
        assert calls'[k] == calls[k];
      }
      assert calls'[|calls|] == c;
    }
  }

  /** Over a pass that fires each timer at most once, what is armed in the end is what the handlers asked
      for, and what was armed at first and has not fired. */
  lemma {:induction false} CallsAreAccounted(armed0: map<TimerEntry, U32>, fired: seq<TimerEntry>, script: Script,
                                             pool: set<TimerEntry>, iv: map<TimerEntry, U32>, cur: U32)
    requires Sane(script, pool, iv, cur) && armed0.Keys <= pool
    requires forall i | 0 <= i < |fired| :: fired[i] in armed0
    requires forall i, j | 0 <= i < j < |fired| :: fired[i] != fired[j]
    ensures var calls := CallsOf(armed0, fired, script, pool, iv);
      Accounted(calls, armed0, fired, ArmedAfter(armed0, fired, script, pool, iv), script, pool, iv)
    decreases |fired|
  {
    if fired != [] {
      var k := |fired| - 1;
      CallsAreAccounted(armed0, fired[..k], script, pool, iv, cur);
      CallAccounted(CallsOf(armed0, fired[..k], script, pool, iv), armed0, fired[..k], fired[k],
                    ArmedAfter(armed0, fired[..k], script, pool, iv), script, pool, iv, cur);
      assert fired == fired[..k] + [fired[k]];
    }
  }

  /** A timer that has not fired yet has not been idle, so it has not been re-armed. */
  lemma NotAsked(calls: seq<Call>, armed0: map<TimerEntry, U32>, fired: seq<TimerEntry>, e: TimerEntry,
                 script: Script, pool: set<TimerEntry>)
    requires |calls| == |fired| && forall k | 0 <= k < |calls| :: RightCall(calls, k, armed0, fired, script, pool)
    requires e in armed0 && e !in fired && e in pool
    ensures !Asked(calls, e)
  {
    forall k | 0 <= k < |calls|
      ensures !RearmedIn(calls[k].actions, e)
    {
      assert RightCall(calls, k, armed0, fired, script, pool) && e !in fired[..k + 1];
    }
  }

  lemma AskedIsArmed(calls: seq<Call>, armed: map<TimerEntry, U32>, iv: map<TimerEntry, U32>, e: TimerEntry)
    requires Asked(calls, e)
    requires forall k, i | 0 <= k < |calls| && 0 <= i < |calls[k].actions| :: Granted(calls[k].actions[i], armed, iv)
    ensures e in armed
  {
    var k :| 0 <= k < |calls| && RearmedIn(calls[k].actions, e);
    var i :| 0 <= i < |calls[k].actions| && calls[k].actions[i].Rearm? && calls[k].actions[i].te == e;
    assert Granted(calls[k].actions[i], armed, iv);
  }

  lemma CallAccounted(calls: seq<Call>, armed0: map<TimerEntry, U32>, fired: seq<TimerEntry>, te: TimerEntry,
                      armed: map<TimerEntry, U32>, script: Script, pool: set<TimerEntry>,
                      iv: map<TimerEntry, U32>, cur: U32)
    requires Sane(script, pool, iv, cur) && armed0.Keys <= pool && te in armed0 && te !in fired
    requires Accounted(calls, armed0, fired, armed, script, pool, iv)
    ensures var now := armed - {te}; var idle := pool - now.Keys; var c := Call(idle, script(|fired|, te, idle));
      Accounted(calls + [c], armed0, fired + [te], ArmedBy(now, c.actions, iv), script, pool, iv)
  {
    var now := armed - {te};
    var idle := pool - now.Keys;
    var c := Call(idle, script(|fired|, te, idle));
    var calls', fired', armed' := calls + [c], fired + [te], ArmedBy(now, c.actions, iv);
    NotAsked(calls, armed0, fired, te, script, pool);
    ArmedByIs(now, c.actions, idle, iv, cur);
    AskedStep(calls, c);
    forall k | 0 <= k < |calls'|
      ensures RightCall(calls', k, armed0, fired', script, pool)
    {
      if k < |calls| {
        assert RightCall(calls, k, armed0, fired, script, pool);
        assert calls'[k] == calls[k] && calls'[..k] == calls[..k] && fired'[..k + 1] == fired[..k + 1];
      } else {
        assert calls'[..k] == calls && fired'[..k + 1] == fired' && calls'[k] == c;
        forall e | Asked(calls, e)
          ensures e in armed
        {
          AskedIsArmed(calls, armed, iv, e);
        }
      }
    }
    forall k, i | 0 <= k < |calls'| && 0 <= i < |calls'[k].actions|
      ensures Granted(calls'[k].actions[i], armed', iv)
    {
      if k < |calls| {
        StillGranted(calls, k, i, te, armed, armed', iv);
      }
    }
    forall e | e in armed' && !Asked(calls', e)
      ensures e in armed0 && e !in fired' && armed'[e] == armed0[e]
    {
      assert !Asked(calls, e) && !RearmedIn(c.actions, e);
      assert e in now && armed'[e] == now[e] == armed[e];
    }
  }

  lemma StillGranted(calls: seq<Call>, k: nat, i: nat, te: TimerEntry, armed: map<TimerEntry, U32>,
                     armed': map<TimerEntry, U32>, iv: map<TimerEntry, U32>)
    requires k < |calls| && i < |calls[k].actions| && Granted(calls[k].actions[i], armed, iv) && !Asked(calls, te)
    requires forall e | e in armed && e != te :: e in armed' && armed'[e] == armed[e]
    ensures Granted(calls[k].actions[i], armed', iv)
  {
    if calls[k].actions[i].Rearm? {
      assert RearmedIn(calls[k].actions, calls[k].actions[i].te);
    }
  }

  /** How many timers these actions add. */
  function NumAdds(actions: seq<Action>): nat {
    if actions == [] then 0
    else NumAdds(actions[..|actions| - 1]) + if actions[|actions| - 1].Add? then 1 else 0
  }

  function TotalAdds(calls: seq<Call>): nat {
    if calls == [] then 0 else TotalAdds(calls[..|calls| - 1]) + NumAdds(calls[|calls| - 1].actions)
  }

  lemma {:induction false} NumAddsFirst(a: Action, rest: seq<Action>)
    ensures NumAdds([a] + rest) == (if a.Add? then 1 else 0) + NumAdds(rest)
    decreases |rest|
  {
    if rest == [] {
      assert [a] + rest == [a] && [a][..0] == [];
    } else {
      assert ([a] + rest)[..|rest|] == [a] + rest[..|rest| - 1];
      NumAddsFirst(a, rest[..|rest| - 1]);
    }
  }

  /** One of the calls asked for this timer. */
  ghost predicate AddAsked(calls: seq<Call>, a: Arming) {
    exists k | 0 <= k < |calls| :: Add(a) in calls[k].actions
  }

  lemma {:induction false} AddsByIs(actions: seq<Action>)
    ensures |AddsBy(actions)| == NumAdds(actions)
    ensures forall a :: a in AddsBy(actions) <==> Add(a) in actions
    decreases |actions|
  {
    if actions != [] {
      AddsByIs(actions[1..]);
      NumAddsFirst(actions[0], actions[1..]);
      assert actions == [actions[0]] + actions[1..];
    }
  }

  /** The timers added over a pass are as many as the handlers asked for, and no others. */
  lemma {:induction false} AddsAreAccounted(armed0: map<TimerEntry, U32>, fired: seq<TimerEntry>, script: Script,
                                            pool: set<TimerEntry>, iv: map<TimerEntry, U32>)
    ensures var calls, adds := CallsOf(armed0, fired, script, pool, iv), AddsAfter(armed0, fired, script, pool, iv);
      |adds| == TotalAdds(calls) && forall a :: a in adds <==> AddAsked(calls, a)
    decreases |fired|
  {
    if fired != [] {
      var k := |fired| - 1;
      AddsAreAccounted(armed0, fired[..k], script, pool, iv);
      var front, now := CallsOf(armed0, fired[..k], script, pool, iv), ArmedAfter(armed0, fired[..k], script, pool, iv);
      var idle := pool - (now - {fired[k]}).Keys;
      var c := Call(idle, script(k, fired[k], idle));
      assert CallsOf(armed0, fired, script, pool, iv) == front + [c];
      AddsByIs(c.actions);
      AddAskedStep(front, c);
      InBoth(AddsAfter(armed0, fired[..k], script, pool, iv), AddsBy(c.actions));
    }
  }

  lemma AddAskedStep(calls: seq<Call>, c: Call)
    ensures TotalAdds(calls + [c]) == TotalAdds(calls) + NumAdds(c.actions)
    ensures forall a :: AddAsked(calls + [c], a) <==> AddAsked(calls, a) || Add(a) in c.actions
  {
    var calls' := calls + [c];
    assert calls'[..|calls|] == calls;
    forall a
      ensures AddAsked(calls', a) <==> AddAsked(calls, a) || Add(a) in c.actions
    {
      if AddAsked(calls, a) {
        var k :| 0 <= k < |calls| && Add(a) in calls[k].actions;
        assert calls'[k] == calls[k];
      }
      assert calls'[|calls|] == c;
    }
  }

  lemma InBoth<T>(s: seq<T>, t: seq<T>)
    ensures forall x :: x in s + t <==> x in s || x in t
  {
  }

  /** The timers of the pool that are in the heap, with their deadlines. */
  ghost function Armed(heap: Heap, pool: set<TimerEntry>): (m: map<TimerEntry, U32>)
    requires heap.Live()
    reads heap, heap.elements, pool`time
    ensures m.Keys == pool * heap.Members()
  {
    map e | e in pool && e in heap.Members() :: e.time
  }

  /** These timers have been made for these requests. */
  ghost predicate Made(added: seq<TimerEntry>, adds: seq<Arming>)
    reads added`time, added`interval
  {
    && |added| == |adds|
    && forall i | 0 <= i < |added| ::
      added[i].time == Deadline(adds[i].now, adds[i].msec) && added[i].interval == adds[i].msec
  }

  /** Apart from the pool, the heap holds what it held before and, once each, the timers added. */
  ghost predicate WithAdded(others: set<TimerEntry>, added: seq<TimerEntry>, others': set<TimerEntry>) {
    && others' == others + (set e | e in added)
    && (forall e | e in added :: e !in others)
    && (forall i, j | 0 <= i < j < |added| :: added[i] != added[j])
  }

  /** The timers of the pool that are not in the heap have index -1, and the intervals iv. */
  ghost predicate Resting(heap: Heap, pool: set<TimerEntry>, iv: map<TimerEntry, U32>)
    requires heap.Live()
    reads heap, heap.elements, pool`idx, pool`interval
  {
    forall e | e in pool && e !in heap.Members() :: e.idx == -1 && e in iv && e.interval == iv[e]
  }

  ghost function Due(m: map<TimerEntry, int>, cur: U32): set<TimerEntry> {
    set e | e in m && m[e] <= cur
  }

  /** m' keeps every timer of m, and its other timers are all later than cur. */
  ghost predicate OnlyAddsLater(m: map<TimerEntry, int>, m': map<TimerEntry, int>, cur: U32) {
    && (forall e | e in m :: e in m' && m'[e] == m[e])
    && (forall e | e in m' && e !in m :: cur < m'[e])
  }

  /** These timers have the intervals iv. */
  ghost predicate Timed(es: set<TimerEntry>, iv: map<TimerEntry, U32>)
    reads es`interval
  {
    forall e | e in es :: e in iv && e.interval == iv[e]
  }

  lemma OnlyAddsLaterTwice(m: map<TimerEntry, int>, m': map<TimerEntry, int>, m'': map<TimerEntry, int>, cur: U32)
    requires OnlyAddsLater(m, m', cur) && OnlyAddsLater(m', m'', cur)
    ensures OnlyAddsLater(m, m'', cur)
  {
  }

  method ActAdd(heap: Heap, a: Arming, ghost pool: set<TimerEntry>, ghost iv: map<TimerEntry, U32>, ghost cur: U32)
    returns (te: TimerEntry)
    requires heap.Valid() && Resting(heap, pool, iv) && cur < Deadline(a.now, a.msec)
    modifies heap, heap.elements, heap.Members()`idx
    ensures heap.Valid() && Resting(heap, pool, iv) && OnlyAddsLater(old(Deadlines(heap)), Deadlines(heap), cur)
    ensures Armed(heap, pool) == old(Armed(heap, pool))
    ensures fresh(te) && te.time == Deadline(a.now, a.msec) && te.interval == a.msec
    ensures heap.Members() == old(heap.Members()) + {te}
    ensures heap.elements == old(heap.elements) || fresh(heap.elements)
  {
    ghost var m, armed := Deadlines(heap), Armed(heap, pool);
    te := AddTimer(heap, a.now, a.msec);
    OneLater(m, te, te.time, cur);
    assert Armed(heap, pool) == armed;
  }

  /** One more timer, later than cur. */
  lemma OneLater(m: map<TimerEntry, int>, te: TimerEntry, time: int, cur: U32)
    requires te !in m && cur < time
    ensures OnlyAddsLater(m, m[te := time], cur)
  {
  }

  lemma OneArmed(armed: map<TimerEntry, U32>, armed': map<TimerEntry, U32>, te: TimerEntry, time: U32)
    requires armed'.Keys == armed.Keys + {te} && te !in armed && armed'[te] == time
      && forall e | e in armed :: armed'[e] == armed[e]
    ensures armed' == armed[te := time]
  {
  }

  method ActRearm(heap: Heap, te: TimerEntry, a: Arming, ghost pool: set<TimerEntry>, ghost iv: map<TimerEntry, U32>,
                  ghost cur: U32)
    requires heap.Valid() && Resting(heap, pool, iv) && te in pool && te !in heap.Members() && te in iv
    requires cur < Deadline(a.now, NextInterval(a.msec, iv[te]))
    modifies heap, heap.elements, heap.Members()`idx, te
    ensures heap.Valid() && Resting(heap, pool, iv) && OnlyAddsLater(old(Deadlines(heap)), Deadlines(heap), cur)
    ensures Armed(heap, pool) == old(Armed(heap, pool))[te := Deadline(a.now, NextInterval(a.msec, iv[te]))]
    ensures heap.Members() == old(heap.Members()) + {te}
    ensures heap.elements == old(heap.elements) || fresh(heap.elements)
  {
    ghost var m, armed := Deadlines(heap), Armed(heap, pool);
    ResetTimer(heap, te, a.now, a.msec);
    OneLater(m, te, te.time, cur);
    OneArmed(armed, Armed(heap, pool), te, te.time);
  }

  /** Performs one action of a handler. */
  method Act(heap: Heap, action: Action, ghost pool: set<TimerEntry>, ghost due: set<TimerEntry>,
             ghost iv: map<TimerEntry, U32>, ghost cur: U32)
    returns (added: seq<TimerEntry>)
    requires heap.Valid() && due <= heap.Members() && Timed(due, iv)
    requires Resting(heap, pool, iv) && Arms([action], pool - Armed(heap, pool).Keys, iv, cur)
    modifies heap, heap.elements, heap.Members()`idx, pool
    ensures heap.Valid() && Resting(heap, pool, iv) && OnlyAddsLater(old(Deadlines(heap)), Deadlines(heap), cur)
    ensures Armed(heap, pool) == ArmedBy(old(Armed(heap, pool)), [action], iv)
    ensures Made(added, AddsBy([action])) && WithAdded(old(heap.Members()) - pool, added, heap.Members() - pool)
    ensures forall e | e in heap.Members() :: e in pool || e in old(heap.Members()) || fresh(e)
    ensures due <= heap.Members() && Timed(due, iv)
    ensures heap.elements == old(heap.elements) || fresh(heap.elements)
  {
    OneAction(Armed(heap, pool), action, iv);
    ghost var members := heap.Members();
    match action
    case Add(a) =>
      var te := ActAdd(heap, a, pool, iv, cur);
      added := [te];
      OneAdded(members, te, pool);
    case Rearm(te, a) =>
      ActRearm(heap, te, a, pool, iv, cur);
      added := [];
      NoneAdded(members, te, pool);
  }

  lemma OneAdded(members: set<TimerEntry>, te: TimerEntry, pool: set<TimerEntry>)
    requires te !in members && te !in pool
    ensures WithAdded(members - pool, [te], members + {te} - pool)
  {
    assert members + {te} - pool == members - pool + {te};
    assert {te} == set e | e in [te];
  }

  lemma NoneAdded(members: set<TimerEntry>, te: TimerEntry, pool: set<TimerEntry>)
    requires te in pool
    ensures WithAdded(members - pool, [], members + {te} - pool)
  {
    assert members + {te} - pool == members - pool;
  }

  lemma OneAction(armed: map<TimerEntry, U32>, action: Action, iv: map<TimerEntry, U32>)
    ensures action.Add? ==> ArmedBy(armed, [action], iv) == armed && AddsBy([action]) == [action.arming]
    ensures action.Rearm? ==> AddsBy([action]) == []
    ensures action.Rearm? ==>
      var a, te := action.arming, action.te;
      ArmedBy(armed, [action], iv) == armed[te := Deadline(a.now, NextInterval(a.msec, if te in iv then iv[te] else 0))]
  {
    assert [action][1..] == [];
  }

  lemma HandlerUnfolds(actions: seq<Action>, armed: map<TimerEntry, U32>, pool: set<TimerEntry>,
                       iv: map<TimerEntry, U32>, cur: U32)
    requires actions != [] && Arms(actions, pool - armed.Keys, iv, cur)
    ensures var a, rest := [actions[0]], actions[1..];
      && Arms(a, pool - armed.Keys, iv, cur) && Arms(rest, pool - ArmedBy(armed, a, iv).Keys, iv, cur)
      && ArmedBy(armed, actions, iv) == ArmedBy(ArmedBy(armed, a, iv), rest, iv)
      && AddsBy(actions) == AddsBy(a) + AddsBy(rest)
  {
    var a := actions[0];
    OneAction(armed, a, iv);
    if a.Rearm? {
      assert (pool - armed.Keys) - {a.te} == pool - ArmedBy(armed, [a], iv).Keys;
    }
  }

  /** Runs a handler. */
  method RunHandler(heap: Heap, actions: seq<Action>, ghost pool: set<TimerEntry>, ghost due: set<TimerEntry>,
                    ghost iv: map<TimerEntry, U32>, ghost cur: U32)
    returns (added: seq<TimerEntry>)
    requires heap.Valid() && due <= heap.Members() && Timed(due, iv)
    requires Resting(heap, pool, iv) && Arms(actions, pool - Armed(heap, pool).Keys, iv, cur)
    modifies heap, heap.elements, heap.Members()`idx, pool
    ensures heap.Valid() && Resting(heap, pool, iv) && OnlyAddsLater(old(Deadlines(heap)), Deadlines(heap), cur)
    ensures Armed(heap, pool) == ArmedBy(old(Armed(heap, pool)), actions, iv)
    ensures Made(added, AddsBy(actions)) && WithAdded(old(heap.Members()) - pool, added, heap.Members() - pool)
    ensures forall e | e in heap.Members() :: e in pool || e in old(heap.Members()) || fresh(e)
    ensures due <= heap.Members() && Timed(due, iv)
    ensures heap.elements == old(heap.elements) || fresh(heap.elements)
    decreases |actions|
  {
    if actions == [] {
      return [];
    }
    HandlerUnfolds(actions, Armed(heap, pool), pool, iv, cur);
    ghost var m, others := Deadlines(heap), heap.Members() - pool;
    var first := Act(heap, actions[0], pool, due, iv, cur);
    ghost var m', others' := Deadlines(heap), heap.Members() - pool;
    OthersAre(heap.Members(), pool, others, first);
    ghost var elements := heap.elements;
    assert elements == old(heap.elements) || fresh(elements);
    var more := RunHandler(heap, actions[1..], pool, due, iv, cur);
    MadeTwice(first, AddsBy([actions[0]]), more, AddsBy(actions[1..]));
    OnlyAddsLaterTwice(m, m', Deadlines(heap), cur);
    WithAddedTwice(others, first, others', more, heap.Members() - pool);
    return first + more;
  }

  lemma OthersAre(members: set<TimerEntry>, pool: set<TimerEntry>, others: set<TimerEntry>, added: seq<TimerEntry>)
    requires WithAdded(others, added, members - pool)
    ensures forall e | e in members :: e in pool || e in others || e in added
    ensures forall e | e in added :: e in members && e !in pool
  {
    assert forall e | e in members && e !in pool :: e in members - pool;
    assert forall e | e in added :: e in members - pool;
  }

  lemma MadeTwice(added: seq<TimerEntry>, adds: seq<Arming>, more: seq<TimerEntry>, adds': seq<Arming>)
    requires Made(added, adds) && Made(more, adds')
    ensures Made(added + more, adds + adds')
  {
  }

  lemma WithAddedTwice(others: set<TimerEntry>, added: seq<TimerEntry>, now: set<TimerEntry>, more: seq<TimerEntry>,
                       later: set<TimerEntry>)
    requires WithAdded(others, added, now) && WithAdded(now, more, later)
    ensures WithAdded(others, added + more, later)
  {
    var all := added + more;
    assert (set e | e in all) == (set e | e in added) + (set e | e in more);
    forall i, j | 0 <= i < j < |all|
      ensures all[i] != all[j]
    {
      if i < |added| <= j {
        assert all[i] in added && all[j] in more && all[i] in now;
      }
    }
  }

  /** How far an expiry pass has come: `fired` are the timers fired so far, m0 the deadlines at its
      start and m the present ones. */
  ghost predicate Expiring(m0: map<TimerEntry, int>, m: map<TimerEntry, int>, fired: seq<TimerEntry>, cur: U32) {
    && (forall i | 0 <= i < |fired| :: fired[i] in Due(m0, cur))
    && (forall i, j | 0 <= i < j < |fired| :: fired[i] != fired[j] && m0[fired[i]] <= m0[fired[j]])
    && Due(m, cur) == Due(m0, cur) - (set e | e in fired)
    && (forall i, e | 0 <= i < |fired| && e in Due(m, cur) :: m0[fired[i]] <= m[e])
    && (forall e | e in m0 && e !in fired :: e in m && m[e] == m0[e])
  }

  lemma DueStep(m: map<TimerEntry, int>, m': map<TimerEntry, int>, te: TimerEntry, cur: U32)
    requires te in m && m[te] <= cur && OnlyAddsLater(m - {te}, m', cur)
    ensures te in Due(m, cur) && Due(m', cur) == Due(m, cur) - {te}
    ensures forall e | e in Due(m', cur) :: m'[e] == m[e]
  {
    forall e | e in Due(m, cur) - {te}
      ensures e in Due(m', cur)
    {
      assert e in m - {te};
    }
  }

  lemma ExpiringStep(m0: map<TimerEntry, int>, m: map<TimerEntry, int>, m': map<TimerEntry, int>,
                     fired: seq<TimerEntry>, te: TimerEntry, cur: U32)
    requires Expiring(m0, m, fired, cur)
    requires te in m && m[te] <= cur && forall e | e in m :: m[te] <= m[e]
    requires OnlyAddsLater(m - {te}, m', cur)
    ensures Expiring(m0, m', fired + [te], cur) && Due(m', cur) == Due(m, cur) - {te} && te in Due(m, cur)
  {
    var fired' := fired + [te];
    DueStep(m, m', te, cur);
    assert (set e | e in fired') == (set e | e in fired) + {te};
    assert m0[te] == m[te] && te !in fired;
    assert Due(m', cur) == Due(m0, cur) - (set e | e in fired');
    forall e | e in m0 && e !in fired'
      ensures e in m' && m'[e] == m0[e]
    {
      assert e !in fired;
      assert e in m - {te};
    }
  }

  /** Takes the top timer off the heap: it is the earliest, and idle now. */
  method PopTop(heap: Heap, ghost pool: set<TimerEntry>, ghost iv: map<TimerEntry, U32>) returns (te: TimerEntry)
    requires heap.Valid() && heap.size > 0 && heap.elements[0] in pool && Resting(heap, pool, iv)
    requires heap.elements[0] in iv && heap.elements[0].interval == iv[heap.elements[0]]
    modifies heap, heap.elements, heap.Members()`idx
    ensures heap.Valid() && heap.elements == old(heap.elements)
    ensures te == old(heap.elements[0]) && te in old(heap.Members()) && heap.Members() == old(heap.Members()) - {te}
    ensures forall e | e in old(heap.Members()) :: te.time <= e.time
    ensures Deadlines(heap) == old(Deadlines(heap)) - {te} && Armed(heap, pool) == old(Armed(heap, pool)) - {te}
    ensures Resting(heap, pool, iv)
  {
    heap.TopIsEarliestMember();
    ghost var m, armed := Deadlines(heap), Armed(heap, pool);
    te := heap.Pop();
    OneLess(m, Deadlines(heap), te);
    OneLess(armed, Armed(heap, pool), te);
  }

  lemma OneLess<V>(m: map<TimerEntry, V>, m': map<TimerEntry, V>, te: TimerEntry)
    requires m'.Keys == m.Keys - {te} && forall e | e in m' :: m'[e] == m[e]
    ensures m' == m - {te}
  {
  }

  /** One turn of the expiry loop: the top timer leaves the heap and its handler runs. */
  method FireTop(heap: Heap, k: nat, script: Script, pool: set<TimerEntry>, ghost due: set<TimerEntry>,
                 ghost iv: map<TimerEntry, U32>, ghost cur: U32)
    returns (te: TimerEntry, added: seq<TimerEntry>)
    requires heap.Valid() && heap.size > 0 && heap.elements[0] in due
    requires due <= heap.Members() && due <= pool && Timed(due, iv) && Resting(heap, pool, iv)
    requires Sane(script, pool, iv, cur)
    modifies heap, heap.elements, heap.Members()`idx, pool
    ensures heap.Valid() && (heap.elements == old(heap.elements) || fresh(heap.elements))
    ensures te == old(heap.elements[0])
    ensures forall e | e in old(heap.Members()) :: old(te.time) <= old(e.time)
    ensures OnlyAddsLater(old(Deadlines(heap)) - {te}, Deadlines(heap), cur)
    ensures Resting(heap, pool, iv) && Timed(due - {te}, iv)
    ensures var now := old(Armed(heap, pool)) - {te}; var actions := HandlerOf(now, te, k, script, pool);
      && Armed(heap, pool) == ArmedBy(now, actions, iv) && Made(added, AddsBy(actions))
    ensures WithAdded(old(heap.Members()) - pool, added, heap.Members() - pool)
    ensures forall e | e in heap.Members() :: e in pool || e in old(heap.Members()) || fresh(e)
  {
    ghost var members := heap.Members();
    te := PopTop(heap, pool, iv);
    var idle := pool - heap.Members();
    TopLeaves(members, te, pool);
    added := RunHandler(heap, script(k, te, idle), pool, due - {te}, iv, cur);
  }

  lemma TopLeaves(members: set<TimerEntry>, te: TimerEntry, pool: set<TimerEntry>)
    requires te in pool
    ensures members - {te} - pool == members - pool
    ensures pool - (members - {te}) == pool - pool * (members - {te})
  {
  }

  lemma NothingDue(heap: Heap, cur: U32)
    requires heap.Valid() && (heap.size == 0 || heap.elements[0].time > cur)
    ensures Due(Deadlines(heap), cur) == {} && forall e | e in heap.Members() :: cur < e.time
  {
    if heap.size > 0 {
      heap.TopIsEarliestMember();
    }
  }

  lemma TopIsDue(heap: Heap, cur: U32)
    requires heap.Valid() && heap.size > 0 && heap.elements[0].time <= cur
    ensures heap.elements[0] in Due(Deadlines(heap), cur)
  {
    assert heap.elements[0] in heap.Members();
  }

  lemma ExpiringDone(m0: map<TimerEntry, int>, m: map<TimerEntry, int>, fired: seq<TimerEntry>, cur: U32)
    requires Expiring(m0, m, fired, cur) && Due(m, cur) == {}
    ensures (set e | e in fired) == Due(m0, cur)
  {
    var f := set e | e in fired;
    assert f <= Due(m0, cur);
    forall e | e in Due(m0, cur)
      ensures e in f
    {
      assert e !in Due(m, cur);
    }
  }

  /** An expiry pass that began with deadlines m0, intervals iv and armed timers armed0 of the pool has
      fired `fired` and added `added`. */
  ghost predicate Pass(heap: Heap, m0: map<TimerEntry, int>, iv: map<TimerEntry, U32>, pool: set<TimerEntry>,
                       armed0: map<TimerEntry, U32>, fired: seq<TimerEntry>, added: seq<TimerEntry>, script: Script,
                       cur: U32)
    reads heap, heap.elements, heap.elements[..], pool, added
  {
    && heap.Valid() && Expiring(m0, Deadlines(heap), fired, cur)
    && m0.Keys <= pool == iv.Keys
    && Due(Deadlines(heap), cur) <= pool && Timed(Due(Deadlines(heap), cur), iv)
    && Resting(heap, pool, iv)
    && Logged(armed0, fired, script, pool, iv, Armed(heap, pool), added, heap.Members() - pool)
  }

  /** The handlers of `fired` have left the armed timers of the pool at the deadlines `armed`, and have
      added `added`, which are all the others in the heap. */
  ghost predicate Logged(armed0: map<TimerEntry, U32>, fired: seq<TimerEntry>, script: Script, pool: set<TimerEntry>,
                         iv: map<TimerEntry, U32>, armed: map<TimerEntry, U32>, added: seq<TimerEntry>,
                         others: set<TimerEntry>)
    reads added`time, added`interval
  {
    && armed == ArmedAfter(armed0, fired, script, pool, iv)
    && Made(added, AddsAfter(armed0, fired, script, pool, iv)) && WithAdded({}, added, others)
  }

  lemma LogStep(armed0: map<TimerEntry, U32>, fired: seq<TimerEntry>, te: TimerEntry, script: Script,
                pool: set<TimerEntry>, iv: map<TimerEntry, U32>,
                armed: map<TimerEntry, U32>, armed': map<TimerEntry, U32>,
                added: seq<TimerEntry>, more: seq<TimerEntry>, others: set<TimerEntry>, others': set<TimerEntry>)
    requires Logged(armed0, fired, script, pool, iv, armed, added, others)
    requires var actions := HandlerOf(armed - {te}, te, |fired|, script, pool);
      armed' == ArmedBy(armed - {te}, actions, iv) && Made(more, AddsBy(actions))
    requires WithAdded(others, more, others')
    ensures Logged(armed0, fired + [te], script, pool, iv, armed', added + more, others')
  {
    AfterStep(armed0, fired, te, script, pool, iv);
    var actions := HandlerOf(armed - {te}, te, |fired|, script, pool);
    MadeTwice(added, AddsAfter(armed0, fired, script, pool, iv), more, AddsBy(actions));
    WithAddedTwice({}, added, others, more, others');
  }

  /** One turn of the loop, for a top timer that is due. */
  method PassTurn(heap: Heap, ghost m0: map<TimerEntry, int>, ghost iv: map<TimerEntry, U32>, pool: set<TimerEntry>,
                  ghost armed0: map<TimerEntry, U32>, fired: seq<TimerEntry>, added: seq<TimerEntry>, script: Script,
                  ghost cur: U32)
    returns (te: TimerEntry, added': seq<TimerEntry>)
    requires Pass(heap, m0, iv, pool, armed0, fired, added, script, cur)
    requires Sane(script, pool, iv, cur)
    requires heap.size > 0 && heap.elements[0].time <= cur
    modifies heap, heap.elements, heap.Members()`idx, pool
    ensures Pass(heap, m0, iv, pool, armed0, fired + [te], added', script, cur)
    ensures Due(Deadlines(heap), cur) < old(Due(Deadlines(heap), cur))
    ensures heap.elements == old(heap.elements) || fresh(heap.elements)
    ensures forall e | e in heap.Members() :: e in pool || e in old(heap.Members()) || fresh(e)
  {
    ghost var m, armed, now := Deadlines(heap), Armed(heap, pool), heap.Members() - pool;
    TopIsDue(heap, cur);
    var more;
    te, more := FireTop(heap, |fired|, script, pool, Due(m, cur), iv, cur);
    LogStep(armed0, fired, te, script, pool, iv, armed, Armed(heap, pool), added, more, now, heap.Members() - pool);
    PassStep(heap, m0, m, iv, pool, armed0, fired, te, added, more, script, cur);
    added' := added + more;
  }

  lemma PassStep(heap: Heap, m0: map<TimerEntry, int>, m: map<TimerEntry, int>, iv: map<TimerEntry, U32>,
                 pool: set<TimerEntry>, armed0: map<TimerEntry, U32>, fired: seq<TimerEntry>, te: TimerEntry,
                 added: seq<TimerEntry>, more: seq<TimerEntry>, script: Script, cur: U32)
    requires m0.Keys <= pool == iv.Keys && Expiring(m0, m, fired, cur)
    requires te in m && m[te] <= cur && forall e | e in m :: m[te] <= m[e]
    requires heap.Valid() && OnlyAddsLater(m - {te}, Deadlines(heap), cur)
    requires Due(m, cur) <= pool && Timed(Due(m, cur) - {te}, iv) && Resting(heap, pool, iv)
    requires Logged(armed0, fired + [te], script, pool, iv, Armed(heap, pool), added + more, heap.Members() - pool)
    ensures Pass(heap, m0, iv, pool, armed0, fired + [te], added + more, script, cur)
    ensures te in Due(m, cur) && Due(Deadlines(heap), cur) == Due(m, cur) - {te}
  {
    ExpiringStep(m0, m, Deadlines(heap), fired, te, cur);
  }

  lemma AfterStep(armed: map<TimerEntry, U32>, fired: seq<TimerEntry>, te: TimerEntry, script: Script,
                  pool: set<TimerEntry>, iv: map<TimerEntry, U32>)
    ensures var now := ArmedAfter(armed, fired, script, pool, iv) - {te};
      var actions := HandlerOf(now, te, |fired|, script, pool);
      && ArmedAfter(armed, fired + [te], script, pool, iv) == ArmedBy(now, actions, iv)
      && AddsAfter(armed, fired + [te], script, pool, iv) == AddsAfter(armed, fired, script, pool, iv) + AddsBy(actions)
  {
    assert (fired + [te])[..|fired|] == fired;
  }

  lemma PassStarts(heap: Heap, iv: map<TimerEntry, U32>, pool: set<TimerEntry>, script: Script, cur: U32)
    requires heap.Valid() && heap.Tracks(pool) && iv == map e | e in pool :: e.interval
    ensures Pass(heap, Deadlines(heap), iv, pool, Armed(heap, pool), [], [], script, cur)
  {
    assert heap.Members() - pool == {};
  }

  /** The loop ends with exactly the timers fired that were due at its start. */
  lemma PassEnds(heap: Heap, m0: map<TimerEntry, int>, iv: map<TimerEntry, U32>, pool: set<TimerEntry>,
                 armed0: map<TimerEntry, U32>, fired: seq<TimerEntry>, added: seq<TimerEntry>, script: Script, cur: U32)
    requires Pass(heap, m0, iv, pool, armed0, fired, added, script, cur)
    requires heap.size == 0 || heap.elements[0].time > cur
    ensures (set e | e in fired) == Due(m0, cur) && forall e | e in heap.Members() :: cur < e.time
    ensures heap.Tracks(pool + heap.Members()) && forall e | e in added :: e in heap.Members() && e !in pool
  {
    NothingDue(heap, cur);
    ExpiringDone(m0, Deadlines(heap), fired, cur);
    OthersAre(heap.Members(), pool, {}, added);
  }

  /** The expiry loop. */
  method PassAll(heap: Heap, ghost m0: map<TimerEntry, int>, ghost iv: map<TimerEntry, U32>, pool: set<TimerEntry>,
                 ghost armed0: map<TimerEntry, U32>, script: Script, cur: U32)
    returns (fired: seq<TimerEntry>, added: seq<TimerEntry>)
    requires Pass(heap, m0, iv, pool, armed0, [], [], script, cur)
    requires Sane(script, pool, iv, cur)
    modifies heap, heap.elements, heap.Members()`idx, pool
    ensures Pass(heap, m0, iv, pool, armed0, fired, added, script, cur)
    ensures (heap.size == 0 || heap.elements[0].time > cur)
    ensures forall e | e in heap.Members() :: e in pool || e in old(heap.Members()) || fresh(e)
  {
    fired, added := [], [];
    while true
      invariant Pass(heap, m0, iv, pool, armed0, fired, added, script, cur)
      invariant heap.elements == old(heap.elements) || fresh(heap.elements)
      invariant forall e | e in heap.Members() :: e in pool || e in old(heap.Members()) || fresh(e)
      decreases Due(Deadlines(heap), cur)
    {
      if heap.size == 0 || heap.elements[0].time > cur {
        return;
      }
      var te;
      te, added := PassTurn(heap, m0, iv, pool, armed0, fired, added, script, cur);
      fired := fired + [te];
    }
  }

  /** Every timer that the actions re-arm is in the heap, at the deadline asked for. */
  ghost predicate RearmsDone(heap: Heap, actions: seq<Action>, iv: map<TimerEntry, U32>)
    requires heap.Live()
    reads heap, heap.elements, set i | 0 <= i < |actions| && actions[i].Rearm? :: actions[i].te
  {
    forall i | 0 <= i < |actions| && actions[i].Rearm? ::
      var te, a := actions[i].te, actions[i].arming;
      te in heap.Members() && te in iv && te.time == Deadline(a.now, if a.msec > 0 then a.msec else iv[te])
  }

  /** Every timer that the actions add is among these. */
  ghost predicate AddsDone(added: seq<TimerEntry>, actions: seq<Action>)
    reads added`time, added`interval
  {
    forall a | Add(a) in actions ::
      exists i | 0 <= i < |added| :: added[i].time == Deadline(a.now, a.msec) && added[i].interval == a.msec
  }

  lemma CallsAreDone(heap: Heap, calls: seq<Call>, armed0: map<TimerEntry, U32>, fired: seq<TimerEntry>,
                     added: seq<TimerEntry>, adds: seq<Arming>, script: Script, pool: set<TimerEntry>,
                     iv: map<TimerEntry, U32>)
    requires heap.Live() && Accounted(calls, armed0, fired, Armed(heap, pool), script, pool, iv)
    requires Made(added, adds) && forall a :: a in adds <==> AddAsked(calls, a)
    ensures forall k | 0 <= k < |calls| ::
      RearmsDone(heap, calls[k].actions, iv) && AddsDone(added, calls[k].actions)
  {
    forall k | 0 <= k < |calls|
      ensures RearmsDone(heap, calls[k].actions, iv) && AddsDone(added, calls[k].actions)
    {
      forall i | 0 <= i < |calls[k].actions| && calls[k].actions[i].Rearm?
        ensures calls[k].actions[i].te in Armed(heap, pool)
      {
        assert Granted(calls[k].actions[i], Armed(heap, pool), iv);
      }
      forall a | Add(a) in calls[k].actions
        ensures exists i | 0 <= i < |added| :: added[i].time == Deadline(a.now, a.msec) && added[i].interval == a.msec
      {
        assert AddAsked(calls, a);
        var i :| 0 <= i < |adds| && adds[i] == a;
        assert added[i].interval == a.msec;
      }
    }
  }

  /** Fires every timer that is due at cur, in order, and calls its handler: `calls` is what the handlers were
      told and did. The handlers may add timers and re-arm any timer of the pool that is not in the heap.
      Afterwards the timers of the pool that are in the heap, and the timers added, are those that the
      handlers have armed, at the deadlines they asked for, and those that were armed and not due. */
  method Expire(heap: Heap, cur: U32, script: Script, pool: set<TimerEntry>)
    returns (fired: seq<TimerEntry>, added: seq<TimerEntry>, ghost calls: seq<Call>)
    requires heap.Valid() && heap.Tracks(pool)
    requires Sane(script, pool, map e | e in pool :: e.interval, cur)
    modifies heap, heap.elements, heap.Members(), pool
    ensures heap.Valid()
    ensures Expiring(old(Deadlines(heap)), Deadlines(heap), fired, cur)
    ensures (set e | e in fired) == Due(old(Deadlines(heap)), cur)
    ensures forall e | e in heap.Members() :: cur < e.time
    ensures var iv := old(map e | e in pool :: e.interval);
      && Armed(heap, pool) == ArmedAfter(old(Armed(heap, pool)), fired, script, pool, iv)
      && Made(added, AddsAfter(old(Armed(heap, pool)), fired, script, pool, iv))
    ensures fresh(added) && WithAdded({}, added, heap.Members() - pool)
    ensures heap.Tracks(pool + heap.Members())
    ensures var iv := old(map e | e in pool :: e.interval);
      && Accounted(calls, old(Armed(heap, pool)), fired, Armed(heap, pool), script, pool, iv)
      && forall k | 0 <= k < |calls| :: RearmsDone(heap, calls[k].actions, iv) && AddsDone(added, calls[k].actions)
    ensures |added| == TotalAdds(calls)
  {
    ghost var m0, armed0 := Deadlines(heap), Armed(heap, pool);
    ghost var iv := map e | e in pool :: e.interval;
    PassStarts(heap, iv, pool, script, cur);
    fired, added := PassAll(heap, m0, iv, pool, armed0, script, cur);
    PassEnds(heap, m0, iv, pool, armed0, fired, added, script, cur);
    calls := CallsOf(armed0, fired, script, pool, iv);
    CallsAreAccounted(armed0, fired, script, pool, iv, cur);
    AddsAreAccounted(armed0, fired, script, pool, iv);
    CallsAreDone(heap, calls, armed0, fired, added, AddsAfter(armed0, fired, script, pool, iv), script, pool, iv);
  }
}
