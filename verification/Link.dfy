/** A sending and a receiving connection joined by a reliable byte stream. */
module Link {
  import opened Bytes
  import opened Frames
  import opened Reactor

  /** What can happen on a link: the application sends a message, the sender's socket becomes
      writable, or some octets on their way reach the receiver. */
  datatype Step =
    | Send(message: seq<Byte>, before: Byte, outcome: SendOutcome)
    | Writable(sends: nat -> int)
    | Arrive(count: nat)

  /** However the accepted frames were cut up on their way: what has been received so far is well
      framed, its complete frames are the first of the accepted ones, unmodified and in order, and
      they are all of them once nothing is left to send or to receive. */
  lemma DeliveredArePrefix(accepted: seq<seq<Byte>>, wire: seq<Byte>, unsent: seq<Byte>, received: seq<Byte>,
                           pk: Packer)
    requires pk.Valid() && forall f | f in accepted :: IsFrame(f, pk, IO_BUF_SIZE)
    requires wire + unsent == Flatten(accepted) && received <= wire
    ensures Framed(received, pk, IO_BUF_SIZE) && Framed(wire, pk, IO_BUF_SIZE)
    ensures Cut(received, pk) <= accepted
    ensures unsent == [] && received == wire ==> Cut(received, pk) == accepted && Rest(received, pk) == []
  {
    var ahead := wire[|received|..] + unsent;
    assert received + ahead == Flatten(accepted);
    CutFrames(accepted, pk, IO_BUF_SIZE);
    FramedPrefix(received, ahead, pk, IO_BUF_SIZE);
    FramedPrefix(wire, unsent, pk, IO_BUF_SIZE);
    CutOfPrefix(received, ahead, pk);
    assert ahead == [] ==> received + ahead == received;
  }

  /** The octets taken are at most those of the message. */
  function Capped(outcome: SendOutcome, message: seq<Byte>): (r: SendOutcome)
    ensures r.Sent? ==> r.n <= |message|
  {
    if outcome.Sent? && outcome.n > |message| then Sent(|message|) else outcome
  }

  /** What a step does to the sender's queue. */
  function QueueAfter(q: seq<WriteItem>, step: Step): (r: seq<WriteItem>)
    requires QueueOk(q)
    ensures QueueOk(r)
  {
    match step
    case Send(message, before, outcome) =>
      QueueAfterWrite(q, MAX_WMEM_SIZE, message, before, Capped(outcome, message))
    case Writable(sends) => Drained(q, sends, 0)
    case Arrive(_) => q
  }

  function QueueAfterAll(q: seq<WriteItem>, steps: seq<Step>): (r: seq<WriteItem>)
    requires QueueOk(q)
    ensures QueueOk(r)
  {
    if steps == [] then q else QueueAfter(QueueAfterAll(q, steps[..|steps| - 1]), steps[|steps| - 1])
  }

  /** What io_write answers to a send. */
  function AnswerTo(q: seq<WriteItem>, step: Step): int
    requires step.Send?
  {
    EffectOf(q != [], MAX_WMEM_SIZE - Size(q), step.message, step.before, Capped(step.outcome, step.message)).ret
  }

  /** The messages of a schedule that io_write takes responsibility for: those it answers without an
      error, in order. */
  function AcceptedOf(q: seq<WriteItem>, steps: seq<Step>): seq<seq<Byte>>
    requires QueueOk(q)
  {
    if steps == [] then []
    else
      var n := |steps| - 1;
      AcceptedOf(q, steps[..n]) + AcceptedNow(QueueAfterAll(q, steps[..n]), steps[n])
  }

  function AcceptedNow(q: seq<WriteItem>, step: Step): seq<seq<Byte>> {
    if step.Send? && AnswerTo(q, step) >= 0 then [step.message] else []
  }

  /** The messages of a schedule. */
  function Messages(steps: seq<Step>): seq<seq<Byte>> {
    if steps == [] then []
    else
      var n := |steps| - 1;
      Messages(steps[..n]) + if steps[n].Send? then [steps[n].message] else []
  }

  /** The octets of the messages of a schedule. */
  function Load(steps: seq<Step>): nat {
    if steps == [] then 0
    else
      var n := |steps| - 1;
      Load(steps[..n]) + if steps[n].Send? then |steps[n].message| else 0
  }

  /** How far the receiver has come: the octets received, and where the received ones end in its buffer. */
  datatype Intake = Intake(got: nat, tail: nat)

  function Clamp(n: int): nat {
    if n < 0 then 0 else n
  }

  /** How many octets the socket has taken, when these messages have been accepted and this queue is left. */
  function OnWire(queue: seq<WriteItem>, accepted: seq<seq<Byte>>): int
    requires QueueOk(queue)
  {
    |Flatten(accepted)| - |Unsent(queue)|
  }

  /** Of the octets on their way, as many arrive as are due, there are, and there is room for. */
  function Taken(count: nat, ahead: nat, room: nat): (n: nat)
    ensures n <= count && n <= ahead && n <= room && (n == count || n == ahead || n == room)
  {
    if count <= ahead && count <= room then count else if ahead <= room then ahead else room
  }

  /** The receiver after n more octets of a stream: it moves the octets that it has to keep to the front of
      its buffer when these come to the buffer's end. */
  function TookIn(k: Intake, stream: seq<Byte>, n: nat, pk: Packer): Intake
    requires pk.Valid()
  {
    var got := k.got + n;
    Intake(got, if k.tail + n < IO_BUF_SIZE || got > |stream| then k.tail + n else |Rest(stream[..got], pk)|)
  }

  /** What a step does to the receiver. */
  function IntakeNow(k: Intake, queue: seq<WriteItem>, accepted: seq<seq<Byte>>, step: Step, pk: Packer): Intake
    requires QueueOk(queue) && pk.Valid()
  {
    if step.Arrive? then
      var n := Taken(step.count, Clamp(OnWire(queue, accepted) - k.got), Clamp(IO_BUF_SIZE - k.tail));
      TookIn(k, Flatten(accepted), n, pk)
    else k
  }

  function IntakeAfter(k: Intake, q: seq<WriteItem>, before: seq<seq<Byte>>, steps: seq<Step>, pk: Packer): Intake
    requires QueueOk(q) && pk.Valid()
  {
    if steps == [] then k
    else
      var n := |steps| - 1;
      var accepted := before + AcceptedOf(q, steps[..n]);
      IntakeNow(IntakeAfter(k, q, before, steps[..n], pk), QueueAfterAll(q, steps[..n]), accepted, steps[n], pk)
  }

  lemma SendTaken(q: seq<WriteItem>, s: Step)
    requires QueueOk(q) && s.Send? && s.message != [] && s.outcome.Sent? && s.outcome.n > 0
    requires Size(q) + |s.message| < MAX_WMEM_SIZE
    ensures AcceptedNow(q, s) == [s.message] && Size(QueueAfter(q, s)) <= Size(q) + |s.message|
  {
    if QueueAfter(q, s) != q {
      UnsentAppend(q, QueueAfter(q, s)[|q|].data);
    }
  }

  /** While the messages fit under the memory cap together with what is queued, and the socket neither
      fails nor blocks, io_write takes them all. */
  lemma {:induction false} NothingRefused(q: seq<WriteItem>, steps: seq<Step>)
    requires QueueOk(q) && Size(q) + Load(steps) < MAX_WMEM_SIZE
    requires forall s | s in steps && s.Send? :: s.message != [] && s.outcome.Sent? && s.outcome.n > 0
    ensures AcceptedOf(q, steps) == Messages(steps)
    ensures Size(QueueAfterAll(q, steps)) <= Size(q) + Load(steps)
    decreases |steps|
  {
    if steps != [] {
      var n := |steps| - 1;
      assert steps == steps[..n] + [steps[n]];
      NothingRefused(q, steps[..n]);
      if steps[n].Send? {
        SendTaken(QueueAfterAll(q, steps[..n]), steps[n]);
      }
    }
  }

  /** A send is of one whole frame that fits the receiver's buffer, and the socket of an idle connection
      does not block at once. */
  ghost predicate Proper(q: seq<WriteItem>, step: Step, pk: Packer) {
    step.Send? ==> IsFrame(step.message, pk, IO_BUF_SIZE) && !(q == [] && step.outcome.Blocked?)
  }

  /** Everything accepted is a frame that fits the receiver's buffer, and no call has misfired. */
  ghost predicate SendsFrames(s: Sending, pk: Packer) {
    && SendingOk(s) && s.misfires == 0 && s.cap == MAX_WMEM_SIZE
    && forall f | f in s.accepted :: IsFrame(f, pk, IO_BUF_SIZE)
  }

  /** Sender and receiver are in order, and the receiver has got a prefix of what was sent. */
  ghost predicate Connected(from: Io, to: Io, pk: Packer)
    reads from, to, to.buf
  {
    from != to && SendsFrames(from.Sender(), pk) && to.Bounded() && to.pack == pk && to.received <= from.wire
  }

  ghost function IntakeOf(to: Io): Intake
    reads to
  {
    Intake(|to.received|, to.tail)
  }

  /** The application sends a frame. */
  method SendFrame(from: Io, to: Io, step: Step, ghost pk: Packer) returns (ret: int)
    requires Connected(from, to, pk) && step.Send? && Proper(from.writeQueue, step, pk)
    modifies from
    ensures Connected(from, to, pk) && ret == AnswerTo(old(from.writeQueue), step)
    ensures from.writeQueue == QueueAfter(old(from.writeQueue), step)
    ensures from.accepted == old(from.accepted) + AcceptedNow(old(from.writeQueue), step)
  {
    var outcome := Capped(step.outcome, step.message);
    FrameMisfiresIff(from.writeQueue, step.message, outcome);
    ret := from.Write(step.message, step.before, outcome);
  }

  /** The sender's socket becomes writable. */
  method SendQueued(from: Io, to: Io, sends: nat -> int, ghost pk: Packer)
    requires Connected(from, to, pk)
    modifies from
    ensures Connected(from, to, pk) && from.accepted == old(from.accepted)
    ensures from.writeQueue == Drained(old(from.writeQueue), sends, 0)
  {
    from.HandleWrite(sends);
  }

  /** Takes a step. The answer is what io_write returns for a send, and how many octets arrived for an
      arrival. */
  method TakeStep(from: Io, to: Io, step: Step, ghost pk: Packer) returns (ret: int)
    requires Connected(from, to, pk) && Proper(from.writeQueue, step, pk)
    modifies from, to, to.buf
    ensures Connected(from, to, pk) && to.buf == old(to.buf)
    ensures from.writeQueue == QueueAfter(old(from.writeQueue), step)
    ensures from.accepted == old(from.accepted) + AcceptedNow(old(from.writeQueue), step)
    ensures IntakeOf(to) == IntakeNow(old(IntakeOf(to)), old(from.writeQueue), old(from.accepted), step, pk)
    ensures RightAnswer(step, ret, old(from.writeQueue), old(from.accepted), old(IntakeOf(to)))
    ensures old(to.delivered) <= to.delivered
  {
    assert from.accepted + [] == from.accepted;
    match step
    case Send(_, _, _) =>
      ret := SendFrame(from, to, step, pk);
    case Writable(sends) =>
      SendQueued(from, to, sends, pk);
      ret := 0;
    case Arrive(count) =>
      ret := ArriveAt(from, to, count, pk);
  }

  /** The answer to a step in the state where the sender has this queue and has accepted these messages, and
      the receiver has come to k. Octets on their way never find the buffer full. */
  ghost predicate RightAnswer(step: Step, ret: int, queue: seq<WriteItem>, accepted: seq<seq<Byte>>, k: Intake)
    requires QueueOk(queue)
  {
    match step
    case Send(_, _, _) => ret == AnswerTo(queue, step)
    case Writable(_) => ret == 0
    case Arrive(count) =>
      && k.tail < IO_BUF_SIZE && k.got <= OnWire(queue, accepted)
      && ret == Taken(count, OnWire(queue, accepted) - k.got, IO_BUF_SIZE - k.tail)
  }

  lemma SliceContinues(wire: seq<Byte>, received: seq<Byte>, n: nat)
    requires received <= wire && |received| + n <= |wire|
    ensures received + wire[|received|..|received| + n] == wire[..|received| + n]
  {
  }

  /** The next octets of the wire keep the received stream well framed. */
  lemma NextChunk(accepted: seq<seq<Byte>>, wire: seq<Byte>, unsent: seq<Byte>, all: seq<Byte>, pk: Packer)
    requires pk.Valid() && forall f | f in accepted :: IsFrame(f, pk, IO_BUF_SIZE)
    requires wire + unsent == Flatten(accepted) && all <= wire
    ensures Framed(all, pk, IO_BUF_SIZE) && Framed(all, pk, INT_MAX)
  {
    DeliveredArePrefix(accepted, wire, unsent, all, pk);
    FramedWeaker(all, pk, IO_BUF_SIZE, INT_MAX);
  }

  /** Octets that continue a well-framed stream reach the receiver. */
  method Feed(to: Io, data: seq<Byte>, ghost pk: Packer)
    requires to.Bounded() && to.pack == pk && 0 < |data| <= IO_BUF_SIZE - to.tail
    requires Framed(to.received + data, pk, IO_BUF_SIZE) && Framed(to.received + data, pk, INT_MAX)
    modifies to, to.buf
    ensures to.Bounded() && to.pack == pk && to.buf == old(to.buf) && to.received == old(to.received) + data
    ensures to.tail == if old(to.tail) + |data| < IO_BUF_SIZE then old(to.tail) + |data| else |Rest(to.received, pk)|
    ensures old(to.delivered) <= to.delivered
  {
    CutOfPrefix(to.received, data, pk);
    to.HandleRead(Got(data));
  }

  /** What has been received, and will have been after the next octets of the wire, are prefixes of the
      accepted messages. */
  lemma WireIsPrefix(accepted: seq<seq<Byte>>, wire: seq<Byte>, unsent: seq<Byte>, got: nat)
    requires wire + unsent == Flatten(accepted) && got <= |wire|
    ensures |wire| == |Flatten(accepted)| - |unsent| && Flatten(accepted)[..got] == wire[..got]
  {
    assert (wire + unsent)[..got] == wire[..got];
  }

  method ArriveAt(from: Io, to: Io, count: nat, ghost pk: Packer) returns (n: nat)
    requires Connected(from, to, pk)
    modifies to, to.buf
    ensures Connected(from, to, pk) && to.buf == old(to.buf)
    ensures old(to.delivered) <= to.delivered
    ensures OnWire(from.writeQueue, from.accepted) == |from.wire|
    ensures n == Taken(count, old(|from.wire| - |to.received|), IO_BUF_SIZE - old(to.tail))
    ensures IntakeOf(to) == TookIn(old(IntakeOf(to)), Flatten(from.accepted), n, pk)
  {
    var got := |to.received|;
    WireIsPrefix(from.accepted, from.wire, Unsent(from.writeQueue), got);
    n := Taken(count, |from.wire| - got, IO_BUF_SIZE - to.tail);
    if n == 0 {
      to.HandleRead(NotReady);
    } else {
      Carry(from, to, n, pk);
    }
  }

  /** The next octets of the wire reach the receiver. */
  method Carry(from: Io, to: Io, n: nat, ghost pk: Packer)
    requires Connected(from, to, pk) && 0 < n <= |from.wire| - |to.received| && n <= IO_BUF_SIZE - to.tail
    modifies to, to.buf
    ensures Connected(from, to, pk) && to.buf == old(to.buf)
    ensures old(to.delivered) <= to.delivered
    ensures IntakeOf(to) == TookIn(old(IntakeOf(to)), Flatten(from.accepted), n, pk)
  {
    ghost var unsent := Unsent(from.writeQueue);
    var got := |to.received|;
    var data := from.wire[got..got + n];
    WireIsPrefix(from.accepted, from.wire, unsent, got + n);
    SliceContinues(from.wire, to.received, n);
    NextChunk(from.accepted, from.wire, unsent, to.received + data, pk);
    ghost var k, stream, all := IntakeOf(to), Flatten(from.accepted), to.received + data;
    Feed(to, data, pk);
    TookInIs(k, stream, all, to.tail, n, pk);
  }

  lemma TookInIs(k: Intake, stream: seq<Byte>, received: seq<Byte>, tail: nat, n: nat, pk: Packer)
    requires pk.Valid() && k.got + n <= |stream| && received == stream[..k.got + n]
    requires tail == if k.tail + n < IO_BUF_SIZE then k.tail + n else |Rest(received, pk)|
    ensures Intake(|received|, tail) == TookIn(k, stream, n, pk)
  {
  }

  /** The octets that arrived over a run, by the answers to its steps. */
  function Arrived(steps: seq<Step>, rets: seq<int>): int
    requires |steps| == |rets|
  {
    if steps == [] then 0
    else
      var n := |steps| - 1;
      Arrived(steps[..n], rets[..n]) + if steps[n].Arrive? then rets[n] else 0
  }

  /** The first answers of a run are those given in the states that the schedule leads to. */
  ghost predicate Answered(q: seq<WriteItem>, before: seq<seq<Byte>>, k: Intake, steps: seq<Step>, rets: seq<int>,
                           pk: Packer)
    requires QueueOk(q) && pk.Valid()
  {
    && |rets| <= |steps|
    && forall i | 0 <= i < |rets| :: AnsweredAt(q, before, k, steps, i, rets[i], pk)
  }

  ghost predicate AnsweredAt(q: seq<WriteItem>, before: seq<seq<Byte>>, k: Intake, steps: seq<Step>, i: nat, ret: int,
                             pk: Packer)
    requires QueueOk(q) && pk.Valid() && i < |steps|
  {
    RightAnswer(steps[i], ret, QueueAfterAll(q, steps[..i]), before + AcceptedOf(q, steps[..i]),
                IntakeAfter(k, q, before, steps[..i], pk))
  }

  lemma AnsweredStep(q: seq<WriteItem>, before: seq<seq<Byte>>, k: Intake, steps: seq<Step>, rets: seq<int>, ret: int,
                     pk: Packer)
    requires QueueOk(q) && pk.Valid() && Answered(q, before, k, steps, rets, pk) && |rets| < |steps|
    requires AnsweredAt(q, before, k, steps, |rets|, ret, pk)
    ensures Answered(q, before, k, steps, rets + [ret], pk)
  {
    var rets' := rets + [ret];
    forall i | 0 <= i < |rets'|
      ensures AnsweredAt(q, before, k, steps, i, rets'[i], pk)
    {
      if i < |rets| {
        assert rets'[i] == rets[i] && AnsweredAt(q, before, k, steps, i, rets[i], pk);
      } else {
        assert i == |rets| && rets'[i] == ret;
      }
    }
  }

  /** What the steps `done` have done: `queue` and `accepted` are the sender's, which began with q and
      `before`, and `now` is how far the receiver, which began with k, has come. */
  ghost predicate Account(q: seq<WriteItem>, before: seq<seq<Byte>>, k: Intake, done: seq<Step>,
                          queue: seq<WriteItem>, accepted: seq<seq<Byte>>, now: Intake, pk: Packer) {
    && QueueOk(q) && pk.Valid()
    && queue == QueueAfterAll(q, done)
    && accepted == before + AcceptedOf(q, done)
    && now == IntakeAfter(k, q, before, done, pk)
  }

  lemma AccountStep(q: seq<WriteItem>, before: seq<seq<Byte>>, k: Intake, steps: seq<Step>, i: nat,
                    queue: seq<WriteItem>, accepted: seq<seq<Byte>>, now: Intake, pk: Packer)
    requires i < |steps| && Account(q, before, k, steps[..i], queue, accepted, now, pk)
    ensures QueueOk(queue)
    ensures Account(q, before, k, steps[..i + 1], QueueAfter(queue, steps[i]), accepted + AcceptedNow(queue, steps[i]),
                    IntakeNow(now, queue, accepted, steps[i], pk), pk)
  {
    var done, s := steps[..i], steps[i];
    assert steps[..i + 1] == done + [s] && (done + [s])[..i] == done;
    assert (before + AcceptedOf(q, done)) + AcceptedNow(queue, s) ==
      before + (AcceptedOf(q, done) + AcceptedNow(queue, s));
  }

  /** The octets received over a run are those that the arrivals answered. */
  lemma {:induction false} ArrivedIs(q: seq<WriteItem>, before: seq<seq<Byte>>, k: Intake, steps: seq<Step>,
                                     rets: seq<int>, pk: Packer)
    requires QueueOk(q) && pk.Valid() && |rets| == |steps| && Answered(q, before, k, steps, rets, pk)
    ensures IntakeAfter(k, q, before, steps, pk).got == k.got + Arrived(steps, rets)
    decreases |steps|
  {
    if steps != [] {
      var n := |steps| - 1;
      AnsweredFront(q, before, k, steps, rets, pk);
      ArrivedIs(q, before, k, steps[..n], rets[..n], pk);
      assert AnsweredAt(q, before, k, steps, n, rets[n], pk);
    }
  }

  lemma AnsweredFront(q: seq<WriteItem>, before: seq<seq<Byte>>, k: Intake, steps: seq<Step>, rets: seq<int>,
                      pk: Packer)
    requires QueueOk(q) && pk.Valid() && |rets| == |steps| > 0 && Answered(q, before, k, steps, rets, pk)
    ensures Answered(q, before, k, steps[..|steps| - 1], rets[..|steps| - 1], pk)
  {
    var n := |steps| - 1;
    forall i | 0 <= i < n
      ensures AnsweredAt(q, before, k, steps[..n], i, rets[..n][i], pk)
    {
      assert AnsweredAt(q, before, k, steps, i, rets[i], pk) && steps[..n][..i] == steps[..i];
    }
  }

  /** Over every run: the frames accepted are those of the sends that io_write answers without an error,
      in order; each arrival takes in all the octets that are due, on their way, and have room, and octets
      on their way always find room; the frames delivered are a prefix of the frames accepted, and all of
      them once the queue is sent and the stream received. */
  method Run(from: Io, to: Io, schedule: seq<Step>, ghost pk: Packer) returns (rets: seq<int>)
    requires Connected(from, to, pk)
    requires forall i | 0 <= i < |schedule| :: Proper(QueueAfterAll(from.writeQueue, schedule[..i]), schedule[i], pk)
    modifies from, to, to.buf
    ensures Connected(from, to, pk) && old(to.delivered) <= to.delivered <= from.accepted
    ensures |rets| == |schedule|
    ensures Answered(old(from.writeQueue), old(from.accepted), old(IntakeOf(to)), schedule, rets, pk)
    ensures from.writeQueue == QueueAfterAll(old(from.writeQueue), schedule)
    ensures from.accepted == old(from.accepted) + AcceptedOf(old(from.writeQueue), schedule)
    ensures IntakeOf(to) == IntakeAfter(old(IntakeOf(to)), old(from.writeQueue), old(from.accepted), schedule, pk)
    ensures |to.received| == |old(to.received)| + Arrived(schedule, rets)
    ensures from.writeQueue == [] && to.received == from.wire ==> to.delivered == from.accepted && to.Pending() == []
  {
    ghost var q, before, k := from.writeQueue, from.accepted, IntakeOf(to);
    rets := [];
    for i := 0 to |schedule|
      invariant |rets| == i && Connected(from, to, pk) && to.buf == old(to.buf) && old(to.delivered) <= to.delivered
      invariant Account(q, before, k, schedule[..i], from.writeQueue, from.accepted, IntakeOf(to), pk)
      invariant Answered(q, before, k, schedule, rets, pk)
    {
      ghost var queue, accepted, now := from.writeQueue, from.accepted, IntakeOf(to);
      var ret := TakeStep(from, to, schedule[i], pk);
      AccountStep(q, before, k, schedule, i, queue, accepted, now, pk);
      AnsweredStep(q, before, k, schedule, rets, ret, pk);
      rets := rets + [ret];
    }
    assert schedule[..|schedule|] == schedule;
    ArrivedIs(q, before, k, schedule, rets, pk);
    DeliveredArePrefix(from.accepted, from.wire, Unsent(from.writeQueue), to.received, pk);
  }

  /** From wherever a run has come to, all accepted frames get through: once the sender's socket takes
      what is queued and the octets on their way arrive, the frames delivered are the accepted ones. */
  method Drain(from: Io, to: Io, sends: nat -> int, ghost pk: Packer)
    requires Connected(from, to, pk) && TakesAll(sends, MAX_WMEM_SIZE)
    modifies from, to, to.buf
    ensures Connected(from, to, pk) && from.accepted == old(from.accepted)
    ensures from.writeQueue == [] && to.delivered == from.accepted && to.Pending() == []
  {
    SendQueued(from, to, sends, pk);
    AllDrained(old(from.writeQueue), sends, 0, MAX_WMEM_SIZE);
    while |to.received| < |from.wire|
      invariant Connected(from, to, pk) && to.buf == old(to.buf)
      invariant from.accepted == old(from.accepted) && from.writeQueue == []
      decreases |from.wire| - |to.received|
    {
      var n := ArriveAt(from, to, |from.wire|, pk);
    }
    DeliveredArePrefix(from.accepted, from.wire, Unsent(from.writeQueue), to.received, pk);
  }

  /** A turn of a fair link: the socket becomes writable, and then octets on their way reach the receiver. */
  datatype Turn = Turn(sends: nat -> int, count: nat) {
    ghost predicate Fair() {
      sends(0) >= 1 && count >= 1
    }
  }

  /** What is left to be done: every octet that is queued has to be sent and received, and every one on its
      way received. */
  ghost function Left(from: Io, to: Io): int
    requires QueueOk(from.writeQueue)
    reads from, to
  {
    |Flatten(from.accepted)| + |Unsent(from.writeQueue)| - |to.received|
  }

  /** A fair turn leaves less to be done, until nothing is left. */
  method FairTurn(from: Io, to: Io, turn: Turn, ghost pk: Packer)
    requires Connected(from, to, pk) && turn.Fair()
    modifies from, to, to.buf
    ensures Connected(from, to, pk) && to.buf == old(to.buf) && from.accepted == old(from.accepted)
    ensures 0 <= Left(from, to) && (old(Left(from, to)) > 0 ==> Left(from, to) < old(Left(from, to)))
    ensures old(Left(from, to)) == 0 ==> Left(from, to) == 0
  {
    DrainShrinks(from.writeQueue, turn.sends, 0);
    ghost var q, accepted := from.writeQueue, from.accepted;
    assert accepted + [] == accepted;
    var _ := TakeStep(from, to, Writable(turn.sends), pk);
    var n := TakeStep(from, to, Arrive(turn.count), pk);
  }

  lemma AllSent(q: seq<WriteItem>)
    requires QueueOk(q) && |Unsent(q)| == 0
    ensures q == []
  {
  }

  /** However little a fair link takes at a time, all accepted frames get through after finitely many turns:
      no more than twice the octets queued, and once those on their way. */
  method DrainFairly(from: Io, to: Io, turns: seq<Turn>, ghost pk: Packer)
    requires Connected(from, to, pk) && forall t | t in turns :: t.Fair()
    requires |turns| >= 2 * |Unsent(from.writeQueue)| + |from.wire| - |to.received|
    modifies from, to, to.buf
    ensures Connected(from, to, pk) && from.accepted == old(from.accepted)
    ensures from.writeQueue == [] && to.delivered == from.accepted && to.Pending() == []
  {
    WireIsPrefix(from.accepted, from.wire, Unsent(from.writeQueue), |to.received|);
    for i := 0 to |turns|
      invariant Connected(from, to, pk) && to.buf == old(to.buf) && from.accepted == old(from.accepted)
      invariant 0 <= Left(from, to) <= |turns| - i
    {
      FairTurn(from, to, turns[i], pk);
    }
    WireIsPrefix(from.accepted, from.wire, Unsent(from.writeQueue), |to.received|);
    AllSent(from.writeQueue);
    DeliveredArePrefix(from.accepted, from.wire, Unsent(from.writeQueue), to.received, pk);
  }
}
