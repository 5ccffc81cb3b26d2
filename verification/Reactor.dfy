/** One connection of the event loop: the receive buffer that is cut into frames, and the queue of
    unsent messages (reactor/eloop_event.c). The kernel's answers are parameters. */
module Reactor {
  import opened Bytes
  import opened Frames
  import opened Wrappers

  const IO_BUF_SIZE: nat := 8192
  const MAX_WMEM_SIZE: nat := 16384
  datatype Event = In | Out

  /** The three changes that the kernel's interest list can be asked for. */
  datatype EpollOp = Add | Modify | Delete

  /** The entry of a connection in the interest list after epoll_ctl: adding works only where there is
      no entry, modifying and deleting only where there is one; otherwise nothing changes. */
  function EpollCtl(op: EpollOp, entry: Option<set<Event>>, events: set<Event>): Option<set<Event>> {
    match op
    case Add => if entry.None? then Some(events) else entry
    case Modify => if entry.Some? then Some(events) else entry
    case Delete => None
  }

  /** A queued message, of which the first `offset` octets have been sent. */
  datatype WriteItem = WriteItem(data: seq<Byte>, offset: nat)

  /** What send can answer: try again later, an error, or a count of octets taken. */
  datatype SendOutcome = Blocked | Failed | Sent(n: nat)

  /** A socket that takes whatever it is offered, up to max octets. */
  ghost predicate TakesAll(sends: nat -> int, max: nat) {
    forall k: nat :: sends(k) >= max
  }

  /** What recv can answer: nothing yet (or an error, treated alike), end of stream, or octets. */
  datatype RecvOutcome = NotReady | PeerClosed | Got(data: seq<Byte>)

  /** The octets of the queue that are still to be sent. */
  function Unsent(q: seq<WriteItem>): seq<Byte>
    requires forall i | 0 <= i < |q| :: q[i].offset <= |q[i].data|
  {
    if q == [] then [] else q[0].data[q[0].offset..] + Unsent(q[1..])
  }

  function Size(q: seq<WriteItem>): nat {
    if q == [] then 0 else |q[0].data| + Size(q[1..])
  }

  lemma {:induction false} UnsentAppend(q: seq<WriteItem>, data: seq<Byte>)
    requires QueueOk(q) && data != []
    ensures QueueOk(q + [WriteItem(data, 0)])
    ensures Unsent(q + [WriteItem(data, 0)]) == Unsent(q) + data
    ensures Size(q + [WriteItem(data, 0)]) == Size(q) + |data|
    decreases |q|
  {
    var q' := q + [WriteItem(data, 0)];
    if q == [] {
      assert data[0..] == data;
    } else {
      assert q'[0] == q[0] && q'[1..] == q[1..] + [WriteItem(data, 0)];
      UnsentAppend(q[1..], data);
      Regroup(q[0].data[q[0].offset..], Unsent(q[1..]), data);
    }
  }

  /** The queue after n octets of the head item have been sent. */
  function HeadMoved(q: seq<WriteItem>, n: nat): seq<WriteItem>
    requires q != []
  {
    [WriteItem(q[0].data, q[0].offset + n)] + q[1..]
  }

  /** The queue after the socket has answered n to the offer of what is left of the head item. */
  function HeadAnswered(q: seq<WriteItem>, n: int): seq<WriteItem>
    requires q != []
  {
    if n <= 0 then q else if n < |q[0].data| - q[0].offset then HeadMoved(q, n) else q[1..]
  }

  /** The queue after the socket has become writable, where sends(k) is its answer to the k-th offer. */
  function Drained(q: seq<WriteItem>, sends: nat -> int, k: nat): (r: seq<WriteItem>)
    requires QueueOk(q)
    ensures QueueOk(r) && Size(r) <= Size(q)
    decreases |q|
  {
    if q == [] then []
    else if sends(k) < |q[0].data| - q[0].offset then HeadAnswered(q, sends(k))
    else Drained(q[1..], sends, k + 1)
  }

  lemma {:induction false} AllDrained(q: seq<WriteItem>, sends: nat -> int, k: nat, max: nat)
    requires QueueOk(q) && Size(q) <= max && TakesAll(sends, max)
    ensures Drained(q, sends, k) == []
    decreases |q|
  {
    if q != [] {
      assert sends(k) >= max;
      AllDrained(q[1..], sends, k + 1, max);
    }
  }

  /** A socket that has become writable, and takes at least one octet of the first offer, leaves less to
      send; whatever it answers, it leaves no more. */
  lemma {:induction false} DrainShrinks(q: seq<WriteItem>, sends: nat -> int, k: nat)
    requires QueueOk(q)
    ensures |Unsent(Drained(q, sends, k))| <= |Unsent(q)|
    ensures q != [] && sends(k) >= 1 ==> |Unsent(Drained(q, sends, k))| < |Unsent(q)|
    decreases |q|
  {
    if q == [] {
    } else if sends(k) >= |q[0].data| - q[0].offset {
      DrainShrinks(q[1..], sends, k + 1);
    } else if sends(k) >= 1 {
      HeadMovedOk(q, sends(k));
    }
  }

  /** What is left of a queue after all items before the j-th, and n octets of that one. */
  function LeftFrom(q: seq<WriteItem>, j: nat, n: nat): seq<WriteItem> {
    if j < |q| then [WriteItem(q[j].data, q[j].offset + n)] + q[j + 1..] else []
  }

  lemma LeftStep(q: seq<WriteItem>, j: nat, n: nat)
    requires QueueOk(q) && 0 < j <= |q|
    ensures LeftFrom(q, j, n) == LeftFrom(q[1..], j - 1, n)
    ensures |Unsent(q[..j])| == |q[0].data| - q[0].offset + |Unsent(q[1..][..j - 1])|
  {
    SlicesShift(q, j);
    assert q[..j][0] == q[0];
  }

  lemma SlicesShift<T>(q: seq<T>, j: nat)
    requires 0 < j <= |q|
    ensures q[..j][1..] == q[1..][..j - 1]
    ensures j < |q| ==> q[1..][j - 1] == q[j] && q[1..][j..] == q[j + 1..]
  {
  }

  lemma HeadAndRest(q: seq<WriteItem>)
    requires q != []
    ensures [WriteItem(q[0].data, q[0].offset + 0)] + q[1..] == q
  {
  }

  lemma HeadLeft(q: seq<WriteItem>, n: int)
    requires q != [] && n < |q[0].data| - q[0].offset
    ensures HeadAnswered(q, n) == LeftFrom(q, 0, if n > 0 then n else 0)
  {
    HeadAndRest(q);
  }

  lemma HeadLength(q: seq<WriteItem>)
    requires QueueOk(q) && q != []
    ensures QueueOk(q[1..]) && |Unsent(q)| == |q[0].data| - q[0].offset + |Unsent(q[1..])|
  {
  }

  lemma HeadTaken(q: seq<WriteItem>, n: nat)
    requires QueueOk(q) && q != [] && n < |q[0].data| - q[0].offset
    ensures QueueOk(HeadMoved(q, n)) && |Unsent(q)| - |Unsent(HeadMoved(q, n))| == n
  {
    HeadMovedOk(q, n);
    HeadLength(q);
  }

  lemma LeftHead(q: seq<WriteItem>, n: int)
    requires QueueOk(q) && q != [] && n < |q[0].data| - q[0].offset
    ensures var taken, r := if n > 0 then n else 0, HeadAnswered(q, n);
      r == LeftFrom(q, 0, taken) && QueueOk(r) && |Unsent(q)| - |Unsent(r)| == taken
  {
    HeadLeft(q, n);
    if n > 0 {
      HeadTaken(q, n);
    }
  }

  /** The socket stops at item j of a queue whose first item is offered as the k-th: it takes what was left of
      every item before, and answers less than what is left of this one; or it takes everything. */
  ghost predicate StopsFrom(q: seq<WriteItem>, sends: nat -> int, k: nat, j: nat)
    requires QueueOk(q)
  {
    && j <= |q|
    && (forall i: nat | i < j :: sends(k + i) >= |q[i].data| - q[i].offset)
    && (j < |q| ==> sends(k + j) < |q[j].data| - q[j].offset)
  }

  lemma StopsLater(q: seq<WriteItem>, sends: nat -> int, k: nat, j: nat)
    requires QueueOk(q) && StopsFrom(q, sends, k, j) && j > 0
    ensures QueueOk(q[1..]) && StopsFrom(q[1..], sends, k + 1, j - 1) && sends(k) >= |q[0].data| - q[0].offset
  {
    assert sends(k + 0) >= |q[0].data| - q[0].offset;
    forall i: nat | i < j - 1
      ensures sends(k + 1 + i) >= |q[1..][i].data| - q[1..][i].offset
    {
      assert sends(k + (i + 1)) >= |q[i + 1].data| - q[i + 1].offset;
    }
  }

  /** What is left of the queue, and how much shorter it is. */
  ghost predicate LeavesFrom(q: seq<WriteItem>, r: seq<WriteItem>, j: nat, n: nat)
    requires QueueOk(q) && QueueOk(r) && j <= |q|
  {
    r == LeftFrom(q, j, n) && |Unsent(q)| - |Unsent(r)| == |Unsent(q[..j])| + n
  }

  lemma LeavesLater(q: seq<WriteItem>, r: seq<WriteItem>, j: nat, n: nat)
    requires QueueOk(q) && QueueOk(r) && 0 < j <= |q| && QueueOk(q[1..]) && LeavesFrom(q[1..], r, j - 1, n)
    ensures LeavesFrom(q, r, j, n)
  {
    LeftStep(q, j, n);
    HeadLength(q);
  }

  lemma {:induction false} DrainedFrom(q: seq<WriteItem>, sends: nat -> int, k: nat, j: nat, n: nat)
    requires QueueOk(q) && StopsFrom(q, sends, k, j) && n == if j < |q| && sends(k + j) > 0 then sends(k + j) else 0
    ensures LeavesFrom(q, Drained(q, sends, k), j, n)
    decreases |q|
  {
    var r := Drained(q, sends, k);
    if q == [] {
    } else if j == 0 {
      assert r == HeadAnswered(q, sends(k + 0));
      NothingBefore(q, sends(k + 0));
    } else {
      StopsLater(q, sends, k, j);
      assert r == Drained(q[1..], sends, k + 1) && k + 1 + (j - 1) == k + j;
      DrainedFrom(q[1..], sends, k + 1, j - 1, n);
      LeavesLater(q, r, j, n);
    }
  }

  lemma NothingBefore(q: seq<WriteItem>, n: int)
    requires QueueOk(q) && q != [] && n < |q[0].data| - q[0].offset
    ensures QueueOk(HeadAnswered(q, n)) && LeavesFrom(q, HeadAnswered(q, n), 0, if n > 0 then n else 0)
  {
    LeftHead(q, n);
    assert q[..0] == [];
  }

  /** The wire has grown by what the socket has taken: all that was left of the items before the one it stops
      at, and as many octets of that one as it answered. */
  ghost predicate TookAnswers(q: seq<WriteItem>, sends: nat -> int, wire: seq<Byte>, wire': seq<Byte>)
    requires QueueOk(q)
  {
    && (forall j: nat | StopsFrom(q, sends, 0, j) ::
          |wire'| - |wire| == |Unsent(q[..j])| + if j < |q| && sends(j) > 0 then sends(j) else 0)
    && (q != [] && 0 <= sends(0) < |q[0].data| - q[0].offset ==>
          wire' == wire + q[0].data[q[0].offset..q[0].offset + sends(0)])
  }

  lemma WireGrows(q: seq<WriteItem>, sends: nat -> int, wire: seq<Byte>, wire': seq<Byte>)
    requires QueueOk(q) && wire' + Unsent(Drained(q, sends, 0)) == wire + Unsent(q)
    ensures TookAnswers(q, sends, wire, wire')
  {
    var r := Drained(q, sends, 0);
    SameLength(wire', Unsent(r), wire, Unsent(q));
    forall j: nat | StopsFrom(q, sends, 0, j)
      ensures |wire'| - |wire| == |Unsent(q[..j])| + if j < |q| && sends(j) > 0 then sends(j) else 0
    {
      Stopped(q, sends, j, r);
    }
    if q != [] && 0 <= sends(0) < |q[0].data| - q[0].offset {
      FirstStop(q, sends, wire, wire');
    }
  }

  lemma SameLength(a: seq<Byte>, b: seq<Byte>, c: seq<Byte>, d: seq<Byte>)
    requires a + b == c + d
    ensures |a| - |c| == |d| - |b|
  {
    assert |a + b| == |a| + |b| && |c + d| == |c| + |d|;
  }

  lemma Stopped(q: seq<WriteItem>, sends: nat -> int, j: nat, r: seq<WriteItem>)
    requires QueueOk(q) && StopsFrom(q, sends, 0, j) && r == Drained(q, sends, 0)
    ensures |Unsent(q)| - |Unsent(r)| == |Unsent(q[..j])| + if j < |q| && sends(j) > 0 then sends(j) else 0
  {
    assert 0 + j == j;
    DrainedFrom(q, sends, 0, j, if j < |q| && sends(j) > 0 then sends(j) else 0);
  }

  lemma FirstStop(q: seq<WriteItem>, sends: nat -> int, wire: seq<Byte>, wire': seq<Byte>)
    requires QueueOk(q) && q != [] && 0 <= sends(0) < |q[0].data| - q[0].offset
    requires wire' + Unsent(Drained(q, sends, 0)) == wire + Unsent(q)
    ensures wire' == wire + q[0].data[q[0].offset..q[0].offset + sends(0)]
  {
    LeftHead(q, sends(0));
    FrontTaken(wire, wire', Unsent(Drained(q, sends, 0)), q[0].data[q[0].offset..], Unsent(q[1..]), sends(0));
    SliceOfRest(q[0].data, q[0].offset, sends(0));
  }

  lemma FrontTaken(wire: seq<Byte>, wire': seq<Byte>, left: seq<Byte>, rest: seq<Byte>, more: seq<Byte>, n: nat)
    requires wire' + left == wire + (rest + more) && n <= |rest| && |wire'| == |wire| + n
    ensures wire' == wire + rest[..n]
  {
    assert (wire' + left)[..|wire'|] == wire';
    assert (wire + (rest + more))[..|wire| + n] == wire + rest[..n];
  }

  lemma SliceOfRest(data: seq<Byte>, o: nat, n: nat)
    requires o + n <= |data|
    ensures data[o..][..n] == data[o..o + n]
  {
  }

  /** The queue after a call of io_write, under a memory cap of max octets. */
  function QueueAfterWrite(q: seq<WriteItem>, max: nat, data: seq<Byte>, before: Byte,
                           outcome: SendOutcome): seq<WriteItem>
    requires outcome.Sent? ==> outcome.n <= |data|
  {
    var more := if q != [] then data else
      match outcome
      case Blocked => [before] + data
      case Failed => []
      case Sent(n) => if n == 0 then [] else data[n..];
    QueueWith(q, max, more)
  }

  /** The queue after io_enqueue: nothing is queued that is empty or would reach the memory cap. */
  function QueueWith(q: seq<WriteItem>, max: nat, more: seq<Byte>): seq<WriteItem> {
    if more == [] || Size(q) + |more| >= max then q else q + [WriteItem(more, 0)]
  }

  lemma HeadMovedOk(q: seq<WriteItem>, n: nat)
    requires QueueOk(q) && q != [] && n < |q[0].data| - q[0].offset
    ensures QueueOk(HeadMoved(q, n)) && Size(HeadMoved(q, n)) == Size(q)
    ensures Unsent(HeadMoved(q, n)) == q[0].data[q[0].offset + n..] + Unsent(q[1..])
  {
    HeadFirst(WriteItem(q[0].data, q[0].offset + n), q[1..]);
  }

  /** Sending the first n octets of the head item moves them from the queue to the wire. */
  lemma HeadSent(wire: seq<Byte>, q: seq<WriteItem>, n: nat)
    requires QueueOk(q) && q != [] && n < |q[0].data| - q[0].offset
    ensures QueueOk(HeadMoved(q, n)) && Size(HeadMoved(q, n)) == Size(q)
    ensures (wire + q[0].data[q[0].offset..q[0].offset + n]) + Unsent(HeadMoved(q, n)) == wire + Unsent(q)
  {
    HeadMovedOk(q, n);
    SplitMoves(wire, q[0].data, q[0].offset, q[0].offset + n, Unsent(q[1..]));
  }

  lemma SplitMoves(wire: seq<Byte>, data: seq<Byte>, i: nat, j: nat, more: seq<Byte>)
    requires i <= j <= |data|
    ensures (wire + data[i..j]) + (data[j..] + more) == wire + (data[i..] + more)
  {
    SlicesJoin(data, i, j);
    Shift(wire, data[i..j], data[j..], more);
  }

  lemma HeadFirst(item: WriteItem, rest: seq<WriteItem>)
    requires item.offset <= |item.data| && QueueOk(rest)
    ensures Unsent([item] + rest) == item.data[item.offset..] + Unsent(rest)
    ensures Size([item] + rest) == |item.data| + Size(rest)
  {
    assert ([item] + rest)[1..] == rest;
  }

  lemma SlicesJoin(s: seq<Byte>, i: nat, j: nat)
    requires i <= j <= |s|
    ensures s[i..] == s[i..j] + s[j..]
  {
  }

  lemma Shift(a: seq<Byte>, x: seq<Byte>, y: seq<Byte>, z: seq<Byte>)
    ensures (a + x) + (y + z) == a + ((x + y) + z)
  {
  }

  /** Sending all that is left of the head item moves it from the queue to the wire. */
  lemma HeadDone(wire: seq<Byte>, q: seq<WriteItem>)
    requires QueueOk(q) && q != []
    ensures QueueOk(q[1..]) && Size(q[1..]) == Size(q) - |q[0].data|
    ensures (wire + q[0].data[q[0].offset..]) + Unsent(q[1..]) == wire + Unsent(q)
  {
    Regroup(wire, q[0].data[q[0].offset..], Unsent(q[1..]));
  }

  /** What of a message is sent at once joins the wire, and what is queued joins the queue's octets. */
  lemma TransferStream(wire: seq<Byte>, q: seq<WriteItem>, data: seq<Byte>, before: Byte, outcome: SendOutcome)
    requires QueueOk(q) && (outcome.Sent? ==> outcome.n <= |data|)
    ensures q != [] ==> wire + (Unsent(q) + data) == (wire + Unsent(q)) + data && data[0..] == data
    ensures q == [] ==> Unsent(q) == [] && Size(q) == 0 && wire + [] == wire
    ensures q == [] && outcome.Sent? ==> (wire + data[..outcome.n]) + data[outcome.n..] == wire + data
    ensures outcome.Sent? && outcome.n == |data| ==> data[..outcome.n] == data
    ensures forall s: seq<Byte> :: wire + ([] + s) == wire + s
  {
  }

  /** Every queued message has something left to send, and only the first may be partly sent. */
  predicate QueueOk(q: seq<WriteItem>) {
    forall i | 0 <= i < |q| :: q[i].offset < |q[i].data| && (i > 0 ==> q[i].offset == 0)
  }

  /** The stream is the concatenation of the accepted messages exactly when no call has misfired; a
      misfire leaves it too long for good. */
  ghost predicate BookOk(stream: seq<Byte>, accepted: seq<seq<Byte>>, misfires: nat) {
    && (misfires == 0 <==> stream == Flatten(accepted))
    && |Flatten(accepted)| + misfires <= |stream|
  }

  datatype IoRecord =
    IoRecord(buf: array?<Byte>, len: nat, head: nat, tail: nat, pack: Packer,
             hasOnClose: bool, isAccept: bool, hasPacker: bool,
             events: set<Event>, what: set<Event>, writeQueue: seq<WriteItem>, wmemMaxSize: nat, wmemSize: nat)

  const ZEROED := IoRecord(null, 0, 0, 0, Packer(0, 0), false, false, false, {}, {}, [], 0, 0)

  /** What a connection records about sending: the queue, its memory count and cap, the events watched
      for, here and in the kernel, what went to the socket, and the books. */
  datatype Sending =
    Sending(queue: seq<WriteItem>, size: nat, cap: nat, events: set<Event>, watched: Option<set<Event>>,
            wire: seq<Byte>, accepted: seq<seq<Byte>>, misfires: nat)

  /** The memory count is that of the queue and below the cap, only the head item is partly sent, and the
      kernel watches for writability exactly while something is queued. */
  ghost predicate SendingOk(s: Sending) {
    match s
    case Sending(queue, size, cap, events, watched, wire, accepted, misfires) =>
      && QueueOk(queue) && size == Size(queue) && size < cap
      && (Out in events <==> queue != []) && watched == (if events == {} then None else Some(events))
      && BookOk(wire + Unsent(queue), accepted, misfires)
  }

  lemma NothingReceived(pk: Packer)
    requires pk.Valid()
    ensures Cut([], pk) == [] && Rest([], pk) == [] && Framed([], pk, IO_BUF_SIZE)
  {
  }

  lemma NothingSent(s: Sending)
    requires s.queue == [] && s.size == 0 < s.cap && s.wire == [] && s.accepted == [] && s.misfires == 0
    requires Out !in s.events && s.watched == if s.events == {} then None else Some(s.events)
    ensures SendingOk(s)
  {
  }

  /** What fills a whole buffer is the beginning of a frame that is larger than the buffer. */
  lemma RestFills(s: seq<Byte>, pk: Packer)
    requires pk.Valid() && pk.nheader <= IO_BUF_SIZE && Framed(s, pk, INT_MAX)
    ensures |Rest(s, pk)| >= IO_BUF_SIZE ==> Total(Rest(s, pk), pk) > IO_BUF_SIZE && !Framed(s, pk, IO_BUF_SIZE)
  {
    RestIsShort(s, pk, INT_MAX);
    if Framed(s, pk, IO_BUF_SIZE) {
      RestIsShort(s, pk, IO_BUF_SIZE);
    }
  }

  class Io {
    var buf: array?<Byte>
    var len: nat
    var head: nat
    var tail: nat
    var pack: Packer
    var hasOnClose: bool
    var isAccept: bool
    var hasPacker: bool
    var events: set<Event>
    var what: set<Event>
    var writeQueue: seq<WriteItem>
    var wmemMaxSize: nat
    var wmemSize: nat

    // What the connection shows to the outside.
    var delivered: seq<seq<Byte>>   // the frames given to on_read
    var closeCalls: nat             // how often on_close was called
    var acceptCalls: nat            // how often on_accept was called
    var plainReads: nat             // how often on_read was called without a packer
    var watched: Option<set<Event>> // the connection's entry in the kernel's interest list
    var received: seq<Byte>         // all octets recv has given
    var wire: seq<Byte>             // all octets send has taken
    ghost var accepted: seq<seq<Byte>>  // the messages io_write took responsibility for
    ghost var misfires: nat         // the calls of io_write that changed the stream otherwise

    /** A connection that has just been set up: zeroed, then given a buffer, the memory cap, its
        packer and callbacks, and watched for input. */
    constructor (pk: Packer, hasOnClose: bool)
      requires pk.Valid() && pk.nheader <= IO_BUF_SIZE
      ensures Bounded() && WriteOk() && Framing() && fresh(buf) && pack == pk && wmemMaxSize == MAX_WMEM_SIZE
      ensures received == [] && delivered == [] && wire == [] && accepted == [] && misfires == 0
    {
      buf := new Byte[IO_BUF_SIZE];
      len, head, tail, pack, this.hasOnClose := 0, 0, 0, pk, hasOnClose;
      isAccept, hasPacker, acceptCalls, plainReads := false, true, 0, 0;
      events, what, writeQueue, wmemMaxSize, wmemSize, watched := {}, {}, [], MAX_WMEM_SIZE, 0, None;
      delivered, closeCalls, received, wire, accepted, misfires := [], 0, [], [], [], 0;
      new;
      NothingReceived(pk);
      assert Pending() == [];
      assert Bounded();
      AddEvent(In);
      NothingSent(Sender());
    }

    /** Octets that arrive on this connection are cut into frames. */
    predicate Framing()
      reads `isAccept, `hasPacker
    {
      !isAccept && hasPacker
    }

    ghost predicate Open()
      reads `buf, `pack
    {
      buf != null && buf.Length == IO_BUF_SIZE && pack.Valid() && pack.nheader <= IO_BUF_SIZE
    }

    /** The octets received and not yet delivered. */
    ghost function Pending(): seq<Byte>
      requires Open() && head <= tail <= IO_BUF_SIZE
      reads `buf, `pack, `head, `tail, buf
    {
      buf[head..tail]
    }

    /** Whatever the chunks in which octets came: the frames delivered are the complete frames of all
        that was received, and the buffer holds the rest. */
    ghost predicate ReadOk()
      reads `buf, `pack, `head, `tail, `len, `delivered, `received, buf
    {
      && Open() && tail == head + len && tail <= IO_BUF_SIZE
      && delivered == Cut(received, pack) && Pending() == Rest(received, pack)
    }

    /** The body length in the header at the front of the pending octets. */
    method LoadBody() returns (nbody: int)
      requires Open() && tail == head + len && tail <= IO_BUF_SIZE && pack.nheader <= len
      ensures nbody + pack.nheader == Total(Pending(), pack)
    {
      var o := head + pack.lenOffset;
      nbody := (buf[o] as int) + 0x100 * (buf[o + 1] as int)
        + 0x1_0000 * (buf[o + 2] as int) + 0x100_0000 * (buf[o + 3] as int);
      if nbody >= 0x8000_0000 {
        nbody := nbody - 0x1_0000_0000;
      }
      assert forall i | 0 <= i < len :: Pending()[i] == buf[head + i];
    }

    /** Hands the first `total` octets to on_read and steps over them. */
    method DeliverFront(total: nat)
      requires Open() && tail == head + len && tail <= IO_BUF_SIZE && total <= len
      modifies `delivered, `head, `len
      ensures tail == head + len && len == old(len) - total
      ensures delivered == old(delivered) + [old(Pending())[..total]]
      ensures Pending() == old(Pending())[total..]
    {
      assert Pending()[..total] == buf[head..head + total];
      delivered := delivered + [buf[head..head + total]];
      head := head + total;
      len := len - total;
    }

    /** A call of the read callback on the octets `all` has come to deliver `done`. */
    ghost predicate Reading(done: seq<seq<Byte>>, all: seq<Byte>)
      reads this, buf
    {
      && Open() && tail == head + len && tail <= IO_BUF_SIZE
      && Cutting(done, Pending(), all, pack, INT_MAX)
    }

    /** One turn of the read callback; `more` tells whether a frame was delivered. */
    method ReadTurn(ghost done: seq<seq<Byte>>, ghost all: seq<Byte>) returns (more: bool, ghost done': seq<seq<Byte>>)
      requires Reading(done, all) && len >= pack.nheader
      modifies `delivered, `head, `len
      ensures Reading(done', all)
      ensures if more then len < old(len) && |done'| == |done| + 1 && done == done'[..|done|]
                           && delivered == old(delivered) + [done'[|done|]]
              else delivered == old(delivered) && done' == done && !Complete(Pending(), pack)
    {
      ghost var cur := Pending();
      var nbody := LoadBody();
      if len < nbody + pack.nheader {
        return false, done;
      }
      CuttingStep(done, cur, all, pack, INT_MAX);
      DeliverFront(nbody + pack.nheader);
      return true, done + [cur[..Total(cur, pack)]];
    }

    /** The read callback: hands every complete frame in the buffer to on_read. */
    method ReadCb()
      requires Open() && tail == head + len && tail <= IO_BUF_SIZE && Framed(Pending(), pack, INT_MAX)
      modifies `delivered, `head, `len
      ensures tail == head + len
      ensures delivered == old(delivered) + Cut(old(Pending()), pack)
      ensures Pending() == Rest(old(Pending()), pack)
    {
      ghost var all, done := Pending(), [];
      CuttingStarts(all, pack, INT_MAX);
      while len >= pack.nheader
        invariant Reading(done, all) && delivered == old(delivered) + done
        decreases len
      {
        var more;
        more, done := ReadTurn(done, all);
        if !more {
          break;
        }
      }
      CuttingEnds(done, Pending(), all, pack, INT_MAX);
    }

    /** The octets from recv go behind the pending ones. */
    method Store(data: seq<Byte>)
      requires Open() && tail == head + len && tail + |data| <= IO_BUF_SIZE
      modifies buf, `tail, `len
      ensures tail == head + len && tail == old(tail) + |data|
      ensures Pending() == old(Pending()) + data
    {
      forall i | 0 <= i < |data| {
        buf[tail + i] := data[i];
      }
      tail := tail + |data|;
      len := len + |data|;
    }

    /** Moves the pending octets to the front of the buffer. */
    method Compact()
      requires Open() && tail == head + len && tail <= IO_BUF_SIZE
      modifies buf, `head, `tail
      ensures head == 0 && tail == len && Pending() == old(Pending())
    {
      forall i | 0 <= i < len {
        buf[i] := buf[head + i];
      }
      head := 0;
      tail := len;
    }

    /** Octets have arrived: deliver what they complete, and make room when the buffer's end is
        reached. */
    method Receive(data: seq<Byte>)
      requires ReadOk() && tail + |data| <= IO_BUF_SIZE && Framed(received + data, pack, INT_MAX)
      modifies buf, `head, `tail, `len, `delivered, `received
      ensures ReadOk() && received == old(received) + data
      ensures tail == if old(tail) + |data| < IO_BUF_SIZE then old(tail) + |data| else |Pending()|
      ensures tail == IO_BUF_SIZE <==> |Pending()| == IO_BUF_SIZE
      ensures tail == IO_BUF_SIZE ==> Total(Pending(), pack) > IO_BUF_SIZE
      ensures Framed(received, pack, IO_BUF_SIZE) ==> tail < IO_BUF_SIZE
      ensures Sender() == old(Sender())
    {
      FramedRest(received, data, pack, INT_MAX);
      CutInChunks(received, data, pack);
      RestFills(received + data, pack);
      Store(data);
      ReadCb();
      received := received + data;
      if tail >= IO_BUF_SIZE {
        Compact();
      }
    }

    /** The fields of the connection's record. */
    ghost function Record(): IoRecord
      reads this
    {
      IoRecord(buf, len, head, tail, pack, hasOnClose, isAccept, hasPacker,
               events, what, writeQueue, wmemMaxSize, wmemSize)
    }

    /** The connection is closed, its memory freed, and its record zeroed. */
    ghost predicate IsReset()
      reads this
    {
      Record() == ZEROED && watched == None
    }

    method ResetIo()
      modifies `buf, `len, `head, `tail, `pack, `hasOnClose, `isAccept, `hasPacker
      modifies `events, `what, `writeQueue, `wmemMaxSize, `wmemSize, `watched
      ensures IsReset()
    {
      buf, len, head, tail, pack, hasOnClose := null, 0, 0, 0, Packer(0, 0), false;
      events, what, writeQueue, wmemMaxSize, wmemSize, watched := {}, {}, [], 0, 0, None;
      isAccept, hasPacker := false, false;
    }

    /** The peer has closed the connection. */
    method PeerGone()
      modifies this
      ensures IsReset() && closeCalls == old(closeCalls) + (if old(hasOnClose) then 1 else 0)
      ensures delivered == old(delivered) && accepted == old(accepted) && wire == old(wire) && misfires == old(misfires)
      ensures acceptCalls == old(acceptCalls) && plainReads == old(plainReads)
    {
      if hasOnClose {
        closeCalls := closeCalls + 1;
      }
      ResetIo();
    }

    /** All frames received so far fit the buffer, and there is room for more octets. */
    ghost predicate Bounded()
      reads `buf, `pack, `head, `tail, `len, `delivered, `received, buf
    {
      ReadOk() && Framed(received, pack, IO_BUF_SIZE) && tail < IO_BUF_SIZE
    }

    /** recv gives no more octets than there is room for, and they continue a well-framed stream. */
    ghost predicate Receivable(r: RecvOutcome)
      reads `tail, `received, `pack
    {
      pack.Valid() &&
      (r.Got? && tail < IO_BUF_SIZE ==> 0 < |r.data| <= IO_BUF_SIZE - tail && Framed(received + r.data, pack, INT_MAX))
    }

    /** The connection is readable. The buffer being full, which drops the connection without a word
        to on_close, cannot happen while the frames fit the buffer. */
    method HandleRead(r: RecvOutcome)
      requires ReadOk()
      requires Receivable(r)
      modifies this, buf
      ensures accepted == old(accepted) && wire == old(wire) && misfires == old(misfires)
      ensures acceptCalls == old(acceptCalls) && plainReads == old(plainReads)
      ensures old(tail) == IO_BUF_SIZE ==> IsReset() && closeCalls == old(closeCalls) && delivered == old(delivered)
      ensures old(tail) < IO_BUF_SIZE && r.NotReady? ==> ReadOk() && unchanged(this)
      ensures old(tail) < IO_BUF_SIZE && r.PeerClosed? ==>
        IsReset() && closeCalls == old(closeCalls) + (if old(hasOnClose) then 1 else 0) && delivered == old(delivered)
      ensures old(tail) < IO_BUF_SIZE && r.Got? ==>
        && ReadOk() && received == old(received) + r.data && closeCalls == old(closeCalls)
        && buf == old(buf) && pack == old(pack) && Sender() == old(Sender()) && what == old(what)
        && hasOnClose == old(hasOnClose) && isAccept == old(isAccept) && hasPacker == old(hasPacker)
        && tail == (if old(tail) + |r.data| < IO_BUF_SIZE then old(tail) + |r.data| else |Pending()|)
        && (tail == IO_BUF_SIZE <==> |Pending()| == IO_BUF_SIZE)
        && (tail == IO_BUF_SIZE ==> Total(Pending(), pack) > IO_BUF_SIZE)
      ensures old(Bounded()) && r.NotReady? ==> Bounded()
      ensures old(Bounded()) && r.Got? && Framed(old(received) + r.data, old(pack), IO_BUF_SIZE) ==> Bounded()
    {
      var room := IO_BUF_SIZE - tail;
      if room <= 0 {
        ResetIo();
        return;
      }
      match r
      case NotReady =>
      case PeerClosed =>
        PeerGone();
      case Got(data) =>
        Receive(data);
    }

    /** What has been handed to the socket, and what waits in the queue. */
    ghost function Stream(): seq<Byte>
      requires QueueOk(writeQueue)
      reads `writeQueue, `wire
    {
      wire + Unsent(writeQueue)
    }

    ghost function Sender(): Sending
      reads `writeQueue, `wmemSize, `wmemMaxSize, `events, `watched, `wire, `accepted, `misfires
    {
      Sending(writeQueue, wmemSize, wmemMaxSize, events, watched, wire, accepted, misfires)
    }

    /** The write side is in order. */
    ghost predicate WriteOk()
      reads `writeQueue, `wmemSize, `wmemMaxSize, `events, `watched, `wire, `accepted, `misfires
    {
      SendingOk(Sender())
    }

    /** The interest list holds exactly the recorded events, and no entry where there are none. */
    predicate Registered()
      reads `events, `watched
    {
      watched == if events == {} then None else Some(events)
    }

    method AddEvent(e: Event)
      requires Registered()
      modifies `events, `watched
      ensures events == old(events) + {e} && Registered()
    {
      var ee := events + {e};
      if events == {} {
        watched := EpollCtl(Add, watched, ee);
      } else {
        watched := EpollCtl(Modify, watched, ee);
      }
      events := ee;
    }

    method DelEvent(e: Event)
      requires Registered()
      modifies `events, `watched
      ensures events == old(events) - {e} && Registered()
    {
      var ee := events - {e};
      if ee == {} {
        watched := EpollCtl(Delete, watched, ee);
      } else {
        watched := EpollCtl(Modify, watched, ee);
      }
      events := ee;
    }

    /** Appends a message to the queue, unless it is empty or would reach the memory cap. */
    method Enqueue(data: seq<Byte>) returns (ret: int)
      requires QueueOk(writeQueue) && wmemSize == Size(writeQueue)
      modifies `writeQueue, `wmemSize
      ensures QueueOk(writeQueue) && wmemSize == Size(writeQueue)
      ensures ret == if data == [] || old(wmemSize) + |data| >= wmemMaxSize then -1 else |data|
      ensures ret == -1 ==> writeQueue == old(writeQueue)
      ensures ret != -1 ==> writeQueue == old(writeQueue) + [WriteItem(data, 0)] && wmemSize < wmemMaxSize
      ensures ret != -1 ==> Unsent(writeQueue) == Unsent(old(writeQueue)) + data
    {
      if |data| <= 0 {
        return -1;
      }
      if wmemSize + |data| >= wmemMaxSize {
        return -1;
      }
      UnsentAppend(writeQueue, data);
      writeQueue := writeQueue + [WriteItem(data, 0)];
      wmemSize := wmemSize + |data|;
      return |data|;
    }

    /** Sends a message, or queues what the socket does not take. */
    method Write(data: seq<Byte>, before: Byte, outcome: SendOutcome) returns (ret: int)
      requires WriteOk() && (outcome.Sent? ==> outcome.n <= |data|)
      modifies `writeQueue, `wmemSize, `events, `watched, `wire, `accepted, `misfires
      ensures WriteOk() && events - {Out} == old(events) - {Out}
      ensures var e := old(EffectOf(writeQueue != [], wmemMaxSize - wmemSize, data, before, outcome));
        Stream() == old(Stream()) + e.added && ret == e.ret
      ensures accepted == old(accepted) + (if ret >= 0 then [data] else [])
      ensures misfires == old(misfires + Count(Misfires(writeQueue != [], wmemMaxSize - wmemSize, data, outcome)))
      ensures wire == old(wire) + (if old(writeQueue) == [] && outcome.Sent? then data[..outcome.n] else [])
      ensures ret >= 0 <==>
        if old(writeQueue) != [] then data != [] && old(wmemSize) + |data| < wmemMaxSize
        else outcome.Sent? && outcome.n > 0 && (outcome.n == |data| || |data| - outcome.n < wmemMaxSize)
      ensures writeQueue == old(QueueAfterWrite(writeQueue, wmemMaxSize, data, before, outcome))
      ensures if ret >= 0 then ret == |wire| - |old(wire)| else ret == -1
      ensures ret >= 0 ==> Stream() == old(Stream()) + data
      ensures old(writeQueue) == [] && outcome.Blocked? ==>
        Stream() == old(Stream()) + if |data| + 1 < wmemMaxSize then [before] + data else []
      ensures ret < 0 && |data| < wmemMaxSize && !(outcome.Blocked? && old(writeQueue) == []) ==>
        Stream() == old(Stream()) && wire == old(wire)
    {
      RefusedWhole(writeQueue != [], wmemMaxSize - wmemSize, data, before, outcome);
      AcceptedIff(writeQueue != [], wmemMaxSize - wmemSize, data, before, outcome);
      KeepBooks(data, before, outcome);
      ret := Transfer(data, before, outcome);
    }

    /** Enters a call of io_write into the books: they are right for the stream that it leads to. */
    ghost method KeepBooks(data: seq<Byte>, before: Byte, outcome: SendOutcome)
      requires QueueOk(writeQueue) && (outcome.Sent? ==> outcome.n <= |data|) && BookOk(Stream(), accepted, misfires)
      modifies `accepted, `misfires
      ensures var e := EffectOf(writeQueue != [], wmemMaxSize - wmemSize, data, before, outcome);
        && accepted == old(accepted) + (if e.ret >= 0 then [data] else [])
        && BookOk(Stream() + e.added, accepted, misfires)
      ensures misfires == old(misfires) + Count(Misfires(writeQueue != [], wmemMaxSize - wmemSize, data, outcome))
    {
      var e := EffectOf(writeQueue != [], wmemMaxSize - wmemSize, data, before, outcome);
      var misfired := Misfires(writeQueue != [], wmemMaxSize - wmemSize, data, outcome);
      RefusedWhole(writeQueue != [], wmemMaxSize - wmemSize, data, before, outcome);
      BookStep(Stream(), e.added, accepted, data, e.ret >= 0, misfired, misfires);
      accepted := accepted + (if e.ret >= 0 then [data] else []);
      misfires := misfires + Count(misfired);
    }

    /** The first half of io_write, on an idle connection: offers the message to the socket. */
    method SendNow(data: seq<Byte>, outcome: SendOutcome) returns (done: bool, nsend: int)
      requires outcome.Sent? ==> outcome.n <= |data|
      modifies `wire
      ensures wire == old(wire) + if outcome.Sent? then data[..outcome.n] else []
      ensures done <==> outcome.Failed? || (outcome.Sent? && (outcome.n == 0 || outcome.n == |data|))
      ensures nsend == if outcome.Sent? && outcome.n > 0 then outcome.n else -1
    {
      match outcome
      case Blocked =>
        return false, -1;
      case Failed =>
        return true, -1;
      case Sent(n) =>
        wire := wire + data[..n];
        if n == 0 {
          return true, -1;
        }
        return n == |data|, n;
    }

    /** The second half of io_write: queues the message from octet nsend on. A blocked send leaves nsend
        at -1: the message is then taken from one octet before its start. */
    method QueueRest(data: seq<Byte>, before: Byte, nsend: int) returns (ret: int)
      requires QueueOk(writeQueue) && wmemSize == Size(writeQueue) && wmemSize < wmemMaxSize
      requires (Out in events <==> writeQueue != []) && Registered() && -1 <= nsend <= |data|
      modifies `writeQueue, `wmemSize, `events, `watched
      ensures QueueOk(writeQueue) && wmemSize == Size(writeQueue) && wmemSize < wmemMaxSize
      ensures (Out in events <==> writeQueue != []) && Registered() && events - {Out} == old(events) - {Out}
      ensures var rest := if nsend < 0 then [before] + data else data[nsend..];
        var taken := rest != [] && old(wmemSize) + |rest| < wmemMaxSize;
        && writeQueue == QueueWith(old(writeQueue), wmemMaxSize, rest)
        && Unsent(writeQueue) == Unsent(old(writeQueue)) + (if taken then rest else [])
        && ret == if taken then nsend else -1
    {
      var rest := if nsend < 0 then [before] + data else data[nsend..];
      var queued := Enqueue(rest);
      if queued < 0 {
        return -1;
      }
      AddEvent(Out);
      return nsend;
    }

    /** The body of io_write, without the books. */
    method Transfer(data: seq<Byte>, before: Byte, outcome: SendOutcome) returns (ret: int)
      requires QueueOk(writeQueue) && wmemSize == Size(writeQueue) && wmemSize < wmemMaxSize
      requires (Out in events <==> writeQueue != []) && Registered()
      requires outcome.Sent? ==> outcome.n <= |data|
      modifies `writeQueue, `wmemSize, `events, `watched, `wire
      ensures QueueOk(writeQueue) && wmemSize == Size(writeQueue) && wmemSize < wmemMaxSize
      ensures (Out in events <==> writeQueue != []) && Registered() && events - {Out} == old(events) - {Out}
      ensures var e := old(EffectOf(writeQueue != [], wmemMaxSize - wmemSize, data, before, outcome));
        Stream() == old(Stream()) + e.added && ret == e.ret
      ensures wire == old(wire + SentAtOnce(writeQueue != [], data, outcome))
      ensures writeQueue == old(QueueAfterWrite(writeQueue, wmemMaxSize, data, before, outcome))
      ensures if ret >= 0 then ret == |wire| - |old(wire)| else ret == -1
    {
      TransferStream(wire, writeQueue, data, before, outcome);
      var done, nsend := false, 0;
      if |writeQueue| <= 0 {
        done, nsend := SendNow(data, outcome);
      }
      if done {
        return nsend;
      }
      ret := QueueRest(data, before, nsend);
    }

    /** One turn of the drain loop: the socket answers n to the offer of the head item's rest. */
    method SendHead(n: int) returns (more: bool)
      requires writeQueue != [] && QueueOk(writeQueue) && wmemSize == Size(writeQueue)
      modifies `writeQueue, `wmemSize, `wire
      ensures QueueOk(writeQueue) && wmemSize == Size(writeQueue) && wmemSize <= old(wmemSize)
      ensures Stream() == old(Stream()) && old(wire) <= wire
      ensures more <==> n >= old(|writeQueue[0].data| - writeQueue[0].offset)
      ensures writeQueue == HeadAnswered(old(writeQueue), n)
      ensures var item := old(writeQueue)[0]; var should := |item.data| - item.offset;
        var taken := if n <= 0 then 0 else if n < should then n else should;
        wire == old(wire) + item.data[item.offset..item.offset + taken]
      ensures !more ==> writeQueue != [] && n < wmemSize
    {
      var item := writeQueue[0];
      var should := |item.data| - item.offset;
      if n <= 0 {
        return false;
      } else if n < should {
        HeadSent(wire, writeQueue, n);
        wire := wire + item.data[item.offset..item.offset + n];
        writeQueue := HeadMoved(writeQueue, n);
        return false;
      }
      HeadDone(wire, writeQueue);
      wire := wire + item.data[item.offset..];
      writeQueue := writeQueue[1..];
      wmemSize := wmemSize - |item.data|;
      return true;
    }

    /** The drain loop; sends(k) is the socket's answer to the k-th offer. */
    method DrainQueue(sends: nat -> int)
      requires QueueOk(writeQueue) && wmemSize == Size(writeQueue)
      modifies `writeQueue, `wmemSize, `wire
      ensures QueueOk(writeQueue) && wmemSize == Size(writeQueue) && wmemSize <= old(wmemSize)
      ensures Stream() == old(Stream()) && old(wire) <= wire
      ensures writeQueue == Drained(old(writeQueue), sends, 0)
    {
      var k := 0;
      while writeQueue != []
        invariant QueueOk(writeQueue) && wmemSize == Size(writeQueue) && wmemSize <= old(wmemSize)
        invariant Stream() == old(Stream()) && old(wire) <= wire
        invariant Drained(writeQueue, sends, k) == Drained(old(writeQueue), sends, 0)
        decreases |writeQueue|
      {
        var more := SendHead(sends(k));
        if !more {
          break;
        }
        k := k + 1;
      }
    }

    /** The socket is writable: sends queued messages in order until the socket stops taking them;
        sends(k) is its answer to the k-th offer. */
    method HandleWrite(sends: nat -> int)
      requires WriteOk()
      modifies `writeQueue, `wmemSize, `events, `watched, `wire
      ensures WriteOk() && Stream() == old(Stream()) && old(wire) <= wire
      ensures events - {Out} == old(events) - {Out}
      ensures TakesAll(sends, wmemMaxSize) ==> writeQueue == []
      ensures writeQueue == Drained(old(writeQueue), sends, 0)
      ensures TookAnswers(old(writeQueue), sends, old(wire), wire)
    {
      ghost var q := writeQueue;
      DrainQueue(sends);
      WireGrows(q, sends, old(wire), wire);
      if TakesAll(sends, wmemMaxSize) {
        AllDrained(q, sends, 0, wmemMaxSize);
      }
      if |writeQueue| <= 0 {
        DelEvent(Out);
      }
    }

    /** This answer of recv ends the connection. */
    ghost predicate Ends(r: RecvOutcome)
      reads `tail
    {
      tail == IO_BUF_SIZE || r.PeerClosed?
    }

    /** The first half of serving a connection that frames are cut from. */
    method ServeFrames(r: RecvOutcome)
      requires ReadOk() && WriteOk() && Receivable(r)
      modifies this, buf
      ensures acceptCalls == old(acceptCalls) && plainReads == old(plainReads)
      ensures old(Ends(r)) ==>
        IsReset() && closeCalls == old(closeCalls) + Count(old(tail) < IO_BUF_SIZE && old(hasOnClose))
      ensures !old(Ends(r)) ==>
        && ReadOk() && Sender() == old(Sender()) && what == old(what)
        && received == old(received) + (if r.Got? then r.data else [])
    {
      HandleRead(r);
    }

    /** The first half of serving a connection: a listening socket is handed to on_accept, one without a
        packer to on_read, and from any other frames are cut. */
    method ServeRead(r: RecvOutcome)
      requires WriteOk() && (Framing() ==> ReadOk() && Receivable(r))
      modifies this, buf
      ensures old(Framing() && Ends(r)) ==>
        IsReset() && closeCalls == old(closeCalls) + Count(old(tail) < IO_BUF_SIZE && old(hasOnClose))
      ensures !old(Framing() && Ends(r)) ==>
        && (old(Framing()) ==> ReadOk()) && Sender() == old(Sender()) && what == old(what)
        && received == old(received) + (if old(Framing()) && r.Got? then r.data else [])
      ensures acceptCalls == old(acceptCalls) + Count(old(isAccept))
      ensures plainReads == old(plainReads) + Count(old(!isAccept && !hasPacker))
    {
      if isAccept {
        acceptCalls := acceptCalls + 1;
      } else if hasPacker {
        ServeFrames(r);
      } else {
        plainReads := plainReads + 1;
      }
    }

    /** The second half of serving a connection. */
    method ServeWrite(sends: nat -> int)
      requires WriteOk()
      modifies `writeQueue, `wmemSize, `events, `watched, `wire
      ensures WriteOk() && Stream() == old(Stream()) && ReadOk() == old(ReadOk())
      ensures TakesAll(sends, wmemMaxSize) ==> writeQueue == []
    {
      HandleWrite(sends);
    }

    /** Serves a connection for the events noted in `what`. */
    method HandleData(r: RecvOutcome, sends: nat -> int)
      requires WriteOk() && (Framing() ==> ReadOk() && Receivable(r))
      modifies this, buf
      ensures if old(In in what && Framing() && Ends(r))
        then IsReset() && closeCalls == old(closeCalls) + Count(old(tail) < IO_BUF_SIZE && old(hasOnClose))
        else
          && WriteOk() && Stream() == old(Stream()) && (old(Framing()) ==> ReadOk())
          && received == old(received) + (if old(In in what && Framing()) && r.Got? then r.data else [])
          && (old(Out !in what) ==> wire == old(wire))
          && (old(Out in what) && TakesAll(sends, wmemMaxSize) ==> writeQueue == [])
      ensures acceptCalls == old(acceptCalls) + Count(old(In in what && isAccept))
      ensures plainReads == old(plainReads) + Count(old(In in what && !isAccept && !hasPacker))
    {
      if In in what {
        ServeRead(r);
      }
      if Out in what {
        ServeWrite(sends);
      }
    }
  }

  /** A one-octet message on an idle connection whose socket would block: an error is returned, and the
      message is nevertheless queued, behind an octet that is not part of it. */
  lemma BlockedSendAddsStrayOctet()
    ensures EffectOf(false, MAX_WMEM_SIZE, [1], 7, Blocked) == WriteEffect([7, 1], -1)
    ensures Misfires(false, MAX_WMEM_SIZE, [1], Blocked)
  {
  }

  /** A call that does not misfire takes the whole message when it returns success, and nothing of it
      otherwise; a call that misfires returns an error and changes the stream all the same. */
  lemma MisfiresIff(queued: bool, free: int, data: seq<Byte>, before: Byte, outcome: SendOutcome)
    requires outcome.Sent? ==> outcome.n <= |data|
    ensures var e := EffectOf(queued, free, data, before, outcome);
      Misfires(queued, free, data, outcome) <==> e.added != (if e.ret >= 0 then data else [])
  {
  }

  /** A call that returns an error and does not misfire puts nothing on the wire. */
  lemma RefusedWhole(queued: bool, free: int, data: seq<Byte>, before: Byte, outcome: SendOutcome)
    requires outcome.Sent? ==> outcome.n <= |data|
    ensures var e := EffectOf(queued, free, data, before, outcome);
      && (e.ret >= 0 ==> e.added == data && !Misfires(queued, free, data, outcome))
      && (e.ret < 0 && !Misfires(queued, free, data, outcome) ==>
        e.added == [] && SentAtOnce(queued, data, outcome) == [])
  {
  }

  /** A message is accepted behind others when it is not empty and fits below the cap; on an idle connection,
      when the socket takes some of it and the rest fits. */
  lemma AcceptedIff(queued: bool, free: int, data: seq<Byte>, before: Byte, outcome: SendOutcome)
    requires outcome.Sent? ==> outcome.n <= |data|
    ensures EffectOf(queued, free, data, before, outcome).ret >= 0 <==>
      if queued then data != [] && |data| < free
      else outcome.Sent? && outcome.n > 0 && (outcome.n == |data| || |data| - outcome.n < free)
  {
  }

  /** On a connection with the usual cap, a message that fits a receive buffer misfires exactly when the
      connection is idle and the socket would block. */
  lemma FrameMisfiresIff(q: seq<WriteItem>, data: seq<Byte>, outcome: SendOutcome)
    requires |data| <= IO_BUF_SIZE
    ensures Misfires(q != [], MAX_WMEM_SIZE - Size(q), data, outcome) <==> q == [] && outcome.Blocked?
  {
  }

  function Count(b: bool): nat {
    if b then 1 else 0
  }

  lemma BookStep(was: seq<Byte>, added: seq<Byte>, accepted: seq<seq<Byte>>, data: seq<Byte>, taken: bool,
                 misfired: bool, misfires: nat)
    requires BookOk(was, accepted, misfires)
    requires taken ==> added == data && !misfired
    requires !taken ==> (added == [] <==> !misfired)
    ensures BookOk(was + added, accepted + (if taken then [data] else []), misfires + Count(misfired))
  {
    FlattenAppend(accepted, data);
    assert accepted + [] == accepted && was + [] == was;
    if taken {
      assert Flatten(accepted + [data]) == Flatten(accepted) + data;
      if was + data == Flatten(accepted) + data {
        assert was == (was + data)[..|was|];
      }
    }
  }

  /** What a call of io_write with this message does to the stream, and whether the caller is told
      so: `added` are the octets that join the stream, `ret` is the value returned. `before` is the
      octet that stands in memory in front of the message. */
  datatype WriteEffect = WriteEffect(added: seq<Byte>, ret: int)

  function EffectOf(queued: bool, free: int, data: seq<Byte>, before: Byte, outcome: SendOutcome): WriteEffect
    requires outcome.Sent? ==> outcome.n <= |data|
  {
    if queued then
      if data == [] || |data| >= free then WriteEffect([], -1) else WriteEffect(data, 0)
    else
      match outcome
      case Failed => WriteEffect([], -1)
      case Blocked => WriteEffect(if |data| + 1 >= free then [] else [before] + data, -1)
      case Sent(n) =>
        if n == 0 then WriteEffect([], -1)
        else if n == |data| then WriteEffect(data, n)
        else if |data| - n >= free then WriteEffect(data[..n], -1)
        else WriteEffect(data, n)
  }

  /** The octets of a message that go straight to the socket. */
  function SentAtOnce(queued: bool, data: seq<Byte>, outcome: SendOutcome): seq<Byte>
    requires outcome.Sent? ==> outcome.n <= |data|
  {
    if !queued && outcome.Sent? then data[..outcome.n] else []
  }

  /** The calls that change the stream without the caller being told: a direct send that would block
      (the message is then queued behind a stray octet), and one that is taken in part when the rest
      is too large to queue. */
  predicate Misfires(queued: bool, free: int, data: seq<Byte>, outcome: SendOutcome) {
    !queued && ((outcome.Blocked? && |data| + 1 < free)
                || (outcome.Sent? && 0 < outcome.n < |data| && |data| - outcome.n >= free))
  }

}
