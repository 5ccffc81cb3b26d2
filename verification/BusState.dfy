/** The bus as a state machine on values: who is logged in on which connection, who is in which group,
    and what a message or a close does to that (mbus/mbusd.c, mbus/group_manager.c, mbus/user_manager.c). */
module BusState {
  import opened Bytes
  import opened Wrappers
  import opened BusMsg
  import opened TlvCodec
  import Frames

  type Name = s: seq<Byte> | IsName(s)
  type ConnId = nat

  /** A name buffer holds this many octets, the terminating zero included. */
  const NAME_SIZE: nat := 128

  const TYPE_LOGIN_USERNAME: U16 := 7
  const TYPE_CREATE_GROUPNAME: U16 := 8
  const TYPE_JOIN_GROUPNAME: U16 := 9

  const CID_LOGIN: U16 := 259
  const CID_CREATE_GROUP: U16 := 1026
  const CID_JOIN_GROUP: U16 := 1027
  const CID_LEAVE_GROUP: U16 := 1028
  const CID_HEARTBEAT: U16 := 1793

  /** A name as it is copied into a name buffer. */
  function Trunc(n: Name): (r: Name)
    ensures r <= n && |r| == if |n| < 128 then |n| else 127
  {
    if |n| < NAME_SIZE then n else n[..NAME_SIZE - 1]
  }

  /** A call of io_write: octets offered to a connection. */
  datatype Offer = Offer(conn: ConnId, frame: seq<Byte>)

  predicate NoRepeats<T(==)>(s: seq<T>) {
    forall i, j | 0 <= i < j < |s| :: s[i] != s[j]
  }

  lemma NoRepeatsAppend<T>(s: seq<T>, x: T)
    requires NoRepeats(s)
    ensures NoRepeats(s + [x]) <==> x !in s
  {
    if x in s {
      var i :| 0 <= i < |s| && s[i] == x;
      assert (s + [x])[i] == (s + [x])[|s|];
    }
  }

  /** The first place of a name, or the length of the list. */
  function Place(ns: seq<Name>, n: Name): (k: nat)
    ensures k <= |ns| && (k < |ns| <==> n in ns) && (k < |ns| ==> ns[k] == n)
    ensures forall i | 0 <= i < k :: ns[i] != n
  {
    if ns == [] then 0 else if ns[0] == n then 0 else 1 + Place(ns[1..], n)
  }

  lemma FirstPlace(ns: seq<Name>, k: nat, n: Name)
    requires k < |ns| && ns[k] == n && forall i | 0 <= i < k :: ns[i] != n
    ensures Place(ns, n) == k
  {
  }

  /** The list without the first occurrence of a name. */
  function Without(ns: seq<Name>, n: Name): seq<Name> {
    var k := Place(ns, n);
    if k < |ns| then ns[..k] + ns[k + 1..] else ns
  }

  lemma WithoutDistinct(ns: seq<Name>, n: Name)
    requires NoRepeats(ns)
    ensures NoRepeats(Without(ns, n)) && n !in Without(ns, n)
    ensures forall m :: m in Without(ns, n) <==> m in ns && m != n
  {
    if n in ns {
      DropOne(ns, Place(ns, n));
    }
  }

  /** The members after a user has asked to join. */
  function Joined(users: seq<Name>, user: Name): seq<Name> {
    if user in users then users else users + [user]
  }

  /** What a request to register a name adds to the names: the name as it is stored, if it is new. */
  function Added(names: seq<Name>, n: Option<Name>): seq<Name> {
    if n.Some? && n.value !in names then [Trunc(n.value)] else []
  }

  /** The name in a TLV of a body, if there is such a TLV. */
  function NameIn(body: seq<Byte>, t: U16): Option<Name> {
    var v := Lookup(body, t);
    if v.None? then None else CString(v.value)
  }

  /** The body can be read without leaving it, and the TLV's value is a C string. */
  predicate HoldsString(body: seq<Byte>, t: U16) {
    WellFormed(body) && (Lookup(body, t).Some? ==> 0 in Lookup(body, t).value)
  }

  lemma DropOne<T>(s: seq<T>, k: nat)
    requires NoRepeats(s) && k < |s|
    ensures NoRepeats(s[..k] + s[k + 1..])
    ensures forall x :: x in s[..k] + s[k + 1..] <==> x in s && x != s[k]
  {
    var r := s[..k] + s[k + 1..];
    forall x | x in s && x != s[k]
      ensures x in r
    {
      var i :| 0 <= i < |s| && s[i] == x;
      assert r[if i < k then i else i - 1] == x;
    }
  }

  lemma PlaceOfDistinct(ns: seq<Name>, i: nat)
    requires NoRepeats(ns) && i < |ns|
    ensures Place(ns, ns[i]) == i
  {
    assert ns[Place(ns, ns[i])] == ns[i];
  }

  /** What handling a message reads is there: the TLVs and strings that its command looks at. */
  predicate SafeMessage(m: seq<Byte>) {
    && |m| >= HEADER_SIZE
    && var b, cid := Body(m), CommandId(m);
      if cid == CID_LOGIN then HoldsString(b, TYPE_LOGIN_USERNAME)
      else if cid == CID_CREATE_GROUP then HoldsString(b, TYPE_CREATE_GROUPNAME)
      else if cid == CID_JOIN_GROUP then HoldsString(b, TYPE_JOIN_GROUPNAME)
      else if cid == CID_LEAVE_GROUP then 0 in b
      else if cid == CID_GROUP_MSG then
        WellFormed(b) && (Decode(GROUP_FIELDS, b).Some? ==> 0 in Decode(GROUP_FIELDS, b).value.addressee)
      else if cid == CID_PRIVATE_MSG then
        WellFormed(b) && (Lookup(b, 4).Some? && Lookup(b, 6).Some? ==> Lookup(b, 5).Some? && 0 in Lookup(b, 5).value)
      else true
  }

  /** What happens to the daemon: a message of a connection, a connection whose peer has closed it, and a
      connection that the event loop drops, because its buffer is full, without telling the daemon. */
  datatype BusEvent = Msg(conn: ConnId, m: seq<Byte>) | Close(conn: ConnId) | Drop(conn: ConnId)

  /** The user names that connections are logged in under, and the members of the groups. */
  datatype Registry = Registry(logged: map<ConnId, Name>, rooms: map<Name, seq<Name>>)

  /** The name that a message asks to register as a user or as a group, if it is new. */
  function NewUser(s: Registry, m: seq<Byte>): (n: Option<Name>)
    requires |m| >= HEADER_SIZE
    ensures n.Some? ==> n.value !in s.logged.Values
  {
    var n := NameIn(Body(m), TYPE_LOGIN_USERNAME);
    if CommandId(m) == CID_LOGIN && n.Some? && n.value !in s.logged.Values then n else None
  }

  function NewGroup(s: Registry, m: seq<Byte>): (n: Option<Name>)
    requires |m| >= HEADER_SIZE
    ensures n.Some? ==> n.value !in s.rooms
  {
    var n := NameIn(Body(m), TYPE_CREATE_GROUPNAME);
    if CommandId(m) == CID_CREATE_GROUP && n.Some? && n.value !in s.rooms then n else None
  }

  /** The group that a message of a logged-in connection asks to join, or to leave, if there is one. */
  function Joins(s: Registry, c: ConnId, m: seq<Byte>): (n: Option<Name>)
    requires |m| >= HEADER_SIZE
    ensures n.Some? ==> n.value in s.rooms && c in s.logged
  {
    var n := NameIn(Body(m), TYPE_JOIN_GROUPNAME);
    if CommandId(m) == CID_JOIN_GROUP && c in s.logged && n.Some? && n.value in s.rooms then n else None
  }

  function Leaves(s: Registry, c: ConnId, m: seq<Byte>): (n: Option<Name>)
    requires |m| >= HEADER_SIZE
    ensures n.Some? ==> n.value in s.rooms && c in s.logged
  {
    var n := CString(Body(m));
    if CommandId(m) == CID_LEAVE_GROUP && c in s.logged && n.Some? && n.value in s.rooms then n else None
  }

  /** The members of a group after a message. */
  function MembersAfter(s: Registry, c: ConnId, m: seq<Byte>, g: Name): seq<Name>
    requires |m| >= HEADER_SIZE && g in s.rooms
  {
    if Joins(s, c, m) == Some(g) then Joined(s.rooms[g], s.logged[c])
    else if Leaves(s, c, m) == Some(g) then Without(s.rooms[g], s.logged[c])
    else s.rooms[g]
  }

  function Rooms(s: Registry, c: ConnId, m: seq<Byte>): map<Name, seq<Name>>
    requires |m| >= HEADER_SIZE
  {
    var there := map g | g in s.rooms :: MembersAfter(s, c, m, g);
    var n := NewGroup(s, m);
    if n.None? then there else there[Trunc(n.value) := []]
  }

  function Users(s: Registry, c: ConnId, m: seq<Byte>): map<ConnId, Name>
    requires |m| >= HEADER_SIZE
  {
    var n := NewUser(s, m);
    if n.None? then s.logged else s.logged[c := Trunc(n.value)]
  }

  /** One step of the daemon. */
  function Step(s: Registry, e: BusEvent): Registry
    requires e.Msg? ==> |e.m| >= HEADER_SIZE
  {
    match e
    case Msg(c, m) => Registry(Users(s, c, m), Rooms(s, c, m))
    case Close(c) =>
      if c !in s.logged then s
      else Registry(s.logged - {c}, map g | g in s.rooms :: Without(s.rooms[g], s.logged[c]))
    case Drop(c) => Registry(s.logged - {c}, s.rooms)
  }

  /** The event leaves the registry consistent: a login that succeeds is on a connection that is not
      logged in, a name that is registered is new also as it is stored, and a connection that is
      dropped is not logged in. */
  predicate Keeps(s: Registry, e: BusEvent)
    requires e.Msg? ==> |e.m| >= HEADER_SIZE
  {
    match e
    case Msg(c, m) =>
      && (NewUser(s, m).Some? ==> c !in s.logged && Trunc(NewUser(s, m).value) !in s.logged.Values)
      && (NewGroup(s, m).Some? ==> Trunc(NewGroup(s, m).value) !in s.rooms)
    case Close(_) => true
    case Drop(c) => c !in s.logged
  }

  /** Nothing outside a message is read when it is handled. */
  predicate Safe(e: BusEvent) {
    e.Msg? ==> SafeMessage(e.m)
  }

  /** Every event of the run can be handled, and leaves the registry consistent. */
  predicate Orderly(s: Registry, events: seq<BusEvent>)
    decreases |events|
  {
    events != [] ==> Safe(events[0]) && Keeps(s, events[0]) && Orderly(Step(s, events[0]), events[1..])
  }

  predicate AllSafe(events: seq<BusEvent>) {
    events != [] ==> Safe(events[0]) && AllSafe(events[1..])
  }

  /** The registry after a run. */
  function After(s: Registry, events: seq<BusEvent>): Registry
    requires AllSafe(events)
    decreases |events|
  {
    if events == [] then s else After(Step(s, events[0]), events[1..])
  }

  /** Names are logged in once, and members are logged in and distinct. */
  ghost predicate Consistent(s: Registry) {
    && (forall j, k | j in s.logged && k in s.logged && s.logged[j] == s.logged[k] :: j == k)
    && (forall g | g in s.rooms :: NoRepeats(s.rooms[g]) && forall u | u in s.rooms[g] :: u in s.logged.Values)
  }

  // ---------- Where messages go ----------

  /** The connection that is logged in under a name. */
  ghost function ConnOf(logged: map<ConnId, Name>, user: Name): (k: ConnId)
    requires user in logged.Values
    ensures k in logged && logged[k] == user
  {
    var k :| k in logged && logged[k] == user; k
  }

  /** The offers made when a frame is forwarded to a list of members. */
  ghost function SentTo(logged: map<ConnId, Name>, users: seq<Name>, sender: Name, frame: seq<Byte>): seq<Offer> {
    if users == [] then []
    else
      var n := |users| - 1;
      SentTo(logged, users[..n], sender, frame)
      + if users[n] == sender || users[n] !in logged.Values then [] else [Offer(ConnOf(logged, users[n]), frame)]
  }

  /** The offers that an event leads to. */
  ghost function Sent(s: Registry, e: BusEvent): seq<Offer>
    requires e.Msg? ==> |e.m| >= HEADER_SIZE
  {
    if !e.Msg? then []
    else if CommandId(e.m) == CID_HEARTBEAT then [Offer(e.conn, e.m)]
    else if CommandId(e.m) == CID_GROUP_MSG then
      var to := Addressee(GROUP_FIELDS, e.m);
      if e.conn in s.logged && to.Some? && to.value != [] && to.value in s.rooms
      then SentTo(s.logged, s.rooms[to.value], s.logged[e.conn], e.m) else []
    else if CommandId(e.m) == CID_PRIVATE_MSG then
      var to := Addressee(PRIVATE_FIELDS, e.m);
      if e.conn in s.logged && to.Some? && to.value in s.logged.Values
      then [Offer(ConnOf(s.logged, to.value), e.m)] else []
    else []
  }

  /** The name that a complete message is addressed to. */
  function Addressee(f: Fields, m: seq<Byte>): Option<Name>
    requires |m| >= HEADER_SIZE
  {
    var d := Decode(f, Body(m));
    if d.None? then None else CString(d.value.addressee)
  }

  /** The offers that a run leads to. */
  ghost function AllSent(s: Registry, events: seq<BusEvent>): seq<Offer>
    requires AllSafe(events)
    decreases |events|
  {
    if events == [] then [] else Sent(s, events[0]) + AllSent(Step(s, events[0]), events[1..])
  }

  // ---------- What requests do ----------

  /** The name in a request is the name that it was built for. */
  lemma NameInRequest(t: U16, n: Name)
    requires |n| < 65535
    ensures var body := EncodeAll([Leaf(t, n + [0])], MBUS_TYPE_LEN);
      NameIn(body, t) == Some(n) && HoldsString(body, t)
  {
    NameIsFound(t, n);
  }

  lemma NoMembersChange(s: Registry, c: ConnId, m: seq<Byte>)
    requires |m| >= HEADER_SIZE && CommandId(m) != CID_JOIN_GROUP && CommandId(m) != CID_LEAVE_GROUP
    ensures Rooms(s, c, m) ==
      if NewGroup(s, m).None? then s.rooms else s.rooms[Trunc(NewGroup(s, m).value) := []]
  {
    assert s.rooms == map g | g in s.rooms :: MembersAfter(s, c, m, g);
  }

  lemma OneJoins(s: Registry, c: ConnId, m: seq<Byte>)
    requires |m| >= HEADER_SIZE && CommandId(m) == CID_JOIN_GROUP
    ensures Rooms(s, c, m) ==
      var n := Joins(s, c, m);
      if n.None? then s.rooms else s.rooms[n.value := Joined(s.rooms[n.value], s.logged[c])]
  {
    var n := Joins(s, c, m);
    if n.None? {
      assert s.rooms == map g | g in s.rooms :: MembersAfter(s, c, m, g);
    } else {
      assert MembersAfter(s, c, m, n.value) == Joined(s.rooms[n.value], s.logged[c]);
      assert forall g | g in s.rooms && g != n.value :: MembersAfter(s, c, m, g) == s.rooms[g];
    }
  }

  lemma OneLeaves(s: Registry, c: ConnId, m: seq<Byte>)
    requires |m| >= HEADER_SIZE && CommandId(m) == CID_LEAVE_GROUP
    ensures Users(s, c, m) == s.logged
    ensures Rooms(s, c, m) ==
      var n := Leaves(s, c, m);
      if n.None? then s.rooms else s.rooms[n.value := Without(s.rooms[n.value], s.logged[c])]
  {
    var n := Leaves(s, c, m);
    if n.None? {
      assert s.rooms == map g | g in s.rooms :: MembersAfter(s, c, m, g);
    } else {
      assert MembersAfter(s, c, m, n.value) == Without(s.rooms[n.value], s.logged[c]);
      assert forall g | g in s.rooms && g != n.value :: MembersAfter(s, c, m, g) == s.rooms[g];
    }
  }

  lemma RawName(n: Name)
    ensures CString(n + [0]) == Some(n) && 0 in n + [0]
  {
    CStringOfName(n, []);
    assert n + [0] + [] == n + [0] && (n + [0])[|n|] == 0;
  }

  /** A login request that a client builds is one frame that is safe to handle, and logs its connection in
      under its name, as far as that fits a name buffer, unless a user of that name is there. */
  lemma LoginLogsIn(s: Registry, c: ConnId, n: Name)
    requires |n| + 5 + HEADER_SIZE <= 8192
    ensures var m := Request(CID_LOGIN, TYPE_LOGIN_USERNAME, n);
      && Frames.IsFrame(m, PACKER, 8192) && SafeMessage(m)
      && Step(s, Msg(c, m)) ==
        if n in s.logged.Values then s else s.(logged := s.logged[c := if |n| < 128 then n else n[..127]])
  {
    var m := Request(CID_LOGIN, TYPE_LOGIN_USERNAME, n);
    RequestIsFrame(CID_LOGIN, TYPE_LOGIN_USERNAME, n);
    NameInRequest(TYPE_LOGIN_USERNAME, n);
    NoMembersChange(s, c, m);
  }

  /** A request to create a group makes an empty one of that name, unless there is one already. */
  lemma CreateMakesGroup(s: Registry, c: ConnId, n: Name)
    requires |n| + 5 + HEADER_SIZE <= 8192
    ensures var m := Request(CID_CREATE_GROUP, TYPE_CREATE_GROUPNAME, n);
      && Frames.IsFrame(m, PACKER, 8192) && SafeMessage(m)
      && Step(s, Msg(c, m)) ==
        if n in s.rooms then s else s.(rooms := s.rooms[(if |n| < 128 then n else n[..127]) := []])
  {
    var m := Request(CID_CREATE_GROUP, TYPE_CREATE_GROUPNAME, n);
    RequestIsFrame(CID_CREATE_GROUP, TYPE_CREATE_GROUPNAME, n);
    NameInRequest(TYPE_CREATE_GROUPNAME, n);
    NoMembersChange(s, c, m);
  }

  /** A request of a logged-in connection to join a group there is makes its user a member, once, and changes
      nothing else; any other changes nothing. */
  lemma JoinMakesMember(s: Registry, c: ConnId, n: Name)
    requires |n| + 5 + HEADER_SIZE <= 8192
    ensures var m := Request(CID_JOIN_GROUP, TYPE_JOIN_GROUPNAME, n);
      && Frames.IsFrame(m, PACKER, 8192) && SafeMessage(m)
      && Step(s, Msg(c, m)) ==
        if c !in s.logged || n !in s.rooms || s.logged[c] in s.rooms[n] then s
        else s.(rooms := s.rooms[n := s.rooms[n] + [s.logged[c]]])
  {
    var m := Request(CID_JOIN_GROUP, TYPE_JOIN_GROUPNAME, n);
    RequestIsFrame(CID_JOIN_GROUP, TYPE_JOIN_GROUPNAME, n);
    NameInRequest(TYPE_JOIN_GROUPNAME, n);
    OneJoins(s, c, m);
  }

  /** A request of a logged-in connection to leave a group there is ends the membership of its user, and
      changes no other member and no other group. */
  lemma LeaveEndsMembership(s: Registry, c: ConnId, n: Name)
    requires Consistent(s) && |n| + 1 + HEADER_SIZE <= 8192
    ensures var m := Message(CID_LEAVE_GROUP, n + [0]); var s' := Step(s, Msg(c, m));
      && Frames.IsFrame(m, PACKER, 8192) && SafeMessage(m)
      && s'.logged == s.logged && s'.rooms.Keys == s.rooms.Keys
      && (forall g | g in s.rooms && (g != n || c !in s.logged) :: s'.rooms[g] == s.rooms[g])
      && (c in s.logged && n in s.rooms ==>
          forall u :: u in s'.rooms[n] <==> u in s.rooms[n] && u != s.logged[c])
  {
    var m := Message(CID_LEAVE_GROUP, n + [0]);
    MessageIsFrame(CID_LEAVE_GROUP, n + [0], 8192);
    RawName(n);
    OneLeaves(s, c, m);
    if c in s.logged && n in s.rooms {
      WithoutDistinct(s.rooms[n], s.logged[c]);
    }
  }

  /** A heartbeat is echoed to its sender. */
  lemma HeartbeatIsEchoed(s: Registry, c: ConnId, m: seq<Byte>)
    requires |m| >= HEADER_SIZE && CommandId(m) == CID_HEARTBEAT
    ensures Sent(s, Msg(c, m)) == [Offer(c, m)] && Step(s, Msg(c, m)) == s
  {
    NoMembersChange(s, c, m);
  }

  // ---------- What runs keep ----------

  lemma {:induction false} OrderlyIsSafe(s: Registry, events: seq<BusEvent>)
    requires Orderly(s, events)
    ensures AllSafe(events)
    decreases |events|
  {
    if events != [] {
      OrderlyIsSafe(Step(s, events[0]), events[1..]);
    }
  }

  lemma JoinedIsDistinct(users: seq<Name>, user: Name)
    requires NoRepeats(users)
    ensures NoRepeats(Joined(users, user)) && forall u :: u in Joined(users, user) <==> u in users || u == user
  {
    NoRepeatsAppend(users, user);
  }

  lemma LoggedOut(logged: map<ConnId, Name>, c: ConnId)
    requires c in logged && forall j, k | j in logged && k in logged && logged[j] == logged[k] :: j == k
    ensures forall u :: u in (logged - {c}).Values <==> u in logged.Values && u != logged[c]
  {
    var rest := logged - {c};
    forall u | u in logged.Values && u != logged[c]
      ensures u in rest.Values
    {
      var k :| k in logged && logged[k] == u;
      assert k in rest && rest[k] == u;
    }
  }

  /** An event that may happen in an orderly run keeps the registry consistent. */
  lemma StepIsConsistent(s: Registry, e: BusEvent)
    requires Consistent(s) && Safe(e) && Keeps(s, e)
    ensures Consistent(Step(s, e))
  {
    var s' := Step(s, e);
    match e
    case Msg(c, m) =>
      forall u | u in s.logged.Values
        ensures u in s'.logged.Values
      {
        var k :| k in s.logged && s.logged[k] == u;
        assert s'.logged[k] == u;
      }
      forall g | g in s'.rooms
        ensures NoRepeats(s'.rooms[g]) && forall u | u in s'.rooms[g] :: u in s'.logged.Values
      {
        if g in s.rooms {
          RoomIsConsistent(s, c, m, g);
        }
      }
    case Close(c) =>
      if c in s.logged {
        LoggedOut(s.logged, c);
        forall g | g in s.rooms
          ensures NoRepeats(s'.rooms[g]) && forall u | u in s'.rooms[g] :: u in s'.logged.Values
        {
          WithoutDistinct(s.rooms[g], s.logged[c]);
        }
      }
    case Drop(c) =>
      assert s.logged - {c} == s.logged;
  }

  lemma RoomIsConsistent(s: Registry, c: ConnId, m: seq<Byte>, g: Name)
    requires Consistent(s) && |m| >= HEADER_SIZE && g in s.rooms
    ensures NoRepeats(MembersAfter(s, c, m, g)) && forall u | u in MembersAfter(s, c, m, g) :: u in s.logged.Values
  {
    if c in s.logged {
      JoinedIsDistinct(s.rooms[g], s.logged[c]);
      WithoutDistinct(s.rooms[g], s.logged[c]);
    }
  }

  /** Over every orderly run the registry stays consistent. */
  lemma {:induction false} RunIsConsistent(s: Registry, events: seq<BusEvent>)
    requires Consistent(s) && Orderly(s, events)
    ensures AllSafe(events) && Consistent(After(s, events))
    decreases |events|
  {
    OrderlyIsSafe(s, events);
    if events != [] {
      StepIsConsistent(s, events[0]);
      RunIsConsistent(Step(s, events[0]), events[1..]);
    }
  }

  lemma {:induction false} AfterBoth(s: Registry, a: seq<BusEvent>, b: seq<BusEvent>)
    requires AllSafe(a + b)
    ensures AllSafe(a) && AllSafe(b) && After(s, a + b) == After(After(s, a), b)
    decreases |a|
  {
    if a == [] {
      assert a + b == b;
    } else {
      assert (a + b)[1..] == a[1..] + b;
      AfterBoth(Step(s, a[0]), a[1..], b);
    }
  }

  lemma InTurn(a: seq<Offer>, b: seq<Offer>, c: seq<Offer>)
    ensures (a + b) + c == a + (b + c)
  {
  }

  /** One more event is one more step, and its offers come after those of the run. */
  lemma {:induction false} RunGoesOn(s: Registry, events: seq<BusEvent>, e: BusEvent)
    requires AllSafe(events + [e])
    ensures AllSafe(events) && Safe(e) && After(s, events + [e]) == Step(After(s, events), e)
    ensures AllSent(s, events + [e]) == AllSent(s, events) + Sent(After(s, events), e)
    decreases |events|
  {
    if events == [] {
      assert events + [e] == [e] && [e][1..] == [];
    } else {
      var next, rest := Step(s, events[0]), events[1..];
      assert (events + [e])[0] == events[0] && (events + [e])[1..] == rest + [e];
      RunGoesOn(next, rest, e);
      assert AllSent(s, events + [e]) == Sent(s, events[0]) + AllSent(next, rest + [e]);
      InTurn(Sent(s, events[0]), AllSent(next, rest), Sent(After(next, rest), e));
    }
  }

  /** No event of the run is a login request on this connection. */
  predicate NoLoginOn(events: seq<BusEvent>, c: ConnId)
    requires AllSafe(events)
  {
    events != [] ==>
      !(events[0].Msg? && events[0].conn == c && CommandId(events[0].m) == CID_LOGIN) && NoLoginOn(events[1..], c)
  }

  /** No event of the run is a login request under a name that is stored as this one. */
  predicate NoLoginAs(events: seq<BusEvent>, user: Name)
    requires AllSafe(events)
  {
    events != [] ==>
      && (events[0].Msg? && CommandId(events[0].m) == CID_LOGIN ==>
          var n := NameIn(Body(events[0].m), TYPE_LOGIN_USERNAME); n.None? || Trunc(n.value) != user)
      && NoLoginAs(events[1..], user)
  }

  lemma {:induction false} StaysOut(s: Registry, events: seq<BusEvent>, c: ConnId)
    requires AllSafe(events) && NoLoginOn(events, c) && c !in s.logged
    ensures c !in After(s, events).logged
    decreases |events|
  {
    if events != [] {
      StaysOut(Step(s, events[0]), events[1..], c);
    }
  }

  lemma StepStaysGone(s: Registry, e: BusEvent, user: Name)
    requires Safe(e) && user !in s.logged.Values
    requires e.Msg? && CommandId(e.m) == CID_LOGIN ==>
      var n := NameIn(Body(e.m), TYPE_LOGIN_USERNAME); n.None? || Trunc(n.value) != user
    ensures user !in Step(s, e).logged.Values
  {
    var s' := Step(s, e);
    forall k | k in s'.logged
      ensures s'.logged[k] != user
    {
      assert k in s.logged ==> s.logged[k] in s.logged.Values;
    }
  }

  lemma {:induction false} StaysGone(s: Registry, events: seq<BusEvent>, user: Name)
    requires AllSafe(events) && NoLoginAs(events, user) && user !in s.logged.Values
    ensures user !in After(s, events).logged.Values
    decreases |events|
  {
    if events != [] {
      StepStaysGone(s, events[0], user);
      StaysGone(Step(s, events[0]), events[1..], user);
    }
  }

  /** A connection that is closed, and then does not ask to log in again, is not logged in. */
  lemma ClosedIsOut(s: Registry, before: seq<BusEvent>, c: ConnId, later: seq<BusEvent>)
    requires AllSafe(before + ([Close(c)] + later)) && AllSafe(later) && NoLoginOn(later, c)
    ensures c !in After(s, before + ([Close(c)] + later)).logged
  {
    AfterBoth(s, before, [Close(c)] + later);
    var s' := After(s, before);
    assert ([Close(c)] + later)[1..] == later;
    StaysOut(Step(s', Close(c)), later, c);
  }

  /** After an orderly run, a user that was closed, and whose name nobody then asks for, is logged in
      nowhere and is a member of no group. */
  lemma ClosedIsInNoGroup(s: Registry, before: seq<BusEvent>, c: ConnId, later: seq<BusEvent>, user: Name)
    requires Consistent(s) && Orderly(s, before + ([Close(c)] + later))
    requires AllSafe(before) && AllSafe(later) && NoLoginAs(later, user)
    requires c in After(s, before).logged && After(s, before).logged[c] == user
    ensures AllSafe(before + ([Close(c)] + later))
    ensures var end := After(s, before + ([Close(c)] + later));
      user !in end.logged.Values && forall g | g in end.rooms :: user !in end.rooms[g]
  {
    var events := before + ([Close(c)] + later);
    RunIsConsistent(s, events);
    AfterBoth(s, before, [Close(c)] + later);
    OrderlyFront(s, before, [Close(c)] + later);
    var s' := After(s, before);
    RunIsConsistent(s, before);
    assert ([Close(c)] + later)[1..] == later;
    LoggedOut(s'.logged, c);
    StaysGone(Step(s', Close(c)), later, user);
  }

  lemma {:induction false} OrderlyFront(s: Registry, a: seq<BusEvent>, b: seq<BusEvent>)
    requires Orderly(s, a + b)
    ensures Orderly(s, a)
    decreases |a|
  {
    if a != [] {
      assert (a + b)[1..] == a[1..] + b;
      OrderlyFront(Step(s, a[0]), a[1..], b);
    }
  }
}
