/** The message bus daemon: who is logged in, which groups there are, who is in them, and where a
    message goes (mbus/mbusd.c, mbus/user_manager.c, mbus/group_manager.c). */
module Bus {
  import opened Bytes
  import opened TlvCodec
  import opened TlvParser
  import opened Wrappers
  import opened BusMsg
  import opened BusState
  import Frames

  class Client {
    const name: Name
    var io: Option<ConnId>

    constructor (name: Name)
      ensures this.name == Trunc(name) && io == None
    {
      this.name, io := Trunc(name), None;
    }
  }

  class Group {
    const name: Name
    var users: seq<Name>

    constructor (name: Name)
      ensures this.name == Trunc(name) && users == []
    {
      this.name, users := Trunc(name), [];
    }
  }

  function ClientNames(cs: seq<Client>): (ns: seq<Name>)
    ensures |ns| == |cs| && forall i | 0 <= i < |cs| :: ns[i] == cs[i].name
  {
    if cs == [] then [] else [cs[0].name] + ClientNames(cs[1..])
  }

  function GroupNames(gs: seq<Group>): (ns: seq<Name>)
    ensures |ns| == |gs| && forall i | 0 <= i < |gs| :: ns[i] == gs[i].name
  {
    if gs == [] then [] else [gs[0].name] + GroupNames(gs[1..])
  }

  method ReadName(body: seq<Byte>, t: U16) returns (r: Option<Name>)
    requires HoldsString(body, t)
    ensures r == NameIn(body, t)
  {
    var root, overrun, s := ParseObject(body, MBUS_TYPE_LEN, false);
    if root == null {
      return None;
    }
    ParsedAreLeaves(body);
    var v := FindValue(root, t, s);
    if v.None? {
      return None;
    }
    return CString(v.value);
  }

  predicate DistinctClients(cs: seq<Client>) {
    NoRepeats(ClientNames(cs)) && NoRepeats(cs)
  }

  /** Clients and connections point at each other. */
  ghost predicate Paired(cs: seq<Client>, arg: map<ConnId, Client>)
    reads cs`io
  {
    && (forall k | k in arg :: arg[k] in cs && arg[k].io == Some(k))
    && (forall c | c in cs :: c.io.Some? && c.io.value in arg && arg[c.io.value] == c)
  }

  lemma DistinctWithNew(cs: seq<Client>, cli: Client)
    requires DistinctClients(cs) && cli !in cs
    ensures DistinctClients(cs + [cli]) <==> cli.name !in ClientNames(cs)
  {
    assert ClientNames(cs + [cli]) == ClientNames(cs) + [cli.name];
    NoRepeatsAppend(ClientNames(cs), cli.name);
    NoRepeatsAppend(cs, cli);
  }

  lemma PairedWithNew(cs: seq<Client>, arg: map<ConnId, Client>, cli: Client, c: ConnId)
    requires Paired(cs, arg) && cli !in cs && cli.io == Some(c)
    ensures Paired(cs + [cli], arg[c := cli]) <==> c !in arg
  {
    var cs', arg' := cs + [cli], arg[c := cli];
    if c in arg {
      assert arg[c] in cs && arg[c] in cs' && arg'[c] != arg[c];
    } else {
      forall x | x in cs'
        ensures x.io.Some? && x.io.value in arg' && arg'[x.io.value] == x
      {
        assert x in cs || x == cli;
      }
    }
  }

  /** The clients without the first one of a name. */
  function WithoutClient(cs: seq<Client>, name: Name): seq<Client> {
    var k := Place(ClientNames(cs), name);
    if k < |cs| then cs[..k] + cs[k + 1..] else cs
  }

  class Daemon {
    var clients: seq<Client>
    var groups: seq<Group>
    var arg: map<ConnId, Client>    // the client a connection is logged in as
    var offers: seq<Offer>          // the calls of io_write so far

    constructor ()
      ensures clients == [] && groups == [] && arg == map[] && offers == [] && Reg()
    {
      clients, groups, arg, offers := [], [], map[], [];
    }

    ghost predicate UsersOk()
      reads `clients, `arg, clients`io
    {
      DistinctClients(clients) && Paired(clients, arg)
    }

    ghost predicate GroupsOk()
      reads `clients, `groups, groups`users
    {
      && NoRepeats(GroupNames(groups)) && NoRepeats(groups)
      && (forall g | g in groups :: NoRepeats(g.users) && forall m | m in g.users :: m in ClientNames(clients))
    }

    /** The registry is consistent: names are distinct, members are registered clients and distinct,
        and clients and connections point at each other. */
    ghost predicate Reg()
      reads `clients, `groups, `arg, clients`io, groups`users
    {
      UsersOk() && GroupsOk()
    }

    method UserGetByName(name: Name) returns (cli: Client?)
      ensures var k := Place(ClientNames(clients), name); cli == if k < |clients| then clients[k] else null
    {
      ghost var ns := ClientNames(clients);
      for i := 0 to |clients|
        invariant forall j | 0 <= j < i :: ns[j] != name
      {
        if clients[i].name == name {
          FirstPlace(ns, i, name);
          return clients[i];
        }
      }
      return null;
    }

    method UserCreate(name: Name) returns (cli: Client)
      modifies `clients
      ensures fresh(cli) && cli.name == Trunc(name) && cli.io == None && clients == old(clients) + [cli]
    {
      cli := new Client(name);
      clients := clients + [cli];
    }

    method UserDelete(name: Name)
      modifies `clients
      ensures clients == WithoutClient(old(clients), name)
    {
      ghost var ns := ClientNames(clients);
      for i := 0 to |clients|
        invariant clients == old(clients)
        invariant forall j | 0 <= j < i :: ns[j] != name
      {
        if clients[i].name == name {
          FirstPlace(ns, i, name);
          clients := clients[..i] + clients[i + 1..];
          return;
        }
      }
    }

    /** The group of this name, if there is one. */
    ghost function GroupNamed(name: Name): Group?
      reads `groups
    {
      var k := Place(GroupNames(groups), name);
      if k < |groups| then groups[k] else null
    }

    method SearchGroup(name: Name) returns (g: Group?)
      ensures g == GroupNamed(name)
    {
      ghost var ns := GroupNames(groups);
      for i := 0 to |groups|
        invariant forall j | 0 <= j < i :: ns[j] != name
      {
        if groups[i].name == name {
          FirstPlace(ns, i, name);
          return groups[i];
        }
      }
      return null;
    }

    method GroupCreate(name: Name) returns (g: Group)
      modifies `groups
      ensures fresh(g) && g.name == Trunc(name) && g.users == [] && groups == old(groups) + [g]
    {
      g := new Group(name);
      groups := groups + [g];
    }

    /** After a login the users are consistent exactly when the connection was not logged in already
        and the name, as it is stored, was not taken. */
    lemma LoginKeepsUsersIff(clients0: seq<Client>, arg0: map<ConnId, Client>, c: ConnId, cli: Client)
      requires clients == clients0 + [cli] && arg == arg0[c := cli] && cli.io == Some(c) && cli !in clients0
      requires DistinctClients(clients0) && Paired(clients0, arg0)
      ensures UsersOk() <==> c !in arg0 && cli.name !in ClientNames(clients0)
    {
      DistinctWithNew(clients0, cli);
      PairedWithNew(clients0, arg0, cli, c);
    }

    /** Logs a connection in under the name in the body, unless that name is missing or taken. */
    method HandleLogin(c: ConnId, body: seq<Byte>) returns (created: Client?)
      requires HoldsString(body, TYPE_LOGIN_USERNAME)
      modifies `clients, `arg
      ensures var n := NameIn(body, TYPE_LOGIN_USERNAME);
        created != null <==> n.Some? && n.value !in ClientNames(old(clients))
      ensures created == null ==> clients == old(clients) && arg == old(arg)
      ensures created != null ==> fresh(created) && created.name == Trunc(NameIn(body, TYPE_LOGIN_USERNAME).value)
      ensures created != null ==>
        created.io == Some(c) && clients == old(clients) + [created] && arg == old(arg)[c := created]
      ensures ClientNames(clients) ==
        ClientNames(old(clients)) + Added(ClientNames(old(clients)), NameIn(body, TYPE_LOGIN_USERNAME))
      ensures old(GroupsOk()) ==> GroupsOk()
      ensures old(UsersOk()) ==>
        (UsersOk() <==> created == null || (c !in old(arg) && created.name !in ClientNames(old(clients))))
    {
      var n := ReadName(body, TYPE_LOGIN_USERNAME);
      if n.None? {
        return null;
      }
      var cli := UserGetByName(n.value);
      if cli != null {
        return null;
      }
      created := Register(c, n.value);
    }

    /** Creates a client for a connection, and points them at each other. */
    method Register(c: ConnId, name: Name) returns (created: Client)
      modifies `clients, `arg
      ensures fresh(created) && created.name == Trunc(name) && created.io == Some(c)
      ensures clients == old(clients) + [created] && arg == old(arg)[c := created]
      ensures ClientNames(clients) == ClientNames(old(clients)) + [created.name]
      ensures old(GroupsOk()) ==> GroupsOk()
      ensures old(UsersOk()) ==> (UsersOk() <==> c !in old(arg) && created.name !in ClientNames(old(clients)))
    {
      ghost var cs, was := clients, arg;
      ghost var users := UsersOk();
      created := UserCreate(name);
      arg := arg[c := created];
      created.io := Some(c);
      assert ClientNames(clients) == ClientNames(cs) + [created.name];
      if users {
        LoginKeepsUsersIff(cs, was, c, created);
      }
    }

    /** Creates a group, unless its name is missing or taken. */
    method HandleCreateGroup(body: seq<Byte>) returns (created: Group?)
      requires HoldsString(body, TYPE_CREATE_GROUPNAME)
      modifies `groups
      ensures var n := NameIn(body, TYPE_CREATE_GROUPNAME);
        created != null <==> n.Some? && n.value !in GroupNames(old(groups))
      ensures created == null ==> groups == old(groups)
      ensures created != null ==> fresh(created) && created.name == Trunc(NameIn(body, TYPE_CREATE_GROUPNAME).value)
      ensures created != null ==> created.users == [] && groups == old(groups) + [created]
      ensures GroupNames(groups) ==
        GroupNames(old(groups)) + Added(GroupNames(old(groups)), NameIn(body, TYPE_CREATE_GROUPNAME))
      ensures old(GroupsOk()) ==> (GroupsOk() <==> created == null || created.name !in GroupNames(old(groups)))
    {
      var n := ReadName(body, TYPE_CREATE_GROUPNAME);
      if n.None? {
        return null;
      }
      var g := SearchGroup(n.value);
      if g != null {
        return null;
      }
      created := GroupCreate(n.value);
      assert GroupNames(groups) == GroupNames(old(groups)) + [created.name];
      if old(GroupsOk()) {
        NoRepeatsAppend(GroupNames(old(groups)), created.name);
        NoRepeatsAppend(old(groups), created);
      }
    }

    /** Puts a user name into a group, unless it is there already. */
    method JoinGroup(user: Name, name: Name) returns (ret: int)
      modifies groups`users
      ensures var g := GroupNamed(name);
        && (ret == 0 <==> g != null && user !in old(g.users))
        && (ret == 0 ==> g.users == old(g.users) + [user])
        && forall x | x in groups && (ret != 0 || x != g) :: x.users == old(x.users)
      ensures old(GroupsOk()) && user in ClientNames(clients) ==> GroupsOk()
    {
      var g := SearchGroup(name);
      if g == null {
        return -1;
      }
      var k := SearchItem(g, user);
      if k >= 0 {
        return -1;
      }
      g.users := g.users + [user];
      if old(GroupsOk()) {
        NoRepeatsAppend(old(g.users), user);
      }
      return 0;
    }

    method SearchItem(g: Group, user: Name) returns (k: int)
      ensures k == if user in g.users then Place(g.users, user) else -1
    {
      for i := 0 to |g.users|
        invariant forall j | 0 <= j < i :: g.users[j] != user
      {
        if g.users[i] == user {
          return i;
        }
      }
      return -1;
    }

    /** Takes a user name out of a group. */
    method LeaveGroup(user: Name, g: Group) returns (ret: int)
      modifies g`users
      ensures g.users == Without(old(g.users), user) && (ret == 0 <==> user in old(g.users))
    {
      var k := SearchItem(g, user);
      if k < 0 {
        return -1;
      }
      g.users := g.users[..k] + g.users[k + 1..];
      return 0;
    }

    /** The group that a join request of connection c is about, if there is one. */
    ghost function JoinTarget(c: ConnId, body: seq<Byte>): (g: Group?)
      reads `groups, `arg
      ensures g != null ==> c in arg
    {
      var n := NameIn(body, TYPE_JOIN_GROUPNAME);
      if c in arg && n.Some? then GroupNamed(n.value) else null
    }

    ghost function LeaveTarget(c: ConnId, body: seq<Byte>): (g: Group?)
      reads `groups, `arg
      ensures g != null ==> c in arg
    {
      var n := CString(body);
      if c in arg && n.Some? then GroupNamed(n.value) else null
    }

    /** The offers that a group message of connection c leads to. */
    ghost function GroupOffers(c: ConnId, m: seq<Byte>): seq<Offer>
      requires |m| >= HEADER_SIZE
      reads `clients, `groups, `arg, clients`io, groups`users
    {
      var d := Decode(GROUP_FIELDS, Body(m));
      var to := if d.None? then None else CString(d.value.addressee);
      if c in arg && to.Some? && to.value != [] && GroupNamed(to.value) != null
      then Fanout(GroupNamed(to.value).users, arg[c].name, m) else []
    }

    /** The offer that a private message of connection c leads to. */
    ghost function PrivateOffers(c: ConnId, m: seq<Byte>): seq<Offer>
      requires |m| >= HEADER_SIZE
      reads `clients, `arg, clients`io
    {
      var d := Decode(PRIVATE_FIELDS, Body(m));
      var to := if d.None? then None else CString(d.value.addressee);
      var k := if to.None? then |clients| else Place(ClientNames(clients), to.value);
      if c in arg && k < |clients| && clients[k].io.Some? then [Offer(clients[k].io.value, m)] else []
    }

    method HandleJoin(c: ConnId, body: seq<Byte>)
      requires HoldsString(body, TYPE_JOIN_GROUPNAME)
      modifies groups`users
      ensures forall g | g in groups ::
        g.users == if g == JoinTarget(c, body) then Joined(old(g.users), arg[c].name) else old(g.users)
      ensures old(Reg()) ==> Reg()
    {
      if c !in arg {
        return;
      }
      var n := ReadName(body, TYPE_JOIN_GROUPNAME);
      if n.None? {
        return;
      }
      var g := SearchGroup(n.value);
      if g == null {
        return;
      }
      if UsersOk() {
        NameOfClient(clients, arg[c]);
      }
      assert g == JoinTarget(c, body);
      var ret := JoinGroup(arg[c].name, n.value);
    }

    /** The body of a leave request is the group name itself, not a TLV. */
    method HandleLeave(c: ConnId, body: seq<Byte>)
      requires 0 in body
      modifies groups`users
      ensures forall g | g in groups ::
        g.users == if g == LeaveTarget(c, body) then Without(old(g.users), arg[c].name) else old(g.users)
      ensures old(Reg()) ==> Reg()
    {
      if c !in arg {
        return;
      }
      var g := SearchGroup(CString(body).value);
      if g == null {
        return;
      }
      var ret := LeaveGroup(arg[c].name, g);
      if old(Reg()) {
        WithoutDistinct(old(g.users), arg[c].name);
      }
    }

    /** Takes a user name out of every group. */
    method LeaveAllGroups(user: Name)
      requires NoRepeats(groups)
      modifies groups`users
      ensures forall g | g in groups :: g.users == Without(old(g.users), user)
    {
      for i := 0 to |groups|
        invariant forall j | 0 <= j < i :: groups[j].users == Without(old(groups[j].users), user)
        invariant forall j | i <= j < |groups| :: groups[j].users == old(groups[j].users)
      {
        var ret := LeaveGroup(user, groups[i]);
      }
    }

    /** Takes the user of a connection off the registry. */
    method DropClient(c: ConnId)
      requires c in arg
      modifies `clients
      ensures clients == WithoutClient(old(clients), arg[c].name)
      ensures old(UsersOk()) ==> DistinctClients(clients) && Paired(clients, arg - {c})
      ensures old(UsersOk()) ==>
        forall n :: n in ClientNames(clients) <==> n in ClientNames(old(clients)) && n != arg[c].name
    {
      ghost var cs := clients;
      ghost var users := UsersOk();
      UserDelete(arg[c].name);
      if users {
        ClientAt(cs, arg[c]);
        CloseKeepsUsers(cs, arg, c, Place(ClientNames(cs), arg[c].name));
      }
    }

    /** The members of every group. */
    ghost function Members(): (m: map<Group, seq<Name>>)
      reads `groups, groups`users
      ensures forall g | g in groups :: g in m && m[g] == g.users
    {
      map g | g in groups :: g.users
    }

    /** The groups are in order when one user, who was taken off the registry, has left them all. */
    lemma GroupsWithout(cs: seq<Client>, was: map<Group, seq<Name>>, user: Name)
      requires NoRepeats(GroupNames(groups)) && NoRepeats(groups)
      requires forall g | g in groups :: g in was && g.users == Without(was[g], user)
      requires forall g | g in groups :: NoRepeats(was[g]) && forall m | m in was[g] :: m in ClientNames(cs)
      requires forall n :: n in ClientNames(clients) <==> n in ClientNames(cs) && n != user
      ensures GroupsOk() && forall g | g in groups :: user !in g.users
    {
      forall g | g in groups
        ensures NoRepeats(g.users) && user !in g.users && forall m | m in g.users :: m in ClientNames(clients)
      {
        WithoutDistinct(was[g], user);
      }
    }

    /** Removes the user of a connection: the rest stays in order. */
    method Withdraw(c: ConnId)
      requires NoRepeats(groups) && c in arg
      modifies `clients, groups`users
      ensures clients == WithoutClient(old(clients), arg[c].name)
      ensures forall g | g in groups :: g.users == Without(old(g.users), arg[c].name)
      ensures old(Reg()) ==> DistinctClients(clients) && Paired(clients, arg - {c}) && GroupsOk()
      ensures old(Reg()) ==>
        forall n :: n in ClientNames(clients) <==> n in ClientNames(old(clients)) && n != arg[c].name
      ensures old(Reg()) ==> forall g | g in groups :: arg[c].name !in g.users
    {
      ghost var cs, was := clients, Members();
      LeaveAllGroups(arg[c].name);
      DropClient(c);
      if old(Reg()) {
        GroupsWithout(cs, was, arg[c].name);
      }
    }

    /** Connection c is gone: its user leaves all groups and the registry, which is consistent afterwards if
        it was before. The record of the connection is zeroed then, which logs it out. */
    method HandleClose(c: ConnId)
      requires NoRepeats(groups)
      modifies `clients, `arg, groups`users
      ensures arg == old(arg) - {c}
      ensures c in old(arg) ==> var name := old(arg)[c].name;
        clients == WithoutClient(old(clients), name) && forall g | g in groups :: g.users == Without(old(g.users), name)
      ensures c !in old(arg) ==> clients == old(clients) && forall g | g in groups :: g.users == old(g.users)
      ensures old(Reg()) ==> Reg()
      ensures old(Reg()) && c in old(arg) ==> var name := old(arg)[c].name;
        && (forall n :: n in ClientNames(clients) <==> n in ClientNames(old(clients)) && n != name)
        && (forall g | g in groups :: name !in g.users)
    {
      if c in arg {
        Withdraw(c);
      }
      arg := arg - {c};
    }

    /** The offers made to one member: none to the sender, one on the connection of any other. */
    ghost function OffersTo(member: Name, sender: Name, frame: seq<Byte>): seq<Offer>
      reads `clients, clients`io
    {
      var k := Place(ClientNames(clients), member);
      if member == sender || k == |clients| || clients[k].io.None? then [] else [Offer(clients[k].io.value, frame)]
    }

    /** The offers made when a frame is forwarded to a list of members. */
    ghost function Fanout(users: seq<Name>, sender: Name, frame: seq<Byte>): seq<Offer>
      reads `clients, clients`io
    {
      if users == [] then [] else
        Fanout(users[..|users| - 1], sender, frame) + OffersTo(users[|users| - 1], sender, frame)
    }

    /** A frame forwarded to the members of a group is offered exactly once to each connection that is
        logged in as a member other than the sender, unchanged, and to no other connection. */
    lemma {:induction false} OfferedOnceEach(users: seq<Name>, sender: Name, frame: seq<Byte>)
      requires UsersOk() && NoRepeats(users) && forall m | m in users :: m in ClientNames(clients)
      ensures NoRepeats(Fanout(users, sender, frame))
      ensures forall k: ConnId, f :: Offer(k, f) in Fanout(users, sender, frame) <==>
        f == frame && k in arg && arg[k].name in users && arg[k].name != sender
      decreases |users|
    {
      if users != [] {
        var n := |users| - 1;
        var m, front := users[n], users[..n];
        assert users == front + [m];
        OfferedOnceEach(front, sender, frame);
        MemberOffer(m, sender, frame);
        if m != sender {
          NoRepeatsAppend(Fanout(front, sender, frame), OffersTo(m, sender, frame)[0]);
        }
      }
    }

    /** A registered member other than the sender gets one offer, on the one connection logged in
        under its name. */
    lemma MemberOffer(m: Name, sender: Name, frame: seq<Byte>)
      requires UsersOk() && m in ClientNames(clients)
      ensures m == sender ==> OffersTo(m, sender, frame) == []
      ensures m != sender ==> |OffersTo(m, sender, frame)| == 1 && OffersTo(m, sender, frame)[0].frame == frame
      ensures m != sender ==>
        forall k: ConnId :: OffersTo(m, sender, frame)[0].conn == k <==> k in arg && arg[k].name == m
    {
      ConnectionOf(m);
    }

    /** A group message as a client builds it: nothing happens when its payload or group name is empty or
        the group does not exist; otherwise the frame is offered, unchanged, exactly once on the
        connection of every member but the sender, and on no other connection. */
    lemma GroupDelivery(c: ConnId, sender: Name, group: Name, payload: seq<Byte>)
      requires Reg() && c in arg
      requires BodySize(sender, group, payload) + HEADER_SIZE <= 8192
      ensures var m := Built(CID_GROUP_MSG, GROUP_FIELDS, sender, group, payload);
        var g := GroupNamed(group);
        if payload == [] || group == [] || g == null then GroupOffers(c, m) == []
        else
          && NoRepeats(GroupOffers(c, m))
          && forall k: ConnId, f :: Offer(k, f) in GroupOffers(c, m) <==>
               f == m && k in arg && arg[k].name in g.users && arg[k].name != arg[c].name
    {
      var body := EncodeAll(FieldTlvs(GROUP_FIELDS, sender, group, payload), MBUS_TYPE_LEN);
      BuiltIsWholeIff(GROUP_FIELDS, sender, group, payload);
      MessageIsFrame(CID_GROUP_MSG, body, 8192);
      DecodeEncoded(GROUP_FIELDS, sender, group, payload);
      CStringOfName(group, []);
      assert group + [0] + [] == group + [0];
      var g := GroupNamed(group);
      if g != null {
        assert g in groups;
        OfferedOnceEach(g.users, arg[c].name, Message(CID_GROUP_MSG, body));
      }
    }

    /** A private message as a client builds it: nothing happens when its payload is empty or nobody of that
        name is registered; otherwise the frame is offered, unchanged, exactly once, on the one connection
        that is logged in under that name. */
    lemma PrivateDelivery(c: ConnId, sender: Name, user: Name, payload: seq<Byte>)
      requires Reg() && c in arg
      requires BodySize(sender, user, payload) + HEADER_SIZE <= 8192
      ensures var m := Built(CID_PRIVATE_MSG, PRIVATE_FIELDS, sender, user, payload);
        if payload == [] || user !in ClientNames(clients) then PrivateOffers(c, m) == []
        else
          && |PrivateOffers(c, m)| == 1 && PrivateOffers(c, m)[0].frame == m
          && forall k: ConnId :: PrivateOffers(c, m)[0].conn == k <==> k in arg && arg[k].name == user
    {
      var body := EncodeAll(FieldTlvs(PRIVATE_FIELDS, sender, user, payload), MBUS_TYPE_LEN);
      BuiltIsWholeIff(PRIVATE_FIELDS, sender, user, payload);
      MessageIsFrame(CID_PRIVATE_MSG, body, 8192);
      DecodeEncoded(PRIVATE_FIELDS, sender, user, payload);
      CStringOfName(user, []);
      assert user + [0] + [] == user + [0];
      if user in ClientNames(clients) {
        ConnectionOf(user);
      }
    }

    /** A registered user is logged in on one connection. */
    lemma ConnectionOf(user: Name)
      requires UsersOk() && user in ClientNames(clients)
      ensures var cli := clients[Place(ClientNames(clients), user)];
        cli.io.Some? && forall k: ConnId :: cli.io.value == k <==> k in arg && arg[k].name == user
    {
      var i := Place(ClientNames(clients), user);
      assert clients[i] in clients;
      forall k | k in arg && arg[k].name == user
        ensures arg[k] == clients[i]
      {
        ClientAt(clients, arg[k]);
      }
    }

    /** Offers a frame to one member of a group. */
    method ForwardTo(member: Name, sender: Name, frame: seq<Byte>)
      modifies `offers
      ensures offers == old(offers) + OffersTo(member, sender, frame)
    {
      if member == sender {
        return;
      }
      var cli := UserGetByName(member);
      if cli != null {
        SendToUser(cli, frame);
      }
    }

    method SendToUser(cli: Client, frame: seq<Byte>)
      modifies `offers
      ensures offers == old(offers) + (if cli.io.None? then [] else [Offer(cli.io.value, frame)])
    {
      if cli.io.None? {
        return;
      }
      offers := offers + [Offer(cli.io.value, frame)];
    }

    lemma FanoutStep(users: seq<Name>, i: nat, sender: Name, frame: seq<Byte>)
      requires i < |users|
      ensures Fanout(users[..i + 1], sender, frame) ==
        Fanout(users[..i], sender, frame) + OffersTo(users[i], sender, frame)
    {
      assert users[..i + 1][..i] == users[..i];
    }

    method ForwardInGroup(group: Group, sender: Name, frame: seq<Byte>)
      requires GroupNamed(group.name) == group
      modifies `offers
      ensures offers == old(offers) + Fanout(group.users, sender, frame)
    {
      var g := SearchGroup(group.name);
      ForwardToAll(g.users, sender, frame);
    }

    method ForwardToAll(users: seq<Name>, sender: Name, frame: seq<Byte>)
      modifies `offers
      ensures offers == old(offers) + Fanout(users, sender, frame)
    {
      for i := 0 to |users|
        invariant offers == old(offers) + Fanout(users[..i], sender, frame)
      {
        FanoutStep(users, i, sender, frame);
        InTurn(old(offers), Fanout(users[..i], sender, frame), OffersTo(users[i], sender, frame));
        ForwardTo(users[i], sender, frame);
      }
      assert users[..|users|] == users;
    }

    /** A group message goes to the members of the group it names, when it is complete, the sender's
        connection is logged in and the group exists. */
    method HandleGroupMsg(c: ConnId, m: seq<Byte>)
      requires |m| >= HEADER_SIZE && WellFormed(Body(m))
      requires Decode(GROUP_FIELDS, Body(m)).Some? ==> 0 in Decode(GROUP_FIELDS, Body(m)).value.addressee
      modifies `offers
      ensures offers == old(offers) + GroupOffers(c, m)
    {
      if c !in arg {
        return;
      }
      var d := HandleMessage(GROUP_FIELDS, m[HEADER_SIZE..]);
      if d.None? {
        return;
      }
      var to := CString(d.value.addressee).value;
      if to == [] {
        return;
      }
      var group := SearchGroup(to);
      if group == null {
        return;
      }
      ForwardInGroup(group, arg[c].name, m);
    }

    /** A private message goes to the user it names. */
    method HandlePrivateMsg(c: ConnId, m: seq<Byte>)
      requires |m| >= HEADER_SIZE && WellFormed(Body(m))
      requires var b := Body(m);
        Lookup(b, 4).Some? && Lookup(b, 6).Some? ==> Lookup(b, 5).Some? && 0 in Lookup(b, 5).value
      modifies `offers
      ensures offers == old(offers) + PrivateOffers(c, m)
    {
      if c !in arg {
        return;
      }
      var d := HandleMessage(PRIVATE_FIELDS, m[HEADER_SIZE..]);
      if d.None? {
        return;
      }
      var peer := UserGetByName(CString(d.value.addressee).value);
      if peer == null {
        return;
      }
      SendToUser(peer, m);
    }

    /** The offers that a message of connection c leads to. */
    ghost function OffersOf(c: ConnId, m: seq<Byte>): seq<Offer>
      requires |m| >= HEADER_SIZE
      reads `clients, `groups, `arg, clients`io, groups`users
    {
      if CommandId(m) == CID_HEARTBEAT then [Offer(c, m)]
      else if CommandId(m) == CID_GROUP_MSG then GroupOffers(c, m)
      else if CommandId(m) == CID_PRIVATE_MSG then PrivateOffers(c, m)
      else []
    }

    /** The commands that only send something on. */
    method PassOn(c: ConnId, m: seq<Byte>)
      requires SafeMessage(m)
      modifies `offers
      ensures offers == old(offers) + OffersOf(c, m)
    {
      var cid := CommandId(m);
      if cid == CID_HEARTBEAT {
        offers := offers + [Offer(c, m)];
      } else if cid == CID_GROUP_MSG {
        HandleGroupMsg(c, m);
      } else if cid == CID_PRIVATE_MSG {
        HandlePrivateMsg(c, m);
      }
    }

    /** What the message registers keeps the registry consistent: a login that succeeds is on a connection
        that is not logged in, and the name is new also as it is stored. */
    ghost predicate RegistersWell(c: ConnId, m: seq<Byte>)
      requires |m| >= HEADER_SIZE
      reads `clients, `groups, `arg
    {
      && (CommandId(m) == CID_LOGIN ==>
          var n := NameIn(Body(m), TYPE_LOGIN_USERNAME);
          n.Some? && n.value !in ClientNames(clients) ==> c !in arg && Trunc(n.value) !in ClientNames(clients))
      && (CommandId(m) == CID_CREATE_GROUP ==>
          var n := NameIn(Body(m), TYPE_CREATE_GROUPNAME);
          n.Some? && n.value !in GroupNames(groups) ==> Trunc(n.value) !in GroupNames(groups))
    }

    /** Serves one message of a connection. */
    method HandleMsg(c: ConnId, m: seq<Byte>)
      requires SafeMessage(m)
      modifies `clients, `groups, `arg, `offers, groups`users
      ensures old(groups) <= groups
      ensures forall j | |old(groups)| <= j < |groups| :: fresh(groups[j]) && groups[j].users == []
      ensures ClientNames(clients) == ClientNames(old(clients)) +
        if CommandId(m) == CID_LOGIN then Added(ClientNames(old(clients)), NameIn(Body(m), TYPE_LOGIN_USERNAME)) else []
      ensures GroupNames(groups) == GroupNames(old(groups)) +
        if CommandId(m) == CID_CREATE_GROUP
        then Added(GroupNames(old(groups)), NameIn(Body(m), TYPE_CREATE_GROUPNAME)) else []
      ensures forall g | g in old(groups) ::
        g.users ==
          if CommandId(m) == CID_JOIN_GROUP && g == old(JoinTarget(c, Body(m)))
          then Joined(old(g.users), old(arg)[c].name)
          else if CommandId(m) == CID_LEAVE_GROUP && g == old(LeaveTarget(c, Body(m)))
          then Without(old(g.users), old(arg)[c].name)
          else old(g.users)
      ensures offers == old(offers) + old(OffersOf(c, m))
      ensures |clients| == |old(clients)| ==> clients == old(clients) && arg == old(arg)
      ensures |clients| > |old(clients)| ==>
        && clients == old(clients) + [clients[|old(clients)|]]
        && arg == old(arg)[c := clients[|old(clients)|]] && clients[|old(clients)|].io == Some(c)
      ensures arg.Keys <= old(arg.Keys) + (if CommandId(m) == CID_LOGIN then {c} else {})
      ensures old(Reg()) ==> (Reg() <==> old(RegistersWell(c, m)))
    {
      var body := m[HEADER_SIZE..];
      var cid := CommandId(m);
      if cid == CID_LOGIN {
        var cli := HandleLogin(c, body);
      } else if cid == CID_CREATE_GROUP {
        var g := HandleCreateGroup(body);
      } else if cid == CID_JOIN_GROUP {
        HandleJoin(c, body);
      } else if cid == CID_LEAVE_GROUP {
        HandleLeave(c, body);
      } else {
        PassOn(c, m);
      }
    }

    /** The event loop drops a connection whose buffer is full: its record is zeroed, and the daemon is not
        told. */
    method HandleDrop(c: ConnId)
      modifies `arg
      ensures arg == old(arg) - {c}
      ensures old(Reg()) ==> (Reg() <==> c !in old(arg))
    {
      if c in arg && Reg() {
        assert arg[c] in clients && arg[c].io == Some(c);
      }
      arg := arg - {c};
    }

    /** The registry on values: each connection's login name, and each group's members. */
    ghost predicate Shows(s: Registry)
      reads `groups, `arg, groups`users
    {
      && LoginsAre(s.logged, arg)
      && (forall n | n in s.rooms :: n in GroupNames(groups))
      && (forall g | g in groups :: g.name in s.rooms && s.rooms[g.name] == g.users)
    }

    lemma NamesMatch(s: Registry)
      requires UsersOk() && Shows(s)
      ensures forall n :: n in ClientNames(clients) <==> n in s.logged.Values
    {
      forall n | n in ClientNames(clients)
        ensures n in s.logged.Values
      {
        var cli := clients[Place(ClientNames(clients), n)];
        assert cli in clients && s.logged[cli.io.value] == n;
      }
      forall n | n in s.logged.Values
        ensures n in ClientNames(clients)
      {
        var k :| k in s.logged && s.logged[k] == n;
        NameOfClient(clients, arg[k]);
      }
    }

    /** A consistent registry is consistent on values. */
    lemma RegIsConsistent(s: Registry)
      requires Reg() && Shows(s)
      ensures Consistent(s)
    {
      NamesMatch(s);
      forall j, k | j in arg && k in arg && arg[j].name == arg[k].name
        ensures j == k
      {
        ClientAt(clients, arg[j]);
        ClientAt(clients, arg[k]);
      }
      forall n | n in s.rooms
        ensures NoRepeats(s.rooms[n]) && forall u | u in s.rooms[n] :: u in s.logged.Values
      {
        RoomMatches(s, n);
      }
    }

    /** A logged-in user has one connection, and a message for it is offered there. */
    lemma OffersToMatch(s: Registry, member: Name)
      requires Reg() && Shows(s) && member in ClientNames(clients)
      ensures member in s.logged.Values
      ensures var i := Place(ClientNames(clients), member); clients[i].io == Some(ConnOf(s.logged, member))
    {
      NamesMatch(s);
      var i, k := Place(ClientNames(clients), member), ConnOf(s.logged, member);
      ClientAt(clients, arg[k]);
      assert clients[i] in clients;
    }

    lemma {:induction false} FanoutMatches(s: Registry, users: seq<Name>, sender: Name, frame: seq<Byte>)
      requires Reg() && Shows(s)
      ensures Fanout(users, sender, frame) == SentTo(s.logged, users, sender, frame)
      decreases |users|
    {
      if users != [] {
        var n := |users| - 1;
        FanoutMatches(s, users[..n], sender, frame);
        NamesMatch(s);
        if users[n] in ClientNames(clients) {
          OffersToMatch(s, users[n]);
        }
      }
    }

    lemma RoomMatches(s: Registry, name: Name)
      requires Shows(s)
      ensures name in s.rooms <==> GroupNamed(name) != null
      ensures name in s.rooms ==> GroupNamed(name) in groups && s.rooms[name] == GroupNamed(name).users
    {
      var k := Place(GroupNames(groups), name);
      if k < |groups| {
        assert groups[k] in groups && groups[k].name == name;
      }
    }

    lemma GroupOffersMatch(s: Registry, c: ConnId, m: seq<Byte>)
      requires Reg() && Shows(s) && |m| >= HEADER_SIZE && CommandId(m) == CID_GROUP_MSG
      ensures GroupOffers(c, m) == Sent(s, Msg(c, m))
    {
      var to := Addressee(GROUP_FIELDS, m);
      if c in arg && to.Some? {
        RoomMatches(s, to.value);
        if GroupNamed(to.value) != null {
          FanoutMatches(s, GroupNamed(to.value).users, arg[c].name, m);
        }
      }
    }

    lemma PrivateOffersMatch(s: Registry, c: ConnId, m: seq<Byte>)
      requires Reg() && Shows(s) && |m| >= HEADER_SIZE && CommandId(m) == CID_PRIVATE_MSG
      ensures PrivateOffers(c, m) == Sent(s, Msg(c, m))
    {
      var to := Addressee(PRIVATE_FIELDS, m);
      NamesMatch(s);
      if to.Some? && to.value in ClientNames(clients) {
        OffersToMatch(s, to.value);
      }
    }

    /** The offers that a message leads to are those of the registry on values. */
    lemma OffersMatch(s: Registry, c: ConnId, m: seq<Byte>)
      requires Reg() && Shows(s) && |m| >= HEADER_SIZE
      ensures OffersOf(c, m) == Sent(s, Msg(c, m))
    {
      if CommandId(m) == CID_GROUP_MSG {
        GroupOffersMatch(s, c, m);
      } else if CommandId(m) == CID_PRIVATE_MSG {
        PrivateOffersMatch(s, c, m);
      }
    }

    /** With distinct names, a group is found under its own name only. */
    lemma FoundByName(g: Group, n: Name)
      requires g in groups && NoRepeats(GroupNames(groups))
      ensures GroupNamed(n) == g <==> n == g.name
    {
      var i :| 0 <= i < |groups| && groups[i] == g;
      PlaceOfDistinct(GroupNames(groups), i);
    }

    lemma JoinsMatch(s: Registry, c: ConnId, m: seq<Byte>, g: Group)
      requires Shows(s) && NoRepeats(GroupNames(groups)) && |m| >= HEADER_SIZE && g in groups
      ensures Joins(s, c, m) == Some(g.name) <==> CommandId(m) == CID_JOIN_GROUP && g == JoinTarget(c, Body(m))
    {
      var n := NameIn(Body(m), TYPE_JOIN_GROUPNAME);
      if n.Some? {
        FoundByName(g, n.value);
      }
    }

    lemma LeavesMatch(s: Registry, c: ConnId, m: seq<Byte>, g: Group)
      requires Shows(s) && NoRepeats(GroupNames(groups)) && |m| >= HEADER_SIZE && g in groups
      ensures Leaves(s, c, m) == Some(g.name) <==> CommandId(m) == CID_LEAVE_GROUP && g == LeaveTarget(c, Body(m))
    {
      var n := CString(Body(m));
      if n.Some? {
        FoundByName(g, n.value);
      }
    }

    /** A message changes the members of a group as the registry on values says. */
    lemma MembersMatch(s: Registry, c: ConnId, m: seq<Byte>, g: Group)
      requires Shows(s) && NoRepeats(GroupNames(groups)) && |m| >= HEADER_SIZE && g in groups
      ensures g.name in s.rooms
      ensures MembersAfter(s, c, m, g.name) ==
        if CommandId(m) == CID_JOIN_GROUP && g == JoinTarget(c, Body(m)) then Joined(g.users, arg[c].name)
        else if CommandId(m) == CID_LEAVE_GROUP && g == LeaveTarget(c, Body(m)) then Without(g.users, arg[c].name)
        else g.users
    {
      JoinsMatch(s, c, m, g);
      LeavesMatch(s, c, m, g);
    }

    /** After a message the groups are those of the registry on values after its step. */
    lemma RoomsMatch(s: Registry, gs: seq<Group>, c: ConnId, m: seq<Byte>)
      requires |m| >= HEADER_SIZE && NoRepeats(GroupNames(groups)) && gs <= groups
      requires GroupNames(groups) == GroupNames(gs) +
        if CommandId(m) == CID_CREATE_GROUP then Added(GroupNames(gs), NameIn(Body(m), TYPE_CREATE_GROUPNAME)) else []
      requires forall n :: n in s.rooms <==> n in GroupNames(gs)
      requires forall g | g in gs :: g.name in s.rooms && g.users == MembersAfter(s, c, m, g.name)
      requires forall j | |gs| <= j < |groups| :: groups[j].users == []
      ensures forall n | n in Rooms(s, c, m) :: n in GroupNames(groups)
      ensures forall g | g in groups :: g.name in Rooms(s, c, m) && Rooms(s, c, m)[g.name] == g.users
    {
      var names, all := GroupNames(gs), GroupNames(groups);
      var asked := NewGroup(s, m);
      assert all == names + if asked.Some? then [Trunc(asked.value)] else [];
      assert asked.Some? ==> all[|names|] == Trunc(asked.value);
      forall g | g in groups
        ensures g.name in Rooms(s, c, m) && Rooms(s, c, m)[g.name] == g.users
      {
        var i :| 0 <= i < |groups| && groups[i] == g;
        assert all[i] == g.name;
        if i < |gs| {
          assert gs[i] == g && g in gs;
        }
      }
    }

    /** After a message the logins are those of the registry on values after its step. */
    lemma LoginsMatch(s: Registry, clients0: seq<Client>, arg0: map<ConnId, Client>, c: ConnId, m: seq<Byte>)
      requires |m| >= HEADER_SIZE && LoginsAre(s.logged, arg0)
      requires forall n :: n in ClientNames(clients0) <==> n in s.logged.Values
      requires ClientNames(clients) == ClientNames(clients0) +
        if CommandId(m) == CID_LOGIN then Added(ClientNames(clients0), NameIn(Body(m), TYPE_LOGIN_USERNAME)) else []
      requires |clients| == |clients0| ==> arg == arg0
      requires |clients| > |clients0| ==> arg == arg0[c := clients[|clients0|]]
      ensures LoginsAre(Users(s, c, m), arg)
    {
      var names, n := ClientNames(clients0), NameIn(Body(m), TYPE_LOGIN_USERNAME);
      if CommandId(m) == CID_LOGIN && n.Some? && n.value !in names {
        NamesGrow(clients, names, [Trunc(n.value)]);
        LoginAdded(s.logged, arg0, c, clients[|names|], Trunc(n.value));
      } else {
        NamesGrow(clients, names, []);
      }
    }

    /** Serves a message: a step of the registry on values s. The registry stays consistent exactly when
        the step is one that keeps it so. */
    method ServeMsg(c: ConnId, m: seq<Byte>, ghost s: Registry)
      requires Reg() && Shows(s) && SafeMessage(m)
      modifies `clients, `groups, `arg, `offers, groups`users
      ensures old(groups) <= groups && forall j | |old(groups)| <= j < |groups| :: fresh(groups[j])
      ensures Reg() <==> Keeps(s, Msg(c, m))
      ensures Reg() ==> Shows(Step(s, Msg(c, m)))
      ensures offers == old(offers) + Sent(s, Msg(c, m))
    {
      ghost var gs := groups;
      KeepsMatches(s, c, m);
      OffersMatch(s, c, m);
      NamesMatch(s);
      GroupsMatch(s);
      forall g | g in groups
        ensures MembersAfter(s, c, m, g.name) ==
          if CommandId(m) == CID_JOIN_GROUP && g == JoinTarget(c, Body(m)) then Joined(g.users, arg[c].name)
          else if CommandId(m) == CID_LEAVE_GROUP && g == LeaveTarget(c, Body(m)) then Without(g.users, arg[c].name)
          else g.users
      {
        MembersMatch(s, c, m, g);
      }
      HandleMsg(c, m);
      if Reg() {
        RoomsMatch(s, gs, c, m);
        LoginsMatch(s, old(clients), old(arg), c, m);
      }
    }

    lemma GroupsMatch(s: Registry)
      requires Shows(s)
      ensures forall n :: n in s.rooms <==> n in GroupNames(groups)
    {
      forall n
        ensures n in s.rooms <==> n in GroupNames(groups)
      {
        RoomMatches(s, n);
      }
    }

    /** Serves one event, as a step of the registry on values. */
    method Serve(e: BusEvent, ghost s: Registry)
      requires Reg() && Shows(s) && Safe(e)
      modifies `clients, `groups, `arg, `offers, groups`users
      ensures old(groups) <= groups && forall j | |old(groups)| <= j < |groups| :: fresh(groups[j])
      ensures Reg() <==> Keeps(s, e)
      ensures Reg() ==> Shows(Step(s, e))
      ensures offers == old(offers) + Sent(s, e)
    {
      NothingSent(offers);
      match e
      case Msg(c, m) =>
        ServeMsg(c, m, s);
      case Close(c) =>
        ServeClose(c, s);
      case Drop(c) =>
        ServeDrop(c, s);
    }

    method ServeDrop(c: ConnId, ghost s: Registry)
      requires Reg() && Shows(s)
      modifies `arg
      ensures Reg() <==> Keeps(s, Drop(c))
      ensures Reg() ==> Shows(Step(s, Drop(c)))
    {
      HandleDrop(c);
    }

    method ServeClose(c: ConnId, ghost s: Registry)
      requires Reg() && Shows(s)
      modifies `clients, `arg, groups`users
      ensures Reg() && Shows(Step(s, Close(c)))
    {
      assert forall g | g in groups :: s.rooms[g.name] == g.users;
      HandleClose(c);
    }

    /** Serves an event that keeps the registry consistent. */
    method ServeKept(e: BusEvent, ghost s: Registry)
      requires Reg() && Shows(s) && Safe(e) && Keeps(s, e)
      modifies `clients, `groups, `arg, `offers, groups`users
      ensures Reg() && Shows(Step(s, e)) && offers == old(offers) + Sent(s, e)
      ensures forall g | g in groups :: g in old(groups) || fresh(g)
    {
      Serve(e, s);
    }

    /** Over every interleaving of messages, closes and drops that keeps the registry consistent step by
        step: it is consistent at the end, shows the users and groups that the events lead to, and the
        offers made are those that they lead to. */
    method Run(events: seq<BusEvent>, ghost s: Registry)
      requires Reg() && Shows(s) && Orderly(s, events)
      modifies `clients, `groups, `arg, `offers, groups`users
      decreases |events|
      ensures AllSafe(events)
      ensures Reg() && Shows(After(s, events))
      ensures offers == old(offers) + AllSent(s, events)
    {
      if events == [] {
        NothingSent(offers);
      } else {
        ghost var next := Step(s, events[0]);
        RunUnfolds(s, events, offers);
        ServeKept(events[0], s);
        Run(events[1..], next);
      }
    }

    lemma KeepsMatches(s: Registry, c: ConnId, m: seq<Byte>)
      requires Reg() && Shows(s) && |m| >= HEADER_SIZE
      ensures RegistersWell(c, m) <==> Keeps(s, Msg(c, m))
    {
      NamesMatch(s);
      forall n
        ensures n in s.rooms <==> n in GroupNames(groups)
      {
        RoomMatches(s, n);
      }
    }
  }

  /** The name that each connection is logged in under. */
  ghost predicate LoginsAre(logged: map<ConnId, Name>, arg: map<ConnId, Client>) {
    logged.Keys == arg.Keys && forall k | k in arg :: logged[k] == arg[k].name
  }

  lemma LoginAdded(logged: map<ConnId, Name>, arg: map<ConnId, Client>, c: ConnId, cli: Client, name: Name)
    requires LoginsAre(logged, arg) && cli.name == name
    ensures LoginsAre(logged[c := name], arg[c := cli])
  {
  }

  lemma NothingSent(a: seq<Offer>)
    ensures a + [] == a
  {
  }

  lemma RunUnfolds(s: Registry, events: seq<BusEvent>, offers: seq<Offer>)
    requires Orderly(s, events) && events != []
    ensures Safe(events[0]) && Keeps(s, events[0]) && AllSafe(events)
    ensures var next, rest := Step(s, events[0]), events[1..];
      && Orderly(next, rest) && AllSafe(rest) && After(s, events) == After(next, rest)
      && offers + AllSent(s, events) == (offers + Sent(s, events[0])) + AllSent(next, rest)
  {
    OrderlyIsSafe(s, events);
    InTurn(offers, Sent(s, events[0]), AllSent(Step(s, events[0]), events[1..]));
  }

  lemma NamesGrow(cs: seq<Client>, names: seq<Name>, more: seq<Name>)
    requires ClientNames(cs) == names + more
    ensures |cs| == |names| + |more| && forall i | 0 <= i < |more| :: cs[|names| + i].name == more[i]
  {
    assert |ClientNames(cs)| == |names| + |more|;
    forall i | 0 <= i < |more|
      ensures cs[|names| + i].name == more[i]
    {
      assert ClientNames(cs)[|names| + i] == more[i];
    }
  }

  lemma NameOfClient(cs: seq<Client>, c: Client)
    requires c in cs
    ensures c.name in ClientNames(cs)
  {
    var i :| 0 <= i < |cs| && cs[i] == c;
    assert ClientNames(cs)[i] == c.name;
  }

  /** With distinct names, a client is where its name is. */
  lemma ClientAt(cs: seq<Client>, c: Client)
    requires c in cs && NoRepeats(ClientNames(cs))
    ensures var k := Place(ClientNames(cs), c.name); k < |cs| && cs[k] == c
  {
    var i :| 0 <= i < |cs| && cs[i] == c;
    PlaceOfDistinct(ClientNames(cs), i);
  }

  lemma CloseKeepsUsers(cs: seq<Client>, arg: map<ConnId, Client>, c: ConnId, k: nat)
    requires DistinctClients(cs) && Paired(cs, arg) && c in arg && k < |cs| && cs[k] == arg[c]
    ensures var rest := cs[..k] + cs[k + 1..];
      && DistinctClients(rest) && Paired(rest, arg - {c})
      && forall n :: n in ClientNames(rest) <==> n in ClientNames(cs) && n != cs[k].name
  {
    var rest, ns := cs[..k] + cs[k + 1..], ClientNames(cs);
    DropOne(cs, k);
    DropOne(ns, k);
    assert ClientNames(rest) == ns[..k] + ns[k + 1..];
    PairedWithout(cs, rest, arg, c);
  }

  lemma PairedWithout(cs: seq<Client>, rest: seq<Client>, arg: map<ConnId, Client>, c: ConnId)
    requires Paired(cs, arg) && c in arg && forall x :: x in rest <==> x in cs && x != arg[c]
    ensures Paired(rest, arg - {c})
  {
    forall k | k in arg && k != c
      ensures arg[k] in rest
    {
      assert arg[k].io == Some(k) && arg[c].io == Some(c);
    }
  }

  /** A group message as a client builds it reaches every connection it is offered to as one frame, and
      from there the callback as the same sender, group and payload. */
  lemma GroupMessageArrives(sender: Name, group: Name, payload: seq<Byte>)
    requires payload != [] && BodySize(sender, group, payload) + HEADER_SIZE <= 8192
    ensures var m := Built(CID_GROUP_MSG, GROUP_FIELDS, sender, group, payload);
      && Frames.IsFrame(m, PACKER, 8192) && SafeMessage(m) && CommandId(m) == CID_GROUP_MSG
      && Decode(GROUP_FIELDS, Body(m)) == Some(Delivery(sender + [0], group + [0], payload))
      && CString(sender + [0]) == Some(sender) && CString(group + [0]) == Some(group)
  {
    BuiltMessage(CID_GROUP_MSG, GROUP_FIELDS, sender, group, payload);
  }

  /** A private message as a client builds it reaches the connection it is offered to as one frame, and from
      there the callback as the same sender, user and payload. */
  lemma PrivateMessageArrives(sender: Name, user: Name, payload: seq<Byte>)
    requires payload != [] && BodySize(sender, user, payload) + HEADER_SIZE <= 8192
    ensures var m := Built(CID_PRIVATE_MSG, PRIVATE_FIELDS, sender, user, payload);
      && Frames.IsFrame(m, PACKER, 8192) && SafeMessage(m) && CommandId(m) == CID_PRIVATE_MSG
      && Decode(PRIVATE_FIELDS, Body(m)) == Some(Delivery(sender + [0], user + [0], payload))
      && CString(sender + [0]) == Some(sender) && CString(user + [0]) == Some(user)
  {
    BuiltMessage(CID_PRIVATE_MSG, PRIVATE_FIELDS, sender, user, payload);
  }

  lemma BuiltMessage(cid: U16, f: Fields, sender: Name, to: Name, payload: seq<Byte>)
    requires f == GROUP_FIELDS || f == PRIVATE_FIELDS
    requires payload != [] && BodySize(sender, to, payload) + HEADER_SIZE <= 8192
    ensures var m := Built(cid, f, sender, to, payload);
      && Frames.IsFrame(m, PACKER, 8192) && WellFormed(Body(m)) && CommandId(m) == cid
      && Decode(f, Body(m)) == Some(Delivery(sender + [0], to + [0], payload))
    ensures CString(sender + [0]) == Some(sender) && CString(to + [0]) == Some(to) && 0 in to + [0]
  {
    BuiltIsWholeIff(f, sender, to, payload);
    MessageIsFrame(cid, EncodeAll(FieldTlvs(f, sender, to, payload), MBUS_TYPE_LEN), 8192);
    DecodeEncoded(f, sender, to, payload);
    ParsePrinted(MessageKids(f, sender, to, payload), MBUS_TYPE_LEN, false);
    CStringOfName(sender, []);
    CStringOfName(to, []);
    assert sender + [0] + [] == sender + [0] && to + [0] + [] == to + [0];
    assert (to + [0])[|to|] == 0;
  }

  /** Registering the same name a second time is refused exactly when the name fits a name buffer. */
  lemma TakenIsNoticedIff(n: Name)
    ensures Added(Added([], Some(n)), Some(n)) == [] <==> |n| < NAME_SIZE
  {
    assert Trunc(n) == n <==> |n| < NAME_SIZE;
  }
}
