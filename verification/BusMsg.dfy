/** The messages of the bus: how clients build them and what the receiving side makes of them
    (mbus/bus_msg.c). */
module BusMsg {
  import opened Bytes
  import opened TlvCodec
  import opened TlvTree
  import opened TlvParser
  import opened TlvPrinter
  import opened Wrappers
  import Frames

  const MBUS_TYPE_LEN: Width := 2
  const HEADER_SIZE: nat := 16
  const PACKER: Frames.Packer := Frames.Packer(16, 0)

  const CID_GROUP_MSG: U16 := 1029
  const CID_PRIVATE_MSG: U16 := 2000

  /** The three TLV types of a message: sender, addressee, payload. */
  datatype Fields = Fields(sender: U16, addressee: U16, payload: U16)

  const GROUP_FIELDS: Fields := Fields(1, 2, 3)
  const PRIVATE_FIELDS: Fields := Fields(4, 5, 6)

  /** A name: octets up to, but not including, the terminating zero of a C string. */
  predicate IsName(s: seq<Byte>) {
    0 !in s
  }

  /** The C string at the front of some octets. */
  function CString(b: seq<Byte>): (s: Option<seq<Byte>>)
    ensures s.Some? <==> 0 in b
    ensures s.Some? ==> IsName(s.value)
  {
    if b == [] then None
    else if b[0] == 0 then Some([])
    else
      var rest := CString(b[1..]);
      if rest.None? then None else Some([b[0]] + rest.value)
  }

  lemma CStringOfName(s: seq<Byte>, more: seq<Byte>)
    requires IsName(s)
    ensures CString(s + [0] + more) == Some(s)
  {
    if s == [] {
      assert (s + [0] + more)[0] == 0;
    } else {
      assert (s + [0] + more)[0] == s[0] && s[0] in s;
      assert (s + [0] + more)[1..] == s[1..] + [0] + more;
      CStringOfName(s[1..], more);
      assert [s[0]] + s[1..] == s;
    }
  }

  /** A message: its header, with all other fields zero, and its body. */
  function Message(cid: U16, body: seq<Byte>): (m: seq<Byte>)
    requires |body| < 65536
    ensures |m| == HEADER_SIZE + |body|
  {
    [|body| % 256, |body| / 256, 0, 0] + [0, 0, 0, 0, 0, 0] + [cid % 256, cid / 256] + [0, 0, 0, 0] + body
  }

  function CommandId(m: seq<Byte>): U16
    requires HEADER_SIZE <= |m|
  {
    Load16(m, 10)
  }

  function Body(m: seq<Byte>): seq<Byte>
    requires HEADER_SIZE <= |m|
  {
    m[HEADER_SIZE..]
  }

  /** A message is one frame for the connection's packer, and carries its command and body. */
  lemma MessageIsFrame(cid: U16, body: seq<Byte>, max: nat)
    requires |body| < 65536 && HEADER_SIZE + |body| <= max
    ensures Frames.IsFrame(Message(cid, body), PACKER, max)
    ensures CommandId(Message(cid, body)) == cid && Body(Message(cid, body)) == body
    ensures Message(cid, body)[10] == cid % 256 && Message(cid, body)[11] == cid / 256
  {
    var m := Message(cid, body);
    assert m[0] == |body| % 256 && m[1] == |body| / 256 && m[2] == 0 && m[3] == 0;
    assert m[10] == cid % 256 && m[11] == cid / 256;
  }

  /** Octets whose count is passed on as a 16-bit number. */
  function Clip(v: seq<Byte>): (r: seq<Byte>)
    ensures |r| < 65536 && r <= v
    ensures r == v <==> |v| < 65536
  {
    v[..Low16(|v|)]
  }

  /** The TLVs of a message from one name to another. An empty payload is left out. */
  function FieldTlvs(f: Fields, sender: seq<Byte>, addressee: seq<Byte>, payload: seq<Byte>): seq<Tree> {
    [Leaf(f.sender, sender + [0]), Leaf(f.addressee, addressee + [0])]
    + (if payload == [] then [] else [Leaf(f.payload, payload)])
  }

  /** These TLVs as they are added to a tree. */
  function MessageKids(f: Fields, sender: seq<Byte>, addressee: seq<Byte>, payload: seq<Byte>): seq<Tree> {
    [Leaf(f.sender, Clip(sender + [0])), Leaf(f.addressee, Clip(addressee + [0]))]
    + (if payload == [] then [] else [Leaf(f.payload, Clip(payload))])
  }

  /** A message as a client builds it, whatever the sizes of its fields. */
  function Built(cid: U16, f: Fields, sender: seq<Byte>, addressee: seq<Byte>, payload: seq<Byte>): seq<Byte> {
    Message(cid, Clip(EncodeAll(MessageKids(f, sender, addressee, payload), MBUS_TYPE_LEN)))
  }

  /** The number of octets of the three TLVs. */
  function BodySize(sender: seq<Byte>, addressee: seq<Byte>, payload: seq<Byte>): nat {
    |sender| + |addressee| + 10 + if payload == [] then 0 else |payload| + 4
  }

  /** The first TLV of a type, as the receiving side looks it up in a body. */
  function Lookup(body: seq<Byte>, t: U16): Option<seq<Byte>> {
    var ts := ParseSpec(body, MBUS_TYPE_LEN, false);
    if ts.None? then None else FirstOf(ts.value, t)
  }

  function FirstOf(ts: seq<Tree>, t: U16): Option<seq<Byte>> {
    if ts == [] then None
    else if ts[0].Leaf? && ts[0].typ == t then Some(ts[0].value)
    else FirstOf(ts[1..], t)
  }

  /** What the receiving side hands to its callback. */
  datatype Delivery = Delivery(sender: seq<Byte>, addressee: seq<Byte>, payload: seq<Byte>)

  function Decode(f: Fields, body: seq<Byte>): Option<Delivery> {
    var s, a, p := Lookup(body, f.sender), Lookup(body, f.addressee), Lookup(body, f.payload);
    if s.Some? && a.Some? && p.Some? then Some(Delivery(s.value, a.value, p.value)) else None
  }

  lemma RetypedTwoOctets(ts: seq<Tree>)
    ensures Retyped(ts, MBUS_TYPE_LEN, false) == ts
  {
  }

  /** A message arrives exactly when its payload is not empty, and then as it was sent. */
  lemma DecodeEncoded(f: Fields, sender: seq<Byte>, addressee: seq<Byte>, payload: seq<Byte>)
    requires f == GROUP_FIELDS || f == PRIVATE_FIELDS
    requires |sender| < 65535 && |addressee| < 65535 && |payload| < 65536
    ensures Decode(f, EncodeAll(FieldTlvs(f, sender, addressee, payload), MBUS_TYPE_LEN)) ==
      if payload == [] then None else Some(Delivery(sender + [0], addressee + [0], payload))
  {
    var ts := FieldTlvs(f, sender, addressee, payload);
    var body := EncodeAll(ts, MBUS_TYPE_LEN);
    ParsePrinted(ts, MBUS_TYPE_LEN, false);
    RetypedTwoOctets(ts);
    assert DropTrailingEmpty(ts) == ts;
    EncodedTlvIsLong(ts, MBUS_TYPE_LEN);
    assert ParseSpec(body, MBUS_TYPE_LEN, false) == Some(ts);
    assert ts[0] == Leaf(f.sender, sender + [0]) && ts[1] == Leaf(f.addressee, addressee + [0]);
    FirstOfThree(ts, f);
  }

  lemma FirstOfThree(ts: seq<Tree>, f: Fields)
    requires f == GROUP_FIELDS || f == PRIVATE_FIELDS
    requires 2 <= |ts| <= 3 && ts[0].Leaf? && ts[0].typ == f.sender && ts[1].Leaf? && ts[1].typ == f.addressee
    requires |ts| == 3 ==> ts[2].Leaf? && ts[2].typ == f.payload
    ensures FirstOf(ts, f.sender) == Some(ts[0].value) && FirstOf(ts, f.addressee) == Some(ts[1].value)
    ensures FirstOf(ts, f.payload) == if |ts| == 3 then Some(ts[2].value) else None
  {
    var more := ts[1..];
    var last := more[1..];
    assert more[0] == ts[1];
    assert FirstOf(ts, f.payload) == FirstOf(more, f.payload) == FirstOf(last, f.payload);
    if |ts| == 3 {
      assert last[0] == ts[2];
    } else {
      assert last == [];
    }
  }

  /** Builds a message: a tree of the fields, printed behind a header. */
  method NewMessage(cid: U16, f: Fields, sender: seq<Byte>, addressee: seq<Byte>, payload: seq<Byte>)
    returns (m: seq<Byte>)
    ensures m == Built(cid, f, sender, addressee, payload)
  {
    var root := new TlvNode.CreateObject(MBUS_TYPE_LEN);
    FreshForest(root, MBUS_TYPE_LEN);
    ghost var s := {root};
    s := AddTo(root, f.sender, Clip(sender + [0]), s);
    s := AddTo(root, f.addressee, Clip(addressee + [0]), s);
    if |payload| > 0 {
      s := AddTo(root, f.payload, Clip(payload), s);
    }
    ghost var kids := MessageKids(f, sender, addressee, payload);
    assert root.view.kids == kids;
    SizeOfThree(kids);
    assert root.Matches(s) && root.Counts();
    var printed := Print(root, s, MBUS_TYPE_LEN);
    m := Message(cid, printed.value[..root.length]);
  }

  /** A request that carries one name, as a client builds it. */
  function Request(cid: U16, t: U16, name: seq<Byte>): seq<Byte> {
    Message(cid, Clip(EncodeAll([Leaf(t, Clip(name + [0]))], MBUS_TYPE_LEN)))
  }

  /** Builds a request to log in, to create a group or to join one; an empty name is refused. */
  method NewRequest(cid: U16, t: U16, name: seq<Byte>) returns (m: Option<seq<Byte>>)
    ensures m == if name == [] then None else Some(Request(cid, t, name))
  {
    if name == [] {
      return None;
    }
    var root := new TlvNode.CreateObject(MBUS_TYPE_LEN);
    FreshForest(root, MBUS_TYPE_LEN);
    var s := AddTo(root, t, Clip(name + [0]), {root});
    assert root.view.kids == [Leaf(t, Clip(name + [0]))];
    SizeOfOne(root.view.kids);
    assert root.Matches(s) && root.Counts();
    var printed := Print(root, s, MBUS_TYPE_LEN);
    return Some(Message(cid, printed.value[..root.length]));
  }

  lemma SizeOfOne(ts: seq<Tree>)
    requires |ts| == 1 && ts[0].Leaf?
    ensures |EncodeAll(ts, MBUS_TYPE_LEN)| == |ts[0].value| + 4
  {
    assert ts[1..] == [];
  }

  /** The name in a request is found again, whatever its type, while it fits a 16-bit length with its zero. */
  lemma NameIsFound(t: U16, name: seq<Byte>)
    requires IsName(name) && |name| < 65535
    ensures var body := EncodeAll([Leaf(t, name + [0])], MBUS_TYPE_LEN);
      && WellFormed(body) && Lookup(body, t) == Some(name + [0])
      && 0 in name + [0] && CString(name + [0]) == Some(name)
  {
    var ts := [Leaf(t, name + [0])];
    ParsePrinted(ts, MBUS_TYPE_LEN, false);
    RetypedTwoOctets(ts);
    SizeOfOne(ts);
    CStringOfName(name, []);
    assert name + [0] + [] == name + [0] && (name + [0])[|name|] == 0;
    assert DropTrailingEmpty(ts) == ts;
  }

  /** A request whose name leaves room for the header is one frame, and carries its command and its name. */
  lemma RequestIsFrame(cid: U16, t: U16, name: seq<Byte>)
    requires |name| + 5 + HEADER_SIZE <= 8192
    ensures var m := Request(cid, t, name);
      && Frames.IsFrame(m, PACKER, 8192) && CommandId(m) == cid
      && Body(m) == EncodeAll([Leaf(t, name + [0])], MBUS_TYPE_LEN)
  {
    var ts := [Leaf(t, name + [0])];
    SizeOfOne(ts);
    MessageIsFrame(cid, EncodeAll(ts, MBUS_TYPE_LEN), 8192);
  }

  lemma SizeOfThree(ts: seq<Tree>)
    requires 2 <= |ts| <= 3 && forall t | t in ts :: t.Leaf?
    ensures |EncodeAll(ts, MBUS_TYPE_LEN)| ==
      |ts[0].value| + |ts[1].value| + 8 + if |ts| == 3 then |ts[2].value| + 4 else 0
  {
    EncodeAllAt(ts, 0, MBUS_TYPE_LEN);
    EncodeAllAt(ts, 1, MBUS_TYPE_LEN);
    assert ts[..1] == [ts[0]];
    if |ts| == 3 {
      EncodeAllAt(ts, 2, MBUS_TYPE_LEN);
      assert ts[..2] == [ts[0], ts[1]];
    }
  }

  /** The message that is built holds the TLVs of its fields, untruncated, exactly when these fit 16 bits
      together. */
  lemma BuiltIsWholeIff(f: Fields, sender: seq<Byte>, addressee: seq<Byte>, payload: seq<Byte>)
    ensures var whole := FieldTlvs(f, sender, addressee, payload);
      && |EncodeAll(whole, MBUS_TYPE_LEN)| == BodySize(sender, addressee, payload)
      && (BodySize(sender, addressee, payload) < 65536 <==>
          MessageKids(f, sender, addressee, payload) == whole
          && Clip(EncodeAll(whole, MBUS_TYPE_LEN)) == EncodeAll(whole, MBUS_TYPE_LEN))
  {
    var kids, whole := MessageKids(f, sender, addressee, payload), FieldTlvs(f, sender, addressee, payload);
    assert whole[0] == kids[0] && whole[1] == kids[1] <==> |sender| < 65535 && |addressee| < 65535;
    SizeOfThree(whole);
  }

  /** Adds a plain TLV to a root object. */
  method AddTo(root: TlvNode, t: U16, value: seq<Byte>, ghost s: set<TlvNode>) returns (ghost s': set<TlvNode>)
    requires Forest(s, MBUS_TYPE_LEN) && root in s && root.kind == ObjectKind && root.parent == null && root.view.Obj?
    requires |value| < 65536
    modifies s
    ensures Forest(s', MBUS_TYPE_LEN) && root in s' && root.parent == null && fresh(s' - s)
    ensures root.kind == ObjectKind && root.view == Obj(old(root.view.kids) + [Leaf(t, value)])
  {
    var item := AddTlvToObject(root, t, value, MBUS_TYPE_LEN, s, [root]);
    s' := s + {item};
  }

  lemma {:induction false} FirstOfIsNth(ts: seq<Tree>, types: seq<U16>, t: U16)
    requires |types| == |ts| && forall i | 0 <= i < |ts| :: ts[i].Leaf? && types[i] == ts[i].typ
    ensures var k := NthOf(types, t, 0); FirstOf(ts, t) == if k < |ts| then Some(ts[k].value) else None
    decreases |ts|
  {
    if ts != [] && types[0] != t {
      FirstOfIsNth(ts[1..], types[1..], t);
    }
  }

  /** Looks up the first TLV of a type in a parsed body. */
  method FindValue(root: TlvNode, t: U16, ghost s: set<TlvNode>) returns (r: Option<seq<Byte>>)
    requires Forest(s, MBUS_TYPE_LEN) && root in s && root.view.Obj? && forall x | x in root.view.kids :: x.Leaf?
    ensures r == FirstOf(root.view.kids, t)
  {
    FirstOfIsNth(root.view.kids, LeafTypes(root.view.kids), t);
    r := GetValue(root, t, 0, s, MBUS_TYPE_LEN);
  }

  /** No value of the body claims more octets than there are. */
  predicate WellFormed(body: seq<Byte>) {
    ParseFrom(body, 0, MBUS_TYPE_LEN, false).Some?
  }

  lemma ParsedAreLeaves(body: seq<Byte>)
    requires WellFormed(body)
    ensures forall t | t in ParseFrom(body, 0, MBUS_TYPE_LEN, false).value :: t.Leaf?
  {
    PrintParsed(body, 0, MBUS_TYPE_LEN, false);
  }

  /** What the receiving side hands to its callback for a group or private message. */
  method HandleMessage(f: Fields, body: seq<Byte>) returns (r: Option<Delivery>)
    requires WellFormed(body)
    ensures r == Decode(f, body)
  {
    var root, overrun, s := ParseObject(body, MBUS_TYPE_LEN, false);
    if root == null {
      return None;
    }
    ParsedAreLeaves(body);
    var sender := FindValue(root, f.sender, s);
    var addressee := FindValue(root, f.addressee, s);
    var payload := FindValue(root, f.payload, s);
    if sender.None? || payload.None? || addressee.None? {
      return None;
    }
    return Some(Delivery(sender.value, addressee.value, payload.value));
  }
}
