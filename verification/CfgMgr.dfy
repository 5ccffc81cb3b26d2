/** Reassembly of a fragmented AP-autoconfiguration WSC message, and the radios it configures
    (cfg_mgr/cfg_mgr.c). */
module CfgMgr {
  import opened Bytes
  import opened TlvCodec
  import opened TlvTree
  import opened TlvParser
  import opened Wrappers
  import opened BusMsg

  /** The Ethernet header and the CMDU header in front of the TLVs of a fragment. */
  const CMDU_HEADER: nat := 22

  const TYPE_WSC: U16 := 0x11
  const TYPE_RF_BANDS: U16 := 0x103c

  datatype ConfState = Unconfigured | BackhaulReady | SendM1 | WaitM2 | Configured

  /** A fragment: at least its headers. */
  type Fragment = p: seq<Byte> | |p| >= CMDU_HEADER witness seq(22, _ => 0)

  /** The last-fragment flag is the top bit of the last header octet. */
  predicate IsLast(p: Fragment) {
    p[CMDU_HEADER - 1] >= 128
  }

  /** The TLVs of a fragment. */
  function Area(p: Fragment): seq<Byte> {
    p[CMDU_HEADER..]
  }

  function Areas(ps: seq<Fragment>): seq<Byte> {
    if ps == [] then [] else Area(ps[0]) + Areas(ps[1..])
  }

  /** What a fragment adds to the buffer: the first one, unless it is also the last, goes in with its
      headers. */
  function Piece(buffered: seq<Byte>, p: Fragment): seq<Byte> {
    if buffered == [] && !IsLast(p) then p else Area(p)
  }

  /** The buffer after a run of fragments, before it is parsed. */
  function Collect(buffered: seq<Byte>, ps: seq<Fragment>): seq<Byte>
    decreases |ps|
  {
    if ps == [] then buffered else Collect(buffered + Piece(buffered, ps[0]), ps[1..])
  }

  lemma {:induction false} CollectAppends(buffered: seq<Byte>, ps: seq<Fragment>)
    requires buffered != []
    ensures Collect(buffered, ps) == buffered + Areas(ps)
    decreases |ps|
  {
    if ps != [] {
      CollectAppends(buffered + Area(ps[0]), ps[1..]);
      assert Collect(buffered, ps) == Collect(buffered + Area(ps[0]), ps[1..]);
    }
  }

  lemma {:induction false} CollectLast(buffered: seq<Byte>, ps: seq<Fragment>, p: Fragment)
    ensures Collect(buffered, ps + [p]) == Collect(buffered, ps) + Piece(Collect(buffered, ps), p)
    decreases |ps|
  {
    if ps == [] {
      assert ps + [p] == [p];
    } else {
      assert (ps + [p])[1..] == ps[1..] + [p];
      CollectLast(buffered + Piece(buffered, ps[0]), ps[1..], p);
    }
  }

  /** Only the last of the fragments is flagged. */
  ghost predicate OneMessage(ps: seq<Fragment>) {
    ps != [] && forall i | 0 <= i < |ps| :: IsLast(ps[i]) <==> i == |ps| - 1
  }

  /** Reassembly, starting with an empty buffer, parses the TLVs of all fragments in order exactly when
      there are at least two fragments. */
  lemma ReassembledIff(ps: seq<Fragment>)
    requires OneMessage(ps) && |Collect([], ps)| >= CMDU_HEADER
    ensures Collect([], ps)[CMDU_HEADER..] == Areas(ps) <==> |ps| >= 2
  {
    if |ps| >= 2 {
      CollectAppends(ps[0], ps[1..]);
      assert [] + ps[0] == ps[0];
      HeaderDropped(ps[0], Areas(ps[1..]));
    } else {
      LoneFragment(ps);
    }
  }

  lemma HeaderDropped(p: Fragment, more: seq<Byte>)
    ensures (p + more)[CMDU_HEADER..] == Area(p) + more
  {
  }

  lemma LoneFragment(ps: seq<Fragment>)
    requires |ps| == 1 && IsLast(ps[0])
    ensures Collect([], ps) == Areas(ps)
  {
    assert ps[1..] == [];
    assert [] + Area(ps[0]) == Area(ps[0]) && Area(ps[0]) + [] == Area(ps[0]);
  }

  // ---------- The radios ----------

  /** The values of all TLVs of a type, in order. */
  function AllOf(ts: seq<Tree>, t: U16): seq<seq<Byte>> {
    if ts == [] then []
    else if ts[0].Leaf? && ts[0].typ == t then [ts[0].value] + AllOf(ts[1..], t)
    else AllOf(ts[1..], t)
  }

  /** The first RF-bands attribute of a WSC TLV that parses. */
  function RfBands(wsc: seq<Byte>): Option<seq<Byte>> {
    var ts := ParseSpec(wsc, 2, false);
    if ts.None? then None else FirstOf(ts.value, TYPE_RF_BANDS)
  }

  /** Radio 0 is 2.4 GHz, announced by band 1; radio 1 is 5 GHz, announced by band 2. */
  predicate Names(wsc: seq<Byte>, radio: int) {
    var r := RfBands(wsc);
    r.Some? && r.value != [] && ((r.value[0] == 1 && radio == 0) || (r.value[0] == 2 && radio == 1))
  }

  /** The radios that the scan configures: it stops at the first WSC TLV too short to be parsed. */
  predicate Scanned(wscs: seq<seq<Byte>>, radio: int) {
    wscs != [] && |wscs[0]| >= 4 && (Names(wscs[0], radio) || Scanned(wscs[1..], radio))
  }

  /** When every WSC TLV can be parsed, the radios configured are exactly those that some WSC TLV
      names. */
  lemma {:induction false} ScannedIffNamed(wscs: seq<seq<Byte>>, radio: int)
    requires forall v | v in wscs :: |v| >= 4
    ensures Scanned(wscs, radio) <==> exists v | v in wscs :: Names(v, radio)
    decreases |wscs|
  {
    if wscs != [] {
      assert wscs == [wscs[0]] + wscs[1..];
      assert wscs[0] in wscs;
      ScannedIffNamed(wscs[1..], radio);
    }
  }

  /** How often the scan re-arms the autoconfiguration timer: once for each WSC TLV that names a radio. */
  function Rearms(wscs: seq<seq<Byte>>): nat {
    if wscs == [] || |wscs[0]| < 4 then 0 else Rearm(wscs[0]) + Rearms(wscs[1..])
  }

  function Rearm(wsc: seq<Byte>): nat {
    if Names(wsc, 0) || Names(wsc, 1) then 1 else 0
  }

  /** A radio is configured by a scan exactly when the scan re-arms the timer. */
  lemma {:induction false} RearmedIff(wscs: seq<seq<Byte>>)
    ensures Rearms(wscs) > 0 <==> Scanned(wscs, 0) || Scanned(wscs, 1)
    ensures Rearms(wscs) <= |wscs|
    decreases |wscs|
  {
    if wscs != [] {
      RearmedIff(wscs[1..]);
    }
  }

  /** The octets can be scanned without reading past any of them: no TLV claims too much, and no
      RF-bands attribute is empty. */
  predicate Readable(area: seq<Byte>, signedChar: bool) {
    var ts := ParseFrom(area, 0, 1, signedChar);
    && ts.Some?
    && forall v | v in AllOf(ts.value, TYPE_WSC) ::
      |v| >= 4 ==> WellFormed(v) && RfBands(v) != Some([])
  }

  lemma {:induction false} NthIsAllOf(ts: seq<Tree>, types: seq<U16>, t: U16, i: nat)
    requires |types| == |ts| && forall j | 0 <= j < |ts| :: ts[j].Leaf? && types[j] == ts[j].typ
    ensures var k := NthOf(types, t, i);
      (k < |ts| <==> i < |AllOf(ts, t)|) && (k < |ts| ==> ts[k].value == AllOf(ts, t)[i])
    decreases |ts|
  {
    if ts != [] && !(types[0] == t && i == 0) {
      NthIsAllOf(ts[1..], types[1..], t, if types[0] == t then i - 1 else i);
    }
  }

  /** One of the first i WSC TLVs names the radio. */
  predicate NamedBefore(wscs: seq<seq<Byte>>, i: nat, radio: int)
    requires i <= |wscs|
  {
    i > 0 && (Names(wscs[i - 1], radio) || NamedBefore(wscs, i - 1, radio))
  }

  function RearmsBefore(wscs: seq<seq<Byte>>, i: nat): nat
    requires i <= |wscs|
  {
    if i == 0 then 0 else RearmsBefore(wscs, i - 1) + Rearm(wscs[i - 1])
  }

  ghost predicate CountAt(wscs: seq<seq<Byte>>, i: nat) {
    i <= |wscs| && Rearms(wscs) == RearmsBefore(wscs, i) + Rearms(wscs[i..])
  }

  lemma CountMoves(wscs: seq<seq<Byte>>, i: nat)
    requires CountAt(wscs, i)
    ensures i < |wscs| && |wscs[i]| >= 4 ==> CountAt(wscs, i + 1)
    ensures i == |wscs| || |wscs[i]| < 4 ==> Rearms(wscs) == RearmsBefore(wscs, i)
  {
    if i < |wscs| {
      assert wscs[i..][0] == wscs[i] && wscs[i..][1..] == wscs[i + 1..];
    }
  }

  /** The scan is at the i-th WSC TLV. */
  ghost predicate ScanAt(wscs: seq<seq<Byte>>, i: nat, radio: int) {
    i <= |wscs| && (Scanned(wscs, radio) <==> NamedBefore(wscs, i, radio) || Scanned(wscs[i..], radio))
  }

  lemma ScanMoves(wscs: seq<seq<Byte>>, i: nat, radio: int)
    requires ScanAt(wscs, i, radio)
    ensures i < |wscs| && |wscs[i]| >= 4 ==> ScanAt(wscs, i + 1, radio)
    ensures i == |wscs| || |wscs[i]| < 4 ==> (Scanned(wscs, radio) <==> NamedBefore(wscs, i, radio))
  {
    if i < |wscs| {
      assert wscs[i..][0] == wscs[i] && wscs[i..][1..] == wscs[i + 1..];
    }
  }

  // ---------- Built messages ----------

  /** A TLV of a WSC message, as its sender builds it: WSC data with an RF-bands attribute of one octet among
      its attributes, WSC data too short to be parsed, or a TLV of another type. */
  datatype Item =
    | Wsc(before: seq<Tree>, band: Byte, after: seq<Tree>)
    | Short(value: seq<Byte>)
    | Other(typ: U16, value: seq<Byte>)
  {
    function Attributes(): seq<Tree>
      requires Wsc?
    {
      before + [Leaf(TYPE_RF_BANDS, [band])] + after
    }

    /** The band is in the first RF-bands attribute, and what is built is what was meant. */
    ghost predicate Ok() {
      match this
      case Wsc(_, _, _) =>
        && Flat(Attributes()) && |EncodeAll(Attributes(), 2)| < 65536
        && (forall t | t in before :: t.typ != TYPE_RF_BANDS)
        && (after != [] ==> after[|after| - 1].value != [])
      case Short(v) => |v| < 4
      case Other(t, v) => t % 256 != TYPE_WSC && |v| < 65536
    }

    function Tlv(): Tree {
      match this
      case Wsc(_, _, _) => Leaf(TYPE_WSC, EncodeAll(Attributes(), 2))
      case Short(v) => Leaf(TYPE_WSC, v)
      case Other(t, v) => Leaf(t, v)
    }
  }

  ghost predicate AllOk(items: seq<Item>) {
    forall x | x in items :: x.Ok()
  }

  function Tlvs(items: seq<Item>): (r: seq<Tree>)
    ensures |r| == |items|
  {
    if items == [] then [] else [items[0].Tlv()] + Tlvs(items[1..])
  }

  /** The values of the WSC TLVs. */
  function WscsOf(items: seq<Item>): seq<seq<Byte>> {
    if items == [] then []
    else (if items[0].Other? then [] else [items[0].Tlv().value]) + WscsOf(items[1..])
  }

  /** The i-th TLV announces this band, and none before it stops the scan. */
  predicate Announces(items: seq<Item>, i: nat, band: Byte) {
    i < |items| && items[i].Wsc? && items[i].band == band && forall j | 0 <= j < i :: !items[j].Short?
  }

  lemma {:induction false} FirstOfSkips(before: seq<Tree>, t: U16, v: seq<Byte>, after: seq<Tree>)
    requires forall x | x in before :: x.Leaf? && x.typ != t
    ensures FirstOf(before + [Leaf(t, v)] + after, t) == Some(v)
    decreases |before|
  {
    var all := before + [Leaf(t, v)] + after;
    if before != [] {
      assert all[0] == before[0] && before[0] in before;
      assert all[1..] == before[1..] + [Leaf(t, v)] + after;
      FirstOfSkips(before[1..], t, v, after);
    }
  }

  /** WSC data that is built for a band is read as naming the radio of that band: 2.4 GHz is radio 0. */
  lemma BuiltNames(x: Item)
    requires x.Wsc? && x.Ok()
    ensures var v := x.Tlv().value;
      && |v| >= 4 && WellFormed(v) && RfBands(v) == Some([x.band])
      && (Names(v, 0) <==> x.band == 1) && (Names(v, 1) <==> x.band == 2)
  {
    var ts := x.Attributes();
    ParsePrinted(ts, 2, false);
    RetypedTwoOctets(ts);
    EncodedTlvIsLong(ts, 2);
    assert DropTrailingEmpty(ts) == ts;
    assert forall t | t in x.before :: t in ts;
    FirstOfSkips(x.before, TYPE_RF_BANDS, [x.band], x.after);
  }

  lemma RetypedFirst(t: Tree, more: seq<Tree>, signedChar: bool)
    requires t.Leaf?
    ensures Retyped([t] + more, 1, signedChar)
         == [Leaf(TypeBack(t.typ, 1, signedChar), t.value)] + Retyped(more, 1, signedChar)
  {
  }

  lemma AllOfFirst(t: Tree, more: seq<Tree>, typ: U16)
    requires t.Leaf?
    ensures AllOf([t] + more, typ) == (if t.typ == typ then [t.value] else []) + AllOf(more, typ)
  {
    assert ([t] + more)[1..] == more;
  }

  lemma {:induction false} AllOfBuilt(items: seq<Item>, signedChar: bool)
    requires AllOk(items)
    ensures Flat(Tlvs(items)) && AllOf(Retyped(Tlvs(items), 1, signedChar), TYPE_WSC) == WscsOf(items)
    decreases |items|
  {
    if items != [] {
      var t, more := items[0].Tlv(), items[1..];
      assert items[0] in items && forall y | y in more :: y in items;
      AllOfBuilt(more, signedChar);
      RetypedFirst(t, Tlvs(more), signedChar);
      AllOfFirst(Leaf(TypeBack(t.typ, 1, signedChar), t.value), Retyped(Tlvs(more), 1, signedChar), TYPE_WSC);
    }
  }

  /** A TLV announces this band, and none before it stops the scan. */
  ghost predicate Announced(items: seq<Item>, band: Byte) {
    exists i: nat :: Announces(items, i, band)
  }

  /** How many TLVs announce the band of a radio before one stops the scan. */
  function Namings(items: seq<Item>): nat {
    if items == [] || items[0].Short? then 0
    else Namings(items[1..]) + if items[0].Wsc? && (items[0].band == 1 || items[0].band == 2) then 1 else 0
  }

  lemma {:induction false} ScannedBuilt(items: seq<Item>)
    requires AllOk(items)
    ensures Rearms(WscsOf(items)) == Namings(items)
    ensures Scanned(WscsOf(items), 0) <==> Announced(items, 1)
    ensures Scanned(WscsOf(items), 1) <==> Announced(items, 2)
    decreases |items|
  {
    if items != [] {
      var x, more := items[0], items[1..];
      assert x in items && forall y | y in more :: y in items;
      ScannedBuilt(more);
      AnnouncedFirst(items, 1);
      AnnouncedFirst(items, 2);
      WscsFirst(items);
      if x.Wsc? {
        BuiltNames(x);
      }
    }
  }

  lemma WscsFirst(items: seq<Item>)
    requires items != []
    ensures items[0].Other? ==> WscsOf(items) == WscsOf(items[1..])
    ensures !items[0].Other? ==>
      WscsOf(items) != [] && WscsOf(items)[0] == items[0].Tlv().value && WscsOf(items)[1..] == WscsOf(items[1..])
  {
  }

  lemma {:induction false} BuiltIsReadable(items: seq<Item>)
    requires AllOk(items)
    ensures forall v | v in WscsOf(items) :: |v| >= 4 ==> WellFormed(v) && RfBands(v) != Some([])
    decreases |items|
  {
    if items != [] {
      assert items[0] in items && forall y | y in items[1..] :: y in items;
      BuiltIsReadable(items[1..]);
      WscsFirst(items);
      if items[0].Wsc? {
        BuiltNames(items[0]);
      }
    }
  }

  lemma AnnouncedFirst(items: seq<Item>, band: Byte)
    requires items != []
    ensures Announced(items, band) <==>
      (items[0].Wsc? && items[0].band == band) || (!items[0].Short? && Announced(items[1..], band))
  {
    if items[0].Wsc? && items[0].band == band {
      assert Announces(items, 0, band);
    }
    if Announced(items, band) {
      var i: nat :| Announces(items, i, band);
      if i > 0 {
        assert forall j | 0 <= j < i - 1 :: items[1..][j] == items[j + 1];
        assert Announces(items[1..], i - 1, band);
      }
    }
    if Announced(items[1..], band) && !items[0].Short? {
      var i: nat :| Announces(items[1..], i, band);
      assert forall j | 0 < j < i + 1 :: items[j] == items[1..][j - 1];
      assert Announces(items, i + 1, band);
    }
  }

  /** A last TLV without a value, which the parse loop does not see, announces nothing. */
  lemma {:induction false} LastIsEmpty(items: seq<Item>)
    requires items != [] && AllOk(items) && items[|items| - 1].Tlv().value == []
    ensures var front := items[..|items| - 1];
      && Tlvs(front) == Tlvs(items)[..|items| - 1] && Namings(front) == Namings(items) && AllOk(front)
      && (Announced(front, 1) <==> Announced(items, 1)) && (Announced(front, 2) <==> Announced(items, 2))
    decreases |items|
  {
    var n, front := |items| - 1, items[..|items| - 1];
    assert items[n] in items && forall y | y in front :: y in items;
    if items[n].Wsc? {
      BuiltNames(items[n]);
    }
    AnnouncedFirst(items, 1);
    AnnouncedFirst(items, 2);
    if n > 0 {
      assert items[1..][..n - 1] == front[1..];
      assert forall y | y in items[1..] :: y in items;
      LastIsEmpty(items[1..]);
      AnnouncedFirst(front, 1);
      AnnouncedFirst(front, 2);
    }
  }

  lemma LastTlv(items: seq<Item>)
    requires items != []
    ensures Tlvs(items)[|items| - 1] == items[|items| - 1].Tlv()
    decreases |items|
  {
    if |items| > 1 {
      LastTlv(items[1..]);
    }
  }

  /** The scan of built octets: nothing outside them is read, the radios configured are those of the bands
      announced before a TLV that stops the scan, and the timer is re-armed once for each announcement. */
  lemma BuiltIsScanned(items: seq<Item>, signedChar: bool)
    requires AllOk(items)
    ensures var area := EncodeAll(Tlvs(items), 1);
      && Readable(area, signedChar)
      && var wscs := AllOf(ParseFrom(area, 0, 1, signedChar).value, TYPE_WSC);
         && (Scanned(wscs, 0) <==> Announced(items, 1)) && (Scanned(wscs, 1) <==> Announced(items, 2))
         && Rearms(wscs) == Namings(items)
  {
    AllOfBuilt(items, signedChar);
    ParsePrinted(Tlvs(items), 1, signedChar);
    var seen := items;
    if items != [] {
      LastTlv(items);
      if items[|items| - 1].Tlv().value == [] {
        LastIsEmpty(items);
        seen := items[..|items| - 1];
      }
    }
    assert DropTrailingEmpty(Tlvs(items)) == Tlvs(seen);
    AllOfBuilt(seen, signedChar);
    ScannedBuilt(seen);
    BuiltIsReadable(seen);
  }

  class Manager {
    var buffer: array<Byte>
    var length: nat
    var offset: nat
    var radios: array<ConfState>
    var rearms: nat                    // how often the autoconfiguration timer was re-armed
    const signedChar: bool
    ghost var parsed: seq<seq<Byte>>   // the octets parsed so far, message by message

    ghost predicate Valid()
      reads `buffer, `length, `offset, `radios
    {
      offset < length == buffer.Length && radios.Length == 2
    }

    ghost function Buffered(): seq<Byte>
      requires Valid()
      reads `buffer, `length, `offset, `radios, buffer
    {
      buffer[..offset]
    }

    constructor (signedChar: bool)
      ensures Valid() && Buffered() == [] && fresh(buffer) && fresh(radios) && parsed == []
      ensures radios[0] == radios[1] == Unconfigured && this.signedChar == signedChar && rearms == 0
    {
      buffer, length, offset := new Byte[2048], 2048, 0;
      radios := new ConfState[2](_ => Unconfigured);
      this.signedChar, parsed, rearms := signedChar, [], 0;
    }

    /** Makes room for `needed` octets and one more; refuses exactly when that exceeds INT_MAX and the
        buffer is not that large already. */
    method Ensure(needed: nat) returns (ok: bool)
      requires Valid() && length <= INT_MAX
      modifies `buffer, `length
      ensures Valid() && length <= INT_MAX && (buffer == old(buffer) || fresh(buffer))
      ensures ok <==> offset + needed + 1 <= INT_MAX
      ensures ok ==> offset + needed < length
      ensures Buffered() == old(Buffered())
    {
      if length > 0 && offset >= length {
        return false;
      }
      if needed > INT_MAX {
        return false;
      }
      var total := needed + offset + 1;
      if total <= length {
        return true;
      }
      var newsize;
      if total > INT_MAX / 2 {
        if total <= INT_MAX {
          newsize := INT_MAX;
        } else {
          return false;
        }
      } else {
        newsize := total * 2;
      }
      buffer := new Byte[newsize](i requires 0 <= i reads this, buffer => if i < buffer.Length then buffer[i] else 0);
      length := newsize;
      return true;
    }

    method Append(piece: seq<Byte>) returns (ok: bool)
      requires Valid() && length <= INT_MAX
      modifies `buffer, `length, `offset, buffer
      ensures Valid() && length <= INT_MAX && (buffer == old(buffer) || fresh(buffer))
      ensures ok <==> old(offset) + |piece| < INT_MAX
      ensures Buffered() == old(Buffered()) + (if ok then piece else [])
    {
      ok := Ensure(|piece|);
      if !ok {
        return;
      }
      Put(piece);
    }

    method Put(piece: seq<Byte>)
      requires Valid() && offset + |piece| < length
      modifies `offset, buffer
      ensures Valid() && Buffered() == old(Buffered()) + piece
    {
      forall i | 0 <= i < |piece| {
        buffer[offset + i] := piece[i];
      }
      offset := offset + |piece|;
    }

    /** The radios are as they were, but for those named by the first i WSC TLVs; each of these that names
        one has re-armed the timer, on top of the first `count` times. */
    ghost predicate ConfiguredBy(wscs: seq<seq<Byte>>, i: nat, was: seq<ConfState>, count: nat)
      reads `radios, `rearms, radios
    {
      && radios.Length == 2 == |was| && ScanAt(wscs, i, 0) && ScanAt(wscs, i, 1)
      && CountAt(wscs, i) && rearms == count + RearmsBefore(wscs, i)
      && radios[0] == (if NamedBefore(wscs, i, 0) then Configured else was[0])
      && radios[1] == (if NamedBefore(wscs, i, 1) then Configured else was[1])
    }

    /** Handles the i-th WSC TLV; the answer tells whether it could be parsed. */
    method Configure(wsc: seq<Byte>, ghost wscs: seq<seq<Byte>>, ghost i: nat, ghost was: seq<ConfState>,
                     ghost count: nat)
      returns (ok: bool)
      requires ConfiguredBy(wscs, i, was, count) && i < |wscs| && wscs[i] == wsc
      requires |wsc| >= 4 ==> WellFormed(wsc) && RfBands(wsc) != Some([])
      modifies radios, `rearms
      ensures ok <==> |wsc| >= 4
      ensures ConfiguredBy(wscs, if ok then i + 1 else i, was, count)
    {
      CountMoves(wscs, i);
      ScanMoves(wscs, i, 0);
      ScanMoves(wscs, i, 1);
      var root, overrun, s := ParseObject(wsc, 2, false);
      if root == null {
        return false;
      }
      ParsedAreLeaves(wsc);
      var rf := FindValue(root, TYPE_RF_BANDS, s);
      if rf.Some? {
        if rf.value[0] == 0x02 {
          radios[1], rearms := Configured, rearms + 1;
        } else if rf.value[0] == 0x01 {
          radios[0], rearms := Configured, rearms + 1;
        }
      }
      return true;
    }

    method FindWsc(root: TlvNode, i: nat, ghost s: set<TlvNode>) returns (r: Option<seq<Byte>>)
      requires Forest(s, 1) && root in s && root.view.Obj? && forall t | t in root.view.kids :: t.Leaf?
      ensures var wscs := AllOf(root.view.kids, TYPE_WSC); r == if i < |wscs| then Some(wscs[i]) else None
    {
      NthIsAllOf(root.view.kids, LeafTypes(root.view.kids), TYPE_WSC, i);
      r := GetValue(root, TYPE_WSC, i, s, 1);
    }

    /** The radios named by a message are configured, the others as they were, and every naming has re-armed
        the timer. */
    ghost predicate Updated(area: seq<Byte>, was: seq<ConfState>, count: nat)
      requires radios.Length == 2 == |was| && Readable(area, signedChar)
      reads `radios, `rearms, radios
    {
      var wscs := AllOf(ParseFrom(area, 0, 1, signedChar).value, TYPE_WSC);
      && rearms == count + Rearms(wscs)
      && radios[0] == (if Scanned(wscs, 0) then Configured else was[0])
      && radios[1] == (if Scanned(wscs, 1) then Configured else was[1])
    }

    /** After a message that was built for some bands, radio 0 is configured exactly when 2.4 GHz was
        announced, or it was before, and radio 1 exactly when 5 GHz was, or it was before. */
    lemma BandsAreMarked(items: seq<Item>, was: seq<ConfState>, count: nat)
      requires radios.Length == 2 == |was| && AllOk(items)
      ensures Readable(EncodeAll(Tlvs(items), 1), signedChar)
      ensures Updated(EncodeAll(Tlvs(items), 1), was, count) <==>
        && radios[0] == (if Announced(items, 1) then Configured else was[0])
        && radios[1] == (if Announced(items, 2) then Configured else was[1])
        && rearms == count + Namings(items)
    {
      BuiltIsScanned(items, signedChar);
    }

    /** Parses the TLVs of a whole message and marks the radios its WSC TLVs name. */
    method ParseWsc(area: seq<Byte>)
      requires radios.Length == 2 && Readable(area, signedChar)
      modifies radios, `rearms
      ensures Updated(area, old(radios[..]), old(rearms))
    {
      ghost var ts := ParseFrom(area, 0, 1, signedChar).value;
      ghost var wscs, was := AllOf(ts, TYPE_WSC), radios[..];
      var root, overrun, s := ParseObject(area, 1, signedChar);
      if root == null {
        return;
      }
      PrintParsed(area, 0, 1, signedChar);
      ScanAll(root, s, wscs, was);
    }

    method ScanAll(root: TlvNode, ghost s: set<TlvNode>, ghost wscs: seq<seq<Byte>>, ghost was: seq<ConfState>)
      requires Forest(s, 1) && root in s && root.view.Obj? && Flat(root.view.kids)
      requires wscs == AllOf(root.view.kids, TYPE_WSC) && radios.Length == 2 && was == radios[..]
      requires forall v | v in wscs :: |v| >= 4 ==> WellFormed(v) && RfBands(v) != Some([])
      modifies radios, `rearms
      ensures forall k | 0 <= k < 2 :: radios[k] == if Scanned(wscs, k) then Configured else was[k]
      ensures rearms == old(rearms) + Rearms(wscs)
    {
      ghost var count := rearms;
      var i := 0;
      assert wscs[0..] == wscs;
      while true
        invariant 0 <= i <= |wscs| && ConfiguredBy(wscs, i, was, count)
        decreases |wscs| - i
      {
        ScanMoves(wscs, i, 0);
        ScanMoves(wscs, i, 1);
        CountMoves(wscs, i);
        var wsc := FindWsc(root, i, s);
        if wsc.None? {
          break;
        }
        assert wsc.value in wscs;
        var ok := Configure(wsc.value, wscs, i, was, count);
        if !ok {
          break;
        }
        i := i + 1;
      }
    }

    ghost predicate Unscanned(was: seq<ConfState>, count: nat)
      reads `radios, `rearms, radios
    {
      radios[..] == was && rearms == count
    }

    /** A fragment of a WSC message: it is put behind the earlier ones, and with the last one the whole
        message is parsed and the buffer emptied. A fragment for which there is no room is dropped. */
    method HandleWsc(p: Fragment)
      requires Valid() && length <= INT_MAX
      requires IsLast(p) ==>
        CMDU_HEADER <= offset + |Area(p)| && Readable((Buffered() + Area(p))[CMDU_HEADER..], signedChar)
      modifies `buffer, `length, `offset, `parsed, `rearms, buffer, radios
      ensures Valid() && length <= INT_MAX && (buffer == old(buffer) || fresh(buffer))
      ensures var fits := old(offset) + |Piece(old(Buffered()), p)| < INT_MAX;
        if !fits then Buffered() == old(Buffered()) && parsed == old(parsed) && Unscanned(old(radios[..]), old(rearms))
        else if !IsLast(p) then Buffered() == old(Buffered()) + Piece(old(Buffered()), p) && parsed == old(parsed)
                                && Unscanned(old(radios[..]), old(rearms))
        else Buffered() == [] && parsed == old(parsed) + [(old(Buffered()) + Area(p))[CMDU_HEADER..]]
             && Updated((old(Buffered()) + Area(p))[CMDU_HEADER..], old(radios[..]), old(rearms))
    {
      if !IsLast(p) {
        if offset <= 0 {
          var ok := Append(p);
        } else {
          var ok := Append(p[CMDU_HEADER..]);
        }
        return;
      }
      ghost var all := Buffered() + Area(p);
      var ok := Append(p[CMDU_HEADER..]);
      if !ok {
        return;
      }
      assert buffer[CMDU_HEADER..offset] == all[CMDU_HEADER..];
      ParseWsc(buffer[CMDU_HEADER..offset]);
      parsed := parsed + [all[CMDU_HEADER..]];
      offset := 0;
    }

    /** The first n fragments of a run, which are all but the last. */
    method HandleFront(ps: seq<Fragment>, n: nat)
      requires Valid() && length <= INT_MAX && offset == 0 && OneMessage(ps) && n == |ps| - 1
      requires |Collect([], ps)| < INT_MAX
      modifies `buffer, `length, `offset, `parsed, `rearms, buffer, radios
      ensures Valid() && length <= INT_MAX && (buffer == old(buffer) || fresh(buffer))
      ensures Buffered() == Collect([], ps[..n]) && parsed == old(parsed) && Unscanned(old(radios[..]), old(rearms))
    {
      for i := 0 to n
        invariant Valid() && length <= INT_MAX && (buffer == old(buffer) || fresh(buffer))
        invariant Buffered() == Collect([], ps[..i]) && parsed == old(parsed) && Unscanned(old(radios[..]), old(rearms))
      {
        assert ps[..i + 1] == ps[..i] + [ps[i]];
        CollectLast([], ps[..i], ps[i]);
        CollectGrows(ps, i + 1);
        HandleWsc(ps[i]);
      }
    }

    /** A whole run of fragments, starting with an empty buffer. */
    method HandleRun(ps: seq<Fragment>)
      requires Valid() && length <= INT_MAX && offset == 0 && OneMessage(ps)
      requires CMDU_HEADER <= |Collect([], ps)| < INT_MAX && Readable(Collect([], ps)[CMDU_HEADER..], signedChar)
      modifies `buffer, `length, `offset, `parsed, `rearms, buffer, radios
      ensures Valid() && length <= INT_MAX && (buffer == old(buffer) || fresh(buffer))
      ensures Buffered() == [] && parsed == old(parsed) + [Collect([], ps)[CMDU_HEADER..]]
      ensures parsed[|old(parsed)|] == Areas(ps) <==> |ps| >= 2
      ensures Updated(Collect([], ps)[CMDU_HEADER..], old(radios[..]), old(rearms))
    {
      var n := |ps| - 1;
      HandleFront(ps, n);
      assert ps == ps[..n] + [ps[n]];
      CollectLast([], ps[..n], ps[n]);
      HandleWsc(ps[n]);
      ReassembledIff(ps);
    }
  }

  lemma CollectGrows(ps: seq<Fragment>, i: nat)
    requires i <= |ps|
    ensures |Collect([], ps[..i])| <= |Collect([], ps)|
    decreases |ps| - i
  {
    if i < |ps| {
      assert ps[..i + 1] == ps[..i] + [ps[i]];
      CollectLast([], ps[..i], ps[i]);
      CollectGrows(ps, i + 1);
    } else {
      assert ps[..i] == ps;
    }
  }
}
