/** TLV trees, their encoding, and what the parser reads back (agent/tlv_parser.c), on values. */
module TlvCodec {
  import opened Bytes
  import opened Wrappers

  /** A plain TLV, an array (a TLV whose value is the encoding of its children), or an object (a
      bare list of children). */
  datatype Tree =
    | Leaf(typ: U16, value: seq<Byte>)
    | Arr(typ: U16, kids: seq<Tree>)
    | Obj(kids: seq<Tree>)

  function Low16(n: nat): U16 {
    n % 65536
  }

  function Encode(t: Tree, w: Width): (b: seq<Byte>)
    decreases t, 0
  {
    match t
    case Leaf(typ, value) => TypeBytes(typ, w) + LenBytes(Low16(|value|)) + value
    case Arr(typ, kids) => TypeBytes(typ, w) + LenBytes(Low16(|EncodeAll(kids, w)|)) + EncodeAll(kids, w)
    case Obj(kids) => EncodeAll(kids, w)
  }

  function EncodeAll(ts: seq<Tree>, w: Width): (b: seq<Byte>)
    decreases ts, 1
  {
    if ts == [] then [] else Encode(ts[0], w) + EncodeAll(ts[1..], w)
  }

  lemma {:induction false} EncodeAllConcat(a: seq<Tree>, b: seq<Tree>, w: Width)
    ensures EncodeAll(a + b, w) == EncodeAll(a, w) + EncodeAll(b, w)
  {
    if a == [] {
      assert a + b == b;
    } else {
      assert (a + b)[1..] == a[1..] + b;
      EncodeAllConcat(a[1..], b, w);
    }
  }

  lemma EncodeAllAt(ts: seq<Tree>, i: nat, w: Width)
    requires i < |ts|
    ensures EncodeAll(ts, w) == EncodeAll(ts[..i], w) + Encode(ts[i], w) + EncodeAll(ts[i + 1..], w)
    ensures EncodeAll(ts[..i + 1], w) == EncodeAll(ts[..i], w) + Encode(ts[i], w)
  {
    assert ts == ts[..i] + ts[i..];
    assert ts[..i + 1] == ts[..i] + [ts[i]];
    EncodeAllConcat(ts[..i], ts[i..], w);
    EncodeAllConcat(ts[..i], [ts[i]], w);
  }

  lemma EncodeAllPrefix(ts: seq<Tree>, i: nat, w: Width)
    requires i < |ts|
    ensures EncodeAll(ts[..i + 1], w) == EncodeAll(ts[..i], w) + Encode(ts[i], w)
    ensures |EncodeAll(ts[..i], w)| + |Encode(ts[i], w)| <= |EncodeAll(ts, w)|
  {
    EncodeAllAt(ts, i, w);
  }

  /** Replacing one child changes the total by the difference of the two children. */
  lemma EncodeAllUpdate(ts: seq<Tree>, i: nat, t: Tree, w: Width)
    requires i < |ts|
    ensures |EncodeAll(ts[i := t], w)| == |EncodeAll(ts, w)| - |Encode(ts[i], w)| + |Encode(t, w)|
  {
    EncodeAllAt(ts, i, w);
    EncodeAllAt(ts[i := t], i, w);
    assert ts[i := t][..i] == ts[..i] && ts[i := t][i + 1..] == ts[i + 1..];
  }

  // ---------- The parse loop ----------

  /** The TLVs found from offset o on; None if a value would run past the end of the input. The loop
      goes on only while strictly more than an empty header is left. */
  function ParseFrom(b: seq<Byte>, o: nat, w: Width, signedChar: bool): (r: Option<seq<Tree>>)
    requires o <= |b|
    decreases |b| - o
  {
    if |b| - o <= w + 2 then Some([])
    else
      var n := Big16(b, o + w);
      var e := o + w + 2 + n;
      if e > |b| then None
      else
        var rest := ParseFrom(b, e, w, signedChar);
        if rest.None? then None
        else Some([Leaf(TypeAt(b, o, w, signedChar), b[o + w + 2..e])] + rest.value)
  }

  /** Where the parse loop stops. */
  function StopFrom(b: seq<Byte>, o: nat, w: Width): (e: nat)
    requires o <= |b|
    ensures o <= e
    decreases |b| - o
  {
    if |b| - o <= w + 2 then o
    else
      var e := o + w + 2 + Big16(b, o + w);
      if e > |b| then e else StopFrom(b, e, w)
  }

  // ---------- Flat round trips ----------

  /** Plain TLVs whose lengths fit the length field. */
  ghost predicate Flat(ts: seq<Tree>) {
    forall t | t in ts :: t.Leaf? && |t.value| < 65536
  }

  function IsEmptyTlv(t: Tree): bool {
    t.Leaf? && t.value == []
  }

  /** The list without its last TLV, if that one is empty. */
  function DropTrailingEmpty(ts: seq<Tree>): seq<Tree> {
    if ts != [] && IsEmptyTlv(ts[|ts| - 1]) then ts[..|ts| - 1] else ts
  }

  /** The types of the list as they come back from print and parse. */
  function Retyped(ts: seq<Tree>, w: Width, signedChar: bool): (r: seq<Tree>)
    ensures |r| == |ts|
  {
    seq(|ts|, i requires 0 <= i < |ts| =>
      if ts[i].Leaf? then Leaf(TypeBack(ts[i].typ, w, signedChar), ts[i].value) else ts[i])
  }

  /** At o the octets show a complete TLV of this type and value, which the parse loop takes. */
  ghost predicate ShowsTlv(b: seq<Byte>, o: nat, typ: U16, value: seq<Byte>, w: Width, signedChar: bool) {
    && o + w + 2 + |value| <= |b| && |b| - o > w + 2
    && TypeAt(b, o, w, signedChar) == typ && Big16(b, o + w) == |value|
    && b[o + w + 2..o + w + 2 + |value|] == value
  }

  lemma ParseUnfolds(b: seq<Byte>, o: nat, typ: U16, value: seq<Byte>, w: Width, signedChar: bool)
    requires ShowsTlv(b, o, typ, value, w, signedChar)
    ensures var rest := ParseFrom(b, o + w + 2 + |value|, w, signedChar);
      rest.Some? ==> ParseFrom(b, o, w, signedChar) == Some([Leaf(typ, value)] + rest.value)
  {
  }

  lemma SplitAt(b: seq<Byte>, o: nat, h: seq<Byte>, v: seq<Byte>, more: seq<Byte>)
    requires o <= |b| && b[o..] == h + v + more
    ensures |b| == o + |h| + |v| + |more| && b[o..o + |h|] == h
    ensures b[o + |h|..o + |h| + |v|] == v && b[o + |h| + |v|..] == more
  {
    assert b[o..o + |h|] == b[o..][..|h|];
    assert b[o + |h|..o + |h| + |v|] == b[o..][|h|..|h| + |v|];
    assert b[o + |h| + |v|..] == b[o..][|h| + |v|..];
  }

  /** An encoded TLV is shown, with its type as it comes back, unless nothing but its header is there. */
  lemma EncodedIsShown(b: seq<Byte>, o: nat, t: Tree, more: seq<Byte>, w: Width, signedChar: bool)
    requires t.Leaf? && |t.value| < 65536 && |t.value| + |more| > 0
    requires o <= |b| && b[o..] == Encode(t, w) + more
    ensures ShowsTlv(b, o, TypeBack(t.typ, w, signedChar), t.value, w, signedChar)
    ensures b[o + w + 2 + |t.value|..] == more
  {
    SplitAt(b, o, TypeBytes(t.typ, w) + LenBytes(|t.value|), t.value, more);
    HeaderRoundTrip(b, o, t.typ, |t.value|, w, signedChar);
  }

  lemma RetypedStep(ts: seq<Tree>, w: Width, signedChar: bool)
    requires Flat(ts) && ts != [] && (|ts| > 1 || ts[0].value != [])
    ensures Retyped(DropTrailingEmpty(ts), w, signedChar)
         == [Leaf(TypeBack(ts[0].typ, w, signedChar), ts[0].value)] + Retyped(DropTrailingEmpty(ts[1..]), w, signedChar)
  {
  }

  /** From o on the octets show these TLVs, but for an empty one at the end. */
  ghost predicate ShowsAll(b: seq<Byte>, o: nat, ts: seq<Tree>, w: Width, signedChar: bool)
    decreases |ts|
  {
    if ts == [] || (|ts| == 1 && IsEmptyTlv(ts[0])) then o <= |b| <= o + w + 2
    else
      && ts[0].Leaf? && ShowsTlv(b, o, TypeBack(ts[0].typ, w, signedChar), ts[0].value, w, signedChar)
      && ShowsAll(b, o + w + 2 + |ts[0].value|, ts[1..], w, signedChar)
  }

  lemma EncodedOne(t: Tree, w: Width)
    requires t.Leaf?
    ensures EncodeAll([t], w) == Encode(t, w) && |EncodeAll([t], w)| == w + 2 + |t.value|
  {
    assert [t][1..] == [];
  }

  lemma {:induction false} EncodedAllIsShown(b: seq<Byte>, o: nat, ts: seq<Tree>, w: Width, signedChar: bool)
    requires Flat(ts) && o <= |b| && b[o..] == EncodeAll(ts, w)
    ensures ShowsAll(b, o, ts, w, signedChar)
    decreases |ts|
  {
    assert |b[o..]| == |b| - o;
    if ts == [] {
    } else if |ts| == 1 && IsEmptyTlv(ts[0]) {
      assert ts == [ts[0]];
      EncodedOne(ts[0], w);
    } else {
      var t, rest := ts[0], ts[1..];
      if rest != [] {
        EncodedTlvIsLong(rest, w);
      }
      EncodedIsShown(b, o, t, EncodeAll(rest, w), w, signedChar);
      EncodedAllIsShown(b, o + w + 2 + |t.value|, rest, w, signedChar);
      ShowsMore(b, o, ts, w, signedChar);
    }
  }

  lemma ShowsMore(b: seq<Byte>, o: nat, ts: seq<Tree>, w: Width, signedChar: bool)
    requires ts != [] && ts[0].Leaf? && (|ts| > 1 || ts[0].value != [])
    requires ShowsTlv(b, o, TypeBack(ts[0].typ, w, signedChar), ts[0].value, w, signedChar)
    requires ShowsAll(b, o + w + 2 + |ts[0].value|, ts[1..], w, signedChar)
    ensures ShowsAll(b, o, ts, w, signedChar)
  {
  }

  lemma {:induction false} ParseShown(b: seq<Byte>, o: nat, ts: seq<Tree>, w: Width, signedChar: bool)
    requires Flat(ts) && o <= |b| && ShowsAll(b, o, ts, w, signedChar)
    ensures ParseFrom(b, o, w, signedChar) == Some(Retyped(DropTrailingEmpty(ts), w, signedChar))
    decreases |ts|
  {
    if ts != [] && (|ts| > 1 || ts[0].value != []) {
      ParseShown(b, o + w + 2 + |ts[0].value|, ts[1..], w, signedChar);
      RetypedStep(ts, w, signedChar);
      ParseUnfolds(b, o, TypeBack(ts[0].typ, w, signedChar), ts[0].value, w, signedChar);
    }
  }

  lemma EncodedTlvIsLong(ts: seq<Tree>, w: Width)
    requires Flat(ts) && ts != []
    ensures |EncodeAll(ts, w)| >= w + 2
  {
  }

  /** Parsing what was printed gives the list back, but for one trailing empty TLV and the passage of
      one-octet types through `char`. */
  lemma ParsePrinted(ts: seq<Tree>, w: Width, signedChar: bool)
    requires Flat(ts)
    ensures ParseFrom(EncodeAll(ts, w), 0, w, signedChar) == Some(Retyped(DropTrailingEmpty(ts), w, signedChar))
  {
    EncodedAllIsShown(EncodeAll(ts, w), 0, ts, w, signedChar);
    ParseShown(EncodeAll(ts, w), 0, ts, w, signedChar);
  }

  lemma HeaderKept(b: seq<Byte>, o: nat, w: Width, signedChar: bool)
    requires o + w + 2 <= |b|
    ensures TypeBytes(TypeAt(b, o, w, signedChar), w) == b[o..o + w]
    ensures LenBytes(Big16(b, o + w)) == b[o + w..o + w + 2]
  {
    if w == 1 {
      assert b[o..o + 1] == [b[o]];
    } else {
      assert b[o..o + 2] == [b[o], b[o + 1]];
    }
  }

  lemma EncodedHeader(b: seq<Byte>, o: nat, e: nat, w: Width, signedChar: bool)
    requires o + w + 2 <= e <= |b| && e - (o + w + 2) == Big16(b, o + w)
    ensures Encode(Leaf(TypeAt(b, o, w, signedChar), b[o + w + 2..e]), w) == b[o..e]
  {
    HeaderKept(b, o, w, signedChar);
    assert b[o..o + w] + b[o + w..o + w + 2] + b[o + w + 2..e] == b[o..e];
  }

  lemma PrintedStep(b: seq<Byte>, o: nat, e: nat, t: Tree, more: seq<Tree>, stop: nat, w: Width)
    requires o <= e <= stop <= |b| && Encode(t, w) == b[o..e] && EncodeAll(more, w) == b[e..stop]
    ensures EncodeAll([t] + more, w) == b[o..stop]
  {
    assert ([t] + more)[1..] == more;
  }

  /** Printing what was parsed gives back the octets the parse loop went over; it leaves at most the
      room of one empty TLV. */
  lemma {:induction false} PrintParsed(b: seq<Byte>, o: nat, w: Width, signedChar: bool)
    requires o <= |b| && ParseFrom(b, o, w, signedChar).Some?
    ensures o <= StopFrom(b, o, w) <= |b| <= StopFrom(b, o, w) + w + 2
    ensures EncodeAll(ParseFrom(b, o, w, signedChar).value, w) == b[o..StopFrom(b, o, w)]
    ensures Flat(ParseFrom(b, o, w, signedChar).value)
    decreases |b| - o
  {
    if |b| - o > w + 2 {
      var e := o + w + 2 + Big16(b, o + w);
      var t := Leaf(TypeAt(b, o, w, signedChar), b[o + w + 2..e]);
      ParseUnfolds(b, o, t.typ, t.value, w, signedChar);
      PrintParsed(b, e, w, signedChar);
      EncodedHeader(b, o, e, w, signedChar);
      PrintedStep(b, o, e, t, ParseFrom(b, e, w, signedChar).value, StopFrom(b, e, w), w);
    }
  }

  /** From o on the octets are whole TLVs, at least one, and the last of them is not empty. */
  predicate Tiles(b: seq<Byte>, o: nat, w: Width)
    decreases |b| - o
  {
    && o + w + 2 <= |b|
    && var n := Big16(b, o + w); var e := o + w + 2 + n;
      e <= |b| && if e == |b| then n > 0 else Tiles(b, e, w)
  }

  /** The parse loop finds no overrun, and leaves nothing over, exactly where the octets are whole TLVs
      with a last one that is not empty; at the end of the input there is nothing to find. */
  lemma {:induction false} StopsAtEndIff(b: seq<Byte>, o: nat, w: Width, signedChar: bool)
    requires o <= |b|
    ensures ParseFrom(b, o, w, signedChar).Some? && StopFrom(b, o, w) == |b| <==> o == |b| || Tiles(b, o, w)
    decreases |b| - o
  {
    if |b| - o > w + 2 {
      var e := o + w + 2 + Big16(b, o + w);
      if e <= |b| {
        StopsAtEndIff(b, e, w, signedChar);
        StopIsBounded(b, e, w, signedChar);
      }
    }
  }

  lemma StopIsBounded(b: seq<Byte>, o: nat, w: Width, signedChar: bool)
    requires o <= |b|
    ensures ParseFrom(b, o, w, signedChar).Some? ==> StopFrom(b, o, w) <= |b|
  {
    if ParseFrom(b, o, w, signedChar).Some? {
      PrintParsed(b, o, w, signedChar);
    }
  }

  /** Printing what was parsed gives the octets back, for octets that are not empty, exactly when they
      are whole TLVs of which the last is not empty. */
  lemma PrintParsedIff(b: seq<Byte>, w: Width, signedChar: bool)
    requires b != []
    ensures var ts := ParseFrom(b, 0, w, signedChar); ts.Some? && EncodeAll(ts.value, w) == b <==> Tiles(b, 0, w)
  {
    StopsAtEndIff(b, 0, w, signedChar);
    if ParseFrom(b, 0, w, signedChar).Some? {
      PrintParsed(b, 0, w, signedChar);
      assert b[0..|b|] == b;
    }
  }

  // ---------- Round trip of a tree ----------

  /** The children with nested objects replaced by their own children. */
  function Inline(kids: seq<Tree>): seq<Tree> {
    if kids == [] then []
    else if kids[0].Obj? then Inline(kids[0].kids) + Inline(kids[1..])
    else [kids[0]] + Inline(kids[1..])
  }

  /** Each array as the plain TLV that its encoding is. */
  function AsTlv(t: Tree, w: Width): (r: Tree) {
    if t.Arr? then Leaf(t.typ, EncodeAll(t.kids, w)) else t
  }

  function AsTlvs(ts: seq<Tree>, w: Width): (r: seq<Tree>)
    ensures |r| == |ts| && forall i | 0 <= i < |ts| :: r[i] == AsTlv(ts[i], w)
  {
    if ts == [] then [] else [AsTlv(ts[0], w)] + AsTlvs(ts[1..], w)
  }

  lemma {:induction false} InlineKeepsCode(kids: seq<Tree>, w: Width)
    ensures EncodeAll(AsTlvs(Inline(kids), w), w) == EncodeAll(kids, w)
    decreases kids
  {
    if kids != [] {
      InlineKeepsCode(kids[1..], w);
      if kids[0].Obj? {
        InlineKeepsCode(kids[0].kids, w);
        AsTlvsConcat(Inline(kids[0].kids), Inline(kids[1..]), w);
        EncodeAllConcat(AsTlvs(Inline(kids[0].kids), w), AsTlvs(Inline(kids[1..]), w), w);
      }
    }
  }

  lemma AsTlvsConcat(a: seq<Tree>, b: seq<Tree>, w: Width)
    ensures AsTlvs(a + b, w) == AsTlvs(a, w) + AsTlvs(b, w)
  {
  }

  /** Every value, and every array's contents, fits the length field. */
  ghost predicate Fits(kids: seq<Tree>, w: Width) {
    kids != [] ==>
      && Fits(kids[1..], w)
      && match kids[0]
         case Leaf(_, value) => |value| < 65536
         case Arr(_, ks) => |EncodeAll(ks, w)| < 65536 && Fits(ks, w)
         case Obj(ks) => Fits(ks, w)
  }

  lemma {:induction false} FitsInline(kids: seq<Tree>, w: Width)
    requires Fits(kids, w)
    ensures Flat(AsTlvs(Inline(kids), w))
    decreases kids
  {
    if kids != [] {
      FitsInline(kids[1..], w);
      if kids[0].Obj? {
        FitsInline(kids[0].kids, w);
        AsTlvsConcat(Inline(kids[0].kids), Inline(kids[1..]), w);
      }
    }
  }

  // The trees that reading back gives.

  /** All children, flattened, with types as they come back. */
  function Normal(kids: seq<Tree>, w: Width, signedChar: bool): (r: seq<Tree>)
    ensures |r| == |Inline(kids)|
    decreases kids, 0
  {
    if kids == [] then []
    else
      match kids[0]
      case Obj(ks) => Normal(ks, w, signedChar) + Normal(kids[1..], w, signedChar)
      case Arr(typ, ks) => [Arr(TypeBack(typ, w, signedChar), Expected(ks, w, signedChar))]
        + Normal(kids[1..], w, signedChar)
      case Leaf(typ, value) => [Leaf(TypeBack(typ, w, signedChar), value)] + Normal(kids[1..], w, signedChar)
  }

  /** The last child encodes to a bare header, so the parse loop does not see it. */
  predicate EndsEmpty(kids: seq<Tree>, w: Width) {
    Inline(kids) != [] && IsEmptyTlv(AsTlv(Inline(kids)[|Inline(kids)| - 1], w))
  }

  /** The children that reading back an object or array gives: flattened, without a last empty one. */
  function Expected(kids: seq<Tree>, w: Width, signedChar: bool): (r: seq<Tree>)
    ensures |r| == |Inline(kids)| - (if EndsEmpty(kids, w) then 1 else 0)
    decreases kids, 1
  {
    var all := Normal(kids, w, signedChar);
    if EndsEmpty(kids, w) then all[..|all| - 1] else all
  }

  /** Reads the parsed TLVs `items` as the children `kids`: where an array was printed, the value is
      parsed in turn. Gives the children read and the TLVs left over. */
  function ReadAs(kids: seq<Tree>, items: seq<Tree>, w: Width, signedChar: bool): (seq<Tree>, seq<Tree>)
    decreases kids, 0
  {
    if kids == [] then ([], items)
    else if kids[0].Obj? then
      var (own, rest) := ReadAs(kids[0].kids, items, w, signedChar);
      var (more, left) := ReadAs(kids[1..], rest, w, signedChar);
      (own + more, left)
    else if items == [] || !items[0].Leaf? then ([], [])
    else
      var (more, left) := ReadAs(kids[1..], items[1..], w, signedChar);
      ([ReadOne(kids[0], items[0], w, signedChar)] + more, left)
  }

  function ReadOne(kid: Tree, item: Tree, w: Width, signedChar: bool): Tree
    requires item.Leaf?
    decreases kid, 2
  {
    if kid.Arr? then Arr(item.typ, ReadBack(kid.kids, item.value, w, signedChar)) else item
  }

  /** Parses the octets of an object or array, and then the value of each of its arrays. */
  function ReadBack(kids: seq<Tree>, b: seq<Byte>, w: Width, signedChar: bool): seq<Tree>
    decreases kids, 1
  {
    var items := ParseFrom(b, 0, w, signedChar);
    if items.None? then [] else ReadAs(kids, items.value, w, signedChar).0
  }

  /** The flattened children of a tree as plain TLVs with types as they come back. */
  function Parsed(kids: seq<Tree>, w: Width, signedChar: bool): (r: seq<Tree>)
    ensures |r| == |Inline(kids)|
  {
    Retyped(AsTlvs(Inline(kids), w), w, signedChar)
  }

  ghost predicate Agree(items: seq<Tree>, full: seq<Tree>) {
    forall i | 0 <= i < |items| && i < |full| :: items[i] == full[i]
  }

  function Least(a: nat, b: nat): nat {
    if a <= b then a else b
  }

  /** What reading TLVs as these children gives when they start out, as far as they go, as printed. */
  ghost predicate ReadsNormal(kids: seq<Tree>, items: seq<Tree>, w: Width, signedChar: bool) {
    var n := Least(|items|, |Inline(kids)|);
    ReadAs(kids, items, w, signedChar) == (Normal(kids, w, signedChar)[..n], items[n..])
  }

  /** Taking as much as there is of a, and then of b, is taking as much as there is of a + b. */
  lemma TakeBoth<S, T>(a: seq<T>, b: seq<T>, items: seq<S>)
    ensures var n := Least(|items|, |a|); var m := Least(|items| - n, |b|); var k := Least(|items|, |a| + |b|);
      a[..n] + b[..m] == (a + b)[..k] && items[n..][m..] == items[k..]
  {
  }

  lemma ReadObjStep(kids: seq<Tree>, items: seq<Tree>, w: Width, signedChar: bool)
    requires kids != [] && kids[0].Obj?
    requires ReadsNormal(kids[0].kids, items, w, signedChar)
    requires ReadsNormal(kids[1..], items[Least(|items|, |Inline(kids[0].kids)|)..], w, signedChar)
    ensures ReadsNormal(kids, items, w, signedChar)
  {
    var a, b := Normal(kids[0].kids, w, signedChar), Normal(kids[1..], w, signedChar);
    assert Normal(kids, w, signedChar) == a + b;
    TakeBoth(a, b, items);
  }

  lemma ReadUnfolds(kids: seq<Tree>, items: seq<Tree>, w: Width, signedChar: bool)
    requires kids != [] && !kids[0].Obj? && items != [] && items[0].Leaf?
    ensures var tail := ReadAs(kids[1..], items[1..], w, signedChar);
      ReadAs(kids, items, w, signedChar) == ([ReadOne(kids[0], items[0], w, signedChar)] + tail.0, tail.1)
  {
  }

  lemma TakeItem(x: Tree, rest: seq<Tree>, items: seq<Tree>, tail: (seq<Tree>, seq<Tree>))
    requires items != []
    requires var m := Least(|items| - 1, |rest|); tail == (rest[..m], items[1..][m..])
    ensures var k := Least(|items|, 1 + |rest|); ([x] + tail.0, tail.1) == (([x] + rest)[..k], items[k..])
  {
    TakeBoth([x], rest, items);
    assert [x][..1] == [x];
  }

  lemma ParsedStep(kids: seq<Tree>, w: Width, signedChar: bool)
    requires kids != []
    ensures Parsed(kids, w, signedChar) ==
      (if kids[0].Obj? then Parsed(kids[0].kids, w, signedChar)
       else Retyped([AsTlv(kids[0], w)], w, signedChar)) + Parsed(kids[1..], w, signedChar)
  {
    if kids[0].Obj? {
      AsTlvsConcat(Inline(kids[0].kids), Inline(kids[1..]), w);
    }
  }

  lemma AgreeParts(items: seq<Tree>, a: seq<Tree>, b: seq<Tree>)
    requires Agree(items, a + b)
    ensures Agree(items, a) && Agree(items[Least(|items|, |a|)..], b)
  {
    forall i | 0 <= i < |items| - |a| && i < |b|
      ensures items[|a|..][i] == b[i]
    {
      assert items[|a| + i] == (a + b)[|a| + i];
    }
    forall i | 0 <= i < |items| && i < |a|
      ensures items[i] == a[i]
    {
      assert items[i] == (a + b)[i];
    }
  }

  lemma {:induction false} ReadAsPrinted(kids: seq<Tree>, items: seq<Tree>, w: Width, signedChar: bool)
    requires Fits(kids, w) && Agree(items, Parsed(kids, w, signedChar)) && (forall t | t in items :: t.Leaf?)
    ensures ReadsNormal(kids, items, w, signedChar)
    decreases kids, 0
  {
    if kids == [] {
    } else {
      ParsedStep(kids, w, signedChar);
      if kids[0].Obj? {
        var n := Least(|items|, |Inline(kids[0].kids)|);
        AgreeParts(items, Parsed(kids[0].kids, w, signedChar), Parsed(kids[1..], w, signedChar));
        ReadAsPrinted(kids[0].kids, items, w, signedChar);
        ReadAsPrinted(kids[1..], items[n..], w, signedChar);
        ReadObjStep(kids, items, w, signedChar);
      } else if items != [] {
        var first := Retyped([AsTlv(kids[0], w)], w, signedChar);
        AgreeParts(items, first, Parsed(kids[1..], w, signedChar));
        assert items[0] == first[0];
        ReadAsPrinted(kids[1..], items[1..], w, signedChar);
        if kids[0].Arr? {
          ReadBackEncoded(kids[0].kids, w, signedChar);
        }
        ReadUnfolds(kids, items, w, signedChar);
        TakeItem(ReadOne(kids[0], items[0], w, signedChar), Normal(kids[1..], w, signedChar), items,
                 ReadAs(kids[1..], items[1..], w, signedChar));
      }
    }
  }

  lemma DroppedAgrees(ts: seq<Tree>, w: Width, signedChar: bool)
    ensures Agree(Retyped(DropTrailingEmpty(ts), w, signedChar), Retyped(ts, w, signedChar))
  {
  }

  /** The TLVs the parser finds in an encoded list of children. */
  lemma ItemsOfEncoded(kids: seq<Tree>, w: Width, signedChar: bool) returns (items: seq<Tree>)
    requires Fits(kids, w)
    ensures ParseFrom(EncodeAll(kids, w), 0, w, signedChar) == Some(items)
    ensures |items| == |Expected(kids, w, signedChar)| && Agree(items, Parsed(kids, w, signedChar))
    ensures forall t | t in items :: t.Leaf?
  {
    var ts := AsTlvs(Inline(kids), w);
    InlineKeepsCode(kids, w);
    FitsInline(kids, w);
    ParsePrinted(ts, w, signedChar);
    items := Retyped(DropTrailingEmpty(ts), w, signedChar);
    DroppedAgrees(ts, w, signedChar);
    assert EndsEmpty(kids, w) <==> ts != [] && IsEmptyTlv(ts[|ts| - 1]);
  }

  /** Printing a list of children and reading it back array by array gives the flattened children. */
  lemma {:induction false} ReadBackEncoded(kids: seq<Tree>, w: Width, signedChar: bool)
    requires Fits(kids, w)
    ensures ReadBack(kids, EncodeAll(kids, w), w, signedChar) == Expected(kids, w, signedChar)
    decreases kids, 1
  {
    var items := ItemsOfEncoded(kids, w, signedChar);
    ReadAsPrinted(kids, items, w, signedChar);
  }

  lemma {:induction false} SmallFits(kids: seq<Tree>, w: Width)
    requires |EncodeAll(kids, w)| < 65536
    ensures Fits(kids, w)
    decreases kids
  {
    if kids != [] {
      SmallFits(kids[1..], w);
      if !kids[0].Leaf? {
        SmallFits(kids[0].kids, w);
      }
    }
  }

  /** The round trip of a tree: while the whole encoding fits 16 bits, printing an object and parsing
      it level by level recovers its children, flattened. */
  lemma TreeRoundTrip(kids: seq<Tree>, w: Width, signedChar: bool)
    requires |EncodeAll(kids, w)| < 65536
    ensures ReadBack(kids, Encode(Obj(kids), w), w, signedChar) == Expected(kids, w, signedChar)
  {
    SmallFits(kids, w);
    ReadBackEncoded(kids, w, signedChar);
  }

  // ---------- Which trees come back as they are ----------

  /** A type that print and parse do not change: in one octet, what `char` represents. */
  predicate KeepsType(t: U16, w: Width, signedChar: bool) {
    w == 2 || if signedChar then t < 128 || t >= 0xFF80 else t < 256
  }

  /** The last child has something behind its header. */
  predicate LastIsSeen(kids: seq<Tree>, w: Width) {
    kids != [] ==>
      match kids[|kids| - 1]
      case Leaf(_, value) => value != []
      case Arr(_, ks) => EncodeAll(ks, w) != []
      case Obj(_) => true
  }

  /** At every level there are no nested objects, types that do not change, and a last child that is seen. */
  predicate Plain(kids: seq<Tree>, w: Width, signedChar: bool)
    decreases kids, 1
  {
    PlainKids(kids, w, signedChar) && LastIsSeen(kids, w)
  }

  predicate PlainKids(kids: seq<Tree>, w: Width, signedChar: bool)
    decreases kids, 0
  {
    kids != [] ==> PlainOne(kids[0], w, signedChar) && PlainKids(kids[1..], w, signedChar)
  }

  predicate PlainOne(t: Tree, w: Width, signedChar: bool)
    decreases t, 2
  {
    match t
    case Leaf(typ, _) => KeepsType(typ, w, signedChar)
    case Arr(typ, ks) => KeepsType(typ, w, signedChar) && Plain(ks, w, signedChar)
    case Obj(_) => false
  }

  ghost predicate NoObj(ts: seq<Tree>) {
    forall t | t in ts :: !t.Obj?
  }

  lemma {:induction false} NormalHasNoObj(kids: seq<Tree>, w: Width, signedChar: bool)
    ensures NoObj(Normal(kids, w, signedChar))
    decreases kids
  {
    if kids != [] {
      NormalHasNoObj(kids[1..], w, signedChar);
      if kids[0].Obj? {
        NormalHasNoObj(kids[0].kids, w, signedChar);
      }
    }
  }

  lemma {:induction false} InlineWithoutObj(kids: seq<Tree>)
    requires NoObj(kids)
    ensures Inline(kids) == kids
    decreases |kids|
  {
    if kids != [] {
      assert kids[0] in kids && forall t | t in kids[1..] :: t in kids;
      InlineWithoutObj(kids[1..]);
    }
  }

  /** A child that is not an object, as it comes back. */
  function Back(t: Tree, w: Width, signedChar: bool): Tree
    requires !t.Obj?
  {
    if t.Leaf? then Leaf(TypeBack(t.typ, w, signedChar), t.value)
    else Arr(TypeBack(t.typ, w, signedChar), Expected(t.kids, w, signedChar))
  }

  lemma NormalFirst(kids: seq<Tree>, w: Width, signedChar: bool)
    requires kids != [] && !kids[0].Obj?
    ensures Normal(kids, w, signedChar) == [Back(kids[0], w, signedChar)] + Normal(kids[1..], w, signedChar)
  {
  }

  lemma SameFirst(x: Tree, a: seq<Tree>, s: seq<Tree>)
    requires s != []
    ensures [x] + a == s <==> x == s[0] && a == s[1..]
  {
    assert s == [s[0]] + s[1..];
    assert ([x] + a)[0] == x && ([x] + a)[1..] == a;
  }

  lemma {:induction false} BackIff(t: Tree, w: Width, signedChar: bool)
    requires !t.Obj?
    ensures Back(t, w, signedChar) == t <==> PlainOne(t, w, signedChar)
    decreases t, 2
  {
    if t.Arr? {
      ExpectedIff(t.kids, w, signedChar);
    }
  }

  lemma {:induction false} NormalIff(kids: seq<Tree>, w: Width, signedChar: bool)
    ensures Normal(kids, w, signedChar) == kids <==> PlainKids(kids, w, signedChar)
    decreases kids, 0
  {
    if kids == [] {
    } else if kids[0].Obj? {
      NormalHasNoObj(kids, w, signedChar);
      assert kids[0] in kids;
    } else {
      NormalIff(kids[1..], w, signedChar);
      BackIff(kids[0], w, signedChar);
      NormalFirst(kids, w, signedChar);
      SameFirst(Back(kids[0], w, signedChar), Normal(kids[1..], w, signedChar), kids);
    }
  }

  lemma {:induction false} ExpectedIff(kids: seq<Tree>, w: Width, signedChar: bool)
    ensures Expected(kids, w, signedChar) == kids <==> Plain(kids, w, signedChar)
    decreases kids, 1
  {
    NormalHasNoObj(kids, w, signedChar);
    var r := Expected(kids, w, signedChar);
    assert forall t | t in r :: t in Normal(kids, w, signedChar);
    if r == kids || PlainKids(kids, w, signedChar) {
      NormalIff(kids, w, signedChar);
      assert NoObj(kids);
      InlineWithoutObj(kids);
      assert EndsEmpty(kids, w) <==> !LastIsSeen(kids, w);
    }
  }

  /** A tree whose encoding fits 16 bits is read back as it is exactly when it has no nested objects, no
      types that change, and no last child that is a bare header. */
  lemma ReadBackIsSameIff(kids: seq<Tree>, w: Width, signedChar: bool)
    requires |EncodeAll(kids, w)| < 65536
    ensures ReadBack(kids, Encode(Obj(kids), w), w, signedChar) == kids <==> Plain(kids, w, signedChar)
  {
    TreeRoundTrip(kids, w, signedChar);
    ExpectedIff(kids, w, signedChar);
  }
}
