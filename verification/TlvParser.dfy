/** Building a tree TLV by TLV, parsing octets into one, and looking items up (agent/tlv_parser.c). */
module TlvParser {
  import opened Bytes
  import opened TlvCodec
  import opened TlvTree
  import opened Wrappers

  /** Two forests side by side are a forest. */
  lemma ForestUnion(s: set<TlvNode>, t: set<TlvNode>, w: Width)
    requires Forest(s, w) && Forest(t, w)
    ensures Forest(s + t, w)
  {
    forall n | n in s + t
      ensures n.LinksOk(s + t) && n.Matches(s + t) && n.Counts()
    {
      if n in s {
        assert n.LinksOk(s) && n.Matches(s) && n.Counts();
      } else {
        assert n.LinksOk(t) && n.Matches(t) && n.Counts();
      }
    }
  }

  lemma FreshForest(n: TlvNode, w: Width)
    requires n.Fresh() && n.typeLen == w && n.parent == null
    ensures Forest({n}, w)
  {
  }

  /** Appends a new plain TLV to tlv; s grows by the new node. */
  method AddTlvToObject(tlv: TlvNode, t: U16, value: seq<Byte>, w: Width, ghost s: set<TlvNode>,
                        ghost path: seq<TlvNode>)
    returns (item: TlvNode)
    requires |value| < 65536 && Forest(s, w) && tlv in s && tlv.kind != TlvKind && UpPath(path, tlv)
    modifies s`child, s`kids, s`parent, s`next, s`prev, s`length, s`view
    ensures fresh(item) && Forest(s + {item}, w) && tlv.kids == old(tlv.kids) + [item] && item.parent == tlv
    ensures forall n | n in s && n != tlv :: n.kids == old(n.kids)
    ensures forall n | n in s :: n.parent == old(n.parent)
    ensures !old(tlv.view).Leaf? && tlv.view == old(tlv.view).(kids := old(tlv.view.kids) + [Leaf(t, value)])
    ensures forall n | n in s && n !in path :: n.view == old(n.view) && n.length == old(n.length)
  {
    item := new TlvNode.CreateTlv(t, value, w);
    FreshForest(item, w);
    ForestUnion(s, {item}, w);
    AddItemToObject(tlv, item, s + {item}, w, path);
  }

  /** What the parser returns for some octets: nothing when there is no room for one header, or the
      TLVs found. */
  function ParseSpec(b: seq<Byte>, w: Width, signedChar: bool): (r: Option<seq<Tree>>) {
    if |b| < w + 2 then None else ParseFrom(b, 0, w, signedChar)
  }

  /** The TLVs `done` come before offset o: what is found from o on completes the result. */
  ghost predicate FoundBefore(done: seq<Tree>, b: seq<Byte>, o: nat, w: Width, signedChar: bool) {
    && o <= |b|
    && ParseFrom(b, 0, w, signedChar) ==
       var rest := ParseFrom(b, o, w, signedChar);
       if rest.None? then None else Some(done + rest.value)
  }

  lemma FoundBeforeMoves(done: seq<Tree>, b: seq<Byte>, o: nat, w: Width, signedChar: bool)
    requires FoundBefore(done, b, o, w, signedChar) && |b| - o > w + 2
    requires o + w + 2 + Big16(b, o + w) <= |b|
    ensures var e := o + w + 2 + Big16(b, o + w);
      FoundBefore(done + [Leaf(TypeAt(b, o, w, signedChar), b[o + w + 2..e])], b, e, w, signedChar)
  {
    var e := o + w + 2 + Big16(b, o + w);
    var t := Leaf(TypeAt(b, o, w, signedChar), b[o + w + 2..e]);
    var there := ParseFrom(b, e, w, signedChar);
    assert there.Some? ==> done + ([t] + there.value) == (done + [t]) + there.value;
  }

  lemma FoundBeforeEnds(done: seq<Tree>, b: seq<Byte>, o: nat, w: Width, signedChar: bool)
    ensures FoundBefore([], b, 0, w, signedChar)
    ensures FoundBefore(done, b, o, w, signedChar) && |b| - o <= w + 2 ==> ParseFrom(b, 0, w, signedChar) == Some(done)
  {
    var all := ParseFrom(b, 0, w, signedChar);
    assert all.Some? ==> [] + all.value == all.value;
    assert done + [] == done;
  }

  /** The state of the parse loop at offset o: the TLVs before o hang off the root. */
  ghost predicate Parsing(root: TlvNode, s: set<TlvNode>, b: seq<Byte>, o: int, w: Width, signedChar: bool)
    reads s, root
  {
    && root in s && Forest(s, w) && root.kind == ObjectKind && root.parent == null && root.view.Obj?
    && 0 <= o && FoundBefore(root.view.kids, b, o, w, signedChar)
  }

  /** One turn of the parse loop. */
  method ParseTurn(root: TlvNode, b: seq<Byte>, o: int, w: Width, signedChar: bool, ghost s: set<TlvNode>)
    returns (o': int, ghost s': set<TlvNode>)
    requires Parsing(root, s, b, o, w, signedChar) && |b| - o > w + 2
    requires o + w + 2 + Big16(b, o + w) <= |b|
    modifies s
    ensures Parsing(root, s', b, o', w, signedChar) && o < o' && s <= s' && fresh(s' - s)
  {
    HeaderLoaded(b, o, w, signedChar);
    var typ := Load16(b, o);
    var length := Load16(b, o + w);
    var value := o + w + 2;
    var item := AddTlvToObject(root, NtohsType(typ, w, signedChar), b[value..value + Swap16(length)], w, s, [root]);
    FoundBeforeMoves(old(root.view.kids), b, o, w, signedChar);
    o' := value + Swap16(length);
    s' := s + {item};
  }

  /** Parses octets into an object of plain TLVs. `overrun` tells that a value would be read past the
      end of the input. */
  method ParseObject(b: seq<Byte>, w: Width, signedChar: bool)
    returns (root: TlvNode?, overrun: bool, ghost s: set<TlvNode>)
    ensures overrun <==> |b| >= w + 2 && ParseFrom(b, 0, w, signedChar).None?
    ensures !overrun ==> (root == null <==> |b| < w + 2)
    ensures fresh(s)
    ensures !overrun && root != null ==>
      root in s && Forest(s, w) && root.kind == ObjectKind && root.view.Obj?
      && ParseFrom(b, 0, w, signedChar) == Some(root.view.kids)
  {
    s := {};
    if |b| < w + 2 {
      return null, false, {};
    }
    root := new TlvNode.CreateObject(w);
    FreshForest(root, w);
    s := {root};
    var o := 0;
    FoundBeforeEnds([], b, 0, w, signedChar);
    while |b| - o > w + 2
      invariant Parsing(root, s, b, o, w, signedChar) && fresh(s)
      decreases |b| - o
    {
      HeaderLoaded(b, o, w, signedChar);
      if o + w + 2 + Swap16(Load16(b, o + w)) > |b| {
        return null, true, s;
      }
      o, s := ParseTurn(root, b, o, w, signedChar, s);
    }
    FoundBeforeEnds(root.view.kids, b, o, w, signedChar);
    return root, false, s;
  }

  ghost function Types(kids: seq<TlvNode>): (ts: seq<U16>)
    reads kids`typ
    ensures |ts| == |kids| && forall i | 0 <= i < |ts| :: ts[i] == kids[i].typ
  {
    if kids == [] then [] else [kids[0].typ] + Types(kids[1..])
  }

  /** The position of the (idx+1)-th occurrence of t, or the length of the list. */
  function NthOf(types: seq<U16>, t: U16, idx: nat): (k: nat)
    ensures k <= |types| && (k < |types| ==> types[k] == t)
  {
    if types == [] then 0
    else if types[0] == t && idx == 0 then 0
    else 1 + NthOf(types[1..], t, if types[0] == t then idx - 1 else idx)
  }

  /** The search has passed i types and has to meet t `left` more times before the one it wants. */
  ghost predicate Seeking(types: seq<U16>, t: U16, idx: nat, i: nat, left: nat) {
    i <= |types| && NthOf(types, t, idx) == i + NthOf(types[i..], t, left)
  }

  lemma SeekingMoves(types: seq<U16>, t: U16, idx: nat, i: nat, left: nat)
    requires Seeking(types, t, idx, i, left)
    ensures i == |types| ==> NthOf(types, t, idx) == |types|
    ensures i < |types| && types[i] == t && left == 0 ==> NthOf(types, t, idx) == i
    ensures i < |types| && types[i] == t && left > 0 ==> Seeking(types, t, idx, i + 1, left - 1)
    ensures i < |types| && types[i] != t ==> Seeking(types, t, idx, i + 1, left)
  {
    if i < |types| {
      assert types[i..][0] == types[i] && types[i..][1..] == types[i + 1..];
    }
  }

  /** The forward links of a list of children. */
  ghost predicate Chained(kids: seq<TlvNode>)
    reads kids`next
  {
    forall i {:trigger kids[i].next} | 0 <= i < |kids| :: kids[i].next == NextOf(kids, i)
  }

  /** The (idx+1)-th child of the given type, or null. */
  method GetObjectItem(n: TlvNode, t: U16, idx: nat, ghost s: set<TlvNode>) returns (item: TlvNode?)
    requires n.LinksOk(s)
    ensures var k := NthOf(Types(n.kids), t, idx); item == if k < |n.kids| then n.kids[k] else null
  {
    item := SearchFrom(n.child, n.kids, t, idx);
  }

  /** The search loop, over the children that `first` is the front of. */
  method SearchFrom(first: TlvNode?, ghost kids: seq<TlvNode>, t: U16, idx: nat) returns (item: TlvNode?)
    requires first == First(kids) && Chained(kids)
    ensures var k := NthOf(Types(kids), t, idx); item == if k < |kids| then kids[k] else null
  {
    var left := idx;
    ghost var i, types := 0, Types(kids);
    item := first;
    assert types[0..] == types;
    while item != null
      invariant 0 <= i <= |kids| && item == if i < |kids| then kids[i] else null
      invariant Seeking(types, t, idx, i, left)
      decreases |kids| - i
    {
      SeekingMoves(types, t, idx, i, left);
      var next := item.next;
      if item.typ == t {
        if left == 0 {
          return;
        }
        left := left - 1;
      }
      item, i := next, i + 1;
    }
    SeekingMoves(types, t, idx, i, left);
  }

  /** The type codes of a list of plain TLVs. */
  function LeafTypes(ts: seq<Tree>): (r: seq<U16>)
    requires forall t | t in ts :: t.Leaf?
    ensures |r| == |ts| && forall i | 0 <= i < |ts| :: r[i] == ts[i].typ
  {
    if ts == [] then [] else [ts[0].typ] + LeafTypes(ts[1..])
  }

  /** The nodes under an object of plain TLVs hold the types and values of its tree. */
  lemma LeafKids(n: TlvNode, s: set<TlvNode>, w: Width)
    requires Forest(s, w) && n in s && n.view.Obj? && forall t | t in n.view.kids :: t.Leaf?
    ensures |n.kids| == |n.view.kids| && Types(n.kids) == LeafTypes(n.view.kids)
    ensures forall i | 0 <= i < |n.kids| :: n.kids[i].kind == TlvKind && n.kids[i].value == n.view.kids[i].value
  {
    assert n.Matches(s) && n.LinksOk(s);
    forall i | 0 <= i < |n.kids|
      ensures n.kids[i].kind == TlvKind && n.kids[i].value == n.view.kids[i].value
        && n.kids[i].typ == n.view.kids[i].typ
    {
      assert n.kids[i].Matches(s) && n.kids[i].view == n.view.kids[i];
      assert n.view.kids[i] in n.view.kids;
    }
  }

  /** Looks up a plain TLV of an object of such: its value is the one in the tree. */
  method GetValue(n: TlvNode, t: U16, idx: nat, ghost s: set<TlvNode>, ghost w: Width) returns (r: Option<seq<Byte>>)
    requires Forest(s, w) && n in s && n.view.Obj? && forall x | x in n.view.kids :: x.Leaf?
    ensures var k := NthOf(LeafTypes(n.view.kids), t, idx);
      r == if k < |n.view.kids| then Some(n.view.kids[k].value) else None
  {
    LeafKids(n, s, w);
    assert n.LinksOk(s);
    ghost var k := NthOf(Types(n.kids), t, idx);
    var item := GetObjectItem(n, t, idx, s);
    if item == null {
      return None;
    }
    assert item == n.kids[k];
    return Some(item.value);
  }
}
