/** The linked TLV tree, with its incremental length bookkeeping (agent/tlv_parser.c). */
module TlvTree {
  import opened Bytes
  import opened TlvCodec

  datatype Kind = TlvKind | ObjectKind | ArrayKind

  class TlvNode {
    var next: TlvNode?
    var prev: TlvNode?
    var child: TlvNode?
    var parent: TlvNode?
    var typ: U16
    var typeLen: Width
    var length: U16
    var kind: Kind
    var value: seq<Byte>
    ghost var kids: seq<TlvNode>
    ghost var view: Tree

    constructor CreateObject(w: Width)
      ensures IsRoot() && kind == ObjectKind && typeLen == w && view == Obj([]) && Fresh()
    {
      next, prev, child, parent := null, null, null, null;
      typ, typeLen, length, kind, value := 0, w, 0, ObjectKind, [];
      kids, view := [], Obj([]);
    }

    constructor CreateArray(t: U16, w: Width)
      ensures IsRoot() && kind == ArrayKind && typeLen == w && view == Arr(t, []) && Fresh()
    {
      next, prev, child, parent := null, null, null, null;
      typ, typeLen, length, kind, value := t, w, 0, ArrayKind, [];
      kids, view := [], Arr(t, []);
    }

    constructor CreateTlv(t: U16, v: seq<Byte>, w: Width)
      requires |v| < 65536
      ensures IsRoot() && kind == TlvKind && typeLen == w && view == Leaf(t, v) && Fresh()
    {
      next, prev, child, parent := null, null, null, null;
      typ, typeLen, length, kind, value := t, w, |v|, TlvKind, v;
      kids, view := [], Leaf(t, v);
    }

    predicate IsRoot()
      reads this`parent
    {
      parent == null
    }

    /** A node as it is created: without links, and consistent on its own. */
    ghost predicate Fresh()
      reads this
    {
      LinksOk({this}) && Matches({this}) && Counts()
    }

    /** The links below this node represent `kids`, and its parent link agrees. */
    ghost predicate LinksOk(s: set<TlvNode>)
      reads this`next, this`child, this`parent, this`kind, this`kids, s`next, s`prev, s`parent
    {
      && this in s && (parent == null ==> next == null)
      && (parent != null ==> parent in s && parent != this)
      && (kind == TlvKind ==> kids == [])
      && child == First(kids)
      && (forall i | 0 <= i < |kids| :: kids[i] in s && kids[i].parent == this)
      && (forall i, j | 0 <= i < j < |kids| :: kids[i] != kids[j])
      && (forall i {:trigger kids[i].next} | 0 <= i < |kids| :: kids[i].next == NextOf(kids, i))
      && (forall i {:trigger kids[i].prev} | 0 <= i < |kids| :: kids[i].prev == PrevOf(kids, i))
    }

    /** The abstract tree has this node's data, and the trees of its children. */
    ghost predicate Matches(s: set<TlvNode>)
      reads this`kind, this`view, this`typ, this`value, this`length, this`kids, s`view
    {
      match kind
      case TlvKind => view == Leaf(typ, value) && length == |value|
      case ArrayKind => view.Arr? && view.typ == typ && Shows(view.kids, kids, s)
      case ObjectKind => view.Obj? && Shows(view.kids, kids, s)
    }

    /** The length field counts the octets of the children, modulo 2^16. */
    ghost predicate Counts()
      reads this`view, this`length, this`typeLen
    {
      !view.Leaf? ==> length == Low16(|EncodeAll(view.kids, typeLen)|)
    }
  }

  ghost predicate Shows(ts: seq<Tree>, kids: seq<TlvNode>, s: set<TlvNode>)
    reads s`view
  {
    |ts| == |kids| && forall i | 0 <= i < |ts| :: kids[i] in s && ts[i] == kids[i].view
  }

  ghost function First(s: seq<TlvNode>): TlvNode? {
    if s == [] then null else s[0]
  }

  ghost function NextOf(s: seq<TlvNode>, i: nat): TlvNode? {
    if i + 1 < |s| then s[i + 1] else null
  }

  /** The backward links form a ring: the first child points at the last. */
  ghost function PrevOf(s: seq<TlvNode>, i: nat): TlvNode?
    requires i < |s|
  {
    if i > 0 then s[i - 1] else s[|s| - 1]
  }

  /** A closed set of nodes of one type width, consistently linked. */
  ghost predicate Links(s: set<TlvNode>, w: Width)
    reads s`next, s`prev, s`parent, s`child, s`kind, s`kids, s`typeLen
  {
    && (forall n {:trigger n.LinksOk(s)} | n in s :: n.LinksOk(s))
    && (forall n {:trigger n.typeLen} | n in s :: n.typeLen == w)
    && (forall n {:trigger n.parent} | n in s && n.parent != null :: n.parent in s && n in n.parent.kids)
  }

  /** A forest: well linked, and every node's tree and length are right. */
  ghost predicate Forest(s: set<TlvNode>, w: Width)
    reads s
  {
    && Links(s, w)
    && (forall n {:trigger n.Matches(s)} | n in s :: n.Matches(s))
    && (forall n {:trigger n.Counts()} | n in s :: n.Counts())
  }

  /** The path from a node up to its root. */
  ghost predicate UpPath(path: seq<TlvNode>, n: TlvNode)
    reads path`parent
  {
    && path != [] && path[0] == n
    && (forall i {:trigger path[i].parent} | 0 <= i < |path| - 1 :: path[i].parent == path[i + 1])
    && path[|path| - 1].parent == null
  }

  function Height(t: Tree): nat {
    if t.Leaf? then 0 else 1 + HeightAll(t.kids)
  }

  function HeightAll(ts: seq<Tree>): nat {
    if ts == [] then 0
    else if Height(ts[0]) > HeightAll(ts[1..]) then Height(ts[0]) else HeightAll(ts[1..])
  }

  lemma HeightOfKid(ts: seq<Tree>, i: nat)
    requires i < |ts|
    ensures Height(ts[i]) <= HeightAll(ts)
  {
    if i > 0 {
      HeightOfKid(ts[1..], i - 1);
    }
  }

  lemma ParentIsHigher(s: set<TlvNode>, w: Width, n: TlvNode)
    requires Forest(s, w) && n in s && n.parent != null
    ensures n.parent in s && Height(n.view) < Height(n.parent.view)
  {
    var p := n.parent;
    var i :| 0 <= i < |p.kids| && p.kids[i] == n;
    assert p.LinksOk(s) && p.Matches(s) && Shows(p.view.kids, p.kids, s);
    HeightOfKid(p.view.kids, i);
  }

  /** In a forest the chain of parents of any node ends: the ancestor walk terminates. The nodes in
      `rest` are those the walk may still meet. */
  lemma {:induction false} UpPathExists(s: set<TlvNode>, w: Width, n: TlvNode, rest: set<TlvNode>)
    returns (path: seq<TlvNode>)
    requires Forest(s, w) && n in rest && rest <= s
    requires forall m | m in s - rest :: Height(m.view) < Height(n.view)
    ensures UpPath(path, n) && forall m | m in path :: m in s
    decreases rest
  {
    if n.parent == null {
      path := [n];
    } else {
      ParentIsHigher(s, w, n);
      var up := UpPathExists(s, w, n.parent, rest - {n});
      path := [n] + up;
    }
  }

  /** The trees the children have now. */
  ghost function KidViews(kids: seq<TlvNode>): (ts: seq<Tree>)
    reads kids`view
    ensures |ts| == |kids| && forall i | 0 <= i < |ts| :: ts[i] == kids[i].view
  {
    if kids == [] then [] else [kids[0].view] + KidViews(kids[1..])
  }

  /** The children of p have grown by d octets, and p does not know yet. */
  ghost predicate Behind(p: TlvNode, w: Width, d: nat)
    reads p`kind, p`view, p`typ, p`kids, p.kids`view
  {
    && ((p.kind == ArrayKind && p.view.Arr? && p.view.typ == p.typ) || (p.kind == ObjectKind && p.view.Obj?))
    && |EncodeAll(KidViews(p.kids), w)| == |EncodeAll(p.view.kids, w)| + d
  }

  /** Everything is right, except that p is d octets behind its children. */
  ghost predicate Walk(s: set<TlvNode>, w: Width, p: TlvNode?, d: nat)
    reads s
  {
    && Links(s, w)
    && (forall n {:trigger n.Matches(s)} | n in s && n != p :: n.Matches(s))
    && (forall n {:trigger n.Counts()} | n in s :: n.Counts())
    && (p != null ==> p in s && p.LinksOk(s) && Behind(p, w, d))
  }

  lemma Low16Sum(a: nat, b: nat)
    ensures (Low16(a) + Low16(b)) % 65536 == Low16(a + b)
  {
  }

  lemma GrownTree(t: Tree, ts: seq<Tree>, w: Width, d: nat)
    requires !t.Leaf? && |EncodeAll(ts, w)| == |EncodeAll(t.kids, w)| + d
    ensures |Encode(t.(kids := ts), w)| == |Encode(t, w)| + d
  {
  }

  /** A kid that grew by d octets leaves its parent that much behind. */
  lemma ParentFallsBehind(p: TlvNode, was: Tree, q: TlvNode, s: set<TlvNode>, w: Width, d: nat)
    requires q in s && q.LinksOk(s) && p in q.kids
    requires (q.kind == ArrayKind && q.view.Arr? && q.view.typ == q.typ) || (q.kind == ObjectKind && q.view.Obj?)
    requires |q.view.kids| == |q.kids|
    requires forall i | 0 <= i < |q.kids| :: q.view.kids[i] == if q.kids[i] == p then was else q.kids[i].view
    requires |Encode(p.view, w)| == |Encode(was, w)| + d
    ensures Behind(q, w, d)
  {
    var j :| 0 <= j < |q.kids| && q.kids[j] == p;
    var ts := q.view.kids;
    assert KidViews(q.kids) == ts[j := p.view];
    EncodeAllUpdate(ts, j, p.view, w);
  }

  /** p takes over what its children have become, and adds the increment to its length. */
  method Grow(p: TlvNode, inc: U16, ghost s: set<TlvNode>, ghost w: Width, ghost d: nat)
    requires p in s && p.LinksOk(s) && p.Counts() && p.typeLen == w && Behind(p, w, d) && inc == Low16(d)
    modifies p`length, p`view
    ensures p.Matches(s) && p.Counts() && |Encode(p.view, w)| == |Encode(old(p.view), w)| + d
  {
    ghost var was, ts := p.view, KidViews(p.kids);
    p.length := (p.length + inc) % 65536;
    Low16Sum(|EncodeAll(was.kids, w)|, d);
    p.view := was.(kids := ts);
    GrownTree(was, ts, w, d);
    assert Shows(ts, p.kids, s);
  }

  /** One step of the ancestor walk: p catches up, and its parent falls behind. */
  method CatchUp(p: TlvNode, inc: U16, ghost s: set<TlvNode>, ghost w: Width, ghost d: nat)
    requires Walk(s, w, p, d) && inc == Low16(d)
    modifies p`length, p`view
    ensures Walk(s, w, p.parent, d)
  {
    ghost var was, q := p.view, p.parent;
    assert p.Counts() && p.typeLen == w;
    assert q != null ==> q.Matches(s) && q.LinksOk(s);
    Grow(p, inc, s, w, d);
    assert Links(s, w);
    forall n | n in s && n != p && n != q
      ensures n.Matches(s)
    {
      assert old(n.Matches(s));
      assert n.LinksOk(s);
    }
    forall n | n in s
      ensures n.Counts()
    {
      assert old(n.Counts());
    }
    if q != null {
      ParentFallsBehind(p, was, q, s, w, d);
    }
  }

  /** The pointer surgery of an attachment: item becomes the last child of tlv. */
  method Append(tlv: TlvNode, item: TlvNode, ghost s: set<TlvNode>)
    requires tlv.LinksOk(s) && item in s && tlv != item && tlv.kind != TlvKind
    requires item.parent == null && item.next == null && item !in tlv.kids
    modifies tlv`child, tlv`kids, item`parent, item`next, item`prev, tlv.kids`next, tlv.kids`prev
    ensures tlv.LinksOk(s) && tlv.kids == old(tlv.kids) + [item] && item.parent == tlv && item.next == null
  {
    ghost var ks := tlv.kids;
    var c := tlv.child;
    item.parent := tlv;
    if c == null {
      tlv.child := item;
      item.prev := item;
      item.next := null;
    } else if c.prev != null {
      c.prev.next := item;
      item.prev := c.prev;
      tlv.child.prev := item;
    }
    tlv.kids := ks + [item];
  }

  method LinkChild(tlv: TlvNode, item: TlvNode, ghost s: set<TlvNode>, ghost w: Width)
    requires Links(s, w) && tlv in s && item in s && tlv != item && tlv.kind != TlvKind && item.parent == null
    modifies tlv`child, tlv`kids, item`parent, item`next, item`prev, tlv.kids`next, tlv.kids`prev
    ensures Links(s, w) && tlv.kids == old(tlv.kids) + [item] && item.parent == tlv
  {
    assert tlv.LinksOk(s) && item.LinksOk(s);
    Append(tlv, item, s);
    forall n | n in s
      ensures n.LinksOk(s)
    {
      assert old(n.LinksOk(s));
    }
  }

  /** What is added to the lengths for an attached item: its length, and for a TLV or an array the header
      as wide as the parent's types. It is the size of the item's encoding exactly when the item is an
      object or has types as wide as the parent's. */
  method Increment(tlv: TlvNode, item: TlvNode, ghost s: set<TlvNode>) returns (inc: U16)
    requires item.Matches(s) && item.Counts()
    ensures inc == Low16(|Encode(item.view, item.typeLen)| +
                         (if item.kind == ObjectKind then 0 else tlv.typeLen - item.typeLen))
    ensures inc == Low16(|Encode(item.view, item.typeLen)|) <==> item.kind == ObjectKind || tlv.typeLen == item.typeLen
  {
    if item.kind == TlvKind || item.kind == ArrayKind {
      inc := (tlv.typeLen + 2 + item.length) % 65536;
      ghost var n := if item.view.Leaf? then |item.view.value| else |EncodeAll(item.view.kids, item.typeLen)|;
      Low16Sum(tlv.typeLen + 2, n);
      Low16Neighbours(item.typeLen + 2 + n, tlv.typeLen + 2 + n);
    } else {
      inc := item.length;
    }
  }

  lemma Low16Neighbours(a: nat, b: nat)
    requires -1 <= a - b <= 1
    ensures Low16(a) == Low16(b) <==> a == b
  {
  }

  lemma NewKidLeavesBehind(p: TlvNode, item: TlvNode, ts: seq<Tree>, w: Width)
    requires (p.kind == ArrayKind && p.view.Arr? && p.view.typ == p.typ) || (p.kind == ObjectKind && p.view.Obj?)
    requires p.view.kids == ts && |p.kids| == |ts| + 1 && p.kids[|ts|] == item
    requires forall i | 0 <= i < |ts| :: ts[i] == p.kids[i].view
    ensures Behind(p, w, |Encode(item.view, w)|)
  {
    assert KidViews(p.kids) == ts + [item.view];
    EncodeAllConcat(ts, [item.view], w);
    assert EncodeAll([item.view], w) == Encode(item.view, w);
  }

  /** After the links are changed, everything but the new parent is still right. */
  method StartWalk(tlv: TlvNode, item: TlvNode, ghost s: set<TlvNode>, ghost w: Width)
    requires Forest(s, w) && tlv in s && item in s && tlv != item && tlv.kind != TlvKind && item.parent == null
    modifies tlv`child, tlv`kids, item`parent, item`next, item`prev, tlv.kids`next, tlv.kids`prev
    ensures Walk(s, w, tlv, |Encode(item.view, w)|)
    ensures tlv.kids == old(tlv.kids) + [item] && item.parent == tlv
  {
    assert tlv.Matches(s);
    ghost var ks, ts := tlv.kids, tlv.view.kids;
    assert Shows(ts, ks, s);
    LinkChild(tlv, item, s, w);
    assert Links(s, w);
    assert tlv.LinksOk(s);
    NewKidLeavesBehind(tlv, item, ts, w);
    forall n | n in s && n != tlv
      ensures n.Matches(s)
    {
      assert old(n.Matches(s));
    }
    forall n | n in s
      ensures n.Counts()
    {
      assert old(n.Counts());
    }
  }

  /** The loop over the ancestors. */
  method WalkUp(tlv: TlvNode, inc: U16, ghost s: set<TlvNode>, ghost w: Width, ghost d: nat, ghost path: seq<TlvNode>)
    requires Walk(s, w, tlv, d) && inc == Low16(d) && UpPath(path, tlv)
    modifies s`length, s`view
    ensures Walk(s, w, null, d)
    ensures forall n | n in s && n !in path :: n.view == old(n.view) && n.length == old(n.length)
  {
    var p: TlvNode? := tlv;
    ghost var i := 0;
    while p != null
      invariant 0 <= i <= |path| && p == if i < |path| then path[i] else null
      invariant Walk(s, w, p, d)
      invariant forall n | n in s && n !in path :: n.view == old(n.view) && n.length == old(n.length)
      decreases |path| - i
    {
      var parent := p.parent;
      assert parent == if i + 1 < |path| then path[i + 1] else null;
      CatchUp(p, inc, s, w, d);
      p, i := parent, i + 1;
    }
  }

  /** Going up, the trees get strictly higher; so no node is its own ancestor. */
  lemma {:induction false} PathClimbs(s: set<TlvNode>, w: Width, path: seq<TlvNode>, n: TlvNode, i: nat)
    requires Forest(s, w) && n in s && UpPath(path, n) && i < |path|
    ensures path[i] in s && (i > 0 ==> Height(n.view) < Height(path[i].view))
  {
    if i > 0 {
      PathClimbs(s, w, path, n, i - 1);
      assert path[i - 1].parent == path[i];
      ParentIsHigher(s, w, path[i - 1]);
    }
  }

  lemma KidsNotAbove(s: set<TlvNode>, w: Width, path: seq<TlvNode>, n: TlvNode)
    requires Forest(s, w) && n in s && UpPath(path, n)
    ensures forall k | k in n.kids :: k !in path
  {
    assert n.LinksOk(s);
    forall k | k in n.kids
      ensures k !in path
    {
      var j :| 0 <= j < |n.kids| && n.kids[j] == k;
      assert n.kids[j].parent == n;
      ParentIsHigher(s, w, k);
      if k in path {
        var i :| 0 <= i < |path| && path[i] == k;
        PathClimbs(s, w, path, n, i);
      }
    }
  }

  lemma NewView(tlv: TlvNode, item: TlvNode, was: Tree, s: set<TlvNode>)
    requires tlv.Matches(s) && tlv.kind != TlvKind && !was.Leaf?
    requires tlv.kids != [] && tlv.kids[|tlv.kids| - 1] == item && |was.kids| == |tlv.kids| - 1
    requires forall i | 0 <= i < |was.kids| :: was.kids[i] == tlv.kids[i].view
    requires if tlv.kind == ArrayKind then was.Arr? && was.typ == tlv.typ else was.Obj?
    ensures tlv.view == was.(kids := was.kids + [item.view])
  {
    assert tlv.view.kids == was.kids + [item.view];
  }

  /** The attachment, but for the exact tree it gives tlv. */
  method Attach(tlv: TlvNode, item: TlvNode, ghost s: set<TlvNode>, ghost w: Width, ghost path: seq<TlvNode>)
    requires Forest(s, w) && tlv in s && item in s && tlv.kind != TlvKind && item.parent == null
    requires UpPath(path, tlv) && item !in path
    modifies s`child, s`kids, s`parent, s`next, s`prev, s`length, s`view
    ensures Forest(s, w)
    ensures tlv.kids == old(tlv.kids) + [item] && item.parent == tlv
    ensures forall n | n in s && n != tlv :: n.kids == old(n.kids)
    ensures forall n | n in s && n != item :: n.parent == old(n.parent)
    ensures forall n | n in s && n !in path :: n.view == old(n.view) && n.length == old(n.length)
  {
    assert item.Matches(s) && item.Counts() && tlv.typeLen == w && item.typeLen == w;
    assert tlv.LinksOk(s);
    var inc := Increment(tlv, item, s);
    ghost var d := |Encode(item.view, w)|;
    StartWalk(tlv, item, s, w);
    WalkUp(tlv, inc, s, w, d, path);
  }

  /** Attaches item as the last child of tlv and adds its size to the lengths of tlv and of all nodes
      above it. */
  method AddItemToObject(tlv: TlvNode, item: TlvNode, ghost s: set<TlvNode>, ghost w: Width, ghost path: seq<TlvNode>)
    requires Forest(s, w) && tlv in s && item in s && tlv.kind != TlvKind && item.parent == null
    requires UpPath(path, tlv) && item !in path
    modifies s`child, s`kids, s`parent, s`next, s`prev, s`length, s`view
    ensures Forest(s, w)
    ensures tlv.kids == old(tlv.kids) + [item] && item.parent == tlv
    ensures forall n | n in s && n != tlv :: n.kids == old(n.kids)
    ensures forall n | n in s && n != item :: n.parent == old(n.parent)
    ensures forall n | n in s && n !in path :: n.view == old(n.view) && n.length == old(n.length)
    ensures !old(tlv.view).Leaf? && tlv.view == old(tlv.view).(kids := old(tlv.view.kids) + [item.view])
  {
    KidsNotAbove(s, w, path, tlv);
    assert tlv.Matches(s);
    ghost var was := tlv.view;
    Attach(tlv, item, s, w, path);
    assert tlv.Matches(s);
    NewView(tlv, item, was, s);
  }

  /** What the children of a node count for in its length: a TLV or an array with its header, a nested
      object inline. */
  ghost function ChildTotal(kids: seq<TlvNode>, w: Width): nat
    reads kids`kind, kids`length
  {
    if kids == [] then 0
    else (if kids[0].kind == ObjectKind then kids[0].length else w + 2 + kids[0].length) + ChildTotal(kids[1..], w)
  }

  lemma {:induction false} ChildTotalIsSize(kids: seq<TlvNode>, s: set<TlvNode>, w: Width)
    requires Forest(s, w) && forall k | k in kids :: k in s
    ensures Low16(ChildTotal(kids, w)) == Low16(|EncodeAll(KidViews(kids), w)|)
    decreases |kids|
  {
    if kids != [] {
      var k := kids[0];
      assert k in kids;
      assert k.Matches(s) && k.Counts() && k.typeLen == w;
      ChildTotalIsSize(kids[1..], s, w);
      assert KidViews(kids)[1..] == KidViews(kids[1..]);
      var own := if k.kind == ObjectKind then k.length else w + 2 + k.length;
      HeaderAndLength(k.view, k.length, own, w);
      Low16Sum(own, ChildTotal(kids[1..], w));
      Low16Sum(|Encode(k.view, w)|, |EncodeAll(KidViews(kids[1..]), w)|);
    }
  }

  lemma HeaderAndLength(t: Tree, length: U16, own: nat, w: Width)
    requires t.Leaf? ==> length == |t.value|
    requires !t.Leaf? ==> length == Low16(|EncodeAll(t.kids, w)|)
    requires own == if t.Obj? then length else w + 2 + length
    ensures Low16(own) == Low16(|Encode(t, w)|)
  {
    if t.Arr? {
      Low16Sum(w + 2, |EncodeAll(t.kids, w)|);
      Low16Sum(w + 2, length);
    }
  }

  /** Whatever the order of attachment was: the length of every node that has children is what its
      children count for, modulo 2^16, and their exact encoded size while that fits 16 bits. */
  lemma LengthsAddUp(s: set<TlvNode>, w: Width, n: TlvNode)
    requires Forest(s, w) && n in s && n.kind != TlvKind
    ensures n.length == Low16(ChildTotal(n.kids, w))
    ensures !n.view.Leaf? && (|EncodeAll(n.view.kids, w)| < 65536 ==> n.length == |EncodeAll(n.view.kids, w)|)
  {
    assert n.Matches(s) && n.Counts() && n.LinksOk(s) && n.typeLen == w;
    assert KidViews(n.kids) == n.view.kids;
    ChildTotalIsSize(n.kids, s, w);
  }
}
