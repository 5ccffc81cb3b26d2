/** The recursive printer into a growing buffer (agent/tlv_parser.c). */
module TlvPrinter {
  import opened Bytes
  import opened TlvCodec
  import opened TlvTree
  import opened Wrappers

  lemma KidPrinted(out: seq<Byte>, ts: seq<Tree>, i: nat, w: Width)
    requires i < |ts|
    ensures (out + EncodeAll(ts[..i], w)) + Encode(ts[i], w) == out + EncodeAll(ts[..i + 1], w)
    ensures |EncodeAll(ts[..i], w)| + |Encode(ts[i], w)| <= |EncodeAll(ts, w)|
  {
    EncodeAllPrefix(ts, i, w);
  }

  class PrintBuffer {
    var buffer: array<Byte>
    var length: nat
    var offset: nat

    ghost predicate Valid()
      reads this
    {
      offset < length == buffer.Length <= INT_MAX
    }

    constructor (size: nat)
      requires 0 < size <= INT_MAX
      ensures Valid() && fresh(buffer) && offset == 0
    {
      buffer, length, offset := new Byte[size], size, 0;
    }

    /** Makes room for `needed` octets and one more, by reallocating to twice the total. It refuses
        exactly when the total exceeds INT_MAX; what is written already is kept. */
    method Ensure(needed: nat) returns (ok: bool)
      requires Valid()
      modifies this
      ensures Valid() && offset == old(offset) && (buffer == old(buffer) || fresh(buffer))
      ensures ok <==> offset + needed + 1 <= INT_MAX
      ensures ok ==> offset + needed + 1 <= length
      ensures buffer[..offset] == old(buffer[..offset])
    {
      if length > 0 && offset >= length {
        return false;
      }
      if needed > INT_MAX {
        return false;
      }
      var total := needed + offset + 1;
      if total <= length {
        return true;
      }
      var newsize;
      if total > INT_MAX / 2 {
        if total <= INT_MAX {
          newsize := INT_MAX;
        } else {
          return false;
        }
      } else {
        newsize := total * 2;
      }
      buffer := new Byte[newsize](i requires 0 <= i reads this, buffer => if i < buffer.Length then buffer[i] else 0);
      length := newsize;
      return true;
    }

    /** Stores a word the way a little-endian host does. */
    method Store16(o: nat, n: U16)
      requires o + 1 < buffer.Length
      modifies buffer
      ensures buffer[o] == n % 256 && buffer[o + 1] == n / 256
      ensures forall i | 0 <= i < buffer.Length && i != o && i != o + 1 :: buffer[i] == old(buffer[i])
    {
      buffer[o] := n % 256;
      buffer[o + 1] := n / 256;
    }

    /** Writes a header at the offset. A one-octet type is stored as a word, whose second octet the
        length then overwrites. */
    method PutHeader(t: U16, w: Width, n: U16)
      requires Valid() && offset + w + 2 < length
      modifies buffer
      ensures buffer[..offset] == old(buffer[..offset])
      ensures buffer[offset..offset + w + 2] == TypeBytes(t, w) + LenBytes(n)
    {
      Store16(offset, HtonsType(t, w));
      Store16(offset + w, Swap16(n));
    }

    /** What has been printed so far. */
    ghost function Out(): seq<Byte>
      requires Valid()
      reads this, buffer
    {
      buffer[..offset]
    }

    method CopyValue(start: nat, value: seq<Byte>)
      requires start + |value| <= buffer.Length
      modifies buffer
      ensures buffer[..start + |value|] == old(buffer[..start]) + value
    {
      forall i | 0 <= i < |value| {
        buffer[start + i] := value[i];
      }
    }

    method PrintTlv(n: TlvNode, ghost s: set<TlvNode>, ghost w: Width) returns (ok: bool)
      requires Valid() && n.Matches(s) && n.kind == TlvKind && n.typeLen == w
      modifies this, buffer
      ensures Valid() && (buffer == old(buffer) || fresh(buffer))
      ensures ok <==> old(offset) + |Encode(n.view, w)| + 1 <= INT_MAX
      ensures ok ==> Out() == old(Out()) + Encode(n.view, w)
    {
      ok := Ensure(n.length + n.typeLen + 2);
      if !ok {
        return;
      }
      PutTlv(n.typ, n.value, n.typeLen);
    }

    /** Writes a plain TLV where there is room for it. */
    method PutTlv(t: U16, value: seq<Byte>, w: Width)
      requires Valid() && |value| < 65536 && offset + w + 2 + |value| < length
      modifies `offset, buffer
      ensures Valid() && Out() == old(Out()) + (TypeBytes(t, w) + LenBytes(|value|) + value)
    {
      PutHeader(t, w, |value|);
      ghost var h := buffer[..offset + w + 2];
      assert h == old(Out()) + (TypeBytes(t, w) + LenBytes(|value|));
      CopyValue(offset + w + 2, value);
      offset := offset + |value| + w + 2;
      assert Out() == h + value;
    }

    method PrintArrayHeader(n: TlvNode, ghost s: set<TlvNode>, ghost w: Width) returns (ok: bool)
      requires Valid() && n.Matches(s) && n.Counts() && n.kind == ArrayKind && n.typeLen == w
      modifies this, buffer
      ensures Valid() && (buffer == old(buffer) || fresh(buffer))
      ensures ok <==> old(offset) + w + 2 + 1 <= INT_MAX
      ensures ok ==> Out() == old(Out()) + TypeBytes(n.typ, w) + LenBytes(Low16(|EncodeAll(n.view.kids, w)|))
    {
      ok := Ensure(n.typeLen + 2);
      if !ok {
        return;
      }
      ghost var out, t, l := Out(), TypeBytes(n.typ, w), LenBytes(n.length);
      PutHeader(n.typ, n.typeLen, n.length);
      offset := offset + n.typeLen + 2;
      assert Out() == out + (t + l) == (out + t) + l;
    }

    /** Prints the children one after the other, stopping at the first that does not fit. */
    method PrintKids(n: TlvNode, ghost s: set<TlvNode>, ghost w: Width) returns (ok: bool)
      requires Valid() && Forest(s, w) && n in s && !n.view.Leaf?
      modifies this, buffer
      ensures Valid() && (buffer == old(buffer) || fresh(buffer))
      ensures ok <==> old(offset) + |EncodeAll(n.view.kids, w)| + 1 <= INT_MAX
      ensures ok ==> Out() == old(Out()) + EncodeAll(n.view.kids, w)
      decreases n.view, 0
    {
      assert n.Matches(s) && n.LinksOk(s);
      ghost var ts := n.view.kids;
      var current := n.child;
      ghost var i := 0;
      while current != null
        invariant 0 <= i <= |ts| == |n.kids| && current == if i < |ts| then n.kids[i] else null
        invariant Valid() && (buffer == old(buffer) || fresh(buffer))
        invariant Out() == old(Out()) + EncodeAll(ts[..i], w)
        decreases |ts| - i
      {
        KidPrinted(old(Out()), ts, i, w);
        assert ts[i] == current.view && current.next == if i + 1 < |ts| then n.kids[i + 1] else null;
        ok := PrintValue(current, s, w);
        if !ok {
          return;
        }
        current, i := current.next, i + 1;
      }
      assert ts[..i] == ts;
      ok := true;
    }

    method PrintValue(n: TlvNode, ghost s: set<TlvNode>, ghost w: Width) returns (ok: bool)
      requires Valid() && Forest(s, w) && n in s
      modifies this, buffer
      ensures Valid() && (buffer == old(buffer) || fresh(buffer))
      ensures ok <==> old(offset) + |Encode(n.view, w)| + 1 <= INT_MAX
      ensures ok ==> Out() == old(Out()) + Encode(n.view, w)
      decreases n.view, 1
    {
      assert n.Matches(s) && n.Counts() && n.typeLen == w;
      match n.kind
      case TlvKind =>
        ok := PrintTlv(n, s, w);
      case ArrayKind =>
        ok := PrintArrayHeader(n, s, w);
        if ok {
          ok := PrintKids(n, s, w);
        }
      case ObjectKind =>
        ok := PrintKids(n, s, w);
    }
  }

  /** Prints a tree: its encoding, unless that does not leave room in INT_MAX octets. */
  method Print(n: TlvNode, ghost s: set<TlvNode>, ghost w: Width) returns (r: Option<seq<Byte>>)
    requires Forest(s, w) && n in s
    ensures r == if |Encode(n.view, w)| < INT_MAX then Some(Encode(n.view, w)) else None
    ensures n.kind == ObjectKind && |Encode(n.view, w)| < 65536 ==> r.Some? && |r.value| == n.length
  {
    assert n.Matches(s) && n.Counts() && n.typeLen == w;
    var buffer := new PrintBuffer(256);
    assert buffer.Out() == [];
    var ok := buffer.PrintValue(n, s, w);
    if !ok {
      return None;
    }
    assert [] + Encode(n.view, w) == Encode(n.view, w);
    return Some(buffer.buffer[..buffer.offset]);
  }
}
