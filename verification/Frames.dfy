/** Length-prefixed frames in a byte stream, as the read callback of reactor/eloop_event.c cuts them. */
module Frames {
  import opened Bytes

  /** How frames are laid out: the size of the header, and where in it the body length stands. */
  datatype Packer = Packer(nheader: nat, lenOffset: nat) {
    ghost predicate Valid() {
      lenOffset + 4 <= nheader
    }
  }

  /** A 32-bit signed little-endian integer. */
  function Int32(b: seq<Byte>, o: nat): int
    requires o + 4 <= |b|
  {
    var n := (b[o] as int) + 0x100 * (b[o + 1] as int) + 0x1_0000 * (b[o + 2] as int) + 0x100_0000 * (b[o + 3] as int);
    if n < 0x8000_0000 then n else n - 0x1_0000_0000
  }

  /** The size of the frame at the front of a stream that shows a whole header. */
  function Total(s: seq<Byte>, pk: Packer): int
    requires pk.Valid() && pk.nheader <= |s|
  {
    Int32(s, pk.lenOffset) + pk.nheader
  }

  /** The stream starts with a complete frame. */
  predicate Complete(s: seq<Byte>, pk: Packer)
    requires pk.Valid()
  {
    pk.nheader <= |s| && 0 < Total(s, pk) <= |s|
  }

  /** The complete frames at the front of a stream. */
  function Cut(s: seq<Byte>, pk: Packer): (frames: seq<seq<Byte>>)
    requires pk.Valid()
  {
    if Complete(s, pk) then [s[..Total(s, pk)]] + Cut(s[Total(s, pk)..], pk) else []
  }

  /** What is left after the complete frames. */
  function Rest(s: seq<Byte>, pk: Packer): (r: seq<Byte>)
    requires pk.Valid()
    ensures |r| <= |s|
  {
    if Complete(s, pk) then Rest(s[Total(s, pk)..], pk) else s
  }

  /** Every header of the stream announces a frame of at least one and at most max octets. */
  ghost predicate Framed(s: seq<Byte>, pk: Packer, max: nat)
    requires pk.Valid()
    decreases |s|
  {
    pk.nheader <= |s| ==>
      && 0 < Total(s, pk) <= max
      && (Total(s, pk) <= |s| ==> Framed(s[Total(s, pk)..], pk, max))
  }

  function Flatten(ss: seq<seq<Byte>>): seq<Byte> {
    if ss == [] then [] else Flatten(ss[..|ss| - 1]) + ss[|ss| - 1]
  }

  lemma FlattenAppend(ss: seq<seq<Byte>>, s: seq<Byte>)
    ensures Flatten(ss + [s]) == Flatten(ss) + s
  {
    assert (ss + [s])[..|ss|] == ss;
  }

  lemma {:induction false} FlattenConcat(a: seq<seq<Byte>>, b: seq<seq<Byte>>)
    ensures Flatten(a + b) == Flatten(a) + Flatten(b)
  {
    if b == [] {
      assert a + b == a;
    } else {
      assert (a + b)[..|a + b| - 1] == a + b[..|b| - 1];
      FlattenConcat(a, b[..|b| - 1]);
    }
  }

  lemma FlattenCons(f: seq<Byte>, more: seq<seq<Byte>>)
    ensures Flatten([f] + more) == f + Flatten(more)
  {
    FlattenConcat([f], more);
    assert [f][..0] == [] && Flatten([f]) == f;
  }

  /** The header at the front of a stream does not depend on what follows it. */
  lemma TotalOfPrefix(s: seq<Byte>, t: seq<Byte>, pk: Packer)
    requires pk.Valid() && pk.nheader <= |s|
    ensures Total(s + t, pk) == Total(s, pk)
  {
  }

  /** Cutting is chunk-independent: cutting a first chunk, and then what it left together with the
      next chunk, gives the frames of the whole. */
  lemma {:induction false} CutInChunks(s: seq<Byte>, t: seq<Byte>, pk: Packer)
    requires pk.Valid()
    ensures Cut(s + t, pk) == Cut(s, pk) + Cut(Rest(s, pk) + t, pk)
    ensures Rest(s + t, pk) == Rest(Rest(s, pk) + t, pk)
    decreases |s|
  {
    if Complete(s, pk) {
      var n := Total(s, pk);
      TotalOfPrefix(s, t, pk);
      assert (s + t)[n..] == s[n..] + t && (s + t)[..n] == s[..n];
      CutInChunks(s[n..], t, pk);
    } else {
      assert Rest(s, pk) == s;
    }
  }

  lemma Regroup(a: seq<Byte>, b: seq<Byte>, c: seq<Byte>)
    ensures (a + b) + c == a + (b + c)
  {
  }

  lemma FrameAndRest(s: seq<Byte>, n: nat, more: seq<seq<Byte>>, rest: seq<Byte>)
    requires n <= |s| && Flatten(more) + rest == s[n..]
    ensures Flatten([s[..n]] + more) + rest == s
  {
    FlattenCons(s[..n], more);
    Regroup(s[..n], Flatten(more), rest);
    assert s[..n] + s[n..] == s;
  }

  /** Frames and rest make up the stream. */
  lemma {:induction false} CutKeepsAll(s: seq<Byte>, pk: Packer)
    requires pk.Valid()
    ensures Flatten(Cut(s, pk)) + Rest(s, pk) == s
    decreases |s|
  {
    if Complete(s, pk) {
      var n := Total(s, pk);
      CutKeepsAll(s[n..], pk);
      FrameAndRest(s, n, Cut(s[n..], pk), Rest(s[n..], pk));
    } else {
      assert [] + s == s;
    }
  }

  /** A prefix of a well-framed stream is well framed. */
  lemma {:induction false} FramedPrefix(s: seq<Byte>, t: seq<Byte>, pk: Packer, max: nat)
    requires pk.Valid() && Framed(s + t, pk, max)
    ensures Framed(s, pk, max)
    decreases |s|
  {
    if pk.nheader <= |s| {
      TotalOfPrefix(s, t, pk);
      var n := Total(s, pk);
      if n <= |s| {
        assert (s + t)[n..] == s[n..] + t;
        FramedPrefix(s[n..], t, pk, max);
      }
    }
  }

  /** A larger bound on the frames is a weaker one. */
  lemma {:induction false} FramedWeaker(s: seq<Byte>, pk: Packer, max: nat, max': nat)
    requires pk.Valid() && Framed(s, pk, max) && max <= max'
    ensures Framed(s, pk, max')
    decreases |s|
  {
    if pk.nheader <= |s| && Total(s, pk) <= |s| {
      FramedWeaker(s[Total(s, pk)..], pk, max, max');
    }
  }

  /** The next chunk continues what the first one left. */
  lemma {:induction false} FramedRest(s: seq<Byte>, t: seq<Byte>, pk: Packer, max: nat)
    requires pk.Valid() && Framed(s + t, pk, max)
    ensures Framed(Rest(s, pk) + t, pk, max)
    decreases |s|
  {
    if Complete(s, pk) {
      TotalOfPrefix(s, t, pk);
      assert (s + t)[Total(s, pk)..] == s[Total(s, pk)..] + t;
      FramedRest(s[Total(s, pk)..], t, pk, max);
    }
  }

  /** What stays behind is an incomplete frame, so it is shorter than the largest frame. */
  lemma {:induction false} RestIsShort(s: seq<Byte>, pk: Packer, max: nat)
    requires pk.Valid() && pk.nheader <= max && Framed(s, pk, max)
    ensures |Rest(s, pk)| < max && !Complete(Rest(s, pk), pk) && Framed(Rest(s, pk), pk, max)
    decreases |s|
  {
    if Complete(s, pk) {
      RestIsShort(s[Total(s, pk)..], pk, max);
    }
  }

  /** A message that is one frame. */
  ghost predicate IsFrame(f: seq<Byte>, pk: Packer, max: nat) {
    pk.Valid() && pk.nheader <= |f| <= max && Total(f, pk) == |f|
  }

  /** A stream of whole frames is cut into exactly these frames, with nothing left. */
  lemma {:induction false} CutFrames(fs: seq<seq<Byte>>, pk: Packer, max: nat)
    requires pk.Valid() && forall f | f in fs :: IsFrame(f, pk, max)
    ensures Cut(Flatten(fs), pk) == fs && Rest(Flatten(fs), pk) == [] && Framed(Flatten(fs), pk, max)
    decreases |fs|
  {
    if fs != [] {
      var f, more := fs[0], fs[1..];
      assert f in fs && fs == [f] + more;
      FlattenCons(f, more);
      FrameInFront(f, Flatten(more), pk, max);
      CutFrames(more, pk, max);
    }
  }

  lemma FrameInFront(f: seq<Byte>, t: seq<Byte>, pk: Packer, max: nat)
    requires pk.Valid() && IsFrame(f, pk, max)
    ensures Cut(f + t, pk) == [f] + Cut(t, pk) && Rest(f + t, pk) == Rest(t, pk)
    ensures Framed(t, pk, max) ==> Framed(f + t, pk, max)
  {
    TotalOfPrefix(f, t, pk);
    assert (f + t)[|f|..] == t && (f + t)[..|f|] == f;
  }

  /** Receiving a prefix of a stream delivers a prefix of its frames. */
  lemma CutOfPrefix(s: seq<Byte>, t: seq<Byte>, pk: Packer)
    requires pk.Valid()
    ensures Cut(s, pk) <= Cut(s + t, pk)
  {
    CutInChunks(s, t, pk);
  }

  /** A frame that has not come whole stays behind, all of it: so one that is larger than the room there is
      for what stays behind is never delivered, and fills that room once so many of its octets are in. */
  lemma LargeFrameStays(whole: seq<seq<Byte>>, s: seq<Byte>, pk: Packer, max: nat)
    requires pk.Valid() && forall f | f in whole :: IsFrame(f, pk, max)
    requires pk.nheader <= |s| < Total(s, pk)
    ensures Cut(Flatten(whole) + s, pk) == whole && Rest(Flatten(whole) + s, pk) == s
  {
    CutFrames(whole, pk, max);
    CutInChunks(Flatten(whole), s, pk);
    assert [] + s == s && Cut(s, pk) == [] && whole + [] == whole;
  }

  /** Part-way through cutting `all`: the frames `done` are cut, `cur` is still to be cut. */
  ghost predicate Cutting(done: seq<seq<Byte>>, cur: seq<Byte>, all: seq<Byte>, pk: Packer, max: nat) {
    pk.Valid() && done + Cut(cur, pk) == Cut(all, pk) && Rest(cur, pk) == Rest(all, pk) && Framed(cur, pk, max)
  }

  lemma CuttingStarts(all: seq<Byte>, pk: Packer, max: nat)
    requires pk.Valid() && Framed(all, pk, max)
    ensures Cutting([], all, all, pk, max)
  {
  }

  lemma CuttingStep(done: seq<seq<Byte>>, cur: seq<Byte>, all: seq<Byte>, pk: Packer, max: nat)
    requires Cutting(done, cur, all, pk, max) && Complete(cur, pk)
    ensures Cutting(done + [cur[..Total(cur, pk)]], cur[Total(cur, pk)..], all, pk, max)
  {
    var n := Total(cur, pk);
    assert (done + [cur[..n]]) + Cut(cur[n..], pk) == done + ([cur[..n]] + Cut(cur[n..], pk));
  }

  lemma CuttingEnds(done: seq<seq<Byte>>, cur: seq<Byte>, all: seq<Byte>, pk: Packer, max: nat)
    requires Cutting(done, cur, all, pk, max) && !Complete(cur, pk)
    ensures done == Cut(all, pk) && cur == Rest(all, pk)
  {
    assert done + [] == done;
  }
}
