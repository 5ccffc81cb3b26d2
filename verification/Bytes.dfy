/** Octets, 16-bit words and the byte-order helpers (agent/tlv_parser.c), for a little-endian host. */
module Bytes {

  type Byte = b: int | 0 <= b < 256
  type U16 = n: int | 0 <= n < 65536

  /** The largest value of a 32-bit signed integer. */
  const INT_MAX: nat := 0x7FFF_FFFF

  /** How many octets a TLV type takes: 1 in a CMDU, 2 in WSC data and on the bus. */
  type Width = w: int | 1 <= w <= 2 witness 1

  /** The two octets of a word exchanged, by the shifts of the source cut to 16 bits. */
  function Swap16(n: U16): (r: U16)
    ensures r / 256 == n % 256 && r % 256 == n / 256
  {
    ((n * 256) % 65536 + n / 256) % 65536
  }

  /** The conversion of a type before it is stored. */
  function HtonsType(t: U16, w: Width): U16 {
    if w == 2 then Swap16(t) else t
  }

  /** The conversion of a type after it is loaded; a one-octet type goes through `char`. */
  function NtohsType(t: U16, w: Width, signedChar: bool): U16 {
    if w == 2 then Swap16(t)
    else if signedChar && t % 256 >= 128 then 0xFF00 + t % 256
    else t % 256
  }

  /** The word a little-endian host loads from two octets. */
  function Load16(b: seq<Byte>, o: nat): U16
    requires o + 1 < |b|
  {
    (b[o] as int) + 256 * (b[o + 1] as int)
  }

  function TypeBytes(t: U16, w: Width): (r: seq<Byte>)
    ensures |r| == w
  {
    if w == 2 then [t / 256, t % 256] else [t % 256]
  }

  function LenBytes(n: U16): (r: seq<Byte>)
    ensures |r| == 2
  {
    [n / 256, n % 256]
  }

  /** What a type has become when it has been printed and parsed again. */
  function TypeBack(t: U16, w: Width, signedChar: bool): U16 {
    if w == 2 then t
    else if signedChar && t % 256 >= 128 then 0xFF00 + t % 256
    else t % 256
  }

  /** The word that two octets in network order stand for. */
  function Big16(b: seq<Byte>, o: nat): U16
    requires o + 1 < |b|
  {
    256 * (b[o] as int) + (b[o + 1] as int)
  }

  /** The type that the octets at o stand for, passed through `char` when it takes one octet. */
  function TypeAt(b: seq<Byte>, o: nat, w: Width, signedChar: bool): U16
    requires o + w <= |b|
  {
    if w == 2 then Big16(b, o)
    else if signedChar && b[o] >= 128 then 0xFF00 + (b[o] as int)
    else b[o]
  }

  lemma SwapLoaded(b: seq<Byte>, o: nat)
    requires o + 1 < |b|
    ensures Swap16(Load16(b, o)) == Big16(b, o) && Load16(b, o) % 256 == b[o]
  {
    var n := Load16(b, o);
    assert n % 256 == b[o] && n / 256 == b[o + 1];
    assert Swap16(n) == 256 * (Swap16(n) / 256) + Swap16(n) % 256;
  }

  /** Loading a header as host words and converting them gives what its octets stand for. */
  lemma HeaderLoaded(b: seq<Byte>, o: nat, w: Width, signedChar: bool)
    requires o + w + 2 <= |b|
    ensures NtohsType(Load16(b, o), w, signedChar) == TypeAt(b, o, w, signedChar)
    ensures Swap16(Load16(b, o + w)) == Big16(b, o + w)
  {
    SwapLoaded(b, o);
    SwapLoaded(b, o + w);
  }

  /** A stored header stands for the length it was given, and for the type passed through `char`. */
  lemma HeaderRoundTrip(b: seq<Byte>, o: nat, t: U16, n: U16, w: Width, signedChar: bool)
    requires o + w + 2 <= |b| && b[o..o + w + 2] == TypeBytes(t, w) + LenBytes(n)
    ensures TypeAt(b, o, w, signedChar) == TypeBack(t, w, signedChar) && Big16(b, o + w) == n
  {
    var h := TypeBytes(t, w) + LenBytes(n);
    assert b[o] == h[0] && b[o + w] == h[w] && b[o + w + 1] == h[w + 1];
    assert w == 2 ==> b[o + 1] == h[1];
  }

  /** A one-octet type is loaded as the value of its octet, except that a signed `char` takes octets from 128
      on for negative numbers; a type of two octets is the number that they make in network order. */
  lemma TypeLoaded(b: seq<Byte>, o: nat, w: Width, signedChar: bool)
    requires o + w + 2 <= |b|
    ensures var t := NtohsType(Load16(b, o), w, signedChar);
      if w == 2 then t / 256 == b[o] && t % 256 == b[o + 1]
      else t % 256 == b[o] && (t / 256 == if signedChar && b[o] >= 128 then 255 else 0)
  {
    HeaderLoaded(b, o, w, signedChar);
  }
}
