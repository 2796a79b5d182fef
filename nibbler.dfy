/**
 * The stream of half-bytes an identicon is drawn from. The digest is read
 * byte by byte, the high nibble of each byte before its low nibble.
 */
module Nibbler {

  newtype Byte = x: int | 0 <= x < 256
  newtype Nibble = x: int | 0 <= x < 16

  function High(b: Byte): Nibble { (b / 16) as Nibble }

  function Low(b: Byte): Nibble { (b % 16) as Nibble }

  /** The nibble stream of `bytes`: two nibbles per byte, in byte order. */
  function Nibbles(bytes: seq<Byte>): (ns: seq<Nibble>)
    ensures |ns| == 2 * |bytes|
    ensures forall k | 0 <= k < |bytes| :: ns[2 * k] == High(bytes[k]) && ns[2 * k + 1] == Low(bytes[k])
  {
    if bytes == [] then []
    else
      var rest := Nibbles(bytes[1..]);
      var ns := [High(bytes[0]), Low(bytes[0])] + rest;
      assert forall k | 1 <= k < |bytes| :: ns[2 * k] == rest[2 * (k - 1)] && ns[2 * k + 1] == rest[2 * (k - 1) + 1];
      assert forall k | 1 <= k < |bytes| :: bytes[k] == bytes[1..][k - 1];
      ns
  }

  /** Reassembles bytes from a stream of nibble pairs, high nibble first. */
  function Pack(ns: seq<Nibble>): (bytes: seq<Byte>)
    requires |ns| % 2 == 0
    ensures |bytes| == |ns| / 2
  {
    if ns == [] then [] else [(ns[0] as int * 16 + ns[1] as int) as Byte] + Pack(ns[2..])
  }

  /** Splitting into nibbles loses nothing: packing the stream gives the bytes back. */
  lemma {:induction false} PackNibbles(bytes: seq<Byte>)
    ensures Pack(Nibbles(bytes)) == bytes
  {
    if bytes != [] {
      var ns := Nibbles(bytes);
      assert ns[2..] == Nibbles(bytes[1..]);
      PackNibbles(bytes[1..]);
      assert ns[0] as int * 16 + ns[1] as int == bytes[0] as int;
    }
  }

  /** Two byte strings with the same nibble stream are equal. */
  lemma NibblesInjective(a: seq<Byte>, b: seq<Byte>)
    requires Nibbles(a) == Nibbles(b)
    ensures a == b
  {
    PackNibbles(a);
    PackNibbles(b);
  }
}
