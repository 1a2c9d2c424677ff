/** Keyed hashing (sha1_hmac.cpp) against the construction of section 2 of RFC 2104. */
module Hmac {
  import opened Fips180
  import Sha1

  const BLOCK := 64

  function Concat(pieces: seq<seq<Byte>>): seq<Byte> {
    if pieces == [] then [] else Concat(pieces[..|pieces| - 1]) + pieces[|pieces| - 1]
  }

  /** However a message is cut into update calls, the digest is the hash of the whole. */
  method HashPieces(pieces: seq<seq<Byte>>) returns (digest: seq<Byte>)
    requires forall k :: 0 <= k < |pieces| ==> |Concat(pieces[..k])| % 64 + |pieces[k]| < Sha1.TWO32
    ensures digest == Hash(Concat(pieces))
  {
    var context := new Sha1.Context();
    for k := 0 to |pieces|
      invariant fresh(context) && fresh(context.buffer)
      invariant context.Took(Concat(pieces[..k]))
    {
      assert pieces[..k + 1][..k] == pieces[..k];
      context.Update(pieces[k], Concat(pieces[..k]));
    }
    assert pieces[..|pieces|] == pieces;
    digest := context.Final(Concat(pieces));
  }

  /** A short key, filled up with zeros to a whole block. */
  function Filled(key: seq<Byte>): (k: seq<Byte>)
    requires |key| <= BLOCK
    ensures |k| == BLOCK
  {
    key + seq(BLOCK - |key|, _ => 0)
  }

  /** Section 2 of RFC 2104: the key, hashed if longer than a block, filled up with zeros. */
  function KeyBlock(key: seq<Byte>): (k: seq<Byte>)
    ensures |k| == BLOCK
  {
    Filled(if |key| > BLOCK then Hash(key) else key)
  }

  function XorAll(s: seq<Byte>, mask: Byte): (r: seq<Byte>)
    ensures |r| == |s|
  {
    seq(|s|, i requires 0 <= i < |s| => s[i] ^ mask)
  }

  /** H(K xor opad, H(K xor ipad, text)). */
  function Keyed(key: seq<Byte>, text: seq<Byte>): seq<Byte> {
    Hash(XorAll(KeyBlock(key), 0x5C) + Hash(XorAll(KeyBlock(key), 0x36) + text))
  }

  /** The two pads, filled and masked in place. */
  method Pads(key: seq<Byte>) returns (kipad: seq<Byte>, kopad: seq<Byte>)
    requires |key| <= BLOCK
    ensures kipad == XorAll(Filled(key), 0x36)
    ensures kopad == XorAll(Filled(key), 0x5C)
  {
    var inner, outer := new Byte[BLOCK], new Byte[BLOCK];
    forall i | 0 <= i < BLOCK {
      inner[i] := if i < |key| then key[i] else 0;
    }
    forall i | 0 <= i < BLOCK {
      outer[i] := inner[i];
    }
    ghost var block := Filled(key);
    for i := 0 to BLOCK
      invariant forall j :: 0 <= j < i ==> inner[j] == block[j] ^ 0x36 && outer[j] == block[j] ^ 0x5C
      invariant forall j :: i <= j < BLOCK ==> inner[j] == block[j] && outer[j] == block[j]
    {
      inner[i] := inner[i] ^ 0x36;
      outer[i] := outer[i] ^ 0x5C;
    }
    kipad, kopad := inner[..], outer[..];
  }

  /** A context fed with two pieces and finished, as sha1_hmac does it twice. */
  method HashPair(first: seq<Byte>, second: seq<Byte>) returns (digest: seq<Byte>)
    requires |first| < Sha1.TWO32 && |first| % 64 + |second| < Sha1.TWO32
    ensures digest == Hash(first + second)
  {
    var context := new Sha1.Context();
    context.Update(first, []);
    assert [] + first == first;
    context.Update(second, first);
    digest := context.Final(first + second);
  }

  /** What a length that is cast to 32 bits leaves of a string. */
  function Seen(s: seq<Byte>): (r: seq<Byte>)
    ensures |r| < Sha1.TWO32 && (|s| < Sha1.TWO32 ==> r == s)
  {
    s[..|s| % Sha1.TWO32]
  }

  /** The key as sha1_hmac uses it: its own length decides whether it is hashed, and the cast one how far. */
  function UsedKey(key: seq<Byte>): (k: seq<Byte>)
    ensures |k| <= BLOCK
  {
    if |key| > BLOCK then Hash(Seen(key)) else key
  }

  /** The first lines of sha1_hmac. */
  method ShortKey(key: seq<Byte>) returns (k: seq<Byte>)
    ensures k == UsedKey(key)
  {
    k := key;
    if |key| > BLOCK {
      var context := new Sha1.Context();
      context.Update(Seen(key), []);
      assert [] + Seen(key) == Seen(key);
      k := context.Final(Seen(key));
    }
  }

  /** With lengths below 2^32 the key and the text are used whole. */
  lemma UsedWhole(key: seq<Byte>, text: seq<Byte>)
    requires |key| < Sha1.TWO32 && |text| < Sha1.TWO32
    ensures Filled(UsedKey(key)) == KeyBlock(key) && Seen(text) == text
  {
  }

  /** sha1_hmac: HMAC as long as the lengths survive the casts of the source, and of what they leave beyond. */
  method Sha1Hmac(key: seq<Byte>, text: seq<Byte>) returns (dest: seq<Byte>)
    ensures dest == Keyed(UsedKey(key), Seen(text))
    ensures |key| < Sha1.TWO32 && |text| < Sha1.TWO32 ==> dest == Keyed(key, text)
  {
    var k := ShortKey(key);
    var kipad, kopad := Pads(k);
    var digest := HashPair(kipad, Seen(text));
    dest := HashPair(kopad, digest);
    if |key| < Sha1.TWO32 && |text| < Sha1.TWO32 {
      UsedWhole(key, text);
    }
  }
}
