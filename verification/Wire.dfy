/**
 * The set format of IPFIX: sections 3.3.1 and 3.3.2 of RFC 5101.  A message body is a
 * sequence of sets.  Each set starts with its id and its length in bytes, and the length
 * covers the header.
 */
module Wire {
  import opened Options

  newtype Byte = x: int | 0 <= x < 256

  type U16 = x: int | 0 <= x < 0x1_0000
  type U32 = x: int | 0 <= x < 0x1_0000_0000

  const SET_HEADER := 4

  /** A number in a variable of 16 or 32 bits: what does not fit wraps around. */
  function Low16(x: int): U16 { if 0 <= x < 0x1_0000 then x else x % 0x1_0000 }

  function Low32(x: int): U32 { if 0 <= x < 0x1_0000_0000 then x else x % 0x1_0000_0000 }

  function Bytes16(n: U16): seq<Byte> { [(n / 256) as Byte, (n % 256) as Byte] }

  function Bytes32(n: U32): seq<Byte> { Bytes16(n / 0x1_0000) + Bytes16(Low16(n)) }

  /** The number in network byte order at position i. */
  function Read16(b: seq<Byte>, i: nat): U16
    requires i + 2 <= |b|
  {
    b[i] as int * 256 + b[i + 1] as int
  }

  function Read32(b: seq<Byte>, i: nat): U32
    requires i + 4 <= |b|
  {
    Read16(b, i) * 0x1_0000 + Read16(b, i + 2)
  }

  lemma ReadBack16(a: seq<Byte>, n: U16, b: seq<Byte>)
    ensures Read16(a + Bytes16(n) + b, |a|) == n
  {
    var s := a + Bytes16(n) + b;
    assert s[|a|] == Bytes16(n)[0] && s[|a| + 1] == Bytes16(n)[1];
  }

  lemma ReadBack32(a: seq<Byte>, n: U32, b: seq<Byte>)
    ensures Read32(a + Bytes32(n) + b, |a|) == n
  {
    var s := a + Bytes32(n) + b;
    var hi, lo := Bytes16(n / 0x1_0000), Bytes16(Low16(n));
    assert s == a + hi + (lo + b) && s == (a + hi) + lo + b;
    ReadBack16(a, n / 0x1_0000, lo + b);
    ReadBack16(a + hi, Low16(n), b);
  }

  /** The bytes of the parts, one after the other. */
  function Join<T>(bytes: T -> seq<Byte>, parts: seq<T>): seq<Byte> {
    if parts == [] then [] else Join(bytes, parts[..|parts| - 1]) + bytes(parts[|parts| - 1])
  }

  lemma {:induction false} JoinAppend<T>(bytes: T -> seq<Byte>, s: seq<T>, t: seq<T>)
    ensures Join(bytes, s + t) == Join(bytes, s) + Join(bytes, t)
  {
    if t == [] {
      assert s + t == s;
    } else {
      var init := t[..|t| - 1];
      assert (s + t)[..|s + t| - 1] == s + init;
      JoinAppend(bytes, s, init);
    }
  }

  lemma JoinFirst<T>(bytes: T -> seq<Byte>, s: seq<T>)
    requires s != []
    ensures Join(bytes, s) == bytes(s[0]) + Join(bytes, s[1..])
  {
    assert s == [s[0]] + s[1..];
    JoinAppend(bytes, [s[0]], s[1..]);
    assert Join(bytes, [s[0]]) == bytes(s[0]);
  }

  // ----- Sets

  datatype WireSet = WireSet(id: U16, content: seq<Byte>)

  /** A collector's reading of a message body. */
  function ParseSets(b: seq<Byte>): Option<seq<WireSet>>
    decreases |b|
  {
    if b == [] then Some([])
    else if |b| < SET_HEADER then None
    else
      var length := Read16(b, 2);
      if length < SET_HEADER || length > |b| then None
      else
        match ParseSets(b[length..])
        case None => None
        case Some(rest) => Some([WireSet(Read16(b, 0), b[SET_HEADER..length])] + rest)
  }

  predicate Fits(s: WireSet) { SET_HEADER + |s.content| < 0x1_0000 }

  /** A set whose header has the given length field. */
  function SetBytes(id: U16, length: U16, content: seq<Byte>): seq<Byte> {
    Bytes16(id) + Bytes16(length) + content
  }

  /** The length field that fits in the 16 bits of the header. */
  function LengthField(s: WireSet): U16 { Low16(SET_HEADER + |s.content|) }

  function EncodeSet(s: WireSet): seq<Byte> { SetBytes(s.id, LengthField(s), s.content) }

  lemma EncodedLength(s: WireSet)
    ensures |EncodeSet(s)| == SET_HEADER + |s.content|
    ensures Fits(s) <==> LengthField(s) == |EncodeSet(s)|
  {
  }

  function EncodeSets(sets: seq<WireSet>): seq<Byte> { Join(EncodeSet, sets) }

  lemma ReadHeader(id: U16, length: U16, content: seq<Byte>, rest: seq<Byte>)
    ensures
      var b := SetBytes(id, length, content) + rest;
      Read16(b, 0) == id && Read16(b, 2) == length
  {
    var b := SetBytes(id, length, content) + rest;
    assert b == [] + Bytes16(id) + (Bytes16(length) + content + rest);
    ReadBack16([], id, Bytes16(length) + content + rest);
    assert b == Bytes16(id) + Bytes16(length) + (content + rest);
    ReadBack16(Bytes16(id), length, content + rest);
  }

  /** Reading a message body set by set. */
  lemma ParseFirst(s: WireSet, rest: seq<Byte>)
    requires Fits(s)
    ensures ParseSets(EncodeSet(s) + rest) ==
            if ParseSets(rest).Some? then Some([s] + ParseSets(rest).value) else None
  {
    var b := EncodeSet(s) + rest;
    ReadHeader(s.id, LengthField(s), s.content, rest);
    assert |EncodeSet(s)| == SET_HEADER + |s.content|;
    assert b[LengthField(s)..] == rest;
    assert b[SET_HEADER..LengthField(s)] == s.content;
  }

  lemma {:induction false} ParseEncoded(sets: seq<WireSet>)
    requires forall s :: s in sets ==> Fits(s)
    ensures ParseSets(EncodeSets(sets)) == Some(sets)
  {
    if sets != [] {
      JoinFirst(EncodeSet, sets);
      ParseEncoded(sets[1..]);
      assert sets[0] in sets;
      ParseFirst(sets[0], EncodeSets(sets[1..]));
      assert sets == [sets[0]] + sets[1..];
    }
  }

  /** No set that a collector reads is longer than its length field can say. */
  lemma {:induction false} ParsedFits(b: seq<Byte>)
    ensures ParseSets(b).Some? ==> forall s :: s in ParseSets(b).value ==> Fits(s)
    decreases |b|
  {
    if |b| >= SET_HEADER && SET_HEADER <= Read16(b, 2) <= |b| {
      ParsedFits(b[Read16(b, 2)..]);
    }
  }

  /** The encoding can be read back exactly when every set is shorter than 2^16 bytes. */
  lemma RoundTrip(sets: seq<WireSet>)
    ensures ParseSets(EncodeSets(sets)) == Some(sets) <==> forall s :: s in sets ==> Fits(s)
  {
    if forall s :: s in sets ==> Fits(s) {
      ParseEncoded(sets);
    }
    ParsedFits(EncodeSets(sets));
  }
}
