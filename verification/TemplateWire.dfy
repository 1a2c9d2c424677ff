/**
 * Template sets: sections 3.2, 3.3.2 and 3.4.1 of RFC 5101.  ipfixlolib puts one template
 * record in each template set.
 */
module TemplateWire {
  import opened Options
  import opened Wire

  const TEMPLATE_SET_ID := 2
  const TEMPLATE_HEADER := 8
  const ENTERPRISE_BIT := 0x8000

  /** An information element: its id without the enterprise bit, and the enterprise number if it has one. */
  datatype FieldSpec = FieldSpec(id: U16, length: U16, enterprise: Option<U32>)

  datatype Template = Template(id: U16, fields: seq<FieldSpec>)

  // ----- A collector's reading

  /** The first field specifier of b, and how many bytes it takes. */
  function DecodeField(b: seq<Byte>): Option<(FieldSpec, nat)> {
    if |b| < 4 then None
    else if Read16(b, 0) < ENTERPRISE_BIT then Some((FieldSpec(Read16(b, 0), Read16(b, 2), None), 4))
    else if |b| < 8 then None
    else Some((FieldSpec(Read16(b, 0) - ENTERPRISE_BIT, Read16(b, 2), Some(Read32(b, 4))), 8))
  }

  /** Exactly count field specifiers. */
  function DecodeFields(b: seq<Byte>, count: nat): Option<seq<FieldSpec>> {
    if count == 0 then if b == [] then Some([]) else None
    else
      match DecodeField(b)
      case None => None
      case Some((f, n)) =>
        if n > |b| then None
        else
          match DecodeFields(b[n..], count - 1)
          case None => None
          case Some(rest) => Some([f] + rest)
  }

  /** A template set with one template record in it. */
  function DecodeTemplate(b: seq<Byte>): Option<Template> {
    if |b| < TEMPLATE_HEADER || Read16(b, 0) != TEMPLATE_SET_ID || Read16(b, 2) != |b| then None
    else
      match DecodeFields(b[TEMPLATE_HEADER..], Read16(b, 6))
      case None => None
      case Some(fields) => Some(Template(Read16(b, 4), fields))
  }

  // ----- The exporter's writing

  /** The arguments of ipfix_put_template_field. */
  datatype PutArgs = PutArgs(kind: U16, length: U16, enterprise: U32)

  /** type |= IPFIX_ENTERPRISE_BIT. */
  function Flagged(kind: U16): U16 { if kind >= ENTERPRISE_BIT then kind else kind + ENTERPRISE_BIT }

  /** A type without the enterprise bit. */
  function Unflagged(kind: U16): U16 { if kind >= ENTERPRISE_BIT then kind - ENTERPRISE_BIT else kind }

  /** The field that is asked for: enterprise-specific if either argument says so. */
  function Meaning(p: PutArgs): FieldSpec {
    if p.enterprise != 0 || p.kind >= ENTERPRISE_BIT then
      FieldSpec(Unflagged(p.kind), p.length, Some(p.enterprise))
    else FieldSpec(p.kind, p.length, None)
  }

  predicate Encodable(f: FieldSpec) { f.id < ENTERPRISE_BIT }

  predicate AllEncodable(fields: seq<FieldSpec>) { forall f :: f in fields ==> Encodable(f) }

  function FieldBytes(f: FieldSpec): seq<Byte> {
    if f.enterprise.None? then Bytes16(f.id) + Bytes16(f.length)
    else Bytes16(Flagged(f.id)) + Bytes16(f.length) + Bytes32(f.enterprise.value)
  }

  function FieldsBytes(fields: seq<FieldSpec>): seq<Byte> { Join(FieldBytes, fields) }

  function HeaderBytes(length: U16, id: U16, count: U16): seq<Byte> {
    Bytes16(TEMPLATE_SET_ID) + Bytes16(length) + Bytes16(id) + Bytes16(count)
  }

  /** The template set, with its length as far as 16 bits can say it. */
  function TemplateBytes(id: U16, fields: seq<FieldSpec>): seq<Byte> {
    HeaderBytes(Low16(TEMPLATE_HEADER + |FieldsBytes(fields)|), id, Low16(|fields|)) + FieldsBytes(fields)
  }

  /** A withdrawal is a template set without fields: section 8 of RFC 5101. */
  function WithdrawalBytes(id: U16): seq<Byte> { HeaderBytes(TEMPLATE_HEADER, id, 0) }

  // ----- The round trip

  lemma MeaningIsEncodable(p: PutArgs)
    ensures Encodable(Meaning(p))
  {
  }

  lemma DecodeOneField(f: FieldSpec, rest: seq<Byte>)
    requires Encodable(f)
    ensures DecodeField(FieldBytes(f) + rest) == Some((f, |FieldBytes(f)|))
  {
    var b := FieldBytes(f) + rest;
    var kind := if f.enterprise.None? then f.id else f.id + ENTERPRISE_BIT;
    var tail := if f.enterprise.None? then [] else Bytes32(f.enterprise.value);
    assert b == [] + Bytes16(kind) + (Bytes16(f.length) + tail + rest);
    ReadBack16([], kind, Bytes16(f.length) + tail + rest);
    assert b == Bytes16(kind) + Bytes16(f.length) + (tail + rest);
    ReadBack16(Bytes16(kind), f.length, tail + rest);
    if f.enterprise.Some? {
      assert b == (Bytes16(kind) + Bytes16(f.length)) + Bytes32(f.enterprise.value) + rest;
      ReadBack32(Bytes16(kind) + Bytes16(f.length), f.enterprise.value, rest);
    }
  }

  lemma {:induction false} DecodeAllFields(fields: seq<FieldSpec>)
    requires AllEncodable(fields)
    ensures DecodeFields(FieldsBytes(fields), |fields|) == Some(fields)
  {
    if fields != [] {
      JoinFirst(FieldBytes, fields);
      assert fields[0] in fields;
      var rest := FieldsBytes(fields[1..]);
      DecodeOneField(fields[0], rest);
      assert (FieldBytes(fields[0]) + rest)[|FieldBytes(fields[0])|..] == rest;
      DecodeAllFields(fields[1..]);
      assert fields == [fields[0]] + fields[1..];
    }
  }

  lemma ReadTemplateHeader(length: U16, id: U16, count: U16, rest: seq<Byte>)
    ensures
      var b := HeaderBytes(length, id, count) + rest;
      && |b| == TEMPLATE_HEADER + |rest| && b[TEMPLATE_HEADER..] == rest
      && Read16(b, 0) == TEMPLATE_SET_ID && Read16(b, 2) == length && Read16(b, 4) == id && Read16(b, 6) == count
  {
    var b := HeaderBytes(length, id, count) + rest;
    var h0, h1, h2, h3 := Bytes16(TEMPLATE_SET_ID), Bytes16(length), Bytes16(id), Bytes16(count);
    assert b == [] + h0 + (h1 + h2 + h3 + rest);
    ReadBack16([], TEMPLATE_SET_ID, h1 + h2 + h3 + rest);
    assert b == h0 + h1 + (h2 + h3 + rest);
    ReadBack16(h0, length, h2 + h3 + rest);
    assert b == (h0 + h1) + h2 + (h3 + rest);
    ReadBack16(h0 + h1, id, h3 + rest);
    assert b == (h0 + h1 + h2) + h3 + rest;
    ReadBack16(h0 + h1 + h2, count, rest);
  }

  lemma {:induction false} FieldsTakeRoom(fields: seq<FieldSpec>)
    ensures |FieldsBytes(fields)| >= 4 * |fields|
  {
    if fields != [] {
      FieldsTakeRoom(fields[..|fields| - 1]);
    }
  }

  /** A collector reads back the template, exactly when its set is shorter than 2^16 bytes. */
  lemma TemplateRoundTrip(id: U16, fields: seq<FieldSpec>)
    requires AllEncodable(fields)
    ensures DecodeTemplate(TemplateBytes(id, fields)) == Some(Template(id, fields)) <==>
            TEMPLATE_HEADER + |FieldsBytes(fields)| < 0x1_0000
  {
    var b := FieldsBytes(fields);
    ReadTemplateHeader(Low16(TEMPLATE_HEADER + |b|), id, Low16(|fields|), b);
    FieldsTakeRoom(fields);
    DecodeAllFields(fields);
  }

  lemma WithdrawalRoundTrip(id: U16)
    ensures |WithdrawalBytes(id)| == TEMPLATE_HEADER
    ensures DecodeTemplate(WithdrawalBytes(id)) == Some(Template(id, []))
  {
    ReadTemplateHeader(TEMPLATE_HEADER, id, 0, []);
    assert HeaderBytes(TEMPLATE_HEADER, id, 0) + [] == WithdrawalBytes(id);
  }

  /** On the wire a template without fields cannot be told from a withdrawal, and no other can be mistaken for one. */
  lemma WithdrawalIsDistinct(id: U16, fields: seq<FieldSpec>)
    ensures TemplateBytes(id, fields) == WithdrawalBytes(id) <==> fields == []
  {
    FieldsTakeRoom(fields);
    assert |WithdrawalBytes(id)| == TEMPLATE_HEADER;
    assert |TemplateBytes(id, fields)| == TEMPLATE_HEADER + |FieldsBytes(fields)|;
    if fields == [] {
      assert TemplateBytes(id, fields) == WithdrawalBytes(id) + [];
    }
  }
}
