/**
 * Building a template set in its byte array: the template functions of ipfixlolib.c over
 * the write helpers of encoding.c.
 */
module TemplateBuilder {
  import opened Options
  import opened Wire
  import opened TemplateWire
  import opened TemplateCycle

  // ----- Write helpers

  function Overwritten(s: seq<Byte>, pos: nat, b: seq<Byte>): seq<Byte>
    requires pos + |b| <= |s|
  {
    s[..pos] + b + s[pos + |b|..]
  }

  /** write_unsigned16 and write_extension_and_fieldID: nothing is written past the end. */
  method Write16(a: array<Byte>, pos: nat, end: nat, n: U16) returns (next: nat, ok: bool)
    requires end <= a.Length
    modifies a
    ensures ok <==> pos + 2 <= end
    ensures next == if ok then pos + 2 else pos
    ensures a[..] == if ok then Overwritten(old(a[..]), pos, Bytes16(n)) else old(a[..])
    ensures ok ==> a[..next] == old(a[..pos]) + Bytes16(n)
  {
    if end < pos + 2 {
      return pos, false;
    }
    var b := Bytes16(n);
    a[pos], a[pos + 1] := b[0], b[1];
    next, ok := pos + 2, true;
  }

  /** write_unsigned32. */
  method Write32(a: array<Byte>, pos: nat, end: nat, n: U32) returns (next: nat, ok: bool)
    requires end <= a.Length
    modifies a
    ensures ok <==> pos + 4 <= end
    ensures next == if ok then pos + 4 else pos
    ensures a[..] == if ok then Overwritten(old(a[..]), pos, Bytes32(n)) else old(a[..])
    ensures ok ==> a[..next] == old(a[..pos]) + Bytes32(n)
  {
    if end < pos + 4 {
      return pos, false;
    }
    var b := Bytes32(n);
    a[pos], a[pos + 1], a[pos + 2], a[pos + 3] := b[0], b[1], b[2], b[3];
    next, ok := pos + 4, true;
  }

  /** The bytes of the field that a call asks for. */
  lemma MeaningBytes(p: PutArgs)
    ensures
      if p.enterprise != 0 || p.kind >= ENTERPRISE_BIT then
        FieldBytes(Meaning(p)) == Bytes16(Flagged(p.kind)) + Bytes16(p.length) + Bytes32(p.enterprise)
      else FieldBytes(Meaning(p)) == Bytes16(p.kind) + Bytes16(p.length)
  {
  }

  lemma Associate(a: seq<Byte>, b: seq<Byte>, c: seq<Byte>)
    ensures a + b + c == a + (b + c)
  {
  }

  lemma {:induction false} FieldsLength(fields: seq<FieldSpec>)
    ensures |FieldsBytes(fields)| <= 8 * |fields|
  {
    if fields != [] {
      FieldsLength(fields[..|fields| - 1]);
    }
  }

  lemma LastField(fields: seq<FieldSpec>, f: FieldSpec)
    ensures FieldsBytes(fields + [f]) == FieldsBytes(fields) + FieldBytes(f)
  {
    assert (fields + [f])[..|fields|] == fields;
  }

  /** The field specifiers that a list of calls asks for. */
  function Meanings(puts: seq<PutArgs>): seq<FieldSpec> {
    if puts == [] then [] else Meanings(puts[..|puts| - 1]) + [Meaning(puts[|puts| - 1])]
  }

  /** A template set with a given length field and a given number of announced fields. */
  function Image(length: U16, id: U16, count: U16, fields: seq<FieldSpec>): seq<Byte> {
    HeaderBytes(length, id, count) + FieldsBytes(fields)
  }

  lemma ImageLonger(length: U16, id: U16, count: U16, fields: seq<FieldSpec>, f: FieldSpec)
    ensures Image(length, id, count, fields + [f]) == Image(length, id, count, fields) + FieldBytes(f)
    ensures |FieldsBytes(fields + [f])| == |FieldsBytes(fields)| + |FieldBytes(f)|
  {
    LastField(fields, f);
    Associate(HeaderBytes(length, id, count), FieldsBytes(fields), FieldBytes(f));
  }

  /** Writing the length field, as the end of a definition does. */
  lemma LengthFilledIn(s: seq<Byte>, length: U16, id: U16, count: U16, fields: seq<FieldSpec>, n: U16)
    requires s == Image(length, id, count, fields)
    ensures |s| >= 8 && Overwritten(s, 2, Bytes16(n)) == Image(n, id, count, fields)
  {
    var h0, h1, rest := Bytes16(TEMPLATE_SET_ID), Bytes16(length), Bytes16(id) + Bytes16(count) + FieldsBytes(fields);
    assert s == h0 + h1 + rest;
    assert s[..2] == h0 && s[4..] == rest;
  }

  lemma OverwrittenFront(s: seq<Byte>, n: nat, pos: nat, b: seq<Byte>)
    requires pos + |b| <= n <= |s|
    ensures Overwritten(s, pos, b)[..n] == Overwritten(s[..n], pos, b)
  {
  }

  lemma ImageFront(length: U16, id: U16, count: U16, fields: seq<FieldSpec>)
    ensures |Image(length, id, count, fields)| >= 8
    ensures Image(length, id, count, fields)[..8] == HeaderBytes(length, id, count)
  {
    assert |HeaderBytes(length, id, count)| == 8;
  }

  /** Writing a length of 8, as a withdrawal does. */
  lemma ShortLengthFilledIn(s: seq<Byte>, n: nat, length: U16, id: U16, count: U16, fields: seq<FieldSpec>)
    requires n <= |s| && s[..n] == Image(length, id, count, fields)
    ensures |s| >= 8 && Overwritten(s, 2, Bytes16(8))[..8] == HeaderBytes(8, id, count)
  {
    var after := Overwritten(s, 2, Bytes16(8));
    LengthFilledIn(s[..n], length, id, count, fields, 8);
    OverwrittenFront(s, n, 2, Bytes16(8));
    ImageFront(8, id, count, fields);
    assert after[..8] == after[..n][..8];
  }

  /** Writing a field count of 0, as a withdrawal does. */
  lemma CountFilledIn(s: seq<Byte>, length: U16, id: U16, count: U16)
    requires |s| >= 8 && s[..8] == HeaderBytes(length, id, count)
    ensures Overwritten(s, 6, Bytes16(0))[..8] == HeaderBytes(length, id, 0)
  {
    assert s[..6] == s[..8][..6] == Bytes16(TEMPLATE_SET_ID) + Bytes16(length) + Bytes16(id);
  }

  /** An entry of template_arr, with the buffer that its template_fields points to. */
  class TemplateSlot {
    var state: SlotState
    var id: U16
    var fieldCount: U16
    var fieldsAdded: nat
    var fieldsLength: nat
    var maxFieldsLength: nat
    var bytes: array<Byte>
    ghost var fields: seq<FieldSpec>
    ghost var lengthField: U16

    ghost function Value(): Slot
      reads this
    {
      Slot(state, id, fieldCount, fields)
    }

    /** The buffer is an image of the template, complete unless it is still being defined. */
    ghost predicate Ok()
      reads this, bytes
    {
      && SlotOk(Value())
      && (Live(Value()) ==>
            && |fields| == fieldsAdded && bytes.Length == maxFieldsLength
            && fieldsLength == TEMPLATE_HEADER + |FieldsBytes(fields)| <= maxFieldsLength
            && bytes[..fieldsLength] == Image(lengthField, id, fieldCount, fields)
            && (state.Unclean? ==> maxFieldsLength == 8 * fieldCount + 8)
            && (!state.Unclean? ==> lengthField == Low16(fieldsLength)))
    }

    /** Once the template is complete its buffer holds the template set that goes out. */
    lemma HoldsTemplate()
      requires Ok() && Live(Value()) && !state.Unclean?
      ensures fieldsLength <= bytes.Length && bytes[..fieldsLength] == SlotBytes(Value())
    {
    }

    /** A free entry. */
    constructor ()
      ensures Ok() && fresh(bytes) && Value() == FREE
    {
      state, id, fieldCount, fieldsAdded, fieldsLength, maxFieldsLength := Unused, 0, 0, 0, 0, 0;
      bytes := new Byte[0];
      fields, lengthField := [], 0;
    }

    /** ipfix_start_template, once an entry has been found. */
    method Begin(id: U16, fieldCount: U16)
      requires id > 255
      modifies this
      ensures Ok() && fresh(bytes) && Value() == Slot(Unclean, id, fieldCount, [])
    {
      maxFieldsLength := 8 * fieldCount + 8;
      bytes := new Byte[maxFieldsLength];
      state, this.id, this.fieldCount, fieldsAdded := Unclean, id, fieldCount, 0;
      fields, lengthField := [], 0;
      WriteTemplateHeader(bytes, id, fieldCount);
      fieldsLength := 8;
      assert FieldsBytes([]) == [];
      assert Image(0, id, fieldCount, []) == HeaderBytes(0, id, fieldCount);
    }

    static method WriteTemplateHeader(bytes: array<Byte>, id: U16, fieldCount: U16)
      requires bytes.Length >= TEMPLATE_HEADER
      modifies bytes
      ensures bytes[..TEMPLATE_HEADER] == HeaderBytes(0, id, fieldCount)
    {
      var pos, ok := Write16(bytes, 0, bytes.Length, TEMPLATE_SET_ID);
      assert ok && bytes[..2] == Bytes16(TEMPLATE_SET_ID);
      pos, ok := Write16(bytes, pos, bytes.Length, 0);
      assert ok && bytes[..4] == Bytes16(TEMPLATE_SET_ID) + Bytes16(0);
      pos, ok := Write16(bytes, pos, bytes.Length, id);
      assert ok && bytes[..6] == Bytes16(TEMPLATE_SET_ID) + Bytes16(0) + Bytes16(id);
      pos, ok := Write16(bytes, pos, bytes.Length, fieldCount);
      assert ok;
    }

    /** ipfix_put_template_field: a field too many is refused. */
    method Put(p: PutArgs) returns (ok: bool)
      requires Ok() && Live(Value())
      modifies this, bytes
      ensures Ok() && bytes == old(bytes)
      ensures ok <==> old(|fields|) < old(fieldCount)
      ensures Value() == if ok then old(Value()).(fields := old(fields) + [Meaning(p)]) else old(Value())
    {
      if fieldsAdded >= fieldCount {
        return false;
      }
      ghost var f := Meaning(p);
      MeaningIsEncodable(p);
      ImageLonger(lengthField, id, fieldCount, fields, f);
      FieldsLength(fields);
      var written := WriteField(p);
      fieldsLength := fieldsLength + written;
      fieldsAdded := fieldsAdded + 1;
      fields := fields + [f];
      ok := true;
    }

    /** There is always room for one field more: no write helper refuses. */
    method WriteField(p: PutArgs) returns (written: nat)
      requires fieldsLength + 8 <= maxFieldsLength == bytes.Length
      modifies bytes
      ensures written == |FieldBytes(Meaning(p))| && fieldsLength + written <= bytes.Length
      ensures bytes[..fieldsLength + written] == old(bytes[..fieldsLength]) + FieldBytes(Meaning(p))
    {
      var kind, specific := p.kind, false;
      if p.enterprise != 0 || p.kind >= ENTERPRISE_BIT {
        specific := true;
        kind := Flagged(kind);
      }
      MeaningBytes(p);
      ghost var before := bytes[..fieldsLength];
      var pos, done := Write16(bytes, fieldsLength, maxFieldsLength, kind);
      assert done;
      pos, done := Write16(bytes, pos, maxFieldsLength, p.length);
      assert done;
      written := 4;
      Associate(before, Bytes16(kind), Bytes16(p.length));
      if specific {
        pos, done := Write32(bytes, pos, maxFieldsLength, p.enterprise);
        assert done;
        Associate(before, Bytes16(kind) + Bytes16(p.length), Bytes32(p.enterprise));
        written := written + 4;
      }
    }

    /** ipfix_deinit_template. */
    method Free()
      requires Ok()
      modifies this
      ensures Ok() && fresh(bytes) && Value() == old(Value()).(state := Unused)
    {
      state := Unused;
      bytes := new Byte[0];
    }

    /** ipfix_end_template: the length is filled in; a wrong number of fields drops the template. */
    method End() returns (ok: bool)
      requires Ok() && Live(Value())
      modifies this
      ensures Ok() && fresh(bytes) && Value() == Finished(old(Value())) && ok == state.Committed?
    {
      if fieldsAdded != fieldCount {
        Free();
        return false;
      }
      Reallocate();
      FillInLength();
      state := Committed;
      ok := true;
    }

    /** realloc to the length in use. */
    method Reallocate()
      requires fieldsLength <= bytes.Length
      modifies this`bytes, this`maxFieldsLength
      ensures fresh(bytes) && bytes.Length == fieldsLength == maxFieldsLength && bytes[..] == old(bytes[..fieldsLength])
    {
      var copy := new Byte[fieldsLength];
      forall i | 0 <= i < fieldsLength {
        copy[i] := bytes[i];
      }
      bytes := copy;
      maxFieldsLength := fieldsLength;
    }

    method FillInLength()
      requires bytes.Length == fieldsLength == maxFieldsLength && bytes[..] == Image(lengthField, id, fieldCount, fields)
      modifies bytes, this`lengthField
      ensures lengthField == Low16(fieldsLength) && bytes[..] == Image(lengthField, id, fieldCount, fields)
    {
      LengthFilledIn(bytes[..], lengthField, id, fieldCount, fields, Low16(fieldsLength));
      var pos, done := Write16(bytes, 2, maxFieldsLength, Low16(fieldsLength));
      assert done;  // at least the header is there
      lengthField := Low16(fieldsLength);
    }

    /** ipfix_remove_template on a template that has been sent. */
    method Withdraw()
      requires Ok() && state.Sent?
      modifies this, bytes
      ensures Ok() && bytes == old(bytes) && Value() == Gone(old(Value()))
    {
      WriteWithdrawal();
      state, fieldsLength, fieldCount, fieldsAdded, fields, lengthField := Withdrawn, 8, 0, 0, [], 8;
      assert FieldsBytes([]) == [];
      assert Image(8, id, 0, []) == HeaderBytes(8, id, 0);
    }

    method WriteWithdrawal()
      requires Ok() && Live(Value())
      modifies bytes
      ensures bytes.Length >= 8 && bytes[..8] == HeaderBytes(8, id, 0)
    {
      var pos := WriteShortLength();
      WriteNoFields(pos + 2);
    }

    method WriteShortLength() returns (pos: nat)
      requires Ok() && Live(Value())
      modifies bytes
      ensures pos == 4 && bytes.Length >= 8 && bytes[..8] == HeaderBytes(8, id, fieldCount)
    {
      ShortLengthFilledIn(bytes[..], fieldsLength, lengthField, id, fieldCount, fields);
      var done;
      pos, done := Write16(bytes, 2, 8, 8);
    }

    method WriteNoFields(pos: nat)
      requires pos == 6 && bytes.Length >= 8 && bytes[..8] == HeaderBytes(8, id, fieldCount)
      modifies bytes
      ensures bytes[..8] == HeaderBytes(8, id, 0)
    {
      CountFilledIn(bytes[..], 8, id, fieldCount);
      var next, done := Write16(bytes, pos, 8, 0);
    }

    /** A change of state of a complete template: the buffer stays as it is. */
    method SetState(s: SlotState)
      requires Ok() && Live(Value()) && !state.Unclean?
      requires !s.Unused? && !s.Unclean? && SlotOk(Value().(state := s))
      modifies this`state
      ensures Ok() && Value() == old(Value()).(state := s)
    {
      state := s;
    }
  }

  /** At most the first n calls. */
  function AtMost(puts: seq<PutArgs>, n: nat): seq<PutArgs> { if |puts| <= n then puts else puts[..n] }

  lemma {:induction false} MeaningsLength(puts: seq<PutArgs>)
    ensures |Meanings(puts)| == |puts|
  {
    if puts != [] {
      MeaningsLength(puts[..|puts| - 1]);
    }
  }

  lemma AtMostNext(puts: seq<PutArgs>, k: nat, n: nat)
    requires k < |puts|
    ensures
      var fields, fields' := Meanings(AtMost(puts[..k], n)), Meanings(AtMost(puts[..k + 1], n));
      fields' == if |fields| < n then fields + [Meaning(puts[k])] else fields
  {
    MeaningsLength(AtMost(puts[..k], n));
    assert puts[..k + 1][..k] == puts[..k];
    assert k >= n ==> puts[..k + 1][..n] == puts[..k][..n] == AtMost(puts[..k], n);
  }

  method PutAll(t: TemplateSlot, puts: seq<PutArgs>)
    requires t.Ok() && t.state.Unclean? && t.fields == []
    modifies t, t.bytes
    ensures t.Ok() && t.bytes == old(t.bytes)
    ensures t.Value() == old(t.Value()).(fields := Meanings(AtMost(puts, t.fieldCount)))
  {
    assert puts[..0] == [];
    for k := 0 to |puts|
      invariant t.Ok() && t.bytes == old(t.bytes)
      invariant t.Value() == old(t.Value()).(fields := Meanings(AtMost(puts[..k], t.fieldCount)))
    {
      AtMostNext(puts, k, t.fieldCount);
      var accepted := t.Put(puts[k]);
    }
    assert puts[..|puts|] == puts;
  }

  /**
   * A whole definition: start, any puts, end.  It succeeds when at least the announced
   * number of fields has been put, and then a collector reads back the announced id and the
   * first fields, with their enterprise numbers, if and only if the set is shorter than 2^16
   * bytes.
   */
  method DefineTemplate(t: TemplateSlot, id: U16, count: U16, puts: seq<PutArgs>) returns (ok: bool)
    requires id > 255
    modifies t
    ensures t.Ok() && fresh(t.bytes)
    ensures ok <==> |puts| >= count
    ensures ok ==>
              && t.fieldsLength <= t.bytes.Length
              && (DecodeTemplate(t.bytes[..t.fieldsLength]) == Some(Template(id, Meanings(puts[..count]))) <==>
                  t.fieldsLength < 0x1_0000)
  {
    t.Begin(id, count);
    PutAll(t, puts);
    MeaningsLength(AtMost(puts, count));
    ok := t.End();
    if ok {
      t.HoldsTemplate();
      TemplateRoundTrip(id, t.fields);
      assert AtMost(puts, count) == puts[..count];
    }
  }
}
