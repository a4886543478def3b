/** The type-level description of a message: `struct upb_msg_field`,
    `struct upb_abbrev_msg_field` and `struct upb_msg`, the invariant the
    (unshown) construction establishes, and the lookups by number and name. */
module Layout {
  import opened UpbTypes

  /** Field type tag (`upb_field_type_t`, declared in upb.h). */
  datatype FieldType = FieldType(tag: nat)

  /** Reference to a nested message or enum type (`union upb_symbol_ref`).
      Construction leaves it unresolved; the caller resolves it later. */
  datatype SymbolRef = Unresolved | Resolved(id: nat)

  /** The external schema node of one field, reduced to the facts the layout
      depends on: its number, its name, its type and whether it is required. */
  datatype FieldDescriptorProto =
    FieldDescriptorProto(number: u32, name: string, fieldType: FieldType, required: bool)

  /** The external schema node of a message type, kept opaque. */
  datatype DescriptorProto = DescriptorProto(name: string)

  /** `struct upb_msg_field`: the full description of one field. */
  datatype MsgField = MsgField(
    descriptor: FieldDescriptorProto,
    byteOffset: u32,   // where the field's value lives in an instance
    fieldIndex: u16,   // index into Msg.fields, and the presence-bit index
    ref: SymbolRef)

  /** `struct upb_abbrev_msg_field`: the by-value copy kept in the lookup tables.
      It leaves out the descriptor but copies the descriptor's type. */
  datatype AbbrevMsgField = AbbrevMsgField(
    byteOffset: u32,
    fieldIndex: u16,
    fieldType: FieldType,
    ref: SymbolRef)

  /** `struct upb_msg`. The two hash tables are modelled as maps. */
  datatype Msg = Msg(
    descriptor: DescriptorProto,
    size: nat,
    numFields: u32,
    setFlagsBytes: u32,
    numRequiredFields: u32,
    fieldsByNum: map<u32, AbbrevMsgField>,
    fieldsByName: map<string, AbbrevMsgField>,
    fields: seq<MsgField>)

  /** Number of bytes that hold the flags of the first `n` field indices,
      that is `ceil(n / 8)`. */
  function FlagBytes(n: nat): (c: nat)
    ensures 8 * c >= n && (c > 0 ==> 8 * (c - 1) < n)
  {
    (n + 7) / 8
  }

  /** The abbreviated table entry that belongs to a field. */
  function Abbreviate(f: MsgField): AbbrevMsgField {
    AbbrevMsgField(f.byteOffset, f.fieldIndex, f.descriptor.fieldType, f.ref)
  }

  /** `e` is the abbreviated entry of the field it indexes. */
  ghost predicate EntryOf(m: Msg, e: AbbrevMsgField) {
    e.fieldIndex as int < |m.fields| && e == Abbreviate(m.fields[e.fieldIndex])
  }

  /** What a constructed message type guarantees: dense field indices,
      required fields on the lowest indices, enough presence bytes, distinct
      numbers and names, and both tables holding exactly one entry per field. */
  ghost predicate Valid(m: Msg) {
    && |m.fields| == m.numFields as int
    && (forall i :: 0 <= i < |m.fields| ==> m.fields[i].fieldIndex as int == i)
    && m.numRequiredFields <= m.numFields
    && (forall i :: 0 <= i < |m.fields| ==>
          (m.fields[i].descriptor.required <==> i < m.numRequiredFields as int))
    && m.setFlagsBytes as int == FlagBytes(m.numFields as nat)
    && m.setFlagsBytes as int <= m.size
    && (forall i, j :: 0 <= i < j < |m.fields| ==>
          m.fields[i].descriptor.number != m.fields[j].descriptor.number &&
          m.fields[i].descriptor.name != m.fields[j].descriptor.name)
    && (forall i :: 0 <= i < |m.fields| ==>
          m.fields[i].descriptor.number in m.fieldsByNum &&
          m.fields[i].descriptor.name in m.fieldsByName)
    && (forall k :: k in m.fieldsByNum ==>
          EntryOf(m, m.fieldsByNum[k]) &&
          m.fields[m.fieldsByNum[k].fieldIndex].descriptor.number == k)
    && (forall k :: k in m.fieldsByName ==>
          EntryOf(m, m.fieldsByName[k]) &&
          m.fields[m.fieldsByName[k].fieldIndex].descriptor.name == k)
  }

  /** `upb_get_msg_field`: the full field an abbreviated entry stands for. */
  function GetMsgField(f: AbbrevMsgField, m: Msg): (r: MsgField)
    requires f.fieldIndex as int < |m.fields|
    ensures Valid(m) && (f in m.fieldsByNum.Values || f in m.fieldsByName.Values) ==>
              Abbreviate(r) == f
    ensures Valid(m) ==> r.fieldIndex == f.fieldIndex
  {
    m.fields[f.fieldIndex]
  }

  /** `upb_msg_fieldbynum`: NULL exactly when the number is not a key of the
      by-number table. */
  function FieldByNum(m: Msg, number: u32): (r: Option<AbbrevMsgField>)
    ensures r.None? <==> number !in m.fieldsByNum
    ensures r.Some? ==> r.value == m.fieldsByNum[number]
  {
    if number in m.fieldsByNum then Some(m.fieldsByNum[number]) else None
  }

  /** `upb_msg_fieldbyname`: NULL exactly when the name is not a key of the
      by-name table. */
  function FieldByName(m: Msg, name: string): (r: Option<AbbrevMsgField>)
    ensures r.None? <==> name !in m.fieldsByName
    ensures r.Some? ==> r.value == m.fieldsByName[name]
  {
    if name in m.fieldsByName then Some(m.fieldsByName[name]) else None
  }

  /** Looking a field up by its own number finds its entry, whose offset,
      index and type agree with the full descriptor. */
  lemma FieldByNumFindsField(m: Msg, i: nat)
    requires Valid(m) && i < |m.fields|
    ensures FieldByNum(m, m.fields[i].descriptor.number) == Some(Abbreviate(m.fields[i]))
  {
    var e := m.fieldsByNum[m.fields[i].descriptor.number];
    var j := e.fieldIndex as int;
    assert m.fields[j].descriptor.number == m.fields[i].descriptor.number;
    assert j == i;
  }

  /** Looking a field up by its own name finds its entry. */
  lemma FieldByNameFindsField(m: Msg, i: nat)
    requires Valid(m) && i < |m.fields|
    ensures FieldByName(m, m.fields[i].descriptor.name) == Some(Abbreviate(m.fields[i]))
  {
    var e := m.fieldsByName[m.fields[i].descriptor.name];
    var j := e.fieldIndex as int;
    assert m.fields[j].descriptor.name == m.fields[i].descriptor.name;
    assert j == i;
  }

  /** A number lookup misses exactly when no field of the message has that
      number; a hit leads back, through `upb_get_msg_field`, to the field with
      that number, whose abbreviation it is. */
  lemma FieldByNumMissIffUnknown(m: Msg, number: u32)
    requires Valid(m)
    ensures FieldByNum(m, number).None? <==>
            forall i :: 0 <= i < |m.fields| ==> m.fields[i].descriptor.number != number
    ensures FieldByNum(m, number).Some? ==>
            var e := FieldByNum(m, number).value;
            e.fieldIndex as int < |m.fields| &&
            GetMsgField(e, m).descriptor.number == number &&
            Abbreviate(GetMsgField(e, m)) == e
  {
  }

  /** A name lookup misses exactly when no field of the message has that name;
      a hit leads back, through `upb_get_msg_field`, to the field with that
      name, whose abbreviation it is. */
  lemma FieldByNameMissIffUnknown(m: Msg, name: string)
    requires Valid(m)
    ensures FieldByName(m, name).None? <==>
            forall i :: 0 <= i < |m.fields| ==> m.fields[i].descriptor.name != name
    ensures FieldByName(m, name).Some? ==>
            var e := FieldByName(m, name).value;
            e.fieldIndex as int < |m.fields| &&
            GetMsgField(e, m).descriptor.name == name &&
            Abbreviate(GetMsgField(e, m)) == e
  {
  }
}
