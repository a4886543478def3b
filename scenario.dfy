/** A client of the presence operations: a valid message type with two
    required fields among ten, on a two-byte bitset. With one of the two
    required flags set the check fails; with both set it passes; an optional
    flag in the same byte makes the header's check fail again while the masked
    check passes. */
module RequiredScenario {
  import opened UpbTypes
  import opened Layout
  import opened Presence
  import opened RequiredCheck

  /** The name of field `i` of the example type: a one-letter name. */
  function FieldName(i: nat): (name: string)
    requires i < 10
    ensures |name| == 1 && name[0] as int == 'a' as int + i
  {
    [('a' as int + i) as char]
  }

  /** The number of field `i` of the example type. */
  function FieldNumber(i: nat): (number: u32)
    requires i < 10
    ensures number as int == i + 1
  {
    (i + 1) as u32
  }

  /** Field `i` of the example type: number `i + 1`, required exactly when
      `i < 2` (construction puts required fields first), its 8-byte value at
      `8 + 8 * i`, after the two flag bytes. */
  function ExampleField(i: nat): MsgField
    requires i < 10
  {
    MsgField(FieldDescriptorProto(FieldNumber(i), FieldName(i), FieldType(5), i < 2),
             (8 + 8 * i) as u32, i as u16, Unresolved)
  }

  /** The fields of the example type, field `i` at index `i`. */
  function ExampleFields(): (fs: seq<MsgField>)
    ensures |fs| == 10
    ensures forall i :: 0 <= i < 10 ==> fs[i] == ExampleField(i)
  {
    seq(10, i requires 0 <= i < 10 => ExampleField(i))
  }

  /** The by-number table of the example type: one entry per field number. */
  function ExampleByNumber(): map<u32, AbbrevMsgField> {
    map i | 0 <= i < 10 :: FieldNumber(i) := Abbreviate(ExampleField(i))
  }

  /** The by-number table has the keys 1 to 10, key `k` holding the entry of
      field `k - 1`. */
  lemma ExampleByNumberEntries()
    ensures forall k :: k in ExampleByNumber() <==> 1 <= k <= 10
    ensures forall k :: k in ExampleByNumber() ==>
              ExampleByNumber()[k] == Abbreviate(ExampleField(k as nat - 1))
  {
    var t := ExampleByNumber();
    forall k: u32 | 1 <= k <= 10
      ensures k in t
    {
      assert FieldNumber(k as nat - 1) == k;
    }
    forall k | k in t
      ensures 1 <= k <= 10 && t[k] == Abbreviate(ExampleField(k as nat - 1))
    {
      var i :| 0 <= i < 10 && FieldNumber(i) == k;
    }
  }

  /** Which field of the example type a one-letter name belongs to. */
  function NameIndex(name: string): int
    requires |name| == 1
  {
    name[0] as int - 'a' as int
  }

  /** The by-name table of the example type: one entry per field name. */
  function ExampleByName(): map<string, AbbrevMsgField> {
    map i | 0 <= i < 10 :: FieldName(i) := Abbreviate(ExampleField(i))
  }

  /** The by-name table has the ten one-letter names from `a` as keys, each
      holding the entry of the field with that name. */
  lemma ExampleByNameEntries()
    ensures forall i :: 0 <= i < 10 ==> FieldName(i) in ExampleByName()
    ensures forall k :: k in ExampleByName() ==>
              |k| == 1 && 0 <= NameIndex(k) < 10 && FieldName(NameIndex(k)) == k &&
              ExampleByName()[k] == Abbreviate(ExampleField(NameIndex(k)))
  {
    var t := ExampleByName();
    forall k | k in t
      ensures |k| == 1 && 0 <= NameIndex(k) < 10 && FieldName(NameIndex(k)) == k
      ensures t[k] == Abbreviate(ExampleField(NameIndex(k)))
    {
      var i :| 0 <= i < 10 && FieldName(i) == k;
      assert NameIndex(k) == i;
    }
  }

  /** The example message type: ten fields, two of them required, two flag
      bytes, and both lookup tables holding one entry per field. */
  function ExampleMsg(): Msg {
    Msg(DescriptorProto("M"), 88, 10, 2, 2, ExampleByNumber(), ExampleByName(), ExampleFields())
  }

  /** The example's fields are densely indexed, required ones first. */
  lemma ExampleFieldsDense()
    ensures var m := ExampleMsg();
            && (forall i :: 0 <= i < |m.fields| ==> m.fields[i].fieldIndex as int == i)
            && (forall i :: 0 <= i < |m.fields| ==>
                  (m.fields[i].descriptor.required <==> i < m.numRequiredFields as int))
  {
  }

  /** Two different fields of the example differ in number and in name. */
  lemma ExampleFieldsDiffer(i: nat, j: nat)
    requires i < j < 10
    ensures ExampleField(i).descriptor.number != ExampleField(j).descriptor.number
    ensures ExampleField(i).descriptor.name != ExampleField(j).descriptor.name
  {
    assert FieldName(i)[0] != FieldName(j)[0];
  }

  /** The example's fields have distinct numbers and names. */
  lemma ExampleFieldsDistinct()
    ensures var m := ExampleMsg();
            forall i, j :: 0 <= i < j < |m.fields| ==>
              m.fields[i].descriptor.number != m.fields[j].descriptor.number &&
              m.fields[i].descriptor.name != m.fields[j].descriptor.name
  {
    var fs := ExampleFields();
    forall i, j | 0 <= i < j < |fs|
      ensures fs[i].descriptor.number != fs[j].descriptor.number
      ensures fs[i].descriptor.name != fs[j].descriptor.name
    {
      assert fs[i] == ExampleField(i) && fs[j] == ExampleField(j);
      ExampleFieldsDiffer(i, j);
    }
  }

  /** Every field of the example is a key of both tables. */
  lemma ExampleFieldsInTables()
    ensures var m := ExampleMsg();
            forall i :: 0 <= i < |m.fields| ==>
              m.fields[i].descriptor.number in m.fieldsByNum &&
              m.fields[i].descriptor.name in m.fieldsByName
  {
    ExampleByNumberEntries();
    ExampleByNameEntries();
    var m := ExampleMsg();
    forall i | 0 <= i < 10
      ensures m.fields[i].descriptor.number in m.fieldsByNum
      ensures m.fields[i].descriptor.name in m.fieldsByName
    {
      assert m.fields[i] == ExampleField(i);
    }
  }

  /** Every entry of the by-number table is the entry of the field with that
      number. */
  lemma ExampleByNumberAgrees()
    ensures var m := ExampleMsg();
            forall k :: k in m.fieldsByNum ==>
              EntryOf(m, m.fieldsByNum[k]) &&
              m.fields[m.fieldsByNum[k].fieldIndex].descriptor.number == k
  {
    ExampleByNumberEntries();
    var t := ExampleByNumber();
    var fs := ExampleFields();
    forall k | k in t
      ensures t[k].fieldIndex as int == k as int - 1
      ensures fs[k as int - 1].descriptor.number == k
      ensures t[k] == Abbreviate(fs[k as int - 1])
    {
      assert fs[k as int - 1] == ExampleField(k as nat - 1);
    }
  }

  /** Every entry of the by-name table is the entry of the field with that
      name. */
  lemma ExampleByNameAgrees()
    ensures var m := ExampleMsg();
            forall k :: k in m.fieldsByName ==>
              EntryOf(m, m.fieldsByName[k]) &&
              m.fields[m.fieldsByName[k].fieldIndex].descriptor.name == k
  {
    ExampleByNameEntries();
    var t := ExampleByName();
    var fs := ExampleFields();
    forall k | k in t
      ensures t[k].fieldIndex as int == NameIndex(k)
      ensures fs[NameIndex(k)].descriptor.name == k
      ensures t[k] == Abbreviate(fs[NameIndex(k)])
    {
      assert fs[NameIndex(k)] == ExampleField(NameIndex(k));
    }
  }

  /** The example is a message type construction could have produced. */
  lemma ExampleMsgValid()
    ensures Valid(ExampleMsg())
  {
    ExampleFieldsDense();
    ExampleFieldsDistinct();
    ExampleFieldsInTables();
    ExampleByNumberAgrees();
    ExampleByNameAgrees();
  }

  /** What the scenario relies on: two required fields on indices 0 and 1,
      an optional one on index 2, all three in flag byte 0 of a two-byte
      bitset. */
  ghost predicate ScenarioShape(m: Msg) {
    && m.numRequiredFields == 2
    && m.setFlagsBytes == 2
    && |m.fields| >= 3
    && m.fields[0].fieldIndex == 0
    && m.fields[1].fieldIndex == 1
    && m.fields[2].fieldIndex == 2
    && m.fields[0].descriptor.required && m.fields[1].descriptor.required
    && !m.fields[2].descriptor.required
  }

  /** Every valid message type with ten fields, two of them required, has
      that shape. */
  lemma TwoOfTenShape(m: Msg)
    requires Valid(m) && m.numFields == 10 && m.numRequiredFields == 2
    ensures ScenarioShape(m)
  {
    assert m.fields[2].fieldIndex as int == 2;
  }

  /** The example is such a type. */
  lemma ExampleMsgShape()
    ensures Valid(ExampleMsg()) && ScenarioShape(ExampleMsg())
  {
    ExampleMsgValid();
    TwoOfTenShape(ExampleMsg());
  }

  /** Setting the first required flag leaves the check false; setting the
      second makes it true. */
  method RequiredFlagsDecideCheck(m: Msg)
    requires ScenarioShape(m)
  {
    var s := new bv8[m.setFlagsBytes];
    MsgClear(s, m);
    MsgSet(s, m.fields[0]);
    assert s[0] == 1;
    var complete := AllRequiredFieldsSet(s, m);
    assert !complete;
    MsgSet(s, m.fields[1]);
    assert s[0] == 3;
    complete := AllRequiredFieldsSet(s, m);
    assert complete;
  }

  /** With both required flags set, the flag of the optional field on index 2,
      which shares byte 0 with them, makes the header's check false while the
      masked check stays true. */
  method OptionalFlagDefeatsHeaderCheck(m: Msg)
    requires ScenarioShape(m)
  {
    var s := new bv8[m.setFlagsBytes];
    MsgClear(s, m);
    MsgSet(s, m.fields[0]);
    assert s[0] == 1;
    MsgSet(s, m.fields[1]);
    assert s[0] == 3;
    MsgSet(s, m.fields[2]);
    assert s[0] == 7;
    var complete := AllRequiredFieldsSet(s, m);
    assert !complete;
    complete := AllRequiredFieldsSetMasked(s, m);
    assert complete;
  }

  /** The scenario run on the example type. */
  method RunOnExample()
  {
    ExampleMsgShape();
    RequiredFlagsDecideCheck(ExampleMsg());
    OptionalFlagDefeatsHeaderCheck(ExampleMsg());
  }
}
