/** The demonstration types: `Packet`, whose fields cover every path of
    the engine, and `DateTime`, a value type declared here with no fields
    of its own, whose state is carried by an override codec. `DateTime`'s
    public static fields are not declared (see README, "Left out"). */
module PacketExample {
  import opened Results
  import opened Wire
  import opened Model
  import opened Engine
  import opened RoundTrip

  /** The public fields of `Packet`, in declaration order. */
  const PacketFields: seq<FieldDecl> := [
    FieldDecl("Integer", PrimS(Int32)),
    FieldDecl("Double", PrimS(Double)),
    FieldDecl("String", StrS),
    FieldDecl("NestingPacket", ClassS("Packet")),
    FieldDecl("Birthday", ClassS("DateTime")),
    FieldDecl("Numbers", ArrS(PrimS(Int32))),
    FieldDecl("Packets", ArrS(ClassS("Packet")))
  ]

  const PacketSchema: Schema := map["Packet" := ClassDecl(PacketFields), "DateTime" := StructDecl]

  /** A serializer with a `DateTime` codec added through `AddCustom`. */
  function PacketRegistry(dateTime: Codec): (reg: Registry)
    ensures reg.Keys == {ClassS("DateTime")} && reg[ClassS("DateTime")] == dateTime
  {
    AddCustom(map[], ClassS("DateTime"), dateTime)
  }

  /** A `DateTime` codec that writes the value's private state unchanged
      and wraps the payload it is given back into a `DateTime`. */
  const StateDateTime: Codec :=
    Codec((v: Value) => if v.Obj? then v.hidden else [], (b: seq<byte>) => Ok(Obj("DateTime", [], b)))

  /** The soundness hypothesis of the round-trip lemmas can be met: a
      codec that keeps the whole state restores every `DateTime`. */
  lemma StateDateTimeSound()
    ensures Sound(PacketRegistry(StateDateTime), PacketSchema)
  {
    var reg := PacketRegistry(StateDateTime);
    forall v: Value ensures CodecRestores(reg, PacketSchema, v) {
      if !v.Null? && TypeOf(v) in reg && Inhabits(PacketSchema, TypeOf(v), v) {
        assert Lookup(PacketSchema, "DateTime") == StructDecl;
        assert v == Obj("DateTime", [], v.hidden);
      }
    }
  }

  /** `Packet`'s field names are ASCII and distinct, so every frame the
      encoder writes for a packet resolves to its own field. */
  lemma PacketFieldsWellFormed()
    ensures WellFormedDecls(PacketFields)
    ensures FieldDecls(PacketSchema, "Packet") == PacketFields
  {
    PacketNamesAscii();
    PacketNamesDistinct();
  }

  lemma PacketNamesAscii()
    ensures forall i :: 0 <= i < |PacketFields| ==> IsAscii(PacketFields[i].name) && |PacketFields[i].name| <= MaxInt32
  {
    forall i | 0 <= i < |PacketFields| ensures IsAscii(PacketFields[i].name) {
      var name := PacketFields[i].name;
      assert forall j :: 0 <= j < |name| ==> name[j] as int < 0x80;
    }
  }

  /** No two names share both their first letter and their length. */
  lemma PacketNamesDistinct()
    ensures forall i, j :: 0 <= i < j < |PacketFields| ==> PacketFields[i].name != PacketFields[j].name
  {
    forall i, j | 0 <= i < j < |PacketFields| ensures PacketFields[i].name != PacketFields[j].name {
      var a := PacketFields[i].name;
      var b := PacketFields[j].name;
      assert a[0] != b[0] || |a| != |b|;
    }
  }

  /** `Activator.CreateInstance<Packet>()`: zero numbers and a null string. */
  lemma DefaultPacketScalars()
    ensures var fs := DefaultInstance(PacketSchema, "Packet").fields;
      && |fs| == 7
      && fs[0] == Field("Integer", Prim(Int32, [0, 0, 0, 0]))
      && fs[1] == Field("Double", Prim(Double, [0, 0, 0, 0, 0, 0, 0, 0]))
      && fs[2] == Field("String", Null)
  {
    assert FieldDecls(PacketSchema, "Packet") == PacketFields;
    assert Zeros(4) == [0, 0, 0, 0];
    assert Zeros(8) == [0, 0, 0, 0] + Zeros(4);
    assert DefaultValue(PacketSchema, PrimS(Int32)) == Prim(Int32, [0, 0, 0, 0]);
    assert DefaultValue(PacketSchema, PrimS(Double)) == Prim(Double, [0, 0, 0, 0, 0, 0, 0, 0]);
  }

  /** `Activator.CreateInstance<Packet>()`: null references for the nested
      packet and the arrays, and a `DateTime` that is a value, not a null
      reference. */
  lemma DefaultPacketComposites()
    ensures var fs := DefaultInstance(PacketSchema, "Packet").fields;
      && |fs| == 7
      && fs[3] == Field("NestingPacket", Null)
      && fs[4] == Field("Birthday", Obj("DateTime", [], []))
      && fs[5] == Field("Numbers", Null)
      && fs[6] == Field("Packets", Null)
  {
    assert FieldDecls(PacketSchema, "Packet") == PacketFields;
    assert Lookup(PacketSchema, "Packet").ClassDecl? && Lookup(PacketSchema, "DateTime").StructDecl?;
  }

  /** A packet that conforms to its declaration comes back as its
      normalized form when the `DateTime` codec is sound. */
  lemma PacketRoundTrip(dateTime: Codec, v: Value)
    requires Sound(PacketRegistry(dateTime), PacketSchema) && Conforms(PacketRegistry(dateTime), PacketSchema, ClassS("Packet"), v)
    ensures Deserialize(PacketRegistry(dateTime), PacketSchema, ClassS("Packet"), Serialize(PacketRegistry(dateTime), v))
         == Ok(Normalize(PacketRegistry(dateTime), PacketSchema, ClassS("Packet"), v))
    ensures v.Obj? ==> Normalize(PacketRegistry(dateTime), PacketSchema, ClassS("Packet"), v).fields[4] == v.fields[4]
  {
    var reg := PacketRegistry(dateTime);
    SerializeDeserialize(reg, PacketSchema, ClassS("Packet"), v);
    if v.Obj? {
      PacketFieldsWellFormed();
      NormalizeFieldsAt(reg, PacketSchema, PacketFields, v.fields, 4);
    }
  }

  /** A packet whose `NestingPacket` is null comes back with a default
      packet there instead: the null was written as the lone control byte,
      which the field scan reads as an empty object. */
  lemma NullNestingPacketBecomesDefault(dateTime: Codec, v: Value)
    requires Sound(PacketRegistry(dateTime), PacketSchema) && Conforms(PacketRegistry(dateTime), PacketSchema, ClassS("Packet"), v)
    requires v.Obj? && v.fields[3].value.Null?
    ensures var r := Deserialize(PacketRegistry(dateTime), PacketSchema, ClassS("Packet"), Serialize(PacketRegistry(dateTime), v));
      r.Ok? && r.value.fields[3] == Field("NestingPacket", DefaultInstance(PacketSchema, "Packet"))
  {
    var reg := PacketRegistry(dateTime);
    PacketFieldsWellFormed();
    SerializeDeserialize(reg, PacketSchema, ClassS("Packet"), v);
    NormalizeFieldsAt(reg, PacketSchema, PacketFields, v.fields, 3);
  }

  /** The `int[] { 1, 2, 3, 4, 6 }` of the demonstration program: the
      count, then per element its unit length 5 and its unit. */
  lemma SmallArrayBytes()
    ensures Serialize(map[], Arr(PrimS(Int32), [Int(1), Int(2), Int(3), Int(4), Int(6)]))
         == [0] + ([5, 0, 0, 0] +
              ([5, 0, 0, 0, 0, 1, 0, 0, 0] +
              ([5, 0, 0, 0, 0, 2, 0, 0, 0] +
              ([5, 0, 0, 0, 0, 3, 0, 0, 0] +
              ([5, 0, 0, 0, 0, 4, 0, 0, 0] +
               [5, 0, 0, 0, 0, 6, 0, 0, 0])))))
  {
    var elems := [Int(1), Int(2), Int(3), Int(4), Int(6)];
    assert Int32Bytes(5) == [5, 0, 0, 0];
    assert elems[4..] == [Int(6)] + [];
    IntElementBytes(6, []);
    var run4 := [5, 0, 0, 0, 0, 6, 0, 0, 0];
    assert SerializeElements(map[], elems[4..]) == run4;
    assert elems[3..] == [Int(4)] + elems[4..];
    IntElementBytes(4, elems[4..]);
    var run3 := [5, 0, 0, 0, 0, 4, 0, 0, 0] + run4;
    assert SerializeElements(map[], elems[3..]) == run3;
    assert elems[2..] == [Int(3)] + elems[3..];
    IntElementBytes(3, elems[3..]);
    var run2 := [5, 0, 0, 0, 0, 3, 0, 0, 0] + run3;
    assert SerializeElements(map[], elems[2..]) == run2;
    assert elems[1..] == [Int(2)] + elems[2..];
    IntElementBytes(2, elems[2..]);
    var run1 := [5, 0, 0, 0, 0, 2, 0, 0, 0] + run2;
    assert SerializeElements(map[], elems[1..]) == run1;
    assert elems == [Int(1)] + elems[1..];
    IntElementBytes(1, elems[1..]);
    var run0 := [5, 0, 0, 0, 0, 1, 0, 0, 0] + run1;
    assert SerializeElements(map[], elems) == run0;
    assert SerializeArray(map[], elems) == [5, 0, 0, 0] + run0;
    assert Serialize(map[], Arr(PrimS(Int32), elems)) == [0] + ([5, 0, 0, 0] + run0);
  }

  /** An `int` element is written as the unit length 5, the control byte
      and the four bytes of the number. */
  lemma IntElementBytes(n: nat, rest: seq<Value>)
    requires n < 256
    ensures SerializeElements(map[], [Int(n)] + rest) == [5, 0, 0, 0, 0, n, 0, 0, 0] + SerializeElements(map[], rest)
  {
    assert Int32Bytes(5) == [5, 0, 0, 0];
    assert Serialize(map[], Int(n)) == [0, n, 0, 0, 0];
    assert ([Int(n)] + rest)[1..] == rest;
  }

  /** An `int` value from its small non-negative number. */
  function Int(n: nat): Value
    requires n < 256
  {
    Prim(Int32, [n, 0, 0, 0])
  }
}
