/** Single-call facts about the engine that the round-trip theorem does
    not show: what null fields become, which bytes are checked, which
    frames fail or are skipped, and how the override registry takes
    precedence. */
module Behaviours {
  import opened Results
  import opened Wire
  import opened Model
  import opened Engine
  import opened RoundTrip

  /** A primitive's unit is its native image behind the control byte, and
      decoding such a unit gives the image back. */
  lemma PrimitiveRoundTrip(reg: Registry, schema: Schema, k: PrimKind, image: seq<byte>)
    requires PrimS(k) !in reg && |image| == NativeSize(k)
    ensures Serialize(reg, Prim(k, image)) == [ControlByte] + image
    ensures Deserialize(reg, schema, PrimS(k), [ControlByte] + image) == Ok(Prim(k, image))
  {
    assert ([ControlByte] + image)[1..] == image;
    assert image[..NativeSize(k)] == image;
  }

  /** A string's unit is its UTF-8 bytes with no length field; decoding
      takes everything after the control byte. */
  lemma StringRoundTrip(reg: Registry, schema: Schema, utf8: seq<byte>)
    requires StrS !in reg
    ensures Serialize(reg, Str(utf8)) == [ControlByte] + utf8
    ensures Deserialize(reg, schema, StrS, [ControlByte] + utf8) == Ok(Str(utf8))
  {
    assert ([ControlByte] + utf8)[1..] == utf8;
  }

  /** A count of zero yields an empty array without reading further;
      whatever follows the count is ignored. */
  lemma ZeroCountArray(reg: Registry, schema: Schema, e: Shape, trailing: seq<byte>)
    requires ArrS(e) !in reg
    ensures Deserialize(reg, schema, ArrS(e), [ControlByte] + (Int32Bytes(0) + trailing)) == Ok(Arr(e, []))
  {
    var payload := Int32Bytes(0) + trailing;
    ReadInt32Prefix(0, trailing);
    assert ([ControlByte] + payload)[1..] == payload;
    assert DeserializeElements(reg, schema, e, payload[4..], 0) == Ok([]);
    assert DeserializeArray(reg, schema, e, payload) == Ok(Arr(e, []));
  }

  /** A null field is written as the lone control byte, and that unit
      decodes to "" for a string, an empty array for an array, and a
      default instance for a class, never back to null. */
  lemma NullFieldDecodes(reg: Registry, schema: Schema, t: Shape)
    requires t !in reg && (t.StrS? || t.ArrS? || (t.ClassS? && Lookup(schema, t.name).ClassDecl?))
    ensures t.StrS? ==> DeserializeSimpleValue(reg, schema, t, Serialize(reg, Null)) == Ok(Str([]))
    ensures t.ArrS? ==> DeserializeSimpleValue(reg, schema, t, Serialize(reg, Null)) == Ok(Arr(t.elem, []))
    ensures t.ClassS? ==> DeserializeSimpleValue(reg, schema, t, Serialize(reg, Null)) == Ok(DefaultInstance(schema, t.name))
    ensures DeserializeSimpleValue(reg, schema, t, Serialize(reg, Null)) != Ok(Null)
  {
  }

  /** The skip branch is dead on serializer output: the frame written for
      any field with an ASCII name reads back as a data frame carrying the
      field's whole unit, whatever the target type declares. */
  lemma SerializedFrameIsNeverSkipped(reg: Registry, decls: seq<FieldDecl>, f: Field, tail: seq<byte>)
    requires IsAscii(f.name) && |f.name| <= MaxInt32 && |Serialize(reg, f.value)| <= MaxInt32
    ensures ReadFrame(decls, SerializeField(reg, f) + tail)
         == Ok(Data(FieldIndex(decls, Utf8(f.name)), Serialize(reg, f.value), tail))
  {
    AsciiLengths(f.name);
    SerializeFieldLayout(reg, f, tail);
    ReadDataFrame(decls, Utf8(f.name), Serialize(reg, f.value), tail);
  }

  /** The top-level decode of a composite type never looks at byte 0. */
  lemma TopLevelIgnoresMarker(reg: Registry, schema: Schema, c: string, b: byte, rest: seq<byte>)
    requires ClassS(c) !in reg
    ensures Deserialize(reg, schema, ClassS(c), [b] + rest) == Deserialize(reg, schema, ClassS(c), [ControlByte] + rest)
  {
    assert ([b] + rest)[1..] == rest == ([ControlByte] + rest)[1..];
  }

  /** The same buffer nested inside an array or a field is rejected when
      its first byte is not the control byte, so a wrong marker is caught
      only below the top level. */
  lemma NestedChecksMarker(reg: Registry, schema: Schema, c: string, b: byte, rest: seq<byte>)
    requires ClassS(c) !in reg && b != ControlByte
    ensures DeserializeSimpleValue(reg, schema, ClassS(c), [b] + rest) == Err(BadMarker)
    ensures Deserialize(reg, schema, ClassS(c), [b] + rest).Ok? <==>
            Deserialize(reg, schema, ClassS(c), [ControlByte] + rest).Ok?
  {
    TopLevelIgnoresMarker(reg, schema, c, b, rest);
  }

  /** A frame with positive data length whose name matches no declared
      field makes the whole decode fail. */
  lemma UnknownFieldFails(reg: Registry, schema: Schema, c: string, nameBytes: seq<byte>, unit: seq<byte>, tail: seq<byte>)
    requires ClassS(c) !in reg
    requires FieldIndex(FieldDecls(schema, c), nameBytes).None?
    requires |nameBytes| <= MaxInt32 && 1 <= |unit| <= MaxInt32
    ensures Deserialize(reg, schema, ClassS(c),
              [ControlByte] + (Int32Bytes(|nameBytes|) + (nameBytes + (Int32Bytes(|unit|) + (unit + tail)))))
         == Err(UnknownField)
  {
    var rest := Int32Bytes(|nameBytes|) + (nameBytes + (Int32Bytes(|unit|) + (unit + tail)));
    UnknownFrameStops(reg, schema, FieldDecls(schema, c), nameBytes, unit, tail, DefaultInstance(schema, c).fields);
    CompositeDecodeFails(reg, schema, c, rest);
  }

  lemma UnknownFrameStops(reg: Registry, schema: Schema, decls: seq<FieldDecl>, nameBytes: seq<byte>,
                          unit: seq<byte>, tail: seq<byte>, fields: seq<Field>)
    requires |fields| == |decls| && FieldIndex(decls, nameBytes).None?
    requires |nameBytes| <= MaxInt32 && 1 <= |unit| <= MaxInt32
    ensures ReadFrames(reg, schema, decls, Int32Bytes(|nameBytes|) + (nameBytes + (Int32Bytes(|unit|) + (unit + tail))), fields)
         == Err(UnknownField)
  {
    ReadDataFrame(decls, nameBytes, unit, tail);
  }

  /** A composite decode fails exactly as its frame loop does. */
  lemma CompositeDecodeFails(reg: Registry, schema: Schema, c: string, rest: seq<byte>)
    requires ClassS(c) !in reg && |rest| > 0
    requires ReadFrames(reg, schema, FieldDecls(schema, c), rest, DefaultInstance(schema, c).fields).Err?
    ensures Deserialize(reg, schema, ClassS(c), [ControlByte] + rest)
         == Err(ReadFrames(reg, schema, FieldDecls(schema, c), rest, DefaultInstance(schema, c).fields).error)
  {
    assert ([ControlByte] + rest)[1..] == rest;
  }

  /** A frame whose data length is zero or negative is passed over before
      its name is looked up, so even an unknown name is harmless there. */
  lemma NonPositiveDataLengthSkipped(reg: Registry, schema: Schema, decls: seq<FieldDecl>, nameBytes: seq<byte>,
                                     dataLength: int, tail: seq<byte>, fields: seq<Field>)
    requires |fields| == |decls| && |nameBytes| <= MaxInt32
    requires IsInt32(dataLength) && dataLength <= 0
    ensures ReadFrames(reg, schema, decls, Int32Bytes(|nameBytes|) + (nameBytes + (Int32Bytes(dataLength) + tail)), fields)
         == ReadFrames(reg, schema, decls, tail, fields)
  {
    var afterName := Int32Bytes(dataLength) + tail;
    ReadSizedOf(nameBytes, afterName);
    ReadInt32Prefix(dataLength, tail);
    assert afterName[4..] == tail;
  }

  /** A data length that runs past the end of the buffer fails. */
  lemma DataPastEndFails(reg: Registry, schema: Schema, decls: seq<FieldDecl>, nameBytes: seq<byte>,
                         dataLength: int, tail: seq<byte>, fields: seq<Field>)
    requires |fields| == |decls| && |nameBytes| <= MaxInt32
    requires IsInt32(dataLength) && dataLength > |tail|
    ensures ReadFrames(reg, schema, decls, Int32Bytes(|nameBytes|) + (nameBytes + (Int32Bytes(dataLength) + tail)), fields)
         == Err(OutOfRange)
  {
    var afterName := Int32Bytes(dataLength) + tail;
    ReadSizedOf(nameBytes, afterName);
    ReadInt32Prefix(dataLength, tail);
  }

  /** An element length that runs past the end of the array payload fails. */
  lemma ElementPastEndFails(reg: Registry, schema: Schema, e: Shape, len: int, tail: seq<byte>, count: nat)
    requires IsInt32(len) && len > |tail| && count >= 1
    ensures DeserializeElements(reg, schema, e, Int32Bytes(len) + tail, count) == Err(OutOfRange)
  {
    ReadInt32Prefix(len, tail);
  }

  /** Truncation is not always detected: a string unit cut short by one
      byte decodes, silently, to a shorter string. */
  lemma TruncatedStringDecodes(reg: Registry, schema: Schema, utf8: seq<byte>)
    requires StrS !in reg && |utf8| >= 1
    ensures var unit := Serialize(reg, Str(utf8));
      Deserialize(reg, schema, StrS, unit[..|unit| - 1]) == Ok(Str(utf8[..|utf8| - 1]))
  {
    var unit := Serialize(reg, Str(utf8));
    assert unit[..|unit| - 1][1..] == utf8[..|utf8| - 1];
  }

  /** Nor is a cut down to the control byte: an array or object unit of any
      length, reduced to its first byte, decodes to an empty array or a
      default instance. */
  lemma TruncatedToMarkerDecodes(reg: Registry, schema: Schema, t: Shape, v: Value)
    requires t !in reg && (t.ArrS? || t.ClassS?)
    ensures t.ArrS? ==> Deserialize(reg, schema, t, Serialize(reg, v)[..1]) == Ok(Arr(t.elem, []))
    ensures t.ClassS? ==> Deserialize(reg, schema, t, Serialize(reg, v)[..1]) == Ok(DefaultInstance(schema, t.name))
  {
    assert Serialize(reg, v)[..1] == [ControlByte];
  }

  /** A registered type is encoded by its codec, ahead of the primitive,
      string, array and field-walk branches. */
  lemma RegisteredEncodeTakesPrecedence(reg: Registry, v: Value)
    requires !v.Null? && TypeOf(v) in reg
    ensures Serialize(reg, v) == [ControlByte] + reg[TypeOf(v)].Encode(v)
  {
  }

  /** A registered type is simple, and its decoder is handed the payload
      without the control byte, ahead of every built-in branch, composite
      types included. */
  lemma RegisteredDecodeTakesPrecedence(reg: Registry, schema: Schema, t: Shape, payload: seq<byte>)
    requires t in reg
    ensures IsSimple(reg, t)
    ensures Deserialize(reg, schema, t, [ControlByte] + payload) == reg[t].Decode(payload)
  {
    assert ([ControlByte] + payload)[1..] == payload;
  }

  /** Registering a codec for a type makes it simple and routes both
      directions through the new codec, replacing any earlier one. */
  lemma AddCustomOverrides(reg: Registry, schema: Schema, v: Value, codec: Codec, payload: seq<byte>)
    requires !v.Null?
    ensures IsSimple(AddCustom(reg, TypeOf(v), codec), TypeOf(v))
    ensures Serialize(AddCustom(reg, TypeOf(v), codec), v) == [ControlByte] + codec.Encode(v)
    ensures Deserialize(AddCustom(reg, TypeOf(v), codec), schema, TypeOf(v), [ControlByte] + payload)
         == codec.Decode(payload)
  {
    RegisteredDecodeTakesPrecedence(AddCustom(reg, TypeOf(v), codec), schema, TypeOf(v), payload);
  }
}
