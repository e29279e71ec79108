# byte-serializer: the binary encode/decode engine

This project models `ObjectSerializer`, the reflection-driven binary
serializer of the byte-serializer repository, and proves properties of
the model in Dafny. The model covers the engine's entry points
`Serialize`, `Deserialize<T>`, `AddCustom` and `IsSimpleType`. It also
covers every private step they take:

- `StartsWithControlByte`;
- `SerializeArray`, `SerializeFields`, `SerializeField` and `GetMetaPrefix`;
- `DeserializeSimpleValue`, `DeserializeArray`, `DeserializeReferenceType`
  and `DeserializeNumericalType`.

Every encoded unit is the control byte `0` followed by a payload:

- a primitive is its native byte image;
- a string is its UTF-8 bytes, with no length field;
- an array is an int32 count followed by each element's unit, each behind
  its own int32 length;
- an object is one frame per public field, in declaration order. A frame
  is the name length, the name bytes, the data length and the field's
  unit.

The override registry maps an exact type to a codec. It takes precedence
over every built-in branch in both directions.

Modules, one per file:

- `Results` (results.dfy): the `Result` and `Option` types. Every
  exception the C# code can throw on malformed input becomes an `Err`.
- `Wire` (wire.dfy): bytes, the little-endian int32 of `BitConverter`,
  UTF-8 encoding, and the UTF-16 `String.Length` written in a name
  prefix.
- `Model` (model.dfy): runtime values, declared shapes, and the per-type
  field tables (`Schema`) that stand in for reflection. Also the default
  instance built by `Activator.CreateInstance`, and the codec registry.
- `Engine` (engine.dfy): the encoder and decoder. The decoder's cursor is
  the unread suffix of the buffer.
- `RoundTrip` (roundtrip.dfy): the round-trip theorem. If `v` conforms to
  the shape `t` it is declared with, `Deserialize(t, Serialize(v))`
  succeeds and returns `Normalize(t, v)`. That is `v` with three changes:
  null strings, arrays and objects become `""`, an empty array and a
  default instance, and private state is dropped. For a value with no
  such nulls and no private state, the result is `v` itself.
- `Behaviours` (behaviours.dfy): single-call facts. They cover the marker
  check, null fields, skipped and failing frames, truncation, and registry
  precedence.
- `PacketExample` (packet.dfy): the repository's `Packet` class and the
  demonstration program's values.

The registry's codecs are abstract encode/decode function pairs. The
predicate `Inhabits` says which values a declared type can hold. The
predicate `Sound` states that each codec restores every non-null value
that inhabits its own type. The round-trip lemmas take `Sound` as a
hypothesis and prove nothing about any particular codec. The codec
`PacketExample.StateDateTime` shows that the hypothesis can be met.

Behaviours of the code a reader may not expect, which the model
reproduces:

- A top-level composite decode never checks the marker byte.
- A top-level composite decode of an empty or one-byte buffer returns a
  default instance. It does not fail.
- A string unit cut short decodes silently to a shorter string.

## Model

| member | source | states |
|---|---|---|
| Wire.Int32Bytes | ObjectSerializer/ObjectSerializer.cs:75 | `BitConverter.GetBytes(int)` gives four bytes whose little-endian value is `n` modulo 2^32 |
| Wire.ReadInt32 | ObjectSerializer/ObjectSerializer.cs:92 | `BitConverter.ToInt32` gives the int32 congruent, modulo 2^32, to the little-endian value of the first four bytes |
| Wire.Utf8 | ObjectSerializer/ObjectSerializer.cs:29 | `Encoding.UTF8.GetBytes` takes between one and four bytes per character |
| Wire.Utf16Length | ObjectSerializer/ObjectSerializer.cs:183 | `String.Length` counts between one and two code units per character |
| Wire.LittleEndianRoundTrip | ObjectSerializer/ObjectSerializer.cs:75 | the k little-endian bytes of any number below 256^k read back as that number |
| Wire.Int32RoundTrip | ObjectSerializer/ObjectSerializer.cs:99 | `BitConverter.ToInt32` of `BitConverter.GetBytes(n)` is `n` for every int32 `n`, negative ones included |
| Wire.ReadInt32Prefix | ObjectSerializer/ObjectSerializer.cs:99-100 | reading a length field looks only at its own four bytes, whatever follows it |
| Wire.AsciiLengths | ObjectSerializer/ObjectSerializer.cs:182-184 | for an ASCII name, `String.Length`, the character count and the UTF-8 byte count agree, and each byte is its character's code |
| Wire.AsciiUtf8Injective | ObjectSerializer/ObjectSerializer.cs:124-126 | two ASCII names with the same UTF-8 bytes are the same name, so a frame's name selects one field |
| Wire.NonAsciiNameLengthMismatch | ObjectSerializer/ObjectSerializer.cs:183-184 | for the name "é" the written length is 1 while the name occupies 2 bytes, so the prefix is not a byte count |
| Model.NativeSize | ObjectSerializer/ObjectSerializer.cs:150 | every primitive occupies 1, 2, 4 or 8 bytes |
| Model.IsSimple | ObjectSerializer/ObjectSerializer.cs:44-45 | a type is decoded as a simple value exactly when it is not a class type or it has a registered codec |
| Model.FieldDecls | ObjectSerializer/ObjectSerializer.cs:170-172 | a type that is not a declared class has no public fields, and a non-empty field list belongs to a declared class |
| Model.TypeOf | ObjectSerializer/ObjectSerializer.cs:20 | the runtime type of a non-null value is a primitive, string, array or class type exactly when the value is one |
| Model.DefaultValue | ObjectSerializer/ObjectSerializer.cs:116 | a fresh field holds null exactly when its type is a string, an array or a class; primitives and structs are never null |
| Model.DefaultFields | ObjectSerializer/ObjectSerializer.cs:116 | a fresh instance has one field per declared field, and field `k` carries the declared name and the default value of the declared type |
| Model.DefaultInstance | ObjectSerializer/ObjectSerializer.cs:116 | `Activator.CreateInstance<T>()` is an object of class `T` with no private state whose field `k` carries declared field `k`'s name and the default value of its type |
| Model.AddCustom | ObjectSerializer/ObjectSerializer.cs:47 | registering adds or overwrites exactly the entry for the given type and leaves every other entry as it was |
| Engine.StartsWithControlByte | ObjectSerializer/ObjectSerializer.cs:49-50 | the result is the control byte followed by exactly the payload |
| Engine.Serialize | ObjectSerializer/ObjectSerializer.cs:15-33 | every unit is non-empty and starts with the control byte, and null is the control byte alone |
| Engine.SerializeArray | ObjectSerializer/ObjectSerializer.cs:73-84 | an array payload is at least 4 bytes, plus 5 bytes per element |
| Engine.ArrayCountPrefix | ObjectSerializer/ObjectSerializer.cs:75-76 | the array payload opens with the element count |
| Engine.SerializeElements | ObjectSerializer/ObjectSerializer.cs:78-83 | each element takes at least 5 bytes, a length and a non-empty unit, and no elements means no bytes |
| Engine.SerializeFields | ObjectSerializer/ObjectSerializer.cs:170-173 | each field takes at least 9 bytes, and an object without fields has an empty payload |
| Engine.SerializeField | ObjectSerializer/ObjectSerializer.cs:175-180 | a frame is 8 bytes of lengths plus the name's UTF-8 bytes plus the field's unit |
| Engine.FieldDataLengthPositive | ObjectSerializer/ObjectSerializer.cs:177-179 | the data length written in a frame is the unit's size, which is at least 1 |
| Engine.GetMetaPrefix | ObjectSerializer/ObjectSerializer.cs:182-184 | the prefix is 4 bytes followed by the name's UTF-8 bytes |
| Engine.AsciiPrefixLength | ObjectSerializer/ObjectSerializer.cs:182-184 | for an ASCII name the prefix's length field equals the number of name bytes after it |
| Engine.Deserialize | ObjectSerializer/ObjectSerializer.cs:35-42 | a composite type decodes a buffer of at most one byte to a default instance, while a simple type fails on an empty buffer or a wrong marker |
| Engine.DeserializeSimpleValue | ObjectSerializer/ObjectSerializer.cs:52-71 | an empty buffer or a wrong marker fails, and a registered type hands the codec the bytes after the marker |
| Engine.DeserializeNumericalType | ObjectSerializer/ObjectSerializer.cs:161-168 | decoding succeeds exactly when the payload holds the type's native size, and the result is that many leading bytes |
| Engine.DeserializeArray | ObjectSerializer/ObjectSerializer.cs:86-111 | an empty payload is an empty array, and otherwise the element count is the int32 at the front |
| Engine.ReadSized | ObjectSerializer/ObjectSerializer.cs:99-102 | a length-prefixed run is read exactly when its length is non-negative and within the buffer, and the buffer splits into length, run and rest |
| Engine.DeserializeElements | ObjectSerializer/ObjectSerializer.cs:97-108 | a successful loop yields exactly `count` elements and needed at least 5 bytes for each |
| Engine.DeserializeReferenceType | ObjectSerializer/ObjectSerializer.cs:113-142 | a buffer of at most one byte gives the default instance, and any result is an object of the class with one value per declared field |
| Engine.FieldIndex | ObjectSerializer/ObjectSerializer.cs:126 | the lookup finds a field whose name has exactly these bytes, and reports none only when no declared field has them |
| Engine.ReadFrame | ObjectSerializer/ObjectSerializer.cs:121-135 | a frame consumes at least its 8 length bytes, and a data frame at least one data byte, which makes the loop advance |
| Engine.ReadFrames | ObjectSerializer/ObjectSerializer.cs:118-139 | the frame loop keeps the entity's field count |
| RoundTrip.FieldIndexOfDeclared | ObjectSerializer/ObjectSerializer.cs:126 | with distinct ASCII names, the frame name written for field `k` resolves to field `k` |
| RoundTrip.UnitRoundTrip | ObjectSerializer/ObjectSerializer.cs:52-71 | a nested unit of a conforming value decodes to the value's normalized form |
| RoundTrip.RegisteredRoundTrip | ObjectSerializer/ObjectSerializer.cs:57-59 | a non-null value of a registered type comes back unchanged whenever its codec restores that one value |
| RoundTrip.ArrayRoundTrip | ObjectSerializer/ObjectSerializer.cs:86-111 | an array unit decodes to the array of its normalized elements |
| RoundTrip.ObjectRoundTrip | ObjectSerializer/ObjectSerializer.cs:113-142 | an object unit decodes to an object of the same class with every field normalized and no private state |
| RoundTrip.ObjectDecodeOf | ObjectSerializer/ObjectSerializer.cs:70 | a nested object unit decodes to exactly what its frame loop produced over the bytes after the marker |
| RoundTrip.ReadSizedOf | ObjectSerializer/ObjectSerializer.cs:99-102 | a run written behind its int32 length reads back as that run, with the cursor right after it |
| RoundTrip.ElementsRoundTrip | ObjectSerializer/ObjectSerializer.cs:97-108 | the element loop consumes exactly what the encoder wrote, 4 plus the unit length per element, and reproduces the normalized elements in order |
| RoundTrip.ElementStep | ObjectSerializer/ObjectSerializer.cs:99-107 | one loop step over a length-prefixed unit adds that unit's value in front of the rest |
| RoundTrip.ReadDataFrame | ObjectSerializer/ObjectSerializer.cs:121-135 | a frame with positive data length reads back as its name's field lookup, its data and the bytes after it |
| RoundTrip.SerializeFieldLayout | ObjectSerializer/ObjectSerializer.cs:179-184 | for an ASCII name, the frame written is exactly name-byte count, name, unit length and unit |
| RoundTrip.ReadFrameOf | ObjectSerializer/ObjectSerializer.cs:121-135 | the frame written for declared field `k` reads back as a data frame for field `k` carrying its whole unit |
| RoundTrip.FrameStep | ObjectSerializer/ObjectSerializer.cs:119-139 | one loop step over such a frame sets field `k` to the decoded unit and continues after the frame |
| RoundTrip.SerializeFieldsFrom | ObjectSerializer/ObjectSerializer.cs:170-173 | the fields from `k` on are encoded as field `k`'s frame followed by the frames of the rest |
| RoundTrip.FrameStepAt | ObjectSerializer/ObjectSerializer.cs:119-139 | the loop over the frames from `k` on is the loop from `k + 1` on with field `k` decoded |
| RoundTrip.FramesRoundTrip | ObjectSerializer/ObjectSerializer.cs:118-139 | the loop over the frames from field `k` on replaces exactly fields `k` onwards by their normalized values |
| RoundTrip.SerializeDeserialize | ObjectSerializer/ObjectSerializer.cs:35-42 | `Deserialize<T>(Serialize(v))` succeeds and returns `v` normalized, for every conforming `v` and every sound registry |
| RoundTrip.NormalizeComplete | ObjectSerializer/ObjectSerializer.cs:35-42 | normalization changes nothing in a value without nulls or private state |
| RoundTrip.ExactRoundTrip | ObjectSerializer/ObjectSerializer.cs:35-42 | a conforming value without nulls or private state round-trips to itself |
| Behaviours.PrimitiveRoundTrip | ObjectSerializer/ObjectSerializer.cs:61-62 | a primitive unit is its native image behind the marker, and decodes back to that image |
| Behaviours.StringRoundTrip | ObjectSerializer/ObjectSerializer.cs:64-65 | a string unit is its UTF-8 bytes behind the marker, and decodes back to those bytes |
| Behaviours.ZeroCountArray | ObjectSerializer/ObjectSerializer.cs:92-97 | a count of zero gives an empty array, whatever bytes follow |
| Behaviours.NullFieldDecodes | ObjectSerializer/ObjectSerializer.cs:88-89 | the unit of null decodes to "", an empty array or a default instance, never to null |
| Behaviours.SerializedFrameIsNeverSkipped | ObjectSerializer/ObjectSerializer.cs:131-132 | a frame the encoder wrote always reads as a data frame carrying its whole unit, so the skip branch is never taken |
| Behaviours.TopLevelIgnoresMarker | ObjectSerializer/ObjectSerializer.cs:38-41 | a top-level composite decode gives the same result whatever the first byte is |
| Behaviours.NestedChecksMarker | ObjectSerializer/ObjectSerializer.cs:54-55 | a nested composite unit with a wrong marker fails, though the same bytes at the top level decode |
| Behaviours.UnknownFieldFails | ObjectSerializer/ObjectSerializer.cs:137 | a frame with positive data length naming no declared field makes the whole decode fail |
| Behaviours.UnknownFrameStops | ObjectSerializer/ObjectSerializer.cs:126-137 | the frame loop stops with an error at such a frame |
| Behaviours.CompositeDecodeFails | ObjectSerializer/ObjectSerializer.cs:41 | a top-level composite decode fails with the error its frame loop fails with |
| Behaviours.NonPositiveDataLengthSkipped | ObjectSerializer/ObjectSerializer.cs:131-132 | a frame with data length at most 0 is passed over, whatever its name |
| Behaviours.DataPastEndFails | ObjectSerializer/ObjectSerializer.cs:134 | a data length past the end of the buffer fails |
| Behaviours.ElementPastEndFails | ObjectSerializer/ObjectSerializer.cs:102 | an element length past the end of the array payload fails |
| Behaviours.TruncatedStringDecodes | ObjectSerializer/ObjectSerializer.cs:64-65 | a string unit missing its last byte decodes to the string without its last byte |
| Behaviours.TruncatedToMarkerDecodes | ObjectSerializer/ObjectSerializer.cs:88-89 | any array or object unit cut down to its marker decodes to an empty array or a default instance |
| Behaviours.RegisteredEncodeTakesPrecedence | ObjectSerializer/ObjectSerializer.cs:20-22 | a registered type is encoded by its codec ahead of every built-in branch |
| Behaviours.RegisteredDecodeTakesPrecedence | ObjectSerializer/ObjectSerializer.cs:57-59 | a registered type is simple, and its codec decodes the bytes after the marker, composite types included |
| Behaviours.AddCustomOverrides | ObjectSerializer/ObjectSerializer.cs:47 | after `AddCustom` both directions go through the new codec |
| PacketExample.PacketRegistry | ObjectSerializer/Program.cs:24 | the demonstration serializer's registry holds only the `DateTime` codec |
| PacketExample.PacketFieldsWellFormed | ObjectSerializer/Packet.cs:7-14 | `Packet`'s field names are ASCII and pairwise distinct |
| PacketExample.PacketNamesAscii | ObjectSerializer/Packet.cs:7-14 | every `Packet` field name is ASCII |
| PacketExample.PacketNamesDistinct | ObjectSerializer/Packet.cs:7-14 | no two `Packet` field names are equal |
| PacketExample.DefaultPacketScalars | ObjectSerializer/Packet.cs:7-9 | a fresh `Packet` has zero `Integer` and `Double` and a null `String` |
| PacketExample.DefaultPacketComposites | ObjectSerializer/Packet.cs:10-14 | a fresh `Packet` has null `NestingPacket`, `Numbers` and `Packets`, and a non-null `DateTime` |
| PacketExample.StateDateTimeSound | ObjectSerializer/Program.cs:24 | a `DateTime` codec that keeps the whole private state meets the soundness hypothesis of the round-trip lemmas |
| PacketExample.PacketRoundTrip | ObjectSerializer/Program.cs:40-42 | under a `DateTime` codec that restores every `DateTime`, a conforming packet comes back normalized, and its `Birthday`, which normalization leaves to the codec, is returned as it was |
| PacketExample.NullNestingPacketBecomesDefault | ObjectSerializer/Program.cs:34 | a packet whose `NestingPacket` is null, like the demonstration's inner packet, comes back with a default packet there |
| PacketExample.SmallArrayBytes | ObjectSerializer/Program.cs:20 | the bytes of `new[] { 1, 2, 3, 4, 6 }`: marker, count 5, then per element length 5, marker and the number |
| PacketExample.IntElementBytes | ObjectSerializer/Program.cs:20 | an `int` element is written as length 5, the marker and its four bytes |

## Left out

- Primitive values are opaque native byte images of `Marshal.SizeOf` bytes. The model does no IEEE reasoning and no `bool` normalization.
- Sizes are those of a 64-bit host: `IntPtr` and `UIntPtr` take 8 bytes, `bool` takes 4 (the marshalled BOOL) and `char` takes 1.
- The byte order is fixed to little-endian, the order of the hosts the code runs on.
- Reflection is replaced by an explicit field table per class. `GetFields()` also returns public static fields, and those are not modelled.
- Inherited fields, user-defined structs with public fields, and field values of a subtype of the declared type are excluded by `Conforms` rather than modelled.
- The `DateTime` codec in ObjectSerializer/DateTimeSerializer.cs is not part of this model. It wraps `DateTime.ToString` and `DateTime.Parse`, which cannot be seen. Codecs are abstract, and their round trip is the `Sound` hypothesis.
- PacketExample.PacketRoundTrip: the repository's `DateTime` codec writes `DateTime.ToString(CultureInfo.InvariantCulture)` (ObjectSerializer/DateTimeSerializer.cs:14), which keeps whole seconds only. That codec is therefore not `Sound`: a `DateTime.Now` with a fractional second does not come back exactly, and the lemma promises nothing about it.
- PacketExample.PacketSchema: `DateTime` is declared as a value type without fields. Its public static fields `MinValue`, `MaxValue` and `UnixEpoch` are not modelled, though `GetFields()` (ObjectSerializer/ObjectSerializer.cs:172) returns them. Without a registered codec, the C# `Serialize` of a `DateTime` recurses through those fields without end; the model writes it as the marker alone.
- RoundTrip.SerializeDeserialize: a null value of a registered type is excluded by `Conforms`, and `Sound` says nothing about it. The C# code writes such a null as the marker alone and hands the codec an empty payload on decode, which the model reproduces without promising the result.
- Model.DefaultInstance: classes are assumed to have a public parameterless constructor that sets nothing. `Activator.CreateInstance` also runs constructors and field initializers, and throws for abstract and interface types and for classes without such a constructor; none of this is modelled. A type missing from the field table decodes to an object with no fields.
- Engine.DeserializeNumericalType: a primitive payload shorter than the type's native size is reported as `PrimitiveTooShort`. The C# code reads past the end of the copied block there, with no defined result.
- Strings are their UTF-8 byte images. The replacement of invalid UTF-8 by U+FFFD on decode is not modelled.
- Field-name lookup compares UTF-8 bytes, which is the same as comparing decoded names for the valid identifiers a class can declare.
- RoundTrip.SerializeDeserialize: covers only fields with ASCII names. For a non-ASCII name, `GetMetaPrefix` writes the UTF-16 length, not the byte count (see `Wire.NonAsciiNameLengthMismatch`), so such frames do not parse back.
- RoundTrip.SerializeDeserialize: requires every count and unit length to fit in an int32, since .NET arrays do.
- Cyclic object graphs, on which `Serialize` does not terminate, and multidimensional arrays are outside the model. Values are finite trees with single-dimensional arrays.
- Exceptions are reduced to the `Error` kinds the model distinguishes. Messages and exception types are not modelled.
- The TCP client and server with GZip compression, the object printer, the console demonstration in ObjectSerializer/Program.cs and the `ISerializer` interface are not part of this model. Only the demonstration's example values are used.
