/** The engine: `Serialize` dispatches on the value's runtime kind,
    `Deserialize` on the statically requested shape. Every unit is the
    control byte followed by a payload. The decode cursor is the unread
    suffix of the buffer. */
module Engine {
  import opened Results
  import opened Wire
  import opened Model

  const ControlByte: byte := 0

  /** `StartsWithControlByte`. */
  function StartsWithControlByte(payload: seq<byte>): (r: seq<byte>)
    ensures |r| == |payload| + 1 && r[0] == ControlByte && r[1..] == payload
  {
    [ControlByte] + payload
  }

  /** `Serialize`: null, then the override registry, then primitive,
      string, array, and the field walk as the fallback. */
  function Serialize(reg: Registry, v: Value): (r: seq<byte>)
    ensures |r| >= 1 && r[0] == ControlByte
    ensures v.Null? ==> r == [ControlByte]
    decreases v
  {
    if v.Null? then StartsWithControlByte([])
    else if TypeOf(v) in reg then StartsWithControlByte(reg[TypeOf(v)].Encode(v))
    else match v
      case Prim(_, image) => StartsWithControlByte(image)
      case Str(utf8) => StartsWithControlByte(utf8)
      case Arr(_, elems) => StartsWithControlByte(SerializeArray(reg, elems))
      case Obj(_, fields, _) => StartsWithControlByte(SerializeFields(reg, fields))
  }

  /** `SerializeArray`: the element count, then each element's unit
      behind its own length. */
  function SerializeArray(reg: Registry, elems: seq<Value>): (r: seq<byte>)
    ensures |r| >= 4 + 5 * |elems|
    decreases elems, 1
  {
    Int32Bytes(|elems|) + SerializeElements(reg, elems)
  }

  function SerializeElements(reg: Registry, elems: seq<Value>): (r: seq<byte>)
    ensures |r| >= 5 * |elems|
    ensures elems == [] <==> r == []
    decreases elems, 0
  {
    if elems == [] then []
    else
      var unit := Serialize(reg, elems[0]);
      Int32Bytes(|unit|) + (unit + SerializeElements(reg, elems[1..]))
  }

  /** `SerializeFields`: one frame per field, in declaration order. */
  function SerializeFields(reg: Registry, fields: seq<Field>): (r: seq<byte>)
    ensures |r| >= 9 * |fields|
    ensures fields == [] <==> r == []
    decreases fields
  {
    if fields == [] then []
    else SerializeField(reg, fields[0]) + SerializeFields(reg, fields[1..])
  }

  /** `SerializeField`: name prefix, then the length of the field's unit,
      then the unit. The unit is never empty, so the length is positive. */
  function SerializeField(reg: Registry, f: Field): (r: seq<byte>)
    ensures |r| == 8 + |Utf8(f.name)| + |Serialize(reg, f.value)|
    decreases f
  {
    var unit := Serialize(reg, f.value);
    GetMetaPrefix(f.name) + (Int32Bytes(|unit|) + unit)
  }

  /** The array payload opens with the element count. */
  lemma ArrayCountPrefix(reg: Registry, elems: seq<Value>)
    requires IsInt32(|elems|)
    ensures ReadInt32(SerializeArray(reg, elems)) == |elems|
  {
    ReadInt32Prefix(|elems|, SerializeElements(reg, elems));
  }

  /** A frame's data length is the size of a whole unit, so it is never
      zero or negative: a serialized field is never skipped on decode. */
  lemma FieldDataLengthPositive(reg: Registry, f: Field)
    requires |Serialize(reg, f.value)| <= MaxInt32
    ensures ReadInt32(SerializeField(reg, f)[4 + |Utf8(f.name)|..]) == |Serialize(reg, f.value)| >= 1
  {
    var unit := Serialize(reg, f.value);
    assert SerializeField(reg, f)[4 + |Utf8(f.name)|..] == Int32Bytes(|unit|) + unit;
    ReadInt32Prefix(|unit|, unit);
  }

  /** `GetMetaPrefix`: the name's `String.Length` followed by its UTF-8
      bytes. For an ASCII name the prefix is exactly the byte count. */
  function GetMetaPrefix(name: string): (r: seq<byte>)
    ensures |r| == 4 + |Utf8(name)| && r[4..] == Utf8(name)
    ensures IsAscii(name) && |name| <= MaxInt32 ==> ReadInt32(r) == |r| - 4
  {
    var r := Int32Bytes(Utf16Length(name)) + Utf8(name);
    if IsAscii(name) && |name| <= MaxInt32 then AsciiPrefixLength(name); r else r
  }

  lemma AsciiPrefixLength(name: string)
    requires IsAscii(name) && |name| <= MaxInt32
    ensures ReadInt32(Int32Bytes(Utf16Length(name)) + Utf8(name)) == |Utf8(name)|
  {
    AsciiLengths(name);
    ReadInt32Prefix(|name|, Utf8(name));
  }

  /** `Deserialize<T>`: simple types go through the marker check; a
      composite type is field-scanned straight away, without looking at
      byte 0. */
  function Deserialize(reg: Registry, schema: Schema, t: Shape, raw: seq<byte>): (r: Result<Value>)
    ensures !IsSimple(reg, t) && |raw| <= 1 ==> r == Ok(DefaultInstance(schema, t.name))
    ensures IsSimple(reg, t) && (|raw| == 0 || raw[0] != ControlByte) ==> r.Err?
  {
    if IsSimple(reg, t) then DeserializeSimpleValue(reg, schema, t, raw)
    else DeserializeReferenceType(reg, schema, t.name, raw)
  }

  /** `DeserializeSimpleValue`: the marker check, then the registry, then
      primitive, string and array; any other type is field-scanned on the
      whole buffer. */
  function DeserializeSimpleValue(reg: Registry, schema: Schema, t: Shape, raw: seq<byte>): (r: Result<Value>)
    ensures |raw| == 0 || raw[0] != ControlByte ==> r.Err?
    ensures t in reg && |raw| > 0 && raw[0] == ControlByte ==> r == reg[t].Decode(raw[1..])
    decreases |raw|, 2
  {
    if |raw| == 0 then Err(OutOfRange)
    else if raw[0] != ControlByte then Err(BadMarker)
    else if t in reg then reg[t].Decode(raw[1..])
    else match t
      case PrimS(k) => DeserializeNumericalType(k, raw[1..])
      case StrS => Ok(Str(raw[1..]))
      case ArrS(e) => DeserializeArray(reg, schema, e, raw[1..])
      case ClassS(c) => DeserializeReferenceType(reg, schema, c, raw)
  }

  /** The outermost constructor of a decoded value agrees with the shape
      it was decoded against. */
  predicate Fits(schema: Schema, t: Shape, v: Value) {
    match t
    case PrimS(k) => v.Prim? && v.kind == k && |v.image| == NativeSize(k)
    case StrS => v.Str?
    case ArrS(e) => v.Arr? && v.elem == e
    case ClassS(c) => v.Obj? && v.cls == c && v.hidden == [] && |v.fields| == |FieldDecls(schema, c)|
  }

  /** `DeserializeNumericalType`: the marshaller reads the type's native
      size from the start of the payload; a shorter payload is an error. */
  function DeserializeNumericalType(k: PrimKind, payload: seq<byte>): (r: Result<Value>)
    ensures r.Ok? <==> |payload| >= NativeSize(k)
    ensures r.Ok? ==> r.value.Prim? && r.value.kind == k && payload[..NativeSize(k)] == r.value.image
  {
    if |payload| < NativeSize(k) then Err(PrimitiveTooShort)
    else Ok(Prim(k, payload[..NativeSize(k)]))
  }

  /** `DeserializeArray`: an empty payload is an empty array; otherwise a
      count and that many length-prefixed element units. Bytes after the
      last element are ignored. */
  function DeserializeArray(reg: Registry, schema: Schema, e: Shape, payload: seq<byte>): (r: Result<Value>)
    ensures |payload| == 0 ==> r == Ok(Arr(e, []))
    ensures r.Ok? ==> r.value.Arr? && r.value.elem == e
    ensures r.Ok? && |payload| > 0 ==> |payload| >= 4 && |r.value.elems| == ReadInt32(payload)
    decreases |payload|, 1
  {
    if |payload| == 0 then Ok(Arr(e, []))
    else if |payload| < 4 then Err(OutOfRange)
    else
      var count := ReadInt32(payload);
      if count < 0 then Err(NegativeCount)
      else
        var elems :- DeserializeElements(reg, schema, e, payload[4..], count);
        Ok(Arr(e, elems))
  }

  /** A length-prefixed run of bytes: an int32 length `L` that must be
      neither negative nor past the end, then `L` bytes. Yields the run
      and the bytes after it. */
  function ReadSized(rest: seq<byte>): (r: Result<Chunk>)
    ensures r.Ok? <==> |rest| >= 4 && 0 <= ReadInt32(rest) <= |rest| - 4
    ensures r.Ok? ==> |r.value.bytes| == ReadInt32(rest) && rest == rest[..4] + r.value.bytes + r.value.next
  {
    if |rest| < 4 then Err(OutOfRange)
    else
      var len := ReadInt32(rest);
      if len < 0 || 4 + len > |rest| then Err(OutOfRange)
      else
        assert rest == rest[..4] + rest[4..4 + len] + rest[4 + len..];
        Ok(Chunk(rest[4..4 + len], rest[4 + len..]))
  }

  datatype Chunk = Chunk(bytes: seq<byte>, next: seq<byte>)

  /** The element loop of `DeserializeArray`: each step reads a length,
      decodes that many bytes as a unit and advances by four plus the
      length. */
  function DeserializeElements(reg: Registry, schema: Schema, e: Shape, rest: seq<byte>, count: nat): (r: Result<seq<Value>>)
    ensures r.Ok? ==> |r.value| == count && |rest| >= 5 * count
    decreases |rest|, 0
  {
    if count == 0 then Ok([])
    else
      var chunk :- ReadSized(rest);
      var x :- DeserializeSimpleValue(reg, schema, e, chunk.bytes);
      var xs :- DeserializeElements(reg, schema, e, chunk.next, count - 1);
      Ok([x] + xs)
  }

  /** `DeserializeReferenceType`: start from a default instance and apply
      frames from position 1 until the buffer is consumed. */
  function DeserializeReferenceType(reg: Registry, schema: Schema, c: string, raw: seq<byte>): (r: Result<Value>)
    ensures |raw| <= 1 ==> r == Ok(DefaultInstance(schema, c))
    ensures r.Ok? ==> Fits(schema, ClassS(c), r.value)
    decreases |raw|, 1
  {
    var init := DefaultInstance(schema, c);
    if |raw| <= 1 then Ok(init)
    else
      var fields :- ReadFrames(reg, schema, FieldDecls(schema, c), raw[1..], init.fields);
      Ok(Obj(c, fields, []))
  }

  /** `entityType.GetField(name)` on the UTF-8 name bytes of a frame: the
      position of the declared field with that name, if any. */
  function FieldIndex(decls: seq<FieldDecl>, nameBytes: seq<byte>): (r: Option<nat>)
    ensures r.Some? ==> r.value < |decls| && Utf8(decls[r.value].name) == nameBytes
    ensures r.None? ==> forall i :: 0 <= i < |decls| ==> Utf8(decls[i].name) != nameBytes
  {
    if decls == [] then None
    else if Utf8(decls[0].name) == nameBytes then Some(0)
    else match FieldIndex(decls[1..], nameBytes)
      case None => None
      case Some(i) => Some(i + 1)
  }

  /** One field frame as the loop sees it: skipped when its data length
      is not positive, otherwise the field its name resolves to (if any)
      and its data. */
  datatype Frame =
    | Skip(next: seq<byte>)
    | Data(field: Option<nat>, data: seq<byte>, next: seq<byte>)

  /** One iteration of the frame loop up to the field lookup: the name
      length and name, then the data length and data. */
  function ReadFrame(decls: seq<FieldDecl>, rest: seq<byte>): (r: Result<Frame>)
    ensures r.Ok? ==> |r.value.next| + 8 <= |rest|
    ensures r.Ok? && r.value.Data? ==> 1 <= |r.value.data| && |r.value.data| + |r.value.next| + 8 <= |rest|
    ensures r.Ok? && r.value.Data? && r.value.field.Some? ==> r.value.field.value < |decls|
  {
    var name :- ReadSized(rest);
    var field := FieldIndex(decls, name.bytes);
    var afterName := name.next;
    if |afterName| < 4 then Err(OutOfRange)
    else
      var dataLength := ReadInt32(afterName);
      if dataLength <= 0 then Ok(Skip(afterName[4..]))
      else if 4 + dataLength > |afterName| then Err(OutOfRange)
      else Ok(Data(field, afterName[4..4 + dataLength], afterName[4 + dataLength..]))
  }

  /** The frame loop of `DeserializeReferenceType`: runs until the cursor
      reaches the end; a frame naming no declared field fails, any other
      data frame replaces that field's value. */
  function ReadFrames(reg: Registry, schema: Schema, decls: seq<FieldDecl>, rest: seq<byte>, fields: seq<Field>): (r: Result<seq<Field>>)
    requires |fields| == |decls|
    ensures r.Ok? ==> |r.value| == |fields|
    decreases |rest|, 0
  {
    if |rest| == 0 then Ok(fields)
    else
      var frame :- ReadFrame(decls, rest);
      match frame
      case Skip(next) => ReadFrames(reg, schema, decls, next, fields)
      case Data(None, _, _) => Err(UnknownField)
      case Data(Some(i), data, next) =>
        var v :- DeserializeSimpleValue(reg, schema, decls[i].shape, data);
        ReadFrames(reg, schema, decls, next, fields[i := fields[i].(value := v)])
  }
}
