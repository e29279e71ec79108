/** The round-trip theorem: decoding a unit against the shape its value
    was declared with gives back the value, up to what the format cannot
    carry. Null strings, arrays and objects come back as "", an empty array
    and a default instance, and private state is lost. */
module RoundTrip {
  import opened Results
  import opened Wire
  import opened Model
  import opened Engine

  /** Field tables the decoder can resolve: ASCII names (so the length
      prefix is the byte count) that fit an int32 and are pairwise distinct. */
  predicate WellFormedDecls(decls: seq<FieldDecl>) {
    && (forall i :: 0 <= i < |decls| ==> IsAscii(decls[i].name) && |decls[i].name| <= MaxInt32)
    && (forall i, j :: 0 <= i < j < |decls| ==> decls[i].name != decls[j].name)
  }

  /** `v` may be stored where `t` is declared: its runtime type is exactly
      `t` (no subtype, a struct is never null, a registered type is never
      null), object fields follow the declared table, and every count and
      length the encoder writes fits an int32. */
  predicate Conforms(reg: Registry, schema: Schema, t: Shape, v: Value)
    decreases v
  {
    if t in reg then !v.Null? && TypeOf(v) == t && Inhabits(schema, t, v)
    else match t
      case PrimS(k) => v.Prim? && v.kind == k && |v.image| == NativeSize(k)
      case StrS => v.Null? || v.Str?
      case ArrS(e) =>
        v.Null? ||
        (&& v.Arr? && v.elem == e && |v.elems| <= MaxInt32
         && forall i :: 0 <= i < |v.elems| ==>
              Conforms(reg, schema, e, v.elems[i]) && |Serialize(reg, v.elems[i])| <= MaxInt32)
      case ClassS(c) =>
        match Lookup(schema, c)
        case StructDecl => v.Obj? && v.cls == c && v.fields == []
        case ClassDecl(decls) =>
          v.Null? ||
          (&& v.Obj? && v.cls == c && WellFormedDecls(decls) && |v.fields| == |decls|
           && forall i :: 0 <= i < |decls| ==>
                && v.fields[i].name == decls[i].name
                && Conforms(reg, schema, decls[i].shape, v.fields[i].value)
                && |Serialize(reg, v.fields[i].value)| <= MaxInt32)
  }

  /** What the decoder makes of a conforming value: registered types are
      the codec's business, a null string is "", a null array is empty, a
      null object is a default instance, and private state is dropped. */
  function Normalize(reg: Registry, schema: Schema, t: Shape, v: Value): (r: Value)
    ensures t !in reg && !t.PrimS? ==> !r.Null?
    decreases v
  {
    if t in reg then v
    else match t
      case PrimS(_) => v
      case StrS => if v.Null? then Str([]) else v
      case ArrS(e) =>
        if v.Null? then Arr(e, [])
        else if v.Arr? then Arr(v.elem, NormalizeElements(reg, schema, e, v.elems))
        else v
      case ClassS(c) =>
        if v.Obj? then Obj(v.cls, NormalizeFields(reg, schema, FieldDecls(schema, c), v.fields), [])
        else DefaultInstance(schema, c)
  }

  function NormalizeElements(reg: Registry, schema: Schema, e: Shape, es: seq<Value>): (r: seq<Value>)
    ensures |r| == |es|
    decreases es
  {
    if es == [] then [] else [Normalize(reg, schema, e, es[0])] + NormalizeElements(reg, schema, e, es[1..])
  }

  function NormalizeFields(reg: Registry, schema: Schema, decls: seq<FieldDecl>, fs: seq<Field>): (r: seq<Field>)
    ensures |r| == |fs|
    ensures forall i :: 0 <= i < |fs| ==> r[i].name == fs[i].name
    decreases fs
  {
    if fs == [] then []
    else
      var v := if decls == [] then fs[0].value else Normalize(reg, schema, decls[0].shape, fs[0].value);
      [Field(fs[0].name, v)] + NormalizeFields(reg, schema, if decls == [] then [] else decls[1..], fs[1..])
  }

  /** The frame name of a declared field resolves to that field. */
  lemma FieldIndexOfDeclared(decls: seq<FieldDecl>, k: nat)
    requires WellFormedDecls(decls) && k < |decls|
    ensures FieldIndex(decls, Utf8(decls[k].name)) == Some(k)
  {
    var r := FieldIndex(decls, Utf8(decls[k].name));
    assert r.Some?;
    var j := r.value;
    AsciiUtf8Injective(decls[j].name, decls[k].name);
  }

  /** Round trip of one unit through `DeserializeSimpleValue`, the path
      every nested unit takes. */
  lemma {:induction false} UnitRoundTrip(reg: Registry, schema: Schema, t: Shape, v: Value)
    requires Sound(reg, schema) && Conforms(reg, schema, t, v)
    ensures DeserializeSimpleValue(reg, schema, t, Serialize(reg, v)) == Ok(Normalize(reg, schema, t, v))
    decreases v, 1
  {
    if t in reg {
      assert CodecRestores(reg, schema, v);
      RegisteredRoundTrip(reg, schema, v);
    } else {
      match t
      case PrimS(k) =>
        var raw := Serialize(reg, v);
        assert raw[1..] == v.image;
        assert v.image[..NativeSize(k)] == v.image;
      case StrS =>
        if v.Str? {
          assert Serialize(reg, v)[1..] == v.utf8;
        }
      case ArrS(e) =>
        if v.Arr? {
          ArrayRoundTrip(reg, schema, e, v);
        }
      case ClassS(c) =>
        if v.Obj? {
          ObjectRoundTrip(reg, schema, c, v);
        }
    }
  }

  /** A registered type goes through its codec both ways, and the codec
      sees the payload without the control byte. */
  lemma RegisteredRoundTrip(reg: Registry, schema: Schema, v: Value)
    requires !v.Null? && TypeOf(v) in reg && Inhabits(schema, TypeOf(v), v)
    requires CodecRestores(reg, schema, v)
    ensures DeserializeSimpleValue(reg, schema, TypeOf(v), Serialize(reg, v)) == Ok(v)
  {
    assert Serialize(reg, v)[1..] == reg[TypeOf(v)].Encode(v);
  }

  lemma {:induction false} ArrayRoundTrip(reg: Registry, schema: Schema, e: Shape, v: Value)
    requires Sound(reg, schema) && ArrS(e) !in reg && v.Arr? && Conforms(reg, schema, ArrS(e), v)
    ensures DeserializeSimpleValue(reg, schema, ArrS(e), Serialize(reg, v)) == Ok(Normalize(reg, schema, ArrS(e), v))
    decreases v, 0
  {
    var payload := SerializeArray(reg, v.elems);
    assert Serialize(reg, v)[1..] == payload;
    assert payload[4..] == SerializeElements(reg, v.elems);
    ArrayCountPrefix(reg, v.elems);
    ElementsRoundTrip(reg, schema, e, v.elems);
  }

  lemma {:induction false} ObjectRoundTrip(reg: Registry, schema: Schema, c: string, v: Value)
    requires Sound(reg, schema) && ClassS(c) !in reg && v.Obj? && Conforms(reg, schema, ClassS(c), v)
    ensures DeserializeSimpleValue(reg, schema, ClassS(c), Serialize(reg, v)) == Ok(Normalize(reg, schema, ClassS(c), v))
    decreases v, 0
  {
    var decls := FieldDecls(schema, c);
    var rest := SerializeFields(reg, v.fields);
    assert Serialize(reg, v) == [ControlByte] + rest;
    if v.fields == [] {
      assert Serialize(reg, v) == [ControlByte];
    } else {
      var init := DefaultInstance(schema, c);
      var normalized := NormalizeFields(reg, schema, decls, v.fields);
      assert v.fields[0..] == v.fields;
      FramesRoundTrip(reg, schema, decls, v.fields, 0, init.fields);
      assert init.fields[..0] + normalized[0..] == normalized;
      ObjectDecodeOf(reg, schema, c, rest, normalized);
    }
  }

  /** A composite unit decodes to whatever its frame loop produced. */
  lemma ObjectDecodeOf(reg: Registry, schema: Schema, c: string, rest: seq<byte>, fs: seq<Field>)
    requires ClassS(c) !in reg && |rest| > 0
    requires ReadFrames(reg, schema, FieldDecls(schema, c), rest, DefaultInstance(schema, c).fields) == Ok(fs)
    ensures DeserializeSimpleValue(reg, schema, ClassS(c), [ControlByte] + rest) == Ok(Obj(c, fs, []))
  {
    assert ([ControlByte] + rest)[1..] == rest;
  }

  /** A run written with its int32 length in front reads back as itself. */
  lemma ReadSizedOf(bytes: seq<byte>, tail: seq<byte>)
    requires |bytes| <= MaxInt32
    ensures ReadSized(Int32Bytes(|bytes|) + (bytes + tail)) == Ok(Chunk(bytes, tail))
  {
    var rest := Int32Bytes(|bytes|) + (bytes + tail);
    ReadInt32Prefix(|bytes|, bytes + tail);
    assert rest[4..4 + |bytes|] == bytes;
    assert rest[4 + |bytes|..] == tail;
  }

  /** The element loop consumes exactly the bytes the element encoder
      wrote, four plus the unit's length per element, in order. */
  lemma {:induction false} ElementsRoundTrip(reg: Registry, schema: Schema, e: Shape, es: seq<Value>)
    requires Sound(reg, schema)
    requires forall i :: 0 <= i < |es| ==> Conforms(reg, schema, e, es[i]) && |Serialize(reg, es[i])| <= MaxInt32
    ensures DeserializeElements(reg, schema, e, SerializeElements(reg, es), |es|)
         == Ok(NormalizeElements(reg, schema, e, es))
    decreases es
  {
    if es != [] {
      var unit := Serialize(reg, es[0]);
      var tail := SerializeElements(reg, es[1..]);
      UnitRoundTrip(reg, schema, e, es[0]);
      ElementsRoundTrip(reg, schema, e, es[1..]);
      ElementStep(reg, schema, e, unit, tail, |es| - 1, Normalize(reg, schema, e, es[0]), NormalizeElements(reg, schema, e, es[1..]));
    }
  }

  /** One step of the element loop over a unit written behind its length. */
  lemma ElementStep(reg: Registry, schema: Schema, e: Shape, unit: seq<byte>, tail: seq<byte>, count: nat, x: Value, xs: seq<Value>)
    requires |unit| <= MaxInt32
    requires DeserializeSimpleValue(reg, schema, e, unit) == Ok(x)
    requires DeserializeElements(reg, schema, e, tail, count) == Ok(xs)
    ensures DeserializeElements(reg, schema, e, Int32Bytes(|unit|) + (unit + tail), count + 1) == Ok([x] + xs)
  {
    ReadSizedOf(unit, tail);
  }

  /** A frame laid out as name length, name, data length, data, with a
      positive data length, reads back as a data frame for whatever field
      the name resolves to. */
  lemma ReadDataFrame(decls: seq<FieldDecl>, nameBytes: seq<byte>, unit: seq<byte>, tail: seq<byte>)
    requires |nameBytes| <= MaxInt32 && 1 <= |unit| <= MaxInt32
    ensures ReadFrame(decls, Int32Bytes(|nameBytes|) + (nameBytes + (Int32Bytes(|unit|) + (unit + tail))))
         == Ok(Data(FieldIndex(decls, nameBytes), unit, tail))
  {
    var afterName := Int32Bytes(|unit|) + (unit + tail);
    var rest := Int32Bytes(|nameBytes|) + (nameBytes + afterName);
    ReadSizedOf(nameBytes, afterName);
    assert ReadSized(rest) == Ok(Chunk(nameBytes, afterName));
    ReadInt32Prefix(|unit|, unit + tail);
    assert ReadInt32(afterName) == |unit|;
    assert afterName[4..4 + |unit|] == unit;
    assert afterName[4 + |unit|..] == tail;
  }

  /** `SerializeField` lays a field with an ASCII name out as exactly such a
      frame: the name's length prefix is its byte count. */
  lemma SerializeFieldLayout(reg: Registry, f: Field, tail: seq<byte>)
    requires IsAscii(f.name)
    ensures SerializeField(reg, f) + tail
         == Int32Bytes(|Utf8(f.name)|) + (Utf8(f.name) + (Int32Bytes(|Serialize(reg, f.value)|) + (Serialize(reg, f.value) + tail)))
  {
    AsciiLengths(f.name);
  }

  /** The frame `SerializeField` writes for a declared field reads back as
      a data frame for that field, so the skip branch is not taken. */
  lemma ReadFrameOf(reg: Registry, decls: seq<FieldDecl>, k: nat, f: Field, tail: seq<byte>)
    requires WellFormedDecls(decls) && k < |decls| && f.name == decls[k].name
    requires |Serialize(reg, f.value)| <= MaxInt32
    ensures ReadFrame(decls, SerializeField(reg, f) + tail) == Ok(Data(Some(k), Serialize(reg, f.value), tail))
  {
    AsciiLengths(f.name);
    SerializeFieldLayout(reg, f, tail);
    ReadDataFrame(decls, Utf8(f.name), Serialize(reg, f.value), tail);
    FieldIndexOfDeclared(decls, k);
  }

  /** One step of the frame loop over a frame `SerializeField` wrote. */
  lemma FrameStep(reg: Registry, schema: Schema, decls: seq<FieldDecl>, k: nat, f: Field,
                  tail: seq<byte>, acc: seq<Field>, n: Value)
    requires WellFormedDecls(decls) && k < |decls| == |acc| && f.name == decls[k].name
    requires |Serialize(reg, f.value)| <= MaxInt32
    requires DeserializeSimpleValue(reg, schema, decls[k].shape, Serialize(reg, f.value)) == Ok(n)
    ensures ReadFrames(reg, schema, decls, SerializeField(reg, f) + tail, acc)
         == ReadFrames(reg, schema, decls, tail, acc[k := acc[k].(value := n)])
  {
    ReadFrameOf(reg, decls, k, f, tail);
  }

  lemma SerializeFieldsFrom(reg: Registry, fs: seq<Field>, k: nat)
    requires k <= |fs|
    ensures k == |fs| ==> SerializeFields(reg, fs[k..]) == []
    ensures k < |fs| ==> SerializeFields(reg, fs[k..]) == SerializeField(reg, fs[k]) + SerializeFields(reg, fs[k + 1..])
  {
    if k < |fs| {
      assert fs[k..][0] == fs[k] && fs[k..][1..] == fs[k + 1..];
    }
  }

  /** One step of the frame loop, at frame `k` of the fields' encoding. */
  lemma FrameStepAt(reg: Registry, schema: Schema, decls: seq<FieldDecl>, fs: seq<Field>, k: nat, acc: seq<Field>, n: Value)
    requires WellFormedDecls(decls) && k < |fs| && k < |decls| == |acc| && fs[k].name == decls[k].name
    requires |Serialize(reg, fs[k].value)| <= MaxInt32
    requires DeserializeSimpleValue(reg, schema, decls[k].shape, Serialize(reg, fs[k].value)) == Ok(n)
    ensures ReadFrames(reg, schema, decls, SerializeFields(reg, fs[k..]), acc)
         == ReadFrames(reg, schema, decls, SerializeFields(reg, fs[k + 1..]), acc[k := acc[k].(value := n)])
  {
    SerializeFieldsFrom(reg, fs, k);
    FrameStep(reg, schema, decls, k, fs[k], SerializeFields(reg, fs[k + 1..]), acc, n);
  }

  /** Replacing field `k` of the accumulator by its normalized value moves
      the boundary between decoded and pending fields one place on. */
  lemma SpliceAt(reg: Registry, schema: Schema, decls: seq<FieldDecl>, fs: seq<Field>, k: nat, acc: seq<Field>)
    requires |fs| == |decls| == |acc| && k < |fs| && acc[k].name == fs[k].name
    ensures var n := Normalize(reg, schema, decls[k].shape, fs[k].value);
      acc[k := acc[k].(value := n)][..k + 1] + NormalizeFields(reg, schema, decls, fs)[k + 1..]
      == acc[..k] + NormalizeFields(reg, schema, decls, fs)[k..]
  {
    NormalizeFieldsAt(reg, schema, decls, fs, k);
    SpliceStep(acc, NormalizeFields(reg, schema, decls, fs), k, Normalize(reg, schema, decls[k].shape, fs[k].value));
  }

  lemma SpliceStep(acc: seq<Field>, normalized: seq<Field>, k: nat, n: Value)
    requires k < |acc| == |normalized| && normalized[k] == acc[k].(value := n)
    ensures acc[k := acc[k].(value := n)][..k + 1] + normalized[k + 1..] == acc[..k] + normalized[k..]
  {
  }

  /** The frame loop, started at frame `k` on an entity whose fields from
      `k` on still carry their declared names, replaces exactly fields `k`
      onwards by their decoded values. */
  lemma {:induction false} FramesRoundTrip(reg: Registry, schema: Schema, decls: seq<FieldDecl>, fs: seq<Field>, k: nat, acc: seq<Field>)
    requires Sound(reg, schema) && WellFormedDecls(decls)
    requires |fs| == |decls| == |acc| && k <= |fs|
    requires forall i :: 0 <= i < |decls| ==>
      && fs[i].name == decls[i].name
      && Conforms(reg, schema, decls[i].shape, fs[i].value)
      && |Serialize(reg, fs[i].value)| <= MaxInt32
    requires forall i :: k <= i < |acc| ==> acc[i].name == decls[i].name
    ensures ReadFrames(reg, schema, decls, SerializeFields(reg, fs[k..]), acc)
         == Ok(acc[..k] + NormalizeFields(reg, schema, decls, fs)[k..])
    decreases fs, |fs| - k
  {
    if k < |fs| {
      UnitRoundTrip(reg, schema, decls[k].shape, fs[k].value);
      var n := Normalize(reg, schema, decls[k].shape, fs[k].value);
      FrameStepAt(reg, schema, decls, fs, k, acc, n);
      FramesRoundTrip(reg, schema, decls, fs, k + 1, acc[k := acc[k].(value := n)]);
      SpliceAt(reg, schema, decls, fs, k, acc);
    } else {
      SerializeFieldsFrom(reg, fs, k);
      assert acc[..k] + NormalizeFields(reg, schema, decls, fs)[k..] == acc;
    }
  }

  lemma {:induction false} NormalizeFieldsAt(reg: Registry, schema: Schema, decls: seq<FieldDecl>, fs: seq<Field>, k: nat)
    requires |fs| == |decls| && k < |fs|
    ensures NormalizeFields(reg, schema, decls, fs)[k]
         == Field(fs[k].name, Normalize(reg, schema, decls[k].shape, fs[k].value))
    decreases k
  {
    if k > 0 {
      NormalizeFieldsAt(reg, schema, decls[1..], fs[1..], k - 1);
    }
  }

  /** The round-trip theorem for `Deserialize<T>(Serialize(v))`. */
  lemma SerializeDeserialize(reg: Registry, schema: Schema, t: Shape, v: Value)
    requires Sound(reg, schema) && Conforms(reg, schema, t, v)
    ensures Deserialize(reg, schema, t, Serialize(reg, v)) == Ok(Normalize(reg, schema, t, v))
  {
    UnitRoundTrip(reg, schema, t, v);
  }

  /** No null reference where the decoder would invent a default, and no
      private state, anywhere the field walk reaches. */
  predicate Complete(reg: Registry, schema: Schema, t: Shape, v: Value)
    decreases v
  {
    if t in reg then true
    else match t
      case PrimS(_) => true
      case StrS => v.Str?
      case ArrS(e) =>
        v.Arr? && forall i :: 0 <= i < |v.elems| ==> Complete(reg, schema, e, v.elems[i])
      case ClassS(c) =>
        && v.Obj? && v.hidden == []
        && forall i :: 0 <= i < |v.fields| && i < |FieldDecls(schema, c)| ==>
             Complete(reg, schema, FieldDecls(schema, c)[i].shape, v.fields[i].value)
  }

  /** Normalization changes nothing on a complete value. */
  lemma {:induction false} NormalizeComplete(reg: Registry, schema: Schema, t: Shape, v: Value)
    requires Conforms(reg, schema, t, v) && Complete(reg, schema, t, v)
    ensures Normalize(reg, schema, t, v) == v
    decreases v, 1
  {
    if t !in reg {
      match t
      case PrimS(_) =>
      case StrS =>
      case ArrS(e) =>
        NormalizeElementsComplete(reg, schema, e, v.elems);
      case ClassS(c) =>
        NormalizeFieldsComplete(reg, schema, FieldDecls(schema, c), v.fields);
    }
  }

  lemma {:induction false} NormalizeElementsComplete(reg: Registry, schema: Schema, e: Shape, es: seq<Value>)
    requires forall i :: 0 <= i < |es| ==> Conforms(reg, schema, e, es[i]) && Complete(reg, schema, e, es[i])
    ensures NormalizeElements(reg, schema, e, es) == es
    decreases es
  {
    if es != [] {
      NormalizeComplete(reg, schema, e, es[0]);
      NormalizeElementsComplete(reg, schema, e, es[1..]);
    }
  }

  lemma {:induction false} NormalizeFieldsComplete(reg: Registry, schema: Schema, decls: seq<FieldDecl>, fs: seq<Field>)
    requires |fs| == |decls|
    requires forall i :: 0 <= i < |fs| ==>
      Conforms(reg, schema, decls[i].shape, fs[i].value) && Complete(reg, schema, decls[i].shape, fs[i].value)
    ensures NormalizeFields(reg, schema, decls, fs) == fs
    decreases fs
  {
    if fs != [] {
      NormalizeComplete(reg, schema, decls[0].shape, fs[0].value);
      NormalizeFieldsComplete(reg, schema, decls[1..], fs[1..]);
    }
  }

  /** A complete conforming value survives the round trip unchanged. */
  lemma ExactRoundTrip(reg: Registry, schema: Schema, t: Shape, v: Value)
    requires Sound(reg, schema) && Conforms(reg, schema, t, v) && Complete(reg, schema, t, v)
    ensures Deserialize(reg, schema, t, Serialize(reg, v)) == Ok(v)
  {
    SerializeDeserialize(reg, schema, t, v);
    NormalizeComplete(reg, schema, t, v);
  }
}
