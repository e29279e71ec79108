/** The values the serializer walks, the shapes the deserializer is asked
    for, the per-type field tables that stand in for reflection, and the
    registry of override codecs. */
module Model {
  import opened Results
  import opened Wire

  /** The CLR primitive types (`Type.IsPrimitive`). */
  datatype PrimKind =
    | Boolean | Char | SByte | Byte | Int16 | UInt16 | Int32 | UInt32
    | Int64 | UInt64 | IntPtr | UIntPtr | Single | Double

  /** `Marshal.SizeOf` of each primitive on a 64-bit host: the marshaller
      lays out a bool as a 4-byte BOOL and a char as a 1-byte ANSI char. */
  function NativeSize(k: PrimKind): (n: nat)
    ensures n in {1, 2, 4, 8}
  {
    match k
    case Boolean => 4
    case Char => 1
    case SByte => 1
    case Byte => 1
    case Int16 => 2
    case UInt16 => 2
    case Int32 => 4
    case UInt32 => 4
    case Int64 => 8
    case UInt64 => 8
    case IntPtr => 8
    case UIntPtr => 8
    case Single => 4
    case Double => 8
  }

  /** A statically declared type: the `T` of `Deserialize<T>` and the
      declared type of every field and array element. */
  datatype Shape =
    | PrimS(kind: PrimKind)
    | StrS
    | ArrS(elem: Shape)
    | ClassS(name: string)

  /** A runtime value. A primitive is its native byte image (its numeric
      meaning is not modelled); a string is its UTF-8 image; an array
      carries its element type; an object carries its public instance
      fields in declaration order and, apart from them, whatever private
      state it has, which the field walk cannot see. */
  datatype Value =
    | Null
    | Prim(kind: PrimKind, image: seq<byte>)
    | Str(utf8: seq<byte>)
    | Arr(elem: Shape, elems: seq<Value>)
    | Obj(cls: string, fields: seq<Field>, hidden: seq<byte>)

  datatype Field = Field(name: string, value: Value)

  /** What reflection reports about a named type: a class with its public
      fields in declaration order, or a value type declared without fields,
      whose state the encoder does not see. Only types that have a public
      parameterless constructor setting nothing are described this way. */
  datatype FieldDecl = FieldDecl(name: string, shape: Shape)

  datatype TypeDecl = ClassDecl(decls: seq<FieldDecl>) | StructDecl

  type Schema = map<string, TypeDecl>

  /** A type the table does not list is a class with no public fields. */
  function Lookup(schema: Schema, c: string): (d: TypeDecl)
    ensures c !in schema ==> d == ClassDecl([])
  {
    if c in schema then schema[c] else ClassDecl([])
  }

  /** `GetFields()` / `GetField(name)`: the public instance fields of a
      type. A value type and an unlisted type have none. */
  function FieldDecls(schema: Schema, c: string): (decls: seq<FieldDecl>)
    ensures c !in schema ==> decls == []
    ensures decls != [] ==> Lookup(schema, c) == ClassDecl(decls)
  {
    match Lookup(schema, c)
    case ClassDecl(decls) => decls
    case StructDecl => []
  }

  /** `obj.GetType()`, the runtime type the serializer dispatches on. */
  function TypeOf(v: Value): (s: Shape)
    requires !v.Null?
    ensures v.Prim? <==> s.PrimS?
    ensures v.Str? <==> s.StrS?
    ensures v.Arr? <==> s.ArrS?
    ensures v.Obj? <==> s.ClassS?
  {
    match v
    case Prim(k, _) => PrimS(k)
    case Str(_) => StrS
    case Arr(e, _) => ArrS(e)
    case Obj(c, _, _) => ClassS(c)
  }

  /** The value a freshly allocated field of the given type holds: zero
      bytes for a primitive, a default struct for a value type, and a null
      reference for a string, an array or a class. */
  function DefaultValue(schema: Schema, s: Shape): (v: Value)
    ensures v.Null? <==> s.StrS? || s.ArrS? || (s.ClassS? && Lookup(schema, s.name).ClassDecl?)
  {
    match s
    case PrimS(k) => Prim(k, Zeros(NativeSize(k)))
    case StrS => Null
    case ArrS(_) => Null
    case ClassS(c) => if Lookup(schema, c).StructDecl? then Obj(c, [], []) else Null
  }

  function Zeros(n: nat): (r: seq<byte>)
    ensures |r| == n
  {
    if n == 0 then [] else [0] + Zeros(n - 1)
  }

  function DefaultFields(schema: Schema, decls: seq<FieldDecl>): (fs: seq<Field>)
    ensures |fs| == |decls|
    ensures forall i :: 0 <= i < |decls| ==> fs[i] == Field(decls[i].name, DefaultValue(schema, decls[i].shape))
  {
    if decls == [] then []
    else [Field(decls[0].name, DefaultValue(schema, decls[0].shape))] + DefaultFields(schema, decls[1..])
  }

  /** `Activator.CreateInstance<T>()`: every public field at its default
      and no private state. */
  function DefaultInstance(schema: Schema, c: string): (v: Value)
    ensures v.Obj? && v.cls == c && v.hidden == []
    ensures |v.fields| == |FieldDecls(schema, c)|
    ensures forall k :: 0 <= k < |v.fields| ==>
      v.fields[k] == Field(FieldDecls(schema, c)[k].name, DefaultValue(schema, FieldDecls(schema, c)[k].shape))
  {
    Obj(c, DefaultFields(schema, FieldDecls(schema, c)), [])
  }

  /** An override codec (`ISerializer`): it produces and consumes a payload
      without the control byte. */
  datatype Codec = Codec(Encode: Value -> seq<byte>, Decode: seq<byte> -> Result<Value>)

  /** The override registry, keyed by exact type. */
  type Registry = map<Shape, Codec>

  /** `AddCustom<T>`: insert or overwrite the entry for exactly `t`. */
  function AddCustom(reg: Registry, t: Shape, codec: Codec): (r: Registry)
    ensures r.Keys == reg.Keys + {t}
    ensures r[t] == codec
    ensures forall u :: u in reg && u != t ==> r[u] == reg[u]
  {
    reg[t := codec]
  }

  /** `IsSimpleType`: decoded from the payload after the control byte
      rather than by scanning field frames. */
  predicate IsSimple(reg: Registry, s: Shape)
    ensures IsSimple(reg, s) <==> !s.ClassS? || s in reg
  {
    s.PrimS? || s.StrS? || s in reg || s.ArrS?
  }

  /** `v` is a value a variable declared with type `t` can hold: its
      runtime type is exactly `t`, a primitive has its native size, a value
      type is never null and has no public fields, and an object carries
      the declared fields in order. */
  predicate Inhabits(schema: Schema, t: Shape, v: Value)
    decreases v
  {
    match t
    case PrimS(k) => v.Prim? && v.kind == k && |v.image| == NativeSize(k)
    case StrS => v.Null? || v.Str?
    case ArrS(e) =>
      v.Null? ||
      (v.Arr? && v.elem == e && forall i :: 0 <= i < |v.elems| ==> Inhabits(schema, e, v.elems[i]))
    case ClassS(c) =>
      match Lookup(schema, c)
      case StructDecl => v.Obj? && v.cls == c && v.fields == []
      case ClassDecl(decls) =>
        v.Null? ||
        (&& v.Obj? && v.cls == c && |v.fields| == |decls|
         && forall i :: 0 <= i < |decls| ==>
              v.fields[i].name == decls[i].name && Inhabits(schema, decls[i].shape, v.fields[i].value))
  }

  /** Every registered codec gives back, from its own payload, each non-null
      value its type can hold. The model assumes this of the codecs it is
      given. */
  ghost predicate Sound(reg: Registry, schema: Schema) {
    forall v: Value {:trigger CodecRestores(reg, schema, v)} :: CodecRestores(reg, schema, v)
  }

  /** The codec registered for `v`'s type, if any, restores `v` when `v` is
      a value of that type. */
  ghost predicate CodecRestores(reg: Registry, schema: Schema, v: Value) {
    !v.Null? && TypeOf(v) in reg && Inhabits(schema, TypeOf(v), v) ==>
      reg[TypeOf(v)].Decode(reg[TypeOf(v)].Encode(v)) == Ok(v)
  }
}
