/**
 * serde's data model on the Rust side of the bridge: the values a
 * `Serialize` implementation hands to the serializer, and the shapes a
 * `Deserialize` implementation asks the deserializer for.
 */
module DataModel {
  import opened Host
  import opened Errors

  /**
   * A value in serde's data model. Unit structs serialize exactly like unit,
   * tuple structs exactly like tuples, so each pair shares one constructor.
   * Maps and structs list their entries in the order serde visits them.
   */
  datatype Value =
    | Bool(z: bool)
    | I8(i8: i8)
    | I16(i16: i16)
    | I32(i32: i32)
    | I64(i64: i64)
    | U8(u8: u8)
    | U16(u16: u16)
    | U32(u32: u32)
    | U64(u64: u64)
    | F32(f32: Float32)
    | F64(f64: Float64)
    | Char(c: char)
    | Str(s: string)
    | Bytes(bytes: seq<bv8>)
    | Unit
    | OptNone
    | OptSome(some: Value)
    | Newtype(inner: Value)
    | SeqOf(elems: seq<Value>)
    | Tuple(items: seq<Value>)
    | MapOf(entries: seq<(Value, Value)>)
    | Struct(fields: seq<(string, Value)>)
    | UnitVariant(variant: string)
    | NewtypeVariant(variant: string, payload: Value)
    | TupleVariant(variant: string, items: seq<Value>)
    | StructVariant(variant: string, fields: seq<(string, Value)>)

  /** The primitive types a `Deserialize` implementation can ask for. */
  datatype PrimKind = BoolK | I8K | I16K | I32K | I64K | U8K | U16K | U32K | U64K | F32K | F64K | CharK | StringK

  /**
   * What a `Deserialize` implementation asks for: which `deserialize_*`
   * method it calls, with the fields or variants its derive declares.
   * `AnyS` stands for every self-describing request (`deserialize_any`,
   * `deserialize_ignored_any`).
   */
  datatype Schema =
    | Scalar(kind: PrimKind)
    | OptionS(opt: Schema)
    | UnitS
    | NewtypeS(wrapped: Schema)
    | SeqS(elem: Schema)
    | TupleS(elems: seq<Schema>)
    | MapS(key: Schema, val: Schema)
    | StructS(fields: seq<(string, Schema)>)
    | EnumS(variants: seq<(string, VariantShape)>)
    | AnyS

  /** The payload a variant declares. */
  datatype VariantShape =
    | UnitShape
    | NewtypeShape(payload: Schema)
    | TupleShape(items: seq<Schema>)
    | StructShape(fields: seq<(string, Schema)>)

  /**
   * The position of the first declared field or variant called `name`:
   * how the derived visitors match an identifier against their names.
   */
  function NameIndex<T>(decls: seq<(string, T)>, name: string): (r: Option<nat>)
    ensures r.Some? ==> r.value < |decls| && decls[r.value].0 == name
                        && forall j :: 0 <= j < r.value ==> decls[j].0 != name
    ensures r.None? ==> forall j :: 0 <= j < |decls| ==> decls[j].0 != name
  {
    if decls == [] then None
    else if decls[0].0 == name then Some(0)
    else match NameIndex(decls[1..], name)
      case None => None
      case Some(i) => Some(i + 1)
  }

  /** A value of the primitive type `k`. */
  predicate IsPrim(v: Value, k: PrimKind) {
    match k
    case BoolK => v.Bool?
    case I8K => v.I8?
    case I16K => v.I16?
    case I32K => v.I32?
    case I64K => v.I64?
    case U8K => v.U8?
    case U16K => v.U16?
    case U32K => v.U32?
    case U64K => v.U64?
    case F32K => v.F32?
    case F64K => v.F64?
    case CharK => v.Char?
    case StringK => v.Str?
  }

  /**
   * `v` has the shape `s` asks for: what a successful deserialization
   * against `s` can produce. Struct fields appear in declaration order;
   * a variant is one the enum declares, with the payload its shape says.
   */
  predicate Conforms(v: Value, s: Schema)
    decreases s, 1
  {
    match s
    case Scalar(k) => IsPrim(v, k)
    case OptionS(t) => v.OptNone? || (v.OptSome? && Conforms(v.some, t))
    case UnitS => v.Unit?
    case NewtypeS(t) => v.Newtype? && Conforms(v.inner, t)
    case SeqS(t) => v.SeqOf? && forall i :: 0 <= i < |v.elems| ==> Conforms(v.elems[i], t)
    case TupleS(ts) => v.Tuple? && AllConform(v.items, ts)
    case MapS(kt, vt) =>
      v.MapOf? && forall i :: 0 <= i < |v.entries| ==> Conforms(v.entries[i].0, kt) && Conforms(v.entries[i].1, vt)
    case StructS(fs) => v.Struct? && FieldsConform(v.fields, fs)
    case EnumS(vs) => VariantConforms(v, vs)
    case AnyS => false
  }

  /** Items of a tuple, one per declared element type. */
  predicate AllConform(xs: seq<Value>, ts: seq<Schema>)
    decreases ts, 0
  {
    |xs| == |ts| && forall i :: 0 <= i < |ts| ==> Conforms(xs[i], ts[i])
  }

  /** Fields of a struct, one per declared field, same names, same order. */
  predicate FieldsConform(vf: seq<(string, Value)>, fs: seq<(string, Schema)>)
    decreases fs, 0
  {
    |vf| == |fs|
    && forall i :: 0 <= i < |fs| ==>
         (assert fs[i] in fs && fs[i].1 < fs[i]; vf[i].0 == fs[i].0 && Conforms(vf[i].1, fs[i].1))
  }

  /** A variant value whose name the enum declares, with a matching payload. */
  predicate VariantConforms(v: Value, vs: seq<(string, VariantShape)>)
    decreases vs, 0
  {
    (v.UnitVariant? || v.NewtypeVariant? || v.TupleVariant? || v.StructVariant?)
    && match NameIndex(vs, v.variant)
       case None => false
       case Some(i) =>
         assert vs[i] in vs && vs[i].1 < vs[i];
         match vs[i].1
         case UnitShape => v.UnitVariant?
         case NewtypeShape(t) => v.NewtypeVariant? && Conforms(v.payload, t)
         case TupleShape(ts) => v.TupleVariant? && AllConform(v.items, ts)
         case StructShape(fs) => v.StructVariant? && FieldsConform(v.fields, fs)
  }

  /** The mathematical value of an integer of the data model. */
  function IntValue(v: Value): int
    requires v.I8? || v.I16? || v.I32? || v.I64? || v.U8? || v.U16? || v.U32? || v.U64?
  {
    match v
    case I8(x) => x as int
    case I16(x) => x as int
    case I32(x) => x as int
    case I64(x) => x as int
    case U8(x) => x as int
    case U16(x) => x as int
    case U32(x) => x as int
    case U64(x) => x as int
  }
}
