/**
 * The serializer of src/ser.rs as it runs: `to_object` dispatching on the
 * value, `variant_map`, and the three builders (`SerializeVec`,
 * `SerializeTupleVariant`, `SerializeStructVariant`) that stage encoded
 * objects in an `ArrayList` until `end` freezes it. Each is proved to build
 * exactly what `Ser.Encode` describes.
 */
module Serializer {
  import opened Host
  import opened Errors
  import opened Convert
  import opened Builder
  import opened DataModel
  import opened Ser
  import opened Steps

  /** `variant_map`: stages the variant's keyword, then the payload, and freezes the two into a map. */
  method VariantMap(variant: string, value: Obj) returns (r: Result<Obj>)
    ensures r == Ok(VariantMapOf(variant, value))
  {
    var res := new ArrayList();
    res.Add(GetKeyword(variant));
    res.Add(value);
    assert res.items == Flatten([(GetKeyword(variant), value)]);
    CreateOfFlatten([(GetKeyword(variant), value)]);
    r := res.ToHashMap();
  }

  /**
   * `SerializeVec`: the builder behind sequences, tuples, tuple structs,
   * maps and structs (`serialize_seq` and the four that delegate to it).
   */
  class SerializeVec {
    const vec: ArrayList

    /** `serialize_seq`: a builder over a fresh, empty list. */
    constructor ()
      ensures fresh(vec) && vec.items == [] && !vec.frozen
    {
      vec := new ArrayList();
    }

    /** `SerializeSeq::serialize_element`: `to_object` of the element, staged after the others. */
    method SerializeElement(v: Value) returns (r: Result<()>)
      requires !vec.frozen
      modifies vec
      ensures r == Ok(()) && vec.items == old(vec.items) + [Encode(v)] && !vec.frozen
      decreases v, 2
    {
      var o := Serialize(v);  // cannot fail: host calls are taken to succeed
      vec.Add(o.value);
      r := Ok(());
    }

    /** `SerializeMap::serialize_key`: staged like an element. */
    method SerializeKey(k: Value) returns (r: Result<()>)
      requires !vec.frozen
      modifies vec
      ensures r == Ok(()) && vec.items == old(vec.items) + [Encode(k)] && !vec.frozen
      decreases k, 3
    {
      r := SerializeElement(k);
    }

    /** `SerializeMap::serialize_value`: staged like an element. */
    method SerializeValue(v: Value) returns (r: Result<()>)
      requires !vec.frozen
      modifies vec
      ensures r == Ok(()) && vec.items == old(vec.items) + [Encode(v)] && !vec.frozen
      decreases v, 3
    {
      r := SerializeElement(v);
    }

    /** `SerializeStruct::serialize_field`: the field's keyword, then its value. */
    method SerializeField(key: string, v: Value) returns (r: Result<()>)
      requires !vec.frozen
      modifies vec
      ensures r == Ok(()) && vec.items == old(vec.items) + [Keyword(key), Encode(v)] && !vec.frozen
      decreases v, 4
    {
      vec.Add(GetKeyword(key));
      r := SerializeValue(v);
    }

    /** `SerializeSeq::end`: the staged objects as a vector. */
    method EndSeq() returns (o: Obj)
      requires !vec.frozen
      modifies vec
      ensures vec.frozen && vec.items == old(vec.items)
      ensures o == Vector(vec.items)
    {
      o := vec.ToVector();
    }

    /** `SerializeMap::end` (and `SerializeStruct::end`): the staged keys and values as a hash map. */
    method EndMap() returns (r: Result<Obj>)
      requires !vec.frozen
      modifies vec
      ensures vec.frozen && vec.items == old(vec.items)
      ensures r == CreateHashMap(vec.items)
    {
      r := vec.ToHashMap();
    }
  }

  /** `SerializeTupleVariant`: the payload's items are staged, then wrapped in the variant's map. */
  class SerializeTupleVariant {
    const name: string
    const vec: ArrayList

    /** `serialize_tuple_variant`: the variant's name and a fresh, empty list. */
    constructor (variant: string)
      ensures name == variant && fresh(vec) && vec.items == [] && !vec.frozen
    {
      name := variant;
      vec := new ArrayList();
    }

    /** `serialize_field`: `to_object` of the item, staged after the others. */
    method SerializeField(v: Value) returns (r: Result<()>)
      requires !vec.frozen
      modifies vec
      ensures r == Ok(()) && vec.items == old(vec.items) + [Encode(v)] && !vec.frozen
      decreases v, 2
    {
      var o := Serialize(v);  // cannot fail: host calls are taken to succeed
      vec.Add(o.value);
      r := Ok(());
    }

    /** `end`: the staged items as a vector, under the variant's keyword. */
    method End() returns (r: Result<Obj>)
      requires !vec.frozen
      modifies vec
      ensures vec.frozen && vec.items == old(vec.items)
      ensures r == Ok(VariantMapOf(name, Vector(vec.items)))
    {
      var payload := vec.ToVector();
      r := VariantMap(name, payload);
    }
  }

  /** `SerializeStructVariant`: the fields are staged as for a struct, then wrapped in the variant's map. */
  class SerializeStructVariant {
    const name: string
    const fields: SerializeVec

    /** `serialize_struct_variant`: the variant's name and a struct builder over a fresh, empty list. */
    constructor (variant: string)
      ensures name == variant && fresh(fields) && fresh(fields.vec) && fields.vec.items == [] && !fields.vec.frozen
    {
      name := variant;
      fields := new SerializeVec();
    }

    /** `serialize_field`: delegates to the struct builder. */
    method SerializeField(key: string, v: Value) returns (r: Result<()>)
      requires !fields.vec.frozen
      modifies fields.vec
      ensures r == Ok(()) && fields.vec.items == old(fields.vec.items) + [Keyword(key), Encode(v)] && !fields.vec.frozen
      decreases v, 5
    {
      r := fields.SerializeField(key, v);
    }

    /** `end`: the staged fields as a hash map, under the variant's keyword; a failed freeze is passed on. */
    method End() returns (r: Result<Obj>)
      requires !fields.vec.frozen
      modifies fields.vec
      ensures fields.vec.frozen && fields.vec.items == old(fields.vec.items)
      ensures CreateHashMap(fields.vec.items).Err? ==> r == Err(HostCallFailure)
      ensures CreateHashMap(fields.vec.items).Ok? ==> r == Ok(VariantMapOf(name, CreateHashMap(fields.vec.items).value))
    {
      var payload :- fields.vec.ToHashMap();
      r := VariantMap(name, payload);
    }
  }

  /**
   * `to_object`: serde hands the value to the `Serializer`, whose method for
   * the value's kind builds the object. Host calls are taken to succeed, so
   * the result is always the encoding.
   */
  method Serialize(v: Value) returns (r: Result<Obj>)
    ensures r == Ok(Encode(v))
    decreases v, 1
  {
    match v
    case Bool(z) => r := Ok(ToBoxed(JBool(z)));
    case I8(x) => r := Ok(ToBoxed(JByte(x)));
    case I16(x) => r := Ok(ToBoxed(JShort(x)));
    case I32(x) => r := Ok(ToBoxed(JInt(x)));
    case I64(x) => r := Ok(ToBoxed(JLong(x)));
    case U8(x) => r := Ok(ToBoxed(JShort(x as int as i16)));
    case U16(x) => r := Ok(ToBoxed(JInt(x as int as i32)));
    case U32(x) => r := Ok(ToBoxed(JLong(x as int as i64)));
    case U64(x) => r := Ok(ToBoxed(JLong(U64AsI64(x))));
    case F32(f) => r := Ok(ToBoxed(JFloat(f)));
    case F64(d) => r := Ok(ToBoxed(JDouble(d)));
    case Char(c) => r := Ok(JString([c]));
    case Str(s) => r := Ok(JString(s));
    case Bytes(bs) => r := Ok(ByteArray(bs));
    case Unit => r := Ok(Null);
    case OptNone => r := Ok(Null);
    case OptSome(x) =>
      r := Serialize(x);
      EncodeOptSome(x);
    case Newtype(x) =>
      r := Serialize(x);
      EncodeNewtype(x);
    case UnitVariant(n) => r := Ok(GetKeyword(n));
    case NewtypeVariant(n, x) =>
      var payload := Serialize(x);
      r := VariantMap(n, payload.value);
      EncodeNewtypeVariant(n, x);
    case SeqOf(xs) =>
      r := SerializeSeq(xs);
      EncodeSeqOf(xs);
    case Tuple(xs) =>
      r := SerializeSeq(xs);
      EncodeTuple(xs);
    case TupleVariant(n, xs) =>
      r := SerializeTupleVariantOf(n, xs);
      EncodeTupleVariant(n, xs);
    case MapOf(es) =>
      r := SerializeMap(es);
      EncodeMapOf(es);
    case Struct(vf) =>
      r := SerializeStruct(vf);
      EncodeStructOf(vf);
    case StructVariant(n, vf) =>
      r := SerializeStructVariantOf(n, vf);
      EncodeStructVariant(n, vf);
  }

  /** A sequence's or tuple's `serialize`: one `serialize_element` per item, in order, then `end`. */
  method SerializeSeq(xs: seq<Value>) returns (r: Result<Obj>)
    ensures r == Ok(Vector(EncodeAll(xs)))
    decreases xs, 0
  {
    var builder := new SerializeVec();
    for i := 0 to |xs|
      invariant fresh(builder.vec) && !builder.vec.frozen
      invariant |builder.vec.items| == i
      invariant forall j :: 0 <= j < i ==> builder.vec.items[j] == Encode(xs[j])
    {
      var _ := builder.SerializeElement(xs[i]);
    }
    assert builder.vec.items == EncodeAll(xs);
    var o := builder.EndSeq();
    r := Ok(o);
  }

  /** A tuple variant's `serialize`: one `serialize_field` per item, in order, then `end`. */
  method SerializeTupleVariantOf(n: string, xs: seq<Value>) returns (r: Result<Obj>)
    ensures r == Ok(VariantMapOf(n, Vector(EncodeAll(xs))))
    decreases xs, 0
  {
    var builder := new SerializeTupleVariant(n);
    for i := 0 to |xs|
      invariant fresh(builder.vec) && !builder.vec.frozen
      invariant |builder.vec.items| == i
      invariant forall j :: 0 <= j < i ==> builder.vec.items[j] == Encode(xs[j])
    {
      var _ := builder.SerializeField(xs[i]);
    }
    assert builder.vec.items == EncodeAll(xs);
    r := builder.End();
  }

  /** A map's `serialize`: `serialize_key` then `serialize_value` per entry, in order, then `end`. */
  method SerializeMap(es: seq<(Value, Value)>) returns (r: Result<Obj>)
    ensures r == Ok(HashMapOf(EncodeEntries(es)))
    decreases es, 0
  {
    var builder := new SerializeVec();
    ghost var ps: seq<(Obj, Obj)> := [];
    for i := 0 to |es|
      invariant fresh(builder.vec) && !builder.vec.frozen
      invariant |ps| == i && builder.vec.items == Flatten(ps)
      invariant forall j :: 0 <= j < i ==> ps[j] == (Encode(es[j].0), Encode(es[j].1))
    {
      assert es[i] in es && es[i].0 < es[i] && es[i].1 < es[i];
      var ok := builder.SerializeKey(es[i].0);
      ok := builder.SerializeValue(es[i].1);
      FlattenSnoc(ps, (Encode(es[i].0), Encode(es[i].1)));
      ps := ps + [(Encode(es[i].0), Encode(es[i].1))];
    }
    assert ps == EncodeEntries(es);
    CreateOfFlatten(ps);
    r := builder.EndMap();
  }

  /** A struct's `serialize`: `serialize_field` per field, in declaration order, then `end`. */
  method SerializeStruct(vf: seq<(string, Value)>) returns (r: Result<Obj>)
    ensures r == Ok(HashMapOf(EncodeFields(vf)))
    decreases vf, 0
  {
    var builder := new SerializeVec();
    ghost var ps: seq<(Obj, Obj)> := [];
    for i := 0 to |vf|
      invariant fresh(builder.vec) && !builder.vec.frozen
      invariant |ps| == i && builder.vec.items == Flatten(ps)
      invariant forall j :: 0 <= j < i ==> ps[j] == (Keyword(vf[j].0), Encode(vf[j].1))
    {
      assert vf[i] in vf && vf[i].1 < vf[i];
      var _ := builder.SerializeField(vf[i].0, vf[i].1);
      FlattenSnoc(ps, (Keyword(vf[i].0), Encode(vf[i].1)));
      ps := ps + [(Keyword(vf[i].0), Encode(vf[i].1))];
    }
    assert ps == EncodeFields(vf);
    CreateOfFlatten(ps);
    r := builder.EndMap();
  }

  /** A struct variant's `serialize`: `serialize_field` per field, in declaration order, then `end`. */
  method SerializeStructVariantOf(n: string, vf: seq<(string, Value)>) returns (r: Result<Obj>)
    ensures r == Ok(VariantMapOf(n, HashMapOf(EncodeFields(vf))))
    decreases vf, 0
  {
    var builder := new SerializeStructVariant(n);
    ghost var ps: seq<(Obj, Obj)> := [];
    for i := 0 to |vf|
      invariant fresh(builder.fields) && fresh(builder.fields.vec) && !builder.fields.vec.frozen
      invariant |ps| == i && builder.fields.vec.items == Flatten(ps)
      invariant forall j :: 0 <= j < i ==> ps[j] == (Keyword(vf[j].0), Encode(vf[j].1))
    {
      assert vf[i] in vf && vf[i].1 < vf[i];
      var _ := builder.SerializeField(vf[i].0, vf[i].1);
      FlattenSnoc(ps, (Keyword(vf[i].0), Encode(vf[i].1)));
      ps := ps + [(Keyword(vf[i].0), Encode(vf[i].1))];
    }
    assert ps == EncodeFields(vf);
    CreateOfFlatten(ps);
    r := builder.End();
  }
}
