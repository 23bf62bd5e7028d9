/**
 * The serializer of src/ser.rs as one function from serde's data model to
 * host objects: what `to_object` returns for a value when no host call
 * fails.
 */
module Ser {
  import opened Host
  import opened Errors
  import opened Convert
  import opened Builder
  import opened DataModel

  /**
   * Rust's `u64 as i64`: the same 64 bits read as two's complement, so
   * values from 2^63 up come out negative.
   */
  function U64AsI64(x: u64): (y: i64)
    ensures (y as int) % 0x1_0000_0000_0000_0000 == x as int
    ensures x as int < 0x8000_0000_0000_0000 ==> y as int == x as int
    ensures x as int >= 0x8000_0000_0000_0000 ==> y < 0
  {
    if x as int < 0x8000_0000_0000_0000 then x as int as i64
    else (x as int - 0x1_0000_0000_0000_0000) as i64
  }

  /**
   * `variant_map`: a one-entry map from the variant's keyword to the
   * payload, built through a staging list of two objects.
   */
  function VariantMapOf(variant: string, payload: Obj): (o: Obj)
    ensures o == HashMap([(Keyword(variant), payload)])
  {
    HashMapOfDistinct([(GetKeyword(variant), payload)]);
    HashMapOf([(GetKeyword(variant), payload)])
  }

  /**
   * `Serializer`: primitives are boxed (unsigned integers through the next
   * wider signed type, `u64` wrapping), chars and strings become strings,
   * unit, unit structs and `None` become nil, `Some` and newtypes are
   * transparent, unit variants become keywords, sequences and tuples
   * become vectors, maps and structs (with keyword keys) become hash maps,
   * and every variant with a payload becomes a one-entry map from its
   * keyword to the payload.
   */
  function Encode(v: Value): (o: Obj)
    ensures v.Bool? ==> o == Boolean(v.z)
    ensures v.U8? ==> o == Short(v.u8 as int as i16)
    ensures v.U16? ==> o == Integer(v.u16 as int as i32)
    ensures v.U32? ==> o == Long(v.u32 as int as i64)
    ensures v.Char? ==> o == JString([v.c])
    ensures v.Unit? || v.OptNone? ==> o == Null
    ensures v.UnitVariant? ==> o == Keyword(v.variant)
    decreases v, 1
  {
    match v
    case Bool(z) => ToBoxed(JBool(z))
    case I8(x) => ToBoxed(JByte(x))
    case I16(x) => ToBoxed(JShort(x))
    case I32(x) => ToBoxed(JInt(x))
    case I64(x) => ToBoxed(JLong(x))
    case U8(x) => ToBoxed(JShort(x as int as i16))
    case U16(x) => ToBoxed(JInt(x as int as i32))
    case U32(x) => ToBoxed(JLong(x as int as i64))
    case U64(x) => ToBoxed(JLong(U64AsI64(x)))
    case F32(f) => ToBoxed(JFloat(f))
    case F64(d) => ToBoxed(JDouble(d))
    case Char(c) => JString([c])
    case Str(s) => JString(s)
    case Bytes(bs) => ByteArray(bs)
    case Unit => Null
    case OptNone => Null
    case OptSome(x) => Encode(x)
    case Newtype(x) => Encode(x)
    case UnitVariant(n) => GetKeyword(n)
    case NewtypeVariant(n, x) => VariantMapOf(n, Encode(x))
    case SeqOf(xs) => Vector(EncodeAll(xs))
    case Tuple(xs) => Vector(EncodeAll(xs))
    case TupleVariant(n, xs) => VariantMapOf(n, Vector(EncodeAll(xs)))
    case MapOf(es) => HashMapOf(EncodeEntries(es))
    case Struct(fs) => HashMapOf(EncodeFields(fs))
    case StructVariant(n, fs) => VariantMapOf(n, HashMapOf(EncodeFields(fs)))
  }

  /** The elements of a sequence or tuple, each encoded, in order. */
  function EncodeAll(xs: seq<Value>): (os: seq<Obj>)
    ensures |os| == |xs|
    ensures forall i {:trigger os[i]} :: 0 <= i < |xs| ==> os[i] == Encode(xs[i])
    decreases xs, 0
  {
    if xs == [] then [] else [Encode(xs[0])] + EncodeAll(xs[1..])
  }

  /** A map's entries, key and value each encoded, in order. */
  function EncodeEntries(es: seq<(Value, Value)>): (ps: seq<(Obj, Obj)>)
    ensures |ps| == |es|
    ensures forall i {:trigger ps[i]} :: 0 <= i < |es| ==> (assert es[i] in es && es[i].0 < es[i] && es[i].1 < es[i]; ps[i] == (Encode(es[i].0), Encode(es[i].1)))
    decreases es, 0
  {
    if es == [] then []
    else
      assert es[0] in es;
      assert es[0].0 < es[0] && es[0].1 < es[0];
      [(Encode(es[0].0), Encode(es[0].1))] + EncodeEntries(es[1..])
  }

  /** A struct's fields as entries from the field's keyword to the encoded value. */
  function EncodeFields(fs: seq<(string, Value)>): (ps: seq<(Obj, Obj)>)
    ensures |ps| == |fs|
    ensures forall i {:trigger ps[i]} :: 0 <= i < |fs| ==> (assert fs[i] in fs && fs[i].1 < fs[i]; ps[i] == (Keyword(fs[i].0), Encode(fs[i].1)))
    decreases fs, 0
  {
    if fs == [] then []
    else
      assert fs[0] in fs;
      assert fs[0].1 < fs[0];
      [(GetKeyword(fs[0].0), Encode(fs[0].1))] + EncodeFields(fs[1..])
  }
}
