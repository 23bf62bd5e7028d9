/**
 * One-step equations of the serializer and the deserializer: what `Encode`
 * gives for one constructor, and which visitor `Decode` hands an object to
 * for one request. The round-trip proofs chain these instead of unfolding
 * both definitions at once.
 */
module Steps {
  import opened Host
  import opened Errors
  import opened Convert
  import opened Builder
  import opened DataModel
  import opened Ser
  import opened De

  lemma EncodeOptSome(x: Value)
    ensures Encode(OptSome(x)) == Encode(x)
  {
  }

  lemma EncodeNewtype(x: Value)
    ensures Encode(Newtype(x)) == Encode(x)
  {
  }

  lemma EncodeSeqOf(xs: seq<Value>)
    ensures Encode(SeqOf(xs)) == Vector(EncodeAll(xs))
  {
  }

  lemma EncodeTuple(xs: seq<Value>)
    ensures Encode(Tuple(xs)) == Vector(EncodeAll(xs))
  {
  }

  lemma EncodeMapOf(es: seq<(Value, Value)>)
    ensures Encode(MapOf(es)) == HashMapOf(EncodeEntries(es))
  {
  }

  lemma EncodeStructOf(vf: seq<(string, Value)>)
    ensures Encode(Struct(vf)) == HashMapOf(EncodeFields(vf))
  {
  }

  lemma EncodeUnitVariant(n: string)
    ensures Encode(UnitVariant(n)) == Keyword(n)
  {
  }

  lemma EncodeNewtypeVariant(n: string, x: Value)
    ensures Encode(NewtypeVariant(n, x)) == HashMap([(Keyword(n), Encode(x))])
  {
  }

  lemma EncodeTupleVariant(n: string, xs: seq<Value>)
    ensures Encode(TupleVariant(n, xs)) == HashMap([(Keyword(n), Vector(EncodeAll(xs)))])
  {
  }

  lemma EncodeStructVariant(n: string, vf: seq<(string, Value)>)
    ensures Encode(StructVariant(n, vf)) == HashMap([(Keyword(n), HashMapOf(EncodeFields(vf)))])
  {
    assert Encode(StructVariant(n, vf)) == VariantMapOf(n, HashMapOf(EncodeFields(vf)));
  }

  /** Only unit, `None`, and `Some`/newtypes around a value can encode to nil. */
  lemma EncodeNotNull(v: Value)
    requires !v.Unit? && !v.OptNone? && !v.OptSome? && !v.Newtype?
    ensures Encode(v) != Null
  {
  }

  lemma DecodeAsScalar(o: Obj, k: PrimKind, ord: IterOrder)
    ensures Decode(o, Scalar(k), ord) == DecodeScalar(o, k)
  {
  }

  lemma DecodeAsOption(o: Obj, t: Schema, x: Value, ord: IterOrder)
    requires o != Null && Decode(o, t, ord) == Ok(x)
    ensures Decode(o, OptionS(t), ord) == Ok(OptSome(x))
  {
  }

  lemma DecodeAsNewtype(o: Obj, t: Schema, x: Value, ord: IterOrder)
    requires Decode(o, t, ord) == Ok(x)
    ensures Decode(o, NewtypeS(t), ord) == Ok(Newtype(x))
  {
  }

  lemma DecodeAsSeq(o: Obj, t: Schema, ord: IterOrder)
    ensures Decode(o, SeqS(t), ord) == VisitSeq(o, t, [], ord)
  {
  }

  lemma DecodeAsTuple(o: Obj, ts: seq<Schema>, xs: seq<Value>, ord: IterOrder)
    requires VisitTuple(o, ts, 0, [], ord) == Ok(xs)
    ensures Decode(o, TupleS(ts), ord) == Ok(Tuple(xs))
  {
  }

  lemma DecodeAsMap(ps: seq<(Obj, Obj)>, kt: Schema, vt: Schema, ord: IterOrder)
    ensures Decode(HashMap(ps), MapS(kt, vt), ord)
         == VisitMap(KeysOf(Visited(ps, ord)), ValuesOf(Visited(ps, ord)), kt, vt, 0, [], ord)
  {
    MapItersOfMap(ps, ord);
    assert Decode(HashMap(ps), MapS(kt, vt), ord) == DecodeMap(HashMap(ps), kt, vt, ord);
  }

  lemma DecodeAsStruct(ps: seq<(Obj, Obj)>, fs: seq<(string, Schema)>, vf: seq<(string, Value)>, ord: IterOrder)
    requires VisitStruct(KeysOf(Visited(ps, ord)), ValuesOf(Visited(ps, ord)), fs, 0, NoneSeen(|fs|), ord) == Ok(vf)
    ensures Decode(HashMap(ps), StructS(fs), ord) == Ok(Struct(vf))
  {
    StructOfMap(ps, fs, ord);
    DecodeIsStruct(HashMap(ps), fs, ord);
  }

  lemma {:induction false} DecodeIsStruct(o: Obj, fs: seq<(string, Schema)>, ord: IterOrder)
    ensures Decode(o, StructS(fs), ord) == DecodeStruct(o, fs, ord)
  {
  }

  /** A map read as a struct is what the struct visitor makes of its keys and values, in the host's order. */
  lemma StructOfMap(ps: seq<(Obj, Obj)>, fs: seq<(string, Schema)>, ord: IterOrder)
    ensures var r := VisitStruct(KeysOf(Visited(ps, ord)), ValuesOf(Visited(ps, ord)), fs, 0, NoneSeen(|fs|), ord);
            DecodeStruct(HashMap(ps), fs, ord) == if r.Ok? then Ok(Struct(r.value)) else Err(r.error)
  {
    MapItersOfMap(ps, ord);
  }

  lemma MapItersOfMap(ps: seq<(Obj, Obj)>, ord: IterOrder)
    ensures MapIters(HashMap(ps), ord) == Ok(Some((KeysOf(Visited(ps, ord)), ValuesOf(Visited(ps, ord)))))
  {
  }

  lemma {:induction false} DecodeAsEnum(o: Obj, vs: seq<(string, VariantShape)>, ord: IterOrder)
    ensures Decode(o, EnumS(vs), ord) == DecodeEnum(o, vs, ord)
  {
  }

  /** A keyword decoded as an enum names a unit variant. */
  lemma DecodeKeywordVariant(n: string, vs: seq<(string, VariantShape)>, i: nat, ord: IterOrder)
    requires NameIndex(vs, n) == Some(i) && vs[i].1.UnitShape? && Unqualified(n)
    ensures DecodeEnum(Keyword(n), vs, ord) == Ok(UnitVariant(n))
  {
    KeywordReadsBack(n);
  }

  /** A one-entry map decoded as an enum is the variant its key's name names, read from its value. */
  lemma DecodeVariantMap(n: string, payload: Obj, vs: seq<(string, VariantShape)>, ord: IterOrder)
    ensures DecodeEnum(HashMap([(Keyword(n), payload)]), vs, ord) == VisitVariant(KeywordName(n), payload, vs, ord)
  {
    assert DecodeKeyword(HashMap([(Keyword(n), payload)])) == Ok(None);
    VisitedOne((Keyword(n), payload), ord);
    MapItersOfMap([(Keyword(n), payload)], ord);
  }

  lemma VisitNewtypeVariant(n: string, payload: Obj, vs: seq<(string, VariantShape)>, i: nat, x: Value, ord: IterOrder)
    requires NameIndex(vs, n) == Some(i) && vs[i].1.NewtypeShape?
    requires Decode(payload, vs[i].1.payload, ord) == Ok(x)
    ensures VisitVariant(n, payload, vs, ord) == Ok(NewtypeVariant(n, x))
  {
  }

  lemma VisitTupleVariant(n: string, payload: Obj, vs: seq<(string, VariantShape)>, i: nat, xs: seq<Value>, ord: IterOrder)
    requires NameIndex(vs, n) == Some(i) && vs[i].1.TupleShape?
    requires VisitTuple(payload, vs[i].1.items, 0, [], ord) == Ok(xs)
    ensures VisitVariant(n, payload, vs, ord) == Ok(TupleVariant(n, xs))
  {
  }

  lemma VisitStructVariant(n: string, ps: seq<(Obj, Obj)>, vs: seq<(string, VariantShape)>, i: nat,
                           vf: seq<(string, Value)>, ord: IterOrder)
    requires NameIndex(vs, n) == Some(i) && vs[i].1.StructShape?
    requires VisitStruct(KeysOf(Visited(ps, ord)), ValuesOf(Visited(ps, ord)), vs[i].1.fields, 0,
                         NoneSeen(|vs[i].1.fields|), ord) == Ok(vf)
    ensures VisitVariant(n, HashMap(ps), vs, ord) == Ok(StructVariant(n, vf))
  {
    MapItersOfMap(ps, ord);
    assert vs[i] in vs && vs[i].1 < vs[i];
  }
}
