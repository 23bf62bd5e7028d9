/**
 * The deserializer of src/de.rs as one function: what `from_object`
 * returns when a `Deserialize` implementation asking for the shape `s`
 * reads the host object `o`. The visitor behaviour that decides the
 * outcome (serde's integer range checks, the derived struct and enum
 * visitors) is part of the model, written out next to the `deserialize_*`
 * method that hands the visitor its input.
 */
module De {
  import opened Host
  import opened Errors
  import opened Convert
  import opened DataModel
  import opened SeqFacts

  /**
   * A chain of probes (`if let Some(v) = decode_x(o)? … else if …`): the
   * first box kind of `order` that `o` is an instance of gives its value;
   * if none matches, `fail`. A null object makes the first probe fail.
   */
  function FirstProbe(o: Obj, order: seq<BoxKind>, fail: Error): (r: Result<JValue>)
    ensures r.Ok? ==> IsPrimitive(r.value) && BoxKindOf(r.value) in order && ToBoxed(r.value) == o
  {
    if order == [] then Err(fail)
    else
      var u :- Unbox(o, order[0]);
      if u.Some? then Ok(u.value) else FirstProbe(o, order[1..], fail)
  }

  /**
   * What a chain over `order` reads, stated without the chain: nil fails,
   * a box whose kind is listed is unboxed, anything else is `fail`.
   */
  function BoxReading(o: Obj, order: seq<BoxKind>, fail: Error): Result<JValue> {
    if o == Null then Err(HostCallFailure)
    else if IsBox(o) && BoxKindOf(Unboxed(o)) in order then Ok(Unboxed(o))
    else Err(fail)
  }

  /**
   * A probe chain reads the same as its reference: since an object is an
   * instance of at most one box class, the order of the probes never
   * changes the outcome.
   */
  lemma {:induction false} FirstProbeReads(o: Obj, order: seq<BoxKind>, fail: Error)
    requires order != []
    ensures FirstProbe(o, order, fail) == BoxReading(o, order, fail)
  {
    if o == Null {
      ProbeNull(order, fail);
    } else if IsInstanceOf(o, BoxClass(order[0])) {
      ProbeHit(o, order, fail);
    } else {
      ProbeMiss(o, order, fail);
      if order[1..] != [] {
        FirstProbeReads(o, order[1..], fail);
      }
    }
  }

  /** The first probe on nil fails the chain. */
  lemma ProbeNull(order: seq<BoxKind>, fail: Error)
    requires order != []
    ensures FirstProbe(Null, order, fail) == Err(HostCallFailure) == BoxReading(Null, order, fail)
  {
    assert Unbox(Null, order[0]) == Err(HostCallFailure);
  }

  /** A probe that matches ends the chain with the unboxed value. */
  lemma ProbeHit(o: Obj, order: seq<BoxKind>, fail: Error)
    requires order != [] && o != Null && IsInstanceOf(o, BoxClass(order[0]))
    ensures FirstProbe(o, order, fail) == BoxReading(o, order, fail)
  {
    InstanceOfBox(o, order[0]);
    assert Unbox(o, order[0]) == Ok(Some(Unboxed(o)));
  }

  /** A probe that does not match hands the object to the rest of the chain. */
  lemma ProbeMiss(o: Obj, order: seq<BoxKind>, fail: Error)
    requires order != [] && o != Null && !IsInstanceOf(o, BoxClass(order[0]))
    ensures FirstProbe(o, order, fail) == FirstProbe(o, order[1..], fail)
    ensures order[1..] == [] ==> BoxReading(o, order, fail) == Err(fail)
    ensures order[1..] != [] ==> BoxReading(o, order, fail) == BoxReading(o, order[1..], fail)
  {
    assert Unbox(o, order[0]) == Ok(None);
    MissReading(o, order, fail);
  }

  /** The reference reading does not change when a kind the object is not a box of is dropped. */
  lemma MissReading(o: Obj, order: seq<BoxKind>, fail: Error)
    requires order != [] && o != Null && !IsInstanceOf(o, BoxClass(order[0]))
    ensures order[1..] == [] ==> BoxReading(o, order, fail) == Err(fail)
    ensures order[1..] != [] ==> BoxReading(o, order, fail) == BoxReading(o, order[1..], fail)
  {
    InstanceOfBox(o, order[0]);
    if IsBox(o) {
      InRest(order, BoxKindOf(Unboxed(o)));
    }
  }

  lemma InRest(order: seq<BoxKind>, k: BoxKind)
    requires order != [] && k != order[0]
    ensures k in order <==> k in order[1..]
  {
    assert order == [order[0]] + order[1..];
  }

  /** A non-null object passes the test for box class `k` exactly when it is a box of kind `k`. */
  lemma InstanceOfBox(o: Obj, k: BoxKind)
    requires o != Null
    ensures IsInstanceOf(o, BoxClass(k)) <==> IsBox(o) && BoxKindOf(Unboxed(o)) == k
  {
  }

  /** The probe orders of `deserialize_i8`, `_i16`, `_i32` and `_i64` (and the unsigned ones that delegate to them). */
  const I8Order: seq<BoxKind> := [ByteBox, ShortBox, IntegerBox, LongBox]
  const I16Order: seq<BoxKind> := [ShortBox, ByteBox, IntegerBox, LongBox]
  const I32Order: seq<BoxKind> := [IntegerBox, ByteBox, ShortBox, LongBox]
  const I64Order: seq<BoxKind> := [LongBox, ByteBox, ShortBox, IntegerBox]

  /** The probe orders of `deserialize_f32` and `deserialize_f64`. */
  const F32Order: seq<BoxKind> := [FloatBox, DoubleBox]
  const F64Order: seq<BoxKind> := [DoubleBox, FloatBox]

  /** The four integer chains accept the same objects and read the same value from each. */
  lemma IntegerChainsAgree(o: Obj)
    ensures FirstProbe(o, I8Order, ExpectedInteger) == FirstProbe(o, I16Order, ExpectedInteger)
                                                      == FirstProbe(o, I32Order, ExpectedInteger)
                                                      == FirstProbe(o, I64Order, ExpectedInteger)
  {
    FirstProbeReads(o, I8Order, ExpectedInteger);
    FirstProbeReads(o, I16Order, ExpectedInteger);
    FirstProbeReads(o, I32Order, ExpectedInteger);
    FirstProbeReads(o, I64Order, ExpectedInteger);
  }

  /** The two float chains accept the same objects and read the same value from each. */
  lemma FloatChainsAgree(o: Obj)
    ensures FirstProbe(o, F32Order, ExpectedFloat) == FirstProbe(o, F64Order, ExpectedFloat)
  {
    FirstProbeReads(o, F32Order, ExpectedFloat);
    FirstProbeReads(o, F64Order, ExpectedFloat);
  }

  /** The value an integer visit carries (`visit_i8` … `visit_i64`). */
  function IntOf(v: JValue): int
    requires v.JByte? || v.JShort? || v.JInt? || v.JLong?
  {
    match v
    case JByte(b) => b as int
    case JShort(s) => s as int
    case JInt(i) => i as int
    case JLong(j) => j as int
  }

  predicate IsIntKind(k: PrimKind) {
    k in {I8K, I16K, I32K, I64K, U8K, U16K, U32K, U64K}
  }

  /** The range of Rust's integer type `k`: `lo <= n < hi`. */
  function IntRange(k: PrimKind): (bounds: (int, int))
    requires IsIntKind(k)
  {
    match k
    case I8K => (-0x80, 0x80)
    case I16K => (-0x8000, 0x8000)
    case I32K => (-0x8000_0000, 0x8000_0000)
    case I64K => (-0x8000_0000_0000_0000, 0x8000_0000_0000_0000)
    case U8K => (0, 0x100)
    case U16K => (0, 0x1_0000)
    case U32K => (0, 0x1_0000_0000)
    case U64K => (0, 0x1_0000_0000_0000_0000)
  }

  /**
   * serde's integer visitors: every `visit_iN` is accepted when the value
   * fits the target type, and is an invalid value otherwise.
   */
  function VisitInt(k: PrimKind, n: int): (r: Result<Value>)
    requires IsIntKind(k)
    ensures r.Ok? <==> IntRange(k).0 <= n < IntRange(k).1
    ensures r.Ok? ==> IsPrim(r.value, k) && IntValue(r.value) == n
    ensures r.Err? ==> r.error == InvalidValue
  {
    if !(IntRange(k).0 <= n < IntRange(k).1) then Err(InvalidValue)
    else match k
      case I8K => Ok(I8(n as i8))
      case I16K => Ok(I16(n as i16))
      case I32K => Ok(I32(n as i32))
      case I64K => Ok(I64(n as i64))
      case U8K => Ok(U8(n as u8))
      case U16K => Ok(U16(n as u16))
      case U32K => Ok(U32(n as u32))
      case U64K => Ok(U64(n as u64))
  }

  /**
   * serde's float visitors: a visit of the target's own width keeps the
   * value; the other width is converted with `as`.
   */
  function VisitFloat(wide: bool, v: JValue): (r: Value)
    requires v.JFloat? || v.JDouble?
    ensures wide ==> r.F64? && (v.JDouble? ==> r.f64 == v.d)
    ensures !wide ==> r.F32? && (v.JFloat? ==> r.f32 == v.f)
  {
    match v
    case JFloat(f) => if wide then F64(WidenedFrom(f)) else F32(f)
    case JDouble(d) => if wide then F64(d) else F32(NarrowedFrom(d))
  }

  /** The number of bytes of `s` in UTF-8: what Rust's `str::len` returns. */
  function Utf8Len(s: string): (n: nat)
    ensures n >= |s|
    ensures n == 0 <==> s == []
  {
    if s == [] then 0
    else
      var c := s[0] as int;
      (if c < 0x80 then 1 else if c < 0x800 then 2 else if c < 0x1_0000 then 3 else 4) + Utf8Len(s[1..])
  }

  /** A text is one byte long in UTF-8 exactly when it is one ASCII character. */
  lemma Utf8LenOne(s: string)
    ensures Utf8Len(s) == 1 <==> |s| == 1 && (s[0] as int) < 0x80
  {
    if s != [] {
      assert Utf8Len(s) >= 1 + Utf8Len(s[1..]);
    }
  }

  /**
   * `deserialize_char` as written: a string whose UTF-8 length is one byte.
   * Only ASCII characters pass; any other one-character string is refused.
   */
  function DeserializeCharAsWritten(o: Obj): (r: Result<Value>)
    ensures r.Ok? <==> o.JString? && |o.str| == 1 && (o.str[0] as int) < 0x80
    ensures r.Ok? ==> r.value == Char(o.str[0])
    ensures o == Null ==> r == Err(HostCallFailure)
    ensures o != Null && !(o.JString? && |o.str| == 1 && (o.str[0] as int) < 0x80) ==> r == Err(ExpectedChar)
  {
    var s :- DecodeString(o);
    if s.Some? then Utf8LenOne(s.value); (if Utf8Len(s.value) == 1 then Ok(Char(s.value[0])) else Err(ExpectedChar))
    else Err(ExpectedChar)
  }

  /** `deserialize_char` as evidently intended: a string of exactly one character. */
  function DeserializeChar(o: Obj): (r: Result<Value>)
    ensures r.Ok? <==> o.JString? && |o.str| == 1
    ensures r.Ok? ==> r.value == Char(o.str[0])
    ensures o == Null ==> r == Err(HostCallFailure)
    ensures o != Null && !(o.JString? && |o.str| == 1) ==> r == Err(ExpectedChar)
  {
    var s :- DecodeString(o);
    if s.Some? && |s.value| == 1 then Ok(Char(s.value[0]))
    else Err(ExpectedChar)
  }

  /**
   * `deserialize_string` (and `deserialize_str`, `deserialize_identifier`):
   * the text of a string, or the name of a keyword.
   */
  function DeserializeString(o: Obj): (r: Result<string>)
    ensures r.Ok? <==> o.JString? || o.Keyword?
    ensures o.JString? ==> r.value == o.str
    ensures o.Keyword? ==> r.value == KeywordName(o.sym)
    ensures o == Null ==> r == Err(HostCallFailure)
    ensures o != Null && !o.JString? && !o.Keyword? ==> r == Err(ExpectedString)
  {
    var s :- DecodeString(o);
    if s.Some? then Ok(s.value)
    else
      var k := DecodeKeyword(o).value;  // cannot fail: `o` is not nil here
      if k.Some? then Ok(k.value) else Err(ExpectedString)
  }

  /** The probe order `deserialize_*` uses for the integer type `k`; unsigned types delegate to the signed one of their width. */
  function IntOrder(k: PrimKind): seq<BoxKind>
    requires IsIntKind(k)
  {
    if k == I8K || k == U8K then I8Order
    else if k == I16K || k == U16K then I16Order
    else if k == I32K || k == U32K then I32Order
    else I64Order
  }

  /** `deserialize_iN`/`deserialize_uN`: the probe chain of the width, then serde's visitor for `k`. */
  function ProbeInt(o: Obj, k: PrimKind): (r: Result<Value>)
    requires IsIntKind(k)
    ensures r.Ok? ==> IsPrim(r.value, k)
  {
    var v :- FirstProbe(o, IntOrder(k), ExpectedInteger);
    VisitInt(k, IntOf(v))
  }

  /** The `deserialize_*` methods for primitives, each with serde's visitor for `k`. */
  function DecodeScalar(o: Obj, k: PrimKind): (r: Result<Value>)
    ensures r.Ok? ==> IsPrim(r.value, k)
  {
    match k
    case BoolK =>
      var v :- FirstProbe(o, [BooleanBox], ExpectedBoolean);
      Ok(Bool(v.z))
    case I8K | U8K | I16K | U16K | I32K | U32K | I64K | U64K => ProbeInt(o, k)
    case F32K => var v :- FirstProbe(o, F32Order, ExpectedFloat); Ok(VisitFloat(false, v))
    case F64K => var v :- FirstProbe(o, F64Order, ExpectedFloat); Ok(VisitFloat(true, v))
    case CharK => DeserializeCharAsWritten(o)
    case StringK => var s :- DeserializeString(o); Ok(Str(s))
  }

  /**
   * `Deserializer`: what deserializing `o` against `s` gives. The result,
   * when there is one, always has the shape `s` asks for.
   */
  function Decode(o: Obj, s: Schema, ord: IterOrder): (r: Result<Value>)
    ensures r.Ok? ==> Conforms(r.value, s)
    decreases s, 2, 0
  {
    match s
    case Scalar(k) => DecodeScalar(o, k)
    case OptionS(t) => DecodeOption(o, t, ord)
    case UnitS => if o == Null then Ok(Unit) else Err(ExpectedNull)
    case NewtypeS(t) => DecodeNewtype(o, t, ord)
    case SeqS(t) => VisitSeq(o, t, [], ord)
    case TupleS(ts) => DecodeTuple(o, ts, ord)
    case MapS(kt, vt) => DecodeMap(o, kt, vt, ord)
    case StructS(fs) => DecodeStruct(o, fs, ord)
    case EnumS(vs) => DecodeEnum(o, vs, ord)
    case AnyS => Err(DeserializeAnyNotSupported)
  }

  /** `deserialize_unit` (and `deserialize_unit_struct`): nil is unit, anything else `ExpectedNull`. */
  lemma UnitOnlyFromNil(o: Obj, ord: IterOrder)
    ensures Decode(o, UnitS, ord).Ok? <==> o == Null
    ensures o != Null ==> Decode(o, UnitS, ord) == Err(ExpectedNull)
  {
  }

  /** `deserialize_any` and `deserialize_ignored_any` refuse every object. */
  lemma AnyRefused(o: Obj, ord: IterOrder)
    ensures Decode(o, AnyS, ord) == Err(DeserializeAnyNotSupported)
  {
  }

  /** `deserialize_option`: nil is `None`, anything else is `Some` of what it reads as `t`. */
  function DecodeOption(o: Obj, t: Schema, ord: IterOrder): (r: Result<Value>)
    ensures r == Ok(OptNone) <==> o == Null
    ensures r.Ok? ==> Conforms(r.value, OptionS(t))
    decreases OptionS(t), 1
  {
    if o == Null then Ok(OptNone)
    else
      var v :- Decode(o, t, ord);
      Ok(OptSome(v))
  }

  /** `deserialize_newtype_struct`: the newtype's content is read from the object itself. */
  function DecodeNewtype(o: Obj, t: Schema, ord: IterOrder): (r: Result<Value>)
    ensures r.Ok? ==> Conforms(r.value, NewtypeS(t))
    decreases NewtypeS(t), 1
  {
    var v :- Decode(o, t, ord);
    Ok(Newtype(v))
  }

  /** `deserialize_tuple` (and `deserialize_tuple_struct`): the tuple visitor over a `Seq` cursor. */
  function DecodeTuple(o: Obj, ts: seq<Schema>, ord: IterOrder): (r: Result<Value>)
    ensures r.Ok? ==> Conforms(r.value, TupleS(ts))
    decreases TupleS(ts), 1
  {
    var xs :- VisitTuple(o, ts, 0, [], ord);
    Ok(Tuple(xs))
  }

  /** `deserialize_map`: a hash map is read entry by entry; anything else is not a map. */
  function DecodeMap(o: Obj, kt: Schema, vt: Schema, ord: IterOrder): (r: Result<Value>)
    ensures r.Ok? ==> o.HashMap? && Conforms(r.value, MapS(kt, vt)) && |r.value.entries| == |o.entries|
    decreases MapS(kt, vt), 1
  {
    var iters :- MapIters(o, ord);
    if iters.None? then Err(ExpectedMap)
    else VisitMap(iters.value.0, iters.value.1, kt, vt, 0, [], ord)
  }

  /** `deserialize_struct`: a hash map is read by the derived struct visitor; anything else is not a map. */
  function DecodeStruct(o: Obj, fs: seq<(string, Schema)>, ord: IterOrder): (r: Result<Value>)
    ensures r.Ok? ==> o.HashMap? && Conforms(r.value, StructS(fs))
    decreases StructS(fs), 1
  {
    var iters :- MapIters(o, ord);
    if iters.None? then Err(ExpectedMap)
    else
      var fields :- VisitStruct(iters.value.0, iters.value.1, fs, 0, NoneSeen(|fs|), ord);
      Ok(Struct(fields))
  }

  /** No field seen yet. */
  function NoneSeen(n: nat): (seen: seq<Option<Value>>)
    ensures |seen| == n && forall j :: 0 <= j < n ==> seen[j] == None
  {
    if n == 0 then [] else NoneSeen(n - 1) + [None]
  }

  /**
   * serde's `Vec` visitor over `Seq`: `next_element` calls `RT.first` on
   * the cursor; nil ends the sequence, otherwise the cursor moves to
   * `RT.next` and the item is deserialized. `acc` holds what was read so far.
   */
  function VisitSeq(cur: Obj, t: Schema, acc: seq<Value>, ord: IterOrder): (r: Result<Value>)
    ensures r.Ok? ==> r.value.SeqOf? && |r.value.elems| >= |acc| && r.value.elems[..|acc|] == acc
    ensures r.Ok? ==> forall i :: |acc| <= i < |r.value.elems| ==> Conforms(r.value.elems[i], t)
    decreases SeqS(t), 0, Remaining(cur)
  {
    var first :- RtFirst(cur, ord);
    if first == Null then Ok(SeqOf(acc))
    else
      var next := RtNext(cur, ord).value;  // cannot fail: `cur` is seqable here
      assert Remaining(next) < Remaining(cur);
      var v :- Decode(first, t, ord);
      var r := VisitSeq(next, t, acc + [v], ord);
      if r.Ok? then PrefixSnoc(r.value.elems, acc, v); r else r
  }

  /**
   * serde's tuple visitor over `Seq`: exactly `|ts|` calls of
   * `next_element`, the k-th read as `ts[k]`; running out early is an
   * invalid length. Items after the last are not looked at.
   */
  function VisitTuple(cur: Obj, ts: seq<Schema>, k: nat, acc: seq<Value>, ord: IterOrder): (r: Result<seq<Value>>)
    requires k == |acc| <= |ts|
    ensures r.Ok? ==> |r.value| == |ts| && r.value[..k] == acc
    ensures r.Ok? ==> forall i :: k <= i < |ts| ==> Conforms(r.value[i], ts[i])
    decreases ts, 1, |ts| - k
  {
    if k == |ts| then Ok(acc)
    else
      var first :- RtFirst(cur, ord);
      if first == Null then Err(InvalidLength(k))
      else
        var next := RtNext(cur, ord).value;  // cannot fail: `cur` is seqable here
        var v :- Decode(first, ts[k], ord);
        var r := VisitTuple(next, ts, k + 1, acc + [v], ord);
        if r.Ok? then PrefixSnoc(r.value, acc, v); r else r
  }

  /**
   * serde's map visitor over `Map`: while the key iterator has a next key,
   * read it as `kt`, then the next value as `vt`; entries are handed over
   * in iteration order.
   */
  function VisitMap(keys: seq<Obj>, vals: seq<Obj>, kt: Schema, vt: Schema, i: nat, acc: seq<(Value, Value)>, ord: IterOrder)
    : (r: Result<Value>)
    requires |keys| == |vals| && i <= |keys| && |acc| == i
    ensures r.Ok? ==> r.value.MapOf? && |r.value.entries| == |keys| && r.value.entries[..i] == acc
    ensures r.Ok? ==> forall j :: i <= j < |keys| ==> Conforms(r.value.entries[j].0, kt) && Conforms(r.value.entries[j].1, vt)
    decreases MapS(kt, vt), 0, |keys| - i
  {
    if i == |keys| then Ok(MapOf(acc))
    else
      var k :- Decode(keys[i], kt, ord);
      var v :- Decode(vals[i], vt, ord);
      var r := VisitMap(keys, vals, kt, vt, i + 1, acc + [(k, v)], ord);
      if r.Ok? then PrefixSnoc(r.value.entries, acc, (k, v)); r else r
  }

  /** The field values read so far conform to their declared types. */
  predicate SeenConform(fs: seq<(string, Schema)>, seen: seq<Option<Value>>) {
    |seen| == |fs| && forall j :: 0 <= j < |fs| && seen[j].Some? ==> Conforms(seen[j].value, fs[j].1)
  }

  /**
   * The derived struct visitor over `Map`: each key is read as an
   * identifier; an unknown field's value is skipped with
   * `deserialize_ignored_any`, which this deserializer refuses; a field
   * seen twice is a duplicate; otherwise its value is read as the field's
   * type. `seen[j]` holds the value read for field `j`, if any.
   */
  function VisitStruct(keys: seq<Obj>, vals: seq<Obj>, fs: seq<(string, Schema)>, i: nat, seen: seq<Option<Value>>, ord: IterOrder)
    : (r: Result<seq<(string, Value)>>)
    requires |keys| == |vals| && i <= |keys|
    requires SeenConform(fs, seen)
    ensures r.Ok? ==> FieldsConform(r.value, fs)
    decreases fs, 0, |keys| - i
  {
    if i == |keys| then FinishStruct(fs, seen, 0, [])
    else
      var name :- DeserializeString(keys[i]);
      match NameIndex(fs, name)
      case None => Err(DeserializeAnyNotSupported)
      case Some(j) =>
        if seen[j].Some? then Err(DuplicateField(name))
        else
          assert fs[j] in fs && fs[j].1 < fs[j];
          var v :- Decode(vals[i], fs[j].1, ord);
          VisitStruct(keys, vals, fs, i + 1, seen[j := Some(v)], ord)
  }

  /**
   * The end of the derived struct visitor: fields in declaration order; a
   * field never seen is `None` when its type is an `Option`, and a missing
   * field otherwise.
   */
  function FinishStruct(fs: seq<(string, Schema)>, seen: seq<Option<Value>>, j: nat, acc: seq<(string, Value)>)
    : (r: Result<seq<(string, Value)>>)
    requires SeenConform(fs, seen) && j == |acc| <= |fs|
    ensures r.Ok? ==> |r.value| == |fs| && r.value[..j] == acc
    ensures r.Ok? ==> forall i :: j <= i < |fs| ==>
                        r.value[i] == (fs[i].0, if seen[i].Some? then seen[i].value else OptNone)
    ensures r.Err? <==> exists i :: j <= i < |fs| && seen[i].None? && !fs[i].1.OptionS?
    decreases |fs| - j
  {
    if j == |fs| then Ok(acc)
    else if seen[j].Some? then FinishStruct(fs, seen, j + 1, acc + [(fs[j].0, seen[j].value)])
    else if fs[j].1.OptionS? then FinishStruct(fs, seen, j + 1, acc + [(fs[j].0, OptNone)])
    else Err(MissingField(fs[j].0))
  }

  /**
   * `deserialize_enum`: a bare keyword names a unit variant (serde's
   * string-as-enum access has no payload for any other kind); otherwise a
   * map's first key names the variant and its first value is the payload,
   * read as the variant's shape asks (`newtype_variant_seed`,
   * `tuple_variant`, `struct_variant`; `unit_variant` refuses a map).
   */
  function DecodeEnum(o: Obj, vs: seq<(string, VariantShape)>, ord: IterOrder): (r: Result<Value>)
    ensures r.Ok? ==> VariantConforms(r.value, vs)
    decreases vs, 1, 0
  {
    var kw :- DecodeKeyword(o);
    if kw.Some? then
      match NameIndex(vs, kw.value)
      case None => Err(UnknownVariant(kw.value))
      case Some(i) => if vs[i].1.UnitShape? then Ok(UnitVariant(kw.value)) else Err(InvalidType)
    else
      var iters := MapIters(o, ord).value;  // cannot fail: `o` is not nil here
      if iters.None? || |iters.value.0| == 0 then Err(ExpectedMap)
      else
        var name :- DeserializeString(iters.value.0[0]);
        VisitVariant(name, iters.value.1[0], vs, ord)
  }

  /**
   * serde's `variant_seed` and the variant access over the first entry of
   * a map: the variant named `name` reads `payload` as its shape asks.
   */
  function VisitVariant(name: string, payload: Obj, vs: seq<(string, VariantShape)>, ord: IterOrder): (r: Result<Value>)
    ensures r.Ok? ==> VariantConforms(r.value, vs) && !r.value.UnitVariant? && r.value.variant == name
    decreases vs, 0
  {
    match NameIndex(vs, name)
    case None => Err(UnknownVariant(name))
    case Some(i) =>
      assert vs[i] in vs && vs[i].1 < vs[i];
      match vs[i].1
      case UnitShape => Err(ExpectedKeyword)
      case NewtypeShape(t) =>
        var v :- Decode(payload, t, ord);
        Ok(NewtypeVariant(name, v))
      case TupleShape(ts) =>
        var xs :- VisitTuple(payload, ts, 0, [], ord);
        Ok(TupleVariant(name, xs))
      case StructShape(fs) =>
        var inner :- MapIters(payload, ord);
        if inner.None? then Err(ExpectedMap)
        else
          var fields :- VisitStruct(inner.value.0, inner.value.1, fs, 0, NoneSeen(|fs|), ord);
          Ok(StructVariant(name, fields))
  }

  /**
   * What `deserialize_enum` refuses: nil (the keyword probe's host call
   * fails), an object that is neither a keyword nor a map or an empty map
   * (`ExpectedMap`), a keyword naming no variant (`UnknownVariant`), and a
   * keyword naming a variant with a payload (`InvalidType`, from serde's
   * string-as-enum access).
   */
  lemma EnumRefusals(o: Obj, vs: seq<(string, VariantShape)>, ord: IterOrder)
    ensures o == Null ==> DecodeEnum(o, vs, ord) == Err(HostCallFailure)
    ensures o != Null && !o.Keyword? && !o.HashMap? ==> DecodeEnum(o, vs, ord) == Err(ExpectedMap)
    ensures o.HashMap? && o.entries == [] ==> DecodeEnum(o, vs, ord) == Err(ExpectedMap)
    ensures o.Keyword? && NameIndex(vs, KeywordName(o.sym)).None? ==>
              DecodeEnum(o, vs, ord) == Err(UnknownVariant(KeywordName(o.sym)))
    ensures o.Keyword? && NameIndex(vs, KeywordName(o.sym)).Some? ==>
              DecodeEnum(o, vs, ord)
              == if vs[NameIndex(vs, KeywordName(o.sym)).value].1.UnitShape? then Ok(UnitVariant(KeywordName(o.sym)))
                 else Err(InvalidType)
  {
  }

  /**
   * What the variant access refuses: an undeclared name (`UnknownVariant`),
   * a unit variant written as a map (`ExpectedKeyword`), and a struct
   * variant whose payload is not a map (`ExpectedMap`; a host failure on nil).
   */
  lemma VariantRefusals(name: string, payload: Obj, vs: seq<(string, VariantShape)>, ord: IterOrder)
    ensures NameIndex(vs, name).None? ==> VisitVariant(name, payload, vs, ord) == Err(UnknownVariant(name))
    ensures NameIndex(vs, name).Some? && vs[NameIndex(vs, name).value].1.UnitShape? ==>
              VisitVariant(name, payload, vs, ord) == Err(ExpectedKeyword)
    ensures NameIndex(vs, name).Some? && vs[NameIndex(vs, name).value].1.StructShape? ==>
              (payload == Null ==> VisitVariant(name, payload, vs, ord) == Err(HostCallFailure))
              && (payload != Null && !payload.HashMap? ==> VisitVariant(name, payload, vs, ord) == Err(ExpectedMap))
  {
  }
}
