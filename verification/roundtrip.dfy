/**
 * What a value survives: encoding a value and decoding the object against
 * the value's own shape gives the value back, with the entries of each map
 * in whatever order the host visits them, for every value outside six
 * lossy corners, each exhibited by a lemma of module `Corners`:
 * a `u64` from 2^63 up (encoded wrapped, refused on the way back),
 * a non-ASCII `char` (refused on the way back),
 * `Some` of something that encodes to nil (comes back as `None`),
 * an element that encodes to nil inside a sequence (ends the sequence)
 * or a tuple (short tuple), map keys whose encodings coincide, and a
 * field or variant name with a namespace, such as "user/id" (its keyword
 * reads back as "id").
 */
module RoundTrip {
  import opened Host
  import opened Errors
  import opened Convert
  import opened Builder
  import opened DataModel
  import opened Ser
  import opened De
  import opened SeqFacts
  import opened Steps

  /** The values that encode to nil: unit, `None`, and `Some`/newtypes around one. */
  predicate EncodesNil(v: Value) {
    match v
    case Unit => true
    case OptNone => true
    case OptSome(x) => EncodesNil(x)
    case Newtype(x) => EncodesNil(x)
    case _ => false
  }

  lemma {:induction false} EncodesNilExactly(v: Value)
    ensures Encode(v) == Null <==> EncodesNil(v)
  {
    match v
    case Unit =>
    case OptNone =>
    case OptSome(x) => EncodeOptSome(x); EncodesNilExactly(x);
    case Newtype(x) => EncodeNewtype(x); EncodesNilExactly(x);
    case _ => EncodeNotNull(v);
  }

  /** No two fields share a name. */
  predicate DistinctNames(fs: seq<(string, Value)>) {
    forall i, j :: 0 <= i < j < |fs| ==> fs[i].0 != fs[j].0
  }

  /** A value outside the lossy corners, at every depth. */
  predicate Recoverable(v: Value)
    decreases v, 1
  {
    match v
    case U64(x) => x as int < 0x8000_0000_0000_0000
    case Char(c) => c as int < 0x80
    case OptSome(x) => !EncodesNil(x) && Recoverable(x)
    case Newtype(x) => Recoverable(x)
    case SeqOf(xs) => ElementsRecoverable(xs)
    case Tuple(xs) => ElementsRecoverable(xs)
    case MapOf(es) => EntriesRecoverable(es) && DistinctKeys(EncodeEntries(es)) && KeysPlain(es)
    case Struct(fs) => FieldsRecoverable(fs)
    case UnitVariant(n) => Unqualified(n)
    case NewtypeVariant(n, x) => Unqualified(n) && Recoverable(x)
    case TupleVariant(n, xs) => Unqualified(n) && ElementsRecoverable(xs)
    case StructVariant(n, fs) => Unqualified(n) && FieldsRecoverable(fs)
    case _ => true
  }

  predicate ElementsRecoverable(xs: seq<Value>)
    decreases xs, 0
  {
    forall i :: 0 <= i < |xs| ==> !EncodesNil(xs[i]) && Recoverable(xs[i])
  }

  predicate EntriesRecoverable(es: seq<(Value, Value)>)
    decreases es, 0
  {
    forall i :: 0 <= i < |es| ==>
      (assert es[i] in es && es[i].0 < es[i] && es[i].1 < es[i]; Recoverable(es[i].0) && Recoverable(es[i].1))
  }

  predicate FieldsRecoverable(fs: seq<(string, Value)>)
    decreases fs, 0
  {
    DistinctNames(fs) && (forall i :: 0 <= i < |fs| ==> Unqualified(fs[i].0))
    && forall i :: 0 <= i < |fs| ==> (assert fs[i] in fs && fs[i].1 < fs[i]; Recoverable(fs[i].1))
  }

  /**
   * `v` as the host shows it when it visits map entries in the order `ord`:
   * the entries of every map, at any depth, in the order the host visits
   * their encodings. Struct fields keep their declared order.
   */
  function AsIterated(v: Value, ord: IterOrder): Value
    decreases v, 2
  {
    match v
    case OptSome(x) => OptSome(AsIterated(x, ord))
    case Newtype(x) => Newtype(AsIterated(x, ord))
    case SeqOf(xs) => SeqOf(AllAsIterated(xs, ord))
    case Tuple(xs) => Tuple(AllAsIterated(xs, ord))
    case MapOf(es) => MapOf(IteratedEntries(es, ord))
    case Struct(vf) => Struct(FieldsAsIterated(vf, ord))
    case NewtypeVariant(n, x) => NewtypeVariant(n, AsIterated(x, ord))
    case TupleVariant(n, xs) => TupleVariant(n, AllAsIterated(xs, ord))
    case StructVariant(n, vf) => StructVariant(n, FieldsAsIterated(vf, ord))
    case _ => v
  }

  function AllAsIterated(xs: seq<Value>, ord: IterOrder): (ws: seq<Value>)
    ensures |ws| == |xs|
    ensures forall i {:trigger ws[i]} :: 0 <= i < |xs| ==> ws[i] == AsIterated(xs[i], ord)
    decreases xs, 0
  {
    if xs == [] then [] else [AsIterated(xs[0], ord)] + AllAsIterated(xs[1..], ord)
  }

  /** A map's entries, key and value each as iterated, in the order listed. */
  function EntriesAsIterated(es: seq<(Value, Value)>, ord: IterOrder): (gs: seq<(Value, Value)>)
    ensures |gs| == |es|
    ensures forall i {:trigger gs[i]} :: 0 <= i < |es| ==>
              (assert es[i] in es && es[i].0 < es[i] && es[i].1 < es[i];
               gs[i] == (AsIterated(es[i].0, ord), AsIterated(es[i].1, ord)))
    decreases es, 0
  {
    if es == [] then []
    else
      assert es[0] in es;
      assert es[0].0 < es[0] && es[0].1 < es[0];
      [(AsIterated(es[0].0, ord), AsIterated(es[0].1, ord))] + EntriesAsIterated(es[1..], ord)
  }

  /** A map's entries as iterated, in the order the host visits their encodings. */
  function IteratedEntries(es: seq<(Value, Value)>, ord: IterOrder): (gs: seq<(Value, Value)>)
    ensures |gs| == |es|
    ensures forall i :: 0 <= i < |es| ==>
              gs[i] == EntriesAsIterated(es, ord)[OrderOf(EncodeEntries(es), ord)[i]]
    decreases es, 1
  {
    Permute(EntriesAsIterated(es, ord), OrderOf(EncodeEntries(es), ord))
  }

  /** A struct's fields, each value as iterated, in declared order. */
  function FieldsAsIterated(vf: seq<(string, Value)>, ord: IterOrder): (gf: seq<(string, Value)>)
    ensures |gf| == |vf|
    ensures forall i {:trigger gf[i]} :: 0 <= i < |vf| ==>
              (assert vf[i] in vf && vf[i].1 < vf[i]; gf[i] == (vf[i].0, AsIterated(vf[i].1, ord)))
    decreases vf, 0
  {
    if vf == [] then []
    else
      assert vf[0] in vf;
      assert vf[0].1 < vf[0];
      [(vf[0].0, AsIterated(vf[0].1, ord))] + FieldsAsIterated(vf[1..], ord)
  }

  /** A value with no map anywhere inside it (structs are allowed). */
  predicate MapFree(v: Value)
    decreases v, 1
  {
    match v
    case OptSome(x) => MapFree(x)
    case Newtype(x) => MapFree(x)
    case SeqOf(xs) => ElementsMapFree(xs)
    case Tuple(xs) => ElementsMapFree(xs)
    case MapOf(_) => false
    case Struct(vf) => FieldsMapFree(vf)
    case NewtypeVariant(_, x) => MapFree(x)
    case TupleVariant(_, xs) => ElementsMapFree(xs)
    case StructVariant(_, vf) => FieldsMapFree(vf)
    case _ => true
  }

  /**
   * A value with no float, no byte string and no map anywhere inside it.
   * Among the keys of one map, which share one shape and so one box kind
   * for each integer and one field order for each struct, the encoding of
   * such a key matches another's under the host's `Util.equiv` exactly
   * when the two objects are equal. A map inside a key is excluded because
   * the host compares maps whatever the order of their entries.
   */
  predicate PlainKey(v: Value)
    decreases v, 1
  {
    match v
    case F32(_) => false
    case F64(_) => false
    case Bytes(_) => false
    case OptSome(x) => PlainKey(x)
    case Newtype(x) => PlainKey(x)
    case SeqOf(xs) => ElementsPlain(xs)
    case Tuple(xs) => ElementsPlain(xs)
    case MapOf(_) => false
    case Struct(vf) => FieldsPlain(vf)
    case NewtypeVariant(_, x) => PlainKey(x)
    case TupleVariant(_, xs) => ElementsPlain(xs)
    case StructVariant(_, vf) => FieldsPlain(vf)
    case _ => true
  }

  predicate ElementsPlain(xs: seq<Value>)
    decreases xs, 0
  {
    forall i :: 0 <= i < |xs| ==> PlainKey(xs[i])
  }

  predicate FieldsPlain(vf: seq<(string, Value)>)
    decreases vf, 0
  {
    forall i :: 0 <= i < |vf| ==> (assert vf[i] in vf && vf[i].1 < vf[i]; PlainKey(vf[i].1))
  }

  /** Every key of a map is plain. */
  predicate KeysPlain(es: seq<(Value, Value)>) {
    forall i :: 0 <= i < |es| ==> PlainKey(es[i].0)
  }

  predicate ElementsMapFree(xs: seq<Value>)
    decreases xs, 0
  {
    forall i :: 0 <= i < |xs| ==> MapFree(xs[i])
  }

  predicate FieldsMapFree(vf: seq<(string, Value)>)
    decreases vf, 0
  {
    forall i :: 0 <= i < |vf| ==> (assert vf[i] in vf && vf[i].1 < vf[i]; MapFree(vf[i].1))
  }

  /** Without maps there is nothing to reorder: a map-free value is shown as it is. */
  lemma {:induction false} MapFreeUnchanged(v: Value, ord: IterOrder)
    requires MapFree(v)
    ensures AsIterated(v, ord) == v
    decreases v, 1
  {
    match v
    case OptSome(x) => MapFreeUnchanged(x, ord);
    case Newtype(x) => MapFreeUnchanged(x, ord);
    case SeqOf(xs) => ElementsUnchanged(xs, ord);
    case Tuple(xs) => ElementsUnchanged(xs, ord);
    case Struct(vf) => FieldsUnchanged(vf, ord);
    case NewtypeVariant(_, x) => MapFreeUnchanged(x, ord);
    case TupleVariant(_, xs) => ElementsUnchanged(xs, ord);
    case StructVariant(_, vf) => FieldsUnchanged(vf, ord);
    case _ =>
  }

  lemma {:induction false} ElementsUnchanged(xs: seq<Value>, ord: IterOrder)
    requires ElementsMapFree(xs)
    ensures AllAsIterated(xs, ord) == xs
    decreases xs, 0
  {
    forall i | 0 <= i < |xs|
      ensures AllAsIterated(xs, ord)[i] == xs[i]
    {
      MapFreeUnchanged(xs[i], ord);
    }
  }

  lemma {:induction false} FieldsUnchanged(vf: seq<(string, Value)>, ord: IterOrder)
    requires FieldsMapFree(vf)
    ensures FieldsAsIterated(vf, ord) == vf
    decreases vf, 0
  {
    forall i | 0 <= i < |vf|
      ensures FieldsAsIterated(vf, ord)[i] == vf[i]
    {
      assert vf[i] in vf && vf[i].1 < vf[i];
      MapFreeUnchanged(vf[i].1, ord);
    }
  }

  lemma {:induction false} EntriesUnchanged(es: seq<(Value, Value)>, ord: IterOrder)
    requires forall i :: 0 <= i < |es| ==> MapFree(es[i].0) && MapFree(es[i].1)
    ensures EntriesAsIterated(es, ord) == es
  {
    forall i | 0 <= i < |es|
      ensures EntriesAsIterated(es, ord)[i] == es[i]
    {
      MapFreeUnchanged(es[i].0, ord);
      MapFreeUnchanged(es[i].1, ord);
    }
  }

  /**
   * The round trip: a value of shape `s` outside the lossy corners is
   * decoded against `s` from its own encoding as itself, with the entries
   * of every map in the order the host visits them, whatever that order.
   */
  lemma {:induction false} RoundTrip(v: Value, s: Schema, ord: IterOrder)
    requires Conforms(v, s) && Recoverable(v)
    ensures Decode(Encode(v), s, ord) == Ok(AsIterated(v, ord))
    decreases v, 1
  {
    match s
    case Scalar(k) => ScalarRoundTrip(v, k, ord);
    case OptionS(t) => if v.OptSome? { OptionRoundTrip(v.some, t, ord); }
    case UnitS =>
    case NewtypeS(t) => NewtypeRoundTrip(v.inner, t, ord);
    case SeqS(t) => SeqCaseRoundTrip(v.elems, t, ord);
    case TupleS(ts) => TupleCaseRoundTrip(v.items, ts, ord);
    case MapS(kt, vt) => MapRoundTrip(v.entries, kt, vt, ord);
    case StructS(fs) => StructRoundTrip(v.fields, fs, ord);
    case EnumS(vs) => EnumRoundTrip(v, vs, ord);
  }

  /** A value with no map inside comes back exactly as it was, whatever the host's order. */
  lemma ExactRoundTrip(v: Value, s: Schema, ord: IterOrder)
    requires Conforms(v, s) && Recoverable(v) && MapFree(v)
    ensures Decode(Encode(v), s, ord) == Ok(v)
  {
    RoundTrip(v, s, ord);
    MapFreeUnchanged(v, ord);
  }

  /** `Some(x)` with `x` not encoding to nil is read back as `Some` of `x`. */
  lemma OptionRoundTrip(x: Value, t: Schema, ord: IterOrder)
    requires Conforms(x, t) && Recoverable(x) && !EncodesNil(x)
    ensures Decode(Encode(OptSome(x)), OptionS(t), ord) == Ok(OptSome(AsIterated(x, ord)))
    decreases x, 2
  {
    EncodesNilExactly(x);
    RoundTrip(x, t, ord);
    EncodeOptSome(x);
    DecodeAsOption(Encode(x), t, AsIterated(x, ord), ord);
  }

  /** A newtype is read back through its transparent encoding. */
  lemma NewtypeRoundTrip(x: Value, t: Schema, ord: IterOrder)
    requires Conforms(x, t) && Recoverable(x)
    ensures Decode(Encode(Newtype(x)), NewtypeS(t), ord) == Ok(Newtype(AsIterated(x, ord)))
    decreases x, 2
  {
    RoundTrip(x, t, ord);
    EncodeNewtype(x);
    DecodeAsNewtype(Encode(x), t, AsIterated(x, ord), ord);
  }

  /** A sequence is read back by the `Vec` visitor over its vector. */
  lemma SeqCaseRoundTrip(xs: seq<Value>, t: Schema, ord: IterOrder)
    requires forall i :: 0 <= i < |xs| ==> Conforms(xs[i], t)
    requires ElementsRecoverable(xs)
    ensures Decode(Encode(SeqOf(xs)), SeqS(t), ord) == Ok(SeqOf(AllAsIterated(xs, ord)))
    decreases xs, 1
  {
    var os := EncodeAll(xs);
    assert os[0..] == os;
    assert AllAsIterated(xs, ord)[..0] == [];
    SeqRoundTrip(Vector(os), xs, t, 0, ord);
    EncodeSeqOf(xs);
    DecodeAsSeq(Vector(os), t, ord);
  }

  /** A tuple is read back by the tuple visitor over its vector. */
  lemma TupleCaseRoundTrip(xs: seq<Value>, ts: seq<Schema>, ord: IterOrder)
    requires AllConform(xs, ts) && ElementsRecoverable(xs)
    ensures Decode(Encode(Tuple(xs)), TupleS(ts), ord) == Ok(Tuple(AllAsIterated(xs, ord)))
    decreases xs, 1
  {
    var os := EncodeAll(xs);
    assert os[0..] == os;
    assert AllAsIterated(xs, ord)[..0] == [];
    TupleRoundTrip(Vector(os), xs, ts, 0, ord);
    EncodeTuple(xs);
    DecodeAsTuple(Vector(os), ts, AllAsIterated(xs, ord), ord);
  }

  lemma ScalarRoundTrip(v: Value, k: PrimKind, ord: IterOrder)
    requires IsPrim(v, k) && Recoverable(v)
    ensures Decode(Encode(v), Scalar(k), ord) == Ok(v)
  {
    var o := Encode(v);
    DecodeAsScalar(o, k, ord);
    if IsIntKind(k) {
      IntRoundTrip(v, k);
    } else if k == BoolK {
      FirstProbeReads(o, [BooleanBox], ExpectedBoolean);
    } else if k == F32K {
      FirstProbeReads(o, F32Order, ExpectedFloat);
    } else if k == F64K {
      FirstProbeReads(o, F64Order, ExpectedFloat);
    }
  }
  /** An integer comes back through its widened box, whatever probe order is used. */
  lemma IntRoundTrip(v: Value, k: PrimKind)
    requires IsIntKind(k) && IsPrim(v, k) && Recoverable(v)
    ensures ProbeInt(Encode(v), k) == Ok(v)
  {
    var o := Encode(v);
    IntBox(v);
    FirstProbeReads(o, IntOrder(k), ExpectedInteger);
    assert FirstProbe(o, IntOrder(k), ExpectedInteger) == Ok(Unboxed(o));
    VisitIntValue(v, k);
  }

  /** An integer is encoded as a box of one of the four integer kinds holding its value. */
  lemma IntBox(v: Value)
    requires v.I8? || v.I16? || v.I32? || v.I64? || v.U8? || v.U16? || v.U32? || v.U64?
    requires Recoverable(v)
    ensures IsBox(Encode(v)) && BoxKindOf(Unboxed(Encode(v))) in [ByteBox, ShortBox, IntegerBox, LongBox]
    ensures var u := Unboxed(Encode(v)); (u.JByte? || u.JShort? || u.JInt? || u.JLong?) && IntOf(u) == IntValue(v)
  {
    match v
    case I8(x) => assert Encode(v) == Byte(x);
    case I16(x) => assert Encode(v) == Short(x);
    case I32(x) => assert Encode(v) == Integer(x);
    case I64(x) => assert Encode(v) == Long(x);
    case U8(x) => assert Encode(v) == Short(x as int as i16);
    case U16(x) => assert Encode(v) == Integer(x as int as i32);
    case U32(x) => assert Encode(v) == Long(x as int as i64);
    case U64(x) => assert Encode(v) == Long(U64AsI64(x));
  }

  /** serde's integer visitor accepts the value of an integer of its own type as that integer. */
  lemma VisitIntValue(v: Value, k: PrimKind)
    requires IsIntKind(k) && IsPrim(v, k)
    ensures VisitInt(k, IntValue(v)) == Ok(v)
  {
  }

  /** One step of a walk over `os`: the item at `k`, then a cursor over what follows. */
  lemma CursorStep(cur: Obj, os: seq<Obj>, k: nat, ord: IterOrder)
    requires k <= |os| && SeqView(cur, ord) == Some(os[k..])
    ensures RtFirst(cur, ord) == Ok(if k == |os| then Null else os[k])
    ensures k < |os| ==> RtNext(cur, ord).Ok? && SeqView(RtNext(cur, ord).value, ord) == Some(os[k + 1..])
  {
    CursorMoves(cur, os[k..], ord);
    if k < |os| {
      assert os[k..][1..] == os[k + 1..];
    }
  }

  /** One element read by the `Vec` visitor: the cursor moves on, the element joins the result. */
  lemma VisitSeqStep(cur: Obj, t: Schema, acc: seq<Value>, v: Value, ord: IterOrder)
    requires RtFirst(cur, ord).Ok? && RtFirst(cur, ord).value != Null && Decode(RtFirst(cur, ord).value, t, ord) == Ok(v)
    ensures RtNext(cur, ord).Ok?
    ensures VisitSeq(cur, t, acc, ord) == VisitSeq(RtNext(cur, ord).value, t, acc + [v], ord)
  {
  }

  /** An element of a sequence encodes to something other than nil and reads back as iterated. */
  lemma ElementRoundTrip(xs: seq<Value>, k: nat, t: Schema, ord: IterOrder)
    requires forall i :: 0 <= i < |xs| ==> Conforms(xs[i], t)
    requires ElementsRecoverable(xs) && k < |xs|
    ensures Encode(xs[k]) != Null && Decode(Encode(xs[k]), t, ord) == Ok(AsIterated(xs[k], ord))
    decreases xs, 0, 0
  {
    EncodesNilExactly(xs[k]);
    RoundTrip(xs[k], t, ord);
  }

  /** An item of a tuple encodes to something other than nil and reads back as iterated. */
  lemma ItemRoundTrip(xs: seq<Value>, ts: seq<Schema>, k: nat, ord: IterOrder)
    requires AllConform(xs, ts) && ElementsRecoverable(xs) && k < |xs|
    ensures Encode(xs[k]) != Null && Decode(Encode(xs[k]), ts[k], ord) == Ok(AsIterated(xs[k], ord))
    decreases xs, 0, 0
  {
    EncodesNilExactly(xs[k]);
    RoundTrip(xs[k], ts[k], ord);
  }

  /** Key and value of a map entry each read back as iterated. */
  lemma EntryRoundTrip(e: (Value, Value), kt: Schema, vt: Schema, ord: IterOrder)
    requires Conforms(e.0, kt) && Conforms(e.1, vt) && Recoverable(e.0) && Recoverable(e.1)
    ensures Decode(Encode(e.0), kt, ord) == Ok(AsIterated(e.0, ord))
    ensures Decode(Encode(e.1), vt, ord) == Ok(AsIterated(e.1, ord))
    decreases e
  {
    RoundTrip(e.0, kt, ord);
    RoundTrip(e.1, vt, ord);
  }

  /** The value of a struct field reads back as iterated, as the field's declared type. */
  lemma FieldRoundTrip(vf: seq<(string, Value)>, fs: seq<(string, Schema)>, i: nat, ord: IterOrder)
    requires FieldsConform(vf, fs) && FieldsRecoverable(vf) && i < |vf|
    ensures Decode(Encode(vf[i].1), fs[i].1, ord) == Ok(FieldsAsIterated(vf, ord)[i].1)
    decreases vf, 0, 0
  {
    assert vf[i] in vf && vf[i].1 < vf[i];
    assert fs[i] in fs && fs[i].1 < fs[i];
    RoundTrip(vf[i].1, fs[i].1, ord);
  }

  /** The `Vec` visitor reads back the elements from position `k` on. */
  lemma {:induction false} SeqRoundTrip(cur: Obj, xs: seq<Value>, t: Schema, k: nat, ord: IterOrder)
    requires forall i :: 0 <= i < |xs| ==> Conforms(xs[i], t)
    requires ElementsRecoverable(xs)
    requires k <= |xs| && SeqView(cur, ord) == Some(EncodeAll(xs)[k..])
    ensures VisitSeq(cur, t, AllAsIterated(xs, ord)[..k], ord) == Ok(SeqOf(AllAsIterated(xs, ord)))
    decreases xs, 0, |xs| - k
  {
    var os := EncodeAll(xs);
    var ws := AllAsIterated(xs, ord);
    CursorStep(cur, os, k, ord);
    if k == |xs| {
      assert ws[..k] == ws;
    } else {
      ElementRoundTrip(xs, k, t, ord);
      VisitSeqStep(cur, t, ws[..k], ws[k], ord);
      TakeOneMore(ws, k);
      SeqRoundTrip(RtNext(cur, ord).value, xs, t, k + 1, ord);
    }
  }

  /** The tuple visitor reads back the items from position `k` on. */
  lemma {:induction false} TupleRoundTrip(cur: Obj, xs: seq<Value>, ts: seq<Schema>, k: nat, ord: IterOrder)
    requires AllConform(xs, ts) && ElementsRecoverable(xs)
    requires k <= |xs| && SeqView(cur, ord) == Some(EncodeAll(xs)[k..])
    ensures VisitTuple(cur, ts, k, AllAsIterated(xs, ord)[..k], ord) == Ok(AllAsIterated(xs, ord))
    decreases xs, 0, |xs| - k
  {
    var os := EncodeAll(xs);
    var ws := AllAsIterated(xs, ord);
    CursorStep(cur, os, k, ord);
    if k == |xs| {
      assert ws[..k] == ws;
    } else {
      ItemRoundTrip(xs, ts, k, ord);
      TakeOneMore(ws, k);
      TupleRoundTrip(RtNext(cur, ord).value, xs, ts, k + 1, ord);
    }
  }

  /** The map visitor, walking the entries in the host's order, reads back those from position `i` on. */
  lemma {:induction false} MapEntriesRoundTrip(es: seq<(Value, Value)>, kt: Schema, vt: Schema, i: nat, ord: IterOrder)
    requires forall j :: 0 <= j < |es| ==> Conforms(es[j].0, kt) && Conforms(es[j].1, vt)
    requires EntriesRecoverable(es)
    requires i <= |es|
    ensures VisitMap(KeysOf(Visited(EncodeEntries(es), ord)), ValuesOf(Visited(EncodeEntries(es), ord)), kt, vt, i,
                     IteratedEntries(es, ord)[..i], ord)
         == Ok(MapOf(IteratedEntries(es, ord)))
    decreases es, 0, |es| - i
  {
    if i == |es| {
      assert IteratedEntries(es, ord)[..i] == IteratedEntries(es, ord);
    } else {
      EntryStep(es, kt, vt, i, ord);
      MapEntriesRoundTrip(es, kt, vt, i + 1, ord);
    }
  }

  /** The `i`-th entry the host visits is read back as the entry it encodes, as iterated. */
  lemma EntryStep(es: seq<(Value, Value)>, kt: Schema, vt: Schema, i: nat, ord: IterOrder)
    requires forall j :: 0 <= j < |es| ==> Conforms(es[j].0, kt) && Conforms(es[j].1, vt)
    requires EntriesRecoverable(es) && i < |es|
    ensures VisitMap(KeysOf(Visited(EncodeEntries(es), ord)), ValuesOf(Visited(EncodeEntries(es), ord)), kt, vt, i,
                     IteratedEntries(es, ord)[..i], ord)
         == VisitMap(KeysOf(Visited(EncodeEntries(es), ord)), ValuesOf(Visited(EncodeEntries(es), ord)), kt, vt, i + 1,
                     IteratedEntries(es, ord)[..i + 1], ord)
    decreases es, 0, 0
  {
    var ps := EncodeEntries(es);
    var gs := IteratedEntries(es, ord);
    var j := OrderOf(ps, ord)[i];
    assert Visited(ps, ord)[i] == ps[j];
    assert KeysOf(Visited(ps, ord))[i] == Encode(es[j].0) && ValuesOf(Visited(ps, ord))[i] == Encode(es[j].1);
    assert es[j] in es && es[j].0 < es[j] && es[j].1 < es[j];
    EntryRoundTrip(es[j], kt, vt, ord);
    assert gs[i] == (AsIterated(es[j].0, ord), AsIterated(es[j].1, ord));
    VisitMapStep(KeysOf(Visited(ps, ord)), ValuesOf(Visited(ps, ord)), kt, vt, i, gs[..i], gs[i], ord);
    TakeOneMore(gs, i);
  }

  /** One entry read by the map visitor: key, then value, then the visitor moves on. */
  lemma VisitMapStep(keys: seq<Obj>, vals: seq<Obj>, kt: Schema, vt: Schema, i: nat, acc: seq<(Value, Value)>,
                     e: (Value, Value), ord: IterOrder)
    requires |keys| == |vals| && i < |keys| && |acc| == i
    requires Decode(keys[i], kt, ord) == Ok(e.0) && Decode(vals[i], vt, ord) == Ok(e.1)
    ensures VisitMap(keys, vals, kt, vt, i, acc, ord) == VisitMap(keys, vals, kt, vt, i + 1, acc + [e], ord)
  {
  }

  /**
   * A map whose keys encode to distinct objects is read back by the map
   * visitor with its entries in the host's order: the same entries, each as
   * iterated, in some order.
   */
  lemma MapRoundTrip(es: seq<(Value, Value)>, kt: Schema, vt: Schema, ord: IterOrder)
    requires forall j :: 0 <= j < |es| ==> Conforms(es[j].0, kt) && Conforms(es[j].1, vt)
    requires EntriesRecoverable(es) && DistinctKeys(EncodeEntries(es)) && KeysPlain(es)
    ensures Decode(Encode(MapOf(es)), MapS(kt, vt), ord) == Ok(MapOf(IteratedEntries(es, ord)))
    ensures multiset(IteratedEntries(es, ord)) == multiset(EntriesAsIterated(es, ord))
    decreases es, 1
  {
    assert IteratedEntries(es, ord)[..0] == [];
    MapEntriesRoundTrip(es, kt, vt, 0, ord);
    EncodeMapOf(es);
    HashMapOfDistinct(EncodeEntries(es));
    DecodeAsMap(EncodeEntries(es), kt, vt, ord);
    PermuteMultiset(EntriesAsIterated(es, ord), OrderOf(EncodeEntries(es), ord));
  }

  /** A map of map-free keys and values comes back with exactly its entries, in the host's order. */
  lemma FlatMapRoundTrip(es: seq<(Value, Value)>, kt: Schema, vt: Schema, ord: IterOrder)
    requires forall j :: 0 <= j < |es| ==> Conforms(es[j].0, kt) && Conforms(es[j].1, vt)
    requires forall j :: 0 <= j < |es| ==> MapFree(es[j].0) && MapFree(es[j].1)
    requires EntriesRecoverable(es) && DistinctKeys(EncodeEntries(es)) && KeysPlain(es)
    ensures Decode(Encode(MapOf(es)), MapS(kt, vt), ord).Ok?
    ensures var r := Decode(Encode(MapOf(es)), MapS(kt, vt), ord).value;
            r.MapOf? && multiset(r.entries) == multiset(es)
  {
    MapRoundTrip(es, kt, vt, ord);
    EntriesUnchanged(es, ord);
  }

  /**
   * Which fields the struct visitor has read after the first `i` keys it
   * visits, when it visits field `p[m]` `m`-th.
   */
  function SeenAfter(gf: seq<(string, Value)>, p: seq<nat>, i: nat): (seen: seq<Option<Value>>)
    requires i <= |p|
    ensures |seen| == |gf|
    ensures forall j :: 0 <= j < |gf| ==> seen[j] == if j in p[..i] then Some(gf[j].1) else None
  {
    seq(|gf|, j requires 0 <= j < |gf| => if j in p[..i] then Some(gf[j].1) else None)
  }

  /** The values read back for a struct's fields have the fields' declared types. */
  lemma FieldsReadConform(vf: seq<(string, Value)>, fs: seq<(string, Schema)>, ord: IterOrder)
    requires FieldsConform(vf, fs) && FieldsRecoverable(vf)
    ensures FieldsConform(FieldsAsIterated(vf, ord), fs)
    decreases vf, 0, 1
  {
    var gf := FieldsAsIterated(vf, ord);
    forall j | 0 <= j < |fs|
      ensures gf[j].0 == fs[j].0 && Conforms(gf[j].1, fs[j].1)
    {
      FieldRoundTrip(vf, fs, j, ord);
    }
  }

  /** One field read by the struct visitor: its value is recorded, the visitor moves on. */
  lemma VisitStructStep(keys: seq<Obj>, vals: seq<Obj>, fs: seq<(string, Schema)>, i: nat, seen: seq<Option<Value>>,
                        j: nat, v: Value, ord: IterOrder)
    requires |keys| == |vals| && i < |keys| && SeenConform(fs, seen)
    requires DeserializeString(keys[i]).Ok? && NameIndex(fs, DeserializeString(keys[i]).value) == Some(j)
    requires seen[j].None? && Decode(vals[i], fs[j].1, ord) == Ok(v)
    ensures SeenConform(fs, seen[j := Some(v)])
    ensures VisitStruct(keys, vals, fs, i, seen, ord) == VisitStruct(keys, vals, fs, i + 1, seen[j := Some(v)], ord)
  {
  }

  /** Fields with distinct names: the field named like the `i`-th is the `i`-th. */
  lemma FieldAt(vf: seq<(string, Value)>, fs: seq<(string, Schema)>, i: nat)
    requires FieldsConform(vf, fs) && DistinctNames(vf) && i < |vf|
    ensures NameIndex(fs, vf[i].0) == Some(i)
  {
    forall j | 0 <= j < i
      ensures fs[j].0 != vf[i].0
    {
      assert fs[j].0 == vf[j].0;
    }
  }

  /** Whatever the visitor has read so far has the fields' declared types. */
  lemma SeenAfterConforms(gf: seq<(string, Value)>, fs: seq<(string, Schema)>, p: seq<nat>, i: nat)
    requires FieldsConform(gf, fs) && i <= |p|
    ensures SeenConform(fs, SeenAfter(gf, p, i))
  {
    var seen := SeenAfter(gf, p, i);
    forall j | 0 <= j < |fs| && seen[j].Some?
      ensures Conforms(seen[j].value, fs[j].1)
    {
      assert fs[j] in fs && fs[j].1 < fs[j];
    }
  }

  /** Once every key is read, every field has been seen. */
  lemma SeenAfterAll(gf: seq<(string, Value)>, p: seq<nat>)
    requires IsPermutation(p, |gf|)
    ensures forall j :: 0 <= j < |gf| ==> SeenAfter(gf, p, |p|)[j] == Some(gf[j].1)
  {
    assert p[..|p|] == p;
    forall j | 0 <= j < |gf|
      ensures j in p[..|p|]
    {
    }
  }

  /**
   * The struct visitor, having read the first `i` keys in the host's order,
   * reads back the rest; each field lands in its declared place.
   */
  lemma {:induction false} FieldsRoundTrip(vf: seq<(string, Value)>, fs: seq<(string, Schema)>, i: nat, ord: IterOrder)
    requires FieldsConform(vf, fs) && FieldsRecoverable(vf) && FieldsConform(FieldsAsIterated(vf, ord), fs)
    requires i <= |vf|
    ensures SeenConform(fs, SeenAfter(FieldsAsIterated(vf, ord), OrderOf(EncodeFields(vf), ord), i))
    ensures VisitStruct(KeysOf(Visited(EncodeFields(vf), ord)), ValuesOf(Visited(EncodeFields(vf), ord)), fs, i,
                        SeenAfter(FieldsAsIterated(vf, ord), OrderOf(EncodeFields(vf), ord), i), ord)
         == Ok(FieldsAsIterated(vf, ord))
    decreases vf, 0, |vf| - i + 1
  {
    var ps := EncodeFields(vf);
    var p := OrderOf(ps, ord);
    var gf := FieldsAsIterated(vf, ord);
    var seen := SeenAfter(gf, p, i);
    SeenAfterConforms(gf, fs, p, i);
    if i == |vf| {
      SeenAfterAll(gf, p);
      FinishAllSeen(gf, fs, seen, 0);
    } else {
      FieldStep(vf, fs, i, ord);
      FieldsRoundTrip(vf, fs, i + 1, ord);
    }
  }

  /**
   * The `i`-th key the host visits names a field not seen before; its value
   * is read back as iterated and recorded in the field's declared place.
   */
  lemma FieldStep(vf: seq<(string, Value)>, fs: seq<(string, Schema)>, i: nat, ord: IterOrder)
    requires FieldsConform(vf, fs) && FieldsRecoverable(vf) && FieldsConform(FieldsAsIterated(vf, ord), fs)
    requires i < |vf|
    ensures SeenConform(fs, SeenAfter(FieldsAsIterated(vf, ord), OrderOf(EncodeFields(vf), ord), i))
    ensures VisitStruct(KeysOf(Visited(EncodeFields(vf), ord)), ValuesOf(Visited(EncodeFields(vf), ord)), fs, i,
                        SeenAfter(FieldsAsIterated(vf, ord), OrderOf(EncodeFields(vf), ord), i), ord)
         == VisitStruct(KeysOf(Visited(EncodeFields(vf), ord)), ValuesOf(Visited(EncodeFields(vf), ord)), fs, i + 1,
                        SeenAfter(FieldsAsIterated(vf, ord), OrderOf(EncodeFields(vf), ord), i + 1), ord)
    decreases vf, 0, 1
  {
    var ps := EncodeFields(vf);
    var p := OrderOf(ps, ord);
    var gf := FieldsAsIterated(vf, ord);
    var keys := KeysOf(Visited(ps, ord));
    var vals := ValuesOf(Visited(ps, ord));
    var seen := SeenAfter(gf, p, i);
    var j := p[i];
    SeenAfterConforms(gf, fs, p, i);
    VisitedField(vf, fs, i, ord);
    FieldRoundTrip(vf, fs, j, ord);
    SeenAfterStep(gf, p, i);
    VisitStructStep(keys, vals, fs, i, seen, j, gf[j].1, ord);
  }

  /** The `i`-th entry the host visits is the keyword and the encoded value of the field it names. */
  lemma VisitedField(vf: seq<(string, Value)>, fs: seq<(string, Schema)>, i: nat, ord: IterOrder)
    requires FieldsConform(vf, fs) && DistinctNames(vf) && i < |vf|
    requires forall k :: 0 <= k < |vf| ==> Unqualified(vf[k].0)
    ensures var j := OrderOf(EncodeFields(vf), ord)[i];
            DeserializeString(KeysOf(Visited(EncodeFields(vf), ord))[i]) == Ok(vf[j].0)
            && NameIndex(fs, vf[j].0) == Some(j)
            && ValuesOf(Visited(EncodeFields(vf), ord))[i] == Encode(vf[j].1)
  {
    var ps := EncodeFields(vf);
    var j := OrderOf(ps, ord)[i];
    assert Visited(ps, ord)[i] == ps[j];
    assert DeserializeString(Keyword(vf[j].0)) == Ok(vf[j].0);
    FieldAt(vf, fs, j);
  }

  /** The field visited `i`-th has not been seen before, and is seen after. */
  lemma SeenAfterStep(gf: seq<(string, Value)>, p: seq<nat>, i: nat)
    requires IsPermutation(p, |gf|) && i < |p|
    ensures SeenAfter(gf, p, i)[p[i]] == None
    ensures SeenAfter(gf, p, i)[p[i] := Some(gf[p[i]].1)] == SeenAfter(gf, p, i + 1)
  {
    var j := p[i];
    assert j !in p[..i] by {
      forall m | 0 <= m < i
        ensures p[m] != j
      {
      }
    }
    assert p[..i + 1] == p[..i] + [j];
  }

  /** With every field seen, the end of the struct visitor lists them in declared order. */
  lemma {:induction false} FinishAllSeen(gf: seq<(string, Value)>, fs: seq<(string, Schema)>, seen: seq<Option<Value>>,
                                         j: nat)
    requires FieldsConform(gf, fs) && j <= |gf| && SeenConform(fs, seen)
    requires forall m :: 0 <= m < |gf| ==> seen[m] == Some(gf[m].1)
    ensures FinishStruct(fs, seen, j, gf[..j]) == Ok(gf)
    decreases |gf| - j
  {
    if j == |gf| {
      assert gf[..j] == gf;
    } else {
      assert gf[j] == (fs[j].0, gf[j].1);
      TakeOneMore(gf, j);
      FinishAllSeen(gf, fs, seen, j + 1);
    }
  }

  /**
   * A struct is read back by the struct visitor over its map, whatever
   * order the host visits the map in: its fields in declared order, each
   * value as iterated.
   */
  lemma StructRoundTrip(vf: seq<(string, Value)>, fs: seq<(string, Schema)>, ord: IterOrder)
    requires FieldsConform(vf, fs) && FieldsRecoverable(vf)
    ensures Decode(Encode(Struct(vf)), StructS(fs), ord) == Ok(Struct(FieldsAsIterated(vf, ord)))
    decreases vf, 1
  {
    var ps := EncodeFields(vf);
    var gf := FieldsAsIterated(vf, ord);
    FieldsDistinctKeys(vf);
    EncodeStructOf(vf);
    HashMapOfDistinct(ps);
    FieldsReadConform(vf, fs, ord);
    FieldsRoundTrip(vf, fs, 0, ord);
    assert SeenAfter(gf, OrderOf(ps, ord), 0) == NoneSeen(|fs|);
    DecodeAsStruct(ps, fs, gf, ord);
  }

  /** Fields with distinct names encode to entries with distinct keys. */
  lemma FieldsDistinctKeys(vf: seq<(string, Value)>)
    requires DistinctNames(vf)
    ensures DistinctKeys(EncodeFields(vf))
  {
  }

  /** A variant the enum declares, with a payload of its shape, is read back by the variant access. */
  lemma EnumRoundTrip(v: Value, vs: seq<(string, VariantShape)>, ord: IterOrder)
    requires VariantConforms(v, vs) && Recoverable(v)
    ensures Decode(Encode(v), EnumS(vs), ord) == Ok(AsIterated(v, ord))
    decreases v, 0
  {
    DecodeAsEnum(Encode(v), vs, ord);
    var i := NameIndex(vs, v.variant).value;
    assert vs[i] in vs && vs[i].1 < vs[i];
    match v
    case UnitVariant(n) =>
      EncodeUnitVariant(n);
      DecodeKeywordVariant(n, vs, i, ord);
    case NewtypeVariant(n, x) => NewtypeVariantRoundTrip(n, x, vs, i, ord);
    case TupleVariant(n, xs) => TupleVariantRoundTrip(n, xs, vs, i, ord);
    case StructVariant(n, vf) => StructVariantRoundTrip(n, vf, vs, i, ord);
  }

  lemma NewtypeVariantRoundTrip(n: string, x: Value, vs: seq<(string, VariantShape)>, i: nat, ord: IterOrder)
    requires NameIndex(vs, n) == Some(i) && vs[i].1.NewtypeShape? && Unqualified(n)
    requires Conforms(x, vs[i].1.payload) && Recoverable(x)
    ensures DecodeEnum(Encode(NewtypeVariant(n, x)), vs, ord) == Ok(NewtypeVariant(n, AsIterated(x, ord)))
    decreases x, 2
  {
    RoundTrip(x, vs[i].1.payload, ord);
    VisitNewtypeVariant(n, Encode(x), vs, i, AsIterated(x, ord), ord);
    EncodeNewtypeVariant(n, x);
    DecodeVariantMap(n, Encode(x), vs, ord);
  }

  lemma TupleVariantRoundTrip(n: string, xs: seq<Value>, vs: seq<(string, VariantShape)>, i: nat, ord: IterOrder)
    requires NameIndex(vs, n) == Some(i) && vs[i].1.TupleShape? && Unqualified(n)
    requires AllConform(xs, vs[i].1.items) && ElementsRecoverable(xs)
    ensures DecodeEnum(Encode(TupleVariant(n, xs)), vs, ord) == Ok(TupleVariant(n, AllAsIterated(xs, ord)))
    decreases xs, 1
  {
    var os := EncodeAll(xs);
    assert os[0..] == os;
    assert AllAsIterated(xs, ord)[..0] == [];
    TupleRoundTrip(Vector(os), xs, vs[i].1.items, 0, ord);
    VisitTupleVariant(n, Vector(os), vs, i, AllAsIterated(xs, ord), ord);
    EncodeTupleVariant(n, xs);
    DecodeVariantMap(n, Vector(os), vs, ord);
  }

  lemma StructVariantRoundTrip(n: string, vf: seq<(string, Value)>, vs: seq<(string, VariantShape)>, i: nat, ord: IterOrder)
    requires NameIndex(vs, n) == Some(i) && vs[i].1.StructShape? && Unqualified(n)
    requires FieldsConform(vf, vs[i].1.fields) && FieldsRecoverable(vf)
    ensures DecodeEnum(Encode(StructVariant(n, vf)), vs, ord) == Ok(StructVariant(n, FieldsAsIterated(vf, ord)))
    decreases vf, 1
  {
    var fs := vs[i].1.fields;
    var ps := EncodeFields(vf);
    var gf := FieldsAsIterated(vf, ord);
    FieldsDistinctKeys(vf);
    HashMapOfDistinct(ps);
    FieldsReadConform(vf, fs, ord);
    FieldsRoundTrip(vf, fs, 0, ord);
    assert SeenAfter(gf, OrderOf(ps, ord), 0) == NoneSeen(|fs|);
    VisitStructVariant(n, ps, vs, i, gf, ord);
    EncodeStructVariant(n, vf);
    DecodeVariantMap(n, HashMap(ps), vs, ord);
  }
}
