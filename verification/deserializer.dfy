/**
 * The deserializer of src/de.rs as it runs: the `Deserializer` methods, the
 * `Seq` access whose cursor is moved on by every element read, and the
 * `Map` access that advances a key iterator and a value iterator in
 * lock-step, driven by serde's visitors. Each is proved to give what the
 * corresponding function of `De` describes.
 */
module Deserializer {
  import opened Host
  import opened Errors
  import opened Convert
  import opened DataModel
  import opened De

  /** The `Seq` access: a cursor over what `RT.seq` walks for the object. */
  class SeqAccess {
    var cursor: Obj

    constructor (o: Obj)
      ensures cursor == o
    {
      cursor := o;
    }

    /**
     * `next_element_seed`: `RT.first` of the cursor; nil ends the sequence
     * and leaves the cursor where it is; otherwise the cursor moves to
     * `RT.next` and the head is deserialized as `t`.
     */
    method NextElement(t: Schema, ord: IterOrder) returns (r: Result<Option<Value>>)
      modifies this
      ensures RtFirst(old(cursor), ord).Err? ==> r == Err(HostCallFailure) && cursor == old(cursor)
      ensures RtFirst(old(cursor), ord) == Ok(Null) ==> r == Ok(None) && cursor == old(cursor)
      ensures RtFirst(old(cursor), ord).Ok? && RtFirst(old(cursor), ord).value != Null ==>
                cursor == RtNext(old(cursor), ord).value
                && r == match Decode(RtFirst(old(cursor), ord).value, t, ord)
                        case Ok(v) => Ok(Some(v))
                        case Err(e) => Err(e)
      decreases t, 4
    {
      var first :- RtFirst(cursor, ord);
      if first == Null {
        return Ok(None);
      }
      cursor := RtNext(cursor, ord).value;  // cannot fail: the cursor is seqable here
      var v :- Deserialize(first, t, ord);
      r := Ok(Some(v));
    }
  }

  /** The `Map` access: the key and value iterators of one map. */
  class MapAccess {
    const keys: HostIterator
    const vals: HostIterator

    ghost predicate Valid()
      reads this, keys, vals
    {
      keys != vals && keys.Valid() && vals.Valid()
    }

    constructor (keys: HostIterator, vals: HostIterator)
      requires keys != vals && keys.Valid() && vals.Valid()
      ensures this.keys == keys && this.vals == vals && Valid()
    {
      this.keys := keys;
      this.vals := vals;
    }

    /** `next_key`: nothing once the key iterator has no next element; otherwise that element. */
    method NextKey() returns (r: Result<Option<Obj>>)
      requires Valid()
      modifies keys
      ensures Valid()
      ensures old(keys.pos) == |keys.items| ==> r == Ok(None) && keys.pos == old(keys.pos)
      ensures old(keys.pos) < |keys.items| ==> r == Ok(Some(keys.items[old(keys.pos)])) && keys.pos == old(keys.pos) + 1
    {
      var more := keys.HasNext();
      if !more {
        return Ok(None);
      }
      var key := keys.Next();
      r := Ok(Some(key.value));  // cannot fail: `hasNext()` said there is one
    }

    /** `next_val`: the value iterator's next element; an exhausted iterator throws. */
    method NextVal() returns (r: Result<Obj>)
      requires Valid()
      modifies vals
      ensures Valid()
      ensures old(vals.pos) == |vals.items| ==> r == Err(HostCallFailure) && vals.pos == old(vals.pos)
      ensures old(vals.pos) < |vals.items| ==> r == Ok(vals.items[old(vals.pos)]) && vals.pos == old(vals.pos) + 1
    {
      r := vals.Next();
    }

    /** `next_key_seed`: the next key, if any, deserialized as `kt`. */
    method NextKeySeed(kt: Schema, ord: IterOrder) returns (r: Result<Option<Value>>)
      requires Valid()
      modifies keys
      ensures Valid()
      ensures old(keys.pos) == |keys.items| ==> r == Ok(None) && keys.pos == old(keys.pos)
      ensures old(keys.pos) < |keys.items| ==>
                keys.pos == old(keys.pos) + 1
                && r == match Decode(keys.items[old(keys.pos)], kt, ord)
                        case Ok(k) => Ok(Some(k))
                        case Err(e) => Err(e)
      decreases kt, 4
    {
      var key := NextKey();
      if key.value.None? {
        return Ok(None);
      }
      var k :- Deserialize(key.value.value, kt, ord);
      r := Ok(Some(k));
    }

    /** `next_value_seed`: the next value deserialized as `vt`. */
    method NextValueSeed(vt: Schema, ord: IterOrder) returns (r: Result<Value>)
      requires Valid()
      modifies vals
      ensures Valid()
      ensures old(vals.pos) == |vals.items| ==> r == Err(HostCallFailure) && vals.pos == old(vals.pos)
      ensures old(vals.pos) < |vals.items| ==>
                r == Decode(vals.items[old(vals.pos)], vt, ord) && vals.pos == old(vals.pos) + 1
      decreases vt, 4
    {
      var val :- NextVal();
      r := Deserialize(val, vt, ord);
    }
  }

  /**
   * `from_object`: the `Deserializer` method for the requested shape, with
   * the visitor that shape's `Deserialize` implementation passes it.
   */
  method Deserialize(o: Obj, s: Schema, ord: IterOrder) returns (r: Result<Value>)
    ensures r == Decode(o, s, ord)
    decreases s, 3
  {
    match s
    case Scalar(k) => r := DecodeScalar(o, k);
    case OptionS(t) =>
      if o == Null {
        r := Ok(OptNone);
      } else {
        var v :- Deserialize(o, t, ord);
        r := Ok(OptSome(v));
      }
    case UnitS => r := if o == Null then Ok(Unit) else Err(ExpectedNull);
    case NewtypeS(t) =>
      var v :- Deserialize(o, t, ord);
      r := Ok(Newtype(v));
    case SeqS(t) => r := VisitSeqAccess(o, t, ord);
    case TupleS(ts) =>
      var xs :- VisitTupleAccess(o, ts, ord);
      r := Ok(Tuple(xs));
    case MapS(kt, vt) => r := DeserializeMap(o, kt, vt, ord);
    case StructS(fs) => r := DeserializeStruct(o, fs, ord);
    case EnumS(vs) => r := DeserializeEnum(o, vs, ord);
    case AnyS => r := Err(DeserializeAnyNotSupported);
  }

  /** `deserialize_seq` with serde's `Vec` visitor: elements until the access yields none. */
  method VisitSeqAccess(o: Obj, t: Schema, ord: IterOrder) returns (r: Result<Value>)
    ensures r == VisitSeq(o, t, [], ord)
    decreases SeqS(t), 2
  {
    var access := new SeqAccess(o);
    var acc: seq<Value> := [];
    while true
      invariant VisitSeq(access.cursor, t, acc, ord) == VisitSeq(o, t, [], ord)
      decreases Remaining(access.cursor)
    {
      var e := access.NextElement(t, ord);
      if e.Err? {
        return Err(e.error);
      }
      if e.value.None? {
        return Ok(SeqOf(acc));
      }
      acc := acc + [e.value.value];
    }
  }

  /**
   * `deserialize_tuple` with serde's tuple visitor: exactly `|ts|`
   * elements, the k-th as `ts[k]`; an access that runs out first is an
   * invalid length.
   */
  method VisitTupleAccess(o: Obj, ts: seq<Schema>, ord: IterOrder) returns (r: Result<seq<Value>>)
    ensures r == VisitTuple(o, ts, 0, [], ord)
    decreases ts, 5
  {
    var access := new SeqAccess(o);
    var acc: seq<Value> := [];
    for k := 0 to |ts|
      invariant |acc| == k
      invariant VisitTuple(access.cursor, ts, k, acc, ord) == VisitTuple(o, ts, 0, [], ord)
    {
      var e := access.NextElement(ts[k], ord);
      if e.Err? {
        return Err(e.error);
      }
      if e.value.None? {
        return Err(InvalidLength(k));
      }
      acc := acc + [e.value.value];
    }
    r := Ok(acc);
  }

  /** `deserialize_map` with serde's map visitor over the map's `Map` access; anything else is not a map. */
  method DeserializeMap(o: Obj, kt: Schema, vt: Schema, ord: IterOrder) returns (r: Result<Value>)
    ensures r == DecodeMap(o, kt, vt, ord)
    decreases MapS(kt, vt), 2
  {
    var iters :- MapToIters(o, ord);
    if iters.None? {
      return Err(ExpectedMap);
    }
    var access := new MapAccess(iters.value.0, iters.value.1);
    r := VisitMapAccess(access, kt, vt, ord);
  }

  /** serde's map visitor over a `Map` access: a key, then its value, until the keys run out. */
  method VisitMapAccess(access: MapAccess, kt: Schema, vt: Schema, ord: IterOrder) returns (r: Result<Value>)
    requires access.Valid() && access.keys.pos == 0 && access.vals.pos == 0
    requires |access.keys.items| == |access.vals.items|
    modifies access.keys, access.vals
    ensures r == VisitMap(access.keys.items, access.vals.items, kt, vt, 0, [], ord)
    decreases MapS(kt, vt), 1
  {
    var acc: seq<(Value, Value)> := [];
    while true
      invariant access.Valid()
      invariant access.keys.pos == access.vals.pos == |acc| <= |access.keys.items|
      invariant VisitMap(access.keys.items, access.vals.items, kt, vt, |acc|, acc, ord)
             == VisitMap(access.keys.items, access.vals.items, kt, vt, 0, [], ord)
      decreases |access.keys.items| - |acc|
    {
      var k := access.NextKeySeed(kt, ord);
      if k.Err? {
        return Err(k.error);
      }
      if k.value.None? {
        return Ok(MapOf(acc));
      }
      var v := access.NextValueSeed(vt, ord);
      if v.Err? {
        return Err(v.error);
      }
      acc := acc + [(k.value.value, v.value)];
    }
  }

  /** `deserialize_struct`: `deserialize_map` with the derived struct visitor. */
  method DeserializeStruct(o: Obj, fs: seq<(string, Schema)>, ord: IterOrder) returns (r: Result<Value>)
    ensures r == DecodeStruct(o, fs, ord)
    decreases fs, 6
  {
    var iters :- MapToIters(o, ord);
    if iters.None? {
      return Err(ExpectedMap);
    }
    var access := new MapAccess(iters.value.0, iters.value.1);
    var fields :- VisitStructAccess(access, fs, ord);
    r := Ok(Struct(fields));
  }

  /**
   * The derived struct visitor over a `Map` access: each key is read as a
   * field identifier (`deserialize_identifier`), a known field's value as
   * the field's type; an unknown field's value would be skipped through
   * `deserialize_ignored_any`, which is refused; a repeated field is a
   * duplicate. Once the keys run out, the fields are assembled.
   */
  method VisitStructAccess(access: MapAccess, fs: seq<(string, Schema)>, ord: IterOrder)
    returns (r: Result<seq<(string, Value)>>)
    requires access.Valid() && access.keys.pos == 0 && access.vals.pos == 0
    requires |access.keys.items| == |access.vals.items|
    modifies access.keys, access.vals
    ensures r == VisitStruct(access.keys.items, access.vals.items, fs, 0, NoneSeen(|fs|), ord)
    decreases fs, 5
  {
    var seen := NoneSeen(|fs|);
    while true
      invariant access.Valid()
      invariant access.keys.pos == access.vals.pos <= |access.keys.items|
      invariant SeenConform(fs, seen)
      invariant VisitStruct(access.keys.items, access.vals.items, fs, access.keys.pos, seen, ord)
             == VisitStruct(access.keys.items, access.vals.items, fs, 0, NoneSeen(|fs|), ord)
      decreases |access.keys.items| - access.keys.pos
    {
      var key := access.NextKey();
      if key.value.None? {
        return FinishStruct(fs, seen, 0, []);
      }
      var name :- DeserializeString(key.value.value);
      match NameIndex(fs, name)
      case None =>
        return Err(DeserializeAnyNotSupported);
      case Some(j) =>
        if seen[j].Some? {
          return Err(DuplicateField(name));
        }
        assert fs[j] in fs && fs[j].1 < fs[j];
        var v :- access.NextValueSeed(fs[j].1, ord);
        seen := seen[j := Some(v)];
    }
  }

  /**
   * `deserialize_enum`: a keyword goes to serde's string enum access, which
   * has only unit variants; a map goes to the `Map` access as `EnumAccess`;
   * anything else is not a map.
   */
  method DeserializeEnum(o: Obj, vs: seq<(string, VariantShape)>, ord: IterOrder) returns (r: Result<Value>)
    ensures r == DecodeEnum(o, vs, ord)
    decreases vs, 6
  {
    var kw :- DecodeKeyword(o);
    if kw.Some? {
      match NameIndex(vs, kw.value)
      case None =>
        return Err(UnknownVariant(kw.value));
      case Some(i) =>
        return if vs[i].1.UnitShape? then Ok(UnitVariant(kw.value)) else Err(InvalidType);
    }
    var iters := MapToIters(o, ord);  // cannot fail: `o` is not nil here
    if iters.value.None? {
      return Err(ExpectedMap);
    }
    var access := new MapAccess(iters.value.value.0, iters.value.value.1);
    r := VariantSeed(access, vs, ord);
  }

  /**
   * `variant_seed`, then the `VariantAccess` method the named variant's
   * shape calls: the map's first key names the variant, its first value is
   * the payload.
   */
  method VariantSeed(access: MapAccess, vs: seq<(string, VariantShape)>, ord: IterOrder) returns (r: Result<Value>)
    requires access.Valid() && access.keys.pos == 0 && access.vals.pos == 0
    requires |access.keys.items| == |access.vals.items|
    modifies access.keys, access.vals
    ensures |access.keys.items| == 0 ==> r == Err(ExpectedMap)
    ensures |access.keys.items| > 0 ==>
              r == (var name :- DeserializeString(access.keys.items[0]);
                    VisitVariant(name, access.vals.items[0], vs, ord))
    decreases vs, 5
  {
    var key := access.NextKey();
    if key.value.None? {
      return Err(ExpectedMap);
    }
    var name :- DeserializeString(key.value.value);
    match NameIndex(vs, name)
    case None =>
      r := Err(UnknownVariant(name));
    case Some(i) =>
      assert vs[i] in vs && vs[i].1 < vs[i];
      match vs[i].1
      case UnitShape =>
        r := Err(ExpectedKeyword);
      case NewtypeShape(t) =>
        var v :- access.NextValueSeed(t, ord);
        r := Ok(NewtypeVariant(name, v));
      case TupleShape(ts) =>
        var payload := access.NextVal();
        var xs :- VisitTupleAccess(payload.value, ts, ord);
        r := Ok(TupleVariant(name, xs));
      case StructShape(fs) =>
        var payload := access.NextVal();
        var inner :- MapToIters(payload.value, ord);
        if inner.None? {
          return Err(ExpectedMap);
        }
        var fieldAccess := new MapAccess(inner.value.0, inner.value.1);
        var fields :- VisitStructAccess(fieldAccess, fs, ord);
        r := Ok(StructVariant(name, fields));
  }
}
