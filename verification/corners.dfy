/**
 * The lossy corners of the codec, each shown for every input it covers:
 * what comes back when a value outside `RoundTrip.Recoverable` is encoded
 * and decoded against its own shape, what a map with repeated keys comes
 * back as, and an input the decoder refuses.
 */
module Corners {
  import opened Host
  import opened Errors
  import opened Convert
  import opened Builder
  import opened DataModel
  import opened Ser
  import opened De
  import opened SeqFacts
  import opened Steps
  import opened RoundTrip

  /**
   * A `u64` from 2^63 up is boxed as a negative Long: read back as a `u64`
   * it is an invalid value, read as an `i64` it is the wrapped number.
   */
  lemma U64Wraps(x: u64, ord: IterOrder)
    requires x as int >= 0x8000_0000_0000_0000
    ensures Decode(Encode(U64(x)), Scalar(U64K), ord) == Err(InvalidValue)
    ensures Decode(Encode(U64(x)), Scalar(I64K), ord) == Ok(I64((x as int - 0x1_0000_0000_0000_0000) as i64))
  {
    var o := Encode(U64(x));
    assert o == Long(U64AsI64(x));
    DecodeAsScalar(o, U64K, ord);
    DecodeAsScalar(o, I64K, ord);
    WrappedLongReads(x);
  }

  /** The scalar readers over the Long that a `u64` from 2^63 up is boxed as. */
  lemma WrappedLongReads(x: u64)
    requires x as int >= 0x8000_0000_0000_0000
    ensures DecodeScalar(Long(U64AsI64(x)), U64K) == Err(InvalidValue)
    ensures DecodeScalar(Long(U64AsI64(x)), I64K) == Ok(I64((x as int - 0x1_0000_0000_0000_0000) as i64))
  {
    var o := Long(U64AsI64(x));
    FirstProbeReads(o, I64Order, ExpectedInteger);
    assert FirstProbe(o, I64Order, ExpectedInteger) == Ok(JLong(U64AsI64(x)));
  }

  /**
   * `deserialize_char` as written refuses every non-ASCII character, which
   * the serializer writes as a one-character string.
   */
  lemma NonAsciiCharRefused(c: char, ord: IterOrder)
    requires c as int >= 0x80
    ensures Decode(Encode(Char(c)), Scalar(CharK), ord) == Err(ExpectedChar)
  {
    assert Encode(Char(c)) == JString([c]);
    DecodeAsScalar(JString([c]), CharK, ord);
  }

  /** The corrected `deserialize_char` reads every character back from its one-character string. */
  lemma CharRoundTrip(c: char)
    ensures DeserializeChar(Encode(Char(c))) == Ok(Char(c))
  {
    assert Encode(Char(c)) == JString([c]);
  }

  /** `Some` of a value that encodes to nil comes back as `None`. */
  lemma SomeOfNilIsNone(x: Value, t: Schema, ord: IterOrder)
    requires EncodesNil(x)
    ensures Decode(Encode(OptSome(x)), OptionS(t), ord) == Ok(OptNone)
  {
    EncodesNilExactly(x);
    EncodeOptSome(x);
  }

  /**
   * The `Vec` visitor stops at the first element that encodes to nil:
   * from position `k` on, it reads back the elements before `m` only.
   */
  lemma {:induction false} SeqStopsAtNil(cur: Obj, xs: seq<Value>, t: Schema, k: nat, m: nat, ord: IterOrder)
    requires m < |xs| && EncodesNil(xs[m])
    requires forall i :: 0 <= i < m ==> Conforms(xs[i], t) && Recoverable(xs[i]) && !EncodesNil(xs[i])
    requires k <= m && SeqView(cur, ord) == Some(EncodeAll(xs)[k..])
    ensures VisitSeq(cur, t, AllAsIterated(xs, ord)[..k], ord) == Ok(SeqOf(AllAsIterated(xs, ord)[..m]))
    decreases m - k
  {
    var os := EncodeAll(xs);
    var ws := AllAsIterated(xs, ord);
    CursorStep(cur, os, k, ord);
    if k == m {
      EncodesNilExactly(xs[m]);
    } else {
      PrefixElementRoundTrip(xs, t, k, m, ord);
      VisitSeqStep(cur, t, ws[..k], ws[k], ord);
      TakeOneMore(ws, k);
      SeqStopsAtNil(RtNext(cur, ord).value, xs, t, k + 1, m, ord);
    }
  }

  /** An element before the first one that encodes to nil reads back as iterated. */
  lemma PrefixElementRoundTrip(xs: seq<Value>, t: Schema, k: nat, m: nat, ord: IterOrder)
    requires k < m < |xs|
    requires forall i :: 0 <= i < m ==> Conforms(xs[i], t) && Recoverable(xs[i]) && !EncodesNil(xs[i])
    ensures Encode(xs[k]) != Null && Decode(Encode(xs[k]), t, ord) == Ok(AllAsIterated(xs, ord)[k])
  {
    EncodesNilExactly(xs[k]);
    RoundTrip.RoundTrip(xs[k], t, ord);
  }

  /** A sequence whose element `m` is the first to encode to nil comes back cut before it. */
  lemma SeqTruncatedAtNil(xs: seq<Value>, t: Schema, m: nat, ord: IterOrder)
    requires m < |xs| && EncodesNil(xs[m])
    requires forall i :: 0 <= i < m ==> Conforms(xs[i], t) && Recoverable(xs[i]) && !EncodesNil(xs[i])
    ensures Decode(Encode(SeqOf(xs)), SeqS(t), ord) == Ok(SeqOf(AllAsIterated(xs, ord)[..m]))
  {
    var os := EncodeAll(xs);
    assert os[0..] == os;
    assert AllAsIterated(xs, ord)[..0] == [];
    SeqStopsAtNil(Vector(os), xs, t, 0, m, ord);
    EncodeSeqOf(xs);
    DecodeAsSeq(Vector(os), t, ord);
  }

  /**
   * The tuple visitor finds no element where an item encodes to nil: from
   * position `k` on, the tuple comes out short, an invalid length `m`.
   */
  lemma {:induction false} TupleStopsAtNil(cur: Obj, xs: seq<Value>, ts: seq<Schema>, k: nat, m: nat, ord: IterOrder)
    requires |xs| == |ts| && m < |xs| && EncodesNil(xs[m])
    requires forall i :: 0 <= i < m ==> Conforms(xs[i], ts[i]) && Recoverable(xs[i]) && !EncodesNil(xs[i])
    requires k <= m && SeqView(cur, ord) == Some(EncodeAll(xs)[k..])
    ensures VisitTuple(cur, ts, k, AllAsIterated(xs, ord)[..k], ord) == Err(InvalidLength(m))
    decreases m - k
  {
    var os := EncodeAll(xs);
    var ws := AllAsIterated(xs, ord);
    CursorStep(cur, os, k, ord);
    if k == m {
      EncodesNilExactly(xs[m]);
    } else {
      EncodesNilExactly(xs[k]);
      RoundTrip.RoundTrip(xs[k], ts[k], ord);
      TakeOneMore(ws, k);
      TupleStopsAtNil(RtNext(cur, ord).value, xs, ts, k + 1, m, ord);
    }
  }

  /** A tuple whose item `m` is the first to encode to nil is refused as too short. */
  lemma TupleShortAtNil(xs: seq<Value>, ts: seq<Schema>, m: nat, ord: IterOrder)
    requires |xs| == |ts| && m < |xs| && EncodesNil(xs[m])
    requires forall i :: 0 <= i < m ==> Conforms(xs[i], ts[i]) && Recoverable(xs[i]) && !EncodesNil(xs[i])
    ensures Decode(Encode(Tuple(xs)), TupleS(ts), ord) == Err(InvalidLength(m))
  {
    var os := EncodeAll(xs);
    assert os[0..] == os;
    assert AllAsIterated(xs, ord)[..0] == [];
    TupleStopsAtNil(Vector(os), xs, ts, 0, m, ord);
    EncodeTuple(xs);
  }

  /**
   * Two entries whose keys encode to the same object collapse into one
   * entry of the host map, so the map never comes back as it was.
   */
  lemma CollidingKeysCollapse(es: seq<(Value, Value)>, kt: Schema, vt: Schema, i: nat, j: nat, ord: IterOrder)
    requires i < j < |es| && Encode(es[i].0) == Encode(es[j].0) && PlainKey(es[i].0)
    ensures |Encode(MapOf(es)).entries| < |es|
    ensures Decode(Encode(MapOf(es)), MapS(kt, vt), ord) != Ok(MapOf(es))
  {
    var ps := EncodeEntries(es);
    assert ps[i].0 == ps[j].0;
    AssocAllShrinks(ps, i, j);
    EncodeMapOf(es);
    DecodeAsMap(AssocAll(ps), kt, vt, ord);
  }

  /** Map-free keys that read back as themselves encode to different objects when they differ. */
  lemma KeyEncodingInjective(es: seq<(Value, Value)>, kt: Schema)
    requires forall j :: 0 <= j < |es| ==> Conforms(es[j].0, kt) && MapFree(es[j].0)
    requires EntriesRecoverable(es)
    ensures forall i, j :: 0 <= i < |es| && 0 <= j < |es| && Encode(es[i].0) == Encode(es[j].0) ==> es[i].0 == es[j].0
  {
    forall i, j | 0 <= i < |es| && 0 <= j < |es| && Encode(es[i].0) == Encode(es[j].0)
      ensures es[i].0 == es[j].0
    {
      ExactRoundTrip(es[i].0, kt, map[]);
      ExactRoundTrip(es[j].0, kt, map[]);
    }
  }

  /** The entries of a map, encoded, split like the map. */
  lemma EncodeEntriesAppend(a: seq<(Value, Value)>, b: seq<(Value, Value)>)
    ensures EncodeEntries(a + b) == EncodeEntries(a) + EncodeEntries(b)
  {
    var ab := a + b;
    forall i | 0 <= i < |ab|
      ensures EncodeEntries(ab)[i] == (EncodeEntries(a) + EncodeEntries(b))[i]
    {
      if i < |a| {
        assert ab[i] == a[i];
      } else {
        assert ab[i] == b[i - |a|];
      }
    }
  }

  /**
   * Associating an encoded pair into encoded entries is encoding the pair
   * associated into the entries, when no other key encodes like its key.
   */
  lemma {:induction false} AssocEncoded(entries: seq<(Value, Value)>, k: Value, v: Value)
    requires forall i :: 0 <= i < |entries| && Encode(entries[i].0) == Encode(k) ==> entries[i].0 == k
    ensures Assoc(EncodeEntries(entries), Encode(k), Encode(v)) == EncodeEntries(Assoc(entries, k, v))
  {
    if entries != [] {
      var rest := entries[1..];
      assert entries == [entries[0]] + rest;
      EncodeEntriesAppend([entries[0]], rest);
      if entries[0].0 == k {
        EncodeEntriesAppend([(k, v)], rest);
      } else {
        assert EncodeEntries(entries)[0].0 != Encode(k);
        AssocEncoded(rest, k, v);
        EncodeEntriesAppend([entries[0]], Assoc(rest, k, v));
      }
    }
  }

  /** Associating encoded pairs is encoding the associated pairs, when keys encode injectively. */
  lemma {:induction false} AssocAllEncoded(es: seq<(Value, Value)>)
    requires forall i, j :: 0 <= i < |es| && 0 <= j < |es| && Encode(es[i].0) == Encode(es[j].0) ==> es[i].0 == es[j].0
    ensures AssocAll(EncodeEntries(es)) == EncodeEntries(AssocAll(es))
  {
    if es != [] {
      var n := |es|;
      var init := es[..n - 1];
      var (k, v) := es[n - 1];
      assert es == init + [(k, v)];
      EncodeEntriesAppend(init, [(k, v)]);
      assert EncodeEntries(es)[..n - 1] == EncodeEntries(init);
      AssocAllEncoded(init);
      AssociatedKeysInjective(es);
      AssocEncoded(AssocAll(init), k, v);
    }
  }

  /** No key left after associating all but the last pair encodes like the last key unless it is that key. */
  lemma AssociatedKeysInjective(es: seq<(Value, Value)>)
    requires es != []
    requires forall i, j :: 0 <= i < |es| && 0 <= j < |es| && Encode(es[i].0) == Encode(es[j].0) ==> es[i].0 == es[j].0
    ensures var b := AssocAll(es[..|es| - 1]);
            forall i :: 0 <= i < |b| && Encode(b[i].0) == Encode(es[|es| - 1].0) ==> b[i].0 == es[|es| - 1].0
  {
    var init := es[..|es| - 1];
    var b := AssocAll(init);
    AssocAllFrom(init);
    forall i | 0 <= i < |b| && Encode(b[i].0) == Encode(es[|es| - 1].0)
      ensures b[i].0 == es[|es| - 1].0
    {
      assert b[i] in init;
      var j :| 0 <= j < |init| && init[j] == b[i];
      assert es[j] == init[j];
    }
  }

  /**
   * A map whose keys repeat comes back with one entry per distinct key,
   * holding the value of that key's last entry as iterated:
   * `PersistentHashMap.create` lets a later pair overwrite an earlier one,
   * whatever order the host then visits the entries in.
   */
  lemma RepeatedKeysKeepLastValue(es: seq<(Value, Value)>, kt: Schema, vt: Schema, ord: IterOrder)
    requires forall j :: 0 <= j < |es| ==> Conforms(es[j].0, kt) && Conforms(es[j].1, vt) && MapFree(es[j].0)
    requires EntriesRecoverable(es) && KeysPlain(es)
    ensures Decode(Encode(MapOf(es)), MapS(kt, vt), ord).Ok?
    ensures var r := Decode(Encode(MapOf(es)), MapS(kt, vt), ord).value;
            r.MapOf? && DistinctKeys(r.entries)
            && (forall k :: Builder.Lookup(r.entries, k).Some? <==> LastValue(es, k).Some?)
            && (forall k :: LastValue(es, k).Some? ==>
                  Builder.Lookup(r.entries, k) == Some(AsIterated(LastValue(es, k).value, ord)))
  {
    var b := AssocAll(es);
    LastEntriesRecoverable(es, kt, vt);
    LastKeysPlain(es);
    MapRoundTrip(b, kt, vt, ord);
    var g := EntriesAsIterated(b, ord);
    var p := OrderOf(EncodeEntries(b), ord);
    assert IteratedEntries(b, ord) == Permute(g, p);
    IteratedKeysDistinct(b, ord);
    PermuteDistinct(g, p);
    forall k
      ensures Builder.Lookup(Permute(g, p), k).Some? <==> LastValue(es, k).Some?
      ensures LastValue(es, k).Some? ==> Builder.Lookup(Permute(g, p), k) == Some(AsIterated(LastValue(es, k).value, ord))
    {
      LookupPermute(g, p, k);
      LookupAsIterated(b, k, ord);
      AssocAllLastWins(es, k);
    }
  }

  /** Entries with distinct map-free keys keep their keys, and so stay distinct, as iterated. */
  lemma IteratedKeysDistinct(b: seq<(Value, Value)>, ord: IterOrder)
    requires forall i :: 0 <= i < |b| ==> MapFree(b[i].0)
    requires DistinctKeys(b)
    ensures DistinctKeys(EntriesAsIterated(b, ord))
  {
    forall i | 0 <= i < |b|
      ensures EntriesAsIterated(b, ord)[i].0 == b[i].0
    {
      MapFreeUnchanged(b[i].0, ord);
    }
  }

  /** With map-free keys, a key is bound as iterated exactly when it is bound, to its value as iterated. */
  lemma {:induction false} LookupAsIterated(b: seq<(Value, Value)>, k: Value, ord: IterOrder)
    requires forall i :: 0 <= i < |b| ==> MapFree(b[i].0)
    ensures Builder.Lookup(EntriesAsIterated(b, ord), k).Some? <==> Builder.Lookup(b, k).Some?
    ensures Builder.Lookup(b, k).Some? ==>
              Builder.Lookup(EntriesAsIterated(b, ord), k) == Some(AsIterated(Builder.Lookup(b, k).value, ord))
  {
    if b != [] {
      var g := EntriesAsIterated(b, ord);
      MapFreeUnchanged(b[0].0, ord);
      assert g[0] == (b[0].0, AsIterated(b[0].1, ord));
      assert g[1..] == EntriesAsIterated(b[1..], ord);
      LookupAsIterated(b[1..], k, ord);
    }
  }

  /**
   * The entries left once repeated keys are associated away encode to the
   * same host map, with distinct keys, and read back like the original ones.
   */
  lemma LastEntriesRecoverable(es: seq<(Value, Value)>, kt: Schema, vt: Schema)
    requires forall j :: 0 <= j < |es| ==> Conforms(es[j].0, kt) && Conforms(es[j].1, vt) && MapFree(es[j].0)
    requires EntriesRecoverable(es)
    ensures Encode(MapOf(AssocAll(es))) == Encode(MapOf(es))
    ensures DistinctKeys(EncodeEntries(AssocAll(es))) && EntriesRecoverable(AssocAll(es))
    ensures forall j :: 0 <= j < |AssocAll(es)| ==>
              Conforms(AssocAll(es)[j].0, kt) && Conforms(AssocAll(es)[j].1, vt) && MapFree(AssocAll(es)[j].0)
  {
    KeyEncodingInjective(es, kt);
    AssocAllSameMap(es);
    LastEntriesConform(es, kt, vt);
  }

  /** When keys encode injectively, associating the entries first builds the same host map. */
  lemma AssocAllSameMap(es: seq<(Value, Value)>)
    requires forall i, j :: 0 <= i < |es| && 0 <= j < |es| && Encode(es[i].0) == Encode(es[j].0) ==> es[i].0 == es[j].0
    ensures Encode(MapOf(AssocAll(es))) == Encode(MapOf(es))
    ensures DistinctKeys(EncodeEntries(AssocAll(es)))
  {
    var b := AssocAll(es);
    AssocAllEncoded(es);
    assert HashMapOf(EncodeEntries(es)) == HashMap(EncodeEntries(b));
    HashMapOfDistinct(EncodeEntries(b));
    EncodeMapOf(es);
    EncodeMapOf(b);
  }

  /** The entries left once repeated keys are associated away are entries of the map. */
  lemma LastEntriesConform(es: seq<(Value, Value)>, kt: Schema, vt: Schema)
    requires forall j :: 0 <= j < |es| ==> Conforms(es[j].0, kt) && Conforms(es[j].1, vt) && MapFree(es[j].0)
    requires EntriesRecoverable(es)
    ensures EntriesRecoverable(AssocAll(es))
    ensures forall j :: 0 <= j < |AssocAll(es)| ==>
              Conforms(AssocAll(es)[j].0, kt) && Conforms(AssocAll(es)[j].1, vt) && MapFree(AssocAll(es)[j].0)
  {
    var b := AssocAll(es);
    AssocAllFrom(es);
    forall i | 0 <= i < |b|
      ensures Conforms(b[i].0, kt) && Conforms(b[i].1, vt) && MapFree(b[i].0)
      ensures Recoverable(b[i].0) && Recoverable(b[i].1)
    {
      assert b[i] in es;
      var j :| 0 <= j < |es| && es[j] == b[i];
      assert es[j] in es && es[j].0 < es[j] && es[j].1 < es[j];
    }
  }

  /** Associating keeps only keys of the pairs, so no float or byte array enters a key. */
  lemma LastKeysPlain(es: seq<(Value, Value)>)
    requires KeysPlain(es)
    ensures KeysPlain(AssocAll(es))
  {
    var b := AssocAll(es);
    AssocAllFrom(es);
    forall i | 0 <= i < |b|
      ensures PlainKey(b[i].0)
    {
      assert b[i] in es;
      var j :| 0 <= j < |es| && es[j] == b[i];
    }
  }

  /**
   * A struct map with a key that reads as a name no field has is refused,
   * whatever else it holds and whatever order the host visits it in: the
   * derived visitor skips an unknown field's value with
   * `deserialize_ignored_any`, which this deserializer does not support,
   * unless an earlier key has already failed.
   */
  lemma UnknownFieldRefused(ps: seq<(Obj, Obj)>, fs: seq<(string, Schema)>, k: nat, ord: IterOrder)
    requires k < |ps| && DeserializeString(ps[k].0).Ok?
    requires NameIndex(fs, DeserializeString(ps[k].0).value).None?
    ensures Decode(HashMap(ps), StructS(fs), ord).Err?
  {
    var p := OrderOf(ps, ord);
    var vis := Visited(ps, ord);
    assert k in p;
    var m :| 0 <= m < |p| && p[m] == k;
    assert KeysOf(vis)[m] == ps[k].0;
    VisitStructRefuses(KeysOf(vis), ValuesOf(vis), fs, 0, NoneSeen(|fs|), m, ord);
    StructOfMap(ps, fs, ord);
    DecodeIsStruct(HashMap(ps), fs, ord);
  }

  /** The struct visitor, from key `i` on, fails at the latest on key `m`, which names no field. */
  lemma {:induction false} VisitStructRefuses(keys: seq<Obj>, vals: seq<Obj>, fs: seq<(string, Schema)>, i: nat,
                                              seen: seq<Option<Value>>, m: nat, ord: IterOrder)
    requires |keys| == |vals| && i <= m < |keys| && SeenConform(fs, seen)
    requires DeserializeString(keys[m]).Ok? && NameIndex(fs, DeserializeString(keys[m]).value).None?
    ensures VisitStruct(keys, vals, fs, i, seen, ord).Err?
    decreases |keys| - i
  {
    var name := DeserializeString(keys[i]);
    if i == m {
      assert VisitStruct(keys, vals, fs, i, seen, ord) == Err(DeserializeAnyNotSupported);
    } else if name.Ok? && NameIndex(fs, name.value).Some? {
      var j := NameIndex(fs, name.value).value;
      if seen[j].None? {
        assert fs[j] in fs && fs[j].1 < fs[j];
        var v := Decode(vals[i], fs[j].1, ord);
        if v.Ok? {
          var seen' := seen[j := Some(v.value)];
          assert SeenConform(fs, seen');
          assert VisitStruct(keys, vals, fs, i, seen, ord) == VisitStruct(keys, vals, fs, i + 1, seen', ord);
          VisitStructRefuses(keys, vals, fs, i + 1, seen', m, ord);
        }
      }
    }
  }

  /**
   * A struct with a field whose name has a namespace, such as "user/id", is
   * refused when what follows the slash names no field: the field's key is
   * the keyword `:user/id`, whose `getName` is "id".
   */
  lemma NamespacedFieldRefused(vf: seq<(string, Value)>, fs: seq<(string, Schema)>, k: nat, ord: IterOrder)
    requires k < |vf| && NameIndex(fs, KeywordName(vf[k].0)).None?
    ensures Decode(Encode(Struct(vf)), StructS(fs), ord).Err?
  {
    var ps := EncodeFields(vf);
    EncodeStructOf(vf);
    AssocAllKeys(ps);
    assert HasKey(AssocAll(ps), ps[k].0);
    var m :| 0 <= m < |AssocAll(ps)| && AssocAll(ps)[m].0 == ps[k].0;
    UnknownFieldRefused(AssocAll(ps), fs, m, ord);
  }

  /** A field renamed "user/id" does not come back, whatever its type and value. */
  lemma UserIdRefused(v: Value, t: Schema, ord: IterOrder)
    ensures Decode(Encode(Struct([("user/id", v)])), StructS([("user/id", t)]), ord).Err?
  {
    assert KeywordName("user/id") == "id";
    NamespacedFieldRefused([("user/id", v)], [("user/id", t)], 0, ord);
  }

  /**
   * A variant whose name has a namespace is read back under what follows
   * the slash, so it is an unknown variant unless the enum also declares
   * that shorter name.
   */
  lemma NamespacedVariantRefused(v: Value, vs: seq<(string, VariantShape)>, ord: IterOrder)
    requires v.UnitVariant? || v.NewtypeVariant? || v.TupleVariant? || v.StructVariant?
    requires NameIndex(vs, KeywordName(v.variant)).None?
    ensures Decode(Encode(v), EnumS(vs), ord) == Err(UnknownVariant(KeywordName(v.variant)))
  {
    DecodeAsEnum(Encode(v), vs, ord);
    match v
    case UnitVariant(n) => EncodeUnitVariant(n);
    case NewtypeVariant(n, x) =>
      EncodeNewtypeVariant(n, x);
      DecodeVariantMap(n, Encode(x), vs, ord);
    case TupleVariant(n, xs) =>
      EncodeTupleVariant(n, xs);
      DecodeVariantMap(n, Vector(EncodeAll(xs)), vs, ord);
    case StructVariant(n, vf) =>
      EncodeStructVariant(n, vf);
      DecodeVariantMap(n, HashMapOf(EncodeFields(vf)), vs, ord);
  }

}
