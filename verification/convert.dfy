/**
 * The primitive conversions of src/convert.rs: boxing a JNI value
 * (`Encoder::to_boxed`), interning keywords (`Encoder::get_keyword`), and the
 * decoder's probes, which test an object against one host class and unbox it
 * (`decode_bool` … `decode_f64`, `decode_string`, `decode_bytes`,
 * `decode_keyword`, `map_to_iters`), together with the two Clojure runtime
 * calls the sequence reader makes (`RT.first`, `RT.next`).
 */
module Convert {
  import opened SeqFacts
  import opened Host
  import opened Errors

  /** A JNI `JValue`: an object reference, one of Java's primitives, or void. */
  datatype JValue =
    | JObject(o: Obj)
    | JBool(z: bool)
    | JByte(b: i8)
    | JChar(c: u16)
    | JShort(s: i16)
    | JInt(i: i32)
    | JLong(j: i64)
    | JFloat(f: Float32)
    | JDouble(d: Float64)
    | JVoid

  /** The eight box classes java.lang.Boolean … java.lang.Character. */
  datatype BoxKind = BooleanBox | ByteBox | CharacterBox | ShortBox | IntegerBox | LongBox | FloatBox | DoubleBox

  /** The host classes the decoder tests objects against. */
  datatype HostClass =
    | BoxClass(kind: BoxKind)
    | StringClass
    | KeywordClass
    | ByteArrayClass
    | PersistentVectorClass
    | PersistentHashMapClass
    | IMapIterableClass

  /**
   * JNI's `IsInstanceOf`. A null reference can be cast to any class, so it
   * passes every test; a PersistentHashMap is also an IMapIterable.
   */
  function IsInstanceOf(o: Obj, c: HostClass): (b: bool)
    ensures o == Null ==> b
    ensures o.ISeq? ==> !b
    ensures o.HashMap? ==> (b <==> c == PersistentHashMapClass || c == IMapIterableClass)
    ensures b && o != Null ==> (c == StringClass <==> o.JString?) && (c == KeywordClass <==> o.Keyword?)
                               && (c == ByteArrayClass <==> o.ByteArray?) && (c == PersistentVectorClass <==> o.Vector?)
                               && (c.BoxClass? <==> !(o.JString? || o.Keyword? || o.ByteArray? || o.Vector? || o.HashMap?))
  {
    match o
    case Null => true
    case Boolean(_) => c == BoxClass(BooleanBox)
    case Byte(_) => c == BoxClass(ByteBox)
    case Short(_) => c == BoxClass(ShortBox)
    case Integer(_) => c == BoxClass(IntegerBox)
    case Long(_) => c == BoxClass(LongBox)
    case Float(_) => c == BoxClass(FloatBox)
    case Double(_) => c == BoxClass(DoubleBox)
    case Character(_) => c == BoxClass(CharacterBox)
    case JString(_) => c == StringClass
    case Keyword(_) => c == KeywordClass
    case ByteArray(_) => c == ByteArrayClass
    case Vector(_) => c == PersistentVectorClass
    case ISeq(_) => false
    case HashMap(_) => c == PersistentHashMapClass || c == IMapIterableClass
  }

  /** A JNI value of one of Java's primitive types. */
  predicate IsPrimitive(v: JValue) {
    !v.JObject? && !v.JVoid?
  }

  /** The box class that holds a primitive of `v`'s type. */
  function BoxKindOf(v: JValue): BoxKind
    requires IsPrimitive(v)
  {
    match v
    case JBool(_) => BooleanBox
    case JByte(_) => ByteBox
    case JChar(_) => CharacterBox
    case JShort(_) => ShortBox
    case JInt(_) => IntegerBox
    case JLong(_) => LongBox
    case JFloat(_) => FloatBox
    case JDouble(_) => DoubleBox
  }

  /**
   * `Encoder::to_boxed`: a primitive goes through the `valueOf` of its own
   * box class, an object passes through unchanged, and void becomes null.
   */
  function ToBoxed(v: JValue): (o: Obj)
    ensures v.JObject? ==> o == v.o
    ensures v.JVoid? ==> o == Null
    ensures IsPrimitive(v) ==> IsBox(o) && Unboxed(o) == v
  {
    match v
    case JObject(x) => x
    case JBool(z) => Boolean(z)
    case JByte(b) => Byte(b)
    case JChar(c) => Character(c)
    case JShort(s) => Short(s)
    case JInt(i) => Integer(i)
    case JLong(j) => Long(j)
    case JFloat(f) => Float(f)
    case JDouble(d) => Double(d)
    case JVoid => Null
  }

  /** A boxed primitive. */
  predicate IsBox(o: Obj) {
    o.Boolean? || o.Byte? || o.Short? || o.Integer? || o.Long? || o.Float? || o.Double? || o.Character?
  }

  /** What the unboxing accessor (`booleanValue`, `byteValue`, …) returns. */
  function Unboxed(o: Obj): JValue
    requires IsBox(o)
  {
    match o
    case Boolean(z) => JBool(z)
    case Byte(b) => JByte(b)
    case Short(s) => JShort(s)
    case Integer(i) => JInt(i)
    case Long(j) => JLong(j)
    case Float(f) => JFloat(f)
    case Double(d) => JDouble(d)
    case Character(c) => JChar(c)
  }

  /**
   * The `decode!` probes: test `o` against the box class of kind `k`, and if
   * it passes, call the unboxing accessor. `Some` exactly for a box of that
   * kind, and then boxing the result gives `o` back; `None` for every other
   * non-null object. A null reference passes the test and the accessor call
   * on it fails.
   */
  function Unbox(o: Obj, k: BoxKind): (r: Result<Option<JValue>>)
    ensures r.Err? <==> o == Null
    ensures r.Err? ==> r.error == HostCallFailure
    ensures (r.Ok? && r.value.Some?) <==> (o != Null && IsInstanceOf(o, BoxClass(k)))
    ensures r.Ok? && r.value.Some? ==>
              (IsPrimitive(r.value.value) && BoxKindOf(r.value.value) == k && ToBoxed(r.value.value) == o)
  {
    if !IsInstanceOf(o, BoxClass(k)) then Ok(None)
    else if o == Null then Err(HostCallFailure)
    else Ok(Some(Unboxed(o)))
  }

  /**
   * Boxing a primitive and probing the result: the probe of its own kind
   * gives the primitive back, every other probe says `None`.
   */
  lemma BoxThenUnbox(v: JValue, k: BoxKind)
    requires IsPrimitive(v)
    ensures Unbox(ToBoxed(v), k) == if k == BoxKindOf(v) then Ok(Some(v)) else Ok(None)
  {
  }

  /** `decode_string`: `Some` with the text exactly for a java.lang.String. */
  function DecodeString(o: Obj): (r: Result<Option<string>>)
    ensures r.Err? <==> o == Null
    ensures r.Err? ==> r.error == HostCallFailure
    ensures (r.Ok? && r.value.Some?) <==> o.JString?
    ensures o.JString? ==> r.value.value == o.str
  {
    if !IsInstanceOf(o, StringClass) then Ok(None)
    else if o == Null then Err(HostCallFailure)
    else Ok(Some(o.str))
  }

  /** `decode_bytes`: `Some` with the contents exactly for a byte[]. */
  function DecodeBytes(o: Obj): (r: Result<Option<seq<bv8>>>)
    ensures r.Err? <==> o == Null
    ensures r.Err? ==> r.error == HostCallFailure
    ensures (r.Ok? && r.value.Some?) <==> o.ByteArray?
    ensures o.ByteArray? ==> r.value.value == o.bytes
  {
    if !IsInstanceOf(o, ByteArrayClass) then Ok(None)
    else if o == Null then Err(HostCallFailure)
    else Ok(Some(o.bytes))
  }

  /** The text is the qualified-name separator itself, or holds no '/': `Symbol.intern` gives it no namespace. */
  predicate Unqualified(s: string) {
    s == "/" || '/' !in s
  }

  /** What follows the first '/' of `s`. */
  function AfterSlash(s: string): (n: string)
    requires '/' in s
    ensures |n| < |s| && n == s[|s| - |n|..] && s[|s| - |n| - 1] == '/'
  {
    if s[0] == '/' then s[1..] else AfterSlash(s[1..])
  }

  /**
   * `getName` of the keyword interned from `s`: `Symbol.intern` splits `s`
   * at its first '/' into a namespace and a name, unless `s` is "/" or
   * holds no '/'; the name is what follows the slash.
   */
  function KeywordName(s: string): string {
    if Unqualified(s) then s else AfterSlash(s)
  }

  /** A keyword's name is the whole text it was interned from exactly when that has no namespace. */
  lemma NameKept(s: string)
    ensures KeywordName(s) == s <==> Unqualified(s)
  {
  }

  /** `decode_keyword`: `Some` with the keyword's name (`getName`) exactly for a Keyword. */
  function DecodeKeyword(o: Obj): (r: Result<Option<string>>)
    ensures r.Err? <==> o == Null
    ensures r.Err? ==> r.error == HostCallFailure
    ensures (r.Ok? && r.value.Some?) <==> o.Keyword?
    ensures o.Keyword? ==> r.value.value == KeywordName(o.sym)
  {
    if !IsInstanceOf(o, KeywordClass) then Ok(None)
    else if o == Null then Err(HostCallFailure)
    else Ok(Some(KeywordName(o.sym)))
  }

  /**
   * `decode_keyword` as its callers evidently mean it: the keyword's whole
   * text, namespace included (`toString` without the leading colon), which
   * agrees with `getName` on every keyword without a namespace.
   */
  function DecodeQualifiedKeyword(o: Obj): (r: Result<Option<string>>)
    ensures r.Err? <==> o == Null
    ensures (r.Ok? && r.value.Some?) <==> o.Keyword?
    ensures o.Keyword? ==> r.value.value == o.sym
    ensures !o.Keyword? || Unqualified(o.sym) ==> r == DecodeKeyword(o)
  {
    NameKept(if o.Keyword? then o.sym else "");
    if !IsInstanceOf(o, KeywordClass) then Ok(None)
    else if o == Null then Err(HostCallFailure)
    else Ok(Some(o.sym))
  }

  /** `Encoder::get_keyword`: `Keyword.intern(name)`, a keyword and never nil or a string. */
  function GetKeyword(name: string): (o: Obj)
    ensures o.Keyword? && o.sym == name
  {
    Keyword(name)
  }

  /**
   * An interned keyword is read back by the keyword probe as the part of
   * its text after the first '/', so as the text itself exactly when that
   * has no namespace; the string probe says `None` for it.
   */
  lemma KeywordReadsBack(name: string)
    ensures DecodeKeyword(GetKeyword(name)) == Ok(Some(KeywordName(name)))
    ensures DecodeKeyword(GetKeyword(name)) == Ok(Some(name)) <==> Unqualified(name)
    ensures DecodeString(GetKeyword(name)) == Ok(None)
  {
    NameKept(name);
  }

  /** Read with its namespace, every interned keyword gives back the text it was interned from. */
  lemma QualifiedKeywordReadsBack(name: string)
    ensures DecodeQualifiedKeyword(GetKeyword(name)) == Ok(Some(name))
  {
  }

  /**
   * `map_to_iters`, as the sequences its two iterators will visit: `Some`
   * exactly for an IMapIterable, and then the key sequence and the value
   * sequence have one element per entry, the i-th key and i-th value
   * forming the entry the host visits i-th under `ord`.
   */
  function MapIters(o: Obj, ord: IterOrder): (r: Result<Option<(seq<Obj>, seq<Obj>)>>)
    ensures r.Err? <==> o == Null
    ensures r.Err? ==> r.error == HostCallFailure
    ensures (r.Ok? && r.value.Some?) <==> o.HashMap?
    ensures o.HashMap? ==> |r.value.value.0| == |r.value.value.1| == |o.entries|
    ensures o.HashMap? ==> forall i :: 0 <= i < |o.entries| ==>
                             (r.value.value.0[i], r.value.value.1[i]) == o.entries[OrderOf(o.entries, ord)[i]]
  {
    if !IsInstanceOf(o, IMapIterableClass) then Ok(None)
    else if o == Null then Err(HostCallFailure)
    else Ok(Some((KeysOf(Visited(o.entries, ord)), ValuesOf(Visited(o.entries, ord)))))
  }

  /** Java's `(byte)` view of an unsigned byte. */
  function SignedByte(b: bv8): (x: i8)
    ensures (x as int) % 0x100 == b as int
  {
    if b as int < 0x80 then b as int as i8 else (b as int - 0x100) as i8
  }

  /** The UTF-16 code units of a text, as a java.lang.String holds it. */
  function Utf16(s: string): (us: seq<u16>)
    ensures |us| >= |s|
  {
    if s == [] then []
    else
      var c := s[0] as int;
      (if c < 0x1_0000 then [c as u16]
       else [(0xD800 + (c - 0x1_0000) / 0x400) as u16, (0xDC00 + (c - 0x1_0000) % 0x400) as u16])
      + Utf16(s[1..])
  }

  function CharBoxes(us: seq<u16>): (os: seq<Obj>)
    ensures |os| == |us|
    ensures forall i :: 0 <= i < |us| ==> os[i] == Character(us[i])
  {
    if us == [] then [] else [Character(us[0])] + CharBoxes(us[1..])
  }

  function ByteBoxes(bs: seq<bv8>): (os: seq<Obj>)
    ensures |os| == |bs|
    ensures forall i :: 0 <= i < |bs| ==> os[i] == Byte(SignedByte(bs[i]))
  {
    if bs == [] then [] else [Byte(SignedByte(bs[0]))] + ByteBoxes(bs[1..])
  }

  /** A map's entries as `RT.seq` yields them: each a two-element MapEntry vector. */
  function EntryVectors(es: seq<(Obj, Obj)>): (os: seq<Obj>)
    ensures |os| == |es|
    ensures forall i :: 0 <= i < |es| ==> os[i] == Vector([es[i].0, es[i].1])
  {
    if es == [] then [] else [Vector([es[0].0, es[0].1])] + EntryVectors(es[1..])
  }

  /**
   * What `RT.seq` walks for `o`: nil is the empty sequence; vectors, seqs,
   * strings (their UTF-16 units, boxed), byte arrays and maps are seqable;
   * boxes and keywords are not (`RT.seq` throws for them). A map's entries
   * come in the order the host visits them.
   */
  function SeqView(o: Obj, ord: IterOrder): (r: Option<seq<Obj>>)
    ensures r.Some? <==> o.Null? || o.Vector? || o.ISeq? || o.JString? || o.ByteArray? || o.HashMap?
    ensures o.Null? ==> r == Some([])
    ensures o.JString? ==> |r.value| == |Utf16(o.str)|
    ensures o.ByteArray? ==> |r.value| == |o.bytes|
    ensures o.HashMap? ==> |r.value| == |o.entries|
  {
    match o
    case Null => Some([])
    case Vector(es) => Some(es)
    case ISeq(xs) => Some(xs)
    case JString(s) => Some(CharBoxes(Utf16(s)))
    case ByteArray(bs) => Some(ByteBoxes(bs))
    case HashMap(es) => Some(EntryVectors(Visited(es, ord)))
    case _ => None
  }

  /** `RT.seq` of a map meets each entry once, as a `[key value]` vector, whatever the host's order. */
  lemma MapSeqViewEntries(es: seq<(Obj, Obj)>, ord: IterOrder)
    ensures SeqView(HashMap(es), ord).Some?
    ensures multiset(SeqView(HashMap(es), ord).value) == multiset(EntryVectors(es))
  {
    var p := OrderOf(es, ord);
    EntryVectorsPermute(es, p);
    PermuteMultiset(EntryVectors(es), p);
  }

  /** Rearranging entries rearranges their vectors the same way. */
  lemma EntryVectorsPermute(es: seq<(Obj, Obj)>, p: seq<nat>)
    requires IsPermutation(p, |es|)
    ensures EntryVectors(Permute(es, p)) == Permute(EntryVectors(es), p)
  {
  }


  /** How many items a walk over `o` can still visit. */
  function Remaining(o: Obj): (n: nat)
    ensures forall ord :: SeqView(o, ord).Some? ==> n == |SeqView(o, ord).value|
  {
    match o
    case Vector(es) => |es|
    case ISeq(xs) => |xs|
    case JString(s) => |Utf16(s)|
    case ByteArray(bs) => |bs|
    case HashMap(es) => |es|
    case _ => 0
  }

  /** `RT.first`: the first item, or nil for an empty sequence; throws for a non-seqable object. */
  function RtFirst(o: Obj, ord: IterOrder): (r: Result<Obj>)
    ensures r.Err? <==> SeqView(o, ord).None?
    ensures r.Err? ==> r.error == HostCallFailure
    ensures r.Ok? && r.value != Null ==> Remaining(o) > 0
  {
    match SeqView(o, ord)
    case None => Err(HostCallFailure)
    case Some(xs) => Ok(if xs == [] then Null else xs[0])
  }

  /** `RT.next`: the rest after the first item, nil once nothing is left. */
  function RtNext(o: Obj, ord: IterOrder): (r: Result<Obj>)
    ensures r.Err? <==> SeqView(o, ord).None?
    ensures r.Err? ==> r.error == HostCallFailure
    ensures r.Ok? && Remaining(o) > 0 ==> Remaining(r.value) == Remaining(o) - 1
  {
    match SeqView(o, ord)
    case None => Err(HostCallFailure)
    case Some(xs) => Ok(if |xs| <= 1 then Null else ISeq(xs[1..]))
  }

  /** A walk over a cursor viewing `xs` reads `xs[0]` and moves to a cursor viewing the rest. */
  lemma CursorMoves(cur: Obj, xs: seq<Obj>, ord: IterOrder)
    requires SeqView(cur, ord) == Some(xs)
    ensures RtFirst(cur, ord) == Ok(if xs == [] then Null else xs[0])
    ensures xs != [] ==> RtNext(cur, ord).Ok? && SeqView(RtNext(cur, ord).value, ord) == Some(xs[1..])
  {
    if xs != [] {
      var next := if |xs| <= 1 then Null else ISeq(xs[1..]);
      assert RtNext(cur, ord) == Ok(next);
      if |xs| <= 1 {
        assert xs[1..] == [];
      } else {
        assert SeqView(ISeq(xs[1..]), ord) == Some(xs[1..]);
      }
    }
  }

  /** A walk over the items of a vector or seq visits exactly those items. */
  lemma {:induction false} WalkVisits(xs: seq<Obj>, k: nat, ord: IterOrder)
    requires k <= |xs|
    ensures RtFirst(ISeq(xs[k..]), ord) == Ok(if k == |xs| then Null else xs[k])
    ensures k < |xs| ==> RtNext(ISeq(xs[k..]), ord) == Ok(if k + 1 == |xs| then Null else ISeq(xs[k + 1..]))
  {
    if k < |xs| {
      assert xs[k..][1..] == xs[k + 1..];
    }
  }

  /** A java.util.Iterator over a fixed sequence of objects. */
  class HostIterator {
    const items: seq<Obj>
    var pos: nat

    ghost predicate Valid()
      reads this
    {
      pos <= |items|
    }

    constructor (items: seq<Obj>)
      ensures Valid() && this.items == items && pos == 0
    {
      this.items := items;
      pos := 0;
    }

    /** `hasNext()`. */
    method HasNext() returns (b: bool)
      requires Valid()
      ensures b <==> pos < |items|
    {
      b := pos < |items|;
    }

    /** `next()`: the next item, or NoSuchElementException once exhausted. */
    method Next() returns (r: Result<Obj>)
      requires Valid()
      modifies this
      ensures Valid()
      ensures old(pos) < |items| ==> r == Ok(items[old(pos)]) && pos == old(pos) + 1
      ensures old(pos) == |items| ==> r == Err(HostCallFailure) && pos == old(pos)
    {
      if pos < |items| {
        r := Ok(items[pos]);
        pos := pos + 1;
      } else {
        r := Err(HostCallFailure);
      }
    }
  }

  /**
   * `map_to_iters`: for an IMapIterable, a fresh key iterator and a fresh
   * value iterator, both at the start of what `MapIters` describes.
   */
  method MapToIters(o: Obj, ord: IterOrder) returns (r: Result<Option<(HostIterator, HostIterator)>>)
    ensures r.Err? <==> MapIters(o, ord).Err?
    ensures r.Err? ==> r.error == HostCallFailure
    ensures r.Ok? ==> (r.value.Some? <==> MapIters(o, ord).value.Some?)
    ensures r.Ok? && r.value.Some? ==>
              var (keys, vals) := r.value.value;
              fresh(keys) && fresh(vals) && keys != vals && keys.Valid() && vals.Valid()
              && keys.pos == 0 && vals.pos == 0
              && (keys.items, vals.items) == MapIters(o, ord).value.value
  {
    if !IsInstanceOf(o, IMapIterableClass) {
      return Ok(None);
    }
    if o == Null {
      return Err(HostCallFailure);
    }
    var keys := new HostIterator(KeysOf(Visited(o.entries, ord)));
    var vals := new HostIterator(ValuesOf(Visited(o.entries, ord)));
    r := Ok(Some((keys, vals)));
  }
}
