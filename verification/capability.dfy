/**
 * The lookup tables built once per session (`Common::new`, `Encoder::new`,
 * `Decoder::new` in src/convert.rs). Each table resolves its classes and
 * methods one after another with `?`, so the first lookup that fails aborts
 * construction and no partially filled table ever exists.
 */
module Capability {
  import opened Host
  import opened Errors

  /** What the running JVM can resolve: the classes on its class path and their members. */
  datatype Runtime = Runtime(available: set<Lookup>)

  predicate Resolves(rt: Runtime, l: Lookup) {
    l in rt.available
  }

  /** A built table: the handles it holds, in the order they were resolved. */
  datatype Table = Table(handles: seq<Lookup>)

  /**
   * Resolves `ls` in order, stopping at the first failure. Succeeds exactly
   * when every lookup resolves, and then holds every handle; otherwise
   * reports the first lookup that does not resolve.
   */
  function ResolveAll(rt: Runtime, ls: seq<Lookup>): (r: Result<seq<Lookup>>)
    ensures r.Ok? <==> forall i :: 0 <= i < |ls| ==> Resolves(rt, ls[i])
    ensures r.Ok? ==> r.value == ls
    ensures r.Err? ==> (exists k :: 0 <= k < |ls| && !Resolves(rt, ls[k])
                                    && r.error == BindingResolutionFailure(ls[k])
                                    && forall j :: 0 <= j < k ==> Resolves(rt, ls[j]))
  {
    if ls == [] then Ok([])
    else if !Resolves(rt, ls[0]) then Err(BindingResolutionFailure(ls[0]))
    else
      match ResolveAll(rt, ls[1..])
      case Err(e) =>
        var k :| 0 <= k < |ls[1..]| && !Resolves(rt, ls[1..][k])
          && e == BindingResolutionFailure(ls[1..][k])
          && forall j :: 0 <= j < k ==> Resolves(rt, ls[1..][j]);
        assert !Resolves(rt, ls[k + 1]);
        Err(e)
      case Ok(rest) => Ok([ls[0]] + rest)
  }

  /**
   * Resolving two lists one after the other fails exactly as resolving their
   * concatenation does: with the first missing lookup of the whole order.
   */
  lemma {:induction false} ResolveAllConcat(rt: Runtime, a: seq<Lookup>, b: seq<Lookup>)
    ensures ResolveAll(rt, a + b) == match ResolveAll(rt, a)
                                     case Err(e) => Err(e)
                                     case Ok(ha) => match ResolveAll(rt, b)
                                                    case Err(e) => Err(e)
                                                    case Ok(hb) => Ok(ha + hb)
  {
    if a != [] {
      assert (a + b)[1..] == a[1..] + b;
      ResolveAllConcat(rt, a[1..], b);
    } else {
      assert a + b == b;
    }
  }

  const Boolean := "java/lang/Boolean"
  const Byte := "java/lang/Byte"
  const Integer := "java/lang/Integer"
  const Long := "java/lang/Long"
  const Short := "java/lang/Short"
  const Float := "java/lang/Float"
  const Double := "java/lang/Double"
  const Character := "java/lang/Character"
  const JString := "java/lang/String"
  const Keyword := "clojure/lang/Keyword"
  const PersistentVector := "clojure/lang/PersistentVector"
  const PersistentHashMap := "clojure/lang/PersistentHashMap"
  const IMapIterable := "clojure/lang/IMapIterable"
  const ArrayList := "java/util/ArrayList"
  const RT := "clojure/lang/RT"
  const Iterator := "java/util/Iterator"

  /** `Common::new`: the classes both directions need, in the order they are looked up. */
  const CommonLookups: seq<Lookup> := [
    FindClass(Boolean), FindClass(Byte), FindClass(Integer), FindClass(Long),
    FindClass(Short), FindClass(Float), FindClass(Double), FindClass(Character),
    FindClass(JString), FindClass(Keyword), FindClass(PersistentVector),
    FindClass(PersistentHashMap), FindClass(IMapIterable)
  ]

  /** What `Encoder::new` resolves after `Common::new`, in order. */
  const EncoderOwnLookups: seq<Lookup> := [
    FindClass(ArrayList),
    StaticMethodId(Boolean, "valueOf", "(Z)Ljava/lang/Boolean;"),
    StaticMethodId(Byte, "valueOf", "(B)Ljava/lang/Byte;"),
    StaticMethodId(Integer, "valueOf", "(I)Ljava/lang/Integer;"),
    StaticMethodId(Long, "valueOf", "(J)Ljava/lang/Long;"),
    StaticMethodId(Short, "valueOf", "(S)Ljava/lang/Short;"),
    StaticMethodId(Float, "valueOf", "(F)Ljava/lang/Float;"),
    StaticMethodId(Double, "valueOf", "(D)Ljava/lang/Double;"),
    StaticMethodId(Character, "valueOf", "(C)Ljava/lang/Character;"),
    MethodId(ArrayList, "<init>", "()V"),
    MethodId(ArrayList, "add", "(Ljava/lang/Object;)Z"),
    MethodId(ArrayList, "toArray", "()[Ljava/lang/Object;"),
    StaticMethodId(Keyword, "intern", "(Ljava/lang/String;)Lclojure/lang/Keyword;"),
    StaticMethodId(PersistentVector, "create", "(Ljava/lang/Iterable;)Lclojure/lang/PersistentVector;"),
    StaticMethodId(PersistentHashMap, "create", "([Ljava/lang/Object;)Lclojure/lang/PersistentHashMap;")
  ]

  /** What `Decoder::new` resolves after `Common::new`, in order. */
  const DecoderOwnLookups: seq<Lookup> := [
    FindClass(RT),
    FindClass(Iterator),
    MethodId(Iterator, "hasNext", "()Z"),
    MethodId(Iterator, "next", "()Ljava/lang/Object;"),
    MethodId(Boolean, "booleanValue", "()Z"),
    MethodId(Byte, "byteValue", "()B"),
    MethodId(Float, "floatValue", "()F"),
    MethodId(Double, "doubleValue", "()D"),
    MethodId(Short, "shortValue", "()S"),
    MethodId(Integer, "intValue", "()I"),
    MethodId(Long, "longValue", "()J"),
    StaticMethodId(RT, "first", "(Ljava/lang/Object;)Ljava/lang/Object;"),
    StaticMethodId(RT, "next", "(Ljava/lang/Object;)Lclojure/lang/ISeq;"),
    MethodId(IMapIterable, "keyIterator", "()Ljava/util/Iterator;"),
    MethodId(IMapIterable, "valIterator", "()Ljava/util/Iterator;"),
    MethodId(Keyword, "getName", "()Ljava/lang/String;"),
    FindClass("[B")
  ]

  function CommonNew(rt: Runtime): (r: Result<Table>)
    ensures r.Ok? <==> forall i :: 0 <= i < |CommonLookups| ==> Resolves(rt, CommonLookups[i])
    ensures r.Ok? ==> r.value.handles == CommonLookups
  {
    var hs :- ResolveAll(rt, CommonLookups);
    Ok(Table(hs))
  }

  /**
   * `Encoder::new`: `Common::new` first, then the encoder's own lookups.
   * Either every handle is resolved or the first missing one is reported.
   */
  function EncoderNew(rt: Runtime): (r: Result<Table>)
    ensures r.Ok? <==> forall l :: l in CommonLookups + EncoderOwnLookups ==> Resolves(rt, l)
    ensures r.Ok? ==> r.value.handles == CommonLookups + EncoderOwnLookups
    ensures r.Err? ==> ResolveAll(rt, CommonLookups + EncoderOwnLookups) == Err(r.error)
  {
    ResolveAllConcat(rt, CommonLookups, EncoderOwnLookups);
    var com :- CommonNew(rt);
    var own :- ResolveAll(rt, EncoderOwnLookups);
    Ok(Table(com.handles + own))
  }

  /** `Decoder::new`: `Common::new` first, then the decoder's own lookups. */
  function DecoderNew(rt: Runtime): (r: Result<Table>)
    ensures r.Ok? <==> forall l :: l in CommonLookups + DecoderOwnLookups ==> Resolves(rt, l)
    ensures r.Ok? ==> r.value.handles == CommonLookups + DecoderOwnLookups
    ensures r.Err? ==> ResolveAll(rt, CommonLookups + DecoderOwnLookups) == Err(r.error)
  {
    ResolveAllConcat(rt, CommonLookups, DecoderOwnLookups);
    var com :- CommonNew(rt);
    var own :- ResolveAll(rt, DecoderOwnLookups);
    Ok(Table(com.handles + own))
  }

  /**
   * A missing class that both directions need makes both constructions fail
   * with the same error: the common lookups come first in each.
   */
  lemma {:induction false} CommonFailureIsShared(rt: Runtime)
    requires CommonNew(rt).Err?
    ensures EncoderNew(rt) == DecoderNew(rt) == Err(CommonNew(rt).error)
  {
  }
}
