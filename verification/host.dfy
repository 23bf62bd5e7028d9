/**
 * The host side of the bridge: the JVM/Clojure objects that the codec reaches
 * through JNI, seen as plain values. Every JNI call of the codec becomes a
 * constructor, an instance test or an accessor over `Obj`.
 */
module Host {
  import opened SeqFacts

  /** Java's signed primitive integer types. */
  newtype i8 = x: int | -0x80 <= x < 0x80
  newtype i16 = x: int | -0x8000 <= x < 0x8000
  newtype i32 = x: int | -0x8000_0000 <= x < 0x8000_0000
  newtype i64 = x: int | -0x8000_0000_0000_0000 <= x < 0x8000_0000_0000_0000

  /** Rust's unsigned integer types (the typed side of the bridge). */
  newtype u8 = x: int | 0 <= x < 0x100
  newtype u16 = x: int | 0 <= x < 0x1_0000
  newtype u32 = x: int | 0 <= x < 0x1_0000_0000
  newtype u64 = x: int | 0 <= x < 0x1_0000_0000_0000_0000

  /**
   * Floating-point values are opaque: a value is its bit pattern, or the
   * symbolic result of a cast between the two widths (Rust's `as`).
   * Arithmetic on them is never needed by the codec.
   */
  datatype Float32 = F32Bits(bits: bv32) | NarrowedFrom(wide: Float64)
  datatype Float64 = F64Bits(bits: bv64) | WidenedFrom(narrow: Float32)

  /**
   * A host object reference. `Null` is the null reference; the boxes are
   * java.lang.Boolean … java.lang.Character; `JString` is java.lang.String,
   * `Keyword` is clojure.lang.Keyword (identified by the text it was
   * interned from, since keywords are interned and `Symbol.intern` splits
   * that text into a namespace and a name without losing any of it),
   * `ByteArray` is byte[]; `Vector` is PersistentVector,
   * `ISeq` a clojure.lang.ISeq over the given items (what RT.next returns),
   * and `HashMap` is PersistentHashMap, whose entries are listed in the order
   * they were associated; its iterators visit them in an `IterOrder`.
   */
  datatype Obj =
    | Null
    | Boolean(z: bool)
    | Byte(b: i8)
    | Short(s: i16)
    | Integer(i: i32)
    | Long(j: i64)
    | Float(f: Float32)
    | Double(d: Float64)
    | Character(c: u16)
    | JString(str: string)
    | Keyword(sym: string)
    | ByteArray(bytes: seq<bv8>)
    | Vector(elems: seq<Obj>)
    | ISeq(items: seq<Obj>)
    | HashMap(entries: seq<(Obj, Obj)>)

  /**
   * The order in which the host visits a map's entries, through its key and
   * value iterators and through `RT.seq`: PersistentHashMap walks its trie
   * in hash order, which the model leaves open. An `IterOrder` gives the
   * entry lists it chooses a permutation of their positions; any other list
   * is visited as listed. What is proved about reading maps back holds for
   * every `IterOrder`, so for whatever order the host uses.
   */
  type IterOrder = map<seq<(Obj, Obj)>, seq<nat>>

  /** The positions of `entries` in the order the host visits them. */
  function OrderOf(entries: seq<(Obj, Obj)>, ord: IterOrder): (p: seq<nat>)
    ensures IsPermutation(p, |entries|)
  {
    if entries in ord && IsPermutation(ord[entries], |entries|) then ord[entries] else Positions(|entries|)
  }

  /** A map's entries in the order the host visits them: each entry exactly once. */
  function Visited(entries: seq<(Obj, Obj)>, ord: IterOrder): (vs: seq<(Obj, Obj)>)
    ensures |vs| == |entries|
    ensures forall i :: 0 <= i < |entries| ==> vs[i] == entries[OrderOf(entries, ord)[i]]
  {
    Permute(entries, OrderOf(entries, ord))
  }

  /** A one-entry map is visited as it is, whatever the order. */
  lemma VisitedOne(e: (Obj, Obj), ord: IterOrder)
    ensures Visited([e], ord) == [e]
  {
  }

  /** The keys of a map's entries, in order. */
  function KeysOf(entries: seq<(Obj, Obj)>): (ks: seq<Obj>)
    ensures |ks| == |entries|
    ensures forall i :: 0 <= i < |entries| ==> ks[i] == entries[i].0
  {
    if entries == [] then [] else [entries[0].0] + KeysOf(entries[1..])
  }

  /** The values of a map's entries, in order. */
  function ValuesOf(entries: seq<(Obj, Obj)>): (vs: seq<Obj>)
    ensures |vs| == |entries|
    ensures forall i :: 0 <= i < |entries| ==> vs[i] == entries[i].1
  {
    if entries == [] then [] else [entries[0].1] + ValuesOf(entries[1..])
  }

  /**
   * One name the codec resolves against the running JVM: a class
   * (`find_class`), an instance method (`get_method_id`) or a static method
   * (`get_static_method_id`), each with its JNI signature.
   */
  datatype Lookup =
    | FindClass(name: string)
    | MethodId(owner: string, member: string, sig: string)
    | StaticMethodId(owner: string, member: string, sig: string)
}
