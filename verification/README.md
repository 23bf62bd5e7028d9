# serde_clj in Dafny

serde_clj moves values between Rust and Clojure through JNI. Its
`Serializer` turns any value of serde's data model other than `i128` and `u128` into a Clojure object:
- primitives become boxes;
- strings and chars become java.lang.String;
- unit and `None` become nil;
- sequences and tuples become PersistentVector;
- maps and structs become PersistentHashMap, with struct fields keyed by keyword;
- variants become a keyword, or a one-entry map from the keyword to the payload.

Its `Deserializer` reads such objects back. It is driven by serde's visitors: the derived struct and enum visitors, and the integer visitors with their range checks.

The model has three layers.
- **Host objects and JNI calls.** These are values (`Host`). Each JNI call the codec makes becomes a function over them (`Convert`, `Capability`, `Builder`).
- **The two directions.**
  - Each direction is one specification function: `Ser.Encode` and `De.Decode`.
  - Each also has the imperative code the crate actually runs: the `Serializer` module with its `ArrayList`-backed builders, and the `Deserializer` module with its `Seq` cursor and `Map` iterators.
  - The imperative code is proved to compute exactly the specification function.
- **What survives a round trip.**
  - `RoundTrip.RoundTrip` proves that decoding the encoding of a value, against the value's own shape, gives the value back. This holds for every value outside six lossy corners, with the entries of every map in whichever order the host's iterators visit them.
  - The six corners are:
    - a `u64` from 2^63 up;
    - a non-ASCII `char`, which `deserialize_char` as written refuses (see Findings);
    - `Some` of a value that encodes to nil;
    - an element that encodes to nil inside a sequence or tuple;
    - map keys whose encodings coincide;
    - a field or variant name with a namespace, such as "user/id": `Keyword.intern` splits it at the slash, and `getName` reads back only "id" (see Findings).
  - The round trip also assumes map keys with no float, byte array or map inside, because the host compares such keys differently from the model (see Left out).
  - `Corners` proves what comes back instead, for these inputs:
    - every `u64` from 2^63 up, every non-ASCII `char`, every `Some` of a value that encodes to nil, and every sequence or tuple with an element that encodes to nil;
    - among maps whose keys encode alike: any two such keys with no float, byte array or map inside them, and every map whose keys are recoverable and map-free, so that two keys encode alike only when they are equal (keys that collide through nil, such as `None` and `Some(())`, are not covered);
    - among namespaced names: a field or variant whose name after the slash the struct or enum does not declare.
  - It also proves that the decoder refuses every struct map with a key that names no field.
- **Iteration order.** PersistentHashMap visits its entries in hash order. The model leaves that order open as a parameter (`Host.IterOrder`), and every decoding result holds for every order.

`src/lib.rs` keeps `mod de` commented out. `src/de.rs` also names error variants that `src/error.rs` has commented out, such as `ExpectedChar` and `ExpectedMap`. The model treats `src/de.rs` as written and gives those variants to its own `Errors.Error`.

## Model

| member | source | states |
|---|---|---|
| Capability.ResolveAll | src/convert.rs:27-44 | a chain of `?`-lookups succeeds exactly when every lookup resolves and then holds all handles in order; otherwise it reports a lookup that does not resolve, and every one before it resolves |
| Capability.ResolveAllConcat | src/convert.rs:70-73 | resolving two lists one after the other fails exactly as resolving their concatenation does |
| Capability.CommonNew | src/convert.rs:27-44 | `Common::new` succeeds exactly when all thirteen classes resolve, and then holds them in lookup order |
| Capability.EncoderNew | src/convert.rs:70-148 | `Encoder::new` succeeds exactly when the common and the encoder's own lookups all resolve; otherwise it reports the first missing one, in lookup order |
| Capability.DecoderNew | src/convert.rs:342-407 | `Decoder::new` succeeds exactly when the common and the decoder's own lookups all resolve; otherwise it reports the first missing one |
| Capability.CommonFailureIsShared | src/convert.rs:70-73 | a missing common class makes the encoder and the decoder fail with the same error |
| Convert.ToBoxed | src/convert.rs:169-224 | an object passes through, void becomes nil, and a primitive becomes a box that unboxes to that primitive |
| Convert.Unbox | src/convert.rs:323-339 | a probe fails exactly on nil, and gives `Some` exactly for an instance of its box class |
| Convert.BoxThenUnbox | src/convert.rs:409-427 | probing a boxed primitive with its own kind gives the primitive back; every other probe says `None` |
| Convert.DecodeString | src/convert.rs:429-435 | `Some` with the text exactly for a String; a host failure exactly for nil |
| Convert.DecodeBytes | src/convert.rs:437-443 | `Some` with the contents exactly for a byte[]; a host failure exactly for nil |
| Convert.IsInstanceOf | src/convert.rs:429-450 | nil passes every class test; a map is an instance of PersistentHashMap and IMapIterable only; any other object is an instance only of its own class, and an ISeq of none of the tested classes |
| Convert.NameKept | src/convert.rs:150-166 | a keyword's `getName` is the whole text it was interned from exactly when that text has no slash or is "/" |
| Convert.DecodeKeyword | src/convert.rs:445-463 | `Some` with the keyword's name, the text after its namespace, exactly for a Keyword; a host failure exactly for nil |
| Convert.DecodeQualifiedKeyword | src/convert.rs:445-463 | corrected `decode_keyword`: `Some` with the keyword's whole text exactly for a Keyword, agreeing with `decode_keyword` on keywords without a namespace |
| Convert.QualifiedKeywordReadsBack | src/convert.rs:150-166 | the corrected reader gives back every name an interned keyword was made from |
| Convert.GetKeyword | src/convert.rs:150-166 | `get_keyword` gives a keyword interned from exactly the given text |
| Convert.KeywordReadsBack | src/convert.rs:150-166 | an interned keyword is read back by the keyword probe as the part of its name after any namespace, which is the whole name exactly when it has none; the string probe says `None` for it |
| Host.OrderOf | src/convert.rs:465-499 | the host visits a map's entries in some permutation of their positions |
| Host.Visited | src/convert.rs:465-499 | the visited entries are the map's entries, each exactly once, in the host's order |
| Convert.MapIters | src/convert.rs:465-499 | `Some` exactly for a map; then both iterators visit one item per entry, the i-th key and the i-th value making the i-th entry the host visits |
| Convert.SignedByte | src/ser.rs:86-88 | Java's `(byte)` view agrees with the unsigned byte modulo 256 |
| Convert.SeqView | src/convert.rs:370-380 | `RT.seq` works exactly on nil (empty), vectors, seqs, strings (one item per UTF-16 unit), byte arrays (one item per byte) and maps (one item per entry) |
| Convert.MapSeqViewEntries | src/convert.rs:370-380 | `RT.seq` of a map meets each entry exactly once, as a `[key value]` vector, whatever the host's order |
| Convert.RtFirst | src/de.rs:366-381 | `RT.first` fails exactly on non-seqable objects; a non-nil first item means at least one item remains |
| Convert.RtNext | src/de.rs:386-397 | `RT.next` fails exactly on non-seqable objects, and leaves one item fewer to walk |
| Convert.WalkVisits | src/de.rs:366-401 | walking a vector with `RT.first` and `RT.next` visits exactly its items, in order, then nil |
| Convert.HostIterator.HasNext | src/de.rs:412-425 | `hasNext` is true exactly while items remain |
| Convert.HostIterator.Next | src/de.rs:426-438 | `next` yields the next item and advances, or throws once exhausted |
| Convert.MapToIters | src/convert.rs:465-499 | the two iterators start at the beginning of what `Convert.MapIters` describes, as two fresh, distinct objects |
| Builder.Lookup | src/convert.rs:270-293 | a key is found exactly when some entry has it |
| Builder.Assoc | src/convert.rs:270-293 | `assoc` grows the map by one exactly when the key is new |
| Builder.AssocLookup | src/convert.rs:270-293 | after `assoc`, the key is bound to the new value and every other key keeps its binding |
| Builder.AssocKeys | src/convert.rs:270-293 | `assoc` keeps every key in its position and adds only the new key, at the end |
| Builder.AssocDistinct | src/convert.rs:270-293 | `assoc` never makes a key occur twice |
| Builder.AppendNew | src/convert.rs:270-293 | a new key is associated by appending an entry |
| Builder.Flatten | src/convert.rs:270-293 | key i sits at position 2i and its value at 2i+1, so the array is twice as long |
| Builder.FlattenSnoc | src/convert.rs:245-254 | staging one more key and value appends both to the flat array |
| Builder.AssocPairs | src/convert.rs:270-293 | the map built from a flat array has distinct keys |
| Builder.AssocPairsLastWins | src/convert.rs:270-293 | in that map every key is bound to the value of its last pair |
| Builder.CreateHashMap | src/convert.rs:270-293 | `PersistentHashMap.create` fails exactly on an odd-length array; otherwise it gives a map with distinct keys |
| Builder.AssocAll | src/convert.rs:270-293 | associating pairs in order gives distinct keys |
| Builder.AssocAllDistinct | src/convert.rs:270-293 | pairs with distinct keys are kept as they are, in order |
| Builder.AssocAllKeys | src/convert.rs:270-293 | associating never gives more entries than pairs, and every key of a pair is bound |
| Builder.AssocAllShrinks | src/convert.rs:270-293 | two pairs with the same key leave fewer entries than pairs |
| Builder.AssocAllLastWins | src/convert.rs:270-293 | after associating pairs in order, every key is bound to the value of its last pair, and no other key is bound |
| Builder.AssocAllFrom | src/convert.rs:270-293 | every entry left after associating pairs is one of the pairs |
| Builder.LookupPermute | src/convert.rs:465-499 | visiting entries with distinct keys in another order changes no binding |
| Builder.HashMapOf | src/convert.rs:270-293 | the encoder's maps always have distinct keys |
| Builder.HashMapOfDistinct | src/convert.rs:270-293 | pairs with distinct keys make a map of exactly those entries |
| Builder.AssocPairsOfFlatten | src/convert.rs:270-293 | building from the flat layout of the first n pairs is associating those pairs |
| Builder.CreateOfFlatten | src/convert.rs:270-293 | `create` on pairs laid out flat never fails, and builds `HashMapOf` of them |
| Builder.HashMapOfLastWins | src/convert.rs:270-293 | a repeated key in the encoder's map holds its last value |
| Builder.ArrayList.constructor | src/convert.rs:233-243 | a new list is empty |
| Builder.ArrayList.Add | src/convert.rs:245-254 | `add` appends the object after those already staged |
| Builder.ArrayList.ToVector | src/convert.rs:256-268 | `to_vector` gives a vector of the staged objects in order, and consumes the list |
| Builder.ArrayList.ToHashMap | src/convert.rs:270-293 | `to_hashmap` is `PersistentHashMap.create` over the staged objects, and consumes the list |
| Ser.Encode | src/ser.rs:46-147 | booleans box as Boolean; `u8`, `u16` and `u32` keep their value in the next wider signed box; a char becomes a one-character string; unit and `None` become nil; a unit variant becomes the keyword interned from its name |
| Ser.U64AsI64 | src/ser.rs:68 | `u64 as i64` keeps the value modulo 2^64: the same value below 2^63, negative from there up |
| Ser.VariantMapOf | src/ser.rs:35-44 | `variant_map` gives exactly the one-entry map from the variant's keyword to the payload |
| Ser.EncodeAll | src/ser.rs:225-272 | the i-th element of a vector is the encoding of the i-th item |
| Ser.EncodeEntries | src/ser.rs:291-312 | the i-th staged pair holds the i-th entry's key and value, encoded |
| Ser.EncodeFields | src/ser.rs:314-329 | the i-th staged pair holds the i-th field's keyword and encoded value |
| Serializer.VariantMap | src/ser.rs:35-44 | staging a keyword and a payload and freezing them gives `Ser.VariantMapOf` |
| Serializer.SerializeVec.constructor | src/ser.rs:149-154 | `serialize_seq` starts a fresh, empty list |
| Serializer.SerializeVec.SerializeElement | src/ser.rs:229-235 | `serialize_element` stages the element's encoding after the others |
| Serializer.SerializeVec.SerializeKey | src/ser.rs:295-300 | `serialize_key` stages the key's encoding |
| Serializer.SerializeVec.SerializeValue | src/ser.rs:302-307 | `serialize_value` stages the value's encoding |
| Serializer.SerializeVec.SerializeField | src/ser.rs:318-324 | a struct field stages its keyword, then its value's encoding |
| Serializer.SerializeVec.EndSeq | src/ser.rs:237-239 | `end` gives the staged objects as a vector |
| Serializer.SerializeVec.EndMap | src/ser.rs:309-311 | `end` gives the staged keys and values as `create` reads them |
| Serializer.SerializeTupleVariant.constructor | src/ser.rs:168-180 | a tuple variant starts with its name and a fresh, empty list |
| Serializer.SerializeTupleVariant.SerializeField | src/ser.rs:278-284 | each item's encoding is staged after the others |
| Serializer.SerializeTupleVariant.End | src/ser.rs:286-288 | `end` wraps the staged items, as a vector, in the variant's map |
| Serializer.SerializeStructVariant.constructor | src/ser.rs:190-205 | a struct variant starts with its name and a struct builder over a fresh, empty list |
| Serializer.SerializeStructVariant.SerializeField | src/ser.rs:335-340 | a field stages its keyword and its value's encoding |
| Serializer.SerializeStructVariant.End | src/ser.rs:342-344 | `end` wraps the staged fields' map in the variant's map, or passes on a failed freeze |
| Serializer.Serialize | src/ser.rs:15-205 | `to_object` always succeeds with exactly `Ser.Encode` of the value |
| Serializer.SerializeSeq | src/ser.rs:225-272 | a sequence or tuple is serialized to the vector of its items' encodings, in order |
| Serializer.SerializeTupleVariantOf | src/ser.rs:274-289 | a tuple variant is serialized to its variant map over the vector of its items |
| Serializer.SerializeMap | src/ser.rs:291-312 | a map is serialized to the hash map `create` builds from its encoded entries, in order |
| Serializer.SerializeStruct | src/ser.rs:314-329 | a struct is serialized to the hash map built from its fields' keywords and encoded values |
| Serializer.SerializeStructVariantOf | src/ser.rs:331-345 | a struct variant is serialized to its variant map over its fields' hash map |
| DataModel.NameIndex | src/de.rs:308-341 | the derived visitors match an identifier to the first field or variant with that name, and find none exactly when no declaration has it |
| De.FirstProbe | src/de.rs:59-74 | a probe chain that succeeds gives a primitive of a kind in the chain whose box is the object |
| De.FirstProbeReads | src/de.rs:110-125 | a probe chain reads exactly what its order-free reference reads: nil fails, a listed box unboxes, anything else is the chain's error |
| De.ProbeNull | src/de.rs:59-74 | a chain fails on nil at its first probe |
| De.ProbeMiss | src/de.rs:59-74 | a probe that does not match hands the object to the rest of the chain |
| De.InstanceOfBox | src/convert.rs:323-339 | a non-null object passes a box class's test exactly when it is a box of that kind |
| De.IntegerChainsAgree | src/de.rs:59-125 | the i8, i16, i32 and i64 chains accept the same objects and read the same value |
| De.FloatChainsAgree | src/de.rs:155-179 | the f32 and f64 chains accept the same objects and read the same value |
| De.VisitInt | src/de.rs:59-153 | an integer visit succeeds exactly when the value fits the target type, giving that value, and is an invalid value otherwise |
| De.VisitFloat | src/de.rs:155-179 | a visit of the target's own width keeps the value |
| De.Utf8Len | src/de.rs:187 | Rust's `str::len` is at least the number of chars, and zero only for the empty string |
| De.Utf8LenOne | src/de.rs:187 | a string is one UTF-8 byte long exactly when it is one ASCII character |
| De.DeserializeCharAsWritten | src/de.rs:182-192 | `deserialize_char` as written succeeds exactly on a one-character string whose character is ASCII, with that char; nil is a host failure, anything else `ExpectedChar` |
| De.DeserializeChar | src/de.rs:182-192 | corrected `deserialize_char`: succeeds exactly on a one-character string, with that char; nil is a host failure, anything else `ExpectedChar` |
| De.DeserializeString | src/de.rs:194-212 | succeeds exactly on a string (its text) or a keyword (its name after any namespace); nil is a host failure, anything else `ExpectedString` |
| De.ProbeInt | src/de.rs:59-153 | an integer deserialization that succeeds gives an integer of the requested type |
| De.DecodeScalar | src/de.rs:48-212 | a primitive deserialization that succeeds gives a value of the requested primitive type |
| De.Decode | src/de.rs:24-356 | `from_object` that succeeds gives a value of the requested shape |
| De.UnitOnlyFromNil | src/de.rs:239-247 | unit reads exactly from nil; anything else is `ExpectedNull` |
| De.AnyRefused | src/de.rs:41-46 | `deserialize_any` and `deserialize_ignored_any` refuse every object with `DeserializeAnyNotSupported` |
| De.DecodeOption | src/de.rs:228-237 | `None` exactly for nil; otherwise `Some` of what the object reads as |
| De.DecodeNewtype | src/de.rs:257-262 | a newtype is read from the object itself |
| De.DecodeTuple | src/de.rs:274-291 | a tuple that reads gives one value of each declared type |
| De.DecodeMap | src/de.rs:293-306 | only a hash map reads as a map, one entry per host entry, each of the requested key and value types |
| De.DecodeStruct | src/de.rs:308-318 | only a hash map reads as a struct, with fields of the declared types |
| De.NoneSeen | src/de.rs:308-318 | the derived visitor starts with no field seen |
| De.VisitSeq | src/de.rs:366-401 | the `Vec` visitor keeps what it has read so far as a prefix, and every later element has the element type |
| De.VisitTuple | src/de.rs:274-291 | the tuple visitor gives exactly one value per declared type, keeping what it has read |
| De.VisitMap | src/de.rs:456-477 | the map visitor gives one entry per key, in iteration order, keeping what it has read |
| De.VisitStruct | src/de.rs:456-477 | the struct visitor gives the declared fields with their declared types |
| De.FinishStruct | src/de.rs:308-318 | fields come out in declaration order; an unseen field is `None` if optional; the result is an error exactly when a required field is missing |
| De.DecodeEnum | src/de.rs:320-341 | an enum that reads is a variant the enum declares, with a payload of its shape |
| De.EnumRefusals | src/de.rs:320-341 | nil is a host failure; an object that is neither a keyword nor a map, or an empty map, is `ExpectedMap`; a keyword names a unit variant, is `UnknownVariant` of its name when undeclared, and `InvalidType` when it names a variant with a payload |
| De.VisitVariant | src/de.rs:484-527 | the variant access reads the named variant, never a unit variant, with a payload of its shape |
| De.VariantRefusals | src/de.rs:484-527 | an undeclared name is `UnknownVariant`, a unit variant in map form `ExpectedKeyword`, and a struct variant whose payload is not a map `ExpectedMap` (a host failure on nil) |
| Deserializer.SeqAccess.constructor | src/de.rs:264-272 | the cursor starts at the object |
| Deserializer.SeqAccess.NextElement | src/de.rs:366-401 | `next_element_seed` ends on nil without moving, or moves the cursor to `RT.next` and reads the head |
| Deserializer.MapAccess.constructor | src/de.rs:293-306 | the access holds the two iterators |
| Deserializer.MapAccess.NextKey | src/de.rs:411-439 | `next_key` says nothing once keys run out, otherwise yields and advances past the next key |
| Deserializer.MapAccess.NextVal | src/de.rs:440-453 | `next_val` yields and advances past the next value, or throws once values run out |
| Deserializer.MapAccess.NextKeySeed | src/de.rs:459-470 | `next_key_seed` reads the next key, if any, as the key type |
| Deserializer.MapAccess.NextValueSeed | src/de.rs:472-477 | `next_value_seed` reads the next value as the value type |
| Deserializer.Deserialize | src/de.rs:24-356 | the running deserializer gives exactly `De.Decode` |
| Deserializer.VisitSeqAccess | src/de.rs:264-272 | the `Vec` visitor over the running `Seq` access gives exactly `De.VisitSeq` |
| Deserializer.VisitTupleAccess | src/de.rs:274-291 | the tuple visitor over the running `Seq` access gives exactly `De.VisitTuple` |
| Deserializer.DeserializeMap | src/de.rs:293-306 | `deserialize_map` gives exactly `De.DecodeMap` |
| Deserializer.VisitMapAccess | src/de.rs:456-477 | the map visitor over the running `Map` access gives exactly `De.VisitMap` |
| Deserializer.DeserializeStruct | src/de.rs:308-318 | `deserialize_struct` gives exactly `De.DecodeStruct` |
| Deserializer.VisitStructAccess | src/de.rs:456-477 | the struct visitor over the running `Map` access gives exactly `De.VisitStruct` |
| Deserializer.DeserializeEnum | src/de.rs:320-341 | `deserialize_enum` gives exactly `De.DecodeEnum` |
| Deserializer.VariantSeed | src/de.rs:484-527 | an empty map is `ExpectedMap`; otherwise the first key names the variant and the first value is its payload |
| RoundTrip.EncodesNilExactly | src/ser.rs:91-147 | a value encodes to nil exactly when it is unit, `None`, or `Some` or a newtype around such a value |
| RoundTrip.RoundTrip | src/ser.rs:15-21 | decoding the encoding of a recoverable value against its own shape gives the value back, with each map's entries in the host's order, for every order; recoverable excludes the six corners, field and variant names with a namespace among them, and map keys holding a float, byte array or map |
| RoundTrip.ExactRoundTrip | src/ser.rs:15-21 | a recoverable value (no namespaced field or variant name among others) with no map inside comes back exactly as it was, whatever the host's order |
| RoundTrip.MapFreeUnchanged | src/convert.rs:465-499 | the host's order changes nothing in a value with no map inside |
| RoundTrip.OptionRoundTrip | src/de.rs:228-237 | `Some` of a value that does not encode to nil is read back |
| RoundTrip.NewtypeRoundTrip | src/de.rs:257-262 | a newtype is read back through its transparent encoding |
| RoundTrip.SeqCaseRoundTrip | src/de.rs:264-272 | a sequence is read back from its vector |
| RoundTrip.TupleCaseRoundTrip | src/de.rs:274-291 | a tuple is read back from its vector |
| RoundTrip.ScalarRoundTrip | src/ser.rs:58-88 | a primitive is read back from its box or string |
| RoundTrip.IntRoundTrip | src/de.rs:59-153 | an integer is read back through its widened box |
| RoundTrip.IntBox | src/ser.rs:60-68 | an integer becomes a box of one of the four integer kinds holding its value |
| RoundTrip.VisitIntValue | src/de.rs:59-153 | the integer visitor accepts a value of its own type |
| RoundTrip.SeqRoundTrip | src/de.rs:366-401 | the `Vec` visitor reads back the items from any position on |
| RoundTrip.TupleRoundTrip | src/de.rs:366-401 | the tuple visitor reads back the items from any position on |
| RoundTrip.MapEntriesRoundTrip | src/de.rs:456-477 | the map visitor reads back the entries from any position on |
| RoundTrip.MapRoundTrip | src/de.rs:293-306 | a map whose keys (with no float, byte array or map inside) encode to distinct objects is read back with its entries in the host's order: the same entries as a multiset |
| RoundTrip.FlatMapRoundTrip | src/de.rs:293-306 | a map of map-free keys (with no float, byte array or map inside) and values reads back, in any host order, as a map with exactly the same multiset of entries |
| RoundTrip.FieldsRoundTrip | src/de.rs:456-477 | the struct visitor, after the first i fields, reads back the rest, for fields with distinct names that have no namespace |
| RoundTrip.FinishAllSeen | src/de.rs:308-318 | with every field seen, the fields come out in declaration order |
| RoundTrip.StructRoundTrip | src/de.rs:308-318 | a struct whose field names have no namespace is read back from its keyword map in declaration order, whatever order the host visits the map in |
| RoundTrip.FieldsDistinctKeys | src/ser.rs:314-329 | fields with distinct names make entries with distinct keys |
| RoundTrip.EnumRoundTrip | src/de.rs:320-341 | a declared variant whose name has no namespace, with a payload of its shape, is read back |
| RoundTrip.NewtypeVariantRoundTrip | src/de.rs:502-508 | a newtype variant whose name has no namespace is read back from its variant map |
| RoundTrip.TupleVariantRoundTrip | src/de.rs:509-517 | a tuple variant whose name has no namespace is read back from its variant map |
| RoundTrip.StructVariantRoundTrip | src/de.rs:519-527 | a struct variant whose name and field names have no namespace is read back from its variant map |
| Corners.U64Wraps | src/ser.rs:68 | a `u64` from 2^63 up is an invalid value when read back as `u64`, and reads as `i64` as the value minus 2^64 |
| Corners.SomeOfNilIsNone | src/ser.rs:137-147 | `Some` of a value that encodes to nil is read back as `None` |
| Corners.SeqStopsAtNil | src/de.rs:383-385 | from any position, the `Vec` visitor stops at the first element that encodes to nil |
| Corners.SeqTruncatedAtNil | src/de.rs:383-385 | a sequence comes back cut before its first element that encodes to nil |
| Corners.TupleStopsAtNil | src/de.rs:383-385 | from any position, the tuple visitor runs out at the first item that encodes to nil |
| Corners.TupleShortAtNil | src/de.rs:383-385 | a tuple whose item m is the first to encode to nil is refused with invalid length m |
| Corners.CollidingKeysCollapse | src/convert.rs:270-293 | two entries whose keys (with no float, byte array or map inside) encode alike leave fewer host entries than entries, so the map never reads back as it was |
| Corners.RepeatedKeysKeepLastValue | src/convert.rs:270-293 | a map whose map-free keys (with no float, byte array or map inside) repeat reads back, in any host order, as a map with distinct keys in which exactly the keys of its entries are bound, each to the value of its last entry as read back |
| Corners.AssocAllEncoded | src/convert.rs:270-293 | when keys encode injectively, associating the encoded pairs is encoding the associated pairs |
| Corners.NonAsciiCharRefused | src/de.rs:186-191 | every non-ASCII char, encoded, is refused with `ExpectedChar` by the decoder, which uses `deserialize_char` as written |
| Corners.CharRoundTrip | src/de.rs:186-191 | the corrected `deserialize_char` reads every char back from its encoding |
| Corners.UnknownFieldRefused | src/de.rs:350-355 | every struct map with a key that reads as a name no field has is refused, whatever its other entries and the host's order, since skipping that key's value needs `deserialize_ignored_any` |
| Corners.VisitStructRefuses | src/de.rs:456-477 | from any position up to such a key, the struct visitor fails |
| Corners.NamespacedFieldRefused | src/convert.rs:445-463 | a struct with a field named like "user/id" is refused when no field is named after its slash |
| Corners.UserIdRefused | src/convert.rs:445-463 | a struct whose one field is "user/id" never reads back against its own shape |
| Corners.NamespacedVariantRefused | src/de.rs:320-341 | a variant named like "user/id" is read back as the unknown variant "id" unless the enum declares "id" |

## Left out

- JNI failures in the encoder. Host calls made while encoding are taken to succeed (out of memory, a pending exception), so `Serializer.Serialize` always returns `Ok`. On the decoding side, a host call fails only where the codec makes it on nil or on a non-seqable object.
- Local-reference management: `AutoLocal` and the deletion of local refs in `ArrayList::add`. These do not affect the values computed.
- PersistentHashMap's hash function and trie layout. The order in which `keyIterator`, `valIterator` and `RT.seq` visit a map is an arbitrary `Host.IterOrder`, the same for all three over the same map. Every result is proved for every such order, so the model does not say which order a given map has.
- Floating-point arithmetic. Floats are bit patterns, and `as` between `f32` and `f64` is a symbolic token.
- `deserialize_bytes` and `deserialize_byte_buf` are `unimplemented!()` (src/de.rs:214-226), so there is no bytes shape. `Convert.DecodeBytes` models the probe they would use.
- `deserialize_any` and `deserialize_ignored_any` always fail (src/de.rs:41-46, 350-355). serde's visitor machinery is replaced by `DataModel.Schema`: which `deserialize_*` a derived `Deserialize` calls, and with which fields and variants. User-written visitors are not modelled.
- Builder.CreateHashMap: `create(Object...)`, looked up at src/convert.rs:140-143, reads `init[i + 1]` past the end of an odd-length array and throws `ArrayIndexOutOfBoundsException`. The model reports this as `HostCallFailure`, without naming the exception. The encoder never stages an odd number of objects (`Builder.CreateOfFlatten`).
- Builder.CreateHashMap: keys are compared structurally, which agrees with PersistentHashMap's `Util.equiv` except for boxed numbers and arrays. The host treats `Integer` 1, `Short` 1 and `Long` 1 as one key, never matches a NaN key (not even with itself), may identify `0.0` and `-0.0`, and compares byte arrays by identity. The host also compares map-valued keys whatever the order of their entries (`APersistentMap.equiv`, `Murmur3.hashUnordered`), whereas the model's `Host.HashMap` keeps the order entries were added in. Within one schema the integer keys of a map all have one box kind, and the fields of a struct one order, so only keys with a float, byte array or map inside differ.
- RoundTrip.RoundTrip: not promised for a map with a float, byte array or map inside a key, because the host's key equality for such keys is not modelled.
- RoundTrip.MapRoundTrip: stated only for keys with no float, byte array or map inside, for the same reason.
- RoundTrip.FlatMapRoundTrip: stated only for keys with no float, byte array or map inside, for the same reason.
- Corners.CollidingKeysCollapse: stated only for keys with no float, byte array or map inside, for the same reason.
- Corners.RepeatedKeysKeepLastValue: stated only for keys with no float, byte array or map inside, for the same reason.
- `i128` and `u128`: the serializer does not override `serialize_i128` and `serialize_u128` in src/ser.rs, so serde's default refuses them with an error. The model's `DataModel.Value` has no 128-bit integers.
- Ser.U64AsI64: the `// TODO: BigInt here` at src/ser.rs:68 is not acted on. `u64` keeps its wrapping cast, as written; `Corners.U64Wraps` shows the consequence.
- The `Java_Test_test` entry point (test/src/lib.rs:25-48) and test/src/Test.java are not part of this model. The values they build are ordinary `DataModel.Value`s.
- `Error::Message` text: serde's custom errors are modelled by kind (`InvalidValue`, `InvalidLength`, `UnknownVariant`, `DuplicateField`, `MissingField`), not by message.
- De.VisitFloat: states only the same-width case. A cross-width visit is kept as a symbolic cast token, because there is no float arithmetic.

## Findings

| source | as written | input that shows it | evidently intended | confidence | as-written member | corrected member |
|---|---|---|---|---|---|---|
| src/convert.rs:445-458 | `decode_keyword` reads a keyword with `getName`, which drops the namespace `Keyword.intern` split off | a struct field or variant renamed "user/id": the serializer writes `:user/id`, the decoder reads the name "id", and the struct is refused (`deserialize_ignored_any`) | read the whole text, namespace included, so every field and variant name round-trips | not executed | Convert.DecodeKeyword, Corners.NamespacedFieldRefused | Convert.DecodeQualifiedKeyword, Convert.QualifiedKeywordReadsBack |
| src/de.rs:187 | `s.len() == 1` compares the UTF-8 byte length of the string with 1 | the char `é` (U+00E9), which the serializer writes as a one-character string of two UTF-8 bytes; `deserialize_char` refuses it with `ExpectedChar` | accept any string of exactly one char (`s.chars().count() == 1`), so every char round-trips | not executed | De.DeserializeCharAsWritten, Corners.NonAsciiCharRefused | De.DeserializeChar, Corners.CharRoundTrip |

`De.Decode` reads chars with `De.DeserializeCharAsWritten` and keywords with `Convert.DecodeKeyword`, as the crate does. So the non-ASCII char and the namespaced name are lossy corners of `RoundTrip.RoundTrip`. `De.DeserializeChar` and `Convert.DecodeQualifiedKeyword` are the corrected readers, each proved to read every input back.
