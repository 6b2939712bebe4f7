# Swift `Codable` defaults and the ZippyJSON decoding adapter, in Dafny

This project models two cooperating pieces of Swift:

- **The standard `Codable` layer** (`InlinableCodable/Codable.swift`). This is the container protocols' default
  implementations:
  - `encodeIfPresent` and `encodeConditional`;
  - keyed and unkeyed `decodeIfPresent`;
  - `encode(contentsOf:)`;
  - the three `DecodingError.dataCorruptedError` helpers.

  It also covers the conformances of `Optional`, `Array`, `Dictionary` and `RawRepresentable`, and the
  `_DictionaryCodingKey` and `_GenericIndexKey` key types.
- **The decoding side of the ZippyJSON adapter** (`codable_benchmarks/ZippyJSONDecoder2.swift`):
  - `__JSONDecoder`, with its coding path, its container stack (`JSONDecodingStorage`), the paired
    `push`/`pop` around every nested decode, primitive unboxing, `unboxSuper` and the `[String: V]` shortcut;
  - the mapping of the parser's error kinds to `DecodingError` (`swiftErrorFromError`);
  - the unkeyed cursor `JSONUnkeyedDecoder`;
  - the keyed view `JSONKeyedDecoder`;
  - the `IndexKey` and `JSONKey` key types.

The parsed document is an immutable value tree, `Tree.Json`. Objects keep their members in document order and
lookup finds the first member with a name.

A type's `init(from:)` is a `Coding.DecodeFn<T>`, a function of the node on top of the decoder's stack and the
decoder's coding path. Its `encode(to:)` is a `Coding.EncodeFn<T>`, the subtree it writes. Round trips are stated
with `Coding.RoundTrips(enc, dec)`: decoding what was encoded gives the value back at every path.

Containers are values:

- a mutating call on an unkeyed container returns `Unkeyed.Step(result, next)`, the outcome and the container as
  the call left it;
- keyed and unkeyed encoding containers are the members or elements written so far.

The fifteen per-type primitive overloads collapse into one operation on `Tree.Prim`, selected by a `Tree.PrimKind`:
`Bool`, `String`, and `Int` at each of ten widths with its exact bounds.

The foreign parser's per-type reads are replaced by `JsonDecoder.NativeDecode`. It states what the adapter relies on:

- null is a missing value;
- another shape is the wrong type;
- an integer outside the width does not fit.

Modules, in dependency order:

- `Optionals`, `Decimal`, `Keys`, `Tree`, `Errors`, `Coding`, `Storage`;
- `JsonDecoder`, `Unkeyed`, `Keyed`, `Encoding`;
- `Defaults`, `Conformances`, `Dictionaries`, `Scenarios`.

## Model

| member | source | states |
|---|---|---|
| Keys.DictionaryKeyFromString | InlinableCodable/Codable.swift:2686-2689 | the key keeps the text, and its integer view is exactly what `Int(text)` gives: present only within 64 bits, and for the decimal text of any 64-bit integer, that integer |
| Keys.DictionaryKeyFromInt | InlinableCodable/Codable.swift:2691-2694 | the integer view is n and the text is the decimal rendering of n, which parses back to n for any 64-bit n |
| Keys.DictionaryKeyFromCodingKey | InlinableCodable/Codable.swift:2696-2699 | both views of the wrapped key are copied |
| Keys.DictionaryKeyConstructorsAgree | InlinableCodable/Codable.swift:2686-2694 | rebuilding a key from the text of an `Int` key gives the same key, so the two initialisers agree |
| Decimal.ParseInt | InlinableCodable/Codable.swift:2688 | `Int(text)`: a result is a 64-bit integer; the empty text, and any text with a non-digit after the first character or a first character other than a digit or sign, give `nil`; an all-digit text parses exactly when its value fits, and gives that value; a sign followed by digits gives the signed value when it fits, so `"+5"` is 5 and `"-007"` is -7 |
| Decimal.ParseDecimalString | InlinableCodable/Codable.swift:2686-2694 | the decimal rendering of any 64-bit integer parses back to it |
| Decimal.DecimalStringInjective | InlinableCodable/Codable.swift:2691-2694 | distinct 64-bit integers have distinct decimal texts |
| Keys.GenericIndexKey | InlinableCodable/Codable.swift:1012-1016 | integer view n, text "Index " followed by the decimal n |
| Keys.GenericIndexKeyFromString | InlinableCodable/Codable.swift:1007-1010 | building one from text always fails |
| Keys.IndexKey | codable_benchmarks/ZippyJSONDecoder2.swift:637-654 | integer view n, text the bare decimal n |
| Keys.JSONKeyFromString | codable_benchmarks/ZippyJSONDecoder2.swift:661-664 | text kept, no integer view |
| Keys.JSONKeyFromInt | codable_benchmarks/ZippyJSONDecoder2.swift:666-669 | the same key `_DictionaryCodingKey(intValue:)` builds: integer view n, text the decimal n |
| Keys.JSONKeyFromIndex | codable_benchmarks/ZippyJSONDecoder2.swift:676-679 | the same key as `_GenericIndexKey` for that index |
| Keys.IndexKeysDisagreeOnText | codable_benchmarks/ZippyJSONDecoder2.swift:637-644 | `IndexKey(n)` and `_GenericIndexKey(n)` share the integer view but never the text |
| Storage.Push | codable_benchmarks/ZippyJSONDecoder2.swift:288-290 | the pushed node is the top, the depth grows by one, and popping gives the old stack back |
| Storage.TopContainer | codable_benchmarks/ZippyJSONDecoder2.swift:283-286 | the top is one of the stack's containers, and the only one on a one-element stack |
| Storage.PushTopAfterPop | codable_benchmarks/ZippyJSONDecoder2.swift:283-295 | pushing the top back onto the popped stack gives the stack again: the top is the last container pushed |
| Storage.PopContainer | codable_benchmarks/ZippyJSONDecoder2.swift:292-295 | `removeLast` on a non-empty stack: what is left, with the top put back on, is the original stack |
| Storage.CreateCopy | codable_benchmarks/ZippyJSONDecoder2.swift:277-281 | the copy has the same containers in the same order |
| JsonDecoder.SwiftErrorFromError | codable_benchmarks/ZippyJSONDecoder2.swift:240-269 | each parser error kind maps to its `DecodingError` case, both ways; all but a parse failure carry the decoder's path plus the key; a parse failure carries the empty path; a missing key is named by its text |
| JsonDecoder.NativeDecode | codable_benchmarks/ZippyJSONDecoder2.swift:533-537 | a read succeeds exactly when the node is a value of the requested type, and then gives that value; otherwise null is "value does not exist", an integer out of range is "does not fit", and anything else is "wrong type" |
| JsonDecoder.Push | codable_benchmarks/ZippyJSONDecoder2.swift:389-394 | the node is on top; the path grows by the key exactly when one is given; `pop` with `key != nil` restores the decoder |
| JsonDecoder.Pop | codable_benchmarks/ZippyJSONDecoder2.swift:398-403 | the stack is the old stack with its top removed; the path loses its last key only when asked, and what remains is a prefix of it |
| JsonDecoder.Unbox | codable_benchmarks/ZippyJSONDecoder2.swift:482-504 | the nested decode sees the node at the path plus the key, and afterwards the decoder is exactly as before, whether the decode succeeded or threw |
| JsonDecoder.UnboxPrimitive | codable_benchmarks/ZippyJSONDecoder2.swift:533-616 | a success is a value of the type that writes back as the node; a failure is type mismatch, value not found (exactly for null) or data corrupted (exactly for an integer out of range), at the path plus the key |
| JsonDecoder.PrimitiveShortcutAgrees | codable_benchmarks/ZippyJSONDecoder2.swift:533-537 | the primitive overloads skip push/pop, yet give the same result as unboxing through the primitive's own `init(from:)` |
| JsonDecoder.PrimitiveRoundTrip | codable_benchmarks/ZippyJSONDecoder2.swift:1053-1055 | a primitive of the requested type reads back unchanged |
| JsonDecoder.UnboxSuperAsWritten | codable_benchmarks/ZippyJSONDecoder2.swift:623-629 | as written: the parent is restored, and the child sees the node on top of a copied stack but has the empty path |
| JsonDecoder.SuperDecoderDropsPath | codable_benchmarks/ZippyJSONDecoder2.swift:623-629 | the child's path is never the parent's path plus the key |
| JsonDecoder.UnboxSuper | codable_benchmarks/ZippyJSONDecoder2.swift:623-629 | corrected: the child's path is the parent's path plus the key; the child's stack is the parent's with the node on top; the parent is unchanged |
| JsonDecoder.IsAtEnd | codable_benchmarks/ZippyJSONDecoder2.swift:692-695 | `isAtEnd`, with a missing count read as zero: on a constructed container it holds exactly when every element has been consumed |
| JsonDecoder.NewUnkeyed | codable_benchmarks/ZippyJSONDecoder2.swift:701-710 | fails exactly on a non-array, with type mismatch at the decoder's path; otherwise the cursor is at 0 and the count is the array's length |
| JsonDecoder.NewKeyedAsWritten | codable_benchmarks/ZippyJSONDecoder2.swift:896-900 | as written: fails exactly on a non-object, with type mismatch at the empty path |
| JsonDecoder.KeyedTypeMismatchDropsPath | codable_benchmarks/ZippyJSONDecoder2.swift:896-900 | below the root, the keyed check's error path differs from the array check's on the same node |
| JsonDecoder.NewKeyed | codable_benchmarks/ZippyJSONDecoder2.swift:911-915 | corrected: fails exactly on a non-object, with type mismatch at the decoder's path; otherwise a view of the object's members |
| JsonDecoder.UnkeyedContainer | codable_benchmarks/ZippyJSONDecoder2.swift:353-355 | fails exactly when the top container is not an array, with type mismatch at the decoder's path; otherwise a cursor on this decoder over the array's elements, at position 0, counting all of them |
| JsonDecoder.KeyedContainer | codable_benchmarks/ZippyJSONDecoder2.swift:348-351 | as written: fails exactly when the top container is not an object, with type mismatch at the empty path; otherwise a view of the object's members on this decoder |
| JsonDecoder.UnkeyedContainerOnArray | codable_benchmarks/ZippyJSONDecoder2.swift:353-355 | on an array, the container is a cursor at position 0 over all its elements, counting them |
| JsonDecoder.SingleDecodeNil | codable_benchmarks/ZippyJSONDecoder2.swift:1044-1046 | true exactly for a null top container |
| JsonDecoder.SingleDecode | codable_benchmarks/ZippyJSONDecoder2.swift:1048-1050 | the type decodes the top container at the decoder's own path |
| JsonDecoder.SingleDecodePrimitive | codable_benchmarks/ZippyJSONDecoder2.swift:1053-1055 | a success writes back as the top container; a failure is classified and at the decoder's path |
| JsonDecoder.DecodeDocument | codable_benchmarks/ZippyJSONDecoder2.swift:86-96 | the root is decoded at the empty path, and the decoder ends with an empty stack and path |
| Unkeyed.ValueFromIterator | codable_benchmarks/ZippyJSONDecoder2.swift:733-742 | fails exactly at the end, with value not found at the path plus `IndexKey(currentIndex)`; otherwise gives the element under the cursor |
| Unkeyed.AdvanceArray | codable_benchmarks/ZippyJSONDecoder2.swift:728-731 | the cursor moves by one, and array, count and decoder are kept |
| Unkeyed.DecodeNil | codable_benchmarks/ZippyJSONDecoder2.swift:712-719 | throws at the end; otherwise reports whether the element is null, and the cursor advances exactly when it is |
| Unkeyed.Decode | codable_benchmarks/ZippyJSONDecoder2.swift:721-726 | the element is decoded at the path plus its `IndexKey`; the cursor advances by one exactly on success; a throw leaves the container unchanged |
| Unkeyed.DecodePrimitive | codable_benchmarks/ZippyJSONDecoder2.swift:772-777 | a success writes back as the element; a failure names the element's position; the cursor advances exactly on success |
| Unkeyed.NestedContainer | codable_benchmarks/ZippyJSONDecoder2.swift:750-755 | at the end, value not found at the element's path; otherwise the element's keyed view as written, so a non-object element is type mismatch at the empty path; the cursor advances exactly on success |
| Unkeyed.NestedUnkeyedContainer | codable_benchmarks/ZippyJSONDecoder2.swift:757-762 | a fresh cursor over the element; the cursor advances exactly on success |
| Unkeyed.SuperDecoder | codable_benchmarks/ZippyJSONDecoder2.swift:764-769 | fails exactly at the end; otherwise, as written, a decoder with the element on top of its stack and the empty path, and the cursor advances |
| Unkeyed.DecodeAnyCoversEveryType | codable_benchmarks/ZippyJSONDecoder2.swift:721-726 | the generic `decode<T>` leaves the cursor where the `DecodeAnyOp` call of `Apply` does, whatever T is |
| Unkeyed.Apply | codable_benchmarks/ZippyJSONDecoder2.swift:712-769 | any one call, `decodeNil`, a primitive or generic `decode`, or a nested container or super decoder, moves the cursor forward by at most one, never past the end, and not at all once at the end |
| Unkeyed.Run | codable_benchmarks/ZippyJSONDecoder2.swift:712-769 | over any sequence of those calls, generic `decode<T>` included, the cursor never decreases, never passes the end, moves at most once per call, and stays put once at the end |
| Keyed.Contains | codable_benchmarks/ZippyJSONDecoder2.swift:923-927 | true exactly when some member has the key's text |
| Keyed.FetchValue | codable_benchmarks/ZippyJSONDecoder2.swift:929-933 | fails exactly when the key is absent, with key not found at the container's path (no key appended); otherwise gives the member |
| Keyed.DecodeNil | codable_benchmarks/ZippyJSONDecoder2.swift:935-940 | an absent key throws key not found; otherwise true exactly when the member is null |
| Keyed.Decode | codable_benchmarks/ZippyJSONDecoder2.swift:1013-1016 | an absent key is key not found at the container's path; otherwise the member is decoded at the path plus the key |
| Keyed.DecodePrimitive | codable_benchmarks/ZippyJSONDecoder2.swift:943-946 | absent is key not found; null is value not found at path plus key; any other failure is classified at path plus key; a success writes back as the member |
| Keyed.NestedContainer | codable_benchmarks/ZippyJSONDecoder2.swift:1019-1022 | an absent key is key not found; otherwise the member's keyed view as written, so a non-object member is type mismatch at the empty path; a success shares this container's decoder |
| Keyed.NestedUnkeyedContainer | codable_benchmarks/ZippyJSONDecoder2.swift:1024-1027 | a fresh cursor over the member, on this container's decoder |
| Keyed.SuperDecoderForKey | codable_benchmarks/ZippyJSONDecoder2.swift:1029-1032 | fails exactly on an absent key, with key not found; otherwise, as written, a decoder with the member on top of its stack and the empty path |
| Keyed.SuperDecoder | codable_benchmarks/ZippyJSONDecoder2.swift:1034-1036 | fails exactly when no member is named "super"; otherwise, as written, a decoder with that member on top of its stack and the empty path |
| Keyed.AcceptedFromAccepts | codable_benchmarks/ZippyJSONDecoder2.swift:919-921 | every listed position holds a name the key type accepts |
| Keyed.AcceptedFromIncreasing | codable_benchmarks/ZippyJSONDecoder2.swift:919-921 | the listed positions are strictly increasing, so keys come out in document order |
| Keyed.AcceptedFromComplete | codable_benchmarks/ZippyJSONDecoder2.swift:919-921 | every position whose name the key type accepts is listed |
| Keyed.KeysFrom | codable_benchmarks/ZippyJSONDecoder2.swift:919-921 | one key per accepted name from a position on: key i is what the key type makes of the i-th accepted position |
| Keyed.AllKeys | codable_benchmarks/ZippyJSONDecoder2.swift:919-921 | one key per member name the key type accepts, in document order: key i comes from the i-th accepted member; every key comes from a member name; when every name is accepted, exactly one key per member |
| Encoding.Put | InlinableCodable/Codable.swift:116 | the model's own reference keyed encoder, since the protocol requirement has no body: writing an existing name keeps the member order; writing a new name appends it |
| Encoding.PutKeepsDistinct | InlinableCodable/Codable.swift:116 | in the reference keyed encoder, writing a member never duplicates a name |
| Encoding.KeyedEncode | InlinableCodable/Codable.swift:116 | in the reference keyed encoder, the key now reads back as the value, and every other name reads as before |
| Encoding.KeyedEncodeNil | InlinableCodable/Codable.swift:86 | in the reference keyed encoder, the key now reads back as null, and every other name reads as before |
| Encoding.KeyedEncodeIfPresent | InlinableCodable/Codable.swift:2958-2964 | `nil` leaves the container unchanged; a value is written under the key and nothing else changes |
| Encoding.KeyedEncodeConditional | InlinableCodable/Codable.swift:2834-2841 | the object is written under the key and nothing else changes |
| Encoding.Count | InlinableCodable/Codable.swift:724 | `count`, the number of elements written: zero exactly when nothing has been written; each `encode` adds one and `encode(contentsOf:)` adds the sequence's length, as the rows below state |
| Encoding.UnkeyedEncode | InlinableCodable/Codable.swift:756 | in the model's own reference unkeyed encoder, one element is appended and the earlier ones are kept |
| Encoding.UnkeyedEncodeNil | InlinableCodable/Codable.swift:726 | in the reference unkeyed encoder, a null is appended and the earlier elements are kept |
| Encoding.UnkeyedEncodeConditional | InlinableCodable/Codable.swift:3109-3113 | the object is appended and the earlier elements are kept |
| Encoding.EncodeContentsOf | InlinableCodable/Codable.swift:3227-3233 | the count grows by the sequence's length, earlier elements are kept, and element `count + i` is the encoding of item i |
| Encoding.EncodeContentsOfAppends | InlinableCodable/Codable.swift:3115-3121 | the container gains exactly the element-wise encoding of the sequence |
| Encoding.EncodeContentsOfLoop | InlinableCodable/Codable.swift:3227-3233 | the `for` loop over a mutable container gives the container plus the element-wise encoding |
| Defaults.KeyedDecodeIfPresent | InlinableCodable/Codable.swift:3096-3103 | absent gives `nil`; null gives `nil`; otherwise exactly what `decode(_:forKey:)` returns or throws; key not found can only come from the value's own decoding |
| Defaults.UnkeyedDecodeIfPresent | InlinableCodable/Codable.swift:3337-3342 | at the end gives `nil` without moving; null gives `nil` and steps past it; otherwise the outcome of `decode(_:)`; the cursor moves exactly on a non-end success |
| Defaults.KeyedDataCorruptedError | InlinableCodable/Codable.swift:1020-1029 | data corrupted at the container's path followed by the key |
| Defaults.UnkeyedDataCorruptedError | InlinableCodable/Codable.swift:1031-1040 | data corrupted at the container's path followed by a key whose integer view is the current index and whose text is "Index n" |
| Defaults.UnkeyedErrorKeysDiffer | InlinableCodable/Codable.swift:1031-1040 | at the end, the adapter's own error and `dataCorruptedError(in:)` name the same position by integer but with different keys |
| Defaults.SingleValueDataCorruptedError | InlinableCodable/Codable.swift:1042-1049 | data corrupted at the container's own path |
| Conformances.OptionalInit | InlinableCodable/Codable.swift:2603-2613 | null decodes as `nil`; any other node as the wrapped type's decoding, wrapped |
| Conformances.OptionalRoundTrips | InlinableCodable/Codable.swift:2593-2613 | when the wrapped type round trips and never writes null, the optional round trips |
| Conformances.NestedOptionalCollapses | InlinableCodable/Codable.swift:2593-2613 | `.some(nil)` is written as null and read back as `nil`, so nested optionals never round trip |
| Conformances.EncodeOptional | InlinableCodable/Codable.swift:2593-2601 | `nil` is written as null; a wrapped value as the wrapped type writes it |
| Conformances.DecodeElements | InlinableCodable/Codable.swift:2629-2632 | a success has one value per remaining element, each what that element decodes to at its index path |
| Conformances.DecodeElementsSucceeds | InlinableCodable/Codable.swift:2629-2632 | the loop succeeds when every remaining element decodes |
| Conformances.DecodeElementsFirstFailure | InlinableCodable/Codable.swift:2629-2632 | otherwise it throws the error of the first element that fails |
| Conformances.ArrayInit | InlinableCodable/Codable.swift:2624-2634 | a non-array is type mismatch at the path; a success has one value per element, element i decoded at the path plus `IndexKey(i)` |
| Conformances.EncodeArray | InlinableCodable/Codable.swift:2615-2622 | an array with one element per item, element i the encoding of item i |
| Conformances.ArrayRoundTripAt | InlinableCodable/Codable.swift:2615-2634 | an encoded array decodes back to the items at any path when the element type round trips |
| Conformances.ArrayRoundTrips | InlinableCodable/Codable.swift:2615-2634 | an array round trips whenever its element type does |
| Conformances.EncodeRaw | InlinableCodable/Codable.swift:2124-2129 | the raw value is written; values with equal raw values are written alike |
| Conformances.RawInit | InlinableCodable/Codable.swift:2131-2145 | the raw value's error is passed on; a raw value `init?(rawValue:)` rejects is data corrupted at the decoder's path; a success is what `init?(rawValue:)` built |
| Conformances.RawRoundTrips | InlinableCodable/Codable.swift:2124-2145 | a raw-representable type round trips when its raw type does and every raw value it produces is accepted |
| Conformances.IfPresentRoundTrip | InlinableCodable/Codable.swift:2958-2964 | `encodeIfPresent` under a fresh key then `decodeIfPresent` gives the optional back, `nil` included |
| Dictionaries.Assign | InlinableCodable/Codable.swift:2748-2751 | the dictionary's keys are the earlier keys plus every pair's key |
| Dictionaries.EncodeKeyedPairs | InlinableCodable/Codable.swift:2702-2727 | the keyed encoding loop keeps every name the container had and writes a member for every pair's name |
| Dictionaries.EncodeKeyedPairsKeepsOthers | InlinableCodable/Codable.swift:2702-2727 | a name no pair is written under reads back as before |
| Dictionaries.EncodeKeyedPairsLastWins | InlinableCodable/Codable.swift:2702-2727 | a pair's name reads back the value of the last pair written under that name |
| Dictionaries.EncodeKeyedPairsFromEmpty | InlinableCodable/Codable.swift:2702-2727 | from an empty container, names of no pair are absent and each name holds the last value written under it |
| Dictionaries.KeyedEncodeKeepsNames | InlinableCodable/Codable.swift:2707-2710 | one keyed write keeps every existing name and adds its own |
| Dictionaries.EncodeKeyedPairsAppends | InlinableCodable/Codable.swift:2706-2710 | with distinct fresh names, the keyed encoding loop appends one member per pair, in order, each the key's text and the value's encoding |
| Dictionaries.EncodeStringKeyed | InlinableCodable/Codable.swift:2704-2710 | `[String: V]` is written as an object: a name no key has is absent, and each key reads back the last value given for it |
| Dictionaries.EncodeIntKeyed | InlinableCodable/Codable.swift:2711-2717 | `[Int: V]` is written as an object named by the keys' decimal texts: other names are absent, and each key's text reads back the last value given for it |
| Dictionaries.EncodeRepresentableKeyed | InlinableCodable/Codable.swift:2718-2727 | a `CodingKeyRepresentable` key is written under its coding key's text: other names are absent, and each text reads back the last value given for it |
| Dictionaries.StringKeyOf | InlinableCodable/Codable.swift:2750 | a `String` key is the coding key's text |
| Dictionaries.IntKeyOf | InlinableCodable/Codable.swift:2755-2771 | an `Int` key is the integer view; a key without one is type mismatch at the path plus that key |
| Dictionaries.RepresentableKeyOf | InlinableCodable/Codable.swift:2781-2788 | a key `init?(codingKey:)` rejects is `dataCorruptedError(forKey:in:)` |
| Dictionaries.DecodeKeyedEntries | InlinableCodable/Codable.swift:2781-2791 | a failure is the error of some key's conversion or some value's decoding |
| Dictionaries.DecodeKeyedEntriesSucceeds | InlinableCodable/Codable.swift:2748-2751 | when every key converts and every value decodes, the result assigns the pairs in order |
| Dictionaries.DecodeKeyedEntriesFails | InlinableCodable/Codable.swift:2748-2751 | when any value fails to decode, the loop fails |
| Dictionaries.DecodeKeyedEntriesFirstFailure | InlinableCodable/Codable.swift:2745-2791 | when every key before position j converts and decodes and key j does not, the loop throws key j's error: its conversion's if that fails, otherwise its value's |
| Dictionaries.DecodeKeyedEntriesStep | InlinableCodable/Codable.swift:2748-2751 | one turn converts the first key, decodes its value, stores the pair and goes on with the rest |
| Dictionaries.KeyedDictInit | InlinableCodable/Codable.swift:2745-2791 | as written: a non-object is type mismatch at the empty path; an empty object is the empty dictionary; an object is the `DecodeKeyedEntries` loop over one key per member of a container at the given path |
| Dictionaries.AllDictionaryKeys | codable_benchmarks/ZippyJSONDecoder2.swift:919-921 | `allKeys` of a `_DictionaryCodingKey` container has one key per member, built from its name |
| Dictionaries.KeyedDictRoundTrip | InlinableCodable/Codable.swift:2704-2791 | any keyed layout round trips when names are distinct, each name converts back to its key, and the value type round trips |
| Dictionaries.StringKeyedRoundTrip | InlinableCodable/Codable.swift:2704-2751 | `[String: V]` round trips whenever `V` does |
| Dictionaries.IntKeyedRoundTrip | InlinableCodable/Codable.swift:2711-2775 | `[Int: V]` round trips whenever `V` does: the decimal text of each key parses back to it |
| Dictionaries.RepresentableKeyedRoundTrip | InlinableCodable/Codable.swift:2718-2791 | a `CodingKeyRepresentable` key type round trips when distinct keys have distinct texts and `init?(codingKey:)` inverts `codingKey` |
| Dictionaries.IntKeyedRejectsTextKey | InlinableCodable/Codable.swift:2756-2771 | a lone member named "one" in an `[Int: V]` is type mismatch at the path plus that key |
| Dictionaries.IntKeyedRejectsFirstTextKey | InlinableCodable/Codable.swift:2755-2771 | an `[Int: V]` object whose first name that is not a 64-bit decimal is at member j, with every member before it read back, is type mismatch at the path plus member j's key |
| Dictionaries.EncodePairsInto | InlinableCodable/Codable.swift:2732-2736 | two elements per pair, key then value, after the earlier elements |
| Dictionaries.EncodePairs | InlinableCodable/Codable.swift:2728-2737 | an array of twice as many elements as pairs, with key i at position 2i and value i at position 2i+1 |
| Dictionaries.PairsInit | InlinableCodable/Codable.swift:2792-2824 | a non-array is type mismatch at the path; an odd-length array is data corrupted at the decoder's path |
| Dictionaries.DecodePairsFrom | InlinableCodable/Codable.swift:2809-2823 | at the end, the dictionary so far; a key read as the last element is data corrupted at the decoder's path; a key that fails to decode is its error |
| Dictionaries.DecodePairsFromWholePairs | InlinableCodable/Codable.swift:2809-2823 | the loop succeeds only after reading whole pairs: an even number of elements remained |
| Dictionaries.DecodePairsFromKeepsKeys | InlinableCodable/Codable.swift:2809-2823 | a success keeps every key already stored |
| Dictionaries.DecodePairsFromStep | InlinableCodable/Codable.swift:2809-2823 | a key and a value read at the next two positions are stored and the loop goes on two positions later |
| Dictionaries.DecodePairsFromAdvance | InlinableCodable/Codable.swift:2809-2823 | a successful loop with elements left reads one whole pair and succeeds again two positions later |
| Dictionaries.DecodePairsFromReadsKey | InlinableCodable/Codable.swift:2810-2820 | a successful loop with elements left reads a key and has a value after it |
| Dictionaries.DecodePairsFromValueFails | InlinableCodable/Codable.swift:2821-2822 | a value that fails after a key that did fails the loop |
| Dictionaries.EvenCountNeverEndsAfterKey | InlinableCodable/Codable.swift:2798-2819 | once an odd count is ruled out, the container never ends right after a key |
| Dictionaries.DecodePairsFromEncoded | InlinableCodable/Codable.swift:2809-2823 | reading the alternating layout from pair j assigns the remaining pairs in order |
| Dictionaries.PairsRoundTrip | InlinableCodable/Codable.swift:2728-2824 | a dictionary in the alternating layout round trips when its key and value types do |
| Dictionaries.FastPathEntries | codable_benchmarks/ZippyJSONDecoder2.swift:459-472 | once a value has failed, the loop fails; which error it throws is stated by `FastPathEntriesLastFailure` |
| Dictionaries.StringDictionaryFastPath | codable_benchmarks/ZippyJSONDecoder2.swift:458-478 | a non-object is type mismatch at the decoder's path |
| Dictionaries.FastPathEntriesSucceeds | codable_benchmarks/ZippyJSONDecoder2.swift:459-468 | when every value decodes at the dictionary's own path, the shortcut assigns the members in order |
| Dictionaries.FastPathEntriesFails | codable_benchmarks/ZippyJSONDecoder2.swift:459-472 | when any value fails, the shortcut fails |
| Dictionaries.FastPathEntriesKeepsError | codable_benchmarks/ZippyJSONDecoder2.swift:464-471 | a remembered error survives a tail whose values all decode and is the error thrown |
| Dictionaries.FastPathEntriesLastFailure | codable_benchmarks/ZippyJSONDecoder2.swift:459-472 | the shortcut throws the error of the last value that fails, each failure replacing `innerError` (unlike `Dictionary.init(from:)`, which throws the first) |
| Dictionaries.FastPathAgreesOnFailure | codable_benchmarks/ZippyJSONDecoder2.swift:499-500 | on an object with distinct names, if a value fails then both the shortcut and `Dictionary.init(from:)` fail |
| Dictionaries.FastPathAgreesOnSuccess | codable_benchmarks/ZippyJSONDecoder2.swift:499-500 | if every value decodes, both succeed with the same dictionary |
| Dictionaries.FastPathAgrees | codable_benchmarks/ZippyJSONDecoder2.swift:499-500 | for value types whose decoding ignores the path and objects with distinct names, the shortcut succeeds exactly when `Dictionary.init(from:)` does, with the same dictionary |
| Dictionaries.FastPathKeepsLast | codable_benchmarks/ZippyJSONDecoder2.swift:461-468 | on `{"a": 1, "a": 2}` the shortcut gives `["a": 2]` |
| Dictionaries.KeyedDictInitKeepsFirst | InlinableCodable/Codable.swift:2745-2751 | on `{"a": 1, "a": 2}` `Dictionary.init(from:)` reads the first member for both keys and gives `["a": 1]` |
| Dictionaries.FastPathLastValueWins | codable_benchmarks/ZippyJSONDecoder2.swift:461-468 | with a repeated name the shortcut and the generic decode give different dictionaries |
| Dictionaries.FastPathErrorOmitsKey | codable_benchmarks/ZippyJSONDecoder2.swift:464 | a failing value is reported by the shortcut at the dictionary's path, and by the generic decode at the path plus the member's key |
| Scenarios.FieldInit | codable_benchmarks/ZippyJSONDecoder2.swift:1013-1016 | a one-property type: a non-object is type mismatch at the empty path, as written; an absent property is key not found at the path; otherwise the property decoded at the path plus its key |
| Scenarios.FieldRoundTrips | codable_benchmarks/ZippyJSONDecoder2.swift:1013-1016 | such a type round trips whenever its property's type does |
| Scenarios.NestedTypeMismatchPath | codable_benchmarks/ZippyJSONDecoder2.swift:721-726 | a string where an integer is expected, two objects deep, is reported at both property keys followed by the element's `IndexKey`, whatever the string |
| Scenarios.InnerFieldMismatch | codable_benchmarks/ZippyJSONDecoder2.swift:1013-1016 | the inner object decoded at any path fails at that path plus "b" and the element's `IndexKey` |
| Scenarios.NestedKeyedMismatchPath | codable_benchmarks/ZippyJSONDecoder2.swift:896-900 | a property holding a non-object where a keyed type is expected is reported at the empty path, not at the property's key |
| Scenarios.NestedMissingKeyPath | codable_benchmarks/ZippyJSONDecoder2.swift:929-933 | a missing inner property is key not found at the path of the object that lacks it |

## Left out

- `Float`, `Double` and the non-conforming-float strategy are not modelled: they need floating point.
- The `Date`, `Data`, `Decimal` and `URL` special cases of `unbox` are not modelled. They call opaque Foundation
  formatters and Base64.
- Key decoding strategies (snake case to camel case) are not modelled. They rewrite keys in the foreign parser.
- The foreign parser (all `JNT*` calls) is replaced by the value tree. `Tree.Lookup` is an assumption about member
  lookup: the first member with the name. `JsonDecoder.NativeDecode` is an assumption about the per-type reads. A
  document that fails to parse reaches `fatalError()` and is not modelled. `JsonDecoder.DecodeDocument` starts from
  a parsed tree.
- `debugDescription` texts and the `type` payload of `typeMismatch` and `valueNotFound` are dropped from
  `Errors.DecodingError`. So is an error's `NSError` fallback, apart from an `Unclassified` case.
- `userInfo` is not modelled; it is an untyped map.
- `Set` and `ContiguousArray` are not modelled. Neither is the encoder's side of coding paths and encoder errors: only
  the written tree is modelled.
- The `_Box` type-erasure wrappers are not modelled. They only forward calls.
- `IndexKey`'s failable initialisers are not modelled: they trap.
- Hash order of `Dictionary` is not modelled. A dictionary to encode is given as its pairs in iteration order, and
  every statement holds for any order.
- Dictionaries.StringDictionaryFastPath: a non-object is assumed to be reported by the parser's key-value iteration as
  a wrong-type error at the decoder's path. The "Bad dictionary" cast failure cannot happen with typed values and is
  not modelled.
- Keyed.NestedContainer: the nested containers of both container kinds share the parent's decoder and do not push the
  member or add its key to the path, as the source does (ZippyJSONDecoder2.swift:1019-1022 and 750-755).
- Encoding.Put: the encoder protocol's requirements (Codable.swift:86, 116, 726, 756) have no body, so the keyed and
  unkeyed encoders here are the model's own reference encoder. The protocol promises no policy for a key written twice
  or for member order. The reference encoder overwrites in place and appends new names; statements that depend on that
  policy hold for this encoder only.
- JsonDecoder.DecodeDocument: the parser's error-flag checks around the top-level decode
  (ZippyJSONDecoder2.swift:88-89 and 93-95) are not modelled. Errors raised inside the foreign parser during decoding
  have no counterpart in the value tree.
- Dictionaries.FastPathEntries: names are compared by code points. Swift's `String` equality is canonical
  equivalence, so `[String: V]` merges "é" and "e\u{301}" (Codable.swift:2750, ZippyJSONDecoder2.swift:462-464),
  while the model keeps them apart.
- Dictionaries.DecodeKeyedEntries: the same code-point comparison; canonically equivalent names are distinct keys here.
- Keyed.FetchValue: the lookup goes through `withCString`, which truncates a key at its first NUL character. The model
  compares the whole key; a key holding NUL is not modelled.
- Keyed.Contains: the same `withCString` truncation is not modelled.
- JsonDecoder.NativeDecode: strings are read as Dafny strings; UTF-8 validation of the parser's text is not modelled.

## Findings

The rest of the model follows the source as written: `JsonDecoder.KeyedContainer`, the nested containers, the
super decoders and every dictionary and scenario statement use `JsonDecoder.NewKeyedAsWritten` and
`JsonDecoder.UnboxSuperAsWritten`. The corrected members are stated beside them, with their intended properties
proved, and nothing else depends on them.

| source | as written | input that shows it | evidently intended | confidence | as-written member | corrected member |
|---|---|---|---|---|---|---|
| codable_benchmarks/ZippyJSONDecoder2.swift:896-900 | `ensureValueIsDictionary` throws `typeMismatch` with an empty coding path | the document `{"a": 1}` decoded as a type with one property `a` of a keyed type: the error path is `[]` | the decoder's coding path, `[a]`, as the array check at lines 744-748 reports | medium, not executed | JsonDecoder.NewKeyedAsWritten | JsonDecoder.NewKeyed |
| codable_benchmarks/ZippyJSONDecoder2.swift:623-629 | `unboxSuper` builds the child decoder without a coding path, so it starts from the default empty path (line 317) | `superDecoder(forKey: k)` on a keyed container at path `[a]`: the child's path is `[]` | the parent's path plus the key, `[a, k]`, the path every other nested decode sees | medium, not executed | JsonDecoder.UnboxSuperAsWritten | JsonDecoder.UnboxSuper |
