/** `__JSONDecoder` of the adapter: its coding path and container stack, the
    paired push/pop around every nested decode, primitive unboxing, the
    mapping of parser error kinds to `DecodingError`, the construction of the
    containers it hands out, and its role as single-value container. */
module JsonDecoder {
  import opened Optionals
  import opened Keys
  import opened Tree
  import opened Errors
  import opened Coding
  import Storage

  // ---- Parser error kinds and `swiftErrorFromError`

  /** The error kinds the parser reports (`JNTErrorInfo.type`). */
  datatype ErrorKind = NoError | WrongType | NumberDoesNotFit | KeyDoesNotExist | ValueDoesNotExist | JsonParsingFailed

  /** What the parser reports about an error: its kind and, for a missing
      key, the key's text (`None` for a null pointer or text that is not
      valid UTF-8). */
  datatype ErrorInfo = ErrorInfo(kind: ErrorKind, key: Option<string>)

  /** `swiftErrorFromError`: the path is the decoder's path plus the key when
      one is given, except for a parse failure, which has the empty path. */
  function SwiftErrorFromError(info: ErrorInfo, codingPath: CodingPath, key: Option<CodingKey>): (e: DecodingError)
    ensures e.TypeMismatch? <==> info.kind == WrongType
    ensures e.ValueNotFound? <==> info.kind == ValueDoesNotExist
    ensures e.KeyNotFound? <==> info.kind == KeyDoesNotExist
    ensures e.DataCorrupted? <==> info.kind == NumberDoesNotFit || info.kind == JsonParsingFailed
    ensures e.Unclassified? <==> info.kind == NoError
    ensures info.kind in {WrongType, NumberDoesNotFit, KeyDoesNotExist, ValueDoesNotExist} ==>
              e.codingPath == codingPath + KeyPath(key)
    ensures info.kind == JsonParsingFailed ==> e.codingPath == []
    ensures e.KeyNotFound? ==> e.key.stringValue == info.key.GetOr("") && e.key.intValue.None?
  {
    var path := codingPath + KeyPath(key);
    match info.kind
    case WrongType => TypeMismatch(path)
    case NumberDoesNotFit => DataCorrupted(path)
    case KeyDoesNotExist => KeyNotFound(JSONKeyFromString(info.key.GetOr("")), path)
    case ValueDoesNotExist => ValueNotFound(path)
    case JsonParsingFailed => DataCorrupted([])
    case NoError => Unclassified
  }

  // ---- Primitive reads (the parser's per-type decode functions)

  /** A primitive read by the parser: the value, or the error it flags. */
  datatype Native = Decoded(p: Prim) | Raised(info: ErrorInfo)

  function Mismatch(v: Json): ErrorInfo {
    if v == Null then ErrorInfo(ValueDoesNotExist, None) else ErrorInfo(WrongType, None)
  }

  /** Reading a node as a primitive of the given kind: null is a missing
      value, a node of another shape is the wrong type, and an integer
      outside the width does not fit. */
  function NativeDecode(kind: PrimKind, v: Json): (r: Native)
    ensures r.Decoded? ==> Fits(kind, r.p) && PrimToJson(r.p) == v
    ensures (exists p :: PrimToJson(p) == v && Fits(kind, p)) ==> r.Decoded?
    ensures r.Raised? ==> (r.info.kind == ValueDoesNotExist <==> v == Null)
    ensures r.Raised? ==> (r.info.kind == NumberDoesNotFit <==> v.Int? && kind.IntKind?)
    ensures r.Raised? ==> r.info.kind in {WrongType, NumberDoesNotFit, ValueDoesNotExist}
  {
    match kind
    case BoolKind => if v.Bool? then Decoded(BoolValue(v.b)) else Raised(Mismatch(v))
    case StringKind => if v.Str? then Decoded(StringValue(v.s)) else Raised(Mismatch(v))
    case IntKind(w) =>
      if v.Int? then
        if Lo(w) <= v.i <= Hi(w) then Decoded(IntValue(v.i)) else Raised(ErrorInfo(NumberDoesNotFit, None))
      else Raised(Mismatch(v))
  }

  // ---- The decoder state

  datatype Decoder = Decoder(codingPath: CodingPath, storage: Storage.DecodingStorage)

  /** The decoder a type's `init(from:)` is handed, as far as it can tell:
      the node on top of the stack, at the given path. */
  function DecoderAt(v: Json, path: CodingPath): (d: Decoder)
    ensures d.codingPath == path
    ensures !Storage.IsEmpty(d.storage) && Storage.TopContainer(d.storage) == v
  {
    Decoder(path, Storage.DecodingStorage([v]))
  }

  /** `push(container:key:)`: the node goes on the stack; the path grows by
      the key only when there is one. Popping with `key != nil` undoes it. */
  function Push(d: Decoder, v: Json, key: Option<CodingKey>): (r: Decoder)
    ensures !Storage.IsEmpty(r.storage) && Storage.TopContainer(r.storage) == v
    ensures |r.storage.containers| == |d.storage.containers| + 1
    ensures r.codingPath == d.codingPath + KeyPath(key)
    ensures |r.codingPath| == |d.codingPath| + (if key.Some? then 1 else 0)
    ensures Pop(r, key.Some?) == d
  {
    Decoder(d.codingPath + KeyPath(key), Storage.Push(d.storage, v))
  }

  /** `pop(shouldRemoveKey:)`; the source traps on an empty stack or, when
      asked to remove a key, on an empty path. */
  function Pop(d: Decoder, shouldRemoveKey: bool): (r: Decoder)
    requires !Storage.IsEmpty(d.storage)
    requires shouldRemoveKey ==> |d.codingPath| > 0
    ensures |r.storage.containers| == |d.storage.containers| - 1
    ensures |r.codingPath| == |d.codingPath| - (if shouldRemoveKey then 1 else 0)
    ensures r.codingPath == d.codingPath[..|r.codingPath|]
    ensures r.storage == Storage.PopContainer(d.storage)
  {
    Decoder(
      if shouldRemoveKey then d.codingPath[..|d.codingPath| - 1] else d.codingPath,
      Storage.PopContainer(d.storage))
  }

  /** A result together with the decoder state once the call has returned
      or thrown. */
  datatype Unboxed<T> = Unboxed(result: Result<T>, decoder: Decoder)

  /** `unbox(_:as:key:)` for a type decoded through its own `init(from:)`:
      push, decode, and pop in a `defer`, so both the stack and the path are
      restored whether the decode returns or throws. */
  function Unbox<T>(d: Decoder, v: Json, key: Option<CodingKey>, init: DecodeFn<T>): (r: Unboxed<T>)
    ensures r.decoder == d
    ensures r.result == init(v, d.codingPath + KeyPath(key))
  {
    var pushed := Push(d, v, key);
    var result := init(Storage.TopContainer(pushed.storage), pushed.codingPath);
    Unboxed(result, Pop(pushed, key.Some?))
  }

  /** The per-type `unbox` overloads for primitives: no push; a flagged
      error is reported at the decoder's path plus the key. */
  function UnboxPrimitive(d: Decoder, v: Json, kind: PrimKind, key: Option<CodingKey>): (r: Result<Prim>)
    ensures r.Success? ==> Fits(kind, r.value) && PrimToJson(r.value) == v
    ensures r.Failure? ==> r.error.TypeMismatch? || r.error.ValueNotFound? || r.error.DataCorrupted?
    ensures r.Failure? ==> r.error.codingPath == d.codingPath + KeyPath(key)
    ensures r.Failure? ==> (r.error.ValueNotFound? <==> v == Null)
    ensures r.Failure? ==> (r.error.DataCorrupted? <==> v.Int? && kind.IntKind?)
  {
    match NativeDecode(kind, v)
    case Decoded(p) => Success(p)
    case Raised(info) => Failure(SwiftErrorFromError(info, d.codingPath, key))
  }

  /** `init(from:)` of a primitive type: `singleValueContainer().decode(_:)`. */
  function PrimitiveDecoder(kind: PrimKind): DecodeFn<Prim> {
    (v: Json, path: CodingPath) => UnboxPrimitive(DecoderAt(v, path), v, kind, None)
  }

  /** The primitive overloads take a shortcut past push/pop; the outcome is
      the same as unboxing through the primitive type's `init(from:)`. */
  lemma PrimitiveShortcutAgrees(d: Decoder, v: Json, kind: PrimKind, key: Option<CodingKey>)
    ensures UnboxPrimitive(d, v, kind, key) == Unbox(d, v, key, PrimitiveDecoder(kind)).result
  {
    assert DecoderAt(v, d.codingPath + KeyPath(key)).codingPath + KeyPath(None)
        == d.codingPath + KeyPath(key);
  }

  /** A primitive written by its encoder reads back unchanged. */
  lemma PrimitiveRoundTrip(kind: PrimKind, p: Prim, path: CodingPath)
    requires Fits(kind, p)
    ensures PrimitiveDecoder(kind)(PrimToJson(p), path) == Success(p)
  {
  }

  // ---- Super decoders

  /** A child decoder and the parent's state once the call has returned. */
  datatype SuperDecoded = SuperDecoded(child: Decoder, parent: Decoder)

  /** `unboxSuper(_:key:)` as written: the child decoder starts with the
      default, empty coding path. */
  function UnboxSuperAsWritten(d: Decoder, v: Json, key: Option<CodingKey>): (r: SuperDecoded)
    ensures r.parent == d
    ensures r.child.codingPath == []
    ensures r.child.storage == Storage.Push(d.storage, v)
  {
    var pushed := Push(d, v, key);
    var child := Decoder([], Storage.CreateCopy(pushed.storage));
    SuperDecoded(child, Pop(pushed, key.Some?))
  }

  /** The child decoder loses every key of the parent's path and the key it
      was created for. */
  lemma SuperDecoderDropsPath(d: Decoder, v: Json, key: CodingKey)
    ensures UnboxSuperAsWritten(d, v, Some(key)).child.codingPath != d.codingPath + [key]
  {
  }

  /** `unboxSuper(_:key:)` with the child scoped to the subtree it decodes:
      it sees a copy of the stack with the node on top, at the parent's path
      plus the key, and the parent is left as it was. */
  function UnboxSuper(d: Decoder, v: Json, key: Option<CodingKey>): (r: SuperDecoded)
    ensures r.parent == d
    ensures r.child.codingPath == d.codingPath + KeyPath(key)
    ensures !Storage.IsEmpty(r.child.storage) && Storage.TopContainer(r.child.storage) == v
    ensures Storage.PopContainer(r.child.storage) == d.storage
  {
    var pushed := Push(d, v, key);
    var child := Decoder(pushed.codingPath, Storage.CreateCopy(pushed.storage));
    SuperDecoded(child, Pop(pushed, key.Some?))
  }

  // ---- Containers handed out by the decoder

  /** `JSONUnkeyedDecoder`: a cursor over an array's elements. The parser's
      iterator is represented by the elements themselves. */
  datatype UnkeyedDecoder = UnkeyedDecoder(decoder: Decoder, elems: seq<Json>, count: Option<int>, currentIndex: int)

  /** The state every constructed unkeyed container is in: the count is
      known and the cursor lies within the array. */
  predicate Valid(c: UnkeyedDecoder) {
    c.count == Some(|c.elems|) && 0 <= c.currentIndex <= |c.elems|
  }

  /** `isAtEnd`: a missing count counts as zero. On a constructed
      container, being at the end means every element has been consumed. */
  function IsAtEnd(c: UnkeyedDecoder): (atEnd: bool)
    ensures Valid(c) ==> (atEnd <==> c.currentIndex == |c.elems|)
  {
    c.currentIndex >= c.count.GetOr(0)
  }

  /** `JSONUnkeyedDecoder.init` after `ensureValueIsArray`: a non-array is a
      type mismatch at the decoder's path; an array gives a cursor at 0 whose
      count is the array's length. */
  function NewUnkeyed(d: Decoder, v: Json): (r: Result<UnkeyedDecoder>)
    ensures r.Failure? <==> !v.Arr?
    ensures r.Failure? ==> r.error == TypeMismatch(d.codingPath)
    ensures r.Success? ==> Valid(r.value) && r.value.decoder == d && r.value.elems == v.elems
    ensures r.Success? ==> r.value.currentIndex == 0 && r.value.count == Some(|v.elems|)
  {
    if v.Arr? then Success(UnkeyedDecoder(d, v.elems, Some(|v.elems|), 0))
    else Failure(TypeMismatch(d.codingPath))
  }

  /** `JSONKeyedDecoder`: a view of an object's members. */
  datatype KeyedDecoder = KeyedDecoder(decoder: Decoder, entries: seq<(string, Json)>)

  /** `JSONKeyedDecoder.init` after `ensureValueIsDictionary`, as written:
      a non-object is a type mismatch at the EMPTY path. */
  function NewKeyedAsWritten(d: Decoder, v: Json): (r: Result<KeyedDecoder>)
    ensures r.Failure? <==> !v.Obj?
    ensures r.Failure? ==> r.error == TypeMismatch([])
    ensures r.Success? ==> r.value == KeyedDecoder(d, v.entries)
  {
    if v.Obj? then Success(KeyedDecoder(d, v.entries)) else Failure(TypeMismatch([]))
  }

  /** Below the root the error names no position at all, unlike the
      matching array check. */
  lemma KeyedTypeMismatchDropsPath(d: Decoder, v: Json)
    requires !v.Obj? && !v.Arr? && |d.codingPath| > 0
    ensures NewKeyedAsWritten(d, v).error.codingPath != NewUnkeyed(d, v).error.codingPath
  {
  }

  /** `JSONKeyedDecoder.init` reporting a non-object at the decoder's path,
      as the array check does. */
  function NewKeyed(d: Decoder, v: Json): (r: Result<KeyedDecoder>)
    ensures r.Failure? <==> !v.Obj?
    ensures r.Failure? ==> r.error == TypeMismatch(d.codingPath)
    ensures r.Success? ==> r.value.decoder == d && r.value.entries == v.entries
  {
    if v.Obj? then Success(KeyedDecoder(d, v.entries)) else Failure(TypeMismatch(d.codingPath))
  }

  /** `unkeyedContainer()`: a cursor at the start of the top container when
      it is an array; otherwise a type mismatch at the decoder's path. */
  function UnkeyedContainer(d: Decoder): (r: Result<UnkeyedDecoder>)
    requires !Storage.IsEmpty(d.storage)
    ensures r.Failure? <==> !Storage.TopContainer(d.storage).Arr?
    ensures r.Failure? ==> r.error == TypeMismatch(d.codingPath)
    ensures r.Success? ==> Valid(r.value) && r.value.decoder == d
    ensures r.Success? ==> r.value.elems == Storage.TopContainer(d.storage).elems && r.value.currentIndex == 0
    ensures r.Success? ==> r.value.count == Some(|r.value.elems|)
  {
    NewUnkeyed(d, Storage.TopContainer(d.storage))
  }

  /** On an array, the cursor `unkeyedContainer()` hands out. */
  lemma UnkeyedContainerOnArray(v: Json, path: CodingPath)
    requires v.Arr?
    ensures UnkeyedContainer(DecoderAt(v, path)) == Success(UnkeyedDecoder(DecoderAt(v, path), v.elems, Some(|v.elems|), 0))
  {
  }

  /** `container(keyedBy:)`: a view of the members of the top container when
      it is an object; otherwise a type mismatch that, as written, names the
      empty path rather than the decoder's. */
  function KeyedContainer(d: Decoder): (r: Result<KeyedDecoder>)
    requires !Storage.IsEmpty(d.storage)
    ensures r.Failure? <==> !Storage.TopContainer(d.storage).Obj?
    ensures r.Failure? ==> r.error == TypeMismatch([])
    ensures r.Success? ==> r.value.decoder == d && r.value.entries == Storage.TopContainer(d.storage).entries
  {
    NewKeyedAsWritten(d, Storage.TopContainer(d.storage))
  }

  // ---- The decoder as its own single-value container

  /** `decodeNil()`: never throws; true exactly for a null top container. */
  function SingleDecodeNil(d: Decoder): (b: bool)
    requires !Storage.IsEmpty(d.storage)
    ensures b <==> Storage.TopContainer(d.storage) == Null
  {
    Storage.TopContainer(d.storage) == Null
  }

  /** `decode(_:)` of a type with its own `init(from:)`: unboxes the top
      container with no key, so the path is unchanged. */
  function SingleDecode<T>(d: Decoder, init: DecodeFn<T>): (r: Result<T>)
    requires !Storage.IsEmpty(d.storage)
    ensures r == init(Storage.TopContainer(d.storage), d.codingPath)
  {
    Unbox(d, Storage.TopContainer(d.storage), None, init).result
  }

  /** `decode(_:)` of a primitive type. */
  function SingleDecodePrimitive(d: Decoder, kind: PrimKind): (r: Result<Prim>)
    requires !Storage.IsEmpty(d.storage)
    ensures r.Success? ==> Fits(kind, r.value) && PrimToJson(r.value) == Storage.TopContainer(d.storage)
    ensures r.Failure? ==> !r.error.Unclassified? && r.error.codingPath == d.codingPath
  {
    UnboxPrimitive(d, Storage.TopContainer(d.storage), kind, None)
  }

  /** `ZippyJSONDecoder.decode(_:from:)` once the document has parsed: a
      fresh decoder with an empty stack and path unboxes the root with no
      key, and is left empty again. */
  function DecodeDocument<T>(doc: Json, init: DecodeFn<T>): (r: Unboxed<T>)
    ensures r.result == init(doc, [])
    ensures Storage.IsEmpty(r.decoder.storage) && r.decoder.codingPath == []
  {
    Unbox(Decoder([], Storage.Empty), doc, None, init)
  }
}
