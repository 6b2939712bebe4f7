/** The operations of `JSONUnkeyedDecoder`: each read fetches the element
    under the cursor (failing with `valueNotFound` at the end) and advances
    the cursor by exactly one only when the whole read succeeds. */
module Unkeyed {
  import opened Optionals
  import opened Keys
  import opened Tree
  import opened Errors
  import opened Coding
  import opened JsonDecoder

  /** The outcome of a mutating container call and the container after it
      (after a throw, as the throw left it). */
  datatype Step<T> = Step(result: Result<T>, next: UnkeyedDecoder)

  /** Same array, count and decoder; only the cursor may differ. */
  predicate SameArray(a: UnkeyedDecoder, b: UnkeyedDecoder) {
    a.elems == b.elems && a.count == b.count && a.decoder == b.decoder
  }

  /** The path an error about the current element carries. */
  function CurrentPath(c: UnkeyedDecoder): CodingPath {
    c.decoder.codingPath + [IndexKey(c.currentIndex)]
  }

  /** `valueFromIterator()`: the element under the cursor, or `valueNotFound`
      naming the position one past the last element. */
  function ValueFromIterator(c: UnkeyedDecoder): (r: Result<Json>)
    requires Valid(c)
    ensures r.Failure? <==> IsAtEnd(c)
    ensures r.Failure? ==> r.error == ValueNotFound(CurrentPath(c))
    ensures r.Success? ==> c.currentIndex < |c.elems| && r.value == c.elems[c.currentIndex]
  {
    if !IsAtEnd(c) then Success(c.elems[c.currentIndex])
    else Failure(ValueNotFound(CurrentPath(c)))
  }

  /** `advanceArray()`: the cursor moves to the next element. */
  function AdvanceArray(c: UnkeyedDecoder): (r: UnkeyedDecoder)
    requires Valid(c) && !IsAtEnd(c)
    ensures Valid(r) && SameArray(r, c)
    ensures r.currentIndex == c.currentIndex + 1
  {
    c.(currentIndex := c.currentIndex + 1)
  }

  /** `decodeNil()`: at the end it throws; otherwise it reports whether the
      element is null and steps past it only if it is. */
  function DecodeNil(c: UnkeyedDecoder): (s: Step<bool>)
    requires Valid(c)
    ensures Valid(s.next) && SameArray(s.next, c)
    ensures IsAtEnd(c) ==> s.result == Failure(ValueNotFound(CurrentPath(c))) && s.next == c
    ensures !IsAtEnd(c) ==> s.result == Success(c.elems[c.currentIndex] == Null)
    ensures s.next.currentIndex == c.currentIndex + (if s.result == Success(true) then 1 else 0)
  {
    match ValueFromIterator(c)
    case Failure(e) => Step(Failure(e), c)
    case Success(v) =>
      var isNil := v == Null;
      Step(Success(isNil), if isNil then AdvanceArray(c) else c)
  }

  /** `decode(_:)` of a type with its own `init(from:)`: the element is
      decoded at the container's path plus `IndexKey(currentIndex)`; the
      cursor advances only on success. */
  function Decode<T>(c: UnkeyedDecoder, init: DecodeFn<T>): (s: Step<T>)
    requires Valid(c)
    ensures Valid(s.next) && SameArray(s.next, c)
    ensures IsAtEnd(c) ==> s.result == Failure(ValueNotFound(CurrentPath(c)))
    ensures !IsAtEnd(c) ==> s.result == init(c.elems[c.currentIndex], CurrentPath(c))
    ensures s.next.currentIndex == c.currentIndex + (if s.result.Success? then 1 else 0)
    ensures s.result.Failure? ==> s.next == c
  {
    match ValueFromIterator(c)
    case Failure(e) => Step(Failure(e), c)
    case Success(v) =>
      var unboxed := Unbox(c.decoder, v, Some(IndexKey(c.currentIndex)), init);
      var next := c.(decoder := unboxed.decoder);
      match unboxed.result
      case Failure(e) => Step(Failure(e), next)
      case Success(x) => Step(Success(x), AdvanceArray(next))
  }

  /** `decode(_:)` of a primitive type. */
  function DecodePrimitive(c: UnkeyedDecoder, kind: PrimKind): (s: Step<Prim>)
    requires Valid(c)
    ensures Valid(s.next) && SameArray(s.next, c)
    ensures IsAtEnd(c) ==> s.result == Failure(ValueNotFound(CurrentPath(c)))
    ensures s.result.Success? ==> PrimToJson(s.result.value) == c.elems[c.currentIndex] && Fits(kind, s.result.value)
    ensures !IsAtEnd(c) && s.result.Failure? ==> !s.result.error.Unclassified? && s.result.error.codingPath == CurrentPath(c)
    ensures s.next.currentIndex == c.currentIndex + (if s.result.Success? then 1 else 0)
    ensures s.result.Failure? ==> s.next == c
  {
    match ValueFromIterator(c)
    case Failure(e) => Step(Failure(e), c)
    case Success(v) =>
      match UnboxPrimitive(c.decoder, v, kind, Some(IndexKey(c.currentIndex)))
      case Failure(e) => Step(Failure(e), c)
      case Success(p) => Step(Success(p), AdvanceArray(c))
  }

  /** `nestedContainer(keyedBy:)`: a keyed view of the element; a
      non-object is, as written, a type mismatch at the empty path. */
  function NestedContainer(c: UnkeyedDecoder): (s: Step<KeyedDecoder>)
    requires Valid(c)
    ensures Valid(s.next) && SameArray(s.next, c)
    ensures IsAtEnd(c) ==> s.result == Failure(ValueNotFound(CurrentPath(c)))
    ensures !IsAtEnd(c) ==> s.result == NewKeyedAsWritten(c.decoder, c.elems[c.currentIndex])
    ensures !IsAtEnd(c) && !c.elems[c.currentIndex].Obj? ==> s.result == Failure(TypeMismatch([]))
    ensures s.next.currentIndex == c.currentIndex + (if s.result.Success? then 1 else 0)
    ensures s.result.Failure? ==> s.next == c
  {
    match ValueFromIterator(c)
    case Failure(e) => Step(Failure(e), c)
    case Success(v) =>
      match NewKeyedAsWritten(c.decoder, v)
      case Failure(e) => Step(Failure(e), c)
      case Success(k) => Step(Success(k), AdvanceArray(c))
  }

  /** `nestedUnkeyedContainer()`: a fresh cursor over the element. */
  function NestedUnkeyedContainer(c: UnkeyedDecoder): (s: Step<UnkeyedDecoder>)
    requires Valid(c)
    ensures Valid(s.next) && SameArray(s.next, c)
    ensures IsAtEnd(c) ==> s.result == Failure(ValueNotFound(CurrentPath(c)))
    ensures !IsAtEnd(c) ==> s.result == NewUnkeyed(c.decoder, c.elems[c.currentIndex])
    ensures s.next.currentIndex == c.currentIndex + (if s.result.Success? then 1 else 0)
    ensures s.result.Failure? ==> s.next == c
  {
    match ValueFromIterator(c)
    case Failure(e) => Step(Failure(e), c)
    case Success(v) =>
      match NewUnkeyed(c.decoder, v)
      case Failure(e) => Step(Failure(e), c)
      case Success(u) => Step(Success(u), AdvanceArray(c))
  }

  /** `superDecoder()`: a decoder whose top container is the element at the
      current index; it cannot fail except at the end. As written, the child
      starts at the empty path, not at the element's. */
  function SuperDecoder(c: UnkeyedDecoder): (s: Step<Decoder>)
    requires Valid(c)
    ensures Valid(s.next) && SameArray(s.next, c)
    ensures s.result.Failure? <==> IsAtEnd(c)
    ensures IsAtEnd(c) ==> s.result == Failure(ValueNotFound(CurrentPath(c))) && s.next == c
    ensures !IsAtEnd(c) ==> s.result == Success(UnboxSuperAsWritten(c.decoder, c.elems[c.currentIndex], Some(IndexKey(c.currentIndex))).child)
    ensures s.result.Success? ==> s.result.value.codingPath == []
    ensures s.result.Success? ==>
              !Storage.IsEmpty(s.result.value.storage) && Storage.TopContainer(s.result.value.storage) == c.elems[c.currentIndex]
    ensures s.next.currentIndex == c.currentIndex + (if s.result.Success? then 1 else 0)
  {
    match ValueFromIterator(c)
    case Failure(e) => Step(Failure(e), c)
    case Success(v) =>
      var sup := UnboxSuperAsWritten(c.decoder, v, Some(IndexKey(c.currentIndex)));
      Step(Success(sup.child), AdvanceArray(c.(decoder := sup.parent)))
  }

  // ---- Sequences of calls

  /** One call a `init(from:)` might make on an unkeyed container. The
      generic `decode<T>` moves the cursor exactly when its decode succeeds,
      so `DecodeAnyOp` stands for it with any type: `dec` says which
      elements the type accepts. */
  datatype Op = DecodeNilOp | DecodeOp(kind: PrimKind) | DecodeAnyOp(dec: DecodeFn<bool>)
              | NestedContainerOp | NestedUnkeyedContainerOp | SuperDecoderOp

  function Apply(c: UnkeyedDecoder, op: Op): (n: UnkeyedDecoder)
    requires Valid(c)
    ensures Valid(n) && SameArray(n, c)
    ensures c.currentIndex <= n.currentIndex <= c.currentIndex + 1
    ensures IsAtEnd(c) ==> n == c
  {
    match op
    case DecodeNilOp => DecodeNil(c).next
    case DecodeOp(kind) => DecodePrimitive(c, kind).next
    case DecodeAnyOp(dec) => Decode(c, dec).next
    case NestedContainerOp => NestedContainer(c).next
    case NestedUnkeyedContainerOp => NestedUnkeyedContainer(c).next
    case SuperDecoderOp => SuperDecoder(c).next
  }

  /** Whether `init` accepts each element, as a decoder of `Bool`. */
  function Accepts<T>(init: DecodeFn<T>): DecodeFn<bool> {
    (x: Json, p: CodingPath) => if init(x, p).Success? then Success(true) else Failure(init(x, p).error)
  }

  /** `decode<T>` with any decoder leaves the container where
      `DecodeAnyOp(Accepts(init))` does. */
  lemma DecodeAnyCoversEveryType<T>(c: UnkeyedDecoder, init: DecodeFn<T>)
    requires Valid(c)
    ensures Decode(c, init).next == Apply(c, DecodeAnyOp(Accepts(init)))
  {
  }

  /** Any sequence of calls, each applied to the container the previous one
      left: the cursor never moves back, never passes the end, moves at most
      once per call, and once at the end nothing moves it. */
  function Run(c: UnkeyedDecoder, ops: seq<Op>): (n: UnkeyedDecoder)
    requires Valid(c)
    ensures Valid(n) && SameArray(n, c)
    ensures c.currentIndex <= n.currentIndex <= c.currentIndex + |ops|
    ensures IsAtEnd(c) ==> n == c
    decreases |ops|
  {
    if |ops| == 0 then c else Run(Apply(c, ops[0]), ops[1..])
  }
}
