/** The standard library's `Codable` conformances for `Optional`, `Array`
    and `RawRepresentable`, written against the adapter's decoder, and the
    round trips they complete. */
module Conformances {
  import opened Optionals
  import opened Keys
  import opened Tree
  import opened Errors
  import opened Coding
  import opened JsonDecoder
  import Storage
  import Keyed
  import Unkeyed
  import Encoding
  import Defaults

  // ---- Optional

  /** `Optional.encode(to:)`: `encodeNil()` for `nil`, the wrapped value's
      encoding otherwise. */
  function EncodeOptional<W(!new)>(encW: EncodeFn<W>): (e: EncodeFn<Option<W>>)
    ensures e(None) == Null
    ensures forall w :: e(Some(w)) == encW(w)
  {
    (x: Option<W>) => match x case None => Null case Some(w) => encW(w)
  }

  /** `Optional.init(from:)`: `nil` when the single value is null, the
      wrapped type's decoding otherwise. */
  function OptionalInit<W>(decW: DecodeFn<W>, v: Json, path: CodingPath): (r: Result<Option<W>>)
    ensures v == Null ==> r == Success(None)
    ensures v != Null ==> r == MapSome(decW(v, path))
  {
    var d := DecoderAt(v, path);
    if SingleDecodeNil(d) then Success(None) else MapSome(SingleDecode(d, decW))
  }

  function DecodeOptional<W>(decW: DecodeFn<W>): DecodeFn<Option<W>> {
    (v: Json, path: CodingPath) => OptionalInit(decW, v, path)
  }

  /** When the wrapped type never encodes as null, an optional of it round
      trips whenever the wrapped type does. */
  lemma OptionalRoundTrips<W(!new)>(encW: EncodeFn<W>, decW: DecodeFn<W>)
    requires RoundTrips(encW, decW)
    requires forall w :: encW(w) != Null
    ensures RoundTrips(EncodeOptional(encW), DecodeOptional(decW))
  {
    forall x: Option<W>, path: CodingPath
      ensures DecodeOptional(decW)(EncodeOptional(encW)(x), path) == Success(x)
    {
      if x.Some? {
        assert encW(x.value) != Null;
        assert decW(encW(x.value), path) == Success(x.value);
      }
    }
  }

  /** A nested optional does not round trip: `.some(nil)` is written as
      null and read back as `nil`. */
  lemma NestedOptionalCollapses<W(!new)>(encW: EncodeFn<W>, decW: DecodeFn<W>, path: CodingPath)
    ensures EncodeOptional(EncodeOptional(encW))(Some(None)) == Null
    ensures DecodeOptional(DecodeOptional(decW))(Null, path) == Success(None)
    ensures !RoundTrips(EncodeOptional(EncodeOptional(encW)), DecodeOptional(DecodeOptional(decW)))
  {
    var x: Option<Option<W>> := Some(None);
    assert DecodeOptional(DecodeOptional(decW))(EncodeOptional(EncodeOptional(encW))(x), path) != Success(x);
  }

  // ---- Array

  /** `Array.encode(to:)`: each element appended to an unkeyed container. */
  function EncodeArray<E(!new)>(encE: EncodeFn<E>): (e: EncodeFn<seq<E>>)
    ensures forall xs :: e(xs).Arr? && |e(xs).elems| == |xs|
    ensures forall xs, i :: 0 <= i < |xs| ==> e(xs).elems[i] == encE(xs[i])
  {
    (xs: seq<E>) => Arr(Encoding.EncodeContentsOf(Encoding.UnkeyedEncoder([]), xs, encE).elems)
  }

  /** What decoding element `i` of the container produces. */
  function ElementResult<E>(c: UnkeyedDecoder, decE: DecodeFn<E>, i: int): Result<E>
    requires 0 <= i < |c.elems|
  {
    decE(c.elems[i], c.decoder.codingPath + [IndexKey(i)])
  }

  /** `xs` are what decoding each element from the cursor to the end
      produces, in order. */
  ghost predicate ReadsAll<E>(c: UnkeyedDecoder, decE: DecodeFn<E>, xs: seq<E>) {
    0 <= c.currentIndex && |xs| == |c.elems| - c.currentIndex &&
    forall i :: 0 <= i < |xs| ==> ElementResult(c, decE, c.currentIndex + i) == Success(xs[i])
  }

  /** The loop of `Array.init(from:)`: `decode(_:)` until the container is at
      its end. Element `i` is decoded at the path plus `IndexKey(i)`. */
  function DecodeElements<E>(c: UnkeyedDecoder, decE: DecodeFn<E>): (r: Result<seq<E>>)
    requires Valid(c)
    ensures r.Success? ==> ReadsAll(c, decE, r.value)
    decreases |c.elems| - c.currentIndex
  {
    if IsAtEnd(c) then Success([])
    else
      var s := Unkeyed.Decode(c, decE);
      match s.result
      case Failure(e) => Failure(e)
      case Success(x) =>
        HeadDecoded(c, decE);
        var rest :- DecodeElements(s.next, decE);
        ElementsAfterHead(c, s.next, decE, x, rest);
        Success([x] + rest)
  }

  /** A successful `decode(_:)` short of the end reads element
      `currentIndex` and moves the cursor one place. */
  lemma HeadDecoded<E>(c: UnkeyedDecoder, decE: DecodeFn<E>)
    requires Valid(c) && !IsAtEnd(c) && Unkeyed.Decode(c, decE).result.Success?
    ensures 0 <= c.currentIndex < |c.elems|
    ensures Unkeyed.Decode(c, decE).result == ElementResult(c, decE, c.currentIndex)
    ensures Unkeyed.Decode(c, decE).next == c.(currentIndex := c.currentIndex + 1)
  {
  }

  /** The elements read after the first, prefixed with it, are the elements
      read from the first position on. */
  lemma ElementsAfterHead<E>(c: UnkeyedDecoder, next: UnkeyedDecoder, decE: DecodeFn<E>, x: E, rest: seq<E>)
    requires 0 <= c.currentIndex < |c.elems| && next.elems == c.elems && next.decoder == c.decoder
    requires next.currentIndex == c.currentIndex + 1
    requires ElementResult(c, decE, c.currentIndex) == Success(x)
    requires ReadsAll(next, decE, rest)
    ensures ReadsAll(c, decE, [x] + rest)
  {
    forall i | 0 <= i < |[x] + rest|
      ensures ElementResult(c, decE, c.currentIndex + i) == Success(([x] + rest)[i])
    {
      if i > 0 {
        assert ElementResult(c, decE, c.currentIndex + i) == ElementResult(next, decE, next.currentIndex + (i - 1));
      }
    }
  }

  /** Decoding succeeds when every remaining element does. */
  lemma {:induction false} DecodeElementsSucceeds<E>(c: UnkeyedDecoder, decE: DecodeFn<E>)
    requires Valid(c)
    requires forall i :: c.currentIndex <= i < |c.elems| ==> ElementResult(c, decE, i).Success?
    ensures DecodeElements(c, decE).Success?
    decreases |c.elems| - c.currentIndex
  {
    if !IsAtEnd(c) {
      var s := Unkeyed.Decode(c, decE);
      assert ElementResult(c, decE, c.currentIndex).Success?;
      forall i | s.next.currentIndex <= i < |s.next.elems|
        ensures ElementResult(s.next, decE, i).Success?
      {
        assert ElementResult(s.next, decE, i) == ElementResult(c, decE, i);
      }
      DecodeElementsSucceeds(s.next, decE);
    }
  }

  /** Otherwise the error thrown is that of the first element that fails. */
  lemma {:induction false} DecodeElementsFirstFailure<E>(c: UnkeyedDecoder, decE: DecodeFn<E>, k: int)
    requires Valid(c) && c.currentIndex <= k < |c.elems|
    requires forall i :: c.currentIndex <= i < k ==> ElementResult(c, decE, i).Success?
    requires ElementResult(c, decE, k).Failure?
    ensures DecodeElements(c, decE) == Failure(ElementResult(c, decE, k).error)
    decreases |c.elems| - c.currentIndex
  {
    var s := Unkeyed.Decode(c, decE);
    if c.currentIndex < k {
      assert ElementResult(c, decE, c.currentIndex).Success?;
      forall i | s.next.currentIndex <= i < k
        ensures ElementResult(s.next, decE, i).Success?
      {
        assert ElementResult(s.next, decE, i) == ElementResult(c, decE, i);
      }
      assert ElementResult(s.next, decE, k) == ElementResult(c, decE, k);
      DecodeElementsFirstFailure(s.next, decE, k);
    }
  }

  /** `Array.init(from:)`: an unkeyed container over the top container, read
      to its end. */
  function ArrayInit<E>(decE: DecodeFn<E>, v: Json, path: CodingPath): (r: Result<seq<E>>)
    ensures !v.Arr? ==> r == Failure(TypeMismatch(path))
    ensures v.Arr? && r.Success? ==> |r.value| == |v.elems|
    ensures v.Arr? && r.Success? ==>
              forall i :: 0 <= i < |v.elems| ==> decE(v.elems[i], path + [IndexKey(i)]) == Success(r.value[i])
  {
    var c :- UnkeyedContainer(DecoderAt(v, path));
    assert forall i :: 0 <= i < |v.elems| ==> ElementResult(c, decE, i) == decE(v.elems[i], path + [IndexKey(i)]);
    DecodeElements(c, decE)
  }

  function DecodeArray<E>(decE: DecodeFn<E>): DecodeFn<seq<E>> {
    (v: Json, path: CodingPath) => ArrayInit(decE, v, path)
  }

  /** An array round trips whenever its element type does. */
  lemma ArrayRoundTrips<E(!new)>(encE: EncodeFn<E>, decE: DecodeFn<E>)
    requires RoundTrips(encE, decE)
    ensures RoundTrips(EncodeArray(encE), DecodeArray(decE))
  {
    forall xs: seq<E>, path: CodingPath
      ensures DecodeArray(decE)(EncodeArray(encE)(xs), path) == Success(xs)
    {
      ArrayRoundTripAt(encE, decE, xs, path);
    }
  }

  lemma ArrayRoundTripAt<E(!new)>(encE: EncodeFn<E>, decE: DecodeFn<E>, xs: seq<E>, path: CodingPath)
    requires RoundTrips(encE, decE)
    ensures ArrayInit(decE, EncodeArray(encE)(xs), path) == Success(xs)
  {
    var v := EncodeArray(encE)(xs);
    var c := UnkeyedDecoder(DecoderAt(v, path), v.elems, Some(|v.elems|), 0);
    UnkeyedContainerOnArray(v, path);
    forall i | 0 <= i < |v.elems|
      ensures ElementResult(c, decE, i) == Success(xs[i])
    {
      assert v.elems[i] == encE(xs[i]);
      RoundTripAt(encE, decE, xs[i], path + [IndexKey(i)]);
    }
    DecodeElementsSucceeds(c, decE);
    var r := DecodeElements(c, decE);
    assert r.value == xs;
    calc {
      ArrayInit(decE, v, path);
      DecodeElements(c, decE);
      Success(xs);
    }
  }

  // ---- RawRepresentable

  /** `encode(to:)` of a raw-representable type: its raw value, written as a
      single value. */
  function EncodeRaw<R(!new), RV>(rawValue: R -> RV, encRaw: EncodeFn<RV>): (e: EncodeFn<R>)
    ensures forall x, y :: rawValue(x) == rawValue(y) ==> e(x) == e(y)
    ensures forall x :: e(x) == encRaw(rawValue(x))
  {
    (x: R) => encRaw(rawValue(x))
  }

  /** `init(from:)` of a raw-representable type: the raw value is decoded;
      one the type's `init?(rawValue:)` rejects is data corrupted at the
      decoder's path. */
  function RawInit<R, RV>(decRaw: DecodeFn<RV>, fromRaw: RV -> Option<R>, v: Json, path: CodingPath): (r: Result<R>)
    ensures decRaw(v, path).Failure? ==> r == Failure(decRaw(v, path).error)
    ensures decRaw(v, path).Success? && fromRaw(decRaw(v, path).value).None? ==> r == Failure(DataCorrupted(path))
    ensures r.Success? ==> decRaw(v, path).Success? && fromRaw(decRaw(v, path).value) == Some(r.value)
  {
    var d := DecoderAt(v, path);
    var raw :- SingleDecode(d, decRaw);
    match fromRaw(raw)
    case None => Failure(DataCorrupted(d.codingPath))
    case Some(x) => Success(x)
  }

  function DecodeRaw<R, RV>(decRaw: DecodeFn<RV>, fromRaw: RV -> Option<R>): DecodeFn<R> {
    (v: Json, path: CodingPath) => RawInit(decRaw, fromRaw, v, path)
  }

  /** A raw-representable type round trips when its raw type does and
      `init?(rawValue:)` accepts every `rawValue`. */
  lemma RawRoundTrips<R(!new), RV(!new)>(rawValue: R -> RV, fromRaw: RV -> Option<R>, encRaw: EncodeFn<RV>, decRaw: DecodeFn<RV>)
    requires RoundTrips(encRaw, decRaw)
    requires forall x :: fromRaw(rawValue(x)) == Some(x)
    ensures RoundTrips(EncodeRaw(rawValue, encRaw), DecodeRaw(decRaw, fromRaw))
  {
    forall x: R, path: CodingPath
      ensures DecodeRaw(decRaw, fromRaw)(EncodeRaw(rawValue, encRaw)(x), path) == Success(x)
    {
      assert decRaw(encRaw(rawValue(x)), path) == Success(rawValue(x));
    }
  }

  // ---- encodeIfPresent / decodeIfPresent

  /** Writing an optional with `encodeIfPresent` under a fresh key and reading
      it back with `decodeIfPresent` gives the optional back, `nil`
      included. */
  lemma IfPresentRoundTrip<T(!new)>(
    c: Encoding.KeyedEncoder, x: Option<T>, key: CodingKey, enc: EncodeFn<T>, dec: DecodeFn<T>, d: Decoder)
    requires RoundTrips(enc, dec)
    requires forall t :: enc(t) != Null
    requires key.stringValue !in KeysOf(c.entries)
    ensures Defaults.KeyedDecodeIfPresent(
              KeyedDecoder(d, Encoding.KeyedEncodeIfPresent(c, x, key, enc).entries), key, dec) == Success(x)
  {
    var k := KeyedDecoder(d, Encoding.KeyedEncodeIfPresent(c, x, key, enc).entries);
    if x.Some? {
      assert Lookup(k.entries, key.stringValue) == Some(enc(x.value));
      assert Keyed.Contains(k, key) && enc(x.value) != Null;
      RoundTripAt(enc, dec, x.value, d.codingPath + [key]);
      assert Keyed.Decode(k, key, dec) == Success(x.value);
    } else {
      assert k.entries == c.entries;
      assert !Keyed.Contains(k, key);
    }
  }
}
