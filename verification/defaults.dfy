/** The standard library's default implementations on the decoding side:
    `decodeIfPresent` for keyed and unkeyed containers, and the three
    `DecodingError.dataCorruptedError` helpers. */
module Defaults {
  import opened Optionals
  import opened Keys
  import opened Decimal
  import opened Tree
  import opened Errors
  import opened Coding
  import opened JsonDecoder
  import Keyed
  import Unkeyed
  import Storage

  // ---- decodeIfPresent

  /** Keyed `decodeIfPresent(_:forKey:)`: `nil` for an absent key and for a
      null member, otherwise the value `decode(_:forKey:)` produces. It never
      throws `keyNotFound`. */
  function KeyedDecodeIfPresent<T>(c: KeyedDecoder, key: CodingKey, init: DecodeFn<T>): (r: Result<Option<T>>)
    ensures !Keyed.Contains(c, key) ==> r == Success(None)
    ensures Lookup(c.entries, key.stringValue) == Some(Null) ==> r == Success(None)
    ensures Keyed.Contains(c, key) && Lookup(c.entries, key.stringValue) != Some(Null) ==>
              r == MapSome(Keyed.Decode(c, key, init))
    ensures r.Failure? ==> !r.error.KeyNotFound? || init(Lookup(c.entries, key.stringValue).value, c.decoder.codingPath + [key]) == Failure(r.error)
  {
    if !Keyed.Contains(c, key) then Success(None)
    else
      match Keyed.DecodeNil(c, key)
      case Failure(e) => Failure(e)
      case Success(isNil) => if isNil then Success(None) else MapSome(Keyed.Decode(c, key, init))
  }

  /** Unkeyed `decodeIfPresent(_:)`: at the end, `nil` without moving or
      throwing; on a null element, `nil` and the cursor steps past it;
      otherwise the outcome of `decode(_:)`. */
  function UnkeyedDecodeIfPresent<T>(c: UnkeyedDecoder, init: DecodeFn<T>): (s: Unkeyed.Step<Option<T>>)
    requires Valid(c)
    ensures Valid(s.next) && Unkeyed.SameArray(s.next, c)
    ensures IsAtEnd(c) ==> s == Unkeyed.Step(Success(None), c)
    ensures !IsAtEnd(c) && c.elems[c.currentIndex] == Null ==>
              s.result == Success(None) && s.next.currentIndex == c.currentIndex + 1
    ensures !IsAtEnd(c) && c.elems[c.currentIndex] != Null ==>
              s.result == MapSome(init(c.elems[c.currentIndex], Unkeyed.CurrentPath(c)))
    ensures s.next.currentIndex == c.currentIndex + (if s.result.Success? && !IsAtEnd(c) then 1 else 0)
  {
    if IsAtEnd(c) then Unkeyed.Step(Success(None), c)
    else
      var nil := Unkeyed.DecodeNil(c);
      match nil.result
      case Failure(e) => Unkeyed.Step(Failure(e), nil.next)
      case Success(isNil) =>
        if isNil then Unkeyed.Step(Success(None), nil.next)
        else
          var d := Unkeyed.Decode(nil.next, init);
          Unkeyed.Step(MapSome(d.result), d.next)
  }

  // ---- dataCorruptedError

  /** `dataCorruptedError(forKey:in:)`: data corrupted at the container's
      path followed by the key. */
  function KeyedDataCorruptedError(c: KeyedDecoder, key: CodingKey): (e: DecodingError)
    ensures e.DataCorrupted?
    ensures |e.codingPath| == |c.decoder.codingPath| + 1
    ensures e.codingPath[..|c.decoder.codingPath|] == c.decoder.codingPath
    ensures e.codingPath[|c.decoder.codingPath|] == key
  {
    DataCorrupted(c.decoder.codingPath + [key])
  }

  /** `dataCorruptedError(in:)` for an unkeyed container: the position is
      named by a `_GenericIndexKey` for the current index. */
  function UnkeyedDataCorruptedError(c: UnkeyedDecoder): (e: DecodingError)
    ensures e.DataCorrupted?
    ensures |e.codingPath| == |c.decoder.codingPath| + 1
    ensures e.codingPath[..|c.decoder.codingPath|] == c.decoder.codingPath
    ensures e.codingPath[|c.decoder.codingPath|].intValue == Some(c.currentIndex)
    ensures e.codingPath[|c.decoder.codingPath|].stringValue == "Index " + DecimalString(c.currentIndex)
  {
    DataCorrupted(c.decoder.codingPath + [GenericIndexKey(c.currentIndex)])
  }

  /** A corruption reported by `dataCorruptedError(in:)` and a failure the
      adapter reports for the same element name the same position by
      number, but never by the same key. */
  lemma UnkeyedErrorKeysDiffer<T>(c: UnkeyedDecoder, init: DecodeFn<T>)
    requires Valid(c) && IsAtEnd(c)
    ensures Unkeyed.Decode(c, init).result.error.codingPath != UnkeyedDataCorruptedError(c).codingPath
    ensures Unkeyed.Decode(c, init).result.error.codingPath[|c.decoder.codingPath|].intValue
         == UnkeyedDataCorruptedError(c).codingPath[|c.decoder.codingPath|].intValue
  {
    IndexKeysDisagreeOnText(c.currentIndex);
    var n := |c.decoder.codingPath|;
    assert Unkeyed.Decode(c, init).result.error.codingPath[n] == IndexKey(c.currentIndex);
    assert UnkeyedDataCorruptedError(c).codingPath[n] == GenericIndexKey(c.currentIndex);
  }

  /** `dataCorruptedError(in:)` for a single-value container: data corrupted
      at the decoder's own path. */
  function SingleValueDataCorruptedError(d: Decoder): (e: DecodingError)
    ensures e.DataCorrupted? && e.codingPath == d.codingPath
  {
    DataCorrupted(d.codingPath)
  }
}
