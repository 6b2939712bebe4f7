/** The `Encodable`/`Decodable` capabilities as functions.

    A type's `encode(to:)` is modelled by the document subtree it writes;
    its `init(from:)` by a function of the decoder it is handed, which it can
    observe only through the decoder's top container and coding path. */
module Coding {
  import opened Optionals
  import opened Keys
  import opened Tree
  import opened Errors

  /** `encode(to:)` of a type `T`: the subtree written for a value. */
  type EncodeFn<!T> = T -> Json

  /** `init(from:)` of a type `T`, run on a decoder whose top container is
      the given node and whose coding path is the given path. */
  type DecodeFn<T> = (Json, CodingPath) -> Result<T>

  /** Decoding what was encoded gives the value back, at any path. */
  ghost predicate RoundTrips<T(!new)>(enc: EncodeFn<T>, dec: DecodeFn<T>) {
    forall x: T, path: CodingPath :: dec(enc(x), path) == Success(x)
  }

  /** One instance of a round trip. */
  lemma RoundTripAt<T(!new)>(enc: EncodeFn<T>, dec: DecodeFn<T>, x: T, path: CodingPath)
    requires RoundTrips(enc, dec)
    ensures dec(enc(x), path) == Success(x)
  {
  }

  /** Whether and to what a node decodes does not depend on where it sits. */
  ghost predicate PathBlind<T>(dec: DecodeFn<T>) {
    forall v: Json, p: CodingPath, q: CodingPath :: dec(v, p).Success? ==> dec(v, q) == dec(v, p)
  }

  /** The path segment an optional key contributes. */
  function KeyPath(key: Option<CodingKey>): (s: CodingPath)
    ensures |s| == (if key.Some? then 1 else 0)
    ensures key.Some? ==> s[0] == key.value
  {
    match key
    case Some(k) => [k]
    case None => []
  }

  /** `try` of a throwing call whose value is then wrapped in `Optional`. */
  function MapSome<T>(r: Result<T>): (o: Result<Option<T>>)
    ensures o.Success? <==> r.Success?
    ensures r.Success? ==> o.value == Some(r.value)
    ensures r.Failure? ==> o.error == r.error
  {
    match r
    case Success(v) => Success(Some(v))
    case Failure(e) => Failure(e)
  }
}
