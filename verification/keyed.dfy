/** The operations of `JSONKeyedDecoder`: members are found by the key's
    text; a missing member is `keyNotFound` at the container's path, and a
    member's value is decoded at the container's path plus the key. */
module Keyed {
  import opened Optionals
  import opened Keys
  import opened Tree
  import opened Errors
  import opened Coding
  import opened JsonDecoder
  import Storage

  /** `contains(_:)`: whether a member has the key's text. */
  function Contains(c: KeyedDecoder, key: CodingKey): (b: bool)
    ensures b <==> exists i :: 0 <= i < |c.entries| && c.entries[i].0 == key.stringValue
  {
    key.stringValue in KeysOf(c.entries)
  }

  /** `fetchValue(keyPointer:)`: the member with the key's text, or the
      parser's "key does not exist", reported with no key appended. */
  function FetchValue(c: KeyedDecoder, key: CodingKey): (r: Result<Json>)
    ensures r.Failure? <==> !Contains(c, key)
    ensures r.Failure? ==> r.error == KeyNotFound(JSONKeyFromString(key.stringValue), c.decoder.codingPath)
    ensures r.Success? ==> Lookup(c.entries, key.stringValue) == Some(r.value)
  {
    match Lookup(c.entries, key.stringValue)
    case Some(v) => Success(v)
    case None =>
      var info := ErrorInfo(KeyDoesNotExist, Some(key.stringValue));
      Failure(SwiftErrorFromError(info, c.decoder.codingPath, None))
  }

  /** `decodeNil(forKey:)`: a missing key throws; otherwise whether the
      member is null. */
  function DecodeNil(c: KeyedDecoder, key: CodingKey): (r: Result<bool>)
    ensures r.Failure? <==> !Contains(c, key)
    ensures r.Failure? ==> r.error.KeyNotFound?
    ensures r.Success? ==> (r.value <==> Lookup(c.entries, key.stringValue) == Some(Null))
  {
    var v :- FetchValue(c, key);
    Success(v == Null)
  }

  /** `decode(_:forKey:)` of a type with its own `init(from:)`: the member
      is decoded at the container's path plus the key. */
  function Decode<T>(c: KeyedDecoder, key: CodingKey, init: DecodeFn<T>): (r: Result<T>)
    ensures !Contains(c, key) ==> r == Failure(KeyNotFound(JSONKeyFromString(key.stringValue), c.decoder.codingPath))
    ensures Contains(c, key) ==>
              r == init(Lookup(c.entries, key.stringValue).value, c.decoder.codingPath + [key])
  {
    var v :- FetchValue(c, key);
    Unbox(c.decoder, v, Some(key), init).result
  }

  /** `decode(_:forKey:)` of a primitive type: missing is `keyNotFound`, null
      is `valueNotFound`, another shape is `typeMismatch`, an integer out of
      range is `dataCorrupted`; all but the first at path plus key. */
  function DecodePrimitive(c: KeyedDecoder, key: CodingKey, kind: PrimKind): (r: Result<Prim>)
    ensures !Contains(c, key) ==> r == Failure(KeyNotFound(JSONKeyFromString(key.stringValue), c.decoder.codingPath))
    ensures Contains(c, key) && r.Failure? ==>
              !r.error.KeyNotFound? && !r.error.Unclassified? && r.error.codingPath == c.decoder.codingPath + [key]
    ensures Contains(c, key) && Lookup(c.entries, key.stringValue) == Some(Null) ==>
              r == Failure(ValueNotFound(c.decoder.codingPath + [key]))
    ensures r.Success? ==> Fits(kind, r.value) && Lookup(c.entries, key.stringValue) == Some(PrimToJson(r.value))
  {
    var v :- FetchValue(c, key);
    UnboxPrimitive(c.decoder, v, kind, Some(key))
  }

  /** `nestedContainer(keyedBy:forKey:)`: a keyed view of the member. The
      view shares this container's decoder, so its path does not include
      the key; a non-object member is, as written, a type mismatch at the
      empty path. */
  function NestedContainer(c: KeyedDecoder, key: CodingKey): (r: Result<KeyedDecoder>)
    ensures !Contains(c, key) ==> r.Failure? && r.error.KeyNotFound?
    ensures Contains(c, key) ==> r == NewKeyedAsWritten(c.decoder, Lookup(c.entries, key.stringValue).value)
    ensures Contains(c, key) && !Lookup(c.entries, key.stringValue).value.Obj? ==> r == Failure(TypeMismatch([]))
    ensures r.Success? ==> r.value.decoder == c.decoder
  {
    var v :- FetchValue(c, key);
    NewKeyedAsWritten(c.decoder, v)
  }

  /** `nestedUnkeyedContainer(forKey:)`: a cursor over the member, again on
      this container's decoder and path. */
  function NestedUnkeyedContainer(c: KeyedDecoder, key: CodingKey): (r: Result<UnkeyedDecoder>)
    ensures !Contains(c, key) ==> r.Failure? && r.error.KeyNotFound?
    ensures Contains(c, key) ==> r == NewUnkeyed(c.decoder, Lookup(c.entries, key.stringValue).value)
    ensures r.Success? ==> Valid(r.value) && r.value.currentIndex == 0 && r.value.decoder == c.decoder
  {
    var v :- FetchValue(c, key);
    NewUnkeyed(c.decoder, v)
  }

  /** `superDecoder(forKey:)`: a decoder whose top container is the member.
      As written, the child starts at the empty path, not at the container's
      path plus the key. */
  function SuperDecoderForKey(c: KeyedDecoder, key: CodingKey): (r: Result<Decoder>)
    ensures r.Failure? <==> !Contains(c, key)
    ensures r.Failure? ==> r.error.KeyNotFound?
    ensures r.Success? ==> r.value.codingPath == []
    ensures r.Success? ==> !Storage.IsEmpty(r.value.storage) && Some(Storage.TopContainer(r.value.storage)) == Lookup(c.entries, key.stringValue)
  {
    var v :- FetchValue(c, key);
    Success(UnboxSuperAsWritten(c.decoder, v, Some(key)).child)
  }

  /** `superDecoder()`: the member named "super", again at the empty path. */
  function SuperDecoder(c: KeyedDecoder): (r: Result<Decoder>)
    ensures r.Failure? <==> !("super" in KeysOf(c.entries))
    ensures r.Success? ==> r.value.codingPath == []
    ensures r.Success? ==> !Storage.IsEmpty(r.value.storage) && Some(Storage.TopContainer(r.value.storage)) == Lookup(c.entries, "super")
  {
    SuperDecoderForKey(c, SuperKey)
  }

  /** The positions from `from` on of the member names a key type accepts. */
  function AcceptedFrom(names: seq<string>, makeKey: string -> Option<CodingKey>, from: nat): (idx: seq<int>)
    requires from <= |names|
    ensures forall i :: 0 <= i < |idx| ==> from <= idx[i] < |names|
    decreases |names| - from
  {
    if from == |names| then []
    else
      var rest := AcceptedFrom(names, makeKey, from + 1);
      if makeKey(names[from]).Some? then [from] + rest else rest
  }

  /** Each accepted position names a name the key type accepts. */
  lemma {:induction false} AcceptedFromAccepts(names: seq<string>, makeKey: string -> Option<CodingKey>, from: nat)
    requires from <= |names|
    ensures forall i :: 0 <= i < |AcceptedFrom(names, makeKey, from)| ==>
              makeKey(names[AcceptedFrom(names, makeKey, from)[i]]).Some?
    decreases |names| - from
  {
    if from < |names| {
      AcceptedFromAccepts(names, makeKey, from + 1);
      var rest := AcceptedFrom(names, makeKey, from + 1);
      if makeKey(names[from]).Some? {
        var idx := [from] + rest;
        assert AcceptedFrom(names, makeKey, from) == idx;
        forall i | 0 <= i < |idx|
          ensures makeKey(names[idx[i]]).Some?
        {
          if i > 0 {
            assert idx[i] == rest[i - 1];
          }
        }
      } else {
        assert AcceptedFrom(names, makeKey, from) == rest;
      }
    }
  }

  /** The accepted positions are in increasing order. */
  lemma {:induction false} AcceptedFromIncreasing(names: seq<string>, makeKey: string -> Option<CodingKey>, from: nat)
    requires from <= |names|
    ensures forall i, j :: 0 <= i < j < |AcceptedFrom(names, makeKey, from)| ==>
              AcceptedFrom(names, makeKey, from)[i] < AcceptedFrom(names, makeKey, from)[j]
    decreases |names| - from
  {
    if from < |names| {
      AcceptedFromIncreasing(names, makeKey, from + 1);
      var rest := AcceptedFrom(names, makeKey, from + 1);
      if makeKey(names[from]).Some? {
        var idx := [from] + rest;
        assert AcceptedFrom(names, makeKey, from) == idx;
        forall i, j | 0 <= i < j < |idx|
          ensures idx[i] < idx[j]
        {
          assert idx[j] == rest[j - 1] && from + 1 <= rest[j - 1];
          if i > 0 {
            assert idx[i] == rest[i - 1];
          }
        }
      } else {
        assert AcceptedFrom(names, makeKey, from) == rest;
      }
    }
  }

  /** Every accepted name from `from` on has its position listed. */
  lemma {:induction false} AcceptedFromComplete(names: seq<string>, makeKey: string -> Option<CodingKey>, from: nat)
    requires from <= |names|
    ensures forall p :: from <= p < |names| && makeKey(names[p]).Some? ==> p in AcceptedFrom(names, makeKey, from)
    decreases |names| - from
  {
    if from < |names| {
      AcceptedFromComplete(names, makeKey, from + 1);
    }
  }

  /** `compactMap` of a key type's failable `init(stringValue:)` over the
      member names from `from` on: one key for each accepted name, in
      document order. */
  function KeysFrom(names: seq<string>, makeKey: string -> Option<CodingKey>, from: nat): (ks: seq<CodingKey>)
    requires from <= |names|
    ensures |ks| == |AcceptedFrom(names, makeKey, from)|
    ensures forall i :: 0 <= i < |ks| ==> makeKey(names[AcceptedFrom(names, makeKey, from)[i]]) == Some(ks[i])
    decreases |names| - from
  {
    if from == |names| then []
    else
      var rest := KeysFrom(names, makeKey, from + 1);
      match makeKey(names[from])
      case Some(k) => [k] + rest
      case None => rest
  }

  /** `allKeys`: a key for every member name the key type accepts, and no
      other, in document order; when the key type accepts every name, one
      key per member. */
  function AllKeys(c: KeyedDecoder, makeKey: string -> Option<CodingKey>): (ks: seq<CodingKey>)
    ensures |ks| == |AcceptedFrom(KeysOf(c.entries), makeKey, 0)|
    ensures forall i :: 0 <= i < |ks| ==>
              makeKey(c.entries[AcceptedFrom(KeysOf(c.entries), makeKey, 0)[i]].0) == Some(ks[i])
    ensures forall k :: k in ks ==> exists s :: s in KeysOf(c.entries) && makeKey(s) == Some(k)
    ensures (forall s :: s in KeysOf(c.entries) ==> makeKey(s).Some?) ==>
              |ks| == |c.entries| && forall i :: 0 <= i < |c.entries| ==> Some(ks[i]) == makeKey(c.entries[i].0)
  {
    KeysFromSound(KeysOf(c.entries), makeKey);
    KeysFromAllAccepted(KeysOf(c.entries), makeKey);
    KeysFrom(KeysOf(c.entries), makeKey, 0)
  }

  /** Every key comes from a name the key type accepts. */
  lemma KeysFromSound(names: seq<string>, makeKey: string -> Option<CodingKey>)
    ensures forall k :: k in KeysFrom(names, makeKey, 0) ==> exists s :: s in names && makeKey(s) == Some(k)
  {
    var ks := KeysFrom(names, makeKey, 0);
    var idx := AcceptedFrom(names, makeKey, 0);
    forall k | k in ks
      ensures exists s :: s in names && makeKey(s) == Some(k)
    {
      var i :| 0 <= i < |ks| && ks[i] == k;
      AcceptedFromAccepts(names, makeKey, 0);
      assert names[idx[i]] in names;
    }
  }

  /** When the key type accepts every name, there is one key per name, in
      order. */
  lemma KeysFromAllAccepted(names: seq<string>, makeKey: string -> Option<CodingKey>)
    ensures (forall s :: s in names ==> makeKey(s).Some?) ==>
              |KeysFrom(names, makeKey, 0)| == |names| &&
              forall i :: 0 <= i < |names| ==> Some(KeysFrom(names, makeKey, 0)[i]) == makeKey(names[i])
  {
    if forall s :: s in names ==> makeKey(s).Some? {
      assert forall p :: 0 <= p < |names| ==> names[p] in names;
      AllAccepted(names, makeKey, 0);
      var ks := KeysFrom(names, makeKey, 0);
      var idx := AcceptedFrom(names, makeKey, 0);
      forall i | 0 <= i < |names|
        ensures Some(ks[i]) == makeKey(names[i])
      {
        assert idx[i] == i;
      }
    }
  }

  /** When every name from `from` on is accepted, the accepted positions
      are exactly `from`, `from + 1`, and so on. */
  lemma {:induction false} AllAccepted(names: seq<string>, makeKey: string -> Option<CodingKey>, from: nat)
    requires from <= |names|
    requires forall p :: from <= p < |names| ==> makeKey(names[p]).Some?
    ensures |AcceptedFrom(names, makeKey, from)| == |names| - from
    ensures forall i :: 0 <= i < |names| - from ==> AcceptedFrom(names, makeKey, from)[i] == from + i
    decreases |names| - from
  {
    if from < |names| {
      AllAccepted(names, makeKey, from + 1);
      var rest := AcceptedFrom(names, makeKey, from + 1);
      assert AcceptedFrom(names, makeKey, from) == [from] + rest;
      forall i | 0 <= i < |names| - from
        ensures ([from] + rest)[i] == from + i
      {
        if i > 0 {
          assert ([from] + rest)[i] == rest[i - 1];
        }
      }
    }
  }
}
