/** The encoding containers the standard library's default implementations
    are written against, and those defaults: `encodeIfPresent`,
    `encodeConditional` and `encode(contentsOf:)`.

    A keyed encoding container is modelled by the members it has written
    so far (writing a key again replaces its value where it stands); an
    unkeyed one by the elements it has appended. */
module Encoding {
  import opened Optionals
  import opened Keys
  import opened Tree
  import opened Coding

  // ---- Keyed encoding containers

  datatype KeyedEncoder = KeyedEncoder(entries: seq<(string, Json)>)

  /** Writes the member `k`: an existing member keeps its place and takes
      the new value, otherwise the member is appended. */
  function Put(entries: seq<(string, Json)>, k: string, v: Json): (r: seq<(string, Json)>)
    ensures k in KeysOf(entries) ==> KeysOf(r) == KeysOf(entries)
    ensures k !in KeysOf(entries) ==> r == entries + [(k, v)]
  {
    if |entries| == 0 then [(k, v)]
    else if entries[0].0 == k then [(k, v)] + entries[1..]
    else
      var r := [entries[0]] + Put(entries[1..], k, v);
      assert KeysOf(r) == [entries[0].0] + KeysOf(r[1..]);
      assert KeysOf(entries) == [entries[0].0] + KeysOf(entries[1..]);
      r
  }

  /** After writing `k`, looking up `k` finds the new value and looking up
      any other name finds what it found before. */
  lemma {:induction false} PutLookup(entries: seq<(string, Json)>, k: string, v: Json, k': string)
    ensures Lookup(Put(entries, k, v), k') == if k' == k then Some(v) else Lookup(entries, k')
  {
    if |entries| > 0 && entries[0].0 != k {
      PutLookup(entries[1..], k, v, k');
      assert Put(entries, k, v)[1..] == Put(entries[1..], k, v);
    }
  }

  lemma PutLookupAll(entries: seq<(string, Json)>, k: string, v: Json)
    ensures Lookup(Put(entries, k, v), k) == Some(v)
    ensures forall k' :: k' != k ==> Lookup(Put(entries, k, v), k') == Lookup(entries, k')
  {
    PutLookup(entries, k, v, k);
    forall k' | k' != k
      ensures Lookup(Put(entries, k, v), k') == Lookup(entries, k')
    {
      PutLookup(entries, k, v, k');
    }
  }

  /** Writing a member never duplicates a name. */
  lemma PutKeepsDistinct(entries: seq<(string, Json)>, k: string, v: Json)
    requires DistinctKeys(entries)
    ensures DistinctKeys(Put(entries, k, v))
  {
    var r := Put(entries, k, v);
    if k in KeysOf(entries) {
      forall i, j | 0 <= i < j < |r|
        ensures r[i].0 != r[j].0
      {
        assert KeysOf(r)[i] == KeysOf(entries)[i] && KeysOf(r)[j] == KeysOf(entries)[j];
      }
    } else {
      forall i, j | 0 <= i < j < |r|
        ensures r[i].0 != r[j].0
      {
        if j == |entries| {
          assert KeysOf(entries)[i] == entries[i].0;
        }
      }
    }
  }

  /** `encode(_:forKey:)`. */
  function KeyedEncode<T>(c: KeyedEncoder, x: T, key: CodingKey, enc: EncodeFn<T>): (r: KeyedEncoder)
    ensures Lookup(r.entries, key.stringValue) == Some(enc(x))
    ensures forall k :: k != key.stringValue ==> Lookup(r.entries, k) == Lookup(c.entries, k)
  {
    PutLookupAll(c.entries, key.stringValue, enc(x));
    KeyedEncoder(Put(c.entries, key.stringValue, enc(x)))
  }

  /** `encodeNil(forKey:)`. */
  function KeyedEncodeNil(c: KeyedEncoder, key: CodingKey): (r: KeyedEncoder)
    ensures Lookup(r.entries, key.stringValue) == Some(Null)
    ensures forall k :: k != key.stringValue ==> Lookup(r.entries, k) == Lookup(c.entries, k)
  {
    PutLookupAll(c.entries, key.stringValue, Null);
    KeyedEncoder(Put(c.entries, key.stringValue, Null))
  }

  /** `encodeIfPresent(_:forKey:)`: nothing is written for `nil`; a value is
      written exactly as `encode(_:forKey:)` writes it. */
  function KeyedEncodeIfPresent<T>(c: KeyedEncoder, x: Option<T>, key: CodingKey, enc: EncodeFn<T>): (r: KeyedEncoder)
    ensures x.None? ==> r == c
    ensures x.Some? ==> Lookup(r.entries, key.stringValue) == Some(enc(x.value))
    ensures forall k :: k != key.stringValue ==> Lookup(r.entries, k) == Lookup(c.entries, k)
  {
    match x
    case None => c
    case Some(v) => KeyedEncode(c, v, key, enc)
  }

  /** `encodeConditional(_:forKey:)`: without reference tracking, the object
      is always written, as by `encode(_:forKey:)`. */
  function KeyedEncodeConditional<T>(c: KeyedEncoder, x: T, key: CodingKey, enc: EncodeFn<T>): (r: KeyedEncoder)
    ensures Lookup(r.entries, key.stringValue) == Some(enc(x))
    ensures forall k :: k != key.stringValue ==> Lookup(r.entries, k) == Lookup(c.entries, k)
  {
    KeyedEncode(c, x, key, enc)
  }

  // ---- Unkeyed encoding containers

  datatype UnkeyedEncoder = UnkeyedEncoder(elems: seq<Json>)

  /** `count`: the number of elements written; zero exactly when nothing
      has been written. */
  function Count(c: UnkeyedEncoder): (n: nat)
    ensures n == 0 <==> c.elems == []
  {
    |c.elems|
  }

  /** `encode(_:)`: one element is appended. */
  function UnkeyedEncode<T>(c: UnkeyedEncoder, x: T, enc: EncodeFn<T>): (r: UnkeyedEncoder)
    ensures Count(r) == Count(c) + 1
    ensures r.elems[..Count(c)] == c.elems && r.elems[Count(c)] == enc(x)
  {
    UnkeyedEncoder(c.elems + [enc(x)])
  }

  /** `encodeNil()`. */
  function UnkeyedEncodeNil(c: UnkeyedEncoder): (r: UnkeyedEncoder)
    ensures Count(r) == Count(c) + 1
    ensures r.elems[..Count(c)] == c.elems && r.elems[Count(c)] == Null
  {
    UnkeyedEncoder(c.elems + [Null])
  }

  /** `encodeConditional(_:)`: always written, as by `encode(_:)`. */
  function UnkeyedEncodeConditional<T>(c: UnkeyedEncoder, x: T, enc: EncodeFn<T>): (r: UnkeyedEncoder)
    ensures Count(r) == Count(c) + 1
    ensures r.elems[..Count(c)] == c.elems && r.elems[Count(c)] == enc(x)
  {
    UnkeyedEncode(c, x, enc)
  }

  /** `encode(contentsOf:)`: `encode(_:)` on each element in order. The
      container keeps what it had and gains one element per item, each
      the encoding of the item in the same position. */
  function EncodeContentsOf<T>(c: UnkeyedEncoder, xs: seq<T>, enc: EncodeFn<T>): (r: UnkeyedEncoder)
    ensures Count(r) == Count(c) + |xs|
    ensures r.elems[..Count(c)] == c.elems
    ensures forall i :: 0 <= i < |xs| ==> r.elems[Count(c) + i] == enc(xs[i])
    decreases |xs|
  {
    if |xs| == 0 then c
    else
      var r := EncodeContentsOf(UnkeyedEncode(c, xs[0], enc), xs[1..], enc);
      assert r.elems[Count(c)] == r.elems[..Count(c) + 1][Count(c)];
      r
  }

  /** The element-wise encoding of a sequence, as one expression. */
  function EncodeEach<T>(xs: seq<T>, enc: EncodeFn<T>): (js: seq<Json>)
    ensures |js| == |xs|
    ensures forall i :: 0 <= i < |xs| ==> js[i] == enc(xs[i])
  {
    seq(|xs|, i requires 0 <= i < |xs| => enc(xs[i]))
  }

  /** `encode(contentsOf:)` appends exactly the element-wise encoding. */
  lemma EncodeContentsOfAppends<T>(c: UnkeyedEncoder, xs: seq<T>, enc: EncodeFn<T>)
    ensures EncodeContentsOf(c, xs, enc).elems == c.elems + EncodeEach(xs, enc)
  {
    var r := EncodeContentsOf(c, xs, enc);
    assert r.elems == r.elems[..Count(c)] + r.elems[Count(c)..];
  }

  /** The loop `for element in sequence { try self.encode(element) }`, run
      on a mutable container: the result is the same container as above. */
  method EncodeContentsOfLoop<T>(c: UnkeyedEncoder, xs: seq<T>, enc: EncodeFn<T>) returns (r: UnkeyedEncoder)
    ensures r.elems == c.elems + EncodeEach(xs, enc)
  {
    r := c;
    var i := 0;
    while i < |xs|
      invariant 0 <= i <= |xs|
      invariant r.elems == c.elems + EncodeEach(xs[..i], enc)
    {
      r := UnkeyedEncode(r, xs[i], enc);
      assert xs[..i + 1] == xs[..i] + [xs[i]];
      i := i + 1;
    }
    assert xs[..i] == xs;
  }
}
