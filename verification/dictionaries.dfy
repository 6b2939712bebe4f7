/** The standard library's `Dictionary` conformance: a keyed container for
    `String`, `Int` and `CodingKeyRepresentable` keys, otherwise an unkeyed
    container of alternating keys and values.

    A dictionary to encode is given by its pairs in iteration order; hash
    order is not modelled, so every statement holds for any order. */
module Dictionaries {
  import opened Optionals
  import opened Decimal
  import opened Keys
  import opened Tree
  import opened Errors
  import opened Coding
  import opened JsonDecoder
  import Keyed
  import Unkeyed
  import Encoding
  import Defaults

  // ---- Building the decoded dictionary

  /** `self[key] = value` for each pair in turn: a later pair with the same
      key overwrites an earlier one. */
  function Assign<K, V>(acc: map<K, V>, ps: seq<(K, V)>): (m: map<K, V>)
    ensures m.Keys == acc.Keys + (set i | 0 <= i < |ps| :: ps[i].0)
    decreases |ps|
  {
    if |ps| == 0 then acc
    else
      var m := Assign(acc[ps[0].0 := ps[0].1], ps[1..]);
      assert (set i | 0 <= i < |ps| :: ps[i].0) == {ps[0].0} + (set i | 0 <= i < |ps[1..]| :: ps[1..][i].0) by {
        forall i | 0 < i < |ps|
          ensures ps[i].0 in (set i | 0 <= i < |ps[1..]| :: ps[1..][i].0)
        {
          assert ps[1..][i - 1].0 == ps[i].0;
        }
      }
      m
  }

  /** The dictionary with exactly the given pairs. */
  function MapOf<K, V>(ps: seq<(K, V)>): map<K, V> {
    Assign(map[], ps)
  }

  predicate DistinctFirsts<K(==), V>(ps: seq<(K, V)>) {
    forall i, j :: 0 <= i < j < |ps| ==> ps[i].0 != ps[j].0
  }

  /** With distinct keys, every pair's key maps to that pair's value. */
  lemma {:induction false} AssignDistinct<K, V>(acc: map<K, V>, ps: seq<(K, V)>, i: int)
    requires DistinctFirsts(ps) && 0 <= i < |ps|
    ensures Assign(acc, ps)[ps[i].0] == ps[i].1
    decreases |ps|
  {
    var next := acc[ps[0].0 := ps[0].1];
    if i == 0 {
      AssignKeeps(next, ps[1..], ps[0].0);
    } else {
      assert DistinctFirsts(ps[1..]);
      AssignDistinct(next, ps[1..], i - 1);
    }
  }

  /** A key none of the pairs mentions keeps its value. */
  lemma {:induction false} AssignKeeps<K, V>(acc: map<K, V>, ps: seq<(K, V)>, k: K)
    requires k in acc
    requires forall i :: 0 <= i < |ps| ==> ps[i].0 != k
    ensures Assign(acc, ps)[k] == acc[k]
    decreases |ps|
  {
    if |ps| > 0 {
      AssignKeeps(acc[ps[0].0 := ps[0].1], ps[1..], k);
    }
  }

  // ---- Keyed layout (String, Int and CodingKeyRepresentable keys)

  /** The member name a dictionary key is written under. */
  function TextOf<K>(keyFor: K -> CodingKey, k: K): string {
    keyFor(k).stringValue
  }

  predicate DistinctTexts<K, V>(ps: seq<(K, V)>, keyFor: K -> CodingKey) {
    forall i, j :: 0 <= i < j < |ps| ==> TextOf(keyFor, ps[i].0) != TextOf(keyFor, ps[j].0)
  }

  /** The members a keyed dictionary with distinct names is written as. */
  function Members<K, V>(ps: seq<(K, V)>, keyFor: K -> CodingKey, encV: EncodeFn<V>): (es: seq<(string, Json)>)
    ensures |es| == |ps|
    ensures forall i :: 0 <= i < |ps| ==> es[i] == (TextOf(keyFor, ps[i].0), encV(ps[i].1))
  {
    seq(|ps|, i requires 0 <= i < |ps| => (TextOf(keyFor, ps[i].0), encV(ps[i].1)))
  }

  /** The loop of the keyed branches of `Dictionary.encode(to:)`: one
      `encode(_:forKey:)` per pair. */
  function EncodeKeyedPairs<K, V>(c: Encoding.KeyedEncoder, ps: seq<(K, V)>, keyFor: K -> CodingKey, encV: EncodeFn<V>): (r: Encoding.KeyedEncoder)
    ensures forall k :: k in KeysOf(c.entries) ==> k in KeysOf(r.entries)
    ensures forall i :: 0 <= i < |ps| ==> TextOf(keyFor, ps[i].0) in KeysOf(r.entries)
    decreases |ps|
  {
    if |ps| == 0 then c
    else
      var c1 := Encoding.KeyedEncode(c, ps[0].1, keyFor(ps[0].0), encV);
      var r := EncodeKeyedPairs(c1, ps[1..], keyFor, encV);
      KeyedEncodeKeepsNames(c, ps[0].1, keyFor(ps[0].0), encV);
      NamesAfterHead(ps, keyFor, KeysOf(c.entries), KeysOf(c1.entries), KeysOf(r.entries));
      r
  }

  /** The names present after writing the first pair and then the rest:
      whatever was there before, and every pair's name. */
  lemma NamesAfterHead<K, V>(ps: seq<(K, V)>, keyFor: K -> CodingKey, before: seq<string>, mid: seq<string>, after: seq<string>)
    requires |ps| > 0 && TextOf(keyFor, ps[0].0) in mid
    requires forall k :: k in before ==> k in mid
    requires forall k :: k in mid ==> k in after
    requires forall i :: 0 <= i < |ps[1..]| ==> TextOf(keyFor, ps[1..][i].0) in after
    ensures forall k :: k in before ==> k in after
    ensures forall i :: 0 <= i < |ps| ==> TextOf(keyFor, ps[i].0) in after
  {
    forall i | 0 < i < |ps|
      ensures TextOf(keyFor, ps[i].0) in after
    {
      assert ps[i] == ps[1..][i - 1];
    }
  }

  /** A keyed write keeps every name the container had and adds its own. */
  lemma KeyedEncodeKeepsNames<T>(c: Encoding.KeyedEncoder, x: T, key: CodingKey, enc: EncodeFn<T>)
    ensures key.stringValue in KeysOf(Encoding.KeyedEncode(c, x, key, enc).entries)
    ensures forall k :: k in KeysOf(c.entries) ==> k in KeysOf(Encoding.KeyedEncode(c, x, key, enc).entries)
  {
    var r := Encoding.KeyedEncode(c, x, key, enc);
    forall k | k in KeysOf(c.entries)
      ensures k in KeysOf(r.entries)
    {
      assert Lookup(c.entries, k).Some?;
    }
  }

  /** Names no pair is written under keep what the container had. */
  lemma {:induction false} EncodeKeyedPairsKeepsOthers<K, V>(
    c: Encoding.KeyedEncoder, ps: seq<(K, V)>, keyFor: K -> CodingKey, encV: EncodeFn<V>, k: string)
    requires forall i :: 0 <= i < |ps| ==> TextOf(keyFor, ps[i].0) != k
    ensures Lookup(EncodeKeyedPairs(c, ps, keyFor, encV).entries, k) == Lookup(c.entries, k)
    decreases |ps|
  {
    if |ps| > 0 {
      var c1 := Encoding.KeyedEncode(c, ps[0].1, keyFor(ps[0].0), encV);
      forall i | 0 <= i < |ps[1..]|
        ensures TextOf(keyFor, ps[1..][i].0) != k
      {
        assert ps[1..][i] == ps[i + 1];
      }
      EncodeKeyedPairsKeepsOthers(c1, ps[1..], keyFor, encV, k);
    }
  }

  /** Each name reads back the value of the last pair written under it:
      a later pair under the same name replaces an earlier one. */
  lemma {:induction false} EncodeKeyedPairsLastWins<K, V>(
    c: Encoding.KeyedEncoder, ps: seq<(K, V)>, keyFor: K -> CodingKey, encV: EncodeFn<V>, i: int)
    requires 0 <= i < |ps|
    requires forall j :: i < j < |ps| ==> TextOf(keyFor, ps[j].0) != TextOf(keyFor, ps[i].0)
    ensures Lookup(EncodeKeyedPairs(c, ps, keyFor, encV).entries, TextOf(keyFor, ps[i].0)) == Some(encV(ps[i].1))
    decreases |ps|
  {
    var c1 := Encoding.KeyedEncode(c, ps[0].1, keyFor(ps[0].0), encV);
    if i == 0 {
      forall j | 0 <= j < |ps[1..]|
        ensures TextOf(keyFor, ps[1..][j].0) != TextOf(keyFor, ps[0].0)
      {
        assert ps[1..][j] == ps[j + 1];
      }
      EncodeKeyedPairsKeepsOthers(c1, ps[1..], keyFor, encV, TextOf(keyFor, ps[0].0));
    } else {
      forall j | i - 1 < j < |ps[1..]|
        ensures TextOf(keyFor, ps[1..][j].0) != TextOf(keyFor, ps[1..][i - 1].0)
      {
        assert ps[1..][j] == ps[j + 1] && ps[1..][i - 1] == ps[i];
      }
      EncodeKeyedPairsLastWins(c1, ps[1..], keyFor, encV, i - 1);
      assert ps[1..][i - 1] == ps[i];
    }
    EncodeKeyedPairsUnfold(c, ps, keyFor, encV);
  }

  /** One turn of the keyed encoding loop: the first pair is written, then
      the rest. */
  lemma EncodeKeyedPairsUnfold<K, V>(c: Encoding.KeyedEncoder, ps: seq<(K, V)>, keyFor: K -> CodingKey, encV: EncodeFn<V>)
    requires |ps| > 0
    ensures EncodeKeyedPairs(c, ps, keyFor, encV)
         == EncodeKeyedPairs(Encoding.KeyedEncode(c, ps[0].1, keyFor(ps[0].0), encV), ps[1..], keyFor, encV)
  {
  }

  lemma KeysOfAppend(es: seq<(string, Json)>, e: (string, Json))
    ensures KeysOf(es + [e]) == KeysOf(es) + [e.0]
  {
  }

  lemma DistinctTextsTail<K, V>(ps: seq<(K, V)>, keyFor: K -> CodingKey)
    requires |ps| > 0 && DistinctTexts(ps, keyFor)
    ensures DistinctTexts(ps[1..], keyFor)
    ensures forall i :: 0 <= i < |ps[1..]| ==> TextOf(keyFor, ps[1..][i].0) != TextOf(keyFor, ps[0].0)
  {
    forall i, j | 0 <= i < j < |ps[1..]|
      ensures TextOf(keyFor, ps[1..][i].0) != TextOf(keyFor, ps[1..][j].0)
    {
      assert ps[1..][i] == ps[i + 1] && ps[1..][j] == ps[j + 1];
    }
    forall i | 0 <= i < |ps[1..]|
      ensures TextOf(keyFor, ps[1..][i].0) != TextOf(keyFor, ps[0].0)
    {
      assert ps[1..][i] == ps[i + 1];
    }
  }

  lemma SeqAssoc<T>(a: seq<T>, b: seq<T>, c: seq<T>)
    ensures (a + b) + c == a + (b + c)
  {
  }

  lemma MembersCons<K, V>(ps: seq<(K, V)>, keyFor: K -> CodingKey, encV: EncodeFn<V>)
    requires |ps| > 0
    ensures Members(ps, keyFor, encV) == [(TextOf(keyFor, ps[0].0), encV(ps[0].1))] + Members(ps[1..], keyFor, encV)
  {
  }

  /** The first pair, under a name the container lacks, is appended. */
  lemma EncodeKeyedPairsStep<K, V>(
    c: Encoding.KeyedEncoder, ps: seq<(K, V)>, keyFor: K -> CodingKey, encV: EncodeFn<V>)
    requires |ps| > 0 && TextOf(keyFor, ps[0].0) !in KeysOf(c.entries)
    ensures EncodeKeyedPairs(c, ps, keyFor, encV)
         == EncodeKeyedPairs(Encoding.KeyedEncoder(c.entries + [(TextOf(keyFor, ps[0].0), encV(ps[0].1))]), ps[1..], keyFor, encV)
  {
  }

  /** With distinct names none of which the container has, each pair is
      appended as one member, in order. */
  lemma {:induction false} EncodeKeyedPairsAppends<K, V>(
    c: Encoding.KeyedEncoder, ps: seq<(K, V)>, keyFor: K -> CodingKey, encV: EncodeFn<V>)
    requires DistinctTexts(ps, keyFor)
    requires forall i :: 0 <= i < |ps| ==> TextOf(keyFor, ps[i].0) !in KeysOf(c.entries)
    ensures EncodeKeyedPairs(c, ps, keyFor, encV).entries == c.entries + Members(ps, keyFor, encV)
    decreases |ps|
  {
    if |ps| > 0 {
      var e := (TextOf(keyFor, ps[0].0), encV(ps[0].1));
      var c' := Encoding.KeyedEncoder(c.entries + [e]);
      EncodeKeyedPairsStep(c, ps, keyFor, encV);
      KeysOfAppend(c.entries, e);
      DistinctTextsTail(ps, keyFor);
      assert forall i :: 0 <= i < |ps[1..]| ==> TextOf(keyFor, ps[1..][i].0) !in KeysOf(c'.entries) by {
        forall i | 0 <= i < |ps[1..]|
          ensures TextOf(keyFor, ps[1..][i].0) !in KeysOf(c'.entries)
        {
          assert ps[1..][i] == ps[i + 1];
        }
      }
      EncodeKeyedPairsAppends(c', ps[1..], keyFor, encV);
      MembersCons(ps, keyFor, encV);
      calc {
        EncodeKeyedPairs(c, ps, keyFor, encV).entries;
        EncodeKeyedPairs(c', ps[1..], keyFor, encV).entries;
        (c.entries + [e]) + Members(ps[1..], keyFor, encV);
        { SeqAssoc(c.entries, [e], Members(ps[1..], keyFor, encV)); }
        c.entries + ([e] + Members(ps[1..], keyFor, encV));
        c.entries + Members(ps, keyFor, encV);
      }
    }
  }

  /** Written into an empty container, the members are exactly the names of
      the pairs, each holding the value of the last pair under it. */
  lemma EncodeKeyedPairsFromEmpty<K, V>(ps: seq<(K, V)>, keyFor: K -> CodingKey, encV: EncodeFn<V>)
    ensures forall k :: (forall i :: 0 <= i < |ps| ==> TextOf(keyFor, ps[i].0) != k) ==>
              Lookup(EncodeKeyedPairs(Encoding.KeyedEncoder([]), ps, keyFor, encV).entries, k).None?
    ensures forall i :: 0 <= i < |ps| && (forall m :: i < m < |ps| ==> TextOf(keyFor, ps[m].0) != TextOf(keyFor, ps[i].0)) ==>
              Lookup(EncodeKeyedPairs(Encoding.KeyedEncoder([]), ps, keyFor, encV).entries, TextOf(keyFor, ps[i].0))
                == Some(encV(ps[i].1))
  {
    var c := Encoding.KeyedEncoder([]);
    forall k | forall i :: 0 <= i < |ps| ==> TextOf(keyFor, ps[i].0) != k
      ensures Lookup(EncodeKeyedPairs(c, ps, keyFor, encV).entries, k).None?
    {
      EncodeKeyedPairsKeepsOthers(c, ps, keyFor, encV, k);
    }
    forall i | 0 <= i < |ps| && (forall m :: i < m < |ps| ==> TextOf(keyFor, ps[m].0) != TextOf(keyFor, ps[i].0))
      ensures Lookup(EncodeKeyedPairs(c, ps, keyFor, encV).entries, TextOf(keyFor, ps[i].0)) == Some(encV(ps[i].1))
    {
      EncodeKeyedPairsLastWins(c, ps, keyFor, encV, i);
    }
  }

  /** `Dictionary.encode(to:)` for `String` keys: one member per distinct
      key, named by the key, holding the last value given for it. */
  function EncodeStringKeyed<V>(ps: seq<(string, V)>, encV: EncodeFn<V>): (j: Json)
    ensures j.Obj?
    ensures forall k :: (forall i :: 0 <= i < |ps| ==> ps[i].0 != k) ==> Lookup(j.entries, k).None?
    ensures forall i :: 0 <= i < |ps| && (forall m :: i < m < |ps| ==> ps[m].0 != ps[i].0) ==>
              Lookup(j.entries, ps[i].0) == Some(encV(ps[i].1))
  {
    EncodeKeyedPairsFromEmpty(ps, DictionaryKeyFromString, encV);
    Obj(EncodeKeyedPairs(Encoding.KeyedEncoder([]), ps, DictionaryKeyFromString, encV).entries)
  }

  /** `Dictionary.encode(to:)` for `Int` keys: one member per distinct
      decimal text, holding the last value given for it. */
  function EncodeIntKeyed<V>(ps: seq<(int, V)>, encV: EncodeFn<V>): (j: Json)
    ensures j.Obj?
    ensures forall k :: (forall i :: 0 <= i < |ps| ==> DecimalString(ps[i].0) != k) ==> Lookup(j.entries, k).None?
    ensures forall i :: 0 <= i < |ps| && (forall m :: i < m < |ps| ==> DecimalString(ps[m].0) != DecimalString(ps[i].0)) ==>
              Lookup(j.entries, DecimalString(ps[i].0)) == Some(encV(ps[i].1))
  {
    EncodeKeyedPairsFromEmpty(ps, DictionaryKeyFromInt, encV);
    Obj(EncodeKeyedPairs(Encoding.KeyedEncoder([]), ps, DictionaryKeyFromInt, encV).entries)
  }

  /** `Dictionary.encode(to:)` for `CodingKeyRepresentable` keys, with
      `codingKey` the key type's conversion: one member per distinct key
      text, holding the last value given for it. */
  function EncodeRepresentableKeyed<K, V>(ps: seq<(K, V)>, codingKey: K -> CodingKey, encV: EncodeFn<V>): (j: Json)
    ensures j.Obj?
    ensures forall k :: (forall i :: 0 <= i < |ps| ==> codingKey(ps[i].0).stringValue != k) ==> Lookup(j.entries, k).None?
    ensures forall i :: 0 <= i < |ps| &&
                        (forall m :: i < m < |ps| ==> codingKey(ps[m].0).stringValue != codingKey(ps[i].0).stringValue) ==>
              Lookup(j.entries, codingKey(ps[i].0).stringValue) == Some(encV(ps[i].1))
  {
    EncodeKeyedPairsFromEmpty(ps, (k: K) => DictionaryKeyFromCodingKey(codingKey(k)), encV);
    Obj(EncodeKeyedPairs(Encoding.KeyedEncoder([]), ps, (k: K) => DictionaryKeyFromCodingKey(codingKey(k)), encV).entries)
  }

  /** How a keyed branch of `Dictionary.init(from:)` turns a key of the
      container into a dictionary key, or the error it throws. */
  type KeyConv<K> = (KeyedDecoder, CodingKey) -> Result<K>

  /** `String` keys: the key's text. */
  function StringKeyOf(c: KeyedDecoder, key: CodingKey): (r: Result<string>)
    ensures r == Success(key.stringValue)
  {
    Success(key.stringValue)
  }

  /** `Int` keys: the key's integer view; a key without one is a type
      mismatch at the decoder's path plus the key. */
  function IntKeyOf(c: KeyedDecoder, key: CodingKey): (r: Result<int>)
    ensures r.Success? <==> key.intValue.Some?
    ensures r.Success? ==> r.value == key.intValue.value
    ensures r.Failure? ==> r.error == TypeMismatch(c.decoder.codingPath + [key])
  {
    match key.intValue
    case None => Failure(TypeMismatch(c.decoder.codingPath + [key]))
    case Some(n) => Success(n)
  }

  /** `CodingKeyRepresentable` keys: the key type's `init?(codingKey:)`; a
      rejected key is `dataCorruptedError(forKey:in:)`. */
  function RepresentableKeyOf<K>(fromKey: CodingKey -> Option<K>, c: KeyedDecoder, key: CodingKey): (r: Result<K>)
    ensures r.Success? <==> fromKey(key).Some?
    ensures r.Success? ==> Some(r.value) == fromKey(key)
    ensures r.Failure? ==> r.error == Defaults.KeyedDataCorruptedError(c, key)
  {
    match fromKey(key)
    case None => Failure(Defaults.KeyedDataCorruptedError(c, key))
    case Some(k) => Success(k)
  }

  /** The loop of the keyed branches of `Dictionary.init(from:)`: for each
      key, convert it, then `decode(_:forKey:)` its value. */
  function DecodeKeyedEntries<K, V>(c: KeyedDecoder, keys: seq<CodingKey>, keyOf: KeyConv<K>, decV: DecodeFn<V>, acc: map<K, V>): (r: Result<map<K, V>>)
    ensures r.Failure? ==>
              exists j :: (0 <= j < |keys| &&
                (keyOf(c, keys[j]) == Failure(r.error) || Keyed.Decode(c, keys[j], decV) == Failure(r.error)))
    decreases |keys|
  {
    if |keys| == 0 then Success(acc)
    else
      var r :=
        var k :- keyOf(c, keys[0]);
        var v :- Keyed.Decode(c, keys[0], decV);
        DecodeKeyedEntries(c, keys[1..], keyOf, decV, acc[k := v]);
      assert r.Failure? ==>
               exists j :: (0 <= j < |keys| &&
                 (keyOf(c, keys[j]) == Failure(r.error) || Keyed.Decode(c, keys[j], decV) == Failure(r.error))) by {
        if r.Failure? && keyOf(c, keys[0]).Success? && Keyed.Decode(c, keys[0], decV).Success? {
          var j :| 0 <= j < |keys[1..]| &&
            (keyOf(c, keys[1..][j]) == Failure(r.error) || Keyed.Decode(c, keys[1..][j], decV) == Failure(r.error));
          assert keys[1..][j] == keys[j + 1];
        }
      }
      r
  }

  /** When every key converts and every value decodes, the result is the
      dictionary of those pairs. */
  lemma {:induction false} DecodeKeyedEntriesSucceeds<K, V>(
    c: KeyedDecoder, keys: seq<CodingKey>, keyOf: KeyConv<K>, decV: DecodeFn<V>, acc: map<K, V>, ps: seq<(K, V)>)
    requires |ps| == |keys|
    requires forall j :: 0 <= j < |keys| ==> keyOf(c, keys[j]) == Success(ps[j].0)
    requires forall j :: 0 <= j < |keys| ==> Keyed.Decode(c, keys[j], decV) == Success(ps[j].1)
    ensures DecodeKeyedEntries(c, keys, keyOf, decV, acc) == Success(Assign(acc, ps))
    decreases |keys|
  {
    if |keys| > 0 {
      assert keyOf(c, keys[0]) == Success(ps[0].0);
      assert Keyed.Decode(c, keys[0], decV) == Success(ps[0].1);
      forall j | 0 <= j < |keys[1..]|
        ensures keyOf(c, keys[1..][j]) == Success(ps[1..][j].0)
        ensures Keyed.Decode(c, keys[1..][j], decV) == Success(ps[1..][j].1)
      {
        assert keys[1..][j] == keys[j + 1] && ps[1..][j] == ps[j + 1];
      }
      DecodeKeyedEntriesStep(c, keys, keyOf, decV, acc);
      DecodeKeyedEntriesSucceeds(c, keys[1..], keyOf, decV, acc[ps[0].0 := ps[0].1], ps[1..]);
    }
  }

  /** The loop stops at the first key that fails: when every key before
      position j converts and decodes and the key at j does not, the result
      is that key's first error, its conversion's if that fails and
      otherwise its value's. */
  lemma {:induction false} DecodeKeyedEntriesFirstFailure<K, V>(
    c: KeyedDecoder, keys: seq<CodingKey>, keyOf: KeyConv<K>, decV: DecodeFn<V>, acc: map<K, V>, j: int)
    requires 0 <= j < |keys|
    requires forall i :: 0 <= i < j ==> keyOf(c, keys[i]).Success? && Keyed.Decode(c, keys[i], decV).Success?
    requires keyOf(c, keys[j]).Failure? || Keyed.Decode(c, keys[j], decV).Failure?
    ensures DecodeKeyedEntries(c, keys, keyOf, decV, acc)
         == Failure(if keyOf(c, keys[j]).Failure? then keyOf(c, keys[j]).error else Keyed.Decode(c, keys[j], decV).error)
    decreases |keys|
  {
    if j > 0 {
      var k := keyOf(c, keys[0]).value;
      var v := Keyed.Decode(c, keys[0], decV).value;
      KeysPrefixSucceedsTail(c, keys, keyOf, decV, j);
      DecodeKeyedEntriesStep(c, keys, keyOf, decV, acc);
      DecodeKeyedEntriesFirstFailure(c, keys[1..], keyOf, decV, acc[k := v], j - 1);
    }
  }

  /** Dropping the first key keeps the keys before position `j` (now
      `j - 1`) succeeding, and the key at `j` in place. */
  lemma KeysPrefixSucceedsTail<K, V>(c: KeyedDecoder, keys: seq<CodingKey>, keyOf: KeyConv<K>, decV: DecodeFn<V>, j: int)
    requires 0 < j < |keys|
    requires forall i :: 0 <= i < j ==> keyOf(c, keys[i]).Success? && Keyed.Decode(c, keys[i], decV).Success?
    ensures forall i :: 0 <= i < j - 1 ==> keyOf(c, keys[1..][i]).Success? && Keyed.Decode(c, keys[1..][i], decV).Success?
    ensures keys[1..][j - 1] == keys[j]
  {
    forall i | 0 <= i < j - 1
      ensures keyOf(c, keys[1..][i]).Success? && Keyed.Decode(c, keys[1..][i], decV).Success?
    {
      assert keys[1..][i] == keys[i + 1];
    }
  }

  /** One turn of the loop: the first key converted and its value decoded
      are stored, and the loop goes on with the remaining keys. */
  lemma DecodeKeyedEntriesStep<K, V>(c: KeyedDecoder, keys: seq<CodingKey>, keyOf: KeyConv<K>, decV: DecodeFn<V>, acc: map<K, V>)
    requires 0 < |keys|
    requires keyOf(c, keys[0]).Success? && Keyed.Decode(c, keys[0], decV).Success?
    ensures DecodeKeyedEntries(c, keys, keyOf, decV, acc)
         == DecodeKeyedEntries(c, keys[1..], keyOf, decV, acc[keyOf(c, keys[0]).value := Keyed.Decode(c, keys[0], decV).value])
  {
  }

  /** The key type `_DictionaryCodingKey` accepts every member name. */
  function DictionaryKeyFromName(s: string): (k: Option<CodingKey>)
    ensures k == Some(DictionaryKeyFromString(s))
  {
    Some(DictionaryKeyFromString(s))
  }

  /** A keyed branch of `Dictionary.init(from:)`: a keyed container over the
      top container, then each of its `allKeys` in document order. */
  function KeyedDictInit<K, V>(keyOf: KeyConv<K>, decV: DecodeFn<V>, v: Json, path: CodingPath): (r: Result<map<K, V>>)
    ensures !v.Obj? ==> r == Failure(TypeMismatch([]))
    ensures v == Obj([]) ==> r == Success(map[])
    ensures v.Obj? ==> r == DecodeKeyedEntries(KeyedDecoder(DecoderAt(v, path), v.entries),
                                               Keyed.AllKeys(KeyedDecoder(DecoderAt(v, path), v.entries), DictionaryKeyFromName),
                                               keyOf, decV, map[])
  {
    var c :- KeyedContainer(DecoderAt(v, path));
    DecodeKeyedEntries(c, Keyed.AllKeys(c, DictionaryKeyFromName), keyOf, decV, map[])
  }

  /** `allKeys` of a `_DictionaryCodingKey` container: one key per member,
      in document order. */
  lemma AllDictionaryKeys(c: KeyedDecoder)
    ensures |Keyed.AllKeys(c, DictionaryKeyFromName)| == |c.entries|
    ensures forall i :: 0 <= i < |c.entries| ==>
              Keyed.AllKeys(c, DictionaryKeyFromName)[i] == DictionaryKeyFromString(c.entries[i].0)
  {
    var names := KeysOf(c.entries);
    assert forall s :: s in names ==> DictionaryKeyFromName(s).Some?;
  }

  /** Decoding under a member's own name reads that member when names are
      distinct. */
  lemma DecodeDistinctMember<V>(c: KeyedDecoder, j: int, decV: DecodeFn<V>)
    requires DistinctKeys(c.entries) && 0 <= j < |c.entries|
    ensures Keyed.Decode(c, DictionaryKeyFromString(c.entries[j].0), decV)
         == decV(c.entries[j].1, c.decoder.codingPath + [DictionaryKeyFromString(c.entries[j].0)])
  {
    LookupDistinct(c.entries, j);
  }

  lemma MembersDistinct<K, V>(ps: seq<(K, V)>, keyFor: K -> CodingKey, encV: EncodeFn<V>)
    requires DistinctTexts(ps, keyFor)
    ensures DistinctKeys(Members(ps, keyFor, encV))
  {
  }

  /** Any keyed layout round trips when names are distinct, each name reads
      back as its key, and the value type round trips. */
  lemma KeyedDictRoundTrip<K, V(!new)>(
    ps: seq<(K, V)>, keyFor: K -> CodingKey, keyOf: KeyConv<K>,
    encV: EncodeFn<V>, decV: DecodeFn<V>, path: CodingPath)
    requires RoundTrips(encV, decV)
    requires DistinctTexts(ps, keyFor)
    requires forall kd: KeyedDecoder, i :: 0 <= i < |ps| ==>
               keyOf(kd, DictionaryKeyFromString(TextOf(keyFor, ps[i].0))) == Success(ps[i].0)
    ensures KeyedDictInit(keyOf, decV, Obj(EncodeKeyedPairs(Encoding.KeyedEncoder([]), ps, keyFor, encV).entries), path)
         == Success(MapOf(ps))
  {
    var es := Members(ps, keyFor, encV);
    EncodeKeyedPairsAppends(Encoding.KeyedEncoder([]), ps, keyFor, encV);
    assert EncodeKeyedPairs(Encoding.KeyedEncoder([]), ps, keyFor, encV).entries == es;
    var c := KeyedDecoder(DecoderAt(Obj(es), path), es);
    var keys := Keyed.AllKeys(c, DictionaryKeyFromName);
    AllDictionaryKeys(c);
    MembersDistinct(ps, keyFor, encV);
    forall j | 0 <= j < |keys|
      ensures keyOf(c, keys[j]) == Success(ps[j].0)
      ensures Keyed.Decode(c, keys[j], decV) == Success(ps[j].1)
    {
      DecodeDistinctMember(c, j, decV);
      RoundTripAt(encV, decV, ps[j].1, path + [keys[j]]);
    }
    DecodeKeyedEntriesSucceeds(c, keys, keyOf, decV, map[], ps);
  }

  /** `[String: V]` round trips whenever `V` does. */
  lemma StringKeyedRoundTrip<V(!new)>(ps: seq<(string, V)>, encV: EncodeFn<V>, decV: DecodeFn<V>, path: CodingPath)
    requires RoundTrips(encV, decV)
    requires DistinctFirsts(ps)
    ensures KeyedDictInit(StringKeyOf, decV, EncodeStringKeyed(ps, encV), path) == Success(MapOf(ps))
  {
    KeyedDictRoundTrip(ps, DictionaryKeyFromString, StringKeyOf, encV, decV, path);
  }

  /** `[Int: V]` round trips whenever `V` does: each key is written as its
      decimal text and parsed back by `_DictionaryCodingKey(stringValue:)`. */
  lemma IntKeyedRoundTrip<V(!new)>(ps: seq<(int, V)>, encV: EncodeFn<V>, decV: DecodeFn<V>, path: CodingPath)
    requires RoundTrips(encV, decV)
    requires DistinctFirsts(ps)
    requires forall i :: 0 <= i < |ps| ==> InIntRange(ps[i].0)
    ensures KeyedDictInit(IntKeyOf, decV, EncodeIntKeyed(ps, encV), path) == Success(MapOf(ps))
  {
    forall i, j | 0 <= i < j < |ps|
      ensures TextOf(DictionaryKeyFromInt, ps[i].0) != TextOf(DictionaryKeyFromInt, ps[j].0)
    {
      if DecimalString(ps[i].0) == DecimalString(ps[j].0) {
        DecimalStringInjective(ps[i].0, ps[j].0);
      }
    }
    forall kd: KeyedDecoder, i | 0 <= i < |ps|
      ensures IntKeyOf(kd, DictionaryKeyFromString(TextOf(DictionaryKeyFromInt, ps[i].0))) == Success(ps[i].0)
    {
      DictionaryKeyConstructorsAgree(ps[i].0);
    }
    KeyedDictRoundTrip(ps, DictionaryKeyFromInt, IntKeyOf, encV, decV, path);
  }

  /** A `CodingKeyRepresentable` key type round trips when distinct keys
      have distinct texts and `init?(codingKey:)` recovers a key from a
      coding key carrying only its text (the integer view being whatever
      that text parses to). */
  lemma RepresentableKeyedRoundTrip<K, V(!new)>(
    ps: seq<(K, V)>, codingKey: K -> CodingKey, fromKey: CodingKey -> Option<K>,
    encV: EncodeFn<V>, decV: DecodeFn<V>, path: CodingPath)
    requires RoundTrips(encV, decV)
    requires forall i, j :: 0 <= i < j < |ps| ==> codingKey(ps[i].0).stringValue != codingKey(ps[j].0).stringValue
    requires forall i :: 0 <= i < |ps| ==> fromKey(DictionaryKeyFromString(codingKey(ps[i].0).stringValue)) == Some(ps[i].0)
    ensures KeyedDictInit((kd: KeyedDecoder, key: CodingKey) => RepresentableKeyOf(fromKey, kd, key), decV,
                          EncodeRepresentableKeyed(ps, codingKey, encV), path)
         == Success(MapOf(ps))
  {
    var keyFor := (k: K) => DictionaryKeyFromCodingKey(codingKey(k));
    var keyOf := (kd: KeyedDecoder, key: CodingKey) => RepresentableKeyOf(fromKey, kd, key);
    assert forall i, j :: 0 <= i < j < |ps| ==> TextOf(keyFor, ps[i].0) != TextOf(keyFor, ps[j].0);
    KeyedDictRoundTrip(ps, keyFor, keyOf, encV, decV, path);
  }

  /** `Int` keys written as text that is not a decimal integer are rejected
      with a type mismatch naming that key. */
  lemma IntKeyedRejectsTextKey<V>(decV: DecodeFn<V>, x: Json, path: CodingPath)
    ensures KeyedDictInit(IntKeyOf, decV, Obj([("one", x)]), path)
         == Failure(TypeMismatch(path + [DictionaryKeyFromString("one")]))
  {
    var v := Obj([("one", x)]);
    var c := KeyedDecoder(DecoderAt(v, path), v.entries);
    assert KeyedContainer(DecoderAt(v, path)) == Success(c);
    assert ParseInt("one").None? by {
      assert !IsDigit('o');
    }
    assert Keyed.AllKeys(c, DictionaryKeyFromName) == [DictionaryKeyFromString("one")];
  }

  /** `[Int: V]` stops at the first member whose name is not a decimal
      `Int`, once every member before it has read back, and reports a type
      mismatch at the dictionary's path plus that member's key. */
  lemma IntKeyedRejectsFirstTextKey<V>(decV: DecodeFn<V>, v: Json, path: CodingPath, j: int)
    requires v.Obj? && 0 <= j < |v.entries|
    requires ParseInt(v.entries[j].0).None?
    requires forall i :: 0 <= i < j ==> ParseInt(v.entries[i].0).Some?
    requires forall i :: 0 <= i < j ==>
               decV(Lookup(v.entries, v.entries[i].0).value, path + [DictionaryKeyFromString(v.entries[i].0)]).Success?
    ensures KeyedDictInit(IntKeyOf, decV, v, path) == Failure(TypeMismatch(path + [DictionaryKeyFromString(v.entries[j].0)]))
  {
    var c := KeyedDecoder(DecoderAt(v, path), v.entries);
    var keys := Keyed.AllKeys(c, DictionaryKeyFromName);
    AllDictionaryKeys(c);
    forall i | 0 <= i < j
      ensures IntKeyOf(c, keys[i]).Success? && Keyed.Decode(c, keys[i], decV).Success?
    {
      assert v.entries[i].0 in KeysOf(v.entries);
    }
    assert IntKeyOf(c, keys[j]) == Failure(TypeMismatch(path + [keys[j]]));
    DecodeKeyedEntriesFirstFailure(c, keys, IntKeyOf, decV, map[], j);
  }

  // ---- Alternating key/value layout (any other key type)

  /** The loop of the last branch of `Dictionary.encode(to:)`: each pair as
      `encode(key)` then `encode(value)`. */
  function EncodePairsInto<K, V>(c: Encoding.UnkeyedEncoder, ps: seq<(K, V)>, encK: EncodeFn<K>, encV: EncodeFn<V>): (r: Encoding.UnkeyedEncoder)
    ensures Encoding.Count(r) == Encoding.Count(c) + 2 * |ps|
    ensures r.elems[..Encoding.Count(c)] == c.elems
    ensures forall i :: 0 <= i < |ps| ==> r.elems[Encoding.Count(c) + 2 * i] == encK(ps[i].0)
    ensures forall i :: 0 <= i < |ps| ==> r.elems[Encoding.Count(c) + 2 * i + 1] == encV(ps[i].1)
    decreases |ps|
  {
    if |ps| == 0 then c
    else
      var c1 := Encoding.UnkeyedEncode(Encoding.UnkeyedEncode(c, ps[0].0, encK), ps[0].1, encV);
      var r := EncodePairsInto(c1, ps[1..], encK, encV);
      var n := Encoding.Count(c);
      assert r.elems[..n] == c.elems by {
        assert r.elems[..n] == r.elems[..n + 2][..n];
        assert c1.elems[..n] == c.elems;
      }
      assert forall i :: 0 <= i < |ps| ==> r.elems[n + 2 * i] == encK(ps[i].0) && r.elems[n + 2 * i + 1] == encV(ps[i].1) by {
        forall i | 0 <= i < |ps|
          ensures r.elems[n + 2 * i] == encK(ps[i].0) && r.elems[n + 2 * i + 1] == encV(ps[i].1)
        {
          if i == 0 {
            assert r.elems[n] == r.elems[..n + 2][n] == c1.elems[n];
            assert r.elems[n + 1] == r.elems[..n + 2][n + 1] == c1.elems[n + 1];
          } else {
            assert ps[1..][i - 1] == ps[i];
            assert n + 2 * i == (n + 2) + 2 * (i - 1);
          }
        }
      }
      r
  }

  /** `Dictionary.encode(to:)` for key types that are neither `String`,
      `Int` nor `CodingKeyRepresentable`: 2n elements, key first. */
  function EncodePairs<K, V>(ps: seq<(K, V)>, encK: EncodeFn<K>, encV: EncodeFn<V>): (j: Json)
    ensures j.Arr? && |j.elems| == 2 * |ps|
    ensures forall i :: 0 <= i < |ps| ==> j.elems[2 * i] == encK(ps[i].0) && j.elems[2 * i + 1] == encV(ps[i].1)
  {
    Arr(EncodePairsInto(Encoding.UnkeyedEncoder([]), ps, encK, encV).elems)
  }

  /** The loop of the last branch of `Dictionary.init(from:)`: a key, then
      (unless the container has ended) a value, until the container ends. */
  function DecodePairsFrom<K, V>(c: UnkeyedDecoder, decK: DecodeFn<K>, decV: DecodeFn<V>, acc: map<K, V>): (r: Result<map<K, V>>)
    requires Valid(c)
    ensures IsAtEnd(c) ==> r == Success(acc)
    ensures !IsAtEnd(c) && c.currentIndex + 1 == |c.elems| && decK(c.elems[c.currentIndex], Unkeyed.CurrentPath(c)).Success? ==>
              r == Failure(DataCorrupted(c.decoder.codingPath))
    ensures !IsAtEnd(c) && decK(c.elems[c.currentIndex], Unkeyed.CurrentPath(c)).Failure? ==>
              r == Failure(decK(c.elems[c.currentIndex], Unkeyed.CurrentPath(c)).error)
    decreases |c.elems| - c.currentIndex
  {
    if IsAtEnd(c) then Success(acc)
    else
      var sk := Unkeyed.Decode(c, decK);
      match sk.result
      case Failure(e) => Failure(e)
      case Success(k) =>
        if IsAtEnd(sk.next) then Failure(DataCorrupted(c.decoder.codingPath))
        else
          var sv := Unkeyed.Decode(sk.next, decV);
          match sv.result
          case Failure(e) => Failure(e)
          case Success(v) => DecodePairsFrom(sv.next, decK, decV, acc[k := v])
  }

  /** The loop only succeeds by reading whole key/value pairs up to the end
      of the container. */
  lemma {:induction false} DecodePairsFromWholePairs<K, V>(c: UnkeyedDecoder, decK: DecodeFn<K>, decV: DecodeFn<V>, acc: map<K, V>)
    requires Valid(c)
    requires DecodePairsFrom(c, decK, decV, acc).Success?
    ensures IsEven(|c.elems| - c.currentIndex)
    decreases |c.elems| - c.currentIndex
  {
    if c.currentIndex < |c.elems| {
      var k, v := DecodePairsFromAdvance(c, decK, decV, acc);
      var next := c.(currentIndex := c.currentIndex + 2);
      DecodePairsFromWholePairs(next, decK, decV, acc[k := v]);
      EvenAfterTwo(c, next);
    } else {
      EvenAtEnd(c);
    }
  }

  /** The loop never drops a key it has already stored. */
  lemma {:induction false} DecodePairsFromKeepsKeys<K, V>(c: UnkeyedDecoder, decK: DecodeFn<K>, decV: DecodeFn<V>, acc: map<K, V>)
    requires Valid(c)
    requires DecodePairsFrom(c, decK, decV, acc).Success?
    ensures acc.Keys <= DecodePairsFrom(c, decK, decV, acc).value.Keys
    decreases |c.elems| - c.currentIndex
  {
    if c.currentIndex < |c.elems| {
      var k, v := DecodePairsFromAdvance(c, decK, decV, acc);
      DecodePairsFromKeepsKeys(c.(currentIndex := c.currentIndex + 2), decK, decV, acc[k := v]);
    }
  }

  /** A successful loop with elements left reads one whole pair and goes
      on, still successfully, two positions later. */
  lemma DecodePairsFromAdvance<K, V>(c: UnkeyedDecoder, decK: DecodeFn<K>, decV: DecodeFn<V>, acc: map<K, V>)
    returns (k: K, v: V)
    requires Valid(c) && c.currentIndex < |c.elems|
    requires DecodePairsFrom(c, decK, decV, acc).Success?
    ensures c.currentIndex + 2 <= |c.elems|
    ensures DecodePairsFrom(c.(currentIndex := c.currentIndex + 2), decK, decV, acc[k := v])
         == DecodePairsFrom(c, decK, decV, acc)
  {
    var n := c.currentIndex;
    DecodePairsFromReadsKey(c, decK, decV, acc);
    var rk := decK(c.elems[n], Unkeyed.CurrentPath(c));
    var rv := decV(c.elems[n + 1], c.decoder.codingPath + [IndexKey(n + 1)]);
    if rv.Failure? {
      DecodePairsFromValueFails(c, decK, decV, acc);
      assert false;
    }
    k, v := rk.value, rv.value;
    DecodePairsFromStep(c, decK, decV, acc, k, v);
  }

  predicate IsEven(n: int) {
    n % 2 == 0
  }

  lemma EvenAfterTwo(c: UnkeyedDecoder, next: UnkeyedDecoder)
    requires next.elems == c.elems && next.currentIndex == c.currentIndex + 2
    requires IsEven(|next.elems| - next.currentIndex)
    ensures IsEven(|c.elems| - c.currentIndex)
  {
  }

  lemma EvenAtEnd(c: UnkeyedDecoder)
    requires Valid(c) && !(c.currentIndex < |c.elems|)
    ensures IsEven(|c.elems| - c.currentIndex)
  {
  }

  /** A value that fails to decode after a key that did ends the loop with
      a failure. */
  lemma DecodePairsFromValueFails<K, V>(c: UnkeyedDecoder, decK: DecodeFn<K>, decV: DecodeFn<V>, acc: map<K, V>)
    requires Valid(c) && c.currentIndex + 2 <= |c.elems|
    requires decK(c.elems[c.currentIndex], Unkeyed.CurrentPath(c)).Success?
    requires decV(c.elems[c.currentIndex + 1], c.decoder.codingPath + [IndexKey(c.currentIndex + 1)]).Failure?
    ensures DecodePairsFrom(c, decK, decV, acc).Failure?
  {
    var sk := Unkeyed.Decode(c, decK);
    assert sk.next == c.(currentIndex := c.currentIndex + 1);
  }

  /** The last branch of `Dictionary.init(from:)`: an odd known count is
      rejected before any element is read. */
  function PairsInit<K, V>(decK: DecodeFn<K>, decV: DecodeFn<V>, v: Json, path: CodingPath): (r: Result<map<K, V>>)
    ensures !v.Arr? ==> r == Failure(TypeMismatch(path))
    ensures v.Arr? && |v.elems| % 2 == 1 ==> r == Failure(DataCorrupted(path))
  {
    var c :- UnkeyedContainer(DecoderAt(v, path));
    if c.count.Some? && c.count.value % 2 != 0 then Failure(DataCorrupted(path))
    else DecodePairsFrom(c, decK, decV, map[])
  }

  /** Once an odd count is ruled out, the check for a container ending after
      a key can never fire: from an even position with elements left, a key
      read leaves a value to read. */
  lemma EvenCountNeverEndsAfterKey<K>(c: UnkeyedDecoder, decK: DecodeFn<K>)
    requires Valid(c) && |c.elems| % 2 == 0 && c.currentIndex % 2 == 0 && !IsAtEnd(c)
    requires Unkeyed.Decode(c, decK).result.Success?
    ensures !IsAtEnd(Unkeyed.Decode(c, decK).next)
  {
  }

  /** A successful loop with elements left reads a key, and a value
      follows it. */
  lemma DecodePairsFromReadsKey<K, V>(c: UnkeyedDecoder, decK: DecodeFn<K>, decV: DecodeFn<V>, acc: map<K, V>)
    requires Valid(c) && c.currentIndex < |c.elems|
    requires DecodePairsFrom(c, decK, decV, acc).Success?
    ensures decK(c.elems[c.currentIndex], Unkeyed.CurrentPath(c)).Success?
    ensures c.currentIndex + 1 < |c.elems|
  {
  }

  /** One turn of the loop: a key and a value read at the next two
      positions are stored, and the loop goes on two positions later. */
  lemma DecodePairsFromStep<K, V>(c: UnkeyedDecoder, decK: DecodeFn<K>, decV: DecodeFn<V>, acc: map<K, V>, k: K, v: V)
    requires Valid(c) && c.currentIndex + 2 <= |c.elems|
    requires decK(c.elems[c.currentIndex], Unkeyed.CurrentPath(c)) == Success(k)
    requires decV(c.elems[c.currentIndex + 1], c.decoder.codingPath + [IndexKey(c.currentIndex + 1)]) == Success(v)
    ensures DecodePairsFrom(c, decK, decV, acc)
         == DecodePairsFrom(c.(currentIndex := c.currentIndex + 2), decK, decV, acc[k := v])
  {
    var sk := Unkeyed.Decode(c, decK);
    assert sk.next == c.(currentIndex := c.currentIndex + 1);
    var sv := Unkeyed.Decode(sk.next, decV);
    assert sv.next == c.(currentIndex := c.currentIndex + 2);
  }

  /** A pair read at the cursor, followed by the pairs read two positions
      later, is what the loop reads from the cursor. */
  lemma DecodePairsFromCons<K, V>(c: UnkeyedDecoder, decK: DecodeFn<K>, decV: DecodeFn<V>, acc: map<K, V>,
                                  p: (K, V), rest: seq<(K, V)>)
    requires Valid(c) && c.currentIndex + 2 <= |c.elems|
    requires decK(c.elems[c.currentIndex], Unkeyed.CurrentPath(c)) == Success(p.0)
    requires decV(c.elems[c.currentIndex + 1], c.decoder.codingPath + [IndexKey(c.currentIndex + 1)]) == Success(p.1)
    requires DecodePairsFrom(c.(currentIndex := c.currentIndex + 2), decK, decV, acc[p.0 := p.1])
          == Success(Assign(acc[p.0 := p.1], rest))
    ensures DecodePairsFrom(c, decK, decV, acc) == Success(Assign(acc, [p] + rest))
  {
    DecodePairsFromStep(c, decK, decV, acc, p.0, p.1);
    assert ([p] + rest)[0] == p && ([p] + rest)[1..] == rest;
  }

  /** Reading pairs from position 2j of an encoding of `ps` gives the
      dictionary so far updated with the remaining pairs. */
  lemma {:induction false} DecodePairsFromEncoded<K(!new), V(!new)>(
    c: UnkeyedDecoder, ps: seq<(K, V)>, j: int, encK: EncodeFn<K>, decK: DecodeFn<K>,
    encV: EncodeFn<V>, decV: DecodeFn<V>, acc: map<K, V>)
    requires RoundTrips(encK, decK) && RoundTrips(encV, decV)
    requires Valid(c) && |c.elems| == 2 * |ps| && 0 <= j <= |ps| && c.currentIndex == 2 * j
    requires forall i :: 0 <= i < |ps| ==> c.elems[2 * i] == encK(ps[i].0) && c.elems[2 * i + 1] == encV(ps[i].1)
    ensures DecodePairsFrom(c, decK, decV, acc) == Success(Assign(acc, ps[j..]))
    decreases |ps| - j
  {
    if j < |ps| {
      assert ps[j..] == [ps[j]] + ps[j + 1..];
      RoundTripAt(encK, decK, ps[j].0, Unkeyed.CurrentPath(c));
      RoundTripAt(encV, decV, ps[j].1, c.decoder.codingPath + [IndexKey(2 * j + 1)]);
      var next := c.(currentIndex := 2 * j + 2);
      DecodePairsFromEncoded(next, ps, j + 1, encK, decK, encV, decV, acc[ps[j].0 := ps[j].1]);
      DecodePairsFromCons(c, decK, decV, acc, ps[j], ps[j + 1..]);
    } else {
      assert ps[j..] == [];
      assert Assign(acc, ps[j..]) == acc;
    }
  }

  lemma DoubleIsEven(n: nat)
    ensures (2 * n) % 2 == 0
  {
  }

  /** A dictionary in the alternating layout round trips when its key and
      value types do; with repeated keys the later pair wins on both sides. */
  lemma PairsRoundTrip<K(!new), V(!new)>(
    ps: seq<(K, V)>, encK: EncodeFn<K>, decK: DecodeFn<K>, encV: EncodeFn<V>, decV: DecodeFn<V>, path: CodingPath)
    requires RoundTrips(encK, decK) && RoundTrips(encV, decV)
    ensures PairsInit(decK, decV, EncodePairs(ps, encK, encV), path) == Success(MapOf(ps))
  {
    var v := EncodePairs(ps, encK, encV);
    var c := UnkeyedDecoder(DecoderAt(v, path), v.elems, Some(|v.elems|), 0);
    UnkeyedContainerOnArray(v, path);
    DecodePairsFromEncoded(c, ps, 0, encK, decK, encV, decV, map[]);
    assert ps[0..] == ps;
    DoubleIsEven(|ps|);
    calc {
      PairsInit(decK, decV, v, path);
      DecodePairsFrom(c, decK, decV, map[]);
      Success(Assign(map[], ps));
    }
  }

  // ---- The adapter's shortcut for `[String: V]`

  /** The member loop of `unbox(_:as: DictionaryWithoutKeyConversion)`:
      every value is decoded at the dictionary's own path; a success is
      stored (a repeated name overwrites), a failure is remembered (a later
      one replacing it) and the loop goes on. */
  function FastPathEntries<V>(entries: seq<(string, Json)>, decV: DecodeFn<V>, path: CodingPath,
                              acc: map<string, V>, err: Option<DecodingError>): (r: Result<map<string, V>>)
    ensures err.Some? ==> r.Failure?
    decreases |entries|
  {
    if |entries| == 0 then
      match err
      case None => Success(acc)
      case Some(e) => Failure(e)
    else
      match decV(entries[0].1, path)
      case Success(x) => FastPathEntries(entries[1..], decV, path, acc[entries[0].0 := x], err)
      case Failure(e) => FastPathEntries(entries[1..], decV, path, acc, Some(e))
  }

  /** `unbox(_:as: DictionaryWithoutKeyConversion)`, which the adapter uses
      in place of `Dictionary.init(from:)` when the key type is `String`. A
      node that is not an object is reported by the parser as the wrong
      type, at the dictionary's path. */
  function StringDictionaryFastPath<V>(decV: DecodeFn<V>, v: Json, path: CodingPath): (r: Result<map<string, V>>)
    ensures !v.Obj? ==> r == Failure(TypeMismatch(path))
  {
    if !v.Obj? then
      assert path + KeyPath(None) == path;
      Failure(SwiftErrorFromError(ErrorInfo(WrongType, None), path, None))
    else FastPathEntries(v.entries, decV, path, map[], None)
  }

  /** When every value decodes, the loop builds the dictionary of the
      decoded pairs. */
  lemma {:induction false} FastPathEntriesSucceeds<V>(
    entries: seq<(string, Json)>, decV: DecodeFn<V>, path: CodingPath, acc: map<string, V>, ps: seq<(string, V)>)
    requires |ps| == |entries|
    requires forall j :: 0 <= j < |entries| ==> ps[j].0 == entries[j].0 && decV(entries[j].1, path) == Success(ps[j].1)
    ensures FastPathEntries(entries, decV, path, acc, None) == Success(Assign(acc, ps))
    decreases |entries|
  {
    if |entries| > 0 {
      assert decV(entries[0].1, path) == Success(ps[0].1);
      forall j | 0 <= j < |entries[1..]|
        ensures ps[1..][j].0 == entries[1..][j].0 && decV(entries[1..][j].1, path) == Success(ps[1..][j].1)
      {
        assert ps[1..][j] == ps[j + 1] && entries[1..][j] == entries[j + 1];
      }
      FastPathEntriesSucceeds(entries[1..], decV, path, acc[entries[0].0 := ps[0].1], ps[1..]);
    }
  }

  /** When any value fails, the loop fails. */
  lemma {:induction false} FastPathEntriesFails<V>(
    entries: seq<(string, Json)>, decV: DecodeFn<V>, path: CodingPath, acc: map<string, V>,
    err: Option<DecodingError>, j: int)
    requires 0 <= j < |entries| && decV(entries[j].1, path).Failure?
    ensures FastPathEntries(entries, decV, path, acc, err).Failure?
    decreases |entries|
  {
    if j > 0 {
      assert entries[1..][j - 1] == entries[j];
      match decV(entries[0].1, path)
      case Success(x) => FastPathEntriesFails(entries[1..], decV, path, acc[entries[0].0 := x], err, j - 1);
      case Failure(e) => FastPathEntriesFails(entries[1..], decV, path, acc, Some(e), j - 1);
    }
  }

  /** Once an error is remembered, a tail whose values all decode leaves it
      in place: the loop throws that error. */
  lemma {:induction false} FastPathEntriesKeepsError<V>(
    entries: seq<(string, Json)>, decV: DecodeFn<V>, path: CodingPath, acc: map<string, V>, err: Option<DecodingError>)
    requires err.Some?
    requires forall i :: 0 <= i < |entries| ==> decV(entries[i].1, path).Success?
    ensures FastPathEntries(entries, decV, path, acc, err) == Failure(err.value)
    decreases |entries|
  {
    if |entries| > 0 {
      assert decV(entries[0].1, path).Success?;
      forall i | 0 <= i < |entries[1..]|
        ensures decV(entries[1..][i].1, path).Success?
      {
        assert entries[1..][i] == entries[i + 1];
      }
      FastPathEntriesKeepsError(entries[1..], decV, path, acc[entries[0].0 := decV(entries[0].1, path).value], err);
    }
  }

  /** The shortcut throws the error of the LAST value that fails: each
      failure replaces the one remembered before it. */
  lemma {:induction false} FastPathEntriesLastFailure<V>(
    entries: seq<(string, Json)>, decV: DecodeFn<V>, path: CodingPath, acc: map<string, V>,
    err: Option<DecodingError>, j: int)
    requires 0 <= j < |entries| && decV(entries[j].1, path).Failure?
    requires forall i :: j < i < |entries| ==> decV(entries[i].1, path).Success?
    ensures FastPathEntries(entries, decV, path, acc, err) == Failure(decV(entries[j].1, path).error)
    decreases |entries|
  {
    if j > 0 {
      assert entries[1..][j - 1] == entries[j];
      forall i | j - 1 < i < |entries[1..]|
        ensures decV(entries[1..][i].1, path).Success?
      {
        assert entries[1..][i] == entries[i + 1];
      }
      match decV(entries[0].1, path)
      case Success(x) => FastPathEntriesLastFailure(entries[1..], decV, path, acc[entries[0].0 := x], err, j - 1);
      case Failure(e) => FastPathEntriesLastFailure(entries[1..], decV, path, acc, Some(e), j - 1);
    } else {
      var e := decV(entries[0].1, path).error;
      forall i | 0 <= i < |entries[1..]|
        ensures decV(entries[1..][i].1, path).Success?
      {
        assert entries[1..][i] == entries[i + 1];
      }
      FastPathEntriesKeepsError(entries[1..], decV, path, acc, Some(e));
    }
  }

  /** The generic loop fails as soon as any value fails. */
  lemma {:induction false} DecodeKeyedEntriesFails<K, V>(
    c: KeyedDecoder, keys: seq<CodingKey>, keyOf: KeyConv<K>, decV: DecodeFn<V>, acc: map<K, V>, j: int)
    requires 0 <= j < |keys| && Keyed.Decode(c, keys[j], decV).Failure?
    ensures DecodeKeyedEntries(c, keys, keyOf, decV, acc).Failure?
    decreases |keys|
  {
    if j > 0 && keyOf(c, keys[0]).Success? && Keyed.Decode(c, keys[0], decV).Success? {
      assert keys[1..][j - 1] == keys[j];
      var k := keyOf(c, keys[0]).value;
      var v := Keyed.Decode(c, keys[0], decV).value;
      DecodeKeyedEntriesStep(c, keys, keyOf, decV, acc);
      DecodeKeyedEntriesFails(c, keys[1..], keyOf, decV, acc[k := v], j - 1);
    } else {
      DecodeKeyedEntriesHeadFails(c, keys, keyOf, decV, acc);
    }
  }

  /** A first key that does not convert or decode fails the loop. */
  lemma DecodeKeyedEntriesHeadFails<K, V>(c: KeyedDecoder, keys: seq<CodingKey>, keyOf: KeyConv<K>, decV: DecodeFn<V>, acc: map<K, V>)
    requires 0 < |keys|
    requires keyOf(c, keys[0]).Failure? || Keyed.Decode(c, keys[0], decV).Failure?
    ensures DecodeKeyedEntries(c, keys, keyOf, decV, acc).Failure?
  {
  }

  lemma PathBlindAt<V>(decV: DecodeFn<V>, x: Json, p: CodingPath, q: CodingPath)
    requires PathBlind(decV) && decV(x, p).Success?
    ensures decV(x, q) == decV(x, p)
  {
  }

  /** The shortcut and `Dictionary.init(from:)` both fail when a value
      fails. */
  lemma FastPathAgreesOnFailure<V>(decV: DecodeFn<V>, v: Json, path: CodingPath, j: int)
    requires PathBlind(decV)
    requires v.Obj? && DistinctKeys(v.entries)
    requires 0 <= j < |v.entries| && decV(v.entries[j].1, path).Failure?
    ensures StringDictionaryFastPath(decV, v, path).Failure?
    ensures KeyedDictInit(StringKeyOf, decV, v, path).Failure?
  {
    var es := v.entries;
    var c := KeyedDecoder(DecoderAt(v, path), es);
    var keys := Keyed.AllKeys(c, DictionaryKeyFromName);
    AllDictionaryKeys(c);
    FastPathEntriesFails(es, decV, path, map[], None, j);
    DecodeDistinctMember(c, j, decV);
    if decV(es[j].1, path + [keys[j]]).Success? {
      PathBlindAt(decV, es[j].1, path + [keys[j]], path);
    }
    DecodeKeyedEntriesFails(c, keys, StringKeyOf, decV, map[], j);
  }

  /** Both succeed, with the same dictionary, when every value decodes. */
  lemma FastPathAgreesOnSuccess<V>(decV: DecodeFn<V>, v: Json, path: CodingPath)
    requires PathBlind(decV)
    requires v.Obj? && DistinctKeys(v.entries)
    requires forall j :: 0 <= j < |v.entries| ==> decV(v.entries[j].1, path).Success?
    ensures StringDictionaryFastPath(decV, v, path).Success?
    ensures StringDictionaryFastPath(decV, v, path) == KeyedDictInit(StringKeyOf, decV, v, path)
  {
    var es := v.entries;
    var c := KeyedDecoder(DecoderAt(v, path), es);
    var keys := Keyed.AllKeys(c, DictionaryKeyFromName);
    AllDictionaryKeys(c);
    var ps := seq(|es|, j requires 0 <= j < |es| => (es[j].0, decV(es[j].1, path).value));
    FastPathEntriesSucceeds(es, decV, path, map[], ps);
    forall j | 0 <= j < |keys|
      ensures StringKeyOf(c, keys[j]) == Success(ps[j].0)
      ensures Keyed.Decode(c, keys[j], decV) == Success(ps[j].1)
    {
      DecodeDistinctMember(c, j, decV);
      PathBlindAt(decV, es[j].1, path, path + [keys[j]]);
    }
    DecodeKeyedEntriesSucceeds(c, keys, StringKeyOf, decV, map[], ps);
  }

  /** On an object with distinct names, and for a value type whose decoding
      does not depend on the path, the shortcut and `Dictionary.init(from:)`
      succeed on the same inputs and produce the same dictionary. */
  lemma FastPathAgrees<V>(decV: DecodeFn<V>, v: Json, path: CodingPath)
    requires PathBlind(decV)
    requires v.Obj? && DistinctKeys(v.entries)
    ensures StringDictionaryFastPath(decV, v, path).Success? <==> KeyedDictInit(StringKeyOf, decV, v, path).Success?
    ensures StringDictionaryFastPath(decV, v, path).Success? ==>
              StringDictionaryFastPath(decV, v, path) == KeyedDictInit(StringKeyOf, decV, v, path)
  {
    if j :| 0 <= j < |v.entries| && decV(v.entries[j].1, path).Failure? {
      FastPathAgreesOnFailure(decV, v, path, j);
    } else {
      FastPathAgreesOnSuccess(decV, v, path);
    }
  }

  lemma AssignTwice<K, V>(k: K, x: V, y: V)
    ensures Assign(map[], [(k, x), (k, y)]) == map[k := y]
  {
    var ps := [(k, x), (k, y)];
    assert ps[1..] == [(k, y)] && ps[1..][1..] == [];
    calc {
      Assign(map[], ps);
      Assign(map[][k := x], ps[1..]);
      Assign(map[][k := x][k := y], ps[1..][1..]);
      map[][k := x][k := y];
      map[k := y];
    }
  }

  /** With a repeated name the shortcut keeps the last value. */
  lemma FastPathKeepsLast(path: CodingPath)
    ensures StringDictionaryFastPath(PrimitiveDecoder(IntKind(Word)), Obj([("a", Int(1)), ("a", Int(2))]), path)
         == Success(map["a" := IntValue(2)])
  {
    var decV := PrimitiveDecoder(IntKind(Word));
    var v := Obj([("a", Int(1)), ("a", Int(2))]);
    PrimitiveRoundTrip(IntKind(Word), IntValue(1), path);
    PrimitiveRoundTrip(IntKind(Word), IntValue(2), path);
    FastPathEntriesSucceeds(v.entries, decV, path, map[], [("a", IntValue(1)), ("a", IntValue(2))]);
    AssignTwice("a", IntValue(1), IntValue(2));
  }

  /** On `{"a": 1, "a": 2}` both keys are "a". */
  lemma RepeatedNameKeys(path: CodingPath)
    ensures var v := Obj([("a", Int(1)), ("a", Int(2))]);
            Keyed.AllKeys(KeyedDecoder(DecoderAt(v, path), v.entries), DictionaryKeyFromName)
              == [DictionaryKeyFromString("a"), DictionaryKeyFromString("a")]
  {
    var v := Obj([("a", Int(1)), ("a", Int(2))]);
    AllDictionaryKeys(KeyedDecoder(DecoderAt(v, path), v.entries));
  }

  /** Reading "a" from `{"a": 1, "a": 2}` finds the first member. */
  lemma RepeatedNameReadsFirst(path: CodingPath)
    ensures var v := Obj([("a", Int(1)), ("a", Int(2))]);
            Keyed.Decode(KeyedDecoder(DecoderAt(v, path), v.entries), DictionaryKeyFromString("a"),
                         PrimitiveDecoder(IntKind(Word)))
              == Success(IntValue(1))
  {
    PrimitiveRoundTrip(IntKind(Word), IntValue(1), path + [DictionaryKeyFromString("a")]);
  }

  /** Reading "a" twice from `{"a": 1, "a": 2}` stores the first value. */
  lemma RepeatedNameEntries(path: CodingPath)
    ensures var v := Obj([("a", Int(1)), ("a", Int(2))]);
            var ka := DictionaryKeyFromString("a");
            DecodeKeyedEntries(KeyedDecoder(DecoderAt(v, path), v.entries), [ka, ka], StringKeyOf,
                               PrimitiveDecoder(IntKind(Word)), map[])
              == Success(map["a" := IntValue(1)])
  {
    var v := Obj([("a", Int(1)), ("a", Int(2))]);
    var c := KeyedDecoder(DecoderAt(v, path), v.entries);
    var ka := DictionaryKeyFromString("a");
    var decV := PrimitiveDecoder(IntKind(Word));
    RepeatedNameReadsFirst(path);
    assert [ka, ka][1..] == [ka] && [ka][1..] == [];
    calc {
      DecodeKeyedEntries(c, [ka, ka], StringKeyOf, decV, map[]);
      { DecodeKeyedEntriesStep(c, [ka, ka], StringKeyOf, decV, map[]); }
      DecodeKeyedEntries(c, [ka], StringKeyOf, decV, map["a" := IntValue(1)]);
      { DecodeKeyedEntriesStep(c, [ka], StringKeyOf, decV, map["a" := IntValue(1)]); }
      DecodeKeyedEntries(c, [], StringKeyOf, decV, map["a" := IntValue(1)]["a" := IntValue(1)]);
      Success(map["a" := IntValue(1)]["a" := IntValue(1)]);
      { assert map["a" := IntValue(1)]["a" := IntValue(1)] == map["a" := IntValue(1)]; }
      Success(map["a" := IntValue(1)]);
    }
  }

  /** With a repeated name `Dictionary.init(from:)` reads the first member
      for every occurrence of the name. */
  lemma KeyedDictInitKeepsFirst(path: CodingPath)
    ensures KeyedDictInit(StringKeyOf, PrimitiveDecoder(IntKind(Word)), Obj([("a", Int(1)), ("a", Int(2))]), path)
         == Success(map["a" := IntValue(1)])
  {
    var decV := PrimitiveDecoder(IntKind(Word));
    var v := Obj([("a", Int(1)), ("a", Int(2))]);
    var c := KeyedDecoder(DecoderAt(v, path), v.entries);
    var ka := DictionaryKeyFromString("a");
    RepeatedNameKeys(path);
    RepeatedNameEntries(path);
  }

  /** With a repeated name the two disagree: the shortcut keeps the last
      value, `Dictionary.init(from:)` reads the first for every occurrence. */
  lemma FastPathLastValueWins(path: CodingPath)
    ensures StringDictionaryFastPath(PrimitiveDecoder(IntKind(Word)), Obj([("a", Int(1)), ("a", Int(2))]), path)
         != KeyedDictInit(StringKeyOf, PrimitiveDecoder(IntKind(Word)), Obj([("a", Int(1)), ("a", Int(2))]), path)
  {
    FastPathKeepsLast(path);
    KeyedDictInitKeepsFirst(path);
    assert map["a" := IntValue(2)]["a"] != map["a" := IntValue(1)]["a"];
  }

  /** A value that fails to decode is reported by the shortcut at the
      dictionary's path, without the member's name that
      `Dictionary.init(from:)` adds. */
  lemma FastPathErrorOmitsKey(path: CodingPath)
    ensures StringDictionaryFastPath(PrimitiveDecoder(IntKind(Word)), Obj([("a", Str("x"))]), path)
         == Failure(TypeMismatch(path))
    ensures KeyedDictInit(StringKeyOf, PrimitiveDecoder(IntKind(Word)), Obj([("a", Str("x"))]), path)
         == Failure(TypeMismatch(path + [DictionaryKeyFromString("a")]))
  {
    FastPathReportsAtPath(path);
    KeyedDictReportsAtKey(path);
  }

  lemma FastPathReportsAtPath(path: CodingPath)
    ensures StringDictionaryFastPath(PrimitiveDecoder(IntKind(Word)), Obj([("a", Str("x"))]), path)
         == Failure(TypeMismatch(path))
  {
  }

  lemma KeyedDictReportsAtKey(path: CodingPath)
    ensures KeyedDictInit(StringKeyOf, PrimitiveDecoder(IntKind(Word)), Obj([("a", Str("x"))]), path)
         == Failure(TypeMismatch(path + [DictionaryKeyFromString("a")]))
  {
    var decV := PrimitiveDecoder(IntKind(Word));
    var v := Obj([("a", Str("x"))]);
    var c := KeyedDecoder(DecoderAt(v, path), v.entries);
    var k := DictionaryKeyFromString("a");
    AllDictionaryKeys(c);
    assert Keyed.AllKeys(c, DictionaryKeyFromName) == [k];
    assert Keyed.Contains(c, k) && Lookup(c.entries, "a") == Some(Str("x"));
    IntRejectsString("x", path + [k]);
    DecodeKeyedEntriesFirstFailure(c, [k], StringKeyOf, decV, map[], 0);
  }

  /** A string where an `Int` is expected is a type mismatch at the path. */
  lemma IntRejectsString(x: string, path: CodingPath)
    ensures PrimitiveDecoder(IntKind(Word))(Str(x), path) == Failure(TypeMismatch(path))
  {
  }
}
