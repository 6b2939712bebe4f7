/** A type with one stored property, coded through a keyed container the
    way a synthesised `Codable` conformance does it, and what the adapter
    reports when decoding such types nested inside one another. */
module Scenarios {
  import opened Optionals
  import opened Keys
  import opened Tree
  import opened Errors
  import opened Coding
  import opened JsonDecoder
  import Keyed
  import Encoding
  import Conformances

  /** The coding key of a property of a user type. */
  function PropertyKey(name: string): CodingKey {
    CodingKey(name, None)
  }

  /** `encode(to:)` of a type whose only property is stored under `name`. */
  function EncodeField<T>(name: string, enc: EncodeFn<T>): EncodeFn<T> {
    (x: T) => Obj(Encoding.KeyedEncode(Encoding.KeyedEncoder([]), x, PropertyKey(name), enc).entries)
  }

  /** `init(from:)` of that type: `container(keyedBy:)` then
      `decode(_:forKey:)`. */
  function FieldInit<T>(name: string, dec: DecodeFn<T>, v: Json, path: CodingPath): (r: Result<T>)
    ensures !v.Obj? ==> r == Failure(TypeMismatch([]))
    ensures v.Obj? && name !in KeysOf(v.entries) ==> r == Failure(KeyNotFound(JSONKeyFromString(name), path))
    ensures v.Obj? && name in KeysOf(v.entries) ==> r == dec(Lookup(v.entries, name).value, path + [PropertyKey(name)])
  {
    var c :- KeyedContainer(DecoderAt(v, path));
    Keyed.Decode(c, PropertyKey(name), dec)
  }

  function DecodeField<T>(name: string, dec: DecodeFn<T>): DecodeFn<T> {
    (v: Json, path: CodingPath) => FieldInit(name, dec, v, path)
  }

  /** Such a type round trips whenever its property's type does. */
  lemma FieldRoundTrips<T(!new)>(name: string, enc: EncodeFn<T>, dec: DecodeFn<T>)
    requires RoundTrips(enc, dec)
    ensures RoundTrips(EncodeField(name, enc), DecodeField(name, dec))
  {
    forall x: T, path: CodingPath
      ensures DecodeField(name, dec)(EncodeField(name, enc)(x), path) == Success(x)
    {
      var v := EncodeField(name, enc)(x);
      assert Lookup(v.entries, name) == Some(enc(x));
      RoundTripAt(enc, dec, x, path + [PropertyKey(name)]);
    }
  }

  /** `Outer { a: Inner }`, `Inner { b: [Int] }`. */
  function OuterDecoder(): DecodeFn<seq<Prim>> {
    DecodeField("a", DecodeField("b", Conformances.DecodeArray(PrimitiveDecoder(IntKind(Word)))))
  }

  /** The innermost array `[1, "x"]`, decoded as `[Int]` at `path`, fails
      at its second element, whatever the text of the string. */
  lemma InnerArrayMismatch(path: CodingPath, x: string)
    ensures Conformances.ArrayInit(PrimitiveDecoder(IntKind(Word)), Arr([Int(1), Str(x)]), path)
         == Failure(TypeMismatch(path + [IndexKey(1)]))
  {
    var decE := PrimitiveDecoder(IntKind(Word));
    var arr := Arr([Int(1), Str(x)]);
    var c := UnkeyedDecoder(DecoderAt(arr, path), arr.elems, Some(2), 0);
    UnkeyedContainerOnArray(arr, path);
    assert Conformances.ElementResult(c, decE, 0) == Success(IntValue(1));
    assert Conformances.ElementResult(c, decE, 1) == Failure(TypeMismatch(path + [IndexKey(1)]));
    Conformances.DecodeElementsFirstFailure(c, decE, 1);
  }

  /** A wrong element deep in the document is reported with the full path to
      it: both property names, then the element's index. */
  lemma NestedTypeMismatchPath(x: string)
    ensures DecodeDocument(Obj([("a", Obj([("b", Arr([Int(1), Str(x)]))]))]), OuterDecoder()).result
         == Failure(TypeMismatch([PropertyKey("a"), PropertyKey("b"), IndexKey(1)]))
  {
    var inner := Obj([("b", Arr([Int(1), Str(x)]))]);
    var pa: CodingPath := [PropertyKey("a")];
    calc {
      DecodeDocument(Obj([("a", inner)]), OuterDecoder()).result;
      { OuterReadsInner(inner); }
      FieldInit("b", Conformances.DecodeArray(PrimitiveDecoder(IntKind(Word))), inner, pa);
      { InnerFieldMismatch(pa, x); }
      Failure(TypeMismatch(pa + [PropertyKey("b"), IndexKey(1)]));
      { assert pa + [PropertyKey("b"), IndexKey(1)] == [PropertyKey("a"), PropertyKey("b"), IndexKey(1)]; }
      Failure(TypeMismatch([PropertyKey("a"), PropertyKey("b"), IndexKey(1)]));
    }
  }

  /** Whatever `Outer`'s property holds is decoded as `Inner` under the key
      "a". */
  lemma OuterReadsInner(inner: Json)
    ensures DecodeDocument(Obj([("a", inner)]), OuterDecoder()).result
         == FieldInit("b", Conformances.DecodeArray(PrimitiveDecoder(IntKind(Word))), inner, [PropertyKey("a")])
  {
    var doc := Obj([("a", inner)]);
    assert "a" in KeysOf(doc.entries) && Lookup(doc.entries, "a") == Some(inner);
    assert [] + [PropertyKey("a")] == [PropertyKey("a")];
  }

  /** The inner object `{"b": [1, "x"]}`, decoded as `Inner` at `outer`,
      fails at the second element of "b". */
  lemma InnerFieldMismatch(outer: CodingPath, x: string)
    ensures FieldInit("b", Conformances.DecodeArray(PrimitiveDecoder(IntKind(Word))),
                      Obj([("b", Arr([Int(1), Str(x)]))]), outer)
         == Failure(TypeMismatch(outer + [PropertyKey("b"), IndexKey(1)]))
  {
    var path := outer + [PropertyKey("b")];
    var decA := Conformances.DecodeArray(PrimitiveDecoder(IntKind(Word)));
    var arr := Arr([Int(1), Str(x)]);
    var v := Obj([("b", arr)]);
    assert "b" in KeysOf(v.entries) && Lookup(v.entries, "b") == Some(arr);
    InnerArrayMismatch(path, x);
    assert path + [IndexKey(1)] == outer + [PropertyKey("b"), IndexKey(1)];
    calc {
      FieldInit("b", decA, v, outer);
      decA(arr, path);
      Failure(TypeMismatch(path + [IndexKey(1)]));
    }
  }

  /** A nested value that is not an object, where a keyed container is
      asked for, is reported at the empty path: the error names neither the
      property that holds the value nor anything above it. */
  lemma NestedKeyedMismatchPath()
    ensures DecodeDocument(Obj([("a", Int(1))]), OuterDecoder()).result == Failure(TypeMismatch([]))
  {
  }

  /** A missing property is reported at the path of the object that lacks
      it, naming the property as the missing key. */
  lemma NestedMissingKeyPath()
    ensures DecodeDocument(Obj([("a", Obj([]))]), OuterDecoder()).result
         == Failure(KeyNotFound(JSONKeyFromString("b"), [PropertyKey("a")]))
  {
    assert [] + [PropertyKey("a")] == [PropertyKey("a")];
  }
}
