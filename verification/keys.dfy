/** Coding keys. A key is observed only through its `stringValue` and its
    optional `intValue`; the several key types of the source differ only in
    how they build those two fields, so each is modelled as a constructor
    function producing a `CodingKey`. */
module Keys {
  import opened Optionals
  import opened Decimal

  datatype CodingKey = CodingKey(stringValue: string, intValue: Option<int>)

  /** A coding path: the keys from the document root to the current value. */
  type CodingPath = seq<CodingKey>

  // ---- `_DictionaryCodingKey` (wrapper for String and Int dictionary keys)

  /** `_DictionaryCodingKey(stringValue:)`: never fails; the integer view is
      whatever `Int(s)` makes of the text. */
  function DictionaryKeyFromString(s: string): (k: CodingKey)
    ensures k.stringValue == s
    ensures k.intValue == ParseInt(s)
    ensures k.intValue.Some? ==> InIntRange(k.intValue.value)
    ensures forall n :: InIntRange(n) && s == DecimalString(n) ==> k.intValue == Some(n)
  {
    assert forall n :: InIntRange(n) && s == DecimalString(n) ==> ParseInt(s) == Some(n) by {
      forall n | InIntRange(n) && s == DecimalString(n) {
        ParseDecimalString(n);
      }
    }
    CodingKey(s, ParseInt(s))
  }

  /** `_DictionaryCodingKey(intValue:)`: the text is the decimal rendering. */
  function DictionaryKeyFromInt(n: int): (k: CodingKey)
    ensures k.intValue == Some(n)
    ensures k.stringValue == DecimalString(n)
    ensures InIntRange(n) ==> ParseInt(k.stringValue) == Some(n)
  {
    ParseDecimalString(n);
    CodingKey(DecimalString(n), Some(n))
  }

  /** `_DictionaryCodingKey(codingKey:)` copies both views. */
  function DictionaryKeyFromCodingKey(key: CodingKey): (k: CodingKey)
    ensures k.stringValue == key.stringValue && k.intValue == key.intValue
  {
    CodingKey(key.stringValue, key.intValue)
  }

  /** The two `_DictionaryCodingKey` initialisers agree on every `Int`:
      rebuilding a key from the text of an integer key gives the same key. */
  lemma DictionaryKeyConstructorsAgree(n: int)
    requires InIntRange(n)
    ensures DictionaryKeyFromString(DictionaryKeyFromInt(n).stringValue) == DictionaryKeyFromInt(n)
  {
    ParseDecimalString(n);
  }

  // ---- `_GenericIndexKey` (used by `dataCorruptedError(in: unkeyed)`)

  /** `_GenericIndexKey(intValue:)`: text "Index n", integer n. */
  function GenericIndexKey(n: int): (k: CodingKey)
    ensures k.intValue == Some(n)
    ensures |k.stringValue| > 6 && k.stringValue[..6] == "Index "
    ensures k.stringValue[6..] == DecimalString(n)
  {
    CodingKey("Index " + DecimalString(n), Some(n))
  }

  /** `_GenericIndexKey(stringValue:)` always fails. */
  function GenericIndexKeyFromString(s: string): (k: Option<CodingKey>)
    ensures k.None?
  {
    None
  }

  // ---- `IndexKey` (the adapter's key for array positions)

  /** `IndexKey(index:)`: text is the bare decimal index, integer the index. */
  function IndexKey(n: int): (k: CodingKey)
    ensures k.intValue == Some(n)
    ensures k.stringValue == DecimalString(n)
  {
    CodingKey(DecimalString(n), Some(n))
  }

  // ---- `JSONKey` (the adapter's general-purpose key)

  function JSONKeyFromString(s: string): (k: CodingKey)
    ensures k.stringValue == s && k.intValue.None?
  {
    CodingKey(s, None)
  }

  /** `JSONKey(intValue:)` builds exactly the key `_DictionaryCodingKey`
      builds for the same integer, so keys written by either read back the
      same way. */
  function JSONKeyFromInt(n: int): (k: CodingKey)
    ensures k == DictionaryKeyFromInt(n)
  {
    CodingKey(DecimalString(n), Some(n))
  }

  function JSONKeyFromIndex(n: int): (k: CodingKey)
    ensures k == GenericIndexKey(n)
  {
    CodingKey("Index " + DecimalString(n), Some(n))
  }

  /** `JSONKey.super`, the key of `superDecoder()`. */
  const SuperKey: CodingKey := JSONKeyFromString("super")

  /** The two index keys agree on the integer view and never on the text:
      an error path built by the adapter (`IndexKey`) and one built by the
      generic `dataCorruptedError` (`_GenericIndexKey`) name the same
      position differently. */
  lemma IndexKeysDisagreeOnText(n: int)
    ensures IndexKey(n).intValue == GenericIndexKey(n).intValue
    ensures IndexKey(n).stringValue != GenericIndexKey(n).stringValue
  {
    var s := IndexKey(n).stringValue;
    assert s[0] == '-' || IsDigit(s[0]);
    assert GenericIndexKey(n).stringValue[0] == 'I';
  }
}
