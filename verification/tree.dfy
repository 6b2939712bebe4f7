/** The in-memory document the adapter decodes from, standing in for the
    parsed JSON document the foreign parser builds, and the primitive values
    the fifteen per-type overloads of the containers read and write. */
module Tree {
  import opened Optionals
  import opened Decimal

  /** A parsed document. Objects keep their members in document order. */
  datatype Json =
    | Null
    | Bool(b: bool)
    | Int(i: int)
    | Str(s: string)
    | Arr(elems: seq<Json>)
    | Obj(entries: seq<(string, Json)>)

  /** Member lookup by name: the first member with that name. */
  function Lookup(entries: seq<(string, Json)>, k: string): (r: Option<Json>)
    ensures r.Some? <==> k in KeysOf(entries)
    ensures r.Some? ==> exists i :: 0 <= i < |entries| && entries[i] == (k, r.value)
  {
    if |entries| == 0 then None
    else if entries[0].0 == k then Some(entries[0].1)
    else
      var r := Lookup(entries[1..], k);
      assert r.Some? ==> exists i :: 1 <= i < |entries| && entries[i] == (k, r.value) by {
        if r.Some? {
          var i :| 0 <= i < |entries[1..]| && entries[1..][i] == (k, r.value);
          assert entries[i + 1] == (k, r.value);
        }
      }
      r
  }

  /** Member names in document order (duplicates included). */
  function KeysOf(entries: seq<(string, Json)>): (ks: seq<string>)
    ensures |ks| == |entries|
    ensures forall i :: 0 <= i < |entries| ==> ks[i] == entries[i].0
  {
    if |entries| == 0 then [] else [entries[0].0] + KeysOf(entries[1..])
  }

  predicate DistinctKeys(entries: seq<(string, Json)>) {
    forall i, j :: 0 <= i < j < |entries| ==> entries[i].0 != entries[j].0
  }

  /** With distinct names, lookup finds exactly the member at each position. */
  lemma {:induction false} LookupDistinct(entries: seq<(string, Json)>, i: int)
    requires DistinctKeys(entries)
    requires 0 <= i < |entries|
    ensures Lookup(entries, entries[i].0) == Some(entries[i].1)
  {
    if i > 0 {
      assert DistinctKeys(entries[1..]);
      LookupDistinct(entries[1..], i - 1);
    }
  }

  // ---- Primitive values

  /** The integer widths of the per-type overloads (`Int` and `UInt` are the
      64-bit platform words). */
  datatype IntWidth = I8 | I16 | I32 | I64 | U8 | U16 | U32 | U64 | Word | UWord

  function Lo(w: IntWidth): int {
    match w
    case I8 => -0x80
    case I16 => -0x8000
    case I32 => -0x8000_0000
    case I64 => IntMin
    case Word => IntMin
    case U8 => 0
    case U16 => 0
    case U32 => 0
    case U64 => 0
    case UWord => 0
  }

  function Hi(w: IntWidth): int {
    match w
    case I8 => 0x7F
    case I16 => 0x7FFF
    case I32 => 0x7FFF_FFFF
    case I64 => IntMax
    case Word => IntMax
    case U8 => 0xFF
    case U16 => 0xFFFF
    case U32 => 0xFFFF_FFFF
    case U64 => 0xFFFF_FFFF_FFFF_FFFF
    case UWord => 0xFFFF_FFFF_FFFF_FFFF
  }

  /** Which primitive overload is being called. */
  datatype PrimKind = BoolKind | StringKind | IntKind(width: IntWidth)

  /** A primitive value. */
  datatype Prim = BoolValue(b: bool) | StringValue(s: string) | IntValue(i: int)

  /** `p` is a value of the Swift type `kind` names. */
  predicate Fits(kind: PrimKind, p: Prim) {
    match kind
    case BoolKind => p.BoolValue?
    case StringKind => p.StringValue?
    case IntKind(w) => p.IntValue? && Lo(w) <= p.i <= Hi(w)
  }

  /** The document node a primitive is written as. */
  function PrimToJson(p: Prim): (j: Json)
    ensures j.Bool? || j.Str? || j.Int?
  {
    match p
    case BoolValue(b) => Bool(b)
    case StringValue(s) => Str(s)
    case IntValue(i) => Int(i)
  }
}
