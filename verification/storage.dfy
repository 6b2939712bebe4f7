/** `JSONDecodingStorage`: the decoder's stack of containers. The top is the
    node the value currently being decoded reads from. */
module Storage {
  import opened Tree

  datatype DecodingStorage = DecodingStorage(containers: seq<Json>)

  const Empty: DecodingStorage := DecodingStorage([])

  predicate IsEmpty(s: DecodingStorage) {
    |s.containers| == 0
  }

  /** `topContainer`; the source traps on an empty stack. The top is the
      one node popping removes. */
  function TopContainer(s: DecodingStorage): (v: Json)
    requires !IsEmpty(s)
    ensures v in s.containers
    ensures |s.containers| == 1 ==> s == DecodingStorage([v])
  {
    s.containers[|s.containers| - 1]
  }

  /** `push(container:)`: the pushed node becomes the top, and popping
      restores the stack exactly. */
  function Push(s: DecodingStorage, v: Json): (r: DecodingStorage)
    ensures !IsEmpty(r)
    ensures |r.containers| == |s.containers| + 1
    ensures TopContainer(r) == v
    ensures PopContainer(r) == s
  {
    DecodingStorage(s.containers + [v])
  }

  /** `popContainer()`; the source traps on an empty stack. Everything below
      the top is kept in order. */
  function PopContainer(s: DecodingStorage): (r: DecodingStorage)
    requires !IsEmpty(s)
    ensures |r.containers| == |s.containers| - 1
    ensures r.containers + [TopContainer(s)] == s.containers
  {
    DecodingStorage(s.containers[..|s.containers| - 1])
  }

  /** The top and the rest of the stack make up the whole stack: pushing the
      top back onto what popping leaves rebuilds it. */
  lemma PushTopAfterPop(s: DecodingStorage)
    requires !IsEmpty(s)
    ensures Push(PopContainer(s), TopContainer(s)) == s
  {
    assert PopContainer(s).containers + [TopContainer(s)] == s.containers;
  }

  /** `createCopy()`: same containers in the same order. Storage is a value
      here, so later pushes and pops on either copy cannot reach the other. */
  function CreateCopy(s: DecodingStorage): (r: DecodingStorage)
    ensures |r.containers| == |s.containers|
    ensures forall i :: 0 <= i < |s.containers| ==> r.containers[i] == s.containers[i]
  {
    DecodingStorage(s.containers)
  }
}
