/**
 * What the DOM sources do to a stream of element arrays, on the values the
 * stream emits: `element()` is `filter(arr => arr.length > 0).map(arr => arr[0])`.
 * A stream is modelled as the sequence of values it emits, in order.
 */
module Streams {

  /** `filter(arr => arr.length > 0).map(arr => arr[0])` over the emitted arrays. */
  function FirstOfNonEmpty<T>(arrays: seq<seq<T>>): seq<T> {
    if arrays == [] then []
    else (if arrays[0] != [] then [arrays[0][0]] else []) + FirstOfNonEmpty(arrays[1..])
  }

  /** The arrays that are not empty, in order. */
  function NonEmpty<T>(arrays: seq<seq<T>>): (r: seq<seq<T>>)
    ensures forall i :: 0 <= i < |r| ==> r[i] != []
  {
    if arrays == [] then []
    else (if arrays[0] != [] then [arrays[0]] else []) + NonEmpty(arrays[1..])
  }

  /** Emissions are processed one by one: the output for a concatenation is the concatenation of the outputs. */
  lemma {:induction false} FirstOfNonEmptyAppend<T>(a: seq<seq<T>>, b: seq<seq<T>>)
    ensures FirstOfNonEmpty(a + b) == FirstOfNonEmpty(a) + FirstOfNonEmpty(b)
  {
    if a == [] {
      assert a + b == b;
    } else {
      assert (a + b)[0] == a[0] && (a + b)[1..] == a[1..] + b;
      FirstOfNonEmptyAppend(a[1..], b);
    }
  }

  /**
   * `element()` emits once per non-empty array and nothing for an empty one,
   * and what it emits is that array's first element.
   */
  lemma {:induction false} FirstOfNonEmptySpec<T>(arrays: seq<seq<T>>)
    ensures |FirstOfNonEmpty(arrays)| == |NonEmpty(arrays)|
    ensures forall i :: 0 <= i < |NonEmpty(arrays)| ==> FirstOfNonEmpty(arrays)[i] == NonEmpty(arrays)[i][0]
  {
    if arrays != [] {
      FirstOfNonEmptySpec(arrays[1..]);
    }
  }

  /** An array of elements emitted as it is, for a stream of one emission: empty drops, else the head. */
  lemma FirstOfNonEmptyOne<T>(arr: seq<T>)
    ensures FirstOfNonEmpty([arr]) == if arr == [] then [] else [arr[0]]
  {
    assert [arr][1..] == [];
  }
}
