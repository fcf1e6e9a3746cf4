/**
 * `listOfBytesEquals` (`bytes/Equality.kt`): two lists of byte arrays are
 * equal when they have the same length and their arrays, taken pairwise,
 * hold the same bytes.
 */
module Equality {
  import opened Wire

  /** The lists have the same length and pairwise the same contents. */
  predicate SameContents(a: seq<array<byte>>, b: seq<array<byte>>)
    reads a, b
  {
    |a| == |b| && forall i :: 0 <= i < |a| ==> a[i][..] == b[i][..]
  }

  /** `listOfBytesEquals`.  The identity test `a === b` is modelled as the two
      lists holding the same arrays in the same order, which the loop would
      also accept. */
  method ListOfBytesEquals(a: seq<array<byte>>, b: seq<array<byte>>) returns (r: bool)
    ensures r <==> SameContents(a, b)
    ensures a == b ==> r
    ensures |a| != |b| ==> !r
    ensures forall i :: 0 <= i < |a| && i < |b| && a[i][..] != b[i][..] ==> !r
  {
    if a == b {
      return true;
    }
    if |a| != |b| {
      return false;
    }
    for i := 0 to |a|
      invariant forall j :: 0 <= j < i ==> a[j][..] == b[j][..]
    {
      if a[i][..] != b[i][..] {
        return false;
      }
    }
    return true;
  }

  /** Equal contents is an equivalence: every list equals itself, and the
      relation is symmetric and transitive. */
  lemma SameContentsEquivalence(a: seq<array<byte>>, b: seq<array<byte>>, c: seq<array<byte>>)
    ensures SameContents(a, a)
    ensures SameContents(a, b) ==> SameContents(b, a)
    ensures SameContents(a, b) && SameContents(b, c) ==> SameContents(a, c)
  {
  }
}
