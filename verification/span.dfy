/**
 * Span<T> of include/span.hpp: a begin/end view over a run of fixed-size elements, with
 * no ownership and no bounds check on indexing, and the "exactly one" search over it.
 * Addresses are byte offsets from the start of the buffer the span views.
 */
module Spans {
  import opened Errors
  import opened Arithmetic

  /** A view [begin, end) of elements that are `elemSize` bytes each. */
  datatype Span = Span(begin: nat, end: nat, elemSize: nat) {

    /** A span of whole elements (the original only forms spans over whole elements). */
    predicate Valid() {
      0 < elemSize && begin <= end && (end - begin) % elemSize == 0
    }

    /** `len()`: the number of elements between begin and end. */
    function Len(): nat
      requires Valid()
    {
      (end - begin) / elemSize
    }

    /** `operator[]`: the byte offset of element `index`; like the original, no bounds check. */
    function At(index: nat): (addr: nat)
      requires Valid()
      ensures addr == begin + index * elemSize
      ensures index < Len() ==> begin <= addr && addr + elemSize <= end
    {
      ElementInSpan(end - begin, elemSize, index);
      begin + index * elemSize
    }
  }

  /** `Span()`: the null span. */
  function Empty(elemSize: nat): (s: Span)
    requires 0 < elemSize
    ensures s.Valid() && s.Len() == 0 && s.begin == s.end
  {
    Span(0, 0, elemSize)
  }

  /** `Span(begin, size)`: `size` elements starting at `begin`. */
  function FromCount(begin: nat, count: nat, elemSize: nat): (s: Span)
    requires 0 < elemSize
    ensures s.Valid() && s.begin == begin && s.elemSize == elemSize && s.Len() == count
    ensures s.end == begin + count * elemSize
  {
    MulDivCancel(count, elemSize);
    Span(begin, begin + count * elemSize, elemSize)
  }

  lemma ElementInSpan(size: nat, elemSize: nat, index: nat)
    requires 0 < elemSize && size % elemSize == 0
    ensures index < size / elemSize ==> index * elemSize + elemSize <= size
  {
    if index < size / elemSize {
      var n := size / elemSize;
      assert size == n * elemSize;
      MulAtLeast(n - index, elemSize);
      assert (n - index) * elemSize == n * elemSize - index * elemSize;
    }
  }

  /** Element `i` is the one element of `ts` that satisfies `pred`. */
  predicate UniqueMatch<T>(ts: seq<T>, pred: T -> bool, i: int) {
    0 <= i < |ts| && pred(ts[i]) && forall j :: 0 <= j < |ts| && j != i ==> !pred(ts[j])
  }

  /** No element of `ts` satisfies `pred`. */
  predicate NoneMatch<T>(ts: seq<T>, pred: T -> bool) {
    forall j :: 0 <= j < |ts| ==> !pred(ts[j])
  }

  /** Two distinct elements of `ts` satisfy `pred`. */
  predicate TwoMatch<T>(ts: seq<T>, pred: T -> bool) {
    exists j, k :: 0 <= j < k < |ts| && pred(ts[j]) && pred(ts[k])
  }

  /**
   * `find_single_in_span` as a function: the index of the one element satisfying `pred`,
   * NoMatch when there is none and MultipleMatches when there are two or more.
   * It follows the scan: an element that matches after an earlier match is the failure.
   */
  function FindSingle<T>(ts: seq<T>, pred: T -> bool): (r: Result<nat>)
    ensures r.Ok? ==> UniqueMatch(ts, pred, r.value)
    ensures r == Err(NoMatch) <==> NoneMatch(ts, pred)
    ensures r == Err(MultipleMatches) <==> TwoMatch(ts, pred)
    ensures r.Ok? || r == Err(NoMatch) || r == Err(MultipleMatches)
    decreases |ts|
  {
    if |ts| == 0 then Err(NoMatch)
    else
      var n := |ts| - 1;
      var prev := FindSingle(ts[..n], pred);
      assert forall j :: 0 <= j < n ==> ts[..n][j] == ts[j];
      if !pred(ts[n]) then
        assert TwoMatch(ts[..n], pred) ==> TwoMatch(ts, pred);
        prev
      else if prev == Err(NoMatch) then Ok(n)
      else
        assert prev.Ok? ==> pred(ts[prev.value]) && prev.value < n;
        assert TwoMatch(ts[..n], pred) ==> TwoMatch(ts, pred);
        Err(MultipleMatches)
  }

  /** There is a unique match exactly when the search succeeds. */
  lemma FindSingleSucceedsIffUnique<T>(ts: seq<T>, pred: T -> bool, i: int)
    ensures UniqueMatch(ts, pred, i) <==> FindSingle(ts, pred) == Ok(i)
  {
    if UniqueMatch(ts, pred, i) {
      assert !NoneMatch(ts, pred);
      assert !TwoMatch(ts, pred) by {
        forall j, k | 0 <= j < k < |ts| && pred(ts[j])
          ensures !pred(ts[k])
        {
          assert j == i;
        }
      }
    }
  }

  /** The unique match is the same under two predicates that agree on every element. */
  lemma UniqueMatchAgrees<T>(ts: seq<T>, pred: T -> bool, other: T -> bool, i: int)
    requires forall j :: 0 <= j < |ts| ==> (pred(ts[j]) <==> other(ts[j]))
    ensures UniqueMatch(ts, pred, i) <==> UniqueMatch(ts, other, i)
  {
  }

  /**
   * `find_single_in_span` as the loop the original runs: it keeps the index of the match
   * seen so far and fails as soon as a second element matches. It reads `ts` only.
   */
  method FindSingleInSpan<T>(ts: seq<T>, pred: T -> bool) returns (r: Result<nat>)
    ensures r == FindSingle(ts, pred)
    ensures r.Ok? ==> UniqueMatch(ts, pred, r.value)
  {
    var ans: Option<nat> := None;
    for i := 0 to |ts|
      invariant ans.None? ==> forall j :: 0 <= j < i ==> !pred(ts[j])
      invariant ans.Some? ==> ans.value < i && pred(ts[ans.value])
      invariant ans.Some? ==> forall j :: 0 <= j < i && j != ans.value ==> !pred(ts[j])
    {
      if pred(ts[i]) {
        if ans.Some? {
          assert TwoMatch(ts, pred) by {
            assert ans.value < i && pred(ts[ans.value]) && pred(ts[i]);
          }
          return Err(MultipleMatches);
        }
        ans := Some(i);
      }
    }
    if ans.None? {
      return Err(NoMatch);
    }
    FindSingleSucceedsIffUnique(ts, pred, ans.value);
    return Ok(ans.value);
  }
}
