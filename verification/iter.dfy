/** `_islice` of src_js/iter.ts: Python-style slicing of an array, with
    negative bounds counted from the end. */
module Iter {
  import opened Wrappers

  /** A negative start counts from the end, clamped at 0: normalising never
      moves the start backwards, and a negative start lands within the
      array. */
  function NormStart(start: int, len: nat): (s: nat)
    ensures start <= s
    ensures s <= (if start < 0 then len else start)
  {
    if start < 0 then (if len + start < 0 then 0 else len + start) else start
  }

  /** A missing or too large stop is the length; a negative one counts from
      the end. */
  function NormStop(stop: Option<int>, len: nat): (e: int)
    ensures e <= len
    ensures stop.None? || stop.value > len ==> e == len
    ensures stop.Some? && stop.value < 0 ==> e == len + stop.value
    ensures stop.Some? && 0 <= stop.value <= len ==> e == stop.value
  {
    if stop.None? || stop.value > len then len
    else if stop.value < 0 then len + stop.value
    else stop.value
  }

  /** The elements `_islice` yields: `x[start'..stop']`, or nothing when the
      normalised bounds are crossed. */
  function IsliceSpec<T>(start: int, stop: Option<int>, x: seq<T>): seq<T> {
    var s := NormStart(start, |x|);
    var e := NormStop(stop, |x|);
    if s < e then x[s..e] else []
  }

  /** `_islice`: the bounds are normalised in place, then a counting loop
      yields the elements. */
  method Islice<T>(start: int, stop: Option<int>, x: seq<T>) returns (r: seq<T>)
    ensures r == IsliceSpec(start, stop, x)
  {
    var s := start;
    if s < 0 {
      s := |x| + s;
      if s < 0 {
        s := 0;
      }
    }
    assert 0 <= s == NormStart(start, |x|);
    var e: int;
    if stop.None? || stop.value > |x| {
      e := |x|;
    } else if stop.value < 0 {
      e := |x| + stop.value;
    } else {
      e := stop.value;
    }
    assert e == NormStop(stop, |x|);
    r := [];
    var i := s;
    while i < e
      invariant s <= i
      invariant s < e ==> i <= e
      invariant s >= e ==> i == s
      invariant |r| == i - s
      invariant forall k :: 0 <= k < |r| ==> r[k] == x[s + k]
    {
      r := r + [x[i]];
      i := i + 1;
    }
    assert s < e ==> r == x[s..e];
  }

  /** The output has `max(0, stop' - start')` elements, which are the
      elements of `x` from `start'` on, in order. */
  lemma IsliceShape<T>(start: int, stop: Option<int>, x: seq<T>)
    ensures var s := NormStart(start, |x|);
      var e := NormStop(stop, |x|);
      var r := IsliceSpec(start, stop, x);
      |r| == (if s < e then e - s else 0) &&
      |r| <= |x| &&
      forall k :: 0 <= k < |r| ==> r[k] == x[s + k]
  {
  }

  /** Bounds beyond either end are clamped, so `islice(-50, 50, x)` is `x`
      for any `x` of at most 50 elements. */
  lemma IsliceClamps<T>(x: seq<T>)
    requires |x| <= 50
    ensures IsliceSpec(-50, Some(50), x) == x
  {
  }

  /** The cases of test_jest/iter.test.ts:7-16; the last one, at line 18,
      is IsliceClamps. */
  lemma IsliceExamples()
    ensures IsliceSpec(0, None, [1, 2, 3][..0]) == []
    ensures IsliceSpec(0, None, [1, 2, 3]) == [1, 2, 3]
    ensures IsliceSpec(0, Some(3), [1, 2, 3]) == [1, 2, 3]
    ensures IsliceSpec(1, Some(2), [1, 2, 3]) == [2]
    ensures IsliceSpec(1, Some(-1), [1, 2, 3]) == [2]
    ensures IsliceSpec(-2, Some(-1), [1, 2, 3]) == [2]
    ensures IsliceSpec(1, Some(1), [1, 2, 3]) == []
    ensures IsliceSpec(2, Some(1), [1, 2, 3]) == []
  {
    assert [1, 2, 3][1..2] == [2];
  }
}
