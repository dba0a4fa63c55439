/** `first` of hat.util (src_py/hat/util/first.py and its copy in
    src_py/hat/util.py): the first element of a collection that satisfies
    a predicate, or a default. The collection is a finite sequence, the
    predicate's truthiness is a `bool`, and `None` is `Option.None`. */
module First {
  import opened Wrappers

  /** Where the first element satisfying `fn` sits, if any. */
  function FirstIndex<T>(xs: seq<T>, fn: T -> bool): (r: Option<nat>)
    ensures r.Some? ==> r.value < |xs| && fn(xs[r.value])
    ensures r.Some? ==> forall j :: 0 <= j < r.value ==> !fn(xs[j])
    ensures r.None? ==> forall j :: 0 <= j < |xs| ==> !fn(xs[j])
  {
    if xs == [] then None
    else if fn(xs[0]) then Some(0)
    else
      match FirstIndex(xs[1..], fn)
      case None => None
      case Some(i) => Some(i + 1)
  }

  /** `first(xs, fn, default)`: the element at the first index whose
      element satisfies `fn`, and `default` when there is none. */
  function First<T>(xs: seq<T>, fn: T -> bool, default: Option<T>): (r: Option<T>)
    ensures (exists i :: 0 <= i < |xs| && fn(xs[i])) ==>
      exists i :: 0 <= i < |xs| && fn(xs[i]) && r == Some(xs[i]) &&
        forall j :: 0 <= j < i ==> !fn(xs[j])
    ensures (forall i :: 0 <= i < |xs| ==> !fn(xs[i])) ==> r == default
  {
    match FirstIndex(xs, fn)
    case Some(i) => Some(xs[i])
    case None => default
  }

  /** The result is never an element that fails the predicate: it either
      satisfies `fn` and is in `xs`, or it is the default. */
  lemma FirstSound<T>(xs: seq<T>, fn: T -> bool, default: Option<T>)
    ensures var r := First(xs, fn, default);
      r == default || (r.Some? && r.value in xs && fn(r.value))
  {
    match FirstIndex(xs, fn)
    case Some(i) =>
    case None =>
  }

  /** The default predicate accepts everything, so `first(xs)` is the
      head of `xs`, or the default when `xs` is empty. */
  lemma FirstOfAll<T>(xs: seq<T>, default: Option<T>)
    ensures First(xs, _ => true, default) == if xs == [] then default else Some(xs[0])
  {
  }

  /** Prepending an element that fails the predicate changes nothing;
      prepending one that passes makes it the answer. */
  lemma {:induction false} FirstCons<T>(x: T, xs: seq<T>, fn: T -> bool, default: Option<T>)
    ensures First([x] + xs, fn, default) == if fn(x) then Some(x) else First(xs, fn, default)
  {
    assert ([x] + xs)[0] == x;
    assert ([x] + xs)[1..] == xs;
  }

  /** The examples of the function's documentation, over range(3), where
      an element passes. */
  lemma FirstExamples()
    ensures First([0, 1, 2], _ => true, None) == Some(0)
    ensures First([0, 1, 2], x => x > 1, None) == Some(2)
  {
    var xs := [0, 1, 2];
    assert xs[2] > 1;
  }

  /** The examples of the function's documentation where no element
      passes, so the default comes back. */
  lemma FirstDefaultExamples()
    ensures First([0, 1, 2], x => x > 2, None) == None
    ensures First([0, 1, 2], x => x > 2, Some(123)) == Some(123)
    ensures First([], _ => true, Some(123)) == Some(123)
  {
    var xs := [0, 1, 2];
    assert forall i :: 0 <= i < |xs| ==> !(xs[i] > 2);
  }
}
