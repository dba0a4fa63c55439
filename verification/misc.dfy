/** The helpers of src_js/misc.ts that the patch engine and the json editors
    depend on, and the sequence and record combinators around them. */
module Misc {
  import opened Wrappers
  import opened Strings
  import opened JsonValue

  // ---------------------------------------------------------------------
  // strictParseInt (src_js/misc.ts:97-101)

  /** The regular expression `^(-|\+)?([0-9]+)$`. */
  predicate IsIntLiteral(s: string) {
    |s| >= 1 &&
    if s[0] == '-' || s[0] == '+' then |s| >= 2 && AllDigits(s[1..]) else AllDigits(s)
  }

  /** `strictParseInt`: the signed decimal value of an integer literal, None
      standing for NaN. `-0` reads as 0, as `Number("-0") < 0` is false. */
  function StrictParseInt(s: string): (r: Option<int>)
    ensures r.Some? <==> IsIntLiteral(s)
    ensures r.Some? && s[0] == '-' ==> r.value <= 0
    ensures r.Some? && s[0] != '-' ==> r.value >= 0
  {
    if !IsIntLiteral(s) then None
    else if s[0] == '-' then Some(0 - DigitsValue(s[1..]) as int)
    else if s[0] == '+' then Some(DigitsValue(s[1..]))
    else Some(DigitsValue(s))
  }

  /** Canonical decimal rendering of an integer, the partner of StrictParseInt. */
  function FormatInt(n: int): string {
    if n < 0 then "-" + FormatNat(-n) else FormatNat(n)
  }

  lemma StrictParseFormatInt(n: int)
    ensures StrictParseInt(FormatInt(n)) == Some(n)
  {
    if n < 0 {
      var d := FormatNat(-n);
      assert ("-" + d)[1..] == d;
      DigitsValueFormat(-n);
    } else {
      DigitsValueFormat(n);
    }
  }

  /** strictParseInt is looser than the array-index grammar of section 4 of
      RFC 6901: it accepts a plus sign, a negative zero and leading zeros. */
  lemma StrictParseIntLoose()
    ensures StrictParseInt("+1") == Some(1)
    ensures StrictParseInt("-0") == Some(0)
    ensures StrictParseInt("01") == Some(1)
  {
    assert "+1"[1..] == "1";
    assert "-0"[1..] == "0";
    assert "01"[..1] == "0";
  }

  // ---------------------------------------------------------------------
  // equals (src_js/misc.ts:197-230)

  lemma SameSizeSubsetEqual<K>(a: set<K>, b: set<K>)
    requires a <= b && |a| == |b|
    ensures a == b
  {
    assert b == a + (b - a);
    assert |b| == |a| + |b - a|;
    assert b - a == {};
  }

  /** Deep equality, following the source's loops: scalars by value, arrays
      by length and element by element, objects by key count, key inclusion
      and value by value. It decides structural equality of JSON values, so
      it is reflexive and symmetric and never equates values of two kinds.
      (The source's `x === y` shortcut on containers compares identity, which
      implies structural equality; this model has only the structure.) */
  method Equals(x: JData, y: JData) returns (r: bool)
    ensures r <==> x == y
    decreases x
  {
    if !x.Arr? && !x.Obj? && x == y {
      return true;
    }
    if !(x.Arr? || x.Obj?) || !(y.Arr? || y.Obj?) {
      return false;
    }
    if x.Arr? && y.Arr? {
      var a, b := x.items, y.items;
      if |a| != |b| {
        return false;
      }
      var i := 0;
      while i < |a|
        invariant 0 <= i <= |a|
        invariant a[..i] == b[..i]
      {
        var e := Equals(a[i], b[i]);
        if !e {
          assert x.items[i] != y.items[i];
          return false;
        }
        assert a[..i + 1] == a[..i] + [a[i]];
        assert b[..i + 1] == b[..i] + [b[i]];
        i := i + 1;
      }
      assert a == a[..i] && b == b[..i];
      return true;
    } else if x.Obj? && y.Obj? {
      var xs, ys := x.fields, y.fields;
      if |xs.Keys| != |ys.Keys| {
        return false;
      }
      var ks := xs.Keys;
      while ks != {}
        invariant ks <= xs.Keys
        invariant forall k :: k in xs.Keys - ks ==> k in ys
        decreases ks
      {
        var k :| k in ks;
        if k !in ys {
          return false;
        }
        ks := ks - {k};
      }
      SameSizeSubsetEqual(xs.Keys, ys.Keys);
      ks := xs.Keys;
      while ks != {}
        invariant ks <= xs.Keys
        invariant forall k :: k in xs.Keys - ks ==> xs[k] == ys[k]
        decreases ks
      {
        var k :| k in ks;
        var e := Equals(xs[k], ys[k]);
        if !e {
          assert xs[k] != ys[k];
          return false;
        }
        ks := ks - {k};
      }
      assert xs == ys;
      return true;
    }
    return false;
  }

  // ---------------------------------------------------------------------
  // clone (src_js/misc.ts:120-130)

  /** Deep copy: arrays through `Array.from(x, clone)`, objects through a
      `for..in` loop filling a fresh object; the copy is structurally equal. */
  method Clone(x: JData) returns (r: JData)
    ensures r == x
    decreases x
  {
    match x
    case Arr(items) =>
      var out: seq<JData> := [];
      var i := 0;
      while i < |items|
        invariant 0 <= i <= |items|
        invariant out == items[..i]
      {
        var c := Clone(items[i]);
        assert items[..i + 1] == items[..i] + [items[i]];
        out := out + [c];
        i := i + 1;
      }
      assert items[..i] == items;
      return Arr(out);
    case Obj(fields) =>
      var ret: map<string, JData> := map[];
      var ks := fields.Keys;
      while ks != {}
        invariant ks <= fields.Keys
        invariant ret.Keys == fields.Keys - ks
        invariant forall k :: k in ret ==> ret[k] == fields[k]
        decreases ks
      {
        var k :| k in ks;
        var c := Clone(fields[k]);
        ret := ret[k := c];
        ks := ks - {k};
      }
      assert ret == fields;
      return Obj(ret);
    case _ =>
      return x;
  }

  // ---------------------------------------------------------------------
  // zip (src_js/misc.ts:132-146)

  function Max(a: int, b: int): int { if a < b then b else a }

  function Min(a: int, b: int): int { if a < b then a else b }

  function At<T>(s: seq<T>, i: nat): Option<T> {
    if i < |s| then Some(s[i]) else None
  }

  /** What the generator of `zip` yields: pairs up to the LONGER length,
      `undefined` (None) standing in past the end of the shorter array. */
  function ZipLongest<A, B>(a: seq<A>, b: seq<B>): (r: seq<(Option<A>, Option<B>)>)
    ensures |r| == Max(|a|, |b|)
    ensures forall i :: 0 <= i < Min(|a|, |b|) ==> r[i] == (Some(a[i]), Some(b[i]))
    ensures forall i :: |a| <= i < |r| ==> r[i].0 == None
    ensures forall i :: |b| <= i < |r| ==> r[i].1 == None
  {
    seq(Max(|a|, |b|), i requires 0 <= i < Max(|a|, |b|) => (At(a, i), At(b, i)))
  }

  /** `zip` as written: the loop runs while `i < arr1.length || i < arr2.length`. */
  method Zip<A, B>(a: seq<A>, b: seq<B>) returns (r: seq<(Option<A>, Option<B>)>)
    ensures r == ZipLongest(a, b)
  {
    r := [];
    var i := 0;
    while i < |a| || i < |b|
      invariant 0 <= i <= Max(|a|, |b|)
      invariant r == ZipLongest(a, b)[..i]
      decreases Max(|a|, |b|) - i
    {
      r := r + [(At(a, i), At(b, i))];
      i := i + 1;
    }
  }

  /** What the doc comment (src_js/misc.ts:132-137) and the tests promise:
      the result is truncated to the shorter input. */
  function ZipShortest<A, B>(a: seq<A>, b: seq<B>): (r: seq<(A, B)>)
    ensures |r| == Min(|a|, |b|)
    ensures forall i :: 0 <= i < |r| ==> r[i] == (a[i], b[i])
  {
    if a == [] || b == [] then [] else [(a[0], b[0])] + ZipShortest(a[1..], b[1..])
  }

  /** The test `zip([1], ['a', 'b', 'c'])` expects one pair; the code yields three. */
  lemma ZipLongestDisagreesWithTest()
    ensures |ZipLongest([1], "abc")| == 3
    ensures |ZipShortest([1], "abc")| == 1
  {
  }

  /** On arrays of equal length (the only use, inside `equals`) the two agree. */
  lemma ZipAgreeOnEqualLength<A, B>(a: seq<A>, b: seq<B>)
    requires |a| == |b|
    ensures |ZipLongest(a, b)| == |ZipShortest(a, b)|
    ensures forall i :: 0 <= i < |a| ==>
      ZipLongest(a, b)[i] == (Some(ZipShortest(a, b)[i].0), Some(ZipShortest(a, b)[i].1))
  {
  }

  // ---------------------------------------------------------------------
  // toPairs / fromPairs (src_js/misc.ts:148-167)

  function PairKeys<T>(ps: seq<(string, T)>): set<string> {
    set i | 0 <= i < |ps| :: ps[i].0
  }

  /** `ps` lists entries of `m`, no key twice. */
  ghost predicate EntriesWithin<T>(ps: seq<(string, T)>, m: map<string, T>) {
    && (forall i, j :: 0 <= i < j < |ps| ==> ps[i].0 != ps[j].0)
    && (forall i :: 0 <= i < |ps| ==> ps[i].0 in m && m[ps[i].0] == ps[i].1)
  }

  /** `ps` lists every entry of `m` exactly once, in some order. */
  ghost predicate IsEntriesOf<T>(ps: seq<(string, T)>, m: map<string, T>) {
    PairKeys(ps) == m.Keys && EntriesWithin(ps, m)
  }

  /** `Object.entries`: the key/value pairs of an object. */
  method ToPairs<T>(o: map<string, T>) returns (r: seq<(string, T)>)
    ensures IsEntriesOf(r, o)
    ensures |r| == |o|
  {
    r := [];
    var ks := o.Keys;
    while ks != {}
      invariant ks <= o.Keys
      invariant PairKeys(r) == o.Keys - ks
      invariant EntriesWithin(r, o)
      decreases ks
    {
      var k :| k in ks;
      EntriesAppend(r, o, k);
      r := r + [(k, o[k])];
      ks := ks - {k};
    }
    DistinctKeysCount(r);
  }

  /** Appending the entry of a key not listed yet keeps the listing
      repetition-free. */
  lemma EntriesAppend<T>(ps: seq<(string, T)>, m: map<string, T>, k: string)
    requires EntriesWithin(ps, m) && k in m && k !in PairKeys(ps)
    ensures EntriesWithin(ps + [(k, m[k])], m)
    ensures PairKeys(ps + [(k, m[k])]) == PairKeys(ps) + {k}
  {
    var q := ps + [(k, m[k])];
    forall i, j | 0 <= i < j < |q|
      ensures q[i].0 != q[j].0
    {
      if j == |ps| {
        assert q[i].0 == ps[i].0;
      }
    }
    PairKeysAppend(ps, (k, m[k]));
  }

  lemma PairKeysAppend<T>(ps: seq<(string, T)>, p: (string, T))
    ensures PairKeys(ps + [p]) == PairKeys(ps) + {p.0}
  {
    var q := ps + [p];
    forall x | x in PairKeys(q)
      ensures x in PairKeys(ps) + {p.0}
    {
      var i :| 0 <= i < |q| && q[i].0 == x;
      if i < |ps| {
        assert ps[i].0 == x;
      }
    }
    forall x | x in PairKeys(ps)
      ensures x in PairKeys(q)
    {
      var i :| 0 <= i < |ps| && ps[i].0 == x;
      assert q[i].0 == x;
    }
    assert q[|ps|].0 == p.0;
  }

  lemma {:induction false} DistinctKeysCount<T>(ps: seq<(string, T)>)
    requires forall i, j :: 0 <= i < j < |ps| ==> ps[i].0 != ps[j].0
    ensures |PairKeys(ps)| == |ps|
  {
    if ps != [] {
      var init := ps[..|ps| - 1];
      DistinctKeysCount(init);
      assert PairKeys(ps) == PairKeys(init) + {ps[|ps| - 1].0};
      assert ps[|ps| - 1].0 !in PairKeys(init);
    }
  }

  /** The object `fromPairs` builds: a left fold assigning each pair in turn. */
  function FromPairsSpec<T>(ps: seq<(string, T)>): (m: map<string, T>)
    ensures m.Keys == PairKeys(ps)
  {
    if ps == [] then map[]
    else
      var init := ps[..|ps| - 1];
      assert PairKeys(ps) == PairKeys(init) + {ps[|ps| - 1].0};
      FromPairsSpec(init)[ps[|ps| - 1].0 := ps[|ps| - 1].1]
  }

  /** `fromPairs`: a loop assigning `ret[k] = v` for every pair. */
  method FromPairs<T>(ps: seq<(string, T)>) returns (r: map<string, T>)
    ensures r == FromPairsSpec(ps)
  {
    r := map[];
    var i := 0;
    while i < |ps|
      invariant 0 <= i <= |ps|
      invariant r == FromPairsSpec(ps[..i])
    {
      assert ps[..i + 1][..i] == ps[..i];
      r := r[ps[i].0 := ps[i].1];
      i := i + 1;
    }
    assert ps[..i] == ps;
  }

  /** For a key given several times, the last pair wins. */
  lemma {:induction false} FromPairsLastWins<T>(ps: seq<(string, T)>, i: nat)
    requires i < |ps|
    requires forall j :: i < j < |ps| ==> ps[j].0 != ps[i].0
    ensures ps[i].0 in FromPairsSpec(ps) && FromPairsSpec(ps)[ps[i].0] == ps[i].1
  {
    if i < |ps| - 1 {
      FromPairsLastWins(ps[..|ps| - 1], i);
    }
  }

  /** `fromPairs(toPairs(o)) == o`. */
  lemma FromPairsOfEntries<T>(ps: seq<(string, T)>, o: map<string, T>)
    requires IsEntriesOf(ps, o)
    ensures FromPairsSpec(ps) == o
  {
    var m := FromPairsSpec(ps);
    forall k | k in o
      ensures m[k] == o[k]
    {
      var i :| 0 <= i < |ps| && ps[i].0 == k;
      FromPairsLastWins(ps, i);
    }
  }

  // ---------------------------------------------------------------------
  // pick (src_js/misc.ts:278-287)

  /** `pick`: a fresh object holding the listed keys that `o` has. */
  method Pick<T>(ks: seq<string>, o: map<string, T>) returns (r: map<string, T>)
    ensures r.Keys == (set i | 0 <= i < |ks| && ks[i] in o :: ks[i])
    ensures forall k :: k in r ==> r[k] == o[k]
  {
    r := map[];
    var i := 0;
    while i < |ks|
      invariant 0 <= i <= |ks|
      invariant r.Keys == (set j | 0 <= j < i && ks[j] in o :: ks[j])
      invariant forall k :: k in r ==> k in o && r[k] == o[k]
    {
      if ks[i] in o {
        r := r[ks[i] := o[ks[i]]];
      }
      i := i + 1;
    }
  }

  // ---------------------------------------------------------------------
  // repeat, insert, merge (src_js/misc.ts:235-238, 365-368, 470-474)

  /** `repeat(x, n)`: `n` copies of `x`; a negative count gives `[]`, as
      `Array.from({length: n})` does. */
  function Repeat<T>(x: T, n: int): (r: seq<T>)
    ensures |r| == Max(n, 0)
    ensures forall i :: 0 <= i < |r| ==> r[i] == x
  {
    if n <= 0 then [] else Repeat(x, n - 1) + [x]
  }

  /** The position `Array.prototype.slice` makes of an index: negative values
      count from the end, and the result is clamped to [0, len]. */
  function SliceIndex(i: int, len: nat): (k: nat)
    ensures k <= len
  {
    if i < 0 then (if len + i < 0 then 0 else len + i) else if i > len then len else i
  }

  /** `insert(idx, val, arr)`: `arr.slice(0, idx).concat([val], arr.slice(idx))`. */
  function Insert<T>(idx: int, v: T, a: seq<T>): (r: seq<T>)
    ensures |r| == |a| + 1
    ensures r[SliceIndex(idx, |a|)] == v
    ensures forall j :: 0 <= j < SliceIndex(idx, |a|) ==> r[j] == a[j]
    ensures forall j :: SliceIndex(idx, |a|) <= j < |a| ==> r[j + 1] == a[j]
  {
    var k := SliceIndex(idx, |a|);
    a[..k] + [v] + a[k..]
  }

  /** `merge(x, y)`: `Object.assign({}, x, y)`, the second object winning. */
  function Merge<T>(x: map<string, T>, y: map<string, T>): (r: map<string, T>)
    ensures r.Keys == x.Keys + y.Keys
    ensures forall k :: k in y ==> r[k] == y[k]
    ensures forall k :: k in x && k !in y ==> r[k] == x[k]
  {
    x + y
  }

  // ---------------------------------------------------------------------
  // union (src_js/misc.ts:446-455)

  /** `find(equals(val), x)`: the first element of `x` equal to `val`. */
  function FindEqual(val: JData, x: seq<JData>): (r: Option<JData>)
    ensures r.Some? <==> val in x
    ensures r.Some? ==> r.value == val
  {
    if x == [] then None else if x[0] == val then Some(x[0]) else FindEqual(val, x[1..])
  }

  /** `union` as written: a reduce over `y` starting from `x` that appends
      `val` when `!find(equals(val), x)`. The found element is tested for
      truthiness, so a falsy duplicate (null, false, 0, "") is appended again. */
  function UnionAsWritten(x: seq<JData>, y: seq<JData>): (r: seq<JData>)
    ensures |x| <= |r| <= |x| + |y|
    ensures r[..|x|] == x
  {
    if y == [] then x
    else
      var acc := UnionAsWritten(x, y[..|y| - 1]);
      var val := y[|y| - 1];
      var found := FindEqual(val, x);
      if !(found.Some? && Truthy(found.value)) then acc + [val] else acc
  }

  /** `union` as its doc comment describes it: elements of `y` already in `x`
      are skipped. */
  function Union(x: seq<JData>, y: seq<JData>): (r: seq<JData>)
    ensures |x| <= |r| <= |x| + |y|
    ensures r[..|x|] == x
    ensures forall v :: v in r <==> v in x || v in y
  {
    if y == [] then x
    else
      var acc := Union(x, y[..|y| - 1]);
      var val := y[|y| - 1];
      assert forall v :: v in y <==> v in y[..|y| - 1] || v == val;
      if val !in x then acc + [val] else acc
  }

  /** Counterexample: a falsy element of `x` is duplicated by `union`. */
  lemma UnionAsWrittenDuplicatesFalsy()
    ensures UnionAsWritten([Num(0)], [Num(0)]) == [Num(0), Num(0)]
    ensures Union([Num(0)], [Num(0)]) == [Num(0)]
  {
    assert [Num(0)][..0] == [];
  }

  /** The two agree whenever every element of `y` is truthy. */
  lemma {:induction false} UnionAgreesOnTruthy(x: seq<JData>, y: seq<JData>)
    requires forall i :: 0 <= i < |y| ==> Truthy(y[i])
    ensures UnionAsWritten(x, y) == Union(x, y)
  {
    if y != [] {
      UnionAgreesOnTruthy(x, y[..|y| - 1]);
    }
  }

  // ---------------------------------------------------------------------
  // sortBy (src_js/misc.ts:250-273)

  predicate SortedBy<T>(s: seq<T>, key: T -> int) {
    forall i, j :: 0 <= i < j < |s| ==> key(s[i]) <= key(s[j])
  }

  /** Insert `x` into a sorted sequence after every element whose key is not
      greater than its own. */
  function InsertByKey<T>(x: T, s: seq<T>, key: T -> int): (r: seq<T>)
    requires SortedBy(s, key)
    ensures SortedBy(r, key)
    ensures multiset(r) == multiset(s) + multiset{x}
  {
    if s == [] then [x]
    else if key(x) < key(s[0]) then [x] + s
    else
      var rest := InsertByKey(x, s[1..], key);
      assert s == [s[0]] + s[1..];
      InsertedAbove(x, s, rest, key);
      SortedCons(s[0], rest, key);
      [s[0]] + rest
  }

  /** What is inserted behind the head of `s` has keys no smaller than the
      head's. */
  lemma InsertedAbove<T>(x: T, s: seq<T>, rest: seq<T>, key: T -> int)
    requires s != [] && SortedBy(s, key) && key(s[0]) <= key(x)
    requires multiset(rest) == multiset(s[1..]) + multiset{x}
    ensures forall i :: 0 <= i < |rest| ==> key(s[0]) <= key(rest[i])
  {
    forall i | 0 <= i < |rest|
      ensures key(s[0]) <= key(rest[i])
    {
      assert rest[i] in multiset(rest);
      if rest[i] != x {
        assert rest[i] in s[1..];
        var j :| 0 <= j < |s[1..]| && s[1..][j] == rest[i];
        assert s[j + 1] == rest[i];
      }
    }
  }

  lemma SortedCons<T>(h: T, rest: seq<T>, key: T -> int)
    requires SortedBy(rest, key)
    requires forall i :: 0 <= i < |rest| ==> key(h) <= key(rest[i])
    ensures SortedBy([h] + rest, key)
  {
    var t := [h] + rest;
    forall i, j | 0 <= i < j < |t|
      ensures key(t[i]) <= key(t[j])
    {
      assert t[j] == rest[j - 1];
      if i > 0 {
        assert t[i] == rest[i - 1];
      }
    }
  }

  /** The elements of `s` whose key is `v`, in the order of `s`. */
  function WithKey<T>(s: seq<T>, key: T -> int, v: int): seq<T> {
    if s == [] then []
    else if key(s[0]) == v then [s[0]] + WithKey(s[1..], key, v)
    else WithKey(s[1..], key, v)
  }

  lemma {:induction false} WithKeyAppend<T>(a: seq<T>, b: seq<T>, key: T -> int, v: int)
    ensures WithKey(a + b, key, v) == WithKey(a, key, v) + WithKey(b, key, v)
    decreases a
  {
    if a == [] {
      assert a + b == b;
    } else {
      var ab := a + b;
      assert ab[0] == a[0];
      assert ab[1..] == a[1..] + b;
      WithKeyAppend(a[1..], b, key, v);
      if key(a[0]) == v {
        calc {
          WithKey(ab, key, v);
          [a[0]] + WithKey(a[1..] + b, key, v);
          [a[0]] + (WithKey(a[1..], key, v) + WithKey(b, key, v));
          ([a[0]] + WithKey(a[1..], key, v)) + WithKey(b, key, v);
        }
      }
    }
  }

  lemma {:induction false} WithKeyAbove<T>(s: seq<T>, key: T -> int, v: int)
    requires forall i :: 0 <= i < |s| ==> v < key(s[i])
    ensures WithKey(s, key, v) == []
    decreases s
  {
    if s != [] {
      WithKeyAbove(s[1..], key, v);
    }
  }

  lemma WithKeyCons<T>(h: T, t: seq<T>, key: T -> int, v: int)
    ensures WithKey([h] + t, key, v) == (if key(h) == v then [h] else []) + WithKey(t, key, v)
  {
    assert ([h] + t)[0] == h && ([h] + t)[1..] == t;
  }

  lemma InsertByKeyUnfold<T>(x: T, s: seq<T>, key: T -> int)
    requires s != [] && SortedBy(s, key)
    ensures SortedBy(s[1..], key)
    ensures InsertByKey(x, s, key) ==
      if key(x) < key(s[0]) then [x] + s else [s[0]] + InsertByKey(x, s[1..], key)
  {
  }

  lemma SortedAbove<T>(s: seq<T>, key: T -> int, v: int)
    requires s != [] && SortedBy(s, key) && v < key(s[0])
    ensures forall i :: 0 <= i < |s| ==> v < key(s[i])
  {
    forall i | 0 <= i < |s|
      ensures v < key(s[i])
    {
      if i > 0 {
        assert key(s[0]) <= key(s[i]);
      }
    }
  }

  lemma ConcatAssoc<T>(a: seq<T>, b: seq<T>, c: seq<T>)
    ensures a + (b + c) == (a + b) + c
  {
  }

  /** An element placed before elements of larger keys comes after all
      those of its own key. */
  lemma StableFront<T>(x: T, s: seq<T>, key: T -> int, v: int)
    requires forall i :: 0 <= i < |s| ==> key(x) < key(s[i])
    ensures WithKey([x] + s, key, v) == WithKey(s, key, v) + (if key(x) == v then [x] else [])
  {
    WithKeyCons(x, s, key, v);
    if key(x) == v {
      WithKeyAbove(s, key, v);
    }
  }

  /** Putting the same head before two sequences keeps a stable insertion
      stable. */
  lemma StableBehind<T>(h: T, t: seq<T>, rest: seq<T>, tail: seq<T>, key: T -> int, v: int)
    requires WithKey(rest, key, v) == WithKey(t, key, v) + tail
    ensures WithKey([h] + rest, key, v) == WithKey([h] + t, key, v) + tail
  {
    WithKeyCons(h, rest, key, v);
    WithKeyCons(h, t, key, v);
    ConcatAssoc(if key(h) == v then [h] else [], WithKey(t, key, v), tail);
  }

  /** InsertByKey places `x` behind every element with the same key. */
  lemma {:induction false} InsertByKeyStable<T>(x: T, s: seq<T>, key: T -> int, v: int)
    requires SortedBy(s, key)
    ensures WithKey(InsertByKey(x, s, key), key, v) ==
      WithKey(s, key, v) + (if key(x) == v then [x] else [])
    decreases s
  {
    if s == [] {
      StableFront(x, s, key, v);
    } else {
      InsertByKeyUnfold(x, s, key);
      if key(x) < key(s[0]) {
        SortedAbove(s, key, key(x));
        StableFront(x, s, key, v);
      } else {
        InsertByKeyStable(x, s[1..], key, v);
        StableBehind(s[0], s[1..], InsertByKey(x, s[1..], key), if key(x) == v then [x] else [], key, v);
        assert [s[0]] + s[1..] == s;
      }
    }
  }

  /** `sortBy(fn, arr)`: a copy of `arr` ordered by `fn`'s results, compared
      with `<` and `>`. The sort is stable: the elements with any one key
      keep their order from `arr`. */
  function SortBy<T>(key: T -> int, arr: seq<T>): (r: seq<T>)
    ensures SortedBy(r, key)
    ensures multiset(r) == multiset(arr)
    ensures forall v :: WithKey(r, key, v) == WithKey(arr, key, v)
  {
    if arr == [] then []
    else
      var init, last := arr[..|arr| - 1], arr[|arr| - 1];
      assert arr == init + [last];
      var sorted := SortBy(key, init);
      assert forall v :: WithKey(InsertByKey(last, sorted, key), key, v) == WithKey(arr, key, v) by {
        forall v
          ensures WithKey(InsertByKey(last, sorted, key), key, v) == WithKey(arr, key, v)
        {
          InsertByKeyStable(last, sorted, key, v);
          WithKeyAppend(init, [last], key, v);
          assert WithKey([last], key, v) == (if key(last) == v then [last] else []) + WithKey([last][1..], key, v);
        }
      }
      InsertByKey(last, sorted, key)
  }
}
