/** The lenient path-based editors of src_js/json.ts. A path is a number, a
    string or a nested list of paths, flattened before use; where the patch
    engine throws, these return `null` or the input unchanged, and `set`
    builds the containers it needs. JavaScript's `undefined` has no JSON
    value: read from an array it is `null`, in an object it is an absent
    key. */
module JsonEdit {
  import opened Wrappers
  import opened JsonValue
  import Misc

  /** `JPath`. */
  datatype JPath = PNum(n: int) | PStr(s: string) | PList(items: seq<JPath>)

  /** One element of a flattened path. */
  datatype Seg = Idx(i: int) | Key(k: string)

  // ---------------------------------------------------------------------
  // flatten (src_js/misc.ts:179-181)

  /** `flatten(path)`: `path.flat(Infinity)` for a list, `[path]` otherwise. */
  function Flatten(p: JPath): seq<Seg>
    decreases p
  {
    match p
    case PNum(n) => [Idx(n)]
    case PStr(s) => [Key(s)]
    case PList(items) => FlattenAll(items)
  }

  function FlattenAll(ps: seq<JPath>): seq<Seg>
    decreases ps
  {
    if ps == [] then [] else Flatten(ps[0]) + FlattenAll(ps[1..])
  }

  lemma {:induction false} FlattenAllAppend(a: seq<JPath>, b: seq<JPath>)
    ensures FlattenAll(a + b) == FlattenAll(a) + FlattenAll(b)
    decreases a
  {
    if a == [] {
      assert a + b == b;
    } else {
      assert (a + b)[0] == a[0];
      assert (a + b)[1..] == a[1..] + b;
      FlattenAllAppend(a[1..], b);
    }
  }

  /** A nested list inside a path is spliced in place: nesting does not
      change what a path addresses. */
  lemma NestingIsSpliced(a: seq<JPath>, inner: seq<JPath>, c: seq<JPath>)
    ensures Flatten(PList(a + [PList(inner)] + c)) == Flatten(PList(a + inner + c))
  {
    FlattenAllAppend(a + [PList(inner)], c);
    FlattenAllAppend(a, [PList(inner)]);
    FlattenAllAppend(a + inner, c);
    FlattenAllAppend(a, inner);
    assert [PList(inner)][1..] == [];
  }

  /** The nested path of test_jest/json.test.ts:19 flattens to `a/3/b`. */
  lemma NestedPathExample()
    ensures Flatten(PList([PList([PStr("a"), PList([PList([])]), PNum(3), PList([PStr("b")])])]))
      == [Key("a"), Idx(3), Key("b")]
  {
    var b := PList([PStr("b")]);
    var empty := PList([PList([])]);
    FlattenAllCons(PStr("b"), []);
    assert Flatten(b) == [Key("b")];
    FlattenAllCons(PList([]), []);
    assert Flatten(empty) == [];
    FlattenAllCons(b, []);
    FlattenAllCons(PNum(3), [b]);
    FlattenAllCons(empty, [PNum(3), b]);
    FlattenAllCons(PStr("a"), [empty, PNum(3), b]);
    var inner := PList([PStr("a"), empty, PNum(3), b]);
    assert Flatten(inner) == [Key("a"), Idx(3), Key("b")];
    FlattenAllCons(inner, []);
  }

  lemma FlattenAllCons(p: JPath, ps: seq<JPath>)
    ensures FlattenAll([p] + ps) == Flatten(p) + FlattenAll(ps)
  {
    assert ([p] + ps)[0] == p;
    assert ([p] + ps)[1..] == ps;
  }

  // ---------------------------------------------------------------------
  // get (src_js/json.ts:16-33)

  /** One step of `get`: None when the segment's kind does not fit the value,
      otherwise the child, with a missing child read as null. */
  function Step(seg: Seg, x: JData): (r: Option<JData>)
    ensures r.Some? <==> (seg.Idx? && x.Arr?) || (seg.Key? && x.Obj?)
  {
    match seg
    case Idx(i) =>
      if x.Arr? then Some(if 0 <= i < |x.items| then x.items[i] else Null) else None
    case Key(k) =>
      if x.Obj? then Some(if k in x.fields then x.fields[k] else Null) else None
  }

  /** What `get` computes on a flattened path. */
  function GetSpec(segs: seq<Seg>, x: JData): JData
    decreases segs
  {
    if segs == [] then x
    else
      match Step(segs[0], x)
      case None => Null
      case Some(v) => if v == Null then Null else GetSpec(segs[1..], v)
  }

  /** `_get`: the loop over the flattened path, stopping with null at the
      first mismatch or missing value. */
  method Get(path: JPath, x: JData) returns (r: JData)
    ensures r == GetSpec(Flatten(path), x)
  {
    var segs := Flatten(path);
    r := x;
    var i := 0;
    while i < |segs|
      invariant 0 <= i <= |segs|
      invariant GetSpec(segs, x) == GetSpec(segs[i..], r)
    {
      assert segs[i..][0] == segs[i] && segs[i..][1..] == segs[i + 1..];
      var next := Step(segs[i], r);
      if next.None? {
        return Null;
      }
      r := next.value;
      if r == Null {
        return Null;
      }
      i := i + 1;
    }
  }

  /** Getting along the empty path is the identity; getting through a
      segment of the wrong kind, or through a null, gives null. */
  lemma GetBasics(segs: seq<Seg>, x: JData)
    ensures GetSpec([], x) == x
    ensures segs != [] && Step(segs[0], x).None? ==> GetSpec(segs, x) == Null
    ensures segs != [] ==> GetSpec(segs, Null) == Null
  {
  }

  /** Getting along `p + q` is getting along `p`, then along `q`. */
  lemma {:induction false} GetSpecConcat(p: seq<Seg>, q: seq<Seg>, x: JData)
    ensures GetSpec(p + q, x) == GetSpec(q, GetSpec(p, x))
    decreases p
  {
    if p == [] {
      assert p + q == q;
    } else {
      assert (p + q)[0] == p[0] && (p + q)[1..] == p[1..] + q;
      match Step(p[0], x)
      case None =>
        GetOfNull(q);
      case Some(v) =>
        if v == Null {
          GetOfNull(q);
        } else {
          GetSpecConcat(p[1..], q, v);
        }
    }
  }

  lemma GetOfNull(segs: seq<Seg>)
    ensures GetSpec(segs, Null) == Null
  {
  }

  /** `after` keeps every slot of the container `before` other than the one
      `seg` addresses: the same kind, no element or key lost, and every
      other element or entry equal. */
  ghost predicate SlotsKept(seg: Seg, before: JData, after: JData) {
    match seg
    case Idx(i) =>
      before.Arr? && after.Arr? && |after.items| >= |before.items| &&
      forall j :: 0 <= j < |before.items| && j != i ==> after.items[j] == before.items[j]
    case Key(k) =>
      before.Obj? && after.Obj? &&
      forall k' :: k' in before.fields && k' != k ==> k' in after.fields && after.fields[k'] == before.fields[k']
  }

  /** At every level of `segs` where `before` has a container of the kind
      the segment needs, `after` keeps every slot off the path, and the
      children on the path are related in the same way by the rest of it. */
  ghost predicate KeepsOffPath(segs: seq<Seg>, before: JData, after: JData)
    decreases segs
  {
    segs == [] ||
    (Step(segs[0], before).Some? ==>
       SlotsKept(segs[0], before, after) &&
       KeepsOffPath(segs[1..], Step(segs[0], before).value, Step(segs[0], after).value))
  }

  lemma {:induction false} KeepsOffPathRefl(segs: seq<Seg>, x: JData)
    ensures KeepsOffPath(segs, x, x)
    decreases segs
  {
    if segs != [] && Step(segs[0], x).Some? {
      KeepsOffPathRefl(segs[1..], Step(segs[0], x).value);
    }
  }

  // ---------------------------------------------------------------------
  // change and set (src_js/json.ts:43-80)

  /** `ret[i] = v` on a copied array: past the end the array grows, the gap
      reading as null. */
  function Assign(items: seq<JData>, i: nat, v: JData): (r: seq<JData>)
    ensures |r| == (if i < |items| then |items| else i + 1)
    ensures r[i] == v
    ensures forall j :: 0 <= j < |items| && j != i ==> r[j] == items[j]
    ensures forall j :: |items| <= j < i ==> r[j] == Null
  {
    if i < |items| then items[i := v]
    else items + Misc.Repeat(Null, i - |items|) + [v]
  }

  /** The inner `_change` on a flattened path. A number segment works on a
      copy of the array, or on `repeat(null, i)` when the value is not an
      array; a string segment on a copy of the object, or on `{}`. A
      negative index assigns a property that is not an element, so the
      array's elements stay as they were. */
  function ChangeFlat(segs: seq<Seg>, fn: JData -> JData, x: JData): (r: JData)
    ensures segs != [] && segs[0].Idx? ==> r.Arr?
    ensures segs != [] && segs[0].Key? ==> r.Obj?
    ensures segs != [] && segs[0].Idx? && x.Arr? ==>
      |r.items| >= |x.items| &&
      forall j :: 0 <= j < |x.items| && j != segs[0].i ==> r.items[j] == x.items[j]
    ensures segs != [] && segs[0].Key? && x.Obj? ==>
      r.fields.Keys == x.fields.Keys + {segs[0].k} &&
      forall k :: k in x.fields && k != segs[0].k ==> r.fields[k] == x.fields[k]
    ensures KeepsOffPath(segs, x, r)
    decreases segs
  {
    if segs == [] then fn(x)
    else
      match segs[0]
      case Idx(i) =>
        var base := if x.Arr? then x.items else Misc.Repeat(Null, i);
        if i < 0 then
          KeepsOffPathRefl(segs, x);
          Arr(base)
        else Arr(Assign(base, i, ChangeFlat(segs[1..], fn, if i < |base| then base[i] else Null)))
      case Key(k) =>
        var base := if x.Obj? then x.fields else map[];
        Obj(base[k := ChangeFlat(segs[1..], fn, if k in base then base[k] else Null)])
  }

  /** `_change`. */
  function Change(path: JPath, fn: JData -> JData, x: JData): JData {
    ChangeFlat(Flatten(path), fn, x)
  }

  /** `_set`: change with a constant function. */
  function Set(path: JPath, val: JData, x: JData): JData {
    Change(path, _ => val, x)
  }

  predicate NoNegativeIndex(segs: seq<Seg>) {
    forall j :: 0 <= j < |segs| ==> segs[j].Idx? ==> segs[j].i >= 0
  }

  /** What was set is what is got back, whatever the document was, as long
      as no index on the path is negative. */
  lemma {:induction false} GetSetFlat(segs: seq<Seg>, val: JData, x: JData)
    requires NoNegativeIndex(segs)
    ensures GetSpec(segs, ChangeFlat(segs, _ => val, x)) == val
    decreases segs
  {
    if segs != [] {
      var r := ChangeFlat(segs, _ => val, x);
      assert NoNegativeIndex(segs[1..]) by {
        forall j | 0 <= j < |segs[1..]| && segs[1..][j].Idx?
          ensures segs[1..][j].i >= 0
        {
          assert segs[1..][j] == segs[j + 1];
        }
      }
      match segs[0]
      case Idx(i) =>
        assert segs[0].i >= 0;
        var base := if x.Arr? then x.items else Misc.Repeat(Null, i);
        var child := ChangeFlat(segs[1..], _ => val, if i < |base| then base[i] else Null);
        GetSetFlat(segs[1..], val, if i < |base| then base[i] else Null);
        assert r == Arr(Assign(base, i, child));
        assert Step(segs[0], r) == Some(child);
      case Key(k) =>
        var base := if x.Obj? then x.fields else map[];
        var child := ChangeFlat(segs[1..], _ => val, if k in base then base[k] else Null);
        GetSetFlat(segs[1..], val, if k in base then base[k] else Null);
        assert r == Obj(base[k := child]);
        assert Step(segs[0], r) == Some(child);
    }
  }

  lemma GetSet(path: JPath, val: JData, x: JData)
    requires NoNegativeIndex(Flatten(path))
    ensures GetSpec(Flatten(path), Set(path, val, x)) == val
  {
    GetSetFlat(Flatten(path), val, x);
  }

  /** The value one segment leads to, null where `get` would stop. */
  function Child(seg: Seg, x: JData): JData {
    match Step(seg, x)
    case None => Null
    case Some(v) => v
  }

  /** Getting along a path is getting along its tail from the first child. */
  lemma GetSpecCons(segs: seq<Seg>, x: JData)
    requires segs != []
    ensures GetSpec(segs, x) == GetSpec(segs[1..], Child(segs[0], x))
  {
    if Child(segs[0], x) == Null {
      GetOfNull(segs[1..]);
    }
  }

  /** Change descends into the first child, whatever the value was. */
  lemma ChangeChild(segs: seq<Seg>, fn: JData -> JData, x: JData)
    requires segs != [] && (segs[0].Idx? ==> segs[0].i >= 0)
    ensures Step(segs[0], ChangeFlat(segs, fn, x)) == Some(ChangeFlat(segs[1..], fn, Child(segs[0], x)))
  {
    var r := ChangeFlat(segs, fn, x);
    if segs[0].Idx? {
      assert r.items[segs[0].i] == ChangeFlat(segs[1..], fn, Child(segs[0], x));
    } else {
      assert r.fields[segs[0].k] == ChangeFlat(segs[1..], fn, Child(segs[0], x));
    }
  }

  /** Below a prefix `p` without negative indices, change along `p + q`
      is change along `q` of what `p` addressed; with `q` empty, the value
      at the path is `fn` of the old one. */
  lemma {:induction false} GetChangeFlat(p: seq<Seg>, q: seq<Seg>, fn: JData -> JData, x: JData)
    requires NoNegativeIndex(p)
    ensures GetSpec(p, ChangeFlat(p + q, fn, x)) == ChangeFlat(q, fn, GetSpec(p, x))
    decreases p
  {
    if p == [] {
      assert p + q == q;
    } else {
      var segs := p + q;
      assert segs[0] == p[0] && segs[1..] == p[1..] + q;
      assert NoNegativeIndex(p[1..]) by {
        forall j | 0 <= j < |p[1..]| && p[1..][j].Idx?
          ensures p[1..][j].i >= 0
        {
          assert p[1..][j] == p[j + 1];
        }
      }
      var c := Child(p[0], x);
      var c' := ChangeFlat(p[1..] + q, fn, c);
      assert p[0].Idx? ==> p[0].i >= 0;
      ChangeChild(segs, fn, x);
      GetSpecCons(p, x);
      GetChangeFlat(p[1..], q, fn, c);
      if c' == Null {
        assert p[1..] + q == [];
      }
    }
  }

  /** With `q` empty: the value at the path becomes `fn` of the value that
      was there. */
  lemma GetChange(segs: seq<Seg>, fn: JData -> JData, x: JData)
    requires NoNegativeIndex(segs)
    ensures GetSpec(segs, ChangeFlat(segs, fn, x)) == fn(GetSpec(segs, x))
  {
    GetChangeFlat(segs, [], fn, x);
    assert segs + [] == segs;
  }

  // ---------------------------------------------------------------------
  // omit (src_js/json.ts:90-123)

  /** `splice(i, 1)` on a copy: a negative `i` counts from the end, and an
      index at or past the end removes nothing. */
  function Splice1(items: seq<JData>, i: int): (r: seq<JData>)
    ensures var s := Misc.SliceIndex(i, |items|);
      if s < |items| then |r| == |items| - 1 && r[..s] == items[..s] && r[s..] == items[s + 1..]
      else r == items
  {
    var s := Misc.SliceIndex(i, |items|);
    if s < |items| then items[..s] + items[s + 1..] else items
  }

  /** The inner `_omit` on a non-empty flattened path. Every container
      above the last segment keeps its slots off the path (KeepsOffPath);
      what happens to the container the last segment is applied to is
      OmitAtParent. */
  function OmitFlat(segs: seq<Seg>, x: JData): (r: JData)
    requires segs != []
    ensures !((segs[0].Idx? && x.Arr?) || (segs[0].Key? && x.Obj?)) ==> r == x
    ensures r == Null <==> x == Null
    ensures |segs| == 1 && segs[0].Key? && x.Obj? ==>
      r.Obj? && r.fields.Keys == x.fields.Keys - {segs[0].k} &&
      forall k :: k in r.fields ==> r.fields[k] == x.fields[k]
    ensures |segs| == 1 && segs[0].Idx? && x.Arr? ==> r == Arr(Splice1(x.items, segs[0].i))
    ensures |segs| > 1 && segs[0].Key? && x.Obj? ==>
      r.Obj? && r.fields.Keys == x.fields.Keys &&
      forall k :: k in x.fields && k != segs[0].k ==> r.fields[k] == x.fields[k]
    ensures |segs| > 1 && segs[0].Idx? && x.Arr? ==>
      r.Arr? && |r.items| >= |x.items| &&
      forall j :: 0 <= j < |x.items| && j != segs[0].i ==> r.items[j] == x.items[j]
    ensures KeepsOffPath(segs[..|segs| - 1], x, r)
    decreases segs
  {
    var n := |segs|;
    assert n > 1 ==> segs[..n - 1][0] == segs[0] && segs[..n - 1][1..] == segs[1..][..n - 2];
    match segs[0]
    case Idx(i) =>
      if !x.Arr? then x
      else if |segs| > 1 then
        if i < 0 then
          KeepsOffPathRefl(segs[..n - 1], x);
          x
        else Arr(Assign(x.items, i, OmitFlat(segs[1..], if i < |x.items| then x.items[i] else Null)))
      else Arr(Splice1(x.items, i))
    case Key(k) =>
      if !x.Obj? then x
      else if |segs| > 1 then
        if k in x.fields then Obj(x.fields[k := OmitFlat(segs[1..], x.fields[k])])
        else
          KeepsOffPathRefl(segs[..n - 1], x);
          x
      else Obj(x.fields - {k})
  }

  /** The container a path's prefix `p` addresses is what one-segment omit
      makes of the container `p` addressed before: the element is spliced
      out or the key deleted there, whatever the depth. */
  lemma {:induction false} OmitAtParent(p: seq<Seg>, s: Seg, x: JData)
    ensures GetSpec(p, OmitFlat(p + [s], x)) == OmitFlat([s], GetSpec(p, x))
    decreases p
  {
    if p == [] {
      assert p + [s] == [s];
    } else {
      var segs := p + [s];
      assert segs[0] == p[0] && segs[1..] == p[1..] + [s];
      var r := OmitFlat(segs, x);
      match Step(p[0], x)
      case None =>
      case Some(c) =>
        if (p[0].Idx? && p[0].i < 0) || (p[0].Key? && p[0].k !in x.fields) {
          assert r == x && c == Null;
        } else {
          var c' := OmitFlat(p[1..] + [s], c);
          if p[0].Idx? {
            assert r.items[p[0].i] == c';
          } else {
            assert r.fields[p[0].k] == c';
          }
          assert Step(p[0], r) == Some(c');
          if c != Null {
            OmitAtParent(p[1..], s, c);
          }
        }
    }
  }

  /** A path `d` that leaves the omitted path `s` at an object key reads the
      same before and after the omit. */
  lemma {:induction false} OmitElsewhere(s: seq<Seg>, d: seq<Seg>, j: nat, y: JData)
    requires j < |s| && j < |d| && s[..j] == d[..j]
    requires s[j].Key? && d[j].Key? && s[j] != d[j]
    ensures GetSpec(d, OmitFlat(s, y)) == GetSpec(d, y)
    decreases j
  {
    var r := OmitFlat(s, y);
    if j == 0 {
      assert Step(d[0], r) == Step(d[0], y);
    } else {
      assert s[0] == s[..j][0] == d[0];
      match Step(s[0], y)
      case None =>
      case Some(c) =>
        if !((s[0].Idx? && s[0].i < 0) || (s[0].Key? && s[0].k !in y.fields)) {
          var c' := OmitFlat(s[1..], c);
          if s[0].Idx? {
            assert r.items[s[0].i] == c';
          } else {
            assert r.fields[s[0].k] == c';
          }
          assert Step(d[0], r) == Some(c');
          assert s[1..][..j - 1] == s[..j][1..] == d[..j][1..] == d[1..][..j - 1];
          OmitElsewhere(s[1..], d[1..], j - 1, c);
        }
    }
  }

  /** `_omit`: the empty path gives null; otherwise the last segment's
      element or key is removed from the container the rest of the path
      addresses, and every container above it keeps its other slots. */
  function Omit(path: JPath, x: JData): (r: JData)
    ensures Flatten(path) == [] ==> r == Null
    ensures var segs := Flatten(path);
      segs != [] ==>
        GetSpec(segs[..|segs| - 1], r) == OmitFlat([segs[|segs| - 1]], GetSpec(segs[..|segs| - 1], x)) &&
        KeepsOffPath(segs[..|segs| - 1], x, r)
  {
    var segs := Flatten(path);
    if |segs| < 1 then Null
    else
      assert segs == segs[..|segs| - 1] + [segs[|segs| - 1]];
      OmitAtParent(segs[..|segs| - 1], segs[|segs| - 1], x);
      OmitFlat(segs, x)
  }

  /** Omitting a key that set has just added gives the object back. */
  lemma OmitUndoesSetOfNewKey(k: string, val: JData, fields: map<string, JData>)
    requires k !in fields
    ensures Omit(PStr(k), Set(PStr(k), val, Obj(fields))) == Obj(fields)
  {
    assert fields[k := val] - {k} == fields;
  }

  // ---------------------------------------------------------------------
  // move (src_js/json.ts:133-140)

  /** Two flattened paths share a prefix and then name two different keys
      of the same object. */
  ghost predicate DivergeAtKey(s: seq<Seg>, d: seq<Seg>) {
    exists j :: 0 <= j < |s| && j < |d| && s[..j] == d[..j] && s[j].Key? && d[j].Key? && s[j] != d[j]
  }

  /** `_move`: the value at the source path is set at the destination path,
      then the source path is omitted. When the source ends in a key, that
      key is gone from its object afterwards; when the two paths part at an
      object key, the destination holds what the source held. */
  method Move(srcPath: JPath, dstPath: JPath, x: JData) returns (r: JData)
    ensures r == Omit(srcPath, Set(dstPath, GetSpec(Flatten(srcPath), x), x))
    ensures var s := Flatten(srcPath);
      s != [] && s[|s| - 1].Key? ==>
        var c := GetSpec(s[..|s| - 1], r);
        !(c.Obj? && s[|s| - 1].k in c.fields)
    ensures DivergeAtKey(Flatten(srcPath), Flatten(dstPath)) && NoNegativeIndex(Flatten(dstPath)) ==>
      GetSpec(Flatten(dstPath), r) == GetSpec(Flatten(srcPath), x)
  {
    var srcVal := Get(srcPath, x);
    var withDst := Set(dstPath, srcVal, x);
    r := Omit(srcPath, withDst);
    var s, d := Flatten(srcPath), Flatten(dstPath);
    if DivergeAtKey(s, d) && NoNegativeIndex(d) {
      var j :| 0 <= j < |s| && j < |d| && s[..j] == d[..j] && s[j].Key? && d[j].Key? && s[j] != d[j];
      OmitElsewhere(s, d, j, withDst);
      GetSetFlat(d, srcVal, x);
    }
  }

  /** Moving between two different keys of an object renames the entry. */
  lemma MoveRenamesKey(src: string, dst: string, fields: map<string, JData>)
    requires src in fields && src != dst
    ensures Omit(PStr(src), Set(PStr(dst), GetSpec(Flatten(PStr(src)), Obj(fields)), Obj(fields))) ==
      Obj((fields - {src})[dst := fields[src]])
  {
    assert Flatten(PStr(src)) == [Key(src)];
    assert Flatten(PStr(dst)) == [Key(dst)];
    assert [Key(src)][1..] == [] && [Key(dst)][1..] == [];
    assert Step(Key(src), Obj(fields)) == Some(fields[src]);
    var v := GetSpec([Key(src)], Obj(fields));
    assert v == fields[src] by {
      if fields[src] != Null {
        assert GetSpec([Key(src)], Obj(fields)) == GetSpec([], fields[src]);
      }
    }
    assert ChangeFlat([Key(dst)], _ => v, Obj(fields)) ==
      Obj(fields[dst := ChangeFlat([], _ => v, if dst in fields then fields[dst] else Null)]);
    assert Set(PStr(dst), v, Obj(fields)) == Obj(fields[dst := v]);
    assert fields[dst := v] - {src} == (fields - {src})[dst := v];
  }
}
