/** The JSON Patch engine of src_js/patch.ts: RFC 6902 operations applied
    by a left fold to an immutable JSON value, addressed by RFC 6901
    pointers. Thrown errors become `Err` values carrying the message kind. */
module JsonPatch {
  import opened Wrappers
  import opened Strings
  import opened JsonValue
  import Misc

  /** The messages the engine throws. */
  datatype PatchError =
    | InvalidPointer       // "invalid pointer"
    | InvalidArrayIndex    // "invalid array index"
    | InvalidObjectKey     // "invalid object key"
    | InvalidDataType      // "invalid data type"
    | PathIsChildOfFrom    // "path can't be child of from"
    | InvalidValue         // "invalid value"

  /** A parsed pointer: its unescaped reference tokens. */
  type Pointer = seq<string>

  datatype Operation =
    | OpAdd(path: string, value: JData)
    | OpRemove(path: string)
    | OpReplace(path: string, value: JData)
    | OpMove(from: string, path: string)
    | OpCopy(from: string, path: string)
    | OpTest(path: string, value: JData)

  // ---------------------------------------------------------------------
  // Pointers (src_js/patch.ts:105-116)

  /** `s.replaceAll(ab, r)` for a two-character pattern `ab`: a left-to-right
      scan that skips past each match. */
  function ReplacePair(s: string, a: char, b: char, r: char): (t: string)
    ensures |t| <= |s|
  {
    if |s| < 2 then s
    else if s[0] == a && s[1] == b then [r] + ReplacePair(s[2..], a, b, r)
    else [s[0]] + ReplacePair(s[1..], a, b, r)
  }

  /** `unescapePointerSegment`: `~1` becomes `/` first, then `~0` becomes `~`,
      the order section 4 of RFC 6901 prescribes. */
  function UnescapeSegment(segment: string): string {
    ReplacePair(ReplacePair(segment, '~', '1', '/'), '~', '0', '~')
  }

  /** The escaping of section 3 of RFC 6901, the partner of UnescapeSegment. */
  function EscapeSegment(segment: string): (e: string)
    ensures '/' !in e
  {
    if segment == [] then []
    else
      (if segment[0] == '~' then "~0" else if segment[0] == '/' then "~1" else [segment[0]])
      + EscapeSegment(segment[1..])
  }

  /** Only `~` escaped: what is left of an escaped segment after the first
      unescaping pass. */
  function EscapeTilde(segment: string): string {
    if segment == [] then []
    else (if segment[0] == '~' then "~0" else [segment[0]]) + EscapeTilde(segment[1..])
  }

  lemma {:induction false} UnescapeFirstPass(segment: string)
    ensures ReplacePair(EscapeSegment(segment), '~', '1', '/') == EscapeTilde(segment)
  {
    if segment != [] {
      var c, t := segment[0], segment[1..];
      var et := EscapeSegment(t);
      UnescapeFirstPass(t);
      if c == '~' {
        assert EscapeSegment(segment) == "~0" + et;
        assert ("~0" + et)[1..] == "0" + et;
        if et != [] {
          assert ("0" + et)[1..] == et;
        }
      } else if c == '/' {
        assert EscapeSegment(segment) == "~1" + et;
        assert ("~1" + et)[2..] == et;
      } else {
        assert EscapeSegment(segment) == [c] + et;
        assert ([c] + et)[1..] == et;
      }
    }
  }

  lemma {:induction false} UnescapeSecondPass(segment: string)
    ensures ReplacePair(EscapeTilde(segment), '~', '0', '~') == segment
  {
    if segment != [] {
      var c, t := segment[0], segment[1..];
      var et := EscapeTilde(t);
      UnescapeSecondPass(t);
      if c == '~' {
        assert EscapeTilde(segment) == "~0" + et;
        assert ("~0" + et)[2..] == et;
      } else {
        assert EscapeTilde(segment) == [c] + et;
        assert ([c] + et)[1..] == et;
      }
      assert [c] + t == segment;
    }
  }

  /** Unescaping undoes escaping, for every segment. */
  lemma UnescapeEscape(segment: string)
    ensures UnescapeSegment(EscapeSegment(segment)) == segment
  {
    UnescapeFirstPass(segment);
    UnescapeSecondPass(segment);
  }

  /** Replacing `~1` first is what makes `~01` read as the text `~1`
      rather than as `/` (section 4 of RFC 6901). */
  lemma UnescapeOrder()
    ensures UnescapeSegment("~01") == "~1"
    ensures UnescapeSegment("~1") == "/"
    ensures UnescapeSegment("~0") == "~"
  {
    assert "~01"[1..] == "01";
    assert "01"[1..] == "1";
    assert "~1"[2..] == "";
    assert "~0"[2..] == "";
  }

  function UnescapeAll(segments: seq<string>): (r: seq<string>)
    ensures |r| == |segments|
    ensures forall i :: 0 <= i < |segments| ==> r[i] == UnescapeSegment(segments[i])
  {
    seq(|segments|, i requires 0 <= i < |segments| => UnescapeSegment(segments[i]))
  }

  /** `parsePointer`: the empty pointer is the whole document; any other
      pointer must start with `/`, and has one segment per `/`. */
  function ParsePointer(pointer: string): (r: Result<Pointer, PatchError>)
    ensures pointer == "" ==> r == Ok([])
    ensures pointer != "" ==> (r.Ok? <==> pointer[0] == '/')
    ensures r.Ok? ==> |r.value| == Count(pointer, '/')
    ensures r.Err? ==> r.error == InvalidPointer
  {
    if pointer == "" then Ok([])
    else
      var segments := Split(pointer, '/');
      SplitFirstEmpty(pointer, '/');
      if segments[0] != "" then Err(InvalidPointer)
      else Ok(UnescapeAll(segments[1..]))
  }

  function EscapeAll(p: Pointer): (r: seq<string>)
    ensures |r| == |p|
    ensures forall i :: 0 <= i < |p| ==> r[i] == EscapeSegment(p[i])
  {
    seq(|p|, i requires 0 <= i < |p| => EscapeSegment(p[i]))
  }

  /** The pointer text of a list of reference tokens. */
  function FormatPointer(p: Pointer): string {
    if p == [] then "" else Join([""] + EscapeAll(p), '/')
  }

  /** Every pointer is parsed back from its text. */
  lemma ParseFormatPointer(p: Pointer)
    ensures ParsePointer(FormatPointer(p)) == Ok(p)
  {
    if p != [] {
      var parts := [""] + EscapeAll(p);
      SplitJoin(parts, '/');
      var s := FormatPointer(p);
      assert |Split(s, '/')| >= 2;
      assert Split(s, '/')[1..] == EscapeAll(p);
      assert Split(s, '/')[0] == "";
      forall i | 0 <= i < |p|
        ensures UnescapeAll(EscapeAll(p))[i] == p[i]
      {
        UnescapeEscape(p[i]);
      }
      assert UnescapeAll(EscapeAll(p)) == p;
    }
  }

  // ---------------------------------------------------------------------
  // The slice the engine builds arrays from (src_js/patch.ts:118-123)

  /** What `islice(x, start, stop)` is meant to yield: `x[start..stop]`, with
      an absent or too large `stop` read as the length. */
  function Slice<T>(x: seq<T>, start: nat, stop: Option<nat>): (r: seq<T>)
    ensures var end := if stop.None? || stop.value > |x| then |x| else stop.value;
      |r| == (if start < end then end - start else 0) &&
      forall i :: 0 <= i < |r| ==> r[i] == x[start + i]
  {
    var end := if stop.None? || stop.value > |x| then |x| else stop.value;
    if start < end then x[start..end] else []
  }

  /** The generator as written: its loop tests `start < stop`, which no
      iteration changes. `fuel` bounds the number of iterations looked at;
      None means the loop was still running when the fuel ran out. */
  function IsliceAsWritten<T>(x: seq<T>, start: nat, stop: Option<nat>, fuel: nat): Option<seq<Option<T>>> {
    var end := if stop.None? || stop.value > |x| then |x| else stop.value;
    IsliceLoop(x, start, end, start, fuel)
  }

  function IsliceLoop<T>(x: seq<T>, start: nat, end: nat, i: nat, fuel: nat): Option<seq<Option<T>>>
    decreases fuel
  {
    if !(start < end) then Some([])
    else if fuel == 0 then None
    else
      match IsliceLoop(x, start, end, i + 1, fuel - 1)
      case None => None
      case Some(rest) => Some([Misc.At(x, i)] + rest)
  }

  lemma {:induction false} IsliceLoopRuns<T>(x: seq<T>, start: nat, end: nat, i: nat, fuel: nat)
    requires start < end
    ensures IsliceLoop(x, start, end, i, fuel) == None
    decreases fuel
  {
    if fuel > 0 {
      IsliceLoopRuns(x, start, end, i + 1, fuel - 1);
    }
  }

  /** As written the generator never finishes on a non-empty range: however
      many iterations are allowed, it is still running. The intended Slice
      of the same range has `end - start` elements. */
  lemma IsliceNeverFinishes<T>(x: seq<T>, start: nat, stop: Option<nat>, fuel: nat)
    requires start < (if stop.None? || stop.value > |x| then |x| else stop.value)
    ensures IsliceAsWritten(x, start, stop, fuel) == None
    ensures |Slice(x, start, stop)| > 0
  {
    var end := if stop.None? || stop.value > |x| then |x| else stop.value;
    IsliceLoopRuns(x, start, end, start, fuel);
  }

  /** The slices the engine takes are prefixes and suffixes. */
  lemma SliceEnds<T>(x: seq<T>, i: nat, j: nat)
    requires i <= |x| && j <= |x|
    ensures Slice(x, 0, Some(i)) == x[..i]
    ensures Slice(x, j, None) == x[j..]
  {
  }

  /** The two slices around an index put the sequence back together. */
  lemma SliceAround<T>(x: seq<T>, i: nat)
    requires i <= |x|
    ensures Slice(x, 0, Some(i)) + Slice(x, i, None) == x
  {
    assert Slice(x, 0, Some(i)) == x[..i];
    assert Slice(x, i, None) == x[i..];
  }

  /** The spread `[...islice(x, 0, i), v, ...islice(x, i + 1)]` the editors
      use to put a new child in the slot of an existing element. */
  function PutItem<T>(x: seq<T>, i: nat, v: T): (r: seq<T>)
    requires i < |x|
    ensures |r| == |x| && r[i] == v
    ensures forall j :: 0 <= j < |x| && j != i ==> r[j] == x[j]
  {
    SliceEnds(x, i, i + 1);
    Slice(x, 0, Some(i)) + [v] + Slice(x, i + 1, None)
  }

  /** `[...islice(x, 0, i), v, ...islice(x, i)]`: add's insertion. */
  function InsertItem<T>(x: seq<T>, i: nat, v: T): (r: seq<T>)
    requires i <= |x|
    ensures Inserted(x, r, i, v)
  {
    SliceEnds(x, i, i);
    Slice(x, 0, Some(i)) + [v] + Slice(x, i, None)
  }

  /** `[...islice(x, 0, i), ...islice(x, i + 1)]`: remove's deletion. */
  function RemoveItem<T>(x: seq<T>, i: nat): (r: seq<T>)
    requires i < |x|
    ensures Removed(x, r, i)
  {
    SliceEnds(x, i, i + 1);
    Slice(x, 0, Some(i)) + Slice(x, i + 1, None)
  }

  /** Putting back the element already there changes nothing, and a second
      put overrides the first. */
  lemma PutItemAgain<T>(x: seq<T>, i: nat, a: T, b: T)
    requires i < |x|
    ensures PutItem(x, i, x[i]) == x
    ensures PutItem(PutItem(x, i, a), i, b) == PutItem(x, i, b)
  {
    assert PutItem(x, i, x[i]) == x;
    var y := PutItem(PutItem(x, i, a), i, b);
    assert forall j :: 0 <= j < |x| ==> y[j] == PutItem(x, i, b)[j];
  }

  /** Inserting the removed element where it was restores the sequence. */
  lemma InsertRemoved<T>(x: seq<T>, i: nat)
    requires i < |x|
    ensures InsertItem(RemoveItem(x, i), i, x[i]) == x
  {
    var y := RemoveItem(x, i);
    assert x == x[..i] + [x[i]] + x[i + 1..];
  }

  // ---------------------------------------------------------------------
  // The recursive editors (src_js/patch.ts:125-278)

  /** The array-index rule every array step shares: strictParseInt of the
      segment, between 0 and length-1. */
  function ArrayIndex(key: string, len: nat): (r: Result<nat, PatchError>)
    ensures r.Ok? <==> (Misc.StrictParseInt(key).Some? && 0 <= Misc.StrictParseInt(key).value < len)
    ensures r.Ok? ==> r.value == Misc.StrictParseInt(key).value
    ensures r.Err? ==> r.error == InvalidArrayIndex
  {
    var index := Misc.StrictParseInt(key);
    if index.None? || index.value > len - 1 || index.value < 0 then Err(InvalidArrayIndex)
    else Ok(index.value)
  }

  /** `_get`: the value a pointer addresses. */
  function Get(path: Pointer, data: JData): (r: Result<JData, PatchError>)
    ensures r.Err? ==> r.error in {InvalidArrayIndex, InvalidObjectKey, InvalidDataType}
    decreases path
  {
    if |path| < 1 then Ok(data)
    else
      var key := path[0];
      match data
      case Arr(items) =>
        var index :- ArrayIndex(key, |items|);
        Get(path[1..], items[index])
      case Obj(fields) =>
        if key !in fields then Err(InvalidObjectKey)
        else Get(path[1..], fields[key])
      case _ => Err(InvalidDataType)
  }

  /** The pointer to the container the last token applies to. */
  function Parent(path: Pointer): Pointer
    requires path != []
  {
    path[..|path| - 1]
  }

  /** The token the innermost edit applies to. */
  function Last(path: Pointer): string
    requires path != []
  {
    path[|path| - 1]
  }

  /** `after` differs from the container `before` in at most the one slot
      `key` addresses: the same kind, the same size or key set, and every
      other element or entry equal. */
  ghost predicate OnlySlotChanged(before: JData, after: JData, key: string) {
    match before
    case Arr(a) =>
      after.Arr? && |after.items| == |a| &&
      forall j :: 0 <= j < |a| && Misc.StrictParseInt(key) != Some(j) ==> after.items[j] == a[j]
    case Obj(f) =>
      after.Obj? && after.fields.Keys == f.Keys &&
      forall k :: k in f && k != key ==> after.fields[k] == f[k]
    case _ => false
  }

  /** Along `path`, every container differs only in the slot the path goes
      through, and that slot's old and new children are related in the same
      way by the rest of the path. */
  ghost predicate OnlyPathChanged(before: JData, after: JData, path: Pointer)
    decreases path
  {
    path == [] ||
    (OnlySlotChanged(before, after, path[0]) &&
     match before
     case Arr(a) =>
       ArrayIndex(path[0], |a|).Ok? &&
       OnlyPathChanged(a[ArrayIndex(path[0], |a|).value], after.items[ArrayIndex(path[0], |a|).value], path[1..])
     case Obj(f) =>
       path[0] in f && OnlyPathChanged(f[path[0]], after.fields[path[0]], path[1..])
     case _ => false)
  }

  /** `b` is `a` with `v` inserted at `i`, later elements shifted up. */
  ghost predicate Inserted<T>(a: seq<T>, b: seq<T>, i: int, v: T) {
    0 <= i <= |a| && |b| == |a| + 1 && b[..i] == a[..i] && b[i] == v && b[i + 1..] == a[i..]
  }

  /** `b` is `a` without its element at `i`, later elements shifted down. */
  ghost predicate Removed<T>(a: seq<T>, b: seq<T>, i: int) {
    0 <= i < |a| && |b| == |a| - 1 && b[..i] == a[..i] && b[i..] == a[i + 1..]
  }

  /** `g` is `f` with `key` bound to `v`, whether or not it was bound before. */
  ghost predicate KeySet<T>(f: map<string, T>, g: map<string, T>, key: string, v: T) {
    g.Keys == f.Keys + {key} && g[key] == v &&
    forall k :: k in f && k != key ==> g[k] == f[k]
  }

  /** `g` is `f` without `key`. */
  ghost predicate KeyRemoved<T>(f: map<string, T>, g: map<string, T>, key: string) {
    g.Keys == f.Keys - {key} && forall k :: k in g ==> g[k] == f[k]
  }

  /** The last-token branch of `_add`: an array gets the value appended for
      `-` or inserted before an existing index, an object gets the key set. */
  function AddLast(key: string, val: JData, data: JData): (r: Result<JData, PatchError>)
    ensures r.Ok? <==> data.Obj? || (data.Arr? && (key == "-" || ArrayIndex(key, |data.items|).Ok?))
    ensures r.Ok? && data.Arr? ==>
      r.value.Arr? &&
      if key == "-" then r.value.items == data.items + [val]
      else Inserted(data.items, r.value.items, Misc.StrictParseInt(key).value, val)
    ensures r.Ok? && data.Obj? ==> r.value.Obj? && KeySet(data.fields, r.value.fields, key, val)
    ensures r.Err? ==> r.error == (if data.Arr? then InvalidArrayIndex else InvalidDataType)
  {
    match data
    case Arr(items) =>
      if key == "-" then Ok(Arr(items + [val]))
      else
        var index :- ArrayIndex(key, |items|);
        Ok(Arr(InsertItem(items, index, val)))
    case Obj(fields) => Ok(Obj(fields[key := val]))
    case _ => Err(InvalidDataType)
  }

  /** The last-token branch of `_remove`: the element is dropped and later
      ones shift down, or the key is deleted. */
  function RemoveLast(key: string, data: JData): (r: Result<JData, PatchError>)
    ensures r.Ok? <==> Get([key], data).Ok?
    ensures r.Ok? && data.Arr? ==>
      r.value.Arr? && Removed(data.items, r.value.items, Misc.StrictParseInt(key).value)
    ensures r.Ok? && data.Obj? ==> r.value.Obj? && KeyRemoved(data.fields, r.value.fields, key)
    ensures r.Err? ==> r.error == Get([key], data).error
  {
    match data
    case Arr(items) =>
      var index :- ArrayIndex(key, |items|);
      Ok(Arr(RemoveItem(items, index)))
    case Obj(fields) =>
      if key !in fields then Err(InvalidObjectKey)
      else Ok(Obj(fields - {key}))
    case _ => Err(InvalidDataType)
  }

  /** The last-token branch of `_replace`: the existing element or entry
      gets the value, and nothing else in the container changes. */
  function ReplaceLast(key: string, val: JData, data: JData): (r: Result<JData, PatchError>)
    ensures r.Ok? <==> Get([key], data).Ok?
    ensures r.Ok? ==> OnlySlotChanged(data, r.value, key) && Get([key], r.value) == Ok(val)
    ensures r.Err? ==> r.error == Get([key], data).error
  {
    match data
    case Arr(items) =>
      var index :- ArrayIndex(key, |items|);
      Ok(Arr(PutItem(items, index, val)))
    case Obj(fields) =>
      if key !in fields then Err(InvalidObjectKey)
      else Ok(Obj(fields[key := val]))
    case _ => Err(InvalidDataType)
  }

  /** `_add`. The value ends up where the pointer addresses (unless the last
      token is the append marker `-`). The container the last token is
      applied to gets AddLast's insertion, append or key; every container
      above it changes only in the slot on the path. */
  function Add(path: Pointer, val: JData, data: JData): (r: Result<JData, PatchError>)
    ensures r.Ok? && (path == [] || Last(path) != "-") ==> Get(path, r.value) == Ok(val)
    ensures r.Ok? && path != [] ==>
      Get(Parent(path), data).Ok? &&
      Get(Parent(path), r.value) == AddLast(Last(path), val, Get(Parent(path), data).value) &&
      OnlyPathChanged(data, r.value, Parent(path))
    decreases path
  {
    if |path| < 1 then Ok(val)
    else
      var key := path[0];
      if |path| < 2 then AddLast(key, val, data)
      else
        assert Parent(path)[0] == key && Parent(path)[1..] == Parent(path[1..]);
        match data
        case Arr(items) =>
          var index :- ArrayIndex(key, |items|);
          var child :- Add(path[1..], val, items[index]);
          Ok(Arr(PutItem(items, index, child)))
        case Obj(fields) =>
          if key !in fields then Err(InvalidObjectKey)
          else
            var child :- Add(path[1..], val, fields[key]);
            Ok(Obj(fields[key := child]))
        case _ => Err(InvalidDataType)
  }

  /** `_remove`. It succeeds exactly where Get does; the container the last
      token is applied to loses that element or key, and every container
      above it changes only in the slot on the path. */
  function Remove(path: Pointer, data: JData): (r: Result<JData, PatchError>)
    ensures r.Ok? <==> Get(path, data).Ok?
    ensures r.Ok? && path != [] ==>
      Get(Parent(path), data).Ok? &&
      Get(Parent(path), r.value) == RemoveLast(Last(path), Get(Parent(path), data).value) &&
      OnlyPathChanged(data, r.value, Parent(path))
    decreases path
  {
    if |path| < 1 then Ok(Null)
    else
      var key := path[0];
      if |path| < 2 then RemoveLast(key, data)
      else
        assert Parent(path)[0] == key && Parent(path)[1..] == Parent(path[1..]);
        match data
        case Arr(items) =>
          var index :- ArrayIndex(key, |items|);
          var child :- Remove(path[1..], items[index]);
          Ok(Arr(PutItem(items, index, child)))
        case Obj(fields) =>
          if key !in fields then Err(InvalidObjectKey)
          else
            var child :- Remove(path[1..], fields[key]);
            Ok(Obj(fields[key := child]))
        case _ => Err(InvalidDataType)
  }

  /** `_replace`. It succeeds exactly where Get does and the value is then
      found at the pointer; the container the last token is applied to
      changes only in that slot, and so does every container above it. */
  function Replace(path: Pointer, val: JData, data: JData): (r: Result<JData, PatchError>)
    ensures r.Ok? <==> Get(path, data).Ok?
    ensures r.Ok? ==> Get(path, r.value) == Ok(val)
    ensures r.Ok? && path != [] ==>
      Get(Parent(path), data).Ok? &&
      Get(Parent(path), r.value) == ReplaceLast(Last(path), val, Get(Parent(path), data).value) &&
      OnlyPathChanged(data, r.value, Parent(path))
    decreases path
  {
    if |path| < 1 then Ok(val)
    else
      var key := path[0];
      if |path| < 2 then ReplaceLast(key, val, data)
      else
        assert Parent(path)[0] == key && Parent(path)[1..] == Parent(path[1..]);
        match data
        case Arr(items) =>
          var index :- ArrayIndex(key, |items|);
          var child :- Replace(path[1..], val, items[index]);
          Ok(Arr(PutItem(items, index, child)))
        case Obj(fields) =>
          if key !in fields then Err(InvalidObjectKey)
          else
            var child :- Replace(path[1..], val, fields[key]);
            Ok(Obj(fields[key := child]))
        case _ => Err(InvalidDataType)
  }

  // ---------------------------------------------------------------------
  // Operations and the fold (src_js/patch.ts:48-103)

  /** `opAdd`. */
  function ApplyAdd(p: string, v: JData, data: JData): Result<JData, PatchError> {
    var path :- ParsePointer(p);
    Add(path, v, data)
  }

  /** `opRemove`. */
  function ApplyRemove(p: string, data: JData): Result<JData, PatchError> {
    var path :- ParsePointer(p);
    Remove(path, data)
  }

  /** `opReplace`. */
  function ApplyReplace(p: string, v: JData, data: JData): Result<JData, PatchError> {
    var path :- ParsePointer(p);
    Replace(path, v, data)
  }

  /** `opMove`: refused when `path` lies strictly below `from`; otherwise
      the value at `from` is added at `path` of the document without it. */
  function ApplyMove(f: string, p: string, data: JData): Result<JData, PatchError> {
    var from :- ParsePointer(f);
    var path :- ParsePointer(p);
    if |path| > |from| && from == path[..|from|] then Err(PathIsChildOfFrom)
    else
      var val :- Get(from, data);
      var removed :- Remove(from, data);
      Add(path, val, removed)
  }

  /** `opCopy`. */
  function ApplyCopy(f: string, p: string, data: JData): Result<JData, PatchError> {
    var from :- ParsePointer(f);
    var path :- ParsePointer(p);
    var val :- Get(from, data);
    Add(path, val, data)
  }

  /** `opTest`. */
  function ApplyTest(p: string, v: JData, data: JData): Result<JData, PatchError> {
    var path :- ParsePointer(p);
    var val :- Get(path, data);
    if val != v then Err(InvalidValue) else Ok(data)
  }

  /** One operation, dispatched on its kind as the `operations` table does. */
  function ApplyOperation(op: Operation, data: JData): Result<JData, PatchError> {
    match op
    case OpAdd(p, v) => ApplyAdd(p, v, data)
    case OpRemove(p) => ApplyRemove(p, data)
    case OpReplace(p, v) => ApplyReplace(p, v, data)
    case OpMove(f, p) => ApplyMove(f, p, data)
    case OpCopy(f, p) => ApplyCopy(f, p, data)
    case OpTest(p, v) => ApplyTest(p, v, data)
  }

  /** `patch`: the operations applied in order; the first error aborts. */
  function Patch(diff: seq<Operation>, data: JData): Result<JData, PatchError>
    decreases |diff|
  {
    if diff == [] then Ok(data)
    else
      var acc :- Patch(diff[..|diff| - 1], data);
      ApplyOperation(diff[|diff| - 1], acc)
  }

  // ---------------------------------------------------------------------
  // Properties of the editors

  /** The empty pointer addresses the whole document: add and replace return
      the value, remove returns null. */
  lemma EmptyPath(val: JData, data: JData)
    ensures Get([], data) == Ok(data)
    ensures Add([], val, data) == Ok(val)
    ensures Replace([], val, data) == Ok(val)
    ensures Remove([], data) == Ok(Null)
  {
  }

  /** Resolving `p + q` is resolving `p`, then `q` inside the result. */
  lemma {:induction false} GetConcat(p: Pointer, q: Pointer, data: JData)
    ensures Get(p + q, data) ==
      match Get(p, data)
      case Ok(x) => Get(q, x)
      case Err(e) => Err(e)
    decreases p
  {
    if p == [] {
      assert p + q == q;
    } else {
      assert (p + q)[0] == p[0];
      assert (p + q)[1..] == p[1..] + q;
      match data
      case Arr(items) =>
        var index := ArrayIndex(p[0], |items|);
        if index.Ok? {
          GetConcat(p[1..], q, items[index.value]);
        } else {
          assert Get(p, data) == Err(InvalidArrayIndex);
        }
      case Obj(fields) =>
        if p[0] in fields {
          GetConcat(p[1..], q, fields[p[0]]);
        }
      case _ =>
    }
  }

  /** Where add can put a value: the pointer is empty, or its parent exists
      and is an object, or an array whose index is `-` or an existing index. */
  ghost predicate AddTarget(path: Pointer, data: JData) {
    path == [] ||
    match Get(path[..|path| - 1], data)
    case Ok(c) =>
      c.Obj? || (c.Arr? && (path[|path| - 1] == "-" || ArrayIndex(path[|path| - 1], |c.items|).Ok?))
    case Err(_) => false
  }

  /** Add succeeds exactly on the targets AddTarget describes. */
  lemma {:induction false} AddSucceedsIff(path: Pointer, val: JData, data: JData)
    ensures Add(path, val, data).Ok? <==> AddTarget(path, data)
    decreases path
  {
    if |path| >= 2 {
      var n := |path|;
      assert path[..n - 1][0] == path[0];
      assert path[..n - 1][1..] == path[1..][..n - 2];
      assert path[1..][n - 2] == path[n - 1];
      match data
      case Arr(items) =>
        var index := ArrayIndex(path[0], |items|);
        if index.Ok? {
          AddSucceedsIff(path[1..], val, items[index.value]);
        }
      case Obj(fields) =>
        if path[0] in fields {
          AddSucceedsIff(path[1..], val, fields[path[0]]);
        }
      case _ =>
    }
  }

  /** The value at a pointer can be put back after removing it: remove
      followed by add of the removed value restores the document, as long as
      the slot is an object key or an array element that is not the last
      (add does not accept the index equal to the length). */
  ghost predicate Reinsertable(path: Pointer, data: JData)
    requires path != []
  {
    match Get(path[..|path| - 1], data)
    case Ok(c) =>
      c.Obj? || (c.Arr? && |c.items| > 0 && ArrayIndex(path[|path| - 1], |c.items| - 1).Ok?)
    case Err(_) => false
  }

  lemma {:induction false} RemoveThenAddRestores(path: Pointer, data: JData)
    requires path != []
    requires Get(path, data).Ok?
    requires Reinsertable(path, data)
    ensures Remove(path, data).Ok?
    ensures Add(path, Get(path, data).value, Remove(path, data).value) == Ok(data)
    decreases path
  {
    var n := |path|;
    var key := path[0];
    if n == 1 {
      match data
      case Arr(items) => RemoveThenAddArrayLast(key, items);
      case Obj(fields) => RemoveThenAddObjectLast(key, fields);
    } else {
      assert path[..n - 1][0] == path[0];
      assert path[..n - 1][1..] == path[1..][..n - 2];
      assert path[1..][n - 2] == path[n - 1];
      match data
      case Arr(items) =>
        var i := ArrayIndex(key, |items|).value;
        RemoveThenAddRestores(path[1..], items[i]);
        RemoveThenAddArrayStep(path, Get(path, data).value, items);
      case Obj(fields) =>
        RemoveThenAddRestores(path[1..], fields[key]);
        RemoveThenAddObjectStep(path, Get(path, data).value, fields);
    }
  }

  lemma RemoveThenAddArrayLast(key: string, items: seq<JData>)
    requires |items| > 0 && ArrayIndex(key, |items| - 1).Ok?
    ensures var i := ArrayIndex(key, |items|).value;
      Remove([key], Arr(items)).Ok? && Add([key], items[i], Remove([key], Arr(items)).value) == Ok(Arr(items))
  {
    var i := ArrayIndex(key, |items|).value;
    InsertRemoved(items, i);
  }

  lemma RemoveThenAddObjectLast(key: string, fields: map<string, JData>)
    requires key in fields
    ensures Remove([key], Obj(fields)).Ok? && Add([key], fields[key], Remove([key], Obj(fields)).value) == Ok(Obj(fields))
  {
    assert Remove([key], Obj(fields)) == Ok(Obj(fields - {key}));
    assert (fields - {key})[key := fields[key]] == fields;
  }

  lemma RemoveThenAddArrayStep(path: Pointer, val: JData, items: seq<JData>)
    requires |path| >= 2 && ArrayIndex(path[0], |items|).Ok?
    requires var i := ArrayIndex(path[0], |items|).value;
      Remove(path[1..], items[i]).Ok? && Add(path[1..], val, Remove(path[1..], items[i]).value) == Ok(items[i])
    ensures Remove(path, Arr(items)).Ok? && Add(path, val, Remove(path, Arr(items)).value) == Ok(Arr(items))
  {
    var i := ArrayIndex(path[0], |items|).value;
    var c' := Remove(path[1..], items[i]).value;
    PutItemAgain(items, i, c', items[i]);
  }

  lemma RemoveThenAddObjectStep(path: Pointer, val: JData, fields: map<string, JData>)
    requires |path| >= 2 && path[0] in fields
    requires Remove(path[1..], fields[path[0]]).Ok?
    requires Add(path[1..], val, Remove(path[1..], fields[path[0]]).value) == Ok(fields[path[0]])
    ensures Remove(path, Obj(fields)).Ok? && Add(path, val, Remove(path, Obj(fields)).value) == Ok(Obj(fields))
  {
    var key := path[0];
    var c' := Remove(path[1..], fields[key]).value;
    assert Remove(path, Obj(fields)) == Ok(Obj(fields[key := c']));
    assert fields[key := c'][key := fields[key]] == fields;
  }

  /** Replacing twice with the same value is replacing once. */
  lemma {:induction false} ReplaceIdempotent(path: Pointer, val: JData, data: JData)
    requires Replace(path, val, data).Ok?
    ensures Replace(path, val, Replace(path, val, data).value) == Replace(path, val, data)
    decreases path
  {
    if path != [] {
      var key := path[0];
      match data
      case Arr(items) =>
        var i := ArrayIndex(key, |items|).value;
        if |path| >= 2 {
          ReplaceIdempotent(path[1..], val, items[i]);
        }
        ReplaceIdempotentArrayStep(path, val, items);
      case Obj(fields) =>
        if |path| >= 2 {
          ReplaceIdempotent(path[1..], val, fields[key]);
        }
        ReplaceIdempotentObjectStep(path, val, fields);
    }
  }

  lemma ReplaceIdempotentArrayStep(path: Pointer, val: JData, items: seq<JData>)
    requires path != [] && ArrayIndex(path[0], |items|).Ok?
    requires var i := ArrayIndex(path[0], |items|).value;
      |path| >= 2 ==>
        Replace(path[1..], val, items[i]).Ok? &&
        Replace(path[1..], val, Replace(path[1..], val, items[i]).value) == Replace(path[1..], val, items[i])
    ensures Replace(path, val, Arr(items)).Ok?
    ensures Replace(path, val, Replace(path, val, Arr(items)).value) == Replace(path, val, Arr(items))
  {
    var i := ArrayIndex(path[0], |items|).value;
    var c := if |path| == 1 then val else Replace(path[1..], val, items[i]).value;
    PutItemAgain(items, i, c, c);
  }

  lemma ReplaceIdempotentObjectStep(path: Pointer, val: JData, fields: map<string, JData>)
    requires path != [] && path[0] in fields
    requires |path| >= 2 ==>
      Replace(path[1..], val, fields[path[0]]).Ok? &&
      Replace(path[1..], val, Replace(path[1..], val, fields[path[0]]).value) == Replace(path[1..], val, fields[path[0]])
    ensures Replace(path, val, Obj(fields)).Ok?
    ensures Replace(path, val, Replace(path, val, Obj(fields)).value) == Replace(path, val, Obj(fields))
  {
    var key := path[0];
    var c := if |path| == 1 then val else Replace(path[1..], val, fields[key]).value;
    assert Replace(path, val, Obj(fields)) == Ok(Obj(fields[key := c]));
    assert fields[key := c][key := c] == fields[key := c];
  }

  // ---------------------------------------------------------------------
  // Properties of the operations and the fold

  /** Applying `d1 + d2` is applying `d2` to the result of `d1`; an error in
      `d1` is the error of the whole. */
  lemma {:induction false} PatchConcat(d1: seq<Operation>, d2: seq<Operation>, data: JData)
    ensures Patch(d1 + d2, data) ==
      match Patch(d1, data)
      case Ok(x) => Patch(d2, x)
      case Err(e) => Err(e)
    decreases |d2|
  {
    if d2 == [] {
      assert d1 + d2 == d1;
    } else {
      var n := |d2|;
      var init, last := d2[..n - 1], d2[n - 1];
      assert d1 + d2 == (d1 + init) + [last];
      assert d2 == init + [last];
      PatchConcat(d1, init, data);
      PatchSnoc(d1 + init, last, data);
      if Patch(d1, data).Ok? {
        PatchSnoc(init, last, Patch(d1, data).value);
      }
    }
  }

  /** The last operation is applied to what the others produced. */
  lemma PatchSnoc(d: seq<Operation>, op: Operation, data: JData)
    ensures Patch(d + [op], data) ==
      match Patch(d, data)
      case Ok(x) => ApplyOperation(op, x)
      case Err(e) => Err(e)
  {
    assert (d + [op])[..|d|] == d;
  }

  /** The empty patch is the identity, and a one-operation patch is that
      operation. */
  lemma PatchUnits(op: Operation, data: JData)
    ensures Patch([], data) == Ok(data)
    ensures Patch([op], data) == ApplyOperation(op, data)
  {
    assert [op][..0] == [];
  }

  /** A value cannot be moved into its own descendant: whatever the document,
      the move is refused before anything is looked up. */
  lemma MoveIntoChildFails(from: Pointer, below: Pointer, data: JData)
    requires below != []
    ensures ApplyMove(FormatPointer(from), FormatPointer(from + below), data) == Err(PathIsChildOfFrom)
  {
    ParseFormatPointer(from);
    ParseFormatPointer(from + below);
    assert (from + below)[..|from|] == from;
  }

  /** The move guard is strict, so moving a value onto its own pointer is
      accepted; where the value can be put back it leaves the document as
      it was. */
  lemma MoveToSamePath(p: Pointer, data: JData)
    requires Get(p, data).Ok?
    requires p == [] || Reinsertable(p, data)
    ensures ApplyMove(FormatPointer(p), FormatPointer(p), data) == Ok(data)
  {
    ParseFormatPointer(p);
    if p != [] {
      RemoveThenAddRestores(p, data);
    }
  }

  /** A move that passes the guard puts the value found at `from` at `path`
      of the document with `from` removed. */
  lemma MoveOperation(from: Pointer, path: Pointer, data: JData)
    requires !(|path| > |from| && from == path[..|from|])
    requires Get(from, data).Ok?
    requires path == [] || path[|path| - 1] != "-"
    ensures var r := ApplyMove(FormatPointer(from), FormatPointer(path), data);
      r == Add(path, Get(from, data).value, Remove(from, data).value) &&
      (r.Ok? ==> Get(path, r.value) == Get(from, data))
  {
    var f, p := FormatPointer(from), FormatPointer(path);
    ParseFormatPointer(from);
    ParseFormatPointer(path);
    assert ParsePointer(f) == Ok(from) && ParsePointer(p) == Ok(path);
    var val := Get(from, data).value;
    var removed := Remove(from, data);
    assert removed.Ok?;
    assert ApplyMove(f, p, data) == Add(path, val, removed.value);
  }

  /** A copy puts the value found at `from` at `path`; it succeeds exactly
      when `from` resolves and `path` is a place add accepts. */
  lemma CopyOperation(from: Pointer, path: Pointer, data: JData)
    requires path == [] || path[|path| - 1] != "-"
    ensures var r := ApplyCopy(FormatPointer(from), FormatPointer(path), data);
      (r.Ok? <==> Get(from, data).Ok? && AddTarget(path, data)) &&
      (r.Ok? ==> Get(path, r.value) == Get(from, data))
  {
    ParseFormatPointer(from);
    ParseFormatPointer(path);
    if Get(from, data).Ok? {
      AddSucceedsIff(path, Get(from, data).value, data);
    }
  }

  /** A test leaves the document unchanged when the value at the pointer
      equals the expected one, and fails otherwise. */
  lemma TestOperation(pointer: string, value: JData, data: JData)
    ensures var r := ApplyTest(pointer, value, data);
      (r.Ok? <==> ParsePointer(pointer).Ok? && Get(ParsePointer(pointer).value, data) == Ok(value)) &&
      (r.Ok? ==> r.value == data) &&
      (ParsePointer(pointer).Ok? && Get(ParsePointer(pointer).value, data).Ok? && r.Err? ==> r.error == InvalidValue)
  {
  }

  // ---------------------------------------------------------------------
  // Where the engine departs from RFC 6902

  /** Section 4.1 of RFC 6902 lets add insert at an index equal to the array
      length; the engine refuses it, so adding `/0` to an empty array fails
      (the case at test_jest/patch.test.ts:36-40), while `-` appends. */
  lemma AddAtLengthRejected(val: JData)
    ensures Add(["0"], val, Arr([])) == Err(InvalidArrayIndex)
    ensures Add(["-"], val, Arr([])) == Ok(Arr([val]))
  {
    assert "0"[..1] == "0";
    assert Misc.StrictParseInt("0") == Some(0);
    assert [] + [val] == [val];
  }

  /** Array indices are read with strictParseInt, so `+1` and `01` address
      index 1, which section 4 of RFC 6901 does not allow. */
  lemma LooseIndexAccepted(a: JData, b: JData)
    ensures Get(["+1"], Arr([a, b])) == Ok(b)
    ensures Get(["01"], Arr([a, b])) == Ok(b)
  {
    Misc.StrictParseIntLoose();
  }
}
