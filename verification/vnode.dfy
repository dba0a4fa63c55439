/** The virtual-node helpers of src_js/vnode.ts. A node is an array
    `[tag, data?, ...children]` whose first element is the tag string and
    whose optional second element is a data object; a child is a string, a
    node, or a plain list of children. */
module VNode {
  import opened Wrappers
  import opened JsonValue

  /** The elements of a node; the source's VNode type guarantees a tag. */
  type Node = seq<JData>

  predicate IsTagged(node: Node) {
    |node| >= 1 && node[0].Str?
  }

  /** `isVNodeWithoutData`. */
  predicate IsVNodeWithoutData(node: Node) {
    |node| < 2 || !IsObject(node[1])
  }

  /** `isVNodeWithData`. */
  predicate IsVNodeWithData(node: Node) {
    |node| > 1 && IsObject(node[1])
  }

  /** `isVNode`: a non-empty array whose first element is a string. */
  predicate IsVNode(child: JData) {
    IsArray(child) && |child.items| > 0 && IsString(child.items[0])
  }

  /** Every node is of exactly one of the two shapes. */
  lemma WithDataIffNotWithout(node: Node)
    ensures IsVNodeWithData(node) <==> !IsVNodeWithoutData(node)
  {
  }

  /** Where the children start: after the data object when there is one. */
  function ChildrenStart(node: Node): nat {
    if IsVNodeWithData(node) then 2 else 1
  }

  /** `getVNodeChildren`: the node without its tag and data. */
  function GetVNodeChildren(node: Node): (r: seq<JData>)
    ensures IsTagged(node) ==> node == node[..ChildrenStart(node)] + r
    ensures IsTagged(node) && IsVNodeWithoutData(node) ==> r == node[1..]
  {
    var start := ChildrenStart(node);
    if start <= |node| then node[start..] else []
  }

  /** A child the source's VNodeChild type allows: a string, a node, or a
      list of such children. */
  predicate ValidChild(child: JData)
    decreases child
  {
    child.Str? || IsVNode(child) ||
    (child.Arr? && forall i :: 0 <= i < |child.items| ==> ValidChild(child.items[i]))
  }

  predicate ValidChildren(children: seq<JData>) {
    forall i :: 0 <= i < |children| ==> ValidChild(children[i])
  }

  /** A string or a node: what flattening keeps. */
  predicate IsLeaf(child: JData) {
    IsString(child) || IsVNode(child)
  }

  /** `flattenVNodeChildren`: strings and nodes in order, nested lists
      spliced in place. */
  function Flatten(children: seq<JData>): seq<JData>
    requires ValidChildren(children)
    decreases children
  {
    if children == [] then []
    else
      var c := children[0];
      assert ValidChildren(children[1..]) by {
        forall i | 0 <= i < |children[1..]|
          ensures children[1..][i] == children[i + 1]
        {
        }
      }
      (if IsLeaf(c) then [c] else Flatten(c.items)) + Flatten(children[1..])
  }

  lemma ValidAppend(a: seq<JData>, b: seq<JData>)
    ensures ValidChildren(a + b) <==> ValidChildren(a) && ValidChildren(b)
  {
    assert forall i :: 0 <= i < |a| ==> (a + b)[i] == a[i];
    assert forall i :: 0 <= i < |b| ==> (a + b)[|a| + i] == b[i];
  }

  lemma {:induction false} FlattenAppend(a: seq<JData>, b: seq<JData>)
    requires ValidChildren(a) && ValidChildren(b)
    ensures ValidChildren(a + b)
    ensures Flatten(a + b) == Flatten(a) + Flatten(b)
    decreases a
  {
    ValidAppend(a, b);
    if a == [] {
      assert a + b == b;
    } else {
      assert a == [a[0]] + a[1..];
      ValidAppend([a[0]], a[1..]);
      assert (a + b)[0] == a[0];
      assert (a + b)[1..] == a[1..] + b;
      FlattenAppend(a[1..], b);
    }
  }

  /** Flattening keeps only strings and nodes. */
  lemma {:induction false} FlattenLeaves(children: seq<JData>)
    requires ValidChildren(children)
    ensures forall i :: 0 <= i < |Flatten(children)| ==> IsLeaf(Flatten(children)[i])
    decreases children
  {
    if children != [] {
      var c := children[0];
      assert ValidChildren(children[1..]) by {
        forall i | 0 <= i < |children[1..]|
          ensures children[1..][i] == children[i + 1]
        {
        }
      }
      FlattenLeaves(children[1..]);
      if !IsLeaf(c) {
        FlattenLeaves(c.items);
      }
    }
  }

  /** A list of strings and nodes is already flat, so flattening twice is
      flattening once. */
  lemma {:induction false} FlattenOfLeaves(children: seq<JData>)
    requires forall i :: 0 <= i < |children| ==> IsLeaf(children[i])
    ensures ValidChildren(children)
    ensures Flatten(children) == children
    decreases children
  {
    if children != [] {
      FlattenOfLeaves(children[1..]);
      assert [children[0]] + children[1..] == children;
    }
  }

  lemma FlattenIdempotent(children: seq<JData>)
    requires ValidChildren(children)
    ensures ValidChildren(Flatten(children))
    ensures Flatten(Flatten(children)) == Flatten(children)
  {
    FlattenLeaves(children);
    FlattenOfLeaves(Flatten(children));
  }

  /** `getFlatVNodeChildren`: the loop over the children that pushes
      strings and nodes and splices the flattening of plain lists. */
  method GetFlatVNodeChildren(node: Node) returns (children: seq<JData>)
    requires IsTagged(node)
    requires ValidChildren(GetVNodeChildren(node))
    ensures children == Flatten(GetVNodeChildren(node))
  {
    children := [];
    var childrenStart := ChildrenStart(node);
    var i := childrenStart;
    ghost var all := GetVNodeChildren(node);
    assert all == node[childrenStart..];
    while i < |node|
      invariant childrenStart <= i <= |node|
      invariant ValidChildren(all[..i - childrenStart])
      invariant children == Flatten(all[..i - childrenStart])
    {
      var child := node[i];
      assert child == all[i - childrenStart];
      FlattenStep(all, i - childrenStart);
      if IsString(child) || IsVNode(child) {
        children := children + [child];
      } else {
        children := children + Flatten(child.items);
      }
      i := i + 1;
    }
    assert all[..i - childrenStart] == all;
  }

  /** The flattening of a prefix one child longer: the child itself when
      it is a string or a node, its own flattening when it is a list. */
  lemma FlattenStep(cs: seq<JData>, k: nat)
    requires ValidChildren(cs) && k < |cs|
    ensures ValidChildren(cs[..k]) && ValidChildren(cs[..k + 1])
    ensures IsLeaf(cs[k]) ==> Flatten(cs[..k + 1]) == Flatten(cs[..k]) + [cs[k]]
    ensures !IsLeaf(cs[k]) ==>
      cs[k].Arr? && ValidChildren(cs[k].items) &&
      Flatten(cs[..k + 1]) == Flatten(cs[..k]) + Flatten(cs[k].items)
  {
    var c := cs[k];
    assert cs == cs[..k + 1] + cs[k + 1..];
    ValidAppend(cs[..k + 1], cs[k + 1..]);
    assert cs[..k + 1] == cs[..k] + [c];
    ValidAppend(cs[..k], [c]);
    FlattenAppend(cs[..k], [c]);
    assert [c][1..] == [];
  }

  /** `_changeVNodeData`. The callback sees the data object or null. When
      it returns an object the node becomes `[tag, data, ...children]`;
      when it returns null a data-less node is returned as it is and a
      node with data loses the element at index 1. */
  function ChangeVNodeData(fn: Option<map<string, JData>> -> Option<map<string, JData>>, node: Node): (r: Node)
    requires IsTagged(node)
    ensures IsTagged(r) && r[0] == node[0]
    ensures var d := fn(if IsVNodeWithData(node) then Some(node[1].fields) else None);
      (d.Some? ==> IsVNodeWithData(r) && r[1] == Obj(d.value) && GetVNodeChildren(r) == GetVNodeChildren(node)) &&
      (d.None? && IsVNodeWithoutData(node) ==> r == node) &&
      (d.None? && IsVNodeWithData(node) ==> r == node[..1] + node[2..])
  {
    var data := fn(if IsVNodeWithData(node) then Some(node[1].fields) else None);
    if data.None? then
      if IsVNodeWithoutData(node) then node
      else node[..1] + node[2..]
    else
      [node[0], Obj(data.value)] + GetVNodeChildren(node)
  }

  /** Dropping the data keeps the children when none of them is itself an
      object, which the child type rules out. */
  lemma ChangeVNodeDataDropKeepsChildren(fn: Option<map<string, JData>> -> Option<map<string, JData>>, node: Node)
    requires IsTagged(node) && IsVNodeWithData(node)
    requires fn(Some(node[1].fields)).None?
    requires ValidChildren(GetVNodeChildren(node))
    ensures IsVNodeWithoutData(ChangeVNodeData(fn, node))
    ensures GetVNodeChildren(ChangeVNodeData(fn, node)) == GetVNodeChildren(node)
  {
    var r := ChangeVNodeData(fn, node);
    if |node| > 2 {
      assert node[2] == GetVNodeChildren(node)[0];
      assert r[1] == node[2];
    }
  }

  /** `_changeVNodeChildren`: the tag and the data object stay, the children
      are replaced by what the callback returns. */
  function ChangeVNodeChildren(fn: seq<JData> -> seq<JData>, node: Node): (r: Node)
    requires IsTagged(node)
    ensures var head := if IsVNodeWithoutData(node) then 1 else 2;
      |r| >= head && r[..head] == node[..head] && r[head..] == fn(GetVNodeChildren(node))
    ensures IsVNodeWithData(node) ==> IsVNodeWithData(r) && GetVNodeChildren(r) == fn(GetVNodeChildren(node))
  {
    var children := fn(GetVNodeChildren(node));
    var head := node[..(if IsVNodeWithoutData(node) then 1 else 2)];
    head + children
  }

  /** The tree of test_jest/vnode.test.ts:6-12 and its flat children
      (test_jest/vnode.test.ts:46-58), for any two nodes in the places of
      the test's `['div', 'a1']` and `['div', {xyz: 123}, 'a3']`: the empty
      list and the list holding only an empty list vanish. */
  lemma FlattenExample(a1: JData, a3: JData)
    requires IsVNode(a1) && IsVNode(a3)
    ensures var vt := [Str("div"), a1, Str("a2"), Arr([]), a3, Arr([Arr([])])];
      ValidChildren(GetVNodeChildren(vt)) &&
      Flatten(GetVNodeChildren(vt)) == [a1, Str("a2"), a3]
  {
    var vt := [Str("div"), a1, Str("a2"), Arr([]), a3, Arr([Arr([])])];
    var tail := [Arr([]), a3, Arr([Arr([])])];
    assert IsVNodeWithoutData(vt);
    var cs := GetVNodeChildren(vt);
    assert cs == [a1] + ([Str("a2")] + tail);
    FlattenExampleTail(a3);
    FlattenCons(Str("a2"), tail);
    FlattenCons(a1, [Str("a2")] + tail);
    assert [a1] + ([Str("a2")] + [a3]) == [a1, Str("a2"), a3];
  }

  /** The last three children of the example: an empty list, a node and a
      list holding an empty list flatten to the node alone. */
  lemma FlattenExampleTail(a3: JData)
    requires IsVNode(a3)
    ensures ValidChildren([Arr([]), a3, Arr([Arr([])])])
    ensures Flatten([Arr([]), a3, Arr([Arr([])])]) == [a3]
  {
    var e, ee := Arr([]), Arr([Arr([])]);
    FlattenCons(e, []);
    assert [e] + [] == [e];
    FlattenCons(ee, []);
    assert [ee] + [] == [ee];
    FlattenCons(a3, [ee]);
    assert [a3] + [ee] == [a3, ee];
    FlattenCons(e, [a3, ee]);
    assert [e] + [a3, ee] == [e, a3, ee];
  }

  lemma FlattenCons(c: JData, rest: seq<JData>)
    requires ValidChild(c) && ValidChildren(rest)
    ensures ValidChildren([c] + rest)
    ensures !IsLeaf(c) ==> c.Arr? && ValidChildren(c.items)
    ensures Flatten([c] + rest) == (if IsLeaf(c) then [c] else Flatten(c.items)) + Flatten(rest)
  {
    assert ([c] + rest)[0] == c;
    assert ([c] + rest)[1..] == rest;
  }
}
