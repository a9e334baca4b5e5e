/**
 * The accessibility-tree snapshot that the block grouper reads, stored as an
 * arena: node `i` is `t[i]` and a node's children are indices into the same
 * sequence, so node identity (Python's `is` and `id()`) is index equality.
 *
 * The snapshot's children may be a list or a dict; both are iterated in order
 * and both become `children`. A child that is not a dict (a string, a number)
 * is an arena entry with `isDict == false`; every walk skips it.
 *
 * The recursive walks of a11y_tree.py become one explicit-stack cursor whose
 * pending visits are, at every moment, the rest of the pre-order walk.
 */
module A11yArena {
  import opened Optional
  import opened SeqFacts

  /** One entry of the snapshot. `role`, `name` and `kind` (the `type` key) are
      "" when the key is absent, which differs from every role the code looks for. */
  datatype Node = Node(isDict: bool, role: string, name: string, kind: string, children: seq<nat>)

  type Tree = seq<Node>

  /** Children are in range and come after their parent, so every walk ends. */
  predicate WellFormed(t: Tree)
  {
    forall i, j :: 0 <= i < |t| && 0 <= j < |t[i].children| ==> i < t[i].children[j] < |t|
  }

  /** The call `traverse(node, path)`: a node together with the list of its ancestors, root first. */
  datatype Visit = Visit(node: nat, path: seq<nat>)

  /** The direct parent recorded by a path (`parent` in the recursive calls). */
  function Parent(path: seq<nat>): Option<nat>
  {
    if path == [] then None else Some(path[|path| - 1])
  }

  /** The index every node visited below `path` exceeds. */
  function Bound(path: seq<nat>): int
  {
    if path == [] then -1 else path[|path| - 1]
  }

  /** Every index of `cs` lies strictly between `lo` and the end of the arena. */
  predicate InRange(t: Tree, cs: seq<nat>, lo: int)
  {
    forall k :: 0 <= k < |cs| ==> lo < cs[k] < |t|
  }

  /** The calls made by a recursive pre-order walk started at `i`: the node itself,
      then (for a dict) each child's walk in order. */
  ghost function Walk(t: Tree, i: nat, path: seq<nat>): (vs: seq<Visit>)
    requires WellFormed(t) && i < |t|
    ensures NodesIn(t, vs)
    decreases |t| - i, 1, 0
  {
    [Visit(i, path)] + if t[i].isDict then WalkList(t, t[i].children, path + [i]) else []
  }

  ghost function WalkList(t: Tree, cs: seq<nat>, path: seq<nat>): (vs: seq<Visit>)
    requires WellFormed(t) && InRange(t, cs, Bound(path))
    ensures NodesIn(t, vs)
    decreases |t| - Bound(path), 0, |cs|
  {
    if cs == [] then [] else Walk(t, cs[0], path) + WalkList(t, cs[1..], path)
  }

  /** Every visited node is an arena index. */
  ghost predicate NodesIn(t: Tree, vs: seq<Visit>)
  {
    forall k :: 0 <= k < |vs| ==> vs[k].node < |t|
  }

  /** A partly iterated `for child in children` loop of one active call. */
  datatype Pending = Pending(rest: seq<nat>, path: seq<nat>)

  predicate CursorOk(t: Tree, stack: seq<Pending>)
  {
    forall k :: 0 <= k < |stack| ==> InRange(t, stack[k].rest, Bound(stack[k].path))
  }

  /** The visits still to come, top of the stack first. */
  ghost function Remaining(t: Tree, stack: seq<Pending>): seq<Visit>
    requires WellFormed(t) && CursorOk(t, stack)
  {
    if stack == [] then [] else WalkList(t, stack[0].rest, stack[0].path) + Remaining(t, stack[1..])
  }

  /** The cursor of a walk started at `root`. */
  function Start(t: Tree, root: nat): (stack: seq<Pending>)
    requires WellFormed(t) && root < |t|
    ensures CursorOk(t, stack)
    ensures Remaining(t, stack) == Walk(t, root, [])
  {
    var stack := [Pending([root], [])];
    assert Remaining(t, stack) == WalkList(t, [root], []) + Remaining(t, []);
    assert WalkList(t, [root], []) == Walk(t, root, []) + WalkList(t, [], []);
    stack
  }

  /** The cursor after the call on the first pending child: that child's own
      children go on top, above the rest of its siblings. */
  function Pushed(t: Tree, stack: seq<Pending>): seq<Pending>
    requires CursorOk(t, stack) && stack != [] && stack[0].rest != []
  {
    var top := stack[0];
    var v := top.rest[0];
    var kids := if t[v].isDict then t[v].children else [];
    [Pending(kids, top.path + [v]), Pending(top.rest[1..], top.path)] + stack[1..]
  }

  lemma PushedFacts(t: Tree, stack: seq<Pending>)
    requires WellFormed(t) && CursorOk(t, stack) && stack != [] && stack[0].rest != []
    ensures CursorOk(t, Pushed(t, stack))
    ensures Remaining(t, stack) == [Visit(stack[0].rest[0], stack[0].path)] + Remaining(t, Pushed(t, stack))
  {
    PushedOk(t, stack);
    PushedRemaining(t, stack);
  }

  lemma PushedOk(t: Tree, stack: seq<Pending>)
    requires WellFormed(t) && CursorOk(t, stack) && stack != [] && stack[0].rest != []
    ensures CursorOk(t, Pushed(t, stack))
  {
    var top := stack[0];
    var v := top.rest[0];
    var kids := if t[v].isDict then t[v].children else [];
    var below := Pending(top.rest[1..], top.path);
    var stack' := Pushed(t, stack);
    assert stack' == [Pending(kids, top.path + [v])] + ([below] + stack[1..]);
    assert InRange(t, kids, Bound(top.path + [v]));
    assert InRange(t, below.rest, Bound(below.path));
    assert CursorOk(t, [below] + stack[1..]) by {
      forall k | 1 <= k < |[below] + stack[1..]|
        ensures InRange(t, ([below] + stack[1..])[k].rest, Bound(([below] + stack[1..])[k].path))
      {
        assert ([below] + stack[1..])[k] == stack[k];
      }
    }
  }

  lemma PushedRemaining(t: Tree, stack: seq<Pending>)
    requires WellFormed(t) && CursorOk(t, stack) && stack != [] && stack[0].rest != []
    requires CursorOk(t, Pushed(t, stack))
    ensures Remaining(t, stack) == [Visit(stack[0].rest[0], stack[0].path)] + Remaining(t, Pushed(t, stack))
  {
    var top := stack[0];
    var v := top.rest[0];
    var kids := if t[v].isDict then t[v].children else [];
    var below := Pending(top.rest[1..], top.path);
    var stack' := Pushed(t, stack);
    assert stack'[1..] == [below] + stack[1..];
    assert ([below] + stack[1..])[1..] == stack[1..];
    var visit, tail := Visit(v, top.path), Remaining(t, stack[1..]);
    var inner := WalkList(t, kids, top.path + [v]);
    var siblings := WalkList(t, below.rest, top.path);
    assert Remaining(t, stack'[1..]) == siblings + tail;
    assert Remaining(t, stack') == inner + (siblings + tail);
    assert Walk(t, v, top.path) == [visit] + inner;
    assert WalkList(t, top.rest, top.path) == Walk(t, v, top.path) + siblings;
    assert Remaining(t, stack) == WalkList(t, top.rest, top.path) + tail;
    Regroup([visit], inner, siblings, tail);
  }

  /** The next visit of the walk and the cursor after it, or `None` once the walk is over. */
  function Next(t: Tree, stack: seq<Pending>): (r: (Option<Visit>, seq<Pending>))
    requires WellFormed(t) && CursorOk(t, stack)
    ensures CursorOk(t, r.1)
    ensures r.0.None? ==> Remaining(t, stack) == []
    ensures r.0.Some? ==> r.0.value.node < |t| && Remaining(t, stack) == [r.0.value] + Remaining(t, r.1)
    decreases |stack|
  {
    if stack == [] then (None, [])
    else if stack[0].rest == [] then Next(t, stack[1..])
    else
      PushedFacts(t, stack);
      (Some(Visit(stack[0].rest[0], stack[0].path)), Pushed(t, stack))
  }

  /** Every visit other than the first sits below a dict node whose own visit
      (with the shorter path) comes in the same walk: the recorded paths are genuine. */
  lemma {:induction false} WalkParents(t: Tree, i: nat, path: seq<nat>)
    requires WellFormed(t) && i < |t|
    ensures forall v <- Walk(t, i, path) ::
      v == Visit(i, path) || ParentVisited(t, v, |path|, Walk(t, i, path))
    decreases |t| - i, 1, 0
  {
    if t[i].isDict {
      WalkListParents(t, t[i].children, path + [i]);
    }
  }

  lemma {:induction false} WalkListParents(t: Tree, cs: seq<nat>, path: seq<nat>)
    requires WellFormed(t) && InRange(t, cs, Bound(path))
    ensures forall v <- WalkList(t, cs, path) ::
      (v.path == path && v.node in cs) || ParentVisited(t, v, |path|, WalkList(t, cs, path))
    decreases |t| - Bound(path), 0, |cs|
  {
    if cs != [] {
      WalkParents(t, cs[0], path);
      WalkListParents(t, cs[1..], path);
    }
  }

  /** Every node a walk visits comes at or after the node it starts from. */
  lemma {:induction false} WalkAbove(t: Tree, i: nat, path: seq<nat>)
    requires WellFormed(t) && i < |t|
    ensures forall k :: 0 <= k < |Walk(t, i, path)| ==> i <= Walk(t, i, path)[k].node
    decreases |t| - i, 1, 0
  {
    if t[i].isDict {
      WalkListAbove(t, t[i].children, path + [i]);
    }
  }

  lemma {:induction false} WalkListAbove(t: Tree, cs: seq<nat>, path: seq<nat>)
    requires WellFormed(t) && InRange(t, cs, Bound(path))
    ensures forall k :: 0 <= k < |WalkList(t, cs, path)| ==> Bound(path) < WalkList(t, cs, path)[k].node
    decreases |t| - Bound(path), 0, |cs|
  {
    if cs != [] {
      WalkAbove(t, cs[0], path);
      WalkListAbove(t, cs[1..], path);
    }
  }

  /** `v` lies more than `depth` levels down, its parent is a dict holding it
      as a child, and the parent's own visit is in `vs`. */
  ghost predicate ParentVisited(t: Tree, v: Visit, depth: nat, vs: seq<Visit>)
  {
    var n := |v.path|;
    && n > depth
    && v.path[n - 1] < |t|
    && t[v.path[n - 1]].isDict
    && v.node in t[v.path[n - 1]].children
    && Visit(v.path[n - 1], v.path[..n - 1]) in vs
  }
}
