/**
 * Block grouping over an accessibility-tree snapshot (src/utils/a11y_tree.py):
 * choosing the working node that holds the search results, mapping parents and
 * collecting links below it, and climbing from each link to the block that
 * represents one result.
 *
 * The Python code compares nodes with `==` (dict equality) in the stop tests of
 * the climb and in `main_node in path` of find_working_node, and with `is` in
 * the sibling test. All are index identity here: every node the stop tests
 * compare lies in the working node's subtree, and a proper descendant can
 * never be structurally equal to its own ancestor; a main node equal to a
 * header's ancestor without being it would have been visited before that
 * ancestor, which is main too and replaces it as the last main node.
 */
module A11yTree {
  import opened Optional
  import opened Text
  import opened A11yArena
  import opened SeqFacts

  predicate IsMain(n: Node)
  {
    n.isDict && n.role == "main"
  }

  /** The header that announces the results section. */
  predicate IsTargetHeader(n: Node)
  {
    n.isDict && n.role == "header" && Contains(n.name, "Search Results")
  }

  /** A link: role "link" or type "link". */
  predicate IsLink(n: Node)
  {
    n.isDict && (n.role == "link" || n.kind == "link")
  }

  // ---------------------------------------------------------------------------
  // find_working_node
  // ---------------------------------------------------------------------------

  /** The `traverse_info` record and the `break_recursion` flag. */
  datatype Scan = Scan(main: Option<nat>, header: Option<nat>, headerParent: Option<nat>,
                       mainIsAncestor: bool, stopped: bool)

  const Unscanned := Scan(None, None, None, false, false)

  /** The body of one `traverse` call on a call that was not cut short. */
  function Step(t: Tree, s: Scan, v: Visit): Scan
    requires v.node < |t|
  {
    var n := t[v.node];
    if IsMain(n) then
      s.(main := Some(v.node), stopped := s.header.Some?)
    else if IsTargetHeader(n) then
      var atHeader := s.(header := Some(v.node), headerParent := Parent(v.path));
      if s.main.Some? && s.main.value in v.path then atHeader.(mainIsAncestor := true, stopped := true)
      else atHeader
    else s
  }

  /** The record after the calls `vs`, in order; once stopped, later calls change nothing. */
  ghost function ScanOf(t: Tree, vs: seq<Visit>): Scan
    requires NodesIn(t, vs)
  {
    if vs == [] then Unscanned
    else
      var s := ScanOf(t, vs[..|vs| - 1]);
      if s.stopped then s else Step(t, s, vs[|vs| - 1])
  }

  /** The value returned once the walk is over. */
  function Outcome(s: Scan): Option<nat>
  {
    if s.header.Some? && s.mainIsAncestor then s.headerParent else s.main
  }

  /** find_working_node as a function of the snapshot. */
  ghost function WorkingNode(t: Tree, root: nat): Option<nat>
    requires WellFormed(t) && root < |t|
  {
    Outcome(ScanOf(t, Walk(t, root, [])))
  }

  /** One more call of `traverse` after the calls `vs`. */
  lemma ScanStep(t: Tree, vs: seq<Visit>, v: Visit)
    requires NodesIn(t, vs) && v.node < |t|
    ensures NodesIn(t, vs + [v])
    ensures ScanOf(t, vs + [v]) == if ScanOf(t, vs).stopped then ScanOf(t, vs) else Step(t, ScanOf(t, vs), v)
  {
    assert (vs + [v])[..|vs|] == vs;
  }

  /** Once the stop flag is set, no later call changes the record. */
  lemma {:induction false} StoppedScanPersists(t: Tree, p: seq<Visit>, q: seq<Visit>)
    requires NodesIn(t, p) && NodesIn(t, q) && ScanOf(t, p).stopped
    ensures NodesIn(t, p + q) && ScanOf(t, p + q) == ScanOf(t, p)
    decreases |q|
  {
    if q == [] {
      assert p + q == p;
    } else {
      var q' := q[..|q| - 1];
      assert NodesIn(t, q') by {
        assert forall k :: 0 <= k < |q'| ==> q'[k] == q[k];
      }
      StoppedScanPersists(t, p, q');
      ScanStep(t, p + q', q[|q| - 1]);
      assert p + q == (p + q') + [q[|q| - 1]];
    }
  }

  /**
   * The walk of find_working_node, with an explicit stack in place of the
   * recursion. `visited` is the calls that ran: the walk up to and including
   * the first call that set the stop flag, and nothing after it.
   */
  method FindWorkingNode(t: Tree, root: nat) returns (r: Option<nat>, ghost visited: seq<Visit>)
    requires WellFormed(t) && root < |t|
    ensures visited <= Walk(t, root, [])
    ensures forall k :: 0 <= k < |visited| ==> !ScanOf(t, visited[..k]).stopped
    ensures ScanOf(t, visited).stopped || visited == Walk(t, root, [])
    ensures r == WorkingNode(t, root)
  {
    var stack := Start(t, root);
    var s := Unscanned;
    visited := [];
    while !s.stopped
      invariant CursorOk(t, stack)
      invariant visited + Remaining(t, stack) == Walk(t, root, [])
      invariant NodesIn(t, visited) && s == ScanOf(t, visited)
      invariant forall k :: 0 <= k < |visited| ==> !ScanOf(t, visited[..k]).stopped
      decreases |Remaining(t, stack)|
    {
      var next := Next(t, stack);
      if next.0.None? {
        break;
      }
      var v := next.0.value;
      ghost var before := visited;
      ScanStep(t, visited, v);
      Assoc(visited, [v], Remaining(t, next.1));
      s := Step(t, s, v);
      visited := visited + [v];
      stack := next.1;
      assert forall k :: 0 <= k < |before| ==> visited[..k] == before[..k];
    }
    if s.stopped {
      var rest := Remaining(t, stack);
      assert NodesIn(t, rest) by {
        forall k | 0 <= k < |rest|
          ensures rest[k].node < |t|
        {
          assert rest[k] == Walk(t, root, [])[|visited| + k];
        }
      }
      StoppedScanPersists(t, visited, rest);
    }
    r := Outcome(s);
  }

  /** The last main-role node among `vs`, if any. */
  ghost function LastMain(t: Tree, vs: seq<Visit>): (m: Option<nat>)
    requires NodesIn(t, vs)
    ensures m.None? <==> forall k :: 0 <= k < |vs| ==> !IsMain(t[vs[k].node])
    ensures m.Some? ==> exists k :: 0 <= k < |vs| && vs[k].node == m.value && IsMain(t[m.value])
                           && forall j :: k < j < |vs| ==> !IsMain(t[vs[j].node])
  {
    if vs == [] then None
    else if IsMain(t[vs[|vs| - 1].node]) then Some(vs[|vs| - 1].node)
    else
      var m := LastMain(t, vs[..|vs| - 1]);
      assert forall k :: 0 <= k < |vs| - 1 ==> vs[..|vs| - 1][k] == vs[k];
      m
  }

  ghost predicate HeaderAmong(t: Tree, vs: seq<Visit>)
    requires NodesIn(t, vs)
  {
    exists k :: 0 <= k < |vs| && IsTargetHeader(t[vs[k].node])
  }

  /** Call `k` sets the stop flag: a main node once a header is known, or a
      header whose path holds the latest main node seen so far. */
  ghost predicate StopsAt(t: Tree, vs: seq<Visit>, k: nat)
    requires NodesIn(t, vs) && k < |vs|
  {
    var n := t[vs[k].node];
    var main := LastMain(t, vs[..k]);
    || (IsMain(n) && HeaderAmong(t, vs[..k]))
    || (IsTargetHeader(n) && main.Some? && main.value in vs[k].path)
  }

  ghost predicate FirstStop(t: Tree, vs: seq<Visit>, k: nat)
    requires NodesIn(t, vs)
  {
    k < |vs| && StopsAt(t, vs, k) && forall j :: 0 <= j < k ==> !StopsAt(t, vs, j)
  }

  ghost predicate NeverStops(t: Tree, vs: seq<Visit>)
    requires NodesIn(t, vs)
  {
    forall k :: 0 <= k < |vs| ==> !StopsAt(t, vs, k)
  }

  /** The record after a walk in which no call stopped: the latest main node,
      whether a target header was seen, and no ancestor relation recorded. */
  ghost predicate UnstoppedScan(t: Tree, vs: seq<Visit>, s: Scan)
    requires NodesIn(t, vs)
  {
    !s.stopped && !s.mainIsAncestor && s.main == LastMain(t, vs) && (s.header.Some? <==> HeaderAmong(t, vs))
  }

  /** The record after the call `v` set the stop flag. */
  predicate StoppedAt(t: Tree, v: Visit, s: Scan)
    requires v.node < |t|
  {
    && s.stopped
    && (IsMain(t[v.node]) ==> s.main == Some(v.node) && !s.mainIsAncestor)
    && (!IsMain(t[v.node]) ==> s.header == Some(v.node) && s.headerParent == Parent(v.path) && s.mainIsAncestor)
  }

  /** How the notions above change with one more call. */
  lemma SnocFacts(t: Tree, p: seq<Visit>, v: Visit)
    requires NodesIn(t, p) && v.node < |t|
    ensures NodesIn(t, p + [v])
    ensures LastMain(t, p + [v]) == if IsMain(t[v.node]) then Some(v.node) else LastMain(t, p)
    ensures HeaderAmong(t, p + [v]) <==> HeaderAmong(t, p) || IsTargetHeader(t[v.node])
    ensures forall k: nat :: k < |p| ==> (StopsAt(t, p + [v], k) <==> StopsAt(t, p, k))
    ensures StopsAt(t, p + [v], |p|) <==>
      || (IsMain(t[v.node]) && HeaderAmong(t, p))
      || (IsTargetHeader(t[v.node]) && LastMain(t, p).Some? && LastMain(t, p).value in v.path)
  {
    var vs := p + [v];
    assert vs[..|p|] == p;
    assert forall k :: 0 <= k < |p| ==> vs[k] == p[k];
    forall k: nat | k < |p|
      ensures StopsAt(t, vs, k) <==> StopsAt(t, p, k)
    {
      assert vs[..k] == p[..k];
    }
  }

  /** The stop flag and the record, call by call. */
  lemma {:induction false} ScanMeaning(t: Tree, vs: seq<Visit>)
    requires NodesIn(t, vs)
    ensures NeverStops(t, vs) ==> UnstoppedScan(t, vs, ScanOf(t, vs))
    ensures forall k: nat :: FirstStop(t, vs, k) ==> StoppedAt(t, vs[k], ScanOf(t, vs))
    decreases |vs|
  {
    if vs != [] {
      var p := vs[..|vs| - 1];
      var v := vs[|vs| - 1];
      assert vs == p + [v];
      assert NodesIn(t, p) by {
        assert forall k :: 0 <= k < |p| ==> p[k] == vs[k];
      }
      ScanMeaning(t, p);
      ScanStep(t, p, v);
      SnocFacts(t, p, v);
      if NeverStops(t, p) {
        ScanAfterUnstopped(t, p, v);
      } else {
        ScanAfterStopped(t, p, v);
      }
    }
  }

  /** The step case of ScanMeaning when some call before `v` stopped: the
      first stop and the record both stay as they were. */
  lemma ScanAfterStopped(t: Tree, p: seq<Visit>, v: Visit)
    requires NodesIn(t, p) && v.node < |t| && !NeverStops(t, p)
    requires forall k: nat :: FirstStop(t, p, k) ==> StoppedAt(t, p[k], ScanOf(t, p))
    requires NodesIn(t, p + [v])
    requires ScanOf(t, p + [v]) == if ScanOf(t, p).stopped then ScanOf(t, p) else Step(t, ScanOf(t, p), v)
    requires forall k: nat :: k < |p| ==> (StopsAt(t, p + [v], k) <==> StopsAt(t, p, k))
    ensures forall k: nat :: FirstStop(t, p + [v], k) ==> StoppedAt(t, (p + [v])[k], ScanOf(t, p + [v]))
  {
    var vs := p + [v];
    var k :| 0 <= k < |p| && StopsAt(t, p, k);
    var first := EarliestStop(t, p, k);
    assert ScanOf(t, p).stopped;
    assert vs[first] == p[first];
    forall k': nat | FirstStop(t, vs, k')
      ensures k' == first
    {
      assert StopsAt(t, vs, first);
    }
  }

  /** The step case of ScanMeaning when the calls before `v` never stopped. */
  lemma ScanAfterUnstopped(t: Tree, p: seq<Visit>, v: Visit)
    requires NodesIn(t, p) && v.node < |t| && NeverStops(t, p)
    requires UnstoppedScan(t, p, ScanOf(t, p))
    requires NodesIn(t, p + [v]) && ScanOf(t, p + [v]) == Step(t, ScanOf(t, p), v)
    requires forall k: nat :: k < |p| ==> (StopsAt(t, p + [v], k) <==> StopsAt(t, p, k))
    requires LastMain(t, p + [v]) == if IsMain(t[v.node]) then Some(v.node) else LastMain(t, p)
    requires HeaderAmong(t, p + [v]) <==> HeaderAmong(t, p) || IsTargetHeader(t[v.node])
    requires StopsAt(t, p + [v], |p|) <==>
      || (IsMain(t[v.node]) && HeaderAmong(t, p))
      || (IsTargetHeader(t[v.node]) && LastMain(t, p).Some? && LastMain(t, p).value in v.path)
    ensures NeverStops(t, p + [v]) ==> UnstoppedScan(t, p + [v], ScanOf(t, p + [v]))
    ensures forall k: nat :: FirstStop(t, p + [v], k) ==> StoppedAt(t, (p + [v])[k], ScanOf(t, p + [v]))
  {
    var vs := p + [v];
    forall k: nat | FirstStop(t, vs, k)
      ensures k == |p|
    {
    }
    assert vs[|p|] == v;
  }

  lemma {:induction false} EarliestStop(t: Tree, vs: seq<Visit>, k: nat) returns (first: nat)
    requires NodesIn(t, vs) && k < |vs| && StopsAt(t, vs, k)
    ensures first <= k && FirstStop(t, vs, first)
    decreases k
  {
    if forall j :: 0 <= j < k ==> !StopsAt(t, vs, j) {
      first := k;
    } else {
      var j :| 0 <= j < k && StopsAt(t, vs, j);
      first := EarliestStop(t, vs, j);
    }
  }

  /**
   * What find_working_node returns. If no call stops the walk, the last main
   * node of the whole walk (None if there is none), whether or not a header
   * was seen. If the first stop is a main node met after a header, that main
   * node. If it is a header under the latest main node, the header's parent.
   */
  lemma WorkingNodeCharacterised(t: Tree, root: nat)
    requires WellFormed(t) && root < |t|
    ensures var vs := Walk(t, root, []);
      && (NeverStops(t, vs) ==> WorkingNode(t, root) == LastMain(t, vs))
      && forall k: nat :: FirstStop(t, vs, k) ==>
           WorkingNode(t, root) == if IsMain(t[vs[k].node]) then Some(vs[k].node) else Parent(vs[k].path)
  {
    ScanMeaning(t, Walk(t, root, []));
  }

  /** Without any target header the result is the last main node, or None when there is no main node. */
  lemma NoHeaderGivesMain(t: Tree, root: nat)
    requires WellFormed(t) && root < |t|
    requires forall k :: 0 <= k < |Walk(t, root, [])| ==> !IsTargetHeader(t[Walk(t, root, [])[k].node])
    ensures WorkingNode(t, root) == LastMain(t, Walk(t, root, []))
    ensures WorkingNode(t, root).None? <==> forall v <- Walk(t, root, []) :: !IsMain(t[v.node])
  {
    var vs := Walk(t, root, []);
    WorkingNodeCharacterised(t, root);
    assert NeverStops(t, vs) by {
      forall k | 0 <= k < |vs|
        ensures !StopsAt(t, vs, k)
      {
        assert !HeaderAmong(t, vs[..k]) by {
          assert forall j :: 0 <= j < k ==> vs[..k][j] == vs[j];
        }
      }
    }
  }

  /** `p` is the dict parent of a target header in `vs` whose path passes through a main node. */
  ghost predicate HeaderParentIn(t: Tree, vs: seq<Visit>, p: nat)
    requires NodesIn(t, vs)
  {
    exists k :: 0 <= k < |vs| && IsTargetHeader(t[vs[k].node]) && Parent(vs[k].path) == Some(p)
      && p < |t| && t[p].isDict && vs[k].node in t[p].children
      && exists m :: m in vs[k].path && m < |t| && IsMain(t[m])
  }

  /**
   * find_working_node returns None exactly when the tree has no main node;
   * otherwise it returns a main node or the dict parent of a target header
   * that lies below a main node.
   */
  lemma WorkingNodeShape(t: Tree, root: nat)
    requires WellFormed(t) && root < |t|
    ensures var vs := Walk(t, root, []);
      && (WorkingNode(t, root).None? <==> forall k :: 0 <= k < |vs| ==> !IsMain(t[vs[k].node]))
      && (WorkingNode(t, root).Some? ==>
            var r := WorkingNode(t, root).value;
            r < |t| && (IsMain(t[r]) || HeaderParentIn(t, vs, r)))
  {
    var vs := Walk(t, root, []);
    WorkingNodeCharacterised(t, root);
    if !NeverStops(t, vs) {
      var k :| 0 <= k < |vs| && StopsAt(t, vs, k);
      var first := EarliestStop(t, vs, k);
      if !IsMain(t[vs[first].node]) {
        WalkParents(t, root, []);
        HeaderStopShape(t, root, vs, first);
      }
    }
  }

  /** A walk that stops at a header stops below a main node, and the header's
      parent is a dict holding it. */
  lemma HeaderStopShape(t: Tree, root: nat, vs: seq<Visit>, first: nat)
    requires WellFormed(t) && root < |t| && NodesIn(t, vs)
    requires forall v <- vs :: v == Visit(root, []) || ParentVisited(t, v, 0, vs)
    requires first < |vs| && StopsAt(t, vs, first) && !IsMain(t[vs[first].node])
    ensures vs[first].path != [] && HeaderParentIn(t, vs, vs[first].path[|vs[first].path| - 1])
    ensures exists j :: 0 <= j < |vs| && IsMain(t[vs[j].node])
  {
    var v := vs[first];
    var m := LastMain(t, vs[..first]);
    assert IsTargetHeader(t[v.node]) && m.Some? && m.value in v.path;
    var j :| 0 <= j < first && vs[..first][j].node == m.value && IsMain(t[m.value]);
    assert vs[j].node == m.value;
    assert v in vs;
    assert v != Visit(root, []);
    assert ParentVisited(t, v, 0, vs);
    var p := v.path[|v.path| - 1];
    assert Parent(v.path) == Some(p) && p < |t| && t[p].isDict && v.node in t[p].children;
    assert m.value in v.path && m.value < |t| && IsMain(t[m.value]);
  }

  // ---------------------------------------------------------------------------
  // extract_information_blocks
  // ---------------------------------------------------------------------------

  /** The walk of prepare_tree: nothing when the working node is None. */
  ghost function WalkFrom(t: Tree, root: Option<nat>): (vs: seq<Visit>)
    requires WellFormed(t) && (root.Some? ==> root.value < |t|)
    ensures NodesIn(t, vs)
  {
    if root.None? then [] else Walk(t, root.value, [])
  }

  /** `all_links` after the calls `vs`: the link nodes, in walk order. */
  ghost function LinksOf(t: Tree, vs: seq<Visit>): (links: seq<nat>)
    requires NodesIn(t, vs)
    ensures forall k :: 0 <= k < |links| ==> links[k] < |t| && IsLink(t[links[k]])
  {
    if vs == [] then []
    else LinksOf(t, vs[..|vs| - 1]) + if IsLink(t[vs[|vs| - 1].node]) then [vs[|vs| - 1].node] else []
  }

  /** `parent_map` after the calls `vs`: every dict node below the working
      node is mapped to the parent it was reached from (a later call wins). */
  ghost function ParentsOf(t: Tree, vs: seq<Visit>): map<nat, nat>
    requires NodesIn(t, vs)
  {
    if vs == [] then map[]
    else
      var m := ParentsOf(t, vs[..|vs| - 1]);
      var v := vs[|vs| - 1];
      if t[v.node].isDict && v.path != [] then m[v.node := v.path[|v.path| - 1]] else m
  }

  /** One call of prepare_tree on top of the calls `vs`. */
  lemma PrepareStep(t: Tree, vs: seq<Visit>, v: Visit)
    requires NodesIn(t, vs) && v.node < |t|
    ensures NodesIn(t, vs + [v])
    ensures ParentsOf(t, vs + [v]) ==
      if t[v.node].isDict && v.path != [] then ParentsOf(t, vs)[v.node := v.path[|v.path| - 1]] else ParentsOf(t, vs)
    ensures LinksOf(t, vs + [v]) == LinksOf(t, vs) + if IsLink(t[v.node]) then [v.node] else []
  {
    assert (vs + [v])[..|vs|] == vs;
  }

  /** prepare_tree, with an explicit stack in place of the recursion. */
  method PrepareTree(t: Tree, root: Option<nat>) returns (parents: map<nat, nat>, links: seq<nat>)
    requires WellFormed(t) && (root.Some? ==> root.value < |t|)
    ensures parents == ParentsOf(t, WalkFrom(t, root))
    ensures links == LinksOf(t, WalkFrom(t, root))
  {
    parents, links := map[], [];
    if root.None? {
      return;
    }
    var stack := Start(t, root.value);
    ghost var visited: seq<Visit> := [];
    ghost var all := Walk(t, root.value, []);
    while true
      invariant CursorOk(t, stack)
      invariant visited + Remaining(t, stack) == all
      invariant NodesIn(t, visited)
      invariant parents == ParentsOf(t, visited) && links == LinksOf(t, visited)
      decreases |Remaining(t, stack)|
    {
      var next := Next(t, stack);
      if next.0.None? {
        AppendNil(visited);
        break;
      }
      var v := next.0.value;
      PrepareStep(t, visited, v);
      Assoc(visited, [v], Remaining(t, next.1));
      if t[v.node].isDict {
        if v.path != [] {
          parents := parents[v.node := v.path[|v.path| - 1]];
        }
        if IsLink(t[v.node]) {
          links := links + [v.node];
        }
      }
      visited := visited + [v];
      stack := next.1;
    }
  }

  /** A parent map whose entries point to smaller indices: climbing ends. */
  predicate Descending(t: Tree, parents: map<nat, nat>)
  {
    forall x <- parents :: parents[x] < x && x < |t|
  }

  /** The sibling test: `p` has a link child other than `x`. */
  predicate HasOtherLink(t: Tree, p: nat, x: nat)
    requires WellFormed(t) && p < |t|
  {
    exists j :: 0 <= j < |t[p].children| && t[p].children[j] != x && IsLink(t[t[p].children[j]])
  }

  /** The three stop conditions of the climb, checked at `x`. */
  predicate StopsClimb(t: Tree, parents: map<nat, nat>, root: nat, x: nat)
    requires WellFormed(t) && Descending(t, parents)
  {
    || x !in parents || x == root
    || HasOtherLink(t, parents[x], x)
    || parents[x] == root
  }

  /** The block that the climb from `x` settles on. */
  ghost function BlockOf(t: Tree, parents: map<nat, nat>, root: nat, x: nat): (b: nat)
    requires WellFormed(t) && Descending(t, parents)
    ensures b <= x && StopsClimb(t, parents, root, b)
    decreases x
  {
    if StopsClimb(t, parents, root, x) then x else BlockOf(t, parents, root, parents[x])
  }

  /** The climb loop for one link. */
  method Climb(t: Tree, parents: map<nat, nat>, root: nat, link: nat) returns (block: nat)
    requires WellFormed(t) && Descending(t, parents)
    ensures block == BlockOf(t, parents, root, link)
  {
    var current := link;
    while true
      invariant BlockOf(t, parents, root, current) == BlockOf(t, parents, root, link)
      decreases current
    {
      if current !in parents || current == root {
        return current;
      }
      var parent := parents[current];
      var hasOtherLink := exists j :: 0 <= j < |t[parent].children| && t[parent].children[j] != current
                                      && IsLink(t[t[parent].children[j]]);
      if hasOtherLink {
        return current;
      }
      if parent == root {
        return current;
      }
      current := parent;
    }
  }

  /** The block each link's climb settles on, one per link in link order. */
  ghost function BlocksFor(t: Tree, parents: map<nat, nat>, root: nat, links: seq<nat>): (blocks: seq<nat>)
    requires WellFormed(t) && Descending(t, parents)
    ensures |blocks| == |links|
    ensures forall i :: 0 <= i < |links| ==> blocks[i] == BlockOf(t, parents, root, links[i])
  {
    seq(|links|, i requires 0 <= i < |links| => BlockOf(t, parents, root, links[i]))
  }

  /** The result of extract_information_blocks once `seen_block_ids` is updated
      with `add`: the blocks of the links that prepare_tree collects. */
  ghost function InformationBlocks(t: Tree, root: Option<nat>): (blocks: seq<nat>)
    requires WellFormed(t) && (root.Some? ==> root.value < |t|)
    ensures |blocks| == |LinksOf(t, WalkFrom(t, root))|
  {
    if root.None? then []
    else
      var vs := WalkFrom(t, root);
      ParentsShape(t, root.value);
      BlocksFor(t, ParentsOf(t, vs), root.value, LinksOf(t, vs))
  }

  /** The prepared parent map and links determine the blocks. */
  lemma PreparedBlocks(t: Tree, root: nat, parents: map<nat, nat>, links: seq<nat>)
    requires WellFormed(t) && root < |t|
    requires parents == ParentsOf(t, WalkFrom(t, Some(root))) && links == LinksOf(t, WalkFrom(t, Some(root)))
    ensures Descending(t, parents)
    ensures InformationBlocks(t, Some(root)) == BlocksFor(t, parents, root, links)
  {
    ParentsShape(t, root);
  }

  /** extract_information_blocks: prepare the tree, then climb from every link,
      appending one block per link and recording its identity in `seenBlockIds`. */
  method ExtractInformationBlocks(t: Tree, root: Option<nat>) returns (blocks: seq<nat>)
    requires WellFormed(t) && (root.Some? ==> root.value < |t|)
    ensures blocks == InformationBlocks(t, root)
  {
    var parents, links := PrepareTree(t, root);
    blocks := [];
    if root.None? {
      return;
    }
    PreparedBlocks(t, root.value, parents, links);
    var seenBlockIds: set<nat> := {};
    for i := 0 to |links|
      invariant blocks == BlocksFor(t, parents, root.value, links[..i])
      invariant forall b :: b in seenBlockIds <==> b in blocks
    {
      var block := Climb(t, parents, root.value, links[i]);
      BlocksForSnoc(t, parents, root.value, links, i);
      blocks := blocks + [block];
      seenBlockIds := seenBlockIds + {block};
    }
    assert links[..|links|] == links;
  }

  lemma BlocksForSnoc(t: Tree, parents: map<nat, nat>, root: nat, links: seq<nat>, i: nat)
    requires WellFormed(t) && Descending(t, parents) && i < |links|
    ensures BlocksFor(t, parents, root, links[..i + 1])
      == BlocksFor(t, parents, root, links[..i]) + [BlockOf(t, parents, root, links[i])]
  {
    var a, b := BlocksFor(t, parents, root, links[..i + 1]), BlocksFor(t, parents, root, links[..i]);
    assert forall k :: 0 <= k < i ==> a[k] == b[k];
  }

  /** The parent map holds, for each dict node it maps, the node's genuine parent,
      which is a dict one level up: the working node or itself a mapped node.
      The working node itself has no entry. */
  lemma ParentsShape(t: Tree, root: nat)
    requires WellFormed(t) && root < |t|
    ensures var parents := ParentsOf(t, Walk(t, root, []));
      && Descending(t, parents)
      && (forall x <- parents :: t[parents[x]].isDict && x in t[parents[x]].children)
      && (forall x <- parents :: parents[x] == root || parents[x] in parents)
      && root !in parents
  {
    var vs := Walk(t, root, []);
    var parents := ParentsOf(t, vs);
    WalkParents(t, root, []);
    WalkAbove(t, root, []);
    ParentsFromVisits(t, vs);
    forall x | x in parents
      ensures parents[x] < x < |t| && t[parents[x]].isDict && x in t[parents[x]].children
      ensures parents[x] == root || parents[x] in parents
      ensures x != root
    {
      ParentEntry(t, root, vs, parents, x);
    }
  }

  lemma ParentEntry(t: Tree, root: nat, vs: seq<Visit>, parents: map<nat, nat>, x: nat)
    requires WellFormed(t) && NodesIn(t, vs)
    requires forall v <- vs :: v == Visit(root, []) || ParentVisited(t, v, 0, vs)
    requires forall k :: 0 <= k < |vs| ==> root <= vs[k].node
    requires forall x <- parents :: exists v <- vs ::
      v.node == x && t[x].isDict && v.path != [] && parents[x] == v.path[|v.path| - 1]
    requires forall v <- vs :: t[v.node].isDict && v.path != [] ==> v.node in parents
    requires x in parents
    ensures parents[x] < x < |t| && t[parents[x]].isDict && x in t[parents[x]].children
    ensures parents[x] == root || parents[x] in parents
    ensures x != root
  {
    var v :| v in vs && v.node == x && t[x].isDict && v.path != [] && parents[x] == v.path[|v.path| - 1];
    assert ParentVisited(t, v, 0, vs);
    var p := v.path[|v.path| - 1];
    var pv := Visit(p, v.path[..|v.path| - 1]);
    assert pv in vs;
    var j :| 0 <= j < |vs| && vs[j] == pv;
    if pv.path != [] {
      assert pv != Visit(root, []);
      assert ParentVisited(t, pv, 0, vs);
    }
  }

  /** Each entry of the parent map comes from a call on that node with a non-empty path,
      and every such call leaves an entry. */
  lemma {:induction false} ParentsFromVisits(t: Tree, vs: seq<Visit>)
    requires NodesIn(t, vs)
    ensures forall x <- ParentsOf(t, vs) :: exists v <- vs ::
      v.node == x && t[x].isDict && v.path != [] && ParentsOf(t, vs)[x] == v.path[|v.path| - 1]
    ensures forall v <- vs :: t[v.node].isDict && v.path != [] ==> v.node in ParentsOf(t, vs)
  {
    if vs != [] {
      var p := vs[..|vs| - 1];
      ParentsFromVisits(t, p);
      assert vs == p + [vs[|vs| - 1]];
    }
  }

  /** The ancestors of `x` through the parent map, `x` first. */
  ghost function Chain(t: Tree, parents: map<nat, nat>, x: nat): (c: seq<nat>)
    requires Descending(t, parents)
    ensures |c| > 0 && c[0] == x
    ensures forall k :: 0 <= k < |c| - 1 ==> c[k] in parents && c[k + 1] == parents[c[k]]
    ensures c[|c| - 1] !in parents
    decreases x
  {
    if x in parents then [x] + Chain(t, parents, parents[x]) else [x]
  }

  /** The block is the first node on the link's ancestor chain at which a stop condition holds. */
  lemma {:induction false} BlockIsFirstStop(t: Tree, parents: map<nat, nat>, root: nat, x: nat) returns (k: nat)
    requires WellFormed(t) && Descending(t, parents)
    ensures k < |Chain(t, parents, x)| && Chain(t, parents, x)[k] == BlockOf(t, parents, root, x)
    ensures StopsClimb(t, parents, root, Chain(t, parents, x)[k])
    ensures forall j :: 0 <= j < k ==> !StopsClimb(t, parents, root, Chain(t, parents, x)[j])
    decreases x
  {
    if StopsClimb(t, parents, root, x) {
      k := 0;
    } else {
      var k' := BlockIsFirstStop(t, parents, root, parents[x]);
      k := k' + 1;
      assert Chain(t, parents, x) == [x] + Chain(t, parents, parents[x]);
    }
  }

  /** The block is the working node only when the climb starts there. */
  lemma {:induction false} BlockNotWorkingNode(t: Tree, parents: map<nat, nat>, root: nat, x: nat)
    requires WellFormed(t) && Descending(t, parents)
    ensures BlockOf(t, parents, root, x) == root ==> x == root
    decreases x
  {
    if !StopsClimb(t, parents, root, x) {
      BlockNotWorkingNode(t, parents, root, parents[x]);
    }
  }

  /** The block stays inside the working node: it is the working node or a node the parent map covers. */
  lemma {:induction false} BlockInside(t: Tree, parents: map<nat, nat>, root: nat, x: nat)
    requires WellFormed(t) && Descending(t, parents)
    requires forall y <- parents :: parents[y] == root || parents[y] in parents
    requires x == root || x in parents
    ensures var b := BlockOf(t, parents, root, x); b == root || b in parents
    decreases x
  {
    if !StopsClimb(t, parents, root, x) {
      BlockInside(t, parents, root, parents[x]);
    }
  }

  /** Every link is the working node or a node with a parent-map entry. */
  lemma LinksInside(t: Tree, root: nat)
    requires WellFormed(t) && root < |t|
    ensures var vs := Walk(t, root, []);
      forall x <- LinksOf(t, vs) :: x == root || x in ParentsOf(t, vs)
  {
    var vs := Walk(t, root, []);
    WalkParents(t, root, []);
    LinksVisited(t, vs);
    ParentsFromVisits(t, vs);
    forall x | x in LinksOf(t, vs)
      ensures x == root || x in ParentsOf(t, vs)
    {
      var v :| v in vs && v.node == x && t[x].isDict;
    }
  }

  /** The climb from `x` stops at a node of its chain where a stop condition
      holds, inside the working node, and at the working node only if it started there. */
  lemma ClimbFacts(t: Tree, parents: map<nat, nat>, root: nat, x: nat)
    requires WellFormed(t) && Descending(t, parents)
    requires forall y <- parents :: parents[y] == root || parents[y] in parents
    requires x == root || x in parents
    ensures var b := BlockOf(t, parents, root, x);
      && b in Chain(t, parents, x) && StopsClimb(t, parents, root, b)
      && (b == root || b in parents) && (b == root ==> x == root)
  {
    var k := BlockIsFirstStop(t, parents, root, x);
    BlockNotWorkingNode(t, parents, root, x);
    BlockInside(t, parents, root, x);
  }

  /**
   * One block per link, in link order; each block is the link or one of its
   * ancestors inside the working node, the first on the way up whose parent
   * has another link child or is the working node, and it is the working node
   * only when the link is.
   */
  lemma BlocksMeaning(t: Tree, root: nat)
    requires WellFormed(t) && root < |t|
    ensures var vs := Walk(t, root, []);
      var links := LinksOf(t, vs);
      var parents := ParentsOf(t, vs);
      var blocks := InformationBlocks(t, Some(root));
      && Descending(t, parents)
      && |blocks| == |links|
      && forall i :: 0 <= i < |links| ==>
           && blocks[i] in Chain(t, parents, links[i])
           && StopsClimb(t, parents, root, blocks[i])
           && (blocks[i] == root || blocks[i] in parents)
           && (blocks[i] == root ==> links[i] == root)
  {
    var vs := Walk(t, root, []);
    var links := LinksOf(t, vs);
    var parents := ParentsOf(t, vs);
    ParentsShape(t, root);
    LinksInside(t, root);
    forall i | 0 <= i < |links|
      ensures var b := InformationBlocks(t, Some(root))[i];
        && b in Chain(t, parents, links[i])
        && StopsClimb(t, parents, root, b)
        && (b == root || b in parents)
        && (b == root ==> links[i] == root)
    {
      assert links[i] in links;
      ClimbFacts(t, parents, root, links[i]);
    }
  }

  lemma {:induction false} LinksVisited(t: Tree, vs: seq<Visit>)
    requires NodesIn(t, vs)
    ensures forall x <- LinksOf(t, vs) :: exists v <- vs :: v.node == x && t[x].isDict
  {
    if vs != [] {
      var p := vs[..|vs| - 1];
      LinksVisited(t, p);
      assert vs == p + [vs[|vs| - 1]];
    }
  }

  /** extract_information_blocks as written: `seen_block_ids` is a set, so the first
      `.append` on it raises AttributeError; with no link the result is empty. */
  datatype BlocksResult = Blocks(nodes: seq<nat>) | AttributeError

  ghost function BlocksAsWritten(t: Tree, root: Option<nat>): (r: BlocksResult)
    requires WellFormed(t) && (root.Some? ==> root.value < |t|)
    ensures r == AttributeError <==> InformationBlocks(t, root) != []
    ensures r.Blocks? ==> r.nodes == [] == InformationBlocks(t, root)
  {
    if LinksOf(t, WalkFrom(t, root)) == [] then Blocks([]) else AttributeError
  }

  // ---------------------------------------------------------------------------
  // Fixture: a main node holding three result containers
  // ---------------------------------------------------------------------------

  /** A plain dict node: neither main, header nor link. */
  predicate Plain(n: Node)
  {
    n.isDict && !IsMain(n) && !IsTargetHeader(n) && !IsLink(n)
  }

  /** Container `c`: a plain dict whose children are a link leaf and a plain leaf. */
  predicate ContainerShape(t: Tree, c: nat)
  {
    && c + 2 < |t|
    && Plain(t[c]) && t[c].children == [c + 1, c + 2]
    && IsLink(t[c + 1]) && !IsMain(t[c + 1]) && !IsTargetHeader(t[c + 1]) && t[c + 1].children == []
    && Plain(t[c + 2]) && t[c + 2].children == []
  }

  /** Node 0 is a main node holding the containers 1, 4 and 7. */
  predicate ThreeResultsShape(t: Tree)
  {
    && |t| == 10
    && IsMain(t[0]) && !IsLink(t[0]) && t[0].children == [1, 4, 7]
    && ContainerShape(t, 1) && ContainerShape(t, 4) && ContainerShape(t, 7)
  }

  /** The fixture itself. */
  const ThreeResults: Tree := [
    Node(true, "main", "", "", [1, 4, 7]),
    Node(true, "generic", "", "", [2, 3]),
    Node(true, "link", "First result", "", []),
    Node(true, "StaticText", "first snippet", "", []),
    Node(true, "generic", "", "", [5, 6]),
    Node(true, "link", "Second result", "", []),
    Node(true, "StaticText", "second snippet", "", []),
    Node(true, "generic", "", "", [8, 9]),
    Node(true, "link", "Third result", "", []),
    Node(true, "StaticText", "third snippet", "", [])
  ]

  lemma ThreeResultsHasShape()
    ensures ThreeResultsShape(ThreeResults)
  {
  }

  lemma ShapeWellFormed(t: Tree)
    requires ThreeResultsShape(t)
    ensures WellFormed(t)
  {
    forall i, j | 0 <= i < |t| && 0 <= j < |t[i].children|
      ensures i < t[i].children[j] < |t|
    {
      assert i in {0, 1, 2, 3, 4, 5, 6, 7, 8, 9};
    }
  }

  function ContainerVisits(c: nat): seq<Visit>
  {
    [Visit(c, [0]), Visit(c + 1, [0, c]), Visit(c + 2, [0, c])]
  }

  /** The walk of a container: the container, then its two leaves. */
  lemma ContainerWalk(t: Tree, c: nat)
    requires WellFormed(t) && ContainerShape(t, c)
    ensures Walk(t, c, [0]) == ContainerVisits(c)
  {
    LeafWalk(t, c + 1, [0, c]);
    LeafWalk(t, c + 2, [0, c]);
    assert [0] + [c] == [0, c];
    WalkListPair(t, c + 1, c + 2, [0, c]);
  }

  lemma LeafWalk(t: Tree, i: nat, path: seq<nat>)
    requires WellFormed(t) && i < |t| && t[i].children == []
    ensures Walk(t, i, path) == [Visit(i, path)]
  {
    assert WalkList(t, [], path + [i]) == [];
  }

  /** A one-entry children list walks that child. */
  lemma WalkListSingle(t: Tree, a: nat, path: seq<nat>)
    requires WellFormed(t) && Bound(path) < a < |t|
    ensures WalkList(t, [a], path) == Walk(t, a, path)
  {
    assert [a][1..] == [] && InRange(t, [a], Bound(path)) && InRange(t, [], Bound(path));
    var wa := Walk(t, a, path);
    assert WalkList(t, [a], path) == wa + WalkList(t, [], path);
    AppendNil(wa);
  }

  /** A two-entry children list walks child by child. */
  lemma WalkListPair(t: Tree, a: nat, b: nat, path: seq<nat>)
    requires WellFormed(t) && Bound(path) < a < |t| && Bound(path) < b < |t|
    ensures WalkList(t, [a, b], path) == Walk(t, a, path) + Walk(t, b, path)
  {
    assert [a, b][1..] == [b] && [b][1..] == [];
    assert InRange(t, [a, b], Bound(path)) && InRange(t, [b], Bound(path)) && InRange(t, [], Bound(path));
    var wb := Walk(t, b, path);
    assert WalkList(t, [b], path) == wb + WalkList(t, [], path);
    AppendNil(wb);
  }

  /** A three-entry children list walks child by child. */
  lemma WalkListTriple(t: Tree, a: nat, b: nat, c: nat, path: seq<nat>)
    requires WellFormed(t) && Bound(path) < a < |t| && Bound(path) < b < |t| && Bound(path) < c < |t|
    ensures WalkList(t, [a, b, c], path) == Walk(t, a, path) + (Walk(t, b, path) + Walk(t, c, path))
  {
    assert [a, b, c][1..] == [b, c] && InRange(t, [a, b, c], Bound(path)) && InRange(t, [b, c], Bound(path));
    WalkListPair(t, b, c, path);
  }

  lemma ShapeWalk(t: Tree)
    requires ThreeResultsShape(t)
    ensures WellFormed(t)
    ensures Walk(t, 0, []) == [Visit(0, [])] + ContainerVisits(1) + ContainerVisits(4) + ContainerVisits(7)
  {
    ShapeWellFormed(t);
    ContainerWalk(t, 1);
    ContainerWalk(t, 4);
    ContainerWalk(t, 7);
    assert [] + [0] == [0];
    WalkListTriple(t, 1, 4, 7, [0]);
    Regroup([Visit(0, [])], ContainerVisits(1), ContainerVisits(4), ContainerVisits(7));
  }

  /** prepare_tree over the calls of container `c`. */
  lemma ContainerPrepare(t: Tree, p: seq<Visit>, c: nat)
    requires NodesIn(t, p) && ContainerFacts(t, c)
    ensures NodesIn(t, p + ContainerVisits(c))
    ensures LinksOf(t, p + ContainerVisits(c)) == LinksOf(t, p) + [c + 1]
    ensures ParentsOf(t, p + ContainerVisits(c)) == ParentsOf(t, p)[c := 0][c + 1 := c][c + 2 := c]
  {
    var p1 := p + [Visit(c, [0])];
    var p2 := p1 + [Visit(c + 1, [0, c])];
    PrepareStep(t, p, Visit(c, [0]));
    PrepareStep(t, p1, Visit(c + 1, [0, c]));
    PrepareStep(t, p2, Visit(c + 2, [0, c]));
    SnocThree(p, Visit(c, [0]), Visit(c + 1, [0, c]), Visit(c + 2, [0, c]));
  }

  lemma ShapePrepare(t: Tree)
    requires ThreeResultsShape(t)
    ensures WellFormed(t)
    ensures LinksOf(t, Walk(t, 0, [])) == [2, 5, 8]
    ensures ParentsOf(t, Walk(t, 0, [])) == map[1 := 0, 2 := 1, 3 := 1, 4 := 0, 5 := 4, 6 := 4, 7 := 0, 8 := 7, 9 := 7]
  {
    ShapeWalk(t);
    ShapeVisitsPrepare(t, Walk(t, 0, []));
  }

  /** What prepare_tree sees of container `c`. */
  predicate ContainerFacts(t: Tree, c: nat)
  {
    c + 2 < |t| && t[c].isDict && !IsLink(t[c]) && IsLink(t[c + 1]) && t[c + 2].isDict && !IsLink(t[c + 2])
  }

  /** prepare_tree over the calls of the three-result shape. */
  lemma ShapeVisitsPrepare(t: Tree, vs: seq<Visit>)
    requires |t| == 10 && t[0].isDict && !IsLink(t[0])
    requires ContainerFacts(t, 1) && ContainerFacts(t, 4) && ContainerFacts(t, 7)
    requires vs == [Visit(0, [])] + ContainerVisits(1) + ContainerVisits(4) + ContainerVisits(7)
    ensures NodesIn(t, vs)
    ensures LinksOf(t, vs) == [2, 5, 8]
    ensures ParentsOf(t, vs) == map[1 := 0, 2 := 1, 3 := 1, 4 := 0, 5 := 4, 6 := 4, 7 := 0, 8 := 7, 9 := 7]
  {
    PrepareStep(t, [], Visit(0, []));
    var p0 := [Visit(0, [])];
    assert [] + p0 == p0;
    ContainerPrepare(t, p0, 1);
    var p1 := p0 + ContainerVisits(1);
    ContainerPrepare(t, p1, 4);
    var p2 := p1 + ContainerVisits(4);
    ContainerPrepare(t, p2, 7);
  }

  /** On the three-result shape find_working_node picks the main node (there is no target header). */
  lemma ThreeResultsWorkingNode(t: Tree)
    requires ThreeResultsShape(t)
    ensures WellFormed(t)
    ensures WorkingNode(t, 0) == Some(0)
  {
    ShapeWellFormed(t);
    ShapeRoles(t);
    var vs := Walk(t, 0, []);
    NoHeaderGivesMain(t, 0);
    assert vs[0].node == 0;
  }

  /** In the three-result shape no node is a target header and node 0 is the only main node. */
  lemma ShapeRoles(t: Tree)
    requires ThreeResultsShape(t)
    ensures forall i :: 0 <= i < |t| ==> !IsTargetHeader(t[i]) && (IsMain(t[i]) <==> i == 0)
  {
    forall i | 0 <= i < |t|
      ensures !IsTargetHeader(t[i]) && (IsMain(t[i]) <==> i == 0)
    {
      assert i in {0, 1, 2, 3, 4, 5, 6, 7, 8, 9};
    }
  }

  /**
   * Block grouping on the three-result shape (any tree of that shape, the
   * fixture among them): the blocks are exactly the three containers, neither
   * the shared main node nor the link leaves.
   */
  lemma ThreeResultsBlocks(t: Tree)
    requires ThreeResultsShape(t)
    ensures WellFormed(t)
    ensures InformationBlocks(t, Some(0)) == [1, 4, 7]
  {
    ShapePrepare(t);
    var parents := ParentsOf(t, Walk(t, 0, []));
    PreparedBlocks(t, 0, parents, [2, 5, 8]);
    ShapeBlocks(t, parents);
  }

  /** The climbs of the three-result shape over its parent map. */
  lemma ShapeBlocks(t: Tree, parents: map<nat, nat>)
    requires WellFormed(t) && |t| == 10 && Descending(t, parents)
    requires parents == map[1 := 0, 2 := 1, 3 := 1, 4 := 0, 5 := 4, 6 := 4, 7 := 0, 8 := 7, 9 := 7]
    requires t[0].children == [1, 4, 7] && !IsLink(t[1]) && !IsLink(t[4]) && !IsLink(t[7])
    requires t[1].children == [2, 3] && t[4].children == [5, 6] && t[7].children == [8, 9]
    requires !IsLink(t[3]) && !IsLink(t[6]) && !IsLink(t[9])
    ensures BlocksFor(t, parents, 0, [2, 5, 8]) == [1, 4, 7]
  {
    assert forall j :: 0 <= j < |t[0].children| ==> !IsLink(t[t[0].children[j]]);
    ContainerClimb(t, parents, 1);
    ContainerClimb(t, parents, 4);
    ContainerClimb(t, parents, 7);
    var blocks := BlocksFor(t, parents, 0, [2, 5, 8]);
    assert blocks[0] == 1 && blocks[1] == 4 && blocks[2] == 7;
  }

  /** The climb from the link of container `c` stops at `c`, a child of the
      main node 0 with no link among its siblings. */
  lemma ContainerClimb(t: Tree, parents: map<nat, nat>, c: nat)
    requires WellFormed(t) && Descending(t, parents) && c + 2 < |t|
    requires t[c].children == [c + 1, c + 2] && !IsLink(t[c + 2])
    requires forall j :: 0 <= j < |t[0].children| && t[0].children[j] != c ==> !IsLink(t[t[0].children[j]])
    requires c + 1 in parents && parents[c + 1] == c && c in parents && parents[c] == 0
    ensures BlockOf(t, parents, 0, c + 1) == c
  {
    assert !HasOtherLink(t, c, c + 1);
    assert !HasOtherLink(t, 0, c);
  }

  /** As written, the first link of the three-result shape makes extract_information_blocks raise. */
  lemma ThreeResultsCrashAsWritten(t: Tree)
    requires ThreeResultsShape(t)
    ensures WellFormed(t)
    ensures BlocksAsWritten(t, Some(0)) == AttributeError
  {
    ShapePrepare(t);
  }

  // ---------------------------------------------------------------------------
  // Fixtures: a target header inside and outside the main node
  // ---------------------------------------------------------------------------

  /** Main node 0 holds section 1, which holds target header 2 and plain node 3. */
  predicate HeaderInsideShape(t: Tree)
  {
    && |t| == 4
    && IsMain(t[0]) && t[0].children == [1]
    && Plain(t[1]) && t[1].children == [2, 3]
    && IsTargetHeader(t[2]) && t[2].children == []
    && Plain(t[3]) && t[3].children == []
  }

  /** Plain root 0 holds target header 1 and main node 2, which holds plain node 3. */
  predicate HeaderOutsideShape(t: Tree)
  {
    && |t| == 4
    && Plain(t[0]) && t[0].children == [1, 2]
    && IsTargetHeader(t[1]) && t[1].children == []
    && IsMain(t[2]) && t[2].children == [3]
    && Plain(t[3]) && t[3].children == []
  }

  /** The calls of find_working_node on the header-inside shape. */
  lemma HeaderInsideWalk(t: Tree)
    requires HeaderInsideShape(t)
    ensures WellFormed(t)
    ensures Walk(t, 0, []) == [Visit(0, []), Visit(1, [0]), Visit(2, [0, 1]), Visit(3, [0, 1])]
  {
    assert WellFormed(t) by {
      forall i, j | 0 <= i < |t| && 0 <= j < |t[i].children|
        ensures i < t[i].children[j] < |t|
      {
        assert i in {0, 1, 2, 3};
      }
    }
    LeafWalk(t, 2, [0, 1]);
    LeafWalk(t, 3, [0, 1]);
    WalkListPair(t, 2, 3, [0, 1]);
    assert [0] + [1] == [0, 1];
    assert Walk(t, 1, [0]) == [Visit(1, [0])] + ([Visit(2, [0, 1])] + [Visit(3, [0, 1])]);
    WalkListSingle(t, 1, [0]);
    assert [] + [0] == [0];
    assert Walk(t, 0, []) == [Visit(0, [])] + Walk(t, 1, [0]);
  }

  /** A header below the main node: find_working_node returns the header's parent. */
  lemma HeaderInsideMain(t: Tree)
    requires HeaderInsideShape(t)
    ensures WellFormed(t)
    ensures WorkingNode(t, 0) == Some(1)
  {
    HeaderInsideWalk(t);
    var v0, v1, v2, v3 := Visit(0, []), Visit(1, [0]), Visit(2, [0, 1]), Visit(3, [0, 1]);
    ScanStep(t, [], v0);
    assert [] + [v0] == [v0];
    assert ScanOf(t, [v0]) == Scan(Some(0), None, None, false, false);
    ScanStep(t, [v0], v1);
    assert [v0] + [v1] == [v0, v1];
    assert ScanOf(t, [v0, v1]) == Scan(Some(0), None, None, false, false);
    ScanStep(t, [v0, v1], v2);
    assert [v0, v1] + [v2] == [v0, v1, v2];
    assert ScanOf(t, [v0, v1, v2]) == Scan(Some(0), Some(2), Some(1), true, true);
    ScanStep(t, [v0, v1, v2], v3);
    assert [v0, v1, v2] + [v3] == [v0, v1, v2, v3];
  }

  /** The calls of find_working_node on the header-outside shape. */
  lemma HeaderOutsideWalk(t: Tree)
    requires HeaderOutsideShape(t)
    ensures WellFormed(t)
    ensures Walk(t, 0, []) == [Visit(0, []), Visit(1, [0]), Visit(2, [0]), Visit(3, [0, 2])]
  {
    assert WellFormed(t) by {
      forall i, j | 0 <= i < |t| && 0 <= j < |t[i].children|
        ensures i < t[i].children[j] < |t|
      {
        assert i in {0, 1, 2, 3};
      }
    }
    LeafWalk(t, 1, [0]);
    LeafWalk(t, 3, [0, 2]);
    WalkListSingle(t, 3, [0, 2]);
    assert [0] + [2] == [0, 2];
    assert Walk(t, 2, [0]) == [Visit(2, [0])] + [Visit(3, [0, 2])];
    WalkListPair(t, 1, 2, [0]);
    assert [] + [0] == [0];
    assert Walk(t, 0, []) == [Visit(0, [])] + (Walk(t, 1, [0]) + Walk(t, 2, [0]));
  }

  /** A header outside the main node: find_working_node returns the main node. */
  lemma HeaderOutsideMain(t: Tree)
    requires HeaderOutsideShape(t)
    ensures WellFormed(t)
    ensures WorkingNode(t, 0) == Some(2)
  {
    HeaderOutsideWalk(t);
    var v0, v1, v2, v3 := Visit(0, []), Visit(1, [0]), Visit(2, [0]), Visit(3, [0, 2]);
    ScanStep(t, [], v0);
    assert [] + [v0] == [v0];
    assert ScanOf(t, [v0]) == Unscanned;
    ScanStep(t, [v0], v1);
    assert [v0] + [v1] == [v0, v1];
    assert ScanOf(t, [v0, v1]) == Scan(None, Some(1), Some(0), false, false);
    ScanStep(t, [v0, v1], v2);
    assert [v0, v1] + [v2] == [v0, v1, v2];
    assert ScanOf(t, [v0, v1, v2]) == Scan(Some(2), Some(1), Some(0), false, true);
    ScanStep(t, [v0, v1, v2], v3);
    assert [v0, v1, v2] + [v3] == [v0, v1, v2, v3];
  }

  // ---------------------------------------------------------------------------
  // has_link_somewhere (defined in a11y_tree.py, never called)
  // ---------------------------------------------------------------------------

  /** Whether the subtree of dict node `i` holds a link, checking the node before its children. */
  function HasLinkSomewhere(t: Tree, i: nat): (r: bool)
    requires WellFormed(t) && i < |t| && t[i].isDict
    ensures IsLink(t[i]) ==> r
    ensures t[i].children == [] ==> (r <==> IsLink(t[i]))
    decreases |t| - i, 1, 0
  {
    IsLink(t[i]) || AnyChildHasLink(t, t[i].children, i)
  }

  function AnyChildHasLink(t: Tree, cs: seq<nat>, lo: int): bool
    requires WellFormed(t) && InRange(t, cs, lo)
    decreases |t| - lo, 0, |cs|
  {
    cs != [] && ((t[cs[0]].isDict && HasLinkSomewhere(t, cs[0])) || AnyChildHasLink(t, cs[1..], lo))
  }

  /** has_link_somewhere answers whether the node's walk meets a link. */
  lemma {:induction false} HasLinkSomewhereMeaning(t: Tree, i: nat, path: seq<nat>)
    requires WellFormed(t) && i < |t| && t[i].isDict
    ensures HasLinkSomewhere(t, i) <==> exists v <- Walk(t, i, path) :: IsLink(t[v.node])
    decreases |t| - i, 1, 0
  {
    AnyChildHasLinkMeaning(t, t[i].children, path + [i]);
    assert Walk(t, i, path) == [Visit(i, path)] + WalkList(t, t[i].children, path + [i]);
  }

  lemma {:induction false} AnyChildHasLinkMeaning(t: Tree, cs: seq<nat>, path: seq<nat>)
    requires WellFormed(t) && InRange(t, cs, Bound(path))
    ensures AnyChildHasLink(t, cs, Bound(path)) <==> exists v <- WalkList(t, cs, path) :: IsLink(t[v.node])
    decreases |t| - Bound(path), 0, |cs|
  {
    if cs != [] {
      AnyChildHasLinkMeaning(t, cs[1..], path);
      var w := Walk(t, cs[0], path);
      assert WalkList(t, cs, path) == w + WalkList(t, cs[1..], path);
      if t[cs[0]].isDict {
        HasLinkSomewhereMeaning(t, cs[0], path);
      } else {
        assert w == [Visit(cs[0], path)];
      }
    }
  }
}
