/**
 * Checkbox propagation in the dependency selection tree. Nodes are indices
 * into a sequence of `SyncNode`s; their checked states live in an array of
 * the same length that the handler updates in place (`setNodeState`).
 * Child lists may form cycles; the parent chain may not, which the model
 * expresses by numbering every parent below its child.
 */
module DependencySelectionHandler {
  import opened Wrappers

  /** `SyncableNode` without its mutable `isChecked`, which is the array. */
  datatype SyncNode = SyncNode(groupId: string, artifactId: string, isProvided: bool,
                               parent: Option<nat>, children: seq<nat>)

  /** `mavenCoordinate`: "groupId:artifactId". */
  function MavenCoordinate(n: SyncNode): (r: string)
    ensures |r| == |n.groupId| + 1 + |n.artifactId|
    ensures r[..|n.groupId|] == n.groupId && r[|n.groupId|] == ':' && r[|n.groupId| + 1..] == n.artifactId
  {
    n.groupId + ":" + n.artifactId
  }

  /** Child indices are in range, and every parent is numbered below its child. */
  predicate WellFormed(nodes: seq<SyncNode>)
  {
    forall i :: 0 <= i < |nodes| ==>
      (nodes[i].parent.Some? ==> nodes[i].parent.value < i)
      && (forall j :: 0 <= j < |nodes[i].children| ==> nodes[i].children[j] < |nodes|)
  }

  predicate ValidIndices(nodes: seq<SyncNode>, s: seq<nat>)
  {
    forall k :: 0 <= k < |s| ==> s[k] < |nodes|
  }

  /**
   * The states after `setNodeState(i, newState)` for every target `i` that
   * may take it: any node when checking, only non-provided nodes when
   * unchecking.
   */
  function Assign(nodes: seq<SyncNode>, before: seq<bool>, targets: set<nat>, newState: bool): (r: seq<bool>)
    requires |before| == |nodes|
    ensures |r| == |before|
    ensures forall i :: 0 <= i < |r| && i !in targets ==> r[i] == before[i]
    ensures forall i :: 0 <= i < |r| && i in targets && (newState || !nodes[i].isProvided) ==> r[i] == newState
    ensures forall i :: 0 <= i < |r| && !newState && nodes[i].isProvided ==> r[i] == before[i]
  {
    seq(|before|, i requires 0 <= i < |before| =>
      if i in targets && (newState || !nodes[i].isProvided) then newState else before[i])
  }

  /** One more target: its state is set, unless it is provided and the new state is unchecked. */
  lemma AssignInsert(nodes: seq<SyncNode>, before: seq<bool>, targets: set<nat>, t: nat, newState: bool)
    requires |before| == |nodes| && t < |nodes|
    ensures Assign(nodes, before, targets + {t}, newState)
         == if newState || !nodes[t].isProvided then Assign(nodes, before, targets, newState)[t := newState]
            else Assign(nodes, before, targets, newState)
  {
  }

  /** Assigning two target sets one after the other assigns their union. */
  lemma AssignUnion(nodes: seq<SyncNode>, before: seq<bool>, s: set<nat>, t: set<nat>, newState: bool)
    requires |before| == |nodes|
    ensures Assign(nodes, Assign(nodes, before, s, newState), t, newState) == Assign(nodes, before, s + t, newState)
  {
  }

  // ---------------------------------------------------------------------
  // synchronize
  // ---------------------------------------------------------------------

  /** The nodes of `allNodes` with the given "groupId:artifactId". */
  function SameArtifact(nodes: seq<SyncNode>, allNodes: seq<nat>, coordinate: string): (r: set<nat>)
    requires ValidIndices(nodes, allNodes)
    ensures forall i :: i in r <==> i in allNodes && MavenCoordinate(nodes[i]) == coordinate
  {
    set i | i in allNodes && MavenCoordinate(nodes[i]) == coordinate
  }

  /** `synchronize`: every node of `allNodes` with the coordinate takes the new state, provided ones only when checking. */
  method Synchronize(nodes: seq<SyncNode>, checked: array<bool>, allNodes: seq<nat>, coordinate: string, newState: bool)
    requires checked.Length == |nodes| && ValidIndices(nodes, allNodes)
    modifies checked
    ensures checked[..] == Assign(nodes, old(checked[..]), SameArtifact(nodes, allNodes, coordinate), newState)
  {
    ghost var before := checked[..];
    for k := 0 to |allNodes|
      invariant checked[..] == Assign(nodes, before, SameArtifact(nodes, allNodes[..k], coordinate), newState)
    {
      var t := allNodes[k];
      assert allNodes[..k + 1] == allNodes[..k] + [t];
      var matchingCoordinates := MavenCoordinate(nodes[t]) == coordinate;
      var isNowCheckedOrNotProvided := newState || !nodes[t].isProvided;
      var checkedChanged := checked[t] != newState;
      if matchingCoordinates && isNowCheckedOrNotProvided && checkedChanged {
        checked[t] := newState;
      }
      assert checked[..] == Assign(nodes, before, SameArtifact(nodes, allNodes[..k + 1], coordinate), newState);
    }
    assert allNodes[..|allNodes|] == allNodes;
  }

  // ---------------------------------------------------------------------
  // propagateToChildren
  // ---------------------------------------------------------------------

  /** The node indices not yet on the path. */
  function Unvisited(nodes: seq<SyncNode>, visited: set<nat>): set<nat>
  {
    set i: nat | i < |nodes| && i !in visited
  }

  /**
   * The nodes `propagateToChildren(n, visited)` passes to `setNodeState`:
   * nothing when `n` is on the path, otherwise each child and what the
   * recursion below it writes.
   */
  function Written(nodes: seq<SyncNode>, n: nat, visited: set<nat>): set<nat>
    requires WellFormed(nodes) && n < |nodes|
    decreases Unvisited(nodes, visited), 1, 0
  {
    if n in visited then {}
    else
      assert Unvisited(nodes, visited + {n}) < Unvisited(nodes, visited) by {
        assert n in Unvisited(nodes, visited);
      }
      WrittenAll(nodes, nodes[n].children, visited + {n})
  }

  /** What the loop over `children` writes, each child with its recursion. */
  function WrittenAll(nodes: seq<SyncNode>, children: seq<nat>, visited: set<nat>): set<nat>
    requires WellFormed(nodes) && ValidIndices(nodes, children)
    decreases Unvisited(nodes, visited), 2, |children|
  {
    if children == [] then {}
    else
      var c := children[|children| - 1];
      WrittenAll(nodes, children[..|children| - 1], visited) + {c} + Written(nodes, c, visited)
  }

  /** `propagateToChildren(node, newState, visited)`. */
  method PropagateToChildren(nodes: seq<SyncNode>, checked: array<bool>, node: nat, newState: bool, visited: set<nat>)
    requires WellFormed(nodes) && checked.Length == |nodes| && node < |nodes|
    modifies checked
    ensures checked[..] == Assign(nodes, old(checked[..]), Written(nodes, node, visited), newState)
    decreases Unvisited(nodes, visited), 0
  {
    if node in visited {
      assert checked[..] == Assign(nodes, old(checked[..]), {}, newState);
      return;
    }
    var newVisited := visited + {node};
    assert Unvisited(nodes, newVisited) < Unvisited(nodes, visited) by {
      assert node in Unvisited(nodes, visited);
    }
    ghost var before := checked[..];
    var children := nodes[node].children;
    assert ValidIndices(nodes, children);
    for j := 0 to |children|
      invariant checked[..] == Assign(nodes, before, WrittenAll(nodes, children[..j], newVisited), newState)
    {
      assert children[..j + 1][..j] == children[..j];
      PropagateToChild(nodes, checked, children[j], newState, newVisited, before, WrittenAll(nodes, children[..j], newVisited));
    }
    assert children[..|children|] == children;
  }

  /**
   * One turn of the loop over the children: the child takes the new state
   * (a provided child only when checking) and propagation continues below it.
   */
  method PropagateToChild(nodes: seq<SyncNode>, checked: array<bool>, child: nat, newState: bool, visited: set<nat>,
                          ghost before: seq<bool>, ghost w: set<nat>)
    requires WellFormed(nodes) && checked.Length == |nodes| && child < |nodes| && |before| == |nodes|
    requires checked[..] == Assign(nodes, before, w, newState)
    modifies checked
    ensures checked[..] == Assign(nodes, before, w + {child} + Written(nodes, child, visited), newState)
    decreases Unvisited(nodes, visited), 1
  {
    AssignInsert(nodes, before, w, child, newState);
    if newState {
      checked[child] := true;
    } else if !nodes[child].isProvided {
      checked[child] := false;
    }
    PropagateToChildren(nodes, checked, child, newState, visited);
    AssignUnion(nodes, before, w + {child}, Written(nodes, child, visited), newState);
  }

  // ---------------------------------------------------------------------
  // propagateToParent
  // ---------------------------------------------------------------------

  /** The parent chain starting at `p`, inclusive. */
  function Chain(nodes: seq<SyncNode>, p: Option<nat>): set<nat>
    requires WellFormed(nodes) && (p.Some? ==> p.value < |nodes|)
    decreases if p.Some? then p.value + 1 else 0
  {
    if p.None? then {} else {p.value} + Chain(nodes, nodes[p.value].parent)
  }

  /** The ancestors of `n`: its parent, its parent's parent, and so on. */
  function Ancestors(nodes: seq<SyncNode>, n: nat): set<nat>
    requires WellFormed(nodes) && n < |nodes|
  {
    Chain(nodes, nodes[n].parent)
  }

  /** Every node on a parent chain is numbered at most its start, so the chain ends. */
  lemma {:induction false} ChainBelow(nodes: seq<SyncNode>, p: Option<nat>, a: nat)
    requires WellFormed(nodes) && (p.Some? ==> p.value < |nodes|)
    requires a in Chain(nodes, p)
    ensures p.Some? && a <= p.value
    decreases if p.Some? then p.value + 1 else 0
  {
    var q := nodes[p.value].parent;
    if a != p.value {
      ChainBelow(nodes, q, a);
    }
  }

  /** A node is never its own ancestor. */
  lemma AncestorsBelow(nodes: seq<SyncNode>, n: nat, a: nat)
    requires WellFormed(nodes) && n < |nodes|
    requires a in Ancestors(nodes, n)
    ensures a < n
  {
    ChainBelow(nodes, nodes[n].parent, a);
  }

  /** `propagateToParent(newState, node)`: when checking, every ancestor is checked. */
  method PropagateToParent(nodes: seq<SyncNode>, checked: array<bool>, newState: bool, node: nat)
    requires WellFormed(nodes) && checked.Length == |nodes| && node < |nodes|
    modifies checked
    ensures newState ==> checked[..] == Assign(nodes, old(checked[..]), Ancestors(nodes, node), true)
    ensures !newState ==> checked[..] == old(checked[..])
  {
    if newState {
      ghost var before := checked[..];
      var parent := nodes[node].parent;
      while parent.Some?
        invariant parent.Some? ==> parent.value < |nodes|
        invariant Chain(nodes, parent) <= Ancestors(nodes, node)
        invariant checked[..] == Assign(nodes, before, Ancestors(nodes, node) - Chain(nodes, parent), true)
        decreases if parent.Some? then parent.value + 1 else 0
      {
        var p := parent.value;
        ghost var rest := Chain(nodes, nodes[p].parent);
        assert p !in rest by {
          if p in rest { ChainBelow(nodes, nodes[p].parent, p); }
        }
        if !checked[p] {
          checked[p] := true;
        }
        parent := nodes[p].parent;
        assert Ancestors(nodes, node) - rest == (Ancestors(nodes, node) - ({p} + rest)) + {p};
      }
    }
  }

  // ---------------------------------------------------------------------
  // syncArtifacts
  // ---------------------------------------------------------------------

  /**
   * The checked states after `syncArtifacts(node, allNodes)`, where
   * `before[node]` is the state the click just gave the node.
   */
  function SyncResult(nodes: seq<SyncNode>, allNodes: seq<nat>, before: seq<bool>, node: nat): (r: seq<bool>)
    requires WellFormed(nodes) && ValidIndices(nodes, allNodes) && |before| == |nodes| && node < |nodes|
    ensures |r| == |before|
  {
    if nodes[node].isProvided then before[node := true]
    else
      var newState := before[node];
      var synced := Assign(nodes, before, SameArtifact(nodes, allNodes, MavenCoordinate(nodes[node])), newState);
      var down := Assign(nodes, synced, Written(nodes, node, {}), newState);
      if newState then Assign(nodes, down, Ancestors(nodes, node), true) else down
  }

  /** `syncArtifacts(node, allNodes, setNodeState)`. */
  method SyncArtifacts(nodes: seq<SyncNode>, checked: array<bool>, node: nat, allNodes: seq<nat>)
    requires WellFormed(nodes) && ValidIndices(nodes, allNodes) && checked.Length == |nodes| && node < |nodes|
    modifies checked
    ensures checked[..] == SyncResult(nodes, allNodes, old(checked[..]), node)
  {
    if nodes[node].isProvided {
      if !checked[node] {
        checked[node] := true;
      }
      assert checked[..] == old(checked[..])[node := true];
      return;
    }
    var mavenCoordinate := MavenCoordinate(nodes[node]);
    var newState := checked[node];
    Synchronize(nodes, checked, allNodes, mavenCoordinate, newState);
    PropagateToChildren(nodes, checked, node, newState, {});
    PropagateToParent(nodes, checked, newState, node);
  }

  // ---------------------------------------------------------------------
  // Reachability through child lists, and what propagation reaches
  // ---------------------------------------------------------------------

  /** `p` follows child edges. */
  ghost predicate IsChildPath(nodes: seq<SyncNode>, p: seq<nat>)
  {
    forall k :: 0 <= k < |p| - 1 ==> p[k] < |nodes| && p[k + 1] in nodes[p[k]].children
  }

  /** `d` is reached from `a` by one or more child edges. */
  ghost predicate IsDescendant(nodes: seq<SyncNode>, a: nat, d: nat)
  {
    exists p :: |p| >= 2 && p[0] == a && p[|p| - 1] == d && IsChildPath(nodes, p)
  }

  /** No node repeats on `p` before its last position. */
  ghost predicate DistinctPrefix(p: seq<nat>)
  {
    forall k, l :: 0 <= k < l < |p| - 1 ==> p[k] != p[l]
  }

  lemma {:induction false} WrittenAllContains(nodes: seq<SyncNode>, children: seq<nat>, visited: set<nat>, j: nat)
    requires WellFormed(nodes) && ValidIndices(nodes, children) && j < |children|
    ensures children[j] in WrittenAll(nodes, children, visited)
    ensures Written(nodes, children[j], visited) <= WrittenAll(nodes, children, visited)
    decreases |children|
  {
    var n := |children| - 1;
    if j < n {
      var init := children[..n];
      assert init[j] == children[j];
      WrittenAllContains(nodes, init, visited, j);
    }
  }

  lemma {:induction false} WrittenAllMember(nodes: seq<SyncNode>, children: seq<nat>, visited: set<nat>, d: nat)
    requires WellFormed(nodes) && ValidIndices(nodes, children)
    requires d in WrittenAll(nodes, children, visited)
    ensures exists j :: 0 <= j < |children| && (d == children[j] || d in Written(nodes, children[j], visited))
    decreases |children|
  {
    var n := |children| - 1;
    var init := children[..n];
    if d in WrittenAll(nodes, init, visited) {
      WrittenAllMember(nodes, init, visited, d);
      var j :| 0 <= j < |init| && (d == init[j] || d in Written(nodes, init[j], visited));
      assert init[j] == children[j];
    } else {
      assert d == children[n] || d in Written(nodes, children[n], visited);
    }
  }

  /** Propagation writes only descendants. */
  lemma {:induction false} WrittenSound(nodes: seq<SyncNode>, a: nat, visited: set<nat>, d: nat)
    requires WellFormed(nodes) && a < |nodes|
    requires d in Written(nodes, a, visited)
    ensures IsDescendant(nodes, a, d)
    decreases Unvisited(nodes, visited)
  {
    var v := visited + {a};
    assert Unvisited(nodes, v) < Unvisited(nodes, visited) by {
      assert a in Unvisited(nodes, visited);
    }
    var cs := nodes[a].children;
    WrittenAllMember(nodes, cs, v, d);
    var j :| 0 <= j < |cs| && (d == cs[j] || d in Written(nodes, cs[j], v));
    var c := cs[j];
    if d == c {
      var p := [a, c];
      assert IsChildPath(nodes, p);
    } else {
      WrittenSound(nodes, c, v, d);
      var q :| |q| >= 2 && q[0] == c && q[|q| - 1] == d && IsChildPath(nodes, q);
      var p := [a] + q;
      assert forall k :: 1 <= k < |p| ==> p[k] == q[k - 1];
      assert IsChildPath(nodes, p);
    }
  }

  /** Propagation writes the end of every path whose earlier nodes are distinct and off the path so far. */
  lemma {:induction false} WrittenComplete(nodes: seq<SyncNode>, p: seq<nat>, visited: set<nat>)
    requires WellFormed(nodes) && |p| >= 2 && IsChildPath(nodes, p) && DistinctPrefix(p)
    requires forall k :: 0 <= k < |p| - 1 ==> p[k] !in visited
    ensures p[|p| - 1] in Written(nodes, p[0], visited)
    decreases |p|
  {
    var a := p[0];
    var v := visited + {a};
    var cs := nodes[a].children;
    assert p[0] < |nodes| && p[1] in cs;
    var j :| 0 <= j < |cs| && cs[j] == p[1];
    WrittenAllContains(nodes, cs, v, j);
    assert Written(nodes, a, visited) == WrittenAll(nodes, cs, v);
    if |p| > 2 {
      var q := p[1..];
      assert forall k :: 0 <= k < |q| ==> q[k] == p[k + 1];
      assert IsChildPath(nodes, q);
      assert forall k :: 0 <= k < |q| - 1 ==> q[k] !in v;
      WrittenComplete(nodes, q, v);
    }
  }

  /** Any child path can be shortened to one with a distinct prefix and the same ends. */
  lemma {:induction false} ShortenPath(nodes: seq<SyncNode>, p: seq<nat>) returns (q: seq<nat>)
    requires |p| >= 2 && IsChildPath(nodes, p)
    ensures |q| >= 2 && q[0] == p[0] && q[|q| - 1] == p[|p| - 1] && IsChildPath(nodes, q) && DistinctPrefix(q)
    decreases |p|
  {
    if DistinctPrefix(p) {
      q := p;
    } else {
      var i, j :| 0 <= i < j < |p| - 1 && p[i] == p[j];
      var r := CutCycle(nodes, p, i, j);
      q := ShortenPath(nodes, r);
    }
  }

  /** Cutting the cycle between two visits of one node leaves a shorter child path with the same ends. */
  lemma CutCycle(nodes: seq<SyncNode>, p: seq<nat>, i: nat, j: nat) returns (r: seq<nat>)
    requires IsChildPath(nodes, p) && i < j < |p| - 1 && p[i] == p[j]
    ensures r == p[..i] + p[j..]
    ensures 2 <= |r| < |p| && r[0] == p[0] && r[|r| - 1] == p[|p| - 1] && IsChildPath(nodes, r)
  {
    r := p[..i] + p[j..];
    assert |r| == |p| - (j - i);
    assert forall k :: 0 <= k < i ==> r[k] == p[k];
    assert forall k :: i <= k < |r| ==> r[k] == p[k + j - i];
    forall k | 0 <= k < |r| - 1 ensures r[k] < |nodes| && r[k + 1] in nodes[r[k]].children {
      if k + 1 < i {
      } else if k + 1 == i {
        assert r[k] == p[k] && r[k + 1] == p[j] == p[i];
      } else {
        assert r[k] == p[k + j - i] && r[k + 1] == p[k + 1 + j - i];
      }
    }
  }

  /** From a fresh start, propagation writes exactly the descendants. */
  lemma WrittenIffDescendant(nodes: seq<SyncNode>, a: nat, d: nat)
    requires WellFormed(nodes) && a < |nodes|
    ensures d in Written(nodes, a, {}) <==> IsDescendant(nodes, a, d)
  {
    if d in Written(nodes, a, {}) {
      WrittenSound(nodes, a, {}, d);
    }
    if IsDescendant(nodes, a, d) {
      var p :| |p| >= 2 && p[0] == a && p[|p| - 1] == d && IsChildPath(nodes, p);
      var q := ShortenPath(nodes, p);
      WrittenComplete(nodes, q, {});
    }
  }

  // ---------------------------------------------------------------------
  // The rules of syncArtifacts
  // ---------------------------------------------------------------------

  /** Rule 1: a provided node is forced back to checked and nothing else changes. */
  lemma SyncProvided(nodes: seq<SyncNode>, allNodes: seq<nat>, before: seq<bool>, node: nat)
    requires WellFormed(nodes) && ValidIndices(nodes, allNodes) && |before| == |nodes| && node < |nodes|
    requires nodes[node].isProvided
    ensures var r := SyncResult(nodes, allNodes, before, node);
      r[node] && forall i :: 0 <= i < |r| && i != node ==> r[i] == before[i]
  {
  }

  /** A provided node that is checked stays checked, whatever node is clicked. */
  lemma SyncNeverUnchecksProvided(nodes: seq<SyncNode>, allNodes: seq<nat>, before: seq<bool>, node: nat, i: nat)
    requires WellFormed(nodes) && ValidIndices(nodes, allNodes) && |before| == |nodes| && node < |nodes|
    requires i < |nodes| && nodes[i].isProvided && before[i]
    ensures SyncResult(nodes, allNodes, before, node)[i]
  {
  }

  /** Rule 2: every same-G:A node of `allNodes` takes the new state, except provided nodes when unchecking. */
  lemma SyncSameArtifact(nodes: seq<SyncNode>, allNodes: seq<nat>, before: seq<bool>, node: nat, i: nat)
    requires WellFormed(nodes) && ValidIndices(nodes, allNodes) && |before| == |nodes| && node < |nodes|
    requires !nodes[node].isProvided
    requires i in allNodes && MavenCoordinate(nodes[i]) == MavenCoordinate(nodes[node])
    ensures var r := SyncResult(nodes, allNodes, before, node);
      (before[node] || !nodes[i].isProvided ==> r[i] == before[node])
      && (!before[node] && nodes[i].isProvided ==> r[i] == before[i])
  {
    var s := before[node];
    var synced := Assign(nodes, before, SameArtifact(nodes, allNodes, MavenCoordinate(nodes[node])), s);
    assert i in SameArtifact(nodes, allNodes, MavenCoordinate(nodes[node]));
    var down := Assign(nodes, synced, Written(nodes, node, {}), s);
    if s {
      assert down[i];
    }
  }

  /** Rule 3, checking: every descendant, and every ancestor, ends up checked. */
  lemma SyncChecks(nodes: seq<SyncNode>, allNodes: seq<nat>, before: seq<bool>, node: nat, i: nat)
    requires WellFormed(nodes) && ValidIndices(nodes, allNodes) && |before| == |nodes| && node < |nodes|
    requires !nodes[node].isProvided && before[node]
    requires i < |nodes| && (IsDescendant(nodes, node, i) || i in Ancestors(nodes, node))
    ensures SyncResult(nodes, allNodes, before, node)[i]
  {
    WrittenIffDescendant(nodes, node, i);
  }

  /** Rule 3, unchecking: non-provided descendants end up unchecked, provided nodes keep their state. */
  lemma SyncUnchecksDescendants(nodes: seq<SyncNode>, allNodes: seq<nat>, before: seq<bool>, node: nat, i: nat)
    requires WellFormed(nodes) && ValidIndices(nodes, allNodes) && |before| == |nodes| && node < |nodes|
    requires !nodes[node].isProvided && !before[node]
    requires i < |nodes| && IsDescendant(nodes, node, i)
    ensures var r := SyncResult(nodes, allNodes, before, node);
      (!nodes[i].isProvided ==> !r[i]) && (nodes[i].isProvided ==> r[i] == before[i])
  {
    WrittenIffDescendant(nodes, node, i);
  }

  /**
   * Nodes that are neither same-G:A nodes of `allNodes`, nor descendants,
   * nor (when checking) ancestors keep their state; when unchecking, the
   * ancestors are among them.
   */
  lemma SyncOthersUnchanged(nodes: seq<SyncNode>, allNodes: seq<nat>, before: seq<bool>, node: nat, i: nat)
    requires WellFormed(nodes) && ValidIndices(nodes, allNodes) && |before| == |nodes| && node < |nodes|
    requires !nodes[node].isProvided && i < |nodes|
    requires !(i in allNodes && MavenCoordinate(nodes[i]) == MavenCoordinate(nodes[node]))
    requires !IsDescendant(nodes, node, i)
    requires !(before[node] && i in Ancestors(nodes, node))
    ensures SyncResult(nodes, allNodes, before, node)[i] == before[i]
  {
    WrittenIffDescendant(nodes, node, i);
  }

  /** The clicked node keeps the state the click gave it, even on a cycle through itself. */
  lemma SyncKeepsClickedState(nodes: seq<SyncNode>, allNodes: seq<nat>, before: seq<bool>, node: nat)
    requires WellFormed(nodes) && ValidIndices(nodes, allNodes) && |before| == |nodes| && node < |nodes|
    requires !nodes[node].isProvided
    ensures SyncResult(nodes, allNodes, before, node)[node] == before[node]
  {
    if node in Ancestors(nodes, node) {
      AncestorsBelow(nodes, node, node);
    }
  }
}
