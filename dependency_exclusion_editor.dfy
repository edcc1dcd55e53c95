/**
 * The exclusion editor's checkbox tree: how it is built from a resolved
 * dependency tree, how stored exclusions uncheck it, and how the edited
 * tree is read back as a set of "groupId:artifactId" exclusions.
 */
module DependencyExclusionEditor {
  import opened Wrappers
  import R = MavenDependencyResolver

  /** `CheckedTreeNode` holding a resolved node, with its checked and enabled flags. */
  datatype TreeNode = TreeNode(resolved: R.ResolvedNode, checked: bool, enabled: bool, children: seq<TreeNode>)

  /** `mavenCoordinate` of a tree node: its groupId and artifactId, never its version. */
  function MavenCoordinate(t: TreeNode): string
  {
    t.resolved.groupId + ":" + t.resolved.artifactId
  }

  /** Exclusions match on groupId:artifactId only: two versions of an artifact are matched alike. */
  lemma MatchingIgnoresVersion(t: TreeNode, u: TreeNode, excluded: set<string>)
    requires t.resolved.groupId == u.resolved.groupId && t.resolved.artifactId == u.resolved.artifactId
    requires t.resolved.version != u.resolved.version
    ensures MavenCoordinate(t) in excluded <==> MavenCoordinate(u) in excluded
  {
  }

  // ---------------------------------------------------------------------
  // buildDependencyTreeNode
  // ---------------------------------------------------------------------

  /** `buildDependencyTreeNode(node, visited)`. */
  function BuildTree(node: R.ResolvedNode, visited: set<string>): (r: TreeNode)
    ensures r.resolved == node && r.checked
    ensures r.enabled <==> !node.isProvided && node.coordinate !in visited
    ensures node.coordinate in visited ==> r.children == []
    ensures node.coordinate !in visited ==>
      |r.children| == |node.children|
      && forall i :: 0 <= i < |r.children| ==> r.children[i].resolved == node.children[i]
    decreases node
  {
    if node.coordinate in visited then TreeNode(node, true, false, [])
    else
      var next := visited + {node.coordinate};
      TreeNode(node, true, !node.isProvided,
               seq(|node.children|, i requires 0 <= i < |node.children| => BuildTree(node.children[i], next)))
  }

  /** Every node of a tree, as the sequence of child indices leading to it. */
  predicate ValidPath(t: TreeNode, path: seq<nat>)
    decreases |path|
  {
    path == [] || (path[0] < |t.children| && ValidPath(t.children[path[0]], path[1..]))
  }

  function NodeAt(t: TreeNode, path: seq<nat>): TreeNode
    requires ValidPath(t, path)
    decreases |path|
  {
    if path == [] then t else NodeAt(t.children[path[0]], path[1..])
  }

  /** A freshly built tree is entirely checked, and each node is enabled only if it is not provided. */
  lemma {:induction false} BuildTreeFlags(node: R.ResolvedNode, visited: set<string>, path: seq<nat>)
    requires ValidPath(BuildTree(node, visited), path)
    ensures var n := NodeAt(BuildTree(node, visited), path);
      n.checked && (n.enabled ==> !n.resolved.isProvided)
    decreases |path|
  {
    if path != [] {
      BuildTreeFlags(node.children[path[0]], visited + {node.coordinate}, path[1..]);
    }
  }

  // ---------------------------------------------------------------------
  // uncheckExcludedNodes
  // ---------------------------------------------------------------------

  /** `uncheckExcludedNodes(node, excluded, parentIsExcluded)`, on a copy of the tree. */
  function Uncheck(t: TreeNode, excluded: set<string>, parentIsExcluded: bool): (r: TreeNode)
    ensures r.resolved == t.resolved && r.enabled == t.enabled && |r.children| == |t.children|
    decreases t
  {
    var isExcluded := parentIsExcluded || MavenCoordinate(t) in excluded;
    TreeNode(t.resolved, !isExcluded || t.resolved.isProvided, t.enabled,
             seq(|t.children|, i requires 0 <= i < |t.children| => Uncheck(t.children[i], excluded, isExcluded)))
  }

  /** Some node on `path`, the start and the end included, has an excluded G:A. */
  predicate ExcludedOnPath(t: TreeNode, path: seq<nat>, excluded: set<string>)
    requires ValidPath(t, path)
    decreases |path|
  {
    MavenCoordinate(t) in excluded || (path != [] && ExcludedOnPath(t.children[path[0]], path[1..], excluded))
  }

  /** Unchecking leaves the shape of the tree as it was. */
  lemma {:induction false} UncheckKeepsPaths(t: TreeNode, excluded: set<string>, parentIsExcluded: bool, path: seq<nat>)
    requires ValidPath(t, path)
    ensures ValidPath(Uncheck(t, excluded, parentIsExcluded), path)
    ensures NodeAt(Uncheck(t, excluded, parentIsExcluded), path).resolved == NodeAt(t, path).resolved
    decreases |path|
  {
    if path != [] {
      UncheckKeepsPaths(t.children[path[0]], excluded, parentIsExcluded || MavenCoordinate(t) in excluded, path[1..]);
    }
  }

  /**
   * After unchecking, a node is checked exactly when it is provided or when
   * neither its own G:A nor that of any ancestor is excluded.
   */
  lemma {:induction false} UncheckedIff(t: TreeNode, excluded: set<string>, parentIsExcluded: bool, path: seq<nat>)
    requires ValidPath(t, path)
    ensures ValidPath(Uncheck(t, excluded, parentIsExcluded), path)
    ensures NodeAt(Uncheck(t, excluded, parentIsExcluded), path).checked
        <==> NodeAt(t, path).resolved.isProvided || !(parentIsExcluded || ExcludedOnPath(t, path, excluded))
    decreases |path|
  {
    UncheckKeepsPaths(t, excluded, parentIsExcluded, path);
    if path != [] {
      UncheckedIff(t.children[path[0]], excluded, parentIsExcluded || MavenCoordinate(t) in excluded, path[1..]);
    }
  }

  // ---------------------------------------------------------------------
  // collectUncheckedNodes
  // ---------------------------------------------------------------------

  /** What `collectUncheckedNodes(t, result)` adds to `result`. */
  function Unchecked(t: TreeNode): set<string>
    decreases t, 1
  {
    if t.checked then UncheckedAll(t.children) else {MavenCoordinate(t)}
  }

  function UncheckedAll(cs: seq<TreeNode>): set<string>
    decreases cs, 0
  {
    if cs == [] then {}
    else UncheckedAll(cs[..|cs| - 1]) + Unchecked(cs[|cs| - 1])
  }

  /** `collectUncheckedNodes(node, result)`; the set it fills is passed in and returned. */
  method CollectUncheckedNodes(node: TreeNode, result: set<string>) returns (r: set<string>)
    ensures r == result + Unchecked(node)
    decreases node
  {
    if node.checked {
      r := result;
      for i := 0 to |node.children|
        invariant r == result + UncheckedAll(node.children[..i])
      {
        assert node.children[..i + 1][..i] == node.children[..i];
        r := CollectUncheckedNodes(node.children[i], r);
      }
      assert node.children[..|node.children|] == node.children;
    } else {
      r := result + {MavenCoordinate(node)};
    }
  }

  /** Every node strictly above the end of `path` is checked. */
  predicate CheckedAbove(t: TreeNode, path: seq<nat>)
    requires ValidPath(t, path)
    decreases |path|
  {
    path == [] || (t.checked && CheckedAbove(t.children[path[0]], path[1..]))
  }

  lemma {:induction false} UncheckedAllMember(cs: seq<TreeNode>, x: string)
    ensures x in UncheckedAll(cs) <==> exists i :: 0 <= i < |cs| && x in Unchecked(cs[i])
    decreases |cs|
  {
    if cs != [] {
      var n := |cs| - 1;
      UncheckedAllMember(cs[..n], x);
      if x in UncheckedAll(cs[..n]) {
        var i :| 0 <= i < n && x in Unchecked(cs[..n][i]);
        assert cs[..n][i] == cs[i];
      }
      if exists i :: 0 <= i < |cs| && x in Unchecked(cs[i]) {
        var i :| 0 <= i < |cs| && x in Unchecked(cs[i]);
        if i < n {
          assert cs[..n][i] == cs[i];
        }
      }
    }
  }

  /** Each G:A collected is that of an unchecked node all of whose ancestors are checked. */
  lemma {:induction false} UncheckedSound(t: TreeNode, x: string) returns (path: seq<nat>)
    requires x in Unchecked(t)
    ensures ValidPath(t, path) && CheckedAbove(t, path)
    ensures !NodeAt(t, path).checked && MavenCoordinate(NodeAt(t, path)) == x
    decreases t
  {
    if !t.checked {
      path := [];
    } else {
      UncheckedAllMember(t.children, x);
      var i :| 0 <= i < |t.children| && x in Unchecked(t.children[i]);
      var p := UncheckedSound(t.children[i], x);
      path := [i] + p;
      assert path[0] == i && path[1..] == p;
    }
  }

  /** The G:A of every unchecked node all of whose ancestors are checked is collected. */
  lemma {:induction false} UncheckedComplete(t: TreeNode, path: seq<nat>)
    requires ValidPath(t, path) && CheckedAbove(t, path) && !NodeAt(t, path).checked
    ensures MavenCoordinate(NodeAt(t, path)) in Unchecked(t)
    decreases |path|
  {
    if path != [] {
      var i := path[0];
      UncheckedComplete(t.children[i], path[1..]);
      UncheckedAllMember(t.children, MavenCoordinate(NodeAt(t, path)));
    }
  }

  // ---------------------------------------------------------------------
  // selectExcludedDependencies
  // ---------------------------------------------------------------------

  /** The tree the dialog opens with: built from the resolved root, then unchecked by the stored exclusions. */
  function InitialTree(root: R.ResolvedNode, initialExclusions: set<string>): TreeNode
  {
    Uncheck(BuildTree(root, {}), initialExclusions, false)
  }

  /** `path` leads to an unchecked node with G:A `x` all of whose ancestors are checked. */
  predicate TopUncheckedAt(t: TreeNode, path: seq<nat>, x: string)
  {
    ValidPath(t, path) && CheckedAbove(t, path) && !NodeAt(t, path).checked && MavenCoordinate(NodeAt(t, path)) == x
  }

  /**
   * `selectExcludedDependencies`: `finalTree` is the tree as the user left
   * it; the result is none when the dialog was cancelled.
   */
  function SelectExcludedDependencies(finalTree: TreeNode, accepted: bool): (r: Option<set<string>>)
    ensures r.None? <==> !accepted
    ensures r.Some? ==> forall x :: x in r.value ==> exists path :: TopUncheckedAt(finalTree, path, x)
  {
    if accepted then
      assert forall x :: x in Unchecked(finalTree) ==> exists path :: TopUncheckedAt(finalTree, path, x) by {
        forall x | x in Unchecked(finalTree) ensures exists path :: TopUncheckedAt(finalTree, path, x) {
          var path := UncheckedSound(finalTree, x);
          assert TopUncheckedAt(finalTree, path, x);
        }
      }
      Some(Unchecked(finalTree))
    else None
  }

  /** No provided node of the tree has an excluded G:A. */
  predicate NoExcludedProvided(t: TreeNode, excluded: set<string>)
    decreases t
  {
    !(t.resolved.isProvided && MavenCoordinate(t) in excluded)
    && forall i :: 0 <= i < |t.children| ==> NoExcludedProvided(t.children[i], excluded)
  }

  /** The excluded G:As that are not below another excluded G:A. */
  function TopExcluded(t: TreeNode, excluded: set<string>): (r: set<string>)
    ensures r <= excluded
    decreases t
  {
    if MavenCoordinate(t) in excluded then {MavenCoordinate(t)}
    else set x, i | 0 <= i < |t.children| && x in TopExcluded(t.children[i], excluded) :: x
  }

  /**
   * Accepting the dialog without edits gives back the stored exclusions
   * that are topmost in the tree, so no exclusion is invented, when no
   * provided node is excluded.
   */
  lemma {:induction false} UntouchedRoundTrip(t: TreeNode, excluded: set<string>)
    requires NoExcludedProvided(t, excluded)
    ensures Unchecked(Uncheck(t, excluded, false)) == TopExcluded(t, excluded)
    decreases t
  {
    var u := Uncheck(t, excluded, false);
    if MavenCoordinate(t) !in excluded {
      forall x ensures x in UncheckedAll(u.children) <==> x in TopExcluded(t, excluded) {
        UncheckedAllMember(u.children, x);
        forall i | 0 <= i < |t.children| ensures Unchecked(u.children[i]) == TopExcluded(t.children[i], excluded) {
          UntouchedRoundTrip(t.children[i], excluded);
        }
      }
    }
  }
}
