/**
 * `PluginDependencyService`: which nodes of a resolved plugin tree are
 * downloaded (`collectAllowedNodes`), the bookkeeping of one reconciliation
 * run (`resolvePlugin`, `downloadPlugins`) and the keep/delete/copy
 * decisions taken on the plugin folder.
 */
module PluginDependencyService {
  import opened Wrappers
  import opened Strings
  import opened Distinct
  import ProvidedDependencies
  import MavenRepositoryPaths
  import opened MavenDependencyResolver

  const IdeaFolder: string := ".idea"
  const PluginFolderName: string := "detektPlugins"
  const DownloadedFileName: string := "downloaded.json"
  const JarExtension: string := ".jar"

  /** `DetektPlugin`: a Maven coordinate and the coordinates or G:A pairs the user excluded. */
  datatype DetektPlugin = DetektPlugin(coordinate: string, exclusions: set<string>)

  /**
   * `getPluginFolder`: `<basePath>/.idea/detektPlugins`, or the relative
   * `.idea/detektPlugins` without a base path.
   */
  function GetPluginFolder(basePath: Option<string>): (r: string)
    ensures EndsWith(r, IdeaFolder + "/" + PluginFolderName)
    ensures basePath.None? ==> r == IdeaFolder + "/" + PluginFolderName
    ensures basePath.Some? ==> StartsWith(r, basePath.value + "/")
  {
    match basePath
    case None => IdeaFolder + "/" + PluginFolderName
    case Some(b) => b + "/" + IdeaFolder + "/" + PluginFolderName
  }

  /** `getDownloadedFile`: `downloaded.json` inside the plugin folder. */
  function GetDownloadedFile(basePath: Option<string>): (r: string)
    ensures StartsWith(r, GetPluginFolder(basePath) + "/")
    ensures EndsWith(r, "/" + DownloadedFileName)
  {
    GetPluginFolder(basePath) + "/" + DownloadedFileName
  }

  /** Appending two '/'-free names to a path appends two segments. */
  lemma {:induction false} AppendSegments(base: string, first: string, second: string)
    requires '/' !in first && '/' !in second
    ensures Split(base + "/" + first + "/" + second, '/') == Split(base, '/') + [first, second]
  {
    SplitFree(first, '/');
    SplitFree(second, '/');
    var tail := first + ['/'] + second;
    SplitConcat(first, '/', second);
    assert base + "/" + first + "/" + second == base + ['/'] + tail;
    SplitConcat(base, '/', tail);
  }

  /** The plugin folder's path segments are the base path's, then `.idea` and `detektPlugins`. */
  lemma PluginFolderSegments(basePath: string)
    ensures Split(GetPluginFolder(Some(basePath)), '/') == Split(basePath, '/') + [IdeaFolder, PluginFolderName]
  {
    AppendSegments(basePath, IdeaFolder, PluginFolderName);
  }

  // ---------------------------------------------------------------------
  // collectAllowedNodes
  // ---------------------------------------------------------------------

  /** Whether a node is excluded by its full coordinate or by its coordinate up to the last ':'. */
  predicate IsExcluded(n: ResolvedNode, exclusions: set<string>)
  {
    n.coordinate in exclusions || SubstringBeforeLast(n.coordinate, ':') in exclusions
  }

  /** A node `traverse` keeps: not provided by the IDE and not excluded. */
  predicate Admits(n: ResolvedNode, exclusions: set<string>)
  {
    !ProvidedDependencies.IsProvided(n.groupId, n.artifactId) && !IsExcluded(n, exclusions)
  }

  /**
   * What `traverse(n, visited)` appends to the result: nothing when the
   * coordinate is already on the path, when the node is provided or when it
   * is excluded (its subtree included); otherwise the node and then what
   * its children append, in preorder.
   */
  function Collected(n: ResolvedNode, exclusions: set<string>, visited: set<string>): (r: seq<ResolvedNode>)
    ensures r == [] <==> n.coordinate in visited || !Admits(n, exclusions)
    ensures r != [] ==> r[0] == n
    decreases n
  {
    if n.coordinate in visited || !Admits(n, exclusions) then []
    else [n] + CollectedChildren(n.children, exclusions, visited + {n.coordinate})
  }

  /** `children.forEach { traverse(it, newVisited) }`. */
  function CollectedChildren(children: seq<ResolvedNode>, exclusions: set<string>, visited: set<string>): seq<ResolvedNode>
    decreases children
  {
    if children == [] then []
    else Collected(children[0], exclusions, visited) + CollectedChildren(children[1..], exclusions, visited)
  }

  /** Only admitted nodes whose coordinate is not yet on the path are collected. */
  lemma {:induction false} CollectedAdmitted(n: ResolvedNode, exclusions: set<string>, visited: set<string>, x: ResolvedNode)
    requires x in Collected(n, exclusions, visited)
    ensures Admits(x, exclusions) && x.coordinate !in visited
  {
    CollectedReached(n, exclusions, visited, x);
    var path :| ReachedBy(n, path, x, exclusions, visited);
    ReachedAdmitted(n, path, exclusions, visited, x);
  }

  lemma {:induction false} ReachedAdmitted(n: ResolvedNode, path: seq<nat>, exclusions: set<string>, visited: set<string>, x: ResolvedNode)
    requires ReachedBy(n, path, x, exclusions, visited)
    ensures Admits(x, exclusions) && x.coordinate !in visited
    decreases |path|
  {
    if path != [] {
      ReachedAdmitted(n.children[path[0]], path[1..], exclusions, visited + {n.coordinate}, x);
    }
  }

  lemma {:induction false} CollectedChildrenSnoc(cs: seq<ResolvedNode>, c: ResolvedNode, exclusions: set<string>, visited: set<string>)
    ensures CollectedChildren(cs + [c], exclusions, visited)
         == CollectedChildren(cs, exclusions, visited) + Collected(c, exclusions, visited)
    decreases |cs|
  {
    if cs == [] {
      assert [c][1..] == [];
      assert cs + [c] == [c];
    } else {
      HeadTailAppend(cs, [c]);
      CollectedChildrenSnoc(cs[1..], c, exclusions, visited);
      AppendAssoc(Collected(cs[0], exclusions, visited), CollectedChildren(cs[1..], exclusions, visited),
                  Collected(c, exclusions, visited));
    }
  }

  /**
   * The local `traverse` of `collectAllowedNodes`; `acc` is the result list
   * it appends to.
   */
  method Traverse(n: ResolvedNode, exclusions: set<string>, visited: set<string>, acc: seq<ResolvedNode>)
    returns (result: seq<ResolvedNode>)
    ensures result == acc + Collected(n, exclusions, visited)
    decreases n, 1
  {
    if n.coordinate in visited {
      assert Collected(n, exclusions, visited) == [];
      return acc;
    }
    if ProvidedDependencies.IsProvided(n.groupId, n.artifactId) {
      assert !Admits(n, exclusions);
      return acc;
    }
    var ga := SubstringBeforeLast(n.coordinate, ':');
    if n.coordinate in exclusions || ga in exclusions {
      assert IsExcluded(n, exclusions);
      return acc;
    }
    assert Admits(n, exclusions);
    result := acc + [n];
    var newVisited := visited + {n.coordinate};
    for i := 0 to |n.children|
      invariant result == acc + [n] + CollectedChildren(n.children[..i], exclusions, newVisited)
    {
      result := TraverseChild(n, i, exclusions, newVisited, acc + [n], result);
    }
    assert n.children[..|n.children|] == n.children;
  }

  /** One turn of the loop over the children of `n`: `traverse(it, newVisited)` on child `i`. */
  method TraverseChild(n: ResolvedNode, i: nat, exclusions: set<string>, visited: set<string>,
                       prefix: seq<ResolvedNode>, acc: seq<ResolvedNode>)
    returns (result: seq<ResolvedNode>)
    requires i < |n.children| && acc == prefix + CollectedChildren(n.children[..i], exclusions, visited)
    ensures result == prefix + CollectedChildren(n.children[..i + 1], exclusions, visited)
    decreases n, 0
  {
    var c := n.children[i];
    CollectedChildrenSnoc(n.children[..i], c, exclusions, visited);
    assert n.children[..i + 1] == n.children[..i] + [c];
    result := Traverse(c, exclusions, visited, acc);
    AppendAssoc(prefix, CollectedChildren(n.children[..i], exclusions, visited), Collected(c, exclusions, visited));
  }

  function CoordinateOf(n: ResolvedNode): string { n.coordinate }

  /** The nodes `collectAllowedNodes` returns: the preorder collection, distinct by coordinate. */
  function AllowedNodes(root: ResolvedNode, exclusions: set<string>): seq<ResolvedNode>
  {
    DistinctBy(Collected(root, exclusions, {}), CoordinateOf, {})
  }

  /** `collectAllowedNodes(node, exclusions)`. */
  method CollectAllowedNodes(node: ResolvedNode, exclusions: set<string>) returns (r: seq<ResolvedNode>)
    ensures r == AllowedNodes(node, exclusions)
  {
    var result := Traverse(node, exclusions, {}, []);
    assert result == Collected(node, exclusions, {});
    r := DistinctBy(result, CoordinateOf, {});
  }

  /**
   * `target` is reached from `n` by following the child indices `path`
   * through nodes that are each admitted and whose coordinates were not yet
   * on the path.
   */
  ghost predicate ReachedBy(n: ResolvedNode, path: seq<nat>, target: ResolvedNode, exclusions: set<string>, visited: set<string>)
    decreases |path|
  {
    Admits(n, exclusions) && n.coordinate !in visited &&
    if path == [] then target == n
    else path[0] < |n.children| && ReachedBy(n.children[path[0]], path[1..], target, exclusions, visited + {n.coordinate})
  }

  lemma {:induction false} CollectedChildrenMembership(cs: seq<ResolvedNode>, exclusions: set<string>, visited: set<string>, x: ResolvedNode)
    ensures x in CollectedChildren(cs, exclusions, visited)
        <==> exists i :: 0 <= i < |cs| && x in Collected(cs[i], exclusions, visited)
    decreases |cs|
  {
    if cs != [] {
      CollectedChildrenMembership(cs[1..], exclusions, visited, x);
      if x in CollectedChildren(cs[1..], exclusions, visited) {
        var i :| 0 <= i < |cs[1..]| && x in Collected(cs[1..][i], exclusions, visited);
        assert cs[i + 1] == cs[1..][i];
      }
      if exists i :: 0 <= i < |cs| && x in Collected(cs[i], exclusions, visited) {
        var i :| 0 <= i < |cs| && x in Collected(cs[i], exclusions, visited);
        if i > 0 {
          assert cs[1..][i - 1] == cs[i];
        }
      }
    }
  }

  /** Every collected node is reached by an admitted path. */
  lemma {:induction false} CollectedReached(n: ResolvedNode, exclusions: set<string>, visited: set<string>, x: ResolvedNode)
    requires x in Collected(n, exclusions, visited)
    ensures exists path :: ReachedBy(n, path, x, exclusions, visited)
    decreases n
  {
    var w := visited + {n.coordinate};
    if x == n {
      assert ReachedBy(n, [], x, exclusions, visited);
    } else {
      assert Collected(n, exclusions, visited) == [n] + CollectedChildren(n.children, exclusions, w);
      assert x in CollectedChildren(n.children, exclusions, w);
      CollectedChildrenMembership(n.children, exclusions, w, x);
      var i :| 0 <= i < |n.children| && x in Collected(n.children[i], exclusions, w);
      CollectedReached(n.children[i], exclusions, w, x);
      var p :| ReachedBy(n.children[i], p, x, exclusions, w);
      var path := [i] + p;
      assert path[0] == i && path[1..] == p;
      assert ReachedBy(n, path, x, exclusions, visited);
    }
  }

  /** Every node reached by an admitted path is collected. */
  lemma {:induction false} ReachedCollected(n: ResolvedNode, path: seq<nat>, exclusions: set<string>, visited: set<string>, x: ResolvedNode)
    requires ReachedBy(n, path, x, exclusions, visited)
    ensures x in Collected(n, exclusions, visited)
    decreases n
  {
    if path != [] {
      var w := visited + {n.coordinate};
      var i := path[0];
      ReachedCollected(n.children[i], path[1..], exclusions, w, x);
      CollectedChildrenMembership(n.children, exclusions, w, x);
      assert Collected(n, exclusions, visited) == [n] + CollectedChildren(n.children, exclusions, w);
    }
  }

  /** A node is collected exactly when some admitted path reaches it. */
  lemma CollectedIffReached(n: ResolvedNode, exclusions: set<string>, visited: set<string>, x: ResolvedNode)
    ensures x in Collected(n, exclusions, visited) <==> exists path :: ReachedBy(n, path, x, exclusions, visited)
  {
    if x in Collected(n, exclusions, visited) {
      CollectedReached(n, exclusions, visited, x);
    }
    if exists path :: ReachedBy(n, path, x, exclusions, visited) {
      var path :| ReachedBy(n, path, x, exclusions, visited);
      ReachedCollected(n, path, exclusions, visited, x);
    }
  }

  /**
   * `collectAllowedNodes` returns only admitted nodes (never provided,
   * never excluded by coordinate or G:A); the root comes first when it is admitted and nothing is returned when
   * it is not.
   */
  lemma AllowedNodesSound(root: ResolvedNode, exclusions: set<string>)
    ensures var r := AllowedNodes(root, exclusions);
      (forall x :: x in r ==> Admits(x, exclusions))
      && (Admits(root, exclusions) ==> |r| > 0 && r[0] == root)
      && (!Admits(root, exclusions) ==> r == [])
  {
    var s := Collected(root, exclusions, {});
    assert AllowedNodes(root, exclusions) == DistinctBy(s, CoordinateOf, {});
    var r := AllowedNodes(root, exclusions);
    if Admits(root, exclusions) {
      assert s != [] && s[0] == root;
      DistinctByStep(s, CoordinateOf, {});
    }
    forall x | x in r ensures Admits(x, exclusions) {
      CollectedAdmitted(root, exclusions, {}, x);
    }
  }

  /** Each node returned is reached from the root through admitted ancestors. */
  lemma AllowedNodesReached(root: ResolvedNode, exclusions: set<string>, x: ResolvedNode)
    requires x in AllowedNodes(root, exclusions)
    ensures exists path :: ReachedBy(root, path, x, exclusions, {})
  {
    var s := Collected(root, exclusions, {});
    assert AllowedNodes(root, exclusions) == DistinctBy(s, CoordinateOf, {});
    assert x in s;
    CollectedReached(root, exclusions, {}, x);
  }

  /** At most one node per coordinate. */
  lemma AllowedNodesDistinct(root: ResolvedNode, exclusions: set<string>)
    ensures var r := AllowedNodes(root, exclusions);
      forall j, k :: 0 <= j < k < |r| ==> r[j].coordinate != r[k].coordinate
  {
    var s := Collected(root, exclusions, {});
    assert AllowedNodes(root, exclusions) == DistinctBy(s, CoordinateOf, {});
    DistinctByIsDistinct(s, CoordinateOf, {});
  }

  /** Each node kept is the first in preorder with its coordinate. */
  lemma AllowedNodesKeepFirst(root: ResolvedNode, exclusions: set<string>)
    ensures var r := AllowedNodes(root, exclusions);
      forall j :: 0 <= j < |r| ==> FirstWithKey(Collected(root, exclusions, {}), CoordinateOf, r[j].coordinate) == Some(r[j])
  {
    var s := Collected(root, exclusions, {});
    assert AllowedNodes(root, exclusions) == DistinctBy(s, CoordinateOf, {});
    DistinctByKeepsFirst(s, CoordinateOf, {});
  }

  /** Every node reached through admitted ancestors has its coordinate in the result. */
  lemma AllowedNodesComplete(root: ResolvedNode, exclusions: set<string>, path: seq<nat>, x: ResolvedNode)
    requires ReachedBy(root, path, x, exclusions, {})
    ensures FirstWithKey(AllowedNodes(root, exclusions), CoordinateOf, x.coordinate).Some?
  {
    var s := Collected(root, exclusions, {});
    DistinctByCoversKeys(s, CoordinateOf, {});
    ReachedCollected(root, path, exclusions, {}, x);
    var i :| 0 <= i < |s| && s[i] == x;
    assert CoordinateOf(s[i]) == x.coordinate;
  }

  /** A coordinate "g:a:v" is excluded by its G:A pair "g:a". */
  lemma GroupArtifactExclusion(n: ResolvedNode, g: string, a: string, v: string, exclusions: set<string>)
    requires n.coordinate == g + ":" + a + ":" + v && ':' !in v
    requires g + ":" + a in exclusions
    ensures IsExcluded(n, exclusions)
    ensures AllowedNodes(n, exclusions) == []
  {
    assert n.coordinate == (g + ":" + a) + [':'] + v;
    SubstringBeforeLastSplit(g + ":" + a, ':', v);
  }

  // ---------------------------------------------------------------------
  // resolvePlugin / downloadPlugins bookkeeping
  // ---------------------------------------------------------------------

  /** `ResolvedArtifact`: a node's coordinate, its folder-relative path and its file. */
  datatype ResolvedArtifact = ResolvedArtifact(coord: string, relativePath: string, file: File)

  /** `PluginState`: what `downloaded.json` records for one plugin. */
  datatype PluginState = PluginState(coordinate: string, transitiveDependencies: seq<string>, path: string)

  /** `TransitiveFile`: the relative path of a transitive dependency's jar. */
  datatype TransitiveFile = TransitiveFile(path: string)

  function ArtifactOf(n: ResolvedNode): (r: ResolvedArtifact)
    requires n.file.Some?
    ensures r.coord == n.coordinate && r.file == n.file.value
  {
    ResolvedArtifact(n.coordinate, MavenRepositoryPaths.CoordToRelativePath(n.coordinate, n.file.value.name), n.file.value)
  }

  /** The artifacts the loop of `resolvePlugin` records: one per node with a file, in order. */
  function ArtifactsOf(nodes: seq<ResolvedNode>): (r: seq<ResolvedArtifact>)
    ensures |r| <= |nodes|
  {
    if nodes == [] then []
    else
      var init := ArtifactsOf(nodes[..|nodes| - 1]);
      var n := nodes[|nodes| - 1];
      if n.file.Some? then init + [ArtifactOf(n)] else init
  }

  /** One more node: its artifact is appended when it has a file. */
  lemma ArtifactsOfSnoc(nodes: seq<ResolvedNode>, i: nat)
    requires i < |nodes|
    ensures ArtifactsOf(nodes[..i + 1])
         == ArtifactsOf(nodes[..i]) + (if nodes[i].file.Some? then [ArtifactOf(nodes[i])] else [])
  {
    assert nodes[..i + 1][..i] == nodes[..i];
  }

  /** The recorded artifacts are exactly those of the nodes with a file. */
  lemma ArtifactsOfMembership(nodes: seq<ResolvedNode>, a: ResolvedArtifact)
    ensures a in ArtifactsOf(nodes) <==> exists i :: 0 <= i < |nodes| && nodes[i].file.Some? && a == ArtifactOf(nodes[i])
  {
    if a in ArtifactsOf(nodes) {
      ArtifactsOfSound(nodes, a);
    }
    if exists i :: 0 <= i < |nodes| && nodes[i].file.Some? && a == ArtifactOf(nodes[i]) {
      var i :| 0 <= i < |nodes| && nodes[i].file.Some? && a == ArtifactOf(nodes[i]);
      ArtifactsOfComplete(nodes, i);
    }
  }

  /** Every recorded artifact is that of some node with a file. */
  lemma {:induction false} ArtifactsOfSound(nodes: seq<ResolvedNode>, a: ResolvedArtifact)
    requires a in ArtifactsOf(nodes)
    ensures exists i :: 0 <= i < |nodes| && nodes[i].file.Some? && a == ArtifactOf(nodes[i])
    decreases |nodes|
  {
    var k := |nodes| - 1;
    var init := nodes[..k];
    if nodes[k].file.Some? && a == ArtifactOf(nodes[k]) {
    } else {
      assert a in ArtifactsOf(init);
      ArtifactsOfSound(init, a);
      var i :| 0 <= i < |init| && init[i].file.Some? && a == ArtifactOf(init[i]);
      assert init[i] == nodes[i];
    }
  }

  /** The artifact of every node with a file is recorded. */
  lemma {:induction false} ArtifactsOfComplete(nodes: seq<ResolvedNode>, i: nat)
    requires i < |nodes| && nodes[i].file.Some?
    ensures ArtifactOf(nodes[i]) in ArtifactsOf(nodes)
    decreases |nodes|
  {
    var k := |nodes| - 1;
    var init := nodes[..k];
    if i < k {
      assert init[i] == nodes[i];
      ArtifactsOfComplete(init, i);
    }
  }

  /** Every recorded artifact has a non-empty relative path. */
  lemma ArtifactsOfPaths(nodes: seq<ResolvedNode>)
    ensures forall a :: a in ArtifactsOf(nodes) ==> a.relativePath != ""
  {
    forall a | a in ArtifactsOf(nodes) ensures a.relativePath != "" {
      ArtifactsOfMembership(nodes, a);
      var i :| 0 <= i < |nodes| && nodes[i].file.Some? && a == ArtifactOf(nodes[i]);
      assert EndsWith(MavenRepositoryPaths.CoordToRelativePath(nodes[i].coordinate, nodes[i].file.value.name), "/" + nodes[i].file.value.name);
    }
  }

  /** The relative paths of some artifacts. */
  function PathSet(arts: seq<ResolvedArtifact>): set<string>
  {
    if arts == [] then {}
    else PathSet(arts[..|arts| - 1]) + {arts[|arts| - 1].relativePath}
  }

  lemma {:induction false} PathSetExact(arts: seq<ResolvedArtifact>, p: string)
    ensures p in PathSet(arts) <==> exists a :: a in arts && a.relativePath == p
    decreases |arts|
  {
    if arts != [] {
      var init := arts[..|arts| - 1];
      PathSetExact(init, p);
      assert arts == init + [arts[|arts| - 1]];
      if exists a :: a in init && a.relativePath == p {
        var a :| a in init && a.relativePath == p;
        assert a in arts;
      }
    }
  }

  /** `transitiveCoords`: the coordinates of the recorded artifacts other than the plugin's own. */
  function TransitiveCoords(arts: seq<ResolvedArtifact>, pluginCoordinate: string): (r: seq<string>)
    ensures pluginCoordinate !in r
  {
    if arts == [] then []
    else
      var init := arts[..|arts| - 1];
      var a := arts[|arts| - 1];
      if a.coord != pluginCoordinate then TransitiveCoords(init, pluginCoordinate) + [a.coord]
      else TransitiveCoords(init, pluginCoordinate)
  }

  /** The transitive coordinates are exactly the recorded coordinates other than the plugin's. */
  lemma {:induction false} TransitiveCoordsMembership(arts: seq<ResolvedArtifact>, pluginCoordinate: string, c: string)
    ensures c in TransitiveCoords(arts, pluginCoordinate) <==> c != pluginCoordinate && exists a :: a in arts && a.coord == c
    decreases |arts|
  {
    if arts != [] {
      var init := arts[..|arts| - 1];
      assert arts == init + [arts[|arts| - 1]];
      TransitiveCoordsMembership(init, pluginCoordinate, c);
      if exists a :: a in arts && a.coord == c {
        var a :| a in arts && a.coord == c;
        if a != arts[|arts| - 1] { assert a in init; }
      }
    }
  }

  /** `pluginPath`: the relative path of the last recorded artifact with the plugin's coordinate. */
  function PluginPath(arts: seq<ResolvedArtifact>, pluginCoordinate: string): Option<string>
  {
    if arts == [] then None
    else
      var a := arts[|arts| - 1];
      if a.coord == pluginCoordinate then Some(a.relativePath) else PluginPath(arts[..|arts| - 1], pluginCoordinate)
  }

  /** No path is found iff no recorded artifact has the plugin's coordinate. */
  lemma {:induction false} PluginPathNone(arts: seq<ResolvedArtifact>, pluginCoordinate: string)
    ensures PluginPath(arts, pluginCoordinate).None? <==> forall k :: 0 <= k < |arts| ==> arts[k].coord != pluginCoordinate
    decreases |arts|
  {
    if arts != [] {
      var init := arts[..|arts| - 1];
      assert forall k :: 0 <= k < |init| ==> init[k] == arts[k];
      PluginPathNone(init, pluginCoordinate);
    }
  }

  /** The path found is that of the last artifact with the plugin's coordinate. */
  lemma {:induction false} PluginPathIsLast(arts: seq<ResolvedArtifact>, pluginCoordinate: string)
    requires PluginPath(arts, pluginCoordinate).Some?
    ensures exists k :: 0 <= k < |arts| && arts[k].coord == pluginCoordinate
                     && arts[k].relativePath == PluginPath(arts, pluginCoordinate).value
                     && forall l :: k < l < |arts| ==> arts[l].coord != pluginCoordinate
    decreases |arts|
  {
    var n := |arts| - 1;
    var init := arts[..n];
    if arts[n].coord != pluginCoordinate {
      PluginPathIsLast(init, pluginCoordinate);
      var k :| 0 <= k < |init| && init[k].coord == pluginCoordinate
        && init[k].relativePath == PluginPath(init, pluginCoordinate).value
        && forall l :: k < l < |init| ==> init[l].coord != pluginCoordinate;
      assert arts[k] == init[k];
      assert forall l :: k < l < |arts| ==> arts[l].coord != pluginCoordinate by {
        forall l | k < l < |arts| ensures arts[l].coord != pluginCoordinate {
          if l < n { assert arts[l] == init[l]; }
        }
      }
    }
  }

  /** The path `resolvePlugin` stores in the plugin's state is empty exactly when no allowed node with the plugin's coordinate had a file. */
  lemma PluginPathEmptyIff(arts: seq<ResolvedArtifact>, pluginCoordinate: string)
    requires forall a :: a in arts ==> a.relativePath != ""
    ensures PluginPath(arts, pluginCoordinate).OrElse("") == "" <==> forall k :: 0 <= k < |arts| ==> arts[k].coord != pluginCoordinate
  {
    if PluginPath(arts, pluginCoordinate).Some? {
      PluginPathIsLast(arts, pluginCoordinate);
      var k :| 0 <= k < |arts| && arts[k].coord == pluginCoordinate
        && arts[k].relativePath == PluginPath(arts, pluginCoordinate).value
        && forall l :: k < l < |arts| ==> arts[l].coord != pluginCoordinate;
      assert arts[k] in arts;
    }
  }

  /** `transitiveFilesMap[coord] = TransitiveFile(relativePath)` for each recorded artifact other than the plugin's. */
  function TransitiveUpdate(m: map<string, TransitiveFile>, arts: seq<ResolvedArtifact>, pluginCoordinate: string): map<string, TransitiveFile>
  {
    if arts == [] then m
    else
      var init := arts[..|arts| - 1];
      var a := arts[|arts| - 1];
      var prev := TransitiveUpdate(m, init, pluginCoordinate);
      if a.coord != pluginCoordinate then prev[a.coord := TransitiveFile(a.relativePath)] else prev
  }

  /** The transitive-file map gains exactly the transitive coordinates as keys. */
  lemma {:induction false} TransitiveUpdateKeys(m: map<string, TransitiveFile>, arts: seq<ResolvedArtifact>, pluginCoordinate: string)
    ensures TransitiveUpdate(m, arts, pluginCoordinate).Keys == m.Keys + set c | c in TransitiveCoords(arts, pluginCoordinate)
    decreases |arts|
  {
    if arts != [] {
      TransitiveUpdateKeys(m, arts[..|arts| - 1], pluginCoordinate);
    }
  }

  /**
   * Entries not written keep their old value, and a written coordinate maps
   * to the path of the last artifact recorded for it.
   */
  lemma {:induction false} TransitiveUpdateValues(m: map<string, TransitiveFile>, arts: seq<ResolvedArtifact>, pluginCoordinate: string, c: string)
    requires c in TransitiveUpdate(m, arts, pluginCoordinate)
    ensures var r := TransitiveUpdate(m, arts, pluginCoordinate);
      (c in m && c !in TransitiveCoords(arts, pluginCoordinate) ==> r[c] == m[c])
      && (forall k :: 0 <= k < |arts| && arts[k].coord == c && c != pluginCoordinate
            && (forall l :: k < l < |arts| ==> arts[l].coord != c)
            ==> r[c] == TransitiveFile(arts[k].relativePath))
    decreases |arts|
  {
    if arts != [] {
      var n := |arts| - 1;
      var init := arts[..n];
      var a := arts[n];
      var prev := TransitiveUpdate(m, init, pluginCoordinate);
      if a.coord != c || c == pluginCoordinate {
        assert forall k :: 0 <= k < n ==> init[k] == arts[k];
        TransitiveUpdateValues(m, init, pluginCoordinate, c);
      }
    }
  }

  lemma PathSetSnoc(arts: seq<ResolvedArtifact>, a: ResolvedArtifact)
    ensures PathSet(arts + [a]) == PathSet(arts) + {a.relativePath}
  {
    assert (arts + [a])[..|arts|] == arts;
  }

  /** Recording one more artifact, as one iteration of the loop of `resolvePlugin` does. */
  lemma RecordStep(m: map<string, TransitiveFile>, arts: seq<ResolvedArtifact>, a: ResolvedArtifact, pluginCoordinate: string)
    ensures PathSet(arts + [a]) == PathSet(arts) + {a.relativePath}
    ensures TransitiveCoords(arts + [a], pluginCoordinate)
         == if a.coord != pluginCoordinate then TransitiveCoords(arts, pluginCoordinate) + [a.coord]
            else TransitiveCoords(arts, pluginCoordinate)
    ensures PluginPath(arts + [a], pluginCoordinate)
         == if a.coord == pluginCoordinate then Some(a.relativePath) else PluginPath(arts, pluginCoordinate)
    ensures TransitiveUpdate(m, arts + [a], pluginCoordinate)
         == if a.coord != pluginCoordinate then TransitiveUpdate(m, arts, pluginCoordinate)[a.coord := TransitiveFile(a.relativePath)]
            else TransitiveUpdate(m, arts, pluginCoordinate)
  {
    assert (arts + [a])[..|arts|] == arts;
  }

  /** The artifacts recorded for one plugin, given the resolver's answer for it. */
  function PluginArtifacts(plugin: DetektPlugin, rootNode: Option<ResolvedNode>): seq<ResolvedArtifact>
  {
    if rootNode.None? then [] else ArtifactsOf(AllowedNodes(rootNode.value, plugin.exclusions))
  }

  /** The state `resolvePlugin` adds for one plugin: none when it did not resolve. */
  function PluginStateOf(plugin: DetektPlugin, rootNode: Option<ResolvedNode>): (r: Option<PluginState>)
    ensures r.None? <==> rootNode.None?
    ensures r.Some? ==> r.value.coordinate == plugin.coordinate && plugin.coordinate !in r.value.transitiveDependencies
  {
    if rootNode.None? then None
    else
      var arts := PluginArtifacts(plugin, rootNode);
      Some(PluginState(plugin.coordinate, TransitiveCoords(arts, plugin.coordinate),
                       PluginPath(arts, plugin.coordinate).OrElse("")))
  }

  function OptionToSeq<T>(o: Option<T>): seq<T>
  {
    if o.Some? then [o.value] else []
  }

  /** What `downloadPlugins` accumulates over the plugins: artifacts, transitive files and states. */
  function AllArtifacts(plugins: seq<DetektPlugin>, resolve: DetektPlugin -> Option<ResolvedNode>): seq<ResolvedArtifact>
  {
    if plugins == [] then []
    else
      var p := plugins[|plugins| - 1];
      AllArtifacts(plugins[..|plugins| - 1], resolve) + PluginArtifacts(p, resolve(p))
  }

  function AllTransitiveFiles(plugins: seq<DetektPlugin>, resolve: DetektPlugin -> Option<ResolvedNode>): map<string, TransitiveFile>
  {
    if plugins == [] then map[]
    else
      var p := plugins[|plugins| - 1];
      TransitiveUpdate(AllTransitiveFiles(plugins[..|plugins| - 1], resolve), PluginArtifacts(p, resolve(p)), p.coordinate)
  }

  function AllStates(plugins: seq<DetektPlugin>, resolve: DetektPlugin -> Option<ResolvedNode>): (r: seq<PluginState>)
    ensures |r| <= |plugins|
    ensures forall st :: st in r ==> st.coordinate !in st.transitiveDependencies
  {
    if plugins == [] then []
    else
      var p := plugins[|plugins| - 1];
      AllStates(plugins[..|plugins| - 1], resolve) + OptionToSeq(PluginStateOf(p, resolve(p)))
  }

  /** Every plugin the resolver resolves gets a state, in order; the others are skipped. */
  lemma {:induction false} AllStatesOfResolved(plugins: seq<DetektPlugin>, resolve: DetektPlugin -> Option<ResolvedNode>)
    requires forall i :: 0 <= i < |plugins| ==> resolve(plugins[i]).Some?
    ensures var r := AllStates(plugins, resolve);
      |r| == |plugins| && forall i :: 0 <= i < |plugins| ==> r[i].coordinate == plugins[i].coordinate
    decreases |plugins|
  {
    if plugins != [] {
      var n := |plugins| - 1;
      var init := plugins[..n];
      var last := plugins[n];
      assert forall i :: 0 <= i < n ==> init[i] == plugins[i];
      AllStatesOfResolved(init, resolve);
      LastStateNamesPlugin(last, resolve(last));
      var prev := AllStates(init, resolve);
      var r := AllStates(plugins, resolve);
      assert r == prev + OptionToSeq(PluginStateOf(last, resolve(last)));
      forall i | 0 <= i < |plugins| ensures r[i].coordinate == plugins[i].coordinate {
        if i < n {
          assert r[i] == prev[i] && plugins[i] == init[i];
        }
      }
    }
  }

  /** A resolved plugin contributes one state, named after it. */
  lemma LastStateNamesPlugin(plugin: DetektPlugin, rootNode: Option<ResolvedNode>)
    requires rootNode.Some?
    ensures |OptionToSeq(PluginStateOf(plugin, rootNode))| == 1
    ensures OptionToSeq(PluginStateOf(plugin, rootNode))[0].coordinate == plugin.coordinate
  {
  }


  /** The mutable collections `downloadPlugins` threads through `resolvePlugin`. */
  class Reconciliation {
    var allowedFiles: set<string>
    var resolvedArtifacts: seq<ResolvedArtifact>
    var transitiveFiles: map<string, TransitiveFile>
    var pluginStates: seq<PluginState>

    /** The allowed set holds exactly the relative paths of the resolved artifacts. */
    ghost predicate Valid()
      reads this
    {
      allowedFiles == PathSet(resolvedArtifacts)
    }

    constructor()
      ensures Valid()
      ensures allowedFiles == {} && resolvedArtifacts == [] && transitiveFiles == map[] && pluginStates == []
    {
      allowedFiles := {};
      resolvedArtifacts := [];
      transitiveFiles := map[];
      pluginStates := [];
    }

    /** One iteration of that loop for a node with a file, whose artifact is `a`. */
    method Record(a: ResolvedArtifact, pluginCoordinate: string)
      requires Valid()
      modifies this
      ensures Valid()
      ensures resolvedArtifacts == old(resolvedArtifacts) + [a]
      ensures allowedFiles == old(allowedFiles) + {a.relativePath}
      ensures transitiveFiles == if a.coord != pluginCoordinate then old(transitiveFiles)[a.coord := TransitiveFile(a.relativePath)]
                                 else old(transitiveFiles)
      ensures pluginStates == old(pluginStates)
    {
      PathSetSnoc(resolvedArtifacts, a);
      allowedFiles := allowedFiles + {a.relativePath};
      resolvedArtifacts := resolvedArtifacts + [a];
      if a.coord != pluginCoordinate {
        transitiveFiles := transitiveFiles[a.coord := TransitiveFile(a.relativePath)];
      }
    }

    /**
     * The body of that loop for node `i`, given the artifacts `arts` of the
     * nodes before it, recorded over the starting sequence `r0`, set `a0`
     * and map `m0`; `next` are the artifacts of the nodes up to node `i`.
     */
    method RecordNode(nodes: seq<ResolvedNode>, i: nat, pluginCoordinate: string, ghost r0: seq<ResolvedArtifact>,
                      ghost a0: set<string>, ghost m0: map<string, TransitiveFile>, ghost arts: seq<ResolvedArtifact>,
                      coordsIn: seq<string>, pathIn: Option<string>)
      returns (coords: seq<string>, path: Option<string>, ghost next: seq<ResolvedArtifact>)
      requires i < |nodes| && arts == ArtifactsOf(nodes[..i])
      requires Valid()
      requires resolvedArtifacts == r0 + arts && allowedFiles == a0 + PathSet(arts)
      requires transitiveFiles == TransitiveUpdate(m0, arts, pluginCoordinate)
      requires coordsIn == TransitiveCoords(arts, pluginCoordinate) && pathIn == PluginPath(arts, pluginCoordinate)
      modifies this
      ensures next == ArtifactsOf(nodes[..i + 1])
      ensures Valid()
      ensures resolvedArtifacts == r0 + next && allowedFiles == a0 + PathSet(next)
      ensures transitiveFiles == TransitiveUpdate(m0, next, pluginCoordinate)
      ensures coords == TransitiveCoords(next, pluginCoordinate) && path == PluginPath(next, pluginCoordinate)
      ensures pluginStates == old(pluginStates)
    {
      ArtifactsOfSnoc(nodes, i);
      var node := nodes[i];
      coords, path := coordsIn, pathIn;
      if node.file.None? {
        assert arts + [] == arts;
        next := arts;
        return;
      }
      var relativePath := MavenRepositoryPaths.CoordToRelativePath(node.coordinate, node.file.value.name);
      var a := ResolvedArtifact(node.coordinate, relativePath, node.file.value);
      assert a == ArtifactOf(node);
      next := arts + [a];
      RecordStep(m0, arts, a, pluginCoordinate);
      assert a0 + PathSet(next) == allowedFiles + {a.relativePath};
      AppendAssoc(r0, arts, [a]);
      Record(a, pluginCoordinate);
      if node.coordinate == pluginCoordinate {
        path := Some(relativePath);
      } else {
        coords := coords + [node.coordinate];
      }
    }

    /**
     * The loop of `resolvePlugin` over the allowed nodes: each node with a
     * file is recorded as a resolved artifact and its path allowed; the
     * plugin's own coordinate gives the plugin path, any other coordinate a
     * transitive file.
     */
    method RecordNodes(nodes: seq<ResolvedNode>, pluginCoordinate: string)
      returns (transitiveCoords: seq<string>, pluginPath: Option<string>)
      requires Valid()
      modifies this
      ensures Valid()
      ensures var arts := ArtifactsOf(nodes);
        resolvedArtifacts == old(resolvedArtifacts) + arts
        && allowedFiles == old(allowedFiles) + PathSet(arts)
        && transitiveFiles == TransitiveUpdate(old(transitiveFiles), arts, pluginCoordinate)
        && transitiveCoords == TransitiveCoords(arts, pluginCoordinate)
        && pluginPath == PluginPath(arts, pluginCoordinate)
        && pluginStates == old(pluginStates)
    {
      transitiveCoords := [];
      pluginPath := None;
      ghost var arts: seq<ResolvedArtifact> := [];
      assert old(resolvedArtifacts) + [] == old(resolvedArtifacts);
      for i := 0 to |nodes|
        invariant Valid()
        invariant arts == ArtifactsOf(nodes[..i])
        invariant resolvedArtifacts == old(resolvedArtifacts) + arts
        invariant allowedFiles == old(allowedFiles) + PathSet(arts)
        invariant transitiveFiles == TransitiveUpdate(old(transitiveFiles), arts, pluginCoordinate)
        invariant transitiveCoords == TransitiveCoords(arts, pluginCoordinate)
        invariant pluginPath == PluginPath(arts, pluginCoordinate)
        invariant pluginStates == old(pluginStates)
      {
        transitiveCoords, pluginPath, arts := RecordNode(nodes, i, pluginCoordinate, old(resolvedArtifacts), old(allowedFiles),
                                                         old(transitiveFiles), arts, transitiveCoords, pluginPath);
      }
      assert nodes[..|nodes|] == nodes;
    }

    /**
     * `resolvePlugin`, given the resolver's answer for the plugin: nothing
     * changes when it did not resolve; otherwise each allowed node with a
     * file is recorded, and the plugin's state is appended.
     */
    method ResolvePlugin(plugin: DetektPlugin, rootNode: Option<ResolvedNode>)
      requires Valid()
      modifies this
      ensures Valid()
      ensures var arts := PluginArtifacts(plugin, rootNode);
        resolvedArtifacts == old(resolvedArtifacts) + arts
        && allowedFiles == old(allowedFiles) + PathSet(arts)
        && transitiveFiles == TransitiveUpdate(old(transitiveFiles), arts, plugin.coordinate)
        && pluginStates == old(pluginStates) + OptionToSeq(PluginStateOf(plugin, rootNode))
    {
      if rootNode.None? {
        assert PluginArtifacts(plugin, rootNode) == [];
        assert resolvedArtifacts == resolvedArtifacts + [];
        return;
      }
      var allowedNodes := CollectAllowedNodes(rootNode.value, plugin.exclusions);
      var transitiveCoords, pluginPath := RecordNodes(allowedNodes, plugin.coordinate);
      pluginStates := pluginStates + [PluginState(plugin.coordinate, transitiveCoords, pluginPath.OrElse(""))];
    }

    /**
     * Step 1 of `downloadPlugins`: every plugin resolved in order into fresh
     * collections.
     */
    method ResolveAll(plugins: seq<DetektPlugin>, resolve: DetektPlugin -> Option<ResolvedNode>)
      modifies this
      ensures Valid()
      ensures resolvedArtifacts == AllArtifacts(plugins, resolve)
      ensures allowedFiles == PathSet(AllArtifacts(plugins, resolve))
      ensures transitiveFiles == AllTransitiveFiles(plugins, resolve)
      ensures pluginStates == AllStates(plugins, resolve)
    {
      allowedFiles := {};
      resolvedArtifacts := [];
      transitiveFiles := map[];
      pluginStates := [];
      for i := 0 to |plugins|
        invariant Valid()
        invariant resolvedArtifacts == AllArtifacts(plugins[..i], resolve)
        invariant transitiveFiles == AllTransitiveFiles(plugins[..i], resolve)
        invariant pluginStates == AllStates(plugins[..i], resolve)
      {
        assert plugins[..i + 1][..i] == plugins[..i];
        ResolvePlugin(plugins[i], resolve(plugins[i]));
      }
      assert plugins[..|plugins|] == plugins;
    }
  }

  // ---------------------------------------------------------------------
  // cleanupOrphanedJars / syncMissingJars decisions
  // ---------------------------------------------------------------------

  predicate IsJar(relativePath: string)
  {
    EndsWith(relativePath, JarExtension)
  }

  /**
   * The regular files left in the folder after `cleanupOrphanedJars`: a jar
   * is deleted exactly when its relative path is not allowed, any other
   * file is kept.
   */
  function AfterCleanup(files: set<string>, allowed: set<string>): (r: set<string>)
    ensures r <= files
    ensures forall p :: p in files ==> (p in r <==> !IsJar(p) || p in allowed)
  {
    set p | p in files && (!IsJar(p) || p in allowed)
  }

  function RelativePathOf(a: ResolvedArtifact): string { a.relativePath }

  function MissingOnly(arts: seq<ResolvedArtifact>, present: set<string>): (r: seq<ResolvedArtifact>)
    ensures forall a :: a in r <==> a in arts && a.relativePath !in present
  {
    if arts == [] then []
    else (if arts[0].relativePath in present then [] else [arts[0]]) + MissingOnly(arts[1..], present)
  }

  /** The artifacts `syncMissingJars` copies: distinct by relative path, only those whose target is missing. */
  function CopyPlan(arts: seq<ResolvedArtifact>, present: set<string>): seq<ResolvedArtifact>
  {
    MissingOnly(DistinctBy(arts, RelativePathOf, {}), present)
  }

  /** The copy step copies each missing relative path exactly once, and only missing ones. */
  lemma CopyPlanSpec(arts: seq<ResolvedArtifact>, present: set<string>)
    ensures var plan := CopyPlan(arts, present);
      (forall a :: a in plan ==> a in arts && a.relativePath !in present)
      && (forall p :: p in PathSet(arts) && p !in present ==> p in PathSet(plan))
      && (forall a, b :: a in plan && b in plan && a.relativePath == b.relativePath ==> a == b)
  {
    CopyPlanCovers(arts, present);
    CopyPlanDistinct(arts, present);
  }

  lemma CopyPlanCovers(arts: seq<ResolvedArtifact>, present: set<string>)
    ensures forall p :: p in PathSet(arts) && p !in present ==> p in PathSet(CopyPlan(arts, present))
  {
    var d := DistinctBy(arts, RelativePathOf, {});
    var plan := CopyPlan(arts, present);
    DistinctByCoversKeys(arts, RelativePathOf, {});
    forall p | p in PathSet(arts) && p !in present ensures p in PathSet(plan) {
      PathSetExact(arts, p);
      var a :| a in arts && a.relativePath == p;
      var i :| 0 <= i < |arts| && arts[i] == a;
      assert RelativePathOf(arts[i]) == p;
      var b := FirstWithKey(d, RelativePathOf, p).value;
      assert b in plan;
      PathSetExact(plan, p);
    }
  }

  lemma CopyPlanDistinct(arts: seq<ResolvedArtifact>, present: set<string>)
    ensures var plan := CopyPlan(arts, present);
      forall a, b :: a in plan && b in plan && a.relativePath == b.relativePath ==> a == b
  {
    var d := DistinctBy(arts, RelativePathOf, {});
    var plan := CopyPlan(arts, present);
    forall a, b | a in plan && b in plan && a.relativePath == b.relativePath ensures a == b {
      assert a in d && b in d;
      var j :| 0 <= j < |d| && d[j] == a;
      var k :| 0 <= k < |d| && d[k] == b;
      SamePathSameIndex(arts, j, k);
    }
  }

  /** Two artifacts of the distinct list with one relative path are one. */
  lemma SamePathSameIndex(arts: seq<ResolvedArtifact>, j: int, k: int)
    requires var d := DistinctBy(arts, RelativePathOf, {});
      0 <= j < |d| && 0 <= k < |d| && d[j].relativePath == d[k].relativePath
    ensures j == k
  {
    DistinctByIsDistinct(arts, RelativePathOf, {});
    var d := DistinctBy(arts, RelativePathOf, {});
    var key: ResolvedArtifact -> string := RelativePathOf;
    assert key(d[j]) == key(d[k]);
  }

  /** The relative paths of regular files in the plugin folder after cleanup and copying. */
  function Reconciled(files: set<string>, allowed: set<string>, arts: seq<ResolvedArtifact>): set<string>
  {
    var kept := AfterCleanup(files, allowed);
    kept + PathSet(CopyPlan(arts, kept))
  }

  /**
   * After a reconciliation run whose allowed set is the set of resolved
   * relative paths, the folder holds every allowed path, no jar that is not
   * allowed, every non-jar it held before, and nothing else new.
   */
  lemma ReconciledFolder(files: set<string>, arts: seq<ResolvedArtifact>)
    ensures var allowed := PathSet(arts);
      var after := Reconciled(files, allowed, arts);
      allowed <= after
      && (forall p :: p in after && IsJar(p) ==> p in allowed)
      && (forall p :: p in files && !IsJar(p) ==> p in after)
      && after <= files + allowed
  {
    var allowed := PathSet(arts);
    var kept := AfterCleanup(files, allowed);
    var plan := CopyPlan(arts, kept);
    CopyPlanSpec(arts, kept);
    forall p | p in PathSet(plan) ensures p in allowed {
      PathSetExact(plan, p);
      var a :| a in plan && a.relativePath == p;
      assert a in arts;
      PathSetExact(arts, p);
    }
  }
}
