/**
 * `MavenDependencyResolver`: checks a "g:a:v" coordinate, asks a tree
 * resolver for the dependency tree, and maps that tree into
 * `ResolvedNode`s, cutting it where a coordinate repeats on the path from
 * the root; `flatten` lists such a tree in preorder.
 */
module MavenDependencyResolver {
  import opened Wrappers
  import opened Strings
  import ProvidedDependencies

  const GavCoordinatesPartsCount: nat := 3

  /** A file on disk, by its absolute path and its name. */
  datatype File = File(path: string, name: string)

  /** The artifact of a node of the resolver's tree; its file may be unknown. */
  datatype Artifact = Artifact(groupId: string, artifactId: string, version: string, file: Option<File>)

  /** `ArtifactDependencyNode`: an artifact, whether the resolver rejected it, and its dependencies. */
  datatype DependencyNode = DependencyNode(artifact: Artifact, isRejected: bool, dependencies: seq<DependencyNode>)

  /** What the tree resolver returns: the root, if any, and the files it resolved by coordinate. */
  datatype TreeResult = TreeResult(root: Option<DependencyNode>, resolvedFiles: map<string, File>)

  /**
   * `MavenTreeResolver.resolveDependenciesTree`, given group, artifact,
   * version, whether to download, and the exclusions.
   */
  type TreeResolver = (string, string, string, bool, seq<string>) -> TreeResult

  /** `MavenDependencyResolver.ResolvedNode`. */
  datatype ResolvedNode = ResolvedNode(
    groupId: string,
    artifactId: string,
    version: string,
    coordinate: string,
    isProvided: bool,
    isRejected: bool,
    children: seq<ResolvedNode>,
    file: Option<File>)

  function Gav(groupId: string, artifactId: string, version: string): string
  {
    groupId + ":" + artifactId + ":" + version
  }

  /** `artifact.file ?: resolvedFiles[coord]`. */
  function FileOf(artifact: Artifact, resolvedFiles: map<string, File>): (r: Option<File>)
    ensures artifact.file.Some? ==> r == artifact.file
    ensures artifact.file.None? ==> r == (var c := Gav(artifact.groupId, artifact.artifactId, artifact.version);
      if c in resolvedFiles then Some(resolvedFiles[c]) else None)
  {
    if artifact.file.Some? then artifact.file
    else
      var c := Gav(artifact.groupId, artifact.artifactId, artifact.version);
      if c in resolvedFiles then Some(resolvedFiles[c]) else None
  }

  /** `createLeafNode`: a node without children, classified by `isProvided`. */
  function CreateLeafNode(groupId: string, artifactId: string, version: string, coord: string,
                          file: Option<File>, isRejected: bool): (r: ResolvedNode)
    ensures r.children == []
    ensures r.isProvided == ProvidedDependencies.IsProvided(groupId, artifactId)
    ensures r.groupId == groupId && r.artifactId == artifactId && r.version == version
    ensures r.coordinate == coord && r.file == file && r.isRejected == isRejected
  {
    ResolvedNode(groupId, artifactId, version, coord, ProvidedDependencies.IsProvided(groupId, artifactId),
                 isRejected, [], file)
  }

  /**
   * `mapToResolvedNode(node, resolvedFiles, visited)`: the node's own
   * coordinate, provided flag and preferred file; a rejected leaf when its
   * coordinate is already on the path, and otherwise the resolver's
   * rejected flag and its dependencies mapped one for one, in order.
   */
  function MapToResolvedNode(node: DependencyNode, resolvedFiles: map<string, File>, visited: set<string>): (r: ResolvedNode)
    ensures var a := node.artifact;
      r.groupId == a.groupId && r.artifactId == a.artifactId && r.version == a.version
      && r.coordinate == Gav(a.groupId, a.artifactId, a.version)
      && r.isProvided == ProvidedDependencies.IsProvided(a.groupId, a.artifactId)
      && r.file == FileOf(a, resolvedFiles)
    ensures r.coordinate in visited ==> r.children == [] && r.isRejected
    ensures r.coordinate !in visited ==>
      r.isRejected == node.isRejected
      && |r.children| == |node.dependencies|
      && forall i :: 0 <= i < |r.children| ==>
           r.children[i] == MapToResolvedNode(node.dependencies[i], resolvedFiles, visited + {r.coordinate})
    decreases node
  {
    var a := node.artifact;
    var coord := Gav(a.groupId, a.artifactId, a.version);
    if coord in visited then
      CreateLeafNode(a.groupId, a.artifactId, a.version, coord, FileOf(a, resolvedFiles), true)
    else
      var newVisited := visited + {coord};
      ResolvedNode(a.groupId, a.artifactId, a.version, coord,
        ProvidedDependencies.IsProvided(a.groupId, a.artifactId), node.isRejected,
        seq(|node.dependencies|, i requires 0 <= i < |node.dependencies| =>
          MapToResolvedNode(node.dependencies[i], resolvedFiles, newVisited)),
        FileOf(a, resolvedFiles))
  }

  /**
   * `resolve(coordinate, shouldDownload, exclusions)`: none for fewer than
   * three ':'-parts, for a blank group, artifact or version (parts after the
   * third are ignored), and when the tree resolver finds no root; otherwise
   * the mapped tree.
   */
  function Resolve(coordinate: string, shouldDownload: bool, exclusions: seq<string>, treeResolver: TreeResolver): (r: Option<ResolvedNode>)
    ensures |Split(coordinate, ':')| < GavCoordinatesPartsCount ==> r.None?
    ensures var parts := Split(coordinate, ':');
      |parts| >= GavCoordinatesPartsCount && (IsBlank(parts[0]) || IsBlank(parts[1]) || IsBlank(parts[2])) ==> r.None?
    ensures var parts := Split(coordinate, ':');
      |parts| >= GavCoordinatesPartsCount && !IsBlank(parts[0]) && !IsBlank(parts[1]) && !IsBlank(parts[2]) ==>
        var tree := treeResolver(parts[0], parts[1], parts[2], shouldDownload, exclusions);
        r == if tree.root.None? then None else Some(MapToResolvedNode(tree.root.value, tree.resolvedFiles, {}))
  {
    var parts := Split(coordinate, ':');
    if |parts| < GavCoordinatesPartsCount then None
    else if IsBlank(parts[0]) || IsBlank(parts[1]) || IsBlank(parts[2]) then None
    else
      var tree := treeResolver(parts[0], parts[1], parts[2], shouldDownload, exclusions);
      if tree.root.None? then None
      else Some(MapToResolvedNode(tree.root.value, tree.resolvedFiles, {}))
  }

  /**
   * A mapped tree never repeats a coordinate below a node that already
   * carries it on the path: the repetition is a rejected leaf.
   */
  ghost predicate CutAtRepeats(r: ResolvedNode, visited: set<string>)
    decreases r
  {
    if r.coordinate in visited then r.children == [] && r.isRejected
    else forall i :: 0 <= i < |r.children| ==> CutAtRepeats(r.children[i], visited + {r.coordinate})
  }

  lemma {:induction false} MappedTreeIsCut(node: DependencyNode, resolvedFiles: map<string, File>, visited: set<string>)
    ensures CutAtRepeats(MapToResolvedNode(node, resolvedFiles, visited), visited)
    decreases node
  {
    var r := MapToResolvedNode(node, resolvedFiles, visited);
    if r.coordinate !in visited {
      forall i | 0 <= i < |r.children| ensures CutAtRepeats(r.children[i], visited + {r.coordinate}) {
        MappedTreeIsCut(node.dependencies[i], resolvedFiles, visited + {r.coordinate});
      }
    }
  }

  /** A coordinate of only two parts resolves to nothing. */
  lemma ResolveFailsOnShortCoordinate(g: string, a: string, treeResolver: TreeResolver)
    requires ':' !in g && ':' !in a
    ensures Resolve(g + ":" + a, false, [], treeResolver).None?
  {
    assert Join([g, a], ":") == g + ":" + a by { assert [g, a][1..] == [a]; }
    SplitJoin([g, a], ':');
  }

  /** A fourth coordinate part does not take the place of the version. */
  lemma ResolveIgnoresExtraParts(coordinate: string, extra: string, shouldDownload: bool, exclusions: seq<string>, treeResolver: TreeResolver)
    requires |Split(coordinate, ':')| >= GavCoordinatesPartsCount
    ensures Resolve(coordinate + ":" + extra, shouldDownload, exclusions, treeResolver)
         == Resolve(coordinate, shouldDownload, exclusions, treeResolver)
  {
    SplitConcat(coordinate, ':', extra);
  }

  /**
   * `flatten(node, visited)`: the node, then the flattenings of its children
   * in order; a node whose coordinate is already on the path contributes
   * nothing.
   */
  function Flatten(node: ResolvedNode, visited: set<string>): (r: seq<ResolvedNode>)
    ensures r == [] <==> node.coordinate in visited
    ensures r != [] ==> r[0] == node
    ensures forall i :: 0 <= i < |r| ==> r[i].coordinate !in visited
    decreases node
  {
    if node.coordinate in visited then []
    else [node] + FlattenChildren(node.children, visited + {node.coordinate})
  }

  /** `children.flatMap { flatten(it, visited) }`. */
  function FlattenChildren(children: seq<ResolvedNode>, visited: set<string>): (r: seq<ResolvedNode>)
    ensures forall i :: 0 <= i < |r| ==> r[i].coordinate !in visited
    decreases children
  {
    if children == [] then [] else Flatten(children[0], visited) + FlattenChildren(children[1..], visited)
  }

  /** A diamond A -> B -> D, A -> C -> D: four coordinates, five entries. */
  lemma FlattenDiamond()
    ensures var d := ResolvedNode("g", "d", "1", "g:d:1", false, false, [], None);
      var b := ResolvedNode("g", "b", "1", "g:b:1", false, false, [d], None);
      var c := ResolvedNode("g", "c", "1", "g:c:1", false, false, [d], None);
      var a := ResolvedNode("g", "a", "1", "g:a:1", false, false, [b, c], None);
      Flatten(a, {}) == [a, b, d, c, d]
  {
    var d := ResolvedNode("g", "d", "1", "g:d:1", false, false, [], None);
    var b := ResolvedNode("g", "b", "1", "g:b:1", false, false, [d], None);
    var c := ResolvedNode("g", "c", "1", "g:c:1", false, false, [d], None);
    var a := ResolvedNode("g", "a", "1", "g:a:1", false, false, [b, c], None);
    var va := {"g:a:1"};
    assert [d][1..] == [] && [b, c][1..] == [c] && [c][1..] == [];
    assert Flatten(d, va + {"g:b:1"}) == [d] by {
      assert FlattenChildren([], va + {"g:b:1"} + {"g:d:1"}) == [];
    }
    assert FlattenChildren([d], va + {"g:b:1"}) == [d];
    assert Flatten(b, va) == [b, d];
    assert Flatten(d, va + {"g:c:1"}) == [d] by {
      assert FlattenChildren([], va + {"g:c:1"} + {"g:d:1"}) == [];
    }
    assert FlattenChildren([d], va + {"g:c:1"}) == [d];
    assert Flatten(c, va) == [c, d];
    assert FlattenChildren([c], va) == [c, d];
    assert FlattenChildren([b, c], va) == [b, d, c, d];
    assert {} + {"g:a:1"} == va;
    assert Flatten(a, {}) == [a] + FlattenChildren([b, c], va);
  }
}
