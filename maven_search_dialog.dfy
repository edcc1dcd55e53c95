/**
 * The Maven search dialog: a search field, a table of search hits, a
 * version box and a line telling how many transitive dependencies the
 * chosen version brings, which the user may narrow with the exclusion
 * editor. The network search and the resolution run in the background in
 * the plugin; here each is a request the dialog records and a later call
 * that delivers its answer.
 */
module MavenSearchDialog {
  import opened Wrappers
  import opened Strings
  import opened Distinct
  import opened MavenArtifactFetcher
  import R = MavenDependencyResolver
  import P = PluginDependencyService
  import E = DependencyExclusionEditor

  // ---------------------------------------------------------------------
  // The transitive count
  // ---------------------------------------------------------------------

  /** The dialog's own `flatten`: the node, then its children's flattenings, with no cut at repeats. */
  function FlattenAll(node: R.ResolvedNode): (r: seq<R.ResolvedNode>)
    ensures |r| >= 1 && r[0] == node
    decreases node, 1
  {
    [node] + FlattenAllChildren(node.children)
  }

  function FlattenAllChildren(children: seq<R.ResolvedNode>): seq<R.ResolvedNode>
    decreases children, 0
  {
    if children == [] then [] else FlattenAll(children[0]) + FlattenAllChildren(children[1..])
  }

  /** A node lies in the flattening of a list of children iff it lies in one child's flattening. */
  lemma {:induction false} FlattenAllChildrenMembers(children: seq<R.ResolvedNode>, x: R.ResolvedNode)
    ensures x in FlattenAllChildren(children)
      <==> exists i :: 0 <= i < |children| && x in FlattenAll(children[i])
    decreases children
  {
    if children != [] {
      FlattenAllChildrenMembers(children[1..], x);
      if x in FlattenAllChildren(children[1..]) {
        var i :| 0 <= i < |children[1..]| && x in FlattenAll(children[1..][i]);
        assert children[i + 1] == children[1..][i];
      }
      if exists i :: 0 <= i < |children| && x in FlattenAll(children[i]) {
        var i :| 0 <= i < |children| && x in FlattenAll(children[i]);
        if i > 0 { assert children[1..][i - 1] == children[i]; }
      }
    }
  }

  /** `flatten(root)` lists the root and every node below it. */
  lemma FlattenAllMembers(node: R.ResolvedNode, x: R.ResolvedNode)
    ensures x in FlattenAll(node)
      <==> x == node || exists i :: 0 <= i < |node.children| && x in FlattenAll(node.children[i])
  {
    FlattenAllChildrenMembers(node.children, x);
  }

  /** The filter as the dialog writes it: the exclusions are compared with the full coordinate only. */
  predicate CountedAsWritten(n: R.ResolvedNode, rootCoordinate: string, exclusions: set<string>)
  {
    n.coordinate != rootCoordinate && !n.isProvided && n.coordinate !in exclusions
  }

  /** The filter with the exclusions read as the rest of the plugin reads them: coordinate or G:A. */
  predicate Counted(n: R.ResolvedNode, rootCoordinate: string, exclusions: set<string>)
  {
    n.coordinate != rootCoordinate && !n.isProvided && !P.IsExcluded(n, exclusions)
  }

  function ValidDepsAsWritten(s: seq<R.ResolvedNode>, rootCoordinate: string, exclusions: set<string>): (r: seq<R.ResolvedNode>)
    ensures forall x :: x in r <==> x in s && CountedAsWritten(x, rootCoordinate, exclusions)
  {
    if s == [] then []
    else if CountedAsWritten(s[0], rootCoordinate, exclusions) then [s[0]] + ValidDepsAsWritten(s[1..], rootCoordinate, exclusions)
    else ValidDepsAsWritten(s[1..], rootCoordinate, exclusions)
  }

  function ValidDeps(s: seq<R.ResolvedNode>, rootCoordinate: string, exclusions: set<string>): (r: seq<R.ResolvedNode>)
    ensures forall x :: x in r <==> x in s && Counted(x, rootCoordinate, exclusions)
  {
    if s == [] then []
    else if Counted(s[0], rootCoordinate, exclusions) then [s[0]] + ValidDeps(s[1..], rootCoordinate, exclusions)
    else ValidDeps(s[1..], rootCoordinate, exclusions)
  }

  /** `updateTransitiveLabel`'s count as the source computes it. */
  function TransitiveCountAsWritten(root: R.ResolvedNode, exclusions: set<string>): nat
  {
    |DistinctBy(ValidDepsAsWritten(FlattenAll(root), root.coordinate, exclusions), P.CoordinateOf, {})|
  }

  /** The count with G:A exclusions honoured; the dialog below shows this one. */
  function TransitiveCount(root: R.ResolvedNode, exclusions: set<string>): nat
  {
    |DistinctBy(ValidDeps(FlattenAll(root), root.coordinate, exclusions), P.CoordinateOf, {})|
  }

  /** The coordinates the label is meant to count: those of the tree's nodes that pass the filter. */
  function CountedCoordinates(root: R.ResolvedNode, exclusions: set<string>): set<string>
  {
    set x | x in FlattenAll(root) && Counted(x, root.coordinate, exclusions) :: x.coordinate
  }

  /** The keys of the filtered list are the coordinates of the list's nodes that pass the filter. */
  lemma ValidDepsKeys(s: seq<R.ResolvedNode>, rootCoordinate: string, exclusions: set<string>)
    ensures Keys(ValidDeps(s, rootCoordinate, exclusions), P.CoordinateOf)
      == set x | x in s && Counted(x, rootCoordinate, exclusions) :: x.coordinate
  {
    var v := ValidDeps(s, rootCoordinate, exclusions);
    var keys := Keys(v, P.CoordinateOf);
    var want := set x | x in s && Counted(x, rootCoordinate, exclusions) :: x.coordinate;
    forall c | c in keys ensures c in want {
      var i :| 0 <= i < |v| && P.CoordinateOf(v[i]) == c;
      assert v[i] in v;
    }
    forall c | c in want ensures c in keys {
      var x :| x in s && Counted(x, rootCoordinate, exclusions) && x.coordinate == c;
      var i :| 0 <= i < |v| && v[i] == x;
      assert P.CoordinateOf(v[i]) == c;
    }
  }

  /** The count is the number of distinct coordinates below the root that are neither provided nor excluded. */
  lemma TransitiveCountIsDistinctCoordinates(root: R.ResolvedNode, exclusions: set<string>)
    ensures TransitiveCount(root, exclusions) == |CountedCoordinates(root, exclusions)|
    ensures root.coordinate !in CountedCoordinates(root, exclusions)
  {
    var s := FlattenAll(root);
    var v := ValidDeps(s, root.coordinate, exclusions);
    DistinctByCount(v, P.CoordinateOf, {});
    ValidDepsKeys(s, root.coordinate, exclusions);
    assert Keys(v, P.CoordinateOf) - {} == Keys(v, P.CoordinateOf);
  }

  lemma {:induction false} SubsetCard<T>(a: set<T>, b: set<T>)
    requires a <= b
    ensures |a| <= |b|
    decreases b
  {
    if a != {} {
      var x :| x in a;
      SubsetCard(a - {x}, b - {x});
    }
  }

  /** Excluding more never raises the count. */
  lemma TransitiveCountMonotone(root: R.ResolvedNode, fewer: set<string>, more: set<string>)
    requires fewer <= more
    ensures TransitiveCount(root, more) <= TransitiveCount(root, fewer)
  {
    TransitiveCountIsDistinctCoordinates(root, fewer);
    TransitiveCountIsDistinctCoordinates(root, more);
    assert CountedCoordinates(root, more) <= CountedCoordinates(root, fewer);
    SubsetCard(CountedCoordinates(root, more), CountedCoordinates(root, fewer));
  }

  /**
   * The exclusion editor hands back G:A pairs. With the root r:r:1, its
   * one child c:c:1 and the exclusion "c:c", the count as written still
   * counts the child; the corrected count does not.
   */
  lemma TransitiveCountMissesGaExclusion()
    ensures var c := R.ResolvedNode("c", "c", "1", "c:c:1", false, false, [], None);
      var root := R.ResolvedNode("r", "r", "1", "r:r:1", false, false, [c], None);
      TransitiveCountAsWritten(root, {"c:c"}) == 1 && TransitiveCount(root, {"c:c"}) == 0
  {
    var c := R.ResolvedNode("c", "c", "1", "c:c:1", false, false, [], None);
    var root := R.ResolvedNode("r", "r", "1", "r:r:1", false, false, [c], None);
    ExampleFlatten(root, c);
    ExampleChildExcluded(c);
    ExampleValidDeps(root, c, {"c:c"});
    assert DistinctBy([c], P.CoordinateOf, {}) == [c];
  }

  lemma ExampleFlatten(root: R.ResolvedNode, c: R.ResolvedNode)
    requires c.children == [] && root.children == [c]
    ensures FlattenAll(root) == [root, c]
  {
    assert FlattenAllChildren([c][1..]) == [];
    assert FlattenAllChildren([c]) == [c];
  }

  lemma ExampleChildExcluded(c: R.ResolvedNode)
    requires c.coordinate == "c:c:1"
    ensures P.IsExcluded(c, {"c:c"}) && c.coordinate !in {"c:c"}
  {
    assert "c:c:1" == "c:c" + [':'] + "1";
    SubstringBeforeLastSplit("c:c", ':', "1");
  }

  lemma ExampleValidDeps(root: R.ResolvedNode, c: R.ResolvedNode, exclusions: set<string>)
    requires c.coordinate != root.coordinate && !c.isProvided
    requires P.IsExcluded(c, exclusions) && c.coordinate !in exclusions
    ensures ValidDeps([root, c], root.coordinate, exclusions) == []
    ensures ValidDepsAsWritten([root, c], root.coordinate, exclusions) == [c]
  {
    assert [root, c][1..] == [c] && [c][1..] == [];
    assert ValidDepsAsWritten([c], root.coordinate, exclusions) == [c] + ValidDepsAsWritten([], root.coordinate, exclusions);
    assert !Counted(c, root.coordinate, exclusions);
    assert ValidDeps([c], root.coordinate, exclusions) == ValidDeps([], root.coordinate, exclusions);
  }

  // ---------------------------------------------------------------------
  // Search results and versions
  // ---------------------------------------------------------------------

  /** The hits with the given group and artifact, in order. */
  function MatchingArtifacts(artifacts: seq<MavenArtifact>, groupId: string, artifactId: string): (r: seq<MavenArtifact>)
    ensures forall x :: x in r <==> x in artifacts && x.groupId == groupId && x.artifactId == artifactId
    ensures |r| <= |artifacts|
  {
    if artifacts == [] then []
    else if artifacts[0].groupId == groupId && artifacts[0].artifactId == artifactId then
      [artifacts[0]] + MatchingArtifacts(artifacts[1..], groupId, artifactId)
    else MatchingArtifacts(artifacts[1..], groupId, artifactId)
  }

  /** What `showResults` keeps: every hit, or only those matching a pending coordinate. */
  function Filtered(artifacts: seq<MavenArtifact>, target: Option<MavenGav>): seq<MavenArtifact>
  {
    match target
    case None => artifacts
    case Some(g) => MatchingArtifacts(artifacts, g.groupId, g.artifactId)
  }

  /** One table row: group, artifact and latest version, or "" when there is none. */
  datatype ResultRow = ResultRow(groupId: string, artifactId: string, latestVersion: string)

  function RowOf(a: MavenArtifact): ResultRow
  {
    ResultRow(a.groupId, a.artifactId, a.LatestVersion().OrElse(""))
  }

  function Rows(artifacts: seq<MavenArtifact>): seq<ResultRow>
  {
    seq(|artifacts|, i requires 0 <= i < |artifacts| => RowOf(artifacts[i]))
  }

  /** The pending coordinate's version, when the pending coordinate names this artifact. */
  function TargetVersion(pending: Option<MavenGav>, a: MavenArtifact): Option<string>
  {
    match pending
    case None => None
    case Some(g) => if g.groupId == a.groupId && g.artifactId == a.artifactId then g.version else None
  }

  /**
   * The version `showVersions` leaves selected: the target when it is
   * offered, otherwise the first version, and nothing for an empty list.
   */
  function SelectedAfterShow(versions: seq<string>, target: Option<string>): (r: Option<string>)
    ensures r.None? <==> versions == []
    ensures r.Some? ==> r.value in versions
    ensures target.Some? && target.value in versions ==> r == target
    ensures (target.None? || target.value !in versions) && versions != [] ==> r == Some(versions[0])
  {
    if target.Some? && target.value in versions then target
    else if versions != [] then Some(versions[0])
    else None
  }

  // ---------------------------------------------------------------------
  // The dialog's state, one record per area of the dialog
  // ---------------------------------------------------------------------

  /** The text of the transitive-dependency line. */
  datatype Label = Blank | ResolvingVersion(version: string) | Includes(count: nat) | FailedToResolve

  /**
   * The search row and the result table: the field's text, the search
   * button, the coordinate a search was started for, the hits and the
   * table rows, the search flag, and the queries handed to the background
   * search so far.
   */
  datatype SearchArea = SearchArea(
    text: string,
    buttonEnabled: bool,
    pendingGav: Option<MavenGav>,
    results: seq<MavenArtifact>,
    rows: seq<ResultRow>,
    isSearching: bool,
    requests: seq<string>)

  /** The selected artifact and the version box: its items, its selection and whether it is enabled. */
  datatype VersionBox = VersionBox(
    selectedArtifact: Option<MavenArtifact>,
    items: seq<string>,
    selected: Option<string>,
    enabled: bool)

  /**
   * The transitive row and the OK button: the resolution flag and busy
   * icon, the resolved tree and the exclusions chosen for it, OK and the
   * customize link, the line shown, and the coordinates handed to the
   * background resolution so far.
   */
  datatype TransitiveArea = TransitiveArea(
    isResolving: bool,
    busyIcon: bool,
    resolvedRoot: Option<R.ResolvedNode>,
    exclusions: set<string>,
    okEnabled: bool,
    customizeVisible: bool,
    line: Label,
    requests: seq<string>)

  /** The whole dialog at one moment. */
  datatype DialogView = DialogView(search: SearchArea, versionBox: VersionBox, transitive: TransitiveArea)

  /** The search button follows the text and the search flag, and the table shows the hits. */
  predicate ValidSearch(s: SearchArea)
  {
    s.buttonEnabled == (!s.isSearching && !IsBlank(s.text)) && s.rows == Rows(s.results)
  }

  /** The box has a selection, one of its items, exactly when it has items, and is enabled then. */
  predicate ValidVersionBox(b: VersionBox)
  {
    (b.selected.Some? ==> b.selected.value in b.items)
    && (b.selected.Some? <==> b.items != [])
    && b.enabled == (b.items != [])
  }

  /**
   * The busy icon shows an unfinished resolution; OK and the customize
   * link are on together, and only for a finished resolution whose count,
   * under the current exclusions, is the line shown.
   */
  predicate ValidTransitive(t: TransitiveArea)
  {
    t.busyIcon == t.isResolving
    && t.customizeVisible == t.okEnabled
    && (t.okEnabled ==>
          t.resolvedRoot.Some? && !t.isResolving && t.line == Includes(TransitiveCount(t.resolvedRoot.value, t.exclusions)))
  }

  predicate ValidView(v: DialogView)
  {
    ValidSearch(v.search) && ValidVersionBox(v.versionBox) && ValidTransitive(v.transitive)
  }

  /** An empty, disabled version box with no artifact selected. */
  const NoVersions: VersionBox := VersionBox(None, [], None, false)

  /** `resetTransitiveUI`. */
  function AfterResetTransitive(t: TransitiveArea): TransitiveArea
  {
    t.(okEnabled := false, line := Blank, customizeVisible := false, resolvedRoot := None,
       exclusions := {}, isResolving := false, busyIcon := false)
  }

  /** `startSearchUI`. */
  function AfterStartSearch(v: DialogView): DialogView
  {
    DialogView(v.search.(rows := [], results := [], isSearching := true, buttonEnabled := false),
      NoVersions, AfterResetTransitive(v.transitive))
  }

  /** The text `performSearch` sends: the artifact of a parsed coordinate, or the whole query. */
  function SearchQuery(gav: Option<MavenGav>, query: string): string
  {
    match gav
    case Some(g) => g.artifactId
    case None => query
  }

  /** `startSearchUI` after the pending coordinate is set, and the request sent. */
  function StartedSearchFor(v: DialogView, gav: Option<MavenGav>, request: string): DialogView
  {
    var w := AfterStartSearch(v);
    w.(search := w.search.(pendingGav := gav, requests := v.search.requests + [request]))
  }

  /** `performSearch`: nothing for a blank query. */
  function AfterSearch(v: DialogView): DialogView
  {
    var query := Trim(v.search.text);
    if query == "" then v
    else
      var gav := ParseGav(query);
      StartedSearchFor(v, gav, SearchQuery(gav, query))
  }

  /** `resolveDependencies`: nothing without an artifact and a version. */
  function AfterResolveRequest(v: DialogView): DialogView
  {
    match (v.versionBox.selectedArtifact, v.versionBox.selected)
    case (Some(a), Some(version)) =>
      v.(transitive := v.transitive.(okEnabled := false, isResolving := true, line := ResolvingVersion(version),
        customizeVisible := false, busyIcon := true,
        requests := v.transitive.requests + [R.Gav(a.groupId, a.artifactId, version)]))
    case _ => v
  }

  /** `updateTransitiveLabel`. */
  function AfterLabel(t: TransitiveArea): TransitiveArea
  {
    match t.resolvedRoot
    case None => t
    case Some(root) => t.(line := Includes(TransitiveCount(root, t.exclusions)))
  }

  /** `onArtifactSelected` for the table row `row`, which is -1 when nothing is selected. */
  function AfterSelect(v: DialogView, row: int): DialogView
  {
    if 0 <= row < |v.search.results| then
      var a := v.search.results[row];
      var target := TargetVersion(v.search.pendingGav, a);
      var shown := DialogView(
        v.search.(pendingGav := if target.Some? then None else v.search.pendingGav),
        VersionBox(Some(a), a.versions, SelectedAfterShow(a.versions, target), a.versions != []),
        v.transitive);
      if a.versions != [] then AfterResolveRequest(shown) else shown
    else
      v.(versionBox := NoVersions, transitive := AfterResetTransitive(v.transitive))
  }

  /** The first part of `showResults`: the filtered hits fill the table and the search ends. */
  function FilledResults(v: DialogView, artifacts: seq<MavenArtifact>): DialogView
  {
    var filtered := Filtered(artifacts, v.search.pendingGav);
    v.(search := v.search.(results := filtered, rows := Rows(filtered), isSearching := false,
      buttonEnabled := !IsBlank(v.search.text)))
  }

  /**
   * `showResults` as written: with a pending coordinate, selecting row 0
   * fires the table's selection listener, which runs `onArtifactSelected`
   * and consumes the pending coordinate, and then the explicit call runs
   * it a second time, now without a target version.
   */
  function AfterResultsAsWritten(v: DialogView, artifacts: seq<MavenArtifact>): DialogView
  {
    var shown := FilledResults(v, artifacts);
    if v.search.pendingGav.Some? && shown.search.results != [] then AfterSelect(AfterSelect(shown, 0), 0) else shown
  }

  /**
   * `showResults` as intended: the filtered hits fill the table and a
   * pending coordinate selects the first row once, keeping its version.
   */
  function AfterResults(v: DialogView, artifacts: seq<MavenArtifact>): DialogView
  {
    var shown := FilledResults(v, artifacts);
    if v.search.pendingGav.Some? && shown.search.results != [] then AfterSelect(shown, 0) else shown
  }

  /**
   * A pending coordinate whose version the first hit offers: the second
   * run of `onArtifactSelected` as written selects the newest version
   * instead, and two resolutions are requested.
   */
  lemma ResultsAsWrittenSelectFirstVersion(v: DialogView, artifacts: seq<MavenArtifact>)
    requires v.search.pendingGav.Some? && v.search.pendingGav.value.version.Some?
    requires Filtered(artifacts, v.search.pendingGav) != []
    requires v.search.pendingGav.value.version.value in Filtered(artifacts, v.search.pendingGav)[0].versions
    ensures var g := v.search.pendingGav.value;
      var a := Filtered(artifacts, v.search.pendingGav)[0];
      var w := AfterResultsAsWritten(v, artifacts);
      w.versionBox.selected == Some(a.versions[0]) && w.search.pendingGav.None?
      && w.transitive.requests
         == v.transitive.requests + [R.Gav(g.groupId, g.artifactId, g.version.value), R.Gav(g.groupId, g.artifactId, a.versions[0])]
  {
    var g := v.search.pendingGav.value;
    var filtered := Filtered(artifacts, v.search.pendingGav);
    assert filtered[0] in filtered;
  }

  /** The same pending coordinate with the intended single run keeps the target version and resolves it once. */
  lemma ResultsSelectTargetVersion(v: DialogView, artifacts: seq<MavenArtifact>)
    requires v.search.pendingGav.Some? && v.search.pendingGav.value.version.Some?
    requires Filtered(artifacts, v.search.pendingGav) != []
    requires v.search.pendingGav.value.version.value in Filtered(artifacts, v.search.pendingGav)[0].versions
    ensures var g := v.search.pendingGav.value;
      var w := AfterResults(v, artifacts);
      w.versionBox.selected == g.version && w.search.pendingGav.None?
      && w.transitive.requests == v.transitive.requests + [R.Gav(g.groupId, g.artifactId, g.version.value)]
  {
    var filtered := Filtered(artifacts, v.search.pendingGav);
    assert filtered[0] in filtered;
  }

  /** Query `g:a:1.0` with one hit offering `2.0` and `1.0`: as written `2.0` ends selected, as intended `1.0`. */
  lemma ResultsAsWrittenLosesTargetVersion(v: DialogView)
    requires v.search.pendingGav == Some(MavenGav("g", "a", Some("1.0")))
    ensures AfterResultsAsWritten(v, [MavenArtifact("g", "a", ["2.0", "1.0"])]).versionBox.selected == Some("2.0")
    ensures AfterResults(v, [MavenArtifact("g", "a", ["2.0", "1.0"])]).versionBox.selected == Some("1.0")
  {
    var a := MavenArtifact("g", "a", ["2.0", "1.0"]);
    assert MatchingArtifacts([a], "g", "a") == [a];
    ResultsAsWrittenSelectFirstVersion(v, [a]);
    ResultsSelectTargetVersion(v, [a]);
  }

  /** `onDependenciesResolved`: an answer nobody waits for any more is dropped. */
  function AfterResolved(v: DialogView, root: Option<R.ResolvedNode>): DialogView
  {
    if !v.transitive.isResolving then v
    else
      var w := v.transitive.(isResolving := false, busyIcon := false, resolvedRoot := root, exclusions := {});
      v.(transitive :=
        if root.Some? then AfterLabel(w.(okEnabled := true)).(customizeVisible := true)
        else w.(line := FailedToResolve, okEnabled := false, customizeVisible := false))
  }

  /** `openCustomizeDialog` with the editor's answer, none when it was cancelled. */
  function AfterCustomize(v: DialogView, answer: Option<set<string>>): DialogView
  {
    if v.transitive.resolvedRoot.None? then v
    else match answer
      case None => v
      case Some(ex) => v.(transitive := AfterLabel(v.transitive.(exclusions := ex)))
  }

  // ---------------------------------------------------------------------
  // Every event keeps the dialog consistent
  // ---------------------------------------------------------------------

  /** A search clears the selection and switches OK off. */
  lemma SearchKeepsValid(v: DialogView)
    requires ValidView(v)
    ensures ValidView(AfterSearch(v))
    ensures Trim(v.search.text) != "" ==>
      AfterSearch(v).versionBox.selectedArtifact.None? && !AfterSearch(v).transitive.okEnabled
      && AfterSearch(v).search.isSearching && !AfterSearch(v).search.buttonEnabled
  {
    var query := Trim(v.search.text);
    if query != "" {
      var gav := ParseGav(query);
      StartedSearchValid(v, gav, SearchQuery(gav, query));
    }
  }

  lemma StartedSearchValid(v: DialogView, gav: Option<MavenGav>, request: string)
    requires ValidView(v)
    ensures var w := StartedSearchFor(v, gav, request);
      ValidView(w) && w.versionBox.selectedArtifact.None? && !w.transitive.okEnabled
      && w.search.isSearching && !w.search.buttonEnabled
  {
    assert Rows([]) == [];
  }

  /** Selecting a row selects its artifact and starts a resolution when it has versions. */
  lemma SelectKeepsValid(v: DialogView, row: int)
    requires ValidView(v)
    ensures ValidView(AfterSelect(v, row))
    ensures 0 <= row < |v.search.results| ==>
      AfterSelect(v, row).versionBox.selectedArtifact == Some(v.search.results[row])
      && (v.search.results[row].versions != [] ==> AfterSelect(v, row).transitive.isResolving)
    ensures !(0 <= row < |v.search.results|) ==> AfterSelect(v, row).versionBox == NoVersions
  {
  }

  /** Results end the search; with a pending coordinate only its hits are kept. */
  lemma ResultsKeepValid(v: DialogView, artifacts: seq<MavenArtifact>)
    requires ValidView(v)
    ensures ValidView(AfterResults(v, artifacts))
    ensures !AfterResults(v, artifacts).search.isSearching
    ensures v.search.pendingGav.Some? ==> forall a :: a in AfterResults(v, artifacts).search.results ==>
      a.groupId == v.search.pendingGav.value.groupId && a.artifactId == v.search.pendingGav.value.artifactId
  {
    SelectKeepsValid(FilledResults(v, artifacts), 0);
  }

  /** A resolution that was awaited enables OK exactly when it produced a tree. */
  lemma ResolvedKeepsValid(v: DialogView, root: Option<R.ResolvedNode>)
    requires ValidView(v)
    ensures ValidView(AfterResolved(v, root))
    ensures v.transitive.isResolving ==> (AfterResolved(v, root).transitive.okEnabled <==> root.Some?)
    ensures !v.transitive.isResolving ==> AfterResolved(v, root) == v
  {
  }

  /** Accepting the editor replaces the exclusions and recounts. */
  lemma CustomizeKeepsValid(v: DialogView, answer: Option<set<string>>)
    requires ValidView(v)
    ensures ValidView(AfterCustomize(v, answer))
    ensures v.transitive.resolvedRoot.Some? && answer.Some? ==>
      AfterCustomize(v, answer).transitive.exclusions == answer.value
      && AfterCustomize(v, answer).transitive.line
         == Includes(TransitiveCount(v.transitive.resolvedRoot.value, answer.value))
  {
  }

  // ---------------------------------------------------------------------
  // The dialog
  // ---------------------------------------------------------------------

  class Dialog {
    var search: SearchArea
    var versionBox: VersionBox
    var transitive: TransitiveArea

    function View(): DialogView
      reads this
    {
      DialogView(search, versionBox, transitive)
    }

    predicate Valid()
      reads this
    {
      ValidView(View())
    }

    /** A new dialog: everything empty, nothing selected, OK off. */
    constructor()
      ensures Valid()
      ensures search == SearchArea("", false, None, [], [], false, [])
      ensures versionBox == NoVersions
      ensures transitive == TransitiveArea(false, false, None, {}, false, false, Blank, [])
    {
      search := SearchArea("", false, None, [], [], false, []);
      versionBox := NoVersions;
      transitive := TransitiveArea(false, false, None, {}, false, false, Blank, []);
    }

    /**
     * `getResult`: none without an artifact and a version; otherwise the
     * coordinate "g:a:v", which splits back into its three parts, with the
     * current exclusions.
     */
    function GetResult(): (r: Option<P.DetektPlugin>)
      reads this
      ensures r.None? <==> versionBox.selectedArtifact.None? || versionBox.selected.None?
      ensures r.Some? ==> r.value.exclusions == transitive.exclusions
      ensures r.Some? ==>
        var a := versionBox.selectedArtifact.value;
        var version := versionBox.selected.value;
        ':' !in a.groupId && ':' !in a.artifactId && ':' !in version ==>
          Split(r.value.coordinate, ':') == [a.groupId, a.artifactId, version]
    {
      match (versionBox.selectedArtifact, versionBox.selected)
      case (Some(a), Some(version)) =>
        var parts := [a.groupId, a.artifactId, version];
        var coordinate := R.Gav(a.groupId, a.artifactId, version);
        assert Join(parts, ":") == coordinate by {
          assert parts[1..] == [a.artifactId, version];
          assert parts[1..][1..] == [version];
          assert Join(parts[1..][1..], ":") == version;
          assert Join(parts[1..], ":") == a.artifactId + ":" + version;
        }
        if ':' !in a.groupId && ':' !in a.artifactId && ':' !in version then
          SplitJoin(parts, ':');
          Some(P.DetektPlugin(coordinate, transitive.exclusions))
        else Some(P.DetektPlugin(coordinate, transitive.exclusions))
      case _ => None
    }

    /** The context menu's "copy coordinates" for a table row: "g:a", which splits back into group and artifact. */
    function CopiedCoordinates(row: int): (r: string)
      reads this
      requires Valid() && 0 <= row < |search.rows|
      ensures var a := search.results[row];
        ':' !in a.groupId && ':' !in a.artifactId ==> Split(r, ':') == [a.groupId, a.artifactId]
    {
      var a := search.results[row];
      CreateArtifactKey(a.groupId, a.artifactId)
    }

    /** `updateSearchButtonState`. */
    method UpdateSearchButtonState()
      modifies this
      ensures View() == old(View()).(search := old(search).(buttonEnabled := !old(search.isSearching) && !IsBlank(old(search.text))))
    {
      search := search.(buttonEnabled := !search.isSearching && !IsBlank(search.text));
    }

    /** The search field's text changes; the document listener updates the button. */
    method SetSearchText(text: string)
      requires Valid()
      modifies this
      ensures Valid()
      ensures View() == old(View()).(search := old(search).(text := text, buttonEnabled := !old(search.isSearching) && !IsBlank(text)))
    {
      search := search.(text := text);
      UpdateSearchButtonState();
    }

    /** `resetTransitiveUI`. */
    method ResetTransitiveUI()
      modifies this
      ensures View() == old(View()).(transitive := AfterResetTransitive(old(transitive)))
    {
      transitive := transitive.(okEnabled := false, line := Blank, customizeVisible := false);
      transitive := transitive.(resolvedRoot := None, exclusions := {});
      transitive := transitive.(isResolving := false, busyIcon := false);
    }

    /** `startSearchUI`. */
    method StartSearchUI()
      modifies this
      ensures View() == AfterStartSearch(old(View()))
    {
      search := search.(rows := [], results := []);
      versionBox := versionBox.(selectedArtifact := None, items := [], selected := None, enabled := false);
      search := search.(isSearching := true);
      UpdateSearchButtonState();
      ResetTransitiveUI();
    }

    /** Sets the pending coordinate, runs `startSearchUI` and hands `request` to the background search. */
    method BeginSearch(gav: Option<MavenGav>, request: string)
      modifies this
      ensures View() == StartedSearchFor(old(View()), gav, request)
    {
      search := search.(pendingGav := gav);
      StartSearchUI();
      search := search.(requests := search.requests + [request]);
    }

    /**
     * `performSearch`: a blank query does nothing; otherwise a parsed
     * coordinate becomes the pending one and its artifact is searched for,
     * and any other query is searched for as it is.
     */
    method PerformSearch()
      requires Valid()
      modifies this
      ensures Valid()
      ensures View() == AfterSearch(old(View()))
    {
      SearchKeepsValid(View());
      var query := Trim(search.text);
      if query == "" {
        return;
      }
      var gav := ParseGav(query);
      if gav.Some? {
        BeginSearch(gav, gav.value.artifactId);
      } else {
        BeginSearch(None, query);
      }
    }

    /** `resolveDependencies`. */
    method ResolveDependencies()
      modifies this
      ensures View() == AfterResolveRequest(old(View()))
    {
      if versionBox.selectedArtifact.None? || versionBox.selected.None? {
        return;
      }
      var a := versionBox.selectedArtifact.value;
      var version := versionBox.selected.value;
      transitive := transitive.(okEnabled := false, isResolving := true, line := ResolvingVersion(version));
      transitive := transitive.(customizeVisible := false, busyIcon := true);
      transitive := transitive.(requests := transitive.requests + [R.Gav(a.groupId, a.artifactId, version)]);
    }

    /** `showVersions`. */
    method ShowVersions(versions: seq<string>, target: Option<string>)
      modifies this
      ensures View() == old(View()).(versionBox := old(versionBox).(items := versions,
        selected := SelectedAfterShow(versions, target), enabled := versions != []))
    {
      versionBox := versionBox.(items := versions);
      versionBox := versionBox.(selected := SelectedAfterShow(versions, target));
      versionBox := versionBox.(enabled := versions != []);
    }

    /** `onArtifactSelected` for the table's selected row, -1 when there is none. */
    method OnArtifactSelected(row: int)
      requires Valid()
      modifies this
      ensures Valid()
      ensures View() == AfterSelect(old(View()), row)
    {
      SelectKeepsValid(View(), row);
      if 0 <= row < |search.results| {
        var a := search.results[row];
        versionBox := versionBox.(selectedArtifact := Some(a));
        var target := TargetVersion(search.pendingGav, a);
        ShowVersions(a.versions, target);
        if target.Some? {
          search := search.(pendingGav := None);
        }
        if |versionBox.items| > 0 {
          ResolveDependencies();
        }
      } else {
        versionBox := versionBox.(selectedArtifact := None, items := [], selected := None, enabled := false);
        ResetTransitiveUI();
      }
    }

    /** `showResults`, called with the background search's hits. */
    method ShowResults(artifacts: seq<MavenArtifact>)
      requires Valid()
      modifies this
      ensures Valid()
      ensures View() == AfterResults(old(View()), artifacts)
    {
      ResultsKeepValid(View(), artifacts);
      var target := search.pendingGav;
      var filtered := Filtered(artifacts, target);
      search := search.(results := filtered, rows := []);
      var i := 0;
      while i < |filtered|
        invariant 0 <= i <= |filtered|
        invariant |search.rows| == i
        invariant forall j :: 0 <= j < i ==> search.rows[j] == RowOf(filtered[j])
        invariant View() == old(View()).(search := old(search).(results := filtered, rows := search.rows))
      {
        search := search.(rows := search.rows + [RowOf(filtered[i])]);
        i := i + 1;
      }
      assert search.rows == Rows(filtered);
      search := search.(isSearching := false);
      UpdateSearchButtonState();
      if target.Some? && filtered != [] {
        OnArtifactSelected(0);
      }
    }

    /** The user picks one of the offered versions; the box's listener re-resolves while it is enabled. */
    method OnVersionChosen(version: string)
      requires Valid() && version in versionBox.items
      modifies this
      ensures Valid()
      ensures var chosen := old(View()).(versionBox := old(versionBox).(selected := Some(version)));
        View() == if old(versionBox.enabled) then AfterResolveRequest(chosen) else chosen
    {
      versionBox := versionBox.(selected := Some(version));
      if versionBox.enabled {
        ResolveDependencies();
      }
    }

    /** `updateTransitiveLabel`. */
    method UpdateTransitiveLabel()
      modifies this
      ensures View() == old(View()).(transitive := AfterLabel(old(transitive)))
    {
      if transitive.resolvedRoot.None? {
        return;
      }
      transitive := transitive.(line := Includes(TransitiveCount(transitive.resolvedRoot.value, transitive.exclusions)));
    }

    /** `onDependenciesResolved`, called with the background resolution's answer (none when it failed). */
    method OnDependenciesResolved(root: Option<R.ResolvedNode>)
      requires Valid()
      modifies this
      ensures Valid()
      ensures View() == AfterResolved(old(View()), root)
    {
      ResolvedKeepsValid(View(), root);
      if !transitive.isResolving {
        return;
      }
      transitive := transitive.(isResolving := false, busyIcon := false);
      transitive := transitive.(resolvedRoot := root, exclusions := {});
      if root.Some? {
        transitive := transitive.(okEnabled := true);
        UpdateTransitiveLabel();
        transitive := transitive.(customizeVisible := true);
      } else {
        transitive := transitive.(line := FailedToResolve, okEnabled := false, customizeVisible := false);
      }
    }

    /**
     * `openCustomizeDialog`: `finalTree` is the editor's tree as the user
     * left it and `accepted` whether they pressed OK.
     */
    method OpenCustomizeDialog(finalTree: E.TreeNode, accepted: bool)
      requires Valid()
      modifies this
      ensures Valid()
      ensures View() == AfterCustomize(old(View()), E.SelectExcludedDependencies(finalTree, accepted))
    {
      var answer := E.SelectExcludedDependencies(finalTree, accepted);
      CustomizeKeepsValid(View(), answer);
      if transitive.resolvedRoot.None? {
        return;
      }
      if answer.Some? {
        transitive := transitive.(exclusions := answer.value);
        UpdateTransitiveLabel();
      }
    }
  }
}
