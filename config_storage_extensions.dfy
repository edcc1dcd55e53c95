/**
 * `DetektConfigStorage.plugins`: the plugin jars of the older settings,
 * read from a text of paths separated by the platform path separator.
 * The older storage has no plugin path field of its own, so the text is
 * a parameter here.
 */
module DetektConfigStorageExtensions {
  import opened Wrappers
  import opened Strings
  import opened FileSystem
  import ProjectUtil

  /** Each entry resolved against the project with `absolutePath`, in order. */
  function Resolved(entries: seq<string>, basePath: Option<string>): (r: seq<string>)
    ensures |r| == |entries|
    ensures forall i :: 0 <= i < |entries| ==> r[i] == ProjectUtil.AbsolutePath(basePath, entries[i])
  {
    seq(|entries|, i requires 0 <= i < |entries| => ProjectUtil.AbsolutePath(basePath, entries[i]))
  }

  /** Whether every path of the list exists. */
  predicate AllExist(d: Disk, paths: seq<string>)
  {
    forall i :: 0 <= i < |paths| ==> Exists(d, paths[i])
  }

  /**
   * `plugins` as written: the split entries, resolved; none when the list
   * is non-empty and some path is missing. Splitting never gives an empty
   * list, so the emptiness test never skips the check.
   */
  function PluginsAsWritten(pluginPaths: string, basePath: Option<string>, d: Disk): (r: Option<seq<string>>)
    ensures r.None? <==> !AllExist(d, Resolved(Split(pluginPaths, PathSeparator), basePath))
    ensures r.Some? ==> r.value == Resolved(Split(pluginPaths, PathSeparator), basePath) && |r.value| >= 1
  {
    var paths := Resolved(Split(pluginPaths, PathSeparator), basePath);
    if |paths| > 0 && !AllExist(d, paths) then None else Some(paths)
  }

  /** No plugin paths configured still yields one path, the empty one, or no list at all. */
  lemma EmptyTextGivesEmptyPath(basePath: Option<string>, d: Disk)
    ensures PluginsAsWritten("", basePath, d) == if Exists(d, "") then Some([""]) else None
  {
    assert Split("", PathSeparator) == [""];
    assert IsBlank("");
    var paths := Resolved([""], basePath);
    assert paths[0] == "";
    assert paths == [""];
    assert AllExist(d, paths) <==> Exists(d, paths[0]);
  }

  /**
   * `plugins` with blank entries dropped: the resolved paths of the
   * non-blank entries, or none when one of them is missing.
   */
  function Plugins(pluginPaths: string, basePath: Option<string>, d: Disk): (r: Option<seq<string>>)
    ensures r.None? <==> !AllExist(d, Resolved(NonBlank(Split(pluginPaths, PathSeparator)), basePath))
    ensures r.Some? ==> r.value == Resolved(NonBlank(Split(pluginPaths, PathSeparator)), basePath)
  {
    var paths := Resolved(NonBlank(Split(pluginPaths, PathSeparator)), basePath);
    if !AllExist(d, paths) then None else Some(paths)
  }

  /** No plugin paths configured gives no plugin jars. */
  lemma EmptyTextGivesNoPlugins(basePath: Option<string>, d: Disk)
    ensures Plugins("", basePath, d) == Some([])
  {
    assert Split("", PathSeparator) == [""];
    assert IsBlank("");
    assert NonBlank([""]) == [];
  }

  /**
   * Existing absolute jar paths, joined by the path separator as the
   * settings form writes them, are read back as the same list.
   */
  lemma JoinedPathsReadBack(paths: seq<string>, basePath: Option<string>, d: Disk)
    requires paths != []
    requires forall i :: 0 <= i < |paths| ==> IsAbsolute(paths[i]) && PathSeparator !in paths[i] && Exists(d, paths[i])
    ensures Plugins(Join(paths, [PathSeparator]), basePath, d) == Some(paths)
  {
    SplitJoin(paths, PathSeparator);
    AbsoluteResolvedUnchanged(paths, basePath);
  }

  /** Absolute paths are not blank and resolve to themselves. */
  lemma AbsoluteResolvedUnchanged(paths: seq<string>, basePath: Option<string>)
    requires forall i :: 0 <= i < |paths| ==> IsAbsolute(paths[i])
    ensures NonBlank(paths) == paths
    ensures Resolved(paths, basePath) == paths
  {
    forall i | 0 <= i < |paths| ensures !IsBlank(paths[i]) {
      assert !IsWhitespace(paths[i][0]);
    }
  }
}
