/**
 * `ConfiguredService`: the detekt run the plugin's settings describe, and
 * the check that the paths those settings name are usable.
 */
module ConfiguredService {
  import opened Wrappers
  import opened Strings
  import opened FileSystem
  import opened SettingsState
  import opened DetektApi
  import ProjectUtils
  import ProjectUtil
  import DetektPluginSettings

  /**
   * `projectBasePath?.resolve(p) ?: Paths.get(p)`: an absolute path, or any
   * path of a project without a base path, is kept; an empty one gives the
   * base path, any other is placed under it.
   */
  function Resolve(basePath: Option<string>, p: string): (r: string)
    ensures basePath.None? || IsAbsolute(p) ==> r == p
    ensures basePath.Some? && p == "" ==> r == basePath.value
    ensures basePath.Some? && p != "" && !IsAbsolute(p) ==> r == Child(basePath.value, p)
  {
    match basePath
    case None => p
    case Some(b) => if IsAbsolute(p) then p else if p == "" then b else Child(b, p)
  }

  /** `asAbsolutePaths`: each entry with '/' replaced by the separator, then resolved, in order. */
  function AsAbsolutePaths(entries: seq<string>, basePath: Option<string>): (r: seq<string>)
    ensures |r| == |entries|
    ensures forall i :: 0 <= i < |entries| ==> r[i] == Resolve(basePath, ReplaceChar(entries[i], '/', Separator))
  {
    seq(|entries|, i requires 0 <= i < |entries| => Resolve(basePath, ReplaceChar(entries[i], '/', Separator)))
  }

  /** The path an entry names once '/' is replaced by the separator and the result resolved. */
  function ResolvedEntry(basePath: Option<string>, e: string): string
  {
    Resolve(basePath, ReplaceChar(e, '/', Separator))
  }

  /** Blank entries are dropped, and a path is produced iff some non-blank entry resolves to it. */
  lemma ResolvedNonBlankMembers(entries: seq<string>, basePath: Option<string>)
    ensures |AsAbsolutePaths(NonBlank(entries), basePath)| <= |entries|
    ensures forall p :: p in AsAbsolutePaths(NonBlank(entries), basePath) <==>
      exists e :: e in entries && !IsBlank(e) && p == ResolvedEntry(basePath, e)
  {
    var kept := NonBlank(entries);
    var r := AsAbsolutePaths(kept, basePath);
    forall p | p in r
      ensures exists e :: e in entries && !IsBlank(e) && p == ResolvedEntry(basePath, e)
    {
      var i :| 0 <= i < |r| && r[i] == p;
      assert kept[i] in kept;
    }
    forall p | exists e :: e in entries && !IsBlank(e) && p == ResolvedEntry(basePath, e)
      ensures p in r
    {
      var e :| e in entries && !IsBlank(e) && p == ResolvedEntry(basePath, e);
      assert e in kept;
      var i :| 0 <= i < |kept| && kept[i] == e;
      assert r[i] == p;
    }
  }

  /**
   * `configPaths`: at most one path per configured file, and a path is
   * used iff some non-blank configuration file resolves to it.
   */
  function ConfigPaths(s: State, basePath: Option<string>): (r: seq<string>)
    ensures |r| <= |s.configurationFiles|
    ensures forall p :: p in r <==>
      exists e :: e in s.configurationFiles && !IsBlank(e) && p == ResolvedEntry(basePath, e)
  {
    ResolvedNonBlankMembers(s.configurationFiles, basePath);
    AsAbsolutePaths(NonBlank(s.configurationFiles), basePath)
  }

  /**
   * `pluginPaths`: at most one path per configured jar, and a path is
   * used iff some non-blank plugin jar resolves to it.
   */
  function PluginPaths(s: State, basePath: Option<string>): (r: seq<string>)
    ensures |r| <= |s.pluginJars|
    ensures forall p :: p in r <==>
      exists e :: e in s.pluginJars && !IsBlank(e) && p == ResolvedEntry(basePath, e)
  {
    ResolvedNonBlankMembers(s.pluginJars, basePath);
    AsAbsolutePaths(NonBlank(s.pluginJars), basePath)
  }

  /** `baseline`: none for a blank baseline path, otherwise the path resolved with `absolutePath`. */
  function Baseline(s: State, basePath: Option<string>): (r: Option<string>)
    ensures r.None? <==> IsBlank(DetektPluginSettings.BaselinePathOf(s))
    ensures r.Some? ==> r.value == ProjectUtils.AbsolutePath(basePath, DetektPluginSettings.BaselinePathOf(s))
  {
    ProjectUtils.AbsoluteBaselinePath(basePath, DetektPluginSettings.BaselinePathOf(s))
  }

  const PluginPrefix: string := "Plugin jar"
  const ConfigPrefix: string := "Configuration file"

  function MissingMessage(prefix: string, p: string): string
  {
    prefix + " <b>" + p + "</b> does not exist."
  }

  function DirectoryMessage(prefix: string, p: string): string
  {
    prefix + " <b>" + p + "</b> is a directory."
  }

  function BaselineMessage(p: string): string
  {
    "The provided baseline file <b>" + p + "</b> does not exist."
  }

  /** The "does not exist" message of each missing path, in order. */
  function MissingMessages(paths: seq<string>, prefix: string, d: Disk): seq<string>
  {
    if paths == [] then []
    else
      var p := paths[|paths| - 1];
      MissingMessages(paths[..|paths| - 1], prefix, d) + (if !Exists(d, p) then [MissingMessage(prefix, p)] else [])
  }

  /** The "is a directory" message of each directory, in order. */
  function DirectoryMessages(paths: seq<string>, prefix: string, d: Disk): seq<string>
  {
    if paths == [] then []
    else
      var p := paths[|paths| - 1];
      DirectoryMessages(paths[..|paths| - 1], prefix, d) + (if IsDirectory(d, p) then [DirectoryMessage(prefix, p)] else [])
  }

  /** `checkPaths`: the missing paths' messages, then the directories'. */
  function CheckPaths(paths: seq<string>, prefix: string, d: Disk): seq<string>
  {
    MissingMessages(paths, prefix, d) + DirectoryMessages(paths, prefix, d)
  }

  /** The baseline's message, when a baseline is configured and missing. */
  function BaselineMessages(baseline: Option<string>, d: Disk): seq<string>
  {
    if baseline.Some? && !Exists(d, baseline.value) then [BaselineMessage(baseline.value)] else []
  }

  /** What `validate` reports: plugin jars, then configuration files, then the baseline. */
  function Messages(s: State, basePath: Option<string>, d: Disk): seq<string>
  {
    Report(PluginPaths(s, basePath), ConfigPaths(s, basePath), Baseline(s, basePath), d)
  }

  /** The messages of resolved plugin jars, configuration files and baseline. */
  function Report(plugins: seq<string>, configs: seq<string>, baseline: Option<string>, d: Disk): seq<string>
  {
    CheckPaths(plugins, PluginPrefix, d) + CheckPaths(configs, ConfigPrefix, d) + BaselineMessages(baseline, d)
  }

  /** A path detekt can read: it exists and is not a directory. */
  predicate Usable(d: Disk, p: string)
  {
    Exists(d, p) && !IsDirectory(d, p)
  }

  /** A path gets at most one message, since a directory exists; the list is empty iff every path is usable. */
  lemma {:induction false} CheckPathsBound(paths: seq<string>, prefix: string, d: Disk)
    ensures |CheckPaths(paths, prefix, d)| <= |paths|
    ensures CheckPaths(paths, prefix, d) == [] <==> forall i :: 0 <= i < |paths| ==> Usable(d, paths[i])
    decreases |paths|
  {
    if paths != [] {
      var init := paths[..|paths| - 1];
      CheckPathsBound(init, prefix, d);
      assert forall i :: 0 <= i < |init| ==> init[i] == paths[i];
    }
  }

  /** `validate` reports nothing iff every plugin jar and configuration file is usable and a configured baseline exists. */
  lemma NoMessagesIff(s: State, basePath: Option<string>, d: Disk)
    ensures Messages(s, basePath, d) == [] <==>
      (forall i :: 0 <= i < |PluginPaths(s, basePath)| ==> Usable(d, PluginPaths(s, basePath)[i]))
      && (forall i :: 0 <= i < |ConfigPaths(s, basePath)| ==> Usable(d, ConfigPaths(s, basePath)[i]))
      && (Baseline(s, basePath).Some? ==> Exists(d, Baseline(s, basePath).value))
  {
    CheckPathsBound(PluginPaths(s, basePath), PluginPrefix, d);
    CheckPathsBound(ConfigPaths(s, basePath), ConfigPrefix, d);
  }

  /** Default settings name no path, so `validate` reports nothing. */
  lemma DefaultsGiveNoMessages(basePath: Option<string>, d: Disk)
    ensures Messages(DefaultState(), basePath, d) == []
  {
    assert IsBlank(DetektPluginSettings.BaselinePathOf(DefaultState()));
  }

  /** One missing configuration file gives exactly its "does not exist" message. */
  lemma OneMissingConfig(p: string, basePath: Option<string>, d: Disk)
    requires !IsBlank(p)
    requires !Exists(d, Resolve(basePath, ReplaceChar(p, '/', Separator)))
    ensures Messages(DefaultState().(configurationFiles := [p]), basePath, d)
         == [MissingMessage(ConfigPrefix, Resolve(basePath, ReplaceChar(p, '/', Separator)))]
  {
    var s := DefaultState().(configurationFiles := [p]);
    assert NonBlank([p]) == [p];
    var q := Resolve(basePath, ReplaceChar(p, '/', Separator));
    assert ConfigPaths(s, basePath) == [q];
    assert PluginPaths(s, basePath) == [];
    OnePathMessages(q, ConfigPrefix, d);
    assert IsBlank(DetektPluginSettings.BaselinePathOf(s));
  }

  /** A missing path gets its "does not exist" message only. */
  lemma OnePathMessages(q: string, prefix: string, d: Disk)
    requires !Exists(d, q)
    ensures CheckPaths([q], prefix, d) == [MissingMessage(prefix, q)]
  {
    assert [q][..0] == [];
    assert MissingMessages([q], prefix, d) == [MissingMessage(prefix, q)];
    assert DirectoryMessages([q], prefix, d) == [];
  }

  /** One missing plugin jar gives exactly its "does not exist" message. */
  lemma OneMissingPlugin(p: string, basePath: Option<string>, d: Disk)
    requires !IsBlank(p)
    requires !Exists(d, Resolve(basePath, ReplaceChar(p, '/', Separator)))
    ensures Messages(DefaultState().(pluginJars := [p]), basePath, d)
         == [MissingMessage(PluginPrefix, Resolve(basePath, ReplaceChar(p, '/', Separator)))]
  {
    var s := DefaultState().(pluginJars := [p]);
    assert NonBlank([p]) == [p];
    var q := Resolve(basePath, ReplaceChar(p, '/', Separator));
    assert PluginPaths(s, basePath) == [q];
    assert ConfigPaths(s, basePath) == [];
    OnePathMessages(q, PluginPrefix, d);
    assert IsBlank(DetektPluginSettings.BaselinePathOf(s));
  }

  /** One missing baseline file gives exactly the baseline message. */
  lemma OneMissingBaseline(p: string, basePath: Option<string>, d: Disk)
    requires !IsBlank(p)
    requires !Exists(d, ProjectUtils.AbsolutePath(basePath, p))
    ensures Messages(DefaultState().(baselinePath := Some(p)), basePath, d)
         == [BaselineMessage(ProjectUtils.AbsolutePath(basePath, p))]
  {
    var s := DefaultState().(baselinePath := Some(p));
    assert DetektPluginSettings.BaselinePathOf(s) == p;
  }

  /** `checkPaths` as the two filtering loops of the source, appending to the message list. */
  method CheckPathsInto(messages: seq<string>, paths: seq<string>, prefix: string, d: Disk) returns (out: seq<string>)
    ensures out == messages + CheckPaths(paths, prefix, d)
  {
    out := messages;
    var i := 0;
    while i < |paths|
      invariant 0 <= i <= |paths|
      invariant out == messages + MissingMessages(paths[..i], prefix, d)
    {
      if !Exists(d, paths[i]) {
        out := out + [MissingMessage(prefix, paths[i])];
      }
      assert paths[..i + 1][..i] == paths[..i];
      i := i + 1;
    }
    assert paths[..i] == paths;
    var missing := out;
    i := 0;
    while i < |paths|
      invariant 0 <= i <= |paths|
      invariant out == missing + DirectoryMessages(paths[..i], prefix, d)
    {
      if IsDirectory(d, paths[i]) {
        out := out + [DirectoryMessage(prefix, paths[i])];
      }
      assert paths[..i + 1][..i] == paths[..i];
      i := i + 1;
    }
    assert paths[..i] == paths;
  }

  /** The body of `validate` once the paths are resolved: both `checkPaths` calls, then the baseline check. */
  method ValidatePaths(plugins: seq<string>, configs: seq<string>, baseline: Option<string>, d: Disk) returns (messages: seq<string>)
    ensures messages == Report(plugins, configs, baseline, d)
  {
    messages := CheckPathsInto([], plugins, PluginPrefix, d);
    messages := CheckPathsInto(messages, configs, ConfigPrefix, d);
    if baseline.Some? && !Exists(d, baseline.value) {
      messages := messages + [BaselineMessage(baseline.value)];
    }
  }

  /** `validate`: the messages of the configured paths, in the order of `Messages`. */
  method Validate(s: State, basePath: Option<string>, d: Disk) returns (messages: seq<string>)
    ensures messages == Messages(s, basePath, d)
  {
    messages := ValidatePaths(PluginPaths(s, basePath), ConfigPaths(s, basePath), Baseline(s, basePath), d);
  }

  /** What `settings` hands to detekt for one file. */
  datatype ProcessingSpec = ProcessingSpec(
    basePath: Option<string>,
    inputPaths: seq<string>,
    autoCorrect: bool,
    activateAllRules: bool,
    useDefaultConfig: bool,
    configPaths: seq<string>,
    baseline: Option<string>,
    pluginPaths: seq<string>,
    disabledExtensions: set<string>)

  /**
   * `settings(filename, autoCorrect)`: the one input file, the rule and
   * configuration switches of the settings, the resolved paths, and the
   * formatting extension disabled unless formatting is enabled;
   * `projectDir` is the canonical path of the guessed project directory.
   */
  function SpecOf(s: State, basePath: Option<string>, projectDir: Option<string>, filename: string, autoCorrect: bool): (r: ProcessingSpec)
    ensures r.inputPaths == [filename] && r.basePath == projectDir && r.autoCorrect == autoCorrect
    ensures r.activateAllRules == s.enableAllRules && r.useDefaultConfig == s.buildUponDefaultConfig
    ensures r.configPaths == ConfigPaths(s, basePath) && r.pluginPaths == PluginPaths(s, basePath)
    ensures r.baseline == Baseline(s, basePath)
    ensures ProjectUtil.FormattingRuleSetId in r.disabledExtensions <==> !s.enableFormatting
    ensures |r.disabledExtensions| <= 1
  {
    ProcessingSpec(projectDir, [filename], autoCorrect, s.enableAllRules, s.buildUponDefaultConfig,
                   ConfigPaths(s, basePath), Baseline(s, basePath), PluginPaths(s, basePath),
                   if s.enableFormatting then {} else {ProjectUtil.FormattingRuleSetId})
  }

  /** The name of the file the debugger evaluates fragments in. */
  const SpecialFilenameForDebugging: string := "/fragment.kt"

  /** How the detekt run ended: with its findings, all rule sets' lists flattened, or with an error. */
  datatype RunOutcome = Completed(findings: seq<Finding>) | Crashed

  /**
   * `execute(content, filename, autoCorrect)`: no findings for the
   * debugger's fragment file, without running detekt; otherwise the run's
   * findings, or none at all when the run's error is thrown.
   */
  function ExecuteContent(filename: string, outcome: RunOutcome): (r: Option<seq<Finding>>)
    ensures filename == SpecialFilenameForDebugging ==> r == Some([])
    ensures filename != SpecialFilenameForDebugging ==> (r.None? <==> outcome.Crashed?)
    ensures filename != SpecialFilenameForDebugging && outcome.Completed? ==> r == Some(outcome.findings)
  {
    if filename == SpecialFilenameForDebugging then Some([])
    else match outcome
      case Completed(findings) => Some(findings)
      case Crashed => None
  }

  /**
   * `execute(file, autoCorrect)`: nothing for a file without a canonical
   * path, and nothing when the run throws: the error is caught, logged and
   * replaced by the empty list.
   */
  function ExecuteFile(canonicalPath: Option<string>, outcome: RunOutcome): (r: seq<Finding>)
    ensures canonicalPath.None? ==> r == []
    ensures canonicalPath.Some? && ExecuteContent(canonicalPath.value, outcome).Some? ==> r == ExecuteContent(canonicalPath.value, outcome).value
    ensures canonicalPath.Some? && ExecuteContent(canonicalPath.value, outcome).None? ==> r == []
  {
    match canonicalPath
    case None => []
    case Some(path) => ExecuteContent(path, outcome).OrElse([])
  }

  /** Only a file with a canonical path, other than the fragment file, whose run completes can have findings. */
  lemma FindingsNeedACompletedRun(canonicalPath: Option<string>, outcome: RunOutcome)
    requires ExecuteFile(canonicalPath, outcome) != []
    ensures canonicalPath.Some? && canonicalPath.value != SpecialFilenameForDebugging
    ensures outcome.Completed? && ExecuteFile(canonicalPath, outcome) == outcome.findings
  {
  }
}
