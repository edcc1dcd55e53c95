/**
 * `DetektConfigurationForm` of the current settings page: the widgets that
 * mirror the eight stored values, their apply/reset/isModified exchange
 * with the storage, the enable switch that gates the other widgets, and
 * the plugin chooser that fills the plugin path field.
 */
module IdeaConfigurationForm {
  import opened Strings
  import opened FileSystem
  import opened FilesListPanel
  import opened IdeaConfigStorage

  /**
   * Which dependent widgets accept input: five are enabled or disabled,
   * the two path fields are made editable or read-only.
   */
  datatype Enablement = Enablement(
    buildUponDefaultConfig: bool,
    enableAllRules: bool,
    configurationFilePath: bool,
    treatAsErrors: bool,
    enableFormatting: bool,
    baselineFilePathEditable: bool,
    pluginPathsEditable: bool)

  /** Every dependent widget set to `enabled`. */
  function AllSetTo(enabled: bool): (r: Enablement)
    ensures r.buildUponDefaultConfig == enabled && r.enableAllRules == enabled
    ensures r.configurationFilePath == enabled && r.treatAsErrors == enabled && r.enableFormatting == enabled
    ensures r.baselineFilePathEditable == enabled && r.pluginPathsEditable == enabled
  {
    Enablement(enabled, enabled, enabled, enabled, enabled, enabled, enabled)
  }

  /**
   * `isModified` on the stored and the shown values, one comparison per
   * widget: it holds iff the two differ somewhere.
   */
  function Modified(stored: Fields, shown: Fields): (r: bool)
    ensures r <==> stored != shown
  {
    stored.enableDetekt != shown.enableDetekt
    || stored.enableFormatting != shown.enableFormatting
    || stored.buildUponDefaultConfig != shown.buildUponDefaultConfig
    || stored.enableAllRules != shown.enableAllRules
    || stored.treatAsError != shown.treatAsError
    || stored.rulesPath != shown.rulesPath
    || stored.baselinePath != shown.baselinePath
    || stored.pluginPaths != shown.pluginPaths
  }

  /**
   * The text the plugin chooser builds: each path is appended to the
   * builder, after a path separator whenever the builder is not empty.
   */
  function Built(paths: seq<string>): (r: string)
  {
    if paths == [] then ""
    else
      var prefix := Built(paths[..|paths| - 1]);
      (if |prefix| > 0 then prefix + [PathSeparator] else prefix) + paths[|paths| - 1]
  }

  /** For non-empty paths the built text is the paths joined by the path separator. */
  lemma {:induction false} BuiltIsJoin(paths: seq<string>)
    requires forall i :: 0 <= i < |paths| ==> paths[i] != ""
    ensures Built(paths) == Join(paths, [PathSeparator])
    ensures paths != [] ==> |Built(paths)| > 0
    decreases |paths|
  {
    if paths != [] {
      var init := paths[..|paths| - 1];
      BuiltIsJoin(init);
      JoinSnoc(init, paths[|paths| - 1], [PathSeparator]);
      assert init + [paths[|paths| - 1]] == paths;
    }
  }

  /** Paths chosen without a path separator in them come back from splitting the field text. */
  lemma ChosenPathsSplitBack(paths: seq<string>)
    requires paths != []
    requires forall i :: 0 <= i < |paths| ==> paths[i] != "" && PathSeparator !in paths[i]
    ensures Split(Built(paths), PathSeparator) == paths
  {
    BuiltIsJoin(paths);
    SplitJoin(paths, PathSeparator);
  }

  /** The paths of the chosen files, in order. */
  function PathsOf(files: seq<VirtualFile>): (r: seq<string>)
    ensures |r| == |files| && forall i :: 0 <= i < |files| ==> r[i] == files[i].path
  {
    seq(|files|, i requires 0 <= i < |files| => files[i].path)
  }

  class DetektConfigurationForm {
    /** What the widgets show: the selection of each check box and the text of each path field. */
    var shown: Fields
    var enablement: Enablement
    const storage: DetektConfigStorage

    /** The form as `createPanel` leaves it, over the given storage, with the widgets as laid out. */
    constructor(storage: DetektConfigStorage, initial: Fields, initialEnablement: Enablement)
      ensures this.storage == storage && shown == initial && enablement == initialEnablement
    {
      this.storage := storage;
      shown := initial;
      enablement := initialEnablement;
    }

    /** `isModified`. */
    function IsModified(): (r: bool)
      reads this, storage
      ensures r <==> shown != storage.fields
    {
      Modified(storage.fields, shown)
    }

    /** `apply`: every shown value is written to the storage; afterwards nothing is modified. */
    method Apply()
      modifies storage
      ensures storage.fields == shown
      ensures !IsModified()
    {
      storage.fields := Fields(shown.enableDetekt, shown.enableFormatting, shown.buildUponDefaultConfig,
                               shown.enableAllRules, shown.treatAsError, shown.rulesPath,
                               shown.baselinePath, shown.pluginPaths);
    }

    /**
     * The change listener of the enable switch: every dependent widget
     * follows the switch's selection; no value changes.
     */
    method OnEnableDetektChanged()
      modifies this
      ensures enablement == AllSetTo(shown.enableDetekt)
      ensures shown == old(shown)
    {
      enablement := AllSetTo(shown.enableDetekt);
    }

    /**
     * `reset`: every stored value is shown; afterwards nothing is modified.
     * A change of the enable switch's selection fires its listener.
     */
    method Reset()
      modifies this
      ensures shown == storage.fields
      ensures !IsModified()
      ensures old(shown.enableDetekt) != storage.fields.enableDetekt ==> enablement == AllSetTo(storage.fields.enableDetekt)
      ensures old(shown.enableDetekt) == storage.fields.enableDetekt ==> enablement == old(enablement)
    {
      var before := shown.enableDetekt;
      var f := storage.fields;
      shown := Fields(f.enableDetekt, f.enableFormatting, f.buildUponDefaultConfig, f.enableAllRules,
                      f.treatAsError, f.rulesPath, f.baselinePath, f.pluginPaths);
      if before != shown.enableDetekt {
        OnEnableDetektChanged();
      }
    }

    /** The user clicks the enable switch to `selected`; a change fires its listener. */
    method SelectEnableDetekt(selected: bool)
      modifies this
      ensures shown == old(shown).(enableDetekt := selected)
      ensures old(shown.enableDetekt) != selected ==> enablement == AllSetTo(selected)
      ensures old(shown.enableDetekt) == selected ==> enablement == old(enablement)
    {
      var before := shown.enableDetekt;
      shown := shown.(enableDetekt := selected);
      if before != selected {
        OnEnableDetektChanged();
      }
    }

    /**
     * The plugin field's action with the files the chooser returned: with
     * at least one file the field shows their paths joined by the path
     * separator; with none it keeps its text.
     */
    method OnPluginFilesChosen(files: seq<VirtualFile>)
      modifies this
      ensures files == [] ==> shown == old(shown)
      ensures files != [] ==> shown == old(shown).(pluginPaths := Built(PathsOf(files)))
      ensures enablement == old(enablement)
    {
      if |files| > 0 {
        var paths := PathsOf(files);
        var builder := "";
        var i := 0;
        while i < |files|
          invariant 0 <= i <= |files|
          invariant builder == Built(paths[..i])
        {
          if |builder| > 0 {
            builder := builder + [PathSeparator];
          }
          builder := builder + files[i].path;
          assert paths[..i + 1][..i] == paths[..i];
          i := i + 1;
        }
        assert paths[..i] == paths;
        shown := shown.(pluginPaths := builder);
      }
    }
  }

  /** Applying and then resetting leaves the shown values as they were. */
  method ApplyThenReset(form: DetektConfigurationForm)
    modifies form, form.storage
    ensures form.shown == old(form.shown)
    ensures !form.IsModified()
  {
    form.Apply();
    form.Reset();
  }
}
