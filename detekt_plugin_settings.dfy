/**
 * `DetektPluginSettings`: the project settings service. Its properties read
 * and write the fields of one `State`; loading a persisted state first
 * passes it through the migration that the stored layout version selects.
 */
module DetektPluginSettings {
  import opened Wrappers
  import opened SettingsState
  import opened DetektSettingsMigration
  import P = PluginDependencyService

  /** `shouldShowPromptToEnable` of a state. */
  predicate ShouldShowPromptToEnable(s: State)
  {
    s.enableForProjectResult == NotSet
  }

  /** `baselinePath` as read: the stored path, or "" when none is stored. */
  function BaselinePathOf(s: State): (r: string)
    ensures s.baselinePath.Some? ==> r == s.baselinePath.value
    ensures s.baselinePath.None? ==> r == ""
  {
    s.baselinePath.OrElse("")
  }

  /** A fresh state prompts the user and reads its baseline as "". */
  lemma DefaultStateReads()
    ensures ShouldShowPromptToEnable(DefaultState())
    ensures BaselinePathOf(DefaultState()) == ""
  {
  }

  /**
   * `loadOrMigrateIfNeeded` for a given `stateVersion`: unchanged for the
   * current version, migrated for version 2, the defaults for any other.
   */
  function LoadOrMigrateIfNeeded(version: int, s: State): (r: State)
    ensures version == CurrentVersion ==> r == s
    ensures version == V2 ==> r == MigratedFromV2(s)
    ensures version != CurrentVersion && version != V2 ==> r == DefaultState()
  {
    if version == CurrentVersion then s
    else if version == V2 then MigratedFromV2(s)
    else DefaultState()
  }

  /** Only a state of the current version can come out of loading with v2 data still in it. */
  lemma LoadedDropsDeprecatedData(version: int, s: State)
    requires version != CurrentVersion
    ensures LoadOrMigrateIfNeeded(version, s).pluginJarPaths == []
    ensures LoadOrMigrateIfNeeded(version, s).configurationFilePaths == []
  {
  }

  /** The loaded settings and the stored layout version after one `loadState`. */
  datatype Loaded = Loaded(state: State, storedVersion: int)

  /**
   * One load as written: the stored version is updated only when a v2
   * state was migrated, so an unsupported version stays stored.
   */
  function LoadAsWritten(stored: int, loaded: State): Loaded
  {
    var version := VersionOf(stored);
    Loaded(LoadOrMigrateIfNeeded(version, loaded), if version == V2 then CurrentVersion else stored)
  }

  /**
   * With an unsupported stored version such as 1, every load resets the
   * settings, so what the user saved after the first reset is lost on the next.
   */
  lemma UnsupportedVersionResetsEveryLoad(first: State, saved: State)
    ensures LoadAsWritten(LoadAsWritten(1, first).storedVersion, saved).state == DefaultState()
    ensures saved.enableDetekt ==> LoadAsWritten(LoadAsWritten(1, first).storedVersion, saved).state != saved
  {
  }

  /** One load with the reset also recorded: every non-current version is replaced by the current one. */
  function Load(stored: int, loaded: State): (r: Loaded)
    ensures r.state == LoadOrMigrateIfNeeded(VersionOf(stored), loaded)
    ensures VersionOf(r.storedVersion) == CurrentVersion
    ensures VersionOf(stored) == CurrentVersion ==> r.storedVersion == stored
  {
    var version := VersionOf(stored);
    Loaded(LoadOrMigrateIfNeeded(version, loaded), if version == CurrentVersion then stored else CurrentVersion)
  }

  /** After any load, the next load returns exactly the state that was saved in between. */
  lemma NextLoadKeepsSaved(stored: int, first: State, saved: State)
    ensures Load(Load(stored, first).storedVersion, saved).state == saved
  {
    var after := Load(stored, first);
    assert VersionOf(after.storedVersion) == CurrentVersion;
  }

  /** `DetektPluginSettings`: the state, and the migration service it consults when loading. */
  class DetektPluginSettings {
    var state: State
    const migration: DetektSettingsMigration

    constructor(migration: DetektSettingsMigration)
      ensures state == DefaultState() && this.migration == migration
    {
      state := DefaultState();
      this.migration := migration;
    }

    function EnableDetekt(): bool reads this { state.enableDetekt }
    function EnableForProjectResult(): PromptResult reads this { state.enableForProjectResult }
    function EnableFormatting(): bool reads this { state.enableFormatting }
    function BuildUponDefaultConfig(): bool reads this { state.buildUponDefaultConfig }
    function EnableAllRules(): bool reads this { state.enableAllRules }
    function TreatAsErrors(): bool reads this { state.treatAsErrors }
    function ConfigurationFilePaths(): seq<string> reads this { state.configurationFiles }
    function PluginJarPaths(): seq<string> reads this { state.pluginJars }
    function Plugins(): seq<P.DetektPlugin> reads this { state.plugins }
    function Debug(): bool reads this { state.detektDebugMode }
    function RedirectChannels(): bool reads this { state.redirectChannels }

    /** `baselinePath`, read. */
    function BaselinePath(): (r: string)
      reads this
      ensures state.baselinePath.None? ==> r == ""
    {
      BaselinePathOf(state)
    }

    /** `shouldShowPromptToEnable`. */
    function ShouldShowPrompt(): (r: bool)
      reads this
      ensures r <==> state.enableForProjectResult == NotSet
    {
      ShouldShowPromptToEnable(state)
    }

    method SetEnableDetekt(value: bool)
      modifies this
      ensures state == old(state).(enableDetekt := value) && EnableDetekt() == value
    {
      state := state.(enableDetekt := value);
    }

    method SetEnableForProjectResult(value: PromptResult)
      modifies this
      ensures state == old(state).(enableForProjectResult := value) && EnableForProjectResult() == value
      ensures ShouldShowPrompt() <==> value == NotSet
    {
      state := state.(enableForProjectResult := value);
    }

    method SetEnableFormatting(value: bool)
      modifies this
      ensures state == old(state).(enableFormatting := value) && EnableFormatting() == value
    {
      state := state.(enableFormatting := value);
    }

    method SetBuildUponDefaultConfig(value: bool)
      modifies this
      ensures state == old(state).(buildUponDefaultConfig := value) && BuildUponDefaultConfig() == value
    {
      state := state.(buildUponDefaultConfig := value);
    }

    method SetEnableAllRules(value: bool)
      modifies this
      ensures state == old(state).(enableAllRules := value) && EnableAllRules() == value
    {
      state := state.(enableAllRules := value);
    }

    method SetTreatAsErrors(value: bool)
      modifies this
      ensures state == old(state).(treatAsErrors := value) && TreatAsErrors() == value
    {
      state := state.(treatAsErrors := value);
    }

    /** The list is stored by value, so later changes to the caller's list cannot reach it. */
    method SetConfigurationFilePaths(value: seq<string>)
      modifies this
      ensures state == old(state).(configurationFiles := value) && ConfigurationFilePaths() == value
    {
      state := state.(configurationFiles := value);
    }

    method SetBaselinePath(value: string)
      modifies this
      ensures state == old(state).(baselinePath := Some(value)) && BaselinePath() == value
    {
      state := state.(baselinePath := Some(value));
    }

    method SetPluginJarPaths(value: seq<string>)
      modifies this
      ensures state == old(state).(pluginJars := value) && PluginJarPaths() == value
    {
      state := state.(pluginJars := value);
    }

    method SetPlugins(value: seq<P.DetektPlugin>)
      modifies this
      ensures state == old(state).(plugins := value) && Plugins() == value
    {
      state := state.(plugins := value);
    }

    method SetDebug(value: bool)
      modifies this
      ensures state == old(state).(detektDebugMode := value) && Debug() == value
    {
      state := state.(detektDebugMode := value);
    }

    method SetRedirectChannels(value: bool)
      modifies this
      ensures state == old(state).(redirectChannels := value) && RedirectChannels() == value
    {
      state := state.(redirectChannels := value);
    }

    /**
     * `loadState`: the persisted state, migrated as its layout version
     * demands, becomes the settings; `reconcile` says whether a running
     * application is present, in which case the loaded plugins are handed
     * on to plugin reconciliation, which is returned here.
     */
    method LoadState(loaded: State, reconcile: bool) returns (reconciled: Option<seq<P.DetektPlugin>>)
      modifies this, migration
      ensures state == Load(old(migration.storedVersion), loaded).state
      ensures migration.storedVersion == Load(old(migration.storedVersion), loaded).storedVersion
      ensures reconciled == if reconcile then Some(state.plugins) else None
    {
      var version := migration.StateVersion();
      var migrated: State;
      if version == CurrentVersion {
        migrated := loaded;
      } else if version == V2 {
        migrated := migration.MigrateFromV2ToCurrent(loaded);
      } else {
        migrated := DefaultState();
        migration.SetStateVersion(CurrentVersion);
      }
      state := migrated;
      reconciled := if reconcile then Some(migrated.plugins) else None;
    }
  }
}
