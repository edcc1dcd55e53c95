/**
 * `DetektSettingsMigration`: the settings layout version kept in the
 * workspace file, and the move of the v2 string sets into the v3 lists.
 */
module DetektSettingsMigration {
  import opened SettingsState

  /** `CURRENT_VERSION`. */
  const CurrentVersion: int := 3
  /** The version the layout had before lists replaced the sets. */
  const V2: int := 2
  /** The stored value of a fresh migration state. */
  const UnsetVersion: int := -1

  /** `stateVersion` read from a stored value: the value when positive, else the current version. */
  function VersionOf(stored: int): (r: int)
    ensures r > 0
    ensures stored > 0 ==> r == stored
    ensures stored <= 0 ==> r == CurrentVersion
  {
    if stored > 0 then stored else CurrentVersion
  }

  /**
   * The state `migrateFromV2ToCurrent` builds: a copy of the v2 state whose
   * lists take the elements of the deprecated sets, which are left empty.
   */
  function MigratedFromV2(v2State: State): (r: State)
    ensures r.pluginJars == v2State.pluginJarPaths
    ensures r.configurationFiles == v2State.configurationFilePaths
    ensures r.pluginJarPaths == [] && r.configurationFilePaths == []
    ensures r.(pluginJars := v2State.pluginJars, configurationFiles := v2State.configurationFiles,
               pluginJarPaths := v2State.pluginJarPaths, configurationFilePaths := v2State.configurationFilePaths)
            == v2State
  {
    v2State.(pluginJars := v2State.pluginJarPaths, pluginJarPaths := [],
             configurationFiles := v2State.configurationFilePaths, configurationFilePaths := [])
  }

  /** Migrating a second time would empty the lists again; recording the current version prevents that. */
  lemma MigratingTwiceLosesLists(s: State)
    requires s.pluginJarPaths != []
    ensures MigratedFromV2(MigratedFromV2(s)).pluginJars == []
    ensures MigratedFromV2(s).pluginJars != []
  {
  }

  /** `DetektSettingsMigration` with its persisted version. */
  class DetektSettingsMigration {
    /** `state.stateVersion`. */
    var storedVersion: int

    constructor()
      ensures storedVersion == UnsetVersion
      ensures StateVersion() == CurrentVersion
    {
      storedVersion := UnsetVersion;
    }

    /** `stateVersion`, read. */
    function StateVersion(): (r: int)
      reads this
      ensures r > 0 && (storedVersion > 0 ==> r == storedVersion)
      ensures storedVersion <= 0 ==> r == CurrentVersion
    {
      VersionOf(storedVersion)
    }

    /** `stateVersion`, written. */
    method SetStateVersion(value: int)
      modifies this
      ensures storedVersion == value
      ensures value > 0 ==> StateVersion() == value
    {
      storedVersion := value;
    }

    /** `migrateFromV2ToCurrent`: the migrated copy, and the stored version becomes current. */
    method MigrateFromV2ToCurrent(v2State: State) returns (migrated: State)
      modifies this
      ensures migrated == MigratedFromV2(v2State)
      ensures storedVersion == CurrentVersion && StateVersion() == CurrentVersion
    {
      migrated := MigratedFromV2(v2State);
      storedVersion := CurrentVersion;
    }
  }
}
