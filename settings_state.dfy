/**
 * `DetektPluginSettings.State`: the persisted project settings of the
 * plugin, including the two deprecated v2 fields that only migration reads.
 */
module SettingsState {
  import opened Wrappers
  import P = PluginDependencyService

  /** `EnableForProjectPromptResult`. */
  datatype PromptResult = NotSet | Declined | Accepted

  /**
   * The settings record. A v2 string set is kept as the sequence in which
   * the set yields its elements.
   */
  datatype State = State(
    redirectChannels: bool,
    detektDebugMode: bool,
    enableDetekt: bool,
    enableFormatting: bool,
    enableAllRules: bool,
    buildUponDefaultConfig: bool,
    treatAsErrors: bool,
    enableForProjectResult: PromptResult,
    configurationFiles: seq<string>,
    baselinePath: Option<string>,
    pluginJars: seq<string>,
    plugins: seq<P.DetektPlugin>,
    configurationFilePaths: seq<string>,
    pluginJarPaths: seq<string>)

  /** A freshly constructed `State`. */
  function DefaultState(): (r: State)
    ensures r.buildUponDefaultConfig
    ensures !r.redirectChannels && !r.detektDebugMode && !r.enableDetekt
    ensures !r.enableFormatting && !r.enableAllRules && !r.treatAsErrors
    ensures r.enableForProjectResult == NotSet && r.baselinePath == None
    ensures r.configurationFiles == [] && r.pluginJars == [] && r.plugins == []
    ensures r.configurationFilePaths == [] && r.pluginJarPaths == []
  {
    State(false, false, false, false, false, true, false, NotSet, [], None, [], [], [], [])
  }
}
