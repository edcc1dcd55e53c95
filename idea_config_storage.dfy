/**
 * `DetektConfigStorage` of the current settings page: eight persisted
 * values, exchanged with the settings framework as the storage object itself.
 */
module IdeaConfigStorage {

  /** The eight persisted values; each is also what one widget of the settings form shows. */
  datatype Fields = Fields(
    enableDetekt: bool,
    enableFormatting: bool,
    buildUponDefaultConfig: bool,
    enableAllRules: bool,
    treatAsError: bool,
    rulesPath: string,
    baselinePath: string,
    pluginPaths: string)

  /** The values of a new storage: all five switches off, all three paths empty. */
  const DefaultFields: Fields := Fields(false, false, false, false, false, "", "", "")

  class DetektConfigStorage {
    var fields: Fields

    constructor()
      ensures fields == DefaultFields
    {
      fields := DefaultFields;
    }

    /** `getState`: the storage object itself. */
    function GetState(): DetektConfigStorage
    {
      this
    }

    /**
     * `loadState(state)`: every value is copied from the given storage, so
     * loading the storage's own state changes nothing.
     */
    method LoadState(state: DetektConfigStorage)
      modifies this
      ensures fields == old(state.fields)
      ensures state == GetState() ==> fields == old(fields)
    {
      var f := state.fields;
      fields := Fields(f.enableDetekt, f.enableFormatting, f.buildUponDefaultConfig, f.enableAllRules,
                       f.treatAsError, f.rulesPath, f.baselinePath, f.pluginPaths);
    }
  }
}
