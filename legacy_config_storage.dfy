/**
 * `DetektConfigStorage` of the older settings page: six persisted values,
 * exchanged with the settings framework as the storage object itself.
 */
module LegacyConfigStorage {

  /** The six persisted values; each is also what one widget of the older form shows. */
  datatype Fields = Fields(
    enableDetekt: bool,
    enableFormatting: bool,
    buildUponDefaultConfig: bool,
    failFast: bool,
    treatAsError: bool,
    rulesPath: string)

  /** The values of a new storage: all five switches off and no rules path. */
  const DefaultFields: Fields := Fields(false, false, false, false, false, "")

  class DetektConfigStorage {
    var fields: Fields

    constructor()
      ensures fields == DefaultFields
    {
      fields := DefaultFields;
    }

    /** `getState`: the storage object itself. */
    function GetState(): DetektConfigStorage
    {
      this
    }

    /**
     * `loadState(state)`: every value is copied from the given storage, so
     * loading the storage's own state changes nothing.
     */
    method LoadState(state: DetektConfigStorage)
      modifies this
      ensures fields == old(state.fields)
      ensures state == GetState() ==> fields == old(fields)
    {
      var f := state.fields;
      fields := Fields(f.enableDetekt, f.enableFormatting, f.buildUponDefaultConfig, f.failFast,
                       f.treatAsError, f.rulesPath);
    }
  }
}
