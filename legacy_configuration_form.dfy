/**
 * `DetektConfigurationForm` of the older settings page: the widgets that
 * mirror the six stored values and their apply/reset/isModified exchange
 * with the storage.
 */
module LegacyConfigurationForm {
  import opened LegacyConfigStorage

  /**
   * `isModified` on the stored and the shown values, one comparison per
   * widget: it holds iff the two differ somewhere.
   */
  function Modified(stored: Fields, shown: Fields): (r: bool)
    ensures r <==> stored != shown
  {
    stored.enableDetekt != shown.enableDetekt
    || stored.enableFormatting != shown.enableFormatting
    || stored.buildUponDefaultConfig != shown.buildUponDefaultConfig
    || stored.failFast != shown.failFast
    || stored.treatAsError != shown.treatAsError
    || stored.rulesPath != shown.rulesPath
  }

  class DetektConfigurationForm {
    /** What the widgets show: the selection of each check box and the rules path text. */
    var shown: Fields
    const storage: DetektConfigStorage

    /** The form as `createPanel` leaves it, over the given storage, with the widgets as laid out. */
    constructor(storage: DetektConfigStorage, initial: Fields)
      ensures this.storage == storage && shown == initial
    {
      this.storage := storage;
      shown := initial;
    }

    /** `isModified`. */
    function IsModified(): (r: bool)
      reads this, storage
      ensures r <==> shown != storage.fields
    {
      Modified(storage.fields, shown)
    }

    /** `apply`: every shown value, `failFast` and the rules path included, is written to the storage. */
    method Apply()
      modifies storage
      ensures storage.fields == shown
      ensures !IsModified()
    {
      storage.fields := Fields(shown.enableDetekt, shown.enableFormatting, shown.buildUponDefaultConfig,
                               shown.failFast, shown.treatAsError, shown.rulesPath);
    }

    /** `reset`: every stored value is shown; afterwards nothing is modified. */
    method Reset()
      modifies this
      ensures shown == storage.fields
      ensures !IsModified()
    {
      var f := storage.fields;
      shown := Fields(f.enableDetekt, f.enableFormatting, f.buildUponDefaultConfig, f.failFast,
                      f.treatAsError, f.rulesPath);
    }
  }
}
