/**
 * `NoAutoCorrectConfig`: a detekt configuration wrapper that answers
 * `false` for the top-level `autoCorrect` key unless auto-correction is
 * switched on globally, and passes every other question to the wrapped
 * configuration.
 */
module AutoCorrectConfig {

  /** A configuration value, as the YAML configuration holds it. */
  datatype Value = Bool(b: bool) | Int(i: int) | Text(s: string) | Texts(items: seq<string>)

  /** A detekt configuration: the values at this level and the nested sections. */
  datatype Config = Config(values: map<string, Value>, sections: map<string, Config>)

  /** The key the wrapper intercepts. */
  const AutoCorrectKey: string := "autoCorrect"

  /** `Config.valueOrDefault` of the wrapped configuration: the stored value, or the default. */
  function ValueOrDefault(c: Config, key: string, default: Value): (r: Value)
    ensures key in c.values ==> r == c.values[key]
    ensures key !in c.values ==> r == default
  {
    if key in c.values then c.values[key] else default
  }

  /** `Config.subConfig`: the nested section, or an empty one. */
  function SubConfig(c: Config, key: string): (r: Config)
    ensures key in c.sections ==> r == c.sections[key]
    ensures key !in c.sections ==> r.values == map[] && r.sections == map[]
  {
    if key in c.sections then c.sections[key] else Config(map[], map[])
  }

  datatype NoAutoCorrectConfig = NoAutoCorrectConfig(config: Config, globalAutocorrect: bool)

  /**
   * The overridden `valueOrDefault`: `autoCorrect` reads false unless
   * auto-correction is on globally; any other key, and every key when it
   * is on, reads as in the wrapped configuration.
   */
  function NoAutoCorrectValue(w: NoAutoCorrectConfig, key: string, default: Value): (r: Value)
    ensures !w.globalAutocorrect && key == AutoCorrectKey ==> r == Bool(false)
    ensures w.globalAutocorrect || key != AutoCorrectKey ==> r == ValueOrDefault(w.config, key, default)
  {
    if !w.globalAutocorrect && AutoCorrectKey == key then Bool(false)
    else ValueOrDefault(w.config, key, default)
  }

  /** The delegated `subConfig`: the wrapped configuration's section, not wrapped again. */
  function NoAutoCorrectSubConfig(w: NoAutoCorrectConfig, key: string): Config
  {
    SubConfig(w.config, key)
  }

  /** With auto-correction off globally, the top-level `autoCorrect` never reads true, whatever is stored or defaulted. */
  lemma AutoCorrectNeverOn(w: NoAutoCorrectConfig, default: Value)
    requires !w.globalAutocorrect
    ensures NoAutoCorrectValue(w, AutoCorrectKey, default) != Bool(true)
  {
  }

  /** With auto-correction on globally, the wrapper is indistinguishable from the wrapped configuration. */
  lemma GlobalOnIsTransparent(c: Config, key: string, default: Value)
    ensures NoAutoCorrectValue(NoAutoCorrectConfig(c, true), key, default) == ValueOrDefault(c, key, default)
    ensures NoAutoCorrectSubConfig(NoAutoCorrectConfig(c, true), key) == SubConfig(c, key)
  {
  }

  /**
   * Only the top level is intercepted: an `autoCorrect` stored in a nested
   * section reads as stored, because sections come from the wrapped
   * configuration.
   */
  lemma SectionsAreNotIntercepted(w: NoAutoCorrectConfig, section: string, default: Value)
    requires section in w.config.sections && AutoCorrectKey in w.config.sections[section].values
    ensures ValueOrDefault(NoAutoCorrectSubConfig(w, section), AutoCorrectKey, default)
         == w.config.sections[section].values[AutoCorrectKey]
  {
  }
}
