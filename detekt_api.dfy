/**
 * The parts of detekt's `Finding` the plugin reads: the rule id, the
 * message (or the issue description when there is none), the issue
 * description, the severity, where the finding is, and whether detekt can
 * correct it.
 */
module DetektApi {

  /** `SeverityLevel`. */
  datatype SeverityLevel = ERROR | WARNING | INFO

  /** `SourceLocation`: a line and a column, both counted from 1. */
  datatype SourceLocation = SourceLocation(line: int, column: int)

  /** `TextLocation`: the character offsets a finding spans. */
  datatype TextLocation = TextLocation(start: int, end: int)

  /**
   * A finding. `messageOrDescription` is what detekt's own
   * `messageOrDescription()` returns; `correctable` says whether the
   * finding is a `CorrectableCodeSmell`.
   */
  datatype Finding = Finding(
    id: string,
    messageOrDescription: string,
    description: string,
    severity: SeverityLevel,
    source: SourceLocation,
    charPosition: TextLocation,
    correctable: bool)
}
