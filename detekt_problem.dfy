/**
 * `DetektProblem`: a finding shown in the IDE's problems view, with the
 * view's zero-based line and column.
 */
module DetektProblem {
  import opened DetektApi
  import opened FilesListPanel

  /** The three `HighlightDisplayLevel`s whose icon a problem shows. */
  datatype DisplayLevel = ErrorLevel | WarningLevel | WeakWarningLevel

  /** The icon's level for a severity: error, warning, weak warning. */
  function IconLevel(severity: SeverityLevel): (r: DisplayLevel)
    ensures severity == ERROR <==> r == ErrorLevel
    ensures severity == WARNING <==> r == WarningLevel
    ensures severity == INFO <==> r == WeakWarningLevel
  {
    match severity
    case ERROR => ErrorLevel
    case WARNING => WarningLevel
    case INFO => WeakWarningLevel
  }

  /** Distinct severities show distinct icons. */
  lemma IconLevelInjective(a: SeverityLevel, b: SeverityLevel)
    requires IconLevel(a) == IconLevel(b)
    ensures a == b
  {
  }

  datatype Problem = Problem(
    file: VirtualFile,
    text: string,
    description: string,
    group: string,
    icon: DisplayLevel,
    line: int,
    column: int)

  /**
   * The problem of a finding in a file: the finding's message as text, its
   * issue description, its rule id as group, the icon of its severity, and
   * its position one line and one column earlier.
   */
  function ProblemOf(file: VirtualFile, finding: Finding): (r: Problem)
    ensures r.file == file && r.text == finding.messageOrDescription
    ensures r.description == finding.description && r.group == finding.id
    ensures r.icon == IconLevel(finding.severity)
    ensures r.line + 1 == finding.source.line && r.column + 1 == finding.source.column
  {
    Problem(file, finding.messageOrDescription, finding.description, finding.id,
            IconLevel(finding.severity), finding.source.line - 1, finding.source.column - 1)
  }

  /** A finding on the first line and column is shown at line 0, column 0, and a position counted from 1 is never shown negative. */
  lemma ProblemPositionIsZeroBased(file: VirtualFile, finding: Finding)
    requires finding.source.line >= 1 && finding.source.column >= 1
    ensures ProblemOf(file, finding).line >= 0 && ProblemOf(file, finding).column >= 0
    ensures finding.source == SourceLocation(1, 1) ==> ProblemOf(file, finding).line == 0 == ProblemOf(file, finding).column
  {
  }

  /** The finding's rule id, severity and source position can be read back from its problem. */
  lemma ProblemKeepsIdentity(file: VirtualFile, f: Finding, g: Finding)
    requires ProblemOf(file, f) == ProblemOf(file, g)
    ensures f.id == g.id && f.severity == g.severity && f.source == g.source
    ensures f.messageOrDescription == g.messageOrDescription && f.description == g.description
  {
    IconLevelInjective(f.severity, g.severity);
  }
}
