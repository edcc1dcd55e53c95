/**
 * `DetektAnnotator`: runs detekt on a Kotlin file when the plugin is
 * enabled and its configuration is valid, and turns each finding into an
 * editor annotation.
 */
module DetektAnnotator {
  import opened Wrappers
  import opened Strings
  import opened SettingsState
  import opened DetektApi
  import CS = ConfiguredService
  import DetektProblem
  import opened FilesListPanel
  import opened FileSystem

  /** `KotlinLanguage.INSTANCE.id`. */
  const KotlinLanguageId: string := "kotlin"

  /** `isKotlinFile`: the file's language is Kotlin, or a test marked it as Kotlin. */
  predicate IsKotlinFile(languageId: string, testLanguageId: Option<string>)
  {
    languageId == KotlinLanguageId || testLanguageId == Some(KotlinLanguageId)
  }

  /** What `doAnnotate` returns, and the problems it shows as a notification. */
  datatype Collected = Collected(findings: seq<Finding>, notified: seq<string>)

  /**
   * `doAnnotate`: nothing for a disabled project or a file that is not
   * Kotlin; nothing, and a notification of the problems, when `validate`
   * reports some; otherwise what `execute` finds without auto-correction.
   * `canonicalPath` and `outcome` describe the file and the detekt run.
   */
  function DoAnnotate(s: State, basePath: Option<string>, d: Disk, languageId: string, testLanguageId: Option<string>,
                      canonicalPath: Option<string>, outcome: CS.RunOutcome): (r: Collected)
    ensures !s.enableDetekt || !IsKotlinFile(languageId, testLanguageId) ==> r == Collected([], [])
    ensures s.enableDetekt && IsKotlinFile(languageId, testLanguageId) && CS.Messages(s, basePath, d) != []
            ==> r == Collected([], CS.Messages(s, basePath, d))
    ensures s.enableDetekt && IsKotlinFile(languageId, testLanguageId) && CS.Messages(s, basePath, d) == []
            ==> r == Collected(CS.ExecuteFile(canonicalPath, outcome), [])
  {
    if !s.enableDetekt || !IsKotlinFile(languageId, testLanguageId) then Collected([], [])
    else
      var problems := CS.Messages(s, basePath, d);
      if problems != [] then Collected([], problems)
      else Collected(CS.ExecuteFile(canonicalPath, outcome), [])
  }

  /** Findings are shown only for an enabled project, a Kotlin file and a configuration whose paths are all usable. */
  lemma FindingsNeedValidSettings(s: State, basePath: Option<string>, d: Disk, languageId: string, testLanguageId: Option<string>,
                                  canonicalPath: Option<string>, outcome: CS.RunOutcome)
    requires DoAnnotate(s, basePath, d, languageId, testLanguageId, canonicalPath, outcome).findings != []
    ensures s.enableDetekt && IsKotlinFile(languageId, testLanguageId)
    ensures forall i :: 0 <= i < |CS.ConfigPaths(s, basePath)| ==> CS.Usable(d, CS.ConfigPaths(s, basePath)[i])
    ensures forall i :: 0 <= i < |CS.PluginPaths(s, basePath)| ==> CS.Usable(d, CS.PluginPaths(s, basePath)[i])
    ensures outcome.Completed?
  {
    CS.NoMessagesIff(s, basePath, d);
    CS.FindingsNeedACompletedRun(canonicalPath, outcome);
  }

  /** `HighlightSeverity` as the annotator uses it. */
  datatype HighlightSeverity = ErrorSeverity | WarningSeverity | WeakWarningSeverity

  /**
   * `getSeverity`: error whenever findings are treated as errors; warning
   * without custom configuration files; otherwise the finding's own level,
   * with info shown as a weak warning.
   */
  function GetSeverity(finding: Finding, hasCustomConfig: bool, treatAsError: bool): (r: HighlightSeverity)
    ensures treatAsError ==> r == ErrorSeverity
    ensures !treatAsError && !hasCustomConfig ==> r == WarningSeverity
    ensures !treatAsError && hasCustomConfig ==> (r == ErrorSeverity <==> finding.severity == ERROR)
    ensures !treatAsError && hasCustomConfig ==> (r == WarningSeverity <==> finding.severity == WARNING)
    ensures !treatAsError && hasCustomConfig ==> (r == WeakWarningSeverity <==> finding.severity == INFO)
  {
    if treatAsError then ErrorSeverity
    else if !hasCustomConfig then WarningSeverity
    else match finding.severity
      case ERROR => ErrorSeverity
      case WARNING => WarningSeverity
      case INFO => WeakWarningSeverity
  }

  /** The display level that shows a highlight severity. */
  function LevelOf(severity: HighlightSeverity): DetektProblem.DisplayLevel
  {
    match severity
    case ErrorSeverity => DetektProblem.ErrorLevel
    case WarningSeverity => DetektProblem.WarningLevel
    case WeakWarningSeverity => DetektProblem.WeakWarningLevel
  }

  /** With custom configuration and findings not treated as errors, the editor and the problems view agree on a finding's level. */
  lemma EditorAgreesWithProblemsView(file: VirtualFile, finding: Finding)
    ensures LevelOf(GetSeverity(finding, true, false)) == DetektProblem.ProblemOf(file, finding).icon
  {
  }

  /** The annotation text: `detekt - `, the rule id, `: ` and the finding's message. */
  function AnnotationMessage(finding: Finding): (r: string)
    ensures StartsWith(r, "detekt - " + finding.id + ": ")
    ensures r[|"detekt - " + finding.id + ": "|..] == finding.messageOrDescription
  {
    "detekt - " + finding.id + ": " + finding.messageOrDescription
  }

  /** The rule id is the text between `detekt - ` and the first ':' when the id holds no ':'. */
  lemma MessageNamesRule(finding: Finding)
    requires ':' !in finding.id
    ensures var m := AnnotationMessage(finding)[|"detekt - "|..];
            IndexOfChar(m, ':') == |finding.id| && m[..|finding.id|] == finding.id
  {
    var m := AnnotationMessage(finding)[|"detekt - "|..];
    assert m == finding.id + ": " + finding.messageOrDescription;
    assert m[..|finding.id|] == finding.id;
    assert m[|finding.id|] == ':';
  }

  /** The fix an annotation offers. */
  datatype Fix = AutoCorrectFix | AddToBaselineFix(finding: Finding)

  datatype Annotation = Annotation(
    severity: HighlightSeverity,
    message: string,
    range: TextLocation,
    fileLevel: bool,
    fix: Fix)

  /**
   * The annotation `apply` creates for a finding: its severity and text,
   * the finding's character range, file level iff that range is the whole
   * file, and auto-correction for a correctable finding or adding to the
   * baseline for any other.
   */
  function AnnotationOf(finding: Finding, fileRange: TextLocation, hasCustomConfig: bool, treatAsErrors: bool): (r: Annotation)
    ensures r.severity == GetSeverity(finding, hasCustomConfig, treatAsErrors)
    ensures r.message == AnnotationMessage(finding) && r.range == finding.charPosition
    ensures r.fileLevel <==> finding.charPosition == fileRange
    ensures r.fix == AutoCorrectFix <==> finding.correctable
    ensures !finding.correctable ==> r.fix == AddToBaselineFix(finding)
  {
    Annotation(GetSeverity(finding, hasCustomConfig, treatAsErrors), AnnotationMessage(finding),
               finding.charPosition, finding.charPosition == fileRange,
               if finding.correctable then AutoCorrectFix else AddToBaselineFix(finding))
  }

  /**
   * `apply`: one annotation per finding, in order, with custom
   * configuration meaning a non-empty list of configuration files.
   */
  method Apply(s: State, fileRange: TextLocation, annotationResult: seq<Finding>) returns (created: seq<Annotation>)
    ensures |created| == |annotationResult|
    ensures forall i :: 0 <= i < |created| ==>
      created[i] == AnnotationOf(annotationResult[i], fileRange, |s.configurationFiles| > 0, s.treatAsErrors)
    ensures s.treatAsErrors ==> forall i :: 0 <= i < |created| ==> created[i].severity == ErrorSeverity
    ensures !s.treatAsErrors && s.configurationFiles == [] ==> forall i :: 0 <= i < |created| ==> created[i].severity == WarningSeverity
  {
    var hasCustomConfig := |s.configurationFiles| > 0;
    created := [];
    for i := 0 to |annotationResult|
      invariant |created| == i
      invariant forall j :: 0 <= j < i ==> created[j] == AnnotationOf(annotationResult[j], fileRange, hasCustomConfig, s.treatAsErrors)
    {
      var finding := annotationResult[i];
      var severity := GetSeverity(finding, hasCustomConfig, s.treatAsErrors);
      var fix := if finding.correctable then AutoCorrectFix else AddToBaselineFix(finding);
      created := created + [Annotation(severity, AnnotationMessage(finding), finding.charPosition,
                                       finding.charPosition == fileRange, fix)];
    }
  }
}
