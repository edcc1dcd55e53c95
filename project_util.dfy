/**
 * The path and facade helpers of the older settings code: resolving a
 * configured path, checking that a configured file exists, and choosing
 * the rule sets a detekt run loads.
 */
module ProjectUtil {
  import opened Wrappers
  import opened Strings
  import opened FileSystem

  /** The text a Kotlin string template gives for the project's base path, `null` included. */
  function BasePathText(basePath: Option<string>): string
  {
    match basePath
    case None => "null"
    case Some(b) => b
  }

  /**
   * `absolutePath(project, path)`: a blank or absolute path is kept; any
   * other path follows the base path and a '/', and a project without a
   * base path contributes the text `null`.
   */
  function AbsolutePath(basePath: Option<string>, path: string): (r: string)
    ensures IsBlank(path) || IsAbsolute(path) ==> r == path
    ensures !(IsBlank(path) || IsAbsolute(path)) ==> r == Child(BasePathText(basePath), path)
    ensures !(IsBlank(path) || IsAbsolute(path)) ==> EndsWith(r, [Separator] + path)
  {
    if IsBlank(path) || IsAbsolute(path) then path else Child(BasePathText(basePath), path)
  }

  /** Without a base path a relative path is placed under a directory named `null`. */
  lemma NoBasePathGivesNullDirectory(path: string)
    requires path != [] && path[0] != Separator && !IsWhitespace(path[0])
    ensures AbsolutePath(None, path) == "null/" + path
  {
    assert !IsBlank(path) by {
      assert !IsWhitespace(path[0]);
    }
  }

  /** A warning shown in the IDE. */
  datatype Notification = Notification(title: string, content: string)

  /** What `ensureFileExists` returns, and the notification it shows. */
  datatype Checked = Checked(found: bool, notification: Option<Notification>)

  /**
   * `ensureFileExists`: true iff the path exists; a missing path shows a
   * warning with the given title and content and gives false.
   */
  function EnsureFileExists(d: Disk, path: string, title: string, content: string): (r: Checked)
    ensures r.found <==> Exists(d, path)
    ensures r.notification.None? <==> r.found
    ensures r.notification.Some? ==> r.notification.value == Notification(title, content)
  {
    if !Exists(d, path) then Checked(false, Some(Notification(title, content))) else Checked(true, None)
  }

  /** The rule set id of the formatting plugin. */
  const FormattingRuleSetId: string := "formatting"

  /** A rule set provider, known by its id. */
  datatype RuleSetProvider = RuleSetProvider(ruleSetId: string)

  /** The providers other than formatting, in order. */
  function WithoutFormatting(providers: seq<RuleSetProvider>): (r: seq<RuleSetProvider>)
    ensures |r| <= |providers|
    ensures forall p :: p in r <==> p in providers && p.ruleSetId != FormattingRuleSetId
  {
    if providers == [] then []
    else
      var rest := WithoutFormatting(providers[1..]);
      assert forall p :: p in providers <==> p == providers[0] || p in providers[1..];
      if providers[0].ruleSetId == FormattingRuleSetId then rest else [providers[0]] + rest
  }

  /**
   * The rule sets `createFacade` hands to detekt: all loaded providers,
   * less the formatting rule set when formatting is disabled.
   */
  function FacadeProviders(loaded: seq<RuleSetProvider>, enableFormatting: bool): (r: seq<RuleSetProvider>)
    ensures enableFormatting ==> r == loaded
    ensures !enableFormatting ==> r == WithoutFormatting(loaded)
  {
    if !enableFormatting then WithoutFormatting(loaded) else loaded
  }

  /** Dropping formatting keeps the other providers in their order. */
  lemma {:induction false} WithoutFormattingAppend(a: seq<RuleSetProvider>, b: seq<RuleSetProvider>)
    ensures WithoutFormatting(a + b) == WithoutFormatting(a) + WithoutFormatting(b)
  {
    if a == [] {
      assert a + b == b;
    } else {
      assert (a + b)[0] == a[0];
      assert (a + b)[1..] == a[1..] + b;
      WithoutFormattingAppend(a[1..], b);
    }
  }
}
