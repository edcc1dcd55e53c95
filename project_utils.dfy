/**
 * The path helpers of the current settings code: resolving a configured
 * path against the project, the optional baseline path, the conversions
 * between path lists and files, and the file-path check of the settings form.
 */
module ProjectUtils {
  import opened Wrappers
  import opened Strings
  import opened FileSystem
  import opened FilesListPanel

  /**
   * `absolutePath(project, path)`: a blank or absolute path is kept; a
   * relative one is placed under the project's base directory, and kept
   * as it is when the project has none.
   */
  function AbsolutePath(basePath: Option<string>, path: string): (r: string)
    ensures IsBlank(path) || IsAbsolute(path) || basePath.None? ==> r == path
    ensures !IsBlank(path) && !IsAbsolute(path) && basePath.Some? ==> r == Child(basePath.value, path)
  {
    if IsBlank(path) || IsAbsolute(path) then path
    else match basePath
      case None => path
      case Some(base) => Child(base, path)
  }

  /** Resolving twice resolves once, when the base directory is absolute. */
  lemma AbsolutePathIdempotent(basePath: Option<string>, path: string)
    requires basePath.Some? ==> IsAbsolute(basePath.value)
    ensures AbsolutePath(basePath, AbsolutePath(basePath, path)) == AbsolutePath(basePath, path)
  {
    if !IsBlank(path) && !IsAbsolute(path) && basePath.Some? {
      var r := Child(basePath.value, path);
      assert r[0] == basePath.value[0];
    }
  }

  /**
   * `absoluteBaselinePath`: none for a baseline path that is empty once
   * trimmed, otherwise the untrimmed path resolved against the project.
   */
  function AbsoluteBaselinePath(basePath: Option<string>, baselinePath: string): (r: Option<string>)
    ensures r.None? <==> IsBlank(baselinePath)
    ensures r.Some? ==> r.value == AbsolutePath(basePath, baselinePath)
  {
    TrimEmptyIffBlank(baselinePath);
    if Trim(baselinePath) == "" then None else Some(AbsolutePath(basePath, baselinePath))
  }

  /**
   * `toVirtualFilesList`: the files the local file system finds for the
   * non-blank paths, in order; `find` stands for `findFileByPath`.
   */
  function ToVirtualFilesList(paths: seq<string>, find: string -> Option<VirtualFile>): (r: seq<VirtualFile>)
    ensures |r| <= |paths|
  {
    if paths == [] then []
    else
      var head := if !IsBlank(paths[0]) && find(paths[0]).Some? then [find(paths[0]).value] else [];
      head + ToVirtualFilesList(paths[1..], find)
  }

  /** A file is in the list iff some non-blank path was found as that file. */
  lemma {:induction false} ToVirtualFilesListMembers(paths: seq<string>, find: string -> Option<VirtualFile>, v: VirtualFile)
    ensures v in ToVirtualFilesList(paths, find)
        <==> exists i :: 0 <= i < |paths| && !IsBlank(paths[i]) && find(paths[i]) == Some(v)
  {
    if paths != [] {
      ToVirtualFilesListMembers(paths[1..], find, v);
      if v in ToVirtualFilesList(paths[1..], find) {
        var i :| 0 <= i < |paths[1..]| && !IsBlank(paths[1..][i]) && find(paths[1..][i]) == Some(v);
        assert paths[i + 1] == paths[1..][i];
      }
      if exists i :: 0 <= i < |paths| && !IsBlank(paths[i]) && find(paths[i]) == Some(v) {
        var i :| 0 <= i < |paths| && !IsBlank(paths[i]) && find(paths[i]) == Some(v);
        if i > 0 {
          assert paths[1..][i - 1] == paths[i];
        }
      }
    }
  }

  /** The conversion keeps order: converting two lists one after the other is converting their concatenation. */
  lemma {:induction false} ToVirtualFilesListAppend(a: seq<string>, b: seq<string>, find: string -> Option<VirtualFile>)
    ensures ToVirtualFilesList(a + b, find) == ToVirtualFilesList(a, find) + ToVirtualFilesList(b, find)
  {
    if a == [] {
      assert a + b == b;
    } else {
      assert (a + b)[0] == a[0];
      assert (a + b)[1..] == a[1..] + b;
      ToVirtualFilesListAppend(a[1..], b, find);
    }
  }

  /** `toPathsList`: the paths of the files that exist, in order. */
  function ToPathsList(files: seq<VirtualFile>, d: Disk): (r: seq<string>)
    ensures |r| <= |files|
    ensures forall p :: p in r ==> Exists(d, p)
  {
    if files == [] then []
    else (if Exists(d, files[0].path) then [files[0].path] else []) + ToPathsList(files[1..], d)
  }

  /** A path is in the list iff an existing file has it. */
  lemma {:induction false} ToPathsListMembers(files: seq<VirtualFile>, d: Disk, p: string)
    ensures p in ToPathsList(files, d) <==> Exists(d, p) && exists i :: 0 <= i < |files| && files[i].path == p
  {
    if files != [] {
      ToPathsListMembers(files[1..], d, p);
      if exists i :: 0 <= i < |files| && files[i].path == p {
        var i :| 0 <= i < |files| && files[i].path == p;
        if i > 0 {
          assert files[1..][i - 1] == files[i];
        }
      }
      if exists i :: 0 <= i < |files[1..]| && files[1..][i].path == p {
        var i :| 0 <= i < |files[1..]| && files[1..][i].path == p;
        assert files[i + 1] == files[1..][i];
      }
    }
  }

  /** The kind of message a settings field shows. */
  datatype Validation = Warning(message: string) | Error(message: string)

  /** The message text of an invalid file path. */
  const FilePathMessage: string := "detekt.configuration.validationError.filePath"

  /**
   * `validateAsFilePath`: nothing for empty text or a path naming a regular
   * file; otherwise a warning when `isWarning` holds and an error when not.
   */
  function ValidateAsFilePath(d: Disk, text: string, isWarning: bool): (r: Option<Validation>)
    ensures r.None? <==> text == "" || IsFile(d, text)
    ensures r.Some? ==> (r.value.Warning? <==> isWarning)
    ensures r.Some? ==> r.value.message == FilePathMessage
  {
    if text != "" && !IsFile(d, text) then
      Some(if isWarning then Warning(FilePathMessage) else Error(FilePathMessage))
    else None
  }
}
