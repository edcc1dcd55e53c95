/**
 * The local file system as the plugin sees it, on a Unix host: paths are
 * strings, '/' separates names and ':' separates the entries of a path list.
 * Which paths exist, and which of them are directories, is a snapshot.
 */
module FileSystem {
  /** `File.separatorChar`. */
  const Separator: char := '/'
  /** `File.pathSeparator`. */
  const PathSeparator: char := ':'

  /** The existing regular files and directories. */
  datatype Disk = Disk(files: set<string>, directories: set<string>)

  /** `Files.exists` / `File.exists()`. */
  predicate Exists(d: Disk, path: string)
  {
    path in d.files || path in d.directories
  }

  /** `Files.isDirectory`. */
  predicate IsDirectory(d: Disk, path: string)
  {
    path in d.directories
  }

  /** `File.isFile`. */
  predicate IsFile(d: Disk, path: string)
  {
    path in d.files
  }

  /** `File.isAbsolute` on Unix: the path starts at the root. */
  predicate IsAbsolute(path: string)
  {
    |path| > 0 && path[0] == Separator
  }

  /** A path under a directory: the two joined by one separator. */
  function Child(dir: string, name: string): (r: string)
    ensures |r| == |dir| + 1 + |name| && r[|dir|] == Separator
    ensures r[..|dir|] == dir && r[|dir| + 1..] == name
  {
    dir + [Separator] + name
  }
}
