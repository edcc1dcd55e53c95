/**
 * The two directions between Maven coordinates and the layout of a Maven
 * repository: `coordToRelativePath` (CoordToRelativePath.kt) and
 * `extractCoordinate` (ExtractCoordinate.kt).
 */
module MavenRepositoryPaths {
  import opened Wrappers
  import opened Strings

  /** `MIN_COORDINATES_PARTS`: group, artifact and version. */
  const MinCoordinatesParts: nat := 3
  /** `MIN_PATH_PARTS`: at least one group segment, artifact, version and file. */
  const MinPathParts: nat := 4
  const RepoMarker: string := "/repository/"

  /**
   * `coordToRelativePath(coord, fileName)`: "group/with/slashes/artifact/version/fileName"
   * for a coordinate with at least three ':'-parts, "unknown/fileName" otherwise.
   */
  function CoordToRelativePath(coord: string, fileName: string): (r: string)
    ensures EndsWith(r, "/" + fileName)
    ensures |Split(coord, ':')| < MinCoordinatesParts ==> r == "unknown/" + fileName
  {
    var parts := Split(coord, ':');
    if |parts| >= MinCoordinatesParts then
      ReplaceChar(parts[0], '.', '/') + "/" + parts[1] + "/" + parts[2] + "/" + fileName
    else
      "unknown/" + fileName
  }

  /** The layout of a full coordinate "g:a:v" whose parts hold no ':'. */
  lemma CoordToRelativePathLayout(g: string, a: string, v: string, fileName: string)
    requires ':' !in g && ':' !in a && ':' !in v
    ensures CoordToRelativePath(g + ":" + a + ":" + v, fileName)
      == ReplaceChar(g, '.', '/') + "/" + a + "/" + v + "/" + fileName
  {
    var parts := [g, a, v];
    assert parts[1..] == [a, v] && parts[1..][1..] == [v];
    assert Join([a, v], ":") == a + ":" + v;
    assert Join(parts, ":") == g + ":" + a + ":" + v;
    SplitJoin(parts, ':');
  }

  /** Parts after the third (a classifier, say) do not change the path. */
  lemma CoordToRelativePathIgnoresExtraParts(coord: string, extra: string, fileName: string)
    requires |Split(coord, ':')| >= MinCoordinatesParts
    ensures CoordToRelativePath(coord + ":" + extra, fileName) == CoordToRelativePath(coord, fileName)
  {
    SplitConcat(coord, ':', extra);
  }

  /** `RepositoryLibraryProperties`, the coordinate of the main artifact. */
  datatype LibraryProperties = LibraryProperties(groupId: string, artifactId: string, version: string)

  /** A virtual file as far as `extractCoordinate` looks at it. */
  datatype JarFile = JarFile(path: string, nameWithoutExtension: string)

  /**
   * The coordinate a path below a repository root stands for,
   * ".../group/parts/artifactId/version/file.jar", when it has enough segments.
   */
  function CoordinateFromRepositoryPath(relativePath: string): (r: Option<string>)
    ensures r.None? <==> |Split(relativePath, '/')| < MinPathParts
  {
    var parts := Split(relativePath, '/');
    if |parts| >= MinPathParts then
      var versionIndex := |parts| - 2;
      Some(Join(parts[..versionIndex - 1], ".") + ":" + parts[versionIndex - 1] + ":" + parts[versionIndex])
    else
      None
  }

  /** `extractCoordinate(file, mainProps, isMain)`. */
  function ExtractCoordinate(file: JarFile, mainProps: LibraryProperties, isMain: bool): (r: string)
    ensures isMain ==> r == mainProps.groupId + ":" + mainProps.artifactId + ":" + mainProps.version
    ensures !isMain && LastIndexOf(file.path, RepoMarker) == -1
      ==> r == "unknown:" + file.nameWithoutExtension + ":unknown"
  {
    if isMain then mainProps.groupId + ":" + mainProps.artifactId + ":" + mainProps.version
    else
      var index := LastIndexOf(file.path, RepoMarker);
      var fromPath := if index != -1 then CoordinateFromRepositoryPath(file.path[index + |RepoMarker|..]) else None;
      match fromPath
      case Some(coordinate) => coordinate
      case None => "unknown:" + file.nameWithoutExtension + ":unknown"
  }

  /** Only the text after the last "/repository/" is examined. */
  lemma ExtractUsesTextAfterLastMarker(file: JarFile, mainProps: LibraryProperties, prefix: string, rest: string)
    requires file.path == prefix + RepoMarker + rest
    requires LastIndexOf(file.path, RepoMarker) == |prefix|
    ensures ExtractCoordinate(file, mainProps, false)
      == match CoordinateFromRepositoryPath(rest)
         case Some(c) => c
         case None => "unknown:" + file.nameWithoutExtension + ":unknown"
  {
    assert file.path[|prefix| + |RepoMarker|..] == rest;
  }

  /**
   * Segments "g1/.../gk/artifact/version/file" give "g1. ... .gk:artifact:version";
   * fewer than four segments give none.
   */
  lemma {:induction false} CoordinateFromSegments(groupSegments: seq<string>, artifactId: string, version: string, fileName: string)
    requires |groupSegments| >= 1
    requires forall i :: 0 <= i < |groupSegments| ==> '/' !in groupSegments[i]
    requires '/' !in artifactId && '/' !in version && '/' !in fileName
    ensures CoordinateFromRepositoryPath(Join(groupSegments + [artifactId, version, fileName], "/"))
      == Some(Join(groupSegments, ".") + ":" + artifactId + ":" + version)
  {
    var pieces := groupSegments + [artifactId, version, fileName];
    forall i | 0 <= i < |pieces| ensures '/' !in pieces[i] {
      if i >= |groupSegments| { assert pieces[i] in [artifactId, version, fileName]; }
    }
    SplitJoin(pieces, '/');
    assert pieces[..|pieces| - 3] == groupSegments;
  }

  /** The '/'-segments of the relative path of a full coordinate: the group's '.'-parts, artifact, version, file. */
  lemma RelativePathSegments(g: string, a: string, v: string, fileName: string)
    requires ':' !in g && ':' !in a && ':' !in v
    requires '/' !in g && '/' !in a && '/' !in v && '/' !in fileName
    ensures Split(CoordToRelativePath(g + ":" + a + ":" + v, fileName), '/') == Split(g, '.') + [a, v, fileName]
  {
    CoordToRelativePathLayout(g, a, v, fileName);
    var groupPath := ReplaceChar(g, '.', '/');
    SplitThreeTail(groupPath, a, v, fileName, '/');
    SplitReplace(g, '.', '/');
  }

  /** Three delimiter-free pieces after a delimiter each become a piece of their own. */
  lemma SplitThreeTail(x: string, a: string, v: string, f: string, sep: char)
    requires sep !in a && sep !in v && sep !in f
    ensures Split(x + [sep] + a + [sep] + v + [sep] + f, sep) == Split(x, sep) + [a, v, f]
  {
    var t2 := v + [sep] + f;
    var t1 := a + [sep] + t2;
    assert x + [sep] + a + [sep] + v + [sep] + f == x + [sep] + t1;
    SplitConcat(x, sep, t1);
    SplitAppend(a, sep, t2);
    SplitAppend(v, sep, f);
    SplitFree(f, sep);
  }

  /** A path whose segments are group parts, artifact, version and file stands for their coordinate. */
  lemma CoordinateFromSplit(rel: string, groupParts: seq<string>, a: string, v: string, fileName: string)
    requires |groupParts| >= 1
    requires Split(rel, '/') == groupParts + [a, v, fileName]
    ensures CoordinateFromRepositoryPath(rel) == Some(Join(groupParts, ".") + ":" + a + ":" + v)
  {
    var parts := Split(rel, '/');
    assert parts[..|parts| - 3] == groupParts;
  }

  /**
   * `extractCoordinate` inverts `coordToRelativePath`: a jar stored under a
   * repository root at the path that `coordToRelativePath` gives yields
   * its own coordinate back.
   */
  lemma ExtractInvertsRelativePath(root: string, g: string, a: string, v: string, fileName: string, name: string)
    requires ':' !in g && ':' !in a && ':' !in v
    requires '/' !in g && '/' !in a && '/' !in v && '/' !in fileName
    requires var path := root + RepoMarker + CoordToRelativePath(g + ":" + a + ":" + v, fileName);
      LastIndexOf(path, RepoMarker) == |root|
    ensures ExtractCoordinate(JarFile(root + RepoMarker + CoordToRelativePath(g + ":" + a + ":" + v, fileName), name),
                              LibraryProperties("", "", ""), false)
      == g + ":" + a + ":" + v
  {
    var rel := CoordToRelativePath(g + ":" + a + ":" + v, fileName);
    var file := JarFile(root + RepoMarker + rel, name);
    ExtractUsesTextAfterLastMarker(file, LibraryProperties("", "", ""), root, rel);
    RelativePathSegments(g, a, v, fileName);
    CoordinateFromSplit(rel, Split(g, '.'), a, v, fileName);
    JoinSplit(g, '.');
  }
}
