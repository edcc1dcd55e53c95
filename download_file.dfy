/**
 * `DownloadFileImpl`: downloads a file into the plugin's configuration
 * directory under a name taken from its URL, unless a file of that name
 * is already there.
 */
module DownloadFile {
  import opened Wrappers
  import opened Strings
  import opened FileSystem

  /** The index of the first segment holding a '?', or -1. */
  function FirstQuerySegment(segments: seq<string>): (r: int)
    ensures -1 <= r < |segments|
    ensures r == -1 <==> forall j :: 0 <= j < |segments| ==> '?' !in segments[j]
    ensures r >= 0 ==> '?' in segments[r] && forall j :: 0 <= j < r ==> '?' !in segments[j]
  {
    if segments == [] then -1
    else if '?' in segments[0] then 0
    else
      var k := FirstQuerySegment(segments[1..]);
      assert forall j :: 0 < j < |segments| ==> segments[j] == segments[1..][j - 1];
      if k == -1 then -1 else k + 1
  }

  /**
   * The file name `getUrlFileName` derives from a URL: of the first
   * '/'-segment holding a '?', the part before its first '?'; when no
   * segment holds one, the last segment.
   */
  function UrlFileName(url: string): (r: string)
    ensures Separator !in r && '?' !in r
  {
    var segments := Split(url, Separator);
    SplitPiecesFree(url, Separator);
    var k := FirstQuerySegment(segments);
    if k >= 0 then segments[k][..IndexOfChar(segments[k], '?')]
    else segments[|segments| - 1]
  }

  /** A URL without '/' and '?' is its own file name. */
  lemma PlainNameIsKept(url: string)
    requires Separator !in url && '?' !in url
    ensures UrlFileName(url) == url
  {
    SplitFree(url, Separator);
  }

  /** The name of a file fetched with query parameters loses them. */
  lemma QueryIsDropped(base: string, name: string, query: string)
    requires Separator !in name && '?' !in name && '?' !in base && Separator !in query
    ensures UrlFileName(base + [Separator] + name + "?" + query) == name
  {
    var url := base + [Separator] + name + "?" + query;
    var last := name + "?" + query;
    assert url == base + [Separator] + last;
    SplitFree(last, Separator);
    SplitConcat(base, Separator, last);
    var segments := Split(url, Separator);
    assert segments == Split(base, Separator) + [last];
    FrontHasNoQuery(base, last);
    QueryAfterName(name, query);
  }

  /** No piece of the split of a '?'-free text holds a '?', so the first query segment is the appended one. */
  lemma FrontHasNoQuery(base: string, last: string)
    requires '?' !in base && '?' in last
    ensures FirstQuerySegment(Split(base, Separator) + [last]) == |Split(base, Separator)|
  {
    var front := Split(base, Separator);
    var segments := front + [last];
    forall j | 0 <= j < |front| ensures '?' !in segments[j] {
      SegmentWithin(base, Separator, j);
      assert segments[j] == front[j];
    }
    assert segments[|front|] == last;
  }

  /** In "name?query" with a '?'-free name, the first '?' follows the name. */
  lemma QueryAfterName(name: string, query: string)
    requires '?' !in name
    ensures var last := name + "?" + query;
      '?' in last && IndexOfChar(last, '?') == |name| && last[..|name|] == name
  {
    var last := name + "?" + query;
    assert last[|name|] == '?';
    assert last[..|name|] == name;
  }

  /** Every character of a piece of a split occurs in the split string. */
  lemma SegmentWithin(s: string, sep: char, j: int)
    requires 0 <= j < |Split(s, sep)|
    ensures forall c :: c in Split(s, sep)[j] ==> c in s
    decreases |s|
  {
    if |s| > 0 {
      var rest := Split(s[1..], sep);
      if s[0] == sep {
        if j > 0 {
          SegmentWithin(s[1..], sep, j - 1);
        }
      } else {
        SegmentWithin(s[1..], sep, j);
        assert forall c :: c in s[1..] ==> c in s;
      }
    }
  }

  /** `getUrlFileName`: the loop over the segments, with its early return. */
  method GetUrlFileName(url: string) returns (filename: Option<string>)
    ensures filename == Some(UrlFileName(url))
  {
    filename := None;
    var strings := Split(url, Separator);
    var i := 0;
    while i < |strings|
      invariant 0 <= i <= |strings|
      invariant forall j :: 0 <= j < i ==> '?' !in strings[j]
    {
      var s := strings[i];
      if '?' in s {
        var endIndex := IndexOfChar(s, '?');
        if endIndex != -1 {
          filename := Some(s[..endIndex]);
          assert FirstQuerySegment(strings) == i;
          return;
        }
      }
      i := i + 1;
    }
    if |strings| > 0 {
      filename := Some(strings[|strings| - 1]);
    }
  }

  /** `getConfigPath`: the `config` directory of the plugin's installation. */
  function ConfigPath(pluginPath: string): (r: string)
    ensures r == Child(pluginPath, "config")
  {
    pluginPath + "/config"
  }

  /** Where `download` puts the file of a URL: the derived name, directly in the configuration directory. */
  function DownloadTarget(pluginPath: string, url: string): (r: string)
    ensures StartsWith(r, ConfigPath(pluginPath) + [Separator])
    ensures r[|ConfigPath(pluginPath)| + 1..] == UrlFileName(url)
  {
    Child(ConfigPath(pluginPath), UrlFileName(url))
  }

  /** What `download` did: the file it returns, and whether it made a request. */
  datatype Download = Download(file: Option<string>, requested: bool)

  /**
   * `download(url)`: an existing target is returned with no request made;
   * otherwise the URL is requested and the target is returned iff the
   * transfer succeeds, as `fetchSucceeds` says.
   */
  function DownloadFile(d: Disk, pluginPath: string, url: string, fetchSucceeds: bool): (r: Download)
    ensures Exists(d, DownloadTarget(pluginPath, url)) ==> r == Download(Some(DownloadTarget(pluginPath, url)), false)
    ensures !Exists(d, DownloadTarget(pluginPath, url)) ==> r.requested
    ensures !Exists(d, DownloadTarget(pluginPath, url)) ==> (r.file.Some? <==> fetchSucceeds)
    ensures r.file.Some? ==> r.file.value == DownloadTarget(pluginPath, url)
  {
    var file := DownloadTarget(pluginPath, url);
    if Exists(d, file) then Download(Some(file), false)
    else Download(if fetchSucceeds then Some(file) else None, true)
  }

  /** A second download of a URL whose first download succeeded makes no request. */
  lemma SecondDownloadIsLocal(d: Disk, pluginPath: string, url: string, fetchSucceeds: bool)
    requires DownloadFile(d, pluginPath, url, true).file.Some?
    ensures var after := Disk(d.files + {DownloadTarget(pluginPath, url)}, d.directories);
            DownloadFile(after, pluginPath, url, fetchSucceeds) == Download(Some(DownloadTarget(pluginPath, url)), false)
  {
  }
}
