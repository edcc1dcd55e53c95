/**
 * The sequential logic of `MavenArtifactFetcher`: artifacts and their
 * latest version, GAV parsing, artifact keys, deduplication of search hits
 * keeping the highest version, descending version sort, retry once on a
 * timeout, and the index-aligned fallback of a batch of version fetches.
 *
 * Versions are ordered by a comparator passed in as `le` ("at most"), a
 * total preorder; `compare(a, b) > 0` is `!le(a, b)`.
 */
module MavenArtifactFetcher {
  import opened Wrappers
  import opened Strings
  import opened Ordering
  import MavenRepositoryPaths

  /** An artifact with the versions fetched for it, latest first. */
  datatype MavenArtifact = MavenArtifact(groupId: string, artifactId: string, versions: seq<string>)
  {
    /** `latestVersion`: the first version, if any. */
    function LatestVersion(): (r: Option<string>)
      ensures r.None? <==> versions == []
      ensures r.Some? ==> r.value == versions[0]
    {
      if |versions| == 0 then None else Some(versions[0])
    }
  }

  /** `MavenArtifact.MavenGav`: a parsed coordinate, the version optional. */
  datatype MavenGav = MavenGav(groupId: string, artifactId: string, version: Option<string>)

  /** `RepositoryArtifactDescription`: one search hit. */
  datatype ArtifactDescription = ArtifactDescription(groupId: string, artifactId: string, version: string)

  /** `createArtifactKey(g, a)`: "g:a", which splits back into g and a. */
  function CreateArtifactKey(groupId: string, artifactId: string): (key: string)
    ensures ':' !in groupId && ':' !in artifactId ==> Split(key, ':') == [groupId, artifactId]
  {
    var key := groupId + ":" + artifactId;
    assert Join([groupId, artifactId], ":") == key by {
      assert [groupId, artifactId][1..] == [artifactId];
    }
    if ':' !in groupId && ':' !in artifactId then
      SplitJoin([groupId, artifactId], ':');
      key
    else key
  }

  /** The key `deduplicateByVersion` groups by. */
  function KeyOf(a: ArtifactDescription): string
  {
    a.groupId + ":" + a.artifactId
  }

  /** The query split on ':' with every part trimmed. */
  function TrimmedParts(query: string): (parts: seq<string>)
    ensures |parts| == |Split(query, ':')|
    ensures forall i :: 0 <= i < |parts| ==> parts[i] == Trim(Split(query, ':')[i])
  {
    var raw := Split(query, ':');
    seq(|raw|, i requires 0 <= i < |raw| => Trim(raw[i]))
  }

  /**
   * `parseGav(query)`: none when there are fewer than two trimmed parts or
   * one of them is empty; otherwise group and artifact are the first two
   * parts and the version is the last part when there are at least three.
   */
  function ParseGav(query: string): (r: Option<MavenGav>)
    ensures var parts := TrimmedParts(query);
      r.None? <==> (|parts| < 2 || exists i :: 0 <= i < |parts| && parts[i] == "")
    ensures var parts := TrimmedParts(query);
      r.Some? ==> (r.value.groupId == parts[0] && r.value.artifactId == parts[1]
        && r.value.version == (if |parts| >= MavenRepositoryPaths.MinCoordinatesParts then Some(parts[|parts| - 1]) else None))
  {
    var parts := TrimmedParts(query);
    if |parts| < 2 || exists i :: 0 <= i < |parts| && parts[i] == "" then None
    else
      var version := if |parts| >= MavenRepositoryPaths.MinCoordinatesParts then Some(parts[|parts| - 1]) else None;
      Some(MavenGav(parts[0], parts[1], version))
  }

  /** A part as it appears in a well-formed query: non-empty, no ':' and no outer whitespace. */
  predicate CleanPart(p: string)
  {
    p != [] && ':' !in p && !IsWhitespace(p[0]) && !IsWhitespace(p[|p| - 1])
  }

  lemma TrimClean(p: string)
    requires CleanPart(p)
    ensures Trim(p) == p
  {
  }

  lemma TrimmedPartsOfJoin(parts: seq<string>)
    requires |parts| >= 1
    requires forall i :: 0 <= i < |parts| ==> CleanPart(parts[i])
    ensures TrimmedParts(Join(parts, ":")) == parts
  {
    SplitJoin(parts, ':');
    var t := TrimmedParts(Join(parts, ":"));
    forall i | 0 <= i < |parts| ensures t[i] == parts[i] {
      TrimClean(parts[i]);
    }
  }

  /** A query whose trimmed parts are known and all non-empty parses to its first two parts and the last. */
  lemma ParseGavOfParts(query: string, parts: seq<string>)
    requires TrimmedParts(query) == parts && |parts| >= 2
    requires forall i :: 0 <= i < |parts| ==> parts[i] != ""
    ensures ParseGav(query) == Some(MavenGav(parts[0], parts[1],
      if |parts| >= MavenRepositoryPaths.MinCoordinatesParts then Some(parts[|parts| - 1]) else None))
  {
  }

  /** "g:a" parses to g and a without a version. */
  lemma ParseGavTwoParts(g: string, a: string)
    requires CleanPart(g) && CleanPart(a)
    ensures ParseGav(g + ":" + a) == Some(MavenGav(g, a, None))
  {
    JoinTwo(g, a, ":");
    TrimmedPartsOfJoin([g, a]);
    ParseGavOfParts(g + ":" + a, [g, a]);
  }

  /** "g:a:v" parses to g, a and v. */
  lemma ParseGavThreeParts(g: string, a: string, v: string)
    requires CleanPart(g) && CleanPart(a) && CleanPart(v)
    ensures ParseGav(g + ":" + a + ":" + v) == Some(MavenGav(g, a, Some(v)))
  {
    JoinThree(g, a, v, ":");
    TrimmedPartsOfJoin([g, a, v]);
    ParseGavOfParts(g + ":" + a + ":" + v, [g, a, v]);
  }

  /** "g:a:packaging:v" takes the last part as the version. */
  lemma ParseGavFourParts(g: string, a: string, p: string, v: string)
    requires CleanPart(g) && CleanPart(a) && CleanPart(p) && CleanPart(v)
    ensures ParseGav(g + ":" + a + ":" + p + ":" + v) == Some(MavenGav(g, a, Some(v)))
  {
    JoinFour(g, a, p, v, ":");
    TrimmedPartsOfJoin([g, a, p, v]);
    ParseGavOfParts(g + ":" + a + ":" + p + ":" + v, [g, a, p, v]);
  }

  /** Malformed queries from the tests parse to nothing. */
  lemma ParseGavRejects(g: string, a: string, v: string)
    requires CleanPart(g) && CleanPart(a) && CleanPart(v)
    ensures ParseGav("") == None
    ensures ParseGav(g) == None
    ensures ParseGav(g + "::" + v) == None
    ensures ParseGav(g + ":" + a + ":") == None
  {
    assert Split("", ':') == [""];
    SplitFree(g, ':');
    EmptyArtifactRejected(g, v);
    EmptyVersionRejected(g, a);
  }

  /** "g::v" has an empty artifact part. */
  lemma EmptyArtifactRejected(g: string, v: string)
    requires CleanPart(g) && CleanPart(v)
    ensures |TrimmedParts(g + "::" + v)| == 3 && TrimmedParts(g + "::" + v)[1] == ""
  {
    SplitFree(g, ':');
    SplitConcat(g, ':', ":" + v);
    assert g + "::" + v == g + [':'] + (":" + v);
    SplitConcat("", ':', v);
    assert "" + [':'] + v == ":" + v;
    SplitFree(v, ':');
  }

  /** "g:a:" has an empty version part. */
  lemma EmptyVersionRejected(g: string, a: string)
    requires CleanPart(g) && CleanPart(a)
    ensures |TrimmedParts(g + ":" + a + ":")| == 3 && TrimmedParts(g + ":" + a + ":")[2] == ""
  {
    SplitFree(g, ':');
    SplitConcat(g, ':', a + ":");
    assert g + ":" + a + ":" == g + [':'] + (a + ":");
    SplitConcat(a, ':', "");
    assert a + [':'] + "" == a + ":";
    SplitFree(a, ':');
    assert Split("", ':') == [""];
  }

  /** `sortVersionsDescending`: a permutation of the versions, latest first. */
  function SortVersionsDescending(versions: seq<string>, le: (string, string) -> bool): (r: seq<string>)
    requires TotalPreorder(le)
    ensures multiset(r) == multiset(versions)
    ensures NonIncreasing(r, le)
  {
    SortDescending(versions, le)
  }

  /** The keys of `s` in the order of their first occurrence. */
  ghost function FirstKeys(s: seq<ArtifactDescription>): (keys: seq<string>)
    ensures forall i, j :: 0 <= i < j < |keys| ==> keys[i] != keys[j]
    ensures forall i :: 0 <= i < |s| ==> KeyOf(s[i]) in keys
  {
    if |s| == 0 then []
    else
      var init := FirstKeys(s[..|s| - 1]);
      assert forall i :: 0 <= i < |s| - 1 ==> s[i] == s[..|s| - 1][i];
      if KeyOf(s[|s| - 1]) in init then init else init + [KeyOf(s[|s| - 1])]
  }

  /**
   * `best` holds, for every key of `s`, the first occurrence (at index
   * `pos[k]`) of a highest version among the hits of `s` with that key,
   * and nothing else.
   */
  ghost predicate BestPerKey(s: seq<ArtifactDescription>, best: map<string, ArtifactDescription>,
                             pos: map<string, nat>, le: (string, string) -> bool)
  {
    (forall i :: 0 <= i < |s| ==> KeyOf(s[i]) in best)
    && (forall k :: k in best ==> k in pos && pos[k] < |s| && s[pos[k]] == best[k] && KeyOf(best[k]) == k)
    && (forall i :: 0 <= i < |s| ==> le(s[i].version, best[KeyOf(s[i])].version))
    && (forall i :: 0 <= i < |s| && le(best[KeyOf(s[i])].version, s[i].version) ==> pos[KeyOf(s[i])] <= i)
  }

  lemma FirstKeysStep(s: seq<ArtifactDescription>, a: ArtifactDescription)
    ensures FirstKeys(s + [a]) == if KeyOf(a) in FirstKeys(s) then FirstKeys(s) else FirstKeys(s) + [KeyOf(a)]
  {
    assert (s + [a])[..|s|] == s;
  }

  lemma KeepBestNewKey(s: seq<ArtifactDescription>, best: map<string, ArtifactDescription>, pos: map<string, nat>,
                       a: ArtifactDescription, le: (string, string) -> bool)
    requires le(a.version, a.version)
    requires BestPerKey(s, best, pos, le)
    requires KeyOf(a) !in best
    ensures BestPerKey(s + [a], best[KeyOf(a) := a], pos[KeyOf(a) := |s|], le)
  {
  }

  lemma KeepBestHigher(s: seq<ArtifactDescription>, best: map<string, ArtifactDescription>, pos: map<string, nat>,
                       a: ArtifactDescription, le: (string, string) -> bool)
    requires TotalPreorder(le)
    requires BestPerKey(s, best, pos, le)
    requires KeyOf(a) in best && !le(a.version, best[KeyOf(a)].version)
    ensures BestPerKey(s + [a], best[KeyOf(a) := a], pos[KeyOf(a) := |s|], le)
  {
    var key := KeyOf(a);
    var b := best[key];
    assert le(b.version, a.version);
    forall i | 0 <= i < |s| && KeyOf(s[i]) == key
      ensures le(s[i].version, a.version) && !le(a.version, s[i].version)
    {
      assert le(s[i].version, b.version);
    }
  }

  lemma KeepBestLower(s: seq<ArtifactDescription>, best: map<string, ArtifactDescription>, pos: map<string, nat>,
                      a: ArtifactDescription, le: (string, string) -> bool)
    requires BestPerKey(s, best, pos, le)
    requires KeyOf(a) in best && le(a.version, best[KeyOf(a)].version)
    ensures BestPerKey(s + [a], best, pos, le)
  {
  }

  /**
   * `deduplicateByVersion`: one hit per groupId:artifactId key, in the order
   * the keys first occur; each kept hit is the first occurrence of a highest
   * version among the hits with its key.
   */
  method DeduplicateByVersion(artifacts: seq<ArtifactDescription>, le: (string, string) -> bool)
    returns (result: seq<ArtifactDescription>)
    requires TotalPreorder(le)
    ensures |result| == |FirstKeys(artifacts)|
    ensures forall j :: 0 <= j < |result| ==> KeyOf(result[j]) == FirstKeys(artifacts)[j]
    ensures forall j :: 0 <= j < |result| ==> result[j] in artifacts
    ensures forall i, j ::
      (0 <= i < |artifacts| && 0 <= j < |result| && KeyOf(artifacts[i]) == KeyOf(result[j]))
      ==> le(artifacts[i].version, result[j].version)
    ensures forall i, j ::
      (0 <= i < |artifacts| && 0 <= j < |result| && KeyOf(artifacts[i]) == KeyOf(result[j])
       && le(result[j].version, artifacts[i].version)) ==> result[j] in artifacts[..i + 1]
  {
    var best: map<string, ArtifactDescription> := map[];
    var order: seq<string> := [];  // the key order of the LinkedHashMap
    ghost var pos: map<string, nat> := map[];
    for n := 0 to |artifacts|
      invariant order == FirstKeys(artifacts[..n])
      invariant forall k :: k in best <==> k in order
      invariant BestPerKey(artifacts[..n], best, pos, le)
    {
      best, order, pos := KeepBest(artifacts, n, le, best, order, pos);
    }
    assert artifacts[..|artifacts|] == artifacts;
    result := ValuesInOrder(best, order);
    assert forall j :: 0 <= j < |order| ==> order[j] in best;
    DeduplicatedResult(artifacts, best, pos, order, le);
  }

  /**
   * One turn of the loop of `deduplicateByVersion`: hit `n` enters the map
   * under a new key, replaces a lower version, or is dropped.
   */
  method KeepBest(artifacts: seq<ArtifactDescription>, n: nat, le: (string, string) -> bool,
                  bestIn: map<string, ArtifactDescription>, orderIn: seq<string>, ghost posIn: map<string, nat>)
    returns (best: map<string, ArtifactDescription>, order: seq<string>, ghost pos: map<string, nat>)
    requires TotalPreorder(le) && n < |artifacts|
    requires orderIn == FirstKeys(artifacts[..n])
    requires forall k :: k in bestIn <==> k in orderIn
    requires BestPerKey(artifacts[..n], bestIn, posIn, le)
    ensures order == FirstKeys(artifacts[..n + 1])
    ensures forall k :: k in best <==> k in order
    ensures BestPerKey(artifacts[..n + 1], best, pos, le)
  {
    best, order, pos := bestIn, orderIn, posIn;
    var artifact := artifacts[n];
    var key := CreateArtifactKey(artifact.groupId, artifact.artifactId);
    assert artifacts[..n + 1] == artifacts[..n] + [artifact];
    FirstKeysStep(artifacts[..n], artifact);
    if key !in best {
      assert le(artifact.version, artifact.version);
      KeepBestNewKey(artifacts[..n], best, pos, artifact, le);
      order := order + [key];
      best := best[key := artifact];
      pos := pos[key := n];
    } else if !le(artifact.version, best[key].version) {
      KeepBestHigher(artifacts[..n], best, pos, artifact, le);
      best := best[key := artifact];
      pos := pos[key := n];
    } else {
      KeepBestLower(artifacts[..n], best, pos, artifact, le);
    }
  }

  /** `bestResults.values.toList()`: the values in the key order of the map. */
  function ValuesInOrder(best: map<string, ArtifactDescription>, order: seq<string>): (r: seq<ArtifactDescription>)
    requires forall j :: 0 <= j < |order| ==> order[j] in best
    ensures |r| == |order| && forall j :: 0 <= j < |order| ==> r[j] == best[order[j]]
  {
    seq(|order|, j requires 0 <= j < |order| => best[order[j]])
  }

  lemma DeduplicatedResult(artifacts: seq<ArtifactDescription>, best: map<string, ArtifactDescription>,
                           pos: map<string, nat>, order: seq<string>, le: (string, string) -> bool)
    requires forall j :: 0 <= j < |order| ==> order[j] in best
    requires BestPerKey(artifacts, best, pos, le)
    ensures forall j :: 0 <= j < |order| ==> KeyOf(ValuesInOrder(best, order)[j]) == order[j]
    ensures forall j :: 0 <= j < |order| ==> ValuesInOrder(best, order)[j] in artifacts
    ensures forall i, j ::
      (0 <= i < |artifacts| && 0 <= j < |order| && KeyOf(artifacts[i]) == KeyOf(ValuesInOrder(best, order)[j]))
      ==> le(artifacts[i].version, ValuesInOrder(best, order)[j].version)
    ensures forall i, j ::
      (0 <= i < |artifacts| && 0 <= j < |order| && KeyOf(artifacts[i]) == KeyOf(ValuesInOrder(best, order)[j])
       && le(ValuesInOrder(best, order)[j].version, artifacts[i].version))
      ==> ValuesInOrder(best, order)[j] in artifacts[..i + 1]
  {
    var result := ValuesInOrder(best, order);
    forall j | 0 <= j < |result| ensures result[j] in artifacts {
      assert artifacts[pos[order[j]]] == result[j];
    }
    forall i, j | 0 <= i < |artifacts| && 0 <= j < |result| && KeyOf(artifacts[i]) == KeyOf(result[j])
      && le(result[j].version, artifacts[i].version)
      ensures result[j] in artifacts[..i + 1]
    {
      var k := KeyOf(artifacts[i]);
      assert artifacts[..i + 1][pos[k]] == result[j];
    }
  }

  /** How a call into the host ended: a value, a timeout, or another failure. */
  datatype Outcome<T> = Returned(value: T) | TimedOut | Failed

  /**
   * `retryOnceOnTimeout(action)`, with `attempt(k)` the outcome of the
   * action's k-th run: the result and how many runs it took.
   */
  function RetryOnceOnTimeout<T>(attempt: nat -> Outcome<T>): (r: (Outcome<T>, nat))
    ensures r.1 == 1 <==> !attempt(0).TimedOut?
    ensures r.1 == 1 || r.1 == 2
    ensures r.0 == attempt(r.1 - 1)
    ensures r.0.TimedOut? <==> attempt(0).TimedOut? && attempt(1).TimedOut?
  {
    match attempt(0)
    case TimedOut => (attempt(1), 2)
    case _ => (attempt(0), 1)
  }

  /**
   * `runCallablesWithTimeoutAndShutdownUsingFallback`, with `outcomes[i]`
   * the way callable i's future ended: position i holds its value, or
   * `fallback(i)` when it timed out or failed.
   */
  function RunCallablesUsingFallback<T>(outcomes: seq<Outcome<T>>, fallback: nat -> T): (r: seq<T>)
    ensures |r| == |outcomes|
    ensures forall i :: 0 <= i < |r| && outcomes[i].Returned? ==> r[i] == outcomes[i].value
    ensures forall i :: 0 <= i < |r| && !outcomes[i].Returned? ==> r[i] == fallback(i)
  {
    if |outcomes| == 0 then []
    else seq(|outcomes|, i requires 0 <= i < |outcomes| => if outcomes[i].Returned? then outcomes[i].value else fallback(i))
  }

  /** `fallbackArtifact`: the hit itself, with its own version as the only one. */
  function FallbackArtifact(a: ArtifactDescription): (r: MavenArtifact)
    ensures r.groupId == a.groupId && r.artifactId == a.artifactId
    ensures r.versions == [a.version] && r.LatestVersion() == Some(a.version)
  {
    MavenArtifact(a.groupId, a.artifactId, [a.version])
  }

  /** `fallbackArtifacts`: every hit with only its own version. */
  function FallbackArtifacts(artifacts: seq<ArtifactDescription>): (r: seq<MavenArtifact>)
    ensures |r| == |artifacts|
    ensures forall i :: 0 <= i < |r| ==> r[i] == FallbackArtifact(artifacts[i])
  {
    seq(|artifacts|, i requires 0 <= i < |artifacts| => FallbackArtifact(artifacts[i]))
  }

  /**
   * `fetchVersions(g, a)`: the fetched versions sorted latest first, or no
   * versions when the fetch gave none, timed out twice or failed.
   */
  function FetchVersions(attempt: nat -> Outcome<Option<seq<string>>>, le: (string, string) -> bool): (r: seq<string>)
    requires TotalPreorder(le)
    ensures NonIncreasing(r, le)
    ensures var got := RetryOnceOnTimeout(attempt).0;
      if got.Returned? && got.value.Some? then multiset(r) == multiset(got.value.value) else r == []
  {
    var got := RetryOnceOnTimeout(attempt).0;
    if got.Returned? && got.value.Some? then SortVersionsDescending(got.value.value, le) else []
  }

  /**
   * The callable of `fetchVersionsInParallel` for one hit: the fetched
   * versions, or the hit's own version when none were found.
   */
  function WithVersions(a: ArtifactDescription, versions: seq<string>): (r: MavenArtifact)
    ensures r.groupId == a.groupId && r.artifactId == a.artifactId
    ensures r.versions == if versions == [] then [a.version] else versions
  {
    MavenArtifact(a.groupId, a.artifactId, if |versions| == 0 then [a.version] else versions)
  }

  /**
   * `fetchVersionsInParallel(artifacts)`, with `fetched[i]` the way the
   * version fetch of hit i ended: one artifact per hit, in order, and every
   * artifact has a latest version.
   */
  function FetchVersionsInParallel(artifacts: seq<ArtifactDescription>, fetched: seq<Outcome<seq<string>>>): (r: seq<MavenArtifact>)
    requires |fetched| == |artifacts|
    ensures |r| == |artifacts|
    ensures forall i :: 0 <= i < |r| ==> r[i].groupId == artifacts[i].groupId && r[i].artifactId == artifacts[i].artifactId
    ensures forall i :: 0 <= i < |r| ==> r[i].LatestVersion().Some?
    ensures forall i :: 0 <= i < |r| && fetched[i].Returned? && fetched[i].value != [] ==> r[i].versions == fetched[i].value
    ensures forall i :: 0 <= i < |r| && !(fetched[i].Returned? && fetched[i].value != []) ==> r[i].versions == [artifacts[i].version]
  {
    if |artifacts| == 0 then []
    else
      var outcomes := seq(|fetched|, i requires 0 <= i < |fetched| =>
        match fetched[i]
        case Returned(vs) => Returned(WithVersions(artifacts[i], vs))
        case TimedOut => TimedOut
        case Failed => Failed);
      RunCallablesUsingFallback(outcomes,
        (i: nat) => if i < |artifacts| then FallbackArtifact(artifacts[i]) else MavenArtifact("", "", []))
  }

  /**
   * When every version fetch that returned gave its versions newest first,
   * as `FetchVersions` sorts them, every artifact of the parallel fetch
   * lists its versions newest first, the one-version fallbacks included.
   */
  lemma ParallelVersionsLatestFirst(artifacts: seq<ArtifactDescription>, fetched: seq<Outcome<seq<string>>>,
                                    le: (string, string) -> bool)
    requires |fetched| == |artifacts|
    requires forall i :: 0 <= i < |fetched| && fetched[i].Returned? ==> NonIncreasing(fetched[i].value, le)
    ensures forall i :: 0 <= i < |artifacts| ==> NonIncreasing(FetchVersionsInParallel(artifacts, fetched)[i].versions, le)
  {
  }
}
