/**
 * Which Maven dependencies the plugin's runtime already provides (detekt
 * itself, the Kotlin standard library, kotlinx coroutines), and the Maven
 * exclusion strings that keep them out of a resolved plugin.
 */
module ProvidedDependencies {
  import opened Strings

  const ProvidedGroupIds: seq<string> := ["io.gitlab.arturbosch.detekt", "dev.detekt", "org.jetbrains.kotlin"]
  const CoroutinesGroupId: string := "org.jetbrains.kotlinx"
  const CoroutinesPrefix: string := "kotlinx-coroutines-"

  /** `isProvided(groupId, artifactId)`. */
  predicate IsProvided(groupId: string, artifactId: string)
  {
    if groupId == CoroutinesGroupId then StartsWith(artifactId, CoroutinesPrefix)
    else groupId in ProvidedGroupIds
  }

  /** `getExclusions()`: "g:*" for each provided group, then the coroutines pattern. */
  function GetExclusions(): (r: seq<string>)
    ensures |r| == |ProvidedGroupIds| + 1
    ensures forall i :: 0 <= i < |ProvidedGroupIds| ==> r[i] == ProvidedGroupIds[i] + ":*"
    ensures r[|ProvidedGroupIds|] == CoroutinesGroupId + ":" + CoroutinesPrefix + "*"
  {
    seq(|ProvidedGroupIds|, i requires 0 <= i < |ProvidedGroupIds| => ProvidedGroupIds[i] + ":*")
      + [CoroutinesGroupId + ":" + CoroutinesPrefix + "*"]
  }

  /**
   * How an exclusion string is read: a coordinate "g:a" matches the string
   * itself, or, when the string ends in '*', every coordinate that starts
   * with what precedes the '*'.
   */
  predicate ExclusionMatches(pattern: string, groupId: string, artifactId: string)
  {
    var coordinate := groupId + ":" + artifactId;
    coordinate == pattern
    || (EndsWith(pattern, "*") && StartsWith(coordinate, pattern[..|pattern| - 1]))
  }

  /** The coroutines rule: a kotlinx artifact is provided iff its name has the coroutines prefix. */
  lemma CoroutinesRule(artifactId: string)
    ensures IsProvided(CoroutinesGroupId, artifactId) <==> StartsWith(artifactId, CoroutinesPrefix)
  {
  }

  /** Any other group is provided iff it is one of the three groups, whatever the artifact. */
  lemma GroupRule(groupId: string, artifactId: string)
    requires groupId != CoroutinesGroupId
    ensures IsProvided(groupId, artifactId)
      <==> (groupId == "io.gitlab.arturbosch.detekt" || groupId == "dev.detekt" || groupId == "org.jetbrains.kotlin")
  {
  }

  /** Groups outside the four known ones are never provided. */
  lemma UnknownGroupsNotProvided()
    ensures !IsProvided("com.example", "lib")
    ensures !IsProvided("org.junit.jupiter", "junit-jupiter")
    ensures !IsProvided(CoroutinesGroupId, "kotlinx-serialization-json")
  {
    assert !StartsWith("kotlinx-serialization-json", CoroutinesPrefix) by {
      assert "kotlinx-serialization-json"[8] != CoroutinesPrefix[8];
    }
  }

  /** A coordinate "g:a" starting with "G:" has group exactly G, when neither group holds ':'. */
  lemma GroupPrefix(groupId: string, artifactId: string, g: string)
    requires ':' !in groupId && ':' !in g
    requires StartsWith(groupId + ":" + artifactId, g + ":")
    ensures groupId == g
  {
    var c := groupId + ":" + artifactId;
    assert c[|groupId|] == ':';
    assert (g + ":")[|g|] == ':';
    assert forall i :: 0 <= i < |g| + 1 ==> c[i] == (g + ":")[i];
    assert |groupId| >= |g| by {
      assert forall i :: 0 <= i < |g| ==> g[i] != ':';
    }
    assert |groupId| <= |g| by {
      assert forall i :: 0 <= i < |groupId| ==> groupId[i] != ':';
    }
    assert groupId == c[..|g|] == g;
  }

  /**
   * The exclusions cover exactly the provided dependencies: a coordinate
   * matches one of them iff `isProvided` holds.
   */
  lemma ExclusionsCoverProvided(groupId: string, artifactId: string)
    requires ':' !in groupId
    ensures IsProvided(groupId, artifactId)
      <==> exists i :: 0 <= i < |GetExclusions()| && ExclusionMatches(GetExclusions()[i], groupId, artifactId)
  {
    var ex := GetExclusions();
    forall i | 0 <= i < |ProvidedGroupIds|
      ensures ExclusionMatches(ex[i], groupId, artifactId) <==> groupId == ProvidedGroupIds[i]
    {
      GroupExclusionMatches(ProvidedGroupIds[i], groupId, artifactId);
    }
    CoroutinesExclusionMatches(groupId, artifactId);
    var k := |ProvidedGroupIds|;
    if groupId in ProvidedGroupIds {
      var i :| 0 <= i < k && ProvidedGroupIds[i] == groupId;
      assert ExclusionMatches(ex[i], groupId, artifactId);
    }
    if IsProvided(groupId, artifactId) && groupId == CoroutinesGroupId {
      assert ExclusionMatches(ex[k], groupId, artifactId);
    }
  }

  /** "g:*" matches a coordinate iff its group is g, when neither group holds ':'. */
  lemma GroupExclusionMatches(g: string, groupId: string, artifactId: string)
    requires ':' !in g && ':' !in groupId
    ensures ExclusionMatches(g + ":*", groupId, artifactId) <==> groupId == g
  {
    var e := g + ":*";
    var c := groupId + ":" + artifactId;
    assert e[..|e| - 1] == g + ":";
    if c == e {
      assert StartsWith(c, g + ":") by { assert c[..|g| + 1] == e[..|g| + 1] == g + ":"; }
    }
    if StartsWith(c, g + ":") { GroupPrefix(groupId, artifactId, g); }
    if groupId == g { assert c[..|g| + 1] == g + ":"; }
  }

  /** The coroutines pattern matches exactly the kotlinx artifacts with the coroutines prefix. */
  lemma CoroutinesExclusionMatches(groupId: string, artifactId: string)
    requires ':' !in groupId
    ensures ExclusionMatches(CoroutinesGroupId + ":" + CoroutinesPrefix + "*", groupId, artifactId)
      <==> groupId == CoroutinesGroupId && StartsWith(artifactId, CoroutinesPrefix)
  {
    var pre := CoroutinesGroupId + ":" + CoroutinesPrefix;
    var e := pre + "*";
    assert e[..|e| - 1] == pre;
    if ExclusionMatches(e, groupId, artifactId) {
      var c := groupId + ":" + artifactId;
      if c == e {
        CoroutinesPatternItself(groupId, artifactId);
      } else {
        CoroutinesPrefixMatch(groupId, artifactId);
      }
    }
    if groupId == CoroutinesGroupId && StartsWith(artifactId, CoroutinesPrefix) {
      var c := groupId + ":" + artifactId;
      assert c[..|pre|] == pre;
    }
  }

  /** The pattern text read as a coordinate is a kotlinx artifact with the coroutines prefix. */
  lemma CoroutinesPatternItself(groupId: string, artifactId: string)
    requires ':' !in groupId
    requires groupId + ":" + artifactId == CoroutinesGroupId + ":" + CoroutinesPrefix + "*"
    ensures groupId == CoroutinesGroupId && StartsWith(artifactId, CoroutinesPrefix)
  {
    var c := groupId + ":" + artifactId;
    var kx := CoroutinesGroupId;
    assert ':' !in kx;
    assert StartsWith(c, kx + ":") by { assert c[..|kx| + 1] == kx + ":"; }
    GroupPrefix(groupId, artifactId, kx);
    assert artifactId == CoroutinesPrefix + "*";
  }

  /** A coordinate starting with the pattern's text before '*' is a kotlinx artifact with the coroutines prefix. */
  lemma CoroutinesPrefixMatch(groupId: string, artifactId: string)
    requires ':' !in groupId
    requires StartsWith(groupId + ":" + artifactId, CoroutinesGroupId + ":" + CoroutinesPrefix)
    ensures groupId == CoroutinesGroupId && StartsWith(artifactId, CoroutinesPrefix)
  {
    var c := groupId + ":" + artifactId;
    var kx := CoroutinesGroupId;
    assert ':' !in kx;
    assert StartsWith(c, kx + ":") by { assert c[..|kx| + 1] == (kx + ":" + CoroutinesPrefix)[..|kx| + 1]; }
    GroupPrefix(groupId, artifactId, kx);
    assert artifactId[..|CoroutinesPrefix|] == c[|kx| + 1..|kx| + 1 + |CoroutinesPrefix|];
  }
}
