/** Where the pieces of a custom distribution go: the archive name, the set of
    distributions to build, the path of an init script inside the archive and
    the exclusion rules that turn expansion off for some scripts. Paths are
    canonical path strings given by the caller. */
module Layout {
  import opened Common

  /** The directory inside the archive that receives the init scripts. */
  function InitDir(gradleVersion: string): string
  {
    "gradle-" + gradleVersion + "/init.d/"
  }

  /** `"gradle-$gradleVersion/init.d/$relativePath"`, where the relative path
      is the file's path with as many leading characters dropped as the root's
      path has (`substring(root.length)`). The relative path keeps its leading
      `/`, so the string holds `init.d//`; the zip file system's `getPath`
      folds the doubled separator into one. */
  function EntryPath(gradleVersion: string, rootPath: string, filePath: string): (r: string)
    requires |rootPath| <= |filePath|
    ensures InitDir(gradleVersion) <= r
    ensures |r| == |InitDir(gradleVersion)| + |filePath| - |rootPath|
    ensures r[|InitDir(gradleVersion)|..] == filePath[|rootPath|..]
  {
    InitDir(gradleVersion) + filePath[|rootPath|..]
  }

  /** Two scripts under the same root never share an entry. */
  lemma EntryPathInjective(gradleVersion: string, rootPath: string, f1: string, f2: string)
    requires rootPath <= f1 && rootPath <= f2
    requires EntryPath(gradleVersion, rootPath, f1) == EntryPath(gradleVersion, rootPath, f2)
    ensures f1 == f2
  {
    var n := |InitDir(gradleVersion)|;
    assert f1[|rootPath|..] == EntryPath(gradleVersion, rootPath, f1)[n..];
    assert f2[|rootPath|..] == EntryPath(gradleVersion, rootPath, f2)[n..];
    assert f1 == rootPath + f1[|rootPath|..];
    assert f2 == rootPath + f2[|rootPath|..];
  }

  /** `pathsToExcludeFromContentExpansion.find { ... }`: the first rule whose
      root is a prefix of the file's path, as a position in the rules'
      iteration order. `ruleRoots[i]` is the canonical path of
      `File(includeRootDir, rule_i)`, given by the caller: for the rule `.` it
      is the include root itself, for `a/` it is `<root>/a`. */
  function FirstExclusion(ruleRoots: seq<string>, filePath: string): (r: Option<nat>)
    ensures r.Some? ==> r.value < |ruleRoots| && ruleRoots[r.value] <= filePath
    ensures r.Some? ==> forall j :: 0 <= j < r.value ==> !(ruleRoots[j] <= filePath)
    ensures r.None? ==> forall j :: 0 <= j < |ruleRoots| ==> !(ruleRoots[j] <= filePath)
    decreases |ruleRoots|
  {
    if ruleRoots == [] then None
    else if ruleRoots[0] <= filePath then Some(0)
    else
      match FirstExclusion(ruleRoots[1..], filePath)
      case None => None
      case Some(i) => Some(i + 1)
  }

  /** A rule whose root is the include root itself, such as `.`, excludes
      every script under the root. */
  lemma RootRuleExcludesAll(ruleRoots: seq<string>, rootPath: string, filePath: string)
    requires rootPath in ruleRoots && rootPath <= filePath
    ensures FirstExclusion(ruleRoots, filePath).Some?
  {
    var i :| 0 <= i < |ruleRoots| && ruleRoots[i] == rootPath;
  }

  /** The rule test compares strings, not path components: the rule `a`,
      whose root is `/r/a`, also covers a sibling directory `ab`. */
  lemma ExclusionIsStringPrefix()
    ensures FirstExclusion(["/r/a"], "/r/ab/x.gradle") == Some(0)
  {
    assert "/r/a" <= "/r/ab/x.gradle";
  }

  /** The custom distribution's file name:
      `gradle-<gradleVersion>-<name>-<version>[-<distribution>].zip`. */
  function ArchiveName(gradleVersion: string, name: string, version: string, distribution: Option<string>): string
  {
    var projectPart := name + "-" + version + (if distribution.Some? then "-" + distribution.value else "");
    "gradle-" + gradleVersion + "-" + projectPart + ".zip"
  }

  /** A named distribution's archive is the single distribution's archive with
      `-<distribution>` inserted before `.zip`. */
  lemma ArchiveNameInsertsDistribution(gradleVersion: string, name: string, version: string, d: string)
    ensures var single := ArchiveName(gradleVersion, name, version, None);
            single[|single| - 4..] == ".zip"
            && ArchiveName(gradleVersion, name, version, Some(d)) == single[..|single| - 4] + "-" + d + ".zip"
  {
    var base := "gradle-" + gradleVersion + "-" + name + "-" + version;
    assert ArchiveName(gradleVersion, name, version, None) == base + ".zip";
    assert (base + ".zip")[..|base|] == base;
  }

  /** Different distributions get different archive names. */
  lemma ArchiveNamesDiffer(gradleVersion: string, name: string, version: string, d1: Option<string>, d2: Option<string>)
    requires d1 != d2
    ensures ArchiveName(gradleVersion, name, version, d1) != ArchiveName(gradleVersion, name, version, d2)
  {
    var base := "gradle-" + gradleVersion + "-" + name + "-" + version;
    var s1 := if d1.Some? then "-" + d1.value else "";
    var s2 := if d2.Some? then "-" + d2.value else "";
    var n1 := ArchiveName(gradleVersion, name, version, d1);
    var n2 := ArchiveName(gradleVersion, name, version, d2);
    assert n1 == base + s1 + ".zip";
    assert n2 == base + s2 + ".zip";
    if |s1| == |s2| {
      assert d1.Some? && d2.Some? && |d1.value| == |d2.value|;
      assert d1.value != d2.value;
      assert !(forall i :: 0 <= i < |d1.value| ==> d1.value[i] == d2.value[i]);
      var k :| 0 <= k < |d1.value| && d1.value[k] != d2.value[k];
      assert n1[|base| + 1 + k] == d1.value[k];
      assert n2[|base| + 1 + k] == d2.value[k];
    }
  }

  /** The archive names for the Gradle version, project name and version the
      plugin's tests use. */
  lemma ArchiveNameExample()
    ensures ArchiveName("8.3", "my-project", "1.0", Some("a")) == "gradle-8.3-my-project-1.0-a.zip"
    ensures ArchiveName("8.3", "my-project", "1.0", None) == "gradle-8.3-my-project-1.0.zip"
  {
  }

  /** `getDistributions`: the names of the sub-directories of `init.d`, or no
      names at all when there are fewer than two of them (or the listing
      fails), which means a single distribution. */
  function Distributions(children: Option<seq<string>>): (ds: seq<string>)
    ensures ds == [] <==> children.None? || |children.value| < 2
    ensures ds != [] ==> ds == children.value
  {
    if children.None? || |children.value| < 2 then [] else children.value
  }

  /** The distributions the build produces: one without a name when the list
      is empty, else one per name. */
  function DistributionsToBuild(names: seq<string>): (r: seq<Option<string>>)
    ensures names == [] ==> r == [None]
    ensures names != [] ==> |r| == |names| && forall i :: 0 <= i < |names| ==> r[i] == Some(names[i])
  {
    if names == [] then [None] else seq(|names|, i requires 0 <= i < |names| => Some(names[i]))
  }

  /** A listing with fewer than two sub-directories builds one distribution
      without a name, not one named after its single sub-directory; a longer
      listing builds one distribution per sub-directory, in listing order. */
  lemma BuildsFromListing(children: Option<seq<string>>)
    ensures children.None? || |children.value| < 2 ==> DistributionsToBuild(Distributions(children)) == [None]
    ensures children.Some? && |children.value| >= 2 ==>
              var builds := DistributionsToBuild(Distributions(children));
              |builds| == |children.value| && forall i :: 0 <= i < |builds| ==> builds[i] == Some(children.value[i])
  {
  }

  /** Every distribution built from `init.d` gets its own archive, provided the
      sub-directory names differ (as names in one directory do). */
  lemma ArchivesDistinct(gradleVersion: string, name: string, version: string, children: Option<seq<string>>)
    requires children.Some? ==> Distinct(children.value)
    ensures var builds := DistributionsToBuild(Distributions(children));
            forall i, j :: 0 <= i < j < |builds| ==>
              ArchiveName(gradleVersion, name, version, builds[i]) != ArchiveName(gradleVersion, name, version, builds[j])
  {
    var builds := DistributionsToBuild(Distributions(children));
    forall i, j | 0 <= i < j < |builds|
      ensures ArchiveName(gradleVersion, name, version, builds[i]) != ArchiveName(gradleVersion, name, version, builds[j])
    {
      ArchiveNamesDiffer(gradleVersion, name, version, builds[i], builds[j]);
    }
  }
}
