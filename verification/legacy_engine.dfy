/** The legacy engine (`CustomGradleDistributionPlugin.applyTemplates`): a
    placeholder `$name$` resolves to the text of `name.gradle`, or else of
    `name.gradle.kts`, in the include directory, expanded in turn by the same
    resolver. Nothing is cached; a stack of names in progress detects cycles.

    The include directory is a map from file names (relative to it) to file
    texts; `filePath` is the canonical path of the script being expanded and
    `dirPath` that of the include directory. */
module LegacyEngine {
  import opened Common
  import opened Placeholder
  import opened Expansion
  import opened Layout

  /** `File(includeRootDir, "$name.gradle")`, else `File(..., "$name.gradle.kts")`,
      when that is a file. */
  function IncludeText(dir: map<string, string>, name: string): (r: Option<string>)
    ensures r.Some? <==> name + ".gradle" in dir || name + ".gradle.kts" in dir
    ensures name + ".gradle" in dir ==> r == Some(dir[name + ".gradle"])
    ensures name + ".gradle" !in dir && name + ".gradle.kts" in dir ==> r == Some(dir[name + ".gradle.kts"])
  {
    if name + ".gradle" in dir then Some(dir[name + ".gradle"])
    else if name + ".gradle.kts" in dir then Some(dir[name + ".gradle.kts"])
    else None
  }

  /** The names the include directory can resolve. */
  function IncludeNames(dir: map<string, string>): set<string>
  {
    (set f | f in dir && |f| >= 7 && f[|f| - 7..] == ".gradle" :: f[..|f| - 7])
    + (set f | f in dir && |f| >= 11 && f[|f| - 11..] == ".gradle.kts" :: f[..|f| - 11])
  }

  /** A name with an include file is one of the include names. */
  lemma IncludedName(dir: map<string, string>, name: string)
    requires IncludeText(dir, name).Some?
    ensures name in IncludeNames(dir)
  {
    if name + ".gradle" in dir {
      var f := name + ".gradle";
      assert f[|f| - 7..] == ".gradle" && f[..|f| - 7] == name;
    } else {
      var f := name + ".gradle.kts";
      assert f[|f| - 11..] == ".gradle.kts" && f[..|f| - 11] == name;
    }
  }

  /** The names in progress are distinct include names, so there are never
      more of them than there are include names. */
  predicate StackOk(dir: map<string, string>, stack: seq<string>)
  {
    Distinct(stack) && forall i :: 0 <= i < |stack| ==> stack[i] in IncludeNames(dir)
  }

  /** Pushing a new include name keeps the stack well formed and within the
      bound. */
  lemma Push(dir: map<string, string>, stack: seq<string>, name: string)
    requires StackOk(dir, stack) && name !in stack && IncludeText(dir, name).Some?
    ensures StackOk(dir, stack + [name])
    ensures |stack + [name]| <= |IncludeNames(dir)|
  {
    IncludedName(dir, name);
    var s := stack + [name];
    forall i, j | 0 <= i < j < |s| ensures s[i] != s[j] {
      if j == |stack| {
        assert s[i] in stack;
      }
    }
    forall x | x in s ensures x in IncludeNames(dir) {
      var i :| 0 <= i < |s| && s[i] == x;
    }
    DistinctBound(s, IncludeNames(dir));
  }

  // ---------------------------------------------------------------------------
  // Cycle report
  // ---------------------------------------------------------------------------

  /** Entry `i` of the report: the first name is shown with the expanded
      script's path, every later one with the path of `<previous name>.gradle`
      (the `.gradle` spelling even when the include was a `.gradle.kts`). */
  function LegacyLabel(filePath: string, dirPath: string, names: seq<string>, i: nat): string
    requires i < |names|
  {
    var location := if i == 0 then filePath else dirPath + "/" + names[i - 1] + ".gradle";
    "'" + names[i] + "' (" + location + ")"
  }

  function LegacyLabels(filePath: string, dirPath: string, names: seq<string>): (ls: seq<string>)
    ensures |ls| == |names|
    ensures forall i :: 0 <= i < |names| ==> ls[i] == LegacyLabel(filePath, dirPath, names, i)
  {
    seq(|names|, i requires 0 <= i < |names| => LegacyLabel(filePath, dirPath, names, i))
  }

  /** The report for `name` found on `stack`: every name in progress and then
      the repeated one, linked by `  |` lines. */
  function LegacyCycleReport(filePath: string, dirPath: string, stack: seq<string>, name: string): string
  {
    CycleHeader + JoinWith(ChainLink, LegacyLabels(filePath, dirPath, stack + [name]))
  }

  /** The `forEachIndexed` loop that builds the report. */
  method BuildLegacyCycleMessage(filePath: string, dirPath: string, stack: seq<string>, name: string) returns (msg: string)
    ensures msg == LegacyCycleReport(filePath, dirPath, stack, name)
  {
    var names := stack + [name];
    ghost var labels := LegacyLabels(filePath, dirPath, names);
    var chain := "";
    for i := 0 to |names|
      invariant chain == JoinWith(ChainLink, labels[..i])
    {
      if i > 0 {
        chain := chain + ChainLink;
      }
      chain := chain + LegacyLabel(filePath, dirPath, names, i);
      JoinWithPrefix(ChainLink, labels, i);
    }
    assert labels[..|names|] == labels;
    msg := CycleHeader + chain;
  }

  // ---------------------------------------------------------------------------
  // Resolution, as functions
  // ---------------------------------------------------------------------------

  /** What the `withDefault` provider returns for `name` with `stack` in
      progress: a cycle error, nothing (no include file), or the include's
      text expanded with `name` pushed. */
  function Resolve(dir: map<string, string>, filePath: string, dirPath: string, stack: seq<string>, name: string): Result<Option<string>>
    requires StackOk(dir, stack)
    decreases |IncludeNames(dir)| - |stack|, 0
  {
    if name in stack then Err(LegacyCycleReport(filePath, dirPath, stack, name))
    else
      match IncludeText(dir, name)
      case None => Ok(None)
      case Some(t) =>
        Push(dir, stack, name);
        match ExpandInclude(dir, filePath, dirPath, stack + [name], t)
        case Err(e) => Err(e)
        case Ok(x) => Ok(Some(x))
  }

  /** The provider's answers for `keys`, left to right, up to the first error. */
  function Answers(dir: map<string, string>, filePath: string, dirPath: string, stack: seq<string>, keys: seq<string>): (r: Result<seq<Option<string>>>)
    requires StackOk(dir, stack)
    ensures r.Ok? ==> |r.value| == |keys|
    decreases |IncludeNames(dir)| - |stack|, 1, |keys|
  {
    if keys == [] then Ok([])
    else
      match Resolve(dir, filePath, dirPath, stack, keys[0])
      case Err(e) => Err(e)
      case Ok(a) =>
        match Answers(dir, filePath, dirPath, stack, keys[1..])
        case Err(e) => Err(e)
        case Ok(rest) => Ok([a] + rest)
  }

  /** `expand(project, file, includes, text)`: the scan loop with the answers. */
  function ExpandInclude(dir: map<string, string>, filePath: string, dirPath: string, stack: seq<string>, text: string): Result<string>
    requires StackOk(dir, stack)
    decreases |IncludeNames(dir)| - |stack|, 2
  {
    match Answers(dir, filePath, dirPath, stack, PlaceholderKeys(text))
    case Err(e) => Err(e)
    case Ok(os) => Ok(Splice(text, os))
  }

  /** `applyTemplates`: without an include directory the script is left as it
      is; otherwise it is expanded with nothing in progress. */
  function ApplyTemplates(includeDir: Option<map<string, string>>, filePath: string, dirPath: string, text: string): Result<string>
  {
    if includeDir.None? then Ok(text)
    else ExpandInclude(includeDir.value, filePath, dirPath, [], text)
  }

  /** `Prefixed(os, r)`: `r` with `os` in front of its answers. */
  function Prefixed(os: seq<Option<string>>, r: Result<seq<Option<string>>>): Result<seq<Option<string>>>
  {
    match r
    case Err(e) => Err(e)
    case Ok(rest) => Ok(os + rest)
  }

  // ---------------------------------------------------------------------------
  // Properties
  // ---------------------------------------------------------------------------

  /** Without an include directory `applyTemplates` returns the script as it
      is, whatever it holds. */
  lemma NoIncludeDirectory(filePath: string, dirPath: string, text: string)
    ensures ApplyTemplates(None, filePath, dirPath, text) == Ok(text)
  {
  }

  /** The `i`-th answer is the resolution of the `i`-th key. */
  lemma {:induction false} AnswerAt(dir: map<string, string>, filePath: string, dirPath: string, stack: seq<string>, keys: seq<string>, i: nat)
    requires StackOk(dir, stack) && i < |keys|
    requires Answers(dir, filePath, dirPath, stack, keys).Ok?
    ensures Resolve(dir, filePath, dirPath, stack, keys[i]).Ok?
    ensures Answers(dir, filePath, dirPath, stack, keys).value[i] == Resolve(dir, filePath, dirPath, stack, keys[i]).value
    decreases |keys|
  {
    if i > 0 {
      AnswerAt(dir, filePath, dirPath, stack, keys[1..], i - 1);
    }
  }

  /** Nothing is cached: each reference to a name with an include file is
      answered by expanding that file's text afresh, from the same stack with
      the name pushed, so two references to the same name get the same text. */
  lemma SameNameSameText(dir: map<string, string>, filePath: string, dirPath: string, stack: seq<string>, keys: seq<string>, i: nat, j: nat)
    requires StackOk(dir, stack) && i < |keys| && j < |keys| && keys[i] == keys[j]
    requires Answers(dir, filePath, dirPath, stack, keys).Ok?
    ensures Answers(dir, filePath, dirPath, stack, keys).value[i] == Answers(dir, filePath, dirPath, stack, keys).value[j]
    ensures IncludeText(dir, keys[i]).Some? ==>
              keys[i] !in stack && StackOk(dir, stack + [keys[i]])
              && ExpandInclude(dir, filePath, dirPath, stack + [keys[i]], IncludeText(dir, keys[i]).value).Ok?
              && Answers(dir, filePath, dirPath, stack, keys).value[j]
                 == Some(ExpandInclude(dir, filePath, dirPath, stack + [keys[i]], IncludeText(dir, keys[i]).value).value)
  {
    AnswerAt(dir, filePath, dirPath, stack, keys, i);
    AnswerAt(dir, filePath, dirPath, stack, keys, j);
    if IncludeText(dir, keys[i]).Some? {
      Push(dir, stack, keys[i]);
    }
  }

  /** Names without an include file get no answer. */
  lemma {:induction false} UnknownNames(dir: map<string, string>, filePath: string, dirPath: string, stack: seq<string>, keys: seq<string>)
    requires StackOk(dir, stack)
    requires forall i :: 0 <= i < |keys| ==> keys[i] !in stack && IncludeText(dir, keys[i]).None?
    ensures Answers(dir, filePath, dirPath, stack, keys).Ok?
    ensures forall i :: 0 <= i < |keys| ==> Answers(dir, filePath, dirPath, stack, keys).value[i].None?
    decreases |keys|
  {
    if keys != [] {
      UnknownNames(dir, filePath, dirPath, stack, keys[1..]);
    }
  }

  /** A script whose placeholders name no include file is left as it is. */
  lemma NoIncludesUnchanged(dir: map<string, string>, filePath: string, dirPath: string, text: string)
    requires forall k :: k in PlaceholderKeys(text) ==> IncludeText(dir, k).None?
    ensures ApplyTemplates(Some(dir), filePath, dirPath, text) == Ok(text)
  {
    var keys := PlaceholderKeys(text);
    UnknownNames(dir, filePath, dirPath, [], keys);
    NothingResolved(text, Answers(dir, filePath, dirPath, [], keys).value);
  }

  /** A placeholder whose name has no include file survives verbatim in the
      expanded text. */
  lemma MissingIncludeLeftAsIs(dir: map<string, string>, filePath: string, dirPath: string, stack: seq<string>, text: string, j: nat)
    requires StackOk(dir, stack)
    requires j < |Placeholders(text)|
    requires PlaceholderKeys(text)[j] !in stack && IncludeText(dir, PlaceholderKeys(text)[j]).None?
    requires ExpandInclude(dir, filePath, dirPath, stack, text).Ok?
    ensures var m := Placeholders(text)[j];
            IsInfix(text[m.start..m.end + 1], ExpandInclude(dir, filePath, dirPath, stack, text).value)
  {
    var keys := PlaceholderKeys(text);
    AnswerAt(dir, filePath, dirPath, stack, keys, j);
    UnresolvedSurvives(text, Answers(dir, filePath, dirPath, stack, keys).value, j);
  }

  /** Any error of a nested include aborts the whole expansion. */
  lemma {:induction false} ErrorAborts(dir: map<string, string>, filePath: string, dirPath: string, stack: seq<string>, keys: seq<string>, i: nat)
    requires StackOk(dir, stack) && i < |keys|
    requires forall j :: 0 <= j < i ==> Resolve(dir, filePath, dirPath, stack, keys[j]).Ok?
    requires Resolve(dir, filePath, dirPath, stack, keys[i]).Err?
    ensures Answers(dir, filePath, dirPath, stack, keys) == Err(Resolve(dir, filePath, dirPath, stack, keys[i]).error)
    decreases |keys|
  {
    if i > 0 {
      ErrorAborts(dir, filePath, dirPath, stack, keys[1..], i - 1);
    }
  }

  /** An include that refers to itself: `a.gradle` holding `$a$`, referenced
      from the script, fails with the report the plugin's test looks for. */
  lemma SelfReference(filePath: string, dirPath: string)
    ensures ApplyTemplates(Some(map["a.gradle" := "$a$"]), filePath, dirPath, "$a$")
            == Err(CycleHeader + "'a' (" + filePath + ")" + ChainLink + "'a' (" + dirPath + "/a.gradle)")
  {
    var dir := map["a.gradle" := "$a$"];
    var report := LegacyCycleReport(filePath, dirPath, ["a"], "a");
    assert "a" + ".gradle" == "a.gradle";
    assert IncludeText(dir, "a") == Some("$a$");
    Push(dir, [], "a");
    assert [] + ["a"] == ["a"];
    SelfReferenceExpands(filePath, dirPath, ["a"], report);
    assert Resolve(dir, filePath, dirPath, [], "a") == Err(report);
    SelfReferenceExpands(filePath, dirPath, [], report);
    SelfReferenceReport(filePath, dirPath);
  }

  /** `$a$` expands to the error its only name resolves to. */
  lemma SelfReferenceExpands(filePath: string, dirPath: string, stack: seq<string>, report: string)
    requires StackOk(map["a.gradle" := "$a$"], stack)
    requires Resolve(map["a.gradle" := "$a$"], filePath, dirPath, stack, "a") == Err(report)
    ensures ExpandInclude(map["a.gradle" := "$a$"], filePath, dirPath, stack, "$a$") == Err(report)
  {
    OnePlaceholderA();
    assert ["a"][1..] == [];
  }

  lemma SelfReferenceReport(filePath: string, dirPath: string)
    ensures LegacyCycleReport(filePath, dirPath, ["a"], "a")
            == CycleHeader + "'a' (" + filePath + ")" + ChainLink + "'a' (" + dirPath + "/a.gradle)"
  {
    var ls := LegacyLabels(filePath, dirPath, ["a", "a"]);
    assert ["a"] + ["a"] == ["a", "a"];
    assert ls[0] == "'a' (" + filePath + ")";
    assert ls[1] == "'a' (" + dirPath + "/a.gradle)";
    assert ls[1..] == [ls[1]];
    assert JoinWith(ChainLink, ls) == ls[0] + ChainLink + ls[1];
  }

  // ---------------------------------------------------------------------------
  // The resolver with its stack
  // ---------------------------------------------------------------------------

  /** The state `applyTemplates` sets up for one script: the include
      directory and the stack of names in progress. */
  class IncludeResolver {
    const dir: map<string, string>
    const filePath: string
    const dirPath: string
    var ongoingReplacements: seq<string>

    predicate Valid()
      reads this
    {
      StackOk(dir, ongoingReplacements)
    }

    constructor (dir: map<string, string>, filePath: string, dirPath: string)
      ensures this.dir == dir && this.filePath == filePath && this.dirPath == dirPath
      ensures ongoingReplacements == [] && Valid()
    {
      this.dir := dir;
      this.filePath := filePath;
      this.dirPath := dirPath;
      ongoingReplacements := [];
    }

    /** The `withDefault` provider. The name is popped only when its include
        expanded; after an error the stack keeps what was pushed, which no
        one observes because the error ends `applyTemplates`. */
    method ResolveName(name: string) returns (r: Result<Option<string>>)
      requires Valid()
      modifies this
      ensures Valid() && old(ongoingReplacements) <= ongoingReplacements
      ensures r == Resolve(dir, filePath, dirPath, old(ongoingReplacements), name)
      ensures r.Ok? ==> ongoingReplacements == old(ongoingReplacements)
      decreases |IncludeNames(dir)| - |ongoingReplacements|, 0
    {
      if name in ongoingReplacements {
        var msg := BuildLegacyCycleMessage(filePath, dirPath, ongoingReplacements, name);
        return Err(msg);
      }
      var found := IncludeText(dir, name);
      if found.None? {
        return Ok(None);
      }
      var stack := ongoingReplacements;
      Push(dir, stack, name);
      ongoingReplacements := ongoingReplacements + [name];
      var e := ExpandText(found.value);
      if e.Err? {
        return Err(e.error);
      }
      ongoingReplacements := ongoingReplacements[..|stack|];
      assert ongoingReplacements == stack;
      r := Ok(Some(e.value));
    }

    /** The provider asked about every key, left to right; the first error
        aborts. */
    method Ask(keys: seq<string>) returns (r: Result<seq<Option<string>>>)
      requires Valid()
      modifies this
      ensures Valid() && old(ongoingReplacements) <= ongoingReplacements
      ensures r == Answers(dir, filePath, dirPath, old(ongoingReplacements), keys)
      ensures r.Ok? ==> ongoingReplacements == old(ongoingReplacements)
      decreases |IncludeNames(dir)| - |ongoingReplacements|, 1
    {
      var outcomes: seq<Option<string>> := [];
      var i := 0;
      ghost var all := Answers(dir, filePath, dirPath, ongoingReplacements, keys);
      assert keys[0..] == keys;
      assert Prefixed([], all) == all by {
        if all.Ok? {
          assert [] + all.value == all.value;
        }
      }
      while i < |keys|
        invariant i <= |keys| && ongoingReplacements == old(ongoingReplacements) && Valid()
        invariant Answers(dir, filePath, dirPath, ongoingReplacements, keys)
                  == Prefixed(outcomes, Answers(dir, filePath, dirPath, ongoingReplacements, keys[i..]))
      {
        ghost var stack := ongoingReplacements;
        AnswersStep(dir, filePath, dirPath, stack, keys, i);
        var answer := ResolveName(keys[i]);
        if answer.Err? {
          return Err(answer.error);
        }
        PrefixedSnoc(outcomes, answer.value, Answers(dir, filePath, dirPath, stack, keys[i + 1..]));
        outcomes := outcomes + [answer.value];
        i := i + 1;
      }
      assert keys[i..] == [];
      assert outcomes + [] == outcomes;
      r := Ok(outcomes);
    }

    /** `expand(project, file, includes, text)` for one text. */
    method ExpandText(text: string) returns (r: Result<string>)
      requires Valid()
      modifies this
      ensures Valid() && old(ongoingReplacements) <= ongoingReplacements
      ensures r == ExpandInclude(dir, filePath, dirPath, old(ongoingReplacements), text)
      ensures r.Ok? ==> ongoingReplacements == old(ongoingReplacements)
      decreases |IncludeNames(dir)| - |ongoingReplacements|, 2
    {
      var answers := Ask(PlaceholderKeys(text));
      if answers.Err? {
        return Err(answers.error);
      }
      var expanded := ExpandWith(text, answers.value);
      r := Ok(expanded);
    }
  }

  /** One step of the answers, read left to right. */
  lemma AnswersStep(dir: map<string, string>, filePath: string, dirPath: string, stack: seq<string>, keys: seq<string>, i: nat)
    requires StackOk(dir, stack) && i < |keys|
    ensures Answers(dir, filePath, dirPath, stack, keys[i..])
            == match Resolve(dir, filePath, dirPath, stack, keys[i])
               case Err(e) => Err(e)
               case Ok(a) => Prefixed([a], Answers(dir, filePath, dirPath, stack, keys[i + 1..]))
  {
    assert keys[i..][0] == keys[i];
    assert keys[i..][1..] == keys[i + 1..];
  }

  lemma PrefixedSnoc(os: seq<Option<string>>, a: Option<string>, r: Result<seq<Option<string>>>)
    ensures Prefixed(os, Prefixed([a], r)) == Prefixed(os + [a], r)
  {
    if r.Ok? {
      AppendAssoc(os, [a], r.value);
    }
  }

  /** `applyTemplates` run with a fresh resolver. */
  method ApplyTemplatesTo(includeDir: Option<map<string, string>>, filePath: string, dirPath: string, text: string)
    returns (r: Result<string>)
    ensures r == ApplyTemplates(includeDir, filePath, dirPath, text)
  {
    if includeDir.None? {
      return Ok(text);
    }
    var resolver := new IncludeResolver(includeDir.value, filePath, dirPath);
    r := resolver.ExpandText(text);
  }

  /** The content the legacy `addFileToZip` writes for one init script: the
      raw text when an exclusion rule covers it (no expansion, so no cycle
      error either), else the result of `applyTemplates`. */
  method LegacyScriptContent(ruleRoots: seq<string>, filePath: string, text: string,
                             includeDir: Option<map<string, string>>, dirPath: string)
    returns (r: Result<string>)
    ensures FirstExclusion(ruleRoots, filePath).Some? ==> r == Ok(text)
    ensures FirstExclusion(ruleRoots, filePath).None? ==> r == ApplyTemplates(includeDir, filePath, dirPath, text)
  {
    var rule := FirstExclusion(ruleRoots, filePath);
    if rule.Some? {
      return Ok(text);
    }
    r := ApplyTemplatesTo(includeDir, filePath, dirPath, text);
  }
}
