/** The current engine (`BuildCustomGradleDistributionTask`): every
    replacement value is expanded recursively against the others, with a cache
    of finished values and a stack of values in progress for cycle detection;
    then every init script is expanded against the finished map. */
module TaskEngine {
  import opened Common
  import opened Placeholder
  import opened Expansion
  import opened Replacements
  import opened Layout
  import opened Indentation

  import opened ExpansionState

  // ---------------------------------------------------------------------------
  // The expansion context
  // ---------------------------------------------------------------------------

  /** `TemplateExpansionContext`: the raw replacements, the finished values
      (`parsedReplacements`) and the stack of values in progress
      (`ongoingReplacements`). `rank` and `clock` record the order in which
      values were cached. */
  class TemplateExpansionContext {
    const rawReplacements: map<string, RichValue>
    var parsedReplacements: map<string, string>
    var ongoingReplacements: seq<(string, RichValue)>
    ghost var rank: map<string, nat>
    ghost var clock: nat

    /** Every cached value is finished and was cached after every value it
        names; the stack is a chain of distinct replacements, each named by
        the one below it. */
    ghost predicate Valid()
      reads this
    {
      Consistent(rawReplacements, parsedReplacements, ongoingReplacements, rank, clock)
    }

    constructor (rawReplacements: map<string, RichValue>)
      ensures this.rawReplacements == rawReplacements
      ensures parsedReplacements == map[] && ongoingReplacements == []
      ensures Valid()
    {
      this.rawReplacements := rawReplacements;
      parsedReplacements := map[];
      ongoingReplacements := [];
      rank := map[];
      clock := 0;
    }

    predicate InProgress(key: string)
      reads this
    {
      OnStack(ongoingReplacements, key)
    }

    /** The top of the stack names `key`, or the stack is empty: the only
        places `expand(key, value, context)` is called from. */
    ghost predicate CalledFor(key: string)
      reads this
    {
      ongoingReplacements == [] || DependsOn(rawReplacements, ongoingReplacements[|ongoingReplacements| - 1].0, key)
    }

    /** `expand(key, value, context)`: a key already in progress is a cycle;
        otherwise the value is expanded with the key pushed, the result is
        cached under the key, and the key is popped on every path. */
    method ExpandKey(key: string, value: RichValue) returns (r: Result<string>)
      requires Valid() && key in rawReplacements && rawReplacements[key] == value && CalledFor(key)
      modifies this
      ensures (r, parsedReplacements) == KeyOutcome(rawReplacements, old(parsedReplacements), old(ongoingReplacements), key)
      ensures Valid() && ongoingReplacements == old(ongoingReplacements)
      ensures Extends(old(parsedReplacements), parsedReplacements)
      ensures old(InProgress(key)) ==> r.Err? && parsedReplacements == old(parsedReplacements)
      ensures r.Ok? ==> key in parsedReplacements && parsedReplacements[key] == r.value
      ensures r.Err? ==> IsCycleReport(rawReplacements, r.error)
      decreases |rawReplacements.Keys| - |ongoingReplacements|, 1
    {
      if InProgress(key) {
        var msg := BuildCycleMessage(ongoingReplacements, key, value);
        assert CycleAt(rawReplacements, ongoingReplacements, key);
        return Err(msg);
      }
      r := ExpandFresh(key, value);
    }

    /** The key is pushed, its value expanded, a finished value cached, and
        the key popped again. */
    method ExpandFresh(key: string, value: RichValue) returns (r: Result<string>)
      requires Valid() && key in rawReplacements && rawReplacements[key] == value && CalledFor(key)
      requires !InProgress(key)
      modifies this
      ensures (r, parsedReplacements) == KeyOutcome(rawReplacements, old(parsedReplacements), old(ongoingReplacements), key)
      ensures Valid() && ongoingReplacements == old(ongoingReplacements)
      ensures Extends(old(parsedReplacements), parsedReplacements)
      ensures r.Ok? ==> key in parsedReplacements && parsedReplacements[key] == r.value
      ensures r.Err? ==> IsCycleReport(rawReplacements, r.error)
      decreases |rawReplacements.Keys| - |ongoingReplacements|, 0
    {
      var stack := ongoingReplacements;
      PushChained(rawReplacements, stack, key);
      ongoingReplacements := ongoingReplacements + [(key, value)];
      StackBound(rawReplacements, ongoingReplacements);
      r := ExpandValue(value);
      if r.Ok? {
        Cache(key, r.value);
      }
      ongoingReplacements := stack;
    }

    /** `parsedReplacements[key] = value` for a finished value. */
    method Cache(key: string, v: string)
      requires Valid() && key in rawReplacements
      requires v == ExpandAgainst(rawReplacements[key].value, parsedReplacements)
      requires Closed(rawReplacements, parsedReplacements, rawReplacements[key].value)
      modifies this
      ensures parsedReplacements == old(parsedReplacements)[key := v]
      ensures Valid() && ongoingReplacements == old(ongoingReplacements)
      ensures Extends(old(parsedReplacements), parsedReplacements)
    {
      if key in parsedReplacements {
        assert Finished(rawReplacements, parsedReplacements, key);
        assert parsedReplacements[key := v] == parsedReplacements;
      } else {
        CacheConsistent(rawReplacements, parsedReplacements, ongoingReplacements, rank, clock, key, v);
        parsedReplacements := parsedReplacements[key := v];
        rank := rank[key := clock];
        clock := clock + 1;
      }
    }

    /** The nested value provider for a key named by the value on top of the
        stack: the finished value if there is one, else the expansion of the
        raw value, else nothing (the key is unknown). */
    method Provide(nestedKey: string) returns (r: Result<Option<string>>)
      requires Valid() && ongoingReplacements != []
      requires nestedKey in PlaceholderKeys(ongoingReplacements[|ongoingReplacements| - 1].1.value)
      modifies this
      ensures (r, parsedReplacements) == ProvideOutcome(rawReplacements, old(parsedReplacements), old(ongoingReplacements), nestedKey)
      ensures Valid() && ongoingReplacements == old(ongoingReplacements)
      ensures Extends(old(parsedReplacements), parsedReplacements)
      ensures r.Ok? ==> r.value == Lookup(parsedReplacements, nestedKey)
      ensures r.Ok? && nestedKey in rawReplacements ==> nestedKey in parsedReplacements
      ensures nestedKey !in rawReplacements ==> r == Ok(None) && parsedReplacements == old(parsedReplacements)
      ensures r.Err? ==> IsCycleReport(rawReplacements, r.error)
      decreases |rawReplacements.Keys| - |ongoingReplacements|, 2
    {
      if nestedKey in parsedReplacements {
        return Ok(Some(parsedReplacements[nestedKey]));
      }
      if nestedKey !in rawReplacements {
        return Ok(None);
      }
      var e := ExpandKey(nestedKey, rawReplacements[nestedKey]);
      if e.Err? {
        return Err(e.error);
      }
      return Ok(Some(e.value));
    }

    /** The provider's answers for `keys`, all named by the value on top of
        the stack, asked left to right; the first failure aborts. */
    method Ask(keys: seq<string>) returns (r: Result<seq<Option<string>>>)
      requires Valid() && ongoingReplacements != []
      requires forall k :: k in keys ==> k in PlaceholderKeys(ongoingReplacements[|ongoingReplacements| - 1].1.value)
      modifies this
      ensures (r, parsedReplacements) == AskOutcome(rawReplacements, old(parsedReplacements), old(ongoingReplacements), keys)
      ensures Valid() && ongoingReplacements == old(ongoingReplacements)
      ensures Extends(old(parsedReplacements), parsedReplacements)
      ensures r.Ok? ==> |r.value| == |keys| && Answered(rawReplacements, parsedReplacements, keys, r.value)
      ensures r.Err? ==> IsCycleReport(rawReplacements, r.error)
      decreases |rawReplacements.Keys| - |ongoingReplacements|, 4
    {
      ghost var all := AskOutcome(rawReplacements, parsedReplacements, ongoingReplacements, keys);
      var outcomes: seq<Option<string>> := [];
      var i := 0;
      assert keys[0..] == keys;
      assert WithAnswers([], all) == all by {
        if all.0.Ok? {
          assert [] + all.0.value == all.0.value;
        }
      }
      while i < |keys|
        invariant i <= |keys| && |outcomes| == i
        invariant Valid() && ongoingReplacements == old(ongoingReplacements)
        invariant Extends(old(parsedReplacements), parsedReplacements)
        invariant all == WithAnswers(outcomes, AskOutcome(rawReplacements, parsedReplacements, ongoingReplacements, keys[i..]))
        invariant Answered(rawReplacements, parsedReplacements, keys, outcomes)
      {
        assert keys[i] in keys;
        var answer := AskNext(keys, i, outcomes, all, old(parsedReplacements));
        if answer.Err? {
          return Err(answer.error);
        }
        outcomes := outcomes + [answer.value];
        i := i + 1;
      }
      assert keys[i..] == [] && outcomes + [] == outcomes;
      r := Ok(outcomes);
    }

    /** The provider asked about the `i`th key: one step of the loop of `Ask`. */
    method AskNext(keys: seq<string>, i: nat, outcomes: seq<Option<string>>,
                   ghost all: (Result<seq<Option<string>>>, map<string, string>), ghost start: map<string, string>)
      returns (answer: Result<Option<string>>)
      requires Valid() && ongoingReplacements != [] && i < |keys|
      requires keys[i] in PlaceholderKeys(ongoingReplacements[|ongoingReplacements| - 1].1.value)
      requires Extends(start, parsedReplacements)
      requires all == WithAnswers(outcomes, AskOutcome(rawReplacements, parsedReplacements, ongoingReplacements, keys[i..]))
      requires Answered(rawReplacements, parsedReplacements, keys, outcomes) && |outcomes| == i
      modifies this
      ensures Valid() && ongoingReplacements == old(ongoingReplacements)
      ensures Extends(start, parsedReplacements)
      ensures answer.Err? ==> all == (Err(answer.error), parsedReplacements) && IsCycleReport(rawReplacements, answer.error)
      ensures answer.Ok? ==> all == WithAnswers(outcomes + [answer.value], AskOutcome(rawReplacements, parsedReplacements, ongoingReplacements, keys[i + 1..]))
      ensures answer.Ok? ==> Answered(rawReplacements, parsedReplacements, keys, outcomes + [answer.value])
      decreases |rawReplacements.Keys| - |ongoingReplacements|, 3
    {
      ghost var before := parsedReplacements;
      answer := Provide(keys[i]);
      AskLoopStep(rawReplacements, before, parsedReplacements, ongoingReplacements, keys, i, outcomes, answer, all);
      ExtendsTrans(start, before, parsedReplacements);
      if answer.Ok? {
        AnsweredNext(rawReplacements, before, parsedReplacements, keys, outcomes, answer.value);
      }
    }

    /** `expand(value) { nestedKey -> ... }` for the value on top of the
        stack: the provider is asked about every placeholder, and the scan
        loop splices the answers. The provider's calls are made before the
        scan rather than during it; the scan only reads the answers, so the
        state and the result are the same. */
    method ExpandValue(value: RichValue) returns (r: Result<string>)
      requires Valid() && ongoingReplacements != [] && value == ongoingReplacements[|ongoingReplacements| - 1].1
      modifies this
      ensures (r, parsedReplacements) == ValueOutcome(rawReplacements, old(parsedReplacements), old(ongoingReplacements), value)
      ensures Valid() && ongoingReplacements == old(ongoingReplacements)
      ensures Extends(old(parsedReplacements), parsedReplacements)
      ensures r.Ok? ==> r.value == ExpandAgainst(value.value, parsedReplacements)
      ensures r.Ok? ==> Closed(rawReplacements, parsedReplacements, value.value)
      ensures r.Err? ==> IsCycleReport(rawReplacements, r.error)
      decreases |rawReplacements.Keys| - |ongoingReplacements|, 5
    {
      var answers := Ask(PlaceholderKeys(value.value));
      if answers.Err? {
        return Err(answers.error);
      }
      AnsweredAll(rawReplacements, parsedReplacements, PlaceholderKeys(value.value), answers.value);
      var text := ExpandWith(value.value, answers.value);
      r := Ok(text);
    }
  }

  lemma ExtendsTrans(p1: map<string, string>, p2: map<string, string>, p3: map<string, string>)
    requires Extends(p1, p2) && Extends(p2, p3)
    ensures Extends(p1, p3)
  {
  }

  /** One answer of the provider moves the loop of `Ask` one key on: a
      failure is the outcome of the whole, an answer joins the others. */
  lemma AskLoopStep(raw: map<string, RichValue>, before: map<string, string>, after: map<string, string>,
                    stack: seq<(string, RichValue)>, keys: seq<string>, i: nat, outcomes: seq<Option<string>>,
                    answer: Result<Option<string>>, all: (Result<seq<Option<string>>>, map<string, string>))
    requires StackOk(raw, stack) && i < |keys|
    requires all == WithAnswers(outcomes, AskOutcome(raw, before, stack, keys[i..]))
    requires (answer, after) == ProvideOutcome(raw, before, stack, keys[i])
    ensures answer.Err? ==> all == (Err(answer.error), after)
    ensures answer.Ok? ==> all == WithAnswers(outcomes + [answer.value], AskOutcome(raw, after, stack, keys[i + 1..]))
  {
    AskStep(raw, before, stack, keys, i);
    if answer.Ok? {
      WithAnswersSnoc(outcomes, answer.value, AskOutcome(raw, after, stack, keys[i + 1..]));
    }
  }

  /** `outcomes` are the provider's answers for the first keys of `keys`,
      read from `parsed`, and every replacement among those keys is cached. */
  ghost predicate Answered(raw: map<string, RichValue>, parsed: map<string, string>, keys: seq<string>, outcomes: seq<Option<string>>)
  {
    |outcomes| <= |keys|
    && forall j :: 0 <= j < |outcomes| ==> outcomes[j] == Lookup(parsed, keys[j]) && (keys[j] in raw ==> keys[j] in parsed)
  }

  /** One more answer, read from a cache that extends the previous one. */
  lemma AnsweredNext(raw: map<string, RichValue>, before: map<string, string>, after: map<string, string>,
                     keys: seq<string>, outcomes: seq<Option<string>>, answer: Option<string>)
    requires |outcomes| < |keys| && Answered(raw, before, keys, outcomes) && Extends(before, after) && after.Keys <= raw.Keys
    requires answer == Lookup(after, keys[|outcomes|]) && (keys[|outcomes|] in raw ==> keys[|outcomes|] in after)
    ensures Answered(raw, after, keys, outcomes + [answer])
  {
    var next := outcomes + [answer];
    forall j | 0 <= j < |next| ensures next[j] == Lookup(after, keys[j]) && (keys[j] in raw ==> keys[j] in after) {
      if j < |outcomes| {
        assert next[j] == outcomes[j] == Lookup(before, keys[j]);
      }
    }
  }

  /** All the answers: the lookups of every key, and every replacement cached. */
  lemma AnsweredAll(raw: map<string, RichValue>, parsed: map<string, string>, keys: seq<string>, outcomes: seq<Option<string>>)
    requires Answered(raw, parsed, keys, outcomes) && |outcomes| == |keys|
    ensures outcomes == Lookups(parsed, keys)
    ensures forall n :: n in keys && n in raw ==> n in parsed
  {
    forall n | n in keys && n in raw ensures n in parsed {
      var j :| 0 <= j < |keys| && keys[j] == n;
    }
  }

  /** One step of `AskOutcome` from position `i`. */
  lemma AskStep(raw: map<string, RichValue>, parsed: map<string, string>, stack: seq<(string, RichValue)>, keys: seq<string>, i: nat)
    requires StackOk(raw, stack) && i < |keys|
    ensures var (a, next) := ProvideOutcome(raw, parsed, stack, keys[i]);
            AskOutcome(raw, parsed, stack, keys[i..])
            == if a.Err? then (Err(a.error), next) else WithAnswers([a.value], AskOutcome(raw, next, stack, keys[i + 1..]))
  {
    assert keys[i..][0] == keys[i];
    assert keys[i..][1..] == keys[i + 1..];
  }

  lemma WithAnswersSnoc(os: seq<Option<string>>, a: Option<string>, outcome: (Result<seq<Option<string>>>, map<string, string>))
    ensures WithAnswers(os, WithAnswers([a], outcome)) == WithAnswers(os + [a], outcome)
  {
    if outcome.0.Ok? {
      assert os + ([a] + outcome.0.value) == os + [a] + outcome.0.value;
    }
  }

  /** `expandReplacements`: every replacement, in iteration order, is expanded
      in one context. It fails exactly when the replacements hold a cycle, and
      then reports one; otherwise the finished map has exactly the replacement
      keys, and every value in it is its raw text expanded against the map
      itself. */
  method ExpandReplacements(replacements: LinkedMap<RichValue>) returns (r: Result<map<string, string>>)
    requires replacements.Valid()
    ensures r == ExpandAll(replacements.values, map[], replacements.keys)
    ensures r.Err? <==> HasCycle(replacements.values)
    ensures r.Err? ==> IsCycleReport(replacements.values, r.error)
    ensures r.Ok? ==> r.value.Keys == replacements.values.Keys
    ensures r.Ok? ==> Solved(replacements.values, r.value)
  {
    var context := new TemplateExpansionContext(replacements.values);
    var i := 0;
    assert replacements.keys[0..] == replacements.keys;
    while i < |replacements.keys|
      invariant i <= |replacements.keys|
      invariant context.Valid() && context.ongoingReplacements == []
      invariant context.rawReplacements == replacements.values
      invariant forall j :: 0 <= j < i ==> replacements.keys[j] in context.parsedReplacements
      invariant ExpandAll(replacements.values, map[], replacements.keys)
                == ExpandAll(replacements.values, context.parsedReplacements, replacements.keys[i..])
    {
      var key := replacements.keys[i];
      assert replacements.keys[i..][1..] == replacements.keys[i + 1..];
      var e := context.ExpandKey(key, replacements.values[key]);
      if e.Err? {
        ReportedCycle(replacements.values, e.error);
        return Err(e.error);
      }
      i := i + 1;
    }
    forall k | k in replacements.values ensures k in context.parsedReplacements {
      var j :| 0 <= j < |replacements.keys| && replacements.keys[j] == k;
    }
    RankedAcyclic(replacements.values, context.rank);
    r := Ok(context.parsedReplacements);
  }

  /** `A = $B$` and `B = $A$`, iterated `A` first: expanding `A` pushes `A`,
      asks for `B`, pushes `B`, asks for `A` and finds it on the stack. */
  lemma MutualCycle(a: RichValue, b: RichValue)
    requires a.value == "$B$" && b.value == "$A$"
    ensures ExpandAll(map["A" := a, "B" := b], map[], ["A", "B"]) == Err(CycleReport([("A", a), ("B", b)], "A", a))
  {
    var raw := map["A" := a, "B" := b];
    var report := CycleReport([("A", a), ("B", b)], "A", a);
    MutualCycleFromB(a, b);
    assert StackOk(raw, []);
    assert [] + [("A", a)] == [("A", a)];
    assert KeyOutcome(raw, map[], [], "A") == (Err(report), map[]);
  }

  /** With `A` pushed, the value of `A` fails on `B`. */
  lemma MutualCycleFromB(a: RichValue, b: RichValue)
    requires a.value == "$B$" && b.value == "$A$"
    ensures StackOk(map["A" := a, "B" := b], [("A", a)])
    ensures ValueOutcome(map["A" := a, "B" := b], map[], [("A", a)], a) == (Err(CycleReport([("A", a), ("B", b)], "A", a)), map[])
  {
    var raw := map["A" := a, "B" := b];
    var report := CycleReport([("A", a), ("B", b)], "A", a);
    var s1 := [("A", a)];
    MutualCycleFromA(a, b);
    assert s1 + [("B", b)] == [("A", a), ("B", b)];
    assert !OnStack(s1, "B");
    assert KeyOutcome(raw, map[], s1, "B") == (Err(report), map[]);
    assert ProvideOutcome(raw, map[], s1, "B") == (Err(report), map[]);
    assert AskOutcome(raw, map[], s1, ["B"]) == (Err(report), map[]);
    OnlyPlaceholder("B");
    assert a.value == "$" + "B" + "$";
  }

  /** With `A` and `B` pushed, the value of `B` fails on `A`. */
  lemma MutualCycleFromA(a: RichValue, b: RichValue)
    requires b.value == "$A$"
    ensures StackOk(map["A" := a, "B" := b], [("A", a), ("B", b)])
    ensures ValueOutcome(map["A" := a, "B" := b], map[], [("A", a), ("B", b)], b) == (Err(CycleReport([("A", a), ("B", b)], "A", a)), map[])
  {
    var raw := map["A" := a, "B" := b];
    var report := CycleReport([("A", a), ("B", b)], "A", a);
    var s2 := [("A", a), ("B", b)];
    assert s2[..1] == [("A", a)] && [("A", a)][..0] == [];
    assert !OnStack([("A", a)], "B");
    assert OnStack(s2, "A") by { assert s2[0].0 == "A"; }
    assert KeyOutcome(raw, map[], s2, "A") == (Err(report), map[]);
    assert ProvideOutcome(raw, map[], s2, "A") == (Err(report), map[]);
    assert AskOutcome(raw, map[], s2, ["A"]) == (Err(report), map[]);
    OnlyPlaceholder("A");
    assert b.value == "$" + "A" + "$";
  }

  /** `$x$` holds the one placeholder `x`. */
  lemma OnlyPlaceholder(x: string)
    requires x == "A" || x == "B"
    ensures PlaceholderKeys("$" + x + "$") == [x]
  {
    var t := "$" + x + "$";
    assert RunEnd(t, 2) == 3;
    assert GreedyEnd(t, 0) == Some(2);
    assert FindPlaceholder(t, 0) == Some(Match(0, 2));
    assert FindPlaceholder(t, 3) == None;
    assert PlaceholdersFrom(t, 3) == [];
    assert Placeholders(t) == [Match(0, 2)];
    assert Key(t, Match(0, 2)) == x;
  }

  /** `prepareReplacements`: the properties and the utility files are loaded,
      a key defined by both is an error, and the two are merged (properties
      first) and expanded. `properties` is the parsed properties file, or
      nothing when there is no such file; `utilityFiles` is the utility
      directory's listing, or nothing when it is not configured or cannot be
      listed; `propertiesPath` is the properties file's canonical path. */
  method PrepareReplacements(properties: Option<seq<(string, string)>>, propertiesPath: string, utilityFiles: Option<seq<SourceFile>>)
    returns (r: Result<map<string, string>>)
    ensures var fromProperties := LoadFromProperties(properties, ReplacementsFileName);
            var fromFiles := LoadFromFiles(utilityFiles);
            var clash := DuplicateError(fromProperties.keys, propertiesPath, fromFiles);
            var merged := Merge(fromProperties, fromFiles);
            && (clash.Some? ==> r == Err(clash.value))
            && (clash.None? ==> r == ExpandAll(merged.values, map[], merged.keys))
            && (clash.None? ==> (r.Err? <==> HasCycle(merged.values)))
            && (r.Ok? ==> clash.None?
                          && r.value.Keys == fromProperties.values.Keys + fromFiles.values.Keys
                          && Solved(merged.values, r.value))
  {
    var fromProperties := LoadFromProperties(properties, ReplacementsFileName);
    var fromFiles := LoadFromFiles(utilityFiles);
    var clash := DuplicateError(fromProperties.keys, propertiesPath, fromFiles);
    if clash.Some? {
      return Err(clash.value);
    }
    var merged := Merge(fromProperties, fromFiles);
    MergeKeysDisjointValues(fromProperties, fromFiles);
    r := ExpandReplacements(merged);
  }

  /** With no clash the merged keys are those of both sources. */
  lemma MergeKeysDisjointValues(first: LinkedMap<RichValue>, second: LinkedMap<RichValue>)
    requires first.Valid() && second.Valid()
    requires forall i :: 0 <= i < |first.keys| ==> first.keys[i] !in second.values
    ensures Merge(first, second).values.Keys == first.values.Keys + second.values.Keys
  {
    forall k | k in first.values ensures k !in second.values {
      assert k in first.keys;
    }
    MergeValues(first, second);
  }

  /** The content `addFileToZip` writes for one init script: the raw text when
      an exclusion rule covers the script, else the text expanded against the
      finished replacements. */
  method ScriptContent(ruleRoots: seq<string>, filePath: string, text: string, replacements: map<string, string>)
    returns (content: string)
    ensures FirstExclusion(ruleRoots, filePath).Some? ==> content == text
    ensures FirstExclusion(ruleRoots, filePath).None? ==> content == ExpandAgainst(text, replacements)
  {
    var rule := FirstExclusion(ruleRoots, filePath);
    if rule.None? {
      content := ExpandWithMap(text, replacements);
    } else {
      content := text;
    }
  }

  /** Nested values resolve through the finished map: with `A = $B$x` and
      `B = v`, every solved map over both keys maps `A` to `vx`. */
  lemma NestedResolution(parsed: map<string, string>)
    requires Solved(map["A" := RichValue("$B$x", "a"), "B" := RichValue("v", "b")], parsed)
    requires "A" in parsed && "B" in parsed
    ensures parsed["A"] == "vx"
  {
    var raw := map["A" := RichValue("$B$x", "a"), "B" := RichValue("v", "b")];
    assert Finished(raw, parsed, "B");
    assert Finished(raw, parsed, "A");
    NoPlaceholder("v", parsed);
    OneLeadingPlaceholder(parsed);
  }

  /** A text without `$` expands to itself. */
  lemma NoPlaceholder(text: string, m: map<string, string>)
    requires text == "v"
    ensures ExpandAgainst(text, m) == text
  {
    assert FindPlaceholder(text, 1) == None;
    assert FindPlaceholder(text, 0) == None;
    assert Placeholders(text) == [];
    UnknownKeysUnchanged(text, m);
  }

  lemma OneLeadingPlaceholder(m: map<string, string>)
    requires "B" in m && m["B"] == "v"
    ensures ExpandAgainst("$B$x", m) == "vx"
  {
    var t := "$B$x";
    LeadingMatch();
    assert Lookups(m, PlaceholderKeys(t)) == [Some("v")];
    IndentedZero("v");
    SingleReplacement(t, "v");
    assert t[..0] + "v" + t[3..] == "vx";
  }

  /** `$B$x` holds the one placeholder `B`, at the start. */
  lemma LeadingMatch()
    ensures Placeholders("$B$x") == [Match(0, 2)] && PlaceholderKeys("$B$x") == ["B"]
  {
    var t := "$B$x";
    assert GreedyEnd(t, 0) == Some(2);
    assert FindPlaceholder(t, 0) == Some(Match(0, 2));
    assert FindPlaceholder(t, 3) == None;
    assert PlaceholdersFrom(t, 3) == [];
    assert Key(t, Match(0, 2)) == "B";
  }
}
