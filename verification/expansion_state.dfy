/** The state of an expansion context as values: the finished cache, the
    stack of values in progress, and the engine's outcome as a function of
    them. */
module ExpansionState {
  import opened Common
  import opened Placeholder
  import opened Expansion
  import opened Replacements

  /** How a stack entry is shown in a cycle report: `'key' (description)`. */
  function Label(entry: (string, RichValue)): string
  {
    "'" + entry.0 + "' (" + entry.1.description + ")"
  }

  function Labels(entries: seq<(string, RichValue)>): (ls: seq<string>)
    ensures |ls| == |entries|
    ensures forall i :: 0 <= i < |entries| ==> ls[i] == Label(entries[i])
  {
    seq(|entries|, i requires 0 <= i < |entries| => Label(entries[i]))
  }

  /** The cycle report: the entries in progress, oldest first, and then the
      key that closes the cycle, one per line and linked by `  |` lines. */
  function CycleReport(stack: seq<(string, RichValue)>, key: string, value: RichValue): string
  {
    CycleHeader + JoinWith(ChainLink, Labels(stack + [(key, value)]))
  }

  /** The report is built as `forEachIndexed` over the stack (a link before
      every entry but the first), then a link and the repeated key. When the
      stack is empty, which a cycle never leaves it, the link still comes first. */
  method BuildCycleMessage(stack: seq<(string, RichValue)>, key: string, value: RichValue) returns (msg: string)
    ensures stack != [] ==> msg == CycleReport(stack, key, value)
    ensures stack == [] ==> msg == CycleHeader + ChainLink + Label((key, value))
  {
    ghost var labels := Labels(stack + [(key, value)]);
    var chain := "";
    for i := 0 to |stack|
      invariant chain == JoinWith(ChainLink, labels[..i])
    {
      if i > 0 {
        chain := chain + ChainLink;
      }
      chain := chain + Label(stack[i]);
      JoinWithPrefix(ChainLink, labels, i);
    }
    chain := chain + ChainLink + Label((key, value));
    if stack != [] {
      JoinWithPrefix(ChainLink, labels, |stack|);
      assert labels[..|stack| + 1] == labels;
    }
    msg := CycleHeader + chain;
  }

  /** `A` -> `B` -> `A`: the report lists the chain in order and ends with the
      repeated key. */
  lemma CycleReportExample(a: RichValue, b: RichValue)
    requires a.description == "a.gradle" && b.description == "b.gradle"
    ensures CycleReport([("A", a), ("B", b)], "A", a)
            == CycleHeader + "'A' (a.gradle)" + ChainLink + "'B' (b.gradle)" + ChainLink + "'A' (a.gradle)"
  {
    var ls := Labels([("A", a), ("B", b)] + [("A", a)]);
    assert ls[0] == "'A' (a.gradle)";
    assert ls[1] == "'B' (b.gradle)";
    assert ls[2] == "'A' (a.gradle)";
    JoinWithThree(ChainLink, ls);
  }

  // ---------------------------------------------------------------------------
  // The finished map
  // ---------------------------------------------------------------------------

  /** The value a map provides for `key`, as `map[key]` does. */
  function Lookup(m: map<string, string>, key: string): (r: Option<string>)
    ensures r.Some? <==> key in m
    ensures r.Some? ==> r.value == m[key]
  {
    if key in m then Some(m[key]) else None
  }

  /** Every placeholder of `text` that names a replacement has its finished
      value in `parsed`. */
  ghost predicate Closed(raw: map<string, RichValue>, parsed: map<string, string>, text: string)
  {
    forall n {:trigger n in PlaceholderKeys(text)} :: n in PlaceholderKeys(text) && n in raw ==> n in parsed
  }

  /** The value cached for `k` is finished: its raw text with every
      placeholder replaced as the scan loop does it, by finished values. */
  ghost predicate Finished(raw: map<string, RichValue>, parsed: map<string, string>, k: string)
    requires k in raw && k in parsed
  {
    Closed(raw, parsed, raw[k].value) && parsed[k] == ExpandAgainst(raw[k].value, parsed)
  }

  /** `parsed` holds finished values of replacements only. */
  ghost predicate Solved(raw: map<string, RichValue>, parsed: map<string, string>)
  {
    parsed.Keys <= raw.Keys
    && forall k {:trigger Finished(raw, parsed, k)} :: k in parsed ==> Finished(raw, parsed, k)
  }

  /** `after` keeps every entry of `before`. */
  ghost predicate Extends(before: map<string, string>, after: map<string, string>)
  {
    forall k :: k in before ==> k in after && after[k] == before[k]
  }

  /** Caching more values keeps a text closed. */
  lemma ClosedGrows(raw: map<string, RichValue>, p1: map<string, string>, p2: map<string, string>, text: string)
    requires Closed(raw, p1, text) && p1.Keys <= p2.Keys
    ensures Closed(raw, p2, text)
  {
  }

  /** A text expands alike against two maps that agree on its placeholders. */
  lemma ExpandAgainstAgree(raw: map<string, RichValue>, p1: map<string, string>, p2: map<string, string>, text: string)
    requires Closed(raw, p1, text) && Extends(p1, p2)
    requires forall k :: k in p2 ==> k in raw
    ensures ExpandAgainst(text, p1) == ExpandAgainst(text, p2)
  {
    var keys := PlaceholderKeys(text);
    var l1 := Lookups(p1, keys);
    var l2 := Lookups(p2, keys);
    forall i | 0 <= i < |keys| ensures l1[i] == l2[i] {
      assert keys[i] in keys;
    }
    assert l1 == l2;
  }

  /** A value finished against `parsed` stays finished in a larger map. */
  lemma FinishedLater(raw: map<string, RichValue>, parsed: map<string, string>, next: map<string, string>, k: string)
    requires Extends(parsed, next) && next.Keys <= raw.Keys && k in next && k in raw
    requires Closed(raw, parsed, raw[k].value) && next[k] == ExpandAgainst(raw[k].value, parsed)
    ensures Finished(raw, next, k)
  {
    ClosedGrows(raw, parsed, next, raw[k].value);
    ExpandAgainstAgree(raw, parsed, next, raw[k].value);
  }

  /** Caching a new finished value keeps every cached value finished. */
  lemma CacheKeepsFinished(raw: map<string, RichValue>, parsed: map<string, string>, key: string, v: string, k: string)
    requires Solved(raw, parsed) && key !in parsed && key in raw
    requires v == ExpandAgainst(raw[key].value, parsed) && Closed(raw, parsed, raw[key].value)
    requires k in parsed[key := v]
    ensures k in raw && Finished(raw, parsed[key := v], k)
  {
    if k != key {
      assert Finished(raw, parsed, k);
    }
    FinishedLater(raw, parsed, parsed[key := v], k);
  }

  /** Caching the value of a key that is not cached yet keeps the map solved. */
  lemma CacheNew(raw: map<string, RichValue>, parsed: map<string, string>, key: string, v: string)
    requires Solved(raw, parsed) && key !in parsed && key in raw
    requires v == ExpandAgainst(raw[key].value, parsed) && Closed(raw, parsed, raw[key].value)
    ensures Solved(raw, parsed[key := v])
  {
    assert parsed[key := v].Keys == parsed.Keys + {key};
    forall k | k in parsed[key := v] ensures k in raw && Finished(raw, parsed[key := v], k) {
      CacheKeepsFinished(raw, parsed, key, v, k);
    }
  }


  /** `ongoingReplacements.any { it.first == key }` */
  predicate OnStack(stack: seq<(string, RichValue)>, key: string)
  {
    exists i :: 0 <= i < |stack| && stack[i].0 == key
  }

  /** The stack holds distinct replacement keys, each with its raw value:
      every entry was pushed on a stack that did not hold its key. */
  predicate StackOk(raw: map<string, RichValue>, stack: seq<(string, RichValue)>)
    decreases |stack|
  {
    stack == []
    || (var below := stack[..|stack| - 1];
        var top := stack[|stack| - 1];
        StackOk(raw, below) && !OnStack(below, top.0) && top.0 in raw && raw[top.0] == top.1)
  }

  /** Pushing a replacement that is not on the stack keeps the stack valid. */
  lemma PushOk(raw: map<string, RichValue>, stack: seq<(string, RichValue)>, key: string)
    requires StackOk(raw, stack) && key in raw && !OnStack(stack, key)
    ensures StackOk(raw, stack + [(key, raw[key])])
  {
    assert (stack + [(key, raw[key])])[..|stack|] == stack;
  }

  /** The keys on the stack. */
  function StackKeySet(stack: seq<(string, RichValue)>): set<string>
    decreases |stack|
  {
    if stack == [] then {} else StackKeySet(stack[..|stack| - 1]) + {stack[|stack| - 1].0}
  }

  /** A valid stack holds as many keys as entries, all of them replacements. */
  lemma {:induction false} StackKeys(raw: map<string, RichValue>, stack: seq<(string, RichValue)>)
    requires StackOk(raw, stack)
    ensures StackKeySet(stack) <= raw.Keys && |StackKeySet(stack)| == |stack|
    ensures forall k :: k in StackKeySet(stack) ==> OnStack(stack, k)
    decreases |stack|
  {
    if stack != [] {
      var below := stack[..|stack| - 1];
      var top := stack[|stack| - 1];
      StackKeys(raw, below);
      forall k | k in StackKeySet(stack) ensures OnStack(stack, k) {
        if k == top.0 {
          assert stack[|stack| - 1].0 == k;
        } else {
          var i :| 0 <= i < |below| && below[i].0 == k;
          assert stack[i] == below[i];
        }
      }
    }
  }

  /** A stack of distinct replacement keys is no deeper than there are keys. */
  lemma StackBound(raw: map<string, RichValue>, stack: seq<(string, RichValue)>)
    requires StackOk(raw, stack)
    ensures |stack| <= |raw.Keys|
  {
    StackKeys(raw, stack);
    var ks := StackKeySet(stack);
    assert raw.Keys == ks + (raw.Keys - ks);
  }

  // ---------------------------------------------------------------------------
  // The engine as functions of the cache and the stack
  // ---------------------------------------------------------------------------

  /** `expand(key, value, context)` for the replacement `key`, started with
      the cache `parsed` and the stack `stack`: the outcome and the cache it
      leaves. A key on the stack is a cycle; otherwise the key is pushed, its
      raw value expanded, and a finished value cached under the key. */
  function KeyOutcome(raw: map<string, RichValue>, parsed: map<string, string>, stack: seq<(string, RichValue)>, key: string)
    : (Result<string>, map<string, string>)
    requires StackOk(raw, stack) && key in raw
    decreases |raw.Keys| - |stack|, 0
  {
    if OnStack(stack, key) then (Err(CycleReport(stack, key, raw[key])), parsed)
    else
      var pushed := stack + [(key, raw[key])];
      PushOk(raw, stack, key);
      StackBound(raw, pushed);
      var (v, after) := ValueOutcome(raw, parsed, pushed, raw[key]);
      if v.Ok? then (v, after[key := v.value]) else (v, after)
  }

  /** The nested value provider: the cached value, else the expansion of a
      known key, else nothing. */
  function ProvideOutcome(raw: map<string, RichValue>, parsed: map<string, string>, stack: seq<(string, RichValue)>, key: string)
    : (Result<Option<string>>, map<string, string>)
    requires StackOk(raw, stack)
    decreases |raw.Keys| - |stack|, 1
  {
    if key in parsed then (Ok(Some(parsed[key])), parsed)
    else if key !in raw then (Ok(None), parsed)
    else
      var (e, after) := KeyOutcome(raw, parsed, stack, key);
      (if e.Err? then Err(e.error) else Ok(Some(e.value)), after)
  }

  /** `os` in front of the answers of an outcome. */
  function WithAnswers(os: seq<Option<string>>, outcome: (Result<seq<Option<string>>>, map<string, string>))
    : (Result<seq<Option<string>>>, map<string, string>)
  {
    (if outcome.0.Ok? then Ok(os + outcome.0.value) else outcome.0, outcome.1)
  }

  /** The provider asked about `keys`, left to right, each answer seeing the
      cache the previous one left; the first failure aborts. */
  function AskOutcome(raw: map<string, RichValue>, parsed: map<string, string>, stack: seq<(string, RichValue)>, keys: seq<string>)
    : (r: (Result<seq<Option<string>>>, map<string, string>))
    requires StackOk(raw, stack)
    ensures r.0.Ok? ==> |r.0.value| == |keys|
    decreases |raw.Keys| - |stack|, 2, |keys|
  {
    if keys == [] then (Ok([]), parsed)
    else
      var (a, next) := ProvideOutcome(raw, parsed, stack, keys[0]);
      if a.Err? then (Err(a.error), next)
      else WithAnswers([a.value], AskOutcome(raw, next, stack, keys[1..]))
  }

  /** `expand(value) { nestedKey -> ... }`: the answers for the value's
      placeholders spliced into it. */
  function ValueOutcome(raw: map<string, RichValue>, parsed: map<string, string>, stack: seq<(string, RichValue)>, value: RichValue)
    : (Result<string>, map<string, string>)
    requires StackOk(raw, stack)
    decreases |raw.Keys| - |stack|, 3
  {
    var (answers, after) := AskOutcome(raw, parsed, stack, PlaceholderKeys(value.value));
    if answers.Err? then (Err(answers.error), after)
    else (Ok(Splice(value.value, answers.value)), after)
  }

  /** `expandReplacements` from the cache `parsed`: every key of `keys` is
      expanded in turn with an empty stack; the first failure aborts. */
  function ExpandAll(raw: map<string, RichValue>, parsed: map<string, string>, keys: seq<string>): Result<map<string, string>>
    requires forall k :: k in keys ==> k in raw
    decreases |keys|
  {
    if keys == [] then Ok(parsed)
    else
      var (e, after) := KeyOutcome(raw, parsed, [], keys[0]);
      if e.Err? then Err(e.error) else ExpandAll(raw, after, keys[1..])
  }

  // ---------------------------------------------------------------------------
  // Dependencies and cycles
  // ---------------------------------------------------------------------------

  /** The raw value of the replacement `k` names the replacement `n`. */
  ghost predicate DependsOn(raw: map<string, RichValue>, k: string, n: string)
  {
    k in raw && n in raw && n in PlaceholderKeys(raw[k].value)
  }

  /** Each replacement of `ks` names the next, and the last names the first. */
  ghost predicate IsCycle(raw: map<string, RichValue>, ks: seq<string>)
  {
    ks != [] && IsPath(raw, ks) && DependsOn(raw, ks[|ks| - 1], ks[0])
  }

  /** Each replacement of `ks` names the next. */
  ghost predicate IsPath(raw: map<string, RichValue>, ks: seq<string>)
  {
    forall i :: 0 < i < |ks| ==> StepAt(raw, ks, i)
  }

  /** The `i`th key of `ks` is named by the one before it. */
  ghost predicate StepAt(raw: map<string, RichValue>, ks: seq<string>, i: int)
    requires 0 < i < |ks|
  {
    DependsOn(raw, ks[i - 1], ks[i])
  }

  ghost predicate HasCycle(raw: map<string, RichValue>)
  {
    exists ks :: IsCycle(raw, ks)
  }

  /** Each entry of the stack was pushed while expanding the one below it. */
  ghost predicate Chained(raw: map<string, RichValue>, stack: seq<(string, RichValue)>)
  {
    forall i :: 0 < i < |stack| ==> PushedAt(raw, stack, i)
  }

  /** The `i`th entry of the stack was pushed while expanding the one below it. */
  ghost predicate PushedAt(raw: map<string, RichValue>, stack: seq<(string, RichValue)>, i: int)
    requires 0 < i < |stack|
  {
    DependsOn(raw, stack[i - 1].0, stack[i].0)
  }

  /** `key`, named by the value on top of the chained stack, is already on it. */
  ghost predicate CycleAt(raw: map<string, RichValue>, stack: seq<(string, RichValue)>, key: string)
  {
    stack != [] && StackOk(raw, stack) && Chained(raw, stack)
    && DependsOn(raw, stack[|stack| - 1].0, key) && OnStack(stack, key)
  }

  /** `msg` is the report of a cycle among the replacements. */
  ghost predicate IsCycleReport(raw: map<string, RichValue>, msg: string)
  {
    exists stack, key :: CycleAt(raw, stack, key) && msg == CycleReport(stack, key, raw[key])
  }

  /** A reported cycle is a cycle: from the repeated key up the stack and back. */
  lemma CycleAtIsCycle(raw: map<string, RichValue>, stack: seq<(string, RichValue)>, key: string)
    requires CycleAt(raw, stack, key)
    ensures HasCycle(raw)
  {
    var i :| 0 <= i < |stack| && stack[i].0 == key;
    var ks := CycleAbove(raw, stack, i);
  }

  /** The keys of the stack entries, bottom first. */
  function KeyList(stack: seq<(string, RichValue)>): (ks: seq<string>)
    ensures |ks| == |stack| && forall j :: 0 <= j < |stack| ==> ks[j] == stack[j].0
  {
    if stack == [] then [] else [stack[0].0] + KeyList(stack[1..])
  }

  /** The entries from `i` to the top, when the top names the `i`th, form a cycle. */
  lemma CycleAbove(raw: map<string, RichValue>, stack: seq<(string, RichValue)>, i: nat) returns (ks: seq<string>)
    requires Chained(raw, stack) && i < |stack| && DependsOn(raw, stack[|stack| - 1].0, stack[i].0)
    ensures IsCycle(raw, ks)
  {
    var above := stack[i..];
    ks := KeyList(above);
    forall j | 0 < j < |ks| ensures StepAt(raw, ks, j) {
      assert above[j - 1] == stack[i + j - 1] && above[j] == stack[i + j];
      assert PushedAt(raw, stack, i + j);
    }
    assert above[0] == stack[i] && above[|above| - 1] == stack[|stack| - 1];
  }

  /** Every error of the engine names an actual cycle. */
  lemma ReportedCycle(raw: map<string, RichValue>, msg: string)
    requires IsCycleReport(raw, msg)
    ensures HasCycle(raw) && CycleHeader <= msg
  {
    var stack, key :| CycleAt(raw, stack, key) && msg == CycleReport(stack, key, raw[key]);
    CycleAtIsCycle(raw, stack, key);
  }

  /** `rank` orders the cached keys: a replacement a cached value names is
      cached and ranked lower. */
  ghost predicate Ranked(raw: map<string, RichValue>, rank: map<string, nat>)
  {
    forall k, n {:trigger DependsOn(raw, k, n)} :: k in rank && DependsOn(raw, k, n) ==> n in rank && rank[n] < rank[k]
  }

  /** Every rank handed out so far is below `clock`. */
  ghost predicate RanksBelow(rank: map<string, nat>, clock: nat)
  {
    forall k :: k in rank ==> rank[k] < clock
  }

  /** Along a chain of dependencies the rank drops at every step. */
  lemma {:induction false} RankAlong(raw: map<string, RichValue>, rank: map<string, nat>, ks: seq<string>, i: nat)
    requires Ranked(raw, rank) && i < |ks| && ks[0] in rank
    requires IsPath(raw, ks)
    ensures ks[i] in rank && rank[ks[i]] + i <= rank[ks[0]]
  {
    if i > 0 {
      RankAlong(raw, rank, ks, i - 1);
      assert StepAt(raw, ks, i);
    }
  }

  /** Once every replacement is ranked there is no cycle. */
  lemma RankedAcyclic(raw: map<string, RichValue>, rank: map<string, nat>)
    requires Ranked(raw, rank) && raw.Keys <= rank.Keys
    ensures !HasCycle(raw)
  {
    forall ks ensures !IsCycle(raw, ks) {
      if ks != [] && IsPath(raw, ks) && ks[0] in raw {
        RankAlong(raw, rank, ks, |ks| - 1);
      }
    }
  }

  /** Pushing a key the top names, and that is not on the stack yet, keeps
      the stack a chain of distinct replacements. */
  lemma PushChained(raw: map<string, RichValue>, stack: seq<(string, RichValue)>, key: string)
    requires StackOk(raw, stack) && Chained(raw, stack) && key in raw && !OnStack(stack, key)
    requires stack == [] || DependsOn(raw, stack[|stack| - 1].0, key)
    ensures StackOk(raw, stack + [(key, raw[key])]) && Chained(raw, stack + [(key, raw[key])])
  {
    PushOk(raw, stack, key);
    var pushed := stack + [(key, raw[key])];
    forall i | 0 < i < |pushed| ensures PushedAt(raw, pushed, i) {
      assert pushed[i - 1] == stack[i - 1];
      if i < |stack| {
        assert pushed[i] == stack[i];
        assert PushedAt(raw, stack, i);
      }
    }
  }

  /** Caching `key` after every replacement its value names, with the next
      rank, keeps the cache ranked. */
  lemma CacheRank(raw: map<string, RichValue>, parsed: map<string, string>, rank: map<string, nat>, clock: nat, key: string)
    requires Ranked(raw, rank) && rank.Keys == parsed.Keys && RanksBelow(rank, clock)
    requires key in raw && key !in parsed && Closed(raw, parsed, raw[key].value)
    ensures Ranked(raw, rank[key := clock]) && RanksBelow(rank[key := clock], clock + 1)
  {
    var next := rank[key := clock];
    forall k, n | k in next && DependsOn(raw, k, n) ensures n in next && next[n] < next[k] {
      if k == key {
        assert n in PlaceholderKeys(raw[key].value) && n in raw;
      }
    }
  }

  /** The context's invariant, on its fields' values. */
  ghost predicate Consistent(raw: map<string, RichValue>, parsed: map<string, string>, stack: seq<(string, RichValue)>,
                             rank: map<string, nat>, clock: nat)
  {
    Solved(raw, parsed) && StackOk(raw, stack) && Chained(raw, stack)
    && rank.Keys == parsed.Keys && Ranked(raw, rank) && RanksBelow(rank, clock)
  }

  /** Caching the finished value of a key not cached yet, with the next rank,
      keeps the context consistent. */
  lemma CacheConsistent(raw: map<string, RichValue>, parsed: map<string, string>, stack: seq<(string, RichValue)>,
                        rank: map<string, nat>, clock: nat, key: string, v: string)
    requires Consistent(raw, parsed, stack, rank, clock)
    requires key in raw && key !in parsed
    requires v == ExpandAgainst(raw[key].value, parsed) && Closed(raw, parsed, raw[key].value)
    ensures Consistent(raw, parsed[key := v], stack, rank[key := clock], clock + 1)
  {
    CacheNew(raw, parsed, key, v);
    CacheRank(raw, parsed, rank, clock, key);
  }

}
