/** The placeholder pattern `\$(\S+)\$` of both engines, as Java's regex engine
    runs it: `find` tries start positions left to right, and at a `$` the
    greedy `\S+` takes the whole run of non-whitespace characters, then gives
    characters back until a `$` follows. A match therefore ends at the LAST `$`
    of the non-whitespace run, and `$a$b$` yields the key `a$b`. After a match
    the next search resumes right after it (`MatchResult.next()`), so matches
    never overlap. */
module Placeholder {
  import opened Common

  /** Java's `\s` without the UNICODE_CHARACTER_CLASS flag:
      space, tab, newline, vertical tab, form feed, carriage return. */
  predicate IsRegexSpace(c: char)
  {
    c == ' ' || c == '\t' || c == '\n' || c == '\U{0B}' || c == '\U{0C}' || c == '\r'
  }

  /** A match of the pattern occupies `text[start..end + 1]`; `end` is the index
      of the closing `$`, as in Kotlin's `range.last`. */
  datatype Match = Match(start: nat, end: nat)

  /** `text[p..q + 1]` is an occurrence of `$<non-whitespace run>$`. */
  predicate IsMatchAt(text: string, p: int, q: int)
  {
    0 <= p && p + 2 <= q < |text| && text[p] == '$' && text[q] == '$'
    && forall k :: p < k < q ==> !IsRegexSpace(text[k])
  }

  /** The captured key of a match (group 1). */
  function Key(text: string, m: Match): (key: string)
    requires m.start < m.end <= |text|
    ensures |key| == m.end - m.start - 1
  {
    text[m.start + 1..m.end]
  }

  /** The key of an occurrence is what lies between its two `$`: putting the
      `$` back gives the occurrence, and the key is a non-empty run without
      whitespace. */
  lemma KeyOfMatch(text: string, p: nat, q: nat)
    requires IsMatchAt(text, p, q)
    ensures "$" + Key(text, Match(p, q)) + "$" == text[p..q + 1]
    ensures Key(text, Match(p, q)) != []
    ensures forall k :: 0 <= k < |Key(text, Match(p, q))| ==> !IsRegexSpace(Key(text, Match(p, q))[k])
  {
    var key := Key(text, Match(p, q));
    assert forall k :: 0 <= k < |key| ==> key[k] == text[p + 1 + k];
  }

  /** The end of the run of non-whitespace characters that begins at `i`. */
  function RunEnd(text: string, i: nat): (r: nat)
    requires i <= |text|
    ensures i <= r <= |text|
    decreases |text| - i
  {
    if i == |text| || IsRegexSpace(text[i]) then i else RunEnd(text, i + 1)
  }

  /** The run stops at the first Java `\s` character, or at the end. */
  lemma {:induction false} RunEndCorrect(text: string, i: nat)
    requires i <= |text|
    ensures forall k :: i <= k < RunEnd(text, i) ==> !IsRegexSpace(text[k])
    ensures RunEnd(text, i) < |text| ==> IsRegexSpace(text[RunEnd(text, i)])
    decreases |text| - i
  {
    if i < |text| && !IsRegexSpace(text[i]) {
      RunEndCorrect(text, i + 1);
    }
  }

  /** The largest index in `[lo, hi)` holding a `$`, if any. */
  function LastDollar(text: string, lo: nat, hi: nat): (r: Option<nat>)
    requires hi <= |text|
    ensures r.Some? ==> lo <= r.value < hi && text[r.value] == '$'
    decreases hi
  {
    if hi <= lo then None
    else if text[hi - 1] == '$' then Some(hi - 1)
    else LastDollar(text, lo, hi - 1)
  }

  /** No `$` follows the one found, and there is none in the range when none
      is found. */
  lemma {:induction false} LastDollarCorrect(text: string, lo: nat, hi: nat)
    requires hi <= |text|
    ensures LastDollar(text, lo, hi).Some? ==> forall k :: LastDollar(text, lo, hi).value < k < hi ==> text[k] != '$'
    ensures LastDollar(text, lo, hi).None? ==> forall k :: lo <= k < hi ==> text[k] != '$'
    decreases hi
  {
    if hi > lo && text[hi - 1] != '$' {
      LastDollarCorrect(text, lo, hi - 1);
    }
  }

  /** Where the greedy match starting at `p` ends, if one starts there. */
  function GreedyEnd(text: string, p: nat): (r: Option<nat>)
    requires p < |text|
    ensures r.Some? ==> p + 2 <= r.value < |text|
  {
    if text[p] != '$' then None
    else LastDollar(text, p + 2, RunEnd(text, p + 1))
  }

  /** A match starts at `p` exactly when `GreedyEnd` finds one, and it ends at
      the last `$` any match starting at `p` could end at. */
  lemma GreedyEndCorrect(text: string, p: nat)
    requires p < |text|
    ensures GreedyEnd(text, p).None? ==> forall q :: !IsMatchAt(text, p, q)
    ensures GreedyEnd(text, p).Some? ==> IsMatchAt(text, p, GreedyEnd(text, p).value)
    ensures GreedyEnd(text, p).Some? ==> forall q :: IsMatchAt(text, p, q) ==> q <= GreedyEnd(text, p).value
  {
    if text[p] == '$' {
      var run := RunEnd(text, p + 1);
      RunEndCorrect(text, p + 1);
      LastDollarCorrect(text, p + 2, run);
      assert forall q :: IsMatchAt(text, p, q) ==> q < run;
    }
  }

  /** `PATTERN.find(text, from)`: the leftmost match starting at or after `from`,
      extended greedily. Its contract gives only where the match lies; what
      makes it the right match is `FindPlaceholderCorrect`. */
  function FindPlaceholder(text: string, from: nat): (r: Option<Match>)
    requires from <= |text|
    ensures r.Some? ==> from <= r.value.start && r.value.start + 2 <= r.value.end < |text|
    decreases |text| - from
  {
    if from == |text| then None
    else
      match GreedyEnd(text, from)
      case Some(q) => Some(Match(from, q))
      case None => FindPlaceholder(text, from + 1)
  }

  /** `find` reports a match exactly when one exists at or after `from`; the
      reported one is an occurrence of the pattern, no occurrence starts
      earlier, and none starting at the same place ends later. */
  lemma {:induction false} FindPlaceholderCorrect(text: string, from: nat)
    requires from <= |text|
    ensures FindPlaceholder(text, from).None? ==> forall p, q :: from <= p ==> !IsMatchAt(text, p, q)
    ensures FindPlaceholder(text, from).Some? ==>
              var m := FindPlaceholder(text, from).value;
              IsMatchAt(text, m.start, m.end)
              && (forall p, q :: from <= p < m.start ==> !IsMatchAt(text, p, q))
              && (forall q :: IsMatchAt(text, m.start, q) ==> q <= m.end)
    decreases |text| - from
  {
    if from < |text| {
      GreedyEndCorrect(text, from);
      if GreedyEnd(text, from).None? {
        FindPlaceholderCorrect(text, from + 1);
      }
    }
  }

  /** The matches are in order and do not overlap, each starts at or after
      `from` and lies inside a text of length `n`. */
  predicate Ordered(ms: seq<Match>, from: nat, n: nat)
  {
    (forall i :: 0 <= i < |ms| ==> from <= ms[i].start && ms[i].start + 2 <= ms[i].end < n)
    && (forall i, j :: 0 <= i < j < |ms| ==> ms[i].end < ms[j].start)
  }

  /** Every match found by `find` from `from` and then by repeated `next()`. */
  function PlaceholdersFrom(text: string, from: nat): (ms: seq<Match>)
    requires from <= |text|
    ensures Ordered(ms, from, |text|)
    decreases |text| - from
  {
    match FindPlaceholder(text, from)
    case None => []
    case Some(m) =>
      var rest := PlaceholdersFrom(text, m.end + 1);
      assert forall i :: 1 <= i < |rest| + 1 ==> ([m] + rest)[i] == rest[i - 1];
      [m] + rest
  }

  /** The `i`-th of the matches, if there are that many: what the scan loop's
      `find`/`next()` holds after `i` steps. */
  function NextMatch(ms: seq<Match>, i: nat): (r: Option<Match>)
    ensures r.Some? <==> i < |ms|
    ensures r.Some? ==> r.value == ms[i]
  {
    if i < |ms| then Some(ms[i]) else None
  }

  /** `find` from `from` reports the first of the matches from `from`. */
  lemma FindFirst(text: string, from: nat)
    requires from <= |text|
    ensures FindPlaceholder(text, from) == NextMatch(PlaceholdersFrom(text, from), 0)
  {
  }

  /** `next()` after the `i`-th match reports the `i + 1`-st, or nothing after
      the last. */
  lemma {:induction false} FindNext(text: string, from: nat, i: nat)
    requires from <= |text| && i < |PlaceholdersFrom(text, from)|
    ensures FindPlaceholder(text, PlaceholdersFrom(text, from)[i].end + 1)
            == NextMatch(PlaceholdersFrom(text, from), i + 1)
    decreases i
  {
    var ms := PlaceholdersFrom(text, from);
    var rest := PlaceholdersFrom(text, ms[0].end + 1);
    assert ms[1..] == rest;
    if i == 0 {
      FindFirst(text, ms[0].end + 1);
    } else {
      FindNext(text, ms[0].end + 1, i - 1);
    }
  }

  /** Every reported match is an occurrence of the pattern. */
  lemma {:induction false} PlaceholdersAreMatches(text: string, from: nat)
    requires from <= |text|
    ensures forall i :: 0 <= i < |PlaceholdersFrom(text, from)| ==>
              IsMatchAt(text, PlaceholdersFrom(text, from)[i].start, PlaceholdersFrom(text, from)[i].end)
    decreases |text| - from
  {
    FindPlaceholderCorrect(text, from);
    match FindPlaceholder(text, from)
    case None =>
    case Some(m) =>
      PlaceholdersAreMatches(text, m.end + 1);
      var rest := PlaceholdersFrom(text, m.end + 1);
      var ms := PlaceholdersFrom(text, from);
      assert ms == [m] + rest;
      forall i | 0 <= i < |ms| ensures IsMatchAt(text, ms[i].start, ms[i].end) {
        if i > 0 {
          assert ms[i] == rest[i - 1];
        }
      }
  }

  /** The placeholders the scan loop visits, in order. */
  function Placeholders(text: string): seq<Match>
  {
    PlaceholdersFrom(text, 0)
  }

  /** The keys the scan loop hands to its provider, in order. */
  function Keys(text: string, ms: seq<Match>): (keys: seq<string>)
    requires forall i :: 0 <= i < |ms| ==> ms[i].start < ms[i].end < |text|
    ensures |keys| == |ms|
    ensures forall i :: 0 <= i < |ms| ==> keys[i] == text[ms[i].start + 1..ms[i].end]
    decreases |ms|
  {
    if ms == [] then [] else [Key(text, ms[0])] + Keys(text, ms[1..])
  }

  function PlaceholderKeys(text: string): seq<string>
  {
    Keys(text, Placeholders(text))
  }

  /** Matches are maximal: every `$...$` occurrence that starts where the scan
      looks (at or after `from`) is either reported or lies inside an earlier
      reported match, and a reported match never ends before the last `$` of
      its non-whitespace run. */
  lemma PlaceholdersCover(text: string, from: nat, p: nat, q: nat)
    requires from <= p && IsMatchAt(text, p, q)
    ensures exists i :: 0 <= i < |PlaceholdersFrom(text, from)|
              && PlaceholdersFrom(text, from)[i].start <= p <= PlaceholdersFrom(text, from)[i].end
  {
    var i := CoveringMatch(text, from, p, q);
  }

  /** The position of the visited match that covers the occurrence at `p`. */
  lemma {:induction false} CoveringMatch(text: string, from: nat, p: nat, q: nat) returns (i: nat)
    requires from <= p && IsMatchAt(text, p, q)
    ensures i < |PlaceholdersFrom(text, from)|
    ensures PlaceholdersFrom(text, from)[i].start <= p <= PlaceholdersFrom(text, from)[i].end
    decreases |text| - from
  {
    var ms := PlaceholdersFrom(text, from);
    FindPlaceholderCorrect(text, from);
    match FindPlaceholder(text, from)
    case None =>
      assert false;
    case Some(m) =>
      assert ms[0] == m;
      if p > m.end {
        var j := CoveringMatch(text, m.end + 1, p, q);
        var rest := PlaceholdersFrom(text, m.end + 1);
        assert ms[1..] == rest;
        assert ms[j + 1] == rest[j];
        i := j + 1;
      } else {
        assert m.start <= p;
        i := 0;
      }
  }

  /** `$a$b$` is one placeholder with key `a$b`. */
  lemma GreedyExample()
    ensures PlaceholderKeys("$a$b$") == ["a$b"]
  {
    var t := "$a$b$";
    assert FindPlaceholder(t, 0) == Some(Match(0, 4));
    assert FindPlaceholder(t, 5) == None;
    assert PlaceholdersFrom(t, 5) == [];
    assert Placeholders(t) == [Match(0, 4)];
    assert Key(t, Match(0, 4)) == "a$b";
  }

  /** `$$$` is one placeholder with key `$`. */
  lemma DollarKeyExample()
    ensures PlaceholderKeys("$$$") == ["$"]
  {
    var t := "$$$";
    assert FindPlaceholder(t, 0) == Some(Match(0, 2));
    assert FindPlaceholder(t, 3) == None;
    assert PlaceholdersFrom(t, 3) == [];
    assert Placeholders(t) == [Match(0, 2)];
    assert Key(t, Match(0, 2)) == "$";
  }

  /** Whitespace ends a key: `$a b$` holds no placeholder. */
  lemma WhitespaceExample()
    ensures Placeholders("$a b$") == []
  {
    var t := "$a b$";
    assert !IsMatchAt(t, 0, 4) by { assert IsRegexSpace(t[2]); }
    assert FindPlaceholder(t, 0) == None;
  }
}
