/** The scan loop `expand(text, provider)` that both engines share: every
    placeholder that the provider resolves is replaced by the provider's value
    re-indented to the placeholder's column; a placeholder it does not resolve
    stays as it is; the text between replacements is copied unchanged.

    The provider is consulted once per placeholder, left to right. Its answers
    (`outcomes`, one per placeholder in `Placeholder.Placeholders(text)`) are
    what the buffer is assembled from; each engine computes them with its own
    resolver, which is where cycles are detected. */
module Expansion {
  import opened Common
  import opened Placeholder
  import opened Indentation

  /** What the loop appends for a placeholder the provider resolves to `v`:
      `v` re-indented to the placeholder's `getIndent`. */
  function Piece(text: string, m: Match, v: string): string
    requires m.start <= |text|
  {
    Indented(v, Indent(text, m.start))
  }

  /** The loop's `start` after the first `i` matches: just past the last
      replaced one, or 0 if none was replaced. It never passes the next match. */
  function Consumed(text: string, ms: seq<Match>, os: seq<Option<string>>, i: nat): (start: nat)
    requires |os| == |ms| && i <= |ms| && Ordered(ms, 0, |text|)
    ensures start <= |text|
    ensures i < |ms| ==> start <= ms[i].start
    ensures start > 0 <==> exists k :: 0 <= k < i && os[k].Some?
  {
    if i == 0 then 0
    else if os[i - 1].Some? then ms[i - 1].end + 1
    else Consumed(text, ms, os, i - 1)
  }

  /** The loop's buffer after the first `i` matches: for every replaced match,
      the text since the previous replacement followed by its piece. */
  function Buffer(text: string, ms: seq<Match>, os: seq<Option<string>>, i: nat): string
    requires |os| == |ms| && i <= |ms| && Ordered(ms, 0, |text|)
  {
    if i == 0 then ""
    else if os[i - 1].None? then Buffer(text, ms, os, i - 1)
    else Buffer(text, ms, os, i - 1) + text[Consumed(text, ms, os, i - 1)..ms[i - 1].start] + Piece(text, ms[i - 1], os[i - 1].value)
  }

  /** The buffer once every match is visited: the rest of the text is
      appended only when some placeholder was replaced. */
  function Assembled(text: string, ms: seq<Match>, os: seq<Option<string>>): string
    requires |os| == |ms| && Ordered(ms, 0, |text|)
  {
    var start := Consumed(text, ms, os, |ms|);
    Buffer(text, ms, os, |ms|) + if start > 0 then text[start..] else ""
  }

  /** The result of the scan loop: the assembled buffer, or the original text
      when the buffer is empty. */
  function Splice(text: string, os: seq<Option<string>>): string
    requires |os| == |Placeholders(text)|
  {
    var ms := Placeholders(text);
    var buffer := Assembled(text, ms, os);
    if buffer == [] then text else buffer
  }

  /** The provider's answers when it is a plain map lookup (`replacements[it]`). */
  function Lookups(m: map<string, string>, keys: seq<string>): (os: seq<Option<string>>)
    ensures |os| == |keys|
    ensures forall i :: 0 <= i < |keys| ==> os[i] == if keys[i] in m then Some(m[keys[i]]) else None
  {
    seq(|keys|, i requires 0 <= i < |keys| => if keys[i] in m then Some(m[keys[i]]) else None)
  }

  /** `expand(text) { m[it] }`: the text expanded against a finished map. */
  function ExpandAgainst(text: string, m: map<string, string>): string
  {
    Splice(text, Lookups(m, PlaceholderKeys(text)))
  }

  /** `MatchResult.next()` after the `i`-th placeholder: the `i + 1`-st, or
      nothing after the last. */
  method NextPlaceholder(text: string, ghost ms: seq<Match>, ghost i: nat, m: Match) returns (found: Option<Match>)
    requires ms == Placeholders(text) && i < |ms| && m == ms[i]
    ensures found == NextMatch(ms, i + 1)
  {
    found := FindPlaceholder(text, m.end + 1);
    FindNext(text, 0, i);
  }

  /** The loop body for a resolved placeholder `m`: append the text since the
      previous replacement, then the value re-indented to `m`'s indent. */
  method AppendReplacement(text: string, m: Match, start: nat, buffer: string, value: string) returns (r: string)
    requires start <= m.start <= |text|
    ensures r == buffer + text[start..m.start] + Piece(text, m, value)
  {
    var indent := GetIndent(text, m.start);
    var piece := IndentText(value, indent);
    r := buffer + text[start..m.start] + piece;
  }

  /** The scan loop: `find`, then `next()` after every match, appending the
      text before each replaced placeholder and its re-indented value to a
      buffer, and the rest of the text at the end. */
  method ExpandWith(text: string, outcomes: seq<Option<string>>) returns (r: string)
    requires |outcomes| == |Placeholders(text)|
    ensures r == Splice(text, outcomes)
  {
    ghost var ms := Placeholders(text);
    var found := FindPlaceholder(text, 0);
    FindFirst(text, 0);
    var start: nat := 0;
    var buffer := "";
    var i := 0;
    while found.Some?
      invariant i <= |ms|
      invariant found == NextMatch(ms, i)
      invariant start == Consumed(text, ms, outcomes, i)
      invariant buffer == Buffer(text, ms, outcomes, i)
      decreases |ms| - i
    {
      var m := found.value;
      if outcomes[i].Some? {
        buffer := AppendReplacement(text, m, start, buffer, outcomes[i].value);
        start := m.end + 1;
      }
      // otherwise the provider could not resolve the key: the placeholder stays
      found := NextPlaceholder(text, ms, i, m);
      i := i + 1;
    }
    if start > 0 {
      buffer := buffer + text[start..];
    }
    r := if buffer == [] then text else buffer;
  }

  /** The scan loop with a map as provider, as the task applies the finished
      replacements to every init script. */
  method ExpandWithMap(text: string, m: map<string, string>) returns (r: string)
    ensures r == ExpandAgainst(text, m)
  {
    var outcomes := Lookups(m, PlaceholderKeys(text));
    r := ExpandWith(text, outcomes);
  }

  // ---------------------------------------------------------------------------
  // What the scan loop guarantees
  // ---------------------------------------------------------------------------

  /** Nothing is appended to the buffer before the first replacement. */
  lemma {:induction false} NothingConsumedEmptyBuffer(text: string, ms: seq<Match>, os: seq<Option<string>>, i: nat)
    requires |os| == |ms| && i <= |ms| && Ordered(ms, 0, |text|)
    requires Consumed(text, ms, os, i) == 0
    ensures Buffer(text, ms, os, i) == ""
    decreases i
  {
    if i > 0 {
      NothingConsumedEmptyBuffer(text, ms, os, i - 1);
    }
  }

  /** When the provider resolves nothing the text comes back unchanged. */
  lemma NothingResolved(text: string, os: seq<Option<string>>)
    requires |os| == |Placeholders(text)|
    requires forall i :: 0 <= i < |os| ==> os[i].None?
    ensures Splice(text, os) == text
  {
    var ms := Placeholders(text);
    NothingConsumedEmptyBuffer(text, ms, os, |ms|);
  }

  /** A text whose placeholders name no key of the map (in particular a text
      with no placeholder at all) expands to itself. */
  lemma UnknownKeysUnchanged(text: string, m: map<string, string>)
    requires forall k :: k in PlaceholderKeys(text) ==> k !in m
    ensures ExpandAgainst(text, m) == text
  {
    var keys := PlaceholderKeys(text);
    var os := Lookups(m, keys);
    forall i | 0 <= i < |os| ensures os[i].None? {
      assert keys[i] in keys;
    }
    NothingResolved(text, os);
  }

  /** The literal `$key$` of the unresolved `j`-th placeholder is, after the
      first `k` matches, either still ahead of the loop's `start` or already
      copied into the buffer. */
  lemma {:induction false} UnresolvedKept(text: string, ms: seq<Match>, os: seq<Option<string>>, j: nat, k: nat)
    requires |os| == |ms| && j < k <= |ms| && Ordered(ms, 0, |text|)
    requires os[j].None?
    ensures Consumed(text, ms, os, k) <= ms[j].start
            || IsInfix(text[ms[j].start..ms[j].end + 1], Buffer(text, ms, os, k))
    decreases k
  {
    if k > j + 1 {
      UnresolvedKept(text, ms, os, j, k - 1);
      if os[k - 1].Some? {
        var lit := text[ms[j].start..ms[j].end + 1];
        if IsInfix(lit, Buffer(text, ms, os, k - 1)) {
          KeptInBuffer(text, ms, os, lit, k - 1);
        } else {
          KeptInCopy(text, ms, os, j, k - 1);
        }
      }
    }
  }

  /** Appending a replacement keeps what the buffer already holds. */
  lemma KeptInBuffer(text: string, ms: seq<Match>, os: seq<Option<string>>, lit: string, i: nat)
    requires |os| == |ms| && i < |ms| && Ordered(ms, 0, |text|) && os[i].Some?
    requires IsInfix(lit, Buffer(text, ms, os, i))
    ensures IsInfix(lit, Buffer(text, ms, os, i + 1))
  {
    var before := Buffer(text, ms, os, i);
    var tail := text[Consumed(text, ms, os, i)..ms[i].start] + Piece(text, ms[i], os[i].value);
    InfixGrows(lit, before, "", tail);
    AppendAssoc(before, text[Consumed(text, ms, os, i)..ms[i].start], Piece(text, ms[i], os[i].value));
    assert "" + before + tail == before + tail;
  }

  /** An unresolved placeholder not yet consumed is copied with the text
      before the next resolved one. */
  lemma KeptInCopy(text: string, ms: seq<Match>, os: seq<Option<string>>, j: nat, i: nat)
    requires |os| == |ms| && j < i < |ms| && Ordered(ms, 0, |text|) && os[i].Some?
    requires Consumed(text, ms, os, i) <= ms[j].start
    ensures IsInfix(text[ms[j].start..ms[j].end + 1], Buffer(text, ms, os, i + 1))
  {
    InfixOfSlice(text, Consumed(text, ms, os, i), ms[j].start, ms[j].end + 1, ms[i].start,
                 Buffer(text, ms, os, i), Piece(text, ms[i], os[i].value));
  }

  /** A placeholder the provider leaves unresolved appears verbatim in the
      expanded text. */
  lemma UnresolvedSurvives(text: string, os: seq<Option<string>>, j: nat)
    requires |os| == |Placeholders(text)|
    requires j < |os| && os[j].None?
    ensures IsInfix(text[Placeholders(text)[j].start..Placeholders(text)[j].end + 1], Splice(text, os))
  {
    UnresolvedInOutput(text, Placeholders(text), os, j);
  }

  /** The same, for any ordered matches. */
  lemma UnresolvedInOutput(text: string, ms: seq<Match>, os: seq<Option<string>>, j: nat)
    requires |os| == |ms| && Ordered(ms, 0, |text|) && j < |ms| && os[j].None?
    ensures var out := Assembled(text, ms, os);
            IsInfix(text[ms[j].start..ms[j].end + 1], if out == [] then text else out)
  {
    var lit := text[ms[j].start..ms[j].end + 1];
    var start := Consumed(text, ms, os, |ms|);
    var buffer := Buffer(text, ms, os, |ms|);
    var tail := if start > 0 then text[start..] else "";
    assert Assembled(text, ms, os) == buffer + tail;
    UnresolvedKept(text, ms, os, j, |ms|);
    if IsInfix(lit, buffer) {
      InfixGrows(lit, buffer, "", tail);
      assert "" + buffer + tail == buffer + tail;
      NonEmptyWithInfix(lit, buffer + tail);
    } else if start > 0 {
      InfixOfSlice(text, start, ms[j].start, ms[j].end + 1, |text|, buffer, "");
      assert buffer + text[start..|text|] + "" == buffer + tail;
      NonEmptyWithInfix(lit, buffer + tail);
    } else {
      NothingConsumedEmptyBuffer(text, ms, os, |ms|);
      InfixOfSlice(text, 0, ms[j].start, ms[j].end + 1, |text|, "", "");
      assert "" + text[0..|text|] + "" == text;
    }
  }

  /** A sequence holding a non-empty infix is not empty. */
  lemma NonEmptyWithInfix<T>(part: seq<T>, whole: seq<T>)
    requires IsInfix(part, whole) && part != []
    ensures whole != []
  {
    var k :| InfixAt(part, whole, k);
  }

  /** A text with a single placeholder, resolved to `v`: the text before it,
      then `v` re-indented to the placeholder's `getIndent`, then the text after
      it; or the original text if all three are empty. */
  lemma SingleReplacement(text: string, v: string)
    requires |Placeholders(text)| == 1
    ensures var m := Placeholders(text)[0];
            var out := text[..m.start] + Indented(v, Indent(text, m.start)) + text[m.end + 1..];
            Splice(text, [Some(v)]) == if out == "" then text else out
  {
    var ms := Placeholders(text);
    var m := ms[0];
    var os := [Some(v)];
    assert Consumed(text, ms, os, 1) == m.end + 1;
    assert Buffer(text, ms, os, 1) == text[0..m.start] + Piece(text, m, v);
    assert text[0..m.start] == text[..m.start];
  }

  /** `$a$` is the one placeholder of `$a$`. */
  lemma OnePlaceholderA()
    ensures Placeholders("$a$") == [Match(0, 2)]
    ensures PlaceholderKeys("$a$") == ["a"]
  {
    var t := "$a$";
    assert FindPlaceholder(t, 0) == Some(Match(0, 2));
    assert FindPlaceholder(t, 3) == None;
    assert PlaceholdersFrom(t, 3) == [];
    assert Key(t, Match(0, 2)) == "a";
  }

  /** A replacement that leaves the buffer empty gives the original text back:
      `$a$` with `a` bound to the empty string expands to `$a$`. */
  lemma EmptyBufferQuirk()
    ensures ExpandAgainst("$a$", map["a" := ""]) == "$a$"
  {
    var t := "$a$";
    OnePlaceholderA();
    assert Lines("") == [""];
    assert Indented("", 0) == "";
    SingleReplacement(t, "");
  }

  /** `    $B$` holds one placeholder, four columns in, whose indent is 3. */
  lemma BlockPlaceholder()
    ensures Placeholders("    $B$") == [Match(4, 6)]
    ensures PlaceholderKeys("    $B$") == ["B"]
    ensures Indent("    $B$", 4) == 3
  {
    var t := "    $B$";
    assert GreedyEnd(t, 4) == Some(6);
    assert FindPlaceholder(t, 0) == Some(Match(4, 6));
    assert FindPlaceholder(t, 7) == None;
    assert PlaceholdersFrom(t, 7) == [];
    assert Key(t, Match(4, 6)) == "B";
  }

  /** Two lines indented by three columns: only the second is padded. */
  lemma TwoLinesIndented()
    ensures Indented("x\ny", 3) == "x\n   y"
  {
    var v := "x\ny";
    assert Lines(v) == ["x", "y"] by {
      assert Join(["x", "y"]) == v;
      assert IsSingleLine("x") && IsSingleLine("y");
      LinesOfJoin(["x", "y"]);
    }
    assert !IsBlank("y") by { assert !IsKotlinWhitespace("y"[0]); }
    assert Spaces(3) == "   ";
    assert PadLine("y", 3) == "   y";
    var ls := IndentLines(["x", "y"], 3);
    assert ls[0] == "x" && ls[1] == "   y";
    assert ls == ["x", "   y"];
  }

  /** On the first line of a text the second and later lines of a
      replacement are indented one column short: four spaces before the
      placeholder give a three-space indent. */
  lemma FirstLineIndentExample()
    ensures ExpandAgainst("    $B$", map["B" := "x\ny"]) == "    x\n   y"
  {
    var t := "    $B$";
    BlockPlaceholder();
    TwoLinesIndented();
    SingleReplacement(t, "x\ny");
    assert t[..4] == "    ";
    assert t[7..] == "";
  }
}
