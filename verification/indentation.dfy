/** `getIndent` and `indentText`, the two helpers that keep a multi-line
    replacement aligned with the column of its placeholder. Both engines carry
    identical copies of them. */
module Indentation {
  import opened Common

  // ---------------------------------------------------------------------------
  // getIndent
  // ---------------------------------------------------------------------------

  /** The indent `getIndent(text, offset)` computes: the number of characters
      walked back from `offset` before a newline is met, where the walk stops
      before index 0 and never looks at it. */
  function Indent(text: string, offset: nat): (r: nat)
    requires offset <= |text|
    ensures offset == 0 ==> r == 0
    ensures offset > 0 ==> r <= offset - 1
    ensures forall k :: offset - r <= k < offset ==> text[k] != '\n'
    ensures offset > 0 && r < offset - 1 ==> text[offset - 1 - r] == '\n'
    decreases offset
  {
    if offset <= 1 || text[offset - 1] == '\n' then 0 else 1 + Indent(text, offset - 1)
  }

  /** Reference definition: the column of `offset`, i.e. the number of
      characters since the preceding newline or since the start of the text. */
  function Column(text: string, offset: nat): nat
    requires offset <= |text|
    decreases offset
  {
    if offset == 0 || text[offset - 1] == '\n' then 0 else 1 + Column(text, offset - 1)
  }

  /** `getIndent` agrees with the column whenever some newline precedes
      `offset`; on the first line of the text it is one short, because index 0
      is never inspected. */
  lemma {:induction false} IndentVersusColumn(text: string, offset: nat)
    requires offset <= |text|
    ensures (exists k :: 0 <= k < offset && text[k] == '\n') ==> Indent(text, offset) == Column(text, offset)
    ensures offset > 0 && (forall k :: 0 <= k < offset ==> text[k] != '\n') ==>
              Indent(text, offset) == Column(text, offset) - 1
    decreases offset
  {
    if offset > 1 && text[offset - 1] != '\n' {
      IndentVersusColumn(text, offset - 1);
      if exists k :: 0 <= k < offset && text[k] == '\n' {
        var k :| 0 <= k < offset && text[k] == '\n';
        assert k < offset - 1;
      }
    }
  }

  /** `getIndent`: `while (--currentOffset > 0)` walks back to the previous
      newline, counting the characters it passes. */
  method GetIndent(text: string, offset: nat) returns (result: nat)
    requires offset <= |text|
    ensures result == Indent(text, offset)
  {
    result := 0;
    var currentOffset: int := offset - 1;
    while currentOffset > 0
      invariant -1 <= currentOffset < offset
      invariant currentOffset == offset - 1 - result
      invariant result + Indent(text, currentOffset + 1) == Indent(text, offset)
    {
      if text[currentOffset] == '\n' {
        break;
      }
      result := result + 1;
      currentOffset := currentOffset - 1;
    }
  }

  // ---------------------------------------------------------------------------
  // Kotlin's lines(), joining with "\n", isBlank
  // ---------------------------------------------------------------------------

  /** Kotlin's `Char.isWhitespace()` on the JVM: `Character.isWhitespace` or
      `Character.isSpaceChar`. */
  predicate IsKotlinWhitespace(c: char)
  {
    c == '\t' || c == '\n' || c == '\U{0B}' || c == '\U{0C}' || c == '\r'
    || ('\U{1C}' <= c <= '\U{1F}')
    || c == ' ' || c == '\U{A0}' || c == '\U{1680}'
    || ('\U{2000}' <= c <= '\U{200A}')
    || c == '\U{2028}' || c == '\U{2029}' || c == '\U{202F}' || c == '\U{205F}' || c == '\U{3000}'
  }

  /** Kotlin's `isBlank()`: empty or only whitespace. */
  predicate IsBlank(line: string)
  {
    forall i :: 0 <= i < |line| ==> IsKotlinWhitespace(line[i])
  }

  predicate IsLineBreak(c: char)
  {
    c == '\n' || c == '\r'
  }

  /** The text holds no line terminator. */
  predicate IsSingleLine(line: string)
  {
    forall i :: 0 <= i < |line| ==> !IsLineBreak(line[i])
  }

  /** Kotlin's `lines()`: split at every `\r\n`, `\n` or `\r`; a text with `n`
      terminators has `n + 1` lines, the last possibly empty. */
  function Lines(text: string): (ls: seq<string>)
    ensures |ls| >= 1
    ensures forall i :: 0 <= i < |ls| ==> IsSingleLine(ls[i])
    decreases |text|
  {
    if text == [] then [""]
    else if text[0] == '\n' then [""] + Lines(text[1..])
    else if text[0] == '\r' then
      if |text| > 1 && text[1] == '\n' then [""] + Lines(text[2..]) else [""] + Lines(text[1..])
    else
      var rest := Lines(text[1..]);
      [[text[0]] + rest[0]] + rest[1..]
  }

  /** The lines rejoined with `\n`, as `buildString` does. */
  function Join(ls: seq<string>): string
    decreases |ls|
  {
    if ls == [] then "" else if |ls| == 1 then ls[0] else ls[0] + "\n" + Join(ls[1..])
  }

  lemma {:induction false} JoinSnoc(ls: seq<string>, line: string)
    requires ls != []
    ensures Join(ls + [line]) == Join(ls) + "\n" + line
    decreases |ls|
  {
    if |ls| > 1 {
      JoinSnoc(ls[1..], line);
      assert (ls + [line])[1..] == ls[1..] + [line];
    }
  }

  /** Joining one more line of `ls`. */
  lemma JoinPrefix(ls: seq<string>, i: nat)
    requires i < |ls|
    ensures Join(ls[..i + 1]) == if i == 0 then ls[0] else Join(ls[..i]) + "\n" + ls[i]
  {
    assert ls[..i + 1] == ls[..i] + [ls[i]];
    if i > 0 {
      JoinSnoc(ls[..i], ls[i]);
    }
  }

  /** Splitting after joining gives the lines back, when no line holds a
      terminator. */
  lemma {:induction false} LinesOfJoin(ls: seq<string>)
    requires |ls| >= 1
    requires forall i :: 0 <= i < |ls| ==> IsSingleLine(ls[i])
    ensures Lines(Join(ls)) == ls
    decreases |ls|
  {
    if |ls| == 1 {
      LinesOfPrefix(ls[0], "");
      assert ls[0] + "" == ls[0];
    } else {
      LinesOfJoin(ls[1..]);
      var tail := "\n" + Join(ls[1..]);
      LinesOfPrefix(ls[0], tail);
      assert ls[0] + "\n" + Join(ls[1..]) == ls[0] + tail;
      assert tail[1..] == Join(ls[1..]);
      assert Lines(tail) == [""] + ls[1..];
      assert ls[0] + "" == ls[0];
    }
  }

  /** A line without terminators glues onto the first line of what follows. */
  lemma {:induction false} LinesOfPrefix(line: string, rest: string)
    requires IsSingleLine(line)
    ensures Lines(line + rest) == [line + Lines(rest)[0]] + Lines(rest)[1..]
    decreases |line|
  {
    if line != [] {
      LinesOfPrefix(line[1..], rest);
      var whole := line + rest;
      assert whole[0] == line[0] && !IsLineBreak(whole[0]);
      assert whole[1..] == line[1..] + rest;
      assert [line[0]] + (line[1..] + Lines(rest)[0]) == line + Lines(rest)[0];
    } else {
      assert line + rest == rest;
      var ls := Lines(rest);
      assert line + ls[0] == ls[0];
      assert ls == [ls[0]] + ls[1..];
    }
  }

  /** Joining the lines of a text without `\r` gives the text back. */
  lemma {:induction false} JoinOfLines(text: string)
    requires forall i :: 0 <= i < |text| ==> text[i] != '\r'
    ensures Join(Lines(text)) == text
    decreases |text|
  {
    if text != [] {
      JoinOfLines(text[1..]);
      var rest := Lines(text[1..]);
      if text[0] == '\n' {
        assert Lines(text) == [""] + rest;
        assert ([""] + rest)[1..] == rest;
      } else {
        var ls := Lines(text);
        assert ls == [[text[0]] + rest[0]] + rest[1..];
        if |rest| == 1 {
          assert Join(ls) == [text[0]] + rest[0];
        } else {
          assert ls[1..] == rest[1..];
          assert Join(ls) == [text[0]] + (rest[0] + "\n" + Join(rest[1..]));
        }
        assert text == [text[0]] + text[1..];
      }
    }
  }

  // ---------------------------------------------------------------------------
  // indentText
  // ---------------------------------------------------------------------------

  /** `" ".repeat(n)` */
  function Spaces(n: nat): (s: string)
    ensures |s| == n && forall i :: 0 <= i < n ==> s[i] == ' '
  {
    seq(n, _ => ' ')
  }

  /** A later line: prefixed with the indent unless it is blank. */
  function PadLine(line: string, indent: nat): string
  {
    if IsBlank(line) then line else Spaces(indent) + line
  }

  /** The first line as it is, every later line padded. */
  function IndentLines(ls: seq<string>, indent: nat): (r: seq<string>)
    ensures |r| == |ls|
  {
    seq(|ls|, i requires 0 <= i < |ls| => if i == 0 then ls[i] else PadLine(ls[i], indent))
  }

  /** What `indentText(text, indent)` returns. */
  function Indented(text: string, indent: nat): string
  {
    Join(IndentLines(Lines(text), indent))
  }

  /** `indentText`: one pass over `text.lines()` appending to a builder. */
  method IndentText(text: string, indent: nat) returns (r: string)
    ensures r == Indented(text, indent)
  {
    var indentString := Spaces(indent);
    var ls := Lines(text);
    ghost var target := IndentLines(ls, indent);
    r := "";
    var firstLine := true;
    for i := 0 to |ls|
      invariant firstLine <==> i == 0
      invariant r == Join(target[..i])
    {
      if !firstLine {
        r := r + "\n";
      }
      if !firstLine && !IsBlank(ls[i]) {
        r := r + indentString;
      }
      r := r + ls[i];
      JoinPrefix(target, i);
      firstLine := false;
    }
    assert target[..|ls|] == target;
  }

  /** `indentText` keeps the line structure: the result has exactly the lines
      of the input, the first unchanged and every later non-blank line
      prefixed with `indent` spaces. In particular the line count is kept. */
  lemma IndentedLines(text: string, indent: nat)
    ensures Lines(Indented(text, indent)) == IndentLines(Lines(text), indent)
    ensures |Lines(Indented(text, indent))| == |Lines(text)|
  {
    var ls := IndentLines(Lines(text), indent);
    forall i | 0 <= i < |ls| ensures IsSingleLine(ls[i]) {
      if i > 0 && !IsBlank(Lines(text)[i]) {
        var line := Lines(text)[i];
        assert ls[i] == Spaces(indent) + line;
        forall j | 0 <= j < |ls[i]| ensures !IsLineBreak(ls[i][j]) {
          if j >= indent {
            assert ls[i][j] == line[j - indent];
          }
        }
      }
    }
    LinesOfJoin(ls);
  }

  /** With a zero indent, `indentText` gives back any text without `\r`. */
  lemma IndentedZero(text: string)
    requires forall i :: 0 <= i < |text| ==> text[i] != '\r'
    ensures Indented(text, 0) == text
  {
    var ls := Lines(text);
    assert IndentLines(ls, 0) == ls by {
      forall i | 0 <= i < |ls| ensures IndentLines(ls, 0)[i] == ls[i] {
        assert Spaces(0) + ls[i] == ls[i];
      }
    }
    JoinOfLines(text);
  }

  /** `lines()` also splits at `\r\n`, so a Windows line end becomes `\n`. */
  lemma IndentedNormalisesLineEnds()
    ensures Indented("a\r\nb", 0) == "a\nb"
  {
    assert "b"[1..] == "";
    assert Lines("") == [""];
    assert ['b'] + "" == "b";
    assert [""][1..] == [];
    assert Lines("b") == ["b"];
    assert "\r\nb"[2..] == "b";
    assert Lines("\r\nb") == ["", "b"];
    assert "a\r\nb"[1..] == "\r\nb";
    assert ['a'] + "" == "a";
    assert ["", "b"][1..] == ["b"];
    assert Lines("a\r\nb") == ["a", "b"];
    assert !IsBlank("b") by { assert !IsKotlinWhitespace("b"[0]); }
    assert PadLine("b", 0) == "b";
    assert IndentLines(["a", "b"], 0) == ["a", "b"];
  }
}
