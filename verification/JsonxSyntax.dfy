/** config.py, character by character: what opens and closes a comment, a string and a trailing comma. */
module JsonxSyntax {
  import opened Jsonx
  import opened JsonxLines

  predicate OneLine(t: string) {
    forall k :: 0 <= k < |t| ==> t[k] != '\n'
  }

  lemma {:induction false} LineRuns(a: string, b: string)
    requires OneLine(a) && (b == "" || b[0] == '\n')
    ensures AfterLine(a + b) == b
  {
    if a == "" {
      assert a + b == b;
    } else {
      LineRuns(a[1..], b);
      assert (a + b)[1..] == a[1..] + b;
    }
  }

  // From # or // on, a line is dropped up to its end.
  lemma LineCommentGoes(opener: string, a: string, b: string)
    requires (opener == "#" || opener == "//") && OneLine(a) && (b == "" || b[0] == '\n')
    ensures Strip(opener + a + b, Code) == Strip(b, Code)
  {
    assert OneLine(opener + a);
    LineRuns(opener + a, b);
  }

  // No end of a block comment.
  predicate Unclosed(t: string) {
    forall k :: 0 <= k < |t| - 1 ==> !(t[k] == '*' && t[k + 1] == '/')
  }

  // The newlines among these characters.
  function OnlyNewlines(t: string): string {
    if t == "" then "" else (if t[0] == '\n' then "\n" else "") + OnlyNewlines(t[1..])
  }

  lemma {:induction false} BlockRuns(a: string, b: string)
    requires Unclosed(a)
    ensures AfterBlock(a + "*/" + b) == b && BlockNewlines(a + "*/" + b) == OnlyNewlines(a)
  {
    var t := a + "*/" + b;
    if a == "" {
      assert t == "*/" + b && t[2..] == b;
    } else {
      forall k | 0 <= k < |a[1..]| - 1 ensures !(a[1..][k] == '*' && a[1..][k + 1] == '/') {
        assert !(a[k + 1] == '*' && a[k + 2] == '/');
      }
      BlockRuns(a[1..], b);
      assert t[1..] == a[1..] + "*/" + b && t[0] == a[0];
      assert |a| > 1 ==> t[1] == a[1];
      assert |a| == 1 ==> t[1] == '*';
    }
  }

  // A comment between /* and the first */ leaves its newlines and nothing else.
  lemma BlockCommentGoes(a: string, b: string)
    requires Unclosed(a)
    ensures Strip("/*" + a + "*/" + b, Code) == OnlyNewlines(a) + Strip(b, Code)
  {
    BlockRuns(a, b);
    assert ("/*" + a + "*/" + b)[2..] == a + "*/" + b;
  }

  // The inside of a string: pairs of a backslash and any character, or other characters, but no quote.
  predicate Quotable(t: string) {
    if t == "" then true
    else if t[0] == '\\' then |t| > 1 && Quotable(t[2..])
    else t[0] != '"' && Quotable(t[1..])
  }

  lemma Copy(c: char, t: string, mode: Mode)
    requires mode != Code
    ensures Strip([c] + t, mode) == [c] + Strip(t, InStringNext(mode, c))
    ensures DropCommas([c] + t, mode) == [c] + DropCommas(t, InStringNext(mode, c))
  {
    assert ([c] + t)[1..] == t;
  }

  lemma CopyPair(c: char, t: string)
    ensures Strip(['\\'] + ([c] + t), InString) == ['\\'] + ([c] + Strip(t, InString))
    ensures DropCommas(['\\'] + ([c] + t), InString) == ['\\'] + ([c] + DropCommas(t, InString))
  {
    Copy('\\', [c] + t, InString);
    Copy(c, t, Escaped);
  }

  lemma Pair(a: string, t: string)
    requires |a| > 1
    ensures a + t == [a[0]] + ([a[1]] + (a[2..] + t))
  {
  }

  lemma {:induction false} StringRuns(a: string, rest: string)
    requires Quotable(a)
    ensures Strip(a + rest, InString) == a + Strip(rest, InString)
    decreases |a|
  {
    if a == "" {
      assert a + rest == rest && a + Strip(rest, InString) == Strip(rest, InString);
    } else if a[0] == '\\' {
      StringRuns(a[2..], rest);
      CopyPair(a[1], a[2..] + rest);
      Pair(a, rest);
      Pair(a, Strip(rest, InString));
    } else {
      StringRuns(a[1..], rest);
      Copy(a[0], a[1..] + rest, InString);
      assert a + rest == [a[0]] + (a[1..] + rest);
    }
  }

  lemma {:induction false} StringKept(a: string, rest: string)
    requires Quotable(a)
    ensures DropCommas(a + rest, InString) == a + DropCommas(rest, InString)
    decreases |a|
  {
    if a == "" {
      assert a + rest == rest && a + DropCommas(rest, InString) == DropCommas(rest, InString);
    } else if a[0] == '\\' {
      StringKept(a[2..], rest);
      CopyPair(a[1], a[2..] + rest);
      Pair(a, rest);
      Pair(a, DropCommas(rest, InString));
    } else {
      StringKept(a[1..], rest);
      Copy(a[0], a[1..] + rest, InString);
      assert a + rest == [a[0]] + (a[1..] + rest);
    }
  }

  lemma OpenQuote(t: string)
    ensures Strip("\"" + t, Code) == "\"" + Strip(t, InString)
    ensures DropCommas("\"" + t, Code) == "\"" + DropCommas(t, InString)
  {
    assert ("\"" + t)[1..] == t;
  }

  // A string literal passes through both scans, whatever stands in it.
  lemma StringStays(a: string, b: string)
    requires Quotable(a)
    ensures Strip("\"" + (a + ("\"" + b)), Code) == "\"" + (a + ("\"" + Strip(b, Code)))
    ensures DropCommas("\"" + (a + ("\"" + b)), Code) == "\"" + (a + ("\"" + DropCommas(b, Code)))
  {
    OpenQuote(a + ("\"" + b));
    StringRuns(a, "\"" + b);
    StringKept(a, "\"" + b);
    Copy('"', b, InString);
  }

  // Any other character stays; a slash does unless a slash or an asterisk follows.
  lemma CharacterStays(c: char, b: string)
    requires c != '"' && c != '#' && (c == '/' ==> b == "" || (b[0] != '/' && b[0] != '*'))
    ensures Strip([c] + b, Code) == [c] + Strip(b, Code)
    ensures c != ',' ==> DropCommas([c] + b, Code) == [c] + DropCommas(b, Code)
  {
    assert ([c] + b)[1..] == b;
  }

  predicate Blank(t: string) {
    forall k :: 0 <= k < |t| ==> t[k] == ' ' || t[k] == '\t' || t[k] == '\r' || t[k] == '\n'
  }

  lemma {:induction false} BlankRuns(w: string, c: char, b: string)
    requires Blank(w) && !(c == ' ' || c == '\t' || c == '\r' || c == '\n')
    ensures AfterWhite(w + [c] + b) == [c] + b
    ensures DropCommas(w + [c] + b, Code) == w + DropCommas([c] + b, Code)
  {
    if w == "" {
      assert w + [c] + b == [c] + b;
    } else {
      BlankRuns(w[1..], c, b);
      assert (w + [c] + b)[1..] == w[1..] + [c] + b;
      assert [w[0]] + w[1..] == w;
    }
  }

  // A comma goes when the next character, white space aside, is } or ], and only then.
  lemma CommaGoes(w: string, c: char, b: string)
    requires Blank(w) && !(c == ' ' || c == '\t' || c == '\r' || c == '\n')
    ensures DropCommas("," + (w + [c] + b), Code) ==
      (if c == '}' || c == ']' then w + DropCommas([c] + b, Code) else "," + (w + DropCommas([c] + b, Code)))
  {
    BlankRuns(w, c, b);
    assert ("," + (w + [c] + b))[1..] == w + [c] + b;
  }

  // --- lines ------------------------------------------------------------------------------------

  // LF, VT, FF, CR, the separators FS, GS and RS, NEL, and the line and paragraph separators.
  predicate LineEnd(c: char) {
    c as int in {0x0A, 0x0B, 0x0C, 0x0D, 0x1C, 0x1D, 0x1E, 0x85, 0x2028, 0x2029}
  }

  lemma {:induction false} LineRead(current: string, line: string, rest: string)
    requires forall k :: 0 <= k < |line| ==> !LineEnd(line[k])
    ensures LinesFrom(current, line + rest) == LinesFrom(current + line, rest)
    decreases line
  {
    if line == "" {
      assert line + rest == rest && current + line == current;
    } else {
      LineRead(current + [line[0]], line[1..], rest);
      assert (line + rest)[1..] == line[1..] + rest;
      assert current + [line[0]] + line[1..] == current + line;
    }
  }

  // splitlines: a line ends at any of these characters, at CR LF once, and at the end of the text.
  lemma LineSplits(line: string, c: char, rest: string)
    requires forall k :: 0 <= k < |line| ==> !LineEnd(line[k])
    ensures LineEnd(c) && !(c == '\r' && rest != "" && rest[0] == '\n') ==>
      SplitLines(line + ([c] + rest)) == [line] + SplitLines(rest)
    ensures SplitLines(line + ("\r\n" + rest)) == [line] + SplitLines(rest)
    ensures SplitLines(line) == if line == "" then [] else [line]
  {
    LineRead("", line, [c] + rest);
    LineRead("", line, "\r\n" + rest);
    LineRead("", line, "");
    assert "" + line == line && line + "" == line;
    assert ([c] + rest)[1..] == rest;
    assert ("\r\n" + rest)[1..] == "\n" + rest && ("\n" + rest)[1..] == rest;
  }
}
