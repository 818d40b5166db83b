/** config.py: the two string-aware scanners that turn JSONX into JSON. */
module Jsonx {
  import opened Sequences

  // in_string and escaped.
  datatype Mode = Code | InString | Escaped

  function InStringNext(mode: Mode, c: char): Mode {
    if mode == Escaped then InString
    else if c == '\\' then Escaped
    else if c == '"' then Code
    else InString
  }

  // --- comments ---------------------------------------------------------------------------------

  predicate LineComment(t: string) {
    t != [] && (t[0] == '#' || (t[0] == '/' && |t| > 1 && t[1] == '/'))
  }

  predicate BlockComment(t: string) {
    |t| > 1 && t[0] == '/' && t[1] == '*'
  }

  function AfterLine(t: string): (rest: string)
    ensures |rest| <= |t| && (rest == [] || rest[0] == '\n')
  {
    if t == [] || t[0] == '\n' then t else AfterLine(t[1..])
  }

  // Past the two characters that close a block; nothing is left of an unterminated one.
  function AfterBlock(t: string): (rest: string)
    ensures |rest| <= |t|
  {
    if |t| < 2 then []
    else if t[0] == '*' && t[1] == '/' then t[2..]
    else AfterBlock(t[1..])
  }

  // The newlines kept from inside a block; the last character of an unterminated one is never looked at.
  function BlockNewlines(t: string): string {
    if |t| < 2 || (t[0] == '*' && t[1] == '/') then []
    else (if t[0] == '\n' then "\n" else "") + BlockNewlines(t[1..])
  }

  function Strip(t: string, mode: Mode): string
    decreases |t|
  {
    if t == [] then []
    else if mode != Code then [t[0]] + Strip(t[1..], InStringNext(mode, t[0]))
    else if t[0] == '"' then [t[0]] + Strip(t[1..], InString)
    else if LineComment(t) then
      Shorter(t);
      Strip(AfterLine(t), Code)
    else if BlockComment(t) then BlockNewlines(t[2..]) + Strip(AfterBlock(t[2..]), Code)
    else [t[0]] + Strip(t[1..], Code)
  }

  lemma Shorter(t: string)
    requires LineComment(t)
    ensures |AfterLine(t)| < |t|
  {
  }

  function From(text: string, i: nat): string {
    if i < |text| then text[i..] else []
  }

  // What is still to be scanned completes what has been written.
  ghost predicate Done(text: string, i: nat, mode: Mode, out: string) {
    out + Strip(From(text, i), mode) == Strip(text, Code)
  }

  // The mode after a character that is copied.
  function CopyMode(mode: Mode, c: char): Mode {
    if mode != Code then InStringNext(mode, c) else if c == '"' then InString else Code
  }

  lemma Copied(text: string, i: nat, mode: Mode, out: string)
    requires i < |text| && Done(text, i, mode, out)
    requires mode == Code ==> text[i] == '"' || (!LineComment(text[i..]) && !BlockComment(text[i..]))
    ensures Done(text, i + 1, CopyMode(mode, text[i]), out + [text[i]])
  {
    assert text[i..][1..] == From(text, i + 1);
    Reassociate(out, [text[i]], Strip(From(text, i + 1), CopyMode(mode, text[i])));
  }

  lemma Skipped(text: string, i: nat, out: string, kept: string, end: nat)
    requires i < |text| && Done(text, i, Code, out) && text[i] != '"'
    requires
      || (LineComment(text[i..]) && kept == [] && From(text, end) == AfterLine(text[i..]))
      || (!LineComment(text[i..]) && BlockComment(text[i..])
        && kept == BlockNewlines(text[i..][2..]) && From(text, end) == AfterBlock(text[i..][2..]))
    ensures Done(text, end, Code, out + kept)
  {
    Reassociate(out, kept, Strip(From(text, end), Code));
    assert [] + Strip(From(text, end), Code) == Strip(From(text, end), Code);
  }

  // _strip_comments
  method StripComments(text: string) returns (result: string)
    ensures result == Strip(text, Code)
  {
    var out: string := [];
    var i, n := 0, |text|;
    var mode := Code;
    assert text[0..] == text;
    while i < n
      invariant Done(text, i, mode, out)
      decreases n - i
    {
      var c := text[i];
      if mode != Code {
        Copied(text, i, mode, out);
        out := out + [c];
        mode := InStringNext(mode, c);
        i := i + 1;
        continue;
      }
      if c == '"' {
        Copied(text, i, mode, out);
        mode := InString;
        out := out + [c];
      } else if c == '#' || (c == '/' && i + 1 < n && text[i + 1] == '/') {
        var end := SkipLine(text, i);
        Skipped(text, i, out, [], end);
        i := end;
        continue;
      } else if c == '/' && i + 1 < n && text[i + 1] == '*' {
        var kept, end := SkipBlock(text, i + 2);
        Skipped(text, i, out, kept, end);
        out := out + kept;
        i := end;
        continue;
      } else {
        Copied(text, i, mode, out);
        out := out + [c];
      }
      i := i + 1;
    }
    return out;
  }

  lemma Advance(text: string, i: nat)
    requires i < |text|
    ensures text[i..][1..] == text[i + 1..]
  {
  }

  method SkipLine(text: string, start: nat) returns (i: nat)
    requires start < |text| && LineComment(text[start..])
    ensures start < i <= |text| && From(text, i) == AfterLine(text[start..])
  {
    i := start;
    Shorter(text[start..]);
    while i < |text| && text[i] != '\n'
      invariant start <= i <= |text| && AfterLine(text[i..]) == AfterLine(text[start..])
    {
      Advance(text, i);
      i := i + 1;
    }
  }

  // The inner loop over a block, and the step over its end, which may be the end of the text.
  method SkipBlock(text: string, start: nat) returns (kept: string, i: nat)
    requires start <= |text|
    ensures kept == BlockNewlines(text[start..]) && i >= start
    ensures From(text, i) == AfterBlock(text[start..])
  {
    kept := [];
    i := start;
    while i + 1 < |text| && !(text[i] == '*' && text[i + 1] == '/')
      invariant start <= i <= |text|
      invariant AfterBlock(text[i..]) == AfterBlock(text[start..])
      invariant kept + BlockNewlines(text[i..]) == BlockNewlines(text[start..])
    {
      Advance(text, i);
      if text[i] == '\n' {
        kept := kept + "\n";
      }
      i := i + 1;
    }
    i := i + 2;
  }

  // --- what comment stripping promises ----------------------------------------------------------

  // Nothing in the output of a scan that starts with a lone slash can complete a comment opener.
  lemma AfterSlash(t: string)
    requires t != [] && t[0] == '/' && !LineComment(t) && !BlockComment(t)
    ensures var s := Strip(t[1..], Code); s == [] || (s[0] != '/' && s[0] != '*')
  {
    var u := t[1..];
    if u != [] && LineComment(u) {
      var rest := AfterLine(u);
      assert u[0] == '#';
      if rest != [] {
        assert Strip(rest, Code)[0] == '\n';
      }
    }
  }

  lemma {:induction false} NewlinesPass(t: string, s: string)
    ensures Strip(BlockNewlines(t) + s, Code) == BlockNewlines(t) + Strip(s, Code)
  {
    if |t| < 2 || (t[0] == '*' && t[1] == '/') {
      assert [] + s == s && [] + Strip(s, Code) == Strip(s, Code);
    } else {
      NewlinesPass(t[1..], s);
      if t[0] == '\n' {
        var more := BlockNewlines(t[1..]);
        Reassociate("\n", more, s);
        assert ("\n" + (more + s))[1..] == more + s;
        Reassociate("\n", more, Strip(s, Code));
      } else {
        assert "" + BlockNewlines(t[1..]) == BlockNewlines(t[1..]);
      }
    }
  }

  // Stripping twice is stripping once, for every text.
  lemma {:induction false} StripIdempotent(t: string, mode: Mode)
    ensures Strip(Strip(t, mode), mode) == Strip(t, mode)
    decreases |t|
  {
    if t == [] {
    } else if mode == Code && t[0] != '"' && LineComment(t) {
      Shorter(t);
      StripIdempotent(AfterLine(t), Code);
    } else if mode == Code && t[0] != '"' && BlockComment(t) {
      StripIdempotent(AfterBlock(t[2..]), Code);
      NewlinesPass(t[2..], Strip(AfterBlock(t[2..]), Code));
    } else {
      var s := Strip(t[1..], CopyMode(mode, t[0]));
      StripIdempotent(t[1..], CopyMode(mode, t[0]));
      assert ([t[0]] + s)[1..] == s;
      if mode == Code && t[0] == '/' {
        AfterSlash(t);
      }
    }
  }

  // The string literals outside comments, with their quotes; `current` is the part of one already read.
  function Literals(t: string, mode: Mode, current: string): seq<string>
    decreases |t|
  {
    if t == [] then (if mode == Code then [] else [current])
    else if mode != Code then
      var next := InStringNext(mode, t[0]);
      if next == Code then [current + [t[0]]] + Literals(t[1..], Code, [])
      else Literals(t[1..], next, current + [t[0]])
    else if t[0] == '"' then Literals(t[1..], InString, [t[0]])
    else if LineComment(t) then
      Shorter(t);
      Literals(AfterLine(t), Code, [])
    else if BlockComment(t) then Literals(AfterBlock(t[2..]), Code, [])
    else Literals(t[1..], Code, [])
  }

  lemma {:induction false} NewlinesHoldNoLiterals(t: string, s: string)
    ensures Literals(BlockNewlines(t) + s, Code, []) == Literals(s, Code, [])
  {
    if |t| < 2 || (t[0] == '*' && t[1] == '/') {
      assert [] + s == s;
    } else {
      NewlinesHoldNoLiterals(t[1..], s);
      var more := BlockNewlines(t[1..]);
      assert ("\n" + more + s)[1..] == more + s;
      assert "" + more == more;
    }
  }

  // Every string literal outside comments survives unchanged, in order, and no new one appears.
  lemma {:induction false} LiteralsSurvive(t: string, mode: Mode, current: string)
    ensures Literals(Strip(t, mode), mode, current) == Literals(t, mode, current)
    decreases |t|
  {
    if t == [] {
    } else if mode == Code && t[0] != '"' && LineComment(t) {
      Shorter(t);
      LiteralsSurvive(AfterLine(t), Code, current);
    } else if mode == Code && t[0] != '"' && BlockComment(t) {
      LiteralsSurvive(AfterBlock(t[2..]), Code, []);
      NewlinesHoldNoLiterals(t[2..], Strip(AfterBlock(t[2..]), Code));
    } else {
      var next := CopyMode(mode, t[0]);
      var s := Strip(t[1..], next);
      assert ([t[0]] + s)[1..] == s;
      if mode == Code && t[0] == '/' {
        AfterSlash(t);
      }
      LiteralsSurvive(t[1..], next, if next == Code then [] else if mode == Code then [t[0]] else current + [t[0]]);
    }
  }

  function Newlines(t: string): nat {
    if t == [] then 0 else (if t[0] == '\n' then 1 else 0) + Newlines(t[1..])
  }

  lemma {:induction false} NewlinesAppend(a: string, b: string)
    ensures Newlines(a + b) == Newlines(a) + Newlines(b)
  {
    if a == [] {
      assert a + b == b;
    } else {
      NewlinesAppend(a[1..], b);
      assert (a + b)[1..] == a[1..] + b;
    }
  }

  predicate Closes(t: string) {
    if |t| < 2 then false else if t[0] == '*' && t[1] == '/' then true else Closes(t[1..])
  }

  // The text ends inside a block comment.
  predicate EndsInBlock(t: string, mode: Mode)
    decreases |t|
  {
    if t == [] then false
    else if mode != Code then EndsInBlock(t[1..], InStringNext(mode, t[0]))
    else if t[0] == '"' then EndsInBlock(t[1..], InString)
    else if LineComment(t) then
      Shorter(t);
      EndsInBlock(AfterLine(t), Code)
    else if BlockComment(t) then !Closes(t[2..]) || EndsInBlock(AfterBlock(t[2..]), Code)
    else EndsInBlock(t[1..], Code)
  }

  predicate EndsInNewline(t: string) {
    t != [] && t[|t| - 1] == '\n'
  }

  lemma {:induction false} LineNewlines(t: string)
    ensures Newlines(AfterLine(t)) == Newlines(t)
    ensures EndsInNewline(AfterLine(t)) <==> EndsInNewline(t)
  {
    if t != [] && t[0] != '\n' {
      LineNewlines(t[1..]);
    }
  }

  // A block keeps its newlines, but for one that is the last character of an unterminated block.
  lemma {:induction false} BlockKeepsNewlines(t: string)
    ensures Newlines(BlockNewlines(t)) + Newlines(AfterBlock(t)) + (if !Closes(t) && EndsInNewline(t) then 1 else 0)
         == Newlines(t)
    ensures !Closes(t) ==> AfterBlock(t) == []
    ensures Closes(t) && AfterBlock(t) != [] ==> (EndsInNewline(AfterBlock(t)) <==> EndsInNewline(t))
  {
    if |t| < 2 {
      if |t| == 1 {
        assert t[1..] == [];
      }
    } else if t[0] == '*' && t[1] == '/' {
      assert t[1..][1..] == t[2..];
    } else {
      BlockKeepsNewlines(t[1..]);
      assert "" + BlockNewlines(t[1..]) == BlockNewlines(t[1..]);
      if t[0] == '\n' {
        assert ("\n" + BlockNewlines(t[1..]))[1..] == BlockNewlines(t[1..]);
      }
    }
  }

  // Newlines, and with them the records, are preserved; just one is lost, exactly when the text ends
  // with a newline inside a block comment that is never closed.
  lemma {:induction false} NewlinesPreserved(t: string, mode: Mode)
    ensures Newlines(Strip(t, mode)) + (if EndsInBlock(t, mode) && EndsInNewline(t) then 1 else 0) == Newlines(t)
    decreases |t|
  {
    if t == [] {
    } else if mode == Code && t[0] != '"' && LineComment(t) {
      Shorter(t);
      LineNewlines(t);
      NewlinesPreserved(AfterLine(t), Code);
    } else if mode == Code && t[0] != '"' && BlockComment(t) {
      BlockNewlineCount(t);
      NewlinesPreserved(AfterBlock(t[2..]), Code);
      NewlinesAppend(BlockNewlines(t[2..]), Strip(AfterBlock(t[2..]), Code));
    } else {
      var s := Strip(t[1..], CopyMode(mode, t[0]));
      assert ([t[0]] + s)[1..] == s;
      NewlinesPreserved(t[1..], CopyMode(mode, t[0]));
      if |t| == 1 {
        assert t[1..] == [];
      }
    }
  }

  lemma NewlineLost()
    ensures Strip("/*\n", Code) == ""
  {
    assert "/*\n"[2..] == "\n";
  }

  lemma BlockNewlineCount(t: string)
    requires BlockComment(t)
    ensures Newlines(BlockNewlines(t[2..])) + Newlines(AfterBlock(t[2..]))
      + (if !Closes(t[2..]) && EndsInNewline(t) then 1 else 0) == Newlines(t)
    ensures !Closes(t[2..]) ==> AfterBlock(t[2..]) == []
    ensures Closes(t[2..]) && AfterBlock(t[2..]) != [] ==> (EndsInNewline(AfterBlock(t[2..])) <==> EndsInNewline(t))
  {
    BlockKeepsNewlines(t[2..]);
    assert t[1..][1..] == t[2..];
    if t[2..] != [] {
      assert t[2..][|t| - 3] == t[|t| - 1];
    }
  }

  // --- trailing commas --------------------------------------------------------------------------

  predicate White(c: char) {
    c == ' ' || c == '\t' || c == '\r' || c == '\n'
  }

  predicate Bracket(c: char) {
    c == '}' || c == ']'
  }

  function AfterWhite(t: string): (rest: string)
    ensures |rest| <= |t| && (rest != [] ==> !White(rest[0]))
  {
    if t == [] || !White(t[0]) then t else AfterWhite(t[1..])
  }

  predicate BeforeBracket(t: string) {
    AfterWhite(t) != [] && Bracket(AfterWhite(t)[0])
  }

  predicate Trailing(t: string) {
    t != [] && t[0] == ',' && BeforeBracket(t[1..])
  }

  function DropCommas(t: string, mode: Mode): (s: string)
    ensures |s| <= |t|
  {
    if t == [] then []
    else if mode == Code && Trailing(t) then DropCommas(t[1..], Code)
    else [t[0]] + DropCommas(t[1..], CopyMode(mode, t[0]))
  }

  // _strip_trailing_commas
  method StripTrailingCommas(text: string) returns (result: string)
    ensures result == DropCommas(text, Code)
  {
    var out: string := [];
    var i, n := 0, |text|;
    var mode := Code;
    assert text[0..] == text;
    while i < n
      invariant 0 <= i <= n && out + DropCommas(text[i..], mode) == DropCommas(text, Code)
    {
      var c := text[i];
      CopyStep(text, i, mode, out);
      if mode != Code {
        out := out + [c];
        mode := InStringNext(mode, c);
        i := i + 1;
        continue;
      }
      if c == '"' {
        mode := InString;
        out := out + [c];
      } else if c == ',' {
        var j := SkipWhite(text, i + 1);
        if j < n && Bracket(text[j]) {
          i := i + 1;
          continue;
        }
        out := out + [c];
      } else {
        out := out + [c];
      }
      i := i + 1;
    }
    assert text[i..] == [];
    return out;
  }

  lemma CopyStep(text: string, i: nat, mode: Mode, out: string)
    requires i < |text| && out + DropCommas(text[i..], mode) == DropCommas(text, Code)
    ensures
      if mode == Code && Trailing(text[i..]) then out + DropCommas(text[i + 1..], Code) == DropCommas(text, Code)
      else (out + [text[i]]) + DropCommas(text[i + 1..], CopyMode(mode, text[i])) == DropCommas(text, Code)
    ensures Trailing(text[i..]) <==> text[i] == ',' && BeforeBracket(text[i + 1..])
  {
    Advance(text, i);
    Reassociate(out, [text[i]], DropCommas(text[i + 1..], CopyMode(mode, text[i])));
  }

  method SkipWhite(text: string, start: nat) returns (j: nat)
    requires start <= |text|
    ensures start <= j <= |text| && text[j..] == AfterWhite(text[start..])
  {
    j := start;
    while j < |text| && White(text[j])
      invariant start <= j <= |text| && AfterWhite(text[j..]) == AfterWhite(text[start..])
    {
      Advance(text, j);
      j := j + 1;
    }
  }

  // The mode in which the scan meets position i.
  function ModeAt(text: string, i: nat): Mode
    requires i <= |text|
  {
    if i == 0 then Code else CopyMode(ModeAt(text, i - 1), text[i - 1])
  }

  // A comma outside strings whose next character other than white space closes an object or a list.
  ghost predicate TrailingAt(text: string, i: nat)
    requires i < |text|
  {
    && text[i] == ',' && ModeAt(text, i) == Code
    && exists j :: i < j < |text| && (text[j] == '}' || text[j] == ']') && AllWhite(text[i + 1..j])
  }

  predicate AllWhite(t: string) {
    forall k :: 0 <= k < |t| ==> t[k] == ' ' || t[k] == '\t' || t[k] == '\r' || t[k] == '\n'
  }

  // The text from position i on, without its trailing commas.
  ghost function WithoutTrailing(text: string, i: nat): string
    requires i <= |text|
    decreases |text| - i
  {
    if i == |text| then []
    else (if TrailingAt(text, i) then [] else [text[i]]) + WithoutTrailing(text, i + 1)
  }

  lemma {:induction false} BracketAhead(t: string)
    ensures BeforeBracket(t) <==> exists j :: 0 <= j < |t| && Bracket(t[j]) && AllWhite(t[..j])
  {
    if t == [] {
    } else if !White(t[0]) {
      if Bracket(t[0]) {
        assert AllWhite(t[..0]);
      }
      forall j | 0 < j < |t| ensures !AllWhite(t[..j]) {
        assert t[..j][0] == t[0];
      }
    } else {
      BracketAhead(t[1..]);
      forall j | 0 <= j < |t[1..]| && AllWhite(t[1..][..j]) ensures AllWhite(t[..j + 1]) && t[j + 1] == t[1..][j] {
        assert t[..j + 1] == [t[0]] + t[1..][..j];
      }
      forall j | 0 < j < |t| && AllWhite(t[..j]) ensures AllWhite(t[1..][..j - 1]) && t[1..][j - 1] == t[j] {
        assert t[1..][..j - 1] == t[..j][1..];
      }
    }
  }

  lemma TrailingHere(text: string, i: nat)
    requires i < |text| && ModeAt(text, i) == Code
    ensures TrailingAt(text, i) <==> Trailing(text[i..])
  {
    Advance(text, i);
    var t := text[i + 1..];
    BracketAhead(t);
    forall j | i < j < |text| ensures text[i + 1..j] == t[..j - i - 1] && text[j] == t[j - i - 1] {
    }
    if BeforeBracket(t) {
      var j :| 0 <= j < |t| && Bracket(t[j]) && AllWhite(t[..j]);
      assert AllWhite(text[i + 1..j + i + 1]) && Bracket(text[j + i + 1]);
    }
  }

  // Exactly the trailing commas are deleted, and nothing else.
  lemma {:induction false} ExactlyTrailingCommas(text: string, i: nat)
    requires i <= |text|
    ensures DropCommas(text[i..], ModeAt(text, i)) == WithoutTrailing(text, i)
    decreases |text| - i
  {
    if i < |text| {
      Advance(text, i);
      ExactlyTrailingCommas(text, i + 1);
      if ModeAt(text, i) == Code {
        TrailingHere(text, i);
      }
    }
  }

  // --- when a second pass would find more -------------------------------------------------------

  // A comma that is kept, but only because the next thing to come is a trailing comma.
  predicate Doubled(t: string, mode: Mode) {
    t != [] && ((mode == Code && t[0] == ',' && !Trailing(t) && Trailing(AfterWhite(t[1..])))
      || Doubled(t[1..], CopyMode(mode, t[0])))
  }

  lemma {:induction false} BracketStays(t: string)
    ensures BeforeBracket(DropCommas(t, Code)) <==> BeforeBracket(t) || Trailing(AfterWhite(t))
  {
    if t != [] {
      BracketStays(t[1..]);
      var s := DropCommas(t[1..], CopyMode(Code, t[0]));
      assert ([t[0]] + s)[1..] == s;
      if Trailing(t) {
        assert !Trailing(AfterWhite(t[1..]));
      }
    }
  }

  // Stripping twice is stripping once exactly for the texts without such a doubled comma.
  lemma {:induction false} CommasIdempotent(t: string, mode: Mode)
    ensures DropCommas(DropCommas(t, mode), mode) == DropCommas(t, mode) <==> !Doubled(t, mode)
  {
    if t != [] {
      var next := CopyMode(mode, t[0]);
      CommasIdempotent(t[1..], next);
      if !(mode == Code && Trailing(t)) {
        var s := DropCommas(t[1..], next);
        assert ([t[0]] + s)[1..] == s;
        if mode == Code && t[0] == ',' {
          BracketStays(t[1..]);
        }
      }
    }
  }

  lemma DoubledComma()
    ensures DropCommas("{1,,}", Code) == "{1,}" && DropCommas("{1,}", Code) == "{1}"
  {
    assert DropCommas("}", Code) == "}" && DropCommas(",}", Code) == "}";
    assert ",,}"[1..] == ",}" && "1,,}"[1..] == ",,}" && "{1,,}"[1..] == "1,,}";
    assert "1,}"[1..] == ",}" && "{1,}"[1..] == "1,}";
    assert DropCommas(",,}", Code) == ",}";
    assert DropCommas("1,,}", Code) == "1,}" && DropCommas("1,}", Code) == "1}";
  }

  lemma {:induction false} CommasKeepNewlines(t: string, mode: Mode)
    ensures Newlines(DropCommas(t, mode)) == Newlines(t)
  {
    if t != [] {
      CommasKeepNewlines(t[1..], CopyMode(mode, t[0]));
      var s := DropCommas(t[1..], CopyMode(mode, t[0]));
      assert ([t[0]] + s)[1..] == s;
    }
  }

  // The number of newlines is kept by both scans together, but for the one that comment stripping can lose.
  // On which lines the records stand is the subject of JsonxLines.
  lemma LinesKept(text: string)
    ensures Newlines(DropCommas(Strip(text, Code), Code)) ==
      Newlines(text) - (if EndsInBlock(text, Code) && EndsInNewline(text) then 1 else 0)
  {
    NewlinesPreserved(text, Code);
    CommasKeepNewlines(Strip(text, Code), Code);
  }
}
