/** config.py, parse_jsonx: on which line of the cleaned text a record stands, and which line it is reported on. */
module JsonxLines {
  import opened Jsonx
  import opened Sequences

  // What parse_jsonx splits into lines.
  function Clean(text: string): string {
    DropCommas(Strip(text, Code), Code)
  }

  // --- cutting a text in two ----------------------------------------------------------------------

  // Where the comment scanner is.
  datatype Where = At(mode: Mode) | InLine | InBlock

  function StripAt(t: string, w: Where): string {
    match w
    case At(mode) => Strip(t, mode)
    case InLine => Strip(AfterLine(t), Code)
    case InBlock => BlockNewlines(t) + Strip(AfterBlock(t), Code)
  }

  predicate ClosesBlock(t: string) {
    |t| > 1 && t[0] == '*' && t[1] == '/'
  }

  // Where the scanner is after a piece of text that is not followed by a slash or a star.
  function Ends(a: string, w: Where): Where
    decreases |a|
  {
    if a == [] then w
    else match w
      case At(mode) =>
        if mode == Code && LineComment(a) then Ends(a[1..], InLine)
        else if mode == Code && BlockComment(a) then Ends(a[2..], InBlock)
        else Ends(a[1..], At(CopyMode(mode, a[0])))
      case InLine => Ends(a[1..], if a[0] == '\n' then At(Code) else InLine)
      case InBlock => if ClosesBlock(a) then Ends(a[2..], At(Code)) else Ends(a[1..], InBlock)
  }

  // What it has written by then.
  function Written(a: string, w: Where): string
    decreases |a|
  {
    if a == [] then []
    else match w
      case At(mode) =>
        if mode == Code && LineComment(a) then Written(a[1..], InLine)
        else if mode == Code && BlockComment(a) then Written(a[2..], InBlock)
        else [a[0]] + Written(a[1..], At(CopyMode(mode, a[0])))
      case InLine => if a[0] == '\n' then "\n" + Written(a[1..], At(Code)) else Written(a[1..], InLine)
      case InBlock =>
        if ClosesBlock(a) then Written(a[2..], At(Code))
        else (if a[0] == '\n' then "\n" else "") + Written(a[1..], InBlock)
  }

  // A text that does not complete a comment mark begun before it.
  predicate Fresh(u: string) {
    u != [] && u[0] != '/' && u[0] != '*'
  }

  lemma MarksStay(a: string, u: string)
    requires a != [] && Fresh(u)
    ensures LineComment(a + u) <==> LineComment(a)
    ensures BlockComment(a + u) <==> BlockComment(a)
    ensures ClosesBlock(a + u) <==> ClosesBlock(a)
    ensures (a + u)[0] == a[0] && (a + u)[1..] == a[1..] + u
    ensures |a| > 1 ==> (a + u)[2..] == a[2..] + u
  {
  }

  lemma StripHead(t: string, mode: Mode)
    requires t != []
    ensures Strip(t, mode) ==
      if mode == Code && LineComment(t) then StripAt(t[1..], InLine)
      else if mode == Code && BlockComment(t) then StripAt(t[2..], InBlock)
      else [t[0]] + Strip(t[1..], CopyMode(mode, t[0]))
  {
  }

  lemma BlockHead(t: string)
    requires |t| > 1
    ensures StripAt(t, InBlock) ==
      if ClosesBlock(t) then Strip(t[2..], Code)
      else (if t[0] == '\n' then "\n" else "") + StripAt(t[1..], InBlock)
  {
    if ClosesBlock(t) {
      assert [] + Strip(t[2..], Code) == Strip(t[2..], Code);
    } else {
      Reassociate(if t[0] == '\n' then "\n" else "", BlockNewlines(t[1..]), Strip(AfterBlock(t[1..]), Code));
    }
  }

  lemma LineHead(t: string)
    requires t != []
    ensures StripAt(t, InLine) == if t[0] == '\n' then "\n" + Strip(t[1..], Code) else StripAt(t[1..], InLine)
  {
  }

  // The scanner writes what it writes for the first part, then goes on from where that left it.
  ghost predicate Cuts(a: string, u: string, w: Where) {
    StripAt(a + u, w) == Written(a, w) + StripAt(u, Ends(a, w))
  }

  lemma CutInMode(a: string, u: string, mode: Mode)
    requires Fresh(u) && a != []
    requires
      if mode == Code && LineComment(a) then Cuts(a[1..], u, InLine)
      else if mode == Code && BlockComment(a) then Cuts(a[2..], u, InBlock)
      else Cuts(a[1..], u, At(CopyMode(mode, a[0])))
    ensures Cuts(a, u, At(mode))
  {
    MarksStay(a, u);
    StripHead(a + u, mode);
  }

  lemma CutInLine(a: string, u: string)
    requires Fresh(u) && a != [] && Cuts(a[1..], u, if a[0] == '\n' then At(Code) else InLine)
    ensures Cuts(a, u, InLine)
  {
    assert (a + u)[0] == a[0] && (a + u)[1..] == a[1..] + u;
    LineHead(a + u);
    if a[0] == '\n' {
      Reassociate("\n", Written(a[1..], At(Code)), StripAt(u, Ends(a[1..], At(Code))));
    }
  }

  lemma CutInBlock(a: string, u: string)
    requires Fresh(u) && a != []
    requires if ClosesBlock(a) then Cuts(a[2..], u, At(Code)) else Cuts(a[1..], u, InBlock)
    ensures Cuts(a, u, InBlock)
  {
    MarksStay(a, u);
    BlockHead(a + u);
    if !ClosesBlock(a) {
      Reassociate(if a[0] == '\n' then "\n" else "", Written(a[1..], InBlock), StripAt(u, Ends(a, InBlock)));
    }
  }

  lemma {:induction false} CutAnywhere(a: string, u: string, w: Where)
    requires Fresh(u)
    ensures Cuts(a, u, w)
    decreases |a|
  {
    if a == [] {
      assert a + u == u && [] + StripAt(u, w) == StripAt(u, w);
    } else {
      match w
      case At(mode) =>
        if mode == Code && LineComment(a) {
          CutAnywhere(a[1..], u, InLine);
        } else if mode == Code && BlockComment(a) {
          CutAnywhere(a[2..], u, InBlock);
        } else {
          CutAnywhere(a[1..], u, At(CopyMode(mode, a[0])));
        }
        CutInMode(a, u, mode);
      case InLine =>
        CutAnywhere(a[1..], u, if a[0] == '\n' then At(Code) else InLine);
        CutInLine(a, u);
      case InBlock =>
        if ClosesBlock(a) {
          CutAnywhere(a[2..], u, At(Code));
        } else {
          CutAnywhere(a[1..], u, InBlock);
        }
        CutInBlock(a, u);
    }
  }

  // Outside block comments the part written is all there is.
  lemma {:induction false} WrittenAll(a: string, w: Where)
    requires !Ends(a, w).InBlock?
    ensures Written(a, w) == StripAt(a, w)
    decreases |a|
  {
    if a != [] {
      match w
      case At(mode) =>
        StripHead(a, mode);
        if mode == Code && LineComment(a) {
          WrittenAll(a[1..], InLine);
        } else if mode == Code && BlockComment(a) {
          WrittenAll(a[2..], InBlock);
        } else {
          WrittenAll(a[1..], At(CopyMode(mode, a[0])));
        }
      case InLine =>
        LineHead(a);
        WrittenAll(a[1..], if a[0] == '\n' then At(Code) else InLine);
      case InBlock =>
        if ClosesBlock(a) {
          BlockHead(a);
          WrittenAll(a[2..], At(Code));
        } else if |a| > 1 {
          BlockHead(a);
          WrittenAll(a[1..], InBlock);
        }
    }
  }

  // --- line by line -------------------------------------------------------------------------------

  // The comment scanner treats the lines before and after a newline by themselves.
  ghost predicate SplitsAt(a: string, b: string) {
    Strip(a + "\n" + b, Code) == Strip(a, Code) + "\n" + Strip(b, Code)
  }

  predicate Outside(w: Where) {
    w == At(Code) || w == InLine
  }

  lemma AfterNewline(a: string, b: string)
    ensures Strip(a + "\n" + b, Code) == Written(a, At(Code)) + StripAt("\n" + b, Ends(a, At(Code)))
  {
    Reassociate(a, "\n", b);
    CutAnywhere(a, "\n" + b, At(Code));
  }

  lemma NewlineFirst(b: string, w: Where)
    requires !w.InBlock?
    ensures StripAt("\n" + b, w) == "\n" + Strip(b, if Outside(w) then Code else InString)
  {
    assert ("\n" + b)[1..] == b;
  }

  lemma OutsideSplits(a: string, b: string)
    requires Outside(Ends(a, At(Code)))
    ensures SplitsAt(a, b)
  {
    AfterNewline(a, b);
    WrittenAll(a, At(Code));
    NewlineFirst(b, Ends(a, At(Code)));
    Reassociate(Strip(a, Code), "\n", Strip(b, Code));
  }

  lemma InStringJoins(a: string)
    requires Ends(a, At(Code)).At? && Ends(a, At(Code)).mode != Code
    ensures !SplitsAt(a, "#")
  {
    AfterNewline(a, "#");
    WrittenAll(a, At(Code));
    NewlineFirst("#", Ends(a, At(Code)));
    assert Strip("#", Code) == [] && Strip("#", InString) == "#";
  }

  lemma InBlockJoins(a: string)
    requires Ends(a, At(Code)).InBlock?
    ensures !SplitsAt(a, "x")
  {
    AfterNewline(a, "x");
    BlockHead("\n" + "x");
    assert ("\n" + "x")[1..] == "x" && StripAt("x", InBlock) == [];
    var left, right := Written(a, At(Code)) + "\n", Strip(a, Code) + "\n" + Strip("x", Code);
    assert Strip("x", Code) == "x";
    assert left[|left| - 1] == '\n' && right[|right| - 1] == 'x';
  }

  // Lines are cleaned of comments independently, whatever follows, exactly where a newline stands outside
  // strings and block comments.
  lemma LinesIndependent(a: string)
    ensures (forall b :: SplitsAt(a, b)) <==> Outside(Ends(a, At(Code)))
  {
    if Outside(Ends(a, At(Code))) {
      forall b ensures SplitsAt(a, b) {
        OutsideSplits(a, b);
      }
    } else if Ends(a, At(Code)).InBlock? {
      InBlockJoins(a);
    } else {
      InStringJoins(a);
    }
  }

  // --- cutting the second scan ----------------------------------------------------------------------

  function ModeAfter(a: string, mode: Mode): Mode {
    if a == [] then mode else ModeAfter(a[1..], CopyMode(mode, a[0]))
  }

  // A comma outside strings with only white space behind it.
  predicate OpenComma(a: string, mode: Mode) {
    a != [] && ((mode == Code && a[0] == ',' && AfterWhite(a[1..]) == []) || OpenComma(a[1..], CopyMode(mode, a[0])))
  }

  lemma {:induction false} WhiteThrough(a: string, u: string)
    ensures AfterWhite(a + u) == if AfterWhite(a) == [] then AfterWhite(u) else AfterWhite(a) + u
  {
    if a == [] {
      assert a + u == u;
    } else if White(a[0]) {
      WhiteThrough(a[1..], u);
      assert (a + u)[1..] == a[1..] + u;
    }
  }

  // The second scanner, too, treats two parts by themselves, exactly unless a comma ends the first and a
  // bracket begins the second.
  lemma {:induction false} CommasCut(a: string, u: string, mode: Mode)
    ensures |DropCommas(a + u, mode)| ==
      |DropCommas(a, mode)| + |DropCommas(u, ModeAfter(a, mode))|
      - (if OpenComma(a, mode) && BeforeBracket(u) then 1 else 0)
    ensures DropCommas(a + u, mode) == DropCommas(a, mode) + DropCommas(u, ModeAfter(a, mode))
      <==> !(OpenComma(a, mode) && BeforeBracket(u))
  {
    if a == [] {
      assert a + u == u && [] + DropCommas(u, mode) == DropCommas(u, mode);
    } else {
      assert (a + u)[1..] == a[1..] + u;
      WhiteThrough(a[1..], u);
      CommasCut(a[1..], u, CopyMode(mode, a[0]));
      NoOpenWhite(a[1..]);
      var rest := DropCommas(u, ModeAfter(a, mode));
      Reassociate([a[0]], DropCommas(a[1..], CopyMode(mode, a[0])), rest);
    }
  }

  lemma {:induction false} NoOpenWhite(a: string)
    ensures AfterWhite(a) == [] ==> !OpenComma(a, Code)
  {
    if a != [] && White(a[0]) {
      NoOpenWhite(a[1..]);
    }
  }

  function ModeOf(w: Where): Mode {
    if w.At? then w.mode else Code
  }

  // Both scanners agree on where strings are.
  lemma {:induction false} ModesAgree(a: string, w: Where)
    ensures ModeAfter(Written(a, w), ModeOf(w)) == ModeOf(Ends(a, w))
    decreases |a|
  {
    if a != [] {
      match w
      case At(mode) =>
        if mode == Code && LineComment(a) {
          ModesAgree(a[1..], InLine);
        } else if mode == Code && BlockComment(a) {
          ModesAgree(a[2..], InBlock);
        } else {
          ModesAgree(a[1..], At(CopyMode(mode, a[0])));
          HeadMode(a[0], Written(a[1..], At(CopyMode(mode, a[0]))), mode);
        }
      case InLine =>
        ModesAgree(a[1..], if a[0] == '\n' then At(Code) else InLine);
        HeadMode('\n', Written(a[1..], At(Code)), Code);
      case InBlock =>
        if ClosesBlock(a) {
          ModesAgree(a[2..], At(Code));
        } else {
          ModesAgree(a[1..], InBlock);
          HeadMode('\n', Written(a[1..], InBlock), Code);
          assert "" + Written(a[1..], InBlock) == Written(a[1..], InBlock);
        }
    }
  }

  lemma HeadMode(c: char, t: string, mode: Mode)
    ensures ModeAfter([c] + t, mode) == ModeAfter(t, CopyMode(mode, c))
  {
    assert ([c] + t)[1..] == t;
  }

  // Before a record that starts outside strings and comments, the text is cleaned by itself.
  lemma CleanBefore(a: string, record: string)
    requires Ends(a, At(Code)) == At(Code) && record != [] && record[0] == '{'
    ensures Clean(a + record) == Clean(a) + Clean(record)
    ensures Clean(record) != [] && Clean(record)[0] == '{'
  {
    CutAnywhere(a, record, At(Code));
    WrittenAll(a, At(Code));
    ModesAgree(a, At(Code));
    var rest := Strip(record, Code);
    assert rest != [] && rest[0] == '{';
    CommasCut(Strip(a, Code), rest, Code);
  }

  // --- the line a record is reported on ---------------------------------------------------------------

  // The characters str.splitlines breaks at.
  predicate Break(c: char) {
    || c == '\n' || c == '\r' || c == '\U{000b}' || c == '\U{000c}' || c == '\U{001c}' || c == '\U{001d}'
    || c == '\U{001e}' || c == '\U{0085}' || c == '\U{2028}' || c == '\U{2029}'
  }

  predicate StartsLf(t: string) {
    t != [] && t[0] == '\n'
  }

  // A break that ends a line; the CR of a CR LF does not, the LF does.
  function Ending(c: char, rest: string): nat {
    if Break(c) && !(c == '\r' && StartsLf(rest)) then 1 else 0
  }

  function Breaks(t: string): nat {
    if t == [] then 0 else Ending(t[0], t[1..]) + Breaks(t[1..])
  }

  // splitlines, with `current` the line being read.
  function LinesFrom(current: string, t: string): seq<string>
    decreases |t|
  {
    if t == [] then (if current == [] then [] else [current])
    else if Ending(t[0], t[1..]) == 1 then [current] + LinesFrom([], t[1..])
    else if Break(t[0]) then LinesFrom(current, t[1..])
    else LinesFrom(current + [t[0]], t[1..])
  }

  function SplitLines(t: string): seq<string> {
    LinesFrom([], t)
  }

  // The line being read after a piece of text that is not followed by a break.
  function Current(current: string, a: string): string
    decreases |a|
  {
    if a == [] then current
    else if Ending(a[0], a[1..]) == 1 then Current([], a[1..])
    else if Break(a[0]) then Current(current, a[1..])
    else Current(current + [a[0]], a[1..])
  }

  // What follows stands on the line after as many lines as there are breaks before it.
  lemma {:induction false} LineAfterBreaks(current: string, a: string, u: string)
    requires u != [] && !Break(u[0])
    ensures Breaks(a) <= |LinesFrom(current, a + u)|
    ensures LinesFrom(current, a + u)[Breaks(a)..] == LinesFrom(Current(current, a), u)
    decreases |a|
  {
    if a == [] {
      assert a + u == u;
    } else {
      assert (a + u)[1..] == a[1..] + u;
      if Ending(a[0], a[1..]) == 1 {
        LineAfterBreaks([], a[1..], u);
      } else if Break(a[0]) {
        LineAfterBreaks(current, a[1..], u);
      } else {
        LineAfterBreaks(current + [a[0]], a[1..], u);
      }
    }
  }

  // --- breaks that cleaning loses -----------------------------------------------------------------------

  // Only comments without a LF of their own stand before the next LF.
  predicate LfBehind(t: string)
    decreases |t|
  {
    if t == [] then false
    else if LineComment(t) then AfterLine(t) != []
    else if BlockComment(t) then BlockNewlines(t[2..]) != [] || LfBehind(AfterBlock(t[2..]))
    else t[0] == '\n'
  }

  lemma {:induction false} LfBehindComments(t: string)
    ensures LfBehind(t) <==> StartsLf(Strip(t, Code))
    decreases |t|
  {
    if t == [] {
    } else if LineComment(t) {
      StripLf(AfterLine(t));
    } else if BlockComment(t) {
      LfBehindComments(AfterBlock(t[2..]));
      BlockBreaks(t[2..]);
    }
  }

  lemma StripLf(t: string)
    requires t == [] || t[0] == '\n'
    ensures StartsLf(Strip(t, Code)) <==> t != []
  {
  }

  // A CR outside strings that comments keep apart from a LF becomes a CR LF.
  function Joined(c: char, rest: string, mode: Mode): nat {
    if c == '\r' && mode == Code && !StartsLf(rest) && LfBehind(rest) then 1 else 0
  }

  function LineLost(t: string): nat {
    if t == [] || t[0] == '\n' then 0 else Ending(t[0], t[1..]) + LineLost(t[1..])
  }

  function BlockLost(t: string): nat {
    if |t| < 2 then Breaks(t)
    else if ClosesBlock(t) then 0
    else (if t[0] == '\n' then 0 else Ending(t[0], t[1..])) + BlockLost(t[1..])
  }

  // The breaks inside comments other than LF and CR LF, the last LF of a text that ends in a block comment,
  // and the pairs of breaks that have nothing but comments between them and become a CR LF.
  function Lost(t: string, mode: Mode): nat
    decreases |t|
  {
    if t == [] then 0
    else if mode == Code && LineComment(t) then
      Shorter(t);
      LineLost(t) + Lost(AfterLine(t), Code)
    else if mode == Code && BlockComment(t) then BlockLost(t[2..]) + Lost(AfterBlock(t[2..]), Code)
    else
      var next := CopyMode(mode, t[0]);
      Joined(t[0], t[1..], next) + Lost(t[1..], next)
  }

  // In the text between the two scans: a trailing comma between a CR and a LF.
  function LostCommas(t: string, mode: Mode): nat {
    if t == [] then 0
    else
      var next := CopyMode(mode, t[0]);
      (if t[0] == '\r' && next == Code && Trailing(t[1..]) && StartsLf(t[1..][1..]) then 1 else 0)
      + LostCommas(t[1..], next)
  }

  lemma {:induction false} LineBreaks(t: string)
    ensures Breaks(t) == LineLost(t) + Breaks(AfterLine(t))
  {
    if t != [] && t[0] != '\n' {
      LineBreaks(t[1..]);
    }
  }

  lemma {:induction false} BlockBreaks(t: string)
    ensures Breaks(t) == |BlockNewlines(t)| + BlockLost(t) + Breaks(AfterBlock(t))
    ensures forall k :: 0 <= k < |BlockNewlines(t)| ==> BlockNewlines(t)[k] == '\n'
  {
    if |t| < 2 {
    } else if ClosesBlock(t) {
      assert t[1..][1..] == t[2..];
    } else {
      BlockBreaks(t[1..]);
      assert "" + BlockNewlines(t[1..]) == BlockNewlines(t[1..]);
    }
  }

  lemma {:induction false} BreaksOfLfs(lfs: string, t: string)
    requires forall k :: 0 <= k < |lfs| ==> lfs[k] == '\n'
    ensures Breaks(lfs + t) == |lfs| + Breaks(t)
  {
    if lfs == [] {
      assert lfs + t == t;
    } else {
      BreaksOfLfs(lfs[1..], t);
      assert (lfs + t)[1..] == lfs[1..] + t;
    }
  }

  lemma BreaksHead(c: char, t: string)
    ensures Breaks([c] + t) == Ending(c, t) + Breaks(t)
  {
    assert ([c] + t)[1..] == t;
  }

  ghost predicate BreaksCounted(t: string, mode: Mode) {
    Breaks(Strip(t, mode)) + Lost(t, mode) == Breaks(t)
  }

  lemma LineCounted(t: string)
    requires LineComment(t) && BreaksCounted(AfterLine(t), Code)
    ensures BreaksCounted(t, Code)
  {
    Shorter(t);
    LineBreaks(t);
  }

  lemma BlockCounted(t: string)
    requires !LineComment(t) && BlockComment(t) && BreaksCounted(AfterBlock(t[2..]), Code)
    ensures BreaksCounted(t, Code)
  {
    BlockBreaks(t[2..]);
    BreaksOfLfs(BlockNewlines(t[2..]), Strip(AfterBlock(t[2..]), Code));
    assert t[1..][1..] == t[2..];
  }

  lemma CopyCounted(t: string, mode: Mode)
    requires t != [] && (mode == Code ==> !LineComment(t) && !BlockComment(t))
    requires BreaksCounted(t[1..], CopyMode(mode, t[0]))
    ensures BreaksCounted(t, mode)
  {
    var next := CopyMode(mode, t[0]);
    StripHead(t, mode);
    BreaksHead(t[0], Strip(t[1..], next));
    LfBehindComments(t[1..]);
    if StartsLf(t[1..]) {
      LfStays(t[1..], next);
    }
  }

  // How many breaks comment stripping loses, for every text.
  lemma {:induction false} StripBreaks(t: string, mode: Mode)
    ensures BreaksCounted(t, mode)
    decreases |t|
  {
    if t == [] {
    } else if mode == Code && LineComment(t) {
      Shorter(t);
      StripBreaks(AfterLine(t), Code);
      LineCounted(t);
    } else if mode == Code && BlockComment(t) {
      StripBreaks(AfterBlock(t[2..]), Code);
      BlockCounted(t);
    } else {
      StripBreaks(t[1..], CopyMode(mode, t[0]));
      CopyCounted(t, mode);
    }
  }

  lemma LfStays(t: string, mode: Mode)
    requires StartsLf(t)
    ensures StartsLf(Strip(t, mode)) && StartsLf(DropCommas(t, mode))
  {
  }

  lemma LfAfterCommas(t: string, mode: Mode)
    ensures StartsLf(DropCommas(t, mode)) <==>
      StartsLf(t) || (mode == Code && Trailing(t) && StartsLf(t[1..]))
  {
    if mode == Code && Trailing(t) && t[1..] != [] {
      assert !Trailing(t[1..]);
    }
  }

  lemma {:induction false} CommaBreaks(t: string, mode: Mode)
    ensures Breaks(DropCommas(t, mode)) + LostCommas(t, mode) == Breaks(t)
  {
    if t != [] {
      var next := CopyMode(mode, t[0]);
      CommaBreaks(t[1..], next);
      if !(mode == Code && Trailing(t)) {
        BreaksHead(t[0], DropCommas(t[1..], next));
        LfAfterCommas(t[1..], next);
      }
    }
  }

  // --- trailing commas, seen in the source ----------------------------------------------------------------

  // Past white space and comments.
  function SkipSpace(t: string): (rest: string)
    ensures |rest| <= |t|
    decreases |t|
  {
    if t == [] then []
    else if LineComment(t) then
      Shorter(t);
      SkipSpace(AfterLine(t))
    else if BlockComment(t) then SkipSpace(AfterBlock(t[2..]))
    else if White(t[0]) then SkipSpace(t[1..])
    else t
  }

  predicate BracketBehind(t: string) {
    SkipSpace(t) != [] && Bracket(SkipSpace(t)[0])
  }

  lemma {:induction false} WhiteLfs(lfs: string)
    requires forall k :: 0 <= k < |lfs| ==> lfs[k] == '\n'
    ensures AfterWhite(lfs) == []
  {
    if lfs != [] {
      WhiteLfs(lfs[1..]);
    }
  }

  lemma {:induction false} BracketBehindComments(t: string)
    ensures BracketBehind(t) <==> BeforeBracket(Strip(t, Code))
    decreases |t|
  {
    if t == [] {
    } else if LineComment(t) {
      Shorter(t);
      BracketBehindComments(AfterLine(t));
    } else if BlockComment(t) {
      var lfs, rest := BlockNewlines(t[2..]), AfterBlock(t[2..]);
      BracketBehindComments(rest);
      BlockBreaks(t[2..]);
      WhiteLfs(lfs);
      WhiteThrough(lfs, Strip(rest, Code));
    } else {
      StripHead(t, Code);
      BracketBehindComments(t[1..]);
      assert ([t[0]] + Strip(t[1..], CopyMode(Code, t[0])))[1..] == Strip(t[1..], CopyMode(Code, t[0]));
    }
  }

  // A trailing comma, and behind it a LF, with only comments without a LF before and between.
  predicate CommaLf(t: string)
    decreases |t|
  {
    if t == [] || LineComment(t) then false
    else if BlockComment(t) then BlockNewlines(t[2..]) == [] && CommaLf(AfterBlock(t[2..]))
    else t[0] == ',' && BracketBehind(t[1..]) && LfBehind(t[1..])
  }

  lemma {:induction false} CommaLfBehindComments(t: string)
    ensures CommaLf(t) <==> Trailing(Strip(t, Code)) && StartsLf(Strip(t, Code)[1..])
    decreases |t|
  {
    if t == [] {
    } else if LineComment(t) {
      StripLf(AfterLine(t));
    } else if BlockComment(t) {
      CommaLfBehindComments(AfterBlock(t[2..]));
      BlockBreaks(t[2..]);
      assert [] + Strip(AfterBlock(t[2..]), Code) == Strip(AfterBlock(t[2..]), Code);
    } else {
      StripHead(t, Code);
      var s := Strip(t[1..], CopyMode(Code, t[0]));
      assert ([t[0]] + s)[1..] == s;
      BracketBehindComments(t[1..]);
      LfBehindComments(t[1..]);
    }
  }

  // The CRs of the source that a dropped comma lets run into a LF.
  function LostAtCommas(t: string, mode: Mode): nat
    decreases |t|
  {
    if t == [] then 0
    else if mode == Code && LineComment(t) then
      Shorter(t);
      LostAtCommas(AfterLine(t), Code)
    else if mode == Code && BlockComment(t) then LostAtCommas(AfterBlock(t[2..]), Code)
    else
      var next := CopyMode(mode, t[0]);
      (if t[0] == '\r' && next == Code && CommaLf(t[1..]) then 1 else 0) + LostAtCommas(t[1..], next)
  }

  lemma {:induction false} LfsLoseNothing(lfs: string, s: string)
    requires forall k :: 0 <= k < |lfs| ==> lfs[k] == '\n'
    ensures LostCommas(lfs + s, Code) == LostCommas(s, Code)
  {
    if lfs == [] {
      assert lfs + s == s;
    } else {
      LfsLoseNothing(lfs[1..], s);
      assert (lfs + s)[1..] == lfs[1..] + s;
    }
  }

  lemma {:induction false} LostCommasInSource(t: string, mode: Mode)
    ensures LostCommas(Strip(t, mode), mode) == LostAtCommas(t, mode)
    decreases |t|
  {
    if t == [] {
    } else if mode == Code && LineComment(t) {
      Shorter(t);
      LostCommasInSource(AfterLine(t), Code);
    } else if mode == Code && BlockComment(t) {
      LostCommasInSource(AfterBlock(t[2..]), Code);
      BlockBreaks(t[2..]);
      LfsLoseNothing(BlockNewlines(t[2..]), Strip(AfterBlock(t[2..]), Code));
    } else {
      StripHead(t, mode);
      var next := CopyMode(mode, t[0]);
      var s := Strip(t[1..], next);
      assert ([t[0]] + s)[1..] == s;
      LostCommasInSource(t[1..], next);
      CommaLfBehindComments(t[1..]);
    }
  }

  // --- records --------------------------------------------------------------------------------------------

  // A record that starts outside strings and comments is cleaned by itself and is found on the line, counted
  // from 0, of as many breaks as the cleaned text before it has. That is its line in the source if and only
  // if cleaning lost no break before it.
  lemma RecordLine(a: string, record: string)
    requires Ends(a, At(Code)) == At(Code) && record != [] && record[0] == '{'
    ensures Breaks(Clean(a)) <= |SplitLines(Clean(a + record))| && Breaks(a) <= |SplitLines(a + record)|
    ensures SplitLines(Clean(a + record))[Breaks(Clean(a))..] == LinesFrom(Current([], Clean(a)), Clean(record))
    ensures SplitLines(a + record)[Breaks(a)..] == LinesFrom(Current([], a), record)
    ensures Breaks(Clean(a)) == Breaks(a) <==> Lost(a, Code) == 0 && LostAtCommas(a, Code) == 0
  {
    CleanBefore(a, record);
    LineAfterBreaks([], Clean(a), Clean(record));
    LineAfterBreaks([], a, record);
    CleanBreaks(a);
  }

  // A break outside comments, or a LF inside one: a break that cleaning keeps.
  predicate KeepsBreak(t: string, mode: Mode)
    decreases |t|
  {
    if t == [] then false
    else if mode == Code && LineComment(t) then
      Shorter(t);
      KeepsBreak(AfterLine(t), Code)
    else if mode == Code && BlockComment(t) then BlockNewlines(t[2..]) != [] || KeepsBreak(AfterBlock(t[2..]), Code)
    else Break(t[0]) || KeepsBreak(t[1..], CopyMode(mode, t[0]))
  }

  lemma {:induction false} BreaksKept(t: string, mode: Mode)
    ensures KeepsBreak(t, mode) <==> Breaks(Strip(t, mode)) > 0
    decreases |t|
  {
    if t == [] {
    } else if mode == Code && LineComment(t) {
      Shorter(t);
      BreaksKept(AfterLine(t), Code);
    } else if mode == Code && BlockComment(t) {
      BreaksKept(AfterBlock(t[2..]), Code);
      BlockBreaks(t[2..]);
      BreaksOfLfs(BlockNewlines(t[2..]), Strip(AfterBlock(t[2..]), Code));
    } else {
      var next := CopyMode(mode, t[0]);
      StripHead(t, mode);
      BreaksKept(t[1..], next);
      BreaksHead(t[0], Strip(t[1..], next));
      LfCounts(Strip(t[1..], next));
    }
  }

  lemma LfCounts(t: string)
    ensures StartsLf(t) ==> Breaks(t) > 0
  {
  }

  lemma {:induction false} CommasKeepBreaks(t: string, mode: Mode)
    ensures Breaks(DropCommas(t, mode)) > 0 <==> Breaks(t) > 0
  {
    if t != [] {
      var next := CopyMode(mode, t[0]);
      CommasKeepBreaks(t[1..], next);
      LfCounts(t[1..]);
      LfCounts(DropCommas(t[1..], next));
      if !(mode == Code && Trailing(t)) {
        BreaksHead(t[0], DropCommas(t[1..], next));
      }
    }
  }

  // The first line of a text, with the line being read before it: the whole if there is no break in it, else
  // less than that.
  lemma {:induction false} FirstLine(current: string, t: string)
    requires current + t != []
    ensures LinesFrom(current, t) != []
    ensures if Breaks(t) == 0 then LinesFrom(current, t) == [current + t]
            else |LinesFrom(current, t)[0]| < |current| + |t|
    decreases |t|
  {
    if t == [] {
      assert current + t == current;
    } else if Ending(t[0], t[1..]) == 0 {
      if Break(t[0]) {
        LfCounts(t[1..]);
        FirstLine(current, t[1..]);
      } else {
        FirstLine(current + [t[0]], t[1..]);
        assert current + [t[0]] + t[1..] == current + t;
      }
    }
  }

  // How many breaks are left of a text, by a scan of the text itself.
  lemma CleanBreaks(t: string)
    ensures Breaks(Clean(t)) == Breaks(t) - Lost(t, Code) - LostAtCommas(t, Code)
    ensures Breaks(Clean(t)) > 0 <==> KeepsBreak(t, Code)
  {
    StripBreaks(t, Code);
    CommaBreaks(Strip(t, Code), Code);
    LostCommasInSource(t, Code);
    BreaksKept(t, Code);
    CommasKeepBreaks(Strip(t, Code), Code);
  }

  // A record is one line, whole, exactly if there is something left of it and no break outside comments, nor a
  // LF inside one: exactly if all its breaks are lost.
  lemma RecordKeptWhole(record: string)
    ensures SplitLines(Clean(record)) == [Clean(record)] <==> Clean(record) != [] && !KeepsBreak(record, Code)
    ensures !KeepsBreak(record, Code) <==> Breaks(record) == Lost(record, Code) + LostAtCommas(record, Code)
  {
    CleanBreaks(record);
    if Clean(record) != [] {
      assert [] + Clean(record) == Clean(record);
      FirstLine([], Clean(record));
    }
  }

  lemma {:induction false} LineThenLf(current: string, c: string, d: string)
    ensures LinesFrom(current, c + ("\n" + d)) != []
    ensures if Breaks(c) == 0 then LinesFrom(current, c + ("\n" + d))[0] == current + c
            else |LinesFrom(current, c + ("\n" + d))[0]| < |current| + |c|
    decreases |c|
  {
    var t := c + ("\n" + d);
    if c == [] {
      assert t == "\n" + d && current + c == current;
    } else {
      assert t[1..] == c[1..] + ("\n" + d);
      LfCounts(c[1..]);
      if Ending(t[0], t[1..]) == 0 {
        if Break(t[0]) {
          assert LinesFrom(current, t[1..])[0] == current;
        } else {
          LineThenLf(current + [c[0]], c[1..], d);
          assert current + [c[0]] + c[1..] == current + c;
        }
      }
    }
  }

  lemma CleanThenLf(record: string, b: string)
    requires Outside(Ends(record, At(Code))) && !OpenComma(Strip(record, Code), Code)
    ensures Clean(record + "\n" + b) == Clean(record) + ("\n" + DropCommas(Strip(b, Code), Code))
  {
    OutsideSplits(record, b);
    WrittenAll(record, At(Code));
    ModesAgree(record, At(Code));
    var s, rest := Strip(record, Code), "\n" + Strip(b, Code);
    Reassociate(s, "\n", Strip(b, Code));
    CommasCut(s, rest, Code);
    assert rest[1..] == Strip(b, Code);
  }

  // So a record that has its line of the source to itself is handed to the JSON parser whole, on the line of as
  // many breaks as the cleaned text before it has, if and only if no break inside it is kept.
  lemma RecordOnItsLine(a: string, record: string, b: string)
    requires Ends(a, At(Code)) == At(Code) && Current([], Clean(a)) == []
    requires record != [] && record[0] == '{'
    requires Outside(Ends(record, At(Code))) && !OpenComma(Strip(record, Code), Code)
    ensures var lines := SplitLines(Clean(a + (record + "\n" + b)));
      && Breaks(Clean(a)) < |lines|
      && (lines[Breaks(Clean(a))] == Clean(record) <==> !KeepsBreak(record, Code))
  {
    var rest := record + "\n" + b;
    var lines := SplitLines(Clean(a + rest));
    CleanBefore(a, rest);
    LineAfterBreaks([], Clean(a), Clean(rest));
    CleanThenLf(record, b);
    LineThenLf([], Clean(record), DropCommas(Strip(b, Code), Code));
    assert lines[Breaks(Clean(a))] == lines[Breaks(Clean(a))..][0];
    assert [] + Clean(record) == Clean(record);
    CleanBreaks(record);
  }

  // --- texts whose only breaks are newlines ---------------------------------------------------------------

  predicate OnlyLf(t: string) {
    forall k :: 0 <= k < |t| && Break(t[k]) ==> t[k] == '\n'
  }

  lemma {:induction false} LfBreaks(t: string)
    ensures Newlines(t) <= Breaks(t)
    ensures OnlyLf(t) ==> Newlines(t) == Breaks(t)
  {
    if t != [] {
      LfBreaks(t[1..]);
      if OnlyLf(t) {
        forall k | 0 <= k < |t[1..]| && Break(t[1..][k]) ensures t[1..][k] == '\n' {
          assert t[1..][k] == t[k + 1];
        }
        assert Break(t[0]) ==> t[0] == '\n';
      }
    }
  }

  lemma {:induction false} NotInBlock(a: string, w: Where)
    requires Ends(a, w) == At(Code)
    ensures match w
      case At(mode) => !EndsInBlock(a, mode)
      case InLine => !EndsInBlock(AfterLine(a), Code)
      case InBlock => Closes(a) && !EndsInBlock(AfterBlock(a), Code)
    decreases |a|
  {
    if a != [] {
      match w
      case At(mode) =>
        if mode == Code && LineComment(a) {
          NotInBlock(a[1..], InLine);
        } else if mode == Code && BlockComment(a) {
          NotInBlock(a[2..], InBlock);
        } else {
          NotInBlock(a[1..], At(CopyMode(mode, a[0])));
        }
      case InLine => NotInBlock(a[1..], if a[0] == '\n' then At(Code) else InLine);
      case InBlock =>
        if ClosesBlock(a) {
          NotInBlock(a[2..], At(Code));
        } else {
          NotInBlock(a[1..], InBlock);
        }
    }
  }

  // Then every record is reported on its own line.
  lemma PlainLinesKept(a: string)
    requires Ends(a, At(Code)) == At(Code) && OnlyLf(a)
    ensures Breaks(Clean(a)) == Breaks(a)
  {
    NotInBlock(a, At(Code));
    LinesKept(a);
    LfBreaks(a);
    LfBreaks(Clean(a));
    CleanBreaks(a);
  }

  // --- texts with other breaks -----------------------------------------------------------------------------

  lemma HiddenBreak(b: string)
    ensures Strip("/*\r*/" + b, Code) == Strip(b, Code)
  {
    var t := "/*\r*/" + b;
    assert t[2..] == "\r*/" + b && t[2..][1..] == "*/" + b && ("*/" + b)[2..] == b;
    StripHead(t, Code);
    BlockHead("\r*/" + b);
    BlockHead("*/" + b);
    assert "" + Strip(b, Code) == Strip(b, Code);
  }

  lemma CountedBreak(b: string)
    ensures Breaks("/*\r*/" + b) == 1 + Breaks(b)
  {
    var end := "*" + ("/" + b);
    var inner := "*" + ("\r" + end);
    assert "/*\r*/" + b == "/" + inner;
    BreaksHead('/', b);
    BreaksHead('*', "/" + b);
    assert end[0] == '*' && !StartsLf(end);
    BreaksHead('\r', end);
    BreaksHead('*', "\r" + end);
    BreaksHead('/', inner);
  }

  // A carriage return in a comment moves the record after it up by one line.
  lemma CarriageReturnShifts()
    ensures Clean("/*\r*/" + "\n{") == "\n{"
    ensures Breaks("/*\r*/" + "\n") == 2 && Breaks(Clean("/*\r*/" + "\n")) == 1
  {
    HiddenBreak("\n{");
    HiddenBreak("\n");
    CountedBreak("\n");
    assert "\n{"[1..] == "{" && Strip("{", Code) == "{" && DropCommas("{", Code) == "{";
  }

  // Text with nothing in it to strip.
  predicate Bare(t: string) {
    forall k :: 0 <= k < |t| ==> t[k] != '/' && t[k] != '#' && t[k] != ','
  }

  lemma {:induction false} NothingToClean(t: string, mode: Mode)
    requires Bare(t)
    ensures Strip(t, mode) == t && DropCommas(t, mode) == t
  {
    if t != [] {
      NothingToClean(t[1..], CopyMode(mode, t[0]));
    }
  }

  lemma {:induction false} OneLine(current: string, a: string)
    requires forall k :: 0 <= k < |a| ==> !Break(a[k])
    ensures LinesFrom(current, a) == if current + a == [] then [] else [current + a]
    decreases |a|
  {
    if a == [] {
      assert current + a == current;
    } else {
      OneLine(current + [a[0]], a[1..]);
      assert current + [a[0]] + a[1..] == current + a;
    }
  }

  lemma {:induction false} TwoLines(current: string, a: string, sep: char, b: string)
    requires Break(sep) && sep != '\r' && b != []
    requires forall k :: 0 <= k < |a| ==> !Break(a[k])
    requires forall k :: 0 <= k < |b| ==> !Break(b[k])
    ensures LinesFrom(current, a + [sep] + b) == [current + a, b]
    decreases |a|
  {
    if a == [] {
      assert a + [sep] + b == [sep] + b && ([sep] + b)[1..] == b && current + a == current;
      OneLine([], b);
      assert [] + b == b;
    } else {
      assert (a + [sep] + b)[1..] == a[1..] + [sep] + b;
      TwoLines(current + [a[0]], a[1..], sep, b);
      assert current + [a[0]] + a[1..] == current + a;
    }
  }

  // A line separator inside a JSON string, which JSON allows, cuts its record in two.
  lemma SeparatorSplitsRecord()
    ensures SplitLines(Clean("{\"" + ['\U{2028}'] + "\":1}")) == ["{\"", "\":1}"]
  {
    var a, b := "{\"", "\":1}";
    NothingToClean(a + ['\U{2028}'] + b, Code);
    TwoLines([], a, '\U{2028}', b);
    assert [] + a == a;
  }
}
