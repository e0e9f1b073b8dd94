/** The brace checker: a line-by-line scanner that counts three kinds of brackets
    outside string literals and comments. It is shown equal to a scanner of the whole
    text, and that one to a reading of the text as a list of tokens. */
module BraceChecker {
  import opened Basics
  import opened Lines
  import opened Literals
  import opened Strings

  datatype Mode = Code | InString(quote: char) | InLine | InBlock

  /** The first bracket that closes nothing, and its line. */
  datatype Extra = Extra(bracket: char, line: nat)

  datatype State = State(curly: int, paren: int, square: int, error: Option<Extra>, line: nat, mode: Mode)

  const START := State(0, 0, 0, None, 1, Code)

  predicate IsQuote(c: char) {
    c == '"' || c == '\'' || c == '`'
  }

  /** Counting one character of code. */
  function Bump(st: State, c: char): State {
    var extra := if st.error.None? then Some(Extra(c, st.line)) else st.error;
    if c == '{' then st.(curly := st.curly + 1)
    else if c == '}' then st.(curly := st.curly - 1, error := if st.curly - 1 < 0 then extra else st.error)
    else if c == '(' then st.(paren := st.paren + 1)
    else if c == ')' then st.(paren := st.paren - 1, error := if st.paren - 1 < 0 then extra else st.error)
    else if c == '[' then st.(square := st.square + 1)
    else if c == ']' then st.(square := st.square - 1, error := if st.square - 1 < 0 then extra else st.error)
    else st
  }

  predicate StartsWith(t: string, a: char, b: char) {
    |t| >= 2 && t[0] == a && t[1] == b
  }

  /** One step on a line or text that does not start with a newline: how many
      characters it takes and the state behind them. */
  function Step(t: string, st: State): (r: (nat, State))
    requires t != []
    ensures 1 <= r.0 <= |t|
  {
    var c := t[0];
    match st.mode
    case InLine => (1, st)
    case InBlock => if StartsWith(t, '*', '/') then (2, st.(mode := Code)) else (1, st)
    case InString(q) =>
      if c == '\\' then (if |t| >= 2 && t[1] != '\n' then 2 else 1, st)
      else (1, if c == q then st.(mode := Code) else st)
    case Code =>
      if StartsWith(t, '/', '/') then (1, st.(mode := InLine))
      else if StartsWith(t, '/', '*') then (2, st.(mode := InBlock))
      else if IsQuote(c) then (1, st.(mode := InString(c)))
      else (1, Bump(st, c))
  }

  function NextLine(st: State): State {
    st.(line := st.line + 1, mode := if st.mode.InLine? then Code else st.mode)
  }

  /** The inner loop of the checker on the rest of one line. */
  function ScanLine(line: string, st: State): State
    decreases |line|
  {
    if line == [] then st
    else
      var (n, next) := Step(line, st);
      ScanLine(line[n..], next)
  }

  /** The outer loop. */
  function ScanLines(lines: seq<string>, st: State): State
    decreases |lines|
  {
    if lines == [] then st else ScanLines(lines[1..], NextLine(ScanLine(lines[0], st)))
  }

  /** The same scanner on a whole text, newlines included. */
  function ScanText(t: string, st: State): State
    decreases |t|
  {
    if t == [] then st
    else if t[0] == '\n' then ScanText(t[1..], NextLine(st))
    else
      var (n, next) := Step(t, st);
      ScanText(t[n..], next)
  }

  // ------------------------------------------------------------ the code

  /** The checker: one flag or quote for each mode, three counters and the first error. */
  method CheckBraces(src: string) returns (curly: int, paren: int, square: int, error: Option<Extra>,
                                           inString: Option<char>, inBlock: bool)
    ensures var st := NextLine(ScanText(src, START));
            && curly == st.curly && paren == st.paren && square == st.square && error == st.error
            && inString == (if st.mode.InString? then Some(st.mode.quote) else None)
            && inBlock == st.mode.InBlock?
  {
    hide ScanText, ScanLine, Split;
    curly, paren, square, error, inString, inBlock := 0, 0, 0, None, None, false;
    var lines := Split(src, '\n');
    SplitJoins(src, '\n');
    LineByLine(src, START);
    ghost var st := START;
    for k := 0 to |lines|
      invariant st == State(curly, paren, square, error, k + 1, ModeOf(inString, false, inBlock))
      invariant inString.None? || !inBlock
      invariant ScanLines(lines, START) == ScanLines(lines[k..], st)
    {
      assert lines[k..][1..] == lines[k + 1..];
      var inLine;
      ghost var before := st;
      curly, paren, square, error, inString, inLine, inBlock :=
        CheckLine(lines[k], k + 1, curly, paren, square, error, inString, inBlock);
      st := NextLine(ScanLine(lines[k], before));
    }
  }

  /** The inner loop over one line; a skipped character only moves the index further. */
  method CheckLine(line: string, n: nat, curly0: int, paren0: int, square0: int, error0: Option<Extra>,
                   inString0: Option<char>, inBlock0: bool)
    returns (curly: int, paren: int, square: int, error: Option<Extra>,
             inString: Option<char>, inLine: bool, inBlock: bool)
    requires Lacks(line, '\n') && (inString0.None? || !inBlock0)
    ensures ScanLine(line, State(curly0, paren0, square0, error0, n, ModeOf(inString0, false, inBlock0)))
         == State(curly, paren, square, error, n, ModeOf(inString, inLine, inBlock))
    ensures (inString.None? || !inBlock) && (inLine ==> inString.None? && !inBlock)
  {
    hide Bump, ScanLine;
    curly, paren, square, error, inString, inBlock := curly0, paren0, square0, error0, inString0, inBlock0;
    inLine := false;
    ghost var st := State(curly, paren, square, error, n, ModeOf(inString, inLine, inBlock));
    ghost var start := st;
    var j := 0;
    assert line[0..] == line;
    while j < |line|
      invariant j <= |line|
      invariant st == State(curly, paren, square, error, n, ModeOf(inString, inLine, inBlock))
      invariant (inString.None? || !inBlock) && (inLine ==> inString.None? && !inBlock)
      invariant ScanLine(line, start) == ScanLine(line[j..], st)
    {
      ghost var (taken, next) := Step(line[j..], st);
      LineStep(line[j..], st);
      assert line[j..][taken..] == line[j + taken..];
      st := next;
      var ch := line[j];
      var following := if j + 1 < |line| then Some(line[j + 1]) else None;
      if inLine {
      } else if inBlock {
        if ch == '*' && following == Some('/') {
          inBlock := false;
          j := j + 1;
        }
      } else if inString.Some? {
        if ch == '\\' {
          j := j + 1;
        } else if ch == inString.value {
          inString := None;
        }
      } else if ch == '/' && following == Some('/') {
        inLine := true;
      } else if ch == '/' && following == Some('*') {
        inBlock := true;
        j := j + 1;
      } else if IsQuote(ch) {
        inString := Some(ch);
      } else {
        curly, paren, square, error := Count(curly, paren, square, error, n, ch);
      }
      j := if j + 1 > |line| then |line| else j + 1;
    }
    LineEnd(line[j..], st);
  }

  lemma LineStep(line: string, st: State)
    requires line != []
    ensures ScanLine(line, st) == ScanLine(line[Step(line, st).0..], Step(line, st).1)
  {
  }

  lemma LineEnd(line: string, st: State)
    ensures line == [] ==> ScanLine(line, st) == st
  {
  }

  function ModeOf(inString: Option<char>, inLine: bool, inBlock: bool): Mode {
    if inLine then InLine
    else if inBlock then InBlock
    else if inString.Some? then InString(inString.value)
    else Code
  }

  method Count(curly: int, paren: int, square: int, error: Option<Extra>, line: nat, ch: char)
    returns (c: int, p: int, s: int, e: Option<Extra>)
    ensures forall mode :: State(c, p, s, e, line, mode) == Bump(State(curly, paren, square, error, line, mode), ch)
  {
    c, p, s, e := curly, paren, square, error;
    if ch == '{' {
      c := c + 1;
    } else if ch == '}' {
      c := c - 1;
      if c < 0 && e.None? {
        e := Some(Extra(ch, line));
      }
    } else if ch == '(' {
      p := p + 1;
    } else if ch == ')' {
      p := p - 1;
      if p < 0 && e.None? {
        e := Some(Extra(ch, line));
      }
    } else if ch == '[' {
      s := s + 1;
    } else if ch == ']' {
      s := s - 1;
      if s < 0 && e.None? {
        e := Some(Extra(ch, line));
      }
    }
  }

  // ------------------------------------------------------------ lines and text

  lemma {:induction false} ScanOneLine(line: string, rest: string, st: State)
    requires Lacks(line, '\n')
    ensures ScanText(line + "\n" + rest, st) == ScanText(rest, NextLine(ScanLine(line, st)))
    ensures ScanText(line, st) == ScanLine(line, st)
    decreases |line|
  {
    hide Bump;
    var t := line + "\n" + rest;
    if line == [] {
      assert t[0] == '\n' && t[1..] == rest;
    } else {
      var (n, next) := Step(line, st);
      assert Step(t, st) == (n, next);
      assert t[n..] == line[n..] + "\n" + rest;
      ScanOneLine(line[n..], rest, next);
    }
  }

  /** Scanning line by line is scanning the whole text. */
  lemma {:induction false} LineByLine(t: string, st: State)
    ensures ScanLines(Split(t, '\n'), st) == NextLine(ScanText(t, st))
    decreases |t|
  {
    hide Split, ScanText, ScanLine;
    FirstSeparator(t, '\n');
    var i := Index(t, "\n");
    if i.None? {
      SplitOfLine(t, [], '\n');
      ScanOneLine(t, [], st);
      assert [t][1..] == [];
    } else {
      var line, rest := t[..i.value], t[i.value + 1..];
      SplitOfLine(line, rest, '\n');
      ScanOneLine(line, rest, st);
      LineByLine(rest, NextLine(ScanLine(line, st)));
      assert ([line] + Split(rest, '\n'))[1..] == Split(rest, '\n');
    }
  }

  // ------------------------------------------------------------ texts as tokens

  /** A character of code, a string literal or a comment. */
  datatype Token =
    | Char(c: char)
    | Literal(quote: char, body: seq<StrChar>)
    | LineComment(s: string)
    | BlockComment(s: string)

  /** What a text may end with: nothing, or something that is never closed. */
  datatype Tail =
    | Nothing
    | OpenLine(s: string)
    | OpenLiteral(quote: char, body: seq<StrChar>, dangling: bool)
    | OpenBlock(s: string)

  function PrintToken(k: Token): (s: string)
    ensures s != []
  {
    match k
    case Char(c) => [c]
    case Literal(q, body) => [q] + PrintBody(body) + [q]
    case LineComment(s) => "//" + s + "\n"
    case BlockComment(s) => "/*" + s + "*/"
  }

  function PrintTail(e: Tail): string {
    match e
    case Nothing => []
    case OpenLine(s) => "//" + s
    case OpenLiteral(q, body, dangling) => [q] + PrintBody(body) + if dangling then "\\" else []
    case OpenBlock(s) => "/*" + s
  }

  function Print(ks: seq<Token>, e: Tail): string {
    if ks == [] then PrintTail(e) else PrintToken(ks[0]) + Print(ks[1..], e)
  }

  /** `s` has no end of a block comment, not even with the end that follows it. */
  predicate FreeOfEnd(s: string) {
    forall i :: 0 <= i < |s| ==> !StartsWith(s[i..] + "*/", '*', '/')
  }

  predicate TokenOk(k: Token, next: string) {
    match k
    case Char(c) => c != '"' && c != '\'' && c != '`' && (c == '/' ==> next == [] || (next[0] != '/' && next[0] != '*'))
    case Literal(q, body) => (q == '"' || q == '\'' || q == '`') && BodyOk(body, q)
    case LineComment(s) => Lacks(s, '\n')
    case BlockComment(s) => FreeOfEnd(s)
  }

  predicate TailOk(e: Tail) {
    match e
    case Nothing => true
    case OpenLine(s) => Lacks(s, '\n')
    case OpenLiteral(q, body, _) => (q == '"' || q == '\'' || q == '`') && BodyOk(body, q)
    case OpenBlock(s) => forall i :: 0 <= i < |s| ==> !StartsWith(s[i..], '*', '/')
  }

  predicate TokensOk(ks: seq<Token>, e: Tail) {
    if ks == [] then TailOk(e)
    else TokenOk(ks[0], Print(ks[1..], e)) && TokensOk(ks[1..], e)
  }

  function Newlines(s: string): nat {
    if s == [] then 0 else (if s[0] == '\n' then 1 else 0) + Newlines(s[1..])
  }

  /** What a token does to the checker: only code characters are counted. */
  function Effect(k: Token, st: State): State {
    match k
    case Char(c) => if c == '\n' then NextLine(st) else Bump(st, c)
    case _ => st.(line := st.line + Newlines(PrintToken(k)))
  }

  function Effects(ks: seq<Token>, st: State): State
    decreases |ks|
  {
    if ks == [] then st else Effects(ks[1..], Effect(ks[0], st))
  }

  function TailMode(e: Tail): Mode {
    match e
    case Nothing => Code
    case OpenLine(_) => InLine
    case OpenLiteral(q, _, _) => InString(q)
    case OpenBlock(_) => InBlock
  }

  lemma {:induction false} NewlinesConcat(s: string, t: string)
    ensures Newlines(s + t) == Newlines(s) + Newlines(t)
  {
    if s == [] {
      assert s + t == t;
    } else {
      assert (s + t)[1..] == s[1..] + t;
      NewlinesConcat(s[1..], t);
    }
  }

  /** Comments and strings are walked over without counting; the part up to their end. */
  lemma {:induction false} WalkLine(s: string, rest: string, st: State)
    requires Lacks(s, '\n') && st.mode.InLine?
    ensures ScanText(s + rest, st) == ScanText(rest, st)
    ensures Newlines(s) == 0
  {
    if s == [] {
      assert s + rest == rest;
    } else {
      assert (s + rest)[1..] == s[1..] + rest;
      WalkLine(s[1..], rest, st);
    }
  }

  lemma {:induction false} WalkBlock(s: string, rest: string, st: State)
    requires st.mode.InBlock?
    requires forall i :: 0 <= i < |s| ==> !StartsWith(s[i..] + rest, '*', '/')
    ensures ScanText(s + rest, st) == ScanText(rest, st.(line := st.line + Newlines(s)))
    decreases |s|
  {
    if s == [] {
      assert s + rest == rest;
    } else {
      var t := s + rest;
      var tail := s[1..];
      assert t[1..] == tail + rest;
      assert !StartsWith(s[0..] + rest, '*', '/') && s[0..] == s;
      forall i | 0 <= i < |tail| ensures !StartsWith(tail[i..] + rest, '*', '/') {
        assert tail[i..] == s[i + 1..];
      }
      WalkBlock(tail, rest, if s[0] == '\n' then NextLine(st) else st);
    }
  }

  lemma {:induction false} WalkBody(body: seq<StrChar>, q: char, rest: string, st: State)
    requires BodyOk(body, q) && IsQuote(q) && st.mode == InString(q)
    ensures ScanText(PrintBody(body) + rest, st) == ScanText(rest, st.(line := st.line + Newlines(PrintBody(body))))
    decreases |body|
  {
    hide ScanText;
    if body == [] {
      assert PrintBody(body) + rest == rest;
    } else {
      var tail := PrintBody(body[1..]) + rest;
      match body[0]
      case Raw(c) =>
        assert PrintBody(body) == [c] + PrintBody(body[1..]);
        assert PrintBody(body) + rest == [c] + tail;
        WalkOne(c, q, tail, st);
        WalkBody(body[1..], q, rest, if c == '\n' then NextLine(st) else st);
      case Escaped(c) =>
        var pair := ['\\', c];
        assert PrintBody(body) == pair + PrintBody(body[1..]);
        NewlinesConcat(pair, PrintBody(body[1..]));
        assert PrintBody(body) + rest == pair + tail;
        WalkPair(c, q, tail, st);
        WalkBody(body[1..], q, rest, if c == '\n' then NextLine(st) else st);
    }
  }

  lemma WalkOne(c: char, q: char, tail: string, st: State)
    requires st.mode == InString(q) && c != q && c != '\\'
    ensures ScanText([c] + tail, st) == ScanText(tail, if c == '\n' then NextLine(st) else st)
  {
    assert ([c] + tail)[1..] == tail;
  }

  lemma WalkPair(c: char, q: char, tail: string, st: State)
    requires st.mode == InString(q)
    ensures ScanText(['\\', c] + tail, st) == ScanText(tail, if c == '\n' then NextLine(st) else st)
    ensures Newlines(['\\', c]) == if c == '\n' then 1 else 0
  {
    hide Bump;
    var pair := ['\\', c];
    var t := pair + tail;
    assert pair[1..] == [c] && [c][1..] == [];
    assert Newlines([c]) == if c == '\n' then 1 else 0;
    assert t[1..] == [c] + tail && t[2..] == tail;
    ScanStep(t, st);
    if c == '\n' {
      assert t[1..] == "\n" + tail;
      ScanNewline(tail, st);
    }
  }

  lemma ScanStep(t: string, st: State)
    requires t != [] && t[0] != '\n'
    ensures ScanText(t, st) == ScanText(t[Step(t, st).0..], Step(t, st).1)
  {
  }

  lemma ScanNewline(rest: string, st: State)
    ensures ScanText("\n" + rest, st) == ScanText(rest, NextLine(st))
  {
    assert ("\n" + rest)[1..] == rest;
  }

  lemma ScanLiteral(q: char, body: seq<StrChar>, next: string, st: State)
    requires st.mode == Code && IsQuote(q) && BodyOk(body, q)
    ensures var k := Literal(q, body); ScanText(PrintToken(k) + next, st) == ScanText(next, Effect(k, st))
  {
    hide ScanText, Bump;
    var inner := PrintBody(body);
    var t := PrintToken(Literal(q, body)) + next;
    var tail := [q] + next;
    var inside := st.(mode := InString(q));
    assert t == [q] + (inner + tail);
    assert t[1..] == inner + tail;
    ScanStep(t, st);
    WalkBody(body, q, tail, inside);
    assert tail[1..] == next;
    ScanStep(tail, inside.(line := st.line + Newlines(inner)));
    NewlinesConcat([q] + inner, [q]);
    NewlinesConcat([q], inner);
    assert [q][1..] == [];
  }

  lemma ScanLineComment(s: string, next: string, st: State)
    requires st.mode == Code && Lacks(s, '\n')
    ensures var k := LineComment(s); ScanText(PrintToken(k) + next, st) == ScanText(next, Effect(k, st))
  {
    hide ScanText, Bump;
    var inside := st.(mode := InLine);
    var t := PrintToken(LineComment(s)) + next;
    var tail := "\n" + next;
    assert t == "//" + (s + tail);
    assert t[1..] == "/" + (s + tail);
    ScanStep(t, st);
    assert t[1..][1..] == s + tail;
    ScanStep(t[1..], inside);
    WalkLine(s, tail, inside);
    ScanNewline(next, inside);
    NewlinesConcat("//" + s, "\n");
    NewlinesConcat("//", s);
    NoNewlineInMarks();
  }

  lemma NoNewlineInMarks()
    ensures Newlines("//") == 0 && Newlines("/*") == 0 && Newlines("*/") == 0 && Newlines("\n") == 1
  {
    assert "//"[1..] == "/" && "/"[1..] == [];
    assert "/*"[1..] == "*" && "*"[1..] == [];
    assert "*/"[1..] == "/";
    assert "\n"[1..] == [];
  }

  lemma ScanBlockComment(s: string, next: string, st: State)
    requires st.mode == Code && FreeOfEnd(s)
    ensures var k := BlockComment(s); ScanText(PrintToken(k) + next, st) == ScanText(next, Effect(k, st))
  {
    hide ScanText, Bump;
    var inside := st.(mode := InBlock);
    var t := PrintToken(BlockComment(s)) + next;
    var tail := "*/" + next;
    assert t == "/*" + (s + tail);
    ScanStep(t, st);
    assert t[2..] == s + tail;
    forall i | 0 <= i < |s| ensures !StartsWith(s[i..] + tail, '*', '/') {
      assert !StartsWith(s[i..] + "*/", '*', '/');
    }
    WalkBlock(s, tail, inside);
    assert tail[2..] == next;
    ScanStep(tail, inside.(line := st.line + Newlines(s)));
    NewlinesConcat("/*" + s, "*/");
    NewlinesConcat("/*", s);
    NoNewlineInMarks();
  }

  lemma ScanChar(c: char, next: string, st: State)
    requires st.mode == Code && TokenOk(Char(c), next)
    ensures ScanText([c] + next, st) == ScanText(next, Effect(Char(c), st))
  {
    hide Bump;
    var t := [c] + next;
    assert t[1..] == next;
  }

  lemma ScanToken(k: Token, next: string, st: State)
    requires st.mode == Code && TokenOk(k, next)
    ensures ScanText(PrintToken(k) + next, st) == ScanText(next, Effect(k, st))
    ensures Effect(k, st).mode == Code
  {
    match k
    case Char(c) => ScanChar(c, next, st);
    case Literal(q, body) => ScanLiteral(q, body, next, st);
    case LineComment(s) => ScanLineComment(s, next, st);
    case BlockComment(s) => ScanBlockComment(s, next, st);
  }

  /** What is never closed changes the mode and the line, and counts nothing. */
  lemma ScanTail(e: Tail, st: State)
    requires st.mode == Code && TailOk(e)
    ensures ScanText(PrintTail(e), st) == st.(mode := TailMode(e), line := st.line + Newlines(PrintTail(e)))
  {
    hide ScanText, Bump;
    ScanNothing(st.(mode := TailMode(e), line := st.line + Newlines(PrintTail(e))));
    match e
    case Nothing =>
    case OpenLine(s) =>
      var inside := st.(mode := InLine);
      var t := "//" + s;
      assert t[1..][1..] == s;
      ScanStep(t, st);
      ScanStep(t[1..], inside);
      WalkLine(s, [], inside);
      assert s + [] == s;
      NewlinesConcat("//", s);
      NoNewlineInMarks();
    case OpenLiteral(q, body, dangling) => ScanOpenLiteral(q, body, dangling, st);
    case OpenBlock(s) =>
      var inside := st.(mode := InBlock);
      var t := "/*" + s;
      assert t[2..] == s;
      ScanStep(t, st);
      forall i | 0 <= i < |s| ensures !StartsWith(s[i..] + [], '*', '/') {
        assert s[i..] + [] == s[i..];
      }
      WalkBlock(s, [], inside);
      assert s + [] == s;
      NewlinesConcat("/*", s);
      NoNewlineInMarks();
  }

  lemma ScanOpenLiteral(q: char, body: seq<StrChar>, dangling: bool, st: State)
    requires st.mode == Code && IsQuote(q) && BodyOk(body, q)
    ensures var e := OpenLiteral(q, body, dangling);
            ScanText(PrintTail(e), st) == st.(mode := InString(q), line := st.line + Newlines(PrintTail(e)))
  {
    hide Bump, BodyOk, ScanText, PrintBody, Newlines;
    var inner, rest := PrintBody(body), if dangling then "\\" else [];
    var inside := st.(mode := InString(q));
    var t := [q] + inner + rest;
    assert t[1..] == inner + rest;
    ScanStep(t, st);
    WalkBody(body, q, rest, inside);
    ScanDangling(q, dangling, inside.(line := st.line + Newlines(inner)));
    NewlinesConcat([q] + inner, rest);
    NewlinesConcat([q], inner);
    QuoteIsNoNewline(q);
  }

  lemma QuoteIsNoNewline(q: char)
    requires IsQuote(q)
    ensures Newlines([q]) == 0
  {
    assert [q][1..] == [];
  }

  lemma ScanDangling(q: char, dangling: bool, st: State)
    requires st.mode == InString(q)
    ensures var rest := if dangling then "\\" else []; ScanText(rest, st) == st && Newlines(rest) == 0
  {
    hide Bump;
    assert "\\"[1..] == [];
  }

  /** A whole text: the counters hold exactly the effect of its code characters. */
  lemma {:induction false} ScanTokens(ks: seq<Token>, e: Tail, st: State)
    requires st.mode == Code && TokensOk(ks, e)
    ensures var end := Effects(ks, st);
            ScanText(Print(ks, e), st) == end.(mode := TailMode(e), line := end.line + Newlines(PrintTail(e)))
    decreases |ks|
  {
    hide ScanText, TokenOk, Effect;
    if ks == [] {
      ScanTail(e, st);
    } else {
      ScanToken(ks[0], Print(ks[1..], e), st);
      ScanTokens(ks[1..], e, Effect(ks[0], st));
    }
  }

  // ------------------------------------------------------------ every text has tokens

  /** The rest of a text behind an opening quote: a closed literal, or one that is
      still open at the end, perhaps behind a lone backslash. */
  lemma {:induction false} ReadBody(t: string, q: char)
    returns (closed: bool, body: seq<StrChar>, rest: string, dangling: bool)
    requires IsQuote(q)
    ensures BodyOk(body, q)
    ensures closed ==> t == PrintBody(body) + [q] + rest
    ensures !closed ==> t == PrintBody(body) + if dangling then "\\" else []
    decreases |t|
  {
    closed, body, rest, dangling := false, [], [], false;
    if t == [] {
    } else if t[0] == q {
      closed, rest := true, t[1..];
    } else if t == "\\" {
      dangling := true;
    } else if t[0] == '\\' {
      closed, body, rest, dangling := ReadBody(t[2..], q);
      assert t == [t[0], t[1]] + t[2..];
      body := [Escaped(t[1])] + body;
      assert body[1..] == body[1..][0..];
    } else {
      closed, body, rest, dangling := ReadBody(t[1..], q);
      assert t == [t[0]] + t[1..];
      body := [Raw(t[0])] + body;
    }
  }

  /** The rest of a text behind the start of a block comment. */
  lemma ReadBlock(t: string) returns (closed: bool, s: string, rest: string)
    ensures closed ==> FreeOfEnd(s) && t == s + "*/" + rest
    ensures !closed ==> s == t && TailOk(OpenBlock(t))
  {
    var i := Index(t, "*/");
    forall j: nat | j < |t| && StartsWith(t[j..], '*', '/') ensures OccursAt(t, "*/", j) {
      assert t[j..j + 2] == t[j..][..2];
    }
    if i.Some? {
      closed, s, rest := true, t[..i.value], t[i.value + 2..];
      assert t == s + "*/" + rest;
      forall j | 0 <= j < |s| ensures !StartsWith(s[j..] + "*/", '*', '/') {
        assert t[j..] == s[j..] + "*/" + rest;
        assert !OccursAt(t, "*/", j);
      }
    } else {
      closed, s, rest := false, t, [];
    }
  }

  lemma LineAtFront(t: string) returns (closed: bool, k: Token, rest: string, end: Tail)
    requires StartsWith(t, '/', '/')
    ensures closed ==> TokenOk(k, rest) && t == PrintToken(k) + rest
    ensures !closed ==> TailOk(end) && t == PrintTail(end)
  {
    hide Lacks;
    FirstSeparator(t[2..], '\n');
    var i := Index(t[2..], "\n");
    assert t == "//" + t[2..];
    closed, k, rest, end := false, Char(' '), "", OpenLine(t[2..]);
    if i.Some? {
      var s := t[2..][..i.value];
      closed, k, rest := true, LineComment(s), t[2..][i.value + 1..];
      assert t == "//" + (s + "\n" + rest);
    }
  }

  lemma BlockAtFront(t: string) returns (closed: bool, k: Token, rest: string, end: Tail)
    requires StartsWith(t, '/', '*')
    ensures closed ==> TokenOk(k, rest) && t == PrintToken(k) + rest
    ensures !closed ==> TailOk(end) && t == PrintTail(end)
  {
    hide FreeOfEnd;
    var s;
    closed, s, rest := ReadBlock(t[2..]);
    assert t == "/*" + t[2..];
    k, end := BlockComment(s), OpenBlock(s);
  }

  lemma LiteralAtFront(t: string) returns (closed: bool, k: Token, rest: string, end: Tail)
    requires t != "" && IsQuote(t[0])
    ensures closed ==> TokenOk(k, rest) && t == PrintToken(k) + rest
    ensures !closed ==> TailOk(end) && t == PrintTail(end)
  {
    hide PrintBody, BodyOk;
    var body, dangling;
    closed, body, rest, dangling := ReadBody(t[1..], t[0]);
    assert t == [t[0]] + t[1..];
    k, end := Literal(t[0], body), OpenLiteral(t[0], body, dangling);
  }

  /** The first token of a text, or the text is one that is never closed. */
  lemma TokenAtFront(t: string) returns (closed: bool, k: Token, rest: string, end: Tail)
    requires t != ""
    ensures closed ==> TokenOk(k, rest) && t == PrintToken(k) + rest
    ensures !closed ==> TailOk(end) && t == PrintTail(end)
  {
    if StartsWith(t, '/', '/') {
      closed, k, rest, end := LineAtFront(t);
    } else if StartsWith(t, '/', '*') {
      closed, k, rest, end := BlockAtFront(t);
    } else if IsQuote(t[0]) {
      closed, k, rest, end := LiteralAtFront(t);
    } else {
      closed, k, rest, end := true, Char(t[0]), t[1..], Nothing;
    }
  }

  lemma {:induction false} EveryTextHasTokens(t: string) returns (ks: seq<Token>, e: Tail)
    ensures TokensOk(ks, e) && Print(ks, e) == t
    decreases |t|
  {
    hide Print, TokensOk, TokenOk, PrintToken;
    if t == [] {
      ks, e := OnlyTail(Nothing, t);
    } else {
      var closed, k, rest, end := TokenAtFront(t);
      if closed {
        ks, e := EveryTextHasTokens(rest);
        ks := OnTop(k, ks, e, t, rest);
      } else {
        ks, e := OnlyTail(end, t);
      }
    }
  }

  lemma OnlyTail(end: Tail, t: string) returns (ks: seq<Token>, e: Tail)
    requires TailOk(end) && PrintTail(end) == t
    ensures ks == [] && e == end && TokensOk(ks, e) && Print(ks, e) == t
  {
    ks, e := [], end;
  }

  lemma OnTop(k: Token, ks: seq<Token>, e: Tail, t: string, rest: string) returns (all: seq<Token>)
    requires TokensOk(ks, e) && Print(ks, e) == rest && TokenOk(k, rest) && t == PrintToken(k) + rest
    ensures all == [k] + ks && TokensOk(all, e) && Print(all, e) == t
  {
    all := [k] + ks;
    assert all[1..] == ks;
  }

  // ------------------------------------------------------------ balance

  datatype Kind = Curly | Paren | Square

  function Opening(k: Kind): char {
    match k case Curly => '{' case Paren => '(' case Square => '['
  }

  function Closing(k: Kind): char {
    match k case Curly => '}' case Paren => ')' case Square => ']'
  }

  /** The brackets of one kind: true opens, false closes. */
  function Project(cs: string, k: Kind): seq<bool> {
    if cs == [] then []
    else
      (if cs[0] == Opening(k) then [true] else if cs[0] == Closing(k) then [false] else [])
      + Project(cs[1..], k)
  }

  function CodeChars(ks: seq<Token>): string {
    if ks == [] then [] else (if ks[0].Char? then [ks[0].c] else []) + CodeChars(ks[1..])
  }

  /** Properly nested brackets: nothing, or a pair around a nesting and what follows it. */
  datatype Nesting = Empty | Pair(inner: Nesting, rest: Nesting)

  function Brackets(f: Nesting): seq<bool> {
    match f
    case Empty => []
    case Pair(inner, rest) => [true] + Brackets(inner) + [false] + Brackets(rest)
  }

  ghost predicate Balanced(w: seq<bool>) {
    exists f :: w == Brackets(f)
  }

  function Level(w: seq<bool>, d: int): int {
    if w == [] then d else Level(w[1..], if w[0] then d + 1 else d - 1)
  }

  predicate NeverBelow(w: seq<bool>, d: int) {
    d >= 0 && (w == [] || NeverBelow(w[1..], if w[0] then d + 1 else d - 1))
  }

  lemma {:induction false} NestingKeepsLevel(f: Nesting, rest: seq<bool>, d: nat)
    ensures Level(Brackets(f) + rest, d) == Level(rest, d)
    ensures NeverBelow(Brackets(f) + rest, d) == NeverBelow(rest, d)
  {
    match f
    case Empty => assert Brackets(f) + rest == rest;
    case Pair(inner, after) =>
      var w := Brackets(f) + rest;
      var tail := [false] + (Brackets(after) + rest);
      assert w[1..] == Brackets(inner) + tail;
      NestingKeepsLevel(inner, tail, d + 1);
      assert tail[1..] == Brackets(after) + rest;
      NestingKeepsLevel(after, rest, d);
  }

  /** Nestings of the open levels, innermost first, with a closing bracket between. */
  function Stack(fs: seq<Nesting>): seq<bool>
    requires fs != []
  {
    if |fs| == 1 then Brackets(fs[0]) else Brackets(fs[0]) + [false] + Stack(fs[1..])
  }

  lemma {:induction false} FindNestings(w: seq<bool>, d: nat) returns (fs: seq<Nesting>)
    requires NeverBelow(w, d) && Level(w, d) == 0
    ensures |fs| == d + 1 && w == Stack(fs)
    decreases |w|
  {
    if w == [] {
      fs := [Empty];
    } else if w[0] {
      var gs := FindNestings(w[1..], d + 1);
      fs := [Pair(gs[0], gs[1])] + gs[2..];
      assert w == [true] + w[1..];
      StackPair(gs);
    } else {
      var gs := FindNestings(w[1..], d - 1);
      fs := [Empty] + gs;
      assert w == [false] + w[1..];
      StackEmpty(gs);
    }
  }

  lemma StackPair(gs: seq<Nesting>)
    requires |gs| >= 2
    ensures Stack([Pair(gs[0], gs[1])] + gs[2..]) == [true] + Stack(gs)
  {
    hide Stack, Brackets;
    var a, b, rest := gs[0], gs[1], gs[2..];
    PairBrackets(a, b);
    StackOfTwo(a, [b] + rest);
    assert gs == [a] + ([b] + rest);
    if rest == [] {
      StackOfOne(Pair(a, b));
      StackOfOne(b);
      Regroup(Brackets(a), Brackets(b), []);
      assert [Pair(a, b)] + rest == [Pair(a, b)] && [b] + rest == [b];
    } else {
      StackOfTwo(Pair(a, b), rest);
      StackOfTwo(b, rest);
      Regroup(Brackets(a), Brackets(b), Stack(rest));
    }
  }

  lemma Regroup(x: seq<bool>, y: seq<bool>, z: seq<bool>)
    ensures [true] + x + [false] + y + [false] + z == [true] + (x + [false] + (y + [false] + z))
    ensures [true] + x + [false] + y == [true] + (x + [false] + y)
  {
  }

  lemma PairBrackets(a: Nesting, b: Nesting)
    ensures Brackets(Pair(a, b)) == [true] + Brackets(a) + [false] + Brackets(b)
  {
  }

  lemma StackOfOne(f: Nesting)
    ensures Stack([f]) == Brackets(f)
  {
  }

  lemma StackOfTwo(f: Nesting, rest: seq<Nesting>)
    requires rest != []
    ensures Stack([f] + rest) == Brackets(f) + [false] + Stack(rest)
  {
    assert ([f] + rest)[1..] == rest;
  }

  lemma StackEmpty(gs: seq<Nesting>)
    requires gs != []
    ensures Stack([Empty] + gs) == [false] + Stack(gs)
  {
    assert ([Empty] + gs)[1..] == gs;
  }

  lemma BalancedExactlyWhen(w: seq<bool>)
    ensures Balanced(w) <==> NeverBelow(w, 0) && Level(w, 0) == 0
  {
    if Balanced(w) {
      var f :| w == Brackets(f);
      NestingKeepsLevel(f, [], 0);
      assert w + [] == w;
    }
    if NeverBelow(w, 0) && Level(w, 0) == 0 {
      var fs := FindNestings(w, 0);
    }
  }

  function Counter(st: State, k: Kind): int {
    match k case Curly => st.curly case Paren => st.paren case Square => st.square
  }

  /** One step of counting, seen by one kind of bracket. */
  function Moved(c: char, k: Kind, d: int): int {
    if c == Opening(k) then d + 1 else if c == Closing(k) then d - 1 else d
  }

  lemma BumpMoves(st: State, c: char)
    ensures forall k :: Counter(Bump(st, c), k) == Moved(c, k, Counter(st, k))
    ensures Bump(st, c).error.None? ==>
            st.error.None? && forall k :: c == Closing(k) ==> Counter(st, k) > 0
    ensures Bump(st, c).error.Some? ==>
            st.error.Some? || exists k :: c == Closing(k) && Counter(st, k) <= 0
  {
    if c == Closing(Curly) {
    } else if c == Closing(Paren) {
    } else if c == Closing(Square) {
    }
  }

  lemma ProjectStep(c: char, cs: string, k: Kind, d: int)
    ensures Level(Project([c] + cs, k), d) == Level(Project(cs, k), Moved(c, k, d))
    ensures d >= 0 ==> NeverBelow(Project([c] + cs, k), d) == NeverBelow(Project(cs, k), Moved(c, k, d))
  {
    var w, rest := Project([c] + cs, k), Project(cs, k);
    assert ([c] + cs)[1..] == cs;
    if c == Opening(k) || c == Closing(k) {
      assert w[1..] == rest;
    } else {
      assert w == rest;
    }
  }

  /** No bracket of any kind closes more than was open. */
  ghost predicate NoneBelow(cs: string, st: State) {
    forall k :: NeverBelow(Project(cs, k), Counter(st, k))
  }

  ghost predicate CountersOk(st: State) {
    st.error.None? ==> forall k :: Counter(st, k) >= 0
  }

  lemma OneCharacter(c: char, cs: string, st: State, next: State)
    requires CountersOk(st)
    requires next == (if c == '\n' then NextLine(st) else Bump(st, c))
    ensures CountersOk(next)
    ensures forall k :: Counter(next, k) == Moved(c, k, Counter(st, k))
    ensures st.error.None? && NoneBelow([c] + cs, st) <==> next.error.None? && NoneBelow(cs, next)
  {
    hide Bump, NeverBelow, Project;
    BumpMoves(st, c);
    assert forall k :: Counter(next, k) == Moved(c, k, Counter(st, k));
    forall k
      ensures Counter(st, k) >= 0 ==>
        NeverBelow(Project([c] + cs, k), Counter(st, k)) == NeverBelow(Project(cs, k), Counter(next, k))
    {
      ProjectStep(c, cs, k, Counter(st, k));
    }
    if st.error.None? && next.error.Some? {
      var k :| c == Closing(k) && Counter(st, k) <= 0;
      BelowIsNever(Project(cs, k), Counter(next, k));
    }
  }

  lemma BelowIsNever(w: seq<bool>, d: int)
    ensures d < 0 ==> !NeverBelow(w, d)
  {
  }

  /** The counters are the levels of the projected code, and there is no error exactly
      when no level ever falls below zero. */
  lemma {:induction false} EffectsCount(ks: seq<Token>, st: State)
    requires CountersOk(st)
    ensures var end := Effects(ks, st);
            && (forall k :: Counter(end, k) == Level(Project(CodeChars(ks), k), Counter(st, k)))
            && (end.error.None? <==> st.error.None? && NoneBelow(CodeChars(ks), st))
            && CountersOk(end)
    decreases |ks|
  {
    hide Bump, NoneBelow;
    if ks == [] {
      NothingBelow(st);
    } else {
      var next := Effect(ks[0], st);
      var cs := CodeChars(ks[1..]);
      if ks[0].Char? {
        var c := ks[0].c;
        OneCharacter(c, cs, st, next);
        forall k ensures Level(Project([c] + cs, k), Counter(st, k)) == Level(Project(cs, k), Counter(next, k)) {
          ProjectStep(c, cs, k, Counter(st, k));
        }
      } else {
        assert CodeChars(ks) == cs;
        SameCounters(cs, st, next);
      }
      EffectsCount(ks[1..], next);
    }
  }

  lemma NothingBelow(st: State)
    requires CountersOk(st)
    ensures st.error.None? ==> NoneBelow([], st)
  {
  }

  lemma SameCounters(cs: string, st: State, next: State)
    requires forall k :: Counter(next, k) == Counter(st, k)
    ensures NoneBelow(cs, next) == NoneBelow(cs, st)
  {
    hide NeverBelow;
    assert NoneBelow(cs, st) ==> forall k :: NeverBelow(Project(cs, k), Counter(next, k)) by {
      assert forall k :: Counter(next, k) == Counter(st, k);
    }
  }

  lemma {:induction false} EffectsMore(ks: seq<Token>, k: Token, st: State)
    ensures Effects(ks + [k], st) == Effect(k, Effects(ks, st))
    decreases |ks|
  {
    hide Effect;
    if ks == [] {
      assert [k][1..] == [];
    } else {
      assert (ks + [k])[1..] == ks[1..] + [k];
      EffectsMore(ks[1..], k, Effect(ks[0], st));
    }
  }

  lemma {:induction false} LineOf(ks: seq<Token>, st: State)
    ensures Effects(ks, st).line == st.line + Newlines(Print(ks, Nothing))
    decreases |ks|
  {
    if ks != [] {
      NewlinesConcat(PrintToken(ks[0]), Print(ks[1..], Nothing));
      LineOf(ks[1..], Effect(ks[0], st));
      assert ks[0].Char? ==> PrintToken(ks[0])[1..] == [];
    }
  }

  lemma NoTokens(st: State)
    ensures Effects([], st) == st
  {
  }

  /** The error that is reported is the first closing bracket with nothing of its kind
      open before it, and the line is that of its own place in the text. */
  lemma {:induction false} ErrorIsFirst(ks: seq<Token>) returns (i: nat, k: Kind)
    requires Effects(ks, START).error.Some?
    ensures i < |ks| && ks[i] == Char(Closing(k))
    ensures NoneBelow(CodeChars(ks[..i]), START) && Level(Project(CodeChars(ks[..i]), k), 0) == 0
    ensures Effects(ks, START).error == Some(Extra(Closing(k), 1 + Newlines(Print(ks[..i], Nothing))))
    decreases |ks|
  {
    hide NoneBelow, Level, Project, CodeChars, Print, Effects, Newlines;
    NoTokens(START);
    var n := |ks| - 1;
    var front := ks[..n];
    var before := Effects(front, START);
    assert ks == front + [ks[n]];
    EffectsMore(front, ks[n], START);
    EffectsCount(front, START);
    ZeroCounters(START);
    if before.error.Some? {
      i, k := ErrorIsFirst(front);
      assert ks[..i] == front[..i];
    } else {
      i := n;
      k :| ks[n] == Char(Closing(k)) && Counter(before, k) <= 0;
      LineOf(front, START);
    }
  }

  ghost predicate EachKindBalanced(cs: string) {
    forall k :: Balanced(Project(cs, k))
  }

  /** The checker reports no error and zero depths exactly when, outside strings and
      comments, each kind of bracket taken by itself is properly nested. */
  lemma AcceptsExactlyWhenBalanced(t: string, ks: seq<Token>, e: Tail)
    requires TokensOk(ks, e) && Print(ks, e) == t
    ensures var st := ScanText(t, START);
            st.error.None? && st.curly == 0 && st.paren == 0 && st.square == 0 <==>
            EachKindBalanced(CodeChars(ks))
  {
    hide ScanText, Bump, EachKindBalanced, NoneBelow;
    var st, end, cs := ScanText(t, START), Effects(ks, START), CodeChars(ks);
    ScanTokens(ks, e, START);
    EffectsCount(ks, START);
    ZeroCounters(START);
    ZeroCounters(st);
    forall k ensures Balanced(Project(cs, k)) <==> NeverBelow(Project(cs, k), Counter(START, k)) && Counter(st, k) == 0 {
      BalancedExactlyWhen(Project(cs, k));
      assert Counter(st, k) == Counter(end, k);
    }
    assert KindByKind(cs, st);
    assert st.error == end.error;
    assert st.error.None? <==> NoneBelow(cs, START);
    if EachKindBalanced(cs) {
      BalancedIsAccepted(cs, st);
    }
    if NoneBelow(cs, START) && st.curly == 0 && st.paren == 0 && st.square == 0 {
      AcceptedIsBalanced(cs, st);
    }
  }

  /** With zero counters, being balanced is never falling below zero, kind by kind. */
  ghost predicate KindByKind(cs: string, st: State) {
    forall k :: Balanced(Project(cs, k)) <==> NeverBelow(Project(cs, k), Counter(START, k)) && Counter(st, k) == 0
  }

  lemma BalancedIsAccepted(cs: string, st: State)
    requires KindByKind(cs, st) && EachKindBalanced(cs)
    ensures NoneBelow(cs, START) && st.curly == 0 && st.paren == 0 && st.square == 0
  {
    hide Balanced, NeverBelow, Project;
    assert Balanced(Project(cs, Curly)) && Balanced(Project(cs, Paren)) && Balanced(Project(cs, Square));
  }

  lemma AcceptedIsBalanced(cs: string, st: State)
    requires KindByKind(cs, st) && NoneBelow(cs, START) && st.curly == 0 && st.paren == 0 && st.square == 0
    ensures EachKindBalanced(cs)
  {
    hide Balanced, NeverBelow, Project;
    forall k ensures Balanced(Project(cs, k)) {
      assert NeverBelow(Project(cs, k), Counter(START, k));
    }
  }

  lemma ZeroCounters(st: State)
    ensures st.curly == 0 && st.paren == 0 && st.square == 0 <==> forall k :: Counter(st, k) == 0
  {
    assert Counter(st, Curly) == st.curly && Counter(st, Paren) == st.paren && Counter(st, Square) == st.square;
  }

  lemma ScanNothing(st: State)
    ensures ScanText("", st) == st
  {
  }

  // ------------------------------------------------------------ blanking

  function BlankText(s: string): (b: string)
    ensures |b| == |s| && forall i :: 0 <= i < |s| ==> b[i] == if s[i] == '\n' then '\n' else ' '
  {
    seq(|s|, i requires 0 <= i < |s| => if s[i] == '\n' then '\n' else ' ')
  }

  function Plain(s: string): (body: seq<StrChar>)
    ensures |body| == |s| && forall i :: 0 <= i < |s| ==> body[i] == Raw(s[i])
  {
    seq(|s|, i requires 0 <= i < |s| => Raw(s[i]))
  }

  /** The token with everything inside it blanked, line ends kept. */
  function Blank(k: Token): Token {
    match k
    case Char(c) => k
    case Literal(q, body) => Literal(q, Plain(BlankText(PrintBody(body))))
    case LineComment(s) => LineComment(BlankText(s))
    case BlockComment(s) => BlockComment(BlankText(s))
  }

  function BlankTail(e: Tail): Tail {
    match e
    case Nothing => e
    case OpenLine(s) => OpenLine(BlankText(s))
    case OpenLiteral(q, body, dangling) =>
      OpenLiteral(q, Plain(BlankText(PrintBody(body) + if dangling then "\\" else [])), false)
    case OpenBlock(s) => OpenBlock(BlankText(s))
  }

  function BlankAll(ks: seq<Token>): (bs: seq<Token>)
    ensures |bs| == |ks|
  {
    if ks == [] then [] else [Blank(ks[0])] + BlankAll(ks[1..])
  }

  lemma {:induction false} PlainPrints(s: string)
    ensures PrintBody(Plain(s)) == s
  {
    if s != [] {
      PlainPrints(s[1..]);
      assert Plain(s)[1..] == Plain(s[1..]);
    }
  }

  lemma {:induction false} BlankNewlines(s: string)
    ensures Newlines(BlankText(s)) == Newlines(s)
  {
    if s != [] {
      BlankNewlines(s[1..]);
      assert BlankText(s)[1..] == BlankText(s[1..]);
    }
  }

  lemma NewlinesAround(a: string, s: string, b: string)
    ensures Newlines(a + s + b) == Newlines(a) + Newlines(s) + Newlines(b)
  {
    NewlinesConcat(a + s, b);
    NewlinesConcat(a, s);
  }

  lemma BlankToken(k: Token)
    ensures |PrintToken(Blank(k))| == |PrintToken(k)| && PrintToken(Blank(k))[0] == PrintToken(k)[0]
    ensures Newlines(PrintToken(Blank(k))) == Newlines(PrintToken(k))
    ensures forall next :: TokenOk(k, next) && !k.Char? ==> TokenOk(Blank(k), next)
  {
    hide Newlines;
    match k
    case Char(c) =>
    case Literal(q, body) =>
      var b := BlankText(PrintBody(body));
      PlainPrints(b);
      BlankNewlines(PrintBody(body));
      NewlinesAround([q], PrintBody(body), [q]);
      NewlinesAround([q], b, [q]);
    case LineComment(s) =>
      BlankNewlines(s);
      NewlinesAround("//", s, "\n");
      NewlinesAround("//", BlankText(s), "\n");
    case BlockComment(s) =>
      BlankNewlines(s);
      NewlinesAround("/*", s, "*/");
      NewlinesAround("/*", BlankText(s), "*/");
      FreeOfStars(BlankText(s));
  }

  lemma FreeOfStars(s: string)
    requires forall i :: 0 <= i < |s| ==> s[i] != '*'
    ensures FreeOfEnd(s) && TailOk(OpenBlock(s))
  {
    assert forall i :: 0 <= i < |s| ==> s[i..][0] == s[i] && (s[i..] + "*/")[0] == s[i];
  }

  lemma BlankEnd(e: Tail)
    requires TailOk(e)
    ensures TailOk(BlankTail(e)) && TailMode(BlankTail(e)) == TailMode(e)
    ensures Newlines(PrintTail(BlankTail(e))) == Newlines(PrintTail(e))
    ensures |PrintTail(BlankTail(e))| == |PrintTail(e)|
    ensures PrintTail(e) != [] ==> PrintTail(BlankTail(e))[0] == PrintTail(e)[0]
  {
    hide Newlines;
    match e
    case Nothing =>
    case OpenLine(s) =>
      BlankNewlines(s);
      NewlinesConcat("//", s);
      NewlinesConcat("//", BlankText(s));
    case OpenLiteral(q, body, dangling) =>
      var inner := PrintBody(body) + if dangling then "\\" else [];
      PlainPrints(BlankText(inner));
      BlankNewlines(inner);
      NewlinesConcat([q], inner);
      NewlinesConcat([q], BlankText(inner));
      assert PrintTail(e) == [q] + inner;
      assert PrintTail(BlankTail(e)) == [q] + BlankText(inner);
    case OpenBlock(s) =>
      BlankNewlines(s);
      NewlinesConcat("/*", s);
      NewlinesConcat("/*", BlankText(s));
      FreeOfStars(BlankText(s));
  }

  lemma {:induction false} BlankedIsWellFormed(ks: seq<Token>, e: Tail, st: State)
    requires TokensOk(ks, e)
    ensures TailOk(e) && TokensOk(BlankAll(ks), BlankTail(e))
    ensures Effects(BlankAll(ks), st) == Effects(ks, st)
    ensures var s, b := Print(ks, e), Print(BlankAll(ks), BlankTail(e));
            |b| == |s| && (s != [] ==> b[0] == s[0])
    decreases |ks|
  {
    hide PrintToken, PrintTail, TailOk, Bump, Newlines;
    if ks == [] {
      BlankEnd(e);
    } else {
      BlankToken(ks[0]);
      BlankedIsWellFormed(ks[1..], e, Effect(ks[0], st));
      assert BlankAll(ks)[1..] == BlankAll(ks[1..]);
    }
  }

  /** Blanking what is inside strings and comments changes nothing the checker says:
      not the counters, not the error and its line, not what is left open. */
  lemma BlankingChangesNothing(ks: seq<Token>, e: Tail)
    requires TokensOk(ks, e)
    ensures ScanText(Print(BlankAll(ks), BlankTail(e)), START) == ScanText(Print(ks, e), START)
  {
    hide ScanText, Bump;
    BlankedIsWellFormed(ks, e, START);
    BlankEnd(e);
    ScanTokens(ks, e, START);
    ScanTokens(BlankAll(ks), BlankTail(e), START);
  }
}
