/** The agent loop: a response stream is cut into lines however its chunks fall, the
    lines are folded into one turn, and turns grow the message history. Parsing a line
    as JSON, quoting a text and checking a call against its schema are parameters. */
module StreamFraming {
  import opened Basics
  import opened Lines
  import opened Strings

  datatype Call = Call(name: string, args: string)

  /** The fields of a parsed line that the loop looks at. */
  datatype Reply = Reply(
    keepalive: bool,
    error: Option<string>,
    content: string,
    thinking: string,
    calls: seq<Call>,
    done: bool,
    doneReason: Option<string>)

  /** What one turn accumulates, unless a line crashes the process. */
  datatype Turn = Turn(
    content: string,
    thinking: string,
    calls: seq<Call>,
    doneReason: Option<string>,
    done: bool,
    errors: seq<string>,
    leaks: seq<string>,
    chunks: nat,
    crashed: bool)

  const NEW_TURN := Turn("", "", [], None, false, [], [], 0, false)

  /** What becomes of a line: it is no JSON, or a JSON text whose fields cannot be looked
      at, such as `null`, which ends the process, or a reply. */
  datatype Parsed = NotJson | Fatal | Parsed(reply: Reply)

  /** The library functions the turn depends on: reading a line and quoting a text. */
  datatype Reader = Reader(parse: string -> Parsed, quote: string -> string)

  /** White space and line ends as `trim` of the runtime understands them. */
  predicate IsSpace(c: char) {
    var n := c as int;
    9 <= n <= 13 || n == 32 || n == 0xA0 || n == 0x1680 || 0x2000 <= n <= 0x200A
    || n == 0x2028 || n == 0x2029 || n == 0x202F || n == 0x205F || n == 0x3000 || n == 0xFEFF
  }

  predicate IsBlank(line: string) {
    forall i :: 0 <= i < |line| ==> IsSpace(line[i])
  }

  function Prefix(s: string, n: nat): string {
    if |s| <= n then s else s[..n]
  }

  // ------------------------------------------------------------ leaked markup

  const REASON_MARKERS := ["<think", "</think", "<thinking", "</thinking", "<reasoning", "</reasoning",
                           "<analysis", "</analysis", "<|channel", "<channel|", "<|think", "<think|"]
  const CALL_MARKERS := ["<tool_call>", "</tool_call>", "<tool_call|>", "<|tool_call>", "<|tool_call|>",
                         "[TOOL_CALLS]", "<|python_tag|>"]
  const SERVICE_TOKENS := ["<end_of_turn>", "<start_of_turn>", "<|end|>", "<|eot_id|>"]

  const NOT_JSON := "не-JSON строка: "
  const REASON_LEAK := "reasoning-маркер в content: "
  const CALL_LEAK := "разметка вызова в content: "
  const SERVICE_LEAK := "служебный токен в content: "
  const RAW_LEAK := "сырой JSON вызова в content: "

  /** The key, perhaps white space, and a colon. */
  predicate HasKey(c: string, key: string) {
    exists i, j :: 0 <= i < j < |c| && OccursAt(c, key, i) && i + |key| <= j && c[j] == ':'
                   && IsBlank(c[i + |key|..j])
  }

  predicate HasRawCall(c: string) {
    HasKey(c, "\"name\"") || HasKey(c, "\"arguments\"")
  }

  /** One complaint for each marker of a list that occurs in the text, in list order. */
  function MarkerLeaks(c: string, markers: seq<string>, complaint: string): seq<string> {
    if markers == [] then []
    else
      var n := |markers| - 1;
      MarkerLeaks(c, markers[..n], complaint) + if Index(c, markers[n]).Some? then [complaint] else []
  }

  function LeaksIn(r: Reader, c: string): seq<string> {
    var shown := r.quote(Prefix(c, 60));
    MarkerLeaks(c, REASON_MARKERS, REASON_LEAK + shown)
    + MarkerLeaks(c, CALL_MARKERS, CALL_LEAK + shown)
    + MarkerLeaks(c, SERVICE_TOKENS, SERVICE_LEAK + shown)
    + if HasRawCall(c) then [RAW_LEAK + shown] else []
  }

  lemma {:induction false} MarkersFound(c: string, markers: seq<string>, complaint: string)
    ensures MarkerLeaks(c, markers, complaint) == [] <==>
            forall m, i :: m in markers ==> !OccursAt(c, m, i)
  {
    if markers != [] {
      var n := |markers| - 1;
      MarkersFound(c, markers[..n], complaint);
      assert markers == markers[..n] + [markers[n]];
    }
  }

  /** A text gives no complaint exactly if no marker of any list occurs in it anywhere
      and no key of a raw call stands before a colon. */
  lemma NoLeakExactlyWhen(r: Reader, c: string)
    ensures LeaksIn(r, c) == [] <==>
            && !HasRawCall(c)
            && forall m, i :: m in REASON_MARKERS + CALL_MARKERS + SERVICE_TOKENS ==> !OccursAt(c, m, i)
  {
    hide HasRawCall, MarkerLeaks, OccursAt;
    var shown := r.quote(Prefix(c, 60));
    MarkersFound(c, REASON_MARKERS, REASON_LEAK + shown);
    MarkersFound(c, CALL_MARKERS, CALL_LEAK + shown);
    MarkersFound(c, SERVICE_TOKENS, SERVICE_LEAK + shown);
  }

  lemma {:induction false} MarkersInOrder(c: string, markers: seq<string>, complaint: string)
    ensures MarkerLeaks(c, markers, complaint) ==
            Collect(markers, m => if exists i :: OccursAt(c, m, i) then [complaint] else [])
  {
    if markers != [] {
      var n := |markers| - 1;
      MarkersInOrder(c, markers[..n], complaint);
    }
  }

  /** The complaints about a text, each with its kind and the quoted start of the text: for
      the occurring markers in the order of their lists, then for a raw call. */
  lemma LeaksExactly(r: Reader, c: string)
    ensures var shown := r.quote(if |c| <= 60 then c else c[..60]);
            LeaksIn(r, c) ==
              Collect(REASON_MARKERS, m =>
                if exists i :: OccursAt(c, m, i) then ["reasoning-маркер в content: " + shown] else [])
              + Collect(CALL_MARKERS, m =>
                if exists i :: OccursAt(c, m, i) then ["разметка вызова в content: " + shown] else [])
              + Collect(SERVICE_TOKENS, m =>
                if exists i :: OccursAt(c, m, i) then ["служебный токен в content: " + shown] else [])
              + if HasRawCall(c) then ["сырой JSON вызова в content: " + shown] else []
  {
    hide MarkerLeaks, HasRawCall, OccursAt, Collect;
    var shown := r.quote(Prefix(c, 60));
    MarkersInOrder(c, REASON_MARKERS, REASON_LEAK + shown);
    MarkersInOrder(c, CALL_MARKERS, CALL_LEAK + shown);
    MarkersInOrder(c, SERVICE_TOKENS, SERVICE_LEAK + shown);
  }

  method FindMarkers(c: string, markers: seq<string>, complaint: string, before: seq<string>) returns (leaks: seq<string>)
    ensures leaks == before + MarkerLeaks(c, markers, complaint)
  {
    leaks := before;
    for k := 0 to |markers|
      invariant leaks == before + MarkerLeaks(c, markers[..k], complaint)
    {
      assert markers[..k + 1][..k] == markers[..k];
      if Index(c, markers[k]).Some? {
        leaks := leaks + [complaint];
      }
    }
    assert markers[..|markers|] == markers;
  }

  method FindLeaks(r: Reader, c: string, before: seq<string>) returns (leaks: seq<string>)
    ensures leaks == before + LeaksIn(r, c)
  {
    hide MarkerLeaks, HasRawCall;
    var shown := r.quote(Prefix(c, 60));
    leaks := FindMarkers(c, REASON_MARKERS, REASON_LEAK + shown, before);
    leaks := FindMarkers(c, CALL_MARKERS, CALL_LEAK + shown, leaks);
    leaks := FindMarkers(c, SERVICE_TOKENS, SERVICE_LEAK + shown, leaks);
    if HasRawCall(c) {
      leaks := leaks + [RAW_LEAK + shown];
    }
  }

  // ------------------------------------------------------------ one line

  /** What a parsed line adds to the turn. */
  function Merged(r: Reader, o: Reply, turn: Turn): Turn {
    turn.(
      errors := turn.errors + (if o.error.Some? then [o.error.value] else []),
      content := turn.content + o.content,
      leaks := turn.leaks + (if o.content == "" then [] else LeaksIn(r, o.content)),
      thinking := turn.thinking + o.thinking,
      calls := turn.calls + o.calls,
      done := turn.done || o.done,
      doneReason := if o.done then o.doneReason else turn.doneReason)
  }

  function Consumed(r: Reader, line: string, turn: Turn): Turn {
    if turn.crashed || IsBlank(line) then turn
    else
      match r.parse(line)
      case NotJson => turn.(leaks := turn.leaks + [NOT_JSON + Prefix(line, 100)])
      case Fatal => turn.(crashed := true)
      case Parsed(o) =>
        var counted := turn.(chunks := turn.chunks + 1);
        if o.keepalive then counted else Merged(r, o, counted)
  }

  function Fold(r: Reader, lines: seq<string>, turn: Turn): Turn
    decreases |lines|
  {
    if lines == [] then turn else Fold(r, lines[1..], Consumed(r, lines[0], turn))
  }

  lemma {:induction false} FoldMore(r: Reader, a: seq<string>, b: seq<string>, turn: Turn)
    ensures Fold(r, a + b, turn) == Fold(r, b, Fold(r, a, turn))
    decreases |a|
  {
    if a == [] {
      assert a + b == b;
    } else {
      assert (a + b)[1..] == a[1..] + b;
      FoldMore(r, a[1..], b, Consumed(r, a[0], turn));
    }
  }

  // ------------------------------------------------------------ the stream

  function Join(chunks: seq<string>): string {
    if chunks == [] then [] else Join(chunks[..|chunks| - 1]) + chunks[|chunks| - 1]
  }

  /** Chunks are joined in the order of their arrival. */
  lemma {:induction false} JoinConcat(a: seq<string>, b: seq<string>, c: string)
    ensures Join(a + b) == Join(a) + Join(b) && Join([c]) == c
    decreases |b|
  {
    assert [c][..0] == [] && [] + c == c;
    if b == [] {
      assert a + b == a;
    } else {
      var n := |b| - 1;
      JoinConcat(a, b[..n], c);
      assert (a + b)[..|a + b| - 1] == a + b[..n];
    }
  }

  /** What a text amounts to, however it arrived: all its lines folded in order. */
  function TurnOf(r: Reader, text: string): Turn {
    Fold(r, Split(text, '\n'), NEW_TURN)
  }

  /** The response handler: a buffer for the unfinished line and the turn so far. */
  class Stream {
    const reader: Reader
    var buf: string
    var turn: Turn
    ghost var seen: string

    /** All finished lines are consumed and the unfinished one is in the buffer. */
    ghost predicate Valid()
      reads this
    {
      buf == Last(Split(seen, '\n')) && turn == Fold(reader, Front(Split(seen, '\n')), NEW_TURN)
    }

    constructor (reader: Reader)
      ensures Valid() && this.reader == reader && seen == ""
    {
      this.reader, buf, turn, seen := reader, "", NEW_TURN, "";
    }

    method Consume(line: string)
      modifies this`turn
      ensures turn == Consumed(reader, line, old(turn))
    {
      if turn.crashed || IsBlank(line) {
        return;
      }
      var parsed := reader.parse(line);
      if parsed.NotJson? {
        turn := turn.(leaks := turn.leaks + [NOT_JSON + Prefix(line, 100)]);
        return;
      }
      if parsed.Fatal? {
        turn := turn.(crashed := true);
        return;
      }
      turn := turn.(chunks := turn.chunks + 1);
      if !parsed.reply.keepalive {
        Merge(parsed.reply);
      }
    }

    method Merge(o: Reply)
      modifies this`turn
      ensures turn == Merged(reader, o, old(turn))
    {
      hide LeaksIn;
      var t := turn;
      if o.error.Some? {
        t := t.(errors := t.errors + [o.error.value]);
      }
      if o.content != "" {
        var leaks := FindLeaks(reader, o.content, t.leaks);
        t := t.(content := t.content + o.content, leaks := leaks);
      }
      if o.thinking != "" {
        t := t.(thinking := t.thinking + o.thinking);
      }
      var calls := t.calls;
      for k := 0 to |o.calls|
        invariant calls == t.calls + o.calls[..k]
      {
        calls := calls + [o.calls[k]];
      }
      assert o.calls[..|o.calls|] == o.calls;
      t := t.(calls := calls);
      if o.done {
        t := t.(done := true, doneReason := o.doneReason);
      }
      turn := t;
    }

    /** A chunk arrives: every line it completes is consumed, the rest is kept. */
    method Data(chunk: string)
      requires Valid()
      modifies this
      ensures Valid() && seen == old(seen) + chunk
    {
      hide Split, Fold, Consumed;
      SplitMore(seen, chunk, '\n');
      seen := seen + chunk;
      buf := buf + chunk;
      ghost var done := Front(Split(old(seen), '\n'));
      while true
        invariant seen == old(seen) + chunk
        invariant Split(seen, '\n') == done + Split(buf, '\n')
        invariant turn == Fold(reader, done, NEW_TURN)
        decreases |buf|
      {
        FirstSeparator(buf, '\n');
        var i := Index(buf, "\n");
        if i.None? {
          SplitOfLine(buf, [], '\n');
          break;
        }
        var line := buf[..i.value];
        buf := buf[i.value + 1..];
        SplitOfLine(line, buf, '\n');
        OneMore(reader, done, line, NEW_TURN);
        Consume(line);
        done := done + [line];
      }
    }

    /** The response ends: what is left in the buffer is a last line. */
    method End() returns (t: Turn)
      requires Valid()
      modifies this`turn
      ensures t == TurnOf(reader, seen)
    {
      hide Split, Consumed;
      OneMore(reader, Front(Split(seen, '\n')), buf, NEW_TURN);
      assert Front(Split(seen, '\n')) + [buf] == Split(seen, '\n');
      if !IsBlank(buf) {
        Consume(buf);
      } else {
        BlankIsSkipped(reader, buf, turn);
      }
      t := turn;
    }
  }

  lemma BlankIsSkipped(r: Reader, line: string, turn: Turn)
    requires IsBlank(line)
    ensures Consumed(r, line, turn) == turn
  {
  }

  lemma OneMore(r: Reader, lines: seq<string>, line: string, turn: Turn)
    ensures Fold(r, lines + [line], turn) == Consumed(r, line, Fold(r, lines, turn))
  {
    hide Consumed;
    FoldMore(r, lines, [line], turn);
    assert [line][1..] == [];
  }

  /** One turn over a whole response: the result depends on the text alone, not on
      where the network cut it into chunks. */
  method OneTurn(reader: Reader, chunks: seq<string>) returns (t: Turn)
    ensures t == TurnOf(reader, Join(chunks))
  {
    hide Split, TurnOf;
    var stream := new Stream(reader);
    for i := 0 to |chunks|
      invariant stream.Valid() && stream.reader == reader
      invariant stream.seen == Join(chunks[..i])
    {
      assert chunks[..i + 1][..i] == chunks[..i];
      stream.Data(chunks[i]);
    }
    assert chunks[..|chunks|] == chunks;
    t := stream.End();
  }

  /** The process crashes on a response exactly if one of its lines that are not blank
      is fatal; nothing behind that line matters. */
  lemma {:induction false} CrashesExactlyWhen(r: Reader, lines: seq<string>, turn: Turn)
    ensures Fold(r, lines, turn).crashed <==>
            turn.crashed || exists i :: 0 <= i < |lines| && !IsBlank(lines[i]) && r.parse(lines[i]).Fatal?
    decreases |lines|
  {
    hide IsBlank, Merged;
    if lines != [] {
      var rest := lines[1..];
      CrashesExactlyWhen(r, rest, Consumed(r, lines[0], turn));
      CrashStep(r, lines[0], turn);
      assert forall i :: 1 <= i < |lines| ==> lines[i] == rest[i - 1];
      if i :| 0 <= i < |rest| && !IsBlank(rest[i]) && r.parse(rest[i]).Fatal? {
        assert lines[i + 1] == rest[i];
      }
    }
  }

  lemma CrashStep(r: Reader, line: string, turn: Turn)
    ensures Consumed(r, line, turn).crashed <==> turn.crashed || (!IsBlank(line) && r.parse(line).Fatal?)
  {
  }

  // ------------------------------------------------------------ what a turn holds

  /** The replies that count, in order: of lines that are neither blank nor unreadable nor
      keepalives. */
  function Replies(r: Reader, lines: seq<string>): seq<Reply> {
    Collect(lines, line =>
      if IsBlank(line) || !r.parse(line).Parsed? || r.parse(line).reply.keepalive then [] else [r.parse(line).reply])
  }

  /** The complaints about a line: that it cannot be read, or those about its content. */
  function LineLeaks(r: Reader, line: string): seq<string> {
    if IsBlank(line) then []
    else
      match r.parse(line)
      case NotJson => ["не-JSON строка: " + if |line| <= 100 then line else line[..100]]
      case Fatal => []
      case Parsed(o) => if o.keepalive || o.content == "" then [] else LeaksIn(r, o.content)
  }

  /** A response none of whose lines is fatal. */
  predicate NoFatal(r: Reader, lines: seq<string>) {
    forall i :: 0 <= i < |lines| && !IsBlank(lines[i]) ==> !r.parse(lines[i]).Fatal?
  }

  lemma RepliesStep(r: Reader, lines: seq<string>, line: string)
    ensures Replies(r, lines + [line]) == Replies(r, lines)
            + if IsBlank(line) || !r.parse(line).Parsed? || r.parse(line).reply.keepalive then []
              else [r.parse(line).reply]
  {
    hide IsBlank;
    var f := line =>
      if IsBlank(line) || !r.parse(line).Parsed? || r.parse(line).reply.keepalive then [] else [r.parse(line).reply];
    CollectMore(lines, line, f);
  }

  lemma NoFatalStep(r: Reader, lines: seq<string>, line: string)
    requires NoFatal(r, lines + [line])
    ensures NoFatal(r, lines) && (IsBlank(line) || !r.parse(line).Fatal?)
  {
    hide IsBlank;
    var all := lines + [line];
    assert all[|lines|] == line;
    assert forall i :: 0 <= i < |lines| ==> all[i] == lines[i];
  }

  lemma Unended(lines: seq<string>)
    requires lines != []
    ensures lines == lines[..|lines| - 1] + [lines[|lines| - 1]]
  {
  }

  /** Texts, thoughts, calls and errors of a turn are those of its replies, end to end. */
  lemma {:induction false} TurnHoldsReplies(r: Reader, lines: seq<string>)
    requires NoFatal(r, lines)
    ensures var t, os := Fold(r, lines, NEW_TURN), Replies(r, lines);
            && !t.crashed
            && t.content == Collect(os, (o: Reply) => o.content)
            && t.thinking == Collect(os, (o: Reply) => o.thinking)
            && t.calls == Collect(os, (o: Reply) => o.calls)
            && t.errors == Collect(os, (o: Reply) => if o.error.Some? then [o.error.value] else [])
    decreases |lines|
  {
    hide IsBlank, LeaksIn, Fold;
    if lines == [] {
      NoLines(r);
    } else {
      var n := |lines| - 1;
      var front, line := lines[..n], lines[n];
      Unended(lines);
      NoFatalStep(r, front, line);
      TurnHoldsReplies(r, front);
      RepliesStep(r, front, line);
      OneMore(r, front, line, NEW_TURN);
      var os := Replies(r, front);
      if !IsBlank(line) && r.parse(line).Parsed? && !r.parse(line).reply.keepalive {
        var o := r.parse(line).reply;
        CollectMore(os, o, (o: Reply) => o.content);
        CollectMore(os, o, (o: Reply) => o.thinking);
        CollectMore(os, o, (o: Reply) => o.calls);
        CollectMore(os, o, (o: Reply) => if o.error.Some? then [o.error.value] else []);
      } else {
        assert os + [] == os;
      }
    }
  }

  lemma NoLines(r: Reader)
    ensures Fold(r, [], NEW_TURN) == NEW_TURN && Replies(r, []) == []
  {
  }

  /** The turn is done if and only if some reply is, with the reason of the last such. */
  lemma {:induction false} TurnEndsWithLastDone(r: Reader, lines: seq<string>)
    requires NoFatal(r, lines)
    ensures var t, os := Fold(r, lines, NEW_TURN), Replies(r, lines);
            && (t.done <==> exists i :: 0 <= i < |os| && os[i].done)
            && (!t.done ==> t.doneReason == None)
            && forall i :: 0 <= i < |os| && os[i].done && (forall j :: i < j < |os| ==> !os[j].done) ==>
                 t.doneReason == os[i].doneReason
    decreases |lines|
  {
    hide IsBlank, LeaksIn, Fold, Replies;
    if lines == [] {
      NoLines(r);
    } else {
      var n := |lines| - 1;
      var front, line := lines[..n], lines[n];
      Unended(lines);
      NoFatalStep(r, front, line);
      TurnHoldsReplies(r, front);
      TurnEndsWithLastDone(r, front);
      RepliesStep(r, front, line);
      OneMore(r, front, line, NEW_TURN);
      var os := Replies(r, front);
      if !IsBlank(line) && r.parse(line).Parsed? && !r.parse(line).reply.keepalive {
        var o := r.parse(line).reply;
        var all := os + [o];
        assert all[|os|] == o && forall i :: 0 <= i < |os| ==> all[i] == os[i];
      } else {
        assert os + [] == os;
      }
    }
  }

  /** All readable lines are counted, keepalives included, and the complaints are those
      of the lines, in line order. */
  lemma {:induction false} TurnCountsLines(r: Reader, lines: seq<string>)
    requires NoFatal(r, lines)
    ensures var t := Fold(r, lines, NEW_TURN);
            && t.chunks == |Collect(lines, line => if !IsBlank(line) && r.parse(line).Parsed? then [line] else [])|
            && t.leaks == Collect(lines, line => LineLeaks(r, line))
    decreases |lines|
  {
    hide IsBlank, LeaksIn, Fold, Replies;
    if lines == [] {
      NoLines(r);
    } else {
      var n := |lines| - 1;
      var front, line := lines[..n], lines[n];
      Unended(lines);
      NoFatalStep(r, front, line);
      TurnHoldsReplies(r, front);
      TurnCountsLines(r, front);
      OneMore(r, front, line, NEW_TURN);
      CollectMore(front, line, line => if !IsBlank(line) && r.parse(line).Parsed? then [line] else []);
      CollectMore(front, line, line => LineLeaks(r, line));
    }
  }

  /** Blank lines can be left out of a text without changing the turn. */
  lemma {:induction false} OnlyNonBlankLinesCount(r: Reader, lines: seq<string>, turn: Turn)
    ensures Fold(r, lines, turn) == Fold(r, NonBlank(lines), turn)
    decreases |lines|
  {
    hide Consumed;
    if lines != [] {
      if IsBlank(lines[0]) {
        BlankIsSkipped(r, lines[0], turn);
        assert NonBlank(lines) == NonBlank(lines[1..]);
        OnlyNonBlankLinesCount(r, lines[1..], turn);
      } else {
        OnlyNonBlankLinesCount(r, lines[1..], Consumed(r, lines[0], turn));
        assert ([lines[0]] + NonBlank(lines[1..]))[1..] == NonBlank(lines[1..]);
      }
    }
  }

  function NonBlank(lines: seq<string>): seq<string> {
    if lines == [] then []
    else (if IsBlank(lines[0]) then [] else [lines[0]]) + NonBlank(lines[1..])
  }

  // ------------------------------------------------------------ the agent loop

  datatype Message =
    | Plain(text: string)
    | Assistant(content: string, calls: seq<Call>)
    | ToolResult(name: string, args: string)

  /** From position `p` on, every assistant message is followed by exactly one result
      for each of its calls, in their order, and results stand nowhere else. */
  predicate Answered(ms: seq<Message>, p: nat)
    requires p <= |ms|
    decreases |ms| - p
  {
    if p == |ms| then true
    else
      match ms[p]
      case Assistant(_, calls) =>
        && p + 1 + |calls| <= |ms|
        && (forall k :: 0 <= k < |calls| ==> ms[p + 1 + k] == ToolResult(calls[k].name, calls[k].args))
        && Answered(ms, p + 1 + |calls|)
      case _ => false
  }

  lemma {:induction false} AnsweredMore(ms: seq<Message>, p: nat, more: seq<Message>)
    requires p <= |ms| && Answered(ms, p) && Answered(ms + more, |ms|)
    ensures Answered(ms + more, p)
    decreases |ms| - p
  {
    if p < |ms| {
      var n := |ms[p].calls|;
      assert forall i :: 0 <= i < |ms| ==> (ms + more)[i] == ms[i];
      AnsweredMore(ms, p + 1 + n, more);
    }
  }

  function Results(calls: seq<Call>): (rs: seq<Message>)
    ensures |rs| == |calls|
    ensures forall k :: 0 <= k < |calls| ==> rs[k] == ToolResult(calls[k].name, calls[k].args)
  {
    seq(|calls|, k requires 0 <= k < |calls| => ToolResult(calls[k].name, calls[k].args))
  }

  lemma RoundIsAnswered(ms: seq<Message>, p: nat, content: string, calls: seq<Call>)
    requires p <= |ms| && Answered(ms, p)
    ensures Answered(ms + ([Assistant(content, calls)] + Results(calls)), p)
  {
    var more := [Assistant(content, calls)] + Results(calls);
    var all := ms + more;
    assert all[|ms|] == Assistant(content, calls);
    assert forall k :: 0 <= k < |calls| ==> all[|ms| + 1 + k] == Results(calls)[k];
    AnsweredMore(ms, p, more);
  }

  /** A turn that gives no cause for complaint. */
  predicate IsClean(t: Turn, validate: Call -> seq<string>) {
    && t.leaks == [] && t.errors == [] && t.done
    && (if t.calls == [] then !IsBlank(t.content) || !IsBlank(t.thinking)
        else forall k :: 0 <= k < |t.calls| ==> validate(t.calls[k]) == [])
  }

  predicate AllClean(turns: seq<Turn>, validate: Call -> seq<string>) {
    forall i :: 0 <= i < |turns| ==> IsClean(turns[i], validate)
  }

  lemma CleanMeans(turns: seq<Turn>, validate: Call -> seq<string>)
    ensures AllClean(turns, validate) <==>
            forall i :: 0 <= i < |turns| ==>
              && turns[i].leaks == [] && turns[i].errors == [] && turns[i].done
              && (turns[i].calls == [] ==> !IsBlank(turns[i].content) || !IsBlank(turns[i].thinking))
              && forall k :: 0 <= k < |turns[i].calls| ==> validate(turns[i].calls[k]) == []
  {
    hide IsBlank;
    assert forall i :: 0 <= i < |turns| ==> (IsClean(turns[i], validate) <==>
              && turns[i].leaks == [] && turns[i].errors == [] && turns[i].done
              && (turns[i].calls == [] ==> !IsBlank(turns[i].content) || !IsBlank(turns[i].thinking))
              && forall k :: 0 <= k < |turns[i].calls| ==> validate(turns[i].calls[k]) == []);
  }

  lemma CleanNext(turns: seq<Turn>, turn: Turn, validate: Call -> seq<string>)
    ensures AllClean(turns + [turn], validate) <==> AllClean(turns, validate) && IsClean(turn, validate)
  {
    hide IsClean;
    assert (turns + [turn])[|turns|] == turn;
    assert forall i :: 0 <= i < |turns| ==> (turns + [turn])[i] == turns[i];
  }

  /** What a turn adds to the history: nothing if it brings no call. */
  function Round(t: Turn): seq<Message> {
    if t.calls == [] then [] else [Assistant(t.content, t.calls)] + Results(t.calls)
  }

  function History(start: seq<Message>, turns: seq<Turn>): seq<Message> {
    if turns == [] then start
    else History(start, turns[..|turns| - 1]) + Round(turns[|turns| - 1])
  }

  /** How many messages the first `n` turns add: one for each turn with calls, and one for
      each of its calls. */
  function Added(turns: seq<Turn>, n: nat): nat
    requires n <= |turns|
  {
    if n == 0 then 0
    else
      var calls := turns[n - 1].calls;
      Added(turns, n - 1) + if calls == [] then 0 else 1 + |calls|
  }

  /** At `at` stands an assistant message with the turn's content and calls, directly
      followed by one result for each call. */
  predicate HoldsTurn(messages: seq<Message>, at: nat, turn: Turn) {
    && at + |turn.calls| < |messages|
    && messages[at] == Assistant(turn.content, turn.calls)
    && forall k :: 0 <= k < |turn.calls| ==>
         messages[at + 1 + k] == ToolResult(turn.calls[k].name, turn.calls[k].args)
  }

  /** The history is the start and then the messages of each turn with calls, in order,
      and nothing else. */
  predicate HoldsTurns(messages: seq<Message>, start: seq<Message>, turns: seq<Turn>) {
    && |messages| == |start| + Added(turns, |turns|) && messages[..|start|] == start
    && forall i :: 0 <= i < |turns| && turns[i].calls != [] ==>
         HoldsTurn(messages, |start| + Added(turns, i), turns[i])
  }

  lemma {:induction false} AddedPrefix(turns: seq<Turn>, more: seq<Turn>, n: nat)
    requires n <= |turns|
    ensures Added(turns + more, n) == Added(turns, n)
  {
    if n > 0 {
      AddedPrefix(turns, more, n - 1);
      assert (turns + more)[n - 1] == turns[n - 1];
    }
  }

  lemma TurnStays(messages: seq<Message>, added: seq<Message>, at: nat, turn: Turn)
    requires HoldsTurn(messages, at, turn)
    ensures HoldsTurn(messages + added, at, turn)
  {
    assert forall i :: 0 <= i < |messages| ==> (messages + added)[i] == messages[i];
  }

  lemma TurnLands(messages: seq<Message>, turn: Turn)
    requires turn.calls != []
    ensures HoldsTurn(messages + Round(turn), |messages|, turn)
  {
    hide Round;
    RoundOf(turn);
    var round := Round(turn);
    var all := messages + round;
    assert all[|messages|] == round[0];
    forall k | 0 <= k < |turn.calls|
      ensures all[|messages| + 1 + k] == ToolResult(turn.calls[k].name, turn.calls[k].args)
    {
      assert all[|messages| + 1 + k] == round[1 + k] == round[1..][k];
    }
  }

  lemma RoundOf(turn: Turn)
    requires turn.calls != []
    ensures |Round(turn)| == 1 + |turn.calls| && Round(turn)[0] == Assistant(turn.content, turn.calls)
    ensures Round(turn)[1..] == Results(turn.calls)
  {
    hide Results;
  }

  lemma RoundSize(turn: Turn)
    ensures |Round(turn)| == if turn.calls == [] then 0 else 1 + |turn.calls|
  {
  }

  /** Every turn with calls enters the history, in its place, and nothing else does. */
  lemma {:induction false} HistoryHoldsTurns(start: seq<Message>, turns: seq<Turn>)
    ensures HoldsTurns(History(start, turns), start, turns)
    decreases |turns|
  {
    hide HoldsTurn, History, Added, Round;
    if turns == [] {
      NoTurns(start);
    } else {
      var n := |turns| - 1;
      var front, turn := turns[..n], turns[n];
      assert turns == front + [turn];
      HistoryHoldsTurns(start, front);
      HistoryStep(start, turns);
      RoundSize(turn);
      AddedPrefix(front, [turn], n);
      AddedStep(turns);
      var messages := History(start, front);
      forall i | 0 <= i < |turns| && turns[i].calls != []
        ensures HoldsTurn(messages + Round(turn), |start| + Added(turns, i), turns[i])
      {
        AddedPrefix(front, [turn], i);
        if i < n {
          assert front[i] == turns[i];
          TurnStays(messages, Round(turn), |start| + Added(front, i), turns[i]);
        } else {
          TurnLands(messages, turn);
        }
      }
    }
  }

  lemma NoTurns(start: seq<Message>)
    ensures HoldsTurns(start, start, []) && History(start, []) == start
  {
  }

  lemma AddedStep(turns: seq<Turn>)
    requires turns != []
    ensures var calls := turns[|turns| - 1].calls;
            Added(turns, |turns|) == Added(turns, |turns| - 1) + if calls == [] then 0 else 1 + |calls|
  {
  }

  /** Each turn is what the server answered to the history of the turns before it, and
      none of them crashed the process. */
  ghost predicate IsDialogue(start: seq<Message>, turns: seq<Turn>, reader: Reader,
                             server: seq<Message> -> Option<seq<string>>)
  {
    forall i :: 0 <= i < |turns| ==>
      var answer := server(History(start, turns[..i]));
      answer.Some? && turns[i] == TurnOf(reader, Join(answer.value)) && !turns[i].crashed
  }

  lemma DialogueNext(start: seq<Message>, turns: seq<Turn>, turn: Turn, reader: Reader,
                     server: seq<Message> -> Option<seq<string>>)
    requires IsDialogue(start, turns, reader, server)
    requires server(History(start, turns)).Some?
    requires turn == TurnOf(reader, Join(server(History(start, turns)).value)) && !turn.crashed
    ensures IsDialogue(start, turns + [turn], reader, server)
    ensures History(start, turns + [turn]) == History(start, turns) + Round(turn)
  {
    hide History, TurnOf, Join;
    var more := turns + [turn];
    assert more[..|turns|] == turns;
    assert forall i :: 0 <= i < |turns| ==> more[..i] == turns[..i] && more[i] == turns[i];
    HistoryStep(start, more);
  }

  lemma HistoryStep(start: seq<Message>, turns: seq<Turn>)
    requires turns != []
    ensures History(start, turns) == History(start, turns[..|turns| - 1]) + Round(turns[|turns| - 1])
  {
  }

  datatype Verdict = Correct | Problems | RequestFailed | Crashed

  /** The loop: it asks until a turn brings no call or the limit is reached, answers
      every call with a canned result, and calls the dialogue correct exactly when every
      turn was clean and it did not end with its first turn. `server` gives the chunks of
      the response to a history, or nothing if the request fails, which ends the run, as
      does a line that crashes the process; `validate` gives the complaints about a call. */
  method AgentLoop(start: seq<Message>, maxIterations: int, reader: Reader,
                   server: seq<Message> -> Option<seq<string>>, validate: Call -> seq<string>)
    returns (messages: seq<Message>, turns: seq<Turn>, verdict: Verdict)
    ensures IsDialogue(start, turns, reader, server) && messages == History(start, turns)
    ensures HoldsTurns(messages, start, turns) && Answered(messages, |start|)
    ensures |turns| <= Max(maxIterations, 0)
    ensures forall i :: 0 <= i < |turns| - 1 ==> turns[i].calls != []
    ensures verdict.Correct? || verdict.Problems? <==>
              maxIterations <= |turns| || (turns != [] && turns[|turns| - 1].calls == [])
    ensures verdict.RequestFailed? ==> server(messages).None?
    ensures verdict.Crashed? ==> server(messages).Some? && TurnOf(reader, Join(server(messages).value)).crashed
    ensures verdict.Correct? <==>
              && (maxIterations <= |turns| || (turns != [] && turns[|turns| - 1].calls == [])) && |turns| != 1
              && forall i :: 0 <= i < |turns| ==>
                   && turns[i].leaks == [] && turns[i].errors == [] && turns[i].done
                   && (turns[i].calls == [] ==> !IsBlank(turns[i].content) || !IsBlank(turns[i].thinking))
                   && forall k :: 0 <= k < |turns[i].calls| ==> validate(turns[i].calls[k]) == []
  {
    hide Answered, AllClean, TurnOf, Join, History, IsDialogue, IsClean, Results, HoldsTurns;
    messages, turns := start, [];
    var problems := 0;
    var last := false;
    NothingYet(start, reader, server, validate);
    while |turns| < maxIterations && !last
      invariant IsDialogue(start, turns, reader, server) && messages == History(start, turns)
      invariant |start| <= |messages| && Answered(messages, |start|)
      invariant |turns| <= Max(maxIterations, 0)
      invariant forall i :: 0 <= i < |turns| - 1 ==> turns[i].calls != []
      invariant turns != [] ==> (last <==> turns[|turns| - 1].calls == [])
      invariant turns == [] ==> !last
      invariant problems >= 0
      invariant problems == 0 <==> AllClean(turns, validate)
      decreases maxIterations - |turns|, !last
    {
      HistoryHoldsTurns(start, turns);
      var answer := server(messages);
      if answer.None? {
        verdict := RequestFailed;
        return;
      }
      var turn := OneTurn(reader, answer.value);
      if turn.crashed {
        verdict := Crashed;
        return;
      }
      DialogueNext(start, turns, turn, reader, server);
      CleanNext(turns, turn, validate);
      var complaints := TurnProblems(turn, validate);
      problems := problems + complaints;
      if turn.calls == [] {
        last := true;
      } else {
        RoundIsAnswered(messages, |start|, turn.content, turn.calls);
        messages := messages + ([Assistant(turn.content, turn.calls)] + Results(turn.calls));
      }
      turns := turns + [turn];
    }
    verdict := if problems == 0 && |turns| != 1 then Correct else Problems;
    CleanMeans(turns, validate);
    HistoryHoldsTurns(start, turns);
  }

  /** The complaints of one iteration. */
  method TurnProblems(turn: Turn, validate: Call -> seq<string>) returns (n: nat)
    ensures n == 0 <==> IsClean(turn, validate)
  {
    n := |turn.leaks| + |turn.errors| + if turn.done then 0 else 1;
    if turn.calls == [] {
      if IsBlank(turn.content) && IsBlank(turn.thinking) {
        n := n + 1;
      }
    } else {
      var complaints := Complaints(turn.calls, validate);
      n := n + complaints;
    }
  }

  lemma NothingYet(start: seq<Message>, reader: Reader, server: seq<Message> -> Option<seq<string>>,
                   validate: Call -> seq<string>)
    ensures Answered(start, |start|) && AllClean([], validate)
    ensures IsDialogue(start, [], reader, server) && History(start, []) == start
  {
  }

  method Complaints(calls: seq<Call>, validate: Call -> seq<string>) returns (n: nat)
    ensures n == 0 <==> forall k :: 0 <= k < |calls| ==> validate(calls[k]) == []
  {
    n := 0;
    for k := 0 to |calls|
      invariant n == 0 <==> forall j :: 0 <= j < k ==> validate(calls[j]) == []
    {
      n := n + |validate(calls[k])|;
    }
  }
}
