/** Cutting one object out of a log: a single pass over braces, strings and escapes
    that must end exactly behind the brace closing the first one. */
module JsonCut {
  import opened Basics
  import opened Literals
  import opened Strings

  // ------------------------------------------------------------ the automaton

  /** Runs over the rest `t` of a text, `k` characters of which are consumed; the
      result is the number of characters up to the brace that brings depth to 0. */
  function Scan(t: string, k: nat, depth: int, inStr: bool, esc: bool): (end: Option<nat>)
    ensures end.Some? ==> k < end.value <= k + |t|
  {
    if t == [] then None
    else
      var c := t[0];
      if inStr then
        if esc then Scan(t[1..], k + 1, depth, true, false)
        else if c == '\\' then Scan(t[1..], k + 1, depth, true, true)
        else Scan(t[1..], k + 1, depth, c != '"', false)
      else if c == '"' then Scan(t[1..], k + 1, depth, true, esc)
      else if c == '{' then Scan(t[1..], k + 1, depth + 1, false, esc)
      else if c == '}' then
        if depth - 1 == 0 then Some(k + 1) else Scan(t[1..], k + 1, depth - 1, false, esc)
      else Scan(t[1..], k + 1, depth, false, esc)
  }

  method FindEnd(text: string, start: nat) returns (end: Option<nat>)
    requires start <= |text|
    ensures end == Scan(text[start..], start, 0, false, false)
  {
    var depth, inStr, esc := 0, false, false;
    for i := start to |text|
      invariant Scan(text[start..], start, 0, false, false) == Scan(text[i..], i, depth, inStr, esc)
    {
      assert text[i..][1..] == text[i + 1..];
      var c := text[i];
      if inStr {
        if esc {
          esc := false;
        } else if c == '\\' {
          esc := true;
        } else if c == '"' {
          inStr := false;
        }
        continue;
      }
      if c == '"' {
        inStr := true;
        continue;
      }
      if c == '{' {
        depth := depth + 1;
      } else if c == '}' {
        depth := depth - 1;
        if depth == 0 {
          return Some(i + 1);
        }
      }
    }
    return None;
  }

  // ------------------------------------------------------------ balanced texts

  /** A piece of text outside strings: a plain character, a whole string literal or a
      pair of braces with what is between them. */
  datatype Item = Plain(c: char) | Str(body: seq<StrChar>) | Braces(items: seq<Item>)

  predicate ItemOk(x: Item) {
    match x
    case Plain(c) => c != '"' && c != '{' && c != '}'
    case Str(body) => BodyOk(body, '"')
    case Braces(items) => ItemsOk(items)
  }

  predicate ItemsOk(xs: seq<Item>) {
    forall i :: 0 <= i < |xs| ==> ItemOk(xs[i])
  }

  function PrintItem(x: Item): (s: string)
    ensures s != []
  {
    match x
    case Plain(c) => [c]
    case Str(body) => ['"'] + PrintBody(body) + ['"']
    case Braces(items) => ['{'] + PrintItems(items) + ['}']
  }

  function PrintItems(xs: seq<Item>): string {
    if xs == [] then [] else PrintItem(xs[0]) + PrintItems(xs[1..])
  }

  /** `t` is one brace-balanced object: braces match outside string literals, and the
      first brace is closed by the last one. */
  ghost predicate IsObject(t: string) {
    exists items :: ItemsOk(items) && t == PrintItem(Braces(items))
  }

  // ------------------------------------------------------------ completeness

  lemma BodyTail(body: seq<StrChar>)
    requires body != [] && BodyOk(body, '"')
    ensures BodyOk(body[1..], '"') && (body[0].Raw? ==> body[0].c != '"' && body[0].c != '\\')
  {
  }

  lemma BodyStep(body: seq<StrChar>)
    requires body != []
    ensures PrintBody(body) == (match body[0] case Raw(c) => [c] case Escaped(c) => ['\\', c]) + PrintBody(body[1..])
  {
  }

  lemma BodyHead(body: seq<StrChar>, more: string)
    requires body != [] && BodyOk(body, '"')
    ensures BodyOk(body[1..], '"') && (body[0].Raw? ==> body[0].c != '"' && body[0].c != '\\')
    ensures |PrintBody(body)| == |PrintBody(body[1..])| + if body[0].Raw? then 1 else 2
    ensures PrintBody(body) + more
         == (match body[0] case Raw(c) => [c] case Escaped(c) => ['\\', c]) + (PrintBody(body[1..]) + more)
  {
    hide PrintBody, BodyOk;
    BodyTail(body);
    BodyStep(body);
    var head := match body[0] case Raw(c) => [c] case Escaped(c) => ['\\', c];
    assert head + PrintBody(body[1..]) + more == head + (PrintBody(body[1..]) + more);
  }

  lemma BodyEnd(more: string)
    ensures PrintBody([]) + more == more && |PrintBody([])| == 0
  {
  }

  lemma {:induction false} ScanBody(body: seq<StrChar>, rest: string, k: nat, d: int)
    requires BodyOk(body, '"')
    ensures Scan(PrintBody(body) + (['"'] + rest), k, d, true, false)
         == Scan(rest, k + |PrintBody(body)| + 1, d, false, false)
    decreases |body|
  {
    hide Scan, PrintBody, BodyOk;
    var more := ['"'] + rest;
    if body == [] {
      BodyEnd(more);
      assert more[1..] == rest;
      StepInString(more, k, d);
    } else {
      BodyHead(body, more);
      var tail := PrintBody(body[1..]) + more;
      match body[0]
      case Raw(c) =>
        assert ([c] + tail)[1..] == tail;
        StepInString([c] + tail, k, d);
        ScanBody(body[1..], rest, k + 1, d);
      case Escaped(c) =>
        TwoSteps(c, tail, k, d);
        ScanBody(body[1..], rest, k + 2, d);
    }
  }

  lemma TwoSteps(c: char, tail: string, k: nat, d: int)
    ensures Scan(['\\', c] + tail, k, d, true, false) == Scan(tail, k + 2, d, true, false)
  {
    hide Scan;
    var t := ['\\', c] + tail;
    assert t[1..] == [c] + tail && ([c] + tail)[1..] == tail;
    StepInString(t, k, d);
    StepInString([c] + tail, k + 1, d);
  }

  /** Inside an object the scan walks over an item without changing its depth. */
  lemma {:induction false} ScanItem(x: Item, rest: string, k: nat, d: int)
    requires ItemOk(x) && d >= 1
    ensures Scan(PrintItem(x) + rest, k, d, false, false) == Scan(rest, k + |PrintItem(x)|, d, false, false)
    decreases x, 0
  {
    var t := PrintItem(x) + rest;
    match x
    case Plain(c) =>
      assert t[1..] == rest;
    case Str(body) =>
      assert t[1..] == PrintBody(body) + (['"'] + rest);
      ScanBody(body, rest, k + 1, d);
    case Braces(items) =>
      var tail := ['}'] + rest;
      assert t[1..] == PrintItems(items) + tail;
      ScanItems(items, tail, k + 1, d + 1);
      assert tail[1..] == rest;
  }

  lemma {:induction false} ScanItems(xs: seq<Item>, rest: string, k: nat, d: int)
    requires ItemsOk(xs) && d >= 1
    ensures Scan(PrintItems(xs) + rest, k, d, false, false) == Scan(rest, k + |PrintItems(xs)|, d, false, false)
    decreases xs, 1
  {
    if xs == [] {
      assert PrintItems(xs) + rest == rest;
    } else {
      var tail := PrintItems(xs[1..]) + rest;
      assert PrintItems(xs) + rest == PrintItem(xs[0]) + tail;
      ScanItem(xs[0], tail, k, d);
      ScanItems(xs[1..], rest, k + |PrintItem(xs[0])|, d);
    }
  }

  lemma ScanObject(items: seq<Item>, rest: string, k: nat)
    requires ItemsOk(items)
    ensures Scan(PrintItem(Braces(items)) + rest, k, 0, false, false) == Some(k + |PrintItem(Braces(items))|)
  {
    var t := PrintItem(Braces(items)) + rest;
    var tail := ['}'] + rest;
    assert t[1..] == PrintItems(items) + tail;
    ScanItems(items, tail, k + 1, 1);
  }

  // ------------------------------------------------------------ soundness

  lemma StepInString(t: string, k: nat, d: int)
    requires t != []
    ensures Scan(t, k, d, true, false) ==
            if t[0] == '"' then Scan(t[1..], k + 1, d, false, false)
            else if t[0] == '\\' then Scan(t[1..], k + 1, d, true, true)
            else Scan(t[1..], k + 1, d, true, false)
    ensures Scan(t, k, d, true, true) == Scan(t[1..], k + 1, d, true, false)
  {
  }

  lemma StepOutside(t: string, k: nat, d: int)
    requires t != []
    ensures Scan(t, k, d, false, false) ==
            if t[0] == '"' then Scan(t[1..], k + 1, d, true, false)
            else if t[0] == '{' then Scan(t[1..], k + 1, d + 1, false, false)
            else if t[0] == '}' then
              if d == 1 then Some(k + 1) else Scan(t[1..], k + 1, d - 1, false, false)
            else Scan(t[1..], k + 1, d, false, false)
  {
  }

  lemma ScanOfNothing(k: nat, d: int, inStr: bool, esc: bool)
    ensures Scan([], k, d, inStr, esc).None?
  {
  }

  /** `d` closing braces, each preceded by the items of its level. */
  function PrintLevels(levels: seq<seq<Item>>): string {
    if levels == [] then [] else PrintItems(levels[0]) + ['}'] + PrintLevels(levels[1..])
  }

  predicate LevelsOk(levels: seq<seq<Item>>) {
    forall i :: 0 <= i < |levels| ==> ItemsOk(levels[i])
  }

  /** A scan that ends from inside a string has gone over the rest of the literal. */
  lemma {:induction false} ParseBody(t: string, k: nat, d: int) returns (body: seq<StrChar>, rest: string)
    requires Scan(t, k, d, true, false).Some?
    ensures BodyOk(body, '"')
    ensures t == PrintBody(body) + (['"'] + rest)
    ensures Scan(t, k, d, true, false) == Scan(rest, k + |PrintBody(body)| + 1, d, false, false)
    decreases |t|
  {
    hide Scan;
    ScanOfNothing(k, d, true, false);
    StepInString(t, k, d);
    var c := t[0];
    if c == '"' {
      body, rest := [], t[1..];
    } else if c == '\\' {
      ScanOfNothing(k + 1, d, true, true);
      StepInString(t[1..], k + 1, d);
      var e := t[1];
      assert t == [c, e] + t[1..][1..];
      var b, r := ParseBody(t[1..][1..], k + 2, d);
      body, rest := [Escaped(e)] + b, r;
      assert PrintBody(body) == [c, e] + PrintBody(b);
    } else {
      assert t == [c] + t[1..];
      var b, r := ParseBody(t[1..], k + 1, d);
      body, rest := [Raw(c)] + b, r;
      assert PrintBody(body) == [c] + PrintBody(b);
    }
  }

  /** The levels after putting `x` in front of the innermost one. */
  function Prepend(x: Item, levels: seq<seq<Item>>): seq<seq<Item>>
    requires levels != []
  {
    [[x] + levels[0]] + levels[1..]
  }

  lemma PrintPrepend(x: Item, levels: seq<seq<Item>>)
    requires levels != [] && ItemOk(x) && LevelsOk(levels)
    ensures PrintLevels(Prepend(x, levels)) == PrintItem(x) + PrintLevels(levels)
    ensures LevelsOk(Prepend(x, levels))
  {
    var first := [x] + levels[0];
    assert first[1..] == levels[0];
    assert Prepend(x, levels)[1..] == levels[1..];
  }

  lemma PrintOpenLevel(levels: seq<seq<Item>>)
    requires LevelsOk(levels)
    ensures PrintLevels([[]] + levels) == ['}'] + PrintLevels(levels)
    ensures LevelsOk([[]] + levels)
  {
    assert ([[]] + levels)[1..] == levels;
  }

  lemma PrintClosedLevel(levels: seq<seq<Item>>)
    requires |levels| >= 2 && LevelsOk(levels)
    ensures var folded := Prepend(Braces(levels[0]), levels[1..]);
            PrintLevels(folded) == ['{'] + PrintLevels(levels) && LevelsOk(folded)
  {
    hide PrintItem, PrintItems, PrintLevels, LevelsOk, ItemsOk, Prepend;
    LevelsParts(levels);
    BracesParts(levels[0]);
    PrintPrepend(Braces(levels[0]), levels[1..]);
    var open, inner, rest: string := ['{'], PrintItems(levels[0]), PrintLevels(levels[1..]);
    assert open + inner + ['}'] + rest == open + (inner + ['}'] + rest);
  }

  lemma LevelsParts(levels: seq<seq<Item>>)
    requires levels != [] && LevelsOk(levels)
    ensures ItemsOk(levels[0]) && LevelsOk(levels[1..])
    ensures PrintLevels(levels) == PrintItems(levels[0]) + ['}'] + PrintLevels(levels[1..])
  {
  }

  lemma BracesParts(items: seq<Item>)
    ensures PrintItem(Braces(items)) == ['{'] + PrintItems(items) + ['}']
  {
  }

  lemma PrintWithPlain(c: char, levels: seq<seq<Item>>)
    requires levels != [] && LevelsOk(levels) && c != '"' && c != '{' && c != '}'
    ensures var more := Prepend(Plain(c), levels);
            PrintLevels(more) == [c] + PrintLevels(levels) && LevelsOk(more)
  {
    PrintPrepend(Plain(c), levels);
  }

  lemma PrintWithString(body: seq<StrChar>, levels: seq<seq<Item>>)
    requires levels != [] && LevelsOk(levels) && BodyOk(body, '"')
    ensures var more := Prepend(Str(body), levels);
            PrintLevels(more) == ['"'] + PrintBody(body) + ['"'] + PrintLevels(levels) && LevelsOk(more)
  {
    PrintPrepend(Str(body), levels);
  }

  /** A scan that ends at depth `d` outside strings has gone over `d` levels, and a
      closing brace for each. */
  lemma {:induction false} ParseLevels(t: string, k: nat, d: nat) returns (levels: seq<seq<Item>>, rest: string)
    requires d >= 1 && Scan(t, k, d, false, false).Some?
    ensures |levels| == d && LevelsOk(levels)
    ensures t == PrintLevels(levels) + rest
    ensures Scan(t, k, d, false, false) == Some(k + |PrintLevels(levels)|)
    decreases |t|
  {
    hide PrintLevels, LevelsOk, Scan, PrintBody;
    ScanOfNothing(k, d, false, false);
    StepOutside(t, k, d);
    var c := t[0];
    assert t == [c] + t[1..];
    if c == '}' && d == 1 {
      NoLevels();
      PrintOpenLevel([]);
      levels, rest := [[]] + [], t[1..];
    } else if c == '}' {
      var ls, r := ParseLevels(t[1..], k + 1, d - 1);
      PrintOpenLevel(ls);
      levels, rest := [[]] + ls, r;
    } else if c == '"' {
      var body, after := ParseBody(t[1..], k + 1, d);
      var ls, r := ParseLevels(after, k + |PrintBody(body)| + 2, d);
      PrintWithString(body, ls);
      levels, rest := Prepend(Str(body), ls), r;
    } else if c == '{' {
      var ls, r := ParseLevels(t[1..], k + 1, d + 1);
      PrintClosedLevel(ls);
      levels, rest := Prepend(Braces(ls[0]), ls[1..]), r;
    } else {
      var ls, r := ParseLevels(t[1..], k + 1, d);
      PrintWithPlain(c, ls);
      levels, rest := Prepend(Plain(c), ls), r;
    }
  }

  lemma NoLevels()
    ensures PrintLevels([]) == [] && LevelsOk([])
  {
  }

  // ------------------------------------------------------------ results

  /** Whatever follows an opening brace, the scan cuts there exactly when what it cuts
      is one brace-balanced object; so no shorter and no longer prefix is one, and it
      fails only if no prefix is. */
  lemma CutsExactlyTheObject(text: string, start: nat, end: nat)
    requires start < |text| && text[start] == '{'
    ensures Scan(text[start..], start, 0, false, false) == Some(end) <==>
            start <= end <= |text| && IsObject(text[start..end])
  {
    var t := text[start..];
    var r := Scan(t, start, 0, false, false);
    if start <= end <= |text| && IsObject(text[start..end]) {
      var items :| ItemsOk(items) && text[start..end] == PrintItem(Braces(items));
      assert t == PrintItem(Braces(items)) + text[end..];
      ScanObject(items, text[end..], start);
    }
    if r == Some(end) {
      var levels, rest := ParseLevels(t[1..], start + 1, 1);
      assert PrintLevels(levels[1..]) == [];
      assert t == PrintItem(Braces(levels[0])) + rest;
      assert text[start..end] == t[..end - start];
    }
  }

  // ------------------------------------------------------------ JSON texts

  /** Values of RFC 8259 with their layout: white space may stand around any value and
      any member name, and inside empty brackets. */
  datatype Json =
    | Literal(s: string)
    | Text(body: seq<StrChar>)
    | Array(pad: string, elems: seq<Json>)
    | Object(pad: string, members: seq<Member>)
    | Padded(before: string, value: Json, after: string)

  datatype Member = Member(before: string, name: seq<StrChar>, after: string, value: Json)

  predicate IsSpace(s: string) {
    forall i :: 0 <= i < |s| ==> s[i] in " \t\n\r"
  }

  /** Section 6 and section 3: the characters of numbers, or a literal name. */
  predicate LiteralOk(s: string) {
    s == "true" || s == "false" || s == "null" || forall i :: 0 <= i < |s| ==> s[i] in "0123456789+-.eE"
  }

  /** Section 7: no control character, quote or backslash in the clear, and only the
      escapes of the grammar (the digits behind a `u` are characters like others). */
  predicate StringOk(body: seq<StrChar>) {
    forall i :: 0 <= i < |body| ==>
      match body[i]
      case Raw(c) => c >= ' ' && c != '"' && c != '\\'
      case Escaped(c) => c in "\"\\/bfnrtu"
  }

  predicate JsonOk(v: Json) {
    match v
    case Literal(s) => LiteralOk(s)
    case Text(body) => StringOk(body)
    case Array(pad, elems) => IsSpace(pad) && forall i :: 0 <= i < |elems| ==> JsonOk(elems[i])
    case Object(pad, members) =>
      && IsSpace(pad)
      && forall i :: 0 <= i < |members| ==>
           && IsSpace(members[i].before) && StringOk(members[i].name) && IsSpace(members[i].after)
           && JsonOk(members[i].value)
    case Padded(before, value, after) => IsSpace(before) && JsonOk(value) && IsSpace(after)
  }

  function StringText(body: seq<StrChar>): string {
    ['"'] + PrintBody(body) + ['"']
  }

  function JsonText(v: Json): string {
    match v
    case Literal(s) => s
    case Text(body) => StringText(body)
    case Array(pad, elems) => "[" + pad + ElemsText(elems) + "]"
    case Object(pad, members) => "{" + pad + MembersText(members) + "}"
    case Padded(before, value, after) => before + JsonText(value) + after
  }

  function ElemsText(vs: seq<Json>): string {
    if vs == [] then []
    else JsonText(vs[0]) + if |vs| == 1 then [] else "," + ElemsText(vs[1..])
  }

  function MembersText(ms: seq<Member>): string {
    if ms == [] then []
    else
      var m := ms[0];
      m.before + StringText(m.name) + m.after + ":" + JsonText(m.value)
      + if |ms| == 1 then [] else "," + MembersText(ms[1..])
  }

  /** `t` is the printed form of some items, so the scan walks over it. */
  ghost predicate IsBalanced(t: string) {
    exists xs :: ItemsOk(xs) && t == PrintItems(xs)
  }

  lemma {:induction false} PrintItemsConcat(xs: seq<Item>, ys: seq<Item>)
    ensures PrintItems(xs + ys) == PrintItems(xs) + PrintItems(ys)
  {
    if xs == [] {
      assert xs + ys == ys;
    } else {
      assert (xs + ys)[1..] == xs[1..] + ys;
      PrintItemsConcat(xs[1..], ys);
    }
  }

  lemma BalancedConcat(s: string, t: string)
    requires IsBalanced(s) && IsBalanced(t)
    ensures IsBalanced(s + t)
  {
    var xs :| ItemsOk(xs) && s == PrintItems(xs);
    var ys :| ItemsOk(ys) && t == PrintItems(ys);
    PrintItemsConcat(xs, ys);
    assert ItemsOk(xs + ys);
  }

  lemma BalancedItem(x: Item)
    requires ItemOk(x)
    ensures IsBalanced(PrintItem(x))
  {
    assert [x][1..] == [];
    assert PrintItems([x]) == PrintItem(x);
    assert ItemsOk([x]);
  }

  lemma {:induction false} BalancedPlain(s: string)
    requires forall i :: 0 <= i < |s| ==> s[i] != '"' && s[i] != '{' && s[i] != '}'
    ensures IsBalanced(s)
  {
    if s == [] {
      assert ItemsOk([]) && PrintItems([]) == s;
    } else {
      BalancedPlain(s[1..]);
      BalancedItem(Plain(s[0]));
      BalancedConcat([s[0]], s[1..]);
      assert s == [s[0]] + s[1..];
    }
  }

  lemma BalancedString(body: seq<StrChar>)
    requires StringOk(body)
    ensures IsBalanced(StringText(body))
  {
    BalancedItem(Str(body));
  }

  lemma BalancedLiteral(s: string)
    requires LiteralOk(s)
    ensures IsBalanced(s)
  {
    hide IsBalanced;
    BalancedPlain(s);
  }

  lemma BalancedAround(before: string, inner: string, after: string)
    requires forall i :: 0 <= i < |before| ==> before[i] != '"' && before[i] != '{' && before[i] != '}'
    requires forall i :: 0 <= i < |after| ==> after[i] != '"' && after[i] != '{' && after[i] != '}'
    requires IsBalanced(inner)
    ensures IsBalanced(before + inner + after)
  {
    BalancedPlain(before);
    BalancedPlain(after);
    BalancedConcat(before, inner);
    BalancedConcat(before + inner, after);
  }

  lemma BalancedObject(inner: string)
    requires IsBalanced(inner)
    ensures IsObject("{" + inner + "}") && IsBalanced("{" + inner + "}")
  {
    var xs :| ItemsOk(xs) && inner == PrintItems(xs);
    assert "{" + inner + "}" == PrintItem(Braces(xs));
    BalancedItem(Braces(xs));
  }

  lemma {:induction false} BalancedJson(v: Json)
    requires JsonOk(v)
    ensures IsBalanced(JsonText(v))
    ensures v.Object? ==> IsObject(JsonText(v))
    decreases v, 0
  {
    hide IsBalanced, IsObject, ElemsText, MembersText, StringText, LiteralOk, StringOk;
    match v
    case Literal(s) => BalancedLiteral(s);
    case Text(body) => BalancedString(body);
    case Array(pad, elems) =>
      BalancedElems(elems);
      BalancedAround("[" + pad, ElemsText(elems), "]");
    case Object(pad, members) =>
      BalancedMembers(members);
      BalancedPlain(pad);
      BalancedConcat(pad, MembersText(members));
      BalancedObject(pad + MembersText(members));
      assert JsonText(v) == "{" + (pad + MembersText(members)) + "}";
    case Padded(before, value, after) =>
      BalancedJson(value);
      BalancedAround(before, JsonText(value), after);
  }

  lemma {:induction false} BalancedElems(vs: seq<Json>)
    requires forall i :: 0 <= i < |vs| ==> JsonOk(vs[i])
    ensures IsBalanced(ElemsText(vs))
    decreases vs, 1
  {
    BalancedPlain([]);
    if vs != [] {
      BalancedJson(vs[0]);
      BalancedElems(vs[1..]);
      BalancedPlain(",");
      BalancedConcat(",", ElemsText(vs[1..]));
      BalancedConcat(JsonText(vs[0]), if |vs| == 1 then [] else "," + ElemsText(vs[1..]));
    }
  }

  lemma {:induction false} BalancedMembers(ms: seq<Member>)
    requires forall i :: 0 <= i < |ms| ==>
               && IsSpace(ms[i].before) && StringOk(ms[i].name) && IsSpace(ms[i].after)
               && JsonOk(ms[i].value)
    ensures IsBalanced(MembersText(ms))
    decreases ms, 1
  {
    BalancedPlain([]);
    if ms != [] {
      var m := ms[0];
      BalancedJson(m.value);
      BalancedMembers(ms[1..]);
      BalancedPlain(",");
      BalancedConcat(",", MembersText(ms[1..]));
      BalancedMember(m.before, m.name, m.after, JsonText(m.value));
      BalancedConcat(m.before + StringText(m.name) + m.after + ":" + JsonText(m.value),
                     if |ms| == 1 then [] else "," + MembersText(ms[1..]));
    }
  }

  lemma BalancedMember(before: string, name: seq<StrChar>, after: string, value: string)
    requires IsSpace(before) && StringOk(name) && IsSpace(after) && IsBalanced(value)
    ensures IsBalanced(before + StringText(name) + after + ":" + value)
  {
    BalancedPlain(before);
    BalancedString(name);
    BalancedPlain(after);
    BalancedPlain(":");
    BalancedConcat(before, StringText(name));
    BalancedConcat(before + StringText(name), after);
    BalancedConcat(before + StringText(name) + after, ":");
    BalancedConcat(before + StringText(name) + after + ":", value);
  }

  /** A JSON object in a log is cut out whole, whatever follows it. */
  lemma JsonObjectIsCutWhole(text: string, start: nat, v: Json, rest: string)
    requires v.Object? && JsonOk(v)
    requires start <= |text| && text[start..] == JsonText(v) + rest
    ensures Scan(text[start..], start, 0, false, false) == Some(start + |JsonText(v)|)
  {
    BalancedJson(v);
    assert text[start] == text[start..][0] == '{';
    assert text[start..start + |JsonText(v)|] == text[start..][..|JsonText(v)|] == JsonText(v);
    CutsExactlyTheObject(text, start, start + |JsonText(v)|);
  }

  // ------------------------------------------------------------ the extraction

  const KEY := "\"requestBodyValues\":"

  datatype Cut = NoKey | NoEnd | Fragment(text: string)

  /** The newest request in the log: behind the last key, from the first brace on.
      Without a brace the source scans from the start of the log, and its slice from
      position -1 is at most the closing brace, never an object. */
  method Extract(text: string) returns (r: Cut)
    ensures r.NoKey? <==> LastIndex(text, KEY).None?
    ensures !r.NoKey? ==>
      match IndexFrom(text, "{", LastIndex(text, KEY).value + |KEY|)
      case Some(start) =>
        && (forall f :: r == Fragment(f) <==> f <= text[start..] && IsObject(f))
        && (r.NoEnd? <==> forall f :: f <= text[start..] ==> !IsObject(f))
      case None =>
        r.NoEnd? || r == Fragment("") || r == Fragment("}")
  {
    hide Scan, IsObject, LastIndex, IndexFrom;
    var at := LastIndex(text, KEY);
    if at.None? {
      return NoKey;
    }
    var open := IndexFrom(text, "{", at.value + |KEY|);
    var start := if open.Some? then open.value else 0;
    var end := FindEnd(text, start);
    if open.Some? {
      assert text[start..start + 1][0] == '{';
      ObjectPrefixes(text, start);
      return if end.None? then NoEnd else Fragment(text[start..end.value]);
    }
    if end.None? {
      return NoEnd;
    }
    assert text[0..] == text;
    EndIsBehindBrace(text, 0, 0, false, false);
    return Fragment(if end.value == |text| then text[|text| - 1..] else "");
  }

  lemma ObjectPrefixes(text: string, start: nat)
    requires start < |text| && text[start] == '{'
    ensures match Scan(text[start..], start, 0, false, false)
            case Some(end) =>
              && start <= end <= |text|
              && forall f :: f == text[start..end] <==> f <= text[start..] && IsObject(f)
            case None => forall f :: f <= text[start..] ==> !IsObject(f)
  {
    hide Scan, IsObject;
    var rest := text[start..];
    var end := Scan(rest, start, 0, false, false);
    forall f: string | f <= rest
      ensures IsObject(f) <==> end == Some(start + |f|)
    {
      ObjectPrefix(text, start, f);
    }
    if end.Some? {
      var cut := rest[..end.value - start];
      assert text[start..end.value] == cut <= rest;
      forall f: string ensures f == cut <==> f <= rest && |f| == |cut| {
      }
    }
  }

  lemma ObjectPrefix(text: string, start: nat, f: string)
    requires start < |text| && text[start] == '{' && f <= text[start..]
    ensures IsObject(f) <==> Scan(text[start..], start, 0, false, false) == Some(start + |f|)
    ensures f == text[start..start + |f|]
  {
    hide Scan, IsObject;
    assert text[start..start + |f|] == f;
    CutsExactlyTheObject(text, start, start + |f|);
  }

  lemma {:induction false} EndIsBehindBrace(text: string, i: nat, depth: int, inStr: bool, esc: bool)
    requires i <= |text|
    ensures match Scan(text[i..], i, depth, inStr, esc)
            case Some(end) => i < end <= |text| && text[end - 1] == '}'
            case None => true
    decreases |text| - i
  {
    hide Scan;
    if i == |text| {
      ScanOfNothing(i, depth, inStr, esc);
    } else {
      var c := text[i];
      var rest := text[i + 1..];
      assert text[i..][1..] == rest;
      ScanStep(text[i..], i, depth, inStr, esc);
      if inStr {
        EndIsBehindBrace(text, i + 1, depth, esc || c != '"', !esc && c == '\\');
      } else if c == '"' {
        EndIsBehindBrace(text, i + 1, depth, true, esc);
      } else {
        EndIsBehindBrace(text, i + 1, depth + (if c == '{' then 1 else if c == '}' then -1 else 0), false, esc);
      }
    }
  }

  lemma ScanStep(t: string, k: nat, depth: int, inStr: bool, esc: bool)
    requires t != []
    ensures Scan(t, k, depth, inStr, esc) ==
            if inStr then Scan(t[1..], k + 1, depth, esc || t[0] != '"', !esc && t[0] == '\\')
            else if t[0] == '"' then Scan(t[1..], k + 1, depth, true, esc)
            else if t[0] == '}' && depth == 1 then Some(k + 1)
            else Scan(t[1..], k + 1, depth + (if t[0] == '{' then 1 else if t[0] == '}' then -1 else 0), false, esc)
  {
  }
}
