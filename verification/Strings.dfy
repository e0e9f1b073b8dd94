/** Searching in strings, as the standard libraries of the source languages do it. */
module Strings {
  import opened Basics

  /** Pattern `p` occurs in `s` at `i`. */
  predicate OccursAt(s: string, p: string, i: int) {
    0 <= i && i + |p| <= |s| && s[i..i + |p|] == p
  }

  /** Position of the first occurrence at or behind `from`. */
  function IndexFrom(s: string, p: string, from: nat): (r: Option<nat>)
    requires from <= |s|
    ensures r.Some? ==> from <= r.value && OccursAt(s, p, r.value)
    ensures forall j :: from <= j && OccursAt(s, p, j) ==> r.Some? && r.value <= j
    decreases |s| - from
  {
    if OccursAt(s, p, from) then Some(from)
    else if from == |s| then None
    else IndexFrom(s, p, from + 1)
  }

  function Index(s: string, p: string): (r: Option<nat>) {
    IndexFrom(s, p, 0)
  }

  /** Position of the last occurrence that starts below `bound`. */
  function LastBelow(s: string, p: string, bound: nat): (r: Option<nat>)
    requires bound <= |s| + 1
    ensures r.Some? ==> r.value < bound && OccursAt(s, p, r.value)
    ensures forall j :: j < bound && OccursAt(s, p, j) ==> r.Some? && j <= r.value
  {
    if bound == 0 then None
    else if OccursAt(s, p, bound - 1) then Some(bound - 1)
    else LastBelow(s, p, bound - 1)
  }

  function LastIndex(s: string, p: string): (r: Option<nat>)
    ensures r.Some? ==> OccursAt(s, p, r.value)
    ensures forall j :: OccursAt(s, p, j) ==> r.Some? && j <= r.value
  {
    LastBelow(s, p, |s| + 1)
  }
}

/** The inside of string literals with backslash escapes. */
module Literals {
  /** A character of a string literal, plain or behind a backslash. */
  datatype StrChar = Raw(c: char) | Escaped(c: char)

  /** No plain character ends the literal or starts an escape. */
  predicate BodyOk(body: seq<StrChar>, quote: char) {
    forall i :: 0 <= i < |body| ==> body[i].Raw? ==> body[i].c != quote && body[i].c != '\\'
  }

  function PrintBody(body: seq<StrChar>): string {
    if body == [] then []
    else (match body[0] case Raw(c) => [c] case Escaped(c) => ['\\', c]) + PrintBody(body[1..])
  }
}

/** Texts cut at every occurrence of a separator: lines at newlines, paths at slashes. */
module Lines {
  import opened Basics
  import opened Strings

  /** The text cut at every separator; the last part may be empty. */
  function Split(t: string, sep: char): (lines: seq<string>)
    ensures lines != []
  {
    if t == [] then [[]]
    else if t[0] == sep then [[]] + Split(t[1..], sep)
    else
      var rest := Split(t[1..], sep);
      [[t[0]] + rest[0]] + rest[1..]
  }

  function Unsplit(lines: seq<string>, sep: char): string
    requires lines != []
  {
    if |lines| == 1 then lines[0] else lines[0] + [sep] + Unsplit(lines[1..], sep)
  }

  predicate Lacks(line: string, sep: char) {
    forall i :: 0 <= i < |line| ==> line[i] != sep
  }

  /** Cutting is the inverse of joining newline-free lines by newlines. */
  lemma {:induction false} SplitJoins(t: string, sep: char)
    ensures Unsplit(Split(t, sep), sep) == t
    ensures forall i :: 0 <= i < |Split(t, sep)| ==> Lacks(Split(t, sep)[i], sep)
  {
    if t != [] {
      SplitJoins(t[1..], sep);
    }
  }

  lemma {:induction false} SplitOfLine(line: string, rest: string, sep: char)
    requires Lacks(line, sep)
    ensures Split(line + [sep] + rest, sep) == [line] + Split(rest, sep)
    ensures Split(line, sep) == [line]
  {
    if line == [] {
      assert line + [sep] + rest == [sep] + rest;
      assert ([sep] + rest)[1..] == rest;
    } else {
      SplitOfLine(line[1..], rest, sep);
      assert (line + [sep] + rest)[1..] == line[1..] + [sep] + rest;
      assert ([line[1..]] + Split(rest, sep))[1..] == Split(rest, sep);
      assert [line[0]] + line[1..] == line;
    }
  }

  lemma {:induction false} JoinSplits(lines: seq<string>, sep: char)
    requires lines != [] && forall i :: 0 <= i < |lines| ==> Lacks(lines[i], sep)
    ensures Split(Unsplit(lines, sep), sep) == lines
    decreases |lines|
  {
    if |lines| == 1 {
      SplitOfLine(lines[0], [], sep);
      assert lines == [lines[0]];
    } else {
      JoinSplits(lines[1..], sep);
      SplitOfLine(lines[0], Unsplit(lines[1..], sep), sep);
    }
  }

  function Last(lines: seq<string>): string
    requires lines != []
  {
    lines[|lines| - 1]
  }

  function Front(lines: seq<string>): seq<string>
    requires lines != []
  {
    lines[..|lines| - 1]
  }

  /** The first newline of a text, if it has one. */
  lemma FirstSeparator(t: string, sep: char)
    ensures match Index(t, [sep])
            case Some(i) => i < |t| && Lacks(t[..i], sep) && t == t[..i] + [sep] + t[i + 1..]
            case None => Lacks(t, sep)
  {
    forall j | 0 <= j < |t| && t[j] == sep ensures OccursAt(t, [sep], j) {
      assert t[j..j + 1] == [sep];
    }
    var i := Index(t, [sep]);
    if i.Some? {
      assert t[i.value..i.value + 1][0] == sep;
    }
  }

  /** More text only continues the last line. */
  lemma {:induction false} SplitMore(t: string, more: string, sep: char)
    ensures Split(t + more, sep) == Front(Split(t, sep)) + Split(Last(Split(t, sep)) + more, sep)
    decreases |t|
  {
    hide Split;
    FirstSeparator(t, sep);
    var i := Index(t, [sep]);
    if i.None? {
      SplitOfLine(t, [], sep);
    } else {
      var line, rest := t[..i.value], t[i.value + 1..];
      SplitOfLine(line, rest, sep);
      SplitOfLine(line, rest + more, sep);
      assert t + more == line + [sep] + (rest + more);
      SplitMore(rest, more, sep);
      assert Front(Split(t, sep)) == [line] + Front(Split(rest, sep));
    }
  }
}
