/** The link pattern of the normaliser: a bracket, anything up to the next closing
    bracket, a parenthesis right behind it, and a target up to the closing parenthesis.
    A text is read as links with the text before each of them. */
module LinkPattern {
  import opened Basics
  import opened Strings

  /** White space of the language. */
  predicate IsBlank(c: char) {
    var n := c as int;
    9 <= n <= 13 || 0x1C <= n <= 0x20 || n == 0x85 || n == 0xA0 || n == 0x1680 || 0x2000 <= n <= 0x200A
    || n == 0x2028 || n == 0x2029 || n == 0x202F || n == 0x205F || n == 0x3000
  }

  /** What ends a target. */
  predicate Stops(c: char) {
    c == ')' || IsBlank(c)
  }

  predicate HasNoStop(t: string) {
    forall i :: 0 <= i < |t| ==> !Stops(t[i])
  }

  /** A text that the pattern takes as one target. */
  predicate IsLinkText(t: string) {
    t != "" && HasNoStop(t)
  }

  /** What the pattern takes for the target at the start of a text. */
  function ReadOf(t: string): (r: string)
    ensures |r| <= |t| && r == t[..|r|] && HasNoStop(r)
    ensures |r| < |t| ==> Stops(t[|r|])
  {
    if t == "" || Stops(t[0]) then ""
    else
      assert t[..1 + |ReadOf(t[1..])|] == [t[0]] + t[1..][..|ReadOf(t[1..])|];
      [t[0]] + ReadOf(t[1..])
  }

  /** The target is not empty and the closing parenthesis follows, if need be the one
      that stands behind the text. */
  predicate IsRead(t: string) {
    ReadOf(t) != "" && (ReadOf(t) == t || t[|ReadOf(t)|] == ')')
  }

  lemma ReadStep(c: char, t: string)
    requires !Stops(c)
    ensures ReadOf([c] + t) == [c] + ReadOf(t)
  {
    assert ([c] + t)[1..] == t;
  }

  lemma NoStopTail(t: string)
    requires HasNoStop(t) && t != ""
    ensures !Stops(t[0]) && HasNoStop(t[1..])
  {
  }

  lemma {:induction false} ReadBehind(clean: string, t: string)
    requires HasNoStop(clean)
    ensures ReadOf(clean + t) == clean + ReadOf(t)
  {
    hide Stops, HasNoStop, ReadOf;
    if clean == "" {
      assert clean + t == t && clean + ReadOf(t) == ReadOf(t);
    } else {
      NoStopTail(clean);
      ReadBehind(clean[1..], t);
      ReadStep(clean[0], clean[1..] + t);
      assert clean + t == [clean[0]] + (clean[1..] + t);
      assert clean + ReadOf(t) == [clean[0]] + (clean[1..] + ReadOf(t));
    }
  }

  lemma {:induction false} ReadStopped(t: string, more: string)
    requires !HasNoStop(t)
    ensures ReadOf(t + more) == ReadOf(t) && |ReadOf(t)| < |t|
  {
    assert !Stops(t[0]) ==> (t + more)[1..] == t[1..] + more;
    if !Stops(t[0]) {
      assert !HasNoStop(t[1..]);
      ReadStopped(t[1..], more);
    }
  }

  lemma ReadAll(t: string)
    requires HasNoStop(t)
    ensures ReadOf(t) == t
  {
    ReadBehind(t, "");
    assert t + "" == t;
  }

  // ------------------------------------------------------------ texts

  /** A target starts at `at`: it is not empty and a closing parenthesis follows. */
  predicate TargetAt(text: string, at: nat)
    requires at <= |text|
  {
    var n := |ReadOf(text[at..])|;
    n > 0 && at + n < |text| && text[at + n] == ')'
  }

  /** Where the target of the link that starts with the bracket at `i` stands. */
  function MatchAt(text: string, i: nat): (r: Option<nat>)
    requires i < |text|
    ensures r.Some? ==> i + 2 < r.value <= |text| && TargetAt(text, r.value)
  {
    if text[i] != '[' then None
    else
      match IndexFrom(text, "]", i + 1)
      case None => None
      case Some(j) =>
        if j + 1 < |text| && text[j + 1] == '(' && TargetAt(text, j + 2) then Some(j + 2) else None
  }

  /** The target of the first link whose bracket stands at or behind `from`. */
  function FirstTarget(text: string, from: nat): (r: Option<nat>)
    requires from <= |text|
    ensures r.Some? ==> from + 2 < r.value <= |text| && TargetAt(text, r.value)
    decreases |text| - from
  {
    if from == |text| then None
    else if MatchAt(text, from).Some? then MatchAt(text, from)
    else FirstTarget(text, from + 1)
  }

  /** A link with all text before its target, and the text behind the last link. */
  datatype Link = Link(open: string, target: string)

  datatype Document = Document(links: seq<Link>, tail: string)

  /** The first link of a text and what is behind its closing parenthesis. */
  function FirstLink(text: string): (r: Option<(Link, string)>)
    ensures r.Some? ==> IsLinkText(r.value.0.target) && |r.value.1| < |text|
  {
    match FirstTarget(text, 0)
    case None => None
    case Some(at) =>
      var target := ReadOf(text[at..]);
      Some((Link(text[..at], target), text[at + |target| + 1..]))
  }

  lemma FirstLinkText(text: string)
    requires FirstLink(text).Some?
    ensures var (link, rest) := FirstLink(text).value;
            text == link.open + (link.target + ")" + rest) && FirstTarget(text, 0) == Some(|link.open|)
  {
    hide FirstTarget;
    var at := FirstTarget(text, 0).value;
    var target := ReadOf(text[at..]);
    assert text[at..at + |target|] == target;
  }

  function Parse(text: string): (doc: Document)
    ensures forall i :: 0 <= i < |doc.links| ==> IsLinkText(doc.links[i].target)
    decreases |text|
  {
    match FirstLink(text)
    case None => Document([], text)
    case Some((link, rest)) =>
      var doc := Parse(rest);
      Document([link] + doc.links, doc.tail)
  }

  function Render(doc: Document): string
    decreases |doc.links|
  {
    if doc.links == [] then doc.tail
    else doc.links[0].open + (doc.links[0].target + ")" + Render(Document(doc.links[1..], doc.tail)))
  }

  /** Reading a text loses nothing. */
  lemma {:induction false} RenderParse(text: string)
    ensures Render(Parse(text)) == text
    decreases |text|
  {
    hide FirstLink, IsLinkText;
    var f := FirstLink(text);
    if f.Some? {
      FirstLinkText(text);
      RenderParse(f.value.1);
      assert Parse(text).links[1..] == Parse(f.value.1).links;
    }
  }

  // ------------------------------------------------------------ exchanging targets

  /** What stands before a target decides whether an earlier bracket starts a link; the
      target itself and what follows do not matter. */
  lemma OpenDecides(open: string, t: string, u: string, after: string, later: string, i: nat)
    requires i < |open| && IsLinkText(t) && IsLinkText(u)
    ensures MatchAt(open + (t + ")" + after), i).Some? && MatchAt(open + (t + ")" + after), i).value <= |open| ==>
              MatchAt(open + (u + ")" + later), i) == MatchAt(open + (t + ")" + after), i)
  {
    hide ReadOf, Stops, TargetAt, IndexFrom, HasNoStop, IsLinkText;
    var x, y := t + ")" + after, u + ")" + later;
    var m := MatchAt(open + x, i);
    if m.Some? && m.value <= |open| {
      var j := m.value - 2;
      SameIndex(open, x, y, i + 1, j);
      TargetInOpen(open, t, u, after, later, m.value);
      assert (open + y)[i] == (open + x)[i] && (open + y)[j + 1] == (open + x)[j + 1];
    }
  }

  lemma {:induction false} SameIndex(open: string, x: string, y: string, from: nat, j: nat)
    requires from <= j < |open| && IndexFrom(open + x, "]", from) == Some(j)
    ensures IndexFrom(open + y, "]", from) == Some(j)
    decreases j - from
  {
    var s, w := open + x, open + y;
    assert s[from..from + 1] == [s[from]] && w[from..from + 1] == [w[from]] && s[from] == w[from];
    if s[from] != ']' {
      SameIndex(open, x, y, from + 1, j);
    }
  }

  /** A target that starts before the end of `open` either ends in it or runs into the
      target behind it, which ends with a parenthesis too. */
  lemma TargetInOpen(open: string, t: string, u: string, after: string, later: string, at: nat)
    requires at <= |open| && IsLinkText(t) && IsLinkText(u)
    ensures TargetAt(open + (t + ")" + after), at) <==> TargetAt(open + (u + ")" + later), at)
  {
    TargetByOpen(open, t, after, at);
    TargetByOpen(open, u, later, at);
  }

  lemma TargetByOpen(open: string, t: string, after: string, at: nat)
    requires at <= |open| && IsLinkText(t)
    ensures var part := open[at..];
            TargetAt(open + (t + ")" + after), at) <==>
            HasNoStop(part) || (ReadOf(part) != "" && part[|ReadOf(part)|] == ')')
  {
    hide ReadOf;
    var part := open[at..];
    var text := open + (t + ")" + after);
    assert text[at..] == part + (t + (")" + after));
    if HasNoStop(part) {
      ReadBehind(part, t + (")" + after));
      ReadBehind(t, ")" + after);
      NothingBefore(")" + after);
      assert text[|open| + |t|] == ')';
    } else {
      ReadStopped(part, t + (")" + after));
      assert text[at + |ReadOf(part)|] == part[|ReadOf(part)|];
    }
  }

  lemma NothingBefore(t: string)
    requires t != "" && t[0] == ')'
    ensures ReadOf(t) == ""
  {
  }

  /** The first link stays the first one when its target and what follows are exchanged. */
  lemma {:induction false} FirstStays(open: string, t: string, u: string, after: string, later: string, from: nat)
    requires from <= |open| && IsLinkText(t) && IsLinkText(u)
    requires FirstTarget(open + (t + ")" + after), from) == Some(|open|)
    ensures FirstTarget(open + (u + ")" + later), from) == Some(|open|)
    decreases |open| - from
  {
    hide ReadOf, Stops, MatchAt;
    var s, w := open + (t + ")" + after), open + (u + ")" + later);
    if MatchAt(s, from).Some? {
      OpenDecides(open, t, u, after, later, from);
    } else {
      if MatchAt(w, from).Some? {
        NoEarlierMatch(open, t, u, after, later, from);
      }
      FirstStays(open, t, u, after, later, from + 1);
    }
  }

  /** A bracket before the first link starts none after the exchange either. */
  lemma NoEarlierMatch(open: string, t: string, u: string, after: string, later: string, i: nat)
    requires i + 2 < |open| && IsLinkText(t) && IsLinkText(u)
    requires FirstTarget(open + (t + ")" + after), i) == Some(|open|)
    requires MatchAt(open + (u + ")" + later), i).Some?
    ensures MatchAt(open + (t + ")" + after), i).Some?
  {
    hide ReadOf, Stops;
    var s, w := open + (t + ")" + after), open + (u + ")" + later);
    BracketBefore(open, t + ")" + after, i);
    assert w[|open| - 2..|open| - 1] == "]";
    assert OccursAt(w, "]", |open| - 2);
    OpenDecides(open, u, t, later, after, i);
  }

  lemma LinkBracket(open: string, x: string, start: nat)
    requires start < |open| && MatchAt(open + x, start) == Some(|open|)
    ensures start + 2 < |open| && open[|open| - 2] == ']' && open[|open| - 1] == '('
    ensures IndexFrom(open + x, "]", start + 1) == Some(|open| - 2)
  {
    hide ReadOf, TargetAt, IndexFrom;
    var s, j := open + x, |open| - 2;
    assert s[j..j + 1] == "]" && "]"[0] == ']';
    assert s[j..j + 1][0] == s[j] == open[j] && s[j + 1] == open[j + 1];
  }

  /** The link that a search finds has its closing bracket right before its target, so
      a search for one from an earlier place ends there or before. */
  lemma {:induction false} BracketBefore(open: string, x: string, i: nat)
    requires i + 2 < |open| && FirstTarget(open + x, i) == Some(|open|)
    ensures open[|open| - 2] == ']'
    decreases |open| - i
  {
    hide ReadOf, Stops, TargetAt, MatchAt;
    var s := open + x;
    if MatchAt(s, i).Some? {
      LinkBracket(open, x, i);
    } else {
      FirstIsBehind(s, i + 1, |open|);
      BracketBefore(open, x, i + 1);
    }
  }

  lemma FirstIsBehind(s: string, from: nat, at: nat)
    requires from <= |s| && FirstTarget(s, from) == Some(at)
    ensures from + 2 < at
  {
  }

  lemma LinkStays(text: string, u: string, later: string)
    requires FirstLink(text).Some? && IsLinkText(u)
    ensures var open := FirstLink(text).value.0.open;
            FirstLink(open + (u + ")" + later)) == Some((Link(open, u), later))
  {
    hide FirstTarget, ReadOf, IsLinkText, TargetAt;
    FirstLinkText(text);
    var (link, after) := FirstLink(text).value;
    var open := link.open;
    FirstStays(open, link.target, u, after, later, 0);
    var w := open + (u + ")" + later);
    assert w[|open|..] == u + (")" + later) && w[..|open|] == open;
    TargetOf(u, ")" + later);
    assert w[|open| + |u| + 1..] == later;
  }

  /** Links with other targets are found again: reading undoes writing. */
  lemma {:induction false} ParseRender(text: string, links: seq<Link>)
    requires |links| == |Parse(text).links|
    requires forall i :: 0 <= i < |links| ==> links[i].open == Parse(text).links[i].open && IsLinkText(links[i].target)
    ensures Parse(Render(Document(links, Parse(text).tail))) == Document(links, Parse(text).tail)
    decreases |text|
  {
    hide FirstLink, IsLinkText;
    var f := FirstLink(text);
    if f.Some? {
      var (link, after) := f.value;
      assert Parse(text).links[0] == link && Parse(text).links[1..] == Parse(after).links;
      forall i | 0 <= i < |links| - 1 ensures links[1..][i].open == Parse(after).links[i].open {
        assert Parse(text).links[i + 1] == Parse(after).links[i];
      }
      ParseRender(after, links[1..]);
      LinkStays(text, links[0].target, Render(Document(links[1..], Parse(after).tail)));
      assert links == [links[0]] + links[1..];
    } else {
      assert links == [];
    }
  }

  lemma TargetOf(u: string, later: string)
    requires IsLinkText(u) && later != "" && later[0] == ')'
    ensures ReadOf(u + later) == u
  {
    ReadBehind(u, later);
    NothingBefore(later);
  }
  // ------------------------------------------------------------ substitution

  /** A document with each target exchanged. */
  function Exchange(f: string -> string, doc: Document): (r: Document)
    ensures |r.links| == |doc.links| && r.tail == doc.tail
    ensures forall i :: 0 <= i < |doc.links| ==> r.links[i] == Link(doc.links[i].open, f(doc.links[i].target))
  {
    Document(seq(|doc.links|, i requires 0 <= i < |doc.links| => Link(doc.links[i].open, f(doc.links[i].target))),
             doc.tail)
  }

  /** The substitution of all links of a text. */
  function Substitute(f: string -> string, text: string): string {
    Render(Exchange(f, Parse(text)))
  }

  /** What the substitution makes of a text in the place of a target: it exchanges what
      the pattern reads of it. */
  function Reread(f: string -> string, t: string): string {
    if IsRead(t) then f(ReadOf(t)) + t[|ReadOf(t)|..] else t
  }

  lemma ExchangeTail(g: string -> string, doc: Document)
    requires doc.links != []
    ensures var rest := Document(doc.links[1..], doc.tail);
            Render(Exchange(g, doc)) ==
            doc.links[0].open + (g(doc.links[0].target) + ")" + Render(Exchange(g, rest)))
  {
    var r, rest := Exchange(g, doc), Exchange(g, Document(doc.links[1..], doc.tail));
    assert r.links[1..] == rest.links;
    assert Document(r.links[1..], r.tail) == rest;
  }

  lemma ParseStep(text: string)
    requires FirstLink(text).Some?
    ensures var (link, rest) := FirstLink(text).value;
            var doc := Parse(text);
            doc.links != [] && doc.links[0] == link && Document(doc.links[1..], doc.tail) == Parse(rest)
  {
    hide FirstLink;
    assert Parse(text).links[1..] == Parse(FirstLink(text).value.1).links;
  }

  lemma SubstituteStep(f: string -> string, text: string)
    ensures Substitute(f, text) ==
            match FirstLink(text)
            case None => text
            case Some((link, rest)) => link.open + (f(link.target) + ")" + Substitute(f, rest))
  {
    if FirstLink(text).Some? {
      hide FirstLink, Parse, Render;
      ParseStep(text);
      ExchangeTail(f, Parse(text));
    } else {
      hide FirstLink;
    }
  }

  predicate NoBracket(x: string) {
    forall i :: 0 <= i < |x| ==> x[i] != '['
  }

  function Shift(r: Option<nat>, n: nat): Option<nat> {
    match r case None => None case Some(k) => Some(n + k)
  }

  lemma IndexStep(s: string, from: nat)
    requires from <= |s|
    ensures IndexFrom(s, "]", from) ==
            if from == |s| then None else if s[from] == ']' then Some(from) else IndexFrom(s, "]", from + 1)
  {
    if from < |s| {
      assert s[from..from + 1] == [s[from]];
    }
  }

  lemma {:induction false} IndexShift(x: string, s: string, from: nat)
    requires from <= |s|
    ensures IndexFrom(x + s, "]", |x| + from) == Shift(IndexFrom(s, "]", from), |x|)
    decreases |s| - from
  {
    hide IndexFrom, OccursAt;
    IndexStep(s, from);
    IndexStep(x + s, |x| + from);
    if from < |s| {
      assert (x + s)[|x| + from] == s[from];
      IndexShift(x, s, from + 1);
    }
  }

  lemma TargetShift(x: string, s: string, at: nat)
    requires at <= |s|
    ensures TargetAt(x + s, |x| + at) <==> TargetAt(s, at)
  {
    hide ReadOf;
    assert (x + s)[|x| + at..] == s[at..];
    var n := |ReadOf(s[at..])|;
    assert at + n < |s| ==> (x + s)[|x| + (at + n)] == s[at + n];
  }

  lemma MatchShift(x: string, s: string, i: nat)
    requires i < |s|
    ensures MatchAt(x + s, |x| + i) == Shift(MatchAt(s, i), |x|)
  {
    hide ReadOf, IndexFrom, TargetAt;
    var w := x + s;
    IndexShift(x, s, i + 1);
    assert w[|x| + i] == s[i];
    var k := IndexFrom(s, "]", i + 1);
    if k.Some? && k.value + 1 < |s| {
      assert w[|x| + (k.value + 1)] == s[k.value + 1];
      TargetShift(x, s, k.value + 2);
    }
  }

  lemma {:induction false} FirstShift(x: string, s: string, from: nat)
    requires from <= |s|
    ensures FirstTarget(x + s, |x| + from) == Shift(FirstTarget(s, from), |x|)
    decreases |s| - from
  {
    hide MatchAt, TargetAt;
    if from < |s| {
      MatchShift(x, s, from);
      FirstShift(x, s, from + 1);
    }
  }

  /** Where no link starts, the search goes on. */
  lemma {:induction false} FirstBehind(w: string, from: nat, to: nat)
    requires from <= to <= |w| && forall i :: from <= i < to ==> MatchAt(w, i).None?
    ensures FirstTarget(w, from) == FirstTarget(w, to)
    decreases |w| - from
  {
    hide MatchAt;
    if from < to {
      FirstBehind(w, from + 1, to);
    }
  }

  lemma CutShift(x: string, s: string, at: nat)
    requires at <= |s| && TargetAt(s, at)
    ensures var w := x + s;
            var target := ReadOf(s[at..]);
            && w[|x| + at..] == s[at..] && w[..|x| + at] == x + s[..at]
            && at + |target| + 1 <= |s| && w[|x| + at + |target| + 1..] == s[at + |target| + 1..]
  {
    hide ReadOf;
    var w := x + s;
    assert w[|x| + at..] == s[at..];
    assert w[..|x| + at] == x + s[..at];
    var next := at + |ReadOf(s[at..])| + 1;
    assert w[|x| + next..] == s[next..];
  }

  lemma SkipTarget(x: string, s: string)
    requires forall i :: 0 <= i < |x| ==> MatchAt(x + s, i).None?
    ensures FirstTarget(x + s, 0) == Shift(FirstTarget(s, 0), |x|)
  {
    hide MatchAt, FirstTarget;
    FirstBehind(x + s, 0, |x|);
    FirstShift(x, s, 0);
  }

  lemma FirstLinkIs(w: string, at: nat, open: string, target: string, rest: string)
    requires FirstTarget(w, 0) == Some(at) && open == w[..at] && target == ReadOf(w[at..])
    requires at + |target| + 1 <= |w| && rest == w[at + |target| + 1..]
    ensures FirstLink(w) == Some((Link(open, target), rest))
  {
    hide ReadOf, FirstTarget, TargetAt, IsLinkText, HasNoStop, Stops;
  }

  lemma NoFirstLink(w: string)
    requires FirstTarget(w, 0).None?
    ensures FirstLink(w).None?
  {
    hide FirstTarget;
  }

  lemma SkipLink(x: string, s: string)
    requires FirstTarget(x + s, 0) == Shift(FirstTarget(s, 0), |x|)
    ensures FirstLink(x + s) == match FirstLink(s)
                                case None => None
                                case Some((link, rest)) => Some((Link(x + link.open, link.target), rest))
  {
    hide ReadOf, FirstTarget, TargetAt, FirstLink;
    var f := FirstTarget(s, 0);
    if f.Some? {
      var open, target := s[..f.value], ReadOf(s[f.value..]);
      CutShift(x, s, f.value);
      var rest := s[f.value + |target| + 1..];
      FirstLinkIs(s, f.value, open, target, rest);
      FirstLinkIs(x + s, |x| + f.value, x + open, target, rest);
    } else {
      NoFirstLink(s);
      NoFirstLink(x + s);
    }
  }

  lemma Reassociate(a: string, b: string, c: string)
    ensures (a + b) + c == a + (b + c)
  {
  }

  /** A stretch in which no link starts is kept as it is. */
  lemma SubstituteSkips(f: string -> string, x: string, s: string)
    requires forall i :: 0 <= i < |x| ==> MatchAt(x + s, i).None?
    ensures Substitute(f, x + s) == x + Substitute(f, s)
  {
    hide FirstLink, Substitute, MatchAt, FirstTarget;
    SkipTarget(x, s);
    SkipLink(x, s);
    SubstituteStep(f, x + s);
    SubstituteStep(f, s);
    var l := FirstLink(s);
    if l.Some? {
      Reassociate(x, l.value.0.open, f(l.value.0.target) + ")" + Substitute(f, l.value.1));
    }
  }

  lemma NoBracketNoMatch(x: string, s: string)
    requires NoBracket(x)
    ensures forall i :: 0 <= i < |x| ==> MatchAt(x + s, i).None?
  {
    assert forall i :: 0 <= i < |x| ==> (x + s)[i] == x[i];
  }

  // ------------------------------------------------------------ texts in the place of targets

  /** Reading meets a blank. */
  predicate IsBlocked(t: string) {
    |ReadOf(t)| < |t| && t[|ReadOf(t)|] != ')'
  }

  /** A text that can be read again where it stands: it is one target, or the pattern
      reads a part of it or meets a blank, and no bracket is left over. */
  predicate IsWritten(t: string) {
    IsLinkText(t) || (NoBracket(t) && (IsRead(t) || IsBlocked(t)))
  }

  lemma BlockedTarget(open: string, u: string, later: string, at: nat)
    requires at <= |open| && IsBlocked(u)
    ensures var part := open[at..];
            TargetAt(open + (u + ")" + later), at) <==>
            !HasNoStop(part) && ReadOf(part) != "" && part[|ReadOf(part)|] == ')'
  {
    hide ReadOf, Stops;
    var part := open[at..];
    var behind := u + ")" + later;
    var text := open + behind;
    assert text[at..] == part + behind;
    if HasNoStop(part) {
      ReadBehind(part, behind);
      BlockedStops(u);
      ReadStopped(u, ")" + later);
      assert behind == u + (")" + later);
      assert text[|open| + |ReadOf(u)|] == u[|ReadOf(u)|];
    } else {
      ReadStopped(part, behind);
      assert text[at + |ReadOf(part)|] == part[|ReadOf(part)|];
    }
  }

  lemma BlockedStops(u: string)
    requires IsBlocked(u)
    ensures !HasNoStop(u)
  {
  }

  /** Behind the bracket of the first link and before its target no other closing bracket
      stands, so any bracket there leads to the same target. */
  lemma BlockedLink(open: string, x: string, u: string, later: string, start: nat, i: nat)
    requires start <= i < |open| && IsBlocked(u)
    requires MatchAt(open + x, start) == Some(|open|)
    ensures MatchAt(open + (u + ")" + later), i).None?
  {
    hide ReadOf, Stops, TargetAt, IsBlocked, IndexFrom, HasNoStop, MatchAt, OccursAt;
    LinkBracket(open, x, start);
    var y := u + ")" + later;
    assert (open + y)[i] == open[i];
    if open[i] == '[' {
      BlockedHere(open, u, later);
      IndexLater(open + x, start + 1, i + 1, |open| - 2);
      SameIndex(open, x, y, i + 1, |open| - 2);
      NoTargetNoMatch(open + y, i, |open| - 2);
    } else {
      NoMatchHere(open, y, i);
    }
  }

  lemma NoTargetNoMatch(w: string, i: nat, j: nat)
    requires i < |w| && j + 2 <= |w| && IndexFrom(w, "]", i + 1) == Some(j) && !TargetAt(w, j + 2)
    ensures MatchAt(w, i).None?
  {
  }

  lemma BlockedHere(open: string, u: string, later: string)
    requires IsBlocked(u)
    ensures !TargetAt(open + (u + ")" + later), |open|)
  {
    hide TargetAt, IsBlocked, ReadOf;
    BlockedTarget(open, u, later, |open|);
    assert open[|open|..] == [];
  }

  lemma {:induction false} IndexLater(s: string, from: nat, to: nat, j: nat)
    requires from <= to <= j < |s| && IndexFrom(s, "]", from) == Some(j)
    ensures IndexFrom(s, "]", to) == Some(j)
    decreases |s| - from
  {
    if from < to {
      IndexLater(s, from + 1, to, j);
    }
  }

  lemma {:induction false} BlockedStays(open: string, t: string, after: string, u: string, later: string, from: nat)
    requires from <= |open| && IsLinkText(t) && IsBlocked(u)
    requires FirstTarget(open + (t + ")" + after), from) == Some(|open|)
    ensures forall i :: from <= i < |open| ==> MatchAt(open + (u + ")" + later), i).None?
    decreases |open| - from
  {
    hide ReadOf, Stops, MatchAt, IsBlocked;
    var s, w := open + (t + ")" + after), open + (u + ")" + later);
    if MatchAt(s, from).Some? {
      forall i | from <= i < |open| ensures MatchAt(w, i).None? {
        BlockedLink(open, t + ")" + after, u, later, from, i);
      }
    } else {
      if MatchAt(w, from).Some? {
        BlockedMatch(open, t, after, u, later, from);
      }
      BlockedStays(open, t, after, u, later, from + 1);
    }
  }

  /** A link that starts before the first one of the old text would be one of the old text. */
  lemma BlockedMatch(open: string, t: string, after: string, u: string, later: string, i: nat)
    requires i + 2 < |open| && IsLinkText(t) && IsBlocked(u)
    requires FirstTarget(open + (t + ")" + after), i) == Some(|open|)
    requires MatchAt(open + (u + ")" + later), i).Some?
    ensures MatchAt(open + (t + ")" + after), i).Some?
  {
    hide ReadOf, Stops, TargetAt, IsBlocked, FirstTarget, HasNoStop, IndexFrom;
    var s, w := open + (t + ")" + after), open + (u + ")" + later);
    BracketBefore(open, t + ")" + after, i);
    assert w[|open| - 2..|open| - 1] == "]";
    assert OccursAt(w, "]", |open| - 2);
    var at := MatchAt(w, i).value;
    var j := at - 2;
    SameIndex(open, u + ")" + later, t + ")" + after, i + 1, j);
    BlockedTarget(open, u, later, at);
    TargetByOpen(open, t, after, at);
    assert s[i] == w[i] && s[j + 1] == w[j + 1];
  }

  /** Substituting in a text whose first target was exchanged for a written text. */
  lemma SubstituteWritten(f: string -> string, text: string, u: string, later: string)
    requires FirstLink(text).Some? && IsWritten(u)
    ensures var open := FirstLink(text).value.0.open;
            Substitute(f, open + (u + ")" + later)) == open + (Reread(f, u) + ")" + Substitute(f, later))
  {
    hide FirstLink, Substitute, ReadOf, MatchAt, IsBlocked, HasNoStop, NoBracket;
    FirstLinkText(text);
    var (link, after) := FirstLink(text).value;
    var open := link.open;
    if IsLinkText(u) {
      ReadAll(u);
    }
    if IsRead(u) {
      SubstituteRead(f, text, u, later);
    } else {
      var x := open + (u + ")");
      assert open + (u + ")" + later) == x + later;
      BlockedSkips(text, u, later);
      SubstituteSkips(f, x, later);
      assert x + Substitute(f, later) == open + (u + ")" + Substitute(f, later));
    }
  }

  lemma BlockedSkips(text: string, u: string, later: string)
    requires FirstLink(text).Some? && IsBlocked(u) && NoBracket(u)
    ensures var x := FirstLink(text).value.0.open + (u + ")");
            forall i :: 0 <= i < |x| ==> MatchAt(x + later, i).None?
  {
    hide FirstTarget, MatchAt, ReadOf, IsBlocked;
    FirstLinkText(text);
    var (link, after) := FirstLink(text).value;
    var open := link.open;
    var x := open + (u + ")");
    assert x + later == open + (u + ")" + later);
    BlockedStays(open, link.target, after, u, later, 0);
    forall i | |open| <= i < |x| ensures MatchAt(x + later, i).None? {
      NoMatchHere(x, later, i);
    }
  }

  lemma NoMatchHere(x: string, later: string, i: nat)
    requires i < |x| && x[i] != '['
    ensures MatchAt(x + later, i).None?
  {
  }

  lemma SubstituteRead(f: string -> string, text: string, u: string, later: string)
    requires FirstLink(text).Some? && IsRead(u) && (IsLinkText(u) || NoBracket(u))
    ensures var open := FirstLink(text).value.0.open;
            Substitute(f, open + (u + ")" + later)) == open + (Reread(f, u) + ")" + Substitute(f, later))
  {
    hide FirstLink, Substitute, ReadOf, MatchAt, HasNoStop, NoBracket;
    var open := FirstLink(text).value.0.open;
    var h := ReadOf(u);
    if h == u {
      LinkStays(text, u, later);
      SubstituteStep(f, open + (u + ")" + later));
      assert f(u) + u[|u|..] == f(u);
    } else {
      ReadInside(u);
      SubstitutePart(f, text, h, u[|h| + 1..], later, u);
    }
  }

  /** The pattern reads `h`, and goes on behind the parenthesis that follows it. */
  lemma SubstitutePart(f: string -> string, text: string, h: string, z: string, later: string, u: string)
    requires FirstLink(text).Some? && IsLinkText(h) && u == h + ")" + z && NoBracket(u)
    ensures var open := FirstLink(text).value.0.open;
            Substitute(f, open + (u + ")" + later)) == open + (f(h) + u[|h|..] + ")" + Substitute(f, later))
  {
    hide FirstLink, Substitute, ReadOf, MatchAt, IsLinkText;
    var open := FirstLink(text).value.0.open;
    var x := z + ")";
    assert u + ")" + later == h + ")" + (x + later);
    LinkStays(text, h, x + later);
    SubstituteStep(f, open + (h + ")" + (x + later)));
    TailHasNoBracket(h, z);
    NoBracketNoMatch(x, later);
    SubstituteSkips(f, x, later);
    assert u[|h|..] == ")" + z;
    assert f(h) + (")" + z) + ")" + Substitute(f, later) == f(h) + ")" + (x + Substitute(f, later));
  }

  lemma TailHasNoBracket(h: string, z: string)
    requires NoBracket(h + ")" + z)
    ensures NoBracket(z + ")")
  {
    var u := h + ")" + z;
    assert forall i :: 0 <= i < |z| ==> z[i] == u[|h| + 1 + i];
  }

  lemma ReadInside(u: string)
    requires IsRead(u) && ReadOf(u) != u
    ensures |ReadOf(u)| < |u| && IsLinkText(ReadOf(u)) && !IsLinkText(u)
    ensures u == ReadOf(u) + ")" + u[|ReadOf(u)| + 1..]
  {
    assert Stops(u[|ReadOf(u)|]);
  }

  /** A second substitution, on a text whose targets were exchanged for written texts,
      exchanges in each of them what the pattern reads of it, and nothing else. */
  lemma {:induction false} SubstituteTwice(f: string -> string, text: string, links: seq<Link>)
    requires |links| == |Parse(text).links|
    requires forall i :: 0 <= i < |links| ==> links[i].open == Parse(text).links[i].open && IsWritten(links[i].target)
    ensures Substitute(f, Render(Document(links, Parse(text).tail)))
         == Render(Exchange(t => Reread(f, t), Document(links, Parse(text).tail)))
    decreases |text|
  {
    hide FirstLink, Substitute, Reread, IsWritten;
    var g := t => Reread(f, t);
    var l := FirstLink(text);
    var doc := Document(links, Parse(text).tail);
    if l.Some? {
      var (link, after) := l.value;
      assert Parse(text).links[0] == link && Parse(text).links[1..] == Parse(after).links;
      forall i | 0 <= i < |links| - 1 ensures links[1..][i].open == Parse(after).links[i].open {
        assert Parse(text).links[i + 1] == Parse(after).links[i];
      }
      SubstituteTwice(f, after, links[1..]);
      var rest := Document(links[1..], Parse(after).tail);
      SubstituteWritten(f, text, links[0].target, Render(rest));
      ExchangeTail(g, doc);
    } else {
      SubstituteStep(f, text);
      assert links == [] && Render(doc) == text;
    }
  }

  lemma RenderStep(doc: Document)
    ensures Render(doc) ==
            if doc.links == [] then doc.tail
            else doc.links[0].open + (doc.links[0].target + ")" + Render(Document(doc.links[1..], doc.tail)))
  {
  }

  /** Documents that differ in what the pattern reads of some target have different texts. */
  lemma {:induction false} RenderDiffers(a: Document, b: Document)
    requires |a.links| == |b.links| && a.tail == b.tail
    requires forall i :: 0 <= i < |a.links| ==>
               && a.links[i].open == b.links[i].open
               && (a.links[i].target == b.links[i].target || ReadOf(a.links[i].target) != ReadOf(b.links[i].target))
    ensures Render(a) == Render(b) <==> a == b
    decreases |a.links|
  {
    hide ReadOf, Render;
    RenderStep(a);
    RenderStep(b);
    if a.links == [] {
      assert a.links == b.links;
    } else {
      var x, y := Document(a.links[1..], a.tail), Document(b.links[1..], b.tail);
      RenderDiffers(x, y);
      var open, u, v := a.links[0].open, a.links[0].target, b.links[0].target;
      assert a.links == [a.links[0]] + a.links[1..] && b.links == [b.links[0]] + b.links[1..];
      assert a == b <==> u == v && x == y;
      SameText(open, u, v, Render(x), Render(y));
    }
  }

  lemma SameText(open: string, u: string, v: string, x: string, y: string)
    requires u == v || ReadOf(u) != ReadOf(v)
    ensures open + (u + ")" + x) == open + (v + ")" + y) <==> u == v && x == y
  {
    hide ReadOf;
    var s, w := u + ")" + x, v + ")" + y;
    assert (open + s)[|open|..] == s && (open + w)[|open|..] == w;
    ReadThen(u, x);
    ReadThen(v, y);
    if u == v {
      assert s[|u| + 1..] == x && w[|u| + 1..] == y;
    }
  }

  lemma ReadThen(u: string, x: string)
    ensures ReadOf(u + ")" + x) == ReadOf(u)
  {
    assert u + ")" + x == u + (")" + x);
    if HasNoStop(u) {
      ReadBehind(u, ")" + x);
      NothingBefore(")" + x);
      ReadAll(u);
    } else {
      ReadStopped(u, ")" + x);
    }
  }

  // ------------------------------------------------------------ what the pattern matches

  /** At `i` stands a bracket, a label without closing bracket, a closing bracket and a
      parenthesis, a target without parenthesis or white space, and a parenthesis. */
  predicate IsLinkAt(text: string, i: nat, inner: string, target: string, rest: string) {
    && i <= |text| && text[i..] == "[" + inner + "](" + target + ")" + rest
    && (forall k :: 0 <= k < |inner| ==> inner[k] != ']')
    && target != "" && forall k :: 0 <= k < |target| ==> target[k] != ')' && !IsBlank(target[k])
  }

  lemma MatchIsLink(text: string, i: nat) returns (inner: string, target: string, rest: string)
    requires i < |text| && MatchAt(text, i).Some?
    ensures IsLinkAt(text, i, inner, target, rest) && MatchAt(text, i).value == i + |inner| + 3
  {
    hide IsBlank, ReadOf;
    var j := IndexFrom(text, "]", i + 1).value;
    var at := MatchAt(text, i).value;
    target := ReadOf(text[at..]);
    inner, rest := text[i + 1..j], text[at + |target| + 1..];
    forall k | 0 <= k < |inner| ensures inner[k] != ']' {
      assert inner[k] == text[i + 1 + k];
      assert inner[k] == ']' ==> OccursAt(text, "]", i + 1 + k);
    }
    assert OccursAt(text, "]", j) && text[j] == ']';
    LinkSlices(text, i, j, at + |target|);
    assert text[at..at + |target|] == target;
  }

  lemma LinkSlices(text: string, i: nat, j: nat, end: nat)
    requires i < j && j + 2 <= end < |text|
    requires text[i] == '[' && text[j] == ']' && text[j + 1] == '(' && text[end] == ')'
    ensures text[i..] == "[" + text[i + 1..j] + "](" + text[j + 2..end] + ")" + text[end + 1..]
  {
    assert text[i..] == text[i..i + 1] + text[i + 1..j] + text[j..j + 2] + text[j + 2..end]
                        + text[end..end + 1] + text[end + 1..];
    assert text[i..i + 1] == "[" && text[j..j + 2] == "](" && text[end..end + 1] == ")";
  }

  /** The parts of a link, character by character. */
  lemma LinkParts(text: string, i: nat, inner: string, target: string, rest: string)
    requires IsLinkAt(text, i, inner, target, rest)
    ensures var at := i + |inner| + 3;
            && at + |target| < |text| && text[i] == '[' && text[at - 2] == ']' && text[at - 1] == '('
            && text[at..] == target + (")" + rest) && text[at + |target|] == ')'
    ensures forall k :: i < k < i + |inner| + 1 ==> text[k] != ']'
  {
    hide IsBlank;
    var s, at := "[" + inner + "](" + target + ")" + rest, i + |inner| + 3;
    assert text[i] == s[0] && text[at - 2] == s[1 + |inner|] && text[at - 1] == s[2 + |inner|];
    assert text[at..] == s[|inner| + 3..] == target + (")" + rest);
    assert text[at + |target|] == text[at..][|target|];
    forall k | i < k < i + |inner| + 1 ensures text[k] != ']' {
      assert text[k] == s[k - i] == inner[k - i - 1];
    }
  }

  lemma LinkIsMatch(text: string, i: nat, inner: string, target: string, rest: string)
    requires IsLinkAt(text, i, inner, target, rest)
    ensures i < |text| && MatchAt(text, i) == Some(i + |inner| + 3)
  {
    hide ReadOf;
    LinkParts(text, i, inner, target, rest);
    ReadOfTarget(target, rest);
    hide IsLinkAt;
    var j := i + 1 + |inner|;
    assert OccursAt(text, "]", j);
    assert forall k :: i + 1 <= k < j ==> !OccursAt(text, "]", k);
  }

  lemma ReadOfTarget(target: string, rest: string)
    requires forall k :: 0 <= k < |target| ==> target[k] != ')' && !IsBlank(target[k])
    ensures ReadOf(target + (")" + rest)) == target
  {
    hide IsBlank;
    ReadBehind(target, ")" + rest);
    assert (")" + rest)[0] == ')';
  }

  /** Where a link starts, and where its target stands. */
  lemma MatchExactlyWhen(text: string, i: nat, at: nat)
    requires i < |text|
    ensures MatchAt(text, i) == Some(at) <==>
            exists inner, target, rest :: IsLinkAt(text, i, inner, target, rest) && at == i + |inner| + 3
  {
    hide MatchAt, IsLinkAt;
    if MatchAt(text, i) == Some(at) {
      var inner, target, rest := MatchIsLink(text, i);
    }
    if inner, target, rest :| IsLinkAt(text, i, inner, target, rest) && at == i + |inner| + 3 {
      LinkIsMatch(text, i, inner, target, rest);
    }
  }

  /** No link starts from `from` on below `to`. */
  predicate NoneStarts(text: string, from: nat, to: nat)
    requires to <= |text|
  {
    forall k :: from <= k < to ==> MatchAt(text, k).None?
  }

  lemma {:induction false} FirstFound(text: string, from: nat) returns (i: nat)
    requires from <= |text| && FirstTarget(text, from).Some?
    ensures from <= i < |text| && MatchAt(text, i) == FirstTarget(text, from) && NoneStarts(text, from, i)
    decreases |text| - from
  {
    hide MatchAt;
    if MatchAt(text, from).Some? {
      i := from;
    } else {
      i := FirstFound(text, from + 1);
    }
  }

  /** The search finds the link that starts first. */
  lemma FirstIsLeftmost(text: string, from: nat, at: nat)
    requires from <= |text|
    ensures FirstTarget(text, from) == Some(at) <==>
            exists i :: from <= i < |text| && MatchAt(text, i) == Some(at) && NoneStarts(text, from, i)
  {
    hide MatchAt, FirstTarget;
    if FirstTarget(text, from) == Some(at) {
      var i := FirstFound(text, from);
    }
    if i :| from <= i < |text| && MatchAt(text, i) == Some(at) && NoneStarts(text, from, i) {
      FirstBehind(text, from, i);
      FoundHere(text, i);
    }
  }

  lemma FoundHere(text: string, i: nat)
    requires i < |text| && MatchAt(text, i).Some?
    ensures FirstTarget(text, i) == MatchAt(text, i)
  {
  }
}
