/** What the brace checker misses: it counts each kind of bracket by itself, so it
    accepts a text exactly when the text would be properly nested but for pairs of
    different kinds that cross. */
module BracketNesting {
  import opened Basics
  import opened BraceChecker

  predicate IsBracket(c: char) {
    c in "{}()[]"
  }

  /** Code with all brackets properly nested: other characters, and pairs of one kind
      around nested code. */
  datatype Nested = Nil | Other(c: char, rest: Nested) | Enclosed(kind: Kind, inner: Nested, rest: Nested)

  predicate NestedOk(f: Nested) {
    match f
    case Nil => true
    case Other(c, rest) => !IsBracket(c) && NestedOk(rest)
    case Enclosed(_, inner, rest) => NestedOk(inner) && NestedOk(rest)
  }

  function Text(f: Nested): string {
    match f
    case Nil => ""
    case Other(c, rest) => [c] + Text(rest)
    case Enclosed(k, inner, rest) => [Opening(k)] + Text(inner) + [Closing(k)] + Text(rest)
  }

  ghost predicate ProperlyNested(cs: string) {
    exists f :: NestedOk(f) && cs == Text(f)
  }

  /** The bracket at `i` is closed by the one at `j`, as far as its own kind goes. */
  ghost predicate IsPair(cs: string, k: Kind, i: int, j: int) {
    0 <= i < j < |cs| && cs[i] == Opening(k) && cs[j] == Closing(k) && Balanced(Project(cs[i + 1..j], k))
  }

  /** A pair of one kind starts inside a pair of another kind and ends outside it. */
  ghost predicate CrossAt(cs: string, k: Kind, l: Kind, i: int, j: int, m: int, n: int) {
    k != l && i < j < m < n && IsPair(cs, k, i, m) && IsPair(cs, l, j, n)
  }

  ghost predicate Crosses(cs: string) {
    exists k, l, i, j, m, n :: CrossAt(cs, k, l, i, j, m, n)
  }

  // ------------------------------------------------------------ levels

  lemma {:induction false} LevelConcat(a: seq<bool>, b: seq<bool>, d: int)
    ensures Level(a + b, d) == Level(b, Level(a, d))
    ensures NeverBelow(a + b, d) <==> NeverBelow(a, d) && NeverBelow(b, Level(a, d))
    decreases |a|
  {
    if a == [] {
      assert a + b == b;
      BelowAtStart(b, d);
    } else {
      assert (a + b)[1..] == a[1..] + b;
      LevelConcat(a[1..], b, if a[0] then d + 1 else d - 1);
    }
  }

  lemma BelowAtStart(w: seq<bool>, d: int)
    ensures NeverBelow(w, d) ==> d >= 0
  {
  }

  lemma {:induction false} LevelShift(w: seq<bool>, d: int, e: nat)
    ensures Level(w, d + e) == Level(w, d) + e
    ensures NeverBelow(w, d) ==> NeverBelow(w, d + e)
    decreases |w|
  {
    if w != [] {
      LevelShift(w[1..], if w[0] then d + 1 else d - 1, e);
    }
  }

  lemma {:induction false} LevelIsNat(w: seq<bool>, d: int)
    requires NeverBelow(w, d)
    ensures Level(w, d) >= 0
    decreases |w|
  {
    if w != [] {
      LevelIsNat(w[1..], if w[0] then d + 1 else d - 1);
    }
  }

  lemma {:induction false} ProjectConcat(a: string, b: string, k: Kind)
    ensures Project(a + b, k) == Project(a, k) + Project(b, k)
  {
    if a == [] {
      assert a + b == b;
    } else {
      assert (a + b)[1..] == a[1..] + b;
      ProjectConcat(a[1..], b, k);
    }
  }

  lemma ProjectOne(c: char, k: Kind)
    ensures Project([c], k) == if c == Opening(k) then [true] else if c == Closing(k) then [false] else []
  {
    assert [c][1..] == [];
  }

  /** Cutting a text cuts its projection. */
  lemma ProjectCut(cs: string, i: nat, k: Kind)
    requires i < |cs|
    ensures Project(cs, k) == Project(cs[..i], k) + Project([cs[i]], k) + Project(cs[i + 1..], k)
  {
    assert cs == cs[..i] + ([cs[i]] + cs[i + 1..]);
    ProjectConcat(cs[..i], [cs[i]] + cs[i + 1..], k);
    ProjectConcat([cs[i]], cs[i + 1..], k);
  }

  lemma BalancedJoin(a: seq<bool>, b: seq<bool>)
    requires Balanced(a)
    ensures Balanced(a + b) <==> Balanced(b)
  {
    hide Balanced, Level, NeverBelow;
    BalancedExactlyWhen(a);
    BalancedExactlyWhen(b);
    BalancedExactlyWhen(a + b);
    LevelConcat(a, b, 0);
  }

  lemma BalancedAround(a: seq<bool>, b: seq<bool>)
    requires Balanced(a)
    ensures Balanced([true] + a + [false] + b) <==> Balanced(b)
  {
    hide Balanced;
    var w := [true] + a + [false];
    BalancedExactlyWhen(a);
    BalancedExactlyWhen(w);
    Enclose(a);
    BalancedJoin(w, b);
  }

  lemma Enclose(a: seq<bool>)
    requires NeverBelow(a, 0) && Level(a, 0) == 0
    ensures var w := [true] + a + [false]; NeverBelow(w, 0) && Level(w, 0) == 0
  {
    hide Level, NeverBelow;
    LevelShift(a, 0, 1);
    OneStep(true, 0);
    OneStep(false, 1);
    LevelConcat([true], a, 0);
    LevelConcat([true] + a, [false], 0);
  }

  lemma OneStep(b: bool, d: int)
    ensures Level([b], d) == if b then d + 1 else d - 1
    ensures NeverBelow([b], d) <==> d >= 0 && (if b then d + 1 else d - 1) >= 0
  {
    assert [b][1..] == [];
  }

  lemma EmptyIsBalanced()
    ensures Balanced([])
  {
    assert [] == Brackets(Empty);
  }

  // ------------------------------------------------------------ nested texts are accepted

  lemma {:induction false} NestedIsBalanced(f: Nested, k: Kind)
    requires NestedOk(f)
    ensures Balanced(Project(Text(f), k))
  {
    hide Balanced;
    EmptyIsBalanced();
    match f
    case Nil =>
    case Other(c, rest) =>
      NestedIsBalanced(rest, k);
      ProjectConcat([c], Text(rest), k);
      ProjectOne(c, k);
      assert [] + Project(Text(rest), k) == Project(Text(rest), k);
    case Enclosed(q, inner, rest) =>
      NestedIsBalanced(inner, k);
      NestedIsBalanced(rest, k);
      ProjectEnclosed(q, Text(inner), Text(rest), k);
      BalancedAround(Project(Text(inner), k), Project(Text(rest), k));
      BalancedJoin(Project(Text(inner), k), Project(Text(rest), k));
  }

  lemma ProjectEnclosed(q: Kind, inner: string, rest: string, k: Kind)
    ensures Project([Opening(q)] + inner + [Closing(q)] + rest, k)
         == if q == k then [true] + Project(inner, k) + [false] + Project(rest, k)
            else Project(inner, k) + Project(rest, k)
  {
    hide Project, Opening, Closing;
    ProjectConcat([Opening(q)] + inner + [Closing(q)], rest, k);
    ProjectConcat([Opening(q)] + inner, [Closing(q)], k);
    ProjectConcat([Opening(q)], inner, k);
    ProjectOne(Opening(q), k);
    ProjectOne(Closing(q), k);
    KindsDiffer(q, k);
    KindsDiffer(k, q);
    var a := Project(inner, k);
    assert [] + a == a && a + [] == a;
  }

  // ------------------------------------------------------------ pairs stay inside

  /** An opened bracket that is never taken back leaves the level above zero. */
  lemma OpenerRaises(a: seq<bool>, b: seq<bool>)
    requires NeverBelow(a, 0) && NeverBelow(b, 0)
    ensures Level(a + [true] + b, 0) >= 1
  {
    hide Level, NeverBelow;
    var d := Level(a, 0);
    LevelIsNat(a, 0);
    LevelIsNat(b, 0);
    OneStep(true, d);
    LevelConcat(a, [true], 0);
    LevelConcat(a + [true], b, 0);
    LevelShift(b, 0, d + 1);
  }

  /** A bracket opened inside a balanced stretch is closed inside it. */
  lemma PairStaysInside(x: string, s: string, y: string, k: Kind, i: nat, j: int)
    requires Balanced(Project(s, k)) && i < |s| && IsPair(x + s + y, k, |x| + i, j)
    ensures j < |x| + |s|
  {
    hide Balanced, Project, Level, NeverBelow;
    var cs := x + s + y;
    var a, b := s[..i], s[i + 1..];
    assert cs[|x| + i] == s[i];
    ProjectCut(s, i, k);
    ProjectOne(s[i], k);
    BalancedExactlyWhen(Project(s, k));
    LevelConcat(Project(a, k) + [true], Project(b, k), 0);
    LevelConcat(Project(a, k), [true], 0);
    if NeverBelow(Project(b, k), 0) {
      OpenerRaises(Project(a, k), Project(b, k));
    }
    if j >= |x| + |s| {
      var over := cs[|x| + |s|..j];
      assert cs[|x| + i + 1..j] == b + over;
      ProjectConcat(b, over, k);
      BalancedExactlyWhen(Project(b, k) + Project(over, k));
      LevelConcat(Project(b, k), Project(over, k), 0);
    }
  }

  lemma PairInPart(x: string, s: string, y: string, k: Kind, i: nat, j: nat)
    requires i < j < |s|
    ensures IsPair(x + s + y, k, |x| + i, |x| + j) <==> IsPair(s, k, i, j)
  {
    var cs := x + s + y;
    assert cs[|x| + i] == s[i] && cs[|x| + j] == s[j];
    assert cs[|x| + i + 1..|x| + j] == s[i + 1..j];
  }

  lemma CrossInPart(x: string, s: string, y: string, k: Kind, l: Kind, i: nat, j: nat, m: nat, n: nat)
    requires i < j < m < n < |s|
    ensures CrossAt(x + s + y, k, l, |x| + i, |x| + j, |x| + m, |x| + n) <==> CrossAt(s, k, l, i, j, m, n)
  {
    hide IsPair;
    PairInPart(x, s, y, k, i, m);
    PairInPart(x, s, y, l, j, n);
  }

  /** A crossing in a part is one in the whole. */
  lemma CrossesInPart(x: string, s: string, y: string)
    ensures Crosses(s) ==> Crosses(x + s + y)
  {
    hide IsPair;
    if Crosses(s) {
      var k, l, i, j, m, n :| CrossAt(s, k, l, i, j, m, n);
      assert 0 <= i && n < |s| by { PairBounds(s, k, i, m); PairBounds(s, l, j, n); }
      CrossInPart(x, s, y, k, l, i, j, m, n);
    }
  }

  lemma PairBounds(s: string, k: Kind, i: int, j: int)
    ensures IsPair(s, k, i, j) ==> 0 <= i < j < |s| && s[i] == Opening(k) && s[j] == Closing(k)
  {
  }

  /** The bracket that closes another one is unique. */
  lemma PairIsUnique(cs: string, k: Kind, i: int, j: int, m: int)
    requires IsPair(cs, k, i, j) && IsPair(cs, k, i, m)
    ensures j <= m
  {
    hide Balanced, Project, Level, NeverBelow;
    if m < j {
      var a, b := cs[i + 1..m], cs[m + 1..j];
      assert cs[i + 1..j] == a + ([cs[m]] + b);
      ProjectConcat(a, [cs[m]] + b, k);
      ProjectConcat([cs[m]], b, k);
      ProjectOne(cs[m], k);
      BalancedExactlyWhen(Project(a, k));
      BalancedExactlyWhen(Project(a, k) + ([false] + Project(b, k)));
      LevelConcat(Project(a, k), [false] + Project(b, k), 0);
      LevelConcat([false], Project(b, k), 0);
      OneStep(false, 0);
    }
  }

  // ------------------------------------------------------------ nested texts have no crossing

  /** A crossing that starts in a balanced stretch lies in it. */
  lemma CrossStaysInside(x: string, s: string, y: string, k: Kind, l: Kind, i: int, j: int, m: int, n: int)
    requires Balanced(Project(s, k)) && Balanced(Project(s, l))
    requires CrossAt(x + s + y, k, l, i, j, m, n) && |x| <= i < |x| + |s|
    ensures CrossAt(s, k, l, i - |x|, j - |x|, m - |x|, n - |x|)
  {
    hide Balanced, Project, IsPair;
    var d := |x|;
    PairStaysInside(x, s, y, k, i - d, m);
    PairStaysInside(x, s, y, l, j - d, n);
    CrossInPart(x, s, y, k, l, i - d, j - d, m - d, n - d);
  }

  lemma {:induction false} NestedHasNoCross(f: Nested, k: Kind, l: Kind, i: int, j: int, m: int, n: int)
    requires NestedOk(f)
    ensures !CrossAt(Text(f), k, l, i, j, m, n)
  {
    hide IsPair, CrossAt, Balanced, Project, IsBracket;
    var cs := Text(f);
    if CrossAt(cs, k, l, i, j, m, n) {
      CrossBounds(cs, k, l, i, j, m, n);
      match f
      case Nil =>
      case Other(c, rest) =>
        NoBracket(c, k);
        NoCrossInPart([c], rest, [], k, l, i, j, m, n, cs);
        NestedHasNoCross(rest, k, l, i - 1, j - 1, m - 1, n - 1);
      case Enclosed(q, inner, rest) =>
        EnclosedHasNoCross(q, inner, rest, k, l, i, j, m, n);
        if 1 <= i <= |Text(inner)| {
          NoCrossInPart([Opening(q)], inner, [Closing(q)] + Text(rest), k, l, i, j, m, n, cs);
          NestedHasNoCross(inner, k, l, i - 1, j - 1, m - 1, n - 1);
        } else {
          var head := [Opening(q)] + Text(inner) + [Closing(q)];
          var d := |head|;
          NoCrossInPart(head, rest, [], k, l, i, j, m, n, cs);
          NestedHasNoCross(rest, k, l, i - d, j - d, m - d, n - d);
        }
    }
  }

  lemma NoCrossInPart(x: string, g: Nested, y: string, k: Kind, l: Kind, i: int, j: int, m: int, n: int, cs: string)
    requires NestedOk(g) && cs == x + (Text(g) + y)
    requires CrossAt(cs, k, l, i, j, m, n) && |x| <= i < |x| + |Text(g)|
    ensures CrossAt(Text(g), k, l, i - |x|, j - |x|, m - |x|, n - |x|)
  {
    hide CrossAt, Balanced, Project, Text;
    NestedIsBalanced(g, k);
    NestedIsBalanced(g, l);
    assert cs == x + Text(g) + y;
    CrossStaysInside(x, Text(g), y, k, l, i, j, m, n);
  }

  lemma CrossBounds(cs: string, k: Kind, l: Kind, i: int, j: int, m: int, n: int)
    requires CrossAt(cs, k, l, i, j, m, n)
    ensures k != l && 0 <= i < j < m < n < |cs| && cs[i] == Opening(k)
  {
  }

  lemma NoBracket(c: char, k: Kind)
    ensures !IsBracket(c) ==> c != Opening(k) && c != Closing(k)
  {
  }

  lemma KindsDiffer(k: Kind, l: Kind)
    ensures Opening(k) != Closing(l)
    ensures k != l ==> Opening(k) != Opening(l) && Closing(k) != Closing(l)
  {
  }

  /** In nested code a crossing would lie inside the first pair or behind it. */
  lemma EnclosedHasNoCross(q: Kind, inner: Nested, rest: Nested, k: Kind, l: Kind, i: int, j: int, m: int, n: int)
    requires NestedOk(inner) && CrossAt(Text(Enclosed(q, inner, rest)), k, l, i, j, m, n)
    ensures 1 <= i <= |Text(inner)| || i >= |Text(inner)| + 2
  {
    hide Balanced, Project;
    var cs := Text(Enclosed(q, inner, rest));
    var c := |Text(inner)| + 1;
    var open, tail: string := [Opening(q)], [Closing(q)] + Text(rest);
    assert cs == open + Text(inner) + tail;
    KindsDiffer(k, q);
    assert cs[0] == Opening(q) && cs[c] == Closing(q);
    if i == 0 {
      KindsDiffer(k, q);
      assert cs[1..c] == Text(inner);
      NestedIsBalanced(inner, q);
      PairIsUnique(cs, q, 0, m, c);
      NestedIsBalanced(inner, l);
      PairStaysInside(open, Text(inner), tail, l, j - 1, n);
      PairIsUnique(cs, q, 0, c, m);
    }
  }

  // ------------------------------------------------------------ without crossing, nested

  lemma Prefixed(front: seq<bool>, a: seq<bool>, b: seq<bool>)
    ensures front + (a + [true] + b) == front + a + [true] + b
  {
  }

  lemma StartsOpen(w: seq<bool>)
    requires NeverBelow(w, 0) && (w == [] ==> Level(w, 0) != 0)
    ensures w != [] && w[0] && w == [true] + w[1..]
  {
    BelowAtStart(w[1..], -1);
  }

  /** A word that ends above zero has a last bracket that is never closed. */
  lemma {:induction false} LastOpen(w: seq<bool>) returns (x: seq<bool>, y: seq<bool>)
    requires NeverBelow(w, 0) && Level(w, 0) > 0
    ensures w == x + [true] + y && Balanced(y)
    decreases |w|
  {
    StartsOpen(w);
    hide Level, NeverBelow, Balanced;
    var tail := w[1..];
    LevelConcat([true], tail, 0);
    OneStep(true, 0);
    LevelShift(tail, 0, 1);
    BalancedExactlyWhen(tail);
    if NeverBelow(tail, 0) {
      LevelIsNat(tail, 0);
      if Level(tail, 0) == 0 {
        x, y := [], tail;
        assert [] + [true] + tail == [true] + tail;
      } else {
        var a, b := LastOpen(tail);
        x, y := [true] + a, b;
        Prefixed([true], a, b);
      }
    } else {
      var u, v := FirstClose(tail);
      assert w == [true] + u + [false] + v;
      BehindPair(u, v);
      var a, b := LastOpen(v);
      x, y := [true] + u + [false] + a, b;
      Prefixed([true] + u + [false], a, b);
    }
  }

  lemma BehindPair(u: seq<bool>, v: seq<bool>)
    requires Balanced(u) && NeverBelow([true] + u + [false] + v, 0)
    ensures NeverBelow(v, 0) && Level(v, 0) == Level([true] + u + [false] + v, 0)
  {
    hide Level, NeverBelow, Balanced;
    var w := [true] + u + [false];
    BalancedExactlyWhen(u);
    Enclose(u);
    LevelConcat(w, v, 0);
    assert Level(w + v, 0) == Level(v, 0);
  }

  /** A word that falls below zero has a first bracket that closes nothing. */
  lemma {:induction false} FirstClose(w: seq<bool>) returns (u: seq<bool>, v: seq<bool>)
    requires !NeverBelow(w, 0)
    ensures w == u + [false] + v && Balanced(u)
    decreases |w|
  {
    hide Balanced;
    EmptyIsBalanced();
    if !w[0] {
      u, v := [], w[1..];
    } else {
      var tail := w[1..];
      assert w == [true] + tail;
      if NeverBelow(tail, 0) {
        LevelShift(tail, 0, 1);
      }
      var a, b := FirstClose(tail);
      assert w == [true] + a + [false] + b;
      BalancedExactlyWhen(a);
      Enclose(a);
      LevelConcat([true] + a + [false], b, 0);
      var c, e := FirstClose(b);
      u, v := [true] + a + [false] + c, e;
      BalancedAround(a, c);
    }
  }

  lemma HeadTail(first: bool, p: seq<bool>, x: seq<bool>, b: bool, y: seq<bool>)
    requires [first] + p == x + [b] + y
    ensures if x == [] then first == b && p == y else first == x[0] && p == x[1..] + [b] + y
  {
    var w := [first] + p;
    assert w[0] == first && w[1..] == p;
    if x == [] {
      assert (x + [b] + y)[1..] == y;
    } else {
      assert (x + [b] + y)[1..] == x[1..] + [b] + y;
    }
  }

  lemma ProjectNothing(k: Kind)
    ensures Project("", k) == []
  {
  }

  /** A place in the projection is a place in the text. */
  lemma {:induction false} PlaceInText(cs: string, k: Kind, x: seq<bool>, b: bool, y: seq<bool>) returns (i: nat)
    requires Project(cs, k) == x + [b] + y
    ensures i < |cs| && cs[i] == (if b then Opening(k) else Closing(k))
    ensures Project(cs[..i], k) == x && Project(cs[i + 1..], k) == y
  {
    hide Project;
    ProjectNothing(k);
    assert |x + [b] + y| > 0;
    KindsDiffer(k, k);
    var c, rest := cs[0], cs[1..];
    assert cs == [c] + rest;
    ProjectConcat([c], rest, k);
    ProjectOne(c, k);
    var isOne := c == Opening(k) || c == Closing(k);
    if isOne {
      HeadTail(c == Opening(k), Project(rest, k), x, b, y);
    } else {
      assert [] + Project(rest, k) == Project(rest, k);
    }
    if isOne && x == [] {
      i := 0;
      assert cs[..0] == [];
    } else {
      var j := PlaceInText(rest, k, if isOne then x[1..] else x, b, y);
      i := j + 1;
      assert cs[..i] == [c] + rest[..j] && cs[i + 1..] == rest[j + 1..];
      ProjectConcat([c], rest[..j], k);
      assert isOne ==> x == [x[0]] + x[1..];
      assert [] + x == x;
    }
  }

  /** The bracket that closes the first one. */
  lemma MatchOfFirst(cs: string, k: Kind) returns (j: nat)
    requires cs != [] && cs[0] == Opening(k) && Balanced(Project(cs, k))
    ensures IsPair(cs, k, 0, j)
    ensures Balanced(Project(cs[j + 1..], k))
  {
    hide Balanced, Level, NeverBelow, Project;
    var tail := cs[1..];
    BalancedExactlyWhen(Project(cs, k));
    assert cs == [cs[0]] + tail;
    ProjectConcat([cs[0]], tail, k);
    ProjectOne(cs[0], k);
    LevelConcat([true], Project(tail, k), 0);
    OneStep(true, 0);
    LevelShift(Project(tail, k), 0, 1);
    if NeverBelow(Project(tail, k), 0) {
      LevelIsNat(Project(tail, k), 0);
    }
    var u, v := FirstClose(Project(tail, k));
    var i := PlaceInText(tail, k, u, false, v);
    j := i + 1;
    assert cs[1..j] == tail[..i] && cs[j + 1..] == tail[i + 1..];
    assert Project(cs, k) == [true] + u + [false] + v;
    BalancedAround(u, v);
  }

  /** If a kind is balanced in the whole but not inside the pair, it crosses the pair. */
  lemma UnbalancedCrosses(cs: string, k: Kind, l: Kind, m: nat)
    requires k != l && IsPair(cs, k, 0, m) && Balanced(Project(cs, l)) && !Balanced(Project(cs[1..m], l))
    ensures Crosses(cs)
  {
    hide Balanced, Project, Level, NeverBelow;
    var s, rest := cs[1..m], cs[m + 1..];
    KindsDiffer(k, l);
    KindsDiffer(l, k);
    assert cs == [cs[0]] + s + [cs[m]] + rest;
    ProjectEnclosed(k, s, rest, l);
    BalancedExactlyWhen(Project(cs, l));
    BalancedExactlyWhen(Project(s, l));
    var d := Level(Project(s, l), 0);
    LevelConcat(Project(s, l), Project(rest, l), 0);
    LevelIsNat(Project(s, l), 0);
    LevelShift(Project(rest, l), 0, d);
    if NeverBelow(Project(rest, l), 0) {
      LevelIsNat(Project(rest, l), 0);
    }
    var x, y := LastOpen(Project(s, l));
    var u, v := FirstClose(Project(rest, l));
    var a := PlaceInText(s, l, x, true, y);
    var b := PlaceInText(rest, l, u, false, v);
    var j, n := a + 1, m + 1 + b;
    assert cs[j] == s[a] && cs[n] == rest[b];
    assert cs[j + 1..n] == s[a + 1..] + [cs[m]] + rest[..b];
    ProjectConcat(s[a + 1..] + [cs[m]], rest[..b], l);
    ProjectConcat(s[a + 1..], [cs[m]], l);
    ProjectOne(cs[m], l);
    assert Project(cs[j + 1..n], l) == y + u;
    BalancedJoin(y, u);
    assert CrossAt(cs, k, l, 0, j, m, n);
  }

  lemma {:induction false} UncrossedIsNested(cs: string) returns (f: Nested)
    requires EachKindBalanced(cs) && !Crosses(cs)
    ensures NestedOk(f) && cs == Text(f)
    decreases |cs|
  {
    hide Balanced, Project, Crosses, IsPair, IsBracket;
    if cs == [] {
      f := Nil;
    } else if IsBracket(cs[0]) {
      var k := FirstOpens(cs);
      assert Balanced(Project(cs, k));
      var m := MatchOfFirst(cs, k);
      PairBounds(cs, k, 0, m);
      var inner, rest := cs[1..m], cs[m + 1..];
      assert cs == [cs[0]] + inner + [cs[m]] + rest;
      PartsAreBalanced(cs, k, m);
      CrossesInPart([cs[0]], inner, [cs[m]] + rest);
      CrossesInPart([cs[0]] + inner + [cs[m]], rest, []);
      assert [cs[0]] + inner + ([cs[m]] + rest) == cs;
      assert [cs[0]] + inner + [cs[m]] + rest + [] == cs;
      var g := UncrossedIsNested(inner);
      var h := UncrossedIsNested(rest);
      f := Enclosed(k, g, h);
    } else {
      var rest := cs[1..];
      assert cs == [cs[0]] + rest && cs == [cs[0]] + rest + [];
      RestIsBalanced(cs);
      CrossesInPart([cs[0]], rest, []);
      var g := UncrossedIsNested(rest);
      f := Other(cs[0], g);
    }
  }

  lemma RestIsBalanced(cs: string)
    requires cs != [] && EachKindBalanced(cs) && !IsBracket(cs[0])
    ensures EachKindBalanced(cs[1..])
  {
    hide Balanced, IsBracket;
    forall k ensures Balanced(Project(cs[1..], k)) {
      assert Balanced(Project(cs, k));
      NoBracket(cs[0], k);
      assert [] + Project(cs[1..], k) == Project(cs[1..], k);
    }
  }

  lemma BalancedOpens(w: seq<bool>)
    requires Balanced(w) && w != []
    ensures w[0]
  {
    hide Balanced;
    BalancedExactlyWhen(w);
    BelowAtStart(w[1..], -1);
  }

  /** A balanced text does not start with a closing bracket. */
  lemma FirstOpens(cs: string) returns (k: Kind)
    requires cs != [] && EachKindBalanced(cs) && IsBracket(cs[0])
    ensures cs[0] == Opening(k)
  {
    hide Balanced, Project;
    k := if cs[0] in "{}" then Curly else if cs[0] in "()" then Paren else Square;
    assert Balanced(Project(cs, k));
    assert cs == [cs[0]] + cs[1..];
    ProjectConcat([cs[0]], cs[1..], k);
    ProjectOne(cs[0], k);
    BalancedOpens(Project(cs, k));
  }

  lemma PartsAreBalanced(cs: string, k: Kind, m: nat)
    requires EachKindBalanced(cs) && !Crosses(cs) && IsPair(cs, k, 0, m) && Balanced(Project(cs[m + 1..], k))
    ensures EachKindBalanced(cs[1..m]) && EachKindBalanced(cs[m + 1..])
  {
    hide Balanced, Project, Crosses;
    var inner, rest := cs[1..m], cs[m + 1..];
    assert cs == [cs[0]] + inner + [cs[m]] + rest;
    forall l ensures Balanced(Project(inner, l)) && Balanced(Project(rest, l)) {
      assert Balanced(Project(cs, l));
      if l != k {
        if !Balanced(Project(inner, l)) {
          UnbalancedCrosses(cs, k, l, m);
        }
        ProjectEnclosed(k, inner, rest, l);
        BalancedJoin(Project(inner, l), Project(rest, l));
      }
    }
  }

  // ------------------------------------------------------------ results

  /** Code is properly nested exactly if each kind is balanced and no two pairs cross. */
  lemma NestedExactlyWhen(cs: string)
    ensures ProperlyNested(cs) <==> EachKindBalanced(cs) && !Crosses(cs)
  {
    hide Balanced, CrossAt;
    if ProperlyNested(cs) {
      var f :| NestedOk(f) && cs == Text(f);
      forall k ensures Balanced(Project(cs, k)) {
        NestedIsBalanced(f, k);
      }
      forall k, l, i, j, m, n ensures !CrossAt(cs, k, l, i, j, m, n) {
        NestedHasNoCross(f, k, l, i, j, m, n);
      }
    }
    if EachKindBalanced(cs) && !Crosses(cs) {
      var f := UncrossedIsNested(cs);
    }
  }

  predicate IsAccepted(t: string) {
    var st := ScanText(t, START);
    st.error.None? && st.curly == 0 && st.paren == 0 && st.square == 0
  }

  /** The checker raises no false alarm: it accepts every text whose code is properly
      nested. It misses a text that is not exactly if two pairs of its code cross. */
  lemma AcceptsNestedAndCrossed(t: string, ks: seq<Token>, e: Tail)
    requires TokensOk(ks, e) && Print(ks, e) == t
    ensures ProperlyNested(CodeChars(ks)) ==> IsAccepted(t)
    ensures IsAccepted(t) ==> (!ProperlyNested(CodeChars(ks)) <==> Crosses(CodeChars(ks)))
  {
    hide ScanText, EachKindBalanced, Crosses, ProperlyNested, TokensOk, Print;
    AcceptsExactlyWhenBalanced(t, ks, e);
    NestedExactlyWhen(CodeChars(ks));
  }

  /** Kinds are not compared with each other: this crossing is accepted. */
  lemma CrossedBracketsAreAccepted()
    ensures IsAccepted("([)]") && Crosses("([)]") && !ProperlyNested("([)]")
  {
    hide Crosses, ProperlyNested;
    CrossedScan();
    SmallestCrossing();
    NestedExactlyWhen("([)]");
  }

  lemma CrossedScan()
    ensures IsAccepted("([)]")
  {
    hide ScanText, Bump;
    var st1 := Bump(START, '(');
    var st2 := Bump(st1, '[');
    var st3 := Bump(st2, ')');
    CountCrossed(st1, st2, st3);
    ScanChar('(', "[)]", START);
    ScanChar('[', ")]", st1);
    ScanChar(')', "]", st2);
    ScanChar(']', "", st3);
    assert "([)]" == ['('] + "[)]" && "[)]" == ['['] + ")]" && ")]" == [')'] + "]" && "]" == [']'] + "";
    ScanNothing(Bump(st3, ']'));
  }

  lemma CountCrossed(st1: State, st2: State, st3: State)
    requires st1 == Bump(START, '(') && st2 == Bump(st1, '[') && st3 == Bump(st2, ')')
    ensures Bump(st3, ']') == START && st1.mode == Code && st2.mode == Code && st3.mode == Code
  {
  }

  lemma SmallestCrossing()
    ensures Crosses("([)]")
  {
    var cs := "([)]";
    assert cs[1..2] == "[" && cs[2..3] == ")";
    ProjectOne('[', Paren);
    ProjectOne(')', Square);
    EmptyIsBalanced();
    assert CrossAt(cs, Paren, Square, 0, 1, 2, 3);
  }
}
