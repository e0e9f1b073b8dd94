/** The greedy tokenizer over a decoded vocabulary and its index by first symbol.
    The fast form is compared with a naive longest match over all tokens, and its
    count with every other way of cutting the text into tokens. */
module Tokenizer {
  import opened Basics
  import opened Utf8
  import opened ByteDecoder

  // ------------------------------------------------------------ naive form

  predicate Proper(vocab: seq<Text>) {
    forall t :: t in vocab ==> t != []
  }

  /** Length of the longest token that starts `text`, or 1 if none does. */
  function Longest(vocab: seq<Text>, text: Text): (n: nat)
    requires text != []
    ensures 1 <= n <= |text|
    ensures forall t :: t in vocab && t <= text ==> |t| <= n
    ensures n == 1 || text[..n] in vocab
  {
    if vocab == [] then 1
    else
      var rest := Longest(vocab[1..], text);
      assert vocab[0] <= text ==> text[..|vocab[0]|] == vocab[0];
      assert forall t :: t in vocab ==> t == vocab[0] || t in vocab[1..];
      if vocab[0] <= text && |vocab[0]| > rest then |vocab[0]| else rest
  }

  /** The greedy cut of a text into pieces. */
  function Greedy(vocab: seq<Text>, text: Text): (p: seq<Text>)
    ensures p == [] <==> text == []
  {
    if text == [] then []
    else
      var n := Longest(vocab, text);
      [text[..n]] + Greedy(vocab, text[n..])
  }

  lemma GreedyStep(vocab: seq<Text>, rest: Text)
    requires rest != []
    ensures |Greedy(vocab, rest)| == 1 + |Greedy(vocab, rest[Longest(vocab, rest)..])|
  {
  }

  function Join(pieces: seq<Text>): Text {
    if pieces == [] then [] else pieces[0] + Join(pieces[1..])
  }

  lemma {:induction false} JoinConcat(p: seq<Text>, q: seq<Text>)
    ensures Join(p + q) == Join(p) + Join(q)
  {
    if p == [] {
      assert p + q == q;
    } else {
      assert (p + q)[1..] == p[1..] + q;
      JoinConcat(p[1..], q);
    }
  }

  /** A token of the vocabulary or a single symbol. */
  predicate IsPiece(vocab: seq<Text>, t: Text) {
    |t| == 1 || (t != [] && t in vocab)
  }

  /** Some way of cutting `text` into tokens and single symbols. */
  predicate Cuts(vocab: seq<Text>, pieces: seq<Text>, text: Text) {
    Join(pieces) == text && forall i :: 0 <= i < |pieces| ==> IsPiece(vocab, pieces[i])
  }

  lemma CutsConcat(vocab: seq<Text>, p: seq<Text>, s: Text, q: seq<Text>, t: Text)
    requires Cuts(vocab, p, s) && Cuts(vocab, q, t)
    ensures Cuts(vocab, p + q, s + t)
  {
    JoinConcat(p, q);
  }

  /** The greedy pieces rebuild the text, and each is a token or a single symbol. */
  lemma {:induction false} GreedyCuts(vocab: seq<Text>, text: Text)
    ensures Cuts(vocab, Greedy(vocab, text), text)
    decreases |text|
  {
    if text != [] {
      var n := Longest(vocab, text);
      GreedyCuts(vocab, text[n..]);
      assert text == text[..n] + text[n..];
    }
  }

  /** Length of the longest token, at least 1. */
  function LongestToken(vocab: seq<Text>): (m: nat)
    ensures m >= 1
    ensures forall t :: t in vocab ==> |t| <= m
  {
    if vocab == [] then 1
    else Max(|vocab[0]|, LongestToken(vocab[1..]))
  }

  /** The number of pieces lies between length / longest token and the length. */
  lemma {:induction false} CountBounds(vocab: seq<Text>, text: Text)
    ensures |Greedy(vocab, text)| <= |text| <= |Greedy(vocab, text)| * LongestToken(vocab)
    decreases |text|
  {
    hide Longest, LongestToken, Greedy;
    GreedyCuts(vocab, text);
    if text != [] {
      var n := Longest(vocab, text);
      var m, k := LongestToken(vocab), |Greedy(vocab, text[n..])|;
      assert n == 1 || text[..n] in vocab;
      CountBounds(vocab, text[n..]);
      GreedyStep(vocab, text);
      OneMore(n, |text| - n, k, m);
    }
  }

  lemma OneMore(n: nat, rest: nat, k: nat, m: nat)
    requires n <= m && rest <= k * m
    ensures n + rest <= (k + 1) * m
  {
  }

  // ------------------------------------------------------------ optimality

  /** No cut of any text has fewer pieces than the greedy one. */
  ghost predicate Optimal(vocab: seq<Text>) {
    forall text, pieces :: Cuts(vocab, pieces, text) ==> |Greedy(vocab, text)| <= |pieces|
  }

  /** On `a + b + c` the longest match is `a + b`, and the piece `b + c` overlaps it. */
  predicate Overlap(vocab: seq<Text>, a: Text, b: Text, c: Text) {
    && b != [] && c != []
    && IsPiece(vocab, a + b) && IsPiece(vocab, b + c)
    && Longest(vocab, a + (b + c)) == |a + b|
  }

  /** Whenever the longest match overlaps another piece, what is left of that piece
      costs no more than the text before the overlap. Only pairs of overlapping
      pieces have to be inspected. */
  ghost predicate OverlapSafe(vocab: seq<Text>) {
    forall a, b, c, p :: Overlap(vocab, a, b, c) && Cuts(vocab, p, a) ==> |Greedy(vocab, c)| <= |p|
  }

  /** Cutting the text off behind the longest match does not change the match. */
  lemma {:induction false} LongestOfPrefix(vocab: seq<Text>, text: Text, m: nat)
    requires text != [] && Longest(vocab, text) <= m <= |text|
    ensures Longest(vocab, text[..m]) == Longest(vocab, text)
    decreases |vocab|
  {
    if vocab != [] {
      LongestOfPrefix(vocab[1..], text, m);
      assert vocab[0] <= text && |vocab[0]| <= m ==> vocab[0] <= text[..m];
    }
  }

  /** The piece of a cut that the first `n` symbols of the text reach into. */
  lemma {:induction false} PieceAt(pieces: seq<Text>, n: nat) returns (j: nat)
    requires n < |Join(pieces)|
    ensures j < |pieces| && |Join(pieces[..j])| <= n < |Join(pieces[..j])| + |pieces[j]|
    ensures Join(pieces) == Join(pieces[..j]) + (pieces[j] + Join(pieces[j + 1..]))
    decreases |pieces|
  {
    if n < |pieces[0]| {
      j := 0;
      assert pieces[..0] == [];
    } else {
      var k := PieceAt(pieces[1..], n - |pieces[0]|);
      j := k + 1;
      assert pieces[..j][1..] == pieces[1..][..k];
      assert pieces[j + 1..] == pieces[1..][k + 1..];
      assert pieces[j] == pieces[1..][k];
      assert Join(pieces[..j]) == pieces[0] + Join(pieces[1..][..k]);
    }
  }

  lemma PrefixIsPiece(vocab: seq<Text>, text: Text)
    requires text != []
    ensures IsPiece(vocab, text[..Longest(vocab, text)])
  {
  }

  /** The piece in which the longest match ends overlaps it safely, so the rest of
      that piece can be cut into as few pieces as there are before it. */
  lemma OverlapAt(vocab: seq<Text>, text: Text, p: seq<Text>, a: Text, x: Text, tail: Text)
    requires OverlapSafe(vocab) && Cuts(vocab, p, a) && IsPiece(vocab, x) && text == a + (x + tail)
    requires text != [] && |a| < Longest(vocab, text) < |a + x|
    ensures |Greedy(vocab, x[Longest(vocab, text) - |a|..])| <= |p|
  {
    hide Longest, Greedy, Join, Cuts, IsPiece;
    var n := Longest(vocab, text);
    var b, c := x[..n - |a|], x[n - |a|..];
    assert x == b + c;
    assert text[..n] == a + b;
    assert text[..|a + x|] == a + x;
    LongestOfPrefix(vocab, text, |a + x|);
    assert a + (b + c) == a + x;
    assert IsPiece(vocab, a + b) by { PrefixIsPiece(vocab, text); }
    assert Overlap(vocab, a, b, c);
  }

  lemma CutParts(vocab: seq<Text>, pieces: seq<Text>, text: Text, j: nat)
    requires Cuts(vocab, pieces, text) && j < |pieces|
    ensures Cuts(vocab, pieces[..j], Join(pieces[..j]))
    ensures Cuts(vocab, pieces[j + 1..], Join(pieces[j + 1..]))
    ensures Cuts(vocab, pieces[j..], pieces[j] + Join(pieces[j + 1..]))
    ensures IsPiece(vocab, pieces[j])
  {
    hide IsPiece;
    assert pieces[j..][1..] == pieces[j + 1..];
  }

  /** What the greedy cut leaves behind its first piece can be cut with one piece less. */
  lemma RestCut(vocab: seq<Text>, text: Text, pieces: seq<Text>) returns (rest: seq<Text>)
    requires OverlapSafe(vocab) && text != [] && Cuts(vocab, pieces, text)
    ensures Cuts(vocab, rest, text[Longest(vocab, text)..]) && |rest| < |pieces|
  {
    hide Longest, Greedy, OverlapSafe, IsPiece;
    var n := Longest(vocab, text);
    if n == |text| {
      assert text[n..] == [];
      return [];
    }
    var j := PieceAt(pieces, n);
    CutParts(vocab, pieces, text, j);
    rest := RestCutAt(vocab, text, pieces[..j], Join(pieces[..j]), pieces[j],
                      pieces[j + 1..], Join(pieces[j + 1..]), pieces[j..]);
  }

  lemma RestCutAt(vocab: seq<Text>, text: Text, before: seq<Text>, a: Text, x: Text,
                  after: seq<Text>, tail: Text, from: seq<Text>) returns (rest: seq<Text>)
    requires OverlapSafe(vocab) && text != [] && text == a + (x + tail)
    requires Cuts(vocab, before, a) && IsPiece(vocab, x) && Cuts(vocab, after, tail)
    requires Cuts(vocab, from, x + tail) && |from| == |after| + 1
    requires |a| <= Longest(vocab, text) < |a| + |x|
    ensures Cuts(vocab, rest, text[Longest(vocab, text)..]) && |rest| <= |before| + |after|
  {
    hide Longest, Greedy, OverlapSafe, IsPiece;
    var n := Longest(vocab, text);
    if n == |a| {
      assert text[n..] == x + tail;
      assert before != [];
      rest := from;
    } else {
      var c := x[n - |a|..];
      assert text[n..] == c + tail;
      OverlapAt(vocab, text, before, a, x, tail);
      GreedyCuts(vocab, c);
      CutsConcat(vocab, Greedy(vocab, c), c, after, tail);
      rest := Greedy(vocab, c) + after;
    }
  }

  lemma {:induction false} OverlapSafeIsEnough(vocab: seq<Text>, text: Text, pieces: seq<Text>)
    requires OverlapSafe(vocab) && Cuts(vocab, pieces, text)
    ensures |Greedy(vocab, text)| <= |pieces|
    decreases |text|
  {
    if text != [] {
      var rest := RestCut(vocab, text, pieces);
      OverlapSafeIsEnough(vocab, text[Longest(vocab, text)..], rest);
    }
  }

  lemma OverlapSafeIsNeeded(vocab: seq<Text>)
    requires Optimal(vocab)
    ensures OverlapSafe(vocab)
  {
    forall a, b, c, p | Overlap(vocab, a, b, c) && Cuts(vocab, p, a)
      ensures |Greedy(vocab, c)| <= |p|
    {
      OverlapNeeded(vocab, a, b, c, p);
    }
  }

  lemma OneCut(vocab: seq<Text>, x: Text)
    requires IsPiece(vocab, x)
    ensures Cuts(vocab, [x], x)
  {
    assert Join([x][1..]) == [];
  }

  lemma OverlapNeeded(vocab: seq<Text>, a: Text, b: Text, c: Text, p: seq<Text>)
    requires Optimal(vocab) && Overlap(vocab, a, b, c) && Cuts(vocab, p, a)
    ensures |Greedy(vocab, c)| <= |p|
  {
    hide Longest, Greedy, Cuts, IsPiece;
    var x := b + c;
    var text := a + x;
    OneCut(vocab, x);
    CutsConcat(vocab, p, a, [x], x);
    assert text[|a + b|..] == c;
    GreedyStep(vocab, text);
    assert |p + [x]| == |p| + 1;
  }

  /** Exactly when the greedy count is the lower bound its header claims it to be. */
  lemma GreedyIsOptimalExactlyWhen(vocab: seq<Text>)
    ensures Optimal(vocab) <==> OverlapSafe(vocab)
  {
    if Optimal(vocab) {
      OverlapSafeIsNeeded(vocab);
    }
    if OverlapSafe(vocab) {
      forall text, pieces | Cuts(vocab, pieces, text)
        ensures |Greedy(vocab, text)| <= |pieces|
      {
        OverlapSafeIsEnough(vocab, text, pieces);
      }
    }
  }

  ghost predicate SuffixClosed(vocab: seq<Text>) {
    forall t, i :: t in vocab && 0 <= i < |t| ==> t[i..] in vocab
  }

  lemma SuffixCostsOne(vocab: seq<Text>, a: Text, b: Text, c: Text)
    requires SuffixClosed(vocab) && Overlap(vocab, a, b, c)
    ensures |Greedy(vocab, c)| == 1 && a != []
  {
    assert (b + c)[|b|..] == c;
    assert c in vocab;
    assert Longest(vocab, c) == |c|;
    assert c[|c|..] == [];
    assert b + c <= [] + (b + c);
    assert a == [] ==> a + (b + c) == b + c;
  }

  /** A vocabulary closed under non-empty suffixes makes the greedy count minimal. */
  lemma SuffixClosedIsOptimal(vocab: seq<Text>)
    requires SuffixClosed(vocab)
    ensures Optimal(vocab)
  {
    forall a, b, c, p | Overlap(vocab, a, b, c) && Cuts(vocab, p, a)
      ensures |Greedy(vocab, c)| <= |p|
    {
      SuffixCostsOne(vocab, a, b, c);
      assert p == [] ==> a == [];
    }
    GreedyIsOptimalExactlyWhen(vocab);
  }

  const EXAMPLE: seq<Text> := [[97, 98, 99], [97, 98], [99, 100, 101]]

  /** Without the condition the claim fails: over "abc", "ab" and "cde" the text
      "abcde" is cut greedily into three pieces, and "ab", "cde" are two. */
  lemma GreedyIsNotOptimalInGeneral()
    ensures var text: Text := [97, 98, 99, 100, 101];
            |Greedy(EXAMPLE, text)| == 3 && Cuts(EXAMPLE, [text[..2], text[2..]], text)
    ensures !Optimal(EXAMPLE)
  {
    hide Longest, Greedy, Join;
    var text: Text := [97, 98, 99, 100, 101];
    ExampleGreedy(text, text[3..]);
    assert text[..2] == EXAMPLE[1] && text[2..] == EXAMPLE[2];
    TwoPieces(EXAMPLE, text[..2], text[2..]);
    assert text[..2] + text[2..] == text;
  }

  lemma ExampleGreedy(text: Text, rest: Text)
    requires text == [97, 98, 99, 100, 101] && rest == [100, 101]
    ensures |Greedy(EXAMPLE, text)| == 3
  {
    hide Longest;
    assert EXAMPLE[0] in EXAMPLE && EXAMPLE[0] <= text;
    assert Longest(EXAMPLE, text) == 3;
    assert text[3..] == rest;
    assert rest[..2] == rest && rest !in EXAMPLE;
    assert Longest(EXAMPLE, rest) == 1;
    assert Greedy(EXAMPLE, text) == [text[..3]] + Greedy(EXAMPLE, rest);
    assert Greedy(EXAMPLE, rest) == [rest[..1]] + Greedy(EXAMPLE, rest[1..]);
    assert Longest(EXAMPLE, rest[1..]) == 1;
    assert Greedy(EXAMPLE, rest[1..]) == [rest[1..][..1]] + Greedy(EXAMPLE, rest[1..][1..]);
    assert rest[1..][1..] == [];
  }

  lemma TwoPieces(vocab: seq<Text>, s: Text, t: Text)
    requires IsPiece(vocab, s) && IsPiece(vocab, t)
    ensures Cuts(vocab, [s, t], s + t)
  {
    assert [s, t][1..] == [t];
    assert [t][1..] == [];
    assert Join([t]) == t;
    assert Join([s, t]) == s + t;
  }

  // ------------------------------------------------------------ the index

  /** Decoded form of one vocabulary entry, if the index keeps it: entries that are
      not strings, are empty or do not decode to text are left out. */
  function UsableToken(raw: Option<Text>): Option<Text> {
    if raw.None? || raw.value == [] then None
    else
      var text := DecodeToken(raw.value).text;
      if text == [] || REPLACEMENT in text then None else Some(text)
  }

  function Usable(tokens: seq<Option<Text>>): (vocab: seq<Text>)
    ensures Proper(vocab)
  {
    if tokens == [] then []
    else
      var last := UsableToken(tokens[|tokens| - 1]);
      Usable(tokens[..|tokens| - 1]) + if last.Some? then [last.value] else []
  }

  /** The decoded text of an entry that is a non-empty string; neither empty nor damaged. */
  ghost predicate IsDecoded(tokens: seq<Option<Text>>, t: Text) {
    && t != [] && REPLACEMENT !in t
    && exists raw: Text :: Some(raw) in tokens && raw != [] && t == DecodeToken(raw).text
  }

  /** The vocabulary of the index. */
  lemma {:induction false} UsableExactly(tokens: seq<Option<Text>>, t: Text)
    ensures t in Usable(tokens) <==> IsDecoded(tokens, t)
  {
    hide DecodeToken;
    if tokens != [] {
      var n := |tokens| - 1;
      UsableExactly(tokens[..n], t);
      assert tokens == tokens[..n] + [tokens[n]];
    }
  }

  /** The symbols of a text whose bytes the byte-level alphabet keeps are indexed as that
      text, so the tokenizer finds it in what it reads. */
  lemma SymbolsAreIndexed(tokens: seq<Option<Text>>, byFirst: map<scalar, seq<Text>>, bytes: seq<byte>)
    requires IndexFor(byFirst, Usable(tokens)) && Some(Symbols(bytes)) in tokens
    requires bytes != [] && REPLACEMENT !in Decode(bytes) && forall i :: 0 <= i < |bytes| ==> IsKept(bytes[i])
    ensures var t := Decode(bytes);
            t != [] && t[0] in byFirst && t in byFirst[t[0]]
  {
    hide DecodeToken, Usable;
    DecoderUndoesAlphabetExactlyWhen(bytes);
    UsableExactly(tokens, Decode(bytes));
  }

  /** The tokens that start with `c`, in order. */
  function Bucket(vocab: seq<Text>, c: scalar): (b: seq<Text>)
    ensures forall t :: t in b <==> t in vocab && t != [] && t[0] == c
  {
    if vocab == [] then []
    else
      var n := |vocab| - 1;
      var t := vocab[n];
      assert vocab == vocab[..n] + [t];
      Bucket(vocab[..n], c) + if t != [] && t[0] == c then [t] else []
  }

  /** Longer tokens first, equal lengths in the order given. */
  function InsertByLength(t: Text, s: seq<Text>): (r: seq<Text>)
    ensures multiset(r) == multiset(s) + multiset{t}
  {
    if s == [] then [t]
    else
      assert s == [s[0]] + s[1..];
      if |s[0]| >= |t| then [s[0]] + InsertByLength(t, s[1..]) else [t] + s
  }

  function SortByLength(s: seq<Text>): (r: seq<Text>)
    ensures multiset(r) == multiset(s)
  {
    if s == [] then []
    else
      var n := |s| - 1;
      assert s == s[..n] + [s[n]];
      InsertByLength(s[n], SortByLength(s[..n]))
  }

  predicate Descending(s: seq<Text>) {
    forall i, j :: 0 <= i < j < |s| ==> |s[i]| >= |s[j]|
  }

  lemma DescendingCons(x: Text, s: seq<Text>)
    requires Descending(s) && forall y :: y in s ==> |y| <= |x|
    ensures Descending([x] + s)
  {
    var r := [x] + s;
    forall i, j | 0 <= i < j < |r| ensures |r[i]| >= |r[j]| {
      assert r[j] == s[j - 1] && r[j] in s;
    }
  }

  lemma InsertedMember(t: Text, s: seq<Text>, x: Text)
    requires x in InsertByLength(t, s)
    ensures x in s || x == t
  {
    hide InsertByLength;
    assert x in multiset(InsertByLength(t, s));
  }

  lemma {:induction false} InsertKeepsDescending(t: Text, s: seq<Text>)
    requires Descending(s)
    ensures Descending(InsertByLength(t, s))
  {
    if s != [] && |s[0]| >= |t| {
      InsertKeepsDescending(t, s[1..]);
      var r := InsertByLength(t, s[1..]);
      forall x | x in r ensures |x| <= |s[0]| {
        InsertedMember(t, s[1..], x);
      }
      DescendingCons(s[0], r);
    } else {
      DescendingCons(t, s);
      assert s == [] ==> [t] + s == [t];
    }
  }

  lemma {:induction false} SortIsDescending(s: seq<Text>)
    ensures Descending(SortByLength(s))
  {
    if s != [] {
      SortIsDescending(s[..|s| - 1]);
      InsertKeepsDescending(s[|s| - 1], SortByLength(s[..|s| - 1]));
    }
  }

  /** What the tokenizer relies on: each bucket holds exactly the tokens with its
      first symbol, longer ones first, and there is no empty bucket. */
  ghost predicate IndexFor(byFirst: map<scalar, seq<Text>>, vocab: seq<Text>) {
    && (forall c, t :: c in byFirst && t in byFirst[c] ==> t in vocab && t != [] && t[0] == c)
    && (forall t :: t in vocab && t != [] ==> t[0] in byFirst && t in byFirst[t[0]])
    && (forall c :: c in byFirst ==> Descending(byFirst[c]))
  }

  /** The buckets before sorting: for each first symbol its tokens in order. */
  ghost predicate Buckets(byFirst: map<scalar, seq<Text>>, vocab: seq<Text>) {
    && (forall c :: c in byFirst <==> Bucket(vocab, c) != [])
    && (forall c :: c in byFirst ==> byFirst[c] == Bucket(vocab, c))
  }

  lemma PushKeepsBuckets(byFirst: map<scalar, seq<Text>>, vocab: seq<Text>, t: Text)
    requires Buckets(byFirst, vocab) && t != []
    ensures var arr := if t[0] in byFirst then byFirst[t[0]] else [];
            Buckets(byFirst[t[0] := arr + [t]], vocab + [t])
  {
    assert (vocab + [t])[..|vocab|] == vocab;
  }

  lemma UsableNext(tokens: seq<Option<Text>>, n: nat)
    requires n < |tokens|
    ensures tokens[..n + 1] == tokens[..n] + [tokens[n]]
    ensures var last := UsableToken(tokens[n]);
            Usable(tokens[..n + 1]) == Usable(tokens[..n]) + if last.Some? then [last.value] else []
  {
    hide UsableToken;
    assert tokens[..n + 1][..n] == tokens[..n];
  }

  /** The first loop: of the entries that are non-empty strings, those count as skipped
      whose decoded text is empty or holds U+FFFD, and the others as decoded. */
  method FillBuckets(tokens: seq<Option<Text>>, charToByte: map<scalar, byte>)
    returns (byFirst: map<scalar, seq<Text>>, decoded: nat, skipped: nat)
    requires forall c: scalar :: c in charToByte <==> CharToByte(c).Some?
    requires forall c: scalar :: c in charToByte ==> CharToByte(c) == Some(charToByte[c])
    ensures Buckets(byFirst, Usable(tokens)) && decoded == |Usable(tokens)|
    ensures skipped == |Positions(tokens, (raw: Option<Text>) =>
      && raw.Some? && raw.value != []
      && (DecodeToken(raw.value).text == [] || REPLACEMENT in DecodeToken(raw.value).text))|
    ensures decoded == |Positions(tokens, (raw: Option<Text>) =>
      && raw.Some? && raw.value != []
      && DecodeToken(raw.value).text != [] && REPLACEMENT !in DecodeToken(raw.value).text)|
  {
    hide DecodeToken, CharToByte, Usable, Positions;
    byFirst, decoded, skipped := map[], 0, 0;
    ghost var vocab: seq<Text> := [];
    ghost var bad := (raw: Option<Text>) =>
      && raw.Some? && raw.value != []
      && (DecodeToken(raw.value).text == [] || REPLACEMENT in DecodeToken(raw.value).text);
    ghost var good := (raw: Option<Text>) =>
      && raw.Some? && raw.value != []
      && DecodeToken(raw.value).text != [] && REPLACEMENT !in DecodeToken(raw.value).text;
    NoTokens(bad, good);
    for n := 0 to |tokens|
      invariant vocab == Usable(tokens[..n]) && Buckets(byFirst, vocab)
      invariant decoded == |vocab| == |Positions(tokens[..n], good)| && skipped == |Positions(tokens[..n], bad)|
    {
      hide Buckets;
      UsableNext(tokens, n);
      PositionsMore(tokens[..n], tokens[n], bad);
      PositionsMore(tokens[..n], tokens[n], good);
      var raw := tokens[n];
      if raw.None? || raw.value == [] {
        continue;
      }
      var d := DecodeByteLevelToken(raw.value, charToByte);
      if d.text == [] || REPLACEMENT in d.text {
        skipped := skipped + 1;
        continue;
      }
      PushKeepsBuckets(byFirst, vocab, d.text);
      vocab := vocab + [d.text];
      var first := d.text[0];
      var arr := if first in byFirst then byFirst[first] else [];
      byFirst := byFirst[first := arr + [d.text]];
      decoded := decoded + 1;
    }
    assert tokens[..|tokens|] == tokens;
  }

  /** The index holds exactly the decoded texts that are neither empty nor damaged, each
      in the bucket of its first symbol, and the counters say how many there are. */
  method BuildIndex(tokens: seq<Option<Text>>, charToByte: map<scalar, byte>)
    returns (byFirst: map<scalar, seq<Text>>, decoded: nat, skipped: nat)
    requires forall c: scalar :: c in charToByte <==> CharToByte(c).Some?
    requires forall c: scalar :: c in charToByte ==> CharToByte(c) == Some(charToByte[c])
    ensures forall c, t :: c in byFirst && t in byFirst[c] ==> IsDecoded(tokens, t) && t[0] == c
    ensures forall t :: IsDecoded(tokens, t) ==> t[0] in byFirst && t in byFirst[t[0]]
    ensures forall c :: c in byFirst ==> byFirst[c] == SortByLength(Bucket(Usable(tokens), c))
    ensures IndexFor(byFirst, Usable(tokens)) && decoded == |Usable(tokens)|
    ensures skipped == |Positions(tokens, (raw: Option<Text>) =>
      && raw.Some? && raw.value != []
      && (DecodeToken(raw.value).text == [] || REPLACEMENT in DecodeToken(raw.value).text))|
    ensures decoded == |Positions(tokens, (raw: Option<Text>) =>
      && raw.Some? && raw.value != []
      && DecodeToken(raw.value).text != [] && REPLACEMENT !in DecodeToken(raw.value).text)|
  {
    hide DecodeToken, CharToByte, Usable, Positions, SortByLength, Bucket, IsDecoded;
    byFirst, decoded, skipped := FillBuckets(tokens, charToByte);
    byFirst := SortBuckets(byFirst);
    BuiltIndexIsIndex(byFirst, Usable(tokens));
    forall t
      ensures t in Usable(tokens) <==> IsDecoded(tokens, t)
      ensures IsDecoded(tokens, t) ==> t != []
    {
      UsableExactly(tokens, t);
      DecodedNonEmpty(tokens, t);
    }
  }

  /** Which texts an index holds, and under which symbol. */
  lemma IndexExactly(tokens: seq<Option<Text>>, byFirst: map<scalar, seq<Text>>, c: scalar, t: Text)
    requires IndexFor(byFirst, Usable(tokens))
    ensures c in byFirst && t in byFirst[c] <==> IsDecoded(tokens, t) && t[0] == c
  {
    hide DecodeToken, Usable;
    UsableExactly(tokens, t);
  }

  lemma DecodedNonEmpty(tokens: seq<Option<Text>>, t: Text)
    ensures IsDecoded(tokens, t) ==> t != []
  {
  }

  lemma NoTokens(bad: Option<Text> -> bool, good: Option<Text> -> bool)
    ensures Usable([]) == [] && Buckets(map[], []) && |Positions([], bad)| == 0 && |Positions([], good)| == 0
  {
  }

  /** Each bucket is sorted, one after the other in no particular order. */
  method SortBuckets(unsorted: map<scalar, seq<Text>>) returns (byFirst: map<scalar, seq<Text>>)
    ensures byFirst.Keys == unsorted.Keys
    ensures forall c :: c in byFirst ==> byFirst[c] == SortByLength(unsorted[c])
  {
    byFirst := unsorted;
    var todo := byFirst.Keys;
    while todo != {}
      invariant todo <= byFirst.Keys == unsorted.Keys
      invariant forall c :: c in byFirst ==>
        byFirst[c] == if c in todo then unsorted[c] else SortByLength(unsorted[c])
      decreases |todo|
    {
      var c :| c in todo;
      byFirst := byFirst[c := SortByLength(byFirst[c])];
      todo := todo - {c};
    }
  }

  lemma BuiltIndexIsIndex(byFirst: map<scalar, seq<Text>>, vocab: seq<Text>)
    requires forall c :: c in byFirst <==> Bucket(vocab, c) != []
    requires forall c :: c in byFirst ==> byFirst[c] == SortByLength(Bucket(vocab, c))
    ensures IndexFor(byFirst, vocab)
  {
    forall c | c in byFirst
      ensures Descending(byFirst[c])
      ensures forall t :: t in byFirst[c] <==> t in Bucket(vocab, c)
    {
      SortIsDescending(Bucket(vocab, c));
      assert forall t :: t in byFirst[c] <==> t in multiset(byFirst[c]);
    }
    forall t | t in vocab && t != []
      ensures t[0] in byFirst && t in byFirst[t[0]]
    {
      assert t in Bucket(vocab, t[0]);
    }
  }

  // ------------------------------------------------------------ the fast form

  /** The first token of the bucket that occurs at `pos` is the longest of all. */
  lemma FirstInBucketIsLongest(byFirst: map<scalar, seq<Text>>, vocab: seq<Text>, rest: Text, k: nat)
    requires IndexFor(byFirst, vocab) && rest != [] && rest[0] in byFirst
    requires k < |byFirst[rest[0]]| && byFirst[rest[0]][k] <= rest
    requires forall i :: 0 <= i < k ==> !(byFirst[rest[0]][i] <= rest)
    ensures Longest(vocab, rest) == |byFirst[rest[0]][k]|
  {
    hide Longest;
    var bucket := byFirst[rest[0]];
    var n := Longest(vocab, rest);
    assert bucket[k] in byFirst[rest[0]] && Descending(bucket);
    assert bucket[k] in vocab && 1 <= |bucket[k]| <= n;
    var t := rest[..n];
    assert t <= rest && t[0] == rest[0];
    if n > 1 {
      assert t in bucket;
      var i :| 0 <= i < |bucket| && bucket[i] == t;
      assert k <= i;
      assert |bucket[k]| >= |bucket[i]|;
    }
  }

  lemma NothingInBucket(byFirst: map<scalar, seq<Text>>, vocab: seq<Text>, rest: Text)
    requires IndexFor(byFirst, vocab) && rest != []
    requires rest[0] in byFirst ==> forall t :: t in byFirst[rest[0]] ==> !(t <= rest)
    ensures Longest(vocab, rest) == 1
  {
    var t := rest[..Longest(vocab, rest)];
    assert t <= rest && t[0] == rest[0];
  }

  /** The tokenizer itself: bucket by bucket and symbol by symbol, it makes the same
      cuts as the naive longest match over the whole vocabulary. */
  method GreedyTokenize(text: Text, byFirst: map<scalar, seq<Text>>, ghost vocab: seq<Text>) returns (n: nat)
    requires IndexFor(byFirst, vocab)
    ensures n == |Greedy(vocab, text)|
  {
    hide IndexFor, Longest, Greedy;
    var pos := 0;
    n := 0;
    assert text[0..] == text;
    while pos < |text|
      invariant pos <= |text|
      invariant n + |Greedy(vocab, text[pos..])| == |Greedy(vocab, text)|
    {
      var matched := Match(text, pos, byFirst, vocab);
      GreedyStep(vocab, text[pos..]);
      assert text[pos..][matched..] == text[pos + matched..];
      pos := pos + matched;
      n := n + 1;
    }
    GreedyCuts(vocab, []);
  }

  method Match(text: Text, pos: nat, byFirst: map<scalar, seq<Text>>, ghost vocab: seq<Text>)
    returns (matched: nat)
    requires pos < |text| && IndexFor(byFirst, vocab)
    ensures matched == Longest(vocab, text[pos..])
  {
    hide Longest;
    ghost var rest := text[pos..];
    if text[pos] in byFirst {
      var candidates := byFirst[text[pos]];
      for k := 0 to |candidates|
        invariant forall i :: 0 <= i < k ==> !(candidates[i] <= rest)
      {
        var tok := candidates[k];
        if |tok| > |text| - pos {
          continue;
        }
        var ok := Matches(text, pos, tok);
        if ok {
          FirstInBucketIsLongest(byFirst, vocab, rest, k);
          return |tok|;
        }
      }
    }
    NothingInBucket(byFirst, vocab, rest);
    return 1;
  }

  /** The inner comparison loop. */
  method Matches(text: Text, pos: nat, tok: Text) returns (ok: bool)
    requires pos + |tok| <= |text|
    ensures ok <==> tok <= text[pos..]
  {
    for i := 0 to |tok|
      invariant forall j :: 0 <= j < i ==> text[pos + j] == tok[j]
    {
      if text[pos + i] != tok[i] {
        return false;
      }
    }
    return true;
  }
}
