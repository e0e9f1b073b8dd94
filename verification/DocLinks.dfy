/** The link normaliser: every relative markdown link is pointed at the counterpart of
    its target in the language of the document, if that counterpart exists. */
module DocLinks {
  import opened Basics
  import opened LinkPattern
  import opened Lines
  import opened PosixPath

  predicate EndsWith(s: string, suffix: string): (b: bool)
    ensures b ==> |s| >= |suffix|
  {
    |s| >= |suffix| && s[|s| - |suffix|..] == suffix
  }

  predicate StartsWith(s: string, prefix: string) {
    prefix <= s
  }

  const MD := ".md"
  const RU_MD := ".ru.md"

  /** The English and the Russian form of a path. */
  function Variants(path: string): (string, string) {
    if EndsWith(path, RU_MD) then (path[..|path| - |RU_MD|] + MD, path)
    else if EndsWith(path, MD) then (path, path[..|path| - |MD|] + RU_MD)
    else (path, path)
  }

  /** The form wanted by the language verdict on the document. */
  function Wanted(path: string, wantRu: bool): string {
    if wantRu then Variants(path).1 else Variants(path).0
  }

  predicate IsExternal(t: string) {
    StartsWith(t, "#") || StartsWith(t, "http://") || StartsWith(t, "https://")
    || StartsWith(t, "mailto:") || StartsWith(t, "data:")
  }

  /** What stands before the first mark, and the mark with everything behind it. */
  function Partition(t: string): (r: (string, string))
    ensures t == r.0 + r.1
  {
    if t == "" || t[0] == '#' then ("", t)
    else var (head, tail) := Partition(t[1..]); ([t[0]] + head, tail)
  }

  /** Slashes for backslashes; paths of this flavour have none to replace. */
  function Slashes(s: string): (r: string)
    ensures |r| == |s|
    ensures Lacks(s, '\\') ==> r == s
  {
    seq(|s|, i requires 0 <= i < |s| => if s[i] == '\\' then '/' else s[i])
  }

  /** The places that exist: files and directories, each by the names on its way. */
  type Tree = set<seq<string>>

  predicate Exists(fs: Tree, path: string) {
    Place(path) in fs
  }

  /** The replacement for one link target in a document of directory `d`. */
  function FixTarget(fs: Tree, root: string, d: string, wantRu: bool, t: string): string {
    if IsExternal(t) then t
    else
      var (target, anchor) := Partition(t);
      if target == "" then t
      else
        var absTarget := Normpath(Join(d, target));
        if !Exists(fs, absTarget) || !EndsWith(absTarget, MD) then t
        else
          var rel := Slashes(Relpath(absTarget, root));
          var desired := Wanted(rel, wantRu);
          if desired == rel then t
          else if !Exists(fs, Join(root, desired)) then t
          else Slashes(Relpath(Join(root, desired), d)) + anchor
  }

  // ------------------------------------------------------------ in terms of places

  /** The file tree the normaliser runs on: no name contains a backslash. */
  predicate TreeOk(fs: Tree) {
    forall p, i :: p in fs && 0 <= i < |p| ==> Lacks(p[i], '\\')
  }

  function SwapLast(p: seq<string>, name: string): seq<string>
    requires p != []
  {
    p[..|p| - 1] + [name]
  }

  /** Where a link to place `p` should lead instead, if anywhere else: to the other
      language's form of its last name, unless `p` lies on the way to the root. */
  function Counterpart(fs: Tree, root: seq<string>, wantRu: bool, p: seq<string>): Option<seq<string>> {
    if p !in fs || p == [] || !EndsWith(p[|p| - 1], MD) || CommonPrefix(root, p) == |p| then None
    else
      var name := Wanted(p[|p| - 1], wantRu);
      if name == p[|p| - 1] || SwapLast(p, name) !in fs then None else Some(SwapLast(p, name))
  }

  /** The replacement, by places: the link is kept, or it leads to the counterpart and
      keeps its anchor. */
  function FixedByPlace(fs: Tree, root: seq<string>, dir: seq<string>, wantRu: bool, t: string): string {
    var (target, anchor) := Partition(t);
    if IsExternal(t) || target == "" then t
    else
      match Counterpart(fs, root, wantRu, Resolve(dir, target))
      case None => t
      case Some(p) => RelText(RelParts(p, dir)) + anchor
  }

  /** A suffix without slashes is a matter of the last name alone. */
  lemma EndsWithLast(before: string, last: string, suffix: string)
    requires before == "" || before[|before| - 1] == '/'
    requires Lacks(suffix, '/')
    ensures EndsWith(before + last, suffix) <==> EndsWith(last, suffix)
  {
    var s := before + last;
    if |last| >= |suffix| {
      assert s[|s| - |suffix|..] == last[|last| - |suffix|..];
    } else if |s| >= |suffix| {
      var at := |before| - 1 - (|s| - |suffix|);
      assert s[|s| - |suffix|..][at] == '/';
    }
  }

  /** The text of some parts ends with the last of them. */
  lemma {:induction false} TextBeforeLast(parts: seq<string>) returns (before: string)
    requires parts != []
    ensures Unsplit(parts, '/') == before + parts[|parts| - 1]
    ensures before == "" || before[|before| - 1] == '/'
    ensures forall name :: Unsplit(SwapLast(parts, name), '/') == before + name
    decreases |parts|
  {
    if |parts| == 1 {
      before := "";
      assert forall name :: SwapLast(parts, name) == [name];
    } else {
      var b := TextBeforeLast(parts[1..]);
      before := parts[0] + "/" + b;
      forall name ensures Unsplit(SwapLast(parts, name), '/') == before + name {
        assert SwapLast(parts, name)[1..] == SwapLast(parts[1..], name);
        assert Unsplit(SwapLast(parts[1..], name), '/') == b + name;
      }
    }
  }

  lemma CutSuffix(before: string, last: string, suffix: string)
    requires |last| >= |suffix|
    ensures (before + last)[..|before + last| - |suffix|] == before + last[..|last| - |suffix|]
  {
  }

  lemma WantedOfText(before: string, last: string, wantRu: bool)
    requires before == "" || before[|before| - 1] == '/'
    ensures Wanted(before + last, wantRu) == before + Wanted(last, wantRu)
  {
    hide EndsWith;
    EndsWithLast(before, last, MD);
    EndsWithLast(before, last, RU_MD);
    if EndsWith(last, RU_MD) {
      CutSuffix(before, last, RU_MD);
    } else if EndsWith(last, MD) {
      CutSuffix(before, last, MD);
    }
  }

  lemma WantedIsName(name: string, wantRu: bool)
    requires IsName(name)
    ensures IsName(Wanted(name, wantRu))
    ensures Lacks(name, '\\') ==> Lacks(Wanted(name, wantRu), '\\')
    ensures Lacks(name, '#') ==> Lacks(Wanted(name, wantRu), '#')
  {
    hide EndsWith;
    var cut := if EndsWith(name, RU_MD) then |RU_MD| else |MD|;
    if Wanted(name, wantRu) != name {
      MarkedIsName(name[..|name| - cut], if wantRu then RU_MD else MD);
    }
  }

  lemma MarkedIsName(base: string, tail: string)
    requires Lacks(base, '/') && (tail == MD || tail == RU_MD)
    ensures IsName(base + tail)
    ensures Lacks(base, '\\') ==> Lacks(base + tail, '\\')
    ensures Lacks(base, '#') ==> Lacks(base + tail, '#')
  {
    assert |base + tail| > 2;
  }

  // ------------------------------------------------------------ the two descriptions agree

  lemma TargetPlace(dir: seq<string>, target: string)
    requires AreNames(dir)
    ensures var a, p := Normpath(Join(AbsPath(dir), target)), Resolve(dir, target);
            && IsAbsolute(a) && Place(a) == p && AreNames(p)
            && (EndsWith(a, MD) <==> p != [] && EndsWith(p[|p| - 1], MD))
  {
    hide Resolve, Place, Normpath, Glue, EndsWith;
    var j := Join(AbsPath(dir), target);
    var p := Resolve(dir, target);
    PlaceOfJoin(dir, target);
    ResolveGivesNames(dir, target);
    NormalForm(j);
    GlueEnd(LeadingSlashes(j), p);
  }

  lemma GlueEnd(slashes: string, p: seq<string>)
    requires slashes == "/" || slashes == "//"
    ensures EndsWith(slashes + Glue(p), MD) <==> p != [] && EndsWith(p[|p| - 1], MD)
  {
    hide EndsWith, Glue;
    if p == [] {
      SlashesEnd(slashes);
    } else {
      NamesEnd(slashes, p);
    }
  }

  lemma SlashesEnd(slashes: string)
    requires slashes == "/" || slashes == "//"
    ensures !EndsWith(slashes + Glue([]), MD)
  {
    hide EndsWith;
    EmptyGlue();
    TooShort(MD);
    EndsWithLast(slashes, "", MD);
  }

  lemma NamesEnd(slashes: string, p: seq<string>)
    requires (slashes == "/" || slashes == "//") && p != []
    ensures EndsWith(slashes + Glue(p), MD) <==> EndsWith(p[|p| - 1], MD)
  {
    hide EndsWith, Unsplit;
    var before := TextBeforeLast(p);
    assert Glue(p) == before + p[|p| - 1];
    EndsWithLast(slashes + before, p[|p| - 1], MD);
    assert slashes + Glue(p) == slashes + before + p[|p| - 1];
  }

  lemma TooShort(suffix: string)
    requires suffix != ""
    ensures !EndsWith("", suffix)
  {
  }

  lemma {:induction false} UpsEndInDot(n: nat)
    requires n > 0
    ensures var s := Unsplit(Ups(n), '/'); s != "" && s[|s| - 1] == '.'
  {
    if n > 1 {
      assert Ups(n)[1..] == Ups(n - 1);
      UpsEndInDot(n - 1);
    }
  }

  /** Seen from the root, the wanted form differs in the last name only; a place on the
      way to the root has no name of its own there and stays as it is. */
  lemma WantedFromRoot(root: seq<string>, p: seq<string>, wantRu: bool)
    requires AreNames(p) && p != []
    ensures var parts := RelParts(p, root);
            if CommonPrefix(root, p) == |p| then
              Wanted(RelText(parts), wantRu) == RelText(parts)
            else
              var name := Wanted(p[|p| - 1], wantRu);
              && parts != []
              && Wanted(RelText(parts), wantRu) == RelText(SwapLast(parts, name))
              && (RelText(SwapLast(parts, name)) == RelText(parts) <==> name == p[|p| - 1])
  {
    hide Wanted;
    var i := CommonPrefix(root, p);
    var parts := RelParts(p, root);
    if i == |p| {
      assert parts == Ups(|root| - i);
      if parts != [] {
        UpsEndInDot(|root| - i);
      }
      DotIsKept(RelText(parts), wantRu);
    } else {
      assert parts[|parts| - 1] == p[|p| - 1];
      var before := TextBeforeLast(parts);
      WantedOfText(before, p[|p| - 1], wantRu);
      var name := Wanted(p[|p| - 1], wantRu);
      assert RelText(SwapLast(parts, name)) == before + name;
      assert (before + name)[|before|..] == name && (before + p[|p| - 1])[|before|..] == p[|p| - 1];
    }
  }

  lemma OtherEnd(s: string, suffix: string)
    requires s != "" && suffix != "" && s[|s| - 1] != suffix[|suffix| - 1]
    ensures !EndsWith(s, suffix)
  {
    assert |s| >= |suffix| ==> s[|s| - |suffix|..][|suffix| - 1] == s[|s| - 1];
  }

  lemma DotIsKept(s: string, wantRu: bool)
    requires s != "" && s[|s| - 1] == '.'
    ensures Wanted(s, wantRu) == s
  {
    OtherEnd(s, MD);
    OtherEnd(s, RU_MD);
  }

  lemma SwapResolves(root: seq<string>, p: seq<string>, name: string)
    requires AreNames(root) && AreNames(p) && p != [] && IsName(name)
    requires CommonPrefix(root, p) < |p|
    ensures Resolve(root, RelText(SwapLast(RelParts(p, root), name))) == SwapLast(p, name)
  {
    hide Split, Unsplit, CommonPrefix, Reduce;
    var i := CommonPrefix(root, p);
    var parts := SwapLast(RelParts(p, root), name);
    var q := SwapLast(p, name);
    assert AreNames(q);
    assert parts == Ups(|root| - i) + q[i..];
    assert forall j :: 0 <= j < |parts| ==> IsPart(parts[j]);
    RelTextParts(parts);
    ReduceConcat(true, root, Ups(|root| - i), q[i..]);
    ReduceUps(root, |root| - i);
    ReduceNames(root[..i], q[i..]);
    assert root[..i] == p[..i] == q[..i];
    assert q[..i] + q[i..] == q;
  }

  lemma {:induction false} RelTextLacks(parts: seq<string>, c: char)
    requires forall i :: 0 <= i < |parts| ==> Lacks(parts[i], c)
    requires c != '.' && c != '/'
    ensures Lacks(RelText(parts), c)
    decreases |parts|
  {
    if |parts| > 1 {
      RelTextLacks(parts[1..], c);
    }
  }

  lemma RelPartsLack(p: seq<string>, start: seq<string>, c: char)
    requires forall i :: 0 <= i < |p| ==> Lacks(p[i], c)
    requires c != '.' && c != '/'
    ensures Lacks(RelText(RelParts(p, start)), c)
  {
    RelTextLacks(RelParts(p, start), c);
  }

  lemma FixIsByPlace(fs: Tree, root: seq<string>, dir: seq<string>, wantRu: bool, t: string)
    requires TreeOk(fs) && AreNames(root) && AreNames(dir)
    ensures FixTarget(fs, AbsPath(root), AbsPath(dir), wantRu, t) == FixedByPlace(fs, root, dir, wantRu, t)
  {
    hide Normpath, Join, Relpath, Resolve, Place, Slashes, RelParts, RelText;
    hide Wanted, EndsWith, CommonPrefix, IsExternal, AbsPath;
    var (target, anchor) := Partition(t);
    if IsExternal(t) || target == "" {
      return;
    }
    var a, p := Normpath(Join(AbsPath(dir), target)), Resolve(dir, target);
    TargetPlace(dir, target);
    if p !in fs || p == [] || !EndsWith(p[|p| - 1], MD) {
      return;
    }
    PlaceOfAbsPath(root);
    RelpathIs(a, AbsPath(root));
    RelPartsLack(p, root, '\\');
    WantedFromRoot(root, p, wantRu);
    if CommonPrefix(root, p) == |p| {
      return;
    }
    var name := Wanted(p[|p| - 1], wantRu);
    if name != p[|p| - 1] {
      Rewriting(fs, root, dir, p, name, wantRu);
    }
  }

  lemma DesiredPlace(root: seq<string>, p: seq<string>, name: string)
    requires AreNames(root) && AreNames(p) && IsName(name)
    requires p != [] && CommonPrefix(root, p) < |p|
    ensures RelParts(p, root) != []
    ensures var j := Join(AbsPath(root), RelText(SwapLast(RelParts(p, root), name)));
            IsAbsolute(j) && Place(j) == SwapLast(p, name)
  {
    hide Place, Resolve, RelText, CommonPrefix, AreNames;
    PlaceOfJoin(root, RelText(SwapLast(RelParts(p, root), name)));
    SwapResolves(root, p, name);
  }

  lemma Rewriting(fs: Tree, root: seq<string>, dir: seq<string>, p: seq<string>, name: string, wantRu: bool)
    requires TreeOk(fs) && AreNames(root) && AreNames(dir) && AreNames(p)
    requires p in fs && p != [] && CommonPrefix(root, p) < |p| && name == Wanted(p[|p| - 1], wantRu)
    ensures RelParts(p, root) != []
    ensures var j := Join(AbsPath(root), RelText(SwapLast(RelParts(p, root), name)));
            && Place(j) == SwapLast(p, name)
            && Slashes(Relpath(j, AbsPath(dir))) == RelText(RelParts(SwapLast(p, name), dir))
  {
    hide Normpath, Relpath, Resolve, Place, Slashes, RelParts, RelText, Wanted, Join, CommonPrefix;
    var q := SwapLast(p, name);
    assert IsName(p[|p| - 1]) && Lacks(p[|p| - 1], '\\');
    WantedIsName(p[|p| - 1], wantRu);
    DesiredPlace(root, p, name);
    PlaceOfAbsPath(dir);
    RelpathIs(Join(AbsPath(root), RelText(SwapLast(RelParts(p, root), name))), AbsPath(dir));
    assert forall i :: 0 <= i < |q| ==> Lacks(q[i], '\\');
    RelPartsLack(q, dir, '\\');
  }

  // ------------------------------------------------------------ what the pass promises

  predicate InLanguage(name: string, wantRu: bool) {
    EndsWith(name, MD) && (EndsWith(name, RU_MD) <==> wantRu)
  }

  /** A name whose English form still looks Russian. */
  predicate IsDoubled(name: string) {
    EndsWith(name, ".ru.ru.md")
  }

  lemma LanguageOfWanted(name: string, wantRu: bool)
    requires EndsWith(name, MD)
    ensures EndsWith(Wanted(name, wantRu), MD)
    ensures InLanguage(Wanted(name, wantRu), wantRu) <==> wantRu || !IsDoubled(name)
    ensures Wanted(name, wantRu) != name && !wantRu ==> (EndsWith(Wanted(name, false), RU_MD) <==> IsDoubled(name))
    ensures wantRu ==> Wanted(Wanted(name, true), true) == Wanted(name, true)
    ensures !wantRu && !IsDoubled(name) ==> Wanted(Wanted(name, false), false) == Wanted(name, false)
    ensures !wantRu && IsDoubled(name) ==> Wanted(Wanted(name, false), false) != Wanted(name, false)
  {
    if EndsWith(name, RU_MD) {
      var base := name[..|name| - |RU_MD|];
      assert name == base + RU_MD;
      EndOfConcat(base, MD, MD);
      DoubledBase(base);
    } else {
      var base := name[..|name| - |MD|];
      assert name == base + MD;
      EndOfConcat(base, RU_MD, RU_MD);
      EndOfConcat(base + ".ru", MD, MD);
      assert base + RU_MD == base + ".ru" + MD;
      DoubledIsRussian(name);
    }
  }

  lemma DoubledIsRussian(name: string)
    ensures IsDoubled(name) ==> EndsWith(name, RU_MD)
  {
    assert |name| >= 9 ==> name[|name| - 9..][3..] == name[|name| - 6..];
    assert ".ru.ru.md"[3..] == RU_MD;
  }

  lemma EndOfConcat(base: string, tail: string, suffix: string)
    requires EndsWith(tail, suffix)
    ensures EndsWith(base + tail, suffix)
  {
    assert (base + tail)[|base + tail| - |suffix|..] == tail[|tail| - |suffix|..];
  }

  lemma DoubledBase(base: string)
    ensures EndsWith(base + MD, RU_MD) <==> IsDoubled(base + RU_MD)
  {
    var s, t := base + MD, base + RU_MD;
    if |base| >= 3 {
      var e := base[|base| - 3..];
      assert s[|s| - 6..] == e + MD;
      assert t[|t| - 9..] == e + RU_MD;
      assert e + MD == RU_MD <==> e == ".ru" by { CutEnd(e, ".ru", MD); }
      assert e + RU_MD == ".ru.ru.md" <==> e == ".ru" by { CutEnd(e, ".ru", RU_MD); }
    }
  }

  lemma CutEnd(a: string, b: string, tail: string)
    ensures a + tail == b + tail <==> a == b
  {
    assert (a + tail)[..|a + tail| - |tail|] == a;
    assert (b + tail)[..|b + tail| - |tail|] == b;
  }

  /** Every rewritten link keeps its anchor and resolves, from the directory of its
      document, to an existing place that differs from the old target in the language of
      its last name; that name is of the wanted language unless the old one was doubled. */
  lemma RewrittenLinksResolve(fs: Tree, root: seq<string>, dir: seq<string>, wantRu: bool, t: string)
    requires TreeOk(fs) && AreNames(root) && AreNames(dir)
    requires FixTarget(fs, AbsPath(root), AbsPath(dir), wantRu, t) != t
    ensures var (target, anchor) := Partition(t);
            var p := Resolve(dir, target);
            && p in fs && p != []
            && var q := SwapLast(p, Wanted(p[|p| - 1], wantRu));
               && q in fs && q != p
               && (InLanguage(q[|q| - 1], wantRu) <==> wantRu || !IsDoubled(p[|p| - 1]))
               && exists link :: FixTarget(fs, AbsPath(root), AbsPath(dir), wantRu, t) == link + anchor
                                 && Resolve(dir, link) == q
  {
    hide FixTarget, RelText, RelParts, Wanted, EndsWith, InLanguage, IsDoubled;
    FixIsByPlace(fs, root, dir, wantRu, t);
    var (target, anchor) := Partition(t);
    var p := Resolve(dir, target);
    ResolveGivesNames(dir, target);
    var q := SwapLast(p, Wanted(p[|p| - 1], wantRu));
    LanguageOfWanted(p[|p| - 1], wantRu);
    WantedIsName(p[|p| - 1], wantRu);
    assert q[|q| - 1] != p[|p| - 1];
    RelTextResolves(q, dir);
  }

  lemma {:induction false} PartitionLacks(t: string)
    ensures Lacks(Partition(t).0, '#') && (Partition(t).1 == "" || Partition(t).1[0] == '#')
  {
    if t != "" && t[0] != '#' {
      PartitionLacks(t[1..]);
    }
  }

  /** Text without a mark stays in front of the first mark. */
  lemma {:induction false} PartitionAppend(head: string, tail: string)
    requires Lacks(head, '#')
    ensures Partition(head + tail) == (head + Partition(tail).0, Partition(tail).1)
  {
    if head == "" {
      assert head + tail == tail;
      assert head + Partition(tail).0 == Partition(tail).0;
    } else {
      assert (head + tail)[1..] == head[1..] + tail;
      PartitionAppend(head[1..], tail);
      assert head + Partition(tail).0 == [head[0]] + (head[1..] + Partition(tail).0);
    }
  }

  lemma PartitionBack(head: string, tail: string)
    requires Lacks(head, '#') && (tail == "" || tail[0] == '#')
    ensures Partition(head + tail) == (head, tail)
  {
    PartitionAppend(head, tail);
    assert head + "" == head;
  }

  /** Reducing keeps some names of the stack; all others come from the path. */
  lemma {:induction false} ReduceKeeps(stack: seq<string>, parts: seq<string>) returns (k: nat)
    ensures var r := Reduce(true, stack, parts);
            && k <= |stack| && k <= |r| && r[..k] == stack[..k]
            && forall i :: k <= i < |r| ==> r[i] in parts
    decreases |parts|
  {
    if parts == [] {
      k := |stack|;
    } else {
      var next := Advance(true, stack, parts[0]);
      var r := Reduce(true, stack, parts);
      var m := ReduceKeeps(next, parts[1..]);
      k := if m <= |stack| then m else |stack|;
      assert next[..k] == stack[..k];
      assert r[..k] == r[..m][..k];
      assert forall i :: 0 <= i < m ==> r[i] == r[..m][i] == next[..m][i];
    }
  }

  /** The relative path to a neighbour of a link's target has a character in it only if
      the target or the neighbour's name has. */
  lemma NewPathLacks(dir: seq<string>, target: string, name: string, c: char)
    requires Lacks(target, c) && Lacks(name, c) && Resolve(dir, target) != []
    requires c != '.' && c != '/'
    ensures Lacks(RelText(RelParts(SwapLast(Resolve(dir, target), name), dir)), c)
  {
    hide Reduce, RelText;
    var p := Resolve(dir, target);
    var q := SwapLast(p, name);
    SplitLacks(target, '/', c);
    var k := ReduceKeeps(if IsAbsolute(target) then [] else dir, Split(target, '/'));
    var n := CommonPrefix(dir, q);
    assert k > 0 ==> p[k - 1] == p[..k][k - 1];
    forall j | n <= j < |q| ensures Lacks(q[j], c) {
      if j < |q| - 1 {
        KeptIsCommon(dir, p, q, k, j);
        assert q[j] == p[j] && p[j] in Split(target, '/');
      }
    }
    RelTextLacks(RelParts(q, dir), c);
  }

  lemma KeptIsCommon(dir: seq<string>, p: seq<string>, q: seq<string>, k: nat, j: nat)
    requires p != [] && |q| == |p| && q[..|p| - 1] == p[..|p| - 1]
    requires k <= |p| && k <= |dir| && (k == 0 || p[..k] == dir[..k])
    requires CommonPrefix(dir, q) <= j < |q| - 1
    ensures k <= j
  {
    var m := if k < |p| then k else |p| - 1;
    assert q[..m] == q[..|p| - 1][..m] == p[..m];
    assert k > 0 ==> p[..m] == p[..k][..m] == dir[..m];
    CommonAtLeast(dir, q, m);
  }

  /** A last name with a character that the link's target lacks is the name of a
      directory on the document's way. */
  lemma ForeignNameIsAbove(dir: seq<string>, target: string, c: char)
    requires Lacks(target, c)
    ensures var p := Resolve(dir, target);
            p != [] && !Lacks(p[|p| - 1], c) ==> |p| <= |dir| && p == dir[..|p|]
  {
    hide Reduce;
    var p := Resolve(dir, target);
    SplitLacks(target, '/', c);
    var k := ReduceKeeps(if IsAbsolute(target) then [] else dir, Split(target, '/'));
    if p != [] && k == |p| {
      assert p[..k] == p;
    }
  }

  lemma {:induction false} SplitLacks(t: string, sep: char, c: char)
    requires Lacks(t, c)
    ensures forall i :: 0 <= i < |Split(t, sep)| ==> Lacks(Split(t, sep)[i], c)
  {
    if t != "" {
      SplitLacks(t[1..], sep, c);
    }
  }

  /** A link is rewritten exactly when its target has a counterpart, and then to the
      relative text of the counterpart. */
  lemma NewTarget(fs: Tree, root: seq<string>, dir: seq<string>, wantRu: bool, t: string)
    requires AreNames(root) && AreNames(dir)
    ensures var (target, anchor) := Partition(t);
            var c := Counterpart(fs, root, wantRu, Resolve(dir, target));
            if IsExternal(t) || target == "" || c.None? then FixedByPlace(fs, root, dir, wantRu, t) == t
            else
              var link := RelText(RelParts(c.value, dir));
              && c.value in fs && AreNames(c.value)
              && FixedByPlace(fs, root, dir, wantRu, t) == link + anchor != t
              && link != "" && Resolve(dir, link) == c.value
  {
    hide Wanted, EndsWith, RelText, RelParts, Resolve, Partition, IsExternal, CommonPrefix;
    var (target, anchor) := Partition(t);
    var p := Resolve(dir, target);
    ResolveGivesNames(dir, target);
    if Counterpart(fs, root, wantRu, p).Some? {
      var q := Counterpart(fs, root, wantRu, p).value;
      assert IsName(p[|p| - 1]);
      WantedIsName(p[|p| - 1], wantRu);
      assert q[|q| - 1] != p[|p| - 1];
      assert AreNames(q);
      RelTextResolves(q, dir);
      RelTextIsNotEmpty(q, dir);
      CutEnd(RelText(RelParts(q, dir)), target, anchor);
    }
  }

  /** The place at hand and its other form have the names `base.md` and `base.ru.md`, the
      wanted one of which exists. */
  predicate IsOtherForm(fs: Tree, p: seq<string>, wantRu: bool, base: string)
    requires p != []
  {
    var n := |p| - 1;
    if wantRu then
      && p[n] == base + ".md" && (|base| < 3 || base[|base| - 3..] != ".ru")
      && p[..n] + [base + ".ru.md"] in fs
    else
      p[n] == base + ".ru.md" && p[..n] + [base + ".md"] in fs
  }

  lemma OtherFormIsWanted(fs: Tree, p: seq<string>, wantRu: bool)
    requires p != []
    ensures var name := Wanted(p[|p| - 1], wantRu);
            EndsWith(p[|p| - 1], MD) && name != p[|p| - 1] && SwapLast(p, name) in fs <==>
            exists base :: IsOtherForm(fs, p, wantRu, base)
  {
    hide EndsWith;
    var n := |p| - 1;
    var name := p[n];
    NameParts(name);
    if wantRu && EndsWith(name, MD) && !EndsWith(name, RU_MD) {
      assert SwapLast(p, Wanted(name, true)) in fs ==> IsOtherForm(fs, p, true, name[..|name| - |MD|]);
    }
    if !wantRu && EndsWith(name, RU_MD) {
      assert SwapLast(p, Wanted(name, false)) in fs ==> IsOtherForm(fs, p, false, name[..|name| - |RU_MD|]);
    }
    forall base | IsOtherForm(fs, p, wantRu, base)
      ensures EndsWith(name, MD) && Wanted(name, wantRu) != name && SwapLast(p, Wanted(name, wantRu)) in fs
    {
      BaseParts(base);
    }
  }

  lemma NameParts(name: string)
    ensures EndsWith(name, RU_MD) ==> name == name[..|name| - |RU_MD|] + ".ru.md" && EndsWith(name, MD)
    ensures EndsWith(name, MD) ==> name == name[..|name| - |MD|] + ".md"
    ensures EndsWith(name, MD) && !EndsWith(name, RU_MD) ==>
              var base := name[..|name| - |MD|]; |base| < 3 || base[|base| - 3..] != ".ru"
  {
    if EndsWith(name, RU_MD) {
      assert name[|name| - 3..] == RU_MD[3..];
    }
    if EndsWith(name, MD) && |name| >= 6 && name[|name| - 6..|name| - 3] == ".ru" {
      assert name[|name| - 6..] == ".ru" + MD;
    }
  }

  lemma BaseParts(base: string)
    ensures EndsWith(base + ".ru.md", MD) && EndsWith(base + ".ru.md", RU_MD) && EndsWith(base + ".md", MD)
    ensures (base + ".ru.md")[..|base + ".ru.md"| - |RU_MD|] == base
    ensures (base + ".md")[..|base + ".md"| - |MD|] == base
    ensures EndsWith(base + ".md", RU_MD) ==> |base| >= 3 && base[|base| - 3..] == ".ru"
  {
    EndOfConcat(base, RU_MD, RU_MD);
    EndOfConcat(base, RU_MD, MD);
    EndOfConcat(base, MD, MD);
    if EndsWith(base + MD, RU_MD) {
      var s := base + MD;
      assert base[|base| - 3..] == s[|s| - 6..][..3] == ".ru";
    }
  }

  lemma {:induction false} PrefixIsCommon(a: seq<string>, b: seq<string>)
    ensures CommonPrefix(a, b) == |b| <==> b <= a
  {
    if a != [] && b != [] {
      PrefixIsCommon(a[1..], b[1..]);
      assert b <= a <==> a[0] == b[0] && b[1..] <= a[1..];
    }
  }

  /** A link is rewritten exactly if it is none of the external kinds, has a path that
      leads to an existing place not on the way to the root, and that place is a
      markdown file of the unwanted language whose other form exists. */
  lemma RewritesExactlyWhen(fs: Tree, root: seq<string>, dir: seq<string>, wantRu: bool, t: string)
    requires TreeOk(fs) && AreNames(root) && AreNames(dir)
    ensures var p := Resolve(dir, Partition(t).0);
            FixTarget(fs, AbsPath(root), AbsPath(dir), wantRu, t) != t <==>
              && !("#" <= t || "http://" <= t || "https://" <= t || "mailto:" <= t || "data:" <= t)
              && Partition(t).0 != ""
              && p in fs && p != [] && !(p <= root)
              && exists base :: IsOtherForm(fs, p, wantRu, base)
  {
    hide FixTarget, Resolve, RelText, RelParts, EndsWith, Wanted, Partition, IsOtherForm;
    var p := Resolve(dir, Partition(t).0);
    FixIsByPlace(fs, root, dir, wantRu, t);
    NewTarget(fs, root, dir, wantRu, t);
    PrefixIsCommon(root, p);
    if p != [] {
      OtherFormIsWanted(fs, p, wantRu);
    }
  }

  lemma RelTextIsNotEmpty(p: seq<string>, dir: seq<string>)
    requires AreNames(p)
    ensures RelText(RelParts(p, dir)) != ""
  {
    var parts := RelParts(p, dir);
    RelPartsAreParts(p, dir);
    if parts != [] {
      assert IsPart(parts[0]);
    }
  }

  // ------------------------------------------------------------ marks in names

  /** The text of going up some levels. */
  function UpText(n: nat): (s: string)
    ensures n > 0 ==> s != "" && s[0] == '.'
    ensures forall i :: 0 <= i < |s| ==> s[i] == '.' || s[i] == '/'
  {
    if n == 0 then "" else "../" + UpText(n - 1)
  }

  lemma {:induction false} UnsplitUps(n: nat, last: string)
    ensures Unsplit(Ups(n) + [last], '/') == UpText(n) + last
  {
    if n == 0 {
      assert Ups(0) + [last] == [last];
      assert UpText(0) + last == last;
    } else {
      UnsplitUps(n - 1, last);
      assert (Ups(n) + [last])[1..] == Ups(n - 1) + [last];
      assert "../" + UpText(n - 1) + last == ".." + ['/'] + (UpText(n - 1) + last);
    }
  }

  /** Going up and down again leads to where the last part leads from there. */
  lemma ResolveUpDown(dir: seq<string>, n: nat, last: string)
    requires AreNames(dir) && n <= |dir| && n > 0 && Lacks(last, '/')
    ensures Resolve(dir, UpText(n) + last) == Advance(true, dir[..|dir| - n], last)
  {
    hide Unsplit;
    var parts := Ups(n) + [last];
    UnsplitUps(n, last);
    assert forall i :: 0 <= i < |parts| ==> Lacks(parts[i], '/');
    JoinSplits(parts, '/');
    assert (UpText(n) + last)[0] == '.';
    ReduceConcat(true, dir, Ups(n), [last]);
    ReduceUps(dir, n);
    assert [last][1..] == [];
  }

  /** Behind the first mark everything is anchor. */
  lemma {:induction false} PartitionFirst(head: string, tail: string)
    requires !Lacks(head, '#')
    ensures Partition(head + tail).0 == Partition(head).0
  {
    if head[0] != '#' {
      assert (head + tail)[1..] == head[1..] + tail;
      PartitionFirst(head[1..], tail);
    }
  }

  /** Both variants of a name have the same base, and the suffixes contain none of
      the characters that matter. */
  lemma VariantBase(name: string, wantRu: bool) returns (base: string, suffix: string, other: string)
    requires EndsWith(name, MD)
    ensures name == base + suffix && Wanted(name, wantRu) == base + other
    ensures suffix in {MD, RU_MD} && other in {MD, RU_MD}
  {
    var cut := if EndsWith(name, RU_MD) then |RU_MD| else |MD|;
    base, suffix := name[..|name| - cut], name[|name| - cut..];
    other := if Wanted(name, wantRu) == name then suffix else if wantRu then RU_MD else MD;
  }

  lemma SuffixLacks(c: char)
    requires c !in ".rumd"
    ensures Lacks(MD, c) && Lacks(RU_MD, c)
  {
  }

  /** The wanted form of a name has a character exactly if the name has. */
  lemma VariantLacks(name: string, wantRu: bool, c: char)
    requires EndsWith(name, MD) && c !in ".rumd"
    ensures Lacks(Wanted(name, wantRu), c) <==> Lacks(name, c)
  {
    var base, suffix, other := VariantBase(name, wantRu);
    SuffixLacks(c);
    LacksConcat(base, suffix, c);
    LacksConcat(base, other, c);
  }

  lemma LacksConcat(a: string, b: string, c: char)
    ensures Lacks(a + b, c) <==> Lacks(a, c) && Lacks(b, c)
  {
    assert forall i :: 0 <= i < |a| ==> (a + b)[i] == a[i];
    assert forall i :: 0 <= i < |b| ==> (a + b)[|a| + i] == b[i];
  }

  lemma WayUp(dir: seq<string>, i: nat)
    requires AreNames(dir) && i < |dir|
    ensures LeadsTo(dir, RelText(RelParts(dir[..i + 1], dir)), dir[..i + 1])
  {
    hide Resolve, Stops;
    var p := dir[..i + 1];
    CommonAtLeast(dir, p, i + 1);
    assert RelParts(p, dir) == Ups(|dir| - i - 1);
    var t := RelText(RelParts(p, dir));
    assert t[0] == '.';
    RelTextLacks(RelParts(p, dir), '#');
    forall c | Stops(c) ensures Lacks(t, c) {
      BreaksIsOther(c);
      RelTextLacks(RelParts(p, dir), c);
    }
    PartitionBack(t, "");
    assert t + "" == t;
    RelTextResolves(p, dir);
  }

  lemma OtherVariant(name: string)
    requires EndsWith(name, MD)
    ensures Wanted(name, !EndsWith(name, RU_MD)) != name
  {
    var cut := if EndsWith(name, RU_MD) then |RU_MD| else |MD|;
    assert name == name[..|name| - cut] + name[|name| - cut..];
  }

  lemma NewParts(dir: seq<string>, i: nat, other: string)
    requires i < |dir| && other != dir[i]
    ensures RelParts(SwapLast(dir[..i + 1], other), dir) == Ups(|dir| - i) + [other]
  {
    var q := SwapLast(dir[..i + 1], other);
    assert dir[..i + 1][..i] == dir[..i] == q[..i];
    CommonAtLeast(dir, q, i);
  }

  lemma NewWay(dir: seq<string>, i: nat, other: string)
    requires i < |dir| && other != dir[i]
    ensures var q := SwapLast(dir[..i + 1], other);
            RelText(RelParts(q, dir)) == UpText(|dir| - i) + other
  {
    hide Unsplit, UpText, RelParts, Ups, SwapLast;
    NewParts(dir, i, other);
    UnsplitUps(|dir| - i, other);
  }

  lemma StartsWithDot(t: string)
    requires t != "" && t[0] == '.'
    ensures !IsExternal(t)
  {
  }

  // ------------------------------------------------------------ links that look external

  /** Names that the test for external targets mistakes for a scheme. */
  predicate HasScheme(name: string) {
    StartsWith(name, "data:") || StartsWith(name, "mailto:")
  }

  /** The way from the directory down to `p` begins with such a name. */
  predicate LooksExternal(dir: seq<string>, p: seq<string>) {
    dir < p && HasScheme(p[|dir|])
  }

  lemma SchemeInFront(scheme: string, name: string, rest: string)
    requires rest == "" || rest[0] !in scheme
    ensures scheme <= name + rest <==> scheme <= name
  {
    if |name| >= |scheme| {
      assert (name + rest)[..|scheme|] == name[..|scheme|];
    } else if rest != "" {
      assert (name + rest)[|name|] == rest[0] != scheme[|name|];
    }
  }

  /** One name followed by the end, a mark or a single slash is no web address. */
  lemma NoWebAddress(name: string, rest: string)
    requires Lacks(name, '/')
    requires rest == "" || rest[0] == '#' || (rest[0] == '/' && |rest| > 1 && rest[1] != '/')
    ensures !("http://" <= name + rest) && !("https://" <= name + rest)
  {
    NoDoubleSlash("http:", name, rest);
    NoDoubleSlash("https:", name, rest);
    assert "http:" + "//" == "http://" && "https:" + "//" == "https://";
  }

  lemma NoDoubleSlash(scheme: string, name: string, rest: string)
    requires Lacks(name, '/') && Lacks(scheme, '/') && Lacks(scheme, '#')
    requires rest == "" || rest[0] == '#' || (rest[0] == '/' && |rest| > 1 && rest[1] != '/')
    ensures !(scheme + "//" <= name + rest)
  {
    var s, w := name + rest, scheme + "//";
    if |s| >= |w| && |name| <= |scheme| {
      assert s[|name|] == rest[0];
      assert w[|scheme|] == '/' && w[|scheme| + 1] == '/';
      assert |name| < |scheme| ==> w[|name|] == scheme[|name|];
      assert s[|name|] != w[|name|] || s[|name| + 1] != w[|name| + 1];
    } else if |s| >= |w| {
      assert s[|scheme|] == name[|scheme|] && w[|scheme|] == '/';
    }
  }

  /** Relative texts begin with their first part, and what follows is a slash and the
      next part. */
  lemma FirstPart(parts: seq<string>)
    requires parts != [] && forall i :: 0 <= i < |parts| ==> IsPart(parts[i])
    ensures var t := RelText(parts);
            && |parts[0]| <= |t| && t[..|parts[0]|] == parts[0]
            && var rest := t[|parts[0]|..];
               rest == "" || (rest[0] == '/' && |rest| > 1 && rest[1] != '/')
  {
    assert IsPart(parts[0]);
    if |parts| > 1 {
      assert IsPart(parts[1]);
      assert parts[1] != "" && parts[1][0] != '/';
      assert RelText(parts) == parts[0] + (['/'] + Unsplit(parts[1..], '/'));
    }
  }

  /** The relative text of a place looks external exactly if the first name on the way
      down has a scheme. */
  lemma ExternalExactly(dir: seq<string>, q: seq<string>, anchor: string)
    requires AreNames(q) && Lacks(RelText(RelParts(q, dir)), '#') && (anchor == "" || anchor[0] == '#')
    ensures IsExternal(RelText(RelParts(q, dir)) + anchor) <==> LooksExternal(dir, q)
  {
    hide RelText;
    var parts := RelParts(q, dir);
    var n := CommonPrefix(dir, q);
    RelPartsAreParts(q, dir);
    assert dir < q <==> n == |dir| < |q|;
    if parts == [] {
      assert RelText([]) == "." by { NoParts(); }
      StartsWithDot("." + anchor);
    } else {
      FirstPart(parts);
      var link := RelText(parts);
      var rest := link[|parts[0]|..];
      assert link + anchor == parts[0] + (rest + anchor);
      ExternalByFirst(parts[0], rest + anchor);
      assert parts[0] == if n < |dir| then ".." else q[n];
    }
  }

  lemma NoParts()
    ensures RelText([]) == "."
  {
  }

  lemma ExternalByFirst(first: string, rest: string)
    requires IsPart(first) && first[0] != '#'
    requires rest == "" || rest[0] == '#' || (rest[0] == '/' && |rest| > 1 && rest[1] != '/')
    ensures IsExternal(first + rest) <==> HasScheme(first)
  {
    SchemeInFront("data:", first, rest);
    SchemeInFront("mailto:", first, rest);
    NoWebAddress(first, rest);
    assert (first + rest)[0] == first[0];
  }

  /** The counterpart looks external exactly if the target does. */
  lemma SchemeIsKept(dir: seq<string>, p: seq<string>, wantRu: bool)
    requires p != [] && EndsWith(p[|p| - 1], MD)
    ensures LooksExternal(dir, SwapLast(p, Wanted(p[|p| - 1], wantRu))) <==> LooksExternal(dir, p)
  {
    hide EndsWith, Wanted;
    var name := p[|p| - 1];
    var q := SwapLast(p, Wanted(name, wantRu));
    var base, suffix, other := VariantBase(name, wantRu);
    assert p[..|p| - 1] == q[..|p| - 1];
    if |dir| < |p| {
      assert p[..|dir|] == p[..|p| - 1][..|dir|] == q[..|dir|];
      SchemeInFront("data:", base, suffix);
      SchemeInFront("data:", base, other);
      SchemeInFront("mailto:", base, suffix);
      SchemeInFront("mailto:", base, other);
    }
  }

  // ------------------------------------------------------------ where rewritten links lead

  /** What ends a link's target in a document, or the path in the target. */
  predicate Breaks(c: char) {
    c == '#' || Stops(c)
  }

  predicate IsClean(name: string) {
    forall i :: 0 <= i < |name| ==> !Breaks(name[i])
  }

  /** A link target leads to a place if the pattern takes it, the test for external
      targets lets it through and its path resolves there. */
  predicate LeadsTo(dir: seq<string>, t: string, p: seq<string>) {
    IsLinkText(t) && !IsExternal(t) && Partition(t).0 != "" && Resolve(dir, Partition(t).0) == p
  }

  /** A target that cannot be rewritten safely, as its place shows before the call. */
  predicate IsSpoiled(dir: seq<string>, p: seq<string>) {
    p != [] && (!IsClean(p[|p| - 1]) || LooksExternal(dir, p))
  }

  predicate HasOther(p: seq<string>, wantRu: bool) {
    p != [] && EndsWith(p[|p| - 1], MD) && Wanted(p[|p| - 1], wantRu) != p[|p| - 1]
  }

  lemma BreaksIsOther(c: char)
    requires Breaks(c)
    ensures c != '.' && c != '/' && c !in ".rumd"
  {
  }

  /** The part of a name before the first breaking character. */
  function Stem(name: string): (r: string)
    ensures r <= name && IsClean(r)
  {
    if name == "" || Breaks(name[0]) then "" else [name[0]] + Stem(name[1..])
  }

  /** The pattern reads a target that holds this name up to a closing parenthesis or to
      its end, and does not meet a blank before. */
  predicate IsReadable(name: string) {
    ReadOf(name) == name || name[|ReadOf(name)|] == ')'
  }

  /** What the pattern reads, cut at the mark, is what stands before any break. */
  lemma {:induction false} StemIsCut(s: string)
    ensures Partition(ReadOf(s)).0 == Stem(s)
  {
    hide Stops;
    if s != "" && !Breaks(s[0]) {
      StemIsCut(s[1..]);
      assert ReadOf(s)[1..] == ReadOf(s[1..]);
    }
  }

  lemma {:induction false} StemStopped(s: string, more: string)
    requires !IsClean(s)
    ensures Stem(s + more) == Stem(s)
  {
    hide Breaks;
    if !Breaks(s[0]) {
      assert (s + more)[1..] == s[1..] + more;
      assert !IsClean(s[1..]);
      StemStopped(s[1..], more);
    }
  }

  lemma SuffixIsClean()
    ensures IsClean(MD) && IsClean(RU_MD) && HasNoStop(MD) && HasNoStop(RU_MD)
  {
  }

  lemma ConcatClean(a: string, b: string)
    ensures IsClean(a + b) <==> IsClean(a) && IsClean(b)
    ensures HasNoStop(a + b) <==> HasNoStop(a) && HasNoStop(b)
  {
    hide Breaks, Stops;
    assert forall i :: 0 <= i < |a| ==> (a + b)[i] == a[i];
    assert forall i :: 0 <= i < |b| ==> (a + b)[|a| + i] == b[i];
  }

  lemma ReadableBase(base: string, more: string)
    requires HasNoStop(more)
    ensures IsReadable(base + more) <==> IsReadable(base)
  {
    hide Stops, ReadOf;
    ConcatClean(base, more);
    if HasNoStop(base) {
      ReadAll(base);
      ReadAll(base + more);
    } else {
      ReadStopped(base, more);
    }
  }

  /** Both forms of a name break at the same place and are read alike. */
  lemma VariantBreaks(name: string, wantRu: bool)
    requires EndsWith(name, MD)
    ensures var other := Wanted(name, wantRu);
            && (IsClean(other) <==> IsClean(name)) && (HasNoStop(other) <==> HasNoStop(name))
            && (IsReadable(other) <==> IsReadable(name))
            && (!IsClean(name) ==> Stem(other) == Stem(name))
  {
    hide EndsWith, Wanted, IsClean, HasNoStop, IsReadable, Stem;
    var base, suffix, other := VariantBase(name, wantRu);
    SuffixIsClean();
    ConcatClean(base, suffix);
    ConcatClean(base, other);
    ReadableBase(base, suffix);
    ReadableBase(base, other);
    if !IsClean(base) {
      StemStopped(base, suffix);
      StemStopped(base, other);
    }
  }

  lemma UncleanHas(name: string) returns (c: char)
    requires !IsClean(name)
    ensures Breaks(c) && !Lacks(name, c)
  {
    var i :| 0 <= i < |name| && Breaks(name[i]);
    c := name[i];
  }

  lemma PartsOfLinkText(t: string)
    requires IsLinkText(t)
    ensures IsClean(Partition(t).0) && HasNoStop(Partition(t).1)
  {
    hide Stops, Partition;
    PartitionLacks(t);
    var (head, tail) := Partition(t);
    forall i | 0 <= i < |head| ensures !Breaks(head[i]) {
      assert head[i] == t[i];
    }
    forall i | 0 <= i < |tail| ensures !Stops(tail[i]) {
      assert tail[i] == t[|head| + i];
    }
  }

  /** With a clean last name the new text is clean up to the anchor. */
  lemma CleanTarget(dir: seq<string>, target: string, wantRu: bool)
    requires IsClean(target) && AreNames(dir) && HasOther(Resolve(dir, target), wantRu)
    requires IsClean(Resolve(dir, target)[|Resolve(dir, target)| - 1])
    ensures var p := Resolve(dir, target);
            IsClean(RelText(RelParts(SwapLast(p, Wanted(p[|p| - 1], wantRu)), dir)))
  {
    hide Resolve, RelText, RelParts, EndsWith, Wanted, Breaks;
    var p := Resolve(dir, target);
    var name := p[|p| - 1];
    var link := RelText(RelParts(SwapLast(p, Wanted(name, wantRu)), dir));
    forall c | Breaks(c) ensures Lacks(link, c) {
      BreaksIsOther(c);
      VariantLacks(name, wantRu, c);
      NewPathLacks(dir, target, Wanted(name, wantRu), c);
    }
  }

  /** What the pattern reads of a text that goes up, down to an unclean name and on to
      an anchor. */
  lemma ReadUpDown(n: nat, other: string, anchor: string)
    requires n > 0 && !IsClean(other) && HasNoStop(anchor)
    ensures var once := UpText(n) + other + anchor;
            var h := ReadOf(once);
            && (IsRead(once) <==> IsReadable(other))
            && h != "" && h[0] == '.' && Partition(h).0 == UpText(n) + Stem(other)
  {
    hide ReadOf, Stem, Partition, Breaks, Stops;
    var up, rest := UpText(n), other + anchor;
    var once := up + other + anchor;
    assert once == up + rest;
    UpIsClean(n);
    ReadBehind(up, rest);
    StemIsCut(other);
    PartitionAppend(up, ReadOf(rest));
    if HasNoStop(other) {
      ConcatClean(other, anchor);
      ReadAll(other);
      ReadAll(rest);
      NoStopButMark(other);
      PartitionFirst(other, anchor);
    } else {
      ReadStopped(other, anchor);
      assert once[|up| + |ReadOf(other)|] == other[|ReadOf(other)|];
    }
  }

  lemma UpIsClean(n: nat)
    ensures HasNoStop(UpText(n)) && Lacks(UpText(n), '#')
  {
  }

  lemma NoStopButMark(name: string)
    requires HasNoStop(name) && !IsClean(name)
    ensures !Lacks(name, '#')
  {
  }

  /** A target with an unclean last name is a directory above the document. The pattern
      reads its rewritten form if it can read the name, and then the path leads on from
      the directory's parent to the stem of the name. */
  lemma UncleanTarget(dir: seq<string>, target: string, anchor: string, wantRu: bool)
    requires IsClean(target) && HasNoStop(anchor) && AreNames(dir) && HasOther(Resolve(dir, target), wantRu)
    requires !IsClean(Resolve(dir, target)[|Resolve(dir, target)| - 1])
    ensures var p := Resolve(dir, target);
            var name := p[|p| - 1];
            var once := RelText(RelParts(SwapLast(p, Wanted(name, wantRu)), dir)) + anchor;
            var h := ReadOf(once);
            && (IsRead(once) <==> IsReadable(name))
            && !IsExternal(h) && Partition(h).0 != ""
            && Resolve(dir, Partition(h).0) == Advance(true, p[..|p| - 1], Stem(name))
  {
    hide Resolve, RelText, RelParts, EndsWith, Wanted, Breaks, Partition, IsExternal, ReadOf, IsRead, IsReadable;
    var p := Resolve(dir, target);
    var name := p[|p| - 1];
    var other := Wanted(name, wantRu);
    var c := UncleanHas(name);
    BreaksIsOther(c);
    CleanLacks(target, c);
    ForeignNameIsAbove(dir, target, c);
    var i, n := |p| - 1, |dir| - |p| + 1;
    assert p == dir[..i + 1] && p[..i] == dir[..i] && name == dir[i];
    assert IsName(dir[i]);
    WantedIsName(name, wantRu);
    NewWay(dir, i, other);
    VariantBreaks(name, wantRu);
    ReadUpDown(n, other, anchor);
    StemOfName(other);
    ResolveUpDown(dir, n, Stem(other));
    StartsWithDot(ReadOf(UpText(n) + other + anchor));
  }

  lemma CleanLacks(s: string, c: char)
    requires IsClean(s) && Breaks(c)
    ensures Lacks(s, c)
  {
  }

  lemma StemOfName(name: string)
    requires Lacks(name, '/')
    ensures Lacks(Stem(name), '/')
  {
  }

  lemma AdvanceMisses(stack: seq<string>, c: string, name: string)
    requires IsClean(c) && !IsClean(name)
    ensures Advance(true, stack, c) != stack + [name]
  {
    assert (stack + [c])[|stack|] == c && (stack + [name])[|stack|] == name;
  }

  /** Such a text leads neither to the target nor to its counterpart. */
  lemma UncleanLeads(dir: seq<string>, target: string, anchor: string, wantRu: bool)
    requires IsClean(target) && HasNoStop(anchor) && AreNames(dir) && HasOther(Resolve(dir, target), wantRu)
    requires !IsClean(Resolve(dir, target)[|Resolve(dir, target)| - 1])
    ensures var p := Resolve(dir, target);
            var q := SwapLast(p, Wanted(p[|p| - 1], wantRu));
            var once := RelText(RelParts(q, dir)) + anchor;
            !LeadsTo(dir, once, p) && !LeadsTo(dir, once, q)
  {
    hide Resolve, RelText, RelParts, EndsWith, Wanted, IsClean, Partition, IsExternal, ReadOf, IsRead, HasNoStop;
    var p := Resolve(dir, target);
    var name := p[|p| - 1];
    var q := SwapLast(p, Wanted(name, wantRu));
    var once := RelText(RelParts(q, dir)) + anchor;
    UncleanTarget(dir, target, anchor, wantRu);
    VariantBreaks(name, wantRu);
    AdvanceMisses(p[..|p| - 1], Stem(name), name);
    AdvanceMisses(p[..|p| - 1], Stem(name), Wanted(name, wantRu));
    assert p == p[..|p| - 1] + [name];
    if IsLinkText(once) {
      ReadAll(once);
    }
  }

  /** The new text of a link leads to the counterpart if the target is not spoiled, and
      else neither there nor where it led before. */
  lemma NewTextLeads(dir: seq<string>, t: string, wantRu: bool)
    requires AreNames(dir) && IsLinkText(t) && HasOther(Resolve(dir, Partition(t).0), wantRu)
    ensures var (target, anchor) := Partition(t);
            var p := Resolve(dir, target);
            var q := SwapLast(p, Wanted(p[|p| - 1], wantRu));
            var once := RelText(RelParts(q, dir)) + anchor;
            if IsSpoiled(dir, p) then !LeadsTo(dir, once, p) && !LeadsTo(dir, once, q) else LeadsTo(dir, once, q)
  {
    hide Resolve, RelText, RelParts, EndsWith, Wanted, Breaks, Partition, IsExternal, HasNoStop, LooksExternal;
    var (target, anchor) := Partition(t);
    var p := Resolve(dir, target);
    var q := SwapLast(p, Wanted(p[|p| - 1], wantRu));
    var link := RelText(RelParts(q, dir));
    PartsOfLinkText(t);
    PartitionLacks(t);
    if IsClean(p[|p| - 1]) {
      ResolveGivesNames(dir, target);
      assert IsName(p[|p| - 1]);
      WantedIsName(p[|p| - 1], wantRu);
      assert AreNames(q);
      CleanTarget(dir, target, wantRu);
      RelTextIsNotEmpty(q, dir);
      CleanLink(link, anchor);
      PartitionBack(link, anchor);
      SchemeIsKept(dir, p, wantRu);
      ExternalExactly(dir, q, anchor);
      RelTextResolves(q, dir);
    } else {
      UncleanLeads(dir, target, anchor, wantRu);
    }
  }

  lemma CleanLink(link: string, anchor: string)
    requires IsClean(link) && link != ""
    requires HasNoStop(anchor)
    ensures Lacks(link, '#') && IsLinkText(link + anchor)
  {
  }

  /** A rewritten link leads to the counterpart of its target if and only if the name of
      the target is clean and the way down to it does not begin like a scheme. */
  lemma RewrittenLeadsExactlyWhen(fs: Tree, root: seq<string>, dir: seq<string>, wantRu: bool, t: string)
    requires TreeOk(fs) && AreNames(root) && AreNames(dir) && IsLinkText(t)
    requires FixTarget(fs, AbsPath(root), AbsPath(dir), wantRu, t) != t
    ensures var p := Resolve(dir, Partition(t).0);
            && p != []
            && var q := SwapLast(p, Wanted(p[|p| - 1], wantRu));
               LeadsTo(dir, FixTarget(fs, AbsPath(root), AbsPath(dir), wantRu, t), q) <==> !IsSpoiled(dir, p)
  {
    hide FixTarget, Resolve, RelText, RelParts, EndsWith, Wanted, Partition, IsExternal, LeadsTo, IsSpoiled;
    FixIsByPlace(fs, root, dir, wantRu, t);
    NewTarget(fs, root, dir, wantRu, t);
    NewTextLeads(dir, t, wantRu);
  }

  /** The link leads to a place that exists. */
  predicate IsAlive(fs: Tree, dir: seq<string>, t: string) {
    var p := Resolve(dir, Partition(t).0);
    LeadsTo(dir, t, p) && p in fs
  }

  /** No live link is made dead unless its target is spoiled. */
  lemma NoDeadLinks(fs: Tree, root: seq<string>, dir: seq<string>, wantRu: bool, t: string)
    requires TreeOk(fs) && AreNames(root) && AreNames(dir) && IsAlive(fs, dir, t)
    ensures IsSpoiled(dir, Resolve(dir, Partition(t).0))
            || IsAlive(fs, dir, FixTarget(fs, AbsPath(root), AbsPath(dir), wantRu, t))
  {
    hide FixTarget, Resolve, RelText, RelParts, EndsWith, Wanted, Partition, IsExternal, IsSpoiled, IsLinkText;
    FixIsByPlace(fs, root, dir, wantRu, t);
    NewTarget(fs, root, dir, wantRu, t);
    if FixTarget(fs, AbsPath(root), AbsPath(dir), wantRu, t) != t {
      NewTextLeads(dir, t, wantRu);
    }
  }

  /** Whatever else exists, this link is not made dead. */
  ghost predicate NeverDies(dir: seq<string>, wantRu: bool, t: string) {
    forall fs, root :: TreeOk(fs) && AreNames(root) && IsAlive(fs, dir, t) ==>
      IsAlive(fs, dir, FixTarget(fs, AbsPath(root), AbsPath(dir), wantRu, t))
  }

  /** A link that can lead somewhere stays alive in every file tree if and only if its
      target has no other form or is not spoiled. */
  lemma NeverDiesExactlyWhen(dir: seq<string>, wantRu: bool, t: string, p: seq<string>)
    requires AreNames(dir) && LeadsTo(dir, t, p) && forall i :: 0 <= i < |p| ==> Lacks(p[i], '\\')
    ensures NeverDies(dir, wantRu, t) <==> !(HasOther(p, wantRu) && IsSpoiled(dir, p))
  {
    hide FixTarget, Resolve, RelText, RelParts, EndsWith, Wanted, Partition, IsExternal, IsSpoiled, IsLinkText;
    if HasOther(p, wantRu) && IsSpoiled(dir, p) {
      var fs := SpoiledTree(dir, wantRu, t, p);
      assert AreNames([]);
    } else {
      forall fs: Tree, root | TreeOk(fs) && AreNames(root) && IsAlive(fs, dir, t)
        ensures IsAlive(fs, dir, FixTarget(fs, AbsPath(root), AbsPath(dir), wantRu, t))
      {
        NoDeadLinks(fs, root, dir, wantRu, t);
        FixIsByPlace(fs, root, dir, wantRu, t);
        NewTarget(fs, root, dir, wantRu, t);
      }
    }
  }

  /** The tree in which a spoiled link dies: its target and the counterpart. */
  lemma SpoiledTree(dir: seq<string>, wantRu: bool, t: string, p: seq<string>) returns (fs: Tree)
    requires AreNames(dir) && LeadsTo(dir, t, p) && forall i :: 0 <= i < |p| ==> Lacks(p[i], '\\')
    requires HasOther(p, wantRu) && IsSpoiled(dir, p)
    ensures TreeOk(fs) && IsAlive(fs, dir, t)
    ensures !IsAlive(fs, dir, FixTarget(fs, AbsPath([]), AbsPath(dir), wantRu, t))
  {
    hide FixTarget, Resolve, RelText, RelParts, EndsWith, Wanted, Partition, IsExternal, IsSpoiled, IsLinkText;
    var name := p[|p| - 1];
    var q := SwapLast(p, Wanted(name, wantRu));
    ResolveGivesNames(dir, Partition(t).0);
    assert IsName(name);
    WantedIsName(name, wantRu);
    fs := {p, q};
    assert TreeOk(fs);
    assert Counterpart(fs, [], wantRu, p) == Some(q) by { Beyond([], p); }
    FixIsByPlace(fs, [], dir, wantRu, t);
    NewTextLeads(dir, t, wantRu);
  }

  /** One failing family: below a directory that is named like a markdown file and has a
      breaking character in its name, the link up to it can die. */
  lemma SpoiledDirectoryKills(dir: seq<string>, i: nat) returns (wantRu: bool, t: string)
    requires AreNames(dir) && forall j :: 0 <= j < |dir| ==> Lacks(dir[j], '\\')
    requires i < |dir| && EndsWith(dir[i], MD) && !IsClean(dir[i])
    ensures LeadsTo(dir, t, dir[..i + 1]) && !NeverDies(dir, wantRu, t)
  {
    hide Resolve, RelText, RelParts, EndsWith, Wanted, Partition, IsExternal, NeverDies, IsClean;
    var p := dir[..i + 1];
    wantRu := !EndsWith(dir[i], RU_MD);
    t := RelText(RelParts(p, dir));
    WayUp(dir, i);
    OtherVariant(dir[i]);
    assert p[i] == dir[i];
    NeverDiesExactlyWhen(dir, wantRu, t, p);
  }

  /** The other one exists in every directory: a file whose name begins like a scheme is
      a file to a link with a dot in front, and no file to the rewritten link. */
  lemma SchemeNameKills(fs: Tree, root: seq<string>, dir: seq<string>, x: string)
    requires TreeOk(fs) && AreNames(root) && AreNames(dir) && root <= dir
    requires Lacks(x, '/') && IsClean(x)
    requires dir + ["data:" + x + RU_MD] in fs && dir + ["data:" + x + MD] in fs
    ensures IsAlive(fs, dir, "./data:" + x + RU_MD)
    ensures var once := FixTarget(fs, AbsPath(root), AbsPath(dir), false, "./data:" + x + RU_MD);
            once == "data:" + x + MD && IsExternal(once) && !IsAlive(fs, dir, once)
  {
    hide FixTarget, Resolve, RelText, RelParts, Partition, AbsPath, CommonPrefix, Wanted, EndsWith;
    var name, other := "data:" + x + RU_MD, "data:" + x + MD;
    var t := "./" + name;
    assert t == "./data:" + x + RU_MD;
    SchemeNames(x);
    DotSlash(dir, name);
    StartsWithDot(t);
    PartitionBack(t, "");
    assert t + "" == t;
    var p := dir + [name];
    Beyond(root, p);
    assert SwapLast(p, other) == dir + [other];
    FixIsByPlace(fs, root, dir, false, t);
    NeighbourText(dir, other);
    assert other + "" == other;
  }

  lemma SchemeNames(x: string)
    requires Lacks(x, '/') && IsClean(x)
    ensures var name, other := "data:" + x + RU_MD, "data:" + x + MD;
            && Wanted(name, false) == other != name && EndsWith(name, MD)
            && IsName(name) && IsLinkText("./" + name) && Lacks("./" + name, '#') && IsExternal(other)
  {
    var base := "data:" + x;
    EndOfConcat(base, RU_MD, RU_MD);
    EndOfConcat(base, RU_MD, MD);
    assert (base + RU_MD)[..|base|] == base;
    assert |base + RU_MD| != |base + MD|;
    assert (base + MD)[..5] == "data:";
  }

  lemma DotSlash(dir: seq<string>, name: string)
    requires IsName(name)
    ensures Resolve(dir, "./" + name) == dir + [name]
  {
    hide Split;
    SplitOfLine(".", name, '/');
    SplitOfLine(name, "", '/');
    assert "." + ['/'] + name == "./" + name;
    assert ["."] + [name] == [".", name] && [".", name][1..] == [name];
    assert AreNames([name]);
    ReduceNames(dir, [name]);
  }

  // ------------------------------------------------------------ idempotence

  /** The replacement as the pattern's substitution calls it. */
  function Fixer(fs: Tree, root: string, d: string, wantRu: bool): string -> string {
    t => FixTarget(fs, root, d, wantRu, t)
  }

  /** What a second pass makes of a target that the first one wrote. */
  function FixRead(fs: Tree, root: string, d: string, wantRu: bool, t: string): string {
    Reread(Fixer(fs, root, d, wantRu), t)
  }

  /** A link that a second pass would change again. Either its name carries the Russian
      mark twice, an English document wants it, the form with no mark exists too, and the
      first replacement does not look external; or it leads up to a directory with a
      breaking character in its name, the pattern reads the new text in spite of it, and
      the stem of the name leads to a place with a counterpart. */
  predicate IsUnstable(fs: Tree, root: seq<string>, dir: seq<string>, wantRu: bool, t: string) {
    var p := Resolve(dir, Partition(t).0);
    && !IsExternal(t) && Partition(t).0 != "" && Counterpart(fs, root, wantRu, p).Some?
    && var name := p[|p| - 1];
       if IsClean(name) then
         && !wantRu && IsDoubled(name) && !LooksExternal(dir, p)
         && var q := SwapLast(p, Wanted(name, false));
            SwapLast(q, Wanted(q[|q| - 1], false)) in fs && CommonPrefix(root, q) < |q|
       else
         IsReadable(name) && Counterpart(fs, root, wantRu, Advance(true, p[..|p| - 1], Stem(name))).Some?
  }

  lemma CounterpartTwice(fs: Tree, root: seq<string>, wantRu: bool, p: seq<string>)
    requires Counterpart(fs, root, wantRu, p).Some?
    ensures HasOther(p, wantRu)
    ensures var q := Counterpart(fs, root, wantRu, p).value;
            && q != [] && q == SwapLast(p, Wanted(p[|p| - 1], wantRu))
            && (Counterpart(fs, root, wantRu, q).Some? <==>
                  !wantRu && IsDoubled(p[|p| - 1])
                  && SwapLast(q, Wanted(q[|q| - 1], false)) in fs && CommonPrefix(root, q) < |q|)
  {
    hide Wanted, EndsWith, IsDoubled, CommonPrefix;
    LanguageOfWanted(p[|p| - 1], wantRu);
  }

  lemma SecondPassByPlace(fs: Tree, root: seq<string>, dir: seq<string>, wantRu: bool, t: string)
    requires AreNames(root) && AreNames(dir) && IsLinkText(t)
    ensures var once := FixedByPlace(fs, root, dir, wantRu, t);
            var h := ReadOf(once);
            IsRead(once) && FixedByPlace(fs, root, dir, wantRu, h) != h <==> IsUnstable(fs, root, dir, wantRu, t)
  {
    hide Wanted, EndsWith, IsDoubled, RelText, RelParts, CommonPrefix, Resolve, Counterpart, IsClean, Stem;
    hide Partition, IsExternal, SwapLast, LooksExternal, FixedByPlace, ReadOf, IsRead, IsReadable, HasNoStop;
    var (target, anchor) := Partition(t);
    var p := Resolve(dir, target);
    var once := FixedByPlace(fs, root, dir, wantRu, t);
    NewTarget(fs, root, dir, wantRu, t);
    NewTarget(fs, root, dir, wantRu, ReadOf(once));
    if !IsExternal(t) && target != "" && Counterpart(fs, root, wantRu, p).Some? {
      PartitionLacks(t);
      PartsOfLinkText(t);
      CounterpartTwice(fs, root, wantRu, p);
      if IsClean(p[|p| - 1]) {
        CleanNext(fs, root, dir, wantRu, target, anchor);
        ReadLinkText(once);
      } else {
        UncleanTarget(dir, target, anchor, wantRu);
      }
    } else {
      ReadLinkText(t);
    }
  }

  lemma ReadLinkText(t: string)
    requires IsLinkText(t)
    ensures IsRead(t) && ReadOf(t) == t
  {
    ReadAll(t);
  }

  /** With a clean last name the new text is a link text again and splits where the old
      one did. */
  lemma CleanNext(fs: Tree, root: seq<string>, dir: seq<string>, wantRu: bool, target: string, anchor: string)
    requires AreNames(dir) && IsClean(target) && HasNoStop(anchor) && (anchor == "" || anchor[0] == '#')
    requires Counterpart(fs, root, wantRu, Resolve(dir, target)).Some?
    requires IsClean(Resolve(dir, target)[|Resolve(dir, target)| - 1])
    ensures var p := Resolve(dir, target);
            var q := Counterpart(fs, root, wantRu, p).value;
            var link := RelText(RelParts(q, dir));
            && IsLinkText(link + anchor)
            && Partition(link + anchor) == (link, anchor)
            && (IsExternal(link + anchor) <==> LooksExternal(dir, p))
            && IsClean(q[|q| - 1])
  {
    hide Wanted, EndsWith, RelText, RelParts, Resolve, Partition, IsExternal, LooksExternal, IsClean, HasNoStop;
    var p := Resolve(dir, target);
    var q := Counterpart(fs, root, wantRu, p).value;
    CounterpartTwice(fs, root, wantRu, p);
    ResolveGivesNames(dir, target);
    assert IsName(p[|p| - 1]);
    WantedIsName(p[|p| - 1], wantRu);
    assert AreNames(q);
    var link := RelText(RelParts(q, dir));
    CleanTarget(dir, target, wantRu);
    VariantBreaks(p[|p| - 1], wantRu);
    RelTextIsNotEmpty(q, dir);
    CleanLink(link, anchor);
    PartitionBack(link, anchor);
    SchemeIsKept(dir, p, wantRu);
    ExternalExactly(dir, q, anchor);
  }

  /** A second pass with the same verdict leaves what the first one wrote alone exactly
      when the link is not unstable. */
  lemma SecondPassExactly(fs: Tree, root: seq<string>, dir: seq<string>, wantRu: bool, t: string)
    requires TreeOk(fs) && AreNames(root) && AreNames(dir) && IsLinkText(t)
    ensures var once := FixTarget(fs, AbsPath(root), AbsPath(dir), wantRu, t);
            FixRead(fs, AbsPath(root), AbsPath(dir), wantRu, once) == once <==>
            !IsUnstable(fs, root, dir, wantRu, t)
  {
    hide FixTarget, FixedByPlace, IsUnstable, ReadOf, IsRead, IsLinkText;
    var once := FixedByPlace(fs, root, dir, wantRu, t);
    var h := ReadOf(once);
    FixIsByPlace(fs, root, dir, wantRu, t);
    FixIsByPlace(fs, root, dir, wantRu, h);
    SecondPassByPlace(fs, root, dir, wantRu, t);
    assert once == h + once[|h|..];
    CutEnd(FixTarget(fs, AbsPath(root), AbsPath(dir), wantRu, h), h, once[|h|..]);
  }

  /** The second family: below a directory whose name goes on, behind the name of a
      neighbour, with an anchor mark or a closing parenthesis, the link to that directory
      is changed by both passes. Behind an anchor mark no blank may come first. */
  lemma BrokenDirectoryIsChangedTwice(fs: Tree, root: seq<string>, above: seq<string>,
                                      first: string, c: char, second: string)
    requires TreeOk(fs) && AreNames(root) && AreNames(above) && root <= above
    requires IsName(first + MD) && IsClean(first) && !EndsWith(first + MD, RU_MD)
    requires c == ')' || (c == '#' && HasNoStop(second))
    requires Lacks(second, '/') && !EndsWith(first + MD + [c] + second + MD, RU_MD)
    requires above + [first + MD + [c] + second + MD] in fs && above + [first + MD + [c] + second + RU_MD] in fs
    requires above + [first + MD] in fs && above + [first + RU_MD] in fs
    ensures var dir := above + [first + MD + [c] + second + MD];
            var once := FixTarget(fs, AbsPath(root), AbsPath(dir), true, ".");
            FixRead(fs, AbsPath(root), AbsPath(dir), true, once) != once
  {
    hide FixTarget, FixRead, Wanted, EndsWith, Resolve, RelText, RelParts, CommonPrefix, AbsPath, Partition;
    hide IsClean, HasNoStop, IsReadable, Stem;
    var name := first + MD + [c] + second + MD;
    var other := first + MD + [c] + second + RU_MD;
    var dir := above + [name];
    BrokenNames(first, c, second);
    BrokenIsRead(first, c, second);
    assert AreNames(dir);
    assert dir[..|above| + 1] == dir && dir[..|above|] == above;
    StayHere(dir);
    Beyond(root, dir);
    Beyond(root, above + [first + MD]);
    assert SwapLast(dir, other) == above + [other];
    assert SwapLast(above + [first + MD], first + RU_MD) == above + [first + RU_MD];
    assert (above + [first + MD])[|above|] == first + MD;
    assert IsUnstable(fs, root, dir, true, ".");
    SecondPassExactly(fs, root, dir, true, ".");
  }

  lemma BrokenNames(first: string, c: char, second: string)
    requires IsName(first + MD) && !EndsWith(first + MD, RU_MD) && c != '/'
    requires Lacks(second, '/') && !EndsWith(first + MD + [c] + second + MD, RU_MD)
    ensures var name := first + MD + [c] + second + MD;
            && IsName(name) && EndsWith(name, MD)
            && Wanted(name, true) == first + MD + [c] + second + RU_MD != name
            && EndsWith(first + MD, MD)
            && Wanted(first + MD, true) == first + RU_MD != first + MD
  {
    hide EndsWith;
    var base := first + MD + [c] + second;
    var name := base + MD;
    EndOfConcat(base, MD, MD);
    EndOfConcat(first, MD, MD);
    assert name[..|name| - |MD|] == base && (first + MD)[..|first|] == first;
    assert Lacks(first + MD, '/');
    LacksConcat(first + MD, [c] + second, '/');
    assert first + MD + ([c] + second) == base;
    LacksConcat(base, MD, '/');
    assert |name| > 2;
    assert |base + RU_MD| != |base + MD| && |first + RU_MD| != |first + MD|;
  }

  lemma BrokenIsRead(first: string, c: char, second: string)
    requires IsClean(first) && (c == ')' || (c == '#' && HasNoStop(second)))
    ensures var name := first + MD + [c] + second + MD;
            !IsClean(name) && IsReadable(name) && Stem(name) == first + MD
  {
    hide Stem, ReadOf, IsClean, HasNoStop;
    var front, rest := first + MD, [c] + second + MD;
    var name := first + MD + [c] + second + MD;
    assert name == front + rest;
    SuffixIsClean();
    ConcatClean(first, MD);
    BreakInFront(c, second + MD);
    assert [c] + (second + MD) == rest;
    ConcatClean(front, rest);
    StemBehind(front, rest);
    CleanHasNoStop(front);
    ReadBehind(front, rest);
    assert front + "" == front;
    if c == ')' {
      assert name[|front|] == ')';
    } else {
      ConcatClean(second, MD);
      MarkIsNoStop();
      ConcatClean([c], second + MD);
      ReadAll(rest);
    }
  }

  lemma BreakInFront(c: char, rest: string)
    requires Breaks(c)
    ensures !IsClean([c] + rest) && Stem([c] + rest) == ""
    ensures Stops(c) ==> ReadOf([c] + rest) == ""
  {
    assert ([c] + rest)[0] == c;
  }

  lemma MarkIsNoStop()
    ensures HasNoStop("#")
  {
  }

  lemma CleanHasNoStop(s: string)
    requires IsClean(s)
    ensures HasNoStop(s)
  {
  }

  lemma CleanTail(s: string)
    requires IsClean(s) && s != ""
    ensures !Breaks(s[0]) && IsClean(s[1..])
  {
  }

  lemma StemStep(c: char, t: string)
    requires !Breaks(c)
    ensures Stem([c] + t) == [c] + Stem(t)
  {
    assert ([c] + t)[1..] == t;
  }

  lemma {:induction false} StemBehind(clean: string, t: string)
    requires IsClean(clean)
    ensures Stem(clean + t) == clean + Stem(t)
  {
    hide Breaks, IsClean, Stem;
    if clean == "" {
      assert clean + t == t && clean + Stem(t) == Stem(t);
    } else {
      CleanTail(clean);
      StemBehind(clean[1..], t);
      StemStep(clean[0], clean[1..] + t);
      assert clean + t == [clean[0]] + (clean[1..] + t);
      assert clean + Stem(t) == [clean[0]] + (clean[1..] + Stem(t));
    }
  }

  lemma StayHere(dir: seq<string>)
    ensures IsLinkText(".") && !IsExternal(".") && Partition(".") == (".", "") && Resolve(dir, ".") == dir
  {
    PartitionBack(".", "");
    assert "." + "" == ".";
    SplitOfLine(".", "", '/');
    assert ["."][1..] == [];
  }

  /** The family that breaks idempotence: an English document links to a neighbour with
      a doubled mark, and the two shorter forms exist beside it. */
  lemma DoubledNeighbourIsChangedTwice(fs: Tree, root: seq<string>, dir: seq<string>, base: string)
    requires TreeOk(fs) && AreNames(dir) && AreNames(root) && root <= dir
    requires base != "" && Lacks(base, '/') && IsClean(base)
    requires !IsExternal(base + ".ru" + RU_MD)
    requires dir + [base + ".ru" + RU_MD] in fs && dir + [base + RU_MD] in fs && dir + [base + MD] in fs
    ensures var once := FixTarget(fs, AbsPath(root), AbsPath(dir), false, base + ".ru" + RU_MD);
            FixRead(fs, AbsPath(root), AbsPath(dir), false, once) != once
  {
    hide FixTarget, FixRead, Wanted, EndsWith, Resolve, IsExternal, RelText, RelParts, CommonPrefix, AbsPath;
    var first, second, third := base + ".ru" + RU_MD, base + RU_MD, base + MD;
    var p, q := dir + [first], dir + [second];
    DoubledNames(base);
    NeighbourPlace(dir, first);
    SchemeIsExternal(first);
    DoubledIsClean(base);
    PartitionBack(first, "");
    assert first + "" == first;
    Beyond(root, p);
    Beyond(root, q);
    assert SwapLast(p, second) == q && SwapLast(q, third) == dir + [third];
    NeighbourText(dir, second);
    assert second + "" == second;
    assert IsUnstable(fs, root, dir, false, first);
    SecondPassExactly(fs, root, dir, false, first);
  }

  lemma DoubledIsClean(base: string)
    requires IsClean(base)
    ensures IsLinkText(base + ".ru" + RU_MD) && IsClean(base + ".ru" + RU_MD) && Lacks(base + ".ru" + RU_MD, '#')
  {
    SuffixIsClean();
    ConcatClean(base, ".ru");
    ConcatClean(base + ".ru", RU_MD);
    CleanHasNoStop(base + ".ru" + RU_MD);
    CleanLacks(base + ".ru" + RU_MD, '#');
  }

  lemma SchemeIsExternal(name: string)
    ensures HasScheme(name) ==> IsExternal(name)
  {
  }

  lemma DoubledNames(base: string)
    ensures var first, second := base + ".ru" + RU_MD, base + RU_MD;
            && IsDoubled(first) && EndsWith(first, MD) && EndsWith(second, MD)
            && Wanted(first, false) == second && Wanted(second, false) == base + MD
            && first != second && second != base + MD
  {
    var first, second := base + ".ru" + RU_MD, base + RU_MD;
    assert first == base + ".ru.ru.md" == base + ".ru" + ".ru" + MD;
    assert second == base + ".ru" + MD;
    EndOfConcat(base, ".ru.ru.md", ".ru.ru.md");
    EndOfConcat(base + ".ru", RU_MD, RU_MD);
    EndOfConcat(base, RU_MD, RU_MD);
    EndOfConcat(base + ".ru" + ".ru", MD, MD);
    EndOfConcat(base + ".ru", MD, MD);
    assert first[..|first| - |RU_MD|] == base + ".ru";
    assert second[..|second| - |RU_MD|] == base;
  }

  lemma NeighbourPlace(dir: seq<string>, name: string)
    requires Lacks(name, '/') && name != "" && name != "." && name != ".."
    ensures Resolve(dir, name) == dir + [name]
  {
    SplitOfLine(name, "", '/');
    assert AreNames([name]);
    ReduceNames(dir, [name]);
  }

  lemma Beyond(root: seq<string>, p: seq<string>)
    requires |root| < |p|
    ensures CommonPrefix(root, p) < |p|
  {
  }

  lemma NeighbourText(dir: seq<string>, name: string)
    ensures RelText(RelParts(dir + [name], dir)) == name
  {
    var p := dir + [name];
    var n := CommonPrefix(dir, p);
    assert n == |dir|;
    assert RelParts(p, dir) == [name];
  }

  // ------------------------------------------------------------ documents

  /** All targets of a document rewritten. */
  function FixDocument(fs: Tree, root: string, d: string, wantRu: bool, doc: Document): Document {
    Exchange(Fixer(fs, root, d, wantRu), doc)
  }

  /** The same for a document whose targets a first pass has written. */
  function RereadDocument(fs: Tree, root: string, d: string, wantRu: bool, doc: Document): Document {
    Exchange(t => Reread(Fixer(fs, root, d, wantRu), t), doc)
  }

  /** The substitution on a text. */
  function FixText(fs: Tree, root: string, d: string, wantRu: bool, text: string): string {
    Substitute(Fixer(fs, root, d, wantRu), text)
  }

  ghost predicate AllStable(fs: Tree, root: seq<string>, dir: seq<string>, wantRu: bool, doc: Document) {
    forall i :: 0 <= i < |doc.links| ==> !IsUnstable(fs, root, dir, wantRu, doc.links[i].target)
  }

  lemma SameLinks(a: Document, b: Document)
    requires |a.links| == |b.links| && a.tail == b.tail
    requires forall i :: 0 <= i < |a.links| ==> a.links[i].open == b.links[i].open
    ensures a == b <==> forall i :: 0 <= i < |a.links| ==> a.links[i].target == b.links[i].target
  {
    if forall i :: 0 <= i < |a.links| ==> a.links[i].target == b.links[i].target {
      forall i | 0 <= i < |a.links| ensures a.links[i] == b.links[i] {
        assert a.links[i].target == b.links[i].target;
      }
      assert a.links == b.links;
    }
  }

  /** Link by link, a second pass over what the first one wrote changes nothing exactly
      when no link of the document is unstable. */
  lemma DocumentPassIsIdempotentExactly(fs: Tree, root: seq<string>, dir: seq<string>, wantRu: bool, doc: Document)
    requires TreeOk(fs) && AreNames(root) && AreNames(dir)
    requires forall i :: 0 <= i < |doc.links| ==> IsLinkText(doc.links[i].target)
    ensures var once := FixDocument(fs, AbsPath(root), AbsPath(dir), wantRu, doc);
            RereadDocument(fs, AbsPath(root), AbsPath(dir), wantRu, once) == once <==>
            AllStable(fs, root, dir, wantRu, doc)
  {
    hide FixTarget, Reread, IsUnstable, IsLinkText;
    var once := FixDocument(fs, AbsPath(root), AbsPath(dir), wantRu, doc);
    var twice := RereadDocument(fs, AbsPath(root), AbsPath(dir), wantRu, once);
    forall i | 0 <= i < |doc.links|
      ensures twice.links[i].target == once.links[i].target <==> !IsUnstable(fs, root, dir, wantRu, doc.links[i].target)
    {
      SecondPassExactly(fs, root, dir, wantRu, doc.links[i].target);
    }
    SameLinks(twice, once);
  }

  /** The link is not rewritten, or the pattern can read the name of its target to the
      end, or no opening bracket is in that name or in the anchor, so that what the
      pattern leaves unread cannot start another link. */
  predicate LeavesNoBracket(fs: Tree, root: seq<string>, dir: seq<string>, wantRu: bool, t: string) {
    var (target, anchor) := Partition(t);
    var p := Resolve(dir, target);
    !IsExternal(t) && target != "" && Counterpart(fs, root, wantRu, p).Some? ==>
      HasNoStop(p[|p| - 1]) || (NoBracket(p[|p| - 1]) && NoBracket(anchor))
  }

  lemma UpHasNoBracket(n: nat)
    ensures NoBracket(UpText(n))
  {
  }

  lemma BracketConcat(a: string, b: string)
    ensures NoBracket(a + b) <==> NoBracket(a) && NoBracket(b)
  {
    assert forall i :: 0 <= i < |a| ==> (a + b)[i] == a[i];
    assert forall i :: 0 <= i < |b| ==> (a + b)[|a| + i] == b[i];
  }

  lemma VariantBracket(name: string, wantRu: bool)
    requires EndsWith(name, MD)
    ensures NoBracket(Wanted(name, wantRu)) <==> NoBracket(name)
  {
    hide EndsWith, Wanted;
    var base, suffix, other := VariantBase(name, wantRu);
    assert NoBracket(MD) && NoBracket(RU_MD);
    BracketConcat(base, suffix);
    BracketConcat(base, other);
  }

  /** The new text of a target with an unclean last name is a text the pattern can go on
      from. */
  lemma UncleanIsWritten(dir: seq<string>, target: string, anchor: string, wantRu: bool)
    requires IsClean(target) && HasNoStop(anchor) && AreNames(dir) && HasOther(Resolve(dir, target), wantRu)
    requires !IsClean(Resolve(dir, target)[|Resolve(dir, target)| - 1])
    requires var name := Resolve(dir, target)[|Resolve(dir, target)| - 1];
             HasNoStop(name) || (NoBracket(name) && NoBracket(anchor))
    ensures var p := Resolve(dir, target);
            IsWritten(RelText(RelParts(SwapLast(p, Wanted(p[|p| - 1], wantRu)), dir)) + anchor)
  {
    hide Resolve, RelText, RelParts, EndsWith, Wanted, Breaks, Partition, IsExternal, ReadOf, HasNoStop, NoBracket;
    var p := Resolve(dir, target);
    var name := p[|p| - 1];
    var other := Wanted(name, wantRu);
    var link := RelText(RelParts(SwapLast(p, other), dir));
    var c := UncleanHas(name);
    BreaksIsOther(c);
    CleanLacks(target, c);
    ForeignNameIsAbove(dir, target, c);
    assert p == dir[..|p| - 1 + 1] && name == dir[|p| - 1];
    var n := |dir| - |p| + 1;
    NewWay(dir, |p| - 1, other);
    assert link == UpText(n) + other;
    UpIsClean(n);
    UpHasNoBracket(n);
    VariantBreaks(name, wantRu);
    VariantBracket(name, wantRu);
    UncleanTarget(dir, target, anchor, wantRu);
    EmptyPartition();
    ConcatClean(UpText(n), other);
    ConcatClean(link, anchor);
    BracketConcat(UpText(n), other);
    BracketConcat(link, anchor);
  }

  lemma EmptyPartition()
    ensures Partition("").0 == ""
  {
  }

  /** What the first pass writes can be read again, and what is read of it is not the old
      target if it was rewritten. */
  lemma NewTextIsWritten(fs: Tree, root: seq<string>, dir: seq<string>, wantRu: bool, t: string)
    requires AreNames(root) && AreNames(dir) && IsLinkText(t)
    ensures var once := FixedByPlace(fs, root, dir, wantRu, t);
            && (LeavesNoBracket(fs, root, dir, wantRu, t) ==> IsWritten(once))
            && (once != t ==> ReadOf(once) != t)
  {
    hide Wanted, EndsWith, RelText, RelParts, Resolve, Counterpart, IsClean, HasNoStop, Stem, IsReadable;
    hide Partition, IsExternal, FixedByPlace, ReadOf, NoBracket, IsRead;
    var (target, anchor) := Partition(t);
    var p := Resolve(dir, target);
    NewTarget(fs, root, dir, wantRu, t);
    if !IsExternal(t) && target != "" && Counterpart(fs, root, wantRu, p).Some? {
      PartitionLacks(t);
      PartsOfLinkText(t);
      CounterpartTwice(fs, root, wantRu, p);
      if IsClean(p[|p| - 1]) {
        CleanNext(fs, root, dir, wantRu, target, anchor);
        ReadAll(FixedByPlace(fs, root, dir, wantRu, t));
      } else {
        UncleanTarget(dir, target, anchor, wantRu);
        AdvanceMisses(p[..|p| - 1], Stem(p[|p| - 1]), p[|p| - 1]);
        assert p == p[..|p| - 1] + [p[|p| - 1]];
        if LeavesNoBracket(fs, root, dir, wantRu, t) {
          UncleanIsWritten(dir, target, anchor, wantRu);
        }
      }
    }
  }

  /** Rereading changes a text only if it changes what the pattern reads of it. */
  lemma RereadMoves(fs: Tree, root: seq<string>, dir: seq<string>, wantRu: bool, u: string)
    requires TreeOk(fs) && AreNames(root) && AreNames(dir)
    ensures var v := FixRead(fs, AbsPath(root), AbsPath(dir), wantRu, u);
            v == u || ReadOf(v) != ReadOf(u)
  {
    hide FixTarget, FixedByPlace, IsLinkText;
    if IsRead(u) {
      hide ReadOf, HasNoStop;
      var h := ReadOf(u);
      var z := u[|h|..];
      var g := FixTarget(fs, AbsPath(root), AbsPath(dir), wantRu, h);
      ReadIsLinkText(u);
      FixIsByPlace(fs, root, dir, wantRu, h);
      NewTextIsWritten(fs, root, dir, wantRu, h);
      assert u == h + z;
      if HasNoStop(g) {
        ReadBehind(g, z);
        RestIsUnread(u);
        assert g + "" == g;
      } else {
        ReadStopped(g, z);
      }
    }
  }

  lemma ReadIsLinkText(u: string)
    requires IsRead(u)
    ensures IsLinkText(ReadOf(u))
  {
  }

  lemma RestIsUnread(u: string)
    requires IsRead(u)
    ensures ReadOf(u[|ReadOf(u)|..]) == ""
  {
    hide ReadOf;
    var z := u[|ReadOf(u)|..];
    if z == "" {
      ReadAll("");
    } else {
      assert z[0] == ')';
      NothingBefore(z);
    }
  }

  /** On the text itself: a second pass, which searches the new text for links from its
      start, does to each link what it does to the link alone, and so changes the text if
      and only if some link is unstable. */
  lemma TextPassIsIdempotentExactly(fs: Tree, root: seq<string>, dir: seq<string>, wantRu: bool, text: string)
    requires TreeOk(fs) && AreNames(root) && AreNames(dir)
    requires forall i :: 0 <= i < |Parse(text).links| ==>
               LeavesNoBracket(fs, root, dir, wantRu, Parse(text).links[i].target)
    ensures var r, d := AbsPath(root), AbsPath(dir);
            var once := FixText(fs, r, d, wantRu, text);
            && FixText(fs, r, d, wantRu, once)
                == Render(RereadDocument(fs, r, d, wantRu, FixDocument(fs, r, d, wantRu, Parse(text))))
            && (FixText(fs, r, d, wantRu, once) == once <==> AllStable(fs, root, dir, wantRu, Parse(text)))
  {
    hide FixTarget, Reread, IsUnstable, IsLinkText, IsWritten, Parse, Render, LeavesNoBracket;
    hide AllStable, Substitute, ReadOf;
    var doc := Parse(text);
    var r, d := AbsPath(root), AbsPath(dir);
    var f := Fixer(fs, r, d, wantRu);
    var once := FixDocument(fs, r, d, wantRu, doc);
    var twice := RereadDocument(fs, r, d, wantRu, once);
    FixIsRender(f, text);
    forall i | 0 <= i < |doc.links|
      ensures IsWritten(once.links[i].target)
      ensures once.links[i].target == twice.links[i].target
              || ReadOf(once.links[i].target) != ReadOf(twice.links[i].target)
    {
      var t := doc.links[i].target;
      FixIsByPlace(fs, root, dir, wantRu, t);
      NewTextIsWritten(fs, root, dir, wantRu, t);
      RereadMoves(fs, root, dir, wantRu, once.links[i].target);
    }
    SubstituteTwice(f, text, once.links);
    assert Document(once.links, doc.tail) == once;
    RenderDiffers(once, twice);
    DocumentPassIsIdempotentExactly(fs, root, dir, wantRu, doc);
  }

  lemma FixIsRender(f: string -> string, text: string)
    ensures Substitute(f, text) == Render(Exchange(f, Parse(text)))
  {
  }

  /** Substituting all links of one text; reports whether the text changed. */
  method Fix(fs: Tree, root: string, d: string, wantRu: bool, text: string)
    returns (newText: string, changed: bool)
    ensures newText == FixText(fs, root, d, wantRu, text)
    ensures changed <==> newText != text
  {
    hide FixTarget, Parse, Render;
    var doc := Parse(text);
    var links: seq<Link> := [];
    for i := 0 to |doc.links|
      invariant links == FixDocument(fs, root, d, wantRu, doc).links[..i]
    {
      links := links + [Link(doc.links[i].open, FixTarget(fs, root, d, wantRu, doc.links[i].target))];
    }
    ghost var fixed := FixDocument(fs, root, d, wantRu, doc);
    assert links == fixed.links;
    newText := Render(Document(links, doc.tail));
    changed := newText != text;
  }

  /** The documents under the root, by directory and name. */
  class Documents {
    const fs: Tree
    const root: seq<string>
    var texts: map<seq<string>, string>

    constructor (fs: Tree, root: seq<string>, texts: map<seq<string>, string>)
      ensures this.fs == fs && this.root == root && this.texts == texts
    {
      this.fs, this.root, this.texts := fs, root, texts;
    }

    /** The directory of a document. */
    function DirOf(p: seq<string>): string {
      AbsPath(if p == [] then [] else p[..|p| - 1])
    }

    /** The documents outside `left` whose text is not yet normal. */
    ghost function Affected(isRu: string -> bool, docs: map<seq<string>, string>, left: set<seq<string>>)
      : set<seq<string>>
    {
      set p | p in docs && p !in left && FixText(fs, AbsPath(root), DirOf(p), isRu(docs[p]), docs[p]) != docs[p]
    }

    lemma AffectedStep(isRu: string -> bool, docs: map<seq<string>, string>, left: set<seq<string>>, p: seq<string>)
      requires p in left && p in docs
      ensures |Affected(isRu, docs, left - {p})|
           == |Affected(isRu, docs, left)|
              + if FixText(fs, AbsPath(root), DirOf(p), isRu(docs[p]), docs[p]) != docs[p] then 1 else 0
    {
      hide FixText, DirOf;
      if FixText(fs, AbsPath(root), DirOf(p), isRu(docs[p]), docs[p]) != docs[p] {
        assert Affected(isRu, docs, left - {p}) == Affected(isRu, docs, left) + {p};
      } else {
        assert Affected(isRu, docs, left - {p}) == Affected(isRu, docs, left);
      }
    }

    /** The main pass: each document is rewritten by itself, seen from its own directory and
        by its own language verdict, whatever the order of the walk; a dry run only counts. */
    method Normalise(isRu: string -> bool, apply: bool) returns (changed: nat)
      modifies this
      ensures texts.Keys == old(texts).Keys
      ensures forall p :: p in texts ==>
                var text, dir := old(texts)[p], AbsPath(if p == [] then [] else p[..|p| - 1]);
                texts[p] == if apply then FixText(fs, AbsPath(root), dir, isRu(text), text) else text
      ensures changed == |set p | p in old(texts) &&
                FixText(fs, AbsPath(root), AbsPath(if p == [] then [] else p[..|p| - 1]),
                        isRu(old(texts)[p]), old(texts)[p]) != old(texts)[p]|
    {
      hide FixText, Affected;
      ghost var before := texts;
      var todo := texts.Keys;
      changed := 0;
      NothingAffected(isRu);
      while todo != {}
        invariant texts.Keys == before.Keys && todo <= before.Keys
        invariant forall p :: p in texts ==>
          texts[p] == (if apply && p !in todo then FixText(fs, AbsPath(root), DirOf(p), isRu(before[p]), before[p])
                       else before[p])
        invariant changed == |Affected(isRu, before, todo)|
        decreases |todo|
      {
        var p := Pick(todo);
        var newText, differs := Fix(fs, AbsPath(root), DirOf(p), isRu(texts[p]), texts[p]);
        AffectedStep(isRu, before, todo, p);
        todo := todo - {p};
        if differs {
          if apply {
            texts := texts[p := newText];
          }
          changed := changed + 1;
        }
      }
      AllAffected(isRu, before);
    }

    lemma AllAffected(isRu: string -> bool, docs: map<seq<string>, string>)
      ensures Affected(isRu, docs, {}) == set p | p in docs &&
                FixText(fs, AbsPath(root), AbsPath(if p == [] then [] else p[..|p| - 1]),
                        isRu(docs[p]), docs[p]) != docs[p]
    {
      hide FixText;
    }

    lemma NothingAffected(isRu: string -> bool)
      ensures Affected(isRu, texts, texts.Keys) == {}
    {
    }
  }
}
