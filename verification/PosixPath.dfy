/** Paths as strings, with the joining, normalising and relativising rules of the
    POSIX flavour of the path library. */
module PosixPath {
  import opened Basics
  import opened Lines

  predicate IsAbsolute(p: string) {
    p != [] && p[0] == '/'
  }

  function Join(a: string, b: string): string {
    if IsAbsolute(b) then b
    else if a == [] || a[|a| - 1] == '/' then a + b
    else a + "/" + b
  }

  /** The parts kept so far after one more: empty parts and dots are dropped and a
      double dot takes back the part before it, if there is one to take back. */
  function Advance(absolute: bool, stack: seq<string>, c: string): seq<string> {
    if c == "" || c == "." then stack
    else if c != ".." || (!absolute && stack == []) || (stack != [] && stack[|stack| - 1] == "..") then stack + [c]
    else if stack != [] then stack[..|stack| - 1]
    else stack
  }

  function Reduce(absolute: bool, stack: seq<string>, parts: seq<string>): seq<string>
    decreases |parts|
  {
    if parts == [] then stack else Reduce(absolute, Advance(absolute, stack, parts[0]), parts[1..])
  }

  /** Leading slashes that normalising keeps: two are special, three or more are one. */
  function LeadingSlashes(p: string): string {
    if !IsAbsolute(p) then ""
    else if |p| >= 2 && p[1] == '/' && !(|p| >= 3 && p[2] == '/') then "//"
    else "/"
  }

  function Glue(parts: seq<string>): string {
    if parts == [] then "" else Unsplit(parts, '/')
  }

  function Normpath(p: string): string {
    if p == "" then "."
    else
      var slashes := LeadingSlashes(p);
      var path := slashes + Glue(Reduce(slashes != "", [], Split(p, '/')));
      if path == "" then "." else path
  }

  function NonEmptyParts(parts: seq<string>): seq<string> {
    if parts == [] then []
    else (if parts[0] == "" then [] else [parts[0]]) + NonEmptyParts(parts[1..])
  }

  function CommonPrefix(a: seq<string>, b: seq<string>): (n: nat)
    ensures n <= |a| && n <= |b| && a[..n] == b[..n]
    ensures n < |a| && n < |b| ==> a[n] != b[n]
  {
    if a == [] || b == [] || a[0] != b[0] then 0
    else
      assert forall n: nat :: n <= |a| - 1 ==> a[..n + 1] == [a[0]] + a[1..][..n];
      assert forall n: nat :: n <= |b| - 1 ==> b[..n + 1] == [b[0]] + b[1..][..n];
      1 + CommonPrefix(a[1..], b[1..])
  }

  lemma {:induction false} CommonAtLeast(a: seq<string>, b: seq<string>, m: nat)
    requires m <= |a| && m <= |b| && a[..m] == b[..m]
    ensures CommonPrefix(a, b) >= m
    decreases m
  {
    if m > 0 {
      assert a[0] == a[..m][0] == b[0];
      assert a[1..][..m - 1] == a[..m][1..] == b[1..][..m - 1];
      CommonAtLeast(a[1..], b[1..], m - 1);
    }
  }

  function Ups(n: nat): (u: seq<string>)
    ensures |u| == n && forall i :: 0 <= i < n ==> u[i] == ".."
  {
    seq(n, i => "..")
  }

  /** The parts of the way from one absolute path to another. */
  function RelParts(parts: seq<string>, start: seq<string>): seq<string> {
    var i := CommonPrefix(start, parts);
    Ups(|start| - i) + parts[i..]
  }

  /** Relative form of an absolute path, seen from an absolute directory. */
  function Relpath(path: string, start: string): string {
    var parts := NonEmptyParts(Split(Normpath(path), '/'));
    var from := NonEmptyParts(Split(Normpath(start), '/'));
    var rel := RelParts(parts, from);
    if rel == [] then "." else Unsplit(rel, '/')
  }

  // ------------------------------------------------------------ names and places

  /** A proper file or directory name. */
  predicate IsName(c: string) {
    c != "" && c != "." && c != ".." && Lacks(c, '/')
  }

  predicate AreNames(cs: seq<string>) {
    forall i :: 0 <= i < |cs| ==> IsName(cs[i])
  }

  /** The place in the file tree that an absolute path denotes. */
  function Place(p: string): seq<string> {
    Reduce(true, [], Split(p, '/'))
  }

  /** The normal form of the path of a place. */
  function AbsPath(cs: seq<string>): string {
    "/" + Glue(cs)
  }

  /** Where a relative or absolute path leads from a directory. */
  function Resolve(dir: seq<string>, p: string): seq<string> {
    Reduce(true, if IsAbsolute(p) then [] else dir, Split(p, '/'))
  }

  lemma {:induction false} ReduceConcat(absolute: bool, stack: seq<string>, a: seq<string>, b: seq<string>)
    ensures Reduce(absolute, stack, a + b) == Reduce(absolute, Reduce(absolute, stack, a), b)
    decreases |a|
  {
    if a == [] {
      assert a + b == b;
    } else {
      assert (a + b)[1..] == a[1..] + b;
      ReduceConcat(absolute, Advance(absolute, stack, a[0]), a[1..], b);
    }
  }

  lemma {:induction false} ReduceNames(stack: seq<string>, names: seq<string>)
    requires AreNames(names)
    ensures Reduce(true, stack, names) == stack + names
    decreases |names|
  {
    if names == [] {
      assert stack + names == stack;
    } else {
      assert IsName(names[0]);
      assert AreNames(names[1..]);
      ReduceNames(stack + [names[0]], names[1..]);
      assert stack + [names[0]] + names[1..] == stack + names;
    }
  }

  lemma {:induction false} ReduceUps(stack: seq<string>, n: nat)
    requires AreNames(stack) && n <= |stack|
    ensures Reduce(true, stack, Ups(n)) == stack[..|stack| - n]
    decreases n
  {
    if n == 0 {
      assert stack[..|stack|] == stack;
    } else {
      var front := stack[..|stack| - 1];
      assert IsName(stack[|stack| - 1]);
      assert Ups(n)[1..] == Ups(n - 1);
      ReduceUps(front, n - 1);
      assert front[..|front| - (n - 1)] == stack[..|stack| - n];
    }
  }

  lemma {:induction false} ReduceGivesNames(stack: seq<string>, parts: seq<string>)
    requires AreNames(stack) && forall i :: 0 <= i < |parts| ==> Lacks(parts[i], '/')
    ensures AreNames(Reduce(true, stack, parts))
    decreases |parts|
  {
    if parts != [] {
      var next := Advance(true, stack, parts[0]);
      assert stack != [] ==> IsName(stack[|stack| - 1]);
      assert AreNames(next);
      ReduceGivesNames(next, parts[1..]);
    }
  }

  lemma ResolveGivesNames(dir: seq<string>, p: string)
    requires AreNames(dir)
    ensures AreNames(Resolve(dir, p))
  {
    SplitJoins(p, '/');
    ReduceGivesNames(if IsAbsolute(p) then [] else dir, Split(p, '/'));
  }

  lemma SplitOfGlue(cs: seq<string>)
    requires AreNames(cs) && cs != []
    ensures Split(Glue(cs), '/') == cs
  {
    assert forall i :: 0 <= i < |cs| ==> IsName(cs[i]);
    JoinSplits(cs, '/');
  }

  lemma ReduceSkipsEmpty(stack: seq<string>, parts: seq<string>)
    ensures Reduce(true, stack, [""] + parts) == Reduce(true, stack, parts)
  {
    assert ([""] + parts)[1..] == parts;
  }

  lemma SplitAfterSlash(p: string)
    ensures Split("/" + p, '/') == [""] + Split(p, '/')
  {
    SplitOfLine("", p, '/');
    assert "" + ['/'] + p == "/" + p;
  }

  lemma ResolveParts(dir: seq<string>, c: string, rest: string)
    requires Lacks(c, '/') && c != ""
    ensures !IsAbsolute(rest) ==>
              Resolve(dir, c + "/" + rest) == Resolve(Reduce(true, dir, [c]), rest)
    ensures Resolve(dir, c) == Reduce(true, dir, [c])
    ensures Resolve(dir, c + "//" + rest) == Resolve(dir, c + "/" + rest)
  {
    hide Split, Reduce;
    SplitOfLine(c, rest, '/');
    assert c + ['/'] + rest == c + "/" + rest && (c + "/" + rest)[0] == c[0];
    ReduceConcat(true, dir, [c], Split(rest, '/'));
    SplitOfLine(c, "/" + rest, '/');
    assert c + ['/'] + ("/" + rest) == c + "//" + rest && (c + "//" + rest)[0] == c[0];
    SplitAfterSlash(rest);
    ReduceConcat(true, dir, [c], [""] + Split(rest, '/'));
    ReduceSkipsEmpty(Reduce(true, dir, [c]), Split(rest, '/'));
  }

  lemma ReduceOne(dir: seq<string>, c: string)
    requires AreNames(dir)
    ensures c == "." ==> Reduce(true, dir, [c]) == dir
    ensures c == ".." ==> Reduce(true, dir, [c]) == if dir == [] then [] else dir[..|dir| - 1]
    ensures IsName(c) ==> Reduce(true, dir, [c]) == dir + [c]
  {
    var next := Advance(true, dir, c);
    assert dir != [] ==> IsName(dir[|dir| - 1]);
    assert [c][1..] == [] && Reduce(true, next, []) == next;
  }

  /** How a path leads on from a directory, part by part: a dot stays, a double dot goes up
      but not above the root, a name goes down, doubled slashes are one, and a slash in
      front starts at the root. */
  lemma ResolveWalks(dir: seq<string>, c: string, rest: string)
    requires AreNames(dir) && c != "" && Lacks(c, '/') && !IsAbsolute(rest)
    ensures Resolve(dir, "") == dir && Resolve(dir, "/" + rest) == Resolve([], rest)
    ensures Resolve(dir, c + "//" + rest) == Resolve(dir, c + "/" + rest)
    ensures Resolve(dir, c) == Resolve(dir, c + "/")
    ensures Resolve(dir, c + "/" + rest) ==
              if c == "." then Resolve(dir, rest)
              else if c == ".." then Resolve(if dir == [] then [] else dir[..|dir| - 1], rest)
              else Resolve(dir + [c], rest)
  {
    hide Split, Reduce, Resolve;
    ResolveParts(dir, c, rest);
    ResolveParts(dir, c, "");
    assert c + "/" + "" == c + "/";
    ReduceOne(dir, c);
    ResolveEmpty(dir);
    ResolveEmpty(Reduce(true, dir, [c]));
    ResolveFromRoot(dir, rest);
  }

  lemma ResolveEmpty(dir: seq<string>)
    ensures Resolve(dir, "") == dir
  {
    assert Split("", '/') == [""];
    assert [""] + [] == [""] && Reduce(true, dir, []) == dir;
    ReduceSkipsEmpty(dir, []);
  }

  lemma ResolveFromRoot(dir: seq<string>, p: string)
    ensures Resolve(dir, "/" + p) == Resolve([], p)
  {
    SplitAfterSlash(p);
    ReduceSkipsEmpty([], Split(p, '/'));
  }

  /** Joining a path to the normal form of a directory and reducing leads where the
      path leads from that directory. */
  lemma PlaceOfJoin(dir: seq<string>, p: string)
    requires AreNames(dir)
    ensures Place(Join(AbsPath(dir), p)) == Resolve(dir, p)
  {
    hide Reduce, Split, Glue;
    if !IsAbsolute(p) {
      var parts := Split(p, '/');
      if dir == [] {
        EmptyGlue();
        assert Join(AbsPath(dir), p) == "/" + p;
        SplitAfterSlash(p);
        ReduceSkipsEmpty([], parts);
      } else {
        JoinBehind(dir, p);
        SplitAfterSlash(Glue(dir) + "/" + p);
        GlueThen(dir, p);
        ReduceSkipsEmpty([], dir + parts);
        ReduceConcat(true, [], dir, parts);
        ReduceNames([], dir);
        assert [] + dir == dir;
      }
    }
  }

  lemma EmptyGlue()
    ensures Glue([]) == ""
  {
  }

  lemma JoinBehind(dir: seq<string>, p: string)
    requires AreNames(dir) && dir != [] && !IsAbsolute(p)
    ensures Join(AbsPath(dir), p) == "/" + (Glue(dir) + "/" + p)
  {
    LastIsNoSlash(dir);
  }

  lemma {:induction false} LastIsNoSlash(cs: seq<string>)
    requires AreNames(cs) && cs != []
    ensures Glue(cs) != [] && Glue(cs)[|Glue(cs)| - 1] != '/'
    decreases |cs|
  {
    assert IsName(cs[0]);
    if |cs| > 1 {
      assert AreNames(cs[1..]);
      LastIsNoSlash(cs[1..]);
    }
  }

  lemma {:induction false} GlueThen(cs: seq<string>, p: string)
    requires AreNames(cs) && cs != []
    ensures Split(Glue(cs) + "/" + p, '/') == cs + Split(p, '/')
    decreases |cs|
  {
    hide Split;
    assert IsName(cs[0]);
    if |cs| == 1 {
      SplitOfLine(cs[0], p, '/');
      assert cs == [cs[0]];
    } else {
      var rest := cs[1..];
      assert AreNames(rest);
      GlueThen(rest, p);
      SplitOfLine(cs[0], Glue(rest) + "/" + p, '/');
      assert Glue(cs) + "/" + p == cs[0] + ['/'] + (Glue(rest) + "/" + p);
      assert cs == [cs[0]] + rest;
    }
  }

  // ------------------------------------------------------------ normal and relative paths

  lemma {:induction false} NamesAreNonEmpty(cs: seq<string>)
    requires AreNames(cs)
    ensures NonEmptyParts(cs) == cs
  {
    if cs != [] {
      assert IsName(cs[0]);
      assert AreNames(cs[1..]);
      NamesAreNonEmpty(cs[1..]);
    }
  }

  lemma PlaceIsNames(p: string)
    ensures AreNames(Place(p))
  {
    SplitJoins(p, '/');
    ReduceGivesNames([], Split(p, '/'));
  }

  lemma SplitNormal(slashes: string, cs: seq<string>)
    requires AreNames(cs) && (slashes == "/" || slashes == "//")
    ensures NonEmptyParts(Split(slashes + Glue(cs), '/')) == cs
    ensures Place(slashes + Glue(cs)) == cs
  {
    hide Split, Glue;
    var g := Glue(cs);
    var parts := Split(g, '/');
    assert NonEmptyParts(parts) == cs && Reduce(true, [], parts) == cs by {
      PartsOfGlue(cs);
    }
    SplitAfterSlash(g);
    ReduceSkipsEmpty([], parts);
    assert ([""] + parts)[1..] == parts;
    if slashes == "//" {
      SplitAfterSlash("/" + g);
      assert slashes + g == "/" + ("/" + g);
      ReduceSkipsEmpty([], [""] + parts);
      assert ([""] + ([""] + parts))[1..] == [""] + parts;
    }
  }

  lemma PartsOfGlue(cs: seq<string>)
    requires AreNames(cs)
    ensures NonEmptyParts(Split(Glue(cs), '/')) == cs
    ensures Reduce(true, [], Split(Glue(cs), '/')) == cs
  {
    if cs == [] {
      assert Split("", '/') == [""];
      assert [""][1..] == [];
    } else {
      SplitOfGlue(cs);
      NamesAreNonEmpty(cs);
      ReduceNames([], cs);
      assert [] + cs == cs;
    }
  }

  /** Normalising keeps the place of an absolute path and makes its parts plain. */
  lemma NormalForm(p: string)
    requires IsAbsolute(p)
    ensures Normpath(p) == LeadingSlashes(p) + Glue(Place(p))
    ensures NonEmptyParts(Split(Normpath(p), '/')) == Place(p)
    ensures Place(Normpath(p)) == Place(p)
  {
    hide Split, Glue, Reduce;
    PlaceIsNames(p);
    SplitNormal(LeadingSlashes(p), Place(p));
  }

  lemma PlaceOfAbsPath(cs: seq<string>)
    requires AreNames(cs)
    ensures IsAbsolute(AbsPath(cs)) && Place(AbsPath(cs)) == cs
  {
    SplitNormal("/", cs);
  }

  function RelText(rel: seq<string>): string {
    if rel == [] then "." else Unsplit(rel, '/')
  }

  lemma RelpathIs(path: string, start: string)
    requires IsAbsolute(path) && IsAbsolute(start)
    ensures Relpath(path, start) == RelText(RelParts(Place(path), Place(start)))
  {
    hide Split, Normpath, Place, Unsplit;
    NormalForm(path);
    NormalForm(start);
  }

  predicate IsPart(c: string) {
    c == ".." || IsName(c)
  }

  lemma {:induction false} RelTextParts(rel: seq<string>)
    requires forall i :: 0 <= i < |rel| ==> IsPart(rel[i])
    ensures !IsAbsolute(RelText(rel))
    ensures rel != [] ==> Split(RelText(rel), '/') == rel
  {
    if rel != [] {
      assert IsPart(rel[0]);
      assert rel[0] != "" && rel[0][0] != '/';
      assert forall i :: 0 <= i < |rel| ==> Lacks(rel[i], '/');
      JoinSplits(rel, '/');
    }
  }

  lemma RelPartsAreParts(parts: seq<string>, start: seq<string>)
    requires AreNames(parts)
    ensures forall i :: 0 <= i < |RelParts(parts, start)| ==> IsPart(RelParts(parts, start)[i])
  {
    var i := CommonPrefix(start, parts);
    assert forall j :: 0 <= j < |parts| ==> IsName(parts[j]);
  }

  /** The relative form leads back: seen from the start it resolves to the path. */
  lemma RelTextResolves(parts: seq<string>, start: seq<string>)
    requires AreNames(parts) && AreNames(start)
    ensures Resolve(start, RelText(RelParts(parts, start))) == parts
  {
    hide Split, Unsplit, CommonPrefix;
    var i := CommonPrefix(start, parts);
    var rel := RelParts(parts, start);
    RelPartsAreParts(parts, start);
    RelTextParts(rel);
    if rel == [] {
      assert parts == parts[..i] && start == start[..i];
      SplitOfLine(".", "", '/');
      assert ["."][1..] == [];
    } else {
      ReduceConcat(true, start, Ups(|start| - i), parts[i..]);
      ReduceUps(start, |start| - i);
      ReduceNames(start[..i], parts[i..]);
      assert start[..i] + parts[i..] == parts;
    }
  }
}
