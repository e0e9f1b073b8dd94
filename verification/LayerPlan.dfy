/** The keys of a map in ascending order. */
module IntKeys {
  import opened Basics

  predicate Increasing(ks: seq<int>) {
    forall i, j :: 0 <= i < j < |ks| ==> ks[i] < ks[j]
  }

  function Insert(k: int, ks: seq<int>): (r: seq<int>)
    requires Increasing(ks) && k !in ks
    ensures Increasing(r) && |r| == |ks| + 1
    ensures forall l :: l in r <==> l == k || l in ks
  {
    if ks == [] then [k]
    else if k < ks[0] then [k] + ks
    else
      assert forall l :: l in ks <==> l == ks[0] || l in ks[1..];
      var rest := Insert(k, ks[1..]);
      assert forall i :: 0 <= i < |rest| ==> rest[i] in rest;
      [ks[0]] + rest
  }

  /** The keys of the layer map, which has no order of its own, in ascending order. */
  method SortedKeys(m: map<int, string>) returns (ks: seq<int>)
    ensures Increasing(ks) && |ks| == |m|
    ensures forall l :: l in ks <==> l in m
  {
    ks := [];
    var todo := m.Keys;
    while todo != {}
      invariant Increasing(ks) && todo <= m.Keys && |ks| + |todo| == |m|
      invariant forall l :: l in ks <==> l in m && l !in todo
      decreases |todo|
    {
      var k := Pick(todo);
      ks := Insert(k, ks);
      todo := todo - {k};
    }
  }
}

/** The layer plan read from the log of llama.cpp: which device holds which layers.
    Two line parsers feed two last-write-wins maps; the snapshot compresses the layer
    map into ranges of neighbouring layers on one device. */
module LayerPlan {
  import opened Basics
  import opened IntKeys
  import opened Lines
  import opened Strings

  // ------------------------------------------------------------ string tools

  /** White space of the Unicode standard, as trimming understands it. */
  predicate IsSpace(c: char) {
    var n := c as int;
    9 <= n <= 13 || n == 32 || n == 0x85 || n == 0xA0 || n == 0x1680 || 0x2000 <= n <= 0x200A
    || n == 0x2028 || n == 0x2029 || n == 0x202F || n == 0x205F || n == 0x3000
  }

  predicate AllSpace(s: string) {
    forall i :: 0 <= i < |s| ==> IsSpace(s[i])
  }

  function TrimLeft(s: string): string {
    if s != [] && IsSpace(s[0]) then TrimLeft(s[1..]) else s
  }

  function TrimRight(s: string): (r: string)
    ensures r <= s
  {
    if s != [] && IsSpace(s[|s| - 1]) then TrimRight(s[..|s| - 1]) else s
  }

  function TrimSpace(s: string): string {
    TrimRight(TrimLeft(s))
  }

  /** Trims trailing characters that occur in `cut`. */
  function TrimRightSet(s: string, cut: string): string {
    if s != [] && s[|s| - 1] in cut then TrimRightSet(s[..|s| - 1], cut) else s
  }

  /** Position of the first character that occurs in `set`. */
  function IndexAny(s: string, chars: string): (r: Option<nat>)
    ensures r.Some? ==> r.value < |s| && s[r.value] in chars && forall i :: 0 <= i < r.value ==> s[i] !in chars
    ensures r.None? ==> forall i :: 0 <= i < |s| ==> s[i] !in chars
  {
    if s == [] then None
    else if s[0] in chars then Some(0)
    else
      var r := IndexAny(s[1..], chars);
      if r.None? then None else Some(r.value + 1)
  }

  function LastIndexAny(s: string, chars: string): (r: Option<nat>)
    ensures r.Some? ==> r.value < |s| && s[r.value] in chars && forall i :: r.value < i < |s| ==> s[i] !in chars
    ensures r.None? ==> forall i :: 0 <= i < |s| ==> s[i] !in chars
  {
    if s == [] then None
    else if s[|s| - 1] in chars then Some(|s| - 1)
    else LastIndexAny(s[..|s| - 1], chars)
  }

  const MAX_INT: int := 0x7FFF_FFFF_FFFF_FFFF
  const MIN_INT: int := -0x8000_0000_0000_0000

  predicate IsDigit(c: char) {
    '0' <= c <= '9'
  }

  predicate AllDigits(s: string) {
    forall i :: 0 <= i < |s| ==> IsDigit(s[i])
  }

  function DigitsValue(s: string): (n: nat) {
    if s == [] then 0
    else
      var d := s[|s| - 1] as int - '0' as int;
      10 * DigitsValue(s[..|s| - 1]) + if d < 0 then 0 else d
  }

  /** Decimal number with an optional sign, in the range of a 64-bit integer. */
  function Atoi(s: string): Option<int> {
    var signed := s != [] && (s[0] == '-' || s[0] == '+');
    var digits := if signed then s[1..] else s;
    if digits == [] || !AllDigits(digits) then None
    else
      var m: int := DigitsValue(digits);
      var n := if s[0] == '-' then -m else m;
      if MIN_INT <= n <= MAX_INT then Some(n) else None
  }

  /** The usual decimal form. */
  function Digits(n: nat): (s: string)
    ensures s != [] && forall i :: 0 <= i < |s| ==> IsDigit(s[i])
  {
    (if n < 10 then [] else Digits(n / 10)) + [('0' as int + n % 10) as char]
  }

  function Decimal(n: int): string {
    if n < 0 then "-" + Digits(-n) else Digits(n)
  }

  lemma {:induction false} DigitsRoundTrip(n: nat)
    ensures DigitsValue(Digits(n)) == n
  {
    var s := Digits(n);
    if n < 10 {
      assert s[..|s| - 1] == [];
    } else {
      DigitsRoundTrip(n / 10);
      assert s[..|s| - 1] == Digits(n / 10);
    }
  }

  lemma AtoiRoundTrip(n: int)
    requires MIN_INT <= n <= MAX_INT
    ensures Atoi(Decimal(n)) == Some(n)
  {
    hide Digits, DigitsValue;
    var m := if n < 0 then -n else n;
    DigitsRoundTrip(m);
    assert n < 0 ==> Decimal(n)[1..] == Digits(m);
  }

  // ------------------------------------------------------------ line parsers

  const MARKER := "assigned to device"
  const LAYER := "layer"

  function ParseLayerAssignment(line: string): Option<(int, string)> {
    var idx := Index(line, MARKER);
    if idx.None? then None
    else
      var head := line[..idx.value];
      var li := LastIndex(head, LAYER);
      if li.None? then None
      else
        var numStr := TrimSpace(head[li.value + |LAYER|..]);
        var num := Atoi(TrimSpace(TrimRightSet(numStr, " ,")));
        if num.None? then None
        else
          var rest := TrimSpace(line[idx.value + |MARKER|..]);
          if rest == "" then None
          else
            var i := IndexAny(rest, ", \t");
            var dev := TrimSpace(if i.Some? then rest[..i.value] else rest);
            if dev == "" then None else Some((num.value, dev))
  }

  /** Starts with RPC in any case; no other character upper-cases to R, P or C. */
  predicate HasRpcPrefix(s: string) {
    |s| >= 3 && s[0] in "Rr" && s[1] in "Pp" && s[2] in "Cc"
  }

  function ParseRPCEndpoint(line: string): Option<(string, string)> {
    var open := Index(line, "[");
    if open.None? || open.value == 0 then None
    else
      var rel := Index(line[open.value..], "]");
      if rel.None? || rel.value == 0 then None
      else
        var head := TrimSpace(line[..open.value]);
        var i := LastIndexAny(head, " \t");
        var dev := if i.Some? then head[i.value + 1..] else head;
        if !HasRpcPrefix(dev) then None
        else
          var endpoint := TrimSpace(line[open.value + 1..open.value + rel.value]);
          if dev == "" || endpoint == "" then None else Some((dev, endpoint))
  }

  // ------------------------------------------------------------ parsing printed lines

  lemma {:induction false} TrimLeftPad(pad: string, s: string)
    requires AllSpace(pad)
    ensures TrimLeft(pad + s) == TrimLeft(s)
  {
    if pad == [] {
      assert pad + s == s;
    } else {
      assert (pad + s)[1..] == pad[1..] + s;
      TrimLeftPad(pad[1..], s);
    }
  }

  lemma {:induction false} TrimRightPad(s: string, pad: string)
    requires AllSpace(pad)
    ensures TrimRight(s + pad) == TrimRight(s)
  {
    if pad == [] {
      assert s + pad == s;
    } else {
      assert (s + pad)[..|s + pad| - 1] == s + pad[..|pad| - 1];
      TrimRightPad(s, pad[..|pad| - 1]);
    }
  }

  /** A non-empty string without white space at its ends. */
  predicate IsTrimmed(s: string) {
    s != [] && !IsSpace(s[0]) && !IsSpace(s[|s| - 1])
  }

  lemma TrimPadded(before: string, s: string, after: string)
    requires AllSpace(before) && IsTrimmed(s) && AllSpace(after)
    ensures TrimSpace(before + s + after) == s
  {
    assert before + s + after == before + (s + after);
    TrimLeftPad(before, s + after);
    assert TrimLeft(s + after) == s + after;
    TrimRightPad(s, after);
  }

  /** A line as llama.cpp prints it, with any prefix, padding and parameter tail. */
  function AssignmentLine(prefix: string, pad1: string, layer: int, pad2: string,
                          pad3: string, dev: string, tail: string): string
  {
    prefix + LAYER + pad1 + Decimal(layer) + pad2 + MARKER + pad3 + dev + tail
  }

  predicate IsDeviceName(dev: string) {
    dev != [] && forall i :: 0 <= i < |dev| ==> !IsSpace(dev[i]) && dev[i] != ','
  }

  lemma NumberChars(n: int)
    ensures forall i :: 0 <= i < |Decimal(n)| ==> IsDigit(Decimal(n)[i]) || Decimal(n)[i] == '-'
  {
  }

  lemma Mismatch(s: string, p: string, j: nat, i: nat)
    requires i < |p| && (j + i < |s| ==> s[j + i] != p[i])
    ensures !OccursAt(s, p, j)
  {
    assert j + |p| <= |s| ==> s[j..j + |p|][i] == s[j + i];
  }

  /** The marker phrase has no 'l', and behind "layer" there is no 'a' before it. */
  lemma MarkerPosition(prefix: string, mid: string, rest: string)
    requires Index(prefix, MARKER).None?
    requires forall i :: 0 <= i < |mid| ==> mid[i] != 'a' && mid[i] != 'l'
    ensures var line := prefix + LAYER + mid + MARKER + rest;
            Index(line, MARKER) == Some(|prefix + LAYER + mid|)
  {
    var head := prefix + LAYER + mid;
    var line := head + MARKER + rest;
    var at, p := |head|, |prefix|;
    assert OccursAt(line, MARKER, at);
    assert forall i :: 0 <= i < at ==> line[i] == head[i];
    assert line[p] == 'l' && line[p + 2] == 'y';
    assert forall i :: 0 <= i < |MARKER| ==> MARKER[i] != 'l';
    forall j: nat | j < at
      ensures !OccursAt(line, MARKER, j)
    {
      if j + |MARKER| <= p {
        assert line[j..j + |MARKER|] == prefix[j..j + |MARKER|];
        assert !OccursAt(prefix, MARKER, j);
      } else if j <= p {
        Mismatch(line, MARKER, j, p - j);
      } else if j == p + 1 {
        Mismatch(line, MARKER, j, 1);
      } else {
        assert line[j] != 'a';
        Mismatch(line, MARKER, j, 0);
      }
    }
  }

  lemma LayerPosition(prefix: string, mid: string)
    requires forall i :: 0 <= i < |mid| ==> mid[i] != 'a' && mid[i] != 'l'
    ensures LastIndex(prefix + LAYER + mid, LAYER) == Some(|prefix|)
  {
    var head := prefix + LAYER + mid;
    assert OccursAt(head, LAYER, |prefix|);
    forall j: nat | j > |prefix|
      ensures !OccursAt(head, LAYER, j)
    {
      assert j < |head| ==> head[j] != 'l';
      Mismatch(head, LAYER, j, 0);
    }
  }

  lemma NumberCharIsNoSpace(c: char)
    requires IsDigit(c) || c == '-'
    ensures !IsSpace(c) && c !in " ,"
  {
  }

  lemma DecimalIsTrimmed(n: int)
    ensures IsTrimmed(Decimal(n)) && TrimRightSet(Decimal(n), " ,") == Decimal(n)
  {
    hide IsSpace, IsDigit, Digits;
    var s := Decimal(n);
    NumberChars(n);
    NumberCharIsNoSpace(s[0]);
    NumberCharIsNoSpace(s[|s| - 1]);
  }

  /** Trimming behind a name only touches what follows the name. */
  lemma {:induction false} TrimRightOf(dev: string, tail: string)
    requires IsTrimmed(dev)
    ensures TrimRight(dev + tail) == dev + TrimRight(tail)
  {
    if tail == [] {
      assert dev + tail == dev;
    } else if IsSpace(tail[|tail| - 1]) {
      assert (dev + tail)[..|dev + tail| - 1] == dev + tail[..|tail| - 1];
      TrimRightOf(dev, tail[..|tail| - 1]);
    }
  }

  /** Printing and parsing an assignment line gives back the layer and the device. */
  lemma AssignmentRoundTrip(prefix: string, pad1: string, layer: int, pad2: string,
                            pad3: string, dev: string, tail: string)
    requires MIN_INT <= layer <= MAX_INT
    requires Index(prefix, MARKER).None?
    requires AllSpace(pad1) && AllSpace(pad2) && AllSpace(pad3)
    requires IsDeviceName(dev) && (tail == [] || tail[0] in ", \t")
    ensures ParseLayerAssignment(AssignmentLine(prefix, pad1, layer, pad2, pad3, dev, tail)) == Some((layer, dev))
  {
    hide Index, LastIndex, TrimSpace, Atoi, Decimal;
    var line := AssignmentLine(prefix, pad1, layer, pad2, pad3, dev, tail);
    var mid := pad1 + Decimal(layer) + pad2;
    var head := prefix + LAYER + mid;
    var rest := pad3 + dev + tail;
    NumberChars(layer);
    assert line == head + MARKER + rest;
    MarkerPosition(prefix, mid, rest);
    LayerPosition(prefix, mid);
    assert line[..|head|] == head && head[|prefix| + |LAYER|..] == mid;
    DecimalIsTrimmed(layer);
    TrimPadded(pad1, Decimal(layer), pad2);
    TrimPadded([], Decimal(layer), []);
    assert [] + Decimal(layer) + [] == Decimal(layer);
    AtoiRoundTrip(layer);
    assert line[|head| + |MARKER|..] == rest;
    DeviceOfRest(pad3, dev, tail);
  }

  lemma TrimBehindName(pad: string, dev: string, tail: string)
    requires AllSpace(pad) && IsDeviceName(dev)
    ensures TrimSpace(pad + dev + tail) == dev + TrimRight(tail)
  {
    assert pad + dev + tail == pad + (dev + tail);
    TrimLeftPad(pad, dev + tail);
    assert TrimLeft(dev + tail) == dev + tail;
    TrimRightOf(dev, tail);
  }

  lemma NameBeforeSeparator(dev: string, t: string)
    requires IsDeviceName(dev) && (t == [] || t[0] in ", \t")
    ensures IndexAny(dev + t, ", \t") == if t == [] then None else Some(|dev|)
  {
    hide IndexAny;
    var s := dev + t;
    assert forall i :: 0 <= i < |dev| ==> s[i] == dev[i] && s[i] !in ", \t";
    assert t != [] ==> s[|dev|] == t[0];
  }

  lemma DeviceOfRest(pad: string, dev: string, tail: string)
    requires AllSpace(pad) && IsDeviceName(dev) && (tail == [] || tail[0] in ", \t")
    ensures var rest := TrimSpace(pad + dev + tail);
            && rest != ""
            && TrimSpace(match IndexAny(rest, ", \t") case Some(i) => rest[..i] case None => rest) == dev
  {
    hide TrimSpace, IndexAny, TrimRight;
    var t := TrimRight(tail);
    TrimBehindName(pad, dev, tail);
    NameBeforeSeparator(dev, t);
    assert t == [] ==> dev + t == dev;
    assert (dev + t)[..|dev|] == dev;
    TrimPadded([], dev, []);
    assert [] + dev + [] == dev;
  }

  /** The line with the address of a remote node. */
  function EndpointLine(prefix: string, dev: string, pad1: string, endpoint: string, pad2: string, rest: string): string {
    prefix + dev + "[" + pad1 + endpoint + pad2 + "]" + rest
  }

  lemma FirstChar(before: string, c: char, after: string)
    requires Lacks(before, c)
    ensures Index(before + [c] + after, [c]) == Some(|before|)
  {
    var s := before + [c] + after;
    assert OccursAt(s, [c], |before|);
    forall j: nat | j < |before|
      ensures !OccursAt(s, [c], j)
    {
      assert s[j] == before[j];
      Mismatch(s, [c], j, 0);
    }
  }

  /** Printing and parsing an address line gives back the device and the address. */
  lemma EndpointRoundTrip(prefix: string, dev: string, pad1: string, endpoint: string, pad2: string, rest: string)
    requires Lacks(prefix, '[') && (prefix == [] || prefix[|prefix| - 1] in " \t")
    requires IsDeviceName(dev) && Lacks(dev, '[') && HasRpcPrefix(dev)
    requires IsTrimmed(endpoint) && Lacks(endpoint, ']') && AllSpace(pad1) && AllSpace(pad2)
    ensures ParseRPCEndpoint(EndpointLine(prefix, dev, pad1, endpoint, pad2, rest)) == Some((dev, endpoint))
  {
    hide Index, TrimSpace, LastIndexAny, AllSpace, HasRpcPrefix, IsSpace;
    var before, inner := prefix + dev, pad1 + endpoint + pad2;
    var line := EndpointLine(prefix, dev, pad1, endpoint, pad2, rest);
    EndpointSlices(before, inner, rest);
    assert line == before + "[" + inner + "]" + rest;
    assert Lacks(before, '[');
    FirstChar(before, '[', inner + "]" + rest);
    assert Lacks("[" + inner, ']') by { SpaceIsNoBracket(pad1, endpoint, pad2); }
    FirstChar("[" + inner, ']', rest);
    TrimPadded(pad1, endpoint, pad2);
    DeviceOfHead(prefix, dev);
  }

  lemma SpaceIsNoBracket(pad1: string, endpoint: string, pad2: string)
    requires AllSpace(pad1) && AllSpace(pad2) && Lacks(endpoint, ']')
    ensures Lacks("[" + (pad1 + endpoint + pad2), ']')
  {
  }

  lemma EndpointSlices(before: string, inner: string, rest: string)
    ensures var line := before + "[" + inner + "]" + rest;
            && line == before + "[" + (inner + "]" + rest)
            && line[..|before|] == before
            && line[|before|..] == ("[" + inner) + "]" + rest
            && line[|before| + 1..|before| + (1 + |inner|)] == inner
  {
  }

  lemma DeviceOfHead(prefix: string, dev: string)
    requires IsDeviceName(dev) && (prefix == [] || prefix[|prefix| - 1] in " \t")
    ensures var head := TrimSpace(prefix + dev);
            (match LastIndexAny(head, " \t") case Some(i) => head[i + 1..] case None => head) == dev
  {
    hide TrimSpace, LastIndexAny;
    var cut := TrimLeftKeeps(prefix, dev);
    var head := cut + dev;
    if cut != [] {
      assert head[|cut| - 1] == cut[|cut| - 1];
    } else {
      assert head == dev;
    }
    assert forall i :: |cut| <= i < |head| ==> head[i] == dev[i - |cut|];
    assert LastIndexAny(head, " \t") == if cut == [] then None else Some(|cut| - 1);
  }

  lemma {:induction false} TrimLeftKeeps(prefix: string, dev: string) returns (cut: string)
    requires IsDeviceName(dev)
    ensures TrimSpace(prefix + dev) == cut + dev
    ensures cut == [] || (prefix != [] && cut[|cut| - 1] == prefix[|prefix| - 1])
    decreases |prefix|
  {
    if prefix != [] && IsSpace(prefix[0]) {
      assert (prefix + dev)[1..] == prefix[1..] + dev;
      cut := TrimLeftKeeps(prefix[1..], dev);
    } else {
      cut := prefix;
      assert prefix == [] ==> prefix + dev == dev;
      assert TrimLeft(prefix + dev) == prefix + dev;
      assert (prefix + dev)[|prefix + dev| - 1] == dev[|dev| - 1];
    }
  }

  /** A line without a bracket, or with one in first place, is never an address line. */
  lemma BracketFreeIsNoEndpoint(line: string)
    requires Lacks(line, '[') || line[0] == '['
    ensures ParseRPCEndpoint(line).None?
  {
    if Lacks(line, '[') {
      forall j: nat ensures !OccursAt(line, "[", j) {
        Mismatch(line, "[", j, 0);
      }
    } else {
      assert OccursAt(line, "[", 0);
    }
  }

  // ------------------------------------------------------------ what is an address line

  /** The name stands right before the first bracket, but for white space, and at the
      start of the line or behind a blank or tab; a closing bracket follows, and what is
      between the brackets is not all white space. */
  predicate IsAddressForm(line: string, front: string, dev: string, pad: string, inner: string, rest: string) {
    && line == front + dev + pad + "[" + inner + "]" + rest
    && Lacks(front + dev + pad, '[') && Lacks(inner, ']') && !AllSpace(inner)
    && (AllSpace(front) || front[|front| - 1] in " \t") && AllSpace(pad)
    && |dev| >= 3 && dev[0] in "Rr" && dev[1] in "Pp" && dev[2] in "Cc"
    && Lacks(dev, ' ') && Lacks(dev, '\t') && !IsSpace(dev[|dev| - 1])
  }

  ghost predicate IsAddressLine(line: string, dev: string, endpoint: string) {
    exists front, pad, inner, rest ::
      IsAddressForm(line, front, dev, pad, inner, rest) && endpoint == TrimSpace(inner)
  }

  lemma {:induction false} TrimLeftParts(s: string) returns (left: string)
    ensures AllSpace(left) && s == left + TrimLeft(s)
    ensures TrimLeft(s) == "" || !IsSpace(TrimLeft(s)[0])
  {
    if s != "" && IsSpace(s[0]) {
      var l := TrimLeftParts(s[1..]);
      left := [s[0]] + l;
    } else {
      left := "";
    }
  }

  lemma {:induction false} TrimRightParts(s: string) returns (right: string)
    ensures AllSpace(right) && s == TrimRight(s) + right
    ensures TrimRight(s) == "" || !IsSpace(TrimRight(s)[|TrimRight(s)| - 1])
  {
    if s != "" && IsSpace(s[|s| - 1]) {
      var r := TrimRightParts(s[..|s| - 1]);
      right := r + [s[|s| - 1]];
    } else {
      right := "";
    }
  }

  lemma TrimParts(s: string) returns (left: string, right: string)
    ensures AllSpace(left) && AllSpace(right) && s == left + TrimSpace(s) + right
    ensures TrimSpace(s) != "" ==> IsTrimmed(TrimSpace(s))
  {
    hide TrimLeft, TrimRight, IsSpace;
    left := TrimLeftParts(s);
    right := TrimRightParts(TrimLeft(s));
    assert s == left + (TrimSpace(s) + right);
    assert TrimSpace(s) != "" ==> TrimSpace(s)[0] == TrimLeft(s)[0];
  }

  lemma {:induction false} TrimOfSpace(s: string)
    ensures AllSpace(s) ==> TrimSpace(s) == ""
  {
    if AllSpace(s) {
      TrimLeftPad(s, "");
      assert s + "" == s;
    }
  }

  /** What trimming leaves of the text before a bracket, cut at its last blank or tab. */
  lemma NameOfHead(front: string, dev: string, pad: string)
    requires AllSpace(front) || front[|front| - 1] in " \t"
    requires dev != "" && !IsSpace(dev[0]) && !IsSpace(dev[|dev| - 1]) && AllSpace(pad)
    requires Lacks(dev, ' ') && Lacks(dev, '\t')
    ensures var head := TrimSpace(front + dev + pad);
            (match LastIndexAny(head, " \t") case Some(i) => head[i + 1..] case None => head) == dev
  {
    hide LastIndexAny, TrimLeft, TrimRight;
    var cut := FrontKept(front, dev + pad);
    assert front + dev + pad == front + (dev + pad);
    assert cut + (dev + pad) == (cut + dev) + pad;
    TrimRightPad(cut + dev, pad);
    TrimmedStays(cut + dev);
    var head := cut + dev;
    assert forall i :: |cut| <= i < |head| ==> head[i] == dev[i - |cut|];
    if cut == "" {
      assert head == dev;
    } else {
      assert head[|cut| - 1] == cut[|cut| - 1];
      assert LastIndexAny(head, " \t") == Some(|cut| - 1);
    }
  }

  lemma TrimmedStays(s: string)
    requires s != "" && !IsSpace(s[|s| - 1])
    ensures TrimRight(s) == s
  {
  }

  lemma {:induction false} FrontKept(front: string, s: string) returns (cut: string)
    requires s != "" && !IsSpace(s[0])
    ensures TrimLeft(front + s) == cut + s
    ensures if AllSpace(front) then cut == "" else cut != "" && cut[|cut| - 1] == front[|front| - 1]
  {
    hide IsSpace;
    if front != "" && IsSpace(front[0]) {
      assert (front + s)[1..] == front[1..] + s;
      assert AllSpace(front) <==> AllSpace(front[1..]);
      cut := FrontKept(front[1..], s);
    } else {
      cut := front;
      assert front == "" ==> front + s == s;
    }
  }

  lemma AddressLineIsRead(line: string, front: string, dev: string, pad: string, inner: string, rest: string)
    requires IsAddressForm(line, front, dev, pad, inner, rest)
    ensures ParseRPCEndpoint(line) == Some((dev, TrimSpace(inner)))
  {
    hide Index, TrimSpace, LastIndexAny, AllSpace, HasRpcPrefix, IsSpace;
    var before := front + dev + pad;
    EndpointSlices(before, inner, rest);
    assert line == before + "[" + inner + "]" + rest;
    RpcLetters(dev);
    FirstChar(before, '[', inner + "]" + rest);
    assert Lacks("[" + inner, ']');
    FirstChar("[" + inner, ']', rest);
    var left, right := TrimParts(inner);
    SpaceConcat(left, right);
    assert TrimSpace(inner) == "" ==> inner == left + right;
    NameOfHead(front, dev, pad);
  }

  lemma SpaceConcat(a: string, b: string)
    ensures AllSpace(a) && AllSpace(b) ==> AllSpace(a + b)
  {
  }

  lemma RpcLetters(dev: string)
    ensures HasRpcPrefix(dev) <==> |dev| >= 3 && dev[0] in "Rr" && dev[1] in "Pp" && dev[2] in "Cc"
    ensures HasRpcPrefix(dev) ==> !IsSpace(dev[0])
  {
  }

  lemma BracketParts(line: string) returns (before: string, inner: string, rest: string)
    requires Index(line, "[").Some?
    requires var rel := Index(line[Index(line, "[").value..], "]"); rel.Some? && rel.value > 0
    ensures var open := Index(line, "[").value;
            var rel := Index(line[open..], "]").value;
            open + rel < |line| && before == line[..open] && inner == line[open + 1..open + rel]
    ensures line == before + "[" + inner + "]" + rest
    ensures Lacks(before, '[') && Lacks(inner, ']')
  {
    hide Index, Lacks;
    FirstSeparator(line, '[');
    var open := Index(line, "[").value;
    var tail := line[open..];
    FirstSeparator(tail, ']');
    var rel := Index(tail, "]").value;
    before, inner, rest := line[..open], line[open + 1..open + rel], tail[rel + 1..];
    LacksTail(tail[..rel], ']');
    assert tail[..rel][1..] == inner;
    assert tail[..rel] == "[" + inner;
    assert line == before + (("[" + inner) + "]" + rest);
  }

  /** The parts of a line that is read as an address line. */
  lemma ReadIsAddressLine(line: string, dev: string, endpoint: string)
    requires ParseRPCEndpoint(line) == Some((dev, endpoint))
    ensures IsAddressLine(line, dev, endpoint)
  {
    hide Index, TrimSpace, LastIndexAny, AllSpace, HasRpcPrefix, IsSpace, Lacks;
    var before, inner, rest := BracketParts(line);
    var head := TrimSpace(before);
    var cut := CutHead(head, dev);
    assert head == head[..cut] + dev;
    var front, pad := HeadParts(before, head[..cut], dev);
    TrimOfSpace(inner);
    RpcLetters(dev);
    assert IsAddressForm(line, front, dev, pad, inner, rest);
  }

  lemma LacksTail(s: string, c: char)
    requires Lacks(s, c) && s != ""
    ensures Lacks(s[1..], c)
  {
  }

  lemma CutHead(head: string, dev: string) returns (cut: nat)
    requires dev != "" && dev == match LastIndexAny(head, " \t") case Some(i) => head[i + 1..] case None => head
    ensures cut <= |head| && head[cut..] == dev
    ensures cut > 0 ==> head[cut - 1] in " \t"
    ensures Lacks(dev, ' ') && Lacks(dev, '\t')
  {
    hide LastIndexAny;
    cut := match LastIndexAny(head, " \t") case Some(i) => i + 1 case None => 0;
    forall i | 0 <= i < |dev| ensures dev[i] != ' ' && dev[i] != '\t' {
      assert dev[i] == head[cut + i] && head[cut + i] !in " \t";
      assert ' ' in " \t" && '\t' in " \t";
    }
  }

  /** What stands before a name is all white space or ends in a blank or tab. */
  lemma HeadParts(before: string, kept: string, dev: string) returns (front: string, pad: string)
    requires dev != "" && TrimSpace(before) == kept + dev
    requires kept != "" ==> kept[|kept| - 1] in " \t"
    ensures before == front + dev + pad && AllSpace(pad)
    ensures AllSpace(front) || front[|front| - 1] in " \t"
    ensures !IsSpace(dev[|dev| - 1])
  {
    hide TrimSpace, IsSpace, AllSpace;
    var left, right := TrimParts(before);
    front, pad := left + kept, right;
    assert before == left + (kept + dev) + right;
    assert (kept + dev)[|kept + dev| - 1] == dev[|dev| - 1];
    if kept == "" {
      assert front == left;
    } else {
      assert front[|front| - 1] == kept[|kept| - 1];
    }
  }

  /** A line is read as the address line of a device if and only if it has that form. */
  lemma AddressLineExactlyWhen(line: string, dev: string, endpoint: string)
    ensures ParseRPCEndpoint(line) == Some((dev, endpoint)) <==> IsAddressLine(line, dev, endpoint)
  {
    hide ParseRPCEndpoint, IsAddressForm;
    if ParseRPCEndpoint(line) == Some((dev, endpoint)) {
      ReadIsAddressLine(line, dev, endpoint);
    }
    if IsAddressLine(line, dev, endpoint) {
      var front, pad, inner, rest :| IsAddressForm(line, front, dev, pad, inner, rest) && endpoint == TrimSpace(inner);
      AddressLineIsRead(line, front, dev, pad, inner, rest);
    }
  }

  ghost predicate LooksLikeAddress(line: string) {
    exists dev, endpoint :: IsAddressLine(line, dev, endpoint)
  }

  /** So a line, be it a printed assignment, is taken for an address line if and only if
      its first bracket stands behind a name that starts with RPC and is closed behind
      something that is not white space. */
  lemma MisreadExactlyWhen(line: string)
    ensures ParseRPCEndpoint(line).Some? <==> LooksLikeAddress(line)
    ensures Lacks(line, '[') || line[0] == '[' ==> !LooksLikeAddress(line)
  {
    hide ParseRPCEndpoint, IsAddressLine;
    var e := ParseRPCEndpoint(line);
    if e.Some? {
      AddressLineExactlyWhen(line, e.value.0, e.value.1);
    }
    if LooksLikeAddress(line) {
      var dev, endpoint :| IsAddressLine(line, dev, endpoint);
      AddressLineExactlyWhen(line, dev, endpoint);
    }
    if Lacks(line, '[') || line[0] == '[' {
      BracketFreeIsNoEndpoint(line);
    }
  }

  // ------------------------------------------------------------ the plan

  /** Layer to device and device to address, as the log told. */
  datatype Plan = Plan(layers: map<int, string>, nodes: map<string, string>)

  const EMPTY := Plan(map[], map[])

  function Recorded(p: Plan, line: string): Plan {
    match ParseRPCEndpoint(line)
    case Some((dev, endpoint)) => p.(nodes := p.nodes[dev := endpoint])
    case None =>
      match ParseLayerAssignment(line)
      case Some((layer, dev)) => p.(layers := p.layers[layer := dev])
      case None => p
  }

  datatype LogEvent = Line(line: string) | Reset

  /** The plan after a stream of log lines and resets. */
  function After(p: Plan, events: seq<LogEvent>): Plan
    decreases |events|
  {
    if events == [] then p
    else
      var n := |events| - 1;
      match events[n]
      case Line(line) => Recorded(After(p, events[..n]), line)
      case Reset => EMPTY
  }

  /** The device that the last assignment of this layer names, searched from the end
      of the stream back to the last reset. */
  function LastDevice(events: seq<LogEvent>, layer: int): Option<string>
    decreases |events|
  {
    if events == [] || events[|events| - 1].Reset? then None
    else
      var n := |events| - 1;
      var line := events[n].line;
      var a := ParseLayerAssignment(line);
      if ParseRPCEndpoint(line).None? && a.Some? && a.value.0 == layer then Some(a.value.1)
      else LastDevice(events[..n], layer)
  }

  /** The address of the last address line for this device. */
  function LastAddress(events: seq<LogEvent>, dev: string): Option<string>
    decreases |events|
  {
    if events == [] || events[|events| - 1].Reset? then None
    else
      var n := |events| - 1;
      var e := ParseRPCEndpoint(events[n].line);
      if e.Some? && e.value.0 == dev then Some(e.value.1) else LastAddress(events[..n], dev)
  }

  function Get<K, V>(m: map<K, V>, k: K): Option<V> {
    if k in m then Some(m[k]) else None
  }

  /** However assignment, address and other lines interleave, each layer has the device
      of the last line naming it and each device the last address seen; nothing from
      before a reset survives. */
  lemma {:induction false} LastLineWins(events: seq<LogEvent>, layer: int, dev: string)
    ensures Get(After(EMPTY, events).layers, layer) == LastDevice(events, layer)
    ensures Get(After(EMPTY, events).nodes, dev) == LastAddress(events, dev)
    decreases |events|
  {
    hide ParseRPCEndpoint, ParseLayerAssignment;
    if events != [] {
      LastLineWins(events[..|events| - 1], layer, dev);
    }
  }

  lemma {:induction false} ResetForgets(before: seq<LogEvent>, after: seq<LogEvent>)
    ensures After(EMPTY, before + [Reset] + after) == After(EMPTY, after)
    decreases |after|
  {
    hide ParseRPCEndpoint, ParseLayerAssignment;
    var all := before + [Reset] + after;
    if after == [] {
      assert all[|all| - 1] == Reset;
    } else {
      var n := |after| - 1;
      assert all[..|all| - 1] == before + [Reset] + after[..n];
      ResetForgets(before, after[..n]);
    }
  }

  // ------------------------------------------------------------ printed logs

  /** What llama.cpp logs while it loads a model: a layer is assigned, a remote node is
      named, something else is said; and the load that starts the plan anew. */
  datatype Printed =
    | Assigned(prefix: string, pad1: string, layer: int, pad2: string, pad3: string, dev: string, tail: string)
    | Addressed(prefix: string, dev: string, pad1: string, endpoint: string, pad2: string, rest: string)
    | Unrelated(line: string)
    | Restarted

  function Printout(e: Printed): LogEvent {
    match e
    case Assigned(prefix, pad1, layer, pad2, pad3, dev, tail) =>
      Line(AssignmentLine(prefix, pad1, layer, pad2, pad3, dev, tail))
    case Addressed(prefix, dev, pad1, endpoint, pad2, rest) =>
      Line(EndpointLine(prefix, dev, pad1, endpoint, pad2, rest))
    case Unrelated(line) => Line(line)
    case Restarted => Reset
  }

  function Printouts(log: seq<Printed>): (events: seq<LogEvent>)
    ensures |events| == |log| && forall i :: 0 <= i < |log| ==> events[i] == Printout(log[i])
  {
    seq(|log|, i requires 0 <= i < |log| => Printout(log[i]))
  }

  /** The forms of the log: an assignment or an unrelated line does not look like an
      address line, and what is unrelated lacks the marker. */
  ghost predicate PrintedOk(e: Printed) {
    match e
    case Assigned(prefix, pad1, layer, pad2, pad3, dev, tail) =>
      && MIN_INT <= layer <= MAX_INT && Index(prefix, MARKER).None?
      && AllSpace(pad1) && AllSpace(pad2) && AllSpace(pad3)
      && IsDeviceName(dev) && (tail == [] || tail[0] in ", \t")
      && !LooksLikeAddress(AssignmentLine(prefix, pad1, layer, pad2, pad3, dev, tail))
    case Addressed(prefix, dev, pad1, endpoint, pad2, rest) =>
      && Lacks(prefix, '[') && (prefix == [] || prefix[|prefix| - 1] in " \t")
      && IsDeviceName(dev) && Lacks(dev, '[') && HasRpcPrefix(dev)
      && IsTrimmed(endpoint) && Lacks(endpoint, ']') && AllSpace(pad1) && AllSpace(pad2)
    case Unrelated(line) =>
      Index(line, MARKER).None? && !LooksLikeAddress(line)
    case Restarted => true
  }

  /** The device that the last printed assignment of the layer names. */
  function LastAssigned(log: seq<Printed>, layer: int): Option<string>
    decreases |log|
  {
    if log == [] || log[|log| - 1].Restarted? then None
    else
      var e := log[|log| - 1];
      if e.Assigned? && e.layer == layer then Some(e.dev) else LastAssigned(log[..|log| - 1], layer)
  }

  /** The address that the last printed address line of the device names. */
  function LastAddressed(log: seq<Printed>, dev: string): Option<string>
    decreases |log|
  {
    if log == [] || log[|log| - 1].Restarted? then None
    else
      var e := log[|log| - 1];
      if e.Addressed? && e.dev == dev then Some(e.endpoint) else LastAddressed(log[..|log| - 1], dev)
  }

  /** Each printed line is read as what it was printed from, and as nothing else. */
  lemma PrintedLineIsRead(e: Printed)
    requires PrintedOk(e) && !e.Restarted?
    ensures ParseRPCEndpoint(Printout(e).line) == if e.Addressed? then Some((e.dev, e.endpoint)) else None
    ensures e.Assigned? ==> ParseLayerAssignment(Printout(e).line) == Some((e.layer, e.dev))
    ensures e.Unrelated? ==> ParseLayerAssignment(Printout(e).line).None?
  {
    hide ParseRPCEndpoint, AssignmentLine, EndpointLine, Index, AllSpace, IsDeviceName, IsTrimmed, HasRpcPrefix, Lacks;
    match e
    case Assigned(prefix, pad1, layer, pad2, pad3, dev, tail) =>
      AssignmentRoundTrip(prefix, pad1, layer, pad2, pad3, dev, tail);
      MisreadExactlyWhen(Printout(e).line);
    case Addressed(prefix, dev, pad1, endpoint, pad2, rest) =>
      EndpointRoundTrip(prefix, dev, pad1, endpoint, pad2, rest);
    case Unrelated(line) =>
      MisreadExactlyWhen(line);
  }

  /** From the printer to the plan: however the lines of a log interleave, each layer has
      the device its last printed assignment names and each device the address printed
      last for it, counted from the last load. */
  lemma {:induction false} PrintedLogIsThePlan(log: seq<Printed>, layer: int, dev: string)
    requires forall i :: 0 <= i < |log| ==> PrintedOk(log[i])
    ensures LastDevice(Printouts(log), layer) == LastAssigned(log, layer)
    ensures LastAddress(Printouts(log), dev) == LastAddressed(log, dev)
    ensures Get(After(EMPTY, Printouts(log)).layers, layer) == LastAssigned(log, layer)
    ensures Get(After(EMPTY, Printouts(log)).nodes, dev) == LastAddressed(log, dev)
    decreases |log|
  {
    hide ParseRPCEndpoint, ParseLayerAssignment, PrintedOk, After, Get;
    LastLineWins(Printouts(log), layer, dev);
    if log != [] {
      var n := |log| - 1;
      var front := log[..n];
      PrintedLogIsThePlan(front, layer, dev);
      assert Printouts(log)[..n] == Printouts(front);
      if !log[n].Restarted? {
        PrintedLineIsRead(log[n]);
      }
    }
  }

  // ------------------------------------------------------------ ranges

  datatype Range = Range(device: string, from: int, to: int, count: nat, node: string)

  predicate Holds(r: Range, layer: int) {
    r.from <= layer <= r.to
  }

  /** The range says the truth about the plan. */
  ghost predicate RangeOk(r: Range, p: Plan) {
    && r.from <= r.to && r.count == r.to - r.from + 1
    && r.node == (if r.device in p.nodes then p.nodes[r.device] else "")
    && forall l :: Holds(r, l) ==> l in p.layers && p.layers[l] == r.device
  }

  predicate Mergeable(a: Range, b: Range) {
    a.device == b.device && b.from == a.to + 1
  }

  ghost predicate Sorted(rs: seq<Range>) {
    forall i, j :: 0 <= i < j < |rs| ==> rs[i].to < rs[j].from
  }

  ghost predicate NoNeighboursMerge(rs: seq<Range>) {
    forall i :: 0 < i < |rs| ==> !Mergeable(rs[i - 1], rs[i])
  }

  ghost predicate Covers(rs: seq<Range>, layer: int) {
    exists i :: 0 <= i < |rs| && Holds(rs[i], layer)
  }

  /** Sorted disjoint ranges that expand to exactly the layer map, none of which could
      be merged with its neighbour. */
  ghost predicate Canonical(rs: seq<Range>, p: Plan) {
    && (forall i :: 0 <= i < |rs| ==> RangeOk(rs[i], p))
    && Sorted(rs)
    && NoNeighboursMerge(rs)
    && forall l :: l in p.layers ==> Covers(rs, l)
  }

  function Total(rs: seq<Range>): nat {
    if rs == [] then 0 else Total(rs[..|rs| - 1]) + rs[|rs| - 1].count
  }

  /** What the operator sees is what the log said: a range holds layers whose last line
      names its device, its address is the last one seen for that device, and a layer
      is shown exactly if some line since the last reset named it. */
  lemma RangesTellTheLog(rs: seq<Range>, events: seq<LogEvent>, layer: int)
    requires Canonical(rs, After(EMPTY, events))
    ensures forall r :: r in rs && Holds(r, layer) ==> LastDevice(events, layer) == Some(r.device)
    ensures forall r :: r in rs ==>
              r.node == match LastAddress(events, r.device) case Some(a) => a case None => ""
    ensures Covers(rs, layer) <==> LastDevice(events, layer).Some?
  {
    hide After, LastDevice, LastAddress, Sorted, NoNeighboursMerge;
    forall r | r in rs
      ensures Holds(r, layer) ==> LastDevice(events, layer) == Some(r.device)
      ensures r.node == match LastAddress(events, r.device) case Some(a) => a case None => ""
    {
      assert RangeOk(r, After(EMPTY, events));
      LastLineWins(events, layer, r.device);
    }
    LastLineWins(events, layer, "");
  }

  // ------------------------------------------------------------ uniqueness

  lemma FromLeq(rs: seq<Range>, qs: seq<Range>, p: Plan, k: nat)
    requires Canonical(rs, p) && Canonical(qs, p)
    requires k < |rs| && k <= |qs| && rs[..k] == qs[..k]
    ensures k < |qs| && qs[k].from <= rs[k].from
  {
    var l := rs[k].from;
    assert Holds(rs[k], l);
    var j :| 0 <= j < |qs| && Holds(qs[j], l);
    assert forall i :: 0 <= i < k ==> qs[i] == qs[..k][i] == rs[..k][i] == rs[i];
  }

  /** Before a canonical range the plan has no layer of the same device. */
  lemma RunStart(rs: seq<Range>, p: Plan, i: nat)
    requires Canonical(rs, p) && i < |rs| && rs[i].from - 1 in p.layers
    ensures p.layers[rs[i].from - 1] != rs[i].device
  {
    var l := rs[i].from - 1;
    var j :| 0 <= j < |rs| && Holds(rs[j], l);
    assert RangeOk(rs[j], p) && RangeOk(rs[i], p);
    assert i > 0 && RangeOk(rs[i - 1], p);
    assert j == i - 1 && rs[j].to == l;
  }

  /** Nor has it one behind the range. */
  lemma RunEnd(rs: seq<Range>, p: Plan, i: nat)
    requires Canonical(rs, p) && i < |rs| && rs[i].to + 1 in p.layers
    ensures p.layers[rs[i].to + 1] != rs[i].device
  {
    var l := rs[i].to + 1;
    var j :| 0 <= j < |rs| && Holds(rs[j], l);
    assert RangeOk(rs[j], p) && RangeOk(rs[i], p);
    assert i + 1 < |rs| && RangeOk(rs[i + 1], p);
    assert j == i + 1 && rs[j].from == l;
  }

  lemma ToLeq(rs: seq<Range>, qs: seq<Range>, p: Plan, k: nat)
    requires Canonical(rs, p) && Canonical(qs, p)
    requires k < |rs| && k < |qs| && rs[k].from == qs[k].from && rs[k].device == qs[k].device
    ensures qs[k].to <= rs[k].to
  {
    var m := rs[k].to + 1;
    assert RangeOk(rs[k], p) && RangeOk(qs[k], p);
    assert Holds(qs[k], m) <==> m <= qs[k].to;
    if m in p.layers {
      RunEnd(rs, p, k);
    }
  }

  lemma {:induction false} SamePrefix(rs: seq<Range>, qs: seq<Range>, p: Plan, k: nat)
    requires Canonical(rs, p) && Canonical(qs, p) && k <= |rs|
    ensures k <= |qs| && rs[..k] == qs[..k]
  {
    if k > 0 {
      var n := k - 1;
      SamePrefix(rs, qs, p, n);
      FromLeq(rs, qs, p, n);
      FromLeq(qs, rs, p, n);
      assert Holds(rs[n], rs[n].from) && Holds(qs[n], qs[n].from);
      ToLeq(rs, qs, p, n);
      ToLeq(qs, rs, p, n);
      assert rs[..k] == rs[..n] + [rs[n]];
      assert qs[..k] == qs[..n] + [qs[n]];
    }
  }

  /** There is only one canonical list for a plan. */
  lemma CanonicalIsUnique(rs: seq<Range>, qs: seq<Range>, p: Plan)
    requires Canonical(rs, p) && Canonical(qs, p)
    ensures rs == qs
  {
    SamePrefix(rs, qs, p, |rs|);
    SamePrefix(qs, rs, p, |qs|);
  }

  // ------------------------------------------------------------ minimality

  function Froms(rs: seq<Range>): set<int> {
    set i | 0 <= i < |rs| :: rs[i].from
  }

  lemma {:induction false} FromsCount(rs: seq<Range>)
    ensures |Froms(rs)| <= |rs|
    ensures (forall i, j :: 0 <= i < j < |rs| ==> rs[i].from != rs[j].from) ==> |Froms(rs)| == |rs|
  {
    if rs == [] {
      assert Froms(rs) == {};
    } else {
      var n := |rs| - 1;
      FromsCount(rs[..n]);
      assert Froms(rs) == Froms(rs[..n]) + {rs[n].from};
    }
  }

  /** No other list of true ranges that covers all layers, sorted or not, overlapping
      or not, is shorter than the canonical one. */
  lemma CanonicalIsShortest(rs: seq<Range>, qs: seq<Range>, p: Plan)
    requires Canonical(rs, p)
    requires forall i :: 0 <= i < |qs| ==> RangeOk(qs[i], p)
    requires forall l :: l in p.layers ==> Covers(qs, l)
    ensures |rs| <= |qs|
  {
    forall i | 0 <= i < |rs|
      ensures rs[i].from in Froms(qs)
    {
      var l := rs[i].from;
      assert Holds(rs[i], l);
      var j :| 0 <= j < |qs| && Holds(qs[j], l);
      assert RangeOk(qs[j], p) && RangeOk(rs[i], p);
      if l - 1 in p.layers {
        RunStart(rs, p, i);
      }
      assert qs[j].from < l <==> Holds(qs[j], l - 1);
      assert qs[j].from == l;
    }
    forall i, j | 0 <= i < j < |rs|
      ensures rs[i].from != rs[j].from
    {
      assert rs[i].from <= rs[i].to < rs[j].from;
    }
    assert Froms(rs) <= Froms(qs);
    FromsCount(rs);
    FromsCount(qs);
    SubsetCount(Froms(rs), Froms(qs));
  }

  // ------------------------------------------------------------ the code

  function Single(p: Plan, l: int): Range
    requires l in p.layers
  {
    var dev := p.layers[l];
    Range(dev, l, l, 1, if dev in p.nodes then p.nodes[dev] else "")
  }

  /** Ranges that are canonical for the first `n` keys only. */
  ghost predicate CanonicalUpTo(rs: seq<Range>, p: Plan, ks: seq<int>, n: nat)
    requires n <= |ks|
  {
    && rs != []
    && (forall i :: 0 <= i < |rs| ==> RangeOk(rs[i], p))
    && Sorted(rs) && NoNeighboursMerge(rs)
    && (forall i :: 0 <= i < n ==> Covers(rs, ks[i]))
    && n > 0 && rs[|rs| - 1].to == ks[n - 1]
    && Total(rs) == n
  }

  lemma CoversMore(rs: seq<Range>, qs: seq<Range>, l: int)
    requires Covers(rs, l) && |rs| <= |qs|
    requires forall i :: 0 <= i < |rs| ==> qs[i].from <= rs[i].from && rs[i].to <= qs[i].to
    ensures Covers(qs, l)
  {
    var j :| 0 <= j < |rs| && Holds(rs[j], l);
    assert Holds(qs[j], l);
  }

  /** The next key closes the current range and opens a new one. */
  lemma OpenRange(rs: seq<Range>, p: Plan, ks: seq<int>, n: nat)
    requires 0 < n < |ks| && ks[n - 1] < ks[n] && ks[n] in p.layers
    requires CanonicalUpTo(rs, p, ks, n) && !Mergeable(rs[|rs| - 1], Single(p, ks[n]))
    ensures CanonicalUpTo(rs + [Single(p, ks[n])], p, ks, n + 1)
  {
    var next := Single(p, ks[n]);
    var qs := rs + [next];
    assert qs[..|rs|] == rs;
    assert Sorted(qs) by {
      forall i | 0 <= i < |rs| ensures rs[i].to < next.from {
        assert RangeOk(rs[|rs| - 1], p);
      }
    }
    assert NoNeighboursMerge(qs);
    forall i | 0 <= i < n + 1 ensures Covers(qs, ks[i]) {
      if i == n {
        assert Holds(qs[|rs|], ks[n]);
      } else {
        CoversMore(rs, qs, ks[i]);
      }
    }
  }

  /** Replacing the last range by a wider one of the same device and start. */
  lemma WidenOrder(out: seq<Range>, cur: Range, wide: Range)
    requires Sorted(out + [cur]) && NoNeighboursMerge(out + [cur])
    requires wide.from == cur.from && wide.device == cur.device
    ensures Sorted(out + [wide]) && NoNeighboursMerge(out + [wide])
  {
    var rs, qs := out + [cur], out + [wide];
    assert forall i :: 0 <= i < |out| ==> rs[i] == qs[i];
    forall i | 0 < i < |qs| ensures !Mergeable(qs[i - 1], qs[i]) {
      assert !Mergeable(rs[i - 1], rs[i]);
    }
    forall i, j | 0 <= i < j < |qs| ensures qs[i].to < qs[j].from {
      assert rs[i].to < rs[j].from;
    }
  }

  lemma WideRangeOk(cur: Range, p: Plan, l: int)
    requires RangeOk(cur, p) && l in p.layers && Mergeable(cur, Single(p, l))
    ensures RangeOk(cur.(to := l, count := cur.count + 1), p)
  {
    var wide := cur.(to := l, count := cur.count + 1);
    assert forall m :: Holds(wide, m) ==> m == l || Holds(cur, m);
  }

  /** The next key extends the current range. */
  lemma WidenRange(out: seq<Range>, cur: Range, p: Plan, ks: seq<int>, n: nat)
    requires 0 < n < |ks| && ks[n] in p.layers
    requires CanonicalUpTo(out + [cur], p, ks, n) && Mergeable(cur, Single(p, ks[n]))
    ensures CanonicalUpTo(out + [cur.(to := ks[n], count := cur.count + 1)], p, ks, n + 1)
  {
    hide RangeOk, Sorted, NoNeighboursMerge, Covers;
    var l := ks[n];
    var wide := cur.(to := l, count := cur.count + 1);
    var rs, qs := out + [cur], out + [wide];
    assert rs[..|out|] == out == qs[..|out|];
    assert rs[|out|] == cur && qs[|out|] == wide;
    WideRangeOk(cur, p, l);
    WidenOrder(out, cur, wide);
    assert forall i :: 0 <= i < |out| ==> qs[i] == rs[i];
    forall i | 0 <= i < n + 1 ensures Covers(qs, ks[i]) {
      if i == n {
        LastCovers(qs, p, l);
      } else {
        CoversMore(rs, qs, ks[i]);
      }
    }
  }

  lemma LastCovers(rs: seq<Range>, p: Plan, l: int)
    requires rs != [] && RangeOk(rs[|rs| - 1], p) && rs[|rs| - 1].to == l
    ensures Covers(rs, l)
  {
    assert Holds(rs[|rs| - 1], l);
  }

  /** The package state of the source, guarded there by one mutex. */
  class DeviceLayers {
    var byLayer: map<int, string>
    var nodeByDevice: map<string, string>

    function View(): Plan
      reads this
    {
      Plan(byLayer, nodeByDevice)
    }

    constructor ()
      ensures View() == EMPTY
    {
      byLayer, nodeByDevice := map[], map[];
    }

    method Record(line: string)
      modifies this
      ensures View() == Recorded(old(View()), line)
    {
      var e := ParseRPCEndpoint(line);
      if e.Some? {
        nodeByDevice := nodeByDevice[e.value.0 := e.value.1];
        return;
      }
      var a := ParseLayerAssignment(line);
      if a.None? {
        return;
      }
      byLayer := byLayer[a.value.0 := a.value.1];
    }

    method ResetLayers()
      modifies this
      ensures View() == EMPTY
    {
      byLayer, nodeByDevice := map[], map[];
    }

    /** The callback over a whole stream of events. */
    method Consume(events: seq<LogEvent>)
      modifies this
      ensures View() == After(old(View()), events)
    {
      for i := 0 to |events|
        invariant View() == After(old(View()), events[..i])
      {
        assert events[..i + 1][..i] == events[..i];
        match events[i]
        case Line(line) => Record(line);
        case Reset => ResetLayers();
      }
      assert events[..|events|] == events;
    }

    method Snapshot() returns (out: seq<Range>)
      ensures Canonical(out, View())
      ensures Total(out) == |byLayer|
    {
      hide CanonicalUpTo, Canonical, Total;
      var cp, nodes := byLayer, nodeByDevice;
      if |cp| == 0 {
        assert cp == map[];
        NoKeys(View());
        return [];
      }
      var layers := SortedKeys(cp);
      ghost var p := View();
      out := [];
      assert layers[0] in layers;
      var first := cp[layers[0]];
      var cur := Range(first, layers[0], layers[0], 1, if first in nodes then nodes[first] else "");
      assert CanonicalUpTo(out + [cur], p, layers, 1) by {
        FirstKey(cur, p, layers);
      }
      for i := 1 to |layers|
        invariant CanonicalUpTo(out + [cur], p, layers, i)
      {
        var l := layers[i];
        assert l in layers;
        var dev := cp[l];
        if dev == cur.device && l == cur.to + 1 {
          WidenRange(out, cur, p, layers, i);
          cur := cur.(to := l, count := cur.count + 1);
          continue;
        }
        OpenRange(out + [cur], p, layers, i);
        out := out + [cur];
        cur := Range(dev, l, l, 1, if dev in nodes then nodes[dev] else "");
      }
      out := out + [cur];
      AllKeys(out, p, layers);
    }
  }

  lemma NoKeys(p: Plan)
    requires p.layers == map[]
    ensures Canonical([], p) && Total([]) == 0
  {
  }

  lemma AllKeys(rs: seq<Range>, p: Plan, ks: seq<int>)
    requires forall l :: l in ks <==> l in p.layers
    requires CanonicalUpTo(rs, p, ks, |ks|)
    ensures Canonical(rs, p) && Total(rs) == |ks|
  {
    forall l | l in p.layers ensures Covers(rs, l) {
      assert l in ks;
      var i :| 0 <= i < |ks| && ks[i] == l;
    }
  }

  lemma FirstKey(cur: Range, p: Plan, ks: seq<int>)
    requires ks != [] && ks[0] in p.layers && cur == Single(p, ks[0])
    ensures CanonicalUpTo([] + [cur], p, ks, 1)
  {
    var rs := [] + [cur];
    assert rs == [cur] && rs[..0] == [];
    assert Total(rs) == Total(rs[..0]) + 1;
    assert Covers(rs, ks[0]) by { assert Holds(rs[0], ks[0]); }
  }
}
