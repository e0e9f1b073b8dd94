/** Which lines of the log are read as assignments of a layer, and which texts as numbers. */
module AssignmentLines {
  import opened Basics
  import opened Lines
  import opened Strings
  import opened LayerPlan

  // ------------------------------------------------------------ numbers

  function Zeros(z: nat): string {
    if z == 0 then "" else Zeros(z - 1) + "0"
  }

  lemma DigitsNext(v: nat, c: char)
    requires IsDigit(c)
    ensures var d := c as int - '0' as int;
            0 <= d && Digits(d) == [c] && (v > 0 ==> Digits(10 * v + d) == Digits(v) + [c])
  {
    var d := c as int - '0' as int;
    assert (10 * v + d) / 10 == v && (10 * v + d) % 10 == d;
  }

  /** A text of digits is its value in the usual form behind some zeros. */
  lemma {:induction false} DigitsParts(s: string) returns (z: nat)
    requires s != "" && AllDigits(s)
    ensures s == Zeros(z) + Digits(DigitsValue(s))
  {
    hide Digits;
    var front, c := s[..|s| - 1], s[|s| - 1];
    assert s == front + [c];
    if front == "" {
      DigitsNext(0, c);
      z := 0;
    } else {
      z := DigitsParts(front);
      DigitsNext(DigitsValue(front), c);
      if DigitsValue(front) == 0 {
        DigitsNext(0, '0');
        z := z + 1;
      }
    }
  }

  lemma {:induction false} ZerosAddNothing(z: nat, s: string)
    ensures DigitsValue(Zeros(z) + s) == DigitsValue(s)
    decreases z + |s|
  {
    var t := Zeros(z) + s;
    if s != "" {
      ZerosAddNothing(z, s[..|s| - 1]);
      assert t[..|t| - 1] == Zeros(z) + s[..|s| - 1];
    } else if z > 0 {
      ZerosAddNothing(z - 1, "");
      assert t == Zeros(z) && t[..|t| - 1] == Zeros(z - 1) == Zeros(z - 1) + "";
    }
  }

  lemma {:induction false} ZerosAreDigits(z: nat)
    ensures forall i :: 0 <= i < |Zeros(z)| ==> Zeros(z)[i] == '0'
  {
    if z > 0 {
      ZerosAreDigits(z - 1);
    }
  }

  /** A sign or none, `z` zeros, and the number in its usual form. */
  predicate IsNumeralWith(s: string, n: int, sign: string, z: nat) {
    && sign in {"", "+", "-"} && s == sign + (Zeros(z) + Digits(if n < 0 then -n else n))
    && (n < 0 ==> sign == "-") && (n > 0 ==> sign != "-")
  }

  ghost predicate IsNumeral(s: string, n: int) {
    exists sign, z :: IsNumeralWith(s, n, sign, z)
  }

  lemma NumeralIsRead(s: string, n: int, sign: string, z: nat)
    requires MIN_INT <= n <= MAX_INT && IsNumeralWith(s, n, sign, z)
    ensures Atoi(s) == Some(n)
  {
    hide Digits, DigitsValue, Zeros;
    var m := if n < 0 then -n else n;
    var digits := Zeros(z) + Digits(m);
    ZerosAddNothing(z, Digits(m));
    DigitsRoundTrip(m);
    ZerosAreDigits(z);
    assert AllDigits(digits);
    assert IsDigit(digits[0]);
    if sign == "" {
      assert s == digits;
    } else {
      assert s[1..] == digits;
    }
  }

  /** What the reader of numbers accepts. */
  lemma AtoiExactlyWhen(s: string, n: int)
    ensures Atoi(s) == Some(n) <==> MIN_INT <= n <= MAX_INT && IsNumeral(s, n)
  {
    hide Digits, DigitsValue, Zeros;
    if Atoi(s) == Some(n) {
      var signed := s[0] == '-' || s[0] == '+';
      var sign, digits := if signed then [s[0]] else "", if signed then s[1..] else s;
      var z := DigitsParts(digits);
      assert s == sign + digits;
      assert IsNumeralWith(s, n, sign, z);
    }
    if MIN_INT <= n <= MAX_INT && IsNumeral(s, n) {
      var sign, z :| IsNumeralWith(s, n, sign, z);
      NumeralIsRead(s, n, sign, z);
    }
  }

  /** A number starts and ends with characters that no trimming removes. */
  lemma NumberIsTrimmed(s: string)
    requires Atoi(s).Some?
    ensures IsTrimmed(s) && s[|s| - 1] !in " ,"
  {
    var digits := if s[0] == '-' || s[0] == '+' then s[1..] else s;
    assert s[|s| - 1] == digits[|digits| - 1] && IsDigit(digits[|digits| - 1]);
    assert s[0] == '-' || s[0] == '+' || s[0] == digits[0];
  }

  // ------------------------------------------------------------ the three parts

  /** The marker is the first one, and "layer" the last one before it. */
  ghost predicate IsMarked(line: string, prefix: string, mid: string, rest: string) {
    && line == prefix + "layer" + mid + "assigned to device" + rest
    && (forall j :: j < |prefix + "layer" + mid| ==> !OccursAt(line, "assigned to device", j))
    && (forall j :: j > |prefix| ==> !OccursAt(prefix + "layer" + mid, "layer", j))
  }

  /** The number, then white space, then blanks and commas, then white space. */
  predicate IsNumberPart(mid: string, pad: string, num: string, space: string, commas: string, end: string) {
    && mid == pad + num + (space + commas + end)
    && AllSpace(pad) && AllSpace(space) && AllSpace(end)
    && forall i :: 0 <= i < |commas| ==> commas[i] in " ,"
  }

  ghost predicate HoldsNumber(mid: string, n: int) {
    exists pad, num, space, commas, end ::
      IsNumberPart(mid, pad, num, space, commas, end) && Atoi(num) == Some(n)
  }

  /** The device, and behind it nothing but white space before a comma, a blank or a tab. */
  predicate IsDevicePart(rest: string, pad: string, dev: string, space: string, tail: string) {
    && rest == pad + dev + (space + tail) && AllSpace(pad) && AllSpace(space)
    && IsTrimmed(dev) && (forall i :: 0 <= i < |dev| ==> dev[i] !in ", \t")
    && (tail == "" || tail[0] in ", \t")
  }

  ghost predicate HoldsDevice(rest: string, dev: string) {
    exists pad, space, tail :: IsDevicePart(rest, pad, dev, space, tail)
  }

  function NumberOf(mid: string): Option<int> {
    Atoi(TrimSpace(TrimRightSet(TrimSpace(mid), " ,")))
  }

  function DeviceOf(rest: string): string {
    var r := TrimSpace(rest);
    TrimSpace(match IndexAny(r, ", \t") case Some(i) => r[..i] case None => r)
  }

  // ------------------------------------------------------------ the number

  lemma {:induction false} TrimRightSetParts(s: string, cut: string) returns (right: string)
    ensures s == TrimRightSet(s, cut) + right && forall i :: 0 <= i < |right| ==> right[i] in cut
  {
    if s != "" && s[|s| - 1] in cut {
      var r := TrimRightSetParts(s[..|s| - 1], cut);
      right := r + [s[|s| - 1]];
    } else {
      right := "";
    }
  }

  lemma {:induction false} TrimRightSetOf(s: string, tail: string, cut: string)
    requires s != "" && s[|s| - 1] !in cut
    ensures TrimRightSet(s + tail, cut) == s + TrimRightSet(tail, cut)
  {
    if tail == "" {
      assert s + tail == s;
    } else if tail[|tail| - 1] in cut {
      assert (s + tail)[..|s + tail| - 1] == s + tail[..|tail| - 1];
      TrimRightSetOf(s, tail[..|tail| - 1], cut);
    }
  }

  lemma {:induction false} CommasGo(space: string, commas: string)
    requires forall i :: 0 <= i < |commas| ==> commas[i] in " ,"
    ensures TrimRightSet(space + commas, " ,") <= space
    decreases |commas|
  {
    var all := space + commas;
    if commas == "" {
      var right := TrimRightSetParts(space, " ,");
      assert all == space;
    } else {
      var n := |commas| - 1;
      assert all[..|all| - 1] == space + commas[..n] && all[|all| - 1] == commas[n];
      CommasGo(space, commas[..n]);
    }
  }

  lemma {:induction false} SpacesGo(space: string, commas: string) returns (cut: string)
    requires AllSpace(space) && forall i :: 0 <= i < |commas| ==> commas[i] in " ,"
    ensures cut <= commas && (TrimRight(space + commas) == "" || TrimRight(space + commas) == space + cut)
    decreases |commas|
  {
    hide IsSpace;
    var all := space + commas;
    if commas == "" {
      cut := "";
      TrimRightPad("", space);
      assert all == space == "" + space;
    } else {
      var n := |commas| - 1;
      assert all[..|all| - 1] == space + commas[..n] && all[|all| - 1] == commas[n];
      if IsSpace(commas[n]) {
        cut := SpacesGo(space, commas[..n]);
      } else {
        cut := commas;
      }
    }
  }

  lemma OnlySpaceLeft(space: string, commas: string)
    requires AllSpace(space) && forall i :: 0 <= i < |commas| ==> commas[i] in " ,"
    ensures AllSpace(TrimRightSet(TrimRight(space + commas), " ,"))
  {
    hide IsSpace, TrimRight;
    var cut := SpacesGo(space, commas);
    CommasGo(space, cut);
    assert TrimRightSet("", " ,") == "";
  }

  lemma Regroup(a: string, b: string, num: string, c: string, d: string, e: string)
    ensures a + (b + num + c + d) + e == (a + b) + num + (c + d + e)
  {
    assert a + (b + num + c + d) + e == a + b + num + c + d + e;
  }

  lemma NumberIsHeld(mid: string, n: int)
    requires NumberOf(mid) == Some(n)
    ensures HoldsNumber(mid, n)
  {
    hide TrimSpace, TrimRightSet, Atoi, AllSpace, IsTrimmed;
    var t := TrimSpace(mid);
    var left, right := TrimParts(mid);
    var cut := TrimRightSet(t, " ,");
    var commas := TrimRightSetParts(t, " ,");
    var pad, space := TrimParts(cut);
    SpaceConcat(left, pad);
    Regroup(left, pad, TrimSpace(cut), space, commas, right);
    assert IsNumberPart(mid, left + pad, TrimSpace(cut), space, commas, right);
  }

  lemma HeldIsNumber(mid: string, pad: string, num: string, space: string, commas: string, end: string)
    requires IsNumberPart(mid, pad, num, space, commas, end) && Atoi(num).Some?
    ensures NumberOf(mid) == Atoi(num)
  {
    hide TrimLeft, TrimRight, TrimRightSet, Atoi, AllSpace, IsSpace;
    NumberIsTrimmed(num);
    TrimFront(pad, num, space + commas + end);
    TrimRightPad(space + commas, end);
    var v := TrimRight(space + commas);
    TrimRightSetOf(num, v, " ,");
    OnlySpaceLeft(space, commas);
    TrimPadded("", num, TrimRightSet(v, " ,"));
    assert "" + num + TrimRightSet(v, " ,") == num + TrimRightSet(v, " ,");
  }

  lemma TrimFront(pad: string, s: string, tail: string)
    requires AllSpace(pad) && IsTrimmed(s)
    ensures TrimSpace(pad + s + tail) == s + TrimRight(tail)
  {
    assert pad + s + tail == pad + (s + tail);
    TrimLeftPad(pad, s + tail);
    assert TrimLeft(s + tail) == s + tail;
    TrimRightOf(s, tail);
  }

  lemma NumberExactly(mid: string, n: int)
    ensures NumberOf(mid) == Some(n) <==> HoldsNumber(mid, n)
  {
    hide NumberOf, Atoi, IsNumberPart;
    if NumberOf(mid) == Some(n) {
      NumberIsHeld(mid, n);
    }
    if HoldsNumber(mid, n) {
      var pad, num, space, commas, end :| IsNumberPart(mid, pad, num, space, commas, end) && Atoi(num) == Some(n);
      HeldIsNumber(mid, pad, num, space, commas, end);
    }
  }

  // ------------------------------------------------------------ the device

  /** A text up to its first comma, blank or tab, and what is behind. */
  lemma FirstPiece(r: string) returns (piece: string, behind: string)
    ensures r == piece + behind && (behind == "" || behind[0] in ", \t")
    ensures forall k :: 0 <= k < |piece| ==> piece[k] !in ", \t"
    ensures piece == match IndexAny(r, ", \t") case Some(i) => r[..i] case None => r
  {
    hide IndexAny;
    var i := IndexAny(r, ", \t");
    var n := if i.Some? then i.value else |r|;
    piece, behind := r[..n], r[n..];
    assert i.Some? ==> behind[0] == r[n];
  }

  lemma Inner(whole: string, left: string, s: string, right: string, cut: string)
    requires whole == left + s + right && forall k :: 0 <= k < |whole| ==> whole[k] !in cut
    ensures forall k :: 0 <= k < |s| ==> s[k] !in cut
  {
    forall k | 0 <= k < |s| ensures s[k] !in cut {
      assert s[k] == whole[|left| + k];
    }
  }

  lemma DeviceIsHeld(rest: string)
    requires DeviceOf(rest) != ""
    ensures HoldsDevice(rest, DeviceOf(rest))
  {
    hide TrimSpace, AllSpace, IsSpace, IndexAny, IsTrimmed;
    var left, right := TrimParts(rest);
    var piece, behind := FirstPiece(TrimSpace(rest));
    var before, after := TrimParts(piece);
    var dev := DeviceOf(rest);
    assert dev == TrimSpace(piece);
    Inner(piece, before, dev, after, ", \t");
    SpaceConcat(left, before);
    SpaceConcat(after, right);
    Regroup(left, before, dev, after, behind, right);
    TailOf(after, behind, right);
    if behind == "" {
      assert IsDevicePart(rest, left + before, dev, after + right, "");
    } else {
      assert IsDevicePart(rest, left + before, dev, after, behind + right);
    }
  }

  lemma TailOf(space: string, behind: string, end: string)
    ensures behind == "" ==> space + behind + end == (space + end) + ""
    ensures behind != "" ==> space + behind + end == space + (behind + end) && (behind + end)[0] == behind[0]
  {
  }

  lemma HeldIsDevice(rest: string, pad: string, dev: string, space: string, tail: string)
    requires IsDevicePart(rest, pad, dev, space, tail)
    ensures DeviceOf(rest) == dev && dev != ""
  {
    hide TrimSpace, TrimRight, IndexAny, IsSpace;
    TrimFront(pad, dev, space + tail);
    var v := TrimRight(space + tail);
    var r := dev + v;
    var i := IndexAny(r, ", \t");
    SpacesFirst(space, tail);
    var n := if i.Some? then i.value else |r|;
    assert forall k :: 0 <= k < |dev| ==> r[k] == dev[k];
    assert n >= |dev|;
    var w := v[..n - |dev|];
    assert r[..n] == dev + w;
    forall k | 0 <= k < |w| ensures w[k] !in ", \t" {
      assert w[k] == r[|dev| + k];
    }
    assert AllSpace(w);
    TrimPadded("", dev, w);
    assert "" + dev + w == r[..n];
    assert i.None? ==> r[..n] == r;
  }

  /** What trimming leaves of the text behind a name is white space up to the first comma,
      blank or tab. */
  lemma SpacesFirst(space: string, tail: string)
    requires AllSpace(space) && (tail == "" || tail[0] in ", \t")
    ensures var v := TrimRight(space + tail);
            forall m :: 0 <= m <= |v| && (forall k :: 0 <= k < m ==> v[k] !in ", \t") ==> AllSpace(v[..m])
  {
    hide IsSpace;
    var v := TrimRight(space + tail);
    assert v <= space + tail;
    if tail == "" {
      TrimRightPad("", space);
      assert "" + space == space == space + tail;
    } else {
      forall m | 0 <= m <= |v| && (forall k :: 0 <= k < m ==> v[k] !in ", \t")
        ensures AllSpace(v[..m])
      {
        assert |v| > |space| ==> v[|space|] == tail[0];
        assert m <= |space|;
        assert forall k :: 0 <= k < m ==> v[k] == (space + tail)[k] == space[k];
      }
    }
  }

  lemma DeviceExactly(rest: string, dev: string)
    ensures DeviceOf(rest) == dev && dev != "" <==> HoldsDevice(rest, dev)
  {
    hide DeviceOf, AllSpace, IsSpace, IsTrimmed;
    if DeviceOf(rest) == dev && dev != "" {
      DeviceIsHeld(rest);
    }
    if HoldsDevice(rest, dev) {
      var pad, space, tail :| IsDevicePart(rest, pad, dev, space, tail);
      HeldIsDevice(rest, pad, dev, space, tail);
    }
  }

  // ------------------------------------------------------------ the line

  /** The parts of a marked line, as the parser finds them. */
  lemma ParsesParts(line: string, prefix: string, mid: string, rest: string)
    requires IsMarked(line, prefix, mid, rest)
    ensures ParseLayerAssignment(line) ==
            if NumberOf(mid).None? || DeviceOf(rest) == "" then None else Some((NumberOf(mid).value, DeviceOf(rest)))
  {
    hide Atoi, TrimLeft, TrimRight, TrimRightSet, IndexAny;
    var head := prefix + "layer" + mid;
    assert line[..|head|] == head && line[|head| + |MARKER|..] == rest;
    assert OccursAt(line, MARKER, |head|);
    assert head[|prefix| + |LAYER|..] == mid;
    assert OccursAt(head, LAYER, |prefix|);
    EmptyHasNoDevice();
  }

  lemma EmptyHasNoDevice()
    ensures IndexAny("", ", \t").None? && TrimSpace("") == ""
  {
  }

  /** A line that is read is marked. */
  lemma ReadIsMarked(line: string) returns (prefix: string, mid: string, rest: string)
    requires ParseLayerAssignment(line).Some?
    ensures IsMarked(line, prefix, mid, rest)
  {
    hide Atoi, TrimSpace, TrimRightSet, IndexAny;
    var at := Index(line, MARKER).value;
    var head := line[..at];
    var li := LastIndex(head, LAYER).value;
    prefix, mid, rest := head[..li], head[li + |LAYER|..], line[at + |MARKER|..];
    assert head == prefix + "layer" + mid;
  }

  /** The line assigns the layer to the device. */
  ghost predicate IsAssignmentLine(line: string, layer: int, dev: string) {
    exists prefix, mid, rest ::
      IsMarked(line, prefix, mid, rest) && HoldsNumber(mid, layer) && HoldsDevice(rest, dev)
  }

  /** A line is read as an assignment exactly if it is one: with a marker, a layer number
      before it and a device behind it. */
  lemma AssignmentLineExactlyWhen(line: string, layer: int, dev: string)
    ensures ParseLayerAssignment(line) == Some((layer, dev)) <==> IsAssignmentLine(line, layer, dev)
  {
    hide ParseLayerAssignment, IsMarked, HoldsNumber, HoldsDevice, NumberOf, DeviceOf;
    if ParseLayerAssignment(line) == Some((layer, dev)) {
      var prefix, mid, rest := ReadIsMarked(line);
      ParsesParts(line, prefix, mid, rest);
      NumberExactly(mid, layer);
      DeviceExactly(rest, dev);
    }
    if IsAssignmentLine(line, layer, dev) {
      var prefix, mid, rest :| IsMarked(line, prefix, mid, rest) && HoldsNumber(mid, layer) && HoldsDevice(rest, dev);
      ParsesParts(line, prefix, mid, rest);
      NumberExactly(mid, layer);
      DeviceExactly(rest, dev);
    }
  }
}
