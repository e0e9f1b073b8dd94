/** Which byte strings the GGUF reader accepts: exactly those that start, but for the high
    bits of the magic, with the layout of some file. */
module GgufFiles {
  import opened Basics
  import opened Utf8
  import opened Gguf

  // ------------------------------------------------------------ numbers and strings

  lemma {:induction false} LaidNumber(s: seq<byte>)
    ensures FromLE(s) < Range(|s|) && ToLE(FromLE(s), |s|) == s
  {
    if s != [] {
      LaidNumber(s[1..]);
      var n := FromLE(s);
      assert n == s[0] as int + 256 * FromLE(s[1..]);
      assert n % 256 == s[0] as int && n / 256 == FromLE(s[1..]);
      assert s == [s[0]] + s[1..];
    }
  }

  /** A number that was read is laid out at its place. */
  lemma NumberThere(b: seq<byte>, off: nat, width: nat)
    requires off <= |b| && ReadUnsigned(b, off, width).Ok?
    ensures var n := ReadUnsigned(b, off, width).value.value;
            n < Range(width) && At(b, off, ToLE(n, width))
  {
    LaidNumber(b[off..off + width]);
  }

  lemma AtJoin(b: seq<byte>, off: nat, first: seq<byte>, second: seq<byte>)
    requires At(b, off, first) && At(b, off + |first|, second)
    ensures At(b, off, first + second)
  {
    var mid := off + |first|;
    assert b[off..mid + |second|] == b[off..mid] + b[mid..mid + |second|];
  }

  /** A count that does not exceed the size of a buffer is exact. */
  lemma ExactCount(n: nat, size: nat)
    requires ToNumber(n) <= size < TWO53
    ensures ToNumber(n) == n
  {
    hide Rounded;
    ToNumberExact(n);
  }

  /** A string that was read is laid out at its place. */
  lemma StringThere(b: seq<byte>, off: nat) returns (bytes: seq<byte>)
    requires off <= |b| < TWO53 && ReadString(b, off).Ok?
    ensures |bytes| <= TWO53 && At(b, off, LayString(bytes))
    ensures ReadString(b, off).value == Parsed(Decode(bytes), off + |LayString(bytes)|)
  {
    hide Decode, ToLE, Rounded, ReadUnsigned;
    NumberThere(b, off, 8);
    var p := ReadUnsigned(b, off, 8).value;
    var n := ToNumber(p.value);
    ExactCount(p.value, |b|);
    bytes := b[p.next..p.next + n];
    AtJoin(b, off, ToLE(n, 8), bytes);
  }

  // ------------------------------------------------------------ values

  /** A fixed-width value that was read is laid out at its place. */
  lemma ScalarThere(b: seq<byte>, off: nat, code: nat) returns (t: Tree)
    requires off <= |b| && FieldWidth(code).Some? && ReadUnsigned(b, off, FieldWidth(code).value).Ok?
    ensures WellFormed(t) && Code(t) == code && At(b, off, Lay(t))
  {
    hide ReadUnsigned, ToLE, At;
    var w := FieldWidth(code).value;
    NumberThere(b, off, w);
    var n := ReadUnsigned(b, off, w).value.value;
    var signed := code == 1 || code == 3 || code == 5 || code == 11;
    RangeValues();
    t := Scalar(code, if signed && 2 * n >= Range(w) then n - Range(w) else n);
  }

  /** The layout of a tree whose head and items were found. */
  lemma ArrayThere(b: seq<byte>, off: nat, elem: nat, items: seq<Tree>)
    requires WellFormed(Array(elem, items))
    requires At(b, off, ToLE(elem, 4)) && At(b, off + 4, ToLE(|items|, 8)) && At(b, off + 12, LayAll(items))
    ensures At(b, off, Lay(Array(elem, items)))
  {
    hide At, ToLE, LayAll;
    AtJoin(b, off, ToLE(elem, 4), ToLE(|items|, 8));
    AtJoin(b, off, ToLE(elem, 4) + ToLE(|items|, 8), LayAll(items));
  }

  /** Every value that is read is the meaning of a tree laid out at its place. */
  lemma {:induction false} TreeThere(b: seq<byte>, off: nat, code: nat) returns (t: Tree)
    requires off <= |b| < TWO53 && ReadValue(b, off, code).Ok?
    ensures WellFormed(t) && Code(t) == code && At(b, off, Lay(t))
    ensures ReadValue(b, off, code).value == Parsed(Meaning(t), off + |Lay(t)|)
    decreases |b| - off, 0, 0
  {
    hide Decode, ReadUnsigned, ToLE, Range, Rounded, At, LayAll, ReadItems;
    if code == 8 {
      var bytes := StringThere(b, off);
      t := Bytes(bytes);
    } else if code == 9 {
      NumberThere(b, off, 4);
      NumberThere(b, off + 4, 8);
      RangeValues();
      var elem := ReadUnsigned(b, off, 4).value.value;
      var count := ReadUnsigned(b, off + 4, 8).value.value;
      ExactCount(count, TWO32);
      var items := ItemsThere(b, off + 12, elem, count, []);
      t := Array(elem, items);
      ArrayThere(b, off, elem, items);
    } else {
      t := ScalarThere(b, off, code);
    }
    ReadsTree(b, off, t);
  }

  lemma {:induction false} ItemsThere(b: seq<byte>, off: nat, elem: nat, n: nat, done: seq<Value>)
    returns (items: seq<Tree>)
    requires off <= |b| < TWO53 && ReadItems(b, off, elem, n, done).Ok?
    ensures |items| == n && forall i :: 0 <= i < n ==> WellFormed(items[i]) && Code(items[i]) == elem
    ensures At(b, off, LayAll(items))
    decreases |b| - off, 1, n
  {
    hide ReadValue, Lay, Meaning, WellFormed, Code;
    if n == 0 {
      items := [];
    } else {
      var p := ReadValue(b, off, elem).value;
      var first := TreeThere(b, off, elem);
      var rest := ItemsThere(b, p.next, elem, n - 1, done + [p.value]);
      items := [first] + rest;
      assert items[1..] == rest;
      AtJoin(b, off, Lay(first), LayAll(rest));
    }
  }

  // ------------------------------------------------------------ entries and files

  lemma EntryThere(b: seq<byte>, off: nat) returns (e: Entry)
    requires off <= |b| < TWO53 && ReadEntry(b, off).Ok?
    ensures EntryOk(e) && At(b, off, LayEntry(e))
    ensures ReadEntry(b, off).value.next == off + |LayEntry(e)| && LayEntry(e) != []
  {
    hide Decode, ReadString, ReadUnsigned, ReadValue, ToLE, At, Lay, LayString, WellFormed, Code;
    var key := ReadString(b, off).value;
    var code := ReadUnsigned(b, key.next, 4).value;
    var bytes := StringThere(b, off);
    NumberThere(b, key.next, 4);
    var value := TreeThere(b, code.next, code.value);
    e := Entry(bytes, value);
    AtJoin(b, off, LayString(bytes), ToLE(code.value, 4));
    AtJoin(b, off, LayString(bytes) + ToLE(code.value, 4), Lay(value));
  }

  lemma {:induction false} EntriesThere(b: seq<byte>, off: nat, n: nat, done: seq<Pair>) returns (es: seq<Entry>)
    requires off <= |b| < TWO53 && ReadEntries(b, off, n, done).Ok?
    ensures |es| == n && forall i :: 0 <= i < n ==> EntryOk(es[i])
    ensures At(b, off, LayEntries(es)) && n <= |LayEntries(es)| <= |b|
    decreases n
  {
    hide ReadEntry, LayEntry, EntryOk;
    if n == 0 {
      es := [];
    } else {
      var p := ReadEntry(b, off).value;
      var first := EntryThere(b, off);
      var rest := EntriesThere(b, p.next, n - 1, done + [p.value]);
      es := [first] + rest;
      assert es[1..] == rest;
      AtJoin(b, off, LayEntry(first), LayEntries(rest));
    }
  }

  lemma FileThere(b: seq<byte>) returns (f: File)
    requires |b| < TWO53 && ReadFile(b).Ok?
    ensures FileOk(f) && At(b, 4, LayBody(f))
  {
    hide ReadUnsigned, ToLE, At, LayEntries, ReadEntries, Range, Rounded;
    NumberThere(b, 4, 4);
    NumberThere(b, 8, 8);
    NumberThere(b, 16, 8);
    RangeValues();
    var version, tensors := ReadUnsigned(b, 4, 4).value.value, ReadUnsigned(b, 8, 8).value.value;
    var count := ReadUnsigned(b, 16, 8).value.value;
    var es := EntriesThere(b, 24, ToNumber(count), []);
    ExactCount(count, |b|);
    f := File(version, tensors, es);
    AtJoin(b, 4, ToLE(version, 4), ToLE(tensors, 8));
    AtJoin(b, 4, ToLE(version, 4) + ToLE(tensors, 8), ToLE(|es|, 8));
    AtJoin(b, 4, ToLE(version, 4) + ToLE(tensors, 8) + ToLE(|es|, 8), LayEntries(es));
  }

  /** A buffer is read exactly if its first four bytes are the magic up to their high bits
      and what follows starts with the rest of some file. */
  lemma ReadsExactlyTheFiles(b: seq<byte>)
    requires |b| < TWO53
    ensures ReadFile(b).Ok? <==>
            && |b| >= 4 && b[0] % 0x80 == 0x47 && b[1] % 0x80 == 0x47 && b[2] % 0x80 == 0x55 && b[3] % 0x80 == 0x46
            && exists f :: FileOk(f) && At(b, 4, LayBody(f))
  {
    hide FileOk, LayBody, At, ReadEntries, ReadUnsigned;
    if ReadFile(b).Ok? {
      var f := FileThere(b);
      assert FileOk(f) && At(b, 4, LayBody(f));
    }
    if MagicFits(b) && exists f :: FileOk(f) && At(b, 4, LayBody(f)) {
      var f :| FileOk(f) && At(b, 4, LayBody(f));
      ReadsFile(f, b);
    }
  }

  /** A buffer is turned away as no GGUF file exactly for its first four bytes. */
  lemma NotGgufExactlyWhen(b: seq<byte>)
    ensures ReadFile(b) == Err(NotGguf) <==>
            || |b| < 4
            || b[0] % 0x80 != 0x47 || b[1] % 0x80 != 0x47 || b[2] % 0x80 != 0x55 || b[3] % 0x80 != 0x46
  {
    hide ReadEntries, Store;
  }
}
