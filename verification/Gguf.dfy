/** The reader of GGUF metadata. A file is a header and key/value pairs; values may be
    arrays nested to any depth. `ReadFile` and its parts are the specification on a byte
    string and an offset; the class `Reader` is the cursor that the source moves. */
module Gguf {
  import opened Basics
  import opened Utf8

  const UINT8 := 0
  const INT8 := 1
  const UINT16 := 2
  const INT16 := 3
  const UINT32 := 4
  const INT32 := 5
  const FLOAT32 := 6
  const BOOL := 7
  const STRING := 8
  const ARRAY := 9
  const UINT64 := 10
  const INT64 := 11
  const FLOAT64 := 12

  const TWO53: nat := 0x20_0000_0000_0000
  const TWO32: nat := 0x1_0000_0000
  const TWO64: nat := 0x1_0000_0000_0000_0000

  /** A value as the script sees it. Floating-point values are kept as bit patterns. */
  datatype Value =
    | Number(n: int)
    | BigInt(n: int)
    | Float(width: nat, bits: nat)
    | Boolean(b: bool)
    | String(text: Text)
    | List(items: seq<Value>)

  datatype Error =
    | NotGguf
    | Truncated(need: nat, at: nat, available: nat)
    | UnknownType(code: nat, at: nat)
    | BadArrayLength(n: nat)

  datatype Parsed<+T> = Parsed(value: T, next: nat)

  type Outcome<T> = Result<Parsed<T>, Error>

  datatype Metadata = Metadata(version: nat, tensorCount: nat, entries: map<Text, Value>)

  // ------------------------------------------------------------ integers

  function FromLE(b: seq<byte>): (n: nat) {
    if b == [] then 0 else b[0] + 256 * FromLE(b[1..])
  }

  function ToLE(n: nat, width: nat): (b: seq<byte>)
    ensures |b| == width
  {
    if width == 0 then [] else [n % 256] + ToLE(n / 256, width - 1)
  }

  /** Number of values of a field of this width. */
  function Range(width: nat): nat {
    if width == 0 then 1 else 256 * Range(width - 1)
  }

  lemma {:induction false} LERoundTrip(n: nat, width: nat)
    requires n < Range(width)
    ensures FromLE(ToLE(n, width)) == n
  {
    if width > 0 {
      LERoundTrip(n / 256, width - 1);
      assert ToLE(n, width)[1..] == ToLE(n / 256, width - 1);
    }
  }

  lemma RangeValues()
    ensures Range(1) == 0x100 && Range(2) == 0x1_0000 && Range(4) == TWO32 && Range(8) == TWO64
  {
    assert Range(3) == 0x100_0000;
    assert Range(5) == 0x100_0000_0000;
    assert Range(6) == 0x1_0000_0000_0000;
    assert Range(7) == 0x100_0000_0000_0000;
  }

  /** Rounding half to even to 53 significant bits: bits are shifted out one by one;
      `guard` is the last one and `sticky` tells whether an earlier one was set. */
  function Rounded(n: nat, guard: bool, sticky: bool): (r: nat)
    ensures n >= TWO53 ==> r >= TWO53
    ensures n < TWO53 ==> n <= r
  {
    if n >= TWO53 then 2 * Rounded(n / 2, n % 2 == 1, sticky || guard)
    else if guard && (sticky || n % 2 == 1) then n + 1
    else n
  }

  /** Conversion of an unsigned 64-bit integer to a double-precision number. */
  function ToNumber(n: nat): nat {
    Rounded(n, false, false)
  }

  /** Counts up to 2^53 are exact; a larger one stays at least 2^53. */
  lemma ToNumberExact(n: nat)
    ensures n <= TWO53 ==> ToNumber(n) == n
    ensures n >= TWO53 ==> ToNumber(n) >= TWO53
  {
    assert Rounded(TWO53 / 2, false, false) == TWO53 / 2;
  }

  function Pow2(k: nat): (p: nat)
    ensures p > 0
  {
    if k == 0 then 1 else 2 * Pow2(k - 1)
  }

  /** `n` has 53 significant bits `q` and a rest `r`, and `m` is `q` rounded to nearest,
      up if the rest is more than half, or just half and the quotient odd. */
  predicate IsNearestEven(n: nat, m: nat, q: nat, k: nat, r: nat) {
    && n == q * Pow2(k) + r && r < Pow2(k) && TWO53 / 2 <= q < TWO53
    && m == (if 2 * r > Pow2(k) || (2 * r == Pow2(k) && q % 2 == 1) then q + 1 else q) * Pow2(k)
  }

  /** Step `j` of the shifting, `f` being the bits shifted out so far. */
  lemma {:induction false} RoundedFrom(n: nat, j: nat, f: nat, guard: bool, sticky: bool) returns (q: nat, k: nat, r: nat)
    requires f < Pow2(j) && n >= TWO53 / 2
    requires guard <==> 2 * f >= Pow2(j)
    requires sticky <==> 2 * f != if guard then Pow2(j) else 0
    ensures IsNearestEven(n * Pow2(j) + f, Rounded(n, guard, sticky) * Pow2(j), q, k, r)
    decreases n
  {
    hide Rounded, Pow2, IsNearestEven;
    RoundedStep(n, guard, sticky);
    if n < TWO53 {
      q, k, r := n, j, f;
      RoundedLast(n, j, f, guard, sticky);
    } else {
      var rest := (if n % 2 == 1 then Pow2(j) else 0) + f;
      Doubled(n, j);
      q, k, r := RoundedFrom(n / 2, j + 1, rest, n % 2 == 1, sticky || guard);
      Twice(Rounded(n / 2, n % 2 == 1, sticky || guard), Pow2(j));
    }
  }

  lemma Twice(m: nat, p: nat)
    ensures m * (2 * p) == 2 * m * p
  {
  }

  lemma RoundedLast(n: nat, j: nat, f: nat, guard: bool, sticky: bool)
    requires f < Pow2(j) && TWO53 / 2 <= n < TWO53
    requires guard <==> 2 * f >= Pow2(j)
    requires sticky <==> 2 * f != if guard then Pow2(j) else 0
    ensures IsNearestEven(n * Pow2(j) + f, Rounded(n, guard, sticky) * Pow2(j), n, j, f)
  {
    hide Rounded, Pow2;
    RoundedStep(n, guard, sticky);
  }

  lemma RoundedStep(n: nat, guard: bool, sticky: bool)
    ensures n >= TWO53 ==> Rounded(n, guard, sticky) == 2 * Rounded(n / 2, n % 2 == 1, sticky || guard)
    ensures n < TWO53 ==>
            Rounded(n, guard, sticky) == if guard && (sticky || n % 2 == 1) then n + 1 else n
  {
  }

  lemma Doubled(n: nat, j: nat)
    ensures Pow2(j + 1) == 2 * Pow2(j)
    ensures n * Pow2(j) == n / 2 * Pow2(j + 1) + if n % 2 == 1 then Pow2(j) else 0
  {
    hide Pow2;
    Pow2Next(j);
    Twice(n / 2, Pow2(j));
    if n % 2 == 1 {
      assert (2 * (n / 2) + 1) * Pow2(j) == 2 * (n / 2) * Pow2(j) + Pow2(j);
    }
  }

  lemma Pow2Next(j: nat)
    ensures Pow2(j + 1) == 2 * Pow2(j)
  {
  }

  /** The conversion rounds to the nearest of the numbers with 53 significant bits, and of
      two that are equally near to the even one. */
  lemma RoundsToNearestEven(n: nat) returns (q: nat, k: nat, r: nat)
    requires n >= TWO53
    ensures n == q * Pow2(k) + r && r < Pow2(k) && TWO53 / 2 <= q < TWO53
    ensures ToNumber(n) ==
            (if 2 * r > Pow2(k) || (2 * r == Pow2(k) && q % 2 == 1) then q + 1 else q) * Pow2(k)
  {
    hide Rounded;
    assert Pow2(0) == 1;
    q, k, r := RoundedFrom(n, 0, 0, false, false);
  }

  // ------------------------------------------------------------ specification

  function Shortfall(b: seq<byte>, off: nat, n: nat): (e: Option<Error>)
    requires off <= |b|
  {
    if off + n > |b| then Some(Truncated(n, off, |b| - off)) else None
  }

  function ReadUnsigned(b: seq<byte>, off: nat, width: nat): (r: Outcome<nat>)
    requires off <= |b|
    ensures r.Ok? ==> r.value.next == off + width <= |b|
  {
    match Shortfall(b, off, width)
    case Some(e) => Err(e)
    case None => Ok(Parsed(FromLE(b[off..off + width]), off + width))
  }

  function ReadString(b: seq<byte>, off: nat): (r: Outcome<Text>)
    requires off <= |b|
    ensures r.Ok? ==> off < r.value.next <= |b|
  {
    match ReadUnsigned(b, off, 8)
    case Err(e) => Err(e)
    case Ok(p) =>
      var n := ToNumber(p.value);
      match Shortfall(b, p.next, n)
      case Some(e) => Err(e)
      case None => Ok(Parsed(Decode(b[p.next..p.next + n]), p.next + n))
  }

  /** Width of a fixed-width type. */
  function Width(code: nat): Option<nat> {
    if code == UINT8 || code == INT8 || code == BOOL then Some(1)
    else if code == UINT16 || code == INT16 then Some(2)
    else if code == UINT32 || code == INT32 || code == FLOAT32 then Some(4)
    else if code == UINT64 || code == INT64 || code == FLOAT64 then Some(8)
    else None
  }

  function Signed(n: nat, width: nat): int {
    if 2 * n < Range(width) then n else n - Range(width)
  }

  /** What the fixed-width readers make of the unsigned bits. */
  function Interpret(code: nat, n: nat): Value {
    if code == INT8 then Number(Signed(n, 1))
    else if code == INT16 then Number(Signed(n, 2))
    else if code == INT32 then Number(Signed(n, 4))
    else if code == INT64 then BigInt(Signed(n, 8))
    else if code == UINT64 then BigInt(n)
    else if code == FLOAT32 then Float(4, n)
    else if code == FLOAT64 then Float(8, n)
    else if code == BOOL then Boolean(n != 0)
    else Number(n)
  }

  function ReadValue(b: seq<byte>, off: nat, code: nat): (r: Outcome<Value>)
    requires off <= |b|
    ensures r.Err? ==> r.error != NotGguf
    ensures r.Ok? ==> off < r.value.next <= |b|
    decreases |b| - off, 0, 0
  {
    if Width(code).Some? then
      match ReadUnsigned(b, off, Width(code).value)
      case Err(e) => Err(e)
      case Ok(p) => Ok(Parsed(Interpret(code, p.value), p.next))
    else if code == STRING then
      match ReadString(b, off)
      case Err(e) => Err(e)
      case Ok(p) => Ok(Parsed(String(p.value), p.next))
    else if code == ARRAY then
      match ReadUnsigned(b, off, 4)
      case Err(e) => Err(e)
      case Ok(elem) =>
        match ReadUnsigned(b, elem.next, 8)
        case Err(e) => Err(e)
        case Ok(count) =>
          var n := ToNumber(count.value);
          if n >= TWO32 then Err(BadArrayLength(n))
          else
            match ReadItems(b, count.next, elem.value, n, [])
            case Err(e) => Err(e)
            case Ok(p) => Ok(Parsed(List(p.value), p.next))
    else Err(UnknownType(code, off))
  }

  function ReadItems(b: seq<byte>, off: nat, code: nat, n: nat, done: seq<Value>): (r: Outcome<seq<Value>>)
    requires off <= |b|
    ensures r.Err? ==> r.error != NotGguf
    ensures r.Ok? ==> off <= r.value.next <= |b|
    decreases |b| - off, 1, n
  {
    if n == 0 then Ok(Parsed(done, off))
    else
      match ReadValue(b, off, code)
      case Err(e) => Err(e)
      case Ok(p) => ReadItems(b, p.next, code, n - 1, done + [p.value])
  }

  type Pair = (Text, Value)

  function ReadEntry(b: seq<byte>, off: nat): (r: Outcome<Pair>)
    requires off <= |b|
    ensures r.Err? ==> r.error != NotGguf
    ensures r.Ok? ==> off < r.value.next <= |b|
  {
    match ReadString(b, off)
    case Err(e) => Err(e)
    case Ok(key) =>
      match ReadUnsigned(b, key.next, 4)
      case Err(e) => Err(e)
      case Ok(code) =>
        match ReadValue(b, code.next, code.value)
        case Err(e) => Err(e)
        case Ok(v) => Ok(Parsed((key.value, v.value), v.next))
  }

  function ReadEntries(b: seq<byte>, off: nat, n: nat, done: seq<Pair>): (r: Outcome<seq<Pair>>)
    requires off <= |b|
    ensures r.Err? ==> r.error != NotGguf
    ensures r.Ok? ==> off <= r.value.next <= |b|
    decreases n
  {
    if n == 0 then Ok(Parsed(done, off))
    else
      match ReadEntry(b, off)
      case Err(e) => Err(e)
      case Ok(p) => ReadEntries(b, p.next, n - 1, done + [p.value])
  }

  /** The map after storing the pairs in order. */
  function Store(pairs: seq<Pair>): map<Text, Value> {
    if pairs == [] then map[]
    else
      var (key, v) := pairs[|pairs| - 1];
      Store(pairs[..|pairs| - 1])[key := v]
  }

  /** Reading the first four bytes as ASCII drops their high bits. */
  predicate MagicFits(b: seq<byte>) {
    |b| >= 4 && b[0] % 128 == 0x47 && b[1] % 128 == 0x47 && b[2] % 128 == 0x55 && b[3] % 128 == 0x46
  }

  function ReadFile(b: seq<byte>): (r: Outcome<Metadata>)
    ensures r.Ok? ==> r.value.next <= |b|
  {
    if !MagicFits(b) then Err(NotGguf)
    else
      match ReadUnsigned(b, 4, 4)
      case Err(e) => Err(e)
      case Ok(version) =>
        match ReadUnsigned(b, version.next, 8)
        case Err(e) => Err(e)
        case Ok(tensors) =>
          match ReadUnsigned(b, tensors.next, 8)
          case Err(e) => Err(e)
          case Ok(count) =>
            match ReadEntries(b, count.next, ToNumber(count.value), [])
            case Err(e) => Err(e)
            case Ok(p) => Ok(Parsed(Metadata(version.value, ToNumber(tensors.value), Store(p.value)), p.next))
  }

  // ------------------------------------------------------------ file layout

  /** A metadata value as laid out in a file. Strings are raw bytes. */
  datatype Tree =
    | Scalar(code: nat, n: int)
    | Bytes(bytes: seq<byte>)
    | Array(elem: nat, items: seq<Tree>)

  function Code(t: Tree): nat {
    match t
    case Scalar(code, _) => code
    case Bytes(_) => 8
    case Array(_, _) => 9
  }

  /** How many bytes the format gives a value of a fixed-width type. */
  function FieldWidth(code: nat): Option<nat> {
    match code
    case 0 => Some(1) case 1 => Some(1) case 7 => Some(1)
    case 2 => Some(2) case 3 => Some(2)
    case 4 => Some(4) case 5 => Some(4) case 6 => Some(4)
    case 10 => Some(8) case 11 => Some(8) case 12 => Some(8)
    case _ => None
  }

  predicate ScalarFits(code: nat, n: int) {
    && FieldWidth(code).Some?
    && var range: int := Range(FieldWidth(code).value);
    if code == 1 || code == 3 || code == 5 || code == 11 then -range <= 2 * n < range
    else 0 <= n < range
  }

  /** Items have the declared type and lengths fit the reader's number types. */
  predicate WellFormed(t: Tree) {
    match t
    case Scalar(code, n) => ScalarFits(code, n)
    case Bytes(bytes) => |bytes| <= TWO53
    case Array(elem, items) =>
      && elem < TWO32 && |items| < TWO32
      && forall i :: 0 <= i < |items| ==> Code(items[i]) == elem && WellFormed(items[i])
  }

  function LayString(bytes: seq<byte>): seq<byte> {
    ToLE(|bytes|, 8) + bytes
  }

  function Lay(t: Tree): seq<byte>
    requires WellFormed(t)
  {
    match t
    case Scalar(code, n) =>
      var w := FieldWidth(code).value;
      ToLE(if n < 0 then n + Range(w) else n, w)
    case Bytes(bytes) => LayString(bytes)
    case Array(elem, items) => ToLE(elem, 4) + ToLE(|items|, 8) + LayAll(items)
  }

  function LayAll(items: seq<Tree>): seq<byte>
    requires forall i :: 0 <= i < |items| ==> WellFormed(items[i])
  {
    if items == [] then [] else Lay(items[0]) + LayAll(items[1..])
  }

  /** The value a reader should see. */
  function Meaning(t: Tree): Value {
    match t
    case Scalar(code, n) =>
      if code == 10 || code == 11 then BigInt(n)
      else if code == 6 && n >= 0 then Float(4, n)
      else if code == 12 && n >= 0 then Float(8, n)
      else if code == 7 then Boolean(n != 0)
      else Number(n)
    case Bytes(bytes) => String(Decode(bytes))
    case Array(_, items) => List(Meanings(items))
  }

  function Meanings(items: seq<Tree>): seq<Value> {
    if items == [] then [] else [Meaning(items[0])] + Meanings(items[1..])
  }

  datatype Entry = Entry(key: seq<byte>, value: Tree)

  datatype File = File(version: nat, tensorCount: nat, entries: seq<Entry>)

  predicate EntryOk(e: Entry) {
    |e.key| <= TWO53 && WellFormed(e.value)
  }

  predicate FileOk(f: File) {
    && f.version < TWO32 && f.tensorCount < TWO64 && |f.entries| <= TWO53
    && forall i :: 0 <= i < |f.entries| ==> EntryOk(f.entries[i])
  }

  function LayEntry(e: Entry): seq<byte>
    requires EntryOk(e)
  {
    LayString(e.key) + ToLE(Code(e.value), 4) + Lay(e.value)
  }

  function LayEntries(es: seq<Entry>): seq<byte>
    requires forall i :: 0 <= i < |es| ==> EntryOk(es[i])
  {
    if es == [] then [] else LayEntry(es[0]) + LayEntries(es[1..])
  }

  const MAGIC: seq<byte> := [0x47, 0x47, 0x55, 0x46]

  /** A file behind its magic. */
  function LayBody(f: File): seq<byte>
    requires FileOk(f)
  {
    ToLE(f.version, 4) + ToLE(f.tensorCount, 8) + ToLE(|f.entries|, 8) + LayEntries(f.entries)
  }

  function LayFile(f: File): seq<byte>
    requires FileOk(f)
  {
    MAGIC + LayBody(f)
  }

  /** The value of the last entry with this key, if any. */
  function LastValue(es: seq<Entry>, key: Text): Option<Value> {
    if es == [] then None
    else if Decode(es[|es| - 1].key) == key then Some(Meaning(es[|es| - 1].value))
    else LastValue(es[..|es| - 1], key)
  }

  // ------------------------------------------------------------ round trip

  /** `b` holds `part` at offset `off`. */
  predicate At(b: seq<byte>, off: nat, part: seq<byte>) {
    off + |part| <= |b| && b[off..off + |part|] == part
  }

  lemma AtSplit(b: seq<byte>, off: nat, first: seq<byte>, second: seq<byte>)
    requires At(b, off, first + second)
    ensures At(b, off, first) && At(b, off + |first|, second)
  {
    var all := b[off..off + |first + second|];
    assert b[off..off + |first|] == all[..|first|] == first;
    assert b[off + |first|..off + |first| + |second|] == all[|first|..] == second;
  }

  lemma ReadsUnsigned(b: seq<byte>, off: nat, n: nat, width: nat)
    requires n < Range(width) && At(b, off, ToLE(n, width))
    ensures ReadUnsigned(b, off, width) == Ok(Parsed(n, off + width))
  {
    LERoundTrip(n, width);
  }

  lemma ReadsString(b: seq<byte>, off: nat, bytes: seq<byte>)
    requires |bytes| <= TWO53 && At(b, off, LayString(bytes))
    ensures ReadString(b, off) == Ok(Parsed(Decode(bytes), off + |LayString(bytes)|))
  {
    hide Decode;
    AtSplit(b, off, ToLE(|bytes|, 8), bytes);
    RangeValues();
    ReadsUnsigned(b, off, |bytes|, 8);
    ToNumberExact(|bytes|);
  }

  lemma ReadsScalar(b: seq<byte>, off: nat, t: Tree)
    requires t.Scalar? && WellFormed(t) && At(b, off, Lay(t))
    ensures ReadValue(b, off, t.code) == Ok(Parsed(Meaning(t), off + |Lay(t)|))
  {
    var w := Width(t.code).value;
    var raw := if t.n < 0 then t.n + Range(w) else t.n;
    ReadsUnsigned(b, off, raw, w);
    RangeValues();
  }

  /** Whatever the tree and whatever surrounds it, the reader returns its meaning
      and stops right behind it. */
  lemma {:induction false} ReadsTree(b: seq<byte>, off: nat, t: Tree)
    requires WellFormed(t) && At(b, off, Lay(t))
    ensures ReadValue(b, off, Code(t)) == Ok(Parsed(Meaning(t), off + |Lay(t)|))
    decreases t, 0
  {
    hide Decode, LayString, ToLE, Range, FromLE, ReadUnsigned;
    match t
    case Scalar(_, _) => ReadsScalar(b, off, t);
    case Bytes(bytes) => ReadsString(b, off, bytes);
    case Array(elem, items) =>
      var head := ToLE(elem, 4) + ToLE(|items|, 8);
      AtSplit(b, off, head, LayAll(items));
      AtSplit(b, off, ToLE(elem, 4), ToLE(|items|, 8));
      RangeValues();
      ReadsUnsigned(b, off, elem, 4);
      ReadsUnsigned(b, off + 4, |items|, 8);
      ToNumberExact(|items|);
      ReadsItems(b, off + 12, elem, items, []);
      assert [] + Meanings(items) == Meanings(items);
  }

  lemma {:induction false} ReadsItems(b: seq<byte>, off: nat, elem: nat, items: seq<Tree>, done: seq<Value>)
    requires forall i :: 0 <= i < |items| ==> WellFormed(items[i]) && Code(items[i]) == elem
    requires At(b, off, LayAll(items))
    ensures ReadItems(b, off, elem, |items|, done) == Ok(Parsed(done + Meanings(items), off + |LayAll(items)|))
    decreases items, 1
  {
    hide Decode, ReadValue, Lay, Meaning, WellFormed, At;
    if items == [] {
      assert done + Meanings(items) == done;
    } else {
      AtSplit(b, off, Lay(items[0]), LayAll(items[1..]));
      ReadsTree(b, off, items[0]);
      ReadsItems(b, off + |Lay(items[0])|, elem, items[1..], done + [Meaning(items[0])]);
      assert done + Meanings(items) == done + [Meaning(items[0])] + Meanings(items[1..]);
    }
  }

  lemma ReadsCode(b: seq<byte>, off: nat, t: Tree)
    requires WellFormed(t) && At(b, off, ToLE(Code(t), 4))
    ensures ReadUnsigned(b, off, 4) == Ok(Parsed(Code(t), off + 4))
  {
    RangeValues();
    ReadsUnsigned(b, off, Code(t), 4);
  }

  lemma EntryParts(b: seq<byte>, off: nat, e: Entry)
    requires EntryOk(e) && At(b, off, LayEntry(e))
    ensures var at := off + |LayString(e.key)|;
            && At(b, off, LayString(e.key))
            && At(b, at, ToLE(Code(e.value), 4))
            && At(b, at + 4, Lay(e.value))
            && at + 4 + |Lay(e.value)| == off + |LayEntry(e)|
  {
    hide At, Lay, LayString, ToLE, Code, WellFormed;
    var key, code, value := LayString(e.key), ToLE(Code(e.value), 4), Lay(e.value);
    AtSplit(b, off, key + code, value);
    AtSplit(b, off, key, code);
  }

  function PairOf(e: Entry): Pair {
    (Decode(e.key), Meaning(e.value))
  }

  function Pairs(es: seq<Entry>): (ps: seq<Pair>)
    ensures |ps| == |es|
  {
    seq(|es|, i requires 0 <= i < |es| => PairOf(es[i]))
  }

  lemma ReadsEntry(b: seq<byte>, off: nat, e: Entry)
    requires EntryOk(e) && At(b, off, LayEntry(e))
    ensures ReadEntry(b, off) == Ok(Parsed(PairOf(e), off + |LayEntry(e)|))
  {
    hide Decode, Lay, LayString, ReadString, ReadUnsigned, ReadValue, Meaning, ToLE, At;
    var at := off + |LayString(e.key)|;
    EntryParts(b, off, e);
    ReadsString(b, off, e.key);
    ReadsCode(b, at, e.value);
    ReadsTree(b, at + 4, e.value);
  }

  lemma LayEntriesParts(b: seq<byte>, off: nat, es: seq<Entry>)
    requires es != [] && forall i :: 0 <= i < |es| ==> EntryOk(es[i])
    requires At(b, off, LayEntries(es))
    ensures At(b, off, LayEntry(es[0])) && At(b, off + |LayEntry(es[0])|, LayEntries(es[1..]))
    ensures |LayEntries(es)| == |LayEntry(es[0])| + |LayEntries(es[1..])|
  {
    AtSplit(b, off, LayEntry(es[0]), LayEntries(es[1..]));
  }

  lemma {:induction false} ReadsEntries(b: seq<byte>, off: nat, es: seq<Entry>, done: seq<Pair>)
    requires forall i :: 0 <= i < |es| ==> EntryOk(es[i])
    requires At(b, off, LayEntries(es))
    ensures ReadEntries(b, off, |es|, done) == Ok(Parsed(done + Pairs(es), off + |LayEntries(es)|))
    decreases |es|
  {
    hide ReadEntry, PairOf, LayEntry, At, EntryOk;
    if es == [] {
      assert done + Pairs(es) == done;
    } else {
      var e := es[0];
      LayEntriesParts(b, off, es);
      ReadsEntry(b, off, e);
      ReadsEntries(b, off + |LayEntry(e)|, es[1..], done + [PairOf(e)]);
      assert done + Pairs(es) == done + [PairOf(e)] + Pairs(es[1..]);
    }
  }

  lemma {:induction false} StoreKeepsLast(es: seq<Entry>, key: Text)
    ensures var m := Store(Pairs(es));
            match LastValue(es, key)
            case Some(v) => key in m && m[key] == v
            case None => key !in m
    decreases |es|
  {
    hide Decode, Meaning;
    if es != [] {
      var front := es[..|es| - 1];
      assert Pairs(es)[..|es| - 1] == Pairs(front);
      StoreKeepsLast(front, key);
    }
  }

  lemma ReadsHeader(f: File, b: seq<byte>)
    requires FileOk(f) && At(b, 4, LayBody(f))
    ensures ReadUnsigned(b, 4, 4) == Ok(Parsed(f.version, 8))
    ensures ReadUnsigned(b, 8, 8) == Ok(Parsed(f.tensorCount, 16))
    ensures ReadUnsigned(b, 16, 8) == Ok(Parsed(|f.entries|, 24))
    ensures At(b, 24, LayEntries(f.entries)) && |LayBody(f)| == 20 + |LayEntries(f.entries)|
  {
    hide ToLE, LayEntries, ReadUnsigned, Range, At;
    var version, tensors, count := ToLE(f.version, 4), ToLE(f.tensorCount, 8), ToLE(|f.entries|, 8);
    AtSplit(b, 4, version + tensors + count, LayEntries(f.entries));
    AtSplit(b, 4, version + tensors, count);
    AtSplit(b, 4, version, tensors);
    RangeValues();
    ReadsUnsigned(b, 4, f.version, 4);
    ReadsUnsigned(b, 8, f.tensorCount, 8);
    ReadsUnsigned(b, 16, |f.entries|, 8);
  }

  lemma ReadsFile(f: File, b: seq<byte>)
    requires FileOk(f) && MagicFits(b) && At(b, 4, LayBody(f))
    ensures ReadFile(b) == Ok(Parsed(
              Metadata(f.version, ToNumber(f.tensorCount), Store(Pairs(f.entries))), |LayFile(f)|))
  {
    hide Decode, ReadUnsigned, ReadEntries, Store, Pairs, At, LayBody, LayEntries, Rounded, EntryOk;
    ReadsHeader(f, b);
    ToNumberExact(|f.entries|);
    ReadsEntries(b, 24, f.entries, []);
    assert [] + Pairs(f.entries) == Pairs(f.entries);
  }

  /** The layout of a file starts the bytes behind it. */
  lemma StartsWithFile(f: File, rest: seq<byte>)
    requires FileOk(f)
    ensures var b := LayFile(f) + rest;
            MagicFits(b) && At(b, 4, LayBody(f))
  {
    hide LayBody;
    var b := LayFile(f) + rest;
    assert b == MAGIC + (LayBody(f) + rest);
    assert forall i :: 0 <= i < 4 ==> b[i] == MAGIC[i];
    assert b[4..4 + |LayBody(f)|] == LayBody(f);
  }

  /** Every well-formed file, followed by any bytes, is read back: its version, its
      tensor count as a number and, for each key, the last value written for it. */
  lemma FileRoundTrip(f: File, rest: seq<byte>)
    requires FileOk(f)
    ensures var r := ReadFile(LayFile(f) + rest);
            && r.Ok?
            && r.value.next == |LayFile(f)|
            && r.value.value.version == f.version
            && r.value.value.tensorCount == ToNumber(f.tensorCount)
            && (f.tensorCount <= TWO53 ==> r.value.value.tensorCount == f.tensorCount)
            && forall key ::
                 match LastValue(f.entries, key)
                 case Some(v) => key in r.value.value.entries && r.value.value.entries[key] == v
                 case None => key !in r.value.value.entries
  {
    hide Decode;
    StartsWithFile(f, rest);
    ReadsFile(f, LayFile(f) + rest);
    ToNumberExact(f.tensorCount);
    forall key
      ensures var m := Store(Pairs(f.entries));
              match LastValue(f.entries, key)
              case Some(v) => key in m && m[key] == v
              case None => key !in m
    {
      StoreKeepsLast(f.entries, key);
    }
  }

  // ------------------------------------------------------------ the types one by one

  lemma BytesOf(b: seq<byte>, off: nat, width: nat)
    requires off + width <= |b| && width > 0
    ensures FromLE(b[off..off + width]) == b[off] + 256 * FromLE(b[off + 1..off + width])
  {
    assert b[off..off + width][1..] == b[off + 1..off + width];
  }

  lemma NoBytes(b: seq<byte>, off: nat)
    requires off <= |b|
    ensures FromLE(b[off..off]) == 0
  {
  }

  /** Two, four and eight bytes at an offset as one number, the lowest first. */
  function Two(b: seq<byte>, off: nat): nat
    requires off + 2 <= |b|
  {
    b[off] as int + 0x100 * (b[off + 1] as int)
  }

  function Four(b: seq<byte>, off: nat): nat
    requires off + 4 <= |b|
  {
    Two(b, off) + 0x1_0000 * Two(b, off + 2)
  }

  function Eight(b: seq<byte>, off: nat): nat
    requires off + 8 <= |b|
  {
    Four(b, off) + 0x1_0000_0000 * Four(b, off + 4)
  }

  lemma {:induction false} Halves(s: seq<byte>, t: seq<byte>)
    ensures FromLE(s + t) == FromLE(s) + Range(|s|) * FromLE(t)
  {
    if s == [] {
      assert s + t == t;
    } else {
      Halves(s[1..], t);
      assert (s + t)[1..] == s[1..] + t;
      assert 256 * (Range(|s| - 1) * FromLE(t)) == Range(|s|) * FromLE(t);
    }
  }

  lemma TwoBytes(b: seq<byte>, off: nat)
    requires off + 2 <= |b|
    ensures FromLE(b[off..off + 2]) == Two(b, off)
  {
    hide FromLE;
    BytesOf(b, off, 2);
    BytesOf(b, off + 1, 1);
    NoBytes(b, off + 2);
  }

  lemma FourBytes(b: seq<byte>, off: nat)
    requires off + 4 <= |b|
    ensures FromLE(b[off..off + 4]) == Four(b, off)
  {
    hide FromLE, Two, Range;
    assert b[off..off + 4] == b[off..off + 2] + b[off + 2..off + 4];
    Halves(b[off..off + 2], b[off + 2..off + 4]);
    TwoBytes(b, off);
    TwoBytes(b, off + 2);
    RangeValues();
  }

  lemma EightBytes(b: seq<byte>, off: nat)
    requires off + 8 <= |b|
    ensures FromLE(b[off..off + 8]) == Eight(b, off)
  {
    hide FromLE, Four, Range;
    assert b[off..off + 8] == b[off..off + 4] + b[off + 4..off + 8];
    Halves(b[off..off + 4], b[off + 4..off + 8]);
    FourBytes(b, off);
    FourBytes(b, off + 4);
    RangeValues();
  }

  /** Types of one byte: UINT8, INT8 and BOOL, for which any byte but 0 is true. */
  lemma ReadsOneByte(b: seq<byte>, off: nat)
    requires off < |b|
    ensures ReadValue(b, off, 0) == Ok(Parsed(Number(b[off]), off + 1))
    ensures ReadValue(b, off, 1) == Ok(Parsed(Number(b[off] as int - if b[off] < 0x80 then 0 else 0x100), off + 1))
    ensures ReadValue(b, off, 7) == Ok(Parsed(Boolean(b[off] != 0), off + 1))
  {
    BytesOf(b, off, 1);
    NoBytes(b, off + 1);
    RangeValues();
  }

  /** Types of two bytes: UINT16 and INT16. */
  lemma ReadsTwoBytes(b: seq<byte>, off: nat)
    requires off + 2 <= |b|
    ensures var n := Two(b, off);
            && ReadValue(b, off, 2) == Ok(Parsed(Number(n), off + 2))
            && ReadValue(b, off, 3) == Ok(Parsed(Number(if n < 0x8000 then n else n - 0x1_0000), off + 2))
  {
    hide FromLE;
    TwoBytes(b, off);
    RangeValues();
  }

  /** Types of four bytes: UINT32, INT32 and the bits of FLOAT32. */
  lemma ReadsFourBytes(b: seq<byte>, off: nat)
    requires off + 4 <= |b|
    ensures var n := Four(b, off);
            && ReadValue(b, off, 4) == Ok(Parsed(Number(n), off + 4))
            && ReadValue(b, off, 5) == Ok(Parsed(Number(if n < 0x8000_0000 then n else n - 0x1_0000_0000), off + 4))
            && ReadValue(b, off, 6) == Ok(Parsed(Float(4, n), off + 4))
  {
    hide FromLE;
    FourBytes(b, off);
    RangeValues();
  }

  /** Types of eight bytes: UINT64, INT64 and the bits of FLOAT64. */
  lemma ReadsEightBytes(b: seq<byte>, off: nat)
    requires off + 8 <= |b|
    ensures var n := Eight(b, off);
            && ReadValue(b, off, 10) == Ok(Parsed(BigInt(n), off + 8))
            && ReadValue(b, off, 11) == Ok(Parsed(
                 BigInt(if n < 0x8000_0000_0000_0000 then n else n - 0x1_0000_0000_0000_0000), off + 8))
            && ReadValue(b, off, 12) == Ok(Parsed(Float(8, n), off + 8))
  {
    hide FromLE, Eight;
    EightBytes(b, off);
    RangeValues();
  }

  /** A string: eight bytes of length, rounded to a double, then that many bytes. */
  lemma ReadsStringBytes(b: seq<byte>, off: nat)
    requires off + 8 <= |b|
    ensures var n := ToNumber(Eight(b, off));
            ReadValue(b, off, 8) ==
              if off + 8 + n > |b| then Err(Truncated(n, off + 8, |b| - (off + 8)))
              else Ok(Parsed(String(Decode(b[off + 8..off + 8 + n])), off + 8 + n))
  {
    hide FromLE, Eight, Decode, Rounded;
    EightBytes(b, off);
  }

  /** An array: four bytes for the type of the items, eight for their number, then the
      items one behind the other. No array of 2^32 or more items can be made. */
  lemma ReadsArrayBytes(b: seq<byte>, off: nat)
    requires off + 12 <= |b|
    ensures var n := ToNumber(Eight(b, off + 4));
            ReadValue(b, off, 9) ==
              if n >= 0x1_0000_0000 then Err(BadArrayLength(n))
              else
                match ReadItems(b, off + 12, Four(b, off), n, [])
                case Ok(p) => Ok(Parsed(List(p.value), p.next))
                case Err(e) => Err(e)
  {
    hide FromLE, Eight, ReadItems, Rounded;
    FourBytes(b, off);
    EightBytes(b, off + 4);
  }

  /** Where a value is cut off, the error says what was needed, where, and what is left;
      and there are no types but the thirteen. */
  lemma RejectedValues(b: seq<byte>, off: nat, code: nat)
    requires off <= |b|
    ensures |b| < off + 1 && (code == 0 || code == 1 || code == 7) ==>
              ReadValue(b, off, code) == Err(Truncated(1, off, |b| - off))
    ensures |b| < off + 2 && (code == 2 || code == 3) ==>
              ReadValue(b, off, code) == Err(Truncated(2, off, |b| - off))
    ensures |b| < off + 4 && (code == 4 || code == 5 || code == 6 || code == 9) ==>
              ReadValue(b, off, code) == Err(Truncated(4, off, |b| - off))
    ensures |b| < off + 8 && (code == 8 || code == 10 || code == 11 || code == 12) ==>
              ReadValue(b, off, code) == Err(Truncated(8, off, |b| - off))
    ensures off + 4 <= |b| < off + 12 && code == 9 ==>
              ReadValue(b, off, code) == Err(Truncated(8, off + 4, |b| - (off + 4)))
    ensures code > 12 ==> ReadValue(b, off, code) == Err(UnknownType(code, off))
  {
    hide FromLE, Decode, Rounded;
  }

  // ------------------------------------------------------------ truncation

  /** `b` and `c` have the same first `n` bytes. */
  predicate Agree(b: seq<byte>, c: seq<byte>, n: nat) {
    n <= |b| && n <= |c| && b[..n] == c[..n]
  }

  lemma AgreeSlice(b: seq<byte>, c: seq<byte>, n: nat, lo: nat, hi: nat)
    requires Agree(b, c, n) && lo <= hi <= n
    ensures b[lo..hi] == c[lo..hi]
  {
    assert b[lo..hi] == b[..n][lo..hi];
    assert c[lo..hi] == c[..n][lo..hi];
  }

  lemma UnsignedIsLocal(b: seq<byte>, c: seq<byte>, n: nat, off: nat, width: nat)
    requires Agree(b, c, n) && off + width <= n
    ensures ReadUnsigned(b, off, width) == ReadUnsigned(c, off, width)
  {
    AgreeSlice(b, c, n, off, off + width);
  }

  lemma StringIsLocal(b: seq<byte>, c: seq<byte>, n: nat, off: nat)
    requires Agree(b, c, n) && off <= |b|
    requires ReadString(b, off).Ok? && ReadString(b, off).value.next <= n
    ensures ReadString(b, off) == ReadString(c, off)
  {
    hide Decode;
    UnsignedIsLocal(b, c, n, off, 8);
    AgreeSlice(b, c, n, off + 8, ReadString(b, off).value.next);
  }

  /** A successful read depends only on the bytes it went over. */
  lemma {:induction false} ValueIsLocal(b: seq<byte>, c: seq<byte>, n: nat, off: nat, code: nat)
    requires Agree(b, c, n) && off <= |b|
    requires ReadValue(b, off, code).Ok? && ReadValue(b, off, code).value.next <= n
    ensures ReadValue(b, off, code) == ReadValue(c, off, code)
    decreases |b| - off, 0, 0
  {
    hide Decode;
    if Width(code).Some? {
      UnsignedIsLocal(b, c, n, off, Width(code).value);
    } else if code == STRING {
      StringIsLocal(b, c, n, off);
    } else if code == ARRAY {
      UnsignedIsLocal(b, c, n, off, 4);
      UnsignedIsLocal(b, c, n, off + 4, 8);
      var elem := ReadUnsigned(b, off, 4).value.value;
      var count := ToNumber(ReadUnsigned(b, off + 4, 8).value.value);
      ItemsAreLocal(b, c, n, off + 12, elem, count, []);
    }
  }

  lemma {:induction false} ItemsAreLocal(b: seq<byte>, c: seq<byte>, n: nat, off: nat,
                                         code: nat, count: nat, done: seq<Value>)
    requires Agree(b, c, n) && off <= |b|
    requires ReadItems(b, off, code, count, done).Ok? && ReadItems(b, off, code, count, done).value.next <= n
    ensures off <= |c| && ReadItems(b, off, code, count, done) == ReadItems(c, off, code, count, done)
    decreases |b| - off, 1, count
  {
    hide Decode;
    if count > 0 {
      var p := ReadValue(b, off, code).value;
      ItemsAreLocal(b, c, n, p.next, code, count - 1, done + [p.value]);
      ValueIsLocal(b, c, n, off, code);
    }
  }

  lemma EntryIsLocal(b: seq<byte>, c: seq<byte>, n: nat, off: nat)
    requires Agree(b, c, n) && off <= |b|
    requires ReadEntry(b, off).Ok? && ReadEntry(b, off).value.next <= n
    ensures ReadEntry(b, off) == ReadEntry(c, off)
  {
    hide Decode;
    var key := ReadString(b, off).value;
    var code := ReadUnsigned(b, key.next, 4).value;
    StringIsLocal(b, c, n, off);
    UnsignedIsLocal(b, c, n, key.next, 4);
    ValueIsLocal(b, c, n, code.next, code.value);
  }

  lemma {:induction false} EntriesAreLocal(b: seq<byte>, c: seq<byte>, n: nat, off: nat, count: nat, done: seq<Pair>)
    requires Agree(b, c, n) && off <= |b|
    requires ReadEntries(b, off, count, done).Ok? && ReadEntries(b, off, count, done).value.next <= n
    ensures off <= |c| && ReadEntries(b, off, count, done) == ReadEntries(c, off, count, done)
    decreases count
  {
    hide ReadEntry;
    if count > 0 {
      var p := ReadEntry(b, off).value;
      EntriesAreLocal(b, c, n, p.next, count - 1, done + [p.value]);
      EntryIsLocal(b, c, n, off);
    }
  }

  lemma FileIsLocal(b: seq<byte>, c: seq<byte>)
    requires ReadFile(b).Ok? && Agree(b, c, ReadFile(b).value.next)
    ensures ReadFile(b) == ReadFile(c)
  {
    hide Decode;
    var n := ReadFile(b).value.next;
    var count := ToNumber(ReadUnsigned(b, 16, 8).value.value);
    assert 24 <= n;
    assert b[..4] == c[..4] by { AgreeSlice(b, c, n, 0, 4); }
    assert b[0] == b[..4][0] && b[1] == b[..4][1] && b[2] == b[..4][2] && b[3] == b[..4][3];
    assert c[0] == c[..4][0] && c[1] == c[..4][1] && c[2] == c[..4][2] && c[3] == c[..4][3];
    UnsignedIsLocal(b, c, n, 4, 4);
    UnsignedIsLocal(b, c, n, 8, 8);
    UnsignedIsLocal(b, c, n, 16, 8);
    EntriesAreLocal(b, c, n, 24, count, []);
  }

  /** A well-formed file cut anywhere before the end of its key/value section is
      rejected, never read in part. */
  lemma CutIsRejected(f: File, n: nat)
    requires FileOk(f) && n < |LayFile(f)|
    ensures ReadFile(LayFile(f)[..n]).Err?
  {
    hide Decode;
    var full := LayFile(f);
    var cut := full[..n];
    assert full + [] == full;
    FileRoundTrip(f, []);
    if ReadFile(cut).Ok? {
      var next := ReadFile(cut).value.next;
      assert cut[..next] == full[..next];
      FileIsLocal(cut, full);
    }
  }

  // ------------------------------------------------------------ the code

  /** The outcome of a read without the offset behind it. */
  function Bare<T>(r: Outcome<T>): Result<T, Error> {
    match r
    case Ok(p) => Ok(p.value)
    case Err(e) => Err(e)
  }

  /** The reader: a byte buffer and the cursor that every read advances. A failed read
      leaves the cursor somewhere inside the buffer; the source throws and is done. */
  class Reader {
    const buf: seq<byte>
    var off: nat

    constructor (buf: seq<byte>)
      ensures this.buf == buf && off == 0
    {
      this.buf := buf;
      off := 0;
    }

    predicate Valid()
      reads this
    {
      off <= |buf|
    }

    /** `r` was read and the cursor stands where the specification says. */
    ghost predicate Moved<T>(r: Result<T, Error>, spec: Outcome<T>)
      reads this
    {
      r == Bare(spec) && (spec.Ok? ==> off == spec.value.next)
    }

    method Need(n: nat) returns (e: Option<Error>)
      requires Valid()
      ensures e.Some? <==> off + n > |buf|
      ensures e.Some? ==> e.value == Truncated(n, off, |buf| - off)
    {
      if off + n > |buf| {
        return Some(Truncated(n, off, |buf| - off));
      }
      return None;
    }

    /** The unsigned little-endian readers `u8`, `u16`, `u32` and `u64`. */
    method Unsigned(width: nat) returns (r: Result<nat, Error>)
      requires Valid()
      modifies this`off
      ensures Valid() && Moved(r, ReadUnsigned(buf, old(off), width))
    {
      var e := Need(width);
      if e.Some? {
        return Err(e.value);
      }
      var v := FromLE(buf[off..off + width]);
      off := off + width;
      return Ok(v);
    }

    method Str() returns (r: Result<Text, Error>)
      requires Valid()
      modifies this`off
      ensures Valid() && Moved(r, ReadString(buf, old(off)))
    {
      hide Decode;
      var raw := Unsigned(8);
      if raw.Err? {
        return Err(raw.error);
      }
      var n := ToNumber(raw.value);
      var e := Need(n);
      if e.Some? {
        return Err(e.value);
      }
      var s := Decode(buf[off..off + n]);
      off := off + n;
      return Ok(s);
    }

    /** Terminates on every buffer: each value takes at least one of the remaining bytes. */
    method NextValue(code: nat) returns (r: Result<Value, Error>)
      requires Valid()
      modifies this`off
      ensures Valid() && Moved(r, ReadValue(buf, old(off), code))
      decreases |buf| - off
    {
      hide Decode;
      if Width(code).Some? {
        var n := Unsigned(Width(code).value);
        return if n.Err? then Err(n.error) else Ok(Interpret(code, n.value));
      } else if code == STRING {
        var s := Str();
        return if s.Err? then Err(s.error) else Ok(String(s.value));
      } else if code == ARRAY {
        var elem := Unsigned(4);
        if elem.Err? {
          return Err(elem.error);
        }
        var count := Unsigned(8);
        if count.Err? {
          return Err(count.error);
        }
        var n := ToNumber(count.value);
        if n >= TWO32 {
          return Err(BadArrayLength(n));
        }
        ghost var start := off;
        var out: seq<Value> := [];
        for i := 0 to n
          invariant Valid() && start <= off && old(off) < start
          invariant ReadItems(buf, start, elem.value, n, []) == ReadItems(buf, off, elem.value, n - i, out)
        {
          var v := NextValue(elem.value);
          if v.Err? {
            return Err(v.error);
          }
          out := out + [v.value];
        }
        return Ok(List(out));
      } else {
        return Err(UnknownType(code, off));
      }
    }

    method Entries(n: nat) returns (r: Result<map<Text, Value>, Error>)
      requires Valid()
      modifies this`off
      ensures Valid()
      ensures var spec := ReadEntries(buf, old(off), n, []);
              match spec
              case Ok(p) => r == Ok(Store(p.value)) && off == p.next
              case Err(e) => r == Err(e)
    {
      hide Decode, ReadString, ReadValue, ReadUnsigned;
      var metadata: map<Text, Value> := map[];
      ghost var done: seq<Pair> := [];
      for i := 0 to n
        invariant Valid()
        invariant ReadEntries(buf, old(off), n, []) == ReadEntries(buf, off, n - i, done)
        invariant metadata == Store(done)
      {
        var key := Str();
        if key.Err? {
          return Err(key.error);
        }
        var code := Unsigned(4);
        if code.Err? {
          return Err(code.error);
        }
        var v := NextValue(code.value);
        if v.Err? {
          return Err(v.error);
        }
        metadata := metadata[key.value := v.value];
        assert (done + [(key.value, v.value)])[..|done|] == done;
        done := done + [(key.value, v.value)];
      }
      return Ok(metadata);
    }

    /** Reading a whole file from the start of the buffer. */
    method ReadGguf() returns (r: Result<Metadata, Error>)
      requires off == 0
      modifies this`off
      ensures r == Bare(ReadFile(buf))
    {
      if !MagicFits(buf) {
        return Err(NotGguf);
      }
      off := 4;
      var version := Unsigned(4);
      if version.Err? {
        return Err(version.error);
      }
      var tensors := Unsigned(8);
      if tensors.Err? {
        return Err(tensors.error);
      }
      var count := Unsigned(8);
      if count.Err? {
        return Err(count.error);
      }
      var entries := Entries(ToNumber(count.value));
      if entries.Err? {
        return Err(entries.error);
      }
      return Ok(Metadata(version.value, ToNumber(tensors.value), entries.value));
    }
  }
}
