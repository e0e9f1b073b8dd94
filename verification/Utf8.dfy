/** UTF-8 as the runtime of the scripts encodes and decodes it: encoding of Unicode
    scalar values, and decoding that replaces every maximal ill-formed part by U+FFFD
    (sections 3 and 4 of RFC 3629; the replacement policy is that of the WHATWG
    Encoding Standard, section "utf-8 decoder"). */
module Utf8 {
  import opened Basics

  type scalar = c: int | 0 <= c < 0xD800 || 0xE000 <= c < 0x110000

  type Text = seq<scalar>

  const REPLACEMENT: scalar := 0xFFFD

  function EncodeOne(c: scalar): (b: seq<byte>)
    ensures 1 <= |b| <= 4
  {
    if c < 0x80 then [c]
    else if c < 0x800 then [0xC0 + c / 64, 0x80 + c % 64]
    else if c < 0x10000 then [0xE0 + c / 4096, 0x80 + c / 64 % 64, 0x80 + c % 64]
    else [0xF0 + c / 262144, 0x80 + c / 4096 % 64, 0x80 + c / 64 % 64, 0x80 + c % 64]
  }

  function Encode(t: Text): seq<byte> {
    if t == [] then [] else EncodeOne(t[0]) + Encode(t[1..])
  }

  /** One decoding step: a scalar value, the number of bytes it used, and whether
      those bytes were well formed. */
  datatype Unit = Unit(value: scalar, length: nat, valid: bool)

  predicate IsContinuation(b: byte) {
    0x80 <= b < 0xC0
  }

  /** Range of the second byte after lead byte `b0`; it rules out overlong forms,
      surrogates and values above U+10FFFF. */
  predicate SecondByteFits(b0: byte, b1: byte) {
    if b0 == 0xE0 then 0xA0 <= b1 < 0xC0
    else if b0 == 0xED then 0x80 <= b1 < 0xA0
    else if b0 == 0xF0 then 0x90 <= b1 < 0xC0
    else if b0 == 0xF4 then 0x80 <= b1 < 0x90
    else IsContinuation(b1)
  }

  /** The six payload bits of a continuation byte. */
  function Payload(b: byte): int {
    b - 0x80
  }

  function Bad(n: nat): Unit {
    Unit(REPLACEMENT, n, false)
  }

  function Next(b: seq<byte>): (u: Unit)
    requires b != []
    ensures 1 <= u.length <= |b|
    ensures !u.valid ==> u.value == REPLACEMENT
  {
    var b0: int := b[0];
    if b0 < 0x80 then Unit(b0, 1, true)
    else if b0 < 0xC2 || b0 > 0xF4 then Bad(1)
    else if |b| == 1 || !SecondByteFits(b0, b[1]) then Bad(1)
    else if b0 < 0xE0 then Unit((b0 - 0xC0) * 64 + Payload(b[1]), 2, true)
    else if |b| == 2 || !IsContinuation(b[2]) then Bad(2)
    else if b0 < 0xF0 then
      Unit((b0 - 0xE0) * 4096 + Payload(b[1]) * 64 + Payload(b[2]), 3, true)
    else if |b| == 3 || !IsContinuation(b[3]) then Bad(3)
    else
      Unit((b0 - 0xF0) * 262144 + Payload(b[1]) * 4096 + Payload(b[2]) * 64 + Payload(b[3]), 4, true)
  }

  function Decode(b: seq<byte>): Text {
    if b == [] then [] else [Next(b).value] + Decode(b[Next(b).length..])
  }

  lemma Split64(a: int, x: int)
    requires 0 <= a && 0 <= x < 64
    ensures (a * 64 + x) / 64 == a && (a * 64 + x) % 64 == x
  {
  }

  lemma NextOfEncoded(c: scalar, rest: seq<byte>)
    ensures Next(EncodeOne(c) + rest) == Unit(c, |EncodeOne(c)|, true)
  {
    var b := EncodeOne(c) + rest;
    assert forall i :: 0 <= i < |EncodeOne(c)| ==> b[i] == EncodeOne(c)[i];
    assert c == c / 64 * 64 + c % 64;
    assert c / 64 == c / 4096 * 64 + c / 64 % 64;
    assert c / 4096 == c / 262144 * 64 + c / 4096 % 64;
  }

  lemma EncodedOfNext(b: seq<byte>)
    requires b != [] && Next(b).valid
    ensures EncodeOne(Next(b).value) == b[..Next(b).length]
  {
    if Next(b).length == 2 {
      Split64(b[0] as int - 0xC0, Payload(b[1]));
    } else if Next(b).length == 3 {
      EncodedOfThree(b);
    } else if Next(b).length == 4 {
      EncodedOfFour(b);
    }
  }

  lemma EncodedOfThree(b: seq<byte>)
    requires b != [] && Next(b).valid && Next(b).length == 3
    ensures EncodeOne(Next(b).value) == b[..3]
  {
    var a := (b[0] as int - 0xE0) * 64 + Payload(b[1]);
    Split64(a, Payload(b[2]));
    Split64(b[0] as int - 0xE0, Payload(b[1]));
    assert Next(b).value == a * 64 + Payload(b[2]);
    assert Next(b).value / 4096 == a / 64;
  }

  lemma EncodedOfFour(b: seq<byte>)
    requires b != [] && Next(b).valid && Next(b).length == 4
    ensures EncodeOne(Next(b).value) == b[..4]
  {
    var a1 := (b[0] as int - 0xF0) * 64 + Payload(b[1]);
    var a2 := a1 * 64 + Payload(b[2]);
    var v := Next(b).value;
    Split64(a2, Payload(b[3]));
    Split64(a1, Payload(b[2]));
    Split64(b[0] as int - 0xF0, Payload(b[1]));
    assert v == a2 * 64 + Payload(b[3]);
    assert v / 4096 == a2 / 64;
    assert v / 262144 == a1 / 64;
  }

  lemma DecodeFirst(b: seq<byte>, u: Unit)
    requires b != [] && Next(b) == u
    ensures Decode(b) == [u.value] + Decode(b[u.length..])
  {
  }

  lemma EncodeFirst(c: scalar, t: Text)
    ensures Encode([c] + t) == EncodeOne(c) + Encode(t)
  {
    assert ([c] + t)[1..] == t;
  }

  lemma DecodeStep(c: scalar, tail: seq<byte>)
    ensures Decode(EncodeOne(c) + tail) == [c] + Decode(tail)
  {
    hide Next, EncodeOne;
    var one := EncodeOne(c);
    NextOfEncoded(c, tail);
    DecodeFirst(one + tail, Unit(c, |one|, true));
    assert (one + tail)[|one|..] == tail;
  }

  /** Only the first byte of an encoded scalar value is no continuation byte. */
  lemma EncodeOneShape(c: scalar)
    ensures !IsContinuation(EncodeOne(c)[0])
    ensures forall j :: 1 <= j < |EncodeOne(c)| ==> IsContinuation(EncodeOne(c)[j])
  {
  }

  lemma BehindFirst(one: seq<byte>, rest: seq<byte>, k: nat)
    requires 0 < k < |one + rest| && !IsContinuation((one + rest)[k])
    requires forall j :: 1 <= j < |one| ==> IsContinuation(one[j])
    ensures k >= |one|
  {
    assert forall j :: 1 <= j < |one| ==> (one + rest)[j] == one[j];
  }

  /** In encoded text every other byte starts a character. */
  lemma {:induction false} CharacterAt(t: Text, k: nat) returns (i: nat)
    requires k < |Encode(t)| && !IsContinuation(Encode(t)[k])
    ensures i < |t| && Encode(t)[k..] == EncodeOne(t[i]) + Encode(t[i + 1..])
    decreases |t|
  {
    hide EncodeOne, IsContinuation;
    var one, rest := EncodeOne(t[0]), Encode(t[1..]);
    EncodeOneShape(t[0]);
    if k == 0 {
      i := 0;
      assert Encode(t)[0..] == Encode(t);
    } else {
      BehindFirst(one, rest, k);
      assert Encode(t)[k] == rest[k - |one|];
      var j := CharacterAt(t[1..], k - |one|);
      i := j + 1;
      assert Encode(t)[k..] == rest[k - |one|..];
      assert t[1..][j + 1..] == t[i + 1..];
    }
  }

  /** Decoding undoes encoding, whatever bytes follow. */
  lemma {:induction false} DecodeEncoded(t: Text, rest: seq<byte>)
    ensures Decode(Encode(t) + rest) == t + Decode(rest)
  {
    hide Next, EncodeOne;
    if t == [] {
      assert Encode(t) + rest == rest;
    } else {
      var tail := Encode(t[1..]) + rest;
      assert Encode(t) + rest == EncodeOne(t[0]) + tail;
      DecodeStep(t[0], tail);
      DecodeEncoded(t[1..], rest);
      assert t == [t[0]] + t[1..];
    }
  }

  lemma DecodeEncode(t: Text)
    ensures Decode(Encode(t)) == t
  {
    DecodeEncoded(t, []);
    assert Encode(t) + [] == Encode(t);
  }

  /** Bytes that decode without a replacement character are restored by encoding. */
  lemma {:induction false} EncodeDecode(b: seq<byte>)
    requires REPLACEMENT !in Decode(b)
    ensures Encode(Decode(b)) == b
    decreases |b|
  {
    hide Next, EncodeOne;
    if b != [] {
      var u := Next(b);
      var rest := b[u.length..];
      DecodeFirst(b, u);
      EncodeFirst(u.value, Decode(rest));
      assert u.value in Decode(b);
      assert u.valid;
      EncodedOfNext(b);
      assert forall c :: c in Decode(rest) ==> c in Decode(b);
      EncodeDecode(rest);
    }
  }

  /** The bit patterns of the encoding, length by length. */
  lemma EncodedForm(c: scalar)
    ensures var b := seq(|EncodeOne(c)|, i requires 0 <= i < |EncodeOne(c)| => EncodeOne(c)[i] as int);
            && (c < 0x80 ==> b == [c])
            && (0x80 <= c < 0x800 ==>
                  |b| == 2 && 0xC2 <= b[0] <= 0xDF && 0x80 <= b[1] <= 0xBF
                  && c == (b[0] - 0xC0) * 64 + (b[1] - 0x80))
            && (0x800 <= c < 0x10000 ==>
                  |b| == 3 && 0xE0 <= b[0] <= 0xEF && 0x80 <= b[1] <= 0xBF && 0x80 <= b[2] <= 0xBF
                  && c == (b[0] - 0xE0) * 4096 + (b[1] - 0x80) * 64 + (b[2] - 0x80))
            && (0x10000 <= c ==>
                  |b| == 4 && 0xF0 <= b[0] <= 0xF4 && 0x80 <= b[1] <= 0xBF && 0x80 <= b[2] <= 0xBF && 0x80 <= b[3] <= 0xBF
                  && c == (b[0] - 0xF0) * 262144 + (b[1] - 0x80) * 4096 + (b[2] - 0x80) * 64 + (b[3] - 0x80))
  {
    assert c == c / 64 * 64 + c % 64;
    assert c / 64 == c / 4096 * 64 + c / 64 % 64;
    assert c / 4096 == c / 262144 * 64 + c / 4096 % 64;
  }

  /** The first `k` bytes of the encoding of `c` start `b`. */
  predicate Shares(b: seq<byte>, c: scalar, k: nat) {
    k <= |b| && k <= |EncodeOne(c)| && b[..k] == EncodeOne(c)[..k]
  }

  /** The part replaced by one U+FFFD is as long as possible: no encoding has more of its
      bytes in common with what is there. */
  lemma BadPartIsMaximal(b: seq<byte>, c: scalar, k: nat)
    requires b != [] && !Next(b).valid && Shares(b, c, k)
    ensures k <= Next(b).length
  {
    hide EncodeOne;
    var e := EncodeOne(c);
    NextOfEncoded(c, []);
    assert e + [] == e;
    assert forall i :: 0 <= i < k ==> b[i] == b[..k][i] == e[i];
  }

  /** It is a single byte or starts the encoding of some scalar value. */
  lemma BadPartIsBegun(b: seq<byte>) returns (c: scalar)
    requires b != [] && !Next(b).valid && Next(b).length > 1
    ensures Shares(b, c, Next(b).length) && Next(b).length < |EncodeOne(c)|
  {
    hide EncodeOne;
    var n := Next(b).length;
    var full := b[..n] + if n == 2 && b[0] >= 0xF0 then [0x80, 0x80] else [0x80];
    assert n == 3 ==> full == [b[0], b[1], b[2], 0x80];
    assert n == 2 ==> full == if b[0] >= 0xF0 then [b[0], b[1], 0x80, 0x80] else [b[0], b[1], 0x80];
    assert Next(full).valid && Next(full).length == |full|;
    EncodedOfNext(full);
    c := Next(full).value;
    assert full[..n] == b[..n] && full[..|full|] == full;
  }
}
