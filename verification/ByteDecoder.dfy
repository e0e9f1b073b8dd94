/** The byte-level alphabet of GPT-2 vocabularies: a bijection between the 256 bytes
    and 256 printable symbols, and the token decoder built on its inverse. */
module ByteDecoder {
  import opened Basics
  import opened Utf8

  /** Printable bytes that stand for themselves. */
  predicate IsKept(b: int) {
    0x21 <= b <= 0x7E || 0xA1 <= b <= 0xAC || 0xAE <= b <= 0xFF
  }

  /** How many bytes below `b` are not kept. */
  function ShiftedBelow(b: int): nat
    requires 0 <= b <= 256
  {
    if b <= 0x21 then b
    else if b <= 0x7F then 33
    else if b <= 0xA1 then 33 + (b - 0x7F)
    else if b <= 0xAD then 67
    else 68
  }

  /** The symbol of a byte: itself, or the next free code point from U+0100 on. */
  function ByteToChar(b: byte): scalar {
    if IsKept(b) then b else 256 + ShiftedBelow(b)
  }

  /** The byte of a symbol, if it is one of the 256. */
  function CharToByte(c: scalar): Option<byte> {
    if IsKept(c) then Some(c)
    else if 256 <= c < 289 then Some(c - 256)
    else if 289 <= c < 323 then Some(c - 289 + 0x7F)
    else if c == 323 then Some(0xAD)
    else None
  }

  /** The alphabet in numbers: printable bytes stand for themselves, the others follow each
      other from U+0100 on. */
  lemma SymbolTable(b: byte)
    ensures 0x21 <= b <= 0x7E || 0xA1 <= b <= 0xAC || 0xAE <= b <= 0xFF ==> ByteToChar(b) == b as int
    ensures 0x00 <= b <= 0x20 ==> ByteToChar(b) == 0x100 + b as int
    ensures 0x7F <= b <= 0xA0 ==> ByteToChar(b) == 0x121 + (b as int - 0x7F)
    ensures b == 0xAD ==> ByteToChar(b) == 0x143
  {
  }

  /** Inverse in both directions: every byte has a symbol of its own. */
  lemma SymbolsAreABijection(b: byte, c: scalar)
    ensures CharToByte(c) == Some(b) <==> ByteToChar(b) == c
  {
  }

  lemma KeptAreListed(bs: seq<int>)
    requires bs == seq(0x5E, k => 0x21 + k) + seq(0xC, k => 0xA1 + k) + seq(0x52, k => 0xAE + k)
    ensures forall b :: b in bs <==> IsKept(b)
  {
    forall b | IsKept(b) ensures b in bs {
      var at := if b <= 0x7E then b - 0x21 else if b <= 0xAC then 0x5E + (b - 0xA1) else 0x6A + (b - 0xAE);
      assert bs[at] == b;
    }
  }

  /** The table of 256 symbols, built by the three kept ranges, the shifted rest and
      the final fill. */
  method BuildByteToChar() returns (table: array<scalar>)
    ensures fresh(table) && table.Length == 256
    ensures forall b: byte :: table[b] == ByteToChar(b)
  {
    var bs: seq<int> := [];
    for i := 0x21 to 0x7F
      invariant bs == seq(i - 0x21, k => 0x21 + k)
    {
      bs := bs + [i];
    }
    var ascii := bs;
    for i := 0xA1 to 0xAD
      invariant bs == ascii + seq(i - 0xA1, k => 0xA1 + k)
    {
      bs := bs + [i];
    }
    var low := bs;
    for i := 0xAE to 0x100
      invariant bs == low + seq(i - 0xAE, k => 0xAE + k)
    {
      bs := bs + [i];
    }
    KeptAreListed(bs);
    var kept := bs;
    var cs := bs;
    var n := 0;
    for b := 0 to 256
      invariant n == ShiftedBelow(b)
      invariant |bs| == |cs| && kept <= bs
      invariant forall k :: 0 <= k < |bs| ==> 0 <= bs[k] < 256 && cs[k] == ByteToChar(bs[k])
      invariant forall x :: 0 <= x < 256 && (x < b || IsKept(x)) ==> x in bs
    {
      if b !in kept {
        bs := bs + [b];
        cs := cs + [256 + n];
        n := n + 1;
      }
    }
    table := new scalar[256];
    for i := 0 to |bs|
      invariant forall k :: 0 <= k < i ==> table[bs[k]] == ByteToChar(bs[k])
    {
      table[bs[i]] := cs[i];
    }
  }

  /** The inverse table, filled byte by byte. */
  method BuildCharToByte(table: array<scalar>) returns (m: map<scalar, byte>)
    requires table.Length == 256 && forall b: byte :: table[b] == ByteToChar(b)
    ensures forall c: scalar :: c in m <==> CharToByte(c).Some?
    ensures forall c: scalar :: c in m ==> CharToByte(c) == Some(m[c])
  {
    m := map[];
    for b := 0 to 256
      invariant forall c: scalar :: c in m <==> CharToByte(c).Some? && CharToByte(c).value < b
      invariant forall c: scalar :: c in m ==> CharToByte(c) == Some(m[c])
    {
      SymbolsAreABijection(b, table[b]);
      forall c: scalar ensures CharToByte(c) == Some(b) <==> c == table[b] {
        SymbolsAreABijection(b, c);
      }
      m := m[table[b] := b];
    }
  }

  // ------------------------------------------------------------ tokens

  /** A byte string written in the byte-level alphabet. */
  function Symbols(bytes: seq<byte>): (t: Text)
    ensures |t| == |bytes|
  {
    seq(|bytes|, i requires 0 <= i < |bytes| => ByteToChar(bytes[i]))
  }

  /** Reading symbols back through the inverse table. */
  function FromSymbols(t: Text): Option<seq<byte>> {
    if t == [] then Some([])
    else
      var rest := FromSymbols(t[1..]);
      if CharToByte(t[0]).None? || rest.None? then None
      else Some([CharToByte(t[0]).value] + rest.value)
  }

  lemma {:induction false} SymbolsRoundTrip(bytes: seq<byte>)
    ensures FromSymbols(Symbols(bytes)) == Some(bytes)
  {
    if bytes != [] {
      SymbolsAreABijection(bytes[0], Symbols(bytes)[0]);
      SymbolsRoundTrip(bytes[1..]);
      assert Symbols(bytes)[1..] == Symbols(bytes[1..]);
      assert bytes == [bytes[0]] + bytes[1..];
    }
  }

  /** What one character of a token contributes: the guard lets only code points
      below U+0100 go through the inverse table. */
  function CharBytes(c: scalar): (b: seq<byte>) {
    if c < 0x100 && CharToByte(c).Some? then [CharToByte(c).value] else EncodeOne(c)
  }

  function TokenBytes(tok: Text): seq<byte> {
    if tok == [] then [] else CharBytes(tok[0]) + TokenBytes(tok[1..])
  }

  datatype Decoded = Decoded(text: Text, bytes: seq<byte>, byteLevel: bool)

  function DecodeToken(tok: Text): Decoded {
    var bytes := TokenBytes(tok);
    var text := Decode(bytes);
    if REPLACEMENT in text then Decoded(tok, Encode(tok), false)
    else Decoded(text, bytes, true)
  }

  lemma {:induction false} TokenBytesNext(tok: Text, i: nat)
    requires i < |tok|
    ensures TokenBytes(tok[..i + 1]) == TokenBytes(tok[..i]) + CharBytes(tok[i])
  {
    if i == 0 {
      assert tok[..1][1..] == [];
    } else {
      TokenBytesNext(tok[1..], i - 1);
      assert tok[..i + 1][1..] == tok[1..][..i];
      assert tok[..i][1..] == tok[1..][..i - 1];
    }
  }

  method DecodeByteLevelToken(tok: Text, charToByte: map<scalar, byte>) returns (d: Decoded)
    requires forall c: scalar :: c in charToByte <==> CharToByte(c).Some?
    requires forall c: scalar :: c in charToByte ==> CharToByte(c) == Some(charToByte[c])
    ensures d == DecodeToken(tok)
  {
    var bytes: seq<byte> := [];
    for i := 0 to |tok|
      invariant bytes == TokenBytes(tok[..i])
    {
      TokenBytesNext(tok, i);
      var c := tok[i];
      if c < 0x100 && c in charToByte {
        bytes := bytes + [charToByte[c]];
      } else {
        bytes := bytes + EncodeOne(c);
      }
    }
    assert tok[..|tok|] == tok;
    var text := Decode(bytes);
    if REPLACEMENT in text {
      return Decoded(tok, Encode(tok), false);
    }
    return Decoded(text, bytes, true);
  }

  // ------------------------------------------------------------ what decoding does

  /** Printable code points of the upper half, the only ones decoding rewrites. */
  predicate IsHighPrintable(c: scalar) {
    0xA1 <= c <= 0xAC || 0xAE <= c <= 0xFF
  }

  predicate HasHighPrintable(t: Text) {
    exists c :: c in t && IsHighPrintable(c)
  }

  /** A high printable is one byte to the decoder and two bytes in UTF-8; every
      other character contributes its UTF-8 form. */
  lemma {:induction false} TokenBytesAgainstUtf8(tok: Text)
    ensures !HasHighPrintable(tok) ==> TokenBytes(tok) == Encode(tok)
    ensures HasHighPrintable(tok) ==> |TokenBytes(tok)| < |Encode(tok)|
    ensures |TokenBytes(tok)| <= |Encode(tok)|
  {
    if tok != [] {
      TokenBytesAgainstUtf8(tok[1..]);
      assert tok == [tok[0]] + tok[1..];
      assert HasHighPrintable(tok) <==> IsHighPrintable(tok[0]) || HasHighPrintable(tok[1..]);
    }
  }

  /** Trying to decode leaves a token's text as it is exactly when the token has no
      code point in A1-AC or AE-FF, or the bytes it stands for are not valid text. */
  lemma DecodingKeepsTextExactlyWhen(tok: Text)
    ensures DecodeToken(tok).text == tok <==>
            !HasHighPrintable(tok) || REPLACEMENT in Decode(TokenBytes(tok))
  {
    TokenBytesAgainstUtf8(tok);
    DecodeEncode(tok);
    if REPLACEMENT !in Decode(TokenBytes(tok)) {
      EncodeDecode(TokenBytes(tok));
    }
  }

  lemma SymbolsOfKept(bytes: seq<byte>)
    requires forall i :: 0 <= i < |bytes| ==> IsKept(bytes[i])
    ensures HasHighPrintable(Symbols(bytes)) <==> exists i :: 0 <= i < |bytes| && bytes[i] >= 0x80
  {
    var t := Symbols(bytes);
    if i :| 0 <= i < |bytes| && bytes[i] >= 0x80 {
      assert t[i] in t && IsHighPrintable(t[i]);
    }
    if HasHighPrintable(t) {
      var c :| c in t && IsHighPrintable(c);
      var i :| 0 <= i < |t| && t[i] == c;
      assert bytes[i] >= 0x80;
    }
  }

  /** The family on which the attempt is not safe: the symbols of any valid text of kept
      bytes are taken for that text, and are changed if one of the bytes is not ASCII. */
  lemma SymbolsOfTextAreChanged(bytes: seq<byte>)
    requires forall i :: 0 <= i < |bytes| ==> IsKept(bytes[i])
    requires REPLACEMENT !in Decode(bytes)
    ensures DecodeToken(Symbols(bytes)) == Decoded(Decode(bytes), bytes, true)
    ensures DecodeToken(Symbols(bytes)).text != Symbols(bytes) <==> exists i :: 0 <= i < |bytes| && bytes[i] >= 0x80
  {
    hide Decode, HasHighPrintable;
    DecoderUndoesAlphabetExactlyWhen(bytes);
    TokenBytesOfSymbols(bytes);
    DecodingKeepsTextExactlyWhen(Symbols(bytes));
    SymbolsOfKept(bytes);
  }

  /** The two-letter text U+00C3 U+00A9, not encoded at all, comes out as U+00E9. */
  lemma OrdinaryTextIsChanged()
    ensures DecodeToken([0xC3, 0xA9]) == Decoded([0xE9], [0xC3, 0xA9], true)
  {
    var bytes: seq<byte> := [0xC3, 0xA9];
    assert EncodeOne(0xE9) == bytes;
    DecodeEncode([0xE9]);
    assert Encode([0xE9]) == bytes by {
      EncodeFirst(0xE9, []);
      assert [0xE9] + [] == [0xE9 as scalar];
    }
    assert Symbols(bytes) == [0xC3, 0xA9];
    SymbolsOfTextAreChanged(bytes);
  }

  /** The "safe to try" claim in its precise form. */
  lemma SafeToTry(tok: Text)
    requires !HasHighPrintable(tok)
    ensures DecodeToken(tok) == Decoded(tok, Encode(tok), REPLACEMENT !in tok)
  {
    TokenBytesAgainstUtf8(tok);
    DecodeEncode(tok);
  }

  lemma {:induction false} TokenBytesOfSymbols(bytes: seq<byte>)
    ensures (forall i :: 0 <= i < |bytes| ==> IsKept(bytes[i])) ==> TokenBytes(Symbols(bytes)) == bytes
    ensures (exists i :: 0 <= i < |bytes| && !IsKept(bytes[i])) ==> |TokenBytes(Symbols(bytes))| > |bytes|
    ensures |TokenBytes(Symbols(bytes))| >= |bytes|
  {
    if bytes != [] {
      TokenBytesOfSymbols(bytes[1..]);
      assert Symbols(bytes)[1..] == Symbols(bytes[1..]);
      assert forall i :: 1 <= i < |bytes| ==> bytes[i] == bytes[1..][i - 1];
    }
  }

  /** The decoder undoes the byte-level alphabet exactly on valid text all of whose
      bytes are kept: its guard shuts out the 68 shifted symbols, space included. */
  lemma DecoderUndoesAlphabetExactlyWhen(bytes: seq<byte>)
    ensures DecodeToken(Symbols(bytes)) == Decoded(Decode(bytes), bytes, true) <==>
            (forall i :: 0 <= i < |bytes| ==> IsKept(bytes[i])) && REPLACEMENT !in Decode(bytes)
  {
    TokenBytesOfSymbols(bytes);
  }

  lemma {:induction false} TokenBytesConcat(s: Text, t: Text)
    ensures TokenBytes(s + t) == TokenBytes(s) + TokenBytes(t)
  {
    if s == [] {
      assert s + t == t;
    } else {
      assert (s + t)[1..] == s[1..] + t;
      TokenBytesConcat(s[1..], t);
    }
  }

  /** The guard never lets a code point from U+0100 on through the inverse table, so
      whatever surrounds it, such a character of a token is in the decoded text: each of
      the 68 shifted symbols stays. */
  lemma ShiftedSymbolsStay(tok: Text, i: nat)
    requires i < |tok| && tok[i] >= 0x100
    ensures tok[i] in DecodeToken(tok).text
  {
    hide Decode, Next, EncodeOne, Encode, IsContinuation;
    var c := tok[i];
    var front, back := TokenBytes(tok[..i]), TokenBytes(tok[i + 1..]);
    var bytes := TokenBytes(tok);
    assert tok == tok[..i] + ([c] + tok[i + 1..]);
    TokenBytesConcat(tok[..i], [c] + tok[i + 1..]);
    TokenBytesConcat([c], tok[i + 1..]);
    assert [c][1..] == [];
    assert TokenBytes([c]) == EncodeOne(c) + [];
    var k := |front|;
    assert bytes[k..] == EncodeOne(c) + back;
    var text := Decode(bytes);
    if REPLACEMENT !in text {
      EncodeDecode(bytes);
      EncodeOneShape(c);
      assert bytes[k] == EncodeOne(c)[0];
      var j := CharacterAt(text, k);
      NextOfEncoded(c, back);
      NextOfEncoded(text[j], Encode(text[j + 1..]));
      assert text[j] == c;
    }
  }

  /** A word after a space, as such vocabularies store it, keeps the shifted symbol
      instead of getting the space back. */
  lemma SpaceStaysShifted(word: seq<byte>)
    requires forall i :: 0 <= i < |word| ==> 0x21 <= word[i] <= 0x7E
    ensures var tok := Symbols([0x20] + word);
            && tok[0] == 0x120
            && DecodeToken(tok).text == tok
            && DecodeToken(tok).bytes != [0x20] + word
  {
    var bytes := [0x20] + word;
    assert bytes[0] == 0x20;
    assert forall i :: 1 <= i < |bytes| ==> bytes[i] == word[i - 1];
    assert !HasHighPrintable(Symbols(bytes));
    SafeToTry(Symbols(bytes));
    TokenBytesOfSymbols(bytes);
    TokenBytesAgainstUtf8(Symbols(bytes));
  }
}
