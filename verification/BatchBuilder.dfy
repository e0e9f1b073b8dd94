/** The builders of llama.cpp batches: the tokens of several sequences end to end in
    parallel arrays, and the decode wrapper that copies back one row of logits for
    each sequence. */
module BatchBuilder {
  import opened Basics

  type int32 = i: int | -0x8000_0000 <= i < 0x8000_0000

  /** A sequence as the caller passes it: a borrowed token array and a count. */
  datatype Sequence = Sequence(tokens: seq<int32>, nTokens: int32, seqId: int32, startPos: int32)

  /** One position of a batch. */
  datatype Cell = Cell(token: int32, pos: int32, seqId: int32, logits: bool)

  /** What C demands of the caller: the tokens exist and positions do not overflow. */
  predicate SequenceOk(s: Sequence) {
    s.nTokens > 0 ==> s.nTokens <= |s.tokens| && s.startPos + s.nTokens <= 0x8000_0000
  }

  predicate SequencesOk(ss: seq<Sequence>) {
    forall s :: 0 <= s < |ss| ==> SequenceOk(ss[s])
  }

  function Length(s: Sequence): (n: nat)
    ensures s.nTokens > 0 ==> n == s.nTokens
    ensures s.nTokens <= 0 ==> n == 0
  {
    if s.nTokens <= 0 then 0 else s.nTokens
  }

  function Cells(s: Sequence): (cells: seq<Cell>)
    requires SequenceOk(s)
    ensures |cells| == Length(s)
  {
    seq(Length(s), j requires 0 <= j < Length(s) =>
      Cell(s.tokens[j], s.startPos + j, s.seqId, j == Length(s) - 1))
  }

  /** The cells of all sequences end to end. */
  function Flat(ss: seq<Sequence>): seq<Cell>
    requires SequencesOk(ss)
  {
    if ss == [] then [] else Flat(ss[..|ss| - 1]) + Cells(ss[|ss| - 1])
  }

  /** Where sequence `s` starts: the lengths of those before it. */
  function Offset(ss: seq<Sequence>, s: nat): nat
    requires s <= |ss|
  {
    if s == 0 then 0 else Offset(ss, s - 1) + Length(ss[s - 1])
  }

  // ------------------------------------------------------------ properties

  lemma {:induction false} FlatLength(ss: seq<Sequence>)
    requires SequencesOk(ss)
    ensures |Flat(ss)| == Offset(ss, |ss|)
  {
    if ss != [] {
      var front := ss[..|ss| - 1];
      FlatLength(front);
      OffsetPrefix(ss, |ss| - 1, |ss| - 1);
    }
  }

  lemma {:induction false} OffsetPrefix(ss: seq<Sequence>, n: nat, s: nat)
    requires s <= n <= |ss|
    ensures Offset(ss[..n], s) == Offset(ss, s)
  {
    if s > 0 {
      OffsetPrefix(ss, n, s - 1);
    }
  }

  lemma OffsetSteps(ss: seq<Sequence>)
    ensures Offset(ss, 0) == 0
    ensures forall s :: 0 <= s < |ss| ==> Offset(ss, s + 1) == Offset(ss, s) + Length(ss[s])
  {
  }

  /** Nothing is in the batch exactly if every sequence is empty. */
  lemma {:induction false} NothingExactlyWhen(ss: seq<Sequence>, n: nat)
    requires n <= |ss|
    ensures Offset(ss, n) == 0 <==> forall s :: 0 <= s < n ==> ss[s].nTokens <= 0
  {
    if n > 0 {
      NothingExactlyWhen(ss, n - 1);
    }
  }

  lemma {:induction false} OffsetMonotone(ss: seq<Sequence>, s: nat, t: nat)
    requires s <= t <= |ss|
    ensures Offset(ss, s) <= Offset(ss, t)
    decreases t
  {
    if s < t {
      OffsetMonotone(ss, s, t - 1);
    }
  }

  /** Token `j` of sequence `s` sits at offset + j with its own sequence id and
      position; it asks for logits exactly if it is the last one of its sequence. */
  lemma {:induction false} CellOfSequence(ss: seq<Sequence>, s: nat, j: nat)
    requires SequencesOk(ss) && s < |ss| && j < Length(ss[s])
    ensures Offset(ss, s) + j < |Flat(ss)|
    ensures Flat(ss)[Offset(ss, s) + j]
         == Cell(ss[s].tokens[j], ss[s].startPos + j, ss[s].seqId, j == Length(ss[s]) - 1)
    decreases |ss|
  {
    var n := |ss| - 1;
    var front := ss[..n];
    FlatLength(front);
    OffsetPrefix(ss, n, n);
    if s < n {
      CellOfSequence(front, s, j);
      OffsetPrefix(ss, n, s);
    }
  }

  /** Every position belongs to one sequence. */
  lemma {:induction false} PositionOwner(ss: seq<Sequence>, i: nat) returns (s: nat, j: nat)
    requires SequencesOk(ss) && i < |Flat(ss)|
    ensures s < |ss| && j < Length(ss[s]) && i == Offset(ss, s) + j
    decreases |ss|
  {
    var n := |ss| - 1;
    var front := ss[..n];
    FlatLength(front);
    OffsetPrefix(ss, n, n);
    if i < |Flat(front)| {
      s, j := PositionOwner(front, i);
      OffsetPrefix(ss, n, s);
    } else {
      s, j := n, i - |Flat(front)|;
    }
  }

  /** Position `i` is the last token of the non-empty sequence `s`. */
  predicate IsLastToken(ss: seq<Sequence>, s: nat, i: nat) {
    s < |ss| && Length(ss[s]) > 0 && i == Offset(ss, s) + Length(ss[s]) - 1
  }

  /** Logits are asked for at the last token of each non-empty sequence and nowhere else. */
  lemma LogitsExactlyAtLastTokens(ss: seq<Sequence>, i: nat)
    requires SequencesOk(ss) && i < |Flat(ss)|
    ensures Flat(ss)[i].logits <==> exists s :: IsLastToken(ss, s, i)
  {
    hide Flat, Offset;
    var s, j := PositionOwner(ss, i);
    CellOfSequence(ss, s, j);
    if Flat(ss)[i].logits {
      assert IsLastToken(ss, s, i);
    }
    forall t: nat | IsLastToken(ss, t, i)
      ensures Flat(ss)[i].logits
    {
      CellOfSequence(ss, t, Length(ss[t]) - 1);
    }
  }

  function CountLogits(cells: seq<Cell>): nat {
    if cells == [] then 0 else CountLogits(cells[..|cells| - 1]) + if cells[|cells| - 1].logits then 1 else 0
  }

  function NonEmpty(ss: seq<Sequence>): (ne: seq<Sequence>)
    ensures SequencesOk(ss) ==> SequencesOk(ne)
  {
    if ss == [] then []
    else
      var last := ss[|ss| - 1];
      NonEmpty(ss[..|ss| - 1]) + if last.nTokens > 0 then [last] else []
  }

  lemma {:induction false} CountConcat(a: seq<Cell>, b: seq<Cell>)
    ensures CountLogits(a + b) == CountLogits(a) + CountLogits(b)
    decreases |b|
  {
    if b == [] {
      assert a + b == a;
    } else {
      CountConcat(a, b[..|b| - 1]);
      assert (a + b)[..|a + b| - 1] == a + b[..|b| - 1];
    }
  }

  lemma {:induction false} CountQuiet(cells: seq<Cell>)
    requires forall i :: 0 <= i < |cells| ==> !cells[i].logits
    ensures CountLogits(cells) == 0
  {
    if cells != [] {
      CountQuiet(cells[..|cells| - 1]);
    }
  }

  /** There are as many rows of logits as non-empty sequences. */
  lemma {:induction false} OneLogitPerSequence(ss: seq<Sequence>)
    requires SequencesOk(ss)
    ensures CountLogits(Flat(ss)) == |NonEmpty(ss)|
    decreases |ss|
  {
    if ss != [] {
      var cells := Cells(ss[|ss| - 1]);
      OneLogitPerSequence(ss[..|ss| - 1]);
      CountConcat(Flat(ss[..|ss| - 1]), cells);
      if cells != [] {
        CountQuiet(cells[..|cells| - 1]);
      }
    }
  }

  /** Leaving out empty sequences builds the same batch. */
  lemma {:induction false} EmptySequencesAddNothing(ss: seq<Sequence>)
    requires SequencesOk(ss)
    ensures Flat(NonEmpty(ss)) == Flat(ss)
    decreases |ss|
  {
    if ss != [] {
      var front, last := ss[..|ss| - 1], ss[|ss| - 1];
      EmptySequencesAddNothing(front);
      if last.nTokens > 0 {
        assert (NonEmpty(front) + [last])[..|NonEmpty(front)|] == NonEmpty(front);
      } else {
        assert NonEmpty(ss) == NonEmpty(front);
        assert Flat(ss) == Flat(front);
      }
    }
  }

  // ------------------------------------------------------------ the code

  /** A batch of llama.cpp: parallel arrays of a fixed capacity. */
  class Batch {
    const token: array<int32>
    const pos: array<int32>
    const nSeqId: array<int32>
    const seqId: array<int32>
    const logits: array<bool>
    var nTokens: int32

    /** Allocation; the arrays hold arbitrary values and no token counts yet. */
    constructor Init(capacity: nat)
      ensures nTokens == 0 && Valid() && token.Length == capacity
      ensures fresh(Arrays())
    {
      token := new int32[capacity];
      pos := new int32[capacity];
      nSeqId := new int32[capacity];
      seqId := new int32[capacity];
      logits := new bool[capacity];
      nTokens := 0;
    }

    predicate Valid() {
      && token.Length == pos.Length == nSeqId.Length == seqId.Length == logits.Length
      && pos != nSeqId && pos != seqId && pos != token && nSeqId != seqId && nSeqId != token && seqId != token
    }

    ghost function Arrays(): set<object> {
      {token, pos, nSeqId, seqId, logits}
    }

    function At(i: nat): Cell
      requires Valid() && i < token.Length
      reads token, pos, seqId, logits
    {
      Cell(token[i], pos[i], seqId[i], logits[i])
    }

    /** The first `n` positions, each assigned to one sequence, are these cells. */
    ghost predicate Holds(cells: seq<Cell>)
      requires Valid()
      reads token, pos, nSeqId, seqId, logits
    {
      |cells| <= token.Length && forall i :: 0 <= i < |cells| ==> At(i) == cells[i] && nSeqId[i] == 1
    }

    /** This position holds one token, assigned to one sequence. */
    predicate HoldsToken(i: nat, token: int32, pos: int32, seqId: int32, logits: bool)
      requires Valid()
      reads this.token, this.pos, nSeqId, this.seqId, this.logits
    {
      && i < this.token.Length && this.token[i] == token && this.pos[i] == pos
      && nSeqId[i] == 1 && this.seqId[i] == seqId && this.logits[i] == logits
    }

    method Put(i: nat, c: Cell)
      requires Valid() && i < token.Length
      modifies Arrays()
      ensures At(i) == c && nSeqId[i] == 1
      ensures forall k: nat :: k < token.Length && k != i ==> At(k) == old(At(k)) && nSeqId[k] == old(nSeqId[k])
    {
      token[i] := c.token;
      pos[i] := c.pos;
      nSeqId[i] := 1;
      seqId[i] := c.seqId;
      logits[i] := c.logits;
    }
  }

  method BuildBatchWithSeq(tokens: seq<int32>, nTokens: int32, seqId: int32, startPos: int32) returns (b: Batch)
    requires SequenceOk(Sequence(tokens, nTokens, seqId, startPos))
    ensures fresh(b) && b.Valid()
    ensures b.nTokens == (if nTokens > 0 then nTokens else 0) <= b.token.Length
    ensures forall i :: 0 <= i < nTokens ==>
              && b.token[i] == tokens[i] && b.pos[i] == startPos + i
              && b.nSeqId[i] == 1 && b.seqId[i] == seqId
              && (b.logits[i] <==> i == nTokens - 1)
    ensures b.Holds(Cells(Sequence(tokens, nTokens, seqId, startPos)))
  {
    if nTokens <= 0 {
      b := new Batch.Init(1);
      return;
    }
    ghost var cells := Cells(Sequence(tokens, nTokens, seqId, startPos));
    b := new Batch.Init(nTokens);
    for i := 0 to nTokens
      invariant b.nTokens == 0 && b.Valid() && b.token.Length == nTokens
      invariant fresh(b) && fresh(b.Arrays())
      invariant b.Holds(cells[..i])
    {
      b.Put(i, Cell(tokens[i], startPos + i, seqId, i == nTokens - 1));
    }
    assert cells[..nTokens] == cells;
    b.nTokens := nTokens;
    forall i | 0 <= i < nTokens
      ensures b.token[i] == tokens[i] && b.pos[i] == startPos + i && b.nSeqId[i] == 1
      ensures b.seqId[i] == seqId && (b.logits[i] <==> i == nTokens - 1)
    {
      assert b.At(i) == cells[i];
    }
  }

  /** Two passes: the lengths are summed, then the non-empty sequences are copied one
      behind the other. The sum must fit the counter, as in C. */
  method BuildBatchedBatch(ss: seq<Sequence>) returns (b: Batch)
    requires SequencesOk(ss) && Offset(ss, |ss|) < 0x8000_0000
    ensures fresh(b) && b.Valid()
    ensures b.nTokens == Offset(ss, |ss|) && b.nTokens == |Flat(ss)| && b.Holds(Flat(ss))
    ensures forall s, j :: 0 <= s < |ss| && 0 <= j < ss[s].nTokens ==>
              b.HoldsToken(Offset(ss, s) + j, ss[s].tokens[j], ss[s].startPos + j, ss[s].seqId, j == ss[s].nTokens - 1)
  {
    hide Flat, Cells, Offset;
    FlatLength(ss);
    OffsetSteps(ss);
    if |ss| == 0 {
      b := new Batch.Init(1);
      return;
    }
    var total := 0;
    for i := 0 to |ss|
      invariant total == Offset(ss, i)
    {
      if ss[i].nTokens <= 0 {
        continue;
      }
      total := total + ss[i].nTokens;
    }
    NothingExactlyWhen(ss, |ss|);
    if total == 0 {
      b := new Batch.Init(1);
      return;
    }
    b := new Batch.Init(total);
    var offset: int := 0;
    for s := 0 to |ss|
      invariant offset == Offset(ss, s) <= total
      invariant b.nTokens == 0 && b.Valid() && b.token.Length == total
      invariant fresh(b) && fresh(b.Arrays())
      invariant b.Holds(Flat(ss)[..offset])
    {
      OffsetMonotone(ss, s + 1, |ss|);
      if ss[s].nTokens <= 0 {
        continue;
      }
      Copy(b, ss, s, offset);
      offset := offset + ss[s].nTokens;
    }
    assert Flat(ss)[..total] == Flat(ss);
    b.nTokens := total;
    forall s, j | 0 <= s < |ss| && 0 <= j < ss[s].nTokens
      ensures b.HoldsToken(Offset(ss, s) + j, ss[s].tokens[j], ss[s].startPos + j, ss[s].seqId, j == ss[s].nTokens - 1)
    {
      CellOfSequence(ss, s, j);
      assert b.At(Offset(ss, s) + j) == Flat(ss)[Offset(ss, s) + j];
    }
  }

  /** The inner loop: one sequence is copied to its offset. */
  method Copy(b: Batch, ss: seq<Sequence>, s: nat, offset: nat)
    requires SequencesOk(ss) && s < |ss| && offset == Offset(ss, s)
    requires b.Valid() && offset + Length(ss[s]) <= b.token.Length == |Flat(ss)|
    requires b.Holds(Flat(ss)[..offset])
    modifies b.Arrays()
    ensures b.Holds(Flat(ss)[..offset + Length(ss[s])])
  {
    hide Flat, Offset;
    var n := ss[s].nTokens;
    for j := 0 to Length(ss[s])
      invariant b.Holds(Flat(ss)[..offset + j])
    {
      CellOfSequence(ss, s, j);
      b.Put(offset + j, Cell(ss[s].tokens[j], ss[s].startPos + j, ss[s].seqId, j == n - 1));
    }
  }

  /** A single sequence gives the batch of the one-sequence builder. */
  lemma SingleSequence(s: Sequence)
    requires SequenceOk(s)
    ensures Flat([s]) == Cells(s)
  {
    assert [s][..0] == [];
  }

  // ------------------------------------------------------------ decoding

  datatype DecodeStatus = Done | NoModel | InvalidArguments | Aborted | DecodeFailed

  /** The logits of one position, one for each word of the vocabulary. */
  type Row = seq<real>

  function ZeroRow(nVocab: nat): (r: Row)
    ensures |r| == nVocab && forall i :: 0 <= i < nVocab ==> r[i] == 0.0
  {
    seq(nVocab, i => 0.0)
  }

  /** Where row `s` of a flat buffer of rows starts. */
  function RowStart(s: nat, nVocab: nat): nat {
    s * nVocab
  }

  function RowAt(out: seq<real>, s: nat, nVocab: nat): (row: Row)
    ensures s * nVocab + nVocab <= |out| ==>
              |row| == nVocab && forall k :: 0 <= k < nVocab ==> row[k] == out[s * nVocab + k]
  {
    var start := RowStart(s, nVocab);
    if start + nVocab <= |out| then out[start..start + nVocab] else []
  }

  /** What lies behind the first `count` rows. */
  function Behind(out: seq<real>, count: nat, nVocab: nat): seq<real> {
    if RowStart(count, nVocab) <= |out| then out[RowStart(count, nVocab)..] else []
  }

  lemma RowsApart(s: nat, t: nat, nVocab: nat)
    requires s < t
    ensures RowStart(s, nVocab) + nVocab <= RowStart(t, nVocab)
  {
    assert t * nVocab == s * nVocab + (t - s) * nVocab;
    assert (t - s) * nVocab == nVocab + (t - s - 1) * nVocab;
  }

  /** Buffers that differ in row `s` only have the same other rows. */
  lemma OtherRows(before: seq<real>, after: seq<real>, s: nat, t: nat, nVocab: nat)
    requires |before| == |after| && s != t
    requires forall k :: 0 <= k < |before| && !(RowStart(s, nVocab) <= k < RowStart(s, nVocab) + nVocab) ==>
               after[k] == before[k]
    ensures RowAt(after, t, nVocab) == RowAt(before, t, nVocab)
  {
    hide RowStart;
    if s < t {
      RowsApart(s, t, nVocab);
    } else {
      RowsApart(t, s, nVocab);
    }
  }

  /** The position from which a row is fetched holds the sequence's last token, and asks
      for logits. */
  lemma LastTokenAsksForLogits(ss: seq<Sequence>, s: nat, i: nat)
    requires SequencesOk(ss) && IsLastToken(ss, s, i)
    ensures i < |Flat(ss)| && Flat(ss)[i].logits
    ensures Flat(ss)[i].seqId == ss[s].seqId && Flat(ss)[i].token == ss[s].tokens[ss[s].nTokens - 1]
  {
    CellOfSequence(ss, s, Length(ss[s]) - 1);
  }

  /** The rows of all sequences at once. */
  method ZeroRows(out: array<real>, count: nat, nVocab: nat)
    requires RowStart(count, nVocab) <= out.Length
    modifies out
    ensures forall s: nat :: s < count ==> RowAt(out[..], s, nVocab) == ZeroRow(nVocab)
    ensures Behind(out[..], count, nVocab) == Behind(old(out[..]), count, nVocab)
  {
    hide RowStart;
    for k := 0 to RowStart(count, nVocab)
      invariant forall i :: 0 <= i < k ==> out[i] == 0.0
      invariant forall i :: k <= i < out.Length ==> out[i] == old(out[i])
    {
      out[k] := 0.0;
    }
    forall s: nat | s < count ensures RowAt(out[..], s, nVocab) == ZeroRow(nVocab) {
      RowsApart(s, count, nVocab);
    }
  }

  /** One row is copied to its place. */
  method CopyRow(out: array<real>, s: nat, nVocab: nat, row: Row)
    requires RowStart(s, nVocab) + nVocab <= out.Length && |row| == nVocab
    modifies out
    ensures RowAt(out[..], s, nVocab) == row
    ensures forall t: nat :: t != s ==> RowAt(out[..], t, nVocab) == RowAt(old(out[..]), t, nVocab)
    ensures forall count: nat :: count > s ==> Behind(out[..], count, nVocab) == Behind(old(out[..]), count, nVocab)
  {
    hide RowStart;
    var base := RowStart(s, nVocab);
    for k := 0 to nVocab
      invariant forall i :: 0 <= i < k ==> out[base + i] == row[i]
      invariant forall i :: 0 <= i < out.Length && !(base <= i < base + nVocab) ==> out[i] == old(out[i])
    {
      out[base + k] := row[k];
    }
    forall t: nat | t != s ensures RowAt(out[..], t, nVocab) == RowAt(old(out[..]), t, nVocab) {
      OtherRows(old(out[..]), out[..], s, t, nVocab);
    }
    forall count: nat | count > s ensures Behind(out[..], count, nVocab) == Behind(old(out[..]), count, nVocab) {
      RowsApart(s, count, nVocab);
    }
  }

  /** The last step: one row for each non-empty sequence. */
  method CopyRows(ss: seq<Sequence>, nVocab: nat, rows: nat -> Option<Row>, out: array<real>)
    requires RowStart(|ss|, nVocab) <= out.Length
    requires forall i: nat :: rows(i).Some? ==> |rows(i).value| == nVocab
    modifies out
    ensures forall s: nat, i: nat :: IsLastToken(ss, s, i) ==>
      RowAt(out[..], s, nVocab) == if rows(i).Some? then rows(i).value else ZeroRow(nVocab)
    ensures forall s: nat :: s < |ss| && ss[s].nTokens <= 0 ==>
      RowAt(out[..], s, nVocab) == RowAt(old(out[..]), s, nVocab)
    ensures Behind(out[..], |ss|, nVocab) == Behind(old(out[..]), |ss|, nVocab)
  {
    hide ZeroRow, Offset, RowAt, Behind, RowStart;
    OffsetSteps(ss);
    var offset: int := 0;
    for s := 0 to |ss|
      invariant offset == Offset(ss, s)
      invariant forall t: nat, i: nat :: t < s && IsLastToken(ss, t, i) ==>
        RowAt(out[..], t, nVocab) == if rows(i).Some? then rows(i).value else ZeroRow(nVocab)
      invariant forall t: nat :: t < |ss| && (s <= t || ss[t].nTokens <= 0) ==>
        RowAt(out[..], t, nVocab) == RowAt(old(out[..]), t, nVocab)
      invariant Behind(out[..], |ss|, nVocab) == Behind(old(out[..]), |ss|, nVocab)
    {
      var n: int := ss[s].nTokens;
      if n <= 0 {
        continue;
      }
      var last: nat := offset + n - 1;
      var row := rows(last);
      RowsApart(s, |ss|, nVocab);
      CopyRow(out, s, nVocab, if row.None? then ZeroRow(nVocab) else row.value);
      offset := offset + n;
    }
  }

  /** One forward pass for all sequences. `model`, `sequences` and `logitsOut` may be
      missing; `decoded` and `rows` stand for llama_decode and for its logits by batch
      position. Rows of empty sequences are not touched, unless all sequences are empty:
      then all rows are zeroed. Nothing behind the last row is written. */
  method BatchedDecode(model: bool, sequences: Option<seq<Sequence>>, nVocab: int32, aborted: bool, decoded: bool,
                       rows: nat -> Option<Row>, logitsOut: array?<real>) returns (status: DecodeStatus)
    requires sequences.Some? ==> SequencesOk(sequences.value) && Offset(sequences.value, |sequences.value|) < 0x8000_0000
    requires nVocab > 0 ==> forall i: nat :: rows(i).Some? ==> |rows(i).value| == nVocab
    requires sequences.Some? && logitsOut != null && nVocab > 0 ==>
               RowStart(|sequences.value|, nVocab) <= logitsOut.Length
    modifies logitsOut
    ensures status.NoModel? <==> !model
    ensures status.InvalidArguments? <==>
      && model
      && (|| sequences.None? || sequences.value == [] || logitsOut == null || nVocab <= 0
          || exists s :: 0 <= s < |sequences.value| && sequences.value[s].nTokens < 0)
    ensures !status.NoModel? && !status.InvalidArguments? ==>
      if forall s :: 0 <= s < |sequences.value| ==> sequences.value[s].nTokens == 0 then status.Done?
      else status == if aborted then Aborted else if !decoded then DecodeFailed else Done
    ensures !status.Done? && logitsOut != null ==> logitsOut[..] == old(logitsOut[..])
    ensures status.Done? ==>
      var ss := sequences.value;
      && (forall s: nat, i: nat :: IsLastToken(ss, s, i) ==>
            RowAt(logitsOut[..], s, nVocab) == if rows(i).Some? then rows(i).value else ZeroRow(nVocab))
      && (forall s: nat :: s < |ss| && ss[s].nTokens == 0 ==>
            RowAt(logitsOut[..], s, nVocab) ==
              if forall t :: 0 <= t < |ss| ==> ss[t].nTokens == 0 then ZeroRow(nVocab)
              else RowAt(old(logitsOut[..]), s, nVocab))
      && Behind(logitsOut[..], |ss|, nVocab) == Behind(old(logitsOut[..]), |ss|, nVocab)
  {
    if !model {
      return NoModel;
    }
    if sequences.None? || |sequences.value| == 0 {
      return InvalidArguments;
    }
    if logitsOut == null || nVocab <= 0 {
      return InvalidArguments;
    }
    var ss := sequences.value;
    for s := 0 to |ss|
      invariant forall t :: 0 <= t < s ==> ss[t].nTokens >= 0
    {
      if ss[s].nTokens < 0 {
        return InvalidArguments;
      }
    }
    var batch := BuildBatchedBatch(ss);
    NothingExactlyWhen(ss, |ss|);
    if batch.nTokens == 0 {
      ZeroRows(logitsOut, |ss|, nVocab);
      return Done;
    }
    if aborted {
      return Aborted;
    }
    if !decoded {
      return DecodeFailed;
    }
    CopyRows(ss, nVocab, rows, logitsOut);
    return Done;
  }
}
