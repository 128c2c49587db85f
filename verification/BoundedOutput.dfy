/** Splitting a document into bounded writes, and the router's writer that takes them. */
module BoundedOutput {
  import opened Text
  import opened Utf
  import opened Utf8

  const MAXIMUM_OUTPUT_CHUNK_BYTES: nat := 1_048_576
  const MAXIMUM_OUTPUT_BYTES: nat := 67_108_864

  datatype OutputError = UnpairedSurrogate | TooLong | Refused

  function ScalarByteLength(codePoint: nat): nat {
    if codePoint <= 0x7f then 1 else if codePoint <= 0x7ff then 2 else if codePoint <= 0xffff then 3 else 4
  }

  /** The end of the scalar that starts at `i`. */
  function NextScalar(t: Text, i: nat): (n: nat)
    requires i < |t|
    ensures i < n <= |t|
  {
    if PairAt(t, i) then i + 2 else i + 1
  }

  // ---------- splits ----------

  predicate Ascends(t: Text, cuts: seq<nat>) {
    && (forall i | 0 <= i < |cuts| :: cuts[i] <= |t|)
    && (forall i, j | 0 <= i <= j < |cuts| :: cuts[i] <= cuts[j])
  }

  /** Ascending cuts between scalars, from the start to the end of the text. */
  ghost predicate IsSplit(t: Text, cuts: seq<nat>) {
    && |cuts| > 0 && cuts[0] == 0 && cuts[|cuts| - 1] == |t| && Ascends(t, cuts)
    && (forall i | 0 <= i < |cuts| :: !SplitsPair(t, cuts[i]))
  }

  ghost predicate PieceFits(t: Text, cuts: seq<nat>, i: nat) {
    i + 1 < |cuts| && cuts[i] <= cuts[i + 1] <= |t| && ByteLength(t[cuts[i]..cuts[i + 1]]) <= MAXIMUM_OUTPUT_CHUNK_BYTES
  }

  /** A split whose pieces each fit into one write. */
  ghost predicate FittingSplit(t: Text, cuts: seq<nat>) {
    IsSplit(t, cuts) && forall i: nat | i + 1 < |cuts| :: PieceFits(t, cuts, i)
  }

  /** The next scalar would not have fitted any more. */
  ghost predicate Full(t: Text, cuts: seq<nat>, i: nat) {
    && i + 1 < |cuts| && cuts[i] < cuts[i + 1] < |t|
    && ByteLength(t[cuts[i]..NextScalar(t, cuts[i + 1])]) > MAXIMUM_OUTPUT_CHUNK_BYTES
  }

  /** The cuts that the loop makes: every write but the last is full. */
  ghost predicate Greedy(t: Text, cuts: seq<nat>) {
    FittingSplit(t, cuts) && |cuts| > 1 && forall i: nat | i + 2 < |cuts| :: Full(t, cuts, i)
  }

  lemma BeyondNext(t: Text, end: nat, c: nat)
    requires end < c <= |t| && !SplitsPair(t, c)
    ensures NextScalar(t, end) <= c
    ensures !SplitsPair(t, end) ==> !SplitsPair(t, NextScalar(t, end))
  {
  }

  /** No other split is ahead of the greedy one. */
  lemma {:induction false} GreedyAhead(t: Text, cuts: seq<nat>, others: seq<nat>, k: nat)
    requires Greedy(t, cuts) && FittingSplit(t, others) && k < |cuts| && k < |others|
    ensures others[k] <= cuts[k]
  {
    hide ByteLength, SplitsPair;
    if k > 0 {
      GreedyAhead(t, cuts, others, k - 1);
      if k < |cuts| - 1 && others[k] > cuts[k] {
        assert Full(t, cuts, k - 1) && PieceFits(t, others, k - 1);
        BeyondNext(t, cuts[k], others[k]);
        Longer(t, others[k - 1], cuts[k - 1], NextScalar(t, cuts[k]), others[k]);
      }
    }
  }

  /** A longer stretch has at least as many bytes. */
  lemma Longer(t: Text, a: nat, b: nat, c: nat, d: nat)
    requires a <= b <= c <= d <= |t| && !SplitsPair(t, b) && !SplitsPair(t, c)
    ensures ByteLength(t[b..c]) <= ByteLength(t[a..d])
  {
    hide ByteLength;
    ByteLengthCut(t, a, b, d);
    ByteLengthCut(t, b, c, d);
  }

  /** The greedy split has the fewest pieces of all splits that fit. */
  lemma GreedyIsMinimal(t: Text, cuts: seq<nat>, others: seq<nat>)
    requires Greedy(t, cuts) && FittingSplit(t, others) && |others| > 1
    ensures |cuts| <= |others|
  {
    hide ByteLength, SplitsPair;
    var k := |others| - 1;
    if k < |cuts| {
      GreedyAhead(t, cuts, others, k);
      assert k + 1 < |cuts| ==> Full(t, cuts, k - 1);
    }
  }

  /** The pieces between the cuts. */
  function Pieces(t: Text, cuts: seq<nat>): seq<Text>
    requires Ascends(t, cuts)
  {
    if |cuts| < 2 then []
    else
      var n := |cuts| - 1;
      Pieces(t, cuts[..n]) + (if cuts[n - 1] == cuts[n] then [] else [t[cuts[n - 1]..cuts[n]]])
  }

  function Concat(ts: seq<Text>): Text {
    if ts == [] then [] else Concat(ts[..|ts| - 1]) + ts[|ts| - 1]
  }

  lemma ConcatStep(ts: seq<Text>, u: Text)
    ensures Concat(ts + [u]) == Concat(ts) + u
  {
    assert (ts + [u])[..|ts|] == ts;
  }

  lemma {:induction false} PiecesConcat(t: Text, cuts: seq<nat>)
    requires |cuts| > 0 && cuts[0] == 0
    requires Ascends(t, cuts)
    ensures Concat(Pieces(t, cuts)) == t[..cuts[|cuts| - 1]]
    decreases |cuts|
  {
    hide Concat, Ascends, Pieces;
    if |cuts| >= 2 {
      var n := |cuts| - 1;
      AscendsInit(t, cuts);
      PiecesStep(t, cuts);
      PiecesConcat(t, cuts[..n]);
      if cuts[n - 1] != cuts[n] {
        ConcatStep(Pieces(t, cuts[..n]), t[cuts[n - 1]..cuts[n]]);
        assert t[..cuts[n - 1]] + t[cuts[n - 1]..cuts[n]] == t[..cuts[n]];
      }
    } else {
      NothingConcat(t, cuts);
    }
  }

  lemma AscendsInit(t: Text, cuts: seq<nat>)
    requires Ascends(t, cuts) && |cuts| > 1
    ensures Ascends(t, cuts[..|cuts| - 1]) && cuts[|cuts| - 2] <= cuts[|cuts| - 1] <= |t|
  {
  }

  lemma PiecesStep(t: Text, cuts: seq<nat>)
    requires Ascends(t, cuts) && |cuts| > 1
    ensures var n := |cuts| - 1;
      && Ascends(t, cuts[..n]) && cuts[n - 1] <= cuts[n] <= |t|
      && Pieces(t, cuts) == if cuts[n - 1] == cuts[n] then Pieces(t, cuts[..n])
                            else Pieces(t, cuts[..n]) + [t[cuts[n - 1]..cuts[n]]]
  {
  }

  lemma NothingConcat(t: Text, cuts: seq<nat>)
    requires Ascends(t, cuts) && |cuts| == 1 && cuts[0] == 0
    ensures Concat(Pieces(t, cuts)) == [] == t[..0]
  {
  }

  // ---------- planning ----------

  /** The cuts made when the loop has come to `index`; the last piece is still open. */
  ghost predicate Planning(t: Text, cuts: seq<nat>, index: nat, chunkBytes: nat, totalBytes: nat) {
    && index <= |t| && !SplitsPair(t, index) && WellFormed(t[..index])
    && |cuts| > 0 && cuts[0] == 0 && cuts[|cuts| - 1] <= index && Ascends(t, cuts)
    && (forall i | 0 <= i < |cuts| :: !SplitsPair(t, cuts[i]))
    && (forall i: nat | i + 1 < |cuts| :: Full(t, cuts, i) && PieceFits(t, cuts, i))
    && chunkBytes == ByteLength(t[cuts[|cuts| - 1]..index]) <= MAXIMUM_OUTPUT_CHUNK_BYTES
    && totalBytes == ByteLength(t[..index]) <= MAXIMUM_OUTPUT_BYTES
  }

  /** The length of one scalar, and what it does to well-formedness. */
  lemma OneScalar(t: Text, i: nat)
    requires i < |t| && !SplitsPair(t, i) && WellFormed(t[..i])
    ensures var n := NextScalar(t, i);
      && !SplitsPair(t, n)
      && ByteLength(t[i..n]) == (if PairAt(t, i) then 4 else UnitBytes(t[i]))
      && (PairAt(t, i) || (!IsHigh(t[i]) && !IsLow(t[i])) ==> WellFormed(t[..n]))
      && (!PairAt(t, i) && (IsHigh(t[i]) || IsLow(t[i])) ==> !WellFormed(t))
  {
    var n := NextScalar(t, i);
    var one := t[i..n];
    assert one[|one|..] == [] && ByteLength([]) == 0 && WellFormed([]);
    assert PairAt(one, 0) == PairAt(t, i);
    assert t[..n] == t[..i] + one;
    WellFormedConcat(t[..i], one);
    assert t == t[..i] + t[i..];
    WellFormedConcat(t[..i], t[i..]);
    assert PairAt(t[i..], 0) == PairAt(t, i);
  }

  lemma PlanStep(t: Text, cuts: seq<nat>, index: nat, chunkBytes: nat, totalBytes: nat, bytes: nat)
    requires Planning(t, cuts, index, chunkBytes, totalBytes) && index < |t|
    requires bytes == ByteLength(t[index..NextScalar(t, index)]) <= 4 && !SplitsPair(t, NextScalar(t, index))
    requires WellFormed(t[..NextScalar(t, index)])
    ensures var next := NextScalar(t, index);
      && ByteLength(t[..next]) == totalBytes + bytes
      && (totalBytes + bytes <= MAXIMUM_OUTPUT_BYTES ==>
            if chunkBytes + bytes > MAXIMUM_OUTPUT_CHUNK_BYTES
            then Planning(t, cuts + [index], next, bytes, totalBytes + bytes)
            else Planning(t, cuts, next, chunkBytes + bytes, totalBytes + bytes))
  {
    hide ByteLength, SplitsPair, WellFormed, PairAt;
    var next, last := NextScalar(t, index), cuts[|cuts| - 1];
    ByteLengthCut(t, last, index, next);
    ByteLengthCut(t, 0, index, next);
    assert t[0..index] == t[..index] && t[0..next] == t[..next];
    NothingToWrite(t, index);
    if chunkBytes + bytes > MAXIMUM_OUTPUT_CHUNK_BYTES {
      assert last < index;
      NewCut(t, cuts, index);
    }
  }

  lemma NewCut(t: Text, cuts: seq<nat>, index: nat)
    requires index < |t| && |cuts| > 0 && cuts[|cuts| - 1] < index && Ascends(t, cuts)
    requires forall i: nat | i + 1 < |cuts| :: Full(t, cuts, i) && PieceFits(t, cuts, i)
    requires ByteLength(t[cuts[|cuts| - 1]..index]) <= MAXIMUM_OUTPUT_CHUNK_BYTES
    requires ByteLength(t[cuts[|cuts| - 1]..NextScalar(t, index)]) > MAXIMUM_OUTPUT_CHUNK_BYTES
    ensures Ascends(t, cuts + [index])
    ensures forall i: nat | i + 1 < |cuts + [index]| :: Full(t, cuts + [index], i) && PieceFits(t, cuts + [index], i)
  {
    hide ByteLength, NextScalar;
    var more := cuts + [index];
    forall i: nat | i + 1 < |more|
      ensures Full(t, more, i) && PieceFits(t, more, i)
    {
      if i + 1 < |cuts| {
        assert Full(t, cuts, i) && PieceFits(t, cuts, i);
      }
    }
  }

  lemma NothingToWrite(t: Text, i: nat)
    requires i <= |t|
    ensures ByteLength(t[i..i]) == 0
  {
    assert t[i..i] == [];
  }

  lemma PlanDone(t: Text, cuts: seq<nat>, chunkBytes: nat, totalBytes: nat)
    requires Planning(t, cuts, |t|, chunkBytes, totalBytes)
    ensures Greedy(t, cuts + [|t|]) && WellFormed(t) && ByteLength(t) <= MAXIMUM_OUTPUT_BYTES
  {
    hide ByteLength, WellFormed, SplitsPair, NextScalar;
    assert t[..|t|] == t;
    var all := cuts + [|t|];
    forall i: nat | i + 1 < |all|
      ensures PieceFits(t, all, i) && (i + 2 < |all| ==> Full(t, all, i))
    {
      if i + 1 < |cuts| {
        assert Full(t, cuts, i) && PieceFits(t, cuts, i);
      }
    }
  }

  lemma TooLongBy(t: Text, n: nat)
    requires n <= |t| && !SplitsPair(t, n) && ByteLength(t[..n]) > MAXIMUM_OUTPUT_BYTES
    ensures ByteLength(t) > MAXIMUM_OUTPUT_BYTES
  {
    hide ByteLength;
    ByteLengthCut(t, 0, n, |t|);
    assert t[0..n] == t[..n] && t[0..|t|] == t;
  }

  /** The preflight: all cuts, or the reason why nothing may be written. */
  method PlanChunks(t: Text) returns (r: Result<seq<nat>, OutputError>)
    ensures r.Success? <==> WellFormed(t) && ByteLength(t) <= MAXIMUM_OUTPUT_BYTES
    ensures r.Success? ==> Greedy(t, r.value)
    ensures r.Failure? ==> (|| (r.error == UnpairedSurrogate && !WellFormed(t))
                            || (r.error == TooLong && ByteLength(t) > MAXIMUM_OUTPUT_BYTES))
  {
    hide ByteLength, WellFormed, Planning, SplitsPair, Greedy;
    var boundaries: seq<nat> := [0];
    var chunkBytes: nat, totalBytes: nat, index: nat := 0, 0, 0;
    PlanStart(t);
    while index < |t|
      invariant Planning(t, boundaries, index, chunkBytes, totalBytes)
      invariant index <= |t|
    {
      PlanIndex(t, boundaries, index, chunkBytes, totalBytes);
      OneScalar(t, index);
      var first := t[index];
      var codePoint: nat := first;
      var width := 1;
      if IsHigh(first) {
        var second := At(t, index + 1);
        if second == NAN || !IsLow(second) {
          return Failure(UnpairedSurrogate);
        }
        codePoint := 0x1_0000 + (first as int - 0xd800) * 0x400 + (second - 0xdc00);
        width := 2;
      } else if IsLow(first) {
        return Failure(UnpairedSurrogate);
      }
      var bytes := ScalarByteLength(codePoint);
      assert index + width == NextScalar(t, index);
      PlanStep(t, boundaries, index, chunkBytes, totalBytes, bytes);
      if chunkBytes + bytes > MAXIMUM_OUTPUT_CHUNK_BYTES {
        boundaries := boundaries + [index];
        chunkBytes := 0;
      }
      chunkBytes := chunkBytes + bytes;
      totalBytes := totalBytes + bytes;
      if totalBytes > MAXIMUM_OUTPUT_BYTES {
        TooLongBy(t, index + width);
        return Failure(TooLong);
      }
      index := index + width;
    }
    PlanDone(t, boundaries, chunkBytes, totalBytes);
    return Success(boundaries + [|t|]);
  }

  lemma PlanStart(t: Text)
    ensures Planning(t, [0], 0, 0, 0)
  {
    assert t[..0] == [] && t[0..0] == [];
  }

  lemma PlanIndex(t: Text, cuts: seq<nat>, index: nat, chunkBytes: nat, totalBytes: nat)
    requires Planning(t, cuts, index, chunkBytes, totalBytes)
    ensures index <= |t| && !SplitsPair(t, index) && WellFormed(t[..index])
  {
  }

  // ---------- the router's writer ----------

  class BoundedWriter {
    var totalBytes: nat
    var written: seq<Text>

    constructor ()
      ensures totalBytes == 0 && written == []
    {
      totalBytes, written := 0, [];
    }

    /** The checks of text and size; cancellation and the sink behind the writer are left out. */
    method Write(t: Text) returns (ok: bool)
      modifies this
      ensures ok <==> WellFormed(t) && ByteLength(t) <= MAXIMUM_OUTPUT_CHUNK_BYTES
                      && old(totalBytes) + ByteLength(t) <= MAXIMUM_OUTPUT_BYTES
      ensures ok ==> totalBytes == old(totalBytes) + ByteLength(t) && written == old(written) + [t]
      ensures !ok ==> totalBytes == old(totalBytes) && written == old(written)
    {
      var bytes := ByteLength(t);
      if !WellFormed(t) || bytes > MAXIMUM_OUTPUT_CHUNK_BYTES || totalBytes + bytes > MAXIMUM_OUTPUT_BYTES {
        return false;
      }
      totalBytes, written := totalBytes + bytes, written + [t];
      ok := true;
    }
  }

  lemma SplitPieces(t: Text, cuts: seq<nat>, n: nat)
    requires Greedy(t, cuts) && WellFormed(t) && 0 < n < |cuts|
    ensures cuts[n - 1] <= cuts[n] <= |t| && WellFormed(t[cuts[n - 1]..cuts[n]])
    ensures ByteLength(t[cuts[n - 1]..cuts[n]]) <= MAXIMUM_OUTPUT_CHUNK_BYTES
    ensures ByteLength(t[..cuts[n]]) == ByteLength(t[..cuts[n - 1]]) + ByteLength(t[cuts[n - 1]..cuts[n]])
    ensures ByteLength(t[..cuts[n]]) <= ByteLength(t)
  {
    hide ByteLength, WellFormed, SplitsPair, Full;
    var a, b := cuts[n - 1], cuts[n];
    assert PieceFits(t, cuts, n - 1);
    ByteLengthCut(t, 0, a, b);
    ByteLengthCut(t, 0, b, |t|);
    assert t[0..a] == t[..a] && t[0..b] == t[..b] && t[0..|t|] == t;
    Stretch(t, a, b);
  }

  /**
    `writeBoundedOutput` with the router's writer. A malformed or oversized document causes no write; any other
    is written in pieces that spell it, and a writer with room for the document, such as a fresh one, takes them all.
   */
  method WriteBoundedOutput(t: Text, writer: BoundedWriter) returns (error: Option<OutputError>, ghost cuts: seq<nat>)
    modifies writer
    ensures error == Some(UnpairedSurrogate) || error == Some(TooLong) <==>
            !WellFormed(t) || ByteLength(t) > MAXIMUM_OUTPUT_BYTES
    ensures error == Some(UnpairedSurrogate) ==> !WellFormed(t)
    ensures error == Some(UnpairedSurrogate) || error == Some(TooLong) ==>
              writer.written == old(writer.written) && writer.totalBytes == old(writer.totalBytes)
    ensures error.None? ==> Greedy(t, cuts) && writer.written == old(writer.written) + Pieces(t, cuts)
                            && writer.totalBytes == old(writer.totalBytes) + ByteLength(t)
    ensures error.Some? && old(writer.totalBytes) + ByteLength(t) <= MAXIMUM_OUTPUT_BYTES ==> error.value != Refused
  {
    hide ByteLength, WellFormed, SplitsPair, Full, Greedy;
    cuts := [];
    var plan := PlanChunks(t);
    if plan.Failure? {
      return Some(plan.error), [];
    }
    var boundaries := plan.value;
    cuts := boundaries;
    GreedyShape(t, boundaries);
    ghost var before, total := writer.written, writer.totalBytes;
    StartWriting(t, boundaries);
    for n := 1 to |boundaries|
      invariant writer.written == before + Pieces(t, boundaries[..n])
      invariant writer.totalBytes == total + ByteLength(t[..boundaries[n - 1]])
    {
      var start, end := boundaries[n - 1], boundaries[n];
      SplitPieces(t, boundaries, n);
      assert boundaries[..n + 1][..n] == boundaries[..n];
      if start != end {
        var ok := writer.Write(t[start..end]);
        if !ok {
          return Some(Refused), boundaries;
        }
      } else {
        NothingToWrite(t, start);
      }
    }
    assert boundaries[..|boundaries|] == boundaries && t[..|t|] == t;
    error := None;
  }

  lemma GreedyShape(t: Text, cuts: seq<nat>)
    requires Greedy(t, cuts)
    ensures |cuts| > 1 && cuts[0] == 0 && cuts[|cuts| - 1] == |t| && Ascends(t, cuts)
  {
  }

  lemma StartWriting(t: Text, cuts: seq<nat>)
    requires |cuts| > 1 && cuts[0] == 0
    ensures ByteLength(t[..cuts[0]]) == 0
  {
    assert t[..0] == [];
  }

  /** The pieces written spell the document. */
  lemma WrittenSpellsDocument(t: Text, cuts: seq<nat>)
    requires Greedy(t, cuts)
    ensures Concat(Pieces(t, cuts)) == t
  {
    hide ByteLength, SplitsPair, Full;
    PiecesConcat(t, cuts);
    assert t[..|t|] == t;
  }

  /** Every piece is well-formed, not empty and within the limit of a write. */
  lemma {:induction false} EveryPieceFits(t: Text, cuts: seq<nat>, n: nat)
    requires Greedy(t, cuts) && WellFormed(t) && 0 < n <= |cuts|
    ensures forall p | p in Pieces(t, cuts[..n]) ::
              p != [] && WellFormed(p) && ByteLength(p) <= MAXIMUM_OUTPUT_CHUNK_BYTES
    decreases n
  {
    hide ByteLength, WellFormed, SplitsPair, Full;
    if n > 1 {
      EveryPieceFits(t, cuts, n - 1);
      SplitPieces(t, cuts, n - 1);
      assert cuts[..n][..n - 1] == cuts[..n - 1];
    }
  }

  /** No split of the document into fitting pieces that cuts between scalars needs fewer writes. */
  lemma FewestWrites(t: Text, cuts: seq<nat>, others: seq<nat>)
    requires Greedy(t, cuts) && FittingSplit(t, others)
    ensures |Pieces(t, cuts)| <= |others| - 1
  {
    hide ByteLength, SplitsPair, Full;
    PieceCount(t, cuts);
    if |others| > 1 {
      GreedyIsMinimal(t, cuts, others);
    } else {
      PiecesConcat(t, cuts);
      NoPieces(t, cuts);
    }
  }

  lemma {:induction false} PieceCount(t: Text, cuts: seq<nat>)
    requires |cuts| > 0
    requires Ascends(t, cuts)
    ensures |Pieces(t, cuts)| <= |cuts| - 1
    decreases |cuts|
  {
    if |cuts| > 1 {
      PieceCount(t, cuts[..|cuts| - 1]);
    }
  }

  lemma {:induction false} NoPieces(t: Text, cuts: seq<nat>)
    requires t == []
    requires Ascends(t, cuts)
    ensures Pieces(t, cuts) == []
    decreases |cuts|
  {
    if |cuts| > 1 {
      NoPieces(t, cuts[..|cuts| - 1]);
    }
  }

  /** In the terms of the sink: no piece is empty and none has more than 2^20 bytes of UTF-8. */
  lemma PieceBytes(t: Text, cuts: seq<nat>, p: Text)
    requires Greedy(t, cuts) && WellFormed(t) && p in Pieces(t, cuts)
    ensures p != [] && |Encode(p)| <= 1_048_576
  {
    hide ByteLength, WellFormed, Pieces, Greedy, Encode;
    SomeCuts(t, cuts);
    assert cuts[..|cuts|] == cuts;
    EveryPieceFits(t, cuts, |cuts|);
    EncodedLength(p);
  }

  lemma SomeCuts(t: Text, cuts: seq<nat>)
    requires Greedy(t, cuts)
    ensures |cuts| > 0 && Ascends(t, cuts)
  {
  }
}
