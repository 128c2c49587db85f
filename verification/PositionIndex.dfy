/** The index from UTF-16 offsets to byte offsets, lines and columns, against a naive scan of the prefix. */
module PositionIndex {
  import opened Text
  import opened Utf

  const LF := 0x0a
  const CR := 0x0d

  datatype Position = Position(byteOffset: nat, utf16Offset: nat, line: nat, utf16Column: nat)

  /** A line terminator ends just before offset `k`: a line feed, or a carriage return that no line feed follows. */
  predicate TerminatorEnds(t: Text, k: nat) {
    0 < k <= |t| && (t[k - 1] == LF || (t[k - 1] == CR && At(t, k) != LF))
  }

  /** How many terminators end at or before the offset. */
  function LineOf(t: Text, o: nat): nat {
    if o == 0 then 0 else LineOf(t, o - 1) + if TerminatorEnds(t, o) then 1 else 0
  }

  /** The end of the last terminator at or before the offset, or the start of the text. */
  function LineStart(t: Text, o: nat): (s: nat)
    ensures s <= o && (s == 0 || TerminatorEnds(t, s))
    ensures forall k | s < k <= o :: !TerminatorEnds(t, k)
  {
    if o == 0 || TerminatorEnds(t, o) then o else LineStart(t, o - 1)
  }

  /** The position of an offset, by scanning the prefix before it. */
  function NaivePosition(t: Text, o: int): Option<Position> {
    if o < 0 || o > |t| || SplitsPair(t, o) then None
    else Some(Position(ByteLength(t[..o]), o, LineOf(t, o), o - LineStart(t, o)))
  }

  /** What `byteOffsets` holds for an offset: -1 inside a pair, otherwise the bytes of the prefix. */
  function ByteOffset(t: Text, o: nat): int
    requires o <= |t|
  {
    if SplitsPair(t, o) then -1 else ByteLength(t[..o])
  }

  /** The line starts up to an offset, in increasing order. */
  function LineStarts(t: Text, o: nat): (s: seq<nat>)
    ensures |s| == LineOf(t, o) + 1
    ensures s[0] == 0 && s[|s| - 1] == LineStart(t, o)
    ensures forall i | 0 <= i < |s| :: s[i] <= o
    ensures forall i, j | 0 <= i < j < |s| :: s[i] < s[j]
  {
    if o == 0 then [0]
    else if TerminatorEnds(t, o) then LineStarts(t, o - 1) + [o]
    else LineStarts(t, o - 1)
  }

  lemma LineStartsStep(t: Text, e: nat)
    requires e > 0
    ensures LineOf(t, e) == LineOf(t, e - 1) + if TerminatorEnds(t, e) then 1 else 0
    ensures LineStarts(t, e) == LineStarts(t, e - 1) + if TerminatorEnds(t, e) then [e] else []
  {
    hide TerminatorEnds, LineStart;
  }

  /** The line starts of the whole text cut at an offset are those of the prefix. */
  lemma {:induction false} LineStartsPrefix(t: Text, o: nat, e: nat)
    requires o <= e
    ensures LineOf(t, o) <= LineOf(t, e)
    ensures LineStarts(t, o) == LineStarts(t, e)[..LineOf(t, o) + 1]
    ensures forall i | LineOf(t, o) + 1 <= i < |LineStarts(t, e)| :: LineStarts(t, e)[i] > o
    decreases e
  {
    hide TerminatorEnds, LineStart, LineStarts, LineOf;
    if o < e {
      LineStartsPrefix(t, o, e - 1);
      LineStartsStep(t, e);
    }
  }

  /** One more scalar: the byte length of a longer prefix. */
  lemma PrefixStep(t: Text, o: nat, e: nat)
    requires o < e <= |t| && !SplitsPair(t, o) && !SplitsPair(t, e)
    ensures ByteLength(t[..e]) == ByteLength(t[..o]) + ByteLength(t[o..e])
  {
    ByteLengthCut(t, 0, o, e);
    assert t[0..e] == t[..e] && t[0..o] == t[..o];
  }

  /** Later valid offsets have larger byte offsets. */
  lemma ByteOffsetsIncrease(t: Text, o: nat, e: nat)
    requires o < e <= |t| && NaivePosition(t, o).Some? && NaivePosition(t, e).Some?
    ensures NaivePosition(t, o).value.byteOffset < NaivePosition(t, e).value.byteOffset
  {
    PrefixStep(t, o, e);
    assert t[o..e][0] == t[o];
  }

  /** `byteOffsets` as it is allocated: one slot for every offset, the end included. */
  ghost predicate Indexes(byteOffsets: seq<int>, lineStarts: seq<nat>, t: Text) {
    && |byteOffsets| == |t| + 1
    && (forall o | 0 <= o <= |t| :: byteOffsets[o] == ByteOffset(t, o))
    && lineStarts == LineStarts(t, |t|)
  }

  /** One surrogate pair: nothing is indexed in its middle, and it ends no line. */
  lemma PairStep(t: Text, o: nat)
    requires PairAt(t, o) && !SplitsPair(t, o)
    ensures ByteOffset(t, o + 1) == -1 && !SplitsPair(t, o + 2)
    ensures ByteLength(t[..o + 2]) == ByteLength(t[..o]) + 4
    ensures LineStarts(t, o + 2) == LineStarts(t, o)
  {
    PrefixStep(t, o, o + 2);
    assert t[o..o + 2] == [t[o], t[o + 1]];
    assert LineStarts(t, o + 1) == LineStarts(t, o);
  }

  /** Any other unit. */
  lemma UnitStep(t: Text, o: nat)
    requires o < |t| && !PairAt(t, o) && !SplitsPair(t, o)
    ensures !SplitsPair(t, o + 1)
    ensures ByteLength(t[..o + 1]) == ByteLength(t[..o]) + UnitBytes(t[o])
    ensures LineStarts(t, o + 1) ==
            if t[o] == LF || (t[o] == CR && At(t, o + 1) != LF) then LineStarts(t, o) + [o + 1] else LineStarts(t, o)
  {
    PrefixStep(t, o, o + 1);
    assert t[o..o + 1] == [t[o]];
  }

  /** What the loop finds at an offset: a pair or a single unit, its bytes, and whether a line ends with it. */
  method ScanScalar(text: Text, o: nat) returns (pair: bool, bytes: nat, endsLine: bool)
    requires o < |text| && !SplitsPair(text, o)
    ensures var n := if pair then o + 2 else o + 1;
      && n <= |text| && !SplitsPair(text, n)
      && ByteOffset(text, n) == ByteLength(text[..n]) == ByteLength(text[..o]) + bytes
      && (pair ==> ByteOffset(text, o + 1) == -1)
      && LineStarts(text, n) == LineStarts(text, o) + if endsLine then [n] else []
  {
    hide ByteLength, LineStarts, ByteOffset;
    var unit := text[o];
    if IsHigh(unit) && o + 1 < |text| && IsLow(text[o + 1]) {
      PairStep(text, o);
      pair, bytes, endsLine := true, 4, false;
      Whole(text, o + 2);
    } else {
      UnitStep(text, o);
      pair, bytes := false, if unit <= 0x7f then 1 else if unit <= 0x7ff then 2 else 3;
      endsLine := unit == LF || (unit == CR && At(text, o + 1) != LF);
      Whole(text, o + 1);
    }
  }

  method BuildSourcePositionIndex(text: Text) returns (byteOffsets: array<int>, lineStarts: seq<nat>)
    ensures fresh(byteOffsets) && Indexes(byteOffsets[..], lineStarts, text)
  {
    hide ByteLength, LineStarts, ByteOffset, SplitsPair;
    byteOffsets := new int[|text| + 1];
    lineStarts := [0];
    byteOffsets[0] := 0;
    Start(text);
    var byteOffset, utf16Offset := 0, 0;
    while utf16Offset < |text|
      invariant 0 <= utf16Offset <= |text| && !SplitsPair(text, utf16Offset)
      invariant byteOffset == ByteLength(text[..utf16Offset])
      invariant lineStarts == LineStarts(text, utf16Offset)
      invariant forall o | 0 <= o <= utf16Offset :: byteOffsets[o] == ByteOffset(text, o)
    {
      var pair, bytes, endsLine := ScanScalar(text, utf16Offset);
      byteOffset := byteOffset + bytes;
      if pair {
        byteOffsets[utf16Offset + 1] := -1;
        utf16Offset := utf16Offset + 1;
      }
      if endsLine {
        lineStarts := lineStarts + [utf16Offset + 1];
      }
      byteOffsets[utf16Offset + 1] := byteOffset;
      utf16Offset := utf16Offset + 1;
    }
  }

  lemma Start(t: Text)
    ensures ByteLength(t[..0]) == 0 && LineStarts(t, 0) == [0] && ByteOffset(t, 0) == 0 && !SplitsPair(t, 0)
  {
  }

  lemma Whole(t: Text, o: nat)
    requires o <= |t|
    ensures ByteOffset(t, o) < 0 <==> SplitsPair(t, o)
    ensures !SplitsPair(t, o) ==> ByteOffset(t, o) == ByteLength(t[..o])
  {
  }

  /** A search that separates the line starts at the offset has found the line. */
  lemma Found(t: Text, o: nat, low: nat, lineStarts: seq<nat>)
    requires o <= |t| && lineStarts == LineStarts(t, |t|) && low <= |lineStarts|
    requires forall i | 0 <= i < low :: lineStarts[i] <= o
    requires forall i | low <= i < |lineStarts| :: lineStarts[i] > o
    ensures low == LineOf(t, o) + 1 && lineStarts[low - 1] == LineStart(t, o)
  {
    LineStartsPrefix(t, o, |t|);
    var k := LineOf(t, o);
    var prefix := LineStarts(t, o);
    assert lineStarts[k] == prefix[k] <= o;
    assert low > k;
    var next := if k + 1 < |lineStarts| then lineStarts[k + 1] else o + 1;
    assert next > o;
  }

  /** The binary search: how many lines start at or before the offset. */
  method CountLineStarts(lineStarts: seq<nat>, utf16Offset: nat, ghost text: Text) returns (low: nat)
    requires lineStarts == LineStarts(text, |text|) && utf16Offset <= |text|
    ensures low == LineOf(text, utf16Offset) + 1 && low <= |lineStarts|
    ensures lineStarts[low - 1] == LineStart(text, utf16Offset)
  {
    hide LineStarts, LineStart, LineOf;
    low := 0;
    var high := |lineStarts|;
    while low < high
      invariant 0 <= low <= high <= |lineStarts|
      invariant forall i | 0 <= i < low :: lineStarts[i] <= utf16Offset
      invariant forall i | high <= i < |lineStarts| :: lineStarts[i] > utf16Offset
    {
      var middle := (low + high) / 2;
      LineStartsOrdered(text, lineStarts, middle);
      if lineStarts[middle] <= utf16Offset {
        low := middle + 1;
      } else {
        high := middle;
      }
    }
    Found(text, utf16Offset, low, lineStarts);
  }

  method ExpectedPosition(byteOffsets: array<int>, lineStarts: seq<nat>, utf16Offset: int, ghost text: Text)
    returns (r: Option<Position>)
    requires Indexes(byteOffsets[..], lineStarts, text)
    ensures r == NaivePosition(text, utf16Offset)
  {
    if utf16Offset < 0 || utf16Offset >= byteOffsets.Length {
      return None;
    }
    var byteOffset := byteOffsets[utf16Offset];
    assert byteOffset == byteOffsets[..][utf16Offset];
    Whole(text, utf16Offset);
    hide LineStarts, LineStart, LineOf, ByteLength, ByteOffset, SplitsPair;
    if byteOffset < 0 {
      return None;
    }
    var low := CountLineStarts(lineStarts, utf16Offset, text);
    var line := low - 1;
    return Some(Position(byteOffset, utf16Offset, line, utf16Offset - lineStarts[line]));
  }

  lemma LineStartsOrdered(t: Text, lineStarts: seq<nat>, k: nat)
    requires lineStarts == LineStarts(t, |t|) && k < |lineStarts|
    ensures forall i | 0 <= i < k :: lineStarts[i] < lineStarts[k]
    ensures forall i | k < i < |lineStarts| :: lineStarts[k] < lineStarts[i]
  {
  }

  // ---------- lines, spelled out ----------

  /** A line ends behind a line feed, and behind a carriage return that no line feed follows. */
  predicate EndsLine(t: Text, k: nat) {
    0 < k <= |t| && (t[k - 1] == 0x0a || (t[k - 1] == 0x0d && !(k < |t| && t[k] == 0x0a)))
  }

  /** The places up to an offset where a line ends. */
  function LineEnds(t: Text, o: nat): set<nat> { set k | 0 < k <= o && EndsLine(t, k) }

  lemma {:induction false} LinesCounted(t: Text, o: nat)
    requires o <= |t|
    ensures LineOf(t, o) == |LineEnds(t, o)|
  {
    if o > 0 {
      LinesCounted(t, o - 1);
      assert LineEnds(t, o) == LineEnds(t, o - 1) + if TerminatorEnds(t, o) then {o} else {};
    }
  }

  /** Line and column of an offset: the line ends at or before it are counted, the last one is where its line starts. */
  lemma PositionSpelled(t: Text, o: nat)
    requires o <= |t| && !SplitsPair(t, o)
    ensures NaivePosition(t, o).Some?
    ensures var p, ends := NaivePosition(t, o).value, LineEnds(t, o);
      && p.utf16Offset == o && p.byteOffset == ByteLength(t[..o]) && p.line == |ends| && p.utf16Column <= o
      && (ends == {} ==> p.utf16Column == o)
      && (ends != {} ==> o - p.utf16Column in ends && forall k | k in ends :: k <= o - p.utf16Column)
  {
    hide ByteLength, LineOf;
    LinesCounted(t, o);
    var s := LineStart(t, o);
    if s > 0 {
      assert EndsLine(t, s) && s in LineEnds(t, o);
    }
    forall k | k in LineEnds(t, o)
      ensures k <= s
    {
      assert TerminatorEnds(t, k);
    }
  }
}
