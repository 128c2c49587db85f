/** The order of the sorting keys, and the effect of the text edits of an accepted plan. */
module FixPlanProof {
  import opened Text
  import Utf
  import opened Utf8
  import opened Numerals
  import RepositoryPath
  import opened FixPlan

  // ---------- the order of the keys ----------

  /** Below every offset that a JavaScript string can have. */
  const OFFSET_BOUND: nat := 0x20_0000_0000_0000

  lemma {:induction false} LessAfter(p: seq<int>, a: seq<int>, b: seq<int>)
    ensures Less(p + a, p + b) <==> Less(a, b)
  {
    if p == [] {
      assert p + a == a && p + b == b;
    } else {
      LessAfter(p[1..], a, b);
      assert (p + a)[1..] == p[1..] + a && (p + b)[1..] == p[1..] + b;
    }
  }

  /** A separator below all other numbers makes the order of the first parts decide first. */
  lemma {:induction false} SeparatorOrder(low: int, a: seq<int>, x: seq<int>, b: seq<int>, y: seq<int>)
    requires (forall i | 0 <= i < |a| :: a[i] > low) && (forall i | 0 <= i < |b| :: b[i] > low)
    ensures Less(a + [low] + x, b + [low] + y) <==> Less(a, b) || (a == b && Less(x, y))
  {
    var l, r := a + [low] + x, b + [low] + y;
    if a == [] {
      assert l[1..] == x;
      if b == [] {
        assert r[1..] == y;
      }
    } else if b != [] {
      assert l[1..] == a[1..] + [low] + x && r[1..] == b[1..] + [low] + y;
      SeparatorOrder(low, a[1..], x, b[1..], y);
      assert a == [a[0]] + a[1..] && b == [b[0]] + b[1..];
      if a == b {
        LessTotal(a, a);
      }
    }
  }

  lemma {:induction false} PositiveBytes(t: Text, i: nat)
    requires (forall j | 0 <= j < |t| :: t[j] > 0) && i < |Encode(t)|
    ensures Encode(t)[i] > 0
    decreases |t|
  {
    hide EncodeScalar, FirstScalar;
    var e, rest := EncodeScalar(FirstScalar(t)), t[FirstWidth(t)..];
    PositiveScalar(t);
    ScalarPositive(FirstScalar(t));
    if i >= |e| {
      PositiveBytes(rest, i - |e|);
    }
  }

  lemma PositiveScalar(t: Text)
    requires t != [] && t[0] > 0
    ensures FirstScalar(t) > 0
  {
  }

  lemma ScalarPositive(c: Scalar)
    requires c > 0
    ensures forall i | 0 <= i < |EncodeScalar(c)| :: EncodeScalar(c)[i] > 0
  {
    hide TailByte;
  }

  lemma PathClean(p: Text)
    requires RepositoryPath.IsRepositoryRelativePath(p)
    ensures Utf.WellFormed(p) && forall i | 0 <= i < |p| :: p[i] > 0
  {
    hide RepositoryPath.IsRepositoryRelativePath, RepositoryPath.TextError, Utf.WellFormed;
    RepositoryPath.CanonicalExactly(p);
    RepositoryPath.CleanText(p);
    assert forall i | 0 <= i < |p| :: !RepositoryPath.IsControl(p[i]);
  }

  /** The part of the key after the path and its separator. */
  function Detail(op: Operation): Text {
    match op
    case CreateDocument(_, _) => TextOf(CREATE)
    case MoveDocument(_, _, destination) => TextOf(MOVE) + [NUL] + destination
    case TextEdit(_, _, start, _, _) => TextOf(EDIT) + [NUL] + Padded(start)
  }

  lemma OneNul()
    ensures Encode([NUL]) == [0] && Utf.WellFormed([NUL])
  {
    var one: Text := [NUL];
    assert one[1..] == [];
  }

  lemma EncodeSeparated(a: Text, b: Text)
    requires Utf.WellFormed(a)
    ensures Encode(a + [NUL] + b) == Encode(a) + [0] + Encode(b)
  {
    hide Encode;
    assert a + [NUL] + b == a + ([NUL] + b);
    EncodeConcat(a, [NUL] + b);
    OneNul();
    EncodeConcat([NUL], b);
  }

  /** Keys compare by path first. */
  lemma PathDecides(a: Operation, b: Operation)
    requires RepositoryPath.IsRepositoryRelativePath(a.path) && RepositoryPath.IsRepositoryRelativePath(b.path)
    ensures CompareUtf8Below(OperationSortKey(a), OperationSortKey(b)) <==>
            CompareUtf8Below(a.path, b.path) || (a.path == b.path && CompareUtf8Below(Detail(a), Detail(b)))
  {
    hide Encode, TextOf, Padded, Less, RepositoryPath.IsRepositoryRelativePath;
    PathClean(a.path);
    PathClean(b.path);
    EncodeSeparated(a.path, Detail(a));
    EncodeSeparated(b.path, Detail(b));
    forall i | 0 <= i < |Encode(a.path)|
      ensures Encode(a.path)[i] > 0
    {
      PositiveBytes(a.path, i);
    }
    forall i | 0 <= i < |Encode(b.path)|
      ensures Encode(b.path)[i] > 0
    {
      PositiveBytes(b.path, i);
    }
    SeparatorOrder(0, Encode(a.path), Encode(Detail(a)), Encode(b.path), Encode(Detail(b)));
    if Encode(a.path) == Encode(b.path) {
      EncodeInjective(a.path, b.path);
    }
  }

  function KindRank(op: Operation): nat {
    match op
    case CreateDocument(_, _) => 0
    case MoveDocument(_, _, _) => 1
    case TextEdit(_, _, _, _, _) => 2
  }

  lemma FirstByte(s: string, rest: Text)
    requires s != [] && s[0] < '\U{80}'
    ensures Encode(TextOf(s) + rest) != [] && Encode(TextOf(s) + rest)[0] == s[0] as int
  {
    var c := s[0] as int;
    var t := TextOf(s) + rest;
    assert t[0] == c;
    assert FirstScalar(t) == c;
  }

  lemma DetailFirst(op: Operation)
    ensures Encode(Detail(op)) != []
    ensures Encode(Detail(op))[0] == if op.CreateDocument? then 0x63 else if op.MoveDocument? then 0x6d else 0x74
  {
    hide Encode, TextOf, Padded;
    match op {
      case CreateDocument(_, _) =>
        FirstByte(CREATE, []);
        assert TextOf(CREATE) + [] == TextOf(CREATE);
      case MoveDocument(_, _, destination) =>
        FirstByte(MOVE, [NUL] + destination);
        assert Detail(op) == TextOf(MOVE) + ([NUL] + destination);
      case TextEdit(_, _, start, _, _) =>
        FirstByte(EDIT, [NUL] + Padded(start));
        assert Detail(op) == TextOf(EDIT) + ([NUL] + Padded(start));
    }
  }

  lemma {:induction false} LeadingZero(t: Text)
    requires AllDigits(t)
    ensures Decimal([ZERO] + t) == Decimal(t)
  {
    ValueFront([ZERO] + t);
    assert ([ZERO] + t)[1..] == t;
    Nothing(Pow10(|t|));
  }

  lemma Nothing(p: nat)
    ensures 0 * p == 0
  {
  }

  lemma {:induction false} LeadingZeros(n: nat, t: Text)
    requires AllDigits(t)
    ensures AllDigits(Zeros(n) + t) && Decimal(Zeros(n) + t) == Decimal(t)
  {
    if n == 0 {
      assert Zeros(0) + t == t;
    } else {
      LeadingZeros(n - 1, t);
      LeadingZero(Zeros(n - 1) + t);
      assert Zeros(n) + t == [ZERO] + (Zeros(n - 1) + t);
    }
  }

  lemma PaddedValue(n: nat)
    requires n < OFFSET_BOUND
    ensures |Padded(n)| == 16 && AllDigits(Padded(n)) && Decimal(Padded(n)) == n
  {
    hide Decimal;
    var t := Show(n);
    if |t| > 16 {
      ValueAtLeast(t);
      PowGrows(16, |t| - 1);
      TenToSixteen();
    }
    LeadingZeros(16 - |t|, t);
    assert Zeros(0) + t == t;
  }

  lemma TenToSixteen()
    ensures Pow10(16) > OFFSET_BOUND
  {
    assert Pow10(4) == 10_000;
    assert Pow10(8) == 100_000_000;
    assert Pow10(12) == 1_000_000_000_000;
  }

  lemma PaddedOrder(m: nat, n: nat)
    requires m < OFFSET_BOUND && n < OFFSET_BOUND
    ensures CompareUtf8Below(Padded(m), Padded(n)) <==> m < n
  {
    hide Encode, Padded, Less, Decimal;
    PaddedValue(m);
    PaddedValue(n);
    EncodeAscii(Padded(m));
    EncodeAscii(Padded(n));
    SameLengthOrder(Padded(m), Padded(n));
  }

  lemma DetailBytes(s: string, rest: Text)
    ensures Encode(TextOf(s) + [NUL] + rest) == (Encode(TextOf(s)) + [0]) + Encode(rest)
  {
    EncodeSeparated(TextOf(s), rest);
  }

  /** What the documentation of the order says: path, then kind, then destination or offset. */
  predicate Precedes(a: Operation, b: Operation) {
    if a.path != b.path then CompareUtf8Below(a.path, b.path)
    else if KindRank(a) != KindRank(b) then KindRank(a) < KindRank(b)
    else
      match a
      case CreateDocument(_, _) => false
      case MoveDocument(_, _, _) => CompareUtf8Below(a.destinationPath, b.destinationPath)
      case TextEdit(_, _, _, _, _) => a.start < b.start
  }

  lemma DetailDecides(a: Operation, b: Operation)
    requires a.path == b.path && (a.TextEdit? ==> a.start < OFFSET_BOUND) && (b.TextEdit? ==> b.start < OFFSET_BOUND)
    ensures CompareUtf8Below(Detail(a), Detail(b)) <==> Precedes(a, b)
  {
    hide Encode, TextOf, Padded;
    DetailFirst(a);
    DetailFirst(b);
    if KindRank(a) == KindRank(b) {
      match a {
        case CreateDocument(_, _) =>
          LessTotal(Encode(Detail(a)), Encode(Detail(b)));
        case MoveDocument(_, _, destination) =>
          DetailBytes(MOVE, destination);
          DetailBytes(MOVE, b.destinationPath);
          LessAfter(Encode(TextOf(MOVE)) + [0], Encode(destination), Encode(b.destinationPath));
        case TextEdit(_, _, start, _, _) =>
          DetailBytes(EDIT, Padded(start));
          DetailBytes(EDIT, Padded(b.start));
          LessAfter(Encode(TextOf(EDIT)) + [0], Encode(Padded(start)), Encode(Padded(b.start)));
          PaddedOrder(start, b.start);
      }
    }
  }

  /** The byte order of the keys is the order by path, kind, and destination or numeric offset. */
  lemma KeyOrder(a: Operation, b: Operation)
    requires RepositoryPath.IsRepositoryRelativePath(a.path) && RepositoryPath.IsRepositoryRelativePath(b.path)
    requires (a.TextEdit? ==> a.start < OFFSET_BOUND) && (b.TextEdit? ==> b.start < OFFSET_BOUND)
    ensures CompareUtf8Below(OperationSortKey(a), OperationSortKey(b)) <==> Precedes(a, b)
  {
    hide Encode, OperationSortKey, Detail, Less, RepositoryPath.IsRepositoryRelativePath;
    PathDecides(a, b);
    if a.path == b.path {
      LessTotal(Encode(a.path), Encode(b.path));
      DetailDecides(a, b);
    }
  }

  // ---------- the edits of one source ----------

  /** Texts are no longer than JavaScript strings can be. */
  ghost predicate Storable(sources: Sources) {
    forall s | s in sources :: |sources[s].text| < OFFSET_BOUND
  }

  lemma {:induction false} KeysAscendFar(ops: seq<Operation>, i: nat, j: nat)
    requires KeysAscend(ops) && i < j < |ops|
    ensures CompareUtf8Below(OperationSortKey(ops[i]), OperationSortKey(ops[j]))
    decreases j - i
  {
    hide OperationSortKey, Encode;
    if i + 1 < j {
      KeysAscendFar(ops, i, j - 1);
      assert CompareUtf8Below(OperationSortKey(ops[j - 1]), OperationSortKey(ops[j]));
      LessTransitive(Encode(OperationSortKey(ops[i])), Encode(OperationSortKey(ops[j - 1])),
                     Encode(OperationSortKey(ops[j])));
    }
  }

  /** Two edits of a source stand in the order of their ranges, the earlier ending before the later starts. */
  lemma EditsInOrder(ops: seq<Operation>, sources: Sources, i: nat, j: nat)
    requires AcceptedPlan(ops, sources) && Storable(sources) && i < j < |ops|
    requires ops[i].TextEdit? && ops[j].TextEdit? && ops[i].sourceId == ops[j].sourceId
    ensures ops[i].start < ops[j].start && ops[i].end <= ops[j].start
  {
    hide OperationSortKey, CompareUtf8Below, RepositoryPath.IsRepositoryRelativePath, DestinationsFree, MovesDistinct,
         NoneEditedAndMoved;
    assert ValidOperation(ops[i], sources) && ValidOperation(ops[j], sources);
    KeysAscendFar(ops, i, j);
    KeyOrder(ops[i], ops[j]);
    assert !RangesOverlap(ops[i], ops[j]);
  }

  datatype Edit = Edit(start: nat, end: nat, newText: Text)

  function EditOf(op: Operation): Edit
    requires op.TextEdit?
  {
    Edit(op.start, op.end, op.newText)
  }

  /** The edits of a source, in the order of the plan. */
  function EditsOf(ops: seq<Operation>, sourceId: Text): seq<Edit> {
    if ops == [] then []
    else (if ops[0].TextEdit? && ops[0].sourceId == sourceId then [EditOf(ops[0])] else [])
         + EditsOf(ops[1..], sourceId)
  }

  /** Within the text, strictly ascending, and each ending where the next starts at the latest. */
  predicate InOrder(edits: seq<Edit>, length: nat) {
    && (forall i | 0 <= i < |edits| :: edits[i].start <= edits[i].end <= length)
    && (forall i, j | 0 <= i < j < |edits| :: edits[i].start < edits[j].start && edits[i].end <= edits[j].start)
  }

  lemma {:induction false} EditAt(ops: seq<Operation>, sourceId: Text, k: nat, n: nat) returns (i: nat)
    requires n <= |ops| && k < |EditsOf(ops[n..], sourceId)|
    ensures n <= i < |ops| && ops[i].TextEdit? && ops[i].sourceId == sourceId
    ensures EditsOf(ops[n..], sourceId)[k] == EditOf(ops[i])
    decreases |ops| - n
  {
    assert ops[n..][1..] == ops[n + 1..];
    if ops[n].TextEdit? && ops[n].sourceId == sourceId {
      if k == 0 {
        i := n;
      } else {
        i := EditAt(ops, sourceId, k - 1, n + 1);
      }
    } else {
      i := EditAt(ops, sourceId, k, n + 1);
    }
  }

  /** Taking the operations apart one by one. */
  lemma EditsStep(ops: seq<Operation>, sourceId: Text, n: nat)
    requires n < |ops|
    ensures EditsOf(ops[n..], sourceId)
            == (if ops[n].TextEdit? && ops[n].sourceId == sourceId then [EditOf(ops[n])] else [])
               + EditsOf(ops[n + 1..], sourceId)
  {
    assert ops[n..][1..] == ops[n + 1..];
  }

  lemma {:induction false} EditsAscend(ops: seq<Operation>, sources: Sources, sourceId: Text, n: nat, a: nat, b: nat)
    requires AcceptedPlan(ops, sources) && Storable(sources) && n <= |ops|
    requires a < b < |EditsOf(ops[n..], sourceId)|
    ensures var es := EditsOf(ops[n..], sourceId); es[a].start < es[b].start && es[a].end <= es[b].start
    decreases |ops| - n
  {
    hide AcceptedPlan, EditsOf;
    if n == |ops| {
      NoEdits(ops[n..], sourceId);
    } else {
      EditsStep(ops, sourceId, n);
      if ops[n].TextEdit? && ops[n].sourceId == sourceId {
        if a == 0 {
          var j := EditAt(ops, sourceId, b - 1, n + 1);
          EditsInOrder(ops, sources, n, j);
        } else {
          EditsAscend(ops, sources, sourceId, n + 1, a - 1, b - 1);
        }
      } else {
        EditsAscend(ops, sources, sourceId, n + 1, a, b);
      }
    }
  }

  lemma NoEdits(ops: seq<Operation>, sourceId: Text)
    requires ops == []
    ensures EditsOf(ops, sourceId) == []
  {
  }

  /** In an accepted plan the edits of each source are in order. */
  lemma AcceptedInOrder(ops: seq<Operation>, sources: Sources, sourceId: Text)
    requires AcceptedPlan(ops, sources) && Storable(sources) && sourceId in sources
    ensures InOrder(EditsOf(ops, sourceId), |sources[sourceId].text|)
  {
    hide ValidOperation, KeysAscend, DestinationsFree, MovesDistinct, EditsDisjoint, NoneEditedAndMoved;
    assert ops[0..] == ops;
    var es := EditsOf(ops, sourceId);
    forall k | 0 <= k < |es|
      ensures es[k].start <= es[k].end <= |sources[sourceId].text|
    {
      var i := EditAt(ops, sourceId, k, 0);
      RangeValid(ops, sources, i);
    }
    forall a, b | 0 <= a < b < |es|
      ensures es[a].start < es[b].start && es[a].end <= es[b].start
    {
      EditsAscend(ops, sources, sourceId, 0, a, b);
    }
  }

  lemma RangeValid(ops: seq<Operation>, sources: Sources, i: nat)
    requires AcceptedPlan(ops, sources) && i < |ops| && ops[i].TextEdit?
    ensures ops[i].sourceId in sources && ops[i].start <= ops[i].end <= |sources[ops[i].sourceId].text|
  {
    assert ValidOperation(ops[i], sources);
  }

  // ---------- applying edits ----------

  function ApplyOne(text: Text, e: Edit): Text
    requires e.start <= e.end <= |text|
  {
    text[..e.start] + e.newText + text[e.end..]
  }

  /** Applying the edits one after the other, the last one first, so that earlier offsets stay valid. */
  function RightToLeft(text: Text, edits: seq<Edit>): (r: Text)
    requires InOrder(edits, |text|)
    ensures edits != [] ==> text[..edits[0].start] <= r
    decreases |edits|
  {
    if edits == [] then text
    else
      var rest := RightToLeft(text, edits[1..]);
      PrefixKept(text, edits);
      ApplyOne(rest, edits[0])
  }

  lemma {:induction false} PrefixKept(text: Text, edits: seq<Edit>)
    requires InOrder(edits, |text|) && edits != []
    ensures text[..edits[0].end] <= RightToLeft(text, edits[1..])
    decreases |edits|, 0
  {
    if |edits| > 1 {
      var rest := RightToLeft(text, edits[1..]);
      assert edits[0].end <= edits[1].start;
      assert text[..edits[1].start] <= rest;
      assert text[..edits[1].start][..edits[0].end] == text[..edits[0].end];
    }
  }

  /** Replacing all ranges at once: new texts, and between them the old text from where the last range ended. */
  function Simultaneous(text: Text, edits: seq<Edit>, from: nat): Text
    requires InOrder(edits, |text|) && from <= |text| && (edits != [] ==> from <= edits[0].start)
    decreases |edits|
  {
    if edits == [] then text[from..]
    else text[from..edits[0].start] + edits[0].newText + Simultaneous(text, edits[1..], edits[0].end)
  }

  lemma {:induction false} DropFront(text: Text, edits: seq<Edit>, from: nat)
    requires InOrder(edits, |text|) && from <= |text| && (edits != [] ==> from <= edits[0].start)
    ensures from <= |RightToLeft(text, edits)|
    ensures RightToLeft(text, edits)[from..] == Simultaneous(text, edits, from)
    decreases |edits|
  {
    if edits != [] {
      var e, rest := edits[0], RightToLeft(text, edits[1..]);
      PrefixKept(text, edits);
      DropFront(text, edits[1..], e.end);
      var r := RightToLeft(text, edits);
      assert r == rest[..e.start] + e.newText + rest[e.end..];
      assert rest[..e.start] == text[..e.start];
      assert r[from..] == text[from..e.start] + e.newText + rest[e.end..];
    }
  }

  // ---------- an accepted operation, spelled out ----------

  /** The place does not lie between the two halves of a surrogate pair. */
  ghost predicate BetweenScalars(t: Text, p: nat) {
    !(0 < p < |t| && 0xd800 <= t[p - 1] <= 0xdbff && 0xdc00 <= t[p] <= 0xdfff)
  }

  /**
    What is asked of an operation by itself: canonical paths, a known source at its path for all but new documents,
    well-formed texts of at most 2^20 bytes, and a range inside the source that cuts no surrogate pair.
   */
  lemma OperationSpelled(op: Operation, sources: Sources)
    ensures ValidOperation(op, sources) <==>
      && RepositoryPath.IsRepositoryRelativePath(op.path)
      && (op.CreateDocument? ==> Utf.WellFormed(op.content) && |Encode(op.content)| <= 1_048_576)
      && (op.MoveDocument? ==>
            && op.sourceId in sources && sources[op.sourceId].path == op.path && op.destinationPath != op.path
            && RepositoryPath.IsRepositoryRelativePath(op.destinationPath))
      && (op.TextEdit? ==>
            && op.sourceId in sources && sources[op.sourceId].path == op.path
            && Utf.WellFormed(op.newText) && |Encode(op.newText)| <= 1_048_576
            && op.start <= op.end <= |sources[op.sourceId].text|
            && BetweenScalars(sources[op.sourceId].text, op.start) && BetweenScalars(sources[op.sourceId].text, op.end))
  {
    hide RepositoryPath.IsRepositoryRelativePath, Encode, Utf.WellFormed, Utf.ByteLength;
    match op {
      case CreateDocument(_, content) => EncodedLength(content);
      case MoveDocument(_, _, _) =>
      case TextEdit(_, _, _, _, newText) => EncodedLength(newText);
    }
  }
}
