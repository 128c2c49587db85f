/** Canonical repository-relative paths, read with the POSIX grammar. */
module RepositoryPath {
  import opened Text
  import opened Utf
  import opened Separated

  datatype PathError =
    | ControlCharacter
    | MalformedUnicode
    | UnsupportedDevicePath
    | WindowsDriveRelative
    | NotRelative
    | WindowsSeparator
    | ParentTraversal

  const SLASH: CodeUnit := 0x2f
  const BACKSLASH: CodeUnit := 0x5c
  const COLON: CodeUnit := 0x3a
  const DOT: CodeUnit := 0x2e
  const ROOT: Text := [DOT]
  const PARENT: Text := [DOT, DOT]

  predicate IsControl(u: int) { 0 <= u <= 0x1f || u == 0x7f }

  predicate IsLetter(u: int) { 0x41 <= u <= 0x5a || 0x61 <= u <= 0x7a }

  predicate IsSeparator(u: int) { u == SLASH || u == BACKSLASH }

  /** The first control character or lone surrogate of the text. */
  function TextError(t: Text): Option<PathError>
    decreases |t|
  {
    if t == [] then None
    else if IsControl(t[0]) then Some(ControlCharacter)
    else if PairAt(t, 0) then TextError(t[2..])
    else if IsHigh(t[0]) || IsLow(t[0]) then Some(MalformedUnicode)
    else TextError(t[1..])
  }

  method ValidateText(t: Text) returns (r: Option<PathError>)
    ensures r == TextError(t)
  {
    var index := 0;
    assert t[0..] == t;
    while index < |t|
      invariant index <= |t| && TextError(t[index..]) == TextError(t)
    {
      var unit := t[index];
      assert t[index..][1..] == t[index + 1..];
      assert PairAt(t[index..], 0) ==> t[index..][2..] == t[index + 2..];
      if IsControl(unit) {
        return Some(ControlCharacter);
      }
      if IsHigh(unit) {
        var next := At(t, index + 1);
        if next == NAN || next < 0xdc00 || next > 0xdfff {
          return Some(MalformedUnicode);
        }
        index := index + 1;
      } else if IsLow(unit) {
        return Some(MalformedUnicode);
      }
      index := index + 1;
    }
    return None;
  }

  /** `\\?\`, `//./` and the like. */
  predicate IsDevicePath(t: Text) {
    |t| >= 4 && IsSeparator(t[0]) && IsSeparator(t[1]) && (t[2] == 0x3f || t[2] == DOT) && IsSeparator(t[3])
  }

  predicate HasDrive(t: Text) {
    |t| >= 2 && IsLetter(t[0]) && t[1] == COLON
  }

  predicate IsDriveRelative(t: Text) {
    HasDrive(t) && !IsSeparator(At(t, 2))
  }

  /** The drive-rooted form. The other fully qualified form, a UNC path, starts with a separator. */
  predicate IsDriveAbsolute(t: Text) {
    HasDrive(t) && IsSeparator(At(t, 2))
  }

  /**
    The pieces between slashes. The code splits at runs of slashes; that only leaves out empty pieces,
    which it drops anyway.
   */
  function Split(t: Text): (ss: seq<Text>)
    ensures |ss| > 0
  {
    SplitAt(SLASH, t)
  }

  function Join(ss: seq<Text>): Text
    requires |ss| > 0
  {
    JoinWith(SLASH, ss)
  }

  predicate Dropped(s: Text) { s == [] || s == ROOT }

  function Kept(ss: seq<Text>): seq<Text> {
    if ss == [] then []
    else (if Dropped(ss[0]) then [] else [ss[0]]) + Kept(ss[1..])
  }

  function CanonicalizeSegments(ss: seq<Text>): Result<Text, PathError> {
    if PARENT in ss then Failure(ParentTraversal)
    else if Kept(ss) == [] then Success(ROOT)
    else Success(Join(Kept(ss)))
  }

  /** `canonicalizeRepositoryRelativePath`. */
  function Canonicalize(t: Text): Result<Text, PathError> {
    match TextError(t)
    case Some(e) => Failure(e)
    case None =>
      if IsDevicePath(t) then Failure(UnsupportedDevicePath)
      else if IsDriveRelative(t) then Failure(WindowsDriveRelative)
      else if (|t| > 0 && IsSeparator(t[0])) || IsDriveAbsolute(t) then Failure(NotRelative)
      else if BACKSLASH in t then Failure(WindowsSeparator)
      else CanonicalizeSegments(Split(t))
  }

  method CanonicalizeRelative(t: Text) returns (r: Result<Text, PathError>)
    ensures r == Canonicalize(t)
  {
    var e := ValidateText(t);
    if e.Some? {
      return Failure(e.value);
    }
    if IsDevicePath(t) {
      return Failure(UnsupportedDevicePath);
    }
    if IsDriveRelative(t) {
      return Failure(WindowsDriveRelative);
    }
    if (|t| > 0 && IsSeparator(t[0])) || IsDriveAbsolute(t) {
      return Failure(NotRelative);
    }
    if BACKSLASH in t {
      return Failure(WindowsSeparator);
    }
    r := KeepSegments(Split(t));
  }

  method KeepSegments(segments: seq<Text>) returns (r: Result<Text, PathError>)
    ensures r == CanonicalizeSegments(segments)
  {
    var canonicalSegments: seq<Text> := [];
    for i := 0 to |segments|
      invariant PARENT !in segments[..i]
      invariant canonicalSegments + Kept(segments[i..]) == Kept(segments)
    {
      assert segments[i..][0] == segments[i] && segments[i..][1..] == segments[i + 1..];
      assert segments[..i + 1] == segments[..i] + [segments[i]];
      if !Dropped(segments[i]) {
        if segments[i] == PARENT {
          return Failure(ParentTraversal);
        }
        canonicalSegments := canonicalSegments + [segments[i]];
      }
    }
    assert segments[..|segments|] == segments;
    assert canonicalSegments + Kept([]) == canonicalSegments;
    return Success(if canonicalSegments == [] then ROOT else Join(canonicalSegments));
  }

  predicate IsRepositoryRelativePath(t: Text) { Canonicalize(t) == Success(t) }

  // ---------- splitting and joining ----------

  lemma JoinSplit(t: Text)
    ensures Join(Split(t)) == t
  {
    JoinSplitAt(SLASH, t);
  }

  ghost predicate NoSlash(ss: seq<Text>) { Avoid(SLASH, ss) }

  lemma SplitJoin(ss: seq<Text>)
    requires |ss| > 0 && NoSlash(ss)
    ensures Split(Join(ss)) == ss
  {
    SplitJoinWith(SLASH, ss);
  }

  lemma SplitNoSlash(t: Text)
    ensures NoSlash(Split(t))
  {
    SplitAvoids(SLASH, t);
  }

  // ---------- what is canonical ----------

  predicate GoodSegment(s: Text) { !Dropped(s) && s != PARENT }

  ghost predicate AllGood(ss: seq<Text>) {
    forall i | 0 <= i < |ss| :: GoodSegment(ss[i])
  }

  lemma {:induction false} KeptGood(ss: seq<Text>)
    requires PARENT !in ss && NoSlash(ss)
    ensures AllGood(Kept(ss)) && NoSlash(Kept(ss))
    ensures AllGood(ss) <==> Kept(ss) == ss
  {
    if ss != [] {
      assert ss[0] in ss && forall s | s in ss[1..] :: s in ss;
      KeptGood(ss[1..]);
      assert ss == [ss[0]] + ss[1..];
      KeptShorter(ss[1..]);
      if !Dropped(ss[0]) {
        assert Kept(ss)[1..] == Kept(ss[1..]);
        assert AllGood(ss) <==> AllGood(ss[1..]);
      }
    }
  }

  lemma {:induction false} KeptShorter(ss: seq<Text>)
    ensures |Kept(ss)| <= |ss|
  {
    if ss != [] {
      KeptShorter(ss[1..]);
    }
  }

  /** Canonical paths: no bad character, no drive, and either `.` or good segments joined by single slashes. */
  ghost predicate Canonical(t: Text) {
    && TextError(t) == None && BACKSLASH !in t && !HasDrive(t)
    && (t == ROOT || AllGood(Split(t)))
  }

  lemma CanonicalExactly(t: Text)
    ensures IsRepositoryRelativePath(t) <==> Canonical(t)
  {
    hide TextError, Split, Kept, Join, Dropped;
    SegmentsExactly(t);
    FirstPiece(t);
    DeviceStart(t);
  }

  lemma DeviceStart(t: Text)
    ensures IsDevicePath(t) ==> IsSeparator(t[0])
    ensures |t| > 0 && t[0] == SLASH ==> t != ROOT && !GoodSegment([])
    ensures HasDrive(t) <==> IsDriveRelative(t) || IsDriveAbsolute(t)
    ensures !HasDrive(ROOT)
  {
  }

  lemma SegmentsExactly(t: Text)
    ensures CanonicalizeSegments(Split(t)) == Success(t) <==> t == ROOT || AllGood(Split(t))
  {
    hide Split, Join, Kept, Dropped;
    var ss := Split(t);
    SplitNoSlash(t);
    JoinSplit(t);
    RootSplit();
    if PARENT !in ss {
      KeptGood(ss);
      if Kept(ss) != [] {
        SplitJoin(Kept(ss));
        NotRoot(Kept(ss));
      }
    } else {
      var i :| 0 <= i < |ss| && ss[i] == PARENT;
      assert !GoodSegment(ss[i]);
    }
  }

  lemma RootSplit()
    ensures Split(ROOT) == [ROOT] && Kept([ROOT]) == [] && HasDrive(ROOT) == false && Split([]) == [[]]
  {
    assert FirstAt(SLASH, ROOT) == 1;
  }

  lemma NotRoot(ss: seq<Text>)
    requires |ss| > 0 && AllGood(ss) && NoSlash(ss)
    ensures Join(ss) != ROOT
  {
    SplitJoin(ss);
    RootSplit();
    assert GoodSegment(ss[0]);
  }

  /** A path that starts with a slash has an empty first piece. */
  lemma FirstPiece(t: Text)
    ensures |t| > 0 && t[0] == SLASH ==> Split(t)[0] == []
    ensures |t| > 0 && t[0] == BACKSLASH ==> BACKSLASH in t
  {
  }

  // ---------- canonicalising twice ----------

  ghost predicate NoControl(t: Text) { forall i | 0 <= i < |t| :: !IsControl(t[i]) }

  lemma {:induction false} CleanText(t: Text)
    ensures TextError(t) == None <==> WellFormed(t) && NoControl(t)
    decreases |t|
  {
    if t != [] {
      var k := if PairAt(t, 0) then 2 else 1;
      CleanText(t[k..]);
      assert NoControl(t) <==> NoControl(t[..k]) && NoControl(t[k..]) by {
        assert t == t[..k] + t[k..];
      }
    }
  }

  /** A text may be cut next to any unit that is no surrogate. */
  lemma {:induction false} WellFormedCut(a: Text, u: CodeUnit, b: Text)
    requires WellFormed(a + [u] + b) && !IsHigh(u) && !IsLow(u)
    ensures WellFormed(a) && WellFormed(b)
    decreases |a|
  {
    var t := a + [u] + b;
    if a == [] {
      assert t[1..] == b;
    } else {
      var k := if PairAt(t, 0) then 2 else 1;
      assert t[0] == a[0];
      assert k <= |a|;
      assert t[k..] == a[k..] + [u] + b;
      WellFormedCut(a[k..], u, b);
      assert PairAt(a, 0) == PairAt(t, 0);
    }
  }

  ghost predicate AllClean(ss: seq<Text>) {
    forall i | 0 <= i < |ss| :: WellFormed(ss[i]) && NoControl(ss[i]) && BACKSLASH !in ss[i]
  }

  lemma {:induction false} SplitClean(t: Text)
    requires WellFormed(t) && NoControl(t) && BACKSLASH !in t
    ensures AllClean(Split(t))
    decreases |t|
  {
    var i := FirstAt(SLASH, t);
    if i < |t| {
      assert t == t[..i] + [SLASH] + t[i + 1..];
      WellFormedCut(t[..i], SLASH, t[i + 1..]);
      SplitClean(t[i + 1..]);
    }
  }

  lemma {:induction false} KeptClean(ss: seq<Text>)
    requires AllClean(ss)
    ensures AllClean(Kept(ss))
  {
    if ss != [] {
      KeptClean(ss[1..]);
    }
  }

  lemma {:induction false} JoinClean(ss: seq<Text>)
    requires |ss| > 0 && AllClean(ss)
    ensures WellFormed(Join(ss)) && NoControl(Join(ss)) && BACKSLASH !in Join(ss)
  {
    if |ss| > 1 {
      JoinClean(ss[1..]);
      WellFormedConcat(ss[0], [SLASH] + Join(ss[1..]));
      assert Join(ss) == ss[0] + ([SLASH] + Join(ss[1..]));
      assert ([SLASH] + Join(ss[1..]))[1..] == Join(ss[1..]);
    }
  }

  /** The first piece that is neither empty nor `.`. */
  function LeadingPiece(ss: seq<Text>): Option<Text> {
    if ss == [] then None else if Dropped(ss[0]) then LeadingPiece(ss[1..]) else Some(ss[0])
  }

  lemma {:induction false} LeadingIsKept(ss: seq<Text>)
    ensures LeadingPiece(ss) == if Kept(ss) == [] then None else Some(Kept(ss)[0])
  {
    if ss != [] {
      LeadingIsKept(ss[1..]);
    }
  }

  /** The first piece of a path decides whether the path has a drive: a slash is no colon. */
  lemma DriveOfJoin(ss: seq<Text>)
    requires |ss| > 0 && ss[0] != []
    ensures HasDrive(Join(ss)) <==> HasDrive(ss[0])
  {
    var t := Join(ss);
    if |ss| > 1 {
      assert t == ss[0] + ([SLASH] + JoinWith(SLASH, ss[1..]));
      assert |ss[0]| == 1 ==> t[1] == SLASH;
    }
  }

  /** The input brings a drive to the front: its first piece that is kept starts with a letter and a colon. */
  predicate LeadsWithDrive(t: Text) {
    var piece := LeadingPiece(Split(t));
    piece.Some? && HasDrive(piece.value)
  }

  /**
    The output is canonical, hence canonicalises to itself, exactly when the first piece of the input that is neither
    empty nor `.` does not start with a drive: dropping a leading `.` can bring `C:` to the front.
   */
  lemma CanonicalizeTwice(t: Text)
    requires Canonicalize(t).Success?
    ensures IsRepositoryRelativePath(Canonicalize(t).value) <==> !LeadsWithDrive(t)
  {
    hide TextError, WellFormed, Split, Join, HasDrive;
    var r, ss := Canonicalize(t).value, Split(t);
    CleanText(t);
    CleanText(r);
    CanonicalExactly(r);
    SplitNoSlash(t);
    SplitClean(t);
    KeptGood(ss);
    KeptClean(ss);
    LeadingIsKept(ss);
    if Kept(ss) != [] {
      JoinClean(Kept(ss));
      SplitJoin(Kept(ss));
      assert GoodSegment(Kept(ss)[0]);
      DriveOfJoin(Kept(ss));
    } else {
      CleanText(ROOT);
      RootClean();
    }
  }

  lemma RootClean()
    ensures TextError(ROOT) == None && !HasDrive(ROOT)
  {
  }

  lemma JoinTwo(a: Text, b: Text)
    ensures Join([a, b]) == a + [SLASH] + b
  {
    assert [a, b][1..] == [b];
    assert JoinWith(SLASH, [b]) == b;
  }

  /** `./C:f` canonicalises to `C:f`, which is then rejected. */
  lemma CanonicalizeTwiceFails()
    ensures var t: Text := [DOT, SLASH, 0x43, COLON, 0x66];
      Canonicalize(t) == Success(t[2..]) && Canonicalize(t[2..]) == Failure(WindowsDriveRelative)
  {
    var t: Text := [DOT, SLASH, 0x43, COLON, 0x66];
    SplitJoin([ROOT, t[2..]]);
    JoinTwo(ROOT, t[2..]);
    assert t == ROOT + [SLASH] + t[2..];
    assert Kept([t[2..]]) == [t[2..]];
    CleanText(t);
    CleanText(t[2..]);
    assert WellFormed(t[2..]) by {
      assert WellFormed(t[4..]);
      assert WellFormed(t[3..]);
    }
    assert WellFormed(t[1..]);
  }

  // ---------- what canonicalising keeps ----------

  /** The places, from `i` on, of the pieces that are neither empty nor `.`. */
  function Places(ss: seq<Text>, i: nat): seq<nat>
    requires i <= |ss|
    decreases |ss| - i
  {
    if i == |ss| then [] else (if ss[i] == [] || ss[i] == [0x2e] then [] else [i]) + Places(ss, i + 1)
  }

  lemma {:induction false} PlacesExactly(ss: seq<Text>, i: nat, k: nat)
    requires i <= |ss|
    ensures k in Places(ss, i) <==> i <= k < |ss| && ss[k] != [] && ss[k] != [0x2e]
    decreases |ss| - i
  {
    if i < |ss| {
      PlacesExactly(ss, i + 1, k);
    }
  }

  lemma {:induction false} PlacesAscend(ss: seq<Text>, i: nat, a: nat, b: nat)
    requires i <= |ss| && a < b < |Places(ss, i)|
    ensures Places(ss, i)[a] < Places(ss, i)[b]
    decreases |ss| - i
  {
    var rest := Places(ss, i + 1);
    if ss[i] == [] || ss[i] == [0x2e] {
      PlacesAscend(ss, i + 1, a, b);
    } else if a == 0 {
      assert rest[b - 1] in rest;
      PlacesExactly(ss, i + 1, rest[b - 1]);
    } else {
      PlacesAscend(ss, i + 1, a - 1, b - 1);
    }
  }

  lemma {:induction false} KeptPlaces(ss: seq<Text>, i: nat)
    requires i <= |ss|
    ensures |Places(ss, i)| == |Kept(ss[i..])|
    ensures forall k | 0 <= k < |Places(ss, i)| :: Places(ss, i)[k] < |ss| && Kept(ss[i..])[k] == ss[Places(ss, i)[k]]
    decreases |ss| - i
  {
    if i < |ss| {
      KeptPlaces(ss, i + 1);
      assert ss[i..][0] == ss[i] && ss[i..][1..] == ss[i + 1..];
    }
  }

  /**
    Exactly which inputs canonicalise: well-formed text without control characters and backslashes, not starting with
    a slash or with a letter and a colon, and without a piece `..` between slashes.
   */
  lemma CanonicalizesExactly(t: Text)
    ensures Canonicalize(t).Success? <==>
            && WellFormed(t) && (forall u | u in t :: u > 0x1f && u != 0x7f && u != 0x5c)
            && (|t| == 0 || t[0] != 0x2f)
            && !(|t| >= 2 && (0x41 <= t[0] <= 0x5a || 0x61 <= t[0] <= 0x7a) && t[1] == 0x3a)
            && [0x2e, 0x2e] !in SplitAt(0x2f, t)
  {
    hide TextError, SplitAt, Kept, WellFormed;
    CleanText(t);
    DeviceStart(t);
    if NoControl(t) {
      assert forall u | u in t :: !IsControl(u);
    } else {
      var i :| 0 <= i < |t| && IsControl(t[i]);
      assert t[i] in t;
    }
    if |t| > 0 && t[0] == BACKSLASH {
      assert t[0] in t;
    }
  }

  /** A control character stands at `i`, and before it neither another one nor a lone surrogate. */
  ghost predicate ControlAt(t: Text, i: nat) {
    && i < |t| && (t[i] <= 0x1f || t[i] == 0x7f)
    && WellFormed(t[..i]) && forall k | 0 <= k < i :: t[k] > 0x1f && t[k] != 0x7f
  }

  /** A text is refused for a control character when one stands before any lone surrogate. */
  lemma {:induction false} ControlFirst(t: Text)
    ensures TextError(t).None? || TextError(t).value in {ControlCharacter, MalformedUnicode}
    ensures TextError(t) == Some(ControlCharacter) <==> exists i: nat :: ControlAt(t, i)
    decreases |t|
  {
    if t != [] {
      hide ControlAt;
      ControlHere(t);
      if !IsControl(t[0]) && (PairAt(t, 0) || !(IsHigh(t[0]) || IsLow(t[0]))) {
        var w := if PairAt(t, 0) then 2 else 1;
        ControlFirst(t[w..]);
        if i: nat :| ControlAt(t, i) {
          ControlMoves(t, w, i);
        }
        if i: nat :| ControlAt(t[w..], i) {
          ControlMoves(t, w, i + w);
        }
      }
    }
  }

  lemma ControlHere(t: Text)
    requires t != []
    ensures IsControl(t[0]) ==> ControlAt(t, 0)
    ensures (exists i: nat :: ControlAt(t, i)) ==> IsControl(t[0]) || PairAt(t, 0) || !(IsHigh(t[0]) || IsLow(t[0]))
    ensures PairAt(t, 0) ==> !ControlAt(t, 0) && !ControlAt(t, 1)
    ensures !IsControl(t[0]) ==> !ControlAt(t, 0)
  {
    if i: nat :| ControlAt(t, i) && i > 0 {
      assert WellFormed(t[..i]);
    }
  }

  lemma ControlMoves(t: Text, w: nat, i: nat)
    requires t != [] && !IsControl(t[0]) && w == (if PairAt(t, 0) then 2 else 1) && w <= i
    requires PairAt(t, 0) || !(IsHigh(t[0]) || IsLow(t[0]))
    ensures ControlAt(t, i) <==> ControlAt(t[w..], i - w)
  {
    if i <= |t| {
      assert t[w..][..i - w] == t[..i][w..];
      assert PairAt(t, 0) == PairAt(t[..i], 0);
      assert forall k | w <= k < i :: t[k] == t[w..][k - w];
      assert w == 2 ==> !IsControl(t[1]);
    }
  }

  /** Which inputs are refused for which reason: the first one that applies. */
  lemma RejectionSpelled(t: Text)
    requires WellFormed(t) && forall u | u in t :: u > 0x1f && u != 0x7f
    ensures var separators: set<int>, n := {0x2f, 0x5c}, |t|;
      var device := n >= 4 && t[0] in separators && t[1] in separators && t[2] in {0x3f, 0x2e} && t[3] in separators;
      var drive := n >= 2 && (0x41 <= t[0] <= 0x5a || 0x61 <= t[0] <= 0x7a) && t[1] == 0x3a;
      var rooted := (n > 0 && t[0] in separators) || (drive && n >= 3 && t[2] in separators);
      && (device ==> Canonicalize(t) == Failure(UnsupportedDevicePath))
      && (!device && drive && !rooted ==> Canonicalize(t) == Failure(WindowsDriveRelative))
      && (!device && rooted ==> Canonicalize(t) == Failure(NotRelative))
      && (!drive && !rooted && 0x5c in t ==> Canonicalize(t) == Failure(WindowsSeparator))
      && (!drive && !rooted && 0x5c !in t && [0x2e, 0x2e] in SplitAt(0x2f, t) ==>
            Canonicalize(t) == Failure(ParentTraversal))
  {
    hide TextError, SplitAt, Kept, WellFormed;
    CleanText(t);
    assert NoControl(t) by {
      assert forall i | 0 <= i < |t| :: t[i] in t;
    }
  }

  /**
    The output is `.` if no piece of the input is kept; otherwise its pieces are those of the input that are neither
    empty nor `.`, at the given places and in their order.
   */
  lemma CanonicalPieces(t: Text) returns (places: seq<nat>)
    requires Canonicalize(t).Success?
    ensures var ss, r := SplitAt(0x2f, t), Canonicalize(t).value;
      && (forall i, j | 0 <= i < j < |places| :: places[i] < places[j])
      && (forall k | 0 <= k < |ss| :: k in places <==> ss[k] != [] && ss[k] != [0x2e])
      && (places == [] ==> r == [0x2e])
      && (places != [] ==>
            && |SplitAt(0x2f, r)| == |places|
            && forall i | 0 <= i < |places| :: places[i] < |ss| && SplitAt(0x2f, r)[i] == ss[places[i]])
  {
    hide TextError, SplitAt, JoinWith, Places, Kept;
    var ss := Split(t);
    places := Places(ss, 0);
    assert ss[0..] == ss;
    KeptPlaces(ss, 0);
    forall k: nat
      ensures k in places <==> k < |ss| && ss[k] != [] && ss[k] != [0x2e]
    {
      PlacesExactly(ss, 0, k);
    }
    forall i, j | 0 <= i < j < |places|
      ensures places[i] < places[j]
    {
      PlacesAscend(ss, 0, i, j);
    }
    SplitNoSlash(t);
    if Kept(ss) != [] {
      forall i | 0 <= i < |Kept(ss)|
        ensures SLASH !in Kept(ss)[i]
      {
        assert Kept(ss)[i] == ss[places[i]];
      }
      SplitJoin(Kept(ss));
    }
  }
}
