/** What the recogniser of resolution traces does, step by step, as functions of the text. */
module TraceJsonSpec {
  import opened Text
  import opened JsonGrammar

  const MAX_NODES := 65_536
  const MAX_DEPTH := 256

  /** Why a text is rejected: not JSON, a repeated key, or over a structural limit. */
  datatype Reason = Syntax | DuplicateKey | Limits

  type Scan = Result<(nat, nat), Reason>

  function SkipWs(t: Text, i: nat): (j: nat)
    ensures j >= i && (i <= |t| ==> j <= |t|) && (i > |t| ==> j == i)
    ensures !IsWs(At(t, j))
    decreases |t| - i
  {
    if IsWs(At(t, i)) then SkipWs(t, i + 1) else i
  }

  function SkipDigits(t: Text, i: nat): (j: nat)
    ensures j >= i && (i <= |t| ==> j <= |t|) && (i > |t| ==> j == i)
    ensures !IsDigit(At(t, j))
    decreases |t| - i
  {
    if IsDigit(At(t, i)) then SkipDigits(t, i + 1) else i
  }

  /** Four hexadecimal digits start at `i`. */
  predicate HexQuad(t: Text, i: nat) {
    i + 4 <= |t| && IsHex(t[i]) && IsHex(t[i + 1]) && IsHex(t[i + 2]) && IsHex(t[i + 3])
  }

  /** From inside a string token, the position just after its closing quote. */
  function ScanChars(t: Text, i: nat): (r: Option<nat>)
    ensures r.Some? ==> i < r.value <= |t| && t[r.value - 1] == QUOTE
    decreases |t| - i
  {
    if i >= |t| || t[i] < 0x20 then None
    else if t[i] == QUOTE then Some(i + 1)
    else if t[i] != BACKSLASH then ScanChars(t, i + 1)
    else if At(t, i + 1) == LOWER_U then (if HexQuad(t, i + 2) then ScanChars(t, i + 6) else None)
    else if IsSimpleEscape(At(t, i + 1)) then ScanChars(t, i + 2)
    else None
  }

  function ScanString(t: Text, i: nat): (r: Option<nat>)
    ensures r.Some? ==> i + 1 < r.value <= |t|
  {
    if At(t, i) != QUOTE then None else ScanChars(t, i + 1)
  }

  /** The string value of the token body that stands from `i` up to `end`, as `JSON.parse` reads it. */
  function Unescape(t: Text, i: nat, end: nat): Text
    requires end <= |t|
    decreases end - i
  {
    if i >= end then []
    else if t[i] != BACKSLASH || i + 1 == end then [t[i]] + Unescape(t, i + 1, end)
    else if t[i + 1] == LOWER_U && HexQuad(t, i + 2) then
      [HexUnit(t[i + 2], t[i + 3], t[i + 4], t[i + 5])] + Unescape(t, i + 6, end)
    else [EscapeValue(t[i + 1])] + Unescape(t, i + 2, end)
  }

  /** The whole part. A lone sign at the end of the text is let through, one past the end. */
  function ScanWhole(t: Text, i: nat): (r: Option<nat>)
    ensures r.Some? ==> i < r.value <= |t| + 1 || (i >= |t| && r.value == i + 1)
  {
    var first := At(t, i);
    if first == ZERO then Some(i + 1)
    else if first != NAN && (first < 0x31 || first > 0x39) then None
    else Some(SkipDigits(t, i + 1))
  }

  function ScanFraction(t: Text, i: nat): (r: Option<nat>)
    ensures r.Some? ==> i <= r.value && (r.value == i || r.value <= |t|)
  {
    if At(t, i) != POINT then Some(i)
    else if SkipDigits(t, i + 1) == i + 1 then None
    else Some(SkipDigits(t, i + 1))
  }

  function ScanExponent(t: Text, i: nat): (r: Option<nat>)
    ensures r.Some? ==> i <= r.value && (r.value == i || r.value <= |t|)
  {
    if !IsE(At(t, i)) then Some(i)
    else
      var k := if At(t, i + 1) == PLUS || At(t, i + 1) == MINUS then i + 2 else i + 1;
      if SkipDigits(t, k) == k then None else Some(SkipDigits(t, k))
  }

  function ScanNumber(t: Text, i: nat): (r: Option<nat>)
    requires i < |t|
    ensures r.Some? ==> i < r.value <= |t| + 1
  {
    match ScanWhole(t, if t[i] == MINUS then i + 1 else i)
    case None => None
    case Some(j) =>
      match ScanFraction(t, j)
      case None => None
      case Some(k) => ScanExponent(t, k)
  }

  predicate StartsWith(t: Text, i: nat, word: Text) {
    i + |word| <= |t| && t[i..i + |word|] == word
  }

  function Lift(end: Option<nat>, n: nat): Scan {
    match end
    case None => Failure(Syntax)
    case Some(j) => Success((j, n))
  }

  /** `value`: white space and one value from `i`; the result is the next position and the value count. */
  function ScanValue(t: Text, i: nat, n: nat, depth: nat): (r: Scan)
    requires i <= |t|
    ensures r.Success? ==> i < r.value.0 <= |t| + 1
    decreases |t| - i, 1
  {
    var j := SkipWs(t, i);
    var c := At(t, j);
    if n + 1 > MAX_NODES || depth > MAX_DEPTH then Failure(Limits)
    else if c == LBRACE then ScanObject(t, j, n + 1, depth + 1)
    else if c == LBRACKET then ScanArray(t, j, n + 1, depth + 1)
    else if c == QUOTE then Lift(ScanString(t, j), n + 1)
    else if c == MINUS || IsDigit(c) then Lift(ScanNumber(t, j), n + 1)
    else if StartsWith(t, j, TRUE) then Success((j + 4, n + 1))
    else if StartsWith(t, j, FALSE) then Success((j + 5, n + 1))
    else if StartsWith(t, j, NULL) then Success((j + 4, n + 1))
    else Failure(Syntax)
  }

  function ScanObject(t: Text, i: nat, n: nat, depth: nat): (r: Scan)
    requires i < |t|
    ensures r.Success? ==> i < r.value.0 <= |t|
    decreases |t| - i, 0
  {
    var j := SkipWs(t, i + 1);
    if At(t, j) == RBRACE then Success((j + 1, n)) else ScanMembers(t, j, n, depth, {})
  }

  /** White space, a fresh key and a colon: the position after the colon, and the key. */
  function ScanKey(t: Text, i: nat, keys: set<Text>): (r: Result<(nat, Text), Reason>)
    requires i <= |t|
    ensures r.Success? ==> i < r.value.0 <= |t|
  {
    var j := SkipWs(t, i);
    match ScanString(t, j)
    case None => Failure(Syntax)
    case Some(e) =>
      var key := Unescape(t, j + 1, e - 1);
      var k := SkipWs(t, e);
      if key in keys then Failure(DuplicateKey)
      else if At(t, k) != COLON then Failure(Syntax)
      else Success((k + 1, key))
  }

  function ScanMembers(t: Text, i: nat, n: nat, depth: nat, keys: set<Text>): (r: Scan)
    requires i <= |t|
    ensures r.Success? ==> i < r.value.0 <= |t|
    decreases |t| - i, 2
  {
    match ScanKey(t, i, keys)
    case Failure(why) => Failure(why)
    case Success((k, key)) =>
      match ScanValue(t, k, n, depth)
      case Failure(why) => Failure(why)
      case Success((v, m)) =>
        var w := SkipWs(t, v);
        if At(t, w) == RBRACE then Success((w + 1, m))
        else if At(t, w) != COMMA then Failure(Syntax)
        else ScanMembers(t, w + 1, m, depth, keys + {key})
  }

  function ScanArray(t: Text, i: nat, n: nat, depth: nat): (r: Scan)
    requires i < |t|
    ensures r.Success? ==> i < r.value.0 <= |t|
    decreases |t| - i, 0
  {
    var j := SkipWs(t, i + 1);
    if At(t, j) == RBRACKET then Success((j + 1, n)) else ScanElements(t, j, n, depth)
  }

  function ScanElements(t: Text, i: nat, n: nat, depth: nat): (r: Scan)
    requires i <= |t|
    ensures r.Success? ==> i < r.value.0 <= |t|
    decreases |t| - i, 2
  {
    match ScanValue(t, i, n, depth)
    case Failure(why) => Failure(why)
    case Success((v, m)) =>
      var w := SkipWs(t, v);
      if At(t, w) == RBRACKET then Success((w + 1, m))
      else if At(t, w) != COMMA then Failure(Syntax)
      else ScanElements(t, w + 1, m, depth)
  }

  /** The verdict on a whole text: the reason it is rejected for, or none. */
  function Preflight(t: Text): Option<Reason> {
    match ScanValue(t, 0, 0, 0)
    case Failure(why) => Some(why)
    case Success((j, _)) => if SkipWs(t, j) == |t| then None else Some(Syntax)
  }
}
