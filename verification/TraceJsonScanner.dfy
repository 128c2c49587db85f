/** The recogniser itself: a cursor and a value count that its mutually recursive procedures advance. */
module TraceJsonScanner {
  import opened Text
  import opened JsonGrammar
  import opened TraceJsonSpec
  import TraceJsonProof

  class Scanner {
    const text: Text
    var cursor: nat
    var nodes: nat

    constructor (text: Text)
      ensures this.text == text && cursor == 0 && nodes == 0
    {
      this.text := text;
      cursor, nodes := 0, 0;
    }

    /** The outcome of a procedure, as its specification function gives it for the entry state. */
    ghost predicate Follows(scan: Scan, why: Option<Reason>)
      reads this
    {
      match scan
      case Failure(reason) => why == Some(reason)
      case Success((j, m)) => why == None && cursor == j && nodes == m
    }

    method Whitespace()
      modifies `cursor
      ensures cursor == SkipWs(text, old(cursor))
    {
      while IsWs(At(text, cursor))
        invariant SkipWs(text, cursor) == SkipWs(text, old(cursor))
        decreases |text| - cursor
      {
        cursor := cursor + 1;
      }
    }

    method StringToken(decode: bool) returns (r: Option<Text>)
      requires cursor <= |text|
      modifies `cursor
      ensures match ScanString(text, old(cursor))
              case None => r == None
              case Some(e) => cursor == e && r == Some(if decode then Unescape(text, old(cursor) + 1, e - 1) else [])
    {
      var start := cursor;
      if At(text, cursor) != QUOTE {
        return None;
      }
      cursor := cursor + 1;
      while cursor < |text|
        invariant start < cursor
        invariant ScanString(text, start) == ScanChars(text, cursor)
      {
        var code := text[cursor];
        if code < 0x20 {
          return None;
        }
        if code == QUOTE {
          cursor := cursor + 1;
          return Some(if decode then Unescape(text, start + 1, cursor - 1) else []);
        }
        if code != BACKSLASH {
          cursor := cursor + 1;
          continue;
        }
        var escape := At(text, cursor + 1);
        if escape == LOWER_U {
          if !HexQuad(text, cursor + 2) {
            return None;
          }
          cursor := cursor + 6;
        } else if IsSimpleEscape(escape) {
          cursor := cursor + 2;
        } else {
          return None;
        }
      }
      return None;
    }

    method Digits() returns (n: nat)
      modifies `cursor
      ensures cursor == SkipDigits(text, old(cursor)) && n == cursor - old(cursor)
    {
      var start := cursor;
      while IsDigit(At(text, cursor))
        invariant start <= cursor
        invariant SkipDigits(text, cursor) == SkipDigits(text, start)
        decreases |text| - cursor
      {
        cursor := cursor + 1;
      }
      n := cursor - start;
    }

    /** Comparisons with what is past the end of the text are false, as comparisons with NaN are. */
    method WholePart() returns (ok: bool)
      modifies `cursor
      ensures ok == ScanWhole(text, old(cursor)).Some? && (ok ==> cursor == ScanWhole(text, old(cursor)).value)
    {
      if At(text, cursor) == ZERO {
        cursor := cursor + 1;
      } else {
        var first := At(text, cursor);
        if first != NAN && (first < 0x31 || first > 0x39) {
          return false;
        }
        cursor := cursor + 1;
        var n := Digits();
      }
      return true;
    }

    method FractionPart() returns (ok: bool)
      modifies `cursor
      ensures ok == ScanFraction(text, old(cursor)).Some? && (ok ==> cursor == ScanFraction(text, old(cursor)).value)
    {
      if At(text, cursor) == POINT {
        cursor := cursor + 1;
        var n := Digits();
        return n != 0;
      }
      return true;
    }

    method ExponentPart() returns (ok: bool)
      modifies `cursor
      ensures ok == ScanExponent(text, old(cursor)).Some? && (ok ==> cursor == ScanExponent(text, old(cursor)).value)
    {
      if IsE(At(text, cursor)) {
        cursor := cursor + 1;
        if At(text, cursor) == PLUS || At(text, cursor) == MINUS {
          cursor := cursor + 1;
        }
        var n := Digits();
        return n != 0;
      }
      return true;
    }

    method NumberToken() returns (ok: bool)
      requires cursor < |text|
      modifies `cursor
      ensures ok == ScanNumber(text, old(cursor)).Some? && (ok ==> cursor == ScanNumber(text, old(cursor)).value)
    {
      hide ScanWhole, ScanFraction, ScanExponent;
      if At(text, cursor) == MINUS {
        cursor := cursor + 1;
      }
      ok := WholePart();
      if ok {
        ok := FractionPart();
      }
      if ok {
        ok := ExponentPart();
      }
    }

    method ReadValue(depth: nat) returns (why: Option<Reason>)
      requires cursor <= |text|
      modifies this
      ensures Follows(ScanValue(text, old(cursor), old(nodes), depth), why)
      decreases |text| - cursor, 1
    {
      hide ScanObject, ScanArray, ScanString, ScanNumber;
      Whitespace();
      nodes := nodes + 1;
      if nodes > MAX_NODES || depth > MAX_DEPTH {
        return Some(Limits);
      }
      var character := At(text, cursor);
      if character == LBRACE {
        why := ReadObject(depth + 1);
      } else if character == LBRACKET {
        why := ReadArray(depth + 1);
      } else if character == QUOTE {
        var token := StringToken(false);
        why := if token.None? then Some(Syntax) else None;
      } else if character == MINUS || IsDigit(character) {
        var ok := NumberToken();
        why := if ok then None else Some(Syntax);
      } else if StartsWith(text, cursor, TRUE) {
        cursor, why := cursor + 4, None;
      } else if StartsWith(text, cursor, FALSE) {
        cursor, why := cursor + 5, None;
      } else if StartsWith(text, cursor, NULL) {
        cursor, why := cursor + 4, None;
      } else {
        why := Some(Syntax);
      }
    }

    method ReadObject(depth: nat) returns (why: Option<Reason>)
      requires cursor < |text|
      modifies this
      ensures Follows(ScanObject(text, old(cursor), old(nodes), depth), why)
      decreases |text| - cursor, 0
    {
      hide ScanValue, ScanString, SkipWs, Unescape;
      ghost var goal := ScanObject(text, cursor, nodes, depth);
      cursor := cursor + 1;
      Whitespace();
      var keys: set<Text> := {};
      if At(text, cursor) == RBRACE {
        cursor := cursor + 1;
        return None;
      }
      while true
        invariant old(cursor) < cursor <= |text|
        invariant ScanMembers(text, cursor, nodes, depth, keys) == goal
        decreases |text| - cursor
      {
        ghost var i := cursor;
        Whitespace();
        ghost var j := cursor;
        var key := StringToken(true);
        if key.None? {
          return Some(Syntax);
        }
        if key.value in keys {
          return Some(DuplicateKey);
        }
        ghost var earlier := keys;
        keys := keys + {key.value};
        Whitespace();
        if At(text, cursor) != COLON {
          return Some(Syntax);
        }
        cursor := cursor + 1;
        assert ScanKey(text, i, earlier) == Success((cursor, key.value));
        hide ScanKey;
        why := ReadValue(depth);
        if why.Some? {
          return;
        }
        Whitespace();
        if At(text, cursor) == RBRACE {
          cursor := cursor + 1;
          return None;
        }
        if At(text, cursor) != COMMA {
          return Some(Syntax);
        }
        cursor := cursor + 1;
      }
    }

    method ReadArray(depth: nat) returns (why: Option<Reason>)
      requires cursor < |text|
      modifies this
      ensures Follows(ScanArray(text, old(cursor), old(nodes), depth), why)
      decreases |text| - cursor, 0
    {
      hide ScanValue, SkipWs;
      ghost var goal := ScanArray(text, cursor, nodes, depth);
      cursor := cursor + 1;
      Whitespace();
      if At(text, cursor) == RBRACKET {
        cursor := cursor + 1;
        return None;
      }
      while true
        invariant old(cursor) < cursor <= |text|
        invariant ScanElements(text, cursor, nodes, depth) == goal
        decreases |text| - cursor
      {
        why := ReadValue(depth);
        if why.Some? {
          return;
        }
        Whitespace();
        if At(text, cursor) == RBRACKET {
          cursor := cursor + 1;
          return None;
        }
        if At(text, cursor) != COMMA {
          return Some(Syntax);
        }
        cursor := cursor + 1;
      }
    }
  }

  /** The whole recogniser: no reason to reject exactly for the duplicate-free JSON texts within the limits. */
  method PreflightTraceJson(text: Text) returns (why: Option<Reason>)
    ensures why == Preflight(text)
    ensures why == None <==> exists doc :: TraceJsonProof.IsTraceJson(text, doc)
  {
    var scanner := new Scanner(text);
    why := scanner.ReadValue(0);
    TraceJsonProof.AcceptsExactlyTraceJson(text);
    if why.None? {
      scanner.Whitespace();
      if scanner.cursor != |text| {
        why := Some(Syntax);
      }
    }
  }
}
