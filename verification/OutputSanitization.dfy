/** Making output text inert, and renaming sanitized keys that collide. */
module OutputSanitization {
  import opened Text
  import opened Numerals

  const ESCAPE: CodeUnit := 0x1b
  const BRACKET: CodeUnit := 0x5b
  const M: CodeUnit := 0x6d
  const SEMICOLON: CodeUnit := 0x3b
  const REPLACEMENT: CodeUnit := 0xfffd
  const DASH: CodeUnit := 0x2d

  predicate IsBidiControl(u: int) {
    u == 0x061c || u == 0x200e || u == 0x200f || 0x202a <= u <= 0x202e || 0x2066 <= u <= 0x2069
  }

  predicate IsActive(u: int) {
    u <= 0x1f || 0x7f <= u <= 0x9f || IsBidiControl(u)
  }

  ghost predicate IsInert(t: Text) { forall i | 0 <= i < |t| :: !IsActive(t[i]) }

  // ---------- controls ----------

  /** The position of the `m` that ends a colour sequence whose parameters start at `c`. */
  function SequenceEnd(t: Text, c: nat): (r: Option<nat>)
    ensures r.Some? ==> c <= r.value < |t|
    decreases |t| - c
  {
    if c >= |t| then None
    else if t[c] == M then Some(c)
    else if IsDigit(t[c]) || t[c] == SEMICOLON then SequenceEnd(t, c + 1)
    else None
  }

  /** A complete colour sequence vanishes; every other active unit becomes the replacement character. */
  function Inert(t: Text, i: nat): Text
    decreases |t| - i
  {
    if i >= |t| then []
    else if t[i] == ESCAPE && At(t, i + 1) == BRACKET && SequenceEnd(t, i + 2).Some? then
      Inert(t, SequenceEnd(t, i + 2).value + 1)
    else [if IsActive(t[i]) then REPLACEMENT else t[i]] + Inert(t, i + 1)
  }

  method FindSequenceEnd(t: Text, start: nat) returns (r: Option<nat>)
    ensures r == SequenceEnd(t, start)
  {
    var cursor := start;
    while cursor < |t|
      invariant SequenceEnd(t, cursor) == SequenceEnd(t, start)
      decreases |t| - cursor
    {
      var candidate := t[cursor];
      if candidate == M {
        return Some(cursor);
      }
      if !IsDigit(candidate) && candidate != SEMICOLON {
        return None;
      }
      cursor := cursor + 1;
    }
    return None;
  }

  lemma InertStep(t: Text, i: nat, before: Text)
    requires i < |t|
    ensures var end := if t[i] == ESCAPE && At(t, i + 1) == BRACKET then SequenceEnd(t, i + 2) else None;
      before + Inert(t, i) == if end.Some? then before + Inert(t, end.value + 1)
                              else (before + [if IsActive(t[i]) then REPLACEMENT else t[i]]) + Inert(t, i + 1)
    ensures t[i] == ESCAPE ==> IsActive(t[i])
  {
    hide SequenceEnd;
    Associative(before, [if IsActive(t[i]) then REPLACEMENT else t[i]], Inert(t, i + 1));
  }

  method InertControls(t: Text) returns (output: Text)
    ensures output == Inert(t, 0)
  {
    hide Inert, SequenceEnd, IsActive;
    output := [];
    var index := 0;
    while index < |t|
      invariant output + Inert(t, index) == Inert(t, 0)
    {
      InertStep(t, index, output);
      var unit := t[index];
      if unit == ESCAPE {
        var end: Option<nat> := None;
        if At(t, index + 1) == BRACKET {
          end := FindSequenceEnd(t, index + 2);
        }
        if end.Some? {
          index := end.value;
        } else {
          output := output + [REPLACEMENT];
        }
      } else if IsActive(unit) {
        output := output + [REPLACEMENT];
      } else {
        output := output + [unit];
      }
      index := index + 1;
    }
    InertEnd(t, index, output);
  }

  lemma InertEnd(t: Text, i: nat, before: Text)
    requires i >= |t|
    ensures before + Inert(t, i) == before
  {
  }

  lemma {:induction false} OutputIsInert(t: Text, i: nat)
    ensures IsInert(Inert(t, i))
    decreases |t| - i
  {
    if i < |t| {
      if t[i] == ESCAPE && At(t, i + 1) == BRACKET && SequenceEnd(t, i + 2).Some? {
        OutputIsInert(t, SequenceEnd(t, i + 2).value + 1);
      } else {
        OutputIsInert(t, i + 1);
      }
    }
  }

  lemma {:induction false} InertStays(t: Text, i: nat)
    requires IsInert(t) && i <= |t|
    ensures Inert(t, i) == t[i..]
    decreases |t| - i
  {
    if i < |t| {
      assert !IsActive(t[i]);
      InertStays(t, i + 1);
    }
  }

  /** No active unit comes out, a text without any is left as it is, and so a second pass changes nothing. */
  lemma InertExactly(t: Text)
    ensures IsInert(Inert(t, 0)) && Inert(Inert(t, 0), 0) == Inert(t, 0)
    ensures Inert(t, 0) == t <==> IsInert(t)
  {
    hide Inert;
    OutputIsInert(t, 0);
    InertStays(Inert(t, 0), 0);
    assert Inert(t, 0)[0..] == Inert(t, 0);
    if IsInert(t) {
      InertStays(t, 0);
      assert t[0..] == t;
    }
  }

  // ---------- keys ----------

  function Candidate(base: Text, k: nat): Text { base + [DASH] + Show(k) }

  lemma CandidateInjective(base: Text, j: nat, k: nat)
    requires Candidate(base, j) == Candidate(base, k)
    ensures j == k
  {
    assert Show(j) == Candidate(base, j)[|base| + 1..] && Show(k) == Candidate(base, k)[|base| + 1..];
  }

  /** The taken keys that later candidates would run into. */
  ghost function Ahead(base: Text, taken: set<Text>, k: nat): set<Text> {
    set x | x in taken && exists j: nat :: j >= k && x == Candidate(base, j)
  }

  lemma AheadShrinks(base: Text, taken: set<Text>, k: nat)
    requires Candidate(base, k) in taken
    ensures Ahead(base, taken, k + 1) < Ahead(base, taken, k)
  {
    assert Candidate(base, k) in Ahead(base, taken, k);
    if Candidate(base, k) in Ahead(base, taken, k + 1) {
      var j: nat :| j >= k + 1 && Candidate(base, k) == Candidate(base, j);
      CandidateInjective(base, j, k);
    }
  }

  /** The loop that looks for a free key: it ends whatever keys are taken. */
  method FreeKey(base: Text, taken: set<Text>) returns (key: Text, ghost suffix: Option<nat>)
    ensures key !in taken
    ensures key == if suffix.None? then base else Candidate(base, suffix.value)
    ensures suffix.None? <==> base !in taken
    ensures suffix.Some? ==> suffix.value >= 2 && forall j | 2 <= j < suffix.value :: Candidate(base, j) in taken
  {
    hide Candidate;
    key := base;
    suffix := None;
    var collision := 2;
    if key in taken {
      key := Candidate(base, collision);
      suffix := Some(collision);
      collision := collision + 1;
      while key in taken
        invariant collision >= 3 && suffix == Some(collision - 1) && key == Candidate(base, collision - 1)
        invariant forall j | 2 <= j < collision - 1 :: Candidate(base, j) in taken
        decreases Ahead(base, taken, collision - 1)
      {
        AheadShrinks(base, taken, collision - 1);
        key := Candidate(base, collision);
        suffix := Some(collision);
        collision := collision + 1;
      }
    }
  }

  datatype Member<V> = Member(key: Text, value: V)

  ghost predicate DistinctKeys<V>(ms: seq<Member<V>>) {
    forall i, j | 0 <= i < j < |ms| :: ms[i].key != ms[j].key
  }

  /** A key comes from the sanitized key of the member in its place, with a suffix or without. */
  ghost predicate ComesFrom(key: Text, base: Text) {
    key == base || exists k: nat :: k >= 2 && key == Candidate(base, k)
  }

  /**
    The object branch of `sanitizeOutputJson`, as the list of its insertions: each member is inserted in its turn with
    its value, and none overwrites another.
   */
  method SanitizeMembers<V, W>(ms: seq<Member<V>>, sanitizeKey: Text -> Text, sanitizeValue: V -> W)
    returns (output: seq<Member<W>>)
    ensures |output| == |ms| && DistinctKeys(output)
    ensures forall i | 0 <= i < |ms| ::
              output[i].value == sanitizeValue(ms[i].value) && ComesFrom(output[i].key, sanitizeKey(ms[i].key))
  {
    hide Candidate;
    output := [];
    var taken: set<Text> := {};
    for n := 0 to |ms|
      invariant |output| == n && DistinctKeys(output)
      invariant forall i | 0 <= i < n :: output[i].key in taken
      invariant forall i | 0 <= i < n ::
                  output[i].value == sanitizeValue(ms[i].value) && ComesFrom(output[i].key, sanitizeKey(ms[i].key))
    {
      ghost var suffix: Option<nat>;
      var key;
      key, suffix := FreeKey(sanitizeKey(ms[n].key), taken);
      taken := taken + {key};
      output := output + [Member(key, sanitizeValue(ms[n].value))];
    }
  }

  // ---------- what becomes of each part of a text ----------

  /** Reading from a place is reading the rest of the text. */
  lemma {:induction false} EndOfRest(t: Text, i: nat, c: nat)
    requires i <= c && i <= |t|
    ensures SequenceEnd(t[i..], c - i) == if SequenceEnd(t, c).None? then None else Some(SequenceEnd(t, c).value - i)
    decreases |t| - c
  {
    if c < |t| {
      EndOfRest(t, i, c + 1);
    }
  }

  function EndAt(t: Text, i: nat): Option<nat>
    requires i < |t|
  {
    if t[i] == ESCAPE && At(t, i + 1) == BRACKET then SequenceEnd(t, i + 2) else None
  }

  lemma InertOne(t: Text, i: nat)
    requires i < |t|
    ensures Inert(t, i) == if EndAt(t, i).Some? then Inert(t, EndAt(t, i).value + 1)
                           else [if IsActive(t[i]) then REPLACEMENT else t[i]] + Inert(t, i + 1)
    ensures EndAt(t, i).Some? ==> i < EndAt(t, i).value
  {
    hide SequenceEnd, IsActive;
  }

  lemma {:induction false} InertOfRest(t: Text, i: nat, k: nat)
    requires i <= k && i <= |t|
    ensures Inert(t[i..], k - i) == Inert(t, k)
    decreases |t| - k
  {
    hide Inert, SequenceEnd, IsActive;
    var r := t[i..];
    if k < |t| {
      assert r[k - i] == t[k] && At(r, k - i + 1) == At(t, k + 1);
      InertOne(t, k);
      InertOne(r, k - i);
      EndOfRest(t, i, k + 2);
      if EndAt(t, k).Some? {
        InertOfRest(t, i, EndAt(t, k).value + 1);
      } else {
        InertOfRest(t, i, k + 1);
      }
    } else {
      InertEnd(t, k, []);
      InertEnd(r, k - i, []);
      assert [] + Inert(t, k) == Inert(t, k) && [] + Inert(r, k - i) == Inert(r, k - i);
    }
  }

  /** Units that are not active stay as they are, whatever follows them. */
  lemma {:induction false} PlainStays(a: Text, b: Text)
    requires forall u | u in a :: 0x20 <= u && !(0x7f <= u <= 0x9f) && !IsBidiControl(u)
    ensures Inert(a + b, 0) == a + Inert(b, 0)
  {
    if a == [] {
      assert a + b == b;
    } else {
      assert a[0] in a && forall u | u in a[1..] :: u in a;
      PlainStays(a[1..], b);
      assert (a + b)[1..] == a[1..] + b;
      InertOfRest(a + b, 1, 1);
      assert a == [a[0]] + a[1..];
    }
  }

  lemma {:induction false} ParametersEnd(head: Text, p: Text, b: Text)
    requires forall u | u in p :: 0x30 <= u <= 0x39 || u == 0x3b
    ensures SequenceEnd(head + p + [0x6d] + b, |head|) == Some(|head| + |p|)
    decreases |p|
  {
    var t := head + p + [0x6d] + b;
    if p == [] {
      assert t[|head|] == 0x6d;
    } else {
      assert p[0] in p && forall u | u in p[1..] :: u in p;
      ParametersEnd(head + [p[0]], p[1..], b);
      assert (head + [p[0]]) + p[1..] == head + p;
      assert t[|head|] == p[0];
    }
  }

  /** A complete colour sequence, escape, bracket, digits and semicolons, `m`, leaves nothing behind. */
  lemma ColourVanishes(p: Text, b: Text)
    requires forall u | u in p :: 0x30 <= u <= 0x39 || u == 0x3b
    ensures Inert([0x1b, 0x5b] + p + [0x6d] + b, 0) == Inert(b, 0)
  {
    hide SequenceEnd;
    var t := [0x1b, 0x5b] + p + [0x6d] + b;
    ParametersEnd([0x1b, 0x5b], p, b);
    InertOfRest(t, |p| + 3, |p| + 3);
    assert t[|p| + 3..] == b;
  }

  /** A sequence is complete only if digits and semicolons lead up to its `m`. */
  lemma {:induction false} EndMeans(t: Text, c: nat)
    requires SequenceEnd(t, c).Some?
    ensures t[SequenceEnd(t, c).value] == 0x6d
    ensures forall i | c <= i < SequenceEnd(t, c).value :: 0x30 <= t[i] <= 0x39 || t[i] == 0x3b
    decreases |t| - c
  {
    if t[c] != M {
      EndMeans(t, c + 1);
    }
  }

  /** Every other control character or direction mark becomes one replacement character. */
  lemma ActiveReplaced(u: CodeUnit, b: Text)
    requires || u <= 0x1f || 0x7f <= u <= 0x9f || u in {0x061c, 0x200e, 0x200f}
             || 0x202a <= u <= 0x202e || 0x2066 <= u <= 0x2069
    requires u == 0x1b ==> !exists p, rest :: && b == [0x5b] + p + [0x6d] + rest
                                              && forall v | v in p :: 0x30 <= v <= 0x39 || v == 0x3b
    ensures Inert([u] + b, 0) == [0xfffd] + Inert(b, 0)
  {
    hide SequenceEnd;
    var t := [u] + b;
    InertOfRest(t, 1, 1);
    assert t[1..] == b;
    if u == 0x1b && At(t, 1) == BRACKET && SequenceEnd(t, 2).Some? {
      var e := SequenceEnd(t, 2).value;
      EndMeans(t, 2);
      var p, rest := t[2..e], t[e + 1..];
      assert b == [0x5b] + p + [0x6d] + rest;
      assert forall v | v in p :: 0x30 <= v <= 0x39 || v == 0x3b;
    }
  }
}
