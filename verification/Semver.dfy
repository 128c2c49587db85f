/** Versions and their precedence as Semantic Versioning 2.0.0 defines them. */
module Semver {
  import opened Text
  import opened Numerals
  import opened Separated
  import RepositoryPath

  const DOT: CodeUnit := 0x2e
  const DASH: CodeUnit := 0x2d
  const PLUS: CodeUnit := 0x2b

  datatype Version = Version(major: Text, minor: Text, patch: Text, prerelease: Option<Text>)

  predicate IsIdentifierUnit(u: int) { IsDigit(u) || RepositoryPath.IsLetter(u) || u == DASH }

  predicate IsIdentifier(t: Text) {
    t != [] && forall i | 0 <= i < |t| :: IsIdentifierUnit(t[i])
  }

  /** An identifier of digits only has no leading zero. */
  predicate IsPrereleaseIdentifier(t: Text) {
    IsIdentifier(t) && (AllDigits(t) ==> IsNumeral(t))
  }

  predicate ValidPrerelease(t: Text) {
    var ids := SplitAt(DOT, t);
    forall i | 0 <= i < |ids| :: IsPrereleaseIdentifier(ids[i])
  }

  predicate ValidBuild(t: Text) {
    var ids := SplitAt(DOT, t);
    forall i | 0 <= i < |ids| :: IsIdentifier(ids[i])
  }

  predicate ValidVersion(v: Version) {
    && IsNumeral(v.major) && IsNumeral(v.minor) && IsNumeral(v.patch)
    && (v.prerelease.Some? ==> ValidPrerelease(v.prerelease.value))
  }

  function WithoutBuild(t: Text): Text { t[..FirstAt(PLUS, t)] }

  /** The groups that the pattern captures. */
  function ParseSemver(t: Text): Option<Version> {
    var plus := FirstAt(PLUS, t);
    if plus < |t| && !ValidBuild(t[plus + 1..]) then None
    else
      var head := t[..plus];
      var dash := FirstAt(DASH, head);
      if dash < |head| && !ValidPrerelease(head[dash + 1..]) then None
      else
        var core := SplitAt(DOT, head[..dash]);
        if |core| == 3 && IsNumeral(core[0]) && IsNumeral(core[1]) && IsNumeral(core[2]) then
          Some(Version(core[0], core[1], core[2], if dash < |head| then Some(head[dash + 1..]) else None))
        else None
  }

  // ---------- precedence: section 11 of Semantic Versioning 2.0.0 ----------

  /** Item 11.4: numeric identifiers by value, below all others, which go by ASCII order. */
  predicate IdentifierLower(x: Text, y: Text) {
    if AllDigits(x) && AllDigits(y) then Decimal(x) < Decimal(y)
    else if AllDigits(x) || AllDigits(y) then AllDigits(x)
    else Less(x, y)
  }

  /** Item 11.4: the first difference decides; a longer list is above its prefixes. */
  predicate IdentifiersLower(xs: seq<Text>, ys: seq<Text>) {
    if ys == [] then false
    else if xs == [] then true
    else if xs[0] == ys[0] then IdentifiersLower(xs[1..], ys[1..])
    else IdentifierLower(xs[0], ys[0])
  }

  /** Item 11.3: a pre-release is below its release. */
  predicate PrereleaseLower(p: Option<Text>, q: Option<Text>) {
    p.Some? && (q.None? || IdentifiersLower(SplitAt(DOT, p.value), SplitAt(DOT, q.value)))
  }

  /** Items 11.1 and 11.2. */
  predicate Lower(a: Version, b: Version)
    requires ValidVersion(a) && ValidVersion(b)
  {
    if Decimal(a.major) != Decimal(b.major) then Decimal(a.major) < Decimal(b.major)
    else if Decimal(a.minor) != Decimal(b.minor) then Decimal(a.minor) < Decimal(b.minor)
    else if Decimal(a.patch) != Decimal(b.patch) then Decimal(a.patch) < Decimal(b.patch)
    else PrereleaseLower(a.prerelease, b.prerelease)
  }

  // ---------- the comparison ----------

  /** The sign of a result says which of two things is lower, and zero that they are the same. */
  predicate Tells(r: int, lower: bool, same: bool, higher: bool) {
    (r < 0 <==> lower) && (r == 0 <==> same) && (r > 0 <==> higher)
  }

  method CompareParts(aParts: seq<Text>, bParts: seq<Text>) returns (r: int)
    requires forall i | 0 <= i < |aParts| :: IsPrereleaseIdentifier(aParts[i])
    requires forall i | 0 <= i < |bParts| :: IsPrereleaseIdentifier(bParts[i])
    ensures Tells(r, IdentifiersLower(aParts, bParts), aParts == bParts, IdentifiersLower(bParts, aParts))
  {
    hide IdentifierLower, IsPrereleaseIdentifier;
    var index := 0;
    while index < |aParts| && index < |bParts|
      invariant index <= |aParts| && index <= |bParts| && aParts[..index] == bParts[..index]
      invariant IdentifiersLower(aParts[index..], bParts[index..]) == IdentifiersLower(aParts, bParts)
      invariant IdentifiersLower(bParts[index..], aParts[index..]) == IdentifiersLower(bParts, aParts)
    {
      var aPart, bPart := aParts[index], bParts[index];
      assert aParts[index..][1..] == aParts[index + 1..] && bParts[index..][1..] == bParts[index + 1..];
      if aPart != bPart {
        IdentifierTotal(aPart, bPart);
        Differ(aParts, bParts, index);
        return CompareIdentifiers(aPart, bPart);
      }
      index := index + 1;
    }
    assert aParts[..|aParts|] == aParts && bParts[..|bParts|] == bParts;
    r := |aParts| - |bParts|;
  }

  lemma Differ(a: seq<Text>, b: seq<Text>, i: nat)
    requires i < |a| && i < |b| && a[i] != b[i]
    ensures a != b
    ensures IdentifiersLower(a[i..], b[i..]) == IdentifierLower(a[i], b[i])
    ensures IdentifiersLower(b[i..], a[i..]) == IdentifierLower(b[i], a[i])
  {
  }

  function CompareIdentifiers(aPart: Text, bPart: Text): int {
    if AllDigits(aPart) && AllDigits(bPart) then CompareNumericText(aPart, bPart)
    else if AllDigits(aPart) then -1
    else if AllDigits(bPart) then 1
    else Compare(aPart, bPart)
  }

  lemma IdentifierTotal(x: Text, y: Text)
    requires IsPrereleaseIdentifier(x) && IsPrereleaseIdentifier(y)
    ensures Tells(CompareIdentifiers(x, y), IdentifierLower(x, y), x == y, IdentifierLower(y, x))
  {
    hide Decimal, Less;
    if AllDigits(x) && AllDigits(y) {
      CompareNumericTextIsIntegerOrder(x, y);
    } else if !AllDigits(x) && !AllDigits(y) {
      LessTotal(x, y);
    }
  }

  /** `compareSemver`: `None` unless both texts are versions. */
  method CompareSemver(left: Text, right: Text) returns (r: Option<int>)
    ensures r.Some? <==> ParseSemver(left).Some? && ParseSemver(right).Some?
    ensures r.Some? ==>
              && ParsedVersionsValid(left, right)
              && var a, b := ParseSemver(left).value, ParseSemver(right).value;
                 Tells(r.value, Lower(a, b), a == b, Lower(b, a))
  {
    hide Decimal, ParseSemver, ValidPrerelease;
    var a, b := ParseSemver(left), ParseSemver(right);
    if a.None? || b.None? {
      return None;
    }
    ParsedIsValid(left);
    ParsedIsValid(right);
    var parts := [(a.value.major, b.value.major), (a.value.minor, b.value.minor), (a.value.patch, b.value.patch)];
    for i := 0 to 3
      invariant forall j | 0 <= j < i :: parts[j].0 == parts[j].1
    {
      CompareNumericTextIsIntegerOrder(parts[i].0, parts[i].1);
      var compared := CompareNumericText(parts[i].0, parts[i].1);
      if compared != 0 {
        assert i > 0 ==> parts[0].0 == parts[0].1;
        assert i > 1 ==> parts[1].0 == parts[1].1;
        return Some(compared);
      }
    }
    assert parts[0].0 == parts[0].1 && parts[1].0 == parts[1].1 && parts[2].0 == parts[2].1;
    var p, q := a.value.prerelease, b.value.prerelease;
    if p == q {
      if p.Some? {
        NotLowerThanItself(SplitAt(DOT, p.value));
      }
      return Some(0);
    }
    if p.None? {
      return Some(1);
    }
    if q.None? {
      return Some(-1);
    }
    JoinSplitAt(DOT, p.value);
    JoinSplitAt(DOT, q.value);
    PrereleaseParts(p.value);
    PrereleaseParts(q.value);
    var compared := CompareParts(SplitAt(DOT, p.value), SplitAt(DOT, q.value));
    return Some(compared);
  }

  lemma PrereleaseParts(t: Text)
    requires ValidPrerelease(t)
    ensures forall i | 0 <= i < |SplitAt(DOT, t)| :: IsPrereleaseIdentifier(SplitAt(DOT, t)[i])
  {
  }

  predicate ParsedVersionsValid(left: Text, right: Text) {
    && ParseSemver(left).Some? && ValidVersion(ParseSemver(left).value)
    && ParseSemver(right).Some? && ValidVersion(ParseSemver(right).value)
  }

  lemma ParsedIsValid(t: Text)
    requires ParseSemver(t).Some?
    ensures ValidVersion(ParseSemver(t).value)
  {
    hide SplitAt, ValidBuild;
  }

  lemma {:induction false} NotLowerThanItself(xs: seq<Text>)
    ensures !IdentifiersLower(xs, xs)
  {
    if xs != [] {
      NotLowerThanItself(xs[1..]);
    }
  }

  // ---------- a strict total order on versions ----------

  lemma IdentifierTransitive(x: Text, y: Text, z: Text)
    requires IdentifierLower(x, y) && IdentifierLower(y, z)
    ensures IdentifierLower(x, z)
  {
    hide Decimal, Less;
    if !AllDigits(x) && !AllDigits(y) && !AllDigits(z) {
      LessTransitive(x, y, z);
    }
  }

  ghost predicate AllPrerelease(xs: seq<Text>) { forall i | 0 <= i < |xs| :: IsPrereleaseIdentifier(xs[i]) }

  lemma {:induction false} IdentifiersTransitive(xs: seq<Text>, ys: seq<Text>, zs: seq<Text>)
    requires AllPrerelease(xs) && AllPrerelease(ys) && AllPrerelease(zs)
    requires IdentifiersLower(xs, ys) && IdentifiersLower(ys, zs)
    ensures IdentifiersLower(xs, zs)
  {
    hide IdentifierLower, IsPrereleaseIdentifier;
    if xs != [] {
      var x, y, z := xs[0], ys[0], zs[0];
      if x == y == z {
        IdentifiersTransitive(xs[1..], ys[1..], zs[1..]);
      } else if x != y && y != z {
        IdentifierTransitive(x, y, z);
        if x == z {
          IdentifierTotal(x, y);
        }
      }
    }
  }

  lemma {:induction false} IdentifiersTotal(xs: seq<Text>, ys: seq<Text>)
    requires AllPrerelease(xs) && AllPrerelease(ys)
    ensures xs == ys || IdentifiersLower(xs, ys) || IdentifiersLower(ys, xs)
    ensures !(IdentifiersLower(xs, ys) && IdentifiersLower(ys, xs))
  {
    hide IdentifierLower, IsPrereleaseIdentifier, CompareIdentifiers;
    if xs != [] && ys != [] {
      if xs[0] == ys[0] {
        IdentifiersTotal(xs[1..], ys[1..]);
        assert xs == [xs[0]] + xs[1..] && ys == [ys[0]] + ys[1..];
      } else {
        IdentifierTotal(xs[0], ys[0]);
      }
    }
  }

  /** Precedence is a strict total order on versions without build metadata. */
  lemma PrecedenceIsTotal(a: Version, b: Version)
    requires ValidVersion(a) && ValidVersion(b)
    ensures !Lower(a, a) && !(Lower(a, b) && Lower(b, a)) && (a == b || Lower(a, b) || Lower(b, a))
  {
    hide Decimal, ValidPrerelease, SplitAt;
    CompareNumericTextIsIntegerOrder(a.major, b.major);
    CompareNumericTextIsIntegerOrder(a.minor, b.minor);
    CompareNumericTextIsIntegerOrder(a.patch, b.patch);
    if a.prerelease.Some? {
      NotLowerThanItself(SplitAt(DOT, a.prerelease.value));
      if b.prerelease.Some? {
        JoinSplitAt(DOT, a.prerelease.value);
        JoinSplitAt(DOT, b.prerelease.value);
        PrereleaseParts(a.prerelease.value);
        PrereleaseParts(b.prerelease.value);
        IdentifiersTotal(SplitAt(DOT, a.prerelease.value), SplitAt(DOT, b.prerelease.value));
      }
    }
  }

  lemma PrecedenceIsTransitive(a: Version, b: Version, c: Version)
    requires ValidVersion(a) && ValidVersion(b) && ValidVersion(c) && Lower(a, b) && Lower(b, c)
    ensures Lower(a, c)
  {
    hide Decimal, ValidPrerelease, SplitAt, IsNumeral;
    if a.prerelease.Some? && b.prerelease.Some? && c.prerelease.Some? {
      PrereleaseParts(a.prerelease.value);
      PrereleaseParts(b.prerelease.value);
      PrereleaseParts(c.prerelease.value);
      var xs, ys, zs := SplitAt(DOT, a.prerelease.value), SplitAt(DOT, b.prerelease.value),
        SplitAt(DOT, c.prerelease.value);
      if IdentifiersLower(xs, ys) && IdentifiersLower(ys, zs) {
        IdentifiersTransitive(xs, ys, zs);
      }
    }
  }

  // ---------- build metadata ----------

  function Render(v: Version): Text {
    JoinWith(DOT, [v.major, v.minor, v.patch]) + (if v.prerelease.Some? then [DASH] + v.prerelease.value else [])
  }

  /** What is captured is the text without its build metadata. */
  lemma RenderParsed(t: Text)
    requires ParseSemver(t).Some?
    ensures Render(ParseSemver(t).value) == WithoutBuild(t)
  {
    hide ValidBuild, ValidPrerelease, SplitAt, IsNumeral;
    var head := WithoutBuild(t);
    var dash := FirstAt(DASH, head);
    var core := SplitAt(DOT, head[..dash]);
    JoinSplitAt(DOT, head[..dash]);
    assert core == [core[0], core[1], core[2]];
    assert head == head[..dash] + head[dash..];
    if dash < |head| {
      assert head[dash..] == [DASH] + head[dash + 1..];
    }
  }

  lemma ParseIgnoresBuild(s: Text, t: Text)
    requires ParseSemver(s).Some? && ParseSemver(t).Some? && WithoutBuild(s) == WithoutBuild(t)
    ensures ParseSemver(s) == ParseSemver(t)
  {
    hide ValidBuild, ValidPrerelease, SplitAt, IsNumeral;
  }

  /** Two version texts capture the same version exactly when they are equal up to build metadata. */
  lemma SameVersionExactly(s: Text, t: Text)
    requires ParseSemver(s).Some? && ParseSemver(t).Some?
    ensures ParseSemver(s) == ParseSemver(t) <==> WithoutBuild(s) == WithoutBuild(t)
  {
    hide ParseSemver, Render, WithoutBuild;
    RenderParsed(s);
    RenderParsed(t);
    if WithoutBuild(s) == WithoutBuild(t) {
      ParseIgnoresBuild(s, t);
    }
  }

  // ---------- the pattern ----------

  lemma CoreUnits(v: Version)
    requires ValidVersion(v)
    ensures var ss := [v.major, v.minor, v.patch];
      Avoid(DOT, ss) && DASH !in JoinWith(DOT, ss) && PLUS !in JoinWith(DOT, ss)
  {
    var ss := [v.major, v.minor, v.patch];
    forall i | 0 <= i < 3
      ensures DOT !in ss[i] && DASH !in ss[i] && PLUS !in ss[i]
    {
      assert IsNumeral(ss[i]);
    }
    JoinAvoids(DOT, ss, DASH);
    JoinAvoids(DOT, ss, PLUS);
  }

  lemma PrereleaseUnits(p: Text)
    requires ValidPrerelease(p)
    ensures PLUS !in p
  {
    var ids := SplitAt(DOT, p);
    JoinSplitAt(DOT, p);
    forall i | 0 <= i < |ids|
      ensures PLUS !in ids[i]
    {
      assert IsPrereleaseIdentifier(ids[i]);
    }
    JoinAvoids(DOT, ids, PLUS);
  }

  /** A version text: a version, and build metadata or none. */
  ghost predicate IsVersionText(t: Text, v: Version, build: Option<Text>) {
    && ValidVersion(v) && (build.Some? ==> ValidBuild(build.value))
    && t == Render(v) + (if build.Some? then [PLUS] + build.value else [])
  }

  /** Where the head of a version text is cut. */
  lemma HeadCut(v: Version)
    requires ValidVersion(v)
    ensures var head, core := Render(v), JoinWith(DOT, [v.major, v.minor, v.patch]);
      && PLUS !in head && FirstAt(DASH, head) == |core| && head[..|core|] == core
      && (v.prerelease.Some? <==> |core| < |head|)
      && (v.prerelease.Some? ==> head[|core| + 1..] == v.prerelease.value)
  {
    hide ValidPrerelease, SplitAt, IsNumeral, JoinWith, FirstAt;
    var core, head := JoinWith(DOT, [v.major, v.minor, v.patch]), Render(v);
    CoreUnits(v);
    if v.prerelease.Some? {
      PrereleaseUnits(v.prerelease.value);
      FirstAtEnd(DASH, core, v.prerelease.value);
      assert head == core + [DASH] + v.prerelease.value;
    } else {
      FirstAtEnd(DASH, core, []);
      assert head == core;
    }
  }

  lemma TextCut(head: Text, build: Option<Text>, t: Text)
    requires PLUS !in head && t == head + (if build.Some? then [PLUS] + build.value else [])
    ensures FirstAt(PLUS, t) == |head| && t[..|head|] == head
    ensures build.Some? <==> |head| < |t|
    ensures build.Some? ==> t[|head| + 1..] == build.value
  {
    hide FirstAt;
    if build.Some? {
      FirstAtEnd(PLUS, head, build.value);
      assert t == head + [PLUS] + build.value;
    } else {
      FirstAtEnd(PLUS, head, []);
      assert t == head;
    }
  }

  lemma ParseComplete(t: Text, v: Version, build: Option<Text>)
    requires IsVersionText(t, v, build)
    ensures ParseSemver(t) == Some(v)
  {
    hide ValidBuild, ValidPrerelease, SplitAt, IsNumeral, JoinWith, FirstAt, Render;
    HeadCut(v);
    TextCut(Render(v), build, t);
    CoreUnits(v);
    SplitJoinWith(DOT, [v.major, v.minor, v.patch]);
  }

  /** The pattern captures exactly the version texts. */
  lemma ParseExact(t: Text)
    ensures ParseSemver(t).Some? <==> exists v, build :: IsVersionText(t, v, build)
  {
    hide ParseSemver, IsVersionText;
    if ParseSemver(t).Some? {
      ParsedIsVersionText(t);
    }
    if v, build :| IsVersionText(t, v, build) {
      ParseComplete(t, v, build);
    }
  }

  lemma ParsedIsVersionText(t: Text)
    requires ParseSemver(t).Some?
    ensures exists build :: IsVersionText(t, ParseSemver(t).value, build)
  {
    hide ValidBuild, ValidPrerelease, SplitAt, IsNumeral, JoinWith;
    var plus := FirstAt(PLUS, t);
    ParsedIsValid(t);
    RenderParsed(t);
    var build := if plus < |t| then Some(t[plus + 1..]) else None;
    assert t == t[..plus] + t[plus..];
    if plus < |t| {
      assert t[plus..] == [PLUS] + t[plus + 1..];
    }
    assert IsVersionText(t, ParseSemver(t).value, build);
  }

  // ---------- precedence in the words of the standard ----------

  /** Identifiers of digits alone, compared as numbers, or one of them against another kind, or both as texts. */
  ghost predicate IdentifierBelow(x: Text, y: Text) {
    var xDigits, yDigits := forall u | u in x :: 0x30 <= u <= 0x39, forall u | u in y :: 0x30 <= u <= 0x39;
    || (xDigits && !yDigits)
    || (xDigits && yDigits && Number(x) < Number(y))
    || (!xDigits && !yDigits && exists k :: && 0 <= k <= |x| && k <= |y| && x[..k] == y[..k] && k < |y|
                                            && (k == |x| || x[k] < y[k]))
  }

  /** The value of a text of digits, the first digit being the most significant one. */
  ghost function Number(t: Text): int {
    if t == [] then 0 else (t[0] - 0x30) * Pow10(|t| - 1) + Number(t[1..])
  }

  lemma {:induction false} NumberIsDecimal(t: Text)
    requires AllDigits(t)
    ensures Number(t) == Decimal(t)
  {
    if t != [] {
      NumberIsDecimal(t[1..]);
      ValueFront(t);
    }
  }

  lemma IdentifierLowerSpelled(x: Text, y: Text)
    ensures IdentifierLower(x, y) <==> IdentifierBelow(x, y)
  {
    hide Less, Decimal, Number;
    UnitsOf(x);
    UnitsOf(y);
    LessSpelled(x, y);
    if AllDigits(x) && AllDigits(y) {
      NumberIsDecimal(x);
      NumberIsDecimal(y);
    }
  }

  /** Lists of identifiers compare by the first place where they differ; a beginning is below the whole. */
  lemma {:induction false} IdentifiersLowerSpelled(xs: seq<Text>, ys: seq<Text>)
    ensures IdentifiersLower(xs, ys) <==>
            exists k :: && 0 <= k <= |xs| && k < |ys| && xs[..k] == ys[..k]
                        && (k == |xs| || (xs[k] != ys[k] && IdentifierBelow(xs[k], ys[k])))
  {
    hide IdentifierLower, IdentifierBelow;
    if xs != [] && ys != [] {
      if xs[0] == ys[0] {
        IdentifiersLowerSpelled(xs[1..], ys[1..]);
        if k :| && 0 <= k <= |xs| && k < |ys| && xs[..k] == ys[..k]
                && (k == |xs| || (xs[k] != ys[k] && IdentifierBelow(xs[k], ys[k]))) {
          assert k > 0 && xs[1..][..k - 1] == xs[..k][1..] == ys[..k][1..] == ys[1..][..k - 1];
        }
        if k :| && 0 <= k <= |xs[1..]| && k < |ys[1..]| && xs[1..][..k] == ys[1..][..k]
                && (k == |xs[1..]| || (xs[1..][k] != ys[1..][k] && IdentifierBelow(xs[1..][k], ys[1..][k]))) {
          assert xs[..k + 1] == [xs[0]] + xs[1..][..k] && ys[..k + 1] == [ys[0]] + ys[1..][..k];
          assert k + 1 == |xs| || (xs[k + 1] != ys[k + 1] && IdentifierBelow(xs[k + 1], ys[k + 1]));
        }
      } else {
        IdentifierLowerSpelled(xs[0], ys[0]);
        assert xs[..0] == ys[..0];
      }
    } else if ys != [] {
      assert xs[..0] == ys[..0];
    }
  }

  /**
    Precedence: by the three numbers in turn; with the same numbers a pre-release is below the release, and two
    pre-releases compare by their identifiers (section 11 of Semantic Versioning 2.0.0).
   */
  lemma LowerSpelled(a: Version, b: Version)
    requires ValidVersion(a) && ValidVersion(b)
    ensures var x, y := (Number(a.major), Number(a.minor), Number(a.patch)),
                        (Number(b.major), Number(b.minor), Number(b.patch));
      Lower(a, b) <==>
        || x.0 < y.0 || (x.0 == y.0 && x.1 < y.1) || (x.0 == y.0 && x.1 == y.1 && x.2 < y.2)
        || (x == y && a.prerelease.Some? && b.prerelease.None?)
        || (x == y && a.prerelease.Some? && b.prerelease.Some?
            && IdentifiersLower(SplitAt(DOT, a.prerelease.value), SplitAt(DOT, b.prerelease.value)))
  {
    hide Number, Decimal, SplitAt, IdentifiersLower, ValidPrerelease;
    NumberIsDecimal(a.major);
    NumberIsDecimal(a.minor);
    NumberIsDecimal(a.patch);
    NumberIsDecimal(b.major);
    NumberIsDecimal(b.minor);
    NumberIsDecimal(b.patch);
  }

  /** The parts of a version: numbers without leading zeros; identifiers of letters, digits and dashes between dots. */
  lemma PartsSpelled(v: Version)
    ensures ValidVersion(v) <==>
      && (forall n | n in {v.major, v.minor, v.patch} ::
            n != [] && (forall u | u in n :: 0x30 <= u <= 0x39) && (n[0] == 0x30 ==> |n| == 1))
      && (v.prerelease.Some? ==> forall p | p in SplitAt(0x2e, v.prerelease.value) ::
            && p != []
            && (forall u | u in p :: 0x30 <= u <= 0x39 || 0x41 <= u <= 0x5a || 0x61 <= u <= 0x7a || u == 0x2d)
            && ((forall u | u in p :: 0x30 <= u <= 0x39) ==> p[0] != 0x30 || |p| == 1))
  {
    hide SplitAt;
    forall n: Text
      ensures (forall u | u in n :: 0x30 <= u <= 0x39) <==> AllDigits(n)
      ensures (forall u | u in n :: 0x30 <= u <= 0x39 || 0x41 <= u <= 0x5a || 0x61 <= u <= 0x7a || u == 0x2d)
              <==> forall i | 0 <= i < |n| :: IsIdentifierUnit(n[i])
    {
      UnitsOf(n);
    }
  }

  /** Letters, digits and dashes, at least one. */
  ghost predicate IsWord(p: Text) {
    p != [] && forall u | u in p :: 0x30 <= u <= 0x39 || 0x41 <= u <= 0x5a || 0x61 <= u <= 0x7a || u == 0x2d
  }

  /** Build metadata: identifiers between dots, of which numeric ones may have leading zeros. */
  lemma BuildSpelled(t: Text)
    ensures ValidBuild(t) <==> forall p | p in SplitAt(0x2e, t) :: IsWord(p)
  {
    hide SplitAt, IsIdentifier, IsWord;
    var ids := SplitAt(DOT, t);
    forall i | 0 <= i < |ids|
      ensures ids[i] in ids && (IsIdentifier(ids[i]) <==> IsWord(ids[i]))
    {
      WordUnits(ids[i]);
    }
  }

  lemma WordUnits(p: Text)
    ensures IsIdentifier(p) <==> IsWord(p)
  {
    UnitsOf(p);
  }

  lemma UnitsOf(n: Text)
    ensures (forall u | u in n :: 0x30 <= u <= 0x39) <==> AllDigits(n)
    ensures (forall u | u in n :: 0x30 <= u <= 0x39 || 0x41 <= u <= 0x5a || 0x61 <= u <= 0x7a || u == 0x2d)
            <==> forall i | 0 <= i < |n| :: IsIdentifierUnit(n[i])
  {
    assert forall i | 0 <= i < |n| :: n[i] in n;
  }
}
