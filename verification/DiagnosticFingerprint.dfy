/** The framed byte stream that a diagnostic fingerprint hashes: it determines everything that went into it. */
module DiagnosticFingerprint {
  import opened Text
  import Utf
  import opened Utf8
  import opened ByteOrder
  import CanonicalDigest
  import RepositoryPath

  const DOMAIN := "agent-context-lint:diagnostic-fingerprint"
  const PATH_FINGERPRINT_METHOD := "agent-context-lint/path/v1"
  const SEMANTIC_FINGERPRINT_METHOD := "agent-context-lint/semantic/v1"
  const TWO_TO_64: nat := 0x1_0000_0000_0000_0000

  // ---------- frames ----------

  function BigEndian(n: nat, size: nat): (b: Bytes)
    ensures |b| == size
  {
    if size == 0 then [] else BigEndian(n / 0x100, size - 1) + [n % 0x100]
  }

  function FromBigEndian(b: Bytes): nat {
    if b == [] then 0 else 0x100 * FromBigEndian(b[..|b| - 1]) + b[|b| - 1]
  }

  function Power(size: nat): nat {
    if size == 0 then 1 else 0x100 * Power(size - 1)
  }

  /** `writeBigUInt64BE`, which throws on a number of more than 64 bits, and the bytes. */
  function Frame(t: Text): Bytes {
    BigEndian(|Encode(t)|, 8) + Encode(t)
  }

  function Frames(ts: seq<Text>): Bytes {
    if ts == [] then [] else Frame(ts[0]) + Frames(ts[1..])
  }

  /** A text that can be framed: no lone surrogate, and a length that fits into 64 bits, like that of every string. */
  ghost predicate Framable(t: Text) { Utf.WellFormed(t) && |Encode(t)| < TWO_TO_64 }

  ghost predicate AllFramable(ts: seq<Text>) { forall i | 0 <= i < |ts| :: Framable(ts[i]) }

  lemma {:induction false} BigEndianValue(n: nat, size: nat)
    requires n < Power(size)
    ensures FromBigEndian(BigEndian(n, size)) == n
  {
    if size > 0 {
      BigEndianValue(n / 0x100, size - 1);
      var b := BigEndian(n, size);
      assert b[..|b| - 1] == BigEndian(n / 0x100, size - 1);
    }
  }

  lemma EightBytes()
    ensures Power(8) == TWO_TO_64
  {
    assert Power(4) == 0x1_0000_0000;
    assert Power(6) == 0x1_0000_0000_0000;
  }

  lemma FrameDetermines(s: Text, x: Bytes, t: Text, y: Bytes)
    requires Framable(s) && Framable(t) && Frame(s) + x == Frame(t) + y
    ensures s == t && x == y
  {
    hide Encode, BigEndian;
    EightBytes();
    var e, f := Encode(s), Encode(t);
    BigEndianValue(|e|, 8);
    BigEndianValue(|f|, 8);
    var l, r := Frame(s) + x, Frame(t) + y;
    assert l[..8] == BigEndian(|e|, 8) && r[..8] == BigEndian(|f|, 8);
    assert l[8..8 + |e|] == e && r[8..8 + |f|] == f;
    assert l[8 + |e|..] == x && r[8 + |f|..] == y;
    EncodeInjective(s, t);
  }

  /** A sequence of frames can be read back: it determines how many texts there are and what they are. */
  lemma {:induction false} FramesDetermine(a: seq<Text>, b: seq<Text>)
    requires AllFramable(a) && AllFramable(b) && Frames(a) == Frames(b)
    ensures a == b
  {
    hide Frame, Framable;
    if a != [] && b != [] {
      FrameDetermines(a[0], Frames(a[1..]), b[0], Frames(b[1..]));
      FramesDetermine(a[1..], b[1..]);
      assert a == [a[0]] + a[1..] && b == [b[0]] + b[1..];
    } else {
      FramesNotEmpty(a);
      FramesNotEmpty(b);
    }
  }

  lemma FramesNotEmpty(ts: seq<Text>)
    ensures ts != [] ==> |Frames(ts)| >= 8
  {
  }

  // ---------- hashDomain ----------

  datatype Field = Field(name: Text, value: Text)

  function Texts(fields: seq<Field>): seq<Text> {
    if fields == [] then [] else [fields[0].name, fields[0].value] + Texts(fields[1..])
  }

  /** What `hashDomain` feeds to the hash. */
  function DomainStream(methodName: Text, fields: seq<Field>): Bytes {
    Frames([TextOf(DOMAIN), methodName] + Texts(fields))
  }

  lemma {:induction false} FramesConcat(a: seq<Text>, b: seq<Text>)
    ensures Frames(a + b) == Frames(a) + Frames(b)
  {
    hide Frame;
    if a == [] {
      assert a + b == b;
    } else {
      FramesConcat(a[1..], b);
      assert (a + b)[1..] == a[1..] + b;
      Associative(Frame(a[0]), Frames(a[1..]), Frames(b));
    }
  }

  lemma {:induction false} TextsConcat(a: seq<Field>, b: seq<Field>)
    ensures Texts(a + b) == Texts(a) + Texts(b)
  {
    if a == [] {
      assert a + b == b;
    } else {
      TextsConcat(a[1..], b);
      assert (a + b)[1..] == a[1..] + b;
    }
  }

  method HashDomain(methodName: Text, fields: seq<Field>) returns (fed: Bytes)
    ensures fed == DomainStream(methodName, fields)
  {
    hide Frame, TextOf;
    var hash := new CanonicalDigest.Hash();
    hash.Update(Frame(TextOf(DOMAIN)));
    hash.Update(Frame(methodName));
    ghost var head := [TextOf(DOMAIN), methodName];
    assert Frames(head) == Frame(TextOf(DOMAIN)) + Frame(methodName) by {
      TwoFrames(TextOf(DOMAIN), methodName);
    }
    assert head + Texts(fields[..0]) == head;
    for i := 0 to |fields|
      invariant hash.fed == Frames(head + Texts(fields[..i]))
    {
      hash.Update(Frame(fields[i].name));
      hash.Update(Frame(fields[i].value));
      assert fields[..i + 1] == fields[..i] + [fields[i]];
      TextsConcat(fields[..i], [fields[i]]);
      TwoFrames(fields[i].name, fields[i].value);
      OneField(fields[i]);
      FramesConcat(head + Texts(fields[..i]), [fields[i].name, fields[i].value]);
      Associative(head, Texts(fields[..i]), [fields[i].name, fields[i].value]);
      Associative(Frames(head + Texts(fields[..i])), Frame(fields[i].name), Frame(fields[i].value));
    }
    assert fields[..|fields|] == fields;
    fed := hash.fed;
  }

  lemma TwoFrames(a: Text, b: Text)
    ensures Frames([a, b]) == Frame(a) + Frame(b)
  {
    hide Frame;
    assert [a, b][1..] == [b] && [b][1..] == [];
    assert Frames([b]) == Frame(b) + Frames([]);
    assert Frames([]) == [];
  }

  lemma OneField(f: Field)
    ensures Texts([f]) == [f.name, f.value]
  {
    assert [f][1..] == [];
  }

  lemma {:induction false} TextsDetermine(a: seq<Field>, b: seq<Field>)
    requires Texts(a) == Texts(b)
    ensures a == b
  {
    if a != [] && b != [] {
      TextsHead(a);
      TextsHead(b);
      TextsDetermine(a[1..], b[1..]);
      assert a == [a[0]] + a[1..] && b == [b[0]] + b[1..];
    }
  }

  lemma TextsHead(a: seq<Field>)
    requires a != []
    ensures Texts(a)[0] == a[0].name && Texts(a)[1] == a[0].value && Texts(a)[2..] == Texts(a[1..])
  {
  }

  ghost predicate FieldsFramable(fs: seq<Field>) {
    forall i | 0 <= i < |fs| :: Framable(fs[i].name) && Framable(fs[i].value)
  }

  lemma {:induction false} TextsFramable(fs: seq<Field>)
    requires FieldsFramable(fs)
    ensures AllFramable(Texts(fs))
  {
    hide Framable;
    if fs != [] {
      TextsFramable(fs[1..]);
    }
  }

  /** The stream determines the method and the fields. */
  lemma StreamDeterminesFields(m: Text, fs: seq<Field>, n: Text, gs: seq<Field>)
    requires Framable(m) && Framable(n) && FieldsFramable(fs) && FieldsFramable(gs)
    requires DomainStream(m, fs) == DomainStream(n, gs)
    ensures m == n && fs == gs
  {
    hide Framable, TextOf, Frames, Texts;
    var a, b := [TextOf(DOMAIN), m] + Texts(fs), [TextOf(DOMAIN), n] + Texts(gs);
    TextsFramable(fs);
    TextsFramable(gs);
    LiteralFramable(DOMAIN);
    FramesDetermine(a, b);
    assert a[1] == m && b[1] == n && a[2..] == Texts(fs) && b[2..] == Texts(gs);
    TextsDetermine(fs, gs);
  }

  lemma {:induction false} LiteralLength(s: string)
    ensures |Encode(TextOf(s))| <= 4 * |s|
  {
    hide EncodeScalar, FirstScalar, FirstWidth, Units;
    if s != [] {
      var c := s[0] as int;
      LiteralLength(s[1..]);
      EncodeConcat(Units(c), TextOf(s[1..]));
      assert Units(c)[|Units(c)|..] == [];
      assert Encode(Units(c)) == EncodeScalar(c) + Encode([]);
    }
  }

  lemma LiteralFramable(s: string)
    requires |s| <= 0x1_0000
    ensures Framable(TextOf(s)) && |Encode(TextOf(s))| < 0x10_0000
  {
    hide Encode, TextOf;
    LiteralLength(s);
  }

  // ---------- profiles and components ----------

  predicate IsAlphanumeric(u: int) { RepositoryPath.IsLetter(u) || 0x30 <= u <= 0x39 }

  /** `.`, `_`, `:`, `/` or `-`. */
  predicate IsJoiner(u: int) { u == 0x2e || u == 0x5f || u == 0x3a || u == 0x2f || u == 0x2d }

  /** Runs of alphanumerics joined by single punctuation marks. */
  predicate IsIdentifier(t: Text) {
    && t != [] && IsAlphanumeric(t[0]) && IsAlphanumeric(t[|t| - 1])
    && (forall i | 0 <= i < |t| :: IsAlphanumeric(t[i]) || IsJoiner(t[i]))
    && (forall i | 0 < i < |t| :: IsAlphanumeric(t[i - 1]) || IsAlphanumeric(t[i]))
  }

  predicate IsText(t: Text) { t != [] && Utf.WellFormed(t) }

  /** The distinct elements in the order of their first occurrences, as `new Set` keeps them. */
  function Unique(ts: seq<Text>): seq<Text> {
    if ts == [] then []
    else
      var u := Unique(ts[..|ts| - 1]);
      if ts[|ts| - 1] in u then u else u + [ts[|ts| - 1]]
  }

  predicate ValidProfile(id: Text) { IsText(id) && IsIdentifier(id) }

  predicate ValidProfiles(ids: seq<Text>) { forall i | 0 <= i < |ids| :: ValidProfile(ids[i]) }

  /** `canonicalProfiles`; `None` where it throws. */
  function CanonicalProfiles(ids: seq<Text>): Option<seq<Text>> {
    if ValidProfiles(ids) then Some(Sort(Unique(ids))) else None
  }

  method CollectProfiles(ids: seq<Text>) returns (r: Option<seq<Text>>)
    ensures r == CanonicalProfiles(ids)
  {
    hide ValidProfile;
    var seen: seq<Text> := [];
    for i := 0 to |ids|
      invariant ValidProfiles(ids[..i]) && seen == Unique(ids[..i])
    {
      if !ValidProfile(ids[i]) {
        return None;
      }
      assert ids[..i + 1] == ids[..i] + [ids[i]];
      assert ids[..i + 1][..i] == ids[..i];
      if ids[i] !in seen {
        seen := seen + [ids[i]];
      }
    }
    assert ids[..|ids|] == ids;
    return Some(Sort(seen));
  }

  datatype Component = Component(key: Text, value: Text)

  predicate ValidComponent(c: Component) { IsText(c.key) && IsText(c.value) && IsIdentifier(c.key) }

  predicate ValidComponents(cs: seq<Component>) {
    && (forall i | 0 <= i < |cs| :: ValidComponent(cs[i]))
    && (forall i, j | 0 <= i < j < |cs| :: cs[i].key != cs[j].key)
  }

  function ComponentKeys(cs: seq<Component>): (ks: seq<Text>)
    ensures |ks| == |cs| && forall i | 0 <= i < |cs| :: ks[i] == cs[i].key
  {
    seq(|cs|, i requires 0 <= i < |cs| => cs[i].key)
  }

  /** The map that the components fill, one after the other. */
  function ByKey(cs: seq<Component>): (m: map<Text, Text>)
    ensures m.Keys == set c | c in cs :: c.key
  {
    if cs == [] then map[]
    else
      var init, last := cs[..|cs| - 1], cs[|cs| - 1];
      assert cs == init + [last];
      ByKey(init)[last.key := last.value]
  }

  /** Its entries in the order of the keys' bytes. */
  function SortedEntries(ks: seq<Text>, m: map<Text, Text>): (r: seq<Component>)
    requires forall k | k in ks :: k in m
    ensures |r| == |ks| && forall i | 0 <= i < |ks| :: r[i] == Component(ks[i], m[ks[i]])
  {
    seq(|ks|, i requires 0 <= i < |ks| => assert ks[i] in ks; Component(ks[i], m[ks[i]]))
  }

  /** `canonicalComponents`; `None` where it throws. */
  function CanonicalComponents(cs: seq<Component>): Option<seq<Component>> {
    if !ValidComponents(cs) then None
    else
      var ks := ComponentKeys(cs);
      SortKeeps(ks);
      KeysInMap(cs);
      Some(SortedEntries(Sort(ks), ByKey(cs)))
  }

  lemma KeysInMap(cs: seq<Component>)
    ensures forall k | k in ComponentKeys(cs) :: k in ByKey(cs)
  {
    forall k | k in ComponentKeys(cs)
      ensures k in ByKey(cs)
    {
      var i :| 0 <= i < |cs| && ComponentKeys(cs)[i] == k;
      assert cs[i] in cs;
    }
  }

  lemma FreshKey(cs: seq<Component>, i: nat)
    requires i < |cs| && ValidComponents(cs[..i]) && ValidComponent(cs[i])
    ensures cs[i].key in ByKey(cs[..i]) <==> !ValidComponents(cs[..i + 1])
  {
    hide ValidComponent;
    var c, before, after := cs[i], cs[..i], cs[..i + 1];
    assert after == before + [c];
    if c.key in ByKey(before) {
      var d :| d in before && d.key == c.key;
      var j :| 0 <= j < |before| && before[j] == d;
      assert after[j].key == after[i].key;
    } else {
      forall j | 0 <= j < i
        ensures after[j].key != c.key
      {
        assert before[j] in before;
      }
    }
  }

  lemma ValidPrefix(cs: seq<Component>, i: nat)
    requires i <= |cs| && ValidComponents(cs)
    ensures ValidComponents(cs[..i])
  {
    hide ValidComponent;
  }

  method CollectComponents(cs: seq<Component>) returns (r: Option<seq<Component>>)
    ensures r == CanonicalComponents(cs)
  {
    hide ValidComponent, ValidComponents;
    var byKey: map<Text, Text> := map[];
    var keys: seq<Text> := [];
    NoComponents(cs);
    for i := 0 to |cs|
      invariant ValidComponents(cs[..i]) && byKey == ByKey(cs[..i]) && keys == ComponentKeys(cs[..i])
    {
      var c := cs[i];
      assert cs[..i + 1] == cs[..i] + [c];
      assert cs[..i + 1][..i] == cs[..i];
      if !ValidComponent(c) {
        InvalidComponent(cs, i);
        return None;
      }
      FreshKey(cs, i);
      if c.key in byKey {
        if ValidComponents(cs) {
          ValidPrefix(cs, i + 1);
        }
        return None;
      }
      byKey := byKey[c.key := c.value];
      keys := keys + [c.key];
    }
    assert cs[..|cs|] == cs;
    SortKeeps(keys);
    KeysInMap(cs);
    return Some(SortedEntries(Sort(keys), byKey));
  }

  lemma NoComponents(cs: seq<Component>)
    ensures ValidComponents(cs[..0])
  {
  }

  lemma InvalidComponent(cs: seq<Component>, i: nat)
    requires i < |cs| && !ValidComponent(cs[i])
    ensures !ValidComponents(cs)
  {
  }

  // ---------- the two fingerprints ----------

  datatype PathInput = PathInput(ruleId: Text, ruleVersion: Text, path: Text, anchor: Text, profileIds: seq<Text>)

  datatype SemanticInput = SemanticInput(ruleId: Text, ruleVersion: Text, profileIds: seq<Text>,
    components: seq<Component>)

  predicate ValidRule(ruleId: Text, ruleVersion: Text) {
    IsText(ruleId) && IsText(ruleVersion) && IsIdentifier(ruleId) && IsIdentifier(ruleVersion)
  }

  function ProfileFields(ids: seq<Text>): (r: seq<Field>)
    ensures |r| == |ids| && forall i | 0 <= i < |ids| :: r[i] == Field(TextOf("profile-id"), ids[i])
  {
    seq(|ids|, i requires 0 <= i < |ids| => Field(TextOf("profile-id"), ids[i]))
  }

  function ComponentFields(cs: seq<Component>): (r: seq<Field>)
    ensures |r| == |cs| && forall i | 0 <= i < |cs| :: r[i] == Field(TextOf("component:") + cs[i].key, cs[i].value)
  {
    seq(|cs|, i requires 0 <= i < |cs| => Field(TextOf("component:") + cs[i].key, cs[i].value))
  }

  function RuleFields(ruleId: Text, ruleVersion: Text): seq<Field> {
    [Field(TextOf("rule-id"), ruleId), Field(TextOf("rule-version"), ruleVersion)]
  }

  function PathFields(x: PathInput, profiles: seq<Text>): seq<Field> {
    RuleFields(x.ruleId, x.ruleVersion)
    + [Field(TextOf("repository-path"), x.path), Field(TextOf("anchor"), x.anchor)] + ProfileFields(profiles)
  }

  function SemanticFields(x: SemanticInput, profiles: seq<Text>, components: seq<Component>): seq<Field> {
    RuleFields(x.ruleId, x.ruleVersion) + ProfileFields(profiles) + ComponentFields(components)
  }

  predicate ValidPathInput(x: PathInput) {
    && ValidRule(x.ruleId, x.ruleVersion) && RepositoryPath.IsRepositoryRelativePath(x.path) && IsText(x.anchor)
    && ValidProfiles(x.profileIds)
  }

  predicate ValidSemanticInput(x: SemanticInput) {
    ValidRule(x.ruleId, x.ruleVersion) && ValidProfiles(x.profileIds) && ValidComponents(x.components)
  }

  /** The bytes hashed for a path fingerprint; `None` where it throws. */
  function PathStream(x: PathInput): Option<Bytes> {
    if !ValidPathInput(x) then None
    else Some(DomainStream(TextOf(PATH_FINGERPRINT_METHOD), PathFields(x, CanonicalProfiles(x.profileIds).value)))
  }

  /** The bytes hashed for a semantic fingerprint; `None` where it throws. */
  function SemanticStream(x: SemanticInput): Option<Bytes> {
    if !ValidSemanticInput(x) then None
    else
      var profiles, components := CanonicalProfiles(x.profileIds).value, CanonicalComponents(x.components).value;
      Some(DomainStream(TextOf(SEMANTIC_FINGERPRINT_METHOD), SemanticFields(x, profiles, components)))
  }

  method ComputePathFingerprint(x: PathInput) returns (fed: Option<Bytes>)
    ensures fed == PathStream(x)
  {
    hide DomainStream, TextOf, IsText, IsIdentifier, Sort, Unique;
    if !ValidRule(x.ruleId, x.ruleVersion) || !RepositoryPath.IsRepositoryRelativePath(x.path) || !IsText(x.anchor) {
      return None;
    }
    var fields := RuleFields(x.ruleId, x.ruleVersion)
      + [Field(TextOf("repository-path"), x.path), Field(TextOf("anchor"), x.anchor)];
    var profiles := CollectProfiles(x.profileIds);
    if profiles.None? {
      return None;
    }
    fields := fields + ProfileFields(profiles.value);
    var stream := HashDomain(TextOf(PATH_FINGERPRINT_METHOD), fields);
    return Some(stream);
  }

  method ComputeSemanticFingerprint(x: SemanticInput) returns (fed: Option<Bytes>)
    ensures fed == SemanticStream(x)
  {
    hide DomainStream, TextOf, IsText, IsIdentifier, Sort, Unique, ValidComponents, ByKey;
    if !ValidRule(x.ruleId, x.ruleVersion) {
      return None;
    }
    var fields := RuleFields(x.ruleId, x.ruleVersion);
    var profiles := CollectProfiles(x.profileIds);
    if profiles.None? {
      return None;
    }
    fields := fields + ProfileFields(profiles.value);
    var components := CollectComponents(x.components);
    if components.None? {
      return None;
    }
    fields := fields + ComponentFields(components.value);
    var stream := HashDomain(TextOf(SEMANTIC_FINGERPRINT_METHOD), fields);
    return Some(stream);
  }

  // ---------- the format ----------

  /** The length of a frame in eight bytes, the most significant one first, and then the bytes of the text. */
  lemma FrameSpelled(t: Text)
    requires |Encode(t)| < TWO_TO_64
    ensures var b: seq<int> := Frame(t);
      && |b| == 8 + |Encode(t)| && b[8..] == Encode(t)
      && ((((((b[0] * 256 + b[1]) * 256 + b[2]) * 256 + b[3]) * 256 + b[4]) * 256 + b[5]) * 256 + b[6]) * 256 + b[7]
         == |Encode(t)|
  {
    hide Encode, FromBigEndian, BigEndian;
    var b := BigEndian(|Encode(t)|, 8);
    EightBytes();
    BigEndianValue(|Encode(t)|, 8);
    Nothing();
    PrefixValue(b, 0);
    PrefixValue(b, 1);
    PrefixValue(b, 2);
    PrefixValue(b, 3);
    PrefixValue(b, 4);
    PrefixValue(b, 5);
    PrefixValue(b, 6);
    PrefixValue(b, 7);
    assert b[..0] == [] && b[..8] == b;
  }

  lemma PrefixValue(b: Bytes, k: nat)
    requires k < |b|
    ensures FromBigEndian(b[..k + 1]) == 0x100 * FromBigEndian(b[..k]) + b[k]
  {
    assert b[..k + 1][..k] == b[..k];
  }

  lemma Nothing()
    ensures FromBigEndian([]) == 0
  {
  }

  ghost predicate IsRun(t: Text) {
    t != [] && forall u | u in t :: 0x30 <= u <= 0x39 || 0x41 <= u <= 0x5a || 0x61 <= u <= 0x7a
  }

  lemma RunUnits(t: Text)
    ensures IsRun(t) <==> t != [] && forall i | 0 <= i < |t| :: IsAlphanumeric(t[i])
  {
    assert forall i | 0 <= i < |t| :: t[i] in t;
  }

  lemma JoinedIdentifier(run: Text, joiner: CodeUnit, rest: Text)
    requires IsRun(run) && joiner in {0x2e, 0x5f, 0x3a, 0x2f, 0x2d} && IsIdentifier(rest)
    ensures IsIdentifier(run + [joiner] + rest)
  {
    hide IsAlphanumeric, IsRun;
    var t, n := run + [joiner] + rest, |run|;
    RunUnits(run);
    assert forall i | n < i < |t| :: t[i] == rest[i - n - 1];
    assert IsJoiner(joiner);
    forall i | 0 < i < |t|
      ensures IsAlphanumeric(t[i - 1]) || IsAlphanumeric(t[i])
    {
      if i > n + 1 {
        assert t[i - 1] == rest[i - n - 2] && t[i] == rest[i - n - 1];
        assert IsAlphanumeric(rest[i - n - 2]) || IsAlphanumeric(rest[i - n - 1]);
      } else if i == n + 1 {
        assert t[i] == rest[0];
      } else {
        assert t[i - 1] == run[i - 1];
      }
    }
  }

  lemma SplitIdentifier(t: Text) returns (run: Text, joiner: CodeUnit, rest: Text)
    requires IsIdentifier(t) && !IsRun(t)
    ensures IsRun(run) && joiner in {0x2e, 0x5f, 0x3a, 0x2f, 0x2d} && IsIdentifier(rest) && t == run + [joiner] + rest
  {
    hide IsAlphanumeric, IsRun;
    RunUnits(t);
    var i := FirstJoiner(t, 0);
    run, joiner, rest := t[..i], t[i], t[i + 1..];
    RunUnits(run);
    assert IsJoiner(joiner) && i + 1 < |t|;
    forall k | 0 < k < |rest|
      ensures IsAlphanumeric(rest[k - 1]) || IsAlphanumeric(rest[k])
    {
      assert IsAlphanumeric(t[i + k]) || IsAlphanumeric(t[i + 1 + k]);
    }
  }

  /** Runs of letters and digits with single joiners `._:/-` between them. */
  lemma IdentifierSpelled(t: Text)
    ensures IsIdentifier(t) <==>
            || IsRun(t)
            || exists run, joiner, rest :: && IsRun(run) && joiner in {0x2e, 0x5f, 0x3a, 0x2f, 0x2d}
                                           && IsIdentifier(rest) && t == run + [joiner] + rest
  {
    hide IsIdentifier, IsRun;
    if IsIdentifier(t) && !IsRun(t) {
      var run, joiner, rest := SplitIdentifier(t);
    }
    if IsRun(t) {
      RunIsIdentifier(t);
    }
    if run, joiner, rest :| && IsRun(run) && joiner in {0x2e, 0x5f, 0x3a, 0x2f, 0x2d}
                            && IsIdentifier(rest) && t == run + [joiner] + rest {
      JoinedIdentifier(run, joiner, rest);
    }
  }

  lemma RunIsIdentifier(t: Text)
    requires IsRun(t)
    ensures IsIdentifier(t)
  {
    hide IsAlphanumeric, IsRun;
    RunUnits(t);
  }

  lemma {:induction false} FirstJoiner(t: Text, k: nat) returns (i: nat)
    requires k <= |t| && (forall j | 0 <= j < k :: IsAlphanumeric(t[j]))
    requires exists j :: 0 <= j < |t| && !IsAlphanumeric(t[j])
    ensures i < |t| && !IsAlphanumeric(t[i]) && forall j | 0 <= j < i :: IsAlphanumeric(t[j])
    decreases |t| - k
  {
    if IsAlphanumeric(t[k]) {
      i := FirstJoiner(t, k + 1);
    } else {
      i := k;
    }
  }

  /** What the fingerprint of a path hashes, and when it throws. */
  lemma PathSpelled(x: PathInput)
    ensures PathStream(x).Some? <==>
            && IsIdentifier(x.ruleId) && IsIdentifier(x.ruleVersion) && RepositoryPath.IsRepositoryRelativePath(x.path)
            && x.anchor != [] && Utf.WellFormed(x.anchor) && forall p | p in x.profileIds :: IsIdentifier(p)
    ensures PathStream(x).Some? ==>
              PathStream(x).value
              == Frames([TextOf("agent-context-lint:diagnostic-fingerprint"), TextOf("agent-context-lint/path/v1")]
                        + Texts([Field(TextOf("rule-id"), x.ruleId), Field(TextOf("rule-version"), x.ruleVersion),
                                 Field(TextOf("repository-path"), x.path), Field(TextOf("anchor"), x.anchor)]
                                + ProfileFields(CanonicalProfiles(x.profileIds).value)))
  {
    hide IsIdentifier, RepositoryPath.IsRepositoryRelativePath, Frames, Texts, TextOf, Utf.WellFormed;
    IdentifierIsText(x.ruleId);
    IdentifierIsText(x.ruleVersion);
    forall p | p in x.profileIds
      ensures IsIdentifier(p) <==> ValidProfile(p)
    {
      IdentifierIsText(p);
    }
    if ValidPathInput(x) {
      assert RuleFields(x.ruleId, x.ruleVersion)
             + [Field(TextOf("repository-path"), x.path), Field(TextOf("anchor"), x.anchor)]
             == [Field(TextOf("rule-id"), x.ruleId), Field(TextOf("rule-version"), x.ruleVersion),
                 Field(TextOf("repository-path"), x.path), Field(TextOf("anchor"), x.anchor)];
    }
    assert forall i | 0 <= i < |x.profileIds| :: x.profileIds[i] in x.profileIds;
  }

  /** An identifier is text: its units are below the surrogates. */
  lemma IdentifierIsText(t: Text)
    ensures IsIdentifier(t) ==> IsText(t)
  {
    if IsIdentifier(t) {
      LowUnits(t);
    }
  }

  lemma {:induction false} LowUnits(t: Text)
    requires forall i | 0 <= i < |t| :: t[i] < 0x80
    ensures Utf.WellFormed(t)
  {
    if t != [] {
      LowUnits(t[1..]);
    }
  }

  /** What the semantic fingerprint hashes, and when it throws. */
  lemma SemanticSpelled(x: SemanticInput)
    ensures SemanticStream(x).Some? <==>
            && IsIdentifier(x.ruleId) && IsIdentifier(x.ruleVersion)
            && (forall p | p in x.profileIds :: IsIdentifier(p))
            && (forall c | c in x.components :: IsIdentifier(c.key) && c.value != [] && Utf.WellFormed(c.value))
            && forall i, j | 0 <= i < j < |x.components| :: x.components[i].key != x.components[j].key
    ensures SemanticStream(x).Some? ==>
              SemanticStream(x).value
              == Frames([TextOf("agent-context-lint:diagnostic-fingerprint"), TextOf("agent-context-lint/semantic/v1")]
                        + Texts([Field(TextOf("rule-id"), x.ruleId), Field(TextOf("rule-version"), x.ruleVersion)]
                                + ProfileFields(CanonicalProfiles(x.profileIds).value)
                                + ComponentFields(CanonicalComponents(x.components).value)))
  {
    hide IsIdentifier, Frames, Texts, TextOf, Utf.WellFormed;
    IdentifierIsText(x.ruleId);
    IdentifierIsText(x.ruleVersion);
    forall p | p in x.profileIds
      ensures IsIdentifier(p) <==> ValidProfile(p)
    {
      IdentifierIsText(p);
    }
    forall c | c in x.components
      ensures IsIdentifier(c.key) ==> IsText(c.key)
    {
      IdentifierIsText(c.key);
    }
    assert forall i | 0 <= i < |x.profileIds| :: x.profileIds[i] in x.profileIds;
    assert forall i | 0 <= i < |x.components| :: x.components[i] in x.components;
  }

  /** The names and values that are framed. */
  lemma FieldNames(f: Field, p: Text, c: Component, rest: seq<Field>)
    ensures Texts([f] + rest) == [f.name, f.value] + Texts(rest)
    ensures ProfileFields([p]) == [Field(TextOf("profile-id"), p)]
    ensures ComponentFields([c]) == [Field(TextOf("component:") + c.key, c.value)]
  {
    hide TextOf;
    assert ([f] + rest)[1..] == rest;
  }
}
