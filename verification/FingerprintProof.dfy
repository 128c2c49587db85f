/** What the streams of the two fingerprints determine. */
module FingerprintProof {
  import opened Text
  import Utf
  import opened Utf8
  import opened ByteOrder
  import RepositoryPath
  import opened DiagnosticFingerprint

  // ---------- sets of profiles and of components ----------

  function ToSet<T>(ts: seq<T>): set<T> { set t | t in ts }

  lemma {:induction false} UniqueKeeps(ts: seq<Text>)
    ensures Distinct(Unique(ts)) && forall t :: t in Unique(ts) <==> t in ts
  {
    if ts != [] {
      UniqueKeeps(ts[..|ts| - 1]);
      assert ts == ts[..|ts| - 1] + [ts[|ts| - 1]];
    }
  }

  lemma ProfilesKept(ids: seq<Text>)
    requires ValidProfiles(ids)
    ensures forall p :: p in CanonicalProfiles(ids).value <==> p in ids
    ensures AllWellFormed(Unique(ids)) && Distinct(Unique(ids))
  {
    hide IsIdentifier;
    UniqueKeeps(ids);
    SortKeeps(Unique(ids));
  }

  /** The sorted list depends on the set only, and determines it. */
  lemma ProfilesExact(a: seq<Text>, b: seq<Text>)
    requires ValidProfiles(a) && ValidProfiles(b)
    ensures CanonicalProfiles(a) == CanonicalProfiles(b) <==> ToSet(a) == ToSet(b)
  {
    hide IsIdentifier, ValidProfile;
    ProfilesKept(a);
    ProfilesKept(b);
    if ToSet(a) == ToSet(b) {
      assert forall p :: p in a <==> p in ToSet(a);
      assert forall p :: p in b <==> p in ToSet(b);
      UniqueKeeps(a);
      UniqueKeeps(b);
      SortDependsOnSet(Unique(a), Unique(b));
    }
  }

  lemma {:induction false} ByKeyHolds(cs: seq<Component>, c: Component)
    requires ValidComponents(cs)
    ensures c in cs <==> c.key in ByKey(cs) && ByKey(cs)[c.key] == c.value
  {
    hide ValidComponent;
    if cs != [] {
      var init, last := cs[..|cs| - 1], cs[|cs| - 1];
      assert cs == init + [last];
      ByKeyHolds(init, c);
      forall e | e in init
        ensures e.key != last.key
      {
        var j :| 0 <= j < |init| && init[j] == e;
        assert cs[j].key != cs[|cs| - 1].key;
      }
    }
  }

  lemma KeysProper(cs: seq<Component>)
    requires ValidComponents(cs)
    ensures Distinct(ComponentKeys(cs)) && AllWellFormed(ComponentKeys(cs))
    ensures forall k :: k in ComponentKeys(cs) <==> k in ByKey(cs)
  {
    hide IsIdentifier;
    KeysInMap(cs);
    forall k | k in ByKey(cs)
      ensures k in ComponentKeys(cs)
    {
      var c :| c in cs && c.key == k;
      var i :| 0 <= i < |cs| && cs[i] == c;
      assert ComponentKeys(cs)[i] == k;
    }
  }

  lemma SortedHolds(cs: seq<Component>, c: Component)
    requires ValidComponents(cs)
    ensures c in CanonicalComponents(cs).value <==> c in cs
  {
    hide ValidComponents, ByKey, Sort;
    var ks, m := ComponentKeys(cs), ByKey(cs);
    KeysInMap(cs);
    KeysProper(cs);
    SortKeeps(ks);
    ByKeyHolds(cs, c);
    var r := SortedEntries(Sort(ks), m);
    if c in cs {
      var i :| 0 <= i < |Sort(ks)| && Sort(ks)[i] == c.key;
      assert r[i] == c;
    }
  }

  lemma ComponentsExact(a: seq<Component>, b: seq<Component>)
    requires ValidComponents(a) && ValidComponents(b)
    ensures CanonicalComponents(a) == CanonicalComponents(b) <==> ToSet(a) == ToSet(b)
  {
    hide ValidComponents, ByKey, Sort;
    if CanonicalComponents(a) == CanonicalComponents(b) {
      forall c
        ensures c in ToSet(a) <==> c in ToSet(b)
      {
        SortedHolds(a, c);
        SortedHolds(b, c);
      }
    } else if ToSet(a) == ToSet(b) {
      SameMap(a, b);
      KeysProper(a);
      KeysProper(b);
      SortDependsOnSet(ComponentKeys(a), ComponentKeys(b));
    }
  }

  lemma MapIn(a: seq<Component>, b: seq<Component>, k: Text)
    requires ValidComponents(a) && ValidComponents(b) && ToSet(a) == ToSet(b) && k in ByKey(a)
    ensures k in ByKey(b) && ByKey(b)[k] == ByKey(a)[k]
  {
    hide ValidComponents;
    var c := Component(k, ByKey(a)[k]);
    ByKeyHolds(a, c);
    ByKeyHolds(b, c);
    assert c in ToSet(a);
  }

  lemma SameMap(a: seq<Component>, b: seq<Component>)
    requires ValidComponents(a) && ValidComponents(b) && ToSet(a) == ToSet(b)
    ensures ByKey(a) == ByKey(b)
  {
    hide ValidComponents, ByKey;
    forall k | k in ByKey(a)
      ensures k in ByKey(b) && ByKey(b)[k] == ByKey(a)[k]
    {
      MapIn(a, b, k);
    }
    forall k | k in ByKey(b)
      ensures k in ByKey(a)
    {
      MapIn(b, a, k);
    }
  }

  // ---------- framable inputs ----------

  /** Far longer than any JavaScript string can be. */
  ghost predicate Storable(t: Text) { |Encode(t)| < 0x8000_0000_0000_0000 }

  ghost predicate StorableProfiles(ids: seq<Text>) { forall p | p in ids :: Storable(p) }

  ghost predicate StorableComponents(cs: seq<Component>) { forall c | c in cs :: Storable(c.key) && Storable(c.value) }

  lemma FieldFramable(name: string, value: Text)
    requires |name| <= 0x1_0000 && Utf.WellFormed(value) && Storable(value)
    ensures Framable(TextOf(name)) && Framable(value)
  {
    hide Encode, TextOf;
    LiteralFramable(name);
  }

  lemma ProfileFieldsFramable(ids: seq<Text>)
    requires ValidProfiles(ids) && StorableProfiles(ids)
    ensures FieldsFramable(ProfileFields(CanonicalProfiles(ids).value))
  {
    hide Encode, TextOf, IsIdentifier, Storable, Framable;
    var ps := CanonicalProfiles(ids).value;
    ProfilesKept(ids);
    forall i | 0 <= i < |ps|
      ensures Framable(TextOf("profile-id")) && Framable(ps[i])
    {
      assert ps[i] in ids;
      FieldFramable("profile-id", ps[i]);
    }
  }

  lemma ComponentFramable(c: Component)
    requires ValidComponent(c) && Storable(c.key) && Storable(c.value)
    ensures Framable(TextOf("component:") + c.key) && Framable(c.value)
  {
    hide Encode, TextOf;
    LiteralFramable("component:");
    EncodeConcat(TextOf("component:"), c.key);
    Utf.WellFormedConcat(TextOf("component:"), c.key);
  }

  lemma ComponentFieldsFramable(cs: seq<Component>)
    requires ValidComponents(cs) && StorableComponents(cs)
    ensures FieldsFramable(ComponentFields(CanonicalComponents(cs).value))
  {
    hide Encode, TextOf, IsIdentifier, Storable, Framable;
    var sorted := CanonicalComponents(cs).value;
    forall i | 0 <= i < |sorted|
      ensures Framable(TextOf("component:") + sorted[i].key) && Framable(sorted[i].value)
    {
      SortedHolds(cs, sorted[i]);
      assert sorted[i] in cs;
      ComponentFramable(sorted[i]);
    }
  }

  // ---------- the main results ----------

  ghost predicate StorablePath(x: PathInput) {
    Storable(x.ruleId) && Storable(x.ruleVersion) && Storable(x.path) && Storable(x.anchor)
    && StorableProfiles(x.profileIds)
  }

  ghost predicate StorableSemantic(x: SemanticInput) {
    Storable(x.ruleId) && Storable(x.ruleVersion) && StorableProfiles(x.profileIds) && StorableComponents(x.components)
  }

  lemma PathWellFormed(p: Text)
    requires RepositoryPath.IsRepositoryRelativePath(p)
    ensures Utf.WellFormed(p)
  {
    hide RepositoryPath.IsRepositoryRelativePath, RepositoryPath.TextError, Utf.WellFormed;
    RepositoryPath.CanonicalExactly(p);
    RepositoryPath.CleanText(p);
  }

  lemma RuleFieldsFramable(ruleId: Text, ruleVersion: Text)
    requires ValidRule(ruleId, ruleVersion) && Storable(ruleId) && Storable(ruleVersion)
    ensures FieldsFramable(RuleFields(ruleId, ruleVersion))
  {
    hide TextOf, Encode, IsIdentifier, Storable, Framable;
    FieldFramable("rule-id", ruleId);
    FieldFramable("rule-version", ruleVersion);
  }

  lemma PathFieldsFramable(x: PathInput)
    requires ValidPathInput(x) && StorablePath(x)
    ensures FieldsFramable(PathFields(x, CanonicalProfiles(x.profileIds).value))
  {
    hide TextOf, Encode, IsIdentifier, Storable, Framable, CanonicalProfiles, RepositoryPath.IsRepositoryRelativePath;
    RuleFieldsFramable(x.ruleId, x.ruleVersion);
    PathWellFormed(x.path);
    FieldFramable("repository-path", x.path);
    FieldFramable("anchor", x.anchor);
    ProfileFieldsFramable(x.profileIds);
  }

  lemma SemanticFieldsFramable(x: SemanticInput)
    requires ValidSemanticInput(x) && StorableSemantic(x)
    ensures FieldsFramable(SemanticFields(x, CanonicalProfiles(x.profileIds).value,
                                          CanonicalComponents(x.components).value))
  {
    hide TextOf, Encode, IsIdentifier, Storable, Framable, ValidComponents, Sort, Unique, ByKey;
    RuleFieldsFramable(x.ruleId, x.ruleVersion);
    ProfileFieldsFramable(x.profileIds);
    ComponentFieldsFramable(x.components);
  }

  lemma ProfileFieldsDetermine(a: seq<Text>, b: seq<Text>)
    requires ProfileFields(a) == ProfileFields(b)
    ensures a == b
  {
    hide TextOf;
    assert |a| == |ProfileFields(a)| && |b| == |ProfileFields(b)|;
    forall i | 0 <= i < |a|
      ensures a[i] == b[i]
    {
      assert ProfileFields(a)[i].value == a[i] && ProfileFields(b)[i].value == b[i];
    }
  }

  lemma PathFieldsDetermine(x: PathInput, p: seq<Text>, y: PathInput, q: seq<Text>)
    requires PathFields(x, p) == PathFields(y, q)
    ensures x.ruleId == y.ruleId && x.ruleVersion == y.ruleVersion && x.path == y.path && x.anchor == y.anchor && p == q
  {
    hide TextOf, ProfileFields;
    var a, b := PathFields(x, p), PathFields(y, q);
    assert a[0] == b[0] && a[1] == b[1] && a[2] == b[2] && a[3] == b[3];
    assert a[4..] == ProfileFields(p) && b[4..] == ProfileFields(q);
    ProfileFieldsDetermine(p, q);
  }

  /** The stream of a path fingerprint determines rule, version, path, anchor and the set of profiles,
      and nothing else. */
  lemma PathStreamExact(x: PathInput, y: PathInput)
    requires PathStream(x).Some? && PathStream(y).Some? && StorablePath(x) && StorablePath(y)
    ensures PathStream(x) == PathStream(y) <==>
            x.ruleId == y.ruleId && x.ruleVersion == y.ruleVersion && x.path == y.path && x.anchor == y.anchor
            && ToSet(x.profileIds) == ToSet(y.profileIds)
  {
    hide TextOf, DomainStream, Encode, IsIdentifier, IsText, Storable, Framable, PathFields, FieldsFramable, Sort,
         Unique,
      RepositoryPath.IsRepositoryRelativePath;
    var p, q := CanonicalProfiles(x.profileIds).value, CanonicalProfiles(y.profileIds).value;
    ProfilesExact(x.profileIds, y.profileIds);
    if PathStream(x) == PathStream(y) {
      LiteralFramable(PATH_FINGERPRINT_METHOD);
      PathFieldsFramable(x);
      PathFieldsFramable(y);
      StreamDeterminesFields(TextOf(PATH_FINGERPRINT_METHOD), PathFields(x, p), TextOf(PATH_FINGERPRINT_METHOD),
                             PathFields(y, q));
      PathFieldsDetermine(x, p, y, q);
    } else if x.ruleId == y.ruleId && x.ruleVersion == y.ruleVersion && x.path == y.path && x.anchor == y.anchor
              && ToSet(x.profileIds) == ToSet(y.profileIds) {
      SamePathFields(x, y, p);
    }
  }

  lemma SamePathFields(x: PathInput, y: PathInput, p: seq<Text>)
    requires x.ruleId == y.ruleId && x.ruleVersion == y.ruleVersion && x.path == y.path && x.anchor == y.anchor
    ensures PathFields(x, p) == PathFields(y, p)
  {
    hide TextOf;
  }

  /** A component's field is never mistaken for a profile's. */
  lemma NamesDiffer(k: Text)
    ensures TextOf("component:") + k != TextOf("profile-id")
  {
    assert (TextOf("component:") + k)[0] == TextOf("component:")[0];
    LiteralHead("component:");
    LiteralHead("profile-id");
  }

  lemma LiteralHead(s: string)
    requires s != [] && s[0] < '\U{80}'
    ensures TextOf(s) != [] && TextOf(s)[0] == s[0] as int
  {
  }

  lemma NotMoreProfiles(p: seq<Text>, cs: seq<Component>, q: seq<Text>, ds: seq<Component>)
    requires ProfileFields(p) + ComponentFields(cs) == ProfileFields(q) + ComponentFields(ds)
    ensures |p| <= |q|
  {
    hide TextOf;
    assert |p| + |cs| == |q| + |ds|;
    if |p| > |q| {
      ComponentAt(q, ds, |q|);
      NamesDiffer(ds[0].key);
      ProfileAt(p, cs, |q|);
    }
  }

  lemma ProfileAt(p: seq<Text>, cs: seq<Component>, i: nat)
    requires i < |p|
    ensures (ProfileFields(p) + ComponentFields(cs))[i].name == TextOf("profile-id")
  {
    hide TextOf;
  }

  lemma ComponentAt(q: seq<Text>, ds: seq<Component>, i: nat)
    requires |q| <= i < |q| + |ds|
    ensures (ProfileFields(q) + ComponentFields(ds))[i].name == TextOf("component:") + ds[i - |q|].key
  {
    hide TextOf;
  }

  lemma ComponentFieldsDetermine(cs: seq<Component>, ds: seq<Component>)
    requires ComponentFields(cs) == ComponentFields(ds)
    ensures cs == ds
  {
    hide TextOf;
    var a, b := ComponentFields(cs), ComponentFields(ds);
    assert |a| == |cs| && |b| == |ds|;
    forall i | 0 <= i < |cs|
      ensures cs[i] == ds[i]
    {
      var prefix := TextOf("component:");
      assert a[i].name == prefix + cs[i].key && b[i].name == prefix + ds[i].key;
      assert cs[i].key == a[i].name[|prefix|..] && ds[i].key == b[i].name[|prefix|..];
      assert a[i].value == cs[i].value && b[i].value == ds[i].value;
    }
  }

  lemma SemanticFieldsDetermine(x: SemanticInput, p: seq<Text>, cs: seq<Component>, y: SemanticInput, q: seq<Text>,
                                ds: seq<Component>)
    requires SemanticFields(x, p, cs) == SemanticFields(y, q, ds)
    ensures x.ruleId == y.ruleId && x.ruleVersion == y.ruleVersion && p == q && cs == ds
  {
    hide TextOf, ProfileFields, ComponentFields;
    var a, b := SemanticFields(x, p, cs), SemanticFields(y, q, ds);
    assert a[0] == b[0] && a[1] == b[1];
    assert a[2..] == ProfileFields(p) + ComponentFields(cs) && b[2..] == ProfileFields(q) + ComponentFields(ds);
    NotMoreProfiles(p, cs, q, ds);
    NotMoreProfiles(q, ds, p, cs);
    assert ProfileFields(p) == a[2..][..|p|] && ProfileFields(q) == b[2..][..|q|];
    assert ComponentFields(cs) == a[2..][|p|..] && ComponentFields(ds) == b[2..][|q|..];
    ProfileFieldsDetermine(p, q);
    ComponentFieldsDetermine(cs, ds);
  }

  /** The stream of a semantic fingerprint determines rule, version, the set of profiles and the set of components. */
  lemma SemanticStreamExact(x: SemanticInput, y: SemanticInput)
    requires SemanticStream(x).Some? && SemanticStream(y).Some? && StorableSemantic(x) && StorableSemantic(y)
    ensures SemanticStream(x) == SemanticStream(y) <==>
            x.ruleId == y.ruleId && x.ruleVersion == y.ruleVersion && ToSet(x.profileIds) == ToSet(y.profileIds)
            && ToSet(x.components) == ToSet(y.components)
  {
    hide TextOf, DomainStream, Encode, IsIdentifier, IsText, Storable, Framable, SemanticFields, FieldsFramable, Sort,
         Unique,
      ValidComponents, ByKey;
    var p, q := CanonicalProfiles(x.profileIds).value, CanonicalProfiles(y.profileIds).value;
    var cs, ds := CanonicalComponents(x.components).value, CanonicalComponents(y.components).value;
    ProfilesExact(x.profileIds, y.profileIds);
    ComponentsExact(x.components, y.components);
    if SemanticStream(x) == SemanticStream(y) {
      LiteralFramable(SEMANTIC_FINGERPRINT_METHOD);
      SemanticFieldsFramable(x);
      SemanticFieldsFramable(y);
      StreamDeterminesFields(TextOf(SEMANTIC_FINGERPRINT_METHOD), SemanticFields(x, p, cs),
                             TextOf(SEMANTIC_FINGERPRINT_METHOD), SemanticFields(y, q, ds));
      SemanticFieldsDetermine(x, p, cs, y, q, ds);
    } else if x.ruleId == y.ruleId && x.ruleVersion == y.ruleVersion && ToSet(x.profileIds) == ToSet(y.profileIds)
              && ToSet(x.components) == ToSet(y.components) {
      SameSemanticFields(x, y, p, cs);
    }
  }

  lemma SameSemanticFields(x: SemanticInput, y: SemanticInput, p: seq<Text>, cs: seq<Component>)
    requires x.ruleId == y.ruleId && x.ruleVersion == y.ruleVersion
    ensures SemanticFields(x, p, cs) == SemanticFields(y, p, cs)
  {
    hide TextOf;
  }

  /** No path fingerprint hashes the same bytes as a semantic one. */
  lemma MethodsDiffer(x: PathInput, y: SemanticInput)
    requires PathStream(x).Some? && SemanticStream(y).Some? && StorablePath(x) && StorableSemantic(y)
    ensures PathStream(x) != SemanticStream(y)
  {
    hide TextOf, DomainStream, Encode, IsIdentifier, IsText, Storable, Framable, PathFields, SemanticFields,
         FieldsFramable,
      Sort, Unique, ValidComponents, ByKey, RepositoryPath.IsRepositoryRelativePath;
    var p, q := CanonicalProfiles(x.profileIds).value, CanonicalProfiles(y.profileIds).value;
    var ds := CanonicalComponents(y.components).value;
    MethodNamesDiffer();
    if PathStream(x) == SemanticStream(y) {
      LiteralFramable(PATH_FINGERPRINT_METHOD);
      LiteralFramable(SEMANTIC_FINGERPRINT_METHOD);
      PathFieldsFramable(x);
      SemanticFieldsFramable(y);
      StreamDeterminesFields(TextOf(PATH_FINGERPRINT_METHOD), PathFields(x, p),
                             TextOf(SEMANTIC_FINGERPRINT_METHOD), SemanticFields(y, q, ds));
    }
  }

  lemma MethodNamesDiffer()
    ensures TextOf(PATH_FINGERPRINT_METHOD) != TextOf(SEMANTIC_FINGERPRINT_METHOD)
  {
    hide TextOf;
    AsciiAt(PATH_FINGERPRINT_METHOD, 0);
    AsciiAt(SEMANTIC_FINGERPRINT_METHOD, 0);
    assert |PATH_FINGERPRINT_METHOD| != |SEMANTIC_FINGERPRINT_METHOD|;
  }
}
