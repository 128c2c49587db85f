/** The byte stream that the canonical digest hashes: it determines the JSON tree up to the order of object keys. */
module CanonicalDigest {
  import opened Text
  import Utf
  import opened Utf8
  import opened Numerals
  import opened ByteOrder
  import opened JsonGraph

  // ---------- objects as maps ----------

  function Keys(fs: Fields): seq<Text> {
    if fs.NoFields? then [] else [fs.key] + Keys(fs.rest)
  }

  function Find(fs: Fields, k: Text): (t: Tree)
    requires k in Keys(fs)
    ensures Count(t) <= CountFields(fs)
  {
    if fs.key == k then fs.value else Find(fs.rest, k)
  }

  /** A tree as JavaScript can hold it: well-formed strings, and objects with distinct keys. */
  ghost predicate Proper(t: Tree)
    decreases t
  {
    match t
    case Text(s) => Utf.WellFormed(s)
    case Numeral(digits) => Utf.WellFormed(digits)
    case Items(fs) => ProperFields(fs)
    case Members(fs) => ProperFields(fs) && Distinct(Keys(fs)) && AllWellFormed(Keys(fs))
    case _ => true
  }

  ghost predicate ProperFields(fs: Fields)
    decreases fs
  {
    fs.Field? ==> Proper(fs.value) && ProperFields(fs.rest)
  }

  /** Equal up to the order of object keys. */
  ghost predicate Same(t: Tree, u: Tree)
    decreases Count(t), 0
  {
    match t
    case Items(fs) => u.Items? && SameItems(fs, u.fields)
    case Members(fs) => u.Members? && SameMembers(fs, u.fields)
    case _ => t == u
  }

  ghost predicate SameItems(fs: Fields, gs: Fields)
    decreases CountFields(fs), 1
  {
    && fs.NoFields? == gs.NoFields?
    && (fs.Field? ==> Same(fs.value, gs.value) && SameItems(fs.rest, gs.rest))
  }

  ghost predicate SameMembers(fs: Fields, gs: Fields)
    decreases CountFields(fs), 1
  {
    && (forall k :: k in Keys(fs) <==> k in Keys(gs))
    && (forall k | k in Keys(fs) && k in Keys(gs) :: Same(Find(fs, k), Find(gs, k)))
  }

  // ---------- the stream ----------

  const DOMAIN := "agent-context-instruction-ir-snapshot\0sha256-canonical-b03-v1\0"

  const COLON: Byte := 0x3a
  const N: Byte := 0x6e
  const T: Byte := 0x74
  const F: Byte := 0x66
  const D: Byte := 0x64
  const S: Byte := 0x73
  const A: Byte := 0x61
  const O: Byte := 0x6f
  const K: Byte := 0x6b

  /** `updateLength` after a mark. */
  function Header(mark: Byte, n: nat): Bytes {
    [mark] + Ascii(Show(n)) + [COLON]
  }

  function Ascii(t: Text): (b: Bytes)
    requires AllDigits(t)
    ensures b == t
  {
    assert forall i | 0 <= i < |t| :: t[i] < 0x80;
    t
  }

  function Block(mark: Byte, t: Text): Bytes {
    Header(mark, |Encode(t)|) + Encode(t)
  }

  function Stream(t: Tree): Bytes
    decreases Count(t), 0
  {
    match t
    case Nil => [N]
    case Truth(b) => [if b then T else F]
    case Numeral(digits) => Block(D, digits)
    case Text(s) => Block(S, s)
    case Items(fs) => Header(A, Length(fs)) + StreamItems(fs)
    case Members(fs) =>
      var sorted := Sort(Keys(fs));
      SortKeeps(Keys(fs));
      Header(O, |sorted|) + StreamKeys(fs, sorted)
  }

  function StreamItems(fs: Fields): Bytes
    decreases CountFields(fs), 1
  {
    if fs.NoFields? then [] else Stream(fs.value) + StreamItems(fs.rest)
  }

  function StreamKeys(fs: Fields, ks: seq<Text>): Bytes
    requires forall k | k in ks :: k in Keys(fs)
    decreases CountFields(fs), 1 + |ks|
  {
    if ks == [] then [] else
      assert ks[0] in ks;
      assert forall k | k in ks[1..] :: k in ks;
      Block(K, ks[0]) + Stream(Find(fs, ks[0])) + StreamKeys(fs, ks[1..])
  }

  // ---------- prefix codes ----------

  lemma DifferentRuns(a: Text, x: Bytes, b: Text, y: Bytes)
    requires AllDigits(b) && |a| < |b|
    ensures a + [COLON] + x != b + [COLON] + y
  {
    assert (a + [COLON] + x)[|a|] == COLON;
    assert (b + [COLON] + y)[|a|] == b[|a|];
  }

  lemma DigitRun(a: Text, x: Bytes, b: Text, y: Bytes)
    requires AllDigits(a) && AllDigits(b) && a + [COLON] + x == b + [COLON] + y
    ensures a == b && x == y
  {
    var l, r := a + [COLON] + x, b + [COLON] + y;
    if |a| < |b| {
      DifferentRuns(a, x, b, y);
    } else if |b| < |a| {
      DifferentRuns(b, y, a, x);
    }
    assert a == l[..|a|] && b == r[..|b|];
    assert x == l[|a| + 1..] && y == r[|b| + 1..];
  }

  lemma HeaderDetermined(p: Byte, m: nat, x: Bytes, q: Byte, n: nat, y: Bytes)
    requires Header(p, m) + x == Header(q, n) + y
    ensures p == q && m == n && x == y
  {
    var l, r := Header(p, m) + x, Header(q, n) + y;
    assert l[0] == p && r[0] == q;
    assert l[1..] == Show(m) + [COLON] + x && r[1..] == Show(n) + [COLON] + y;
    DigitRun(Show(m), x, Show(n), y);
  }

  lemma BlockDetermined(p: Byte, a: Text, x: Bytes, q: Byte, b: Text, y: Bytes)
    requires Utf.WellFormed(a) && Utf.WellFormed(b) && Block(p, a) + x == Block(q, b) + y
    ensures p == q && a == b && x == y
  {
    hide Header, Encode;
    var e, f := Encode(a), Encode(b);
    assert Block(p, a) + x == Header(p, |e|) + (e + x);
    assert Block(q, b) + y == Header(q, |f|) + (f + y);
    HeaderDetermined(p, |e|, e + x, q, |f|, f + y);
    assert e == (e + x)[..|e|] && f == (f + y)[..|f|];
    assert x == (e + x)[|e|..] && y == (f + y)[|f|..];
    EncodeInjective(a, b);
  }

  /** The mark that a tree starts with. */
  function Mark(t: Tree): Byte {
    match t
    case Nil => N
    case Truth(b) => if b then T else F
    case Numeral(_) => D
    case Text(_) => S
    case Items(_) => A
    case Members(_) => O
  }

  lemma StartsWithMark(t: Tree, x: Bytes)
    ensures (Stream(t) + x)[0] == Mark(t)
  {
    hide StreamItems, StreamKeys, Encode, Sort, Keys;
  }

  /** Reading a stream from the left yields one tree and one rest: the code is prefix-free. */
  lemma {:induction false} StreamDetermines(t: Tree, x: Bytes, u: Tree, y: Bytes)
    requires Proper(t) && Proper(u) && Stream(t) + x == Stream(u) + y
    ensures Same(t, u) && x == y
    decreases Count(t), 0
  {
    hide Encode, Sort, Keys, Header, Block, Same, Proper, Stream;
    StartsWithMark(t, x);
    StartsWithMark(u, y);
    match t {
      case Nil => ShortDetermines(t, x, u, y);
      case Truth(_) => ShortDetermines(t, x, u, y);
      case Numeral(_) => TextDetermines(t, x, u, y);
      case Text(_) => TextDetermines(t, x, u, y);
      case Items(_) => ArrayDetermines(t, x, u, y);
      case Members(_) => ObjectDetermines(t, x, u, y);
    }
  }

  lemma ShortDetermines(t: Tree, x: Bytes, u: Tree, y: Bytes)
    requires t.Nil? || t.Truth?
    requires Mark(t) == Mark(u) && Stream(t) + x == Stream(u) + y
    ensures Same(t, u) && x == y
  {
    assert t == u;
    assert x == (Stream(t) + x)[1..] && y == (Stream(u) + y)[1..];
  }

  lemma TextDetermines(t: Tree, x: Bytes, u: Tree, y: Bytes)
    requires t.Numeral? || t.Text?
    requires Proper(t) && Proper(u) && Mark(t) == Mark(u) && Stream(t) + x == Stream(u) + y
    ensures Same(t, u) && x == y
  {
    hide Encode, Block;
    if t.Text? {
      BlockDetermined(S, t.text, x, S, u.text, y);
    } else {
      BlockDetermined(D, t.digits, x, D, u.digits, y);
    }
  }

  lemma {:induction false} ArrayDetermines(t: Tree, x: Bytes, u: Tree, y: Bytes)
    requires t.Items? && Mark(t) == Mark(u) && Proper(t) && Proper(u) && Stream(t) + x == Stream(u) + y
    ensures Same(t, u) && x == y
    decreases CountFields(t.fields), 3
  {
    hide Header, StreamItems, SameItems, ProperFields;
    var a, b := StreamItems(t.fields), StreamItems(u.fields);
    assert Stream(t) + x == Header(A, Length(t.fields)) + (a + x);
    assert Stream(u) + y == Header(A, Length(u.fields)) + (b + y);
    HeaderDetermined(A, Length(t.fields), a + x, A, Length(u.fields), b + y);
    ItemsDetermine(t.fields, x, u.fields, y);
  }

  lemma {:induction false} ItemsDetermine(fs: Fields, x: Bytes, gs: Fields, y: Bytes)
    requires Length(fs) == Length(gs) && ProperFields(fs) && ProperFields(gs)
    requires StreamItems(fs) + x == StreamItems(gs) + y
    ensures SameItems(fs, gs) && x == y
    decreases CountFields(fs), 2
  {
    hide Stream, Same, Proper;
    if fs.NoFields? {
      assert StreamItems(fs) + x == x && StreamItems(gs) + y == y;
    } else {
      var a, b := StreamItems(fs.rest) + x, StreamItems(gs.rest) + y;
      assert StreamItems(fs) + x == Stream(fs.value) + a;
      assert StreamItems(gs) + y == Stream(gs.value) + b;
      StreamDetermines(fs.value, a, gs.value, b);
      CountPositive(fs.value);
      ItemsDetermine(fs.rest, x, gs.rest, y);
    }
  }

  lemma CountPositive(t: Tree)
    ensures Count(t) >= 1
  {
  }

  lemma {:induction false} ObjectDetermines(t: Tree, x: Bytes, u: Tree, y: Bytes)
    requires t.Members? && Mark(t) == Mark(u) && Proper(t) && Proper(u) && Stream(t) + x == Stream(u) + y
    ensures Same(t, u) && x == y
    decreases CountFields(t.fields), 3, 1
  {
    hide Header, Encode, Sort, Keys, StreamKeys, ProperFields, SameMembers;
    var fs, gs := t.fields, u.fields;
    var ks, ls := Sort(Keys(fs)), Sort(Keys(gs));
    SortKeeps(Keys(fs));
    SortKeeps(Keys(gs));
    var a, b := StreamKeys(fs, ks), StreamKeys(gs, ls);
    assert Stream(t) + x == Header(O, |ks|) + (a + x);
    assert Stream(u) + y == Header(O, |ls|) + (b + y);
    HeaderDetermined(O, |ks|, a + x, O, |ls|, b + y);
    SortedProper(fs, ks);
    SortedProper(gs, ls);
    KeysDetermine(fs, ks, x, gs, ls, y);
    SameFromKeys(fs, gs, ks);
  }

  /** The values under the given keys are proper. */
  ghost predicate ProperAt(fs: Fields, ks: seq<Text>) {
    forall k | k in ks :: k in Keys(fs) && Utf.WellFormed(k) && Proper(Find(fs, k))
  }

  lemma {:induction false} FoundProper(fs: Fields, k: Text)
    requires ProperFields(fs) && k in Keys(fs)
    ensures Proper(Find(fs, k))
  {
    if fs.key != k {
      FoundProper(fs.rest, k);
    }
  }

  lemma SortedProper(fs: Fields, ks: seq<Text>)
    requires ProperFields(fs) && AllWellFormed(Keys(fs)) && forall k | k in ks :: k in Keys(fs)
    ensures ProperAt(fs, ks)
  {
    forall k | k in ks
      ensures Proper(Find(fs, k))
    {
      FoundProper(fs, k);
    }
  }

  ghost predicate SameAt(fs: Fields, gs: Fields, ks: seq<Text>)
    decreases CountFields(fs), 2
  {
    forall k | k in ks :: k in Keys(fs) && k in Keys(gs) && Same(Find(fs, k), Find(gs, k))
  }

  lemma {:induction false} KeysDetermine(fs: Fields, ks: seq<Text>, x: Bytes, gs: Fields, ls: seq<Text>, y: Bytes)
    requires |ks| == |ls| && ProperAt(fs, ks) && ProperAt(gs, ls) && StreamKeys(fs, ks) + x == StreamKeys(gs, ls) + y
    ensures ks == ls && SameAt(fs, gs, ks) && x == y
    decreases CountFields(fs), 2, |ks|
  {
    hide Stream, Same, Proper, Block, Keys, Find;
    if ks == [] {
      assert StreamKeys(fs, ks) + x == x && StreamKeys(gs, ls) + y == y;
    } else {
      var k, l := ks[0], ls[0];
      assert k in ks && l in ls;
      var v, w := Find(fs, k), Find(gs, l);
      var a, b := StreamKeys(fs, ks[1..]) + x, StreamKeys(gs, ls[1..]) + y;
      assert StreamKeys(fs, ks) + x == Block(K, k) + (Stream(v) + a);
      assert StreamKeys(gs, ls) + y == Block(K, l) + (Stream(w) + b);
      BlockDetermined(K, k, Stream(v) + a, K, l, Stream(w) + b);
      StreamDetermines(v, a, w, b);
      KeysDetermine(fs, ks[1..], x, gs, ls[1..], y);
      assert ks == [k] + ks[1..] && ls == [l] + ls[1..];
    }
  }

  lemma SameFromKeys(fs: Fields, gs: Fields, ks: seq<Text>)
    requires SameAt(fs, gs, ks) && (forall k :: k in ks <==> k in Keys(fs)) && (forall k :: k in ks <==> k in Keys(gs))
    ensures SameMembers(fs, gs)
  {
    hide Same, Keys, Find;
  }

  // ---------- key order does not matter ----------

  lemma {:induction false} SameStream(t: Tree, u: Tree)
    requires Proper(t) && Proper(u) && Same(t, u)
    ensures Stream(t) == Stream(u)
    decreases Count(t), 0
  {
    hide Encode, Sort, Block, Header, StreamKeys, StreamItems, SameItems, ProperFields, Keys, SameMembers;
    match t {
      case Items(fs) =>
        SameItemsStream(fs, u.fields);
      case Members(fs) =>
        SameMembersStream(fs, u.fields);
      case _ =>
    }
  }

  lemma {:induction false} SameItemsStream(fs: Fields, gs: Fields)
    requires ProperFields(fs) && ProperFields(gs) && SameItems(fs, gs)
    ensures StreamItems(fs) == StreamItems(gs) && Length(fs) == Length(gs)
    decreases CountFields(fs), 1
  {
    hide Stream, Same, Proper;
    if fs.Field? {
      SameStream(fs.value, gs.value);
      CountPositive(fs.value);
      SameItemsStream(fs.rest, gs.rest);
    }
  }

  lemma {:induction false} SameMembersStream(fs: Fields, gs: Fields)
    requires ProperFields(fs) && ProperFields(gs) && SameMembers(fs, gs)
    requires Distinct(Keys(fs)) && AllWellFormed(Keys(fs)) && Distinct(Keys(gs)) && AllWellFormed(Keys(gs))
    ensures Sort(Keys(fs)) == Sort(Keys(gs))
    ensures forall k | k in Sort(Keys(fs)) :: k in Keys(fs) && k in Keys(gs)
    ensures StreamKeys(fs, Sort(Keys(fs))) == StreamKeys(gs, Sort(Keys(gs)))
    decreases CountFields(fs), 3
  {
    hide Same, Keys, Find, Sort, ProperFields;
    SortDependsOnSet(Keys(fs), Keys(gs));
    SortKeeps(Keys(fs));
    SameKeysStream(fs, gs, Sort(Keys(fs)));
  }

  lemma {:induction false} SameKeysStream(fs: Fields, gs: Fields, ks: seq<Text>)
    requires ProperFields(fs) && ProperFields(gs) && SameAt(fs, gs, ks)
    ensures StreamKeys(fs, ks) == StreamKeys(gs, ks)
    decreases CountFields(fs), 2, |ks|
  {
    hide Same, Keys, Find, Stream, Block, ProperFields, Proper;
    if ks != [] {
      assert ks[0] in ks;
      FoundProper(fs, ks[0]);
      FoundProper(gs, ks[0]);
      SameStream(Find(fs, ks[0]), Find(gs, ks[0]));
      SameKeysStream(fs, gs, ks[1..]);
    }
  }

  /** Two proper trees feed the same bytes to the hash exactly when they are equal up to the order of object keys. */
  lemma DigestStreamExact(t: Tree, u: Tree)
    requires Proper(t) && Proper(u)
    ensures Stream(t) == Stream(u) <==> Same(t, u)
  {
    hide Stream, Same, Proper;
    if Stream(t) == Stream(u) {
      assert Stream(t) + [] == Stream(u) + [];
      StreamDetermines(t, [], u, []);
    } else if Same(t, u) {
      SameStream(t, u);
    }
  }

  // ---------- feeding the hash ----------

  /** What a hash object has been fed so far. */
  class Hash {
    var fed: Bytes

    constructor ()
      ensures fed == []
    {
      fed := [];
    }

    method Update(b: Bytes)
      modifies this
      ensures fed == old(fed) + b
    {
      fed := fed + b;
    }

    method UpdateLength(n: nat)
      modifies this
      ensures fed == old(fed) + Show(n) + [COLON]
    {
      Update(Ascii(Show(n)));
      Update([COLON]);
    }

    method WriteText(mark: Byte, t: Text)
      modifies this
      ensures fed == old(fed) + Block(mark, t)
    {
      hide Encode;
      Update([mark]);
      UpdateLength(|Encode(t)|);
      Update(Encode(t));
      assert fed == old(fed) + (Header(mark, |Encode(t)|) + Encode(t));
    }

    method Write(t: Tree)
      modifies this
      ensures fed == old(fed) + Stream(t)
      decreases Count(t), 0
    {
      hide Encode, Block, StreamItems, StreamKeys, Sort, Keys;
      match t {
        case Nil => Update([N]);
        case Truth(b) => Update([if b then T else F]);
        case Numeral(digits) => WriteText(D, digits);
        case Text(s) => WriteText(S, s);
        case Items(fs) => WriteArray(fs);
        case Members(fs) => WriteObject(fs);
      }
    }

    method WriteArray(fs: Fields)
      modifies this
      ensures fed == old(fed) + Stream(Items(fs))
      decreases CountFields(fs), 2
    {
      hide StreamItems;
      Update([A]);
      UpdateLength(Length(fs));
      WriteItems(fs);
    }

    method WriteObject(fs: Fields)
      modifies this
      ensures fed == old(fed) + Stream(Members(fs))
      decreases CountFields(fs), 2
    {
      hide StreamKeys, Sort, Keys;
      var sorted := Sort(Keys(fs));
      SortKeeps(Keys(fs));
      Update([O]);
      UpdateLength(|sorted|);
      WriteMembers(fs, sorted);
    }

    method WriteItems(fs: Fields)
      modifies this
      ensures fed == old(fed) + StreamItems(fs)
      decreases CountFields(fs), 1
    {
      hide Stream;
      var rest := fs;
      while rest.Field?
        invariant fed + StreamItems(rest) == old(fed) + StreamItems(fs)
        invariant CountFields(rest) <= CountFields(fs)
        decreases CountFields(rest)
      {
        CountPositive(rest.value);
        Write(rest.value);
        rest := rest.rest;
      }
    }

    method WriteMembers(fs: Fields, sorted: seq<Text>)
      requires forall k | k in sorted :: k in Keys(fs)
      modifies this
      ensures fed == old(fed) + StreamKeys(fs, sorted)
      decreases CountFields(fs), 1
    {
      hide Stream, Keys, Find, Block;
      assert sorted[0..] == sorted;
      for i := 0 to |sorted|
        invariant forall k | k in sorted[i..] :: k in Keys(fs)
        invariant fed + StreamKeys(fs, sorted[i..]) == old(fed) + StreamKeys(fs, sorted)
      {
        assert sorted[i..][0] == sorted[i] && sorted[i..][1..] == sorted[i + 1..];
        WriteText(K, sorted[i]);
        Write(Find(fs, sorted[i]));
      }
    }
  }

  /** Everything that `canonicalDigest` feeds to the hash. */
  method DigestInput(t: Tree) returns (fed: Bytes)
    ensures fed == Encode(TextOf(DOMAIN)) + Stream(t)
  {
    hide Stream, Encode, TextOf;
    var hash := new Hash();
    hash.Update(Encode(TextOf(DOMAIN)));
    hash.Write(t);
    fed := hash.fed;
  }

  // ---------- the format ----------

  /** Each kind of value begins with its letter; lengths are decimal byte or element counts followed by a colon. */
  lemma StreamShapes(t: Tree)
    ensures t.Nil? ==> Stream(t) == ['n' as int]
    ensures t.Truth? ==> Stream(t) == [if t.b then 't' as int else 'f' as int]
    ensures t.Numeral? ==> Stream(t) == ['d' as int] + Show(|Encode(t.digits)|) + [':' as int] + Encode(t.digits)
    ensures t.Text? ==> Stream(t) == ['s' as int] + Show(|Encode(t.text)|) + [':' as int] + Encode(t.text)
    ensures t.Items? ==> Stream(t) == ['a' as int] + Show(Length(t.fields)) + [':' as int] + StreamItems(t.fields)
  {
  }

  /** An object is written member by member, ascending by the bytes of the keys. */
  lemma ObjectShape(fs: Fields) returns (ks: seq<Text>)
    ensures |ks| == Length(fs) && (forall k :: k in ks <==> k in Keys(fs))
    ensures forall i, j | 0 <= i < j < |ks| :: !Less(Encode(ks[j]), Encode(ks[i]))
    ensures Stream(Members(fs)) == ['o' as int] + Show(|ks|) + [':' as int] + StreamKeys(fs, ks)
    ensures ks != [] ==>
              StreamKeys(fs, ks) == ['k' as int] + Show(|Encode(ks[0])|) + [':' as int] + Encode(ks[0])
                                    + Stream(Find(fs, ks[0])) + StreamKeys(fs, ks[1..])
  {
    hide Sort;
    ks := Sort(Keys(fs));
    SortKeeps(Keys(fs));
    KeysCounted(fs);
    SortAscends(Keys(fs));
  }

  lemma {:induction false} KeysCounted(fs: Fields)
    ensures |Keys(fs)| == Length(fs)
  {
    if fs.Field? {
      KeysCounted(fs.rest);
    }
  }
}
