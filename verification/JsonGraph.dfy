/** Possibly cyclic, possibly shared graphs of JavaScript values, and the JSON trees they unfold to. */
module JsonGraph {
  import opened Text
  import Utf
  import opened Numerals

  const MAX_JSON_NESTING_DEPTH := 256
  const MAX_ARRAY_INDEX := 0xffff_fffe

  type Ref = nat

  datatype Value =
    | Null
    | Boolean(b: bool)
    | String(text: Text)
    | Number(finite: bool, negativeZero: bool, digits: Text)
    | NotJson
    | Object(ref: Ref)

  datatype Entry = Entry(key: Text, value: Value)

  /** The own properties in enumeration order; for an array its `length` property is kept apart. */
  datatype Container =
    | Array(length: nat, entries: seq<Entry>)
    | Record(entries: seq<Entry>)

  type Heap = map<Ref, Container>

  datatype Limits = Limits(containerEntries: nat, keyBytes: nat, stringBytes: nat, totalStringBytes: nat, values: nat)

  /** `canonicalArrayIndex`: the index that a key spells, if it is canonical and in the range of array indices. */
  function CanonicalArrayIndex(key: Text): Option<nat> {
    if IsNumeral(key) && Decimal(key) <= MAX_ARRAY_INDEX then Some(Decimal(key)) else None
  }

  lemma CanonicalArrayIndexUnique(a: Text, b: Text)
    requires CanonicalArrayIndex(a).Some? && CanonicalArrayIndex(a) == CanonicalArrayIndex(b)
    ensures a == b
  {
    NumeralUnique(a, b);
  }

  // ---------- JSON trees ----------

  datatype Tree =
    | Nil
    | Truth(b: bool)
    | Text(text: Text)
    | Numeral(digits: Text)
    | Items(fields: Fields)
    | Members(fields: Fields)

  datatype Fields = NoFields | Field(key: Text, value: Tree, rest: Fields)

  /** How many JSON values the tree holds. */
  function Count(t: Tree): nat
    decreases t
  {
    match t
    case Items(fs) => 1 + CountFields(fs)
    case Members(fs) => 1 + CountFields(fs)
    case _ => 1
  }

  function CountFields(fs: Fields): nat
    decreases fs
  {
    if fs.NoFields? then 0 else Count(fs.value) + CountFields(fs.rest)
  }

  /** The UTF-8 bytes of all its strings and keys. */
  function Bytes(t: Tree): nat
    decreases t
  {
    match t
    case Text(s) => Utf.ByteLength(s)
    case Items(fs) => BytesFields(fs)
    case Members(fs) => BytesFields(fs)
    case _ => 0
  }

  function BytesFields(fs: Fields): nat
    decreases fs
  {
    if fs.NoFields? then 0 else Utf.ByteLength(fs.key) + Bytes(fs.value) + BytesFields(fs.rest)
  }

  function Length(fs: Fields): nat {
    if fs.NoFields? then 0 else 1 + Length(fs.rest)
  }

  predicate StringWithin(s: Text, bytes: nat) {
    Utf.WellFormed(s) && Utf.ByteLength(s) <= bytes
  }

  /** Every string, key and container of the tree is within its own limit. */
  predicate Within(t: Tree, limits: Limits)
    decreases t
  {
    match t
    case Text(s) => StringWithin(s, limits.stringBytes)
    case Items(fs) => Length(fs) <= limits.containerEntries && FieldsWithin(fs, limits)
    case Members(fs) => Length(fs) <= limits.containerEntries && FieldsWithin(fs, limits)
    case _ => true
  }

  predicate FieldsWithin(fs: Fields, limits: Limits)
    decreases fs
  {
    fs.Field? ==> StringWithin(fs.key, limits.keyBytes) && Within(fs.value, limits) && FieldsWithin(fs.rest, limits)
  }

  // ---------- unfolding a graph ----------

  /**
    The JSON tree that a value stands for, when it has at most `depth` nested containers, every number
    is finite and not a negative zero, and every array is dense.
   */
  function Unfold(heap: Heap, v: Value, depth: nat): Option<Tree>
    decreases depth, 1, 0
  {
    match v
    case Null => Some(Nil)
    case Boolean(b) => Some(Truth(b))
    case String(s) => Some(Text(s))
    case Number(finite, negativeZero, digits) => if finite && !negativeZero then Some(Numeral(digits)) else None
    case NotJson => None
    case Object(r) =>
      if depth == 0 || r !in heap then None
      else
        match heap[r]
        case Array(length, entries) =>
          if |entries| != length then None
          else (match UnfoldEntries(heap, entries, 0, depth - 1, true)
                case None => None
                case Some(fs) => Some(Items(fs)))
        case Record(entries) =>
          match UnfoldEntries(heap, entries, 0, depth - 1, false)
          case None => None
          case Some(fs) => Some(Members(fs))
  }

  function UnfoldEntries(heap: Heap, entries: seq<Entry>, i: nat, depth: nat, dense: bool): Option<Fields>
    requires i <= |entries|
    decreases depth, 2, |entries| - i
  {
    if i == |entries| then Some(NoFields)
    else if dense && CanonicalArrayIndex(entries[i].key) != Some(i) then None
    else
      match Unfold(heap, entries[i].value, depth)
      case None => None
      case Some(t) =>
        match UnfoldEntries(heap, entries, i + 1, depth, dense)
        case None => None
        case Some(fs) => Some(Field(entries[i].key, t, fs))
  }

  /** The objects that occur in the unfolding. */
  ghost function Refs(heap: Heap, v: Value, depth: nat): set<Ref>
    decreases depth, 1, 0
  {
    if !v.Object? || depth == 0 || v.ref !in heap then {}
    else {v.ref} + RefsEntries(heap, heap[v.ref].entries, 0, depth - 1)
  }

  ghost function RefsEntries(heap: Heap, entries: seq<Entry>, i: nat, depth: nat): set<Ref>
    requires i <= |entries|
    decreases depth, 2, |entries| - i
  {
    if i == |entries| then {}
    else Refs(heap, entries[i].value, depth) + RefsEntries(heap, entries, i + 1, depth)
  }

  lemma {:induction false} UnfoldedLength(heap: Heap, entries: seq<Entry>, i: nat, depth: nat, dense: bool)
    requires i <= |entries| && UnfoldEntries(heap, entries, i, depth, dense).Some?
    ensures Length(UnfoldEntries(heap, entries, i, depth, dense).value) == |entries| - i
    decreases |entries| - i
  {
    if i < |entries| {
      UnfoldedLength(heap, entries, i + 1, depth, dense);
    }
  }

  /** The tree does not depend on how much depth is allowed, as long as it is enough. */
  lemma {:induction false} UnfoldStable(heap: Heap, v: Value, d: nat, e: nat)
    requires Unfold(heap, v, d).Some? && Unfold(heap, v, e).Some?
    ensures Unfold(heap, v, d) == Unfold(heap, v, e) && Refs(heap, v, d) == Refs(heap, v, e)
    decreases d, 1, 0
  {
    if v.Object? {
      var dense := heap[v.ref].Array?;
      UnfoldEntriesStable(heap, heap[v.ref].entries, 0, d - 1, e - 1, dense);
    }
  }

  lemma {:induction false} UnfoldEntriesStable(heap: Heap, entries: seq<Entry>, i: nat, d: nat, e: nat, dense: bool)
    requires i <= |entries|
    requires UnfoldEntries(heap, entries, i, d, dense).Some? && UnfoldEntries(heap, entries, i, e, dense).Some?
    ensures UnfoldEntries(heap, entries, i, d, dense) == UnfoldEntries(heap, entries, i, e, dense)
    ensures RefsEntries(heap, entries, i, d) == RefsEntries(heap, entries, i, e)
    decreases d, 2, |entries| - i
  {
    if i < |entries| {
      UnfoldStable(heap, entries[i].value, d, e);
      UnfoldEntriesStable(heap, entries, i + 1, d, e, dense);
    }
  }

  /** An object in an unfolding has an unfolding of its own, at the depth where it stands. */
  lemma {:induction false} RefUnfolds(heap: Heap, v: Value, d: nat, r: Ref) returns (e: nat)
    requires Unfold(heap, v, d).Some? && r in Refs(heap, v, d)
    ensures e <= d && Unfold(heap, Object(r), e).Some?
    decreases d, 1, 0
  {
    if v.ref == r {
      e := d;
    } else {
      e := RefUnfoldsEntries(heap, heap[v.ref].entries, 0, d - 1, heap[v.ref].Array?, r);
    }
  }

  lemma {:induction false} RefUnfoldsEntries(heap: Heap, entries: seq<Entry>, i: nat, d: nat, dense: bool, r: Ref)
    returns (e: nat)
    requires i <= |entries| && UnfoldEntries(heap, entries, i, d, dense).Some? && r in RefsEntries(heap, entries, i, d)
    ensures e <= d && Unfold(heap, Object(r), e).Some?
    decreases d, 2, |entries| - i
  {
    if r in Refs(heap, entries[i].value, d) {
      e := RefUnfolds(heap, entries[i].value, d, r);
    } else {
      e := RefUnfoldsEntries(heap, entries, i + 1, d, dense, r);
    }
  }

  /** What unfolds does not contain itself. */
  lemma {:induction false} NoSelfReference(heap: Heap, r: Ref, d: nat)
    requires Unfold(heap, Object(r), d).Some?
    ensures r !in RefsEntries(heap, heap[r].entries, 0, d - 1)
    decreases d
  {
    if r in RefsEntries(heap, heap[r].entries, 0, d - 1) {
      var e := RefUnfoldsEntries(heap, heap[r].entries, 0, d - 1, heap[r].Array?, r);
      NoSelfReference(heap, r, e);
      UnfoldStable(heap, Object(r), d, e);
      UnfoldEntriesStable(heap, heap[r].entries, 0, d - 1, e - 1, heap[r].Array?);
    }
  }

  /** The array indices are the numbers below 2^32 - 1 in decimal without leading zeros, and nothing else. */
  lemma ArrayIndexSpelled(key: Text, n: nat)
    ensures CanonicalArrayIndex(key) == Some(n) <==> n < 0xffff_ffff && key == Show(n)
  {
    hide Decimal, Show;
    if CanonicalArrayIndex(key) == Some(n) {
      NumeralUnique(key, Show(n));
    }
  }
}
