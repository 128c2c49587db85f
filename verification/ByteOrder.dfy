/** Sorting texts by their UTF-8 bytes, as `Buffer.compare` orders them. */
module ByteOrder {
  import Utf
  import opened Text
  import opened Sorting
  import opened Utf8

  ghost predicate Distinct(ks: seq<Text>) {
    forall i, j | 0 <= i < j < |ks| :: ks[i] != ks[j]
  }

  ghost predicate AllWellFormed(ks: seq<Text>) {
    forall k | k in ks :: Utf.WellFormed(k)
  }

  /** The bytes of a text as a sorting key. */
  function BytesOf(t: Text): seq<int> { Encode(t) }

  function Sort(ks: seq<Text>): seq<Text> { SortBy(BytesOf, ks) }

  lemma SortKeeps(ks: seq<Text>)
    ensures |Sort(ks)| == |ks| && forall k :: k in Sort(ks) <==> k in ks
  {
    hide SortBy;
    SortPermutes(BytesOf, ks);
    SameElements(Sort(ks), ks);
  }

  lemma SortAscends(ks: seq<Text>)
    ensures forall i, j | 0 <= i < j < |Sort(ks)| :: !Less(Encode(Sort(ks)[j]), Encode(Sort(ks)[i]))
  {
    hide SortBy;
    SortOrders(BytesOf, ks);
    forall i, j | 0 <= i < j < |Sort(ks)|
      ensures !Less(Encode(Sort(ks)[j]), Encode(Sort(ks)[i]))
    {
      assert !Less(BytesOf(Sort(ks)[j]), BytesOf(Sort(ks)[i]));
    }
  }

  lemma EncodingsDistinct(ks: seq<Text>)
    requires Distinct(ks) && AllWellFormed(ks)
    ensures DistinctKeys(BytesOf, ks)
  {
    forall i, j | 0 <= i < j < |ks|
      ensures BytesOf(ks[i]) != BytesOf(ks[j])
    {
      if Encode(ks[i]) == Encode(ks[j]) {
        EncodeInjective(ks[i], ks[j]);
      }
    }
  }

  /** Distinct lists of the same texts sort to the same list. */
  lemma SortDependsOnSet(a: seq<Text>, b: seq<Text>)
    requires Distinct(a) && Distinct(b) && AllWellFormed(a) && AllWellFormed(b) && forall k :: k in a <==> k in b
    ensures Sort(a) == Sort(b)
  {
    hide SortBy, Encode;
    EncodingsDistinct(a);
    EncodingsDistinct(b);
    SortDependsOnElements(BytesOf, a, b);
  }
}
