/** Where and how often keys occur in a list, and the indexes built over them. */
module Occurrences {
  /** The positions of a key, in ascending order. */
  function Positions<K(==)>(keys: seq<K>, key: K): (r: seq<nat>)
    ensures forall i | 0 <= i < |r| :: r[i] < |keys| && keys[r[i]] == key
  {
    if keys == [] then []
    else
      var n := |keys| - 1;
      Positions(keys[..n], key) + (if keys[n] == key then [n] else [])
  }

  function Count<K(==)>(keys: seq<K>, key: K): nat {
    |Positions(keys, key)|
  }

  lemma {:induction false} PositionsExact<K>(keys: seq<K>, key: K, i: nat)
    ensures i in Positions(keys, key) <==> i < |keys| && keys[i] == key
  {
    if keys != [] {
      PositionsExact(keys[..|keys| - 1], key, i);
    }
  }

  lemma {:induction false} PositionsAscend<K>(keys: seq<K>, key: K, a: nat, b: nat)
    requires a < b < |Positions(keys, key)|
    ensures Positions(keys, key)[a] < Positions(keys, key)[b] < |keys|
  {
    var n := |keys| - 1;
    var before := Positions(keys[..n], key);
    if b < |before| {
      PositionsAscend(keys[..n], key, a, b);
    } else {
      PositionsExact(keys[..n], key, before[a]);
      assert before[a] in before;
    }
  }

  /** A key that occurs once occurs at one place only. */
  lemma OnlyOne<K>(keys: seq<K>, key: K, i: nat, j: nat)
    requires Count(keys, key) == 1 && i < |keys| && j < |keys| && keys[i] == key && keys[j] == key
    ensures i == j && Positions(keys, key) == [i]
  {
    PositionsExact(keys, key, i);
    PositionsExact(keys, key, j);
  }

  /** The key stands at this place and nowhere else. */
  ghost predicate OnlyAt<K(!new)>(keys: seq<K>, key: K, i: nat) {
    i < |keys| && keys[i] == key && forall j | 0 <= j < |keys| && keys[j] == key :: j == i
  }

  lemma OnlyAtExactly<K(!new)>(keys: seq<K>, key: K, i: nat)
    ensures OnlyAt(keys, key, i) <==> Positions(keys, key) == [i]
  {
    var ps := Positions(keys, key);
    PositionsExact(keys, key, i);
    if OnlyAt(keys, key, i) {
      assert ps[0] == i;
      if |ps| > 1 {
        PositionsAscend(keys, key, 0, 1);
      }
    } else if ps == [i] {
      forall j | 0 <= j < |keys| && keys[j] == key
        ensures j == i
      {
        PositionsExact(keys, key, j);
      }
    }
  }

  lemma {:induction false} CountIsMultiplicity<K>(keys: seq<K>, key: K)
    ensures Count(keys, key) == multiset(keys)[key]
  {
    if keys != [] {
      var n := |keys| - 1;
      CountIsMultiplicity(keys[..n], key);
      assert keys == keys[..n] + [keys[n]];
    }
  }

  /** How often a key occurs does not depend on the order. */
  lemma CountPermuted<K>(a: seq<K>, b: seq<K>, key: K)
    requires multiset(a) == multiset(b)
    ensures Count(a, key) == Count(b, key)
  {
    CountIsMultiplicity(a, key);
    CountIsMultiplicity(b, key);
  }

  /** What a map index holds under a key. */
  function At<K(==)>(index: map<K, seq<nat>>, key: K): seq<nat> {
    if key in index then index[key] else []
  }

  /** Repeated `appendIndex`. */
  method BuildIndex<K(==)>(keys: seq<K>) returns (index: map<K, seq<nat>>)
    ensures forall key :: At(index, key) == Positions(keys, key)
  {
    index := map[];
    for i := 0 to |keys|
      invariant forall key :: At(index, key) == Positions(keys[..i], key)
    {
      assert keys[..i + 1][..i] == keys[..i];
      index := index[keys[i] := At(index, keys[i]) + [i]];
    }
    assert keys[..|keys|] == keys;
  }

  function CountAt<K(==)>(counts: map<K, nat>, key: K): nat {
    if key in counts then counts[key] else 0
  }

  lemma CountStep<K>(keys: seq<K>, i: nat, key: K)
    requires i < |keys|
    ensures Count(keys[..i + 1], key) == Count(keys[..i], key) + (if keys[i] == key then 1 else 0)
  {
    assert keys[..i + 1][..i] == keys[..i];
  }

  method BuildCounts<K(==)>(keys: seq<K>) returns (counts: map<K, nat>)
    ensures forall key :: CountAt(counts, key) == Count(keys, key)
  {
    counts := map[];
    for i := 0 to |keys|
      invariant forall key :: CountAt(counts, key) == Count(keys[..i], key)
    {
      ghost var before := counts;
      counts := counts[keys[i] := CountAt(counts, keys[i]) + 1];
      forall key
        ensures CountAt(counts, key) == Count(keys[..i + 1], key)
      {
        CountStep(keys, i, key);
        assert CountAt(before, key) == Count(keys[..i], key);
      }
    }
    assert keys[..|keys|] == keys;
  }

  function Map<A, B>(f: A -> B, xs: seq<A>): (ys: seq<B>)
    ensures |ys| == |xs| && forall i | 0 <= i < |xs| :: ys[i] == f(xs[i])
  {
    seq(|xs|, i requires 0 <= i < |xs| => f(xs[i]))
  }

  lemma MapStep<A, B>(f: A -> B, xs: seq<A>)
    requires xs != []
    ensures Map(f, xs) == [f(xs[0])] + Map(f, xs[1..])
  {
  }

  lemma MapConcat<A, B>(f: A -> B, xs: seq<A>, ys: seq<A>)
    ensures Map(f, xs + ys) == Map(f, xs) + Map(f, ys)
  {
  }

  /** Mapping a function over a permutation permutes the results. */
  lemma {:induction false} MapPermuted<A, B>(f: A -> B, xs: seq<A>, ys: seq<A>)
    requires multiset(xs) == multiset(ys)
    ensures multiset(Map(f, xs)) == multiset(Map(f, ys))
    decreases |xs|
  {
    PermutedLength(xs, ys);
    if xs != [] {
      var j, rest := TakeOut(xs, ys);
      MapPermuted(f, xs[1..], rest);
      MapStep(f, xs);
      assert ys == ys[..j] + ([xs[0]] + ys[j + 1..]);
      MapConcat(f, ys[..j], [xs[0]] + ys[j + 1..]);
      MapStep(f, [xs[0]] + ys[j + 1..]);
      assert ([xs[0]] + ys[j + 1..])[1..] == ys[j + 1..];
      MapConcat(f, ys[..j], ys[j + 1..]);
    }
  }

  lemma TakeOut<A>(xs: seq<A>, ys: seq<A>) returns (j: nat, rest: seq<A>)
    requires multiset(xs) == multiset(ys) && xs != []
    ensures j < |ys| && ys[j] == xs[0] && rest == ys[..j] + ys[j + 1..] && multiset(xs[1..]) == multiset(rest)
  {
    assert xs[0] in multiset(xs) && xs[0] in multiset(ys);
    j :| 0 <= j < |ys| && ys[j] == xs[0];
    rest := ys[..j] + ys[j + 1..];
    assert ys == ys[..j] + [xs[0]] + ys[j + 1..];
    assert xs == [xs[0]] + xs[1..];
    assert multiset(rest) == multiset(ys) - multiset{xs[0]};
    assert multiset(xs[1..]) == multiset(xs) - multiset{xs[0]};
  }

  lemma PermutedLength<A>(xs: seq<A>, ys: seq<A>)
    requires multiset(xs) == multiset(ys)
    ensures |xs| == |ys|
  {
    assert |multiset(xs)| == |xs| && |multiset(ys)| == |ys|;
  }
}
