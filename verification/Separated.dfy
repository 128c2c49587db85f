/** Splitting texts at a separator and joining them again. */
module Separated {
  import opened Text

  function FirstAt(sep: CodeUnit, t: Text): (i: nat)
    ensures i <= |t| && sep !in t[..i] && (i < |t| ==> t[i] == sep)
  {
    if t == [] || t[0] == sep then 0
    else
      var i := FirstAt(sep, t[1..]);
      assert t[..i + 1] == [t[0]] + t[1..][..i];
      i + 1
  }

  /** The pieces between the separators: `t.split(sep)`. */
  function SplitAt(sep: CodeUnit, t: Text): (ss: seq<Text>)
    ensures |ss| > 0
    decreases |t|
  {
    var i := FirstAt(sep, t);
    if i == |t| then [t] else [t[..i]] + SplitAt(sep, t[i + 1..])
  }

  function JoinWith(sep: CodeUnit, ss: seq<Text>): Text
    requires |ss| > 0
  {
    if |ss| == 1 then ss[0] else ss[0] + [sep] + JoinWith(sep, ss[1..])
  }

  ghost predicate Avoid(sep: CodeUnit, ss: seq<Text>) {
    forall i | 0 <= i < |ss| :: sep !in ss[i]
  }

  lemma {:induction false} JoinSplitAt(sep: CodeUnit, t: Text)
    ensures JoinWith(sep, SplitAt(sep, t)) == t
    decreases |t|
  {
    var i := FirstAt(sep, t);
    if i < |t| {
      JoinSplitAt(sep, t[i + 1..]);
      assert SplitAt(sep, t)[1..] == SplitAt(sep, t[i + 1..]);
      assert t == t[..i] + [sep] + t[i + 1..];
    }
  }

  lemma {:induction false} FirstAtEnd(sep: CodeUnit, a: Text, rest: Text)
    requires sep !in a
    ensures FirstAt(sep, a + [sep] + rest) == |a|
    ensures FirstAt(sep, a) == |a|
  {
    if a != [] {
      assert a[0] in a && forall u | u in a[1..] :: u in a;
      FirstAtEnd(sep, a[1..], rest);
      assert (a + [sep] + rest)[1..] == a[1..] + [sep] + rest;
    }
  }

  lemma {:induction false} SplitJoinWith(sep: CodeUnit, ss: seq<Text>)
    requires |ss| > 0 && Avoid(sep, ss)
    ensures SplitAt(sep, JoinWith(sep, ss)) == ss
  {
    FirstAtEnd(sep, ss[0], []);
    if |ss| > 1 {
      SplitJoinWith(sep, ss[1..]);
      FirstAtEnd(sep, ss[0], JoinWith(sep, ss[1..]));
      var t := JoinWith(sep, ss);
      assert t[..|ss[0]|] == ss[0] && t[|ss[0]| + 1..] == JoinWith(sep, ss[1..]);
    }
  }

  lemma {:induction false} SplitAvoids(sep: CodeUnit, t: Text)
    ensures Avoid(sep, SplitAt(sep, t))
    decreases |t|
  {
    var i := FirstAt(sep, t);
    if i < |t| {
      SplitAvoids(sep, t[i + 1..]);
    } else {
      assert t[..i] == t;
    }
  }

  lemma {:induction false} JoinAvoids(sep: CodeUnit, ss: seq<Text>, u: CodeUnit)
    requires |ss| > 0 && u != sep && forall i | 0 <= i < |ss| :: u !in ss[i]
    ensures u !in JoinWith(sep, ss)
  {
    if |ss| > 1 {
      JoinAvoids(sep, ss[1..], u);
    }
  }
}
