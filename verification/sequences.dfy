/** Filtering sequences. */
module Sequences {

  /** The elements that satisfy p, in order. */
  function Keep<T>(s: seq<T>, p: T -> bool): (r: seq<T>)
    ensures |r| <= |s|
  {
    if |s| == 0 then []
    else
      var k := |s| - 1;
      Keep(s[..k], p) + (if p(s[k]) then [s[k]] else [])
  }

  lemma {:induction false} KeepMember<T>(s: seq<T>, p: T -> bool, x: T)
    ensures x in Keep(s, p) <==> x in s && p(x)
  {
    if |s| > 0 {
      var k := |s| - 1;
      KeepMember(s[..k], p, x);
      assert s == s[..k] + [s[k]];
    }
  }

  predicate Distinct<T(==)>(s: seq<T>) { forall i, j :: 0 <= i < j < |s| ==> s[i] != s[j] }

  lemma {:induction false} KeepDistinct<T>(s: seq<T>, p: T -> bool)
    requires Distinct(s)
    ensures Distinct(Keep(s, p))
  {
    if |s| > 0 {
      var k := |s| - 1;
      KeepDistinct(s[..k], p);
      KeepMember(s[..k], p, s[k]);
    }
  }

  lemma {:induction false} KeepCongruent<T>(s: seq<T>, p: T -> bool, q: T -> bool)
    requires forall x :: x in s ==> p(x) == q(x)
    ensures Keep(s, p) == Keep(s, q)
  {
    if |s| > 0 {
      var k := |s| - 1;
      KeepCongruent(s[..k], p, q);
      assert s[k] in s;
    }
  }

  lemma {:induction false} KeepKeep<T>(s: seq<T>, p: T -> bool, q: T -> bool)
    requires forall x :: x in s && q(x) ==> p(x)
    ensures Keep(Keep(s, p), q) == Keep(s, q)
  {
    if |s| > 0 {
      var k := |s| - 1;
      KeepKeep(s[..k], p, q);
      assert s[k] in s;
      if p(s[k]) {
        assert Keep(s, p)[..|Keep(s, p)| - 1] == Keep(s[..k], p);
      } else {
        assert Keep(s, p) == Keep(s[..k], p);
      }
    }
  }
}
