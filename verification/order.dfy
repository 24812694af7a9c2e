/** Which command runs does not depend on the order of a node's command vector, nor on the order of
    the alternatives inside a position; so cmd_sort_node never changes execution. */
module CommandOrder {
  import opened CText
  import opened Sequences
  import opened Matching

  // ---- Permuting the vector ----

  lemma {:induction false} KeepCount<T(!new)>(s: seq<T>, p: T -> bool, x: T)
    ensures multiset(Keep(s, p))[x] == if p(x) then multiset(s)[x] else 0
  {
    if |s| > 0 {
      var k := |s| - 1;
      assert s == s[..k] + [s[k]];
      KeepCount(s[..k], p, x);
    }
  }

  lemma KeepPermuted<T(!new)>(s: seq<T>, t: seq<T>, p: T -> bool)
    requires multiset(s) == multiset(t)
    ensures multiset(Keep(s, p)) == multiset(Keep(t, p))
  {
    forall x ensures multiset(Keep(s, p))[x] == multiset(Keep(t, p))[x] {
      KeepCount(s, p, x);
      KeepCount(t, p, x);
    }
  }

  lemma PermutedMembers<T(!new)>(s: seq<T>, t: seq<T>)
    requires multiset(s) == multiset(t)
    ensures forall x :: x in s <==> x in t
    ensures |s| == |t|
  {
    forall x ensures x in s <==> x in t {
      assert x in s <==> x in multiset(s);
      assert x in t <==> x in multiset(t);
    }
    assert |s| == |multiset(s)| == |multiset(t)| == |t|;
  }

  lemma PermutedSizeAndHead<T(!new)>(s: seq<T>, t: seq<T>)
    requires multiset(s) == multiset(t)
    ensures |s| == |t| && (|s| == 1 ==> s == t)
  {
    PermutedMembers(s, t);
    if |s| == 1 {
      assert s[0] in t;
    }
  }

  lemma FilterTypePermuted(mode: Mode, m: Matchers, s: seq<Element>, t: seq<Element>, word: string, index: nat)
    requires multiset(s) == multiset(t)
    ensures FilterType(mode, m, s, word, index) == FilterType(mode, m, t, word, index)
  {
    PermutedMembers(s, t);
    FilterTypeBelow(mode, m, s, t, word, index);
    FilterTypeBelow(mode, m, t, s, word, index);
  }

  lemma FilterTypeBelow(mode: Mode, m: Matchers, s: seq<Element>, t: seq<Element>, word: string, index: nat)
    requires forall c :: c in s ==> c in t
    ensures FilterType(mode, m, s, word, index) <= FilterType(mode, m, t, word, index)
  {
    var f := FilterType(mode, m, s, word, index);
    if f != NO_MATCH {
      var c := FilterTypeAttained(mode, m, s, word, index);
      FilterTypeUpper(mode, m, t, word, index, c);
    }
  }

  ghost predicate PermutedEnds(a: Narrowed, b: Narrowed) {
    if a.Left? then b.Left? && a.index == b.index && a.last == b.last && multiset(a.cmds) == multiset(b.cmds) else a == b
  }

  lemma RoundPermuted(mode: Mode, m: Matchers, s: seq<Element>, t: seq<Element>, w: string, index: nat)
    requires multiset(s) == multiset(t)
    ensures var a, b := Narrow1(mode, m, s, w, index), Narrow1(mode, m, t, w, index);
            if a.Stop? then b.Stop? && PermutedEnds(a.end, b.end)
            else b.Next? && a.t == b.t && multiset(a.cmds) == multiset(b.cmds)
  {
    FilterTypePermuted(mode, m, s, t, w, index);
    var f := FilterType(mode, m, s, w, index);
    var ks, kt := FilterKeep(mode, m, s, w, index), FilterKeep(mode, m, t, w, index);
    FilterKeepPermuted(mode, m, s, t, w, index);
    OfferedPermuted(m, f, ks, kt, w, index);
    HitKeepPermuted(m, f, ks, kt, w, index);
  }

  lemma FilterKeepPermuted(mode: Mode, m: Matchers, s: seq<Element>, t: seq<Element>, w: string, index: nat)
    requires multiset(s) == multiset(t)
    ensures multiset(FilterKeep(mode, m, s, w, index)) == multiset(FilterKeep(mode, m, t, w, index))
  {
    KeepPermuted(s, t, c => ElementMatch(mode, m, c, w, index) != NO_MATCH);
  }

  lemma HitKeepPermuted(m: Matchers, f: MatchType, s: seq<Element>, t: seq<Element>, w: string, index: nat)
    requires multiset(s) == multiset(t)
    ensures multiset(HitKeep(m, f, s, w, index)) == multiset(HitKeep(m, f, t, w, index))
  {
    KeepPermuted(s, t, c => ElementHit(m, f, c, w, index));
  }

  lemma OfferedPermuted(m: Matchers, f: MatchType, s: seq<Element>, t: seq<Element>, w: string, index: nat)
    requires multiset(s) == multiset(t)
    ensures Ambiguous(m, f, s, w, index) <==> Ambiguous(m, f, t, w, index)
    ensures Incomplete(m, f, s, w, index) <==> Incomplete(m, f, t, w, index)
  {
    PermutedMembers(s, t);
    assert forall x :: Offered(s, index, x) <==> Offered(t, index, x);
  }

  lemma {:induction false} NarrowPermuted(mode: Mode, m: Matchers, s: seq<Element>, t: seq<Element>,
                                          words: seq<string>, index: nat, last: MatchType)
    requires index <= |words| && multiset(s) == multiset(t)
    ensures PermutedEnds(Narrow(mode, m, s, words, index, last), Narrow(mode, m, t, words, index, last))
    decreases |words| - index
  {
    if index < |words| {
      RoundPermuted(mode, m, s, t, words[index], index);
      var a, b := Narrow1(mode, m, s, words[index], index), Narrow1(mode, m, t, words[index], index);
      if a.Next? {
        NarrowPermuted(mode, m, a.cmds, b.cmds, words, index + 1, a.t);
      }
    }
  }

  lemma PermutedVectorSameOutcome(mode: Mode, m: Matchers, s: seq<Element>, t: seq<Element>, words: seq<string>)
    requires multiset(s) == multiset(t)
    ensures Execute(mode, m, s, words) == Execute(mode, m, t, words)
  {
    NarrowPermuted(mode, m, s, t, words, 0, NO_MATCH);
    var a, b := Narrow(mode, m, s, words, 0, NO_MATCH), Narrow(mode, m, t, words, 0, NO_MATCH);
    if a.Left? {
      KeepPermuted(a.cmds, b.cmds, c => Complete(c, a.index, a.last));
      PermutedSizeAndHead(a.cmds, b.cmds);
      PermutedSizeAndHead(CompleteOnly(a.cmds, a.index, a.last), CompleteOnly(b.cmds, b.index, b.last));
    }
  }

  // ---- Permuting the alternatives of a position ----

  /** The same command with the alternatives of each position in some other order. */
  ghost predicate Alike(c: Element, d: Element) {
    && c.id == d.id
    && |c.strvec| == |d.strvec|
    && forall k :: 0 <= k < |c.strvec| ==> multiset(c.strvec[k]) == multiset(d.strvec[k])
  }

  ghost predicate AllAlike(s: seq<Element>, t: seq<Element>) {
    |s| == |t| && forall i :: 0 <= i < |s| ==> Alike(s[i], t[i])
  }

  lemma PositionMatchBelow(mode: Mode, m: Matchers, a: seq<string>, b: seq<string>, word: string)
    requires forall s :: s in a ==> s in b
    ensures PositionMatch(mode, m, a, word) <= PositionMatch(mode, m, b, word)
  {
    var t := PositionMatch(mode, m, a, word);
    if t != NO_MATCH {
      var s := PositionMatchAttained(mode, m, a, word);
      PositionMatchUpper(mode, m, b, word, s);
    }
  }

  lemma AlikeMatch(mode: Mode, m: Matchers, c: Element, d: Element, word: string, index: nat)
    requires Alike(c, d)
    ensures ElementMatch(mode, m, c, word, index) == ElementMatch(mode, m, d, word, index)
    ensures forall t: MatchType :: ElementHit(m, t, c, word, index) <==> ElementHit(m, t, d, word, index)
    ensures index < |c.strvec| ==> forall s :: s in c.strvec[index] <==> s in d.strvec[index]
  {
    if index < |c.strvec| {
      PermutedMembers(c.strvec[index], d.strvec[index]);
      PositionMatchBelow(mode, m, c.strvec[index], d.strvec[index], word);
      PositionMatchBelow(mode, m, d.strvec[index], c.strvec[index], word);
    }
  }

  lemma AlikeSingle(c: Element, d: Element, k: nat)
    requires Alike(c, d) && k < |c.strvec|
    ensures |c.strvec[k]| == |d.strvec[k]|
    ensures |c.strvec[k]| == 1 ==> c.strvec[k][0] == d.strvec[k][0]
  {
    PermutedMembers(c.strvec[k], d.strvec[k]);
    if |c.strvec[k]| == 1 {
      assert c.strvec[k][0] in d.strvec[k];
    }
  }

  lemma {:induction false} AlikeSize(c: Element, d: Element)
    requires Alike(c, d)
    ensures CmdSize(c.strvec) == CmdSize(d.strvec)
    decreases |c.strvec|
  {
    if |c.strvec| > 0 {
      AlikeSingle(c, d, 0);
      AlikeSize(c.(strvec := c.strvec[1..]), d.(strvec := d.strvec[1..]));
    }
  }

  lemma {:induction false} AlikeArgs(c: Element, d: Element, words: seq<string>)
    requires Alike(c, d)
    ensures Args(c.strvec, words) == Args(d.strvec, words)
    decreases |words|
  {
    if |words| > 0 {
      var k := |words| - 1;
      AlikeArgs(c, d, words[..k]);
      if k < |c.strvec| { AlikeSingle(c, d, k); }
    }
  }

  /** Filtering alike vectors by predicates that do not tell alike commands apart leaves alike vectors. */
  lemma AlikeJoin(s: seq<Element>, t: seq<Element>, c: Element, d: Element)
    requires AllAlike(s, t) && Alike(c, d)
    ensures AllAlike(s + [c], t + [d])
  {
  }

  lemma {:induction false} KeepAlike(s: seq<Element>, t: seq<Element>, p: Element -> bool)
    requires AllAlike(s, t)
    requires forall c, d :: Alike(c, d) ==> p(c) == p(d)
    ensures AllAlike(Keep(s, p), Keep(t, p))
    decreases |s|
  {
    if |s| > 0 {
      var k := |s| - 1;
      assert Alike(s[k], t[k]) && p(s[k]) == p(t[k]);
      KeepAlike(s[..k], t[..k], p);
      if p(s[k]) { AlikeJoin(Keep(s[..k], p), Keep(t[..k], p), s[k], t[k]); }
    }
  }

  lemma {:induction false} FilterTypeAlike(mode: Mode, m: Matchers, s: seq<Element>, t: seq<Element>, word: string, index: nat)
    requires AllAlike(s, t)
    ensures FilterType(mode, m, s, word, index) == FilterType(mode, m, t, word, index)
    decreases |s|
  {
    if |s| > 0 {
      var k := |s| - 1;
      FilterTypeAlike(mode, m, s[..k], t[..k], word, index);
      AlikeMatch(mode, m, s[k], t[k], word, index);
    }
  }

  lemma OfferedAlike(s: seq<Element>, t: seq<Element>, index: nat, x: string)
    requires AllAlike(s, t) && Offered(s, index, x)
    ensures Offered(t, index, x)
  {
    var c :| c in s && index < |c.strvec| && x in c.strvec[index];
    var i :| 0 <= i < |s| && s[i] == c;
    PermutedMembers(s[i].strvec[index], t[i].strvec[index]);
    assert t[i] in t;
  }

  lemma AllAlikeSymmetric(s: seq<Element>, t: seq<Element>)
    requires AllAlike(s, t)
    ensures AllAlike(t, s)
  {
    forall i | 0 <= i < |s| ensures Alike(t[i], s[i]) {
      assert Alike(s[i], t[i]);
    }
  }

  ghost predicate AlikeEnds(a: Narrowed, b: Narrowed) {
    if a.Left? then b.Left? && a.index == b.index && a.last == b.last && AllAlike(a.cmds, b.cmds) else a == b
  }

  lemma FilterKeepAlike(mode: Mode, m: Matchers, s: seq<Element>, t: seq<Element>, w: string, index: nat)
    requires AllAlike(s, t)
    ensures AllAlike(FilterKeep(mode, m, s, w, index), FilterKeep(mode, m, t, w, index))
  {
    forall c: Element, d: Element | Alike(c, d)
      ensures ElementMatch(mode, m, c, w, index) == ElementMatch(mode, m, d, w, index)
    {
      AlikeMatch(mode, m, c, d, w, index);
    }
    KeepAlike(s, t, c => ElementMatch(mode, m, c, w, index) != NO_MATCH);
  }

  lemma HitKeepAlike(m: Matchers, f: MatchType, s: seq<Element>, t: seq<Element>, w: string, index: nat)
    requires AllAlike(s, t)
    ensures AllAlike(HitKeep(m, f, s, w, index), HitKeep(m, f, t, w, index))
  {
    forall c: Element, d: Element | Alike(c, d)
      ensures ElementHit(m, f, c, w, index) == ElementHit(m, f, d, w, index)
    {
      AlikeMatch(Strict, m, c, d, w, index);
    }
    KeepAlike(s, t, c => ElementHit(m, f, c, w, index));
  }

  lemma AllOfferedAlike(m: Matchers, f: MatchType, s: seq<Element>, t: seq<Element>, w: string, index: nat)
    requires AllAlike(s, t)
    ensures Ambiguous(m, f, s, w, index) <==> Ambiguous(m, f, t, w, index)
    ensures Incomplete(m, f, s, w, index) <==> Incomplete(m, f, t, w, index)
  {
    AllAlikeSymmetric(s, t);
    forall x ensures Offered(s, index, x) <==> Offered(t, index, x) {
      if Offered(s, index, x) { OfferedAlike(s, t, index, x); }
      if Offered(t, index, x) { OfferedAlike(t, s, index, x); }
    }
  }

  lemma RoundAlike(mode: Mode, m: Matchers, s: seq<Element>, t: seq<Element>, w: string, index: nat)
    requires AllAlike(s, t)
    ensures var a, b := Narrow1(mode, m, s, w, index), Narrow1(mode, m, t, w, index);
            if a.Stop? then b.Stop? && AlikeEnds(a.end, b.end) else b.Next? && a.t == b.t && AllAlike(a.cmds, b.cmds)
  {
    FilterTypeAlike(mode, m, s, t, w, index);
    var f := FilterType(mode, m, s, w, index);
    var ks, kt := FilterKeep(mode, m, s, w, index), FilterKeep(mode, m, t, w, index);
    FilterKeepAlike(mode, m, s, t, w, index);
    AllOfferedAlike(m, f, ks, kt, w, index);
    HitKeepAlike(m, f, ks, kt, w, index);
  }

  lemma {:induction false} NarrowAlike(mode: Mode, m: Matchers, s: seq<Element>, t: seq<Element>,
                                       words: seq<string>, index: nat, last: MatchType)
    requires index <= |words| && AllAlike(s, t)
    ensures AlikeEnds(Narrow(mode, m, s, words, index, last), Narrow(mode, m, t, words, index, last))
    decreases |words| - index
  {
    if index < |words| {
      RoundAlike(mode, m, s, t, words[index], index);
      var a, b := Narrow1(mode, m, s, words[index], index), Narrow1(mode, m, t, words[index], index);
      if a.Next? {
        NarrowAlike(mode, m, a.cmds, b.cmds, words, index + 1, a.t);
      }
    }
  }

  lemma AlikeVectorsSameOutcome(mode: Mode, m: Matchers, s: seq<Element>, t: seq<Element>, words: seq<string>)
    requires AllAlike(s, t)
    ensures Execute(mode, m, s, words) == Execute(mode, m, t, words)
  {
    NarrowAlike(mode, m, s, t, words, 0, NO_MATCH);
    var a, b := Narrow(mode, m, s, words, 0, NO_MATCH), Narrow(mode, m, t, words, 0, NO_MATCH);
    if a.Left? {
      forall c: Element, d: Element | Alike(c, d) ensures Complete(c, a.index, a.last) == Complete(d, a.index, a.last) {
        AlikeSize(c, d);
      }
      KeepAlike(a.cmds, b.cmds, c => Complete(c, a.index, a.last));
      var x, y := CompleteOnly(a.cmds, a.index, a.last), CompleteOnly(b.cmds, b.index, b.last);
      if |x| == 1 {
        assert Alike(x[0], y[0]);
        AlikeArgs(x[0], y[0], words);
      }
    }
  }

  // ---- Both together ----

  /** t is s with the vector permuted and the alternatives of every position permuted. */
  ghost predicate Reordered(s: seq<Element>, t: seq<Element>) {
    exists u :: multiset(u) == multiset(s) && AllAlike(u, t)
  }

  /** Status, chosen handler and argv are unchanged by any reordering. */
  lemma OutcomeIndependentOfOrder(mode: Mode, m: Matchers, s: seq<Element>, t: seq<Element>, words: seq<string>)
    requires Reordered(s, t)
    ensures Execute(mode, m, s, words) == Execute(mode, m, t, words)
  {
    var u :| multiset(u) == multiset(s) && AllAlike(u, t);
    PermutedVectorSameOutcome(mode, m, s, u, words);
    AlikeVectorsSameOutcome(mode, m, u, t, words);
  }
}
