/** What the narrowing loop computes: the commands whose match types, word by word, are lexicographically greatest. */
module BestMatch {
  import opened CText
  import opened Sequences
  import opened Handlers
  import opened Matching
  import opened Shell
  import Shortcuts
  import Ipv4

  /** How well a command matches word k of the line. */
  function At(mode: Mode, m: Matchers, c: Element, words: seq<string>, k: nat): MatchType
    requires k < |words|
  {
    ElementMatch(mode, m, c, words[k], k)
  }

  /** Both commands match the first n words equally well. */
  ghost predicate Level(mode: Mode, m: Matchers, words: seq<string>, n: nat, c: Element, d: Element)
    requires n <= |words|
  {
    forall k :: 0 <= k < n ==> At(mode, m, c, words, k) == At(mode, m, d, words, k)
  }

  ghost predicate AheadAt(mode: Mode, m: Matchers, words: seq<string>, k: nat, d: Element, c: Element)
    requires k < |words|
  {
    Level(mode, m, words, k, d, c) && At(mode, m, d, words, k) > At(mode, m, c, words, k)
  }

  /** At the first of the n words they match differently, d matches better than c. */
  ghost predicate Beats(mode: Mode, m: Matchers, words: seq<string>, n: nat, d: Element, c: Element)
    requires n <= |words|
  {
    exists k :: 0 <= k < n && AheadAt(mode, m, words, k, d, c)
  }

  /** The command matches the first n words, and none beats it. */
  ghost predicate Best(mode: Mode, m: Matchers, cmds: seq<Element>, words: seq<string>, n: nat, c: Element)
    requires n <= |words|
  {
    && c in cmds
    && (forall k :: 0 <= k < n ==> At(mode, m, c, words, k) != NO_MATCH)
    && forall d :: d in cmds ==> !Beats(mode, m, words, n, d, c)
  }

  // ---- One round ----

  lemma HitAttains(mode: Mode, m: Matchers, c: Element, word: string, index: nat, t: MatchType)
    requires Ordinary(c.strvec) && OrdinaryType(mode, t) && t != NO_MATCH && ElementMatch(mode, m, c, word, index) == t
    ensures ElementHit(m, t, c, word, index)
  {
    var s := PositionMatchAttained(mode, m, c.strvec[index], word);
    assert Hits(m, t, s, word);
  }

  lemma HitReaches(mode: Mode, m: Matchers, c: Element, word: string, index: nat, t: MatchType)
    requires Ordinary(c.strvec) && OrdinaryType(mode, t) && ElementHit(m, t, c, word, index)
    requires t == IPV4_MATCH ==> AddressOk(mode, Ipv4.Match(word))
    requires ElementMatch(mode, m, c, word, index) != NO_MATCH
    ensures ElementMatch(mode, m, c, word, index) >= t
  {
    var s :| s in c.strvec[index] && Hits(m, t, s, word);
    PositionMatchUpper(mode, m, c.strvec[index], word, s);
  }

  lemma Ipv4Attained(mode: Mode, m: Matchers, cmds: seq<Element>, word: string, index: nat)
    requires AllOrdinary(cmds) && FilterType(mode, m, cmds, word, index) == IPV4_MATCH
    ensures AddressOk(mode, Ipv4.Match(word))
  {
    var c := FilterTypeAttained(mode, m, cmds, word, index);
    var s := PositionMatchAttained(mode, m, c.strvec[index], word);
  }

  /** Among the commands that match the word, those are hit that match it best. */
  lemma HitIsBest(mode: Mode, m: Matchers, cmds: seq<Element>, word: string, index: nat, c: Element)
    requires AllOrdinary(cmds) && c in cmds && ElementMatch(mode, m, c, word, index) != NO_MATCH
    ensures var t := FilterType(mode, m, cmds, word, index);
            ElementHit(m, t, c, word, index) <==> ElementMatch(mode, m, c, word, index) == t
  {
    var t := FilterType(mode, m, cmds, word, index);
    OrdinaryFilterType(mode, m, cmds, cmds, word, index);
    FilterTypeUpper(mode, m, cmds, word, index, c);
    if ElementMatch(mode, m, c, word, index) == t { HitAttains(mode, m, c, word, index, t); }
    if ElementHit(m, t, c, word, index) {
      if t == IPV4_MATCH { Ipv4Attained(mode, m, cmds, word, index); }
      HitReaches(mode, m, c, word, index, t);
    }
  }

  lemma RoundMember(mode: Mode, m: Matchers, cmds: seq<Element>, word: string, index: nat, c: Element)
    requires Narrow1(mode, m, cmds, word, index).Next?
    ensures c in Narrow1(mode, m, cmds, word, index).cmds <==>
            && c in cmds && ElementMatch(mode, m, c, word, index) != NO_MATCH
            && ElementHit(m, FilterType(mode, m, cmds, word, index), c, word, index)
  {
    var t := FilterType(mode, m, cmds, word, index);
    KeepMember(FilterKeep(mode, m, cmds, word, index), d => ElementHit(m, t, d, word, index), c);
    KeepMember(cmds, d => ElementMatch(mode, m, d, word, index) != NO_MATCH, c);
  }

  /** A round leaves the commands that match the word best. */
  lemma RoundIsBest(mode: Mode, m: Matchers, cmds: seq<Element>, word: string, index: nat, c: Element)
    requires AllOrdinary(cmds) && Narrow1(mode, m, cmds, word, index).Next?
    ensures c in Narrow1(mode, m, cmds, word, index).cmds <==>
            c in cmds && NO_MATCH != ElementMatch(mode, m, c, word, index) == FilterType(mode, m, cmds, word, index)
  {
    RoundMember(mode, m, cmds, word, index, c);
    if c in cmds && ElementMatch(mode, m, c, word, index) != NO_MATCH { HitIsBest(mode, m, cmds, word, index, c); }
  }

  // ---- All rounds ----

  lemma BeatsLevel(mode: Mode, m: Matchers, words: seq<string>, n: nat, e: Element, d: Element, c: Element)
    requires n <= |words| && Level(mode, m, words, n, d, c) && Beats(mode, m, words, n, e, d)
    ensures Beats(mode, m, words, n, e, c)
  {
    var k :| 0 <= k < n && AheadAt(mode, m, words, k, e, d);
    assert AheadAt(mode, m, words, k, e, c);
  }

  /** A command level with a best one is itself best. */
  lemma LevelIsBest(mode: Mode, m: Matchers, cmds: seq<Element>, words: seq<string>, n: nat, c: Element, d: Element)
    requires n <= |words| && Best(mode, m, cmds, words, n, c) && d in cmds && Level(mode, m, words, n, d, c)
    ensures Best(mode, m, cmds, words, n, d)
  {
    forall e | e in cmds ensures !Beats(mode, m, words, n, e, d) {
      if Beats(mode, m, words, n, e, d) { BeatsLevel(mode, m, words, n, e, d, c); }
    }
  }

  /** Either one of two commands beats the other, or they are level. */
  lemma {:induction false} Trichotomy(mode: Mode, m: Matchers, words: seq<string>, n: nat, c: Element, d: Element)
    requires n <= |words|
    ensures Level(mode, m, words, n, c, d) || Beats(mode, m, words, n, c, d) || Beats(mode, m, words, n, d, c)
  {
    if n > 0 {
      Trichotomy(mode, m, words, n - 1, c, d);
      if Level(mode, m, words, n - 1, c, d) && !Level(mode, m, words, n, c, d) {
        assert AheadAt(mode, m, words, n - 1, c, d) || AheadAt(mode, m, words, n - 1, d, c);
      }
    }
  }

  lemma BestBefore(mode: Mode, m: Matchers, cmds: seq<Element>, words: seq<string>, n: nat, c: Element)
    requires n < |words| && Best(mode, m, cmds, words, n + 1, c)
    ensures Best(mode, m, cmds, words, n, c)
  {
    forall d | d in cmds ensures !Beats(mode, m, words, n, d, c) {
      assert Beats(mode, m, words, n, d, c) ==> Beats(mode, m, words, n + 1, d, c);
    }
  }

  /** Among the best, whoever matches the next word best stays best. */
  lemma BestAfter(mode: Mode, m: Matchers, cmds: seq<Element>, left: seq<Element>, words: seq<string>, n: nat, c: Element)
    requires n < |words| && forall d :: d in left <==> Best(mode, m, cmds, words, n, d)
    requires c in left && NO_MATCH != At(mode, m, c, words, n) == FilterType(mode, m, left, words[n], n)
    ensures Best(mode, m, cmds, words, n + 1, c)
  {
    forall d | d in cmds ensures !Beats(mode, m, words, n + 1, d, c) {
      if k :| 0 <= k < n + 1 && AheadAt(mode, m, words, k, d, c) {
        assert Beats(mode, m, words, n, d, c) || k == n;
        LevelIsBest(mode, m, cmds, words, n, c, d);
        FilterTypeUpper(mode, m, left, words[n], n, d);
      }
    }
  }

  /** And only they do. */
  lemma BestMatchesNext(mode: Mode, m: Matchers, cmds: seq<Element>, left: seq<Element>, words: seq<string>, n: nat, c: Element)
    requires n < |words| && forall d :: d in left <==> Best(mode, m, cmds, words, n, d)
    requires Best(mode, m, cmds, words, n + 1, c)
    ensures c in left && NO_MATCH != At(mode, m, c, words, n) == FilterType(mode, m, left, words[n], n)
  {
    BestBefore(mode, m, cmds, words, n, c);
    assert At(mode, m, c, words, n) != NO_MATCH;
    FilterTypeUpper(mode, m, left, words[n], n, c);
    var d := FilterTypeAttained(mode, m, left, words[n], n);
    Trichotomy(mode, m, words, n, c, d);
    assert Level(mode, m, words, n, d, c);
    assert AheadAt(mode, m, words, n, d, c) ==> Beats(mode, m, words, n + 1, d, c);
  }

  // ---- Where the loop stops ----

  /** Two different keywords at the position begin with the word, and none is the word. */
  ghost predicate TwoBegun(cmds: seq<Element>, word: string, index: nat) {
    && (exists s, s' :: s != s' && Begun(cmds, word, index, s) && Begun(cmds, word, index, s'))
    && !Begun(cmds, word, index, word)
  }

  ghost predicate Begun(cmds: seq<Element>, word: string, index: nat, s: string) {
    Offered(cmds, index, s) && IsLiteral(s) && word <= s
  }

  lemma BegunIsKept(m: Matchers, cmds: seq<Element>, word: string, index: nat, s: string)
    requires Begun(cmds, word, index, s)
    ensures Offered(FilterKeep(Completing, m, cmds, word, index), index, s)
    ensures FilterType(Completing, m, cmds, word, index) >= PARTLY_MATCH
  {
    var c :| c in cmds && index < |c.strvec| && s in c.strvec[index];
    PositionMatchUpper(Completing, m, c.strvec[index], word, s);
    FilterTypeUpper(Completing, m, cmds, word, index, c);
    KeepMember(cmds, c => ElementMatch(Completing, m, c, word, index) != NO_MATCH, c);
  }

  lemma KeptIsBegun(m: Matchers, cmds: seq<Element>, word: string, index: nat, s: string)
    requires AllOrdinary(cmds) && Offered(FilterKeep(Completing, m, cmds, word, index), index, s) && Hits(m, PARTLY_MATCH, s, word)
    ensures Begun(cmds, word, index, s)
  {
    var c :| c in FilterKeep(Completing, m, cmds, word, index) && index < |c.strvec| && s in c.strvec[index];
    KeepMember(cmds, c => ElementMatch(Completing, m, c, word, index) != NO_MATCH, c);
    assert Ordinary(c.strvec);
  }

  lemma ExactIsOffered(m: Matchers, cmds: seq<Element>, word: string, index: nat)
    requires FilterType(Completing, m, cmds, word, index) == EXACT_MATCH
    ensures Begun(cmds, word, index, word)
  {
    var c := FilterTypeAttained(Completing, m, cmds, word, index);
    var s := PositionMatchAttained(Completing, m, c.strvec[index], word);
  }

  lemma AmbiguousIsTwoBegun(m: Matchers, cmds: seq<Element>, word: string, index: nat)
    requires AllOrdinary(cmds)
    ensures var t := FilterType(Completing, m, cmds, word, index);
            Ambiguous(m, t, FilterKeep(Completing, m, cmds, word, index), word, index) <==> TwoBegun(cmds, word, index)
  {
    var t, kept := FilterType(Completing, m, cmds, word, index), FilterKeep(Completing, m, cmds, word, index);
    OrdinaryFilterType(Completing, m, cmds, cmds, word, index);
    if Ambiguous(m, t, kept, word, index) {
      var s, s' :| s != s' && Offered(kept, index, s) && Offered(kept, index, s') && Hits(m, t, s, word) && Hits(m, t, s', word);
      KeptIsBegun(m, cmds, word, index, s);
      KeptIsBegun(m, cmds, word, index, s');
      if Begun(cmds, word, index, word) { Shortcuts.FullIsExact(Completing, m, cmds, word, index); }
    }
    if TwoBegun(cmds, word, index) {
      var s, s' :| s != s' && Begun(cmds, word, index, s) && Begun(cmds, word, index, s');
      BegunIsKept(m, cmds, word, index, s);
      BegunIsKept(m, cmds, word, index, s');
      if t == EXACT_MATCH { ExactIsOffered(m, cmds, word, index); }
      assert Hits(m, PARTLY_MATCH, s, word) && Hits(m, PARTLY_MATCH, s', word);
    }
  }

  /** A keyword that begins with word n and that a best command for the words before it offers there. */
  ghost predicate BestBegun(m: Matchers, cmds: seq<Element>, words: seq<string>, n: nat, s: string)
    requires n < |words|
  {
    (exists c :: Best(Completing, m, cmds, words, n, c) && n < |c.strvec| && s in c.strvec[n]) && IsLiteral(s) && words[n] <= s
  }

  /** Word n begins two such keywords and is none. */
  ghost predicate AmbiguousAt(m: Matchers, cmds: seq<Element>, words: seq<string>, n: nat)
    requires n < |words|
  {
    && (exists s, s' :: s != s' && BestBegun(m, cmds, words, n, s) && BestBegun(m, cmds, words, n, s'))
    && !BestBegun(m, cmds, words, n, words[n])
  }

  lemma SameBegun(m: Matchers, cmds: seq<Element>, left: seq<Element>, words: seq<string>, n: nat)
    requires n < |words| && forall c :: c in left <==> Best(Completing, m, cmds, words, n, c)
    ensures TwoBegun(left, words[n], n) <==> AmbiguousAt(m, cmds, words, n)
  {
    assert forall s :: Begun(left, words[n], n, s) <==> BestBegun(m, cmds, words, n, s);
  }

  ghost predicate SomewhereAmbiguous(mode: Mode, m: Matchers, cmds: seq<Element>, words: seq<string>, from: nat) {
    mode.Completing? && exists n :: from <= n < |words| && AmbiguousAt(m, cmds, words, n)
  }

  lemma RoundStops(mode: Mode, m: Matchers, cmds: seq<Element>, left: seq<Element>, words: seq<string>, n: nat)
    requires n < |words| && AllOrdinary(cmds) && forall c :: c in left <==> Best(mode, m, cmds, words, n, c)
    ensures Narrow1(mode, m, left, words[n], n).Stop? <==> mode.Completing? && AmbiguousAt(m, cmds, words, n)
    ensures var r := Narrow1(mode, m, left, words[n], n); r.Stop? ==> r.end == AmbiguousWord
  {
    OrdinaryFilterType(mode, m, cmds, left, words[n], n);
    if mode.Completing? {
      AmbiguousIsTwoBegun(m, left, words[n], n);
      SameBegun(m, cmds, left, words, n);
    }
  }

  lemma RoundBest(mode: Mode, m: Matchers, cmds: seq<Element>, left: seq<Element>, words: seq<string>, n: nat, c: Element)
    requires n < |words| && AllOrdinary(cmds) && forall d :: d in left <==> Best(mode, m, cmds, words, n, d)
    requires Narrow1(mode, m, left, words[n], n).Next?
    ensures c in Narrow1(mode, m, left, words[n], n).cmds <==> Best(mode, m, cmds, words, n + 1, c)
  {
    RoundIsBest(mode, m, left, words[n], n, c);
    if Best(mode, m, cmds, words, n + 1, c) { BestMatchesNext(mode, m, cmds, left, words, n, c); }
    if c in Narrow1(mode, m, left, words[n], n).cmds { BestAfter(mode, m, cmds, left, words, n, c); }
  }

  /** The loop stops exactly at an ambiguous word, and otherwise leaves the best commands. */
  lemma {:induction false} NarrowIsBest(mode: Mode, m: Matchers, cmds: seq<Element>, left: seq<Element>, words: seq<string>, n: nat, last: MatchType)
    requires n <= |words| && AllOrdinary(cmds) && forall c :: c in left <==> Best(mode, m, cmds, words, n, c)
    ensures var r := Narrow(mode, m, left, words, n, last);
            if SomewhereAmbiguous(mode, m, cmds, words, n) then r == AmbiguousWord
            else r.Left? && forall c :: c in r.cmds <==> Best(mode, m, cmds, words, |words|, c)
    decreases |words| - n
  {
    if n < |words| {
      RoundStops(mode, m, cmds, left, words, n);
      var r := Narrow1(mode, m, left, words[n], n);
      if r.Next? {
        forall c ensures c in r.cmds <==> Best(mode, m, cmds, words, n + 1, c) { RoundBest(mode, m, cmds, left, words, n, c); }
        NarrowIsBest(mode, m, cmds, r.cmds, words, n + 1, r.t);
      }
    }
  }

  /** The greedy rounds stop exactly at an ambiguous word and otherwise leave exactly the commands that are
      lexicographically best on the whole line. */
  lemma SurvivorsAreBest(mode: Mode, m: Matchers, cmds: seq<Element>, words: seq<string>)
    requires AllOrdinary(cmds)
    ensures var r := Narrow(mode, m, cmds, words, 0, NO_MATCH);
            if SomewhereAmbiguous(mode, m, cmds, words, 0) then r == AmbiguousWord
            else r.Left? && forall c :: c in r.cmds <==> Best(mode, m, cmds, words, |words|, c)
  {
    assert forall d :: d in cmds <==> Best(mode, m, cmds, words, 0, d);
    NarrowIsBest(mode, m, cmds, cmds, words, 0, NO_MATCH);
  }

  // ---- Which command runs ----

  /** Best, and the line is long enough for it. */
  ghost predicate Candidate(mode: Mode, m: Matchers, cmds: seq<Element>, words: seq<string>, c: Element) {
    Best(mode, m, cmds, words, |words|, c) && CmdSize(c.strvec) <= |words|
  }

  /** The only candidate. */
  ghost predicate Chosen(mode: Mode, m: Matchers, cmds: seq<Element>, words: seq<string>, c: Element) {
    Candidate(mode, m, cmds, words, c) && forall d :: Candidate(mode, m, cmds, words, d) ==> d == c
  }

  lemma WholeIsCandidate(mode: Mode, m: Matchers, cmds: seq<Element>, words: seq<string>, c: Element)
    requires AllOrdinary(cmds) && !SomewhereAmbiguous(mode, m, cmds, words, 0)
    ensures var n := Narrow(mode, m, cmds, words, 0, NO_MATCH);
            n.Left? && (c in CompleteOnly(n.cmds, n.index, n.last) <==> Candidate(mode, m, cmds, words, c))
  {
    var n := Narrow(mode, m, cmds, words, 0, NO_MATCH);
    SurvivorsAreBest(mode, m, cmds, words);
    NarrowEnds(mode, m, cmds, cmds, words, 0, NO_MATCH);
    KeepMember(n.cmds, d => Complete(d, n.index, n.last), c);
  }

  lemma {:induction false} NarrowDistinct(mode: Mode, m: Matchers, cmds: seq<Element>, words: seq<string>, n: nat, last: MatchType)
    requires n <= |words| && Distinct(cmds)
    ensures var r := Narrow(mode, m, cmds, words, n, last); r.Left? ==> Distinct(r.cmds)
    decreases |words| - n
  {
    if n < |words| {
      var t := FilterType(mode, m, cmds, words[n], n);
      KeepDistinct(cmds, c => ElementMatch(mode, m, c, words[n], n) != NO_MATCH);
      KeepDistinct(FilterKeep(mode, m, cmds, words[n], n), c => ElementHit(m, t, c, words[n], n));
      var r := Narrow1(mode, m, cmds, words[n], n);
      if r.Next? { NarrowDistinct(mode, m, r.cmds, words, n + 1, r.t); }
    }
  }

  lemma LoneWhole(whole: seq<Element>, c: Element)
    requires Distinct(whole)
    ensures whole == [c] <==> c in whole && forall d :: d in whole ==> d == c
  {
    if c in whole && forall d :: d in whole ==> d == c {
      assert whole[0] in whole && whole[|whole| - 1] in whole;
    }
  }

  /** What is left at the end of a line that is nowhere ambiguous. */
  lemma Whole(mode: Mode, m: Matchers, cmds: seq<Element>, words: seq<string>)
    requires AllOrdinary(cmds) && Distinct(cmds) && !SomewhereAmbiguous(mode, m, cmds, words, 0)
    ensures var n := Narrow(mode, m, cmds, words, 0, NO_MATCH);
            && n.Left? && Distinct(CompleteOnly(n.cmds, n.index, n.last))
            && (forall c :: c in n.cmds <==> Best(mode, m, cmds, words, |words|, c))
            && (forall c :: c in CompleteOnly(n.cmds, n.index, n.last) <==> Candidate(mode, m, cmds, words, c))
            && (forall c :: CompleteOnly(n.cmds, n.index, n.last) == [c] <==> Chosen(mode, m, cmds, words, c))
  {
    var n := Narrow(mode, m, cmds, words, 0, NO_MATCH);
    SurvivorsAreBest(mode, m, cmds, words);
    var whole := CompleteOnly(n.cmds, n.index, n.last);
    NarrowDistinct(mode, m, cmds, words, 0, NO_MATCH);
    KeepDistinct(n.cmds, c => Complete(c, n.index, n.last));
    forall c ensures c in whole <==> Candidate(mode, m, cmds, words, c) { WholeIsCandidate(mode, m, cmds, words, c); }
    forall c ensures whole == [c] <==> Chosen(mode, m, cmds, words, c) { LoneWhole(whole, c); }
  }

  lemma OneRuns(whole: seq<Element>, n: Narrowed, words: seq<string>, h: Handler, argv: seq<string>)
    requires n.Left? && whole == CompleteOnly(n.cmds, n.index, n.last)
    ensures Select(n, words) == Run(h, argv) <==>
            |argv| < CMD_ARGC_MAX && exists c :: whole == [c] && c.id == h && argv == Args(c.strvec, words)
  {
    if |whole| == 1 { assert whole == [whole[0]]; }
  }

  /** A line runs a command exactly when no word is ambiguous and the command is the only lexicographically best one the
      line is long enough for, and then with the arguments its template passes. */
  lemma RunsExactlyTheBest(mode: Mode, m: Matchers, cmds: seq<Element>, words: seq<string>, h: Handler, argv: seq<string>)
    requires AllOrdinary(cmds) && Distinct(cmds)
    ensures Execute(mode, m, cmds, words) == Run(h, argv) <==>
            && !SomewhereAmbiguous(mode, m, cmds, words, 0) && |argv| < 25
            && exists c :: Chosen(mode, m, cmds, words, c) && c.id == h && argv == Args(c.strvec, words)
  {
    SurvivorsAreBest(mode, m, cmds, words);
    if !SomewhereAmbiguous(mode, m, cmds, words, 0) {
      Whole(mode, m, cmds, words);
      var n := Narrow(mode, m, cmds, words, 0, NO_MATCH);
      OneRuns(CompleteOnly(n.cmds, n.index, n.last), n, words, h, argv);
    }
  }

  /** And it is refused for each reason exactly when that reason holds. */
  lemma RefusedExactlyWhen(mode: Mode, m: Matchers, cmds: seq<Element>, words: seq<string>)
    requires AllOrdinary(cmds) && Distinct(cmds)
    ensures var r := Execute(mode, m, cmds, words);
            var ambiguous := SomewhereAmbiguous(mode, m, cmds, words, 0);
            && (r == Refused(ErrNoMatch) <==> !ambiguous && forall c :: !Best(mode, m, cmds, words, |words|, c))
            && (r == Refused(ErrIncomplete) <==>
                  && !ambiguous && (exists c :: Best(mode, m, cmds, words, |words|, c))
                  && forall c :: !Candidate(mode, m, cmds, words, c))
            && (r == Refused(ErrAmbiguous) <==>
                  ambiguous || exists c, d :: c != d && Candidate(mode, m, cmds, words, c) && Candidate(mode, m, cmds, words, d))
  {
    SurvivorsAreBest(mode, m, cmds, words);
    if !SomewhereAmbiguous(mode, m, cmds, words, 0) {
      Whole(mode, m, cmds, words);
      var n := Narrow(mode, m, cmds, words, 0, NO_MATCH);
      var whole := CompleteOnly(n.cmds, n.index, n.last);
      Counted(mode, m, cmds, words, n.cmds, whole);
    }
  }

  lemma Counted(mode: Mode, m: Matchers, cmds: seq<Element>, words: seq<string>, left: seq<Element>, whole: seq<Element>)
    requires Distinct(whole) && forall c :: c in whole <==> Candidate(mode, m, cmds, words, c)
    requires forall c :: c in left <==> Best(mode, m, cmds, words, |words|, c)
    ensures |left| == 0 <==> forall c :: !Best(mode, m, cmds, words, |words|, c)
    ensures |whole| == 0 <==> forall c :: !Candidate(mode, m, cmds, words, c)
    ensures |whole| > 1 <==> exists c, d :: c != d && Candidate(mode, m, cmds, words, c) && Candidate(mode, m, cmds, words, d)
  {
    if |left| > 0 { assert left[0] in left; }
    if |whole| > 0 { assert whole[0] in whole; }
    if |whole| > 1 { assert whole[1] in whole && whole[0] != whole[1]; }
    if c, d :| c != d && Candidate(mode, m, cmds, words, c) && Candidate(mode, m, cmds, words, d) {
      var i :| 0 <= i < |whole| && whole[i] == c;
      var j :| 0 <= j < |whole| && whole[j] == d;
      assert i != j;
    }
  }
}
