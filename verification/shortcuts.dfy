/** Abbreviated words: when the completing executor takes a shortened keyword for the full one, and
    when the completing and the strict executor agree. */
module Shortcuts {
  import opened CText
  import opened Sequences
  import opened Matching
  import Ipv4

  // ---- Filtering ----

  lemma {:induction false} FilterTypeCongruent(a: Mode, b: Mode, m: Matchers, cmds: seq<Element>, word: string, index: nat)
    requires forall c :: c in cmds ==> ElementMatch(a, m, c, word, index) == ElementMatch(b, m, c, word, index)
    ensures FilterType(a, m, cmds, word, index) == FilterType(b, m, cmds, word, index)
  {
    if |cmds| > 0 {
      var k := |cmds| - 1;
      FilterTypeCongruent(a, b, m, cmds[..k], word, index);
      assert cmds[k] in cmds;
    }
  }

  // ---- Strict and completing agree ----

  /** The word is no proper prefix of a keyword and no partial address at this position. */
  ghost predicate Unabbreviated(m: Matchers, cmds: seq<Element>, word: string, index: nat) {
    forall c, s :: c in cmds && index < |c.strvec| && s in c.strvec[index] ==>
      && (IsLiteral(s) && word <= s ==> word == s)
      && (IsIpv4(s) ==> !Ipv4.Match(word).Partly?)
      && (IsIpv4Prefix(s) ==> !m.ipv4Prefix(word).Partly?)
  }

  /** Every word is unabbreviated among the commands that survive to its position. */
  ghost predicate UnabbreviatedLine(m: Matchers, cmds: seq<Element>, words: seq<string>, index: nat)
    requires index <= |words|
    decreases |words| - index
  {
    index == |words| ||
    (Unabbreviated(m, cmds, words[index], index) &&
     (match Narrow1(Strict, m, cmds, words[index], index)
      case Stop(_) => true
      case Next(rest, _) => UnabbreviatedLine(m, rest, words, index + 1)))
  }

  lemma {:induction false} PositionModesAgree(m: Matchers, descs: seq<string>, word: string)
    requires forall s :: s in descs ==> DescMatch(Completing, m, s, word) == DescMatch(Strict, m, s, word)
    ensures PositionMatch(Completing, m, descs, word) == PositionMatch(Strict, m, descs, word)
  {
    if |descs| > 0 {
      var k := |descs| - 1;
      PositionModesAgree(m, descs[..k], word);
      assert descs[k] in descs;
    }
  }

  lemma DescModesAgree(m: Matchers, s: string, word: string)
    requires (IsLiteral(s) && word <= s ==> word == s) && (IsIpv4(s) ==> !Ipv4.Match(word).Partly?)
    requires IsIpv4Prefix(s) ==> !m.ipv4Prefix(word).Partly?
    ensures DescMatch(Completing, m, s, word) == DescMatch(Strict, m, s, word)
  {
  }

  lemma OfferedModesAgree(m: Matchers, cmds: seq<Element>, word: string, index: nat, c: Element)
    requires Unabbreviated(m, cmds, word, index) && c in cmds && index < |c.strvec|
    ensures forall s :: s in c.strvec[index] ==> DescMatch(Completing, m, s, word) == DescMatch(Strict, m, s, word)
  {
    forall s | s in c.strvec[index] ensures DescMatch(Completing, m, s, word) == DescMatch(Strict, m, s, word) {
      DescModesAgree(m, s, word);
    }
  }

  lemma ElementModesAgree(m: Matchers, cmds: seq<Element>, word: string, index: nat, c: Element)
    requires Unabbreviated(m, cmds, word, index) && c in cmds
    ensures ElementMatch(Completing, m, c, word, index) == ElementMatch(Strict, m, c, word, index)
  {
    if index < |c.strvec| {
      OfferedModesAgree(m, cmds, word, index, c);
      PositionModesAgree(m, c.strvec[index], word);
    }
  }

  lemma RoundModesAgree(m: Matchers, cmds: seq<Element>, word: string, index: nat)
    requires Unabbreviated(m, cmds, word, index)
    ensures Narrow1(Completing, m, cmds, word, index) == Narrow1(Strict, m, cmds, word, index)
  {
    forall c | c in cmds ensures ElementMatch(Completing, m, c, word, index) == ElementMatch(Strict, m, c, word, index) {
      ElementModesAgree(m, cmds, word, index, c);
    }
    FilterTypeCongruent(Completing, Strict, m, cmds, word, index);
    KeepCongruent(cmds, c => ElementMatch(Completing, m, c, word, index) != NO_MATCH, c => ElementMatch(Strict, m, c, word, index) != NO_MATCH);
  }

  lemma {:induction false} NarrowModesAgree(m: Matchers, cmds: seq<Element>, words: seq<string>, index: nat, last: MatchType)
    requires index <= |words| && UnabbreviatedLine(m, cmds, words, index)
    ensures Narrow(Completing, m, cmds, words, index, last) == Narrow(Strict, m, cmds, words, index, last)
    decreases |words| - index
  {
    if index < |words| {
      RoundModesAgree(m, cmds, words[index], index);
      var r := Narrow1(Strict, m, cmds, words[index], index);
      if r.Next? {
        NarrowModesAgree(m, r.cmds, words, index + 1, r.t);
      }
    }
  }

  /** The two executors agree on status, handler and argv for every unabbreviated line. */
  lemma StrictAgreesWithCompleting(m: Matchers, cmds: seq<Element>, words: seq<string>)
    requires UnabbreviatedLine(m, cmds, words, 0)
    ensures Execute(Completing, m, cmds, words) == Execute(Strict, m, cmds, words)
  {
    NarrowModesAgree(m, cmds, words, 0, NO_MATCH);
  }

  // ---- Abbreviating keywords ----

  /** short is a proper prefix of the keyword full, some surviving command offers full at this position,
      and no surviving command offers another keyword that begins with short. */
  ghost predicate UniqueAbbreviation(cmds: seq<Element>, full: string, short: string, index: nat) {
    && 0 < |short| && short < full && IsLiteral(full)
    && Offered(cmds, index, full)
    && forall s :: Offered(cmds, index, s) && IsLiteral(s) && short <= s ==> s == full
  }

  /** short is full with any number of words shortened, each uniquely among the commands that survive to it. */
  ghost predicate Abbreviates(m: Matchers, cmds: seq<Element>, full: seq<string>, short: seq<string>, index: nat)
    requires index <= |full| == |short|
    decreases |full| - index
  {
    index == |full| ||
    ((short[index] == full[index] || UniqueAbbreviation(cmds, full[index], short[index], index)) &&
     (match Narrow1(Completing, m, cmds, full[index], index)
      case Stop(end) => end.Left? ==> full[index..] == short[index..]
      case Next(rest, _) => Abbreviates(m, rest, full, short, index + 1)))
  }

  /** With the full keyword offered, the match is exact. */
  lemma FullIsExact(mode: Mode, m: Matchers, cmds: seq<Element>, full: string, index: nat)
    requires IsLiteral(full) && Offered(cmds, index, full)
    ensures FilterType(mode, m, cmds, full, index) == EXACT_MATCH
  {
    var c :| c in cmds && index < |c.strvec| && full in c.strvec[index];
    PositionMatchUpper(mode, m, c.strvec[index], full, full);
    FilterTypeUpper(mode, m, cmds, full, index, c);
  }

  /** With a unique abbreviation, the match is partial. */
  lemma ShortIsPartly(m: Matchers, cmds: seq<Element>, full: string, short: string, index: nat)
    requires UniqueAbbreviation(cmds, full, short, index)
    ensures FilterType(Completing, m, cmds, short, index) == PARTLY_MATCH
  {
    var c :| c in cmds && index < |c.strvec| && full in c.strvec[index];
    PositionMatchUpper(Completing, m, c.strvec[index], short, full);
    FilterTypeUpper(Completing, m, cmds, short, index, c);
    var d := FilterTypeAttained(Completing, m, cmds, short, index);
    ShortNotExact(m, cmds, full, short, index, d);
  }

  lemma ShortNotExact(m: Matchers, cmds: seq<Element>, full: string, short: string, index: nat, d: Element)
    requires UniqueAbbreviation(cmds, full, short, index) && d in cmds
    ensures ElementMatch(Completing, m, d, short, index) <= PARTLY_MATCH
  {
    if index < |d.strvec| {
      if PositionMatch(Completing, m, d.strvec[index], short) != NO_MATCH {
        var s := PositionMatchAttained(Completing, m, d.strvec[index], short);
        assert Offered(cmds, index, s);
      }
    }
  }

  /** A command is hit by the abbreviation exactly when it is hit by the keyword. */
  lemma SameHits(m: Matchers, cmds: seq<Element>, full: string, short: string, index: nat, c: Element)
    requires UniqueAbbreviation(cmds, full, short, index) && c in cmds
    ensures ElementHit(m, PARTLY_MATCH, c, short, index) <==> ElementHit(m, EXACT_MATCH, c, full, index)
    ensures ElementHit(m, EXACT_MATCH, c, full, index) ==> full in c.strvec[index]
  {
    if index < |c.strvec| {
      forall s | s in c.strvec[index] ensures Hits(m, PARTLY_MATCH, s, short) <==> Hits(m, EXACT_MATCH, s, full) {
        assert Offered(cmds, index, s);
      }
    }
  }

  lemma HitsMatch(mode: Mode, m: Matchers, t: MatchType, c: Element, word: string, index: nat)
    requires t == EXACT_MATCH || (mode.Completing? && t == PARTLY_MATCH)
    requires ElementHit(m, t, c, word, index)
    ensures ElementMatch(mode, m, c, word, index) != NO_MATCH
  {
    var s :| s in c.strvec[index] && Hits(m, t, s, word);
    PositionMatchUpper(mode, m, c.strvec[index], word, s);
  }

  lemma HitsOfAll(mode: Mode, m: Matchers, t: MatchType, cmds: seq<Element>, word: string, index: nat)
    requires t == EXACT_MATCH || (mode.Completing? && t == PARTLY_MATCH)
    ensures HitKeep(m, t, FilterKeep(mode, m, cmds, word, index), word, index) == HitKeep(m, t, cmds, word, index)
  {
    forall c | c in cmds && ElementHit(m, t, c, word, index) ensures ElementMatch(mode, m, c, word, index) != NO_MATCH {
      HitsMatch(mode, m, t, c, word, index);
    }
    KeepKeep(cmds, c => ElementMatch(mode, m, c, word, index) != NO_MATCH, c => ElementHit(m, t, c, word, index));
  }

  lemma NotAmbiguous(m: Matchers, cmds: seq<Element>, full: string, short: string, index: nat)
    requires UniqueAbbreviation(cmds, full, short, index)
    ensures !Ambiguous(m, PARTLY_MATCH, FilterKeep(Completing, m, cmds, short, index), short, index)
  {
    var kept := FilterKeep(Completing, m, cmds, short, index);
    forall s | Offered(kept, index, s) && Hits(m, PARTLY_MATCH, s, short) ensures s == full {
      var c :| c in kept && index < |c.strvec| && s in c.strvec[index];
      KeepMember(cmds, c => ElementMatch(Completing, m, c, short, index) != NO_MATCH, c);
      assert Offered(cmds, index, s);
    }
  }

  lemma RoundAbbreviated(m: Matchers, cmds: seq<Element>, full: string, short: string, index: nat)
    requires UniqueAbbreviation(cmds, full, short, index)
    ensures var a, b := Narrow1(Completing, m, cmds, full, index), Narrow1(Completing, m, cmds, short, index);
            && a == Next(HitKeep(m, EXACT_MATCH, cmds, full, index), EXACT_MATCH)
            && b == Next(a.cmds, PARTLY_MATCH)
  {
    FullIsExact(Completing, m, cmds, full, index);
    HitsOfAll(Completing, m, EXACT_MATCH, cmds, full, index);
    ShortIsPartly(m, cmds, full, short, index);
    NotAmbiguous(m, cmds, full, short, index);
    HitsOfAll(Completing, m, PARTLY_MATCH, cmds, short, index);
    forall c | c in cmds ensures ElementHit(m, PARTLY_MATCH, c, short, index) <==> ElementHit(m, EXACT_MATCH, c, full, index) {
      SameHits(m, cmds, full, short, index, c);
    }
    KeepCongruent(cmds, c => ElementHit(m, PARTLY_MATCH, c, short, index), c => ElementHit(m, EXACT_MATCH, c, full, index));
  }

  /** Every surviving command still has each shortened keyword at its position. */
  ghost predicate KeepsKeywords(cmds: seq<Element>, full: seq<string>, short: seq<string>, from: nat)
    requires |full| == |short|
  {
    forall c, k :: c in cmds && from <= k < |full| && full[k] != short[k] ==>
      k < |c.strvec| && full[k] in c.strvec[k] && IsLiteral(full[k])
  }

  ghost predicate SameEnds(a: Narrowed, b: Narrowed) {
    if a.Left? then b.Left? && a.cmds == b.cmds && a.index == b.index && (a.last == VARARG_MATCH <==> b.last == VARARG_MATCH)
    else a == b
  }

  lemma {:induction false} Survivors(mode: Mode, m: Matchers, cmds: seq<Element>, words: seq<string>, index: nat, last: MatchType, c: Element)
    requires index <= |words|
    requires Narrow(mode, m, cmds, words, index, last).Left? && c in Narrow(mode, m, cmds, words, index, last).cmds
    ensures c in cmds
    decreases |words| - index
  {
    if index < |words| {
      var w := words[index];
      var kept := FilterKeep(mode, m, cmds, w, index);
      KeepMember(cmds, c => ElementMatch(mode, m, c, w, index) != NO_MATCH, c);
      var r := Narrow1(mode, m, cmds, w, index);
      if r.Next? {
        Survivors(mode, m, r.cmds, words, index + 1, r.t, c);
        KeepMember(kept, c => ElementHit(m, r.t, c, w, index), c);
      }
    }
  }

  lemma {:induction false} NarrowAbbreviated(m: Matchers, cmds: seq<Element>, full: seq<string>, short: seq<string>, index: nat, last: MatchType, last': MatchType)
    requires index <= |full| == |short| && Abbreviates(m, cmds, full, short, index)
    requires last == VARARG_MATCH <==> last' == VARARG_MATCH
    ensures var a, b := Narrow(Completing, m, cmds, full, index, last), Narrow(Completing, m, cmds, short, index, last');
            SameEnds(a, b) && (a.Left? ==> KeepsKeywords(a.cmds, full, short, index))
    decreases |full| - index
  {
    if index < |full| {
      var f, s := full[index], short[index];
      var r := Narrow1(Completing, m, cmds, f, index);
      if s == f {
        if r.Next? {
          NarrowAbbreviated(m, r.cmds, full, short, index + 1, r.t, r.t);
        } else if r.end.Left? {
          assert forall k :: index <= k < |full| ==> full[k] == full[index..][k - index] == short[k];
        }
      } else {
        RoundAbbreviated(m, cmds, f, s, index);
        NarrowAbbreviated(m, r.cmds, full, short, index + 1, EXACT_MATCH, PARTLY_MATCH);
        var a := Narrow(Completing, m, cmds, full, index, last);
        if a.Left? {
          forall c | c in a.cmds ensures index < |c.strvec| && f in c.strvec[index] {
            Survivors(Completing, m, r.cmds, full, index + 1, EXACT_MATCH, c);
            KeepMember(cmds, c => ElementHit(m, EXACT_MATCH, c, f, index), c);
            SameHits(m, cmds, f, s, index, c);
          }
        }
      }
    }
  }

  lemma {:induction false} ArgsDiffer(strvec: seq<seq<string>>, full: seq<string>, short: seq<string>)
    requires |full| == |short|
    requires forall k :: 0 <= k < |full| && Passed(strvec, k) ==> full[k] == short[k]
    ensures Args(strvec, full) == Args(strvec, short)
  {
    if |full| > 0 {
      var k := |full| - 1;
      ArgsDiffer(strvec, full[..k], short[..k]);
    }
  }

  lemma {:induction false} ArgsLength(strvec: seq<seq<string>>, full: seq<string>, short: seq<string>)
    requires |full| == |short|
    ensures |Args(strvec, full)| == |Args(strvec, short)|
  {
    if |full| > 0 {
      var k := |full| - 1;
      ArgsLength(strvec, full[..k], short[..k]);
    }
  }

  /** c explains both outcomes: it is the command that runs, and the words that were shortened are keywords
      of c, passed to the handler only where c offers a choice. */
  ghost predicate SameRun(cmds: seq<Element>, c: Element, full: seq<string>, short: seq<string>, a: Outcome, b: Outcome)
    requires |full| == |short|
  {
    && c in cmds && a.Run? && b.Run? && a.id == b.id == c.id
    && a.argv == Args(c.strvec, full) && b.argv == Args(c.strvec, short)
    && (forall k :: 0 <= k < |full| && full[k] != short[k] ==> k < |c.strvec| && full[k] in c.strvec[k])
    && ((forall k :: 0 <= k < |full| && k < |c.strvec| && full[k] != short[k] ==> |c.strvec[k]| == 1) ==> a.argv == b.argv)
  }

  lemma ChosenExplains(m: Matchers, cmds: seq<Element>, full: seq<string>, short: seq<string>, n: Narrowed, c: Element)
    requires |full| == |short| && n == Narrow(Completing, m, cmds, full, 0, NO_MATCH) && n.Left?
    requires KeepsKeywords(n.cmds, full, short, 0) && c in CompleteOnly(n.cmds, n.index, n.last)
    ensures |Args(c.strvec, full)| == |Args(c.strvec, short)|
    ensures SameRun(cmds, c, full, short, Run(c.id, Args(c.strvec, full)), Run(c.id, Args(c.strvec, short)))
  {
    KeepMember(n.cmds, c => Complete(c, n.index, n.last), c);
    Survivors(Completing, m, cmds, full, 0, NO_MATCH, c);
    ArgsLength(c.strvec, full, short);
    if forall k :: 0 <= k < |full| && k < |c.strvec| && full[k] != short[k] ==> |c.strvec[k]| == 1 {
      KeywordsNotPassed(n.cmds, full, short, c);
    }
  }

  lemma KeywordsNotPassed(cmds: seq<Element>, full: seq<string>, short: seq<string>, c: Element)
    requires |full| == |short| && KeepsKeywords(cmds, full, short, 0) && c in cmds
    requires forall k :: 0 <= k < |full| && k < |c.strvec| && full[k] != short[k] ==> |c.strvec[k]| == 1
    ensures Args(c.strvec, full) == Args(c.strvec, short)
  {
    forall k | 0 <= k < |full| && full[k] != short[k] ensures !Passed(c.strvec, k) {
      assert c.strvec[k][0] == full[k];
    }
    ArgsDiffer(c.strvec, full, short);
  }

  /** Abbreviation is transparent: the same status, or the same handler with argv differing at most at the
      shortened words of choice positions. */
  lemma AbbreviationIsTransparent(m: Matchers, cmds: seq<Element>, full: seq<string>, short: seq<string>)
    requires |full| == |short| && Abbreviates(m, cmds, full, short, 0)
    ensures var a, b := Execute(Completing, m, cmds, full), Execute(Completing, m, cmds, short);
            if a.Refused? then a == b else exists c :: SameRun(cmds, c, full, short, a, b)
  {
    NarrowAbbreviated(m, cmds, full, short, 0, NO_MATCH, NO_MATCH);
    var n, n' := Narrow(Completing, m, cmds, full, 0, NO_MATCH), Narrow(Completing, m, cmds, short, 0, NO_MATCH);
    if n.Left? {
      SameCompletion(n, n');
      var whole := CompleteOnly(n.cmds, n.index, n.last);
      if |whole| == 1 {
        var c := whole[0];
        ChosenExplains(m, cmds, full, short, n, c);
        var a, b := Execute(Completing, m, cmds, full), Execute(Completing, m, cmds, short);
        assert a.Run? ==> a == Run(c.id, Args(c.strvec, full)) && b == Run(c.id, Args(c.strvec, short));
        assert a.Run? ==> SameRun(cmds, c, full, short, a, b);
      }
    }
  }

  lemma SameCompletion(n: Narrowed, n': Narrowed)
    requires n.Left? && SameEnds(n, n')
    ensures CompleteOnly(n.cmds, n.index, n.last) == CompleteOnly(n'.cmds, n'.index, n'.last)
  {
    KeepCongruent(n.cmds, c => Complete(c, n.index, n.last), c => Complete(c, n'.index, n'.last));
  }
}
