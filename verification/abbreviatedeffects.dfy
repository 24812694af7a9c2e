/** What abbreviations do to the recorded configuration: handlers get choice words as typed. */
module AbbreviatedEffects {
  import opened CText
  import opened Sequences
  import opened ListSpec
  import opened ConfigStore
  import opened Handlers
  import opened Matching
  import opened Commands
  import opened Shell
  import opened Shortcuts
  import opened ShellRuns
  import opened Replay
  import Runs
  import Reload
  import Selection

  // ---- wg link-up and wg link-down ----

  lemma NoWordItself(s: string, w: string)
    requires Selection.BehindWgWord(s) && w <= "link-up" && w <= "link-down"
    ensures w != s
  {
    assert forall i :: 0 <= i < |w| ==> w[i] == "link-up"[i] && w[i] == "link-down"[i];
    assert "link-up"[5] != "link-down"[5];
    assert |w| > 0 ==> w[0] == 'l';
  }

  /** A beginning of both link words matches in part and hits both. */
  lemma BothAreHit(m: Matchers, cmds: seq<Element>, w: string)
    requires w <= "link-up" && w <= "link-down" && Element(WgLink, Template(WgLink)) in cmds
    requires forall c, s :: c in cmds && 1 < |c.strvec| && s in c.strvec[1] ==> Selection.BehindWgWord(s)
    ensures Narrow1(Completing, m, cmds, w, 1) == Stop(AmbiguousWord)
  {
    var e := Element(WgLink, Template(WgLink));
    assert e.strvec[1] == ["link-up", "link-down"];
    assert "link-up" in e.strvec[1] && "link-down" in e.strvec[1];
    PartlyType(m, cmds, w);
    var kept := FilterKeep(Completing, m, cmds, w, 1);
    PositionMatchUpper(Completing, m, e.strvec[1], w, "link-up");
    NoWordItself("link-up", w);
    KeepMember(cmds, c => ElementMatch(Completing, m, c, w, 1) != NO_MATCH, e);
    assert Offered(kept, 1, "link-up") && Offered(kept, 1, "link-down");
    assert Hits(m, PARTLY_MATCH, "link-up", w) && Hits(m, PARTLY_MATCH, "link-down", w) && "link-up" != "link-down";
  }

  lemma PartlyType(m: Matchers, cmds: seq<Element>, w: string)
    requires w <= "link-up" && w <= "link-down" && Element(WgLink, Template(WgLink)) in cmds
    requires forall c, s :: c in cmds && 1 < |c.strvec| && s in c.strvec[1] ==> Selection.BehindWgWord(s)
    ensures FilterType(Completing, m, cmds, w, 1) == PARTLY_MATCH
  {
    var e := Element(WgLink, Template(WgLink));
    assert e.strvec[1] == ["link-up", "link-down"] && "link-up" in e.strvec[1];
    NoWordItself("link-up", w);
    PositionMatchUpper(Completing, m, e.strvec[1], w, "link-up");
    FilterTypeUpper(Completing, m, cmds, w, 1, e);
    var c := FilterTypeAttained(Completing, m, cmds, w, 1);
    var s := PositionMatchAttained(Completing, m, c.strvec[1], w);
    NoWordItself(s, w);
  }

  /** A word that reaches the link handler begins exactly one of the two words. */
  lemma BeginsOne(m: Matchers, w: string)
    requires Execute(Completing, m, Node(), ["wg", w]) == Outcome.Run(WgLink, [w])
    ensures (w <= "link-up") != (w <= "link-down")
  {
    LinkWordFits(m, w);
    LinkBegins(w);
    if w <= "link-up" && w <= "link-down" {
      BothRefused(m, w);
    }
  }

  lemma LinkWordFits(m: Matchers, w: string)
    requires Execute(Completing, m, Node(), ["wg", w]) == Outcome.Run(WgLink, [w])
    ensures WordFits(Completing, ["link-up", "link-down"], w)
  {
    RunFit(Completing, m, ["wg", w], WgLink, [w], 1, ["link-up", "link-down"]);
  }

  lemma LinkBegins(w: string)
    requires WordFits(Completing, ["link-up", "link-down"], w)
    ensures w <= "link-up" || w <= "link-down"
  {
  }

  lemma BothRefused(m: Matchers, w: string)
    requires w <= "link-up" && w <= "link-down"
    ensures Execute(Completing, m, Node(), ["wg", w]) == Refused(ErrAmbiguous)
  {
    var words := ["wg", w];
    Selection.VpnInstalled(WgLink);
    Selection.SecondWord(WgLink);
    var c1, c2 := Selection.TwoKeywords(Completing, m, "wg", "link-up", WgLink);
    forall c, s | c in c1 && 1 < |c.strvec| && s in c.strvec[1] ensures Selection.BehindWgWord(s) { Selection.BehindWg(c); }
    BothAreHit(m, c1, w);
    assert Narrow(Completing, m, c1, words, 1, EXACT_MATCH) == AmbiguousWord;
  }

  /** What the link handler records is what the word names exactly when it is link-up in full or begins link-down. */
  lemma LinkRecordsNamedIff(m: Matchers, w: string, named: string)
    requires Execute(Completing, m, Node(), ["wg", w]) == Outcome.Run(WgLink, [w])
    requires (named == "link-up" || named == "link-down") && w <= named
    ensures LinkOps(w) == LinkOps(named) <==> w == "link-up" || w <= "link-down"
    ensures EndsWithAdd(LinkOps(w), "wg " + named) <==> w == "link-up" || w <= "link-down"
  {
    BeginsOne(m, w);
    assert "wg " + "link-up" == "wg link-up" && "wg " + "link-down" == "wg link-down";
    assert "wg link-up" != "wg link-down" by { assert |"wg link-up"| != |"wg link-down"|; }
    assert LinkOps(w)[2] == Add(if w == "link-up" then "wg link-up" else "wg link-down");
  }

  predicate OtherLink(named: string, other: string) {
    (named == "link-up" && other == "link-down") || (named == "link-down" && other == "link-up")
  }

  /** A beginning of one of the words only, among the words behind wg. */
  lemma BeginsNoOther(w: string, named: string, other: string, s: string)
    requires OtherLink(named, other) && w <= named && !(w <= other) && Selection.BehindWgWord(s) && w <= s
    ensures s == named
  {
    if |w| <= 5 { LinkPrefix(w, named, other); }
    assert s[0] == w[0] == 'l' && s[2] == w[2] == 'n' && s[5] == w[5] == named[5];
    assert "link-up"[5] != "link-down"[5] && "listenport"[2] == 's';
  }

  lemma LinkPrefix(w: string, named: string, other: string)
    requires OtherLink(named, other) && w <= named && |w| <= 5
    ensures w <= other
  {
    assert "link-up"[..5] == "link-" == "link-down"[..5];
    assert w == named[..|w|] == named[..5][..|w|] == other[..5][..|w|];
  }

  /** The round of the link word leaves the link command alone. */
  lemma LinkRound(m: Matchers, cmds: seq<Element>, w: string, named: string, other: string) returns (t: MatchType)
    requires OtherLink(named, other) && w <= named && !(w <= other)
    requires Distinct(cmds) && Element(WgLink, Template(WgLink)) in cmds
    requires forall c :: c in cmds ==> c in Node() && Selection.OffersAt(c, 0, "wg")
    ensures Narrow1(Completing, m, cmds, w, 1) == Next([Element(WgLink, Template(WgLink))], t)
  {
    var e := Element(WgLink, Template(WgLink));
    assert e.strvec[1] == ["link-up", "link-down"] && named in e.strvec[1];
    var rest := Selection.ExactRound(Completing, m, cmds, named, 1);
    forall c | c in rest ensures c == e {
      Selection.BehindWg(c);
      LinkOffered(c, named);
    }
    Selection.LoneMember(rest, e);
    t := EXACT_MATCH;
    if w != named {
      forall s | Offered(cmds, 1, s) && IsLiteral(s) && w <= s ensures s == named {
        var c :| c in cmds && 1 < |c.strvec| && s in c.strvec[1];
        Selection.BehindWg(c);
        BeginsNoOther(w, named, other, s);
      }
      assert |w| > 0 by { assert "" <= other; }
      RoundAbbreviated(m, cmds, named, w, 1);
      t := PARTLY_MATCH;
    }
  }

  lemma LinkOffered(c: Element, named: string)
    requires c in Node() && Selection.OffersAt(c, 0, "wg") && Selection.OffersAt(c, 1, named) && (named == "link-up" || named == "link-down")
    ensures c == Element(WgLink, Template(WgLink))
  {
    NodeElement(c);
    Selection.SecondWord(c.id);
  }

  /** Exactly the beginnings of one of the two words, not of both, reach the link handler. */
  lemma LinkRunsIff(m: Matchers, w: string)
    ensures Execute(Completing, m, Node(), ["wg", w]) == Outcome.Run(WgLink, [w]) <==> (w <= "link-up") != (w <= "link-down")
  {
    if Execute(Completing, m, Node(), ["wg", w]) == Outcome.Run(WgLink, [w]) { BeginsOne(m, w); }
    if w <= "link-up" && !(w <= "link-down") { LinkReached(m, w, "link-up", "link-down"); }
    if w <= "link-down" && !(w <= "link-up") { LinkReached(m, w, "link-down", "link-up"); }
  }

  lemma LinkReached(m: Matchers, w: string, named: string, other: string)
    requires OtherLink(named, other) && w <= named && !(w <= other)
    ensures Execute(Completing, m, Node(), ["wg", w]) == Outcome.Run(WgLink, [w])
  {
    var words := ["wg", w];
    var e := Element(WgLink, Template(WgLink));
    Selection.VpnInstalled(WgLink);
    Selection.SecondWord(WgLink);
    var c1, c2 := Selection.TwoKeywords(Completing, m, "wg", "link-up", WgLink);
    var t := LinkRound(m, c1, w, named, other);
    assert Narrow(Completing, m, c1, words, 1, EXACT_MATCH) == Narrow(Completing, m, [e], words, 2, t);
    LinkSelected(e, words, t);
  }

  lemma LinkSize()
    ensures |Template(WgLink)| == 2 && CmdSize(Template(WgLink)) == 2
  {
    TemplateOrdinary(WgLink);
    SizeOfOrdinary(Template(WgLink));
  }

  lemma LinkSelected(e: Element, words: seq<string>, t: MatchType)
    requires e == Element(WgLink, Template(WgLink)) && |words| == 2
    ensures Select(Left([e], 2, t), words) == Outcome.Run(WgLink, [words[1]])
  {
    LinkSize();
    Selection.LoneRuns(e, words, t);
    ArgsByHandler(WgLink, words);
    assert words[1..] == [words[1]];
  }

  // ---- Any abbreviated line ----

  /** The commands with a position that offers a choice. */
  predicate HasChoice(h: Handler) {
    h in [Portmap, NoPortmap, Filter, NoFilter, WgPeerEndpoint, WgPeerKeepalive, WgLink] || h == Other(ShowSfirewall)
  }

  predicate Single(t: seq<seq<string>>) { forall k :: 0 <= k < |t| ==> |t[k]| == 1 }

  lemma PlainSingle(p: Plain)
    ensures p != ShowSfirewall ==> Single(PlainTemplate(p))
  {
  }

  lemma NoChoiceIsSingle(h: Handler)
    requires !HasChoice(h)
    ensures Single(Template(h))
  {
    match h {
      case Other(p) => PlainSingle(p);
      case _ =>
    }
  }

  /** The words that were shortened are offered by the template at their position. */
  ghost predicate ShortenedOffered(t: seq<seq<string>>, full: seq<string>, short: seq<string>)
    requires |full| == |short|
  {
    forall k :: 0 <= k < |full| && full[k] != short[k] ==> k < |t| && full[k] in t[k]
  }

  lemma Explained(m: Matchers, full: seq<string>, short: seq<string>, h: Handler, argv: seq<string>) returns (argv': seq<string>)
    requires |full| == |short| && Abbreviates(m, Node(), full, short, 0) && Execute(Completing, m, Node(), full) == Outcome.Run(h, argv)
    ensures Execute(Completing, m, Node(), short) == Outcome.Run(h, argv')
    ensures argv == Args(Template(h), full) && argv' == Args(Template(h), short)
    ensures ShortenedOffered(Template(h), full, short) && (Single(Template(h)) ==> argv' == argv)
  {
    var b := Execute(Completing, m, Node(), short);
    AbbreviationIsTransparent(m, Node(), full, short);
    var c :| SameRun(Node(), c, full, short, Outcome.Run(h, argv), b);
    argv' := b.argv;
    InstalledTemplates(INSTALLED, c);
    FromSameRun(Node(), c, full, short, h, argv, argv');
  }

  lemma FromSameRun(cmds: seq<Element>, c: Element, full: seq<string>, short: seq<string>, h: Handler, argv: seq<string>, argv': seq<string>)
    requires |full| == |short| && SameRun(cmds, c, full, short, Outcome.Run(h, argv), Outcome.Run(h, argv'))
    ensures c.id == h && argv == Args(c.strvec, full) && argv' == Args(c.strvec, short)
    ensures ShortenedOffered(c.strvec, full, short) && (Single(c.strvec) ==> argv' == argv)
  {
  }

  /** Both lines run the same handler, with the arguments its template takes from them. */
  lemma SameHandler(m: Matchers, full: seq<string>, short: seq<string>, h: Handler, argv: seq<string>) returns (argv': seq<string>)
    requires |full| == |short| && Abbreviates(m, Node(), full, short, 0) && Execute(Completing, m, Node(), full) == Outcome.Run(h, argv)
    ensures Execute(Completing, m, Node(), short) == Outcome.Run(h, argv')
    ensures argv == Args(Template(h), full) && argv' == Args(Template(h), short)
    ensures Fits(h, |argv|) && Fits(h, |argv'|)
    ensures ShortenedOffered(Template(h), full, short) && (!HasChoice(h) ==> argv' == argv)
  {
    argv' := Explained(m, full, short, h, argv);
    RunArgs(Completing, m, full, h, argv);
    RunArgs(Completing, m, short, h, argv');
    if !HasChoice(h) { NoChoiceIsSingle(h); }
  }

  /** Where a line of two words is abbreviated, its second word is the full one or a beginning of it. */
  lemma SecondBegins(m: Matchers, full: seq<string>, short: seq<string>, h: Handler, argv: seq<string>)
    requires |full| == |short| == 2 && Abbreviates(m, Node(), full, short, 0) && Execute(Completing, m, Node(), full) == Outcome.Run(h, argv)
    ensures short[1] <= full[1]
  {
    NodeOrdinary();
    RoundOrdinary(Completing, m, Node(), Node(), full[0], 0);
    var r := Narrow1(Completing, m, Node(), full[0], 0);
    assert r.Next?;
    assert Abbreviates(m, r.cmds, full, short, 1);
  }

  /** The effect on config_top is the same for every list. */
  ghost predicate SameEffect(h: Handler, argv: seq<string>, argv': seq<string>, env: Env)
    requires Fits(h, |argv|) && Fits(h, |argv'|)
  {
    forall top :: Effect(top, h, argv', env) == Effect(top, h, argv, env)
  }

  // ---- Different arguments leave different lists ----

  /** The line a choosing command is about. */
  function LineOf(h: Handler, argv: seq<string>): seq<string>
    requires HasChoice(h) && Fits(h, |argv|)
  {
    match h
    case Portmap | NoPortmap => ["sfirewall", "nat", "portmap"] + argv
    case Filter | NoFilter => ["sfirewall", "filter"] + argv
    case WgPeerEndpoint | WgPeerKeepalive => ["wg", "peer"] + ([argv[0]] + Runs.PeerRest(h, argv))
    case _ => []
  }

  lemma PeerLineDiffers(h: Handler, argv: seq<string>, argv': seq<string>)
    requires (h == WgPeerEndpoint || h == WgPeerKeepalive) && Fits(h, |argv|) && Fits(h, |argv'|) && argv != argv'
    ensures LineOf(h, argv) != LineOf(h, argv')
  {
    var a, b := LineOf(h, argv), LineOf(h, argv');
    assert a[2] == argv[0] && a[4] == argv[1] && a[6] == argv[2] && (h == WgPeerKeepalive ==> a[8] == argv[3]);
    assert b[2] == argv'[0] && b[4] == argv'[1] && b[6] == argv'[2] && (h == WgPeerKeepalive ==> b[8] == argv'[3]);
  }

  lemma JoinDiffers(lead: seq<string>, argv: seq<string>, argv': seq<string>)
    requires argv != argv'
    ensures lead + argv != lead + argv'
  {
    assert (lead + argv)[|lead|..] == argv && (lead + argv')[|lead|..] == argv';
  }

  predicate Lined(h: Handler) { h in [Portmap, NoPortmap, Filter, NoFilter, WgPeerEndpoint, WgPeerKeepalive] }

  lemma LinesDiffer(h: Handler, argv: seq<string>, argv': seq<string>)
    requires Lined(h) && Fits(h, |argv|) && Fits(h, |argv'|) && argv != argv' && AreWords(argv) && AreWords(argv')
    ensures Line(LineOf(h, argv)) != Line(LineOf(h, argv'))
  {
    match h {
      case Portmap | NoPortmap => JoinDiffers(["sfirewall", "nat", "portmap"], argv, argv');
      case Filter | NoFilter => JoinDiffers(["sfirewall", "filter"], argv, argv');
      case WgPeerEndpoint | WgPeerKeepalive => PeerLineDiffers(h, argv, argv');
    }
    LineOfWords(h, argv);
    LineOfWords(h, argv');
    if Line(LineOf(h, argv)) == Line(LineOf(h, argv')) { LineInjective(LineOf(h, argv), LineOf(h, argv')); }
  }

  lemma LineOfWords(h: Handler, argv: seq<string>)
    requires Lined(h) && Fits(h, |argv|) && AreWords(argv)
    ensures AreWords(LineOf(h, argv))
  {
    if h == WgPeerEndpoint || h == WgPeerKeepalive { PeerLineOfWords(h, argv); } else { FirewallWords(); }
  }

  lemma FirewallWords()
    ensures AreWords(["sfirewall", "nat", "portmap"]) && AreWords(["sfirewall", "filter"])
  {
  }

  lemma PeerLineOfWords(h: Handler, argv: seq<string>)
    requires (h == WgPeerEndpoint || h == WgPeerKeepalive) && Fits(h, |argv|) && AreWords(argv)
    ensures AreWords(LineOf(h, argv))
  {
    Runs.CleanPeerKeywords();
    Runs.CleanWgKeywords();
    assert AreWords(["wg", "peer"]) && AreWords(Runs.PeerRest(h, argv));
  }

  lemma AloneOnEmpty(ops: seq<Op>, l: string)
    requires EndsWithAdd(ops, l)
    ensures Apply([], ops) == [l]
  {
    DeletesNothing([], ops[..|ops| - 1]);
    InsertPosUnique([], l, Less, 0);
  }

  predicate Records(h: Handler) { h in [Portmap, Filter, WgPeerEndpoint, WgPeerKeepalive] }

  lemma RecordsLine(h: Handler, argv: seq<string>, env: Env)
    requires Records(h) && Fits(h, |argv|) && Plan(h, argv, env).Some?
    ensures Apply([], Plan(h, argv, env).value) == [Line(LineOf(h, argv))]
  {
    if h == Portmap || h == Filter {
      Reload.PlanAdds(h, argv, env);
    } else {
      Reload.PeerPlan(h, argv, env, Line(LineOf(h, argv)));
    }
    AloneOnEmpty(Plan(h, argv, env).value, Line(LineOf(h, argv)));
  }

  lemma RecordingsDiffer(h: Handler, argv: seq<string>, argv': seq<string>, env: Env)
    requires Records(h) && Fits(h, |argv|) && Fits(h, |argv'|) && argv != argv' && AreWords(argv) && AreWords(argv')
    requires Plan(h, argv, env).Some? || Plan(h, argv', env).Some?
    ensures Effect([], h, argv', env) != Effect([], h, argv, env)
  {
    LinesDiffer(h, argv, argv');
    if Plan(h, argv, env).Some? { RecordsLine(h, argv, env); }
    if Plan(h, argv', env).Some? { RecordsLine(h, argv', env); }
  }

  lemma DeletesItsLine(h: Handler, argv: seq<string>, env: Env, l: string)
    requires (h == NoPortmap || h == NoFilter) && Fits(h, |argv|) && Plan(h, argv, env).Some?
    ensures Apply([l], Plan(h, argv, env).value) == if l == Line(LineOf(h, argv)) then [] else [l]
  {
    var line := Line(LineOf(h, argv));
    assert Plan(h, argv, env).value == [Del(line)];
    Runs.ApplyOne([l], Del(line));
    FindUnique([l], x => x == line, if l == line then 0 else 1);
  }

  /** With the line of the arguments that are accepted, one of the two deletes it and the other does not. */
  lemma DeletionsDiffer(h: Handler, argv: seq<string>, argv': seq<string>, env: Env)
    requires (h == NoPortmap || h == NoFilter) && Fits(h, |argv|) && Fits(h, |argv'|)
    requires argv != argv' && AreWords(argv) && AreWords(argv') && Plan(h, argv, env).Some?
    ensures Effect([Line(LineOf(h, argv))], h, argv', env) != Effect([Line(LineOf(h, argv))], h, argv, env)
  {
    var l := Line(LineOf(h, argv));
    LinesDiffer(h, argv, argv');
    DeletesItsLine(h, argv, env, l);
    if Plan(h, argv', env).Some? { DeletesItsLine(h, argv', env, l); }
  }

  lemma LinksDiffer(argv: seq<string>, argv': seq<string>, env: Env)
    requires argv == ["link-up"] && |argv'| == 1 && argv' != argv
    ensures Effect([], WgLink, argv', env) != Effect([], WgLink, argv, env)
  {
    AloneOnEmpty(LinkOps(argv[0]), "wg link-up");
    AloneOnEmpty(LinkOps(argv'[0]), "wg link-down");
    assert |"wg link-up"| != |"wg link-down"|;
  }

  lemma {:induction false} ArgsAreWords(t: seq<seq<string>>, words: seq<string>)
    requires AreWords(words)
    ensures AreWords(Args(t, words))
  {
    if |words| > 0 { ArgsAreWords(t, words[..|words| - 1]); }
  }

  // ---- Exactly when ----

  /** The abbreviation did no harm: the handler got the full words anyway, never touches the list, takes any beginning of
      link-down for it, or refuses both lines. */
  predicate Harmless(h: Handler, argv: seq<string>, argv': seq<string>, env: Env)
    requires Fits(h, |argv|) && Fits(h, |argv'|)
  {
    || argv' == argv
    || h.Other?
    || (h == WgLink && argv == ["link-down"])
    || (Plan(h, argv, env).None? && Plan(h, argv', env).None?)
  }

  lemma HarmlessIsSame(h: Handler, argv: seq<string>, argv': seq<string>, env: Env)
    requires Fits(h, |argv|) && Fits(h, |argv'|) && Harmless(h, argv, argv', env)
    requires h == WgLink && argv == ["link-down"] ==> argv'[0] != "link-up"
    ensures SameEffect(h, argv, argv', env)
  {
    if h == WgLink && argv == ["link-down"] {
      assert LinkOps(argv'[0]) == LinkOps(argv[0]);
    }
  }

  lemma HarmIsSeen(h: Handler, argv: seq<string>, argv': seq<string>, env: Env)
    requires Fits(h, |argv|) && Fits(h, |argv'|) && AreWords(argv) && AreWords(argv') && !Harmless(h, argv, argv', env)
    requires HasChoice(h) && LinkShortened(h, argv, argv')
    ensures !SameEffect(h, argv, argv', env)
  {
    if Records(h) {
      RecordingsDiffer(h, argv, argv', env);
    } else if h == WgLink {
      LinksDiffer(argv, argv', env);
    } else if Plan(h, argv, env).Some? {
      DeletionsDiffer(h, argv, argv', env);
    } else {
      DeletionsDiffer(h, argv', argv, env);
    }
  }

  lemma LinkLine(m: Matchers, full: seq<string>, short: seq<string>, h: Handler, argv: seq<string>, argv': seq<string>)
    requires |full| == |short| && Abbreviates(m, Node(), full, short, 0)
    requires Execute(Completing, m, Node(), full) == Outcome.Run(h, argv) && Execute(Completing, m, Node(), short) == Outcome.Run(h, argv')
    requires ShortenedOffered(Template(h), full, short)
    ensures LinkShortened(h, argv, argv')
  {
    if h == WgLink {
      RunArgs(Completing, m, full, WgLink, argv);
      RunArgs(Completing, m, short, WgLink, argv');
      SecondBegins(m, full, short, WgLink, argv);
      assert Template(WgLink)[1] == ["link-up", "link-down"];
    }
  }

  /** What an abbreviated link line hands to the handler instead of the full word. */
  predicate LinkShortened(h: Handler, argv: seq<string>, argv': seq<string>) {
    h == WgLink && argv' != argv ==>
      |argv| == |argv'| == 1 && argv'[0] <= argv[0] && (argv[0] == "link-up" || argv[0] == "link-down")
  }

  lemma EffectIff(h: Handler, argv: seq<string>, argv': seq<string>, env: Env)
    requires Fits(h, |argv|) && Fits(h, |argv'|) && AreWords(argv) && AreWords(argv')
    requires (!HasChoice(h) ==> argv' == argv) && LinkShortened(h, argv, argv')
    ensures SameEffect(h, argv, argv', env) <==> Harmless(h, argv, argv', env)
  {
    if Harmless(h, argv, argv', env) {
      assert "link-up"[5] != "link-down"[5];
      HarmlessIsSame(h, argv, argv', env);
    } else {
      HarmIsSeen(h, argv, argv', env);
    }
  }

  /** The effect of an abbreviated line on config_top is that of the full line for every list exactly when the
      abbreviation is harmless. */
  lemma AbbreviationKeepsEffectIff(m: Matchers, env: Env, full: seq<string>, short: seq<string>, h: Handler, argv: seq<string>)
    returns (argv': seq<string>)
    requires |full| == |short| && AreWords(full) && AreWords(short) && Abbreviates(m, Node(), full, short, 0)
    requires Execute(Completing, m, Node(), full) == Outcome.Run(h, argv)
    ensures Execute(Completing, m, Node(), short) == Outcome.Run(h, argv') && Fits(h, |argv|) && Fits(h, |argv'|)
    ensures SameEffect(h, argv, argv', env) <==> Harmless(h, argv, argv', env)
  {
    argv' := SameHandler(m, full, short, h, argv);
    ArgsAreWords(Template(h), full);
    ArgsAreWords(Template(h), short);
    LinkLine(m, full, short, h, argv, argv');
    EffectIff(h, argv, argv', env);
  }
}
