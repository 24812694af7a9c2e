/** A typed line from the terminal to the recorded configuration, in the configuration node. */
module Shell {
  import opened CText
  import opened Sequences
  import opened Handlers
  import opened Matching
  import opened Commands
  import opened Tokenizer
  import Shortcuts
  import Executor

  ghost function Node(): seq<Element> { Install(INSTALLED) }

  // ---- Every installed template uses only keywords, variables, options and A.B.C.D ----

  /** Neither a vararg, a range, an IPv6 address nor an address with prefix length. */
  predicate OrdinaryWord(s: string) {
    |s| > 0 && s[0] != '.' && s[0] != '<' && s[0] != 'X' && (|s| == 9 ==> s[8] != 'M')
  }

  /** Ordinary words everywhere, and an option at most at the end. */
  predicate Ordinary(t: seq<seq<string>>) {
    forall k :: 0 <= k < |t| ==>
      && |t[k]| > 0
      && (forall j :: 0 <= j < |t[k]| ==> OrdinaryWord(t[k][j]))
      && (k < |t| - 1 ==> t[k][0][0] != '[')
  }

  lemma PlainOrdinary(p: Plain)
    ensures Ordinary(PlainTemplate(p))
  {
  }

  lemma FirewallParts()
    ensures Ordinary(PORTMAP_ARGS) && Ordinary(FILTER_ARGS)
    ensures Ordinary([["sfirewall"], ["nat"], ["portmap"]]) && Ordinary([["no"], ["sfirewall"], ["nat"], ["portmap"]])
    ensures Ordinary([["sfirewall"], ["filter"]]) && Ordinary([["no"], ["sfirewall"], ["filter"]])
  {
  }

  lemma SimpleOrdinary(h: Handler)
    requires h in [IpAddress, NoIpAddress, IpAddressDhcp, IpRoute, NoIpRoute, Dns, NoDns]
    ensures Ordinary(Template(h))
  {
  }

  lemma PeerOrdinary()
    ensures Ordinary(ALLOWED) && Ordinary(ENDPOINT) && Ordinary(Template(WgPeerKeepalive))
  {
  }

  lemma FirewallOrdinary()
    ensures Ordinary(Template(Portmap)) && Ordinary(Template(NoPortmap)) && Ordinary(Template(Filter)) && Ordinary(Template(NoFilter))
  {
    FirewallParts();
  }

  lemma TemplateOrdinary(h: Handler)
    ensures Ordinary(Template(h))
  {
    match h {
      case Other(p) => PlainOrdinary(p);
      case Portmap | NoPortmap | Filter | NoFilter => FirewallOrdinary();
      case WgPeer =>
      case WgPeerAllowedIps | WgPeerEndpoint | WgPeerKeepalive => PeerOrdinary();
      case IpAddress | NoIpAddress | IpAddressDhcp | IpRoute | NoIpRoute | Dns | NoDns => SimpleOrdinary(h);
      case _ => OtherOrdinary(h);
    }
  }

  lemma OtherOrdinary(h: Handler)
    requires h in [BridgeDisable, NoBridgeDisable, BridgeAdd, NoBridgeAdd, Hostname, NoHostname, WgListenport, NoWgPeer, WgLink]
    ensures Ordinary(Template(h))
  {
  }

  lemma NodeElement(c: Element)
    requires c in Node()
    ensures c.strvec == Template(c.id) && c.id in INSTALLED && Ordinary(c.strvec)
  {
    InstalledTemplates(INSTALLED, c);
    TemplateOrdinary(c.id);
  }

  // ---- What a command that runs says about the typed words ----

  /** The word is some alternative of the position: the keyword itself (strictly) or a beginning of it, or a variable. */
  ghost predicate WordFits(mode: Mode, descs: seq<string>, word: string) {
    exists s :: s in descs && (IsLiteral(s) ==> if mode.Strict? then word == s else word <= s)
  }

  ghost predicate AllOrdinary(cmds: seq<Element>) {
    forall c :: c in cmds ==> Ordinary(c.strvec)
  }

  ghost predicate Among(cmds: seq<Element>, all: seq<Element>) {
    forall c :: c in cmds ==> c in all
  }

  /** The match types that ordinary templates produce. */
  predicate OrdinaryType(mode: Mode, t: MatchType) {
    t == NO_MATCH || t == EXTEND_MATCH || t == IPV4_MATCH || t == EXACT_MATCH || (mode.Completing? && t == PARTLY_MATCH)
  }

  lemma OrdinaryElement(mode: Mode, m: Matchers, c: Element, word: string, index: nat)
    requires Ordinary(c.strvec)
    ensures OrdinaryType(mode, ElementMatch(mode, m, c, word, index))
  {
    var t := ElementMatch(mode, m, c, word, index);
    if t != NO_MATCH {
      var s := PositionMatchAttained(mode, m, c.strvec[index], word);
    }
  }

  lemma OrdinaryFilterType(mode: Mode, m: Matchers, all: seq<Element>, cmds: seq<Element>, word: string, index: nat)
    requires AllOrdinary(all) && Among(cmds, all)
    ensures OrdinaryType(mode, FilterType(mode, m, cmds, word, index))
  {
    if FilterType(mode, m, cmds, word, index) != NO_MATCH {
      var c := FilterTypeAttained(mode, m, cmds, word, index);
      OrdinaryElement(mode, m, c, word, index);
    }
  }

  lemma HitFits(mode: Mode, m: Matchers, t: MatchType, c: Element, word: string, index: nat)
    requires Ordinary(c.strvec) && OrdinaryType(mode, t) && ElementHit(m, t, c, word, index)
    ensures index < |c.strvec| && WordFits(mode, c.strvec[index], word)
  {
    var s :| s in c.strvec[index] && Hits(m, t, s, word);
  }

  lemma RoundSurvivor(mode: Mode, m: Matchers, all: seq<Element>, cmds: seq<Element>, word: string, index: nat, d: Element)
    requires AllOrdinary(all) && Among(cmds, all)
    requires var r := Narrow1(mode, m, cmds, word, index); r.Next? && d in r.cmds
    ensures d in cmds && index < |d.strvec| && WordFits(mode, d.strvec[index], word)
    ensures PositionMatch(mode, m, d.strvec[index], word) != NO_MATCH
  {
    var r := Narrow1(mode, m, cmds, word, index);
    OrdinaryFilterType(mode, m, all, cmds, word, index);
    KeepMember(FilterKeep(mode, m, cmds, word, index), d => ElementHit(m, r.t, d, word, index), d);
    KeepMember(cmds, d => ElementMatch(mode, m, d, word, index) != NO_MATCH, d);
    HitFits(mode, m, r.t, d, word, index);
  }

  lemma RoundOrdinary(mode: Mode, m: Matchers, all: seq<Element>, cmds: seq<Element>, word: string, index: nat)
    requires AllOrdinary(all) && Among(cmds, all)
    ensures var r := Narrow1(mode, m, cmds, word, index);
            if r.Stop? then !r.end.Left? else r.t != VARARG_MATCH && Among(r.cmds, all)
  {
    OrdinaryFilterType(mode, m, all, cmds, word, index);
    var r := Narrow1(mode, m, cmds, word, index);
    if r.Next? {
      forall d | d in r.cmds ensures d in all {
        RoundSurvivor(mode, m, all, cmds, word, index, d);
      }
    }
  }

  /** A command that reaches the end of the line fits word i of it. */
  lemma {:induction false} NarrowFits(mode: Mode, m: Matchers, all: seq<Element>, cmds: seq<Element>, words: seq<string>, index: nat, last: MatchType, c: Element, i: nat)
    requires index <= i < |words| && AllOrdinary(all) && Among(cmds, all)
    requires var n := Narrow(mode, m, cmds, words, index, last); n.Left? && c in n.cmds
    ensures i < |c.strvec| && WordFits(mode, c.strvec[i], words[i]) && PositionMatch(mode, m, c.strvec[i], words[i]) != NO_MATCH
    decreases |words| - index
  {
    var r := Narrow1(mode, m, cmds, words[index], index);
    RoundOrdinary(mode, m, all, cmds, words[index], index);
    if index == i {
      Shortcuts.Survivors(mode, m, r.cmds, words, index + 1, r.t, c);
      RoundSurvivor(mode, m, all, cmds, words[index], index, c);
    } else {
      NarrowFits(mode, m, all, r.cmds, words, index + 1, r.t, c, i);
    }
  }

  lemma {:induction false} NarrowEnds(mode: Mode, m: Matchers, all: seq<Element>, cmds: seq<Element>, words: seq<string>, index: nat, last: MatchType)
    requires index <= |words| && AllOrdinary(all) && Among(cmds, all) && last != VARARG_MATCH
    ensures var n := Narrow(mode, m, cmds, words, index, last); n.Left? ==> n.index == |words| && n.last != VARARG_MATCH
    decreases |words| - index
  {
    if index < |words| {
      var r := Narrow1(mode, m, cmds, words[index], index);
      RoundOrdinary(mode, m, all, cmds, words[index], index);
      if r.Next? {
        NarrowEnds(mode, m, all, r.cmds, words, index + 1, r.t);
      }
    }
  }

  /** The element that runs from any vector of ordinary templates. */
  lemma ChosenElement(mode: Mode, m: Matchers, cmds: seq<Element>, words: seq<string>, h: Handler, argv: seq<string>) returns (c: Element)
    requires AllOrdinary(cmds) && Execute(mode, m, cmds, words) == Run(h, argv)
    ensures c in cmds && c.id == h && argv == Args(c.strvec, words)
    ensures CmdSize(c.strvec) <= |words| && (|words| > 0 ==> |words| <= |c.strvec|)
    ensures var n := Narrow(mode, m, cmds, words, 0, NO_MATCH); n.Left? && c in n.cmds
  {
    var n := Narrow(mode, m, cmds, words, 0, NO_MATCH);
    c := CompleteOnly(n.cmds, n.index, n.last)[0];
    KeepMember(n.cmds, c => Complete(c, n.index, n.last), c);
    NarrowEnds(mode, m, cmds, cmds, words, 0, NO_MATCH);
    Shortcuts.Survivors(mode, m, cmds, words, 0, NO_MATCH, c);
    if |words| > 0 { NarrowFits(mode, m, cmds, cmds, words, 0, NO_MATCH, c, |words| - 1); }
  }

  lemma NodeOrdinary()
    ensures AllOrdinary(Node())
  {
    forall c | c in Node() ensures Ordinary(c.strvec) { NodeElement(c); }
  }

  /** The command that runs is installed, the line has the length of its template (a trailing option may be
      missing), its arguments are those the template passes, and every word fits its position. */
  lemma RunFacts(mode: Mode, m: Matchers, words: seq<string>, h: Handler, argv: seq<string>)
    requires Execute(mode, m, Node(), words) == Run(h, argv)
    ensures h in INSTALLED && argv == Args(Template(h), words)
    ensures CmdSize(Template(h)) <= |words| <= |Template(h)|
    ensures forall i :: 0 <= i < |words| ==> WordFits(mode, Template(h)[i], words[i])
  {
    NodeOrdinary();
    var c := ChosenElement(mode, m, Node(), words, h, argv);
    NodeElement(c);
    forall i | 0 <= i < |words| ensures i < |c.strvec| && WordFits(mode, c.strvec[i], words[i]) {
      NarrowFits(mode, m, Node(), Node(), words, 0, NO_MATCH, c, i);
    }
  }

  /** One word of a line that runs: it fits its position and matches it. */
  lemma RunFit(mode: Mode, m: Matchers, words: seq<string>, h: Handler, argv: seq<string>, i: nat, descs: seq<string>)
    requires Execute(mode, m, Node(), words) == Run(h, argv) && i < |words|
    requires i < |Template(h)| ==> Template(h)[i] == descs
    ensures WordFits(mode, descs, words[i]) && PositionMatch(mode, m, descs, words[i]) != NO_MATCH
  {
    NodeOrdinary();
    var c := ChosenElement(mode, m, Node(), words, h, argv);
    NodeElement(c);
    NarrowFits(mode, m, Node(), Node(), words, 0, NO_MATCH, c, i);
  }

  // ---- The arguments of each handler ----

  lemma {:induction false} ArgsTail(t: seq<seq<string>>, words: seq<string>, k: nat)
    requires k <= |words|
    requires forall i :: 0 <= i < |words| ==> (Passed(t, i) <==> k <= i)
    ensures Args(t, words) == words[k..]
    decreases |words|
  {
    if |words| > k {
      ArgsTail(t, words[..|words| - 1], k);
      assert words[k..] == words[..|words| - 1][k..] + [words[|words| - 1]];
    } else {
      ArgsNone(t, words);
    }
  }

  lemma {:induction false} ArgsNone(t: seq<seq<string>>, words: seq<string>)
    requires forall i :: 0 <= i < |words| ==> !Passed(t, i)
    ensures Args(t, words) == []
  {
    if |words| > 0 { ArgsNone(t, words[..|words| - 1]); }
  }

  lemma {:induction false} SizeOfOrdinary(t: seq<seq<string>>)
    requires Ordinary(t)
    ensures CmdSize(t) >= |t| - 1
    ensures |t| > 0 && t[|t| - 1][0][0] != '[' ==> CmdSize(t) == |t|
  {
    if |t| > 1 {
      assert Ordinary(t[1..]);
      SizeOfOrdinary(t[1..]);
    }
  }

  /** For most handlers the template is some keywords followed by what is passed. */
  function Lead(h: Handler): Option<nat> {
    match h
    case BridgeAdd | Hostname | Dns | WgLink => Some(1)
    case BridgeDisable | NoBridgeAdd | NoHostname | IpAddress | IpRoute | NoDns | Filter | WgListenport | WgPeer => Some(2)
    case NoBridgeDisable | NoIpAddress | NoIpRoute | Portmap | NoFilter | NoWgPeer => Some(3)
    case NoPortmap => Some(4)
    case _ => None
  }

  predicate AllPassed(t: seq<seq<string>>) { forall i :: 0 <= i < |t| ==> Passed(t, i) }

  predicate NonePassed(t: seq<seq<string>>) { forall i :: 0 <= i < |t| ==> !Passed(t, i) }

  lemma PassedJoin(a: seq<seq<string>>, b: seq<seq<string>>)
    requires NonePassed(a) && AllPassed(b)
    ensures forall i :: 0 <= i < |a + b| ==> (Passed(a + b, i) <==> |a| <= i)
  {
    forall i | 0 <= i < |a + b| ensures Passed(a + b, i) <==> |a| <= i {
      assert i < |a| ==> (a + b)[i] == a[i] && !Passed(a, i);
      assert i >= |a| ==> (a + b)[i] == b[i - |a|] && Passed(b, i - |a|);
    }
  }

  lemma LeadFirewall(h: Handler)
    requires h in [Portmap, NoPortmap, Filter, NoFilter]
    ensures Lead(h).value <= |Template(h)|
    ensures forall i :: 0 <= i < |Template(h)| ==> (Passed(Template(h), i) <==> Lead(h).value <= i)
  {
    match h {
      case Portmap => PassedJoin([["sfirewall"], ["nat"], ["portmap"]], PORTMAP_ARGS);
      case NoPortmap => PassedJoin([["no"], ["sfirewall"], ["nat"], ["portmap"]], PORTMAP_ARGS);
      case Filter => PassedJoin([["sfirewall"], ["filter"]], FILTER_ARGS);
      case NoFilter => PassedJoin([["no"], ["sfirewall"], ["filter"]], FILTER_ARGS);
    }
  }

  lemma LeadPassed(h: Handler)
    requires Lead(h).Some?
    ensures Lead(h).value <= |Template(h)|
    ensures forall i :: 0 <= i < |Template(h)| ==> (Passed(Template(h), i) <==> Lead(h).value <= i)
  {
    match h {
      case Portmap | NoPortmap | Filter | NoFilter => LeadFirewall(h);
      case _ =>
    }
  }

  /** Every second word of a peer command is passed. */
  lemma PeerPassed()
    ensures var t := Template(WgPeerKeepalive);
            |t| == 9 && forall i :: 0 <= i < 9 ==> (Passed(t, i) <==> EverySecond(i))
    ensures ALLOWED == Template(WgPeerKeepalive)[..5] && ENDPOINT == Template(WgPeerKeepalive)[..7]
  {
  }

  predicate EverySecond(i: nat) { i == 2 || i == 4 || i == 6 || i == 8 }

  lemma ArgsTwoMore(t: seq<seq<string>>, words: seq<string>, k: nat)
    requires k + 2 <= |words| && !Passed(t, k) && Passed(t, k + 1)
    ensures Args(t, words[..k + 2]) == Args(t, words[..k]) + [words[k + 1]]
  {
    Executor.ArgsSnoc(t, words, k);
    Executor.ArgsSnoc(t, words, k + 1);
  }

  lemma ArgsOne(t: seq<seq<string>>, words: seq<string>)
    requires |words| >= 3 && !Passed(t, 0) && !Passed(t, 1) && Passed(t, 2)
    ensures Args(t, words[..3]) == [words[2]]
  {
    ArgsTail(t, words[..3], 2);
  }

  /** A keyword and a variable in turn. */
  lemma PeerArgs(t: seq<seq<string>>, words: seq<string>)
    requires |words| == 5 || |words| == 7 || |words| == 9
    requires forall i :: 0 <= i < |words| ==> (Passed(t, i) <==> EverySecond(i))
    ensures Args(t, words) == if |words| == 5 then [words[2], words[4]]
            else if |words| == 7 then [words[2], words[4], words[6]] else [words[2], words[4], words[6], words[8]]
  {
    ArgsOne(t, words);
    ArgsTwoMore(t, words, 3);
    if |words| >= 7 { ArgsTwoMore(t, words, 5); }
    if |words| >= 9 { ArgsTwoMore(t, words, 7); }
    assert words[..|words|] == words;
  }

  lemma DhcpArgs(words: seq<string>)
    requires |words| == 4
    ensures Args(Template(IpAddressDhcp), words) == [words[2]]
  {
    var t := Template(IpAddressDhcp);
    ArgsTail(t, words[..3], 2);
    Executor.ArgsSnoc(t, words, 3);
    assert words[..4] == words;
  }

  /** Templates without an option must be typed in full. */
  lemma FullLength(h: Handler, n: nat)
    requires CmdSize(Template(h)) <= n <= |Template(h)|
    requires var t := Template(h); |t| > 0 && |t[|t| - 1]| > 0 && |t[|t| - 1][0]| > 0 && t[|t| - 1][0][0] != '['
    ensures n == |Template(h)|
  {
    TemplateOrdinary(h);
    SizeOfOrdinary(Template(h));
  }

  /** The handler that runs gets the arguments it expects: all words behind the leading keywords, or for the
      commands with keywords in between, the words at the variable positions. */
  lemma RunArgs(mode: Mode, m: Matchers, words: seq<string>, h: Handler, argv: seq<string>)
    requires Execute(mode, m, Node(), words) == Run(h, argv)
    ensures Fits(h, |argv|)
    ensures Lead(h).Some? ==> Lead(h).value <= |words| && argv == words[Lead(h).value..]
    ensures h == IpAddressDhcp ==> |words| == 4 && argv == [words[2]]
    ensures h == WgPeerAllowedIps ==> |words| == 5 && argv == [words[2], words[4]]
    ensures h == WgPeerEndpoint ==> |words| == 7 && argv == [words[2], words[4], words[6]]
    ensures h == WgPeerKeepalive ==> |words| == 9 && argv == [words[2], words[4], words[6], words[8]]
  {
    RunFacts(mode, m, words, h, argv);
    ArgsByHandler(h, words);
  }

  lemma ArgsByHandler(h: Handler, words: seq<string>)
    requires CmdSize(Template(h)) <= |words| <= |Template(h)|
    ensures var argv := Args(Template(h), words);
      && Fits(h, |argv|)
      && (Lead(h).Some? ==> Lead(h).value <= |words| && argv == words[Lead(h).value..])
      && (h == IpAddressDhcp ==> |words| == 4 && argv == [words[2]])
      && (h == WgPeerAllowedIps ==> |words| == 5 && argv == [words[2], words[4]])
      && (h == WgPeerEndpoint ==> |words| == 7 && argv == [words[2], words[4], words[6]])
      && (h == WgPeerKeepalive ==> |words| == 9 && argv == [words[2], words[4], words[6], words[8]])
  {
    if Lead(h).Some? {
      LeadArgs(h, words);
    } else if h == IpAddressDhcp {
      FullLength(h, |words|);
      DhcpArgs(words);
    } else if !h.Other? {
      PeerHandlerArgs(h, words);
    }
  }

  lemma LeadArgs(h: Handler, words: seq<string>)
    requires CmdSize(Template(h)) <= |words| <= |Template(h)| && Lead(h).Some?
    ensures Lead(h).value <= |words| && Args(Template(h), words) == words[Lead(h).value..]
    ensures Fits(h, |words| - Lead(h).value)
  {
    LeadSize(h, |words|);
    LeadRest(h, words, Template(h), Lead(h).value);
  }

  lemma LeadRest(h: Handler, words: seq<string>, t: seq<seq<string>>, k: nat)
    requires t == Template(h) && Lead(h) == Some(k) && k <= |words| <= |t|
    ensures Args(t, words) == words[k..]
  {
    LeadPassed(h);
    LeadTail(t, words, k);
  }

  lemma LeadTail(t: seq<seq<string>>, words: seq<string>, k: nat)
    requires k <= |words| <= |t|
    requires forall i :: 0 <= i < |t| ==> (Passed(t, i) <==> k <= i)
    ensures Args(t, words) == words[k..]
  {
    ArgsTail(t, words, k);
  }

  lemma LeadSize(h: Handler, n: nat)
    requires CmdSize(Template(h)) <= n <= |Template(h)| && Lead(h).Some?
    ensures Lead(h).value <= n && Fits(h, n - Lead(h).value)
  {
    if h == NoHostname {
      TemplateOrdinary(h);
      SizeOfOrdinary(Template(h));
    } else {
      FullLength(h, n);
    }
  }

  lemma PassedInPrefix(full: seq<seq<string>>, k: nat)
    requires k <= |full| && forall i :: 0 <= i < |full| ==> (Passed(full, i) <==> EverySecond(i))
    ensures forall i :: 0 <= i < k ==> (Passed(full[..k], i) <==> EverySecond(i))
  {
    forall i | 0 <= i < k ensures Passed(full[..k], i) <==> EverySecond(i) { assert full[..k][i] == full[i]; }
  }

  lemma PeerTemplate(h: Handler)
    requires h == WgPeerAllowedIps || h == WgPeerEndpoint || h == WgPeerKeepalive
    ensures var k := if h == WgPeerAllowedIps then 5 else if h == WgPeerEndpoint then 7 else 9;
            |Template(WgPeerKeepalive)| == 9 && Template(h) == Template(WgPeerKeepalive)[..k]
  {
    PeerPassed();
    assert Template(WgPeerKeepalive)[..9] == Template(WgPeerKeepalive);
  }

  lemma PeerHandlerArgs(h: Handler, words: seq<string>)
    requires h == WgPeerAllowedIps || h == WgPeerEndpoint || h == WgPeerKeepalive
    requires CmdSize(Template(h)) <= |words| <= |Template(h)|
    ensures |words| == |Template(h)| == (if h == WgPeerAllowedIps then 5 else if h == WgPeerEndpoint then 7 else 9)
    ensures Args(Template(h), words) == if |words| == 5 then [words[2], words[4]]
            else if |words| == 7 then [words[2], words[4], words[6]] else [words[2], words[4], words[6], words[8]]
  {
    var k := if h == WgPeerAllowedIps then 5 else if h == WgPeerEndpoint then 7 else 9;
    PeerPassed();
    PeerTemplate(h);
    PassedInPrefix(Template(WgPeerKeepalive), k);
    PeerLength(h, |words|);
    PeerArgs(Template(h), words);
  }

  lemma PeerLength(h: Handler, n: nat)
    requires h == WgPeerAllowedIps || h == WgPeerEndpoint || h == WgPeerKeepalive
    requires CmdSize(Template(h)) <= n <= |Template(h)|
    ensures n == |Template(h)|
  {
    FullLength(h, n);
  }
}
