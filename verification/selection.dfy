/** Concrete selections in the configuration node: which single command some lines reach. */
module Selection {
  import opened CText
  import opened Sequences
  import opened Handlers
  import opened Matching
  import opened Commands
  import opened Shell
  import Shortcuts
  import Executor
  import Ipv4

  // ---- No command is installed twice ----

  function PlainRank(p: Plain): nat {
    match p
    case ShowVersion => 4 case Exit => 5 case WriteTerminal => 6 case WriteFile => 7 case WriteMemory => 8 case Write => 9
    case ShowRunningConfig => 10 case ShowStartupConfig => 11 case Ping => 14 case PingCount => 15 case Reboot => 16
    case Poweroff => 17 case Ssh => 18 case SshPort => 19 case ShowDate => 20 case EndShell => 21 case ShowIpAddress => 22
    case ShowIpConfig => 23 case ShowIpConfigName => 24 case ShowIpRoute => 25 case PortmapApply => 35 case FilterApply => 38
    case ShowSfirewall => 39 case ShowWg => 40 case ShowWgConf => 41 case WgRekey => 49 case WgClearkey => 50
  }

  /** The slot of a command in the order of installation. */
  function Rank(h: Handler): nat {
    match h
    case BridgeDisable => 0 case NoBridgeDisable => 1 case BridgeAdd => 2 case NoBridgeAdd => 3
    case Hostname => 12 case NoHostname => 13
    case IpAddress => 26 case NoIpAddress => 27 case IpAddressDhcp => 28 case IpRoute => 29 case NoIpRoute => 30
    case Dns => 31 case NoDns => 32 case Portmap => 33 case NoPortmap => 34 case Filter => 36 case NoFilter => 37
    case WgListenport => 42 case WgPeer => 43 case WgPeerAllowedIps => 44 case WgPeerEndpoint => 45 case WgPeerKeepalive => 46
    case NoWgPeer => 47 case WgLink => 48
    case Other(p) => PlainRank(p)
  }

  ghost predicate Ranked(hs: seq<Handler>, from: nat) {
    forall i {:trigger hs[i]} :: 0 <= i < |hs| ==> Rank(hs[i]) == from + i
  }

  lemma RankedJoin(a: seq<Handler>, b: seq<Handler>, from: nat)
    requires Ranked(a, from) && Ranked(b, from + |a|)
    ensures Ranked(a + b, from)
  {
  }

  lemma RankedMore(hs: seq<Handler>, h: Handler, from: nat)
    requires Ranked(hs, from) && Rank(h) == from + |hs|
    ensures Ranked(hs + [h], from)
  {
    RankedJoin(hs, [h], from);
  }

  lemma RankedFour(a: Handler, b: Handler, c: Handler, d: Handler, from: nat)
    requires Rank(a) == from && Rank(b) == from + 1 && Rank(c) == from + 2 && Rank(d) == from + 3
    ensures Ranked([a, b, c, d], from)
  {
    RankedMore([], a, from);
    assert [] + [a] == [a];
    RankedMore([a], b, from);
    assert [a] + [b] == [a, b];
    RankedMore([a, b], c, from);
    assert [a, b] + [c] == [a, b, c];
    RankedMore([a, b, c], d, from);
    assert [a, b, c] + [d] == [a, b, c, d];
  }

  lemma RankedThree(a: Handler, b: Handler, c: Handler, from: nat)
    requires Rank(a) == from && Rank(b) == from + 1 && Rank(c) == from + 2
    ensures Ranked([a, b, c], from)
  {
  }

  lemma RankedBridge()
    ensures Ranked(BRIDGE_INIT, 0) && |BRIDGE_INIT| == 4
  {
    RankedFour(BridgeDisable, NoBridgeDisable, BridgeAdd, NoBridgeAdd, 0);
  }

  lemma RankedCommon()
    ensures Ranked(COMMON_INIT, 4) && |COMMON_INIT| == 10
  {
    var a: seq<Handler> := [Other(ShowVersion), Other(Exit), Other(WriteTerminal), Other(WriteFile)];
    var b: seq<Handler> := [Other(WriteMemory), Other(Write), Other(ShowRunningConfig), Other(ShowStartupConfig)];
    RankedFour(Other(ShowVersion), Other(Exit), Other(WriteTerminal), Other(WriteFile), 4);
    RankedFour(Other(WriteMemory), Other(Write), Other(ShowRunningConfig), Other(ShowStartupConfig), 8);
    RankedJoin(a, b, 4);
    RankedJoin(a + b, [Hostname, NoHostname], 4);
  }

  lemma RankedTools()
    ensures Ranked(TOOL_INIT, 14) && |TOOL_INIT| == 8
  {
    RankedFour(Other(Ping), Other(PingCount), Other(Reboot), Other(Poweroff), 14);
    RankedFour(Other(Ssh), Other(SshPort), Other(ShowDate), Other(EndShell), 18);
    RankedJoin([Other(Ping), Other(PingCount), Other(Reboot), Other(Poweroff)], [Other(Ssh), Other(SshPort), Other(ShowDate), Other(EndShell)], 14);
  }

  const IP_SHOWS: seq<Handler> := [Other(ShowIpAddress), Other(ShowIpConfig), Other(ShowIpConfigName), Other(ShowIpRoute)]
  const IP_SETS: seq<Handler> := [IpAddress, NoIpAddress, IpAddressDhcp, IpRoute]

  lemma RankedIpParts()
    ensures Ranked(IP_SHOWS, 22) && Ranked(IP_SETS, 26) && |IP_SHOWS| == 4 && |IP_SETS| == 4
  {
    RankedFour(Other(ShowIpAddress), Other(ShowIpConfig), Other(ShowIpConfigName), Other(ShowIpRoute), 22);
    RankedFour(IpAddress, NoIpAddress, IpAddressDhcp, IpRoute, 26);
  }

  lemma RankedIp()
    ensures Ranked(IP_INIT, 22) && |IP_INIT| == 11
  {
    RankedIpParts();
    RankedThree(NoIpRoute, Dns, NoDns, 30);
    RankedJoin(IP_SHOWS, IP_SETS, 22);
    RankedJoin(IP_SHOWS + IP_SETS, [NoIpRoute, Dns, NoDns], 22);
  }

  lemma RankedFirewall()
    ensures Ranked(FIREWALL_INIT, 33) && |FIREWALL_INIT| == 7
  {
    RankedFour(Portmap, NoPortmap, Other(PortmapApply), Filter, 33);
    RankedThree(NoFilter, Other(FilterApply), Other(ShowSfirewall), 37);
    RankedJoin([Portmap, NoPortmap, Other(PortmapApply), Filter], [NoFilter, Other(FilterApply), Other(ShowSfirewall)], 33);
  }

  const VPN_FIRST: seq<Handler> := [Other(ShowWg), Other(ShowWgConf), WgListenport, WgPeer]
  const VPN_PEERS: seq<Handler> := [WgPeerAllowedIps, WgPeerEndpoint, WgPeerKeepalive, NoWgPeer]

  lemma RankedVpnParts()
    ensures Ranked(VPN_FIRST, 40) && Ranked(VPN_PEERS, 44) && |VPN_FIRST| == 4 && |VPN_PEERS| == 4
  {
    RankedFour(Other(ShowWg), Other(ShowWgConf), WgListenport, WgPeer, 40);
    RankedFour(WgPeerAllowedIps, WgPeerEndpoint, WgPeerKeepalive, NoWgPeer, 44);
  }

  lemma RankedVpn()
    ensures Ranked(VPN_INIT, 40)
  {
    RankedVpnParts();
    RankedThree(WgLink, Other(WgRekey), Other(WgClearkey), 48);
    RankedJoin(VPN_FIRST, VPN_PEERS, 40);
    RankedJoin(VPN_FIRST + VPN_PEERS, [WgLink, Other(WgRekey), Other(WgClearkey)], 40);
  }

  lemma InstalledRanked()
    ensures Ranked(INSTALLED, 0)
  {
    RankedBridge();
    RankedCommon();
    RankedTools();
    RankedIp();
    RankedFirewall();
    RankedVpn();
    RankedJoin(BRIDGE_INIT, COMMON_INIT, 0);
    RankedJoin(BRIDGE_INIT + COMMON_INIT, TOOL_INIT, 0);
    RankedJoin(BRIDGE_INIT + COMMON_INIT + TOOL_INIT, IP_INIT, 0);
    RankedJoin(BRIDGE_INIT + COMMON_INIT + TOOL_INIT + IP_INIT, FIREWALL_INIT, 0);
    RankedJoin(BRIDGE_INIT + COMMON_INIT + TOOL_INIT + IP_INIT + FIREWALL_INIT, VPN_INIT, 0);
  }

  lemma {:induction false} InstallAt(hs: seq<Handler>)
    ensures |Install(hs)| == |hs| && forall i :: 0 <= i < |hs| ==> Install(hs)[i] == Element(hs[i], Template(hs[i]))
  {
    if |hs| > 0 { InstallAt(hs[..|hs| - 1]); }
  }

  lemma NodeDistinct()
    ensures Distinct(Node())
  {
    InstallAt(INSTALLED);
    InstalledRanked();
    RanksDiffer(INSTALLED, Node());
  }

  lemma RanksDiffer(hs: seq<Handler>, cmds: seq<Element>)
    requires Ranked(hs, 0) && |cmds| == |hs| && forall i :: 0 <= i < |hs| ==> cmds[i].id == hs[i]
    ensures Distinct(cmds)
  {
  }

  lemma InNode(h: Handler)
    requires h in INSTALLED
    ensures Element(h, Template(h)) in Node()
  {
    InstallAt(INSTALLED);
    var i :| 0 <= i < |INSTALLED| && INSTALLED[i] == h;
    assert Node()[i] == Element(h, Template(h));
  }

  lemma LoneMember(cmds: seq<Element>, e: Element)
    requires Distinct(cmds) && e in cmds && forall c :: c in cmds ==> c == e
    ensures cmds == [e]
  {
    var last := |cmds| - 1;
    assert cmds[0] in cmds && cmds[last] in cmds;
    assert cmds[0] == cmds[last] == e;
  }

  // ---- Rounds ----

  ghost predicate OffersAt(c: Element, index: nat, w: string) { index < |c.strvec| && w in c.strvec[index] }

  /** A full keyword that is offered narrows the vector to the commands that offer it, in both modes. */
  lemma ExactRound(mode: Mode, m: Matchers, cmds: seq<Element>, w: string, index: nat) returns (rest: seq<Element>)
    requires IsLiteral(w) && Offered(cmds, index, w) && Distinct(cmds)
    ensures Narrow1(mode, m, cmds, w, index) == Next(rest, EXACT_MATCH)
    ensures Distinct(rest) && forall c :: c in rest <==> c in cmds && OffersAt(c, index, w)
  {
    rest := HitKeep(m, EXACT_MATCH, cmds, w, index);
    Shortcuts.FullIsExact(mode, m, cmds, w, index);
    Shortcuts.HitsOfAll(mode, m, EXACT_MATCH, cmds, w, index);
    var p := (c: Element) => ElementHit(m, EXACT_MATCH, c, w, index);
    KeepDistinct(cmds, p);
    forall c ensures c in rest <==> c in cmds && OffersAt(c, index, w) {
      KeepMember(cmds, p, c);
      assert OffersAt(c, index, w) ==> Hits(m, EXACT_MATCH, w, w);
    }
  }

  /** The two leading keywords of a line leave the commands that begin with them. */
  lemma TwoKeywords(mode: Mode, m: Matchers, w0: string, w1: string, h: Handler) returns (c1: seq<Element>, c2: seq<Element>)
    requires IsLiteral(w0) && IsLiteral(w1) && h in INSTALLED
    requires OffersAt(Element(h, Template(h)), 0, w0) && OffersAt(Element(h, Template(h)), 1, w1)
    ensures Narrow1(mode, m, Node(), w0, 0) == Next(c1, EXACT_MATCH) && Narrow1(mode, m, c1, w1, 1) == Next(c2, EXACT_MATCH)
    ensures Distinct(c1) && forall c :: c in c1 <==> c in Node() && OffersAt(c, 0, w0)
    ensures Distinct(c2) && forall c :: c in c2 <==> c in Node() && OffersAt(c, 0, w0) && OffersAt(c, 1, w1)
    ensures Element(h, Template(h)) in c2
  {
    NodeDistinct();
    InNode(h);
    var e := Element(h, Template(h));
    assert e in Node();
    c1 := ExactRound(mode, m, Node(), w0, 0);
    assert e in c1;
    c2 := ExactRound(mode, m, c1, w1, 1);
  }

  /** A word that matches every command in the same way leaves them all. */
  lemma UniformRound(mode: Mode, m: Matchers, cmds: seq<Element>, w: string, index: nat, t: MatchType)
    requires |cmds| > 0 && (t == EXTEND_MATCH || t == IPV4_MATCH)
    requires forall c :: c in cmds ==> ElementMatch(mode, m, c, w, index) == t && ElementHit(m, t, c, w, index)
    ensures Narrow1(mode, m, cmds, w, index) == Next(cmds, t)
  {
    UniformType(mode, m, cmds, w, index, t);
    UniformKeep(mode, m, cmds, w, index, t);
  }

  lemma UniformKeep(mode: Mode, m: Matchers, cmds: seq<Element>, w: string, index: nat, t: MatchType)
    requires t != NO_MATCH
    requires forall c :: c in cmds ==> ElementMatch(mode, m, c, w, index) == t && ElementHit(m, t, c, w, index)
    ensures FilterKeep(mode, m, cmds, w, index) == cmds && HitKeep(m, t, cmds, w, index) == cmds
  {
    KeepsAll(cmds, c => ElementMatch(mode, m, c, w, index) != NO_MATCH);
    KeepsAll(cmds, c => ElementHit(m, t, c, w, index));
  }

  lemma UniformType(mode: Mode, m: Matchers, cmds: seq<Element>, w: string, index: nat, t: MatchType)
    requires |cmds| > 0 && t != NO_MATCH && forall c :: c in cmds ==> ElementMatch(mode, m, c, w, index) == t
    ensures FilterType(mode, m, cmds, w, index) == t
  {
    assert cmds[0] in cmds;
    FilterTypeUpper(mode, m, cmds, w, index, cmds[0]);
    var c := FilterTypeAttained(mode, m, cmds, w, index);
  }

  lemma {:induction false} KeepsAll(cmds: seq<Element>, p: Element -> bool)
    requires forall c :: c in cmds ==> p(c)
    ensures Keep(cmds, p) == cmds
  {
    if |cmds| > 0 {
      assert cmds[|cmds| - 1] in cmds;
      KeepsAll(cmds[..|cmds| - 1], p);
    }
  }

  lemma OnePosition(mode: Mode, m: Matchers, s: string, w: string)
    ensures PositionMatch(mode, m, [s], w) == DescMatch(mode, m, s, w)
  {
    assert [s][..0] == [];
  }

  lemma VariablePosition(mode: Mode, m: Matchers, c: Element, w: string, index: nat, s: string)
    requires index < |c.strvec| && c.strvec[index] == [s] && IsVariable(s) && OrdinaryWord(s) && !IsIpv4(s)
    ensures ElementMatch(mode, m, c, w, index) == EXTEND_MATCH && ElementHit(m, EXTEND_MATCH, c, w, index)
  {
    OnePosition(mode, m, s, w);
    assert s in c.strvec[index] && Hits(m, EXTEND_MATCH, s, w);
  }

  lemma AddressPosition(mode: Mode, m: Matchers, c: Element, w: string, index: nat)
    requires index < |c.strvec| && c.strvec[index] == ["A.B.C.D"] && AddressOk(mode, Ipv4.Match(w))
    ensures ElementMatch(mode, m, c, w, index) == IPV4_MATCH && ElementHit(m, IPV4_MATCH, c, w, index)
  {
    OnePosition(mode, m, "A.B.C.D", w);
    assert "A.B.C.D" in c.strvec[index] && Hits(m, IPV4_MATCH, "A.B.C.D", w);
  }

  /** The one command left runs if the line is as long as its template. */
  lemma LoneRuns(e: Element, words: seq<string>, last: MatchType)
    requires CmdSize(e.strvec) <= |words| && |words| < CMD_ARGC_MAX
    ensures Select(Left([e], |words|, last), words) == Run(e.id, Args(e.strvec, words))
  {
    assert [e][..0] == [];
    assert Complete(e, |words|, last);
  }

  // ---- wg listenport ----

  lemma PlainSecondWord(p: Plain)
    ensures var t := PlainTemplate(p); t[0] == ["wg"] ==> |t| == 2 && (t[1] == ["regenerate-key"] || t[1] == ["clear-key"])
  {
  }

  /** The commands behind the keyword wg and their second words. */
  lemma SecondWord(h: Handler)
    ensures var t := Template(h);
      |t| > 0 && (("wg" in t[0]) <==> t[0] == ["wg"]) &&
      (t[0] == ["wg"] ==>
         && |t| > 1
         && (if h == WgListenport then t[1] == ["listenport"] else if h == WgLink then t[1] == ["link-up", "link-down"]
             else t[1] == ["peer"] || t[1] == ["regenerate-key"] || t[1] == ["clear-key"]))
    ensures h == WgListenport || h == WgLink ==> Template(h)[0] == ["wg"]
  {
    match h {
      case Other(p) => PlainSecondWord(p);
      case _ =>
    }
  }

  lemma VpnInstalled(h: Handler)
    requires h == WgListenport || h == WgLink
    ensures h in INSTALLED
  {
    assert h in VPN_INIT;
  }

  lemma BehindWg(c: Element)
    requires c in Node() && OffersAt(c, 0, "wg")
    ensures 1 < |c.strvec| && c == Element(c.id, Template(c.id))
    ensures (OffersAt(c, 1, "listenport") <==> c.id == WgListenport) && (OffersAt(c, 1, "link-up") <==> c.id == WgLink)
    ensures forall s :: s in c.strvec[1] ==> BehindWgWord(s)
  {
    NodeElement(c);
    SecondWord(c.id);
  }

  predicate BehindWgWord(s: string) {
    s == "listenport" || s == "link-up" || s == "link-down" || s == "peer" || s == "regenerate-key" || s == "clear-key"
  }

  lemma ListenportOnly(mode: Mode, m: Matchers) returns (c1: seq<Element>)
    ensures Narrow1(mode, m, Node(), "wg", 0) == Next(c1, EXACT_MATCH)
    ensures Narrow1(mode, m, c1, "listenport", 1) == Next([Element(WgListenport, Template(WgListenport))], EXACT_MATCH)
  {
    VpnInstalled(WgListenport);
    SecondWord(WgListenport);
    var c2;
    c1, c2 := TwoKeywords(mode, m, "wg", "listenport", WgListenport);
    forall c | c in c2 ensures c == Element(WgListenport, Template(WgListenport)) { BehindWg(c); }
    LoneMember(c2, Element(WgListenport, Template(WgListenport)));
  }

  /** wg listenport runs its handler on any number, in both modes. */
  lemma ListenportRuns(mode: Mode, m: Matchers, d: string)
    ensures Execute(mode, m, Node(), ["wg", "listenport", d]) == Run(WgListenport, [d])
  {
    var words := ["wg", "listenport", d];
    var e := Element(WgListenport, Template(WgListenport));
    var cmds := ListenportOnly(mode, m);
    VariablePosition(mode, m, e, d, 2, "NUM");
    UniformRound(mode, m, [e], d, 2, EXTEND_MATCH);
    NarrowThree(mode, m, Node(), words, cmds, e);
    ListenportSelected(e, words);
  }

  lemma ListenportSelected(e: Element, words: seq<string>)
    requires e == Element(WgListenport, Template(WgListenport)) && |words| == 3
    ensures Select(Left([e], 3, EXTEND_MATCH), words) == Run(WgListenport, [words[2]])
  {
    TemplateOrdinary(WgListenport);
    SizeOfOrdinary(Template(WgListenport));
    LoneRuns(e, words, EXTEND_MATCH);
    ArgsByHandler(WgListenport, words);
    assert words[2..] == [words[2]];
  }

  lemma NarrowThree(mode: Mode, m: Matchers, all: seq<Element>, words: seq<string>, cmds: seq<Element>, e: Element)
    requires |words| == 3
    requires Narrow1(mode, m, all, words[0], 0) == Next(cmds, EXACT_MATCH)
    requires Narrow1(mode, m, cmds, words[1], 1) == Next([e], EXACT_MATCH)
    requires Narrow1(mode, m, [e], words[2], 2) == Next([e], EXTEND_MATCH)
    ensures Narrow(mode, m, all, words, 0, NO_MATCH) == Left([e], 3, EXTEND_MATCH)
  {
    assert Narrow(mode, m, [e], words, 2, EXACT_MATCH) == Narrow(mode, m, [e], words, 3, EXTEND_MATCH);
    assert Narrow(mode, m, cmds, words, 1, EXACT_MATCH) == Narrow(mode, m, [e], words, 2, EXACT_MATCH);
  }

  // ---- ip address ----

  lemma PlainFirstWord(p: Plain)
    ensures |PlainTemplate(p)| > 0 && "ip" !in PlainTemplate(p)[0]
  {
  }

  /** The commands behind the keywords ip address. */
  lemma AddressCommands(h: Handler)
    ensures OffersAt(Element(h, Template(h)), 0, "ip") && OffersAt(Element(h, Template(h)), 1, "address")
            <==> h == IpAddress || h == IpAddressDhcp
  {
    match h {
      case Other(p) => PlainFirstWord(p);
      case _ =>
    }
  }

  lemma AddressTemplates()
    ensures Template(IpAddress) == [["ip"], ["address"], ["ETHNAME"], ["A.B.C.D"], ["A.B.C.D"]]
    ensures |Template(IpAddressDhcp)| == 4 && Template(IpAddressDhcp)[2] == ["ETHNAME"] && Template(IpAddressDhcp)[3] == ["dhcp"]
    ensures IpAddress in INSTALLED
  {
    assert IpAddress in IP_INIT;
  }

  ghost predicate AreAddress(cmds: seq<Element>) {
    && Distinct(cmds) && Element(IpAddress, Template(IpAddress)) in cmds
    && forall c :: c in cmds ==> c == Element(IpAddress, Template(IpAddress)) || c == Element(IpAddressDhcp, Template(IpAddressDhcp))
  }

  lemma AddressKeywords(mode: Mode, m: Matchers) returns (c1: seq<Element>, c2: seq<Element>)
    ensures Narrow1(mode, m, Node(), "ip", 0) == Next(c1, EXACT_MATCH) && Narrow1(mode, m, c1, "address", 1) == Next(c2, EXACT_MATCH)
    ensures AreAddress(c2)
  {
    AddressTemplates();
    c1, c2 := TwoKeywords(mode, m, "ip", "address", IpAddress);
    forall c | c in c2 ensures c == Element(IpAddress, Template(IpAddress)) || c == Element(IpAddressDhcp, Template(IpAddressDhcp)) {
      NodeElement(c);
      AddressCommands(c.id);
    }
  }

  lemma NameRound(mode: Mode, m: Matchers, cmds: seq<Element>, name: string)
    requires AreAddress(cmds)
    ensures Narrow1(mode, m, cmds, name, 2) == Next(cmds, EXTEND_MATCH)
  {
    AddressTemplates();
    forall c | c in cmds ensures ElementMatch(mode, m, c, name, 2) == EXTEND_MATCH && ElementHit(m, EXTEND_MATCH, c, name, 2) {
      VariablePosition(mode, m, c, name, 2, "ETHNAME");
    }
    UniformRound(mode, m, cmds, name, 2, EXTEND_MATCH);
  }

  /** An address, finished or not, is no beginning of dhcp. */
  lemma AddressIsNotDhcp(mode: Mode, m: Matchers, a: string)
    requires |a| > 0 && !Ipv4.Match(a).No?
    ensures PositionMatch(mode, m, ["dhcp"], a) == NO_MATCH
  {
    OnePosition(mode, m, "dhcp", a);
    assert Ipv4.DigitRun(a) == 0 ==> a[0] == '.';
    assert !(a <= "dhcp") by { assert a[0] != 'd'; }
  }

  lemma AddressRound(mode: Mode, m: Matchers, cmds: seq<Element>, a: string)
    requires AreAddress(cmds) && |a| > 0 && AddressOk(mode, Ipv4.Match(a))
    ensures Narrow1(mode, m, cmds, a, 3) == Next([Element(IpAddress, Template(IpAddress))], IPV4_MATCH)
  {
    var e := Element(IpAddress, Template(IpAddress));
    AddressTemplates();
    AddressPosition(mode, m, e, a, 3);
    AddressKept(mode, m, cmds, a);
    AddressType(mode, m, cmds, a);
    UniformKeep(mode, m, [e], a, 3, IPV4_MATCH);
  }

  lemma AddressKept(mode: Mode, m: Matchers, cmds: seq<Element>, a: string)
    requires AreAddress(cmds) && |a| > 0 && AddressOk(mode, Ipv4.Match(a))
    ensures FilterKeep(mode, m, cmds, a, 3) == [Element(IpAddress, Template(IpAddress))]
  {
    var e := Element(IpAddress, Template(IpAddress));
    AddressTemplates();
    AddressPosition(mode, m, e, a, 3);
    AddressIsNotDhcp(mode, m, a);
    var p := (c: Element) => ElementMatch(mode, m, c, a, 3) != NO_MATCH;
    KeepDistinct(cmds, p);
    forall c ensures c in FilterKeep(mode, m, cmds, a, 3) <==> c == e { KeepMember(cmds, p, c); }
    LoneMember(FilterKeep(mode, m, cmds, a, 3), e);
  }

  lemma AddressType(mode: Mode, m: Matchers, cmds: seq<Element>, a: string)
    requires AreAddress(cmds) && |a| > 0 && AddressOk(mode, Ipv4.Match(a))
    ensures FilterType(mode, m, cmds, a, 3) == IPV4_MATCH
  {
    var e := Element(IpAddress, Template(IpAddress));
    AddressTemplates();
    AddressPosition(mode, m, e, a, 3);
    AddressIsNotDhcp(mode, m, a);
    FilterTypeUpper(mode, m, cmds, a, 3, e);
    var c := FilterTypeAttained(mode, m, cmds, a, 3);
  }

  lemma AddressNarrows(mode: Mode, m: Matchers, words: seq<string>)
    requires |words| == 5 && words[0] == "ip" && words[1] == "address"
    requires |words[3]| > 0 && AddressOk(mode, Ipv4.Match(words[3])) && AddressOk(mode, Ipv4.Match(words[4]))
    ensures Narrow(mode, m, Node(), words, 0, NO_MATCH) == Left([Element(IpAddress, Template(IpAddress))], 5, IPV4_MATCH)
  {
    var e := Element(IpAddress, Template(IpAddress));
    AddressTemplates();
    var c1, c2 := AddressKeywords(mode, m);
    NameRound(mode, m, c2, words[2]);
    AddressRound(mode, m, c2, words[3]);
    AddressPosition(mode, m, e, words[4], 4);
    UniformRound(mode, m, [e], words[4], 4, IPV4_MATCH);
    NarrowFive(mode, m, Node(), words, c1, c2, e);
  }

  /** ip address with two words that are addresses to the executor, complete or (when completing) unfinished, reaches its
      handler with any interface name. */
  lemma IpAddressRuns(mode: Mode, m: Matchers, name: string, a: string, b: string)
    requires |a| > 0 && AddressOk(mode, Ipv4.Match(a)) && AddressOk(mode, Ipv4.Match(b))
    ensures Execute(mode, m, Node(), ["ip", "address", name, a, b]) == Run(IpAddress, [name, a, b])
  {
    var words := ["ip", "address", name, a, b];
    AddressNarrows(mode, m, words);
    AddressSelected(Element(IpAddress, Template(IpAddress)), words);
  }

  lemma AddressSelected(e: Element, words: seq<string>)
    requires e == Element(IpAddress, Template(IpAddress)) && |words| == 5
    ensures Select(Left([e], 5, IPV4_MATCH), words) == Run(IpAddress, [words[2], words[3], words[4]])
  {
    AddressTemplates();
    TemplateOrdinary(IpAddress);
    SizeOfOrdinary(Template(IpAddress));
    LoneRuns(e, words, IPV4_MATCH);
    ArgsByHandler(IpAddress, words);
    assert words[2..] == [words[2], words[3], words[4]];
  }

  lemma NarrowFive(mode: Mode, m: Matchers, all: seq<Element>, words: seq<string>, c1: seq<Element>, c2: seq<Element>, e: Element)
    requires |words| == 5
    requires Narrow1(mode, m, all, words[0], 0) == Next(c1, EXACT_MATCH) && Narrow1(mode, m, c1, words[1], 1) == Next(c2, EXACT_MATCH)
    requires Narrow1(mode, m, c2, words[2], 2) == Next(c2, EXTEND_MATCH) && Narrow1(mode, m, c2, words[3], 3) == Next([e], IPV4_MATCH)
    requires Narrow1(mode, m, [e], words[4], 4) == Next([e], IPV4_MATCH)
    ensures Narrow(mode, m, all, words, 0, NO_MATCH) == Left([e], 5, IPV4_MATCH)
  {
    assert Narrow(mode, m, [e], words, 4, IPV4_MATCH) == Narrow(mode, m, [e], words, 5, IPV4_MATCH);
    assert Narrow(mode, m, c2, words, 3, EXTEND_MATCH) == Narrow(mode, m, [e], words, 4, IPV4_MATCH);
    assert Narrow(mode, m, c2, words, 2, EXACT_MATCH) == Narrow(mode, m, c2, words, 3, EXTEND_MATCH);
    assert Narrow(mode, m, c1, words, 1, EXACT_MATCH) == Narrow(mode, m, c2, words, 2, EXACT_MATCH);
  }
}
