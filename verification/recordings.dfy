/** What every recording line adds to the recorded configuration and what it replaces. */
module Recordings {
  import opened CText
  import opened ListSpec
  import opened ConfigStore
  import opened Handlers
  import opened Matching
  import opened Commands
  import opened Keys
  import opened ShellRuns
  import opened FullLines
  import opened Removals
  import Consequences
  import Replay
  import Reload
  import Runs
  import Shell
  import Tokenizer
  import Ipv4

  // ---- Replacing under a key ----

  /** The line is in, every other line of its key is out, the rest is as before. */
  ghost predicate Replaces(top: seq<string>, r: seq<string>, line: string)
    requires Good(line) && forall l :: l in top ==> Good(l)
  {
    forall l :: l in r <==> l == line || (l in top && KeyOfLine(l) != KeyOfLine(line))
  }

  lemma AddedAfter(top: seq<string>, mid: seq<string>, line: string)
    requires Inv(top) && Inv(mid) && Good(line) && forall l :: l in mid <==> l in top && KeyOfLine(l) != KeyOfLine(line)
    ensures Replaces(top, AddLine(mid, line), line)
  {
    AddLineKeeps(mid, line);
  }

  lemma PrefixReplaces(top: seq<string>, left: string, line: string)
    requires Inv(top) && Good(line) && PrefixIsKey(left, KeyOfLine(line))
    ensures Replaces(top, Apply(top, Replace(left, line)), line)
  {
    Runs.ApplyTwo(top, DelPrefix(left), Add(line));
    DelLeftTakesKey(top, left, KeyOfLine(line));
    RemoveKeepsInv(top, l => left <= l);
    AddedAfter(top, DelLeft(top, left), line);
  }

  /** A line whose key is the line itself. */
  lemma RenewReplaces(top: seq<string>, line: string)
    requires Inv(top) && Good(line) && KeyOfLine(line).LineKey?
    ensures Replaces(top, Apply(top, [Del(line), Add(line)]), line)
  {
    Runs.ApplyTwo(top, Del(line), Add(line));
    DelLineClears(top, line);
    forall l | l in top ensures KeyOfLine(l) == KeyOfLine(line) <==> l == line { OwnKey(l, line); }
    AddedAfter(top, DelLine(top, line), line);
  }

  lemma OwnKey(l: string, line: string)
    requires Good(l) && Good(line) && KeyOfLine(line).LineKey?
    ensures KeyOfLine(l) == KeyOfLine(line) <==> l == line
  {
    if KeyOfLine(l) == KeyOfLine(line) { assert Words(l) == Words(line); }
  }

  // ---- Each handler on its arguments ----

  /** What the handler leaves in place of the list. */
  ghost predicate Leaves(top: seq<string>, h: Handler, argv: seq<string>, env: Env, line: string)
    requires (forall l :: l in top ==> Good(l)) && Fits(h, |argv|)
  {
    Good(line) && Replaces(top, Effect(top, h, argv, env), line)
  }

  lemma ReplaceLeaves(top: seq<string>, h: Handler, argv: seq<string>, env: Env, left: string, ws: seq<string>)
    requires Inv(top) && Fits(h, |argv|) && Recorded(ws) && PrefixIsKey(left, KeyOf(ws))
    requires Plan(h, argv, env) == Some(Replace(left, Line(ws)))
    ensures Leaves(top, h, argv, env, Line(ws))
  {
    GoodLine(ws);
    PrefixReplaces(top, left, Line(ws));
  }

  lemma RenewLeaves(top: seq<string>, h: Handler, argv: seq<string>, env: Env, ws: seq<string>)
    requires Inv(top) && Fits(h, |argv|) && Recorded(ws) && KeyOf(ws).LineKey?
    requires Plan(h, argv, env) == Some([Del(Line(ws)), Add(Line(ws))])
    ensures Leaves(top, h, argv, env, Line(ws))
  {
    GoodLine(ws);
    RenewReplaces(top, Line(ws));
  }

  lemma HostnameLeaves(top: seq<string>, argv: seq<string>, env: Env)
    requires Inv(top) && CleanWords(argv) && |argv| == 1 && Plan(Hostname, argv, env).Some?
    ensures Leaves(top, Hostname, argv, env, Line(["hostname"] + argv))
  {
    Runs.CleanKeywords();
    Runs.CleanJoin(["hostname"], argv);
    assert ["hostname", argv[0]] == ["hostname"] + argv;
    HostnamePrefix();
    ReplaceLeaves(top, Hostname, argv, env, "hostname", ["hostname"] + argv);
  }

  lemma DnsLeaves(top: seq<string>, argv: seq<string>, env: Env)
    requires Inv(top) && CleanWords(argv) && |argv| == 2
    ensures Leaves(top, Dns, argv, env, Line(["nameserver"] + argv))
  {
    Runs.CleanKeywords();
    Runs.CleanJoin(["nameserver"], argv);
    NameserverPrefix();
    ReplaceLeaves(top, Dns, argv, env, "nameserver", ["nameserver"] + argv);
  }

  lemma ListenportLeaves(top: seq<string>, argv: seq<string>, env: Env)
    requires Inv(top) && |argv| == 1
    ensures Leaves(top, WgListenport, argv, env, Line(["wg", "listenport", Show(Atoi(argv[0]))]))
  {
    var n := Show(Atoi(argv[0]));
    Runs.CleanWgKeywords();
    Runs.CleanShow(Atoi(argv[0]));
    Runs.CleanJoin(["wg", "listenport"], [n]);
    assert ["wg", "listenport", n] == ["wg", "listenport"] + [n];
    ListenportPrefix();
    ReplaceLeaves(top, WgListenport, argv, env, "wg listenport", ["wg", "listenport", n]);
  }

  lemma PeerLeaves(top: seq<string>, h: Handler, argv: seq<string>, env: Env)
    requires h in [WgPeer, WgPeerAllowedIps, WgPeerEndpoint, WgPeerKeepalive] && Fits(h, |argv|) && |argv| > 0
    requires Inv(top) && CleanWords(argv) && Plan(h, argv, env).Some?
    ensures Leaves(top, h, argv, env, Line(["wg", "peer"] + ([argv[0]] + Runs.PeerRest(h, argv))))
  {
    var rest := Runs.PeerRest(h, argv);
    Runs.PeerRestClean(h, argv);
    Runs.CleanWgKeywords();
    Runs.CleanJoin(["wg", "peer"], [argv[0]] + rest);
    Runs.PeerLine(h, argv, rest);
    PeerKeyed(h, argv, env);
    assert IsWord(argv[0]) && ([argv[0]] + rest)[0] == argv[0];
    PeerPrefix(argv[0]);
    ReplaceLeaves(top, h, argv, env, Line(["wg", "peer", argv[0]]), ["wg", "peer"] + ([argv[0]] + rest));
  }

  lemma PeerKeyed(h: Handler, argv: seq<string>, env: Env)
    requires IsPeer(h) && Fits(h, |argv|) && Plan(h, argv, env).Some?
    ensures |argv[0]| == 44
  {
  }

  lemma BridgeLeaves(top: seq<string>, argv: seq<string>, env: Env)
    requires Inv(top) && CleanWords(argv) && |argv| == 3 && Plan(BridgeAdd, argv, env).Some? && (env.file || env.brctl)
    ensures Leaves(top, BridgeAdd, argv, env, Line(["bridge", Show(Atoi(argv[0])), argv[1], argv[2]]))
  {
    var n := Show(Atoi(argv[0]));
    Runs.BridgeRecorded(argv);
    BridgePrefix(n);
    assert BridgeOps(argv, env) == Replace(Line(["bridge", n]), Line(["bridge", n, argv[1], argv[2]]));
    ReplaceLeaves(top, BridgeAdd, argv, env, Line(["bridge", n]), ["bridge", n, argv[1], argv[2]]);
  }

  lemma RouteLeaves(top: seq<string>, argv: seq<string>, env: Env)
    requires Inv(top) && CleanWords(argv) && |argv| == 4 && Plan(IpRoute, argv, env).Some?
    ensures Leaves(top, IpRoute, argv, env, Line(["ip", "route"] + argv))
  {
    Runs.CleanKeywords();
    Runs.CleanJoin(["ip", "route"], argv);
    RenewLeaves(top, IpRoute, argv, env, ["ip", "route"] + argv);
  }

  lemma PortmapLeaves(top: seq<string>, argv: seq<string>, env: Env)
    requires Inv(top) && CleanWords(argv) && |argv| == 6 && Plan(Portmap, argv, env).Some?
    ensures Leaves(top, Portmap, argv, env, Line(["sfirewall", "nat", "portmap"] + argv))
  {
    Runs.CleanFirewallKeywords();
    Runs.CleanJoin(["sfirewall", "nat", "portmap"], argv);
    RenewLeaves(top, Portmap, argv, env, ["sfirewall", "nat", "portmap"] + argv);
  }

  lemma DisableLeaves(top: seq<string>, env: Env)
    requires Inv(top)
    ensures Leaves(top, BridgeDisable, [], env, Line(["bridge", "disable"]))
  {
    Runs.CleanKeywords();
    LineOfTwo("bridge", "disable");
    assert "bridge" + " " + "disable" == "bridge disable";
    RenewLeaves(top, BridgeDisable, [], env, ["bridge", "disable"]);
  }

  // ---- The firewall rule and the link ----

  lemma TwinsGone(top: seq<string>, mid: seq<string>, r: seq<string>, ws: seq<string>, other: string)
    requires Inv(top) && Recorded(ws) && KeyOf(ws).RuleKey? && other == (if ws[5] == "append" then "insert" else "append")
    requires forall l :: l in mid <==> l in top && l != Line(ws[5 := other])
    requires forall l :: l in r <==> l in mid && l != Line(ws)
    ensures forall l :: l in r <==> l in top && KeyOfLine(l) != KeyOf(ws)
  {
    TwinKey(ws, other);
    GoodLine(ws);
    forall l | l in top && KeyOfLine(l) == KeyOf(ws) ensures l == Line(ws) || l == Line(ws[5 := other]) {
      Runs.RuleTwins(ws, Words(l));
    }
  }

  lemma TwinsReplaced(top: seq<string>, ws: seq<string>, other: string)
    requires Inv(top) && Recorded(ws) && KeyOf(ws).RuleKey? && other == (if ws[5] == "append" then "insert" else "append")
    ensures Good(Line(ws))
    ensures Replaces(top, Apply(top, [Del(Line(ws[5 := other])), Del(Line(ws)), Add(Line(ws))]), Line(ws))
  {
    var twin := Line(ws[5 := other]);
    DelLineClears(top, twin);
    var mid := DelLine(top, twin);
    DelLineClears(mid, Line(ws));
    TwinsGone(top, mid, DelLine(mid, Line(ws)), ws, other);
    GoodLine(ws);
    AddedAfter(top, DelLine(mid, Line(ws)), Line(ws));
    Runs.ApplyThree(top, Del(twin), Del(Line(ws)), Add(Line(ws)));
  }

  lemma FilterTwin(argv: seq<string>, other: string)
    requires |argv| == 13
    ensures ["sfirewall", "filter"] + argv[3 := other] == (["sfirewall", "filter"] + argv)[5 := other]
  {
  }

  lemma FilterPlan(argv: seq<string>, env: Env, other: string)
    requires |argv| == 13 && Plan(Filter, argv, env).Some? && other == (if argv[3] == "append" then "insert" else "append")
    ensures argv[3] == "insert" || argv[3] == "append"
    ensures Plan(Filter, argv, env) == Some([Del(FilterLine(argv[3 := other])), Del(FilterLine(argv)), Add(FilterLine(argv))])
  {
  }

  lemma FilterLeaves(top: seq<string>, argv: seq<string>, env: Env)
    requires Inv(top) && CleanWords(argv) && |argv| == 13 && Plan(Filter, argv, env).Some?
    ensures Leaves(top, Filter, argv, env, Line(["sfirewall", "filter"] + argv))
  {
    var ws := ["sfirewall", "filter"] + argv;
    var other := if argv[3] == "append" then "insert" else "append";
    FilterPlan(argv, env, other);
    Runs.FilterRecorded(argv);
    FilterTwin(argv, other);
    assert ws[5] == argv[3];
    TwinsReplaced(top, ws, other);
    PlanLeaves(top, Filter, argv, env, [Del(FilterLine(argv[3 := other])), Del(FilterLine(argv)), Add(FilterLine(argv))], Line(ws));
  }

  /** Two prefixes that only lines of one key have, deleted one after the other until the key is gone. */
  lemma TwoPrefixesReplace(top: seq<string>, a: string, b: string, line: string)
    requires Inv(top) && Good(line) && forall l :: Good(l) && (a <= l || b <= l) ==> KeyOfLine(l) == KeyOfLine(line)
    requires Inv(DelLeft(DelLeft(top, a), b)) && NoKey(DelLeft(DelLeft(top, a), b), KeyOfLine(line))
    ensures Replaces(top, Apply(top, [DelPrefix(a), DelPrefix(b), Add(line)]), line)
  {
    var mid := DelLeft(top, a);
    RemoveKeepsInv(top, l => a <= l);
    DelLeftTakesFirst(top, a);
    DelLeftTakesFirst(mid, b);
    AddedAfter(top, DelLeft(mid, b), line);
    Runs.ApplyThree(top, DelPrefix(a), DelPrefix(b), Add(line));
  }

  lemma LinkLine(word: string)
    requires word == "link-up" || word == "link-down"
    ensures Good(Line(["wg", word])) && KeyOfLine(Line(["wg", word])) == LinkKey
  {
    Runs.CleanWgKeywords();
    GoodLine(["wg", word]);
  }

  lemma LinkParts(word: string) returns (a: string, b: string)
    requires word == "link-up" || word == "link-down"
    ensures a == "wg link-up" && b == "wg link-down" && LinkOps(word) == [DelPrefix(a), DelPrefix(b), Add(Line(["wg", word]))]
  {
    LinkLines();
    a, b := "wg link-up", "wg link-down";
  }

  lemma LinkPrefixes(a: string, b: string)
    requires a == "wg link-up" && b == "wg link-down"
    ensures forall l :: Good(l) && (a <= l || b <= l) ==> KeyOfLine(l) == LinkKey
  {
    forall l | Good(l) && (a <= l || b <= l) ensures KeyOfLine(l) == LinkKey { LinkPrefixKey(l); }
  }

  lemma LinkCleared(top: seq<string>, a: string, b: string)
    requires Inv(top) && a == "wg link-up" && b == "wg link-down"
    ensures Inv(DelLeft(DelLeft(top, a), b)) && NoKey(DelLeft(DelLeft(top, a), b), LinkKey)
  {
    LinkClears(top);
  }

  lemma LinkReplaces(top: seq<string>, word: string)
    requires Inv(top) && (word == "link-up" || word == "link-down")
    ensures Good(Line(["wg", word])) && Replaces(top, Apply(top, LinkOps(word)), Line(["wg", word]))
  {
    LinkLine(word);
    var a, b := LinkParts(word);
    LinkPrefixes(a, b);
    LinkCleared(top, a, b);
    TwoPrefixesReplace(top, a, b, Line(["wg", word]));
  }

  lemma PlanLeaves(top: seq<string>, h: Handler, argv: seq<string>, env: Env, ops: seq<Op>, line: string)
    requires Inv(top) && Fits(h, |argv|) && Plan(h, argv, env) == Some(ops) && Good(line) && Replaces(top, Apply(top, ops), line)
    ensures Leaves(top, h, argv, env, line)
  {
  }

  lemma LinkLeaves(top: seq<string>, word: string, env: Env)
    requires Inv(top) && (word == "link-up" || word == "link-down")
    ensures Leaves(top, WgLink, [word], env, Line(["wg", word]))
  {
    var line, ops := Line(["wg", word]), LinkOps(word);
    LinkReplaces(top, word);
    PlanLeaves(top, WgLink, [word], env, ops, line);
  }

  // ---- Addresses ----

  /** The address line of a name: the new line is in, the first line whose name begins so is out. */
  ghost predicate Readdressed(top: seq<string>, r: seq<string>, name: string, line: string) {
    forall l :: l in r <==> l == line || (l in top && !FirstWith(top, Line(["ip", "address", name]), l))
  }

  lemma AddressReaddresses(top: seq<string>, ws: seq<string>)
    requires Inv(top) && CleanWords(ws) && |ws| >= 4 && ws[0] == "ip" && ws[1] == "address"
    ensures Readdressed(top, Apply(top, Replace(Line(["ip", "address", ws[2]]), Line(ws))), ws[2], Line(ws))
  {
    var left := Line(["ip", "address", ws[2]]);
    GoodLine(ws);
    AddressHits(top, ws[2]);
    DelLeftClears(top, left, AddressKey(ws[2]));
    DelLeftTakesFirst(top, left);
    Runs.ApplyTwo(top, DelPrefix(left), Add(Line(ws)));
    AddLineKeeps(DelLeft(top, left), Line(ws));
  }

  lemma OwnOrNone(top: seq<string>, r: seq<string>, ws: seq<string>)
    requires Inv(top) && CleanWords(ws) && |ws| >= 4 && ws[0] == "ip" && ws[1] == "address" && Readdressed(top, r, ws[2], Line(ws))
    requires Consequences.Configured(top, ws[2]) || !Consequences.ExtendedName(top, ws[2])
    ensures Good(Line(ws)) && Replaces(top, r, Line(ws))
  {
    var left := Line(["ip", "address", ws[2]]);
    GoodLine(ws);
    assert IsWord(ws[2]);
    AddressDeleted(top, ws[2]);
    DelLeftTakesFirst(top, left);
  }

  lemma AddressLeaves(top: seq<string>, h: Handler, argv: seq<string>, env: Env, ws: seq<string>)
    requires Inv(top) && Fits(h, |argv|) && CleanWords(ws) && |ws| >= 4 && ws[0] == "ip" && ws[1] == "address"
    requires Plan(h, argv, env) == Some(Replace(Line(["ip", "address", ws[2]]), Line(ws)))
    ensures Readdressed(top, Effect(top, h, argv, env), ws[2], Line(ws))
    ensures Consequences.Configured(top, ws[2]) || !Consequences.ExtendedName(top, ws[2]) ==> Leaves(top, h, argv, env, Line(ws))
  {
    AddressReaddresses(top, ws);
    if Consequences.Configured(top, ws[2]) || !Consequences.ExtendedName(top, ws[2]) { OwnOrNone(top, Effect(top, h, argv, env), ws); }
  }

  // ---- Typed lines ----

  /** What a line typed in full records: its words, numbers as they are printed. */
  function RecordOf(h: Handler, ws: seq<string>): string
    requires (h == WgListenport ==> |ws| == 3) && (h == BridgeAdd ==> |ws| == 4)
  {
    if h == WgListenport then Line(["wg", "listenport", Show(Atoi(ws[2]))])
    else if h == BridgeAdd then Line(["bridge", Show(Atoi(ws[1])), ws[2], ws[3]])
    else Line(ws)
  }

  predicate KeyTaken(ws: seq<string>)
    requires |ws| > 2
  {
    |ws[2]| == 44 && ws[2][43] == '='
  }

  /** The words a line of the command has. */
  function LengthOf(h: Handler): nat
    requires Recording(h)
  {
    match h
    case BridgeDisable | Hostname | WgLink => 2
    case Dns | WgListenport | WgPeer => 3
    case BridgeAdd | IpAddressDhcp => 4
    case IpAddress | WgPeerAllowedIps => 5
    case IpRoute => 6
    case WgPeerEndpoint => 7
    case Portmap | WgPeerKeepalive => 9
    case _ => 15
  }

  /** When the handler takes the line. */
  predicate Taken(h: Handler, ws: seq<string>, env: Env)
    requires Recording(h) && |ws| == LengthOf(h)
  {
    match h
    case BridgeAdd => 1 <= Atoi(ws[1]) <= 9 && '"' !in ws[2] && '"' !in ws[3] && env.if1 && env.if2
    case Hostname => |ws[1]| > 0 && IsAlpha(ws[1][0])
    case IpAddress => Supported(ws[2])
    case IpAddressDhcp => ws[2] == "wan"
    case IpRoute => Supported(ws[5])
    case Portmap => FirstIsDigit(ws[3]) && (ws[6] == "all" ==> ws[7] == "0" && ws[8] == "0")
    case Filter => FilterOk(ws[2..])
    case WgPeer => KeyTaken(ws)
    case WgPeerAllowedIps => KeyTaken(ws) && FirstIsDigit(ws[4])
    case WgPeerEndpoint => KeyTaken(ws) && FirstIsDigit(ws[4]) && |ws[6]| <= 128 && '/' !in ws[6]
    case WgPeerKeepalive =>
      KeyTaken(ws) && FirstIsDigit(ws[4]) && |ws[6]| <= 128 && '/' !in ws[6] && (FirstIsDigit(ws[8]) ==> 1 <= Atoi(ws[8]) <= 1800)
    case _ => true
  }

  lemma Lengths(h: Handler)
    requires Recording(h)
    ensures |Template(h)| == LengthOf(h)
  {
    match h {
      case Filter => FilterHead();
      case Portmap => PortmapHead();
      case WgPeer | WgPeerAllowedIps | WgPeerEndpoint | WgPeerKeepalive => PeerSize(h);
      case _ => OtherLengths(h);
    }
  }

  lemma OtherLengths(h: Handler)
    requires Recording(h) && h != Filter && h != Portmap && !IsPeer(h)
    ensures |Template(h)| == LengthOf(h)
  {
  }

  /** A line typed in full has the keywords of its template. */
  lemma TypedKeywords(mode: Mode, h: Handler, ws: seq<string>)
    requires Recording(h) && Typed(mode, h, ws)
    ensures |ws| == LengthOf(h) && Reload.Keywords(Template(h), ws)
  {
    ConfiguringSize(h);
    Lengths(h);
    var t := Template(h);
    forall i | 0 <= i < |ws| && |t[i]| == 1 && IsLiteral(t[i][0]) ensures ws[i] == t[i][0] {
      assert t[i] == [t[i][0]];
      Keyword1(mode, t, ws, i, t[i][0]);
    }
  }

  // ---- What the handler gets and whether it takes it ----

  function BehindLead(h: Handler): nat
    requires Shell.Lead(h).Some?
  {
    Shell.Lead(h).value
  }

  lemma TakenByLead(h: Handler, ws: seq<string>, argv: seq<string>, env: Env)
    requires Recording(h) && |ws| == LengthOf(h) && Shell.Lead(h).Some? && BehindLead(h) <= |ws| && argv == ws[BehindLead(h)..]
    requires h != Filter && h != WgPeer
    ensures Fits(h, |argv|) && (Plan(h, argv, env).Some? <==> Taken(h, ws, env))
  {
  }

  lemma FilterTaken(ws: seq<string>, env: Env)
    requires |ws| == 15
    ensures Fits(Filter, |ws[2..]|) && (Plan(Filter, ws[2..], env).Some? <==> Taken(Filter, ws, env))
  {
  }

  lemma PeerTaken(h: Handler, ws: seq<string>, argv: seq<string>, env: Env)
    requires IsPeer(h) && |ws| == LengthOf(h) == 2 * |argv| + 1 && forall i :: 0 <= i < |argv| ==> argv[i] == ws[2 * i + 2]
    ensures Fits(h, |argv|) && (Plan(h, argv, env).Some? <==> Taken(h, ws, env))
  {
    assert argv[0] == ws[2] && (|argv| > 1 ==> argv[1] == ws[4]) && (|argv| > 2 ==> argv[2] == ws[6]) && (|argv| > 3 ==> argv[3] == ws[8]);
  }

  lemma DhcpTaken(ws: seq<string>, env: Env)
    requires |ws| == 4
    ensures Plan(IpAddressDhcp, [ws[2]], env).Some? <==> Taken(IpAddressDhcp, ws, env)
  {
  }

  /** The arguments in terms of the words. */
  predicate ArgsAre(h: Handler, ws: seq<string>, argv: seq<string>)
    requires Recording(h) && |ws| == LengthOf(h)
  {
    if IsPeer(h) then |ws| == 2 * |argv| + 1 && forall i :: 0 <= i < |argv| ==> argv[i] == ws[2 * i + 2]
    else if h == IpAddressDhcp then argv == [ws[2]]
    else Shell.Lead(h).Some? && BehindLead(h) <= |ws| && argv == ws[BehindLead(h)..]
  }

  lemma ArgsShape(h: Handler, ws: seq<string>, argv: seq<string>)
    requires Recording(h) && |ws| == LengthOf(h)
    requires Shell.Lead(h).Some? ==> BehindLead(h) <= |ws| && argv == ws[BehindLead(h)..]
    requires h == IpAddressDhcp ==> argv == [ws[2]]
    requires h == WgPeerAllowedIps ==> argv == [ws[2], ws[4]]
    requires h == WgPeerEndpoint ==> argv == [ws[2], ws[4], ws[6]]
    requires h == WgPeerKeepalive ==> argv == [ws[2], ws[4], ws[6], ws[8]]
    ensures ArgsAre(h, ws, argv)
  {
  }

  lemma ArgsOfLine(h: Handler, ws: seq<string>, argv: seq<string>)
    requires Recording(h) && |ws| == LengthOf(h) && CmdSize(Template(h)) <= |ws| <= |Template(h)| && argv == Args(Template(h), ws)
    ensures ArgsAre(h, ws, argv)
  {
    Shell.ArgsByHandler(h, ws);
    ArgsShape(h, ws, argv);
  }

  lemma TakenIff(h: Handler, ws: seq<string>, argv: seq<string>, env: Env)
    requires Recording(h) && |ws| == LengthOf(h) && ArgsAre(h, ws, argv)
    ensures Fits(h, |argv|) && (Plan(h, argv, env).Some? <==> Taken(h, ws, env))
  {
    match h {
      case WgPeer | WgPeerAllowedIps | WgPeerEndpoint | WgPeerKeepalive => PeerTaken(h, ws, argv, env);
      case IpAddressDhcp => DhcpTaken(ws, env);
      case Filter => FilterTaken(ws, env);
      case _ => TakenByLead(h, ws, argv, env);
    }
  }

  // ---- What a line records ----

  /** The words at the keywords of the commands that record what was typed. */
  predicate Worded(h: Handler, ws: seq<string>)
    requires Recording(h) && |ws| == LengthOf(h)
  {
    match h
    case WgPeer | WgPeerAllowedIps | WgPeerEndpoint | WgPeerKeepalive =>
      && ws[0] == "wg" && ws[1] == "peer" && (|ws| > 3 ==> ws[3] == "allowed-ips")
      && (|ws| > 5 ==> ws[5] == "endpoint") && (|ws| > 7 ==> ws[7] == "persistent-keepalive")
    case WgLink => ws == ["wg", "link-up"] || ws == ["wg", "link-down"]
    case IpAddressDhcp => ws[0] == "ip" && ws[1] == "address" && ws[3] == "dhcp"
    case _ => Reload.LeadWords(h) <= ws
  }

  lemma LeadWorded(h: Handler, ws: seq<string>)
    requires Recording(h) && |ws| == LengthOf(h) && Reload.LeadWords(h) != [] && Reload.Keywords(Template(h), ws)
    ensures Reload.LeadWords(h) <= ws
  {
    Reload.LeadOfTemplate(h);
    Reload.KeywordLead(Template(h), ws, Reload.LeadWords(h));
  }

  lemma PeerWorded(h: Handler, ws: seq<string>)
    requires IsPeer(h) && |ws| == LengthOf(h) && Reload.Keywords(Template(h), ws)
    ensures Worded(h, ws)
  {
    var t := Template(WgPeerKeepalive);
    PeerTemplate(h);
    PeerKeywords(t);
    assert forall i :: 0 <= i < |ws| ==> Template(h)[i] == t[i];
  }

  lemma PeerKeywords(t: seq<seq<string>>)
    requires t == Template(WgPeerKeepalive)
    ensures |t| == 9 && t[0] == ["wg"] && t[1] == ["peer"] && t[3] == ["allowed-ips"] && t[5] == ["endpoint"] && t[7] == ["persistent-keepalive"]
  {
  }

  lemma LinkTyped(mode: Mode, ws: seq<string>)
    requires Typed(mode, WgLink, ws) && |ws| == 2
    ensures Worded(WgLink, ws)
  {
    var t := Template(WgLink);
    Keyword1(mode, t, ws, 0, "wg");
    assert FullyAt(mode, t[1], ws[1]);
    assert ws == [ws[0], ws[1]];
  }

  lemma KeywordsWorded(h: Handler, ws: seq<string>)
    requires Recording(h) && h != WgLink && |ws| == LengthOf(h) && Reload.Keywords(Template(h), ws)
    ensures Worded(h, ws)
  {
    if IsPeer(h) {
      PeerWorded(h, ws);
    } else if h == IpAddressDhcp {
      Reload.DhcpWords(ws);
    } else if Reload.LeadWords(h) != [] {
      LeadWorded(h, ws);
    }
  }

  /** A line typed in full: its length, its keywords and the arguments of its handler. */
  lemma TypedParts(mode: Mode, h: Handler, ws: seq<string>)
    requires Recording(h) && Typed(mode, h, ws)
    ensures |ws| == LengthOf(h) && Worded(h, ws) && ArgsAre(h, ws, Args(Template(h), ws))
  {
    TypedWorded(mode, h, ws);
    ArgsOfLine(h, ws, Args(Template(h), ws));
  }

  lemma TypedWorded(mode: Mode, h: Handler, ws: seq<string>)
    requires Recording(h) && Typed(mode, h, ws)
    ensures |ws| == LengthOf(h) && Worded(h, ws)
  {
    TypedKeywords(mode, h, ws);
    if h == WgLink { LinkTyped(mode, ws); } else { KeywordsWorded(h, ws); }
  }

  lemma CleanTail(lead: seq<string>, argv: seq<string>)
    requires CleanWords(lead + argv)
    ensures CleanWords(argv)
  {
    assert forall i :: 0 <= i < |argv| ==> argv[i] == (lead + argv)[|lead| + i];
  }

  /** The commands whose lines are leading keywords and arguments, addresses aside. */
  lemma LeadLeaves(top: seq<string>, h: Handler, ws: seq<string>, argv: seq<string>, env: Env)
    requires Inv(top) && h in [Hostname, Dns, IpRoute, Portmap, Filter, BridgeDisable] && CleanWords(ws)
    requires ws == Reload.LeadWords(h) + argv && Fits(h, |argv|) && Plan(h, argv, env).Some?
    ensures Leaves(top, h, argv, env, Line(ws))
  {
    CleanTail(Reload.LeadWords(h), argv);
    match h {
      case Hostname => HostnameLeaves(top, argv, env);
      case Dns => DnsLeaves(top, argv, env);
      case IpRoute => RouteLeaves(top, argv, env);
      case Portmap => PortmapLeaves(top, argv, env);
      case Filter => FilterLeaves(top, argv, env);
      case BridgeDisable => assert argv == []; DisableLeaves(top, env);
    }
  }

  lemma LeadSplit(h: Handler, ws: seq<string>, argv: seq<string>)
    requires h in [Hostname, Dns, IpRoute, Portmap, Filter, BridgeDisable, IpAddress]
    requires |ws| == LengthOf(h) && Worded(h, ws) && ArgsAre(h, ws, argv)
    ensures ws == Reload.LeadWords(h) + argv
  {
  }

  lemma LeadRecords(top: seq<string>, h: Handler, ws: seq<string>, argv: seq<string>, env: Env)
    requires Inv(top) && h in [Hostname, Dns, IpRoute, Portmap, Filter, BridgeDisable] && CleanWords(ws)
    requires |ws| == LengthOf(h) && Worded(h, ws) && ArgsAre(h, ws, argv) && Fits(h, |argv|) && Plan(h, argv, env).Some?
    ensures Leaves(top, h, argv, env, Line(ws))
  {
    LeadSplit(h, ws, argv);
    LeadLeaves(top, h, ws, argv, env);
  }

  lemma PeerSplit(h: Handler, ws: seq<string>, argv: seq<string>)
    requires IsPeer(h) && |ws| == LengthOf(h) && Worded(h, ws) && ArgsAre(h, ws, argv) && Fits(h, |argv|)
    ensures |argv| > 0 && ws == ["wg", "peer"] + ([argv[0]] + Runs.PeerRest(h, argv))
  {
    assert argv[0] == ws[2] && (|argv| > 1 ==> argv[1] == ws[4]) && (|argv| > 2 ==> argv[2] == ws[6]) && (|argv| > 3 ==> argv[3] == ws[8]);
  }

  lemma CleanOdd(ws: seq<string>, argv: seq<string>)
    requires CleanWords(ws) && |ws| == 2 * |argv| + 1 && forall i :: 0 <= i < |argv| ==> argv[i] == ws[2 * i + 2]
    ensures CleanWords(argv)
  {
  }

  lemma PeerRecords(top: seq<string>, h: Handler, ws: seq<string>, argv: seq<string>, env: Env)
    requires Inv(top) && IsPeer(h) && CleanWords(ws)
    requires |ws| == LengthOf(h) && Worded(h, ws) && ArgsAre(h, ws, argv) && Fits(h, |argv|) && Plan(h, argv, env).Some?
    ensures Leaves(top, h, argv, env, Line(ws))
  {
    PeerSplit(h, ws, argv);
    CleanOdd(ws, argv);
    PeerLeaves(top, h, argv, env);
  }

  lemma NumberRecords(top: seq<string>, h: Handler, ws: seq<string>, argv: seq<string>, env: Env)
    requires Inv(top) && (h == WgListenport || h == BridgeAdd) && CleanWords(ws) && |ws| == LengthOf(h) && ArgsAre(h, ws, argv)
    requires Fits(h, |argv|) && Plan(h, argv, env).Some? && (h == BridgeAdd ==> env.file || env.brctl)
    ensures Leaves(top, h, argv, env, RecordOf(h, ws))
  {
    if h == WgListenport {
      ListenportLeaves(top, argv, env);
    } else {
      BridgeTail(ws, argv);
      BridgeLeaves(top, argv, env);
    }
  }

  lemma BridgeTail(ws: seq<string>, argv: seq<string>)
    requires CleanWords(ws) && |ws| == 4 && argv == ws[1..]
    ensures CleanWords(argv) && argv == [ws[1], ws[2], ws[3]]
  {
    CleanTail(ws[..1], argv);
    assert ws[..1] + argv == ws;
  }

  lemma LinkRecords(top: seq<string>, ws: seq<string>, argv: seq<string>, env: Env)
    requires Inv(top) && |ws| == 2 && Worded(WgLink, ws) && argv == ws[1..]
    ensures Leaves(top, WgLink, argv, env, Line(ws))
  {
    assert argv == [ws[1]] && ws == ["wg", ws[1]];
    LinkLeaves(top, ws[1], env);
  }

  /** The interface commands of ip address. */
  predicate Addressing(h: Handler) { h == IpAddress || h == IpAddressDhcp }

  lemma Records(top: seq<string>, h: Handler, ws: seq<string>, argv: seq<string>, env: Env)
    requires Inv(top) && Recording(h) && !Addressing(h) && CleanWords(ws) && |ws| == LengthOf(h) && Worded(h, ws)
    requires ArgsAre(h, ws, argv) && Fits(h, |argv|) && Plan(h, argv, env).Some? && (h == BridgeAdd ==> env.file || env.brctl)
    ensures Leaves(top, h, argv, env, RecordOf(h, ws))
  {
    match h {
      case WgPeer | WgPeerAllowedIps | WgPeerEndpoint | WgPeerKeepalive => PeerRecords(top, h, ws, argv, env);
      case WgLink => LinkRecords(top, ws, argv, env);
      case WgListenport | BridgeAdd => NumberRecords(top, h, ws, argv, env);
      case _ => LeadRecords(top, h, ws, argv, env);
    }
  }

  /** A recording line typed in full, in either executor: the handler takes it exactly under its own condition; then the
      line is in, every other line of its key is out, and all others are as before. */
  lemma RecordsExactly(mode: Mode, m: Matchers, env: Env, top: seq<string>, h: Handler, ws: seq<string>)
    requires Inv(top) && Recording(h) && !Addressing(h) && CleanWords(ws) && PlainLine(ws) && Typed(mode, h, ws)
    requires h == BridgeAdd ==> env.file || env.brctl
    ensures |ws| == LengthOf(h)
    ensures var r := Step(m, top, Input(mode, Line(ws), env));
            if Taken(h, ws, env) then Good(RecordOf(h, ws)) && Replaces(top, r, RecordOf(h, ws)) else r == top
  {
    var argv := Args(Template(h), ws);
    TypedStep(mode, m, env, top, h, ws);
    TypedParts(mode, h, ws);
    TakenIff(h, ws, argv, env);
    if Taken(h, ws, env) { Records(top, h, ws, argv, env); }
  }

  // ---- Addresses and the bridge that brctl refuses ----

  lemma AddressWords(h: Handler, ws: seq<string>)
    requires Addressing(h) && CleanWords(ws) && |ws| == LengthOf(h) && Worded(h, ws)
    ensures ws[0] == "ip" && ws[1] == "address" && Good(Line(ws))
  {
    if h == IpAddress {
      assert ws[0] == ["ip", "address"][0] && ws[1] == ["ip", "address"][1];
    }
    GoodLine(ws);
  }

  lemma AddressPlan(h: Handler, ws: seq<string>, argv: seq<string>, env: Env)
    requires Addressing(h) && |ws| == LengthOf(h) && Worded(h, ws) && ArgsAre(h, ws, argv) && Fits(h, |argv|) && Plan(h, argv, env).Some?
    ensures Plan(h, argv, env) == Some(Replace(Line(["ip", "address", ws[2]]), Line(ws)))
  {
    if h == IpAddress {
      LeadSplit(h, ws, argv);
    } else {
      assert ws == ["ip", "address", ws[2], "dhcp"];
    }
  }

  /** If the handler takes the line it is in, and out is the first line whose interface name begins with the given one;
      that is the interface's own line, or none, if it is configured or no configured name extends it. */
  ghost predicate AddressRecorded(top: seq<string>, r: seq<string>, h: Handler, ws: seq<string>, env: Env)
  {
    && (forall l :: l in top ==> Good(l)) && Addressing(h) && |ws| == LengthOf(h) && Good(Line(ws))
    && (if Taken(h, ws, env) then Readdressed(top, r, ws[2], Line(ws)) else r == top)
    && (Taken(h, ws, env) && (Consequences.Configured(top, ws[2]) || !Consequences.ExtendedName(top, ws[2])) ==> Replaces(top, r, Line(ws)))
  }

  lemma AddressRecords(top: seq<string>, h: Handler, ws: seq<string>, argv: seq<string>, env: Env)
    requires Inv(top) && Addressing(h) && CleanWords(ws) && |ws| == LengthOf(h) && Worded(h, ws) && ArgsAre(h, ws, argv) && Fits(h, |argv|)
    ensures AddressRecorded(top, Effect(top, h, argv, env), h, ws, env)
  {
    AddressWords(h, ws);
    TakenIff(h, ws, argv, env);
    if Taken(h, ws, env) {
      AddressPlan(h, ws, argv, env);
      AddressLeaves(top, h, argv, env, ws);
    }
  }

  /** ip address, typed in full, in either executor. */
  lemma AddressRecordsExactly(mode: Mode, m: Matchers, env: Env, top: seq<string>, h: Handler, ws: seq<string>)
    requires Inv(top) && Addressing(h) && CleanWords(ws) && PlainLine(ws) && Typed(mode, h, ws)
    ensures AddressRecorded(top, Step(m, top, Input(mode, Line(ws), env)), h, ws, env)
  {
    var argv := Args(Template(h), ws);
    TypedStep(mode, m, env, top, h, ws);
    TypedParts(mode, h, ws);
    AddressRecords(top, h, ws, argv, env);
  }

  /** A bridge that brctl refuses on a terminal is not recorded, and its old line is gone. */
  lemma RefusedBridge(mode: Mode, m: Matchers, env: Env, top: seq<string>, ws: seq<string>)
    requires Inv(top) && CleanWords(ws) && PlainLine(ws) && Typed(mode, BridgeAdd, ws) && !env.file && !env.brctl
    ensures |ws| == 4
    ensures var r := Step(m, top, Input(mode, Line(ws), env));
            if Taken(BridgeAdd, ws, env) then forall l :: l in r <==> l in top && KeyOfLine(l) != BridgeKey(Show(Atoi(ws[1])))
            else r == top
  {
    var argv := Args(Template(BridgeAdd), ws);
    TypedStep(mode, m, env, top, BridgeAdd, ws);
    TypedParts(mode, BridgeAdd, ws);
    RolledBack(top, ws, argv, env);
  }

  lemma RolledBack(top: seq<string>, ws: seq<string>, argv: seq<string>, env: Env)
    requires Inv(top) && CleanWords(ws) && |ws| == 4 && argv == ws[1..] && !env.file && !env.brctl
    ensures var r := Effect(top, BridgeAdd, argv, env);
            if Taken(BridgeAdd, ws, env) then forall l :: l in r <==> l in top && KeyOfLine(l) != BridgeKey(Show(Atoi(ws[1])))
            else r == top
  {
    TakenIff(BridgeAdd, ws, argv, env);
    if Taken(BridgeAdd, ws, env) {
      BridgeTail(ws, argv);
      BridgeRolledBack(top, argv, env);
    }
  }

  lemma BridgeRolledBack(top: seq<string>, argv: seq<string>, env: Env)
    requires Inv(top) && CleanWords(argv) && |argv| == 3 && Plan(BridgeAdd, argv, env).Some? && !env.file && !env.brctl
    ensures var n := Show(Atoi(argv[0]));
            forall l :: l in Effect(top, BridgeAdd, argv, env) <==> l in top && KeyOfLine(l) != BridgeKey(n)
  {
    var n := Show(Atoi(argv[0]));
    Runs.BridgeRecorded(argv);
    BridgePrefix(n);
    var ws := ["bridge", n, argv[1], argv[2]];
    GoodLine(ws);
    var left := Line(["bridge", n]);
    var ops := Replace(left, Line(ws));
    PrefixReplaces(top, left, Line(ws));
    Runs.ReplaceByPrefix(top, left, ws);
    assert BridgeOps(argv, env) == ops + [DelPrefix(left)];
    Runs.ApplyLast(top, ops, DelPrefix(left));
    DelLeftTakesKey(Apply(top, ops), left, BridgeKey(n));
  }

  // ---- A quoted host name ----

  lemma HyphenChars(a: string, b: string)
    requires Tokenizer.HyphenFor(a, b) && IsWord(b) && '"' !in a && forall i :: 0 <= i < |a| ==> a[i] >= ' '
    ensures Printable(b) && '"' !in b
  {
    forall i | 0 <= i < |b| ensures b[i] > ' ' && b[i] != '"' {
      assert !IsSpace(b[i]);
      assert a[i] in a;
    }
  }

  lemma HyphensAreClean(ws: seq<string>)
    requires CleanWords(ws) && |ws| > 0 && '"' !in Line(ws)
    ensures IsWord(Tokenizer.Hyphens(ws)) && CleanWords([Tokenizer.Hyphens(ws)]) && '"' !in Tokenizer.Hyphens(ws)
  {
    Tokenizer.HyphensOfLine(ws);
    Tokenizer.HyphensIsWord(ws);
    PrintableLine(ws);
    HyphenChars(Line(ws), Tokenizer.Hyphens(ws));
  }

  lemma {:induction false} PrintableLine(ws: seq<string>)
    requires CleanWords(ws)
    ensures forall i :: 0 <= i < |Line(ws)| ==> Line(ws)[i] >= ' '
  {
    if |ws| > 1 {
      assert CleanWords(ws[1..]);
      PrintableLine(ws[1..]);
    }
  }

  lemma HostnameTyped(mode: Mode, name: string)
    ensures Typed(mode, Hostname, ["hostname", name])
  {
    var ws := ["hostname", name];
    FullFront(mode, Template(Hostname), ["hostname"], ws);
    FullVariable(mode, "WORD", name);
    FitsTemplate(mode, Hostname, ws);
  }

  lemma NameLine(name: string)
    requires CleanWords([name]) && '"' !in name
    ensures CleanWords(["hostname", name]) && '"' !in Line(["hostname", name])
  {
    Runs.CleanKeywords();
    Runs.CleanJoin(["hostname"], [name]);
    assert ["hostname"] + [name] == ["hostname", name];
    LineOfTwo("hostname", name);
  }

  lemma HostnameRecorded(mode: Mode, m: Matchers, env: Env, top: seq<string>, name: string)
    requires Inv(top) && CleanWords([name]) && '"' !in name && |name| > 0 && IsAlpha(name[0])
    ensures Good(Line(["hostname", name]))
    ensures Replaces(top, Step(m, top, Input(mode, Line(["hostname", name]), env)), Line(["hostname", name]))
  {
    NameLine(name);
    HostnameTyped(mode, name);
    RecordsExactly(mode, m, env, top, Hostname, ["hostname", name]);
  }

  lemma HostnameWord(pre: seq<string>)
    requires pre == ["hostname"]
    ensures AreWords(pre) && |pre| == 1 && '"' !in Line(pre) && pre[0][0] == 'h'
  {
    Runs.CleanKeywords();
  }

  lemma QuotedAsTyped(mode: Mode, m: Matchers, env: Env, top: seq<string>, pre: seq<string>, ws: seq<string>, typed: seq<string>)
    requires AreWords(ws) && |ws| > 0 && '"' !in Line(ws) && typed == pre + [Tokenizer.Hyphens(ws)] && '"' !in Line(typed)
    requires AreWords(pre) && |pre| > 0 && '"' !in Line(pre) && pre[0][0] != '!' && pre[0][0] != '#'
    ensures Step(m, top, Input(mode, Tokenizer.Quoted(pre, ws, []), env)) == Step(m, top, Input(mode, Line(typed), env))
  {
    assert pre + ([Tokenizer.Hyphens(ws)] + []) == typed;
    QuotedLikeHyphenated(mode, m, env, top, pre, ws, []);
  }

  lemma HyphensRecorded(mode: Mode, m: Matchers, env: Env, top: seq<string>, ws: seq<string>, line: string)
    requires Inv(top) && CleanWords(ws) && |ws| > 0 && '"' !in Line(ws) && IsAlpha(ws[0][0])
    requires line == Line(["hostname", Tokenizer.Hyphens(ws)])
    ensures Good(line) && '"' !in line && Replaces(top, Step(m, top, Input(mode, line, env)), line)
  {
    var name := Tokenizer.Hyphens(ws);
    HyphensAreClean(ws);
    NameLine(name);
    HostnameRecorded(mode, m, env, top, name);
  }

  lemma HostnameThen(name: string)
    ensures ["hostname", name] == ["hostname"] + [name]
  {
  }

  /** hostname with a quoted stretch of words records them joined by hyphens. */
  lemma QuotedHostname(mode: Mode, m: Matchers, env: Env, top: seq<string>, pre: seq<string>, ws: seq<string>, line: string)
    requires Inv(top) && CleanWords(ws) && |ws| > 0 && '"' !in Line(ws) && IsAlpha(ws[0][0])
    requires pre == ["hostname"] && line == Line(["hostname", Tokenizer.Hyphens(ws)])
    ensures Good(line) && Replaces(top, Step(m, top, Input(mode, Tokenizer.Quoted(pre, ws, []), env)), line)
  {
    HyphensRecorded(mode, m, env, top, ws, line);
    HostnameWord(pre);
    HostnameThen(Tokenizer.Hyphens(ws));
    QuotedAsTyped(mode, m, env, top, pre, ws, pre + [Tokenizer.Hyphens(ws)]);
  }
}
