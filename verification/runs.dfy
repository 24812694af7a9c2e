/** Every handler keeps the invariant of config_top, and so does every run of typed lines. */
module Runs {
  import opened CText
  import opened ListSpec
  import opened ConfigStore
  import opened Handlers
  import opened Matching
  import opened Commands
  import opened Keys
  import Ipv4
  import Shell
  import Tokenizer

  // ---- Small plans ----

  lemma ApplyOne(top: seq<string>, a: Op)
    ensures Apply(top, [a]) == Apply1(top, a)
  {
    assert [a][..0] == [];
  }

  lemma ApplyLast(top: seq<string>, ops: seq<Op>, op: Op)
    ensures Apply(top, ops + [op]) == Apply1(Apply(top, ops), op)
  {
    assert (ops + [op])[..|ops|] == ops;
  }

  lemma ApplyTwo(top: seq<string>, a: Op, b: Op)
    ensures Apply(top, [a, b]) == Apply1(Apply1(top, a), b)
  {
    assert [a, b][..1] == [a];
    ApplyOne(top, a);
  }

  lemma ApplyThree(top: seq<string>, a: Op, b: Op, c: Op)
    ensures Apply(top, [a, b, c]) == Apply1(Apply1(Apply1(top, a), b), c)
  {
    ApplyTwo(top, a, b);
    ApplyLast(top, [a, b], c);
    assert [a, b] + [c] == [a, b, c];
  }

  lemma DeleteKeepsInv(top: seq<string>, op: Op)
    requires Inv(top) && !op.Add?
    ensures Inv(Apply1(top, op))
  {
    match op {
      case Del(line) => RemoveKeepsInv(top, l => l == line);
      case DelPrefix(left) => RemoveKeepsInv(top, l => left <= l);
    }
  }

  /** Replacing under a prefix that hits the key first. */
  lemma ReplaceKeepsInv(top: seq<string>, left: string, ws: seq<string>)
    requires Inv(top) && Recorded(ws) && HitsKeyFirst(top, left, KeyOf(ws))
    ensures Inv(Apply(top, Replace(left, Line(ws))))
  {
    DelLeftClears(top, left, KeyOf(ws));
    AddKeepsInv(DelLeft(top, left), ws);
    ApplyTwo(top, DelPrefix(left), Add(Line(ws)));
  }

  lemma ReplaceByPrefix(top: seq<string>, left: string, ws: seq<string>)
    requires Inv(top) && Recorded(ws) && PrefixIsKey(left, KeyOf(ws))
    ensures Inv(Apply(top, Replace(left, Line(ws))))
  {
    ReplaceKeepsInv(top, left, ws);
  }

  /** Replacing a line by itself. */
  lemma RenewKeepsInv(top: seq<string>, ws: seq<string>)
    requires Inv(top) && Recorded(ws) && KeyOf(ws) == LineKey(ws)
    ensures Inv(Apply(top, [Del(Line(ws)), Add(Line(ws))]))
  {
    DelLineClears(top, Line(ws));
    AddKeepsInv(DelLine(top, Line(ws)), ws);
    ApplyTwo(top, Del(Line(ws)), Add(Line(ws)));
  }

  // ---- The recorded shapes ----

  lemma CleanJoin(a: seq<string>, b: seq<string>)
    requires CleanWords(a) && CleanWords(b)
    ensures CleanWords(a + b)
  {
  }

  lemma CleanKeywords()
    ensures CleanWords(["ip", "address"]) && CleanWords(["ip", "route"]) && CleanWords(["hostname"]) && CleanWords(["nameserver"])
    ensures CleanWords(["bridge"]) && CleanWords(["bridge", "disable"])
  {
  }

  lemma CleanWgKeywords()
    ensures CleanWords(["wg", "listenport"]) && CleanWords(["wg", "peer"])
    ensures CleanWords(["wg", "link-up"]) && CleanWords(["wg", "link-down"])
  {
  }

  lemma CleanFirewallKeywords()
    ensures CleanWords(["sfirewall", "nat", "portmap"]) && CleanWords(["sfirewall", "filter"]) && CleanWords(["dhcp"])
  {
  }

  lemma CleanPeerKeywords()
    ensures CleanWords(["allowed-ips"]) && CleanWords(["endpoint"]) && CleanWords(["persistent-keepalive"])
  {
  }

  lemma CleanPart(ws: seq<string>, i: nat)
    requires CleanWords(ws) && i < |ws|
    ensures CleanWords([ws[i]])
  {
  }

  lemma {:induction false} CleanDigits(n: nat)
    ensures IsWord(Digits(n)) && Printable(Digits(n))
    ensures 1 <= n <= 9 ==> |Digits(n)| == 1 && Digits(n) != "d"
  {
    if n >= 10 { CleanDigits(n / 10); }
  }

  lemma CleanShow(n: int)
    ensures CleanWords([Show(n)])
    ensures 1 <= n <= 9 ==> |Show(n)| == 1 && Show(n) != "d"
  {
    CleanDigits(if n < 0 then -n else n);
  }

  // ---- Each handler ----

  lemma HostnameKeeps(top: seq<string>, w: string)
    requires Inv(top) && CleanWords([w])
    ensures Inv(Apply(top, Replace("hostname", Line(["hostname", w]))))
  {
    CleanKeywords();
    CleanJoin(["hostname"], [w]);
    assert ["hostname", w] == ["hostname"] + [w];
    HostnamePrefix();
    ReplaceByPrefix(top, "hostname", ["hostname", w]);
  }

  lemma DnsKeeps(top: seq<string>, argv: seq<string>)
    requires Inv(top) && CleanWords(argv) && |argv| == 2
    ensures Inv(Apply(top, Replace("nameserver", Line(["nameserver"] + argv))))
  {
    CleanKeywords();
    CleanJoin(["nameserver"], argv);
    NameserverPrefix();
    ReplaceByPrefix(top, "nameserver", ["nameserver"] + argv);
  }

  lemma ListenportKeeps(top: seq<string>, n: int)
    requires Inv(top)
    ensures Inv(Apply(top, Replace("wg listenport", Line(["wg", "listenport", Show(n)]))))
  {
    CleanWgKeywords();
    CleanShow(n);
    CleanJoin(["wg", "listenport"], [Show(n)]);
    assert ["wg", "listenport", Show(n)] == ["wg", "listenport"] + [Show(n)];
    ListenportPrefix();
    ReplaceByPrefix(top, "wg listenport", ["wg", "listenport", Show(n)]);
  }

  lemma AddressKeeps(top: seq<string>, name: string, rest: seq<string>)
    requires Inv(top) && CleanWords([name] + rest) && |rest| > 0
    ensures Inv(Apply(top, Replace(Line(["ip", "address", name]), Line(["ip", "address"] + [name] + rest))))
  {
    CleanKeywords();
    CleanJoin(["ip", "address"], [name] + rest);
    var ws := ["ip", "address"] + [name] + rest;
    assert ws == ["ip", "address"] + ([name] + rest);
    assert ([name] + rest)[0] == name;
    AddressHits(top, name);
    ReplaceKeepsInv(top, Line(["ip", "address", name]), ws);
  }

  lemma PeerKeeps(top: seq<string>, key: string, rest: seq<string>)
    requires Inv(top) && CleanWords([key] + rest) && |key| == 44
    ensures Inv(Apply(top, PeerOps(key, Line(["wg", "peer"] + ([key] + rest)))))
  {
    CleanWgKeywords();
    CleanJoin(["wg", "peer"], [key] + rest);
    assert ([key] + rest)[0] == key;
    PeerPrefix(key);
    ReplaceByPrefix(top, Line(["wg", "peer", key]), ["wg", "peer"] + ([key] + rest));
  }

  lemma BridgeRecorded(argv: seq<string>)
    requires CleanWords(argv) && |argv| == 3 && 1 <= Atoi(argv[0]) <= 9
    ensures var n := Show(Atoi(argv[0]));
            && IsWord(n) && |n| == 1 && n != "d"
            && Recorded(["bridge", n, argv[1], argv[2]]) && KeyOf(["bridge", n, argv[1], argv[2]]) == BridgeKey(n)
  {
    CleanKeywords();
    CleanShow(Atoi(argv[0]));
    CleanJoin(["bridge"], [Show(Atoi(argv[0]))]);
    CleanJoin(["bridge"] + [Show(Atoi(argv[0]))], argv[1..]);
    assert ["bridge", Show(Atoi(argv[0])), argv[1], argv[2]] == ["bridge"] + [Show(Atoi(argv[0]))] + argv[1..];
  }

  lemma BridgeKeeps(top: seq<string>, argv: seq<string>, env: Env)
    requires Inv(top) && CleanWords(argv) && |argv| == 3 && 1 <= Atoi(argv[0]) <= 9
    ensures Inv(Apply(top, BridgeOps(argv, env)))
  {
    var n := Show(Atoi(argv[0]));
    BridgeRecorded(argv);
    var ws := ["bridge", n, argv[1], argv[2]];
    var left := Line(["bridge", n]);
    BridgePrefix(n);
    ReplaceByPrefix(top, left, ws);
    var ops := Replace(left, Line(ws));
    if env.file || env.brctl {
      assert BridgeOps(argv, env) == ops;
    } else {
      assert BridgeOps(argv, env) == ops + [DelPrefix(left)];
      assert BridgeOps(argv, env)[..2] == ops;
      DeleteKeepsInv(Apply(top, ops), DelPrefix(left));
    }
  }

  lemma LinkKeeps(top: seq<string>, word: string)
    requires Inv(top)
    ensures Inv(Apply(top, LinkOps(word)))
  {
    CleanWgKeywords();
    LinkLines();
    LinkClears(top);
    var r := DelLeft(DelLeft(top, "wg link-up"), "wg link-down");
    var line := if word == "link-up" then "wg link-up" else "wg link-down";
    AddKeepsInv(r, if word == "link-up" then ["wg", "link-up"] else ["wg", "link-down"]);
    ApplyThree(top, DelPrefix("wg link-up"), DelPrefix("wg link-down"), Add(line));
  }

  lemma RouteKeeps(top: seq<string>, argv: seq<string>)
    requires Inv(top) && CleanWords(argv) && |argv| == 4
    ensures Inv(Apply(top, [Del(Line(["ip", "route"] + argv)), Add(Line(["ip", "route"] + argv))]))
  {
    CleanKeywords();
    CleanJoin(["ip", "route"], argv);
    RenewKeepsInv(top, ["ip", "route"] + argv);
  }

  lemma PortmapKeeps(top: seq<string>, argv: seq<string>)
    requires Inv(top) && CleanWords(argv) && |argv| == 6
    ensures var l := Line(["sfirewall", "nat", "portmap"] + argv); Inv(Apply(top, [Del(l), Add(l)]))
  {
    CleanFirewallKeywords();
    CleanJoin(["sfirewall", "nat", "portmap"], argv);
    RenewKeepsInv(top, ["sfirewall", "nat", "portmap"] + argv);
  }

  lemma BridgeDisableKeeps(top: seq<string>)
    requires Inv(top)
    ensures Inv(Apply(top, [Del("bridge disable"), Add("bridge disable")]))
  {
    CleanKeywords();
    LineOfTwo("bridge", "disable");
    assert "bridge" + " " + "disable" == "bridge disable";
    RenewKeepsInv(top, ["bridge", "disable"]);
  }

  /** A filter rule with the same key is the same rule or its insert/append twin. */
  lemma RuleTwins(ws: seq<string>, ws': seq<string>)
    requires Recorded(ws) && Recorded(ws') && KeyOf(ws).RuleKey? && KeyOf(ws') == KeyOf(ws)
    ensures ws' == ws || ws' == ws[5 := if ws[5] == "append" then "insert" else "append"]
  {
    var a, b := ws[..5] + ws[6..], ws'[..5] + ws'[6..];
    assert forall i :: 0 <= i < 15 && i != 5 ==> ws[i] == a[if i < 5 then i else i - 1];
    assert forall i :: 0 <= i < 15 && i != 5 ==> ws'[i] == b[if i < 5 then i else i - 1];
  }

  lemma FilterRecorded(argv: seq<string>)
    requires CleanWords(argv) && |argv| == 13 && (argv[3] == "insert" || argv[3] == "append")
    ensures Recorded(["sfirewall", "filter"] + argv) && KeyOf(["sfirewall", "filter"] + argv).RuleKey?
  {
    CleanFirewallKeywords();
    CleanJoin(["sfirewall", "filter"], argv);
  }

  lemma FilterKeeps(top: seq<string>, argv: seq<string>)
    requires Inv(top) && CleanWords(argv) && |argv| == 13 && (argv[3] == "insert" || argv[3] == "append")
    ensures var twin := argv[3 := if argv[3] == "append" then "insert" else "append"];
            Inv(Apply(top, [Del(FilterLine(twin)), Del(FilterLine(argv)), Add(FilterLine(argv))]))
  {
    var ws := ["sfirewall", "filter"] + argv;
    FilterRecorded(argv);
    var other := if argv[3] == "append" then "insert" else "append";
    var twin := argv[3 := other];
    assert ["sfirewall", "filter"] + twin == ws[5 := other];
    DelLineClears(top, FilterLine(twin));
    var mid := DelLine(top, FilterLine(twin));
    DelLineClears(mid, FilterLine(argv));
    var r := DelLine(mid, FilterLine(argv));
    forall l | l in r ensures KeyOfLine(l) != KeyOf(ws) {
      if KeyOfLine(l) == KeyOf(ws) { RuleTwins(ws, Words(l)); }
    }
    AddKeepsInv(r, ws);
    ApplyThree(top, Del(FilterLine(twin)), Del(FilterLine(argv)), Add(FilterLine(argv)));
  }

  // ---- Any plan, any step, any run ----

  lemma DhcpKeeps(top: seq<string>, name: string)
    requires Inv(top) && CleanWords([name])
    ensures Inv(Apply(top, Replace(Line(["ip", "address", name]), Line(["ip", "address", name, "dhcp"]))))
  {
    CleanFirewallKeywords();
    CleanJoin([name], ["dhcp"]);
    AddressKeeps(top, name, ["dhcp"]);
    assert ["ip", "address", name, "dhcp"] == ["ip", "address"] + [name] + ["dhcp"];
  }

  lemma IpAddressKeeps(top: seq<string>, argv: seq<string>)
    requires Inv(top) && CleanWords(argv) && |argv| == 3
    ensures Inv(Apply(top, Replace(Line(["ip", "address", argv[0]]), Line(["ip", "address"] + argv))))
  {
    assert argv == [argv[0]] + argv[1..];
    assert ["ip", "address"] + argv == ["ip", "address"] + [argv[0]] + argv[1..];
    AddressKeeps(top, argv[0], argv[1..]);
  }

  /** What a peer command records behind the key. */
  function PeerRest(h: Handler, argv: seq<string>): seq<string>
    requires h in [WgPeer, WgPeerAllowedIps, WgPeerEndpoint, WgPeerKeepalive] && Fits(h, |argv|)
  {
    match h
    case WgPeer => []
    case WgPeerAllowedIps => ["allowed-ips", argv[1]]
    case WgPeerEndpoint => ["allowed-ips", argv[1], "endpoint", argv[2]]
    case WgPeerKeepalive => ["allowed-ips", argv[1], "endpoint", argv[2], "persistent-keepalive", argv[3]]
  }

  lemma PeerRestClean(h: Handler, argv: seq<string>)
    requires h in [WgPeer, WgPeerAllowedIps, WgPeerEndpoint, WgPeerKeepalive] && Fits(h, |argv|) && CleanWords(argv)
    ensures CleanWords([argv[0]] + PeerRest(h, argv))
  {
    CleanPeerKeywords();
  }

  /** The four peer commands. */
  lemma PeerPlansKeep(top: seq<string>, h: Handler, argv: seq<string>, env: Env)
    requires Inv(top) && CleanWords(argv) && h in [WgPeer, WgPeerAllowedIps, WgPeerEndpoint, WgPeerKeepalive]
    requires Fits(h, |argv|) && Plan(h, argv, env).Some?
    ensures Inv(Apply(top, Plan(h, argv, env).value))
  {
    PeerRestClean(h, argv);
    PeerKeeps(top, argv[0], PeerRest(h, argv));
    PeerLine(h, argv, PeerRest(h, argv));
  }

  lemma PeerLine(h: Handler, argv: seq<string>, rest: seq<string>)
    requires h in [WgPeer, WgPeerAllowedIps, WgPeerEndpoint, WgPeerKeepalive] && Fits(h, |argv|)
    requires rest == PeerRest(h, argv)
    ensures forall env :: Plan(h, argv, env).Some? ==> Plan(h, argv, env).value == PeerOps(argv[0], Line(["wg", "peer"] + ([argv[0]] + rest)))
  {
    var all := ["wg", "peer"] + ([argv[0]] + rest);
    match h {
      case WgPeer => assert all == ["wg", "peer", argv[0]];
      case WgPeerAllowedIps => assert all == ["wg", "peer", argv[0], "allowed-ips", argv[1]];
      case WgPeerEndpoint => assert all == ["wg", "peer", argv[0], "allowed-ips", argv[1], "endpoint", argv[2]];
      case WgPeerKeepalive =>
        assert all == ["wg", "peer", argv[0], "allowed-ips", argv[1], "endpoint", argv[2], "persistent-keepalive", argv[3]];
    }
  }

  /** Plans that only delete. */
  lemma {:induction false} DeletesKeepInv(top: seq<string>, ops: seq<Op>)
    requires Inv(top) && forall i :: 0 <= i < |ops| ==> !ops[i].Add?
    ensures Inv(Apply(top, ops))
  {
    if |ops| > 0 {
      DeletesKeepInv(top, ops[..|ops| - 1]);
      DeleteKeepsInv(Apply(top, ops[..|ops| - 1]), ops[|ops| - 1]);
    }
  }

  /** Every plan of every handler keeps the invariant. */
  lemma PlanKeepsInv(top: seq<string>, h: Handler, argv: seq<string>, env: Env)
    requires Inv(top) && CleanWords(argv) && Fits(h, |argv|) && Plan(h, argv, env).Some?
    ensures Inv(Apply(top, Plan(h, argv, env).value))
  {
    match h {
      case BridgeDisable => BridgeDisableKeeps(top);
      case BridgeAdd => BridgeKeeps(top, argv, env);
      case Hostname => CleanPart(argv, 0); HostnameKeeps(top, argv[0]);
      case IpAddress => IpAddressKeeps(top, argv);
      case IpAddressDhcp => CleanPart(argv, 0); DhcpKeeps(top, argv[0]);
      case IpRoute => RouteKeeps(top, argv);
      case Dns => DnsKeeps(top, argv);
      case Portmap => PortmapKeeps(top, argv);
      case Filter => FilterKeeps(top, argv);
      case WgListenport => ListenportKeeps(top, Atoi(argv[0]));
      case WgPeer | WgPeerAllowedIps | WgPeerEndpoint | WgPeerKeepalive => PeerPlansKeep(top, h, argv, env);
      case WgLink => LinkKeeps(top, argv[0]);
      case NoBridgeDisable | NoBridgeAdd | NoHostname | NoIpAddress | NoIpRoute | NoDns | NoPortmap | NoFilter | NoWgPeer | Other(_) =>
        DeletesKeepInv(top, Plan(h, argv, env).value);
    }
  }
}
