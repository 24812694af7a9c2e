/** The configuration node: the templates of its commands and what each handler does to config_top.
    A handler validates its arguments and then deletes and adds lines. */
module Commands {
  import opened CText
  import opened Handlers
  import opened Matching
  import opened ConfigStore
  import Ipv4
  import LinkList

  // ---- Templates ----

  function PlainTemplate(p: Plain): seq<seq<string>> {
    match p
    case ShowVersion => [["show"], ["version"]]
    case Exit => [["exit"]]
    case WriteTerminal => [["write"], ["terminal"]]
    case WriteFile => [["write"], ["file"]]
    case WriteMemory => [["write"], ["memory"]]
    case Write => [["write"]]
    case ShowRunningConfig => [["show"], ["running-config"]]
    case ShowStartupConfig => [["show"], ["startup-config"]]
    case Ping => [["ping"], ["WORD"]]
    case PingCount => [["ping"], ["WORD"], ["NUM"]]
    case Reboot => [["reboot"]]
    case Poweroff => [["poweroff"]]
    case Ssh => [["ssh"], ["WORD"]]
    case SshPort => [["ssh"], ["WORD"], ["PORT"]]
    case ShowDate => [["show"], ["date"]]
    case EndShell => [["end"], ["WORD"]]
    case ShowIpAddress => [["show"], ["ip"], ["address"]]
    case ShowIpConfig => [["show"], ["ip"], ["config"]]
    case ShowIpConfigName => [["show"], ["ip"], ["config"], ["WORD"]]
    case ShowIpRoute => [["show"], ["ip"], ["route"]]
    case PortmapApply => [["sfirewall"], ["nat"], ["portmap"], ["apply"]]
    case FilterApply => [["sfirewall"], ["filter"], ["apply"]]
    case ShowSfirewall => [["show"], ["sfirewall"], ["all", "nat", "filter", "mangle"]]
    case ShowWg => [["show"], ["wg"]]
    case ShowWgConf => [["show"], ["wg"], ["ETHNAME"]]
    case WgRekey => [["wg"], ["regenerate-key"]]
    case WgClearkey => [["wg"], ["clear-key"]]
  }

  const PORTMAP_ARGS: seq<seq<string>> := [["NUM"], ["vpn", "wan"], ["A.B.C.D"], ["tcp", "udp", "all"], ["PORT"], ["PORT"]]
  const FILTER_ARGS: seq<seq<string>> := [
    ["NUM"], ["lan2wan", "wan2lan"], ["in", "out", "fw"], ["insert", "append"], ["permit", "deny", "reject"],
    ["tcp", "udp", "icmp"], ["A.B.C.D/E"], ["PORT"], ["A.B.C.D/E"], ["PORT"], ["DAY"], ["FROMTIME"], ["TOTIME"]]
  const PEER: seq<seq<string>> := [["wg"], ["peer"], ["PUBLICKEY"]]
  const ALLOWED: seq<seq<string>> := PEER + [["allowed-ips"], ["WORD"]]
  const ENDPOINT: seq<seq<string>> := ALLOWED + [["endpoint"], ["none", "FQDN:PORT", "A.B.C.D:PORT"]]

  function Template(h: Handler): seq<seq<string>> {
    match h
    case BridgeDisable => [["bridge"], ["disable"]]
    case NoBridgeDisable => [["no"], ["bridge"], ["disable"]]
    case BridgeAdd => [["bridge"], ["NUM"], ["WORD"], ["WORD"]]
    case NoBridgeAdd => [["no"], ["bridge"], ["NUM"]]
    case Hostname => [["hostname"], ["WORD"]]
    case NoHostname => [["no"], ["hostname"], ["[HOSTNAME]"]]
    case IpAddress => [["ip"], ["address"], ["ETHNAME"], ["A.B.C.D"], ["A.B.C.D"]]
    case NoIpAddress => [["no"], ["ip"], ["address"], ["ETHNAME"]]
    case IpAddressDhcp => [["ip"], ["address"], ["ETHNAME"], ["dhcp"]]
    case IpRoute => [["ip"], ["route"], ["A.B.C.D"], ["A.B.C.D"], ["A.B.C.D"], ["ETHNAME"]]
    case NoIpRoute => [["no"], ["ip"], ["route"], ["A.B.C.D"], ["A.B.C.D"]]
    case Dns => [["nameserver"], ["A.B.C.D"], ["A.B.C.D"]]
    case NoDns => [["no"], ["nameserver"]]
    case Portmap => [["sfirewall"], ["nat"], ["portmap"]] + PORTMAP_ARGS
    case NoPortmap => [["no"], ["sfirewall"], ["nat"], ["portmap"]] + PORTMAP_ARGS
    case Filter => [["sfirewall"], ["filter"]] + FILTER_ARGS
    case NoFilter => [["no"], ["sfirewall"], ["filter"]] + FILTER_ARGS
    case WgListenport => [["wg"], ["listenport"], ["NUM"]]
    case WgPeer => PEER
    case WgPeerAllowedIps => ALLOWED
    case WgPeerEndpoint => ENDPOINT
    case WgPeerKeepalive => ENDPOINT + [["persistent-keepalive"], ["off", "NUM"]]
    case NoWgPeer => [["no"], ["wg"], ["peer"], ["PUBLICKEY"]]
    case WgLink => [["wg"], ["link-up", "link-down"]]
    case Other(p) => PlainTemplate(p)
  }

  // What cmd_bridge_init, cmd_common_init, ... install in the configuration node.
  const BRIDGE_INIT: seq<Handler> := [BridgeDisable, NoBridgeDisable, BridgeAdd, NoBridgeAdd]
  const COMMON_INIT: seq<Handler> :=
    [Other(ShowVersion), Other(Exit), Other(WriteTerminal), Other(WriteFile)]
    + [Other(WriteMemory), Other(Write), Other(ShowRunningConfig), Other(ShowStartupConfig)] + [Hostname, NoHostname]
  const TOOL_INIT: seq<Handler> :=
    [Other(Ping), Other(PingCount), Other(Reboot), Other(Poweroff)] + [Other(Ssh), Other(SshPort), Other(ShowDate), Other(EndShell)]
  const IP_INIT: seq<Handler> :=
    [Other(ShowIpAddress), Other(ShowIpConfig), Other(ShowIpConfigName), Other(ShowIpRoute)]
    + [IpAddress, NoIpAddress, IpAddressDhcp, IpRoute] + [NoIpRoute, Dns, NoDns]
  const FIREWALL_INIT: seq<Handler> :=
    [Portmap, NoPortmap, Other(PortmapApply), Filter] + [NoFilter, Other(FilterApply), Other(ShowSfirewall)]
  const VPN_INIT: seq<Handler> :=
    [Other(ShowWg), Other(ShowWgConf), WgListenport, WgPeer]
    + [WgPeerAllowedIps, WgPeerEndpoint, WgPeerKeepalive, NoWgPeer] + [WgLink, Other(WgRekey), Other(WgClearkey)]

  /** The vector of the configuration node in the order of installation. */
  const INSTALLED: seq<Handler> := BRIDGE_INIT + COMMON_INIT + TOOL_INIT + IP_INIT + FIREWALL_INIT + VPN_INIT

  function Install(hs: seq<Handler>): seq<Element> {
    if |hs| == 0 then [] else Install(hs[..|hs| - 1]) + [Element(hs[|hs| - 1], Template(hs[|hs| - 1]))]
  }

  lemma {:induction false} InstalledTemplates(hs: seq<Handler>, c: Element)
    requires c in Install(hs)
    ensures c.strvec == Template(c.id) && c.id in hs
  {
    var k := |hs| - 1;
    if c != Element(hs[k], Template(hs[k])) {
      InstalledTemplates(hs[..k], c);
    }
  }

  // ---- Numbers ----

  /** (int) strtol(s, 0, 10) on the leading sign and digits, with long of 64 and int of 32 bits. */
  function Atoi(s: string): int {
    var neg := |s| > 0 && s[0] == '-';
    var t := if neg || (|s| > 0 && s[0] == '+') then s[1..] else s;
    var v: int := Ipv4.Decimal(t[..Ipv4.DigitRun(t)]);
    ToInt32(Clamp64(if neg then -v else v))
  }

  function Clamp64(v: int): int {
    if v > 0x7fff_ffff_ffff_ffff then 0x7fff_ffff_ffff_ffff
    else if v < -0x8000_0000_0000_0000 then -0x8000_0000_0000_0000
    else v
  }

  function ToInt32(v: int): int { (v + 0x8000_0000) % 0x1_0000_0000 - 0x8000_0000 }

  /** printf("%d"). */
  function Digits(n: nat): (s: string)
    ensures |s| > 0 && forall i :: 0 <= i < |s| ==> IsDigit(s[i])
  {
    if n < 10 then [('0' as int + n) as char] else Digits(n / 10) + [('0' as int + n % 10) as char]
  }

  function Show(n: int): string { if n < 0 then "-" + Digits(-n) else Digits(n) }

  // ---- Validation ----

  predicate FirstIsDigit(s: string) { |s| > 0 && IsDigit(s[0]) }

  predicate Supported(name: string) { name == "lan" || name == "wan" || "wg0" <= name || "wg1" <= name }

  predicate PublicKey(key: string) { |key| == 44 && key[43] == '=' }

  /** strtok with a single separator. */
  function Strtok(s: string, sep: char, i: nat): seq<string>
    requires i <= |s|
    decreases |s| - i
  {
    if i == |s| then []
    else if s[i] == sep then Strtok(s, sep, i + 1)
    else
      var k := TokenEnd(s, sep, i);
      [s[i..k]] + Strtok(s, sep, k)
  }

  function TokenEnd(s: string, sep: char, i: nat): (k: nat)
    requires i < |s| && s[i] != sep
    ensures i < k <= |s|
    decreases |s| - i
  {
    if i + 1 == |s| || s[i + 1] == sep then i + 1 else TokenEnd(s, sep, i + 1)
  }

  predicate PortOk(s: string) { s == "any" || (FirstIsDigit(s) && 0 < Atoi(s) <= 65535) }

  predicate CidrOk(s: string) {
    FirstIsDigit(s) && exists p :: 0 <= p < |s| && s[p] == '/' && (forall i :: 0 <= i < p ==> s[i] != '/') && |s| - p <= 3
  }

  predicate DayOk(s: string) {
    s == "any" || (var days := Strtok(s, '|', 0); |days| <= 7 && forall i :: 0 <= i < |days| ==> |days[i]| == 3)
  }

  predicate TimeOk(s: string) {
    s == "any" ||
    (var parts := Strtok(s, ':', 0);
     |parts| >= 2 && |parts[0]| == 2 && 0 <= Atoi(parts[0]) <= 23 && |parts[1]| == 2 && 0 <= Atoi(parts[1]) <= 59)
  }

  predicate FilterOk(argv: seq<string>)
    requires |argv| == 13
  {
    && FirstIsDigit(argv[0])
    && (argv[1] == "lan2wan" || argv[1] == "wan2lan")
    && (argv[2] == "in" || argv[2] == "out" || argv[2] == "fw")
    && (argv[3] == "insert" || argv[3] == "append")
    && (argv[4] == "permit" || argv[4] == "deny" || argv[4] == "reject")
    && PortOk(argv[7]) && PortOk(argv[9]) && CidrOk(argv[6]) && CidrOk(argv[8])
    && DayOk(argv[10]) && TimeOk(argv[11]) && TimeOk(argv[12])
  }

  predicate PortmapOk(argv: seq<string>)
    requires |argv| == 6
  {
    FirstIsDigit(argv[0]) && (argv[3] == "all" ==> argv[4] == "0" && argv[5] == "0")
  }

  // ---- Effects ----

  /** What the outside world answers: whether the terminal is a file, a y/n question, two interface probes and brctl. */
  datatype Env = Env(file: bool, confirmed: bool, if1: bool, if2: bool, brctl: bool)

  datatype Op = Add(line: string) | Del(line: string) | DelPrefix(left: string)

  function Apply1(top: seq<string>, op: Op): seq<string> {
    match op
    case Add(line) => AddLine(top, line)
    case Del(line) => DelLine(top, line)
    case DelPrefix(left) => DelLeft(top, left)
  }

  function Apply(top: seq<string>, ops: seq<Op>): seq<string>
  {
    if |ops| == 0 then top else Apply1(Apply(top, ops[..|ops| - 1]), ops[|ops| - 1])
  }

  /** How many arguments the template passes to the handler. */
  predicate Fits(h: Handler, n: nat) {
    match h
    case BridgeDisable | NoBridgeDisable | NoDns => n == 0
    case NoBridgeAdd | Hostname | NoIpAddress | IpAddressDhcp | WgListenport | WgPeer | NoWgPeer | WgLink => n == 1
    case NoHostname => n <= 1
    case NoIpRoute | Dns | WgPeerAllowedIps => n == 2
    case BridgeAdd | IpAddress | WgPeerEndpoint => n == 3
    case IpRoute | WgPeerKeepalive => n == 4
    case Portmap | NoPortmap => n == 6
    case Filter | NoFilter => n == 13
    case Other(_) => true
  }

  function FilterLine(argv: seq<string>): string { Line(["sfirewall", "filter"] + argv) }

  /** Replace whatever is recorded under the prefix by the new line. */
  function Replace(left: string, line: string): seq<Op> { [DelPrefix(left), Add(line)] }

  function PeerOps(key: string, line: string): seq<Op> { Replace(Line(["wg", "peer", key]), line) }

  function BridgeOps(argv: seq<string>, env: Env): seq<Op>
    requires |argv| == 3
  {
    var n := Show(Atoi(argv[0]));
    Replace(Line(["bridge", n]), Line(["bridge", n, argv[1], argv[2]]))
    + (if !env.file && !env.brctl then [DelPrefix(Line(["bridge", n]))] else [])
  }

  function LinkOps(word: string): seq<Op> {
    [DelPrefix("wg link-up"), DelPrefix("wg link-down"), Add(if word == "link-up" then "wg link-up" else "wg link-down")]
  }

  /** The deletions and additions a handler performs, or None when it refuses its arguments. */
  function Plan(h: Handler, argv: seq<string>, env: Env): Option<seq<Op>>
    requires Fits(h, |argv|)
  {
    match h
    case BridgeDisable => Some([Del("bridge disable"), Add("bridge disable")])
    case NoBridgeDisable => Some([Del("bridge disable")])
    case BridgeAdd =>
      if 1 <= Atoi(argv[0]) <= 9 && '"' !in argv[1] && env.if1 && '"' !in argv[2] && env.if2
      then Some(BridgeOps(argv, env)) else None
    case NoBridgeAdd =>
      if 1 <= Atoi(argv[0]) <= 9 then Some([DelPrefix(Line(["bridge", Show(Atoi(argv[0]))]))]) else None
    case Hostname =>
      if |argv[0]| > 0 && IsAlpha(argv[0][0]) then Some(Replace("hostname", Line(["hostname", argv[0]]))) else None
    case NoHostname => Some([DelPrefix("hostname ")])
    case IpAddress =>
      if Supported(argv[0]) then Some(Replace(Line(["ip", "address", argv[0]]), Line(["ip", "address"] + argv))) else None
    case NoIpAddress =>
      if !Supported(argv[0]) then None
      else Some(if env.confirmed then [DelPrefix(Line(["ip", "address", argv[0]]))] else [])
    case IpAddressDhcp =>
      if argv[0] == "wan"
      then Some(Replace(Line(["ip", "address", argv[0]]), Line(["ip", "address", argv[0], "dhcp"]))) else None
    case IpRoute =>
      if Supported(argv[3]) then Some([Del(Line(["ip", "route"] + argv)), Add(Line(["ip", "route"] + argv))]) else None
    case NoIpRoute => Some([DelPrefix(Line(["ip", "route"] + argv))])
    case Dns => Some(Replace("nameserver", Line(["nameserver"] + argv)))
    case NoDns => Some([DelPrefix("nameserver")])
    case Portmap =>
      if PortmapOk(argv)
      then Some([Del(Line(["sfirewall", "nat", "portmap"] + argv)), Add(Line(["sfirewall", "nat", "portmap"] + argv))]) else None
    case NoPortmap =>
      if PortmapOk(argv) then Some([Del(Line(["sfirewall", "nat", "portmap"] + argv))]) else None
    case Filter =>
      if FilterOk(argv)
      then Some([Del(FilterLine(argv[3 := if argv[3] == "append" then "insert" else "append"])), Del(FilterLine(argv)), Add(FilterLine(argv))])
      else None
    case NoFilter => if FilterOk(argv) then Some([Del(FilterLine(argv))]) else None
    case WgListenport => Some(Replace("wg listenport", Line(["wg", "listenport", Show(Atoi(argv[0]))])))
    case WgPeer => if PublicKey(argv[0]) then Some(PeerOps(argv[0], Line(["wg", "peer", argv[0]]))) else None
    case WgPeerAllowedIps =>
      if PublicKey(argv[0]) && FirstIsDigit(argv[1])
      then Some(PeerOps(argv[0], Line(["wg", "peer", argv[0], "allowed-ips", argv[1]]))) else None
    case WgPeerEndpoint =>
      if PublicKey(argv[0]) && FirstIsDigit(argv[1]) && |argv[2]| <= 128 && '/' !in argv[2]
      then Some(PeerOps(argv[0], Line(["wg", "peer", argv[0], "allowed-ips", argv[1], "endpoint", argv[2]]))) else None
    case WgPeerKeepalive =>
      if PublicKey(argv[0]) && FirstIsDigit(argv[1]) && |argv[2]| <= 128 && '/' !in argv[2]
         && (FirstIsDigit(argv[3]) ==> 1 <= Atoi(argv[3]) <= 1800)
      then Some(PeerOps(argv[0], Line(["wg", "peer", argv[0], "allowed-ips", argv[1], "endpoint", argv[2], "persistent-keepalive", argv[3]])))
      else None
    case NoWgPeer => Some([DelPrefix(Line(["wg", "peer", argv[0]]))])
    case WgLink => Some(LinkOps(argv[0]))
    case Other(_) => Some([])
  }

  method Perform1(config: LinkList.List, op: Op)
    requires config.Valid() && config.cmp == Some(Less)
    modifies config, config.repr
    ensures config.Valid() && fresh(config.repr - old(config.repr))
    ensures config.contents == Apply1(old(config.contents), op)
  {
    match op {
      case Add(line) => ConfigAddLine(config, line);
      case Del(line) => ConfigDelLine(config, line);
      case DelPrefix(left) => ConfigDelLineByLeft(config, left);
    }
  }

  method Perform(config: LinkList.List, ops: seq<Op>)
    requires config.Valid() && config.cmp == Some(Less)
    modifies config, config.repr
    ensures config.Valid() && fresh(config.repr - old(config.repr))
    ensures config.contents == Apply(old(config.contents), ops)
  {
    for i := 0 to |ops|
      invariant config.Valid() && fresh(config.repr - old(config.repr))
      invariant config.contents == Apply(old(config.contents), ops[..i])
    {
      assert ops[..i + 1][..i] == ops[..i];
      Perform1(config, ops[i]);
    }
    assert ops[..|ops|] == ops;
  }

  /** A handler at work on the linked list. */
  method Handle(config: LinkList.List, h: Handler, argv: seq<string>, env: Env) returns (accepted: bool)
    requires config.Valid() && config.cmp == Some(Less) && Fits(h, |argv|)
    modifies config, config.repr
    ensures config.Valid() && fresh(config.repr - old(config.repr))
    ensures accepted == Plan(h, argv, env).Some?
    ensures config.contents == if accepted then Apply(old(config.contents), Plan(h, argv, env).value) else old(config.contents)
  {
    var plan := Plan(h, argv, env);
    accepted := plan.Some?;
    if accepted {
      Perform(config, plan.value);
    }
  }
}
