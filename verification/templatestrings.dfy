/** The template strings of the installed commands: each is read back by the parser as its template. */
module TemplateStrings {
  import opened CText
  import opened Handlers
  import opened Commands
  import opened TemplateParser

  /** Letters, digits, brackets and the punctuation between hyphen and colon. */
  predicate Lettered(t: Positions) {
    forall k :: 0 <= k < |t| ==> |t[k]| > 0 && forall j :: 0 <= j < |t[k]| ==> LetteredWord(t[k][j])
  }

  predicate LetteredWord(w: string) { |w| > 0 && forall i :: 0 <= i < |w| ==> '-' <= w[i] <= 'z' }

  lemma LetteredPrintable(t: Positions)
    requires Lettered(t)
    ensures Printable(t)
  {
    forall k, j | 0 <= k < |t| && 0 <= j < |t[k]| ensures PlainWord(t[k][j]) { assert LetteredWord(t[k][j]); }
  }

  lemma LetteredJoin(a: Positions, b: Positions)
    requires Lettered(a) && Lettered(b)
    ensures Lettered(a + b)
  {
  }

  lemma PlainLettered(p: Plain)
    ensures Lettered(PlainTemplate(p))
  {
    match p {
      case ShowVersion | ShowRunningConfig | ShowStartupConfig | ShowDate => ShowLettered(p);
      case ShowIpAddress | ShowIpConfig | ShowIpConfigName | ShowIpRoute => ShowIpLettered(p);
      case ShowSfirewall | ShowWg | ShowWgConf => ShowWgLettered(p);
      case PortmapApply | FilterApply => ApplyLettered(p);
      case WgRekey | WgClearkey => KeysLettered(p);
      case Exit | WriteTerminal | WriteFile | WriteMemory | Write | EndShell => WriteLettered(p);
      case _ => ToolLettered(p);
    }
  }

  lemma ShowLettered(p: Plain)
    requires p in [ShowVersion, ShowRunningConfig, ShowStartupConfig, ShowDate]
    ensures Lettered(PlainTemplate(p))
  {
  }

  lemma ShowIpLettered(p: Plain)
    requires p in [ShowIpAddress, ShowIpConfig, ShowIpConfigName, ShowIpRoute]
    ensures Lettered(PlainTemplate(p))
  {
  }

  lemma ShowWgLettered(p: Plain)
    requires p in [ShowSfirewall, ShowWg, ShowWgConf]
    ensures Lettered(PlainTemplate(p))
  {
  }

  lemma ApplyLettered(p: Plain)
    requires p == PortmapApply || p == FilterApply
    ensures Lettered(PlainTemplate(p))
  {
  }

  lemma KeysLettered(p: Plain)
    requires p == WgRekey || p == WgClearkey
    ensures Lettered(PlainTemplate(p))
  {
  }

  lemma WriteLettered(p: Plain)
    requires p in [Exit, WriteTerminal, WriteFile, WriteMemory, Write, EndShell]
    ensures Lettered(PlainTemplate(p))
  {
  }

  lemma ToolLettered(p: Plain)
    requires p in [Ping, PingCount, Reboot, Poweroff, Ssh, SshPort]
    ensures Lettered(PlainTemplate(p))
  {
  }

  lemma IpLettered(h: Handler)
    requires h == IpAddress || h == NoIpAddress
    ensures Lettered(Template(h))
  {
  }

  lemma DhcpLettered()
    ensures Lettered(Template(IpAddressDhcp))
  {
  }

  lemma RouteLettered(h: Handler)
    requires h == IpRoute || h == NoIpRoute
    ensures Lettered(Template(h))
  {
  }

  lemma DnsLettered(h: Handler)
    requires h == Dns || h == NoDns
    ensures Lettered(Template(h))
  {
  }

  lemma BridgeLettered(h: Handler)
    requires h in [BridgeDisable, NoBridgeDisable, BridgeAdd, NoBridgeAdd]
    ensures Lettered(Template(h))
  {
  }

  lemma HostnameLettered(h: Handler)
    requires h == Hostname || h == NoHostname
    ensures Lettered(Template(h))
  {
  }

  lemma FirewallLettered(h: Handler)
    requires h in [Portmap, NoPortmap, Filter, NoFilter]
    ensures Lettered(Template(h))
  {
    FirewallLeads();
    FirewallArgsLettered();
    match h {
      case Portmap => LetteredJoin([["sfirewall"], ["nat"], ["portmap"]], PORTMAP_ARGS);
      case NoPortmap => LetteredJoin([["no"], ["sfirewall"], ["nat"], ["portmap"]], PORTMAP_ARGS);
      case Filter => LetteredJoin([["sfirewall"], ["filter"]], FILTER_ARGS);
      case NoFilter => LetteredJoin([["no"], ["sfirewall"], ["filter"]], FILTER_ARGS);
    }
  }

  lemma FirewallLeads()
    ensures Lettered([["sfirewall"], ["nat"], ["portmap"]]) && Lettered([["no"], ["sfirewall"], ["nat"], ["portmap"]])
    ensures Lettered([["sfirewall"], ["filter"]]) && Lettered([["no"], ["sfirewall"], ["filter"]])
  {
  }

  lemma FirewallArgsLettered()
    ensures Lettered(PORTMAP_ARGS) && Lettered(FILTER_ARGS)
  {
  }

  const ALLOWED_PART: Positions := [["allowed-ips"], ["WORD"]]
  const ENDPOINT_PART: Positions := [["endpoint"], ["none", "FQDN:PORT", "A.B.C.D:PORT"]]
  const KEEPALIVE_PART: Positions := [["persistent-keepalive"], ["off", "NUM"]]

  lemma PeerPart()
    ensures Lettered(PEER) && Lettered(ALLOWED_PART)
  {
  }

  lemma EndpointPart()
    ensures Lettered(ENDPOINT_PART)
  {
  }

  lemma KeepalivePart()
    ensures Lettered(KEEPALIVE_PART)
  {
  }

  lemma PeerLettered()
    ensures Lettered(PEER) && Lettered(ALLOWED) && Lettered(ENDPOINT) && Lettered(Template(WgPeerKeepalive))
  {
    PeerPart();
    EndpointPart();
    KeepalivePart();
    LetteredJoin(PEER, ALLOWED_PART);
    LetteredJoin(ALLOWED, ENDPOINT_PART);
    LetteredJoin(ENDPOINT, KEEPALIVE_PART);
  }

  lemma WgLettered(h: Handler)
    requires h == WgListenport || h == NoWgPeer || h == WgLink
    ensures Lettered(Template(h))
  {
  }

  lemma EveryTemplateLettered(h: Handler)
    ensures Lettered(Template(h))
  {
    match h {
      case Other(p) => PlainLettered(p);
      case IpAddress | NoIpAddress => IpLettered(h);
      case IpAddressDhcp => DhcpLettered();
      case IpRoute | NoIpRoute => RouteLettered(h);
      case Dns | NoDns => DnsLettered(h);
      case Portmap | NoPortmap | Filter | NoFilter => FirewallLettered(h);
      case WgPeer | WgPeerAllowedIps | WgPeerEndpoint | WgPeerKeepalive => PeerLettered();
      case WgListenport | NoWgPeer | WgLink => WgLettered(h);
      case Hostname | NoHostname => HostnameLettered(h);
      case _ => BridgeLettered(h);
    }
  }

  /** cmd_make_descvec turns the string of every installed command into the template its executor works on. */
  lemma InstalledParse(h: Handler)
    ensures Parse(Print(Template(h))) == Some(Template(h))
  {
    EveryTemplateLettered(h);
    LetteredPrintable(Template(h));
    ParsePrint(Template(h));
  }
}
