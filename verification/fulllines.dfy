/** Which lines typed in full run a command that changes the configuration: a description by its template, without the
    narrowing loop. */
module FullLines {
  import opened CText
  import opened Sequences
  import opened Handlers
  import opened Matching
  import opened Commands
  import opened BestMatch
  import Shell
  import Selection
  import Reload
  import Ipv4

  // ---- Words and templates ----

  /** The word is the keyword, an address for A.B.C.D, or anything for another variable. */
  predicate FullyIs(mode: Mode, s: string, w: string) {
    if IsIpv4(s) then |w| > 0 && AddressOk(mode, Ipv4.Match(w)) else IsLiteral(s) ==> w == s
  }

  /** The executor takes the word for the keyword: it is the keyword or, completing, begins it. */
  predicate Touches(mode: Mode, s: string, w: string) { if mode.Strict? then w == s else w <= s }

  /** The word is one of the alternatives, and no abbreviation of one. */
  ghost predicate FullyAt(mode: Mode, descs: seq<string>, w: string) {
    && (exists s :: s in descs && FullyIs(mode, s, w))
    && (mode.Completing? ==> forall s :: s in descs && IsLiteral(s) && Touches(mode, s, w) ==> w == s)
  }

  /** The line has the length of the template, an option aside, and every word is one of the alternatives at its position. */
  ghost predicate FullyFits(mode: Mode, t: seq<seq<string>>, words: seq<string>) {
    CmdSize(t) <= |words| <= |t| && forall i :: 0 <= i < |words| ==> FullyAt(mode, t[i], words[i])
  }

  lemma FullyMatches(mode: Mode, m: Matchers, t: seq<seq<string>>, k: nat, w: string)
    requires Shell.Ordinary(t) && k < |t| && FullyAt(mode, t[k], w)
    ensures PositionMatch(mode, m, t[k], w) != NO_MATCH && PositionMatch(mode, m, t[k], w) != PARTLY_MATCH
  {
    var s :| s in t[k] && FullyIs(mode, s, w);
    assert Shell.OrdinaryWord(s);
    PositionMatchUpper(mode, m, t[k], w, s);
    var s' := PositionMatchAttained(mode, m, t[k], w);
    assert Shell.OrdinaryWord(s');
    if DescMatch(mode, m, s', w) == PARTLY_MATCH { assert IsLiteral(s') && Touches(mode, s', w); }
  }

  lemma StrictlyFits(m: Matchers, t: seq<seq<string>>, k: nat, w: string)
    requires Shell.Ordinary(t) && k < |t| && PositionMatch(Strict, m, t[k], w) != NO_MATCH
    ensures FullyAt(Strict, t[k], w)
  {
    var s := PositionMatchAttained(Strict, m, t[k], w);
    assert Shell.OrdinaryWord(s);
    assert FullyIs(Strict, s, w);
  }

  /** The commands whose handlers record a line, and those whose handlers only take lines away. */
  predicate Recording(h: Handler) { Reload.Verbatim(h) || h == WgListenport || h == BridgeAdd }

  predicate Removing(h: Handler) {
    h in [NoBridgeDisable, NoBridgeAdd, NoHostname, NoIpAddress, NoIpRoute, NoDns, NoPortmap, NoFilter, NoWgPeer]
  }

  predicate Configuring(h: Handler) { Recording(h) || Removing(h) }

  /** A keyword of another command stands where this one has a variable. */
  predicate Claimed(mode: Mode, h: Handler, words: seq<string>) {
    || (h == BridgeAdd && |words| > 1 && Touches(mode, "disable", words[1]))
    || (h == NoBridgeAdd && |words| > 2 && Touches(mode, "disable", words[2]))
    || (h == Portmap && |words| > 3 && Touches(mode, "apply", words[3]))
    || (h == Filter && |words| > 2 && Touches(mode, "apply", words[2]))
  }

  // ---- Commands that share the first keyword ----

  datatype Keyword =
    | BridgeWord | NoWord | HostWord | IpWord | NameserverWord | SfirewallWord | WgWord
    | ShowWord | WriteWord | ExitWord | EndWord | PingWord | RebootWord | PoweroffWord | SshWord

  function Text(k: Keyword): string {
    match k
    case BridgeWord => "bridge" case NoWord => "no" case HostWord => "hostname" case IpWord => "ip" case NameserverWord => "nameserver"
    case SfirewallWord => "sfirewall" case WgWord => "wg" case ShowWord => "show" case WriteWord => "write" case ExitWord => "exit"
    case EndWord => "end" case PingWord => "ping" case RebootWord => "reboot" case PoweroffWord => "poweroff" case SshWord => "ssh"
  }

  lemma TextsDiffer(k: Keyword, k': Keyword)
    requires Text(k) == Text(k')
    ensures k == k'
  {
  }

  /** The first keyword of a command. */
  function First(h: Handler): Keyword {
    match h
    case BridgeDisable | BridgeAdd => BridgeWord
    case Hostname => HostWord
    case IpAddress | IpAddressDhcp | IpRoute => IpWord
    case Dns => NameserverWord
    case Portmap | Filter => SfirewallWord
    case WgListenport | WgPeer | WgPeerAllowedIps | WgPeerEndpoint | WgPeerKeepalive | WgLink => WgWord
    case Other(p) => PlainFirst(p)
    case _ => NoWord
  }

  function PlainFirst(p: Plain): Keyword {
    match p
    case Exit => ExitWord
    case WriteTerminal | WriteFile | WriteMemory | Write => WriteWord
    case Ping | PingCount => PingWord
    case Reboot => RebootWord
    case Poweroff => PoweroffWord
    case Ssh | SshPort => SshWord
    case EndShell => EndWord
    case PortmapApply | FilterApply => SfirewallWord
    case WgRekey | WgClearkey => WgWord
    case _ => ShowWord
  }

  lemma PlainFirstWord(p: Plain)
    ensures |PlainTemplate(p)| > 0 && PlainTemplate(p)[0] == [Text(PlainFirst(p))]
  {
  }

  lemma FirstWord(h: Handler)
    ensures |Template(h)| > 0 && Template(h)[0] == [Text(First(h))]
  {
    match h {
      case Other(p) => PlainFirstWord(p);
      case _ =>
    }
  }

  // ---- Against every other command ----

  /** The command c is beaten by e or needs more words. */
  ghost predicate Outdoes(mode: Mode, m: Matchers, words: seq<string>, e: Element, c: Element) {
    || Beats(mode, m, words, |words|, e, c)
    || (Level(mode, m, words, |words|, e, c) && CmdSize(c.strvec) > |words|)
  }

  lemma NotBoth(mode: Mode, m: Matchers, words: seq<string>, n: nat, c: Element, d: Element)
    requires n <= |words| && Beats(mode, m, words, n, c, d)
    ensures !Level(mode, m, words, n, d, c) && !Beats(mode, m, words, n, d, c)
  {
    var k :| 0 <= k < n && AheadAt(mode, m, words, k, c, d);
  }

  lemma OutdoingIsChosen(mode: Mode, m: Matchers, cmds: seq<Element>, words: seq<string>, e: Element)
    requires e in cmds && CmdSize(e.strvec) <= |words| && forall k :: 0 <= k < |words| ==> At(mode, m, e, words, k) != NO_MATCH
    requires forall c :: c in cmds && c != e ==> Outdoes(mode, m, words, e, c)
    ensures Chosen(mode, m, cmds, words, e)
  {
    forall c | c in cmds ensures !Beats(mode, m, words, |words|, c, e) {
      if c == e || Level(mode, m, words, |words|, e, c) {
      } else {
        NotBoth(mode, m, words, |words|, e, c);
      }
    }
  }

  /** Where the best command matches no word in part, no word is ambiguous: a keyword that is begun would match better. */
  lemma BestNotAmbiguous(m: Matchers, cmds: seq<Element>, words: seq<string>, e: Element)
    requires Best(Completing, m, cmds, words, |words|, e)
    requires forall k :: 0 <= k < |words| ==> At(Completing, m, e, words, k) != PARTLY_MATCH
    ensures !SomewhereAmbiguous(Completing, m, cmds, words, 0)
  {
    forall n | 0 <= n < |words| ensures !AmbiguousAt(m, cmds, words, n) {
      if s :| BestBegun(m, cmds, words, n, s) { BegunIsFull(m, cmds, words, e, n, s); }
    }
  }

  lemma AheadBeats(m: Matchers, words: seq<string>, n: nat, c: Element, e: Element)
    requires n < |words|
    ensures Level(Completing, m, words, n, c, e) && At(Completing, m, c, words, n) > At(Completing, m, e, words, n) ==>
      Beats(Completing, m, words, |words|, c, e)
  {
    assert AheadAt(Completing, m, words, n, c, e) ==> Beats(Completing, m, words, |words|, c, e);
  }

  lemma BegunIsFull(m: Matchers, cmds: seq<Element>, words: seq<string>, e: Element, n: nat, s: string)
    requires n < |words| && Best(Completing, m, cmds, words, |words|, e) && BestBegun(m, cmds, words, n, s)
    requires At(Completing, m, e, words, n) != PARTLY_MATCH
    ensures BestBegun(m, cmds, words, n, words[n])
  {
    var c :| Best(Completing, m, cmds, words, n, c) && n < |c.strvec| && s in c.strvec[n];
    PositionMatchUpper(Completing, m, c.strvec[n], words[n], s);
    BestUpTo(m, cmds, words, e, n);
    Trichotomy(Completing, m, words, n, c, e);
    AheadBeats(m, words, n, c, e);
    var s' := PositionMatchAttained(Completing, m, e.strvec[n], words[n]);
  }

  lemma BestUpTo(m: Matchers, cmds: seq<Element>, words: seq<string>, e: Element, n: nat)
    requires n <= |words| && Best(Completing, m, cmds, words, |words|, e)
    ensures Best(Completing, m, cmds, words, n, e)
  {
    forall d | d in cmds ensures !Beats(Completing, m, words, n, d, e) {
      assert Beats(Completing, m, words, n, d, e) ==> Beats(Completing, m, words, |words|, d, e);
    }
  }

  /** The templates agree up to position k, where c matches the word less well than e. */
  lemma BeatenAt(mode: Mode, m: Matchers, words: seq<string>, e: Element, c: Element, k: nat)
    requires k < |words| && Agree(e, c, k) && At(mode, m, c, words, k) < At(mode, m, e, words, k)
    ensures Outdoes(mode, m, words, e, c)
  {
    assert AheadAt(mode, m, words, k, e, c);
  }

  lemma LevelLonger(mode: Mode, m: Matchers, words: seq<string>, e: Element, c: Element)
    requires |words| == |e.strvec| < CmdSize(c.strvec) && e.strvec <= c.strvec
    ensures Outdoes(mode, m, words, e, c)
  {
    assert forall k :: 0 <= k < |words| ==> e.strvec[k] == c.strvec[k];
  }

  // ---- The commands behind one keyword ----

  ghost predicate Agree(e: Element, c: Element, k: nat) {
    k <= |e.strvec| && k <= |c.strvec| && forall j :: 0 <= j < k ==> e.strvec[j] == c.strvec[j]
  }

  ghost predicate Matched(mode: Mode, m: Matchers, words: seq<string>, e: Element) {
    |words| <= |e.strvec| && forall k :: 0 <= k < |words| ==> At(mode, m, e, words, k) != NO_MATCH
  }

  /** Where the templates part, c has no word left or keywords the executor does not take the word for, or the full
      keyword of e was typed. */
  lemma OtherKeyword(mode: Mode, m: Matchers, words: seq<string>, e: Element, c: Element, k: nat)
    requires Matched(mode, m, words, e) && k < |words| && Agree(e, c, k)
    requires k < |c.strvec| ==> forall s :: s in c.strvec[k] ==>
      IsLiteral(s) && s != words[k] && (!Touches(mode, s, words[k]) || (IsLiteral(words[k]) && words[k] in e.strvec[k]))
    ensures Outdoes(mode, m, words, e, c)
  {
    if At(mode, m, c, words, k) != NO_MATCH {
      var s := PositionMatchAttained(mode, m, c.strvec[k], words[k]);
      PositionMatchUpper(mode, m, e.strvec[k], words[k], words[k]);
    }
    BeatenAt(mode, m, words, e, c, k);
  }

  /** Where the templates part, the keyword of e was typed and c has a variable. */
  lemma KeywordFirst(mode: Mode, m: Matchers, words: seq<string>, e: Element, c: Element, k: nat, v: string)
    requires Matched(mode, m, words, e) && k < |words| && Agree(e, c, k) && k < |c.strvec|
    requires e.strvec[k] == [words[k]] && IsLiteral(words[k]) && c.strvec[k] == [v] && IsVariable(v) && Shell.OrdinaryWord(v)
    ensures Outdoes(mode, m, words, e, c)
  {
    Selection.OnePosition(mode, m, v, words[k]);
    Selection.OnePosition(mode, m, words[k], words[k]);
    BeatenAt(mode, m, words, e, c, k);
  }

  function El(h: Handler): Element { Element(h, Template(h)) }

  /** The line is one of the command, typed in full. */
  ghost predicate Typed(mode: Mode, h: Handler, words: seq<string>) { FullyFits(mode, Template(h), words) && !Claimed(mode, h, words) }

  lemma Keyword1(mode: Mode, t: seq<seq<string>>, words: seq<string>, k: nat, s: string)
    requires FullyFits(mode, t, words) && k < |words| && t[k] == [s] && IsLiteral(s)
    ensures words[k] == s
  {
    assert FullyAt(mode, t[k], words[k]);
  }

  /** Where the templates part, c has one keyword that was not typed. */
  lemma OneOther(mode: Mode, m: Matchers, words: seq<string>, e: Element, c: Element, k: nat, s: string)
    requires Matched(mode, m, words, e) && k < |words| && Agree(e, c, k) && k < |c.strvec|
    requires c.strvec[k] == [s] && IsLiteral(s) && !Touches(mode, s, words[k])
    ensures Outdoes(mode, m, words, e, c)
  {
    OtherKeyword(mode, m, words, e, c, k);
  }

  /** Where the templates part, each has a keyword, and that of e was typed. */
  lemma TwoKeywords(mode: Mode, m: Matchers, words: seq<string>, e: Element, c: Element, k: nat, s: string)
    requires Matched(mode, m, words, e) && k < |words| && Agree(e, c, k) && k < |c.strvec|
    requires e.strvec[k] == [words[k]] && IsLiteral(words[k]) && c.strvec[k] == [s] && IsLiteral(s) && s != words[k]
    ensures Outdoes(mode, m, words, e, c)
  {
    OtherKeyword(mode, m, words, e, c, k);
  }

  /** The line is one of the command, and its words match. */
  ghost predicate Stands(mode: Mode, m: Matchers, words: seq<string>, h: Handler) {
    Typed(mode, h, words) && Matched(mode, m, words, El(h)) && (h != NoHostname ==> |words| == |Template(h)|)
  }

  lemma BridgeHeads()
    ensures Template(BridgeDisable) == [["bridge"], ["disable"]]
    ensures var t := Template(BridgeAdd); |t| == 4 && t[0] == ["bridge"] && t[1] == ["NUM"]
  {
  }

  lemma BridgeOnly(h: Handler)
    requires First(h) == BridgeWord
    ensures h == BridgeDisable || h == BridgeAdd
  {
  }

  lemma AddPair(mode: Mode, m: Matchers, words: seq<string>)
    requires Stands(mode, m, words, BridgeAdd)
    ensures Outdoes(mode, m, words, El(BridgeAdd), El(BridgeDisable))
  {
    BridgeHeads();
    OneOther(mode, m, words, El(BridgeAdd), El(BridgeDisable), 1, "disable");
  }

  lemma DisablePair(mode: Mode, m: Matchers, words: seq<string>)
    requires Stands(mode, m, words, BridgeDisable)
    ensures Outdoes(mode, m, words, El(BridgeDisable), El(BridgeAdd))
  {
    BridgeHeads();
    Keyword1(mode, Template(BridgeDisable), words, 1, "disable");
    KeywordFirst(mode, m, words, El(BridgeDisable), El(BridgeAdd), 1, "NUM");
  }

  lemma BridgeFamily(mode: Mode, m: Matchers, words: seq<string>, h: Handler, c: Handler)
    requires First(h) == First(c) == BridgeWord && h != c && Stands(mode, m, words, h)
    ensures Outdoes(mode, m, words, El(h), El(c))
  {
    BridgeOnly(h);
    BridgeOnly(c);
    if h.BridgeDisable? { DisablePair(mode, m, words); } else { AddPair(mode, m, words); }
  }

  /** The keyword at a position of the template. */
  ghost predicate KeywordAt(t: seq<seq<string>>, k: nat, s: string) { k < |t| && t[k] == [s] && IsLiteral(s) }

  /** Two commands with the same keywords up to position k and different ones there. */
  lemma ByKeyword(mode: Mode, m: Matchers, words: seq<string>, e: Element, c: Element, k: nat, s: string, s': string)
    requires FullyFits(mode, e.strvec, words) && Matched(mode, m, words, e) && k < |words| && Agree(e, c, k)
    requires KeywordAt(e.strvec, k, s) && KeywordAt(c.strvec, k, s') && s != s'
    ensures Outdoes(mode, m, words, e, c)
  {
    Keyword1(mode, e.strvec, words, k, s);
    TwoKeywords(mode, m, words, e, c, k, s');
  }

  lemma BySecond(mode: Mode, m: Matchers, words: seq<string>, e: Element, c: Element, first: seq<string>, s: string, s': string)
    requires FullyFits(mode, e.strvec, words) && Matched(mode, m, words, e) && 1 < |words|
    requires KeywordAt(e.strvec, 1, s) && KeywordAt(c.strvec, 1, s') && s != s' && e.strvec[0] == c.strvec[0] == first
    ensures Outdoes(mode, m, words, e, c)
  {
    ByKeyword(mode, m, words, e, c, 1, s, s');
  }

  function IpSecond(h: Handler): string { if h == IpRoute then "route" else "address" }

  lemma IpHeads(h: Handler)
    requires First(h) == IpWord
    ensures |Template(h)| > 1 && Template(h)[0] == ["ip"] && KeywordAt(Template(h), 1, IpSecond(h))
  {
  }

  lemma IpSecondDiffers(mode: Mode, m: Matchers, words: seq<string>, h: Handler, c: Handler)
    requires First(h) == First(c) == IpWord && IpSecond(h) != IpSecond(c) && Stands(mode, m, words, h) && |words| > 1
    ensures Outdoes(mode, m, words, El(h), El(c))
  {
    IpHeads(h);
    IpHeads(c);
    BySecond(mode, m, words, El(h), El(c), ["ip"], IpSecond(h), IpSecond(c));
  }

  lemma IpOnly(h: Handler)
    requires First(h) == IpWord
    ensures h == IpAddress || h == IpAddressDhcp || h == IpRoute
  {
  }

  lemma IpFamily(mode: Mode, m: Matchers, words: seq<string>, h: Handler, c: Handler)
    requires (h == IpAddress || h == IpAddressDhcp || h == IpRoute) && (c == IpAddress || c == IpAddressDhcp || c == IpRoute)
    requires h != c && Stands(mode, m, words, h) && |words| > 1
    ensures Outdoes(mode, m, words, El(h), El(c))
  {
    if h.IpRoute? || c.IpRoute? {
      IpSecondDiffers(mode, m, words, h, c);
    } else {
      AddressPair(mode, m, words, h, c);
    }
  }

  lemma AddressesAgree()
    ensures var t, t' := Template(IpAddress), Template(IpAddressDhcp);
            |t| == 5 && |t'| == 4 && t[..3] == t'[..3] && t[3] == ["A.B.C.D"] && t'[3] == ["dhcp"]
  {
  }

  lemma OverDhcp(mode: Mode, m: Matchers, words: seq<string>, e: Element, c: Element)
    requires Matched(mode, m, words, e) && |words| == |e.strvec| == 5 && |c.strvec| == 4 && e.strvec[..3] == c.strvec[..3]
    requires e.strvec[3] == ["A.B.C.D"] && c.strvec[3] == ["dhcp"] && |words[3]| > 0 && !Ipv4.Match(words[3]).No?
    ensures Outdoes(mode, m, words, e, c)
  {
    forall j | 0 <= j < 3 ensures e.strvec[j] == c.strvec[j] { assert e.strvec[..3][j] == c.strvec[..3][j]; }
    Selection.AddressIsNotDhcp(mode, m, words[3]);
    BeatenAt(mode, m, words, e, c, 3);
  }

  lemma DhcpOver(mode: Mode, m: Matchers, words: seq<string>, e: Element, c: Element)
    requires Matched(mode, m, words, e) && |words| == |e.strvec| == 4 && |c.strvec| == 5 && e.strvec[..3] == c.strvec[..3]
    requires e.strvec[3] == ["dhcp"] && words[3] == "dhcp" && c.strvec[3] == ["A.B.C.D"]
    ensures Outdoes(mode, m, words, e, c)
  {
    forall j | 0 <= j < 3 ensures e.strvec[j] == c.strvec[j] { assert e.strvec[..3][j] == c.strvec[..3][j]; }
    KeywordFirst(mode, m, words, e, c, 3, "A.B.C.D");
  }

  lemma AddressTyped(mode: Mode, words: seq<string>)
    requires Typed(mode, IpAddress, words) && |words| == 5
    ensures |words[3]| > 0 && !Ipv4.Match(words[3]).No?
  {
    AddressesAgree();
    assert FullyAt(mode, Template(IpAddress)[3], words[3]);
  }

  lemma AddressPair(mode: Mode, m: Matchers, words: seq<string>, h: Handler, c: Handler)
    requires (h == IpAddress && c == IpAddressDhcp) || (h == IpAddressDhcp && c == IpAddress)
    requires Stands(mode, m, words, h)
    ensures Outdoes(mode, m, words, El(h), El(c))
  {
    AddressesAgree();
    if h.IpAddress? {
      AddressTyped(mode, words);
      OverDhcp(mode, m, words, El(IpAddress), El(IpAddressDhcp));
    } else {
      Keyword1(mode, Template(IpAddressDhcp), words, 3, "dhcp");
      DhcpOver(mode, m, words, El(IpAddressDhcp), El(IpAddress));
    }
  }

  lemma PortmapHead()
    ensures var t := Template(Portmap); |t| == 9 && t[0] == ["sfirewall"] && t[1] == ["nat"] && t[2] == ["portmap"] && t[3] == ["NUM"]
  {
  }

  lemma FilterHead()
    ensures var t := Template(Filter); |t| == 15 && t[0] == ["sfirewall"] && t[1] == ["filter"] && t[2] == ["NUM"]
  {
    assert |FILTER_ARGS| == 13 && FILTER_ARGS[0] == ["NUM"];
  }

  lemma ApplyHeads()
    ensures var t := Template(Other(PortmapApply)); |t| == 4 && t[0] == ["sfirewall"] && t[1] == ["nat"] && t[2] == ["portmap"] && t[3] == ["apply"]
    ensures var t := Template(Other(FilterApply)); |t| == 3 && t[0] == ["sfirewall"] && t[1] == ["filter"] && t[2] == ["apply"]
  {
  }

  function FirewallSecond(h: Handler): string { if h == Portmap || h == Other(PortmapApply) then "nat" else "filter" }

  lemma FirewallHeads(h: Handler)
    requires First(h) == SfirewallWord
    ensures |Template(h)| > 2 && Template(h)[0] == ["sfirewall"] && KeywordAt(Template(h), 1, FirewallSecond(h))
  {
    ApplyHeads();
    if h == Portmap { PortmapHead(); }
    if h == Filter { FilterHead(); }
  }

  lemma PortmapOverApply(mode: Mode, m: Matchers, words: seq<string>)
    requires Stands(mode, m, words, Portmap)
    ensures Outdoes(mode, m, words, El(Portmap), El(Other(PortmapApply)))
  {
    PortmapHead();
    ApplyHeads();
    OneOther(mode, m, words, El(Portmap), El(Other(PortmapApply)), 3, "apply");
  }

  lemma FilterOverApply(mode: Mode, m: Matchers, words: seq<string>)
    requires Stands(mode, m, words, Filter)
    ensures Outdoes(mode, m, words, El(Filter), El(Other(FilterApply)))
  {
    FilterHead();
    ApplyHeads();
    OneOther(mode, m, words, El(Filter), El(Other(FilterApply)), 2, "apply");
  }

  lemma FirewallSecondDiffers(mode: Mode, m: Matchers, words: seq<string>, h: Handler, c: Handler)
    requires First(h) == First(c) == SfirewallWord && FirewallSecond(h) != FirewallSecond(c) && Stands(mode, m, words, h) && |words| > 1
    ensures Outdoes(mode, m, words, El(h), El(c))
  {
    FirewallHeads(h);
    FirewallHeads(c);
    BySecond(mode, m, words, El(h), El(c), ["sfirewall"], FirewallSecond(h), FirewallSecond(c));
  }

  /** The command whose last keyword stands where h has its first variable. */
  predicate Applies(h: Handler, c: Handler) {
    (h.Portmap? && c.Other? && c.plain.PortmapApply?) || (h.Filter? && c.Other? && c.plain.FilterApply?)
  }

  lemma OverApply(mode: Mode, m: Matchers, words: seq<string>, h: Handler, c: Handler)
    requires Applies(h, c) && Stands(mode, m, words, h)
    ensures Outdoes(mode, m, words, El(h), El(c))
  {
    if h.Portmap? { PortmapOverApply(mode, m, words); } else { FilterOverApply(mode, m, words); }
  }

  lemma FirewallSecondsDiffer(h: Handler, c: Handler)
    requires First(h) == First(c) == SfirewallWord && (h.Portmap? || h.Filter?) && h != c && !Applies(h, c)
    ensures FirewallSecond(h) != FirewallSecond(c)
  {
  }

  lemma FirewallFamily(mode: Mode, m: Matchers, words: seq<string>, h: Handler, c: Handler)
    requires First(h) == First(c) == SfirewallWord && (h.Portmap? || h.Filter?) && h != c
    requires Stands(mode, m, words, h) && |words| > 1
    ensures Outdoes(mode, m, words, El(h), El(c))
  {
    if Applies(h, c) {
      OverApply(mode, m, words, h, c);
    } else {
      FirewallSecondsDiffer(h, c);
      FirewallSecondDiffers(mode, m, words, h, c);
    }
  }

  // ---- The commands behind no ----

  function NoSecond(h: Handler): string {
    match h
    case NoBridgeDisable | NoBridgeAdd => "bridge"
    case NoHostname => "hostname"
    case NoIpAddress | NoIpRoute => "ip"
    case NoDns => "nameserver"
    case NoPortmap | NoFilter => "sfirewall"
    case _ => "wg"
  }

  lemma NoHeads(h: Handler)
    requires First(h) == NoWord
    ensures Removing(h) && |Template(h)| > 1 && Template(h)[0] == ["no"] && KeywordAt(Template(h), 1, NoSecond(h))
  {
  }

  lemma NoBridgeHeads()
    ensures KeywordAt(Template(NoBridgeDisable), 2, "disable") && |Template(NoBridgeAdd)| == 3 && Template(NoBridgeAdd)[2] == ["NUM"]
  {
  }

  lemma NoBridgePair(mode: Mode, m: Matchers, words: seq<string>, h: Handler, c: Handler)
    requires (h == NoBridgeDisable && c == NoBridgeAdd) || (h == NoBridgeAdd && c == NoBridgeDisable)
    requires Stands(mode, m, words, h)
    ensures Outdoes(mode, m, words, El(h), El(c))
  {
    NoHeads(h);
    NoHeads(c);
    NoBridgeHeads();
    if h.NoBridgeDisable? {
      Keyword1(mode, Template(h), words, 2, "disable");
      KeywordFirst(mode, m, words, El(h), El(c), 2, "NUM");
    } else {
      OneOther(mode, m, words, El(h), El(c), 2, "disable");
    }
  }

  lemma NoIpHeads()
    ensures var t, t' := Template(NoIpAddress), Template(NoIpRoute);
            |t| == 4 && |t'| == 5 && t[0] == t'[0] && t[1] == t'[1] && KeywordAt(t, 2, "address") && KeywordAt(t', 2, "route")
  {
  }

  lemma NoIpPair(mode: Mode, m: Matchers, words: seq<string>, h: Handler, c: Handler)
    requires (h == NoIpAddress && c == NoIpRoute) || (h == NoIpRoute && c == NoIpAddress)
    requires Stands(mode, m, words, h)
    ensures Outdoes(mode, m, words, El(h), El(c))
  {
    NoIpHeads();
    if h.NoIpAddress? {
      ByKeyword(mode, m, words, El(NoIpAddress), El(NoIpRoute), 2, "address", "route");
    } else {
      ByKeyword(mode, m, words, El(NoIpRoute), El(NoIpAddress), 2, "route", "address");
    }
  }

  lemma NoFirewallHeads()
    ensures var t, t' := Template(NoPortmap), Template(NoFilter);
            |t| == 10 && |t'| == 16 && t[0] == t'[0] && t[1] == t'[1] && KeywordAt(t, 2, "nat") && KeywordAt(t', 2, "filter")
  {
    assert |FILTER_ARGS| == 13 && |PORTMAP_ARGS| == 6;
  }

  lemma NoFirewallPair(mode: Mode, m: Matchers, words: seq<string>, h: Handler, c: Handler)
    requires (h == NoPortmap && c == NoFilter) || (h == NoFilter && c == NoPortmap)
    requires Stands(mode, m, words, h)
    ensures Outdoes(mode, m, words, El(h), El(c))
  {
    NoFirewallHeads();
    if h.NoPortmap? {
      ByKeyword(mode, m, words, El(NoPortmap), El(NoFilter), 2, "nat", "filter");
    } else {
      ByKeyword(mode, m, words, El(NoFilter), El(NoPortmap), 2, "filter", "nat");
    }
  }

  lemma NoSecondDiffers(mode: Mode, m: Matchers, words: seq<string>, h: Handler, c: Handler)
    requires First(h) == First(c) == NoWord && NoSecond(h) != NoSecond(c) && Stands(mode, m, words, h) && |words| > 1
    ensures Outdoes(mode, m, words, El(h), El(c))
  {
    NoHeads(h);
    NoHeads(c);
    BySecond(mode, m, words, El(h), El(c), ["no"], NoSecond(h), NoSecond(c));
  }

  lemma NoSameSecond(h: Handler, c: Handler)
    requires First(h) == First(c) == NoWord && h != c && NoSecond(h) == NoSecond(c)
    ensures (h == NoBridgeDisable && c == NoBridgeAdd) || (h == NoBridgeAdd && c == NoBridgeDisable)
      || (h == NoIpAddress && c == NoIpRoute) || (h == NoIpRoute && c == NoIpAddress)
      || (h == NoPortmap && c == NoFilter) || (h == NoFilter && c == NoPortmap)
  {
  }

  lemma NoFamily(mode: Mode, m: Matchers, words: seq<string>, h: Handler, c: Handler)
    requires First(h) == First(c) == NoWord && h != c && Stands(mode, m, words, h) && |words| > 1
    ensures Outdoes(mode, m, words, El(h), El(c))
  {
    if NoSecond(h) != NoSecond(c) {
      NoSecondDiffers(mode, m, words, h, c);
    } else {
      NoSameSecond(h, c);
      if h.NoBridgeDisable? || h.NoBridgeAdd? {
        NoBridgePair(mode, m, words, h, c);
      } else if h.NoIpAddress? || h.NoIpRoute? {
        NoIpPair(mode, m, words, h, c);
      } else {
        NoFirewallPair(mode, m, words, h, c);
      }
    }
  }

  predicate IsPeer(h: Handler) { h == WgPeer || Reload.PeerCommand(h) }

  lemma WgSecond(h: Handler)
    requires First(h) == WgWord
    ensures var t := Template(h);
      && |t| > 1 && t[0] == ["wg"]
      && (forall s :: s in t[1] ==> IsLiteral(s))
      && (IsPeer(h) <==> "peer" in t[1])
      && (h == WgListenport <==> "listenport" in t[1])
      && (h == WgLink <==> "link-up" in t[1] || "link-down" in t[1])
      && (IsPeer(h) ==> t[1] == ["peer"]) && (h == WgListenport ==> t[1] == ["listenport"]) && (h == WgLink ==> t[1] == ["link-up", "link-down"])
  {
  }

  function PeerLength(h: Handler): nat
    requires IsPeer(h)
  {
    match h case WgPeer => 3 case WgPeerAllowedIps => 5 case WgPeerEndpoint => 7 case WgPeerKeepalive => 9
  }

  /** The templates of the peer commands are beginnings of one. */
  lemma PeerTemplate(h: Handler)
    requires IsPeer(h)
    ensures |Template(WgPeerKeepalive)| == 9 && Template(h) == Template(WgPeerKeepalive)[..PeerLength(h)]
  {
    Shell.PeerPassed();
    assert h == WgPeer ==> PEER == ALLOWED[..3];
  }

  lemma PeerLast(t: seq<seq<string>>)
    requires t == Template(WgPeerKeepalive)
    ensures |t| == 9 && t[2] == ["PUBLICKEY"] && t[4] == ["WORD"] && t[6][0] == "none" && t[8][0] == "off"
  {
  }

  lemma PeerSize(c: Handler)
    requires IsPeer(c)
    ensures CmdSize(Template(c)) == |Template(c)| == PeerLength(c)
  {
    PeerTemplate(c);
    PeerLast(Template(WgPeerKeepalive));
    Shell.TemplateOrdinary(c);
    Shell.SizeOfOrdinary(Template(c));
  }

  lemma Nested(mode: Mode, m: Matchers, words: seq<string>, e: Element, c: Element, t: seq<seq<string>>)
    requires Matched(mode, m, words, e) && |words| == |e.strvec| != |c.strvec| && e.strvec <= t && c.strvec <= t
    requires CmdSize(c.strvec) == |c.strvec|
    ensures Outdoes(mode, m, words, e, c)
  {
    if |e.strvec| < |c.strvec| {
      LevelLonger(mode, m, words, e, c);
    } else {
      OtherKeyword(mode, m, words, e, c, |c.strvec|);
    }
  }

  ghost predicate PartOf(h: Handler, t: seq<seq<string>>)
    requires IsPeer(h)
  {
    Template(h) <= t && |Template(h)| == CmdSize(Template(h)) == PeerLength(h)
  }

  lemma AllParts() returns (t: seq<seq<string>>)
    ensures forall h | IsPeer(h) :: PartOf(h, t)
  {
    t := Template(WgPeerKeepalive);
    forall h | IsPeer(h) ensures PartOf(h, t) {
      PeerTemplate(h);
      PeerSize(h);
    }
  }

  lemma LengthsDiffer(h: Handler, c: Handler)
    requires IsPeer(h) && IsPeer(c) && h != c
    ensures PeerLength(h) != PeerLength(c)
  {
  }

  lemma PeerPair(mode: Mode, m: Matchers, words: seq<string>, h: Handler, c: Handler)
    requires IsPeer(h) && IsPeer(c) && h != c && Stands(mode, m, words, h)
    ensures Outdoes(mode, m, words, El(h), El(c))
  {
    var t := AllParts();
    LengthsDiffer(h, c);
    assert PartOf(h, t) && PartOf(c, t);
    Nested(mode, m, words, El(h), El(c), t);
  }

  lemma WgFamily(mode: Mode, m: Matchers, words: seq<string>, h: Handler, c: Handler)
    requires Recording(h) && First(h) == First(c) == WgWord && h != c && Stands(mode, m, words, h)
    ensures Outdoes(mode, m, words, El(h), El(c))
  {
    if IsPeer(h) && IsPeer(c) {
      PeerPair(mode, m, words, h, c);
    } else {
      WgSecond(h);
      WgSecond(c);
      assert FullyAt(mode, Template(h)[1], words[1]);
      assert words[1] in Template(h)[1];
      OtherKeyword(mode, m, words, El(h), El(c), 1);
    }
  }

  lemma IpGroup(mode: Mode, m: Matchers, words: seq<string>, h: Handler, c: Handler)
    requires First(h) == First(c) == IpWord && h != c && Stands(mode, m, words, h) && |words| > 1
    ensures Outdoes(mode, m, words, El(h), El(c))
  {
    IpOnly(h);
    IpOnly(c);
    IpFamily(mode, m, words, h, c);
  }

  /** A keyword with more than one command behind it. */
  lemma SharedKeyword(h: Handler, c: Handler)
    requires Configuring(h) && h != c && First(h) == First(c)
    ensures First(h) == BridgeWord || First(h) == WgWord || First(h) == NoWord || First(h) == IpWord || First(h) == SfirewallWord
    ensures First(h) == WgWord ==> Recording(h)
    ensures First(h) == SfirewallWord ==> h.Portmap? || h.Filter?
  {
  }

  lemma SameKeyword(mode: Mode, m: Matchers, words: seq<string>, h: Handler, c: Handler)
    requires Configuring(h) && h != c && Stands(mode, m, words, h) && First(h) == First(c) && |words| > 1
    ensures Outdoes(mode, m, words, El(h), El(c))
  {
    SharedKeyword(h, c);
    if First(h).BridgeWord? {
      BridgeFamily(mode, m, words, h, c);
    } else if First(h).WgWord? {
      WgFamily(mode, m, words, h, c);
    } else if First(h).NoWord? {
      NoFamily(mode, m, words, h, c);
    } else if First(h).IpWord? {
      IpGroup(mode, m, words, h, c);
    } else {
      FirewallFamily(mode, m, words, h, c);
    }
  }

  lemma OtherFirst(mode: Mode, m: Matchers, words: seq<string>, h: Handler, c: Handler)
    requires Stands(mode, m, words, h) && First(h) != First(c) && |words| > 1
    ensures Outdoes(mode, m, words, El(h), El(c))
  {
    FirstWord(h);
    FirstWord(c);
    if Text(First(h)) == Text(First(c)) { TextsDiffer(First(h), First(c)); }
    FirstIsLiteral(First(h));
    FirstIsLiteral(First(c));
    ByKeyword(mode, m, words, El(h), El(c), 0, Text(First(h)), Text(First(c)));
  }

  /** No other installed command stands against a configuring command whose line is typed in full. */
  lemma OutdoesOthers(mode: Mode, m: Matchers, words: seq<string>, h: Handler, c: Handler)
    requires Configuring(h) && h != c && Stands(mode, m, words, h) && |words| > 1
    ensures Outdoes(mode, m, words, El(h), El(c))
  {
    if First(h) == First(c) { SameKeyword(mode, m, words, h, c); } else { OtherFirst(mode, m, words, h, c); }
  }

  lemma FirstIsLiteral(k: Keyword)
    ensures IsLiteral(Text(k))
  {
  }

  lemma ConfiguringInstalled(h: Handler)
    requires Configuring(h)
    ensures h in INSTALLED
  {
    if First(h) == BridgeWord { assert h in BRIDGE_INIT; }
    if First(h) == HostWord { assert h in COMMON_INIT; }
    if First(h) == IpWord || First(h) == NameserverWord { assert h in IP_INIT; }
    if First(h) == SfirewallWord { assert h in FIREWALL_INIT; }
    if First(h) == WgWord { assert h in VPN_INIT; }
    if First(h) == NoWord { RemovingInstalled(h); }
  }

  lemma RemovingInstalled(h: Handler)
    requires Removing(h)
    ensures h in INSTALLED
  {
    match NoSecond(h) {
      case "bridge" => assert h in BRIDGE_INIT;
      case "hostname" => assert h in COMMON_INIT;
      case "ip" | "nameserver" => assert h in IP_INIT;
      case "sfirewall" => assert h in FIREWALL_INIT;
      case _ => assert h in VPN_INIT;
    }
  }

  predicate EndsInWord(t: seq<seq<string>>) {
    0 < |t| < CMD_ARGC_MAX && |t[|t| - 1]| > 0 && |t[|t| - 1][0]| > 0 && t[|t| - 1][0][0] != '['
  }

  lemma PeerEnds(h: Handler)
    requires IsPeer(h)
    ensures EndsInWord(Template(h))
  {
    PeerTemplate(h);
    PeerLast(Template(WgPeerKeepalive));
  }

  lemma FilterEnds()
    ensures EndsInWord(Template(Filter))
  {
    assert |FILTER_ARGS| == 13 && FILTER_ARGS[12] == ["TOTIME"];
  }

  lemma IpEnds(h: Handler)
    requires First(h) == IpWord || h == Dns
    ensures EndsInWord(Template(h))
  {
  }

  lemma RecordingLast(h: Handler)
    requires Recording(h)
    ensures EndsInWord(Template(h))
  {
    match h {
      case WgPeer | WgPeerAllowedIps | WgPeerEndpoint | WgPeerKeepalive => PeerEnds(h);
      case Filter => FilterEnds();
      case IpAddress | IpAddressDhcp | IpRoute | Dns => IpEnds(h);
      case _ =>
    }
  }

  lemma NoFirewallEnds()
    ensures EndsInWord(Template(NoPortmap)) && EndsInWord(Template(NoFilter))
  {
    assert |PORTMAP_ARGS| == 6 && PORTMAP_ARGS[5] == ["PORT"];
    assert |FILTER_ARGS| == 13 && FILTER_ARGS[12] == ["TOTIME"];
  }

  lemma RemovingLast(h: Handler)
    requires Removing(h) && h != NoHostname
    ensures EndsInWord(Template(h)) && |Template(h)| > 1
  {
    match h {
      case NoPortmap | NoFilter => NoFirewallEnds(); NoFirewallHeads();
      case _ =>
    }
  }

  lemma ConfiguringSize(h: Handler)
    requires Configuring(h)
    ensures Shell.Ordinary(Template(h)) && 1 < CmdSize(Template(h)) <= |Template(h)| < CMD_ARGC_MAX
    ensures h != NoHostname ==> CmdSize(Template(h)) == |Template(h)|
  {
    Shell.TemplateOrdinary(h);
    Shell.SizeOfOrdinary(Template(h));
    if Recording(h) {
      RecordingLast(h);
    } else if h != NoHostname {
      RemovingLast(h);
    }
  }

  /** A configuring command runs strictly exactly when the line fits its template word for word and no keyword of another
      command stands at a variable. */
  lemma StrictRunsIff(m: Matchers, words: seq<string>, h: Handler, argv: seq<string>)
    requires Configuring(h)
    ensures Execute(Strict, m, Shell.Node(), words) == Outcome.Run(h, argv) <==> Typed(Strict, h, words) && argv == Args(Template(h), words)
  {
    if Typed(Strict, h, words) { TypedRuns(Strict, m, words, h); }
    if Execute(Strict, m, Shell.Node(), words) == Outcome.Run(h, argv) { RunIsTyped(m, words, h, argv); }
  }

  lemma TypedMatches(mode: Mode, m: Matchers, words: seq<string>, h: Handler)
    requires Configuring(h) && Typed(mode, h, words)
    ensures Stands(mode, m, words, h) && |words| > 1
    ensures forall k :: 0 <= k < |words| ==> At(mode, m, El(h), words, k) != NO_MATCH && At(mode, m, El(h), words, k) != PARTLY_MATCH
  {
    ConfiguringSize(h);
    forall k | 0 <= k < |words| ensures At(mode, m, El(h), words, k) != NO_MATCH && At(mode, m, El(h), words, k) != PARTLY_MATCH {
      FullyMatches(mode, m, Template(h), k, words[k]);
    }
  }

  /** A line typed in full runs its command, in both executors. */
  lemma TypedRuns(mode: Mode, m: Matchers, words: seq<string>, h: Handler)
    requires Configuring(h) && Typed(mode, h, words)
    ensures Execute(mode, m, Shell.Node(), words) == Outcome.Run(h, Args(Template(h), words))
  {
    ConfiguringInstalled(h);
    ConfiguringSize(h);
    Selection.InNode(h);
    TypedMatches(mode, m, words, h);
    forall c | c in Shell.Node() && c != El(h) ensures Outdoes(mode, m, words, El(h), c) {
      Shell.NodeElement(c);
      OutdoesOthers(mode, m, words, h, c.id);
    }
    OutdoingIsChosen(mode, m, Shell.Node(), words, El(h));
    if mode.Completing? { BestNotAmbiguous(m, Shell.Node(), words, El(h)); }
    RunsBest(mode, m, words, El(h));
  }

  lemma RunsBest(mode: Mode, m: Matchers, words: seq<string>, e: Element)
    requires Chosen(mode, m, Shell.Node(), words, e) && |words| < CMD_ARGC_MAX && !SomewhereAmbiguous(mode, m, Shell.Node(), words, 0)
    ensures Execute(mode, m, Shell.Node(), words) == Outcome.Run(e.id, Args(e.strvec, words))
  {
    Selection.NodeDistinct();
    Shell.NodeOrdinary();
    RunsExactlyTheBest(mode, m, Shell.Node(), words, e.id, Args(e.strvec, words));
  }

  /** The command whose keyword is typed at the variable beats h there. */
  lemma ClaimerBeats(m: Matchers, words: seq<string>, e: Element, d: Element, k: nat, v: string)
    requires k < |words| && Agree(d, e, k) && k < |d.strvec| && k < |e.strvec|
    requires d.strvec[k] == [words[k]] && IsLiteral(words[k]) && e.strvec[k] == [v] && IsVariable(v) && Shell.OrdinaryWord(v)
    ensures Beats(Strict, m, words, |words|, d, e)
  {
    Selection.OnePosition(Strict, m, v, words[k]);
    Selection.OnePosition(Strict, m, words[k], words[k]);
    assert AheadAt(Strict, m, words, k, d, e);
  }

  function Claimer(h: Handler): Handler {
    match h
    case BridgeAdd => BridgeDisable
    case NoBridgeAdd => NoBridgeDisable
    case Portmap => Other(PortmapApply)
    case _ => Other(FilterApply)
  }

  lemma ClaimerInstalled(h: Handler)
    ensures El(Claimer(h)) in Shell.Node()
  {
    assert BridgeDisable in BRIDGE_INIT && NoBridgeDisable in BRIDGE_INIT;
    assert Other(PortmapApply) in FIREWALL_INIT && Other(FilterApply) in FIREWALL_INIT;
    Selection.InNode(Claimer(h));
  }

  lemma DisableBeats(m: Matchers, words: seq<string>)
    requires |words| > 1 && words[1] == "disable"
    ensures Beats(Strict, m, words, |words|, El(BridgeDisable), El(BridgeAdd))
  {
    ClaimerBeats(m, words, El(BridgeAdd), El(BridgeDisable), 1, "NUM");
  }

  lemma NoDisableBeats(m: Matchers, words: seq<string>)
    requires |words| > 2 && words[2] == "disable"
    ensures Beats(Strict, m, words, |words|, El(NoBridgeDisable), El(NoBridgeAdd))
  {
    NoHeads(NoBridgeAdd);
    NoHeads(NoBridgeDisable);
    NoBridgeHeads();
    ClaimerBeats(m, words, El(NoBridgeAdd), El(NoBridgeDisable), 2, "NUM");
  }

  lemma PortmapApplyBeats(m: Matchers, words: seq<string>)
    requires |words| > 3 && words[3] == "apply"
    ensures Beats(Strict, m, words, |words|, El(Other(PortmapApply)), El(Portmap))
  {
    PortmapHead();
    ApplyHeads();
    ClaimerBeats(m, words, El(Portmap), El(Other(PortmapApply)), 3, "NUM");
  }

  lemma FilterApplyBeats(m: Matchers, words: seq<string>)
    requires |words| > 2 && words[2] == "apply"
    ensures Beats(Strict, m, words, |words|, El(Other(FilterApply)), El(Filter))
  {
    FilterHead();
    ApplyHeads();
    ClaimerBeats(m, words, El(Filter), El(Other(FilterApply)), 2, "NUM");
  }

  lemma ClaimedIsBeaten(m: Matchers, words: seq<string>, h: Handler) returns (d: Element)
    requires Claimed(Strict, h, words)
    ensures d in Shell.Node() && Beats(Strict, m, words, |words|, d, El(h))
  {
    ClaimerInstalled(h);
    d := El(Claimer(h));
    if h == BridgeAdd { DisableBeats(m, words); }
    if h == NoBridgeAdd { NoDisableBeats(m, words); }
    if h == Portmap { PortmapApplyBeats(m, words); }
    if h == Filter { FilterApplyBeats(m, words); }
  }

  lemma ClaimedDoesNotRun(m: Matchers, words: seq<string>, h: Handler, argv: seq<string>)
    requires Claimed(Strict, h, words)
    ensures Execute(Strict, m, Shell.Node(), words) != Outcome.Run(h, argv)
  {
    Selection.NodeDistinct();
    Shell.NodeOrdinary();
    RunsExactlyTheBest(Strict, m, Shell.Node(), words, h, argv);
    if c :| Chosen(Strict, m, Shell.Node(), words, c) && c.id == h && argv == Args(c.strvec, words) {
      Shell.NodeElement(c);
      var d := ClaimedIsBeaten(m, words, h);
    }
  }

  lemma RunIsTyped(m: Matchers, words: seq<string>, h: Handler, argv: seq<string>)
    requires Configuring(h) && Execute(Strict, m, Shell.Node(), words) == Outcome.Run(h, argv)
    ensures Typed(Strict, h, words) && argv == Args(Template(h), words)
  {
    ConfiguringSize(h);
    Shell.RunFacts(Strict, m, words, h, argv);
    forall k | 0 <= k < |words| ensures FullyAt(Strict, Template(h)[k], words[k]) {
      Shell.RunFit(Strict, m, words, h, argv, k, Template(h)[k]);
      StrictlyFits(m, Template(h), k, words[k]);
    }
    if Claimed(Strict, h, words) { ClaimedDoesNotRun(m, words, h, argv); }
  }
}
