/** Which reachable configurations survive a save and a load: every run of fully typed lines reaches one. */
module Reload {
  import opened CText
  import opened ListSpec
  import opened ConfigStore
  import opened Handlers
  import opened Matching
  import opened Commands
  import opened Keys
  import opened Runs
  import opened ShellRuns
  import opened Replay
  import opened ConfigFile
  import Shell
  import Selection
  import Tokenizer
  import Ipv4

  // ---- printf and atoi ----

  lemma {:induction false} DecimalOfDigits(n: nat)
    ensures Ipv4.Decimal(Digits(n)) == n
  {
    if n >= 10 {
      DecimalOfDigits(n / 10);
      assert Digits(n)[..|Digits(n)| - 1] == Digits(n / 10);
    } else {
      assert Digits(n)[..0] == "";
    }
  }

  lemma DigitsRun(k: nat)
    ensures var d := Digits(k); |d| > 0 && d[0] != '-' && d[0] != '+' && Ipv4.Decimal(d[..Ipv4.DigitRun(d)]) == k
  {
    var d := Digits(k);
    DecimalOfDigits(k);
    Ipv4.DigitRunUnique(d, |d|);
    assert d[..|d|] == d;
    assert IsDigit(d[0]);
  }

  /** A printed int is read back. */
  lemma AtoiOfShow(n: int)
    requires -0x8000_0000 <= n < 0x8000_0000
    ensures Atoi(Show(n)) == n
  {
    var k: nat := if n < 0 then -n else n;
    DigitsRun(k);
    assert ("-" + Digits(k))[1..] == Digits(k);
  }

  // ---- A strictly accepted line is recorded as typed ----

  /** The keyword positions of the templates that record a line. */
  predicate Keywords(t: seq<seq<string>>, words: seq<string>) {
    |words| <= |t| && forall i :: 0 <= i < |words| && |t[i]| == 1 && IsLiteral(t[i][0]) ==> words[i] == t[i][0]
  }

  lemma AllKeywords(t: seq<seq<string>>, words: seq<string>)
    requires |words| <= |t| && forall i :: 0 <= i < |words| ==> Shell.WordFits(Strict, t[i], words[i])
    ensures Keywords(t, words)
  {
    forall i | 0 <= i < |words| && |t[i]| == 1 && IsLiteral(t[i][0]) ensures words[i] == t[i][0] {
    }
  }

  lemma StrictKeywords(m: Matchers, words: seq<string>, h: Handler, argv: seq<string>)
    requires Execute(Strict, m, Shell.Node(), words) == Outcome.Run(h, argv)
    ensures Keywords(Template(h), words)
  {
    Shell.RunFacts(Strict, m, words, h, argv);
    AllKeywords(Template(h), words);
  }

  /** The keywords a template begins with, for the handlers that record them followed by their arguments. */
  function LeadWords(h: Handler): seq<string> {
    match h
    case BridgeDisable => ["bridge", "disable"]
    case Hostname => ["hostname"]
    case IpAddress => ["ip", "address"]
    case IpRoute => ["ip", "route"]
    case Dns => ["nameserver"]
    case Portmap => ["sfirewall", "nat", "portmap"]
    case Filter => ["sfirewall", "filter"]
    case WgPeer => ["wg", "peer"]
    case WgLink => ["wg"]
    case _ => []
  }

  predicate StartsWithKeywords(t: seq<seq<string>>, lead: seq<string>) {
    |lead| <= |t| && forall i :: 0 <= i < |lead| ==> t[i] == [lead[i]] && IsLiteral(lead[i])
  }

  lemma LeadOfTemplate(h: Handler)
    requires LeadWords(h) != []
    ensures StartsWithKeywords(Template(h), LeadWords(h)) && Shell.Lead(h) == Some(|LeadWords(h)|)
  {
  }

  lemma KeywordLead(t: seq<seq<string>>, words: seq<string>, lead: seq<string>)
    requires StartsWithKeywords(t, lead) && Keywords(t, words) && |lead| <= |words|
    ensures words == lead + words[|lead|..]
  {
    forall i | 0 <= i < |lead| ensures words[i] == lead[i] { assert t[i] == [lead[i]]; }
  }

  lemma EndsTwo(a: Op, l: string)
    requires !a.Add?
    ensures EndsWithAdd([a, Add(l)], l)
  {
  }

  lemma PlanAddsAll(h: Handler, argv: seq<string>, env: Env)
    requires h in [IpAddress, IpRoute, Dns, Portmap] && Fits(h, |argv|) && Plan(h, argv, env).Some?
    ensures EndsWithAdd(Plan(h, argv, env).value, Line(LeadWords(h) + argv))
  {
    var l := Line(LeadWords(h) + argv);
    match h {
      case IpAddress => EndsTwo(DelPrefix(Line(["ip", "address", argv[0]])), l);
      case Dns => EndsTwo(DelPrefix("nameserver"), l);
      case IpRoute => EndsTwo(Del(l), l);
      case Portmap => EndsTwo(Del(l), l);
    }
  }

  lemma FilterAdds(argv: seq<string>, env: Env)
    requires |argv| == 13 && Plan(Filter, argv, env).Some?
    ensures EndsWithAdd(Plan(Filter, argv, env).value, Line(LeadWords(Filter) + argv))
  {
    var twin := argv[3 := if argv[3] == "append" then "insert" else "append"];
  }

  lemma HostnameAdds(argv: seq<string>, env: Env)
    requires |argv| == 1 && Plan(Hostname, argv, env).Some?
    ensures EndsWithAdd(Plan(Hostname, argv, env).value, Line(["hostname"] + argv))
  {
    assert ["hostname"] + argv == ["hostname", argv[0]];
    EndsTwo(DelPrefix("hostname"), Line(["hostname", argv[0]]));
  }

  lemma WgPeerAdds(argv: seq<string>, env: Env)
    requires |argv| == 1 && Plan(WgPeer, argv, env).Some?
    ensures EndsWithAdd(Plan(WgPeer, argv, env).value, Line(["wg", "peer"] + argv))
  {
    assert ["wg", "peer"] + argv == ["wg", "peer", argv[0]];
    EndsTwo(DelPrefix(Line(["wg", "peer", argv[0]])), Line(["wg", "peer", argv[0]]));
  }

  lemma LinkAdds(argv: seq<string>)
    requires argv == ["link-up"] || argv == ["link-down"]
    ensures EndsWithAdd(LinkOps(argv[0]), Line(["wg"] + argv))
  {
    LinkLines();
    assert ["wg"] + argv == ["wg", argv[0]];
  }

  lemma BridgeDisableAdds()
    ensures EndsWithAdd([Del("bridge disable"), Add("bridge disable")], Line(["bridge", "disable"]))
  {
    LineOfTwo("bridge", "disable");
    assert "bridge" + " " + "disable" == "bridge disable";
    EndsTwo(Del("bridge disable"), "bridge disable");
  }

  lemma PlanAdds(h: Handler, argv: seq<string>, env: Env)
    requires LeadWords(h) != [] && Fits(h, |argv|) && Plan(h, argv, env).Some?
    requires h == WgLink ==> argv[0] == "link-up" || argv[0] == "link-down"
    ensures EndsWithAdd(Plan(h, argv, env).value, Line(LeadWords(h) + argv))
  {
    match h {
      case BridgeDisable => assert LeadWords(h) + argv == LeadWords(h); BridgeDisableAdds();
      case WgLink => assert argv == [argv[0]]; LinkAdds(argv);
      case Hostname => HostnameAdds(argv, env);
      case WgPeer => WgPeerAdds(argv, env);
      case Filter => FilterAdds(argv, env);
      case _ => PlanAddsAll(h, argv, env);
    }
  }

  lemma DhcpWords(words: seq<string>)
    requires |words| == 4 && Keywords(Template(IpAddressDhcp), words)
    ensures words == ["ip", "address", words[2], "dhcp"]
  {
    var t := Template(IpAddressDhcp);
    assert t[0] == ["ip"] && t[1] == ["address"] && t[3] == ["dhcp"];
  }

  lemma DhcpPlan(name: string, env: Env)
    requires Plan(IpAddressDhcp, [name], env).Some?
    ensures Plan(IpAddressDhcp, [name], env).value == [DelPrefix(Line(["ip", "address", name])), Add(Line(["ip", "address", name, "dhcp"]))]
  {
  }

  lemma DhcpAdds(words: seq<string>, env: Env)
    requires |words| == 4 && Keywords(Template(IpAddressDhcp), words) && Plan(IpAddressDhcp, [words[2]], env).Some?
    ensures EndsWithAdd(Plan(IpAddressDhcp, [words[2]], env).value, Line(words))
  {
    DhcpWords(words);
    DhcpPlan(words[2], env);
    EndsTwo(DelPrefix(Line(["ip", "address", words[2]])), Line(words));
  }

  predicate PeerCommand(h: Handler) { h == WgPeerAllowedIps || h == WgPeerEndpoint || h == WgPeerKeepalive }

  lemma PeerWords(h: Handler, words: seq<string>, argv: seq<string>)
    requires PeerCommand(h) && Fits(h, |argv|) && |words| == 2 * |argv| + 1 && Keywords(Template(h), words)
    requires forall i :: 0 <= i < |argv| ==> argv[i] == words[2 * i + 2]
    ensures words == ["wg", "peer"] + ([argv[0]] + PeerRest(h, argv))
  {
    assert argv[0] == words[2] && argv[1] == words[4];
  }

  lemma PeerPlan(h: Handler, argv: seq<string>, env: Env, l: string)
    requires PeerCommand(h) && Fits(h, |argv|) && Plan(h, argv, env).Some? && l == Line(["wg", "peer"] + ([argv[0]] + PeerRest(h, argv)))
    ensures EndsWithAdd(Plan(h, argv, env).value, l)
  {
    PeerLine(h, argv, PeerRest(h, argv));
    EndsTwo(DelPrefix(Line(["wg", "peer", argv[0]])), l);
  }

  lemma LeadAdds(h: Handler, words: seq<string>, argv: seq<string>, env: Env)
    requires LeadWords(h) != [] && |LeadWords(h)| <= |words| && argv == words[|LeadWords(h)|..] && Keywords(Template(h), words)
    requires Fits(h, |argv|) && Plan(h, argv, env).Some?
    requires h == WgLink ==> argv[0] == "link-up" || argv[0] == "link-down"
    ensures EndsWithAdd(Plan(h, argv, env).value, Line(words))
  {
    LeadOfTemplate(h);
    KeywordLead(Template(h), words, LeadWords(h));
    PlanAdds(h, argv, env);
  }

  /** The handlers that record their own line as it was typed. */
  predicate Verbatim(h: Handler) { LeadWords(h) != [] || h == IpAddressDhcp || PeerCommand(h) }

  lemma LinkWord(m: Matchers, words: seq<string>, argv: seq<string>)
    requires Execute(Strict, m, Shell.Node(), words) == Outcome.Run(WgLink, argv)
    ensures |argv| == 1 && (argv[0] == "link-up" || argv[0] == "link-down")
  {
    Shell.RunArgs(Strict, m, words, WgLink, argv);
    Shell.RunFit(Strict, m, words, WgLink, argv, 1, ["link-up", "link-down"]);
    LinkFits(words[1]);
  }

  lemma LinkFits(w: string)
    requires Shell.WordFits(Strict, ["link-up", "link-down"], w)
    ensures w == "link-up" || w == "link-down"
  {
  }

  lemma LeadArgs(m: Matchers, words: seq<string>, h: Handler, argv: seq<string>)
    requires Execute(Strict, m, Shell.Node(), words) == Outcome.Run(h, argv) && LeadWords(h) != []
    ensures |LeadWords(h)| <= |words| && argv == words[|LeadWords(h)|..]
    ensures h == WgLink ==> |argv| == 1 && (argv[0] == "link-up" || argv[0] == "link-down")
  {
    Shell.RunArgs(Strict, m, words, h, argv);
    LeadOfTemplate(h);
    if h == WgLink { LinkWord(m, words, argv); }
  }

  lemma PeerArgv(m: Matchers, words: seq<string>, h: Handler, argv: seq<string>)
    requires Execute(Strict, m, Shell.Node(), words) == Outcome.Run(h, argv) && PeerCommand(h)
    ensures |words| == 2 * |argv| + 1 && forall i :: 0 <= i < |argv| ==> argv[i] == words[2 * i + 2]
  {
    Shell.RunArgs(Strict, m, words, h, argv);
    EverySecond(words, argv);
  }

  lemma EverySecond(words: seq<string>, argv: seq<string>)
    requires (|words| == 5 && argv == [words[2], words[4]]) || (|words| == 7 && argv == [words[2], words[4], words[6]])
      || (|words| == 9 && argv == [words[2], words[4], words[6], words[8]])
    ensures |words| == 2 * |argv| + 1 && forall i :: 0 <= i < |argv| ==> argv[i] == words[2 * i + 2]
  {
  }

  lemma DhcpArgv(m: Matchers, words: seq<string>, argv: seq<string>)
    requires Execute(Strict, m, Shell.Node(), words) == Outcome.Run(IpAddressDhcp, argv)
    ensures |words| == 4 && argv == [words[2]]
  {
    Shell.RunArgs(Strict, m, words, IpAddressDhcp, argv);
  }

  /** A strictly accepted line is recorded word for word as it was typed. */
  lemma RecordedAsTyped(m: Matchers, words: seq<string>, h: Handler, argv: seq<string>, env: Env)
    requires Execute(Strict, m, Shell.Node(), words) == Outcome.Run(h, argv) && Verbatim(h)
    requires Fits(h, |argv|) && Plan(h, argv, env).Some?
    ensures EndsWithAdd(Plan(h, argv, env).value, Line(words))
  {
    StrictKeywords(m, words, h, argv);
    if LeadWords(h) != [] {
      LeadArgs(m, words, h, argv);
      LeadAdds(h, words, argv, env);
    } else if h == IpAddressDhcp {
      DhcpArgv(m, words, argv);
      DhcpAdds(words, env);
    } else {
      PeerArgv(m, words, h, argv);
      PeerWords(h, words, argv);
      PeerPlan(h, argv, env, Line(words));
    }
  }

  // ---- Recorded lines re-record ----

  lemma {:induction false} QuoteFreeLine(ws: seq<string>)
    requires forall i :: 0 <= i < |ws| ==> '"' !in ws[i]
    ensures '"' !in Line(ws)
  {
    if |ws| > 1 { QuoteFreeLine(ws[1..]); }
  }

  lemma QuoteFreeTokens(line: string, words: seq<string>)
    requires '"' !in line && Tokenizer.Tokens(line) == Some(words)
    ensures AreWords(words) && |words| > 0 && '"' !in Line(words) && words[0][0] != '!' && words[0][0] != '#'
  {
    Tokenizer.NoQuotesUnchanged(line, "");
    assert line + "" == line;
    var i := Tokenizer.SpaceEnd(line, 0);
    Tokenizer.SpaceEndIs(line, 0);
    Tokenizer.WordsFromAreWords(line, i);
    assert words[0] == line[i..Tokenizer.WordEnd(line, i)];
    forall k | 0 <= k < |words| ensures '"' !in words[k] {
      assert forall j :: 0 <= j < |words[k]| ==> words[k][j] in line;
    }
    QuoteFreeLine(words);
  }

  /** What was typed can be read back from its recorded line. */
  lemma TypedAgain(m: Matchers, line: string, words: seq<string>)
    requires '"' !in line && Tokenizer.Tokens(line) == Some(words)
    ensures OutcomeOf(m, Strict, Line(words) + "\n") == Execute(Strict, m, Shell.Node(), words)
  {
    QuoteFreeTokens(line, words);
    Tokenizer.TokensOfLine(words, "\n");
  }

  /** A command typed in full: read strictly it is the same command with the same arguments. */
  ghost predicate TypedInFull(m: Matchers, i: Input) {
    var r := OutcomeOf(m, i.mode, i.line);
    && CleanLine(i.line) && '"' !in i.line
    && r == OutcomeOf(m, Strict, i.line)
    && (r.Run? ==> r.id != BridgeAdd)
  }

  lemma PlanIgnoresWorld(h: Handler, argv: seq<string>, env: Env, env': Env)
    requires Verbatim(h) && Fits(h, |argv|)
    ensures Plan(h, argv, env) == Plan(h, argv, env')
  {
  }

  lemma VerbatimReRecords(m: Matchers, env: Env, env': Env, line: string, h: Handler, argv: seq<string>)
    requires '"' !in line && OutcomeOf(m, Strict, line) == Outcome.Run(h, argv) && Verbatim(h)
    requires Fits(h, |argv|) && Plan(h, argv, env).Some?
    ensures var l := Line(Tokenizer.Tokens(line).value); EndsWithAdd(Plan(h, argv, env).value, l) && ReRecords(m, env', l)
  {
    var words := Tokenizer.Tokens(line).value;
    TypedAgain(m, line, words);
    RecordedAsTyped(m, words, h, argv, env);
    PlanIgnoresWorld(h, argv, env, env');
  }

  lemma ListenportReRecords(m: Matchers, env: Env, d: string)
    ensures ReRecords(m, env, Line(["wg", "listenport", Show(Atoi(d))]))
  {
    var n := Atoi(d);
    var ws := ["wg", "listenport", Show(n)];
    AtoiOfShow(n);
    ListenportTokens(n);
    Selection.ListenportRuns(Strict, m, Show(n));
    EndsTwo(DelPrefix("wg listenport"), Line(ws));
  }

  lemma ListenportTokens(n: int)
    ensures Tokenizer.Tokens(Line(["wg", "listenport", Show(n)]) + "\n") == Some(["wg", "listenport", Show(n)])
  {
    var ws := ["wg", "listenport", Show(n)];
    CleanWgKeywords();
    CleanJoin(["wg", "listenport"], [Show(n)]);
    assert ws == ["wg", "listenport"] + [Show(n)];
    assert '"' !in Show(n);
    QuoteFreeLine(ws);
    Tokenizer.TokensOfLine(ws, "\n");
  }

  // ---- Every run of commands typed in full ----

  lemma {:induction false} ApplyMembers(top: seq<string>, ops: seq<Op>, x: string)
    requires x in Apply(top, ops)
    ensures x in top || Add(x) in ops
  {
    if |ops| > 0 {
      var k := |ops| - 1;
      var before := Apply(top, ops[..k]);
      if x in before { ApplyMembers(top, ops[..k], x); }
    }
  }

  lemma DeletionsAddNothing(h: Handler, argv: seq<string>, env: Env, x: string)
    requires Fits(h, |argv|) && Plan(h, argv, env).Some? && Add(x) in Plan(h, argv, env).value
    ensures Verbatim(h) || h == WgListenport || h == BridgeAdd
  {
  }

  ghost predicate AllReRecord(m: Matchers, env: Env, top: seq<string>) {
    forall l :: l in top ==> ReRecords(m, env, l)
  }

  lemma AddedReRecords(m: Matchers, env: Env, i: Input, x: string)
    requires TypedInFull(m, i)
    requires var r := OutcomeOf(m, i.mode, i.line);
             r.Run? && Fits(r.id, |r.argv|) && Plan(r.id, r.argv, i.env).Some? && Add(x) in Plan(r.id, r.argv, i.env).value
    ensures ReRecords(m, env, x)
  {
    var r := OutcomeOf(m, i.mode, i.line);
    DeletionsAddNothing(r.id, r.argv, i.env, x);
    if Verbatim(r.id) {
      VerbatimReRecords(m, i.env, env, i.line, r.id, r.argv);
    } else {
      ListenportReRecords(m, env, r.argv[0]);
    }
  }

  lemma StepReRecords(m: Matchers, env: Env, top: seq<string>, i: Input)
    requires TypedInFull(m, i) && AllReRecord(m, env, top)
    ensures AllReRecord(m, env, Step(m, top, i))
  {
    var r := OutcomeOf(m, i.mode, i.line);
    OutcomeFits(m, i.mode, i.line);
    forall x | x in Step(m, top, i) ensures ReRecords(m, env, x) {
      if x !in top {
        ApplyMembers(top, Plan(r.id, r.argv, i.env).value, x);
        AddedReRecords(m, env, i, x);
      }
    }
  }

  lemma {:induction false} RunReRecords(m: Matchers, env: Env, inputs: seq<Input>)
    requires forall k :: 0 <= k < |inputs| ==> TypedInFull(m, inputs[k])
    ensures AllReRecord(m, env, ShellRuns.Run(m, [], inputs))
  {
    if |inputs| > 0 {
      var k := |inputs| - 1;
      RunReRecords(m, env, inputs[..k]);
      StepReRecords(m, env, ShellRuns.Run(m, [], inputs[..k]), inputs[k]);
    }
  }

  /** Save then load is the identity on every configuration that commands typed in full can reach, as long as its
      lines fit the loader's buffer. */
  lemma EveryRunReloads(m: Matchers, env: Env, inputs: seq<Input>, stamp: string)
    requires forall k :: 0 <= k < |inputs| ==> TypedInFull(m, inputs[k])
    requires forall l :: l in ShellRuns.Run(m, [], inputs) ==> |l| < 511
    requires '\n' !in stamp && |stamp| < 200
    ensures Load(m, env, [], Dump(ShellRuns.Run(m, [], inputs), stamp)) == ShellRuns.Run(m, [], inputs)
  {
    var top := ShellRuns.Run(m, [], inputs);
    RunReRecords(m, env, inputs);
    EveryRunKeepsInv(m, [], inputs);
    SaveLoad(m, env, top, stamp);
  }
}
