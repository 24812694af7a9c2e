/** Saving the configuration to a file and loading it again through the strict executor. */
module Replay {
  import opened CText
  import opened ListSpec
  import opened ConfigStore
  import opened Handlers
  import opened Matching
  import opened Commands
  import opened Keys
  import opened Runs
  import opened ShellRuns
  import Shell
  import Executor
  import CommandOrder
  import LinkList
  import Tokenizer
  import opened ConfigFile

  // ---- vtysh_config_from_file ----

  /** One line of the file: comments are skipped, anything refused is tried once more. */
  ghost function LoadLine(m: Matchers, env: Env, top: seq<string>, buf: string): seq<string> {
    if |buf| > 0 && buf[0] == '#' then top
    else
      var i := Input(Strict, buf, env);
      if Accepts(m, i) then Step(m, top, i) else Step(m, Step(m, top, i), i)
  }

  ghost function Load(m: Matchers, env: Env, top: seq<string>, file: string): seq<string>
    decreases |file|
  {
    if |file| == 0 then top
    else
      var n := Chunk(file);
      Load(m, env, LoadLine(m, env, top, file[..n]), file[n..])
  }

  method LoadBuffer(m: Matchers, env: Env, node: array<Option<Element>>, config: LinkList.List, buf: string)
    requires config.Valid() && config.cmp == Some(Less)
    requires Executor.WellFormedVector(Executor.Alive(node[..])) && CommandOrder.Reordered(Shell.Node(), Executor.Alive(node[..]))
    modifies config, config.repr
    ensures config.Valid() && fresh(config.repr - old(config.repr))
    ensures config.contents == LoadLine(m, env, old(config.contents), buf)
  {
    if |buf| > 0 && buf[0] == '#' {
      return;
    }
    var i := Input(Strict, buf, env);
    var accepted := ExecuteLine(m, node, config, i);
    if !accepted {
      accepted := ExecuteLine(m, node, config, i);
    }
  }

  /** vtysh_config_from_file: the loop over the lines of the file. */
  method LoadFile(m: Matchers, env: Env, node: array<Option<Element>>, config: LinkList.List, file: string)
    requires config.Valid() && config.cmp == Some(Less)
    requires Executor.WellFormedVector(Executor.Alive(node[..])) && CommandOrder.Reordered(Shell.Node(), Executor.Alive(node[..]))
    modifies config, config.repr
    ensures config.Valid() && fresh(config.repr - old(config.repr))
    ensures config.contents == Load(m, env, old(config.contents), file)
  {
    var rest := file;
    while |rest| > 0
      invariant config.Valid() && config.cmp == Some(Less) && fresh(config.repr - old(config.repr))
      invariant Load(m, env, config.contents, rest) == Load(m, env, old(config.contents), file)
      decreases |rest|
    {
      var n := Chunk(rest);
      LoadBuffer(m, env, node, config, rest[..n]);
      rest := rest[n..];
    }
  }

  lemma LoadLineIsStep(m: Matchers, env: Env, top: seq<string>, buf: string)
    requires |buf| > 0 && buf[0] != '#'
    ensures LoadLine(m, env, top, buf) == Step(m, top, Input(Strict, buf, env))
  {
    OutcomeFits(m, Strict, buf);
  }

  lemma LoadOne(m: Matchers, env: Env, top: seq<string>, l: string, rest: string)
    requires |l| < VTY_BUFSIZ - 1 && '\n' !in l
    ensures Load(m, env, top, l + "\n" + rest) == Load(m, env, LoadLine(m, env, top, l + "\n"), rest)
  {
    ChunkOfLine(l, rest);
  }

  // ---- A line that records itself ----

  ghost predicate EndsWithAdd(ops: seq<Op>, l: string) {
    |ops| > 0 && ops[|ops| - 1] == Add(l) && forall i :: 0 <= i < |ops| - 1 ==> !ops[i].Add?
  }

  /** The line read strictly is accepted and records x. */
  ghost predicate ReadsAs(m: Matchers, env: Env, l: string, x: string) {
    var r := OutcomeOf(m, Strict, l + "\n");
    r.Run? && Fits(r.id, |r.argv|) && Plan(r.id, r.argv, env).Some? && EndsWithAdd(Plan(r.id, r.argv, env).value, x)
  }

  ghost predicate ReRecords(m: Matchers, env: Env, l: string) { ReadsAs(m, env, l, l) }

  predicate Deletes(op: Op, l: string) {
    match op
    case Add(_) => false
    case Del(line) => l == line
    case DelPrefix(left) => left <= l
  }

  lemma DeleteNothing(top: seq<string>, op: Op)
    requires !op.Add? && forall l :: l in top ==> !Deletes(op, l)
    ensures Apply1(top, op) == top
  {
    assert forall i :: 0 <= i < |top| ==> !Deletes(op, top[i]);
    match op {
      case Del(line) => FindUnique(top, l => l == line, |top|);
      case DelPrefix(left) => FindUnique(top, l => left <= l, |top|);
    }
  }

  lemma {:induction false} DeletesNothing(top: seq<string>, ops: seq<Op>)
    requires forall i :: 0 <= i < |ops| ==> !ops[i].Add? && forall l :: l in top ==> !Deletes(ops[i], l)
    ensures Apply(top, ops) == top
  {
    if |ops| > 0 {
      DeletesNothing(top, ops[..|ops| - 1]);
      DeleteNothing(top, ops[|ops| - 1]);
    }
  }

  /** A line greater than all others goes to the end. */
  lemma AppendGreatest(top: seq<string>, l: string)
    requires forall x :: x in top ==> Less(x, l)
    ensures AddLine(top, l) == top + [l]
  {
    forall i | 0 <= i < |top| ensures !Less(l, top[i]) {
      assert top[i] in top;
      if Less(l, top[i]) {
        LessTransitive(l, top[i], l);
        LessIrreflexive(l);
      }
    }
    InsertPosUnique(top, l, Less, |top|);
    assert top[..|top|] + [l] + top[|top|..] == top + [l];
  }

  // ---- Deletions of a plan hit, among smaller lines, only lines with the key of the line it adds ----

  ghost predicate SparesOtherKeys(ops: seq<Op>, l: string)
    requires Good(l)
  {
    forall i, x :: 0 <= i < |ops| && Good(x) && Less(x, l) && Deletes(ops[i], x) ==> KeyOfLine(x) == KeyOfLine(l)
  }

  lemma ReplaceSpares(left: string, ws: seq<string>)
    requires Recorded(ws) && PrefixIsKey(left, KeyOf(ws))
    ensures Good(Line(ws)) && SparesOtherKeys(Replace(left, Line(ws)), Line(ws))
  {
    GoodLine(ws);
  }

  lemma AddressSpares(name: string, l: string)
    requires IsWord(name) && Good(l) && KeyOfLine(l) == AddressKey(name)
    ensures SparesOtherKeys(Replace(Line(["ip", "address", name]), l), l)
  {
    var left := Line(["ip", "address", name]);
    forall x | Good(x) && Less(x, l) && left <= x ensures KeyOfLine(x) == KeyOfLine(l) {
      if KeyOfLine(x) != AddressKey(name) { LongerNameSortsLater(l, x, name); }
    }
  }

  lemma LinkSpares(word: string, l: string)
    requires Good(l) && KeyOfLine(l) == LinkKey
    ensures SparesOtherKeys(LinkOps(word), l)
  {
    forall x | Good(x) && ("wg link-up" <= x || "wg link-down" <= x) ensures KeyOfLine(x) == LinkKey { LinkPrefixKey(x); }
  }

  lemma TwinSpares(twin: string, l: string)
    requires Good(l) && Good(twin) && KeyOfLine(twin) == KeyOfLine(l)
    ensures SparesOtherKeys([Del(twin), Del(l), Add(l)], l)
  {
  }

  lemma FilterSpares(argv: seq<string>, other: string)
    requires CleanWords(argv) && |argv| == 13 && (argv[3] == "insert" || argv[3] == "append") && (other == "insert" || other == "append")
    ensures Good(FilterLine(argv))
    ensures SparesOtherKeys([Del(FilterLine(argv[3 := other])), Del(FilterLine(argv)), Add(FilterLine(argv))], FilterLine(argv))
  {
    FilterRecorded(argv);
    var ws := ["sfirewall", "filter"] + argv;
    TwinKey(ws, other);
    assert ["sfirewall", "filter"] + argv[3 := other] == ws[5 := other];
    TwinSpares(FilterLine(argv[3 := other]), FilterLine(argv));
  }

  // ---- Each recording handler ----

  /** The plan records at most this one line, which is of a recorded shape, and spares other keys. */
  ghost predicate Spares(ops: seq<Op>) {
    forall l :: EndsWithAdd(ops, l) ==> Good(l) && SparesOtherKeys(ops, l)
  }

  lemma ReplaceIsSparing(left: string, ws: seq<string>)
    requires Recorded(ws) && PrefixIsKey(left, KeyOf(ws))
    ensures Spares(Replace(left, Line(ws)))
  {
    ReplaceSpares(left, ws);
  }

  lemma RenewIsSparing(ws: seq<string>)
    requires Recorded(ws)
    ensures Spares([Del(Line(ws)), Add(Line(ws))])
  {
    GoodLine(ws);
  }

  lemma AddressIsSparing(name: string, rest: seq<string>)
    requires CleanWords([name] + rest) && |rest| > 0
    ensures Spares(Replace(Line(["ip", "address", name]), Line(["ip", "address"] + ([name] + rest))))
  {
    CleanKeywords();
    CleanJoin(["ip", "address"], [name] + rest);
    var ws := ["ip", "address"] + ([name] + rest);
    assert ([name] + rest)[0] == name && ws[2] == name;
    GoodLine(ws);
    AddressSpares(name, Line(ws));
  }

  lemma PeerIsSparing(key: string, rest: seq<string>)
    requires CleanWords([key] + rest) && |key| == 44
    ensures Spares(PeerOps(key, Line(["wg", "peer"] + ([key] + rest))))
  {
    CleanWgKeywords();
    CleanJoin(["wg", "peer"], [key] + rest);
    assert ([key] + rest)[0] == key;
    PeerPrefix(key);
    ReplaceIsSparing(Line(["wg", "peer", key]), ["wg", "peer"] + ([key] + rest));
  }

  lemma PeerPlansSpare(h: Handler, argv: seq<string>, env: Env)
    requires CleanWords(argv) && h in [WgPeer, WgPeerAllowedIps, WgPeerEndpoint, WgPeerKeepalive]
    requires Fits(h, |argv|) && Plan(h, argv, env).Some?
    ensures Spares(Plan(h, argv, env).value)
  {
    var rest := PeerRest(h, argv);
    PeerRestClean(h, argv);
    PeerIsSparing(argv[0], rest);
    PeerLine(h, argv, rest);
  }

  lemma BridgeIsSparing(argv: seq<string>, env: Env)
    requires CleanWords(argv) && |argv| == 3 && 1 <= Atoi(argv[0]) <= 9
    ensures Spares(BridgeOps(argv, env))
  {
    var n := Show(Atoi(argv[0]));
    BridgeRecorded(argv);
    BridgePrefix(n);
    ReplaceIsSparing(Line(["bridge", n]), ["bridge", n, argv[1], argv[2]]);
    var ops := BridgeOps(argv, env);
    assert env.file || env.brctl ==> ops == Replace(Line(["bridge", n]), Line(["bridge", n, argv[1], argv[2]]));
    assert !(env.file || env.brctl) ==> ops[|ops| - 1].DelPrefix?;
  }

  lemma LinkIsSparing(word: string)
    ensures Spares(LinkOps(word))
  {
    CleanWgKeywords();
    LinkLines();
    var w := if word == "link-up" then "link-up" else "link-down";
    GoodLine(["wg", w]);
    LinkSpares(word, Line(["wg", w]));
  }

  lemma HostnameIsSparing(w: string)
    requires CleanWords([w])
    ensures Spares(Replace("hostname", Line(["hostname", w])))
  {
    CleanKeywords();
    CleanJoin(["hostname"], [w]);
    assert ["hostname", w] == ["hostname"] + [w];
    HostnamePrefix();
    ReplaceIsSparing("hostname", ["hostname", w]);
  }

  lemma DnsIsSparing(argv: seq<string>)
    requires CleanWords(argv) && |argv| == 2
    ensures Spares(Replace("nameserver", Line(["nameserver"] + argv)))
  {
    CleanKeywords();
    CleanJoin(["nameserver"], argv);
    NameserverPrefix();
    ReplaceIsSparing("nameserver", ["nameserver"] + argv);
  }

  lemma ListenportIsSparing(n: int)
    ensures Spares(Replace("wg listenport", Line(["wg", "listenport", Show(n)])))
  {
    CleanWgKeywords();
    CleanShow(n);
    CleanJoin(["wg", "listenport"], [Show(n)]);
    assert ["wg", "listenport", Show(n)] == ["wg", "listenport"] + [Show(n)];
    ListenportPrefix();
    ReplaceIsSparing("wg listenport", ["wg", "listenport", Show(n)]);
  }

  lemma BridgeDisableIsSparing()
    ensures Spares([Del("bridge disable"), Add("bridge disable")])
  {
    CleanKeywords();
    LineOfTwo("bridge", "disable");
    assert "bridge" + " " + "disable" == "bridge disable";
    RenewIsSparing(["bridge", "disable"]);
  }

  lemma RenewalsSpare(h: Handler, argv: seq<string>, env: Env)
    requires CleanWords(argv) && h in [IpRoute, Portmap, Filter]
    requires Fits(h, |argv|) && Plan(h, argv, env).Some?
    ensures Spares(Plan(h, argv, env).value)
  {
    CleanKeywords();
    match h {
      case IpRoute => CleanJoin(["ip", "route"], argv); RenewIsSparing(["ip", "route"] + argv);
      case Portmap => CleanJoin(["sfirewall", "nat", "portmap"], argv); RenewIsSparing(["sfirewall", "nat", "portmap"] + argv);
      case Filter => FilterSpares(argv, if argv[3] == "append" then "insert" else "append");
    }
  }

  lemma AddressPlansSpare(h: Handler, argv: seq<string>, env: Env)
    requires CleanWords(argv) && h in [IpAddress, IpAddressDhcp]
    requires Fits(h, |argv|) && Plan(h, argv, env).Some?
    ensures Spares(Plan(h, argv, env).value)
  {
    if h == IpAddress {
      assert argv == [argv[0]] + argv[1..];
      AddressIsSparing(argv[0], argv[1..]);
    } else {
      CleanJoin(argv, ["dhcp"]);
      assert argv == [argv[0]];
      AddressIsSparing(argv[0], ["dhcp"]);
      assert ["ip", "address", argv[0], "dhcp"] == ["ip", "address"] + ([argv[0]] + ["dhcp"]);
    }
  }

  lemma PlanSpares(h: Handler, argv: seq<string>, env: Env)
    requires CleanWords(argv) && Fits(h, |argv|) && Plan(h, argv, env).Some?
    ensures Spares(Plan(h, argv, env).value)
  {
    match h {
      case BridgeDisable => BridgeDisableIsSparing();
      case BridgeAdd => BridgeIsSparing(argv, env);
      case Hostname => assert argv == [argv[0]]; HostnameIsSparing(argv[0]);
      case IpAddress | IpAddressDhcp => AddressPlansSpare(h, argv, env);
      case IpRoute | Portmap | Filter => RenewalsSpare(h, argv, env);
      case Dns => DnsIsSparing(argv);
      case WgListenport => ListenportIsSparing(Atoi(argv[0]));
      case WgPeer | WgPeerAllowedIps | WgPeerEndpoint | WgPeerKeepalive => PeerPlansSpare(h, argv, env);
      case WgLink => LinkIsSparing(argv[0]);
      case NoBridgeDisable | NoBridgeAdd | NoHostname | NoIpAddress | NoIpRoute | NoDns | NoPortmap | NoFilter | NoWgPeer | Other(_) =>
    }
  }

  // ---- Save, then load ----

  lemma {:induction false} LineChars(ws: seq<string>)
    requires CleanWords(ws)
    ensures forall c :: c in Line(ws) ==> c >= ' '
  {
    if |ws| > 1 {
      assert CleanWords(ws[1..]);
      LineChars(ws[1..]);
    }
  }

  lemma GoodChars(l: string)
    requires Good(l)
    ensures |l| > 0 && l[0] != '#' && '\n' !in l && forall c :: c in l ==> c >= ' '
  {
    LineChars(Words(l));
    assert l[0] == Words(l)[0][0];
    assert FirstLetter(Words(l)[0]);
  }

  predicate FirstLetter(w: string) { |w| > 0 && w[0] != '#' && w[0] != '!' }

  lemma ReRecordsSpares(m: Matchers, env: Env, l: string)
    requires Good(l) && ReRecords(m, env, l)
    ensures var r := OutcomeOf(m, Strict, l + "\n"); SparesOtherKeys(Plan(r.id, r.argv, env).value, l)
  {
    var r := OutcomeOf(m, Strict, l + "\n");
    var words := Tokenizer.Tokens(l + "\n").value;
    GoodChars(l);
    PrintableTokens(l + "\n", words);
    Shell.RunFacts(Strict, m, words, r.id, r.argv);
    CleanArgs(Template(r.id), words);
    PlanSpares(r.id, r.argv, env);
  }

  lemma SparingPlanAppends(top: seq<string>, ops: seq<Op>, l: string)
    requires Good(l) && EndsWithAdd(ops, l) && SparesOtherKeys(ops, l)
    requires forall x :: x in top ==> Good(x) && KeyOfLine(x) != KeyOfLine(l) && Less(x, l)
    ensures Apply(top, ops) == top + [l]
  {
    DeletesNothing(top, ops[..|ops| - 1]);
    AppendGreatest(top, l);
  }

  lemma EarlierLine(top: seq<string>, k: nat, x: string)
    requires Inv(top) && k < |top| && x in top[..k]
    ensures Good(x) && KeyOfLine(x) != KeyOfLine(top[k]) && Less(x, top[k])
  {
    var i :| 0 <= i < k && top[i] == x;
    assert top[k] in top && x in top;
    LessIrreflexive(top[k]);
  }

  /** Reading back the next line of a sorted dump appends it. */
  lemma LoadAppends(m: Matchers, env: Env, top: seq<string>, k: nat)
    requires Inv(top) && k < |top| && ReRecords(m, env, top[k])
    ensures LoadLine(m, env, top[..k], top[k] + "\n") == top[..k + 1]
  {
    var l := top[k];
    GoodChars(l);
    LoadLineIsStep(m, env, top[..k], l + "\n");
    var r := OutcomeOf(m, Strict, l + "\n");
    ReRecordsSpares(m, env, l);
    forall x | x in top[..k] ensures Good(x) && KeyOfLine(x) != KeyOfLine(l) && Less(x, l) { EarlierLine(top, k, x); }
    SparingPlanAppends(top[..k], Plan(r.id, r.argv, env).value, l);
    Take(top, k);
  }

  ghost predicate Loadable(m: Matchers, env: Env, top: seq<string>) {
    forall l :: l in top ==> |l| < VTY_BUFSIZ - 1 && ReRecords(m, env, l)
  }

  lemma LoadNext(m: Matchers, env: Env, top: seq<string>, k: nat)
    requires Inv(top) && k < |top| && Loadable(m, env, top)
    ensures Load(m, env, top[..k], LinesText(top[k..]) + "!\n") == Load(m, env, top[..k + 1], LinesText(top[k + 1..]) + "!\n")
  {
    TextFrom(top, k);
    assert top[k] in top;
    GoodChars(top[k]);
    LoadOne(m, env, top[..k], top[k], LinesText(top[k + 1..]) + "!\n");
    LoadAppends(m, env, top, k);
  }

  lemma LoadLast(m: Matchers, env: Env, top: seq<string>)
    ensures Load(m, env, top[..|top|], LinesText(top[|top|..]) + "!\n") == top
  {
    TextFrom(top, |top|);
    LoadEnd(m, env, top);
    assert top[..|top|] == top;
  }

  ghost function LoadFrom(m: Matchers, env: Env, top: seq<string>, k: nat): seq<string>
    requires k <= |top|
  {
    Load(m, env, top[..k], LinesText(top[k..]) + "!\n")
  }

  lemma {:induction false} LoadRest(m: Matchers, env: Env, top: seq<string>, k: nat)
    requires k <= |top| && LoadFrom(m, env, top, |top|) == top
    requires forall i :: 0 <= i < |top| ==> LoadFrom(m, env, top, i) == LoadFrom(m, env, top, i + 1)
    ensures LoadFrom(m, env, top, k) == top
    decreases |top| - k
  {
    if k < |top| { LoadRest(m, env, top, k + 1); }
  }

  /** The exclamation mark at the end of the file does nothing. */
  lemma LoadEnd(m: Matchers, env: Env, top: seq<string>)
    ensures Load(m, env, top, "!\n") == top
  {
    assert "!\n" == "!" + "\n" + "";
    LoadOne(m, env, top, "!", "");
    LoadLineIsStep(m, env, top, "!\n");
    assert Tokenizer.Unquote("!\n") == "!\n" by { Tokenizer.NoQuotesUnchanged("!", "\n"); assert "!" + "\n" == "!\n"; }
    Tokenizer.SpaceEndUnique("!\n", 0, 0);
  }

  /** Saving and then loading into an empty store rebuilds the same list. */
  lemma SaveLoad(m: Matchers, env: Env, top: seq<string>, stamp: string)
    requires Inv(top) && Loadable(m, env, top)
    requires '\n' !in stamp && |stamp| < 200
    ensures Load(m, env, [], Dump(top, stamp)) == top
  {
    var head := "#Writed on " + stamp;
    HeadLine(stamp);
    LoadOne(m, env, [], head, LinesText(top) + "!\n");
    forall k | 0 <= k < |top| ensures LoadFrom(m, env, top, k) == LoadFrom(m, env, top, k + 1) { LoadNext(m, env, top, k); }
    LoadLast(m, env, top);
    LoadRest(m, env, top, 0);
    assert top[0..] == top && top[..0] == [];
  }

  // ---- Loading keeps the invariant ----

  lemma LoadLineKeepsInv(m: Matchers, env: Env, top: seq<string>, buf: string)
    requires Inv(top) && CleanLine(buf)
    ensures Inv(LoadLine(m, env, top, buf))
  {
    var i := Input(Strict, buf, env);
    StepKeepsInv(m, top, i);
    StepKeepsInv(m, Step(m, top, i), i);
  }

  lemma CleanParts(s: string, n: nat)
    requires CleanLine(s) && n <= |s|
    ensures CleanLine(s[..n]) && CleanLine(s[n..])
  {
    assert forall c :: c in s[..n] || c in s[n..] ==> c in s;
  }

  /** Whatever file is loaded, config_top stays strictly sorted with one line per key. */
  lemma {:induction false} LoadKeepsInv(m: Matchers, env: Env, top: seq<string>, file: string)
    requires Inv(top) && CleanLine(file)
    ensures Inv(Load(m, env, top, file))
    decreases |file|
  {
    if |file| > 0 {
      var n := Chunk(file);
      CleanParts(file, n);
      LoadLineKeepsInv(m, env, top, file[..n]);
      LoadKeepsInv(m, env, LoadLine(m, env, top, file[..n]), file[n..]);
    }
  }

  /** Every state of the shell: a file loaded at start-up, then any lines typed. */
  lemma EverySessionKeepsInv(m: Matchers, env: Env, file: string, inputs: seq<Input>)
    requires CleanLine(file) && forall k :: 0 <= k < |inputs| ==> CleanLine(inputs[k].line)
    ensures Inv(ShellRuns.Run(m, Load(m, env, [], file), inputs))
  {
    LoadKeepsInv(m, env, [], file);
    EveryRunKeepsInv(m, Load(m, env, [], file), inputs);
  }
}
