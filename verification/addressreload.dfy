/** Which ip address lines survive a save and a load: the completing shell takes unfinished addresses, the loader does not. */
module AddressReload {
  import opened CText
  import opened Handlers
  import opened Matching
  import opened Commands
  import opened Keys
  import opened ShellRuns
  import opened Replay
  import opened ConfigFile
  import Shell
  import Selection
  import Shortcuts
  import Reload
  import ReloadExact
  import ControlCharacters
  import ConfigStore
  import ListSpec
  import Runs
  import Tokenizer
  import Ipv4

  /** A line behind ip address runs one of its two commands. */
  lemma AddressRunIs(mode: Mode, m: Matchers, words: seq<string>, h: Handler, argv: seq<string>)
    requires |words| >= 2 && words[0] == "ip" && words[1] == "address" && Execute(mode, m, Shell.Node(), words) == Outcome.Run(h, argv)
    ensures h == IpAddress || h == IpAddressDhcp
  {
    Shell.NodeOrdinary();
    var c := Shell.ChosenElement(mode, m, Shell.Node(), words, h, argv);
    var c1, c2 := Selection.AddressKeywords(mode, m);
    assert Narrow(mode, m, c1, words, 1, EXACT_MATCH) == Narrow(mode, m, c2, words, 2, EXACT_MATCH);
    Shortcuts.Survivors(mode, m, c2, words, 2, EXACT_MATCH, c);
  }

  lemma ExactPosition(m: Matchers, w: string)
    requires PositionMatch(Strict, m, ["A.B.C.D"], w) != NO_MATCH
    ensures Ipv4.Match(w).Exact?
  {
    Selection.OnePosition(Strict, m, "A.B.C.D", w);
  }

  lemma StrictAddressRun(m: Matchers, name: string, a: string, b: string, h: Handler, argv: seq<string>)
    requires Execute(Strict, m, Shell.Node(), ["ip", "address", name, a, b]) == Outcome.Run(h, argv)
    ensures h == IpAddress && argv == [name, a, b] && Ipv4.Match(a).Exact? && Ipv4.Match(b).Exact?
  {
    var words := ["ip", "address", name, a, b];
    AddressRunIs(Strict, m, words, h, argv);
    Shell.RunArgs(Strict, m, words, h, argv);
    assert h == IpAddress;
    assert words[2..] == [name, a, b];
    Selection.AddressTemplates();
    Shell.RunFit(Strict, m, words, h, argv, 3, ["A.B.C.D"]);
    Shell.RunFit(Strict, m, words, h, argv, 4, ["A.B.C.D"]);
    ExactPosition(m, words[3]);
    ExactPosition(m, words[4]);
  }

  predicate Typed(name: string, a: string, b: string) {
    CleanWords(["ip", "address", name, a, b]) && '"' !in Line(["ip", "address", name, a, b])
  }

  lemma LoadedTokens(ws: seq<string>)
    requires AreWords(ws) && |ws| > 0 && ws[0] == "ip" && '"' !in Line(ws)
    ensures Tokenizer.Tokens(Line(ws) + "\n") == Some(ws)
  {
    Tokenizer.TokensOfLine(ws, "\n");
  }

  /** An ip address line records itself exactly when the interface is supported and both addresses are complete. */
  lemma AddressReRecordsIff(m: Matchers, env: Env, name: string, a: string, b: string)
    requires Typed(name, a, b)
    ensures ReRecords(m, env, Line(["ip", "address", name, a, b])) <==> Supported(name) && Ipv4.Match(a).Exact? && Ipv4.Match(b).Exact?
  {
    var ws := ["ip", "address", name, a, b];
    LoadedTokens(ws);
    if ReRecords(m, env, Line(ws)) {
      var r := OutcomeOf(m, Strict, Line(ws) + "\n");
      StrictAddressRun(m, name, a, b, r.id, r.argv);
    }
    if Supported(name) && Ipv4.Match(a).Exact? && Ipv4.Match(b).Exact? {
      assert IsWord(ws[3]);
      Selection.IpAddressRuns(Strict, m, name, a, b);
      AddressAdds(env, name, a, b);
    }
  }

  lemma AddressAdds(env: Env, name: string, a: string, b: string)
    requires Supported(name)
    ensures Plan(IpAddress, [name, a, b], env).Some?
    ensures EndsWithAdd(Plan(IpAddress, [name, a, b], env).value, Line(["ip", "address", name, a, b]))
  {
    assert ["ip", "address"] + [name, a, b] == ["ip", "address", name, a, b];
    Reload.PlanAddsAll(IpAddress, [name, a, b], env);
  }

  lemma TypedAlone(m: Matchers, mode: Mode, env: Env, name: string, a: string, b: string)
    requires Typed(name, a, b) && Supported(name) && AddressOk(mode, Ipv4.Match(a)) && AddressOk(mode, Ipv4.Match(b))
    ensures var line := Line(["ip", "address", name, a, b]); Step(m, [], Input(mode, line, env)) == [line]
  {
    var ws := ["ip", "address", name, a, b];
    assert IsWord(ws[2]) && IsWord(ws[3]) && IsWord(ws[4]);
    ControlCharacters.AddressStep(m, mode, env, [], name, a, b);
    ReplaceOnEmpty(Line(["ip", "address", name]), Line(ws));
  }

  lemma ReplaceOnEmpty(left: string, l: string)
    ensures Apply([], Replace(left, l)) == [l]
  {
    Runs.ApplyTwo([], DelPrefix(left), Add(l));
    assert ConfigStore.DelLeft([], left) == [];
    ListSpec.InsertPosUnique([], l, Less, 0);
  }

  lemma LoneIsInv(l: string)
    requires Good(l)
    ensures Inv([l])
  {
    assert forall x :: x in [l] ==> x == l;
  }

  lemma AllIsOne(m: Matchers, env: Env, l: string)
    ensures (forall x :: x in [l] ==> ReRecords(m, env, x)) <==> ReRecords(m, env, l)
  {
    assert l in [l] && forall x :: x in [l] ==> x == l;
  }

  /** A single line is loaded back exactly when it records itself. */
  lemma LoneReloadsIff(m: Matchers, env: Env, l: string, stamp: string)
    requires Good(l) && '"' !in l && |l| < VTY_BUFSIZ - 1 && env.file && '\n' !in stamp && |stamp| < 200
    ensures Load(m, env, [], Dump([l], stamp)) == [l] <==> ReRecords(m, env, l)
  {
    LoneIsInv(l);
    AllIsOne(m, env, l);
    ReloadExact.ReloadsExactlyWhen(m, env, [l], stamp);
  }

  /** The completing shell records the line with finished or unfinished addresses; saved and loaded it is still there
      exactly when both are finished. */
  lemma UnfinishedAddressIsLost(m: Matchers, env: Env, env': Env, name: string, a: string, b: string, stamp: string)
    requires Typed(name, a, b) && Supported(name) && !Ipv4.Match(a).No? && !Ipv4.Match(b).No?
    requires env'.file && |Line(["ip", "address", name, a, b])| < VTY_BUFSIZ - 1 && '\n' !in stamp && |stamp| < 200
    ensures var top := Step(m, [], Input(Completing, Line(["ip", "address", name, a, b]), env));
            && top == [Line(["ip", "address", name, a, b])]
            && (Load(m, env', [], Dump(top, stamp)) == top <==> Ipv4.Match(a).Exact? && Ipv4.Match(b).Exact?)
  {
    var ws := ["ip", "address", name, a, b];
    TypedAlone(m, Completing, env, name, a, b);
    GoodLine(ws);
    AddressReRecordsIff(m, env', name, a, b);
    LoneReloadsIff(m, env', Line(ws), stamp);
  }
}
