/** Which lines of the configuration survive a save and a load: a description of their words. */
module RecordedLines {
  import opened CText
  import opened Handlers
  import opened Matching
  import opened Commands
  import opened Keys
  import opened ShellRuns
  import opened Replay
  import opened ConfigFile
  import opened FullLines
  import Shell
  import Reload
  import ReloadExact
  import Tokenizer

  /** The argument that is printed with %d is written as it would be printed. */
  predicate Canonical(h: Handler, argv: seq<string>) {
    h == WgListenport || h == BridgeAdd ==> |argv| > 0 && argv[0] == Show(Atoi(argv[0]))
  }

  /** The words are a full line of a recording command with arguments its handler takes. */
  ghost predicate Written(h: Handler, ws: seq<string>, env: Env) {
    var argv := Args(Template(h), ws);
    Recording(h) && Typed(Strict, h, ws) && Canonical(h, argv) && Fits(h, |argv|) && Plan(h, argv, env).Some?
  }

  lemma ReadsWords(m: Matchers, l: string)
    requires Good(l) && '"' !in l
    ensures OutcomeOf(m, Strict, l + "\n") == Execute(Strict, m, Shell.Node(), Words(l))
  {
    Tokenizer.TokensOfLine(Words(l), "\n");
  }

  /** The line a number is printed into is the typed one exactly when the number was typed so. */
  lemma NumberLine(lead: seq<string>, d: string, n: int, rest: seq<string>)
    requires AreWords(lead + [d] + rest)
    ensures Line(lead + [Show(n)] + rest) == Line(lead + [d] + rest) <==> d == Show(n)
  {
    var a, b := lead + [Show(n)] + rest, lead + [d] + rest;
    assert a[|lead|] == Show(n) && b[|lead|] == d;
    forall i | 0 <= i < |a| ensures IsWord(a[i]) {
      assert i != |lead| ==> a[i] == b[i];
    }
    if Line(a) == Line(b) { LineInjective(a, b); }
  }

  lemma ListenportIff(env: Env, ws: seq<string>, argv: seq<string>)
    requires |ws| == 3 && AreWords(ws) && ws[..2] == ["wg", "listenport"] && argv == ws[2..]
    ensures EndsWithAdd(Plan(WgListenport, argv, env).value, Line(ws)) <==> Canonical(WgListenport, argv)
  {
    assert ws == ws[..2] + [ws[2]] + [];
    NumberLine(["wg", "listenport"], ws[2], Atoi(ws[2]), []);
    assert ["wg", "listenport"] + [Show(Atoi(ws[2]))] + [] == ["wg", "listenport", Show(Atoi(ws[2]))];
  }

  lemma BridgePlan(env: Env, argv: seq<string>)
    requires |argv| == 3 && Plan(BridgeAdd, argv, env).Some? && env.file
    ensures var n := Show(Atoi(argv[0]));
            Plan(BridgeAdd, argv, env).value == Replace(Line(["bridge", n]), Line(["bridge", n, argv[1], argv[2]]))
  {
  }

  lemma BridgeIff(env: Env, ws: seq<string>, argv: seq<string>)
    requires |ws| == 4 && AreWords(ws) && ws[..1] == ["bridge"] && argv == ws[1..] && Plan(BridgeAdd, argv, env).Some? && env.file
    ensures EndsWithAdd(Plan(BridgeAdd, argv, env).value, Line(ws)) <==> Canonical(BridgeAdd, argv)
  {
    var n := Atoi(ws[1]);
    BridgePlan(env, argv);
    assert ws == ws[..1] + [ws[1]] + [ws[2], ws[3]];
    NumberLine(["bridge"], ws[1], n, [ws[2], ws[3]]);
    assert ["bridge"] + [Show(n)] + [ws[2], ws[3]] == ["bridge", Show(n), ws[2], ws[3]];
  }

  /** The keywords in front of the number, and the arguments behind them. */
  lemma NumberedWords(h: Handler, lead: seq<string>, ws: seq<string>)
    requires Recording(h) && Typed(Strict, h, ws) && |ws| == |Template(h)| && Shell.Lead(h) == Some(|lead|) && Reload.StartsWithKeywords(Template(h), lead)
    ensures Args(Template(h), ws) == ws[|lead|..] && ws[..|lead|] == lead
  {
    NumberedArgs(h, lead, ws);
    LeadTyped(Template(h), lead, ws);
  }

  lemma LeadTyped(t: seq<seq<string>>, lead: seq<string>, ws: seq<string>)
    requires FullyFits(Strict, t, ws) && Reload.StartsWithKeywords(t, lead) && |lead| <= |ws|
    ensures ws[..|lead|] == lead
  {
    forall i | 0 <= i < |lead| ensures ws[i] == lead[i] { Keyword1(Strict, t, ws, i, lead[i]); }
  }

  lemma NumberedArgs(h: Handler, lead: seq<string>, ws: seq<string>)
    requires Recording(h) && |ws| == |Template(h)| && Shell.Lead(h) == Some(|lead|)
    ensures |lead| <= |ws| && Args(Template(h), ws) == ws[|lead|..]
  {
    ConfiguringSize(h);
    Shell.LeadArgs(h, ws);
  }

  lemma NumberedTemplates()
    ensures |Template(WgListenport)| == 3 && Reload.StartsWithKeywords(Template(WgListenport), ["wg", "listenport"])
    ensures |Template(BridgeAdd)| == 4 && Reload.StartsWithKeywords(Template(BridgeAdd), ["bridge"])
  {
  }

  lemma NumberIff(m: Matchers, env: Env, ws: seq<string>, h: Handler, argv: seq<string>)
    requires env.file && AreWords(ws) && (h == WgListenport || h == BridgeAdd)
    requires Typed(Strict, h, ws) && argv == Args(Template(h), ws) && Fits(h, |argv|) && Plan(h, argv, env).Some?
    ensures EndsWithAdd(Plan(h, argv, env).value, Line(ws)) <==> Canonical(h, argv)
  {
    NumberedTemplates();
    ConfiguringSize(h);
    if h == WgListenport {
      NumberedWords(h, ["wg", "listenport"], ws);
      ListenportIff(env, ws, argv);
    } else {
      NumberedWords(h, ["bridge"], ws);
      BridgeIff(env, ws, argv);
    }
  }

  lemma OnlyRecordingAdds(h: Handler, argv: seq<string>, env: Env, l: string)
    requires Fits(h, |argv|) && Plan(h, argv, env).Some? && EndsWithAdd(Plan(h, argv, env).value, l)
    ensures Recording(h)
  {
    Reload.DeletionsAddNothing(h, argv, env, l);
  }

  lemma RecordsTyped(m: Matchers, env: Env, ws: seq<string>, h: Handler, argv: seq<string>)
    requires env.file && AreWords(ws) && Execute(Strict, m, Shell.Node(), ws) == Outcome.Run(h, argv) && Fits(h, |argv|) && Plan(h, argv, env).Some?
    requires Recording(h)
    ensures EndsWithAdd(Plan(h, argv, env).value, Line(ws)) <==> Canonical(h, argv)
  {
    if Reload.Verbatim(h) {
      Reload.RecordedAsTyped(m, ws, h, argv, env);
    } else {
      StrictRunsIff(m, ws, h, argv);
      NumberIff(m, env, ws, h, argv);
    }
  }

  /** A command that runs strictly and is taken by its handler records the typed words exactly when it is a recording
      one and its number, if it has one, is written as it is printed. */
  lemma RecordsTypedIff(m: Matchers, env: Env, ws: seq<string>, h: Handler, argv: seq<string>)
    requires env.file && AreWords(ws) && Execute(Strict, m, Shell.Node(), ws) == Outcome.Run(h, argv) && Fits(h, |argv|) && Plan(h, argv, env).Some?
    ensures EndsWithAdd(Plan(h, argv, env).value, Line(ws)) <==> Recording(h) && Canonical(h, argv)
  {
    if EndsWithAdd(Plan(h, argv, env).value, Line(ws)) { OnlyRecordingAdds(h, argv, env, Line(ws)); }
    if Recording(h) { RecordsTyped(m, env, ws, h, argv); }
  }

  /** A line of the configuration records itself when it is read exactly when it is a full line of a recording command:
      complete keywords and choices, complete addresses, no keyword of another command at a variable, numbers as they
      are printed, and arguments the handler takes. */
  lemma ReRecordsIff(m: Matchers, env: Env, l: string)
    requires Good(l) && '"' !in l && env.file
    ensures ReRecords(m, env, l) <==> exists h :: Written(h, Words(l), env)
  {
    var ws := Words(l);
    ReadsWords(m, l);
    var r := Execute(Strict, m, Shell.Node(), ws);
    if ReRecords(m, env, l) {
      RecordsTypedIff(m, env, ws, r.id, r.argv);
      StrictRunsIff(m, ws, r.id, r.argv);
      assert Written(r.id, ws, env);
    }
    if h :| Written(h, ws, env) {
      StrictRunsIff(m, ws, h, Args(Template(h), ws));
      RecordsTypedIff(m, env, ws, h, Args(Template(h), ws));
    }
  }

  /** Saving and loading gives the configuration back exactly when every line is such a line. */
  lemma ReloadsExactlyWhenWritten(m: Matchers, env: Env, top: seq<string>, stamp: string)
    requires Inv(top) && env.file && '\n' !in stamp && |stamp| < 200
    requires forall l :: l in top ==> '"' !in l && |l| < 511
    ensures Load(m, env, [], Dump(top, stamp)) == top <==> forall l :: l in top ==> exists h :: Written(h, Words(l), env)
  {
    ReloadExact.ReloadsExactlyWhen(m, env, top, stamp);
    forall l | l in top ensures ReRecords(m, env, l) <==> exists h :: Written(h, Words(l), env) { ReRecordsIff(m, env, l); }
  }
}
