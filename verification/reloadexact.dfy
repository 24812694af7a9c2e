/** The exact condition under which a saved configuration loads back: every line records itself. */
module ReloadExact {
  import opened CText
  import opened ListSpec
  import opened ConfigStore
  import opened Handlers
  import opened Matching
  import opened Commands
  import opened Keys
  import opened Runs
  import opened ShellRuns
  import opened Replay
  import opened ConfigFile
  import opened Reload
  import Shell
  import Tokenizer
  import Ipv4

  // ---- Counting lines ----

  /** At most one line is added, and by the last operation. */
  predicate AddsLast(ops: seq<Op>) { forall i :: 0 <= i < |ops| - 1 ==> !ops[i].Add? }

  lemma {:induction false} DeletesShrink(top: seq<string>, ops: seq<Op>)
    requires forall i :: 0 <= i < |ops| ==> !ops[i].Add?
    ensures |Apply(top, ops)| <= |top| && (|Apply(top, ops)| == |top| ==> Apply(top, ops) == top)
  {
    if |ops| > 0 {
      DeletesShrink(top, ops[..|ops| - 1]);
    }
  }

  /** A plan that makes the list longer deletes nothing and adds one line. */
  lemma PlanGrows(top: seq<string>, ops: seq<Op>)
    requires AddsLast(ops)
    ensures |Apply(top, ops)| <= |top| + 1
    ensures |Apply(top, ops)| == |top| + 1 ==>
      |ops| > 0 && ops[|ops| - 1].Add? && ops[|ops| - 1].line in Apply(top, ops) && forall x :: x in top ==> x in Apply(top, ops)
  {
    if |ops| > 0 && ops[|ops| - 1].Add? {
      DeletesShrink(top, ops[..|ops| - 1]);
    } else {
      DeletesShrink(top, ops);
    }
  }

  lemma PlansAddLast(h: Handler, argv: seq<string>, env: Env)
    requires env.file && Fits(h, |argv|) && Plan(h, argv, env).Some?
    ensures AddsLast(Plan(h, argv, env).value)
  {
  }

  // ---- Reading a line back keeps its key ----

  lemma GoodTokens(l: string)
    requires Good(l) && '"' !in l
    ensures Tokenizer.Tokens(l + "\n") == Some(Words(l))
  {
    assert FirstLetter(Words(l)[0]);
    Tokenizer.TokensOfLine(Words(l), "\n");
  }

  lemma OneDigit(w: string)
    requires |w| == 1 && 1 <= Atoi(w) <= 9
    ensures Show(Atoi(w)) == w
  {
    assert w[1..] == "";
    assert "-"[1..] == "" && Ipv4.DigitRun("") == 0;
    assert IsDigit(w[0]);
    Ipv4.DigitRunUnique(w, 1);
    assert w[..1] == w && w[..0] == "";
    var n := w[0] as int - '0' as int;
    assert Ipv4.Decimal(w) == n;
    assert Atoi(w) == n;
    assert Digits(n) == [w[0]] == w;
  }

  /** The handlers that record something, read from a recorded line, record under the key of that line. */
  lemma ReadsUnderItsKey(m: Matchers, env: Env, l: string, x: string)
    requires Good(l) && '"' !in l && env.file && ReadsAs(m, env, l, x)
    ensures Good(x) && KeyOfLine(x) == KeyOfLine(l)
  {
    var r := OutcomeOf(m, Strict, l + "\n");
    var ops := Plan(r.id, r.argv, env).value;
    GoodTokens(l);
    assert ops[|ops| - 1] in ops;
    DeletionsAddNothing(r.id, r.argv, env, x);
    if Verbatim(r.id) {
      RecordedAsTyped(m, Words(l), r.id, r.argv, env);
    } else if r.id == WgListenport {
      ListenportKey(m, l, r.argv, x);
    } else {
      BridgeKeeps(m, l, r.argv, x);
    }
  }

  lemma ListenportGood(n: int)
    ensures var x := Line(["wg", "listenport", Show(n)]); Good(x) && KeyOfLine(x) == PortKey
  {
    CleanWgKeywords();
    CleanJoin(["wg", "listenport"], [Show(n)]);
    assert ["wg", "listenport"] + [Show(n)] == ["wg", "listenport", Show(n)];
    GoodLine(["wg", "listenport", Show(n)]);
  }

  lemma ListenportWords(m: Matchers, ws: seq<string>, argv: seq<string>)
    requires Execute(Strict, m, Shell.Node(), ws) == Outcome.Run(WgListenport, argv)
    ensures |ws| >= 2 && ws[0] == "wg" && ws[1] == "listenport"
  {
    StrictKeywords(m, ws, WgListenport, argv);
    Shell.RunArgs(Strict, m, ws, WgListenport, argv);
    var t := Template(WgListenport);
    assert t[0] == ["wg"] && t[1] == ["listenport"];
  }

  lemma ListenportKey(m: Matchers, l: string, argv: seq<string>, x: string)
    requires Good(l) && Execute(Strict, m, Shell.Node(), Words(l)) == Outcome.Run(WgListenport, argv)
    requires |argv| == 1 && x == Line(["wg", "listenport", Show(Atoi(argv[0]))])
    ensures Good(x) && KeyOfLine(x) == KeyOfLine(l)
  {
    ListenportWords(m, Words(l), argv);
    ListenportGood(Atoi(argv[0]));
  }

  lemma BridgeWords(m: Matchers, ws: seq<string>, argv: seq<string>)
    requires Execute(Strict, m, Shell.Node(), ws) == Outcome.Run(BridgeAdd, argv) && |argv| == 3
    ensures ws == ["bridge", argv[0], argv[1], argv[2]]
  {
    StrictKeywords(m, ws, BridgeAdd, argv);
    Shell.RunArgs(Strict, m, ws, BridgeAdd, argv);
    assert Template(BridgeAdd)[0] == ["bridge"];
  }

  lemma BridgeKeeps(m: Matchers, l: string, argv: seq<string>, x: string)
    requires Good(l) && Execute(Strict, m, Shell.Node(), Words(l)) == Outcome.Run(BridgeAdd, argv)
    requires |argv| == 3 && 1 <= Atoi(argv[0]) <= 9 && x == Line(["bridge", Show(Atoi(argv[0])), argv[1], argv[2]])
    ensures x == l
  {
    BridgeWords(m, Words(l), argv);
    OneDigit(argv[0]);
  }

  // ---- Loading the whole file ----

  ghost predicate ReadInto(m: Matchers, env: Env, l: string, r: seq<string>) {
    exists x :: x in r && ReadsAs(m, env, l, x)
  }

  lemma ReadIntoMore(m: Matchers, env: Env, l: string, mid: seq<string>, r: seq<string>)
    requires ReadInto(m, env, l, mid) && forall x :: x in mid ==> x in r
    ensures ReadInto(m, env, l, r)
  {
  }

  /** One line of the file adds at most one line to the list, and then loses none. */
  lemma LineGrows(m: Matchers, env: Env, top: seq<string>, l: string)
    requires env.file && Good(l)
    ensures var r := LoadLine(m, env, top, l + "\n");
            && |r| <= |top| + 1
            && (|r| == |top| + 1 ==> (forall x :: x in top ==> x in r) && ReadInto(m, env, l, r))
  {
    GoodChars(l);
    LoadLineIsStep(m, env, top, l + "\n");
    var r := OutcomeOf(m, Strict, l + "\n");
    OutcomeFits(m, Strict, l + "\n");
    if r.Run? && Plan(r.id, r.argv, env).Some? {
      var ops := Plan(r.id, r.argv, env).value;
      PlansAddLast(r.id, r.argv, env);
      PlanGrows(top, ops);
      if |Apply(top, ops)| == |top| + 1 {
        assert ReadsAs(m, env, l, ops[|ops| - 1].line);
      }
    }
  }

  ghost predicate Grew(m: Matchers, env: Env, top: seq<string>, from: seq<string>, k: nat, r: seq<string>)
    requires k <= |top|
  {
    && (forall x :: x in from ==> x in r)
    && forall j :: k <= j < |top| ==> ReadInto(m, env, top[j], r)
  }

  ghost function LoadTail(m: Matchers, env: Env, top: seq<string>, from: seq<string>, k: nat): seq<string>
    requires k <= |top|
  {
    Load(m, env, from, LinesText(top[k..]) + "!\n")
  }

  lemma LoadTailEnd(m: Matchers, env: Env, top: seq<string>, from: seq<string>)
    ensures LoadTail(m, env, top, from, |top|) == from
  {
    TextFrom(top, |top|);
    LoadEnd(m, env, from);
  }

  lemma LoadTailNext(m: Matchers, env: Env, top: seq<string>, from: seq<string>, k: nat)
    requires k < |top| && Good(top[k]) && |top[k]| < VTY_BUFSIZ - 1
    ensures LoadTail(m, env, top, from, k) == LoadTail(m, env, top, LoadLine(m, env, from, top[k] + "\n"), k + 1)
  {
    TextFrom(top, k);
    GoodChars(top[k]);
    LoadOne(m, env, from, top[k], LinesText(top[k + 1..]) + "!\n");
  }

  lemma GrewMore(m: Matchers, env: Env, top: seq<string>, from: seq<string>, mid: seq<string>, k: nat, r: seq<string>)
    requires k < |top| && Grew(m, env, top, mid, k + 1, r)
    requires (forall x :: x in from ==> x in mid) && ReadInto(m, env, top[k], mid)
    ensures Grew(m, env, top, from, k, r)
  {
    ReadIntoMore(m, env, top[k], mid, r);
  }

  ghost predicate GrowsTo(m: Matchers, env: Env, top: seq<string>, from: seq<string>, k: nat, r: seq<string>)
    requires k <= |top|
  {
    |r| <= |from| + |top| - k && (|r| == |from| + |top| - k ==> Grew(m, env, top, from, k, r))
  }

  lemma GrowsMore(m: Matchers, env: Env, top: seq<string>, from: seq<string>, k: nat, r: seq<string>)
    requires env.file && k < |top| && Good(top[k]) && GrowsTo(m, env, top, LoadLine(m, env, from, top[k] + "\n"), k + 1, r)
    ensures GrowsTo(m, env, top, from, k, r)
  {
    var mid := LoadLine(m, env, from, top[k] + "\n");
    LineGrows(m, env, from, top[k]);
    if |r| == |from| + |top| - k { GrewMore(m, env, top, from, mid, k, r); }
  }

  lemma {:induction false} LoadGrows(m: Matchers, env: Env, top: seq<string>, from: seq<string>, k: nat)
    requires env.file && k <= |top| && forall i :: 0 <= i < |top| ==> Good(top[i]) && |top[i]| < VTY_BUFSIZ - 1
    ensures GrowsTo(m, env, top, from, k, LoadTail(m, env, top, from, k))
    decreases |top| - k
  {
    if k == |top| {
      LoadTailEnd(m, env, top, from);
    } else {
      LoadTailNext(m, env, top, from, k);
      LoadGrows(m, env, top, LoadLine(m, env, from, top[k] + "\n"), k + 1);
      GrowsMore(m, env, top, from, k, LoadTail(m, env, top, from, k));
    }
  }

  lemma LoadDump(m: Matchers, env: Env, top: seq<string>, stamp: string)
    requires '\n' !in stamp && |stamp| < 200
    ensures Load(m, env, [], Dump(top, stamp)) == LoadTail(m, env, top, [], 0)
  {
    HeadLine(stamp);
    LoadOne(m, env, [], "#Writed on " + stamp, LinesText(top) + "!\n");
    assert top[0..] == top;
  }

  /** Saving and loading gives the list back exactly when every one of its lines, read strictly, records itself. */
  lemma ReloadsExactlyWhen(m: Matchers, env: Env, top: seq<string>, stamp: string)
    requires Inv(top) && env.file && '\n' !in stamp && |stamp| < 200
    requires forall l :: l in top ==> '"' !in l && |l| < VTY_BUFSIZ - 1
    ensures Load(m, env, [], Dump(top, stamp)) == top <==> forall l :: l in top ==> ReRecords(m, env, l)
  {
    if forall l :: l in top ==> ReRecords(m, env, l) {
      SaveLoad(m, env, top, stamp);
    }
    if Load(m, env, [], Dump(top, stamp)) == top {
      LoadDump(m, env, top, stamp);
      forall i | 0 <= i < |top| ensures Good(top[i]) && |top[i]| < VTY_BUFSIZ - 1 { assert top[i] in top; }
      LoadGrows(m, env, top, [], 0);
      forall l | l in top ensures ReRecords(m, env, l) { ReadItself(m, env, top, l); }
    }
  }

  lemma ReadItself(m: Matchers, env: Env, top: seq<string>, l: string)
    requires Inv(top) && env.file && l in top && '"' !in l && Grew(m, env, top, [], 0, top)
    ensures ReRecords(m, env, l)
  {
    var j :| 0 <= j < |top| && top[j] == l;
    assert ReadInto(m, env, top[j], top);
    ReadsOnlyItself(m, env, top, l);
  }

  lemma ReadsOnlyItself(m: Matchers, env: Env, top: seq<string>, l: string)
    requires Inv(top) && env.file && l in top && '"' !in l && ReadInto(m, env, l, top)
    ensures ReadsAs(m, env, l, l)
  {
    var x :| x in top && ReadsAs(m, env, l, x);
    ReadsUnderItsKey(m, env, l, x);
  }

}
