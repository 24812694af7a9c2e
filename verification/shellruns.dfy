/** Whole sessions: typed lines, one after another, in the configuration node. */
module ShellRuns {
  import opened CText
  import opened ListSpec
  import opened ConfigStore
  import opened Handlers
  import opened Matching
  import opened Commands
  import opened Keys
  import opened Runs
  import Shell
  import Tokenizer
  import Executor
  import CommandOrder
  import LinkList

  /** A typed line, the executor that reads it, and what the outside world answers. */
  datatype Input = Input(mode: Mode, line: string, env: Env)

  /** What a handler makes of its arguments. */
  function Effect(top: seq<string>, h: Handler, argv: seq<string>, env: Env): seq<string>
    requires Fits(h, |argv|)
  {
    var plan := Plan(h, argv, env);
    if plan.Some? then Apply(top, plan.value) else top
  }

  ghost function OutcomeOf(m: Matchers, mode: Mode, line: string): Outcome {
    var words := Tokenizer.Tokens(line);
    if words.None? then Refused(ErrNoMatch) else Execute(mode, m, Shell.Node(), words.value)
  }

  lemma OutcomeFits(m: Matchers, mode: Mode, line: string)
    ensures var r := OutcomeOf(m, mode, line); r.Run? ==> Fits(r.id, |r.argv|)
  {
    var words := Tokenizer.Tokens(line);
    var r := OutcomeOf(m, mode, line);
    if r.Run? {
      Shell.RunArgs(mode, m, words.value, r.id, r.argv);
    }
  }

  /** config_top after one line. */
  ghost function Step(m: Matchers, top: seq<string>, i: Input): seq<string> {
    var r := OutcomeOf(m, i.mode, i.line);
    OutcomeFits(m, i.mode, i.line);
    if r.Run? then Effect(top, r.id, r.argv, i.env) else top
  }

  /** A command is found and its handler takes the arguments. */
  ghost predicate Accepts(m: Matchers, i: Input) {
    var r := OutcomeOf(m, i.mode, i.line);
    r.Run? && Fits(r.id, |r.argv|) && Plan(r.id, r.argv, i.env).Some?
  }

  ghost function Run(m: Matchers, top: seq<string>, inputs: seq<Input>): seq<string> {
    if |inputs| == 0 then top else Step(m, Run(m, top, inputs[..|inputs| - 1]), inputs[|inputs| - 1])
  }

  /** vtysh_execute_func and the strict call of the loader, from the line to the linked list. The vector may be in
      any order: it is sorted after installation. */
  method ExecuteLine(m: Matchers, node: array<Option<Element>>, config: LinkList.List, i: Input) returns (accepted: bool)
    requires config.Valid() && config.cmp == Some(Less)
    requires Executor.WellFormedVector(Executor.Alive(node[..])) && CommandOrder.Reordered(Shell.Node(), Executor.Alive(node[..]))
    modifies config, config.repr
    ensures config.Valid() && fresh(config.repr - old(config.repr))
    ensures config.contents == Step(m, old(config.contents), i)
    ensures accepted == Accepts(m, i)
  {
    OutcomeFits(m, i.mode, i.line);
    var words := Tokenizer.MakeStrvec(i.line);
    if words.None? {
      return false;
    }
    CommandOrder.OutcomeIndependentOfOrder(i.mode, m, Shell.Node(), Executor.Alive(node[..]), words.value);
    var r := Executor.ExecuteCommand(i.mode, m, node, words.value);
    if r.Refused? {
      return false;
    }
    accepted := Handle(config, r.id, r.argv, i.env);
  }

  /** A line with a quoted stretch of words has the effect of the line with the stretch joined by hyphens. */
  lemma QuotedLikeHyphenated(mode: Mode, m: Matchers, env: Env, top: seq<string>, pre: seq<string>, ws: seq<string>, post: seq<string>)
    requires AreWords(pre) && |pre| > 0 && AreWords(ws) && |ws| > 0 && AreWords(post)
    requires '"' !in Line(pre) && '"' !in Line(ws) && pre[0][0] != '!' && pre[0][0] != '#'
    requires '"' !in Line(pre + ([Tokenizer.Hyphens(ws)] + post))
    ensures Step(m, top, Input(mode, Tokenizer.Quoted(pre, ws, post), env))
            == Step(m, top, Input(mode, Line(pre + ([Tokenizer.Hyphens(ws)] + post)), env))
  {
    var words := pre + ([Tokenizer.Hyphens(ws)] + post);
    Tokenizer.QuotedIsOneWord(pre, ws, post);
    Tokenizer.HyphensIsWord(ws);
    Tokenizer.TokensOfLine(words, "");
    assert Line(words) + "" == Line(words);
  }

  // ---- Every reachable configuration ----

  /** Printable characters and white space, and no percent sign: lines are used as format strings. */
  predicate CleanLine(line: string) {
    forall c :: c in line ==> (c >= ' ' || IsSpace(c)) && c != '%'
  }

  /** Tokens of a line without control characters, its newline aside, are printable. */
  lemma PrintableTokens(line: string, words: seq<string>)
    requires (forall c :: c in line ==> c >= ' ' || IsSpace(c)) && Tokenizer.Tokens(line) == Some(words)
    ensures CleanWords(words)
  {
    var s := Tokenizer.Unquote(line);
    assert forall c :: c in s ==> c >= ' ' || IsSpace(c);
    var i := Tokenizer.SpaceEnd(s, 0);
    Tokenizer.WordsFromAreWords(s, i);
    forall k, j | 0 <= k < |words| && 0 <= j < |words[k]| ensures words[k][j] > ' ' {
      assert words[k][j] in s;
      assert IsWord(words[k]) && !IsSpace(words[k][j]);
    }
  }

  lemma {:induction false} CleanArgs(t: seq<seq<string>>, words: seq<string>)
    requires CleanWords(words)
    ensures CleanWords(Args(t, words))
  {
    if |words| > 0 {
      CleanArgs(t, words[..|words| - 1]);
    }
  }

  lemma StepKeepsInv(m: Matchers, top: seq<string>, i: Input)
    requires Inv(top) && CleanLine(i.line)
    ensures Inv(Step(m, top, i))
  {
    var r := OutcomeOf(m, i.mode, i.line);
    OutcomeFits(m, i.mode, i.line);
    if r.Run? {
      var words := Tokenizer.Tokens(i.line).value;
      PrintableTokens(i.line, words);
      Shell.RunFacts(i.mode, m, words, r.id, r.argv);
      CleanArgs(Template(r.id), words);
      if Plan(r.id, r.argv, i.env).Some? {
        PlanKeepsInv(top, r.id, r.argv, i.env);
      }
    }
  }

  /** In every reachable state config_top is strictly increasing under strcmp and holds at most one line per key. */
  lemma {:induction false} EveryRunKeepsInv(m: Matchers, top: seq<string>, inputs: seq<Input>)
    requires Inv(top) && forall k :: 0 <= k < |inputs| ==> CleanLine(inputs[k].line)
    ensures Inv(Run(m, top, inputs))
  {
    if |inputs| > 0 {
      EveryRunKeepsInv(m, top, inputs[..|inputs| - 1]);
      StepKeepsInv(m, Run(m, top, inputs[..|inputs| - 1]), inputs[|inputs| - 1]);
    }
  }
}
