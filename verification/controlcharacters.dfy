/** Control characters in interface names: exactly when the prefix delete hits the line it means, and a session in which
    it does not. */
module ControlCharacters {
  import opened CText
  import opened ListSpec
  import opened ConfigStore
  import opened Matching
  import opened Commands
  import opened ShellRuns
  import Runs
  import Keys
  import Selection
  import Tokenizer
  import Handlers
  import Ipv4

  lemma BelowSpace(x: string, n: string, left: string)
    requires left <= x && left + " " <= n
    ensures |x| > |left| && x[|left|] > ' ' ==> Less(n, x)
    ensures (|x| == |left| || x[|left|] < ' ') ==> Less(x, n)
    ensures |x| > |left| && x[|left|] == ' ' ==> left + " " <= x
  {
    var k := |left|;
    assert x == left + x[k..] && n == left + n[k..];
    assert n[k] == (left + " ")[k] == ' ';
    LessCommonPrefix(left, x[k..], n[k..]);
    LessCommonPrefix(left, n[k..], x[k..]);
  }

  lemma FirstIsFound(top: seq<string>, left: string, n: string)
    requires StrictlyIncreasing(top) && n in top && left <= n
    ensures n !in DelLeft(top, left) <==> forall x :: x in top && left <= x ==> x == n || Less(n, x)
  {
    var p := (l: string) => left <= l;
    var k := Find(top, p);
    RemoveFirstKeeps(top, p);
    var i :| 0 <= i < |top| && top[i] == n;
    assert p(top[i]) && k <= i && p(top[k]);
    if k == i {
      forall x | x in top && left <= x ensures x == n || Less(n, x) {
        var j :| 0 <= j < |top| && top[j] == x;
        assert p(top[j]);
      }
    } else {
      assert Less(top[k], n);
      NotBoth(top[k], n);
      assert top[k] in top;
    }
  }

  lemma NotBoth(a: string, b: string)
    requires Less(a, b)
    ensures a != b && !Less(b, a)
  {
    LessIrreflexive(a);
    if Less(b, a) { LessTransitive(a, b, a); }
  }

  /** The prefix delete takes away the one line of the interface exactly when every line with that prefix goes on with a
      character not below the space. */
  lemma PrefixDeleteHitsIff(top: seq<string>, left: string, n: string)
    requires StrictlyIncreasing(top) && n in top && left + " " <= n
    requires forall x :: x in top && left + " " <= x ==> x == n
    ensures n !in DelLeft(top, left) <==> forall x :: x in top && left <= x ==> |x| > |left| && x[|left|] >= ' '
  {
    assert left <= left + " " <= n;
    FirstIsFound(top, left, n);
    forall x | x in top && left <= x
      ensures (x == n || Less(n, x)) <==> |x| > |left| && x[|left|] >= ' '
    {
      BelowSpace(x, n, left);
      if Less(x, n) { NotBoth(x, n); }
      assert n[|left|] == (left + " ")[|left|];
    }
  }

  /** ip address as typed: it replaces whatever is found under the prefix. */
  lemma AddressStep(m: Matchers, mode: Mode, env: Env, top: seq<string>, name: string, a: string, b: string)
    requires IsWord(name) && IsWord(a) && IsWord(b) && Supported(name)
    requires AddressOk(mode, Ipv4.Match(a)) && AddressOk(mode, Ipv4.Match(b))
    requires '"' !in Line(["ip", "address", name, a, b])
    ensures var line := Line(["ip", "address", name, a, b]);
            Step(m, top, Input(mode, line, env)) == Apply(top, Replace(Line(["ip", "address", name]), line))
  {
    var ws := ["ip", "address", name, a, b];
    AddressTokens(ws);
    Selection.IpAddressRuns(mode, m, name, a, b);
    StepOfRun(m, top, Input(mode, Line(ws), env), Handlers.IpAddress, [name, a, b]);
    AddressEffect(top, env, name, a, b);
  }

  lemma AddressTokens(ws: seq<string>)
    requires AreWords(ws) && |ws| > 0 && ws[0] == "ip" && '"' !in Line(ws)
    ensures Tokenizer.Tokens(Line(ws)) == Some(ws)
  {
    Tokenizer.TokensOfLine(ws, "");
    assert Line(ws) + "" == Line(ws);
  }

  lemma StepOfRun(m: Matchers, top: seq<string>, i: Input, h: Handlers.Handler, argv: seq<string>)
    requires OutcomeOf(m, i.mode, i.line) == Outcome.Run(h, argv) && Fits(h, |argv|)
    ensures Step(m, top, i) == Effect(top, h, argv, i.env)
  {
  }

  lemma AddressEffect(top: seq<string>, env: Env, name: string, a: string, b: string)
    requires Supported(name)
    ensures Effect(top, Handlers.IpAddress, [name, a, b], env)
            == Apply(top, Replace(Line(["ip", "address", name]), Line(["ip", "address", name, a, b])))
  {
    assert ["ip", "address"] + [name, a, b] == ["ip", "address", name, a, b];
  }

  // ---- Three typed lines ----

  /** Deleting by a prefix the first of two lines has, then adding. */
  lemma DeletesFirstOfTwo(a: string, b: string, left: string, line: string)
    requires left <= a
    ensures b in Apply([a, b], Replace(left, line)) && line in Apply([a, b], Replace(left, line))
  {
    FindUnique([a, b], l => left <= l, 0);
    assert DelLeft([a, b], left) == [b];
    Runs.ApplyTwo([a, b], DelPrefix(left), Add(line));
    var k := InsertPos([b], line, Less);
    var r := AddLine([b], line);
    assert r[k] == line && r[1 - k] == b;
  }

  function AddressText(name: string, a: string, mask: string): string { Line(["ip", "address", name, a, mask]) }

  /** A line for the name goes on with a space behind its prefix. */
  lemma TextSplits(name: string, a: string, mask: string)
    ensures Line(["ip", "address", name]) + " " <= AddressText(name, a, mask)
  {
    LineSplit(["ip", "address", name], [a, mask]);
    assert ["ip", "address", name] + [a, mask] == ["ip", "address", name, a, mask];
  }

  lemma LongerPrefix(name: string, c: char)
    ensures Line(["ip", "address", name + [c]]) == Line(["ip", "address", name]) + [c]
  {
    Keys.AddressLine(name);
    Keys.AddressLine(name + [c]);
  }

  /** Adding to the empty list, and a smaller line to a list of one. */
  lemma FirstTwo(l1: string, l2: string, left: string, left': string)
    requires !(left' <= l1) && Less(l2, l1)
    ensures Apply([], Replace(left, l1)) == [l1] && Apply([l1], Replace(left', l2)) == [l2, l1]
  {
    Runs.ApplyTwo([], DelPrefix(left), Add(l1));
    Runs.ApplyTwo([l1], DelPrefix(left'), Add(l2));
    FindUnique([l1], l => left' <= l, 1);
    InsertPosUnique([l1], l2, Less, 0);
    assert DelLeft([], left) == [] && DelLeft([l1], left') == [l1];
  }

  lemma RunThree(m: Matchers, a: Input, b: Input, c: Input)
    ensures ShellRuns.Run(m, [], [a, b, c]) == Step(m, Step(m, Step(m, [], a), b), c)
  {
    assert [a, b, c][..2] == [a, b] && [a, b][..1] == [a] && [a][..0] == [];
    assert ShellRuns.Run(m, [], [a]) == Step(m, ShellRuns.Run(m, [], []), a);
    assert ShellRuns.Run(m, [], [a, b]) == Step(m, ShellRuns.Run(m, [], [a]), b);
  }

  /** The three plans on the empty list. */
  lemma ThreeReplacements(name: string, c: char, a: string, b: string, d: string, mask: string)
    requires c < ' '
    ensures var l1, l2, l3 := AddressText(name, a, mask), AddressText(name + [c], b, mask), AddressText(name, d, mask);
            var left, left' := Line(["ip", "address", name]), Line(["ip", "address", name + [c]]);
            var end := Apply(Apply(Apply([], Replace(left, l1)), Replace(left', l2)), Replace(left, l3));
            l1 in end && l3 in end
  {
    var l1, l2, l3 := AddressText(name, a, mask), AddressText(name + [c], b, mask), AddressText(name, d, mask);
    var left, left' := Line(["ip", "address", name]), Line(["ip", "address", name + [c]]);
    TextSplits(name, a, mask);
    TextSplits(name + [c], b, mask);
    LongerPrefix(name, c);
    assert left <= left' <= l2 && l2[|left|] == left'[|left|] == c;
    assert l1[|left|] == (left + " ")[|left|] == ' ';
    BelowSpace(l2, l1, left);
    FirstTwo(l1, l2, left, left');
    DeletesFirstOfTwo(l2, l1, left, l3);
  }

  predicate AddressWords(name: string, a: string, mask: string) {
    && IsWord(name) && IsWord(a) && IsWord(mask) && Ipv4.Match(a).Exact? && Ipv4.Match(mask).Exact? && Supported(name)
    && '"' !in AddressText(name, a, mask)
  }

  /** A session of three lines that configures an interface, then one whose name goes on with a control character below
      the space, then the first again: the delete takes the wrong line and the first interface is left with two. */
  lemma ControlCharacterBreaksUniqueness(m: Matchers, mode: Mode, env: Env, name: string, c: char, a: string, b: string, d: string, mask: string)
    requires c < ' ' && a != d
    requires AddressWords(name, a, mask) && AddressWords(name + [c], b, mask) && AddressWords(name, d, mask)
    ensures var lines := [AddressText(name, a, mask), AddressText(name + [c], b, mask), AddressText(name, d, mask)];
            var end := ShellRuns.Run(m, [], [Input(mode, lines[0], env), Input(mode, lines[1], env), Input(mode, lines[2], env)]);
            lines[0] in end && lines[2] in end && lines[0] != lines[2]
  {
    var l1, l2, l3 := AddressText(name, a, mask), AddressText(name + [c], b, mask), AddressText(name, d, mask);
    RunThree(m, Input(mode, l1, env), Input(mode, l2, env), Input(mode, l3, env));
    AddressStep(m, mode, env, [], name, a, mask);
    var s1 := Step(m, [], Input(mode, l1, env));
    AddressStep(m, mode, env, s1, name + [c], b, mask);
    var s2 := Step(m, s1, Input(mode, l2, env));
    AddressStep(m, mode, env, s2, name, d, mask);
    ThreeReplacements(name, c, a, b, d, mask);
    DifferentTexts(name, a, d, mask);
  }

  lemma DifferentTexts(name: string, a: string, d: string, mask: string)
    requires IsWord(name) && IsWord(a) && IsWord(d) && IsWord(mask) && a != d
    ensures AddressText(name, a, mask) != AddressText(name, d, mask)
  {
    var x, y := ["ip", "address", name, a, mask], ["ip", "address", name, d, mask];
    assert x[3] != y[3];
    if Line(x) == Line(y) { LineInjective(x, y); }
  }
}
