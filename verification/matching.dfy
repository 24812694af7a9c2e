/** The command matcher of command.c: how a typed word meets a template word, and how the
    executors narrow the command vector of a node word by word. */
module Matching {
  import opened CText
  import opened Sequences
  import opened Handlers
  import Ipv4

  // enum match_type
  type MatchType = n: nat | n <= 9
  const NO_MATCH: MatchType := 0
  const EXTEND_MATCH: MatchType := 1
  const IPV4_PREFIX_MATCH: MatchType := 2
  const IPV4_MATCH: MatchType := 3
  const IPV6_MATCH: MatchType := 5
  const RANGE_MATCH: MatchType := 6
  const VARARG_MATCH: MatchType := 7
  const PARTLY_MATCH: MatchType := 8
  const EXACT_MATCH: MatchType := 9

  const CMD_ARGC_MAX := 25

  /** One template position is the list of its alternatives; id names the handler function. */
  datatype Element = Element(id: Handler, strvec: seq<seq<string>>)

  /** The matchers that no installed template uses; every result below holds for any choice of them. */
  datatype Matchers = Matchers(range: (string, string) -> bool, ipv6: string -> bool, ipv4Prefix: string -> Ipv4.Verdict)

  datatype Mode = Completing | Strict

  predicate IsOption(s: string) { |s| > 0 && s[0] == '[' }
  predicate IsVariable(s: string) { |s| > 0 && ('A' <= s[0] <= 'Z' || s[0] == '<') }
  predicate IsVararg(s: string) { |s| > 0 && s[0] == '.' }
  predicate IsRange(s: string) { |s| > 0 && s[0] == '<' }
  predicate IsIpv4(s: string) { s == "A.B.C.D" }
  predicate IsIpv4Prefix(s: string) { s == "A.B.C.D/M" }
  predicate IsIpv6(s: string) { s == "X:X::X:X" }
  predicate IsIpv6Prefix(s: string) { s == "X:X::X:X/M" }

  /** A keyword: a template word that is typed as it stands. */
  predicate IsLiteral(s: string) { !IsOption(s) && !IsVariable(s) && !IsVararg(s) }

  predicate AddressOk(mode: Mode, v: Ipv4.Verdict) {
    if mode.Strict? then v.Exact? else !v.No?
  }

  /** What one alternative contributes in cmd_filter_by_completion and cmd_filter_by_string. */
  function DescMatch(mode: Mode, m: Matchers, str: string, word: string): MatchType {
    if IsVararg(str) then VARARG_MATCH
    else if IsRange(str) then (if m.range(str, word) then RANGE_MATCH else NO_MATCH)
    else if IsIpv6(str) then (if m.ipv6(word) then IPV6_MATCH else NO_MATCH)
    else if IsIpv6Prefix(str) then NO_MATCH
    else if IsIpv4(str) then (if AddressOk(mode, Ipv4.Match(word)) then IPV4_MATCH else NO_MATCH)
    else if IsIpv4Prefix(str) then (if AddressOk(mode, m.ipv4Prefix(word)) then IPV4_PREFIX_MATCH else NO_MATCH)
    else if IsOption(str) || IsVariable(str) then EXTEND_MATCH
    else if word == str then EXACT_MATCH
    else if mode.Completing? && word <= str then PARTLY_MATCH
    else NO_MATCH
  }

  function Max(a: MatchType, b: MatchType): MatchType { if a < b then b else a }

  /** The best contribution of a position's alternatives. */
  function PositionMatch(mode: Mode, m: Matchers, descs: seq<string>, word: string): MatchType {
    if |descs| == 0 then NO_MATCH
    else Max(PositionMatch(mode, m, descs[..|descs| - 1], word), DescMatch(mode, m, descs[|descs| - 1], word))
  }

  lemma {:induction false} PositionMatchUpper(mode: Mode, m: Matchers, descs: seq<string>, word: string, s: string)
    requires s in descs
    ensures DescMatch(mode, m, s, word) <= PositionMatch(mode, m, descs, word)
  {
    var k := |descs| - 1;
    if s != descs[k] {
      assert descs == descs[..k] + [descs[k]];
      PositionMatchUpper(mode, m, descs[..k], word, s);
    }
  }

  lemma {:induction false} PositionMatchAttained(mode: Mode, m: Matchers, descs: seq<string>, word: string) returns (s: string)
    requires PositionMatch(mode, m, descs, word) != NO_MATCH
    ensures s in descs && DescMatch(mode, m, s, word) == PositionMatch(mode, m, descs, word)
  {
    var k := |descs| - 1;
    s := descs[k];
    if DescMatch(mode, m, s, word) != PositionMatch(mode, m, descs, word) {
      s := PositionMatchAttained(mode, m, descs[..k], word);
    }
  }

  function ElementMatch(mode: Mode, m: Matchers, c: Element, word: string, index: nat): MatchType {
    if index < |c.strvec| then PositionMatch(mode, m, c.strvec[index], word) else NO_MATCH
  }

  /** The match_type the filter returns: the best contribution over all commands. */
  function FilterType(mode: Mode, m: Matchers, cmds: seq<Element>, word: string, index: nat): MatchType {
    if |cmds| == 0 then NO_MATCH
    else
      var k := |cmds| - 1;
      Max(FilterType(mode, m, cmds[..k], word, index), ElementMatch(mode, m, cmds[k], word, index))
  }

  lemma {:induction false} FilterTypeUpper(mode: Mode, m: Matchers, cmds: seq<Element>, word: string, index: nat, c: Element)
    requires c in cmds
    ensures ElementMatch(mode, m, c, word, index) <= FilterType(mode, m, cmds, word, index)
  {
    var k := |cmds| - 1;
    if c != cmds[k] {
      assert cmds == cmds[..k] + [cmds[k]];
      FilterTypeUpper(mode, m, cmds[..k], word, index, c);
    }
  }

  lemma {:induction false} FilterTypeAttained(mode: Mode, m: Matchers, cmds: seq<Element>, word: string, index: nat) returns (c: Element)
    requires FilterType(mode, m, cmds, word, index) != NO_MATCH
    ensures c in cmds && ElementMatch(mode, m, c, word, index) == FilterType(mode, m, cmds, word, index)
  {
    var k := |cmds| - 1;
    c := cmds[k];
    if ElementMatch(mode, m, c, word, index) != FilterType(mode, m, cmds, word, index) {
      c := FilterTypeAttained(mode, m, cmds[..k], word, index);
    }
  }

  /** The commands the filter leaves in the vector. */
  function FilterKeep(mode: Mode, m: Matchers, cmds: seq<Element>, word: string, index: nat): seq<Element> {
    Keep(cmds, c => ElementMatch(mode, m, c, word, index) != NO_MATCH)
  }

  /** Whether is_cmd_ambiguous counts an alternative as a match of the given type. */
  predicate Hits(m: Matchers, t: MatchType, str: string, word: string) {
    if t == EXACT_MATCH then !IsOption(str) && !IsVariable(str) && word == str
    else if t == PARTLY_MATCH then !IsOption(str) && !IsVariable(str) && word <= str
    else if t == RANGE_MATCH then m.range(str, word)
    else if t == IPV6_MATCH then IsIpv6(str)
    else if t == IPV4_MATCH then IsIpv4(str)
    else if t == IPV4_PREFIX_MATCH then !m.ipv4Prefix(word).No?
    else if t == EXTEND_MATCH then IsOption(str) || IsVariable(str)
    else false
  }

  predicate PositionHit(m: Matchers, t: MatchType, descs: seq<string>, word: string) {
    exists s :: s in descs && Hits(m, t, s, word)
  }

  predicate ElementHit(m: Matchers, t: MatchType, c: Element, word: string, index: nat) {
    index < |c.strvec| && PositionHit(m, t, c.strvec[index], word)
  }

  /** The commands is_cmd_ambiguous leaves in the vector. */
  function HitKeep(m: Matchers, t: MatchType, cmds: seq<Element>, word: string, index: nat): seq<Element> {
    Keep(cmds, c => ElementHit(m, t, c, word, index))
  }

  /** s is an alternative at the position of some command in the vector. */
  ghost predicate Offered(cmds: seq<Element>, index: nat, s: string) {
    exists c :: c in cmds && index < |c.strvec| && s in c.strvec[index]
  }

  /** is_cmd_ambiguous returns 1: two different alternatives are hit. */
  ghost predicate Ambiguous(m: Matchers, t: MatchType, cmds: seq<Element>, word: string, index: nat) {
    && (t == PARTLY_MATCH || t == RANGE_MATCH)
    && exists s, s' :: s != s' && Offered(cmds, index, s) && Offered(cmds, index, s') && Hits(m, t, s, word) && Hits(m, t, s', word)
  }

  /** is_cmd_ambiguous returns 2: an address prefix is not finished. */
  ghost predicate Incomplete(m: Matchers, t: MatchType, cmds: seq<Element>, word: string, index: nat) {
    t == IPV4_PREFIX_MATCH && m.ipv4Prefix(word).Partly? && exists s :: Offered(cmds, index, s)
  }

  /** How the narrowing loop ends: with an error status, or with the commands left in the vector,
      the number of words consumed and the last match type. */
  datatype Narrowed = AmbiguousWord | UnfinishedWord | Left(cmds: seq<Element>, index: nat, last: MatchType)

  /** One round of the loop either ends it or hands the surviving commands to the next word. */
  datatype Round = Stop(end: Narrowed) | Next(cmds: seq<Element>, t: MatchType)

  ghost function Narrow1(mode: Mode, m: Matchers, cmds: seq<Element>, word: string, index: nat): Round {
    var t := FilterType(mode, m, cmds, word, index);
    var kept := FilterKeep(mode, m, cmds, word, index);
    if t == VARARG_MATCH then Stop(Left(kept, index, t))
    else if Ambiguous(m, t, kept, word, index) then Stop(AmbiguousWord)
    else if Incomplete(m, t, kept, word, index) then Stop(UnfinishedWord)
    else Next(HitKeep(m, t, kept, word, index), t)
  }

  ghost function Narrow(mode: Mode, m: Matchers, cmds: seq<Element>, words: seq<string>, index: nat, last: MatchType): Narrowed
    requires index <= |words|
    decreases |words| - index
  {
    if index == |words| then Left(cmds, index, last)
    else
      match Narrow1(mode, m, cmds, words[index], index)
      case Stop(end) => end
      case Next(rest, t) => Narrow(mode, m, rest, words, index + 1, t)
  }

  /** A position that is one option need not be typed. */
  predicate LoneOption(descs: seq<string>) { |descs| == 1 && IsOption(descs[0]) }

  /** cmd_cmdsize: the positions before the first lone option. */
  function CmdSize(strvec: seq<seq<string>>): (n: nat)
    ensures n <= |strvec|
  {
    if |strvec| == 0 || LoneOption(strvec[0]) then 0 else 1 + CmdSize(strvec[1..])
  }

  /** The size is n exactly when the first n positions must be typed and an option follows, if anything does. */
  lemma {:induction false} CmdSizeIff(strvec: seq<seq<string>>, n: nat)
    requires n <= |strvec|
    ensures CmdSize(strvec) == n <==> (forall i :: 0 <= i < n ==> !LoneOption(strvec[i])) && (n < |strvec| ==> LoneOption(strvec[n]))
  {
    if |strvec| > 0 && !LoneOption(strvec[0]) && n > 0 {
      CmdSizeIff(strvec[1..], n - 1);
      assert forall i :: 0 < i < n ==> strvec[i] == strvec[1..][i - 1];
      assert forall i :: 0 <= i < n - 1 ==> strvec[1..][i] == strvec[i + 1];
    }
  }

  predicate Complete(c: Element, index: nat, last: MatchType) {
    last == VARARG_MATCH || index >= CmdSize(c.strvec)
  }

  function CompleteOnly(cmds: seq<Element>, index: nat, last: MatchType): seq<Element> {
    Keep(cmds, c => Complete(c, index, last))
  }

  /** Whether word i of the line is passed to the handler: everything from a vararg on, every
      variable or option, and every position that offers a choice. */
  predicate Passed(strvec: seq<seq<string>>, i: nat) {
    if i >= |strvec| then true
    else |strvec[i]| != 1 || IsVararg(strvec[i][0]) || IsVariable(strvec[i][0]) || IsOption(strvec[i][0])
  }

  function Args(strvec: seq<seq<string>>, words: seq<string>): (argv: seq<string>)
    ensures |argv| <= |words|
  {
    if |words| == 0 then []
    else
      var k := |words| - 1;
      Args(strvec, words[..k]) + (if Passed(strvec, k) then [words[k]] else [])
  }

  datatype Status = ErrNoMatch | ErrAmbiguous | ErrIncomplete | ErrExceedArgcMax
  datatype Outcome = Refused(status: Status) | Run(id: Handler, argv: seq<string>)

  ghost function Select(n: Narrowed, words: seq<string>): Outcome {
    match n
    case AmbiguousWord => Refused(ErrAmbiguous)
    case UnfinishedWord => Refused(ErrNoMatch)
    case Left(cmds, index, last) =>
      var whole := CompleteOnly(cmds, index, last);
      if |whole| == 0 then Refused(if |cmds| > 0 then ErrIncomplete else ErrNoMatch)
      else if |whole| > 1 then Refused(ErrAmbiguous)
      else if |Args(whole[0].strvec, words)| >= CMD_ARGC_MAX then Refused(ErrExceedArgcMax)
      else Run(whole[0].id, Args(whole[0].strvec, words))
  }

  /** cmd_execute_command (Completing) and cmd_execute_command_strict (Strict): which handler runs on
      which arguments. */
  ghost function Execute(mode: Mode, m: Matchers, cmds: seq<Element>, words: seq<string>): Outcome {
    Select(Narrow(mode, m, cmds, words, 0, NO_MATCH), words)
  }

  /** Templates cmd_make_descvec builds from well-formed strings: every position offers something,
      and a vararg stands alone at the end. */
  predicate WellFormed(strvec: seq<seq<string>>) {
    forall k :: 0 <= k < |strvec| ==>
      && |strvec[k]| > 0
      && (forall s :: s in strvec[k] && IsVararg(s) ==> |strvec[k]| == 1 && k == |strvec| - 1)
  }
}
