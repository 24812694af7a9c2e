/** cmd_lcd and cmd_complete_command of command.c. */
module Completion {
  import opened CText
  import opened Sequences
  import opened Handlers
  import opened Matching
  import Shell
  import Shortcuts
  import Executor

  // ---- cmd_lcd ----

  /** How many leading characters two strings share. */
  function Shared(a: string, b: string): (n: nat)
    ensures n <= |a| && n <= |b| && a[..n] == b[..n]
    ensures n < |a| && n < |b| ==> a[n] != b[n]
  {
    if |a| == 0 || |b| == 0 || a[0] != b[0] then 0
    else
      assert a == [a[0]] + a[1..] && b == [b[0]] + b[1..];
      1 + Shared(a[1..], b[1..])
  }

  /** The first n characters of the first string begin all strings. */
  predicate StartsAll(s: seq<string>, n: nat) {
    |s| > 0 && n <= |s[0]| && forall k :: 0 <= k < |s| ==> s[0][..n] <= s[k]
  }

  /** n is the length of the longest common prefix. */
  ghost predicate LongestCommonPrefix(s: seq<string>, n: nat) {
    StartsAll(s, n) && forall k: nat :: StartsAll(s, k) ==> k <= n
  }

  method SharedLength(s1: string, s2: string) returns (j: nat)
    ensures j == Shared(s1, s2)
  {
    j := 0;
    while j < |s1| && j < |s2| && s1[j] == s2[j]
      invariant j <= |s1| && j <= |s2| && s1[..j] == s2[..j]
    {
      j := j + 1;
    }
  }

  /** The smallest number of characters that neighbours share among the first k strings. */
  ghost predicate LeastShared(s: seq<string>, k: nat, n: nat)
    requires 2 <= k <= |s|
  {
    && (forall i :: 1 <= i < k ==> n <= Shared(s[i - 1], s[i]))
    && (exists i :: 1 <= i < k && n == Shared(s[i - 1], s[i]))
  }

  lemma {:induction false} NeighboursStart(s: seq<string>, n: nat, k: nat)
    requires k < |s| && forall i :: 1 <= i < |s| ==> n <= Shared(s[i - 1], s[i])
    requires n <= |s[0]|
    ensures s[0][..n] <= s[k]
  {
    if k > 0 {
      NeighboursStart(s, n, k - 1);
      var a, b := s[k - 1], s[k];
      assert a[..n] == a[..Shared(a, b)][..n] == b[..Shared(a, b)][..n] == b[..n];
    }
  }

  /** The minimum over adjacent pairs is the longest common prefix of all. */
  lemma AdjacentPairsSuffice(s: seq<string>, n: nat)
    requires |s| >= 2 && LeastShared(s, |s|, n)
    ensures LongestCommonPrefix(s, n)
  {
    assert n <= Shared(s[0], s[1]);
    forall k | 0 <= k < |s| ensures s[0][..n] <= s[k] { NeighboursStart(s, n, k); }
    var i :| 1 <= i < |s| && n == Shared(s[i - 1], s[i]);
    forall k: nat | StartsAll(s, k) ensures k <= n { }
  }

  lemma LeastOfMore(s: seq<string>, k: nat, n: nat)
    requires 2 <= k < |s| && LeastShared(s, k, n)
    ensures var j := Shared(s[k - 1], s[k]); LeastShared(s, k + 1, if n > j then j else n)
  {
  }

  method CmdLcd(matched: seq<string>) returns (lcd: nat)
    ensures |matched| < 2 ==> lcd == 0
    ensures |matched| >= 2 ==> LongestCommonPrefix(matched, lcd)
  {
    if |matched| < 2 {
      return 0;
    }
    lcd := SharedLength(matched[0], matched[1]);
    for i := 2 to |matched|
      invariant LeastShared(matched, i, lcd)
    {
      var j := SharedLength(matched[i - 1], matched[i]);
      LeastOfMore(matched, i, lcd);
      if lcd > j {
        lcd := j;
      }
    }
    AdjacentPairsSuffice(matched, lcd);
  }

  // ---- Candidates ----

  /** cmd_entry_function: keywords that begin with what was typed; nothing typed yet is None. */
  predicate Entry(typed: Option<string>, s: string) { IsLiteral(s) && (typed.Some? ==> typed.value <= s) }

  ghost predicate Candidate(cmds: seq<Element>, index: nat, typed: Option<string>, s: string) {
    Offered(cmds, index, s) && Entry(typed, s)
  }

  /** The candidates of one position are added unless they are there already. */
  method CollectPosition(descs: seq<string>, typed: Option<string>, start: seq<string>) returns (found: seq<string>)
    requires Distinct(start)
    ensures Distinct(found) && forall s :: s in found <==> s in start || (s in descs && Entry(typed, s))
  {
    found := start;
    for j := 0 to |descs|
      invariant Distinct(found) && forall s :: s in found <==> s in start || (s in descs[..j] && Entry(typed, s))
    {
      assert descs[..j + 1] == descs[..j] + [descs[j]];
      if Entry(typed, descs[j]) && descs[j] !in found {
        found := found + [descs[j]];
      }
    }
    assert descs[..|descs|] == descs;
  }

  ghost predicate SlotOffers(x: Option<Element>, index: nat, s: string) {
    x.Some? && index < |x.value.strvec| && s in x.value.strvec[index]
  }

  method Collect(v: array<Option<Element>>, index: nat, typed: Option<string>) returns (found: seq<string>)
    ensures Distinct(found) && forall s :: s in found <==> Candidate(Executor.Alive(v[..]), index, typed, s)
  {
    found := [];
    for i := 0 to v.Length
      invariant Distinct(found)
      invariant forall s :: s in found <==> exists k :: 0 <= k < i && SlotOffers(v[k], index, s) && Entry(typed, s)
    {
      if v[i].Some? && index < |v[i].value.strvec| {
        found := CollectPosition(v[i].value.strvec[index], typed, found);
      }
    }
    forall s ensures s in found <==> Candidate(Executor.Alive(v[..]), index, typed, s) {
      OfferedBySlot(v[..], index, s);
    }
  }

  lemma OfferedBySlot(slots: seq<Option<Element>>, index: nat, s: string)
    ensures Offered(Executor.Alive(slots), index, s) <==> exists k :: 0 <= k < |slots| && SlotOffers(slots[k], index, s)
  {
    if Offered(Executor.Alive(slots), index, s) {
      var c :| c in Executor.Alive(slots) && index < |c.strvec| && s in c.strvec[index];
      Executor.AliveMember(slots, c);
      var k :| 0 <= k < |slots| && slots[k] == Some(c);
      assert SlotOffers(slots[k], index, s);
    }
    if k :| 0 <= k < |slots| && SlotOffers(slots[k], index, s) {
      Executor.AliveMember(slots, slots[k].value);
    }
  }

  // ---- cmd_complete_command ----

  datatype Answer =
    | Ambiguity | NothingTodo | NoMatch
    | FullMatch(word: string) | CompleteMatch(prefix: string) | ListMatch(words: seq<string>)

  /** The commands that survive the words before the one to complete. */
  ghost function Survivors(m: Matchers, cmds: seq<Element>, words: seq<string>): Narrowed {
    Narrow(Completing, m, cmds, words, 0, NO_MATCH)
  }

  /** Every candidate begins with p. */
  ghost predicate BeginsAll(cmds: seq<Element>, index: nat, typed: Option<string>, p: string) {
    forall s :: Candidate(cmds, index, typed, s) ==> p <= s
  }

  /** At least two distinct candidates. */
  ghost predicate Several(cmds: seq<Element>, index: nat, typed: Option<string>) {
    exists s, s' :: s != s' && Candidate(cmds, index, typed, s) && Candidate(cmds, index, typed, s')
  }

  /** The word is the one distinct candidate. */
  ghost predicate Lone(cmds: seq<Element>, index: nat, typed: Option<string>, word: string) {
    forall s :: Candidate(cmds, index, typed, s) <==> s == word
  }

  /** What an answer must say, given the candidates: exactly one distinct candidate is a full match; among several,
      a longer common prefix than the typed word is handed out, and otherwise the whole list. */
  ghost predicate Right(cmds: seq<Element>, index: nat, typed: Option<string>, a: Answer) {
    match a
    case Ambiguity => false
    case NothingTodo => typed.None? && forall s :: !Candidate(cmds, index, typed, s)
    case NoMatch => typed.Some? && forall s :: !Candidate(cmds, index, typed, s)
    case FullMatch(word) => Lone(cmds, index, typed, word)
    case CompleteMatch(prefix) =>
      && Several(cmds, index, typed) && typed.Some? && typed.value < prefix
      && BeginsAll(cmds, index, typed, prefix)
      && (forall p :: BeginsAll(cmds, index, typed, p) ==> p <= prefix)
    case ListMatch(words) =>
      && Several(cmds, index, typed) && Distinct(words) && |words| >= 2 && (forall s :: s in words <==> Candidate(cmds, index, typed, s))
      && (typed.Some? ==> forall p :: BeginsAll(cmds, index, typed, p) ==> p <= typed.value)
  }

  /** From the distinct candidates to the answer. */
  method Choose(found: seq<string>, typed: Option<string>) returns (a: Answer)
    requires Distinct(found) && (typed.Some? ==> forall s :: s in found ==> typed.value <= s)
    ensures |found| == 0 ==> a == if typed.None? then NothingTodo else NoMatch
    ensures |found| == 1 ==> a == FullMatch(found[0])
    ensures |found| >= 2 && typed.None? ==> a == ListMatch(found)
    ensures |found| >= 2 && typed.Some? ==>
      exists n: nat :: LongestCommonPrefix(found, n) && a == if |typed.value| < n then CompleteMatch(found[0][..n]) else ListMatch(found)
  {
    if |found| == 0 {
      return if typed.None? then NothingTodo else NoMatch;
    }
    if |found| == 1 {
      return FullMatch(found[0]);
    }
    if typed.Some? {
      var lcd := CmdLcd(found);
      if lcd != 0 && |typed.value| < lcd {
        return CompleteMatch(found[0][..lcd]);
      }
    }
    return ListMatch(found);
  }

  lemma PrefixOfAll(found: seq<string>, n: nat, p: string)
    requires LongestCommonPrefix(found, n) && forall s :: s in found ==> p <= s
    ensures p <= found[0][..n]
  {
    assert found[0] in found && p == found[0][..|p|];
    forall k | 0 <= k < |found| ensures found[0][..|p|] <= found[k] { assert found[k] in found; }
    assert StartsAll(found, |p|);
    assert found[0][..n][..|p|] == found[0][..|p|];
  }

  lemma SeveralFound(cmds: seq<Element>, index: nat, typed: Option<string>, found: seq<string>)
    requires Distinct(found) && |found| >= 2 && forall s :: s in found <==> Candidate(cmds, index, typed, s)
    ensures Several(cmds, index, typed)
  {
    assert found[0] in found && found[1] in found && found[0] != found[1];
  }

  /** The answer is a full match exactly when there is one distinct candidate. */
  lemma FullExactlyWhenLone(cmds: seq<Element>, index: nat, typed: Option<string>, a: Answer, word: string)
    requires Right(cmds, index, typed, a)
    ensures a == FullMatch(word) <==> Lone(cmds, index, typed, word)
  {
    assert a.FullMatch? ==> Candidate(cmds, index, typed, a.word);
    if Lone(cmds, index, typed, word) {
      assert Candidate(cmds, index, typed, word);
    }
  }

  lemma ListIsRight(cmds: seq<Element>, index: nat, typed: Option<string>, found: seq<string>, n: nat)
    requires Distinct(found) && |found| >= 2 && forall s :: s in found <==> Candidate(cmds, index, typed, s)
    requires typed.Some? && LongestCommonPrefix(found, n)
    ensures |typed.value| < n ==> Right(cmds, index, typed, CompleteMatch(found[0][..n]))
    ensures |typed.value| >= n ==> Right(cmds, index, typed, ListMatch(found))
  {
    SeveralFound(cmds, index, typed, found);
    forall p | BeginsAll(cmds, index, typed, p) ensures p <= found[0][..n] {
      forall s | s in found ensures p <= s { assert Candidate(cmds, index, typed, s); }
      PrefixOfAll(found, n, p);
    }
    forall s | s in found ensures typed.value <= s { assert Candidate(cmds, index, typed, s); }
    PrefixOfAll(found, n, typed.value);
    forall s | s in found ensures found[0][..n] <= s { }
  }

  lemma ChosenIsRight(cmds: seq<Element>, index: nat, typed: Option<string>, found: seq<string>)
    requires Distinct(found) && |found| < 2 && forall s :: s in found <==> Candidate(cmds, index, typed, s)
    ensures |found| == 0 ==> Right(cmds, index, typed, if typed.None? then NothingTodo else NoMatch)
    ensures |found| == 1 ==> Right(cmds, index, typed, FullMatch(found[0]))
  {
    if |found| == 1 { assert found == [found[0]]; }
    forall s ensures s in found <==> Candidate(cmds, index, typed, s) { }
  }

  /** cmd_complete_command: words are those before the one to complete. */
  method CompleteCommand(m: Matchers, node: array<Option<Element>>, words: seq<string>, typed: Option<string>) returns (a: Answer)
    requires Shell.AllOrdinary(Executor.Alive(node[..]))
    ensures var n := Survivors(m, Executor.Alive(node[..]), words);
            (a == Ambiguity <==> !n.Left?) && (n.Left? ==> Right(n.cmds, |words|, typed, a))
    ensures var n := Survivors(m, Executor.Alive(node[..]), words);
            n.Left? ==> forall word :: a == FullMatch(word) <==> Lone(n.cmds, |words|, typed, word)
  {
    var v := new Option<Element>[node.Length](i requires 0 <= i < node.Length reads node => node[i]);
    assert v[..] == node[..];
    Shell.NarrowEnds(Completing, m, Executor.Alive(node[..]), Executor.Alive(node[..]), words, 0, NO_MATCH);
    var ret, index, match_type := Executor.NarrowVector(Completing, m, v, words);
    if ret != 0 {
      return Ambiguity;
    }
    var found := Collect(v, |words|, typed);
    a := Choose(found, typed);
    ghost var cmds := Executor.Alive(v[..]);
    if |found| < 2 {
      ChosenIsRight(cmds, |words|, typed, found);
    } else if typed.Some? {
      ghost var n: nat :| LongestCommonPrefix(found, n) && a == if |typed.value| < n then CompleteMatch(found[0][..n]) else ListMatch(found);
      ListIsRight(cmds, |words|, typed, found, n);
    } else {
      SeveralFound(cmds, |words|, typed, found);
    }
    forall word ensures a == FullMatch(word) <==> Lone(cmds, |words|, typed, word) {
      FullExactlyWhenLone(cmds, |words|, typed, a, word);
    }
  }

  /** Accepting a full match never changes what the executor sees: the typed beginning narrows the commands as the
      completed keyword does. */
  lemma FullMatchIsTransparent(m: Matchers, cmds: seq<Element>, index: nat, typed: string, word: string)
    requires Right(cmds, index, Some(typed), FullMatch(word)) && 0 < |typed| < |word|
    ensures var full, short := Narrow1(Completing, m, cmds, word, index), Narrow1(Completing, m, cmds, typed, index);
            full.Next? && short.Next? && short.cmds == full.cmds
  {
    assert Candidate(cmds, index, Some(typed), word);
    forall s | Offered(cmds, index, s) && IsLiteral(s) && typed <= s ensures s == word {
      assert Candidate(cmds, index, Some(typed), s);
    }
    Shortcuts.RoundAbbreviated(m, cmds, word, typed, index);
  }
}
