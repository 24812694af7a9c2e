/** cmd_make_descvec of command.c: from a template string to positions with alternatives, and back. */
module TemplateParser {
  import opened CText
  import Tokenizer

  type Positions = seq<seq<string>>

  /** The character at the cursor; the string ends with a NUL. */
  function At(s: string, i: nat): char { if i < |s| then s[i] else '\0' }

  predicate Stops(c: char) { IsSpace(c) || c == ')' || c == '|' }

  /** The end of the token that starts at i. */
  function TokenEnd(s: string, i: nat): (k: nat)
    requires i <= |s|
    ensures i <= k <= |s|
    decreases |s| - i
  {
    if i == |s| || Stops(s[i]) then i else TokenEnd(s, i + 1)
  }

  /** Where a round finds its token, and the value of `multiple` there; Bad is the parse error of a bar outside
      parentheses. */
  datatype Found = Bad | Token(at: nat, multiple: nat)

  function OpenAt(s: string, i: nat, multiple: nat): Found
  {
    if At(s, i) == '(' then Token(i + 1, 1) else Token(i, multiple)
  }

  function CloseAt(s: string, i: nat, multiple: nat): Found
  {
    if At(s, i) == ')' then Token(i + 1, 0) else Token(i, multiple)
  }

  function BarAt(s: string, i: nat, multiple: nat): Found
  {
    if At(s, i) != '|' then Token(i, multiple) else if multiple == 0 then Bad else Token(i + 1, multiple)
  }

  /** The part of a round before the token. */
  function Lead(s: string, cp: nat, multiple: nat): (f: Found)
    requires cp <= |s|
    ensures f.Token? ==> cp <= f.at <= |s|
  {
    var open := OpenAt(s, Tokenizer.SpaceEnd(s, cp), multiple);
    var close := CloseAt(s, open.at, open.multiple);
    var bar := BarAt(s, close.at, close.multiple);
    if bar.Bad? then Bad else OpenAt(s, Tokenizer.SpaceEnd(s, bar.at), bar.multiple)
  }

  /** Every round that goes on has consumed a character. */
  lemma RoundAdvances(s: string, cp: nat, multiple: nat)
    requires cp < |s|
    ensures var f := Lead(s, cp, multiple); f.Token? ==> cp < TokenEnd(s, f.at)
  {
  }

  /** A token joins the current position inside parentheses, after the first one there; else it opens a position. */
  function AddToken(all: Positions, multiple: nat, word: string): Positions {
    if multiple <= 1 || |all| == 0 then all + [[word]] else all[|all| - 1 := all[|all| - 1] + [word]]
  }

  /** The loop from the cursor on; None is the parse error. */
  function ParseFrom(s: string, cp: nat, multiple: nat, all: Positions): Option<Positions>
    requires cp <= |s|
    decreases |s| - cp
  {
    var f := Lead(s, cp, multiple);
    if f.Bad? then None
    else if f.at == |s| then Some(all)
    else
      RoundAdvances(s, cp, multiple);
      var k := TokenEnd(s, f.at);
      ParseFrom(s, k, if f.multiple > 0 then f.multiple + 1 else 0, AddToken(all, f.multiple, s[f.at..k]))
  }

  function Parse(s: string): Option<Positions> { ParseFrom(s, 0, 0, []) }

  lemma {:induction false} TokenEndUnique(s: string, i: nat, k: nat)
    requires i <= k <= |s| && (forall j :: i <= j < k ==> !Stops(s[j])) && (k < |s| ==> Stops(s[k]))
    ensures TokenEnd(s, i) == k
    decreases k - i
  {
    if i < k { TokenEndUnique(s, i + 1, k); }
  }

  method SkipToken(s: string, from: nat) returns (cp: nat)
    requires from <= |s|
    ensures cp == TokenEnd(s, from)
  {
    cp := from;
    while cp < |s| && !Stops(s[cp])
      invariant from <= cp <= |s| && forall i :: from <= i < cp ==> !Stops(s[i])
    {
      cp := cp + 1;
    }
    TokenEndUnique(s, from, cp);
  }

  /** The tests of a round, one after the other, on the cursor and the counter. */
  method FindToken(s: string, start: nat, m: nat) returns (bad: bool, cp: nat, multiple: nat)
    requires start <= |s|
    ensures bad <==> Lead(s, start, m).Bad?
    ensures !bad ==> Lead(s, start, m) == Token(cp, multiple)
  {
    bad, cp, multiple := false, start, m;
    cp := Tokenizer.SkipSpaces(s, cp);
    if At(s, cp) == '(' {
      multiple := 1;
      cp := cp + 1;
    }
    if At(s, cp) == ')' {
      multiple := 0;
      cp := cp + 1;
    }
    if At(s, cp) == '|' {
      if multiple == 0 {
        bad := true;
        return;
      }
      cp := cp + 1;
    }
    cp := Tokenizer.SkipSpaces(s, cp);
    if At(s, cp) == '(' {
      multiple := 1;
      cp := cp + 1;
    }
  }

  /** The loop over the rounds. */
  method MakeDescvec(s: string) returns (r: Option<Positions>)
    ensures r == Parse(s)
  {
    var cp, multiple := 0, 0;
    var all: Positions := [];
    while true
      invariant cp <= |s| && ParseFrom(s, cp, multiple, all) == Parse(s)
      decreases |s| - cp
    {
      ghost var start, m := cp, multiple;
      var bad, sp, found := FindToken(s, cp, multiple);
      if bad {
        return None;
      }
      if sp == |s| {
        return Some(all);
      }
      RoundAdvances(s, start, m);
      cp := SkipToken(s, sp);
      all := AddToken(all, found, s[sp..cp]);
      multiple := if found > 0 then found + 1 else 0;
    }
  }

  // ---- The printer ----

  /** Words a template may hold. */
  predicate PlainWord(w: string) {
    |w| > 0 && forall i :: 0 <= i < |w| ==> !Stops(w[i]) && w[i] != '('
  }

  predicate Printable(t: Positions) {
    forall k :: 0 <= k < |t| ==> |t[k]| > 0 && forall j :: 0 <= j < |t[k]| ==> PlainWord(t[k][j])
  }

  function Bars(p: seq<string>): string {
    if |p| == 0 then "" else if |p| == 1 then p[0] else p[0] + "|" + Bars(p[1..])
  }

  function PositionText(p: seq<string>): string { if |p| == 1 then p[0] else "(" + Bars(p) + ")" }

  /** Positions separated by spaces; alternatives in parentheses, separated by bars. */
  function Print(t: Positions): string { Line(seq(|t|, k requires 0 <= k < |t| => PositionText(t[k]))) }

  // ---- What stands before a token ----

  predicate PlainChar(c: char) { !Stops(c) && c != '(' }

  /** The text from the cursor on. */
  predicate Reads(s: string, cp: nat, text: string) { cp <= |s| && s[cp..] == text }

  lemma ReadsAt(s: string, cp: nat, a: string, b: string)
    requires Reads(s, cp, a + b)
    ensures Reads(s, cp + |a|, b) && forall i :: 0 <= i < |a| ==> s[cp + i] == a[i]
    ensures |b| > 0 ==> cp + |a| < |s| && s[cp + |a|] == b[0]
  {
    assert forall i :: 0 <= i < |a| ==> s[cp..][i] == a[i];
    assert s[cp..][|a|..] == b;
    assert |b| > 0 ==> s[cp..][|a|] == b[0];
  }

  lemma LeadBar(s: string, cp: nat, multiple: nat, rest: string)
    requires Reads(s, cp, "|" + rest) && |rest| > 0 && PlainChar(rest[0]) && multiple > 0
    ensures Leads(s, cp, multiple, Token(cp + 1, multiple))
  {
    ReadsAt(s, cp, "|", rest);
    Tokenizer.SpaceEndUnique(s, cp, cp);
    Tokenizer.SpaceEndUnique(s, cp + 1, cp + 1);
  }

  lemma LeadClosed(s: string, cp: nat, multiple: nat, open: bool, rest: string)
    requires Reads(s, cp, (if open then ") (" else ") ") + rest) && |rest| > 0 && PlainChar(rest[0])
    ensures Leads(s, cp, multiple, if open then Token(cp + 3, 1) else Token(cp + 2, 0))
  {
    ReadsAt(s, cp, if open then ") (" else ") ", rest);
    assert s[cp] == ')' && s[cp + 1] == ' ' && (open ==> s[cp + 2] == '(');
    Tokenizer.SpaceEndUnique(s, cp, cp);
    Tokenizer.SpaceEndUnique(s, cp + 1, cp + 2);
  }

  lemma LeadSpaced(s: string, cp: nat, multiple: nat, open: bool, rest: string)
    requires Reads(s, cp, (if open then " (" else " ") + rest) && |rest| > 0 && PlainChar(rest[0])
    ensures Leads(s, cp, multiple, if open then Token(cp + 2, 1) else Token(cp + 1, multiple))
  {
    ReadsAt(s, cp, if open then " (" else " ", rest);
    assert s[cp] == ' ' && (open ==> s[cp + 1] == '(');
    Tokenizer.SpaceEndUnique(s, cp, cp + 1);
    if open { Tokenizer.SpaceEndUnique(s, cp + 2, cp + 2); } else { Tokenizer.SpaceEndUnique(s, cp + 1, cp + 1); }
  }

  lemma LeadFirst(s: string, cp: nat, multiple: nat, open: bool, rest: string)
    requires Reads(s, cp, (if open then "(" else "") + rest) && |rest| > 0 && PlainChar(rest[0])
    ensures Leads(s, cp, multiple, if open then Token(cp + 1, 1) else Token(cp, multiple))
  {
    ReadsAt(s, cp, if open then "(" else "", rest);
    assert open ==> s[cp] == '(';
    Tokenizer.SpaceEndUnique(s, cp, cp);
    if open { Tokenizer.SpaceEndUnique(s, cp + 1, cp + 1); }
  }

  lemma TokenReads(s: string, at: nat, w: string, rest: string)
    requires Spells(s, at, w, rest)
    ensures at < |s| && TokenEnd(s, at) == at + |w| && s[at..at + |w|] == w && Reads(s, at + |w|, rest)
  {
    ReadsAt(s, at, w, rest);
    TokenEndUnique(s, at, at + |w|);
    assert s[at..at + |w|] == w;
  }

  lemma OneRound(s: string, cp: nat, multiple: nat, f: Found, k: nat, w: string, all: Positions)
    requires Leads(s, cp, multiple, f) && f.at < |s| && k == TokenEnd(s, f.at) && w == s[f.at..k]
    ensures ParseFrom(s, cp, multiple, all) == ParseFrom(s, k, Count(f), AddToken(all, f.multiple, w))
  {
  }

  ghost predicate Leads(s: string, cp: nat, multiple: nat, f: Found) { cp <= |s| && f.Token? && Lead(s, cp, multiple) == f }

  /** The text from there on is the word and something that stops it. */
  ghost predicate Spells(s: string, at: nat, w: string, rest: string) {
    Reads(s, at, w + rest) && PlainWord(w) && (|rest| > 0 ==> Stops(rest[0]))
  }

  ghost predicate Round(s: string, cp: nat, multiple: nat, f: Found, w: string, rest: string) {
    Leads(s, cp, multiple, f) && Spells(s, f.at, w, rest)
  }

  function Count(f: Found): nat
    requires f.Token?
  {
    if f.multiple > 0 then f.multiple + 1 else 0
  }

  // The next lemmas follow the rounds of any function that goes through them as the loop does.

  type Rounds = (nat, nat, Positions) -> Option<Positions>

  ghost predicate Follows(s: string, parse: Rounds) {
    forall cp, multiple, f, w, rest, all :: Round(s, cp, multiple, f, w, rest) ==>
      parse(cp, multiple, all) == parse(f.at + |w|, Count(f), AddToken(all, f.multiple, w))
  }

  lemma FollowRound(s: string, parse: Rounds, cp: nat, multiple: nat, f: Found, w: string, rest: string, all: Positions)
    requires Follows(s, parse) && Round(s, cp, multiple, f, w, rest)
    ensures Reads(s, f.at + |w|, rest)
    ensures parse(cp, multiple, all) == parse(f.at + |w|, Count(f), AddToken(all, f.multiple, w))
  {
    TokenReads(s, f.at, w, rest);
  }

  lemma EndReads(s: string, cp: nat, multiple: nat, close: bool, all: Positions)
    requires Reads(s, cp, if close then ")" else "")
    ensures ParseFrom(s, cp, multiple, all) == Some(all)
  {
    if close {
      ReadsAt(s, cp, ")", "");
      assert ")" + "" == ")";
      Tokenizer.SpaceEndUnique(s, cp, cp);
      Tokenizer.SpaceEndUnique(s, cp + 1, cp + 1);
    } else {
      Tokenizer.SpaceEndUnique(s, cp, cp);
    }
  }

  // ---- Printing, then parsing ----

  /** What stands before a position: the end of the previous one, if there is one, and an opening parenthesis. */
  function Gap(first: bool, close: bool, open: bool): string {
    if first then (if open then "(" else "")
    else if close then (if open then ") (" else ") ")
    else (if open then " (" else " ")
  }

  lemma LeadPosition(s: string, cp: nat, multiple: nat, first: bool, close: bool, open: bool, rest: string)
    requires Reads(s, cp, Gap(first, close, open) + rest) && |rest| > 0 && PlainChar(rest[0])
    requires (first || !close) ==> multiple == 0
    ensures Leads(s, cp, multiple, Token(cp + |Gap(first, close, open)|, if open then 1 else 0))
    ensures Reads(s, cp + |Gap(first, close, open)|, rest)
  {
    ReadsAt(s, cp, Gap(first, close, open), rest);
    if first {
      LeadFirst(s, cp, multiple, open, rest);
    } else if close {
      LeadClosed(s, cp, multiple, open, rest);
    } else {
      LeadSpaced(s, cp, multiple, open, rest);
    }
  }

  predicate PlainWords(p: seq<string>) { forall j :: 0 <= j < |p| ==> PlainWord(p[j]) }

  /** The alternatives behind the first j. */
  function BarTail(p: seq<string>, j: nat): string
    requires j <= |p|
    decreases |p| - j
  {
    if j == |p| then "" else "|" + (p[j] + BarTail(p, j + 1))
  }

  lemma {:induction false} BarsAre(p: seq<string>, j: nat)
    requires j < |p|
    ensures Bars(p[j..]) == p[j] + BarTail(p, j + 1)
    decreases |p| - j
  {
    if j + 1 < |p| {
      BarsAre(p, j + 1);
      assert p[j..][1..] == p[j + 1..];
    } else {
      assert p[j..] == [p[j]];
    }
  }

  lemma BarText(p: seq<string>, j: nat, tail: string)
    requires j < |p|
    ensures BarTail(p, j) + (")" + tail) == "|" + (p[j] + (BarTail(p, j + 1) + (")" + tail)))
  {
  }

  lemma BarRound(s: string, parse: Rounds, cp: nat, p: seq<string>, j: nat, tail: string, all: Positions)
    requires Follows(s, parse) && 1 <= j < |p| && PlainWord(p[j]) && Reads(s, cp, BarTail(p, j) + (")" + tail))
    ensures Reads(s, cp + 1 + |p[j]|, BarTail(p, j + 1) + (")" + tail))
    ensures parse(cp, j + 1, all + [p[..j]]) == parse(cp + 1 + |p[j]|, j + 2, all + [p[..j + 1]])
  {
    var rest := BarTail(p, j + 1) + (")" + tail);
    BarText(p, j, tail);
    LeadBar(s, cp, j + 1, p[j] + rest);
    ReadsAt(s, cp, "|", p[j] + rest);
    BarStops(p, j + 1, tail);
    FollowRound(s, parse, cp, j + 1, Token(cp + 1, j + 1), p[j], rest, all + [p[..j]]);
    AddAlternative(all, p, j);
  }

  lemma {:induction false} ParseBars(s: string, parse: Rounds, cp: nat, p: seq<string>, j: nat, tail: string, all: Positions) returns (cp': nat)
    requires Follows(s, parse) && 1 <= j <= |p| && PlainWords(p) && Reads(s, cp, BarTail(p, j) + (")" + tail))
    ensures Reads(s, cp', ")" + tail)
    ensures parse(cp, j + 1, all + [p[..j]]) == parse(cp', |p| + 1, all + [p])
    decreases |p| - j
  {
    if j == |p| {
      cp' := cp;
      assert "" + (")" + tail) == ")" + tail;
      assert p[..j] == p;
    } else {
      BarRound(s, parse, cp, p, j, tail, all);
      cp' := ParseBars(s, parse, cp + 1 + |p[j]|, p, j + 1, tail, all);
    }
  }

  lemma BarStops(p: seq<string>, j: nat, tail: string)
    requires j <= |p|
    ensures var rest := BarTail(p, j) + (")" + tail); |rest| > 0 && Stops(rest[0])
  {
  }

  lemma AddAlternative(all: Positions, p: seq<string>, j: nat)
    requires 1 <= j < |p|
    ensures AddToken(all + [p[..j]], j + 1, p[j]) == all + [p[..j + 1]]
  {
    assert p[..j] + [p[j]] == p[..j + 1];
  }

  lemma FirstRound(s: string, parse: Rounds, cp: nat, multiple: nat, first: bool, close: bool, open: bool, w: string, rest: string, all: Positions)
    requires Follows(s, parse) && PlainWord(w) && (|rest| > 0 ==> Stops(rest[0])) && ((first || !close) ==> multiple == 0)
    requires Reads(s, cp, Gap(first, close, open) + (w + rest))
    ensures var at := cp + |Gap(first, close, open)| + |w|;
            Reads(s, at, rest) && parse(cp, multiple, all) == parse(at, if open then 2 else 0, all + [[w]])
  {
    LeadPosition(s, cp, multiple, first, close, open, w + rest);
    FollowRound(s, parse, cp, multiple, Token(cp + |Gap(first, close, open)|, if open then 1 else 0), w, rest, all);
  }

  function Ended(p: seq<string>, tail: string): string { if |p| > 1 then ")" + tail else tail }

  /** One printed position and what follows it. */
  lemma ParsePosition(s: string, parse: Rounds, cp: nat, multiple: nat, first: bool, close: bool, p: seq<string>, tail: string, all: Positions) returns (cp': nat)
    requires Follows(s, parse) && |p| > 0 && PlainWords(p) && (|tail| > 0 ==> Stops(tail[0])) && ((first || !close) ==> multiple == 0)
    requires Reads(s, cp, Gap(first, close, |p| > 1) + (p[0] + (BarTail(p, 1) + Ended(p, tail))))
    ensures Reads(s, cp', Ended(p, tail))
    ensures parse(cp, multiple, all) == parse(cp', CountAfter(p), all + [p])
  {
    var at := cp + |Gap(first, close, |p| > 1)| + |p[0]|;
    assert p[..1] == [p[0]];
    if |p| > 1 {
      BarStops(p, 1, tail);
      FirstRound(s, parse, cp, multiple, first, close, true, p[0], BarTail(p, 1) + (")" + tail), all);
      cp' := ParseBars(s, parse, at, p, 1, tail, all);
    } else {
      assert p == [p[0]] && BarTail(p, 1) + tail == tail;
      FirstRound(s, parse, cp, multiple, first, close, false, p[0], tail, all);
      cp' := at;
    }
  }

  /** What follows the first k positions. */
  function Rest(t: Positions, k: nat): string
    requires k <= |t|
  {
    if k < |t| then " " + Print(t[k..]) else ""
  }

  lemma PositionIs(p: seq<string>, tail: string)
    requires |p| > 0
    ensures PositionText(p) + tail == (if |p| > 1 then "(" else "") + (p[0] + (BarTail(p, 1) + Ended(p, tail)))
  {
    BarsAre(p, 0);
    assert p[0..] == p;
    if |p| > 1 {
      Wrapped(p[0], BarTail(p, 1), tail);
    } else {
      assert BarTail(p, 1) + tail == tail && "" + (p[0] + tail) == p[0] + tail;
    }
  }

  lemma Wrapped(a: string, b: string, tail: string)
    ensures "(" + (a + b) + ")" + tail == "(" + (a + (b + (")" + tail)))
  {
  }

  lemma PrintIs(t: Positions, k: nat)
    requires k < |t|
    ensures Print(t[k..]) == PositionText(t[k]) + Rest(t, k + 1)
  {
    var u := t[k..];
    var texts := seq(|u|, i requires 0 <= i < |u| => PositionText(u[i]));
    if k + 1 < |t| {
      var v := t[k + 1..];
      assert texts[1..] == seq(|v|, i requires 0 <= i < |v| => PositionText(v[i]));
    }
  }

  lemma GapIs(t: Positions, k: nat)
    requires 0 < k < |t| && |t[k]| > 0
    ensures var p := t[k];
            Ended(t[k - 1], Rest(t, k)) == Gap(false, |t[k - 1]| > 1, |p| > 1) + (p[0] + (BarTail(p, 1) + Ended(p, Rest(t, k + 1))))
  {
    PrintIs(t, k);
    PositionIs(t[k], Rest(t, k + 1));
    GapSplits(|t[k - 1]| > 1, |t[k]| > 1, t[k][0] + (BarTail(t[k], 1) + Ended(t[k], Rest(t, k + 1))));
  }

  lemma GapSplits(close: bool, open: bool, x: string)
    ensures (if close then ")" + (" " + ((if open then "(" else "") + x)) else " " + ((if open then "(" else "") + x))
            == Gap(false, close, open) + x
  {
  }

  ghost predicate Ends(s: string, parse: Rounds) {
    forall cp, multiple, all :: Reads(s, cp, "") || Reads(s, cp, ")") ==> parse(cp, multiple, all) == Some(all)
  }

  lemma AtTheEnd(s: string, parse: Rounds, cp: nat, multiple: nat, p: seq<string>, all: Positions)
    requires Ends(s, parse) && Reads(s, cp, Ended(p, ""))
    ensures parse(cp, multiple, all) == Some(all)
  {
    assert Ended(p, "") == "" || Ended(p, "") == ")";
  }

  lemma PlainPosition(t: Positions, k: nat)
    requires Printable(t) && k < |t|
    ensures |t[k]| > 0 && PlainWords(t[k])
  {
  }

  lemma TakeMore(t: Positions, k: nat)
    requires k < |t|
    ensures t[..k] + [t[k]] == t[..k + 1]
  {
  }

  function CountAfter(p: seq<string>): nat { if |p| > 1 then |p| + 1 else 0 }

  lemma NextPosition(s: string, parse: Rounds, cp: nat, t: Positions, k: nat) returns (cp': nat)
    requires Follows(s, parse) && Printable(t) && 0 < k < |t| && Reads(s, cp, Ended(t[k - 1], Rest(t, k)))
    ensures Reads(s, cp', Ended(t[k], Rest(t, k + 1)))
    ensures parse(cp, CountAfter(t[k - 1]), t[..k]) == parse(cp', CountAfter(t[k]), t[..k + 1])
  {
    PlainPosition(t, k);
    GapIs(t, k);
    cp' := ParsePosition(s, parse, cp, CountAfter(t[k - 1]), false, |t[k - 1]| > 1, t[k], Rest(t, k + 1), t[..k]);
    TakeMore(t, k);
  }

  lemma {:induction false} ParsePositions(s: string, parse: Rounds, cp: nat, t: Positions, k: nat)
    requires Follows(s, parse) && Ends(s, parse) && Printable(t) && 0 < k <= |t| && Reads(s, cp, Ended(t[k - 1], Rest(t, k)))
    ensures parse(cp, CountAfter(t[k - 1]), t[..k]) == Some(t)
    decreases |t| - k
  {
    if k == |t| {
      assert t[..k] == t;
      AtTheEnd(s, parse, cp, CountAfter(t[k - 1]), t[k - 1], t);
    } else {
      var cp' := NextPosition(s, parse, cp, t, k);
      ParsePositions(s, parse, cp', t, k + 1);
    }
  }

  ghost function ParserOf(s: string): Rounds {
    (cp: nat, multiple: nat, all: Positions) => if cp <= |s| then ParseFrom(s, cp, multiple, all) else None
  }

  lemma ParserAt(s: string, cp: nat, multiple: nat, all: Positions)
    requires cp <= |s|
    ensures ParserOf(s)(cp, multiple, all) == ParseFrom(s, cp, multiple, all)
  {
  }

  lemma ParserRound(s: string, cp: nat, multiple: nat, f: Found, k: nat, w: string, all: Positions)
    requires Leads(s, cp, multiple, f) && f.at < |s| && k == TokenEnd(s, f.at) && w == s[f.at..k]
    ensures ParserOf(s)(cp, multiple, all) == ParserOf(s)(k, Count(f), AddToken(all, f.multiple, w))
  {
    ParserAt(s, cp, multiple, all);
    ParserAt(s, k, Count(f), AddToken(all, f.multiple, w));
    OneRound(s, cp, multiple, f, k, w, all);
  }

  lemma ParserFollows(s: string)
    ensures Follows(s, ParserOf(s))
  {
    forall cp, multiple, f, w, rest, all | Round(s, cp, multiple, f, w, rest)
      ensures ParserOf(s)(cp, multiple, all) == ParserOf(s)(f.at + |w|, Count(f), AddToken(all, f.multiple, w))
    {
      TokenReads(s, f.at, w, rest);
      ParserRound(s, cp, multiple, f, f.at + |w|, w, all);
    }
  }

  lemma ParserEnds(s: string)
    ensures Ends(s, ParserOf(s)) && ParserOf(s)(0, 0, []) == Parse(s)
  {
    forall cp, multiple, all | Reads(s, cp, "") || Reads(s, cp, ")") ensures ParserOf(s)(cp, multiple, all) == Some(all) {
      EndReads(s, cp, multiple, Reads(s, cp, ")"), all);
    }
  }

  lemma FollowPrint(t: Positions, s: string, parse: Rounds)
    requires Printable(t) && s == Print(t) && Follows(s, parse) && Ends(s, parse)
    ensures parse(0, 0, []) == Some(t)
  {
    if |t| == 0 {
      assert Reads(s, 0, "");
    } else {
      PrintIs(t, 0);
      assert t[0..] == t;
      PositionIs(t[0], Rest(t, 1));
      assert Reads(s, 0, Gap(true, false, |t[0]| > 1) + (t[0][0] + (BarTail(t[0], 1) + Ended(t[0], Rest(t, 1)))));
      PlainPosition(t, 0);
      var cp := ParsePosition(s, parse, 0, 0, true, false, t[0], Rest(t, 1), []);
      assert [] + [t[0]] == t[..1];
      ParsePositions(s, parse, cp, t, 1);
    }
  }

  /** The parser inverts the printer. */
  lemma ParsePrint(t: Positions)
    requires Printable(t)
    ensures Parse(Print(t)) == Some(t)
  {
    ParserFollows(Print(t));
    ParserEnds(Print(t));
    FollowPrint(t, Print(t), ParserOf(Print(t)));
  }

  // ---- Strings without parentheses ----

  lemma NoParenLead(s: string, cp: nat)
    requires cp <= |s| && '(' !in s && ')' !in s
    ensures var i := Tokenizer.SpaceEnd(s, cp);
            if i < |s| && s[i] == '|' then Lead(s, cp, 0).Bad? else Lead(s, cp, 0) == Token(i, 0)
  {
    var i := Tokenizer.SpaceEnd(s, cp);
    Tokenizer.SpaceEndIs(s, cp);
    Tokenizer.SpaceEndUnique(s, i, i);
  }

  /** Without parentheses a bar anywhere is the parse error, and otherwise every word is a position. */
  lemma {:induction false} NoParens(s: string, cp: nat, all: Positions)
    requires cp <= |s| && '(' !in s && ')' !in s
    ensures ParseFrom(s, cp, 0, all) == PlainFrom(s, cp, all)
    decreases |s| - cp
  {
    var i := Tokenizer.SpaceEnd(s, cp);
    NoParenLead(s, cp);
    Tokenizer.SpaceEndIs(s, cp);
    assert forall j :: cp <= j < i ==> s[j] != '|';
    BarBehind(s, cp, i);
    if i == |s| {
      assert all + Singles([]) == all;
    } else if s[i] == '|' {
      assert s[i] == s[i..][0];
    } else {
      var k := TokenEnd(s, i);
      RoundAdvances(s, i, 0);
      TokenEndIs(s, i);
      BarBehind(s, i, k);
      NoParens(s, k, all + [[s[i..k]]]);
      if '|' !in s[i..] {
        TokenIsWord(s, i, k);
        SinglesFirst(all, s[i..k], Tokenizer.WordsFrom(s, Tokenizer.SpaceEnd(s, k)));
      }
    }
  }

  /** What is expected from the cursor on. */
  function PlainFrom(s: string, cp: nat, all: Positions): Option<Positions>
    requires cp <= |s|
  {
    if '|' in s[cp..] then None else Some(all + Singles(Tokenizer.WordsFrom(s, Tokenizer.SpaceEnd(s, cp))))
  }

  lemma BarBehind(s: string, i: nat, k: nat)
    requires i <= k <= |s| && forall j :: i <= j < k ==> s[j] != '|'
    ensures '|' in s[i..] <==> '|' in s[k..]
  {
    assert forall j :: i <= j < |s| ==> s[j] == s[i..][j - i];
    assert forall j :: k <= j < |s| ==> s[j] == s[k..][j - k];
  }

  lemma {:induction false} TokenEndIs(s: string, i: nat)
    requires i <= |s|
    ensures var k := TokenEnd(s, i); (forall j :: i <= j < k ==> !Stops(s[j])) && (k < |s| ==> Stops(s[k]))
    decreases |s| - i
  {
    if i < |s| && !Stops(s[i]) { TokenEndIs(s, i + 1); }
  }

  lemma TokenIsWord(s: string, i: nat, k: nat)
    requires i < |s| && ')' !in s && '|' !in s[i..] && !IsSpace(s[i]) && k == TokenEnd(s, i)
    ensures k == Tokenizer.WordEnd(s, i) && i < k
    ensures Tokenizer.WordsFrom(s, i) == [s[i..k]] + Tokenizer.WordsFrom(s, Tokenizer.SpaceEnd(s, k))
  {
    TokenEndIs(s, i);
    if k < |s| { assert s[k] == s[i..][k - i] && s[k] in s; }
    Tokenizer.WordEndUnique(s, i, k);
  }

  lemma SinglesFirst(all: Positions, w: string, ws: seq<string>)
    ensures (all + [[w]]) + Singles(ws) == all + Singles([w] + ws)
  {
    assert ([w] + ws)[1..] == ws;
  }

  function Singles(ws: seq<string>): Positions {
    if |ws| == 0 then [] else [[ws[0]]] + Singles(ws[1..])
  }

  /** A string without parentheses is refused exactly if it holds a bar; otherwise its words are its positions. */
  lemma PlainStringParses(s: string)
    requires '(' !in s && ')' !in s
    ensures Parse(s) == if '|' in s then None else Some(Singles(Tokenizer.WordsFrom(s, Tokenizer.SpaceEnd(s, 0))))
  {
    NoParens(s, 0, []);
    assert s[0..] == s;
    var found := Singles(Tokenizer.WordsFrom(s, Tokenizer.SpaceEnd(s, 0)));
    assert [] + found == found;
  }
}
