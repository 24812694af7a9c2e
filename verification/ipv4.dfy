/** cmd_ipv4_match of command.c. */
module Ipv4 {
  import opened CText

  datatype Verdict = No | Partly | Exact

  /** Length of the leading run of digits. */
  function DigitRun(s: string): (n: nat)
    ensures n <= |s| && (forall i :: 0 <= i < n ==> IsDigit(s[i])) && (n < |s| ==> !IsDigit(s[n]))
  {
    if |s| == 0 || !IsDigit(s[0]) then 0 else 1 + DigitRun(s[1..])
  }

  /** atoi of a string of digits. */
  function Decimal(s: string): nat
    requires forall i :: 0 <= i < |s| ==> IsDigit(s[i])
  {
    if |s| == 0 then 0
    else
      assert IsDigit(s[|s| - 1]);
      10 * Decimal(s[..|s| - 1]) + (s[|s| - 1] as int - '0' as int)
  }

  predicate GroupOk(g: string) {
    && |g| <= 3
    && (forall i :: 0 <= i < |g| ==> IsDigit(g[i]))
    && Decimal(g) <= 255
  }

  /** The verdict on the rest of the string after `dots` separators. */
  function From(s: string, dots: nat): Verdict
    decreases |s|
  {
    var n := DigitRun(s);
    if n < |s| && s[n] == '.' then
      if dots >= 3 then No
      else if n + 1 < |s| && s[n + 1] == '.' then No
      else if n + 1 == |s| then Partly
      else if !GroupOk(s[..n]) then No
      else From(s[n + 1..], dots + 1)
    else if n < |s| then No
    else if !GroupOk(s) then No
    else if dots < 3 then Partly
    else Exact
  }

  function Match(s: string): Verdict {
    From(s, 0)
  }

  lemma DigitRunUnique(s: string, n: nat)
    requires n <= |s| && (forall i :: 0 <= i < n ==> IsDigit(s[i])) && (n < |s| ==> !IsDigit(s[n]))
    ensures DigitRun(s) == n
  {
    var r := DigitRun(s);
    assert r < |s| ==> !IsDigit(s[r]);
    assert n < |s| ==> !IsDigit(s[n]);
  }

  /** The digits of one group, from sp on. */
  method SkipDigits(str: string, sp: nat) returns (p: nat, ok: bool)
    requires sp <= |str|
    ensures sp <= p <= |str| && DigitRun(str[sp..]) == p - sp
    ensures ok <==> p == |str| || str[p] == '.'
  {
    p := sp;
    while p < |str| && str[p] != '.'
      invariant sp <= p <= |str| && forall i :: sp <= i < p ==> IsDigit(str[i])
    {
      if !IsDigit(str[p]) {
        DigitRunUnique(str[sp..], p - sp);
        return p, false;
      }
      p := p + 1;
    }
    DigitRunUnique(str[sp..], p - sp);
    ok := true;
  }

  /** One round of the loop: a verdict, or the cursor at the end of the group. */
  method Group(str: string, sp: nat, dots: nat) returns (verdict: Option<Verdict>, p: nat)
    requires sp <= |str|
    ensures sp <= p <= |str|
    ensures verdict.Some? ==> From(str[sp..], dots) == verdict.value
    ensures verdict.None? && p < |str| ==> From(str[sp..], dots) == From(str[p + 1..], dots + 1)
    ensures verdict.None? && p == |str| ==> From(str[sp..], dots) == if dots < 3 then Partly else Exact
  {
    var ok;
    p, ok := SkipDigits(str, sp);
    ghost var rest := str[sp..];
    verdict := None;
    assert str[sp..p] == rest[..p - sp];
    if !ok { return Some(No), p; }
    if p < |str| {
      if dots >= 3 { return Some(No), p; }
      if p + 1 < |str| && str[p + 1] == '.' { return Some(No), p; }
      if p + 1 == |str| { return Some(Partly), p; }
      assert rest[p - sp + 1..] == str[p + 1..];
    } else {
      assert rest[..p - sp] == rest;
    }
    if p - sp > 3 { return Some(No), p; }
    if Decimal(str[sp..p]) > 255 { return Some(No), p; }
  }

  /** The cursor loop of cmd_ipv4_match. */
  method CmdIpv4Match(str: string) returns (v: Verdict)
    ensures v == Match(str)
  {
    var p, dots, nums := 0, 0, 0;
    while true
      invariant p <= |str| && nums == dots
      invariant From(str[p..], dots) == Match(str)
      decreases |str| - p
    {
      var verdict, end := Group(str, p, dots);
      if verdict.Some? { return verdict.value; }
      nums := nums + 1;
      if end == |str| { break; }
      dots := dots + 1;
      p := end + 1;
    }
    if nums < 4 { return Partly; }
    return Exact;
  }

  // ---- What an exact address is ----

  function Dotted(groups: seq<string>): string
    requires |groups| > 0
  {
    if |groups| == 1 then groups[0] else groups[0] + "." + Dotted(groups[1..])
  }

  /** Every group is a number up to 255 in at most three digits, and only the first may be empty. */
  ghost predicate GroupsOk(groups: seq<string>) {
    && (forall i :: 0 <= i < |groups| ==> GroupOk(groups[i]))
    && (forall i :: 0 < i < |groups| ==> |groups[i]| > 0)
  }

  lemma {:induction false} ExactHasGroups(s: string, dots: nat) returns (groups: seq<string>)
    requires dots <= 3 && From(s, dots).Exact?
    ensures |groups| == 4 - dots && GroupsOk(groups) && s == Dotted(groups)
    ensures |s| > 0 && s[0] != '.' ==> |groups[0]| > 0
    decreases |s|
  {
    var n := DigitRun(s);
    if n == |s| {
      groups := [s];
    } else {
      var rest := ExactHasGroups(s[n + 1..], dots + 1);
      groups := [s[..n]] + rest;
      assert s == s[..n] + "." + s[n + 1..];
      assert groups[1..] == rest;
    }
  }

  lemma {:induction false} GroupsAreExact(groups: seq<string>, dots: nat)
    requires dots <= 3 && |groups| == 4 - dots && GroupsOk(groups)
    ensures From(Dotted(groups), dots).Exact?
    decreases |groups|
  {
    var s := Dotted(groups);
    var n := |groups[0]|;
    assert s[..n] == groups[0];
    DigitRunUnique(s, n);
    if |groups| > 1 {
      var rest := Dotted(groups[1..]);
      assert s[n + 1..] == rest;
      assert groups[1..][0] == groups[1];
      assert rest[0] == groups[1][0];
      GroupsAreExact(groups[1..], dots + 1);
    }
  }

  /** An address is complete exactly when it has four such groups; note that the first may be empty. */
  lemma ExactIffFourGroups(s: string)
    ensures Match(s).Exact? <==> exists groups :: |groups| == 4 && GroupsOk(groups) && s == Dotted(groups)
  {
    if Match(s).Exact? {
      var groups := ExactHasGroups(s, 0);
    }
    forall groups: seq<string> | |groups| == 4 && GroupsOk(groups) && s == Dotted(groups) ensures Match(s).Exact? {
      GroupsAreExact(groups, 0);
    }
  }

  // ---- What an unfinished address is ----

  /** Digits, a separator, and nothing more. */
  predicate DigitsAndDot(s: string) { |s| > 0 && s[|s| - 1] == '.' && forall i :: 0 <= i < |s| - 1 ==> IsDigit(s[i]) }

  /** The text of good groups with a separator behind each. */
  function Closed(groups: seq<string>): string {
    if |groups| == 0 then "" else groups[0] + "." + Closed(groups[1..])
  }

  /** Fewer than four good groups; or fewer than three, each closed, and then any digits with a separator at the end:
      how many and how large is not looked at. Only the first group may be empty. */
  ghost predicate Unfinished(s: string, dots: nat) {
    || (exists groups :: 0 < |groups| < 4 - dots && GroupsOk(groups) && s == Dotted(groups))
    || (exists groups, last :: EndsOpen(s, dots, groups, last))
  }

  ghost predicate EndsOpen(s: string, dots: nat, groups: seq<string>, last: string) {
    |groups| + dots < 3 && GroupsOk(groups) && DigitsAndDot(last) && (|groups| > 0 ==> last != ".") && s == Closed(groups) + last
  }

  lemma DottedOne(s: string)
    requires GroupOk(s)
    ensures GroupsOk([s]) && Dotted([s]) == s
  {
  }

  lemma {:induction false} PartlyHasGroups(s: string, dots: nat)
    requires dots <= 3 && From(s, dots).Partly?
    ensures Unfinished(s, dots)
    decreases |s|
  {
    var n := DigitRun(s);
    if n == |s| {
      DottedOne(s);
    } else if n + 1 == |s| {
      assert Closed([]) + s == s;
      assert EndsOpen(s, dots, [], s);
    } else {
      var rest := s[n + 1..];
      assert s == s[..n] + "." + rest;
      PartlyHasGroups(rest, dots + 1);
      MoreGroups(s[..n], rest, dots);
    }
  }

  lemma MoreGroups(g: string, rest: string, dots: nat)
    requires GroupOk(g) && Unfinished(rest, dots + 1) && dots < 3 && |rest| > 0 && rest[0] != '.'
    ensures Unfinished(g + "." + rest, dots)
  {
    if groups :| 0 < |groups| < 4 - (dots + 1) && GroupsOk(groups) && rest == Dotted(groups) {
      assert ([g] + groups)[1..] == groups;
      FirstGroup(groups);
      assert GroupsOk([g] + groups);
      assert Dotted([g] + groups) == g + "." + rest;
    } else {
      var groups, last :| EndsOpen(rest, dots + 1, groups, last);
      assert ([g] + groups)[1..] == groups;
      if |groups| > 0 { assert rest == groups[0] + "." + Closed(groups[1..]) + last; assert groups[0] != ""; }
      assert GroupsOk([g] + groups);
      assert Closed([g] + groups) + last == g + "." + (Closed(groups) + last);
      assert EndsOpen(g + "." + rest, dots, [g] + groups, last);
    }
  }

  lemma FirstGroup(groups: seq<string>)
    requires |groups| > 0 && |Dotted(groups)| > 0 && Dotted(groups)[0] != '.'
    ensures |groups[0]| > 0
  {
  }

  lemma {:induction false} FewGroupsArePartly(groups: seq<string>, dots: nat)
    requires 0 < |groups| < 4 - dots && GroupsOk(groups)
    ensures From(Dotted(groups), dots).Partly?
    decreases |groups|
  {
    var s := Dotted(groups);
    var n := |groups[0]|;
    assert s[..n] == groups[0];
    DigitRunUnique(s, n);
    if |groups| > 1 {
      assert s[n + 1..] == Dotted(groups[1..]);
      assert groups[1..][0] == groups[1];
      assert Dotted(groups[1..])[0] == groups[1][0];
      FewGroupsArePartly(groups[1..], dots + 1);
    }
  }

  lemma {:induction false} OpenEndIsPartly(s: string, dots: nat, groups: seq<string>, last: string)
    requires EndsOpen(s, dots, groups, last)
    ensures From(s, dots).Partly?
    decreases |groups|
  {
    if |groups| == 0 {
      assert s == last;
      DigitRunUnique(s, |s| - 1);
    } else {
      var n := |groups[0]|;
      var rest := Closed(groups[1..]) + last;
      assert s == groups[0] + "." + rest;
      assert s[..n] == groups[0] && s[n + 1..] == rest;
      DigitRunUnique(s, n);
      OpenRest(groups, last);
      OpenEndIsPartly(rest, dots + 1, groups[1..], last);
    }
  }

  lemma OpenRest(groups: seq<string>, last: string)
    requires |groups| > 0 && GroupsOk(groups) && DigitsAndDot(last) && last != "."
    ensures var rest := Closed(groups[1..]) + last; |rest| > 0 && rest[0] != '.'
  {
    if |groups| > 1 {
      assert groups[1..][0] == groups[1];
    } else {
      assert |last| > 1 && IsDigit(last[0]);
    }
  }

  /** An address is unfinished, and taken by the completing executor only, exactly in these two cases. */
  lemma PartlyIffUnfinished(s: string)
    ensures Match(s).Partly? <==> Unfinished(s, 0)
  {
    if Match(s).Partly? { PartlyHasGroups(s, 0); }
    if groups :| 0 < |groups| < 4 && GroupsOk(groups) && s == Dotted(groups) { FewGroupsArePartly(groups, 0); }
    if groups, last :| EndsOpen(s, 0, groups, last) { OpenEndIsPartly(s, 0, groups, last); }
  }
}
