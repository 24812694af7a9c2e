/** Which arguments the handlers accept, said of what a caller writes: numbers, times, days, networks. */
module Validation {
  import opened CText
  import opened Commands
  import Ipv4
  import Reload
  import TgIndex

  // ---- Numbers ----

  lemma ShownFirst(n: nat)
    ensures FirstIsDigit(Show(n)) && Show(n) == Digits(n)
  {
    assert IsDigit(Digits(n)[0]);
  }

  /** A port is any, or a number from 1 to 65535. */
  lemma PortNumbers(n: int)
    requires -0x8000_0000 <= n < 0x8000_0000
    ensures PortOk("any") && (PortOk(Show(n)) <==> 1 <= n <= 65535)
  {
    assert "any"[0] == 'a';
    if n < 0 {
      assert Show(n)[0] == '-';
    } else {
      ShownFirst(n);
      Reload.AtoiOfShow(n);
    }
  }

  /** A Telegram ID is read exactly when it fits 64 bits. */
  lemma ParseIntOfShow(n: int)
    ensures TgIndex.ParseInt(Show(n)) == if -0x8000_0000_0000_0000 <= n <= 0x7fff_ffff_ffff_ffff then Some(n) else None
  {
    var k: nat := if n < 0 then -n else n;
    var d := Digits(k);
    Reload.DecimalOfDigits(k);
    assert IsDigit(d[0]);
    if n < 0 { assert Show(n)[1..] == d && Show(n)[0] == '-'; } else { assert Show(n) == d; }
  }

  // ---- Lists with a separator ----

  /** Parts joined by a separator. */
  function Joined(parts: seq<string>, sep: char): string {
    if |parts| == 0 then "" else if |parts| == 1 then parts[0] else parts[0] + [sep] + Joined(parts[1..], sep)
  }

  predicate Parts(parts: seq<string>, sep: char) {
    forall i :: 0 <= i < |parts| ==> |parts[i]| > 0 && sep !in parts[i]
  }

  lemma {:induction false} TokenEndAt(s: string, sep: char, i: nat, k: nat)
    requires i < k <= |s| && (forall j :: i <= j < k ==> s[j] != sep) && (k < |s| ==> s[k] == sep)
    ensures TokenEnd(s, sep, i) == k
    decreases k - i
  {
    if i + 1 < k { TokenEndAt(s, sep, i + 1, k); }
  }

  lemma PartThenMore(p: string, w: string, rest: string, sep: char)
    requires |w| > 0 && sep !in w && (rest == "" || rest[0] == sep)
    ensures var s := p + w + rest; Strtok(s, sep, |p|) == [w] + Strtok(s, sep, |p + w|)
  {
    var s := p + w + rest;
    assert forall j :: |p| <= j < |p + w| ==> s[j] == w[j - |p|];
    TokenEndAt(s, sep, |p|, |p + w|);
    assert s[|p|..|p + w|] == w;
  }

  lemma SeparatorSkipped(p: string, rest: string, sep: char)
    ensures Strtok(p + [sep] + rest, sep, |p|) == Strtok(p + [sep] + rest, sep, |p + [sep]|)
  {
  }

  lemma JoinedRegroup(p: string, w: string, sep: char, more: string)
    ensures p + (w + [sep] + more) == p + w + ([sep] + more)
    ensures p + w + ([sep] + more) == (p + w) + [sep] + more
    ensures (p + w) + [sep] + more == (p + w + [sep]) + more && |(p + w) + [sep]| == |p + w + [sep]|
  {
  }

  /** strtok takes a joined list apart again. */
  lemma {:induction false} StrtokOfJoined(p: string, parts: seq<string>, sep: char)
    requires Parts(parts, sep)
    ensures Strtok(p + Joined(parts, sep), sep, |p|) == parts
    decreases |parts|
  {
    if |parts| == 0 {
    } else if |parts| == 1 {
      assert p + Joined(parts, sep) == p + parts[0] + "";
      PartThenMore(p, parts[0], "", sep);
      assert [parts[0]] + [] == parts;
    } else {
      var more := Joined(parts[1..], sep);
      JoinedRegroup(p, parts[0], sep, more);
      PartThenMore(p, parts[0], [sep] + more, sep);
      SeparatorSkipped(p + parts[0], more, sep);
      StrtokOfJoined(p + parts[0] + [sep], parts[1..], sep);
      assert [parts[0]] + parts[1..] == parts;
    }
  }

  lemma StrtokJoined(parts: seq<string>, sep: char)
    requires Parts(parts, sep)
    ensures Strtok(Joined(parts, sep), sep, 0) == parts
  {
    StrtokOfJoined("", parts, sep);
    assert "" + Joined(parts, sep) == Joined(parts, sep);
  }

  /** Days are accepted exactly when there are at most seven of them, of three letters each. */
  lemma DayLists(days: seq<string>)
    requires Parts(days, '|') && Joined(days, '|') != "any"
    ensures DayOk(Joined(days, '|')) <==> |days| <= 7 && forall i :: 0 <= i < |days| ==> |days[i]| == 3
  {
    StrtokJoined(days, '|');
  }

  // ---- Times and networks ----

  function TwoDigits(n: nat): string
    requires n < 100
  {
    [('0' as int + n / 10) as char, ('0' as int + n % 10) as char]
  }

  lemma AtoiOfTwoDigits(n: nat)
    requires n < 100
    ensures Atoi(TwoDigits(n)) == n
  {
    var s := TwoDigits(n);
    Ipv4.DigitRunUnique(s, 2);
    assert s[..2] == s && s[..1] == [s[0]] && [s[0]][..0] == "";
    assert Ipv4.Decimal([s[0]]) == n / 10;
  }

  /** A time is accepted exactly from 00:00 to 23:59. */
  lemma Times(h: nat, mi: nat)
    requires h < 100 && mi < 100
    ensures TimeOk(TwoDigits(h) + ":" + TwoDigits(mi)) <==> h <= 23 && mi <= 59
  {
    var parts := [TwoDigits(h), TwoDigits(mi)];
    assert parts[1..] == [TwoDigits(mi)];
    assert Joined(parts, ':') == TwoDigits(h) + ":" + TwoDigits(mi);
    StrtokJoined(parts, ':');
    AtoiOfTwoDigits(h);
    AtoiOfTwoDigits(mi);
    assert |TwoDigits(h) + ":" + TwoDigits(mi)| == 5;
  }

  /** A network is accepted exactly when it begins with a digit and has at most two characters behind its slash. */
  lemma CidrTexts(a: string, b: string)
    requires '/' !in a
    ensures !CidrOk(a) && (CidrOk(a + "/" + b) <==> FirstIsDigit(a) && |b| <= 2)
  {
    var s := a + "/" + b;
    assert s[|a|] == '/' && forall i :: 0 <= i < |a| ==> s[i] == a[i] && a[i] in a;
    if |a| > 0 { assert s[0] == a[0]; }
  }

  // ---- atoi ----

  lemma DigitsThen(d: string, rest: string)
    requires (forall i :: 0 <= i < |d| ==> IsDigit(d[i])) && (rest == "" || !IsDigit(rest[0]))
    ensures Ipv4.DigitRun(d + rest) == |d| && (d + rest)[..|d|] == d
  {
    Ipv4.DigitRunUnique(d + rest, |d|);
  }

  lemma Unsigned(d: string, rest: string)
    requires |d| > 0 && (forall i :: 0 <= i < |d| ==> IsDigit(d[i])) && (rest == "" || !IsDigit(rest[0]))
    ensures Atoi(d + rest) == ToInt32(Clamp64(Ipv4.Decimal(d)))
  {
    DigitsThen(d, rest);
    assert IsDigit((d + rest)[0]);
  }

  function Negated(v: nat): int { ToInt32(Clamp64(0 - v)) }

  lemma SignedText(s: string, v: nat)
    requires |s| > 0 && Ipv4.Decimal(s[1..][..Ipv4.DigitRun(s[1..])]) == v
    ensures s[0] == '-' ==> Atoi(s) == Negated(v)
    ensures s[0] == '+' ==> Atoi(s) == ToInt32(Clamp64(v))
  {
  }

  lemma BehindSign(sign: string, d: string, rest: string, s: string)
    requires |sign| == 1 && s == sign + d + rest
    requires (forall i :: 0 <= i < |d| ==> IsDigit(d[i])) && (rest == "" || !IsDigit(rest[0]))
    ensures s[0] == sign[0] && Ipv4.Decimal(s[1..][..Ipv4.DigitRun(s[1..])]) == Ipv4.Decimal(d)
  {
    DigitsThen(d, rest);
    assert s[1..] == d + rest;
  }

  lemma SignedDigits(sign: string, d: string, rest: string)
    requires (sign == "+" || sign == "-") && (forall i :: 0 <= i < |d| ==> IsDigit(d[i])) && (rest == "" || !IsDigit(rest[0]))
    ensures Atoi(sign + d + rest) == if sign == "-" then Negated(Ipv4.Decimal(d)) else ToInt32(Clamp64(Ipv4.Decimal(d)))
  {
    var s := sign + d + rest;
    BehindSign(sign, d, rest, s);
    SignedText(s, Ipv4.Decimal(d));
  }

  /** What follows the digits is not looked at. */
  lemma AtoiStops(d: string, rest: string)
    requires |d| > 0 && (forall i :: 0 <= i < |d| ==> IsDigit(d[i])) && (rest == "" || !IsDigit(rest[0]))
    ensures Atoi(d + rest) == Atoi(d) && Atoi("+" + d + rest) == Atoi(d) && Atoi("-" + d + rest) == Atoi("-" + d)
  {
    Unsigned(d, rest);
    Unsigned(d, "");
    SignedDigits("+", d, rest);
    SignedDigits("-", d, rest);
    SignedDigits("-", d, "");
    assert d + "" == d && "-" + d + "" == "-" + d;
  }

  lemma AtoiOfShown(n: int)
    ensures Atoi(Show(n)) == ToInt32(Clamp64(n))
  {
    var k: nat := if n < 0 then -n else n;
    var d := Digits(k);
    Reload.DecimalOfDigits(k);
    if n < 0 {
      SignedDigits("-", d, "");
      assert "-" + d + "" == "-" + d;
    } else {
      Unsigned(d, "");
      assert d + "" == d;
    }
  }

  /** A number beyond 64 bits is clamped and then cut to 32 bits, which makes it -1 or 0; one beyond 32 bits wraps. */
  lemma AtoiWraps(n: int)
    ensures var r := Atoi(Show(n));
      && -0x8000_0000 <= r < 0x8000_0000
      && (n > 0x7fff_ffff_ffff_ffff ==> r == -1) && (n < -0x8000_0000_0000_0000 ==> r == 0)
      && (-0x8000_0000_0000_0000 <= n <= 0x7fff_ffff_ffff_ffff ==> (n - r) % 0x1_0000_0000 == 0)
  {
    AtoiOfShown(n);
  }
}
