/** The executors of command.c as they run: a copy of the node's command vector whose slots are set to
    NULL word by word, the ambiguity scan, and the argv loop. Each method is proved against Matching. */
module Executor {
  import opened CText
  import opened Sequences
  import opened Matching
  import Ipv4

  /** The commands still in the slots of a vector. */
  function Alive(slots: seq<Option<Element>>): seq<Element> {
    if |slots| == 0 then []
    else
      var k := |slots| - 1;
      Alive(slots[..k]) + (if slots[k].Some? then [slots[k].value] else [])
  }

  lemma AliveSnoc(slots: seq<Option<Element>>, x: Option<Element>)
    ensures Alive(slots + [x]) == Alive(slots) + (if x.Some? then [x.value] else [])
  {
    assert (slots + [x])[..|slots|] == slots;
  }

  lemma {:induction false} AliveMember(slots: seq<Option<Element>>, c: Element)
    ensures c in Alive(slots) <==> Some(c) in slots
  {
    if |slots| > 0 {
      var k := |slots| - 1;
      AliveMember(slots[..k], c);
      assert slots == slots[..k] + [slots[k]];
    }
  }

  lemma KeepSnoc<T>(s: seq<T>, x: T, p: T -> bool)
    ensures Keep(s + [x], p) == Keep(s, p) + (if p(x) then [x] else [])
  {
    assert (s + [x])[..|s|] == s;
  }

  lemma FilterTypeSnoc(mode: Mode, m: Matchers, s: seq<Element>, c: Element, word: string, index: nat)
    ensures FilterType(mode, m, s + [c], word, index) == Max(FilterType(mode, m, s, word, index), ElementMatch(mode, m, c, word, index))
  {
    assert (s + [c])[..|s|] == s;
  }

  lemma PositionSnoc(mode: Mode, m: Matchers, descs: seq<string>, j: nat, word: string)
    requires j < |descs|
    ensures PositionMatch(mode, m, descs[..j + 1], word) == Max(PositionMatch(mode, m, descs[..j], word), DescMatch(mode, m, descs[j], word))
  {
    assert descs[..j + 1][..j] == descs[..j];
  }

  /** The alternatives of one position: the running match_type and the matched counter. */
  method MatchPosition(mode: Mode, m: Matchers, descs: seq<string>, command: string, start: MatchType) returns (t: MatchType, matched: nat)
    ensures t == Max(start, PositionMatch(mode, m, descs, command))
    ensures matched > 0 <==> PositionMatch(mode, m, descs, command) != NO_MATCH
  {
    t, matched := start, 0;
    for j := 0 to |descs|
      invariant t == Max(start, PositionMatch(mode, m, descs[..j], command))
      invariant matched > 0 <==> PositionMatch(mode, m, descs[..j], command) != NO_MATCH
    {
      PositionSnoc(mode, m, descs, j, command);
      var d := DescMatch(mode, m, descs[j], command);
      if d != NO_MATCH {
        if t < d { t := d; }
        matched := matched + 1;
      }
    }
    assert descs[..|descs|] == descs;
  }

  /** A slot that survives a predicate, or NULL. */
  function Slot(x: Option<Element>, p: Element -> bool): Option<Element> {
    if x.Some? && p(x.value) then x else None
  }

  /** Clearing slot by slot filters the commands of the vector. */
  lemma {:induction false} ClearedSlotsKeep(was: seq<Option<Element>>, now: seq<Option<Element>>, p: Element -> bool)
    requires |was| == |now| && forall i :: 0 <= i < |was| ==> now[i] == Slot(was[i], p)
    ensures Alive(now) == Keep(Alive(was), p)
  {
    if |was| > 0 {
      var k := |was| - 1;
      ClearedSlotsKeep(was[..k], now[..k], p);
      assert now[k] == Slot(was[k], p);
      if was[k].Some? {
        KeepSnoc(Alive(was[..k]), was[k].value, p);
      } else {
        assert Alive(was) == Alive(was[..k]) && Alive(now) == Alive(now[..k]);
      }
    }
  }

  /** One slot of the filter: the slot's new value and the running match_type. */
  method FilterSlot(mode: Mode, m: Matchers, command: string, x: Option<Element>, index: nat, start: MatchType) returns (y: Option<Element>, t: MatchType)
    ensures y == if x.Some? && ElementMatch(mode, m, x.value, command, index) != NO_MATCH then x else None
    ensures t == if x.Some? then Max(start, ElementMatch(mode, m, x.value, command, index)) else start
  {
    y, t := x, start;
    if x.Some? {
      if index >= |x.value.strvec| {
        y := None;
      } else {
        var matched;
        t, matched := MatchPosition(mode, m, x.value.strvec[index], command, start);
        if matched == 0 {
          y := None;
        }
      }
    }
  }

  lemma FilterTypeSlot(mode: Mode, m: Matchers, slots: seq<Option<Element>>, i: nat, word: string, index: nat)
    requires i < |slots|
    ensures FilterType(mode, m, Alive(slots[..i + 1]), word, index) ==
            if slots[i].Some? then Max(FilterType(mode, m, Alive(slots[..i]), word, index), ElementMatch(mode, m, slots[i].value, word, index))
            else FilterType(mode, m, Alive(slots[..i]), word, index)
  {
    assert slots[..i + 1] == slots[..i] + [slots[i]];
    AliveSnoc(slots[..i], slots[i]);
    if slots[i].Some? {
      FilterTypeSnoc(mode, m, Alive(slots[..i]), slots[i].value, word, index);
    } else {
      assert Alive(slots[..i + 1]) == Alive(slots[..i]);
    }
  }

  /** cmd_filter_by_completion (Completing) and cmd_filter_by_string (Strict). */
  method FilterVector(mode: Mode, m: Matchers, command: string, v: array<Option<Element>>, index: nat) returns (match_type: MatchType)
    modifies v
    ensures match_type == FilterType(mode, m, Alive(old(v[..])), command, index)
    ensures Alive(v[..]) == FilterKeep(mode, m, Alive(old(v[..])), command, index)
  {
    ghost var was := v[..];
    match_type := NO_MATCH;
    for i := 0 to v.Length
      invariant forall j :: i <= j < v.Length ==> v[j] == was[j]
      invariant forall j :: 0 <= j < i ==> v[j] == if was[j].Some? && ElementMatch(mode, m, was[j].value, command, index) != NO_MATCH then was[j] else None
      invariant match_type == FilterType(mode, m, Alive(was[..i]), command, index)
    {
      var y;
      y, match_type := FilterSlot(mode, m, command, v[i], index, match_type);
      v[i] := y;
      FilterTypeSlot(mode, m, was, i, command, index);
    }
    assert was[..v.Length] == was;
    ClearedSlotsKeep(was, v[..], c => ElementMatch(mode, m, c, command, index) != NO_MATCH);
  }

  /** Everything the ambiguity scan looks at: the alternatives at the position, command by command. */
  ghost function Scanned(cmds: seq<Element>, index: nat): seq<string> {
    if |cmds| == 0 then []
    else
      var k := |cmds| - 1;
      Scanned(cmds[..k], index) + (if index < |cmds[k].strvec| then cmds[k].strvec[index] else [])
  }

  lemma {:induction false} ScannedIsOffered(cmds: seq<Element>, index: nat, s: string)
    ensures s in Scanned(cmds, index) <==> Offered(cmds, index, s)
  {
    if |cmds| > 0 {
      var k := |cmds| - 1;
      ScannedIsOffered(cmds[..k], index, s);
      assert cmds == cmds[..k] + [cmds[k]];
      if Offered(cmds, index, s) {
        var c :| c in cmds && index < |c.strvec| && s in c.strvec[index];
        assert c == cmds[k] || c in cmds[..k];
      }
    }
  }

  /** What the scan knows: all hits so far are the string in matched. */
  ghost predicate AllHitsAre(m: Matchers, t: MatchType, command: string, seen: seq<string>, matched: Option<string>) {
    t == PARTLY_MATCH || t == RANGE_MATCH ==>
      && (matched.Some? ==> matched.value in seen && Hits(m, t, matched.value, command))
      && (forall s :: s in seen && Hits(m, t, s, command) ==> matched == Some(s))
  }

  ghost predicate TwoHits(m: Matchers, t: MatchType, command: string, seen: seq<string>) {
    && (t == PARTLY_MATCH || t == RANGE_MATCH)
    && exists s, s' :: s in seen && s' in seen && s != s' && Hits(m, t, s, command) && Hits(m, t, s', command)
  }

  predicate Unfinished(m: Matchers, t: MatchType, command: string) {
    t == IPV4_PREFIX_MATCH && m.ipv4Prefix(command).Partly?
  }

  /** One command of the ambiguity scan. ret is 0, 1 (ambiguous) or 2 (incomplete). */
  method ScanPosition(m: Matchers, t: MatchType, descs: seq<string>, command: string, start: Option<string>, ghost seen: seq<string>)
    returns (ret: nat, matched: Option<string>, hit: bool)
    requires AllHitsAre(m, t, command, seen, start)
    ensures ret <= 2
    ensures ret == 0 ==> AllHitsAre(m, t, command, seen + descs, matched) && (hit <==> PositionHit(m, t, descs, command))
    ensures ret == 0 ==> !(Unfinished(m, t, command) && |descs| > 0)
    ensures ret == 1 ==> TwoHits(m, t, command, seen + descs)
    ensures ret == 2 ==> Unfinished(m, t, command) && |descs| > 0
  {
    ret, matched, hit := 0, start, false;
    assert seen + descs[..0] == seen;
    for j := 0 to |descs|
      invariant ret == 0
      invariant AllHitsAre(m, t, command, seen + descs[..j], matched)
      invariant hit <==> PositionHit(m, t, descs[..j], command)
      invariant j > 0 ==> !Unfinished(m, t, command)
    {
      var str := descs[j];
      assert descs[..j + 1] == descs[..j] + [str];
      if t == IPV4_PREFIX_MATCH && m.ipv4Prefix(command).Partly? {
        ret := 2;
        return;
      }
      if Hits(m, t, str, command) {
        if t == PARTLY_MATCH || t == RANGE_MATCH {
          if matched.Some? && matched.value != str {
            ret := 1;
            assert str in descs;
            return;
          }
          matched := Some(str);
        }
        hit := true;
      }
    }
    assert descs[..|descs|] == descs;
  }

  lemma ScanVerdict(m: Matchers, t: MatchType, cmds: seq<Element>, command: string, index: nat)
    ensures TwoHits(m, t, command, Scanned(cmds, index)) <==> Ambiguous(m, t, cmds, command, index)
    ensures Unfinished(m, t, command) && |Scanned(cmds, index)| > 0 <==> Incomplete(m, t, cmds, command, index)
  {
    forall s ensures s in Scanned(cmds, index) <==> Offered(cmds, index, s) {
      ScannedIsOffered(cmds, index, s);
    }
    if |Scanned(cmds, index)| > 0 {
      assert Scanned(cmds, index)[0] in Scanned(cmds, index);
    }
  }

  lemma {:induction false} ScannedPrefix(slots: seq<Option<Element>>, i: nat, index: nat)
    requires i <= |slots|
    ensures Scanned(Alive(slots[..i]), index) <= Scanned(Alive(slots), index)
    decreases |slots|
  {
    if i == |slots| {
      assert slots[..i] == slots;
    } else {
      var k := |slots| - 1;
      assert slots[..k][..i] == slots[..i];
      ScannedPrefix(slots[..k], i, index);
      ScannedStep(slots, k, index);
      assert slots[..k + 1] == slots;
    }
  }

  lemma ScannedStep(slots: seq<Option<Element>>, i: nat, index: nat)
    requires i < |slots|
    ensures Scanned(Alive(slots[..i + 1]), index) ==
            Scanned(Alive(slots[..i]), index) + (if slots[i].Some? && index < |slots[i].value.strvec| then slots[i].value.strvec[index] else [])
  {
    assert slots[..i + 1] == slots[..i] + [slots[i]];
    AliveSnoc(slots[..i], slots[i]);
    if slots[i].Some? {
      var a := Alive(slots[..i]);
      assert (a + [slots[i].value])[..|a|] == a;
    } else {
      assert Alive(slots[..i + 1]) == Alive(slots[..i]);
      assert Scanned(Alive(slots[..i]), index) + [] == Scanned(Alive(slots[..i]), index);
    }
  }

  lemma TwoHitsMonotone(m: Matchers, t: MatchType, command: string, a: seq<string>, b: seq<string>)
    requires a <= b && TwoHits(m, t, command, a)
    ensures TwoHits(m, t, command, b)
  {
    assert forall s :: s in a ==> s in b;
  }

  /** One slot of the ambiguity scan. */
  method ScanSlot(m: Matchers, t: MatchType, x: Option<Element>, command: string, index: nat, start: Option<string>, ghost was: seq<Option<Element>>, ghost i: nat)
    returns (ret: nat, matched: Option<string>, y: Option<Element>)
    requires i < |was| && was[i] == x && (x.Some? ==> index < |x.value.strvec|)
    requires AllHitsAre(m, t, command, Scanned(Alive(was[..i]), index), start)
    requires !(Unfinished(m, t, command) && |Scanned(Alive(was[..i]), index)| > 0)
    ensures ret <= 2
    ensures ret == 0 ==> AllHitsAre(m, t, command, Scanned(Alive(was[..i + 1]), index), matched)
    ensures ret == 0 ==> !(Unfinished(m, t, command) && |Scanned(Alive(was[..i + 1]), index)| > 0)
    ensures ret == 0 ==> y == if x.Some? && ElementHit(m, t, x.value, command, index) then x else None
    ensures ret == 1 ==> TwoHits(m, t, command, Scanned(Alive(was), index))
    ensures ret == 2 ==> Unfinished(m, t, command) && |Scanned(Alive(was), index)| > 0
  {
    ret, matched, y := 0, start, x;
    ScannedStep(was, i, index);
    ScannedPrefix(was, i + 1, index);
    if x.Some? {
      var hit;
      ret, matched, hit := ScanPosition(m, t, x.value.strvec[index], command, start, Scanned(Alive(was[..i]), index));
      if ret == 1 {
        TwoHitsMonotone(m, t, command, Scanned(Alive(was[..i + 1]), index), Scanned(Alive(was), index));
      }
      if !hit {
        y := None;
      }
    }
  }

  /** is_cmd_ambiguous: narrows the vector to the commands hit by the best match type, or reports an
      ambiguous (1) or incomplete (2) word. */
  method IsCmdAmbiguous(m: Matchers, command: string, v: array<Option<Element>>, index: nat, t: MatchType) returns (ret: nat)
    requires forall i :: 0 <= i < v.Length && v[i].Some? ==> index < |v[i].value.strvec|
    modifies v
    ensures ret <= 2
    ensures ret == 1 <==> Ambiguous(m, t, Alive(old(v[..])), command, index)
    ensures ret == 2 <==> Incomplete(m, t, Alive(old(v[..])), command, index)
    ensures ret == 0 ==> Alive(v[..]) == HitKeep(m, t, Alive(old(v[..])), command, index)
  {
    ghost var was := v[..];
    ScanVerdict(m, t, Alive(was), command, index);
    var matched: Option<string> := None;
    for i := 0 to v.Length
      invariant forall j :: i <= j < v.Length ==> v[j] == was[j]
      invariant forall j :: 0 <= j < i ==> v[j] == if was[j].Some? && ElementHit(m, t, was[j].value, command, index) then was[j] else None
      invariant AllHitsAre(m, t, command, Scanned(Alive(was[..i]), index), matched)
      invariant !(Unfinished(m, t, command) && |Scanned(Alive(was[..i]), index)| > 0)
    {
      var y;
      ret, matched, y := ScanSlot(m, t, v[i], command, index, matched, was, i);
      if ret != 0 {
        return;
      }
      v[i] := y;
    }
    assert was[..v.Length] == was;
    ret := 0;
    NoTwoHits(m, t, command, Scanned(Alive(was), index), matched);
    ClearedSlotsKeep(was, v[..], c => ElementHit(m, t, c, command, index));
  }

  lemma NoTwoHits(m: Matchers, t: MatchType, command: string, seen: seq<string>, matched: Option<string>)
    requires AllHitsAre(m, t, command, seen, matched)
    ensures !TwoHits(m, t, command, seen)
  {
  }

  // ---- The argv loop ----

  /** Words that reach the argv loop stay inside the template until a vararg takes the rest. */
  ghost predicate ArgvInRange(strvec: seq<seq<string>>, n: nat) {
    WellFormed(strvec) && (n <= |strvec| || (|strvec| > 0 && IsVararg(strvec[|strvec| - 1][0])))
  }

  lemma ArgsSnoc(strvec: seq<seq<string>>, words: seq<string>, i: nat)
    requires i < |words|
    ensures Args(strvec, words[..i + 1]) == Args(strvec, words[..i]) + (if Passed(strvec, i) then [words[i]] else [])
  {
    assert words[..i + 1][..i] == words[..i];
  }

  lemma {:induction false} ArgsGrow(strvec: seq<seq<string>>, words: seq<string>, i: nat)
    requires i <= |words|
    ensures |Args(strvec, words[..i])| <= |Args(strvec, words)|
    decreases |words|
  {
    if i == |words| {
      assert words[..i] == words;
    } else {
      assert words[..|words| - 1][..i] == words[..i];
      ArgsGrow(strvec, words[..|words| - 1], i);
    }
  }

  /** Collect the arguments of the matched command; None when CMD_ARGC_MAX is reached. */
  method CollectArgs(strvec: seq<seq<string>>, vline: seq<string>) returns (argv: Option<seq<string>>)
    requires ArgvInRange(strvec, |vline|)
    ensures argv == if |Args(strvec, vline)| >= CMD_ARGC_MAX then None else Some(Args(strvec, vline))
  {
    var acc: seq<string> := [];
    var varflag := false;
    for i := 0 to |vline|
      invariant acc == Args(strvec, vline[..i]) && |acc| < CMD_ARGC_MAX
      invariant varflag <==> 0 < |strvec| <= i && IsVararg(strvec[|strvec| - 1][0])
    {
      ArgsSnoc(strvec, vline, i);
      ArgsGrow(strvec, vline, i + 1);
      if varflag {
        acc := acc + [vline[i]];
      } else {
        var descvec := strvec[i];
        if |descvec| == 1 {
          var str := descvec[0];
          if IsVararg(str) {
            varflag := true;
          }
          if varflag || IsVariable(str) || IsOption(str) {
            acc := acc + [vline[i]];
          }
        } else {
          acc := acc + [vline[i]];
        }
        assert IsVararg(descvec[0]) ==> |descvec| == 1 && i == |strvec| - 1 by { assert descvec[0] in descvec; }
      }
      if |acc| >= CMD_ARGC_MAX {
        return None;
      }
    }
    assert vline[..|vline|] == vline;
    return Some(acc);
  }

  // ---- The executor ----

  ghost predicate WellFormedVector(cmds: seq<Element>) {
    forall c :: c in cmds ==> WellFormed(c.strvec)
  }

  lemma NextIsSubset(mode: Mode, m: Matchers, cmds: seq<Element>, word: string, index: nat, c: Element)
    requires Narrow1(mode, m, cmds, word, index).Next? && c in Narrow1(mode, m, cmds, word, index).cmds
    ensures c in cmds && index < |c.strvec|
  {
    var t := FilterType(mode, m, cmds, word, index);
    KeepMember(FilterKeep(mode, m, cmds, word, index), c => ElementHit(m, t, c, word, index), c);
    KeepMember(cmds, c => ElementMatch(mode, m, c, word, index) != NO_MATCH, c);
  }

  /** A vararg match that leaves one command leaves one whose last position is the vararg reached. */
  lemma LoneVararg(mode: Mode, m: Matchers, cmds: seq<Element>, word: string, index: nat, c: Element)
    requires WellFormedVector(cmds) && FilterType(mode, m, cmds, word, index) == VARARG_MATCH
    requires FilterKeep(mode, m, cmds, word, index) == [c]
    ensures c in cmds && |c.strvec| > 0 && IsVararg(c.strvec[|c.strvec| - 1][0])
  {
    var d := FilterTypeAttained(mode, m, cmds, word, index);
    KeepMember(cmds, c => ElementMatch(mode, m, c, word, index) != NO_MATCH, d);
    assert d == c;
    assert WellFormed(c.strvec);
    VarargIsLast(mode, m, c, word, index);
  }

  lemma VarargIsLast(mode: Mode, m: Matchers, c: Element, word: string, index: nat)
    requires WellFormed(c.strvec) && ElementMatch(mode, m, c, word, index) == VARARG_MATCH
    ensures |c.strvec| > 0 && |c.strvec[|c.strvec| - 1]| > 0 && IsVararg(c.strvec[|c.strvec| - 1][0])
  {
    var descs := c.strvec[index];
    var s := PositionMatchAttained(mode, m, descs, word);
    VarargOnly(mode, m, s, word);
  }

  lemma VarargOnly(mode: Mode, m: Matchers, s: string, word: string)
    requires DescMatch(mode, m, s, word) == VARARG_MATCH
    ensures IsVararg(s)
  {
  }

  lemma {:induction false} KeepAll<T>(s: seq<T>, p: T -> bool)
    requires forall x :: p(x)
    ensures Keep(s, p) == s
  {
    if |s| > 0 {
      KeepAll(s[..|s| - 1], p);
    }
  }

  /** One round of the narrowing: it ends at a vararg or a refused word, or goes on with commands that reach further. */
  lemma NarrowStep(mode: Mode, m: Matchers, cmds: seq<Element>, words: seq<string>, index: nat, last: MatchType)
    returns (stop: bool, rest: seq<Element>, t: MatchType)
    requires index < |words| && WellFormedVector(cmds)
    ensures var n := Narrow(mode, m, cmds, words, index, last);
      if stop then
        n.Left? ==> FilterType(mode, m, cmds, words[index], index) == VARARG_MATCH
                    && n == Left(FilterKeep(mode, m, cmds, words[index], index), index, VARARG_MATCH)
      else
        n == Narrow(mode, m, rest, words, index + 1, t) && t != VARARG_MATCH
        && WellFormedVector(rest) && forall d :: d in rest ==> index < |d.strvec|
  {
    var r := Narrow1(mode, m, cmds, words[index], index);
    stop, rest, t := r.Stop?, [], NO_MATCH;
    if r.Next? {
      rest, t := r.cmds, r.t;
      SubsetReaches(mode, m, cmds, words[index], index);
    }
  }

  /** The argv loop of the chosen command never leaves its template. */
  lemma {:induction false} ChosenInRange(mode: Mode, m: Matchers, cmds: seq<Element>, words: seq<string>, index: nat, last: MatchType, c: Element)
    requires index <= |words| && WellFormedVector(cmds) && last != VARARG_MATCH
    requires forall d :: d in cmds ==> index <= |d.strvec|
    requires var n := Narrow(mode, m, cmds, words, index, last); n.Left? && CompleteOnly(n.cmds, n.index, n.last) == [c]
    ensures ArgvInRange(c.strvec, |words|)
    decreases |words| - index
  {
    if index == |words| {
      LastInRange(cmds, index, last, c);
    } else {
      var stop, rest, t := NarrowStep(mode, m, cmds, words, index, last);
      if stop {
        VarargChosen(mode, m, cmds, words[index], index, c);
      } else {
        ChosenInRange(mode, m, rest, words, index + 1, t, c);
      }
    }
  }

  lemma LastInRange(cmds: seq<Element>, index: nat, last: MatchType, c: Element)
    requires WellFormedVector(cmds) && CompleteOnly(cmds, index, last) == [c] && forall d :: d in cmds ==> index <= |d.strvec|
    ensures ArgvInRange(c.strvec, index)
  {
    KeepMember(cmds, d => Complete(d, index, last), c);
  }

  lemma VarargChosen(mode: Mode, m: Matchers, cmds: seq<Element>, w: string, index: nat, c: Element)
    requires WellFormedVector(cmds) && FilterType(mode, m, cmds, w, index) == VARARG_MATCH
    requires CompleteOnly(FilterKeep(mode, m, cmds, w, index), index, VARARG_MATCH) == [c]
    ensures forall n :: ArgvInRange(c.strvec, n)
  {
    KeepAll(FilterKeep(mode, m, cmds, w, index), d => Complete(d, index, VARARG_MATCH));
    LoneVararg(mode, m, cmds, w, index, c);
  }

  lemma SubsetReaches(mode: Mode, m: Matchers, cmds: seq<Element>, w: string, index: nat)
    requires WellFormedVector(cmds) && Narrow1(mode, m, cmds, w, index).Next?
    ensures var rest := Narrow1(mode, m, cmds, w, index).cmds; WellFormedVector(rest) && forall d :: d in rest ==> index < |d.strvec|
  {
    forall d | d in Narrow1(mode, m, cmds, w, index).cmds ensures d in cmds && index < |d.strvec| {
      NextIsSubset(mode, m, cmds, w, index, d);
    }
  }

  lemma FilteredReach(mode: Mode, m: Matchers, slots: seq<Option<Element>>, cmds: seq<Element>, word: string, index: nat)
    requires Alive(slots) == FilterKeep(mode, m, cmds, word, index)
    ensures forall i :: 0 <= i < |slots| && slots[i].Some? ==> index < |slots[i].value.strvec|
  {
    forall i | 0 <= i < |slots| && slots[i].Some? ensures index < |slots[i].value.strvec| {
      AliveMember(slots, slots[i].value);
      KeepMember(cmds, c => ElementMatch(mode, m, c, word, index) != NO_MATCH, slots[i].value);
    }
  }

  lemma CompleteStep(slots: seq<Option<Element>>, i: nat, index: nat, last: MatchType)
    requires i < |slots|
    ensures CompleteOnly(Alive(slots[..i + 1]), index, last) == CompleteOnly(Alive(slots[..i]), index, last)
            + (if slots[i].Some? && Complete(slots[i].value, index, last) then [slots[i].value] else [])
    ensures |Alive(slots[..i + 1])| == |Alive(slots[..i])| + (if slots[i].Some? then 1 else 0)
  {
    assert slots[..i + 1] == slots[..i] + [slots[i]];
    AliveSnoc(slots[..i], slots[i]);
    if slots[i].Some? {
      KeepSnoc(Alive(slots[..i]), slots[i].value, c => Complete(c, index, last));
    } else {
      assert Alive(slots[..i + 1]) == Alive(slots[..i]);
    }
  }

  /** Count the commands that are complete and those that are not; keep the last complete one. */
  method CountMatches(v: array<Option<Element>>, index: nat, last: MatchType) returns (matched: nat, incomplete: nat, element: Option<Element>)
    ensures var whole := CompleteOnly(Alive(v[..]), index, last);
            && matched == |whole|
            && matched + incomplete == |Alive(v[..])|
            && element == if |whole| == 0 then None else Some(whole[|whole| - 1])
  {
    matched, incomplete, element := 0, 0, None;
    ghost var slots := v[..];
    for i := 0 to v.Length
      invariant var whole := CompleteOnly(Alive(slots[..i]), index, last);
                && matched == |whole|
                && matched + incomplete == |Alive(slots[..i])|
                && element == if |whole| == 0 then None else Some(whole[|whole| - 1])
    {
      CompleteStep(slots, i, index, last);
      assert v[i] == slots[i];
      if v[i].Some? {
        if last == VARARG_MATCH || index >= CmdSize(v[i].value.strvec) {
          element := v[i];
          matched := matched + 1;
        } else {
          incomplete := incomplete + 1;
        }
      }
    }
    assert slots[..v.Length] == slots;
  }

  /** The narrowing loop over a private copy of the node's vector. ret is 1 or 2 when a word was refused. */
  method NarrowVector(mode: Mode, m: Matchers, v: array<Option<Element>>, vline: seq<string>) returns (ret: nat, index: nat, match_type: MatchType)
    modifies v
    ensures ret <= 2
    ensures Narrow(mode, m, Alive(old(v[..])), vline, 0, NO_MATCH) ==
            if ret == 1 then AmbiguousWord else if ret == 2 then UnfinishedWord else Left(Alive(v[..]), index, match_type)
  {
    ret, index, match_type := 0, 0, NO_MATCH;
    while index < |vline|
      invariant index <= |vline| && ret == 0
      invariant Narrow(mode, m, Alive(v[..]), vline, index, match_type) == Narrow(mode, m, Alive(old(v[..])), vline, 0, NO_MATCH)
    {
      ghost var cmds := Alive(v[..]);
      match_type := FilterVector(mode, m, vline[index], v, index);
      if match_type == VARARG_MATCH {
        return;
      }
      FilteredReach(mode, m, v[..], cmds, vline[index], index);
      ret := IsCmdAmbiguous(m, vline[index], v, index, match_type);
      if ret != 0 {
        return;
      }
      index := index + 1;
    }
  }

  /** What is done with the commands left in the vector: exactly one complete command must remain. */
  method SelectCommand(v: array<Option<Element>>, vline: seq<string>, index: nat, match_type: MatchType) returns (r: Outcome)
    requires forall c :: CompleteOnly(Alive(v[..]), index, match_type) == [c] ==> ArgvInRange(c.strvec, |vline|)
    ensures r == Select(Left(Alive(v[..]), index, match_type), vline)
  {
    var matched, incomplete, element := CountMatches(v, index, match_type);
    if matched == 0 {
      return Refused(if incomplete > 0 then ErrIncomplete else ErrNoMatch);
    }
    if matched > 1 {
      return Refused(ErrAmbiguous);
    }
    var argv := CollectArgs(element.value.strvec, vline);
    if argv.None? {
      return Refused(ErrExceedArgcMax);
    }
    return Run(element.value.id, argv.value);
  }

  lemma SelectInRange(mode: Mode, m: Matchers, cmds: seq<Element>, words: seq<string>, n: Narrowed)
    requires WellFormedVector(cmds) && n == Narrow(mode, m, cmds, words, 0, NO_MATCH) && n.Left?
    ensures forall c :: CompleteOnly(n.cmds, n.index, n.last) == [c] ==> ArgvInRange(c.strvec, |words|)
  {
    forall c | CompleteOnly(n.cmds, n.index, n.last) == [c] ensures ArgvInRange(c.strvec, |words|) {
      ChosenInRange(mode, m, cmds, words, 0, NO_MATCH, c);
    }
  }

  /** cmd_execute_command (Completing) and cmd_execute_command_strict (Strict), up to the call of the handler. */
  method ExecuteCommand(mode: Mode, m: Matchers, node: array<Option<Element>>, vline: seq<string>) returns (r: Outcome)
    requires WellFormedVector(Alive(node[..]))
    ensures r == Execute(mode, m, Alive(node[..]), vline)
  {
    var v := new Option<Element>[node.Length](i requires 0 <= i < node.Length reads node => node[i]);
    assert v[..] == node[..];
    var ret, index, match_type := NarrowVector(mode, m, v, vline);
    if ret == 1 {
      return Refused(ErrAmbiguous);
    } else if ret == 2 {
      return Refused(ErrNoMatch);
    }
    SelectInRange(mode, m, Alive(node[..]), vline, Left(Alive(v[..]), index, match_type));
    r := SelectCommand(v, vline, index, match_type);
  }
}
