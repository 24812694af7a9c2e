/** cmd_make_strvec of command.c: the words of a typed line. */
module Tokenizer {
  import opened CText

  /** Position of the first c at or after i, or the length (strchr). */
  function IndexFrom(s: string, c: char, i: nat): (k: nat)
    requires i <= |s|
    ensures i <= k <= |s|
    ensures forall j :: i <= j < k ==> s[j] != c
    ensures k < |s| ==> s[k] == c
    decreases |s| - i
  {
    if i == |s| || s[i] == c then i else IndexFrom(s, c, i + 1)
  }

  lemma IndexFromUnique(s: string, c: char, i: nat, k: nat)
    requires i <= k <= |s| && (forall j :: i <= j < k ==> s[j] != c) && (k < |s| ==> s[k] == c)
    ensures IndexFrom(s, c, i) == k
  {
    var r := IndexFrom(s, c, i);
    assert r < |s| ==> s[r] == c;
    assert k < |s| ==> s[k] == c;
  }

  /** The first quoted stretch: both quotes become spaces, the spaces between them hyphens. */
  function Unquote(s: string): (r: string)
    ensures |r| == |s|
  {
    var a := IndexFrom(s, '"', 0);
    if a == |s| then s
    else
      var b := IndexFrom(s, '"', a + 1);
      if b == |s| then s
      else seq(|s|, i requires 0 <= i < |s| =>
               if i == a || i == b then ' ' else if a < i < b && s[i] == ' ' then '-' else s[i])
  }

  /** The end of the white space that starts at i, and the end of the word that starts at i. */
  function SpaceEnd(s: string, i: nat): (k: nat)
    requires i <= |s|
    ensures i <= k <= |s|
    decreases |s| - i
  {
    if i == |s| || !IsSpace(s[i]) then i else SpaceEnd(s, i + 1)
  }

  function WordEnd(s: string, i: nat): (k: nat)
    requires i <= |s|
    ensures i <= k <= |s|
    decreases |s| - i
  {
    if i == |s| || IsSpace(s[i]) then i else WordEnd(s, i + 1)
  }

  lemma {:induction false} SpaceEndIs(s: string, i: nat)
    requires i <= |s|
    ensures var k := SpaceEnd(s, i); (forall j :: i <= j < k ==> IsSpace(s[j])) && (k < |s| ==> !IsSpace(s[k]))
    decreases |s| - i
  {
    if i < |s| && IsSpace(s[i]) { SpaceEndIs(s, i + 1); }
  }

  lemma {:induction false} WordEndIs(s: string, i: nat)
    requires i <= |s|
    ensures var k := WordEnd(s, i); (forall j :: i <= j < k ==> !IsSpace(s[j])) && (k < |s| ==> IsSpace(s[k]))
    decreases |s| - i
  {
    if i < |s| && !IsSpace(s[i]) { WordEndIs(s, i + 1); }
  }

  /** The words from position i on, where a word begins at i or the string ends. */
  function WordsFrom(s: string, i: nat): seq<string>
    requires i <= |s|
    decreases |s| - i
  {
    var k := WordEnd(s, i);
    if k == i then [] else [s[i..k]] + WordsFrom(s, SpaceEnd(s, k))
  }

  /** None for blank lines and comments. */
  function Tokens(line: string): Option<seq<string>> {
    var s := Unquote(line);
    var i := SpaceEnd(s, 0);
    if i == |s| || s[i] == '!' || s[i] == '#' then None else Some(WordsFrom(s, i))
  }

  /** Tokens are nonempty and free of white space, and each of their characters is one of the unquoted line. */
  lemma {:induction false} WordsFromAreWords(s: string, i: nat)
    requires i <= |s|
    ensures AreWords(WordsFrom(s, i))
    ensures forall k, j :: 0 <= k < |WordsFrom(s, i)| && 0 <= j < |WordsFrom(s, i)[k]| ==> WordsFrom(s, i)[k][j] in s
    decreases |s| - i
  {
    var k := WordEnd(s, i);
    WordEndIs(s, i);
    if k > i {
      assert forall j :: 0 <= j < k - i ==> s[i..k][j] == s[i + j];
      WordsFromAreWords(s, SpaceEnd(s, k));
    }
  }

  // ---- What unquoting does, position by position ----

  /** a and b are the first two quotes. */
  ghost predicate Quotes(s: string, a: nat, b: nat) {
    a < b < |s| && s[a] == '"' && s[b] == '"' && forall i :: 0 <= i < b && i != a ==> s[i] != '"'
  }

  /** The quotes have become spaces, the spaces between them hyphens, and nothing else is changed. */
  ghost predicate Hyphenated(s: string, a: nat, b: nat, r: string) {
    && a < b < |s| == |r| && r[a] == ' ' && r[b] == ' '
    && (forall i :: a < i < b ==> r[i] == if s[i] == ' ' then '-' else s[i])
    && forall i :: 0 <= i < a || b < i < |s| ==> r[i] == s[i]
  }

  lemma QuotesFound(s: string, a: nat, b: nat)
    requires Quotes(s, a, b)
    ensures IndexFrom(s, '"', 0) == a && IndexFrom(s, '"', a + 1) == b
  {
    IndexFromUnique(s, '"', 0, a);
    IndexFromUnique(s, '"', a + 1, b);
  }

  lemma UnquoteByPosition(s: string)
    ensures forall a, b :: Quotes(s, a, b) ==> Hyphenated(s, a, b, Unquote(s))
    ensures (forall a, b :: !Quotes(s, a, b)) ==> Unquote(s) == s
  {
    forall a, b | Quotes(s, a, b) ensures Hyphenated(s, a, b, Unquote(s)) { QuotesFound(s, a, b); }
    if forall a, b :: !Quotes(s, a, b) {
      var a := IndexFrom(s, '"', 0);
      if a < |s| {
        var b := IndexFrom(s, '"', a + 1);
        assert !Quotes(s, a, b);
      }
    }
  }

  // ---- The cursor loops ----

  lemma {:induction false} SpaceEndUnique(s: string, i: nat, k: nat)
    requires i <= k <= |s| && (forall j :: i <= j < k ==> IsSpace(s[j])) && (k < |s| ==> !IsSpace(s[k]))
    ensures SpaceEnd(s, i) == k
    decreases k - i
  {
    if i < k { SpaceEndUnique(s, i + 1, k); }
  }

  lemma {:induction false} WordEndUnique(s: string, i: nat, k: nat)
    requires i <= k <= |s| && (forall j :: i <= j < k ==> !IsSpace(s[j])) && (k < |s| ==> IsSpace(s[k]))
    ensures WordEnd(s, i) == k
    decreases k - i
  {
    if i < k { WordEndUnique(s, i + 1, k); }
  }

  method Strchr(s: array<char>, c: char, i: nat) returns (k: nat)
    requires i <= s.Length
    ensures k == IndexFrom(s[..], c, i)
  {
    k := i;
    while k < s.Length && s[k] != c
      invariant i <= k <= s.Length && forall j :: i <= j < k ==> s[j] != c
    {
      k := k + 1;
    }
    IndexFromUnique(s[..], c, i, k);
  }

  /** The quote pass over the private copy of the line. */
  method UnquoteInPlace(s: array<char>)
    modifies s
    ensures s[..] == Unquote(old(s[..]))
    ensures forall a, b :: Quotes(old(s[..]), a, b) ==> Hyphenated(old(s[..]), a, b, s[..])
    ensures (forall a, b :: !Quotes(old(s[..]), a, b)) ==> s[..] == old(s[..])
  {
    ghost var was := s[..];
    UnquoteByPosition(was);
    var a := Strchr(s, '"', 0);
    if a < s.Length {
      var b := Strchr(s, '"', a + 1);
      if b < s.Length {
        s[a] := ' ';
        var p := a + 1;
        while p < b
          invariant a < p <= b
          invariant forall i :: 0 <= i < s.Length ==>
            s[i] == if i == a then ' ' else if a < i < p && was[i] == ' ' then '-' else was[i]
        {
          if s[p] == ' ' { s[p] := '-'; }
          p := p + 1;
        }
        s[b] := ' ';
      }
    }
  }

  method SkipSpaces(s: string, from: nat) returns (cp: nat)
    requires from <= |s|
    ensures cp == SpaceEnd(s, from)
  {
    cp := from;
    while cp < |s| && IsSpace(s[cp])
      invariant from <= cp <= |s| && forall i :: from <= i < cp ==> IsSpace(s[i])
    {
      cp := cp + 1;
    }
    SpaceEndUnique(s, from, cp);
  }

  method SkipWord(s: string, from: nat) returns (cp: nat)
    requires from <= |s|
    ensures cp == WordEnd(s, from)
  {
    cp := from;
    while cp < |s| && !IsSpace(s[cp])
      invariant from <= cp <= |s| && forall i :: from <= i < cp ==> !IsSpace(s[i])
    {
      cp := cp + 1;
    }
    WordEndUnique(s, from, cp);
  }

  method MakeStrvec(line: string) returns (strvec: Option<seq<string>>)
    ensures strvec == Tokens(line)
  {
    var copy := new char[|line|](i requires 0 <= i < |line| => line[i]);
    assert copy[..] == line;
    UnquoteInPlace(copy);
    var s := copy[..];
    var cp := SkipSpaces(s, 0);
    if cp == |s| || s[cp] == '!' || s[cp] == '#' {
      return None;
    }
    SpaceEndIs(s, 0);
    var words := Split(s, cp);
    return Some(words);
  }

  /** Copy each word and set it into the vector. */
  method Split(s: string, first: nat) returns (words: seq<string>)
    requires first < |s| && !IsSpace(s[first])
    ensures words == WordsFrom(s, first)
  {
    words := [];
    var cp := first;
    while true
      invariant cp < |s| && !IsSpace(s[cp])
      invariant words + WordsFrom(s, cp) == WordsFrom(s, first)
      decreases |s| - cp
    {
      var start := cp;
      cp := SkipWord(s, cp);
      var word := s[start..cp];
      ghost var rest := WordsFrom(s, SpaceEnd(s, cp));
      assert words + ([word] + rest) == words + [word] + rest;
      words := words + [word];
      SpaceEndIs(s, cp);
      cp := SkipSpaces(s, cp);
      if cp == |s| {
        return;
      }
    }
  }

  // ---- Tokenising inverts joining ----

  lemma WordThenSpace(s: string, i: nat, k: nat)
    requires i < k && k + 1 < |s| && IsWord(s[i..k]) && s[k] == ' ' && !IsSpace(s[k + 1])
    ensures WordsFrom(s, i) == [s[i..k]] + WordsFrom(s, k + 1)
  {
    assert forall j :: i <= j < k ==> s[j] == s[i..k][j - i];
    WordEndUnique(s, i, k);
    SpaceEndUnique(s, k, k + 1);
  }

  lemma WordThenEnd(s: string, i: nat, k: nat)
    requires i < k <= |s| && IsWord(s[i..k]) && forall j :: k <= j < |s| ==> IsSpace(s[j])
    ensures WordsFrom(s, i) == [s[i..k]]
  {
    assert forall j :: i <= j < k ==> s[j] == s[i..k][j - i];
    WordEndUnique(s, i, k);
    SpaceEndUnique(s, k, |s|);
  }

  lemma OneWord(pre: string, w: string, tail: string)
    requires IsWord(w) && (tail == "" || tail == "\n")
    ensures WordsFrom(pre + w + tail, |pre|) == [w]
  {
    var s, k := pre + w + tail, |pre| + |w|;
    assert s[|pre|..k] == w && s[k..] == tail;
    assert forall j :: k <= j < |s| ==> s[j] == s[k..][j - k];
    WordThenEnd(s, |pre|, k);
  }

  lemma MoreWords(pre: string, ws: seq<string>, tail: string)
    requires AreWords(ws) && |ws| > 1
    ensures AreWords(ws[1..])
    ensures WordsFrom(pre + Line(ws) + tail, |pre|) == [ws[0]] + WordsFrom((pre + ws[0] + " ") + Line(ws[1..]) + tail, |pre + ws[0] + " "|)
  {
    var s, k := pre + Line(ws) + tail, |pre| + |ws[0]|;
    LineTail(pre, ws, tail);
    assert s[|pre|..k] == ws[0];
    WordThenSpace(s, |pre|, k);
  }

  /** Words joined with single spaces behind any text are found again from there on. */
  lemma {:induction false} WordsOfLine(pre: string, ws: seq<string>, tail: string)
    requires AreWords(ws) && |ws| > 0 && (tail == "" || tail == "\n")
    ensures WordsFrom(pre + Line(ws) + tail, |pre|) == ws
    decreases |ws|
  {
    if |ws| == 1 {
      OneWord(pre, ws[0], tail);
    } else {
      MoreWords(pre, ws, tail);
      WordsOfLine(pre + ws[0] + " ", ws[1..], tail);
    }
  }

  lemma LineTail(pre: string, ws: seq<string>, tail: string)
    requires AreWords(ws) && |ws| > 1
    ensures var s, k := pre + Line(ws) + tail, |pre| + |ws[0]|;
            s == (pre + ws[0] + " ") + Line(ws[1..]) + tail && k + 1 < |s| && s[k] == ' ' && s[k + 1] == ws[1][0] && AreWords(ws[1..])
  {
    assert ws[1..][0] == ws[1];
    assert Line(ws[1..])[0] == ws[1][0];
  }

  lemma NoQuotesUnchanged(line: string, tail: string)
    requires '"' !in line && (tail == "" || tail == "\n")
    ensures Unquote(line + tail) == line + tail
  {
    var s := line + tail;
    assert forall i :: 0 <= i < |s| ==> s[i] != '"';
  }

  lemma TokensFromStart(s: string)
    requires |s| > 0 && Unquote(s) == s && !IsSpace(s[0]) && s[0] != '!' && s[0] != '#'
    ensures Tokens(s) == Some(WordsFrom(s, 0))
  {
  }

  /** A line written with single spaces, with or without its newline, gives its words back. */
  lemma TokensOfLine(ws: seq<string>, tail: string)
    requires AreWords(ws) && |ws| > 0 && (tail == "" || tail == "\n")
    requires '"' !in Line(ws) && ws[0][0] != '!' && ws[0][0] != '#'
    ensures Tokens(Line(ws) + tail) == Some(ws)
  {
    NoQuotesUnchanged(Line(ws), tail);
    WordsOfLine("", ws, tail);
    assert "" + Line(ws) + tail == Line(ws) + tail;
    assert (Line(ws) + tail)[0] == ws[0][0];
    TokensFromStart(Line(ws) + tail);
  }

  // ---- A quoted stretch of words ----

  /** The words joined by hyphens. */
  function Hyphens(ws: seq<string>): string {
    if |ws| == 0 then "" else if |ws| == 1 then ws[0] else ws[0] + "-" + Hyphens(ws[1..])
  }

  ghost predicate HyphenFor(a: string, b: string) {
    |a| == |b| && forall i :: 0 <= i < |a| ==> b[i] == if a[i] == ' ' then '-' else a[i]
  }

  lemma {:induction false} HyphensOfLine(ws: seq<string>)
    requires AreWords(ws)
    ensures HyphenFor(Line(ws), Hyphens(ws))
  {
    if |ws| > 1 {
      assert AreWords(ws[1..]);
      HyphensOfLine(ws[1..]);
    }
  }

  lemma HyphensIsWord(ws: seq<string>)
    requires AreWords(ws) && |ws| > 0
    ensures IsWord(Hyphens(ws))
  {
    HyphensOfLine(ws);
    LineSpaces(ws);
  }

  /** The only white space of a line of words is the space. */
  lemma {:induction false} LineSpaces(ws: seq<string>)
    requires AreWords(ws) && |ws| > 0
    ensures |Line(ws)| > 0 && forall i :: 0 <= i < |Line(ws)| && IsSpace(Line(ws)[i]) ==> Line(ws)[i] == ' '
  {
    if |ws| > 1 {
      assert AreWords(ws[1..]);
      LineSpaces(ws[1..]);
    }
  }

  predicate Gap(s: string) { |s| > 0 && forall i :: 0 <= i < |s| ==> IsSpace(s[i]) }

  predicate Stops(rest: string) { |rest| > 0 ==> !IsSpace(rest[0]) }

  lemma WordThenGap(p: string, w: string, gap: string, rest: string)
    requires IsWord(w) && Gap(gap) && Stops(rest)
    ensures WordsFrom(p + w + gap + rest, |p|) == [w] + WordsFrom(p + w + gap + rest, |p + w + gap|)
  {
    var s, k, n := p + w + gap + rest, |p + w|, |p + w + gap|;
    assert s[|p|..k] == w;
    assert forall j :: |p| <= j < k ==> s[j] == w[j - |p|];
    assert forall j :: k <= j < n ==> s[j] == gap[j - k];
    assert n < |s| ==> s[n] == rest[0];
    WordEndUnique(s, |p|, k);
    SpaceEndUnique(s, k, n);
  }

  lemma Regroup(p: string, w: string, more: string, gap: string, rest: string)
    ensures p + (w + " " + more) + gap + rest == p + w + " " + (more + gap + rest)
    ensures p + (w + " " + more) + gap + rest == (p + w + " ") + more + gap + rest
    ensures |(p + w + " ") + more + gap| == |p + (w + " " + more) + gap|
  {
  }

  lemma StepThenGap(p: string, w: string, more: string, gap: string, rest: string)
    requires IsWord(w) && |more| > 0 && !IsSpace(more[0])
    ensures var s := p + (w + " " + more) + gap + rest;
            s == (p + w + " ") + more + gap + rest && WordsFrom(s, |p|) == [w] + WordsFrom(s, |p + w + " "|)
  {
    Regroup(p, w, more, gap, rest);
    assert (more + gap + rest)[0] == more[0];
    WordThenGap(p, w, " ", more + gap + rest);
  }

  lemma HeadThenRest(ws: seq<string>, rest: seq<string>)
    requires |ws| > 0
    ensures [ws[0]] + (ws[1..] + rest) == ws + rest
  {
  }

  /** Words joined with single spaces, then white space, then more. */
  lemma {:induction false} LineThenGap(p: string, ws: seq<string>, gap: string, rest: string)
    requires AreWords(ws) && |ws| > 0 && Gap(gap) && Stops(rest)
    ensures WordsFrom(p + Line(ws) + gap + rest, |p|) == ws + WordsFrom(p + Line(ws) + gap + rest, |p + Line(ws) + gap|)
    decreases |ws|
  {
    if |ws| == 1 {
      WordThenGap(p, ws[0], gap, rest);
    } else {
      var more := Line(ws[1..]);
      TailStarts(ws);
      StepThenGap(p, ws[0], more, gap, rest);
      Regroup(p, ws[0], more, gap, rest);
      LineThenGap(p + ws[0] + " ", ws[1..], gap, rest);
      HeadThenRest(ws, WordsFrom(p + Line(ws) + gap + rest, |p + Line(ws) + gap|));
    }
  }

  lemma TailStarts(ws: seq<string>)
    requires AreWords(ws) && |ws| > 1
    ensures AreWords(ws[1..]) && |Line(ws[1..])| > 0 && !IsSpace(Line(ws[1..])[0]) && Line(ws) == ws[0] + " " + Line(ws[1..])
  {
    assert ws[1..][0] == ws[1];
    assert Line(ws[1..])[0] == ws[1][0];
  }

  function Behind(post: seq<string>): string { if |post| == 0 then "" else " " + Line(post) }

  /** Words, a quoted stretch of words, and maybe more words. */
  function Quoted(pre: seq<string>, ws: seq<string>, post: seq<string>): string {
    Line(pre) + " " + "\"" + Line(ws) + "\"" + Behind(post)
  }

  lemma StretchQuotes(x: string, q: string, tail: string)
    requires '"' !in x && '"' !in q
    ensures Quotes(x + "\"" + q + "\"" + tail, |x|, |x| + 1 + |q|)
  {
    var s := x + "\"" + q + "\"" + tail;
    forall i | 0 <= i < |x| + 1 + |q| && i != |x| ensures s[i] != '"' {
      assert s[i] == if i < |x| then x[i] else q[i - |x| - 1];
    }
  }

  lemma UnquoteStretch(x: string, q: string, h: string, tail: string)
    requires '"' !in x && '"' !in q && HyphenFor(q, h)
    ensures Unquote(x + "\"" + q + "\"" + tail) == x + " " + h + " " + tail
  {
    var s, r := x + "\"" + q + "\"" + tail, x + " " + h + " " + tail;
    var u, a, b := Unquote(s), |x|, |x| + 1 + |q|;
    StretchQuotes(x, q, tail);
    UnquoteByPosition(s);
    assert Hyphenated(s, a, b, u);
    forall i | 0 <= i < |s| ensures u[i] == r[i] {
      if i < a { assert s[i] == x[i] == r[i]; }
      if a < i < b { assert s[i] == q[i - a - 1] && r[i] == h[i - a - 1]; }
      if i > b { assert s[i] == tail[i - b - 1] == r[i]; }
    }
  }

  lemma UnquotedText(pre: seq<string>, ws: seq<string>, post: seq<string>)
    requires AreWords(ws) && '"' !in Line(pre) && '"' !in Line(ws)
    ensures Unquote(Quoted(pre, ws, post)) == Line(pre) + " " + " " + Hyphens(ws) + " " + Behind(post)
  {
    HyphensOfLine(ws);
    assert '"' !in Line(pre) + " ";
    UnquoteStretch(Line(pre) + " ", Line(ws), Hyphens(ws), Behind(post));
  }

  lemma TwoSpaces(x: string, w: string, tail: string)
    ensures x + " " + " " + w + " " + tail == "" + x + "  " + (w + " " + tail)
    ensures x + " " + " " + w + " " + tail == (x + "  ") + w + " " + tail
    ensures x + " " + " " + w + " " + (" " + tail) == (x + "  ") + w + "  " + tail
    ensures x + " " + " " + w + " " + (" " + tail) == (x + "  " + w + "  ") + tail + ""
    ensures |"" + x + "  "| == |x + "  "| && |(x + "  ") + w + "  "| == |x + "  " + w + "  "|
  {
  }

  lemma LastWord(x: string, w: string)
    requires IsWord(w)
    ensures WordsFrom(x + " " + " " + w + " " + "", |x + "  "|) == [w]
  {
    TwoSpaces(x, w, "");
    WordThenGap(x + "  ", w, " ", "");
    assert [w] + [] == [w];
  }

  lemma WordThenLine(x: string, w: string, post: seq<string>)
    requires IsWord(w) && AreWords(post) && |post| > 0
    ensures WordsFrom(x + " " + " " + w + " " + (" " + Line(post)), |x + "  "|) == [w] + post
  {
    TwoSpaces(x, w, Line(post));
    assert Line(post)[0] == post[0][0];
    WordThenGap(x + "  ", w, "  ", Line(post));
    WordsOfLine(x + "  " + w + "  ", post, "");
  }

  lemma HyphenatedWords(pre: seq<string>, w: string, post: seq<string>)
    requires AreWords(pre) && |pre| > 0 && IsWord(w) && AreWords(post)
    ensures WordsFrom(Line(pre) + " " + " " + w + " " + Behind(post), 0) == pre + ([w] + post)
  {
    var x := Line(pre);
    TwoSpaces(x, w, Behind(post));
    assert (w + " " + Behind(post))[0] == w[0];
    LineThenGap("", pre, "  ", w + " " + Behind(post));
    if |post| == 0 {
      LastWord(x, w);
    } else {
      WordThenLine(x, w, post);
    }
  }

  /** A quoted stretch of words comes out as one word, joined by hyphens. */
  lemma QuotedIsOneWord(pre: seq<string>, ws: seq<string>, post: seq<string>)
    requires AreWords(pre) && |pre| > 0 && AreWords(ws) && |ws| > 0 && AreWords(post)
    requires '"' !in Line(pre) && '"' !in Line(ws) && pre[0][0] != '!' && pre[0][0] != '#'
    ensures Tokens(Quoted(pre, ws, post)) == Some(pre + ([Hyphens(ws)] + post))
  {
    UnquotedText(pre, ws, post);
    HyphensIsWord(ws);
    HyphenatedWords(pre, Hyphens(ws), post);
    var s := Unquote(Quoted(pre, ws, post));
    assert s[0] == Line(pre)[0] == pre[0][0];
    SpaceEndUnique(s, 0, 0);
  }

  // ---- Any white space ----

  /** Every word followed by its own white space; only the last may have none. */
  function Spread(ws: seq<string>, gaps: seq<string>): string
    requires |gaps| == |ws|
  {
    if |ws| == 0 then "" else ws[0] + gaps[0] + Spread(ws[1..], gaps[1..])
  }

  predicate Gaps(gaps: seq<string>) {
    forall i :: 0 <= i < |gaps| ==> (forall j :: 0 <= j < |gaps[i]| ==> IsSpace(gaps[i][j])) && (i < |gaps| - 1 ==> |gaps[i]| > 0)
  }

  /** However the words are spread over the line, they are found. */
  lemma {:induction false} SpreadWords(p: string, ws: seq<string>, gaps: seq<string>)
    requires |gaps| == |ws| && AreWords(ws) && Gaps(gaps)
    ensures WordsFrom(p + Spread(ws, gaps), |p|) == ws
    decreases |ws|
  {
    if |ws| == 0 {
    } else if |ws| == 1 {
      assert Spread(ws, gaps) == ws[0] + gaps[0] && p + Spread(ws, gaps) == p + ws[0] + gaps[0];
      var s, k := p + ws[0] + gaps[0], |p + ws[0]|;
      assert s[|p|..k] == ws[0];
      assert forall j :: k <= j < |s| ==> s[j] == gaps[0][j - k];
      WordThenEnd(s, |p|, k);
    } else {
      var rest := Spread(ws[1..], gaps[1..]);
      assert p + Spread(ws, gaps) == p + ws[0] + gaps[0] + rest;
      assert ws[1..][0] == ws[1] && rest[0] == ws[1][0];
      WordThenGap(p, ws[0], gaps[0], rest);
      assert p + Spread(ws, gaps) == (p + ws[0] + gaps[0]) + rest;
      assert Gaps(gaps[1..]);
      SpreadWords(p + ws[0] + gaps[0], ws[1..], gaps[1..]);
    }
  }

  /** A line has no words exactly when behind its white space there is nothing or a comment sign. */
  lemma NoWordsIff(line: string)
    ensures Tokens(line).None? <==>
      exists i :: 0 <= i <= |line| && (forall j :: 0 <= j < i ==> IsSpace(Unquote(line)[j]))
                  && (i == |line| || Unquote(line)[i] == '!' || Unquote(line)[i] == '#')
  {
    var s := Unquote(line);
    SpaceEndIs(s, 0);
    forall i | 0 <= i <= |s| && (forall j :: 0 <= j < i ==> IsSpace(s[j])) && (i == |s| || s[i] == '!' || s[i] == '#')
      ensures SpaceEnd(s, 0) == i
    {
      SpaceEndUnique(s, 0, i);
    }
  }
}
