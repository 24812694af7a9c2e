/** Strings as the C library sees them: the strcmp order, isspace, isdigit, and
    the one-space joining that every recorded configuration line uses. */
module CText {

  datatype Option<+T> = None | Some(value: T)

  /** strcmp(a, b) < 0, with the end of a string below every character. */
  predicate Less(a: string, b: string) {
    if |b| == 0 then false
    else if |a| == 0 then true
    else if a[0] != b[0] then a[0] < b[0]
    else Less(a[1..], b[1..])
  }

  predicate IsSpace(c: char) {
    c == ' ' || '\t' <= c <= '\r'
  }

  predicate IsDigit(c: char) {
    '0' <= c <= '9'
  }

  predicate IsAlpha(c: char) {
    'a' <= c <= 'z' || 'A' <= c <= 'Z'
  }

  lemma {:induction false} LessIrreflexive(a: string)
    ensures !Less(a, a)
  {
    if |a| > 0 { LessIrreflexive(a[1..]); }
  }

  lemma {:induction false} LessTransitive(a: string, b: string, c: string)
    requires Less(a, b) && Less(b, c)
    ensures Less(a, c)
  {
    if |a| > 0 && a[0] == b[0] && b[0] == c[0] {
      LessTransitive(a[1..], b[1..], c[1..]);
    }
  }

  lemma {:induction false} LessTotal(a: string, b: string)
    ensures Less(a, b) || a == b || Less(b, a)
  {
    if |a| > 0 && |b| > 0 && a[0] == b[0] {
      LessTotal(a[1..], b[1..]);
      assert a == [a[0]] + a[1..] && b == [b[0]] + b[1..];
    }
  }

  lemma {:induction false} LessCommonPrefix(p: string, a: string, b: string)
    ensures Less(p + a, p + b) <==> Less(a, b)
  {
    if |p| == 0 {
      assert p + a == a && p + b == b;
    } else {
      assert (p + a)[1..] == p[1..] + a && (p + b)[1..] == p[1..] + b;
      LessCommonPrefix(p[1..], a, b);
    }
  }

  // ---- Lines made of words ----

  /** The words separated by single spaces, as the handlers' sprintf calls lay them out. */
  function Line(words: seq<string>): string {
    if |words| == 0 then ""
    else if |words| == 1 then words[0]
    else words[0] + " " + Line(words[1..])
  }

  /** A word is what the tokeniser can produce: nonempty and without white space. */
  predicate IsWord(w: string) {
    |w| > 0 && forall i :: 0 <= i < |w| ==> !IsSpace(w[i])
  }

  predicate AreWords(words: seq<string>) {
    forall i :: 0 <= i < |words| ==> IsWord(words[i])
  }

  lemma {:induction false} LineSplit(a: seq<string>, b: seq<string>)
    requires |a| > 0 && |b| > 0
    ensures Line(a + b) == Line(a) + " " + Line(b)
  {
    if |a| == 1 {
      assert (a + b)[1..] == b;
    } else {
      assert (a + b)[1..] == a[1..] + b;
      LineSplit(a[1..], b);
    }
  }

  /** A line whose words are a[..] begins with the line of any prefix of them. */
  lemma LinePrefix(a: seq<string>, b: seq<string>)
    requires |a| > 0
    ensures Line(a) <= Line(a + b)
  {
    if |b| == 0 {
      assert a + b == a;
    } else {
      LineSplit(a, b);
    }
  }

  /** Index of the first space, or the length. */
  function FirstSpace(s: string): (k: nat)
    ensures k <= |s|
    ensures forall i :: 0 <= i < k ==> s[i] != ' '
    ensures k < |s| ==> s[k] == ' '
  {
    if |s| == 0 || s[0] == ' ' then 0 else 1 + FirstSpace(s[1..])
  }

  lemma FirstSpaceUnique(s: string, k: nat)
    requires k <= |s| && (forall i :: 0 <= i < k ==> s[i] != ' ') && (k < |s| ==> s[k] == ' ')
    ensures FirstSpace(s) == k
  {
    var f := FirstSpace(s);
    assert f < |s| ==> s[f] == ' ';
    assert k < |s| ==> s[k] == ' ';
  }

  /** Where the line of p is a prefix of the line of w, all words of p but the last are
      words of w and the last is a prefix of the corresponding word. */
  lemma {:induction false} LinePrefixWords(p: seq<string>, w: seq<string>)
    requires AreWords(p) && AreWords(w) && |p| > 0
    requires Line(p) <= Line(w)
    ensures |p| <= |w|
    ensures forall i :: 0 <= i < |p| - 1 ==> p[i] == w[i]
    ensures p[|p| - 1] <= w[|p| - 1]
    decreases |p|
  {
    var lp, lw := Line(p), Line(w);
    assert |lp| >= |p[0]| > 0;
    assert |w| > 0;
    assert p[0] <= lp && w[0] <= lw;
    FirstSpaceUnique(lw, |w[0]|);
    if |p| == 1 {
      if |p[0]| > |w[0]| {
        assert false;
      }
      assert p[0] == lw[..|p[0]|] == w[0][..|p[0]|];
    } else {
      FirstSpaceUnique(lp, |p[0]|);
      assert lw[|p[0]|] == lp[|p[0]|] == ' ';
      assert |w[0]| <= |p[0]|;
      if |w[0]| < |p[0]| {
        assert false;
      }
      assert p[0] == lp[..|p[0]|] == lw[..|p[0]|] == w[0];
      assert |w| > 1;
      assert Line(p[1..]) == lp[|p[0]| + 1..];
      assert Line(w[1..]) == lw[|w[0]| + 1..];
      assert Line(p[1..]) <= Line(w[1..]);
      LinePrefixWords(p[1..], w[1..]);
      forall i | 0 <= i < |p| - 1 ensures p[i] == w[i] {
        if i > 0 { assert p[i] == p[1..][i - 1] == w[1..][i - 1] == w[i]; }
      }
      assert p[|p| - 1] == p[1..][|p| - 2] && w[|p| - 1] == w[1..][|p| - 2];
    }
  }

  lemma LineInjective(a: seq<string>, b: seq<string>)
    requires AreWords(a) && AreWords(b) && Line(a) == Line(b)
    ensures a == b
  {
    if |a| == 0 || |b| == 0 {
      assert |a| == 0 && |b| == 0;
    } else {
      LinePrefixWords(a, b);
      LinePrefixWords(b, a);
      assert a[|a| - 1] == b[|a| - 1];
      assert forall i :: 0 <= i < |a| ==> a[i] == b[i];
    }
  }
}
