/** The text of the configuration file: what config_dump writes and how fgets cuts it into lines. */
module ConfigFile {
  import opened CText
  import Tokenizer
  import LinkList

  const VTY_BUFSIZ := 512

  function LinesText(top: seq<string>): string {
    if |top| == 0 then "" else top[0] + "\n" + LinesText(top[1..])
  }

  /** A comment with the time, the lines in list order, and an exclamation mark. */
  function Dump(top: seq<string>, stamp: string): string {
    "#Writed on " + stamp + "\n" + (LinesText(top) + "!\n")
  }

  /** What fgets reads: up to and with the first newline, at most VTY_BUFSIZ - 1 characters. */
  function Chunk(s: string): (n: nat)
    requires |s| > 0
    ensures 0 < n <= |s|
  {
    var k := Tokenizer.IndexFrom(s, '\n', 0);
    if k < |s| && k + 1 < VTY_BUFSIZ then k + 1 else if |s| < VTY_BUFSIZ then |s| else VTY_BUFSIZ - 1
  }

  lemma ChunkOfLine(l: string, rest: string)
    requires |l| < VTY_BUFSIZ - 1 && '\n' !in l
    ensures Chunk(l + "\n" + rest) == |l| + 1
    ensures (l + "\n" + rest)[..|l| + 1] == l + "\n" && (l + "\n" + rest)[|l| + 1..] == rest
  {
    var s := l + "\n" + rest;
    assert forall i :: 0 <= i < |l| ==> s[i] == l[i] && l[i] in l;
    Tokenizer.IndexFromUnique(s, '\n', 0, |l|);
  }

  lemma TextFrom(top: seq<string>, k: nat)
    requires k <= |top|
    ensures k == |top| ==> LinesText(top[k..]) + "!\n" == "!\n"
    ensures k < |top| ==> LinesText(top[k..]) + "!\n" == top[k] + "\n" + (LinesText(top[k + 1..]) + "!\n")
  {
    if k < |top| {
      assert top[k..][1..] == top[k + 1..];
    }
  }

  lemma Take(top: seq<string>, k: nat)
    requires k < |top|
    ensures top[..k] + [top[k]] == top[..k + 1]
  {
  }

  lemma HeadLine(stamp: string)
    requires '\n' !in stamp
    ensures var head := "#Writed on " + stamp; '\n' !in head && (head + "\n")[0] == '#' && |head| == 11 + |stamp|
  {
  }

  lemma {:induction false} LinesTextSnoc(top: seq<string>, l: string)
    ensures LinesText(top + [l]) == LinesText(top) + (l + "\n")
  {
    if |top| == 0 {
      assert top + [l] == [l] && [l][1..] == [];
    } else {
      assert (top + [l])[1..] == top[1..] + [l];
      LinesTextSnoc(top[1..], l);
    }
  }

  /** config_dump: one pass over the list. */
  method ConfigDump(config: LinkList.List, stamp: string) returns (file: string)
    requires config.Valid()
    ensures file == Dump(config.contents, stamp)
  {
    file := "#Writed on " + stamp + "\n";
    var nn := config.head;
    ghost var k := 0;
    while nn != null
      invariant k <= |config.nodes| && nn == LinkList.At(config.nodes, k)
      invariant file == "#Writed on " + stamp + "\n" + LinesText(config.contents[..k])
      decreases |config.nodes| - k
    {
      LinesTextSnoc(config.contents[..k], nn.data);
      Take(config.contents, k);
      file := file + nn.data + "\n";
      nn := nn.next;
      k := k + 1;
    }
    assert config.contents[..k] == config.contents;
    file := file + "!\n";
  }

  /** A read takes at most 511 characters, never goes past a newline, and stops short only at a newline or the end. */
  lemma ReadsOneLine(s: string)
    requires |s| > 0
    ensures var n := Chunk(s);
            n <= 511 && (forall i :: 0 <= i < n - 1 ==> s[i] != '\n') && (n == 511 || n == |s| || s[n - 1] == '\n')
  {
    var k := Tokenizer.IndexFrom(s, '\n', 0);
  }

  /** The lines of a text, the newlines taken off. */
  function TextLines(s: string): seq<string>
    decreases |s|
  {
    var k := Tokenizer.IndexFrom(s, '\n', 0);
    if k == |s| then (if |s| == 0 then [] else [s]) else [s[..k]] + TextLines(s[k + 1..])
  }

  lemma LineThenText(l: string, rest: string)
    requires '\n' !in l
    ensures TextLines(l + "\n" + rest) == [l] + TextLines(rest)
  {
    var s := l + "\n" + rest;
    assert forall i :: 0 <= i < |l| ==> s[i] == l[i] && l[i] in l;
    Tokenizer.IndexFromUnique(s, '\n', 0, |l|);
    assert s[..|l|] == l && s[|l| + 1..] == rest;
  }

  lemma TextStep(top: seq<string>, tail: string)
    requires |top| > 0
    ensures LinesText(top) + tail == top[0] + "\n" + (LinesText(top[1..]) + tail)
  {
  }

  lemma {:induction false} LinesOfText(top: seq<string>, tail: string)
    requires forall l :: l in top ==> '\n' !in l
    ensures TextLines(LinesText(top) + tail) == top + TextLines(tail)
  {
    if |top| == 0 {
      assert LinesText(top) + tail == tail;
    } else {
      TextStep(top, tail);
      LineThenText(top[0], LinesText(top[1..]) + tail);
      LinesOfText(top[1..], tail);
      HeadFirst(top, TextLines(tail));
    }
  }

  lemma HeadFirst(top: seq<string>, rest: seq<string>)
    requires |top| > 0
    ensures [top[0]] + (top[1..] + rest) == top + rest
  {
  }

  /** The lines of the file are the time comment, the list, and the exclamation mark. */
  lemma DumpLines(top: seq<string>, stamp: string)
    requires '\n' !in stamp && forall l :: l in top ==> '\n' !in l
    ensures TextLines(Dump(top, stamp)) == ["#Writed on " + stamp] + (top + ["!"])
  {
    var head := "#Writed on " + stamp;
    HeadLine(stamp);
    assert Dump(top, stamp) == head + "\n" + (LinesText(top) + "!\n");
    LineThenText(head, LinesText(top) + "!\n");
    LinesOfText(top, "!\n");
    assert "!\n" == "!" + "\n" + "";
    LineThenText("!", "");
  }
}
