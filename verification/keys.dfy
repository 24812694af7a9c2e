/** What every run of commands keeps of config_top: strict strcmp order and at most one line per key. */
module Keys {
  import opened CText
  import opened ListSpec
  import opened ConfigStore
  import opened Commands
  import Tokenizer

  // ---- Recorded lines and their keys ----

  predicate Printable(w: string) { forall i :: 0 <= i < |w| ==> w[i] > ' ' }

  /** Printable words, as the tokeniser makes them from a line of printable characters and spaces. */
  predicate CleanWords(ws: seq<string>) {
    AreWords(ws) && forall i :: 0 <= i < |ws| ==> Printable(ws[i])
  }

  /** The shapes of line the handlers record. */
  predicate Recorded(ws: seq<string>) {
    CleanWords(ws) && |ws| >= 2 &&
    if ws[0] == "hostname" then |ws| == 2
    else if ws[0] == "nameserver" then |ws| == 3
    else if ws[0] == "ip" then (ws[1] == "address" && |ws| >= 4) || (ws[1] == "route" && |ws| == 6)
    else if ws[0] == "wg" then
      (ws[1] == "listenport" && |ws| == 3) || (ws[1] == "peer" && |ws| >= 3 && |ws[2]| == 44)
      || (ws[1] == "link-up" && |ws| == 2) || (ws[1] == "link-down" && |ws| == 2)
    else if ws[0] == "bridge" then (ws[1] == "disable" && |ws| == 2) || (|ws[1]| == 1 && |ws| == 4)
    else
      ws[0] == "sfirewall" &&
      ((ws[1] == "nat" && |ws| == 9) || (ws[1] == "filter" && |ws| == 15 && (ws[5] == "insert" || ws[5] == "append")))
  }

  datatype Key =
    | HostKey | DnsKey | PortKey | LinkKey | AddressKey(name: string) | PeerKey(key: string) | BridgeKey(n: string)
    | RuleKey(rule: seq<string>)  // a filter rule without its insert or append
    | LineKey(line: seq<string>)  // a line that only itself replaces

  function KeyOf(ws: seq<string>): Key
    requires Recorded(ws)
  {
    if ws[0] == "hostname" then HostKey
    else if ws[0] == "nameserver" then DnsKey
    else if ws[0] == "ip" && ws[1] == "address" then AddressKey(ws[2])
    else if ws[0] == "wg" then
      if ws[1] == "listenport" then PortKey else if ws[1] == "peer" then PeerKey(ws[2]) else LinkKey
    else if ws[0] == "bridge" && ws[1] != "disable" then BridgeKey(ws[1])
    else if ws[0] == "sfirewall" && ws[1] == "filter" then RuleKey(ws[..5] + ws[6..])
    else LineKey(ws)
  }

  function Words(line: string): seq<string> { Tokenizer.WordsFrom(line, 0) }

  predicate Good(line: string) { Recorded(Words(line)) && line == Line(Words(line)) }

  function KeyOfLine(line: string): Key
    requires Good(line)
  {
    KeyOf(Words(line))
  }

  lemma WordsOf(ws: seq<string>)
    requires AreWords(ws) && |ws| > 0
    ensures Words(Line(ws)) == ws
  {
    Tokenizer.WordsOfLine("", ws, "");
    assert "" + Line(ws) + "" == Line(ws);
  }

  lemma GoodLine(ws: seq<string>)
    requires Recorded(ws)
    ensures Good(Line(ws)) && KeyOfLine(Line(ws)) == KeyOf(ws)
  {
    WordsOf(ws);
  }

  // ---- The invariant ----

  ghost predicate Inv(top: seq<string>) {
    && StrictlyIncreasing(top)
    && (forall l :: l in top ==> Good(l))
    && (forall l, l' :: l in top && l' in top && KeyOfLine(l) == KeyOfLine(l') ==> l == l')
  }

  ghost predicate NoKey(top: seq<string>, k: Key)
    requires forall l :: l in top ==> Good(l)
  {
    forall l :: l in top ==> KeyOfLine(l) != k
  }

  lemma RemoveKeepsInv(top: seq<string>, p: string -> bool)
    requires Inv(top)
    ensures Inv(RemoveFirst(top, p))
    ensures forall l :: l in RemoveFirst(top, p) ==> l in top
  {
    RemoveFirstKeeps(top, p);
  }

  lemma AddKeepsInv(top: seq<string>, ws: seq<string>)
    requires Inv(top) && Recorded(ws) && NoKey(top, KeyOf(ws))
    ensures Inv(AddLine(top, Line(ws)))
  {
    GoodLine(ws);
    AddLineKeeps(top, Line(ws));
  }

  /** The prefix delete hits the line with key k, because the lines with that prefix and another key sort behind it. */
  ghost predicate HitsKeyFirst(top: seq<string>, left: string, k: Key)
    requires forall l :: l in top ==> Good(l)
  {
    && (forall l :: l in top && KeyOfLine(l) == k ==> left <= l)
    && (forall l, l' :: l in top && l' in top && KeyOfLine(l) == k && left <= l' && Less(l', l) ==> KeyOfLine(l') == k)
  }

  lemma DelLeftClears(top: seq<string>, left: string, k: Key)
    requires Inv(top) && HitsKeyFirst(top, left, k)
    ensures Inv(DelLeft(top, left)) && NoKey(DelLeft(top, left), k)
  {
    var p := (l: string) => left <= l;
    RemoveKeepsInv(top, p);
    RemoveFirstKeeps(top, p);
    var f := Find(top, p);
    forall l | l in top && KeyOfLine(l) == k ensures f < |top| && top[f] == l {
      var i :| 0 <= i < |top| && top[i] == l;
      assert p(top[i]);
      assert f <= i;
      assert f < i ==> Less(top[f], top[i]) && KeyOfLine(top[f]) == k;
    }
  }

  lemma DelLineClears(top: seq<string>, line: string)
    requires Inv(top)
    ensures Inv(DelLine(top, line)) && line !in DelLine(top, line)
    ensures forall l :: l in DelLine(top, line) <==> l in top && l != line
  {
    var p := (l: string) => l == line;
    RemoveKeepsInv(top, p);
    RemoveFirstKeeps(top, p);
    if line in top {
      var i :| 0 <= i < |top| && top[i] == line;
      assert p(top[i]);
      assert Find(top, p) <= i;
    }
  }

  // ---- Prefixes and keys ----

  lemma StartsWith(l: string, p: seq<string>)
    requires Good(l) && |p| > 0 && p <= Words(l)
    ensures Line(p) <= l
  {
    var ws := Words(l);
    LinePrefix(p, ws[|p|..]);
    assert ws == p + ws[|p|..];
  }

  /** The prefix picks out exactly the lines with the key. */
  ghost predicate PrefixIsKey(left: string, k: Key) {
    forall l :: Good(l) ==> (left <= l <==> KeyOfLine(l) == k)
  }

  lemma HostnamePrefix()
    ensures PrefixIsKey("hostname", HostKey)
  {
    forall l | Good(l) ensures "hostname" <= l <==> KeyOfLine(l) == HostKey {
      if KeyOfLine(l) == HostKey { StartsWith(l, ["hostname"]); }
      if "hostname" <= l { LinePrefixWords(["hostname"], Words(l)); }
    }
  }

  lemma NameserverPrefix()
    ensures PrefixIsKey("nameserver", DnsKey)
  {
    forall l | Good(l) ensures "nameserver" <= l <==> KeyOfLine(l) == DnsKey {
      if KeyOfLine(l) == DnsKey { StartsWith(l, ["nameserver"]); }
      if "nameserver" <= l { LinePrefixWords(["nameserver"], Words(l)); }
    }
  }

  lemma ListenportLines(l: string)
    requires Good(l)
    ensures Line(["wg", "listenport"]) <= l <==> KeyOfLine(l) == PortKey
  {
    var p := ["wg", "listenport"];
    if KeyOfLine(l) == PortKey { StartsWith(l, p); }
    if Line(p) <= l { LinePrefixWords(p, Words(l)); }
  }

  lemma ListenportPrefix()
    ensures PrefixIsKey("wg listenport", PortKey)
  {
    LineOfTwo("wg", "listenport");
    assert "wg" + " " + "listenport" == "wg listenport";
    forall l | Good(l) ensures "wg listenport" <= l <==> KeyOfLine(l) == PortKey { ListenportLines(l); }
  }

  lemma PeerPrefix(key: string)
    requires IsWord(key) && |key| == 44
    ensures PrefixIsKey(Line(["wg", "peer", key]), PeerKey(key))
  {
    var p := ["wg", "peer", key];
    forall l | Good(l) ensures Line(p) <= l <==> KeyOfLine(l) == PeerKey(key) {
      if KeyOfLine(l) == PeerKey(key) { StartsWith(l, p); }
      if Line(p) <= l { LinePrefixWords(p, Words(l)); }
    }
  }

  lemma BridgePrefix(n: string)
    requires IsWord(n) && |n| == 1 && n != "d"
    ensures PrefixIsKey(Line(["bridge", n]), BridgeKey(n))
  {
    var p := ["bridge", n];
    forall l | Good(l) ensures Line(p) <= l <==> KeyOfLine(l) == BridgeKey(n) {
      if KeyOfLine(l) == BridgeKey(n) { StartsWith(l, p); }
      if Line(p) <= l { LinePrefixWords(p, Words(l)); }
    }
  }

  lemma LineOfTwo(a: string, b: string)
    ensures Line([a, b]) == a + " " + b
  {
    assert [a, b][1..] == [b];
  }

  lemma AddressLine(w: string)
    ensures Line(["ip", "address", w]) == "ip address " + w
  {
    LineOfTwo("address", w);
    assert ["ip", "address", w][1..] == ["address", w];
    assert "ip" + " " + ("address " + w) == "ip address " + w;
  }

  /** A line for a longer interface name that begins with the given one sorts behind every line for that one:
      a space sorts below every printable character. */
  lemma LongerNameSortsLater(l: string, l': string, name: string)
    requires IsWord(name) && Good(l) && Good(l')
    requires KeyOfLine(l) == AddressKey(name) && Line(["ip", "address", name]) <= l' && KeyOfLine(l') != AddressKey(name)
    ensures !Less(l', l)
    ensures |name| < |Words(l')[2]| && Words(l')[0] == "ip" && Words(l')[1] == "address"
  {
    var p := ["ip", "address", name];
    var ws, ws' := Words(l), Words(l');
    LinePrefixWords(p, ws');
    var w := ws'[2];
    assert name <= w && w != name;
    StartsWith(l', ["ip", "address", w]);
    AddressLine(w);
    AddressLine(name);
    assert ws == p + ws[3..];
    LineSplit(p, ws[3..]);
    SpaceFirst(l', l, Line(p));
  }

  /** Of two lines with a common beginning, the one that goes on with a space comes first. */
  lemma SpaceFirst(a: string, b: string, p: string)
    requires p <= a && p <= b && |p| < |a| && |p| < |b| && a[|p|] > ' ' == b[|p|]
    ensures !Less(a, b)
  {
    var k := |p|;
    assert a == p + a[k..] && b == p + b[k..];
    LessCommonPrefix(p, a[k..], b[k..]);
  }

  lemma AddressHits(top: seq<string>, name: string)
    requires Inv(top) && IsWord(name)
    ensures HitsKeyFirst(top, Line(["ip", "address", name]), AddressKey(name))
  {
    var left := Line(["ip", "address", name]);
    forall l | l in top && KeyOfLine(l) == AddressKey(name) ensures left <= l {
      StartsWith(l, ["ip", "address", name]);
    }
    forall l, l' | l in top && l' in top && KeyOfLine(l) == AddressKey(name) && left <= l' && Less(l', l)
      ensures KeyOfLine(l') == AddressKey(name)
    {
      if KeyOfLine(l') != AddressKey(name) {
        LongerNameSortsLater(l, l', name);
      }
    }
  }

  // ---- The two link lines ----

  lemma LinkLines()
    ensures Line(["wg", "link-up"]) == "wg link-up" && Line(["wg", "link-down"]) == "wg link-down"
  {
    LineOfTwo("wg", "link-up");
    LineOfTwo("wg", "link-down");
  }

  lemma LinkWords(ws: seq<string>, word: string)
    requires Recorded(ws) && (word == "link-up" || word == "link-down")
    requires |ws| >= 2 && ws[0] == "wg" && word <= ws[1]
    ensures ws == ["wg", word]
  {
    assert ws[1][5] == word[5];
    assert ws[1][0] == 'l' && ws[1][1] == 'i' && ws[1][2] == 'n';
  }

  lemma LinkLineOnly(l: string, word: string)
    requires Good(l) && (word == "link-up" || word == "link-down")
    ensures Line(["wg", word]) <= l <==> l == Line(["wg", word])
  {
    if Line(["wg", word]) <= l {
      LinePrefixWords(["wg", word], Words(l));
      LinkWords(Words(l), word);
    }
  }

  lemma LinkKeyLine(l: string)
    requires Good(l) && KeyOfLine(l) == LinkKey
    ensures l == "wg link-up" || l == "wg link-down"
  {
    LinkLines();
    var ws := Words(l);
    assert ws == ["wg", ws[1]];
  }

  /** A prefix that only one line can have is deleted like that line. */
  lemma DelOnlyLine(top: seq<string>, left: string)
    requires Inv(top) && forall l :: l in top && left <= l ==> l == left
    ensures DelLeft(top, left) == DelLine(top, left)
  {
    var p, q := (l: string) => left <= l, (l: string) => l == left;
    var k := Find(top, p);
    assert left <= left;
    assert forall i :: 0 <= i < k ==> !p(top[i]);
    assert k < |top| ==> p(top[k]) && top[k] in top;
    FindUnique(top, q, k);
  }

  lemma LinkClears(top: seq<string>)
    requires Inv(top)
    ensures var r := DelLeft(DelLeft(top, "wg link-up"), "wg link-down"); Inv(r) && NoKey(r, LinkKey)
  {
    LinkLines();
    LinkDeletes(top, "link-up");
    var mid := DelLeft(top, "wg link-up");
    LinkDeletes(mid, "link-down");
    var r := DelLeft(mid, "wg link-down");
    forall l | l in r ensures KeyOfLine(l) != LinkKey {
      if KeyOfLine(l) == LinkKey { LinkKeyLine(l); }
    }
  }

  lemma LinkDeletes(top: seq<string>, word: string)
    requires Inv(top) && (word == "link-up" || word == "link-down")
    ensures var line := Line(["wg", word]); var r := DelLeft(top, line);
            Inv(r) && line !in r && forall l :: l in r ==> l in top
  {
    var line := Line(["wg", word]);
    forall l | l in top && line <= l ensures l == line { LinkLineOnly(l, word); }
    DelOnlyLine(top, line);
    DelLineClears(top, line);
  }

  lemma LinkPrefixWords(x: string, word: string)
    requires Good(x) && (word == "link-up" || word == "link-down") && Line(["wg", word]) <= x
    ensures KeyOfLine(x) == LinkKey
  {
    LinePrefixWords(["wg", word], Words(x));
    LinkWords(Words(x), word);
  }

  lemma LinkPrefixKey(x: string)
    requires Good(x) && ("wg link-up" <= x || "wg link-down" <= x)
    ensures KeyOfLine(x) == LinkKey
  {
    LinkLines();
    if "wg link-up" <= x { LinkPrefixWords(x, "link-up"); } else { LinkPrefixWords(x, "link-down"); }
  }

  lemma TwinWords(ws: seq<string>, other: string)
    requires Recorded(ws) && KeyOf(ws).RuleKey? && (other == "insert" || other == "append")
    ensures Recorded(ws[5 := other]) && KeyOf(ws[5 := other]) == KeyOf(ws)
  {
    var ws' := ws[5 := other];
    assert IsWord(other) && Printable(other);
    assert ws'[0] == "sfirewall" && ws'[1] == "filter";
    assert ws[..5] + ws[6..] == ws'[..5] + ws'[6..];
  }

  /** A rule and its insert/append twin share a key. */
  lemma TwinKey(ws: seq<string>, other: string)
    requires Recorded(ws) && KeyOf(ws).RuleKey? && (other == "insert" || other == "append")
    ensures Recorded(ws[5 := other])
    ensures Good(Line(ws)) && Good(Line(ws[5 := other])) && KeyOfLine(Line(ws[5 := other])) == KeyOfLine(Line(ws))
  {
    TwinWords(ws, other);
    GoodLine(ws);
    GoodLine(ws[5 := other]);
  }
}
