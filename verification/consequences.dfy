/** What the configuration invariant says in terms of the recorded lines, and where prefix deletion goes wrong. */
module Consequences {
  import opened CText
  import opened ListSpec
  import opened ConfigStore
  import opened Handlers
  import opened Commands
  import opened Keys
  import opened Runs

  /** One hostname, one name server line, one listen port. */
  lemma OneOfEach(top: seq<string>, l: string, l': string)
    requires Inv(top) && l in top && l' in top
    ensures "hostname" <= l && "hostname" <= l' ==> l == l'
    ensures "nameserver" <= l && "nameserver" <= l' ==> l == l'
    ensures "wg listenport" <= l && "wg listenport" <= l' ==> l == l'
  {
    HostnamePrefix();
    NameserverPrefix();
    ListenportPrefix();
  }

  /** Never link-up and link-down together. */
  lemma OneLink(top: seq<string>)
    requires Inv(top)
    ensures !("wg link-up" in top && "wg link-down" in top)
  {
    LinkLines();
    CleanWgKeywords();
    GoodLine(["wg", "link-up"]);
    GoodLine(["wg", "link-down"]);
    assert "wg link-up"[8] != "wg link-down"[8];
  }

  /** One line per 44-character peer key. */
  lemma OnePerPeer(top: seq<string>, l: string, l': string, key: string)
    requires Inv(top) && l in top && l' in top && IsWord(key) && |key| == 44
    requires Line(["wg", "peer", key]) <= l && Line(["wg", "peer", key]) <= l'
    ensures l == l'
  {
    PeerPrefix(key);
  }

  /** One line per interface name. */
  lemma OnePerInterface(top: seq<string>, l: string, l': string, name: string)
    requires Inv(top) && l in top && l' in top && IsWord(name)
    requires Line(["ip", "address", name]) + " " <= l && Line(["ip", "address", name]) + " " <= l'
    ensures l == l'
  {
    NamedLine(l, name);
    NamedLine(l', name);
  }

  lemma WordEnds(l: string, w: string)
    requires Good(l) && |Words(l)| > 2 && Words(l)[0] == "ip" && Words(l)[1] == "address" && Words(l)[2] == w
    ensures |l| >= 11 + |w| && (11 + |w| < |l| ==> l[11 + |w|] == ' ')
  {
    var ws := Words(l);
    AddressLine(w);
    assert ws == ["ip", "address", w] + ws[3..];
    LineSplit(["ip", "address", w], ws[3..]);
  }

  lemma NamedLine(l: string, name: string)
    requires Good(l) && IsWord(name) && Line(["ip", "address", name]) + " " <= l
    ensures KeyOfLine(l) == AddressKey(name)
  {
    var p := ["ip", "address", name];
    LinePrefixWords(p, Words(l));
    var w := Words(l)[2];
    StartsWith(l, ["ip", "address", w]);
    AddressLine(w);
    AddressLine(name);
    var t := l[11..];
    assert t[..|w|] == w && t[..|name|] == name;
    assert forall i :: 0 <= i < |w| ==> t[i] == w[i];
    WordEnds(l, w);
    FirstSpaceUnique(t, |w|);
    assert t[|name|] == l[11 + |name|] == ' ';
    FirstSpaceUnique(t, |name|);
  }

  /** A filter rule is recorded with insert or with append, not with both. */
  lemma OnePerRule(top: seq<string>, argv: seq<string>)
    requires Inv(top) && CleanWords(argv) && |argv| == 13 && argv[3] == "insert"
    ensures !(FilterLine(argv) in top && FilterLine(argv[3 := "append"]) in top)
  {
    var twin := argv[3 := "append"];
    FilterRecorded(argv);
    FilterRecorded(twin);
    var ws, ws' := ["sfirewall", "filter"] + argv, ["sfirewall", "filter"] + twin;
    GoodLine(ws);
    GoodLine(ws');
    assert ws[..5] + ws[6..] == ws'[..5] + ws'[6..];
    assert ws[5] != ws'[5];
    assert Words(Line(ws)) == ws && Words(Line(ws')) == ws' by { WordsOf(ws); WordsOf(ws'); }
  }

  // ---- Lines of other interfaces ----

  /** Some recorded interface name strictly extends the given one. */
  ghost predicate ExtendedName(top: seq<string>, name: string)
    requires forall l :: l in top ==> Good(l)
  {
    exists l :: l in top && KeyOfLine(l).AddressKey? && name < KeyOfLine(l).name
  }

  ghost predicate Configured(top: seq<string>, name: string)
    requires forall l :: l in top ==> Good(l)
  {
    exists l :: l in top && KeyOfLine(l) == AddressKey(name)
  }

  lemma AddressPrefixLines(l: string, name: string)
    requires Good(l) && IsWord(name)
    ensures Line(["ip", "address", name]) <= l <==> KeyOfLine(l).AddressKey? && name <= KeyOfLine(l).name
  {
    var p := ["ip", "address", name];
    if Line(p) <= l {
      LinePrefixWords(p, Words(l));
    }
    if KeyOfLine(l).AddressKey? && name <= KeyOfLine(l).name {
      var w := KeyOfLine(l).name;
      StartsWith(l, ["ip", "address", w]);
      AddressLine(w);
      AddressLine(name);
    }
  }

  /** Deleting by "ip address NAME" spares every line of another interface exactly when NAME is configured itself or
      no configured name extends it; otherwise it removes the line of the least extension. */
  lemma AddressDeleteSparesOthersIff(top: seq<string>, name: string)
    requires Inv(top) && IsWord(name)
    ensures (forall l :: l in top && KeyOfLine(l) != AddressKey(name) ==> l in DelLeft(top, Line(["ip", "address", name])))
            <==> Configured(top, name) || !ExtendedName(top, name)
  {
    var left := Line(["ip", "address", name]);
    var p := (l: string) => left <= l;
    var k := Find(top, p);
    RemoveFirstKeeps(top, p);
    if k == |top| {
      NothingFound(top, name);
    } else {
      AddressPrefixLines(top[k], name);
      if KeyOfLine(top[k]) == AddressKey(name) {
        assert Configured(top, name);
      } else {
        FoundExtension(top, name, k);
      }
    }
  }

  lemma NothingFound(top: seq<string>, name: string)
    requires Inv(top) && IsWord(name)
    requires Find(top, (l: string) => Line(["ip", "address", name]) <= l) == |top|
    ensures !ExtendedName(top, name)
  {
    var p := (l: string) => Line(["ip", "address", name]) <= l;
    forall l | l in top ensures !(KeyOfLine(l).AddressKey? && name < KeyOfLine(l).name) {
      var i :| 0 <= i < |top| && top[i] == l;
      assert !p(top[i]);
      AddressPrefixLines(l, name);
    }
  }

  lemma FoundIsDeleted(top: seq<string>, left: string, k: nat)
    requires StrictlyIncreasing(top) && k < |top| && k == Find(top, (l: string) => left <= l)
    ensures top[k] !in DelLeft(top, left)
  {
    RemoveFirstKeeps(top, (l: string) => left <= l);
  }

  lemma LongerName(top: seq<string>, name: string, l: string)
    requires (forall x :: x in top ==> Good(x)) && IsWord(name) && l in top
    requires Line(["ip", "address", name]) <= l && KeyOfLine(l) != AddressKey(name)
    ensures ExtendedName(top, name)
  {
    AddressPrefixLines(l, name);
    assert KeyOfLine(l) == AddressKey(KeyOfLine(l).name);
  }

  lemma FoundExtension(top: seq<string>, name: string, k: nat)
    requires Inv(top) && IsWord(name) && k < |top|
    requires k == Find(top, (l: string) => Line(["ip", "address", name]) <= l) && KeyOfLine(top[k]) != AddressKey(name)
    ensures ExtendedName(top, name) && !Configured(top, name)
    ensures top[k] !in DelLeft(top, Line(["ip", "address", name]))
  {
    var p := (l: string) => Line(["ip", "address", name]) <= l;
    assert top[k] in top && p(top[k]);
    LongerName(top, name, top[k]);
    FoundIsDeleted(top, Line(["ip", "address", name]), k);
    forall l | l in top ensures KeyOfLine(l) != AddressKey(name) {
      NotConfigured(top, name, k, l);
    }
  }

  lemma NotConfigured(top: seq<string>, name: string, k: nat, l: string)
    requires Inv(top) && IsWord(name) && k < |top| && l in top
    requires k == Find(top, (l: string) => Line(["ip", "address", name]) <= l) && KeyOfLine(top[k]) != AddressKey(name)
    ensures KeyOfLine(l) != AddressKey(name)
  {
    var p := (l: string) => Line(["ip", "address", name]) <= l;
    AddressHits(top, name);
    AddressPrefixLines(l, name);
    var i :| 0 <= i < |top| && top[i] == l;
    assert i < k ==> !p(top[i]);
    assert p(top[k]);
    assert k < i ==> Less(top[k], top[i]);
  }
}
