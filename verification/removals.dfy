/** What every line that begins with no takes away from the recorded configuration. */
module Removals {
  import opened CText
  import opened ListSpec
  import opened ConfigStore
  import opened Handlers
  import opened Matching
  import opened Commands
  import opened Keys
  import opened ShellRuns
  import opened FullLines
  import Consequences
  import Runs
  import Shell
  import Tokenizer
  import Ipv4

  // ---- Lines typed in full ----

  /** A typed line whose words the tokeniser gives back. */
  predicate PlainLine(ws: seq<string>) { AreWords(ws) && '"' !in Line(ws) }

  lemma LetterFirst(k: Keyword)
    ensures |Text(k)| > 0 && 'a' <= Text(k)[0]
  {
  }

  lemma TypedFirst(mode: Mode, h: Handler, ws: seq<string>)
    requires Configuring(h) && Typed(mode, h, ws)
    ensures |ws| > 0 && |ws[0]| > 0 && 'a' <= ws[0][0]
  {
    ConfiguringSize(h);
    FirstWord(h);
    FirstIsLiteral(First(h));
    Keyword1(mode, Template(h), ws, 0, Text(First(h)));
    LetterFirst(First(h));
  }

  lemma TypedTokens(mode: Mode, h: Handler, ws: seq<string>)
    requires Configuring(h) && Typed(mode, h, ws) && PlainLine(ws)
    ensures Tokenizer.Tokens(Line(ws)) == Some(ws)
  {
    TypedFirst(mode, h, ws);
    Tokenizer.TokensOfLine(ws, "");
    assert Line(ws) + "" == Line(ws);
  }

  lemma StepOfOutcome(m: Matchers, top: seq<string>, i: Input, h: Handler, argv: seq<string>)
    requires OutcomeOf(m, i.mode, i.line) == Outcome.Run(h, argv)
    ensures Fits(h, |argv|) && Step(m, top, i) == Effect(top, h, argv, i.env)
  {
    OutcomeFits(m, i.mode, i.line);
  }

  /** A line typed in full has the effect of its command, in both executors. */
  lemma TypedStep(mode: Mode, m: Matchers, env: Env, top: seq<string>, h: Handler, ws: seq<string>)
    requires Configuring(h) && Typed(mode, h, ws) && PlainLine(ws)
    ensures Fits(h, |Args(Template(h), ws)|)
    ensures Step(m, top, Input(mode, Line(ws), env)) == Effect(top, h, Args(Template(h), ws), env)
  {
    TypedTokens(mode, h, ws);
    TypedRuns(mode, m, ws, h);
    StepOfOutcome(m, top, Input(mode, Line(ws), env), h, Args(Template(h), ws));
  }

  /** The same for commands that pass everything behind their leading keywords. */
  lemma LeadStep(mode: Mode, m: Matchers, env: Env, top: seq<string>, h: Handler, ws: seq<string>, argv: seq<string>)
    requires Configuring(h) && Typed(mode, h, ws) && PlainLine(ws)
    requires Shell.Lead(h).Some? && Shell.Lead(h).value <= |ws| && argv == ws[Shell.Lead(h).value..]
    ensures Fits(h, |argv|) && Step(m, top, Input(mode, Line(ws), env)) == Effect(top, h, argv, env)
  {
    TypedStep(mode, m, env, top, h, ws);
    ConfiguringSize(h);
    Shell.LeadArgs(h, ws);
  }

  lemma FullKeyword(mode: Mode, s: string)
    requires IsLiteral(s) && !IsIpv4(s)
    ensures FullyAt(mode, [s], s)
  {
    assert s in [s] && FullyIs(mode, s, s);
  }

  lemma FullVariable(mode: Mode, v: string, w: string)
    requires !IsLiteral(v) && !IsIpv4(v)
    ensures FullyAt(mode, [v], w)
  {
    assert v in [v] && FullyIs(mode, v, w);
  }

  lemma FullAddress(mode: Mode, w: string)
    requires |w| > 0 && AddressOk(mode, Ipv4.Match(w))
    ensures FullyAt(mode, ["A.B.C.D"], w)
  {
    assert "A.B.C.D" in ["A.B.C.D"] && FullyIs(mode, "A.B.C.D", w);
  }

  /** The keywords at the front of a template were typed. */
  lemma FullFront(mode: Mode, t: seq<seq<string>>, lead: seq<string>, ws: seq<string>)
    requires |lead| <= |t| && lead <= ws && forall i :: 0 <= i < |lead| ==> t[i] == [lead[i]] && IsLiteral(lead[i])
    ensures forall i :: 0 <= i < |lead| ==> FullyAt(mode, t[i], ws[i])
  {
    forall i | 0 <= i < |lead| ensures FullyAt(mode, t[i], ws[i]) { FullKeyword(mode, lead[i]); }
  }

  // ---- Deleting by a prefix ----

  /** l is the first line that begins with the text. */
  ghost predicate FirstWith(top: seq<string>, left: string, l: string) {
    l in top && left <= l && forall x :: x in top && left <= x ==> x == l || Less(l, x)
  }

  lemma DelLeftTakesFirst(top: seq<string>, left: string)
    requires StrictlyIncreasing(top)
    ensures forall l :: l in DelLeft(top, left) <==> l in top && !FirstWith(top, left, l)
  {
    var p := (l: string) => left <= l;
    RemoveFirstKeeps(top, p);
    var k := Find(top, p);
    if k < |top| {
      FoundIsFirst(top, left, k);
      forall l | FirstWith(top, left, l) ensures l == top[k] { FirstIsOne(top, left, l, top[k]); }
    } else {
      forall l | l in top ensures !(left <= l) {
        var i :| 0 <= i < |top| && top[i] == l;
        assert !p(top[i]);
      }
    }
  }

  lemma FirstIsOne(top: seq<string>, left: string, l: string, l': string)
    requires FirstWith(top, left, l) && FirstWith(top, left, l')
    ensures l == l'
  {
    if l != l' {
      LessTransitive(l, l', l);
      LessIrreflexive(l);
    }
  }

  lemma FoundIsFirst(top: seq<string>, left: string, k: nat)
    requires StrictlyIncreasing(top) && k == Find(top, (l: string) => left <= l) && k < |top|
    ensures FirstWith(top, left, top[k])
  {
    var p := (l: string) => left <= l;
    assert p(top[k]) && top[k] in top;
    forall x | x in top && left <= x ensures x == top[k] || Less(top[k], x) {
      var j :| 0 <= j < |top| && top[j] == x;
      assert p(top[j]);
      NotBefore(top, k, j);
    }
  }

  lemma NotBefore(top: seq<string>, k: nat, j: nat)
    requires StrictlyIncreasing(top) && k <= j < |top|
    ensures top[j] == top[k] || Less(top[k], top[j])
  {
  }

  lemma DelLeftTakesKey(top: seq<string>, left: string, k: Key)
    requires Inv(top) && PrefixIsKey(left, k)
    ensures forall l :: l in DelLeft(top, left) <==> l in top && KeyOfLine(l) != k
  {
    DelLeftTakesFirst(top, left);
    forall l | l in top ensures FirstWith(top, left, l) <==> KeyOfLine(l) == k {
    }
  }

  // ---- Plans of one deletion ----

  lemma OneLine(top: seq<string>, h: Handler, argv: seq<string>, env: Env, line: string)
    requires Inv(top) && Fits(h, |argv|) && Plan(h, argv, env) == Some([Del(line)])
    ensures forall l :: l in Effect(top, h, argv, env) <==> l in top && l != line
  {
    Runs.ApplyOne(top, Del(line));
    DelLineClears(top, line);
  }

  lemma OnePrefix(top: seq<string>, h: Handler, argv: seq<string>, env: Env, left: string)
    requires Inv(top) && Fits(h, |argv|) && Plan(h, argv, env) == Some([DelPrefix(left)])
    ensures forall l :: l in Effect(top, h, argv, env) <==> l in top && !FirstWith(top, left, l)
  {
    Runs.ApplyOne(top, DelPrefix(left));
    DelLeftTakesFirst(top, left);
  }

  lemma OneKey(top: seq<string>, h: Handler, argv: seq<string>, env: Env, left: string, k: Key)
    requires Inv(top) && Fits(h, |argv|) && Plan(h, argv, env) == Some([DelPrefix(left)]) && PrefixIsKey(left, k)
    ensures forall l :: l in Effect(top, h, argv, env) <==> l in top && KeyOfLine(l) != k
  {
    Runs.ApplyOne(top, DelPrefix(left));
    DelLeftTakesKey(top, left, k);
  }

  // ---- no wg peer, no nameserver, no hostname ----

  /** The words fit the template position by position. */
  lemma FitsTemplate(mode: Mode, h: Handler, ws: seq<string>)
    requires Configuring(h) && |ws| == |Template(h)| && !Claimed(mode, h, ws)
    requires forall i :: 0 <= i < |ws| ==> FullyAt(mode, Template(h)[i], ws[i])
    ensures Typed(mode, h, ws)
  {
    ConfiguringSize(h);
  }

  lemma NoPeerTyped(mode: Mode, key: string)
    ensures Typed(mode, NoWgPeer, ["no", "wg", "peer", key])
  {
    var ws := ["no", "wg", "peer", key];
    FullFront(mode, Template(NoWgPeer), ["no", "wg", "peer"], ws);
    FullVariable(mode, "PUBLICKEY", key);
    FitsTemplate(mode, NoWgPeer, ws);
  }

  lemma PeerGone(top: seq<string>, key: string, env: Env)
    requires Inv(top) && IsWord(key)
    ensures var r := Effect(top, NoWgPeer, [key], env);
            && (forall l :: l in r <==> l in top && !FirstWith(top, Line(["wg", "peer", key]), l))
            && (|key| == 44 ==> forall l :: l in r <==> l in top && KeyOfLine(l) != PeerKey(key))
  {
    var left := Line(["wg", "peer", key]);
    OnePrefix(top, NoWgPeer, [key], env, left);
    if |key| == 44 {
      PeerPrefix(key);
      OneKey(top, NoWgPeer, [key], env, left, PeerKey(key));
    }
  }

  /** no wg peer KEY: the first line for a key that begins so, and for a whole key just that peer's line. */
  lemma NoPeer(mode: Mode, m: Matchers, env: Env, top: seq<string>, key: string)
    requires Inv(top) && PlainLine(["no", "wg", "peer", key])
    ensures var r := Step(m, top, Input(mode, Line(["no", "wg", "peer", key]), env));
            && (forall l :: l in r <==> l in top && !FirstWith(top, Line(["wg", "peer", key]), l))
            && (|key| == 44 ==> forall l :: l in r <==> l in top && KeyOfLine(l) != PeerKey(key))
  {
    var ws := ["no", "wg", "peer", key];
    NoPeerTyped(mode, key);
    LeadStep(mode, m, env, top, NoWgPeer, ws, [key]);
    assert IsWord(ws[3]);
    PeerGone(top, key, env);
  }

  lemma NoNameserverTyped(mode: Mode)
    ensures Typed(mode, NoDns, ["no", "nameserver"])
  {
    var ws := ["no", "nameserver"];
    FullFront(mode, Template(NoDns), ws, ws);
    FitsTemplate(mode, NoDns, ws);
  }

  /** no nameserver: the name server line. */
  lemma NoNameserver(mode: Mode, m: Matchers, env: Env, top: seq<string>)
    requires Inv(top) && PlainLine(["no", "nameserver"])
    ensures var r := Step(m, top, Input(mode, Line(["no", "nameserver"]), env));
            forall l :: l in r <==> l in top && KeyOfLine(l) != DnsKey
  {
    NoNameserverTyped(mode);
    LeadStep(mode, m, env, top, NoDns, ["no", "nameserver"], []);
    NameserverPrefix();
    OneKey(top, NoDns, [], env, "nameserver", DnsKey);
  }

  lemma HostnameSpace()
    ensures PrefixIsKey("hostname ", HostKey)
  {
    HostnamePrefix();
    forall l | Good(l) ensures "hostname " <= l <==> KeyOfLine(l) == HostKey {
      assert "hostname" <= "hostname ";
      if KeyOfLine(l) == HostKey {
        var ws := Words(l);
        assert ws == ["hostname"] + [ws[1]];
        LineSplit(["hostname"], [ws[1]]);
      }
    }
  }

  lemma NoHostnameTyped(mode: Mode, given: seq<string>)
    requires |given| <= 1
    ensures Typed(mode, NoHostname, ["no", "hostname"] + given)
  {
    var ws := ["no", "hostname"] + given;
    ConfiguringSize(NoHostname);
    FullFront(mode, Template(NoHostname), ["no", "hostname"], ws);
    if |given| == 1 { FullVariable(mode, "[HOSTNAME]", given[0]); }
  }

  lemma HostnameGone(top: seq<string>, given: seq<string>, env: Env)
    requires Inv(top) && |given| <= 1
    ensures forall l :: l in Effect(top, NoHostname, given, env) <==> l in top && KeyOfLine(l) != HostKey
  {
    HostnameSpace();
    OneKey(top, NoHostname, given, env, "hostname ", HostKey);
  }

  /** no hostname, with or without the name: the hostname line, whatever it says. */
  lemma NoHostnameLine(mode: Mode, m: Matchers, env: Env, top: seq<string>, given: seq<string>)
    requires Inv(top) && |given| <= 1 && PlainLine(["no", "hostname"] + given)
    ensures var r := Step(m, top, Input(mode, Line(["no", "hostname"] + given), env));
            forall l :: l in r <==> l in top && KeyOfLine(l) != HostKey
  {
    NoHostnameTyped(mode, given);
    LeadStep(mode, m, env, top, NoHostname, ["no", "hostname"] + given, given);
    HostnameGone(top, given, env);
  }

  // ---- no bridge ----

  lemma NoDisableTyped(mode: Mode)
    ensures Typed(mode, NoBridgeDisable, ["no", "bridge", "disable"])
  {
    var ws := ["no", "bridge", "disable"];
    FullFront(mode, Template(NoBridgeDisable), ws, ws);
    FitsTemplate(mode, NoBridgeDisable, ws);
  }

  /** no bridge disable: just that line. */
  lemma NoBridgeDisableLine(mode: Mode, m: Matchers, env: Env, top: seq<string>)
    requires Inv(top) && PlainLine(["no", "bridge", "disable"])
    ensures var r := Step(m, top, Input(mode, Line(["no", "bridge", "disable"]), env));
            forall l :: l in r <==> l in top && l != "bridge disable"
  {
    NoDisableTyped(mode);
    LeadStep(mode, m, env, top, NoBridgeDisable, ["no", "bridge", "disable"], []);
    OneLine(top, NoBridgeDisable, [], env, "bridge disable");
  }

  lemma NoBridgeTyped(mode: Mode, d: string)
    requires !Touches(mode, "disable", d)
    ensures Typed(mode, NoBridgeAdd, ["no", "bridge", d])
  {
    var ws := ["no", "bridge", d];
    FullFront(mode, Template(NoBridgeAdd), ["no", "bridge"], ws);
    FullVariable(mode, "NUM", d);
    FitsTemplate(mode, NoBridgeAdd, ws);
  }

  lemma BridgeGone(top: seq<string>, d: string, env: Env)
    requires Inv(top)
    ensures var r := Effect(top, NoBridgeAdd, [d], env);
            if 1 <= Atoi(d) <= 9 then forall l :: l in r <==> l in top && KeyOfLine(l) != BridgeKey(Show(Atoi(d)))
            else r == top
  {
    if 1 <= Atoi(d) <= 9 {
      var n := Show(Atoi(d));
      Runs.CleanShow(Atoi(d));
      assert IsWord([n][0]);
      BridgePrefix(n);
      OneKey(top, NoBridgeAdd, [d], env, Line(["bridge", n]), BridgeKey(n));
    }
  }

  /** no bridge NUM: the line of that bridge for a number from 1 to 9, however it is written; otherwise nothing. */
  lemma NoBridgeLine(mode: Mode, m: Matchers, env: Env, top: seq<string>, d: string)
    requires Inv(top) && PlainLine(["no", "bridge", d]) && !Touches(mode, "disable", d)
    ensures var r := Step(m, top, Input(mode, Line(["no", "bridge", d]), env));
            if 1 <= Atoi(d) <= 9 then forall l :: l in r <==> l in top && KeyOfLine(l) != BridgeKey(Show(Atoi(d)))
            else r == top
  {
    NoBridgeTyped(mode, d);
    LeadStep(mode, m, env, top, NoBridgeAdd, ["no", "bridge", d], [d]);
    BridgeGone(top, d, env);
  }

  // ---- no ip ----

  lemma NoAddressTyped(mode: Mode, name: string)
    ensures Typed(mode, NoIpAddress, ["no", "ip", "address", name])
  {
    var ws := ["no", "ip", "address", name];
    FullFront(mode, Template(NoIpAddress), ["no", "ip", "address"], ws);
    FullVariable(mode, "ETHNAME", name);
    FitsTemplate(mode, NoIpAddress, ws);
  }

  /** no ip address NAME, for a supported interface and confirmed: the first line whose interface begins so; that is the
      interface's own line if it is configured, and nothing if no configured name begins so. */
  lemma NoAddress(mode: Mode, m: Matchers, env: Env, top: seq<string>, name: string)
    requires Inv(top) && PlainLine(["no", "ip", "address", name])
    ensures var r := Step(m, top, Input(mode, Line(["no", "ip", "address", name]), env));
            && (if Supported(name) && env.confirmed then forall l :: l in r <==> l in top && !FirstWith(top, Line(["ip", "address", name]), l)
                else r == top)
            && (Supported(name) && env.confirmed && (Consequences.Configured(top, name) || !Consequences.ExtendedName(top, name)) ==>
                  forall l :: l in r <==> l in top && KeyOfLine(l) != AddressKey(name))
  {
    var ws := ["no", "ip", "address", name];
    NoAddressTyped(mode, name);
    LeadStep(mode, m, env, top, NoIpAddress, ws, [name]);
    assert IsWord(ws[3]);
    AddressGone(top, name, env);
  }

  lemma AddressGone(top: seq<string>, name: string, env: Env)
    requires Inv(top) && IsWord(name)
    ensures var r := Effect(top, NoIpAddress, [name], env);
            && (if Supported(name) && env.confirmed then forall l :: l in r <==> l in top && !FirstWith(top, Line(["ip", "address", name]), l)
                else r == top)
            && (Supported(name) && env.confirmed && (Consequences.Configured(top, name) || !Consequences.ExtendedName(top, name)) ==>
                  forall l :: l in r <==> l in top && KeyOfLine(l) != AddressKey(name))
  {
    var left := Line(["ip", "address", name]);
    if Supported(name) && env.confirmed {
      OnePrefix(top, NoIpAddress, [name], env, left);
      Runs.ApplyOne(top, DelPrefix(left));
      if Consequences.Configured(top, name) || !Consequences.ExtendedName(top, name) { AddressDeleted(top, name); }
    }
  }

  lemma AddressDeleted(top: seq<string>, name: string)
    requires Inv(top) && IsWord(name) && (Consequences.Configured(top, name) || !Consequences.ExtendedName(top, name))
    ensures forall l :: l in DelLeft(top, Line(["ip", "address", name])) <==> l in top && KeyOfLine(l) != AddressKey(name)
  {
    var left := Line(["ip", "address", name]);
    Consequences.AddressDeleteSparesOthersIff(top, name);
    AddressHits(top, name);
    DelLeftClears(top, left, AddressKey(name));
    DelLeftTakesFirst(top, left);
  }

  lemma NoRouteTyped(mode: Mode, a: string, b: string)
    requires |a| > 0 && |b| > 0 && AddressOk(mode, Ipv4.Match(a)) && AddressOk(mode, Ipv4.Match(b))
    ensures Typed(mode, NoIpRoute, ["no", "ip", "route", a, b])
  {
    var ws := ["no", "ip", "route", a, b];
    FullFront(mode, Template(NoIpRoute), ["no", "ip", "route"], ws);
    FullAddress(mode, a);
    FullAddress(mode, b);
    FitsTemplate(mode, NoIpRoute, ws);
  }

  /** no ip route A B: the first line that begins with the route. */
  lemma NoRoute(mode: Mode, m: Matchers, env: Env, top: seq<string>, a: string, b: string)
    requires Inv(top) && PlainLine(["no", "ip", "route", a, b]) && AddressOk(mode, Ipv4.Match(a)) && AddressOk(mode, Ipv4.Match(b))
    ensures var r := Step(m, top, Input(mode, Line(["no", "ip", "route", a, b]), env));
            forall l :: l in r <==> l in top && !FirstWith(top, Line(["ip", "route", a, b]), l)
  {
    var ws := ["no", "ip", "route", a, b];
    assert IsWord(ws[3]) && IsWord(ws[4]);
    NoRouteTyped(mode, a, b);
    LeadStep(mode, m, env, top, NoIpRoute, ws, [a, b]);
    RouteGone(top, a, b, env);
  }

  lemma RouteGone(top: seq<string>, a: string, b: string, env: Env)
    requires Inv(top)
    ensures forall l :: l in Effect(top, NoIpRoute, [a, b], env) <==> l in top && !FirstWith(top, Line(["ip", "route", a, b]), l)
  {
    var left := Line(["ip", "route", a, b]);
    assert ["ip", "route"] + [a, b] == ["ip", "route", a, b];
    OnePrefix(top, NoIpRoute, [a, b], env, left);
  }

  /** As long as a route to that network is recorded, the line taken is one: a longer mask sorts behind it. */
  lemma NoRouteTakesItsOwn(top: seq<string>, a: string, b: string, l: string, own: string)
    requires Inv(top) && IsWord(a) && IsWord(b) && FirstWith(top, Line(["ip", "route", a, b]), l)
    requires own in top && ["ip", "route", a, b] <= Words(own)
    ensures ["ip", "route", a, b] <= Words(l)
  {
    var p := ["ip", "route", a, b];
    StartsWith(own, p);
    LinePrefixWords(p, Words(l));
    var b' := Words(l)[3];
    if b' != b {
      LongerMaskSortsLater(own, l, a, b, b');
    }
  }

  lemma LongerMaskSortsLater(own: string, l: string, a: string, b: string, b': string)
    requires Good(own) && Good(l) && IsWord(a) && IsWord(b) && ["ip", "route", a, b] <= Words(own) && ["ip", "route", a, b'] <= Words(l)
    requires b < b'
    ensures l != own && !Less(l, own)
  {
    var p := ["ip", "route", a, b];
    assert Words(l)[3] == b' && Words(own)[3] == b && l != own;
    StartsWith(l, ["ip", "route", a, b']);
    LineSplit(["ip", "route", a], [b']);
    LineSplit(["ip", "route", a], [b]);
    assert ["ip", "route", a] + [b'] == ["ip", "route", a, b'] && ["ip", "route", a] + [b] == p;
    LineSplit(p, Words(own)[4..]);
    assert Words(own) == p + Words(own)[4..];
    SpaceFirst(l, own, Line(p));
  }

  // ---- no sfirewall ----

  /** The words behind the keywords fit the arguments of the template. */
  lemma FitsArgs(mode: Mode, h: Handler, lead: seq<string>, t: seq<seq<string>>, args: seq<string>)
    requires Configuring(h) && !Claimed(mode, h, lead + args) && |args| == |t| && |Template(h)| == |lead| + |t|
    requires forall i :: 0 <= i < |lead| ==> Template(h)[i] == [lead[i]] && IsLiteral(lead[i])
    requires Template(h)[|lead|..] == t && forall i :: 0 <= i < |args| ==> FullyAt(mode, t[i], args[i])
    ensures Typed(mode, h, lead + args)
  {
    FullFront(mode, Template(h), lead, lead + args);
    forall i | 0 <= i < |lead + args| ensures FullyAt(mode, Template(h)[i], (lead + args)[i]) {
      if i >= |lead| { assert Template(h)[i] == Template(h)[|lead|..][i - |lead|]; }
    }
    FitsTemplate(mode, h, lead + args);
  }

  ghost predicate FullArgs(mode: Mode, t: seq<seq<string>>, args: seq<string>) {
    |args| == |t| && forall i :: 0 <= i < |args| ==> FullyAt(mode, t[i], args[i])
  }

  lemma NoPortmapTemplate()
    ensures var t := Template(NoPortmap); |PORTMAP_ARGS| == 6 && |t| == 10 && t[4..] == PORTMAP_ARGS
    ensures var t := Template(NoPortmap); t[0] == ["no"] && t[1] == ["sfirewall"] && t[2] == ["nat"] && t[3] == ["portmap"]
  {
  }

  lemma NoPortmapTyped(mode: Mode, args: seq<string>)
    requires FullArgs(mode, PORTMAP_ARGS, args)
    ensures |args| == 6 && Typed(mode, NoPortmap, ["no", "sfirewall", "nat", "portmap"] + args)
  {
    NoPortmapTemplate();
    FitsArgs(mode, NoPortmap, ["no", "sfirewall", "nat", "portmap"], PORTMAP_ARGS, args);
  }

  lemma PortmapGone(top: seq<string>, args: seq<string>, env: Env)
    requires Inv(top) && |args| == 6
    ensures var r := Effect(top, NoPortmap, args, env);
            if FirstIsDigit(args[0]) && (args[3] == "all" ==> args[4] == "0" && args[5] == "0")
            then forall l :: l in r <==> l in top && l != Line(["sfirewall", "nat", "portmap"] + args)
            else r == top
  {
    if PortmapOk(args) { OneLine(top, NoPortmap, args, env, Line(["sfirewall", "nat", "portmap"] + args)); }
  }

  /** no sfirewall nat portmap ...: just the line of that map, if the handler takes the arguments. */
  lemma NoPortmapLine(mode: Mode, m: Matchers, env: Env, top: seq<string>, args: seq<string>)
    requires Inv(top) && PlainLine(["no", "sfirewall", "nat", "portmap"] + args) && FullArgs(mode, PORTMAP_ARGS, args)
    ensures |args| == 6
    ensures var r := Step(m, top, Input(mode, Line(["no", "sfirewall", "nat", "portmap"] + args), env));
            if FirstIsDigit(args[0]) && (args[3] == "all" ==> args[4] == "0" && args[5] == "0")
            then forall l :: l in r <==> l in top && l != Line(["sfirewall", "nat", "portmap"] + args)
            else r == top
  {
    NoPortmapTyped(mode, args);
    LeadStep(mode, m, env, top, NoPortmap, ["no", "sfirewall", "nat", "portmap"] + args, args);
    PortmapGone(top, args, env);
  }

  lemma NoFilterTemplate()
    ensures var t := Template(NoFilter); |FILTER_ARGS| == 13 && |t| == 16 && t[3..] == FILTER_ARGS
    ensures var t := Template(NoFilter); t[0] == ["no"] && t[1] == ["sfirewall"] && t[2] == ["filter"]
  {
  }

  lemma NoFilterTyped(mode: Mode, args: seq<string>)
    requires FullArgs(mode, FILTER_ARGS, args)
    ensures |args| == 13 && Typed(mode, NoFilter, ["no", "sfirewall", "filter"] + args)
  {
    NoFilterTemplate();
    FitsArgs(mode, NoFilter, ["no", "sfirewall", "filter"], FILTER_ARGS, args);
  }

  lemma FilterGone(top: seq<string>, args: seq<string>, env: Env)
    requires Inv(top) && |args| == 13
    ensures var r := Effect(top, NoFilter, args, env);
            if FilterOk(args) then forall l :: l in r <==> l in top && l != Line(["sfirewall", "filter"] + args)
            else r == top
  {
    if FilterOk(args) { OneLine(top, NoFilter, args, env, Line(["sfirewall", "filter"] + args)); }
  }

  /** no sfirewall filter ...: just the line of that rule, if the handler takes the arguments. */
  lemma NoFilterLine(mode: Mode, m: Matchers, env: Env, top: seq<string>, args: seq<string>)
    requires Inv(top) && PlainLine(["no", "sfirewall", "filter"] + args) && FullArgs(mode, FILTER_ARGS, args)
    ensures |args| == 13
    ensures var r := Step(m, top, Input(mode, Line(["no", "sfirewall", "filter"] + args), env));
            if FilterOk(args) then forall l :: l in r <==> l in top && l != Line(["sfirewall", "filter"] + args)
            else r == top
  {
    NoFilterTyped(mode, args);
    LeadStep(mode, m, env, top, NoFilter, ["no", "sfirewall", "filter"] + args, args);
    FilterGone(top, args, env);
  }
}
