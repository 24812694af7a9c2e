/** The JSON store of clients with its in-memory index, changed in place by the handlers of routes.go. */
module ClientStore {
  import opened CText
  import opened Addresses
  import opened Networks
  import opened Allocation
  import opened TgIndex
  import opened Clients

  method SomeId(ids: set<string>) returns (id: string)
    requires ids != {}
    ensures id in ids
  {
    id :| id in ids;
  }

  /** The addresses of a list of texts, or nothing as soon as one does not parse. */
  method ParseAll(texts: seq<Option<CIDR>>) returns (ok: bool, list: seq<Addr>)
    ensures ok <==> None !in texts
    ensures ok ==> forall a :: a in list <==> exists c: CIDR :: c.ip == a && Some(c) in texts
  {
    list := [];
    for k := 0 to |texts|
      invariant None !in texts[..k]
      invariant forall a :: a in list <==> exists c: CIDR :: c.ip == a && Some(c) in texts[..k]
    {
      if texts[k].None? {
        return false, list;
      }
      assert texts[..k + 1] == texts[..k] + [texts[k]];
      list := list + [texts[k].value.ip];
    }
    assert texts[..|texts|] == texts;
    ok := true;
  }

  /** What SuggestIPAllocation searches: the chosen subnet range, or the server's own addresses. */
  function Searched(server: seq<Option<CIDR>>, ranges: map<string, seq<CIDR>>, sr: string): seq<Option<CIDR>> {
    if sr in ranges then seq(|ranges[sr]|, i requires 0 <= i < |ranges[sr]| => Some(ranges[sr][i])) else server
  }

  class Store {
    var clients: map<string, Client>
    var server: seq<Option<CIDR>>
    var tg: Index

    ghost function View(): State
      reads this
    {
      State(clients, server, tg)
    }

    /** GetAllocatedIPs: one text that does not parse is an error with the nil list. The clients come in any order. */
    method GetAllocatedIPs(ignore: string) returns (err: bool, list: seq<Addr>)
      ensures err <==> Texts(View(), ignore, None)
      ensures forall a :: a in list <==> Taken(View(), ignore, a)
    {
      var ok, mine := ParseAll(server);
      err, list := true, [];
      if !ok {
        assert Texts(View(), ignore, None);
        return;
      }
      var found := mine;
      var left: set<string> := clients.Keys;
      while left != {}
        invariant left <= clients.Keys
        invariant !Seen(clients, server, left, ignore, None)
        invariant forall a :: a in found <==> exists c: CIDR :: c.ip == a && Seen(clients, server, left, ignore, Some(c))
        decreases |left|
      {
        var id := SomeId(left);
        ghost var before := left;
        left := left - {id};
        if id != ignore {
          var ok', theirs := ParseAll(clients[id].addresses);
          if !ok' {
            assert Texts(View(), ignore, None);
            return;
          }
          found := found + theirs;
        }
      }
      err, list := false, found;
    }

    method SaveClient(id: string, c: Client)
      modifies this
      ensures View() == Save(old(View()), id, c)
    {
      clients := clients[id := c];
      if c.enabled && |c.tg| > 0 {
        var userid := ParseInt(c.tg);
        if userid.Some? {
          tg := UpdateTgToClientID(tg, userid.value, id);
        }
      } else {
        tg := RemoveTgToClientID(tg, id);
      }
    }

    method DeleteClient(id: string)
      modifies this
      ensures View() == Delete(old(View()), id)
    {
      tg := RemoveTgToClientID(tg, id);
      clients := clients - {id};
    }

    method PublicKeyInUse(key: string) returns (yes: bool)
      ensures yes == KeyInUse(View(), key)
    {
      var left: set<string> := clients.Keys;
      while left != {}
        invariant left <= clients.Keys && forall id :: id in clients && id !in left ==> clients[id].publicKey != key
        decreases |left|
      {
        var id := SomeId(left);
        if clients[id].publicKey == key {
          return true;
        }
        left := left - {id};
      }
      return false;
    }

    method CheckAddresses(ignore: string, list: seq<Option<CIDR>>) returns (ok: bool)
      ensures ok == ValidAddresses(View(), ignore, list)
    {
      var _, used := GetAllocatedIPs(ignore);
      ok := ValidateIPAllocation(server, used, list);
    }

    /** The search over the given networks, or the error of GetAllocatedIPs. */
    method ProposeFrom(search: seq<Option<CIDR>>) returns (err: bool, found: set<CIDR>)
      requires forall i :: 0 <= i < |search| ==> EndsOn(View(), search[i])
      ensures err <==> Texts(View(), "", None)
      ensures !err ==> forall c :: c in found <==> ProposedOn(View(), search, c)
      ensures !err && SearchCovered(server, search) ==> forall c :: c in found ==> ValidAddresses(View(), "", [Some(c)])
    {
      var used;
      err, used := GetAllocatedIPs("");
      found := {};
      if !err {
        SameEnds(View(), used, search);
        found := SuggestFrom(server, used, search);
        AllProposed(View(), used, search, found);
        AllValid(View(), used, search, found);
      }
    }

    /** SuggestIPAllocation: an error, or the least free addresses of the searched networks. When these lie inside the
        server's networks, as its own do, every suggestion passes the validation of a new client on this very store. */
    method SuggestIPAllocation(ranges: map<string, seq<CIDR>>, sr: string) returns (suggested: Option<set<CIDR>>)
      requires forall i :: 0 <= i < |Searched(server, ranges, sr)| ==> EndsOn(View(), Searched(server, ranges, sr)[i])
      ensures suggested.None? <==> Texts(View(), "", None) || forall c :: !ProposedOn(View(), Searched(server, ranges, sr), c)
      ensures suggested.Some? ==> forall c :: c in suggested.value <==> ProposedOn(View(), Searched(server, ranges, sr), c)
      ensures suggested.Some? && (sr !in ranges || SearchCovered(server, Searched(server, ranges, sr))) ==>
        forall c :: c in suggested.value ==> ValidAddresses(View(), "", [Some(c)])
    {
      var search := Searched(server, ranges, sr);
      ghost var s := View();
      var err, found := ProposeFrom(search);
      assert View() == s;
      if err {
        return None;
      }
      if found == {} {
        NothingProposed(s, search, found);
        return None;
      }
      SomethingProposed(s, search, found);
      if sr !in ranges { OwnNetworksCovered(server); }
      suggested := Some(found);
    }

    method NewClient(id: string, c: Client, checks: Checks, generated: string)
      modifies this
      ensures View() == Step(old(View()), New(id, c, checks, generated))
      ensures server == old(server)
      ensures clients ==
        if TgOk(c.tg) && ValidAddresses(old(View()), "", c.addresses) && checks.allowed && checks.presharedKey
           && (c.publicKey == "" || (checks.publicKey && !KeyInUse(old(View()), c.publicKey)))
        then old(clients)[id := Client(if c.publicKey == "" then generated else c.publicKey, c.tg, c.addresses, c.enabled)]
        else old(clients)
      ensures IndexExact(old(clients), old(tg)) ==> IndexExact(clients, tg)
    {
      ghost var was := View();
      if !TgOk(c.tg) {
        return;
      }
      var valid := CheckAddresses("", c.addresses);
      if !valid || !checks.allowed {
        return;
      }
      var client := c;
      if c.publicKey == "" {
        client := c.(publicKey := generated);
      } else {
        if !checks.publicKey {
          return;
        }
        var duplicate := PublicKeyInUse(c.publicKey);
        if duplicate {
          return;
        }
      }
      if !checks.presharedKey {
        return;
      }
      SaveClient(id, client);
      if IndexExact(was.clients, was.tg) { StepIndexExact(was, New(id, c, checks, generated)); }
    }

    method UpdateClient(id: string, c: Client, checks: Checks)
      modifies this
      ensures View() == Step(old(View()), Update(id, c, checks))
      ensures server == old(server)
      ensures clients ==
        if id in old(clients) && TgOk(c.tg) && ValidAddresses(old(View()), id, c.addresses) && checks.allowed && checks.presharedKey
           && (c.publicKey == "" || c.publicKey == old(clients)[id].publicKey || (checks.publicKey && !KeyInUse(old(View()), c.publicKey)))
        then old(clients)[id := c] else old(clients)
      ensures IndexExact(old(clients), old(tg)) ==> IndexExact(clients, tg)
    {
      ghost var was := View();
      if id !in clients || !TgOk(c.tg) {
        return;
      }
      var valid := CheckAddresses(id, c.addresses);
      if !valid || !checks.allowed {
        return;
      }
      if clients[id].publicKey != c.publicKey && c.publicKey != "" {
        if !checks.publicKey {
          return;
        }
        var duplicate := PublicKeyInUse(c.publicKey);
        if duplicate {
          return;
        }
      }
      if !checks.presharedKey {
        return;
      }
      SaveClient(id, c);
      if IndexExact(was.clients, was.tg) { StepIndexExact(was, Update(id, c, checks)); }
    }

    method SetClientStatus(id: string, status: bool)
      modifies this
      ensures View() == Step(old(View()), SetStatus(id, status))
      ensures server == old(server)
      ensures if id in old(clients) then clients == old(clients)[id := old(clients)[id].(enabled := status)]
              else clients == old(clients) && tg == old(tg)
      ensures id in old(clients) && IndexExact(old(clients), old(tg)) ==>
        forall u :: Lists(tg, u, id) <==> status && ParseInt(old(clients)[id].tg) == Some(u)
    {
      if id !in clients {
        return;
      }
      ghost var was := View();
      SaveClient(id, clients[id].(enabled := status));
      if IndexExact(was.clients, was.tg) { StepIndexExact(was, SetStatus(id, status)); }
    }

    method RemoveClient(id: string)
      modifies this
      ensures View() == Step(old(View()), Remove(id))
      ensures clients == old(clients) - {id} && server == old(server)
      ensures IndexExact(old(clients), old(tg)) ==> forall u :: !Lists(tg, u, id)
    {
      ghost var was := View();
      DeleteClient(id);
      if IndexExact(was.clients, was.tg) { StepIndexExact(was, Remove(id)); }
    }

    method WireGuardServerInterfaces(addresses: seq<Option<CIDR>>)
      modifies this
      ensures View() == Step(old(View()), SetServer(addresses))
      ensures clients == old(clients) && tg == old(tg) && server == if None in addresses then old(server) else addresses
    {
      var ok, _ := ParseAll(addresses);
      if !ok {
        return;
      }
      server := addresses;
    }

    /** The cache part of Init: the index of the stored clients, whatever the order they are read in. */
    method InitIndex()
      modifies this`tg
      ensures IndexExact(clients, tg)
    {
      tg := map[];
      var left: set<string> := clients.Keys;
      while left != {}
        invariant left <= clients.Keys
        invariant Tidy(tg) && forall u, id :: Lists(tg, u, id) <==> Linked(clients, u, id) && id !in left
        decreases |left|
      {
        var id := SomeId(left);
        ghost var was := tg;
        left := left - {id};
        var client := clients[id];
        if client.enabled && |client.tg| > 0 {
          var userid := ParseInt(client.tg);
          if userid.Some? {
            DetachLists(tg, id);
            AttachLists(Detach(tg, id), userid.value, id);
            tg := UpdateTgToClientID(tg, userid.value, id);
          }
        }
        assert ParseInt("").None?;
        assert forall u, x :: Lists(was, u, x) ==> Linked(clients, u, x);
      }
    }
  }

  /** The texts read so far. */
  ghost predicate Seen(clients: map<string, Client>, server: seq<Option<CIDR>>, left: set<string>, ignore: string, c: Option<CIDR>) {
    c in server || exists id :: id in clients && id !in left && id != ignore && c in clients[id].addresses
  }


  /** c is the least address of a searched network that is neither taken nor reserved. */
  ghost predicate ProposedOn(s: State, search: seq<Option<CIDR>>, c: CIDR) {
    && c.ones == 8 * |c.ip|
    && exists i :: 0 <= i < |search| && search[i].Some? && LeastOn(s, NetOf(search[i].value), c.ip)
  }

  ghost predicate LeastOn(s: State, n: CIDR, a: Addr) {
    && Contains(n, a) && !Taken(s, "", a) && !Reserved(s.server, a)
    && forall b :: Contains(n, b) && !Taken(s, "", b) && !Reserved(s.server, b) ==> Value(a) <= Value(b)
  }

  lemma SameProposals(s: State, used: seq<Addr>, search: seq<Option<CIDR>>, c: CIDR)
    requires forall a :: a in used <==> Taken(s, "", a)
    ensures Proposed(s.server, used, search, c) <==> ProposedOn(s, search, c)
  {
    forall n: CIDR ensures LeastFree(n, used, s.server, c.ip) <==> LeastOn(s, n, c.ip) { SameLeast(s, used, n, c.ip); }
  }

  lemma SameLeast(s: State, used: seq<Addr>, n: CIDR, a: Addr)
    requires forall a :: a in used <==> Taken(s, "", a)
    ensures LeastFree(n, used, s.server, a) <==> LeastOn(s, n, a)
  {
    forall b ensures Free(used, s.server, b) <==> !Taken(s, "", b) && !Reserved(s.server, b) { }
  }

  lemma ProposedIsValid(s: State, used: seq<Addr>, search: seq<Option<CIDR>>, c: CIDR)
    requires !Texts(s, "", None) && (forall a :: a in used <==> Taken(s, "", a))
    requires SearchCovered(s.server, search) && Proposed(s.server, used, search, c)
    ensures ValidAddresses(s, "", [Some(c)])
  {
    forall i | 0 <= i < |s.server| ensures s.server[i].Some? { assert s.server[i] in s.server; }
    ProposedAccepted(s.server, used, search, c);
  }

  /** Where the prefix is empty some address must be left, or the search does not end. */
  ghost predicate EndsOn(s: State, n: Option<CIDR>) {
    n.Some? && n.value.ones == 0 ==> exists a :: Contains(NetOf(n.value), a) && !Taken(s, "", a) && !Reserved(s.server, a)
  }

  lemma SameEnds(s: State, used: seq<Addr>, search: seq<Option<CIDR>>)
    requires (forall a :: a in used <==> Taken(s, "", a)) && forall i :: 0 <= i < |search| ==> EndsOn(s, search[i])
    ensures forall i :: 0 <= i < |search| ==> SearchEnds(s.server, used, search[i])
  {
    forall i | 0 <= i < |search| ensures SearchEnds(s.server, used, search[i]) {
      assert EndsOn(s, search[i]);
      if search[i].Some? && search[i].value.ones == 0 {
        var a :| Contains(NetOf(search[i].value), a) && !Taken(s, "", a) && !Reserved(s.server, a);
        assert Free(used, s.server, a);
      }
    }
  }

  lemma AllProposed(s: State, used: seq<Addr>, search: seq<Option<CIDR>>, found: set<CIDR>)
    requires (forall a :: a in used <==> Taken(s, "", a)) && forall c :: c in found <==> Proposed(s.server, used, search, c)
    ensures forall c :: c in found <==> ProposedOn(s, search, c)
  {
    forall c ensures c in found <==> ProposedOn(s, search, c) { SameProposals(s, used, search, c); }
  }

  lemma AllValid(s: State, used: seq<Addr>, search: seq<Option<CIDR>>, found: set<CIDR>)
    requires !Texts(s, "", None) && (forall a :: a in used <==> Taken(s, "", a))
    requires forall c :: c in found <==> Proposed(s.server, used, search, c)
    ensures SearchCovered(s.server, search) ==> forall c :: c in found ==> ValidAddresses(s, "", [Some(c)])
  {
    if SearchCovered(s.server, search) {
      forall c | c in found ensures ValidAddresses(s, "", [Some(c)]) { ProposedIsValid(s, used, search, c); }
    }
  }

  lemma SomethingProposed(s: State, search: seq<Option<CIDR>>, found: set<CIDR>)
    requires found != {} && forall c :: c in found <==> ProposedOn(s, search, c)
    ensures exists c :: ProposedOn(s, search, c)
  {
    assert (forall c :: c !in found) ==> found == {};
  }

  lemma NothingProposed(s: State, search: seq<Option<CIDR>>, found: set<CIDR>)
    requires found == {} && forall c :: c in found <==> ProposedOn(s, search, c)
    ensures forall c :: !ProposedOn(s, search, c)
  {
    forall c ensures !ProposedOn(s, search, c) { assert c !in found; }
  }

  /** After ValidateAndFixSubnetRanges every listed range searches only inside the server's networks. */
  lemma FixedRangeSearched(servers: seq<Option<CIDR>>, before: map<string, seq<CIDR>>, after: map<string, seq<CIDR>>, sr: string)
    requires Fixed(servers, before, after, sr) && sr in after && forall n :: n in RangeOf(before, sr) ==> IsNet(n)
    ensures SearchCovered(servers, Searched(servers, after, sr))
  {
    FixedRangeCovered(servers, before, after, sr);
    forall i | 0 <= i < |after[sr]| ensures NetOf(after[sr][i]) == after[sr][i] && CoveredBy(servers, after[sr][i]) {
      assert after[sr][i] in RangeOf(after, sr);
    }
  }
}
