/** The stored WireGuard clients and the handlers that change them, each as one atomic step. */
module Clients {
  import opened CText
  import opened Addresses
  import opened Networks
  import opened Allocation
  import opened TgIndex

  /** Addresses are kept as text; here each is what net.ParseCIDR makes of it. */
  datatype Client = Client(publicKey: string, tg: string, addresses: seq<Option<CIDR>>, enabled: bool)

  datatype State = State(clients: map<string, Client>, server: seq<Option<CIDR>>, tg: Index)

  /** What the checks on allowed networks and on key syntax answer. */
  datatype Checks = Checks(allowed: bool, publicKey: bool, presharedKey: bool)

  datatype Event =
    | New(id: string, client: Client, checks: Checks, generated: string)
    | Update(id: string, client: Client, checks: Checks)
    | SetStatus(id: string, enabled: bool)
    | Remove(id: string)
    | SetServer(server: seq<Option<CIDR>>)

  // ---- GetAllocatedIPs ----

  ghost predicate Texts(s: State, ignore: string, c: Option<CIDR>) {
    c in s.server || exists id :: id in s.clients && id != ignore && c in s.clients[id].addresses
  }

  /** Whether the list holds the address. One text that does not parse makes the list nil. */
  ghost predicate Taken(s: State, ignore: string, a: Addr) {
    !Texts(s, ignore, None) && exists c: CIDR :: c.ip == a && Texts(s, ignore, Some(c))
  }

  ghost predicate ValidAddresses(s: State, ignore: string, list: seq<Option<CIDR>>) {
    forall k :: 0 <= k < |list| ==> list[k].Some? && !Taken(s, ignore, list[k].value.ip) && InServerNetwork(s.server, list[k].value.ip)
  }

  /** A nonempty Telegram user ID must be a nonzero number. */
  predicate TgOk(tg: string) { tg == "" || (ParseInt(tg).Some? && ParseInt(tg) != Some(0)) }

  ghost predicate KeyInUse(s: State, key: string) { exists id :: id in s.clients && s.clients[id].publicKey == key }

  // ---- SaveClient and DeleteClient ----

  function SaveTg(tg: Index, id: string, c: Client): Index {
    if c.enabled && |c.tg| > 0 then
      if ParseInt(c.tg).Some? then Attach(Detach(tg, id), ParseInt(c.tg).value, id) else tg
    else Detach(tg, id)
  }

  function Save(s: State, id: string, c: Client): State {
    State(s.clients[id := c], s.server, SaveTg(s.tg, id, c))
  }

  function Delete(s: State, id: string): State {
    State(s.clients - {id}, s.server, Detach(s.tg, id))
  }

  // ---- The handlers ----

  ghost predicate NewAccepted(s: State, c: Client, checks: Checks) {
    && TgOk(c.tg) && ValidAddresses(s, "", c.addresses) && checks.allowed
    && (c.publicKey != "" ==> checks.publicKey && !KeyInUse(s, c.publicKey))
    && checks.presharedKey
  }

  ghost predicate UpdateAccepted(s: State, id: string, c: Client, checks: Checks) {
    && id in s.clients && TgOk(c.tg) && ValidAddresses(s, id, c.addresses) && checks.allowed
    && (c.publicKey != s.clients[id].publicKey && c.publicKey != "" ==> checks.publicKey && !KeyInUse(s, c.publicKey))
    && checks.presharedKey
  }

  ghost function Step(s: State, e: Event): State {
    match e
    case New(id, c, checks, generated) =>
      if NewAccepted(s, c, checks) then Save(s, id, c.(publicKey := if c.publicKey == "" then generated else c.publicKey)) else s
    case Update(id, c, checks) =>
      if UpdateAccepted(s, id, c, checks) then Save(s, id, c) else s
    case SetStatus(id, enabled) =>
      if id in s.clients then Save(s, id, s.clients[id].(enabled := enabled)) else s
    case Remove(id) => Delete(s, id)
    case SetServer(server) =>
      if forall i :: 0 <= i < |server| ==> server[i].Some? then s.(server := server) else s
  }

  ghost function Run(s: State, es: seq<Event>): State {
    if |es| == 0 then s else Step(Run(s, es[..|es| - 1]), es[|es| - 1])
  }

  // ---- No two clients hold the same host address ----

  ghost predicate Holds(s: State, id: string, a: Addr) {
    id in s.clients && exists c: CIDR :: c.ip == a && Some(c) in s.clients[id].addresses
  }

  ghost predicate NoSharing(s: State) {
    forall id, id', a :: Holds(s, id, a) && Holds(s, id', a) ==> id == id'
  }

  ghost predicate ClientsParse(s: State) {
    forall id :: id in s.clients ==> None !in s.clients[id].addresses
  }

  /** Either every address of the server parses, or the first does not and no address is accepted. */
  predicate ServerSafe(server: seq<Option<CIDR>>) {
    (forall i :: 0 <= i < |server| ==> server[i].Some?) || server[0].None?
  }

  ghost predicate Sound(s: State) {
    ServerSafe(s.server) && ClientsParse(s) && NoSharing(s) && "" !in s.clients
  }

  /** IDs are generated nonempty. */
  predicate NamesClient(e: Event) { e.New? ==> e.id != "" }

  lemma UnsafeHeadAcceptsNothing(s: State, ignore: string, list: seq<Option<CIDR>>)
    requires ServerSafe(s.server) && ValidAddresses(s, ignore, list) && |list| > 0
    ensures forall i :: 0 <= i < |s.server| ==> s.server[i].Some?
  {
    assert InServerNetwork(s.server, list[0].value.ip);
  }

  lemma SavedAddressIsNew(s: State, ignore: string, id: string, list: seq<Option<CIDR>>, id': string, c: CIDR)
    requires Sound(s) && ValidAddresses(s, ignore, list) && (ignore == id || ignore == "")
    requires Some(c) in list && id' != id
    ensures !Holds(s, id', c.ip)
  {
    var k :| 0 <= k < |list| && list[k] == Some(c);
    UnsafeHeadAcceptsNothing(s, ignore, list);
    assert !Texts(s, ignore, None);
    assert !Taken(s, ignore, c.ip);
  }

  lemma SaveNoSharing(s: State, ignore: string, id: string, c: Client)
    requires Sound(s) && ValidAddresses(s, ignore, c.addresses) && (ignore == id || ignore == "")
    ensures NoSharing(Save(s, id, c))
  {
    var t := Save(s, id, c);
    forall x, y, a | Holds(t, x, a) && Holds(t, y, a) ensures x == y {
      if x != y {
        SavedHolds(s, id, c, x, a);
        SavedHolds(s, id, c, y, a);
        var mine, other := if x == id then x else y, if x == id then y else x;
        if mine == id {
          var d: CIDR :| d.ip == a && Some(d) in c.addresses;
          SavedAddressIsNew(s, ignore, id, c.addresses, other, d);
        }
      }
    }
  }

  lemma SavedHolds(s: State, id: string, c: Client, x: string, a: Addr)
    requires Holds(Save(s, id, c), x, a)
    ensures if x == id then exists d: CIDR :: d.ip == a && Some(d) in c.addresses else Holds(s, x, a)
  {
  }

  lemma SaveSound(s: State, ignore: string, id: string, c: Client)
    requires Sound(s) && ValidAddresses(s, ignore, c.addresses) && (ignore == id || ignore == "") && id != ""
    ensures Sound(Save(s, id, c))
  {
    SaveNoSharing(s, ignore, id, c);
  }

  lemma SameAddressesSound(s: State, id: string, c: Client)
    requires Sound(s) && id in s.clients && c.addresses == s.clients[id].addresses
    ensures Sound(Save(s, id, c))
  {
    var t := Save(s, id, c);
    forall x, a | Holds(t, x, a) ensures Holds(s, x, a) { SavedHolds(s, id, c, x, a); }
  }

  lemma DeleteSound(s: State, id: string)
    requires Sound(s)
    ensures Sound(Delete(s, id))
  {
    var t := Delete(s, id);
    forall x, a | Holds(t, x, a) ensures Holds(s, x, a) { }
  }

  lemma ServerSound(s: State, server: seq<Option<CIDR>>)
    requires Sound(s) && forall i :: 0 <= i < |server| ==> server[i].Some?
    ensures Sound(s.(server := server))
  {
    var t := s.(server := server);
    forall x, a | Holds(t, x, a) ensures Holds(s, x, a) { }
  }

  lemma StepSound(s: State, e: Event)
    requires Sound(s) && NamesClient(e)
    ensures Sound(Step(s, e))
  {
    match e {
      case New(id, c, checks, generated) =>
        if NewAccepted(s, c, checks) {
          SaveSound(s, "", id, c.(publicKey := if c.publicKey == "" then generated else c.publicKey));
        }
      case Update(id, c, checks) => if UpdateAccepted(s, id, c, checks) { SaveSound(s, id, id, c); }
      case SetStatus(id, enabled) => if id in s.clients { SameAddressesSound(s, id, s.clients[id].(enabled := enabled)); }
      case Remove(id) => DeleteSound(s, id);
      case SetServer(server) => if forall i :: 0 <= i < |server| ==> server[i].Some? { ServerSound(s, server); }
    }
  }

  /** Whatever the order of new, update, set-status, remove and server-interface steps, two different clients never
      hold the same host address. */
  lemma {:induction false} EveryRunSound(s: State, es: seq<Event>)
    requires Sound(s) && forall k :: 0 <= k < |es| ==> NamesClient(es[k])
    ensures Sound(Run(s, es))
  {
    if |es| > 0 {
      EveryRunSound(s, es[..|es| - 1]);
      StepSound(Run(s, es[..|es| - 1]), es[|es| - 1]);
    }
  }

  // ---- Exactly when ----

  function Empty(server: seq<Option<CIDR>>): State { State(map[], server, map[]) }

  /** A text behind a good first one that does not parse switches the duplicate check off. */
  lemma UnsafeAcceptsAgain(s: State, c: Client)
    requires |s.server| > 0 && s.server[0].Some? && None in s.server && c == Client("", "", [s.server[0]], true)
    ensures NewAccepted(s, c, Checks(true, true, true))
  {
    assert Texts(s, "", None);
    OwnAddressInside(s.server[0].value);
  }

  lemma OwnAddressInside(c: CIDR)
    ensures Contains(NetOf(c), c.ip)
  {
    MaskedTwice(c.ip, c.ones);
  }

  lemma RunTwo(s: State, e: Event, e': Event)
    ensures Run(s, [e, e']) == Step(Step(s, e), e')
  {
    assert [e, e'][..1] == [e] && [e][..0] == [];
    assert Run(s, [e]) == Step(Run(s, []), e);
  }

  lemma SharedByTwo(s: State, id: string, id': string, c: CIDR)
    requires id != id' && id in s.clients && id' in s.clients && Some(c) in s.clients[id].addresses && Some(c) in s.clients[id'].addresses
    ensures !NoSharing(s)
  {
    assert Holds(s, id, c.ip) && Holds(s, id', c.ip);
  }

  /** Two new clients with the server's own address are both accepted. */
  lemma TwiceAccepted(server: seq<Option<CIDR>>, c: Client, e: Event, e': Event)
    requires !ServerSafe(server) && c == Client("", "", [server[0]], true)
    requires e == New("a", c, Checks(true, true, true), "k1") && e' == New("b", c, Checks(true, true, true), "k2")
    ensures !NoSharing(Step(Step(Empty(server), e), e'))
  {
    var s := Empty(server);
    UnsafeAcceptsAgain(s, c);
    var s1 := Step(s, e);
    assert s1.server == server;
    UnsafeAcceptsAgain(s1, c);
    var s2 := Step(s1, e');
    assert s1.clients["a"].addresses == c.addresses && s2.clients["a"] == s1.clients["a"] && s2.clients["b"].addresses == c.addresses;
    SharedByTwo(s2, "a", "b", server[0].value);
  }

  lemma UnsafeServerShares(server: seq<Option<CIDR>>) returns (es: seq<Event>)
    requires !ServerSafe(server)
    ensures (forall k :: 0 <= k < |es| ==> NamesClient(es[k])) && !NoSharing(Run(Empty(server), es))
  {
    var c := Client("", "", [server[0]], true);
    var e, e' := New("a", c, Checks(true, true, true), "k1"), New("b", c, Checks(true, true, true), "k2");
    es := [e, e'];
    TwiceAccepted(server, c, e, e');
    RunTwo(Empty(server), e, e');
  }

  /** From an empty store, no run lets two clients share an address exactly when all texts of the server parse or the
      first does not. */
  lemma NoSharingExactlyWhen(server: seq<Option<CIDR>>)
    ensures ServerSafe(server) <==>
      forall es :: (forall k :: 0 <= k < |es| ==> NamesClient(es[k])) ==> NoSharing(Run(Empty(server), es))
  {
    if ServerSafe(server) {
      forall es | forall k :: 0 <= k < |es| ==> NamesClient(es[k]) ensures NoSharing(Run(Empty(server), es)) {
        EveryRunSound(Empty(server), es);
      }
    } else {
      var es := UnsafeServerShares(server);
    }
  }

  // ---- The Telegram index ----

  ghost predicate Linked(clients: map<string, Client>, u: int, id: string) {
    id in clients && clients[id].enabled && ParseInt(clients[id].tg) == Some(u)
  }

  /** The index lists under u exactly the enabled clients whose Telegram ID is u, each once, and no empty lists. */
  ghost predicate IndexExact(clients: map<string, Client>, tg: Index) {
    Tidy(tg) && forall u, id :: Lists(tg, u, id) <==> Linked(clients, u, id)
  }

  /** The one case in which SaveClient leaves a stale entry. */
  ghost predicate LeavesStale(s: State, id: string, c: Client) {
    c.enabled && c.tg != "" && ParseInt(c.tg).None? && exists u :: Lists(s.tg, u, id)
  }

  lemma SaveIndexExact(s: State, id: string, c: Client)
    requires IndexExact(s.clients, s.tg)
    ensures IndexExact(Save(s, id, c).clients, Save(s, id, c).tg) <==> !LeavesStale(s, id, c)
  {
    DetachLists(s.tg, id);
    assert ParseInt("").None?;
    var t := Save(s, id, c);
    if c.enabled && ParseInt(c.tg).Some? {
      AttachLists(Detach(s.tg, id), ParseInt(c.tg).value, id);
      forall u, x ensures Lists(t.tg, u, x) <==> Linked(t.clients, u, x) { assert Lists(s.tg, u, x) <==> Linked(s.clients, u, x); }
    } else if c.enabled && c.tg != "" {
      forall u, x | x != id ensures Lists(t.tg, u, x) <==> Linked(t.clients, u, x) { assert Lists(s.tg, u, x) <==> Linked(s.clients, u, x); }
    } else {
      forall u, x ensures Lists(t.tg, u, x) <==> Linked(t.clients, u, x) { assert Lists(s.tg, u, x) <==> Linked(s.clients, u, x); }
    }
  }

  lemma DeleteIndexExact(s: State, id: string)
    requires IndexExact(s.clients, s.tg)
    ensures IndexExact(Delete(s, id).clients, Delete(s, id).tg)
  {
    DetachLists(s.tg, id);
    var t := Delete(s, id);
    forall u, x ensures Lists(t.tg, u, x) <==> Linked(t.clients, u, x) { assert Lists(s.tg, u, x) <==> Linked(s.clients, u, x); }
  }

  /** No handler saves a client in the stale case: Telegram IDs are checked or come from the stored record. */
  lemma StepIndexExact(s: State, e: Event)
    requires IndexExact(s.clients, s.tg)
    ensures IndexExact(Step(s, e).clients, Step(s, e).tg)
  {
    match e {
      case New(id, c, checks, generated) => SaveIndexExact(s, id, c.(publicKey := if c.publicKey == "" then generated else c.publicKey));
      case Update(id, c, checks) => SaveIndexExact(s, id, c);
      case SetStatus(id, enabled) =>
        if id in s.clients {
          SaveIndexExact(s, id, s.clients[id].(enabled := enabled));
          assert forall u :: Lists(s.tg, u, id) ==> Linked(s.clients, u, id);
        }
      case Remove(id) => DeleteIndexExact(s, id);
      case SetServer(server) =>
    }
  }

  lemma {:induction false} EveryRunIndexExact(s: State, es: seq<Event>)
    requires IndexExact(s.clients, s.tg)
    ensures IndexExact(Run(s, es).clients, Run(s, es).tg)
  {
    if |es| > 0 {
      EveryRunIndexExact(s, es[..|es| - 1]);
      StepIndexExact(Run(s, es[..|es| - 1]), es[|es| - 1]);
    }
  }

  // ---- Public keys ----

  /** Two clients have different public keys, those that were updated to have none aside. */
  ghost predicate KeysUnique(s: State) {
    forall id, id' :: id in s.clients && id' in s.clients && id != id' && s.clients[id].publicKey != "" ==>
      s.clients[id].publicKey != s.clients[id'].publicKey
  }

  /** A generated key is new. */
  ghost predicate FreshKey(s: State, e: Event) { e.New? ==> !KeyInUse(s, e.generated) }

  lemma StepKeysUnique(s: State, e: Event)
    requires KeysUnique(s) && FreshKey(s, e)
    ensures KeysUnique(Step(s, e))
  {
    var t := Step(s, e);
    forall x | x in t.clients && t.clients[x].publicKey != ""
      ensures (x in s.clients && t.clients[x].publicKey == s.clients[x].publicKey) || !KeyInUse(s, t.clients[x].publicKey)
    {
    }
  }

  lemma {:induction false} EveryRunKeysUnique(s: State, es: seq<Event>)
    requires KeysUnique(s) && forall k :: 0 <= k < |es| ==> FreshKey(Run(s, es[..k]), es[k])
    ensures KeysUnique(Run(s, es))
  {
    if |es| > 0 {
      var init := es[..|es| - 1];
      forall k | 0 <= k < |init| ensures FreshKey(Run(s, init[..k]), init[k]) { assert init[..k] == es[..k]; }
      EveryRunKeysUnique(s, init);
      StepKeysUnique(Run(s, init), es[|es| - 1]);
    }
  }

  // ---- What is stored ----

  /** What an accepted event writes under an ID: the record, or its absence. */
  datatype Written = Untouched | Absent | Stored(c: Client)

  ghost function Writes(s: State, e: Event, id: string): Written {
    match e
    case New(id', c, checks, generated) =>
      if id' == id && TgOk(c.tg) && ValidAddresses(s, "", c.addresses) && checks.allowed && checks.presharedKey
         && (c.publicKey == "" || (checks.publicKey && !KeyInUse(s, c.publicKey)))
      then Stored(Client(if c.publicKey == "" then generated else c.publicKey, c.tg, c.addresses, c.enabled)) else Untouched
    case Update(id', c, checks) =>
      if id' == id && id in s.clients && TgOk(c.tg) && ValidAddresses(s, id, c.addresses) && checks.allowed && checks.presharedKey
         && (c.publicKey == "" || c.publicKey == s.clients[id].publicKey || (checks.publicKey && !KeyInUse(s, c.publicKey)))
      then Stored(c) else Untouched
    case SetStatus(id', status) =>
      if id' == id && id in s.clients
      then Stored(Client(s.clients[id].publicKey, s.clients[id].tg, s.clients[id].addresses, status)) else Untouched
    case Remove(id') => if id' == id then Absent else Untouched
    case SetServer(_) => Untouched
  }

  function RecordOf(s: State, id: string): Written { if id in s.clients then Stored(s.clients[id]) else Absent }

  lemma StepWrites(s: State, e: Event, id: string)
    ensures var w := Writes(s, e, id); RecordOf(Step(s, e), id) == if w.Untouched? then RecordOf(s, id) else w
  {
  }

  /** What event j of the run writes. */
  ghost function WriteAt(s: State, es: seq<Event>, id: string, j: nat): Written
    requires j < |es|
  {
    Writes(Run(s, es[..j]), es[j], id)
  }

  /** Event k is the last of the run that writes under the ID (none if k is -1), and the record is what it wrote. */
  ghost predicate LastWriter(s: State, es: seq<Event>, id: string, k: int) {
    && -1 <= k < |es|
    && (forall j :: k < j < |es| ==> WriteAt(s, es, id, j).Untouched?)
    && if k == -1 then RecordOf(Run(s, es), id) == RecordOf(s, id)
       else !WriteAt(s, es, id, k).Untouched? && RecordOf(Run(s, es), id) == WriteAt(s, es, id, k)
  }

  lemma InitAt(es: seq<Event>, j: nat)
    requires j < |es| - 1
    ensures es[..|es| - 1][..j] == es[..j] && es[..|es| - 1][j] == es[j]
  {
  }

  lemma WriteBefore(s: State, es: seq<Event>, id: string, j: nat)
    requires j < |es| - 1
    ensures WriteAt(s, es[..|es| - 1], id, j) == WriteAt(s, es, id, j)
  {
    InitAt(es, j);
  }

  lemma QuietStep(s: State, es: seq<Event>, id: string)
    requires |es| > 0 && WriteAt(s, es, id, |es| - 1).Untouched?
    ensures RecordOf(Run(s, es), id) == RecordOf(Run(s, es[..|es| - 1]), id)
  {
    StepWrites(Run(s, es[..|es| - 1]), es[|es| - 1], id);
  }

  lemma WriterStays(s: State, es: seq<Event>, id: string, k: int)
    requires |es| > 0 && LastWriter(s, es[..|es| - 1], id, k) && WriteAt(s, es, id, |es| - 1).Untouched?
    ensures LastWriter(s, es, id, k)
  {
    var last := |es| - 1;
    QuietStep(s, es, id);
    forall j | k < j < last ensures WriteAt(s, es, id, j).Untouched? {
      WriteBefore(s, es, id, j);
      assert WriteAt(s, es[..last], id, j).Untouched?;
    }
    if k >= 0 { WriteBefore(s, es, id, k); }
  }

  /** After any run every client is what the last accepted new, update, status or remove step for it says, or as it was at
      the start. */
  lemma {:induction false} LastWrite(s: State, es: seq<Event>, id: string) returns (k: int)
    ensures LastWriter(s, es, id, k)
  {
    if |es| == 0 {
      k := -1;
    } else {
      var last := |es| - 1;
      StepWrites(Run(s, es[..last]), es[last], id);
      if WriteAt(s, es, id, last).Untouched? {
        k := LastWrite(s, es[..last], id);
        WriterStays(s, es, id, k);
      } else {
        k := last;
      }
    }
  }

  /** A client that is stored after a run and was not at the start was created by it. */
  lemma {:induction false} StoredWasCreated(s: State, es: seq<Event>, id: string) returns (k: nat)
    requires id in Run(s, es).clients && id !in s.clients
    ensures k < |es| && es[k].New? && es[k].id == id && Writes(Run(s, es[..k]), es[k], id).Stored?
  {
    var last := |es| - 1;
    StepWrites(Run(s, es[..last]), es[last], id);
    if id in Run(s, es[..last]).clients {
      k := StoredWasCreated(s, es[..last], id);
      assert es[..last][..k] == es[..k];
    } else {
      k := last;
    }
  }

  /** The server's addresses after any run are those of the last step that set them to texts that all parse. */
  lemma {:induction false} ServerAfter(s: State, es: seq<Event>) returns (k: int)
    ensures -1 <= k < |es|
    ensures forall j :: k < j < |es| && es[j].SetServer? ==> None in es[j].server
    ensures if k == -1 then Run(s, es).server == s.server
            else es[k].SetServer? && None !in es[k].server && Run(s, es).server == es[k].server
  {
    if |es| == 0 {
      k := -1;
    } else {
      var last := |es| - 1;
      if es[last].SetServer? && None !in es[last].server {
        k := last;
      } else {
        k := ServerAfter(s, es[..last]);
      }
    }
  }

  // ---- Where addresses lie ----

  /** Every address of a client lies in a network of the server and is not the server's own. */
  ghost predicate Placed(s: State) {
    forall id, c: CIDR :: id in s.clients && Some(c) in s.clients[id].addresses ==>
      InServerNetwork(s.server, c.ip) && !exists d: CIDR :: d.ip == c.ip && Some(d) in s.server
  }

  lemma AcceptedIsPlaced(s: State, ignore: string, list: seq<Option<CIDR>>, c: CIDR)
    requires Sound(s) && ValidAddresses(s, ignore, list) && Some(c) in list
    ensures InServerNetwork(s.server, c.ip) && !exists d: CIDR :: d.ip == c.ip && Some(d) in s.server
  {
    var k :| 0 <= k < |list| && list[k] == Some(c);
    UnsafeHeadAcceptsNothing(s, ignore, list);
    assert !Texts(s, ignore, None);
    if d: CIDR :| d.ip == c.ip && Some(d) in s.server { assert Texts(s, ignore, Some(d)); }
  }

  lemma SavePlaced(s: State, ignore: string, id: string, c: Client)
    requires Sound(s) && Placed(s) && ValidAddresses(s, ignore, c.addresses)
    ensures Placed(Save(s, id, c))
  {
    var t := Save(s, id, c);
    forall x, a: CIDR | x in t.clients && Some(a) in t.clients[x].addresses
      ensures InServerNetwork(t.server, a.ip) && !exists d: CIDR :: d.ip == a.ip && Some(d) in t.server
    {
      if x == id { AcceptedIsPlaced(s, ignore, c.addresses, a); }
    }
  }

  lemma StepPlaced(s: State, e: Event)
    requires Sound(s) && Placed(s) && !e.SetServer?
    ensures Placed(Step(s, e))
  {
    match e {
      case New(id, c, checks, generated) =>
        if NewAccepted(s, c, checks) { SavePlaced(s, "", id, c.(publicKey := if c.publicKey == "" then generated else c.publicKey)); }
      case Update(id, c, checks) => if UpdateAccepted(s, id, c, checks) { SavePlaced(s, id, id, c); }
      case _ =>
    }
  }

  /** As long as the server's addresses stay, every run keeps all client addresses inside the server's networks and away
      from the server's own addresses. */
  lemma {:induction false} EveryRunPlaced(s: State, es: seq<Event>)
    requires Sound(s) && Placed(s) && forall k :: 0 <= k < |es| ==> NamesClient(es[k]) && !es[k].SetServer?
    ensures Placed(Run(s, es))
  {
    if |es| > 0 {
      EveryRunPlaced(s, es[..|es| - 1]);
      EveryRunSound(s, es[..|es| - 1]);
      StepPlaced(Run(s, es[..|es| - 1]), es[|es| - 1]);
    }
  }
}
