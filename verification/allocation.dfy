/** Giving addresses to clients: GetAvailableIP, ValidateIPAllocation and the suggestions built on them. */
module Allocation {
  import opened CText
  import opened Sequences
  import opened Bytes
  import opened Addresses
  import opened Networks

  // ---- GetAvailableIP ----

  lemma TakenOneMore(n: CIDR, used: seq<Addr>, interfaces: seq<Option<CIDR>>, a: Addr)
    requires TakenBelow(n, used, interfaces, Value(a)) && Contains(n, a) && !Free(used, interfaces, a)
    ensures TakenBelow(n, used, interfaces, Value(a) + 1)
  {
    forall b | Contains(n, b) && Value(b) < Value(a) + 1 ensures !Free(used, interfaces, b) {
      if Value(b) == Value(a) { ValueInjective(a, b); }
    }
  }

  lemma TakenAll(n: CIDR, used: seq<Addr>, interfaces: seq<Option<CIDR>>)
    requires IsNet(n) && TakenBelow(n, used, interfaces, Value(n.ip) + Size(n))
    ensures forall b :: Contains(n, b) ==> !Free(used, interfaces, b)
  {
    forall b | Contains(n, b) ensures !Free(used, interfaces, b) { NetworkIsInterval(n, b); }
  }

  lemma NothingBelow(n: CIDR, used: seq<Addr>, interfaces: seq<Option<CIDR>>)
    requires IsNet(n)
    ensures TakenBelow(n, used, interfaces, Value(n.ip))
  {
    forall b | Contains(n, b) ensures Value(b) >= Value(n.ip) { NetworkIsInterval(n, b); }
  }

  /** Where the search stands after looking at `seen` addresses from the network address on. */
  ghost predicate At(n: CIDR, ip: Addr, seen: nat) {
    && |ip| == |n.ip| && seen <= Size(n)
    && Value(ip) == if Value(n.ip) + seen == Space(|n.ip|) then 0 else Value(n.ip) + seen
  }

  /** The search goes on exactly while addresses of the network are left, unless the network is the whole space. */
  lemma GoesOn(n: CIDR, ip: Addr, seen: nat)
    requires IsNet(n) && At(n, ip, seen)
    ensures seen < Size(n) ==> Contains(n, ip) && Value(ip) == Value(n.ip) + seen && At(n, Inc(ip), seen + 1)
    ensures seen == Size(n) && Contains(n, ip) ==> n.ones == 0
  {
    NetworkIsInterval(n, ip);
    ValueBound(BroadcastIP(n));
    IncValue(ip);
    SizeBound(n);
  }

  /** The numerically least free address of the network, or None exactly when it has none. With an empty prefix
      the loop over the whole address space ends only if some address is free. */
  method GetAvailableIP(cidr: Option<CIDR>, used: seq<Addr>, interfaces: seq<Option<CIDR>>) returns (r: Option<Addr>)
    requires cidr.Some? && cidr.value.ones == 0 ==> exists a :: Contains(NetOf(cidr.value), a) && Free(used, interfaces, a)
    ensures cidr.None? ==> r.None?
    ensures cidr.Some? && r.Some? ==> LeastFree(NetOf(cidr.value), used, interfaces, r.value)
    ensures cidr.Some? && r.None? ==> forall a :: Contains(NetOf(cidr.value), a) ==> !Free(used, interfaces, a)
  {
    if cidr.None? {
      return None;
    }
    var n := NetOf(cidr.value);
    NetOfIsNet(cidr.value);
    var unavailable := GetBroadcastAndNetworkAddrsLookup(interfaces);
    var ip := new Byte[|n.ip|](i requires 0 <= i < |n.ip| => n.ip[i]);
    assert ip[..] == n.ip;
    ghost var seen := 0;
    NothingBelow(n, used, interfaces);
    ValueBound(n.ip);
    while Contains(n, ip[..])
      invariant At(n, ip[..], seen) && TakenBelow(n, used, interfaces, Value(n.ip) + seen)
      decreases Size(n) - seen
    {
      GoesOn(n, ip[..], seen);
      if seen == Size(n) {
        TakenAll(n, used, interfaces);
        assert false;
      }
      var suggested := ip[..];
      var taken := IsAllocated(used, suggested);
      if !taken && suggested !in unavailable {
        return Some(suggested);
      }
      TakenOneMore(n, used, interfaces, suggested);
      IncInPlace(ip);
      seen := seen + 1;
    }
    GoesOn(n, ip[..], seen);
    TakenAll(n, used, interfaces);
    return None;
  }

  // ---- ValidateIPAllocation ----

  /** Some server network holds the address, and the texts before it all parse: the loop gives up on a nil network. */
  ghost predicate InServerNetwork(servers: seq<Option<CIDR>>, ip: Addr) {
    exists i :: 0 <= i < |servers| && (forall j :: 0 <= j <= i ==> servers[j].Some?) && Contains(NetOf(servers[i].value), ip)
  }

  ghost predicate Acceptable(servers: seq<Option<CIDR>>, used: seq<Addr>, c: Option<CIDR>) {
    c.Some? && c.value.ip !in used && InServerNetwork(servers, c.value.ip)
  }

  method FindServerNetwork(servers: seq<Option<CIDR>>, ip: Addr) returns (found: bool)
    ensures found == InServerNetwork(servers, ip)
  {
    for i := 0 to |servers|
      invariant forall j :: 0 <= j < i ==> servers[j].Some? && !Contains(NetOf(servers[j].value), ip)
    {
      if servers[i].None? {
        return false;  // a nil network: the request is aborted
      }
      if Contains(NetOf(servers[i].value), ip) {
        return true;
      }
    }
    return false;
  }

  method ValidateIPAllocation(servers: seq<Option<CIDR>>, used: seq<Addr>, list: seq<Option<CIDR>>) returns (ok: bool)
    ensures ok <==> forall k :: 0 <= k < |list| ==> Acceptable(servers, used, list[k])
  {
    for k := 0 to |list|
      invariant forall j :: 0 <= j < k ==> Acceptable(servers, used, list[j])
    {
      if list[k].None? {
        return false;
      }
      var ip := list[k].value.ip;
      var taken := IsAllocated(used, ip);
      if taken {
        return false;
      }
      var isValid := FindServerNetwork(servers, ip);
      if !isValid {
        return false;
      }
    }
    return true;
  }

  // ---- ValidateAndFixSubnetRanges ----

  /** One of the networks that parse contains the network in the sense of ContainsCIDR. */
  predicate CoveredBy(servers: seq<Option<CIDR>>, n: CIDR) {
    exists i :: 0 <= i < |servers| && servers[i].Some? && ContainsCIDR(NetOf(servers[i].value), n)
  }

  predicate AllParse(servers: seq<Option<CIDR>>) { forall i :: 0 <= i < |servers| ==> servers[i].Some? }

  method IsCovered(servers: seq<Option<CIDR>>, n: CIDR) returns (valid: bool)
    requires AllParse(servers)
    ensures valid == CoveredBy(servers, n)
  {
    for i := 0 to |servers|
      invariant forall j :: 0 <= j < i ==> !ContainsCIDR(NetOf(servers[j].value), n)
    {
      if ContainsCIDR(NetOf(servers[i].value), n) {
        return true;
      }
    }
    return false;
  }

  /** The networks of a range that the server's cover, in order. */
  ghost function Covered(servers: seq<Option<CIDR>>, cidrs: seq<CIDR>): seq<CIDR> {
    Keep(cidrs, n => CoveredBy(servers, n))
  }

  method FixRange(servers: seq<Option<CIDR>>, cidrs: seq<CIDR>) returns (kept: seq<CIDR>)
    requires AllParse(servers)
    ensures kept == Covered(servers, cidrs)
  {
    kept := [];
    for k := 0 to |cidrs|
      invariant kept == Covered(servers, cidrs[..k])
    {
      assert cidrs[..k + 1][..k] == cidrs[..k];
      var valid := IsCovered(servers, cidrs[k]);
      if valid {
        kept := kept + [cidrs[k]];
      }
    }
    assert cidrs[..|cidrs|] == cidrs;
  }

  /** The networks of a range, none if the range is not there. */
  function RangeOf(ranges: map<string, seq<CIDR>>, name: string): seq<CIDR> {
    if name in ranges then ranges[name] else []
  }

  ghost predicate SameRange(before: map<string, seq<CIDR>>, after: map<string, seq<CIDR>>, name: string) {
    (name in after <==> name in before) && RangeOf(after, name) == RangeOf(before, name)
  }

  /** The range keeps its covered networks in order; a range that had networks and keeps none is gone. */
  ghost predicate Fixed(servers: seq<Option<CIDR>>, before: map<string, seq<CIDR>>, after: map<string, seq<CIDR>>, name: string) {
    && RangeOf(after, name) == Covered(servers, RangeOf(before, name))
    && (name in after <==> name in before && (before[name] == [] || RangeOf(after, name) != []))
  }

  method FixOne(servers: seq<Option<CIDR>>, ranges: map<string, seq<CIDR>>, name: string) returns (fixed: map<string, seq<CIDR>>)
    requires AllParse(servers)
    ensures Fixed(servers, ranges, fixed, name) && forall other :: other != name ==> SameRange(ranges, fixed, other)
  {
    fixed := ranges;
    var cidrs := RangeOf(ranges, name);
    if |cidrs| > 0 {
      var kept := FixRange(servers, cidrs);
      fixed := if |kept| > 0 then ranges[name := kept] else ranges - {name};
    }
  }

  lemma FixedTwice(servers: seq<Option<CIDR>>, a: map<string, seq<CIDR>>, b: map<string, seq<CIDR>>, c: map<string, seq<CIDR>>, name: string)
    requires (Fixed(servers, a, b, name) || SameRange(a, b, name)) && Fixed(servers, b, c, name)
    ensures Fixed(servers, a, c, name)
  {
    KeepKeep(RangeOf(a, name), n => CoveredBy(servers, n), n => CoveredBy(servers, n));
  }

  /** Every listed range keeps exactly its networks inside the server's, in order; the others stay as they are. A server
      text that does not parse is an error and leaves all ranges alone. */
  method ValidateAndFixSubnetRanges(servers: seq<Option<CIDR>>, order: seq<string>, ranges: map<string, seq<CIDR>>)
    returns (err: bool, fixed: map<string, seq<CIDR>>)
    ensures err <==> |order| > 0 && !AllParse(servers)
    ensures err ==> fixed == ranges
    ensures !err ==> forall name :: name in order ==> Fixed(servers, ranges, fixed, name)
    ensures forall name :: name !in order ==> SameRange(ranges, fixed, name)
  {
    err, fixed := false, ranges;
    if |order| == 0 {
      return;
    }
    for i := 0 to |servers|
      invariant forall j :: 0 <= j < i ==> servers[j].Some?
    {
      if servers[i].None? {
        err := true;
        return;
      }
    }
    for k := 0 to |order|
      invariant forall name :: name in order[..k] ==> Fixed(servers, ranges, fixed, name)
      invariant forall name :: name !in order[..k] ==> SameRange(ranges, fixed, name)
    {
      var next := FixOne(servers, fixed, order[k]);
      FixedTwice(servers, ranges, fixed, next, order[k]);
      forall name | name in order[..k + 1] ensures Fixed(servers, ranges, next, name) {
        assert name != order[k] ==> name in order[..k] && SameRange(fixed, next, name);
      }
      forall name | name !in order[..k + 1] ensures SameRange(ranges, next, name) {
        assert order[..k + 1][k] == order[k] && order[..k] <= order[..k + 1];
        assert SameRange(fixed, next, name) && SameRange(ranges, fixed, name);
      }
      fixed := next;
    }
  }

  // ---- SuggestIPAllocation ----

  /** The suggestion for an address: the address alone. */
  function HostOf(a: Addr): (c: CIDR)
    requires |a| == 4 || |a| == 16
  {
    Cidr(a, 8 * |a|)
  }

  /** c is the least free address of some searched network. */
  ghost predicate Proposed(servers: seq<Option<CIDR>>, used: seq<Addr>, search: seq<Option<CIDR>>, c: CIDR) {
    && c.ones == 8 * |c.ip|
    && exists i :: 0 <= i < |search| && search[i].Some? && LeastFree(NetOf(search[i].value), used, servers, c.ip)
  }

  /** Where the prefix is empty some address must be free, or the search does not end. */
  ghost predicate SearchEnds(servers: seq<Option<CIDR>>, used: seq<Addr>, n: Option<CIDR>) {
    n.Some? && n.value.ones == 0 ==> exists a :: Contains(NetOf(n.value), a) && Free(used, servers, a)
  }

  /** The loop of the handler: one least free address per searched network that has one. */
  method SuggestFrom(servers: seq<Option<CIDR>>, used: seq<Addr>, search: seq<Option<CIDR>>) returns (suggested: set<CIDR>)
    requires forall i :: 0 <= i < |search| ==> SearchEnds(servers, used, search[i])
    ensures forall c :: c in suggested <==> Proposed(servers, used, search, c)
  {
    suggested := {};
    for i := 0 to |search|
      invariant forall c :: c in suggested <==> Proposed(servers, used, search[..i], c)
    {
      var ip := GetAvailableIP(search[i], used, servers);
      ghost var before := suggested;
      if ip.Some? {
        OneLeastFree(NetOf(search[i].value), used, servers, ip.value);
        suggested := suggested + {HostOf(ip.value)};
      }
      forall c ensures c in suggested <==> Proposed(servers, used, search[..i + 1], c) {
        assert c in before <==> Proposed(servers, used, search[..i], c);
        assert search[..i + 1][i] == search[i];
        assert forall j :: 0 <= j < i ==> search[..i + 1][j] == search[..i][j];
      }
    }
    assert search[..|search|] == search;
  }

  lemma OneLeastFree(n: CIDR, used: seq<Addr>, interfaces: seq<Option<CIDR>>, a: Addr)
    requires LeastFree(n, used, interfaces, a)
    ensures forall b :: LeastFree(n, used, interfaces, b) ==> b == a
  {
    forall b | LeastFree(n, used, interfaces, b) ensures b == a { ValueInjective(a, b); }
  }

  /** An address of a covered network lies in a server network, because containment of networks is inclusion. */
  lemma CoveredAddress(servers: seq<Option<CIDR>>, n: CIDR, a: Addr)
    requires AllParse(servers) && IsNet(n) && CoveredBy(servers, n) && Contains(n, a)
    ensures InServerNetwork(servers, a)
  {
    var i :| 0 <= i < |servers| && servers[i].Some? && ContainsCIDR(NetOf(servers[i].value), n);
    NetOfIsNet(servers[i].value);
    ContainsCidrIsSubnet(NetOf(servers[i].value), n);
  }

  /** What is searched lies inside the server's networks. */
  ghost predicate SearchCovered(servers: seq<Option<CIDR>>, search: seq<Option<CIDR>>) {
    forall i :: 0 <= i < |search| && search[i].Some? ==> CoveredBy(servers, NetOf(search[i].value))
  }

  /** Everything proposed from covered networks is acceptable. */
  lemma ProposedAccepted(servers: seq<Option<CIDR>>, used: seq<Addr>, search: seq<Option<CIDR>>, c: CIDR)
    requires AllParse(servers) && SearchCovered(servers, search) && Proposed(servers, used, search, c)
    ensures Acceptable(servers, used, Some(c))
  {
    var i :| 0 <= i < |search| && search[i].Some? && LeastFree(NetOf(search[i].value), used, servers, c.ip);
    NetOfIsNet(search[i].value);
    CoveredAddress(servers, NetOf(search[i].value), c.ip);
  }

  /** The server's own networks are covered. */
  lemma OwnNetworksCovered(servers: seq<Option<CIDR>>)
    ensures SearchCovered(servers, servers)
  {
    forall i | 0 <= i < |servers| && servers[i].Some? ensures CoveredBy(servers, NetOf(servers[i].value)) {
      NetOfIsNet(servers[i].value);
      EndsInside(NetOf(servers[i].value));
    }
  }

  /** So are the networks that ValidateAndFixSubnetRanges leaves in a listed range. */
  lemma FixedRangeCovered(servers: seq<Option<CIDR>>, before: map<string, seq<CIDR>>, after: map<string, seq<CIDR>>, name: string)
    requires Fixed(servers, before, after, name) && forall n :: n in RangeOf(before, name) ==> IsNet(n)
    ensures forall n :: n in RangeOf(after, name) ==> IsNet(n) && CoveredBy(servers, n)
  {
    forall n | n in RangeOf(after, name) ensures IsNet(n) && CoveredBy(servers, n) {
      KeepMember(RangeOf(before, name), n => CoveredBy(servers, n), n);
    }
  }

  /** A reserved address is the least or the greatest of a server network, and nothing else is reserved. */
  lemma ReservedIsEnd(servers: seq<Option<CIDR>>, a: Addr)
    ensures Reserved(servers, a) <==> exists i :: 0 <= i < |servers| && IsEnd(servers[i], a)
  {
    forall i | 0 <= i < |servers| ensures ReservedBy(servers[i], a) <==> IsEnd(servers[i], a) { EndIsReserved(servers[i], a); }
  }

  /** The least or the greatest address of the network. */
  ghost predicate IsEnd(c: Option<CIDR>, a: Addr) {
    && c.Some? && Contains(NetOf(c.value), a)
    && ((forall b :: Contains(NetOf(c.value), b) ==> Value(a) <= Value(b)) || (forall b :: Contains(NetOf(c.value), b) ==> Value(b) <= Value(a)))
  }

  lemma EndIsReserved(c: Option<CIDR>, a: Addr)
    ensures ReservedBy(c, a) <==> IsEnd(c, a)
  {
    if c.Some? {
      var n := NetOf(c.value);
      NetOfIsNet(c.value);
      EndsInside(n);
      var last := BroadcastIP(n);
      forall b | Contains(n, b) ensures Value(n.ip) <= Value(b) <= Value(last) {
        NetworkIsInterval(n, b);
        NetworkIsInterval(n, last);
      }
      if IsEnd(c, a) {
        if Value(a) == Value(n.ip) { ValueInjective(a, n.ip); } else { ValueInjective(a, last); }
      }
    }
  }
}
