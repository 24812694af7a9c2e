/** Networks in CIDR notation: containment, broadcast addresses and the search for a free address (util.go). */
module Networks {
  import opened CText
  import opened Bytes
  import opened Addresses

  /** What net.ParseCIDR reads: an address of 4 or 16 bytes and a prefix length. */
  datatype Cidr = Cidr(ip: Addr, ones: nat)

  predicate Proper(c: Cidr) { (|c.ip| == 4 || |c.ip| == 16) && c.ones <= 8 * |c.ip| }

  type CIDR = c: Cidr | Proper(c) witness Cidr([0, 0, 0, 0], 0)

  /** The network of an address: the address with its host bits cleared. */
  function NetOf(c: CIDR): (n: CIDR) { Cidr(Masked(c.ip, c.ones), c.ones) }

  predicate IsNet(n: CIDR) { NetOf(n) == n }

  /** IPNet.Contains: the bytes agree under the mask. */
  predicate Contains(n: CIDR, ip: Addr) { |ip| == |n.ip| && Masked(ip, n.ones) == Masked(n.ip, n.ones) }

  function BroadcastIP(n: CIDR): (b: Addr) { Filled(n.ip, n.ones) }

  /** GetBroadcastIP: the bytes one after the other. */
  method GetBroadcastIP(n: CIDR) returns (b: Addr)
    ensures b == BroadcastIP(n)
  {
    var broadcast := new Byte[|n.ip|](i => 0);
    for i := 0 to |n.ip|
      invariant forall j :: 0 <= j < i ==> broadcast[j] == OrNot(n.ip[j], Mask(|n.ip|, n.ones)[j])
    {
      broadcast[i] := OrNot(n.ip[i], Mask(|n.ip|, n.ones)[i]);
    }
    b := broadcast[..];
  }

  function Size(n: CIDR): nat { Block(|n.ip|, n.ones) }

  // ---- A network is an interval ----

  lemma MultipleUnique(v: nat, q: nat, s: nat)
    requires s > 0 && v == q * s
    ensures v % s == 0
  {
    ModUnique(v, q, 0, s);
  }

  lemma RoundedDown(v: nat, s: nat)
    requires s > 0
    ensures v >= v % s && (v - v % s) % s == 0
  {
    MultipleUnique(v - v % s, v / s, s);
  }

  lemma MaskedMultiple(n: Addr, ones: nat)
    requires Value(n) % Block(|n|, ones) == 0
    ensures Masked(n, ones) == n
  {
    MaskedValue(n, ones);
    ValueInjective(Masked(n, ones), n);
  }

  lemma MaskedTwice(a: Addr, ones: nat)
    ensures Masked(Masked(a, ones), ones) == Masked(a, ones)
  {
    var n := Masked(a, ones);
    MaskedValue(a, ones);
    RoundedDown(Value(a), Block(|a|, ones));
    MaskedMultiple(n, ones);
  }

  lemma NetOfIsNet(c: CIDR)
    ensures IsNet(NetOf(c))
  {
    MaskedTwice(c.ip, c.ones);
  }

  lemma RoundsDownTo(v: nat, low: nat, s: nat)
    requires s > 0 && low % s == 0
    ensures v - v % s == low <==> low <= v < low + s
  {
    if low <= v < low + s {
      ModUnique(v, low / s, v - low, s);
    }
  }

  /** The network holds exactly the addresses from its own to the broadcast address. */
  lemma NetworkIsInterval(n: CIDR, ip: Addr)
    requires IsNet(n)
    ensures Contains(n, ip) <==> |ip| == |n.ip| && Value(n.ip) <= Value(ip) <= Value(BroadcastIP(n))
    ensures Value(BroadcastIP(n)) == Value(n.ip) + Size(n) - 1
  {
    MaskedValue(n.ip, n.ones);
    MaskedValue(ip, n.ones);
    if |ip| == |n.ip| {
      RoundsDownTo(Value(ip), Value(n.ip), Size(n));
      if Value(Masked(ip, n.ones)) == Value(n.ip) { ValueInjective(Masked(ip, n.ones), n.ip); }
    }
  }

  lemma EndsInside(n: CIDR)
    requires IsNet(n)
    ensures Contains(n, n.ip) && Contains(n, BroadcastIP(n))
  {
    NetworkIsInterval(n, n.ip);
    NetworkIsInterval(n, BroadcastIP(n));
  }

  // ---- Sizes ----

  function Pow2(k: nat): (p: nat)
    ensures p > 0
  {
    if k == 0 then 1 else 2 * Pow2(k - 1)
  }

  lemma {:induction false} Pow2Sum(a: nat, b: nat)
    ensures Pow2(a + b) == Pow2(a) * Pow2(b)
  {
    if b > 0 { Pow2Sum(a, b - 1); }
  }

  lemma {:induction false} BlockIsPower(n: nat, ones: nat)
    requires ones <= 8 * n
    ensures Block(n, ones) == Pow2(8 * n - ones)
  {
    if n > 0 {
      if ones <= 8 * (n - 1) {
        BlockIsPower(n - 1, ones);
        Pow2Sum(8 * (n - 1) - ones, 8);
      } else {
        BlockOne(n - 1, ones);
      }
    }
  }

  lemma {:induction false} SpaceIsPower(n: nat)
    ensures Space(n) == Pow2(8 * n)
  {
    if n > 0 {
      SpaceIsPower(n - 1);
      Pow2Sum(8 * (n - 1), 8);
    }
  }

  lemma {:induction false} Pow2Increasing(a: nat, b: nat)
    ensures a < b ==> Pow2(a) < Pow2(b)
  {
    if a < b { if a < b - 1 { Pow2Increasing(a, b - 1); } }
  }

  /** The block divides the space, and only the empty prefix covers all of it. */
  lemma SizeBound(n: CIDR)
    ensures Size(n) <= Space(|n.ip|) && (n.ones > 0 ==> Size(n) < Space(|n.ip|))
  {
    BlockIsPower(|n.ip|, n.ones);
    SpaceIsPower(|n.ip|);
    Pow2Increasing(8 * |n.ip| - n.ones, 8 * |n.ip|);
  }

  // ---- ContainsCIDR ----

  predicate ContainsCIDR(n1: CIDR, n2: CIDR) { n1.ones <= n2.ones && Contains(n1, n2.ip) }

  /** A small block that begins inside a large one ends inside it. */
  lemma WholeBlocks(low1: nat, s1: nat, low2: nat, s2: nat, c: nat)
    requires s1 > 0 && s2 > 0 && s1 == c * s2 && low1 % s1 == 0 && low2 % s2 == 0 && low1 <= low2 < low1 + s1
    ensures low2 + s2 <= low1 + s1
  {
    var q1, q2 := low1 / s1, low2 / s2;
    assert low1 + s1 == ((q1 + 1) * c) * s2;
    MulGap(q2, (q1 + 1) * c, s2);
  }

  lemma NetIsMultiple(n: CIDR)
    requires IsNet(n)
    ensures Value(n.ip) % Size(n) == 0
  {
    MaskedValue(n.ip, n.ones);
  }

  lemma SizesDivide(n1: CIDR, n2: CIDR) returns (c: nat)
    requires |n1.ip| == |n2.ip| && n1.ones <= n2.ones
    ensures Size(n1) == c * Size(n2)
  {
    BlockIsPower(|n1.ip|, n1.ones);
    BlockIsPower(|n2.ip|, n2.ones);
    c := Pow2(n2.ones - n1.ones);
    Pow2Sum(n2.ones - n1.ones, 8 * |n1.ip| - n2.ones);
  }

  lemma SizeOrder(n1: CIDR, n2: CIDR)
    requires |n1.ip| == |n2.ip| && Size(n2) <= Size(n1)
    ensures n1.ones <= n2.ones
  {
    BlockIsPower(|n1.ip|, n1.ones);
    BlockIsPower(|n2.ip|, n2.ones);
    Pow2Increasing(8 * |n1.ip| - n1.ones, 8 * |n2.ip| - n2.ones);
  }

  ghost predicate Subnet(n1: CIDR, n2: CIDR) { forall ip :: Contains(n2, ip) ==> Contains(n1, ip) }

  /** ContainsCIDR holds exactly when every address of the second network is one of the first. */
  lemma ContainsCidrIsSubnet(n1: CIDR, n2: CIDR)
    requires IsNet(n1) && IsNet(n2)
    ensures ContainsCIDR(n1, n2) <==> Subnet(n1, n2)
  {
    if ContainsCIDR(n1, n2) {
      var c := SizesDivide(n1, n2);
      NetIsMultiple(n1);
      NetIsMultiple(n2);
      NetworkIsInterval(n1, n2.ip);
      WholeBlocks(Value(n1.ip), Size(n1), Value(n2.ip), Size(n2), c);
      forall ip | Contains(n2, ip) ensures Contains(n1, ip) {
        NetworkIsInterval(n1, ip);
        NetworkIsInterval(n2, ip);
      }
    }
    if Subnet(n1, n2) {
      EndsInside(n2);
      assert Contains(n1, n2.ip) && Contains(n1, BroadcastIP(n2));
      NetworkIsInterval(n1, n2.ip);
      NetworkIsInterval(n1, BroadcastIP(n2));
      NetworkIsInterval(n2, n2.ip);
      SizeOrder(n1, n2);
    }
  }

  // ---- The search for a free address ----

  /** Network and broadcast addresses of the interfaces; text that does not parse is skipped. */
  ghost predicate Reserved(interfaces: seq<Option<CIDR>>, a: Addr) {
    exists i :: 0 <= i < |interfaces| && ReservedBy(interfaces[i], a)
  }

  predicate ReservedBy(c: Option<CIDR>, a: Addr) {
    c.Some? && (a == NetOf(c.value).ip || a == BroadcastIP(NetOf(c.value)))
  }

  method GetBroadcastAndNetworkAddrsLookup(interfaces: seq<Option<CIDR>>) returns (list: set<Addr>)
    ensures forall a :: a in list <==> Reserved(interfaces, a)
  {
    list := {};
    for i := 0 to |interfaces|
      invariant forall a :: a in list <==> exists j :: 0 <= j < i && ReservedBy(interfaces[j], a)
    {
      if interfaces[i].None? {
        continue;
      }
      var netAddr := NetOf(interfaces[i].value);
      var broadcastAddr := GetBroadcastIP(netAddr);
      list := list + {broadcastAddr} + {netAddr.ip};
    }
  }

  /** An address that can be given to a client. */
  ghost predicate Free(used: seq<Addr>, interfaces: seq<Option<CIDR>>, a: Addr) {
    a !in used && !Reserved(interfaces, a)
  }

  ghost predicate LeastFree(n: CIDR, used: seq<Addr>, interfaces: seq<Option<CIDR>>, a: Addr) {
    && Contains(n, a) && Free(used, interfaces, a)
    && forall b :: Contains(n, b) && Free(used, interfaces, b) ==> Value(a) <= Value(b)
  }

  /** All addresses of the network below v are taken. */
  ghost predicate TakenBelow(n: CIDR, used: seq<Addr>, interfaces: seq<Option<CIDR>>, v: nat) {
    forall b :: Contains(n, b) && Value(b) < v ==> !Free(used, interfaces, b)
  }

  method IsAllocated(used: seq<Addr>, a: Addr) returns (yes: bool)
    ensures yes == (a in used)
  {
    for i := 0 to |used|
      invariant a !in used[..i]
    {
      if a == used[i] {
        return true;
      }
    }
    return false;
  }
}
