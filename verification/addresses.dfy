/** IP addresses as big-endian byte strings, and the byte-wise arithmetic of util.go on them. */
module Addresses {
  import opened Bytes

  type Addr = seq<Byte>

  /** The number a byte string stands for. */
  function Value(a: Addr): nat {
    if |a| == 0 then 0 else 256 * Value(a[..|a| - 1]) + a[|a| - 1]
  }

  /** How many numbers n bytes can hold. */
  function Space(n: nat): (s: nat)
    ensures s > 0
  {
    if n == 0 then 1 else 256 * Space(n - 1)
  }

  lemma {:induction false} ValueBound(a: Addr)
    ensures Value(a) < Space(|a|)
  {
    if |a| > 0 { ValueBound(a[..|a| - 1]); }
  }

  lemma {:induction false} ValueInjective(a: Addr, b: Addr)
    requires |a| == |b| && Value(a) == Value(b)
    ensures a == b
  {
    if |a| > 0 {
      var k := |a| - 1;
      assert Value(a[..k]) == Value(b[..k]) && a[k] == b[k];
      ValueInjective(a[..k], b[..k]);
      assert a == a[..k] + [a[k]] && b == b[..k] + [b[k]];
    }
  }

  // ---- inc ----

  /** Adding one with carry, from the last byte on. */
  function Inc(a: Addr): (r: Addr)
    ensures |r| == |a|
  {
    if |a| == 0 then []
    else
      var k := |a| - 1;
      if a[k] < 255 then a[..k] + [a[k] + 1] else Inc(a[..k]) + [0]
  }

  /** inc is +1 modulo 2^width: the last address is followed by zero. */
  lemma {:induction false} IncValue(a: Addr)
    ensures Value(Inc(a)) == if Value(a) + 1 == Space(|a|) then 0 else Value(a) + 1
  {
    if |a| > 0 {
      var k := |a| - 1;
      ValueBound(a[..k]);
      if a[k] < 255 {
        assert Inc(a)[..k] == a[..k];
      } else {
        IncValue(a[..k]);
        assert Inc(a)[..k] == Inc(a[..k]);
      }
    }
  }

  /** r is a with the bytes behind j wrapped around to zero and the byte at j, if there is one, raised by one. */
  predicate Carried(a: Addr, r: Addr, j: int) {
    && -1 <= j < |a| && |r| == |a|
    && (forall i :: j < i < |a| ==> a[i] == 255 && r[i] == 0)
    && (forall i :: 0 <= i < j ==> r[i] == a[i])
    && (j >= 0 ==> a[j] < 255 && r[j] == a[j] + 1)
  }

  lemma {:induction false} CarriedIsInc(a: Addr, r: Addr, j: int)
    requires Carried(a, r, j)
    ensures r == Inc(a)
    decreases |a|
  {
    var k := |a| - 1;
    if j < k {
      assert a[k] == 255 && r[k] == 0;
      CarriedIsInc(a[..k], r[..k], j);
      assert r == r[..k] + [0];
    } else if k >= 0 {
      assert r == a[..k] + [a[k] + 1];
    }
  }

  /** The loop of inc over the bytes in place. */
  method IncInPlace(ip: array<Byte>)
    modifies ip
    ensures ip[..] == Inc(old(ip[..]))
  {
    ghost var was := ip[..];
    var j := ip.Length - 1;
    while j >= 0
      invariant -1 <= j < ip.Length
      invariant forall i :: j < i < ip.Length ==> was[i] == 255 && ip[i] == 0
      invariant forall i :: 0 <= i <= j ==> ip[i] == was[i]
    {
      ip[j] := Next(ip[j]);
      if ip[j] > 0 {
        CarriedIsInc(was, ip[..], j);
        return;
      }
      j := j - 1;
    }
    CarriedIsInc(was, ip[..], -1);
  }

  // ---- Masks ----

  /** How many of the leading ones of a mask fall into byte i. */
  function MaskBits(ones: nat, i: nat): (k: nat)
    ensures k <= 8
  {
    if ones <= 8 * i then 0 else if ones >= 8 * i + 8 then 8 else ones - 8 * i
  }

  /** net.CIDRMask. */
  function Mask(n: nat, ones: nat): (m: seq<bv8>)
    ensures |m| == n
  {
    seq(n, i requires 0 <= i < n => MaskByte(MaskBits(ones, i)))
  }

  /** ip.Mask. */
  function Masked(a: Addr, ones: nat): (r: Addr)
    ensures |r| == |a|
  {
    seq(|a|, i requires 0 <= i < |a| => And(a[i], Mask(|a|, ones)[i]))
  }

  /** The bytes of GetBroadcastIP. */
  function Filled(a: Addr, ones: nat): (r: Addr)
    ensures |r| == |a|
  {
    seq(|a|, i requires 0 <= i < |a| => OrNot(a[i], Mask(|a|, ones)[i]))
  }

  // ---- The block of addresses under a mask ----

  /** The size of the block: 2 to the number of bits the mask leaves free. */
  function Block(n: nat, ones: nat): (s: nat)
    ensures s > 0
  {
    if n == 0 then 1 else Block(n - 1, ones) * Power(8 - MaskBits(ones, n - 1))
  }

  lemma {:induction false} BlockOne(n: nat, ones: nat)
    requires ones >= 8 * n
    ensures Block(n, ones) == 1
  {
    if n > 0 { BlockOne(n - 1, ones); }
  }

  lemma MulGap(lo: nat, hi: nat, d: nat)
    requires lo < hi
    ensures lo * d + d <= hi * d
  {
    assert hi * d == lo * d + d + (hi - lo - 1) * d;
  }

  lemma DivUnique(q: nat, r: nat, q': nat, r': nat, d: nat)
    requires r < d && r' < d && q * d + r == q' * d + r'
    ensures q == q' && r == r'
  {
    if q < q' { MulGap(q, q', d); } else if q' < q { MulGap(q', q, d); }
  }

  lemma ModUnique(x: nat, q: nat, r: nat, d: nat)
    requires r < d && x == q * d + r
    ensures x % d == r
  {
    DivUnique(q, r, x / d, x % d, d);
  }

  /** The remainder of a number one byte longer. */
  lemma ModWhole(x: nat, b: nat, h: nat)
    requires h > 0 && b < 256
    ensures (256 * x + b) % (h * 256) == 256 * (x % h) + b
  {
    var q, r := x / h, x % h;
    assert 256 * x + b == q * (h * 256) + (256 * r + b) by { assert x == q * h + r; }
    ModUnique(256 * x + b, q, 256 * r + b, h * 256);
  }

  lemma ModPart(x: nat, b: nat, k: nat)
    requires k <= 8 && b < 256
    ensures (256 * x + b) % Power(k) == b % Power(k)
  {
    var p := Power(k);
    assert exists c :: 256 == c * p by { assert 256 == Power(8 - k) * p; }
    var c := Power(8 - k);
    var q, r := b / p, b % p;
    assert 256 * x + b == (c * x + q) * p + r;
    ModUnique(256 * x + b, c * x + q, r, p);
  }

  lemma {:induction false} MaskedPrefix(a: Addr, ones: nat)
    requires |a| > 0
    ensures Masked(a, ones)[..|a| - 1] == Masked(a[..|a| - 1], ones)
    ensures Filled(a, ones)[..|a| - 1] == Filled(a[..|a| - 1], ones)
  {
  }

  /** The free part of a longer number: all of the new byte if the mask ends before it, else only part of it. */
  lemma BlockRemainder(v: nat, b: Byte, k: nat, ones: nat)
    ensures var s, p := Block(k, ones), Power(8 - MaskBits(ones, k));
            (256 * v + b) % (s * p) == 256 * (v % s) + b % p && s * p == 256 * (s - 1) + p
  {
    if ones <= 8 * k {
      ModWhole(v, b, Block(k, ones));
    } else {
      BlockOne(k, ones);
      ModPart(v, b, 8 - MaskBits(ones, k));
    }
  }

  lemma ValueSnoc(a: Addr, k: nat)
    requires |a| == k + 1
    ensures Value(a) == 256 * Value(a[..k]) + a[k]
  {
  }

  /** One more byte: the whole rounded from the rounded parts. */
  lemma RoundedParts(v: nat, x: nat, b: nat, whole: nat, s: nat, p: nat, rest: nat, high: nat, low: nat)
    requires v == 256 * x + b && rest == 256 * high + low && whole == 256 * (s - 1) + p
    ensures 256 * (x - high) + (b - low) == v - rest
    ensures 256 * (x - high + s - 1) + (b - low + p - 1) == v - rest + whole - 1
  {
  }

  lemma NextRemainder(v: nat, b: Byte, k: nat, ones: nat)
    ensures var p := Power(8 - MaskBits(ones, k));
            && (256 * v + b) % Block(k + 1, ones) == 256 * (v % Block(k, ones)) + b % p
            && Block(k + 1, ones) == 256 * (Block(k, ones) - 1) + p
  {
    BlockRemainder(v, b, k, ones);
  }

  lemma LastBytes(a: Addr, k: nat, ones: nat)
    requires |a| == k + 1
    ensures var p := Power(8 - MaskBits(ones, k));
            Masked(a, ones)[k] == a[k] - a[k] % p && Filled(a, ones)[k] == a[k] - a[k] % p + p - 1
  {
    MaskedByte(a[k], MaskBits(ones, k));
  }

  /** Masking and filling round a to the ends of its block. */
  ghost predicate Rounds(a: Addr, ones: nat) {
    var s := Block(|a|, ones);
    Value(Masked(a, ones)) == Value(a) - Value(a) % s && Value(Filled(a, ones)) == Value(a) - Value(a) % s + s - 1
  }

  lemma LastParts(a: Addr, k: nat, ones: nat)
    requires |a| == k + 1
    ensures var p := Power(8 - MaskBits(ones, k));
            && Value(Masked(a, ones)) == 256 * Value(Masked(a[..k], ones)) + (a[k] - a[k] % p)
            && Value(Filled(a, ones)) == 256 * Value(Filled(a[..k], ones)) + (a[k] - a[k] % p + p - 1)
  {
    MaskedPrefix(a, ones);
    LastBytes(a, k, ones);
    ValueSnoc(Masked(a, ones), k);
    ValueSnoc(Filled(a, ones), k);
  }

  lemma OneByteMore(a: Addr, k: nat, ones: nat)
    requires |a| == k + 1 && Rounds(a[..k], ones)
    ensures Rounds(a, ones)
  {
    var s, p, x, b := Block(k, ones), Power(8 - MaskBits(ones, k)), Value(a[..k]), a[k];
    LastParts(a, k, ones);
    NextRemainder(x, b, k, ones);
    ValueSnoc(a, k);
    RoundedParts(Value(a), x, b, Block(k + 1, ones), s, p, Value(a) % Block(k + 1, ones), x % s, b % p);
  }

  /** Masking rounds down to a multiple of the block size, and the broadcast address is the last of the block. */
  lemma {:induction false} MaskedValue(a: Addr, ones: nat)
    ensures var s := Block(|a|, ones);
            Value(Masked(a, ones)) == Value(a) - Value(a) % s && Value(Filled(a, ones)) == Value(a) - Value(a) % s + s - 1
  {
    if |a| > 0 {
      MaskedValue(a[..|a| - 1], ones);
      OneByteMore(a, |a| - 1, ones);
    }
  }
}
