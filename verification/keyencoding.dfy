/** Keys in base64 and hex: the loops of encoding.c and what the encodings mean. */
module KeyEncoding {
  import opened CText
  import opened KeyCodec

  const KEY_LEN := 32
  const BASE64_LEN := 44
  const HEX_LEN := 64

  /** return 1 & ((ret - 1) >> 8): whether nothing went wrong. */
  function Flag(ret: Char): bool { Sar8((ret as Int) - 1) & 1 == 1 }

  // ---- Base64 ----

  function Chars(q: Quad): seq<Char> { [q.s0, q.s1, q.s2, q.s3] }
  function Bytes(t: Triple): seq<Char> { [t.a, t.b, t.c] }

  function TripleAt(key: seq<Char>, i: nat): Triple
    requires 3 * i + 3 <= |key|
  {
    Triple(key[3 * i], key[3 * i + 1], key[3 * i + 2])
  }

  function QuadAt(s: seq<Char>, i: nat): Quad
    requires 4 * i + 4 <= |s|
  {
    Quad(s[4 * i], s[4 * i + 1], s[4 * i + 2], s[4 * i + 3])
  }

  /** n groups of three bytes, each encoded on its own. */
  function EncodeGroups(encode: Triple -> Quad, key: seq<Char>, n: nat): (s: seq<Char>)
    requires 3 * n <= |key|
    ensures |s| == 4 * n
  {
    if n == 0 then [] else EncodeGroups(encode, key, n - 1) + Chars(encode(TripleAt(key, n - 1)))
  }

  function DecodeGroups(decode: Quad -> Option<Triple>, s: seq<Char>, n: nat): (key: Option<seq<Char>>)
    requires 4 * n <= |s|
    ensures key.Some? ==> |key.value| == 3 * n
  {
    if n == 0 then Some([]) else Append(DecodeGroups(decode, s, n - 1), decode(QuadAt(s, n - 1)))
  }

  /** Ten groups of three bytes, the last two bytes as three letters, and the pad. */
  function ToBase64(key: seq<Char>): (s: seq<Char>)
    requires |key| == KEY_LEN
    ensures |s| == BASE64_LEN
  {
    EncodeGroups(EncodeGroup, key, 10) + Chars(EncodeGroup(Triple(key[30], key[31], 0)))[..3] + [61]
  }

  /** The last three letters, whose unused bits must be zero (section 3.5 of RFC 4648). */
  function LastGroup(s: seq<Char>): Option<Triple>
    requires |s| == BASE64_LEN
  {
    DecodeGroup(Quad(s[40], s[41], s[42], 65))
  }

  function FromBase64(s: seq<Char>): Option<seq<Char>> {
    if |s| != BASE64_LEN || s[43] != 61 then None
    else
      var front, last := DecodeGroups(DecodeGroup, s, 10), LastGroup(s);
      if front.Some? && last.Some? && last.value.c == 0 then Some(front.value + [last.value.a, last.value.b]) else None
  }

  function Append(front: Option<seq<Char>>, group: Option<Triple>): Option<seq<Char>> {
    if front.Some? && group.Some? then Some(front.value + Bytes(group.value)) else None
  }

  /** One more group on both sides. */
  lemma OneMoreGroup(keyFront: seq<Char>, f: Option<seq<Char>>, t: Triple, d: Option<Triple>, sFront: seq<Char>, enc: seq<Char>, q: Quad, e: Quad)
    requires (f.Some? ==> |f.value| == |keyFront|) && |sFront| == |enc|
    requires (f == Some(keyFront) <==> sFront == enc) && (d == Some(t) <==> e == q)
    ensures Append(f, d) == Some(keyFront + Bytes(t)) <==> sFront + Chars(q) == enc + Chars(e)
  {
    SameParts(keyFront, f, t, d);
    SameQuads(sFront, enc, q, e);
  }

  lemma {:induction false} GroupsInverse(encode: Triple -> Quad, decode: Quad -> Option<Triple>, key: seq<Char>, s: seq<Char>, n: nat)
    requires 3 * n <= |key| && 4 * n <= |s|
    requires forall t, q :: decode(q) == Some(t) <==> encode(t) == q
    ensures DecodeGroups(decode, s, n) == Some(key[..3 * n]) <==> s[..4 * n] == EncodeGroups(encode, key, n)
  {
    if n > 0 {
      GroupsInverse(encode, decode, key, s, n - 1);
      var t, q := TripleAt(key, n - 1), QuadAt(s, n - 1);
      LastBytes(key, n);
      LastChars(s, n);
      OneMoreGroup(key[..3 * (n - 1)], DecodeGroups(decode, s, n - 1), t, decode(q),
                   s[..4 * (n - 1)], EncodeGroups(encode, key, n - 1), q, encode(t));
    }
  }

  lemma LastBytes(key: seq<Char>, n: nat)
    requires n > 0 && 3 * n <= |key|
    ensures key[..3 * n] == key[..3 * (n - 1)] + Bytes(TripleAt(key, n - 1))
  {
  }

  lemma LastChars(s: seq<Char>, n: nat)
    requires n > 0 && 4 * n <= |s|
    ensures s[..4 * n] == s[..4 * (n - 1)] + Chars(QuadAt(s, n - 1))
  {
  }

  lemma SameParts(front: seq<Char>, f: Option<seq<Char>>, t: Triple, g: Option<Triple>)
    requires f.Some? ==> |f.value| == |front|
    ensures f.Some? && g.Some? && f.value + Bytes(g.value) == front + Bytes(t) <==> f == Some(front) && g == Some(t)
  {
    if f.Some? && g.Some? && f.value + Bytes(g.value) == front + Bytes(t) {
      var k := |front|;
      assert (f.value + Bytes(g.value))[..k] == f.value && (front + Bytes(t))[..k] == front;
      assert (f.value + Bytes(g.value))[k..] == Bytes(g.value) && (front + Bytes(t))[k..] == Bytes(t);
      assert Bytes(g.value)[0] == Bytes(t)[0] && Bytes(g.value)[1] == Bytes(t)[1] && Bytes(g.value)[2] == Bytes(t)[2];
    }
  }

  lemma SameQuads(a: seq<Char>, b: seq<Char>, q: Quad, r: Quad)
    requires |a| == |b|
    ensures a + Chars(q) == b + Chars(r) <==> a == b && q == r
  {
    if a + Chars(q) == b + Chars(r) {
      var k := |a|;
      assert (a + Chars(q))[..k] == a && (b + Chars(r))[..k] == b;
      assert (a + Chars(q))[k..] == Chars(q) && (b + Chars(r))[k..] == Chars(r);
      assert Chars(q)[0] == Chars(r)[0] && Chars(q)[1] == Chars(r)[1] && Chars(q)[2] == Chars(r)[2] && Chars(q)[3] == Chars(r)[3];
    }
  }

  lemma LastInverse(a: Char, b: Char, x: Char, y: Char, z: Char)
    ensures DecodeGroup(Quad(x, y, z, 65)) == Some(Triple(a, b, 0)) <==> [x, y, z] == Chars(EncodeGroup(Triple(a, b, 0)))[..3]
  {
    GroupInverse(Triple(a, b, 0), Quad(x, y, z, 65));
    FirstThree(EncodeGroup(Triple(a, b, 0)), x, y, z);
  }

  lemma FirstThree(q: Quad, x: Char, y: Char, z: Char)
    requires q.s3 == 65
    ensures q == Quad(x, y, z, 65) <==> [x, y, z] == Chars(q)[..3]
  {
    assert Chars(q)[..3] == [q.s0, q.s1, q.s2];
    assert [x, y, z] == [q.s0, q.s1, q.s2] ==> [x, y, z][0] == q.s0 && [x, y, z][1] == q.s1 && [x, y, z][2] == q.s2;
  }

  lemma SplitBase64(key: seq<Char>, s: seq<Char>)
    requires |key| == KEY_LEN && |s| == BASE64_LEN
    ensures s == ToBase64(key) <==>
      s[..40] == EncodeGroups(EncodeGroup, key, 10) && [s[40], s[41], s[42]] == Chars(EncodeGroup(Triple(key[30], key[31], 0)))[..3] && s[43] == 61
  {
    var e, l := EncodeGroups(EncodeGroup, key, 10), Chars(EncodeGroup(Triple(key[30], key[31], 0)))[..3];
    SplitString(s, e, l);
  }

  lemma SplitString(s: seq<Char>, e: seq<Char>, l: seq<Char>)
    requires |s| == 44 && |e| == 40 && |l| == 3
    ensures s == e + l + [61] <==> s[..40] == e && [s[40], s[41], s[42]] == l && s[43] == 61
  {
    assert s == s[..40] + [s[40], s[41], s[42]] + [s[43]];
    if s == e + l + [61] {
      assert s[..40] == e && s[40] == l[0] && s[41] == l[1] && s[42] == l[2];
    }
  }

  lemma SplitKey(key: seq<Char>, front: Option<seq<Char>>, last: Option<Triple>)
    requires |key| == KEY_LEN && (front.Some? ==> |front.value| == 30)
    ensures (front.Some? && last.Some? && last.value.c == 0 && front.value + [last.value.a, last.value.b] == key)
      <==> front == Some(key[..30]) && last == Some(Triple(key[30], key[31], 0))
  {
    assert key == key[..30] + [key[30], key[31]];
    if front.Some? && last.Some? && front.value + [last.value.a, last.value.b] == key {
      assert key[..30] == front.value && key[30] == last.value.a && key[31] == last.value.b;
    }
  }

  /** key_from_base64 succeeds exactly on what key_to_base64 produces, and the two are mutual inverses. */
  lemma Base64Inverse(key: seq<Char>, s: seq<Char>)
    requires |key| == KEY_LEN
    ensures FromBase64(s) == Some(key) <==> s == ToBase64(key)
  {
    if |s| == BASE64_LEN {
      forall t, q ensures DecodeGroup(q) == Some(t) <==> EncodeGroup(t) == q { GroupInverse(t, q); }
      GroupsInverse(EncodeGroup, DecodeGroup, key, s, 10);
      LastInverse(key[30], key[31], s[40], s[41], s[42]);
      SplitBase64(key, s);
      SplitKey(key, DecodeGroups(DecodeGroup, s, 10), LastGroup(s));
    }
  }

  /** So it succeeds exactly on the encodings of keys. */
  lemma Base64Accepts(s: seq<Char>)
    ensures FromBase64(s).Some? <==> exists key :: |key| == KEY_LEN && s == ToBase64(key)
  {
    if FromBase64(s).Some? {
      Base64Inverse(FromBase64(s).value, s);
    }
    forall key: seq<Char> | |key| == KEY_LEN && s == ToBase64(key) ensures FromBase64(s).Some? { Base64Inverse(key, s); }
  }

  // ---- Hex ----

  function High(b: Char): Char { HexLetter(b >> 4) }
  function Low(b: Char): Char { HexLetter(b & 15) }

  function ToHex(key: seq<Char>): (s: seq<Char>)
    ensures |s| == 2 * |key|
  {
    if |key| == 0 then []
    else
      var k := |key| - 1;
      ToHex(key[..k]) + [High(key[k]), Low(key[k])]
  }

  function HexByte(c: Char, d: Char): Option<Char> {
    if Nibble(c).Some? && Nibble(d).Some? then Some((Nibble(c).value * 16) | Nibble(d).value) else None
  }

  function HexBytes(s: seq<Char>, n: nat): (key: Option<seq<Char>>)
    requires 2 * n <= |s|
    ensures key.Some? ==> |key.value| == n
  {
    if n == 0 then Some([])
    else
      var front, b := HexBytes(s, n - 1), HexByte(s[2 * n - 2], s[2 * n - 1]);
      if front.Some? && b.Some? then Some(front.value + [b.value]) else None
  }

  function FromHex(s: seq<Char>): Option<seq<Char>> { if |s| != HEX_LEN then None else HexBytes(s, KEY_LEN) }

  function Lower(s: seq<Char>): (r: seq<Char>)
    ensures |r| == |s|
  {
    seq(|s|, i requires 0 <= i < |s| => LowerHex(s[i]))
  }

  lemma HexByteInverse(b: Char, c: Char, d: Char)
    ensures HexByte(c, d) == Some(b) <==> LowerHex(c) == High(b) && LowerHex(d) == Low(b)
  {
    NibbleSmall(c);
    NibbleSmall(d);
  }

  lemma {:induction false} HexBytesInverse(key: seq<Char>, s: seq<Char>, n: nat)
    requires n <= |key| && 2 * n <= |s|
    ensures HexBytes(s, n) == Some(key[..n]) <==> Lower(s)[..2 * n] == ToHex(key[..n])
  {
    if n > 0 {
      HexBytesInverse(key, s, n - 1);
      var b, c, d := key[n - 1], s[2 * n - 2], s[2 * n - 1];
      HexByteInverse(b, c, d);
      KeyTail(key, n);
      LowerTail(s, n);
      OneMoreByte(key[..n - 1], HexBytes(s, n - 1), b, HexByte(c, d), Lower(s)[..2 * (n - 1)], ToHex(key[..n - 1]),
                  LowerHex(c), LowerHex(d), High(b), Low(b));
    }
  }

  lemma KeyTail(key: seq<Char>, n: nat)
    requires 0 < n <= |key|
    ensures key[..n][..n - 1] == key[..n - 1] && key[..n] == key[..n - 1] + [key[n - 1]]
  {
  }

  lemma LowerTail(s: seq<Char>, n: nat)
    requires n > 0 && 2 * n <= |s|
    ensures Lower(s)[..2 * n] == Lower(s)[..2 * (n - 1)] + [LowerHex(s[2 * n - 2]), LowerHex(s[2 * n - 1])]
  {
  }

  lemma OneMoreByte(front: seq<Char>, f: Option<seq<Char>>, b: Char, g: Option<Char>, low: seq<Char>, hex: seq<Char>, c: Char, d: Char, hi: Char, lo: Char)
    requires (f.Some? ==> |f.value| == |front|) && |low| == |hex|
    requires (f == Some(front) <==> low == hex) && (g == Some(b) <==> c == hi && d == lo)
    ensures (f.Some? && g.Some? && f.value + [g.value] == front + [b]) <==> low + [c, d] == hex + [hi, lo]
  {
    if f.Some? && g.Some? && f.value + [g.value] == front + [b] {
      assert (f.value + [g.value])[..|front|] == f.value && (front + [b])[..|front|] == front;
      assert (f.value + [g.value])[|front|] == g.value && (front + [b])[|front|] == b;
    }
    if low + [c, d] == hex + [hi, lo] {
      assert (low + [c, d])[..|hex|] == low && (hex + [hi, lo])[..|hex|] == hex;
      assert (low + [c, d])[|hex|] == c && (hex + [hi, lo])[|hex|] == hi;
      assert (low + [c, d])[|hex| + 1] == d && (hex + [hi, lo])[|hex| + 1] == lo;
    }
  }

  /** key_from_hex reads a key exactly from its hex digits, in either case. */
  lemma HexInverse(key: seq<Char>, s: seq<Char>)
    requires |key| == KEY_LEN
    ensures FromHex(s) == Some(key) <==> Lower(s) == ToHex(key)
  {
    if |s| == HEX_LEN {
      HexBytesInverse(key, s, KEY_LEN);
      assert key[..KEY_LEN] == key && Lower(s)[..2 * KEY_LEN] == Lower(s);
    }
  }

  lemma {:induction false} HexBytesAccepts(s: seq<Char>, n: nat)
    requires 2 * n <= |s|
    ensures HexBytes(s, n).Some? <==> forall i :: 0 <= i < 2 * n ==> Nibble(s[i]).Some?
  {
    if n > 0 { HexBytesAccepts(s, n - 1); }
  }

  /** It accepts exactly 64 hex digits. */
  lemma HexAccepts(s: seq<Char>)
    ensures FromHex(s).Some? <==> |s| == HEX_LEN && forall i :: 0 <= i < |s| ==> Nibble(s[i]).Some?
  {
    if |s| == HEX_LEN { HexBytesAccepts(s, KEY_LEN); }
  }
}
