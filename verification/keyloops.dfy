/** The constant-time loops of encoding.c over key, base64 and hex buffers. */
module KeyLoops {
  import opened CText
  import opened KeyCodec
  import opened KeyEncoding

  method EncodeLetter(v: Char) returns (c: Char)
    requires v < 64
    ensures c == Letter(v)
  {
    EncodeCharIsTable(v);
    c := EncodeChar(v);
  }

  /** encode_base64: four letters from dest[at] on. */
  method EncodeBase64(dest: array<Char>, at: nat, src: Triple)
    requires at + 4 <= dest.Length
    modifies dest
    ensures dest[..at + 4] == old(dest[..at]) + Chars(EncodeGroup(src))
    ensures forall j :: at + 4 <= j < dest.Length ==> dest[j] == old(dest[j])
  {
    SplitJoin(src, Split(src));
    var split := Split(src);
    var input := [split.s0, split.s1, split.s2, split.s3];
    assert forall i :: 0 <= i < 4 ==> input[i] < 64;
    for i := 0 to 4
      invariant forall j :: 0 <= j < i ==> dest[at + j] == Letter(input[j])
      invariant forall j :: 0 <= j < at || at + 4 <= j < dest.Length ==> dest[j] == old(dest[j])
    {
      var c := EncodeLetter(input[i]);
      dest[at + i] := c;
    }
    assert dest[at + 0] == Letter(input[0]) && dest[at + 1] == Letter(input[1]) && dest[at + 2] == Letter(input[2]) && dest[at + 3] == Letter(input[3]);
    assert dest[..at + 4] == old(dest[..at]) + dest[at..at + 4];
  }

  /** One round of the loop of key_to_base64. */
  method EncodeNext(base64: array<Char>, key: seq<Char>, i: nat)
    requires 4 * i + 4 <= base64.Length && 3 * i + 3 <= |key| && base64[..4 * i] == EncodeGroups(EncodeGroup, key, i)
    modifies base64
    ensures base64[..4 * (i + 1)] == EncodeGroups(EncodeGroup, key, i + 1)
  {
    ghost var t := TripleAt(key, i);
    EncodeBase64(base64, 4 * i, TripleAt(key, i));
    assert base64[..4 * i + 4] == EncodeGroups(EncodeGroup, key, i) + Chars(EncodeGroup(t));
  }

  method EncodeFront(base64: array<Char>, key: seq<Char>, n: nat)
    requires 4 * n <= base64.Length && 3 * n <= |key|
    modifies base64
    ensures base64[..4 * n] == EncodeGroups(EncodeGroup, key, n)
  {
    for i := 0 to n
      invariant base64[..4 * i] == EncodeGroups(EncodeGroup, key, i)
    {
      EncodeNext(base64, key, i);
    }
  }

  /** key_to_base64. */
  method KeyToBase64(base64: array<Char>, key: seq<Char>)
    requires base64.Length == BASE64_LEN + 1 && |key| == KEY_LEN
    modifies base64
    ensures base64[..BASE64_LEN] == ToBase64(key) && base64[BASE64_LEN] == 0
  {
    EncodeFront(base64, key, 10);
    ghost var front := base64[..40];
    ghost var last := Chars(EncodeGroup(Triple(key[30], key[31], 0)));
    EncodeBase64(base64, 40, Triple(key[30], key[31], 0));
    ghost var all := base64[..44];
    base64[BASE64_LEN - 1] := 61;
    base64[BASE64_LEN] := 0;
    assert base64[..44] == all[..43] + [61];
    assert (front + last)[..43] == front + last[..3];
  }

  method DecodeLetter(c: Char, signed: bool) returns (x: Int)
    ensures x == Word(Sextet(c))
  {
    DecodeCharIsTable(c, signed);
    x := DecodeChar(c, signed);
  }

  /** decode_base64: the four values shifted together. */
  method DecodeBase64(src: Quad, signed: bool) returns (val: Int)
    ensures Negative(val) == 0 || Negative(val) == 1
    ensures Negative(val) == 0 <==> DecodeGroup(src).Some?
    ensures Negative(val) == 0 ==> DecodeGroup(src) == Some(Triple(Byte2(val), Byte1(val), Byte0(val)))
  {
    var x0 := DecodeLetter(src.s0, signed);
    var x1 := DecodeLetter(src.s1, signed);
    var x2 := DecodeLetter(src.s2, signed);
    var x3 := DecodeLetter(src.s3, signed);
    val := Assemble(x0, x1, x2, x3);
    AssembledIsTable(Sextet(src.s0), Sextet(src.s1), Sextet(src.s2), Sextet(src.s3));
  }

  /** One group of the loop of key_from_base64. */
  method DecodeInto(key: array<Char>, i: nat, src: Quad, signed: bool) returns (fault: Char)
    requires 3 * i + 3 <= key.Length
    modifies key
    ensures fault == 0 <==> DecodeGroup(src).Some?
    ensures fault == 0 ==> key[..3 * (i + 1)] == old(key[..3 * i]) + Bytes(DecodeGroup(src).value)
  {
    var val := DecodeBase64(src, signed);
    fault := Negative(val);
    key[3 * i] := Byte2(val);
    key[3 * i + 1] := Byte1(val);
    key[3 * i + 2] := Byte0(val);
  }

  /** The letters before the last three. */
  method DecodeFront(key: array<Char>, base64: seq<Char>, n: nat, signed: bool) returns (ret: Char)
    requires 3 * n <= key.Length && 4 * n <= |base64|
    modifies key
    ensures ret == 0 <==> DecodeGroups(DecodeGroup, base64, n).Some?
    ensures ret == 0 ==> DecodeGroups(DecodeGroup, base64, n) == Some(key[..3 * n])
  {
    ret := 0;
    for i := 0 to n
      invariant ret == 0 <==> DecodeGroups(DecodeGroup, base64, i).Some?
      invariant ret == 0 ==> DecodeGroups(DecodeGroup, base64, i) == Some(key[..3 * i])
    {
      var fault := DecodeInto(key, i, QuadAt(base64, i), signed);
      ret := ret | fault;
    }
  }

  /** The last three letters: their unused bits count as an error too. */
  method DecodeLast(key: array<Char>, base64: seq<Char>, signed: bool) returns (fault: Char)
    requires key.Length == KEY_LEN && |base64| == BASE64_LEN
    modifies key
    ensures fault == 0 <==> LastGroup(base64).Some? && LastGroup(base64).value.c == 0
    ensures key[..30] == old(key[..30])
    ensures fault == 0 ==> key[..] == key[..30] + [LastGroup(base64).value.a, LastGroup(base64).value.b]
  {
    var val := DecodeBase64(Quad(base64[40], base64[41], base64[42], 65), signed);
    fault := Negative(val) | Byte0(val);
    key[30] := Byte2(val);
    key[31] := Byte1(val);
  }

  /** key_from_base64: the error bits of all groups are collected and looked at once. */
  method KeyFromBase64(key: array<Char>, base64: seq<Char>, signed: bool) returns (ok: bool)
    requires key.Length == KEY_LEN
    modifies key
    ensures ok <==> FromBase64(base64).Some?
    ensures ok ==> FromBase64(base64) == Some(key[..])
  {
    if |base64| != BASE64_LEN || base64[BASE64_LEN - 1] != 61 {
      return false;
    }
    var ret := DecodeFront(key, base64, 10, signed);
    var fault := DecodeLast(key, base64, signed);
    ret := ret | fault;
    ok := Flag(ret);
  }

  method EncodeDigit(v: Char) returns (c: Char)
    requires v < 16
    ensures c == HexLetter(v)
  {
    c := EncodeHex(v);
  }

  /** key_to_hex. */
  method KeyToHex(hex: array<Char>, key: seq<Char>)
    requires hex.Length == HEX_LEN + 1 && |key| == KEY_LEN
    modifies hex
    ensures hex[..HEX_LEN] == ToHex(key) && hex[HEX_LEN] == 0
  {
    var i := 0;
    while i < KEY_LEN
      invariant 0 <= i <= KEY_LEN && hex[..2 * i] == ToHex(key[..i])
    {
      ghost var front := hex[..2 * i];
      var hi := EncodeDigit(key[i] >> 4);
      var lo := EncodeDigit(key[i] & 15);
      hex[2 * i] := hi;
      hex[2 * i + 1] := lo;
      assert hex[..2 * (i + 1)] == front + [hi, lo];
      KeyTail(key, i + 1);
      i := i + 1;
    }
    assert key[..KEY_LEN] == key;
    hex[2 * i] := 0;
  }

  method DecodeDigit(c: Char) returns (fault: Char, value: Char)
    ensures fault == 0 <==> Nibble(c).Some?
    ensures fault == 0 ==> value == Nibble(c).value
  {
    HexCharIsTable(c);
    fault, value := HexFault(c), HexValue(c);
  }

  /** Two digits into one byte. */
  method DecodePair(c: Char, d: Char) returns (fault: Char, b: Char)
    ensures fault == 0 <==> HexByte(c, d).Some?
    ensures fault == 0 ==> HexByte(c, d) == Some(b)
  {
    var hi, lo;
    var fault';
    fault, hi := DecodeDigit(c);
    fault', lo := DecodeDigit(d);
    fault := fault | fault';
    b := (hi * 16) | lo;
  }

  method DecodeHex(key: array<Char>, hex: seq<Char>, n: nat) returns (ret: Char)
    requires n <= key.Length && 2 * n <= |hex|
    modifies key
    ensures ret == 0 <==> HexBytes(hex, n).Some?
    ensures ret == 0 ==> HexBytes(hex, n) == Some(key[..n])
  {
    ret := 0;
    for i := 0 to n
      invariant ret == 0 <==> HexBytes(hex, i).Some?
      invariant ret == 0 ==> HexBytes(hex, i) == Some(key[..i])
    {
      ghost var front := key[..i];
      var fault, b := DecodePair(hex[2 * i], hex[2 * i + 1]);
      ret := ret | fault;
      key[i] := b;
      assert key[..i + 1] == front + [b];
    }
  }

  /** key_from_hex. */
  method KeyFromHex(key: array<Char>, hex: seq<Char>) returns (ok: bool)
    requires key.Length == KEY_LEN
    modifies key
    ensures ok <==> FromHex(hex).Some?
    ensures ok ==> FromHex(hex) == Some(key[..])
  {
    if |hex| != HEX_LEN {
      return false;
    }
    var ret := DecodeHex(key, hex, KEY_LEN);
    assert key[..] == key[..KEY_LEN];
    ok := Flag(ret);
  }

  /** key_is_zero. */
  method KeyIsZero(key: seq<Char>) returns (zero: bool)
    ensures zero <==> forall i :: 0 <= i < |key| ==> key[i] == 0
  {
    var acc: Char := 0;
    for i := 0 to |key|
      invariant acc == 0 <==> forall j :: 0 <= j < i ==> key[j] == 0
    {
      acc := acc | key[i];
    }
    zero := Flag(acc);
  }
}
