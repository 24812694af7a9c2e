/** The branch-free base64 and hex expressions of encoding.c against the tables of RFC 4648. */
module KeyCodec {
  import opened CText

  type Char = bv8
  type Int = bv32

  const MINUS_ONE: Int := 0xffff_ffff

  /** x >> 8 on a signed int. */
  function Sar8(x: Int): Int { if x >= 0x8000_0000 then !(!x >> 8) else x >> 8 }

  /** A char promoted to int; whether char is signed is left to the machine. */
  function Promote(c: Char, signed: bool): Int { if signed && c >= 0x80 then (c as Int) | 0xffff_ff00 else c as Int }

  // ---- Section 4 of RFC 4648 ----

  /** The letter for a 6-bit value: A to Z, a to z, 0 to 9, plus and slash. */
  function Letter(v: Char): Char {
    if v < 26 then v + 65 else if v < 52 then v + 71 else if v < 62 then v - 4 else if v == 62 then 43 else 47
  }

  /** The 6-bit value of a letter. */
  function Sextet(c: Char): Option<Char> {
    if 65 <= c <= 90 then Some(c - 65)
    else if 97 <= c <= 122 then Some(c - 71)
    else if 48 <= c <= 57 then Some(c + 4)
    else if c == 43 then Some(62)
    else if c == 47 then Some(63)
    else None
  }

  const UPPER := "ABCDEFGHIJKLMNOPQRSTUVWXYZ"
  const LOWER := "abcdefghijklmnopqrstuvwxyz"
  const DIGITS := "0123456789"

  /** The alphabet of the RFC, in order. */
  const ALPHABET: string := UPPER + LOWER + DIGITS + "+/"

  lemma Consecutive(i: nat)
    ensures i < 26 ==> UPPER[i] as int == 65 + i && LOWER[i] as int == 97 + i
    ensures i < 10 ==> DIGITS[i] as int == 48 + i
  {
  }

  lemma LetterAsInt(v: Char)
    requires v < 64
    ensures Letter(v) as int == if v < 26 then v as int + 65 else if v < 52 then v as int + 71 else if v < 62 then v as int - 4
                                else if v == 62 then 43 else 47
  {
  }

  /** The letter is the one at that place of the alphabet. */
  lemma LetterOfAlphabet(v: Char)
    requires v < 64
    ensures |ALPHABET| == 64 && Letter(v) as int == ALPHABET[v as int] as int
  {
    LetterAsInt(v);
    var i := v as int;
    if i < 26 { Consecutive(i); } else if i < 52 { Consecutive(i - 26); } else if i < 62 { Consecutive(i - 52); }
  }

  lemma LetterInverse(v: Char, c: Char)
    ensures v < 64 ==> Sextet(Letter(v)) == Some(v)
    ensures Sextet(c).Some? ==> Sextet(c).value < 64 && Letter(Sextet(c).value) == c
  {
  }

  // ---- The expressions ----

  function EncodeChar(v: Char): Char {
    var x := v as Int;
    ((x + 65 + (Sar8(25 - x) & 6) - (Sar8(51 - x) & 75) - (Sar8(61 - x) & 15) + (Sar8(62 - x) & 3)) & 0xff) as Char
  }

  lemma EncodeCharIsTable(v: Char)
    requires v < 64
    ensures EncodeChar(v) == Letter(v)
  {
  }

  function InRange(x: Int, lo: Int, hi: Int): Int { Sar8((lo - 1 - x) & (x - (hi + 1))) }

  /** The value of one character of decode_base64, or -1. */
  function DecodeChar(c: Char, signed: bool): Int {
    var x := Promote(c, signed);
    MINUS_ONE + (InRange(x, 65, 90) & (x - 64)) + (InRange(x, 97, 122) & (x - 70)) + (InRange(x, 48, 57) & (x + 5))
    + (InRange(x, 43, 43) & 63) + (InRange(x, 47, 47) & 64)
  }

  /** A promoted char, signed or not. */
  predicate IsPromoted(x: Int) { x < 256 || x >= 0xffff_ff80 }

  lemma PromoteIs(c: Char, signed: bool)
    ensures var x := Promote(c, signed); IsPromoted(x) && (c < 128 ==> x == c as Int) && (c >= 128 ==> x >= 128)
  {
  }

  lemma LettersInRange(x: Int)
    requires IsPromoted(x)
    ensures InRange(x, 65, 90) == if 65 <= x <= 90 then MINUS_ONE else 0
    ensures InRange(x, 97, 122) == if 97 <= x <= 122 then MINUS_ONE else 0
  {
  }

  lemma OthersInRange(x: Int)
    requires IsPromoted(x)
    ensures InRange(x, 48, 57) == if 48 <= x <= 57 then MINUS_ONE else 0
    ensures InRange(x, 43, 43) == if x == 43 then MINUS_ONE else 0
    ensures InRange(x, 47, 47) == if x == 47 then MINUS_ONE else 0
  {
  }

  lemma DecodeCharIsTable(c: Char, signed: bool)
    ensures DecodeChar(c, signed) == if Sextet(c).Some? then Sextet(c).value as Int else MINUS_ONE
  {
    PromoteIs(c, signed);
    LettersInRange(Promote(c, signed));
    OthersInRange(Promote(c, signed));
  }

  // ---- Groups of three bytes and four letters ----

  datatype Triple = Triple(a: Char, b: Char, c: Char)
  datatype Quad = Quad(s0: Char, s1: Char, s2: Char, s3: Char)

  /** The 24 bits of three bytes in four groups of six. */
  function Split(t: Triple): Quad {
    Quad((t.a >> 2) & 63, ((t.a << 4) | (t.b >> 4)) & 63, ((t.b << 2) | (t.c >> 6)) & 63, t.c & 63)
  }

  function Join(q: Quad): Triple {
    Triple((q.s0 << 2) | (q.s1 >> 4), (q.s1 << 4) | (q.s2 >> 2), (q.s2 << 6) | q.s3)
  }

  predicate SixBits(q: Quad) { q.s0 < 64 && q.s1 < 64 && q.s2 < 64 && q.s3 < 64 }

  lemma SplitJoin(t: Triple, q: Quad)
    ensures SixBits(Split(t)) && Join(Split(t)) == t
    ensures SixBits(q) ==> Split(Join(q)) == q
  {
  }

  function Letters(q: Quad): Quad { Quad(Letter(q.s0), Letter(q.s1), Letter(q.s2), Letter(q.s3)) }

  function Values(q: Quad): Option<Quad> {
    var v0, v1, v2, v3 := Sextet(q.s0), Sextet(q.s1), Sextet(q.s2), Sextet(q.s3);
    if v0.Some? && v1.Some? && v2.Some? && v3.Some? then Some(Quad(v0.value, v1.value, v2.value, v3.value)) else None
  }

  function EncodeGroup(t: Triple): Quad { Letters(Split(t)) }

  function DecodeGroup(q: Quad): Option<Triple> {
    var v := Values(q);
    if v.Some? then Some(Join(v.value)) else None
  }

  /** Four letters decode to a triple exactly when the triple encodes to them. */
  lemma GroupInverse(t: Triple, q: Quad)
    ensures DecodeGroup(q) == Some(t) <==> EncodeGroup(t) == q
  {
    if Values(q).Some? { LettersOfValues(q); SplitJoin(t, Values(q).value); }
    SplitJoin(t, q);
    ValuesOfLetters(Split(t));
  }

  lemma LettersOfValues(q: Quad)
    requires Values(q).Some?
    ensures SixBits(Values(q).value) && Letters(Values(q).value) == q
  {
    LetterInverse(0, q.s0);
    LetterInverse(0, q.s1);
    LetterInverse(0, q.s2);
    LetterInverse(0, q.s3);
  }

  lemma ValuesOfLetters(q: Quad)
    requires SixBits(q)
    ensures Values(Letters(q)) == Some(q)
  {
    LetterInverse(q.s0, 0);
    LetterInverse(q.s1, 0);
    LetterInverse(q.s2, 0);
    LetterInverse(q.s3, 0);
  }

  function Assemble(x0: Int, x1: Int, x2: Int, x3: Int): Int { (x0 << 18) | (x1 << 12) | (x2 << 6) | x3 }

  function Negative(val: Int): Char { ((val >> 31) & 0xff) as Char }
  function Byte2(val: Int): Char { ((val >> 16) & 0xff) as Char }
  function Byte1(val: Int): Char { ((val >> 8) & 0xff) as Char }
  function Byte0(val: Int): Char { (val & 0xff) as Char }

  /** Six bits as an int, or -1. */
  function Word(v: Option<Char>): Int { if v.Some? then v.value as Int else MINUS_ONE }

  function JoinAll(v0: Option<Char>, v1: Option<Char>, v2: Option<Char>, v3: Option<Char>): Option<Triple> {
    if v0.Some? && v1.Some? && v2.Some? && v3.Some? then Some(Join(Quad(v0.value, v1.value, v2.value, v3.value))) else None
  }

  predicate Small(v: Option<Char>) { v.Some? ==> v.value < 64 }

  /** The sign of the assembled int tells whether all four values are there, and its low bytes are the triple. */
  lemma AssembledIsTable(v0: Option<Char>, v1: Option<Char>, v2: Option<Char>, v3: Option<Char>)
    requires Small(v0) && Small(v1) && Small(v2) && Small(v3)
    ensures var val := Assemble(Word(v0), Word(v1), Word(v2), Word(v3));
            && (Negative(val) == 0 || Negative(val) == 1)
            && (Negative(val) == 0 <==> JoinAll(v0, v1, v2, v3).Some?)
            && (Negative(val) == 0 ==> JoinAll(v0, v1, v2, v3) == Some(Triple(Byte2(val), Byte1(val), Byte0(val))))
  {
    if JoinAll(v0, v1, v2, v3).Some? { }
  }

  // ---- Hex: section 8 of RFC 4648, either case ----

  function HexLetter(v: Char): Char { if v < 10 then v + 48 else v + 87 }

  function Nibble(c: Char): Option<Char> {
    if 48 <= c <= 57 then Some(c - 48)
    else if 65 <= c <= 70 then Some(c - 55)
    else if 97 <= c <= 102 then Some(c - 87)
    else None
  }

  /** The letters A to F in lower case. */
  function LowerHex(c: Char): Char { if 65 <= c <= 70 then c + 32 else c }

  lemma NibbleSmall(c: Char)
    ensures Nibble(c).Some? ==> Nibble(c).value < 16
  {
  }

  function EncodeHex(v: Char): Char {
    var x := v as Int;
    ((87 + x + (((x - 10) >> 8) & !38)) & 0xff) as Char
  }

  /** The intermediate bytes of key_from_hex for one character. */
  function NumOf(c: Char): Char { c ^ 48 }
  function NumMask(c: Char): Char { ((((NumOf(c) as Int) - 10) >> 8) & 0xff) as Char }
  function AlphaOf(c: Char): Char { ((((c as Int) & !32) - 55) & 0xff) as Char }
  function AlphaMask(c: Char): Char {
    var a := AlphaOf(c) as Int;
    ((((a - 10) ^ (a - 16)) >> 8) & 0xff) as Char
  }

  function HexFault(c: Char): Char { (Sar8(((NumMask(c) | AlphaMask(c)) as Int) - 1) & 0xff) as Char }
  function HexValue(c: Char): Char { (NumMask(c) & NumOf(c)) | (AlphaMask(c) & AlphaOf(c)) }

  lemma HexCharIsTable(c: Char)
    ensures HexFault(c) == 0 <==> Nibble(c).Some?
    ensures Nibble(c).Some? ==> HexValue(c) == Nibble(c).value
  {
  }

}
