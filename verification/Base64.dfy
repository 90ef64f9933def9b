/** The in-place base64 codec (src/lws_codec.c), against RFC 4648. */
module Base64 {
  import opened Bits
  import opened Wrappers

  const PAD: byte := 61

  /** The alphabet of RFC 4648, section 4, Table 1. */
  const ALPHABET: string := UPPER + LOWER + DIGITS + "+/"

  /** b64_enc_tbl */
  function EncTbl(v: nat): (c: byte)
    requires v < 64
  {
    if v < 26 then 65 + v
    else if v < 52 then 97 + (v - 26)
    else if v < 62 then 48 + (v - 52)
    else if v == 62 then 43
    else 47
  }

  /** b64_dec_tbl: the value of a character, or 0x80 for one that is not in the alphabet. */
  function DecTbl(c: byte): (v: byte)
    ensures v < 64 || v == 0x80
  {
    if 65 <= c <= 90 then c - 65
    else if 97 <= c <= 122 then c - 97 + 26
    else if 48 <= c <= 57 then c - 48 + 52
    else if c == 43 then 62
    else if c == 47 then 63
    else 0x80
  }

  ghost predicate InAlphabet(c: byte) {
    c as char in ALPHABET
  }

  /** The first table is the alphabet. */
  lemma Alphabet()
    ensures |ALPHABET| == 64 && PAD == '=' as int
    ensures forall v: nat :: v < 64 ==> EncTbl(v) == ALPHABET[v] as int
  {
    hide UPPER, LOWER, DIGITS;
    AsciiOrder();
  }

  /** 0x80 marks exactly the characters outside the alphabet, and the others have their places in it as values. */
  lemma Places(c: byte)
    ensures |ALPHABET| == 64 && forall v: nat :: v < 64 ==> (DecTbl(c) == v <==> ALPHABET[v] as int == c)
    ensures DecTbl(c) < 64 <==> InAlphabet(c)
  {
    hide ALPHABET;
    Alphabet();
    if c as char in ALPHABET {
      var v: nat :| v < 64 && ALPHABET[v] == c as char;
      assert EncTbl(v) == c;
    } else if DecTbl(c) < 64 {
      assert ALPHABET[DecTbl(c)] as int == EncTbl(DecTbl(c));
    }
  }

  /** The two tables are inverse to each other. */
  lemma Tables(c: byte)
    ensures forall v: nat :: v < 64 ==> DecTbl(EncTbl(v)) == v && EncTbl(v) != PAD
    ensures DecTbl(c) < 64 <==> InAlphabet(c)
    ensures DecTbl(c) < 64 ==> EncTbl(DecTbl(c)) == c
    ensures DecTbl(PAD) == 0x80
  {
    hide ALPHABET, InAlphabet;
    Places(c);
  }

  lemma Character(c: byte)
    requires InAlphabet(c)
    ensures DecTbl(c) < 64 && EncTbl(DecTbl(c)) == c
  {
    Tables(c);
  }

  // ----- RFC 4648, section 4: groups of 24 bits as four groups of 6

  /** The four groups of 6 bits in three bytes, from the left. */
  function Sextets(b0: byte, b1: byte, b2: byte): (q: (nat, nat, nat, nat))
    ensures q.0 < 64 && q.1 < 64 && q.2 < 64 && q.3 < 64
  {
    (b0 / 4, b0 % 4 * 16 + b1 / 16, b1 % 16 * 4 + b2 / 64, b2 % 64)
  }

  /** (uint8_t)((va << 2) | (vb >> 4)), and the other two bytes that the source puts together. */
  function Byte0(va: nat, vb: nat): (b: byte)
    requires va < 64 && vb < 64
    ensures b == va * 4 + vb / 16
  {
    Joined(va, vb, 2);
    Or(Shl(va, 2), Shr(vb, 4)) % 256
  }

  function Byte1(vb: nat, vc: nat): (b: byte)
    requires vb < 64 && vc < 64
    ensures b == vb % 16 * 16 + vc / 4
  {
    Joined(vb, vc, 4);
    Or(Shl(vb, 4), Shr(vc, 2)) % 256
  }

  function Byte2(vc: nat, vd: nat): (b: byte)
    requires vc < 64 && vd < 64
    ensures b == vc % 4 * 64 + vd
  {
    Joined(vc, vd, 6);
    Or(Shl(vc, 6), vd) % 256
  }

  /** Of two neighbouring groups of 6 bits, the byte that takes 8 - k bits of the first and k of the second. */
  lemma Joined(x: nat, y: nat, k: nat)
    requires x < 64 && y < 64 && (k == 2 || k == 4 || k == 6)
    ensures Or(Shl(x, k), Shr(y, 6 - k)) % 256
      == if k == 2 then x * 4 + y / 16 else if k == 4 then x % 16 * 16 + y / 4 else x % 4 * 64 + y
  {
    hide Or, Shl, Shr;
    assert Bit(0) == 1 && Bit(2) == 4 && Bit(4) == 16 && Bit(6) == 64;
    ShlMultiplies(x, k);
    ShrDivides(y, 6 - k);
    OrAdds(x, y / Bit(6 - k), k);
    hide Bit;
    if k == 2 {
      DivMod(x * 4 + y / 16, 256, 0, x * 4 + y / 16);
    } else if k == 4 {
      DivMod(x * 16 + y / 4, 256, x / 16, x % 16 * 16 + y / 4);
    } else {
      DivMod(x * 64 + y, 256, x / 4, x % 4 * 64 + y);
    }
  }

  /** The three bytes in four groups of 6 bits. */
  function Octets(v0: nat, v1: nat, v2: nat, v3: nat): (b: (byte, byte, byte))
    requires v0 < 64 && v1 < 64 && v2 < 64 && v3 < 64
  {
    (Byte0(v0, v1), Byte1(v1, v2), Byte2(v2, v3))
  }

  lemma Regroup(b0: byte, b1: byte, b2: byte, v0: nat, v1: nat, v2: nat, v3: nat)
    requires v0 < 64 && v1 < 64 && v2 < 64 && v3 < 64
    ensures Sextets(b0, b1, b2) == (v0, v1, v2, v3) <==> Octets(v0, v1, v2, v3) == (b0, b1, b2)
  {
    hide Byte0, Byte1, Byte2;
    assert b0 % 4 * 16 + b1 / 16 == v1 <==> b0 % 4 == v1 / 16 && b1 / 16 == v1 % 16;
    assert b1 % 16 * 4 + b2 / 64 == v2 <==> b1 % 16 == v2 / 4 && b2 / 64 == v2 % 4;
    assert v0 * 4 + v1 / 16 == b0 <==> v0 == b0 / 4 && v1 / 16 == b0 % 4;
    assert v1 % 16 * 16 + v2 / 4 == b1 <==> v1 % 16 == b1 / 16 && v2 / 4 == b1 % 16;
    assert v2 % 4 * 64 + v3 == b2 <==> v2 % 4 == b2 / 64 && v3 == b2 % 64;
  }

  /** The encoding of RFC 4648, section 4, with its two padded forms for a final quantum of 8 or 16 bits. */
  function Encoded(s: bytes): (e: bytes)
    ensures |e| == (|s| + 2) / 3 * 4
  {
    hide EncTbl, Sextets, ALPHABET;
    if |s| == 0 then []
    else if |s| == 1 then
      var q := Sextets(s[0], 0, 0);
      [EncTbl(q.0), EncTbl(q.1), PAD, PAD]
    else if |s| == 2 then
      var q := Sextets(s[0], s[1], 0);
      [EncTbl(q.0), EncTbl(q.1), EncTbl(q.2), PAD]
    else
      var q := Sextets(s[0], s[1], s[2]);
      [EncTbl(q.0), EncTbl(q.1), EncTbl(q.2), EncTbl(q.3)] + Encoded(s[3..])
  }

  /** Three bytes of s from k on as a number of 24 bits, zero bits filling up a final quantum. */
  function Number(s: bytes, k: nat): (v: nat)
    requires k < |s|
    ensures v < 0x100_0000
  {
    var b0: nat, b1: nat, b2: nat := s[k], if k + 1 < |s| then s[k + 1] else 0, if k + 2 < |s| then s[k + 2] else 0;
    b0 * 65536 + b1 * 256 + b2
  }

  /**
   * The characters of an encoding: those of a block stand in the alphabet at the base-64 digits of the block's
   * number, and those beyond its last byte are padding.
   */
  ghost predicate SpellsAt(e: bytes, s: bytes, i: nat)
    requires i < |e|
  {
    && |e| == (|s| + 2) / 3 * 4 && |ALPHABET| == 64
    && var k, v := i / 4 * 3, Number(s, i / 4 * 3);
       var digit := [v / 262144 % 64, v / 4096 % 64, v / 64 % 64, v % 64][i % 4];
       e[i] as char == if |s| < k + i % 4 then '=' else ALPHABET[digit]
  }

  ghost predicate Spells(e: bytes, s: bytes) {
    |e| == (|s| + 2) / 3 * 4 && forall i :: 0 <= i < |e| ==> SpellsAt(e, s, i)
  }

  lemma {:induction false} EncodedSpells(s: bytes)
    ensures Spells(Encoded(s), s)
  {
    forall i: nat | i < |Encoded(s)| ensures SpellsAt(Encoded(s), s, i) {
      EncodedAt(s, i);
    }
  }

  lemma {:induction false} EncodedAt(s: bytes, i: nat)
    requires i < |Encoded(s)|
    ensures SpellsAt(Encoded(s), s, i)
  {
    hide ALPHABET, EncTbl, Encoded, Sextets, SpellsAt;
    if i >= 4 {
      EncodedAt(s[3..], i - 4);
      SpellsLater(s, i);
    } else {
      SpellsBlock(s, i);
    }
  }

  lemma SpellsLater(s: bytes, i: nat)
    requires 4 <= i < |Encoded(s)| && SpellsAt(Encoded(s[3..]), s[3..], i - 4)
    ensures SpellsAt(Encoded(s), s, i)
  {
    hide ALPHABET, EncTbl, Sextets;
    assert Encoded(s)[i] == Encoded(s[3..])[i - 4];
    hide Encoded;
    assert (i - 4) / 4 * 3 == i / 4 * 3 - 3 && (i - 4) % 4 == i % 4;
    assert Number(s, i / 4 * 3) == Number(s[3..], (i - 4) / 4 * 3);
  }

  lemma SpellsBlock(s: bytes, i: nat)
    requires i < 4 && i < |Encoded(s)|
    ensures SpellsAt(Encoded(s), s, i)
  {
    hide ALPHABET, EncTbl, Sextets;
    Alphabet();
    Groups(s[0], if |s| > 1 then s[1] else 0, if |s| > 2 then s[2] else 0);
    assert i / 4 == 0 && i % 4 == i;
  }

  /** lws_base64_encode_len; None is the source's -1. The check against SIZE_MAX / 4 is exact. */
  method EncodeLen(inLen: nat) returns (r: Option<nat>)
    ensures r == if (inLen + 2) / 3 * 4 <= SIZE_MAX then Some((inLen + 2) / 3 * 4) else None
  {
    Lengths(inLen);
    var blocks := inLen / 3 + (if inLen % 3 != 0 then 1 else 0);
    if blocks > SIZE_MAX / 4 {
      return None;
    }
    return Some(blocks * 4);
  }

  /** Four characters written downwards from `end`. */
  method PutQuad(a: array<byte>, end: nat, c0: byte, c1: byte, c2: byte, c3: byte)
    requires 4 <= end <= a.Length
    modifies a
    ensures a[end - 4..end] == [c0, c1, c2, c3]
    ensures a[..end - 4] == old(a[..end - 4]) && a[end..] == old(a[end..])
  {
    a[end - 1] := c3;
    a[end - 2] := c2;
    a[end - 3] := c1;
    a[end - 4] := c0;
  }

  lemma Split<T>(s: seq<T>, i: nat, j: nat)
    requires i <= j <= |s|
    ensures s[i..j] + s[j..] == s[i..]
  {
  }

  lemma SplitTo<T>(s: seq<T>, i: nat, j: nat, n: nat)
    requires i <= j <= n <= |s|
    ensures s[i..j] + s[j..n] == s[i..n]
  {
  }

  /** Six bits of a word, from bit k on. */
  lemma SixBits(v: nat, k: nat)
    ensures And(Shr(v, k), 0x3F) == v / Bit(k) % 64
  {
    hide And, Shr;
    ShrDivides(v, k);
    AndMasks(v / Bit(k), 6);
    assert Bit(6) == 64;
  }

  /** Bytes put behind one another. */
  lemma Bytes(hi: nat, lo: byte)
    ensures Or(Shl(hi, 8), lo) == hi * 256 + lo
  {
    hide Or, Shl;
    assert Bit(8) == 256;
    OrAdds(hi, lo, 8);
    ShlMultiplies(hi, 8);
  }

  /** The 24-bit word of the source. */
  lemma Word(b0: byte, b1: byte, b2: byte)
    ensures Or(Or(Shl(b0, 16), Shl(b1, 8)), b2) == b0 * 65536 + b1 * 256 + b2
  {
    hide Or, Shl;
    assert Bit(8) == 256 && Bit(16) == 65536;
    ShlMultiplies(b1, 8);
    ShlMultiplies(b0, 16);
    OrAdds(b0, Shl(b1, 8), 16);
    Bytes(b0 * 256 + b1, b2);
    ShlMultiplies(b0 * 256 + b1, 8);
  }

  /** The shifts and masks of the source on a 24-bit word are the groups of 6 bits. */
  lemma BlockBits(b0: byte, b1: byte, b2: byte)
    ensures var v, q := Or(Or(Shl(b0, 16), Shl(b1, 8)), b2), Sextets(b0, b1, b2);
      q == (And(Shr(v, 18), 0x3F), And(Shr(v, 12), 0x3F), And(Shr(v, 6), 0x3F), And(v, 0x3F))
  {
    hide And, Or, Shl, Shr;
    Word(b0, b1, b2);
    var v, q := Or(Or(Shl(b0, 16), Shl(b1, 8)), b2), Sextets(b0, b1, b2);
    SixBits(v, 18);
    SixBits(v, 12);
    SixBits(v, 6);
    SixBits(v, 0);
    assert Shr(v, 0) == v by { ShrDivides(v, 0); }
    assert Bit(18) == 262144 && Bit(12) == 4096 && Bit(6) == 64 && Bit(0) == 1;
    hide Bit, Sextets;
    Groups(b0, b1, b2);
  }

  lemma Groups(b0: byte, b1: byte, b2: byte)
    ensures var v, q := b0 * 65536 + b1 * 256 + b2, Sextets(b0, b1, b2);
      q == (v / 262144 % 64, v / 4096 % 64, v / 64 % 64, v % 64)
  {
    Quotients(b0, b1, b2);
    WordGroups(b0, b1, b2, b0 / 4, b0 % 4, b1 / 16, b1 % 16, b2 / 64, b2 % 64);
  }

  lemma Quotients(b0: byte, b1: byte, b2: byte)
    ensures b0 == b0 / 4 * 4 + b0 % 4 && b1 == b1 / 16 * 16 + b1 % 16 && b2 == b2 / 64 * 64 + b2 % 64
    ensures b0 / 4 < 64 && b1 / 16 < 16 && b2 / 64 < 4
  {
  }

  lemma WordGroups(b0: nat, b1: nat, b2: nat, q0: nat, r0: nat, h1: nat, l1: nat, h2: nat, l2: nat)
    requires b0 == q0 * 4 + r0 && b1 == h1 * 16 + l1 && b2 == h2 * 64 + l2
    requires q0 < 64 && r0 < 4 && h1 < 16 && l1 < 16 && h2 < 4 && l2 < 64
    ensures var v := b0 * 65536 + b1 * 256 + b2;
      (v / 262144 % 64, v / 4096 % 64, v / 64 % 64, v % 64) == (q0, r0 * 16 + h1, l1 * 4 + h2, l2)
  {
    var v := b0 * 65536 + b1 * 256 + b2;
    var two := q0 * 64 + r0 * 16 + h1;
    var three := two * 64 + l1 * 4 + h2;
    DivMod(v, 64, three, l2);
    DivMod(v, 4096, two, v - two * 4096);
    DivMod(v, 262144, q0, v - q0 * 262144);
    DivMod(three, 64, two, l1 * 4 + h2);
    DivMod(two, 64, q0, r0 * 16 + h1);
    DivMod(q0, 64, 0, q0);
  }

  /** Those on a final quantum of 8 bits are the groups of the quantum filled up with zero bits. */
  lemma ByteBits(b0: byte)
    ensures var q := Sextets(b0, 0, 0);
      q.0 == And(Shr(b0, 2), 0x3F) && q.1 == Shl(And(b0, 0x03), 4)
  {
    hide And, Or, Shl, Shr;
    SixBits(b0, 2);
    AndMasks(b0, 2);
    ShlMultiplies(b0 % 4, 4);
    assert Bit(2) == 4 && Bit(4) == 16;
  }

  /** Those on a final quantum of 16 bits. */
  lemma RemainderBits(b0: byte, b1: byte)
    ensures var v, q := Or(Shl(b0, 8), b1), Sextets(b0, b1, 0);
      q.0 == And(Shr(v, 10), 0x3F) && q.1 == And(Shr(v, 4), 0x3F) && q.2 == And(Shl(v, 2), 0x3F)
  {
    hide And, Or, Shl, Shr;
    Bytes(b0, b1);
    var v := Or(Shl(b0, 8), b1);
    SixBits(v, 10);
    SixBits(v, 4);
    AndMasks(Shl(v, 2), 6);
    ShlMultiplies(v, 2);
    assert Bit(10) == 1024 && Bit(6) == 64 && Bit(4) == 16 && Bit(2) == 4;
    hide Bit, Sextets;
    RemainderGroups(b0, b1);
  }

  lemma RemainderGroups(b0: byte, b1: byte)
    ensures var v, q := b0 * 256 + b1, Sextets(b0, b1, 0);
      q.0 == v / 1024 % 64 && q.1 == v / 16 % 64 && q.2 == v * 4 % 64
  {
    var v: nat, q := b0 * 256 + b1, Sextets(b0, b1, 0);
    var two := q.0 * 64 + q.1;
    assert v * 4 == two * 64 + q.2 && v == two * 16 + b1 % 16;
    assert q.1 / 16 == b0 % 4 && v == q.0 * 1024 + b0 % 4 * 256 + b1;
    hide Sextets;
    DivMod(v * 4, 64, two, q.2);
    DivMod(v, 16, two, b1 % 16);
    DivMod(v, 1024, q.0, b0 % 4 * 256 + b1);
    DivMod(two, 64, q.0, q.1);
  }

  /** Bit 7 of the values of the decoding table, tested on one of them or on several at once. */
  lemma MarkBit(v: nat)
    requires v < 256
    ensures And(v, 0x80) == 0 <==> v < 128
  {
    hide And;
    AndTests(v, 7);
    assert Bit(7) == 128;
    assert v / 128 == 0 || v / 128 == 1;
  }

  lemma MarkBits(va: nat, vb: nat, vc: nat, vd: nat)
    requires va < 256 && vb < 256 && vc < 256 && vd < 256
    ensures And(Or(Or(Or(va, vb), vc), vd), 0x80) == 0 <==> va < 128 && vb < 128 && vc < 128 && vd < 128
  {
    hide And, Or;
    assert Bit(7) == 128 && Bit(8) == 256;
    OrBelow(va, vb, 7);
    OrBelow(Or(va, vb), vc, 7);
    OrBelow(Or(Or(va, vb), vc), vd, 7);
    OrBelow(va, vb, 8);
    OrBelow(Or(va, vb), vc, 8);
    OrBelow(Or(Or(va, vb), vc), vd, 8);
    MarkBit(Or(Or(Or(va, vb), vc), vd));
  }

  lemma Lengths(len: nat)
    ensures len == len / 3 * 3 + len % 3
    ensures (len + 2) / 3 * 4 == len / 3 * 4 + (if len % 3 == 0 then 0 else 4)
  {
  }

  /** The characters of a final quantum of 8 or 16 bits. */
  method EncodeRemainder(a: array<byte>, len: nat, rem: nat, out: nat) returns (iIn: nat, iOut: nat)
    requires rem <= 2 && rem <= len <= a.Length && out <= a.Length && (rem > 0 ==> 4 <= out)
    modifies a
    ensures iIn == len - rem && iOut == if rem == 0 then out else out - 4
    ensures a[iOut..out] == Encoded(old(a[iIn..len]))
    ensures a[..iOut] == old(a[..iOut]) && a[out..] == old(a[out..])
  {
    hide And, Or, Shl, Shr;
    iIn, iOut := len, out;
    if rem == 1 {
      var b0 := a[iIn - 1];
      ByteBits(b0);
      iIn := iIn - 1;
      PutQuad(a, iOut, EncTbl(And(Shr(b0, 2), 0x3F)), EncTbl(Shl(And(b0, 0x03), 4)), PAD, PAD);
      iOut := iOut - 4;
    } else if rem == 2 {
      var b1, b0 := a[iIn - 1], a[iIn - 2];
      RemainderBits(b0, b1);
      iIn := iIn - 2;
      var v := Or(Shl(b0, 8), b1);
      PutQuad(a, iOut,
        EncTbl(And(Shr(v, 10), 0x3F)), EncTbl(And(Shr(v, 4), 0x3F)), EncTbl(And(Shl(v, 2), 0x3F)), PAD);
      iOut := iOut - 4;
    }
  }

  /** One full block: three bytes below iIn become four characters below iOut. */
  method EncodeBlock(a: array<byte>, iIn: nat, iOut: nat, ghost rest: bytes)
    requires 3 <= iIn <= a.Length && 4 <= iOut <= a.Length
    modifies a
    ensures a[..iOut - 4] == old(a[..iOut - 4]) && a[iOut..] == old(a[iOut..])
    ensures a[iOut - 4..iOut] + Encoded(rest) == Encoded(old(a[iIn - 3..iIn]) + rest)
  {
    hide And, Or, Shl, Shr;
    var b2, b1, b0 := a[iIn - 1], a[iIn - 2], a[iIn - 3];
    ghost var s := a[iIn - 3..iIn] + rest;
    assert s[0] == b0 && s[1] == b1 && s[2] == b2 && s[3..] == rest;
    BlockBits(b0, b1, b2);
    var v := Or(Or(Shl(b0, 16), Shl(b1, 8)), b2);
    PutQuad(a, iOut,
      EncTbl(And(Shr(v, 18), 0x3F)), EncTbl(And(Shr(v, 12), 0x3F)), EncTbl(And(Shr(v, 6), 0x3F)), EncTbl(And(v, 0x3F)));
  }

  /** The blocks from iIn on are encoded from iOut on, and what is before iIn is as it was. */
  ghost predicate EncodedFrom(a: bytes, was: bytes, s: bytes, iIn: nat, iOut: nat, out: nat) {
    && |a| == |was| && iIn <= |s| <= |a| && iIn <= iOut <= out <= |a|
    && a[..iIn] == s[..iIn] && a[iOut..out] == Encoded(s[iIn..]) && a[out..] == was[out..]
  }

  /**
   * lws_base64_encode: the remainder first, then the full blocks from the last to the first. The write
   * cursor never falls below the read cursor, so no byte is overwritten before it is read.
   */
  method Encode(inOut: array<byte>, len: nat) returns (out: nat)
    requires (len + 2) / 3 * 4 <= inOut.Length
    modifies inOut
    ensures out == (len + 2) / 3 * 4
    ensures inOut[..out] == Encoded(old(inOut[..len])) && Spells(inOut[..out], old(inOut[..len]))
    ensures inOut[out..] == old(inOut[out..])
  {
    hide Encoded, EncodedFrom, Spells;
    EncodedSpells(inOut[..len]);
    Lengths(len);
    var full, rem := len / 3, len % 3;
    out := full * 4 + (if rem != 0 then 4 else 0);
    ghost var was, s := inOut[..], inOut[..len];
    var iIn, iOut := EncodeFirst(inOut, len, rem, out, s);
    while full > 0
      invariant 0 <= full && iIn == 3 * full && iOut == 4 * full
      invariant EncodedFrom(inOut[..], was, s, iIn, iOut, out)
      decreases full
    {
      full := full - 1;
      EncodeNext(inOut, iIn, iOut, out, was, s);
      iIn, iOut := iIn - 3, iOut - 4;
    }
    EncodedWhole(inOut[..], was, s, iOut, out);
    assert inOut[..out] == inOut[..][..out] && inOut[out..] == inOut[..][out..];
  }

  lemma EncodedWhole(a: bytes, was: bytes, s: bytes, iOut: nat, out: nat)
    requires EncodedFrom(a, was, s, 0, iOut, out) && iOut == 0
    ensures out <= |a| == |was| && a[..out] == Encoded(s) && a[out..] == was[out..]
  {
    hide Encoded;
    assert s[0..] == s && a[0..out] == a[..out];
  }

  method EncodeFirst(a: array<byte>, len: nat, rem: nat, out: nat, ghost s: bytes) returns (iIn: nat, iOut: nat)
    requires len <= a.Length && rem == len % 3 && out == len / 3 * 4 + (if rem != 0 then 4 else 0) <= a.Length
    requires s == a[..len]
    modifies a
    ensures iIn == len / 3 * 3 && iOut == len / 3 * 4
    ensures EncodedFrom(a[..], old(a[..]), s, iIn, iOut, out)
  {
    hide Encoded;
    iIn, iOut := EncodeRemainder(a, len, rem, out);
    assert s[iIn..] == old(a[iIn..len]);
    assert a[..iIn] == a[..iOut][..iIn] && s[..iIn] == old(a[..iOut])[..iIn];
  }

  method EncodeNext(a: array<byte>, iIn: nat, iOut: nat, out: nat, ghost was: bytes, ghost s: bytes)
    requires EncodedFrom(a[..], was, s, iIn, iOut, out) && 3 <= iIn < iOut && 4 <= iOut && iIn - 3 <= iOut - 4
    modifies a
    ensures EncodedFrom(a[..], was, s, iIn - 3, iOut - 4, out)
  {
    hide Encoded;
    assert a[iIn - 3..iIn] == s[iIn - 3..iIn] by {
      assert a[iIn - 3..iIn] == a[..][..iIn][iIn - 3..] && s[iIn - 3..iIn] == s[..iIn][iIn - 3..];
    }
    EncodeBlock(a, iIn, iOut, s[iIn..]);
    Split(s, iIn - 3, iIn);
    SplitTo(a[..], iOut - 4, iOut, out);
    assert a[iOut..out] == old(a[iOut..out]) by {
      assert a[iOut..out] == a[iOut..][..out - iOut] && old(a[iOut..out]) == old(a[iOut..])[..out - iOut];
    }
    assert a[out..] == old(a[out..]) by {
      assert a[out..] == a[iOut..][out - iOut..] && old(a[out..]) == old(a[iOut..])[out - iOut..];
    }
    assert a[..iIn - 3] == s[..iIn - 3] by {
      assert a[..iIn - 3] == a[..iOut - 4][..iIn - 3] == old(a[..iOut - 4])[..iIn - 3];
      assert s[..iIn - 3] == s[..iIn][..iIn - 3];
    }
  }

  // ----- decoding

  /** Whole blocks over the alphabet, with `pad` padding characters at the end. */
  ghost predicate Padded(e: bytes, pad: nat) {
    && |e| % 4 == 0 && pad <= 2 && pad <= |e|
    && (forall i :: 0 <= i < |e| - pad ==> InAlphabet(e[i]))
    && (forall i :: |e| - pad <= i < |e| ==> e[i] == PAD)
  }

  /** The strings of RFC 4648, section 4, whatever the bits that padding leaves unused. */
  ghost predicate IsBase64(e: bytes) {
    exists pad: nat :: Padded(e, pad)
  }

  /** What decoding a string block by block gives, or None. */
  function Decoded(e: bytes): (r: Option<bytes>) {
    if |e| == 0 then Some([])
    else if |e| % 4 != 0 then None
    else
      var va, vb, vc, vd := DecTbl(e[0]), DecTbl(e[1]), DecTbl(e[2]), DecTbl(e[3]);
      if va == 0x80 || vb == 0x80 then None
      else if |e| > 4 then
        var rest := Decoded(e[4..]);
        if vc == 0x80 || vd == 0x80 || rest == None then None else
        var b := Octets(va, vb, vc, vd);
        Some([b.0, b.1, b.2] + rest.value)
      else if e[2] == PAD then
        if e[3] == PAD then Some([Octets(va, vb, 0, 0).0]) else None
      else if vc == 0x80 then None
      else if e[3] == PAD then Some([Octets(va, vb, vc, 0).0, Octets(va, vb, vc, 0).1])
      else if vd == 0x80 then None
      else
        var b := Octets(va, vb, vc, vd);
        Some([b.0, b.1, b.2])
  }

  /** One leading block: four characters from iIn become three bytes at iOut, or nothing is written. */
  method DecodeBlock(a: array<byte>, iIn: nat, iOut: nat) returns (ok: bool)
    requires iIn + 4 <= a.Length && iOut <= iIn
    modifies a
    ensures ok <==> forall i :: iIn <= i < iIn + 4 ==> old(DecTbl(a[i])) != 0x80
    ensures ok ==> forall i :: 0 <= i < a.Length && !(iOut <= i < iOut + 3) ==> a[i] == old(a[i])
    ensures ok ==> var b := old(Octets(DecTbl(a[iIn]), DecTbl(a[iIn + 1]), DecTbl(a[iIn + 2]), DecTbl(a[iIn + 3])));
      a[iOut] == b.0 && a[iOut + 1] == b.1 && a[iOut + 2] == b.2
    ensures !ok ==> a[..] == old(a[..])
  {
    hide DecTbl, Byte0, Byte1, Byte2, And, Or;
    var va: nat, vb: nat, vc: nat, vd: nat :=
      DecTbl(a[iIn]), DecTbl(a[iIn + 1]), DecTbl(a[iIn + 2]), DecTbl(a[iIn + 3]);
    MarkBits(va, vb, vc, vd);
    if And(Or(Or(Or(va, vb), vc), vd), 0x80) != 0 {
      return false;
    }
    a[iOut] := Byte0(va, vb);
    a[iOut + 1] := Byte1(vb, vc);
    a[iOut + 2] := Byte2(vc, vd);
    return true;
  }

  /** The last block, with or without padding; `n` bytes are written. */
  method DecodeFinal(a: array<byte>, iIn: nat, iOut: nat) returns (ok: bool, n: nat)
    requires iIn + 4 <= a.Length && iOut <= iIn
    modifies a
    ensures var d := Decoded(old(a[iIn..iIn + 4]));
      (ok <==> d.Some?) && (ok ==> n == |d.value| <= 3 && a[iOut..iOut + n] == d.value)
    ensures a[..iOut] == old(a[..iOut]) && a[iIn + 4..] == old(a[iIn + 4..])
  {
    hide DecTbl, Byte0, Byte1, Byte2, And;
    assert DecTbl(PAD) == 0x80 by { Tables(PAD); }
    n := 0;
    var c, d := a[iIn + 2], a[iIn + 3];
    var va: nat, vb: nat := DecTbl(a[iIn]), DecTbl(a[iIn + 1]);
    MarkBit(va);
    MarkBit(vb);
    if And(va, 0x80) != 0 || And(vb, 0x80) != 0 {
      return false, n;
    }
    if c == PAD {
      if d != PAD {
        return false, n;
      }
      a[iOut] := Byte0(va, vb);
      return true, 1;
    }
    var vc: nat := DecTbl(c);
    MarkBit(vc);
    if And(vc, 0x80) != 0 {
      return false, n;
    }
    if d == PAD {
      a[iOut], a[iOut + 1] := Byte0(va, vb), Byte1(vb, vc);
      return true, 2;
    }
    var vd: nat := DecTbl(d);
    MarkBit(vd);
    if And(vd, 0x80) != 0 {
      return false, n;
    }
    a[iOut], a[iOut + 1], a[iOut + 2] := Byte0(va, vb), Byte1(vb, vc), Byte2(vc, vd);
    return true, 3;
  }

  /** One step of decoding: what is decoded so far, and then the rest. */
  ghost predicate Continues(s: bytes, done: bytes, rest: bytes) {
    && (Decoded(s).Some? <==> Decoded(rest).Some?)
    && (Decoded(s).Some? ==> Decoded(s).value == done + Decoded(rest).value)
  }

  lemma ContinuesBlock(s: bytes, done: bytes, rest: bytes, b: (byte, byte, byte))
    requires Continues(s, done, rest) && |rest| > 4 && |rest| % 4 == 0
    requires forall i :: 0 <= i < 4 ==> DecTbl(rest[i]) != 0x80
    requires b == Octets(DecTbl(rest[0]), DecTbl(rest[1]), DecTbl(rest[2]), DecTbl(rest[3]))
    ensures Continues(s, done + [b.0, b.1, b.2], rest[4..])
  {
    hide DecTbl, Octets;
    assert DecTbl(rest[0]) != 0x80 && DecTbl(rest[1]) != 0x80 && DecTbl(rest[2]) != 0x80 && DecTbl(rest[3]) != 0x80;
    if Decoded(rest[4..]).Some? {
      assert done + ([b.0, b.1, b.2] + Decoded(rest[4..]).value)
        == (done + [b.0, b.1, b.2]) + Decoded(rest[4..]).value;
    }
  }

  lemma DecodedEdges(e: bytes)
    ensures |e| == 0 ==> Decoded(e) == Some([])
    ensures |e| % 4 != 0 ==> Decoded(e) == None
    ensures |e| > 4 && (exists i :: 0 <= i < 4 && DecTbl(e[i]) == 0x80) ==> Decoded(e) == None
  {
    hide DecTbl, Octets;
  }

  /** Halfway: the first iIn of len characters are decoded into iOut bytes, the rest is as it was. */
  ghost predicate Halfway(b: bytes, was: bytes, len: nat, iIn: nat, iOut: nat) {
    && |b| == |was| && iOut <= iIn <= len <= |was|
    && b[iIn..] == was[iIn..]
    && Continues(was[..len], b[..iOut], was[iIn..len])
  }

  /** One round of the loop over the leading blocks. */
  method DecodeNext(a: array<byte>, ghost was: bytes, ghost len: nat, iIn: nat, iOut: nat) returns (ok: bool)
    requires Halfway(a[..], was, len, iIn, iOut) && iIn + 4 < len && (len - iIn) % 4 == 0
    modifies a
    ensures ok ==> Halfway(a[..], was, len, iIn + 4, iOut + 3)
    ensures !ok ==> Decoded(was[..len]) == None && a[len..] == was[len..]
  {
    hide DecTbl, Octets, Decoded;
    ghost var rest, done := was[iIn..len], a[..iOut];
    assert forall k :: 0 <= k < 4 ==> rest[k] == a[iIn..][k];
    DecodedEdges(rest);
    ok := DecodeBlock(a, iIn, iOut);
    if ok {
      ContinuesBlock(was[..len], done, rest, (a[iOut], a[iOut + 1], a[iOut + 2]));
      assert a[..iOut + 3] == done + [a[iOut], a[iOut + 1], a[iOut + 2]];
      assert rest[4..] == was[iIn + 4..len];
      assert a[iIn + 4..] == was[iIn..][4..];
    } else {
      assert a[len..] == a[iIn..][len - iIn..];
    }
  }

  /** What follows the loop. */
  method DecodeLast(a: array<byte>, ghost was: bytes, ghost len: nat, iIn: nat, iOut: nat) returns (ok: bool, out: nat)
    requires Halfway(a[..], was, len, iIn, iOut) && len == iIn + 4
    modifies a
    ensures ok <==> Decoded(was[..len]).Some?
    ensures ok ==> out <= len && a[..out] == Decoded(was[..len]).value
    ensures a[len..] == was[len..]
  {
    hide DecTbl, Octets, Decoded;
    ghost var done := a[..iOut];
    assert was[iIn..len] == a[iIn..iIn + 4] by {
      assert was[iIn..len] == was[iIn..][..4];
      assert a[iIn..iIn + 4] == a[iIn..][..4];
    }
    assert a[len..] == was[len..] by {
      assert a[len..] == a[iIn..][4..] && was[len..] == was[iIn..][4..];
    }
    var n;
    ok, n := DecodeFinal(a, iIn, iOut);
    out := iOut + n;
    if ok {
      assert a[..out] == a[..iOut] + a[iOut..out];
    }
  }

  /**
   * lws_base64_decode: forwards, four characters read before three bytes are written, so that what is
   * still to be read is never overwritten. On failure the buffer may be partly decoded, and the length is
   * left as it was.
   */
  method Decode(inOut: array<byte>, len: nat) returns (ok: bool, out: nat)
    requires len <= inOut.Length
    modifies inOut
    ensures ok <==> Decoded(old(inOut[..len])).Some?
    ensures ok ==> out <= len && inOut[..out] == Decoded(old(inOut[..len])).value
    ensures !ok ==> out == len
    ensures inOut[len..] == old(inOut[len..])
  {
    hide DecTbl, Octets, Decoded;
    ghost var was := inOut[..];
    assert was[..len] == inOut[..len];
    DecodedEdges(was[..len]);
    if len == 0 {
      return true, 0;
    }
    if len % 4 != 0 {
      return false, len;
    }
    var blocks := len / 4;
    var iIn, iOut, i := 0, 0, 0;
    assert was[0..len] == was[..len];
    while i < blocks - 1
      invariant 0 <= i <= blocks - 1 && iIn == 4 * i && iOut == 3 * i
      invariant Halfway(inOut[..], was, len, iIn, iOut)
    {
      var good := DecodeNext(inOut, was, len, iIn, iOut);
      if !good {
        return false, len;
      }
      iIn, iOut, i := iIn + 4, iOut + 3, i + 1;
    }
    ok, out := DecodeLast(inOut, was, len, iIn, iOut);
    out := if ok then out else len;
  }

  // ----- what encoding and decoding mean

  /** Encoded strings decode to what was encoded. */
  lemma {:induction false} DecodedOfEncoded(s: bytes)
    ensures Decoded(Encoded(s)) == Some(s)
  {
    hide EncTbl, DecTbl, Octets, Sextets, InAlphabet, ALPHABET;
    Tables(PAD);
    if |s| == 1 {
      OneByte(s[0]);
      var e := Encoded(s);
      assert e[2] == PAD && e[3] == PAD && DecTbl(e[0]) != 0x80 && DecTbl(e[1]) != 0x80;
      assert s == [s[0]];
    } else if |s| == 2 {
      TwoBytes(s[0], s[1]);
      var e := Encoded(s);
      assert e[2] != PAD && e[3] == PAD && DecTbl(e[2]) != 0x80;
      assert s == [s[0], s[1]];
    } else if |s| >= 3 {
      var q := Sextets(s[0], s[1], s[2]);
      Regroup(s[0], s[1], s[2], q.0, q.1, q.2, q.3);
      DecodedOfEncoded(s[3..]);
      var e, rest := Encoded(s), Encoded(s[3..]);
      assert e[0] == EncTbl(q.0) && e[1] == EncTbl(q.1) && e[2] == EncTbl(q.2) && e[3] == EncTbl(q.3);
      assert e[4..] == rest;
      assert s == [s[0], s[1], s[2]] + s[3..];
      if |s| == 3 {
        assert |e| == 4 && s == [s[0], s[1], s[2]];
        assert Decoded(e) == Some([s[0], s[1], s[2]]);
      } else {
        assert |e| > 4;
      }
    }
  }

  /** Three of the vectors of RFC 4648, section 10. */
  lemma Vectors()
    ensures Encoded(Ascii("foob")) == Ascii("Zm9vYg==")
    ensures Encoded(Ascii("fooba")) == Ascii("Zm9vYmE=")
    ensures Encoded(Ascii("foobar")) == Ascii("Zm9vYmFy")
  {
    hide EncTbl, Encoded, Sextets;
    Quanta();
    assert Ascii("foob") == [102, 111, 111] + [98] && Ascii("fooba") == [102, 111, 111] + [98, 97];
    assert Ascii("foobar") == [102, 111, 111] + [98, 97, 114];
    EncodedOfThree(102, 111, 111, [98]);
    EncodedOfThree(102, 111, 111, [98, 97]);
    EncodedOfThree(102, 111, 111, [98, 97, 114]);
    assert Ascii("Zm9vYg==") == [90, 109, 57, 118] + [89, 103, PAD, PAD];
    assert Ascii("Zm9vYmE=") == [90, 109, 57, 118] + [89, 109, 69, PAD];
    assert Ascii("Zm9vYmFy") == [90, 109, 57, 118] + [89, 109, 70, 121];
  }

  lemma Quanta()
    ensures var q := Sextets(102, 111, 111);
      [EncTbl(q.0), EncTbl(q.1), EncTbl(q.2), EncTbl(q.3)] == [90, 109, 57, 118]
    ensures Encoded([98]) == [89, 103, PAD, PAD]
    ensures Encoded([98, 97]) == [89, 109, 69, PAD]
    ensures Encoded([98, 97, 114]) == [89, 109, 70, 121]
  {
    assert Sextets(102, 111, 111) == (25, 38, 61, 47);
    assert Sextets(98, 0, 0) == (24, 32, 0, 0) && Sextets(98, 97, 0) == (24, 38, 4, 0);
    assert Sextets(98, 97, 114) == (24, 38, 5, 50);
    hide Sextets;
    assert Encoded([98, 97, 114]) == [89, 109, 70, 121] + Encoded([]);
  }

  lemma OneByte(b0: byte)
    ensures Octets(Sextets(b0, 0, 0).0, Sextets(b0, 0, 0).1, 0, 0).0 == b0
  {
  }

  lemma TwoBytes(b0: byte, b1: byte)
    ensures var q := Sextets(b0, b1, 0); var b := Octets(q.0, q.1, q.2, 0); b.0 == b0 && b.1 == b1
  {
  }

  lemma PaddedRest(e: bytes, pad: nat)
    requires |e| > 4
    ensures Padded(e, pad) <==> Padded(e[4..], pad) && forall i :: 0 <= i < 4 ==> InAlphabet(e[i])
  {
  }

  /** Decoding succeeds exactly on the strings of RFC 4648, and yields three bytes a block, less the padding. */
  lemma {:induction false} DecodedExactly(e: bytes)
    ensures Decoded(e).Some? <==> IsBase64(e)
    ensures forall pad: nat :: Padded(e, pad) ==> Decoded(e).Some? && |Decoded(e).value| == |e| / 4 * 3 - pad
  {
    AlphabetMarks();
    hide InAlphabet, DecTbl, Octets;
    if |e| == 0 {
      assert Padded(e, 0);
    } else if |e| > 4 && |e| % 4 == 0 {
      DecodedExactly(e[4..]);
      forall pad: nat
        ensures Padded(e, pad) <==> Padded(e[4..], pad) && forall i :: 0 <= i < 4 ==> InAlphabet(e[i])
      {
        PaddedRest(e, pad);
      }
      assert forall i :: 0 <= i < 4 ==> (InAlphabet(e[i]) <==> DecTbl(e[i]) != 0x80);
    } else if |e| == 4 {
      FinalBlock(e);
    }
  }

  lemma AlphabetMarks()
    ensures forall c: byte :: InAlphabet(c) <==> DecTbl(c) != 0x80
    ensures !InAlphabet(PAD)
  {
    forall c: byte
      ensures InAlphabet(c) <==> DecTbl(c) != 0x80
    {
      Tables(c);
    }
  }

  lemma FinalBlock(e: bytes)
    requires |e| == 4
    ensures Decoded(e).Some? <==> IsBase64(e)
    ensures forall pad: nat :: Padded(e, pad) ==> Decoded(e).Some? && |Decoded(e).value| == 3 - pad
  {
    AlphabetMarks();
    hide InAlphabet, DecTbl, Octets;
    if Decoded(e).Some? {
      assert Padded(e, 3 - |Decoded(e).value|);
    }
    forall pad: nat | Padded(e, pad)
      ensures Decoded(e).Some? && |Decoded(e).value| == 3 - pad
    {
      assert InAlphabet(e[0]) && InAlphabet(e[1]);
      assert if pad == 2 then e[2] == PAD else InAlphabet(e[2]);
      assert if pad == 0 then InAlphabet(e[3]) else e[3] == PAD;
    }
  }

  // ----- the bits that padding leaves unused

  /** An encoding with the unused bits of its last character before the padding set to zero. */
  function Cleared(e: bytes, pad: nat): bytes
    requires pad <= 2 && pad < |e| && DecTbl(e[|e| - pad - 1]) < 64
  {
    var v: nat, n := DecTbl(e[|e| - pad - 1]), |e| - pad - 1;
    if pad == 0 then e else e[n := EncTbl(if pad == 1 then v / 4 * 4 else v / 16 * 16)]
  }

  /** RFC 4648, section 3.5: the unused bits are zero. */
  ghost predicate IsCanonical(e: bytes, pad: nat)
    requires pad <= 2 && pad < |e|
  {
    var v: nat := DecTbl(e[|e| - pad - 1]);
    (pad == 1 ==> v % 4 == 0) && (pad == 2 ==> v % 16 == 0)
  }

  /** Encoding what was decoded gives the string back with its unused bits cleared. */
  lemma {:induction false} EncodedOfDecoded(e: bytes, pad: nat)
    requires Padded(e, pad) && e != []
    ensures pad < |e| && Decoded(e).Some? && DecTbl(e[|e| - pad - 1]) < 64
    ensures Encoded(Decoded(e).value) == Cleared(e, pad)
  {
    DecodedExactly(e);
    hide Decoded, Encoded, EncTbl, DecTbl, InAlphabet;
    if |e| == 4 {
      EncodedOfFinal(e, pad);
    } else {
      PaddedRest(e, pad);
      EncodedOfDecoded(e[4..], pad);
      EncodedOfBlock(e);
      assert e == e[..4] + e[4..];
    }
  }

  lemma EncodedOfThree(b0: byte, b1: byte, b2: byte, rest: bytes)
    ensures var q := Sextets(b0, b1, b2);
      Encoded([b0, b1, b2] + rest) == [EncTbl(q.0), EncTbl(q.1), EncTbl(q.2), EncTbl(q.3)] + Encoded(rest)
  {
    hide EncTbl, Sextets;
    var d := [b0, b1, b2] + rest;
    assert d[3..] == rest && d[0] == b0 && d[1] == b1 && d[2] == b2;
  }

  lemma DecodedOfBlock(e: bytes)
    requires |e| > 4 && |e| % 4 == 0 && Decoded(e[4..]).Some?
    requires DecTbl(e[0]) < 64 && DecTbl(e[1]) < 64 && DecTbl(e[2]) < 64 && DecTbl(e[3]) < 64
    ensures var b := Octets(DecTbl(e[0]), DecTbl(e[1]), DecTbl(e[2]), DecTbl(e[3]));
      Decoded(e) == Some([b.0, b.1, b.2] + Decoded(e[4..]).value)
  {
    hide DecTbl, Octets;
  }

  lemma FirstFour(e: bytes)
    requires |e| >= 4
    ensures e[..4] == [e[0], e[1], e[2], e[3]]
  {
  }

  lemma EncodedOfBlock(e: bytes)
    requires |e| > 4 && |e| % 4 == 0 && Decoded(e[4..]).Some?
    requires forall i :: 0 <= i < 4 ==> InAlphabet(e[i])
    ensures Decoded(e).Some?
    ensures Encoded(Decoded(e).value) == e[..4] + Encoded(Decoded(e[4..]).value)
  {
    hide EncTbl, DecTbl, Octets, Sextets, InAlphabet, Decoded, Encoded;
    Character(e[0]);
    Character(e[1]);
    Character(e[2]);
    Character(e[3]);
    var va: nat, vb: nat, vc: nat, vd: nat := DecTbl(e[0]), DecTbl(e[1]), DecTbl(e[2]), DecTbl(e[3]);
    var b := Octets(va, vb, vc, vd);
    DecodedOfBlock(e);
    Regroup(b.0, b.1, b.2, va, vb, vc, vd);
    EncodedOfThree(b.0, b.1, b.2, Decoded(e[4..]).value);
    FirstFour(e);
  }

  lemma EncodedOfFinal(e: bytes, pad: nat)
    requires |e| == 4 && Padded(e, pad)
    ensures Decoded(e).Some? && DecTbl(e[|e| - pad - 1]) < 64
    ensures Encoded(Decoded(e).value) == Cleared(e, pad)
  {
    hide EncTbl, DecTbl, InAlphabet, Decoded, Encoded, Octets, Sextets;
    Character(e[0]);
    Character(e[1]);
    FirstFour(e);
    assert e == e[..4];
    if pad == 0 {
      Character(e[2]);
      Character(e[3]);
      FinalThree(e);
    } else if pad == 1 {
      Character(e[2]);
      FinalTwo(e);
    } else {
      FinalOne(e);
    }
  }

  lemma FinalThree(e: bytes)
    requires |e| == 4 && forall i :: 0 <= i < 4 ==> DecTbl(e[i]) < 64 && EncTbl(DecTbl(e[i])) == e[i]
    ensures Decoded(e).Some? && Encoded(Decoded(e).value) == [e[0], e[1], e[2], e[3]]
  {
    hide EncTbl, DecTbl, Octets, Sextets, InAlphabet, ALPHABET;
    Tables(PAD);
    var b := Octets(DecTbl(e[0]), DecTbl(e[1]), DecTbl(e[2]), DecTbl(e[3]));
    Regroup(b.0, b.1, b.2, DecTbl(e[0]), DecTbl(e[1]), DecTbl(e[2]), DecTbl(e[3]));
    EncodedOfThree(b.0, b.1, b.2, []);
    assert [b.0, b.1, b.2] + [] == [b.0, b.1, b.2];
  }

  lemma FinalTwo(e: bytes)
    requires |e| == 4 && forall i :: 0 <= i < 3 ==> DecTbl(e[i]) < 64 && EncTbl(DecTbl(e[i])) == e[i]
    requires e[3] == PAD
    ensures Decoded(e).Some?
    ensures Encoded(Decoded(e).value) == [e[0], e[1], EncTbl(DecTbl(e[2]) / 4 * 4), PAD]
  {
    hide EncTbl, DecTbl, Octets, Sextets, InAlphabet, ALPHABET;
    Tables(PAD);
    ClearedTwo(DecTbl(e[0]), DecTbl(e[1]), DecTbl(e[2]));
  }

  lemma FinalOne(e: bytes)
    requires |e| == 4 && forall i :: 0 <= i < 2 ==> DecTbl(e[i]) < 64 && EncTbl(DecTbl(e[i])) == e[i]
    requires e[2] == PAD && e[3] == PAD
    ensures Decoded(e).Some?
    ensures Encoded(Decoded(e).value) == [e[0], EncTbl(DecTbl(e[1]) / 16 * 16), PAD, PAD]
  {
    hide EncTbl, DecTbl, Octets, Sextets;
    ClearedOne(DecTbl(e[0]), DecTbl(e[1]));
  }

  lemma ClearedTwo(va: nat, vb: nat, vc: nat)
    requires va < 64 && vb < 64 && vc < 64
    ensures var b := Octets(va, vb, vc, 0); var q := Sextets(b.0, b.1, 0);
      q.0 == va && q.1 == vb && q.2 == vc / 4 * 4
  {
  }

  lemma ClearedOne(va: nat, vb: nat)
    requires va < 64 && vb < 64
    ensures var b := Octets(va, vb, 0, 0); var q := Sextets(b.0, 0, 0);
      q.0 == va && q.1 == vb / 16 * 16
  {
  }

  /** So decoding and encoding again is the identity exactly on the canonical strings. */
  lemma CanonicalIffRestored(e: bytes, pad: nat)
    requires Padded(e, pad) && e != []
    ensures pad < |e| && Decoded(e).Some?
    ensures Encoded(Decoded(e).value) == e <==> IsCanonical(e, pad)
  {
    hide EncTbl, DecTbl, InAlphabet, ALPHABET, Decoded, Encoded, Cleared, IsCanonical;
    EncodedOfDecoded(e, pad);
    ClearedIsSame(e, pad);
  }

  lemma ClearedIsSame(e: bytes, pad: nat)
    requires pad <= 2 && pad < |e| && DecTbl(e[|e| - pad - 1]) < 64
    ensures Cleared(e, pad) == e <==> IsCanonical(e, pad)
  {
    hide EncTbl, DecTbl, InAlphabet, ALPHABET;
    var n := |e| - pad - 1;
    Tables(e[n]);
    var v: nat := DecTbl(e[n]);
    var w := if pad == 0 then v else if pad == 1 then v / 4 * 4 else v / 16 * 16;
    assert w == v <==> IsCanonical(e, pad);
    assert Cleared(e, pad)[n] == EncTbl(w);
    assert DecTbl(EncTbl(w)) == w;
    assert forall i :: 0 <= i < |e| && i != n ==> Cleared(e, pad)[i] == e[i];
  }

  /** In place: encoding and then decoding leaves the bytes, and their number, as they were. */
  method EncodeDecode(inOut: array<byte>, len: nat) returns (ok: bool, out: nat)
    requires (len + 2) / 3 * 4 <= inOut.Length
    modifies inOut
    ensures ok && out == len && inOut[..out] == old(inOut[..len])
  {
    ghost var s := inOut[..len];
    DecodedOfEncoded(s);
    hide Encoded, Decoded;
    var mid := Encode(inOut, len);
    ok, out := Decode(inOut, mid);
  }
}
