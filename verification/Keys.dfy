/** Table keys: byte strings compared as C strings, and their FNV-1a hash, taken from the last byte backwards. */
module Keys {
  import opened Bits
  import opened Primes
  import opened Wrappers

  const WORD: nat := SIZE_MAX + 1

  /** The lws_tolower macro on a byte. */
  function ToLower(c: byte): (r: byte) {
    if 65 <= c <= 90 then c + 32 else c
  }

  /** How a byte takes part in hashing and comparing: folded when the table is case-insensitive. */
  function Fold(ci: bool, c: byte): (r: byte) {
    if ci then ToLower(c) else c
  }

  /** A char widened to lws_uint_t: bytes from 0x80 on are sign-extended. */
  function Widen(c: byte): (w: nat)
    ensures w < WORD
  {
    if c < 128 then c else c + (WORD - 256)
  }

  const OFFSET_BASIS: nat := 14695981039346656037
  const FNV_PRIME: nat := 1099511628211

  function Mix(hash: nat, w: nat): (r: nat)
    ensures r < WORD
  {
    Xor(hash, w) * FNV_PRIME % WORD
  }

  /** The hash of a key: the first byte is mixed in last. */
  function HashOf(ci: bool, key: bytes): (h: nat)
    ensures h < WORD
  {
    if key == [] then OFFSET_BASIS else Mix(HashOf(ci, key[1..]), Widen(Fold(ci, key[0])))
  }

  /** lws_table_hash: the scan runs from the last byte to the first. */
  method Hash(ci: bool, key: bytes) returns (hash: nat)
    ensures hash == HashOf(ci, key)
  {
    hash := OFFSET_BASIS;
    var p := |key|;
    while p > 0
      invariant 0 <= p <= |key|
      invariant hash == HashOf(ci, key[p..])
    {
      p := p - 1;
      assert key[p..][1..] == key[p + 1..];
      hash := Mix(hash, Widen(Fold(ci, key[p])));
    }
    assert key[0..] == key;
  }

  /** A key as the comparisons read it: folded, and cut at its first NUL. */
  function Text(ci: bool, key: bytes): (t: bytes)
    ensures |t| <= |key|
  {
    if key == [] || key[0] == 0 then [] else [Fold(ci, key[0])] + Text(ci, key[1..])
  }

  /** The folded key, uncut. */
  function Folded(ci: bool, key: bytes): (t: bytes)
    ensures |t| == |key|
  {
    seq(|key|, i requires 0 <= i < |key| => Fold(ci, key[i]))
  }

  /** The difference of two widened characters, as the lws_int_t it is returned as. */
  function Difference(c1: nat, c2: nat): (r: int)
    requires c1 < WORD && c2 < WORD
    ensures r == 0 <==> c1 == c2
  {
    var d := (c1 - c2) % WORD;
    if d > SIZE_MAX / 2 then d - WORD else d
  }

  /** The first position within n bytes at which two strings differ, with no NUL before it. */
  ghost predicate DifferAt(ci: bool, s1: bytes, s2: bytes, n: nat, i: nat)
    requires n <= |s1| && n <= |s2|
  {
    && i < n && Fold(ci, s1[i]) != Fold(ci, s2[i])
    && forall k :: 0 <= k < i ==> Fold(ci, s1[k]) == Fold(ci, s2[k]) && s1[k] != 0
  }

  /**
   * lws_strncasecmp (ci) and strncmp (not ci) over n bytes, scanning forwards. The result is zero exactly
   * when the texts within n bytes agree, and that is all the table looks at. Otherwise lws_strncasecmp
   * returns the difference of the first two characters that differ.
   */
  method Compare(ci: bool, s1: bytes, s2: bytes, n: nat) returns (r: int)
    requires n <= |s1| && n <= |s2|
    ensures r == 0 <==> Text(ci, s1[..n]) == Text(ci, s2[..n])
    ensures ci && r != 0 ==>
      exists i: nat ::
        DifferAt(ci, s1, s2, n, i) && r == Difference(Widen(Fold(ci, s1[i])), Widen(Fold(ci, s2[i])))
  {
    var i, m := 0, n;
    while m != 0
      invariant i + m == n
      invariant Text(ci, s1[..n]) == Text(ci, s2[..n]) <==> Text(ci, s1[i..n]) == Text(ci, s2[i..n])
      invariant forall k :: 0 <= k < i ==> Fold(ci, s1[k]) == Fold(ci, s2[k]) && s1[k] != 0
      decreases m
    {
      var c1, c2 := Widen(Fold(ci, s1[i])), Widen(Fold(ci, s2[i]));
      assert s1[i..n][1..] == s1[i + 1..n] && s2[i..n][1..] == s2[i + 1..n];
      if c1 == c2 {
        if c1 != 0 {
          assert Text(ci, s1[i..n]) == [Fold(ci, s1[i])] + Text(ci, s1[i + 1..n]);
          assert Text(ci, s2[i..n]) == [Fold(ci, s2[i])] + Text(ci, s2[i + 1..n]);
          ConsEqual(Fold(ci, s1[i]), Text(ci, s1[i + 1..n]), Fold(ci, s2[i]), Text(ci, s2[i + 1..n]));
          m := m - 1;
          i := i + 1;
          continue;
        }
        return 0;
      }
      TextHead(ci, s1[i..n], s2[i..n]);
      assert DifferAt(ci, s1, s2, n, i);
      return Difference(c1, c2);
    }
    return 0;
  }

  lemma ConsEqual<T>(a: T, s: seq<T>, b: T, t: seq<T>)
    ensures [a] + s == [b] + t <==> a == b && s == t
  {
    if [a] + s == [b] + t {
      assert ([a] + s)[0] == a && ([b] + t)[0] == b;
      assert ([a] + s)[1..] == s && ([b] + t)[1..] == t;
    }
  }

  lemma TextHead(ci: bool, a: bytes, b: bytes)
    requires |a| > 0 && |b| > 0 && Fold(ci, a[0]) != Fold(ci, b[0])
    ensures Text(ci, a) != Text(ci, b)
  {
  }

  /** All that lws_table_find looks at in a key. */
  datatype KeyClass = KeyClass(hash: nat, len: nat, text: bytes)

  function ClassOf(ci: bool, key: bytes): KeyClass {
    KeyClass(HashOf(ci, key), |key|, Text(ci, key))
  }

  /** The keys that lws_table_find takes for one another: same hash, same length, equal in comparison. */
  predicate Same(ci: bool, a: bytes, b: bytes) {
    ClassOf(ci, a) == ClassOf(ci, b)
  }

  ghost predicate NulFree(key: bytes) {
    forall i :: 0 <= i < |key| ==> key[i] != 0
  }

  lemma {:induction false} TextOfNulFree(ci: bool, key: bytes)
    requires NulFree(key)
    ensures Text(ci, key) == Folded(ci, key)
  {
    if key != [] {
      TextOfNulFree(ci, key[1..]);
      assert Folded(ci, key) == [Fold(ci, key[0])] + Folded(ci, key[1..]);
    }
  }

  /** Keys that fold alike hash alike, NUL bytes or not. */
  lemma {:induction false} FoldedDeterminesHash(ci: bool, a: bytes, b: bytes)
    requires Folded(ci, a) == Folded(ci, b)
    ensures HashOf(ci, a) == HashOf(ci, b)
  {
    assert |Folded(ci, a)| == |a| && |Folded(ci, b)| == |b|;
    if a != [] {
      assert Folded(ci, a)[0] == Fold(ci, a[0]) && Folded(ci, b)[0] == Fold(ci, b[0]);
      assert Folded(ci, a[1..]) == Folded(ci, a)[1..];
      assert Folded(ci, b[1..]) == Folded(ci, b)[1..];
      FoldedDeterminesHash(ci, a[1..], b[1..]);
    }
  }

  /**
   * Over NUL-free keys the backwards hash agrees with the forwards comparison: keys of one length that
   * compare equal hash equally, so the table takes two keys for the same exactly when they fold alike.
   */
  lemma ComparisonAgreesWithHash(ci: bool, a: bytes, b: bytes)
    requires NulFree(a) && NulFree(b)
    ensures Text(ci, a) == Text(ci, b) ==> HashOf(ci, a) == HashOf(ci, b)
    ensures Same(ci, a, b) <==> Folded(ci, a) == Folded(ci, b)
  {
    TextOfNulFree(ci, a);
    TextOfNulFree(ci, b);
    if Folded(ci, a) == Folded(ci, b) {
      FoldedDeterminesHash(ci, a, b);
      assert |Folded(ci, a)| == |a| && |Folded(ci, b)| == |b|;
    }
  }

  // ----- what the folding, the comparison and the hash come to

  /** The two cases of a letter. */
  predicate SameLetter(x: byte, y: byte) {
    exists k :: 0 <= k < |UPPER| == |LOWER| && x == UPPER[k] as int && y == LOWER[k] as int
  }

  /** The same bytes or, where case is ignored, the same but for the case of letters. */
  ghost predicate Spelled(ci: bool, a: bytes, b: bytes) {
    && |a| == |b|
    && forall i :: 0 <= i < |a| ==> a[i] == b[i] || (ci && (SameLetter(a[i], b[i]) || SameLetter(b[i], a[i])))
  }

  lemma SameLetterIs(x: byte, y: byte)
    ensures SameLetter(x, y) <==> 65 <= x <= 90 && y == x + 32
  {
    AsciiOrder();
    hide UPPER, LOWER, DIGITS;
    if 65 <= x <= 90 && y == x + 32 {
      assert UPPER[x - 65] as int == x && LOWER[x - 65] as int == y;
    }
  }

  lemma FoldsAlike(ci: bool, x: byte, y: byte)
    ensures Fold(ci, x) == Fold(ci, y) <==> x == y || (ci && (SameLetter(x, y) || SameLetter(y, x)))
  {
    SameLetterIs(x, y);
    SameLetterIs(y, x);
    hide SameLetter;
  }

  /**
   * Two keys without a NUL are the same key to a table exactly when they are the same bytes or, on a table that
   * ignores case, the same but for the case of letters.
   */
  lemma SameIsSpelled(ci: bool, a: bytes, b: bytes)
    requires NulFree(a) && NulFree(b)
    ensures Same(ci, a, b) <==> Spelled(ci, a, b)
    ensures Same(false, a, b) <==> a == b
    ensures Same(true, a, b) <==> |a| == |b| && forall i :: 0 <= i < |a| ==>
      a[i] == b[i] || (65 <= a[i] <= 90 && b[i] == a[i] + 32) || (65 <= b[i] <= 90 && a[i] == b[i] + 32)
  {
    hide Same, Fold, SameLetter, NulFree;
    FoldedIsSpelled(ci, a, b);
    FoldedIsSpelled(false, a, b);
    FoldedIsSpelled(true, a, b);
    ComparisonAgreesWithHash(ci, a, b);
    ComparisonAgreesWithHash(false, a, b);
    ComparisonAgreesWithHash(true, a, b);
    assert Spelled(false, a, b) <==> a == b;
    forall i | 0 <= i < |a| == |b|
      ensures SameLetter(a[i], b[i]) <==> 65 <= a[i] <= 90 && b[i] == a[i] + 32
      ensures SameLetter(b[i], a[i]) <==> 65 <= b[i] <= 90 && a[i] == b[i] + 32
    {
      SameLetterIs(a[i], b[i]);
      SameLetterIs(b[i], a[i]);
    }
  }

  lemma FoldedIsSpelled(ci: bool, a: bytes, b: bytes)
    ensures Folded(ci, a) == Folded(ci, b) <==> Spelled(ci, a, b)
  {
    hide Fold, SameLetter;
    assert |Folded(ci, a)| == |a| && |Folded(ci, b)| == |b|;
    forall i | 0 <= i < |a| == |b|
      ensures Folded(ci, a)[i] == Folded(ci, b)[i] <==>
        a[i] == b[i] || (ci && (SameLetter(a[i], b[i]) || SameLetter(b[i], a[i])))
    {
      FoldsAlike(ci, a[i], b[i]);
    }
  }

  /** Header names in two spellings; a bracket and a brace are not two cases of a letter. */
  lemma HeaderSpellings()
    ensures Same(true, Ascii("Content-Type"), Ascii("content-type"))
    ensures !Same(false, Ascii("Content-Type"), Ascii("content-type"))
    ensures !Same(true, Ascii("["), Ascii("{"))
  {
    hide Same, HashOf, Text, Folded, Spelled, SameLetter;
    var a, b := Ascii("Content-Type"), Ascii("content-type");
    assert a[0] == 67 && b[0] == 99 && a[8] == 84 && b[8] == 116;
    assert forall i :: 1 <= i < 12 && i != 8 ==> a[i] == b[i];
    assert Ascii("[")[0] == 91 && Ascii("{")[0] == 123;
    SameIsSpelled(true, a, b);
    SameIsSpelled(true, Ascii("["), Ascii("{"));
  }

  /** The value of a byte as a signed char. */
  function Signed(c: byte): int {
    if c < 0x80 then c else c - 0x100
  }

  /** The comparison returns the difference of two characters, taken as signed. */
  lemma DifferenceIsSigned(x: byte, y: byte)
    ensures Difference(Widen(x), Widen(y)) == Signed(x) - Signed(y)
  {
  }

  /** Exclusive or of the offset basis and a byte below 128: of its lowest 7 bits, 0, 2 and 5 are set. */
  lemma XorBasis(c: byte)
    requires c < 128
    ensures Xor(OFFSET_BASIS, c) == OFFSET_BASIS + c - (c / 32 % 2 * 64 + c / 4 % 2 * 8 + c % 2 * 2)
  {
    hide Xor;
    var c1: nat, c2: nat, c3: nat, c4: nat, c5: nat, c6: nat := Halves(c);
    XorDigits(c % 2, c1 % 2, c2 % 2, c3 % 2, c4 % 2, c5 % 2, c6);
  }

  lemma Halves(c: byte) returns (c1: nat, c2: nat, c3: nat, c4: nat, c5: nat, c6: nat)
    requires c < 128
    ensures c == 2 * c1 + c % 2 && c1 == 2 * c2 + c1 % 2 && c2 == 2 * c3 + c2 % 2
    ensures c3 == 2 * c4 + c3 % 2 && c4 == 2 * c5 + c4 % 2 && c5 == 2 * c6 + c5 % 2
    ensures c6 < 2 && c2 == c / 4 && c5 == c / 32
  {
    c1 := c / 2;
    c2 := c1 / 2;
    c3 := c2 / 2;
    c4 := c3 / 2;
    c5 := c4 / 2;
    c6 := c5 / 2;
    DivMod(c, 4, c2, c1 % 2 * 2 + c % 2);
    DivMod(c, 32, c5, c4 % 2 * 16 + c3 % 2 * 8 + c2 % 2 * 4 + c1 % 2 * 2 + c % 2);
  }

  lemma XorDigits(b0: nat, b1: nat, b2: nat, b3: nat, b4: nat, b5: nat, b6: nat)
    requires b0 < 2 && b1 < 2 && b2 < 2 && b3 < 2 && b4 < 2 && b5 < 2 && b6 < 2
    ensures Xor(OFFSET_BASIS, 2 * (2 * (2 * (2 * (2 * (2 * b6 + b5) + b4) + b3) + b2) + b1) + b0)
      == OFFSET_BASIS + 64 * b6 - 32 * b5 + 16 * b4 + 8 * b3 - 4 * b2 + 2 * b1 - b0
  {
    hide Xor;
    var c6 := b6;
    var c5 := 2 * c6 + b5;
    var c4 := 2 * c5 + b4;
    var c3 := 2 * c4 + b3;
    var c2 := 2 * c3 + b2;
    var c1 := 2 * c2 + b1;
    XorSet(7347990519673328018, c1, b0);
    XorClear(3673995259836664009, c2, b1);
    XorSet(1836997629918332004, c3, b2);
    XorClear(918498814959166002, c4, b3);
    XorClear(459249407479583001, c5, b4);
    XorSet(229624703739791500, c6, b5);
    XorClear(114812351869895750, 0, b6);
    XorZero(114812351869895750);
  }

  lemma XorZero(a: nat)
    ensures Xor(a, 0) == a
  {
  }

  lemma XorSet(a: nat, b: nat, j: nat)
    requires j < 2
    ensures Xor(2 * a + 1, 2 * b + j) == 2 * Xor(a, b) + 1 - j
  {
    hide Xor;
    DivMod(2 * a + 1, 2, a, 1);
    DivMod(2 * b + j, 2, b, j);
    XorHalves(2 * a + 1, 2 * b + j);
  }

  lemma XorClear(a: nat, b: nat, j: nat)
    requires j < 2
    ensures Xor(2 * a, 2 * b + j) == 2 * Xor(a, b) + j
  {
    hide Xor;
    DivMod(2 * a, 2, a, 0);
    DivMod(2 * b + j, 2, b, j);
    XorHalves(2 * a, 2 * b + j);
  }

  /** Exclusive or with the complement is the complement of the exclusive or. */
  lemma {:induction false} XorComplement(a: nat, b: nat, k: nat)
    requires a < Bit(k) && b < Bit(k)
    ensures Xor(a, b) < Bit(k) && Xor(a, Bit(k) - 1 - b) == Bit(k) - 1 - Xor(a, b)
  {
    hide Xor;
    XorBelow(a, b, k);
    if k > 0 {
      XorComplement(a / 2, b / 2, k - 1);
      XorHalves(a, b);
      XorHalves(a, Bit(k) - 1 - b);
      assert (Bit(k) - 1 - b) / 2 == Bit(k - 1) - 1 - b / 2 && (Bit(k) - 1 - b) % 2 == 1 - b % 2;
    } else {
      XorHalves(0, 0);
      assert Xor(0, 0) == 0 by { XorZero(0); }
    }
  }

  lemma XorHalves(a: nat, b: nat)
    ensures Xor(a, b) == 2 * Xor(a / 2, b / 2) + (if a % 2 == b % 2 then 0 else 1)
  {
  }

  /** Hashes of keys of one byte: of "a" as published for FNV-1a, and of a byte that is negative as a char. */
  lemma KnownHashes()
    ensures HashOf(false, Ascii("a")) == HashOf(true, Ascii("A")) == 0xAF63DC4C8601EC8C
    ensures HashOf(false, [200]) == 5808610749223691959
  {
    hide Xor, HashOf;
    assert Ascii("a") == [97] && Ascii("A") == [65];
    hide Ascii;
    OneByte(false, 97);
    OneByte(true, 65);
    OneByte(false, 200);
    XorBasis(97);
    XorBasis(55);
    WordBit();
    XorComplement(OFFSET_BASIS, 55, 64);
    DivMod(14695981039346656068 * FNV_PRIME, WORD, 875948729822, 0xAF63DC4C8601EC8C);
    DivMod(3750763034362895597 * FNV_PRIME, WORD, 223562898388, 5808610749223691959);
  }

  // ----- keys with a NUL in them

  /** No NUL before the last byte. */
  ghost predicate NoInnerNul(key: bytes) {
    forall i :: 0 <= i < |key| - 1 ==> key[i] != 0
  }

  /** All keys of a length that compare equal to a key hash like it. */
  ghost predicate HashedLikeItsEquals(ci: bool, a: bytes) {
    forall b: bytes :: |b| == |a| && Text(ci, b) == Text(ci, a) ==> HashOf(ci, b) == HashOf(ci, a)
  }

  /** Comparison and hash agree about a key exactly when it has no NUL before its last byte. */
  lemma AgreementIff(ci: bool, a: bytes)
    ensures HashedLikeItsEquals(ci, a) <==> NoInnerNul(a)
  {
    if NoInnerNul(a) {
      forall b: bytes | |b| == |a| && Text(ci, b) == Text(ci, a)
        ensures HashOf(ci, b) == HashOf(ci, a)
      {
        TextDeterminesFolded(ci, a, b);
        FoldedDeterminesHash(ci, a, b);
      }
    } else {
      hide HashOf, Text;
      var b := LastChanged(ci, a);
      assert |b| == |a| && Text(ci, b) == Text(ci, a) && HashOf(ci, b) != HashOf(ci, a);
    }
  }

  lemma {:induction false} TextDeterminesFolded(ci: bool, a: bytes, b: bytes)
    requires NoInnerNul(a) && |b| == |a| && Text(ci, b) == Text(ci, a)
    ensures Folded(ci, a) == Folded(ci, b)
  {
    if |a| > 1 {
      assert a[0] != 0;
      assert Text(ci, a)[0] == Fold(ci, a[0]) && Text(ci, b)[0] == Fold(ci, b[0]);
      assert Text(ci, a)[1..] == Text(ci, a[1..]) && Text(ci, b)[1..] == Text(ci, b[1..]);
      TextDeterminesFolded(ci, a[1..], b[1..]);
      assert Folded(ci, a) == [Fold(ci, a[0])] + Folded(ci, a[1..]);
      assert Folded(ci, b) == [Fold(ci, b[0])] + Folded(ci, b[1..]);
    } else if |a| == 1 {
      assert Text(ci, a) == if a[0] == 0 then [] else [Fold(ci, a[0])];
      assert Text(ci, b) == if b[0] == 0 then [] else [Fold(ci, b[0])];
    }
  }

  /** Behind a NUL the last byte can be changed: the comparison does not see it, but the hash does. */
  lemma LastChanged(ci: bool, a: bytes) returns (b: bytes)
    requires !NoInnerNul(a)
    ensures |b| == |a| && Text(ci, b) == Text(ci, a) && HashOf(ci, b) != HashOf(ci, a)
  {
    var n := |a| - 1;
    var c: byte := if Fold(ci, a[n]) == 1 then 2 else 1;
    var front := a[..n];
    b := front + [c];
    assert a == front + [a[n]];
    CutBefore(ci, front, [a[n]], [c]);
    MixInjective(OFFSET_BASIS, OFFSET_BASIS, Widen(Fold(ci, a[n])), Widen(c));
    hide Mix;
    OneByte(ci, a[n]);
    OneByte(ci, c);
    HashInjective(ci, front, [a[n]], [c]);
  }

  lemma OneByte(ci: bool, c: byte)
    ensures HashOf(ci, [c]) == Mix(OFFSET_BASIS, Widen(Fold(ci, c)))
  {
    assert [c][1..] == [];
  }

  lemma {:induction false} CutBefore(ci: bool, front: bytes, s: bytes, t: bytes)
    requires exists i :: 0 <= i < |front| && front[i] == 0
    ensures Text(ci, front + s) == Text(ci, front + t)
  {
    if front[0] != 0 {
      assert (front + s)[1..] == front[1..] + s && (front + t)[1..] == front[1..] + t;
      var i :| 0 <= i < |front| && front[i] == 0;
      assert front[1..][i - 1] == 0;
      CutBefore(ci, front[1..], s, t);
    }
  }

  /** Different hashes of what follows stay different however many bytes are in front. */
  lemma {:induction false} HashInjective(ci: bool, front: bytes, s: bytes, t: bytes)
    ensures HashOf(ci, front + s) == HashOf(ci, front + t) <==> HashOf(ci, s) == HashOf(ci, t)
  {
    if front == [] {
      assert front + s == s && front + t == t;
    } else {
      assert (front + s)[1..] == front[1..] + s && (front + t)[1..] == front[1..] + t;
      HashInjective(ci, front[1..], s, t);
      var w := Widen(Fold(ci, front[0]));
      MixInjective(HashOf(ci, front[1..] + s), HashOf(ci, front[1..] + t), w, w);
      hide Mix;
    }
  }

  /** One step of the hash loses nothing: not of the hash so far, and not of the byte mixed in. */
  lemma MixInjective(g: nat, h: nat, v: nat, w: nat)
    requires g < WORD && h < WORD && v < WORD && w < WORD
    ensures v == w && Mix(g, v) == Mix(h, w) ==> g == h
    ensures g == h && Mix(g, v) == Mix(h, w) ==> v == w
  {
    XorWord(g, v);
    XorWord(h, w);
    XorUndone(g, v);
    XorUndone(h, w);
    XorCommutes(g, v);
    XorCommutes(h, w);
    XorUndone(v, g);
    XorUndone(w, h);
    hide Xor;
    if Mix(g, v) == Mix(h, w) {
      TimesPrimeInjective(Xor(g, v), Xor(h, w));
    }
  }

  lemma XorWord(a: nat, b: nat)
    requires a < WORD && b < WORD
    ensures Xor(a, b) < WORD
  {
    hide Bit, Xor;
    WordBit();
    XorBelow(a, b, 64);
  }

  lemma WordBit()
    ensures Bit(64) == WORD
  {
    hide Bit;
    assert Bit(8) == 0x100 by { ByteBit(); }
    BitOfSum(8, 8);
    BitOfSum(16, 16);
    BitOfSum(32, 32);
  }

  lemma ByteBit()
    ensures Bit(8) == 0x100
  {
    assert Bit(4) == 0x10;
  }

  /** The FNV prime is odd, so it has an inverse modulo the word. */
  lemma TimesPrimeInjective(x: nat, y: nat)
    requires x < WORD && y < WORD && x * FNV_PRIME % WORD == y * FNV_PRIME % WORD
    ensures x == y
  {
    var inverse, k := 14886173955864302971, 887285111055;
    assert FNV_PRIME * inverse == k * WORD + 1;
    var q := x * FNV_PRIME / WORD - y * FNV_PRIME / WORD;
    assert (x - y) * FNV_PRIME == q * WORD;
    assert (x - y) * (FNV_PRIME * inverse) == q * inverse * WORD;
    NoMultipleWithin(q * inverse - (x - y) * k, WORD, y, x);
  }

  /** An instance: with a NUL in front, equal comparison does not give equal hashes. */
  lemma NulBreaksAgreement()
    ensures Text(true, [0, 1]) == Text(true, [0, 2])
    ensures HashOf(true, [0, 1]) != HashOf(true, [0, 2])
  {
    assert Xor(OFFSET_BASIS, 1) == 14695981039346656036 && Xor(OFFSET_BASIS, 2) == 14695981039346656039;
    hide Xor;
    Hashes(1, 12638152016183539244);
    Hashes(2, 12638155314718423877);
  }

  lemma Hashes(c: byte, h: nat)
    requires 0 < c < 65 && Mix(OFFSET_BASIS, c) == h
    ensures HashOf(true, [0, c]) == h * FNV_PRIME % WORD
  {
    hide Mix;
    assert [0, c][1..] == [c] && [c][1..] == [];
    assert HashOf(true, [c]) == Mix(OFFSET_BASIS, c) == h;
    assert HashOf(true, [0, c]) == Mix(h, 0);
    MixZero(h);
  }

  lemma MixZero(h: nat)
    ensures Mix(h, 0) == h * FNV_PRIME % WORD
  {
  }
}
