/** Query arguments (src/lws_lib.c): percent-decoding and the key/value parser over the Lua stack. */
module QueryArgs {
  import opened Wrappers

  const PLUS: byte := 43
  const SPACE: byte := 32
  const PERCENT: byte := 37
  const EQUALS: byte := 61
  const AMPERSAND: byte := 38

  predicate IsHex(c: byte) {
    48 <= c <= 57 || 97 <= c <= 102 || 65 <= c <= 70
  }

  function HexValue(c: byte): (v: nat)
    requires IsHex(c)
    ensures v < 16
  {
    if c <= 57 then c - 48 else if c <= 70 then c - 65 + 10 else c - 97 + 10
  }

  const HEX_LOWER: string := "0123456789abcdef"
  const HEX_UPPER: string := "0123456789ABCDEF"

  function DigitFrom(c: char, v: nat): (d: nat)
    requires v <= 16
    ensures v <= d <= 16
    decreases 16 - v
  {
    if v == 16 || c == HEX_LOWER[v] || c == HEX_UPPER[v] then v else DigitFrom(c, v + 1)
  }

  /** What a character is worth as a hexadecimal digit: its place among them in either case, or 16 if it is none. */
  function Digit(c: byte): (d: nat)
    ensures d <= 16
  {
    DigitFrom(c as char, 0)
  }

  lemma {:induction false} DigitIsFirst(c: char, v: nat, d: nat)
    requires v <= d <= 16 && (d < 16 ==> c == HEX_LOWER[d] || c == HEX_UPPER[d])
    requires forall u: nat :: v <= u < d ==> c != HEX_LOWER[u] && c != HEX_UPPER[u]
    ensures DigitFrom(c, v) == d
    decreases d - v
  {
    hide HEX_LOWER, HEX_UPPER;
    if v < d {
      DigitIsFirst(c, v + 1, d);
    }
  }

  lemma HexOrder()
    ensures |HEX_LOWER| == 16 && |HEX_UPPER| == 16
    ensures forall v: nat :: v < 10 ==> HEX_LOWER[v] as int == HEX_UPPER[v] as int == 48 + v
    ensures forall v: nat :: 10 <= v < 16 ==> HEX_LOWER[v] as int == 97 + v - 10 && HEX_UPPER[v] as int == 65 + v - 10
  {
  }

  /** The ranges of the source are the digits in either case, with the values of the digits. */
  lemma HexDigits(c: byte)
    ensures IsHex(c) <==> Digit(c) < 16
    ensures IsHex(c) ==> HexValue(c) == Digit(c)
    ensures |HEX_LOWER| == 16 && |HEX_UPPER| == 16
    ensures forall v: nat :: v < 16 ==> (Digit(c) == v <==> c as char == HEX_LOWER[v] || c as char == HEX_UPPER[v])
  {
    hide HEX_LOWER, HEX_UPPER;
    HexOrder();
    DigitIsFirst(c as char, 0, if IsHex(c) then HexValue(c) else 16);
  }

  /**
   * What unescaping means: an escape with two hexadecimal digits is a byte, a malformed one is kept as it
   * stands, and one that the end cuts off is dropped.
   */
  function UnescapedFrom(s: bytes, i: nat): (d: bytes)
    requires i <= |s|
    ensures |d| <= |s| - i
    decreases |s| - i
  {
    if i == |s| then []
    else if s[i] == PLUS then [SPACE] + UnescapedFrom(s, i + 1)
    else if s[i] != PERCENT then [s[i]] + UnescapedFrom(s, i + 1)
    else if i + 1 == |s| || (i + 2 == |s| && IsHex(s[i + 1])) then []
    else if IsHex(s[i + 1]) && IsHex(s[i + 2]) then
      [HexValue(s[i + 1]) * 16 + HexValue(s[i + 2])] + UnescapedFrom(s, i + 3)
    else [PERCENT] + UnescapedFrom(s, i + 1)
  }

  function Unescaped(s: bytes): (d: bytes)
    ensures |d| <= |s|
  {
    UnescapedFrom(s, 0)
  }

  /** The loop of lws_unescape_url: the read position, `state`, `c`, and what has been written. */
  datatype Machine = Machine(i: nat, state: nat, c: nat, out: bytes)

  /** States 1 and 2 have read '%', and '%' with a first digit. */
  ghost predicate Running(src: bytes, m: Machine) {
    && m.state <= 2 && m.state <= m.i <= |src| && |m.out| <= m.i - m.state
    && (m.state >= 1 ==> src[m.i - m.state] == PERCENT)
    && (m.state == 2 ==> IsHex(src[m.i - 1]) && m.c == HexValue(src[m.i - 1]) * 16)
  }

  /** What one iteration writes. */
  function Written(src: bytes, m: Machine): (w: bytes)
    requires m.i < |src| && m.state <= 2 && (m.state == 2 ==> m.c <= 240)
    ensures |w| <= 1
  {
    var s := src[m.i];
    if m.state == 0 then (if s == PLUS then [SPACE] else if s == PERCENT then [] else [s])
    else if IsHex(s) then (if m.state == 1 then [] else [m.c + HexValue(s)])
    else [PERCENT]
  }

  /** One iteration. A malformed second digit makes it step back by one byte. */
  function Iterate(src: bytes, m: Machine): (m': Machine)
    requires m.i < |src| && m.state <= 2 && (m.state == 2 ==> m.i >= 1 && m.c <= 240)
  {
    var s, out := src[m.i], m.out + Written(src, m);
    if m.state == 0 then Machine(m.i + 1, if s == PERCENT then 1 else 0, m.c, out)
    else if m.state == 1 then
      if IsHex(s) then Machine(m.i + 1, 2, HexValue(s) * 16, out) else Machine(m.i, 0, m.c, out)
    else Machine(if IsHex(s) then m.i + 1 else m.i - 1, 0, m.c, out)
  }

  /** What the machine will have written in the end: the input is taken up again at the pending '%'. */
  ghost function Meaning(src: bytes, m: Machine): bytes
    requires Running(src, m)
  {
    m.out + UnescapedFrom(src, m.i - m.state)
  }

  lemma PlainByte(s: bytes, i: nat)
    requires i < |s| && s[i] != PERCENT
    ensures UnescapedFrom(s, i) == [if s[i] == PLUS then SPACE else s[i]] + UnescapedFrom(s, i + 1)
  {
  }

  lemma WholeEscape(s: bytes, i: nat)
    requires i + 2 < |s| && s[i] == PERCENT && IsHex(s[i + 1]) && IsHex(s[i + 2])
    ensures UnescapedFrom(s, i) == [HexValue(s[i + 1]) * 16 + HexValue(s[i + 2])] + UnescapedFrom(s, i + 3)
  {
    hide IsHex, HexValue;
  }

  lemma BadEscape(s: bytes, i: nat)
    requires i + 1 < |s| && s[i] == PERCENT
    requires !IsHex(s[i + 1]) || (i + 2 < |s| && !IsHex(s[i + 2]))
    ensures UnescapedFrom(s, i) == [PERCENT] + UnescapedFrom(s, i + 1)
  {
    hide IsHex, HexValue;
  }

  lemma Nothing(s: bytes)
    ensures [] + s == s
  {
  }

  lemma IterateWrites0(src: bytes, m: Machine)
    requires Running(src, m) && m.i < |src| && m.state == 0
    ensures var m' := Iterate(src, m);
      UnescapedFrom(src, m.i) == Written(src, m) + UnescapedFrom(src, m'.i - m'.state)
  {
    hide IsHex, HexValue, UnescapedFrom;
    if src[m.i] == PERCENT {
      Nothing(UnescapedFrom(src, m.i));
    } else {
      PlainByte(src, m.i);
    }
  }

  lemma IterateWrites1(src: bytes, m: Machine)
    requires Running(src, m) && m.i < |src| && m.state == 1
    ensures var m' := Iterate(src, m);
      UnescapedFrom(src, m.i - 1) == Written(src, m) + UnescapedFrom(src, m'.i - m'.state)
  {
    hide IsHex, HexValue, UnescapedFrom;
    if IsHex(src[m.i]) {
      Nothing(UnescapedFrom(src, m.i - 1));
    } else {
      BadEscape(src, m.i - 1);
    }
  }

  lemma IterateWrites2(src: bytes, m: Machine)
    requires Running(src, m) && m.i < |src| && m.state == 2
    ensures var m' := Iterate(src, m);
      UnescapedFrom(src, m.i - 2) == Written(src, m) + UnescapedFrom(src, m'.i)
  {
    hide IsHex, HexValue, UnescapedFrom;
    if IsHex(src[m.i]) {
      WholeEscape(src, m.i - 2);
    } else {
      BadEscape(src, m.i - 2);
    }
  }

  lemma Regrouped(out: bytes, w: bytes, rest: bytes)
    ensures (out + w) + rest == out + (w + rest)
  {
  }

  /** An iteration keeps the meaning, and uses up input from the pending '%' on, or else advances the state. */
  lemma IterateKeepsMeaning(src: bytes, m: Machine)
    requires Running(src, m) && m.i < |src|
    ensures var m' := Iterate(src, m);
      && Running(src, m') && Meaning(src, m') == Meaning(src, m)
      && (m'.i - m'.state > m.i - m.state || (m'.i - m'.state == m.i - m.state && m'.state > m.state))
  {
    hide IsHex, HexValue, UnescapedFrom;
    var m' := Iterate(src, m);
    if m.state == 0 {
      IterateWrites0(src, m);
    } else if m.state == 1 {
      IterateWrites1(src, m);
    } else {
      IterateWrites2(src, m);
    }
    assert m'.out == m.out + Written(src, m);
    Regrouped(m.out, Written(src, m), UnescapedFrom(src, m'.i - m'.state));
  }

  /** *d++ = b */
  method Emit(dst: array<byte>, n: nat, b: byte) returns (n': nat)
    requires n < dst.Length
    modifies dst
    ensures n' == n + 1 && dst[..n'] == old(dst[..n]) + [b]
  {
    dst[n] := b;
    n' := n + 1;
  }

  /** The switch in the loop of lws_unescape_url. */
  method Dispatch(src: bytes, dst: array<byte>, i: nat, state: nat, c: nat, n: nat)
    returns (i': nat, state': nat, c': nat, n': nat)
    requires dst.Length >= |src| && n <= dst.Length && Running(src, Machine(i, state, c, dst[..n])) && i < |src|
    modifies dst
    ensures n' <= dst.Length
    ensures Machine(i', state', c', dst[..n']) == Iterate(src, Machine(i, state, c, old(dst[..n])))
  {
    hide IsHex, HexValue;
    i', state', c', n' := i, state, c, n;
    if state == 0 {
      if src[i] == PLUS {
        n' := Emit(dst, n, SPACE);
        i' := i + 1;
      } else if src[i] == PERCENT {
        i', state' := i + 1, 1;
      } else {
        n' := Emit(dst, n, src[i]);
        i' := i + 1;
      }
    } else if state == 1 {
      if IsHex(src[i]) {
        c' := HexValue(src[i]) * 16;
        i', state' := i + 1, 2;
      } else {
        n' := Emit(dst, n, PERCENT);
        state' := 0;
      }
    } else {
      if IsHex(src[i]) {
        n' := Emit(dst, n, c + HexValue(src[i]));
        i' := i + 1;
      } else {
        n' := Emit(dst, n, PERCENT);
        i' := i - 1;
      }
      state' := 0;
    }
  }

  /**
   * lws_unescape_url. The output never runs ahead of the input, so a buffer of the input's length is enough,
   * and the loop terminates although it steps back.
   */
  method Unescape(src: bytes, dst: array<byte>) returns (n: nat)
    requires dst.Length >= |src|
    modifies dst
    ensures n <= |src| && dst[..n] == Unescaped(src) == DecodedFrom(src[..Uncut(src)], 0)
  {
    hide DecodedFrom, Uncut;
    UncutFrom(src, 0);
    var i: nat, state: nat, c: nat := 0, 0, 0;
    n := 0;
    while i < |src|
      invariant n <= |src| <= dst.Length && Running(src, Machine(i, state, c, dst[..n]))
      invariant Meaning(src, Machine(i, state, c, dst[..n])) == Unescaped(src)
      decreases |src| - (i - state), 2 - state
    {
      hide UnescapedFrom, Meaning, Iterate, IsHex, HexValue;
      IterateKeepsMeaning(src, Machine(i, state, c, dst[..n]));
      i, state, c, n := Dispatch(src, dst, i, state, c, n);
      assert |dst[..n]| == n;
    }
  }

  // ----- the parser

  predicate IsSeparator(c: byte) {
    c == EQUALS || c == AMPERSAND
  }

  /** The end of the token that starts at i. */
  function TokenEnd(s: bytes, i: nat): (e: nat)
    requires i <= |s|
    ensures i <= e <= |s|
    decreases |s| - i
  {
    if i == |s| || IsSeparator(s[i]) then i else TokenEnd(s, i + 1)
  }

  /** The arguments in s from i on, added to t; `key` is a key whose value is yet to come. */
  function ParsedFrom(s: bytes, i: nat, key: Option<bytes>, t: map<bytes, bytes>): map<bytes, bytes>
    requires i <= |s|
    decreases |s| - i
  {
    var e := TokenEnd(s, i);
    var token := Unescaped(s[i..e]);
    if key == None && e < |s| && s[e] == EQUALS then ParsedFrom(s, e + 1, Some(token), t)
    else
      var t' := if key.Some? then t[key.value := token] else if e > i then t[token := []] else t;
      if e == |s| then t' else ParsedFrom(s, e + 1, None, t')
  }

  function Parsed(s: bytes): map<bytes, bytes> {
    ParsedFrom(s, 0, None, map[])
  }

  /** The part of the Lua stack that the parser uses: a table, and strings above it. */
  class LuaStack {
    var table: map<bytes, bytes>
    var strings: seq<bytes>

    constructor ()
      ensures table == map[] && strings == []
    {
      table, strings := map[], [];
    }

    method Push(s: bytes)
      modifies this`strings
      ensures strings == old(strings) + [s]
    {
      strings := strings + [s];
    }

    method Pop()
      requires strings != []
      modifies this`strings
      ensures strings == old(strings)[..|old(strings)| - 1]
    {
      strings := strings[..|strings| - 1];
    }

    /** lua_rawset(L, -3): the table must be right below the key and the value. */
    method RawSet()
      requires |strings| == 2
      modifies this
      ensures strings == [] && table == old(table)[old(strings)[0] := old(strings)[1]]
    {
      table, strings := table[strings[0] := strings[1]], [];
    }
  }

  /** The unescaped token goes on the stack. */
  method PushToken(L: LuaStack, raw: bytes)
    modifies L`strings
    ensures L.strings == old(L.strings) + [Unescaped(raw)]
  {
    if |raw| > 0 {
      var buffer := new byte[|raw|];
      var len := Unescape(raw, buffer);
      L.Push(buffer[..len]);
    } else {
      L.Push([]);
    }
  }

  /** What is done with a token, depending on the state and on whether '=' follows it. */
  method Settle(L: LuaStack, state: nat, n: nat, equals: bool) returns (state': nat)
    requires state <= 1 && |L.strings| == state + 1
    modifies L
    ensures state == 0 && equals ==> state' == 1 && L.strings == old(L.strings) && L.table == old(L.table)
    ensures state == 1 || !equals ==> state' == 0 && L.strings == []
    ensures state == 0 && !equals ==>
      L.table == if n > 0 then old(L.table)[old(L.strings)[0] := []] else old(L.table)
    ensures state == 1 ==> L.table == old(L.table)[old(L.strings)[0] := old(L.strings)[1]]
  {
    state' := state;
    if state == 0 {
      if equals {
        state' := 1;
      } else if n > 0 {
        L.Push([]);
        L.RawSet();
      } else {
        L.Pop();
      }
    } else {
      L.RawSet();
      state' := 0;
    }
  }

  /** The parser at a token: what is still to be parsed gives what there was to parse. */
  ghost predicate AtToken(args: bytes, pos: nat, state: nat, strings: seq<bytes>, table: map<bytes, bytes>) {
    && pos <= |args| && state <= 1 && |strings| == state
    && Parsed(args) == ParsedFrom(args, pos, if state == 1 then Some(strings[0]) else None, table)
  }

  /**
   * lws_parseargs. The depth of the stack is the parser's state, so that every key meets its value, and
   * no key is left over at the end of any input.
   */
  method ParseArgs(args: bytes) returns (L: LuaStack)
    ensures L.table == Parsed(args) && L.strings == []
  {
    L := new LuaStack();
    var pos, last := 0, |args|;
    if pos == last {
      return;
    }
    var state := 0;
    while true
      invariant fresh(L) && AtToken(args, pos, state, L.strings, L.table)
      decreases last - pos, if pos < last then 1 else 0
    {
      var start := pos;
      while pos < last && args[pos] != EQUALS && args[pos] != AMPERSAND
        invariant start <= pos <= last
        invariant TokenEnd(args, start) == TokenEnd(args, pos)
      {
        pos := pos + 1;
      }
      hide UnescapedFrom, IsSeparator;
      PushToken(L, args[start..pos]);
      state := Settle(L, state, pos - start, pos < last && args[pos] == EQUALS);
      if pos >= last {
        break;
      }
      pos := pos + 1;
    }
  }

  // ----- any form encoding parses back

  predicate IsSpecial(c: byte) {
    c == PERCENT || c == PLUS || IsSeparator(c)
  }

  /**
   * e encodes s, from positions i and j on: byte by byte as itself, unless it is special; as two hexadecimal
   * digits in either case; or, for a space, as '+'.
   */
  ghost predicate EncodesFrom(e: bytes, i: nat, s: bytes, j: nat)
    requires i <= |e| && j <= |s|
    decreases |s| - j
  {
    if j == |s| then i == |e|
    else if i == |e| then false
    else if e[i] == PERCENT then
      && i + 2 < |e| && Digit(e[i + 1]) < 16 && Digit(e[i + 2]) < 16
      && s[j] == Digit(e[i + 1]) * 16 + Digit(e[i + 2]) && EncodesFrom(e, i + 3, s, j + 1)
    else if e[i] == PLUS then s[j] == SPACE && EncodesFrom(e, i + 1, s, j + 1)
    else e[i] == s[j] && !IsSpecial(s[j]) && EncodesFrom(e, i + 1, s, j + 1)
  }

  ghost predicate Encodes(e: bytes, s: bytes) {
    EncodesFrom(e, 0, s, 0)
  }

  lemma EscapeIsNoSeparator(e: bytes, i: nat)
    requires i + 2 < |e| && Digit(e[i + 1]) < 16 && Digit(e[i + 2]) < 16
    ensures IsHex(e[i + 1]) && HexValue(e[i + 1]) == Digit(e[i + 1]) && !IsSeparator(e[i + 1])
    ensures IsHex(e[i + 2]) && HexValue(e[i + 2]) == Digit(e[i + 2]) && !IsSeparator(e[i + 2])
  {
    hide Digit;
    HexDigits(e[i + 1]);
    HexDigits(e[i + 2]);
  }

  /** An encoding unescapes to what it encodes, and holds no separator. */
  lemma {:induction false} EncodingUnescapes(e: bytes, i: nat, s: bytes, j: nat)
    requires i <= |e| && j <= |s| && EncodesFrom(e, i, s, j)
    ensures |UnescapedFrom(e, i)| == |s| - j
    ensures forall k :: j <= k < |s| ==> UnescapedFrom(e, i)[k - j] == s[k]
    ensures forall k :: i <= k < |e| ==> !IsSeparator(e[k])
    decreases |s| - j
  {
    hide HexValue, IsHex, Digit;
    if j < |s| {
      if e[i] == PERCENT {
        EscapeIsNoSeparator(e, i);
      }
      EncodingUnescapes(e, if e[i] == PERCENT then i + 3 else i + 1, s, j + 1);
    }
  }

  lemma EncodedToken(e: bytes, s: bytes)
    requires Encodes(e, s)
    ensures Unescaped(e) == s
    ensures forall k :: 0 <= k < |e| ==> !IsSeparator(e[k])
  {
    EncodingUnescapes(e, 0, s, 0);
    assert forall k :: 0 <= k < |s| ==> UnescapedFrom(e, 0)[k - 0] == s[k];
  }

  function HexDigit(v: nat): (c: byte)
    requires v < 16
    ensures Digit(c) == v
  {
    hide Digit, HEX_LOWER, HEX_UPPER;
    var c := if v < 10 then 48 + v else 65 + v - 10;
    HexDigits(c);
    c
  }

  /** Every byte as '%' and two digits. */
  function PercentEncoded(s: bytes): (e: bytes)
    ensures |e| == 3 * |s|
  {
    seq(3 * |s|, x requires 0 <= x < 3 * |s| =>
      if x % 3 == 0 then PERCENT else HexDigit(if x % 3 == 1 then s[x / 3] / 16 else s[x / 3] % 16))
  }

  lemma PercentDigits(s: bytes, j: nat)
    requires j < |s|
    ensures var e, i := PercentEncoded(s), 3 * j;
      e[i] == PERCENT && e[i + 1] == HexDigit(s[j] / 16) && e[i + 2] == HexDigit(s[j] % 16)
  {
  }

  /** So every string of bytes has an encoding. */
  lemma {:induction false} PercentEncodes(s: bytes, j: nat)
    requires j <= |s|
    ensures EncodesFrom(PercentEncoded(s), 3 * j, s, j)
    decreases |s| - j
  {
    hide HexDigit, Digit;
    if j < |s| {
      PercentEncodes(s, j + 1);
      PercentDigits(s, j);
      hide PercentEncoded;
    }
  }

  /** k1=v1&k2=v2&... over encoded keys and values. */
  function Query(args: seq<(bytes, bytes)>): bytes {
    if args == [] then []
    else args[0].0 + [EQUALS] + args[0].1 + (if |args| == 1 then [] else [AMPERSAND] + Query(args[1..]))
  }

  /** The arguments put into a table one after the other. */
  function AddAll(args: seq<(bytes, bytes)>, t: map<bytes, bytes>): map<bytes, bytes> {
    if args == [] then t else AddAll(args[1..], t[args[0].0 := args[0].1])
  }

  lemma {:induction false} TokenEndIs(s: bytes, i: nat, e: nat)
    requires i <= e <= |s| && (forall k :: i <= k < e ==> !IsSeparator(s[k])) && (e < |s| ==> IsSeparator(s[e]))
    ensures TokenEnd(s, i) == e
    decreases e - i
  {
    if i < e {
      TokenEndIs(s, i + 1, e);
    }
  }

  /** The text w stands in s at i. */
  ghost predicate StandsAt(w: bytes, s: bytes, i: nat) {
    i + |w| <= |s| && forall x :: 0 <= x < |w| ==> s[i + x] == w[x]
  }

  /** A token that stands alone between separators is read as such. */
  lemma TokenAt(w: bytes, s: bytes, i: nat)
    requires StandsAt(w, s, i) && (i + |w| < |s| ==> IsSeparator(s[i + |w|]))
    requires forall k :: 0 <= k < |w| ==> !IsSeparator(w[k])
    ensures TokenEnd(s, i) == i + |w| && s[i..i + |w|] == w
  {
    forall k | i <= k < i + |w|
      ensures !IsSeparator(s[k])
    {
      assert s[i + (k - i)] == w[k - i];
    }
    TokenEndIs(s, i, i + |w|);
  }

  /** An argument ek=ev is parsed as it was encoded. */
  lemma ParsedArg(s: bytes, i: nat, ek: bytes, ev: bytes, k: bytes, v: bytes, t: map<bytes, bytes>)
    requires Encodes(ek, k) && Encodes(ev, v)
    requires StandsAt(ek, s, i) && i + |ek| < |s| && s[i + |ek|] == EQUALS && StandsAt(ev, s, i + |ek| + 1)
    requires i + |ek| + 1 + |ev| < |s| ==> s[i + |ek| + 1 + |ev|] == AMPERSAND
    ensures var end := i + |ek| + 1 + |ev|;
      ParsedFrom(s, i, None, t) == if end == |s| then t[k := v] else ParsedFrom(s, end + 1, None, t[k := v])
  {
    EncodedToken(ek, k);
    EncodedToken(ev, v);
    TokenAt(ek, s, i);
    TokenAt(ev, s, i + |ek| + 1);
  }

  lemma ParsedEnd(s: bytes, i: nat, es: seq<(bytes, bytes)>, t: map<bytes, bytes>)
    requires es == [] && StandsAt(Query(es), s, i) && |s| == i + |Query(es)|
    ensures ParsedFrom(s, i, None, t) == t
  {
    assert TokenEnd(s, i) == i;
  }

  /** Any list of arguments, however encoded, is parsed back as the list, later values winning. */
  lemma {:induction false} ParsedQuery(s: bytes, i: nat, es: seq<(bytes, bytes)>, args: seq<(bytes, bytes)>,
                                       t: map<bytes, bytes>)
    requires StandsAt(Query(es), s, i) && |s| == i + |Query(es)| && |es| == |args|
    requires forall x :: 0 <= x < |es| ==> Encodes(es[x].0, args[x].0) && Encodes(es[x].1, args[x].1)
    ensures ParsedFrom(s, i, None, t) == AddAll(args, t)
    decreases |es|
  {
    hide Encodes, Unescaped, Query, StandsAt, ParsedFrom;
    if es == [] {
      ParsedEnd(s, i, es, t);
    } else {
      QueryParts(s, i, es);
      var ek, ev := es[0].0, es[0].1;
      var end := i + |ek| + 1 + |ev|;
      var t' := t[args[0].0 := args[0].1];
      ParsedArg(s, i, ek, ev, args[0].0, args[0].1, t);
      if |es| > 1 {
        ParsedQuery(s, end + 1, es[1..], args[1..], t');
      } else {
        assert AddAll(args[1..], t') == t';
      }
    }
  }

  lemma StandsSplit(a: bytes, b: bytes, s: bytes, i: nat)
    requires StandsAt(a + b, s, i)
    ensures StandsAt(a, s, i) && StandsAt(b, s, i + |a|)
  {
    forall x | 0 <= x < |a|
      ensures s[i + x] == a[x]
    {
      assert s[i + x] == (a + b)[x];
    }
    forall x | 0 <= x < |b|
      ensures s[i + |a| + x] == b[x]
    {
      assert s[i + (|a| + x)] == (a + b)[|a| + x];
    }
  }

  lemma StandsChar(c: byte, s: bytes, i: nat)
    requires StandsAt([c], s, i)
    ensures s[i] == c
  {
    assert s[i + 0] == [c][0];
  }

  /** Where the parts of a query stand. */
  lemma QueryParts(s: bytes, i: nat, es: seq<(bytes, bytes)>)
    requires es != [] && StandsAt(Query(es), s, i) && |s| == i + |Query(es)|
    ensures var ek, ev := es[0].0, es[0].1;
      var end := i + |ek| + 1 + |ev|;
      && StandsAt(ek, s, i) && i + |ek| < |s| && s[i + |ek|] == EQUALS && StandsAt(ev, s, i + |ek| + 1)
      && (|es| == 1 ==> end == |s|)
      && (|es| > 1 ==> end < |s| && s[end] == AMPERSAND)
      && (|es| > 1 ==> StandsAt(Query(es[1..]), s, end + 1) && |s| == end + 1 + |Query(es[1..])|)
  {
    var ek, ev := es[0].0, es[0].1;
    var more := if |es| == 1 then [] else [AMPERSAND] + Query(es[1..]);
    assert Query(es) == ek + [EQUALS] + ev + more;
    hide Query;
    StandsSplit(ek + [EQUALS] + ev, more, s, i);
    StandsSplit(ek + [EQUALS], ev, s, i);
    StandsSplit(ek, [EQUALS], s, i);
    StandsChar(EQUALS, s, i + |ek|);
    if |es| > 1 {
      var end := i + |ek| + 1 + |ev|;
      StandsSplit([AMPERSAND], Query(es[1..]), s, end);
      StandsChar(AMPERSAND, s, end);
    }
  }

  /** The law of lws.parseargs: parsing an encoded list of arguments gives each key its last value. */
  lemma QueryRoundTrip(es: seq<(bytes, bytes)>, args: seq<(bytes, bytes)>)
    requires |es| == |args|
    requires forall x :: 0 <= x < |es| ==> Encodes(es[x].0, args[x].0) && Encodes(es[x].1, args[x].1)
    ensures Parsed(Query(es)) == AddAll(args, map[])
    ensures forall key :: key in Parsed(Query(es)) <==> exists x :: 0 <= x < |args| && args[x].0 == key
    ensures forall x :: 0 <= x < |args| && (forall y :: x < y < |args| ==> args[y].0 != args[x].0) ==>
      args[x].0 in Parsed(Query(es)) && Parsed(Query(es))[args[x].0] == args[x].1
  {
    ParsedQuery(Query(es), 0, es, args, map[]);
    LastWins(args, map[]);
  }

  lemma {:induction false} AddAllKeys(args: seq<(bytes, bytes)>, t: map<bytes, bytes>)
    ensures forall key :: key in AddAll(args, t) <==> key in t || exists x :: 0 <= x < |args| && args[x].0 == key
  {
    if args != [] {
      var rest := args[1..];
      AddAllKeys(rest, t[args[0].0 := args[0].1]);
      assert forall x :: 1 <= x < |args| ==> args[x] == rest[x - 1];
    }
  }

  lemma {:induction false} AddAllKeeps(args: seq<(bytes, bytes)>, t: map<bytes, bytes>, key: bytes)
    requires key in t && forall x :: 0 <= x < |args| ==> args[x].0 != key
    ensures key in AddAll(args, t) && AddAll(args, t)[key] == t[key]
  {
    if args != [] {
      AddAllKeeps(args[1..], t[args[0].0 := args[0].1], key);
    }
  }

  lemma {:induction false} AddAllLast(args: seq<(bytes, bytes)>, t: map<bytes, bytes>, x: nat)
    requires x < |args| && forall y :: x < y < |args| ==> args[y].0 != args[x].0
    ensures args[x].0 in AddAll(args, t) && AddAll(args, t)[args[x].0] == args[x].1
  {
    if x == 0 {
      AddAllKeeps(args[1..], t[args[0].0 := args[0].1], args[0].0);
    } else {
      AddAllLast(args[1..], t[args[0].0 := args[0].1], x - 1);
    }
  }

  lemma LastWins(args: seq<(bytes, bytes)>, t: map<bytes, bytes>)
    ensures forall key :: key in AddAll(args, t) <==> key in t || exists x :: 0 <= x < |args| && args[x].0 == key
    ensures forall x :: 0 <= x < |args| && (forall y :: x < y < |args| ==> args[y].0 != args[x].0) ==>
      args[x].0 in AddAll(args, t) && AddAll(args, t)[args[x].0] == args[x].1
    ensures forall key :: key in t && (forall x :: 0 <= x < |args| ==> args[x].0 != key) ==>
      key in AddAll(args, t) && AddAll(args, t)[key] == t[key]
  {
    AddAllKeys(args, t);
    forall x | 0 <= x < |args| && (forall y :: x < y < |args| ==> args[y].0 != args[x].0)
      ensures args[x].0 in AddAll(args, t) && AddAll(args, t)[args[x].0] == args[x].1
    {
      AddAllLast(args, t, x);
    }
    forall key | key in t && (forall x :: 0 <= x < |args| ==> args[x].0 != key)
      ensures key in AddAll(args, t) && AddAll(args, t)[key] == t[key]
    {
      AddAllKeeps(args, t, key);
    }
  }

  // ----- truncated escapes

  /** Percent-decoding by section 1.3 of the URL Standard, with '+' for a space: what is not an escape is kept. */
  function DecodedFrom(s: bytes, i: nat): bytes
    requires i <= |s|
    decreases |s| - i
  {
    if i == |s| then []
    else if s[i] == PLUS then [SPACE] + DecodedFrom(s, i + 1)
    else if s[i] == PERCENT && i + 2 < |s| && Digit(s[i + 1]) < 16 && Digit(s[i + 2]) < 16 then
      [Digit(s[i + 1]) * 16 + Digit(s[i + 2])] + DecodedFrom(s, i + 3)
    else [s[i]] + DecodedFrom(s, i + 1)
  }

  /** The end cuts off an escape: the text ends in '%', or in '%' and one hexadecimal digit. */
  predicate EndsInEscape(s: bytes) {
    || (|s| >= 1 && s[|s| - 1] == PERCENT)
    || (|s| >= 2 && s[|s| - 2] == PERCENT && Digit(s[|s| - 1]) < 16)
  }

  lemma AppendSame<T>(a: seq<T>, b: seq<T>, c: seq<T>)
    ensures a + b == a + c <==> b == c
  {
    if a + b == a + c {
      assert (a + b)[|a|..] == b && (a + c)[|a|..] == c;
    }
  }

  /** Both take the same step, unless the escape at i is cut off. */
  lemma SameStep(s: bytes, i: nat) returns (first: byte, next: nat)
    requires i < |s| && !(s[i] == PERCENT && (i + 1 == |s| || (i + 2 == |s| && IsHex(s[i + 1]))))
    ensures next == if s[i] == PERCENT && i + 2 < |s| && IsHex(s[i + 1]) && IsHex(s[i + 2]) then i + 3 else i + 1
    ensures UnescapedFrom(s, i) == [first] + UnescapedFrom(s, next)
    ensures DecodedFrom(s, i) == [first] + DecodedFrom(s, next)
  {
    hide HexValue, IsHex, Digit, UnescapedFrom;
    if i + 2 < |s| {
      HexDigits(s[i + 1]);
      HexDigits(s[i + 2]);
    }
    if s[i] == PERCENT && i + 2 < |s| && IsHex(s[i + 1]) && IsHex(s[i + 2]) {
      first, next := HexValue(s[i + 1]) * 16 + HexValue(s[i + 2]), i + 3;
      WholeEscape(s, i);
    } else {
      first, next := if s[i] == PLUS then SPACE else s[i], i + 1;
      if s[i] == PERCENT {
        BadEscape(s, i);
      } else {
        PlainByte(s, i);
      }
    }
  }

  lemma {:induction false} TruncatedFrom(s: bytes, i: nat)
    requires i <= |s|
    requires EndsInEscape(s) ==> i < |s| && (s[|s| - 1] == PERCENT || i < |s| - 1)
    ensures UnescapedFrom(s, i) == DecodedFrom(s, i) <==> !EndsInEscape(s)
    decreases |s| - i
  {
    hide HexValue, Digit, UnescapedFrom, DecodedFrom;
    if i + 1 < |s| {
      HexDigits(s[|s| - 1]);
    }
    if i == |s| {
      assert UnescapedFrom(s, i) == [] == DecodedFrom(s, i) by { AtEnd(s); }
    } else if s[i] == PERCENT && (i + 1 == |s| || (i + 2 == |s| && IsHex(s[i + 1]))) {
      CutOff(s, i);
    } else {
      var first, next := SameStep(s, i);
      TruncatedFrom(s, next);
      AppendSame([first], UnescapedFrom(s, next), DecodedFrom(s, next));
    }
  }

  lemma AtEnd(s: bytes)
    ensures UnescapedFrom(s, |s|) == [] == DecodedFrom(s, |s|)
  {
  }

  lemma CutOff(s: bytes, i: nat)
    requires i < |s| && s[i] == PERCENT && (i + 1 == |s| || (i + 2 == |s| && IsHex(s[i + 1])))
    ensures UnescapedFrom(s, i) == [] != DecodedFrom(s, i)
  {
    hide HexValue;
  }

  /** The length of a text without the escape that its end cuts off. */
  function Uncut(s: bytes): (n: nat)
    ensures n <= |s|
  {
    if !EndsInEscape(s) then |s| else if s[|s| - 1] == PERCENT then |s| - 1 else |s| - 2
  }

  lemma StepBeforeCut(s: bytes, i: nat, n: nat)
    requires i < n == Uncut(s)
    ensures !(s[i] == PERCENT && (i + 1 == |s| || (i + 2 == |s| && IsHex(s[i + 1]))))
    ensures s[i] == PERCENT && i + 2 < |s| && IsHex(s[i + 1]) && IsHex(s[i + 2]) ==> i + 2 < n
    ensures n < |s| ==> s[n] == PERCENT && (n + 1 == |s| || (n + 2 == |s| && IsHex(s[n + 1])))
  {
    hide Digit;
    if |s| >= 2 {
      HexDigits(s[|s| - 1]);
    }
  }

  lemma CutAtEnd(s: bytes)
    ensures UnescapedFrom(s, Uncut(s)) == []
  {
    hide Digit;
    if |s| >= 2 {
      HexDigits(s[|s| - 1]);
    }
  }

  predicate IsEscape(s: bytes, i: nat) {
    i + 2 < |s| && s[i] == PERCENT && Digit(s[i + 1]) < 16 && Digit(s[i + 2]) < 16
  }

  lemma DecodedNext(s: bytes, i: nat)
    requires i < |s|
    ensures DecodedFrom(s, i) ==
      if IsEscape(s, i) then [Digit(s[i + 1]) * 16 + Digit(s[i + 2])] + DecodedFrom(s, i + 3)
      else [if s[i] == PLUS then SPACE else s[i]] + DecodedFrom(s, i + 1)
  {
    hide Digit;
  }

  lemma DecodedStep(s: bytes, n: nat, i: nat)
    requires i < n <= |s| && (IsEscape(s, i) ==> i + 2 < n)
    ensures var next := if IsEscape(s, i) then i + 3 else i + 1;
      && next <= n && |DecodedFrom(s, i)| > 0
      && DecodedFrom(s[..n], i) == [DecodedFrom(s, i)[0]] + DecodedFrom(s[..n], next)
  {
    hide Digit, DecodedFrom;
    DecodedNext(s, i);
    DecodedNext(s[..n], i);
    assert IsEscape(s[..n], i) <==> IsEscape(s, i);
  }

  /** For every text, unescaping is percent-decoding of the text without the escape that its end cuts off. */
  lemma {:induction false} UncutFrom(s: bytes, i: nat)
    requires i <= Uncut(s)
    ensures UnescapedFrom(s, i) == DecodedFrom(s[..Uncut(s)], i)
    decreases |s| - i
  {
    hide HexValue, IsHex, Digit, UnescapedFrom, DecodedFrom, Uncut;
    var n := Uncut(s);
    if i == n {
      CutAtEnd(s);
      AtEnd(s[..n]);
    } else {
      StepBeforeCut(s, i, n);
      var first, next := SameStep(s, i);
      if i + 2 < |s| {
        HexDigits(s[i + 1]);
        HexDigits(s[i + 2]);
      }
      DecodedStep(s, n, i);
      UncutFrom(s, next);
    }
  }

  /**
   * Unescaping is percent-decoding if and only if the text does not end within an escape; and it always is
   * percent-decoding of the text without an escape that its end cuts off.
   */
  lemma TruncatedIff(s: bytes)
    ensures Unescaped(s) == DecodedFrom(s, 0) <==> !EndsInEscape(s)
    ensures Unescaped(s) == DecodedFrom(s[..Uncut(s)], 0)
  {
    TruncatedFrom(s, 0);
    UncutFrom(s, 0);
  }

  /** An escape is the byte of its two digits, whatever their case. */
  lemma EscapeIsByte(h: nat, l: nat, upper: (bool, bool))
    requires h < 16 && l < 16
    ensures |HEX_LOWER| == 16 && |HEX_UPPER| == 16
    ensures var c := if upper.0 then HEX_UPPER[h] else HEX_LOWER[h];
      var d := if upper.1 then HEX_UPPER[l] else HEX_LOWER[l];
      Unescaped(Ascii(['%', c, d])) == [16 * h + l]
  {
    hide Digit, HexValue, IsHex, HEX_LOWER, HEX_UPPER;
    HexOrder();
    var c := if upper.0 then HEX_UPPER[h] else HEX_LOWER[h];
    var d := if upper.1 then HEX_UPPER[l] else HEX_LOWER[l];
    HexDigits(c as int);
    HexDigits(d as int);
    var e := Ascii(['%', c, d]);
    assert |e| == 3 && e[0] == PERCENT && e[1] == c as int && e[2] == d as int;
    WholeEscape(e, 0);
  }

  /** A query with a space, escapes in either case and an empty value. */
  lemma Example()
    ensures Parsed(Ascii("k+%2F=v%3d&f=")) == map[Ascii("k /") := Ascii("v="), Ascii("f") := []]
  {
    var es := [(Ascii("k+%2F"), Ascii("v%3d")), (Ascii("f"), [])];
    var args := [(Ascii("k /"), Ascii("v=")), (Ascii("f"), [])];
    ExampleEncodes();
    ExampleQuery();
    hide Encodes, Query, Parsed;
    QueryRoundTrip(es, args);
    assert [args[0]] + [args[1]] == args;
    AddTwo(args[0], args[1], map[]);
  }

  lemma ExampleEncodes()
    ensures Encodes(Ascii("k+%2F"), Ascii("k /")) && Encodes(Ascii("v%3d"), Ascii("v="))
    ensures Encodes(Ascii("f"), Ascii("f")) && Encodes([], [])
  {
    hide Digit, HEX_LOWER, HEX_UPPER;
    HexOrder();
    HexDigits(50);
    HexDigits(51);
    HexDigits(70);
    HexDigits(100);
    var e, s := Ascii("k+%2F"), Ascii("k /");
    assert EncodesFrom(e, 5, s, 3);
    assert EncodesFrom(e, 2, s, 2);
    var e', s' := Ascii("v%3d"), Ascii("v=");
    assert EncodesFrom(e', 4, s', 2);
  }

  lemma ExampleQuery()
    ensures Query([(Ascii("k+%2F"), Ascii("v%3d")), (Ascii("f"), [])]) == Ascii("k+%2F=v%3d&f=")
  {
    var last := [(Ascii("f"), [])];
    assert Query(last) == Ascii("f=");
    assert [(Ascii("k+%2F"), Ascii("v%3d")), (Ascii("f"), [])][1..] == last;
  }

  // ----- the arguments as form data

  /** The arguments that the parser sets, in order. */
  function SetsFrom(s: bytes, i: nat, key: Option<bytes>): seq<(bytes, bytes)>
    requires i <= |s|
    decreases |s| - i
  {
    var e := TokenEnd(s, i);
    var token := Unescaped(s[i..e]);
    if key == None && e < |s| && s[e] == EQUALS then SetsFrom(s, e + 1, Some(token))
    else
      var set1 := if key.Some? then [(key.value, token)] else if e > i then [(token, [])] else [];
      if e == |s| then set1 else set1 + SetsFrom(s, e + 1, None)
  }

  lemma AddAllAppend(a: seq<(bytes, bytes)>, b: seq<(bytes, bytes)>, t: map<bytes, bytes>)
    requires |a| <= 1
    ensures AddAll(a + b, t) == AddAll(b, AddAll(a, t))
  {
    if a == [] {
      assert a + b == b;
    } else {
      assert (a + b)[1..] == b && a[1..] == [];
    }
  }

  /** The table that the parser leaves is made by setting them one after the other. */
  lemma {:induction false} ParsedIsSets(s: bytes, i: nat, key: Option<bytes>, t: map<bytes, bytes>)
    requires i <= |s|
    ensures ParsedFrom(s, i, key, t) == AddAll(SetsFrom(s, i, key), t)
    decreases |s| - i
  {
    hide Unescaped;
    var e := TokenEnd(s, i);
    var token := Unescaped(s[i..e]);
    if key == None && e < |s| && s[e] == EQUALS {
      ParsedIsSets(s, e + 1, Some(token), t);
    } else {
      var set1 := if key.Some? then [(key.value, token)] else if e > i then [(token, [])] else [];
      var t' := if key.Some? then t[key.value := token] else if e > i then t[token := []] else t;
      assert AddAll(set1, t) == t';
      if e < |s| {
        ParsedIsSets(s, e + 1, None, t');
        AddAllAppend(set1, SetsFrom(s, e + 1, None), t);
      }
    }
  }

  /** The first c from i on, or the end. */
  function NextOf(s: bytes, i: nat, c: byte): (n: nat)
    requires i <= |s|
    ensures i <= n <= |s| && (n < |s| ==> s[n] == c)
    ensures forall k :: i <= k < n ==> s[k] != c
    decreases |s| - i
  {
    if i == |s| || s[i] == c then i else NextOf(s, i + 1, c)
  }

  /** The argument of the piece that begins at i; an empty piece has none. */
  function Argument(s: bytes, i: nat): seq<(bytes, bytes)>
    requires i <= |s|
  {
    var end, equals := NextOf(s, i, AMPERSAND), NextOf(s, i, EQUALS);
    if equals < end then [(Unescaped(s[i..equals]), Unescaped(s[equals + 1..end]))]
    else if i < end then [(Unescaped(s[i..end]), [])]
    else []
  }

  /** The arguments of a form from i on. */
  function FormFrom(s: bytes, i: nat): seq<(bytes, bytes)>
    requires i <= |s|
    decreases |s| - i
  {
    var end := NextOf(s, i, AMPERSAND);
    Argument(s, i) + (if end == |s| then [] else FormFrom(s, end + 1))
  }

  /** Between any two '=' from i on stands an '&'. */
  ghost predicate SinglyFrom(s: bytes, i: nat) {
    forall x, y :: i <= x < y < |s| && s[x] == EQUALS && s[y] == EQUALS ==> NextOf(s, x, AMPERSAND) < y
  }

  /** The second '=' from i on, or the end. */
  function SecondOf(s: bytes, i: nat): (n: nat)
    requires i <= |s|
    ensures i <= n <= |s|
  {
    var equals := NextOf(s, i, EQUALS);
    if equals == |s| then equals else NextOf(s, equals + 1, EQUALS)
  }

  /** The piece that begins at i has two '='. */
  predicate Doubled(s: bytes, i: nat)
    requires i <= |s|
  {
    SecondOf(s, i) < NextOf(s, i, AMPERSAND)
  }

  lemma NextIs(s: bytes, i: nat, c: byte, e: nat)
    requires i <= e <= |s| && (e < |s| ==> s[e] == c) && forall k :: i <= k < e ==> s[k] != c
    ensures NextOf(s, i, c) == e
  {
  }

  /** A piece is well formed, and so are those after it. */
  lemma SinglySplit(s: bytes, i: nat)
    requires i <= |s|
    ensures SinglyFrom(s, i) <==>
      !Doubled(s, i) && (NextOf(s, i, AMPERSAND) < |s| ==> SinglyFrom(s, NextOf(s, i, AMPERSAND) + 1))
  {
    hide NextOf;
    var end, equals := NextOf(s, i, AMPERSAND), NextOf(s, i, EQUALS);
    if Doubled(s, i) {
      NextIs(s, equals, AMPERSAND, end);
      assert !SinglyFrom(s, i);
    } else if end < |s| ==> SinglyFrom(s, end + 1) {
      forall x, y | i <= x < y < |s| && s[x] == EQUALS && s[y] == EQUALS
        ensures NextOf(s, x, AMPERSAND) < y
      {
        if x < end {
          NextIs(s, x, AMPERSAND, end);
        }
      }
    }
  }

  lemma SetsAtKey(s: bytes, i: nat, e: nat)
    requires i <= e < |s| && s[e] == EQUALS && forall k :: i <= k < e ==> !IsSeparator(s[k])
    ensures SetsFrom(s, i, None) == SetsFrom(s, e + 1, Some(Unescaped(s[i..e])))
  {
    TokenEndIs(s, i, e);
  }

  lemma SetsAtValue(s: bytes, i: nat, key: bytes, e: nat)
    requires i <= e <= |s| && (e < |s| ==> IsSeparator(s[e])) && forall k :: i <= k < e ==> !IsSeparator(s[k])
    ensures SetsFrom(s, i, Some(key)) ==
      [(key, Unescaped(s[i..e]))] + (if e == |s| then [] else SetsFrom(s, e + 1, None))
  {
    TokenEndIs(s, i, e);
  }

  lemma SetsAtBareKey(s: bytes, i: nat, e: nat)
    requires i <= e <= |s| && (e < |s| ==> s[e] == AMPERSAND) && forall k :: i <= k < e ==> !IsSeparator(s[k])
    ensures SetsFrom(s, i, None) ==
      (if i < e then [(Unescaped(s[i..e]), [])] else []) + (if e == |s| then [] else SetsFrom(s, e + 1, None))
  {
    TokenEndIs(s, i, e);
  }

  /** The parser at a well-formed piece. */
  lemma PieceRead(s: bytes, i: nat)
    requires i <= |s| && !Doubled(s, i)
    ensures var end := NextOf(s, i, AMPERSAND);
      SetsFrom(s, i, None) == Argument(s, i) + (if end == |s| then [] else SetsFrom(s, end + 1, None))
  {
    hide Unescaped, SetsFrom, NextOf;
    var end, equals := NextOf(s, i, AMPERSAND), NextOf(s, i, EQUALS);
    if equals < end {
      SetsAtKey(s, i, equals);
      SetsAtValue(s, equals + 1, Unescaped(s[i..equals]), end);
    } else {
      SetsAtBareKey(s, i, end);
    }
  }

  /** The parser at a piece with a second '=': the value ends there. */
  lemma PieceCut(s: bytes, i: nat)
    requires i <= |s| && Doubled(s, i)
    ensures var equals, second := NextOf(s, i, EQUALS), SecondOf(s, i);
      SetsFrom(s, i, None) ==
        [(Unescaped(s[i..equals]), Unescaped(s[equals + 1..second]))] + SetsFrom(s, second + 1, None)
  {
    hide Unescaped, SetsFrom, NextOf;
    var equals, second := NextOf(s, i, EQUALS), SecondOf(s, i);
    SetsAtKey(s, i, equals);
    SetsAtValue(s, equals + 1, Unescaped(s[i..equals]), second);
  }

  /** An '=' in a text is never part of an escape, so what precedes it unescapes to less than the whole. */
  lemma {:induction false} EqualsCounts(t: bytes, n: nat, j: nat)
    requires j <= n < |t| && t[n] == EQUALS
    ensures |UnescapedFrom(t, j)| > |UnescapedFrom(t[..n], j)|
    decreases n - j
  {
    hide HexValue;
    if j < n {
      if t[j] == PERCENT && j + 2 < n && IsHex(t[j + 1]) && IsHex(t[j + 2]) {
        EqualsCounts(t, n, j + 3);
      } else {
        EqualsCounts(t, n, j + 1);
      }
    }
  }

  lemma CutIsShorter(s: bytes, i: nat, second: nat, end: nat)
    requires i <= second < end <= |s| && s[second] == EQUALS
    ensures Unescaped(s[i..second]) != Unescaped(s[i..end])
  {
    EqualsCounts(s[i..end], second - i, 0);
    assert s[i..end][..second - i] == s[i..second];
  }

  lemma FormStep(s: bytes, i: nat)
    requires i <= |s|
    ensures var end := NextOf(s, i, AMPERSAND);
      FormFrom(s, i) == Argument(s, i) + (if end == |s| then [] else FormFrom(s, end + 1))
  {
  }

  /** Where a value is cut, the two lists differ. */
  lemma PieceDiffers(s: bytes, i: nat)
    requires i <= |s| && Doubled(s, i)
    ensures SetsFrom(s, i, None) != FormFrom(s, i)
  {
    hide Unescaped, SetsFrom, FormFrom, NextOf;
    var end, equals, second := NextOf(s, i, AMPERSAND), NextOf(s, i, EQUALS), SecondOf(s, i);
    PieceCut(s, i);
    CutIsShorter(s, equals + 1, second, end);
    FormStep(s, i);
    assert SetsFrom(s, i, None)[0].1 == Unescaped(s[equals + 1..second]);
    assert FormFrom(s, i)[0].1 == Unescaped(s[equals + 1..end]);
  }

  lemma {:induction false} SetsAreFormFrom(s: bytes, i: nat)
    requires i <= |s|
    ensures SetsFrom(s, i, None) == FormFrom(s, i) <==> SinglyFrom(s, i)
    decreases |s| - i
  {
    hide Unescaped, SetsFrom, FormFrom, SinglyFrom, NextOf, Argument, Doubled;
    var end := NextOf(s, i, AMPERSAND);
    SinglySplit(s, i);
    if Doubled(s, i) {
      PieceDiffers(s, i);
    } else {
      PieceRead(s, i);
      FormStep(s, i);
      if end < |s| {
        SetsAreFormFrom(s, end + 1);
        AppendSame(Argument(s, i), SetsFrom(s, end + 1, None), FormFrom(s, end + 1));
      }
    }
  }

  /** The parser reads a query as a form if and only if between any two '=' stands an '&'. */
  lemma SetsAreForm(s: bytes)
    ensures SetsFrom(s, 0, None) == FormFrom(s, 0) <==> SinglyFrom(s, 0)
    ensures SinglyFrom(s, 0) ==> Parsed(s) == AddAll(FormFrom(s, 0), map[])
  {
    SetsAreFormFrom(s, 0);
    ParsedIsSets(s, 0, None, map[]);
  }

  /** In a=b=c the value of a is cut, and the rest of it becomes a key. */
  lemma ValueIsCut()
    ensures Parsed([97, EQUALS, 98, EQUALS, 99]) == map[[97] := [98], [99] := []]
    ensures FormFrom([97, EQUALS, 98, EQUALS, 99], 0) == [([97], [98, EQUALS, 99])]
  {
    var s := [97, EQUALS, 98, EQUALS, 99];
    NextIs(s, 0, AMPERSAND, 5);
    NextIs(s, 0, EQUALS, 1);
    NextIs(s, 2, EQUALS, 3);
    assert s[0..1] == [97] && s[2..3] == [98] && s[4..5] == [99] && s[2..5] == [98, EQUALS, 99];
    Plain([97]);
    Plain([98]);
    Plain([99]);
    Plain([98, EQUALS, 99]);
    hide Unescaped, NextOf, SetsFrom, ParsedFrom;
    PieceCut(s, 0);
    SetsAtBareKey(s, 4, 5);
    ParsedIsSets(s, 0, None, map[]);
    AddTwo(([97], [98]), ([99], []), map[]);
  }

  lemma AddTwo(a: (bytes, bytes), b: (bytes, bytes), t: map<bytes, bytes>)
    ensures AddAll([a] + [b], t) == t[a.0 := a.1][b.0 := b.1]
  {
    assert ([a] + [b])[0] == a && ([a] + [b])[1..] == [b] && [b][1..] == [];
    assert AddAll([a] + [b], t) == AddAll([b], t[a.0 := a.1]);
  }

  lemma Plain(s: bytes)
    requires forall i :: 0 <= i < |s| ==> s[i] != PERCENT && s[i] != PLUS
    ensures Unescaped(s) == s
  {
    PlainFrom(s, 0);
    assert s[0..] == s;
  }

  lemma {:induction false} PlainFrom(s: bytes, i: nat)
    requires i <= |s| && forall k :: 0 <= k < |s| ==> s[k] != PERCENT && s[k] != PLUS
    ensures UnescapedFrom(s, i) == s[i..]
    decreases |s| - i
  {
    if i < |s| {
      PlainFrom(s, i + 1);
    }
  }
}
