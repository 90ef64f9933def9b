/** UTF-8 validation by automaton (lws_valid_utf8), against the grammar of RFC 3629, section 4. */
module Utf8 {
  import opened Wrappers

  // ----- the grammar

  predicate Tail(b: byte) {
    0x80 <= b <= 0xBF
  }

  /** UTF8-char of RFC 3629, section 4, alternative by alternative. */
  predicate IsChar(s: bytes) {
    || (|s| == 1 && s[0] <= 0x7F)
    || (|s| == 2 && 0xC2 <= s[0] <= 0xDF && Tail(s[1]))
    || (|s| == 3 && Tail(s[2]) && (
            || (s[0] == 0xE0 && 0xA0 <= s[1] <= 0xBF)
            || (0xE1 <= s[0] <= 0xEC && Tail(s[1]))
            || (s[0] == 0xED && 0x80 <= s[1] <= 0x9F)
            || (0xEE <= s[0] <= 0xEF && Tail(s[1]))))
    || (|s| == 4 && Tail(s[2]) && Tail(s[3]) && (
            || (s[0] == 0xF0 && 0x90 <= s[1] <= 0xBF)
            || (0xF1 <= s[0] <= 0xF3 && Tail(s[1]))
            || (s[0] == 0xF4 && 0x80 <= s[1] <= 0x8F)))
  }

  function Concat(parts: seq<bytes>): bytes {
    if parts == [] then [] else parts[0] + Concat(parts[1..])
  }

  ghost predicate AllChars(parts: seq<bytes>) {
    forall i :: 0 <= i < |parts| ==> IsChar(parts[i])
  }

  /** UTF8-octets = *( UTF8-char ) */
  ghost predicate IsUtf8(s: bytes) {
    exists parts :: AllChars(parts) && Concat(parts) == s
  }

  // ----- the automaton

  const ACCEPT: nat := 0
  const REJECT: nat := 12

  /** The first part of utf8d: byte classes. */
  function Class(b: byte): (c: nat)
    ensures c < 12
  {
    if b < 0x80 then 0
    else if b < 0x90 then 1
    else if b < 0xA0 then 9
    else if b < 0xC0 then 7
    else if b < 0xC2 then 8
    else if b < 0xE0 then 2
    else if b == 0xE0 then 10
    else if b < 0xED then 3
    else if b == 0xED then 4
    else if b < 0xF0 then 3
    else if b == 0xF0 then 11
    else if b < 0xF4 then 6
    else if b == 0xF4 then 5
    else 8
  }

  predicate IsState(state: nat) {
    state in {0, 12, 24, 36, 48, 60, 72, 84, 96}
  }

  /** The second part of utf8d, a row of twelve classes for each state. */
  function Next(state: nat, c: nat): (n: nat)
    requires IsState(state) && c < 12
    ensures IsState(n)
  {
    if state == 0 then
      if c == 0 then 0 else if c == 2 then 24 else if c == 3 then 36 else if c == 4 then 60
      else if c == 5 then 96 else if c == 6 then 84 else if c == 10 then 48 else if c == 11 then 72 else 12
    else if state == 24 then if c == 1 || c == 7 || c == 9 then 0 else 12
    else if state == 36 then if c == 1 || c == 7 || c == 9 then 24 else 12
    else if state == 48 then if c == 7 then 24 else 12
    else if state == 60 then if c == 1 || c == 9 then 24 else 12
    else if state == 72 then if c == 7 || c == 9 then 36 else 12
    else if state == 84 then if c == 1 || c == 7 || c == 9 then 36 else 12
    else if state == 96 then if c == 1 then 36 else 12
    else 12
  }

  /** The state after a whole input, without stopping early. */
  function Delta(state: nat, s: bytes): (n: nat)
    requires IsState(state)
    ensures IsState(n)
    decreases |s|
  {
    if s == [] then state else Delta(Next(state, Class(s[0])), s[1..])
  }

  /** Rejection is absorbing, which is why the source may stop at it. */
  lemma {:induction false} RejectAbsorbs(s: bytes)
    ensures Delta(REJECT, s) == REJECT
  {
    if s != [] {
      RejectAbsorbs(s[1..]);
    }
  }

  /** lws_valid_utf8. */
  method ValidUtf8(p: bytes) returns (rc: int)
    ensures rc == if IsUtf8(p) then 0 else -1
  {
    AcceptsExactlyUtf8(p);
    assert p[0..] == p;
    var state := ACCEPT;
    var i := 0;
    while i < |p|
      invariant 0 <= i <= |p| && IsState(state) && Delta(ACCEPT, p) == Delta(state, p[i..])
    {
      assert p[i..][1..] == p[i + 1..];
      state := Next(state, Class(p[i]));
      if state == REJECT {
        RejectAbsorbs(p[i + 1..]);
        return -1;
      }
      i := i + 1;
    }
    return if state == ACCEPT then 0 else -1;
  }

  // ----- automaton and grammar agree

  /** The automaton one byte further on. */
  lemma Unroll(state: nat, s: bytes, i: nat)
    requires IsState(state) && i <= |s|
    ensures i < |s| ==> Delta(state, s[i..]) == Delta(Next(state, Class(s[i])), s[i + 1..])
    ensures i == |s| ==> Delta(state, s[i..]) == state
    ensures Delta(REJECT, s[i..]) == REJECT
  {
    RejectAbsorbs(s[i..]);
    if i < |s| {
      assert s[i..][1..] == s[i + 1..];
    }
  }

  /** One character takes the automaton from its start state back to it. */
  lemma DeltaChar(s: bytes, rest: bytes)
    requires IsChar(s)
    ensures Delta(ACCEPT, s + rest) == Delta(ACCEPT, rest)
  {
    var t := s + rest;
    assert t[0..] == t && t[|s|..] == rest;
    var s1 := Next(ACCEPT, Class(t[0]));
    Unroll(ACCEPT, t, 0);
    if |s| >= 2 {
      var s2 := Next(s1, Class(t[1]));
      Unroll(s1, t, 1);
      if |s| >= 3 {
        var s3 := Next(s2, Class(t[2]));
        Unroll(s2, t, 2);
        if |s| >= 4 {
          Unroll(s3, t, 3);
        }
      }
    }
  }

  /** An accepted input that is not empty starts with a character, and the rest of it is accepted. */
  lemma FirstChar(s: bytes) returns (k: nat)
    requires Delta(ACCEPT, s) == ACCEPT && s != []
    ensures 1 <= k <= |s| && IsChar(s[..k]) && Delta(ACCEPT, s[k..]) == ACCEPT
  {
    assert s[0..] == s;
    k := if s[0] < 0x80 then 1 else if s[0] < 0xE0 then 2 else if s[0] < 0xF0 then 3 else 4;
    var s1 := Next(ACCEPT, Class(s[0]));
    Unroll(ACCEPT, s, 0);
    Unroll(s1, s, 1);
    if k >= 2 {
      var s2 := Next(s1, Class(s[1]));
      Unroll(s2, s, 2);
      if k >= 3 {
        var s3 := Next(s2, Class(s[2]));
        Unroll(s3, s, 3);
        if k >= 4 {
          Unroll(Next(s3, Class(s[3])), s, 4);
        }
      }
    }
  }

  lemma {:induction false} AcceptedIsUtf8(s: bytes)
    requires Delta(ACCEPT, s) == ACCEPT
    ensures IsUtf8(s)
    decreases |s|
  {
    if s == [] {
      assert AllChars([]) && Concat([]) == s;
    } else {
      var k := FirstChar(s);
      AcceptedIsUtf8(s[k..]);
      var parts :| AllChars(parts) && Concat(parts) == s[k..];
      var all := [s[..k]] + parts;
      assert all[1..] == parts;
      assert AllChars(all) && Concat(all) == s;
    }
  }

  lemma {:induction false} Utf8IsAccepted(parts: seq<bytes>)
    requires AllChars(parts)
    ensures Delta(ACCEPT, Concat(parts)) == ACCEPT
  {
    if parts != [] {
      DeltaChar(parts[0], Concat(parts[1..]));
      Utf8IsAccepted(parts[1..]);
    }
  }

  /** The automaton accepts exactly the UTF-8 octets of RFC 3629, whatever their length. */
  lemma AcceptsExactlyUtf8(s: bytes)
    ensures Delta(ACCEPT, s) == ACCEPT <==> IsUtf8(s)
  {
    if Delta(ACCEPT, s) == ACCEPT {
      AcceptedIsUtf8(s);
    }
    if IsUtf8(s) {
      var parts :| AllChars(parts) && Concat(parts) == s;
      Utf8IsAccepted(parts);
    }
  }

  lemma {:induction false} DeltaConcat(state: nat, s: bytes, t: bytes)
    requires IsState(state)
    ensures Delta(state, s + t) == Delta(Delta(state, s), t)
    decreases |s|
  {
    if s == [] {
      assert s + t == t;
    } else {
      assert (s + t)[1..] == s[1..] + t;
      DeltaConcat(Next(state, Class(s[0])), s[1..], t);
    }
  }

  /** Of two inputs, one of which is accepted first, the whole is accepted exactly when the other is. */
  lemma AcceptedAppend(s: bytes, t: bytes)
    requires IsUtf8(s)
    ensures IsUtf8(s + t) <==> IsUtf8(t)
  {
    AcceptsExactlyUtf8(s);
    AcceptsExactlyUtf8(t);
    AcceptsExactlyUtf8(s + t);
    DeltaConcat(ACCEPT, s, t);
  }
}
