/** Substituting captures of the request path into a template (src/lws_request.c). */
module Substitution {
  import opened Wrappers

  const DOLLAR: byte := 36

  /** A regcapturest: the offsets of a capture, or so < 0 if the group took no part in the match. */
  datatype Capture = Capture(so: int, eo: int)

  /** What regexec promises of its ten offsets. */
  predicate IsMatch(captures: seq<Capture>, src: bytes) {
    |captures| == 10 && forall d :: 0 <= d < 10 && captures[d].so >= 0 ==> captures[d].so <= captures[d].eo <= |src|
  }

  predicate IsReference(tmpl: bytes, i: nat) {
    i + 1 < |tmpl| && tmpl[i] == DOLLAR && 48 <= tmpl[i + 1] <= 57
  }

  /** The template from i on with its references replaced; None if one is to a group that took no part. */
  function SubstitutedFrom(tmpl: bytes, src: bytes, captures: seq<Capture>, i: nat): Option<bytes>
    requires IsMatch(captures, src) && i <= |tmpl|
    decreases |tmpl| - i
  {
    if i == |tmpl| then Some([])
    else if IsReference(tmpl, i) then
      var c, rest := captures[tmpl[i + 1] - 48], SubstitutedFrom(tmpl, src, captures, i + 2);
      if c.so < 0 || rest == None then None else Some(src[c.so..c.eo] + rest.value)
    else
      var rest := SubstitutedFrom(tmpl, src, captures, i + 1);
      if rest == None then None else Some([tmpl[i]] + rest.value)
  }

  function Substituted(tmpl: bytes, src: bytes, captures: seq<Capture>): Option<bytes>
    requires IsMatch(captures, src)
  {
    SubstitutedFrom(tmpl, src, captures, 0)
  }

  /** The first pass: the length, or None for a reference to nothing or a length that no size_t holds. */
  method Measure(tmpl: bytes, src: bytes, captures: seq<Capture>) returns (r: Option<nat>)
    requires IsMatch(captures, src)
    ensures var s := Substituted(tmpl, src, captures);
      r == if s.Some? && |s.value| <= SIZE_MAX then Some(|s.value|) else None
  {
    var len, i := 0, 0;
    while i < |tmpl|
      invariant 0 <= i <= |tmpl| && 0 <= len <= SIZE_MAX
      invariant Substituted(tmpl, src, captures).Some? <==> SubstitutedFrom(tmpl, src, captures, i).Some?
      invariant SubstitutedFrom(tmpl, src, captures, i).Some? ==>
        |Substituted(tmpl, src, captures).value| == len + |SubstitutedFrom(tmpl, src, captures, i).value|
    {
      if IsReference(tmpl, i) {
        var c := captures[tmpl[i + 1] - 48];
        if c.so < 0 {
          return None;
        }
        if c.eo - c.so > SIZE_MAX - len {
          return None;
        }
        len := len + (c.eo - c.so);
        i := i + 2;
        continue;
      }
      if len == SIZE_MAX {
        return None;
      }
      len, i := len + 1, i + 1;
    }
    return Some(len);
  }

  /** memcpy from the source into the new string. */
  method Copy(dest: array<byte>, p: nat, s: bytes)
    requires p + |s| <= dest.Length
    modifies dest
    ensures dest[..p + |s|] == old(dest[..p]) + s
  {
    forall i | 0 <= i < |s| {
      dest[p + i] := s[i];
    }
  }

  /** What a template that can be substituted gives from i on: a group or a byte, and the rest. */
  lemma PieceAt(tmpl: bytes, src: bytes, captures: seq<Capture>, i: nat)
    requires IsMatch(captures, src) && i < |tmpl| && SubstitutedFrom(tmpl, src, captures, i).Some?
    ensures var n := if IsReference(tmpl, i) then 2 else 1;
      SubstitutedFrom(tmpl, src, captures, i + n).Some?
    ensures IsReference(tmpl, i) ==> var c := captures[tmpl[i + 1] - 48];
      && c.so >= 0
      && SubstitutedFrom(tmpl, src, captures, i).value ==
         src[c.so..c.eo] + SubstitutedFrom(tmpl, src, captures, i + 2).value
    ensures !IsReference(tmpl, i) ==>
      SubstitutedFrom(tmpl, src, captures, i).value == [tmpl[i]] + SubstitutedFrom(tmpl, src, captures, i + 1).value
  {
  }

  lemma NothingLeft(tmpl: bytes, src: bytes, captures: seq<Capture>)
    requires IsMatch(captures, src)
    ensures SubstitutedFrom(tmpl, src, captures, |tmpl|) == Some([])
  {
  }

  /** lws_string_sub: the second pass fills exactly the length that the first has measured. */
  method StringSub(tmpl: bytes, src: bytes, captures: seq<Capture>) returns (dest: array?<byte>)
    requires IsMatch(captures, src)
    ensures var s := Substituted(tmpl, src, captures);
      if s.Some? && |s.value| <= SIZE_MAX then dest != null && fresh(dest) && dest[..] == s.value else dest == null
  {
    hide SubstitutedFrom;
    var len := Measure(tmpl, src, captures);
    if len == None {
      return null;
    }
    var to := new byte[len.value];
    var p, i := 0, 0;
    ghost var s := Substituted(tmpl, src, captures).value;
    while i < |tmpl|
      invariant 0 <= i <= |tmpl| && SubstitutedFrom(tmpl, src, captures, i).Some?
      invariant 0 <= p && p + |SubstitutedFrom(tmpl, src, captures, i).value| == to.Length
      invariant to[..p] + SubstitutedFrom(tmpl, src, captures, i).value == s
    {
      PieceAt(tmpl, src, captures, i);
      ghost var done, rest := to[..p], SubstitutedFrom(tmpl, src, captures, i).value;
      var piece, n := [tmpl[i]], 1;
      if IsReference(tmpl, i) {
        var c := captures[tmpl[i + 1] - 48];
        piece, n := src[c.so..c.eo], 2;
      }
      ghost var next := SubstitutedFrom(tmpl, src, captures, i + n).value;
      Copy(to, p, piece);
      Regrouped(done, piece, next);
      p, i := p + |piece|, i + n;
    }
    NothingLeft(tmpl, src, captures);
    assert to[..p] == to[..];
    return to;
  }

  lemma Regrouped(a: bytes, b: bytes, c: bytes)
    ensures (a + b) + c == a + (b + c)
  {
  }

  /** Templates can be put together, unless a reference would come about where they meet. */
  lemma {:induction false} SubstitutedConcat(a: bytes, b: bytes, src: bytes, captures: seq<Capture>, i: nat)
    requires IsMatch(captures, src) && i <= |a|
    requires a == [] || a[|a| - 1] != DOLLAR || b == [] || !(48 <= b[0] <= 57)
    ensures var sa, sb := SubstitutedFrom(a, src, captures, i), Substituted(b, src, captures);
      SubstitutedFrom(a + b, src, captures, i) == if sa == None || sb == None then None else Some(sa.value + sb.value)
    decreases |a| - i
  {
    if i == |a| {
      SubstitutedTail(a, b, src, captures, 0);
      var sb := Substituted(b, src, captures);
      assert sb.Some? ==> [] + sb.value == sb.value;
    } else {
      assert IsReference(a + b, i) <==> IsReference(a, i);
      var n := if IsReference(a, i) then 2 else 1;
      SubstitutedConcat(a, b, src, captures, i + n);
      var sa, sb := SubstitutedFrom(a, src, captures, i + n), Substituted(b, src, captures);
      if sa.Some? && sb.Some? {
        if n == 2 {
          var c := captures[a[i + 1] - 48];
          if c.so >= 0 {
            Regrouped(src[c.so..c.eo], sa.value, sb.value);
          }
        } else {
          Regrouped([a[i]], sa.value, sb.value);
        }
      }
    }
  }

  /** Two results put together; None if one of them is. */
  function Joined(a: Option<bytes>, b: Option<bytes>): Option<bytes> {
    if a == None || b == None then None else Some(a.value + b.value)
  }

  /** Between any two texts, $d stands for what group d has matched; it is an error if the group took no part. */
  lemma ReferenceIsGroup(a: bytes, b: bytes, src: bytes, captures: seq<Capture>, d: nat)
    requires IsMatch(captures, src) && d <= 9
    ensures var c := captures[d];
      Substituted(a + [36, 48 + d] + b, src, captures) ==
        if c.so < 0 then None
        else Joined(Joined(Substituted(a, src, captures), Some(src[c.so..c.eo])), Substituted(b, src, captures))
  {
    var r := [DOLLAR, 48 + d];
    assert a + r + b == a + (r + b);
    SubstitutedConcat(a, r + b, src, captures, 0);
    SubstitutedTail(r, b, src, captures, 0);
    assert IsReference(r + b, 0);
    assert SubstitutedFrom(r + b, src, captures, 2) == Substituted(b, src, captures);
    var sa, sb, c := Substituted(a, src, captures), Substituted(b, src, captures), captures[d];
    if sa.Some? && sb.Some? && c.so >= 0 {
      Regrouped(sa.value, src[c.so..c.eo], sb.value);
    }
  }

  /** A '$' that no digit follows is kept. */
  lemma DollarIsKept(a: bytes, b: bytes, src: bytes, captures: seq<Capture>)
    requires IsMatch(captures, src) && (b == [] || !(48 <= b[0] <= 57))
    ensures Substituted(a + [36] + b, src, captures) ==
      Joined(Joined(Substituted(a, src, captures), Some([36])), Substituted(b, src, captures))
  {
    var r := [DOLLAR];
    assert a + r + b == a + (r + b);
    SubstitutedConcat(a, r + b, src, captures, 0);
    SubstitutedTail(r, b, src, captures, 0);
    assert !IsReference(r + b, 0);
    assert SubstitutedFrom(r + b, src, captures, 1) == Substituted(b, src, captures);
    var sa, sb := Substituted(a, src, captures), Substituted(b, src, captures);
    if sa.Some? && sb.Some? {
      Regrouped(sa.value, r, sb.value);
    }
  }

  /** A text without '$' is its own substitution. */
  lemma PlainIsKept(a: bytes, src: bytes, captures: seq<Capture>)
    requires IsMatch(captures, src) && 36 !in a
    ensures Substituted(a, src, captures) == Some(a)
  {
    PlainFrom(a, src, captures, 0);
    assert a[0..] == a;
  }

  lemma {:induction false} PlainFrom(a: bytes, src: bytes, captures: seq<Capture>, i: nat)
    requires IsMatch(captures, src) && 36 !in a && i <= |a|
    ensures SubstitutedFrom(a, src, captures, i) == Some(a[i..])
    decreases |a| - i
  {
    if i < |a| {
      PlainFrom(a, src, captures, i + 1);
      assert a[i] in a;
      assert [a[i]] + a[i + 1..] == a[i..];
    }
  }

  /** The default main chunk: a path whose first group names the service. */
  lemma Example(src: bytes, captures: seq<Capture>)
    requires IsMatch(captures, src) && captures[1].so >= 0
    ensures Substituted(Ascii("services/$1.lua"), src, captures) ==
      Some(Ascii("services/") + src[captures[1].so..captures[1].eo] + Ascii(".lua"))
  {
    var a, b := Ascii("services/"), Ascii(".lua");
    assert Ascii("services/$1.lua") == a + [36, 48 + 1] + b;
    PlainIsKept(a, src, captures);
    PlainIsKept(b, src, captures);
    ReferenceIsGroup(a, b, src, captures, 1);
  }

  lemma {:induction false} SubstitutedTail(a: bytes, b: bytes, src: bytes, captures: seq<Capture>, i: nat)
    requires IsMatch(captures, src) && i <= |b|
    ensures SubstitutedFrom(a + b, src, captures, |a| + i) == SubstitutedFrom(b, src, captures, i)
    decreases |b| - i
  {
    if i < |b| {
      assert IsReference(a + b, |a| + i) <==> IsReference(b, i);
      assert (a + b)[|a| + i] == b[i] && (i + 1 < |b| ==> (a + b)[|a| + i + 1] == b[i + 1]);
      SubstitutedTail(a, b, src, captures, if IsReference(b, i) then i + 2 else i + 1);
    }
  }
}
