/** The double hashing probe sequence of lws_table_find and lws_table_insert. */
module Probing {
  import opened Primes

  /** The remainder of a by n, by subtraction: proofs over probes then stay linear. */
  function Residue(a: nat, n: nat): (r: nat)
    requires n > 0
    ensures r < n
    decreases a
  {
    if a < n then a else Residue(a - n, n)
  }

  lemma {:induction false} ResidueIsRemainder(a: nat, n: nat)
    requires n > 0
    ensures Residue(a, n) == a % n
  {
    if a >= n {
      ResidueIsRemainder(a - n, n);
      var k := (a - n) / n;
      assert a == (k + 1) * n + (a - n) % n;
      RemainderUnique(a, n, k + 1, (a - n) % n);
    } else {
      RemainderUnique(a, n, 0, a);
    }
  }

  lemma RemainderUnique(a: nat, n: nat, k: int, r: nat)
    requires n > 0 && a == k * n + r && r < n
    ensures a % n == r
  {
    assert a == (a / n) * n + a % n;
    assert (k - a / n) * n == k * n - (a / n) * n;
    NoMultipleWithin(k - a / n, n, r, a % n);
  }

  /** One probe step: (h + q) % alloc. */
  function Advance(alloc: nat, h: nat, q: nat): (r: nat)
    requires h < alloc && q < alloc
    ensures r < alloc
  {
    if h + q < alloc then h + q else h + q - alloc
  }

  lemma AdvanceIsRemainder(alloc: nat, h: nat, q: nat)
    requires h < alloc && q < alloc
    ensures (h + q) % alloc == Advance(alloc, h, q)
  {
    RemainderUnique(h + q, alloc, if h + q < alloc then 0 else 1, Advance(alloc, h, q));
  }

  /** `start` advanced by m steps of size q around alloc slots. */
  function Walk(alloc: nat, start: nat, q: nat, m: nat): (h: nat)
    requires start < alloc && q < alloc
    ensures h < alloc
  {
    if m == 0 then start else Advance(alloc, Walk(alloc, start, q, m - 1), q)
  }

  /** hash % alloc. */
  function Home(alloc: nat, hash: nat): (h: nat)
    requires alloc >= 3
    ensures h < alloc
  {
    Residue(hash, alloc)
  }

  /** hash % (alloc - 2) + 1. */
  function Step(alloc: nat, hash: nat): (q: nat)
    requires alloc >= 3
    ensures 1 <= q <= alloc - 2
  {
    Residue(hash, alloc - 2) + 1
  }

  /** The slot of a hash's probe number j; probe 0 is the home slot. */
  function Probe(alloc: nat, hash: nat, j: nat): (h: nat)
    requires alloc >= 3
    ensures h < alloc
  {
    Walk(alloc, Home(alloc, hash), Step(alloc, hash), j)
  }

  lemma {:induction false} WalkAdd(alloc: nat, start: nat, q: nat, i: nat, m: nat)
    requires start < alloc && q < alloc
    ensures Walk(alloc, Walk(alloc, start, q, i), q, m) == Walk(alloc, start, q, i + m)
  {
    if m > 0 {
      WalkAdd(alloc, start, q, i, m - 1);
    }
  }

  /** A walk in closed form, with its number of turns around the table. */
  lemma {:induction false} WalkClosed(alloc: nat, start: nat, q: nat, m: nat) returns (turns: int)
    requires start < alloc && q < alloc
    ensures Walk(alloc, start, q, m) == start + m * q - turns * alloc
  {
    if m == 0 {
      turns := 0;
    } else {
      var t := WalkClosed(alloc, start, q, m - 1);
      turns := if Walk(alloc, start, q, m - 1) + q < alloc then t else t + 1;
      assert (m - 1) * q + q == m * q;
      assert (t + 1) * alloc == t * alloc + alloc;
    }
  }

  /** The probes of a hash, by remainders. */
  lemma ProbeIsRemainder(alloc: nat, hash: nat, j: nat)
    requires alloc >= 3
    ensures Probe(alloc, hash, j) == (hash % alloc + j * (hash % (alloc - 2) + 1)) % alloc
  {
    ResidueIsRemainder(hash, alloc);
    ResidueIsRemainder(hash, alloc - 2);
    var start, q := Home(alloc, hash), Step(alloc, hash);
    var turns := WalkClosed(alloc, start, q, j);
    assert j * q >= 0;
    RemainderUnique(start + j * q, alloc, turns, Probe(alloc, hash, j));
  }

  /** Fewer than alloc steps never come back to the same slot. */
  lemma WalkInjective(alloc: nat, start: nat, q: nat, i: nat, j: nat)
    requires IsPrime(alloc) && start < alloc && 0 < q < alloc
    requires i < j && j - i < alloc
    ensures Walk(alloc, start, q, i) != Walk(alloc, start, q, j)
  {
    if Walk(alloc, start, q, i) == Walk(alloc, start, q, j) {
      var ti := WalkClosed(alloc, start, q, i);
      var tj := WalkClosed(alloc, start, q, j);
      assert (j - i) * q == j * q - i * q;
      assert (tj - ti) * alloc == tj * alloc - ti * alloc;
      EuclidBelow(alloc, j - i, q, tj - ti);
      NotDividesBelow(alloc, j - i);
    }
  }

  /** After alloc steps the walk is back where it started. */
  lemma WalkPeriod(alloc: nat, start: nat, q: nat)
    requires start < alloc && q < alloc
    ensures Walk(alloc, start, q, alloc) == start
  {
    var t := WalkClosed(alloc, start, q, alloc);
    assert q * alloc - t * alloc == (q - t) * alloc;
    NoMultipleWithin(q - t, alloc, start, Walk(alloc, start, q, alloc));
  }

  /** The first alloc probes meet no slot twice, and the next one is the home slot again. */
  lemma ProbesDistinct(alloc: nat, hash: nat)
    requires IsPrime(alloc) && alloc >= 3
    ensures forall i, j :: 0 <= i < j < alloc ==> Probe(alloc, hash, i) != Probe(alloc, hash, j)
    ensures Probe(alloc, hash, alloc) == Home(alloc, hash)
  {
    forall i, j | 0 <= i < j < alloc
      ensures Probe(alloc, hash, i) != Probe(alloc, hash, j)
    {
      WalkInjective(alloc, Home(alloc, hash), Step(alloc, hash), i, j);
    }
    WalkPeriod(alloc, Home(alloc, hash), Step(alloc, hash));
  }

  /** The first alloc probes meet every slot. */
  lemma ProbesCover(alloc: nat, hash: nat, s: nat) returns (j: nat)
    requires IsPrime(alloc) && alloc >= 3 && s < alloc
    ensures j < alloc && Probe(alloc, hash, j) == s
  {
    ProbesDistinct(alloc, hash);
    var path: seq<int> := seq(alloc, j requires 0 <= j < alloc => Probe(alloc, hash, j));
    Pigeonhole(path, alloc);
    assert s in path;
    j :| 0 <= j < |path| && path[j] == s;
  }

  /** The number of the probe that meets slot s. */
  ghost function PosOf(alloc: nat, hash: nat, s: nat): (j: nat)
    requires IsPrime(alloc) && alloc >= 3 && s < alloc
    ensures j < alloc && Probe(alloc, hash, j) == s
    ensures forall i :: 0 <= i < alloc && Probe(alloc, hash, i) == s ==> i == j
  {
    assert exists j: nat :: j < alloc && Probe(alloc, hash, j) == s by {
      var j := ProbesCover(alloc, hash, s);
    }
    ProbesDistinct(alloc, hash);
    var j: nat :| j < alloc && Probe(alloc, hash, j) == s;
    j
  }

  /** Walking on from probe number p is the same as probing further, around the table if need be. */
  lemma WalkOnFromProbe(alloc: nat, hash: nat, p: nat, m: nat)
    requires alloc >= 3
    ensures Walk(alloc, Probe(alloc, hash, p), Step(alloc, hash), m) == Probe(alloc, hash, p + m)
    ensures Probe(alloc, hash, p + alloc) == Probe(alloc, hash, p)
  {
    WalkAdd(alloc, Home(alloc, hash), Step(alloc, hash), p, m);
    WalkAdd(alloc, Home(alloc, hash), Step(alloc, hash), alloc, p);
    WalkPeriod(alloc, Home(alloc, hash), Step(alloc, hash));
  }
}
