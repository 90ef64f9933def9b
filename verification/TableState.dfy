/** The invariant of the slots, what a lookup finds under it, and what insertion does to it. */
module TableState {
  import opened Wrappers
  import opened Primes
  import opened Probing
  import opened Keys
  import opened Queue
  import opened QueueLaws
  import M = OrderedMap

  /** The test of lws_table_find; `strict` also asks for a SET slot, which the source does not. */
  ghost predicate Matches<V>(ci: bool, strict: bool, e: Entry<V>, key: bytes, hash: nat) {
    && e.state != Unused
    && (strict ==> e.state == Set)
    && e.hash == hash && |e.key| == |key| && Text(ci, e.key) == Text(ci, key)
  }

  /** The slot a lookup stops at from probe j on, or -1. */
  ghost function FindFrom<V>(slots: seq<Entry<V>>, ci: bool, strict: bool, key: bytes, hash: nat, j: nat): (r: int)
    requires |slots| >= 3
    ensures -1 <= r < |slots|
    ensures r >= 0 ==> Matches(ci, strict, slots[r], key, hash)
    decreases |slots| - j
  {
    if j >= |slots| || slots[Probe(|slots|, hash, j)].state == Unused then -1
    else if Matches(ci, strict, slots[Probe(|slots|, hash, j)], key, hash) then Probe(|slots|, hash, j)
    else FindFrom(slots, ci, strict, key, hash, j + 1)
  }

  /** No unused slot comes before s on the probe path of its own hash. */
  ghost predicate Placed<V>(slots: seq<Entry<V>>, s: nat)
    requires |slots| >= 3 && IsPrime(|slots|) && s < |slots|
  {
    forall i :: 0 <= i < PosOf(|slots|, slots[s].hash, s) ==>
      slots[Probe(|slots|, slots[s].hash, i)].state != Unused
  }

  ghost predicate IsTable<V>(slots: seq<Entry<V>>, order: seq<nat>) {
    && |slots| >= 3 && IsPrime(|slots|)
    && Distinct(order)
    && forall k :: 0 <= k < |order| ==> order[k] < |slots|
  }

  /**
   * The invariant of the slots: the SET slots are exactly those in `order`, each is placed, and each has a
   * value and the hash of its key. A slot `hole` that insertion has handed out, yet to be filled, is exempt.
   */
  ghost predicate WellPlaced<V>(slots: seq<Entry<V>>, ci: bool, order: seq<nat>, hole: int) {
    && IsTable(slots, order)
    && hole !in order
    && (forall s :: 0 <= s < |slots| && s != hole ==> (slots[s].state == Set <==> s in order))
    && HasValues(slots, order)
    && (forall k :: 0 <= k < |order| ==> slots[order[k]].hash == HashOf(ci, slots[order[k]].key))
    && (forall k :: 0 <= k < |order| ==> Placed(slots, order[k]))
  }

  ghost predicate HasValues<V>(slots: seq<Entry<V>>, order: seq<nat>) {
    forall k :: 0 <= k < |order| ==> order[k] < |slots| && slots[order[k]].value.Some?
  }

  /** What the table means: its listed entries in order. */
  ghost function Contents<V>(slots: seq<Entry<V>>, order: seq<nat>): (m: seq<M.Pair<V>>)
    requires HasValues(slots, order)
    ensures |m| == |order|
  {
    seq(|order|, k requires 0 <= k < |order| => M.Pair(slots[order[k]].key, slots[order[k]].value.value))
  }

  function Classifier(ci: bool): M.Classes {
    key => ClassOf(ci, key)
  }

  const NO_HOLE: int := -1

  // ----- lookup

  lemma {:induction false} FindFromReaches<V>(slots: seq<Entry<V>>, ci: bool, strict: bool, key: bytes, hash: nat,
                                              j: nat, s: nat)
    requires |slots| >= 3 && IsPrime(|slots|) && s < |slots|
    requires Matches(ci, strict, slots[s], key, hash) && Placed(slots, s)
    requires j <= PosOf(|slots|, hash, s)
    ensures FindFrom(slots, ci, strict, key, hash, j) >= 0
    decreases PosOf(|slots|, hash, s) - j
  {
    if j < PosOf(|slots|, hash, s) {
      FindFromReaches(slots, ci, strict, key, hash, j + 1, s);
    }
  }

  /** The entry a lookup looks for, if it is there, is somewhere on the path of the lookup. */
  lemma ListedIsFound<V>(slots: seq<Entry<V>>, ci: bool, strict: bool, order: seq<nat>, key: bytes, k: nat)
    requires WellPlaced(slots, ci, order, NO_HOLE)
    requires k < |order| && Same(ci, slots[order[k]].key, key)
    ensures FindFrom(slots, ci, strict, key, HashOf(ci, key), 0) >= 0
  {
    FindFromReaches(slots, ci, strict, key, HashOf(ci, key), 0, order[k]);
  }

  /**
   * What a lookup means: when it stops at a SET slot, that is the slot of the one entry with the key; when
   * it finds nothing, no entry has the key. Stopping at a DELETED slot, which only a lookup that is not
   * strict can do, means neither.
   */
  lemma FindMeansLookup<V>(slots: seq<Entry<V>>, ci: bool, strict: bool, order: seq<nat>, key: bytes)
    requires WellPlaced(slots, ci, order, NO_HOLE) && M.Unique(Classifier(ci), Contents(slots, order))
    ensures var r, i := FindFrom(slots, ci, strict, key, HashOf(ci, key), 0),
                        M.IndexOf(Classifier(ci), Contents(slots, order), key);
      && (r == -1 ==> i == -1)
      && (r >= 0 && slots[r].state == Set ==> i >= 0 && r == order[i])
      && (r >= 0 && strict ==> slots[r].state == Set)
  {
    var c, m := Classifier(ci), Contents(slots, order);
    var r, i := FindFrom(slots, ci, strict, key, HashOf(ci, key), 0), M.IndexOf(c, m, key);
    if i >= 0 {
      ListedIsFound(slots, ci, strict, order, key, i);
    }
    if r >= 0 && slots[r].state == Set {
      var k :| 0 <= k < |order| && order[k] == r;
      assert M.Alike(c, m[k].key, key);
      M.IndexIs(c, m, key, k);
    }
  }

  // ----- insertion

  /** Some probe of any hash meets a slot that is not SET, when fewer entries than slots are listed. */
  lemma FreeProbe<V>(slots: seq<Entry<V>>, ci: bool, order: seq<nat>, hash: nat) returns (j: nat)
    requires WellPlaced(slots, ci, order, NO_HOLE) && |order| < |slots|
    ensures j < |slots| && slots[Probe(|slots|, hash, j)].state != Set
  {
    var s := LeftOut(order, |slots|);
    j := ProbesCover(|slots|, hash, s);
  }

  /** Placement only asks for slots not to be unused, so it survives as long as no slot is emptied. */
  lemma PlacedKept<V>(slots: seq<Entry<V>>, slots': seq<Entry<V>>, s: nat)
    requires |slots| == |slots'| >= 3 && IsPrime(|slots|) && s < |slots|
    requires slots'[s].hash == slots[s].hash
    requires forall i :: 0 <= i < |slots| && slots[i].state != Unused ==> slots'[i].state != Unused
    requires Placed(slots, s)
    ensures Placed(slots', s)
  {
  }

  /** The m-th slot after s on the probe path of the entry in s. */
  function Onward<V>(slots: seq<Entry<V>>, s: nat, m: nat): (h: nat)
    requires |slots| >= 3 && s < |slots|
    ensures h < |slots|
  {
    Walk(|slots|, s, Step(|slots|, slots[s].hash), m)
  }

  /** `to` is the first slot after `from`, ext steps on, that is not SET. */
  ghost predicate FreeAfter<V>(slots: seq<Entry<V>>, from: nat, ext: nat, to: nat)
    requires |slots| >= 3
  {
    && from < |slots| && slots[from].state == Set && 1 <= ext
    && to == Onward(slots, from, ext) && slots[to].state != Set
    && forall m :: 1 <= m < ext ==> slots[Onward(slots, from, m)].state == Set
  }

  lemma OnwardPeriod<V>(slots: seq<Entry<V>>, from: nat, m: nat)
    requires |slots| >= 3 && from < |slots|
    ensures Onward(slots, from, m + |slots|) == Onward(slots, from, m)
    ensures Onward(slots, from, 0) == from
  {
    var n, q := |slots|, Step(|slots|, slots[from].hash);
    WalkAdd(n, from, q, n, m);
    WalkPeriod(n, from, q);
  }

  /**
   * An entry moved on to the next free slot of its own path stays reachable, even when the path has
   * wrapped around to slots before its old one, and its path grows by at most the steps it moved.
   */
  lemma MovedIsPlaced<V>(slots: seq<Entry<V>>, from: nat, ext: nat, to: nat)
    requires |slots| >= 3 && IsPrime(|slots|) && FreeAfter(slots, from, ext, to)
    requires Placed(slots, from)
    ensures Placed(slots[to := slots[from]], to)
    ensures PosOf(|slots|, slots[from].hash, to) <= PosOf(|slots|, slots[from].hash, from) + ext
  {
    var n, hash := |slots|, slots[from].hash;
    var p, q := PosOf(n, hash, from), Step(n, hash);
    var slots' := slots[to := slots[from]];
    forall m | 0 <= m <= ext
      ensures Onward(slots, from, m) == Probe(n, hash, p + m)
    {
      WalkOnFromProbe(n, hash, p, m);
    }
    if ext >= n {
      OnwardPeriod(slots, from, ext - n);
      assert false;
    }
    if p + ext >= n {
      WalkOnFromProbe(n, hash, p + ext - n, 0);
      assert PosOf(n, hash, to) == p + ext - n;
    } else {
      assert PosOf(n, hash, to) == p + ext;
      forall i | 0 <= i < p + ext
        ensures slots'[Probe(n, hash, i)].state != Unused
      {
        if i > p {
          assert Onward(slots, from, i - p) == Probe(n, hash, i);
        }
      }
    }
  }

  // ----- the choice Brent's method makes

  /** Plain double hashing would take `worst` probes to reach a slot that is not SET. */
  ghost predicate WorstCase<V>(slots: seq<Entry<V>>, hash: nat, worst: nat)
    requires |slots| >= 3
  {
    && 1 <= worst <= |slots|
    && slots[Probe(|slots|, hash, worst - 1)].state != Set
    && forall i :: 0 <= i < worst - 1 ==> slots[Probe(|slots|, hash, i)].state == Set
  }

  /** Taking probe number len, by moving its entry on by ext steps, costs less than the worst case. */
  ghost predicate Cheaper<V>(slots: seq<Entry<V>>, hash: nat, worst: nat, len: nat, ext: nat)
    requires |slots| >= 3
  {
    && 1 <= len <= worst - 2 && len + ext < worst
    && FreeAfter(slots, Probe(|slots|, hash, len - 1), ext, Onward(slots, Probe(|slots|, hash, len - 1), ext))
  }

  /** The slot for a new entry is its probe number len; the entry there, if ext > 0, moves on by ext steps. */
  datatype Plan = Plan(worst: nat, len: nat, ext: nat)

  /** Of the probes before number l, the last to have something cheaper has it at (k, m). */
  ghost predicate LastCheaper<V>(slots: seq<Entry<V>>, hash: nat, worst: nat, l: nat, k: nat, m: nat)
    requires |slots| >= 3
  {
    && k < l && Cheaper(slots, hash, worst, k, m)
    && forall k': nat, m': nat :: k < k' < l ==> !Cheaper(slots, hash, worst, k', m')
  }

  /** A scan over the probes that, once it has found (k, m), goes on as far as probe m is not stopped before l. */
  ghost predicate ScanReaches<V>(slots: seq<Entry<V>>, hash: nat, worst: nat, l: nat)
    requires |slots| >= 3
  {
    forall l': nat, k: nat, m: nat :: l' <= l && LastCheaper(slots, hash, worst, l', k, m) ==> l' < m
  }

  /**
   * The plan of lws_table_insert: relocate exactly when something cheaper than the worst case exists, and
   * then take the last find of a scan that a find at distance m stops at probe m.
   */
  ghost predicate IsPlan<V>(slots: seq<Entry<V>>, hash: nat, plan: Plan)
    requires |slots| >= 3
  {
    && WorstCase(slots, hash, plan.worst)
    && (plan.ext == 0 ==>
          && plan.len == plan.worst
          && forall l: nat, m: nat :: !Cheaper(slots, hash, plan.worst, l, m))
    && (plan.ext > 0 ==>
          && Cheaper(slots, hash, plan.worst, plan.len, plan.ext)
          && ScanReaches(slots, hash, plan.worst, plan.len)
          && forall l: nat, m: nat :: plan.len < l < plan.ext ==> !Cheaper(slots, hash, plan.worst, l, m))
  }

  lemma FreeAfterUnique<V>(slots: seq<Entry<V>>, from: nat, m1: nat, m2: nat)
    requires |slots| >= 3 && from < |slots|
    requires FreeAfter(slots, from, m1, Onward(slots, from, m1)) && FreeAfter(slots, from, m2, Onward(slots, from, m2))
    ensures m1 == m2
  {
  }

  lemma WorstCaseUnique<V>(slots: seq<Entry<V>>, hash: nat, a: nat, b: nat)
    requires |slots| >= 3 && WorstCase(slots, hash, a) && WorstCase(slots, hash, b)
    ensures a == b
  {
  }

  /** What the scan knows when it comes to probe l; `best` is its latest find, or has ext 0. */
  ghost predicate Scanned<V>(slots: seq<Entry<V>>, hash: nat, l: nat, best: Plan)
    requires |slots| >= 3
  {
    && (best.ext == 0 ==> forall k: nat, m: nat :: k < l ==> !Cheaper(slots, hash, best.worst, k, m))
    && (best.ext > 0 ==>
          && best.len < l
          && Cheaper(slots, hash, best.worst, best.len, best.ext)
          && ScanReaches(slots, hash, best.worst, best.len)
          && forall k: nat, m: nat :: best.len < k < l ==> !Cheaper(slots, hash, best.worst, k, m))
  }

  lemma ScanFinds<V>(slots: seq<Entry<V>>, hash: nat, l: nat, best: Plan, m: nat)
    requires |slots| >= 3 && Scanned(slots, hash, l, best) && Cheaper(slots, hash, best.worst, l, m)
    requires best.ext > 0 ==> l < best.ext
    ensures Scanned(slots, hash, l + 1, Plan(best.worst, l, m))
  {
    forall l': nat, k: nat, m': nat | l' <= l && LastCheaper(slots, hash, best.worst, l', k, m')
      ensures l' < m'
    {
      if best.ext > 0 && l' > best.len {
        if k == best.len {
          FreeAfterUnique(slots, Probe(|slots|, hash, k - 1), best.ext, m');
        }
      }
    }
  }

  lemma ScanPasses<V>(slots: seq<Entry<V>>, hash: nat, l: nat, best: Plan)
    requires |slots| >= 3 && Scanned(slots, hash, l, best)
    requires forall m: nat :: !Cheaper(slots, hash, best.worst, l, m)
    ensures Scanned(slots, hash, l + 1, best)
  {
  }

  /** The scan ends at the last probe but one, or when its find is no farther away than it has come. */
  lemma ScanEnds<V>(slots: seq<Entry<V>>, hash: nat, l: nat, best: Plan)
    requires |slots| >= 3 && Scanned(slots, hash, l, best) && WorstCase(slots, hash, best.worst)
    requires l >= best.worst - 1 || (best.ext > 0 && l >= best.ext)
    requires best.ext == 0 ==> best.len == best.worst
    ensures IsPlan(slots, hash, best)
  {
  }

  /** Past a find, the first later one stops the scan short or is scanned. */
  lemma {:induction false} NextCheaper<V>(slots: seq<Entry<V>>, hash: nat, worst: nat, k: nat, m: nat, l: nat)
    requires |slots| >= 3 && k < l
    requires Cheaper(slots, hash, worst, k, m)
    requires exists m': nat :: Cheaper(slots, hash, worst, l, m')
    requires ScanReaches(slots, hash, worst, l)
    ensures exists l': nat, m': nat :: k < l' < m && Cheaper(slots, hash, worst, l', m')
    decreases l
  {
    if LastCheaper(slots, hash, worst, l, k, m) {
    } else {
      var l': nat, m': nat :| k < l' < l && Cheaper(slots, hash, worst, l', m');
      NextCheaper(slots, hash, worst, k, m, l');
    }
  }

  /** The conditions on the plan leave no choice. */
  lemma PlanUnique<V>(slots: seq<Entry<V>>, hash: nat, a: Plan, b: Plan)
    requires |slots| >= 3 && IsPlan(slots, hash, a) && IsPlan(slots, hash, b)
    ensures a == b
  {
    WorstCaseUnique(slots, hash, a.worst, b.worst);
    if a.ext > 0 && b.ext > 0 {
      if a.len < b.len {
        NextCheaper(slots, hash, a.worst, a.len, a.ext, b.len);
      } else if b.len < a.len {
        NextCheaper(slots, hash, a.worst, b.len, b.ext, a.len);
      } else {
        FreeAfterUnique(slots, Probe(|slots|, hash, a.len - 1), a.ext, b.ext);
      }
    }
  }

  // ----- the state after insertion

  ghost function Target<V>(slots: seq<Entry<V>>, hash: nat, plan: Plan): (r: nat)
    requires |slots| >= 3 && plan.len >= 1
    ensures r < |slots|
  {
    Probe(|slots|, hash, plan.len - 1)
  }

  /** The slots and the order after insertion has made room at Target, leaving it as a hole. */
  ghost predicate MadeRoom<V>(slots: seq<Entry<V>>, order: seq<nat>, hash: nat, plan: Plan,
                              slots': seq<Entry<V>>, order': seq<nat>)
    requires |slots| >= 3
  {
    && IsPlan(slots, hash, plan) && |slots'| == |slots| && |order'| == |order|
    && (plan.ext == 0 ==> SameCores(slots, slots') && order' == order)
    && (plan.ext > 0 ==>
          var from := Target(slots, hash, plan);
          var to := Onward(slots, from, plan.ext);
          && SameCores(slots[to := slots[from]], slots')
          && exists k :: 0 <= k < |order| && order[k] == from && order' == order[k := to])
  }

  lemma WellPlacedCores<V>(slots: seq<Entry<V>>, slots': seq<Entry<V>>, ci: bool, order: seq<nat>, hole: int)
    requires SameCores(slots, slots') && WellPlaced(slots, ci, order, hole)
    ensures WellPlaced(slots', ci, order, hole)
  {
    forall k | 0 <= k < |order|
      ensures Placed(slots', order[k])
    {
      PlacedKept(slots, slots', order[k]);
    }
  }

  lemma MovedWellPlaced<V>(slots: seq<Entry<V>>, ci: bool, order: seq<nat>, k: nat, ext: nat)
    requires WellPlaced(slots, ci, order, NO_HOLE) && k < |order|
    requires FreeAfter(slots, order[k], ext, Onward(slots, order[k], ext))
    ensures var to := Onward(slots, order[k], ext);
      WellPlaced(slots[to := slots[order[k]]], ci, order[k := to], order[k])
  {
    var from, to := order[k], Onward(slots, order[k], ext);
    var slots', order' := slots[to := slots[from]], order[k := to];
    MovedIsPlaced(slots, from, ext, to);
    forall i | 0 <= i < |order'|
      ensures Placed(slots', order'[i])
    {
      if i != k {
        PlacedKept(slots, slots', order[i]);
      }
    }
    assert order'[k] == to;
    forall s | 0 <= s < |slots'| && s != from
      ensures slots'[s].state == Set <==> s in order'
    {
      if s in order {
        var i :| 0 <= i < |order| && order[i] == s;
        assert order'[i] == s;
      }
    }
  }

  /** What a plan says about the probes before its target, and about the way on from it. */
  lemma PlanShape<V>(slots: seq<Entry<V>>, hash: nat, plan: Plan)
    requires |slots| >= 3 && IsPlan(slots, hash, plan)
    ensures 1 <= plan.len <= |slots|
    ensures forall i :: 0 <= i < plan.len - 1 ==> slots[Probe(|slots|, hash, i)].state != Unused
    ensures plan.ext == 0 ==> slots[Target(slots, hash, plan)].state != Set
    ensures var from := Target(slots, hash, plan);
      plan.ext > 0 ==> FreeAfter(slots, from, plan.ext, Onward(slots, from, plan.ext))
  {
    hide ScanReaches, LastCheaper;
  }

  lemma RoomShape<V>(slots: seq<Entry<V>>, order: seq<nat>, hash: nat, plan: Plan,
                     slots': seq<Entry<V>>, order': seq<nat>)
    requires |slots| >= 3 && MadeRoom(slots, order, hash, plan, slots', order')
    ensures plan.len >= 1 && |slots'| == |slots|
  {
    PlanShape(slots, hash, plan);
  }

  /** Making room keeps the invariant and every listed entry, with the target as the one exempt slot. */
  lemma MadeRoomWellPlaced<V>(slots: seq<Entry<V>>, ci: bool, order: seq<nat>, hash: nat, plan: Plan,
                              slots': seq<Entry<V>>, order': seq<nat>)
    requires WellPlaced(slots, ci, order, NO_HOLE)
    requires MadeRoom(slots, order, hash, plan, slots', order')
    ensures WellPlaced(slots', ci, order', Target(slots, hash, plan))
    ensures forall k :: 0 <= k < |order| ==> SameCore(slots[order[k]], slots'[order'[k]])
    ensures forall i :: 0 <= i < plan.len - 1 ==> slots'[Probe(|slots|, hash, i)].state != Unused
  {
    hide IsPlan, FreeAfter, Placed, Probe, Onward;
    PlanShape(slots, hash, plan);
    var from := Target(slots, hash, plan);
    if plan.ext == 0 {
      assert from !in order;
      WellPlacedCores(slots, slots', ci, order, NO_HOLE);
    } else {
      var to := Onward(slots, from, plan.ext);
      var k :| 0 <= k < |order| && order[k] == from && order' == order[k := to];
      MovedWellPlaced(slots, ci, order, k, plan.ext);
      WellPlacedCores(slots[to := slots[from]], slots', ci, order', from);
    }
  }

  /** Filling the hole with a fresh entry completes the insertion; `order'` lists it at either end. */
  lemma FilledWellPlaced<V>(slots: seq<Entry<V>>, ci: bool, order: seq<nat>, r: nat, len: nat,
                            slots': seq<Entry<V>>, order': seq<nat>)
    requires |slots| >= 3 && |slots'| == |slots| && r < |slots|
    requires WellPlaced(slots, ci, order, r)
    requires forall i :: 0 <= i < |slots| && i != r ==> SameCore(slots[i], slots'[i])
    requires slots'[r].state == Set && slots'[r].value.Some? && slots'[r].hash == HashOf(ci, slots'[r].key)
    requires 1 <= len <= |slots| && r == Probe(|slots|, slots'[r].hash, len - 1)
    requires forall i :: 0 <= i < len - 1 ==> slots[Probe(|slots|, slots'[r].hash, i)].state != Unused
    requires order' == order + [r] || order' == [r] + order
    ensures WellPlaced(slots', ci, order', NO_HOLE)
  {
    HolePlaced(slots, r, len, slots');
    AddedAtEnd(order, r, order');
    hide Placed, IsPrime, HashOf, Probe;
    forall k | 0 <= k < |order'|
      ensures order'[k] < |slots'| && slots'[order'[k]].value.Some? && Placed(slots', order'[k])
      ensures slots'[order'[k]].hash == HashOf(ci, slots'[order'[k]].key)
    {
      if order'[k] != r {
        ListedKept(slots, slots', ci, order, r, order'[k]);
      }
    }
  }

  lemma AddedAtEnd(order: seq<nat>, r: nat, order': seq<nat>)
    requires Distinct(order) && r !in order
    requires order' == order + [r] || order' == [r] + order
    ensures Distinct(order') && forall s :: s in order' <==> s in order || s == r
    ensures forall k :: 0 <= k < |order'| ==> order'[k] in order || order'[k] == r
  {
  }

  /** A listed entry in another slot than the hole stays as it is when the hole is filled. */
  lemma ListedKept<V>(slots: seq<Entry<V>>, slots': seq<Entry<V>>, ci: bool, order: seq<nat>, r: nat, s: nat)
    requires WellPlaced(slots, ci, order, r) && |slots'| == |slots| && r < |slots| && s in order
    requires forall i :: 0 <= i < |slots| && i != r ==> SameCore(slots[i], slots'[i])
    requires slots'[r].state == Set
    ensures s < |slots| && s != r && slots'[s].value.Some? && Placed(slots', s)
    ensures slots'[s].hash == HashOf(ci, slots'[s].key)
  {
    hide Placed, IsPrime, HashOf;
    var k :| 0 <= k < |order| && order[k] == s;
    PlacedKept(slots, slots', s);
  }

  lemma HolePlaced<V>(slots: seq<Entry<V>>, r: nat, len: nat, slots': seq<Entry<V>>)
    requires |slots| >= 3 && IsPrime(|slots|) && |slots'| == |slots| && r < |slots|
    requires forall i :: 0 <= i < |slots| && i != r ==> SameCore(slots[i], slots'[i])
    requires 1 <= len <= |slots| && r == Probe(|slots|, slots'[r].hash, len - 1)
    requires forall i :: 0 <= i < len - 1 ==> slots[Probe(|slots|, slots'[r].hash, i)].state != Unused
    requires slots'[r].state == Set
    ensures Placed(slots', r)
  {
    assert PosOf(|slots|, slots'[r].hash, r) == len - 1;
  }

  /** The hole is filled with a fresh entry for `hash`, and nothing else but links changes. */
  ghost predicate Filled<V>(slots1: seq<Entry<V>>, r: nat, ci: bool, hash: nat, slots2: seq<Entry<V>>) {
    && |slots2| == |slots1| && r < |slots1|
    && (forall i :: 0 <= i < |slots1| && i != r ==> SameCore(slots1[i], slots2[i]))
    && slots2[r].state == Set && slots2[r].value.Some?
    && slots2[r].hash == hash == HashOf(ci, slots2[r].key)
  }

  /** Making room and filling it keeps the invariant. */
  lemma InsertedWellPlaced<V>(slots: seq<Entry<V>>, ci: bool, order: seq<nat>, hash: nat, plan: Plan,
                              slots1: seq<Entry<V>>, order1: seq<nat>, slots2: seq<Entry<V>>, order2: seq<nat>)
    requires WellPlaced(slots, ci, order, NO_HOLE)
    requires MadeRoom(slots, order, hash, plan, slots1, order1)
    requires Filled(slots1, Target(slots, hash, plan), ci, hash, slots2)
    requires order2 == order1 + [Target(slots, hash, plan)] || order2 == [Target(slots, hash, plan)] + order1
    ensures WellPlaced(slots2, ci, order2, NO_HOLE)
  {
    MadeRoomWellPlaced(slots, ci, order, hash, plan, slots1, order1);
    FilledWellPlaced(slots1, ci, order1, Target(slots, hash, plan), plan.len, slots2, order2);
  }

  /** Making room and filling it adds one entry, at the end the list was extended at. */
  lemma InsertedContents<V>(slots: seq<Entry<V>>, ci: bool, order: seq<nat>, hash: nat, plan: Plan,
                            slots1: seq<Entry<V>>, order1: seq<nat>, slots2: seq<Entry<V>>)
    requires WellPlaced(slots, ci, order, NO_HOLE)
    requires MadeRoom(slots, order, hash, plan, slots1, order1)
    requires Filled(slots1, Target(slots, hash, plan), ci, hash, slots2)
    ensures var r := Target(slots, hash, plan);
      var p := M.Pair(slots2[r].key, slots2[r].value.value);
      && HasValues(slots2, order1 + [r]) && Contents(slots2, order1 + [r]) == Contents(slots, order) + [p]
      && HasValues(slots2, [r] + order1) && Contents(slots2, [r] + order1) == [p] + Contents(slots, order)
  {
    var r := Target(slots, hash, plan);
    MadeRoomWellPlaced(slots, ci, order, hash, plan, slots1, order1);
    forall k | 0 <= k < |order|
      ensures order1[k] < |slots2| && SameCore(slots[order[k]], slots2[order1[k]])
    {
      assert order1[k] in order1 && order1[k] != r;
    }
    ContentsExtended(slots, order, slots2, order1, r);
  }

  lemma ContentsExtended<V>(slots: seq<Entry<V>>, order: seq<nat>, slots2: seq<Entry<V>>, order1: seq<nat>, r: nat)
    requires HasValues(slots, order) && |order1| == |order|
    requires forall k :: 0 <= k < |order| ==> order1[k] < |slots2| && SameCore(slots[order[k]], slots2[order1[k]])
    requires r < |slots2| && slots2[r].value.Some?
    ensures var p := M.Pair(slots2[r].key, slots2[r].value.value);
      && HasValues(slots2, order1 + [r]) && Contents(slots2, order1 + [r]) == Contents(slots, order) + [p]
      && HasValues(slots2, [r] + order1) && Contents(slots2, [r] + order1) == [p] + Contents(slots, order)
  {
  }

  // ----- the state after the other changes

  /** A tombstone, with whatever its key and its value read as now. */
  function Tombstone<V>(e: Entry<V>, key: bytes, value: Option<V>): Entry<V> {
    e.(state := Deleted, key := key, value := value)
  }

  /** Removing an entry leaves a tombstone: the other entries stay reachable past it. */
  lemma RemovedWellPlaced<V>(slots: seq<Entry<V>>, ci: bool, order: seq<nat>, k: nat, slots': seq<Entry<V>>,
                             key: bytes, value: Option<V>)
    requires WellPlaced(slots, ci, order, NO_HOLE) && k < |order|
    requires SameCores(slots[order[k] := Tombstone(slots[order[k]], key, value)], slots')
    ensures WellPlaced(slots', ci, Without(order, k), NO_HOLE)
    ensures Contents(slots', Without(order, k)) == M.Without(Contents(slots, order), k)
  {
    hide Placed, IsPrime, HashOf;
    var order' := Without(order, k);
    forall i | 0 <= i < |order'|
      ensures order'[i] in order && order'[i] != order[k] && Placed(slots', order'[i])
      ensures order'[i] == order[if i < k then i else i + 1]
    {
      PlacedKept(slots, slots', order'[i]);
    }
    forall s | 0 <= s < |slots'|
      ensures slots'[s].state == Set <==> s in order'
    {
      if s in order && s != order[k] {
        var i :| 0 <= i < |order| && order[i] == s;
        assert order'[if i < k then i else i - 1] == s;
      }
    }
  }

  /** The list may be reordered. */
  lemma ReorderedWellPlaced<V>(slots: seq<Entry<V>>, ci: bool, order: seq<nat>, slots': seq<Entry<V>>, order': seq<nat>)
    requires WellPlaced(slots, ci, order, NO_HOLE) && SameCores(slots, slots')
    requires Distinct(order') && forall s :: s in order' <==> s in order
    ensures WellPlaced(slots', ci, order', NO_HOLE)
  {
    WellPlacedCores(slots, slots', ci, order, NO_HOLE);
    hide Placed, IsPrime, HashOf;
    forall i | 0 <= i < |order'|
      ensures exists k :: 0 <= k < |order| && order[k] == order'[i]
    {
      assert order'[i] in order;
    }
  }

  lemma MovedToEndOrder(order: seq<nat>, k: nat)
    requires Distinct(order) && k < |order|
    ensures var order' := Without(order, k) + [order[k]];
      Distinct(order') && forall s :: s in order' <==> s in order
  {
    var order' := Without(order, k) + [order[k]];
    forall i | 0 <= i < |order'|
      ensures order'[i] in order
    {
    }
    forall i | 0 <= i < |order|
      ensures order[i] in order'
    {
      assert order'[if i == k then |order| - 1 else if i < k then i else i - 1] == order[i];
    }
  }

  /** Moving an entry to the end of the list. */
  lemma MovedToEndWellPlaced<V>(slots: seq<Entry<V>>, ci: bool, order: seq<nat>, k: nat, slots': seq<Entry<V>>)
    requires WellPlaced(slots, ci, order, NO_HOLE) && k < |order| && SameCores(slots, slots')
    ensures WellPlaced(slots', ci, Without(order, k) + [order[k]], NO_HOLE)
    ensures var m := Contents(slots, order);
      Contents(slots', Without(order, k) + [order[k]]) == M.Without(m, k) + [m[k]]
  {
    MovedToEndOrder(order, k);
    ReorderedWellPlaced(slots, ci, order, slots', Without(order, k) + [order[k]]);
  }

  lemma UpdatedWellPlaced<V>(slots: seq<Entry<V>>, ci: bool, order: seq<nat>, k: nat, value: V)
    requires WellPlaced(slots, ci, order, NO_HOLE) && k < |order|
    ensures var slots' := slots[order[k] := slots[order[k]].(value := Some(value))];
      && WellPlaced(slots', ci, order, NO_HOLE)
      && Contents(slots', order) == Contents(slots, order)[k := M.Pair(slots[order[k]].key, value)]
  {
    var slots' := slots[order[k] := slots[order[k]].(value := Some(value))];
    forall i | 0 <= i < |order|
      ensures Placed(slots', order[i])
    {
      PlacedKept(slots, slots', order[i]);
    }
  }

  lemma EmptyWellPlaced<V>(slots: seq<Entry<V>>, ci: bool)
    requires |slots| >= 3 && IsPrime(|slots|)
    requires forall i :: 0 <= i < |slots| ==> slots[i].state != Set
    ensures WellPlaced(slots, ci, [], NO_HOLE) && Contents(slots, []) == []
  {
  }

  // ----- what insertion costs

  /** The probes that finding each of the first n listed entries takes, added up. */
  ghost function ProbesUpTo<V>(slots: seq<Entry<V>>, order: seq<nat>, n: nat): nat
    requires IsTable(slots, order) && n <= |order|
  {
    if n == 0 then 0 else
    var s := order[n - 1];
    ProbesUpTo(slots, order, n - 1) + PosOf(|slots|, slots[s].hash, s) + 1
  }

  ghost function TotalProbes<V>(slots: seq<Entry<V>>, order: seq<nat>): nat
    requires IsTable(slots, order)
  {
    ProbesUpTo(slots, order, |order|)
  }

  lemma {:induction false} TotalProbesKept<V>(slots: seq<Entry<V>>, slots': seq<Entry<V>>, order: seq<nat>, n: nat)
    requires IsTable(slots, order) && IsTable(slots', order) && |slots'| == |slots| && n <= |order|
    requires forall k :: 0 <= k < |order| ==> slots'[order[k]].hash == slots[order[k]].hash
    ensures ProbesUpTo(slots', order, n) == ProbesUpTo(slots, order, n)
  {
    if n > 0 {
      TotalProbesKept(slots, slots', order, n - 1);
    }
  }

  lemma {:induction false} TotalProbesMoved<V>(slots: seq<Entry<V>>, slots': seq<Entry<V>>, order: seq<nat>, k: nat,
                                               to: nat, n: nat)
    requires IsTable(slots, order) && |slots'| == |slots| && k < |order| && to < |slots| && n <= |order|
    requires IsTable(slots', order[k := to])
    requires forall i :: 0 <= i < |order| && i != k ==> slots'[order[i]].hash == slots[order[i]].hash
    requires slots'[to].hash == slots[order[k]].hash
    ensures var hash := slots[order[k]].hash;
      ProbesUpTo(slots', order[k := to], n) + (if k < n then PosOf(|slots|, hash, order[k]) else 0)
      == ProbesUpTo(slots, order, n) + (if k < n then PosOf(|slots|, hash, to) else 0)
  {
    if n > 0 {
      TotalProbesMoved(slots, slots', order, k, to, n - 1);
    }
  }

  /**
   * Brent's promise: a new entry adds at most the probes plain double hashing would add, and strictly
   * fewer whenever an entry is relocated for it.
   */
  lemma InsertionCost<V>(slots: seq<Entry<V>>, ci: bool, order: seq<nat>, hash: nat, plan: Plan,
                         slots': seq<Entry<V>>, order': seq<nat>)
    requires WellPlaced(slots, ci, order, NO_HOLE)
    requires MadeRoom(slots, order, hash, plan, slots', order')
    ensures IsTable(slots', order') && Target(slots, hash, plan) !in order'
    ensures TotalProbes(slots', order') + PosOf(|slots|, hash, Target(slots, hash, plan)) + 1
      <= TotalProbes(slots, order) + plan.len + plan.ext
    ensures plan.len + plan.ext <= plan.worst
    ensures plan.ext > 0 ==> plan.len + plan.ext < plan.worst
  {
    MadeRoomWellPlaced(slots, ci, order, hash, plan, slots', order');
    var from := Target(slots, hash, plan);
    assert PosOf(|slots|, hash, from) == plan.len - 1;
    if plan.ext == 0 {
      TotalProbesKept(slots, slots', order, |order|);
    } else {
      var to := Onward(slots, from, plan.ext);
      var k :| 0 <= k < |order| && order[k] == from && order' == order[k := to];
      MovedIsPlaced(slots, from, plan.ext, to);
      TotalProbesMoved(slots, slots', order, k, to, |order|);
    }
  }

  // ----- slots and list together

  /** The whole invariant: of the slots, of the keys, and of the list. */
  ghost predicate Inv<V>(c: Chain<V>, ci: bool, order: seq<nat>) {
    && WellPlaced(c.slots, ci, order, NO_HOLE)
    && c.Linked(order)
    && M.Unique(Classifier(ci), Contents(c.slots, order))
  }

  /** lws_table_remove. The slot keeps its hash and its links, and its key and value as far as they are not freed. */
  function Removed<V>(c: Chain<V>, x: nat, key: bytes, value: Option<V>): (c': Chain<V>)
    requires c.Bounded() && x < |c.slots|
    ensures |c'.slots| == |c.slots|
  {
    var c1 := Remove(c, x);
    c1.(slots := c1.slots[x := Tombstone(c1.slots[x], key, value)])
  }

  /** Taking an entry out of the list and putting it back in at the end. */
  function Touched<V>(c: Chain<V>, x: nat): (c': Chain<V>)
    requires c.Bounded() && x < |c.slots|
    ensures SameCores(c.slots, c'.slots) && c'.Bounded()
  {
    InsertTail(Remove(c, x), x)
  }

  function Updated<V>(c: Chain<V>, x: nat, value: V): (c': Chain<V>)
    requires x < |c.slots|
  {
    c.(slots := c.slots[x := c.slots[x].(value := Some(value))])
  }

  lemma RemovedInv<V>(c: Chain<V>, ci: bool, order: seq<nat>, k: nat, key: bytes, value: Option<V>)
    requires Inv(c, ci, order) && k < |order|
    ensures Inv(Removed(c, order[k], key, value), ci, Without(order, k))
    ensures var slots' := Removed(c, order[k], key, value).slots;
      Contents(slots', Without(order, k)) == M.Without(Contents(c.slots, order), k)
  {
    var c' := Removed(c, order[k], key, value);
    RemoveUnlinks(c, order, k);
    RemovedWellPlaced(c.slots, ci, order, k, c'.slots, key, value);
    M.WithoutUnique(Classifier(ci), Contents(c.slots, order), k);
    LinkedSameLinks(Remove(c, order[k]), Without(order, k), c');
  }

  lemma TouchedInv<V>(c: Chain<V>, ci: bool, order: seq<nat>, k: nat)
    requires Inv(c, ci, order) && k < |order|
    ensures Inv(Touched(c, order[k]), ci, Without(order, k) + [order[k]])
    ensures var m := Contents(c.slots, order);
      Contents(Touched(c, order[k]).slots, Without(order, k) + [order[k]]) == M.Without(m, k) + [m[k]]
  {
    var m := Contents(c.slots, order);
    RemoveUnlinks(c, order, k);
    InsertTailLinks(Remove(c, order[k]), Without(order, k), order[k]);
    MovedToEndWellPlaced(c.slots, ci, order, k, Touched(c, order[k]).slots);
    M.WithoutUnique(Classifier(ci), m, k);
    M.AppendUnique(Classifier(ci), M.Without(m, k), m[k]);
  }

  lemma UpdatedInv<V>(c: Chain<V>, ci: bool, order: seq<nat>, k: nat, value: V)
    requires Inv(c, ci, order) && k < |order|
    ensures Inv(Updated(c, order[k], value), ci, order)
    ensures Contents(Updated(c, order[k], value).slots, order)
      == Contents(c.slots, order)[k := M.Pair(c.slots[order[k]].key, value)]
  {
    UpdatedWellPlaced(c.slots, ci, order, k, value);
    LinkedSameLinks(c, order, Updated(c, order[k], value));
  }

  /** A fresh entry in the slot that insertion has made room at. */
  ghost predicate Fresh<V>(c: Chain<V>, ci: bool, hash: nat, e: Entry<V>) {
    && e.state == Set && e.value.Some? && e.hash == hash == HashOf(ci, e.key)
    && c.InRange(e.prev) && c.InRange(e.next)
  }

  lemma TargetTaken<V>(slots: seq<Entry<V>>, ci: bool, order: seq<nat>, hash: nat, plan: Plan,
                       slots1: seq<Entry<V>>, order1: seq<nat>)
    requires WellPlaced(slots, ci, order, NO_HOLE) && MadeRoom(slots, order, hash, plan, slots1, order1)
    ensures |slots1| == |slots| >= 3 && plan.len >= 1 && Target(slots, hash, plan) !in order1
  {
    MadeRoomWellPlaced(slots, ci, order, hash, plan, slots1, order1);
    RoomShape(slots, order, hash, plan, slots1, order1);
    hide MadeRoom, Placed, IsPlan;
  }

  lemma FilledBy<V>(c: Chain<V>, r: nat, ci: bool, hash: nat, e: Entry<V>, c': Chain<V>)
    requires r < |c.slots| && Fresh(c, ci, hash, e) && SameCores(Stored(c, r, e).slots, c'.slots)
    ensures Filled(c.slots, r, ci, hash, c'.slots) && c'.slots[r].key == e.key && c'.slots[r].value == e.value
  {
  }

  lemma InsertedAtTail<V>(c: Chain<V>, ci: bool, order: seq<nat>, hash: nat, plan: Plan,
                          c1: Chain<V>, order1: seq<nat>, e: Entry<V>)
    requires WellPlaced(c.slots, ci, order, NO_HOLE) && MadeRoom(c.slots, order, hash, plan, c1.slots, order1)
    requires c1.Linked(order1) && Fresh(c1, ci, hash, e)
    ensures var r := Target(c.slots, hash, plan);
      && r !in order1 && Stored(c1, r, e).Bounded()
      && var c2 := InsertTail(Stored(c1, r, e), r);
      && WellPlaced(c2.slots, ci, order1 + [r], NO_HOLE)
      && c2.Linked(order1 + [r])
      && Contents(c2.slots, order1 + [r]) == Contents(c.slots, order) + [M.Pair(e.key, e.value.value)]
  {
    hide WellPlaced, MadeRoom, Filled, Contents, HasValues, IsPlan;
    TargetTaken(c.slots, ci, order, hash, plan, c1.slots, order1);
    var r := Target(c.slots, hash, plan);
    LinkedApart(c1, order1, r, e);
    InsertTailLinks(Stored(c1, r, e), order1, r);
    var c2 := InsertTail(Stored(c1, r, e), r);
    FilledBy(c1, r, ci, hash, e, c2);
    InsertedWellPlaced(c.slots, ci, order, hash, plan, c1.slots, order1, c2.slots, order1 + [r]);
    InsertedContents(c.slots, ci, order, hash, plan, c1.slots, order1, c2.slots);
  }

  lemma InsertedAtHead<V>(c: Chain<V>, ci: bool, order: seq<nat>, hash: nat, plan: Plan,
                          c1: Chain<V>, order1: seq<nat>, e: Entry<V>)
    requires WellPlaced(c.slots, ci, order, NO_HOLE) && MadeRoom(c.slots, order, hash, plan, c1.slots, order1)
    requires c1.Linked(order1) && Fresh(c1, ci, hash, e)
    ensures var r := Target(c.slots, hash, plan);
      && r !in order1 && Stored(c1, r, e).Bounded()
      && var c2 := InsertHead(Stored(c1, r, e), r);
      && WellPlaced(c2.slots, ci, [r] + order1, NO_HOLE)
      && c2.Linked([r] + order1)
      && Contents(c2.slots, [r] + order1) == [M.Pair(e.key, e.value.value)] + Contents(c.slots, order)
  {
    hide WellPlaced, MadeRoom, Filled, Contents, HasValues, IsPlan;
    TargetTaken(c.slots, ci, order, hash, plan, c1.slots, order1);
    var r := Target(c.slots, hash, plan);
    LinkedApart(c1, order1, r, e);
    InsertHeadLinks(Stored(c1, r, e), order1, r);
    var c2 := InsertHead(Stored(c1, r, e), r);
    FilledBy(c1, r, ci, hash, e, c2);
    InsertedWellPlaced(c.slots, ci, order, hash, plan, c1.slots, order1, c2.slots, [r] + order1);
    InsertedContents(c.slots, ci, order, hash, plan, c1.slots, order1, c2.slots);
  }

  /** If the home slot is not SET there is nothing to relocate for it. */
  lemma InsertedHome<V>(slots: seq<Entry<V>>, order: seq<nat>, hash: nat, plan: Plan,
                        slots1: seq<Entry<V>>, order1: seq<nat>)
    requires |slots| >= 3 && MadeRoom(slots, order, hash, plan, slots1, order1)
    requires slots[Home(|slots|, hash)].state != Set
    ensures plan.len == 1 && Target(slots, hash, plan) == Home(|slots|, hash) && SameCores(slots, slots1)
  {
    hide ScanReaches;
    assert Probe(|slots|, hash, 0) == Home(|slots|, hash);
  }

  ghost predicate NoTombstones<V>(slots: seq<Entry<V>>) {
    forall s :: 0 <= s < |slots| ==> slots[s].state != Deleted
  }

  lemma InsertedNoTombstones<V>(c: Chain<V>, order: seq<nat>, hash: nat, plan: Plan,
                                c1: Chain<V>, order1: seq<nat>, e: Entry<V>)
    requires |c.slots| >= 3 && MadeRoom(c.slots, order, hash, plan, c1.slots, order1) && NoTombstones(c.slots)
    requires e.state != Deleted && Stored(c1, Target(c.slots, hash, plan), e).Bounded()
    ensures var r := Target(c.slots, hash, plan);
      && NoTombstones(InsertHead(Stored(c1, r, e), r).slots)
      && NoTombstones(InsertTail(Stored(c1, r, e), r).slots)
  {
    hide ScanReaches;
    var c2 := Stored(c1, Target(c.slots, hash, plan), e);
    assert NoTombstones(c1.slots);
    assert NoTombstones(c2.slots);
  }

  /** Lookups look at keys, hashes and whether slots are in use; strict ones also at whether they are SET. */
  lemma {:induction false} FindLooksAt<V>(slots: seq<Entry<V>>, slots': seq<Entry<V>>, ci: bool, strict: bool,
                                          key: bytes, hash: nat, j: nat)
    requires |slots| == |slots'| >= 3
    requires forall s :: 0 <= s < |slots| ==>
      && slots'[s].key == slots[s].key && slots'[s].hash == slots[s].hash
      && (slots'[s].state == Unused <==> slots[s].state == Unused)
      && (strict ==> slots'[s].state == slots[s].state)
    ensures FindFrom(slots', ci, strict, key, hash, j) == FindFrom(slots, ci, strict, key, hash, j)
    decreases |slots| - j
  {
    if j < |slots| {
      FindLooksAt(slots, slots', ci, strict, key, hash, j + 1);
    }
  }

  /** A value stored in a dead slot changes nothing the table means. */
  lemma DeadUpdatedInv<V>(c: Chain<V>, ci: bool, order: seq<nat>, x: nat, value: V)
    requires Inv(c, ci, order) && x < |c.slots| && c.slots[x].state != Set
    ensures Inv(Updated(c, x, value), ci, order)
    ensures Contents(Updated(c, x, value).slots, order) == Contents(c.slots, order)
  {
    var slots' := Updated(c, x, value).slots;
    forall k | 0 <= k < |order|
      ensures Placed(slots', order[k]) && order[k] != x
    {
      assert order[k] in order;
      PlacedKept(c.slots, slots', order[k]);
    }
    assert Contents(slots', order) == Contents(c.slots, order);
    LinkedSameLinks(c, order, Updated(c, x, value));
  }

  // ----- what is left in dead slots

  /**
   * No slot has lost what it held: every slot in use, listed or dead, has a value and the hash of its key, is
   * placed, and no two have keys that the table takes for one another.
   */
  ghost predicate Legible<V>(slots: seq<Entry<V>>, ci: bool) {
    && |slots| >= 3 && IsPrime(|slots|)
    && (forall s :: 0 <= s < |slots| && slots[s].state != Unused ==> Readable(slots, ci, s))
    && (forall s, t :: 0 <= s < t < |slots| && slots[s].state != Unused && slots[t].state != Unused ==>
          !Same(ci, slots[s].key, slots[t].key))
  }

  ghost predicate Readable<V>(slots: seq<Entry<V>>, ci: bool, s: nat)
    requires |slots| >= 3 && IsPrime(|slots|) && s < |slots|
  {
    slots[s].hash == HashOf(ci, slots[s].key) && slots[s].value.Some? && Placed(slots, s)
  }

  /** A lookup that takes dead slots for entries finds the one slot with the key, listed or dead. */
  lemma FindIsOnly<V>(slots: seq<Entry<V>>, ci: bool, key: bytes, s: nat)
    requires Legible(slots, ci) && s < |slots| && slots[s].state != Unused && Same(ci, slots[s].key, key)
    ensures FindFrom(slots, ci, false, key, HashOf(ci, key), 0) == s
  {
    assert Readable(slots, ci, s);
    FindFromReaches(slots, ci, false, key, HashOf(ci, key), 0, s);
    var r := FindFrom(slots, ci, false, key, HashOf(ci, key), 0);
    assert Readable(slots, ci, r);
  }

  /** So a lookup that stops at a dead slot means that no entry has the key. */
  lemma DeadMeansAbsent<V>(slots: seq<Entry<V>>, ci: bool, order: seq<nat>, key: bytes)
    requires WellPlaced(slots, ci, order, NO_HOLE) && Legible(slots, ci)
    requires var r := FindFrom(slots, ci, false, key, HashOf(ci, key), 0); r >= 0 && slots[r].state != Set
    ensures M.IndexOf(Classifier(ci), Contents(slots, order), key) == -1
  {
    var i := M.IndexOf(Classifier(ci), Contents(slots, order), key);
    if i >= 0 {
      assert order[i] in order;
      FindIsOnly(slots, ci, key, order[i]);
    }
  }

  /** Without dead slots the invariant says as much. */
  lemma InvLegible<V>(c: Chain<V>, ci: bool, order: seq<nat>)
    requires Inv(c, ci, order) && NoTombstones(c.slots)
    ensures Legible(c.slots, ci)
  {
    var m := Contents(c.slots, order);
    forall s | 0 <= s < |c.slots| && c.slots[s].state != Unused
      ensures s in order && Readable(c.slots, ci, s)
    {
    }
    forall s, t | 0 <= s < t < |c.slots| && c.slots[s].state != Unused && c.slots[t].state != Unused
      ensures !Same(ci, c.slots[s].key, c.slots[t].key)
    {
      var i :| 0 <= i < |order| && order[i] == s;
      var j :| 0 <= j < |order| && order[j] == t;
      assert m[i].key == c.slots[s].key && m[j].key == c.slots[t].key;
      assert !M.Alike(Classifier(ci), m[if i < j then i else j].key, m[if i < j then j else i].key);
    }
  }

  /** Slots stay legible if each keeps its key and its hash, is not emptied, and does not come into use. */
  lemma LegibleKept<V>(slots: seq<Entry<V>>, slots': seq<Entry<V>>, ci: bool)
    requires Legible(slots, ci) && |slots'| == |slots|
    requires forall s :: 0 <= s < |slots| ==>
      && slots'[s].key == slots[s].key && slots'[s].hash == slots[s].hash
      && (slots'[s].state == Unused <==> slots[s].state == Unused)
      && (slots[s].value.Some? ==> slots'[s].value.Some?)
    ensures Legible(slots', ci)
  {
    hide Placed, IsPrime, HashOf, Same;
    forall s | 0 <= s < |slots'| && slots'[s].state != Unused
      ensures Readable(slots', ci, s)
    {
      assert Readable(slots, ci, s);
      PlacedKept(slots, slots', s);
    }
  }

  /** An entry moves on into a free slot, and the one it leaves is filled with a key that no slot in use has. */
  lemma LegibleInserted<V>(slots: seq<Entry<V>>, ci: bool, order: seq<nat>, hash: nat, plan: Plan,
                           slots1: seq<Entry<V>>, order1: seq<nat>, slots2: seq<Entry<V>>)
    requires Legible(slots, ci) && MadeRoom(slots, order, hash, plan, slots1, order1)
    requires Filled(slots1, Target(slots, hash, plan), ci, hash, slots2)
    requires var r := Target(slots, hash, plan);
      forall s :: 0 <= s < |slots| && slots[s].state != Unused ==> !Same(ci, slots[s].key, slots2[r].key)
    ensures Legible(slots2, ci)
  {
    PlanShape(slots, hash, plan);
    hide IsPlan, IsPrime, HashOf, Same, Readable;
    var r := Target(slots, hash, plan);
    if plan.ext == 0 {
      FilledLegible(slots, ci, r, plan.len, slots2);
    } else {
      var to := Onward(slots, r, plan.ext);
      assert r != to;
      MovedLegible(slots, ci, r, plan.ext, to, plan.len, slots2);
    }
  }

  lemma FilledLegible<V>(slots: seq<Entry<V>>, ci: bool, r: nat, len: nat, slots2: seq<Entry<V>>)
    requires Legible(slots, ci) && |slots2| == |slots| && r < |slots|
    requires forall s :: 0 <= s < |slots| && s != r ==> SameCore(slots[s], slots2[s])
    requires slots2[r].state == Set && slots2[r].value.Some? && slots2[r].hash == HashOf(ci, slots2[r].key)
    requires 1 <= len <= |slots| && r == Probe(|slots|, slots2[r].hash, len - 1)
    requires forall i :: 0 <= i < len - 1 ==> slots[Probe(|slots|, slots2[r].hash, i)].state != Unused
    requires forall s :: 0 <= s < |slots| && slots[s].state != Unused ==> !Same(ci, slots[s].key, slots2[r].key)
    ensures Legible(slots2, ci)
  {
    HolePlaced(slots, r, len, slots2);
    hide Placed, IsPrime, HashOf, Probe;
    forall s | 0 <= s < |slots2| && slots2[s].state != Unused
      ensures Readable(slots2, ci, s)
    {
      if s != r {
        assert Readable(slots, ci, s);
        PlacedKept(slots, slots2, s);
      }
    }
  }

  lemma MovedLegible<V>(slots: seq<Entry<V>>, ci: bool, r: nat, ext: nat, to: nat, len: nat, slots2: seq<Entry<V>>)
    requires Legible(slots, ci) && |slots2| == |slots| && FreeAfter(slots, r, ext, to) && to != r
    requires forall s :: 0 <= s < |slots| && s != r ==> SameCore(slots[to := slots[r]][s], slots2[s])
    requires slots2[r].state == Set && slots2[r].value.Some? && slots2[r].hash == HashOf(ci, slots2[r].key)
    requires 1 <= len <= |slots| && r == Probe(|slots|, slots2[r].hash, len - 1)
    requires forall i :: 0 <= i < len - 1 ==> slots[Probe(|slots|, slots2[r].hash, i)].state != Unused
    requires forall s :: 0 <= s < |slots| && slots[s].state != Unused ==> !Same(ci, slots[s].key, slots2[r].key)
    ensures Legible(slots2, ci)
  {
    var slots1 := slots[to := slots[r]];
    assert Readable(slots, ci, r);
    MovedIsPlaced(slots, r, ext, to);
    PlacedKept(slots1, slots2, to);
    HolePlaced(slots1, r, len, slots2);
    hide Placed, IsPrime, HashOf, Probe, FreeAfter;
    forall s | 0 <= s < |slots2| && slots2[s].state != Unused
      ensures Readable(slots2, ci, s)
    {
      if s != r && s != to {
        assert Readable(slots, ci, s);
        PlacedKept(slots, slots2, s);
      }
    }
    forall s, t | 0 <= s < t < |slots2| && slots2[s].state != Unused && slots2[t].state != Unused
      ensures !Same(ci, slots2[s].key, slots2[t].key)
    {
      var s0, t0 := if s == to then r else s, if t == to then r else t;
      if s != r && t != r {
        assert s0 != t0 && slots2[s].key == slots[s0].key && slots2[t].key == slots[t0].key;
        assert !Same(ci, slots[s0].key, slots[t0].key) by { SameSymmetric(ci, slots[s0].key, slots[t0].key); }
      } else if s == r {
        assert slots2[t].key == slots[t0].key;
        SameSymmetric(ci, slots[t0].key, slots2[r].key);
      } else {
        assert slots2[s].key == slots[s0].key;
      }
    }
  }

  lemma SameSymmetric(ci: bool, a: bytes, b: bytes)
    ensures Same(ci, a, b) == Same(ci, b, a)
  {
  }

  lemma LastListed<V>(c: Chain<V>, order: seq<nat>)
    requires c.Linked(order)
    ensures c.last == SENTINEL || c.last in order
  {
    assert c.Joined(At(order, |order| - 1), At(order, |order|));
  }

  /** Relinking a dead slot puts it on a list that is to hold SET slots only, in whatever order. */
  lemma TouchedDead<V>(c: Chain<V>, ci: bool, order: seq<nat>, x: nat, o: seq<nat>)
    requires Inv(c, ci, order) && x < |c.slots| && c.slots[x].state != Set
    ensures !Inv(Touched(c, x), ci, o)
  {
    var c' := Touched(c, x);
    assert c'.last == x && c'.slots[x].state != Set;
    if c'.Linked(o) {
      LastListed(c', o);
    }
  }

  lemma SameMembers<T>(a: seq<T>, b: seq<T>)
    requires Distinct(a) && forall x <- a :: x in b
    requires Distinct(b)
    ensures |a| <= |b|
  {
    DistinctCardinality(a);
    DistinctCardinality(b);
    var members, others := set x | x in a, set x | x in b;
    SubsetCardinality(members, others);
  }

  /** All orders that list the SET slots are of one length. */
  lemma SameSetSlots<V>(slots: seq<Entry<V>>, slots': seq<Entry<V>>, ci: bool, order: seq<nat>, o: seq<nat>)
    requires WellPlaced(slots, ci, order, NO_HOLE) && WellPlaced(slots', ci, o, NO_HOLE) && |slots'| == |slots|
    requires forall s :: 0 <= s < |slots| ==> (slots'[s].state == Set <==> slots[s].state == Set)
    ensures |o| == |order|
  {
    hide Placed, IsPrime, HashOf;
    forall s: nat
      ensures s in o <==> s in order
    {
      assert s in o || s in order ==> s < |slots|;
    }
    SameMembers(order, o);
    SameMembers(o, order);
  }

  /** A value stored in a dead slot that has been relinked makes it no better. */
  lemma UpdatedDead<V>(c: Chain<V>, c': Chain<V>, ci: bool, order: seq<nat>, x: nat, value: V)
    requires Inv(c, ci, order) && x < |c.slots| && c.slots[x].state != Set
    requires c' == Updated(Touched(c, x), x, value)
    ensures forall o :: !Inv(c', ci, o)
  {
    assert c'.last == x && c'.slots[x].state != Set;
    forall o
      ensures !Inv(c', ci, o)
    {
      if c'.Linked(o) {
        LastListed(c', o);
      }
    }
  }

  // ----- evictions

  /** What a removal leaves in a slot: freed memory may read as anything from then on. */
  ghost predicate Left<V>(dup: bool, free: bool, e: Entry<V>, e': Entry<V>) {
    && |e'.key| == |e.key| && e'.hash == e.hash && e'.state == Deleted
    && (!dup ==> e'.key == e.key) && (!free ==> e'.value == e.value)
  }

  /** The slot that was first in the order is a tombstone, with what a removal leaves in it. */
  ghost predicate Aside<V>(dup: bool, free: bool, order: seq<nat>, slots: seq<Entry<V>>, slots': seq<Entry<V>>) {
    order != [] && |slots'| == |slots| && order[0] < |slots| && Left(dup, free, slots[order[0]], slots'[order[0]])
  }

  /** And nothing else has changed but links. */
  ghost predicate FirstLeft<V>(dup: bool, free: bool, order: seq<nat>, slots: seq<Entry<V>>, slots': seq<Entry<V>>) {
    && Aside(dup, free, order, slots, slots')
    && forall s :: 0 <= s < |slots| && s != order[0] ==> SameCore(slots[s], slots'[s])
  }

  /** If the home slot of a hash is not SET, an insertion takes it and leaves the other slots alone. */
  ghost predicate GoesHome<V>(slots: seq<Entry<V>>, slots': seq<Entry<V>>, hash: nat) {
    |slots'| == |slots| >= 3 && (slots[Home(|slots|, hash)].state != Set ==>
      forall s :: 0 <= s < |slots| && s != Home(|slots|, hash) ==> SameCore(slots[s], slots'[s]))
  }

  /** A new key that goes to an unused home slot does not disturb the tombstone of an eviction. */
  lemma AsideKept<V>(dup: bool, free: bool, order: seq<nat>, slots: seq<Entry<V>>, slots1: seq<Entry<V>>,
                     slots2: seq<Entry<V>>, hash: nat)
    requires |slots| >= 3 && FirstLeft(dup, free, order, slots, slots1) && GoesHome(slots1, slots2, hash)
    requires slots[order[0]].state == Set && slots[Home(|slots|, hash)].state == Unused
    ensures Aside(dup, free, order, slots, slots2)
  {
  }

  /** The slots before an insertion, with room made, and filled. */
  ghost predicate InsertedAs<V>(ci: bool, slots: seq<Entry<V>>, order: seq<nat>, key: bytes, hash: nat, plan: Plan,
                                slots1: seq<Entry<V>>, order1: seq<nat>, slots2: seq<Entry<V>>) {
    && |slots| >= 3 && MadeRoom(slots, order, hash, plan, slots1, order1) && plan.len >= 1
    && Filled(slots1, Target(slots, hash, plan), ci, hash, slots2)
    && slots2[Target(slots, hash, plan)].key == key
  }

  lemma InsertedGoesHome<V>(ci: bool, slots: seq<Entry<V>>, order: seq<nat>, key: bytes, hash: nat, plan: Plan,
                            slots1: seq<Entry<V>>, order1: seq<nat>, slots2: seq<Entry<V>>)
    requires InsertedAs(ci, slots, order, key, hash, plan, slots1, order1, slots2)
    ensures GoesHome(slots, slots2, hash)
  {
    hide IsPlan;
    if slots[Home(|slots|, hash)].state != Set {
      InsertedHome(slots, order, hash, plan, slots1, order1);
    }
  }

  /** Every tombstone was one before, in the same place and with the same key and value. */
  ghost predicate DeadFrom<V>(slots: seq<Entry<V>>, slots': seq<Entry<V>>) {
    forall s :: 0 <= s < |slots'| && slots'[s].state == Deleted ==> s < |slots| && SameCore(slots[s], slots'[s])
  }

  /** Insertion may overwrite tombstones, and makes none. */
  lemma InsertedDeadFrom<V>(ci: bool, slots: seq<Entry<V>>, order: seq<nat>, key: bytes, hash: nat, plan: Plan,
                            slots1: seq<Entry<V>>, order1: seq<nat>, slots2: seq<Entry<V>>)
    requires InsertedAs(ci, slots, order, key, hash, plan, slots1, order1, slots2)
    ensures DeadFrom(slots, slots2)
  {
    PlanShape(slots, hash, plan);
    hide IsPlan;
    var r := Target(slots, hash, plan);
    if plan.ext > 0 {
      var to := Onward(slots, r, plan.ext);
      assert slots[r].state == Set && SameCores(slots[to := slots[r]], slots1);
    }
  }

  lemma DeadFromBoth<V>(slots: seq<Entry<V>>, slots1: seq<Entry<V>>, slots2: seq<Entry<V>>)
    requires DeadFrom(slots, slots1) && DeadFrom(slots1, slots2)
    ensures DeadFrom(slots, slots2)
  {
  }

  /** Every tombstone was in use before, listed or not, in the same place and with the same key and value. */
  ghost predicate DeadWas<V>(slots: seq<Entry<V>>, slots': seq<Entry<V>>) {
    forall s :: 0 <= s < |slots'| && slots'[s].state == Deleted ==>
      && s < |slots| && slots[s].state != Unused
      && slots'[s].key == slots[s].key && slots'[s].value == slots[s].value
  }

  lemma DeadFromWas<V>(slots: seq<Entry<V>>, slots': seq<Entry<V>>)
    requires DeadFrom(slots, slots')
    ensures DeadWas(slots, slots')
  {
  }

  /** A removal that frees nothing leaves key and value in its tombstone. */
  lemma RemovedDeadWas<V>(c: Chain<V>, x: nat)
    requires c.Bounded() && x < |c.slots| && c.slots[x].state != Unused
    ensures DeadWas(c.slots, Removed(c, x, c.slots[x].key, c.slots[x].value).slots)
  {
  }
}
