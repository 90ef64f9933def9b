/** Whether the relocation that lws_table_insert chooses is the one with the fewest probes. */
module PlanCost {
  import opened Wrappers
  import opened Bits
  import opened Primes
  import opened Probing
  import opened Sizes
  import opened SizePrimes
  import opened Keys
  import opened Queue
  import opened QueueLaws
  import opened TableState

  /** No relocation costs fewer probes than the plan's. */
  ghost predicate Cheapest<V>(slots: seq<Entry<V>>, hash: nat, plan: Plan)
    requires |slots| >= 3
  {
    forall l: nat, m: nat :: Cheaper(slots, hash, plan.worst, l, m) ==> plan.len + plan.ext <= l + m
  }

  /** The entry at probe number l has no free slot so near that moving it there costs less than `cost` probes. */
  ghost predicate Blocked<V>(slots: seq<Entry<V>>, hash: nat, l: nat, cost: nat)
    requires |slots| >= 3 && l >= 1
  {
    var from := Probe(|slots|, hash, l - 1);
    forall m: nat :: m >= 1 && l + m < cost ==> slots[Onward(slots, from, m)].state == Set
  }

  /** A relocation with fewer probes than `cost` begins at one of the probes from number lo to hi - 1. */
  ghost predicate CheaperAmong<V>(slots: seq<Entry<V>>, hash: nat, cost: nat, lo: nat, hi: nat)
    requires |slots| >= 3 && lo >= 1
  {
    exists l: nat :: lo <= l < hi && !Blocked(slots, hash, l, cost)
  }

  /** The scan had found a relocation with fewer probes, and gave it up for a later find. */
  ghost predicate GaveUp<V>(slots: seq<Entry<V>>, hash: nat, plan: Plan)
    requires |slots| >= 3
  {
    CheaperAmong(slots, hash, plan.len + plan.ext, 1, plan.len)
  }

  /** The scan was over at probe number ext, and a relocation with fewer probes begins there or later. */
  ghost predicate StoppedShort<V>(slots: seq<Entry<V>>, hash: nat, plan: Plan)
    requires |slots| >= 3
  {
    var from := if plan.len < plan.ext then plan.ext else plan.len + 1;
    CheaperAmong(slots, hash, plan.len + plan.ext, from, plan.len + plan.ext)
  }

  lemma {:induction false} FirstFree<V>(slots: seq<Entry<V>>, from: nat, n: nat) returns (m: nat)
    requires |slots| >= 3 && from < |slots| && slots[from].state == Set
    requires exists k: nat :: 1 <= k <= n && slots[Onward(slots, from, k)].state != Set
    ensures 1 <= m <= n && FreeAfter(slots, from, m, Onward(slots, from, m))
  {
    if k: nat :| 1 <= k < n && slots[Onward(slots, from, k)].state != Set {
      m := FirstFree(slots, from, k);
    } else {
      m := n;
    }
  }

  /** Within the worst case, something cheaper than n at probe l is a free slot near its entry. */
  lemma CheaperIff<V>(slots: seq<Entry<V>>, hash: nat, worst: nat, l: nat, n: nat)
    requires |slots| >= 3 && WorstCase(slots, hash, worst) && 1 <= l && n <= worst
    ensures (exists m: nat :: Cheaper(slots, hash, worst, l, m) && l + m < n) <==> !Blocked(slots, hash, l, n)
  {
    if !Blocked(slots, hash, l, n) {
      var m := FirstFree(slots, Probe(|slots|, hash, l - 1), if l < n then n - l - 1 else 0);
      assert Cheaper(slots, hash, worst, l, m);
    }
  }

  // ----- the plan from the slots and the hash alone

  /** The probes of the hash come to a slot that is not SET. */
  ghost predicate HasRoom<V>(slots: seq<Entry<V>>, hash: nat)
    requires |slots| >= 3
  {
    exists worst: nat :: WorstCase(slots, hash, worst)
  }

  /** The scan from probe l on, with its latest find, if any. */
  ghost function ScanFrom<V>(slots: seq<Entry<V>>, hash: nat, l: nat, best: Plan): Plan
    requires |slots| >= 3
    decreases best.worst - l
  {
    if l + 1 >= best.worst || (best.ext > 0 && l >= best.ext) then best
    else if exists m: nat :: Cheaper(slots, hash, best.worst, l, m) then
      var m: nat :| Cheaper(slots, hash, best.worst, l, m);
      ScanFrom(slots, hash, l + 1, Plan(best.worst, l, m))
    else ScanFrom(slots, hash, l + 1, best)
  }

  ghost function PlanOf<V>(slots: seq<Entry<V>>, hash: nat): Plan
    requires |slots| >= 3 && HasRoom(slots, hash)
  {
    var worst: nat :| WorstCase(slots, hash, worst);
    ScanFrom(slots, hash, 1, Plan(worst, worst, 0))
  }

  lemma {:induction false} ScanFromIsPlan<V>(slots: seq<Entry<V>>, hash: nat, l: nat, best: Plan)
    requires |slots| >= 3 && Scanned(slots, hash, l, best) && WorstCase(slots, hash, best.worst)
    requires best.ext == 0 ==> best.len == best.worst
    ensures IsPlan(slots, hash, ScanFrom(slots, hash, l, best))
    decreases best.worst - l
  {
    hide Scanned, WorstCase, Cheaper, IsPlan;
    if l + 1 >= best.worst || (best.ext > 0 && l >= best.ext) {
      ScanEnds(slots, hash, l, best);
    } else if exists m: nat :: Cheaper(slots, hash, best.worst, l, m) {
      var m: nat :| Cheaper(slots, hash, best.worst, l, m)
        && ScanFrom(slots, hash, l, best) == ScanFrom(slots, hash, l + 1, Plan(best.worst, l, m));
      FindMoves(slots, hash, best.worst, l, m);
      ScanFinds(slots, hash, l, best, m);
      ScanFromIsPlan(slots, hash, l + 1, Plan(best.worst, l, m));
    } else {
      ScanPasses(slots, hash, l, best);
      ScanFromIsPlan(slots, hash, l + 1, best);
    }
  }

  lemma FindMoves<V>(slots: seq<Entry<V>>, hash: nat, worst: nat, l: nat, m: nat)
    requires |slots| >= 3 && Cheaper(slots, hash, worst, l, m)
    ensures m > 0
  {
  }

  /** Wherever there is room the scan comes to a plan, and it is the only one. */
  lemma PlanOfIsPlan<V>(slots: seq<Entry<V>>, hash: nat, plan: Plan)
    requires |slots| >= 3 && HasRoom(slots, hash)
    ensures IsPlan(slots, hash, plan) <==> plan == PlanOf(slots, hash)
  {
    var worst: nat :| WorstCase(slots, hash, worst)
      && PlanOf(slots, hash) == ScanFrom(slots, hash, 1, Plan(worst, worst, 0));
    assert Scanned(slots, hash, 1, Plan(worst, worst, 0));
    ScanFromIsPlan(slots, hash, 1, Plan(worst, worst, 0));
    if IsPlan(slots, hash, plan) {
      PlanUnique(slots, hash, plan, PlanOf(slots, hash));
    }
  }

  /** The slots and the hash make the scan miss the cheapest relocation. */
  ghost predicate Misses<V>(slots: seq<Entry<V>>, hash: nat)
    requires |slots| >= 3 && HasRoom(slots, hash)
  {
    GaveUp(slots, hash, PlanOf(slots, hash)) || StoppedShort(slots, hash, PlanOf(slots, hash))
  }

  /** A scan has these two ways to miss the cheapest relocation, and no third. */
  lemma CheapestIff<V>(slots: seq<Entry<V>>, hash: nat, plan: Plan)
    requires |slots| >= 3 && IsPlan(slots, hash, plan)
    ensures Cheapest(slots, hash, plan) <==> !GaveUp(slots, hash, plan) && !StoppedShort(slots, hash, plan)
    ensures HasRoom(slots, hash) && (Cheapest(slots, hash, plan) <==> !Misses(slots, hash))
  {
    hide Cheapest, GaveUp, StoppedShort, PlanOf;
    CheapestUnless(slots, hash, plan);
    PlanOfIsPlan(slots, hash, plan);
  }

  lemma CheapestUnless<V>(slots: seq<Entry<V>>, hash: nat, plan: Plan)
    requires |slots| >= 3 && IsPlan(slots, hash, plan)
    ensures HasRoom(slots, hash)
    ensures Cheapest(slots, hash, plan) <==> !GaveUp(slots, hash, plan) && !StoppedShort(slots, hash, plan)
  {
    var total := plan.len + plan.ext;
    forall l: nat | l >= 1
      ensures (exists m: nat :: Cheaper(slots, hash, plan.worst, l, m) && l + m < total)
        <==> !Blocked(slots, hash, l, total)
    {
      CheaperIff(slots, hash, plan.worst, l, total);
    }
    forall l: nat, m: nat | Cheaper(slots, hash, plan.worst, l, m) && l + m < total
      ensures GaveUp(slots, hash, plan) || StoppedShort(slots, hash, plan)
    {
      assert !Blocked(slots, hash, l, total);
    }
  }

  /** The first probe is cheapest, and an entry moved by at most two steps unless the scan had a better find. */
  lemma CheapestWhen<V>(slots: seq<Entry<V>>, hash: nat, plan: Plan)
    requires |slots| >= 3 && IsPlan(slots, hash, plan)
    ensures plan.len == 1 ==> Cheapest(slots, hash, plan)
    ensures plan.ext <= 2 ==> (Cheapest(slots, hash, plan) <==> !GaveUp(slots, hash, plan))
  {
    CheapestIff(slots, hash, plan);
    hide IsPlan, Cheapest;
  }

  // ----- two tables of eleven slots, each with six keys of one byte, where the plan is not the cheapest

  function Held(c: byte): Entry<int> {
    Entry(Set, [c], Some(0), HashOf(false, [c]), SENTINEL, SENTINEL)
  }

  /** What the last multiplication of such a hash leaves above the word. */
  const QUOTIENT: nat := 875948729822

  /** The first two probes of a key of one byte. */
  lemma KeyProbes(c: byte, hash: nat, home: nat, step: nat)
    requires c < 128 && hash < WORD
    requires (OFFSET_BASIS + c - (c / 32 % 2 * 64 + c / 4 % 2 * 8 + c % 2 * 2)) * FNV_PRIME
      == QUOTIENT * WORD + hash
    requires hash % 11 == home && hash % 9 + 1 == step
    ensures Home(11, HashOf(false, [c])) == home && Step(11, HashOf(false, [c])) == step
  {
    OneByte(false, c);
    XorBasis(c);
    hide Xor, HashOf;
    RemainderUnique(Xor(OFFSET_BASIS, c) * FNV_PRIME, WORD, QUOTIENT, hash);
    ResidueIsRemainder(hash, 11);
    ResidueIsRemainder(hash, 9);
  }

  /** The first steps of a walk around eleven slots. */
  lemma FirstSteps(start: nat, q: nat)
    requires start < 11 && q < 11
    ensures Walk(11, start, q, 0) == start && Walk(11, start, q, 1) == Advance(11, start, q)
    ensures Walk(11, start, q, 2) == Advance(11, Advance(11, start, q), q)
    ensures Walk(11, start, q, 3) == Advance(11, Walk(11, start, q, 2), q)
    ensures Walk(11, start, q, 4) == Advance(11, Walk(11, start, q, 3), q)
    ensures Walk(11, start, q, 5) == Advance(11, Walk(11, start, q, 4), q)
  {
    hide Advance;
  }

  lemma ElevenIsPrime()
    ensures IsPrime(11)
  {
    assert SizeAt(3) == 11;
    ListedIsPrime(11);
  }

  /** Of eleven slots, exactly those in `used` are SET. */
  ghost predicate InUse<V>(slots: seq<Entry<V>>, used: set<nat>) {
    |slots| == 11 && forall s :: 0 <= s < 11 ==> (slots[s].state == Set <==> s in used)
  }

  /** An entry is at its home, or one probe on behind a slot in use. */
  ghost predicate Early<V>(slots: seq<Entry<V>>, s: nat)
    requires |slots| == 11 && s < 11
  {
    var home := Home(11, slots[s].hash);
    home == s || (slots[home].state == Set && Advance(11, home, Step(11, slots[s].hash)) == s)
  }

  lemma EarlyPlaced<V>(slots: seq<Entry<V>>, s: nat)
    requires |slots| == 11 && IsPrime(11) && s < 11 && Early(slots, s)
    ensures Placed(slots, s)
  {
    hide IsPrime;
    var hash := slots[s].hash;
    assert Probe(11, hash, 0) == Home(11, hash);
    assert Probe(11, hash, 1) == Advance(11, Home(11, hash), Step(11, hash));
  }

  lemma EarlyWellPlaced<V>(slots: seq<Entry<V>>, used: set<nat>, order: seq<nat>)
    requires InUse(slots, used) && (forall s :: s in used <==> s in order)
    requires Distinct(order) && forall k :: 0 <= k < |order| ==> order[k] < 11
    requires forall k :: 0 <= k < |order| ==> slots[order[k]].value.Some? && Early(slots, order[k])
    requires forall k :: 0 <= k < |order| ==> slots[order[k]].hash == HashOf(false, slots[order[k]].key)
    ensures WellPlaced(slots, false, order, -1)
  {
    ElevenIsPrime();
    hide HashOf, Early, IsPrime, Placed;
    forall k | 0 <= k < |order|
      ensures Placed(slots, order[k])
    {
      EarlyPlaced(slots, order[k]);
    }
  }

  /** Keys 46, 36, 20, 43, 107 and 114, in that order, and 19 is to come in. */
  function GivingUp(): (slots: seq<Entry<int>>)
    ensures |slots| == 11
  {
    [Held(36), Zeroed(), Zeroed(), Held(43), Held(46), Zeroed(), Held(20), Zeroed(), Held(114), Held(107), Zeroed()]
  }

  lemma GivingUpProbes()
    ensures forall s :: 0 <= s < 11 && GivingUp()[s].state == Set ==> s == 9 || Home(11, GivingUp()[s].hash) == s
    ensures Home(11, GivingUp()[9].hash) == 0 && Step(11, GivingUp()[9].hash) == 9
    ensures Step(11, GivingUp()[0].hash) == 4 && Step(11, GivingUp()[8].hash) == 9
    ensures Step(11, GivingUp()[3].hash) == 8
    ensures Home(11, HashOf(false, [19])) == 8 && Step(11, HashOf(false, [19])) == 3
  {
    hide HashOf, Home, Step;
    KeyProbes(46, 12638124528392833969, 4, 5);
    KeyProbes(36, 12638113533276551859, 0, 4);
    KeyProbes(20, 12638166309834705987, 6, 7);
    KeyProbes(43, 12638127826927718602, 3, 8);
    KeyProbes(107, 12638198195671924106, 0, 9);
    KeyProbes(114, 12638208091276578005, 8, 9);
    KeyProbes(19, 12638171807392847042, 8, 3);
  }

  lemma GivingUpInUse()
    ensures InUse(GivingUp(), {0, 3, 4, 6, 8, 9})
  {
    hide HashOf;
  }

  lemma GivingUpWellPlaced()
    ensures WellPlaced(GivingUp(), false, [4, 0, 6, 3, 9, 8], -1)
  {
    GivingUpProbes();
    GivingUpInUse();
    hide HashOf, Home, Step, InUse;
    var slots, order := GivingUp(), [4, 0, 6, 3, 9, 8];
    EarlyWellPlaced(slots, {0, 3, 4, 6, 8, 9}, order);
  }

  ghost predicate GivingUpPaths<V>(slots: seq<Entry<V>>, hash: nat)
    requires |slots| == 11
  {
    && Probe(11, hash, 0) == 8 && Probe(11, hash, 1) == 0 && Probe(11, hash, 2) == 3
    && Probe(11, hash, 3) == 6 && Probe(11, hash, 4) == 9 && Probe(11, hash, 5) == 1
    && Onward(slots, 8, 1) == 6 && Onward(slots, 8, 2) == 4 && Onward(slots, 8, 3) == 2
    && Onward(slots, 0, 1) == 4 && Onward(slots, 0, 2) == 8 && Onward(slots, 0, 3) == 1
    && Onward(slots, 3, 1) == 0
  }

  lemma GivingUpWalks()
    ensures GivingUpPaths(GivingUp(), HashOf(false, [19]))
  {
    GivingUpProbes();
    hide HashOf, Home, Step, Walk, GivingUp;
    FirstSteps(8, 3);
    FirstSteps(8, 9);
    FirstSteps(0, 4);
    FirstSteps(3, 8);
  }

  lemma GivingUpFinds<V>(slots: seq<Entry<V>>, hash: nat)
    requires InUse(slots, {0, 3, 4, 6, 8, 9}) && GivingUpPaths(slots, hash)
    ensures WorstCase(slots, hash, 6)
    ensures Cheaper(slots, hash, 6, 1, 3) && Cheaper(slots, hash, 6, 2, 3) && !Cheaper(slots, hash, 6, 3, 1)
  {
    hide Probe, Onward;
  }

  /** A find at probe 1, with 4 probes in all, is given up for one at probe 2 with 5. */
  lemma GivesUp()
    ensures WellPlaced(GivingUp(), false, [4, 0, 6, 3, 9, 8], -1)
    ensures var hash, plan := HashOf(false, [19]), Plan(6, 2, 3);
      IsPlan(GivingUp(), hash, plan) && GaveUp(GivingUp(), hash, plan) && !StoppedShort(GivingUp(), hash, plan)
  {
    hide HashOf, WellPlaced, GivingUp, GivingUpPaths, InUse, IsPlan, GaveUp, StoppedShort;
    GivingUpWellPlaced();
    GivingUpInUse();
    GivingUpWalks();
    var slots, hash := GivingUp(), HashOf(false, [19]);
    GivingUpFinds(slots, hash);
    TwoFinds(slots, hash);
  }

  lemma TwoFinds<V>(slots: seq<Entry<V>>, hash: nat)
    requires |slots| == 11 && WorstCase(slots, hash, 6)
    requires Cheaper(slots, hash, 6, 1, 3) && Cheaper(slots, hash, 6, 2, 3) && !Cheaper(slots, hash, 6, 3, 1)
    ensures var plan := Plan(6, 2, 3);
      IsPlan(slots, hash, plan) && GaveUp(slots, hash, plan) && !StoppedShort(slots, hash, plan)
  {
    TwoFindsPlan(slots, hash);
    CheaperIff(slots, hash, 6, 1, 5);
    CheaperIff(slots, hash, 6, 3, 5);
    hide IsPlan, Cheaper;
  }

  lemma TwoFindsPlan<V>(slots: seq<Entry<V>>, hash: nat)
    requires |slots| == 11 && WorstCase(slots, hash, 6)
    requires Cheaper(slots, hash, 6, 1, 3) && Cheaper(slots, hash, 6, 2, 3)
    ensures IsPlan(slots, hash, Plan(6, 2, 3))
  {
    assert Scanned(slots, hash, 1, Plan(6, 6, 0));
    ScanFinds(slots, hash, 1, Plan(6, 6, 0), 3);
    ScanFinds(slots, hash, 2, Plan(6, 1, 3), 3);
    hide Cheaper, ScanReaches;
    ScanEnds(slots, hash, 3, Plan(6, 2, 3));
  }

  /** Keys 50, 49, 83, 74, 6 and 21, and 82 is to come in. */
  function StoppingShort(): (slots: seq<Entry<int>>)
    ensures |slots| == 11
  {
    [Held(50), Held(49), Zeroed(), Zeroed(), Zeroed(), Held(83), Held(74), Held(6), Zeroed(), Zeroed(), Held(21)]
  }

  lemma StoppingShortProbes()
    ensures forall s :: 0 <= s < 11 && StoppingShort()[s].state == Set ==>
      s == 6 || Home(11, StoppingShort()[s].hash) == s
    ensures Home(11, StoppingShort()[6].hash) == 0 && Step(11, StoppingShort()[6].hash) == 6
    ensures Step(11, StoppingShort()[0].hash) == 8 && Step(11, StoppingShort()[1].hash) == 5
    ensures Home(11, HashOf(false, [82])) == 1 && Step(11, HashOf(false, [82])) == 5
  {
    hide HashOf, Home, Step;
    KeyProbes(50, 12638137722532372501, 0, 8);
    KeyProbes(49, 12638134423997487868, 1, 5);
    KeyProbes(83, 12638242176137052546, 5, 4);
    KeyProbes(74, 12638234479555655069, 0, 6);
    KeyProbes(6, 12638150916671911033, 7, 2);
    KeyProbes(21, 12638165210323077776, 10, 6);
    KeyProbes(82, 12638243275648680757, 1, 5);
  }

  lemma StoppingShortInUse()
    ensures InUse(StoppingShort(), {0, 1, 5, 6, 7, 10})
  {
    hide HashOf;
  }

  lemma StoppingShortWellPlaced()
    ensures WellPlaced(StoppingShort(), false, [0, 1, 5, 6, 7, 10], -1)
  {
    StoppingShortProbes();
    StoppingShortInUse();
    hide HashOf, Home, Step, InUse;
    var slots, order := StoppingShort(), [0, 1, 5, 6, 7, 10];
    EarlyWellPlaced(slots, {0, 1, 5, 6, 7, 10}, order);
  }

  ghost predicate StoppingShortPaths<V>(slots: seq<Entry<V>>, hash: nat)
    requires |slots| == 11
  {
    && Probe(11, hash, 0) == 1 && Probe(11, hash, 1) == 6 && Probe(11, hash, 2) == 0
    && Probe(11, hash, 3) == 5 && Probe(11, hash, 4) == 10 && Probe(11, hash, 5) == 4
    && Onward(slots, 1, 1) == 6 && Onward(slots, 1, 2) == 0
    && Onward(slots, 1, 3) == 5 && Onward(slots, 1, 4) == 10
    && Onward(slots, 6, 1) == 1 && Onward(slots, 6, 2) == 7 && Onward(slots, 6, 3) == 2
    && Onward(slots, 0, 1) == 8
  }

  lemma StoppingShortWalks()
    ensures StoppingShortPaths(StoppingShort(), HashOf(false, [82]))
  {
    StoppingShortProbes();
    hide HashOf, Home, Step, Walk, StoppingShort;
    FirstSteps(1, 5);
    FirstSteps(6, 6);
    FirstSteps(0, 8);
  }

  lemma StoppingShortFinds<V>(slots: seq<Entry<V>>, hash: nat)
    requires InUse(slots, {0, 1, 5, 6, 7, 10}) && StoppingShortPaths(slots, hash)
    ensures WorstCase(slots, hash, 6) && forall m: nat :: !Cheaper(slots, hash, 6, 1, m)
    ensures Cheaper(slots, hash, 6, 2, 3) && Cheaper(slots, hash, 6, 3, 1)
  {
    hide Probe, Onward;
    forall m: nat
      ensures !Cheaper(slots, hash, 6, 1, m)
    {
      assert m == 0 || m == 1 || m == 2 || m == 3 || m == 4 || m >= 5;
    }
  }

  /** The first find, at probe 2 with 5 probes in all, stops the scan before one at probe 3 with 4. */
  lemma StopsShort()
    ensures WellPlaced(StoppingShort(), false, [0, 1, 5, 6, 7, 10], -1)
    ensures var hash, plan := HashOf(false, [82]), Plan(6, 2, 3);
      IsPlan(StoppingShort(), hash, plan)
      && StoppedShort(StoppingShort(), hash, plan) && !GaveUp(StoppingShort(), hash, plan)
  {
    hide HashOf, WellPlaced, StoppingShort, StoppingShortPaths, InUse, IsPlan, GaveUp, StoppedShort;
    StoppingShortWellPlaced();
    StoppingShortInUse();
    StoppingShortWalks();
    var slots, hash := StoppingShort(), HashOf(false, [82]);
    StoppingShortFinds(slots, hash);
    OneFind(slots, hash);
  }

  lemma OneFind<V>(slots: seq<Entry<V>>, hash: nat)
    requires |slots| == 11 && WorstCase(slots, hash, 6) && forall m: nat :: !Cheaper(slots, hash, 6, 1, m)
    requires Cheaper(slots, hash, 6, 2, 3) && Cheaper(slots, hash, 6, 3, 1)
    ensures var plan := Plan(6, 2, 3);
      IsPlan(slots, hash, plan) && StoppedShort(slots, hash, plan) && !GaveUp(slots, hash, plan)
  {
    assert Scanned(slots, hash, 1, Plan(6, 6, 0));
    ScanPasses(slots, hash, 1, Plan(6, 6, 0));
    ScanFinds(slots, hash, 2, Plan(6, 6, 0), 3);
    ScanEnds(slots, hash, 3, Plan(6, 2, 3));
    CheaperIff(slots, hash, 6, 1, 5);
    CheaperIff(slots, hash, 6, 3, 5);
    hide IsPlan, Cheaper;
  }
}
