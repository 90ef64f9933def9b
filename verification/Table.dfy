/** The hash table (src/lws_table.c): open addressing, double hashing, Brent relocation, ordered entries. */
module Table {
  import opened Wrappers
  import opened Primes
  import opened Probing
  import opened Sizes
  import opened SizePrimes
  import opened Keys
  import opened Queue
  import opened QueueLaws
  import opened TableState
  import M = OrderedMap

  class Table<V(==)> {
    var alloc: nat
    var load: nat
    var count: nat
    var entries: array<Entry<V>>
    var head: int
    var last: int
    var cap: nat
    var dup: bool
    var free: bool
    var ci: bool
    var capped: bool

    /** Whether lookups pass over DELETED slots. The source's do not; see the README. */
    const strict: bool

    /** The SET slots in list order. */
    ghost var order: seq<nat>

    ghost function Links(): Chain<V>
      reads this, entries
    {
      Chain(entries[..], head, last)
    }

    ghost predicate Shaped()
      reads this, entries
    {
      && entries.Length == alloc && Listed(alloc) && alloc >= 3 && IsPrime(alloc)
      && load == Load(alloc)
      && (capped ==> cap >= 1)
    }

    ghost predicate Valid()
      reads this, entries
    {
      && Shaped()
      && Inv(Links(), ci, order)
      && count == |order| <= load
      && (capped ==> count <= cap)
    }

    ghost function Map(): seq<M.Pair<V>>
      reads this, entries
      requires Valid()
    {
      Contents(entries[..], order)
    }

    ghost function Cap(): Option<nat>
      reads this
    {
      if capped then Some(cap) else None
    }

    /** A table of `size` zeroed slots. */
    constructor (size: nat, strict: bool)
      requires Listed(size)
      ensures Valid() && fresh(entries)
      ensures this.strict == strict && !capped && !ci && !dup && !free && alloc == size
      ensures Map() == [] && forall s :: 0 <= s < alloc ==> entries[s] == Zeroed()
    {
      ListedRange(size);
      ListedIsPrime(size);
      alloc, load, count := size, Load(size), 0;
      entries := new Entry<V>[size](_ => Zeroed());
      head, last := SENTINEL, SENTINEL;
      cap, dup, free, ci, capped := 0, false, false, false, false;
      this.strict := strict;
      order := [];
      new;
      EmptyWellPlaced(entries[..], ci);
    }

    /** lws_table_create; null when no listed size is large enough. */
    static method Create(load: nat, strict: bool) returns (t: Table?<V>)
      ensures t == null <==> load != LARGEST && load + load / 7 + 3 > LARGEST
      ensures t != null ==> fresh(t) && fresh(t.entries) && t.Valid() && t.Map() == []
      ensures t != null ==> t.strict == strict && !t.capped && !t.ci && !t.dup && !t.free
      ensures t != null ==> forall s :: 0 <= s < t.alloc ==> t.entries[s] == Zeroed()
      ensures t != null ==> (t.load >= load <==> load < LARGEST)
      ensures t != null ==> IsNextSize(if load < LARGEST then load + load / 7 + 3 else load, Some(t.alloc))
      ensures t != null ==> t.load == t.alloc / 2 + t.alloc / 4 + t.alloc / 8
    {
      var size := TableSize(CreateRequest(load));
      CreateMeetsLoad(load, size);
      if size == None {
        return null;
      }
      t := new Table(size.value, strict);
    }

    /** lws_table_set_ci; refused while the table has entries. */
    method SetCi(ci: bool) returns (rc: int)
      requires Valid()
      modifies this`ci
      ensures Valid() && Map() == old(Map())
      ensures rc == if old(count) > 0 then -1 else 0
      ensures this.ci == if rc == 0 then ci else old(this.ci)
    {
      if count != 0 {
        return -1;
      }
      this.ci := ci;
      return 0;
    }

    /** lws_table_set_cap; refused while the table has entries, and for a cap of zero. */
    method SetCap(cap: nat) returns (rc: int)
      requires Valid()
      modifies this`cap, this`capped
      ensures Valid() && Map() == old(Map())
      ensures rc == if old(count) > 0 || cap < 1 then -1 else 0
      ensures Cap() == if rc == 0 then Some(cap) else old(Cap())
    {
      if count != 0 || cap < 1 {
        return -1;
      }
      this.cap := cap;
      capped := true;
      return 0;
    }

    // ----- the list

    method QueueRemove(x: nat)
      requires Links().Bounded() && x < entries.Length
      modifies this`head, this`last, entries
      ensures Links() == Queue.Remove(old(Links()), x)
    {
      var p, n := entries[x].prev, entries[x].next;
      if n == SENTINEL { last := p; } else { entries[n] := entries[n].(prev := p); }
      p, n := entries[x].prev, entries[x].next;
      if p == SENTINEL { head := n; } else { entries[p] := entries[p].(next := n); }
    }

    method QueueInsertTail(x: nat)
      requires Links().Bounded() && x < entries.Length
      modifies this`head, this`last, entries
      ensures Links() == Queue.InsertTail(old(Links()), x)
    {
      entries[x] := entries[x].(prev := last);
      var p := entries[x].prev;
      if p == SENTINEL { head := x; } else { entries[p] := entries[p].(next := x); }
      entries[x] := entries[x].(next := SENTINEL);
      last := x;
    }

    method QueueInsertHead(x: nat)
      requires Links().Bounded() && x < entries.Length
      modifies this`head, this`last, entries
      ensures Links() == Queue.InsertHead(old(Links()), x)
    {
      entries[x] := entries[x].(next := head);
      var n := entries[x].next;
      if n == SENTINEL { last := x; } else { entries[n] := entries[n].(prev := x); }
      entries[x] := entries[x].(prev := SENTINEL);
      head := x;
    }

    // ----- lookup

    /** The home slot and the step of a hash. */
    method StartProbe(hash: nat) returns (h: nat, q: nat)
      requires alloc >= 3
      ensures h == Home(alloc, hash) && q == Step(alloc, hash)
    {
      ResidueIsRemainder(hash, alloc);
      ResidueIsRemainder(hash, alloc - 2);
      h, q := hash % alloc, hash % (alloc - 2) + 1;
    }

    method NextProbe(h: nat, q: nat) returns (h': nat)
      requires h < alloc && q < alloc
      ensures h' == Advance(alloc, h, q)
    {
      AdvanceIsRemainder(alloc, h, q);
      h' := (h + q) % alloc;
    }

    method IsMatch(e: Entry<V>, key: bytes, hash: nat) returns (b: bool)
      requires e.state != Unused
      ensures b <==> Matches(ci, strict, e, key, hash)
    {
      if (strict && e.state != Set) || e.hash != hash || |e.key| != |key| {
        return false;
      }
      var d := Compare(ci, e.key, key, |key|);
      assert e.key[..|key|] == e.key && key[..|key|] == key;
      return d == 0;
    }

    /** lws_table_find: the slot the lookup stops at, or -1. */
    method Find(key: bytes, hash: nat) returns (r: int)
      requires Shaped()
      ensures r == FindFrom(entries[..], ci, strict, key, hash, 0)
    {
      hide Listed;
      ProbesDistinct(alloc, hash);
      var h, q := StartProbe(hash);
      var start := h;
      ghost var j := 0;
      while entries[h].state != Unused
        invariant 0 <= j < alloc && h == Probe(alloc, hash, j)
        invariant FindFrom(entries[..], ci, strict, key, hash, 0) == FindFrom(entries[..], ci, strict, key, hash, j)
        decreases alloc - j
      {
        var found := IsMatch(entries[h], key, hash);
        if found {
          return h;
        }
        h := NextProbe(h, q);
        j := j + 1;
        if h == start {
          break;
        }
      }
      return -1;
    }

    // ----- insertion

    /** The first loop of lws_table_insert: the first probe that meets a slot that is not SET. */
    method WorstLength(hash: nat) returns (worst: nat, h: nat)
      requires Shaped() && |order| < alloc
      requires WellPlaced(entries[..], ci, order, NO_HOLE)
      ensures WorstCase(entries[..], hash, worst) && h == Probe(alloc, hash, worst - 1)
    {
      hide Listed, WellPlaced, IsPrime, Home, Step;
      ghost var free := FreeProbe(entries[..], ci, order, hash);
      var q;
      h, q := StartProbe(hash);
      worst := 1;
      while entries[h].state == Set
        invariant 1 <= worst <= free + 1 && h == Probe(alloc, hash, worst - 1)
        invariant forall i :: 0 <= i < worst - 1 ==> entries[Probe(alloc, hash, i)].state == Set
        decreases free - worst
      {
        h := NextProbe(h, q);
        worst := worst + 1;
      }
    }

    /** The inner loop: the next free slot for the entry in h, as long as that stays below the worst case. */
    method NextFree(h: nat, len: nat, worst: nat) returns (found: bool, to: nat, ext: nat)
      requires Shaped() && h < alloc && entries[h].state == Set && len <= worst - 2
      ensures to < alloc
      ensures found ==> FreeAfter(entries[..], h, ext, to) && len + ext < worst
      ensures !found ==> forall m :: 1 <= m && len + m < worst ==> entries[Onward(entries[..], h, m)].state == Set
    {
      hide Listed;
      var q := StartStep(entries[h].hash);
      assert Onward(entries[..], h, 0) == h;
      to := NextProbe(h, q);
      ext := 1;
      while true
        invariant 1 <= ext && to == Onward(entries[..], h, ext) && len + ext < worst
        invariant forall m :: 1 <= m < ext ==> entries[Onward(entries[..], h, m)].state == Set
        decreases worst - ext
      {
        if entries[to].state != Set {
          return true, to, ext;
        }
        if len + ext >= worst - 1 {
          return false, to, ext;
        }
        to := NextProbe(to, q);
        ext := ext + 1;
      }
    }

    method StartStep(hash: nat) returns (q: nat)
      requires alloc >= 3
      ensures q == Step(alloc, hash)
    {
      ResidueIsRemainder(hash, alloc - 2);
      q := hash % (alloc - 2) + 1;
    }

    /** The latest find of the scan, as the source keeps it. */
    ghost predicate Keeps(hash: nat, plan: Plan, from: nat, to: nat)
      reads this, entries
      requires alloc >= 3 && entries.Length == alloc
    {
      && plan.len >= 1
      && (plan.ext == 0 ==> plan.len == plan.worst)
      && (plan.ext > 0 ==> from == Target(entries[..], hash, plan) && to == Onward(entries[..], from, plan.ext))
    }

    /** One round of the outer loop: the entry that probe `len` meets is tried. */
    method Consider(hash: nat, h: nat, len: nat, plan: Plan, from: nat, to: nat)
      returns (plan': Plan, from': nat, to': nat)
      requires Shaped() && WorstCase(entries[..], hash, plan.worst)
      requires 1 <= len <= plan.worst - 2 && h == Probe(alloc, hash, len - 1) && (plan.ext > 0 ==> len < plan.ext)
      requires Scanned(entries[..], hash, len, plan) && Keeps(hash, plan, from, to)
      ensures plan'.worst == plan.worst && Keeps(hash, plan', from', to')
      ensures Scanned(entries[..], hash, len + 1, plan')
    {
      hide Listed, Scanned, IsPrime;
      plan', from', to' := plan, from, to;
      var found, move, ext := NextFree(h, len, plan.worst);
      if found {
        ScanFinds(entries[..], hash, len, plan, ext);
        plan', from', to' := Plan(plan.worst, len, ext), h, move;
      } else {
        ScanPasses(entries[..], hash, len, plan);
      }
    }

    /** The outer loop: which of the probes before the last but one to take over, if any. */
    method Relocation(hash: nat, worst: nat) returns (from: nat, to: nat, plan: Plan, h: nat, q: nat)
      requires Shaped() && worst > 2 && WorstCase(entries[..], hash, worst)
      ensures IsPlan(entries[..], hash, plan) && Keeps(hash, plan, from, to)
      ensures plan.ext == 0 ==> h == Probe(alloc, hash, worst - 2)
      ensures q == Step(alloc, hash)
    {
      hide Listed;
      h, q := StartProbe(hash);
      var len := 1;
      plan := Plan(worst, worst, 0);
      from, to := 0, 0;
      assert Scanned(entries[..], hash, len, plan) && Keeps(hash, plan, from, to);
      hide Scanned, IsPlan, WorstCase, IsPrime;
      while true
        invariant 1 <= len <= worst - 2 && h == Probe(alloc, hash, len - 1)
        invariant plan.worst == worst && (plan.ext > 0 ==> len < plan.ext)
        invariant Scanned(entries[..], hash, len, plan) && Keeps(hash, plan, from, to)
        decreases worst - len
      {
        plan, from, to := Consider(hash, h, len, plan, from, to);
        h := NextProbe(h, q);
        len := len + 1;
        if !(len < worst - 1 && (plan.ext == 0 || len < plan.ext)) {
          ScanEnds(entries[..], hash, len, plan);
          return;
        }
      }
    }

    /**
     * lws_table_insert: the slot for a new entry with `hash`. The slot is still to be filled; when an
     * entry was relocated to make room, a copy of it is left there.
     */
    method Insert(hash: nat) returns (r: nat, ghost plan: Plan)
      requires Shaped() && Links().Linked(order) && |order| < alloc
      requires WellPlaced(entries[..], ci, order, NO_HOLE)
      modifies this`head, this`last, this`order, entries
      ensures MadeRoom(old(entries[..]), old(order), hash, plan, entries[..], order)
      ensures r == Target(old(entries[..]), hash, plan)
      ensures Links().Linked(order)
    {
      hide Listed;
      var worst, h := WorstLength(hash);
      if worst <= 2 {
        return h, Plan(worst, worst, 0);
      }
      var from, to, found, last, q := Relocation(hash, worst);
      plan := found;
      if found.ext > 0 {
        Move(from, to);
        return from, plan;
      }
      h := NextProbe(last, q);
      return h, plan;
    }

    /** Relocate an entry and point its neighbours at its new slot. */
    method Move(from: nat, to: nat)
      requires Links().Linked(order) && from in order && to < entries.Length && to !in order
      modifies this`head, this`last, this`order, entries
      ensures Links() == Queue.MoveSlot(old(Links()), from, to)
      ensures exists k :: 0 <= k < |old(order)| && old(order)[k] == from && order == old(order)[k := to]
      ensures Links().Linked(order)
    {
      ghost var k :| 0 <= k < |order| && order[k] == from;
      MoveSlotRelinks(Links(), order, k, to);
      entries[to] := entries[from];
      var p := entries[to].prev;
      if p == SENTINEL { head := to; } else { entries[p] := entries[p].(next := to); }
      var n := entries[to].next;
      if n == SENTINEL { last := to; } else { entries[n] := entries[n].(prev := to); }
      order := order[k := to];
    }

    // ----- removal

    /** lws_table_remove; `key` and `value` say what was in the slot and is only there still if it was not freed. */
    method Remove(x: nat)
      requires Links().Bounded() && x < entries.Length
      modifies this`head, this`last, this`count, entries
      ensures Links() == Removed(old(Links()), x, entries[x].key, entries[x].value)
      ensures Left(dup, free, old(entries[x]), entries[x])
      ensures count == if old(count) == 0 then SIZE_MAX else old(count) - 1
    {
      QueueRemove(x);
      if dup {
        var freed: bytes := *;
        var n := |entries[x].key|;
        entries[x] := entries[x].(key := seq(n, i requires 0 <= i < n => if i < |freed| then freed[i] else 0));
      }
      if free {
        var freed: Option<V> := *;
        entries[x] := entries[x].(value := freed);
      }
      entries[x] := entries[x].(state := Deleted);
      count := if count == 0 then SIZE_MAX else count - 1;
    }

    /** The table owns neither keys nor values, so that dead slots can still be read. */
    ghost predicate Borrows()
      reads this
    {
      !dup && !free
    }

    /** Removal of entry k of the list. */
    method RemoveListed(ghost k: nat, x: nat)
      requires Valid() && k < |order| && x == order[k]
      modifies this`head, this`last, this`count, this`order, entries
      ensures Valid() && Map() == M.Without(old(Map()), k) && count == old(count) - 1
      ensures forall s :: 0 <= s < entries.Length && s != x ==> SameCore(old(entries[s]), entries[s])
      ensures Left(dup, free, old(entries[x]), entries[x])
      ensures Links() == Removed(old(Links()), x, entries[x].key, entries[x].value)
    {
      hide Listed, WellPlaced, M.Unique, Left;
      Remove(x);
      RemovedInv(old(Links()), ci, order, k, entries[x].key, entries[x].value);
      order := Queue.Without(order, k);
    }

    // ----- rehash

    lemma ListedHaveValues()
      requires Valid()
      ensures HasValues(entries[..], order) && M.Unique(Classifier(ci), Map()) && |Map()| == |order|
    {
    }

    /**
     * lws_table_rehash: the entries move to an array of the next listed size, from the last to the first.
     * -1, with nothing done, when there is no such size.
     */
    method Rehash(size: nat) returns (rc: int)
      requires Valid() && size > alloc
      modifies this`alloc, this`load, this`head, this`last, this`order, this`entries
      ensures Valid() && Map() == old(Map())
      ensures rc == 0 ==> fresh(entries) && IsNextSize(size, Some(alloc)) && count < load
      ensures rc == 0 ==> load == alloc / 2 + alloc / 4 + alloc / 8
      ensures rc == 0 ==> forall s :: 0 <= s < alloc ==> entries[s].state != Deleted
      ensures rc == if size > LARGEST then -1 else 0
      ensures rc != 0 ==> entries == old(entries) && entries[..] == old(entries[..]) && Links() == old(Links())
      ensures rc != 0 ==> alloc == old(alloc) && load == old(load) && order == old(order)
    {
      hide Inv, Rehashed, WellPlaced, Contents, NoTombstones;
      var found := TableSize(size);
      if found == None {
        SortedUpTo(SIZES_N - 1);
        LargestIsLast();
        return -1;
      }
      ghost var c, from := Links(), order;
      ListedHaveValues();
      LoadGrows(alloc, found.value);
      ListedRange(found.value);
      var olds, q := entries, last;
      Replace(found.value);
      Reinsert(olds, q, c, from);
      RehashedAll(Contents(c.slots, from));
      return 0;
    }

    /** A new array of zeroed slots, and an empty list. */
    method Replace(size: nat)
      requires Listed(size) && (capped ==> cap >= 1)
      modifies this`alloc, this`load, this`head, this`last, this`order, this`entries
      ensures fresh(entries) && alloc == size && order == []
      ensures forall m: seq<M.Pair<V>> :: Rehashed(m, |m|)
    {
      ListedRange(size);
      ListedIsPrime(size);
      alloc, load := size, Load(size);
      entries := new Entry<V>[size](_ => Zeroed());
      head, last, order := SENTINEL, SENTINEL, [];
      EmptyWellPlaced(entries[..], ci);
    }

    lemma RehashedAll(m: seq<M.Pair<V>>)
      requires Rehashed(m, 0) && M.Unique(Classifier(ci), m)
      ensures Shaped() && Inv(Links(), ci, order) && |order| == |m| && Contents(entries[..], order) == m
      ensures forall s :: 0 <= s < alloc ==> entries[s].state != Deleted
    {
      assert Contents(entries[..], order) == m;
    }

    /** The entries of the old table from position k on are in the new one. */
    ghost predicate Rehashed(m: seq<M.Pair<V>>, k: nat)
      reads this, entries
    {
      && Shaped() && WellPlaced(entries[..], ci, order, NO_HOLE) && Links().Linked(order)
      && |order| + k == |m|
      && (forall i :: 0 <= i < |order| ==> Contents(entries[..], order)[i] == m[k + i])
      && NoTombstones(entries[..])
    }

    /** The walk of the rehash over the old list, backwards from q. */
    method Reinsert(olds: array<Entry<V>>, q: int, ghost c: Chain<V>, ghost from: seq<nat>)
      requires Inv(c, ci, from) && olds[..] == c.slots && olds != entries && q == c.last
      requires |c.slots| <= alloc && |from| < alloc && Rehashed(Contents(c.slots, from), |from|)
      modifies this`head, this`last, this`order, entries
      ensures Rehashed(Contents(c.slots, from), 0)
    {
      hide Listed, Placed, M.Unique, Fresh, NoTombstones;
      var q := q;
      ghost var k := |from|;
      assert c.Joined(At(from, k - 1), At(from, k));
      while q != SENTINEL
        invariant olds[..] == c.slots
        invariant 0 <= k <= |from| && q == At(from, k - 1)
        invariant Rehashed(Contents(c.slots, from), k)
        decreases k
      {
        assert c.Joined(At(from, k - 1 - 1), At(from, k - 1));
        k := k - 1;
        ListedFresh(c, from, k);
        ReinsertOne(Contents(c.slots, from), k, olds[q]);
        q := olds[q].prev;
      }
    }

    lemma ListedFresh(c: Chain<V>, from: seq<nat>, k: nat)
      requires Inv(c, ci, from) && k < |from| && |c.slots| <= alloc && alloc == entries.Length
      ensures var e := c.slots[from[k]];
        Fresh(Links(), ci, e.hash, e) && M.Pair(e.key, e.value.value) == Contents(c.slots, from)[k]
    {
      assert from[k] in from;
    }

    /** One step of the rehash: an old entry goes in front of those already in the new table. */
    method ReinsertOne(ghost m: seq<M.Pair<V>>, ghost k: nat, e: Entry<V>)
      requires k < |m| && |order| < alloc && Rehashed(m, k + 1)
      requires Fresh(Links(), ci, e.hash, e) && M.Pair(e.key, e.value.value) == m[k]
      modifies this`head, this`last, this`order, entries
      ensures Rehashed(m, k)
    {
      hide Listed;
      ghost var slots := entries[..];
      InsertAtHead(e);
      forall i | 0 <= i < |order|
        ensures Contents(entries[..], order)[i] == m[k + i]
      {
        if i > 0 {
          assert Contents(entries[..], order)[i] == Contents(slots, old(order))[i - 1];
        }
      }
    }

    method InsertAtHead(e: Entry<V>)
      requires Shaped() && WellPlaced(entries[..], ci, order, NO_HOLE) && Links().Linked(order) && |order| < alloc
      requires Fresh(Links(), ci, e.hash, e) && NoTombstones(entries[..])
      modifies this`head, this`last, this`order, entries
      ensures WellPlaced(entries[..], ci, order, NO_HOLE) && Links().Linked(order) && NoTombstones(entries[..])
      ensures Contents(entries[..], order)
        == [M.Pair(e.key, e.value.value)] + old(Contents(entries[..], order))
    {
      hide Listed;
      ghost var c0, order0 := Links(), order;
      var r, plan := Insert(e.hash);
      InsertedAtHead(c0, ci, order0, e.hash, plan, Links(), order, e);
      InsertedNoTombstones(c0, order0, e.hash, plan, Links(), order, e);
      entries[r] := e;
      QueueInsertHead(r);
      order := [r] + order;
    }

    // ----- the operations

    ghost function Hit(key: bytes): int
      reads this, entries
      requires Valid()
    {
      FindFrom(entries[..], ci, strict, key, HashOf(ci, key), 0)
    }

    /** The lookup stops at the tombstone of an entry that was removed. */
    ghost predicate Stale(key: bytes)
      reads this, entries
      requires Valid()
    {
      Hit(key) >= 0 && entries[Hit(key)].state != Set
    }

    ghost function IndexOf(key: bytes): int
      reads this, entries
      requires Valid()
    {
      M.IndexOf(Classifier(ci), Map(), key)
    }

    /** What a lookup of the key hands back, be it from an entry or from a tombstone. */
    ghost function Answer(key: bytes): Option<V>
      reads this, entries
      requires Valid()
    {
      if Hit(key) == -1 then None else entries[Hit(key)].value
    }

    /** Some order makes the table valid, whatever was taken for its order so far. */
    ghost predicate Intact()
      reads this, entries
    {
      exists o :: Inv(Links(), ci, o) && |o| == count
    }

    /** A set of the key evicts an entry first. */
    ghost predicate Evicts(key: bytes)
      reads this, entries
      requires Valid()
    {
      Hit(key) == -1 && M.Full(Cap(), Map())
    }

    /** With the source's lookup, slots are legible as long as nothing is freed; without tombstones, they always are. */
    lemma LegibleWithoutTombstones()
      requires Valid() && NoTombstones(entries[..])
      ensures Legible(entries[..], ci)
    {
      hide Listed;
      InvLegible(Links(), ci, order);
    }

    /** A lookup that does not stop at a tombstone answers as the map does. */
    lemma AnswerIsRight(key: bytes)
      requires Valid() && !Stale(key)
      ensures Answer(key) == M.Lookup(Classifier(ci), Map(), key)
      ensures Answer(key) == None <==> Hit(key) == -1
    {
      hide Listed, WellPlaced;
      FindMeansLookup(entries[..], ci, strict, order, key);
      if Hit(key) >= 0 {
        EntryAt(IndexOf(key));
      }
    }

    /** For one key: the lookup answers as the map does if and only if it does not stop at a tombstone. */
    lemma AnswerIsRightIff(key: bytes)
      requires Valid() && !strict && Legible(entries[..], ci)
      ensures Answer(key) == M.Lookup(Classifier(ci), Map(), key) <==> !Stale(key)
      ensures Stale(key) ==> IndexOf(key) == -1 && M.Lookup(Classifier(ci), Map(), key) == None
    {
      hide Listed, WellPlaced;
      if Stale(key) {
        DeadMeansAbsent(entries[..], ci, order, key);
        assert Readable(entries[..], ci, Hit(key));
      } else {
        AnswerIsRight(key);
      }
    }

    /** For every key: if and only if there is no tombstone. */
    lemma AnswersAreRightIff()
      requires Valid() && !strict && Legible(entries[..], ci)
      ensures (forall key :: Answer(key) == M.Lookup(Classifier(ci), Map(), key)) <==> NoTombstones(entries[..])
    {
      if NoTombstones(entries[..]) {
        forall key
          ensures Answer(key) == M.Lookup(Classifier(ci), Map(), key)
        {
          AnswerIsRightIff(key);
        }
      } else {
        var s :| 0 <= s < |entries[..]| && entries[..][s].state == Deleted;
        FindIsOnly(entries[..], ci, entries[s].key, s);
        assert Stale(entries[s].key);
        AnswerIsRightIff(entries[s].key);
      }
    }

    /** The queue operations of a get or an update on a capped table. */
    method Touch(x: nat)
      requires Links().Bounded() && x < entries.Length
      modifies this`head, this`last, entries
      ensures Links() == Touched(old(Links()), x)
    {
      QueueRemove(x);
      QueueInsertTail(x);
    }

    method TouchListed(ghost k: nat, x: nat)
      requires Valid() && k < |order| && x == order[k]
      modifies this`head, this`last, this`order, entries
      ensures Valid() && Map() == M.Without(old(Map()), k) + [old(Map())[k]]
      ensures SameCores(old(entries[..]), entries[..]) && x == order[|order| - 1]
    {
      hide Listed, WellPlaced, M.Unique, Contents, HasValues, SameCores;
      TouchedInv(Links(), ci, order, k);
      Touch(x);
      order := Queue.Without(order, k) + [order[k]];
    }

    /** Relinking a tombstone leaves no order that would make the table valid. */
    method TouchDead(x: nat)
      requires Valid() && x < entries.Length && entries[x].state != Set
      modifies this`head, this`last, entries
      ensures Links() == Touched(old(Links()), x) && SameCores(old(entries[..]), entries[..])
      ensures forall o :: !Inv(Links(), ci, o)
    {
      hide Listed;
      ghost var c := Links();
      Touch(x);
      forall o
        ensures !Inv(Links(), ci, o)
      {
        TouchedDead(c, ci, order, x, o);
      }
    }

    lemma StaleTombstone(key: bytes)
      requires Valid() && Stale(key)
      ensures !NoTombstones(entries[..])
    {
      hide Inv;
    }

    /** What a lookup says about the map. */
    lemma Found(key: bytes, x: int)
      requires Valid() && x == Hit(key) && -1 <= x < entries.Length
      requires x == -1 ==> IndexOf(key) == -1
      requires x >= 0 && entries[x].state == Set ==> 0 <= IndexOf(key) < |order| && x == order[IndexOf(key)]
      ensures Answer(key) == if x == -1 then None else entries[x].value
      ensures !Stale(key) ==> M.Lookup(Classifier(ci), Map(), key) == Answer(key)
      ensures x == -1 || !capped ==> M.AfterGet(Classifier(ci), Cap(), Map(), key) == Map()
    {
      hide Inv;
      if x >= 0 && entries[x].state == Set {
        EntryAt(IndexOf(key));
      }
    }

    /** A listed entry of a capped table is looked up. */
    method Use(key: bytes, x: nat)
      requires Valid() && capped && 0 <= IndexOf(key) < |order| && x == order[IndexOf(key)]
      modifies this`head, this`last, this`order, entries
      ensures Valid() && Map() == M.AfterGet(Classifier(ci), Cap(), old(Map()), key)
      ensures Intact()
      ensures old(Legible(entries[..], ci)) ==> Legible(entries[..], ci)
      ensures old(NoTombstones(entries[..])) ==> NoTombstones(entries[..])
    {
      hide Listed, WellPlaced, M.Unique, Legible;
      ghost var slots := entries[..];
      TouchListed(IndexOf(key), x);
      IsIntact();
      if Legible(slots, ci) {
        LegibleKept(slots, entries[..], ci);
      }
    }

    /** The slot at x is taken off the list and put back at its end. */
    twostate predicate Relinked(x: int)
      reads this, entries
      requires old(Valid())
    {
      0 <= x < old(entries.Length) && Links() == Touched(old(Links()), x)
    }

    method UseDead(x: nat)
      requires Valid() && x < entries.Length && entries[x].state != Set
      modifies this`head, this`last, entries
      ensures !Intact() && Relinked(x)
      ensures old(Legible(entries[..], ci)) ==> Legible(entries[..], ci)
      ensures old(NoTombstones(entries[..])) ==> NoTombstones(entries[..])
    {
      hide Listed, WellPlaced, Legible, Inv;
      ghost var slots := entries[..];
      TouchDead(x);
      if Legible(slots, ci) {
        LegibleKept(slots, entries[..], ci);
      }
    }

    /**
     * lws_table_get. The table stays what it is if and only if it has no cap or the lookup does not stop at a
     * tombstone; AnswerIsRightIff says when the value is right.
     */
    method Get(key: bytes) returns (r: Option<V>)
      requires Valid()
      modifies this`head, this`last, this`order, entries
      ensures r == old(Answer(key))
      ensures !old(Stale(key)) ==> Valid() && r == M.Lookup(Classifier(ci), old(Map()), key)
      ensures !old(Stale(key)) ==> Map() == M.AfterGet(Classifier(ci), Cap(), old(Map()), key)
      ensures !capped ==> Valid() && Map() == old(Map()) && entries[..] == old(entries[..])
      ensures Intact() <==> !capped || !old(Stale(key))
      ensures capped && old(Stale(key)) ==> order == old(order) && Relinked(old(Hit(key)))
      ensures old(Legible(entries[..], ci)) ==> Legible(entries[..], ci)
      ensures old(NoTombstones(entries[..])) ==> NoTombstones(entries[..])
    {
      hide Valid, Legible, NoTombstones, Intact, Map, IndexOf, Inv, M.AfterGet, M.Lookup;
      var hash, x := Locate(key);
      Found(key, x);
      if x < 0 {
        IsIntact();
        return None;
      }
      r := entries[x].value;
      if capped {
        if entries[x].state == Set {
          Use(key, x);
        } else {
          UseDead(x);
        }
      } else {
        IsIntact();
      }
    }

    method UpdateListed(ghost k: nat, x: nat, value: V)
      requires Valid() && k < |order| && x == order[k]
      modifies entries
      ensures Valid() && Map() == old(Map())[k := M.Pair(old(Map())[k].key, value)]
      ensures entries[..] == old(entries[..])[x := old(entries[x]).(value := Some(value))]
    {
      hide Listed;
      UpdatedInv(Links(), ci, order, k, value);
      M.UpdateUnique(Classifier(ci), Map(), k, value);
      entries[x] := entries[x].(value := Some(value));
    }

    /** No slot in use, listed or dead, has the key. */
    ghost predicate Unheld(key: bytes)
      reads this, entries
    {
      forall s :: 0 <= s < entries.Length && entries[s].state != Unused ==> !Same(ci, entries[s].key, key)
    }

    lemma UnheldWithoutTombstones(key: bytes)
      requires Valid() && NoTombstones(entries[..]) && IndexOf(key) == -1
      ensures Unheld(key)
    {
      forall s | 0 <= s < entries.Length && entries[s].state != Unused
        ensures !Same(ci, entries[s].key, key)
      {
        assert s in order;
        var k :| 0 <= k < |order| && order[k] == s;
        assert !M.Alike(Classifier(ci), Map()[k].key, key);
      }
    }

    lemma NotFoundUnheld(key: bytes)
      requires Valid() && !strict && Legible(entries[..], ci) && Hit(key) == -1
      ensures Unheld(key)
    {
      hide Listed, WellPlaced;
      forall s | 0 <= s < entries.Length && entries[s].state != Unused
        ensures !Same(ci, entries[s].key, key)
      {
        if Same(ci, entries[s].key, key) {
          FindIsOnly(entries[..], ci, key, s);
        }
      }
    }

    /** The "new entry" steps of lws_table_set, for a key that is not in the table. */
    method Add(key: bytes, hash: nat, value: V)
      requires Valid() && IndexOf(key) == -1 && hash == HashOf(ci, key)
      requires count < load && (capped ==> count < cap)
      modifies this`head, this`last, this`count, this`order, entries
      ensures Valid() && Map() == old(Map()) + [M.Pair(key, value)]
      ensures old(NoTombstones(entries[..])) ==> NoTombstones(entries[..])
      ensures old(Legible(entries[..], ci) && Unheld(key)) ==> Legible(entries[..], ci)
      ensures GoesHome(old(entries[..]), entries[..], hash) && DeadFrom(old(entries[..]), entries[..])
    {
      hide Listed, Legible, GoesHome, DeadFrom, IsPlan, MadeRoom, Filled, NoTombstones;
      ghost var slots0, order0 := entries[..], order;
      M.AppendUnique(Classifier(ci), Map(), M.Pair(key, value));
      ghost var plan, slots1, order1 := InsertAtTail(key, hash, value);
      count := count + 1;
      InsertedGoesHome(ci, slots0, order0, key, hash, plan, slots1, order1, entries[..]);
      InsertedDeadFrom(ci, slots0, order0, key, hash, plan, slots1, order1, entries[..]);
      if Legible(slots0, ci) && old(Unheld(key)) {
        LegibleInserted(slots0, ci, order0, hash, plan, slots1, order1, entries[..]);
      }
    }

    method InsertAtTail(key: bytes, hash: nat, value: V)
      returns (ghost plan: Plan, ghost slots1: seq<Entry<V>>, ghost order1: seq<nat>)
      requires Shaped() && WellPlaced(entries[..], ci, order, NO_HOLE) && Links().Linked(order) && |order| < alloc
      requires hash == HashOf(ci, key)
      modifies this`head, this`last, this`order, entries
      ensures WellPlaced(entries[..], ci, order, NO_HOLE) && Links().Linked(order)
      ensures |order| == |old(order)| + 1
      ensures Contents(entries[..], order) == old(Contents(entries[..], order)) + [M.Pair(key, value)]
      ensures old(NoTombstones(entries[..])) ==> NoTombstones(entries[..])
      ensures InsertedAs(ci, old(entries[..]), old(order), key, hash, plan, slots1, order1, entries[..])
    {
      hide Listed, IsPlan, MadeRoom, NoTombstones;
      ghost var c0, order0 := Links(), order;
      var x;
      x, plan := Insert(hash);
      RoomShape(c0.slots, order0, hash, plan, entries[..], order);
      slots1, order1 := entries[..], order;
      ghost var e := entries[x].(state := Set, key := key, value := Some(value), hash := hash);
      InsertedAtTail(c0, ci, order0, hash, plan, Links(), order1, e);
      if NoTombstones(c0.slots) {
        InsertedNoTombstones(c0, order0, hash, plan, Links(), order1, e);
      }
      entries[x] := entries[x].(key := key, value := Some(value), hash := hash, state := Set);
      QueueInsertTail(x);
      order := order + [x];
    }

    /** The "evict" step of lws_table_set, for a key that is not in the table. */
    method Evict(ghost key: bytes)
      requires Valid() && IndexOf(key) == -1
      modifies this`head, this`last, this`count, this`order, entries
      ensures Valid() && IndexOf(key) == -1
      ensures Map() == M.Evicted(Cap(), old(Map())) && count == |Map()|
      ensures capped ==> count < cap
      ensures !old(M.Full(Cap(), Map())) ==> entries[..] == old(entries[..])
      ensures old(M.Full(Cap(), Map())) ==> EvictedFirst()
    {
      hide Listed;
      if capped && count == cap {
        assert Links().Joined(At(order, 0 - 1), At(order, 0));
        M.WithoutIndex(Classifier(ci), Map(), 0, key);
        RemoveListed(0, head);
      }
    }

    /** The first entry has become a tombstone; nothing else has changed but links. */
    twostate predicate EvictedFirst()
      reads this, entries
    {
      && entries == old(entries) && count == old(count) - 1
      && FirstLeft(dup, free, old(order), old(entries[..]), entries[..])
    }

    /** An eviction from a table that does not own its keys leaves every slot legible, and no slot with a new key. */
    lemma EvictedLegible(slots: seq<Entry<V>>, key: bytes, order0: seq<nat>)
      requires Legible(slots, ci) && |slots| == entries.Length && Borrows()
      requires forall s :: 0 <= s < |slots| && slots[s].state != Unused ==> !Same(ci, slots[s].key, key)
      requires FirstLeft(dup, free, order0, slots, entries[..]) && slots[order0[0]].state == Set
      ensures Legible(entries[..], ci) && Unheld(key)
    {
      hide Legible, Same;
      LegibleKept(slots, entries[..], ci);
    }

    lemma EvictedCount()
      requires Valid()
      ensures |M.Evicted(Cap(), Map())| == count - (if M.Full(Cap(), Map()) then 1 else 0)
      ensures |Map()| == count <= load
    {
    }

    lemma FirstIsSet()
      requires Valid()
      ensures entries.Length >= 3
      ensures order != [] ==> order[0] < entries.Length && entries[order[0]].state == Set
      ensures M.Full(Cap(), Map()) ==> order != []
    {
      hide Listed;
      assert order != [] ==> order[0] in order;
    }

    lemma HeadIsFirst()
      requires Valid() && order != []
      ensures 0 <= head < entries.Length && head == order[0] && Map() != []
      ensures Map()[0].key == entries[head].key && Some(Map()[0].value) == entries[head].value
    {
      LinkAfter(-1);
    }

    /** The "evict" and "rehash" steps of lws_table_set. */
    method MakeSpace(key: bytes) returns (rc: int)
      requires Valid() && IndexOf(key) == -1
      modifies this`alloc, this`load, this`entries, this`head, this`last, this`count, this`order, entries
      ensures Valid() && IndexOf(key) == -1 && Map() == M.Evicted(Cap(), old(Map()))
      ensures entries == old(entries) || fresh(entries)
      ensures rc == if |M.Evicted(Cap(), old(Map()))| == old(load) && old(alloc) == LARGEST then -1 else 0
      ensures rc == 0 ==> count < load && (capped ==> count < cap)
      ensures old(NoTombstones(entries[..]) && !M.Full(Cap(), Map())) ==> NoTombstones(entries[..])
      ensures old(Legible(entries[..], ci) && Unheld(key) && (!M.Full(Cap(), Map()) || Borrows())) ==>
        Legible(entries[..], ci) && Unheld(key)
      ensures old(M.Full(Cap(), Map())) ==> rc == 0 && EvictedFirst()
      ensures !old(M.Full(Cap(), Map())) ==> DeadFrom(old(entries[..]), entries[..])
      ensures old(!M.Full(Cap(), Map()) && count < load) ==>
        rc == 0 && entries == old(entries) && entries[..] == old(entries[..])
    {
      hide Valid, Legible, NoTombstones, FirstLeft, Aside, IndexOf, Map, M.Full, M.Evicted;
      FirstIsSet();
      EvictedCount();
      ghost var slots := entries[..];
      Evict(key);
      if Legible(slots, ci) && old(Unheld(key) && M.Full(Cap(), Map()) && Borrows()) {
        EvictedLegible(slots, key, old(order));
      }
      rc := GrowIfFull(key);
    }

    /** The "rehash" step of lws_table_set. */
    method GrowIfFull(ghost key: bytes) returns (rc: int)
      requires Valid() && IndexOf(key) == -1
      modifies this`alloc, this`load, this`entries, this`head, this`last, this`order
      ensures Valid() && IndexOf(key) == -1 && Map() == old(Map())
      ensures entries == old(entries) || fresh(entries)
      ensures old(count < load) ==> rc == 0 && entries == old(entries) && entries[..] == old(entries[..])
      ensures rc == if count == old(load) && old(alloc) == LARGEST then -1 else 0
      ensures rc == 0 ==> count < load
      ensures old(NoTombstones(entries[..])) ==> NoTombstones(entries[..])
      ensures DeadFrom(old(entries[..]), entries[..])
      ensures old(Legible(entries[..], ci) && Unheld(key)) ==> Legible(entries[..], ci) && Unheld(key)
    {
      ListedRange(alloc);
      hide Listed, IsNextSize, WellPlaced, Legible, M.Unique;
      rc := 0;
      if count == load {
        rc := Rehash(alloc + 1);
        if rc == 0 {
          LegibleWithoutTombstones();
          UnheldWithoutTombstones(key);
        }
      }
    }

    /** The "evict", "rehash" and "new entry" steps. */
    method Enter(key: bytes, hash: nat, value: V) returns (rc: int)
      requires Valid() && IndexOf(key) == -1 && hash == HashOf(ci, key)
      modifies this`alloc, this`load, this`entries, this`head, this`last, this`count, this`order, entries
      ensures Valid() && (entries == old(entries) || fresh(entries))
      ensures rc == if |M.Evicted(Cap(), old(Map()))| == old(load) && old(alloc) == LARGEST then -1 else 0
      ensures rc == 0 ==> Map() == M.Evicted(Cap(), old(Map())) + [M.Pair(key, value)]
      ensures rc != 0 ==> Map() == M.Evicted(Cap(), old(Map()))
      ensures old(NoTombstones(entries[..]) && !M.Full(Cap(), Map())) ==> NoTombstones(entries[..])
      ensures old(Legible(entries[..], ci) && Unheld(key) && (!M.Full(Cap(), Map()) || Borrows())) ==>
        Legible(entries[..], ci)
      ensures PutsAside(hash)
      ensures !old(M.Full(Cap(), Map())) ==> DeadFrom(old(entries[..]), entries[..])
    {
      hide Valid, Legible, NoTombstones, Unheld, IndexOf, Map, M.Full, M.Evicted, Aside, FirstLeft, GoesHome,
        DeadFrom;
      FirstIsSet();
      ghost var slots := entries[..];
      rc := MakeSpace(key);
      ghost var slots1 := entries[..];
      if rc == 0 {
        Add(key, hash, value);
        if !old(M.Full(Cap(), Map())) {
          DeadFromBoth(slots, slots1, entries[..]);
        }
      }
      if old(M.Full(Cap(), Map()) && entries[Home(entries.Length, hash)].state == Unused) {
        AsideKept(dup, free, old(order), slots, slots1, entries[..], hash);
      }
    }

    /**
     * A new key whose home slot is unused leaves the tombstone of the entry it evicts as it is; and without
     * eviction or growth, a new key whose home slot is free leaves the other slots alone.
     */
    twostate predicate PutsAside(hash: nat)
      reads this, entries
      requires old(Valid())
    {
      && (old(M.Full(Cap(), Map()) && entries[Home(entries.Length, hash)].state == Unused) ==>
            entries == old(entries) && Aside(dup, free, old(order), old(entries[..]), entries[..]))
      && (old(!M.Full(Cap(), Map()) && count < load) ==>
            entries == old(entries) && GoesHome(old(entries[..]), entries[..], hash))
    }

    /** lws_table_set; a value of None is the source's NULL and removes the key. */
    method Put(key: bytes, value: Option<V>) returns (rc: int)
      requires Valid()
      modifies this`alloc, this`load, this`entries, this`head, this`last, this`count, this`order, entries
      ensures entries == old(entries) || fresh(entries)
      ensures !old(Stale(key)) ==> Valid()
      ensures !old(Stale(key)) && value.Some? && rc == 0 ==>
        Map() == M.AfterSet(Classifier(ci), Cap(), old(Map()), key, value.value)
      ensures !old(Stale(key)) && value.None? ==> Map() == M.AfterRemove(Classifier(ci), old(Map()), key)
      ensures rc == if value.Some? && old(Hit(key)) == -1
        && |M.Evicted(Cap(), old(Map()))| == old(load) && old(alloc) == LARGEST then -1 else 0
      ensures rc != 0 ==> Map() == M.Evicted(Cap(), old(Map()))
      ensures value.Some? && old(NoTombstones(entries[..]) && !Evicts(key)) ==> NoTombstones(entries[..])
      ensures old(!strict && Legible(entries[..], ci)) && (Borrows() || (value.Some? && !old(Evicts(key)))) ==>
        Legible(entries[..], ci)
      ensures value.Some? && !old(Stale(key)) && !old(Evicts(key)) ==> DeadFrom(old(entries[..]), entries[..])
      ensures value.None? ==> LeavesTombstone(key)
      ensures value.Some? && capped && old(Stale(key)) ==> Relinks(key, value.value)
      ensures value.Some? && !capped && old(Stale(key)) ==> RevivesNothing(key, value.value)
      ensures value.Some? && old(Hit(key)) == -1 ==> PutsAside(HashOf(ci, key))
      ensures Intact() <==> !old(Stale(key)) || (value.Some? && !capped)
    {
      hide Valid, Legible, NoTombstones, DeadFrom, M.AfterSet, M.AfterRemove, Intact,
        IndexOf, Hit, Inv, Map, M.Evicted, M.Full;
      var hash, x := Locate(key);
      if value.None? {
        if x >= 0 {
          Delete(key, x);
        } else {
          NothingToRemove(key);
        }
        return 0;
      }
      if x < 0 {
        rc := New(key, hash, value.value);
        return;
      }
      if entries[x].state == Set {
        Update(key, x, value.value);
      } else {
        StaleTombstone(key);
        UpdateStale(key, x, value.value);
      }
      return 0;
    }

    /** Where the lookup of a key stops, and what that means. */
    method Locate(key: bytes) returns (hash: nat, x: int)
      requires Valid()
      ensures hash == HashOf(ci, key) && x == Hit(key) && -1 <= x < entries.Length
      ensures Stale(key) <==> x >= 0 && entries[x].state != Set
      ensures x == -1 ==> IndexOf(key) == -1
      ensures x >= 0 && entries[x].state == Set ==> 0 <= IndexOf(key) < |order| && x == order[IndexOf(key)]
    {
      hide Listed, WellPlaced, M.Unique;
      hash := Hash(ci, key);
      x := Find(key, hash);
      FindMeansLookup(entries[..], ci, strict, order, key);
    }

    /** lws_table_set for a key whose lookup finds nothing. */
    method New(key: bytes, hash: nat, value: V) returns (rc: int)
      requires Valid() && Hit(key) == -1 && IndexOf(key) == -1 && hash == HashOf(ci, key)
      modifies this`alloc, this`load, this`entries, this`head, this`last, this`count, this`order, entries
      ensures Valid() && Intact() && (entries == old(entries) || fresh(entries))
      ensures rc == if |M.Evicted(Cap(), old(Map()))| == old(load) && old(alloc) == LARGEST then -1 else 0
      ensures rc == 0 ==> Map() == M.AfterSet(Classifier(ci), Cap(), old(Map()), key, value)
      ensures rc != 0 ==> Map() == M.Evicted(Cap(), old(Map()))
      ensures old(NoTombstones(entries[..]) && !Evicts(key)) ==> NoTombstones(entries[..])
      ensures old(!strict && Legible(entries[..], ci)) && (Borrows() || !old(Evicts(key))) ==> Legible(entries[..], ci)
      ensures PutsAside(hash)
      ensures !old(Evicts(key)) ==> DeadFrom(old(entries[..]), entries[..])
    {
      hide Listed, Inv, Legible, NoTombstones, DeadFrom, PutsAside, Unheld, M.AfterSet, Contents;
      if !strict && Legible(entries[..], ci) {
        NotFoundUnheld(key);
      }
      rc := Enter(key, hash, value);
      IsIntact();
      AfterSetAbsent(Classifier(ci), Cap(), old(Map()), key, value);
    }

    lemma IsIntact()
      requires Valid()
      ensures Intact()
    {
      assert Inv(Links(), ci, order) && |order| == count;
    }

    lemma NothingToRemove(key: bytes)
      requires Valid() && IndexOf(key) == -1
      ensures M.AfterRemove(Classifier(ci), Map(), key) == Map() && Intact()
    {
      IsIntact();
    }

    static lemma AfterSetAbsent(c: M.Classes, cap: Option<nat>, m: seq<M.Pair<V>>, key: bytes, value: V)
      requires M.IndexOf(c, m, key) == -1
      ensures M.AfterSet(c, cap, m, key, value) == M.Evicted(cap, m) + [M.Pair(key, value)]
    {
    }

    /**
     * A removal takes the slot that was found off the list, listed or not, and leaves a tombstone. If nothing was
     * freed and the lookup is the source's, the next lookup finds it again.
     */
    twostate predicate LeavesTombstone(key: bytes)
      reads this, entries
      requires old(Valid())
    {
      && alloc == old(alloc) && load == old(load)
      && (old(Hit(key)) == -1 ==>
            Valid() && Hit(key) == -1 && count == old(count) && entries == old(entries) && Links() == old(Links()))
      && (old(Hit(key)) >= 0 ==>
            var x := old(Hit(key));
            && count == (if old(count) == 0 then SIZE_MAX else old(count) - 1)
            && entries == old(entries) && Left(dup, free, old(entries[x]), entries[x])
            && Links() == Removed(old(Links()), x, entries[x].key, entries[x].value))
      && (!old(Stale(key)) && !strict && old(Hit(key)) >= 0 && Borrows() ==>
            Valid() && Stale(key) && entries[Hit(key)].value == old(entries[Hit(key)].value))
    }

    /** Setting a key whose tombstone is in the way changes the dead slot's value, and nothing else. */
    twostate predicate RevivesNothing(key: bytes, value: V)
      reads this, entries
      requires old(Valid())
    {
      && Valid() && Map() == old(Map()) && Stale(key) && entries[Hit(key)].value == Some(value) && count == old(count)
      && SetsValue(old(Hit(key)), value)
    }

    /** Of all slots, only the one at x changes, and only its value. */
    twostate predicate SetsValue(x: int, value: V)
      reads this, entries
    {
      && 0 <= x < old(entries.Length) && entries == old(entries)
      && entries[..] == old(entries[..])[x := old(entries[x]).(value := Some(value))]
    }

    /** On a table with a cap the dead slot is put on the list as well, which it is not counted on. */
    twostate predicate Relinks(key: bytes, value: V)
      reads this, entries
      requires old(Valid())
    {
      var x := old(Hit(key));
      && 0 <= x < old(entries.Length) && entries == old(entries) && count == old(count) && order == old(order)
      && Links() == Updated(Touched(old(Links()), x), x, value)
    }

    lemma HitInUse(key: bytes)
      requires Valid()
      ensures Links().Bounded() && -1 <= Hit(key) < entries.Length
      ensures Hit(key) >= 0 ==> entries[Hit(key)].state != Unused
    {
      hide WellPlaced;
    }

    method Delete(key: bytes, x: nat)
      requires Valid() && x == Hit(key) && (Stale(key) <==> entries[x].state != Set)
      requires entries[x].state == Set ==> 0 <= IndexOf(key) < |order| && x == order[IndexOf(key)]
      modifies this`head, this`last, this`count, this`order, entries
      ensures !old(Stale(key)) ==> Valid() && Map() == M.AfterRemove(Classifier(ci), old(Map()), key)
      ensures LeavesTombstone(key)
      ensures old(Legible(entries[..], ci)) && Borrows() ==> Legible(entries[..], ci)
      ensures Intact() <==> !old(Stale(key))
    {
      hide Valid, Hit, Legible, LeavesTombstone, Intact, Map, IndexOf, Removed, M.AfterRemove;
      HitInUse(key);
      ghost var slots := entries[..];
      if entries[x].state == Set {
        DeleteListed(key, x);
      } else {
        DeleteDead(key, x);
      }
      if Legible(slots, ci) && Borrows() {
        LegibleKept(slots, entries[..], ci);
      }
    }

    method DeleteDead(key: bytes, x: nat)
      requires Valid() && x == Hit(key) && entries[x].state != Set
      modifies this`head, this`last, this`count, entries
      ensures LeavesTombstone(key) && !Intact()
      ensures forall s :: 0 <= s < entries.Length && s != x ==> SameCore(old(entries[s]), entries[s])
      ensures Left(dup, free, old(entries[x]), entries[x])
    {
      hide Inv, Left, Intact, Removed;
      RemoveDead(x);
    }

    method DeleteListed(key: bytes, x: nat)
      requires Valid() && x == Hit(key) && entries[x].state == Set
      requires 0 <= IndexOf(key) < |order| && x == order[IndexOf(key)]
      modifies this`head, this`last, this`count, this`order, entries
      ensures Valid() && Intact() && Map() == M.AfterRemove(Classifier(ci), old(Map()), key)
      ensures count == old(count) - 1
      ensures forall s :: 0 <= s < entries.Length && s != x ==> SameCore(old(entries[s]), entries[s])
      ensures Left(dup, free, old(entries[x]), entries[x])
      ensures Links() == Removed(old(Links()), x, entries[x].key, entries[x].value)
      ensures !strict && Borrows() ==> Hit(key) == x
      ensures LeavesTombstone(key)
    {
      hide Listed, WellPlaced, M.Unique;
      ghost var slots := entries[..];
      RemoveListed(IndexOf(key), x);
      IsIntact();
      if !strict && Borrows() {
        FindLooksAt(slots, entries[..], ci, strict, key, HashOf(ci, key), 0);
      }
    }

    /** A tombstone that is removed again is counted again, and then no order makes the table valid. */
    method RemoveDead(x: nat)
      requires Valid() && x < entries.Length && entries[x].state == Deleted
      modifies this`head, this`last, this`count, entries
      ensures count == if old(count) == 0 then SIZE_MAX else old(count) - 1
      ensures forall s :: 0 <= s < entries.Length && s != x ==> SameCore(old(entries[s]), entries[s])
      ensures Left(dup, free, old(entries[x]), entries[x])
      ensures Links() == Removed(old(Links()), x, entries[x].key, entries[x].value)
      ensures !Intact()
    {
      hide Listed;
      ghost var slots := entries[..];
      Remove(x);
      forall o
        ensures !(Inv(Links(), ci, o) && |o| == count)
      {
        if Inv(Links(), ci, o) {
          SameSetSlots(slots, entries[..], ci, order, o);
        }
      }
    }

    method Update(key: bytes, x: nat, value: V)
      requires Valid() && x == Hit(key) && 0 <= IndexOf(key) < |order| && x == order[IndexOf(key)]
      requires entries[x].state == Set
      modifies this`head, this`last, this`order, entries
      ensures Valid() && Map() == M.AfterSet(Classifier(ci), Cap(), old(Map()), key, value)
      ensures old(NoTombstones(entries[..])) ==> NoTombstones(entries[..])
      ensures old(Legible(entries[..], ci)) ==> Legible(entries[..], ci)
      ensures Intact() && DeadFrom(old(entries[..]), entries[..])
    {
      hide Inv, Legible, Intact, Contents;
      ghost var slots := entries[..];
      if capped {
        UpdateLast(IndexOf(key), x, value);
      } else {
        UpdateListed(IndexOf(key), x, value);
      }
      IsIntact();
      if Legible(slots, ci) {
        LegibleKept(slots, entries[..], ci);
      }
    }

    method UpdateLast(ghost k: nat, x: nat, value: V)
      requires Valid() && k < |order| && x == order[k]
      modifies this`head, this`last, this`order, entries
      ensures Valid() && Map() == M.Without(old(Map()), k) + [M.Pair(old(Map())[k].key, value)]
      ensures forall s :: 0 <= s < entries.Length && s != x ==> SameCore(old(entries[s]), entries[s])
      ensures SameCore(old(entries[x]).(value := Some(value)), entries[x])
    {
      hide Inv, Contents;
      EntryAt(k);
      TouchListed(k, x);
      UpdateListed(|order| - 1, x, value);
    }

    /** What lws_table_set does when its lookup stops at a tombstone: the source treats it as an entry. */
    method UpdateStale(key: bytes, x: nat, value: V)
      requires Valid() && Stale(key) && x == Hit(key)
      modifies this`head, this`last, entries
      ensures !capped ==> RevivesNothing(key, value)
      ensures capped ==> Relinks(key, value)
      ensures old(Legible(entries[..], ci)) ==> Legible(entries[..], ci)
      ensures Intact() <==> !capped
    {
      hide Valid, Hit, Stale, Legible, Intact, Relinks, RevivesNothing;
      StaleSlot(key);
      ghost var slots := entries[..];
      if capped {
        RelinkStale(key, x, value);
      } else {
        Revive(key, x, value);
      }
      if Legible(slots, ci) {
        LegibleKept(slots, entries[..], ci);
      }
    }

    lemma StaleSlot(key: bytes)
      requires Valid() && Stale(key)
      ensures 0 <= Hit(key) < entries.Length && entries[Hit(key)].state == Deleted
    {
      hide Inv;
    }

    method RelinkStale(key: bytes, x: nat, value: V)
      requires Valid() && Stale(key) && x == Hit(key)
      modifies this`head, this`last, entries
      ensures Relinks(key, value) && !Intact()
      ensures forall s :: 0 <= s < entries.Length && s != x ==> SameCore(old(entries[s]), entries[s])
      ensures SameCore(entries[x], old(entries[x]).(value := Some(value)))
    {
      hide Inv, Intact, Touched, Updated;
      RelinkDead(x, value);
    }

    method Revive(key: bytes, x: nat, value: V)
      requires Valid() && Stale(key) && x == Hit(key)
      modifies entries
      ensures RevivesNothing(key, value) && Intact()
      ensures SetsValue(x, value)
    {
      hide Listed, Inv, M.Unique;
      FindLooksAt(entries[..], Updated(Links(), x, value).slots, ci, strict, key, HashOf(ci, key), 0);
      DeadUpdatedInv(Links(), ci, order, x, value);
      entries[x] := entries[x].(value := Some(value));
      IsIntact();
    }

    method RelinkDead(x: nat, value: V)
      requires Valid() && x < entries.Length && entries[x].state != Set
      modifies this`head, this`last, entries
      ensures !Intact()
      ensures forall s :: 0 <= s < entries.Length && s != x ==> SameCore(old(entries[s]), entries[s])
      ensures SameCore(entries[x], old(entries[x]).(value := Some(value)))
      ensures Links() == Updated(Touched(old(Links()), x), x, value)
    {
      hide Listed;
      Touch(x);
      entries[x] := entries[x].(value := Some(value));
      UpdatedDead(old(Links()), Links(), ci, order, x, value);
    }

    /** What lws_table_next hands back for a link: a key and a value, or nothing at the end of the list. */
    ghost function Behind(q: int): (Option<bytes>, Option<V>)
      reads this, entries
      requires SENTINEL <= q < entries.Length
    {
      if q == SENTINEL then (None, None) else (Some(entries[q].key), entries[q].value)
    }

    /**
     * lws_table_next: the entry after `key`, or the first. After a key whose lookup stops at a tombstone comes
     * whatever the link that was left in the tombstone leads to.
     */
    method Next(key: Option<bytes>) returns (next: Option<bytes>, value: Option<V>)
      requires Valid()
      ensures key.None? || !Stale(key.value) ==>
                var i := if key.None? then 0 else IndexOf(key.value) + 1;
                if (key.Some? && i == 0) || i == |Map()| then next == None && value == None
                else next == Some(Map()[i].key) && value == Some(Map()[i].value)
      ensures key.Some? && Stale(key.value) ==>
                var q := entries[Hit(key.value)].next;
                SENTINEL <= q < entries.Length && (next, value) == Behind(q)
    {
      var q;
      if key.Some? {
        var hash, x := Locate(key.value);
        if x < 0 {
          return None, None;
        }
        q := entries[x].next;
        if entries[x].state == Set {
          EntryAfter(IndexOf(key.value));
        }
      } else {
        q := head;
        EntryAfter(-1);
      }
      if q == SENTINEL {
        return None, None;
      }
      return Some(entries[q].key), entries[q].value;
    }

    lemma EntryAfter(i: int)
      requires Valid() && -1 <= i < |order|
      ensures var q := if i == -1 then head else entries[order[i]].next;
        SENTINEL <= q < entries.Length &&
        Behind(q) == if i + 1 == |Map()| then (None, None) else (Some(Map()[i + 1].key), Some(Map()[i + 1].value))
    {
      LinkAfter(i);
    }

    lemma EntryAt(i: nat)
      requires Valid() && i < |order|
      ensures order[i] < entries.Length && entries[order[i]].value.Some?
      ensures Map()[i] == M.Pair(entries[order[i]].key, entries[order[i]].value.value)
    {
    }

    lemma LinkAfter(i: int)
      requires Valid() && -1 <= i < |order|
      ensures Links().Next(At(order, i)) == At(order, i + 1)
      ensures Links().Prev(At(order, i + 1)) == At(order, i)
    {
      assert Links().Joined(At(order, i + 1 - 1), At(order, i + 1));
    }

    /** Lookups find every listed key: they pass over tombstones, or no tombstone has that key. */
    lemma ListedKey(i: nat)
      requires Valid() && (strict || Legible(entries[..], ci)) && i < |Map()|
      ensures !Stale(Map()[i].key)
    {
      hide Listed, WellPlaced;
      M.IndexIs(Classifier(ci), Map(), Map()[i].key, i);
      FindMeansLookup(entries[..], ci, strict, order, Map()[i].key);
      if !strict {
        AnswerIsRightIff(Map()[i].key);
      }
    }

    lemma ListedAt(i: nat)
      requires Valid() && i < |Map()|
      ensures IndexOf(Map()[i].key) == i
    {
      M.IndexIs(Classifier(ci), Map(), Map()[i].key, i);
    }

    lemma ListedKeys()
      requires Valid() && (strict || Legible(entries[..], ci))
      ensures forall i :: 0 <= i < |Map()| ==> !Stale(Map()[i].key)
    {
      hide Stale, Legible, Inv;
      forall i | 0 <= i < |Map()|
        ensures !Stale(Map()[i].key)
      {
        ListedKey(i);
      }
    }

    /** The loop over lws_table_next that lws_add_headers runs: every entry once, in order, and then it stops. */
    method Entries() returns (all: seq<M.Pair<V>>)
      requires Valid() && forall i :: 0 <= i < |Map()| ==> !Stale(Map()[i].key)
      ensures all == Map()
    {
      hide Valid, Stale, IndexOf, Map;
      all := [];
      var next, value := Next(None);
      while next.Some?
        invariant |all| <= |Map()| && all == Map()[..|all|]
        invariant if |all| == |Map()| then next == None
                  else next == Some(Map()[|all|].key) && value == Some(Map()[|all|].value)
        decreases |Map()| - |all|
      {
        ListedAt(|all|);
        all := all + [M.Pair(next.value, value.value)];
        next, value := Next(next);
      }
    }

    /** lws_table_clear. With owned keys or values the entries are first removed one by one. */
    method Clear()
      requires Valid()
      modifies this`head, this`last, this`count, this`order, entries
      ensures Valid() && Map() == []
      ensures forall s :: 0 <= s < alloc ==> entries[s] == Zeroed()
    {
      hide Listed, WellPlaced;
      if dup || free {
        RemoveAll();
      } else {
        head, last, count, order := SENTINEL, SENTINEL, 0, [];
      }
      forall s | 0 <= s < entries.Length {
        entries[s] := Zeroed();
      }
      EmptyWellPlaced(entries[..], ci);
      assert Links().Joined(At([], 0 - 1), At([], 0));
    }

    method RemoveAll()
      requires Valid()
      modifies this`head, this`last, this`count, this`order, entries
      ensures Valid() && order == [] && head == last == SENTINEL
    {
      hide Listed;
      LinkAfter(-1);
      LinkAfter(|order| - 1);
      while last != SENTINEL
        invariant Valid() && last == At(order, |order| - 1) && head == At(order, 0)
        decreases |order|
      {
        RemoveListed(|order| - 1, last);
        LinkAfter(-1);
        LinkAfter(|order| - 1);
      }
    }
  }
}
