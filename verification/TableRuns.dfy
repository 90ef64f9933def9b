/** Whole runs of the table, and what its lookups do with removed keys. */
module TableRuns {
  import opened Wrappers
  import opened Bits
  import opened Primes
  import opened Probing
  import opened Sizes
  import opened Keys
  import opened Queue
  import opened QueueLaws
  import opened TableState
  import opened Table
  import M = OrderedMap

  /** The operation looks up a key and stops at the tombstone of an entry that was removed. */
  ghost predicate MeetsTombstone<V>(t: Table<V>, op: M.Op<V>)
    reads t, t.entries
    requires t.Valid()
  {
    match op
    case Get(key) => t.Stale(key)
    case Put(key, _) => t.Stale(key)
    case Drop(key) => t.Stale(key)
    case Next(from) => from.Some? && t.Stale(from.value)
    case Clear => false
  }

  /** The runs on which no lookup can: lookups pass tombstones over, or the run makes none. */
  ghost predicate Suitable<V>(t: Table<V>, ops: seq<M.Op<V>>)
    reads t, t.entries
  {
    t.strict || (NoTombstones(t.entries[..]) && M.Calm(Classifier(t.ci), t.Cap(), ops))
  }

  /** What the i-th operation of a run hands back. */
  ghost function Answer<V>(ci: bool, cap: Option<nat>, ops: seq<M.Op<V>>, i: nat): M.Answer<V>
    requires i < |ops|
  {
    M.Answered(Classifier(ci), M.Run(Classifier(ci), cap, ops, i), ops[i])
  }

  /** No larger size is listed, and the table is full even after an eviction. */
  ghost predicate NoRoom<V>(ci: bool, cap: Option<nat>, ops: seq<M.Op<V>>, i: nat)
    requires i < |ops|
  {
    ops[i].Put? && |M.Evicted(cap, M.Run(Classifier(ci), cap, ops, i))| == Load(LARGEST)
  }

  /**
   * Any run on an empty table, capped or not. As long as no lookup stops at a tombstone, all answers and the
   * entries are those of the ordered map; so a run that is suitable ends early only when the largest listed size
   * is full.
   */
  method Run<V>(t: Table<V>, ops: seq<M.Op<V>>) returns (done: nat, answers: seq<M.Answer<V>>)
    requires t.Valid() && t.Map() == []
    modifies t, t.entries
    ensures t.Valid() && t.ci == old(t.ci) && t.Cap() == old(t.Cap()) && t.capped == old(t.capped)
    ensures t.entries == old(t.entries) || fresh(t.entries)
    ensures done <= |ops| && |answers| == done
    ensures forall i :: 0 <= i < done ==> answers[i] == Answer(t.ci, t.Cap(), ops, i)
    ensures done == |ops| ==> t.Map() == M.Run(Classifier(t.ci), t.Cap(), ops, done)
    ensures done < |ops| ==> NoRoom(t.ci, t.Cap(), ops, done) ||
                             (t.Map() == M.Run(Classifier(t.ci), t.Cap(), ops, done) && MeetsTombstone(t, ops[done]))
    ensures old(LegibleBorrowed(t)) ==> LegibleBorrowed(t)
    ensures old(Suitable(t, ops)) ==> Suitable(t, ops)
    ensures old(Suitable(t, ops)) && done < |ops| ==> NoRoom(t.ci, t.Cap(), ops, done)
  {
    hide t.Valid, t.Map, Inv, Listed, Load, Classifier, NoTombstones, Legible, M.After, M.Evicted, M.Answered, M.Crowds,
      M.Run;
    done, answers := 0, [];
    M.RunStarts(Classifier(t.ci), t.Cap(), ops);
    while done < |ops|
      invariant t.Valid() && t.ci == old(t.ci) && t.Cap() == old(t.Cap()) && t.capped == old(t.capped)
      invariant old(Suitable(t, ops)) ==> Suitable(t, ops)
      invariant old(LegibleBorrowed(t)) ==> LegibleBorrowed(t)
      invariant t.entries == old(t.entries) || fresh(t.entries)
      invariant done <= |ops| && |answers| == done
      invariant forall i :: 0 <= i < done ==> answers[i] == Answer(t.ci, t.Cap(), ops, i)
      invariant t.Map() == M.Run(Classifier(t.ci), t.Cap(), ops, done)
    {
      if t.strict || NoTombstones(t.entries[..]) {
        MeetsNone(t, ops[done]);
      }
      var stop := FindTombstone(t, ops[done]);
      if stop {
        return;
      }
      M.RunStep(Classifier(t.ci), t.Cap(), ops, done + 1);
      var answer, ok := Apply(t, ops[done]);
      if !ok {
        return;
      }
      answers, done := answers + [answer], done + 1;
    }
  }

  method FindTombstone<V>(t: Table<V>, op: M.Op<V>) returns (b: bool)
    requires t.Valid()
    ensures b <==> MeetsTombstone(t, op)
  {
    hide Inv, Listed;
    match op {
      case Get(key) => b := IsStale(t, key);
      case Put(key, _) => b := IsStale(t, key);
      case Drop(key) => b := IsStale(t, key);
      case Next(from) =>
        b := false;
        if from.Some? {
          b := IsStale(t, from.value);
        }
      case Clear => b := false;
    }
  }

  method IsStale<V>(t: Table<V>, key: bytes) returns (b: bool)
    requires t.Valid()
    ensures b <==> t.Stale(key)
  {
    hide Inv, Listed;
    var _, x := t.Locate(key);
    return x >= 0 && t.entries[x].state != SlotState.Set;
  }

  lemma MeetsNone<V>(t: Table<V>, op: M.Op<V>)
    requires t.Valid() && (t.strict || NoTombstones(t.entries[..]))
    ensures !MeetsTombstone(t, op)
  {
    match op
    case Get(key) => NotStale(t, key);
    case Put(key, _) => NotStale(t, key);
    case Drop(key) => NotStale(t, key);
    case Next(from) => if from.Some? { NotStale(t, from.value); }
    case Clear =>
  }

  /** The source's lookup on a table that owns neither keys nor values, and that can still read every slot in use. */
  ghost predicate LegibleBorrowed<V>(t: Table<V>)
    reads t, t.entries
  {
    !t.strict && t.Borrows() && Legible(t.entries[..], t.ci)
  }

  /** The operation removes nothing and evicts nothing. */
  ghost predicate Quiet<V>(t: Table<V>, op: M.Op<V>)
    reads t, t.entries
    requires t.Valid()
  {
    !op.Drop? && (op.Put? ==> !M.Crowds(Classifier(t.ci), t.Cap(), t.Map(), op.key))
  }

  /** One operation that meets no tombstone. */
  method Apply<V>(t: Table<V>, op: M.Op<V>) returns (answer: M.Answer<V>, ok: bool)
    requires t.Valid() && !MeetsTombstone(t, op)
    modifies t, t.entries
    ensures t.entries == old(t.entries) || fresh(t.entries)
    ensures t.Valid() && t.ci == old(t.ci) && t.Cap() == old(t.Cap()) && t.capped == old(t.capped)
    ensures old(NoTombstones(t.entries[..]) && Quiet(t, op)) ==> NoTombstones(t.entries[..])
    ensures old(LegibleBorrowed(t)) ==> LegibleBorrowed(t)
    ensures old(LegibleBorrowed(t) && !t.capped) ==> DeadWas(old(t.entries[..]), t.entries[..])
    ensures op.Clear? ==> NoTombstones(t.entries[..])
    ensures ok ==> t.Map() == M.After(Classifier(t.ci), t.Cap(), old(t.Map()), op)
    ensures answer == M.Answered(Classifier(t.ci), old(t.Map()), op)
    ensures !ok ==> op.Put? && |M.Evicted(t.Cap(), old(t.Map()))| == Load(LARGEST)
    ensures !ok ==> t.Map() == M.Evicted(t.Cap(), old(t.Map()))
  {
    hide t.Valid, t.Intact, t.Stale, t.PutsAside, t.LeavesTombstone, t.RevivesNothing, M.AfterGet, M.AfterSet,
      M.AfterRemove, M.Lookup, M.Following, Classifier, Legible, NoTombstones, DeadWas, M.Evicted, t.Hit,
      t.Answer, t.Map;
    answer, ok := M.Done, true;
    match op
    case Get(key) =>
      ghost var slots := t.entries[..];
      var value := t.Get(key);
      SameDeadWas(slots);
      answer := M.Value(value);
    case Put(key, value) =>
      ok := Set(t, key, value);
    case Drop(key) =>
      Unlist(t, key);
    case Next(from) =>
      SameDeadWas(t.entries[..]);
      var entry := NextEntry(t, from);
      answer := M.Answer.Entry(entry);
    case Clear =>
      ClearAll(t);
  }

  lemma SameDeadWas<V>(slots: seq<Entry<V>>)
    ensures DeadWas(slots, slots)
  {
  }

  /** A removal of a listed key. */
  method Unlist<V>(t: Table<V>, key: bytes)
    requires t.Valid() && !t.Stale(key)
    modifies t, t.entries
    ensures t.entries == old(t.entries) || fresh(t.entries)
    ensures t.Valid() && t.ci == old(t.ci) && t.Cap() == old(t.Cap()) && t.capped == old(t.capped)
    ensures old(LegibleBorrowed(t)) ==> LegibleBorrowed(t)
    ensures old(LegibleBorrowed(t)) ==> DeadWas(old(t.entries[..]), t.entries[..])
    ensures t.Map() == M.AfterRemove(Classifier(t.ci), old(t.Map()), key)
  {
    hide t.Valid, t.Intact, t.Stale, t.PutsAside, t.RevivesNothing, t.Relinks, M.AfterRemove, M.AfterSet, Classifier,
      Legible, NoTombstones, DeadFrom, DeadWas, Removed, M.Evicted, t.Map;
    t.HitInUse(key);
    ghost var c, x := t.Links(), t.Hit(key);
    if x >= 0 {
      RemovedDeadWas(c, x);
    } else {
      SameDeadWas(c.slots);
    }
    var rc := t.Put(key, None);
  }

  method NextEntry<V>(t: Table<V>, from: Option<bytes>) returns (r: Option<M.Pair<V>>)
    requires t.Valid() && (from.Some? ==> !t.Stale(from.value))
    ensures r == M.Following(Classifier(t.ci), t.Map(), from)
  {
    hide Inv, Listed;
    var next, value := t.Next(from);
    return if next.Some? && value.Some? then Some(M.Pair(next.value, value.value)) else None;
  }

  method ClearAll<V>(t: Table<V>)
    requires t.Valid()
    modifies t, t.entries
    ensures t.entries == old(t.entries) && t.ci == old(t.ci) && t.Cap() == old(t.Cap()) && t.capped == old(t.capped)
    ensures t.dup == old(t.dup) && t.free == old(t.free)
    ensures t.Valid() && t.Map() == [] && NoTombstones(t.entries[..]) && Legible(t.entries[..], t.ci)
    ensures DeadWas(old(t.entries[..]), t.entries[..])
  {
    hide Inv, Listed, Legible;
    t.Clear();
    t.LegibleWithoutTombstones();
  }

  method Set<V>(t: Table<V>, key: bytes, value: V) returns (ok: bool)
    requires t.Valid() && !t.Stale(key)
    modifies t, t.entries
    ensures t.entries == old(t.entries) || fresh(t.entries)
    ensures t.Valid() && t.ci == old(t.ci) && t.Cap() == old(t.Cap()) && t.capped == old(t.capped)
    ensures old(NoTombstones(t.entries[..])) && !M.Crowds(Classifier(t.ci), t.Cap(), old(t.Map()), key) ==>
              NoTombstones(t.entries[..])
    ensures old(LegibleBorrowed(t)) ==> LegibleBorrowed(t)
    ensures !t.capped ==> DeadWas(old(t.entries[..]), t.entries[..])
    ensures ok ==> t.Map() == M.AfterSet(Classifier(t.ci), t.Cap(), old(t.Map()), key, value)
    ensures !ok ==> |M.Evicted(t.Cap(), old(t.Map()))| == Load(LARGEST)
    ensures !ok ==> t.Map() == M.Evicted(t.Cap(), old(t.Map()))
  {
    hide t.Valid, t.Intact, t.Stale, t.PutsAside, t.LeavesTombstone, t.RevivesNothing, t.Hit, t.Map, M.AfterSet,
      M.Evicted, M.Crowds, Classifier, Legible, NoTombstones, DeadFrom, DeadWas;
    NotFoundCrowds(t, key);
    t.EvictedCount();
    ghost var slots := t.entries[..];
    var rc := t.Put(key, Some(value));
    ok := rc == 0;
    if !t.capped {
      DeadFromWas(slots, t.entries[..]);
    }
  }

  lemma NotFoundCrowds<V>(t: Table<V>, key: bytes)
    requires t.Valid()
    ensures t.Evicts(key) ==> t.capped
    ensures t.Evicts(key) ==> M.Crowds(Classifier(t.ci), t.Cap(), t.Map(), key)
    ensures t.load == Load(t.alloc)
  {
    FindMeansLookup(t.entries[..], t.ci, t.strict, t.order, key);
  }

  lemma NotStale<V>(t: Table<V>, key: bytes)
    requires t.Valid() && (t.strict || NoTombstones(t.entries[..]))
    ensures !t.Stale(key)
  {
    FindMeansLookup(t.entries[..], t.ci, t.strict, t.order, key);
  }

  /**
   * A capped table as the source writes it, the cache of file statuses for one: on every run that removes nothing
   * and sets at most as many keys as the cap, it is the least-recently-used cache.
   */
  method RunOfFewKeys<V>(t: Table<V>, ops: seq<M.Op<V>>, ghost keys: seq<bytes>)
    returns (done: nat, answers: seq<M.Answer<V>>)
    requires t.Valid() && t.Map() == [] && t.capped && NoTombstones(t.entries[..])
    requires |keys| <= t.cap && M.Among(Classifier(t.ci), ops, keys) && forall i :: 0 <= i < |ops| ==> !ops[i].Drop?
    modifies t, t.entries
    ensures t.Valid() && t.ci == old(t.ci) && t.Cap() == old(t.Cap())
    ensures done <= |ops| && |answers| == done
    ensures forall i :: 0 <= i < done ==> answers[i] == Answer(t.ci, t.Cap(), ops, i)
    ensures done == |ops| ==> t.Map() == M.Run(Classifier(t.ci), t.Cap(), ops, done)
    ensures done < |ops| ==> NoRoom(t.ci, t.Cap(), ops, done)
  {
    M.FewAreCalm(Classifier(t.ci), t.cap, ops, keys);
    hide Inv, Listed, Load, M.Calm, NoTombstones, Answer, NoRoom, MeetsTombstone;
    done, answers := Run(t, ops);
  }

  /** What one use of a table gave: the answers of its operations, and the entries it was then iterated over. */
  datatype Outcome<V> = Outcome(answers: seq<M.Answer<V>>, entries: seq<M.Pair<V>>)

  ghost predicate Faithful<V>(ci: bool, cap: Option<nat>, ops: seq<M.Op<V>>, outcome: Outcome<V>) {
    && |outcome.answers| == |ops|
    && (forall i :: 0 <= i < |ops| ==> outcome.answers[i] == Answer(ci, cap, ops, i))
    && outcome.entries == M.Run(Classifier(ci), cap, ops, |ops|)
  }

  /**
   * A table that is used again and again, as the header tables are from request to request: operations, an
   * iteration over the entries, and a clear. Every use starts from nothing.
   */
  method Reuse<V>(t: Table<V>, uses: seq<seq<M.Op<V>>>) returns (done: nat, outcomes: seq<Outcome<V>>)
    requires t.Valid() && t.Map() == [] && forall u :: 0 <= u < |uses| ==> Suitable(t, uses[u])
    modifies t, t.entries
    ensures done <= |uses| && |outcomes| == done
    ensures forall u :: 0 <= u < done ==> Faithful(old(t.ci), old(t.Cap()), uses[u], outcomes[u])
    ensures done < |uses| ==> exists n: nat ::
              n < |uses[done]| && NoRoom(old(t.ci), old(t.Cap()), uses[done], n)
  {
    done, outcomes := 0, [];
    while done < |uses|
      invariant t.Valid() && t.Map() == [] && t.ci == old(t.ci) && t.Cap() == old(t.Cap())
      invariant t.entries == old(t.entries) || fresh(t.entries)
      invariant forall u :: done <= u < |uses| ==> Suitable(t, uses[u])
      invariant done <= |uses| && |outcomes| == done
      invariant forall u :: 0 <= u < done ==> Faithful(old(t.ci), old(t.Cap()), uses[u], outcomes[u])
    {
      hide Inv, Listed, Load, Classifier, M.After, M.Evicted, Answer, M.Calm, NoRoom;
      var outcome := UseOnce(t, uses[done]);
      if outcome == None {
        return;
      }
      outcomes, done := outcomes + [outcome.value], done + 1;
    }
  }

  method UseOnce<V>(t: Table<V>, ops: seq<M.Op<V>>) returns (outcome: Option<Outcome<V>>)
    requires t.Valid() && t.Map() == [] && Suitable(t, ops)
    modifies t, t.entries
    ensures t.Valid() && t.ci == old(t.ci) && t.Cap() == old(t.Cap()) && t.capped == old(t.capped)
    ensures t.entries == old(t.entries) || fresh(t.entries)
    ensures outcome.Some? ==> Faithful(t.ci, t.Cap(), ops, outcome.value)
    ensures outcome.Some? ==> t.Map() == [] && NoTombstones(t.entries[..])
    ensures outcome == None ==> exists n: nat :: n < |ops| && NoRoom(t.ci, t.Cap(), ops, n)
  {
    hide Inv, Listed, Load, Classifier, M.After, Answer, M.Calm, NoRoom, Legible;
    var n, answers := Run(t, ops);
    if n < |ops| {
      assert NoRoom(t.ci, t.Cap(), ops, n);
      return None;
    }
    if NoTombstones(t.entries[..]) {
      t.LegibleWithoutTombstones();
    }
    t.ListedKeys();
    var entries := t.Entries();
    t.Clear();
    return Some(Outcome(answers, entries));
  }

  // ----- spellings of a key

  /**
   * After a set, a get of any spelling of the key gives the value, and a get of any other key what it gave before,
   * unless the set has evicted that key. A lookup can stop at a tombstone only if there was one before the set, or the
   * set has evicted an entry.
   */
  method SetAndGet<V>(t: Table<V>, key: bytes, value: V, other: bytes)
    returns (rc: int, r: Option<V>, ghost misled: bool)
    requires t.Valid() && !t.Stale(key) && NulFree(key) && NulFree(other)
    modifies t, t.entries
    ensures misled ==> !t.strict && (!old(NoTombstones(t.entries[..])) || old(t.Evicts(key)))
    ensures rc == 0 && !misled ==>
              r == if Spelled(t.ci, key, other) then Some(value)
                   else if old(t.Evicts(key) && Same(t.ci, t.Map()[0].key, other)) then None
                   else M.Lookup(Classifier(t.ci), old(t.Map()), other)
  {
    hide t.Valid, t.Intact, t.Map, t.Hit, t.Stale, t.Evicts, NoTombstones, Legible, DeadFrom, t.PutsAside, M.AfterSet,
      M.AfterGet, M.Lookup, M.Evicted, Spelled, NulFree;
    OtherAfterSet(t, key, value, other);
    rc := t.Put(key, Some(value));
    misled := t.Stale(other);
    if t.strict || NoTombstones(t.entries[..]) {
      NotStale(t, other);
    }
    r := t.Get(other);
  }

  lemma OtherAfterSet<V>(t: Table<V>, key: bytes, value: V, other: bytes)
    requires t.Valid() && !t.Stale(key) && NulFree(key) && NulFree(other)
    ensures t.Evicts(key) ==> t.Map() != []
    ensures var c := Classifier(t.ci);
      M.Lookup(c, M.AfterSet(c, t.Cap(), t.Map(), key, value), other) ==
      if Spelled(t.ci, key, other) then Some(value)
      else if t.Evicts(key) && Same(t.ci, t.Map()[0].key, other) then None
      else M.Lookup(c, t.Map(), other)
  {
    hide t.Map, t.Stale, Inv, M.AfterSet, M.Unique, Spelled, NulFree, Same;
    SameIsSpelled(t.ci, key, other);
    AlikeIsSame(t.ci, key, other);
    MapIsUnique(t);
    M.SetLookup(Classifier(t.ci), t.Cap(), t.Map(), key, value, other);
    t.AnswerIsRight(key);
    if M.Full(t.Cap(), t.Map()) {
      AlikeIsSame(t.ci, t.Map()[0].key, other);
    }
  }

  lemma AlikeIsSame(ci: bool, a: bytes, b: bytes)
    ensures M.Alike(Classifier(ci), a, b) <==> Same(ci, a, b)
  {
  }

  lemma MapIsUnique<V>(t: Table<V>)
    requires t.Valid()
    ensures M.Unique(Classifier(t.ci), t.Map())
  {
    hide M.Unique;
  }

  // ----- removed keys, as the source looks them up

  /**
   * With the source's lookup a removal is not seen by the next get if that stops at the tombstone: as it does when
   * nothing was freed, and may do when the key was. If nothing was freed the answer is the removed value, so nothing
   * exactly when there was nothing to remove. On a capped table that get, in addition, leaves no order that would
   * make the table valid. If the lookup does not stop there, all is well.
   */
  method GetAfterRemove<V>(t: Table<V>, key: bytes) returns (r: Option<V>, ghost left: bool)
    requires t.Valid() && !t.strict && !t.Stale(key)
    modifies t, t.entries
    ensures t.Borrows() ==> left == (M.Lookup(Classifier(t.ci), old(t.Map()), key) != None)
    ensures t.Borrows() ==> r == M.Lookup(Classifier(t.ci), old(t.Map()), key)
    ensures left ==> M.Lookup(Classifier(t.ci), old(t.Map()), key) != None
    ensures !left ==> r == None
    ensures t.Intact() <==> !t.capped || !left
    ensures !t.capped ==> t.Valid() && M.Lookup(Classifier(t.ci), t.Map(), key) == None
  {
    hide t.Valid, t.Intact, t.PutsAside, t.Relinked, t.Relinks, NoTombstones, Legible, DeadFrom, Left, Removed,
      M.AfterRemove, M.AfterSet, M.AfterGet, M.Lookup;
    t.AnswerIsRight(key);
    AbsentAfterRemove(t, key);
    var rc := t.Put(key, None);
    left := t.Stale(key);
    r := t.Get(key);
  }

  lemma AbsentAfterRemove<V>(t: Table<V>, key: bytes)
    requires t.Valid()
    ensures M.Lookup(Classifier(t.ci), M.AfterRemove(Classifier(t.ci), t.Map(), key), key) == None
  {
    M.RemoveLookup(Classifier(t.ci), t.Map(), key, key);
  }

  /**
   * Setting the key again does not bring it back if the lookup stops at the tombstone: the next get finds it, but
   * no entry has been added. On a capped table the set leaves no order that would make the table valid.
   */
  method GetAfterRemoveAndSet<V>(t: Table<V>, key: bytes, value: V) returns (r: Option<V>, ghost left: bool)
    requires t.Valid() && !t.strict && !t.Stale(key)
    requires M.Lookup(Classifier(t.ci), t.Map(), key) != None
    modifies t, t.entries
    ensures t.Borrows() ==> left
    ensures t.Intact() <==> !t.capped || !left
    ensures !t.capped ==> t.Valid() && (left ==> r == Some(value))
    ensures left && !t.capped ==> t.Map() == M.AfterRemove(Classifier(t.ci), old(t.Map()), key)
    ensures left && !t.capped ==> M.Lookup(Classifier(t.ci), t.Map(), key) == None
    ensures !left ==>
              var c := Classifier(t.ci);
              t.Valid() && t.Map() == M.AfterSet(c, t.Cap(), M.AfterRemove(c, old(t.Map()), key), key, value)
  {
    hide t.Valid, t.Intact, t.PutsAside, t.Relinked, t.Relinks, NoTombstones, Legible, DeadFrom, Left, Removed,
      M.AfterRemove, M.AfterSet, M.AfterGet, M.Lookup, M.Evicted;
    t.AnswerIsRight(key);
    AbsentAfterRemove(t, key);
    OneLess(t, key);
    var rc := t.Put(key, None);
    left := t.Stale(key);
    t.EvictedCount();
    rc := t.Put(key, Some(value));
    r := None;
    if !t.capped {
      r := t.Get(key);
    }
  }

  /** A removal makes room. */
  lemma OneLess<V>(t: Table<V>, key: bytes)
    requires t.Valid() && M.Lookup(Classifier(t.ci), t.Map(), key) != None
    ensures |M.AfterRemove(Classifier(t.ci), t.Map(), key)| == |t.Map()| - 1 < t.load
    ensures |t.Map()| == t.count
  {
  }

  /**
   * Removing a key twice counts it twice if the lookup stops at the tombstone: the table then takes itself to hold
   * one entry too few, and no order makes it valid.
   */
  method RemoveTwice<V>(t: Table<V>, key: bytes) returns (ghost left: bool)
    requires t.Valid() && !t.strict && !t.Stale(key)
    requires M.Lookup(Classifier(t.ci), t.Map(), key) != None
    modifies t, t.entries
    ensures t.Borrows() ==> left
    ensures left ==> t.count == (if old(t.count) == 1 then SIZE_MAX else old(t.count) - 2) && !t.Intact()
    ensures !left ==> t.Valid() && t.Map() == M.AfterRemove(Classifier(t.ci), old(t.Map()), key)
    ensures !left ==> t.count == old(t.count) - 1
  {
    hide t.Valid, t.Intact, t.PutsAside, t.Relinked, t.Relinks, NoTombstones, Legible, DeadFrom, Left, Removed,
      M.AfterRemove, M.AfterSet, M.AfterGet, M.Lookup;
    CountIsPositive(t, key);
    AbsentAfterRemove(t, key);
    var rc := t.Put(key, None);
    left := t.Stale(key);
    if !left {
      t.AnswerIsRight(key);
      RemoveAbsent(Classifier(t.ci), t.Map(), key);
    }
    rc := t.Put(key, None);
  }

  lemma RemoveAbsent<V>(c: M.Classes, m: seq<M.Pair<V>>, key: bytes)
    requires M.Lookup(c, m, key) == None
    ensures M.AfterRemove(c, m, key) == m
  {
  }

  lemma CountIsPositive<V>(t: Table<V>, key: bytes)
    requires t.Valid() && M.Lookup(Classifier(t.ci), t.Map(), key) != None
    ensures t.count > 0 && (!t.Stale(key) ==> t.Hit(key) >= 0)
  {
    if !t.Stale(key) {
      t.AnswerIsRight(key);
    }
  }

  // ----- evicted keys, as the source looks them up

  /**
   * The set of a new key on a full table evicts the first entry. If nothing is freed and the new key's home slot was
   * unused, the tombstone stays in place, and the lookup of the evicted key stops at it.
   */
  method EvictFirst<V>(t: Table<V>, key: bytes, value: V) returns (evicted: bytes)
    requires t.Valid() && !t.strict && t.Evicts(key)
    modifies t, t.entries
    ensures t.ci == old(t.ci) && t.Cap() == old(t.Cap()) && t.capped && t.Valid()
    ensures t.entries == old(t.entries) || fresh(t.entries)
    ensures t.Map() == M.AfterSet(Classifier(t.ci), t.Cap(), old(t.Map()), key, value)
    ensures old(t.Map()) != [] && evicted == old(t.Map())[0].key
    ensures old(t.Borrows() && Legible(t.entries[..], t.ci)
                && t.entries[Home(t.entries.Length, HashOf(t.ci, key))].state == Unused) ==>
              t.Stale(evicted) && t.Answer(evicted) == Some(old(t.Map())[0].value)
  {
    hide t.Valid, t.Intact, t.Stale, t.Map, t.Hit, t.Evicts, t.Relinks, t.Answer, NoTombstones, Legible, DeadFrom,
      Removed, M.AfterSet, M.Full, M.Evicted, HashOf, Home, t.LeavesTombstone, t.RevivesNothing;
    EvictsFull(t, key);
    ghost var first := t.order[0];
    ghost var stays := t.Borrows() && Legible(t.entries[..], t.ci)
      && t.entries[Home(t.entries.Length, HashOf(t.ci, key))].state == Unused;
    evicted := t.entries[t.head].key;
    var rc := t.Put(key, Some(value));
    if stays {
      FindIsOnly(t.entries[..], t.ci, evicted, first);
      StaleAt(t, evicted, first);
    }
  }

  /**
   * So the next get of the evicted key still answers with its value if its lookup stops at the tombstone, although
   * the cache it is meant to be holds the key no more; and that get leaves no order that would make the table valid.
   * It stops there when nothing is freed and the new key's home slot was unused. If it does not, all is well.
   */
  method GetAfterEviction<V>(t: Table<V>, key: bytes, value: V) returns (evicted: bytes, r: Option<V>, ghost left: bool)
    requires t.Valid() && !t.strict && t.Evicts(key)
    modifies t, t.entries
    ensures t.ci == old(t.ci) && t.Cap() == old(t.Cap()) && old(t.Map()) != [] && evicted == old(t.Map())[0].key
    ensures M.Lookup(Classifier(t.ci),
                     M.AfterSet(Classifier(t.ci), t.Cap(), old(t.Map()), key, value), evicted) == None
    ensures old(t.Borrows() && Legible(t.entries[..], t.ci)
                && t.entries[Home(t.entries.Length, HashOf(t.ci, key))].state == Unused) ==>
              left && r == Some(old(t.Map())[0].value)
    ensures !left ==> r == None
    ensures t.Intact() <==> !left
  {
    hide t.Valid, t.Intact, t.Stale, t.Map, t.Hit, t.Evicts, t.Relinked, t.Answer, Legible, M.AfterSet, M.Lookup;
    EvictsFull(t, key);
    FirstGoes(t, key, value);
    evicted := EvictFirst(t, key, value);
    left := t.Stale(evicted);
    r := t.Get(evicted);
  }

  lemma StaleAt<V>(t: Table<V>, key: bytes, s: nat)
    requires t.Valid() && !t.strict && s < t.entries.Length && t.entries[s].state == Deleted
    requires FindFrom(t.entries[..], t.ci, false, key, HashOf(t.ci, key), 0) == s
    ensures t.Stale(key) && t.Answer(key) == t.entries[s].value
  {
    hide Inv;
  }

  lemma EvictsFull<V>(t: Table<V>, key: bytes)
    requires t.Valid() && t.Evicts(key)
    ensures t.entries.Length >= 3 && t.capped && t.Hit(key) == -1 && !t.Stale(key) && M.Full(t.Cap(), t.Map())
    ensures |M.Evicted(t.Cap(), t.Map())| < t.load && 0 < |t.order| && t.order[0] < t.entries.Length
    ensures 0 <= t.head < t.entries.Length && t.head == t.order[0] && t.entries[t.head].state.Set? && t.Map() != []
    ensures t.Map()[0].key == t.entries[t.head].key && Some(t.Map()[0].value) == t.entries[t.head].value
  {
    hide Inv, M.Evicted, t.Map;
    t.EvictedCount();
    t.HeadIsFirst();
    t.FirstIsSet();
  }

  /** In the cache the first key is gone. */
  lemma FirstGoes<V>(t: Table<V>, key: bytes, value: V)
    requires t.Valid() && t.Evicts(key) && t.Map() != []
    ensures var c := Classifier(t.ci);
      M.Lookup(c, M.AfterSet(c, t.Cap(), t.Map(), key, value), t.Map()[0].key) == None
  {
    hide M.AfterSet, M.Unique;
    t.AnswerIsRight(key);
    var c := Classifier(t.ci);
    MapIsUnique(t);
    M.SetLookup(c, t.Cap(), t.Map(), key, value, t.Map()[0].key);
  }

  lemma HashesOfTwo()
    ensures HashOf(false, [1]) == 12638152016183539244 && HashOf(false, [2]) == 12638155314718423877
  {
    assert Xor(OFFSET_BASIS, 1) == 14695981039346656036 && Xor(OFFSET_BASIS, 2) == 14695981039346656039;
    hide Xor;
    assert [1][1..] == [] && [2][1..] == [];
  }

  lemma HomesDiffer(alloc: nat)
    requires alloc == 5
    ensures Home(alloc, HashOf(false, [1])) == 4 && Home(alloc, HashOf(false, [2])) == 2
  {
    HashesOfTwo();
    hide HashOf;
    ResidueIsRemainder(12638152016183539244, 5);
    ResidueIsRemainder(12638155314718423877, 5);
  }

  /** A table for one entry has five slots. */
  lemma FiveSlots(alloc: nat)
    requires IsNextSize(CreateRequest(1), Some(alloc)) && IsPrime(alloc)
    ensures alloc == 5
  {
    assert SizeAt(1) == 5;
    assert 4 % 2 == 0;
  }

  /** A table with a cap of one. */
  method ForOneEntry() returns (t: Table<int>)
    ensures fresh(t) && fresh(t.entries) && t.Valid() && !t.strict && t.Borrows() && !t.ci && t.Cap() == Some(1)
    ensures t.entries.Length == 5 && t.Map() == [] && t.count < t.load
    ensures forall s :: 0 <= s < t.entries.Length ==> t.entries[s].state == Unused
  {
    hide Inv, Listed;
    t := Table<int>.Create(1, false);
    FiveSlots(t.alloc);
    hide IsNextSize;
    var rc := t.SetCap(1);
    t.EvictedCount();
  }

  /** The first key goes home; slots that are not its home stay unused. */
  method SetFirst<V>(t: Table<V>, key: bytes, value: V)
    requires t.Valid() && !t.strict && t.Map() == [] && t.count < t.load
    requires forall s :: 0 <= s < t.entries.Length ==> t.entries[s].state == Unused
    modifies t, t.entries
    ensures t.entries == old(t.entries) && t.Valid() && t.ci == old(t.ci) && t.Cap() == old(t.Cap())
    ensures t.dup == old(t.dup) && t.free == old(t.free)
    ensures t.Map() == [M.Pair(key, value)] && NoTombstones(t.entries[..])
    ensures forall s :: 0 <= s < t.entries.Length && s != Home(t.entries.Length, HashOf(t.ci, key)) ==>
              t.entries[s].state == Unused
  {
    hide t.Valid, t.Intact, Legible, HashOf, M.AfterSet, M.Full, M.Evicted, NoTombstones;
    t.FirstIsSet();
    NotAtHome(t, key);
    AllUnused(t.entries[..]);
    SetInNothing(Classifier(t.ci), t.Cap(), key, value);
    EmptyIsNotFull(t.Cap(), t.Map());
    var rc := t.Put(key, Some(value));
  }

  lemma AllUnused<V>(slots: seq<Entry<V>>)
    requires forall s :: 0 <= s < |slots| ==> slots[s].state == Unused
    ensures NoTombstones(slots)
  {
  }

  lemma EmptyIsNotFull<V>(cap: Option<nat>, m: seq<M.Pair<V>>)
    requires m == []
    ensures !M.Full(cap, m) && M.Evicted(cap, m) == []
  {
  }

  /** The same with an entry in it. */
  method OneEntry() returns (t: Table<int>)
    ensures fresh(t) && fresh(t.entries) && t.Valid() && !t.strict && t.Borrows() && !t.ci && t.Cap() == Some(1)
    ensures Legible(t.entries[..], t.ci) && t.Evicts([2]) && t.Map() == [M.Pair([1], 7)]
    ensures t.entries.Length == 5 && t.entries[Home(5, HashOf(t.ci, [2]))].state == Unused
  {
    hide t.Valid, Legible, HashOf, t.Intact;
    HomesDiffer(5);
    t := ForOneEntry();
    SetFirst(t, [1], 7);
    t.LegibleWithoutTombstones();
    NotAtHome(t, [2]);
  }

  lemma SetInNothing<V>(c: M.Classes, cap: Option<nat>, key: bytes, value: V)
    ensures M.AfterSet(c, cap, [], key, value) == [M.Pair(key, value)]
  {
  }

  lemma NotAtHome<V>(t: Table<V>, key: bytes)
    requires t.Valid() && t.entries[Home(t.entries.Length, HashOf(t.ci, key))].state == Unused
    ensures t.Hit(key) == -1
  {
    assert Probe(t.entries.Length, HashOf(t.ci, key), 0) == Home(t.entries.Length, HashOf(t.ci, key));
  }

  /** Such a table comes about: of two keys in a table with a cap of one, the first is evicted and still found. */
  method EvictionWitness() returns (r: Option<int>)
    ensures r == Some(7)
  {
    var t := OneEntry();
    hide t.Valid, t.Intact, t.Evicts, Legible, HashOf, M.AfterSet;
    var _, got, _ := GetAfterEviction(t, [2], 8);
    return got;
  }
}
