/**
 * Runs that go on past tombstones: a table without a cap, with the source's lookup, that owns neither keys nor
 * values. Only a second removal breaks it.
 */
module TombstoneRuns {
  import opened Wrappers
  import opened Primes
  import opened Probing
  import opened Sizes
  import opened Keys
  import opened Queue
  import opened QueueLaws
  import opened TableState
  import opened Table
  import opened TableRuns
  import M = OrderedMap

  /** The value that was last set for a key, removed since or not. */
  ghost function LastSet<V>(c: M.Classes, ops: seq<M.Op<V>>, n: nat, key: bytes): Option<V>
    requires n <= |ops|
  {
    if n == 0 || ops[n - 1].Clear? then None
    else if ops[n - 1].Put? && M.Alike(c, ops[n - 1].key, key) then Some(ops[n - 1].value)
    else LastSet(c, ops, n - 1, key)
  }

  lemma {:induction false} LastSetAlike<V>(c: M.Classes, ops: seq<M.Op<V>>, n: nat, a: bytes, b: bytes)
    requires n <= |ops| && M.Alike(c, a, b)
    ensures LastSet(c, ops, n, a) == LastSet(c, ops, n, b)
  {
    if n > 0 {
      LastSetAlike(c, ops, n - 1, a, b);
    }
  }

  /** Every tombstone has the value last set for its key. */
  ghost predicate DeadHeld<V>(c: M.Classes, slots: seq<Entry<V>>, ops: seq<M.Op<V>>, n: nat)
    requires n <= |ops|
  {
    forall s :: 0 <= s < |slots| && slots[s].state == Deleted ==> slots[s].value == LastSet(c, ops, n, slots[s].key)
  }

  /** So has every entry. */
  ghost predicate MapHeld<V>(c: M.Classes, m: seq<M.Pair<V>>, ops: seq<M.Op<V>>, n: nat)
    requires n <= |ops|
  {
    forall i :: 0 <= i < |m| ==> LastSet(c, ops, n, m[i].key) == Some(m[i].value)
  }

  lemma MapHeldAfter<V>(c: M.Classes, m: seq<M.Pair<V>>, ops: seq<M.Op<V>>, n: nat)
    requires n < |ops| && MapHeld(c, m, ops, n) && M.Unique(c, m)
    ensures MapHeld(c, M.After(c, None, m, ops[n]), ops, n + 1)
  {
    if ops[n].Put? {
      var i := M.IndexOf(c, m, ops[n].key);
      assert forall k :: 0 <= k < |m| && k != i ==> !M.Alike(c, ops[n].key, m[k].key);
    }
  }

  /** A set that meets a tombstone is of a key that is not in the map. */
  lemma MapHeldAside<V>(c: M.Classes, m: seq<M.Pair<V>>, ops: seq<M.Op<V>>, n: nat)
    requires n < |ops| && MapHeld(c, m, ops, n) && !ops[n].Clear?
    requires ops[n].Put? ==> M.IndexOf(c, m, ops[n].key) == -1
    ensures MapHeld(c, m, ops, n + 1)
  {
  }

  ghost predicate Held<V>(t: Table<V>, ops: seq<M.Op<V>>, n: nat)
    requires n <= |ops|
    reads t, t.entries
  {
    && t.Valid() && !t.capped && LegibleBorrowed(t)
    && DeadHeld(Classifier(t.ci), t.entries[..], ops, n)
    && MapHeld(Classifier(t.ci), t.Map(), ops, n)
  }

  /** A tombstone's key is not in the map, and no other slot in use has it. */
  lemma DeadIsStale<V>(t: Table<V>, s: nat)
    requires t.Valid() && LegibleBorrowed(t) && s < t.entries.Length && t.entries[s].state == Deleted
    ensures t.Stale(t.entries[s].key) && M.IndexOf(Classifier(t.ci), t.Map(), t.entries[s].key) == -1
  {
    FindIsOnly(t.entries[..], t.ci, t.entries[s].key, s);
    hide Inv, Legible;
    t.AnswerIsRightIff(t.entries[s].key);
  }

  lemma SetIsListed<V>(t: Table<V>, s: nat) returns (i: nat)
    requires t.Valid() && s < t.entries.Length && t.entries[s].state == SlotState.Set
    ensures i < |t.Map()| && t.Map()[i].key == t.entries[s].key && Some(t.Map()[i].value) == t.entries[s].value
  {
    assert s in t.order;
    i :| 0 <= i < |t.order| && t.order[i] == s;
    t.EntryAt(i);
  }

  /** What every slot in use holds. */
  lemma InUseHeld<V>(t: Table<V>, ops: seq<M.Op<V>>, n: nat, s: nat)
    requires n <= |ops| && Held(t, ops, n) && s < t.entries.Length && t.entries[s].state != Unused
    ensures t.entries[s].value == LastSet(Classifier(t.ci), ops, n, t.entries[s].key)
  {
    if t.entries[s].state == SlotState.Set {
      hide t.Valid, LastSet, LegibleBorrowed;
      var i := SetIsListed(t, s);
    }
  }

  lemma InUseHeldAll<V>(t: Table<V>, ops: seq<M.Op<V>>, n: nat)
    requires n <= |ops| && Held(t, ops, n)
    ensures SlotsHeld(Classifier(t.ci), t.entries[..], ops, n)
  {
    hide Held, LastSet;
    forall s | 0 <= s < |t.entries[..]| && t.entries[..][s].state != Unused
      ensures t.entries[..][s].value == LastSet(Classifier(t.ci), ops, n, t.entries[..][s].key)
    {
      InUseHeld(t, ops, n, s);
    }
  }

  ghost predicate SlotsHeld<V>(c: M.Classes, slots: seq<Entry<V>>, ops: seq<M.Op<V>>, n: nat)
    requires n <= |ops|
  {
    forall s :: 0 <= s < |slots| && slots[s].state != Unused ==> slots[s].value == LastSet(c, ops, n, slots[s].key)
  }

  /** After an operation that met no tombstone. */
  lemma DeadHeldAfter<V>(t: Table<V>, slots: seq<Entry<V>>, ops: seq<M.Op<V>>, n: nat)
    requires n < |ops| && t.Valid() && LegibleBorrowed(t)
    requires SlotsHeld(Classifier(t.ci), slots, ops, n) && DeadWas(slots, t.entries[..])
    requires ops[n].Clear? ==> NoTombstones(t.entries[..])
    requires ops[n].Put? ==> M.IndexOf(Classifier(t.ci), t.Map(), ops[n].key) >= 0
    ensures DeadHeld(Classifier(t.ci), t.entries[..], ops, n + 1)
  {
    var c := Classifier(t.ci);
    hide t.Valid, LegibleBorrowed, Classifier;
    forall s | 0 <= s < |t.entries[..]| && t.entries[..][s].state == Deleted
      ensures t.entries[..][s].value == LastSet(c, ops, n + 1, t.entries[..][s].key)
    {
      DeadIsStale(t, s);
      if ops[n].Put? && M.Alike(c, ops[n].key, t.entries[s].key) {
        AlikeIndex(c, t.Map(), ops[n].key, t.entries[s].key);
      }
    }
  }

  lemma AlikeIndex<V>(c: M.Classes, m: seq<M.Pair<V>>, a: bytes, b: bytes)
    requires M.Alike(c, a, b)
    ensures M.IndexOf(c, m, a) >= 0 <==> M.IndexOf(c, m, b) >= 0
  {
  }

  // ----- one operation

  /** The key whose lookup an operation starts with. */
  function KeyOf<V>(op: M.Op<V>): bytes
    requires !op.Clear? && (op.Next? ==> op.from.Some?)
  {
    match op
    case Get(key) => key
    case Put(key, _) => key
    case Drop(key) => key
    case Next(from) => from.value
  }

  /** An operation that meets a tombstone: of a key that was set and removed; a get answers with what was last set. */
  ghost predicate Misled<V>(c: M.Classes, m: seq<M.Pair<V>>, ops: seq<M.Op<V>>, n: nat, answer: M.Answer<V>)
    requires n < |ops|
  {
    && !ops[n].Drop? && !ops[n].Clear? && (ops[n].Next? ==> ops[n].from.Some?)
    && M.IndexOf(c, m, KeyOf(ops[n])) == -1 && LastSet(c, ops, n, KeyOf(ops[n])).Some?
    && (ops[n].Get? ==> answer == M.Value(LastSet(c, ops, n, KeyOf(ops[n]))))
    && (ops[n].Put? ==> answer == M.Done)
  }

  /** What a lookup that stops at a tombstone says. */
  lemma StaleHeld<V>(t: Table<V>, ops: seq<M.Op<V>>, n: nat, key: bytes)
    requires n <= |ops| && Held(t, ops, n) && t.Stale(key)
    ensures var c := Classifier(t.ci);
      M.IndexOf(c, t.Map(), key) == -1 && LastSet(c, ops, n, key) == t.Answer(key) && t.Answer(key).Some?
  {
    hide t.Valid, t.Hit, Legible, LastSet;
    t.AnswerIsRightIff(key);
    StaleSlot(t, key);
    LastSetAlike(Classifier(t.ci), ops, n, t.entries[t.Hit(key)].key, key);
  }

  lemma StaleSlot<V>(t: Table<V>, key: bytes)
    requires t.Valid() && LegibleBorrowed(t) && t.Stale(key)
    ensures 0 <= t.Hit(key) < t.entries.Length && t.entries[t.Hit(key)].state == Deleted
    ensures M.Alike(Classifier(t.ci), key, t.entries[t.Hit(key)].key)
    ensures t.Answer(key) == t.entries[t.Hit(key)].value
  {
    hide Inv, HashOf;
    assert Matches(t.ci, t.strict, t.entries[..][t.Hit(key)], key, HashOf(t.ci, key));
    assert Readable(t.entries[..], t.ci, t.Hit(key));
  }

  method Meet<V>(t: Table<V>, ops: seq<M.Op<V>>, n: nat) returns (answer: M.Answer<V>)
    requires n < |ops| && Held(t, ops, n) && MeetsTombstone(t, ops[n]) && !ops[n].Drop?
    modifies t, t.entries
    ensures t.entries == old(t.entries) && t.ci == old(t.ci)
    ensures Held(t, ops, n + 1) && t.Map() == old(t.Map())
    ensures Misled(Classifier(t.ci), t.Map(), ops, n, answer)
  {
    hide t.Valid, t.Stale, t.Map, t.Answer, LastSet, Legible, DeadHeld, MapHeld, t.Intact, t.RevivesNothing,
      Classifier;
    StaleHeld(t, ops, n, KeyOf(ops[n]));
    MapHeldAside(Classifier(t.ci), t.Map(), ops, n);
    match ops[n] {
      case Get(key) =>
        DeadHeldSame(Classifier(t.ci), t.entries[..], ops, n);
        var value := t.Get(key);
        answer := M.Value(value);
      case Put(key, value) =>
        Renew(t, ops, n);
        answer := M.Done;
      case Next(from) =>
        DeadHeldSame(Classifier(t.ci), t.entries[..], ops, n);
        var next, value := t.Next(from);
        answer := M.Answer.Entry(if next.Some? && value.Some? then Some(M.Pair(next.value, value.value)) else None);
    }
  }

  lemma DeadHeldSame<V>(c: M.Classes, slots: seq<Entry<V>>, ops: seq<M.Op<V>>, n: nat)
    requires n < |ops| && DeadHeld(c, slots, ops, n) && !ops[n].Put? && !ops[n].Clear?
    ensures DeadHeld(c, slots, ops, n + 1)
  {
  }

  /** A set that meets a tombstone. */
  method Renew<V>(t: Table<V>, ops: seq<M.Op<V>>, n: nat)
    requires n < |ops| && Held(t, ops, n) && ops[n].Put? && t.Stale(ops[n].key)
    modifies t, t.entries
    ensures t.entries == old(t.entries) && t.ci == old(t.ci)
    ensures t.Valid() && !t.capped && LegibleBorrowed(t) && t.Map() == old(t.Map())
    ensures DeadHeld(Classifier(t.ci), t.entries[..], ops, n + 1)
  {
    hide t.Valid, t.Stale, t.Map, LastSet, Legible, t.Intact, Classifier, DeadHeld, MapHeld;
    ghost var slots, x := t.entries[..], t.Hit(ops[n].key);
    OthersUnlike(t, ops[n].key);
    var rc := t.Put(ops[n].key, Some(ops[n].value));
    DeadHeldRenewed(Classifier(t.ci), slots, ops, n, x);
  }

  lemma OthersUnlike<V>(t: Table<V>, key: bytes)
    requires t.Valid() && LegibleBorrowed(t) && t.Stale(key)
    ensures 0 <= t.Hit(key) < t.entries.Length && t.entries[t.Hit(key)].state == Deleted
    ensures M.Alike(Classifier(t.ci), key, t.entries[t.Hit(key)].key)
    ensures forall s :: 0 <= s < t.entries.Length && s != t.Hit(key) && t.entries[s].state != Unused ==>
      !M.Alike(Classifier(t.ci), key, t.entries[s].key)
  {
    hide t.Valid, t.Hit, t.Stale, Legible, HashOf;
    StaleSlot(t, key);
    forall s | 0 <= s < t.entries.Length && s != t.Hit(key) && t.entries[s].state != Unused
      ensures !M.Alike(Classifier(t.ci), key, t.entries[s].key)
    {
      if M.Alike(Classifier(t.ci), key, t.entries[s].key) {
        OnlyHit(t, key, s);
      }
    }
  }

  lemma OnlyHit<V>(t: Table<V>, key: bytes, s: nat)
    requires t.Valid() && LegibleBorrowed(t) && s < t.entries.Length && t.entries[s].state != Unused
    requires M.Alike(Classifier(t.ci), key, t.entries[s].key)
    ensures t.Hit(key) == s
  {
    hide Inv, Legible;
    SameSymmetric(t.ci, key, t.entries[s].key);
    FindIsOnly(t.entries[..], t.ci, key, s);
  }

  lemma DeadHeldRenewed<V>(c: M.Classes, slots: seq<Entry<V>>, ops: seq<M.Op<V>>, n: nat, x: nat)
    requires n < |ops| && DeadHeld(c, slots, ops, n) && ops[n].Put?
    requires x < |slots| && M.Alike(c, ops[n].key, slots[x].key)
    requires forall s :: 0 <= s < |slots| && s != x && slots[s].state != Unused ==>
      !M.Alike(c, ops[n].key, slots[s].key)
    ensures DeadHeld(c, slots[x := slots[x].(value := Some(ops[n].value))], ops, n + 1)
  {
  }

  lemma HeldIsValid<V>(t: Table<V>, ops: seq<M.Op<V>>, n: nat)
    requires n <= |ops| && Held(t, ops, n)
    ensures t.Valid() && !t.capped && !t.strict
  {
    hide Inv;
  }

  /** Any operation but a second removal. */
  method Step<V>(t: Table<V>, ops: seq<M.Op<V>>, n: nat) returns (answer: M.Answer<V>, ok: bool, ghost misled: bool)
    requires n < |ops| && Held(t, ops, n) && !(ops[n].Drop? && t.Stale(ops[n].key))
    modifies t, t.entries
    ensures t.entries == old(t.entries) || fresh(t.entries)
    ensures t.ci == old(t.ci) && t.Valid()
    ensures ok ==> Held(t, ops, n + 1)
    ensures misled ==> ok && t.Map() == old(t.Map()) && Misled(Classifier(t.ci), t.Map(), ops, n, answer)
    ensures !misled ==> answer == M.Answered(Classifier(t.ci), old(t.Map()), ops[n])
    ensures !misled && ok ==> t.Map() == M.After(Classifier(t.ci), None, old(t.Map()), ops[n])
    ensures !ok ==> ops[n].Put? && |old(t.Map())| == Load(LARGEST) && t.Map() == old(t.Map())
  {
    hide Held, t.Valid, t.Stale, t.Map, Misled, M.After, M.Answered, M.Evicted, DeadWas, SlotsHeld, Classifier;
    HeldIsValid(t, ops, n);
    var stop := FindTombstone(t, ops[n]);
    misled := stop;
    if stop {
      ok := true;
      answer := Meet(t, ops, n);
      HeldIsValid(t, ops, n + 1);
    } else {
      answer, ok := Plain(t, ops, n);
    }
  }

  method Plain<V>(t: Table<V>, ops: seq<M.Op<V>>, n: nat) returns (answer: M.Answer<V>, ok: bool)
    requires n < |ops| && Held(t, ops, n) && !MeetsTombstone(t, ops[n])
    modifies t, t.entries
    ensures t.entries == old(t.entries) || fresh(t.entries)
    ensures t.ci == old(t.ci) && t.Valid()
    ensures ok ==> Held(t, ops, n + 1)
    ensures answer == M.Answered(Classifier(t.ci), old(t.Map()), ops[n])
    ensures ok ==> t.Map() == M.After(Classifier(t.ci), None, old(t.Map()), ops[n])
    ensures !ok ==> ops[n].Put? && |old(t.Map())| == Load(LARGEST) && t.Map() == old(t.Map())
  {
    hide t.Valid, t.Stale, t.Map, M.After, M.Answered, DeadWas, SlotsHeld, Classifier, DeadHeld, MapHeld, Legible,
      MeetsTombstone;
    ghost var slots, m := t.entries[..], t.Map();
    InUseHeldAll(t, ops, n);
    MapIsUnique(t);
    MapHeldAfter(Classifier(t.ci), m, ops, n);
    answer, ok := Apply(t, ops[n]);
    if ok {
      SetIsIn(Classifier(t.ci), m, ops[n]);
      DeadHeldAfter(t, slots, ops, n);
    }
  }

  lemma SetIsIn<V>(c: M.Classes, m: seq<M.Pair<V>>, op: M.Op<V>)
    requires M.Unique(c, m)
    ensures op.Put? ==> M.IndexOf(c, M.After(c, None, m, op), op.key) >= 0
  {
    if op.Put? {
      hide M.AfterSet;
      M.SetLookup(c, None, m, op.key, op.value, op.key);
    }
  }

  // ----- runs

  /** The operations as the map hears them: those that met a tombstone do nothing to it. */
  function Heard<V>(ops: seq<M.Op<V>>, misled: seq<bool>): (heard: seq<M.Op<V>>)
    requires |misled| <= |ops|
    ensures |heard| == |misled|
  {
    seq(|misled|, i requires 0 <= i < |misled| => if misled[i] then M.Next(None) else ops[i])
  }

  lemma {:induction false} RunPrefix<V>(c: M.Classes, a: seq<M.Op<V>>, b: seq<M.Op<V>>, n: nat)
    requires n <= |a| <= |b| && b[..|a|] == a
    ensures M.Run(c, None, a, n) == M.Run(c, None, b, n)
  {
    if n > 0 {
      RunPrefix(c, a, b, n - 1);
      assert b[..|a|][n - 1] == a[n - 1];
    }
  }

  /** What is true of the i-th operation of a run. */
  ghost predicate Answered<V>(c: M.Classes, ops: seq<M.Op<V>>, misled: seq<bool>, answers: seq<M.Answer<V>>, i: nat)
    requires i < |misled| == |answers| <= |ops|
  {
    var m := M.Run(c, None, Heard(ops, misled), i);
    if misled[i] then Misled(c, m, ops, i, answers[i]) else answers[i] == M.Answered(c, m, ops[i])
  }

  lemma AnsweredLater<V>(c: M.Classes, ops: seq<M.Op<V>>, misled: seq<bool>, answers: seq<M.Answer<V>>, b: bool,
                         answer: M.Answer<V>)
    requires |misled| == |answers| < |ops|
    requires forall i :: 0 <= i < |misled| ==> Answered(c, ops, misled, answers, i)
    ensures forall i :: 0 <= i < |misled| ==> Answered(c, ops, misled + [b], answers + [answer], i)
    ensures M.Run(c, None, Heard(ops, misled + [b]), |misled|) == M.Run(c, None, Heard(ops, misled), |misled|)
  {
    var heard, heard' := Heard(ops, misled), Heard(ops, misled + [b]);
    assert heard'[..|heard|] == heard;
    hide M.Run, Heard, Misled, M.Answered;
    forall i | 0 <= i < |misled|
      ensures Answered(c, ops, misled + [b], answers + [answer], i)
    {
      assert Answered(c, ops, misled, answers, i);
      RunPrefix(c, heard, heard', i);
    }
    RunPrefix(c, heard, heard', |misled|);
  }

  /**
   * Any run on an empty table without a cap, with the source's lookup, that owns neither keys nor values. It goes on
   * past tombstones: an operation that meets one is of a key that was set and removed, leaves the map alone, and, if
   * it is a get, answers with the value that was last set; all others are answered by the map. The run ends early
   * only when the largest listed size is full, or at the removal of a key whose lookup stops at its tombstone.
   */
  method RunPastTombstones<V>(t: Table<V>, ops: seq<M.Op<V>>)
    returns (done: nat, answers: seq<M.Answer<V>>, ghost misled: seq<bool>)
    requires t.Valid() && t.Map() == [] && !t.capped && !t.strict && t.Borrows() && NoTombstones(t.entries[..])
    modifies t, t.entries
    ensures t.ci == old(t.ci) && t.Valid() && done == |answers| == |misled| <= |ops|
    ensures forall i :: 0 <= i < done ==> Answered(Classifier(t.ci), ops, misled, answers, i)
    ensures t.Map() == M.Run(Classifier(t.ci), None, Heard(ops, misled), done)
    ensures done < |ops| ==> NoRoom(t.ci, None, Heard(ops, misled) + [ops[done]], done) ||
                             (ops[done].Drop? && t.Stale(ops[done].key))
  {
    hide t.Valid, t.Stale, t.Map, Held, Answered, M.After, M.Run, Classifier, Legible, M.Evicted, Load;
    HeldAtFirst(t, ops);
    done, answers, misled := 0, [], [];
    M.RunStarts(Classifier(t.ci), None, Heard(ops, misled));
    while done < |ops|
      invariant t.ci == old(t.ci) && done == |answers| == |misled| <= |ops| && Held(t, ops, done)
      invariant t.entries == old(t.entries) || fresh(t.entries)
      invariant forall i :: 0 <= i < done ==> Answered(Classifier(t.ci), ops, misled, answers, i)
      invariant t.Valid() && t.Map() == M.Run(Classifier(t.ci), None, Heard(ops, misled), done)
    {
      HeldIsValid(t, ops, done);
      var stop := SecondRemoval(t, ops[done]);
      if stop {
        return;
      }
      ghost var m := t.Map();
      var answer, ok, b := Step(t, ops, done);
      if !ok {
        FullNext(t.ci, ops, misled);
        return;
      }
      AnsweredLater(Classifier(t.ci), ops, misled, answers, b, answer);
      AnsweredNow(Classifier(t.ci), ops, misled, answers, b, answer, m, t.Map());
      answers, misled, done := answers + [answer], misled + [b], done + 1;
    }
  }

  method SecondRemoval<V>(t: Table<V>, op: M.Op<V>) returns (b: bool)
    requires t.Valid()
    ensures b <==> op.Drop? && t.Stale(op.key)
  {
    hide t.Valid, t.Stale;
    b := false;
    if op.Drop? {
      b := IsStale(t, op.key);
    }
  }

  lemma HeldAtFirst<V>(t: Table<V>, ops: seq<M.Op<V>>)
    requires t.Valid() && t.Map() == [] && !t.capped && !t.strict && t.Borrows() && NoTombstones(t.entries[..])
    ensures Held(t, ops, 0)
  {
    hide Inv, Legible;
    t.LegibleWithoutTombstones();
  }

  lemma AnsweredNow<V>(c: M.Classes, ops: seq<M.Op<V>>, misled: seq<bool>, answers: seq<M.Answer<V>>, b: bool,
                       answer: M.Answer<V>, m: seq<M.Pair<V>>, m': seq<M.Pair<V>>)
    requires |misled| == |answers| < |ops| && m == M.Run(c, None, Heard(ops, misled + [b]), |misled|)
    requires if b then m' == m && Misled(c, m, ops, |misled|, answer)
             else m' == M.After(c, None, m, ops[|misled|]) && answer == M.Answered(c, m, ops[|misled|])
    ensures Answered(c, ops, misled + [b], answers + [answer], |misled|)
    ensures m' == M.Run(c, None, Heard(ops, misled + [b]), |misled| + 1)
  {
    hide Misled, M.Answered;
    M.RunStep(c, None, Heard(ops, misled + [b]), |misled| + 1);
  }

  lemma FullNext<V>(ci: bool, ops: seq<M.Op<V>>, misled: seq<bool>)
    requires |misled| < |ops| && ops[|misled|].Put?
    requires |M.Run(Classifier(ci), None, Heard(ops, misled), |misled|)| == Load(LARGEST)
    ensures NoRoom(ci, None, Heard(ops, misled) + [ops[|misled|]], |misled|)
  {
    hide Load, M.Run;
    RunPrefix(Classifier(ci), Heard(ops, misled), Heard(ops, misled) + [ops[|misled|]], |misled|);
  }
}
