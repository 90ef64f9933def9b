/**
 * What a table means: a sequence of entries in list order, with at most one entry for each class
 * of keys. Without a cap the order is that of insertion; with one it is that of last use.
 */
module OrderedMap {
  import opened Wrappers
  import opened Keys
  import opened Primes

  /** How a table tells keys apart: by the class it puts them in. */
  type Classes = bytes -> KeyClass

  ghost predicate Alike(c: Classes, a: bytes, b: bytes) {
    c(a) == c(b)
  }

  datatype Pair<+V> = Pair(key: bytes, value: V)

  ghost predicate Unique<V>(c: Classes, m: seq<Pair<V>>) {
    forall i, j :: 0 <= i < j < |m| ==> !Alike(c, m[i].key, m[j].key)
  }

  /** The position of a key, or -1. */
  ghost function IndexOf<V>(c: Classes, m: seq<Pair<V>>, key: bytes): (i: int)
    ensures -1 <= i < |m|
    ensures i >= 0 ==> Alike(c, m[i].key, key)
    ensures i == -1 ==> forall k :: 0 <= k < |m| ==> !Alike(c, m[k].key, key)
  {
    if exists i :: 0 <= i < |m| && Alike(c, m[i].key, key)
    then var i :| 0 <= i < |m| && Alike(c, m[i].key, key); i
    else -1
  }

  ghost function Lookup<V>(c: Classes, m: seq<Pair<V>>, key: bytes): Option<V> {
    var i := IndexOf(c, m, key);
    if i >= 0 then Some(m[i].value) else None
  }

  lemma IndexIs<V>(c: Classes, m: seq<Pair<V>>, key: bytes, i: int)
    requires Unique(c, m) && 0 <= i < |m| && Alike(c, m[i].key, key)
    ensures IndexOf(c, m, key) == i
  {
    var k := IndexOf(c, m, key);
    assert k >= 0 && Alike(c, m[k].key, m[i].key);
  }

  /** All entries but the one at position i, in the same order. */
  ghost function Without<V>(m: seq<Pair<V>>, i: int): (r: seq<Pair<V>>)
    requires 0 <= i < |m|
    ensures |r| == |m| - 1
  {
    seq(|m| - 1, k requires 0 <= k < |m| - 1 => m[if k < i then k else k + 1])
  }

  // ----- the operations

  ghost function AfterGet<V>(c: Classes, cap: Option<nat>, m: seq<Pair<V>>, key: bytes): seq<Pair<V>> {
    var i := IndexOf(c, m, key);
    if i >= 0 && cap.Some? then Without(m, i) + [m[i]] else m
  }

  ghost predicate Full<V>(cap: Option<nat>, m: seq<Pair<V>>) {
    cap.Some? && |m| == cap.value && |m| > 0
  }

  ghost function Evicted<V>(cap: Option<nat>, m: seq<Pair<V>>): seq<Pair<V>> {
    if Full(cap, m) then Without(m, 0) else m
  }

  ghost function AfterSet<V>(c: Classes, cap: Option<nat>, m: seq<Pair<V>>, key: bytes, value: V): seq<Pair<V>> {
    var i := IndexOf(c, m, key);
    if i < 0 then Evicted(cap, m) + [Pair(key, value)]
    else if cap.Some? then Without(m, i) + [Pair(m[i].key, value)]
    else m[i := Pair(m[i].key, value)]
  }

  ghost function AfterRemove<V>(c: Classes, m: seq<Pair<V>>, key: bytes): seq<Pair<V>> {
    var i := IndexOf(c, m, key);
    if i >= 0 then Without(m, i) else m
  }

  // ----- their laws

  lemma WithoutUnique<V>(c: Classes, m: seq<Pair<V>>, i: int)
    requires Unique(c, m) && 0 <= i < |m|
    ensures Unique(c, Without(m, i))
    ensures forall k :: 0 <= k < |m| - 1 ==> !Alike(c, Without(m, i)[k].key, m[i].key)
  {
  }

  lemma AppendUnique<V>(c: Classes, m: seq<Pair<V>>, p: Pair<V>)
    requires Unique(c, m) && forall k :: 0 <= k < |m| ==> !Alike(c, m[k].key, p.key)
    ensures Unique(c, m + [p])
  {
  }

  lemma AfterGetUnique<V>(c: Classes, cap: Option<nat>, m: seq<Pair<V>>, key: bytes)
    requires Unique(c, m)
    ensures Unique(c, AfterGet(c, cap, m, key))
  {
    var i := IndexOf(c, m, key);
    if i >= 0 && cap.Some? {
      WithoutUnique(c, m, i);
      AppendUnique(c, Without(m, i), m[i]);
    }
  }

  lemma AfterRemoveUnique<V>(c: Classes, m: seq<Pair<V>>, key: bytes)
    requires Unique(c, m)
    ensures Unique(c, AfterRemove(c, m, key))
  {
    var i := IndexOf(c, m, key);
    if i >= 0 {
      WithoutUnique(c, m, i);
    }
  }

  lemma AfterSetUnique<V>(c: Classes, cap: Option<nat>, m: seq<Pair<V>>, key: bytes, value: V)
    requires Unique(c, m)
    ensures Unique(c, AfterSet(c, cap, m, key, value))
    ensures cap.Some? && 1 <= cap.value && |m| <= cap.value ==> |AfterSet(c, cap, m, key, value)| <= cap.value
  {
    var i := IndexOf(c, m, key);
    if i < 0 {
      if Full(cap, m) {
        WithoutUnique(c, m, 0);
      }
      AppendUnique(c, Evicted(cap, m), Pair(key, value));
    } else if cap.Some? {
      WithoutUnique(c, m, i);
      AppendUnique(c, Without(m, i), Pair(m[i].key, value));
    }
  }

  lemma UpdateUnique<V>(c: Classes, m: seq<Pair<V>>, i: int, value: V)
    requires Unique(c, m) && 0 <= i < |m|
    ensures Unique(c, m[i := Pair(m[i].key, value)])
  {
    assert forall x :: 0 <= x < |m| ==> m[i := Pair(m[i].key, value)][x].key == m[x].key;
  }

  lemma WithoutIndex<V>(c: Classes, m: seq<Pair<V>>, i: int, key: bytes)
    requires 0 <= i < |m| && IndexOf(c, m, key) == -1
    ensures IndexOf(c, Without(m, i), key) == -1
  {
  }

  /** Taking one entry out takes its key out and leaves every other key with its value. */
  lemma WithoutLookup<V>(c: Classes, m: seq<Pair<V>>, i: int, other: bytes)
    requires Unique(c, m) && 0 <= i < |m|
    ensures Lookup(c, Without(m, i), other) == if Alike(c, m[i].key, other) then None else Lookup(c, m, other)
  {
    WithoutUnique(c, m, i);
    var m', k := Without(m, i), IndexOf(c, m, other);
    assert forall x :: 0 <= x < |m'| ==> m'[x] == m[if x < i then x else x + 1];
    if k >= 0 && !Alike(c, m[i].key, other) {
      IndexIs(c, m', other, if k < i then k else k - 1);
    }
  }

  lemma AppendLookup<V>(c: Classes, m: seq<Pair<V>>, p: Pair<V>, other: bytes)
    requires Unique(c, m + [p])
    ensures Lookup(c, m + [p], other) == if Alike(c, p.key, other) then Some(p.value) else Lookup(c, m, other)
  {
    var m', k := m + [p], IndexOf(c, m, other);
    assert forall x :: 0 <= x < |m| ==> m'[x] == m[x];
    if Alike(c, p.key, other) {
      IndexIs(c, m', other, |m|);
    } else if k >= 0 {
      IndexIs(c, m', other, k);
    }
  }

  /** Getting, which may move an entry to the end, changes no value. */
  lemma GetLookup<V>(c: Classes, cap: Option<nat>, m: seq<Pair<V>>, key: bytes, other: bytes)
    requires Unique(c, m)
    ensures Lookup(c, AfterGet(c, cap, m, key), other) == Lookup(c, m, other)
  {
    var i := IndexOf(c, m, key);
    if i >= 0 && cap.Some? {
      WithoutLookup(c, m, i, other);
      AfterGetUnique(c, cap, m, key);
      AppendLookup(c, Without(m, i), m[i], other);
      if Alike(c, m[i].key, other) {
        IndexIs(c, m, other, i);
      }
    }
  }

  lemma RemoveLookup<V>(c: Classes, m: seq<Pair<V>>, key: bytes, other: bytes)
    requires Unique(c, m)
    ensures Lookup(c, AfterRemove(c, m, key), other) == if Alike(c, key, other) then None else Lookup(c, m, other)
  {
    var i := IndexOf(c, m, key);
    if i >= 0 {
      WithoutLookup(c, m, i, other);
    }
  }

  /** Whether setting `key` evicts `other`: the table is full without the key, and `other` heads the list. */
  ghost predicate Evicts<V>(c: Classes, cap: Option<nat>, m: seq<Pair<V>>, key: bytes, other: bytes) {
    && IndexOf(c, m, key) < 0
    && Full(cap, m)
    && Alike(c, m[0].key, other)
  }

  /** Setting gives the key its value; of the others it takes away at most the evicted one. */
  lemma SetLookup<V>(c: Classes, cap: Option<nat>, m: seq<Pair<V>>, key: bytes, value: V, other: bytes)
    requires Unique(c, m)
    ensures Lookup(c, AfterSet(c, cap, m, key, value), other) ==
      if Alike(c, key, other) then Some(value)
      else if Evicts(c, cap, m, key, other) then None
      else Lookup(c, m, other)
  {
    var i := IndexOf(c, m, key);
    AfterSetUnique(c, cap, m, key, value);
    if i < 0 {
      if Full(cap, m) {
        WithoutLookup(c, m, 0, other);
      }
      AppendLookup(c, Evicted(cap, m), Pair(key, value), other);
    } else if cap.Some? {
      WithoutLookup(c, m, i, other);
      AppendLookup(c, Without(m, i), Pair(m[i].key, value), other);
    } else {
      UpdateLookup(c, m, i, value, other);
    }
  }

  lemma UpdateLookup<V>(c: Classes, m: seq<Pair<V>>, i: int, value: V, other: bytes)
    requires Unique(c, m) && 0 <= i < |m|
    ensures Lookup(c, m[i := Pair(m[i].key, value)], other) ==
      if Alike(c, m[i].key, other) then Some(value) else Lookup(c, m, other)
  {
    var m', k := m[i := Pair(m[i].key, value)], IndexOf(c, m, other);
    assert forall x :: 0 <= x < |m'| ==> m'[x].key == m[x].key;
    if Alike(c, m[i].key, other) {
      IndexIs(c, m', other, i);
    } else if k >= 0 {
      IndexIs(c, m', other, k);
    }
  }

  // ----- runs

  /** What can be done to a table: get, set with a value or with NULL, next and clear. */
  datatype Op<+V> = Get(key: bytes) | Put(key: bytes, value: V) | Drop(key: bytes) | Next(from: Option<bytes>) | Clear

  ghost predicate Names<V>(c: Classes, op: Op<V>, key: bytes) {
    (op.Get? || op.Put? || op.Drop?) && Alike(c, op.key, key)
  }

  ghost function After<V>(c: Classes, cap: Option<nat>, m: seq<Pair<V>>, op: Op<V>): seq<Pair<V>> {
    match op
    case Get(key) => AfterGet(c, cap, m, key)
    case Put(key, value) => AfterSet(c, cap, m, key, value)
    case Drop(key) => AfterRemove(c, m, key)
    case Next(_) => m
    case Clear => []
  }

  /** The entry after that of a key, or the first. */
  ghost function Following<V>(c: Classes, m: seq<Pair<V>>, from: Option<bytes>): Option<Pair<V>> {
    var i := if from.None? then 0 else IndexOf(c, m, from.value) + 1;
    if (from.Some? && i == 0) || i == |m| then None else Some(m[i])
  }

  /** What an operation hands back: a value, an entry, or nothing of interest. */
  datatype Answer<+V> = Value(value: Option<V>) | Entry(entry: Option<Pair<V>>) | Done

  ghost function Answered<V>(c: Classes, m: seq<Pair<V>>, op: Op<V>): Answer<V> {
    match op
    case Get(key) => Value(Lookup(c, m, key))
    case Next(from) => Answer.Entry(Following(c, m, from))
    case _ => Done
  }

  /** The entries after the first n operations on an empty table. */
  ghost function Run<V>(c: Classes, cap: Option<nat>, ops: seq<Op<V>>, n: nat): seq<Pair<V>>
    requires n <= |ops|
  {
    if n == 0 then [] else After(c, cap, Run(c, cap, ops, n - 1), ops[n - 1])
  }

  lemma RunStarts<V>(c: Classes, cap: Option<nat>, ops: seq<Op<V>>)
    ensures Run(c, cap, ops, 0) == []
  {
  }

  lemma RunStep<V>(c: Classes, cap: Option<nat>, ops: seq<Op<V>>, n: nat)
    requires 1 <= n <= |ops|
    ensures Run(c, cap, ops, n) == After(c, cap, Run(c, cap, ops, n - 1), ops[n - 1])
  {
  }

  /** The value the last operation on a key's value gave it. */
  ghost function LastValue<V>(c: Classes, ops: seq<Op<V>>, n: nat, key: bytes): Option<V>
    requires n <= |ops|
  {
    if n == 0 || ops[n - 1].Clear? then None
    else if ops[n - 1].Put? && Names(c, ops[n - 1], key) then Some(ops[n - 1].value)
    else if ops[n - 1].Drop? && Names(c, ops[n - 1], key) then None
    else LastValue(c, ops, n - 1, key)
  }

  /** When a key was last got or set; -1 if never. */
  ghost function LastUse<V>(c: Classes, ops: seq<Op<V>>, n: nat, key: bytes): (i: int)
    requires n <= |ops|
    ensures -1 <= i < n
  {
    if n == 0 then -1
    else if !ops[n - 1].Drop? && Names(c, ops[n - 1], key) then n - 1
    else LastUse(c, ops, n - 1, key)
  }

  /** When a key that has a value was set while it had none; -1 if it has no value. */
  ghost function Entered<V>(c: Classes, ops: seq<Op<V>>, n: nat, key: bytes): (i: int)
    requires n <= |ops|
    ensures -1 <= i < n
    ensures i == -1 <==> LastValue(c, ops, n, key) == None
  {
    if n == 0 || ops[n - 1].Clear? then -1
    else if ops[n - 1].Put? && Names(c, ops[n - 1], key) && Entered(c, ops, n - 1, key) == -1 then n - 1
    else if ops[n - 1].Drop? && Names(c, ops[n - 1], key) then -1
    else Entered(c, ops, n - 1, key)
  }

  lemma {:induction false} RunUnique<V>(c: Classes, cap: Option<nat>, ops: seq<Op<V>>, n: nat)
    requires n <= |ops| && (cap.Some? ==> cap.value >= 1)
    ensures Unique(c, Run(c, cap, ops, n))
    ensures cap.Some? ==> |Run(c, cap, ops, n)| <= cap.value
  {
    if n > 0 {
      RunUnique(c, cap, ops, n - 1);
      var m := Run(c, cap, ops, n - 1);
      match ops[n - 1]
      case Get(key) => AfterGetUnique(c, cap, m, key);
      case Put(key, value) => AfterSetUnique(c, cap, m, key, value);
      case Drop(key) => AfterRemoveUnique(c, m, key);
      case _ =>
    }
  }

  /**
   * After any run, a key without a cap has the value last set for it, if it was not removed since. A cap
   * can only make the key absent; it never leaves an older value.
   */
  lemma {:induction false} RunLookup<V>(c: Classes, cap: Option<nat>, ops: seq<Op<V>>, n: nat, key: bytes)
    requires n <= |ops| && (cap.Some? ==> cap.value >= 1)
    ensures cap == None ==> Lookup(c, Run(c, cap, ops, n), key) == LastValue(c, ops, n, key)
    ensures Lookup(c, Run(c, cap, ops, n), key) in {None, LastValue(c, ops, n, key)}
  {
    hide Unique, AfterGet, AfterSet, AfterRemove, Lookup;
    if n == 0 {
      NothingIn(c, Run(c, cap, ops, n), key);
    } else {
      RunLookup(c, cap, ops, n - 1, key);
      RunUnique(c, cap, ops, n - 1);
      var m := Run(c, cap, ops, n - 1);
      match ops[n - 1]
      case Get(k) => GetLookup(c, cap, m, k, key);
      case Put(k, value) => SetLookup(c, cap, m, k, value, key);
      case Drop(k) => RemoveLookup(c, m, k, key);
      case Next(_) =>
      case Clear => NothingIn(c, Run(c, cap, ops, n), key);
    }
  }

  /** The entry after that of a key is the next one, if the key is held and not by the last entry. */
  ghost predicate Follows<V>(c: Classes, m: seq<Pair<V>>, key: bytes) {
    && Following(c, m, None) == (if m == [] then None else Some(m[0]))
    && (forall i :: 0 <= i < |m| && Alike(c, m[i].key, key) ==>
          Following(c, m, Some(key)) == if i + 1 < |m| then Some(m[i + 1]) else None)
    && ((forall i :: 0 <= i < |m| ==> !Alike(c, m[i].key, key)) ==> Following(c, m, Some(key)) == None)
  }

  lemma UniqueFollows<V>(c: Classes, m: seq<Pair<V>>, key: bytes)
    requires Unique(c, m)
    ensures Follows(c, m, key)
    ensures Lookup(c, m, key) == None ==> Following(c, m, Some(key)) == None
  {
    forall i | 0 <= i < |m| && Alike(c, m[i].key, key)
      ensures Following(c, m, Some(key)) == if i + 1 < |m| then Some(m[i + 1]) else None
    {
      IndexIs(c, m, key, i);
    }
  }

  /** Iteration over what a run has made; nothing follows a key that the run has left without a value. */
  lemma RunFollowing<V>(c: Classes, cap: Option<nat>, ops: seq<Op<V>>, n: nat, key: bytes)
    requires n <= |ops| && (cap.Some? ==> cap.value >= 1)
    ensures Follows(c, Run(c, cap, ops, n), key)
    ensures LastValue(c, ops, n, key) == None ==> Following(c, Run(c, cap, ops, n), Some(key)) == None
  {
    hide Follows, Following, Lookup, Unique, LastValue;
    RunUnique(c, cap, ops, n);
    RunLookup(c, cap, ops, n, key);
    UniqueFollows(c, Run(c, cap, ops, n), key);
  }

  /** The set of operation t brought in the entry of a key, spelled as it is, and the key has been held ever since. */
  ghost predicate BroughtIn<V>(c: Classes, cap: Option<nat>, ops: seq<Op<V>>, n: nat, key: bytes, t: nat)
    requires n <= |ops|
  {
    && t < n && ops[t].Put? && ops[t].key == key
    && Lookup(c, Run(c, cap, ops, t), key) == None
    && forall u: nat :: t < u <= n ==> Lookup(c, Run(c, cap, ops, u), key).Some?
  }

  lemma StepKeys<V>(c: Classes, cap: Option<nat>, m: seq<Pair<V>>, op: Op<V>, i: nat)
    requires i < |After(c, cap, m, op)|
    ensures var key := After(c, cap, m, op)[i].key;
      || (exists j :: 0 <= j < |m| && m[j].key == key)
      || (op.Put? && op.key == key && Lookup(c, m, key) == None)
    ensures var m' := After(c, cap, m, op); Lookup(c, m', m'[i].key).Some?
  {
  }

  /** An update keeps the key first set: every entry has the key of the set that brought it in. */
  lemma {:induction false} RunKeepsKeys<V>(c: Classes, cap: Option<nat>, ops: seq<Op<V>>, n: nat, i: nat)
    requires n <= |ops| && i < |Run(c, cap, ops, n)|
    ensures exists t: nat :: BroughtIn(c, cap, ops, n, Run(c, cap, ops, n)[i].key, t)
    decreases n
  {
    hide Run, After, Lookup;
    if n == 0 {
      RunStarts(c, cap, ops);
    } else {
      RunStep(c, cap, ops, n);
      var m, op := Run(c, cap, ops, n - 1), ops[n - 1];
      var key := Run(c, cap, ops, n)[i].key;
      StepKeys(c, cap, m, op, i);
      if j: nat :| j < |m| && m[j].key == key {
        RunKeepsKeys(c, cap, ops, n - 1, j);
        var t: nat :| BroughtIn(c, cap, ops, n - 1, key, t);
        assert BroughtIn(c, cap, ops, n, key, t);
      } else {
        assert BroughtIn(c, cap, ops, n, key, n - 1);
      }
    }
  }

  lemma NothingIn<V>(c: Classes, m: seq<Pair<V>>, key: bytes)
    requires m == []
    ensures Lookup(c, m, key) == None
  {
  }

  // ----- the order of the entries

  /** What entries are ordered by: when their keys were last used, or when they came in. */
  datatype Clock = ByUse | ByEntry

  ghost function Time<V>(clock: Clock, c: Classes, ops: seq<Op<V>>, n: nat, key: bytes): int
    requires n <= |ops|
  {
    if clock.ByUse? then LastUse(c, ops, n, key) else Entered(c, ops, n, key)
  }

  ghost predicate Ascending<V>(clock: Clock, c: Classes, ops: seq<Op<V>>, n: nat, m: seq<Pair<V>>)
    requires n <= |ops|
  {
    && (forall i :: 0 <= i < |m| ==> Time(clock, c, ops, n, m[i].key) >= 0)
    && (forall i, j :: 0 <= i < j < |m| ==> Time(clock, c, ops, n, m[i].key) < Time(clock, c, ops, n, m[j].key))
  }

  lemma AscendingWithout<V>(clock: Clock, c: Classes, ops: seq<Op<V>>, n: nat, m: seq<Pair<V>>, i: int)
    requires n <= |ops| && Ascending(clock, c, ops, n, m) && 0 <= i < |m|
    ensures Ascending(clock, c, ops, n, Without(m, i))
  {
    assert forall k :: 0 <= k < |m| - 1 ==> Without(m, i)[k] == m[if k < i then k else k + 1];
  }

  /** An operation leaves the times of entries it does not name alone. */
  lemma AscendingKept<V>(clock: Clock, c: Classes, ops: seq<Op<V>>, n: nat, rest: seq<Pair<V>>)
    requires 1 <= n <= |ops| && Ascending(clock, c, ops, n - 1, rest) && !ops[n - 1].Clear?
    requires forall i :: 0 <= i < |rest| ==> !Names(c, ops[n - 1], rest[i].key)
    ensures Ascending(clock, c, ops, n, rest)
    ensures forall i :: 0 <= i < |rest| ==> Time(clock, c, ops, n, rest[i].key) < n - 1
  {
    assert forall i :: 0 <= i < |rest| ==>
      Time(clock, c, ops, n, rest[i].key) == Time(clock, c, ops, n - 1, rest[i].key);
  }

  /** The entry an operation gives the latest time goes to the end. */
  lemma AscendingAppend<V>(clock: Clock, c: Classes, ops: seq<Op<V>>, n: nat, rest: seq<Pair<V>>, p: Pair<V>)
    requires 1 <= n <= |ops| && Ascending(clock, c, ops, n - 1, rest) && Time(clock, c, ops, n, p.key) == n - 1
    requires !ops[n - 1].Clear? && forall i :: 0 <= i < |rest| ==> !Names(c, ops[n - 1], rest[i].key)
    ensures Ascending(clock, c, ops, n, rest + [p])
  {
    AscendingKept(clock, c, ops, n, rest);
  }

  /** An entry that an operation names is the only one. */
  lemma NamedOnce<V>(c: Classes, m: seq<Pair<V>>, op: Op<V>, i: int)
    requires Unique(c, m) && (op.Get? || op.Put? || op.Drop?) && i == IndexOf(c, m, op.key)
    ensures i >= 0 ==> forall k :: 0 <= k < |m| - 1 ==> !Names(c, op, Without(m, i)[k].key)
    ensures i < 0 ==> forall k :: 0 <= k < |m| ==> !Names(c, op, m[k].key)
    ensures i < 0 && |m| > 0 ==> forall k :: 0 <= k < |m| - 1 ==> !Names(c, op, Without(m, 0)[k].key)
  {
    if i >= 0 {
      WithoutUnique(c, m, i);
    }
  }

  lemma UseOfListed<V>(c: Classes, ops: seq<Op<V>>, n: nat, m: seq<Pair<V>>, i: int, p: Pair<V>)
    requires 1 <= n <= |ops| && Unique(c, m) && Ascending(ByUse, c, ops, n - 1, m)
    requires (ops[n - 1].Get? || ops[n - 1].Put?) && i == IndexOf(c, m, ops[n - 1].key) >= 0 && p.key == m[i].key
    ensures Ascending(ByUse, c, ops, n, Without(m, i) + [p])
  {
    NamedOnce(c, m, ops[n - 1], i);
    AscendingWithout(ByUse, c, ops, n - 1, m, i);
    hide Ascending, Unique;
    AscendingAppend(ByUse, c, ops, n, Without(m, i), p);
  }

  lemma UseOfNew<V>(c: Classes, cap: nat, ops: seq<Op<V>>, n: nat, m: seq<Pair<V>>)
    requires 1 <= n <= |ops| && Unique(c, m) && Ascending(ByUse, c, ops, n - 1, m)
    requires ops[n - 1].Put? && IndexOf(c, m, ops[n - 1].key) < 0
    ensures Ascending(ByUse, c, ops, n, Evicted(Some(cap), m) + [Pair(ops[n - 1].key, ops[n - 1].value)])
  {
    NamedOnce(c, m, ops[n - 1], -1);
    hide Ascending, Unique;
    if Full(Some(cap), m) {
      AscendingWithout(ByUse, c, ops, n - 1, m, 0);
    }
    AscendingAppend(ByUse, c, ops, n, Evicted(Some(cap), m), Pair(ops[n - 1].key, ops[n - 1].value));
  }

  lemma DropInOrder<V>(clock: Clock, c: Classes, ops: seq<Op<V>>, n: nat, m: seq<Pair<V>>)
    requires 1 <= n <= |ops| && Unique(c, m) && Ascending(clock, c, ops, n - 1, m) && ops[n - 1].Drop?
    ensures Ascending(clock, c, ops, n, AfterRemove(c, m, ops[n - 1].key))
  {
    var i := IndexOf(c, m, ops[n - 1].key);
    NamedOnce(c, m, ops[n - 1], i);
    hide Ascending, Unique;
    if i >= 0 {
      AscendingWithout(clock, c, ops, n - 1, m, i);
    }
    AscendingKept(clock, c, ops, n, AfterRemove(c, m, ops[n - 1].key));
  }

  lemma UseInOrder<V>(c: Classes, cap: nat, ops: seq<Op<V>>, n: nat, m: seq<Pair<V>>)
    requires 1 <= n <= |ops| && Unique(c, m) && Ascending(ByUse, c, ops, n - 1, m)
    ensures Ascending(ByUse, c, ops, n, After(c, Some(cap), m, ops[n - 1]))
  {
    var op := ops[n - 1];
    match op
    case Get(key) => {
      var i := IndexOf(c, m, key);
      NamedOnce(c, m, op, i);
      hide Ascending, Unique;
      if i >= 0 {
        UseOfListed(c, ops, n, m, i, m[i]);
      } else {
        AscendingKept(ByUse, c, ops, n, m);
      }
    }
    case Put(key, value) => {
      hide Ascending, Unique;
      var i := IndexOf(c, m, key);
      if i >= 0 {
        UseOfListed(c, ops, n, m, i, Pair(m[i].key, value));
      } else {
        UseOfNew(c, cap, ops, n, m);
      }
    }
    case Drop(_) => DropInOrder(ByUse, c, ops, n, m);
    case Next(_) => AscendingKept(ByUse, c, ops, n, m);
    case Clear =>
  }

  /**
   * A capped table is in order of last use after any run: its head, the entry that eviction takes, is
   * the least recently got or set of the keys that are in it.
   */
  lemma {:induction false} RunIsLeastRecentlyUsedFirst<V>(c: Classes, cap: nat, ops: seq<Op<V>>, n: nat)
    requires n <= |ops| && cap >= 1
    ensures Ascending(ByUse, c, ops, n, Run(c, Some(cap), ops, n))
  {
    if n > 0 {
      hide Ascending, After, Unique;
      RunIsLeastRecentlyUsedFirst(c, cap, ops, n - 1);
      RunUnique(c, Some(cap), ops, n - 1);
      UseInOrder(c, cap, ops, n, Run(c, Some(cap), ops, n - 1));
    }
  }

  /** Getting a key, or setting one that is in the table, does not count as coming in. */
  lemma EntryKept<V>(c: Classes, ops: seq<Op<V>>, n: nat, m: seq<Pair<V>>, m': seq<Pair<V>>)
    requires 1 <= n <= |ops| && !ops[n - 1].Drop? && !ops[n - 1].Clear? && Ascending(ByEntry, c, ops, n - 1, m)
    requires |m'| == |m| && forall i :: 0 <= i < |m| ==> m'[i].key == m[i].key
    requires ops[n - 1].Put? ==> Entered(c, ops, n - 1, ops[n - 1].key) >= 0
    ensures Ascending(ByEntry, c, ops, n, m')
  {
    forall i | 0 <= i < |m|
      ensures Time(ByEntry, c, ops, n, m'[i].key) == Time(ByEntry, c, ops, n - 1, m[i].key)
    {
    }
  }

  lemma EntryInOrder<V>(c: Classes, ops: seq<Op<V>>, n: nat, m: seq<Pair<V>>)
    requires 1 <= n <= |ops| && Unique(c, m) && Ascending(ByEntry, c, ops, n - 1, m)
    requires ops[n - 1].Put? ==> Lookup(c, m, ops[n - 1].key) == LastValue(c, ops, n - 1, ops[n - 1].key)
    ensures Ascending(ByEntry, c, ops, n, After(c, None, m, ops[n - 1]))
  {
    var op := ops[n - 1];
    match op
    case Get(_) => EntryKept(c, ops, n, m, m);
    case Put(key, value) => {
      var i := IndexOf(c, m, key);
      NamedOnce(c, m, op, i);
      hide Ascending, Unique;
      if i >= 0 {
        EntryKept(c, ops, n, m, m[i := Pair(m[i].key, value)]);
      } else {
        AscendingAppend(ByEntry, c, ops, n, m, Pair(key, value));
      }
    }
    case Drop(_) => DropInOrder(ByEntry, c, ops, n, m);
    case Next(_) => EntryKept(c, ops, n, m, m);
    case Clear =>
  }

  /** Without a cap, entries stay in the order in which their keys came in, whatever is set again since. */
  lemma {:induction false} RunIsInsertionOrdered<V>(c: Classes, ops: seq<Op<V>>, n: nat)
    requires n <= |ops|
    ensures Ascending(ByEntry, c, ops, n, Run(c, None, ops, n))
  {
    if n > 0 {
      hide Ascending, After, Unique, Lookup;
      RunIsInsertionOrdered(c, ops, n - 1);
      RunUnique(c, None, ops, n - 1);
      if ops[n - 1].Put? {
        RunLookup(c, None, ops, n - 1, ops[n - 1].key);
      }
      EntryInOrder(c, ops, n, Run(c, None, ops, n - 1));
    }
  }

  // ----- which keys a capped table holds

  /** The i-th operation uses a key: it sets it, or gets it while it is in the table. */
  ghost predicate Uses<V>(c: Classes, cap: Option<nat>, ops: seq<Op<V>>, i: nat)
    requires i < |ops|
  {
    ops[i].Put? || (ops[i].Get? && IndexOf(c, Run(c, cap, ops, i), ops[i].key) >= 0)
  }

  /** The other keys that were used since a key was last used, less those removed since. */
  ghost function Since<V>(c: Classes, cap: Option<nat>, ops: seq<Op<V>>, n: nat, key: bytes): set<KeyClass>
    requires n <= |ops|
  {
    if n == 0 || ops[n - 1].Clear? then {}
    else if ops[n - 1].Drop? then Since(c, cap, ops, n - 1, key) - {c(ops[n - 1].key)}
    else if !Uses(c, cap, ops, n - 1) then Since(c, cap, ops, n - 1, key)
    else if Alike(c, ops[n - 1].key, key) then {}
    else Since(c, cap, ops, n - 1, key) + {c(ops[n - 1].key)}
  }

  /** At some time since a key was last used there were `cap` such others. */
  ghost predicate Crowded<V>(c: Classes, cap: nat, ops: seq<Op<V>>, n: nat, key: bytes)
    requires n <= |ops|
  {
    && n > 0 && !ops[n - 1].Clear? && !(Uses(c, Some(cap), ops, n - 1) && Alike(c, ops[n - 1].key, key))
    && (Crowded(c, cap, ops, n - 1, key) || |Since(c, Some(cap), ops, n, key)| >= cap)
  }

  /** The classes of the entries behind position i. */
  ghost function Behind<V>(c: Classes, m: seq<Pair<V>>, i: int): set<KeyClass>
    requires -1 <= i < |m|
  {
    set j | i < j < |m| :: c(m[j].key)
  }

  lemma BehindCount<V>(c: Classes, m: seq<Pair<V>>, i: int)
    requires Unique(c, m) && -1 <= i < |m|
    ensures |Behind(c, m, i)| == |m| - 1 - i
  {
    var classes := seq(|m| - 1 - i, k requires 0 <= k < |m| - 1 - i => c(m[i + 1 + k].key));
    forall a, b | 0 <= a < b < |classes|
      ensures classes[a] != classes[b]
    {
      assert !Alike(c, m[i + 1 + a].key, m[i + 1 + b].key);
    }
    DistinctCardinality(classes);
    forall k: KeyClass
      ensures k in Behind(c, m, i) <==> k in classes
    {
      if k in Behind(c, m, i) {
        var j :| i < j < |m| && c(m[j].key) == k;
        assert classes[j - i - 1] == k;
      }
    }
    assert Behind(c, m, i) == set k | k in classes;
  }

  ghost predicate Recent<V>(c: Classes, cap: Option<nat>, ops: seq<Op<V>>, n: nat, m: seq<Pair<V>>)
    requires n <= |ops|
  {
    forall i :: 0 <= i < |m| ==> Since(c, cap, ops, n, m[i].key) == Behind(c, m, i)
  }

  /** Moving an entry to the end, or putting a new one there, with the entry at p taken out. */
  lemma RecentAppend<V>(c: Classes, cap: Option<nat>, ops: seq<Op<V>>, n: nat, m: seq<Pair<V>>, p: int, e: Pair<V>)
    requires 1 <= n <= |ops| && Recent(c, cap, ops, n - 1, m) && Uses(c, cap, ops, n - 1)
    requires Alike(c, ops[n - 1].key, e.key) && 0 <= p < |m| && (p == 0 || Alike(c, m[p].key, e.key))
    requires forall k :: 0 <= k < |m| && k != p ==> !Alike(c, ops[n - 1].key, m[k].key)
    ensures Recent(c, cap, ops, n, Without(m, p) + [e])
  {
    var m' := Without(m, p) + [e];
    forall i | 0 <= i < |m'|
      ensures Since(c, cap, ops, n, m'[i].key) == Behind(c, m', i)
    {
      if i < |m| - 1 {
        var i0 := if i < p then i else i + 1;
        assert m'[i] == m[i0];
        BehindMoved(c, m, p, e, i);
      }
    }
  }

  lemma BehindMoved<V>(c: Classes, m: seq<Pair<V>>, p: int, e: Pair<V>, i: int)
    requires 0 <= p < |m| && 0 <= i < |m| - 1 && (p == 0 || Alike(c, m[p].key, e.key))
    ensures Behind(c, Without(m, p) + [e], i) == Behind(c, m, if i < p then i else i + 1) + {c(e.key)}
  {
    var m', i0 := Without(m, p) + [e], if i < p then i else i + 1;
    forall k: KeyClass
      ensures k in Behind(c, m', i) <==> k in Behind(c, m, i0) + {c(e.key)}
    {
      if k in Behind(c, m', i) {
        var j :| i < j < |m'| && c(m'[j].key) == k;
        if j < |m| - 1 {
          assert m'[j] == m[if j < p then j else j + 1];
        }
      } else {
        assert m'[|m| - 1] == e;
        forall j | i0 < j < |m|
          ensures c(m[j].key) != k
        {
          if j != p {
            assert m'[if j < p then j else j - 1] == m[j];
          }
        }
      }
    }
  }

  lemma RecentGrown<V>(c: Classes, cap: Option<nat>, ops: seq<Op<V>>, n: nat, m: seq<Pair<V>>, e: Pair<V>)
    requires 1 <= n <= |ops| && Recent(c, cap, ops, n - 1, m) && Uses(c, cap, ops, n - 1)
    requires Alike(c, ops[n - 1].key, e.key)
    requires forall k :: 0 <= k < |m| ==> !Alike(c, ops[n - 1].key, m[k].key)
    ensures Recent(c, cap, ops, n, m + [e])
  {
    var m' := m + [e];
    forall i | 0 <= i < |m'|
      ensures Since(c, cap, ops, n, m'[i].key) == Behind(c, m', i)
    {
      if i < |m| {
        assert m'[i] == m[i] && m'[|m|] == e;
        assert forall j :: i < j < |m| ==> m'[j] == m[j];
        assert Behind(c, m', i) == Behind(c, m, i) + {c(e.key)};
      }
    }
  }

  lemma RecentLess<V>(c: Classes, cap: Option<nat>, ops: seq<Op<V>>, n: nat, m: seq<Pair<V>>)
    requires 1 <= n <= |ops| && Recent(c, cap, ops, n - 1, m) && ops[n - 1].Drop? && Unique(c, m)
    ensures Recent(c, cap, ops, n, AfterRemove(c, m, ops[n - 1].key))
  {
    var key := ops[n - 1].key;
    var p, m' := IndexOf(c, m, key), AfterRemove(c, m, key);
    NamedOnce(c, m, ops[n - 1], p);
    assert p >= 0 ==> forall j :: 0 <= j < |m| && j != p ==> !Alike(c, m[j].key, m[p].key);
    hide Unique;
    forall i | 0 <= i < |m'|
      ensures Since(c, cap, ops, n, m'[i].key) == Behind(c, m', i)
    {
      if p >= 0 {
        BehindWithout(c, m, p, i);
      } else {
        assert c(key) !in Behind(c, m, i);
      }
    }
  }

  lemma BehindWithout<V>(c: Classes, m: seq<Pair<V>>, p: int, i: int)
    requires 0 <= p < |m| && 0 <= i < |m| - 1
    requires forall j :: 0 <= j < |m| && j != p ==> c(m[j].key) != c(m[p].key)
    ensures Behind(c, Without(m, p), i) == Behind(c, m, if i < p then i else i + 1) - {c(m[p].key)}
  {
    var m', i0 := Without(m, p), if i < p then i else i + 1;
    forall k: KeyClass
      ensures k in Behind(c, m', i) <==> k in Behind(c, m, i0) - {c(m[p].key)}
    {
      if k in Behind(c, m', i) {
        var j :| i < j < |m'| && c(m'[j].key) == k;
        assert m'[j] == m[if j < p then j else j + 1];
      }
      if k in Behind(c, m, i0) && k != c(m[p].key) {
        var j :| i0 < j < |m| && c(m[j].key) == k;
        assert m'[if j < p then j else j - 1] == m[j];
      }
    }
  }

  lemma {:induction false} RunIsRecent<V>(c: Classes, cap: nat, ops: seq<Op<V>>, n: nat)
    requires n <= |ops| && cap >= 1
    ensures Recent(c, Some(cap), ops, n, Run(c, Some(cap), ops, n))
  {
    if n > 0 {
      hide Unique, Recent, After;
      RunIsRecent(c, cap, ops, n - 1);
      RunUnique(c, Some(cap), ops, n - 1);
      RecentAfter(c, cap, ops, n);
    }
  }

  lemma RecentAfter<V>(c: Classes, cap: nat, ops: seq<Op<V>>, n: nat)
    requires 1 <= n <= |ops| && cap >= 1
    requires Recent(c, Some(cap), ops, n - 1, Run(c, Some(cap), ops, n - 1))
    requires Unique(c, Run(c, Some(cap), ops, n - 1))
    ensures Recent(c, Some(cap), ops, n, Run(c, Some(cap), ops, n))
  {
    var m, op := Run(c, Some(cap), ops, n - 1), ops[n - 1];
    if op.Drop? {
      RecentLess(c, Some(cap), ops, n, m);
    } else if Uses(c, Some(cap), ops, n - 1) {
      var i := IndexOf(c, m, op.key);
      NamedOnce(c, m, op, i);
      if i >= 0 {
        assert forall k :: 0 <= k < |m| && k != i ==> !Alike(c, m[k].key, m[i].key);
        hide Recent, Unique;
        RecentAppend(c, Some(cap), ops, n, m, i, if op.Get? then m[i] else Pair(m[i].key, op.value));
      } else if Full(Some(cap), m) {
        hide Recent, Unique;
        RecentAppend(c, Some(cap), ops, n, m, 0, Pair(op.key, op.value));
      } else {
        hide Recent, Unique;
        RecentGrown(c, Some(cap), ops, n, m, Pair(op.key, op.value));
      }
    }
  }

  lemma {:induction false} SinceAlike<V>(c: Classes, cap: Option<nat>, ops: seq<Op<V>>, n: nat, a: bytes, b: bytes)
    requires n <= |ops| && Alike(c, a, b)
    ensures Since(c, cap, ops, n, a) == Since(c, cap, ops, n, b)
  {
    if n > 0 {
      SinceAlike(c, cap, ops, n - 1, a, b);
    }
  }

  /**
   * A capped table holds exactly the keys that have been set and not removed, and since whose last use there were
   * never `cap` others that were used and not removed. Without removals there are such others for good: then it holds
   * the keys since whose last use fewer than `cap` others have been used.
   */
  lemma {:induction false} RunHolds<V>(c: Classes, cap: nat, ops: seq<Op<V>>, n: nat, key: bytes)
    requires n <= |ops| && cap >= 1
    ensures IndexOf(c, Run(c, Some(cap), ops, n), key) >= 0 <==>
      LastValue(c, ops, n, key).Some? && !Crowded(c, cap, ops, n, key)
    ensures (forall i :: 0 <= i < |ops| ==> !ops[i].Drop?) ==>
      (Crowded(c, cap, ops, n, key) <==> |Since(c, Some(cap), ops, n, key)| >= cap)
  {
    hide Run, LastValue, Crowded, Since;
    if n == 0 {
      NothingHeld(c, cap, ops, key);
    } else {
      RunHolds(c, cap, ops, n - 1, key);
      HeldStep(c, cap, ops, n, key);
      if forall i :: 0 <= i < |ops| ==> !ops[i].Drop? {
        CrowdedForGood(c, cap, ops, n, key);
      }
    }
  }

  lemma NothingHeld<V>(c: Classes, cap: nat, ops: seq<Op<V>>, key: bytes)
    requires cap >= 1
    ensures IndexOf(c, Run(c, Some(cap), ops, 0), key) < 0 && LastValue(c, ops, 0, key) == None
    ensures !Crowded(c, cap, ops, 0, key) && Since(c, Some(cap), ops, 0, key) == {}
  {
  }

  lemma CrowdedForGood<V>(c: Classes, cap: nat, ops: seq<Op<V>>, n: nat, key: bytes)
    requires 1 <= n <= |ops| && cap >= 1
    requires !ops[n - 1].Drop? && (Crowded(c, cap, ops, n - 1, key) <==> |Since(c, Some(cap), ops, n - 1, key)| >= cap)
    ensures Crowded(c, cap, ops, n, key) <==> |Since(c, Some(cap), ops, n, key)| >= cap
  {
    hide Run;
    if !ops[n - 1].Clear? && Uses(c, Some(cap), ops, n - 1) && !Alike(c, ops[n - 1].key, key) {
      var since := Since(c, Some(cap), ops, n - 1, key);
      SubsetCardinality(since, since + {c(ops[n - 1].key)});
    }
  }

  /** What a step does to a key that is held, or not. */
  lemma HeldStep<V>(c: Classes, cap: nat, ops: seq<Op<V>>, n: nat, key: bytes)
    requires 1 <= n <= |ops| && cap >= 1
    requires IndexOf(c, Run(c, Some(cap), ops, n - 1), key) >= 0 <==>
      LastValue(c, ops, n - 1, key).Some? && !Crowded(c, cap, ops, n - 1, key)
    ensures IndexOf(c, Run(c, Some(cap), ops, n), key) >= 0 <==>
      LastValue(c, ops, n, key).Some? && !Crowded(c, cap, ops, n, key)
  {
    hide Run, After, Unique, Since;
    RunLookup(c, Some(cap), ops, n, key);
    if IndexOf(c, Run(c, Some(cap), ops, n), key) >= 0 {
      HeldIsNotCrowded(c, cap, ops, n, key);
    } else if LastValue(c, ops, n, key).Some? {
      RunStep(c, Some(cap), ops, n);
      RunUnique(c, Some(cap), ops, n - 1);
      StepSets(c, Some(cap), Run(c, Some(cap), ops, n - 1), ops[n - 1], key);
      if IndexOf(c, Run(c, Some(cap), ops, n - 1), key) >= 0 {
        EvictedSince(c, cap, ops, n, key);
      }
    }
  }

  lemma HeldIsNotCrowded<V>(c: Classes, cap: nat, ops: seq<Op<V>>, n: nat, key: bytes)
    requires 1 <= n <= |ops| && cap >= 1
    requires IndexOf(c, Run(c, Some(cap), ops, n - 1), key) >= 0 ==> !Crowded(c, cap, ops, n - 1, key)
    requires IndexOf(c, Run(c, Some(cap), ops, n), key) >= 0
    ensures !Crowded(c, cap, ops, n, key)
  {
    hide Run, After, Unique, Since;
    var m := Run(c, Some(cap), ops, n);
    var i := IndexOf(c, m, key);
    RunUnique(c, Some(cap), ops, n);
    RunUnique(c, Some(cap), ops, n - 1);
    RunIsRecent(c, cap, ops, n);
    SinceAlike(c, Some(cap), ops, n, m[i].key, key);
    BehindCount(c, m, i);
    RunStep(c, Some(cap), ops, n);
    if IndexOf(c, Run(c, Some(cap), ops, n - 1), key) < 0 {
      StepBrings(c, Some(cap), Run(c, Some(cap), ops, n - 1), ops[n - 1], key);
    }
  }

  /** A key comes in only when it is set. */
  lemma StepBrings<V>(c: Classes, cap: Option<nat>, m: seq<Pair<V>>, op: Op<V>, key: bytes)
    requires Unique(c, m) && IndexOf(c, m, key) < 0 && IndexOf(c, After(c, cap, m, op), key) >= 0
    ensures op.Put? && Alike(c, op.key, key)
  {
    hide AfterGet, AfterSet, AfterRemove, Unique;
    if op.Get? {
      GetLookup(c, cap, m, op.key, key);
    } else if op.Put? {
      SetLookup(c, cap, m, op.key, op.value, key);
    } else if op.Drop? {
      RemoveLookup(c, m, op.key, key);
    }
  }

  /** A key that is not removed goes only when it is the first and a set finds the table full. */
  lemma StepLoses<V>(c: Classes, cap: Option<nat>, m: seq<Pair<V>>, op: Op<V>, key: bytes)
    requires Unique(c, m) && !(op.Drop? && Alike(c, op.key, key)) && !op.Clear?
    requires IndexOf(c, m, key) >= 0 && IndexOf(c, After(c, cap, m, op), key) < 0
    ensures op.Put? && Full(cap, m) && IndexOf(c, m, op.key) < 0 && Alike(c, m[0].key, key) && !Alike(c, op.key, key)
  {
    hide AfterGet, AfterSet, AfterRemove, Unique;
    if op.Get? {
      GetLookup(c, cap, m, op.key, key);
    } else if op.Put? {
      SetLookup(c, cap, m, op.key, op.value, key);
    } else if op.Drop? {
      RemoveLookup(c, m, op.key, key);
    }
  }

  lemma StepSets<V>(c: Classes, cap: Option<nat>, m: seq<Pair<V>>, op: Op<V>, key: bytes)
    requires Unique(c, m) && IndexOf(c, After(c, cap, m, op), key) < 0
    ensures !(op.Put? && Alike(c, op.key, key))
  {
    hide AfterGet, AfterSet, Unique;
    if op.Put? {
      SetLookup(c, cap, m, op.key, op.value, key);
    }
  }

  /** A key that is evicted is the first, and all others are used since it was. */
  lemma EvictedSince<V>(c: Classes, cap: nat, ops: seq<Op<V>>, n: nat, key: bytes)
    requires 1 <= n <= |ops| && cap >= 1
    requires IndexOf(c, Run(c, Some(cap), ops, n - 1), key) >= 0
    requires IndexOf(c, Run(c, Some(cap), ops, n), key) < 0
    requires !ops[n - 1].Clear? && !(ops[n - 1].Drop? && Alike(c, ops[n - 1].key, key))
    ensures |Since(c, Some(cap), ops, n, key)| >= cap && !Alike(c, ops[n - 1].key, key)
  {
    hide Run, After, Unique;
    var m, op := Run(c, Some(cap), ops, n - 1), ops[n - 1];
    RunStep(c, Some(cap), ops, n);
    RunUnique(c, Some(cap), ops, n - 1);
    StepLoses(c, Some(cap), m, op, key);
    RunIsRecent(c, cap, ops, n - 1);
    SinceAlike(c, Some(cap), ops, n - 1, m[0].key, key);
    BehindCount(c, m, 0);
    assert c(op.key) !in Behind(c, m, 0);
    assert Since(c, Some(cap), ops, n, key) == Since(c, Some(cap), ops, n - 1, key) + {c(op.key)};
  }

  // ----- runs that evict nothing

  /** Nothing is removed, and no set finds the table full without its key. */
  ghost predicate Calm<V>(c: Classes, cap: Option<nat>, ops: seq<Op<V>>) {
    forall i :: 0 <= i < |ops| ==> !ops[i].Drop? && (ops[i].Put? ==> !Crowds(c, cap, Run(c, cap, ops, i), ops[i].key))
  }

  ghost predicate Crowds<V>(c: Classes, cap: Option<nat>, m: seq<Pair<V>>, key: bytes) {
    IndexOf(c, m, key) == -1 && Full(cap, m)
  }

  /** The keys of a run are all from a list. */
  ghost predicate Among<V>(c: Classes, ops: seq<Op<V>>, keys: seq<bytes>) {
    forall i :: 0 <= i < |ops| && ops[i].Put? ==> Listed(c, ops[i].key, keys)
  }

  ghost predicate Listed(c: Classes, key: bytes, keys: seq<bytes>) {
    exists k :: 0 <= k < |keys| && Alike(c, key, keys[k])
  }

  lemma {:induction false} RunAmong<V>(c: Classes, cap: Option<nat>, ops: seq<Op<V>>, n: nat, keys: seq<bytes>)
    requires n <= |ops| && Among(c, ops, keys)
    ensures forall i :: 0 <= i < |Run(c, cap, ops, n)| ==> Listed(c, Run(c, cap, ops, n)[i].key, keys)
  {
    if n > 0 {
      RunAmong(c, cap, ops, n - 1, keys);
    }
  }

  /** As long as a run sets no more keys than the cap, and removes none, nothing is evicted. */
  lemma FewAreCalm<V>(c: Classes, cap: nat, ops: seq<Op<V>>, keys: seq<bytes>)
    requires cap >= 1 && |keys| <= cap && Among(c, ops, keys) && forall i :: 0 <= i < |ops| ==> !ops[i].Drop?
    ensures Calm(c, Some(cap), ops)
  {
    forall i | 0 <= i < |ops| && ops[i].Put?
      ensures !Crowds(c, Some(cap), Run(c, Some(cap), ops, i), ops[i].key)
    {
      var m := Run(c, Some(cap), ops, i);
      if Crowds(c, Some(cap), m, ops[i].key) {
        RunUnique(c, Some(cap), ops, i);
        RunAmong(c, Some(cap), ops, i, keys);
        TooMany(c, m + [Pair(ops[i].key, ops[i].value)], keys);
      }
    }
  }

  /** Unique keys from a list are no more than the list has. */
  lemma TooMany<V>(c: Classes, m: seq<Pair<V>>, keys: seq<bytes>)
    requires Unique(c, m) && forall i :: 0 <= i < |m| ==> Listed(c, m[i].key, keys)
    ensures |m| <= |keys|
  {
    var some := seq(|m|, i requires 0 <= i < |m| => c(m[i].key));
    var all := seq(|keys|, k requires 0 <= k < |keys| => c(keys[k]));
    forall i, j | 0 <= i < j < |m|
      ensures some[i] != some[j]
    {
      assert !Alike(c, m[i].key, m[j].key);
    }
    DistinctCardinality(some);
    forall x | x in some
      ensures x in all
    {
      var i :| 0 <= i < |m| && some[i] == x;
      assert Listed(c, m[i].key, keys);
      var k :| 0 <= k < |keys| && Alike(c, m[i].key, keys[k]);
      assert all[k] == x;
    }
    var a, b := set x | x in some, set x | x in all;
    SubsetCardinality(a, b);
    MembersAtMost(all);
  }

  lemma {:induction false} MembersAtMost<T>(s: seq<T>)
    ensures |set x | x in s| <= |s|
  {
    if s == [] {
      assert (set x | x in s) == {};
    } else {
      var t := s[..|s| - 1];
      MembersAtMost(t);
      assert (set x | x in s) == (set x | x in t) + {s[|s| - 1]};
    }
  }
}
