/** What the queue macros do to the list of the table. */
module QueueLaws {
  import opened Wrappers
  import opened Primes
  import opened Queue

  /** What the macros change, link by link. */
  lemma RemoveEffect<V>(c: Chain<V>, x: nat)
    requires c.Bounded() && x < |c.slots| && c.slots[x].next != x && c.slots[x].prev != x
    ensures var c', p, n := Remove(c, x), c.slots[x].prev, c.slots[x].next;
      && (forall i :: c.InRange(i) ==> c'.Next(i) == if i == p then n else c.Next(i))
      && (forall i :: c.InRange(i) ==> c'.Prev(i) == if i == n then p else c.Prev(i))
  {
  }

  lemma InsertTailEffect<V>(c: Chain<V>, x: nat)
    requires c.Bounded() && x < |c.slots| && c.last != x
    ensures var c' := InsertTail(c, x);
      && (forall i :: c.InRange(i) ==> c'.Prev(i) == if i == SENTINEL then x else if i == x then c.last else c.Prev(i))
      && (forall i :: c.InRange(i) ==> c'.Next(i) == if i == c.last then x else if i == x then SENTINEL else c.Next(i))
  {
  }

  lemma InsertHeadEffect<V>(c: Chain<V>, x: nat)
    requires c.Bounded() && x < |c.slots| && c.head != x
    ensures var c' := InsertHead(c, x);
      && (forall i :: c.InRange(i) ==> c'.Next(i) == if i == SENTINEL then x else if i == x then c.head else c.Next(i))
      && (forall i :: c.InRange(i) ==> c'.Prev(i) == if i == c.head then x else if i == x then SENTINEL else c.Prev(i))
  {
  }

  lemma MoveSlotNext<V>(c: Chain<V>, from: nat, to: nat)
    requires c.Bounded() && from < |c.slots| && to < |c.slots| && from != to
    requires c.slots[from].prev != to && c.slots[from].next != to
    ensures var c', p, n := MoveSlot(c, from, to), c.slots[from].prev, c.slots[from].next;
      forall i :: c.InRange(i) ==> c'.Next(i) == if i == to then n else if i == p then to else c.Next(i)
  {
  }

  lemma MoveSlotPrev<V>(c: Chain<V>, from: nat, to: nat)
    requires c.Bounded() && from < |c.slots| && to < |c.slots| && from != to
    requires c.slots[from].prev != to && c.slots[from].next != to
    ensures var c', p, n := MoveSlot(c, from, to), c.slots[from].prev, c.slots[from].next;
      forall i :: c.InRange(i) ==> c'.Prev(i) == if i == to then p else if i == n then to else c.Prev(i)
  {
  }

  /** Positions of the cycle are told apart by their slots, but for the two ends. */
  lemma AtInjective(order: seq<nat>, i: int, j: int)
    requires Distinct(order) && -1 <= i <= |order| && -1 <= j <= |order|
    requires At(order, i) == At(order, j)
    ensures i == j || (i == -1 && j == |order|) || (j == -1 && i == |order|)
  {
  }

  lemma WithoutAt(order: seq<nat>, k: nat, j: int)
    requires k < |order| && -1 <= j < |order|
    ensures At(Without(order, k), j) == At(order, if j < k then j else j + 1)
  {
  }

  /** The links between `before` and `after` join them to each other; all others are as they were. */
  ghost predicate Unhooked<V>(c: Chain<V>, c': Chain<V>, before: int, after: int) {
    && |c'.slots| == |c.slots|
    && (forall i :: c.InRange(i) ==> c'.Next(i) == if i == before then after else c.Next(i))
    && (forall i :: c.InRange(i) ==> c'.Prev(i) == if i == after then before else c.Prev(i))
  }

  /** `to` has come between `before` and `after`. */
  ghost predicate Rehooked<V>(c: Chain<V>, c': Chain<V>, before: int, to: int, after: int) {
    && |c'.slots| == |c.slots|
    && (forall i :: c.InRange(i) ==> c'.Next(i) == if i == to then after else if i == before then to else c.Next(i))
    && (forall i :: c.InRange(i) ==> c'.Prev(i) == if i == to then before else if i == after then to else c.Prev(i))
  }

  lemma UnlinkedJoin<V>(c: Chain<V>, c': Chain<V>, order: seq<nat>, k: nat, j: nat)
    requires c.Linked(order) && k < |order| && c'.Bounded() && j < |order|
    requires Unhooked(c, c', At(order, k - 1), At(order, k + 1))
    ensures c'.Joined(At(Without(order, k), j - 1), At(Without(order, k), j))
  {
    WithoutAt(order, k, j - 1);
    WithoutAt(order, k, j);
    assert c.Joined(At(order, j - 1), At(order, j));
    assert c.Joined(At(order, j + 1 - 1), At(order, j + 1));
    if j < k && At(order, j - 1) == At(order, k - 1) {
      AtInjective(order, j - 1, k - 1);
    }
    if j < k && At(order, j) == At(order, k + 1) {
      AtInjective(order, j, k + 1);
    }
    if j > k && At(order, j) == At(order, k - 1) {
      AtInjective(order, j, k - 1);
    }
    if j > k && At(order, j + 1) == At(order, k + 1) {
      AtInjective(order, j + 1, k + 1);
    }
  }

  lemma UnlinkedBy<V>(c: Chain<V>, c': Chain<V>, order: seq<nat>, k: nat)
    requires c.Linked(order) && k < |order| && c'.Bounded()
    requires Unhooked(c, c', At(order, k - 1), At(order, k + 1))
    ensures c'.Linked(Without(order, k))
  {
    var o' := Without(order, k);
    forall j | 0 <= j <= |o'|
      ensures c'.Joined(At(o', j - 1), At(o', j))
    {
      UnlinkedJoin(c, c', order, k, j);
    }
  }

  lemma RemoveUnlinks<V>(c: Chain<V>, order: seq<nat>, k: nat)
    requires c.Linked(order) && k < |order|
    ensures Remove(c, order[k]).Linked(Without(order, k))
  {
    assert c.Joined(At(order, k - 1), At(order, k));
    assert c.Joined(At(order, k + 1 - 1), At(order, k + 1));
    RemoveEffect(c, order[k]);
    UnlinkedBy(c, Remove(c, order[k]), order, k);
  }

  lemma InsertTailLinks<V>(c: Chain<V>, order: seq<nat>, x: nat)
    requires c.Linked(order) && x < |c.slots| && x !in order
    ensures InsertTail(c, x).Linked(order + [x])
  {
    var c', o', n := InsertTail(c, x), order + [x], |order|;
    assert c.Joined(At(order, n - 1), At(order, n));
    InsertTailEffect(c, x);
    forall j | 0 <= j <= |o'|
      ensures c'.Joined(At(o', j - 1), At(o', j))
    {
      if j <= n {
        assert c.Joined(At(order, j - 1), At(order, j));
        if j < n && At(order, j - 1) == At(order, n - 1) {
          AtInjective(order, j - 1, n - 1);
        }
      }
    }
  }

  lemma InsertHeadLinks<V>(c: Chain<V>, order: seq<nat>, x: nat)
    requires c.Linked(order) && x < |c.slots| && x !in order
    ensures InsertHead(c, x).Linked([x] + order)
  {
    var c', o' := InsertHead(c, x), [x] + order;
    assert c.Joined(At(order, 0 - 1), At(order, 0));
    InsertHeadEffect(c, x);
    forall j | 0 <= j <= |o'|
      ensures c'.Joined(At(o', j - 1), At(o', j))
    {
      if j > 0 {
        assert At(o', j) == At(order, j - 1);
        assert c.Joined(At(order, j - 1 - 1), At(order, j - 1));
        if j > 1 && At(order, j - 1) == At(order, 0) {
          AtInjective(order, j - 1, 0);
        }
      }
    }
  }

  lemma MovedJoin<V>(c: Chain<V>, c': Chain<V>, order: seq<nat>, k: nat, to: nat, j: nat)
    requires c.Linked(order) && k < |order| && to < |c.slots| && to !in order
    requires j <= |order| && Rehooked(c, c', At(order, k - 1), to, At(order, k + 1))
    ensures c'.Joined(At(order[k := to], j - 1), At(order[k := to], j))
  {
    assert c.Joined(At(order, j - 1), At(order, j));
    assert c.Joined(At(order, k + 1 - 1), At(order, k + 1));
    assert c.Joined(At(order, k - 1), At(order, k));
    if j != k && At(order, j - 1) == At(order, k - 1) {
      AtInjective(order, j - 1, k - 1);
    }
    if j != k + 1 && At(order, j) == At(order, k + 1) {
      AtInjective(order, j, k + 1);
    }
  }

  lemma MoveSlotRelinks<V>(c: Chain<V>, order: seq<nat>, k: nat, to: nat)
    requires c.Linked(order) && k < |order| && to < |c.slots| && to !in order
    ensures MoveSlot(c, order[k], to).Linked(order[k := to])
  {
    var c', o' := MoveSlot(c, order[k], to), order[k := to];
    assert c.Joined(At(order, k - 1), At(order, k));
    assert c.Joined(At(order, k + 1 - 1), At(order, k + 1));
    MoveSlotNext(c, order[k], to);
    MoveSlotPrev(c, order[k], to);
    forall j | 0 <= j <= |o'|
      ensures c'.Joined(At(o', j - 1), At(o', j))
    {
      MovedJoin(c, c', order, k, to, j);
    }
  }

  function Stored<V>(c: Chain<V>, x: nat, e: Entry<V>): Chain<V>
    requires x < |c.slots|
  {
    c.(slots := c.slots[x := e])
  }

  /** The list does not notice a change to a slot that is not on it. */
  lemma LinkedApart<V>(c: Chain<V>, order: seq<nat>, x: nat, e: Entry<V>)
    requires c.Linked(order) && x < |c.slots| && x !in order && c.InRange(e.prev) && c.InRange(e.next)
    ensures Stored(c, x, e).Linked(order)
  {
    forall k | 0 <= k <= |order|
      ensures Stored(c, x, e).Joined(At(order, k - 1), At(order, k))
    {
      assert c.Joined(At(order, k - 1), At(order, k));
    }
  }

  ghost predicate SameLinks<V>(c: Chain<V>, c': Chain<V>) {
    && |c'.slots| == |c.slots| && c'.head == c.head && c'.last == c.last
    && forall i :: 0 <= i < |c.slots| ==> c'.slots[i].prev == c.slots[i].prev && c'.slots[i].next == c.slots[i].next
  }

  /** Nor a change to anything but links. */
  lemma LinkedSameLinks<V>(c: Chain<V>, order: seq<nat>, c': Chain<V>)
    requires c.Linked(order) && SameLinks(c, c')
    ensures c'.Linked(order)
  {
    forall k | 0 <= k <= |order|
      ensures c'.Joined(At(order, k - 1), At(order, k))
    {
      assert c.Joined(At(order, k - 1), At(order, k));
    }
  }
}
