/**
 * The intrusive doubly linked list of the table (the lws_queue macros). The nodes live inside the
 * slots; a link is a slot number, or SENTINEL for the head structure in the table itself.
 */
module Queue {
  import opened Wrappers
  import opened Primes

  const SENTINEL: int := -1

  datatype SlotState = Unused | Set | Deleted

  datatype Entry<+V> = Entry(state: SlotState, key: bytes, value: Option<V>, hash: nat, prev: int, next: int)

  /** A zeroed slot. */
  function Zeroed<V>(): Entry<V> {
    Entry(Unused, [], None, 0, SENTINEL, SENTINEL)
  }

  /** The slots with the two links of the sentinel. */
  datatype Chain<+V> = Chain(slots: seq<Entry<V>>, head: int, last: int) {

    predicate InRange(i: int) {
      SENTINEL <= i < |slots|
    }

    function Next(i: int): int
      requires InRange(i)
    {
      if i == SENTINEL then head else slots[i].next
    }

    function Prev(i: int): int
      requires InRange(i)
    {
      if i == SENTINEL then last else slots[i].prev
    }

    /** No link leads out of the table, not even one left behind in a deleted slot. */
    ghost predicate Bounded() {
      && InRange(head) && InRange(last)
      && forall i :: 0 <= i < |slots| ==> InRange(slots[i].prev) && InRange(slots[i].next)
    }

    /** The list is one cycle from the sentinel through `order` and back, in both directions. */
    ghost predicate Linked(order: seq<nat>) {
      && Bounded()
      && Distinct(order)
      && (forall k :: 0 <= k < |order| ==> order[k] < |slots|)
      && (forall k :: 0 <= k <= |order| ==> Joined(At(order, k - 1), At(order, k)))
    }

    ghost predicate Joined(i: int, j: int) {
      InRange(i) && InRange(j) && Next(i) == j && Prev(j) == i
    }
  }

  /** Position k of the cycle; both ends are the sentinel. */
  function At(order: seq<nat>, k: int): int {
    if 0 <= k < |order| then order[k] else SENTINEL
  }

  function SetNext<V>(c: Chain<V>, i: int, x: int): (c': Chain<V>)
    requires c.InRange(i)
    ensures SameCores(c.slots, c'.slots)
  {
    if i == SENTINEL then c.(head := x) else c.(slots := c.slots[i := c.slots[i].(next := x)])
  }

  function SetPrev<V>(c: Chain<V>, i: int, x: int): (c': Chain<V>)
    requires c.InRange(i)
    ensures SameCores(c.slots, c'.slots)
  {
    if i == SENTINEL then c.(last := x) else c.(slots := c.slots[i := c.slots[i].(prev := x)])
  }

  /** Two slots agree in everything but their links. */
  predicate SameCore<V(==)>(a: Entry<V>, b: Entry<V>) {
    a.state == b.state && a.key == b.key && a.value == b.value && a.hash == b.hash
  }

  ghost predicate SameCores<V>(a: seq<Entry<V>>, b: seq<Entry<V>>) {
    |a| == |b| && forall i :: 0 <= i < |a| ==> SameCore(a[i], b[i])
  }

  /** lws_queue_remove. */
  function Remove<V>(c: Chain<V>, x: nat): (c': Chain<V>)
    requires c.Bounded() && x < |c.slots|
    ensures SameCores(c.slots, c'.slots) && c'.Bounded()
  {
    var c1 := SetPrev(c, c.slots[x].next, c.slots[x].prev);
    SetNext(c1, c1.slots[x].prev, c1.slots[x].next)
  }

  /** lws_queue_insert_tail on the table's list. */
  function InsertTail<V>(c: Chain<V>, x: nat): (c': Chain<V>)
    requires c.Bounded() && x < |c.slots|
    ensures SameCores(c.slots, c'.slots) && c'.Bounded()
  {
    var c1 := SetPrev(c, x, c.last);
    var c2 := SetNext(c1, c1.slots[x].prev, x);
    var c3 := SetNext(c2, x, SENTINEL);
    c3.(last := x)
  }

  /** lws_queue_insert_head on the table's list. */
  function InsertHead<V>(c: Chain<V>, x: nat): (c': Chain<V>)
    requires c.Bounded() && x < |c.slots|
    ensures SameCores(c.slots, c'.slots) && c'.Bounded()
  {
    var c1 := SetNext(c, x, c.head);
    var c2 := SetPrev(c1, c1.slots[x].next, x);
    var c3 := SetPrev(c2, x, SENTINEL);
    c3.(head := x)
  }

  /** The relocation step of lws_table_insert: copy a slot and point its neighbours at the copy. */
  function MoveSlot<V>(c: Chain<V>, from: nat, to: nat): (c': Chain<V>)
    requires c.Bounded() && from < |c.slots| && to < |c.slots|
    ensures SameCores(c.slots[to := c.slots[from]], c'.slots) && c'.Bounded()
  {
    var c1 := c.(slots := c.slots[to := c.slots[from]]);
    var c2 := SetNext(c1, c1.slots[to].prev, to);
    SetPrev(c2, c2.slots[to].next, to)
  }

  function Without(order: seq<nat>, k: nat): (r: seq<nat>)
    requires k < |order|
    ensures |r| == |order| - 1
  {
    order[..k] + order[k + 1..]
  }
}
