/** The listed table sizes, the search for the next one, and the load limit. */
module Sizes {
  import opened Wrappers

  const SIZES_N: nat := 112

  function Row0(i: nat): nat {
    if i == 0 then 3 else if i == 1 then 5 else if i == 2 then 7 else if i == 3 then 11 else
    if i == 4 then 13 else if i == 5 then 17 else if i == 6 then 23 else 29
  }

  function Row1(i: nat): nat {
    if i == 0 then 41 else if i == 1 then 53 else if i == 2 then 67 else if i == 3 then 89 else
    if i == 4 then 127 else if i == 5 then 157 else if i == 6 then 211 else 277
  }

  function Row2(i: nat): nat {
    if i == 0 then 373 else if i == 1 then 499 else if i == 2 then 659 else if i == 3 then 877 else
    if i == 4 then 1171 else if i == 5 then 1553 else if i == 6 then 2081 else 2767
  }

  function Row3(i: nat): nat {
    if i == 0 then 3691 else if i == 1 then 4909 else if i == 2 then 6547 else if i == 3 then 8731 else
    if i == 4 then 11633 else if i == 5 then 15511 else if i == 6 then 20681 else 27581
  }

  function Row4(i: nat): nat {
    if i == 0 then 36749 else if i == 1 then 49003 else if i == 2 then 65353 else
    if i == 3 then 87107 else if i == 4 then 116141 else if i == 5 then 154871 else
    if i == 6 then 206477 else 275299
  }

  function Row5(i: nat): nat {
    if i == 0 then 367069 else if i == 1 then 489427 else if i == 2 then 652559 else
    if i == 3 then 870083 else if i == 4 then 1160111 else if i == 5 then 1546799 else
    if i == 6 then 2062391 else 2749847
  }

  function Row6(i: nat): nat {
    if i == 0 then 3666461 else if i == 1 then 4888619 else if i == 2 then 6518173 else
    if i == 3 then 8690917 else if i == 4 then 11587841 else if i == 5 then 15450437 else
    if i == 6 then 20600597 else 27467443
  }

  function Row7(i: nat): nat {
    if i == 0 then 36623261 else if i == 1 then 48831017 else if i == 2 then 65107997 else
    if i == 3 then 86810681 else if i == 4 then 115747549 else if i == 5 then 154330079 else
    if i == 6 then 205773427 else 274364561
  }

  function Row8(i: nat): nat {
    if i == 0 then 365819417 else if i == 1 then 487759219 else if i == 2 then 650345651 else
    if i == 3 then 867127501 else if i == 4 then 1156170011 else if i == 5 then 1541560037 else
    if i == 6 then 2055413317 else 2740551103
  }

  function Row9(i: nat): nat {
    if i == 0 then 3654068141 else if i == 1 then 4872090871 else if i == 2 then 6496121063 else
    if i == 3 then 8661494753 else if i == 4 then 11548659701 else if i == 5 then 15398212901 else
    if i == 6 then 20530950533 else 27374600677
  }

  function Row10(i: nat): nat {
    if i == 0 then 36499467569 else if i == 1 then 48665956771 else if i == 2 then 64887942367 else
    if i == 3 then 86517256433 else if i == 4 then 115356341911 else if i == 5 then 153808455923 else
    if i == 6 then 205077941191 else 273437254897
  }

  function Row11(i: nat): nat {
    if i == 0 then 364583006561 else if i == 1 then 486110675443 else if i == 2 then 648147567293 else
    if i == 3 then 864196756231 else if i == 4 then 1152262341641 else if i == 5 then 1536349788871 else
    if i == 6 then 2048466385123 else 2731288513529
  }

  function Row12(i: nat): nat {
    if i == 0 then 3641718017983 else if i == 1 then 4855624023953 else
    if i == 2 then 6474165365293 else if i == 3 then 8632220487029 else
    if i == 4 then 11509627316059 else if i == 5 then 15346169754719 else
    if i == 6 then 20461559672951 else 27282079563967
  }

  function Row13(i: nat): nat {
    if i == 0 then 36376106085223 else if i == 1 then 48501474780299 else
    if i == 2 then 64668633040457 else if i == 3 then 86224844053847 else
    if i == 4 then 114966458738489 else if i == 5 then 153288611651291 else
    if i == 6 then 204384815535079 else 272513087380099
  }

  /** Entry i of the table of sizes. */
  function SizeAt(i: nat): (n: nat)
    requires i < SIZES_N
  {
    if i < 8 then Row0(i - 0) else
    if i < 16 then Row1(i - 8) else
    if i < 24 then Row2(i - 16) else
    if i < 32 then Row3(i - 24) else
    if i < 40 then Row4(i - 32) else
    if i < 48 then Row5(i - 40) else
    if i < 56 then Row6(i - 48) else
    if i < 64 then Row7(i - 56) else
    if i < 72 then Row8(i - 64) else
    if i < 80 then Row9(i - 72) else
    if i < 88 then Row10(i - 80) else
    if i < 96 then Row11(i - 88) else
    if i < 104 then Row12(i - 96) else
    Row13(i - 104)
  }

  ghost predicate Listed(n: nat) {
    exists i :: 0 <= i < SIZES_N && SizeAt(i) == n
  }

  /** The last entry of the table of sizes. */
  const LARGEST: nat := 272513087380099

  lemma SizesGrow(i: nat)
    requires i + 1 < SIZES_N
    ensures SizeAt(i) + 2 <= SizeAt(i + 1)
  {
  }

  lemma {:induction false} SizesSorted(i: nat, j: nat)
    requires i < j < SIZES_N
    ensures SizeAt(i) + 2 <= SizeAt(j)
  {
    SizesGrow(j - 1);
    if i < j - 1 {
      SizesSorted(i, j - 1);
    }
  }

  lemma LargestIsLast()
    ensures SizeAt(SIZES_N - 1) == LARGEST
  {
  }

  lemma ListedRange(n: nat)
    requires Listed(n)
    ensures 3 <= n <= LARGEST
  {
    var i :| 0 <= i < SIZES_N && SizeAt(i) == n;
    if 0 < i {
      SizesSorted(0, i);
    }
    if i < SIZES_N - 1 {
      SizesSorted(i, SIZES_N - 1);
    }
    LargestIsLast();
  }

  /** r is the least listed size not below `size`, or None when every listed size is below it. */
  ghost predicate IsNextSize(size: nat, r: Option<nat>) {
    match r
    case Some(n) => Listed(n) && size <= n && forall i :: 0 <= i < SIZES_N && SizeAt(i) >= size ==> SizeAt(i) >= n
    case None => forall i :: 0 <= i < SIZES_N ==> SizeAt(i) < size
  }

  /** Binary search for the next listed size; None is the source's (size_t)-1. */
  method TableSize(size: nat) returns (r: Option<nat>)
    ensures IsNextSize(size, r)
  {
    var lower, upper := 0, SIZES_N as int - 1;
    while lower <= upper
      invariant 0 <= lower <= upper + 1 <= SIZES_N
      invariant forall i :: 0 <= i < lower ==> SizeAt(i) < size
      invariant forall i :: upper < i < SIZES_N ==> SizeAt(i) >= size
    {
      var mid := (lower + upper) / 2;
      if SizeAt(mid) < size {
        SortedUpTo(mid);
        lower := mid + 1;
      } else {
        SortedFrom(mid);
        upper := mid - 1;
      }
    }
    if lower >= SIZES_N {
      return None;
    }
    SortedFrom(lower);
    return Some(SizeAt(lower));
  }

  lemma SortedUpTo(j: nat)
    requires j < SIZES_N
    ensures forall i :: 0 <= i <= j ==> SizeAt(i) <= SizeAt(j)
  {
    forall i | 0 <= i < j
      ensures SizeAt(i) <= SizeAt(j)
    {
      SizesSorted(i, j);
    }
  }

  lemma SortedFrom(i: nat)
    requires i < SIZES_N
    ensures forall j :: i <= j < SIZES_N ==> SizeAt(i) <= SizeAt(j)
  {
    forall j | i < j < SIZES_N
      ensures SizeAt(i) <= SizeAt(j)
    {
      SizesSorted(i, j);
    }
  }

  /** The number of entries at which a table of `alloc` slots is rehashed: three floored shifts. */
  function Load(alloc: nat): (load: nat)
    ensures alloc >= 3 ==> 1 <= load < alloc
  {
    alloc / 2 + alloc / 4 + alloc / 8
  }

  /** Which is seven eighths of the slots, less what the shifts drop. */
  lemma LoadIsSevenEighths(alloc: nat)
    ensures 7 * alloc - 17 <= 8 * Load(alloc) <= 7 * alloc
  {
    assert alloc == 2 * (alloc / 2) + alloc % 2;
    assert alloc == 4 * (alloc / 4) + alloc % 4;
    assert alloc == 8 * (alloc / 8) + alloc % 8;
  }

  /** The number of slots asked for by lws_table_create. */
  function CreateRequest(load: nat): nat {
    load + (if load < LARGEST then load / 7 + 3 else 0)
  }

  /**
   * When lws_table_create finds a size, and when the comment "t->load >= load" beside it is right:
   * a load of exactly the largest listed size is granted a table whose load limit falls short.
   */
  lemma CreateMeetsLoad(load: nat, r: Option<nat>)
    requires IsNextSize(CreateRequest(load), r)
    ensures r.Some? <==> load == LARGEST || load + load / 7 + 3 <= LARGEST
    ensures r.Some? ==> (Load(r.value) >= load <==> load < LARGEST)
    ensures load < LARGEST ==> IsNextSize(load + load / 7 + 3, r)
  {
    SortedUpTo(SIZES_N - 1);
    LargestIsLast();
    if r.Some? {
      ListedRange(r.value);
    }
  }

  lemma ListedGap(a: nat, b: nat)
    requires Listed(a) && Listed(b) && a < b
    ensures a + 2 <= b
  {
    var i :| 0 <= i < SIZES_N && SizeAt(i) == a;
    var j :| 0 <= j < SIZES_N && SizeAt(j) == b;
    if j < i {
      SizesSorted(j, i);
    } else if i < j {
      SizesSorted(i, j);
    }
  }

  /** A later listed size has room for at least one more entry than an earlier one. */
  lemma LoadGrows(a: nat, b: nat)
    requires Listed(a) && Listed(b) && a < b
    ensures Load(a) < Load(b)
  {
    ListedGap(a, b);
    assert b / 2 >= a / 2 + 1;
  }
}
