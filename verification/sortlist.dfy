/** The sortable list behind OpenTTD's GUI lists: a flag set driving when the
    list is resorted, a countdown timer, an in-place reversal and a gnome sort
    that skips back over the already sorted prefix. */
module SortList {
  import opened Ints

  const VL_DESC: bv8 := 1
  const VL_RESORT: bv8 := 2
  const VL_REBUILD: bv8 := 4
  const VL_FIRST_SORT: bv8 := 8

  /** Ticks per day; the list is resorted every ten days. */
  const DAY_TICKS: nat := 74
  const RESORT_INTERVAL: uint16 := 740

  predicate HasFlag(flags: bv8, bit: bv8) {
    flags & bit != 0
  }

  /** The exported sort conditions: descending or not, and the criterion. */
  datatype Listing = Listing(order: bool, criteria: uint8)

  // ---------------------------------------------------------------------------
  // Comparators and orderings
  // ---------------------------------------------------------------------------

  /** What the sort relies on: `cmp(x, y)` is negative exactly when `cmp(y, x)`
      is positive. Every comparator of a total preorder has this. */
  ghost predicate Antisymmetric<T(!new)>(cmp: (T, T) -> int) {
    forall x, y :: cmp(x, y) < 0 <==> cmp(y, x) > 0
  }

  /** `x` may stand before `y`: compare <= 0, or >= 0 for a descending list. */
  predicate InOrder<T>(cmp: (T, T) -> int, desc: bool, x: T, y: T) {
    if desc then cmp(x, y) >= 0 else cmp(x, y) <= 0
  }

  ghost predicate AdjacentInOrder<T>(cmp: (T, T) -> int, desc: bool, s: seq<T>) {
    forall i :: 0 <= i < |s| - 1 ==> InOrder(cmp, desc, s[i], s[i + 1])
  }

  /** A pair out of order is in order once swapped. */
  lemma SwapFixesPair<T(!new)>(cmp: (T, T) -> int, desc: bool, x: T, y: T)
    requires Antisymmetric(cmp) && !InOrder(cmp, desc, x, y)
    ensures InOrder(cmp, desc, y, x)
  {
    if desc {
      assert cmp(x, y) < 0;
    } else {
      assert cmp(x, y) > 0;
    }
  }

  // ---------------------------------------------------------------------------
  // Reversal
  // ---------------------------------------------------------------------------

  function Reversed<T>(s: seq<T>): (r: seq<T>)
    ensures |r| == |s|
    ensures forall i :: 0 <= i < |s| ==> r[i] == s[|s| - 1 - i]
  {
    if s == [] then [] else Reversed(s[1..]) + [s[0]]
  }

  /** A list of fewer than two items is its own reversal, so skipping the
      reversal of a list that is not sortable loses nothing. */
  lemma ShortListIsItsOwnReversal<T>(s: seq<T>)
    requires |s| < 2
    ensures Reversed(s) == s
  {
  }

  /** Reversing twice gives the list back. */
  lemma ReversedTwice<T>(s: seq<T>)
    ensures Reversed(Reversed(s)) == s
  {
    assert forall i :: 0 <= i < |s| ==> Reversed(Reversed(s))[i] == s[i];
  }

  /** Reversing keeps the items. */
  lemma {:induction false} ReversedPermutes<T>(s: seq<T>)
    ensures multiset(Reversed(s)) == multiset(s)
  {
    if s != [] {
      ReversedPermutes(s[1..]);
      assert s == [s[0]] + s[1..];
    }
  }

  /** An ascending list read backwards is a descending one. */
  lemma ReversedFlipsOrder<T(!new)>(cmp: (T, T) -> int, s: seq<T>)
    requires Antisymmetric(cmp) && AdjacentInOrder(cmp, false, s)
    ensures AdjacentInOrder(cmp, true, Reversed(s))
  {
    var r := Reversed(s);
    forall i | 0 <= i < |r| - 1 ensures InOrder(cmp, true, r[i], r[i + 1]) {
      var j := |s| - 2 - i;
      assert r[i] == s[j + 1] && r[i + 1] == s[j];
      assert InOrder(cmp, false, s[j], s[j + 1]);
    }
  }

  // ---------------------------------------------------------------------------
  // The first sort: qsort, specified by its result
  // ---------------------------------------------------------------------------

  function InsertOrdered<T>(cmp: (T, T) -> int, x: T, s: seq<T>): seq<T> {
    if s == [] then [x]
    else if cmp(x, s[0]) <= 0 then [x] + s
    else [s[0]] + InsertOrdered(cmp, x, s[1..])
  }

  /** The ascending order qsort produces, as an insertion sort. */
  function SortedBy<T>(cmp: (T, T) -> int, s: seq<T>): seq<T> {
    if s == [] then [] else InsertOrdered(cmp, s[0], SortedBy(cmp, s[1..]))
  }

  lemma {:induction false} InsertOrderedFacts<T(!new)>(cmp: (T, T) -> int, x: T, s: seq<T>)
    requires Antisymmetric(cmp) && AdjacentInOrder(cmp, false, s)
    ensures var r := InsertOrdered(cmp, x, s);
      multiset(r) == multiset(s) + multiset{x} &&
      AdjacentInOrder(cmp, false, r) &&
      r[0] == (if s == [] || cmp(x, s[0]) <= 0 then x else s[0])
  {
    if s != [] && cmp(x, s[0]) > 0 {
      var t := s[1..];
      assert s == [s[0]] + t;
      assert AdjacentInOrder(cmp, false, t);
      InsertOrderedFacts(cmp, x, t);
      var rest := InsertOrdered(cmp, x, t);
      assert cmp(s[0], x) < 0;
      assert t != [] ==> InOrder(cmp, false, s[0], t[0]);
      assert InOrder(cmp, false, s[0], rest[0]);
      var r := [s[0]] + rest;
      forall i | 0 <= i < |r| - 1 ensures InOrder(cmp, false, r[i], r[i + 1]) {
        if i > 0 {
          assert r[i] == rest[i - 1] && r[i + 1] == rest[i];
        }
      }
    }
  }

  /** The stand-in for qsort yields an ascending permutation of its input. */
  lemma {:induction false} SortedByFacts<T(!new)>(cmp: (T, T) -> int, s: seq<T>)
    requires Antisymmetric(cmp)
    ensures multiset(SortedBy(cmp, s)) == multiset(s)
    ensures AdjacentInOrder(cmp, false, SortedBy(cmp, s))
  {
    if s != [] {
      SortedByFacts(cmp, s[1..]);
      InsertOrderedFacts(cmp, s[0], SortedBy(cmp, s[1..]));
      assert s == [s[0]] + s[1..];
    }
  }

  // ---------------------------------------------------------------------------
  // The resort countdown
  // ---------------------------------------------------------------------------

  /** The timer after one NeedResort call: `--resort_timer` in uint16, reset to
      ten days when it reaches 0. */
  function CountDown(t: uint16): (r: uint16)
    ensures r != 0
  {
    if t == 1 then RESORT_INTERVAL else (t - 1) % 0x1_0000
  }

  /** The timer after `k` calls. */
  function TimerAfter(t: uint16, k: nat): uint16 {
    if k == 0 then t else CountDown(TimerAfter(t, k - 1))
  }

  /** From a timer `t > 0`, the first `t - 1` calls only count down and the
      `t`-th call is the one that fires and resets the timer. */
  lemma {:induction false} ResortAfterTimerCalls(t: uint16, k: nat)
    requires 1 <= t && k < t
    ensures TimerAfter(t, k) == t - k
    ensures TimerAfter(t, k + 1) == if k + 1 == t then RESORT_INTERVAL else t - k - 1
  {
    if k > 0 {
      ResortAfterTimerCalls(t, k - 1);
    }
  }

  // ---------------------------------------------------------------------------
  // The gnome sort's loop invariant
  // ---------------------------------------------------------------------------

  /** The state of the gnome sort over `s`: the pairs up to `a + offset` are in
      order except the pair at `a`, which holds the item being walked back;
      while walking back, the items around it are in order with each other. */
  ghost predicate GnomeInv<T>(cmp: (T, T) -> int, desc: bool, s: seq<T>, a: int, offset: int, length: int) {
    0 <= a && 0 <= offset && a + offset + length == |s| && length >= 1 &&
    (offset > 0 ==> length >= 2) &&
    (forall k :: 0 <= k <= a + offset && k != a && k + 1 < |s| ==> InOrder(cmp, desc, s[k], s[k + 1])) &&
    (offset > 0 ==> InOrder(cmp, desc, s[a], s[a + 2]))
  }

  /** Jumping back to the switch point lands on a pair in order. */
  lemma GnomeJump<T>(cmp: (T, T) -> int, desc: bool, s: seq<T>, a: int, offset: int, length: int)
    requires GnomeInv(cmp, desc, s, a, offset, length) && offset > 0
    requires InOrder(cmp, desc, s[a], s[a + 1])
    ensures GnomeInv(cmp, desc, s, a + offset, 0, length)
    ensures InOrder(cmp, desc, s[a + offset], s[a + offset + 1])
  {
  }

  /** A pair in order at the front extends the sorted prefix. */
  lemma GnomeAdvance<T>(cmp: (T, T) -> int, desc: bool, s: seq<T>, a: int, length: int)
    requires GnomeInv(cmp, desc, s, a, 0, length) && length > 1
    requires InOrder(cmp, desc, s[a], s[a + 1])
    ensures GnomeInv(cmp, desc, s, a + 1, 0, length - 1)
  {
  }

  /** Swapping an out-of-order pair puts it in order and keeps the invariant,
      one place further back unless already at the start. */
  lemma GnomeSwap<T(!new)>(cmp: (T, T) -> int, desc: bool, s: seq<T>, a: int, offset: int, length: int)
    requires Antisymmetric(cmp) && GnomeInv(cmp, desc, s, a, offset, length) && length > 1
    requires !InOrder(cmp, desc, s[a], s[a + 1])
    ensures var t := s[a := s[a + 1]][a + 1 := s[a]];
      InOrder(cmp, desc, t[a], t[a + 1]) &&
      (a > 0 ==> GnomeInv(cmp, desc, t, a - 1, offset + 1, length)) &&
      (a == 0 ==> GnomeInv(cmp, desc, t, a, offset, length))
  {
    var t := s[a := s[a + 1]][a + 1 := s[a]];
    SwapFixesPair(cmp, desc, s[a], s[a + 1]);
    if a > 0 {
      forall k | 0 <= k <= a + offset && k != a - 1 && k + 1 < |t|
        ensures InOrder(cmp, desc, t[k], t[k + 1])
      {
        if k == a + 1 {
          assert t[k] == s[a] && t[k + 1] == s[a + 2];
        } else if k < a - 1 || k > a + 1 {
          assert t[k] == s[k] && t[k + 1] == s[k + 1];
        }
      }
      assert InOrder(cmp, desc, s[a - 1], s[a]);
    } else {
      forall k | 0 <= k <= a + offset && k != a && k + 1 < |t|
        ensures InOrder(cmp, desc, t[k], t[k + 1])
      {
        if k == a + 1 {
          assert t[k] == s[a] && t[k + 1] == s[a + 2];
        } else {
          assert t[k] == s[k] && t[k + 1] == s[k + 1];
        }
      }
      if offset > 0 {
        assert InOrder(cmp, desc, s[a + 1], s[a + 2]);
      }
    }
  }

  /** Swapping two items keeps the same items. */
  lemma SwapPermutes<T>(s: seq<T>, i: nat, j: nat)
    requires i < |s| && j < |s|
    ensures multiset(s[i := s[j]][j := s[i]]) == multiset(s)
  {
  }

  /** When the remaining length is 1 every adjacent pair is in order. */
  lemma GnomeDone<T>(cmp: (T, T) -> int, desc: bool, s: seq<T>, a: int, offset: int, length: int)
    requires GnomeInv(cmp, desc, s, a, offset, length) && length <= 1
    ensures AdjacentInOrder(cmp, desc, s)
  {
  }

  // ---------------------------------------------------------------------------
  // The list
  // ---------------------------------------------------------------------------

  class GUIList<T(!new)> {
    var data: array<T>
    var flags: bv8
    var sortType: uint8
    var resortTimer: uint16

    constructor (items: array<T>)
      ensures data == items && flags == VL_FIRST_SORT && sortType == 0 && resortTimer == 1
    {
      data := items;
      flags := VL_FIRST_SORT;
      sortType := 0;
      resortTimer := 1;
    }

    /** At least two items: reversal and sorting have something to do (see
        ShortListIsItsOwnReversal). */
    predicate IsSortable()
      reads this
    {
      data.Length >= 2
    }

    function SortType(): uint8
      reads this
    {
      sortType
    }

    function IsDescSortOrder(): bool
      reads this
    {
      HasFlag(flags, VL_DESC)
    }

    function NeedRebuild(): bool
      reads this
    {
      HasFlag(flags, VL_REBUILD)
    }

    /** The listing as stored in the flags and the sort type; the specification
        SetListing is proved against. */
    function GetListing(): (l: Listing)
      reads this
      ensures l.order <==> IsDescSortOrder()
      ensures l.criteria == SortType()
    {
      Listing(HasFlag(flags, VL_DESC), sortType)
    }

    method ResetResortTimer()
      modifies this
      ensures resortTimer == RESORT_INTERVAL
      ensures data == old(data) && flags == old(flags) && sortType == old(sortType)
    {
      resortTimer := RESORT_INTERVAL;
    }

    /** Reverses the items in place: item `i` moves to `items - 1 - i`. */
    method Reverse()
      requires IsSortable()
      modifies data
      ensures data[..] == Reversed(old(data[..]))
    {
      var n := data.Length;
      var a, b := 0, n - 1;
      // A do/while in the C++ code; with two or more items its first test holds.
      while a < b
        invariant 0 <= a && b == n - 1 - a && a <= b + 2
        invariant forall k :: 0 <= k < a ==> data[k] == old(data[n - 1 - k]) && data[n - 1 - k] == old(data[k])
        invariant forall k :: a <= k <= b ==> data[k] == old(data[k])
      {
        data[a], data[b] := data[b], data[a];
        a, b := a + 1, b - 1;
      }
    }

    /** Changing the sort type asks for a full resort; setting the same type
        changes nothing. */
    method SetSortType(nType: uint8)
      modifies this
      ensures sortType == nType && SortType() == nType
      ensures IsDescSortOrder() == old(IsDescSortOrder()) && NeedRebuild() == old(NeedRebuild())
      ensures flags == if old(sortType) != nType then old(flags) | VL_RESORT | VL_FIRST_SORT else old(flags)
      ensures data == old(data) && resortTimer == old(resortTimer)
    {
      if sortType != nType {
        flags := flags | VL_RESORT | VL_FIRST_SORT;
        sortType := nType;
      }
    }

    /** Imports sort conditions; GetListing then returns them, and the next
        resort is a full one. */
    method SetListing(l: Listing)
      modifies this
      ensures GetListing() == l
      ensures HasFlag(flags, VL_FIRST_SORT)
      ensures flags & !(VL_DESC | VL_FIRST_SORT) == old(flags) & !(VL_DESC | VL_FIRST_SORT)
      ensures data == old(data) && resortTimer == old(resortTimer)
    {
      if l.order {
        flags := flags | VL_DESC;
      } else {
        flags := flags & !VL_DESC;
      }
      sortType := l.criteria;
      flags := flags | VL_FIRST_SORT;
    }

    /** Counts the timer down; true exactly when it was about to reach 0, and
        then a resort is requested and the timer restarts. */
    method NeedResort() returns (r: bool)
      modifies this
      ensures r <==> old(resortTimer) == 1
      ensures resortTimer == CountDown(old(resortTimer))
      ensures flags == if r then old(flags) | VL_RESORT else old(flags)
      ensures data == old(data) && sortType == old(sortType)
    {
      resortTimer := (resortTimer - 1) % 0x1_0000;
      if resortTimer == 0 {
        flags := flags | VL_RESORT;
        ResetResortTimer();
        return true;
      }
      return false;
    }

    method ForceResort()
      modifies this
      ensures flags == old(flags) | VL_RESORT
      ensures data == old(data) && sortType == old(sortType) && resortTimer == old(resortTimer)
    {
      flags := flags | VL_RESORT;
    }

    method ForceRebuild()
      modifies this
      ensures flags == old(flags) | VL_REBUILD
      ensures NeedRebuild() && IsDescSortOrder() == old(IsDescSortOrder())
      ensures data == old(data) && sortType == old(sortType) && resortTimer == old(resortTimer)
    {
      flags := flags | VL_REBUILD;
    }

    /** The rebuild is done; a resort follows. */
    method RebuildDone()
      modifies this
      ensures !NeedRebuild() && HasFlag(flags, VL_RESORT)
      ensures flags == (old(flags) & !VL_REBUILD) | VL_RESORT
      ensures data == old(data) && sortType == old(sortType) && resortTimer == old(resortTimer)
    {
      flags := flags & !VL_REBUILD;
      flags := flags | VL_RESORT;
    }

    /** Flips the direction and reverses the items, so the list already has
        the new order. */
    method ToggleSortOrder()
      modifies this, data
      ensures (flags, data[..]) == Toggled(old(flags), old(data[..]))
      ensures IsDescSortOrder() != old(IsDescSortOrder())
      ensures data == old(data) && sortType == old(sortType) && resortTimer == old(resortTimer)
    {
      flags := flags ^ VL_DESC;
      if IsSortable() {
        Reverse();
      }
    }

    /** The gnome sort of the later resorts. `a` walks forward over pairs in
        order; an out-of-order pair is swapped and the smaller item is walked
        back (`offset` counts the steps) until it sits in order, after which `a`
        jumps back to where it left off. */
    method GnomeSort(cmp: (T, T) -> int, desc: bool)
      requires Antisymmetric(cmp) && IsSortable()
      modifies data
      ensures multiset(data[..]) == multiset(old(data[..]))
      ensures AdjacentInOrder(cmp, desc, data[..])
    {
      var n := data.Length;
      var a, b := 0, 1;
      var length, offset := n, 0;
      while length > 1
        invariant GnomeInv(cmp, desc, data[..], a, offset, length) && b == a + 1
        invariant multiset(data[..]) == multiset(old(data[..]))
        decreases length,
          if offset > 0 then 1 else if b < n && InOrder(cmp, desc, data[a], data[b]) then 0 else 2,
          a,
          if b < n && InOrder(cmp, desc, data[a], data[b]) then 0 else 1
      {
        var diff := cmp(data[a], data[b]);
        if (!desc && diff <= 0) || (desc && diff >= 0) {
          if offset != 0 {
            // Jump back to the last direction switch point.
            GnomeJump(cmp, desc, data[..], a, offset, length);
            a, b := a + offset, b + offset;
            offset := 0;
            continue;
          }
          GnomeAdvance(cmp, desc, data[..], a, length);
          a, b := a + 1, b + 1;
          length := length - 1;
        } else {
          ghost var s := data[..];
          GnomeSwap(cmp, desc, s, a, offset, length);
          SwapPermutes(s, a, b);
          data[a], data[b] := data[b], data[a];
          assert data[..] == s[a := s[b]][b := s[a]];
          if a != 0 {
            offset := offset + 1;
            a, b := a - 1, b - 1;
          }
        }
      }
      GnomeDone(cmp, desc, data[..], a, offset, length);
    }

    /** Resorts when a resort was requested: the request is cleared and the
        timer restarts even when there is nothing to sort; the first sort after
        a change of criterion is qsort (reversed for a descending list), later
        ones the gnome sort. */
    method Sort(cmp: (T, T) -> int)
      requires Antisymmetric(cmp)
      modifies this, data
      ensures data == old(data) && sortType == old(sortType)
      ensures !HasFlag(old(flags), VL_RESORT) ==>
        flags == old(flags) && resortTimer == old(resortTimer) && data[..] == old(data[..])
      ensures HasFlag(old(flags), VL_RESORT) ==>
        flags == old(flags) & !VL_RESORT && resortTimer == RESORT_INTERVAL &&
        AdjacentInOrder(cmp, IsDescSortOrder(), data[..])
      ensures multiset(data[..]) == multiset(old(data[..]))
      ensures HasFlag(old(flags), VL_RESORT) && HasFlag(old(flags), VL_FIRST_SORT) && old(IsSortable()) ==>
        data[..] == if IsDescSortOrder() then Reversed(SortedBy(cmp, old(data[..])))
                    else SortedBy(cmp, old(data[..]))
    {
      if !HasFlag(flags, VL_RESORT) {
        return;
      }
      flags := flags & !VL_RESORT;
      ResetResortTimer();
      if !IsSortable() {
        return;
      }
      var desc := HasFlag(flags, VL_DESC);
      if HasFlag(flags, VL_FIRST_SORT) {
        var sorted := SortedBy(cmp, data[..]);
        SortedByFacts(cmp, data[..]);
        forall i | 0 <= i < data.Length {
          data[i] := sorted[i];
        }
        assert data[..] == sorted;
        if desc {
          Reverse();
          ReversedPermutes(sorted);
          ReversedFlipsOrder(cmp, sorted);
        }
        return;
      }
      GnomeSort(cmp, desc);
    }
  }

  /** The flags and items after ToggleSortOrder: VL_DESC flipped, and the items
      reversed when there are at least two. */
  function Toggled<T>(flags: bv8, s: seq<T>): (bv8, seq<T>) {
    (flags ^ VL_DESC, if |s| >= 2 then Reversed(s) else s)
  }

  /** Toggling the sort order twice restores the flags and the items. */
  lemma ToggleSortOrderTwice<T>(flags: bv8, s: seq<T>)
    ensures Toggled(Toggled(flags, s).0, Toggled(flags, s).1) == (flags, s)
  {
    if |s| >= 2 {
      ReversedTwice(s);
    }
  }
}
