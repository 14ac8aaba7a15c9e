/** Scheduled dispatch: the sorted slot list of one schedule, the normaliser that
    keeps the schedule's window around the current tick, and the validation and
    effect of the scheduled-dispatch commands that edit slots and schedules. */
module SchDispatch {
  import opened Ints

  // ---------------------------------------------------------------------------
  // The slot list: offsets kept in ascending order
  // ---------------------------------------------------------------------------

  ghost predicate Sorted(s: seq<uint32>) {
    forall i, j :: 0 <= i < j < |s| ==> s[i] <= s[j]
  }

  ghost predicate StrictlyAscending(s: seq<uint32>) {
    forall i, j :: 0 <= i < j < |s| ==> s[i] < s[j]
  }

  /** `i` is where std::lower_bound stops: every earlier slot is below `x`,
      every later one is at least `x`. */
  ghost predicate IsLowerBound(s: seq<uint32>, x: uint32, i: nat) {
    i <= |s| &&
    (forall k :: 0 <= k < i ==> s[k] < x) &&
    (forall k :: i <= k < |s| ==> x <= s[k])
  }

  /** The slot list after adding `x`: unchanged when `x` is already there,
      otherwise `x` is placed in front of the first larger slot. */
  function InsertSlot(s: seq<uint32>, x: uint32): seq<uint32>
  {
    if s == [] then [x]
    else if x < s[0] then [x] + s
    else if x == s[0] then s
    else [s[0]] + InsertSlot(s[1..], x)
  }

  /** The slot list after removing `x`: the first occurrence found before a
      larger slot goes, nothing else. */
  function RemoveSlot(s: seq<uint32>, x: uint32): seq<uint32>
  {
    if s == [] then []
    else if x < s[0] then s
    else if x == s[0] then s[1..]
    else [s[0]] + RemoveSlot(s[1..], x)
  }

  /** Adding keeps every slot and adds `x` once, unless it is already there. */
  lemma {:induction false} InsertSlotContents(s: seq<uint32>, x: uint32)
    requires Sorted(s)
    ensures multiset(InsertSlot(s, x)) == if x in s then multiset(s) else multiset(s) + multiset{x}
  {
    if s != [] {
      assert s == [s[0]] + s[1..];
      if x < s[0] {
        forall k | 0 <= k < |s| ensures s[k] != x {
          assert s[0] <= s[k];
        }
      } else if x > s[0] {
        InsertSlotContents(s[1..], x);
        assert x in s <==> x in s[1..];
      }
    }
  }

  /** The slots after adding `x` are the old ones and `x`. */
  lemma {:induction false} InsertSlotMembers(s: seq<uint32>, x: uint32)
    ensures forall y :: y in InsertSlot(s, x) <==> y in s || y == x
  {
    if s != [] && x > s[0] {
      InsertSlotMembers(s[1..], x);
      assert s == [s[0]] + s[1..];
    }
  }

  /** Putting `h` in front of a sorted list whose members are all at least `h`
      (above `h` when `strict`) keeps it sorted (strictly ascending). */
  lemma ConsOrdered(h: uint32, rest: seq<uint32>, strict: bool)
    requires Sorted(rest) && (strict ==> StrictlyAscending(rest))
    requires forall y :: y in rest ==> h <= y && (strict ==> h < y)
    ensures Sorted([h] + rest) && (strict ==> StrictlyAscending([h] + rest))
  {
    var r := [h] + rest;
    forall i, j | 0 <= i < j < |r|
      ensures r[i] <= r[j] && (strict ==> r[i] < r[j])
    {
      assert r[j] == rest[j - 1] && r[j] in rest;
      if i > 0 {
        assert r[i] == rest[i - 1];
      }
    }
  }

  /** Adding keeps the list sorted, and strictly ascending if it was. */
  lemma {:induction false} InsertSlotOrdered(s: seq<uint32>, x: uint32)
    requires Sorted(s)
    ensures Sorted(InsertSlot(s, x))
    ensures StrictlyAscending(s) ==> StrictlyAscending(InsertSlot(s, x))
  {
    if s == [] {
    } else if x < s[0] {
      forall y | y in s ensures x < y {
        var k :| 0 <= k < |s| && s[k] == y;
        assert s[0] <= s[k];
      }
      ConsOrdered(x, s, StrictlyAscending(s));
    } else if x > s[0] {
      var rest := InsertSlot(s[1..], x);
      InsertSlotOrdered(s[1..], x);
      InsertSlotMembers(s[1..], x);
      forall y | y in rest ensures s[0] <= y && (StrictlyAscending(s) ==> s[0] < y) {
        if y != x {
          var k :| 0 <= k < |s[1..]| && s[1..][k] == y;
          assert s[k + 1] == y;
        }
      }
      ConsOrdered(s[0], rest, StrictlyAscending(s));
    }
  }

  /** Removing takes away one copy of `x` when there is one, and nothing else. */
  lemma {:induction false} RemoveSlotContents(s: seq<uint32>, x: uint32)
    requires Sorted(s)
    ensures multiset(RemoveSlot(s, x)) == multiset(s) - multiset{x}
  {
    if s != [] {
      assert s == [s[0]] + s[1..];
      assert multiset(s) == multiset{s[0]} + multiset(s[1..]);
      if x < s[0] {
        assert x !in s by {
          forall k | 0 <= k < |s| ensures s[k] != x {
            assert s[0] <= s[k];
          }
        }
      } else if x > s[0] {
        RemoveSlotContents(s[1..], x);
        assert multiset(RemoveSlot(s, x)) == multiset{s[0]} + multiset(RemoveSlot(s[1..], x));
      }
    }
  }

  /** Every slot left after removing `x` was there before. */
  lemma {:induction false} RemoveSlotSubset(s: seq<uint32>, x: uint32)
    ensures forall y :: y in RemoveSlot(s, x) ==> y in s
  {
    if s != [] && x > s[0] {
      RemoveSlotSubset(s[1..], x);
      assert s == [s[0]] + s[1..];
    }
  }

  /** Removing keeps the list sorted, and strictly ascending if it was. */
  lemma {:induction false} RemoveSlotOrdered(s: seq<uint32>, x: uint32)
    requires Sorted(s)
    ensures Sorted(RemoveSlot(s, x))
    ensures StrictlyAscending(s) ==> StrictlyAscending(RemoveSlot(s, x))
  {
    if s != [] && x > s[0] {
      var t := s[1..];
      var rest := RemoveSlot(t, x);
      assert Sorted(t);
      RemoveSlotOrdered(t, x);
      RemoveSlotSubset(t, x);
      forall y | y in rest ensures s[0] <= y && (StrictlyAscending(s) ==> s[0] < y) {
        var k :| 0 <= k < |t| && t[k] == y;
        assert s[k + 1] == y;
      }
      ConsOrdered(s[0], rest, StrictlyAscending(s));
    }
  }

  /** From a strictly ascending list, removing `x` takes out exactly `x`. */
  lemma {:induction false} RemoveSlotMembers(s: seq<uint32>, x: uint32)
    requires StrictlyAscending(s)
    ensures forall y :: y in RemoveSlot(s, x) <==> y in s && y != x
  {
    if s == [] {
    } else if x < s[0] {
      forall k | 0 <= k < |s| ensures s[k] != x {
        assert s[0] <= s[k];
      }
    } else if x == s[0] {
      assert s == [s[0]] + s[1..];
      forall k | 0 <= k < |s[1..]| ensures s[1..][k] != x {
        assert s[0] < s[k + 1];
      }
    } else {
      var t := s[1..];
      assert StrictlyAscending(t);
      RemoveSlotMembers(t, x);
      assert s == [s[0]] + t;
    }
  }

  /** std::lower_bound over the slot list, as a binary search. */
  method LowerBound(s: seq<uint32>, x: uint32) returns (i: nat)
    requires Sorted(s)
    ensures IsLowerBound(s, x, i)
  {
    var lo, hi := 0, |s|;
    while lo < hi
      invariant 0 <= lo <= hi <= |s|
      invariant forall k :: 0 <= k < lo ==> s[k] < x
      invariant forall k :: hi <= k < |s| ==> x <= s[k]
    {
      var mid := lo + (hi - lo) / 2;
      if s[mid] < x {
        lo := mid + 1;
      } else {
        hi := mid;
      }
    }
    i := lo;
  }

  /** In a sorted list, `x` is present exactly when it sits at its lower bound. */
  lemma LowerBoundFinds(s: seq<uint32>, x: uint32, i: nat)
    requires Sorted(s) && IsLowerBound(s, x, i)
    ensures x in s <==> i < |s| && s[i] == x
  {
    if x in s {
      var k :| 0 <= k < |s| && s[k] == x;
      assert i <= k && s[i] <= s[k];
    }
  }

  /** Dropping a first slot below `x` moves the lower bound of `x` one place
      to the left. */
  lemma LowerBoundTail(s: seq<uint32>, x: uint32, i: nat)
    requires IsLowerBound(s, x, i) && i > 0
    ensures s[0] < x && IsLowerBound(s[1..], x, i - 1)
  {
  }

  /** Inserting at the lower bound is InsertSlot. */
  lemma {:induction false} InsertAtLowerBound(s: seq<uint32>, x: uint32, i: nat)
    requires IsLowerBound(s, x, i)
    ensures InsertSlot(s, x) == if i < |s| && s[i] == x then s else s[..i] + [x] + s[i..]
  {
    if i > 0 {
      var t := s[1..];
      LowerBoundTail(s, x, i);
      InsertAtLowerBound(t, x, i - 1);
      assert s[..i] == [s[0]] + t[..i - 1];
      assert s[i..] == t[i - 1..];
      if i < |s| && s[i] == x {
        assert t[i - 1] == x;
        assert s == [s[0]] + t;
      } else {
        assert InsertSlot(s, x) == [s[0]] + (t[..i - 1] + [x] + t[i - 1..]);
      }
    }
  }

  /** Erasing at the lower bound is RemoveSlot. */
  lemma {:induction false} RemoveAtLowerBound(s: seq<uint32>, x: uint32, i: nat)
    requires IsLowerBound(s, x, i)
    ensures RemoveSlot(s, x) == if i < |s| && s[i] == x then s[..i] + s[i + 1..] else s
  {
    if i > 0 {
      var t := s[1..];
      LowerBoundTail(s, x, i);
      RemoveAtLowerBound(t, x, i - 1);
      assert s == [s[0]] + t;
      if i < |s| && s[i] == x {
        assert t[i - 1] == x;
        assert s[..i] == [s[0]] + t[..i - 1];
        assert s[i + 1..] == t[i..];
        assert RemoveSlot(s, x) == [s[0]] + (t[..i - 1] + t[i..]);
      }
    }
  }

  /** Adding the same offset twice leaves the list as one addition does. */
  lemma {:induction false} InsertSlotIdempotent(s: seq<uint32>, x: uint32)
    requires Sorted(s)
    ensures InsertSlot(InsertSlot(s, x), x) == InsertSlot(s, x)
  {
    if s != [] && x > s[0] {
      InsertSlotIdempotent(s[1..], x);
    }
  }

  // ---------------------------------------------------------------------------
  // The window normaliser
  // ---------------------------------------------------------------------------

  /** The game clock and the settings the normaliser reads: the current scaled
      tick, whether time is shown in minutes, and ticks per minute. */
  datatype Clock = Clock(now: int64, timeInMinutes: bool, ticksPerMinute: uint8)

  predicate ClockOk(clock: Clock) {
    clock.timeInMinutes ==> clock.ticksPerMinute > 0
  }

  function DayTicks(clock: Clock): int {
    24 * 60 * clock.ticksPerMinute
  }

  /** C++ `%` on signed integers: the remainder takes the sign of `a`. */
  function TruncMod(a: int, b: int): (r: int)
    requires b > 0
    ensures -b < r < b
    ensures a >= 0 ==> 0 <= r
    ensures a < 0 ==> r <= 0
    ensures (a - r) % b == 0
  {
    if a >= 0 then
      var q := a / b;
      assert a - a % b == 0 + q * b;
      ModAddMultiple(0, q, b);
      a % b
    else
      var q := (-a) / b;
      assert a - (-((-a) % b)) == 0 + (-q) * b;
      ModAddMultiple(0, -q, b);
      -((-a) % b)
  }

  /** CeilDivT for a non-negative numerator and a positive divisor. */
  function CeilDiv(a: int, b: int): (q: int)
    requires a >= 0 && b > 0
    ensures a <= q * b < a + b
  {
    (a + b - 1) / b
  }

  /** The first start tick: `now` rounded toward zero to a multiple of `d`. */
  function InitialStart(now: int, d: int): (start: int)
    requires d > 0
    ensures start % d == 0
    ensures now >= 0 ==> start <= now < start + d
    ensures now < 0 ==> now <= start < now + d
  {
    now - TruncMod(now, d)
  }

  /** The first last-dispatch value: minus the start tick, clamped to int32, except
      that with times in minutes a value below INT_MIN is moved up by whole days
      into [INT_MIN, INT_MIN + day). */
  function InitialLastDispatch(start: int, clock: Clock): (r: int32)
    requires ClockOk(clock)
    ensures -start >= INT32_MIN ==> r == ClampToI32(-start)
    ensures -start < INT32_MIN && !clock.timeInMinutes ==> r == INT32_MIN
    ensures -start < INT32_MIN && clock.timeInMinutes ==>
      INT32_MIN <= r < INT32_MIN + DayTicks(clock) && (r + start) % DayTicks(clock) == 0
  {
    var lastDispatch := -start;
    if lastDispatch < INT32_MIN && clock.timeInMinutes then
      var day := DayTicks(clock);
      var q := CeilDiv(INT32_MIN - lastDispatch, day);
      ModAddMultiple(0, q, day);
      lastDispatch + q * day
    else
      ClampToI32(lastDispatch)
  }

  /** The start tick once the zero sentinel has been replaced. */
  function StartAfterInit(start: int, clock: Clock, d: int): int
    requires d > 0
  {
    if start == 0 then InitialStart(clock.now, d) else start
  }

  /** The last-dispatch value once the zero sentinel has been replaced. */
  function LastDispatchAfterInit(start: int, lastDispatch: int32, clock: Clock, d: int): int32
    requires d > 0 && ClockOk(clock)
  {
    if start == 0 then InitialLastDispatch(InitialStart(clock.now, d), clock) else lastDispatch
  }

  /** The one start tick that is `s` moved by whole durations and has `now`
      inside its window. */
  function NormalisedStart(s: int, now: int, d: int): (r: int)
    requires d > 0
    ensures r <= now < r + d
    ensures (r - s) % d == 0
  {
    var r := now - (now - s) % d;
    ModAddMultiple(0, (now - s) / d, d);
    assert r - s == (now - s) / d * d;
    r
  }

  /** Any start tick congruent to `s` with `now` in its window is NormalisedStart. */
  lemma WindowUnique(s: int, now: int, d: int, r: int)
    requires d > 0 && r <= now < r + d && (r - s) % d == 0
    ensures r == NormalisedStart(s, now, d)
  {
    var q := (r - s) / d;
    assert r - s == q * d + (r - s) % d;
    assert now - s == q * d + (now - r);
    DivModUnique(now - s, d, q, now - r);
  }

  /** The start tick and last-dispatch value after UpdateScheduledDispatch. */
  datatype Window = Window(start: int, lastDispatch: int32)

  /** What UpdateScheduledDispatch leaves: nothing changes when the duration is
      0; otherwise the start is normalised and last-dispatch moves by the same
      distance the other way, saturating at the int32 bounds. */
  function WindowAfterUpdate(w: Window, clock: Clock, d: int): (r: Window)
    requires d >= 0 && ClockOk(clock)
  {
    if d == 0 then w
    else
      var s0 := StartAfterInit(w.start, clock, d);
      var ld0 := LastDispatchAfterInit(w.start, w.lastDispatch, clock, d);
      var start := NormalisedStart(s0, clock.now, d);
      Window(start, ClampToI32(ld0 + s0 - start))
  }

  /** After an update with a positive duration, `now` lies in the window. */
  lemma UpdateContainsNow(w: Window, clock: Clock, d: int)
    requires d > 0 && ClockOk(clock)
    ensures var r := WindowAfterUpdate(w, clock, d); r.start <= clock.now < r.start + d
  {
  }

  /** An update either leaves the window alone (duration 0) or puts `now` in it. */
  lemma UpdateKeepsOrHolds(w: Window, clock: Clock, d: int)
    requires d >= 0 && ClockOk(clock)
    ensures var r := WindowAfterUpdate(w, clock, d);
      r == w || (d > 0 && r.start <= clock.now < r.start + d)
  {
  }

  /** A second update at the same tick changes nothing, unless the window
      starts at tick 0, which the code reads as "not yet set". */
  lemma {:induction false} UpdateIdempotent(w: Window, clock: Clock, d: int)
    requires d >= 0 && ClockOk(clock)
    requires WindowAfterUpdate(w, clock, d).start != 0
    ensures WindowAfterUpdate(WindowAfterUpdate(w, clock, d), clock, d) == WindowAfterUpdate(w, clock, d)
  {
    if d > 0 {
      var r := WindowAfterUpdate(w, clock, d);
      assert (r.start - r.start) % d == 0;
      WindowUnique(r.start, clock.now, d, r.start);
    }
  }

  /** A window already holding `now` is left alone. */
  lemma {:induction false} UpdateKeepsCurrentWindow(w: Window, clock: Clock, d: int)
    requires d > 0 && ClockOk(clock)
    requires w.start != 0 && w.start <= clock.now < w.start + d
    ensures WindowAfterUpdate(w, clock, d) == w
  {
    assert (w.start - w.start) % d == 0;
    WindowUnique(w.start, clock.now, d, w.start);
  }

  /** The loops of UpdateScheduledDispatchToDate as written, for any duration
      including 0, run for at most `fuel` iterations: true when both loop guards
      become false within that many iterations. */
  function LoopsSettleWithin(start: int, now: int, d: int, fuel: nat): bool
    decreases fuel
  {
    if start > now then fuel > 0 && LoopsSettleWithin(start - d, now, d, fuel - 1)
    else if start + d <= now then fuel > 0 && LoopsSettleWithin(start + d, now, d, fuel - 1)
    else true
  }

  /** A start of 0 doubles as "not yet initialised": a window normalised to start
      exactly at tick 0 is initialised again by the next update, which resets its
      last dispatch. Here a window starting at 300 with last dispatch 1234 becomes
      (0, 1534) at tick 50 with duration 100, and the next update at the same tick
      turns it into (0, 0). */
  lemma ZeroStartIsInitialisedAgain()
    ensures var clock := Clock(50, false, 1);
      var w := WindowAfterUpdate(Window(300, 1234), clock, 100);
      w == Window(0, 1534) && WindowAfterUpdate(w, clock, 100) == Window(0, 0)
  {
  }

  /** With duration 0 the loops never end, however many iterations are allowed. */
  lemma {:induction false} ZeroDurationNeverSettles(start: int, now: int, fuel: nat)
    ensures !LoopsSettleWithin(start, now, 0, fuel)
  {
    if fuel > 0 {
      ZeroDurationNeverSettles(start, now, fuel - 1);
    }
  }

  /** With a positive duration the loops end after as many iterations as whole
      durations separate the start from its normalised value, plus one. */
  lemma {:induction false} PositiveDurationSettles(start: int, now: int, d: int, fuel: nat)
    requires d > 0
    requires start > now ==> fuel * d >= start - now
    requires start <= now ==> fuel * d > now - start - d
    ensures LoopsSettleWithin(start, now, d, fuel)
    decreases fuel
  {
    if start > now {
      assert fuel > 0;
      PositiveDurationSettles(start - d, now, d, fuel - 1);
    } else if start + d <= now {
      assert fuel > 0;
      PositiveDurationSettles(start + d, now, d, fuel - 1);
    }
  }

  // ---------------------------------------------------------------------------
  // One schedule
  // ---------------------------------------------------------------------------

  class DispatchSchedule {
    var scheduledDispatch: seq<uint32>
    var duration: uint32
    var startTick: int
    var lastDispatch: int32

    ghost predicate Valid()
      reads this
    {
      Sorted(scheduledDispatch)
    }

    function CurrentWindow(): Window
      reads this
    {
      Window(startTick, lastDispatch)
    }

    /** The duration is positive and the current tick lies in the window. */
    predicate HoldsNow(clock: Clock)
      reads this
    {
      duration > 0 && startTick <= clock.now < startTick + duration
    }

    constructor ()
      ensures Valid()
      ensures scheduledDispatch == [] && duration == 0 && startTick == 0 && lastDispatch == 0
    {
      scheduledDispatch := [];
      duration := 0;
      startTick := 0;
      lastDispatch := 0;
    }

    method SetScheduledDispatchDuration(d: uint32)
      modifies this
      ensures duration == d
      ensures scheduledDispatch == old(scheduledDispatch) && CurrentWindow() == old(CurrentWindow())
    {
      duration := d;
    }

    method SetScheduledDispatchLastDispatch(ld: int32)
      modifies this
      ensures lastDispatch == ld
      ensures scheduledDispatch == old(scheduledDispatch) && duration == old(duration)
      ensures startTick == old(startTick)
    {
      lastDispatch := ld;
    }

    /** Rolls the window to hold `clock.now`; true iff the start tick moved by at
        least one duration (setting the zero sentinel alone does not count). */
    method UpdateScheduledDispatchToDate(clock: Clock) returns (changed: bool)
      requires duration > 0 && ClockOk(clock)
      modifies this
      ensures scheduledDispatch == old(scheduledDispatch) && duration == old(duration)
      ensures CurrentWindow() == WindowAfterUpdate(old(CurrentWindow()), clock, duration)
      ensures changed <==> startTick != StartAfterInit(old(startTick), clock, duration)
    {
      var d: int := duration;
      var now: int := clock.now;
      changed := false;
      if startTick == 0 {
        var start := now - TruncMod(now, d);
        startTick := start;
        lastDispatch := InitialLastDispatch(start, clock);
      }
      ghost var s0, ld0 := startTick, lastDispatch;
      // Most of the time this loop does not run.
      while startTick > now
        invariant startTick <= s0 && (startTick - s0) % d == 0
        invariant startTick < s0 ==> startTick + d > now
        invariant lastDispatch == ClampToI32(ld0 + s0 - startTick)
        invariant changed <==> startTick != s0
        invariant scheduledDispatch == old(scheduledDispatch) && duration == old(duration)
        decreases startTick - now
      {
        SaturatingAddTwice(ld0, s0 - startTick, d);
        ModAddMultiple(startTick - s0, -1, d);
        lastDispatch := SaturatingAdd(lastDispatch, d);
        startTick := startTick - d;
        changed := true;
      }
      // Most of the time this loop runs once.
      while startTick + d <= now
        invariant startTick <= now && (startTick - s0) % d == 0
        invariant startTick < s0 ==> startTick + d > now
        invariant lastDispatch == ClampToI32(ld0 + s0 - startTick)
        invariant changed <==> startTick != s0
        invariant scheduledDispatch == old(scheduledDispatch) && duration == old(duration)
        decreases now - startTick
      {
        SaturatingAddTwice(ld0, s0 - startTick, -d);
        ModAddMultiple(startTick - s0, 1, d);
        lastDispatch := SaturatingAdd(lastDispatch, -d);
        startTick := startTick + d;
        changed := true;
      }
      WindowUnique(s0, now, d, startTick);
    }

    /** UpdateScheduledDispatch with the duration check it lacks: the window is
        normalised only when the duration is positive (see UpdateScheduledDispatchToDate). */
    method UpdateScheduledDispatch(clock: Clock)
      requires ClockOk(clock)
      modifies this
      ensures scheduledDispatch == old(scheduledDispatch) && duration == old(duration)
      ensures CurrentWindow() == WindowAfterUpdate(old(CurrentWindow()), clock, duration)
    {
      if duration > 0 {
        var _ := UpdateScheduledDispatchToDate(clock);
      }
    }

    /** Replaces the slot list with an already sorted one, normalising the window
        when the schedule is valid (modelled as: the duration is positive). */
    method SetScheduledDispatch(list: seq<uint32>, clock: Clock)
      requires Sorted(list) && ClockOk(clock)
      modifies this
      ensures Valid() && scheduledDispatch == list && duration == old(duration)
      ensures CurrentWindow() == WindowAfterUpdate(old(CurrentWindow()), clock, duration)
    {
      scheduledDispatch := list;
      if duration > 0 {
        UpdateScheduledDispatch(clock);
      }
    }

    /** Adds slot `offset` at its sorted place; an offset already present changes
        nothing, otherwise the window is normalised afterwards. */
    method AddScheduledDispatch(offset: uint32, clock: Clock)
      requires Valid() && ClockOk(clock)
      modifies this
      ensures Valid() && duration == old(duration)
      ensures scheduledDispatch == InsertSlot(old(scheduledDispatch), offset)
      ensures offset in old(scheduledDispatch) ==>
        scheduledDispatch == old(scheduledDispatch) && CurrentWindow() == old(CurrentWindow())
      ensures offset !in old(scheduledDispatch) ==>
        CurrentWindow() == WindowAfterUpdate(old(CurrentWindow()), clock, duration)
      ensures forall y :: y in scheduledDispatch <==> y in old(scheduledDispatch) || y == offset
      ensures StrictlyAscending(old(scheduledDispatch)) ==> StrictlyAscending(scheduledDispatch)
      ensures CurrentWindow() == old(CurrentWindow()) || HoldsNow(clock)
    {
      UpdateKeepsOrHolds(CurrentWindow(), clock, duration);
      InsertSlotMembers(scheduledDispatch, offset);
      var pos := LowerBound(scheduledDispatch, offset);
      InsertAtLowerBound(scheduledDispatch, offset, pos);
      LowerBoundFinds(scheduledDispatch, offset, pos);
      InsertSlotOrdered(scheduledDispatch, offset);
      if pos < |scheduledDispatch| && scheduledDispatch[pos] == offset {
        return;
      }
      scheduledDispatch := scheduledDispatch[..pos] + [offset] + scheduledDispatch[pos..];
      UpdateScheduledDispatch(clock);
    }

    /** Removes slot `offset` if present; the window is not touched. */
    method RemoveScheduledDispatch(offset: uint32)
      requires Valid()
      modifies this
      ensures Valid() && duration == old(duration) && CurrentWindow() == old(CurrentWindow())
      ensures scheduledDispatch == RemoveSlot(old(scheduledDispatch), offset)
    {
      var pos := LowerBound(scheduledDispatch, offset);
      RemoveAtLowerBound(scheduledDispatch, offset, pos);
      RemoveSlotOrdered(scheduledDispatch, offset);
      if pos == |scheduledDispatch| || scheduledDispatch[pos] != offset {
        return;
      }
      scheduledDispatch := scheduledDispatch[..pos] + scheduledDispatch[pos + 1..];
    }
  }

  // ---------------------------------------------------------------------------
  // Commands
  // ---------------------------------------------------------------------------

  const MAX_EXTRA_SLOTS: nat := 512
  const MAX_SCHEDULES: nat := 4096

  /** The errors a command can return: CMD_ERROR, the ownership check's own
      error, and "tried to add too many slots". */
  datatype CommandError = CmdError | NotOwner | TooManySlots
  datatype CommandCost = Success | Failure(error: CommandError)

  /** GB(p1, 0, 20): the vehicle index. */
  function VehicleOf(p1: uint32): (veh: nat)
    ensures veh < 0x10_0000
  {
    p1 % 0x10_0000
  }

  /** GB(p1, 20, 12): the schedule index. */
  function ScheduleIndexOf(p1: uint32): (index: nat)
    ensures index < MAX_SCHEDULES
  {
    p1 / 0x10_0000
  }

  /** The p1 a client sends for a vehicle and a schedule index. */
  function PackP1(veh: nat, index: nat): (p1: uint32)
    requires veh < 0x10_0000 && index < MAX_SCHEDULES
    ensures VehicleOf(p1) == veh && ScheduleIndexOf(p1) == index
  {
    ModAddMultiple(veh, index, 0x10_0000);
    veh + index * 0x10_0000
  }

  /** GB(p3, 0, 32): the distance between extra slots. */
  function SlotOffsetOf(p3: uint64): uint32 {
    p3 % 0x1_0000_0000
  }

  /** GB(p3, 32, 16): how many extra slots to add. */
  function ExtraSlotsOf(p3: uint64): (extra: nat)
    ensures extra < 0x1_0000
  {
    (p3 / 0x1_0000_0000) % 0x1_0000
  }

  /** The two fields of p3 are its low 32 bits and the 16 bits above them; the
      top 16 bits are ignored. */
  lemma P3Fields(p3: uint64)
    ensures p3 == SlotOffsetOf(p3) + ExtraSlotsOf(p3) * 0x1_0000_0000 + (p3 / 0x1_0000_0000_0000) * 0x1_0000_0000_0000
  {
    var hi := p3 / 0x1_0000_0000;
    assert p3 == SlotOffsetOf(p3) + hi * 0x1_0000_0000;
    assert hi == ExtraSlotsOf(p3) + (hi / 0x1_0000) * 0x1_0000;
    DivModUnique(p3, 0x1_0000_0000_0000, hi / 0x1_0000, SlotOffsetOf(p3) + ExtraSlotsOf(p3) * 0x1_0000_0000);
  }

  /** The checks common to the commands that address one schedule of one vehicle. */
  function CheckSchedule(vehicleOk: bool, ownerOk: bool, hasList: bool, count: nat, index: nat): (r: CommandCost)
    ensures r == Success <==> vehicleOk && ownerOk && hasList && index < count
    ensures r == Failure(NotOwner) <==> vehicleOk && !ownerOk
    ensures r != Success ==> r.error != TooManySlots
  {
    if !vehicleOk then Failure(CmdError)
    else if !ownerOk then Failure(NotOwner)
    else if !hasList then Failure(CmdError)
    else if index >= count then Failure(CmdError)
    else Success
  }

  /** The checks of CmdScheduledDispatchAdd. */
  function CheckAdd(vehicleOk: bool, ownerOk: bool, hasList: bool, count: nat, index: nat, offset: uint32, extra: nat): (r: CommandCost)
    ensures r == Success <==>
      CheckSchedule(vehicleOk, ownerOk, hasList, count, index) == Success &&
      extra <= MAX_EXTRA_SLOTS && !(extra > 0 && offset == 0)
    ensures r == Failure(TooManySlots) <==>
      CheckSchedule(vehicleOk, ownerOk, hasList, count, index) == Success && extra > MAX_EXTRA_SLOTS
  {
    var r := CheckSchedule(vehicleOk, ownerOk, hasList, count, index);
    if r != Success then r
    else if extra > MAX_EXTRA_SLOTS then Failure(TooManySlots)
    else if extra > 0 && offset == 0 then Failure(CmdError)
    else Success
  }

  /** The checks of CmdScheduledDispatchAddNewSchedule. */
  function CheckAddNewSchedule(vehicleOk: bool, ownerOk: bool, hasList: bool, count: nat): (r: CommandCost)
    ensures r == Success <==> vehicleOk && ownerOk && hasList && count < MAX_SCHEDULES
    ensures r == Failure(NotOwner) <==> vehicleOk && !ownerOk
  {
    if !vehicleOk then Failure(CmdError)
    else if !ownerOk then Failure(NotOwner)
    else if !hasList then Failure(CmdError)
    else if count >= MAX_SCHEDULES then Failure(CmdError)
    else Success
  }

  /** The `k`-th slot the multi-slot add writes: `p2` advanced `k` times by
      `offset`, each time wrapping at 2^32 as `p2 += offset` does. */
  function SlotAt(p2: uint32, offset: uint32, k: nat): uint32 {
    if k == 0 then p2 else (SlotAt(p2, offset, k - 1) + offset) % UINT32_MOD
  }

  /** The `k`-th slot is `p2 + k * offset` reduced modulo 2^32. */
  lemma {:induction false} SlotAtClosedForm(p2: uint32, offset: uint32, k: nat)
    ensures SlotAt(p2, offset, k) == (p2 + k * offset) % UINT32_MOD
  {
    if k > 0 {
      SlotAtClosedForm(p2, offset, k - 1);
      ModAbsorb(p2 + (k - 1) * offset, offset, UINT32_MOD);
      assert p2 + (k - 1) * offset + offset == p2 + k * offset;
    }
  }

  /** The slots SlotAt(p2, offset, k) for k = 0 .. n. */
  ghost function AddedSlots(p2: uint32, offset: uint32, n: nat): set<uint32> {
    if n == 0 then {p2} else AddedSlots(p2, offset, n - 1) + {SlotAt(p2, offset, n)}
  }

  /** The list holds exactly the slots of `orig` and the first k + 1 added ones. */
  ghost predicate HoldsAdded(s: seq<uint32>, orig: seq<uint32>, p2: uint32, offset: uint32, k: nat) {
    forall y :: y in s <==> y in orig || y in AddedSlots(p2, offset, k)
  }

  /** Adding slot k + 1 to a list holding the slots it started with and the first k + 1
      added ones gives the slots it started with and the first k + 2. */
  lemma AddedSlotsGrow(orig: seq<uint32>, prev: seq<uint32>, next: seq<uint32>,
                       p2: uint32, offset: uint32, k: nat)
    requires HoldsAdded(prev, orig, p2, offset, k)
    requires forall y :: y in next <==> y in prev || y == SlotAt(p2, offset, k + 1)
    ensures HoldsAdded(next, orig, p2, offset, k + 1)
  {
  }

  /** The dispatch index an order keeps after schedule `removed` is erased: the
      specification the renumbering loop is proved against. RenumberKeepsTarget
      states what it achieves. */
  function RenumberedIndex(idx: int, removed: nat): int
  {
    if idx == removed then -1 else if idx > removed then idx - 1 else idx
  }

  /** After the erase, an order that used another schedule still points at it. */
  lemma RenumberKeepsTarget<T>(schedules: seq<T>, removed: nat, idx: int)
    requires removed < |schedules| && 0 <= idx < |schedules| && idx != removed
    ensures var rest := schedules[..removed] + schedules[removed + 1..];
      0 <= RenumberedIndex(idx, removed) < |rest| && rest[RenumberedIndex(idx, removed)] == schedules[idx]
  {
  }

  /** The schedules of a shared order list and, per order, the index of the
      schedule it uses (-1 for none). */
  class OrderList {
    var schedules: seq<DispatchSchedule>
    var orderScheduleIndex: seq<int>

    ghost predicate Valid()
      reads this, set i | 0 <= i < |schedules| :: schedules[i]
    {
      |schedules| <= MAX_SCHEDULES &&
      (forall i, j :: 0 <= i < j < |schedules| ==> schedules[i] != schedules[j]) &&
      (forall i :: 0 <= i < |schedules| ==> schedules[i].Valid())
    }

    constructor (orders: seq<int>)
      ensures Valid() && schedules == [] && orderScheduleIndex == orders
    {
      schedules := [];
      orderScheduleIndex := orders;
    }
  }

  function Count(list: OrderList?): nat
    reads list
  {
    if list == null then 0 else |list.schedules|
  }

  /** One round of the multi-slot loop: `p2 += offset` in uint32 arithmetic, then
      that slot is added. */
  method AddNextSlot(ds: DispatchSchedule, slot: uint32, offset: uint32, clock: Clock) returns (next: uint32)
    requires ds.Valid() && ClockOk(clock)
    modifies ds
    ensures next == (slot + offset) % UINT32_MOD
    ensures ds.Valid() && ds.duration == old(ds.duration)
    ensures forall y :: y in ds.scheduledDispatch <==> y in old(ds.scheduledDispatch) || y == next
    ensures StrictlyAscending(old(ds.scheduledDispatch)) ==> StrictlyAscending(ds.scheduledDispatch)
    ensures ds.CurrentWindow() == old(ds.CurrentWindow()) || ds.HoldsNow(clock)
  {
    next := (slot + offset) % UINT32_MOD;
    ds.AddScheduledDispatch(next, clock);
  }

  /** The execution part of CmdScheduledDispatchAdd: adds `p2`, then for
      k = 1 .. extra adds `p2 + k*offset` in uint32 arithmetic. */
  method AddSlots(ds: DispatchSchedule, p2: uint32, offset: uint32, extra: nat, clock: Clock)
    requires ds.Valid() && ClockOk(clock)
    modifies ds
    ensures ds.Valid() && ds.duration == old(ds.duration)
    ensures forall y :: y in ds.scheduledDispatch <==> y in old(ds.scheduledDispatch) || y in AddedSlots(p2, offset, extra)
    ensures StrictlyAscending(old(ds.scheduledDispatch)) ==> StrictlyAscending(ds.scheduledDispatch)
    ensures ds.CurrentWindow() == old(ds.CurrentWindow()) || ds.HoldsNow(clock)
  {
    var slot := p2;
    ghost var orig, d0, w0 := ds.scheduledDispatch, ds.duration, ds.CurrentWindow();
    ghost var prev;
    ds.AddScheduledDispatch(slot, clock);
    var i := 0;
    while i < extra
      invariant 0 <= i <= extra
      invariant slot == SlotAt(p2, offset, i)
      invariant ds.Valid() && ds.duration == d0
      invariant HoldsAdded(ds.scheduledDispatch, orig, p2, offset, i)
      invariant StrictlyAscending(orig) ==> StrictlyAscending(ds.scheduledDispatch)
      invariant ds.CurrentWindow() == w0 || ds.HoldsNow(clock)
    {
      prev := ds.scheduledDispatch;
      slot := AddNextSlot(ds, slot, offset, clock);
      assert slot == SlotAt(p2, offset, i + 1);
      AddedSlotsGrow(orig, prev, ds.scheduledDispatch, p2, offset, i);
      i := i + 1;
    }
  }

  /** CmdScheduledDispatchAdd: adds `p2` and, for k = 1 .. extra, `p2 + k*offset`
      (uint32 arithmetic) to the addressed schedule. */
  method CmdScheduledDispatchAdd(vehicleOk: bool, ownerOk: bool, list: OrderList?,
                                 p1: uint32, p2: uint32, p3: uint64, exec: bool, clock: Clock)
    returns (r: CommandCost)
    requires list != null ==> list.Valid()
    requires ClockOk(clock)
    modifies if list != null && ScheduleIndexOf(p1) < |list.schedules|
             then {list.schedules[ScheduleIndexOf(p1)]} else {}
    ensures r == CheckAdd(vehicleOk, ownerOk, list != null, Count(list), ScheduleIndexOf(p1),
                          SlotOffsetOf(p3), ExtraSlotsOf(p3))
    ensures list != null ==> list.Valid()
    ensures list != null && ScheduleIndexOf(p1) < |list.schedules| && !(exec && r == Success) ==>
      var ds := list.schedules[ScheduleIndexOf(p1)];
      ds.scheduledDispatch == old(ds.scheduledDispatch) && ds.duration == old(ds.duration) &&
      ds.startTick == old(ds.startTick) && ds.lastDispatch == old(ds.lastDispatch)
    ensures exec && r == Success ==>
      var ds := list.schedules[ScheduleIndexOf(p1)];
      (forall y :: y in ds.scheduledDispatch <==>
        y in old(ds.scheduledDispatch) || y in AddedSlots(p2, SlotOffsetOf(p3), ExtraSlotsOf(p3))) &&
      (StrictlyAscending(old(ds.scheduledDispatch)) ==> StrictlyAscending(ds.scheduledDispatch)) &&
      ds.duration == old(ds.duration) &&
      (ds.CurrentWindow() == old(ds.CurrentWindow()) || ds.HoldsNow(clock))
  {
    var index := ScheduleIndexOf(p1);
    var offset, extra := SlotOffsetOf(p3), ExtraSlotsOf(p3);
    r := CheckAdd(vehicleOk, ownerOk, list != null, Count(list), index, offset, extra);
    if !exec || r != Success {
      return;
    }
    AddSlots(list.schedules[index], p2, offset, extra, clock);
  }

  /** CmdScheduledDispatchRemove: removes slot `p2` from the addressed schedule. */
  method CmdScheduledDispatchRemove(vehicleOk: bool, ownerOk: bool, list: OrderList?,
                                    p1: uint32, p2: uint32, exec: bool)
    returns (r: CommandCost)
    requires list != null ==> list.Valid()
    modifies if list != null && ScheduleIndexOf(p1) < |list.schedules|
             then {list.schedules[ScheduleIndexOf(p1)]} else {}
    ensures r == CheckSchedule(vehicleOk, ownerOk, list != null, Count(list), ScheduleIndexOf(p1))
    ensures list != null ==> list.Valid()
    ensures list != null && ScheduleIndexOf(p1) < |list.schedules| && !(exec && r == Success) ==>
      var ds := list.schedules[ScheduleIndexOf(p1)];
      ds.scheduledDispatch == old(ds.scheduledDispatch) && ds.duration == old(ds.duration) &&
      ds.startTick == old(ds.startTick) && ds.lastDispatch == old(ds.lastDispatch)
    ensures exec && r == Success ==>
      var ds := list.schedules[ScheduleIndexOf(p1)];
      ds.scheduledDispatch == RemoveSlot(old(ds.scheduledDispatch), p2) &&
      ds.duration == old(ds.duration) && ds.CurrentWindow() == old(ds.CurrentWindow())
  {
    r := CheckSchedule(vehicleOk, ownerOk, list != null, Count(list), ScheduleIndexOf(p1));
    if exec && r == Success {
      list.schedules[ScheduleIndexOf(p1)].RemoveScheduledDispatch(p2);
    }
  }

  /** CmdScheduledDispatchResetLastDispatch: sets the last dispatch to 0. */
  method CmdScheduledDispatchResetLastDispatch(vehicleOk: bool, ownerOk: bool, list: OrderList?,
                                               p1: uint32, exec: bool)
    returns (r: CommandCost)
    requires list != null ==> list.Valid()
    modifies if list != null && ScheduleIndexOf(p1) < |list.schedules|
             then {list.schedules[ScheduleIndexOf(p1)]} else {}
    ensures r == CheckSchedule(vehicleOk, ownerOk, list != null, Count(list), ScheduleIndexOf(p1))
    ensures list != null ==> list.Valid()
    ensures list != null && ScheduleIndexOf(p1) < |list.schedules| && !(exec && r == Success) ==>
      var ds := list.schedules[ScheduleIndexOf(p1)];
      ds.scheduledDispatch == old(ds.scheduledDispatch) && ds.duration == old(ds.duration) &&
      ds.startTick == old(ds.startTick) && ds.lastDispatch == old(ds.lastDispatch)
    ensures exec && r == Success ==>
      var ds := list.schedules[ScheduleIndexOf(p1)];
      ds.lastDispatch == 0 && ds.startTick == old(ds.startTick) &&
      ds.scheduledDispatch == old(ds.scheduledDispatch) && ds.duration == old(ds.duration)
  {
    r := CheckSchedule(vehicleOk, ownerOk, list != null, Count(list), ScheduleIndexOf(p1));
    if exec && r == Success {
      list.schedules[ScheduleIndexOf(p1)].SetScheduledDispatchLastDispatch(0);
    }
  }

  /** CmdScheduledDispatchAddNewSchedule: appends a schedule with duration `p2`
      starting at `startTick`, then normalises it; refused once 4096 exist. */
  method CmdScheduledDispatchAddNewSchedule(vehicleOk: bool, ownerOk: bool, list: OrderList?,
                                            p2: uint32, startTick: int, exec: bool, clock: Clock)
    returns (r: CommandCost)
    requires list != null ==> list.Valid()
    requires ClockOk(clock)
    modifies list
    ensures r == CheckAddNewSchedule(vehicleOk, ownerOk, list != null, old(Count(list)))
    ensures list != null ==> list.Valid() && list.orderScheduleIndex == old(list.orderScheduleIndex)
    ensures list != null && !(exec && r == Success) ==> list.schedules == old(list.schedules)
    ensures exec && r == Success ==>
      |list.schedules| == old(|list.schedules|) + 1 &&
      list.schedules[..old(|list.schedules|)] == old(list.schedules) &&
      var ds := list.schedules[old(|list.schedules|)];
      fresh(ds) && ds.scheduledDispatch == [] && ds.duration == p2 &&
      ds.CurrentWindow() == WindowAfterUpdate(Window(startTick, 0), clock, p2)
  {
    r := CheckAddNewSchedule(vehicleOk, ownerOk, list != null, Count(list));
    if !exec || r != Success {
      return;
    }
    var ds := new DispatchSchedule();
    ds.SetScheduledDispatchDuration(p2);
    ds.startTick := startTick;
    ds.UpdateScheduledDispatch(clock);
    list.schedules := list.schedules + [ds];
  }

  /** CmdScheduledDispatchRemoveSchedule: erases the addressed schedule; orders
      that used it get -1, orders using a later one move down by one. */
  method CmdScheduledDispatchRemoveSchedule(vehicleOk: bool, ownerOk: bool, list: OrderList?,
                                            p1: uint32, exec: bool)
    returns (r: CommandCost)
    requires list != null ==> list.Valid()
    modifies list
    ensures r == CheckSchedule(vehicleOk, ownerOk, list != null, old(Count(list)), ScheduleIndexOf(p1))
    ensures list != null ==> list.Valid()
    ensures list != null && !(exec && r == Success) ==>
      list.schedules == old(list.schedules) && list.orderScheduleIndex == old(list.orderScheduleIndex)
    ensures exec && r == Success ==>
      var index := ScheduleIndexOf(p1);
      list.schedules == old(list.schedules[..index] + list.schedules[index + 1..]) &&
      |list.orderScheduleIndex| == old(|list.orderScheduleIndex|) &&
      forall i :: 0 <= i < |list.orderScheduleIndex| ==>
        list.orderScheduleIndex[i] == RenumberedIndex(old(list.orderScheduleIndex[i]), index)
  {
    var index := ScheduleIndexOf(p1);
    r := CheckSchedule(vehicleOk, ownerOk, list != null, Count(list), index);
    if !exec || r != Success {
      return;
    }
    list.schedules := list.schedules[..index] + list.schedules[index + 1..];
    var orders := list.orderScheduleIndex;
    var i := 0;
    while i < |orders|
      invariant 0 <= i <= |orders| && |orders| == old(|list.orderScheduleIndex|)
      invariant forall k :: 0 <= k < i ==> orders[k] == RenumberedIndex(old(list.orderScheduleIndex[k]), index)
      invariant forall k :: i <= k < |orders| ==> orders[k] == old(list.orderScheduleIndex[k])
    {
      var idx := orders[i];
      if idx == index {
        orders := orders[i := -1];
      } else if idx > index {
        orders := orders[i := idx - 1];
      }
      i := i + 1;
    }
    list.orderScheduleIndex := orders;
  }
}
