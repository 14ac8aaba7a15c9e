# Scheduled dispatch, GUI lists, SmallMap and the script registry, in Dafny

This project models four pieces of OpenTTD's sequential bookkeeping and proves what they promise:

- **Scheduled dispatch** (`schdispatch.dfy`, module `SchDispatch`).
  - A `DispatchSchedule` holds:
    - the sorted list of `uint32` slot offsets, kept by lower-bound insert and erase;
    - the duration;
    - the start tick;
    - the saturating `int32` last-dispatch value.
  - The window normaliser `UpdateScheduledDispatchToDate` moves the start tick by whole durations until the current tick lies inside the window, and moves last-dispatch the opposite way.
  - The command handlers are modelled as validation plus an effect on an `OrderList`: add slots (including the multi-slot add), remove a slot, reset last dispatch, add a schedule and remove a schedule.
- **GUI sortable list** (`sortlist.dfy`, module `SortList`). `GUIList` keeps its items in an `array`, the `VL_*` flag byte, the sort type and the `uint16` resort timer. It provides:
  - the in-place `Reverse`;
  - the first sort, a qsort, reversed for a descending list;
  - the gnome sort with its jump-back offset, used for later sorts;
  - the flag and timer rules.
- **SmallMap** (`smallmap.dfy`, module `SmallMapType`). This is an association list over a sequence of pairs: `Find`, `Contains`, `Insert`, `Erase` by position and by key, and `operator[]` (`At`). Positions stand for OpenTTD's pointers and iterators, and position `|pairs|` is `End()`.
- **Script registry** (`script_scanner.dfy`, module `ScriptScanning`), covering:
  - the main-script path derived from a scanned file;
  - `RegisterScript`'s two maps: every `name.version` (first registration wins), and the newest eligible version per name;
  - the 32-bit id packed from the short name;
  - the XOR combination of file digests in `ScriptFileChecksumCreator`;
  - `IsSameScript`, `HasScript` and `FindMainScript`.

`ints.dfy` (module `Ints`) holds the fixed-width integer types, the `int32` clamp behind the saturating additions of `OverflowSafeInt32`, and small facts about `%`.

Where the comments and the code disagree, the model follows the code:

- `SmallMap::Erase` says the last item is moved into the hole, but it calls `vector::erase`, which keeps the order. The model keeps the order.
- `AddScheduledDispatch` normalises the window after every insertion, whatever the start tick.
- The first start tick uses C++'s truncating `%`. It is modelled by `TruncMod`, not by Dafny's Euclidean `%`.

## Model

| member | source | states |
|---|---|---|
| SchDispatch.InsertSlot | src/schdispatch_cmd.cpp:431-440 | reference definition of the slot list after adding an offset: unchanged when present, otherwise placed before the first larger slot; AddScheduledDispatch and InsertAtLowerBound are proved against it and the InsertSlot* lemmas state its properties |
| SchDispatch.InsertSlotContents | src/schdispatch_cmd.cpp:431-440 | adding an offset to a sorted slot list adds it once, or not at all when it is present (as multisets) |
| SchDispatch.InsertSlotMembers | src/schdispatch_cmd.cpp:431-440 | the slots after an add are exactly the old slots and the offset |
| SchDispatch.InsertSlotOrdered | src/schdispatch_cmd.cpp:433-438 | adding keeps the list sorted, and strictly ascending if it was |
| SchDispatch.RemoveSlot | src/schdispatch_cmd.cpp:446-454 | reference definition of the slot list after removing an offset: the first occurrence before a larger slot goes, nothing else; RemoveScheduledDispatch and RemoveAtLowerBound are proved against it and the RemoveSlot* lemmas state its properties |
| SchDispatch.RemoveSlotContents | src/schdispatch_cmd.cpp:446-454 | removing takes away one copy of the offset if present and nothing else (as multisets) |
| SchDispatch.RemoveSlotSubset | src/schdispatch_cmd.cpp:446-454 | every slot left after a removal was there before |
| SchDispatch.RemoveSlotOrdered | src/schdispatch_cmd.cpp:448-453 | removing keeps the list sorted, and strictly ascending if it was |
| SchDispatch.RemoveSlotMembers | src/schdispatch_cmd.cpp:446-454 | on a strictly ascending list, a slot remains iff it was there and differs from the offset |
| SchDispatch.LowerBound | src/schdispatch_cmd.cpp:434 | the binary search returns the lower-bound position: slots before it are smaller, slots from it on are at least the offset |
| SchDispatch.LowerBoundFinds | src/schdispatch_cmd.cpp:435 | in a sorted list the offset is present iff the slot at its lower bound equals it |
| SchDispatch.InsertAtLowerBound | src/schdispatch_cmd.cpp:434-438 | skipping an equal slot at the lower bound, else inserting there, is the sorted insert |
| SchDispatch.RemoveAtLowerBound | src/schdispatch_cmd.cpp:449-453 | erasing an equal slot at the lower bound, else nothing, is the sorted removal |
| SchDispatch.InsertSlotIdempotent | src/schdispatch_cmd.cpp:435-437 | adding the same offset twice leaves the list as one add does |
| SchDispatch.TruncMod | src/schdispatch_cmd.cpp:460 | the C++ remainder has the sign of the dividend, lies strictly between -d and d, and differs from the dividend by a multiple of d |
| SchDispatch.CeilDiv | src/schdispatch_cmd.cpp:468 | the ceiling quotient times the divisor covers the numerator by less than one divisor |
| SchDispatch.InitialStart | src/schdispatch_cmd.cpp:459-460 | the first start is a multiple of the duration, at or below a non-negative now, at or above a negative now, within one duration |
| SchDispatch.InitialLastDispatch | src/schdispatch_cmd.cpp:464-471 | the first last-dispatch is the clamped negated start; with minutes shown and an underflow, it is instead congruent to minus the start modulo a day and lies in [INT_MIN, INT_MIN + day) |
| SchDispatch.NormalisedStart | src/schdispatch_cmd.cpp:473-492 | the normalised start differs from the old start by whole durations and has now in [start, start + duration) |
| SchDispatch.WindowUnique | src/schdispatch_cmd.cpp:473-492 | only one start congruent to the old start holds now, so the loops have one possible outcome |
| SchDispatch.UpdateContainsNow | src/schdispatch_cmd.cpp:473-492 | after an update with a positive duration, start <= now < start + duration |
| SchDispatch.UpdateKeepsOrHolds | src/schdispatch_cmd.cpp:456-504 | the corrected normaliser leaves the window as it was (duration 0) or makes it hold now |
| SchDispatch.WindowAfterUpdate | src/schdispatch_cmd.cpp:456-504 | reference definition of the corrected normaliser's result: duration 0 keeps the window, otherwise the sentinel start is initialised and the start is moved into the window holding now; UpdateScheduledDispatch is proved to produce it and the Update* lemmas state its properties |
| SchDispatch.StartAfterInit | src/schdispatch_cmd.cpp:459-460 | reference definition: a zero start is replaced by the initial start for the current tick, any other start is kept; UpdateScheduledDispatchToDate's change flag is proved against it |
| SchDispatch.LastDispatchAfterInit | src/schdispatch_cmd.cpp:459-471 | reference definition: with a zero start, last dispatch is set from the initial start, otherwise it is kept; WindowAfterUpdate builds on it |
| SchDispatch.ZeroStartIsInitialisedAgain | src/schdispatch_cmd.cpp:459-472 | a start normalised to exactly 0 is read as the unset sentinel by the next update, which initialises it again and resets last dispatch |
| SchDispatch.UpdateIdempotent | src/schdispatch_cmd.cpp:456-494 | a second update at the same tick changes nothing, unless the start is the 0 sentinel |
| SchDispatch.UpdateKeepsCurrentWindow | src/schdispatch_cmd.cpp:474-492 | a window that already holds now (with a non-zero start) is left unchanged |
| SchDispatch.LoopsSettleWithin | src/schdispatch_cmd.cpp:474-492 | the two loops as written, for any duration including 0: whether both guards turn false within a given number of iterations. ZeroDurationNeverSettles and PositiveDurationSettles are about it |
| SchDispatch.ZeroDurationNeverSettles | src/schdispatch_cmd.cpp:474-492 | with duration 0, the two loops as written do not finish within any number of iterations |
| SchDispatch.PositiveDurationSettles | src/schdispatch_cmd.cpp:474-492 | with a positive duration, the loops finish within the number of whole durations between start and now, plus one |
| Ints.ClampToI32 | src/schdispatch_cmd.cpp:470 | a value inside the int32 range is kept, one below it becomes INT32_MIN and one above it INT32_MAX |
| Ints.SaturatingAdd | src/schdispatch_cmd.cpp:475-477 | reference definition of `+=`/`-=` on an OverflowSafeInt32 (lines 475-477 and 485-487): the sum clamped to the int32 range; SaturatingAddTwice and WindowAfterUpdate build on it |
| Ints.SaturatingAddTwice | src/schdispatch_cmd.cpp:474-492 | two saturating int32 steps in the same direction give the one clamped sum, so the loops' repeated moves of last dispatch saturate like one move |
| SchDispatch.DispatchSchedule.constructor | src/schdispatch_cmd.cpp:361 | a new schedule has no slots, duration 0, start 0 and last dispatch 0 |
| SchDispatch.DispatchSchedule.SetScheduledDispatchDuration | src/schdispatch_cmd.cpp:363 | sets the duration and nothing else |
| SchDispatch.DispatchSchedule.SetScheduledDispatchLastDispatch | src/schdispatch_cmd.cpp:291 | sets last dispatch and nothing else |
| SchDispatch.DispatchSchedule.UpdateScheduledDispatchToDate | src/schdispatch_cmd.cpp:456-494 | the loops leave the window given by the normaliser; the result is true iff the start moved by at least one duration, so initialisation alone gives false |
| SchDispatch.DispatchSchedule.UpdateScheduledDispatch | src/schdispatch_cmd.cpp:499-504 | corrected: normalises only with a positive duration, and leaves the window as the normaliser says (duration 0: unchanged) |
| SchDispatch.DispatchSchedule.SetScheduledDispatch | src/schdispatch_cmd.cpp:420-425 | stores the sorted list and normalises the window when the schedule is valid |
| SchDispatch.DispatchSchedule.AddScheduledDispatch | src/schdispatch_cmd.cpp:431-440 | the list becomes the sorted insert of the offset, holds exactly the old slots and the offset, and stays sorted (strictly ascending if it was); a present offset returns before normalising; otherwise the window is normalised, so it is unchanged or holds now |
| SchDispatch.DispatchSchedule.RemoveScheduledDispatch | src/schdispatch_cmd.cpp:446-454 | the list becomes the sorted removal of the offset and stays sorted; the window is untouched |
| SchDispatch.VehicleOf | src/schdispatch_cmd.cpp:84 | GB(p1, 0, 20): the vehicle index is below 2^20 |
| SchDispatch.ScheduleIndexOf | src/schdispatch_cmd.cpp:85 | GB(p1, 20, 12): the schedule index is below 4096, the most schedules a list can hold |
| SchDispatch.SlotOffsetOf | src/schdispatch_cmd.cpp:86 | GB(p3, 0, 32): the slot offset, as a uint32; P3Fields is about it |
| SchDispatch.ExtraSlotsOf | src/schdispatch_cmd.cpp:87 | GB(p3, 32, 16): the number of extra slots is below 2^16 |
| SchDispatch.P3Fields | src/schdispatch_cmd.cpp:86-87 | p3 is its slot offset plus the extra-slot count times 2^32 plus its ignored top 16 bits, so the two fields are disjoint and lose nothing else |
| SchDispatch.PackP1 | src/schdispatch_cmd.cpp:84-85 | a vehicle below 2^20 and a schedule index below 4096 packed into p1 decode back through GB(p1, 0, 20) and GB(p1, 20, 12) |
| SchDispatch.CheckSchedule | src/schdispatch_cmd.cpp:124-137 | succeeds iff the vehicle is valid, owned, has an order list and the index is below the schedule count; the ownership error is returned iff the vehicle is valid but not owned |
| SchDispatch.CheckAdd | src/schdispatch_cmd.cpp:89-100 | succeeds iff the schedule checks pass, extra slots <= 512 and not (extra > 0 with offset 0); the too-many-slots error comes exactly when the checks pass and extra > 512 |
| SchDispatch.CheckAddNewSchedule | src/schdispatch_cmd.cpp:346-355 | succeeds iff the vehicle is valid, owned, has an order list and fewer than 4096 schedules |
| SchDispatch.SlotAt | src/schdispatch_cmd.cpp:105-107 | reference definition of the k-th slot the add loop writes (p2 advanced k times with 32-bit wrap-around); SlotAtClosedForm and AddSlots are proved against it |
| SchDispatch.AddedSlots | src/schdispatch_cmd.cpp:102-108 | reference definition of the set of slots the add loop writes, SlotAt(p2, offset, k) for k = 0 .. n; AddSlots and AddedSlotsGrow are stated with it |
| SchDispatch.SlotAtClosedForm | src/schdispatch_cmd.cpp:105-107 | the k-th slot reached by repeated `p2 += offset` is (p2 + k * offset) mod 2^32 |
| SchDispatch.AddedSlotsGrow | src/schdispatch_cmd.cpp:105-107 | adding the next slot to a list with the slots it started with and the first k + 1 added ones gives the slots it started with and the first k + 2 |
| SchDispatch.AddNextSlot | src/schdispatch_cmd.cpp:106-107 | one round of the loop: the slot advances by the offset modulo 2^32 and joins the list, which stays sorted; the window is unchanged or holds now |
| SchDispatch.RenumberedIndex | src/schdispatch_cmd.cpp:401-407 | the index an order keeps after a schedule is erased: the specification of the renumbering loop. RenumberKeepsTarget and CmdScheduledDispatchRemoveSchedule are proved against it |
| SchDispatch.RenumberKeepsTarget | src/schdispatch_cmd.cpp:398-408 | after the erase, an order that used another schedule still points at the same schedule |
| SchDispatch.AddSlots | src/schdispatch_cmd.cpp:102-108 | the slots afterwards are the old ones plus p2 + k * offset (mod 2^32) for k = 0 .. extra; the list stays sorted (strictly ascending if it was); the window is unchanged or holds now |
| SchDispatch.CmdScheduledDispatchAdd | src/schdispatch_cmd.cpp:82-113 | returns the validation result; when executed and valid, the addressed schedule gets exactly the slots of AddSlots, keeps its duration, and its window is unchanged or holds now; on a dry run or a failed validation the schedule's slots, duration, start and last dispatch are unchanged; the order list stays valid |
| SchDispatch.CmdScheduledDispatchRemove | src/schdispatch_cmd.cpp:124-145 | returns the validation result; when executed and valid, the addressed schedule's list is the sorted removal of p2 and its duration, start and last dispatch are kept; on a dry run or a failed validation the schedule is unchanged |
| SchDispatch.CmdScheduledDispatchResetLastDispatch | src/schdispatch_cmd.cpp:275-296 | returns the validation result; when executed and valid, last dispatch becomes 0 and nothing else changes; on a dry run or a failed validation the schedule is unchanged |
| SchDispatch.CmdScheduledDispatchAddNewSchedule | src/schdispatch_cmd.cpp:344-371 | refused at 4096 schedules (so every index fits the 12-bit field); when executed, appends a new empty schedule with duration p2 whose window is the normalised one |
| SchDispatch.CmdScheduledDispatchRemoveSchedule | src/schdispatch_cmd.cpp:383-414 | returns the validation result; when executed, the schedule is erased and every order index is renumbered as RenumberedIndex says |
| SortList.SwapFixesPair | src/sortlist_type.h:232-233 | with an antisymmetric comparator, a swapped out-of-order pair is in order |
| SortList.Reversed | src/sortlist_type.h:59-69 | the reversal keeps the length and puts item i at position n - 1 - i |
| SortList.ReversedTwice | src/sortlist_type.h:175-180 | reversing twice gives the items back |
| SortList.ShortListIsItsOwnReversal | src/sortlist_type.h:42-45 | a list of fewer than two items is its own reversal, so the IsSortable guard before reversing loses nothing |
| SortList.ReversedPermutes | src/sortlist_type.h:59-69 | reversing keeps the same items |
| SortList.ReversedFlipsOrder | src/sortlist_type.h:206-210 | an ascending list read backwards is in descending order |
| SortList.InsertOrderedFacts | src/sortlist_type.h:206-207 | inserting into an ascending list adds the item and keeps it ascending |
| SortList.SortedBy | src/sortlist_type.h:206-210 | reference definition of the first sort's ascending result (an insertion sort); SortedByFacts proves it an ordered permutation and Sort is proved against it |
| SortList.SortedByFacts | src/sortlist_type.h:206-207 | the first sort yields an ascending permutation of the items |
| SortList.CountDown | src/sortlist_type.h:141-149 | the timer after one NeedResort call is never 0, since reaching 0 resets it to ten days; ResortAfterTimerCalls is about repeated calls |
| SortList.TimerAfter | src/sortlist_type.h:141-149 | reference definition of the resort timer after k NeedResort calls; ResortAfterTimerCalls is stated with it |
| SortList.ResortAfterTimerCalls | src/sortlist_type.h:141-149 | from timer t, the first t - 1 calls only count down and the t-th resets the timer to ten days |
| SortList.GnomeJump | src/sortlist_type.h:222-227 | jumping back to the switch point keeps the gnome invariant with a pair in order at the new position |
| SortList.GnomeAdvance | src/sortlist_type.h:229-231 | a pair in order extends the sorted prefix |
| SortList.GnomeSwap | src/sortlist_type.h:232-238 | swapping an out-of-order pair puts it in order and keeps the invariant one place back |
| SortList.SwapPermutes | src/sortlist_type.h:236 | swapping two items keeps the same items |
| SortList.GnomeDone | src/sortlist_type.h:219 | when the remaining length is 1, every adjacent pair is in order |
| SortList.GUIList.constructor | src/sortlist_type.h:72-77 | a new list has flags VL_FIRST_SORT, sort type 0 and timer 1 |
| SortList.GUIList.IsSortable | src/sortlist_type.h:42-45 | at least two items; the precondition of Reverse and GnomeSort. ShortListIsItsOwnReversal shows that skipping shorter lists loses nothing |
| SortList.GUIList.SortType | src/sortlist_type.h:84-87 | the stored sort type; SetSortType, SetListing and GetListing are proved against it |
| SortList.GUIList.IsDescSortOrder | src/sortlist_type.h:165-168 | whether VL_DESC is set; ToggleSortOrder flips it and SetListing sets it from the listing |
| SortList.GUIList.NeedRebuild | src/sortlist_type.h:267-270 | whether VL_REBUILD is set; ForceRebuild makes it true and RebuildDone false |
| SortList.GUIList.GetListing | src/sortlist_type.h:107-114 | the specification SetListing is proved against: the listing's order is IsDescSortOrder and its criterion is SortType |
| SortList.GUIList.ResetResortTimer | src/sortlist_type.h:50-54 | the timer becomes DAY_TICKS * 10 = 740 and nothing else changes |
| SortList.GUIList.Reverse | src/sortlist_type.h:59-69 | on a sortable list, the array afterwards is the reversal of the array before |
| SortList.GUIList.SetSortType | src/sortlist_type.h:94-100 | afterwards SortType returns the new type; VL_RESORT and VL_FIRST_SORT are raised iff the type changes; the order and rebuild flags are kept |
| SortList.GUIList.SetListing | src/sortlist_type.h:121-131 | afterwards GetListing returns the given listing and VL_FIRST_SORT is set; other flags are kept |
| SortList.GUIList.NeedResort | src/sortlist_type.h:141-149 | true iff the timer was 1; the timer follows CountDown; VL_RESORT is raised exactly when true |
| SortList.GUIList.ForceResort | src/sortlist_type.h:155-158 | raises VL_RESORT and nothing else |
| SortList.GUIList.ForceRebuild | src/sortlist_type.h:275-278 | raises VL_REBUILD, so NeedRebuild holds, and changes nothing else |
| SortList.GUIList.RebuildDone | src/sortlist_type.h:285-289 | clears VL_REBUILD and raises VL_RESORT |
| SortList.GUIList.ToggleSortOrder | src/sortlist_type.h:175-180 | the flags and items become Toggled of the old ones: VL_DESC flipped, and the items reversed when sortable; IsDescSortOrder flips |
| SortList.GUIList.GnomeSort | src/sortlist_type.h:213-240 | terminates, leaves a permutation of the items, and every adjacent pair is in order (compare <= 0, or >= 0 when descending) |
| SortList.GUIList.Sort | src/sortlist_type.h:192-241 | changes nothing without VL_RESORT; otherwise clears VL_RESORT, resets the timer even for fewer than two items, keeps the items as a permutation in the listing's order; the first sort is the ascending sort, reversed when descending |
| SortList.Toggled | src/sortlist_type.h:175-180 | the state change of ToggleSortOrder, which the method is proved against |
| SortList.ToggleSortOrderTwice | src/sortlist_type.h:175-180 | applying ToggleSortOrder's state change twice restores the flags and the items |
| SmallMapType.FirstIndex | src/core/smallmap_type.hpp:51-57 | the position of the first pair with the key, every earlier pair differs, or the size when there is none |
| SmallMapType.AppendKeepsUnique | src/core/smallmap_type.hpp:123-128 | appending an absent key keeps keys unique and adds exactly that key |
| SmallMapType.EraseKeepsUnique | src/core/smallmap_type.hpp:95-100 | erasing a position keeps keys unique and removes exactly its key |
| SmallMapType.FirstIndexAfterAppend | src/core/smallmap_type.hpp:136-144 | after appending an absent key, the lookup finds it at the end and finds other keys where they were |
| SmallMapType.SmallMap.constructor | src/core/smallmap_type.hpp:32 | a new map is empty |
| SmallMapType.SmallMap.Contains | src/core/smallmap_type.hpp:75-88 | true iff some pair has the key |
| SmallMapType.SmallMap.Find | src/core/smallmap_type.hpp:41-57 | the first pair with the key, or End() exactly when none has it |
| SmallMapType.SmallMap.EraseAt | src/core/smallmap_type.hpp:95-100 | for a position in [0, End()), removes that pair and keeps the order of the others; unique keys stay unique and lose exactly that key |
| SmallMapType.SmallMap.Erase | src/core/smallmap_type.hpp:108-115 | true iff the key was present; then its first pair is removed, otherwise nothing changes; uniqueness is kept |
| SmallMapType.SmallMap.Insert | src/core/smallmap_type.hpp:123-128 | false and no change when the key is present; otherwise appends the pair and returns true; uniqueness is kept |
| SmallMapType.SmallMap.At | src/core/smallmap_type.hpp:136-144 | a present key is found in place with the map unchanged; an absent one is appended with the default value; uniqueness is kept |
| ScriptScanning.LastSep | src/script/script_scanner.cpp:32 | the position of the last separator, or -1 when there is none |
| ScriptScanning.LastSepUnique | src/script/script_scanner.cpp:32 | a separator with none after it is the last separator |
| ScriptScanning.MainScriptPath | src/script/script_scanner.cpp:32-34 | the file name cut after its last separator (or emptied), followed by main.nut; MainScriptSameDirectory is about it |
| ScriptScanning.MainScriptSameDirectory | src/script/script_scanner.cpp:29-34 | the main script keeps the scanned file's directory part, and deriving it again gives the same path |
| ScriptScanning.CStrLen | src/script/script_scanner.cpp:101 | strlen counts the bytes before the first NUL |
| ScriptScanning.DigitsRoundTrip | src/script/script_scanner.cpp:98 | the decimal digits of a number read back to the number |
| ScriptScanning.DecimalRoundTrip | src/script/script_scanner.cpp:98 | the formatted version reads back to the version |
| ScriptScanning.ScriptKey | src/script/script_scanner.cpp:98 | the key `name.version`; KeyLastDot and ScriptKeyInjective are about it |
| ScriptScanning.KeyLastDot | src/script/script_scanner.cpp:98 | the dot between name and version is the key's last dot |
| ScriptScanning.ScriptKeyInjective | src/script/script_scanner.cpp:98 | equal keys mean equal names and versions |
| ScriptScanning.AsciiIdIsLittleEndian | src/script/script_scanner.cpp:209-211 | for bytes below 0x80, the packed id is the little-endian packing of the bytes |
| ScriptScanning.LittleEndianBytes | src/script/script_scanner.cpp:211 | byte j of a little-endian packing is the j-th byte |
| ScriptScanning.ShortNameId | src/script/script_scanner.cpp:209-211 | reference definition of the id packed from up to four short-name bytes; ShortNameIdDecodes and IsSameScript are stated with it |
| ScriptScanning.ShortNameIdDecodes | src/script/script_scanner.cpp:209-211 | a four-character ASCII short name can be read back from its id |
| ScriptScanning.SignExtend | src/script/script_scanner.cpp:211 | reference definition of a signed `char` promoted to int: bytes from 0x80 up fill the upper 24 bits with ones; ShortNameId and HighByteSwallowsLaterBytes use it |
| ScriptScanning.HighByteSwallowsLaterBytes | src/script/script_scanner.cpp:211 | a byte from 0x80 up is sign-extended and hides the later bytes, so two different names share an id |
| ScriptScanning.PackShortName | src/script/script_scanner.cpp:209-211 | the loop packs at most four bytes, stopping at NUL, into the specified id |
| ScriptScanning.XorDigest | src/script/script_scanner.cpp:193 | reference definition of XOR-ing one digest into another byte by byte; XorDigestFacts states its algebra |
| ScriptScanning.XorDigestFacts | src/script/script_scanner.cpp:193 | XOR of digests is commutative and associative, zero is neutral, and a digest cancels itself |
| ScriptScanning.XorAll | src/script/script_scanner.cpp:165-196 | reference definition of the checksum: the XOR of the digests in order; the XorAll* lemmas and IsSameScript are stated with it |
| ScriptScanning.XorAllAppend | src/script/script_scanner.cpp:193 | the checksum of two groups of files is the XOR of their checksums |
| ScriptScanning.XorAllMoveLast | src/script/script_scanner.cpp:193 | moving one file to the end does not change the checksum |
| ScriptScanning.XorAllOrderIndependent | src/script/script_scanner.cpp:165-169 | files in any order (the same multiset) give the same checksum |
| ScriptScanning.XorAllTwiceCancels | src/script/script_scanner.cpp:193 | a file counted twice cancels out |
| ScriptScanning.ChecksumCreator.constructor | src/script/script_scanner.cpp:165-169 | the checksum starts at sixteen zero bytes |
| ScriptScanning.ChecksumCreator.AddFile | src/script/script_scanner.cpp:172-196 | false with the checksum unchanged when the file cannot be opened; otherwise the digest is XOR-ed in |
| ScriptScanning.SameScript | src/script/script_scanner.cpp:207-243 | reference definition of IsSameScript's answer: the ids agree and, when asked, the checksum of the openable files equals the expected one; IsSameScript and the scanner's search are proved against it |
| ScriptScanning.IsSameScript | src/script/script_scanner.cpp:207-243 | true iff the packed id matches and, when asked, the XOR of the openable files' digests equals the expected checksum |
| ScriptScanning.Eligible | src/script/script_scanner.cpp:130 | reference definition: a script enters the newest-version list unless it is developer-only with the developer tools off; RegisteredSingle and RegistriesValid are stated with it |
| ScriptScanning.Accepted | src/script/script_scanner.cpp:101-107 | reference definition: RegisterScript takes a script with a four-character short name and a name and version not yet registered; RegisteredList and RegisteredSingle are stated with it |
| ScriptScanning.BecomesNewest | src/script/script_scanner.cpp:133-137 | reference definition: an eligible accepted script replaces its name's entry when there is none or it has a strictly lower version; RegisteredSingle is stated with it |
| ScriptScanning.RegisteredList | src/script/script_scanner.cpp:101-128 | registering keeps every existing entry (first wins) and adds only the new key, mapped to the script, and only for a four-character short name |
| ScriptScanning.RegisteredSingle | src/script/script_scanner.cpp:130-139 | registering keeps every name of the newest-version list and never lowers an entry's version; an entry that changes or appears is the new script, under its own name, eligible and accepted |
| ScriptScanning.RegisterKeepsNewestRegistered | src/script/script_scanner.cpp:128-139 | every newest-version entry is eligible, is under its own name, and is also registered under its own key |
| ScriptScanning.RegisterKeepsNoneNewer | src/script/script_scanner.cpp:130-139 | no eligible registered script is newer than the entry for its name |
| ScriptScanning.RegisterKeepsValid | src/script/script_scanner.cpp:95-140 | registering keeps the registries' invariant |
| ScriptScanning.RegisteredAll | src/script/script_scanner.cpp:95-140 | both registries after a sequence of registrations: every script already in the list of every script keeps its entry |
| ScriptScanning.RegisteredAllKeepsValid | src/script/script_scanner.cpp:95-140 | any sequence of registrations, such as the ones a script load makes, keeps the registries' invariant |
| ScriptScanning.ScriptScanner.constructor | src/script/script_scanner.cpp:48-51 | both lists start empty and satisfy the invariant |
| ScriptScanning.ScriptScanner.AddFile | src/script/script_scanner.cpp:27-46 | the main script is the file's directory plus main.nut; success iff both files exist and the load ends without a fatal error; when both files exist the registries become RegisteredAll of the scripts the load registers, each carrying this call's main script, and otherwise they are untouched; the invariant is kept |
| ScriptScanning.ScriptScanner.RegisterEach | src/script/script_scanner.cpp:38-44 | the RegisterScript calls a load makes, in order: the registries become RegisteredAll of the old ones, the invariant is kept and the main script and tar file are untouched |
| ScriptScanning.ScriptScanner.Reset | src/script/script_scanner.cpp:85-93 | both lists become empty |
| ScriptScanning.ScriptScanner.RegisterScript | src/script/script_scanner.cpp:95-140 | a wrong-length short name or a known key changes nothing; otherwise the key is added, and an eligible script becomes its name's entry when there is none or the entry's version is strictly lower; the invariant is kept |
| ScriptScanning.ScriptScanner.HasScript | src/script/script_scanner.cpp:245-251 | true iff some registered script is the same script |
| ScriptScanning.ScriptScanner.FindMainScript | src/script/script_scanner.cpp:253-259 | a main script of a registered matching script, or none iff no registered script matches |
| ScriptScanning.FirstRegistrationWins | src/script/script_scanner.cpp:107-126 | registering the same name and version again keeps the first script |

## Left out

- Vehicle lookup, `IsPrimaryVehicle` and `CheckOwnership` are boolean inputs. `DC_EXEC` is the `exec` flag. Window invalidation and `SetWindowDirty` are user-interface effects and are not modelled.
- `CmdScheduledDispatch` (the shared-vehicle flag loop), `CmdScheduledDispatchSetDelay` and `CmdScheduledDispatchClear` are not part of this model. They set one field or clear the slot list and do not run the normaliser.
- The `CmdScheduledDispatchSetDuration` and `CmdScheduledDispatchSetStartDate` handlers are not part of this model as handlers. Each runs the same validation as `CheckSchedule`, sets one field, then runs the normaliser (lines 174-175 and 219-220). The model has both steps: `SetScheduledDispatchDuration` followed by `UpdateScheduledDispatch`; setting the start date is the start tick of `CmdScheduledDispatchAddNewSchedule`.
- The start date and full date fraction storage, and `SchdispatchConvertToFullDateFract`, are not part of this model. The start is one unbounded integer tick.
- SchDispatch.CmdScheduledDispatchAddNewSchedule: takes the start tick as a parameter instead of decoding the date and fraction from p3.
- The global scaled tick and the game settings (`time_in_minutes`, `ticks_per_minute`) are the `Clock` parameter. The developer-tools setting is a `developerTools` parameter.
- SchDispatch.InitialLastDispatch: requires `ClockOk`, which assumes `ticks_per_minute` is positive whenever times are shown in minutes. The normaliser members (`LastDispatchAfterInit`, `WindowAfterUpdate`, `UpdateScheduledDispatchToDate`, `UpdateScheduledDispatch` and their callers) inherit this requirement. With a setting of 0 the source divides by zero in `CeilDivT` on the underflow path (lines 467-468); that case is not modelled.
- SchDispatch.DispatchSchedule.SetScheduledDispatch: `IsScheduledDispatchValid` is not part of this model and is taken as "the duration is positive"; the sortedness assertion becomes a precondition.
- SchDispatch.AddSlots: states that the window is unchanged or holds the current tick, not the exact window after each of the up to 513 normalisations.
- SchDispatch.CmdScheduledDispatchAdd: like AddSlots, states only that the window is unchanged or holds the current tick, not the exact window the repeated normalisations leave.
- `OrderList` stands for the order list's schedule set and its orders. Each order is reduced to the index of the schedule it uses, and the linked order list is not modelled.
- SortList.GUIList.Sort: qsort is a library call, represented by an insertion sort. qsort may order items that compare equal differently, so only the ascending permutation, and its reversal for a descending list, is the source's promise.
- SortList.GUIList.Sort: the comparator is required only to be sign-antisymmetric. Every total-preorder comparator is.
- The `func_list` dispatch (`SetSortFuncs`, `Sort()` without arguments) is not modelled. The comparator is a parameter.
- `SmallVector` growth is not modelled. The items are a fixed array.
- No method of the list ever clears `VL_FIRST_SORT`, so through the class alone `Sort` always takes the qsort path. The gnome sort is still modelled in full as `GnomeSort`.
- SmallMap's pointers and iterators are positions. The `find_if` overload of `Find` is the same search as the index loop.
- The Squirrel engine, `LoadScript`, `FioCheckFileExists`, file reading, the tar lists and the MD5 algorithm are not modelled. A file's existence, whether a script loads, the scripts its info file registers while loading, and each file's digest (`None` when it cannot be opened) are parameters. Which files belong to a script is the `filesOf` parameter.
- ScriptScanning.ScriptScanner.AddFile: the info file's calls to `RegisterScript` during `LoadScript` are the `registered` parameter, registered in order. That each registered script takes the scanner's main script comes from `ScriptInfo`'s constructor, which is not part of this model; `ResetEngine` and `RegisterAPI` are engine set-up and are not modelled.
- `GetScriptName` is modelled as the info's name. `GetConsoleList` (text formatting) and the `DEBUG` messages are not modelled.
- The Windows case-insensitive comparison of main scripts is not modelled. Both duplicate branches discard the new script, so the outcome is the same.
- `delete` of discarded infos is memory ownership and is not modelled.
- `PATHSEPCHAR` is `/`.
- ScriptScanning.ScriptScanner.FindMainScript: returns the main script of some matching registered script, not necessarily the first in the map's key order.
- ScriptScanning.PackShortName: assumes `char` is signed, as on x86, where bytes from 0x80 up are sign-extended. With unsigned `char` the id would be the plain little-endian packing.

## Findings

| source | as written | input that shows it | evidently intended | confidence | as-written member | corrected member |
|---|---|---|---|---|---|---|
| src/schdispatch_cmd.cpp:499-504 | `UpdateScheduledDispatch` calls the normaliser without checking the duration. With duration 0 the normaliser divides by zero at line 460 when the start is 0; otherwise one of the loops at lines 474 and 484 never ends. | `CmdScheduledDispatchAddNewSchedule` with p2 = 0 (duration 0) and a non-zero start date; or `CmdScheduledDispatchSetDuration` with p2 = 0 | normalise only a valid schedule (positive duration), as `SetScheduledDispatch` does at line 424 | medium, not executed | SchDispatch.ZeroDurationNeverSettles | SchDispatch.DispatchSchedule.UpdateScheduledDispatch |
