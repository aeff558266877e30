# Boot-time-sum table

A Dafny model of `build_boot_time_sum_map` in `src/constants/boot_time_sum_map.rs`.
The function visits every calendar-like quadruple (month, day, minute, second).
Months run 1 to 12. Days run up to the month's length: 28 for February, 30 for
April, June, September and November, 31 otherwise. Minutes run 0 to 59 and
seconds 15 to 59. Each quadruple is filed in a `HashMap<u16, Vec<(u8, u8, u8, u8)>>`
under the key `month * day + minute + second`. A key's list holds at most one
candidate per (month, day). A later candidate for a (month, day) already in the
list overwrites it in place when its second is strictly closer to 15; a tie
keeps the old one. A candidate for a new (month, day) is appended.

Files:

- `boot_time_sum_map.dfy` (module `BootTimeSumMap`): the integer widths as
  newtypes (`u8`, `u16`, `i16`), the candidate record `Entry`, the table type,
  the key, the distance-to-15 test, the search, the loop body (`Insert`) and the
  four nested loops (`Build`). `Build` is proved against `IsBootTimeSumMap`, a
  declarative description of the finished table:
  - every list is non-empty;
  - every entry is an enumerated quadruple whose key is the list's key;
  - every list is strictly ascending by (month, day);
  - every enumerated quadruple `q` is covered: the list at `Key(q)` has an
    entry for q's (month, day) whose second is at most q's.

  The loop invariant `BuiltUpTo(table, cursor)` says the same of the
  quadruples the loops have already offered, in their lexicographic order.
- `table_properties.dfy` (module `BootTimeSumMapProperties`): what follows from
  that description. The keys are exactly 16 to 490. No list repeats a
  (month, day). The retained entry has the smallest second, and that second has
  a closed form. The order of a list is first-offer order. The description
  determines the table completely.

Integer widths: the key is computed in `u16` and the distance test in `i16`,
as in the source. Dafny checks every such operation against its type's range.
So `Key` and `Closer` being well-typed is the proof that nothing overflows.

## Model

| member | source | states |
|---|---|---|
| BootTimeSumMap.MaxDay | src/constants/boot_time_sum_map.rs:11-15 | every month has 28 to 31 days, and only February has 28 (no leap year) |
| BootTimeSumMap.Key | src/constants/boot_time_sum_map.rs:20 | the u16 key equals month*day+minute+second computed exactly, for any four bytes, so the u16 arithmetic never wraps |
| BootTimeSumMap.KeyBounds | src/constants/boot_time_sum_map.rs:10-20 | every enumerated quadruple has a key in [16, 490] |
| BootTimeSumMap.Abs | src/constants/boot_time_sum_map.rs:28 | the i16 absolute value is non-negative and is x or -x |
| BootTimeSumMap.CloserIsSmaller | src/constants/boot_time_sum_map.rs:28 | for seconds of at least 15, strictly closer to 15 is exactly strictly smaller, so a tie never replaces |
| BootTimeSumMap.Find | src/constants/boot_time_sum_map.rs:24-25 | the search returns the first position holding the (month, day), and None exactly when no position holds it |
| BootTimeSumMap.Place | src/constants/boot_time_sum_map.rs:24-34 | only the entry of the offered (month, day) can change, in place, to the offered candidate, and only when that is strictly closer to 15; afterwards the day is present; the list grows, by the candidate at its end, exactly when the day was absent |
| BootTimeSumMap.Insert | src/constants/boot_time_sum_map.rs:20-34 | one loop body leaves every other key untouched and sets the candidate's key to the placed list (an absent key starting empty) |
| BootTimeSumMap.InsertKeepsCovers | src/constants/boot_time_sum_map.rs:19-34 | after a candidate is filed, it and every quadruple offered before it are covered by an entry of their day with a second no larger |
| BootTimeSumMap.InsertKeepsBuiltUpTo | src/constants/boot_time_sum_map.rs:19-34 | one loop body keeps the loop invariant: lists well formed and ascending, entries all offered already, everything offered covered |
| BootTimeSumMap.Build | src/constants/boot_time_sum_map.rs:7-41 | the built table: lists non-empty, entries in range and filed under their own key, strictly ascending by (month, day), and every enumerated quadruple covered |
| BootTimeSumMapProperties.DaysAreUnique | src/constants/boot_time_sum_map.rs:24-34 | two positions of one list share a (month, day) exactly when they are the same position |
| BootTimeSumMapProperties.RetainedIsClosest | src/constants/boot_time_sum_map.rs:19-30 | no enumerated candidate with the same key and (month, day) is strictly closer to 15 than the retained entry, whose second is the smallest |
| BootTimeSumMapProperties.RetainedSecond | src/constants/boot_time_sum_map.rs:19-30 | the retained second is max(15, key - month*day - 59) |
| BootTimeSumMapProperties.FirstOfferedFirst | src/constants/boot_time_sum_map.rs:10-17 | list order is first-offer order: every quadruple of an earlier entry's day is enumerated before every quadruple of a later entry's day |
| BootTimeSumMapProperties.KeyIsReached | src/constants/boot_time_sum_map.rs:10-20 | every integer in [16, 490] is the key of some enumerated quadruple |
| BootTimeSumMapProperties.KeysAreRange | src/constants/boot_time_sum_map.rs:20-21 | the table's keys are exactly the integers 16 to 490 |
| BootTimeSumMapProperties.SmallestKey | src/constants/boot_time_sum_map.rs:10-33 | key 16 holds exactly [(1, 1, 0, 15)] |
| BootTimeSumMapProperties.LargestKey | src/constants/boot_time_sum_map.rs:10-33 | key 490 holds exactly [(12, 31, 59, 59)] |
| BootTimeSumMapProperties.TableIsDetermined | src/constants/boot_time_sum_map.rs:7-41 | any two tables meeting the description of the built table are equal, so the build is deterministic and the description is exact |

## Left out

- `save_json` and `load_json` (src/constants/boot_time_sum_map.rs:43-46, 53-57): file I/O and the external JSON library, whose encoding is not visible; no round trip is stated.
- `save_bincode` and `load_bincode` (src/constants/boot_time_sum_map.rs:48-51, 59-62): file I/O and the external bincode library, for the same reason.
- The panics of `.expect(...)` on I/O and encoding failures: they come only from the left-out functions above.
- Hashing and the iteration order of the `HashMap`: the table is a Dafny `map`; only the order within a key's list is modelled.
- `Vec` growth and the mutable borrow of `entry().or_insert_with`: the table and its lists are values that the loop body reassigns.
