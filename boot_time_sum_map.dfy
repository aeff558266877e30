/**
 The boot-time-sum table: every calendar-like quadruple (month, day, minute,
 second) is filed under the key month * day + minute + second, and each key
 keeps at most one candidate per (month, day), the one whose second is closest
 to 15.
 */
module BootTimeSumMap {

  /** The fixed-width integers of the source. Arithmetic in these types is
      checked by Dafny never to leave their range. */
  newtype u8 = x: int | 0 <= x < 0x100
  newtype u16 = x: int | 0 <= x < 0x1_0000
  newtype i16 = x: int | -0x8000 <= x < 0x8000

  datatype Option<T> = None | Some(value: T)

  /** One candidate; the source stores it as a (u8, u8, u8, u8) tuple. */
  datatype Entry = Entry(month: u8, day: u8, minute: u8, second: u8)

  /** `BootTimeSumMap`: key -> candidate list. The hash map's iteration order
      carries no meaning and is not modelled. */
  type Table = map<u16, seq<Entry>>

  /** Number of days of a month; February always has 28 (no leap years). */
  function MaxDay(month: u8): (r: u8)
    ensures 28 <= r <= 31
    ensures r == 28 <==> month == 2
  {
    if month == 2 then 28
    else if month == 4 || month == 6 || month == 9 || month == 11 then 30
    else 31
  }

  /** The ranges the four nested loops enumerate. */
  predicate Valid(q: Entry)
  {
    && 1 <= q.month <= 12
    && 1 <= q.day <= MaxDay(q.month)
    && q.minute <= 59
    && 15 <= q.second <= 59
  }

  lemma ProductFits(a: u8, b: u8)
    ensures a as int * b as int <= 255 * 255
  {
    assert a as int * b as int <= a as int * 255;
  }

  /** The key `(month as u16) * (day as u16) + (min as u16) + (sec as u16)`.
      Computed in u16 for any four bytes, and never wraps around. */
  function Key(q: Entry): (k: u16)
    ensures k as int == q.month as int * q.day as int + q.minute as int + q.second as int
  {
    ProductFits(q.month, q.day);
    (q.month as u16) * (q.day as u16) + (q.minute as u16) + (q.second as u16)
  }

  /** Every enumerated quadruple has its key in [16, 490]. */
  lemma KeyBounds(q: Entry)
    requires Valid(q)
    ensures 16 <= Key(q) <= 490
  {
    var m, d := q.month as int, q.day as int;
    assert 1 <= m * d by {
      assert m * d >= m * 1;
    }
    assert m * d <= 12 * 31 by {
      assert m * d <= m * 31;
      assert m * 31 <= 12 * 31;
    }
  }

  function Abs(x: i16): (r: i16)
    requires x != -0x8000
    ensures 0 <= r && (r == x || r == -x)
  {
    if x < 0 then -x else x
  }

  /** `(sec as i16 - 15).abs() < (existing as i16 - 15).abs()`: the offered
      second is strictly closer to 15 than the one already kept. */
  predicate Closer(second: u8, existing: u8)
  {
    Abs(second as i16 - 15) < Abs(existing as i16 - 15)
  }

  /** Over the seconds the table holds (all at least 15), "strictly closer
      to 15" is "strictly smaller", so a tie never displaces anything. */
  lemma CloserIsSmaller(second: u8, existing: u8)
    requires 15 <= second && 15 <= existing
    ensures Closer(second, existing) <==> second < existing
  {
  }

  predicate IsDay(e: Entry, month: u8, day: u8)
  {
    e.month == month && e.day == day
  }

  predicate SameDay(a: Entry, b: Entry)
  {
    IsDay(a, b.month, b.day)
  }

  /** `candidates.iter_mut().find(|e| e.0 == month && e.1 == day)`: the first
      position holding that (month, day), if any. */
  function Find(b: seq<Entry>, month: u8, day: u8): (r: Option<nat>)
    ensures r.Some? ==> r.value < |b| && IsDay(b[r.value], month, day)
    ensures r.Some? ==> forall j :: 0 <= j < r.value ==> !IsDay(b[j], month, day)
    ensures r.None? <==> forall j :: 0 <= j < |b| ==> !IsDay(b[j], month, day)
  {
    if b == [] then None
    else if IsDay(b[0], month, day) then Some(0)
    else match Find(b[1..], month, day)
      case None => None
      case Some(i) => Some(i + 1)
  }

  /** The candidate list for a key, `or_insert_with(Vec::new)`. */
  function Bucket(table: Table, k: u16): seq<Entry>
  {
    if k in table then table[k] else []
  }

  /** The candidate list after `q` has been offered to it: overwrite the entry
      of q's (month, day) if q is strictly closer to 15, keep it otherwise, and
      append q when its (month, day) is not there yet. */
  function Place(b: seq<Entry>, q: Entry): (r: seq<Entry>)
    // only the entry of q's (month, day) may change, in place, and only to q
    ensures |b| <= |r|
    ensures forall i :: 0 <= i < |b| ==>
      r[i] == b[i] || (SameDay(b[i], q) && r[i] == q && Closer(q.second, b[i].second))
    // q's (month, day) is present afterwards, and q is not closer than what is kept
    ensures exists i :: 0 <= i < |r| && SameDay(r[i], q) && (r[i] == q || !Closer(q.second, r[i].second))
    // the list grows, by q at the end, exactly when q's (month, day) was absent
    ensures |r| != |b| <==> (forall i :: 0 <= i < |b| ==> !SameDay(b[i], q))
    ensures |r| != |b| ==> r == b + [q]
  {
    match Find(b, q.month, q.day)
    case None => var r := b + [q]; assert r[|b|] == q; r
    case Some(i) => if Closer(q.second, b[i].second) then b[i := q] else b
  }

  /** The loop body: file `q` under its key. */
  method Insert(table: Table, q: Entry) returns (table': Table)
    ensures table' == table[Key(q) := Place(Bucket(table, Key(q)), q)]
  {
    var value := Key(q);
    var candidates := Bucket(table, value);
    ghost var b := candidates;
    var found := Find(candidates, q.month, q.day);
    match found {
      case Some(i) =>
        if Abs(q.second as i16 - 15) < Abs(candidates[i].second as i16 - 15) {
          candidates := candidates[i := q];
        }
      case None =>
        candidates := candidates + [q];
    }
    assert candidates == Place(b, q);
    table' := table[value := candidates];
  }

  /** (month, day) of `a` comes strictly before that of `b`. */
  predicate DayBefore(a: Entry, b: Entry)
  {
    a.month < b.month || (a.month == b.month && a.day < b.day)
  }

  /** The order in which the nested loops offer quadruples. */
  predicate Before(a: Entry, b: Entry)
  {
    || DayBefore(a, b)
    || (SameDay(a, b) && a.minute < b.minute)
    || (SameDay(a, b) && a.minute == b.minute && a.second < b.second)
  }

  /** A candidate list for key `k`: non-empty, enumerated quadruples with key
      `k`, strictly ascending by (month, day) -- the order in which the
      (month, day) pairs were first filed. */
  ghost predicate GoodBucket(b: seq<Entry>, k: u16)
  {
    && b != []
    && (forall i :: 0 <= i < |b| ==> Valid(b[i]) && Key(b[i]) == k)
    && (forall i, j :: 0 <= i < j < |b| ==> DayBefore(b[i], b[j]))
  }

  /** The table holds an entry for q's (month, day) under q's key, with a
      second no larger than q's. */
  ghost predicate Covers(table: Table, q: Entry)
  {
    var k := Key(q);
    k in table && exists i :: 0 <= i < |table[k]| && SameDay(table[k][i], q) && table[k][i].second <= q.second
  }

  /** What the finished table is. */
  ghost predicate IsBootTimeSumMap(table: Table)
  {
    && (forall k :: k in table ==> GoodBucket(table[k], k))
    && (forall q :: Valid(q) ==> Covers(table, q))
  }

  /** The table after every quadruple before `cur` has been offered. */
  ghost predicate BuiltUpTo(table: Table, cur: Entry)
  {
    && (forall k :: k in table ==> GoodBucket(table[k], k))
    && (forall k, i :: k in table && 0 <= i < |table[k]| ==> Before(table[k][i], cur))
    && (forall q :: Valid(q) && Before(q, cur) ==> Covers(table, q))
  }

  lemma PlaceKeepsGoodBucket(b: seq<Entry>, q: Entry, k: u16)
    requires Valid(q) && Key(q) == k
    requires b == [] || GoodBucket(b, k)
    requires forall i :: 0 <= i < |b| ==> Before(b[i], q)
    ensures GoodBucket(Place(b, q), k)
    ensures forall i :: 0 <= i < |Place(b, q)| ==> Before(Place(b, q)[i], q) || Place(b, q)[i] == q
  {
    var r := Place(b, q);
    if |r| != |b| {
      forall i | 0 <= i < |b| ensures DayBefore(b[i], q) {
        assert Before(b[i], q) && !SameDay(b[i], q);
      }
    } else {
      forall i, j | 0 <= i < j < |r| ensures DayBefore(r[i], r[j]) {
        assert SameDay(r[i], b[i]) && SameDay(r[j], b[j]);
      }
    }
  }

  lemma PlaceKeepsCover(b: seq<Entry>, q: Entry, x: Entry, i: nat)
    requires 15 <= q.second
    requires i < |b| && SameDay(b[i], x) && b[i].second <= x.second && 15 <= b[i].second
    ensures i < |Place(b, q)| && SameDay(Place(b, q)[i], x) && Place(b, q)[i].second <= x.second
  {
    var r := Place(b, q);
    if r[i] != b[i] {
      CloserIsSmaller(q.second, b[i].second);
    }
  }

  lemma PlaceCoversOffered(b: seq<Entry>, q: Entry)
    requires 15 <= q.second
    requires forall i :: 0 <= i < |b| ==> 15 <= b[i].second
    ensures exists i :: 0 <= i < |Place(b, q)| && SameDay(Place(b, q)[i], q) && Place(b, q)[i].second <= q.second
  {
    var r := Place(b, q);
    if |r| != |b| {
      assert r[|b|] == q;
    } else {
      var i :| 0 <= i < |r| && SameDay(r[i], q) && (r[i] == q || !Closer(q.second, r[i].second));
      if r[i] != q {
        assert r[i] == b[i];
        CloserIsSmaller(q.second, r[i].second);
      }
    }
  }

  /** After `q` is filed, every quadruple up to and including `q` is covered. */
  lemma {:induction false} InsertKeepsCovers(table: Table, q: Entry)
    requires Valid(q) && BuiltUpTo(table, q)
    ensures forall x :: Valid(x) && Before(x, q.(second := q.second + 1)) ==>
      Covers(table[Key(q) := Place(Bucket(table, Key(q)), q)], x)
  {
    var k := Key(q);
    var b := Bucket(table, k);
    var table' := table[k := Place(b, q)];
    assert forall i :: 0 <= i < |b| ==> 15 <= b[i].second;
    forall x | Valid(x) && Before(x, q.(second := q.second + 1)) ensures Covers(table', x) {
      if Key(x) != k {
        assert Before(x, q) && Covers(table, x);
      } else if x == q {
        PlaceCoversOffered(b, q);
      } else {
        assert Before(x, q) && Covers(table, x);
        var i :| 0 <= i < |b| && SameDay(b[i], x) && b[i].second <= x.second;
        PlaceKeepsCover(b, q, x, i);
      }
    }
  }

  /** One turn of the innermost loop keeps the loop invariant. */
  lemma {:induction false} InsertKeepsBuiltUpTo(table: Table, q: Entry)
    requires Valid(q) && BuiltUpTo(table, q)
    ensures BuiltUpTo(table[Key(q) := Place(Bucket(table, Key(q)), q)], q.(second := q.second + 1))
  {
    var k := Key(q);
    var b := Bucket(table, k);
    var table' := table[k := Place(b, q)];
    var next := q.(second := q.second + 1);
    PlaceKeepsGoodBucket(b, q, k);
    InsertKeepsCovers(table, q);
    forall k', i | k' in table' && 0 <= i < |table'[k']| ensures Before(table'[k'][i], next) {
      if k' != k {
        assert Before(table[k'][i], q);
      }
    }
    assert forall k' :: k' in table' ==> GoodBucket(table'[k'], k');
  }

  lemma NextMinute(table: Table, month: u8, day: u8, minute: u8)
    requires minute < 60 && BuiltUpTo(table, Entry(month, day, minute, 60))
    ensures BuiltUpTo(table, Entry(month, day, minute + 1, 15))
  {
  }

  lemma NextDay(table: Table, month: u8, day: u8)
    requires day < 255 && BuiltUpTo(table, Entry(month, day, 60, 15))
    ensures BuiltUpTo(table, Entry(month, day + 1, 0, 15))
  {
  }

  lemma NextMonth(table: Table, month: u8)
    requires month < 255 && BuiltUpTo(table, Entry(month, MaxDay(month) + 1, 0, 15))
    ensures BuiltUpTo(table, Entry(month + 1, 1, 0, 15))
  {
  }

  /** `build_boot_time_sum_map`. */
  method Build() returns (table: Table)
    ensures IsBootTimeSumMap(table)
  {
    table := map[];
    var month: u8 := 1;
    while month <= 12
      invariant 1 <= month <= 13
      invariant BuiltUpTo(table, Entry(month, 1, 0, 15))
    {
      var maxDay := MaxDay(month);
      var day: u8 := 1;
      while day <= maxDay
        invariant 1 <= day <= maxDay + 1
        invariant BuiltUpTo(table, Entry(month, day, 0, 15))
      {
        var minute: u8 := 0;
        while minute <= 59
          invariant minute <= 60
          invariant BuiltUpTo(table, Entry(month, day, minute, 15))
        {
          var second: u8 := 15;
          while second <= 59
            invariant 15 <= second <= 60
            invariant BuiltUpTo(table, Entry(month, day, minute, second))
          {
            var q := Entry(month, day, minute, second);
            InsertKeepsBuiltUpTo(table, q);
            table := Insert(table, q);
            second := second + 1;
          }
          NextMinute(table, month, day, minute);
          minute := minute + 1;
        }
        NextDay(table, month, day);
        day := day + 1;
      }
      NextMonth(table, month);
      month := month + 1;
    }
  }
}
