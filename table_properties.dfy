/**
 What follows from the specification of the finished table: the set of keys,
 uniqueness of (month, day) per key, which candidate is retained, the order of
 a candidate list, and that the specification determines the table outright.
 */
module BootTimeSumMapProperties {
  import opened BootTimeSumMap

  function Max(a: int, b: int): int
  {
    if a < b then b else a
  }

  lemma EntryIsValid(table: Table, k: u16, i: nat)
    requires IsBootTimeSumMap(table)
    requires k in table && i < |table[k]|
    ensures Valid(table[k][i]) && Key(table[k][i]) == k
  {
    assert GoodBucket(table[k], k);
  }

  lemma CoverIndex(table: Table, x: Entry) returns (j: nat)
    requires IsBootTimeSumMap(table) && Valid(x)
    ensures Key(x) in table && j < |table[Key(x)]|
    ensures SameDay(table[Key(x)][j], x) && table[Key(x)][j].second <= x.second
  {
    assert Covers(table, x);
    j :| 0 <= j < |table[Key(x)]| && SameDay(table[Key(x)][j], x) && table[Key(x)][j].second <= x.second;
  }

  /** Two entries of one candidate list never share a (month, day). */
  lemma DaysAreUnique(table: Table, k: u16, i: nat, j: nat)
    requires IsBootTimeSumMap(table)
    requires k in table && i < |table[k]| && j < |table[k]|
    ensures SameDay(table[k][i], table[k][j]) <==> i == j
  {
    var b := table[k];
    assert i < j ==> DayBefore(b[i], b[j]);
    assert j < i ==> DayBefore(b[j], b[i]);
  }

  /** No enumerated candidate with the same key and (month, day) is strictly
      closer to 15 than the retained one: its second is the smallest. */
  lemma RetainedIsClosest(table: Table, k: u16, i: nat, x: Entry)
    requires IsBootTimeSumMap(table)
    requires k in table && i < |table[k]|
    requires Valid(x) && Key(x) == k && SameDay(x, table[k][i])
    ensures table[k][i].second <= x.second
    ensures !Closer(x.second, table[k][i].second)
  {
    var j := CoverIndex(table, x);
    DaysAreUnique(table, k, i, j);
    CloserIsSmaller(x.second, table[k][i].second);
  }

  /** The retained second, in closed form: the smallest second in [15, 59]
      that leaves a minute in [0, 59] for the key. */
  lemma RetainedSecond(table: Table, k: u16, i: nat)
    requires IsBootTimeSumMap(table)
    requires k in table && i < |table[k]|
    ensures var e := table[k][i];
      e.second as int == Max(15, k as int - e.month as int * e.day as int - 59)
  {
    var e := table[k][i];
    assert Valid(e) && Key(e) == k;
    var rest := k as int - e.month as int * e.day as int;
    assert rest == e.minute as int + e.second as int;
    var s := Max(15, rest - 59);
    var x := Entry(e.month, e.day, (rest - s) as u8, s as u8);
    assert Valid(x) && Key(x) == k;
    RetainedIsClosest(table, k, i, x);
  }

  /** A candidate list is in the order in which its (month, day) pairs were
      first offered: all quadruples of an earlier entry's day come before all
      of a later entry's. */
  lemma FirstOfferedFirst(table: Table, k: u16, i: nat, j: nat, x: Entry, y: Entry)
    requires IsBootTimeSumMap(table)
    requires k in table && i < j < |table[k]|
    requires SameDay(x, table[k][i]) && SameDay(y, table[k][j])
    ensures Before(x, y) && !Before(y, x)
  {
    assert DayBefore(table[k][i], table[k][j]);
  }

  /** A quadruple with key `k`, for every k in [16, 490]. */
  lemma {:induction false} KeyIsReached(k: u16) returns (q: Entry)
    requires 16 <= k <= 490
    ensures Valid(q) && Key(q) == k
  {
    var month, day: int;
    if k <= 119 {
      month, day := 1, 1;
    } else {
      month := 12;
      day := if (k as int - 15) / 12 < 31 then (k as int - 15) / 12 else 31;
    }
    var rest := k as int - month * day;
    assert 15 <= rest <= 118;
    var minute, second := if rest <= 74 then rest - 15 else 59, if rest <= 74 then 15 else rest - 59;
    q := Entry(month as u8, day as u8, minute as u8, second as u8);
  }

  /** The keys of the table are exactly the integers 16 to 490, so the u16
      key never overflows and no key in that range is missing. */
  lemma {:induction false} KeysAreRange(table: Table)
    requires IsBootTimeSumMap(table)
    ensures forall k :: k in table <==> 16 <= k <= 490
  {
    forall k ensures k in table <==> 16 <= k <= 490 {
      if k in table {
        assert Valid(table[k][0]) && Key(table[k][0]) == k;
        KeyBounds(table[k][0]);
      }
      if 16 <= k <= 490 {
        var q := KeyIsReached(k);
        assert Covers(table, q);
      }
    }
  }

  lemma SmallestSum(m: int, d: int, minute: int, second: int)
    requires 1 <= m && 1 <= d && 0 <= minute && 15 <= second
    requires m * d + minute + second == 16
    ensures m == 1 && d == 1 && minute == 0 && second == 15
  {
    assert m * d >= m * 1;
    assert m >= 2 ==> m * d >= 2 * d;
  }

  lemma LargestSum(m: int, d: int, minute: int, second: int)
    requires 1 <= m <= 12 && 1 <= d <= 31 && minute <= 59 && second <= 59
    requires m * d + minute + second == 490
    ensures m == 12 && d == 31 && minute == 59 && second == 59
  {
    assert m <= 11 ==> m * d <= 11 * d;
    assert d <= 30 ==> m * d <= m * 30;
    assert m * d <= 12 * d;
  }

  /** A candidate list holding only `e`, given that every entry of it is `e`. */
  lemma SingleEntry(table: Table, k: u16, e: Entry)
    requires IsBootTimeSumMap(table) && k in table
    requires forall i :: 0 <= i < |table[k]| ==> table[k][i] == e
    ensures table[k] == [e]
  {
    var b := table[k];
    assert GoodBucket(b, k);
    assert |b| >= 2 ==> DayBefore(b[0], b[1]);
  }

  /** Key 16 can only come from 1 January, 00:15. */
  lemma SmallestKey(table: Table)
    requires IsBootTimeSumMap(table)
    ensures 16 in table && table[16] == [Entry(1, 1, 0, 15)]
  {
    var e := Entry(1, 1, 0, 15);
    var _ := CoverIndex(table, e);
    forall i | 0 <= i < |table[16]| ensures table[16][i] == e {
      var x := table[16][i];
      EntryIsValid(table, 16, i);
      assert x.month as int * x.day as int + x.minute as int + x.second as int == 16;
      SmallestSum(x.month as int, x.day as int, x.minute as int, x.second as int);
      assert x.month == 1 && x.day == 1 && x.minute == 0 && x.second == 15;
    }
    SingleEntry(table, 16, e);
  }

  /** Key 490 can only come from 31 December, 59:59. */
  lemma LargestKey(table: Table)
    requires IsBootTimeSumMap(table)
    ensures 490 in table && table[490] == [Entry(12, 31, 59, 59)]
  {
    var e := Entry(12, 31, 59, 59);
    var _ := CoverIndex(table, e);
    forall i | 0 <= i < |table[490]| ensures table[490][i] == e {
      var x := table[490][i];
      EntryIsValid(table, 490, i);
      LargestSum(x.month as int, x.day as int, x.minute as int, x.second as int);
    }
    SingleEntry(table, 490, e);
  }

  /** Strictly ascending by (month, day). */
  ghost predicate Ascending(b: seq<Entry>)
  {
    forall i, j :: 0 <= i < j < |b| ==> DayBefore(b[i], b[j])
  }

  lemma HeadIsElement(s: seq<Entry>)
    ensures s != [] ==> s[0] in s
  {
  }

  /** Two ascending lists with the same elements are the same list. */
  lemma {:induction false} AscendingSameElements(a: seq<Entry>, b: seq<Entry>)
    requires Ascending(a) && Ascending(b)
    requires forall e :: e in a <==> e in b
    ensures a == b
    decreases |a|
  {
    if a == [] || b == [] {
      HeadIsElement(a);
      HeadIsElement(b);
    } else {
      assert a[0] in b;
      var j :| 0 <= j < |b| && b[j] == a[0];
      assert b[0] in a;
      var i :| 0 <= i < |a| && a[i] == b[0];
      assert a[0] == b[0];
      forall e ensures e in a[1..] <==> e in b[1..] {
        if e in a[1..] {
          var p :| 0 <= p < |a[1..]| && a[1..][p] == e;
          assert a[p + 1] == e && DayBefore(a[0], a[p + 1]);
          assert e in a;
          var q :| 0 <= q < |b| && b[q] == e;
          assert b[1..][q - 1] == e;
        }
        if e in b[1..] {
          var p :| 0 <= p < |b[1..]| && b[1..][p] == e;
          assert b[p + 1] == e && DayBefore(b[0], b[p + 1]);
          assert e in b;
          var q :| 0 <= q < |a| && a[q] == e;
          assert a[1..][q - 1] == e;
        }
      }
      AscendingSameElements(a[1..], b[1..]);
    }
  }

  /** Every entry retained in one table meeting the specification is retained
      in any other. */
  lemma RetainedInBoth(t1: Table, t2: Table, k: u16, i: nat)
    requires IsBootTimeSumMap(t1) && IsBootTimeSumMap(t2)
    requires k in t1 && i < |t1[k]|
    ensures k in t2 && t1[k][i] in t2[k]
  {
    var e := t1[k][i];
    EntryIsValid(t1, k, i);
    var j := CoverIndex(t2, e);
    var f := t2[k][j];
    EntryIsValid(t2, k, j);
    RetainedIsClosest(t1, k, i, f);
    assert f == e;
  }

  /** The specification leaves no freedom: any two tables meeting it are
      equal, keys, list order and entries alike. In particular building the
      table twice gives the same table. */
  lemma {:induction false} TableIsDetermined(t1: Table, t2: Table)
    requires IsBootTimeSumMap(t1) && IsBootTimeSumMap(t2)
    ensures t1 == t2
  {
    KeysAreRange(t1);
    KeysAreRange(t2);
    assert t1.Keys == t2.Keys;
    forall k | k in t1 ensures t1[k] == t2[k] {
      forall e ensures e in t1[k] <==> e in t2[k] {
        if e in t1[k] {
          var i :| 0 <= i < |t1[k]| && t1[k][i] == e;
          RetainedInBoth(t1, t2, k, i);
        }
        if e in t2[k] {
          var i :| 0 <= i < |t2[k]| && t2[k][i] == e;
          RetainedInBoth(t2, t1, k, i);
        }
      }
      AscendingSameElements(t1[k], t2[k]);
    }
  }
}
