/**
 * The per-date and per-hour views of the invocation table: the number of invocations
 * per calendar date with one bar colour per date chosen by its weekday, and the mean
 * number of invocations per hour of the day across the observed dates.
 */
module Temporal {
  import opened Grouping
  import opened Calendar

  /** The weekday palette, indexed by weekday (0 = Monday ... 6 = Sunday). */
  const DayColors: seq<string> :=
    ["#FF6347", "#4682B4", "#3CB371", "#FFD700", "#DA70D6", "#FF4500", "#1E90FF"]

  /** The seven weekdays have seven different colours, so a bar's colour names its weekday. */
  lemma DayColorsDistinct()
    ensures |DayColors| == 7 && Distinct(DayColors)
  {
  }

  /** Number of invocations per date, dates in ascending order. */
  function DateCounts(date: seq<int>): (r: seq<(int, nat)>)
    ensures |r| == |SortedKeys(date)|
    ensures forall k :: 0 <= k < |r| ==> r[k].0 == SortedKeys(date)[k]
  {
    KeyCounts(date, SortedKeys(date))
  }

  /**
   * One bar per distinct date, in strictly ascending date order, each with at least one
   * invocation, and the bars together account for every row of the table.
   */
  lemma DateCountsCoverDates(date: seq<int>)
    ensures |DateCounts(date)| == |Unique(date)|
    ensures forall k :: 0 <= k < |DateCounts(date)| ==> DateCounts(date)[k].0 in date && DateCounts(date)[k].1 >= 1
    ensures forall d :: d in date ==> exists k :: 0 <= k < |DateCounts(date)| && DateCounts(date)[k].0 == d
    ensures forall k, l :: 0 <= k < l < |DateCounts(date)| ==> DateCounts(date)[k].0 < DateCounts(date)[l].0
    ensures Total(DateCounts(date)) == |date|
  {
    var ks := SortedKeys(date);
    var r := DateCounts(date);
    StrictlyIncreasingIsDistinct(ks);
    KeyCountsCoverRows(date, ks);
    SameElementsSameSize(ks, Unique(date));
    forall d | d in date ensures exists k :: 0 <= k < |r| && r[k].0 == d {
      var k := IndexOf(ks, d);
      assert r[k].0 == d;
    }
  }

  /** Each selected (date, weekday) row tagged with its date. */
  function Tag(d: int, ws: seq<int>): (r: seq<(int, int)>)
    ensures |r| == |ws|
  {
    seq(|ws|, i requires 0 <= i < |ws| => (d, ws[i]))
  }

  /**
   * The table re-indexed by date and looked up with the listed dates: for every listed
   * date in turn, the weekday of each of its rows, in row order.
   */
  function RowsByDate(date: seq<int>, dow: seq<int>, ds: seq<int>): (r: seq<(int, int)>)
    requires |date| == |dow|
    ensures forall k :: 0 <= k < |r| ==> r[k].0 in ds
  {
    if |ds| == 0 then []
    else
      var d := ds[|ds| - 1];
      RowsByDate(date, dow, ds[..|ds| - 1]) + Tag(d, Select(date, dow, d))
  }

  predicate HasKey<K(==), V>(rows: seq<(K, V)>, k: K) {
    exists i :: 0 <= i < |rows| && rows[i].0 == k
  }

  /** Drops every row whose key already occurred in an earlier row. */
  function DropDuplicateKeys<K(==), V>(rows: seq<(K, V)>): (r: seq<(K, V)>)
    ensures forall k :: 0 <= k < |r| ==> r[k] in rows
    ensures forall i :: 0 <= i < |rows| ==> HasKey(r, rows[i].0)
    ensures forall k, l :: 0 <= k < l < |r| ==> r[k].0 != r[l].0
  {
    if |rows| == 0 then []
    else
      var p := DropDuplicateKeys(rows[..|rows| - 1]);
      var last := rows[|rows| - 1];
      assert forall i :: 0 <= i < |rows| - 1 ==> rows[i] == rows[..|rows| - 1][i];
      if HasKey(p, last.0) then p
      else
        assert forall i :: 0 <= i < |p| ==> HasKey(p + [last], p[i].0) by {
          forall i | 0 <= i < |p| ensures HasKey(p + [last], p[i].0) {
            assert (p + [last])[i] == p[i];
          }
        }
        assert HasKey(p + [last], last.0) by { assert (p + [last])[|p|] == last; }
        p + [last]
  }

  /** Colour of the bar of each date, in ascending date order. */
  function BarColors(date: seq<int>, dow: seq<int>): (r: seq<string>)
    requires |date| == |dow|
    requires forall i :: 0 <= i < |dow| ==> 0 <= dow[i] < 7
    ensures forall k :: 0 <= k < |r| ==> r[k] in DayColors
  {
    var rows := RowsByDate(date, dow, SortedKeys(date));
    RowsByDateWeekdays(date, dow, SortedKeys(date));
    var firsts := DropDuplicateKeys(rows);
    assert forall k :: 0 <= k < |firsts| ==> 0 <= firsts[k].1 < 7 by {
      forall k | 0 <= k < |firsts| ensures 0 <= firsts[k].1 < 7 {
        var j :| 0 <= j < |rows| && rows[j] == firsts[k];
      }
    }
    seq(|firsts|, k requires 0 <= k < |firsts| => DayColors[firsts[k].1])
  }

  lemma {:induction false} RowsByDateWeekdays(date: seq<int>, dow: seq<int>, ds: seq<int>)
    requires |date| == |dow|
    requires forall i :: 0 <= i < |dow| ==> 0 <= dow[i] < 7
    ensures forall k :: 0 <= k < |RowsByDate(date, dow, ds)| ==> 0 <= RowsByDate(date, dow, ds)[k].1 < 7
  {
    if |ds| > 0 {
      var d := ds[|ds| - 1];
      RowsByDateWeekdays(date, dow, ds[..|ds| - 1]);
      var p := RowsByDate(date, dow, ds[..|ds| - 1]);
      var t := Tag(d, Select(date, dow, d));
      forall j | 0 <= j < |t| ensures 0 <= t[j].1 < 7 {
        SelectedFrom(date, dow, d, j);
      }
      assert RowsByDate(date, dow, ds) == p + t;
    }
  }

  /** The derived calendar columns agree: every row's weekday is the weekday of its date. */
  ghost predicate WeekdaysMatchDates(date: seq<int>, dow: seq<int>) {
    |date| == |dow| && forall i :: 0 <= i < |date| ==> dow[i] == WeekdayOfDay(date[i])
  }

  /** Each listed date beside its weekday. */
  function DatesWithWeekdays(ds: seq<int>): seq<(int, int)> {
    seq(|ds|, k requires 0 <= k < |ds| => (ds[k], WeekdayOfDay(ds[k])))
  }

  /**
   * There is exactly one bar colour per bar of the date histogram, and the k-th bar is
   * coloured by the weekday of the k-th date.
   */
  lemma BarColorsFollowWeekdays(date: seq<int>, dow: seq<int>)
    requires WeekdaysMatchDates(date, dow)
    ensures |BarColors(date, dow)| == |DateCounts(date)|
    ensures forall k :: 0 <= k < |BarColors(date, dow)| ==>
              BarColors(date, dow)[k] == DayColors[WeekdayOfDay(DateCounts(date)[k].0)]
  {
    var ks := SortedKeys(date);
    StrictlyIncreasingIsDistinct(ks);
    FirstRowPerDate(date, dow, ks);
  }

  /** Keeping the first row of each listed date leaves each date with its own weekday. */
  lemma {:induction false} FirstRowPerDate(date: seq<int>, dow: seq<int>, ds: seq<int>)
    requires WeekdaysMatchDates(date, dow)
    requires Distinct(ds)
    requires forall x :: x in ds ==> x in date
    ensures DropDuplicateKeys(RowsByDate(date, dow, ds)) == DatesWithWeekdays(ds)
  {
    if |ds| > 0 {
      var d := ds[|ds| - 1];
      var p := ds[..|ds| - 1];
      DistinctSnoc(ds);
      FirstRowPerDate(date, dow, p);
      FirstRowOfNewDate(date, dow, p, d);
      DatesWithWeekdaysSnoc(ds);
    }
  }

  lemma DatesWithWeekdaysSnoc(ds: seq<int>)
    requires |ds| > 0
    ensures DatesWithWeekdays(ds) == DatesWithWeekdays(ds[..|ds| - 1]) + [(ds[|ds| - 1], WeekdayOfDay(ds[|ds| - 1]))]
  {
  }

  /** The rows of a date not listed before contribute exactly their first row. */
  lemma FirstRowOfNewDate(date: seq<int>, dow: seq<int>, p: seq<int>, d: int)
    requires WeekdaysMatchDates(date, dow)
    requires d in date && d !in p
    ensures DropDuplicateKeys(RowsByDate(date, dow, p) + Tag(d, Select(date, dow, d)))
         == DropDuplicateKeys(RowsByDate(date, dow, p)) + [(d, WeekdayOfDay(d))]
  {
    var a := RowsByDate(date, dow, p);
    var b := Tag(d, Select(date, dow, d));
    SelectedFrom(date, dow, d, 0);
    forall i | 0 <= i < |a| ensures a[i].0 != d {
      assert a[i].0 in p;
    }
    DropBlock(a, b, d);
  }

  /**
   * Appending a block of rows that all share a new key keeps exactly the first row of
   * that block.
   */
  lemma {:induction false} DropBlock<K, V>(a: seq<(K, V)>, b: seq<(K, V)>, k: K)
    requires |b| > 0
    requires forall i :: 0 <= i < |a| ==> a[i].0 != k
    requires forall i :: 0 <= i < |b| ==> b[i].0 == k
    ensures DropDuplicateKeys(a + b) == DropDuplicateKeys(a) + [b[0]]
  {
    if |b| == 1 {
      assert (a + b)[..|a + b| - 1] == a;
      var p := DropDuplicateKeys(a);
      assert !HasKey(p, k) by {
        forall i | 0 <= i < |p| ensures p[i].0 != k {
          assert p[i] in a;
        }
      }
    } else {
      var b' := b[..|b| - 1];
      DropBlock(a, b', k);
      assert (a + b)[..|a + b| - 1] == a + b';
      var q := DropDuplicateKeys(a + b');
      assert q[|q| - 1] == b[0];
    }
  }

  /** Sum of the values column of a (key, value) table. */
  function SumValues<K>(r: seq<(K, real)>): real {
    if |r| == 0 then 0.0 else SumValues(r[..|r| - 1]) + r[|r| - 1].1
  }

  /** Divides every count of a (key, count) table by n. */
  function Scale<K>(c: seq<(K, nat)>, n: nat): (r: seq<(K, real)>)
    requires n > 0
    ensures |r| == |c|
    ensures forall k :: 0 <= k < |r| ==> r[k].0 == c[k].0 && r[k].1 == c[k].1 as real / n as real
  {
    seq(|c|, k requires 0 <= k < |c| => (c[k].0, c[k].1 as real / n as real))
  }

  lemma {:induction false} SumOfScaled<K>(c: seq<(K, nat)>, n: nat)
    requires n > 0
    ensures SumValues(Scale(c, n)) == Total(c) as real / n as real
  {
    if |c| > 0 {
      var r := Scale(c, n);
      assert r[..|r| - 1] == Scale(c[..|c| - 1], n);
      SumOfScaled(c[..|c| - 1], n);
      DivisionDistributes(Total(c[..|c| - 1]) as real, c[|c| - 1].1 as real, n as real);
    }
  }

  lemma DivisionDistributes(a: real, b: real, n: real)
    requires n > 0.0
    ensures (a + b) / n == a / n + b / n
  {
  }

  /**
   * Mean number of invocations per hour of the day: the invocations that ended in each
   * hour, divided by the number of distinct dates in the table; hours ascending.
   */
  function HourlyMean(hour: seq<int>, date: seq<int>): (r: seq<(int, real)>)
    requires |hour| == |date|
    ensures |r| == |SortedKeys(hour)|
    ensures forall k :: 0 <= k < |r| ==> r[k].0 == SortedKeys(hour)[k]
    ensures forall k :: 0 <= k < |r| ==> r[k].1 == Count(hour, r[k].0) as real / |Unique(date)| as real
  {
    if |hour| == 0 then []
    else
      assert date[0] in Unique(date);
      var c := KeyCounts(hour, SortedKeys(hour));
      var r := Scale(c, |Unique(date)|);
      assert forall k :: 0 <= k < |r| ==> r[k].0 == c[k].0 && c[k].1 == Count(hour, r[k].0);
      r
  }

  /**
   * At most one entry per hour of the day, hours ascending, and an entry for exactly the
   * hours that occur in the table.
   */
  lemma HourlyMeanHours(hour: seq<int>, date: seq<int>)
    requires |hour| == |date|
    requires forall i :: 0 <= i < |hour| ==> 0 <= hour[i] < 24
    ensures |HourlyMean(hour, date)| <= 24
    ensures forall k :: 0 <= k < |HourlyMean(hour, date)| ==> 0 <= HourlyMean(hour, date)[k].0 < 24
    ensures forall k, l :: 0 <= k < l < |HourlyMean(hour, date)| ==> HourlyMean(hour, date)[k].0 < HourlyMean(hour, date)[l].0
    ensures forall h :: h in hour <==> exists k :: 0 <= k < |HourlyMean(hour, date)| && HourlyMean(hour, date)[k].0 == h
  {
    var ks := SortedKeys(hour);
    var r := HourlyMean(hour, date);
    forall k | 0 <= k < |ks| ensures 0 <= ks[k] < 24 {
      assert ks[k] in hour;
    }
    BoundedKeys(ks, 0, 24);
    forall h | h in hour ensures exists k :: 0 <= k < |r| && r[k].0 == h {
      var k := IndexOf(ks, h);
      assert r[k].0 == h;
    }
    forall h | (exists k :: 0 <= k < |r| && r[k].0 == h) ensures h in hour {
      var k :| 0 <= k < |r| && r[k].0 == h;
      assert ks[k] in ks;
    }
  }

  /**
   * The hourly means add up to the number of rows divided by the number of distinct
   * dates: every invocation is counted in exactly one hour.
   */
  lemma HourlyMeanTotal(hour: seq<int>, date: seq<int>)
    requires |hour| == |date| && |hour| > 0
    ensures |Unique(date)| > 0
    ensures SumValues(HourlyMean(hour, date)) == |hour| as real / |Unique(date)| as real
  {
    var ks := SortedKeys(hour);
    assert date[0] in Unique(date);
    StrictlyIncreasingIsDistinct(ks);
    var c := KeyCounts(hour, ks);
    KeyCountsCoverRows(hour, ks);
    SumOfScaled(c, |Unique(date)|);
  }
}
