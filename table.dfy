/**
 * The invocation table as the script keeps it: one column per field, updated in place
 * by the preparation steps (reference-date shift, calendar fields, application
 * renaming, merge of the function counts), and the per-application pattern view built
 * from it.
 */
module Trace {
  import opened Wrappers
  import opened Grouping
  import opened Calendar
  import TimeShift
  import opened Temporal
  import opened Renaming
  import opened Applications

  /** One row of the trace file: end time in whole seconds since the epoch, duration in seconds. */
  datatype Invocation = Invocation(app: string, func: string, endTimestamp: int, duration: real)

  const NanosPerSecond: int := 1_000_000_000

  /** A datetime column stores nanoseconds since the epoch. */
  function ToNanos(t: int): int {
    t * NanosPerSecond
  }

  /** `astype(np.int64) // 10 ** 9`: floor division back to whole seconds. */
  function NanosToSeconds(ns: int): (t: int)
    ensures t * NanosPerSecond <= ns < (t + 1) * NanosPerSecond
  {
    ns / NanosPerSecond
  }

  lemma SecondsRoundTrip(t: int)
    ensures NanosToSeconds(ToNanos(t)) == t
  {
    assert t * NanosPerSecond <= ToNanos(t) < (t + 1) * NanosPerSecond;
  }

  /** An end-time column converted to nanoseconds and back to whole seconds. */
  function WholeSeconds(ends: seq<int>): (secs: seq<int>)
    ensures secs == ends
  {
    var secs := seq(|ends|, k requires 0 <= k < |ends| => NanosToSeconds(ToNanos(ends[k])));
    assert forall k :: 0 <= k < |ends| ==> secs[k] == ends[k] by {
      forall k | 0 <= k < |ends| ensures secs[k] == ends[k] {
        SecondsRoundTrip(ends[k]);
      }
    }
    secs
  }

  /** One row of the per-application pattern view. */
  datatype PatternRow = PatternRow(app: string, func: string, endSec: int, startSec: real, duration: real)

  class InvocationTable {
    var app: seq<string>
    var func: seq<string>
    var endTs: seq<int>
    var duration: seq<real>
    var hour: seq<int>
    var dayOfWeek: seq<int>
    var date: seq<int>
    var numFunctions: seq<nat>

    /** The four columns read from the file have one entry per row. */
    ghost predicate Valid()
      reads this
    {
      |func| == |app| && |endTs| == |app| && |duration| == |app|
    }

    /** The calendar columns are derived from the (shifted) end timestamps. */
    ghost predicate HasCalendar()
      reads this
    {
      Valid() &&
      |hour| == |app| && |dayOfWeek| == |app| && |date| == |app| &&
      (forall i :: 0 <= i < |app| ==> hour[i] == Hour(endTs[i])) &&
      (forall i :: 0 <= i < |app| ==> dayOfWeek[i] == DayOfWeek(endTs[i])) &&
      (forall i :: 0 <= i < |app| ==> date[i] == Date(endTs[i]))
    }

    /** `pd.read_csv`: the rows of the trace file, column by column. */
    constructor Load(rows: seq<Invocation>)
      ensures Valid() && |app| == |rows|
      ensures forall i :: 0 <= i < |rows| ==>
                app[i] == rows[i].app && func[i] == rows[i].func &&
                endTs[i] == rows[i].endTimestamp && duration[i] == rows[i].duration
      ensures hour == [] && dayOfWeek == [] && date == [] && numFunctions == []
    {
      app := seq(|rows|, i requires 0 <= i < |rows| => rows[i].app);
      func := seq(|rows|, i requires 0 <= i < |rows| => rows[i].func);
      endTs := seq(|rows|, i requires 0 <= i < |rows| => rows[i].endTimestamp);
      duration := seq(|rows|, i requires 0 <= i < |rows| => rows[i].duration);
      hour, dayOfWeek, date, numFunctions := [], [], [], [];
    }

    /**
     * Moves every end timestamp by the same offset so that the earliest one falls on the
     * reference midnight; returns the offset, or None for an empty table.
     */
    method ShiftTimestamps() returns (shift: Option<int>)
      requires Valid()
      modifies this
      ensures Valid()
      ensures shift == TimeShift.ReferenceShift(old(endTs))
      ensures endTs == TimeShift.ShiftToReference(old(endTs))
      ensures app == old(app) && func == old(func) && duration == old(duration)
      ensures hour == old(hour) && dayOfWeek == old(dayOfWeek) && date == old(date)
      ensures numFunctions == old(numFunctions)
    {
      shift := TimeShift.ReferenceShift(endTs);
      endTs := TimeShift.ShiftToReference(endTs);
    }

    /** Adds the hour, weekday and date columns. */
    method DeriveCalendarFields()
      requires Valid()
      modifies this
      ensures HasCalendar()
      ensures app == old(app) && func == old(func) && endTs == old(endTs) && duration == old(duration)
      ensures numFunctions == old(numFunctions)
    {
      var ts := endTs;
      hour := seq(|ts|, i requires 0 <= i < |ts| => Hour(ts[i]));
      dayOfWeek := seq(|ts|, i requires 0 <= i < |ts| => DayOfWeek(ts[i]));
      date := seq(|ts|, i requires 0 <= i < |ts| => Date(ts[i]));
    }

    /** Replaces every application by `app_<n>`, n its rank of first occurrence. */
    method RenameApps()
      requires Valid()
      modifies this
      ensures Valid()
      ensures app == RenameFirstSeen(old(app), AppName)
      ensures func == old(func) && endTs == old(endTs) && duration == old(duration)
      ensures hour == old(hour) && dayOfWeek == old(dayOfWeek) && date == old(date)
      ensures numFunctions == old(numFunctions)
    {
      app := RenameFirstSeen(app, AppName);
    }

    /**
     * Derived calendar columns are what the date and hour charts assume: every weekday is
     * the weekday of its row's date, and every hour lies in 0 .. 23.
     */
    lemma CalendarColumnsAgree()
      requires HasCalendar()
      ensures WeekdaysMatchDates(date, dayOfWeek)
      ensures forall i :: 0 <= i < |hour| ==> 0 <= hour[i] < 24
    {
      forall i | 0 <= i < |date| ensures dayOfWeek[i] == WeekdayOfDay(date[i]) {
        assert dayOfWeek[i] == DayOfWeek(endTs[i]);
      }
    }

    /** Adds the column holding each row's application function count. */
    method MergeFunctionCounts()
      requires Valid()
      modifies this
      ensures Valid()
      ensures numFunctions == NumFunctionsColumn(app, func)
      ensures app == old(app) && func == old(func) && endTs == old(endTs) && duration == old(duration)
      ensures hour == old(hour) && dayOfWeek == old(dayOfWeek) && date == old(date)
    {
      numFunctions := NumFunctionsColumn(app, func);
    }

    /**
     * The rows of one application, its functions renamed `fun_<n>` in order of first
     * occurrence, with the end time back in whole seconds and the start time derived
     * from it.
     */
    function PatternView(target: string): (v: seq<PatternRow>)
      reads this
      requires Valid()
      ensures |v| == Count(app, target)
      ensures forall k :: 0 <= k < |v| ==> v[k].app == target
      ensures forall k :: 0 <= k < |v| ==> v[k].startSec + v[k].duration == v[k].endSec as real
      ensures forall k :: 0 <= k < |v| ==>
                v[k].endSec == Select(app, endTs, target)[k] && v[k].duration == Select(app, duration, target)[k]
    {
      var fs := RenameFirstSeen(Select(app, func, target), FunName);
      var secs := WholeSeconds(Select(app, endTs, target));
      var durs := Select(app, duration, target);
      seq(|fs|, k requires 0 <= k < |fs| => PatternRow(target, fs[k], secs[k], secs[k] as real - durs[k], durs[k]))
    }

    /** The function column of the pattern view. */
    function ViewFunctions(target: string): (fs: seq<string>)
      reads this
      requires Valid()
      ensures |fs| == Count(app, target)
    {
      var v := PatternView(target);
      seq(|v|, k requires 0 <= k < |v| => v[k].func)
    }

    /**
     * The view names the functions of the application `fun_1`, `fun_2`, ... in order of
     * first occurrence, one name per distinct function, and two rows carry the same name
     * exactly when they invoked the same function.
     */
    lemma PatternViewFunctions(target: string)
      requires Valid()
      ensures Unique(ViewFunctions(target)) == Labels(FunName, FunctionCount(app, func, target))
      ensures target in app ==> |Unique(ViewFunctions(target))| == FunctionsPerApp(app, func)[target]
      ensures forall k, l :: 0 <= k < |ViewFunctions(target)| && 0 <= l < |ViewFunctions(target)| ==>
                (ViewFunctions(target)[k] == ViewFunctions(target)[l] <==>
                 Select(app, func, target)[k] == Select(app, func, target)[l])
    {
      var g := Select(app, func, target);
      assert ViewFunctions(target) == RenameFirstSeen(g, FunName);
      FunNameInjective();
      RenameFirstSeenLabels(g, FunName);
      forall k, l | 0 <= k < |g| && 0 <= l < |g|
        ensures RenameFirstSeen(g, FunName)[k] == RenameFirstSeen(g, FunName)[l] <==> g[k] == g[l]
      {
        RenamePreservesEquality(g, FunName, k, l);
      }
    }
  }

  /**
   * The preparation the script runs before any chart: load, shift to the reference date,
   * derive the calendar fields, rename the applications and merge the function counts.
   */
  method Prepare(rows: seq<Invocation>) returns (t: InvocationTable)
    ensures fresh(t) && t.HasCalendar() && |t.app| == |rows|
    ensures t.endTs == TimeShift.ShiftToReference(seq(|rows|, i requires 0 <= i < |rows| => rows[i].endTimestamp))
    ensures t.app == RenameFirstSeen(seq(|rows|, i requires 0 <= i < |rows| => rows[i].app), AppName)
    ensures t.func == seq(|rows|, i requires 0 <= i < |rows| => rows[i].func)
    ensures t.duration == seq(|rows|, i requires 0 <= i < |rows| => rows[i].duration)
    ensures t.numFunctions == NumFunctionsColumn(t.app, t.func)
  {
    t := new InvocationTable.Load(rows);
    assert t.func == seq(|rows|, i requires 0 <= i < |rows| => rows[i].func);
    assert t.duration == seq(|rows|, i requires 0 <= i < |rows| => rows[i].duration);
    assert t.endTs == seq(|rows|, i requires 0 <= i < |rows| => rows[i].endTimestamp);
    assert t.app == seq(|rows|, i requires 0 <= i < |rows| => rows[i].app);
    var _ := t.ShiftTimestamps();
    t.DeriveCalendarFields();
    t.RenameApps();
    t.MergeFunctionCounts();
  }
}
