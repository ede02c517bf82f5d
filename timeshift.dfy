/**
 * The global time shift of lines 25-28: every end timestamp is moved by the same
 * offset so that the earliest one lands on 2021-01-31 00:00:00.
 */
module TimeShift {
  import opened Wrappers
  import opened Calendar

  /** `Series.min()` of a non-empty column. */
  function Min(ts: seq<int>): (m: int)
    requires |ts| > 0
    ensures m in ts
    ensures forall i :: 0 <= i < |ts| ==> m <= ts[i]
  {
    if |ts| == 1 then ts[0]
    else
      var rest := Min(ts[..|ts| - 1]);
      assert ts == ts[..|ts| - 1] + [ts[|ts| - 1]];
      if ts[|ts| - 1] < rest then ts[|ts| - 1] else rest
  }

  /** `time_shift = new_start_date - min`: NaT (None) on an empty column, whose minimum is NaT. */
  function ReferenceShift(ts: seq<int>): (shift: Option<int>)
    ensures shift.None? <==> |ts| == 0
    ensures shift.Some? ==> forall i :: 0 <= i < |ts| ==> ts[i] + shift.value >= ReferenceTimestamp
    ensures shift.Some? ==> exists i :: 0 <= i < |ts| && ts[i] + shift.value == ReferenceTimestamp
  {
    if |ts| == 0 then None else Some(ReferenceTimestamp - Min(ts))
  }

  /** Adds one offset to every timestamp of the column. */
  function Translate(ts: seq<int>, offset: int): seq<int> {
    seq(|ts|, i requires 0 <= i < |ts| => ts[i] + offset)
  }

  /** The shifted `end_timestamp` column of line 28 (an empty column stays empty). */
  function ShiftToReference(ts: seq<int>): (r: seq<int>)
    ensures |r| == |ts|
    ensures |ts| == 0 ==> r == ts
    ensures |ts| > 0 ==> forall i :: 0 <= i < |r| ==> r[i] >= ReferenceTimestamp
  {
    match ReferenceShift(ts)
    case None => ts
    case Some(offset) => Translate(ts, offset)
  }

  /**
   * The shift is one translation: every row moves by the same amount, so the order of
   * any two rows and the time between them are what they were.
   */
  lemma ShiftIsUniform(ts: seq<int>, i: nat, j: nat)
    requires i < |ts| && j < |ts|
    ensures |ShiftToReference(ts)| == |ts|
    ensures ShiftToReference(ts)[i] - ts[i] == ShiftToReference(ts)[j] - ts[j]
    ensures ShiftToReference(ts)[i] - ShiftToReference(ts)[j] == ts[i] - ts[j]
    ensures ShiftToReference(ts)[i] <= ShiftToReference(ts)[j] <==> ts[i] <= ts[j]
  {
  }

  /** After the shift the earliest timestamp is exactly 2021-01-31 00:00:00, and it is a row's own. */
  lemma {:induction false} ShiftedMinimumIsReference(ts: seq<int>)
    requires |ts| > 0
    ensures Min(ShiftToReference(ts)) == ReferenceTimestamp
    ensures ReferenceTimestamp in ShiftToReference(ts)
  {
    var offset := ReferenceTimestamp - Min(ts);
    var r := ShiftToReference(ts);
    assert r == Translate(ts, offset);
    var k :| 0 <= k < |ts| && ts[k] == Min(ts);
    assert r[k] == ReferenceTimestamp;
    var j :| 0 <= j < |r| && r[j] == Min(r);
    assert Min(r) == ts[j] + offset;
    assert ts[j] >= Min(ts);
  }

  /**
   * Every shifted row falls on or after 2021-01-31, and the earliest row is at hour 0 of
   * a Sunday (weekday 6).
   */
  lemma ShiftedCalendarStart(ts: seq<int>)
    requires |ts| > 0
    ensures forall i :: 0 <= i < |ts| ==> Date(ShiftToReference(ts)[i]) >= ReferenceDay
    ensures exists i :: 0 <= i < |ts| && ShiftToReference(ts)[i] == ReferenceTimestamp &&
                        Hour(ShiftToReference(ts)[i]) == 0 && DayOfWeek(ShiftToReference(ts)[i]) == 6
  {
    ShiftedMinimumIsReference(ts);
    ReferenceIsSundayMidnight();
    var r := ShiftToReference(ts);
    forall i | 0 <= i < |ts| ensures Date(r[i]) >= ReferenceDay {
      assert r[i] >= Min(r);
    }
    var k :| 0 <= k < |r| && r[k] == ReferenceTimestamp;
    assert Hour(r[k]) == 0 && DayOfWeek(r[k]) == 6;
  }
}
