/**
 * The time slot record (backend `TimeSlot`): a day bitmask with Monday first,
 * a start and a length, both counted in 5-minute units, and a preference.
 */
module TimeSlots {
  import opened Util
  import opened Text

  datatype TimeSlot = TimeSlot(id: int, days: string, start: int, length: int, preference: real)

  /** The database column holds at most seven day flags. */
  const MaxDays: nat := 7

  const ShortDayNames: seq<string> := ["Lun", "Mar", "Mie", "Jue", "Vie", "Sab", "Dom"]

  /** The positions of `days` holding '1', in increasing order. */
  function ActiveIndices(days: string): (r: seq<nat>)
    ensures forall k :: 0 <= k < |r| ==> r[k] < |days| && days[r[k]] == '1'
    ensures forall i :: 0 <= i < |days| && days[i] == '1' ==> i in r
    ensures forall k, l :: 0 <= k < l < |r| ==> r[k] < r[l]
    ensures |r| == Occurrences(days, '1')
  {
    if |days| == 0 then []
    else
      var p := days[..|days| - 1];
      assert forall i :: 0 <= i < |p| ==> p[i] == days[i];
      ActiveIndices(p) + (if days[|days| - 1] == '1' then [|days| - 1] else [])
  }

  /**
   * `TimeSlot.get_day_names`: the short names of the active days, Monday
   * first; a '1' beyond the seventh position indexes past the name list,
   * which is Python's IndexError (`None` here).
   */
  function GetDayNames(days: string): (r: Option<seq<string>>)
    ensures r.None? <==> exists i :: MaxDays <= i < |days| && days[i] == '1'
    ensures r.Some? ==> |r.value| == Occurrences(days, '1')
    ensures r.Some? ==> forall k :: 0 <= k < |r.value| ==>
      ActiveIndices(days)[k] < MaxDays && r.value[k] == ShortDayNames[ActiveIndices(days)[k]]
  {
    var act := ActiveIndices(days);
    if forall k :: 0 <= k < |act| ==> act[k] < MaxDays
    then Some(seq(|act|, k requires 0 <= k < |act| => ShortDayNames[act[k]]))
    else
      assert exists k :: 0 <= k < |act| && act[k] >= MaxDays;
      None
  }

  /** A day bitmask as the column stores it: at most seven characters. */
  lemma StoredDaysHaveNames(days: string)
    requires |days| <= MaxDays
    ensures GetDayNames(days).Some?
  {
  }

  /** `get_start_time_formatted`: start·5 minutes as `HH:MM`. */
  function StartFormatted(ts: TimeSlot): string {
    ClockOfMinutes(ts.start * 5)
  }

  /** `get_end_time_formatted`: (start + length)·5 minutes as `HH:MM`. */
  function EndFormatted(ts: TimeSlot): string {
    ClockOfMinutes(EndMinute(ts))
  }

  /** The minute of the day at which a slot ends. */
  function EndMinute(ts: TimeSlot): int {
    (ts.start + ts.length) * 5
  }

  /** For a slot starting at or after midnight, the formatted start reads back as its minute. */
  lemma StartReadsBack(ts: TimeSlot)
    requires ts.start >= 0
    ensures ParseClock(StartFormatted(ts)) == Some(ts.start * 5)
  {
    ClockRoundTrip(ts.start * 5);
  }

  /** With a non-negative length as well, the formatted end reads back as its minute. */
  lemma EndReadsBack(ts: TimeSlot)
    requires ts.start >= 0 && ts.length >= 0
    ensures ParseClock(EndFormatted(ts)) == Some(EndMinute(ts))
  {
    ClockRoundTrip(EndMinute(ts));
  }

  /** Within the first hundred hours both strings are exactly `HH:MM`. */
  lemma FormattedWidth(ts: TimeSlot)
    requires ts.start >= 0 && ts.length >= 0 && (ts.start + ts.length) * 5 < 6000
    ensures |StartFormatted(ts)| == 5 && |EndFormatted(ts)| == 5
  {
    ClockLength(ts.start * 5);
    ClockLength((ts.start + ts.length) * 5);
  }

  /** The minute field of a formatted start is always below 60, also for a negative start. */
  lemma StartFields(ts: TimeSlot)
    ensures exists h, m :: 0 <= m < 60 && h * 60 + m == ts.start * 5 && StartFormatted(ts) == Clock(h, m)
  {
    var t := ts.start * 5;
    var h, m := t / 60, t % 60;
    assert 0 <= m < 60 && h * 60 + m == t;
    assert StartFormatted(ts) == Clock(h, m);
  }
}
