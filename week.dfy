/**
 * The seven day descriptors of the current week, Sunday first.  The weekday
 * of today (0 = Sunday .. 6 = Saturday) is a parameter, and so is the
 * calendar: `dateOf(i)` is the day of the month of the i-th day of the week,
 * whatever the month rollover makes of it.
 */
module Week {
  import opened Habits

  datatype Day = Day(dayName: string, date: int, dayNumber: int, isToday: bool)

  const DayNames: seq<string> := ["Sun", "Mon", "Tue", "Wed", "Thu", "Fri", "Sat"]

  /** The day-slot the toggle marks for a weekday: the weekday plus one. */
  function TodaySlot(weekday: int): (slot: int)
    requires 0 <= weekday < 7
    ensures 1 <= slot <= 7
  {
    weekday + 1
  }

  /** The indices of the descriptors flagged as today. */
  function TodayIndices(days: seq<Day>): set<int> {
    set i | 0 <= i < |days| && days[i].isToday
  }

  method CurrentWeek(day: int, dateOf: int -> int) returns (days: seq<Day>)
    ensures |days| == 7
    ensures forall i :: 0 <= i < 7 ==>
      days[i].dayNumber == i + 1 && days[i].dayName == DayNames[i] && days[i].date == dateOf(i)
    ensures TodayIndices(days) == if 0 <= day < 7 then {day} else {}
    ensures forall i :: 0 <= i < 7 && 0 <= day < 7 && days[i].isToday ==> days[i].dayNumber == TodaySlot(day)
  {
    days := [];
    for i := 0 to 7
      invariant |days| == i
      invariant forall k :: 0 <= k < i ==>
        days[k] == Day(DayNames[k], dateOf(k), k + 1, k == day)
    {
      days := days + [Day(DayNames[i], dateOf(i), i + 1, i == day)];
    }
    assert forall k :: k in TodayIndices(days) <==> 0 <= day < 7 && k == day;
  }

  /**
   * The weekly view marks the cell of day-slot i + 1 when the record it
   * reads has i + 1 in `completed`.  In a record toggled with the slot of a
   * weekday, that cell changes for that weekday and for no other.
   */
  lemma TodayCellFlips(h: Habit, weekday: int, i: int)
    requires 0 <= weekday < 7 && 0 <= i < 7
    ensures (i + 1 in Toggled(h, TodaySlot(weekday)).completed) <==>
      ((i + 1 in h.completed) != (i == weekday))
  {
  }
}
