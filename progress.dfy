/**
 * The overall progress figure of the dashboard: the number of marked days
 * over all habits against the sum of their weekly targets, as a percentage.
 * The percentage is an exact rational here; where
 * `calculateOverallProgress` divides by a zero total it gets one of the two
 * non-finite results of floating-point division, and the model names them.
 */
module Progress {
  import opened Habits

  /** The first `reduce`: marked days summed over all habits. */
  function TotalCompleted(hs: seq<Habit>): (n: nat)
    ensures n == 0 <==> forall i :: 0 <= i < |hs| ==> hs[i].completed == []
  {
    if hs == [] then 0 else |hs[0].completed| + TotalCompleted(hs[1..])
  }

  /** The second `reduce`: weekly targets summed over all habits. */
  function TotalTargets(hs: seq<Habit>): (t: int)
    ensures (forall i :: 0 <= i < |hs| ==> hs[i].target > 0) ==> t >= |hs|
  {
    if hs == [] then 0 else hs[0].target + TotalTargets(hs[1..])
  }

  /** What dividing two numbers and scaling by 100 yields. */
  datatype Quotient = Finite(value: real) | NaN | PositiveInfinity

  function OverallProgress(hs: seq<Habit>): (p: Quotient)
    ensures p.Finite? <==> TotalTargets(hs) != 0
    ensures p.Finite? ==> IsQuotient(p.value, 100 * TotalCompleted(hs), TotalTargets(hs))
    ensures p.NaN? <==> TotalTargets(hs) == 0 && TotalCompleted(hs) == 0
  {
    var c, t := TotalCompleted(hs), TotalTargets(hs);
    if t != 0 then Finite(Ratio(100 * c, t))
    else if c == 0 then NaN
    else PositiveInfinity
  }

  /** No habit over its target: the marked days do not exceed the targets. */
  lemma {:induction false} CompletedWithinTargets(hs: seq<Habit>)
    requires forall i :: 0 <= i < |hs| ==> |hs[i].completed| <= hs[i].target
    ensures TotalCompleted(hs) <= TotalTargets(hs)
  {
    if hs != [] {
      CompletedWithinTargets(hs[1..]);
    }
  }

  /** `q` is the exact quotient `x / d`. */
  predicate IsQuotient(q: real, x: int, d: int) {
    q * d as real == x as real
  }

  /** Exact division of two integers. */
  function Ratio(x: int, d: int): (q: real)
    requires d != 0
    ensures IsQuotient(q, x, d)
  {
    x as real / d as real
  }

  /** A quotient of 0..100 times the divisor by a positive divisor lies in 0..100. */
  lemma ScaledQuotientBounds(x: int, d: int)
    requires d > 0 && 0 <= x <= 100 * d
    ensures 0.0 <= Ratio(x, d) <= 100.0
  {
    var q := Ratio(x, d);
    assert q * d as real == x as real;
    if q > 100.0 {
      assert (q - 100.0) * d as real > 0.0;
    }
  }

  /** With every habit within its target, the progress is a percentage in 0..100. */
  lemma ProgressAtMostHundred(hs: seq<Habit>)
    requires forall i :: 0 <= i < |hs| ==> |hs[i].completed| <= hs[i].target
    requires TotalTargets(hs) > 0
    ensures OverallProgress(hs).Finite?
    ensures 0.0 <= OverallProgress(hs).value <= 100.0
  {
    CompletedWithinTargets(hs);
    ScaledQuotientBounds(100 * TotalCompleted(hs), TotalTargets(hs));
  }

  /** A toggle copies every target, so the total of targets does not move. */
  lemma {:induction false} ToggleKeepsTargetTotal(hs: seq<Habit>, habitId: int, today: int)
    ensures TotalTargets(ToggleAll(hs, habitId, today)) == TotalTargets(hs)
  {
    if hs != [] {
      assert ToggleAll(hs, habitId, today)[1..] == ToggleAll(hs[1..], habitId, today);
      ToggleKeepsTargetTotal(hs[1..], habitId, today);
    }
  }

  /**
   * A toggle of a record whose id no other record carries moves the total of
   * marked days by exactly one: up when today was not marked, down when it
   * was (and occurred once).
   */
  lemma {:induction false} ToggleMovesCompletedByOne(hs: seq<Habit>, habitId: int, today: int, k: nat)
    requires UniqueIds(hs)
    requires k < |hs| && hs[k].id == habitId
    requires NoDuplicates(hs[k].completed)
    ensures TotalCompleted(ToggleAll(hs, habitId, today)) ==
      TotalCompleted(hs) + (if today in hs[k].completed then -1 else 1)
  {
    var tail := hs[1..];
    assert ToggleAll(hs, habitId, today)[1..] == ToggleAll(tail, habitId, today);
    if k == 0 {
      ToggleUnknownId(tail, habitId, today);
      if today in hs[0].completed {
        WithoutRemovesOne(hs[0].completed, today);
      }
    } else {
      assert hs[0].id != habitId;
      assert UniqueIds(tail) by {
        forall i, j | 0 <= i < j < |tail| ensures tail[i].id != tail[j].id {
          assert tail[i] == hs[i + 1] && tail[j] == hs[j + 1];
        }
      }
      ToggleMovesCompletedByOne(tail, habitId, today, k - 1);
    }
  }

  /** The seed data: 15 marked days against 26 target days, which rounds to 58%. */
  lemma SeedProgress()
    ensures OverallProgress(SeedHabits) == Finite(1500.0 / 26.0)
    ensures 57.5 <= OverallProgress(SeedHabits).value < 58.5
  {
    assert TotalCompleted(SeedHabits) == 15;
    assert TotalTargets(SeedHabits) == 26;
  }
}
