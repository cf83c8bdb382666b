/**
 * Habit records and the completion toggle of the habit tracker.
 *
 * A habit carries the day-slots (1 = Sunday .. 7 = Saturday) of the current
 * week on which it was marked done, and a streak counter.  Toggling a habit
 * for the slot `today` flips whether that slot is marked and moves the streak
 * by one, never below zero.  The clock read that yields `today` in
 * `toggleHabitCompletion` is a parameter here.
 */
module Habits {

  datatype Habit = Habit(
    id: int,
    name: string,
    streak: int,
    target: int,
    completed: seq<int>,
    color: string)

  /** The sample habits the tracker starts with. */
  const SeedHabits: seq<Habit> := [
    Habit(1, "Morning Meditation", 5, 7, [1, 2, 3, 4, 5], "#4CAF50"),
    Habit(2, "Read 30 minutes", 3, 7, [2, 4, 6], "#2196F3"),
    Habit(3, "Exercise", 0, 5, [], "#FF5722"),
    Habit(4, "Drink 8 cups of water", 7, 7, [1, 2, 3, 4, 5, 6, 7], "#9C27B0")
  ]

  ghost predicate NoDuplicates(s: seq<int>) {
    forall i, j :: 0 <= i < j < |s| ==> s[i] != s[j]
  }

  /** Every value is a day-slot of the week. */
  ghost predicate InWeek(s: seq<int>) {
    forall i :: 0 <= i < |s| ==> 1 <= s[i] <= 7
  }

  ghost predicate UniqueIds(hs: seq<Habit>) {
    forall i, j :: 0 <= i < j < |hs| ==> hs[i].id != hs[j].id
  }

  /** The fields a toggle copies unchanged. */
  predicate SameIdentity(a: Habit, b: Habit) {
    a.id == b.id && a.name == b.name && a.target == b.target && a.color == b.color
  }

  /** `s.filter(d => d !== x)`: every occurrence of `x` dropped. */
  function Without(s: seq<int>, x: int): (r: seq<int>)
    ensures multiset(r) == multiset(s)[x := 0]
    ensures forall y :: y in r <==> y in s && y != x
  {
    if s == [] then []
    else
      assert s == [s[0]] + s[1..];
      var rest := Without(s[1..], x);
      if s[0] == x then rest else [s[0]] + rest
  }

  /** One toggle of the record `h` for the day-slot `today`. */
  function Toggled(h: Habit, today: int): (r: Habit)
    ensures SameIdentity(r, h)
    ensures r.streak >= 0
    ensures (today in r.completed) <==> (today !in h.completed)
    ensures forall d :: d != today ==> (d in r.completed <==> d in h.completed)
    ensures today !in h.completed ==>
      r.completed == h.completed + [today] &&
      r.streak == (if h.streak + 1 < 0 then 0 else h.streak + 1)
    ensures today in h.completed ==>
      multiset(r.completed) == multiset(h.completed)[today := 0] &&
      r.streak == (if h.streak - 1 < 0 then 0 else h.streak - 1)
  {
    var wasCompleted := today in h.completed;
    var moved := if wasCompleted then h.streak - 1 else h.streak + 1;
    h.(completed := if wasCompleted then Without(h.completed, today) else h.completed + [today],
       streak := if moved < 0 then 0 else moved)
  }

  /** The list the state updater returns: matching records toggled, the rest as they were. */
  function ToggleAll(hs: seq<Habit>, habitId: int, today: int): (r: seq<Habit>)
    ensures |r| == |hs|
    ensures forall i :: 0 <= i < |hs| ==>
      r[i] == if hs[i].id == habitId then Toggled(hs[i], today) else hs[i]
  {
    if hs == [] then []
    else [if hs[0].id == habitId then Toggled(hs[0], today) else hs[0]]
         + ToggleAll(hs[1..], habitId, today)
  }

  /**
   * The updater passed to the state setter: maps the previous habit list to
   * the next one, building the toggled record from a copy of `completed` and
   * a streak that is clamped after it is moved.
   */
  method ToggleHabitCompletion(prevHabits: seq<Habit>, habitId: int, today: int)
    returns (habits: seq<Habit>)
    ensures habits == ToggleAll(prevHabits, habitId, today)
  {
    habits := [];
    var i := 0;
    while i < |prevHabits|
      invariant 0 <= i <= |prevHabits|
      invariant |habits| == i
      invariant forall k :: 0 <= k < i ==>
        habits[k] == if prevHabits[k].id == habitId then Toggled(prevHabits[k], today) else prevHabits[k]
    {
      var habit := prevHabits[i];
      if habit.id == habitId {
        var isCompleted := today in habit.completed;
        var newCompleted := habit.completed;
        if isCompleted {
          newCompleted := Without(newCompleted, today);
        } else {
          newCompleted := newCompleted + [today];
        }
        var newStreak := if isCompleted then habit.streak - 1 else habit.streak + 1;
        if newStreak < 0 {
          newStreak := 0;
        }
        habit := habit.(completed := newCompleted, streak := newStreak);
      }
      habits := habits + [habit];
      i := i + 1;
    }
  }

  // ---------------------------------------------------------------------
  // Properties of Without

  lemma {:induction false} WithoutAbsent(s: seq<int>, x: int)
    requires x !in s
    ensures Without(s, x) == s
  {
    if s != [] {
      WithoutAbsent(s[1..], x);
    }
  }

  /** Filtering distributes over concatenation, so the survivors keep their order. */
  lemma {:induction false} WithoutConcat(a: seq<int>, b: seq<int>, x: int)
    ensures Without(a + b, x) == Without(a, x) + Without(b, x)
  {
    if a == [] {
      assert a + b == b;
    } else {
      assert (a + b)[1..] == a[1..] + b;
      WithoutConcat(a[1..], b, x);
    }
  }

  lemma {:induction false} WithoutKeepsNoDuplicates(s: seq<int>, x: int)
    requires NoDuplicates(s)
    ensures NoDuplicates(Without(s, x))
  {
    if s != [] {
      var tail := s[1..];
      assert NoDuplicates(tail) by {
        forall i, j | 0 <= i < j < |tail| ensures tail[i] != tail[j] {
          assert tail[i] == s[i + 1] && tail[j] == s[j + 1];
        }
      }
      WithoutKeepsNoDuplicates(tail, x);
      if s[0] != x {
        var w := Without(tail, x);
        assert s[0] !in tail by {
          forall j | 0 <= j < |tail| ensures tail[j] != s[0] {
            assert tail[j] == s[j + 1];
          }
        }
        assert s[0] !in multiset(tail);
        assert s[0] !in w;
        assert Without(s, x) == [s[0]] + w;
        forall i, j | 0 <= i < j < |[s[0]] + w| ensures ([s[0]] + w)[i] != ([s[0]] + w)[j] {
          if i > 0 {
            assert ([s[0]] + w)[i] == w[i - 1];
          }
          assert ([s[0]] + w)[j] == w[j - 1];
        }
      }
    }
  }

  /** Removing a value that occurs exactly once shortens the list by one. */
  lemma {:induction false} WithoutRemovesOne(s: seq<int>, x: int)
    requires NoDuplicates(s) && x in s
    ensures |Without(s, x)| == |s| - 1
  {
    var tail := s[1..];
    if s[0] == x {
      assert x !in tail by {
        forall j | 0 <= j < |tail| ensures tail[j] != x {
          assert tail[j] == s[j + 1];
        }
      }
      WithoutAbsent(tail, x);
    } else {
      assert NoDuplicates(tail) by {
        forall i, j | 0 <= i < j < |tail| ensures tail[i] != tail[j] {
          assert tail[i] == s[i + 1] && tail[j] == s[j + 1];
        }
      }
      assert x in tail;
      WithoutRemovesOne(tail, x);
    }
  }

  /** Filtering out a value that occurs once drops just that occurrence. */
  lemma WithoutSingleOccurrence(a: seq<int>, b: seq<int>, x: int)
    requires x !in a && x !in b
    ensures Without(a + [x] + b, x) == a + b
  {
    var ax := a + [x];
    assert Without([x], x) == [] by {
      assert [x][1..] == [];
    }
    WithoutConcat(a, [x], x);
    WithoutAbsent(a, x);
    assert Without(ax, x) == a;
    WithoutConcat(ax, b, x);
    WithoutAbsent(b, x);
    calc {
      Without(a + [x] + b, x);
      Without(ax + b, x);
      Without(ax, x) + Without(b, x);
      a + b;
    }
  }

  /** In a duplicate-free list a present value occurs exactly once. */
  lemma {:induction false} OccursOnce(s: seq<int>, x: int)
    requires NoDuplicates(s) && x in s
    ensures multiset(s)[x] == 1
  {
    var tail := s[1..];
    assert s == [s[0]] + tail;
    if s[0] == x {
      assert x !in tail by {
        forall j | 0 <= j < |tail| ensures tail[j] != x {
          assert tail[j] == s[j + 1];
        }
      }
    } else {
      assert NoDuplicates(tail) by {
        forall i, j | 0 <= i < j < |tail| ensures tail[i] != tail[j] {
          assert tail[i] == s[i + 1] && tail[j] == s[j + 1];
        }
      }
      OccursOnce(tail, x);
    }
  }

  // ---------------------------------------------------------------------
  // Properties of the toggle

  /** Today absent, streak not negative: toggling twice gives back the very same record. */
  lemma ToggleTwiceRestores(h: Habit, today: int)
    requires today !in h.completed && h.streak >= 0
    ensures Toggled(Toggled(h, today), today) == h
  {
    WithoutConcat(h.completed, [today], today);
    WithoutAbsent(h.completed, today);
  }

  /**
   * Today present, no duplicates, streak at least one: toggling twice gives
   * back the streak and the same days, with `today` moved to the end.
   */
  lemma ToggleTwiceFromPresent(h: Habit, today: int)
    requires today in h.completed && NoDuplicates(h.completed) && h.streak >= 1
    ensures Toggled(Toggled(h, today), today).streak == h.streak
    ensures Toggled(Toggled(h, today), today).completed == Without(h.completed, today) + [today]
    ensures multiset(Toggled(Toggled(h, today), today).completed) == multiset(h.completed)
  {
    var s := h.completed;
    OccursOnce(s, today);
    assert multiset(Without(s, today) + [today]) == multiset(s)[today := 0] + multiset{today};
  }

  /**
   * Today present exactly once: the toggle removes it and keeps the other
   * days in their order.
   */
  lemma ToggledKeepsOrder(h: Habit, today: int, a: seq<int>, b: seq<int>)
    requires h.completed == a + [today] + b && today !in a && today !in b
    ensures Toggled(h, today).completed == a + b
  {
    assert h.completed[|a|] == today;
    WithoutSingleOccurrence(a, b, today);
  }

  /** A duplicate-free `completed` stays duplicate-free. */
  lemma ToggledKeepsNoDuplicates(h: Habit, today: int)
    requires NoDuplicates(h.completed)
    ensures NoDuplicates(Toggled(h, today).completed)
  {
    if today in h.completed {
      WithoutKeepsNoDuplicates(h.completed, today);
    } else {
      var r := h.completed + [today];
      forall i, j | 0 <= i < j < |r| ensures r[i] != r[j] {
        if j == |r| - 1 {
          assert r[i] == h.completed[i];
        }
      }
    }
  }

  /** Day-slots and `today` in 1..7 keep `completed` within 1..7. */
  lemma ToggledStaysInWeek(h: Habit, today: int)
    requires InWeek(h.completed) && 1 <= today <= 7
    ensures InWeek(Toggled(h, today).completed)
  {
    var r := Toggled(h, today).completed;
    forall i | 0 <= i < |r| ensures 1 <= r[i] <= 7 {
      assert r[i] in r;
      if r[i] != today {
        assert r[i] in h.completed;
      }
    }
  }

  /**
   * The seed records have a streak equal to the number of marked days; with
   * duplicate-free days a toggle keeps it so, which means the clamp at zero
   * never fires on the records the tracker starts from.
   */
  lemma ToggledKeepsStreakCount(h: Habit, today: int)
    requires NoDuplicates(h.completed) && h.streak == |h.completed|
    ensures Toggled(h, today).streak == |Toggled(h, today).completed|
  {
    if today in h.completed {
      WithoutRemovesOne(h.completed, today);
    }
  }

  /**
   * The invariant of the habit list: every record has duplicate-free days in
   * 1..7 and a streak equal to its number of marked days (hence not negative).
   */
  ghost predicate WellFormed(hs: seq<Habit>) {
    forall i :: 0 <= i < |hs| ==>
      NoDuplicates(hs[i].completed) && InWeek(hs[i].completed) &&
      hs[i].streak == |hs[i].completed|
  }

  lemma SeedIsWellFormed()
    ensures UniqueIds(SeedHabits)
    ensures WellFormed(SeedHabits)
  {
    forall i | 0 <= i < |SeedHabits|
      ensures NoDuplicates(SeedHabits[i].completed) && InWeek(SeedHabits[i].completed)
      ensures SeedHabits[i].streak == |SeedHabits[i].completed|
    {
      var s := SeedHabits[i].completed;
      assert forall k :: 0 <= k < |s| ==> s[k] == if i == 1 then 2 * k + 2 else k + 1;
    }
  }

  /** A toggle on a day-slot of the week keeps the list invariant and the ids. */
  lemma ToggleAllKeepsWellFormed(hs: seq<Habit>, habitId: int, today: int)
    requires WellFormed(hs) && 1 <= today <= 7
    ensures WellFormed(ToggleAll(hs, habitId, today))
    ensures UniqueIds(hs) ==> UniqueIds(ToggleAll(hs, habitId, today))
  {
    var r := ToggleAll(hs, habitId, today);
    forall i | 0 <= i < |hs|
      ensures NoDuplicates(r[i].completed) && InWeek(r[i].completed) && r[i].streak == |r[i].completed|
    {
      if hs[i].id == habitId {
        ToggledKeepsNoDuplicates(hs[i], today);
        ToggledStaysInWeek(hs[i], today);
        ToggledKeepsStreakCount(hs[i], today);
      }
    }
  }

  /** One user action: toggle the habit `habitId` on the day-slot `today`. */
  datatype Toggle = Toggle(habitId: int, today: int)

  /** The habit list after the given toggles, in order. */
  function ApplyToggles(hs: seq<Habit>, toggles: seq<Toggle>): seq<Habit>
    decreases |toggles|
  {
    if toggles == [] then hs
    else ApplyToggles(ToggleAll(hs, toggles[0].habitId, toggles[0].today), toggles[1..])
  }

  /**
   * After any sequence of toggles on day-slots of the week, starting from a
   * well-formed list, the list is still well-formed: no duplicate days, no
   * negative streak, and every streak equals its number of marked days.
   */
  lemma {:induction false} TogglesKeepWellFormed(hs: seq<Habit>, toggles: seq<Toggle>)
    requires WellFormed(hs) && UniqueIds(hs)
    requires forall k :: 0 <= k < |toggles| ==> 1 <= toggles[k].today <= 7
    ensures WellFormed(ApplyToggles(hs, toggles)) && UniqueIds(ApplyToggles(hs, toggles))
    ensures forall i :: 0 <= i < |ApplyToggles(hs, toggles)| ==> ApplyToggles(hs, toggles)[i].streak >= 0
    decreases |toggles|
  {
    if toggles != [] {
      ToggleAllKeepsWellFormed(hs, toggles[0].habitId, toggles[0].today);
      TogglesKeepWellFormed(ToggleAll(hs, toggles[0].habitId, toggles[0].today), toggles[1..]);
    }
  }

  /**
   * On a well-formed list the clamp at zero never fires: a record with
   * `today` marked has a streak of at least one, so two toggles give back its
   * streak and its days.
   */
  lemma WellFormedToggleTwice(hs: seq<Habit>, i: int, today: int)
    requires WellFormed(hs) && 0 <= i < |hs|
    ensures Toggled(Toggled(hs[i], today), today).streak == hs[i].streak
    ensures multiset(Toggled(Toggled(hs[i], today), today).completed) == multiset(hs[i].completed)
  {
    var h := hs[i];
    if today in h.completed {
      assert |h.completed| >= 1;
      ToggleTwiceFromPresent(h, today);
    } else {
      ToggleTwiceRestores(h, today);
    }
  }

  /** From the seed data, any toggles on day-slots of the week keep the invariant. */
  lemma SeedTogglesKeepWellFormed(toggles: seq<Toggle>)
    requires forall k :: 0 <= k < |toggles| ==> 1 <= toggles[k].today <= 7
    ensures forall i :: 0 <= i < |ApplyToggles(SeedHabits, toggles)| ==>
      NoDuplicates(ApplyToggles(SeedHabits, toggles)[i].completed) &&
      ApplyToggles(SeedHabits, toggles)[i].streak == |ApplyToggles(SeedHabits, toggles)[i].completed|
  {
    SeedIsWellFormed();
    TogglesKeepWellFormed(SeedHabits, toggles);
  }

  /** An id no record carries leaves the list as it was. */
  lemma ToggleUnknownId(hs: seq<Habit>, habitId: int, today: int)
    requires forall i :: 0 <= i < |hs| ==> hs[i].id != habitId
    ensures ToggleAll(hs, habitId, today) == hs
  {
  }

  /** The first seed habit toggled on Friday (slot 6). */
  lemma SeedToggleFriday()
    ensures ToggleAll(SeedHabits, 1, 6)[0].completed == [1, 2, 3, 4, 5, 6]
    ensures ToggleAll(SeedHabits, 1, 6)[0].streak == 6
    ensures ToggleAll(SeedHabits, 1, 6)[1..] == SeedHabits[1..]
  {
    var first := SeedHabits[0];
    assert 6 !in first.completed;
    assert first.completed + [6] == [1, 2, 3, 4, 5, 6];
    assert ToggleAll(SeedHabits, 1, 6)[0] == Toggled(first, 6);
  }

  /** A fresh habit toggled on then off again: the streak returns to zero. */
  lemma FreshHabitOnOff(h: Habit, day: int)
    requires h.streak == 0 && h.completed == []
    ensures Toggled(h, day).streak == 1 && Toggled(h, day).completed == [day]
    ensures Toggled(Toggled(h, day), day).streak == 0
    ensures Toggled(Toggled(h, day), day).completed == []
  {
    assert Without([day], day) == Without([], day);
  }

  /**
   * Toggling twice does not give back the streak of a record that has today
   * marked with a streak of zero: the clamp loses the step down.
   */
  lemma ClampedStreakIsNotRestored()
    ensures Toggled(Toggled(Habit(9, "Walk", 0, 7, [3], "#000000"), 3), 3).streak == 1
  {
  }
}
