# Habit tracker: completion bookkeeping

This project models the domain logic of the habit-tracker dashboard component
(`src/HabitTracker.js`): the toggle that marks or unmarks today's day-slot on a
habit and moves its streak, the two sums behind the overall-progress
percentage, and the construction of the seven day descriptors of the current
week. Everything the component renders is left out.

- `Habits` (`habits.dfy`): the `Habit` record, the seed habits (`SeedHabits`,
  src/HabitTracker.js:8-11), the filter that
  drops a day-slot (`Without`), the one-record update (`Toggled`), the list
  update (`ToggleAll`), and the state updater itself as a method with the
  `map` loop and the mutable locals of `toggleHabitCompletion`
  (`ToggleHabitCompletion`). Lemmas prove the toggle's properties.
- `Progress` (`progress.dfy`): the two `reduce` sums and the percentage. The
  percentage is an exact rational `Finite(v)`. A zero total of targets gives
  `NaN` (0/0) or `PositiveInfinity` (n/0), as the source's floating-point
  division does.
- `Week` (`week.dfy`): the week skeleton as a method with the seven-step loop
  (day names `DayNames`, src/HabitTracker.js:31),
  and how it connects to the day-slot the toggle marks.

Inputs that come from the clock become parameters. The day-slot `today`
(`new Date().getDay() + 1` in the source) is a parameter of the toggle. The
weekday (`getDay()`) and the calendar day of month of each day of the week
(`getDate()` after `setDate`) are parameters of `CurrentWeek`: an integer
`day` and a function `dateOf`.

Where the intended behaviour and the code differ, the model follows the code:

- Toggling twice is meant to restore the streak of every habit. The
  code clamps the streak at zero, so a habit with today marked and streak 0
  comes back with streak 1 (`ClampedStreakIsNotRestored`). The seed habits
  have `streak == |completed|`, and a toggle on a duplicate-free record keeps
  that relation (`ToggledKeepsStreakCount`). After any sequence of toggles on
  day-slots 1..7 from the seed data, every record is still duplicate-free
  with its streak equal to its number of marked days
  (`SeedTogglesKeepWellFormed`). On such a list the clamp never fires, and
  two toggles give back the streak and the days (`WellFormedToggleTwice`).
- Zero total targets would best give 0%. The code
  divides by zero, which the model records as `NaN` or `PositiveInfinity`.
- `completed` is meant as a set of day-slots. The code keeps it as an array:
  a toggle appends at the end and filters out every occurrence.

## Model

| member | source | states |
|---|---|---|
| `Habits.Without` | src/HabitTracker.js:53 | the filtered array keeps every value other than `today` with its multiplicity, and no copy of `today` |
| `Habits.WithoutAbsent` | src/HabitTracker.js:53 | filtering out a value that is not there gives the same array back |
| `Habits.WithoutConcat` | src/HabitTracker.js:53 | the filter distributes over concatenation, so the kept values stay in their original order |
| `Habits.WithoutKeepsNoDuplicates` | src/HabitTracker.js:53 | filtering a duplicate-free array leaves it duplicate-free |
| `Habits.WithoutRemovesOne` | src/HabitTracker.js:53 | filtering out a value that occurs in a duplicate-free array shortens it by exactly one |
| `Habits.WithoutSingleOccurrence` | src/HabitTracker.js:53 | filtering out a value that occurs exactly once gives the days before it followed by the days after it |
| `Habits.OccursOnce` | src/HabitTracker.js:48 | in a duplicate-free array a value that `includes` finds occurs exactly once |
| `Habits.Toggled` | src/HabitTracker.js:46-68 | one toggle: id, name, target and color are copied; the streak is at least 0; membership of `today` is flipped and no other day changes; if absent, `today` is appended and the streak goes up by one (zero if that is still negative); if present, every copy of `today` is removed and the streak goes down by one, clamped at 0 |
| `Habits.ToggleAll` | src/HabitTracker.js:44-70 | the mapped list has the same length and order; records with the matching id are toggled and all others are returned unchanged |
| `Habits.ToggleHabitCompletion` | src/HabitTracker.js:42-73 | the updater, built with a loop, a copied `completed`, `push` or reassigned `filter`, and a streak clamped after it is moved, returns exactly `ToggleAll` of the previous list |
| `Habits.ToggleTwiceRestores` | src/HabitTracker.js:51-62 | with `today` not marked and the streak not negative, toggling twice returns the very same record |
| `Habits.ToggleTwiceFromPresent` | src/HabitTracker.js:51-62 | with `today` marked once and a streak of at least 1, toggling twice restores the streak and the same days, with `today` moved to the end |
| `Habits.ToggledKeepsOrder` | src/HabitTracker.js:52-53 | with `today` marked exactly once, between days `a` and days `b`, the toggle leaves exactly `a + b`, in order |
| `Habits.ToggledKeepsNoDuplicates` | src/HabitTracker.js:48-55 | a duplicate-free `completed` stays duplicate-free after a toggle |
| `Habits.ToggledStaysInWeek` | src/HabitTracker.js:47-55 | when `today` and all marked days lie in 1..7, they still do after a toggle |
| `Habits.ToggledKeepsStreakCount` | src/HabitTracker.js:51-62 | on a duplicate-free record whose streak equals its number of marked days, a toggle keeps that equality |
| `Habits.SeedIsWellFormed` | src/HabitTracker.js:7-12 | the seed habits have distinct ids and duplicate-free days in 1..7, and each streak equals its number of marked days |
| `Habits.ToggleAllKeepsWellFormed` | src/HabitTracker.js:44-70 | toggling a list whose every record has duplicate-free days in 1..7 and streak equal to its number of days, on a slot in 1..7, keeps all of that; distinct ids stay distinct |
| `Habits.TogglesKeepWellFormed` | src/HabitTracker.js:42-73 | after any sequence of toggles on slots 1..7 from such a list, the list is still well-formed, ids stay distinct, and no streak is negative |
| `Habits.WellFormedToggleTwice` | src/HabitTracker.js:51-62 | on a well-formed list, toggling any record twice on the same slot gives back its streak and the multiset of its days |
| `Habits.SeedTogglesKeepWellFormed` | src/HabitTracker.js:7-73 | after any sequence of toggles on slots 1..7 from the seed data, every record is duplicate-free and its streak equals its number of marked days |
| `Habits.ToggleUnknownId` | src/HabitTracker.js:44-70 | toggling an id that no record carries returns the list unchanged |
| `Habits.SeedToggleFriday` | src/HabitTracker.js:42-73 | toggling seed habit 1 on day-slot 6 gives days [1,2,3,4,5,6] and streak 6, and leaves the other habits as they were |
| `Habits.FreshHabitOnOff` | src/HabitTracker.js:51-62 | a habit with streak 0 and no days, toggled on a day, gets streak 1 and that one day; toggled again, it is back to streak 0 and no days |
| `Habits.ClampedStreakIsNotRestored` | src/HabitTracker.js:61-62 | a record with today marked and streak 0 gets streak 1 after two toggles: the clamp loses one step |
| `Progress.TotalCompleted` | src/HabitTracker.js:83 | the total number of marked days is zero exactly when no habit has a marked day |
| `Progress.TotalTargets` | src/HabitTracker.js:84 | with every target positive, the target total is at least the number of habits, so it is nonzero for a nonempty list |
| `Progress.Ratio` | src/HabitTracker.js:85 | the exact quotient: it times the divisor gives the dividend |
| `Progress.OverallProgress` | src/HabitTracker.js:82-86 | the result is finite exactly when the target total is nonzero, and then it times the target total equals 100 times the completed total; 0/0 is NaN; n/0 with n > 0 is +Infinity |
| `Progress.CompletedWithinTargets` | src/HabitTracker.js:83-84 | when no habit has more marked days than its target, the completed total is at most the target total |
| `Progress.ProgressAtMostHundred` | src/HabitTracker.js:82-86 | when no habit is over its target and the target total is positive, the progress lies in 0..100 |
| `Progress.ToggleKeepsTargetTotal` | src/HabitTracker.js:64-68 | a toggle copies every target, so the target total of the list does not change |
| `Progress.ToggleMovesCompletedByOne` | src/HabitTracker.js:42-84 | with unique ids and a duplicate-free matched record, a toggle moves the completed total by +1 if today was unmarked and by -1 if it was marked |
| `Progress.SeedProgress` | src/HabitTracker.js:82-86 | the seed data gives 15 marked days against 26 target days, so the exact progress is 1500/26, which rounds to 58 |
| `Week.TodaySlot` | src/HabitTracker.js:47 | the day-slot of a weekday 0..6 lies in 1..7 |
| `Week.CurrentWeek` | src/HabitTracker.js:18-39 | seven descriptors; entry i has day number i+1, the name of weekday i and the date the calendar gives; the set of entries flagged as today is exactly {day} for a weekday 0..6, and empty otherwise; the flagged entry's day number is `TodaySlot(day)`, the slot a toggle made on that same weekday marks |
| `Week.TodayCellFlips` | src/HabitTracker.js:376-377 | the weekly view shows cell i+1 as done when the record it reads has i+1 in `completed`; in a record toggled with the slot of a weekday, that cell changes for that weekday and for no other |

## Left out

- React state plumbing (`useState`, `setHabits`, `setActiveTab`, `setSelectedHabit`), tab navigation and all rendering: presentational. The state updater is modelled as a function from the previous list to the next.
- The "just completed" pulse (`setIsAnimating` with a one-second `setTimeout`): timer-driven cosmetic state.
- The clock and the `Date` library: `today`, the weekday and the day-of-month numbers are parameters. The source reads the clock once per matching record; the model uses one `today` for the whole update.
- The week and the toggle on different days: the component builds the week once, when it mounts (src/HabitTracker.js:14, weekday read at line 21), while each toggle reads the clock again (line 47). The model gives both the same weekday, so it assumes no toggle happens on a later day than the mount; after midnight the flagged entry and the toggled slot differ in the source.
- The detail view's record: the weekly view reads `selectedHabit`, a copy taken when the detail opens (line 77), and that view's button has no handler, so no toggle changes the cells while it is on screen. `TodayCellFlips` is about the record the view is given, not about a live update.
- Month rollover of `setDate`/`getDate`: the calendar's day numbers come in through `dateOf` and are only copied into the descriptors.
- Floating-point division, `Math.round` and the per-habit percentages of the views: the overall percentage is an exact rational, written `100 * completed / targets`, which over exact rationals equals the source's `(completed / targets) * 100`; sums are over unbounded integers (the source's doubles are exact for these small counts).
- `Progress.TotalCompleted`, `Progress.TotalTargets`: `reduce` folds from the left; the model sums from the head, which gives the same integer.
- The random placeholder numbers, the fixed calendar-month grid and the inert settings form: demo data with no semantics.
