/** The local timers over whole runs of checks: how often a timer is executed, and when. */
module TimerRuns {
  import opened LocalTimer

  // ----- runs -----

  datatype Step = Step(now: nat, online: Online)

  function Run(tasks: seq<Task>, steps: seq<Step>): (r: (seq<Task>, seq<Entry>))
    ensures |r.0| == |tasks|
  {
    if steps == [] then (tasks, [])
    else
      var last := steps[|steps| - 1];
      var (ts, log) := Run(tasks, steps[..|steps| - 1]);
      CheckedLength(ts, 0, last.now, last.online);
      var (after, entries) := CheckFrom(ts, 0, last.now, last.online);
      (after, log + entries)
  }

  lemma {:induction false} CheckedLength(tasks: seq<Task>, i: nat, now: nat, online: Online)
    requires i <= |tasks|
    ensures |CheckFrom(tasks, i, now, online).0| == |tasks|
    decreases |tasks| - i
  {
    hide CheckSlot;
    if i < |tasks| {
      CheckedLength(tasks[i := CheckSlot(tasks[i], i, now, online(i)).0], i + 1, now, online);
    }
  }

  /** The clock does not go back. */
  predicate Forward(steps: seq<Step>) {
    forall i, j :: 0 <= i < j < |steps| ==> steps[i].now <= steps[j].now
  }

  /** One slot's part of the log. */
  function Of(log: seq<Entry>, slot: nat): seq<Entry> {
    if log == [] then []
    else Of(log[..|log| - 1], slot) + if log[|log| - 1].slot == slot then [log[|log| - 1]] else []
  }

  lemma {:induction false} OfConcat(a: seq<Entry>, b: seq<Entry>, slot: nat)
    ensures Of(a + b, slot) == Of(a, slot) + Of(b, slot)
    decreases |b|
  {
    if b == [] {
      assert a + b == a;
    } else {
      assert (a + b)[..|a + b| - 1] == a + b[..|b| - 1];
      OfConcat(a, b[..|b| - 1], slot);
    }
  }

  lemma {:induction false} OfSlot(entries: seq<Entry>, k: nat, slot: nat)
    requires forall i :: 0 <= i < |entries| ==> entries[i].slot == k
    ensures Of(entries, slot) == if k == slot then entries else []
    decreases |entries|
  {
    if entries != [] {
      OfSlot(entries[..|entries| - 1], k, slot);
    }
  }

  lemma OwnEntries(t: Task, slot: nat, now: nat, online: bool)
    ensures forall i :: 0 <= i < |CheckSlot(t, slot, now, online).1| ==>
      CheckSlot(t, slot, now, online).1[i].slot == slot
  {
  }

  /** What one check does to one slot is what it does to that slot alone. */
  lemma {:induction false} SlotOfCheck(tasks: seq<Task>, i: nat, now: nat, online: Online, slot: nat)
    requires i <= |tasks| && slot < |tasks|
    ensures var r := CheckFrom(tasks, i, now, online);
      && |r.0| == |tasks|
      && (slot < i ==> r.0[slot] == tasks[slot] && Of(r.1, slot) == [])
      && (slot >= i ==> (r.0[slot], Of(r.1, slot)) == CheckSlot(tasks[slot], slot, now, online(slot)))
    decreases |tasks| - i
  {
    hide CheckSlot;
    if i < |tasks| {
      var (t, entries) := CheckSlot(tasks[i], i, now, online(i));
      SlotOfCheck(tasks[i := t], i + 1, now, online, slot);
      OwnEntries(tasks[i], i, now, online(i));
      OfSlot(entries, i, slot);
      var more := CheckFrom(tasks[i := t], i + 1, now, online).1;
      OfConcat(entries, more, slot);
      if slot == i {
        assert entries + [] == entries;
      } else {
        assert [] + Of(more, slot) == Of(more, slot);
      }
    }
  }

  /** One slot over a run, on its own. */
  function SlotRun(t: Task, slot: nat, steps: seq<Step>): (Task, seq<Entry>) {
    if steps == [] then (t, [])
    else
      var last := steps[|steps| - 1];
      var (u, log) := SlotRun(t, slot, steps[..|steps| - 1]);
      var (v, entries) := CheckSlot(u, slot, last.now, last.online(slot));
      (v, log + entries)
  }

  lemma {:induction false} SlotOfRun(tasks: seq<Task>, steps: seq<Step>, slot: nat)
    requires slot < |tasks|
    ensures var r := Run(tasks, steps);
      (r.0[slot], Of(r.1, slot)) == SlotRun(tasks[slot], slot, steps)
    decreases |steps|
  {
    hide CheckFrom, CheckSlot;
    if steps != [] {
      var last := steps[|steps| - 1];
      var (ts, log) := Run(tasks, steps[..|steps| - 1]);
      SlotOfRun(tasks, steps[..|steps| - 1], slot);
      SlotOfCheck(ts, 0, last.now, last.online, slot);
      OfConcat(log, CheckFrom(ts, 0, last.now, last.online).1, slot);
    }
  }

  // ----- a weekly timer -----

  /** In its own minute of one of its days. */
  predicate OnTime(t: Task, e: Entry)
    requires t.Weekly?
  {
    Has(t.days, Weekday(e.at)) && Hour(e.at) == t.hour && Minute(e.at) == t.minute
  }

  predicate SamePlan(t: Task, u: Task) {
    t.Weekly? && u.Weekly? && t.hour == u.hour && t.minute == u.minute && t.days == u.days
  }

  /** Each settled day is marked for as long as it lasts, and settled once. */
  ghost predicate DayMarked(t: Task, log: seq<Entry>, now: nat)
    requires t.Weekly?
  {
    && (forall i :: 0 <= i < |log| && Settles(log[i]) ==>
      && log[i].at <= now && Has(t.days, Weekday(log[i].at))
      && (LocalDay(log[i].at) == LocalDay(now) ==> Has(t.processed, Weekday(now))))
    && (forall i, j :: 0 <= i < j < |log| && Settles(log[i]) && Settles(log[j]) ==>
      LocalDay(log[i].at) != LocalDay(log[j].at))
    && (forall i :: 0 <= i < |log| && log[i].Executed? ==> OnTime(t, log[i]))
  }

  lemma LaterDay(now: nat, next: nat)
    requires now <= next
    ensures LocalDay(now) <= LocalDay(next)
  {
  }

  lemma WeekdayIsOne(now: nat)
    ensures Weekday(now) < 7
  {
  }

  lemma TimePasses(t: Task, log: seq<Entry>, now: nat, next: nat)
    requires t.Weekly? && DayMarked(t, log, now) && now <= next
    ensures DayMarked(t, log, next)
  {
    hide Has, OnTime;
    forall i | 0 <= i < |log| && Settles(log[i])
      ensures log[i].at <= next && (LocalDay(log[i].at) == LocalDay(next) ==> Has(t.processed, Weekday(next)))
    {
      LaterDay(log[i].at, now);
      LaterDay(now, next);
    }
  }

  lemma WeeklyStep(t: Task, log: seq<Entry>, slot: nat, now: nat, online: bool)
    requires t.Weekly? && DayMarked(t, log, now)
    ensures var (u, entries) := CheckWeekly(t, slot, now, online);
      SamePlan(t, u) && DayMarked(u, log + entries, now)
  {
    hide Has, With, Hour, Minute, LocalDay;
    var w := Weekday(now);
    WeekdayIsOne(now);
    HasWith(t.processed, w, w);
    var (u, entries) := CheckWeekly(t, slot, now, online);
    assert forall i :: 0 <= i < |log| ==> (log + entries)[i] == log[i];
  }

  lemma {:induction false} WeeklyRun(t: Task, slot: nat, steps: seq<Step>)
    requires t.Weekly? && Forward(steps)
    ensures var (u, log) := SlotRun(t, slot, steps);
      SamePlan(t, u) && (steps == [] ==> log == []) && (steps != [] ==> DayMarked(u, log, steps[|steps| - 1].now))
    decreases |steps|
  {
    hide CheckWeekly, DayMarked;
    if steps != [] {
      var n := |steps| - 1;
      var last := steps[n];
      WeeklyRun(t, slot, steps[..n]);
      var (u, log) := SlotRun(t, slot, steps[..n]);
      if n == 0 {
        NothingMarked(u, last.now);
      } else {
        TimePasses(u, log, steps[n - 1].now, last.now);
      }
      WeeklyStep(u, log, slot, last.now, last.online(slot));
    }
  }

  lemma NothingMarked(t: Task, now: nat)
    requires t.Weekly?
    ensures DayMarked(t, [], now)
  {
  }

  /** Over any run of a clock that does not go back, a weekly timer is executed at most once per
      local day, and only in its own minute on its own weekdays. */
  lemma WeeklyOncePerDay(tasks: seq<Task>, steps: seq<Step>, slot: nat)
    requires slot < |tasks| && tasks[slot].Weekly? && Forward(steps)
    ensures var log := Of(Run(tasks, steps).1, slot);
      && (forall i :: 0 <= i < |log| && log[i].Executed? ==> OnTime(tasks[slot], log[i]))
      && (forall i, j :: 0 <= i < j < |log| && log[i].Executed? && log[j].Executed? ==>
        LocalDay(log[i].at) != LocalDay(log[j].at))
  {
    hide Run, SlotRun, Of, LocalDay, Has;
    SlotOfRun(tasks, steps, slot);
    WeeklyRun(tasks[slot], slot, steps);
  }

  // ----- when a weekly timer fires again -----

  /** A check on a day the timer does not have. */
  predicate LeftOut(t: Task, step: Step)
    requires t.Weekly?
  {
    !Has(t.days, Weekday(step.now))
  }

  /** How many checks lie up to and including the last one on a left-out day; 0 if there is none. */
  function Cleared(t: Task, steps: seq<Step>): (n: nat)
    requires t.Weekly?
    ensures n <= |steps| && (n > 0 ==> LeftOut(t, steps[n - 1]))
    ensures forall i :: n <= i < |steps| ==> !LeftOut(t, steps[i])
  {
    if steps == [] then 0
    else if LeftOut(t, steps[|steps| - 1]) then |steps|
    else Cleared(t, steps[..|steps| - 1])
  }

  /** What the i-th check of a run does about the slot. */
  function CheckAt(t: Task, slot: nat, steps: seq<Step>, i: nat): seq<Entry>
    requires i < |steps|
  {
    CheckSlot(SlotRun(t, slot, steps[..i]).0, slot, steps[i].now, steps[i].online(slot)).1
  }

  predicate SettledAt(t: Task, slot: nat, steps: seq<Step>, i: nat)
    requires i < |steps|
  {
    CheckAt(t, slot, steps, i) != [] && Settles(CheckAt(t, slot, steps, i)[0])
  }

  /** The weekday was settled after the last check on a left-out day. */
  ghost predicate SettledSince(t: Task, slot: nat, steps: seq<Step>, w: nat)
    requires t.Weekly?
  {
    exists i :: Cleared(t, steps) <= i < |steps| && Weekday(steps[i].now) == w && SettledAt(t, slot, steps, i)
  }

  lemma SettledBefore(t: Task, slot: nat, steps: seq<Step>, i: nat)
    requires i < |steps| - 1
    ensures SettledAt(t, slot, steps[..|steps| - 1], i) == SettledAt(t, slot, steps, i)
  {
    hide CheckSlot, SlotRun;
    assert steps[..|steps| - 1][..i] == steps[..i];
  }

  /** One check: a left-out day wipes the marks, a settled check sets its own, nothing else changes
      them; and a check settles exactly a due or overdue day that has no mark. */
  lemma MarkStep(t: Task, slot: nat, now: nat, online: bool, w: nat)
    requires t.Weekly? && w < 7
    ensures var (u, entries) := CheckSlot(t, slot, now, online);
      var settles := entries != [] && Settles(entries[0]);
      && SamePlan(t, u)
      && (Has(u.processed, w) <==>
        if Has(t.days, Weekday(now)) then Has(t.processed, w) || (settles && w == Weekday(now)) else false)
      && (settles ==> Has(t.days, Weekday(now)) && !Has(t.processed, Weekday(now)))
  {
    hide Has, With, Hour, Minute, Weekday;
    WeekdayIsOne(now);
    HasWith(t.processed, Weekday(now), w);
    NoDays(w);
  }

  lemma NoDays(w: nat)
    requires w < 7
    ensures !Has(0, w)
  {
  }

  lemma SettledLast(t: Task, slot: nat, steps: seq<Step>, w: nat)
    requires t.Weekly? && steps != [] && !LeftOut(t, steps[|steps| - 1])
    ensures SettledSince(t, slot, steps, w) <==>
      || SettledSince(t, slot, steps[..|steps| - 1], w)
      || (SettledAt(t, slot, steps, |steps| - 1) && Weekday(steps[|steps| - 1].now) == w)
  {
    hide SettledAt, LeftOut, Weekday;
    var n := |steps| - 1;
    forall i: nat | i < n
      ensures SettledAt(t, slot, steps[..n], i) == SettledAt(t, slot, steps, i)
    {
      SettledBefore(t, slot, steps, i);
    }
    if SettledSince(t, slot, steps[..n], w) {
      var i: nat :| Cleared(t, steps[..n]) <= i < n && Weekday(steps[..n][i].now) == w
        && SettledAt(t, slot, steps[..n], i);
      assert SettledAt(t, slot, steps, i) && Weekday(steps[i].now) == w;
    }
    if SettledSince(t, slot, steps, w) {
      var i: nat :| Cleared(t, steps) <= i < |steps| && Weekday(steps[i].now) == w && SettledAt(t, slot, steps, i);
      assert i < n ==> SettledAt(t, slot, steps[..n], i) && Weekday(steps[..n][i].now) == w;
    }
  }

  /** Over any run of any clock: a weekday is marked exactly if it was settled since the last check on
      a left-out day, or was marked at the start and there was no such check. */
  lemma {:induction false} MarkIs(t: Task, slot: nat, steps: seq<Step>, w: nat)
    requires t.Weekly? && w < 7
    ensures var u := SlotRun(t, slot, steps).0;
      && SamePlan(t, u)
      && (Has(u.processed, w) <==>
        SettledSince(t, slot, steps, w) || (Cleared(t, steps) == 0 && Has(t.processed, w)))
    decreases |steps|
  {
    hide CheckSlot, Weekday, Has, SettledSince, SettledAt;
    if steps == [] {
      NothingSettled(t, slot, w);
    } else {
      var n := |steps| - 1;
      MarkIs(t, slot, steps[..n], w);
      MarkStep(SlotRun(t, slot, steps[..n]).0, slot, steps[n].now, steps[n].online(slot), w);
      if LeftOut(t, steps[n]) {
        JustCleared(t, slot, steps, w);
      } else {
        SettledLast(t, slot, steps, w);
        SettledIs(t, slot, steps);
      }
    }
  }

  lemma NothingSettled(t: Task, slot: nat, w: nat)
    requires t.Weekly?
    ensures !SettledSince(t, slot, [], w)
  {
  }

  lemma JustCleared(t: Task, slot: nat, steps: seq<Step>, w: nat)
    requires t.Weekly? && steps != [] && LeftOut(t, steps[|steps| - 1])
    ensures !SettledSince(t, slot, steps, w) && Cleared(t, steps) > 0
  {
  }

  lemma SettledIs(t: Task, slot: nat, steps: seq<Step>)
    requires steps != []
    ensures var n := |steps| - 1;
      var entries := CheckSlot(SlotRun(t, slot, steps[..n]).0, slot, steps[n].now, steps[n].online(slot)).1;
      SettledAt(t, slot, steps, n) <==> entries != [] && Settles(entries[0])
  {
  }

  /** A check in its minute is due. */
  predicate Due(t: Task, now: nat)
    requires t.Weekly?
  {
    Has(t.days, Weekday(now)) && Hour(now) == t.hour && Minute(now) == t.minute
  }

  lemma DueStep(t: Task, slot: nat, now: nat, online: bool)
    requires t.Weekly? && Due(t, now)
    ensures Executed(slot, now) in CheckSlot(t, slot, now, online).1 <==> !Has(t.processed, Weekday(now))
  {
    hide Has, With, Weekday, Hour, Minute;
    if !Has(t.processed, Weekday(now)) {
      assert CheckSlot(t, slot, now, online).1[0] == Executed(slot, now);
    }
  }

  /** For every set of days, every run and every clock: a due check executes exactly if its weekday
      was not settled since the last check on a left-out day (nor marked from the start, if there was
      no such check). */
  lemma DueExecutes(tasks: seq<Task>, steps: seq<Step>, slot: nat, k: nat)
    requires slot < |tasks| && tasks[slot].Weekly? && k < |steps| && Due(tasks[slot], steps[k].now)
    ensures var t, now := tasks[slot], steps[k].now;
      var log := CheckFrom(Run(tasks, steps[..k]).0, 0, now, steps[k].online).1;
      Executed(slot, now) in Of(log, slot) <==>
        && !SettledSince(t, slot, steps[..k], Weekday(now))
        && (Cleared(t, steps[..k]) == 0 ==> !Has(t.processed, Weekday(now)))
  {
    hide CheckSlot, CheckFrom, SettledSince, Weekday, Has, Of, SlotRun, Run;
    var t, now := tasks[slot], steps[k].now;
    WeekdayIsOne(now);
    SlotOfRun(tasks, steps[..k], slot);
    SlotOfCheck(Run(tasks, steps[..k]).0, 0, now, steps[k].online, slot);
    MarkIs(t, slot, steps[..k], Weekday(now));
    DueStep(SlotRun(t, slot, steps[..k]).0, slot, now, steps[k].online(slot));
  }

  /** So between two settled checks of one weekday there is always a check on a left-out day. */
  lemma ClearedBetween(t: Task, slot: nat, steps: seq<Step>, i: nat, j: nat) returns (m: nat)
    requires t.Weekly? && i < j < |steps| && Weekday(steps[i].now) == Weekday(steps[j].now)
    requires SettledAt(t, slot, steps, i) && SettledAt(t, slot, steps, j)
    ensures i < m < j && LeftOut(t, steps[m])
  {
    hide CheckSlot, Weekday, Has;
    var w := Weekday(steps[j].now);
    WeekdayIsOne(steps[j].now);
    MarkIs(t, slot, steps[..j], w);
    MarkStep(SlotRun(t, slot, steps[..j]).0, slot, steps[j].now, steps[j].online(slot), w);
    assert steps[..j][..i] == steps[..i] && SettledAt(t, slot, steps[..j], i);
    MarkIs(t, slot, steps[..i], w);
    MarkStep(SlotRun(t, slot, steps[..i]).0, slot, steps[i].now, steps[i].online(slot), w);
    var n := Cleared(t, steps[..j]);
    m := n - 1;
  }

  /** Every Thursday at eight, and a device that is looked at only then. */
  function Thursdays(): Task { Weekly(8, 0, 0x10, 0, 0, false, false) }

  /** A due check that does not execute: the timer is for Thursdays only, and its second Thursday
      comes without a check on any other day before it. */
  lemma SecondThursday(online: Online)
    ensures var t := Thursdays();
      var steps := [Step(0, online), Step(7 * DAY, online)];
      && Due(t, 0) && Due(t, 7 * DAY)
      && Executed(0, 0) in CheckAt(t, 0, steps, 0)
      && Executed(0, 7 * DAY) !in CheckAt(t, 0, steps, 1)
  {
    var t := Thursdays();
    var steps := [Step(0, online), Step(7 * DAY, online)];
    assert Due(t, 0) && Due(t, 7 * DAY);
    assert !Has(t.processed, 4);
    var one := [Step(0, online)];
    assert steps[..0] == [] && steps[..1] == one && one[..0] == [];
    DueStep(t, 0, 0, online(0));
    MarkStep(t, 0, 0, online(0), 4);
    var u := SlotRun(t, 0, one).0;
    assert SlotRun(t, 0, []) == (t, []);
    assert u == CheckSlot(t, 0, 0, online(0)).0;
    assert CheckSlot(t, 0, 0, online(0)).1[0] == Executed(0, 0);
    DueStep(u, 0, 7 * DAY, online(0));
  }

  // ----- an everyday timer wears out -----

  /** Each settled entry's weekday stays marked for good. */
  ghost predicate WeekMarked(t: Task, log: seq<Entry>)
    requires t.Weekly?
  {
    && (forall i :: 0 <= i < |log| && Settles(log[i]) ==> Has(t.processed, Weekday(log[i].at)))
    && (forall i, j :: 0 <= i < j < |log| && Settles(log[i]) && Settles(log[j]) ==>
      Weekday(log[i].at) != Weekday(log[j].at))
  }

  predicate Everyday(t: Task) {
    t.Weekly? && forall w: nat :: w < 7 ==> Has(t.days, w)
  }

  lemma EverydayStep(t: Task, log: seq<Entry>, slot: nat, now: nat, online: bool)
    requires Everyday(t) && WeekMarked(t, log)
    ensures var (u, entries) := CheckWeekly(t, slot, now, online);
      Everyday(u) && WeekMarked(u, log + entries)
  {
    hide Has, With, Hour, Minute, Weekday;
    var w := Weekday(now);
    WeekdayIsOne(now);
    var (u, entries) := CheckWeekly(t, slot, now, online);
    assert Has(t.days, w);
    forall i | 0 <= i < |log| && Settles(log[i])
      ensures Has(u.processed, Weekday(log[i].at)) && (entries != [] && Settles(entries[0]) ==> Weekday(log[i].at) != w)
    {
      WeekdayIsOne(log[i].at);
      HasWith(t.processed, w, Weekday(log[i].at));
    }
    HasWith(t.processed, w, w);
    assert forall i :: 0 <= i < |log| ==> (log + entries)[i] == log[i];
  }

  lemma {:induction false} EverydayRun(t: Task, slot: nat, steps: seq<Step>)
    requires Everyday(t)
    ensures var (u, log) := SlotRun(t, slot, steps);
      Everyday(u) && WeekMarked(u, log)
    decreases |steps|
  {
    hide CheckWeekly, WeekMarked;
    if steps == [] {
      assert WeekMarked(t, []) by { NoneMarked(t); }
    } else {
      hide Everyday;
      var n := |steps| - 1;
      EverydayRun(t, slot, steps[..n]);
      var (u, log) := SlotRun(t, slot, steps[..n]);
      EverydayIsWeekly(u);
      EverydayStep(u, log, slot, steps[n].now, steps[n].online(slot));
    }
  }

  lemma EverydayIsWeekly(t: Task)
    requires Everyday(t)
    ensures t.Weekly?
  {
  }

  lemma NoneMarked(t: Task)
    requires t.Weekly?
    ensures WeekMarked(t, [])
  {
  }

  /** The marks are only wiped on a day the timer does not have.  One that has all seven is settled
      at most once on each weekday, ever, whatever the clock does: no two settled checks fall on
      the same weekday, so there are at most seven. */
  lemma EverydayWearsOut(tasks: seq<Task>, steps: seq<Step>, slot: nat)
    requires slot < |tasks| && Everyday(tasks[slot])
    ensures var log := Of(Run(tasks, steps).1, slot);
      forall i, j :: 0 <= i < j < |log| && Settles(log[i]) && Settles(log[j]) ==>
        Weekday(log[i].at) != Weekday(log[j].at)
  {
    hide Run, SlotRun, Of, Everyday, Has, Weekday;
    SlotOfRun(tasks, steps, slot);
    EverydayRun(tasks[slot], slot, steps);
    EverydayIsWeekly(SlotRun(tasks[slot], slot, steps).0);
  }

  // ----- a timer for one moment -----

  ghost predicate FiredOnce(posix: nat, t: Task, log: seq<Entry>) {
    && !t.Weekly?
    && (t.Once? ==> t.posix == posix)
    && (t.Once? && !t.done ==> forall i :: 0 <= i < |log| ==> !Settles(log[i]))
    && (forall i, j :: 0 <= i < j < |log| && Settles(log[i]) ==> !Settles(log[j]))
    && (forall i :: 0 <= i < |log| && log[i].Executed? ==> posix <= log[i].at < posix + FAIL_TIME)
    && (forall i :: 0 <= i < |log| && log[i].Missed? ==> posix + FAIL_TIME <= log[i].at)
  }

  lemma OnceStep(posix: nat, t: Task, log: seq<Entry>, slot: nat, now: nat, online: bool)
    requires FiredOnce(posix, t, log)
    ensures var (u, entries) := CheckSlot(t, slot, now, online);
      FiredOnce(posix, u, log + entries)
  {
    var (u, entries) := CheckSlot(t, slot, now, online);
    assert forall i :: 0 <= i < |log| ==> (log + entries)[i] == log[i];
  }

  lemma {:induction false} OnceRun(t: Task, slot: nat, steps: seq<Step>)
    requires t.Once?
    ensures FiredOnce(t.posix, SlotRun(t, slot, steps).0, SlotRun(t, slot, steps).1)
    decreases |steps|
  {
    hide CheckSlot;
    if steps != [] {
      hide FiredOnce;
      var n := |steps| - 1;
      OnceRun(t, slot, steps[..n]);
      var (u, log) := SlotRun(t, slot, steps[..n]);
      OnceStep(t.posix, u, log, slot, steps[n].now, steps[n].online(slot));
    }
  }

  /** Over any run, of any clock, a timer for one moment is settled at most once: executed only in
      the five seconds from that moment on, given up only later. */
  lemma OnceInItsWindow(tasks: seq<Task>, steps: seq<Step>, slot: nat)
    requires slot < |tasks| && tasks[slot].Once?
    ensures var log := Of(Run(tasks, steps).1, slot);
      var posix := tasks[slot].posix;
      && (forall i, j :: 0 <= i < j < |log| && Settles(log[i]) ==> !Settles(log[j]))
      && (forall i :: 0 <= i < |log| && log[i].Executed? ==> posix <= log[i].at < posix + FAIL_TIME)
      && (forall i :: 0 <= i < |log| && log[i].Missed? ==> posix + FAIL_TIME <= log[i].at)
  {
    hide Run, SlotRun, Of;
    SlotOfRun(tasks, steps, slot);
    OnceRun(tasks[slot], slot, steps);
  }
}
