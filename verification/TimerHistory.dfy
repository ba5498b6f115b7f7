/** What one timer does over a whole run, told by the checks alone: the exact log of a timer for one
    moment, and the exact entries of every check of a weekly timer. */
module TimerHistory {
  import opened LocalTimer
  import opened TimerRuns

  // ----- a timer for one moment -----

  /** The first check at or after posix, and on demand online; |steps| if there is none. */
  function First(steps: seq<Step>, posix: nat, slot: nat, online: bool): (k: nat)
    ensures k <= |steps|
    ensures k < |steps| ==> steps[k].now >= posix && (online ==> steps[k].online(slot))
    ensures forall i :: 0 <= i < k ==> !(steps[i].now >= posix && (online ==> steps[i].online(slot)))
  {
    if steps == [] then 0
    else
      var n := |steps| - 1;
      var k := First(steps[..n], posix, slot, online);
      if k < n || (steps[n].now >= posix && (online ==> steps[n].online(slot))) then k else |steps|
  }

  /** The log of the slot, and what is left in it. */
  ghost predicate OnceShows(t: Task, slot: nat, steps: seq<Step>, after: Task, log: seq<Entry>)
    requires t.Once?
  {
    var a, b := First(steps, t.posix, slot, false), First(steps, t.posix, slot, true);
    var settled :=
      if t.done || a == |steps| then []
      else [if steps[a].now < t.posix + 5 then Executed(slot, steps[a].now) else Missed(slot, steps[a].now)];
    && log == settled + (if b == |steps| then [] else [Reported(slot, steps[b].now)])
    && after == if b < |steps| then Empty
                else if t.done || a == |steps| then t
                else Once(t.posix, true, steps[a].now, steps[a].now < t.posix + 5)
  }

  lemma OnceNext(t: Task, slot: nat, steps: seq<Step>, u: Task, log: seq<Entry>)
    requires t.Once? && steps != [] && OnceShows(t, slot, steps[..|steps| - 1], u, log)
    ensures var last := steps[|steps| - 1];
      var (v, entries) := CheckSlot(u, slot, last.now, last.online(slot));
      OnceShows(t, slot, steps, v, log + entries)
  {
    var n := |steps| - 1;
    var last := steps[n];
    var a, b := First(steps[..n], t.posix, slot, false), First(steps[..n], t.posix, slot, true);
    var (v, entries) := CheckSlot(u, slot, last.now, last.online(slot));
    assert log + [] == log;
    assert a <= b by {
      assert b < n ==> steps[..n][b].now >= t.posix;
    }
    assert last.now - t.posix < FAIL_TIME <==> last.now < t.posix + 5;
  }

  lemma {:induction false} OnceHistory(t: Task, slot: nat, steps: seq<Step>)
    requires t.Once?
    ensures var (u, log) := SlotRun(t, slot, steps); OnceShows(t, slot, steps, u, log)
    decreases |steps|
  {
    hide CheckSlot;
    if steps != [] {
      hide OnceShows;
      var n := |steps| - 1;
      OnceHistory(t, slot, steps[..n]);
      var (u, log) := SlotRun(t, slot, steps[..n]);
      OnceNext(t, slot, steps, u, log);
    }
  }

  /** Over every run, of any clock: the first check at or after the moment settles the timer, in time
      if it comes within five seconds; the first such check that is online reports it and empties the
      slot; nothing else ever happens. */
  lemma OnceExactly(tasks: seq<Task>, steps: seq<Step>, slot: nat)
    requires slot < |tasks| && tasks[slot].Once?
    ensures var (after, log) := Run(tasks, steps);
      OnceShows(tasks[slot], slot, steps, after[slot], Of(log, slot))
  {
    hide Run, SlotRun, Of, OnceShows;
    SlotOfRun(tasks, steps, slot);
    OnceHistory(tasks[slot], slot, steps);
  }

  // ----- local time -----

  /** Seconds since the epoch as day, hour and minute eight hours east; the first day was a Thursday. */
  lemma LocalTime(now: nat) returns (second: nat)
    ensures second < 60 && now + 28800 == LocalDay(now) * 86400 + Hour(now) * 3600 + Minute(now) * 60 + second
    ensures Hour(now) < 24 && Minute(now) < 60 && Weekday(now) == (LocalDay(now) + 4) % 7
  {
    var n := now + 28800;
    var day, rest := n / 86400, n % 86400;
    HoursOf(n);
    assert rest == rest / 3600 * 3600 + rest % 3600;
    var left := rest % 3600;
    second := left % 60;
    assert left == left / 60 * 60 + second;
  }

  lemma HoursOf(n: nat)
    ensures n % 3600 == n % 86400 % 3600
  {
    assert n == n / 86400 * 86400 + n % 86400;
    assert n / 86400 * 86400 == n / 86400 * 24 * 3600;
  }

  lemma HasIsBit(days: bv8, w: nat)
    requires w < 7
    ensures Has(days, w) <==> (days >> w) & 1 == 1
  {
    if w == 0 {
    } else if w == 1 {
    } else if w == 2 {
    } else if w == 3 {
    } else if w == 4 {
    } else if w == 5 {
    } else {
    }
  }

  // ----- a weekly timer -----

  /** What a check of a weekly timer does, if its weekday is marked or not and a report was made or not
      since the last check on a left-out day. */
  function Entries(t: Task, marked: bool, told: bool, slot: nat, now: nat, online: bool): seq<Entry>
    requires t.Weekly?
  {
    var hour, minute := (now + 28800) % 86400 / 3600, (now + 28800) % 3600 / 60;
    if !Has(t.days, Weekday(now)) then []
    else if marked then if online && !told then [Reported(slot, now)] else []
    else if hour < t.hour || (hour == t.hour && minute < t.minute) then []
    else
      [if hour == t.hour && minute == t.minute then Executed(slot, now) else Missed(slot, now)]
      + if online then [Reported(slot, now)] else []
  }

  /** One check: its entries, and what it leaves in the slot. */
  lemma WeeklyStepIs(t: Task, slot: nat, now: nat, online: bool)
    requires t.Weekly?
    ensures var (u, entries) := CheckSlot(t, slot, now, online);
      && entries == Entries(t, Has(t.processed, Weekday(now)), t.reported, slot, now, online)
      && SamePlan(t, u)
      && (u.reported <==> Has(t.days, Weekday(now)) && (t.reported || Reported(slot, now) in entries))
      && (if entries != [] && Settles(entries[0]) then
            u.processedTime == now + 28800 && u.success == (entries[0] == Executed(slot, now))
          else if Has(t.days, Weekday(now)) then u == t.(reported := u.reported)
          else
            u == t.(processed := 0, reported := false,
                    processedTime := if t.processed != 0 || t.reported then 0 else t.processedTime))
  {
    hide Has, With, Weekday;
  }

  predicate ReportedAt(t: Task, slot: nat, steps: seq<Step>, i: nat)
    requires i < |steps|
  {
    Reported(slot, steps[i].now) in CheckAt(t, slot, steps, i)
  }

  /** A report was made after the last check on a left-out day. */
  ghost predicate ToldSince(t: Task, slot: nat, steps: seq<Step>)
    requires t.Weekly?
  {
    exists i :: Cleared(t, steps) <= i < |steps| && ReportedAt(t, slot, steps, i)
  }

  lemma ReportedBefore(t: Task, slot: nat, steps: seq<Step>, i: nat)
    requires i < |steps| - 1
    ensures ReportedAt(t, slot, steps[..|steps| - 1], i) == ReportedAt(t, slot, steps, i)
  {
    hide CheckSlot, SlotRun;
    assert steps[..|steps| - 1][..i] == steps[..i];
  }

  lemma ToldLast(t: Task, slot: nat, steps: seq<Step>)
    requires t.Weekly? && steps != []
    ensures ToldSince(t, slot, steps) <==>
      !LeftOut(t, steps[|steps| - 1])
      && (ToldSince(t, slot, steps[..|steps| - 1]) || ReportedAt(t, slot, steps, |steps| - 1))
  {
    hide ReportedAt, LeftOut;
    var n := |steps| - 1;
    forall i: nat | i < n
      ensures ReportedAt(t, slot, steps[..n], i) == ReportedAt(t, slot, steps, i)
    {
      ReportedBefore(t, slot, steps, i);
    }
    if !LeftOut(t, steps[n]) {
      if ToldSince(t, slot, steps[..n]) {
        var i: nat :| Cleared(t, steps[..n]) <= i < n && ReportedAt(t, slot, steps[..n], i);
        assert ReportedAt(t, slot, steps, i);
      }
      if ToldSince(t, slot, steps) {
        var i: nat :| Cleared(t, steps) <= i < |steps| && ReportedAt(t, slot, steps, i);
        assert i < n ==> ReportedAt(t, slot, steps[..n], i);
      }
    }
  }

  lemma {:induction false} ToldIs(t: Task, slot: nat, steps: seq<Step>)
    requires t.Weekly?
    ensures var u := SlotRun(t, slot, steps).0;
      && SamePlan(t, u)
      && (u.reported <==> ToldSince(t, slot, steps) || (Cleared(t, steps) == 0 && t.reported))
    decreases |steps|
  {
    hide CheckSlot, Weekday, Has, ToldSince, ReportedAt;
    if steps == [] {
      NothingTold(t, slot);
    } else {
      var n := |steps| - 1;
      ToldIs(t, slot, steps[..n]);
      var u := SlotRun(t, slot, steps[..n]).0;
      WeeklyStepIs(u, slot, steps[n].now, steps[n].online(slot));
      ToldLast(t, slot, steps);
      ReportedIs(t, slot, steps);
    }
  }

  lemma NothingTold(t: Task, slot: nat)
    requires t.Weekly?
    ensures !ToldSince(t, slot, [])
  {
  }

  lemma ReportedIs(t: Task, slot: nat, steps: seq<Step>)
    requires steps != []
    ensures var n := |steps| - 1;
      var entries := CheckSlot(SlotRun(t, slot, steps[..n]).0, slot, steps[n].now, steps[n].online(slot)).1;
      ReportedAt(t, slot, steps, n) <==> Reported(slot, steps[n].now) in entries
  {
  }

  /** Over every run, of any clock: the exact entries of the next check of a weekly timer. */
  lemma WeeklyExactly(tasks: seq<Task>, steps: seq<Step>, slot: nat, next: Step)
    requires slot < |tasks| && tasks[slot].Weekly?
    ensures var t, w := tasks[slot], Weekday(next.now);
      var log := CheckFrom(Run(tasks, steps).0, 0, next.now, next.online).1;
      var marked := SettledSince(t, slot, steps, w) || (Cleared(t, steps) == 0 && Has(t.processed, w));
      var told := ToldSince(t, slot, steps) || (Cleared(t, steps) == 0 && t.reported);
      Of(log, slot) == Entries(t, marked, told, slot, next.now, next.online(slot))
  {
    hide CheckSlot, CheckFrom, SettledSince, ToldSince, Weekday, Has, Of, SlotRun, Run;
    var t, w := tasks[slot], Weekday(next.now);
    WeekdayIsOne(next.now);
    SlotOfRun(tasks, steps, slot);
    SlotOfCheck(Run(tasks, steps).0, 0, next.now, next.online, slot);
    MarkIs(t, slot, steps, w);
    ToldIs(t, slot, steps);
    WeeklyStepIs(SlotRun(t, slot, steps).0, slot, next.now, next.online(slot));
    SamePlanSameEntries(t, SlotRun(t, slot, steps).0, slot, next);
  }

  lemma SamePlanSameEntries(t: Task, u: Task, slot: nat, next: Step)
    requires SamePlan(t, u)
    ensures forall marked, told ::
      Entries(t, marked, told, slot, next.now, next.online(slot))
        == Entries(u, marked, told, slot, next.now, next.online(slot))
  {
  }

  /** Mondays and Tuesdays at eight. */
  function TwoDays(): Task { Weekly(8, 0, 0x06, 0, 0, false, false) }

  /** A day that is settled offline after another was reported is never reported on its own: the
      report of Monday stands until a check on a left-out day, and the online check later on Tuesday
      reports nothing. */
  lemma UnreportedDay(on: Online, off: Online)
    requires on(0) && !off(0)
    ensures var t := TwoDays();
      var steps := [Step(4 * DAY, on), Step(5 * DAY, off), Step(5 * DAY + 60, on)];
      && Executed(0, 4 * DAY) in CheckAt(t, 0, steps, 0) && Reported(0, 4 * DAY) in CheckAt(t, 0, steps, 0)
      && CheckAt(t, 0, steps, 1) == [Executed(0, 5 * DAY)]
      && CheckAt(t, 0, steps, 2) == []
  {
    hide CheckSlot, Has;
    var t := TwoDays();
    var steps := [Step(4 * DAY, on), Step(5 * DAY, off), Step(5 * DAY + 60, on)];
    var u1 := SlotRun(t, 0, steps[..1]).0;
    var u2 := SlotRun(t, 0, steps[..2]).0;
    assert steps[..1][..0] == [] == steps[..0] && steps[..2][..1] == steps[..1];
    assert SlotRun(t, 0, steps[..0]).0 == t;
    Monday();
    WeeklyStepIs(t, 0, 4 * DAY, true);
    MarkStep(t, 0, 4 * DAY, true, 1);
    MarkStep(t, 0, 4 * DAY, true, 2);
    WeeklyStepIs(u1, 0, 5 * DAY, false);
    MarkStep(u1, 0, 5 * DAY, false, 2);
    WeeklyStepIs(u2, 0, 5 * DAY + 60, true);
  }

  lemma Monday()
    ensures Weekday(4 * DAY) == 1 && Weekday(5 * DAY) == 2 && Weekday(5 * DAY + 60) == 2
    ensures Has(0x06, 1) && Has(0x06, 2) && !Has(0, 1) && !Has(0, 2)
  {
  }
}
