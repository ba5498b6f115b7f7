/** The local timers of local_timer.c: twenty slots, looked at one after the other on every check.

    A slot is empty, a weekly timer (local time is UTC+8, days as bits 0 to 6 from Sunday), or a
    timer for one moment.  Whether the device is online is up to the outside at every slot.  The
    crontab text is taken as parsed; storing a slot and rendering a report are left to others. */
module LocalTimer {
  const SLOTS := 20
  const FAIL_TIME := 5
  const ZONE := 8 * 60 * 60
  const DAY := 86400

  datatype Task =
    | Weekly(hour: nat, minute: nat, days: bv8, processed: bv8, processedTime: nat, success: bool, reported: bool)
    | Once(posix: nat, done: bool, settledAt: nat, inTime: bool)
    | Empty

  /** What a check did about a slot at a time. */
  datatype Entry = Executed(slot: nat, at: nat) | Missed(slot: nat, at: nat) | Reported(slot: nat, at: nat)

  predicate Settles(e: Entry) { !e.Reported? }

  // ----- local time -----

  function LocalDay(now: nat): nat { (now + ZONE) / DAY }
  function Weekday(now: nat): nat { (LocalDay(now) + 4) % 7 }
  function Hour(now: nat): nat { (now + ZONE) % DAY / 3600 }
  function Minute(now: nat): nat { (now + ZONE) % 3600 / 60 }

  // ----- day bits -----

  function DayBit(w: nat): bv8 {
    if w == 0 then 0x01 else if w == 1 then 0x02 else if w == 2 then 0x04 else if w == 3 then 0x08
    else if w == 4 then 0x10 else if w == 5 then 0x20 else 0x40
  }

  predicate Has(days: bv8, w: nat) { days & DayBit(w) == DayBit(w) }

  function With(days: bv8, w: nat): bv8 { days | DayBit(w) }

  lemma HasWith(days: bv8, w: nat, v: nat)
    requires w < 7 && v < 7
    ensures Has(With(days, w), v) == (v == w || Has(days, v))
  {
    HasItself(days, w);
    if v != w {
      HasOther(days, w, v);
    }
  }

  lemma HasItself(days: bv8, w: nat)
    ensures Has(With(days, w), w)
  {
  }

  lemma HasOther(days: bv8, w: nat, v: nat)
    requires w < 7 && v < 7 && w != v
    ensures Has(With(days, w), v) == Has(days, v)
  {
  }

  // ----- one slot -----

  /** crontab_proc_timer. */
  function CheckWeekly(t: Task, slot: nat, now: nat, online: bool): (Task, seq<Entry>)
    requires t.Weekly?
  {
    var w := Weekday(now);
    if Has(t.days, w) then
      if !Has(t.processed, w) then
        var h, m := Hour(now), Minute(now);
        if h < t.hour || (h == t.hour && m < t.minute) then (t, [])
        else
          var run := h == t.hour && m == t.minute;
          (t.(success := run, processed := With(t.processed, w), processedTime := now + ZONE,
              reported := t.reported || online),
           [if run then Executed(slot, now) else Missed(slot, now)] + if online then [Reported(slot, now)] else [])
      else if !t.reported && online then (t.(reported := true), [Reported(slot, now)])
      else (t, [])
    else if t.processed != 0 || t.reported then (t.(processed := 0, reported := false, processedTime := 0), [])
    else (t, [])
  }

  /** once_time_proc_timer. */
  function CheckOnce(t: Task, slot: nat, now: nat, online: bool): (Task, seq<Entry>)
    requires t.Once?
  {
    if now < t.posix then (t, [])
    else
      var settled :=
        if t.done then [] else [if now - t.posix < FAIL_TIME then Executed(slot, now) else Missed(slot, now)];
      var t' := if t.done then t else t.(done := true, settledAt := now, inTime := now - t.posix < FAIL_TIME);
      if online then (Empty, settled + [Reported(slot, now)]) else (t', settled)
  }

  function CheckSlot(t: Task, slot: nat, now: nat, online: bool): (Task, seq<Entry>) {
    match t
    case Weekly(_, _, _, _, _, _, _) => CheckWeekly(t, slot, now, online)
    case Once(_, _, _, _) => CheckOnce(t, slot, now, online)
    case Empty => (t, [])
  }

  // ----- all slots -----

  type Online = nat -> bool

  function CheckFrom(tasks: seq<Task>, i: nat, now: nat, online: Online): (seq<Task>, seq<Entry>)
    requires i <= |tasks|
    decreases |tasks| - i
  {
    if i == |tasks| then (tasks, [])
    else
      var (t, entries) := CheckSlot(tasks[i], i, now, online(i));
      var (rest, more) := CheckFrom(tasks[i := t], i + 1, now, online);
      (rest, entries + more)
  }

  class Schedule {
    const tasks: array<Task>
    var log: seq<Entry>

    constructor (tasks: array<Task>)
      requires tasks.Length == SLOTS
      ensures this.tasks == tasks && log == []
    {
      this.tasks, log := tasks, [];
    }

    method ProcessWeekly(i: nat, now: nat, online: bool)
      requires i < tasks.Length && tasks[i].Weekly?
      modifies tasks, this`log
      ensures var (t, entries) := CheckWeekly(old(tasks[i]), i, now, online);
        tasks[..] == old(tasks[..])[i := t] && log == old(log) + entries
    {
      var w, h, m := Weekday(now), Hour(now), Minute(now);
      var t := tasks[i];
      if Has(t.days, w) {
        if !Has(t.processed, w) {
          if h < t.hour || (h == t.hour && m < t.minute) {
            return;
          } else if h == t.hour && m == t.minute {
            log := log + [Executed(i, now)];
            t := t.(success := true);
          } else {
            log := log + [Missed(i, now)];
            t := t.(success := false);
          }
          t := t.(processed := With(t.processed, w), processedTime := now + ZONE);
          if online {
            log := log + [Reported(i, now)];
            t := t.(reported := true);
          }
          tasks[i] := t;
        } else if !t.reported && online {
          log := log + [Reported(i, now)];
          tasks[i] := t.(reported := true);
        }
      } else if t.processed != 0 || t.reported {
        tasks[i] := t.(processed := 0, reported := false, processedTime := 0);
      }
    }

    method ProcessOnce(i: nat, now: nat, online: bool)
      requires i < tasks.Length && tasks[i].Once?
      modifies tasks, this`log
      ensures var (t, entries) := CheckOnce(old(tasks[i]), i, now, online);
        tasks[..] == old(tasks[..])[i := t] && log == old(log) + entries
    {
      var t := tasks[i];
      if now < t.posix {
        return;
      }
      if !t.done {
        var inTime := now - t.posix < FAIL_TIME;
        log := log + [if inTime then Executed(i, now) else Missed(i, now)];
        t := t.(inTime := inTime, settledAt := now, done := true);
        tasks[i] := t;
      }
      if online {
        log := log + [Reported(i, now)];
        tasks[i] := Empty;
      }
    }

    /** check_schedule_and_set_timer. */
    method Check(now: nat, online: Online)
      modifies tasks, this`log
      ensures var (after, entries) := CheckFrom(old(tasks[..]), 0, now, online);
        tasks[..] == after && log == old(log) + entries
    {
      hide CheckWeekly, CheckOnce;
      ghost var whole := CheckFrom(tasks[..], 0, now, online);
      ghost var entries := [];
      assert [] + whole.1 == whole.1;
      for i := 0 to tasks.Length
        invariant log == old(log) + entries
        invariant var r := CheckFrom(tasks[..], i, now, online);
          whole == (r.0, entries + r.1)
      {
        ghost var rest := CheckFrom(tasks[..][i := CheckSlot(tasks[i], i, now, online(i)).0], i + 1, now, online);
        ghost var mine := CheckSlot(tasks[i], i, now, online(i)).1;
        assert entries + (mine + rest.1) == (entries + mine) + rest.1;
        entries := entries + mine;
        match tasks[i]
        case Weekly(_, _, _, _, _, _, _) => ProcessWeekly(i, now, online(i));
        case Once(_, _, _, _) => ProcessOnce(i, now, online(i));
        case Empty => assert tasks[..][i := tasks[i]] == tasks[..];
      }
      assert entries + [] == entries;
    }
  }
}
