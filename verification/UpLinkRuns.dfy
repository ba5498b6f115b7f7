/** The property up-link over whole runs: writes, sends, late and missing answers, and other users
    of the session counter, in any order.

    The device is the one of UpLink; beside it the state keeps what an observer knows: the latest
    write of each key, the messages still in flight, and the writes the cloud has acknowledged. */
module UpLinkRuns {
  import opened UpLink

  /** Session ids repeat after this many allocations: 0 is skipped. */
  const PERIOD := U32 - 1

  /** The `id`-th write of all, and whether it is to be reported. */
  datatype Write = Write(id: nat, value: string, report: bool)

  datatype Flight = Flight(retry: nat, items: map<string, Write>)

  /** `sessions` counts the session ids handed out so far; a message in flight is known by the number
      its session had. */
  datatype State = State(
    device: Device, sessions: nat, writes: nat, last: map<string, Write>,
    flying: map<nat, Flight>, acked: set<(string, nat)>)

  const INIT := State(Device([], 0), 0, 0, map[], map[], {})

  /** The id the n-th allocated session gets. */
  function SessionOf(n: nat): nat {
    if n == 0 then 0 else 1 + (n - 1) % PERIOD
  }

  datatype Event =
    | Set(key: string, value: string, report: bool)
    | Flush(retry: nat)
    | Answer(flight: nat, answered: bool)
    | OtherSession

  /** One step of a run, with the tick and the link state it sees. */
  datatype Step = Step(event: Event, now: nat, online: bool)

  /** The writes that a message carries. */
  function Carried(items: seq<Property>, last: map<string, Write>): map<string, Write> {
    if items == [] then map[]
    else
      var rest := Carried(items[1..], last);
      if items[0].key in last then rest[items[0].key := last[items[0].key]] else rest
  }

  /** The device sent `out`, or found nothing to send; either way it took a session id. */
  function AfterSend(s: State, d: Device, out: Outgoing): State {
    var n := s.sessions + 1;
    var flying := match out
      case Nothing => s.flying
      case Outgoing(_, retry, items) => s.flying[n := Flight(retry, Carried(items, s.last))];
    s.(device := d, sessions := n, flying := flying)
  }

  predicate Resends(s: State, step: Step) {
    && step.event.Answer? && step.event.flight in s.flying
    && !step.event.answered && s.flying[step.event.flight].retry > 0 && step.online
  }

  function Next(s: State, step: Step): State {
    match step.event
    case Set(key, value, report) =>
      if Verify(key, value) != Ok then s
      else s.(device := s.device.(props := Store(s.device.props, key, value, report, step.now)),
              writes := s.writes + 1,
              last := s.last[key := Write(s.writes, value, report)])
    case Flush(retry) =>
      if !step.online then s
      else
        var (d, out) := Send(s.device, retry, true, step.now);
        AfterSend(s, d, out)
    case Answer(n, answered) =>
      if n !in s.flying then s
      else
        var (d, out) := Ack(s.device, SessionOf(n), answered, s.flying[n].retry, step.online, step.now);
        var t := Delivered(s, n, answered);
        if Resends(s, step) then AfterSend(t, d, out) else t.(device := d)
    case OtherSession =>
      s.(device := s.device.(sessionId := NextSession(s.device.sessionId)), sessions := s.sessions + 1)
  }

  /** The message of flight n is no longer in flight; if it was answered, its writes are known. */
  function Delivered(s: State, n: nat, answered: bool): State
    requires n in s.flying
  {
    var items := s.flying[n].items;
    s.(flying := s.flying - {n},
       acked := if answered then s.acked + set k | k in items :: (k, items[k].id) else s.acked)
  }

  // ----- safety -----

  /** Does this step take a session id? */
  predicate Allocates(s: State, step: Step) {
    match step.event
    case Set(_, _, _) => false
    case Flush(_) => step.online
    case Answer(_, _) => Resends(s, step)
    case OtherSession => true
  }

  /** Fewer than 2^32 - 1 session ids are handed out while a message is in flight. */
  ghost predicate InTime(s: State, step: Step) {
    Allocates(s, step) ==>
      forall n :: n in s.flying && step.event != Answer(n, false) ==> s.sessions + 1 - n < PERIOD
  }

  /** Flight n carries the latest write of p, under p's session. */
  predicate Carries(s: State, n: nat, p: Property) {
    && n in s.flying && SessionOf(n) == p.session
    && p.key in s.last && p.key in s.flying[n].items && s.flying[n].items[p.key] == s.last[p.key]
  }

  /** What is promised of one property: it holds the value last written, and if that write is to
      be reported then it is waiting, or on its way with exactly this write, or the cloud has
      acknowledged exactly this write. */
  ghost predicate Safe(s: State, p: Property) {
    && p.key in s.last && s.last[p.key].value == p.value
    && (p.status == Sending ==> exists n :: Carries(s, n, p))
    && (p.status == UpLink.Sent && s.last[p.key].report ==> (p.key, s.last[p.key].id) in s.acked)
  }

  ghost predicate Inv(s: State) {
    && s.device.sessionId == SessionOf(s.sessions)
    && (forall n :: n in s.flying ==> 0 < n <= s.sessions && s.sessions - n < PERIOD)
    && Distinct(s.device.props)
    && forall i :: 0 <= i < |s.device.props| ==> Safe(s, s.device.props[i])
  }

  ghost predicate Distinct(props: seq<Property>) {
    forall i, j :: 0 <= i < j < |props| ==> props[i].key != props[j].key
  }

  lemma SessionAdvances(n: nat)
    ensures NextSession(SessionOf(n)) == SessionOf(n + 1)
  {
    if n > 0 {
      var r := (n - 1) % PERIOD;
      assert n % PERIOD == if r + 1 == PERIOD then 0 else r + 1 by {
        var q := (n - 1) / PERIOD;
        assert n == q * PERIOD + (r + 1);
        if r + 1 == PERIOD {
          assert n == (q + 1) * PERIOD;
        }
      }
    }
  }

  /** Two messages less than a period apart have different session ids. */
  lemma SessionsDiffer(m: nat, n: nat)
    requires 0 < m < n && n - m < PERIOD
    ensures SessionOf(m) != SessionOf(n)
  {
    var r, s := (m - 1) % PERIOD, (n - 1) % PERIOD;
    var q, t := (m - 1) / PERIOD, (n - 1) / PERIOD;
    assert n - m == (t - q) * PERIOD + (s - r);
  }

  lemma {:induction false} CarriedHolds(items: seq<Property>, last: map<string, Write>, p: Property)
    requires p in items && p.key in last
    ensures p.key in Carried(items, last) && Carried(items, last)[p.key] == last[p.key]
  {
    if items[0].key != p.key {
      CarriedHolds(items[1..], last, p);
    }
  }

  /** Packing changes nothing but the status and session of the waiting properties it writes. */
  lemma {:induction false} PackEffect(props: seq<Property>, body: string, count: nat, session: nat, now: nat)
    ensures var r := Pack(props, body, count, session, now);
      && |r.props| == |props|
      && forall i :: 0 <= i < |props| ==>
        || r.props[i] == props[i]
        || (r.props[i] == props[i].(status := Sending, session := session) && props[i].status == Dirty
          && props[i] in r.items)
  {
    if props != [] {
      var p := props[0];
      if Taken(p, |HEADER| + |body|, now) {
        PackEffect(props[1..], body + ItemText(p, count == 0), count + 1, session, now);
      } else {
        PackEffect(props[1..], body, count, session, now);
      }
    }
  }

  // ----- each step keeps the invariant -----

  lemma SetKeeps(s: State, step: Step)
    requires Inv(s) && step.event.Set?
    ensures Inv(Next(s, step))
  {
    var t := Next(s, step);
    var key, props := step.event.key, s.device.props;
    var k := Find(props, key);
    if Verify(key, step.event.value) == Ok {
      forall i | 0 <= i < |t.device.props|
        ensures Safe(t, t.device.props[i])
      {
        var p := t.device.props[i];
        if p.key != key {
          assert p == props[if k < |props| then i else i - 1];
          assert Safe(s, p);
          if p.status == Sending {
            var n :| Carries(s, n, p);
            assert Carries(t, n, p);
          }
        }
      }
    }
  }

  lemma SendKeeps(s: State, retry: nat, now: nat)
    requires Inv(s) && forall n :: n in s.flying ==> s.sessions + 1 - n < PERIOD
    ensures var (d, out) := Send(s.device, retry, true, now); Inv(AfterSend(s, d, out))
  {
    var (d, out) := Send(s.device, retry, true, now);
    var t := AfterSend(s, d, out);
    var session, props := NextSession(s.device.sessionId), s.device.props;
    SessionAdvances(s.sessions);
    PackEffect(props, "", 0, session, now);
    assert Distinct(d.props) by {
      assert forall i :: 0 <= i < |props| ==> d.props[i].key == props[i].key;
    }
    forall i | 0 <= i < |d.props|
      ensures Safe(t, d.props[i])
    {
      var p := props[i];
      assert Safe(s, p);
      if d.props[i] == p {
        if p.status == Sending {
          var n :| Carries(s, n, p);
          assert Carries(t, n, p);
        }
      } else {
        CarriedHolds(out.items, s.last, p);
        assert Carries(t, s.sessions + 1, d.props[i]);
      }
    }
  }

  /** The state right after the answer (or its absence) for flight n was taken note of. */
  function Noted(s: State, n: nat, answered: bool, now: nat): State
    requires n in s.flying
  {
    Delivered(s, n, answered).(device := s.device.(props := AckAll(s.device.props, SessionOf(n), answered, now)))
  }

  /** A property that another flight carries does not hear of this one. */
  lemma OtherFlight(s: State, n: nat, m: nat, p: Property)
    requires Inv(s) && n in s.flying && m != n && Carries(s, m, p)
    ensures p.session != SessionOf(n)
  {
    SessionsDiffer(if m < n then m else n, if m < n then n else m);
  }

  lemma NotedProperty(s: State, n: nat, answered: bool, now: nat, p: Property)
    requires Inv(s) && n in s.flying && Safe(s, p)
    ensures Safe(Noted(s, n, answered, now), Acknowledged(p, SessionOf(n), answered, now))
  {
    var t := Noted(s, n, answered, now);
    if p.status == Sending {
      var m :| Carries(s, m, p);
      if m != n {
        OtherFlight(s, n, m, p);
        assert Carries(t, m, p);
      } else if answered {
        assert (p.key, s.flying[n].items[p.key].id) in t.acked;
      }
    }
  }

  lemma DeliveredKeeps(s: State, n: nat, answered: bool, now: nat)
    requires Inv(s) && n in s.flying
    ensures Inv(Noted(s, n, answered, now))
  {
    hide Safe, Carries, Acknowledged;
    var props := s.device.props;
    var t := Noted(s, n, answered, now);
    AckKeepsKeys(props, SessionOf(n), answered, now);
    forall i | 0 <= i < |props|
      ensures Safe(t, t.device.props[i])
    {
      NotedProperty(s, n, answered, now, props[i]);
    }
  }

  lemma AckKeepsKeys(props: seq<Property>, session: nat, answered: bool, now: nat)
    requires Distinct(props)
    ensures Distinct(AckAll(props, session, answered, now))
  {
  }

  /** Every step keeps the invariant. */
  lemma StepKeeps(s: State, step: Step)
    requires Inv(s) && InTime(s, step)
    ensures Inv(Next(s, step))
  {
    match step.event
    case Set(_, _, _) => SetKeeps(s, step);
    case Flush(retry) =>
      if step.online {
        SendKeeps(s, retry, step.now);
      }
    case Answer(n, answered) =>
      if n in s.flying {
        DeliveredKeeps(s, n, answered, step.now);
        if Resends(s, step) {
          var d' := s.device.(props := AckAll(s.device.props, SessionOf(n), answered, step.now));
          SendKeeps(Delivered(s, n, answered).(device := d'), s.flying[n].retry - 1, step.now);
        }
      }
    case OtherSession =>
      OtherSessionKeeps(s, step);
  }

  lemma OtherSessionKeeps(s: State, step: Step)
    requires Inv(s) && InTime(s, step) && step.event.OtherSession?
    ensures Inv(Next(s, step))
  {
    SessionAdvances(s.sessions);
    var t := Next(s, step);
    forall i | 0 <= i < |s.device.props|
      ensures Safe(t, s.device.props[i])
    {
      var p := s.device.props[i];
      assert Safe(s, p);
      if p.status == Sending {
        var n :| Carries(s, n, p);
        assert Carries(t, n, p);
      }
    }
  }

  function Exec(s: State, run: seq<Step>): State
    decreases run
  {
    if run == [] then s else Exec(Next(s, run[0]), run[1..])
  }

  ghost predicate RunInTime(s: State, run: seq<Step>)
    decreases run
  {
    run != [] ==> InTime(s, run[0]) && RunInTime(Next(s, run[0]), run[1..])
  }

  /** Over every run, every property is safe at every moment. */
  lemma {:induction false} AlwaysSafe(s: State, run: seq<Step>)
    requires Inv(s) && RunInTime(s, run)
    ensures Inv(Exec(s, run))
    decreases run
  {
    if run != [] {
      StepKeeps(s, run[0]);
      AlwaysSafe(Next(s, run[0]), run[1..]);
    }
  }

  /** And so it is from an empty manager on. */
  lemma SafeFromStart(run: seq<Step>)
    requires RunInTime(INIT, run)
    ensures Inv(Exec(INIT, run))
  {
    hide RunInTime, Inv, Exec;
    EmptyIsSafe();
    AlwaysSafe(INIT, run);
  }

  lemma EmptyIsSafe()
    ensures Inv(INIT)
  {
  }

  lemma PackKeepsStored(props: seq<Property>, session: nat, now: nat)
    requires Stored(props)
    ensures Stored(Pack(props, "", 0, session, now).props)
  {
    hide Verify, Pack;
    PackEffect(props, "", 0, session, now);
  }

  lemma AckKeepsStored(props: seq<Property>, session: nat, answered: bool, now: nat)
    requires Stored(props)
    ensures Stored(AckAll(props, session, answered, now))
  {
    hide Verify;
  }

  lemma StepKeepsStored(s: State, step: Step)
    requires Stored(s.device.props)
    ensures Stored(Next(s, step).device.props)
  {
    hide Stored, Verify, Store, AckAll, Pack;
    match step.event
    case Set(key, value, report) =>
      if Verify(key, value) == Ok {
        StoreKeepsStored(s.device.props, key, value, report, step.now);
      }
    case Flush(retry) =>
      PackKeepsStored(s.device.props, NextSession(s.device.sessionId), step.now);
    case Answer(n, answered) =>
      if n in s.flying {
        AckKeepsStored(s.device.props, SessionOf(n), answered, step.now);
        PackKeepsStored(AckAll(s.device.props, SessionOf(n), answered, step.now), NextSession(s.device.sessionId),
          step.now);
      }
    case OtherSession =>
  }

  /** Over every run, without any bound, all that is stored has passed the check. */
  lemma {:induction false} AlwaysStored(s: State, run: seq<Step>)
    requires Stored(s.device.props)
    ensures Stored(Exec(s, run).device.props)
    decreases run
  {
    hide Stored, Next;
    if run != [] {
      StepKeepsStored(s, run[0]);
      AlwaysStored(Next(s, run[0]), run[1..]);
    }
  }

  // ----- late answers -----

  /** An answer, however late, touches exactly the properties whose latest write its message
      carried: a newer value of the same key is neither marked as sent nor made to wait again. */
  lemma LateAnswer(s: State, n: nat, answered: bool, now: nat, p: Property)
    requires Inv(s) && n in s.flying && p in s.device.props
    ensures var q := Acknowledged(p, SessionOf(n), answered, now);
      q == if p.status != Sending || !Carries(s, n, p) then p
           else if answered then p.(status := UpLink.Sent, lastSent := now)
           else p.(status := Dirty)
  {
    assert Safe(s, p);
    if p.status == Sending && !Carries(s, n, p) {
      var m :| Carries(s, m, p);
      OtherFlight(s, n, m, p);
    }
  }

  /** Without the bound on sessions this fails: ids repeat after exactly PERIOD sessions. */
  lemma SessionsRepeat(m: nat, n: nat)
    requires 0 < m <= n
    ensures SessionOf(m) == SessionOf(n) <==> (n - m) % PERIOD == 0
  {
    var r, s := (m - 1) % PERIOD, (n - 1) % PERIOD;
    var q, t := (m - 1) / PERIOD, (n - 1) / PERIOD;
    assert n - m == (t - q) * PERIOD + (s - r);
    var d := (n - m) / PERIOD;
    assert n - m == d * PERIOD + (n - m) % PERIOD;
    assert s - r - (n - m) % PERIOD == (d - (t - q)) * PERIOD;
  }

  lemma {:induction false} IdleSessions(s: State, idle: Step, k: nat)
    requires s.device.sessionId == SessionOf(s.sessions) && idle.event == OtherSession
    ensures Exec(s, seq(k, _ => idle))
      == s.(device := s.device.(sessionId := SessionOf(s.sessions + k)), sessions := s.sessions + k)
    decreases k
  {
    SessionAdvances(s.sessions);
    if k > 0 {
      assert seq(k, _ => idle)[0] == idle && seq(k, _ => idle)[1..] == seq(k - 1, _ => idle);
      IdleSessions(Next(s, idle), idle, k - 1);
    }
  }

  lemma {:induction false} ExecConcat(s: State, a: seq<Step>, b: seq<Step>)
    ensures Exec(s, a + b) == Exec(Exec(s, a), b)
    decreases a
  {
    if a == [] {
      assert a + b == b;
    } else {
      assert (a + b)[0] == a[0] && (a + b)[1..] == a[1..] + b;
      ExecConcat(Next(s, a[0]), a[1..], b);
    }
  }

  function At(e: Event): Step { Step(e, 5000, true) }

  function P(value: string, status: Status, session: nat): Property {
    Property("p", value, status, session, 3999)
  }

  const FIRST := Write(0, "1", true)
  const SECOND := Write(1, "2", true)
  const FIRST_FLIGHT := map[1 := Flight(0, map["p" := FIRST])]

  /** A write sent in session 1, a newer write of the same key, all other session ids used up,
      the newer write sent, and the first message answered. */
  function WrapStart(): seq<Step> { [At(Set("p", "1", true)), At(Flush(0)), At(Set("p", "2", true))] }
  function WrapIdle(): seq<Step> { seq(PERIOD - 1, _ => At(OtherSession)) }
  function WrapEnd(): seq<Step> { [At(Flush(0)), At(Answer(1, true))] }

  lemma DigitIsWellFormed(value: string)
    requires |value| == 1 && DigitChar(value[0])
    ensures WellFormed(value)
  {
    assert Head(value) == 0 && Tail(value) == 0;
  }

  lemma WriteStored(s: State, value: string)
    requires s.device.props == [] || (|s.device.props| == 1 && s.device.props[0].key == "p"
      && s.device.props[0].lastSent == 3999)
    requires value == "1" || value == "2"
    ensures Next(s, At(Set("p", value, true)))
      == s.(device := s.device.(props := [P(value, Dirty, 0)]), writes := s.writes + 1,
            last := s.last["p" := Write(s.writes, value, true)])
  {
    assert forall c :: c in "p" ==> c == 'p' && KeyChar(c);
    assert WellFormed(value) by { DigitIsWellFormed(value); }
    assert Verify("p", value) == Ok;
    assert Find(s.device.props, "p") == 0;
  }

  lemma WriteSent(s: State, value: string)
    requires s.device.props == [P(value, Dirty, 0)] && |value| == 1 && "p" in s.last
    ensures var session := NextSession(s.device.sessionId);
      Next(s, At(Flush(0)))
        == s.(device := Device([P(value, Sending, session)], session), sessions := s.sessions + 1,
              flying := s.flying[s.sessions + 1 := Flight(0, map["p" := s.last["p"]])])
  {
    var p := P(value, Dirty, 0);
    var session := NextSession(s.device.sessionId);
    assert |HEADER| == 53;
    assert Taken(p, |HEADER| + |""|, 5000);
    assert [p][1..] == [];
    var r := Pack([p], "", 0, session, 5000);
    assert Pack([p][1..], "" + ItemText(p, true), 1, session, 5000) == Packed([], [], "");
    assert r.props == [P(value, Sending, session)] && r.items == [p];
    assert Carried([p], s.last) == map["p" := s.last["p"]] by {
      assert Carried([p][1..], s.last) == map[];
    }
  }

  lemma WrapStarts()
    ensures Exec(INIT, WrapStart())
      == State(Device([P("2", Dirty, 0)], 1), 1, 2, map["p" := SECOND], FIRST_FLIGHT, {})
  {
    WriteStored(INIT, "1");
    var s1 := State(Device([P("1", Dirty, 0)], 0), 0, 1, map["p" := FIRST], map[], {});
    WriteSent(s1, "1");
    var s2 := State(Device([P("1", Sending, 1)], 1), 1, 1, map["p" := FIRST], FIRST_FLIGHT, {});
    assert Next(s1, At(Flush(0))) == s2;
    WriteStored(s2, "2");
    var s3 := Next(s2, At(Set("p", "2", true)));
    assert s3.last == map["p" := SECOND];
    assert Exec(s3, []) == s3 && Exec(s2, [At(Set("p", "2", true))]) == s3;
    assert Exec(s1, WrapStart()[1..]) == Exec(s2, WrapStart()[1..][1..]);
  }

  lemma WrapEnds(s: State)
    requires s == State(Device([P("2", Dirty, 0)], PERIOD), PERIOD, 2, map["p" := SECOND], FIRST_FLIGHT, {})
    ensures var t := Exec(s, WrapEnd());
      && t.device.props == [P("2", UpLink.Sent, 1).(lastSent := 5000)]
      && t.last == map["p" := SECOND] && t.acked == {("p", 0)}
  {
    WriteSent(s, "2");
    var s1 := Next(s, At(Flush(0)));
    assert SessionOf(1) == 1 && s1.flying[1] == Flight(0, map["p" := FIRST]);
    var s2 := Next(s1, At(Answer(1, true)));
    assert s2.device.props == [P("2", UpLink.Sent, 1).(lastSent := 5000)];
    assert forall x :: x in s2.acked <==> x == ("p", 0) by {
      assert "p" in s1.flying[1].items;
    }
    assert Exec(s1, WrapEnd()[1..]) == Exec(s2, WrapEnd()[1..][1..]) == s2;
  }

  /** The bound is tight: with exactly 2^32 - 1 sessions handed out while the first message is in
      flight, its late answer marks as sent a newer value that the cloud never acknowledged. */
  lemma BoundIsTight()
    ensures var t := Exec(INIT, WrapStart() + WrapIdle() + WrapEnd());
      && |t.device.props| == 1 && t.device.props[0].value == "2" && t.device.props[0].status == UpLink.Sent
      && !Safe(t, t.device.props[0])
  {
    WrapStarts();
    var s := Exec(INIT, WrapStart());
    var k := PERIOD - 1;
    assert SessionOf(1) == 1 && SessionOf(PERIOD) == PERIOD;
    IdleSessions(s, At(OtherSession), k);
    ExecConcat(INIT, WrapStart(), WrapIdle());
    ExecConcat(INIT, WrapStart() + WrapIdle(), WrapEnd());
    WrapEnds(Exec(s, WrapIdle()));
  }
}
