/** What an observer of a run knows of every property: its status and its cooldown clock are told by
    the writes, the messages and the answers alone, and a message without an answer is sent again. */
module UpLinkHistory {
  import opened UpLink
  import opened UpLinkRuns
  import opened UpLinkCheck

  /** Flight n carries the latest write of k. */
  predicate Holds(s: State, n: nat, k: string) {
    n in s.flying && k in s.flying[n].items && k in s.last && s.flying[n].items[k] == s.last[k]
  }

  ghost predicate Held(s: State, k: string) { exists n :: Holds(s, n, k) }

  /** The latest write of k has been acknowledged. */
  predicate Known(s: State, k: string) { k in s.last && (k, s.last[k].id) in s.acked }

  /** A property is done with if its latest write is not to be reported or is acknowledged; it is on
      its way if a message carries this write; else it waits. */
  ghost predicate Told(s: State, p: Property) {
    && p.key in s.last && p.value == s.last[p.key].value
    && (p.status == UpLink.Sent <==> !s.last[p.key].report || Known(s, p.key))
    && (p.status == Sending <==> Held(s, p.key))
    && forall n :: Holds(s, n, p.key) ==> p.session == SessionOf(n)
  }

  /** Writes are numbered: an older write of a key has a smaller number. */
  ghost predicate Numbered(s: State) {
    && (forall k :: k in s.last ==> s.last[k].id < s.writes)
    && (forall n, k :: n in s.flying && k in s.flying[n].items ==>
      k in s.last && (s.flying[n].items[k] == s.last[k] || s.flying[n].items[k].id < s.last[k].id))
    && (forall k, id :: (k, id) in s.acked ==> k in s.last && id <= s.last[k].id)
  }

  ghost predicate HasKey(props: seq<Property>, k: string) {
    exists i :: 0 <= i < |props| && props[i].key == k
  }

  lemma SameKeys(props: seq<Property>, props': seq<Property>, k: string)
    requires |props| == |props'| && forall i :: 0 <= i < |props| ==> props[i].key == props'[i].key
    ensures HasKey(props, k) == HasKey(props', k)
  {
  }

  /** Of every property all of this holds, and every key ever written is stored. */
  ghost predicate AllTold(s: State) {
    && Numbered(s) && (forall k :: k in s.last ==> HasKey(s.device.props, k))
    && forall i :: 0 <= i < |s.device.props| ==> Told(s, s.device.props[i])
  }

  // ----- a write -----

  lemma StoreHasKey(props: seq<Property>, key: string, value: string, report: bool, now: nat, l: string)
    requires l == key || HasKey(props, l)
    ensures HasKey(Store(props, key, value, report, now), l)
  {
    var r, k := Store(props, key, value, report, now), Find(props, key);
    if l == key {
      assert r[if k < |props| then k else 0].key == key;
    } else {
      var i :| 0 <= i < |props| && props[i].key == l;
      assert r[if k < |props| then i else i + 1].key == l;
    }
  }

  lemma SetTold(s: State, step: Step)
    requires Inv(s) && AllTold(s) && step.event.Set?
    ensures AllTold(Next(s, step))
  {
    hide Verify, Told, Safe, Holds, Store;
    var t := Next(s, step);
    var Set(key, value, report) := step.event;
    if Verify(key, value) == Ok {
      NobodyHolds(s, t, key);
      NewNumbered(s, t, key);
      forall l | l in t.last
        ensures HasKey(t.device.props, l)
      {
        StoreHasKey(s.device.props, key, value, report, step.now, l);
      }
      forall i | 0 <= i < |t.device.props|
        ensures Told(t, t.device.props[i])
      {
        StoredWhat(s.device.props, key, value, report, step.now, i);
        var p := t.device.props[i];
        if p.key == key {
          NewTold(s, t, p);
        } else {
          ToldKey(s, p);
          OtherPropertyTold(s, t, p, key);
        }
      }
    }
  }

  lemma NewNumbered(s: State, t: State, key: string)
    requires Numbered(s) && t.flying == s.flying && t.acked == s.acked && t.writes == s.writes + 1
    requires key in t.last && t.last == s.last[key := t.last[key]] && t.last[key].id == s.writes
    ensures Numbered(t)
  {
    forall n, k | n in t.flying && k in t.flying[n].items
      ensures k in t.last && (t.flying[n].items[k] == t.last[k] || t.flying[n].items[k].id < t.last[k].id)
    {
      assert k in s.flying[n].items;
      if k == key {
        assert s.last[k].id < s.writes;
      }
    }
  }

  /** A stored property is either the written one or one that was there. */
  lemma StoredWhat(props: seq<Property>, key: string, value: string, report: bool, now: nat, i: nat)
    requires Distinct(props) && i < |Store(props, key, value, report, now)|
    ensures var p := Store(props, key, value, report, now)[i];
      if p.key == key then p.value == value && p.status == (if report then Dirty else UpLink.Sent) else p in props
  {
    var k := Find(props, key);
    var p := Store(props, key, value, report, now)[i];
    if k < |props| {
      assert p == if i == k then Updated(props[k], value, report) else props[i];
    } else {
      assert i > 0 ==> p == props[i - 1];
    }
  }

  lemma NewTold(s: State, t: State, p: Property)
    requires Numbered(s) && p.key in t.last && !Held(t, p.key) && forall n :: !Holds(t, n, p.key)
    requires t.acked == s.acked && t.last[p.key].id == s.writes && p.value == t.last[p.key].value
    requires p.status == if t.last[p.key].report then Dirty else UpLink.Sent
    ensures Told(t, p)
  {
    hide Holds;
    assert p.key in s.last ==> s.last[p.key].id < s.writes;
  }

  lemma OtherPropertyTold(s: State, t: State, p: Property, key: string)
    requires Told(s, p) && p.key != key && t.flying == s.flying && t.acked == s.acked
    requires p.key in t.last && t.last[p.key] == s.last[p.key]
    ensures Told(t, p)
  {
    OthersHeld(s, t, p.key);
  }

  /** No message carries a write that has only just been made. */
  lemma NobodyHolds(s: State, t: State, k: string)
    requires Numbered(s) && t.flying == s.flying && k in t.last && t.last[k].id == s.writes
    ensures !Held(t, k) && forall n :: !Holds(t, n, k)
  {
    forall n
      ensures !Holds(t, n, k)
    {
      if n in s.flying && k in s.flying[n].items {
        assert s.flying[n].items[k].id <= s.last[k].id < s.writes;
      }
    }
  }

  /** Nothing an observer knows of k has changed. */
  lemma OthersHeld(s: State, t: State, k: string)
    requires k in s.last && k in t.last && s.last[k] == t.last[k] && s.flying == t.flying
    ensures forall n :: Holds(s, n, k) <==> Holds(t, n, k)
    ensures Held(s, k) <==> Held(t, k)
  {
    forall n
      ensures Holds(s, n, k) <==> Holds(t, n, k)
    {
    }
  }

  // ----- a message -----

  lemma {:induction false} CarriedIs(items: seq<Property>, last: map<string, Write>)
    ensures var c := Carried(items, last);
      forall k :: (k in c <==> k in last && exists p :: p in items && p.key == k) && (k in c ==> c[k] == last[k])
  {
    if items != [] {
      CarriedIs(items[1..], last);
      forall k
        ensures k in Carried(items, last) <==> k in last && exists p :: p in items && p.key == k
      {
        if p :| p in items && p.key == k {
          assert p == items[0] || p in items[1..];
        }
      }
    }
  }

  /** The new message carries exactly the properties that went, each with its latest write. */
  lemma NewFlight(s: State, retry: nat, now: nat)
    requires Inv(s) && AllTold(s) && now < U32
    ensures var (d, out) := Send(s.device, retry, true, now); var t := AfterSend(s, d, out); var m := s.sessions + 1;
      && |d.props| == |s.device.props|
      && (forall i :: 0 <= i < |d.props| ==>
           (Holds(t, m, d.props[i].key) <==> Went(s.device.props[i], d.props[i]))
           && d.props[i] == if Went(s.device.props[i], d.props[i])
                            then s.device.props[i].(status := Sending, session := SessionOf(m)) else s.device.props[i])
      && (m in t.flying ==> t.flying[m].retry == retry)
      && (m in t.flying <==> exists i :: 0 <= i < |d.props| && Went(s.device.props[i], d.props[i]))
  {
    hide Told, Numbered, Safe, Pack, Waiting, Fits, Used, Holds, Distinct, Carried, GoesIfFits, SessionOf;
    var (d, out) := Send(s.device, retry, true, now);
    var t := AfterSend(s, d, out);
    var m, props, session := s.sessions + 1, s.device.props, NextSession(s.device.sessionId);
    var r := Pack(props, "", 0, session, now);
    SessionAdvances(s.sessions);
    PacksGreedily(props, session, now);
    forall i | 0 <= i < |props|
      ensures Holds(t, m, d.props[i].key) <==> Went(props[i], d.props[i])
      ensures d.props[i] == if Went(props[i], d.props[i])
        then props[i].(status := Sending, session := SessionOf(m)) else props[i]
    {
      GoesOrStays(props, d.props, i, session, now);
      ToldKey(s, props[i]);
      InTheMessage(props, d.props, r.items, s.last, session, now, i);
      HoldsNew(s, t, m, r.items, props[i].key);
    }
    if m in t.flying {
      assert r.items[0] in r.items;
      var j: nat :| WentAt(props, d.props, j, r.items[0]);
    }
    if i :| 0 <= i < |d.props| && Went(props[i], d.props[i]) {
      assert WentAt(props, d.props, i, props[i]);
      assert props[i] in r.items;
    }
  }

  lemma GoesOrStays(was: seq<Property>, after: seq<Property>, i: nat, session: nat, now: nat)
    requires |was| == |after| && i < |was| && GoesIfFits(was, after, i, session, now)
    ensures after[i] == if Went(was[i], after[i]) then was[i].(status := Sending, session := session) else was[i]
  {
    hide Fits, Used;
  }

  /** A key is in the message exactly when its property went. */
  lemma InTheMessage(was: seq<Property>, after: seq<Property>, items: seq<Property>, last: map<string, Write>,
                     session: nat, now: nat, i: nat)
    requires Greedy(was, after, items, session, now) && Distinct(was) && i < |was| && was[i].key in last
    ensures was[i].key in Carried(items, last) <==> Went(was[i], after[i])
    ensures was[i].key in Carried(items, last) ==> Carried(items, last)[was[i].key] == last[was[i].key]
  {
    hide GoesIfFits;
    CarriedIs(items, last);
    if was[i].key in Carried(items, last) {
      var p :| p in items && p.key == was[i].key;
      var j: nat :| WentAt(was, after, j, p);
    }
    if Went(was[i], after[i]) {
      assert WentAt(was, after, i, was[i]);
    }
  }

  lemma HoldsNew(s: State, t: State, m: nat, items: seq<Property>, k: string)
    requires m !in s.flying && t.last == s.last && k in s.last
    requires t.flying == s.flying || exists retry :: t.flying == s.flying[m := Flight(retry, Carried(items, s.last))]
    requires t.flying == s.flying ==> items == []
    requires k in Carried(items, s.last) ==> Carried(items, s.last)[k] == s.last[k]
    ensures Holds(t, m, k) <==> k in Carried(items, s.last)
  {
  }

  lemma ToldKey(s: State, p: Property)
    requires AllTold(s) && p in s.device.props
    ensures p.key in s.last
  {
    assert Told(s, p);
  }

  lemma SendTold(s: State, retry: nat, now: nat)
    requires Inv(s) && AllTold(s) && now < U32
    ensures var (d, out) := Send(s.device, retry, true, now); AllTold(AfterSend(s, d, out))
  {
    hide Send, Went, Safe, Told, Numbered, Holds, Carried, Distinct, SessionOf;
    var (d, out) := Send(s.device, retry, true, now);
    var t := AfterSend(s, d, out);
    var m, props := s.sessions + 1, s.device.props;
    NewFlight(s, retry, now);
    NewFlightNumbered(s, retry, now);
    forall k | k in t.last
      ensures HasKey(t.device.props, k)
    {
      SameKeys(props, d.props, k);
    }
    forall i | 0 <= i < |d.props|
      ensures Told(t, d.props[i])
    {
      SentTold(s, t, props[i], d.props[i]);
    }
  }

  lemma NewFlightNumbered(s: State, retry: nat, now: nat)
    requires Numbered(s)
    ensures var (d, out) := Send(s.device, retry, true, now); Numbered(AfterSend(s, d, out))
  {
    hide Send;
    var (d, out) := Send(s.device, retry, true, now);
    if out.Outgoing? {
      CarriedIs(out.items, s.last);
    }
  }

  lemma SentTold(s: State, t: State, p: Property, q: Property)
    requires Told(s, p) && t.last == s.last && t.acked == s.acked
    requires (s.sessions + 1) !in s.flying
    requires forall n :: n != s.sessions + 1 ==>
      (n in t.flying <==> n in s.flying) && (n in s.flying ==> t.flying[n] == s.flying[n])
    requires Holds(t, s.sessions + 1, p.key) <==> Went(p, q)
    requires q == if Went(p, q) then p.(status := Sending, session := SessionOf(s.sessions + 1)) else p
    ensures Told(t, q)
  {
    forall n | n != s.sessions + 1
      ensures Holds(s, n, p.key) <==> Holds(t, n, p.key)
    {
    }
    if n :| Holds(s, n, p.key) {
      assert Holds(t, n, p.key);
    }
    if n :| Holds(t, n, p.key) && n != s.sessions + 1 {
      assert Holds(s, n, p.key);
    }
  }

  // ----- an answer -----

  lemma NotedTold(s: State, n: nat, answered: bool, now: nat)
    requires Inv(s) && AllTold(s) && n in s.flying
    ensures AllTold(Noted(s, n, answered, now))
  {
    hide Told, Safe, Acknowledged, Numbered, HasKey, Distinct, SessionOf;
    var t := Noted(s, n, answered, now);
    var props := s.device.props;
    NotedNumbered(s, n, answered, now);
    forall k | k in t.last
      ensures HasKey(t.device.props, k)
    {
      AckSameKeys(props, SessionOf(n), answered, now);
      SameKeys(props, t.device.props, k);
    }
    forall i | 0 <= i < |props|
      ensures Told(t, t.device.props[i])
    {
      NotedOne(s, n, answered, now, props[i]);
    }
  }

  lemma NotedNumbered(s: State, n: nat, answered: bool, now: nat)
    requires Numbered(s) && n in s.flying
    ensures Numbered(Noted(s, n, answered, now))
  {
    hide AckAll;
  }

  lemma AckSameKeys(props: seq<Property>, session: nat, answered: bool, now: nat)
    ensures var r := AckAll(props, session, answered, now); forall i :: 0 <= i < |props| ==> r[i].key == props[i].key
  {
  }

  /** What one property hears of an answer: all, if the message carries its latest write, and else nothing. */
  lemma Hears(s: State, n: nat, answered: bool, now: nat, p: Property)
    requires Inv(s) && Told(s, p) && n in s.flying
    ensures Acknowledged(p, SessionOf(n), answered, now) ==
      if !Holds(s, n, p.key) then p
      else if answered then p.(status := UpLink.Sent, lastSent := now) else p.(status := Dirty)
  {
    hide Safe;
    if Holds(s, n, p.key) {
      assert Held(s, p.key);
    } else if p.status == Sending {
      var m: nat :| Holds(s, m, p.key);
      SessionsDiffer(if m < n then m else n, if m < n then n else m);
    }
  }

  lemma NotedOne(s: State, n: nat, answered: bool, now: nat, p: Property)
    requires Inv(s) && Numbered(s) && Told(s, p) && n in s.flying
    ensures Told(Noted(s, n, answered, now), Acknowledged(p, SessionOf(n), answered, now))
  {
    hide Safe, Acknowledged;
    var t := Noted(s, n, answered, now);
    Hears(s, n, answered, now, p);
    forall m
      ensures Holds(t, m, p.key) <==> m != n && Holds(s, m, p.key)
    {
    }
    if Holds(s, n, p.key) {
      assert Held(s, p.key);
      forall m: nat | m != n
        ensures !Holds(s, m, p.key)
      {
        if m in s.flying {
          SessionsDiffer(if m < n then m else n, if m < n then n else m);
        }
      }
    } else if Held(s, p.key) {
      var m: nat :| Holds(s, m, p.key);
      assert Holds(t, m, p.key);
    }
  }

  // ----- every step, every run -----

  lemma StepTold(s: State, step: Step)
    requires Inv(s) && AllTold(s) && InTime(s, step) && step.now < U32
    ensures AllTold(Next(s, step))
  {
    hide Inv, AllTold, Pack, Store, AckAll;
    match step.event
    case Set(_, _, _) => SetTold(s, step);
    case Flush(retry) =>
      if step.online {
        SendTold(s, retry, step.now);
      }
    case Answer(n, answered) =>
      if n in s.flying {
        DeliveredKeeps(s, n, answered, step.now);
        NotedTold(s, n, answered, step.now);
        if Resends(s, step) {
          SendTold(Noted(s, n, answered, step.now), s.flying[n].retry - 1, step.now);
        }
      }
    case OtherSession =>
      OtherTold(s, step);
  }

  lemma OtherTold(s: State, step: Step)
    requires AllTold(s) && step.event.OtherSession?
    ensures AllTold(Next(s, step))
  {
    var t := Next(s, step);
    forall i | 0 <= i < |s.device.props|
      ensures Told(t, s.device.props[i])
    {
      var p := s.device.props[i];
      assert Told(s, p);
      OthersHeld(s, t, p.key);
    }
  }

  ghost predicate Ticking(run: seq<Step>) { forall i :: 0 <= i < |run| ==> run[i].now < U32 }

  /** Over every run the status of every property is what an observer computes from the events. */
  lemma {:induction false} AlwaysTold(s: State, run: seq<Step>)
    requires Inv(s) && AllTold(s) && RunInTime(s, run) && Ticking(run)
    ensures Inv(Exec(s, run)) && AllTold(Exec(s, run))
    decreases run
  {
    hide Inv, AllTold, Next;
    if run != [] {
      StepKeeps(s, run[0]);
      StepTold(s, run[0]);
      AlwaysTold(Next(s, run[0]), run[1..]);
    }
  }

  lemma StatusIsHistory(run: seq<Step>, p: Property)
    requires RunInTime(INIT, run) && Ticking(run) && p in Exec(INIT, run).device.props
    ensures var s := Exec(INIT, run);
      && p.key in s.last && p.value == s.last[p.key].value
      && (p.status == UpLink.Sent <==> !s.last[p.key].report || (p.key, s.last[p.key].id) in s.acked)
      && (p.status == Sending <==> exists n :: Holds(s, n, p.key))
  {
    hide RunInTime, Ticking, Exec;
    EmptyIsSafe();
    assert AllTold(INIT);
    AlwaysTold(INIT, run);
    assert Told(Exec(INIT, run), p);
  }

  // ----- the cooldown clock, and trying again -----

  /** In this step the cloud acknowledges the latest write of k. */
  predicate Acknowledges(s: State, step: Step, k: string) {
    step.event.Answer? && step.event.answered && Holds(s, step.event.flight, k)
  }

  lemma SendKeepsClocks(s: State, retry: nat, now: nat)
    requires Inv(s) && AllTold(s) && now < U32
    ensures var (d, out) := Send(s.device, retry, true, now);
      && |d.props| == |s.device.props|
      && forall i :: 0 <= i < |d.props| ==>
           && d.props[i].key == s.device.props[i].key && d.props[i].value == s.device.props[i].value
           && d.props[i].lastSent == s.device.props[i].lastSent
  {
    hide Send, Inv, AllTold, Went;
    NewFlight(s, retry, now);
  }

  /** The clock of a property moves only in a step that acknowledges its latest write, to the tick of
      that step; a first write sets it so that the property may go at once. */
  lemma ClockMoves(s: State, step: Step, q: Property)
    requires Inv(s) && AllTold(s) && InTime(s, step) && step.now < U32 && q in Next(s, step).device.props
    ensures if exists p :: p in s.device.props && p.key == q.key then
        exists p :: p in s.device.props && p.key == q.key &&
          q.lastSent == if Acknowledges(s, step, q.key) then step.now else p.lastSent
      else (step.now - q.lastSent) % 0x1_0000_0000 == 1001
  {
    hide Told, Numbered, Safe, Verify, Pack, Inv, AllTold, Store, AckAll;
    match step.event
    case Set(key, value, report) =>
      if Verify(key, value) == Ok {
        DistinctKeys(s);
        SetClock(s.device.props, key, value, report, step.now, q);
      }
    case Flush(retry) =>
      if step.online {
        SendKeepsClocks(s, retry, step.now);
        SameClocks(s.device.props, Next(s, step).device.props, q);
      }
    case Answer(n, answered) =>
      if n in s.flying {
        AnswerClock(s, step, q);
      }
    case OtherSession =>
  }

  lemma DistinctKeys(s: State)
    requires Inv(s)
    ensures Distinct(s.device.props)
  {
  }

  lemma SameClocks(was: seq<Property>, after: seq<Property>, q: Property)
    requires |was| == |after| && q in after
    requires forall i :: 0 <= i < |was| ==> after[i].key == was[i].key && after[i].lastSent == was[i].lastSent
    ensures exists p :: p in was && p.key == q.key && p.lastSent == q.lastSent
  {
    var i :| 0 <= i < |after| && after[i] == q;
    assert was[i] in was;
  }

  lemma AnswerClock(s: State, step: Step, q: Property)
    requires Inv(s) && AllTold(s) && InTime(s, step) && step.now < U32 && q in Next(s, step).device.props
    requires step.event.Answer? && step.event.flight in s.flying
    ensures exists p :: p in s.device.props && p.key == q.key
                        && q.lastSent == if Acknowledges(s, step, q.key) then step.now else p.lastSent
  {
    hide Told, Numbered, Safe, Pack, Inv, AllTold, Acknowledged, Holds;
    var Answer(n, answered) := step.event;
    var u := Noted(s, n, answered, step.now);
    DeliveredKeeps(s, n, answered, step.now);
    NotedTold(s, n, answered, step.now);
    var r := q;
    if Resends(s, step) {
      SendKeepsClocks(u, s.flying[n].retry - 1, step.now);
      SameClocks(u.device.props, Next(s, step).device.props, q);
      r :| r in u.device.props && r.key == q.key && r.lastSent == q.lastSent;
    }
    var i :| 0 <= i < |s.device.props| && u.device.props[i] == r;
    ToldOne(s, i);
    Hears(s, n, answered, step.now, s.device.props[i]);
  }

  lemma ToldOne(s: State, i: nat)
    requires AllTold(s) && i < |s.device.props|
    ensures Told(s, s.device.props[i])
  {
  }

  lemma SetClock(props: seq<Property>, key: string, value: string, report: bool, now: nat, q: Property)
    requires Distinct(props) && q in Store(props, key, value, report, now)
    ensures if exists p :: p in props && p.key == q.key then
        exists p :: p in props && p.key == q.key && q.lastSent == p.lastSent
      else (now - q.lastSent) % 0x1_0000_0000 == 1001
  {
    var k := Find(props, key);
    if k < |props| {
      assert props[k] in props;
    } else {
      assert (now - (now - COOLDOWN - 1) % U32) % U32 == 1001;
    }
  }

  /** Of one property: it waits, or this message carries its latest write and is not answered. */
  predicate StillWaiting(s: State, n: nat, p: Property, now: nat) {
    (p.status == Dirty || Holds(s, n, p.key)) && Cooled(p.lastSent, now)
  }

  lemma {:induction false} NoneWent(was: seq<Property>, after: seq<Property>)
    requires |was| == |after| && forall i :: 0 <= i < |was| ==> !Went(was[i], after[i])
    ensures Used(was, after) == 0
  {
    if was != [] {
      NoneWent(was[..|was| - 1], after[..|was| - 1]);
    }
  }

  lemma SmallEnough(p: Property)
    requires Verify(p.key, p.value) == Ok
    ensures Fits(0, p)
  {
    hide HasForm, KeyForm;
    CheckGives(p.key, p.value);
  }

  /** Something goes exactly when something waits that has cooled down. */
  lemma SomethingGoes(props: seq<Property>, session: nat, now: nat)
    requires Stored(props) && now < U32
    ensures var after := Pack(props, "", 0, session, now).props;
      |after| == |props| &&
      ((exists i :: 0 <= i < |props| && Went(props[i], after[i])) <==>
       (exists i :: 0 <= i < |props| && Waiting(props[i], now)))
  {
    hide Fits, Verify, Pack, Waiting;
    var after := Pack(props, "", 0, session, now).props;
    PacksGreedily(props, session, now);
    if i :| 0 <= i < |props| && Went(props[i], after[i]) {
      assert GoesIfFits(props, after, i, session, now);
    }
    if forall j :: 0 <= j < |props| ==> !Went(props[j], after[j]) {
      forall i | 0 <= i < |props|
        ensures !Waiting(props[i], now)
      {
        NoRoomNeeded(props, after, i, session, now);
      }
    }
  }

  lemma NoRoomNeeded(props: seq<Property>, after: seq<Property>, i: nat, session: nat, now: nat)
    requires i < |props| == |after| && Verify(props[i].key, props[i].value) == Ok
    requires GoesIfFits(props, after, i, session, now)
    requires forall j :: 0 <= j < |props| ==> !Went(props[j], after[j])
    ensures !Waiting(props[i], now)
  {
    hide Fits, Verify;
    NoneWent(props[..i], after[..i]);
    SmallEnough(props[i]);
  }

  /** A message with retries left gets no answer while the link is up: every property keeps its key,
      its value and its clock; the message is given up; and a new one leaves, with one retry less,
      exactly when something waits that has cooled down since it was last acknowledged, be it one of
      the unanswered or another. */
  lemma RetryExactly(s: State, step: Step)
    requires Inv(s) && AllTold(s) && Stored(s.device.props) && step.now < U32
    requires step.event.Answer? && !step.event.answered && step.online
    requires step.event.flight in s.flying && s.flying[step.event.flight].retry > 0
    ensures var n, t := step.event.flight, Next(s, step); var m := s.sessions + 1;
      && |t.device.props| == |s.device.props|
      && (forall i :: 0 <= i < |t.device.props| ==>
           && t.device.props[i].key == s.device.props[i].key && t.device.props[i].value == s.device.props[i].value
           && t.device.props[i].lastSent == s.device.props[i].lastSent)
      && n !in t.flying && m !in s.flying
      && (m in t.flying ==> t.flying[m].retry == s.flying[n].retry - 1)
      && (m in t.flying <==>
           exists i :: 0 <= i < |s.device.props| && StillWaiting(s, n, s.device.props[i], step.now))
  {
    hide Told, Numbered, Safe, Verify, Pack, Cooled, Went, Holds, Acknowledged;
    var n := step.event.flight;
    var u := Noted(s, n, false, step.now);
    DeliveredKeeps(s, n, false, step.now);
    NotedTold(s, n, false, step.now);
    SendKeepsClocks(u, s.flying[n].retry - 1, step.now);
    NewFlight(u, s.flying[n].retry - 1, step.now);
    AckKeepsStored(s.device.props, SessionOf(n), false, step.now);
    SomethingGoes(u.device.props, NextSession(u.device.sessionId), step.now);
    forall i | 0 <= i < |s.device.props|
      ensures StillWaiting(s, n, s.device.props[i], step.now) <==> Waiting(u.device.props[i], step.now)
      ensures u.device.props[i].key == s.device.props[i].key && u.device.props[i].value == s.device.props[i].value
      ensures u.device.props[i].lastSent == s.device.props[i].lastSent
    {
      Hears(s, n, false, step.now, s.device.props[i]);
    }
  }

  /** The clock an observer computes: the tick of the last step that acknowledged what was then the
      latest write of k. */
  function Clock(s: State, run: seq<Step>, k: string, before: nat): nat
    decreases run
  {
    if run == [] then before
    else Clock(Next(s, run[0]), run[1..], k, if Acknowledges(s, run[0], k) then run[0].now else before)
  }

  lemma {:induction false} ClockIsHistory(s: State, run: seq<Step>, p: Property, q: Property)
    requires Inv(s) && AllTold(s) && RunInTime(s, run) && Ticking(run)
    requires p in s.device.props && q in Exec(s, run).device.props && p.key == q.key
    ensures q.lastSent == Clock(s, run, p.key, p.lastSent)
    decreases run
  {
    hide AllTold, Next, Acknowledges;
    if run == [] {
      assert p == q;
    } else {
      var t := Next(s, run[0]);
      StepKeeps(s, run[0]);
      StepTold(s, run[0]);
      var r := StaysStored(s, run[0], p);
      ClockMoves(s, run[0], r);
      ClockIsHistory(t, run[1..], r, q);
    }
  }

  /** What is stored stays stored. */
  lemma StaysStored(s: State, step: Step, p: Property) returns (q: Property)
    requires Inv(s) && AllTold(s) && InTime(s, step) && step.now < U32 && p in s.device.props
    ensures q in Next(s, step).device.props && q.key == p.key
  {
    hide Inv, Told, Numbered, Next;
    ToldKey(s, p);
    StepTold(s, step);
    LastStays(s, step, p.key);
    var t := Next(s, step);
    var i :| 0 <= i < |t.device.props| && t.device.props[i].key == p.key;
    q := t.device.props[i];
  }

  lemma LastStays(s: State, step: Step, k: string)
    requires k in s.last
    ensures k in Next(s, step).last
  {
    hide Verify, Send, Ack;
  }
}
