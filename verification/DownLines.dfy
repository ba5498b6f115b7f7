/** What an observer of the serial line sees of each step, told by the words of the event: which text
    is passed to the cloud, which line goes to the MCU, and which commands are given up.  Every text,
    limit and code is written out. */
module DownLines {
  import opened DecimalText
  import opened DownCommand
  import opened DownRuns
  import opened JsonCommand
  import UpLink
  import UpLinkCheck

  datatype Option<T> = None | Some(value: T)

  /** Less than `limit` milliseconds of the 32-bit counter have passed since the command came. */
  predicate InTime(c: Command, now: nat, limit: nat) {
    (now - c.time) % 0x1_0000_0000 < limit
  }

  lemma FreshIs(c: Command, now: nat, limit: nat)
    requires now < UpLink.U32
    ensures Fresh(c, now, limit) <==> InTime(c, now, limit)
  {
    UpLinkCheck.CooledIs(c.time, now);
  }

  // ----- the time limit -----

  /** A minute after the last `set_echo on`, a second after the last `off` and at the start. */
  function Limit(steps: seq<Step>): nat {
    if steps == [] then 1000
    else
      match steps[|steps| - 1].event
      case Echo(argv) =>
        if |argv| >= 2 && argv[1] == "on" then 60000
        else if |argv| >= 2 && argv[1] == "off" then 1000
        else Limit(steps[..|steps| - 1])
      case _ => Limit(steps[..|steps| - 1])
  }

  lemma {:induction false} DequeueKeepsLimit(s: State, now: nat)
    requires s.slot.Free?
    ensures Dequeue(s, now).limit == s.limit
    decreases |s.queue|
  {
    hide Fresh;
    if s.queue != [] {
      var t := s.(slot := Held(s.queue[0]), queue := s.queue[1..]);
      DequeueKeepsLimit(Finish(t, Failure(TIMED_OUT), now), now);
    }
  }

  lemma StepLimit(atoi: Atoi, s: State, step: Step)
    requires !step.event.Echo?
    ensures Next(atoi, s, step).limit == s.limit
  {
    hide Fresh, SplitOf, ResultText, ErrorText;
    if step.event.ReadDown? || step.event.ReadJson? {
      var t := GiveUp(s, step.now);
      if t.slot.Free? {
        DequeueKeepsLimit(t, step.now);
      }
    }
  }

  lemma {:induction false} LimitIs(atoi: Atoi, steps: seq<Step>)
    ensures Run(atoi, steps).limit == Limit(steps)
    decreases |steps|
  {
    if steps != [] {
      var step := steps[|steps| - 1];
      LimitIs(atoi, steps[..|steps| - 1]);
      if !step.event.Echo? {
        StepLimit(atoi, Run(atoi, steps[..|steps| - 1]), step);
      }
    }
  }

  // ----- what is passed to the cloud -----

  function Commas(words: seq<string>): string {
    if words == [] then "" else if |words| == 1 then words[0] else words[0] + "," + Commas(words[1..])
  }

  lemma {:induction false} CommasLast(words: seq<string>)
    requires |words| > 1
    ensures Commas(words) == Commas(words[..|words| - 1]) + "," + words[|words| - 1]
  {
    var n := |words| - 1;
    if n == 1 {
      assert words[1..] == [words[1]] && words[..1] == [words[0]];
    } else {
      CommasLast(words[1..]);
      assert words[1..][..n - 1] == words[..n][1..];
      assert words[0] + "," + (Commas(words[1..][..n - 1]) + "," + words[n])
        == (words[0] + "," + Commas(words[..n][1..])) + "," + words[n];
    }
  }

  lemma {:induction false} JoinedIs(words: seq<string>)
    ensures Joined(words) == Commas(words)
  {
    if |words| > 1 {
      JoinedIs(words[..|words| - 1]);
      CommasLast(words);
    }
  }

  /** What a buffer of 1024 characters holds of a text. */
  function InBuffer(text: string): string { if |text| <= 1023 then text else text[..1023] }

  /** The text that an answer of the MCU stands for, if it is one. */
  function Meant(atoi: Atoi, event: Event): Option<string> {
    match event
    case Acknowledge(argv) => if |argv| >= 2 then Some(argv[1]) else None
    case Result(argv) =>
      if |argv| >= 2 then Some(InBuffer("{\"result\":[" + Commas(argv[1..]) + "]}")) else None
    case Error(argv) =>
      if |argv| < 2 then None
      else
        var code := if |argv| >= 3 && -10000 <= atoi(argv[2]) <= -5000 then atoi(argv[2]) else -10000;
        Some(InBuffer("{\"error\":{\"code\":" + Decimal(code) + ",\"message\":" + argv[1] + "}}"))
    case _ => None
  }

  predicate Answers(event: Event) { event.Acknowledge? || event.Result? || event.Error? }

  /** What an answer does, whichever of the three it is: the outstanding command hears the text if it
      is in time, and that it timed out if not; in both cases it is done with. */
  lemma AnswerDoes(atoi: Atoi, s: State, step: Step)
    requires Answers(step.event) && step.now < UpLink.U32 && (s.slot.Held? ==> s.slot.command.hasAck)
    ensures var t, m := Next(atoi, s, step), Meant(atoi, step.event);
      if m.None? || s.slot.Free? then t == s.(sent := s.sent + ["error"])
      else
        var c := s.slot.command;
        var ok := InTime(c, step.now, s.limit);
        t == s.(slot := Free, retired := s.retired + [c], sent := s.sent + [if ok then "ok" else "error"],
                acks := s.acks + [Ack(c, if ok then Reply(m.value) else Failure(-9999), step.now, s.limit)])
  {
    hide Joined, Commas;
    if s.slot.Held? {
      FreshIs(s.slot.command, step.now, s.limit);
    }
    match step.event
    case Result(argv) =>
      if |argv| >= 2 {
        JoinedIs(argv[1..]);
      }
    case _ =>
  }

  // ----- what is shown to the MCU -----

  /** These commands are given up, each told so if it wants to be. */
  function TimeOuts(cs: seq<Command>, now: nat, limit: nat): seq<Ack> {
    if cs == [] then []
    else
      (if cs[0].hasAck then [Ack(cs[0], Failure(-9999), now, limit)] else []) + TimeOuts(cs[1..], now, limit)
  }

  /** The first k in the queue are late, and the next one, if any, is not. */
  ghost predicate LateUpTo(s: State, k: nat, now: nat) {
    && k <= |s.queue|
    && (forall i :: 0 <= i < k ==> !InTime(s.queue[i], now, s.limit))
    && (k < |s.queue| ==> InTime(s.queue[k], now, s.limit))
  }

  /** The first k of the queue are gone. */
  function Without(s: State, k: nat, now: nat): State
    requires k <= |s.queue|
  {
    s.(slot := Free, queue := s.queue[k..], retired := s.retired + s.queue[..k],
       acks := s.acks + TimeOuts(s.queue[..k], now, s.limit))
  }

  /** The next one is taken out of the queue. */
  function Taken(s: State): State {
    if s.queue == [] then s else s.(slot := Held(s.queue[0]), queue := s.queue[1..])
  }

  lemma {:induction false} DequeueDoes(s: State, now: nat) returns (k: nat)
    requires s.slot.Free? && now < UpLink.U32
    ensures LateUpTo(s, k, now) && Dequeue(s, now) == Taken(Without(s, k, now))
    decreases |s.queue|
  {
    hide InTime, Fresh;
    k := 0;
    if s.queue == [] {
      assert s.retired + s.queue[..0] == s.retired && s.queue[0..] == s.queue;
      assert s.acks + TimeOuts(s.queue[..0], now, s.limit) == s.acks;
    } else {
      var c := s.queue[0];
      FreshIs(c, now, s.limit);
      if InTime(c, now, s.limit) {
        assert s.retired + s.queue[..0] == s.retired && s.queue[0..] == s.queue;
        assert s.acks + TimeOuts(s.queue[..0], now, s.limit) == s.acks;
      } else {
        var t := Finish(s.(slot := Held(c), queue := s.queue[1..]), Failure(TIMED_OUT), now);
        var j := DequeueDoes(t, now);
        k := j + 1;
        OneLate(s, t, j, now);
      }
    }
  }

  lemma OneLate(s: State, t: State, j: nat, now: nat)
    requires s.slot.Free? && s.queue != [] && !InTime(s.queue[0], now, s.limit)
    requires t == Finish(s.(slot := Held(s.queue[0]), queue := s.queue[1..]), Failure(TIMED_OUT), now)
    requires LateUpTo(t, j, now)
    ensures LateUpTo(s, j + 1, now) && Without(t, j, now) == Without(s, j + 1, now)
  {
    hide InTime;
    var c := s.queue[0];
    forall i | 0 <= i < j + 1
      ensures !InTime(s.queue[i], now, s.limit)
    {
      if i > 0 {
        assert !InTime(t.queue[i - 1], now, t.limit);
      }
    }
    assert s.queue[..j + 1] == [c] + t.queue[..j];
    var mine: seq<Ack> := if c.hasAck then [Ack(c, Failure(-9999), now, s.limit)] else [];
    assert TimeOuts([c] + t.queue[..j], now, s.limit) == mine + TimeOuts(t.queue[..j], now, s.limit) by {
      assert ([c] + t.queue[..j])[1..] == t.queue[..j];
    }
    assert s.acks + (mine + TimeOuts(t.queue[..j], now, s.limit))
      == (s.acks + mine) + TimeOuts(t.queue[..j], now, s.limit);
    assert s.acks + [] == s.acks;
    assert s.retired + ([c] + t.queue[..j]) == (s.retired + [c]) + t.queue[..j];
  }

  /** The line a command is shown by: by `json_get_down` its text, by `get_down` a raw command's text
      or a JSON command's method and, behind a space, its parameters if there are any. */
  function Line(c: Command, json: bool): Option<string> {
    if json then Some("json_down " + c.text)
    else if c.kind.Raw? then Some("down " + c.text)
    else
      var split := SplitOf(c.text);
      if split.NoMethod? || split.name == "" then None
      else Some("down " + split.name + if split.params == "" then "" else " " + split.params)
  }

  function Nothing(json: bool): string { if json then "json_down none" else "down none" }

  /** The outstanding command, if its time is up, and what waits. */
  function Expired(s: State, now: nat): State {
    match s.slot
    case Free => s
    case Held(c) =>
      s.(slot := Free, retired := s.retired + [c], acks := s.acks + TimeOuts([c], now, s.limit))
  }

  /** What is left once everything late is gone: u's slot holds the first command in time, or nothing. */
  ghost predicate Cleared(s: State, u: State, now: nat) {
    exists k: nat :: LateUpTo(s, k, now) && u == Taken(Without(Expired(s, now), k, now))
  }

  /** What reading does: while a command is outstanding in time, an error; else the late ones are given
      up in order and the first in time is shown by its line, and is done with at once unless it wants
      an answer; one without a readable method is refused unseen. */
  lemma ReadDoes(atoi: Atoi, s: State, step: Step) returns (u: State)
    requires (step.event.ReadDown? || step.event.ReadJson?) && step.now < UpLink.U32
    ensures var t, json := Next(atoi, s, step), step.event.ReadJson?;
      if s.slot.Held? && InTime(s.slot.command, step.now, s.limit) then t == s.(sent := s.sent + ["error"])
      else
        && Cleared(s, u, step.now)
        && if u.slot.Free? then t == u.(sent := u.sent + [Nothing(json)])
           else
             var c := u.slot.command;
             match Line(c, json)
             case Some(line) =>
               t == u.(sent := u.sent + [line], shown := u.shown + [c],
                       slot := if c.hasAck then Held(c) else Free,
                       retired := if c.hasAck then u.retired else u.retired + [c])
             case None =>
               t == u.(sent := u.sent + [Nothing(json)], slot := Free, retired := u.retired + [c],
                       acks := if c.hasAck then u.acks + [Ack(c, Failure(-32700), step.now, u.limit)] else u.acks)
  {
    hide InTime, Fresh, SplitOf, Dequeue, LateUpTo, Without, Taken;
    u := s;
    if s.slot.Held? {
      FreshIs(s.slot.command, step.now, s.limit);
      OneTimeOut(s.slot.command, step.now, s.limit);
    }
    if s.slot.Free? || !InTime(s.slot.command, step.now, s.limit) {
      var t := GiveUp(s, step.now);
      assert s.acks + [] == s.acks;
      assert t == Expired(s, step.now);
      var k := DequeueDoes(t, step.now);
      SameQueue(s, t, k, step.now);
      u := Dequeue(t, step.now);
      LineIs(u, step.event.ReadJson?);
    }
  }

  lemma OneTimeOut(c: Command, now: nat, limit: nat)
    ensures TimeOuts([c], now, limit) == if c.hasAck then [Ack(c, Failure(-9999), now, limit)] else []
  {
    assert [c][1..] == [];
  }

  lemma SameQueue(s: State, t: State, k: nat, now: nat)
    requires t.queue == s.queue && t.limit == s.limit && LateUpTo(t, k, now)
    ensures LateUpTo(s, k, now)
  {
  }

  lemma LineIs(u: State, json: bool)
    ensures u.slot.Held? && u.slot.command.kind.Json? && !json ==>
      var split, line := SplitOf(u.slot.command.text), Line(u.slot.command, json);
      if split.NoMethod? || split.name == "" then line == None else line == Some(DownLine(split))
  {
    hide SplitOf;
    if u.slot.Free? {
      return;
    }
    var split := SplitOf(u.slot.command.text);
    if split.Split? {
      assert "down " + split.name + "" == "down " + split.name;
      assert "down " + split.name + " " + split.params == "down " + split.name + (" " + split.params);
    }
  }

  /** What arrives: a command with this text, of this kind and at this time, at the end of the queue;
      but with eight waiting nothing changes. */
  lemma ArrivalDoes(atoi: Atoi, s: State, step: Step)
    requires step.event.EnqueueRaw? || step.event.EnqueueJson?
    ensures var t := Next(atoi, s, step);
      if |s.queue| >= 8 then t == s
      else
        var c := if step.event.EnqueueRaw? then Command(|s.accepted|, Raw, step.now, false, step.event.text)
                 else Command(|s.accepted|, Json, step.now, step.event.hasAck, step.event.text);
        t == s.(queue := s.queue + [c], accepted := s.accepted + [c])
  {
  }

  // ----- over whole runs -----

  ghost predicate Adds(s: State, t: State, text: string) {
    |s.acks| <= |t.acks| && exists a :: a in t.acks[|s.acks|..] && a.answer == Reply(text)
  }

  lemma {:induction false} TimeOutsFail(cs: seq<Command>, now: nat, limit: nat)
    ensures forall a :: a in TimeOuts(cs, now, limit) ==> a.answer == Failure(-9999)
  {
    if cs != [] {
      TimeOutsFail(cs[1..], now, limit);
    }
  }

  /** Of the acks behind the first n none is a reply. */
  ghost predicate NoReply(acks: seq<Ack>, n: nat) {
    n <= |acks| && forall i :: n <= i < |acks| ==> acks[i].answer.Failure?
  }

  lemma ClearedAcks(s: State, u: State, now: nat)
    requires Cleared(s, u, now)
    ensures NoReply(u.acks, |s.acks|)
  {
    hide InTime, TimeOuts;
    var k: nat :| LateUpTo(s, k, now) && u == Taken(Without(Expired(s, now), k, now));
    TimeOutsFail(if s.slot.Held? then [s.slot.command] else [], now, s.limit);
    TimeOutsFail(s.queue[..k], now, s.limit);
  }

  lemma ReadAddsNone(atoi: Atoi, s: State, step: Step, text: string)
    requires (step.event.ReadDown? || step.event.ReadJson?) && step.now < UpLink.U32
    ensures !Adds(s, Next(atoi, s, step), text)
  {
    hide InTime, Line, Next, Cleared;
    var u := ReadDoes(atoi, s, step);
    if s.slot.Free? || !InTime(s.slot.command, step.now, s.limit) {
      ClearedAcks(s, u, step.now);
    }
    assert NoReply(Next(atoi, s, step).acks, |s.acks|);
  }

  /** In every run a step passes a text to the cloud exactly when it is one of the three answers, the
      text is the one its words mean, and a command is outstanding whose time is not up; it is that
      command which hears it. */
  lemma PassedOn(atoi: Atoi, steps: seq<Step>, step: Step, text: string)
    requires step.now < UpLink.U32
    ensures var s := Run(atoi, steps);
      var t := Next(atoi, s, step);
      && (Adds(s, t, text) <==>
           Meant(atoi, step.event) == Some(text) && s.slot.Held? && InTime(s.slot.command, step.now, Limit(steps)))
      && (Adds(s, t, text) ==> t.acks == s.acks + [Ack(s.slot.command, Reply(text), step.now, Limit(steps))])
  {
    hide InTime, Run, Next, Meant;
    var s := Run(atoi, steps);
    var t := Next(atoi, s, step);
    LimitIs(atoi, steps);
    FateOfEach(atoi, steps, 0);
    OnlyAnswersMean(atoi, step.event);
    if Answers(step.event) {
      AnswerDoes(atoi, s, step);
      if Meant(atoi, step.event).Some? && s.slot.Held? {
        assert t.acks[|s.acks|..] == [t.acks[|s.acks|]];
      } else {
        assert t.acks[|s.acks|..] == [];
      }
    } else if step.event.ReadDown? || step.event.ReadJson? {
      ReadAddsNone(atoi, s, step, text);
    } else {
      OthersAddNone(atoi, s, step);
      assert t.acks[|s.acks|..] == [];
    }
  }

  lemma OnlyAnswersMean(atoi: Atoi, event: Event)
    ensures Meant(atoi, event).Some? ==> Answers(event)
  {
  }

  lemma OthersAddNone(atoi: Atoi, s: State, step: Step)
    requires step.event.EnqueueRaw? || step.event.EnqueueJson? || step.event.Echo?
    ensures Next(atoi, s, step).acks == s.acks
  {
  }
}
