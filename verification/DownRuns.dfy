/** Commands over whole runs of enqueueing, reading, answering and the clock, in any order.

    Every accepted command is in exactly one place, in the order of acceptance: finished, then the
    outstanding one, then the queue.  Every finished command that wants an answer was answered
    exactly once, no other was, and the MCU's own answer was passed on only for a command it had
    been shown and whose time was not up. */
module DownRuns {
  import opened DownCommand
  import opened JsonCommand

  datatype Event =
    | EnqueueRaw(text: string)
    | EnqueueJson(text: string, hasAck: bool)
    | ReadDown
    | ReadJson
    | Result(argv: seq<string>)
    | Error(argv: seq<string>)
    | Acknowledge(argv: seq<string>)
    | Echo(argv: seq<string>)

  /** One step and the tick it sees. */
  datatype Step = Step(event: Event, now: nat)

  /** atoi is foreign: any function. */
  type Atoi = string -> int

  function Next(atoi: Atoi, s: State, step: Step): State {
    match step.event
    case EnqueueRaw(text) => Enqueue(s, Raw, false, text, step.now)
    case EnqueueJson(text, hasAck) => Enqueue(s, Json, hasAck, text, step.now)
    case ReadDown => GetDown(s, step.now)
    case ReadJson => JsonGetDown(s, step.now)
    case Result(argv) => SendResult(s, argv, step.now)
    case Error(argv) => SendError(s, argv, atoi, step.now)
    case Acknowledge(argv) => JsonAck(s, argv, step.now)
    case Echo(argv) => SetEcho(s, argv)
  }

  function Run(atoi: Atoi, steps: seq<Step>): State {
    if steps == [] then INIT else Next(atoi, Run(atoi, steps[..|steps| - 1]), steps[|steps| - 1])
  }

  // ----- where every command is -----

  function InSlot(slot: Slot): seq<Command> {
    match slot case Free => [] case Held(c) => [c]
  }

  /** Those that want an answer, in order. */
  function Wanting(cs: seq<Command>): seq<Command> {
    if cs == [] then []
    else Wanting(cs[..|cs| - 1]) + if cs[|cs| - 1].hasAck then [cs[|cs| - 1]] else []
  }

  function Answered(acks: seq<Ack>): seq<Command> {
    if acks == [] then [] else Answered(acks[..|acks| - 1]) + [acks[|acks| - 1].command]
  }

  ghost predicate Numbered(cs: seq<Command>) {
    forall i :: 0 <= i < |cs| ==> cs[i].number == i
  }

  /** Shown in the order of acceptance, and so each at most once. */
  ghost predicate Increasing(cs: seq<Command>) {
    forall i, j :: 0 <= i < j < |cs| ==> cs[i].number < cs[j].number
  }

  /** A true answer of the MCU was in time and to something it had been shown; a time-out was one. */
  ghost predicate Justified(a: Ack, shown: seq<Command>) {
    match a.answer
    case Reply(_) => Fresh(a.command, a.at, a.limit) && a.command in shown
    case Failure(code) =>
      || (code == TIMED_OUT && !Fresh(a.command, a.at, a.limit))
      || (code == NOT_PARSED && Fresh(a.command, a.at, a.limit) && a.command !in shown)
  }

  /** All that is kept, with the command in the slot counted as shown or not. */
  ghost predicate Kept(s: State) {
    && s.retired + InSlot(s.slot) + s.queue == s.accepted
    && Numbered(s.accepted)
    && |s.queue| <= CAPACITY
    && Answered(s.acks) == Wanting(s.retired)
    && (forall i :: 0 <= i < |s.acks| ==> s.acks[i].command.number < |s.retired|)
    && Increasing(s.shown)
    && (forall i :: 0 <= i < |s.shown| ==> s.shown[i] in s.accepted)
    && (forall i :: 0 <= i < |s.acks| ==> Justified(s.acks[i], s.shown))
  }

  /** Nothing shown lies behind command n. */
  ghost predicate ShownBefore(s: State, n: nat) {
    forall i :: 0 <= i < |s.shown| ==> s.shown[i].number < n
  }

  /** Between calls the outstanding command wants an answer, and was the last to be shown. */
  ghost predicate Inv(s: State) {
    && Kept(s)
    && ShownBefore(s, |s.retired| + |InSlot(s.slot)|)
    && (s.slot.Held? ==> s.slot.command.hasAck && s.slot.command in s.shown)
  }

  /** In the middle of a call: a command in the slot has not been shown yet. */
  ghost predicate Mid(s: State) {
    Kept(s) && ShownBefore(s, |s.retired|)
  }

  lemma SlotNumber(s: State)
    requires s.retired + InSlot(s.slot) + s.queue == s.accepted && Numbered(s.accepted) && s.slot.Held?
    ensures s.slot.command.number == |s.retired| && s.slot.command in s.accepted
  {
    assert s.accepted[|s.retired|] == s.slot.command;
  }

  lemma FinishKeeps(s: State, answer: Answer, now: nat)
    requires Kept(s) && s.slot.Held?
    requires Justified(Ack(s.slot.command, answer, now, s.limit), s.shown)
    ensures var t := Finish(s, answer, now);
      Kept(t) && t.slot.Free? && t.shown == s.shown && |t.retired| == |s.retired| + 1
  {
    hide Increasing, Justified, Numbered;
    var c := s.slot.command;
    SlotNumber(s);
    var t := Finish(s, answer, now);
    assert s.retired + [c] + s.queue == t.retired + [] + t.queue;
    assert t.retired[..|s.retired|] == s.retired;
    if c.hasAck {
      assert t.acks[..|s.acks|] == s.acks;
    }
  }

  lemma MoveUp(s: State)
    requires Mid(s) && s.slot.Free? && s.queue != []
    ensures Mid(s.(slot := Held(s.queue[0]), queue := s.queue[1..]))
  {
    hide Increasing, Justified, Numbered, Wanting, Answered;
    var t := s.(slot := Held(s.queue[0]), queue := s.queue[1..]);
    assert s.retired + [] + s.queue == t.retired + [s.queue[0]] + t.queue;
  }

  lemma UnshownSlot(s: State)
    requires Mid(s) && s.slot.Held?
    ensures s.slot.command !in s.shown
  {
    SlotNumber(s);
  }

  /** The dequeuing loop keeps everything, and leaves in the slot only a fresh command. */
  lemma {:induction false} DequeueKeeps(s: State, now: nat)
    requires Mid(s) && s.slot.Free?
    ensures var t := Dequeue(s, now);
      Mid(t) && t.limit == s.limit && (t.slot.Held? ==> Fresh(t.slot.command, now, t.limit))
    decreases |s.queue|
  {
    hide Kept, Finish, Fresh;
    if s.queue != [] {
      var t := s.(slot := Held(s.queue[0]), queue := s.queue[1..]);
      MoveUp(s);
      if !Fresh(s.queue[0], now, s.limit) {
        FinishKeeps(t, Failure(TIMED_OUT), now);
        FinishLimit(t, Failure(TIMED_OUT), now);
        DequeueKeeps(Finish(t, Failure(TIMED_OUT), now), now);
      }
    }
  }

  lemma FinishLimit(s: State, answer: Answer, now: nat)
    requires s.slot.Held?
    ensures var t := Finish(s, answer, now);
      t.limit == s.limit && t.queue == s.queue
  {
  }

  lemma SayKeeps(s: State, line: string)
    ensures Inv(s) ==> Inv(Say(s, line))
    ensures Mid(s) ==> Mid(Say(s, line))
  {
    hide Increasing, Justified, Numbered, Wanting, Answered;
  }

  /** Showing a command does not touch the reasons of earlier answers. */
  lemma StillJustified(s: State, c: Command)
    requires forall i :: 0 <= i < |s.acks| ==> Justified(s.acks[i], s.shown) && s.acks[i].command.number < c.number
    ensures forall i :: 0 <= i < |s.acks| ==> Justified(s.acks[i], s.shown + [c])
  {
  }

  lemma ShowKeeps(s: State, line: string)
    requires Mid(s) && s.slot.Held?
    ensures Inv(Show(s, line))
  {
    hide Justified, Numbered;
    var c := s.slot.command;
    SlotNumber(s);
    StillJustified(s, c);
    var t := Show(s, line);
    assert t.shown[|s.shown|] == c;
    assert forall i :: 0 <= i < |s.shown| ==> t.shown[i] == s.shown[i];
    if !c.hasAck {
      assert s.retired + [c] + s.queue == t.retired + [] + t.queue;
      assert t.retired[..|s.retired|] == s.retired;
    }
  }

  lemma FreeIsMid(s: State)
    requires s.slot.Free?
    ensures Inv(s) <==> Mid(s)
  {
    hide Kept;
  }

  lemma GiveUpKeeps(s: State, now: nat)
    requires Inv(s)
    ensures Inv(GiveUp(s, now))
  {
    hide Increasing, Numbered, Wanting, Answered, Finish;
    if s.slot.Held? && !Fresh(s.slot.command, now, s.limit) {
      FinishKeeps(s, Failure(TIMED_OUT), now);
    }
  }

  lemma ReadDownKeeps(s: State, now: nat)
    requires Inv(s)
    ensures Inv(GetDown(s, now))
  {
    hide Inv, Mid, GiveUp, Dequeue, Show, Fresh, Kept, Finish, Say;
    GiveUpKeeps(s, now);
    var t := GiveUp(s, now);
    SayKeeps(t, "error");
    SayIsSame(t, "error");
    if t.slot.Free? {
      FreeIsMid(t);
      DequeueKeeps(t, now);
      var u := Dequeue(t, now);
      if u.slot.Free? {
        FreeIsMid(u);
        SayKeeps(u, "down none");
      } else if u.slot.command.kind.Raw? {
        ShowKeeps(u, "down " + u.slot.command.text);
      } else {
        var split := SplitOf(u.slot.command.text);
        if split.NoMethod? || split.name == "" {
          UnparsedKeeps(u, now);
        } else {
          ShowKeeps(u, DownLine(split));
        }
      }
    }
  }

  lemma SayIsSame(s: State, line: string)
    ensures Say(s, line).slot == s.slot
  {
  }

  lemma UnparsedKeeps(u: State, now: nat)
    requires Mid(u) && u.slot.Held? && Fresh(u.slot.command, now, u.limit)
    ensures Inv(Say(Finish(u, Failure(NOT_PARSED), now), "down none"))
  {
    hide Kept, Fresh, Finish;
    UnshownSlot(u);
    FinishKeeps(u, Failure(NOT_PARSED), now);
    var v := Finish(u, Failure(NOT_PARSED), now);
    FreeIsMid(v);
    SayKeeps(v, "down none");
  }

  lemma ReadJsonKeeps(s: State, now: nat)
    requires Inv(s)
    ensures Inv(JsonGetDown(s, now))
  {
    hide Inv, Mid, GiveUp, Dequeue, Show, Fresh, Kept, Say;
    GiveUpKeeps(s, now);
    var t := GiveUp(s, now);
    SayKeeps(t, "error");
    if t.slot.Free? {
      FreeIsMid(t);
      DequeueKeeps(t, now);
      var u := Dequeue(t, now);
      if u.slot.Free? {
        FreeIsMid(u);
        SayKeeps(u, "json_down none");
      } else {
        ShowKeeps(u, "json_down " + u.slot.command.text);
      }
    }
  }

  lemma AnswerKeeps(s: State, text: string, now: nat)
    requires Inv(s)
    ensures Inv(DownCommand.Answered(s, text, now))
  {
    hide Increasing, Numbered, Wanting, Finish, Say;
    if s.slot.Free? {
      SayKeeps(s, "error");
    } else if !Fresh(s.slot.command, now, s.limit) {
      FinishKeeps(s, Failure(TIMED_OUT), now);
      SayKeeps(Finish(s, Failure(TIMED_OUT), now), "error");
    } else {
      FinishKeeps(s, Reply(text), now);
      SayKeeps(Finish(s, Reply(text), now), "ok");
    }
  }

  lemma EnqueueKeeps(s: State, kind: Kind, hasAck: bool, text: string, now: nat)
    requires Inv(s)
    ensures Inv(Enqueue(s, kind, hasAck, text, now))
  {
    hide Increasing, Justified, Wanting, Answered;
    if |s.queue| < CAPACITY {
      var c := Command(|s.accepted|, kind, now, hasAck, text);
      assert s.retired + InSlot(s.slot) + (s.queue + [c]) == s.accepted + [c];
    }
  }

  /** Every step of every run keeps the invariant. */
  lemma StepKeeps(atoi: Atoi, s: State, step: Step)
    requires Inv(s)
    ensures Inv(Next(atoi, s, step))
  {
    hide Inv;
    match step.event
    case EnqueueRaw(text) => EnqueueKeeps(s, Raw, false, text, step.now);
    case EnqueueJson(text, hasAck) => EnqueueKeeps(s, Json, hasAck, text, step.now);
    case ReadDown => ReadDownKeeps(s, step.now);
    case ReadJson => ReadJsonKeeps(s, step.now);
    case Result(argv) =>
      SayKeeps(s, "error");
      if |argv| >= 2 {
        AnswerKeeps(s, ResultText(argv[1..]), step.now);
      }
    case Error(argv) =>
      SayKeeps(s, "error");
      if |argv| >= 2 {
        AnswerKeeps(s, ErrorText(UserCode(if |argv| >= 3 then atoi(argv[2]) else USER_MIN), argv[1]), step.now);
      }
    case Acknowledge(argv) =>
      SayKeeps(s, "error");
      if |argv| >= 2 {
        AnswerKeeps(s, argv[1], step.now);
      }
    case Echo(argv) => EchoKeeps(s, argv);
  }

  lemma EchoKeeps(s: State, argv: seq<string>)
    requires Inv(s)
    ensures Inv(SetEcho(s, argv))
  {
    hide Increasing, Justified, Numbered, Wanting, Answered;
  }

  lemma {:induction false} AlwaysKept(atoi: Atoi, steps: seq<Step>)
    ensures Inv(Run(atoi, steps))
    decreases |steps|
  {
    hide Next;
    if steps == [] {
      assert Wanting([]) == [];
    } else {
      hide Inv;
      AlwaysKept(atoi, steps[..|steps| - 1]);
      StepKeeps(atoi, Run(atoi, steps[..|steps| - 1]), steps[|steps| - 1]);
    }
  }

  // ----- what that means for one command -----

  function CallsFor(acks: seq<Ack>, n: nat): nat {
    if acks == [] then 0
    else CallsFor(acks[..|acks| - 1], n) + if acks[|acks| - 1].command.number == n then 1 else 0
  }

  function TimesIn(cs: seq<Command>, n: nat): nat {
    if cs == [] then 0 else TimesIn(cs[..|cs| - 1], n) + if cs[|cs| - 1].number == n then 1 else 0
  }

  lemma {:induction false} CallsAreTimes(acks: seq<Ack>, n: nat)
    ensures CallsFor(acks, n) == TimesIn(Answered(acks), n)
    decreases |acks|
  {
    if acks != [] {
      CallsAreTimes(acks[..|acks| - 1], n);
      var a := Answered(acks);
      assert a[..|a| - 1] == Answered(acks[..|acks| - 1]);
    }
  }

  lemma TimesAppend(cs: seq<Command>, c: Command, n: nat)
    ensures TimesIn(cs + [c], n) == TimesIn(cs, n) + if c.number == n then 1 else 0
  {
    assert (cs + [c])[..|cs|] == cs;
  }

  lemma {:induction false} WantedOnce(cs: seq<Command>, n: nat)
    requires Numbered(cs)
    ensures TimesIn(Wanting(cs), n) == if n < |cs| && cs[n].hasAck then 1 else 0
    decreases |cs|
  {
    hide TimesIn;
    if cs == [] {
      NoTimes(n);
    } else {
      var k := |cs| - 1;
      WantedOnce(cs[..k], n);
      var was := Wanting(cs[..k]);
      if cs[k].hasAck {
        TimesAppend(was, cs[k], n);
      } else {
        assert was + [] == was;
      }
    }
  }

  lemma NoTimes(n: nat)
    ensures TimesIn([], n) == 0
  {
  }

  /** The fate of the n-th accepted command, at any point of any run: it is finished, outstanding
      or queued, by its number alone; and its acknowledgement has been called once if it wants one
      and is finished, and otherwise not at all. */
  lemma FateOfEach(atoi: Atoi, steps: seq<Step>, n: nat)
    ensures var s := Run(atoi, steps);
      && |s.queue| <= CAPACITY
      && (s.slot.Held? ==> s.slot.command.hasAck && s.slot.command in s.shown)
      && (n < |s.accepted| ==>
        var c := s.accepted[n];
        && c.number == n
        && (n < |s.retired| ==> s.retired[n] == c)
        && (n == |s.retired| && s.slot.Held? ==> s.slot.command == c)
        && (n >= |s.retired| + |InSlot(s.slot)| ==>
          var k := n - |s.retired| - |InSlot(s.slot)|;
          k < |s.queue| && s.queue[k] == c)
        && CallsFor(s.acks, n) == if n < |s.retired| && c.hasAck then 1 else 0)
  {
    hide Next, Run, Increasing, Justified, Wanting, Answered, CallsFor, TimesIn;
    AlwaysKept(atoi, steps);
    var s := Run(atoi, steps);
    if n < |s.accepted| {
      assert s.accepted == s.retired + (InSlot(s.slot) + s.queue);
      assert forall i :: 0 <= i < |s.retired| ==> s.retired[i] == s.accepted[i];
      CallsAreTimes(s.acks, n);
      WantedOnce(s.retired, n);
    }
  }

  /** Whatever is passed on from the MCU was asked of it, and in time; whatever is timed out was
      late; whatever could not be read was never shown. */
  lemma AnswersAreJustified(atoi: Atoi, steps: seq<Step>, i: nat)
    requires i < |Run(atoi, steps).acks|
    ensures Justified(Run(atoi, steps).acks[i], Run(atoi, steps).shown)
  {
    hide Next, Run, Increasing, Wanting, Answered;
    AlwaysKept(atoi, steps);
  }

  /** The MCU sees commands in the order of acceptance, each at most once. */
  lemma ShownInOrder(atoi: Atoi, steps: seq<Step>)
    ensures Increasing(Run(atoi, steps).shown)
  {
    hide Next, Run, Wanting, Answered, Justified;
    AlwaysKept(atoi, steps);
  }
}
