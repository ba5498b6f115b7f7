/** The life of a command from the cloud to the MCU and back: the bounded queue of
    miio_down_manager.c and the one outstanding command of miio_command.c.

    A command is known by its number among all accepted ones.  Beside what the program keeps, the
    state records what an observer sees: which commands were accepted, shown to the MCU and
    finished, and every call of an acknowledgement with its time and the time limit then in force. */
module DownCommand {
  import opened CText
  import opened DecimalText
  import opened JsonCommand
  import UpLink

  const CAPACITY := 8
  const TIMED_OUT := -9999
  const NOT_PARSED := -32700
  const USER_MIN := -10000
  const USER_MAX := -5000
  const ROOM := 1024
  const COMMA: string := ","

  datatype Kind = Json | Raw

  datatype Command = Command(number: nat, kind: Kind, time: nat, hasAck: bool, text: string)

  datatype Answer = Reply(text: string) | Failure(code: int)

  /** One call of a command's acknowledgement. */
  datatype Ack = Ack(command: Command, answer: Answer, at: nat, limit: nat)

  datatype Slot = Free | Held(command: Command)

  datatype State = State(
    queue: seq<Command>, slot: Slot, limit: nat, acks: seq<Ack>, sent: seq<string>,
    accepted: seq<Command>, shown: seq<Command>, retired: seq<Command>)

  const INIT := State([], Free, 1000, [], [], [], [], [])

  predicate Fresh(c: Command, now: nat, limit: nat) {
    UpLink.Elapsed(c.time, now) < limit
  }

  function Say(s: State, line: string): State {
    s.(sent := s.sent + [line])
  }

  /** The outstanding command is done with, and told so if it wants to be. */
  function Finish(s: State, answer: Answer, now: nat): State
    requires s.slot.Held?
  {
    var c := s.slot.command;
    s.(slot := Free, retired := s.retired + [c],
       acks := if c.hasAck then s.acks + [Ack(c, answer, now, s.limit)] else s.acks)
  }

  /** Commands leave the queue until one is fresh enough. */
  function Dequeue(s: State, now: nat): (r: State)
    requires s.slot.Free?
    decreases |s.queue|
  {
    if s.queue == [] then s
    else
      var t := s.(slot := Held(s.queue[0]), queue := s.queue[1..]);
      if Fresh(s.queue[0], now, s.limit) then t else Dequeue(Finish(t, Failure(TIMED_OUT), now), now)
  }

  /** An outstanding command whose time is up makes way. */
  function GiveUp(s: State, now: nat): State {
    if s.slot.Held? && !Fresh(s.slot.command, now, s.limit) then Finish(s, Failure(TIMED_OUT), now) else s
  }

  /** The command in the slot is shown; one that wants no answer is done with. */
  function Show(s: State, line: string): State
    requires s.slot.Held?
  {
    var c := s.slot.command;
    var t := Say(s, line).(shown := s.shown + [c]);
    if c.hasAck then t else t.(slot := Free, retired := s.retired + [c])
  }

  function DownLine(split: Split): string
    requires split.Split?
  {
    if split.params == "" then "down " + split.name else "down " + split.name + " " + split.params
  }

  function GetDown(s: State, now: nat): State {
    var t := GiveUp(s, now);
    if t.slot.Held? then Say(t, "error")
    else
      var u := Dequeue(t, now);
      if u.slot.Free? then Say(u, "down none")
      else if u.slot.command.kind.Raw? then Show(u, "down " + u.slot.command.text)
      else
        var split := SplitOf(u.slot.command.text);
        if split.NoMethod? || split.name == "" then Say(Finish(u, Failure(NOT_PARSED), now), "down none")
        else Show(u, DownLine(split))
  }

  function JsonGetDown(s: State, now: nat): State {
    var t := GiveUp(s, now);
    if t.slot.Held? then Say(t, "error")
    else
      var u := Dequeue(t, now);
      if u.slot.Free? then Say(u, "json_down none") else Show(u, "json_down " + u.slot.command.text)
  }

  /** An answer of the MCU: passed on if there is a command to answer and its time is not up. */
  function Answered(s: State, text: string, now: nat): State {
    if s.slot.Free? then Say(s, "error")
    else if !Fresh(s.slot.command, now, s.limit) then Say(Finish(s, Failure(TIMED_OUT), now), "error")
    else Say(Finish(s, Reply(text), now), "ok")
  }

  function Cut(text: string): string {
    if |text| < ROOM then text else text[..ROOM - 1]
  }

  function Joined(args: seq<string>): string {
    if args == [] then ""
    else if |args| == 1 then args[0]
    else Joined(args[..|args| - 1]) + COMMA + args[|args| - 1]
  }

  function ResultText(args: seq<string>): string {
    Cut("{\"result\":[" + Joined(args) + "]}")
  }

  function ErrorText(code: int, message: string): string {
    Cut("{\"error\":{\"code\":" + Decimal(code) + ",\"message\":" + message + "}}")
  }

  /** Codes outside the range for users are replaced. */
  function UserCode(code: int): (r: int)
    ensures USER_MIN <= r <= USER_MAX
    ensures USER_MIN <= code <= USER_MAX ==> r == code
  {
    if code > USER_MAX || code < USER_MIN then USER_MIN else code
  }

  function SendResult(s: State, argv: seq<string>, now: nat): State {
    if |argv| < 2 then Say(s, "error") else Answered(s, ResultText(argv[1..]), now)
  }

  function SendError(s: State, argv: seq<string>, atoi: string -> int, now: nat): State {
    if s.slot.Free? || |argv| < 2 then Say(s, "error")
    else Answered(s, ErrorText(UserCode(if |argv| >= 3 then atoi(argv[2]) else USER_MIN), argv[1]), now)
  }

  function JsonAck(s: State, argv: seq<string>, now: nat): State {
    if s.slot.Free? || |argv| < 2 then Say(s, "error") else Answered(s, argv[1], now)
  }

  function Enqueue(s: State, kind: Kind, hasAck: bool, text: string, now: nat): State {
    if |s.queue| >= CAPACITY then s
    else
      var c := Command(|s.accepted|, kind, now, hasAck, text);
      s.(queue := s.queue + [c], accepted := s.accepted + [c])
  }

  function SetEcho(s: State, argv: seq<string>): State {
    if |argv| < 2 then Say(s, "error")
    else if argv[1] == "on" then Say(s, "ok").(limit := 60000)
    else if argv[1] == "off" then Say(s, "ok").(limit := 1000)
    else Say(s, "error")
  }

  /** json2cmd on the command's own buffer, and the two C strings read from it. */
  method SplitText(json: string) returns (split: Split)
    ensures split == SplitOf(json)
  {
    hide SplitOf, Reads;
    var n := |json|;
    var buf := new char[n + 1](i requires 0 <= i <= n => At(json, i));
    assert buf[..n] == json;
    var ok, name, params := JsonToCommand(buf, n);
    ReadsIs(buf[..], name, params, SplitOf(json));
    if name == -1 {
      return NoMethod;
    }
    split := Split(CString(buf[name..]), if params == -1 then "" else CString(buf[params..]));
  }

  lemma ReadsIs(buf: string, name: int, params: int, split: Split)
    requires -1 <= name <= |buf| && -1 <= params <= |buf| && Reads(buf, name, params, split)
    ensures name == -1 ==> split == NoMethod
    ensures name != -1 ==>
      split == Split(CString(buf[name..]), if params == -1 then "" else CString(buf[params..]))
  {
    hide CString;
  }

  // ----- the program -----

  class Mcu {
    var queue: seq<Command>
    var slot: Slot
    var limit: nat
    var acks: seq<Ack>
    var sent: seq<string>
    ghost var accepted: seq<Command>
    ghost var shown: seq<Command>
    ghost var retired: seq<Command>
    var count: nat

    ghost function Abs(): State
      reads this
    {
      State(queue, slot, limit, acks, sent, accepted, shown, retired)
    }

    ghost predicate Valid()
      reads this
    {
      count == |accepted| && (slot.Held? ==> slot.command.hasAck)
    }

    constructor ()
      ensures Valid() && Abs() == INIT
    {
      queue, slot, limit, acks, sent, count := [], Free, 1000, [], [], 0;
      accepted, shown, retired := [], [], [];
    }

    /** mdm_enq. */
    method EnqueueRaw(text: string, now: nat) returns (ok: bool)
      requires Valid()
      modifies this
      ensures Valid() && ok == (|old(queue)| < CAPACITY) && Abs() == Enqueue(old(Abs()), Raw, false, text, now)
    {
      ok := Put(Command(count, Raw, now, false, text));
    }

    /** mdm_enq_json. */
    method EnqueueJson(text: string, hasAck: bool, now: nat) returns (ok: bool)
      requires Valid()
      modifies this
      ensures Valid() && ok == (|old(queue)| < CAPACITY) && Abs() == Enqueue(old(Abs()), Json, hasAck, text, now)
    {
      ok := Put(Command(count, Json, now, hasAck, text));
    }

    method Put(c: Command) returns (ok: bool)
      requires Valid() && c.number == |accepted|
      modifies this
      ensures Valid() && ok == (|old(queue)| < CAPACITY)
      ensures Abs() == if ok then old(Abs()).(queue := old(queue) + [c], accepted := old(accepted) + [c]) else old(Abs())
    {
      if |queue| >= CAPACITY {
        return false;
      }
      queue, accepted, count := queue + [c], accepted + [c], count + 1;
      ok := true;
    }

    method Send(line: string)
      modifies this`sent
      ensures Abs() == Say(old(Abs()), line)
    {
      sent := sent + [line];
    }

    /** discard_down_command, and the calls of ack that end a command. */
    method End(answer: Answer, now: nat)
      requires slot.Held?
      modifies this`slot, this`acks, this`retired
      ensures Abs() == Finish(old(Abs()), answer, now)
    {
      if slot.command.hasAck {
        acks := acks + [Ack(slot.command, answer, now, limit)];
      }
      retired := retired + [slot.command];
      slot := Free;
    }

    /** Gives the outstanding command up if its time is up; then `busy` tells whether one is left. */
    method Expire(now: nat) returns (busy: bool)
      modifies this`slot, this`acks, this`retired
      ensures Abs() == GiveUp(old(Abs()), now) && busy == slot.Held?
    {
      if slot.Held? {
        if UpLink.Elapsed(slot.command.time, now) < limit {
          return true;
        }
        End(Failure(TIMED_OUT), now);
      }
      busy := false;
    }

    /** The dequeuing loop of both readers. */
    method Next(now: nat)
      requires slot.Free?
      modifies this`slot, this`acks, this`retired, this`queue
      ensures Abs() == Dequeue(old(Abs()), now)
    {
      ghost var whole := Dequeue(Abs(), now);
      while queue != []
        invariant slot.Free? && whole == Dequeue(Abs(), now)
        invariant limit == old(limit)
        decreases |queue|
      {
        slot, queue := Held(queue[0]), queue[1..];
        if UpLink.Elapsed(slot.command.time, now) < limit {
          return;
        }
        End(Failure(TIMED_OUT), now);
      }
    }

    method Present(line: string)
      requires slot.Held?
      modifies this`slot, this`sent, this`shown, this`retired
      ensures Abs() == Show(old(Abs()), line)
      ensures slot.Held? ==> slot.command.hasAck
    {
      Send(line);
      shown := shown + [slot.command];
      if !slot.command.hasAck {
        retired := retired + [slot.command];
        slot := Free;
      }
    }

    /** get_down. */
    method ReadDown(now: nat)
      requires Valid()
      modifies this
      ensures Valid() && Abs() == GetDown(old(Abs()), now)
    {
      hide SplitOf;
      var busy := Expire(now);
      if busy {
        Send("error");
        return;
      }
      Next(now);
      if slot.Free? {
        Send("down none");
      } else if slot.command.kind.Raw? {
        Present("down " + slot.command.text);
      } else {
        var split := SplitText(slot.command.text);
        if split.NoMethod? || split.name == "" {
          End(Failure(NOT_PARSED), now);
          Send("down none");
        } else {
          Present(DownLine(split));
        }
      }
    }

    /** json_get_down. */
    method ReadJson(now: nat)
      requires Valid()
      modifies this
      ensures Valid() && Abs() == JsonGetDown(old(Abs()), now)
    {
      var busy := Expire(now);
      if busy {
        Send("error");
        return;
      }
      Next(now);
      if slot.Free? {
        Send("json_down none");
      } else {
        Present("json_down " + slot.command.text);
      }
    }

    /** An answer whose time is up: the command is given up and the MCU told. */
    method Late(now: nat) returns (late: bool)
      requires slot.Held?
      modifies this`slot, this`acks, this`retired, this`sent
      ensures late == !Fresh(old(slot).command, now, old(limit))
      ensures Abs() == if late then Say(Finish(old(Abs()), Failure(TIMED_OUT), now), "error") else old(Abs())
    {
      late := UpLink.Elapsed(slot.command.time, now) >= limit;
      if late {
        End(Failure(TIMED_OUT), now);
        Send("error");
      }
    }

    method Forward(text: string, now: nat)
      requires slot.Held?
      modifies this`slot, this`acks, this`retired, this`sent
      ensures Abs() == Say(Finish(old(Abs()), Reply(text), now), "ok")
    {
      End(Reply(text), now);
      Send("ok");
    }

    /** send_result. */
    method Result(argv: seq<string>, now: nat)
      requires Valid()
      modifies this
      ensures Valid() && Abs() == SendResult(old(Abs()), argv, now)
    {
      if |argv| < 2 || slot.Free? {
        Send("error");
        return;
      }
      var late := Late(now);
      if late {
        return;
      }
      var js := "{\"result\":[" + argv[1];
      var i := 2;
      while i < |argv|
        invariant 2 <= i <= |argv| && slot == old(slot) && Abs() == old(Abs()) && Valid()
        invariant js == "{\"result\":[" + Joined(argv[1..i])
      {
        assert argv[1..i + 1][..i - 1] == argv[1..i];
        js := js + COMMA + argv[i];
        i := i + 1;
      }
      assert argv[1..i] == argv[1..];
      js := js + "]}";
      Forward(Cut(js), now);
    }

    /** send_error. */
    method Error(argv: seq<string>, atoi: string -> int, now: nat)
      requires Valid()
      modifies this
      ensures Valid() && Abs() == SendError(old(Abs()), argv, atoi, now)
    {
      if slot.Free? || |argv| < 2 {
        Send("error");
        return;
      }
      var code := USER_MIN;
      if |argv| >= 3 {
        code := atoi(argv[2]);
      }
      if code > USER_MAX {
        code := USER_MIN;
      }
      if code < USER_MIN {
        code := USER_MIN;
      }
      var late := Late(now);
      if !late {
        Forward(ErrorText(code, argv[1]), now);
      }
    }

    /** json_ack. */
    method Acknowledge(argv: seq<string>, now: nat)
      requires Valid()
      modifies this
      ensures Valid() && Abs() == JsonAck(old(Abs()), argv, now)
    {
      if slot.Free? || |argv| < 2 {
        Send("error");
        return;
      }
      var late := Late(now);
      if !late {
        Forward(argv[1], now);
      }
    }

    /** The time limit of set_echo. */
    method Echo(argv: seq<string>)
      requires Valid()
      modifies this`limit, this`sent
      ensures Valid() && Abs() == SetEcho(old(Abs()), argv)
    {
      if |argv| < 2 {
        Send("error");
        return;
      }
      if argv[1] == "on" {
        limit := 60000;
      } else if argv[1] == "off" {
        limit := 1000;
      } else {
        Send("error");
        return;
      }
      Send("ok");
    }
  }
}
