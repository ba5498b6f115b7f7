/** The sender against a receiver that follows the protocol, over a channel that may lose or garble
    in both directions: XMODEM/YMODEM Protocol Reference, sections 7.3 and 8.1. */
module XmodemReceiver {
  import opened BitSequence
  import opened Crc16
  import opened Crc16Division
  import opened Xmodem
  import opened XmodemRuns

  datatype Parsed = Refused | Block(no: bv8, payload: Bytes)

  function LengthOf(first: bv8): nat {
    if first == SOH then 128 else if first == STX then 1024 else 0
  }

  /** A receiver's reading of a frame: length by its first byte, number against its complement,
      and the check over all the rest. */
  function Parse(f: Bytes, crc: bool): Parsed {
    if |f| < 3 then Refused
    else
      var n := LengthOf(f[0]);
      if n == 0 || |f| != n + (if crc then 5 else 4) || f[2] != !f[1] then Refused
      else if crc then (if Crc(0, f[3..]) == 0 then Block(f[1], f[3..n + 3]) else Refused)
      else if Sum(f[3..n + 3]) == f[n + 3] then Block(f[1], f[3..n + 3])
      else Refused
  }

  lemma ParseFrame(no: bv8, payload: Bytes, crc: bool)
    requires Mtu(|payload|)
    ensures Parse(Frame(no, payload, crc), crc) == Block(no, payload)
  {
    hide Crc, Sum;
    var f := Frame(no, payload, crc);
    assert f[3..] == payload + Check(payload, crc);
    assert f[3..|payload| + 3] == payload;
    if crc {
      CodewordIsZero(payload);
    }
  }

  /** A burst of wrong bits no longer than the check, anywhere behind the head, is refused. */
  lemma BurstIsRefused(f: Bytes, garbled: Bytes, before: nat, u: Bits, after: nat)
    requires |f| == |garbled| && Parse(f, true).Block? && garbled[..3] == f[..3]
    requires Burst(Add(BitsOf(f[3..]), BitsOf(garbled[3..])), before, u, after)
    ensures Parse(garbled, true) == Refused
  {
    hide Crc, Burst, BitsOf, Add;
    BurstDetected(f[3..], garbled[3..], before, u, after);
    assert garbled[0] == garbled[..3][0] == f[0];
    assert garbled[1] == garbled[..3][1] == f[1];
    assert garbled[2] == garbled[..3][2] == f[2];
  }

  /** The receiver: the number it waits for and the text it has. */
  datatype Ear = Ear(next: bv8, text: Bytes)

  /** A block under the awaited number is taken, any other (a repeat of the last one) is not. */
  function Hear(ear: Ear, f: Bytes, crc: bool): Ear {
    match Parse(f, crc)
    case Refused => ear
    case Block(no, payload) => if no == ear.next then Ear(no + 1, ear.text + payload) else ear
  }

  /** What comes out of the channel for each event: nothing, or some bytes. */
  datatype Heard = Silence | Bytes(b: Bytes)

  function Listen(ear: Ear, heard: seq<Heard>, crc: bool): Ear
    decreases |heard|
  {
    if heard == [] then ear
    else Listen(if heard[0].Bytes? then Hear(ear, heard[0].b, crc) else ear, heard[1..], crc)
  }

  /** A frame gets through whole or does not pass for a block at all, and the sender is given an
      ACK for a frame only if that frame got through. */
  ghost predicate Channel(events: seq<Event>, heard: seq<Heard>, crc: bool) {
    && |heard| == |events|
    && (forall i :: 0 <= i < |events| && heard[i].Bytes? ==>
      || Parse(heard[i].b, crc) == Refused
      || events[i] == Tx(heard[i].b))
    && (forall i :: 0 <= i < |events| - 1 && events[i].Tx? && events[i + 1] == Rx(Byte(ACK)) ==>
      heard[i] == Bytes(events[i].frame))
  }

  lemma ChannelSplits(a: seq<Event>, b: seq<Event>, heard: seq<Heard>, crc: bool)
    requires Channel(a + b, heard, crc)
    ensures Channel(a, heard[..|a|], crc) && Channel(b, heard[|a|..], crc)
  {
    hide Parse;
    var l, r := heard[..|a|], heard[|a|..];
    forall i | 0 <= i < |a|
      ensures l[i].Bytes? ==> Parse(l[i].b, crc) == Refused || a[i] == Tx(l[i].b)
    {
      assert (a + b)[i] == a[i] && heard[i] == l[i];
    }
    forall i | 0 <= i < |b|
      ensures r[i].Bytes? ==> Parse(r[i].b, crc) == Refused || b[i] == Tx(r[i].b)
    {
      assert (a + b)[|a| + i] == b[i] && heard[|a| + i] == r[i];
    }
    forall i | 0 <= i < |a| - 1 && a[i].Tx? && a[i + 1] == Rx(Byte(ACK)) ensures l[i] == Bytes(a[i].frame) {
      assert (a + b)[i] == a[i] && (a + b)[i + 1] == a[i + 1];
    }
    forall i | 0 <= i < |b| - 1 && b[i].Tx? && b[i + 1] == Rx(Byte(ACK)) ensures r[i] == Bytes(b[i].frame) {
      assert (a + b)[|a| + i] == b[i] && (a + b)[|a| + i + 1] == b[i + 1];
    }
  }

  lemma {:induction false} ListenConcat(ear: Ear, a: seq<Heard>, b: seq<Heard>, crc: bool)
    ensures Listen(ear, a + b, crc) == Listen(Listen(ear, a, crc), b, crc)
    decreases |a|
  {
    if a == [] {
      assert a + b == b;
    } else {
      assert (a + b)[0] == a[0] && (a + b)[1..] == a[1..] + b;
      ListenConcat(if a[0].Bytes? then Hear(ear, a[0].b, crc) else ear, a[1..], b, crc);
    }
  }

  /** Where the receiver is with one block: before it, or after it. */
  predicate Beside(ear: Ear, no: bv8, before: Bytes, payload: Bytes) {
    ear == Ear(no, before) || ear == Ear(no + 1, before + payload)
  }

  /** One event of the exchange of a frame moves the receiver at most from before to after, and
      an ACK finds it after. */
  lemma HearOne(ear: Ear, event: Event, h: Heard, crc: bool, no: bv8, before: Bytes, payload: Bytes)
    requires Beside(ear, no, before, payload) && Mtu(|payload|)
    requires event.Tx? ==> event.frame == Frame(no, payload, crc)
    requires h.Bytes? ==> Parse(h.b, crc) == Refused || event == Tx(h.b)
    ensures var e := Listen(ear, [h], crc);
      && Beside(e, no, before, payload)
      && (event.Tx? && h == Bytes(event.frame) ==> e == Ear(no + 1, before + payload))
      && (ear == Ear(no + 1, before + payload) ==> e == ear)
  {
    hide Parse, Frame;
    assert [h][1..] == [];
    ParseFrame(no, payload, crc);
    assert no != no + 1;
  }

  predicate OnlyFrame(events: seq<Event>, frame: Bytes) {
    forall i :: 0 <= i < |events| ==> events[i].Tx? ==> events[i].frame == frame
  }

  /** No event of the exchange of a frame takes the receiver past it. */
  lemma {:induction false} HearAll(ear: Ear, events: seq<Event>, heard: seq<Heard>, crc: bool, no: bv8,
                                   before: Bytes, payload: Bytes)
    requires Beside(ear, no, before, payload) && Mtu(|payload|)
    requires OnlyFrame(events, Frame(no, payload, crc)) && Channel(events, heard, crc)
    ensures Beside(Listen(ear, heard, crc), no, before, payload)
    decreases |events|
  {
    hide Parse, Frame, Beside, Hear;
    if events != [] {
      HearOne(ear, events[0], heard[0], crc, no, before, payload);
      assert events == [events[0]] + events[1..] && heard == [heard[0]] + heard[1..];
      ChannelSplits([events[0]], events[1..], heard, crc);
      ListenConcat(ear, [heard[0]], heard[1..], crc);
      HearAll(Listen(ear, [heard[0]], crc), events[1..], heard[1..], crc, no, before, payload);
    }
  }

  lemma OnlyFrameConcat(a: seq<Event>, b: seq<Event>, frame: Bytes)
    requires OnlyFrame(a, frame) && OnlyFrame(b, frame)
    ensures OnlyFrame(a + b, frame)
  {
  }

  lemma {:induction false} FrameEvents(line: Line, cursor: nat, frame: Bytes, tries: nat)
    ensures OnlyFrame(SendFrame(line, cursor, frame, tries).events, frame)
    decreases tries
  {
    if tries > 0 {
      var r, r2 := line(cursor), line(cursor + 1);
      var two := [Tx(frame), Rx(r)];
      if r == Byte(CAN) && r2.b != CAN {
        FrameEvents(line, cursor + 2, frame, tries - 1);
        OnlyFrameConcat(two + [Rx(r2)], SendFrame(line, cursor + 2, frame, tries - 1).events, frame);
      } else if r != Byte(ACK) && r != Byte(CAN) {
        FrameEvents(line, cursor + 1, frame, tries - 1);
        OnlyFrameConcat(two, SendFrame(line, cursor + 1, frame, tries - 1).events, frame);
      }
    }
  }

  /** The events end with the frame and the ACK for it. */
  predicate EndsAcked(events: seq<Event>, frame: Bytes) {
    |events| >= 2 && events[|events| - 2] == Tx(frame) && events[|events| - 1] == Rx(Byte(ACK))
  }

  lemma {:induction false} AcceptedEnds(line: Line, cursor: nat, frame: Bytes, tries: nat)
    requires SendFrame(line, cursor, frame, tries).outcome == Accepted
    ensures EndsAcked(SendFrame(line, cursor, frame, tries).events, frame)
    decreases tries
  {
    var r := line(cursor);
    if r == Byte(CAN) {
      AcceptedEnds(line, cursor + 2, frame, tries - 1);
    } else if r != Byte(ACK) {
      AcceptedEnds(line, cursor + 1, frame, tries - 1);
    }
  }

  /** One block: after an accepted exchange the receiver has it, after any other it may. */
  lemma BlockHeard(line: Line, cursor: nat, no: bv8, payload: Bytes, crc: bool, text: Bytes, heard: seq<Heard>)
    requires Mtu(|payload|)
    requires Channel(SendFrame(line, cursor, Frame(no, payload, crc), MAXRETRANS).events, heard, crc)
    ensures var e := SendFrame(line, cursor, Frame(no, payload, crc), MAXRETRANS);
      var ear := Listen(Ear(no, text), heard, crc);
      && Beside(ear, no, text, payload)
      && (e.outcome == Accepted ==> ear == Ear(no + 1, text + payload))
  {
    hide Parse, Frame, SendFrame, Listen, Hear;
    var frame := Frame(no, payload, crc);
    var e := SendFrame(line, cursor, frame, MAXRETRANS);
    FrameEvents(line, cursor, frame, MAXRETRANS);
    HearAll(Ear(no, text), e.events, heard, crc, no, text, payload);
    if e.outcome == Accepted {
      AcceptedEnds(line, cursor, frame, MAXRETRANS);
      var n := |heard| - 2;
      var front, last := e.events[..n], e.events[n..];
      assert e.events == front + last;
      ChannelSplits(front, last, heard, crc);
      HearAll(Ear(no, text), front, heard[..n], crc, no, text, payload);
      var ear := Listen(Ear(no, text), heard[..n], crc);
      assert heard == heard[..n] + ([heard[n]] + [heard[n + 1]]);
      ListenConcat(Ear(no, text), heard[..n], [heard[n]] + [heard[n + 1]], crc);
      ListenConcat(ear, [heard[n]], [heard[n + 1]], crc);
      HearOne(ear, e.events[n], heard[n], crc, no, text, payload);
      HearOne(Listen(ear, [heard[n]], crc), e.events[n + 1], heard[n + 1], crc, no, text, payload);
    }
  }

  /** The receiver has the first m blocks, each once and in order, and waits for the next. */
  predicate HasFirst(ear: Ear, first: nat, blocks: seq<Bytes>, m: nat) {
    m <= |blocks| && ear == Ear(Number(first + m), Join(blocks[..m]))
  }

  lemma HeardLength(events: seq<Event>, heard: seq<Heard>, crc: bool)
    requires Channel(events, heard, crc)
    ensures |heard| == |events|
  {
  }

  lemma HasNext(no: bv8, text: Bytes, first: nat, blocks: seq<Bytes>, m: nat, ear: Ear)
    requires m < |blocks| && HasFirst(Ear(no, text), first, blocks, m)
    requires ear == Ear(no + 1, text + blocks[m])
    ensures HasFirst(ear, first, blocks, m + 1)
  {
    NextNumber(first + m);
    assert blocks[..m + 1] == blocks[..m] + [blocks[m]];
    JoinConcat(blocks[..m], [blocks[m]]);
    JoinFirst(blocks[m], []);
    assert [blocks[m]] + [] == [blocks[m]];
    assert Join([blocks[m]]) == blocks[m];
  }

  /** One block at its place in the transfer. */
  lemma PlaceHeard(line: Line, cursor: nat, first: nat, blocks: seq<Bytes>, i: nat, crc: bool, ear: Ear,
                   heard: seq<Heard>)
    requires i < |blocks| && Mtu(|blocks[i]|) && HasFirst(ear, first, blocks, i)
    requires Channel(SendFrame(line, cursor, Frame(Number(first + i), blocks[i], crc), MAXRETRANS).events, heard, crc)
    ensures var e := SendFrame(line, cursor, Frame(Number(first + i), blocks[i], crc), MAXRETRANS);
      var got := Listen(ear, heard, crc);
      HasFirst(got, first, blocks, i + 1) || (e.outcome != Accepted && HasFirst(got, first, blocks, i))
  {
    hide Channel, SendFrame, Frame, Listen, Hear, Number, Join;
    var no := Number(first + i);
    BlockHeard(line, cursor, no, blocks[i], crc, ear.text, heard);
    if Listen(ear, heard, crc) != ear {
      HasNext(no, ear.text, first, blocks, i, Listen(ear, heard, crc));
    }
  }

  /** Both ends together, from any point of a transfer on. */
  lemma {:induction false} RestHeard(line: Line, cursor: nat, w: Seen, first: nat, blocks: seq<Bytes>, crc: bool,
                                     ear: Ear, heard: seq<Heard>)
    requires forall b :: b in blocks ==> Mtu(|b|)
    requires Numbered(w.done, first, blocks, crc) && w.current == [] && !w.awaiting
    requires |w.done| <= |blocks| && HasFirst(ear, first, blocks, |w.done|)
    requires Channel(SendBlocks(line, Number(first + |w.done|), cursor, blocks[|w.done|..], crc).events, heard, crc)
    ensures var r := SendBlocks(line, Number(first + |w.done|), cursor, blocks[|w.done|..], crc);
      var acked := |Watch(w, r.events).done|;
      var got := Listen(ear, heard, crc);
      HasFirst(got, first, blocks, acked) || (r.code != 0 && HasFirst(got, first, blocks, acked + 1))
    decreases |blocks| - |w.done|
  {
    hide Channel, SendFrame, SendBlocks, Frame, Listen, Watch, Numbered, Orderly, Number, HasFirst;
    var i := |w.done|;
    var no, rest := Number(first + i), blocks[i..];
    SendBlocksStep(line, no, cursor, rest, crc);
    if i == |blocks| {
      NothingHeard(ear, heard, crc);
      NothingSeen(w);
    } else {
      var e := SendFrame(line, cursor, Frame(no, blocks[i], crc), MAXRETRANS);
      BlockWatched(line, cursor, w, first, blocks, crc);
      if e.outcome == Accepted {
        var n := |e.events|;
        var r := SendBlocks(line, no + 1, e.cursor, rest[1..], crc);
        ChannelSplits(e.events, r.events, heard, crc);
        HeardLength(e.events + r.events, heard, crc);
        PlaceHeard(line, cursor, first, blocks, i, crc, ear, heard[..n]);
        assert heard == heard[..n] + heard[n..];
        ListenConcat(ear, heard[..n], heard[n..], crc);
        NextNumber(first + i);
        assert rest[1..] == blocks[i + 1..];
        WatchConcat(w, e.events, r.events);
        RestHeard(line, e.cursor, Watch(w, e.events), first, blocks, crc, Listen(ear, heard[..n], crc), heard[n..]);
      } else {
        PlaceHeard(line, cursor, first, blocks, i, crc, ear, heard);
      }
    }
  }

  /** Both ends together, over any channel and any replies: the receiver has every acknowledged
      block once and in order, and at most one block more; when the sender reports success it
      has exactly those, which are all there are. */
  lemma BlocksHeard(line: Line, first: nat, cursor: nat, blocks: seq<Bytes>, crc: bool, heard: seq<Heard>)
    requires forall b :: b in blocks ==> Mtu(|b|)
    requires Channel(SendBlocks(line, Number(first), cursor, blocks, crc).events, heard, crc)
    ensures var r := SendBlocks(line, Number(first), cursor, blocks, crc);
      var acked := |Watch(NOTHING, r.events).done|;
      var got := Listen(Ear(Number(first), []), heard, crc);
      && (HasFirst(got, first, blocks, acked) || (r.code != 0 && HasFirst(got, first, blocks, acked + 1)))
      && (r.code == 0 ==> got.text == Join(blocks))
  {
    hide Channel, SendBlocks, Listen, Watch, Number, Frame, Repeats;
    assert blocks[0..] == blocks[..|blocks|] == blocks;
    RestHeard(line, cursor, NOTHING, first, blocks, crc, Ear(Number(first), []), heard);
    OneStream(line, first, cursor, blocks, crc);
  }

  lemma NothingHeard(ear: Ear, heard: seq<Heard>, crc: bool)
    requires Channel([], heard, crc)
    ensures Listen(ear, heard, crc) == ear
  {
  }

  /** A transfer that reports success has delivered the text: what the receiver holds is the text
      with its end mark and filling, and stripping those leaves the text. */
  lemma Delivered(line: Line, cursor: nat, src: Bytes, mtu: int, crc: bool, heard: seq<Heard>)
    requires Mtu(mtu)
    requires Channel(SendAll(line, 1, cursor, src, mtu, crc).events, heard, crc)
    requires SendAll(line, 1, cursor, src, mtu, crc).code == 0
    ensures var got := Listen(Ear(1, []), heard, crc).text;
      got == Padded(src, mtu) && Strip(got) == src
  {
    hide Channel, Listen, SendBlocks, SendEot, Padded, Strip, Chop, Hear;
    var text := Padded(src, mtu);
    var r := SendBlocks(line, 1, cursor, Chop(text, mtu), crc);
    var eot := SendEot(line, r.no, r.cursor, 10);
    ChannelSplits(r.events, eot.events, heard, crc);
    HeardLength(r.events + eot.events, heard, crc);
    assert Number(1) == 1;
    BlocksHeard(line, 1, cursor, Chop(text, mtu), crc, heard[..|r.events|]);
    assert heard == heard[..|r.events|] + heard[|r.events|..];
    var ear := Listen(Ear(1, []), heard[..|r.events|], crc);
    ListenConcat(Ear(1, []), heard[..|r.events|], heard[|r.events|..], crc);
    EotUnheard(line, r.no, r.cursor, 10, ear, heard[|r.events|..], crc);
    PaddedLength(src, mtu);
    JoinChop(text, mtu);
    StripPadded(src, mtu);
  }

  lemma {:induction false} EotUnheard(line: Line, no: bv8, cursor: nat, tries: nat, ear: Ear, heard: seq<Heard>,
                                      crc: bool)
    requires Channel(SendEot(line, no, cursor, tries).events, heard, crc)
    ensures Listen(ear, heard, crc) == ear
    decreases tries
  {
    hide Parse;
    if tries > 0 {
      var r := line(cursor);
      var rest := SendEot(line, no, cursor + 1, tries - 1);
      var two := [Out(EOT), Rx(r)];
      if r.b == ACK {
        NoFrameUnheard(two, heard, ear, crc);
      } else {
        ChannelSplits(two, rest.events, heard, crc);
        assert heard == heard[..2] + heard[2..];
        ListenConcat(ear, heard[..2], heard[2..], crc);
        NoFrameUnheard(two, heard[..2], ear, crc);
        EotUnheard(line, no, cursor + 1, tries - 1, ear, heard[2..], crc);
      }
    }
  }

  lemma {:induction false} NoFrameUnheard(events: seq<Event>, heard: seq<Heard>, ear: Ear, crc: bool)
    requires Channel(events, heard, crc) && forall i :: 0 <= i < |events| ==> !events[i].Tx?
    ensures Listen(ear, heard, crc) == ear
    decreases |events|
  {
    hide Parse;
    if events != [] {
      assert events == [events[0]] + events[1..] && heard == [heard[0]] + heard[1..];
      ChannelSplits([events[0]], events[1..], heard, crc);
      NoFrameUnheard(events[1..], heard[1..], ear, crc);
    }
  }
}
