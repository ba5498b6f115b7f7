/** The stop-and-wait XMODEM sender of xmodem.c.

    The reply line is any infinite sequence of what the deciding reads return: a byte, or a timeout
    that leaves some arbitrary byte in the result.  Bytes that the sender throws away unread (stale
    input before a read, and everything after a failure) are not part of it.  The log records all
    frames and single bytes sent and all replies read, in order. */
module Xmodem {
  import opened Crc16
  import opened Crc16Division

  const SOH: bv8 := 0x01
  const STX: bv8 := 0x02
  const EOT: bv8 := 0x04
  const ACK: bv8 := 0x06
  const NAK: bv8 := 0x15
  const CAN: bv8 := 0x18
  const CTRLZ: bv8 := 0x1A
  const ASK_CRC: bv8 := 0x43
  const PAD: bv8 := 0xFF
  const MAXRETRANS := 25

  datatype Reply = Byte(b: bv8) | Timeout(b: bv8)

  type Line = nat -> Reply

  datatype Event = Tx(frame: Bytes) | Out(b: bv8) | Rx(reply: Reply)

  // ----- frames -----

  predicate Mtu(mtu: int) { mtu == 128 || mtu == 1024 }

  function Sum(s: Bytes): bv8 {
    if s == [] then 0 else Sum(s[..|s| - 1]) + s[|s| - 1]
  }

  function Head(no: bv8, mtu: nat): Bytes {
    [if mtu == 128 then SOH else STX, no, !no]
  }

  function Check(payload: Bytes, crc: bool): Bytes {
    if crc then Trailer(Crc(0, payload)) else [Sum(payload)]
  }

  function Frame(no: bv8, payload: Bytes, crc: bool): Bytes {
    Head(no, |payload|) + payload + Check(payload, crc)
  }

  /** The blocks of a text whose length is a multiple of mtu. */
  function Chop(s: Bytes, mtu: nat): (r: seq<Bytes>)
    requires mtu > 0
    ensures forall b :: b in r ==> |b| == mtu
    decreases |s|
  {
    if |s| < mtu then [] else [s[..mtu]] + Chop(s[mtu..], mtu)
  }

  /** The end mark and the filling up to whole blocks. */
  function Padded(s: Bytes, mtu: nat): Bytes
    requires mtu > 0
  {
    s + [CTRLZ] + seq(mtu - 1 - |s| % mtu, _ => PAD)
  }

  // ----- the exchange, as a function of the line -----

  datatype Outcome = Accepted | Cancelled | GaveUp

  datatype Exchange = Exchange(outcome: Outcome, cursor: nat, events: seq<Event>)

  const THREE_CAN := [Out(CAN), Out(CAN), Out(CAN)]

  /** One frame, sent up to `tries` times. */
  function SendFrame(line: Line, cursor: nat, frame: Bytes, tries: nat): Exchange
    decreases tries
  {
    if tries == 0 then Exchange(GaveUp, cursor, THREE_CAN)
    else
      var r := line(cursor);
      var shown := [Tx(frame), Rx(r)];
      if r == Byte(ACK) then Exchange(Accepted, cursor + 1, shown)
      else if r == Byte(CAN) then
        var r2 := line(cursor + 1);
        if r2.b == CAN then Exchange(Cancelled, cursor + 2, shown + [Rx(r2), Out(ACK)])
        else Before(shown + [Rx(r2)], SendFrame(line, cursor + 2, frame, tries - 1))
      else Before(shown, SendFrame(line, cursor + 1, frame, tries - 1))
  }

  function Before(events: seq<Event>, e: Exchange): Exchange {
    e.(events := events + e.events)
  }

  function Code(o: Outcome): int {
    match o case Accepted => 0 case Cancelled => -1 case GaveUp => -4
  }

  /** What a call leaves: its result, the next block number, and what happened on the line. */
  datatype Run = Run(code: int, no: bv8, cursor: nat, events: seq<Event>)

  function Then(events: seq<Event>, r: Run): Run {
    r.(events := events + r.events)
  }

  function SendBlocks(line: Line, no: bv8, cursor: nat, blocks: seq<Bytes>, crc: bool): Run
    decreases blocks
  {
    if blocks == [] then Run(0, no, cursor, [])
    else
      var e := SendFrame(line, cursor, Frame(no, blocks[0], crc), MAXRETRANS);
      if e.outcome == Accepted then Then(e.events, SendBlocks(line, no + 1, e.cursor, blocks[1..], crc))
      else Run(Code(e.outcome), no, e.cursor, e.events)
  }

  lemma SendBlocksStep(line: Line, no: bv8, cursor: nat, blocks: seq<Bytes>, crc: bool)
    ensures blocks == [] ==> SendBlocks(line, no, cursor, blocks, crc) == Run(0, no, cursor, [])
    ensures blocks != [] ==>
      var e := SendFrame(line, cursor, Frame(no, blocks[0], crc), MAXRETRANS);
      SendBlocks(line, no, cursor, blocks, crc)
        == if e.outcome == Accepted then Then(e.events, SendBlocks(line, no + 1, e.cursor, blocks[1..], crc))
           else Run(Code(e.outcome), no, e.cursor, e.events)
  {
  }

  /** End of transmission: asked for at most `tries` times.  The reply's error flag is not looked
      at, so a timeout may pass for an ACK. */
  function SendEot(line: Line, no: bv8, cursor: nat, tries: nat): Run
    decreases tries
  {
    if tries == 0 then Run(-5, no, cursor, [])
    else
      var r := line(cursor);
      if r.b == ACK then Run(0, no, cursor + 1, [Out(EOT), Rx(r)])
      else Then([Out(EOT), Rx(r)], SendEot(line, no, cursor + 1, tries - 1))
  }

  /** The whole of a text with its end mark: blocks, then end of transmission. */
  function SendAll(line: Line, no: bv8, cursor: nat, src: Bytes, mtu: nat, crc: bool): Run
    requires mtu > 0
  {
    var r := SendBlocks(line, no, cursor, Chop(Padded(src, mtu), mtu), crc);
    if r.code != 0 then r else Then(r.events, SendEot(line, r.no, r.cursor, 10))
  }

  /** The receiver's choice of check: what the sender waits for before anything else. */
  datatype Config = Config(code: int, crc: bool, cursor: nat, events: seq<Event>)

  function GetCrc(line: Line, cursor: nat, tries: nat): Config
    decreases tries
  {
    if tries == 0 then Config(-2, false, cursor, THREE_CAN)
    else
      var r := line(cursor);
      if r == Byte(ASK_CRC) then Config(0, true, cursor + 1, [Rx(r)])
      else if r == Byte(NAK) then Config(0, false, cursor + 1, [Rx(r)])
      else if r == Byte(CAN) then
        var r2 := line(cursor + 1);
        if r2.b == CAN then Config(-1, false, cursor + 2, [Rx(r), Rx(r2), Out(ACK)])
        else Later([Rx(r), Rx(r2)], GetCrc(line, cursor + 2, tries - 1))
      else Later([Rx(r)], GetCrc(line, cursor + 1, tries - 1))
  }

  function Later(events: seq<Event>, c: Config): Config {
    c.(events := events + c.events)
  }

  lemma LaterLater(a: seq<Event>, b: seq<Event>, c: Config)
    ensures Later(a, Later(b, c)) == Later(a + b, c)
  {
    assert a + (b + c.events) == (a + b) + c.events;
  }

  lemma {:induction false} ThenThen(a: seq<Event>, b: seq<Event>, r: Run)
    ensures Then(a, Then(b, r)) == Then(a + b, r)
  {
    assert a + (b + r.events) == (a + b) + r.events;
  }

  /** Sending two batches is sending the first and, if it went through, the second. */
  lemma {:induction false} SendBlocksConcat(line: Line, no: bv8, cursor: nat, a: seq<Bytes>, b: seq<Bytes>, crc: bool)
    ensures var r := SendBlocks(line, no, cursor, a, crc);
      SendBlocks(line, no, cursor, a + b, crc)
        == if r.code != 0 then r else Then(r.events, SendBlocks(line, r.no, r.cursor, b, crc))
    decreases a
  {
    hide SendFrame, Frame;
    if a == [] {
      assert a + b == b;
      var rest := SendBlocks(line, no, cursor, b, crc);
      assert [] + rest.events == rest.events;
    } else {
      assert (a + b)[0] == a[0] && (a + b)[1..] == a[1..] + b;
      var e := SendFrame(line, cursor, Frame(no, a[0], crc), MAXRETRANS);
      if e.outcome == Accepted {
        SendBlocksConcat(line, no + 1, e.cursor, a[1..], b, crc);
        var r1 := SendBlocks(line, no + 1, e.cursor, a[1..], crc);
        ThenThen(e.events, r1.events, SendBlocks(line, r1.no, r1.cursor, b, crc));
      }
    }
  }

  // ----- the sender object -----

  class Sender {
    const line: Line
    var packetno: bv8
    var lastError: bool
    var cursor: nat
    var log: seq<Event>

    constructor (line: Line)
      ensures this.line == line && packetno == 1 && cursor == 0 && log == []
    {
      this.line := line;
      packetno, lastError, cursor, log := 1, false, 0, [];
    }

    method InByte() returns (c: bv8)
      modifies this`cursor, this`log, this`lastError
      ensures var r := line(old(cursor));
        c == r.b && lastError == r.Timeout? && cursor == old(cursor) + 1 && log == old(log) + [Rx(r)]
    {
      var r := line(cursor);
      cursor, log := cursor + 1, log + [Rx(r)];
      lastError := r.Timeout?;
      c := r.b;
    }

    method OutByte(b: bv8)
      modifies this`log
      ensures log == old(log) + [Out(b)]
    {
      log := log + [Out(b)];
    }

    /** The retry loop around one frame. */
    method Exchange(xbuff: array<bv8>, n: nat) returns (code: int)
      requires n <= xbuff.Length
      modifies this
      ensures var e := SendFrame(line, old(cursor), xbuff[..n], MAXRETRANS);
        && code == Code(e.outcome) && cursor == e.cursor && log == old(log) + e.events
        && packetno == if e.outcome == Accepted then old(packetno) + 1 else old(packetno)
    {
      hide Trying, SendFrame;
      ghost var frame, from := xbuff[..n], cursor;
      ghost var shown := [];
      TryingStarts(line, from, frame);
      var retry := 0;
      while retry < MAXRETRANS
        invariant 0 <= retry <= MAXRETRANS
        invariant log == old(log) + shown && packetno == old(packetno)
        invariant Trying(line, from, frame, retry, cursor, shown)
      {
        TryingGoesOn(line, from, frame, retry, cursor, shown);
        ghost var r, r2 := line(cursor), line(cursor + 1);
        log := log + [Tx(xbuff[..n])];
        var c := InByte();
        shown := shown + [Tx(frame), Rx(r)];
        if !lastError {
          if c == ACK {
            packetno := packetno + 1;
            return 0;
          }
          if c == CAN {
            c := InByte();
            shown := shown + [Rx(r2)];
            if c == CAN {
              OutByte(ACK);
              return -1;
            }
          }
        }
        retry := retry + 1;
      }
      TryingEnds(line, from, frame, cursor, shown);
      Cancel();
      assert log == old(log) + (shown + THREE_CAN);
      return -4;
    }

    method CheckSum(xbuff: array<bv8>, mtu: nat) returns (sum: bv8)
      requires mtu + 3 <= xbuff.Length
      ensures sum == Sum(xbuff[3..mtu + 3])
    {
      sum := 0;
      var i := 3;
      while i < mtu + 3
        invariant 3 <= i <= mtu + 3
        invariant sum == Sum(xbuff[3..i])
      {
        assert xbuff[3..i + 1] == xbuff[3..i] + [xbuff[i]];
        sum := sum + xbuff[i];
        i := i + 1;
      }
    }

    /** Puts the check bytes behind a payload that is in place. */
    method Seal(xbuff: array<bv8>, mtu: nat, crc: bool) returns (n: nat)
      requires mtu + 5 <= xbuff.Length
      modifies xbuff
      ensures n == mtu + if crc then 5 else 4
      ensures xbuff[..mtu + 3] == old(xbuff[..mtu + 3])
      ensures xbuff[mtu + 3..n] == Check(old(xbuff[3..mtu + 3]), crc)
    {
      if crc {
        var ccrc := Bitwise(xbuff[3..mtu + 3]);
        xbuff[mtu + 3] := ((ccrc >> 8) & 0xff) as bv8;
        xbuff[mtu + 4] := (ccrc & 0xff) as bv8;
        n := mtu + 5;
      } else {
        var sum := CheckSum(xbuff, mtu);
        xbuff[mtu + 3] := sum;
        n := mtu + 4;
      }
    }

    method PutHead(xbuff: array<bv8>, mtu: nat)
      requires 3 <= xbuff.Length
      modifies xbuff
      ensures xbuff[..3] == Head(packetno, mtu)
    {
      xbuff[0] := if mtu == 128 then SOH else STX;
      xbuff[1] := packetno;
      xbuff[2] := !packetno;
    }

    method PutPayload(xbuff: array<bv8>, mtu: nat, payload: Bytes)
      requires mtu + 3 <= xbuff.Length && |payload| == mtu
      modifies xbuff
      ensures xbuff[..mtu + 3] == old(xbuff[..3]) + payload
    {
      var i := 0;
      while i < mtu
        invariant i <= mtu
        invariant forall j :: 0 <= j < 3 ==> xbuff[j] == old(xbuff[j])
        invariant forall j :: 0 <= j < i ==> xbuff[j + 3] == payload[j]
      {
        xbuff[i + 3] := payload[i];
        i := i + 1;
      }
    }

    /** Builds the frame around one payload. */
    method Build(xbuff: array<bv8>, mtu: nat, crc: bool, payload: Bytes) returns (n: nat)
      requires mtu + 5 <= xbuff.Length && |payload| == mtu
      modifies xbuff
      ensures n <= xbuff.Length && xbuff[..n] == Frame(packetno, payload, crc)
    {
      hide Head, Check;
      PutHead(xbuff, mtu);
      PutPayload(xbuff, mtu, payload);
      ghost var front := Head(packetno, mtu) + payload;
      assert xbuff[3..mtu + 3] == xbuff[..mtu + 3][3..];
      HeadLength(packetno, mtu);
      assert front[3..] == payload;
      n := Seal(xbuff, mtu, crc);
      assert xbuff[..n] == xbuff[..mtu + 3] + xbuff[mtu + 3..n];
    }

    /** Builds the frame around one payload and sends it until it is settled. */
    method SendBlock(xbuff: array<bv8>, mtu: nat, crc: bool, payload: Bytes) returns (code: int)
      requires Mtu(mtu) && xbuff.Length == 1030 && |payload| == mtu
      modifies this, xbuff
      ensures var e := SendFrame(line, old(cursor), Frame(old(packetno), payload, crc), MAXRETRANS);
        && code == Code(e.outcome) && cursor == e.cursor && log == old(log) + e.events
        && packetno == if e.outcome == Accepted then old(packetno) + 1 else old(packetno)
    {
      hide SendFrame, Frame;
      var n := Build(xbuff, mtu, crc, payload);
      code := Exchange(xbuff, n);
    }

    /** xmodem_transfer_data: whole blocks, without an end mark. */
    method TransferData(crc: bool, src: Bytes, mtu: int) returns (code: int)
      requires Mtu(mtu) ==> |src| % mtu == 0
      modifies this
      ensures !Mtu(mtu) ==> code == -1 && packetno == old(packetno) && cursor == old(cursor) && log == old(log)
      ensures Mtu(mtu) ==>
        var r := SendBlocks(line, old(packetno), old(cursor), Chop(src, mtu), crc);
        code == r.code && packetno == r.no && cursor == r.cursor && log == old(log) + r.events
    {
      hide SendBlocks, SendFrame, Frame, Chop, Sending;
      if mtu != 128 && mtu != 1024 {
        return -1;
      }
      var xbuff := new bv8[1030];
      var len := 0;
      ghost var no, from, was := packetno, cursor, log;
      ghost var shown := [];
      SendingStarts(line, no, from, src, mtu, crc);
      while true
        invariant 0 <= len <= |src| && (|src| - len) % mtu == 0 && fresh(xbuff)
        invariant log == was + shown
        invariant Sending(line, no, from, src, mtu, crc, packetno, cursor, src[len..], shown)
        decreases |src| - len
      {
        var c := |src| - len;
        if c >= mtu {
          c := mtu;
        }
        if c == 0 {
          SendingEnds(line, no, from, src, mtu, crc, packetno, cursor, src[len..], shown);
          return 0;
        }
        assert c == mtu;
        var block := src[len..len + c] + seq(mtu - c, _ => 0);
        assert block == src[len..len + c] == src[len..][..mtu] && src[len..][mtu..] == src[len + mtu..];
        SendingGoesOn(line, no, from, src, mtu, crc, packetno, cursor, src[len..], shown);
        ghost var e := SendFrame(line, cursor, Frame(packetno, block, crc), MAXRETRANS);
        code := SendBlock(xbuff, mtu, crc, block);
        shown := shown + e.events;
        if code != 0 {
          return;
        }
        len := len + mtu;
      }
    }

    /** xmodem_transfer_end: the last blocks, the end mark and the padding, then EOT. */
    method TransferEnd(crc: bool, src: Bytes, mtu: int) returns (code: int)
      modifies this
      ensures !Mtu(mtu) ==> code == -1 && packetno == old(packetno) && cursor == old(cursor) && log == old(log)
      ensures Mtu(mtu) ==>
        var r := SendAll(line, old(packetno), old(cursor), src, mtu, crc);
        code == r.code && packetno == r.no && cursor == r.cursor && log == old(log) + r.events
    {
      hide SendBlocks, SendFrame, Frame, Chop, Sending, SendEot, Padded, EndBlock;
      if mtu != 128 && mtu != 1024 {
        return -1;
      }
      var xbuff := new bv8[1030];
      var len := 0;
      ghost var no, from, was, text := packetno, cursor, log, Padded(src, mtu);
      ghost var shown := [];
      SendingStarts(line, no, from, text, mtu, crc);
      PaddedBlock(src, mtu, 0);
      while len <= |src|
        invariant 0 <= len <= |text| && len % mtu == 0 && fresh(xbuff)
        invariant len > |src| ==> len == |text|
        invariant log == was + shown
        invariant Sending(line, no, from, text, mtu, crc, packetno, cursor, text[len..], shown)
        decreases |src| - len
      {
        var block := EndBlock(src, mtu, len);
        PaddedBlock(src, mtu, len);
        SendingGoesOn(line, no, from, text, mtu, crc, packetno, cursor, text[len..], shown);
        ghost var e := SendFrame(line, cursor, Frame(packetno, block, crc), MAXRETRANS);
        code := SendBlock(xbuff, mtu, crc, block);
        shown := shown + e.events;
        if code != 0 {
          return;
        }
        len := len + mtu;
      }
      SendingEnds(line, no, from, text, mtu, crc, packetno, cursor, text[len..], shown);
      code := EndOfTransmission();
    }

    method EndOfTransmission() returns (code: int)
      modifies this
      ensures var r := SendEot(line, old(packetno), old(cursor), 10);
        code == r.code && packetno == r.no && cursor == r.cursor && log == old(log) + r.events
    {
      hide SendEot, Ending;
      ghost var from, no := cursor, packetno;
      ghost var shown := [];
      EndingStarts(line, no, from);
      var retry := 0;
      while retry < 10
        invariant 0 <= retry <= 10 && packetno == no
        invariant log == old(log) + shown
        invariant Ending(line, no, from, retry, cursor, shown)
      {
        ghost var r := line(cursor);
        EndingGoesOn(line, no, from, retry, cursor, shown);
        OutByte(EOT);
        var c := InByte();
        shown := shown + [Out(EOT), Rx(r)];
        if c == ACK {
          return 0;
        }
        retry := retry + 1;
      }
      EndingStops(line, no, from, cursor, shown);
      return -5;
    }

    /** xmodem_get_crc_config: restarts the block numbers and waits for the receiver. */
    method GetCrcConfig() returns (code: int, crc: bool)
      modifies this
      ensures packetno == 1
      ensures var r := GetCrc(line, old(cursor), 16);
        code == r.code && (code == 0 ==> crc == r.crc) && cursor == r.cursor && log == old(log) + r.events
    {
      hide GetCrc, Asking;
      packetno, crc := 1, false;
      ghost var from := cursor;
      ghost var shown := [];
      AskingStarts(line, from);
      var retry := 0;
      while retry < 16
        invariant 0 <= retry <= 16 && packetno == 1
        invariant log == old(log) + shown
        invariant Asking(line, from, retry, cursor, shown)
      {
        ghost var r, r2 := line(cursor), line(cursor + 1);
        AskingGoesOn(line, from, retry, cursor, shown);
        var c := InByte();
        shown := shown + [Rx(r)];
        if !lastError {
          if c == ASK_CRC {
            return 0, true;
          }
          if c == NAK {
            return 0, false;
          }
          if c == CAN {
            c := InByte();
            shown := shown + [Rx(r2)];
            if c == CAN {
              OutByte(ACK);
              return -1, false;
            }
          }
        }
        retry := retry + 1;
      }
      AskingEnds(line, from, cursor, shown);
      Cancel();
      assert log == old(log) + (shown + THREE_CAN);
      code := -2;
    }

    method Cancel()
      modifies this`log
      ensures log == old(log) + THREE_CAN
    {
      OutByte(CAN);
      OutByte(CAN);
      OutByte(CAN);
    }
  }

  /** The block xmodem_transfer_end puts together from what is left at len. */
  function EndBlock(src: Bytes, mtu: int, len: nat): (r: Bytes)
    requires Mtu(mtu) && len <= |src|
    ensures |r| == mtu
  {
    var c := if |src| - len > mtu then mtu else |src| - len;
    if c == 0 then [CTRLZ] + seq(mtu - 1, _ => PAD)
    else if c < mtu then src[len..len + c] + [CTRLZ] + seq(mtu - c - 1, _ => PAD)
    else src[len..len + c]
  }

  /** The padded text is whole blocks, and the end mark is in the last of them. */
  lemma PaddedLength(src: Bytes, mtu: int)
    requires Mtu(mtu)
    ensures |Padded(src, mtu)| == |src| - |src| % mtu + mtu && |Padded(src, mtu)| % mtu == 0
  {
  }

  lemma PaddedAt(src: Bytes, mtu: int, i: nat)
    requires Mtu(mtu) && i < |Padded(src, mtu)|
    ensures Padded(src, mtu)[i] == if i < |src| then src[i] else if i == |src| then CTRLZ else PAD
  {
  }

  lemma EndBlockAt(src: Bytes, mtu: int, len: nat, j: nat)
    requires Mtu(mtu) && len <= |src| && j < mtu
    ensures EndBlock(src, mtu, len)[j]
      == if len + j < |src| then src[len + j] else if len + j == |src| then CTRLZ else PAD
  {
  }

  lemma WholeBlocksLeft(n: nat, mtu: int, len: nat)
    requires Mtu(mtu) && len <= n && len % mtu == 0
    ensures len + mtu <= n - n % mtu + mtu && (len + mtu) % mtu == 0
    ensures len + mtu <= n || len + mtu == n - n % mtu + mtu
  {
  }

  /** It is the block that starts at len in the padded text, and the last one ends that text. */
  lemma PaddedBlock(src: Bytes, mtu: int, len: nat)
    requires Mtu(mtu) && len <= |src| && len % mtu == 0
    ensures var text := Padded(src, mtu);
      && len + mtu <= |text| && (len + mtu <= |src| || len + mtu == |text|)
      && text[len..][..mtu] == EndBlock(src, mtu, len) && text[len..][mtu..] == text[len + mtu..]
    ensures (len + mtu) % mtu == 0
  {
    hide Padded, EndBlock;
    PaddedLength(src, mtu);
    WholeBlocksLeft(|src|, mtu, len);
    var text := Padded(src, mtu);
    forall j | 0 <= j < mtu ensures text[len..][..mtu][j] == EndBlock(src, mtu, len)[j] {
      PaddedAt(src, mtu, len + j);
      EndBlockAt(src, mtu, len, j);
    }
  }

  /** `shown` has happened in the wait for the receiver's choice. */
  ghost predicate Asking(line: Line, from: nat, retry: nat, cursor: nat, shown: seq<Event>) {
    retry <= 16 && GetCrc(line, from, 16) == Later(shown, GetCrc(line, cursor, 16 - retry))
  }

  lemma AskingStarts(line: Line, from: nat)
    ensures Asking(line, from, 0, from, [])
  {
    var c := GetCrc(line, from, 16);
    assert [] + c.events == c.events;
  }

  lemma AskingGoesOn(line: Line, from: nat, retry: nat, cursor: nat, shown: seq<Event>)
    requires Asking(line, from, retry, cursor, shown) && retry < 16
    ensures var r, r2 := line(cursor), line(cursor + 1);
      var s1 := shown + [Rx(r)];
      if r == Byte(ASK_CRC) then GetCrc(line, from, 16) == Config(0, true, cursor + 1, s1)
      else if r == Byte(NAK) then GetCrc(line, from, 16) == Config(0, false, cursor + 1, s1)
      else if r == Byte(CAN) then
        if r2.b == CAN then GetCrc(line, from, 16) == Config(-1, false, cursor + 2, s1 + [Rx(r2)] + [Out(ACK)])
        else Asking(line, from, retry + 1, cursor + 2, s1 + [Rx(r2)])
      else Asking(line, from, retry + 1, cursor + 1, s1)
  {
    var r, r2 := line(cursor), line(cursor + 1);
    if r == Byte(CAN) {
      assert shown + [Rx(r), Rx(r2), Out(ACK)] == shown + [Rx(r)] + [Rx(r2)] + [Out(ACK)];
      assert shown + [Rx(r), Rx(r2)] == shown + [Rx(r)] + [Rx(r2)];
      LaterLater(shown, [Rx(r), Rx(r2)], GetCrc(line, cursor + 2, 16 - retry - 1));
    } else {
      LaterLater(shown, [Rx(r)], GetCrc(line, cursor + 1, 16 - retry - 1));
    }
  }

  lemma AskingEnds(line: Line, from: nat, cursor: nat, shown: seq<Event>)
    requires Asking(line, from, 16, cursor, shown)
    ensures GetCrc(line, from, 16) == Config(-2, false, cursor, shown + THREE_CAN)
  {
  }

  /** `shown` has happened in the wait for the end of transmission to be acknowledged. */
  ghost predicate Ending(line: Line, no: bv8, from: nat, retry: nat, cursor: nat, shown: seq<Event>) {
    retry <= 10 && SendEot(line, no, from, 10) == Then(shown, SendEot(line, no, cursor, 10 - retry))
  }

  lemma EndingStarts(line: Line, no: bv8, from: nat)
    ensures Ending(line, no, from, 0, from, [])
  {
    var r := SendEot(line, no, from, 10);
    assert [] + r.events == r.events;
  }

  lemma EndingGoesOn(line: Line, no: bv8, from: nat, retry: nat, cursor: nat, shown: seq<Event>)
    requires Ending(line, no, from, retry, cursor, shown) && retry < 10
    ensures var r := line(cursor);
      var s1 := shown + [Out(EOT), Rx(r)];
      if r.b == ACK then SendEot(line, no, from, 10) == Run(0, no, cursor + 1, s1)
      else Ending(line, no, from, retry + 1, cursor + 1, s1)
  {
    var r := line(cursor);
    ThenThen(shown, [Out(EOT), Rx(r)], SendEot(line, no, cursor + 1, 10 - retry - 1));
  }

  lemma EndingStops(line: Line, no: bv8, from: nat, cursor: nat, shown: seq<Event>)
    requires Ending(line, no, from, 10, cursor, shown)
    ensures SendEot(line, no, from, 10) == Run(-5, no, cursor, shown)
  {
    assert shown + [] == shown;
  }

  lemma HeadLength(no: bv8, mtu: nat)
    ensures |Head(no, mtu)| == 3
  {
  }

  /** After `retry` frames without an answer that settles it, with `shown` on the line. */
  ghost predicate Trying(line: Line, from: nat, frame: Bytes, retry: nat, cursor: nat, shown: seq<Event>) {
    retry <= MAXRETRANS
    && SendFrame(line, from, frame, MAXRETRANS) == Before(shown, SendFrame(line, cursor, frame, MAXRETRANS - retry))
  }

  lemma TryingStarts(line: Line, from: nat, frame: Bytes)
    ensures Trying(line, from, frame, 0, from, [])
  {
    var e := SendFrame(line, from, frame, MAXRETRANS);
    assert [] + e.events == e.events;
  }

  lemma BeforeBefore(a: seq<Event>, b: seq<Event>, e: Exchange)
    ensures Before(a, Before(b, e)) == Before(a + b, e)
  {
    assert a + (b + e.events) == (a + b) + e.events;
  }

  lemma TryingGoesOn(line: Line, from: nat, frame: Bytes, retry: nat, cursor: nat, shown: seq<Event>)
    requires Trying(line, from, frame, retry, cursor, shown) && retry < MAXRETRANS
    ensures var r, r2 := line(cursor), line(cursor + 1);
      var s1 := shown + [Tx(frame), Rx(r)];
      if r == Byte(ACK) then SendFrame(line, from, frame, MAXRETRANS) == Exchange(Accepted, cursor + 1, s1)
      else if r == Byte(CAN) then
        if r2.b == CAN then
          SendFrame(line, from, frame, MAXRETRANS) == Exchange(Cancelled, cursor + 2, s1 + [Rx(r2)] + [Out(ACK)])
        else Trying(line, from, frame, retry + 1, cursor + 2, s1 + [Rx(r2)])
      else Trying(line, from, frame, retry + 1, cursor + 1, s1)
  {
    var r, r2 := line(cursor), line(cursor + 1);
    var two := [Tx(frame), Rx(r)];
    if r == Byte(CAN) {
      assert shown + (two + [Rx(r2), Out(ACK)]) == shown + two + [Rx(r2)] + [Out(ACK)];
      assert shown + (two + [Rx(r2)]) == shown + two + [Rx(r2)];
      BeforeBefore(shown, two + [Rx(r2)], SendFrame(line, cursor + 2, frame, MAXRETRANS - retry - 1));
    } else {
      BeforeBefore(shown, two, SendFrame(line, cursor + 1, frame, MAXRETRANS - retry - 1));
    }
  }

  lemma TryingEnds(line: Line, from: nat, frame: Bytes, cursor: nat, shown: seq<Event>)
    requires Trying(line, from, frame, MAXRETRANS, cursor, shown)
    ensures SendFrame(line, from, frame, MAXRETRANS) == Exchange(GaveUp, cursor, shown + THREE_CAN)
  {
  }

  /** `shown` has happened and what remains to be sent is `rest`. */
  ghost predicate Sending(line: Line, no: bv8, from: nat, src: Bytes, mtu: nat, crc: bool,
                          no': bv8, cursor: nat, rest: Bytes, shown: seq<Event>)
    requires mtu > 0
  {
    SendBlocks(line, no, from, Chop(src, mtu), crc)
      == Then(shown, SendBlocks(line, no', cursor, Chop(rest, mtu), crc))
  }

  lemma SendingStarts(line: Line, no: bv8, from: nat, src: Bytes, mtu: nat, crc: bool)
    requires mtu > 0
    ensures Sending(line, no, from, src, mtu, crc, no, from, src[0..], [])
  {
    assert src[0..] == src;
    var r := SendBlocks(line, no, from, Chop(src, mtu), crc);
    assert [] + r.events == r.events;
  }

  lemma SendingEnds(line: Line, no: bv8, from: nat, src: Bytes, mtu: nat, crc: bool,
                    no': bv8, cursor: nat, rest: Bytes, shown: seq<Event>)
    requires mtu > 0 && Sending(line, no, from, src, mtu, crc, no', cursor, rest, shown) && rest == []
    ensures SendBlocks(line, no, from, Chop(src, mtu), crc) == Run(0, no', cursor, shown)
  {
  }

  lemma SendingGoesOn(line: Line, no: bv8, from: nat, src: Bytes, mtu: nat, crc: bool,
                      no': bv8, cursor: nat, rest: Bytes, shown: seq<Event>)
    requires mtu > 0 && Sending(line, no, from, src, mtu, crc, no', cursor, rest, shown) && |rest| >= mtu
    ensures var e := SendFrame(line, cursor, Frame(no', rest[..mtu], crc), MAXRETRANS);
      if e.outcome == Accepted then
        Sending(line, no, from, src, mtu, crc, no' + 1, e.cursor, rest[mtu..], shown + e.events)
      else SendBlocks(line, no, from, Chop(src, mtu), crc) == Run(Code(e.outcome), no', e.cursor, shown + e.events)
  {
    hide SendFrame, Frame;
    var e := SendFrame(line, cursor, Frame(no', rest[..mtu], crc), MAXRETRANS);
    assert Chop(rest, mtu) == [rest[..mtu]] + Chop(rest[mtu..], mtu);
    assert Chop(rest, mtu)[1..] == Chop(rest[mtu..], mtu);
    if e.outcome == Accepted {
      ThenThen(shown, e.events, SendBlocks(line, no' + 1, e.cursor, Chop(rest[mtu..], mtu), crc));
    }
  }
}
