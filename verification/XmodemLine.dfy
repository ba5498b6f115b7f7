/** The bytes of the XMODEM sender, one by one: what stands in a frame, and exactly when and how each
    of its loops ends, told by the replies alone.  Every protocol byte is written as a number. */
module XmodemLine {
  import opened Crc16
  import opened Crc16Division
  import opened Xmodem
  import opened XmodemRuns

  // ----- a frame -----

  function Value(b: bv8): nat { b as nat }

  function Plus(x: bv8, y: bv8): bv8 { x + y }

  /** The sum of the bytes as numbers. */
  function ByteSum(s: Bytes): nat {
    if s == [] then 0 else ByteSum(s[..|s| - 1]) + Value(s[|s| - 1])
  }

  lemma ModSum(n: nat, x: nat)
    ensures Mod256(Mod256(n) + x) == Mod256(n + x)
  {
  }

  lemma PlusOne(x: bv8)
    ensures Value(Plus(x, 1)) == Mod256(Value(x) + 1)
  {
    NextByte(x);
  }

  lemma PlusZero(x: bv8)
    ensures Plus(x, 0) == x && Value(0) == 0 && Mod256(Value(x)) == Value(x)
  {
  }

  lemma OneLess(x: bv8, y: bv8) returns (z: bv8)
    requires y != 0
    ensures Value(z) == Value(y) - 1 && Plus(x, y) == Plus(Plus(x, z), 1)
  {
    z := y - 1;
  }

  lemma {:induction false} AddBytes(x: bv8, y: bv8)
    ensures Value(Plus(x, y)) == Mod256(Value(x) + Value(y))
    decreases Value(y)
  {
    hide Mod256, Value, Plus;
    if y == 0 {
      PlusZero(x);
    } else {
      var z := OneLess(x, y);
      AddBytes(x, z);
      PlusOne(Plus(x, z));
      ModSum(Value(x) + Value(z), 1);
    }
  }

  lemma SumLast(s: Bytes)
    ensures s == [] ==> Value(Sum(s)) == ByteSum(s) == Mod256(0)
    ensures s != [] ==> Sum(s) == Plus(Sum(s[..|s| - 1]), s[|s| - 1])
  {
  }

  lemma {:induction false} SumIsModulo(s: Bytes)
    ensures Value(Sum(s)) == Mod256(ByteSum(s))
  {
    hide Mod256, Value, Plus, Sum;
    SumLast(s);
    if s != [] {
      SumIsModulo(s[..|s| - 1]);
      AddBytes(Sum(s[..|s| - 1]), s[|s| - 1]);
      ModSum(ByteSum(s[..|s| - 1]), Value(s[|s| - 1]));
    }
  }

  lemma TrailerIs(crc: bv16)
    ensures |Trailer(crc)| == 2
    ensures (Trailer(crc)[0] as bv16 << 8) | Trailer(crc)[1] as bv16 == crc
  {
    TrailerHigh(crc);
    TrailerLow(crc);
  }

  /** Every byte of every frame. */
  lemma FrameBytes(no: bv8, payload: Bytes, crc: bool)
    requires |payload| == 128 || |payload| == 1024
    ensures var f, n := Frame(no, payload, crc), |payload|;
      && |f| == n + (if crc then 5 else 4)
      && f[0] == (if n == 128 then 0x01 else 0x02)
      && f[1] == no && f[2] as nat == 255 - no as nat
      && f[3..n + 3] == payload
      && (!crc ==> f[n + 3] as nat == ByteSum(payload) % 256)
      && (crc ==> (f[n + 3] as bv16 << 8) | f[n + 4] as bv16 == Crc(0, payload))
  {
    hide Crc, Sum, Trailer;
    var f, n := Frame(no, payload, crc), |payload|;
    Complement(no);
    SumIsModulo(payload);
    TrailerIs(Crc(0, payload));
    var tail := Check(payload, crc);
    assert f == Head(no, n) + payload + tail;
    assert f[n + 3] == tail[0];
    if crc {
      assert f[n + 4] == tail[1];
    }
  }

  // ----- the waits -----

  /** A reply that stands for a cancel when a second one follows. */
  predicate Cancel(r: Reply) { r == Byte(0x18) }

  /** Where the k-th look at the line stands: each look takes one reply, and one more after a cancel. */
  function Turn(line: Line, cursor: nat, k: nat): nat {
    if k == 0 then cursor
    else
      var c := Turn(line, cursor, k - 1);
      if Cancel(line(c)) then c + 2 else c + 1
  }

  predicate Cancelled(line: Line, c: nat) { Cancel(line(c)) && line(c + 1).b == 0x18 }

  /** What a look is for: in the wait for the receiver its choice of check, after a frame an ACK. */
  predicate Settles(line: Line, c: nat, asking: bool) {
    || (if asking then line(c) == Byte(0x43) || line(c) == Byte(0x15) else line(c) == Byte(0x06))
    || Cancelled(line, c)
  }

  /** What one look shows after `sent`. */
  function Look(line: Line, c: nat, sent: seq<Event>): seq<Event> {
    sent + [Rx(line(c))] + if Cancel(line(c)) then [Rx(line(c + 1))] else []
  }

  /** What the first k looks show. */
  function Looks(line: Line, cursor: nat, k: nat, sent: seq<Event>): seq<Event> {
    if k == 0 then []
    else Looks(line, cursor, k - 1, sent) + Look(line, Turn(line, cursor, k - 1), sent)
  }

  ghost predicate Unsettled(line: Line, cursor: nat, k: nat, asking: bool) {
    forall i :: 0 <= i < k ==> !Settles(line, Turn(line, cursor, i), asking)
  }

  lemma {:induction false} TurnShift(line: Line, cursor: nat, k: nat, sent: seq<Event>)
    ensures var next := if Cancel(line(cursor)) then cursor + 2 else cursor + 1;
      && Turn(line, cursor, k + 1) == Turn(line, next, k)
      && Looks(line, cursor, k + 1, sent) == Look(line, cursor, sent) + Looks(line, next, k, sent)
  {
    hide Cancel, Look;
    var next := Turn(line, cursor, 1);
    if k > 0 {
      TurnShift(line, cursor, k - 1, sent);
      var last := Look(line, Turn(line, next, k - 1), sent);
      assert Look(line, cursor, sent) + (Looks(line, next, k - 1, sent) + last)
        == (Look(line, cursor, sent) + Looks(line, next, k - 1, sent)) + last;
    } else {
      assert Looks(line, cursor, 1, sent) == [] + Look(line, cursor, sent);
    }
  }

  /** The first of `tries` looks that settles something, or `tries`. */
  function FirstSettled(line: Line, cursor: nat, tries: nat, asking: bool): (k: nat)
    ensures k <= tries && (k < tries ==> Settles(line, Turn(line, cursor, k), asking))
    ensures Unsettled(line, cursor, k, asking)
  {
    if tries == 0 then 0
    else
      var k := FirstSettled(line, cursor, tries - 1, asking);
      if k < tries - 1 || Settles(line, Turn(line, cursor, k), asking) then k else tries
  }

  lemma FirstIs(line: Line, cursor: nat, tries: nat, asking: bool, k: nat)
    requires k <= tries && Unsettled(line, cursor, k, asking)
    requires k < tries ==> Settles(line, Turn(line, cursor, k), asking)
    ensures FirstSettled(line, cursor, tries, asking) == k
  {
    hide Settles, Turn;
    var j := FirstSettled(line, cursor, tries, asking);
    if j < tries {
      NotBefore(line, cursor, asking, k, j);
    }
    if k < tries {
      NotBefore(line, cursor, asking, j, k);
    }
  }

  lemma NotBefore(line: Line, cursor: nat, asking: bool, k: nat, j: nat)
    requires Unsettled(line, cursor, k, asking) && Settles(line, Turn(line, cursor, j), asking)
    ensures k <= j
  {
  }

  lemma NoLook(line: Line, cursor: nat, sent: seq<Event>)
    ensures Turn(line, cursor, 0) == cursor && Looks(line, cursor, 0, sent) == []
  {
  }

  lemma SettlesLater(line: Line, cursor: nat, tries: nat, asking: bool, k: nat)
    requires tries > 0 && !Settles(line, cursor, asking)
    requires k == FirstSettled(line, if Cancel(line(cursor)) then cursor + 2 else cursor + 1, tries - 1, asking)
    ensures FirstSettled(line, cursor, tries, asking) == k + 1
  {
    hide Turn, Settles;
    var next := if Cancel(line(cursor)) then cursor + 2 else cursor + 1;
    NoLook(line, cursor, []);
    forall i | 0 <= i < k + 1
      ensures !Settles(line, Turn(line, cursor, i), asking)
    {
      if i > 0 {
        TurnShift(line, cursor, i - 1, []);
      }
    }
    TurnShift(line, cursor, k, []);
    FirstIs(line, cursor, tries, asking, k + 1);
  }

  /** One frame: the same bytes go out before every look, and the first of 25 looks that finds an
      acknowledgement or two cancels ends it; without one, three cancels go out. */
  ghost predicate FrameEnds(line: Line, cursor: nat, frame: Bytes, tries: nat, e: Exchange) {
    var k := FirstSettled(line, cursor, tries, false);
    var c, before := Turn(line, cursor, k), Looks(line, cursor, k, [Tx(frame)]);
    if k == tries then
      e == Exchange(GaveUp, c, before + [Out(0x18), Out(0x18), Out(0x18)])
    else if line(c) == Byte(0x06) then
      e == Exchange(Accepted, c + 1, before + [Tx(frame), Rx(Byte(0x06))])
    else
      e == Exchange(Xmodem.Cancelled, c + 2, before + [Tx(frame), Rx(Byte(0x18)), Rx(line(c + 1)), Out(0x06)])
  }

  lemma {:induction false} FrameEndsSo(line: Line, cursor: nat, frame: Bytes, tries: nat)
    ensures FrameEnds(line, cursor, frame, tries, SendFrame(line, cursor, frame, tries))
    decreases tries
  {
    hide Turn, Looks, FrameEnds;
    if tries == 0 || Settles(line, cursor, false) {
      FrameSettled(line, cursor, frame, tries);
    } else {
      var next := if Cancel(line(cursor)) then cursor + 2 else cursor + 1;
      FrameEndsSo(line, next, frame, tries - 1);
      var rest := SendFrame(line, next, frame, tries - 1);
      FrameGoesOn(line, cursor, frame, tries, rest);
      assert Look(line, cursor, [Tx(frame)]) == [Tx(frame), Rx(line(cursor))]
        + if Cancel(line(cursor)) then [Rx(line(cursor + 1))] else [];
      assert SendFrame(line, cursor, frame, tries) == Before(Look(line, cursor, [Tx(frame)]), rest);
    }
  }

  lemma FrameSettled(line: Line, cursor: nat, frame: Bytes, tries: nat)
    requires tries == 0 || Settles(line, cursor, false)
    ensures FrameEnds(line, cursor, frame, tries, SendFrame(line, cursor, frame, tries))
  {
    var e := SendFrame(line, cursor, frame, tries);
    NoLook(line, cursor, [Tx(frame)]);
    FirstIs(line, cursor, tries, false, 0);
    assert [] + e.events == e.events;
  }

  lemma FrameGoesOn(line: Line, cursor: nat, frame: Bytes, tries: nat, rest: Exchange)
    requires tries > 0 && !Settles(line, cursor, false)
    requires FrameEnds(line, if Cancel(line(cursor)) then cursor + 2 else cursor + 1, frame, tries - 1, rest)
    ensures FrameEnds(line, cursor, frame, tries, Before(Look(line, cursor, [Tx(frame)]), rest))
  {
    hide Turn, Looks, Look, Settles, FirstSettled;
    var next := if Cancel(line(cursor)) then cursor + 2 else cursor + 1;
    var k := FirstSettled(line, next, tries - 1, false);
    SettlesLater(line, cursor, tries, false, k);
    TurnShift(line, cursor, k, [Tx(frame)]);
    var look, looks := Look(line, cursor, [Tx(frame)]), Looks(line, next, k, [Tx(frame)]);
    var tail := rest.events[|looks|..];
    assert rest.events == looks + tail;
    assert look + rest.events == (look + looks) + tail;
  }

  /** The wait for the receiver: the first of its looks that finds a C, a NAK or two cancels decides;
      without one, three cancels go out. */
  ghost predicate AskingEndsWith(line: Line, cursor: nat, tries: nat, r: Config) {
    var k := FirstSettled(line, cursor, tries, true);
    var c, before := Turn(line, cursor, k), Looks(line, cursor, k, []);
    if k == tries then r == Config(-2, false, c, before + [Out(0x18), Out(0x18), Out(0x18)])
    else if Cancel(line(c)) then
      r == Config(-1, false, c + 2, before + [Rx(Byte(0x18)), Rx(line(c + 1)), Out(0x06)])
    else r == Config(0, line(c) == Byte(0x43), c + 1, before + [Rx(line(c))])
  }

  lemma {:induction false} AskingEndsSo(line: Line, cursor: nat, tries: nat)
    ensures AskingEndsWith(line, cursor, tries, GetCrc(line, cursor, tries))
    decreases tries
  {
    hide Turn, Looks, AskingEndsWith;
    if tries == 0 || Settles(line, cursor, true) {
      AskingSettled(line, cursor, tries);
    } else {
      var next := if Cancel(line(cursor)) then cursor + 2 else cursor + 1;
      AskingEndsSo(line, next, tries - 1);
      var rest := GetCrc(line, next, tries - 1);
      AskingRepeats(line, cursor, tries, rest);
      assert Look(line, cursor, []) == [Rx(line(cursor))]
        + if Cancel(line(cursor)) then [Rx(line(cursor + 1))] else [];
      assert GetCrc(line, cursor, tries) == Later(Look(line, cursor, []), rest);
    }
  }

  lemma AskingSettled(line: Line, cursor: nat, tries: nat)
    requires tries == 0 || Settles(line, cursor, true)
    ensures AskingEndsWith(line, cursor, tries, GetCrc(line, cursor, tries))
  {
    var r := GetCrc(line, cursor, tries);
    NoLook(line, cursor, []);
    FirstIs(line, cursor, tries, true, 0);
    assert [] + r.events == r.events;
  }

  lemma AskingRepeats(line: Line, cursor: nat, tries: nat, rest: Config)
    requires tries > 0 && !Settles(line, cursor, true)
    requires AskingEndsWith(line, if Cancel(line(cursor)) then cursor + 2 else cursor + 1, tries - 1, rest)
    ensures AskingEndsWith(line, cursor, tries, Later(Look(line, cursor, []), rest))
  {
    hide Turn, Looks, Look, Settles, FirstSettled;
    var next := if Cancel(line(cursor)) then cursor + 2 else cursor + 1;
    var k := FirstSettled(line, next, tries - 1, true);
    SettlesLater(line, cursor, tries, true, k);
    TurnShift(line, cursor, k, []);
    var look, looks := Look(line, cursor, []), Looks(line, next, k, []);
    var tail := rest.events[|looks|..];
    assert rest.events == looks + tail;
    assert look + rest.events == (look + looks) + tail;
  }

  // ----- the end of a transfer -----

  function ReplyByte(line: Line, cursor: nat, k: nat): bv8 { line(cursor + k).b }

  ghost predicate NoAck(line: Line, cursor: nat, k: nat) {
    forall i: nat :: i < k ==> ReplyByte(line, cursor, i) != 0x06
  }

  ghost predicate Acked(line: Line, cursor: nat, k: nat) {
    ReplyByte(line, cursor, k) == 0x06 && NoAck(line, cursor, k)
  }

  /** An end of transmission goes out before every look. */
  function Farewells(line: Line, cursor: nat, k: nat): seq<Event> {
    if k == 0 then [] else Farewells(line, cursor, k - 1) + [Out(0x04), Rx(line(cursor + k - 1))]
  }

  lemma {:induction false} FarewellsShift(line: Line, cursor: nat, k: nat)
    ensures Farewells(line, cursor, k + 1) == [Out(0x04), Rx(line(cursor))] + Farewells(line, cursor + 1, k)
  {
    if k > 0 {
      FarewellsShift(line, cursor, k - 1);
    } else {
      assert Farewells(line, cursor, 0) == [];
    }
  }

  lemma NoAckNext(line: Line, cursor: nat, next: nat, k: nat)
    requires NoAck(line, cursor, k) && k > 0 && next == cursor + 1
    ensures NoAck(line, next, k - 1)
  {
    forall i: nat | i < k - 1
      ensures ReplyByte(line, next, i) != 0x06
    {
      assert ReplyByte(line, cursor, i + 1) == ReplyByte(line, next, i);
    }
  }

  /** The end of transmission is taken as acknowledged at the first look that finds the byte of an
      ACK in the result, whether or not that look timed out; and given up after the last. */
  lemma {:induction false} EotEndsSo(line: Line, no: bv8, cursor: nat, tries: nat, k: nat)
    requires k <= tries && NoAck(line, cursor, k) && (k < tries ==> ReplyByte(line, cursor, k) == 0x06)
    ensures SendEot(line, no, cursor, tries) ==
      if k < tries then Run(0, no, cursor + k + 1, Farewells(line, cursor, k + 1))
      else Run(-5, no, cursor + k, Farewells(line, cursor, k))
    decreases k
  {
    assert ReplyByte(line, cursor, 0) == line(cursor).b;
    if tries > 0 {
      FarewellsShift(line, cursor, if k < tries then k else k - 1);
      if k > 0 {
        NoAckNext(line, cursor, cursor + 1, k);
        assert ReplyByte(line, cursor, k) == ReplyByte(line, cursor + 1, k - 1);
        EotEndsSo(line, no, cursor + 1, tries - 1, k - 1);
      }
    }
  }

  /** The blocks and then the end of transmission, and what each result means: 0 success, -5 no
      acknowledgement of the end, -1 cancelled, -4 a block given up. */
  lemma {:induction false} BlocksEndSo(line: Line, no: bv8, cursor: nat, blocks: seq<Bytes>, crc: bool)
    ensures var r := SendBlocks(line, no, cursor, blocks, crc);
      && r.code in {0, -1, -4}
      && (r.code == -1 ==> r.events != [] && r.events[|r.events| - 1] == Out(0x06))
      && (r.code == -4 ==> r.events != [] && r.events[|r.events| - 1] == Out(0x18))
    decreases blocks
  {
    hide SendFrame, Frame, FrameEnds;
    if blocks != [] {
      var frame := Frame(no, blocks[0], crc);
      var e := SendFrame(line, cursor, frame, MAXRETRANS);
      FrameEndsLast(line, cursor, frame);
      if e.outcome == Accepted {
        BlocksEndSo(line, no + 1, e.cursor, blocks[1..], crc);
      }
    }
  }

  /** The exchange as the sender runs it: 25 looks, and its three results. */
  lemma FrameExchange(line: Line, cursor: nat, frame: Bytes)
    ensures FrameEnds(line, cursor, frame, 25, SendFrame(line, cursor, frame, MAXRETRANS))
    ensures Code(Accepted) == 0 && Code(Xmodem.Cancelled) == -1 && Code(GaveUp) == -4
  {
    FrameEndsSo(line, cursor, frame, MAXRETRANS);
  }

  lemma FrameEndsLast(line: Line, cursor: nat, frame: Bytes)
    ensures var e := SendFrame(line, cursor, frame, MAXRETRANS);
      && (e.outcome == Xmodem.Cancelled ==> e.events != [] && e.events[|e.events| - 1] == Out(0x06))
      && (e.outcome == GaveUp ==> e.events != [] && e.events[|e.events| - 1] == Out(0x18))
  {
    hide Turn, Looks, SendFrame;
    FrameEndsSo(line, cursor, frame, MAXRETRANS);
  }

  lemma AllEndsSo(line: Line, no: bv8, cursor: nat, src: Bytes, mtu: nat, crc: bool)
    requires mtu > 0
    ensures var b := SendBlocks(line, no, cursor, Chop(Padded(src, mtu), mtu), crc);
      var r := SendAll(line, no, cursor, src, mtu, crc);
      if b.code != 0 then r == b
      else if NoAck(line, b.cursor, 10) then r == Run(-5, b.no, b.cursor + 10, b.events + Farewells(line, b.cursor, 10))
      else
        exists k: nat :: k < 10 && Acked(line, b.cursor, k)
                         && r == Run(0, b.no, b.cursor + k + 1, b.events + Farewells(line, b.cursor, k + 1))
  {
    hide SendBlocks, SendEot, Chop, Padded, Farewells;
    var b := SendBlocks(line, no, cursor, Chop(Padded(src, mtu), mtu), crc);
    if NoAck(line, b.cursor, 10) {
      EotEndsSo(line, b.no, b.cursor, 10, 10);
    } else {
      var k := FirstAck(line, b.cursor, 10);
      EotEndsSo(line, b.no, b.cursor, 10, k);
    }
  }

  lemma {:induction false} FirstAck(line: Line, cursor: nat, n: nat) returns (k: nat)
    requires !NoAck(line, cursor, n)
    ensures k < n && Acked(line, cursor, k)
  {
    hide ReplyByte;
    k := 0;
    while ReplyByte(line, cursor, k) != 0x06
      invariant k < n && NoAck(line, cursor, k)
      decreases n - k
    {
      k := k + 1;
    }
  }

  /** The text that is sent: the bytes, one 0x1A, and 0xFF up to a whole number of blocks. */
  lemma PaddedBytes(src: Bytes, mtu: int)
    requires mtu == 128 || mtu == 1024
    ensures var t := Padded(src, mtu);
      && |t| % mtu == 0 && |src| < |t| <= |src| + mtu
      && t[..|src|] == src && t[|src|] == 0x1A && forall i :: |src| < i < |t| ==> t[i] == 0xFF
  {
    hide Padded;
    PaddedLength(src, mtu);
    var t := Padded(src, mtu);
    forall i | 0 <= i < |t|
      ensures t[i] == if i < |src| then src[i] else if i == |src| then 0x1A else 0xFF
    {
      PaddedAt(src, mtu, i);
    }
  }

  /** Block k of a text is its k-th stretch of mtu bytes. */
  lemma {:induction false} ChoppedAt(s: Bytes, mtu: nat, k: nat)
    requires mtu > 0 && (k + 1) * mtu <= |s|
    ensures k < |Chop(s, mtu)| && Chop(s, mtu)[k] == s[k * mtu..(k + 1) * mtu]
    decreases k
  {
    if k == 0 {
      assert s[..mtu] == s[0 * mtu..1 * mtu];
    } else {
      assert k * mtu == (k - 1) * mtu + mtu && (k + 1) * mtu == k * mtu + mtu;
      ChoppedAt(s[mtu..], mtu, k - 1);
      assert s[mtu..][(k - 1) * mtu..k * mtu] == s[k * mtu..(k + 1) * mtu];
    }
  }
}
