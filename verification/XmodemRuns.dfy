/** What a whole XMODEM transfer shows on the line, read off the log by an observer who knows
    nothing of the sender: which frames went out, which of them were acknowledged, and what a
    receiver at the other end makes of the ones that reach it. */
module XmodemRuns {
  import opened Crc16
  import opened Xmodem

  // ----- the observer -----

  /** The acknowledged frames, each with all its transmissions, and the transmissions since.
      Only an ACK that directly answers a frame settles it. */
  datatype Seen = Seen(done: seq<seq<Bytes>>, current: seq<Bytes>, awaiting: bool)

  const NOTHING := Seen([], [], false)

  function See(w: Seen, e: Event): Seen {
    match e
    case Tx(f) => Seen(w.done, w.current + [f], true)
    case Rx(r) =>
      if w.awaiting && r == Byte(ACK) then Seen(w.done + [w.current], [], false)
      else Seen(w.done, w.current, false)
    case Out(_) => Seen(w.done, w.current, false)
  }

  function Watch(w: Seen, events: seq<Event>): Seen
    decreases |events|
  {
    if events == [] then w else Watch(See(w, events[0]), events[1..])
  }

  lemma {:induction false} WatchConcat(w: Seen, a: seq<Event>, b: seq<Event>)
    ensures Watch(w, a + b) == Watch(Watch(w, a), b)
    decreases |a|
  {
    if a == [] {
      assert a + b == b;
    } else {
      assert (a + b)[0] == a[0] && (a + b)[1..] == a[1..] + b;
      WatchConcat(See(w, a[0]), a[1..], b);
    }
  }

  lemma WatchOne(w: Seen, e: Event)
    ensures Watch(w, [e]) == See(w, e)
  {
    assert [e][1..] == [];
  }

  lemma WatchTwo(w: Seen, e: Event, f: Event)
    ensures Watch(w, [e, f]) == See(See(w, e), f)
  {
    assert [e, f] == [e] + [f];
    WatchConcat(w, [e], [f]);
    WatchOne(w, e);
    WatchOne(See(w, e), f);
  }

  // ----- numbering and retries -----

  predicate AllAre(sends: seq<Bytes>, frame: Bytes) {
    forall i :: 0 <= i < |sends| ==> sends[i] == frame
  }

  predicate Repeats(sends: seq<Bytes>, frame: Bytes) {
    1 <= |sends| <= MAXRETRANS && AllAre(sends, frame)
  }

  /** The block number byte: counted up from the start of the transfer. */
  function Number(n: nat): bv8 {
    if n == 0 then 0 else Number(n - 1) + 1
  }

  lemma NextByte(x: bv8)
    ensures (x + 1) as nat == Mod256(x as nat + 1)
  {
    assert x != 255 ==> (x + 1) as nat == x as nat + 1;
    assert x == 255 ==> x + 1 == 0;
  }

  function Mod256(n: nat): nat { n % 256 }

  lemma {:induction false} NumberIsModulo(n: nat)
    ensures Number(n) as nat == Mod256(n)
  {
    hide Mod256;
    assert Mod256(0) == 0 by { ModZero(); }
    if n > 0 {
      NumberIsModulo(n - 1);
      NextByte(Number(n - 1));
      ModNext(n - 1);
    }
  }

  lemma ModZero()
    ensures Mod256(0) == 0
  {
  }

  lemma ModNext(n: nat)
    ensures Mod256(Mod256(n) + 1) == Mod256(n + 1)
  {
  }

  /** One frame's exchange: nothing but copies of it goes out, at most `tries` of them, and it
      counts as settled exactly when the sender takes it as accepted. */
  lemma {:induction false} FrameWatched(line: Line, cursor: nat, frame: Bytes, tries: nat, w: Seen)
    requires !w.awaiting && AllAre(w.current, frame)
    ensures var e := SendFrame(line, cursor, frame, tries);
      var v := Watch(w, e.events);
      && !v.awaiting
      && (e.outcome == Accepted ==>
        && v.current == [] && |v.done| == |w.done| + 1 && v.done[..|w.done|] == w.done
        && AllAre(v.done[|w.done|], frame) && |w.current| < |v.done[|w.done|]| <= |w.current| + tries)
      && (e.outcome != Accepted ==>
        && v.done == w.done && AllAre(v.current, frame)
        && |w.current| <= |v.current| <= |w.current| + tries && (tries > 0 ==> |w.current| < |v.current|))
    decreases tries
  {
    hide Watch;
    if tries == 0 {
      WatchTwo(w, Out(CAN), Out(CAN));
      WatchOne(See(See(w, Out(CAN)), Out(CAN)), Out(CAN));
      WatchConcat(w, [Out(CAN), Out(CAN)], [Out(CAN)]);
      assert THREE_CAN == [Out(CAN), Out(CAN)] + [Out(CAN)];
    } else {
      var r, r2 := line(cursor), line(cursor + 1);
      var shown := [Tx(frame), Rx(r)];
      WatchTwo(w, Tx(frame), Rx(r));
      var v := Watch(w, shown);
      if r == Byte(CAN) {
        WatchConcat(w, shown, [Rx(r2)]);
        WatchOne(v, Rx(r2));
        if r2.b == CAN {
          assert shown + [Rx(r2), Out(ACK)] == (shown + [Rx(r2)]) + [Out(ACK)];
          WatchConcat(w, shown + [Rx(r2)], [Out(ACK)]);
          WatchOne(See(v, Rx(r2)), Out(ACK));
        } else {
          WatchConcat(w, shown + [Rx(r2)], SendFrame(line, cursor + 2, frame, tries - 1).events);
          FrameWatched(line, cursor + 2, frame, tries - 1, See(v, Rx(r2)));
        }
      } else if r != Byte(ACK) {
        WatchConcat(w, shown, SendFrame(line, cursor + 1, frame, tries - 1).events);
        FrameWatched(line, cursor + 1, frame, tries - 1, v);
      }
    }
  }

  /** Every acknowledged frame is the next block under the next number, sent 1 to 25 times. */
  predicate Numbered(done: seq<seq<Bytes>>, first: nat, blocks: seq<Bytes>, crc: bool) {
    |done| <= |blocks|
    && forall k :: 0 <= k < |done| ==> Repeats(done[k], Frame(Number(first + k), blocks[k], crc))
  }

  /** What an observer may see of a transfer of blocks that ends with the given code. */
  predicate Orderly(w: Seen, code: int, first: nat, blocks: seq<Bytes>, crc: bool) {
    && Numbered(w.done, first, blocks, crc)
    && !w.awaiting
    && (code == 0 <==> |w.done| == |blocks|)
    && if code == 0 then w.current == []
       else Repeats(w.current, Frame(Number(first + |w.done|), blocks[|w.done|], crc))
  }

  lemma NumberedGrows(done: seq<seq<Bytes>>, first: nat, blocks: seq<Bytes>, crc: bool, sends: seq<Bytes>)
    requires Numbered(done, first, blocks, crc) && |done| < |blocks|
    requires Repeats(sends, Frame(Number(first + |done|), blocks[|done|], crc))
    ensures Numbered(done + [sends], first, blocks, crc)
  {
    hide Frame, Repeats;
  }

  lemma AllSettled(w: Seen, first: nat, blocks: seq<Bytes>, crc: bool)
    requires Numbered(w.done, first, blocks, crc) && w.current == [] && !w.awaiting && |w.done| == |blocks|
    ensures Orderly(w, 0, first, blocks, crc)
  {
    hide Frame, Repeats, Number;
  }

  /** What one block's exchange makes of the record so far. */
  lemma BlockWatched(line: Line, cursor: nat, w: Seen, first: nat, blocks: seq<Bytes>, crc: bool)
    requires Numbered(w.done, first, blocks, crc) && w.current == [] && !w.awaiting && |w.done| < |blocks|
    ensures var e := SendFrame(line, cursor, Frame(Number(first + |w.done|), blocks[|w.done|], crc), MAXRETRANS);
      var v := Watch(w, e.events);
      if e.outcome == Accepted then
        Numbered(v.done, first, blocks, crc) && |v.done| == |w.done| + 1 && v.current == [] && !v.awaiting
      else v.done == w.done && Orderly(v, Code(e.outcome), first, blocks, crc)
  {
    hide SendFrame, Frame, Number, Watch;
    var frame := Frame(Number(first + |w.done|), blocks[|w.done|], crc);
    var e := SendFrame(line, cursor, frame, MAXRETRANS);
    FrameWatched(line, cursor, frame, MAXRETRANS, w);
    var v := Watch(w, e.events);
    if e.outcome == Accepted {
      assert v.done == w.done + [v.done[|w.done|]];
      NumberedGrows(w.done, first, blocks, crc, v.done[|w.done|]);
    }
  }

  lemma {:induction false} RestWatched(line: Line, cursor: nat, w: Seen, first: nat, blocks: seq<Bytes>, crc: bool)
    requires Numbered(w.done, first, blocks, crc) && w.current == [] && !w.awaiting
    ensures |w.done| <= |blocks|
    ensures var r := SendBlocks(line, Number(first + |w.done|), cursor, blocks[|w.done|..], crc);
      var v := Watch(w, r.events);
      Orderly(v, r.code, first, blocks, crc) && r.no == Number(first + |v.done|)
    decreases |blocks| - |w.done|
  {
    hide SendFrame, Frame, Numbered, Orderly, Number, Watch;
    var i := |w.done|;
    NumberedLength(w.done, first, blocks, crc);
    var no, rest := Number(first + i), blocks[i..];
    NothingSeen(w);
    if i == |blocks| {
      AllSettled(w, first, blocks, crc);
    } else {
      var e := SendFrame(line, cursor, Frame(no, blocks[i], crc), MAXRETRANS);
      BlockWatched(line, cursor, w, first, blocks, crc);
      if e.outcome == Accepted {
        NextNumber(first + i);
        assert rest[1..] == blocks[i + 1..];
        RestWatched(line, e.cursor, Watch(w, e.events), first, blocks, crc);
        WatchConcat(w, e.events, SendBlocks(line, no + 1, e.cursor, rest[1..], crc).events);
      }
    }
  }

  lemma NumberedLength(done: seq<seq<Bytes>>, first: nat, blocks: seq<Bytes>, crc: bool)
    requires Numbered(done, first, blocks, crc)
    ensures |done| <= |blocks|
  {
  }

  lemma NothingSeen(w: Seen)
    ensures Watch(w, []) == w
  {
  }

  lemma NextNumber(n: nat)
    ensures Number(n + 1) == Number(n) + 1
  {
  }

  /** Numbering and retry, over any line: between two acknowledgements nothing but 1 to 25
      identical copies of one frame goes out, the k-th of them is block k under the number
      first + k modulo 256, and all blocks are acknowledged exactly when the result is 0. */
  lemma OneStream(line: Line, first: nat, cursor: nat, blocks: seq<Bytes>, crc: bool)
    ensures var r := SendBlocks(line, Number(first), cursor, blocks, crc);
      var w := Watch(NOTHING, r.events);
      Orderly(w, r.code, first, blocks, crc) && r.no == Number(first + |w.done|)
  {
    hide SendBlocks, Watch, Repeats, Number;
    assert blocks[0..] == blocks;
    RestWatched(line, cursor, NOTHING, first, blocks, crc);
  }

  /** The number byte and its complement. */
  lemma NumberAndComplement(k: nat, payload: Bytes, crc: bool)
    requires Mtu(|payload|)
    ensures var f := Frame(Number(k + 1), payload, crc);
      && |f| == |payload| + (if crc then 5 else 4)
      && f[1] as nat == (k + 1) % 256 && f[1] as nat + f[2] as nat == 255
      && f[3..3 + |payload|] == payload
  {
    hide Check, Number;
    var f := Frame(Number(k + 1), payload, crc);
    NumberIsModulo(k + 1);
    CheckLength(payload, crc);
    Complement(Number(k + 1));
    assert f[1] == Number(k + 1) && f[2] == !Number(k + 1);
  }

  lemma CheckLength(payload: Bytes, crc: bool)
    ensures |Check(payload, crc)| == if crc then 2 else 1
  {
  }

  lemma Complement(n: bv8)
    ensures n as nat + (!n) as nat == 255
  {
    assert n + !n == 0xFF;
    assert !n == 0xFF - n;
  }

  // ----- the text that gets across -----

  function Join(blocks: seq<Bytes>): Bytes {
    if blocks == [] then [] else blocks[0] + Join(blocks[1..])
  }

  /** The payload field of a frame. */
  function PayloadOf(frame: Bytes, mtu: nat): Bytes {
    if |frame| < mtu + 3 then [] else frame[3..mtu + 3]
  }

  /** The payloads of the acknowledged frames, in order. */
  function Acknowledged(done: seq<seq<Bytes>>, mtu: nat): seq<Bytes> {
    if done == [] then [] else Acknowledged(done[..|done| - 1], mtu) + [SettledPayload(done[|done| - 1], mtu)]
  }

  function SettledPayload(sends: seq<Bytes>, mtu: nat): Bytes {
    if sends == [] then [] else PayloadOf(sends[0], mtu)
  }

  lemma {:induction false} AcknowledgedBlocks(done: seq<seq<Bytes>>, first: nat, blocks: seq<Bytes>, crc: bool,
                                              mtu: nat)
    requires Mtu(mtu) && Numbered(done, first, blocks, crc) && forall b :: b in blocks ==> |b| == mtu
    ensures Acknowledged(done, mtu) == blocks[..|done|]
    decreases |done|
  {
    hide Frame, Number;
    if done != [] {
      var k := |done| - 1;
      AcknowledgedBlocks(done[..k], first, blocks, crc, mtu);
      assert done[k][0] == Frame(Number(first + k), blocks[k], crc);
      assert blocks[k] in blocks;
      FramePayload(Number(first + k), blocks[k], crc);
      assert blocks[..k + 1] == blocks[..k] + [blocks[k]];
    }
  }

  lemma FramePayload(no: bv8, payload: Bytes, crc: bool)
    ensures |Frame(no, payload, crc)| >= |payload| + 3
    ensures PayloadOf(Frame(no, payload, crc), |payload|) == payload
  {
    hide Check;
  }

  lemma {:induction false} JoinConcat(a: seq<Bytes>, b: seq<Bytes>)
    ensures Join(a + b) == Join(a) + Join(b)
    decreases |a|
  {
    if a == [] {
      assert a + b == b;
    } else {
      assert (a + b)[0] == a[0] && (a + b)[1..] == a[1..] + b;
      JoinConcat(a[1..], b);
    }
  }

  lemma {:induction false} JoinBlocks(blocks: seq<Bytes>, mtu: nat)
    requires forall i :: 0 <= i < |blocks| ==> |blocks[i]| == mtu
    ensures |Join(blocks)| == |blocks| * mtu
    decreases |blocks|
  {
    if blocks != [] {
      JoinBlocks(blocks[1..], mtu);
    }
  }

  /** Blocks of length mtu joined together: the inverse of Chop on whole blocks. */
  lemma {:induction false} JoinChop(s: Bytes, mtu: nat)
    requires mtu > 0 && |s| % mtu == 0
    ensures Join(Chop(s, mtu)) == s
    decreases |s|
  {
    if |s| < mtu {
      NoRemainder(|s|, mtu);
    } else {
      OneBlockLess(|s|, mtu);
      JoinChop(s[mtu..], mtu);
      JoinFirst(s[..mtu], Chop(s[mtu..], mtu));
      assert s == s[..mtu] + s[mtu..];
    }
  }

  lemma NoRemainder(n: nat, mtu: nat)
    requires n < mtu && n % mtu == 0
    ensures n == 0
  {
  }

  lemma JoinFirst(b: Bytes, rest: seq<Bytes>)
    ensures Join([b] + rest) == b + Join(rest)
  {
    assert ([b] + rest)[1..] == rest;
  }

  lemma JoinChopped(s: Bytes, mtu: nat, k: nat)
    requires mtu > 0 && |s| % mtu == 0 && k <= |Chop(s, mtu)|
    ensures k * mtu <= |s| && Join(Chop(s, mtu)[..k]) == s[..k * mtu]
  {
    hide Chop, Join;
    var c := Chop(s, mtu);
    JoinChop(s, mtu);
    assert c == c[..k] + c[k..];
    JoinConcat(c[..k], c[k..]);
    assert forall i :: 0 <= i < k ==> c[..k][i] in c;
    JoinBlocks(c[..k], mtu);
  }

  lemma OneBlockLess(n: nat, mtu: nat)
    requires 0 < mtu <= n
    ensures (n - mtu) % mtu == n % mtu && (n - mtu) / mtu == n / mtu - 1
  {
    var q, r := n / mtu, n % mtu;
    assert n == q * mtu + r;
    assert n - mtu == (q - 1) * mtu + r;
    Quotient(n - mtu, q - 1, r, mtu);
  }

  lemma Quotient(n: nat, q: int, r: nat, mtu: nat)
    requires r < mtu && n == q * mtu + r
    ensures n / mtu == q && n % mtu == r
  {
    var d := n / mtu - q;
    assert n == n / mtu * mtu + n % mtu;
    assert d * mtu == r - n % mtu by { Distribute(n / mtu, q, mtu); }
    Small(d, mtu, r - n % mtu);
  }

  lemma Distribute(a: int, b: int, m: int)
    ensures (a - b) * m == a * m - b * m
  {
  }

  lemma Small(d: int, m: int, x: int)
    requires d * m == x && -m < x < m
    ensures d == 0
  {
    if d > 0 {
      AtLeast(d, m);
    } else if d < 0 {
      AtLeast(-d, m);
    }
  }

  lemma AtLeast(d: int, m: int)
    requires d > 0 && m > 0
    ensures d * m >= m
  {
    assert (d - 1) * m >= 0;
  }

  lemma {:induction false} ChopCount(s: Bytes, mtu: nat)
    requires mtu > 0
    ensures |Chop(s, mtu)| == |s| / mtu
    decreases |s|
  {
    if |s| >= mtu {
      ChopCount(s[mtu..], mtu);
      OneBlockLess(|s|, mtu);
    }
  }

  /** floor(n / mtu) + 1 blocks carry a text of n bytes. */
  lemma PaddedCount(src: Bytes, mtu: int)
    requires Mtu(mtu)
    ensures |Chop(Padded(src, mtu), mtu)| == |src| / mtu + 1
    ensures |Padded(src, mtu)| == (|src| / mtu + 1) * mtu
  {
    hide Padded;
    PaddedLength(src, mtu);
    ChopCount(Padded(src, mtu), mtu);
    assert |src| == |src| / mtu * mtu + |src| % mtu;
  }

  function StripFill(s: Bytes): Bytes {
    if s != [] && s[|s| - 1] == PAD then StripFill(s[..|s| - 1]) else s
  }

  /** What the receiver does at the end: drops the filling and the end mark. */
  function Strip(s: Bytes): Bytes {
    var t := StripFill(s);
    if t != [] && t[|t| - 1] == CTRLZ then t[..|t| - 1] else t
  }

  lemma {:induction false} StripFilled(s: Bytes, n: nat)
    requires s != [] && s[|s| - 1] != PAD
    ensures StripFill(s + seq(n, _ => PAD)) == s
    decreases n
  {
    var t := s + seq(n, _ => PAD);
    if n == 0 {
      assert t == s;
    } else {
      assert t[..|t| - 1] == s + seq(n - 1, _ => PAD);
      StripFilled(s, n - 1);
    }
  }

  lemma StripPadded(src: Bytes, mtu: int)
    requires Mtu(mtu)
    ensures Strip(Padded(src, mtu)) == src
  {
    hide StripFill;
    var t := src + [CTRLZ];
    StripFilled(t, mtu - 1 - |src| % mtu);
    assert t[..|t| - 1] == src;
  }

  lemma {:induction false} EotWatched(line: Line, no: bv8, cursor: nat, tries: nat, w: Seen)
    requires !w.awaiting
    ensures Watch(w, SendEot(line, no, cursor, tries).events) == w
    decreases tries
  {
    hide Watch;
    NothingSeen(w);
    if tries > 0 {
      var r := line(cursor);
      WatchTwo(w, Out(EOT), Rx(r));
      if r.b != ACK {
        EotWatched(line, no, cursor + 1, tries - 1, w);
        WatchConcat(w, [Out(EOT), Rx(r)], SendEot(line, no, cursor + 1, tries - 1).events);
      }
    }
  }

  /** What the acknowledged blocks of a padded text add up to. */
  lemma AcknowledgedText(w: Seen, src: Bytes, mtu: int, crc: bool)
    requires Mtu(mtu) && Numbered(w.done, 1, Chop(Padded(src, mtu), mtu), crc)
    ensures |w.done| <= |src| / mtu + 1 == |Chop(Padded(src, mtu), mtu)|
    ensures var text := Join(Acknowledged(w.done, mtu));
      && |text| == |w.done| * mtu && text <= Padded(src, mtu)
      && (|w.done| == |src| / mtu + 1 ==> text == Padded(src, mtu))
  {
    hide Padded, Chop, Join, Acknowledged;
    var text := Padded(src, mtu);
    assert |w.done| <= |Chop(text, mtu)| by { NumberedLength(w.done, 1, Chop(text, mtu), crc); }
    hide Numbered;
    PaddedLength(src, mtu);
    PaddedCount(src, mtu);
    AcknowledgedBlocks(w.done, 1, Chop(text, mtu), crc, mtu);
    JoinChopped(text, mtu, |w.done|);
    if |w.done| == |src| / mtu + 1 {
      assert text[..|text|] == text;
    }
  }

  /** The observer's record of a whole transfer is that of its blocks: the end of transmission
      adds nothing to it. */
  lemma WholeWatched(line: Line, cursor: nat, src: Bytes, mtu: int, crc: bool)
    requires Mtu(mtu)
    ensures var blocks := Chop(Padded(src, mtu), mtu);
      var r := SendAll(line, 1, cursor, src, mtu, crc);
      var w := Watch(NOTHING, r.events);
      && Numbered(w.done, 1, blocks, crc)
      && (r.code in {0, -5} <==> |w.done| == |blocks|)
      && (r.code !in {0, -5} ==> Repeats(w.current, Frame(Number(1 + |w.done|), blocks[|w.done|], crc)))
  {
    hide Padded, SendBlocks, SendEot, Chop, Watch, Repeats, Frame;
    var blocks := Chop(Padded(src, mtu), mtu);
    var b := SendBlocks(line, 1, cursor, blocks, crc);
    var w := Watch(NOTHING, b.events);
    assert Number(1) == 1;
    OneStream(line, 1, cursor, blocks, crc);
    BlocksCode(line, 1, cursor, blocks, crc);
    EotCode(line, b.no, b.cursor, 10);
    EotWatched(line, b.no, b.cursor, 10, w);
    WatchConcat(NOTHING, b.events, SendEot(line, b.no, b.cursor, 10).events);
  }

  /** The stream, for every text and every line: the acknowledged payloads are a prefix of the
      text with its end mark and filling, and all of it exactly when every block went through;
      then stripping it gives the text back. */
  lemma TextGetsAcross(line: Line, cursor: nat, src: Bytes, mtu: int, crc: bool)
    requires Mtu(mtu)
    ensures var r := SendAll(line, 1, cursor, src, mtu, crc);
      var done := Watch(NOTHING, r.events).done;
      var text := Join(Acknowledged(done, mtu));
      && |done| <= |src| / mtu + 1
      && text <= Padded(src, mtu)
      && (r.code in {0, -5} <==> |done| == |src| / mtu + 1)
      && (r.code in {0, -5} ==> text == Padded(src, mtu) && Strip(text) == src)
  {
    hide Padded, SendAll, Chop, Watch, Strip, Join, Acknowledged, Frame, Number, Repeats, Numbered;
    WholeWatched(line, cursor, src, mtu, crc);
    AcknowledgedText(Watch(NOTHING, SendAll(line, 1, cursor, src, mtu, crc).events), src, mtu, crc);
    StripPadded(src, mtu);
  }

  lemma {:induction false} BlocksCode(line: Line, no: bv8, cursor: nat, blocks: seq<Bytes>, crc: bool)
    ensures SendBlocks(line, no, cursor, blocks, crc).code in {0, -1, -4}
    decreases blocks
  {
    hide SendFrame, Frame;
    if blocks != [] {
      var e := SendFrame(line, cursor, Frame(no, blocks[0], crc), MAXRETRANS);
      BlocksCode(line, no + 1, e.cursor, blocks[1..], crc);
    }
  }

  lemma {:induction false} EotCode(line: Line, no: bv8, cursor: nat, tries: nat)
    ensures SendEot(line, no, cursor, tries).code in {0, -5}
    decreases tries
  {
    if tries > 0 {
      EotCode(line, no, cursor + 1, tries - 1);
    }
  }
}
