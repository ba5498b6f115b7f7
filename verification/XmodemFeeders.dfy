/** The two programs that cut an image into transfer calls: from a flash partition in chunks of
    1024 bytes (third_party_mcu_ota.c), and from an HTTP body that arrives in chunks of any length
    and is gathered into a 128-byte buffer (miio_command_functions.c).  Neither the chunks nor the
    buffer show on the line. */
module XmodemFeeders {
  import opened Crc16
  import opened Xmodem
  import opened XmodemRuns

  const MTU := 128
  const FLASH_CHUNK := 1024

  // ----- cutting a text does not show -----

  lemma {:induction false} ChopConcat(a: Bytes, b: Bytes, mtu: nat)
    requires mtu > 0 && |a| % mtu == 0
    ensures Chop(a + b, mtu) == Chop(a, mtu) + Chop(b, mtu)
    decreases |a|
  {
    if |a| < mtu {
      NoRemainder(|a|, mtu);
      assert a + b == b;
    } else {
      OneBlockLess(|a|, mtu);
      ChopConcat(a[mtu..], b, mtu);
      assert (a + b)[..mtu] == a[..mtu] && (a + b)[mtu..] == a[mtu..] + b;
    }
  }

  lemma PaddedConcat(a: Bytes, b: Bytes)
    requires |a| % MTU == 0
    ensures Padded(a + b, MTU) == a + Padded(b, MTU)
  {
    assert |a + b| % MTU == |b| % MTU;
  }

  /** Sending a text whole, or its first whole blocks and then the rest. */
  lemma SendAllSplit(line: Line, no: bv8, cursor: nat, a: Bytes, b: Bytes, crc: bool)
    requires |a| % MTU == 0
    ensures var r := SendBlocks(line, no, cursor, Chop(a, MTU), crc);
      SendAll(line, no, cursor, a + b, MTU, crc)
        == if r.code != 0 then r else Then(r.events, SendAll(line, r.no, r.cursor, b, MTU, crc))
  {
    hide SendBlocks, SendEot, Chop, Padded;
    var r := SendBlocks(line, no, cursor, Chop(a, MTU), crc);
    PaddedConcat(a, b);
    ChopConcat(a, Padded(b, MTU), MTU);
    SendBlocksConcat(line, no, cursor, Chop(a, MTU), Chop(Padded(b, MTU), MTU), crc);
    var s := SendBlocks(line, r.no, r.cursor, Chop(Padded(b, MTU), MTU), crc);
    ThenThen(r.events, s.events, SendEot(line, s.no, s.cursor, 10));
  }

  /** `text` has gone out and been accepted, as `shown`. */
  ghost predicate Sent(line: Line, from: nat, crc: bool, text: Bytes, no: bv8, cursor: nat, shown: seq<Event>) {
    |text| % MTU == 0 && SendBlocks(line, 1, from, Chop(text, MTU), crc) == Run(0, no, cursor, shown)
  }

  lemma NothingSent(line: Line, from: nat, crc: bool)
    ensures Sent(line, from, crc, [], 1, from, [])
  {
  }

  /** One more call: it adds its chunk, or its failure is the failure of the whole. */
  lemma SentMore(line: Line, from: nat, crc: bool, text: Bytes, no: bv8, cursor: nat, shown: seq<Event>,
                 chunk: Bytes, rest: Bytes)
    requires Sent(line, from, crc, text, no, cursor, shown) && |chunk| % MTU == 0
    ensures var r := SendBlocks(line, no, cursor, Chop(chunk, MTU), crc);
      && (r.code == 0 ==> Sent(line, from, crc, text + chunk, r.no, r.cursor, shown + r.events))
      && (r.code != 0 ==>
        && SendAll(line, 1, from, text + chunk + rest, MTU, crc) == Then(shown, r)
        && SendBlocks(line, 1, from, Chop(text + chunk + rest, MTU), crc) == Then(shown, r))
  {
    hide SendBlocks, Chop;
    ChopConcat(text, chunk, MTU);
    SendBlocksConcat(line, 1, from, Chop(text, MTU), Chop(chunk, MTU), crc);
    ChopConcat(text + chunk, rest, MTU);
    SendBlocksConcat(line, 1, from, Chop(text + chunk, MTU), Chop(rest, MTU), crc);
    SendAllSplit(line, 1, from, text + chunk, rest, crc);
  }

  lemma SentEnds(line: Line, from: nat, crc: bool, text: Bytes, no: bv8, cursor: nat, shown: seq<Event>, rest: Bytes)
    requires Sent(line, from, crc, text, no, cursor, shown)
    ensures SendAll(line, 1, from, text + rest, MTU, crc) == Then(shown, SendAll(line, no, cursor, rest, MTU, crc))
  {
    hide SendBlocks, SendAll, Chop;
    SendAllSplit(line, 1, from, text, rest, crc);
  }

  // ----- from flash -----

  /** The stretch of flash that is the image. */
  function Image(flash: nat -> bv8, base: nat, n: nat): Bytes {
    seq(n, i requires 0 <= i => flash(base + i))
  }

  /** The first chunk, from `off` on, that the flash driver fails to read; n when there is none. */
  function FirstBad(driver: nat -> int, base: nat, n: nat, off: nat): (r: nat)
    ensures off <= n ==> off <= r <= n
    decreases n - off
  {
    if off >= n then n
    else if driver(base + off) != 0 then off
    else if off + FLASH_CHUNK >= n then n
    else FirstBad(driver, base, n, off + FLASH_CHUNK)
  }

  /** What a transfer from flash does when the read at `bad` fails (none when that is the length).
      An empty image sends nothing at all. */
  function FlashRun(line: Line, from: nat, crc: bool, image: Bytes, bad: nat, error: int): Run
    requires bad <= |image|
  {
    if image == [] then Run(0, 1, from, [])
    else if bad == |image| then SendAll(line, 1, from, image, MTU, crc)
    else
      var r := SendBlocks(line, 1, from, Chop(image[..bad], MTU), crc);
      if r.code != 0 then r else Run(error, r.no, r.cursor, r.events + THREE_CAN)
  }

  /** The first `copied` bytes of the image are through; once that is all of it, so is the end. */
  ghost predicate Through(line: Line, from: nat, crc: bool, image: Bytes, copied: nat, no: bv8, cursor: nat,
                          shown: seq<Event>)
  {
    copied <= |image|
    && if copied < |image| || image == [] then Sent(line, from, crc, image[..copied], no, cursor, shown)
       else SendAll(line, 1, from, image, MTU, crc) == Run(0, no, cursor, shown)
  }

  /** One chunk: plain data while more follows, the closing call for the last. */
  method SendChunk(s: Sender, crc: bool, buf: Bytes, last: bool, ghost from: nat, ghost image: Bytes,
                   ghost copied: nat, ghost bad: nat, ghost error: int, ghost shown: seq<Event>)
    returns (ret: int, ghost after: seq<Event>)
    requires copied + |buf| <= bad <= |image| && buf != [] && buf == image[copied..copied + |buf|]
    requires last == (copied + |buf| == |image|)
    requires !last ==> |buf| % MTU == 0
    requires Through(s.line, from, crc, image, copied, s.packetno, s.cursor, shown)
    modifies s
    ensures s.log == old(s.log) + after
    ensures ret == 0 ==> Through(s.line, from, crc, image, copied + |buf|, s.packetno, s.cursor, shown + after)
    ensures ret != 0 ==>
      FlashRun(s.line, from, crc, image, bad, error) == Run(ret, s.packetno, s.cursor, shown + after)
  {
    hide SendBlocks, SendAll, Chop, Sent;
    ghost var text, no, cursor := image[..copied], s.packetno, s.cursor;
    assert text + buf == image[..copied + |buf|];
    if !last {
      ret := s.TransferData(crc, buf, MTU);
      after := SendBlocks(s.line, no, cursor, Chop(buf, MTU), crc).events;
      SentMore(s.line, from, crc, text, no, cursor, shown, buf, []);
      if ret != 0 {
        FailsBefore(s.line, from, crc, text, no, cursor, shown, buf, image, bad, error);
      }
    } else {
      assert image == text + buf;
      SentEnds(s.line, from, crc, text, no, cursor, shown, buf);
      ret := s.TransferEnd(crc, buf, MTU);
      after := SendAll(s.line, no, cursor, buf, MTU, crc).events;
    }
  }

  /** The chunk loop of mcu_ota_from_flash, with the header read and the uart open. */
  method FromFlash(s: Sender, flash: nat -> bv8, driver: nat -> int, base: nat, partition: nat,
                   n: nat) returns (ret: int)
    modifies s
    ensures partition < n ==> ret == -1 && s.log == old(s.log) && s.cursor == old(s.cursor)
    ensures n <= partition ==>
      var c := GetCrc(s.line, old(s.cursor), 16);
      if c.code < 0 then ret == c.code && s.cursor == c.cursor && s.log == old(s.log) + c.events
      else
        var bad := FirstBad(driver, base, n, 0);
        var r := FlashRun(s.line, c.cursor, c.crc, Image(flash, base, n), bad, driver(base + bad));
        ret == r.code && s.cursor == r.cursor && s.log == old(s.log) + c.events + r.events
  {
    hide GetCrc, Through, Image, FirstBad, FlashRun;
    if partition < n {
      return -1;
    }
    GetCrcCode(s.line, s.cursor, 16);
    var crc: bool;
    ret, crc := s.GetCrcConfig();
    if ret < 0 {
      return;
    }
    ghost var was, from, shown: seq<Event> := s.log, s.cursor, [];
    ghost var image, bad := Image(flash, base, n), FirstBad(driver, base, n, 0);
    ImageLength(flash, base, n);
    NothingThrough(s.line, from, crc, image);
    var copied := 0;
    while copied < n
      invariant copied <= n && (copied < n ==> copied % FLASH_CHUNK == 0) && ret == 0
      invariant bad == FirstBad(driver, base, n, copied)
      invariant s.log == was + shown
      invariant Through(s.line, from, crc, image, copied, s.packetno, s.cursor, shown)
    {
      var toRead := if n - copied > FLASH_CHUNK then FLASH_CHUNK else n - copied;
      NextChunk(driver, base, n, copied);
      ret := driver(base + copied);
      if ret != 0 {
        ThroughStops(s.line, from, crc, image, copied, ret, s.packetno, s.cursor, shown);
        s.Cancel();
        return;
      }
      var buf := Image(flash, base + copied, toRead);
      ImagePart(flash, base, n, copied, toRead);
      ghost var after;
      ret, after := SendChunk(s, crc, buf, copied + toRead == n, from, image, copied, bad, driver(base + bad), shown);
      shown := shown + after;
      if ret != 0 {
        return;
      }
      copied := copied + toRead;
    }
    NoneBad(driver, base, n);
    ThroughAll(s.line, from, crc, image, driver(base + bad), s.packetno, s.cursor, shown);
  }

  lemma NothingThrough(line: Line, from: nat, crc: bool, image: Bytes)
    ensures Through(line, from, crc, image, 0, 1, from, [])
  {
    hide Sent;
    NothingSent(line, from, crc);
    assert image[..0] == [];
    if image == [] {
      assert image[..|image|] == [];
    }
  }

  lemma ThroughStops(line: Line, from: nat, crc: bool, image: Bytes, copied: nat, error: int,
                     no: bv8, cursor: nat, shown: seq<Event>)
    requires Through(line, from, crc, image, copied, no, cursor, shown) && copied < |image|
    ensures FlashRun(line, from, crc, image, copied, error) == Run(error, no, cursor, shown + THREE_CAN)
  {
    hide SendBlocks, Chop;
  }

  lemma ThroughAll(line: Line, from: nat, crc: bool, image: Bytes, error: int, no: bv8, cursor: nat, shown: seq<Event>)
    requires Through(line, from, crc, image, |image|, no, cursor, shown)
    ensures var r := FlashRun(line, from, crc, image, |image|, error);
      r.code == 0 && r.cursor == cursor && r.events == shown
  {
    hide SendAll;
    if image == [] {
      assert image[..0] == [];
      assert Chop([], MTU) == [];
    }
  }

  lemma GetCrcCode(line: Line, cursor: nat, tries: nat)
    ensures GetCrc(line, cursor, tries).code in {0, -1, -2}
    decreases tries
  {
  }

  lemma ImageLength(flash: nat -> bv8, base: nat, n: nat)
    ensures |Image(flash, base, n)| == n
  {
  }

  lemma ImagePart(flash: nat -> bv8, base: nat, n: nat, off: nat, k: nat)
    requires off + k <= n
    ensures |Image(flash, base, n)| == n
    ensures Image(flash, base + off, k) == Image(flash, base, n)[off..off + k]
  {
  }

  lemma NextChunk(driver: nat -> int, base: nat, n: nat, off: nat)
    requires off < n
    ensures var r := FirstBad(driver, base, n, off);
      if driver(base + off) != 0 then r == off
      else if off + FLASH_CHUNK >= n then r == n
      else r == FirstBad(driver, base, n, off + FLASH_CHUNK) && r >= off + FLASH_CHUNK
  {
  }

  lemma NoneBad(driver: nat -> int, base: nat, n: nat)
    ensures FirstBad(driver, base, n, n) == n
  {
  }

  /** The reads are of 1024 bytes each; the first that fails is where the transfer stops. */
  lemma {:induction false} FirstBadIs(driver: nat -> int, base: nat, n: nat, off: nat)
    requires off % 1024 == 0 && off <= n
    ensures var bad := FirstBad(driver, base, n, off);
      && off <= bad <= n && (bad < n ==> bad % 1024 == 0 && driver(base + bad) != 0)
      && forall k: nat :: off <= 1024 * k < bad ==> driver(base + 1024 * k) == 0
    decreases n - off
  {
    if off < n && driver(base + off) == 0 && off + FLASH_CHUNK < n {
      FirstBadIs(driver, base, n, off + 1024);
    }
    var bad := FirstBad(driver, base, n, off);
    forall k: nat | off <= 1024 * k < bad
      ensures driver(base + 1024 * k) == 0
    {
      if 1024 * k < off + 1024 {
        OneMultiple(off, 1024 * k, k);
      }
    }
  }

  lemma OneMultiple(off: nat, m: nat, k: nat)
    requires off % 1024 == 0 && m == 1024 * k && off <= m < off + 1024
    ensures m == off
  {
  }

  /** A read that fails after the first `bad` bytes: the receiver is sent the blocks before it, and if
      all of them are through then three 0x18 and the error is the result; else the result is that of
      the block that was not. */
  lemma FailedRead(line: Line, from: nat, crc: bool, image: Bytes, bad: nat, error: int)
    requires bad < |image| && bad % 1024 == 0
    ensures var r := FlashRun(line, from, crc, image, bad, error);
      var done := Watch(NOTHING, r.events).done;
      && |done| <= bad / 128
      && Numbered(done, 1, Chop(image[..bad], 128), crc)
      && (|done| == bad / 128 ==>
           r.code == error && |r.events| >= 3 && r.events[|r.events| - 3..] == [Out(0x18), Out(0x18), Out(0x18)])
      && (|done| < bad / 128 ==> r.code in {-1, -4})
  {
    hide SendBlocks, Watch, Chop, Repeats, Number;
    var blocks := Chop(image[..bad], 128);
    var r := SendBlocks(line, 1, from, blocks, crc);
    ChopCount(image[..bad], 128);
    NumberOne();
    OneStream(line, 1, from, blocks, crc);
    BlocksCode(line, 1, from, blocks, crc);
    CancelKeeps(r.events);
    var events := r.events + THREE_CAN;
    assert events[|events| - 3..] == THREE_CAN;
  }

  lemma NumberOne()
    ensures Number(1) == 1
  {
  }

  lemma CancelKeeps(a: seq<Event>)
    ensures Watch(NOTHING, a + THREE_CAN).done == Watch(NOTHING, a).done
  {
    hide Watch;
    var w := Watch(NOTHING, a);
    WatchConcat(NOTHING, a, THREE_CAN);
    assert THREE_CAN == [Out(CAN), Out(CAN)] + [Out(CAN)];
    WatchConcat(w, [Out(CAN), Out(CAN)], [Out(CAN)]);
    WatchTwo(w, Out(CAN), Out(CAN));
    WatchOne(See(See(w, Out(CAN)), Out(CAN)), Out(CAN));
  }

  /** A failed call decides the run of the whole image, wherever a later read might fail. */
  lemma FailsBefore(line: Line, from: nat, crc: bool, text: Bytes, no: bv8, cursor: nat, shown: seq<Event>,
                    chunk: Bytes, image: Bytes, bad: nat, error: int)
    requires Sent(line, from, crc, text, no, cursor, shown) && |chunk| % MTU == 0
    requires text + chunk <= image && |text + chunk| <= bad <= |image| && image != []
    requires SendBlocks(line, no, cursor, Chop(chunk, MTU), crc).code != 0
    ensures FlashRun(line, from, crc, image, bad, error)
      == Then(shown, SendBlocks(line, no, cursor, Chop(chunk, MTU), crc))
  {
    hide SendBlocks, SendAll, Chop, Sent;
    assert image[..bad] == text + chunk + image[|text + chunk|..bad];
    SentMore(line, from, crc, text, no, cursor, shown, chunk, image[|text + chunk|..bad]);
    if bad == |image| {
      assert image[..bad] == image;
    }
  }

  // ----- from HTTP -----

  /** One read of the body. */
  datatype Read = Data(b: Bytes) | End | Failed

  /** The bytes before the end of the body or a failed read. */
  function Body(answers: seq<Read>): Bytes {
    if answers == [] || !answers[0].Data? then [] else answers[0].b + Body(answers[1..])
  }

  predicate Complete(answers: seq<Read>) {
    answers == [] || answers[0].End? || (answers[0].Data? && Complete(answers[1..]))
  }

  /** How much of n bytes has left the buffer when it holds what it can: the last 1 to 128 stay. */
  function Flushed(n: nat): (r: nat)
    ensures r <= n && r % MTU == 0 && n - r <= MTU && (n > 0 ==> r < n)
  {
    if n == 0 then 0 else (n - 1) / MTU * MTU
  }

  lemma FlushedIs(n: nat, r: nat)
    requires r <= n <= r + MTU && r % MTU == 0 && (n > 0 ==> r < n)
    ensures Flushed(n) == r
  {
  }

  datatype Download = Download(ok: bool, cursor: nat, events: seq<Event>)

  /** What a download does with a body.  A failure of the closing call is not reported. */
  function HttpRun(line: Line, from: nat, crc: bool, image: Bytes, complete: bool): Download {
    var r := SendBlocks(line, 1, from, Chop(image[..Flushed(|image|)], MTU), crc);
    if r.code != 0 then Download(false, r.cursor, r.events)
    else if complete then
      var all := SendAll(line, 1, from, image, MTU, crc);
      Download(true, all.cursor, all.events)
    else Download(true, r.cursor, r.events + THREE_CAN)
  }

  /** Puts bytes behind what the buffer holds: memcpy(uart_buf + uart_buflen, ...). */
  method Append(buf: array<bv8>, len: nat, bytes: Bytes)
    requires len + |bytes| <= buf.Length
    modifies buf
    ensures buf[..len + |bytes|] == old(buf[..len]) + bytes
  {
    var i := 0;
    while i < |bytes|
      invariant i <= |bytes|
      invariant buf[..len + i] == old(buf[..len]) + bytes[..i]
    {
      buf[len + i] := bytes[i];
      assert buf[..len + i + 1] == buf[..len + i] + [bytes[i]];
      i := i + 1;
    }
  }

  /** Of the bytes taken so far the last ones are held in the buffer, and all before are sent. */
  ghost predicate Holding(line: Line, from: nat, crc: bool, taken: Bytes, held: Bytes, no: bv8, cursor: nat,
                          shown: seq<Event>)
  {
    |held| <= |taken| && taken[|taken| - |held|..] == held
    && Sent(line, from, crc, taken[..|taken| - |held|], no, cursor, shown)
  }

  lemma HoldingMore(line: Line, from: nat, crc: bool, taken: Bytes, held: Bytes, no: bv8, cursor: nat,
                    shown: seq<Event>, more: Bytes)
    requires Holding(line, from, crc, taken, held, no, cursor, shown)
    ensures Holding(line, from, crc, taken + more, held + more, no, cursor, shown)
  {
    hide Sent;
    var all := taken + more;
    assert all[..|taken| - |held|] == taken[..|taken| - |held|];
    assert all[|taken| - |held|..] == taken[|taken| - |held|..] + more;
  }

  /** The full buffer is sent because `rest` follows. */
  lemma HoldingSent(line: Line, from: nat, crc: bool, taken: Bytes, held: Bytes, no: bv8, cursor: nat,
                    shown: seq<Event>, rest: Bytes)
    requires Holding(line, from, crc, taken, held, no, cursor, shown) && |held| == MTU && rest != []
    ensures var r := SendBlocks(line, no, cursor, Chop(held, MTU), crc);
      && (r.code == 0 ==> Holding(line, from, crc, taken, [], r.no, r.cursor, shown + r.events))
      && (r.code != 0 ==> forall complete ::
        HttpRun(line, from, crc, taken + rest, complete) == Download(false, r.cursor, shown + r.events))
  {
    hide SendBlocks, Chop, Flushed, Sent;
    var text := taken[..|taken| - |held|];
    assert taken == text + held && taken[..|taken|] == taken;
    SentLength(line, from, crc, text, no, cursor, shown);
    FlushedMore(|taken + rest|, |text|);
    var flushed := Flushed(|taken + rest|);
    var more := (taken + rest)[|taken|..flushed];
    assert (taken + rest)[..flushed] == text + held + more;
    SentMore(line, from, crc, text, no, cursor, shown, held, more);
  }

  lemma HoldingEnds(line: Line, from: nat, crc: bool, image: Bytes, held: Bytes, no: bv8, cursor: nat,
                    shown: seq<Event>)
    requires Holding(line, from, crc, image, held, no, cursor, shown)
    requires |held| <= MTU && (image != [] ==> held != [])
    ensures HttpRun(line, from, crc, image, false) == Download(true, cursor, shown + THREE_CAN)
    ensures var r := SendAll(line, no, cursor, held, MTU, crc);
      HttpRun(line, from, crc, image, true) == Download(true, r.cursor, shown + r.events)
  {
    hide SendBlocks, SendAll, Chop, Flushed, Sent;
    var text := image[..|image| - |held|];
    assert image == text + held;
    SentLength(line, from, crc, text, no, cursor, shown);
    FlushedIs(|image|, |text|);
    SentWhole(line, from, crc, text, no, cursor, shown);
    SentEnds(line, from, crc, text, no, cursor, shown, held);
  }

  /** The inner loop of _do_dl2uart: one chunk of the body goes through the buffer.  When the
      buffer is full and more follows, it is sent; `done` is false when that failed. */
  method Gather(s: Sender, crc: bool, uart: array<bv8>, held: nat, chunk: Bytes,
                ghost from: nat, ghost before: Bytes, ghost shown: seq<Event>, ghost rest: Bytes)
    returns (done: bool, len: nat, ghost after: seq<Event>)
    requires uart.Length == MTU && held <= MTU && chunk != []
    requires Holding(s.line, from, crc, before, uart[..held], s.packetno, s.cursor, shown)
    modifies s, uart
    ensures s.log == old(s.log) + after
    ensures done ==> 0 < len <= MTU
    ensures done ==> Holding(s.line, from, crc, before + chunk, uart[..len], s.packetno, s.cursor, shown + after)
    ensures !done ==> forall complete ::
      HttpRun(s.line, from, crc, before + chunk + rest, complete) == Download(false, s.cursor, shown + after)
  {
    hide SendBlocks, Chop, Holding, HttpRun;
    ghost var was := s.log;
    after := [];
    len := held;
    var offset := 0;
    assert before + chunk[..0] == before && shown + [] == shown;
    while true
      invariant 0 <= offset < |chunk| && len <= MTU
      invariant s.log == was + after
      invariant Holding(s.line, from, crc, before + chunk[..offset], uart[..len], s.packetno, s.cursor, shown + after)
      decreases |chunk| - offset, len
    {
      var need := MTU - len;
      ghost var taken, no, cursor := before + chunk[..offset], s.packetno, s.cursor;
      if |chunk| - offset > need {
        var part := chunk[offset..offset + need];
        HoldingMore(s.line, from, crc, taken, uart[..len], no, cursor, shown + after, part);
        assert taken + part == before + chunk[..offset + need];
        Append(uart, len, part);
        assert before + chunk[..offset + need] + (chunk[offset + need..] + rest) == before + chunk + rest;
        HoldingSent(s.line, from, crc, taken + part, uart[..MTU], no, cursor, shown + after, chunk[offset
          + need..] + rest);
        ghost var r := SendBlocks(s.line, no, cursor, Chop(uart[..MTU], MTU), crc);
        var status := s.TransferData(crc, uart[..MTU], MTU);
        assert (shown + after) + r.events == shown + (after + r.events);
        after := after + r.events;
        len := 0;
        offset := offset + need;
        if status != 0 {
          return false, 0, after;
        }
        assert uart[..0] == [];
      } else {
        HoldingMore(s.line, from, crc, taken, uart[..len], no, cursor, shown + after, chunk[offset..]);
        assert taken + chunk[offset..] == before + chunk;
        Append(uart, len, chunk[offset..]);
        return true, len + (|chunk| - offset), after;
      }
    }
  }

  lemma SentLength(line: Line, from: nat, crc: bool, text: Bytes, no: bv8, cursor: nat, shown: seq<Event>)
    requires Sent(line, from, crc, text, no, cursor, shown)
    ensures |text| % MTU == 0
  {
  }

  lemma SentWhole(line: Line, from: nat, crc: bool, text: Bytes, no: bv8, cursor: nat, shown: seq<Event>)
    requires Sent(line, from, crc, text, no, cursor, shown)
    ensures SendBlocks(line, 1, from, Chop(text, MTU), crc) == Run(0, no, cursor, shown)
  {
  }

  lemma FlushedMore(n: nat, r: nat)
    requires r + MTU < n && r % MTU == 0
    ensures Flushed(n) >= r + MTU && (Flushed(n) - r) % MTU == 0
  {
  }

  /** The body of _do_dl2uart, with the uart and the session open. */
  method FromHttp(s: Sender, answers: seq<Read>) returns (ok: bool)
    requires forall i :: 0 <= i < |answers| && answers[i].Data? ==> answers[i].b != []
    modifies s
    ensures var c := GetCrc(s.line, old(s.cursor), 16);
      if c.code < 0 then !ok && s.cursor == c.cursor && s.log == old(s.log) + c.events
      else
        var r := HttpRun(s.line, c.cursor, c.crc, Body(answers), Complete(answers));
        ok == r.ok && s.cursor == r.cursor && s.log == old(s.log) + c.events + r.events
  {
    hide GetCrc, Holding, HttpRun, SendAll, Body, Complete;
    GetCrcCode(s.line, s.cursor, 16);
    var status, crc := s.GetCrcConfig();
    if status < 0 {
      return false;
    }
    var uart := new bv8[MTU];
    var len: nat, i := 0, 0;
    ghost var was, from, shown, taken, image := s.log, s.cursor, [], [], Body(answers);
    NothingHeld(s.line, from, crc);
    assert answers[0..] == answers && uart[..0] == [];
    while true
      invariant 0 <= i <= |answers| && fresh(uart) && uart.Length == MTU
      invariant len <= MTU && (taken != [] ==> len > 0)
      invariant image == taken + Body(answers[i..]) && Complete(answers) == Complete(answers[i..])
      invariant s.log == was + shown
      invariant Holding(s.line, from, crc, taken, uart[..len], s.packetno, s.cursor, shown)
      decreases |answers| - i
    {
      BodyAt(answers, i);
      if i < |answers| && answers[i].Data? {
        ghost var rest := Body(answers[i + 1..]);
        assert image == taken + answers[i].b + rest;
        ghost var after;
        var done;
        done, len, after := Gather(s, crc, uart, len, answers[i].b, from, taken, shown, rest);
        shown := shown + after;
        if !done {
          return false;
        }
        taken := taken + answers[i].b;
        i := i + 1;
      } else {
        assert image == taken;
        HoldingEnds(s.line, from, crc, image, uart[..len], s.packetno, s.cursor, shown);
        if i == |answers| || answers[i].End? {
          var _ := s.TransferEnd(crc, uart[..len], MTU);
        } else {
          s.Cancel();
        }
        return true;
      }
    }
  }

  lemma BodyAt(answers: seq<Read>, i: nat)
    requires i <= |answers|
    ensures var rest := answers[i..];
      if i < |answers| && answers[i].Data? then
        Body(rest) == answers[i].b + Body(answers[i + 1..]) && Complete(rest) == Complete(answers[i + 1..])
      else Body(rest) == [] && Complete(rest) == (i == |answers| || answers[i].End?)
  {
    if i < |answers| {
      assert answers[i..][1..] == answers[i + 1..];
    }
  }

  lemma NothingHeld(line: Line, from: nat, crc: bool)
    ensures Holding(line, from, crc, [], [], 1, from, [])
  {
    hide Sent;
    NothingSent(line, from, crc);
    var none: Bytes := [];
    assert none[..|none| - |none|] == [];
  }

  /** The same image gives the same line, whichever way it comes: nothing on the line depends on
      where it is stored or how the body was chunked. */
  lemma FeedersAgree(line: Line, from: nat, crc: bool, image: Bytes, error: int)
    requires image != []
    ensures var f := FlashRun(line, from, crc, image, |image|, error);
      var h := HttpRun(line, from, crc, image, true);
      && h.events == f.events && h.cursor == f.cursor
      && (f.code == 0 ==> h.ok)
      && (!h.ok ==> f.code in {-1, -4})
  {
    hide SendBlocks, Chop, SendAll;
    var n := Flushed(|image|);
    assert image == image[..n] + image[n..];
    SendAllSplit(line, 1, from, image[..n], image[n..], crc);
    BlocksCode(line, 1, from, Chop(image[..n], MTU), crc);
  }

  /** They part on the empty image: from flash nothing is sent, a download sends one block. */
  lemma EmptyImage(line: Line, from: nat, crc: bool, error: int)
    ensures FlashRun(line, from, crc, [], 0, error).events == []
    ensures Tx(Frame(1, [CTRLZ] + seq(MTU - 1, _ => PAD), crc)) in HttpRun(line, from, crc, [], true).events
  {
    hide Frame, SendFrame, SendEot;
    var block := [CTRLZ] + seq(MTU - 1, _ => PAD);
    assert Padded([], MTU) == block;
    assert block[..MTU] == block && block[MTU..] == [];
    assert Chop(block, MTU) == [block];
    var e := SendFrame(line, from, Frame(1, block, crc), MAXRETRANS);
    FirstIsSent(line, from, Frame(1, block, crc));
  }

  lemma FirstIsSent(line: Line, from: nat, frame: Bytes)
    ensures Tx(frame) in SendFrame(line, from, frame, MAXRETRANS).events
  {
    assert SendFrame(line, from, frame, MAXRETRANS).events[0] == Tx(frame);
  }

  // ----- what a download reports -----

  /** How many blocks an observer of the line saw acknowledged. */
  function Settled(events: seq<Event>): nat {
    |Watch(NOTHING, events).done|
  }

  lemma {:induction false} WatchGrows(w: Seen, events: seq<Event>)
    ensures |Watch(w, events).done| >= |w.done|
    decreases |events|
  {
    if events != [] {
      WatchGrows(See(w, events[0]), events[1..]);
    }
  }

  lemma SettledGrows(a: seq<Event>, b: seq<Event>)
    ensures Settled(a + b) >= Settled(a)
  {
    hide Watch;
    WatchConcat(NOTHING, a, b);
    WatchGrows(Watch(NOTHING, a), b);
  }

  lemma CancelSettles(a: seq<Event>)
    ensures Settled(a + THREE_CAN) == Settled(a)
  {
    hide Watch;
    CancelKeeps(a);
  }

  /** The blocks before the closing call: all acknowledged exactly when their calls succeed. */
  lemma FlushedSettled(line: Line, from: nat, crc: bool, image: Bytes)
    ensures var f := Flushed(|image|);
      var r := SendBlocks(line, 1, from, Chop(image[..f], MTU), crc);
      Settled(r.events) <= f / MTU && (r.code == 0 <==> Settled(r.events) == f / MTU)
  {
    hide SendBlocks, Watch, Repeats, Chop, Flushed;
    var blocks := Chop(image[..Flushed(|image|)], MTU);
    assert Number(1) == 1;
    OneStream(line, 1, from, blocks, crc);
    ChopCount(image[..Flushed(|image|)], MTU);
  }

  /** A download reports success exactly when the blocks before the closing call are through. */
  lemma ReportIs(line: Line, from: nat, crc: bool, image: Bytes, complete: bool)
    ensures var h := HttpRun(line, from, crc, image, complete);
      h.ok <==> Settled(h.events) >= Flushed(|image|) / MTU
  {
    hide SendBlocks, SendAll, Chop, Flushed, Settled;
    var n := Flushed(|image|);
    var r := SendBlocks(line, 1, from, Chop(image[..n], MTU), crc);
    FlushedSettled(line, from, crc, image);
    if r.code == 0 {
      if complete {
        assert image == image[..n] + image[n..];
        SendAllSplit(line, 1, from, image[..n], image[n..], crc);
        SettledGrows(r.events, SendAll(line, r.no, r.cursor, image[n..], MTU, crc).events);
      } else {
        CancelSettles(r.events);
      }
    }
  }

  /** What the acknowledged blocks of a record add up to. */
  function Across(events: seq<Event>): Bytes {
    Join(Acknowledged(Watch(NOTHING, events).done, MTU))
  }

  /** The report of a download whose body came to its end, against what the line shows.  The text is
      across exactly when all its blocks are acknowledged; so the report claims too much exactly when
      the last one or two blocks are not, and it agrees with the result of the transfer itself
      exactly when it is a failure or the transfer succeeded. */
  lemma ReportOfComplete(line: Line, from: nat, crc: bool, image: Bytes)
    ensures var h := HttpRun(line, from, crc, image, true);
      var code := SendAll(line, 1, from, image, MTU, crc).code;
      var n := Settled(h.events);
      && n <= |image| / MTU + 1
      && (Across(h.events) == Padded(image, MTU) <==> n == |image| / MTU + 1)
      && (h.ok && Across(h.events) != Padded(image, MTU) <==> Flushed(|image|) / MTU <= n <= |image| / MTU)
      && ((h.ok <==> code == 0) <==> n < Flushed(|image|) / MTU || code == 0)
  {
    hide SendBlocks, SendAll, Chop, Flushed, Padded, Watch, Join, Acknowledged;
    HttpShowsAll(line, from, crc, image);
    ReportIs(line, from, crc, image, true);
    TextGetsAcross(line, from, image, MTU, crc);
    FlushedBelow(|image|);
    SettledAcross(line, from, crc, image);
  }

  /** On the line a download whose body came to its end is one transfer of the whole of it. */
  lemma HttpShowsAll(line: Line, from: nat, crc: bool, image: Bytes)
    ensures HttpRun(line, from, crc, image, true).events == SendAll(line, 1, from, image, MTU, crc).events
    ensures !HttpRun(line, from, crc, image, true).ok ==> SendAll(line, 1, from, image, MTU, crc).code != 0
  {
    hide SendBlocks, SendAll, Chop, Flushed;
    var n := Flushed(|image|);
    assert image == image[..n] + image[n..];
    SendAllSplit(line, 1, from, image[..n], image[n..], crc);
  }

  lemma FlushedBelow(n: nat)
    ensures Flushed(n) / MTU <= n / MTU
  {
  }

  lemma SettledAcross(line: Line, from: nat, crc: bool, image: Bytes)
    ensures var events := SendAll(line, 1, from, image, MTU, crc).events;
      Across(events) == Padded(image, MTU) ==> Settled(events) == |image| / MTU + 1
  {
    hide Padded, SendAll, Chop, Watch, Join, Acknowledged, Numbered;
    WholeWatched(line, from, image, MTU, crc);
    AcknowledgedText(Watch(NOTHING, SendAll(line, 1, from, image, MTU, crc).events), image, MTU, crc);
    PaddedCount(image, MTU);
  }

  /** The report of a download whose body could not be read to its end: never is the text across. */
  lemma ReportOfBroken(line: Line, from: nat, crc: bool, image: Bytes)
    ensures var h := HttpRun(line, from, crc, image, false);
      Settled(h.events) <= Flushed(|image|) / MTU < |image| / MTU + 1
  {
    hide SendBlocks, Chop, Flushed, Settled;
    FlushedSettled(line, from, crc, image);
    FlushedBelow(|image|);
    CancelSettles(SendBlocks(line, 1, from, Chop(image[..Flushed(|image|)], MTU), crc).events);
  }

  /** A receiver that refuses everything. */
  function Refusing(): Line { _ => Byte(NAK) }

  lemma {:induction false} RefusedFrame(cursor: nat, frame: Bytes, tries: nat)
    ensures SendFrame(Refusing(), cursor, frame, tries).outcome == GaveUp
    decreases tries
  {
    if tries > 0 {
      RefusedFrame(cursor + 1, frame, tries - 1);
    }
  }

  /** A body of at most 128 bytes is reported as delivered whatever the line does, even where no
      block is ever acknowledged and the transfer gives up. */
  lemma ShortBodyReported(line: Line, from: nat, crc: bool, image: Bytes, complete: bool)
    requires |image| <= MTU
    ensures HttpRun(line, from, crc, image, complete).ok
    ensures var h := HttpRun(Refusing(), from, crc, image, true);
      h.ok && Settled(h.events) == 0 && SendAll(Refusing(), 1, from, image, MTU, crc).code == -4
  {
    hide SendBlocks, SendAll, Settled, Padded;
    assert Flushed(|image|) == 0;
    ReportIs(line, from, crc, image, complete);
    ReportIs(Refusing(), from, crc, image, true);
    NothingSettles(from, crc, image);
    HttpShowsAll(Refusing(), from, crc, image);
  }

  lemma NothingSettles(from: nat, crc: bool, image: Bytes)
    ensures var r := SendAll(Refusing(), 1, from, image, MTU, crc);
      r.code == -4 && Settled(r.events) == 0
  {
    hide Padded, SendFrame, Frame, SendEot, Chop, Watch;
    var text := Padded(image, MTU);
    PaddedCount(image, MTU);
    var blocks := Chop(text, MTU);
    var frame := Frame(1, blocks[0], crc);
    RefusedFrame(from, frame, MAXRETRANS);
    SendBlocksStep(Refusing(), 1, from, blocks, crc);
    FrameWatched(Refusing(), from, frame, MAXRETRANS, NOTHING);
  }
}
