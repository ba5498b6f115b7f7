/** The bytes of the two storage formats, one by one, and what becomes of entries that do not fit the
    partition or its one-byte name length. */
module PsmLayout {
  import opened PsmFormats
  import opened PsmConvert
  import opened PsmRecovery

  function Two(low: int, high: int): int { low + 0x100 * high }

  /** A number in four bytes, the lowest first. */
  function Number(b: Bytes): nat
    requires |b| == 4
  {
    Two(b[0], b[1]) + 0x1_0000 * Two(b[2], b[3])
  }

  lemma Quotients(n: nat)
    ensures n / 256 / 256 == n / 0x1_0000
    ensures n % 0x1_0000 == n % 256 + 256 * (n / 256 % 256)
  {
    var q, r := n / 0x1_0000, n % 0x1_0000;
    assert n == q * 0x1_0000 + r;
    assert r == r / 256 * 256 + r % 256 && r / 256 < 256;
    assert n == (q * 256 + r / 256) * 256 + r % 256;
    assert n / 256 == q * 256 + r / 256;
  }

  lemma Halves(n: nat)
    ensures n % 0x1_0000_0000 == n % 0x1_0000 + 0x1_0000 * (n / 0x1_0000 % 0x1_0000)
  {
    var q, r := n / 0x1_0000_0000, n % 0x1_0000_0000;
    assert n == q * 0x1_0000_0000 + r;
    assert r == r / 0x1_0000 * 0x1_0000 + r % 0x1_0000 && r / 0x1_0000 < 0x1_0000;
    assert n == (q * 0x1_0000 + r / 0x1_0000) * 0x1_0000 + r % 0x1_0000;
    assert n / 0x1_0000 == q * 0x1_0000 + r / 0x1_0000;
  }

  lemma Le16Is(n: nat)
    ensures |Le16(n)| == 2 && Two(Le16(n)[0], Le16(n)[1]) == n % 0x1_0000
  {
    Quotients(n);
  }

  lemma Le32Is(n: nat)
    ensures |Le32(n)| == 4 && Number(Le32(n)) == n % 0x1_0000_0000
  {
    hide Le16;
    Le16Is(n);
    Le16Is(n / 0x1_0000);
    Halves(n);
  }

  lemma TwoOnce(a: Byte, b: Byte, c: Byte, d: Byte)
    ensures Two(a, b) == Two(c, d) ==> a == c && b == d
    ensures 0 <= Two(a, b) < 0x1_0000 && 0 <= Two(c, d) < 0x1_0000
  {
  }

  lemma FourOnce(low: int, high: int, low': int, high': int)
    requires 0 <= low < 0x1_0000 && 0 <= low' < 0x1_0000
    ensures low + 0x1_0000 * high == low' + 0x1_0000 * high' ==> low == low' && high == high'
  {
  }

  /** And only one way to write it. */
  lemma NumberIs(b: Bytes, n: nat)
    requires |b| == 4
    ensures b == Le32(n) <==> Number(b) == n % 0x1_0000_0000
  {
    hide Le32, Two;
    Le32Is(n);
    var c := Le32(n);
    TwoOnce(b[0], b[1], c[0], c[1]);
    TwoOnce(b[2], b[3], c[2], c[3]);
    FourOnce(Two(b[0], b[1]), Two(b[2], b[3]), Two(c[0], c[1]), Two(c[2], c[3]));
  }

  /** Every byte of an object: type, flags, checksum, length of the value, id, length of the name, name
      and value; the checksum runs over the name, the value and the header with all ones for itself. */
  lemma ObjectBytes(crc: Crc, id: nat, e: Entry)
    ensures var o, n, v := Object(crc, id, e), |e.name|, |e.value|;
      && |o| == 12 + n + v
      && o[..3] == [0x55, 0xAA, 0xFF]
      && Number(o[3..7]) ==
           crc([0x55, 0xAA, 0xFF, 0xFF, 0xFF, 0xFF, 0xFF] + o[7..12], crc(e.value, crc(e.name, 0))) % 0x1_0000_0000
      && Two(o[7], o[8]) == v % 0x1_0000
      && Two(o[9], o[10]) == id % 0x1_0000
      && o[11] == n % 256
      && o[12..12 + n] == e.name && o[12 + n..] == e.value
  {
    hide Le16, Le32;
    var o, n, v := Object(crc, id, e), |e.name|, |e.value|;
    Le16Is(v);
    Le16Is(id);
    var blank := Header(id, n, v, UNSEALED);
    var sum := crc(blank, crc(e.value, crc(e.name, 0)));
    Le32Is(sum);
    var h := Header(id, n, v, Le32(sum));
    assert o[..12] == h;
    assert o[3..7] == h[3..7] == Le32(sum);
    assert o[7..12] == h[7..12] == Le16(v) + Le16(id) + [Low(n)];
    assert blank == [0x55, 0xAA, 0xFF, 0xFF, 0xFF, 0xFF, 0xFF] + o[7..12];
    assert o[7] == h[7] == Le16(v)[0] && o[8] == h[8] == Le16(v)[1];
    assert o[9] == h[9] == Le16(id)[0] && o[10] == h[10] == Le16(id)[1];
  }

  /** A text entry: WMC and a dot, the name, an equals sign, the value and a NUL. */
  lemma WrittenBytes(e: Entry)
    ensures Written(e) == [0x57, 0x4D, 0x43, 0x2E] + e.name + [0x3D] + e.value + [0x00]
  {
  }

  /** Which partitions are taken for what. */
  lemma PartitionKinds(crc: Crc, part: Bytes)
    ensures Valid(crc, part) <==>
      |part| == 4096 && Number(part[..4]) == crc(part[4..], 0) % 0x1_0000_0000
    ensures IsPsm1(crc, part) <==>
      && |part| == 4096 && part[..4] == [0x50, 0x53, 0x4D, 0x31]
      && Number(part[4..8]) == crc(part[12..], 0) % 0x1_0000_0000 && Number(part[8..12]) == 1
  {
    hide Le32, Number;
    if |part| == 4096 {
      NumberIs(part[..4], crc(part[4..], 0));
      NumberIs(part[4..8], crc(part[12..], 0));
      NumberIs(part[8..12], 1);
      assert 1 % 0x1_0000_0000 == 1;
    }
  }

  /** What one start orders, by the first bytes of the backup and of the area. */
  lemma StartDecides(crc: Crc, f: Flash)
    requires Shape(f)
    ensures var ops := StartOps(crc, f);
      if IsPsm1(crc, f.backup[0]) then ops == [EraseArea, WriteArea(Area(crc, f.backup[1..])), EraseBackup]
      else if f.area[0][..2] == [0x55, 0xAA] || !IsPsm1(crc, f.area[0]) then ops == []
      else
        var a, n := f.area, ValidUpTo(crc, f.area, 0);
        var copied := [EraseBackup, WriteBackup(0, a[0]), WriteBackup(1, a[1]), WriteBackup(2, a[2]),
                       WriteBackup(3, a[3])];
        n >= 1 && ops == if n < 4 then copied[..n + 1]
                         else copied + [EraseArea, WriteArea(Area(crc, a[1..])), EraseBackup]
  {
    hide Area, MetaValid, Valid;
    if !IsPsm1(crc, f.backup[0]) && IsPsm1(crc, f.area[0]) && f.area[0][..2] != [0x55, 0xAA] {
      assert PartValid(crc, 0, f.area[0]);
      FourCopies(f.area);
      CopyingPrefix(f.area, 4, ValidUpTo(crc, f.area, 0));
    }
  }

  lemma FourCopies(a: seq<Bytes>)
    requires Parts(a)
    ensures Copying(a, 4) == [EraseBackup, WriteBackup(0, a[0]), WriteBackup(1, a[1]), WriteBackup(2, a[2]),
                              WriteBackup(3, a[3])]
  {
    assert Copying(a, 1) == [EraseBackup, WriteBackup(0, a[0])];
    assert Copying(a, 2) == [EraseBackup, WriteBackup(0, a[0]), WriteBackup(1, a[1])];
    assert Copying(a, 3) == [EraseBackup, WriteBackup(0, a[0]), WriteBackup(1, a[1]), WriteBackup(2, a[2])];
  }

  // ----- entries that do not fit -----

  function Clip(s: Bytes, from: nat, n: nat): Bytes {
    if from >= |s| then [] else if from + n <= |s| then s[from..from + n] else s[from..]
  }

  /** An entry with a name of any length that fits the partition: its header holds the length of the
      name modulo 256, and the checksum runs over as many bytes of name and value as that says. */
  lemma LongName(crc: Crc, c: Conv, vars: Bytes, d: nat, e: Entry, next: nat)
    requires Stands(vars, d, e, next) && Mark(vars, d) && |c.cache| == PARTITION
    requires c.at + HEADER + |e.name| + |e.value| <= PARTITION && c.id < 0xFFFF
    ensures var n, v, id := |e.name|, |e.value|, c.id + 1;
      var both := e.name + e.value;
      var blank := Header(id, n, v, [0xFF, 0xFF, 0xFF, 0xFF]);
      var seal := Le32(crc(blank, crc(Clip(both, n % 256, v), crc(Clip(both, 0, n % 256), 0))));
      Round(crc, c, vars, d) == (Conv(Put(c.cache, c.at, Header(id, n, v, seal) + both), c.at + 12 + n + v, id), next)
  {
    hide Mark, Put, Copied, At, Stands, Round, Header, Le32, HeaderFor;
    var n, v, body := |e.name|, |e.value|, c.at + HEADER;
    AllCopied(vars, d, e, next, body);
    RoundTakes(crc, c, vars, d, n, v);
    TwoPuts(c.cache, body, e.name, e.value);
    var cache2 := Put(Put(c.cache, body, e.name), body + n, e.value);
    HeaderOfLong(crc, cache2, c.at, c.id + 1, e);
    ThreePuts(c.cache, c.at, HeaderFor(crc, cache2, c.at, c.id + 1, n, v), e.name, e.value);
    assert HeaderFor(crc, cache2, c.at, c.id + 1, n, v) + e.name + e.value
      == HeaderFor(crc, cache2, c.at, c.id + 1, n, v) + (e.name + e.value);
  }

  lemma HeaderOfLong(crc: Crc, cache: Bytes, at: nat, id: nat, e: Entry)
    requires at + HEADER + |e.name| + |e.value| <= |cache| == PARTITION
    requires cache[at + HEADER..at + HEADER + |e.name|] == e.name
    requires cache[at + HEADER + |e.name|..at + HEADER + |e.name| + |e.value|] == e.value
    ensures var n, v, both := |e.name|, |e.value|, e.name + e.value;
      var blank := Header(id, n, v, [0xFF, 0xFF, 0xFF, 0xFF]);
      var seal := Le32(crc(blank, crc(Clip(both, n % 256, v), crc(Clip(both, 0, n % 256), 0))));
      |seal| == 4 && HeaderFor(crc, cache, at, id, n, v) == Header(id, n, v, seal)
  {
    hide Header, Le32, Clip, Slice;
    var n, v, both := |e.name|, |e.value|, e.name + e.value;
    var body := at + HEADER;
    assert cache[body..body + n + v] == both;
    SlicesOf(cache, body, both, n % 256, v);
    assert v % 0x1_0000 == v;
    Le32Length(crc(Header(id, n, v, UNSEALED), crc(Clip(both, n % 256, v), crc(Clip(both, 0, n % 256), 0))));
  }

  lemma SliceOfSlice(s: Bytes, a: nat, b: nat, c: nat, d: nat)
    requires a <= b <= |s| && c <= d <= b - a
    ensures s[a..b][c..d] == s[a + c..a + d]
  {
    var x, y := s[a..b][c..d], s[a + c..a + d];
    assert |x| == |y| && forall i :: 0 <= i < |x| ==> x[i] == y[i];
  }

  lemma SlicesOf(cache: Bytes, body: nat, both: Bytes, k: nat, v: nat)
    requires body + |both| <= |cache| && k + v <= |both| && cache[body..body + |both|] == both
    ensures Slice(cache, body, k) == Clip(both, 0, k) && Slice(cache, body + k, v) == Clip(both, k, v)
  {
    SliceOfSlice(cache, body, body + |both|, 0, k);
    SliceOfSlice(cache, body, body + |both|, k, k + v);
  }

  /** How much the two loops copy of an entry that does not fit. */
  lemma PartCopied(vars: Bytes, d: nat, e: Entry, next: nat, body: nat)
    requires Stands(vars, d, e, next) && body + |e.name| + |e.value| > PARTITION
    ensures var n, v0 := |e.name|, d + 5 + |e.name|;
      && v0 + |e.value| <= |vars|
      && (n > Room(body) ==>
           && Copied(vars, d + 4, EQUALS, body) == Room(body) && At(vars, d + 4 + Room(body)) != EQUALS
           && vars[d + 4..d + 4 + Room(body)] == e.name[..Room(body)])
      && (n <= Room(body) ==>
           && Copied(vars, d + 4, EQUALS, body) == n && At(vars, d + 4 + n) == EQUALS
           && vars[d + 4..d + 4 + n] == e.name
           && vars[v0..v0 + |e.value|] == e.value)
  {
    var eq := Find(vars, d + 4, EQUALS);
    assert vars[d + 4..eq] == e.name;
  }

  lemma PartOfValue(vars: Bytes, d: nat, e: Entry, next: nat, body: nat)
    requires Stands(vars, d, e, next) && body + |e.value| > PARTITION && |e.value| > 0
    ensures var v0, room := d + 5 + |e.name|, Room(body);
      && v0 + |e.value| <= |vars| && room < |e.value|
      && Copied(vars, v0, NUL, body) == room && At(vars, v0 + room) != NUL
      && vars[v0..v0 + room] == e.value[..room]
  {
    var eq := Find(vars, d + 4, EQUALS);
    assert eq == d + 4 + |e.name|;
  }

  lemma RoundStops(crc: Crc, c: Conv, vars: Bytes, d: nat)
    requires Mark(vars, d)
    ensures var body, n0 := c.at + HEADER, d + 4;
      var n := Copied(vars, n0, EQUALS, body);
      && n0 + n <= |vars|
      && var first := Put(c.cache, body, vars[n0..n0 + n]);
      && (At(vars, n0 + n) != EQUALS ==>
           Round(crc, c, vars, d) == (Conv(first, c.at, (c.id + 1) % 0x1_0000), n0 + n))
      && (At(vars, n0 + n) == EQUALS && n0 + n + 1 <= |vars| ==>
           var v0 := n0 + n + 1;
           var v := Copied(vars, v0, NUL, body + n);
           v0 + v <= |vars| && (At(vars, v0 + v) != NUL ==>
             Round(crc, c, vars, d)
               == (Conv(Put(first, body + n, vars[v0..v0 + v]), c.at, (c.id + 1) % 0x1_0000), v0 + v)))
  {
    hide Copied, HeaderFor, Put;
  }

  /** An entry for which the partition has no room: as much of it as there is room for is copied and
      then given up; nothing before it changes and the id it took is not used; reading goes on in the
      middle of the entry. */
  lemma NoRoomFor(crc: Crc, c: Conv, vars: Bytes, d: nat, e: Entry, next: nat)
    requires Stands(vars, d, e, next) && Mark(vars, d) && |c.cache| == PARTITION
    requires c.at + 12 + |e.name| + |e.value| > 4096 && (c.at + 12 <= 4096 || |e.name| > 0 || |e.value| > 0)
    ensures var room := if c.at + 12 <= 4096 then 4096 - (c.at + 12) else 0;
      var (after, d') := Round(crc, c, vars, d);
      && after.at == c.at && after.id == (c.id + 1) % 0x1_0000
      && after.cache == Put(c.cache, c.at + 12, Clip(e.name + e.value, 0, room))
      && d' == if room < |e.name| then d + 4 + room else d + 5 + room
  {
    hide Stands, Copied, Put, Round, Mark, At;
    var body, both := c.at + HEADER, e.name + e.value;
    var room, n := Room(body), |e.name|;
    PartCopied(vars, d, e, next, body);
    RoundStops(crc, c, vars, d);
    if n > room {
      assert both[0..room] == e.name[..room];
    } else {
      PartOfValue(vars, d, e, next, body + n);
      PutPut(c.cache, body, e.name, e.value[..room - n]);
      assert both[0..room] == e.name + e.value[..room - n];
    }
  }
}
