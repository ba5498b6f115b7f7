/** What psm_format_check does to the flash, and what is left when the power fails in between.

    The storage area and the backup area (the last 16 KB of the flash) are four partitions each.
    Programming can only clear bits; reads, writes and erases succeed while there is power. */
module PsmRecovery {
  import opened PsmFormats
  import opened PsmConvert

  datatype Flash = Flash(area: seq<Bytes>, backup: seq<Bytes>)

  datatype Op = EraseArea | WriteArea(data: Bytes) | EraseBackup | WriteBackup(i: nat, data: Bytes)

  predicate Parts(s: seq<Bytes>) {
    |s| == 4 && forall i :: 0 <= i < 4 ==> |s[i]| == PARTITION
  }

  predicate Shape(f: Flash) { Parts(f.area) && Parts(f.backup) }

  function Blank(): (r: Bytes)
    ensures |r| == PARTITION
  {
    seq(PARTITION, _ => BLANK)
  }

  function Erased(): (r: seq<Bytes>)
    ensures Parts(r)
  {
    [Blank(), Blank(), Blank(), Blank()]
  }

  function And(a: Byte, b: Byte): Byte {
    ((a as bv8) & (b as bv8)) as int
  }

  function Program(was: Bytes, data: Bytes): (r: Bytes)
    requires |was| == |data|
    ensures |r| == |data|
  {
    seq(|data|, i requires 0 <= i < |data| => if was[i] == BLANK then data[i] else And(was[i], data[i]))
  }

  lemma ProgramBlank(data: Bytes)
    requires |data| == PARTITION
    ensures Program(Blank(), data) == data
  {
  }

  predicate Proper(op: Op) {
    match op
    case WriteArea(data) => |data| == PARTITION
    case WriteBackup(i, data) => i < 4 && |data| == PARTITION
    case _ => true
  }

  function Apply(f: Flash, op: Op): (r: Flash)
    requires Shape(f) && Proper(op)
    ensures Shape(r)
  {
    match op
    case EraseArea => f.(area := Erased())
    case WriteArea(data) => f.(area := f.area[0 := Program(f.area[0], data)])
    case EraseBackup => f.(backup := Erased())
    case WriteBackup(i, data) => f.(backup := f.backup[i := Program(f.backup[i], data)])
  }

  predicate AllProper(ops: seq<Op>) {
    forall i :: 0 <= i < |ops| ==> Proper(ops[i])
  }

  function ApplyAll(f: Flash, ops: seq<Op>): (r: Flash)
    requires Shape(f) && AllProper(ops)
    ensures Shape(r)
  {
    if ops == [] then f else Apply(ApplyAll(f, ops[..|ops| - 1]), ops[|ops| - 1])
  }

  lemma ApplyMore(f: Flash, ops: seq<Op>, op: Op)
    requires Shape(f) && AllProper(ops) && Proper(op)
    ensures AllProper(ops + [op]) && ApplyAll(f, ops + [op]) == Apply(ApplyAll(f, ops), op)
  {
    assert (ops + [op])[..|ops|] == ops;
  }

  // ----- what one start does -----

  const PSM1: Bytes := [0x50, 0x53, 0x4D, 0x31]

  /** psm_crc_verify on the first block. */
  predicate MetaValid(crc: Crc, part: Bytes) {
    |part| == PARTITION && part[4..8] == Le32(crc(part[12..], 0))
  }

  predicate IsPsm1(crc: Crc, part: Bytes): (r: bool)
    ensures r ==> |part| == PARTITION
  {
    MetaValid(crc, part) && part[..4] == PSM1 && part[8..12] == Le32(1)
  }

  predicate PartValid(crc: Crc, i: nat, part: Bytes) {
    if i == 0 then MetaValid(crc, part) else Valid(crc, part)
  }

  /** How many partitions of the area, from the first on, have a right checksum. */
  function ValidUpTo(crc: Crc, area: seq<Bytes>, i: nat): (r: nat)
    requires i <= |area|
    ensures i <= r <= |area| && forall j :: i <= j < r ==> PartValid(crc, j, area[j])
    ensures r < |area| ==> !PartValid(crc, r, area[r])
    decreases |area| - i
  {
    if i == |area| || !PartValid(crc, i, area[i]) then i else ValidUpTo(crc, area, i + 1)
  }

  /** Copying the first n partitions to the backup area. */
  function Copying(area: seq<Bytes>, n: nat): (r: seq<Op>)
    requires Parts(area) && n <= 4
    ensures AllProper(r) && |r| == n + 1
  {
    if n == 0 then [EraseBackup] else Copying(area, n - 1) + [WriteBackup(n - 1, area[n - 1])]
  }

  function ConvertOps(crc: Crc, backup: seq<Bytes>): (r: seq<Op>)
    requires Parts(backup)
    ensures AllProper(r) && |r| == 3
  {
    [EraseArea, WriteArea(Area(crc, backup[1..])), EraseBackup]
  }

  /** The flash operations of one start with enough power. */
  function StartOps(crc: Crc, f: Flash): (r: seq<Op>)
    requires Shape(f)
    ensures AllProper(r)
  {
    if IsPsm1(crc, f.backup[0]) then ConvertOps(crc, f.backup)
    else if f.area[0][..2] == [0x55, 0xAA] || !IsPsm1(crc, f.area[0]) then []
    else
      var n := ValidUpTo(crc, f.area, 0);
      if n < 4 then Copying(f.area, n) else Copying(f.area, 4) + ConvertOps(crc, f.area)
  }

  function Start(crc: Crc, f: Flash): Flash
    requires Shape(f)
  {
    ApplyAll(f, StartOps(crc, f))
  }

  // ----- the program -----

  /** A flash that obeys while there is power. */
  class Device {
    var flash: Flash
    var power: nat

    method Do(op: Op)
      requires Shape(flash) && Proper(op)
      modifies this
      ensures Shape(flash)
      ensures old(power) == 0 ==> flash == old(flash) && power == 0
      ensures old(power) > 0 ==> flash == Apply(old(flash), op) && power == old(power) - 1
    {
      if power > 0 {
        flash, power := Apply(flash, op), power - 1;
      }
    }
  }

  /** `ops` have been ordered since f0, and carried out as far as the power lasted. */
  ghost predicate Ran(f0: Flash, p0: nat, ops: seq<Op>, f: Flash, p: nat) {
    && Shape(f0) && AllProper(ops)
    && var n := Min(|ops|, p0);
    && f == ApplyAll(f0, ops[..n]) && p == p0 - n
  }

  lemma RanNothing(f0: Flash, p0: nat)
    requires Shape(f0)
    ensures Ran(f0, p0, [], f0, p0)
  {
    assert Min(0, p0) == 0;
  }

  /** One more operation was ordered. */
  lemma RanMore(f0: Flash, p0: nat, ops: seq<Op>, f: Flash, p: nat, op: Op, f': Flash, p': nat)
    requires Ran(f0, p0, ops, f, p) && Proper(op) && Shape(f)
    requires if p == 0 then f' == f && p' == 0 else f' == Apply(f, op) && p' == p - 1
    ensures Ran(f0, p0, ops + [op], f', p')
  {
    var all := ops + [op];
    if p == 0 {
      assert p0 <= |ops| && all[..p0] == ops[..p0];
    } else {
      assert |ops| < p0 && ops[..|ops|] == ops && all[..|ops| + 1] == all;
      ApplyMore(f0, ops, op);
    }
  }

  lemma RanLive(f0: Flash, p0: nat, ops: seq<Op>, f: Flash, p: nat)
    requires Ran(f0, p0, ops, f, p)
    ensures Shape(f) && (p > 0 ==> f == ApplyAll(f0, ops))
  {
    if p > 0 {
      assert ops[..|ops|] == ops;
    }
  }

  /** Without power nothing more matters. */
  lemma RanDead(f0: Flash, p0: nat, ops: seq<Op>, f: Flash, more: seq<Op>)
    requires Ran(f0, p0, ops, f, 0) && AllProper(more)
    ensures Ran(f0, p0, ops + more, f, 0)
  {
    assert p0 <= |ops| && (ops + more)[..p0] == ops[..p0];
  }

  /** The backup holds the first n partitions of the area and is blank behind them. */
  predicate HoldsFirst(f: Flash, area: seq<Bytes>, n: nat) {
    Shape(f) && Parts(area) && f.area == area
    && forall i :: 0 <= i < 4 ==> f.backup[i] == if i < n then area[i] else Blank()
  }

  lemma HoldsOneMore(f: Flash, area: seq<Bytes>, n: nat)
    requires HoldsFirst(f, area, n) && n < 4
    ensures HoldsFirst(Apply(f, WriteBackup(n, area[n])), area, n + 1)
  {
    hide Program, Blank;
    ProgramBlank(area[n]);
  }

  lemma {:induction false} CopyingLeaves(f: Flash, n: nat)
    requires Shape(f) && n <= 4
    ensures HoldsFirst(ApplyAll(f, Copying(f.area, n)), f.area, n)
  {
    hide Apply, ApplyAll, Blank, HoldsFirst;
    if n == 0 {
      assert Copying(f.area, 0) == [] + [EraseBackup];
      ApplyMore(f, [], EraseBackup);
      BackupBlank(f);
    } else {
      CopyingLeaves(f, n - 1);
      ApplyMore(f, Copying(f.area, n - 1), WriteBackup(n - 1, f.area[n - 1]));
      HoldsOneMore(ApplyAll(f, Copying(f.area, n - 1)), f.area, n - 1);
    }
  }

  lemma BackupBlank(f: Flash)
    requires Shape(f)
    ensures HoldsFirst(Apply(ApplyAll(f, []), EraseBackup), f.area, 0)
  {
    hide Blank;
  }

  lemma {:induction false} ApplyConcat(f: Flash, a: seq<Op>, b: seq<Op>)
    requires Shape(f) && AllProper(a) && AllProper(b)
    ensures AllProper(a + b) && ApplyAll(f, a + b) == ApplyAll(ApplyAll(f, a), b)
    decreases |b|
  {
    hide Proper, Apply;
    if b == [] {
      assert a + b == a;
    } else {
      var n := |b| - 1;
      ApplyConcat(f, a, b[..n]);
      assert a + b == (a + b[..n]) + [b[n]];
      ApplyMore(f, a + b[..n], b[n]);
    }
  }

  lemma RanThen(f0: Flash, p0: nat, a: seq<Op>, f1: Flash, p1: nat, b: seq<Op>, f2: Flash, p2: nat)
    requires Ran(f0, p0, a, f1, p1) && Ran(f1, p1, b, f2, p2)
    ensures Ran(f0, p0, a + b, f2, p2)
  {
    hide Apply;
    if p1 == 0 {
      assert b[..0] == [];
      RanDead(f0, p0, a, f1, b);
    } else {
      assert a[..|a|] == a;
      var n := Min(|b|, p1);
      assert (a + b)[..Min(|a + b|, p0)] == a + b[..n];
      ApplyConcat(f0, a, b[..n]);
    }
  }

  /** The tries to copy one partition: with power the first one is enough. */
  method CopyPart(dev: Device, crc: Crc, i: nat, part: Bytes)
    requires Shape(dev.flash) && i < 4 && PartValid(crc, i, part) && |part| == PARTITION
    requires dev.power > 0 ==> dev.flash.backup[i] == Blank()
    modifies dev
    ensures Ran(old(dev.flash), old(dev.power), [WriteBackup(i, part)], dev.flash, dev.power)
  {
    hide PartValid, Program, Blank, Ran;
    ghost var f0, p0 := dev.flash, dev.power;
    RanNothing(f0, p0);
    ProgramBlank(part);
    var buffer := part;
    var j := 0;
    while j < 3
      invariant Shape(dev.flash) && |buffer| == PARTITION
      invariant j == 0 ==> dev.flash == f0 && dev.power == p0 && buffer == part
      invariant j > 0 ==> dev.power == 0 == p0 && Ran(f0, p0, [WriteBackup(i, part)], dev.flash, 0)
    {
      dev.Do(WriteBackup(i, buffer));
      if j == 0 {
        RanMore(f0, p0, [], f0, p0, WriteBackup(i, part), dev.flash, dev.power);
        assert [] + [WriteBackup(i, part)] == [WriteBackup(i, part)];
      }
      buffer := dev.flash.backup[i];
      if PartValid(crc, i, buffer) {
        return;
      }
      j := j + 1;
    }
  }

  /** copy_psm_to_last_16kblcok. */
  method CopyToBackup(dev: Device, crc: Crc) returns (ok: bool)
    requires Shape(dev.flash)
    modifies dev
    ensures var n := ValidUpTo(crc, old(dev.flash).area, 0);
      && Ran(old(dev.flash), old(dev.power), Copying(old(dev.flash).area, n), dev.flash, dev.power)
      && ok == (n == 4)
  {
    hide PartValid, Program, Blank, Ran, ApplyAll, ValidUpTo;
    ghost var f0, p0 := dev.flash, dev.power;
    RanNothing(f0, p0);
    dev.Do(EraseBackup);
    RanMore(f0, p0, [], f0, p0, EraseBackup, dev.flash, dev.power);
    assert [] + [EraseBackup] == Copying(f0.area, 0);
    var i := 0;
    while i < 4
      invariant 0 <= i <= 4 && Shape(dev.flash) && dev.flash.area == f0.area
      invariant ValidUpTo(crc, f0.area, 0) == ValidUpTo(crc, f0.area, i)
      invariant Ran(f0, p0, Copying(f0.area, i), dev.flash, dev.power)
    {
      ValidStep(crc, f0.area, i);
      var part := dev.flash.area[i];
      if !PartValid(crc, i, part) {
        return false;
      }
      RanLive(f0, p0, Copying(f0.area, i), dev.flash, dev.power);
      CopyingLeaves(f0, i);
      ghost var f1, p1 := dev.flash, dev.power;
      CopyPart(dev, crc, i, part);
      RanThen(f0, p0, Copying(f0.area, i), f1, p1, [WriteBackup(i, part)], dev.flash, dev.power);
      AreaKept(f1, p1, WriteBackup(i, part), dev.flash, dev.power);
      i := i + 1;
    }
    ValidStep(crc, f0.area, 4);
    ok := true;
  }

  lemma ValidStep(crc: Crc, area: seq<Bytes>, i: nat)
    requires i <= |area|
    ensures i == |area| || !PartValid(crc, i, area[i]) ==> ValidUpTo(crc, area, i) == i
    ensures i < |area| && PartValid(crc, i, area[i]) ==> ValidUpTo(crc, area, i) == ValidUpTo(crc, area, i + 1)
  {
  }

  lemma AreaKept(f: Flash, p: nat, op: Op, g: Flash, q: nat)
    requires Ran(f, p, [op], g, q) && op.WriteBackup?
    ensures Shape(g) && g.area == f.area
  {
    if p == 0 {
      RanStays(f, [op], g, q);
    } else {
      assert [op][0] == op && [op][..1] == [] + [op];
      ApplyMore(f, [], op);
    }
  }

  /** The tries to write the new partition, and the end of the backup. */
  method WriteNew(dev: Device, cache: Bytes)
    requires Shape(dev.flash) && |cache| == PARTITION
    requires dev.power > 0 ==> dev.flash.area[0] == Blank()
    modifies dev
    ensures Ran(old(dev.flash), old(dev.power), [WriteArea(cache), EraseBackup], dev.flash, dev.power)
  {
    hide Program, Blank, Ran;
    ghost var f0, p0 := dev.flash, dev.power;
    var w, e := WriteArea(cache), EraseBackup;
    RanNothing(f0, p0);
    ProgramBlank(cache);
    var i := 0;
    while i < 3
      invariant Shape(dev.flash)
      invariant i == 0 ==> dev.flash == f0 && dev.power == p0
      invariant i > 0 ==> dev.flash == f0 && dev.power == 0 == p0
    {
      dev.Do(w);
      ghost var f1, p1 := dev.flash, dev.power;
      RanMore(f0, p0, [], f0, p0, w, f1, p1);
      assert [] + [w] == [w] && [w] + [e] == [w, e];
      if dev.flash.area[0] == cache {
        dev.Do(e);
        RanMore(f0, p0, [w], f1, p1, e, dev.flash, dev.power);
        return;
      }
      i := i + 1;
    }
    assert [] + [w, e] == [w, e];
    RanDead(f0, p0, [], f0, [w, e]);
  }

  /** convert_psm1_2_psm2, on the backup area. */
  method ConvertBackup(dev: Device, crc: Crc)
    requires Shape(dev.flash)
    modifies dev
    ensures Ran(old(dev.flash), old(dev.power), ConvertOps(crc, old(dev.flash).backup), dev.flash, dev.power)
  {
    hide Blank, Ran, Convert, Valid, ConvertAll;
    ghost var f0, p0 := dev.flash, dev.power;
    var cache := new Byte[PARTITION](_ => BLANK);
    var at, id := 0, 0;
    RanNothing(f0, p0);
    dev.Do(EraseArea);
    RanMore(f0, p0, [], f0, p0, EraseArea, dev.flash, dev.power);
    assert [] + [EraseArea] == [EraseArea];
    ghost var f1, p1 := dev.flash, dev.power;
    ghost var parts := f0.backup[1..];
    assert cache[..] == Empty().cache && parts[0..] == parts;
    var i := 1;
    while i < 4
      invariant 1 <= i <= 4 && dev.flash == f1 && dev.power == p1
      invariant ConvertAll(crc, Conv(cache[..], at, id), parts[i - 1..]) == ConvertAll(crc, Empty(), parts)
    {
      var part := dev.flash.backup[i];
      ConvertAllStep(crc, Conv(cache[..], at, id), parts[i - 1..]);
      if Valid(crc, part) {
        at, id := ConvertBlock(crc, part[4..], cache, at, id);
      }
      i := i + 1;
    }
    ConvertAllStep(crc, Conv(cache[..], at, id), parts[3..]);
    WriteNew(dev, cache[..]);
    RanThen(f0, p0, [EraseArea], f1, p1, [WriteArea(cache[..]), EraseBackup], dev.flash, dev.power);
    assert [EraseArea] + [WriteArea(cache[..]), EraseBackup] == ConvertOps(crc, f0.backup);
  }

  lemma ConvertAllStep(crc: Crc, c: Conv, parts: seq<Bytes>)
    ensures parts == [] ==> ConvertAll(crc, c, parts) == c
    ensures parts != [] ==> ConvertAll(crc, c, parts) == ConvertAll(crc, ConvertOne(crc, c, parts[0]), parts[1..])
  {
  }

  /** The size the storage area must have. */
  const AREA_SIZE := 4 * PARTITION

  /** psm_format_check: nothing for an area of another size; otherwise what it orders is StartOps, and it
      happens as far as the power lasts. */
  method FormatCheck(dev: Device, crc: Crc, size: nat) returns (sized: bool)
    requires Shape(dev.flash)
    modifies dev
    ensures sized == (size == AREA_SIZE)
    ensures Ran(old(dev.flash), old(dev.power), if sized then StartOps(crc, old(dev.flash)) else [], dev.flash,
      dev.power)
  {
    hide IsPsm1, Ran, ConvertOps, Copying, ValidUpTo;
    ghost var f0, p0 := dev.flash, dev.power;
    RanNothing(f0, p0);
    sized := size == AREA_SIZE;
    if !sized {
      return;
    }
    if IsPsm1(crc, dev.flash.backup[0]) {
      ConvertBackup(dev, crc);
      return;
    }
    if dev.flash.area[0][..2] == [0x55, 0xAA] {
      return;
    }
    if IsPsm1(crc, dev.flash.area[0]) {
      ghost var n := ValidUpTo(crc, f0.area, 0);
      var ok := CopyToBackup(dev, crc);
      if ok {
        ghost var f1, p1 := dev.flash, dev.power;
        RanLive(f0, p0, Copying(f0.area, 4), f1, p1);
        CopyingLeaves(f0, 4);
        ConvertBackup(dev, crc);
        if p1 == 0 {
          RanStays(f1, ConvertOps(crc, f1.backup), dev.flash, dev.power);
          RanDead(f0, p0, Copying(f0.area, 4), f1, ConvertOps(crc, f0.area));
        } else {
          assert f1.backup == f0.area;
          RanThen(f0, p0, Copying(f0.area, 4), f1, p1, ConvertOps(crc, f0.area), dev.flash, dev.power);
        }
      }
    }
  }

  lemma RanStays(f: Flash, ops: seq<Op>, g: Flash, q: nat)
    requires Ran(f, 0, ops, g, q)
    ensures g == f && q == 0
  {
    assert ops[..0] == [];
  }

  // ----- recovery -----

  /** The flash after a finished conversion. */
  function Converted(crc: Crc, backup: seq<Bytes>): (r: Flash)
    requires Parts(backup)
    ensures Shape(r)
  {
    Flash([Area(crc, backup[1..]), Blank(), Blank(), Blank()], Erased())
  }

  /** The cache starts with the mark of an object as soon as there is one. */
  predicate Begun(c: Conv) {
    |c.cache| == PARTITION && c.cache[0] == if c.at == 0 then BLANK else 0x55
  }

  lemma PutFirst(cache: Bytes, at: nat, b: Bytes)
    requires |cache| > 0
    ensures Put(cache, at, b)[0] == if at == 0 && b != [] then b[0] else cache[0]
  {
  }

  lemma HeaderFirst(crc: Crc, cache: Bytes, at: nat, id: nat, n: nat, v: nat)
    ensures HeaderFor(crc, cache, at, id, n, v)[0] == 0x55
  {
    hide Slice, Seal;
    var nl, dl := n % 256, v % 0x1_0000;
    var seal := Seal(crc, Header(id, n, v, UNSEALED), Slice(cache, at + HEADER, nl), Slice(cache, at + HEADER + nl, dl));
    SealLength(crc, Header(id, n, v, UNSEALED), Slice(cache, at + HEADER, nl), Slice(cache, at + HEADER + nl, dl));
  }

  lemma RoundBegun(crc: Crc, c: Conv, vars: Bytes, d: nat)
    requires Begun(c) && Mark(vars, d)
    ensures Begun(Round(crc, c, vars, d).0)
  {
    hide Put, HeaderFor, Copied, Mark;
    var body, id, n0 := c.at + HEADER, (c.id + 1) % 0x1_0000, d + 4;
    MarkInside(vars, d);
    var n := Copied(vars, n0, EQUALS, body);
    var cache := Put(c.cache, body, vars[n0..n0 + n]);
    PutFirst(c.cache, body, vars[n0..n0 + n]);
    if At(vars, n0 + n) == EQUALS {
      var v0 := n0 + n + 1;
      var v := Copied(vars, v0, NUL, body + n);
      var cache2 := Put(cache, body + n, vars[v0..v0 + v]);
      PutFirst(cache, body + n, vars[v0..v0 + v]);
      var h := HeaderFor(crc, cache2, c.at, id, n, v);
      HeaderFirst(crc, cache2, c.at, id, n, v);
      PutFirst(cache2, c.at, h);
    }
  }

  lemma {:induction false} ConvertBegun(crc: Crc, c: Conv, vars: Bytes, d: nat)
    requires Begun(c)
    ensures Begun(Convert(crc, c, vars, d))
    decreases |vars| - d
  {
    hide Begun, Round, Mark;
    if Mark(vars, d) {
      MarkInside(vars, d);
      RoundBegun(crc, c, vars, d);
      var next := Round(crc, c, vars, d);
      ConvertBegun(crc, next.0, vars, next.1);
    }
  }

  lemma {:induction false} ConvertAllBegun(crc: Crc, c: Conv, parts: seq<Bytes>)
    requires Begun(c)
    ensures Begun(ConvertAll(crc, c, parts))
    decreases |parts|
  {
    hide Begun, Convert, Valid;
    if parts != [] {
      if Valid(crc, parts[0]) {
        ConvertBegun(crc, c, parts[0][4..], 0);
      }
      ConvertAllBegun(crc, ConvertOne(crc, c, parts[0]), parts[1..]);
    }
  }

  /** A converted flash is left alone. */
  lemma ConvertedStays(crc: Crc, backup: seq<Bytes>)
    requires Parts(backup)
    ensures StartOps(crc, Converted(crc, backup)) == []
  {
    hide ConvertAll, MetaValid;
    ConvertAllBegun(crc, Empty(), backup[1..]);
    var f := Converted(crc, backup);
    assert f.backup[0][..4][0] == BLANK && f.area[0][..4][0] == f.area[0][0] != 0x50;
  }

  lemma ConversionSteps(crc: Crc, f: Flash)
    requires Shape(f)
    ensures var ops := ConvertOps(crc, f.backup);
      && ApplyAll(f, ops[..0]) == f
      && ApplyAll(f, ops[..1]).backup == f.backup && ApplyAll(f, ops[..2]).backup == f.backup
      && ApplyAll(f, ops) == ApplyAll(f, ops[..3]) == Converted(crc, f.backup)
  {
    hide Area, Program, Blank;
    var ops := ConvertOps(crc, f.backup);
    var data := Area(crc, f.backup[1..]);
    assert ops[..0] == [] && ops[..1] == [] + [ops[0]] && ops[..2] == ops[..1] + [ops[1]];
    assert ops[..3] == ops[..2] + [ops[2]] == ops;
    ApplyMore(f, [], ops[0]);
    ApplyMore(f, ops[..1], ops[1]);
    ApplyMore(f, ops[..2], ops[2]);
    ProgramBlank(data);
  }

  /** A power failure: it comes before operation k of a start, or in the middle of it.  An erase or
      write of the storage area that is cut short leaves that area in any condition at all. */
  datatype Cut = Cut(k: nat, torn: seq<Bytes>)

  function CutShort(crc: Crc, f: Flash, cut: Cut): (r: Flash)
    requires Shape(f) && Parts(cut.torn)
    ensures Shape(r)
  {
    var ops := StartOps(crc, f);
    var n := Min(|ops|, cut.k);
    var g := ApplyAll(f, ops[..n]);
    if n < |ops| && (ops[n].EraseArea? || ops[n].WriteArea?) then g.(area := cut.torn) else g
  }

  function Failures(crc: Crc, f: Flash, cuts: seq<Cut>): (r: Flash)
    requires Shape(f) && forall c :: c in cuts ==> Parts(c.torn)
    ensures Shape(r)
    decreases |cuts|
  {
    if cuts == [] then f else Failures(crc, CutShort(crc, f, cuts[0]), cuts[1..])
  }

  /** The backup is whole, or the conversion is finished. */
  predicate Safe(crc: Crc, backup: seq<Bytes>, f: Flash)
    requires Parts(backup)
  {
    Shape(f) && (f.backup == backup || f == Converted(crc, backup))
  }

  lemma FailureIsSafe(crc: Crc, backup: seq<Bytes>, f: Flash, cut: Cut)
    requires Parts(backup) && IsPsm1(crc, backup[0]) && Safe(crc, backup, f) && Parts(cut.torn)
    ensures Safe(crc, backup, CutShort(crc, f, cut))
  {
    hide IsPsm1, Converted, Apply, Area;
    if f.backup == backup {
      ConversionSteps(crc, f);
      var ops := StartOps(crc, f);
      assert |ops| == 3 && (forall i :: 0 <= i < 3 ==> !ops[i].WriteBackup?);
    } else {
      ConvertedStays(crc, backup);
      var none: seq<Op> := [];
      assert none[..0] == none;
    }
  }

  /** From a whole backup, any number of power failures at any points, and then one undisturbed
      start, end exactly where an undisturbed conversion ends. */
  lemma {:induction false} Recovers(crc: Crc, backup: seq<Bytes>, f: Flash, cuts: seq<Cut>)
    requires Parts(backup) && IsPsm1(crc, backup[0]) && Safe(crc, backup, f)
    requires forall c :: c in cuts ==> Parts(c.torn)
    ensures Start(crc, Failures(crc, f, cuts)) == Converted(crc, backup)
    decreases |cuts|
  {
    hide IsPsm1, Converted, CutShort, Area;
    if cuts == [] {
      if f.backup == backup {
        ConversionSteps(crc, f);
      } else {
        ConvertedStays(crc, backup);
      }
    } else {
      FailureIsSafe(crc, backup, f, cuts[0]);
      Recovers(crc, backup, CutShort(crc, f, cuts[0]), cuts[1..]);
    }
  }

  // ----- the first start, which makes the backup -----

  /** The first n partitions, and blank ones for the rest. */
  function Truncated(area: seq<Bytes>, n: nat): (r: seq<Bytes>)
    requires Parts(area)
    ensures Parts(r)
  {
    var b := Blank();
    [if n > 0 then area[0] else b, if n > 1 then area[1] else b, if n > 2 then area[2] else b,
      if n > 3 then area[3] else b]
  }

  /** An old area to be converted, without a backup. */
  predicate Fresh(crc: Crc, f: Flash): (r: bool)
    ensures r ==> Shape(f)
  {
    Shape(f) && IsPsm1(crc, f.area[0]) && !IsPsm1(crc, f.backup[0])
  }

  lemma NotObjects(crc: Crc, part: Bytes)
    requires IsPsm1(crc, part)
    ensures part[..2] != [0x55, 0xAA]
  {
    hide MetaValid;
    assert part[..4][0] == 0x50;
    if |part| >= 2 {
      assert part[..2][0] == part[..4][0];
    }
  }

  lemma BlankIsNotPsm1(crc: Crc)
    ensures !IsPsm1(crc, Blank())
  {
    hide MetaValid;
    assert Blank()[..4][0] == BLANK;
  }

  /** While the backup is being made: what a start finds after n partitions were copied. */
  lemma StartAfterCopying(crc: Crc, f: Flash, n: nat)
    requires Fresh(crc, f) && 1 <= n <= 4
    ensures Start(crc, ApplyAll(f, Copying(f.area, n))) == Converted(crc, Truncated(f.area, n))
  {
    hide IsPsm1, Converted, Area, Apply, Blank;
    CopyingLeaves(f, n);
    var g := ApplyAll(f, Copying(f.area, n));
    assert g.backup == Truncated(f.area, n);
    ConversionSteps(crc, g);
  }

  /** An undisturbed first start converts the whole area. */
  lemma FirstStart(crc: Crc, f: Flash)
    requires Fresh(crc, f) && ValidUpTo(crc, f.area, 0) == 4
    ensures StartOps(crc, f) == Copying(f.area, 4) + ConvertOps(crc, f.area)
    ensures Start(crc, f) == Converted(crc, f.area)
  {
    hide IsPsm1, Converted, Area, Apply, ConvertOps, Blank;
    NotObjects(crc, f.area[0]);
    CopyingLeaves(f, 4);
    var g := ApplyAll(f, Copying(f.area, 4));
    assert g.backup == f.area;
    ConversionSteps(crc, g);
    ApplyConcat(f, Copying(f.area, 4), ConvertOps(crc, f.area));
    assert ConvertOps(crc, f.area)[..3] == ConvertOps(crc, f.area) by { ThreeOps(crc, f.area); }
  }

  lemma ThreeOps(crc: Crc, backup: seq<Bytes>)
    requires Parts(backup)
    ensures ConvertOps(crc, backup)[..3] == ConvertOps(crc, backup)
  {
  }

  lemma {:induction false} CopyingPrefix(area: seq<Bytes>, n: nat, k: nat)
    requires Parts(area) && k <= n <= 4
    ensures Copying(area, n)[..k + 1] == Copying(area, k)
    decreases n
  {
    if k == n {
      assert Copying(area, n)[..k + 1] == Copying(area, n);
    } else {
      CopyingPrefix(area, n - 1, k);
      assert Copying(area, n)[..k + 1] == Copying(area, n - 1)[..k + 1];
    }
  }

  lemma AllOfIt(area: seq<Bytes>)
    requires Parts(area)
    ensures Truncated(area, 4) == area
  {
  }

  /** A power failure after k operations of the first start.  Only while the backup is incomplete
      and its first partition already there, after operations 2 to 4, does the next start end
      elsewhere: it takes the partitions that were copied for all there are. */
  lemma FirstStartCut(crc: Crc, f: Flash, k: nat)
    requires Fresh(crc, f) && ValidUpTo(crc, f.area, 0) == 4
    ensures var g := ApplyAll(f, StartOps(crc, f)[..Min(k, |StartOps(crc, f)|)]);
      Start(crc, g) == Converted(crc, Truncated(f.area, if 2 <= k <= 4 then k - 1 else 4))
  {
    hide IsPsm1, Converted, ConvertOps, Area, Apply, Blank, StartOps, Truncated, Start, ApplyAll;
    FirstStart(crc, f);
    AllOfIt(f.area);
    var ops := StartOps(crc, f);
    if k == 0 {
      assert ops[..0] == [];
      StartOfNothing(crc, f);
    } else if k == 1 {
      CopyingPrefix(f.area, 4, 0);
      assert ops[..1] == Copying(f.area, 4)[..1];
      BackupErased(crc, f);
      FirstStart(crc, ApplyAll(f, Copying(f.area, 0)));
    } else if k <= 5 {
      CopyingPrefix(f.area, 4, k - 1);
      assert ops[..k] == Copying(f.area, 4)[..k];
      StartAfterCopying(crc, f, k - 1);
    } else {
      var m := Min(k, 8) - 5;
      var last := ConvertOps(crc, f.area);
      assert ops[..Min(k, 8)] == Copying(f.area, 4) + last[..m];
      ApplyConcat(f, Copying(f.area, 4), last[..m]);
      CopyingLeaves(f, 4);
      var h := ApplyAll(f, Copying(f.area, 4));
      assert h.backup == f.area;
      CutWhileConverting(crc, h, m);
    }
  }

  lemma StartOfNothing(crc: Crc, f: Flash)
    requires Shape(f)
    ensures ApplyAll(f, []) == f
  {
  }

  lemma BackupErased(crc: Crc, f: Flash)
    requires Fresh(crc, f)
    ensures var g := ApplyAll(f, Copying(f.area, 0));
      Fresh(crc, g) && g.area == f.area
  {
    hide IsPsm1;
    BlankIsNotPsm1(crc);
    CopyingLeaves(f, 0);
  }

  lemma CutWhileConverting(crc: Crc, h: Flash, m: nat)
    requires Shape(h) && IsPsm1(crc, h.backup[0]) && m <= 3
    ensures Start(crc, ApplyAll(h, ConvertOps(crc, h.backup)[..m])) == Converted(crc, h.backup)
  {
    hide IsPsm1, Converted, Area, Apply;
    ConversionSteps(crc, h);
    var g := ApplyAll(h, ConvertOps(crc, h.backup)[..m]);
    if m < 3 {
      ConversionSteps(crc, g);
    } else {
      ConvertedStays(crc, h.backup);
    }
  }

  lemma {:induction false} AllEntriesConcat(crc: Crc, a: seq<Bytes>, b: seq<Bytes>)
    ensures AllEntries(crc, a + b) == AllEntries(crc, a) + AllEntries(crc, b)
    decreases |a|
  {
    hide PartEntries;
    if a == [] {
      assert a + b == b;
    } else {
      assert (a + b)[0] == a[0] && (a + b)[1..] == a[1..] + b;
      AllEntriesConcat(crc, a[1..], b);
    }
  }

  lemma {:induction false} BlanksSayNothing(crc: Crc, n: nat)
    ensures AllEntries(crc, seq(n, _ => Blank())) == []
    ensures PartWhole(crc, Blank())
  {
    hide Valid;
    var vars := Blank()[4..];
    assert vars[0] == Blank()[4] == BLANK;
    assert !Mark(vars, 0) by {
      assert vars[0..4][0] == vars[0] != PREFIX[0];
    }
    if n > 0 {
      assert seq(n, _ => Blank())[1..] == seq(n - 1, _ => Blank());
      BlanksSayNothing(crc, n - 1);
    }
  }

  /** What the truncated partitions say: the entries of those that are there. */
  lemma TruncatedSays(crc: Crc, area: seq<Bytes>, n: nat)
    requires Parts(area) && 1 <= n <= 3 && AllWhole(crc, area[1..])
    ensures var t := Truncated(area, n)[1..];
      AllWhole(crc, t) && AllEntries(crc, area[1..]) == AllEntries(crc, t) + AllEntries(crc, area[n..])
  {
    hide PartWhole, PartEntries, AllEntries, Blank;
    var t := Truncated(area, n)[1..];
    var blanks := seq(4 - n, _ => Blank());
    BlanksSayNothing(crc, 4 - n);
    assert t == area[1..n] + blanks;
    assert area[1..] == area[1..n] + area[n..];
    assert forall i :: 0 <= i < 3 ==> t[i] == if i < n - 1 then area[1..][i] else Blank();
    AllEntriesConcat(crc, area[1..n], blanks);
    AllEntriesConcat(crc, area[1..n], area[n..]);
  }

  /** What a conversion writes is decided by what the blocks say, and says it. */
  lemma AreaByEntries(crc: Crc, a: seq<Bytes>, b: seq<Bytes>)
    requires AllWhole(crc, a) && AllWhole(crc, b)
    requires Size(AllEntries(crc, a)) <= PARTITION && Named(AllEntries(crc, a))
    requires Size(AllEntries(crc, b)) <= PARTITION && Named(AllEntries(crc, b))
    ensures Area(crc, a) == Area(crc, b) <==> AllEntries(crc, a) == AllEntries(crc, b)
  {
    hide AllWhole, AllEntries, Area, Size, Named, Items, Contents, Objects;
    MeaningIsKept(crc, a);
    MeaningIsKept(crc, b);
  }

  /** Exactly when an interrupted first start still ends where an undisturbed one does: unless the
      failure came between the first and the last copied partition and one not copied says
      something. */
  lemma FirstStartRecovers(crc: Crc, f: Flash, k: nat)
    requires Fresh(crc, f) && ValidUpTo(crc, f.area, 0) == 4
    requires AllWhole(crc, f.area[1..])
    requires Size(AllEntries(crc, f.area[1..])) <= PARTITION && Named(AllEntries(crc, f.area[1..]))
    ensures var g := ApplyAll(f, StartOps(crc, f)[..Min(k, |StartOps(crc, f)|)]);
      Start(crc, g) == Start(crc, f) <==> (2 <= k <= 4 ==> AllEntries(crc, f.area[k - 1..]) == [])
  {
    hide Fresh, AllWhole, AllEntries, Area, Size, StartOps, Truncated, Start, ApplyAll, ValidUpTo, Blank;
    FirstStartCut(crc, f, k);
    FirstStart(crc, f);
    AllOfIt(f.area);
    if 2 <= k <= 4 {
      var t := Truncated(f.area, k - 1);
      TruncatedSays(crc, f.area, k - 1);
      var a, b := AllEntries(crc, t[1..]), AllEntries(crc, f.area[k - 1..]);
      SizeConcat(a, b);
      assert forall i :: 0 <= i < |a| ==> (a + b)[i] == a[i];
      AreaByEntries(crc, t[1..], f.area[1..]);
      assert a == a + b <==> b == [] by { assert |a + b| == |a| + |b|; }
      SameConversion(crc, t, f.area);
    }
  }

  lemma SameConversion(crc: Crc, a: seq<Bytes>, b: seq<Bytes>)
    requires Parts(a) && Parts(b)
    ensures Converted(crc, a) == Converted(crc, b) <==> Area(crc, a[1..]) == Area(crc, b[1..])
  {
    hide Area;
    assert Converted(crc, a).area[0] == Area(crc, a[1..]);
    assert Converted(crc, b).area[0] == Area(crc, b[1..]);
  }

  /** A variable block with a wrong checksum: the first start gives up after copying those before
      it, and the second takes these for all there are, though the old area was still whole. */
  lemma BadBlockEndsTheCopy(crc: Crc, f: Flash)
    requires Fresh(crc, f) && ValidUpTo(crc, f.area, 0) < 4
    ensures ValidUpTo(crc, f.area, 0) >= 1 && Start(crc, f).area == f.area
    ensures Start(crc, Start(crc, f)) == Converted(crc, Truncated(f.area, ValidUpTo(crc, f.area, 0)))
  {
    var n := ValidUpTo(crc, f.area, 0);
    assert PartValid(crc, 0, f.area[0]);
    NotObjects(crc, f.area[0]);
    CopyingLeaves(f, n);
    StartAfterCopying(crc, f, n);
  }

  /** What is left after the second start is all that the valid blocks said exactly when it fits and
      no valid block behind the bad one says anything. */
  lemma BadBlockLoses(crc: Crc, f: Flash)
    requires Fresh(crc, f) && ValidUpTo(crc, f.area, 0) < 4 && AllWhole(crc, f.area[1..])
    ensures var es := AllEntries(crc, f.area[1..]);
      Contents(Items(crc, Start(crc, Start(crc, f)).area[0])) == es <==>
        Size(es) <= PARTITION && Named(es) && AllEntries(crc, f.area[ValidUpTo(crc, f.area, 0)..]) == []
  {
    hide Fresh, AllWhole, AllEntries, Area, Size, Named, Start, Truncated, ValidUpTo, Items, Contents;
    var n := ValidUpTo(crc, f.area, 0);
    BadBlockEndsTheCopy(crc, f);
    TruncatedSays(crc, f.area, n);
    var t := Truncated(f.area, n);
    var kept, lost := AllEntries(crc, t[1..]), AllEntries(crc, f.area[n..]);
    assert Converted(crc, t).area[0] == Area(crc, t[1..]);
    MeaningIsKept(crc, t[1..]);
    AreaFits(crc, t[1..]);
    FitsApart(kept, lost);
    assert lost == [] ==> kept + lost == kept;
    assert kept == kept + lost ==> lost == [] by { assert |kept + lost| == |kept| + |lost|; }
  }

  /** No partition says what does not fit. */
  lemma AreaFits(crc: Crc, parts: seq<Bytes>)
    ensures var es := Contents(Items(crc, Area(crc, parts))); Size(es) <= PARTITION && Named(es)
  {
    hide Area, Items, Contents, Size;
    ItemsFit(crc, Area(crc, parts));
  }

  lemma FitsApart(a: seq<Entry>, b: seq<Entry>)
    ensures Size(a + b) <= PARTITION && Named(a + b) ==> Size(a) <= PARTITION && Named(a)
  {
    SizeConcat(a, b);
    assert forall i :: 0 <= i < |a| ==> (a + b)[i] == a[i];
  }

  // ----- flashes that lose something -----

  function MetaPart(crc: Crc): (r: Bytes)
    ensures |r| == PARTITION
  {
    var vars: Bytes := seq(PARTITION - 12, _ => BLANK);
    PSM1 + Le32(crc(vars, 0)) + Le32(1) + vars
  }

  lemma MetaIsPsm1(crc: Crc)
    ensures IsPsm1(crc, MetaPart(crc))
  {
    hide Le32;
    Le32Length(1);
    var vars: Bytes := seq(PARTITION - 12, _ => BLANK);
    Le32Length(crc(vars, 0));
    var p := MetaPart(crc);
    assert p[..4] == PSM1 && p[4..8] == Le32(crc(vars, 0)) && p[8..12] == Le32(1) && p[12..] == vars;
  }

  lemma Le32Length(n: nat)
    ensures |Le32(n)| == 4
  {
  }

  /** A block with these entries and nothing behind them. */
  function VarPart(crc: Crc, es: seq<Entry>): (r: Bytes)
    requires |Text(es)| <= VARS
    ensures |r| == PARTITION
  {
    Le32Length(crc(Text(es) + seq(VARS - |Text(es)|, _ => BLANK), 0));
    Partition(crc, es, seq(VARS - |Text(es)|, _ => BLANK))
  }

  lemma VarPartSays(crc: Crc, es: seq<Entry>)
    requires Writable(es) && |Text(es)| <= VARS
    ensures Valid(crc, VarPart(crc, es)) && PartWhole(crc, VarPart(crc, es)) && PartEntries(crc, VarPart(crc, es)) == es
  {
    hide Text, Partition, Entries, Whole;
    var fill: Bytes := seq(VARS - |Text(es)|, _ => BLANK);
    assert !Mark(fill, 0) by {
      if |fill| >= 4 {
        assert fill[0..4][0] == BLANK;
      }
    }
    PartitionReads(crc, es, fill);
  }

  const ONE: seq<Entry> := [Entry([0x61], [0x62])]

  /** A metadata block, and one entry in the last variable block. */
  function LastSpeaks(crc: Crc): (f: Flash)
    ensures Shape(f)
  {
    Flash([MetaPart(crc), VarPart(crc, []), VarPart(crc, []), VarPart(crc, ONE)], Erased())
  }

  lemma LastSpeaksSays(crc: Crc)
    ensures var f := LastSpeaks(crc);
      && Fresh(crc, f) && ValidUpTo(crc, f.area, 0) == 4 && AllWhole(crc, f.area[1..])
      && AllEntries(crc, f.area[1..]) == ONE && Size(ONE) <= PARTITION && Named(ONE)
  {
    hide VarPart, MetaPart, Valid, PartWhole, PartEntries, MetaValid, Blank;
    var f := LastSpeaks(crc);
    MetaIsPsm1(crc);
    BlankIsNotPsm1(crc);
    VarPartSays(crc, []);
    VarPartSays(crc, ONE);
    AllThree(crc, f.area[1..]);
    assert Text(ONE) == Written(ONE[0]);
    ValidAll(crc, f.area);
  }

  lemma ValidAll(crc: Crc, area: seq<Bytes>)
    requires |area| == 4 && forall i :: 0 <= i < 4 ==> PartValid(crc, i, area[i])
    ensures ValidUpTo(crc, area, 0) == 4
  {
  }

  /** A first start whose power fails after two operations loses an entry. */
  lemma CutLosesEntry(crc: Crc)
    ensures var f := LastSpeaks(crc);
      Start(crc, ApplyAll(f, StartOps(crc, f)[..Min(2, |StartOps(crc, f)|)])) != Start(crc, f)
  {
    hide LastSpeaks, Start, StartOps, ApplyAll, AllEntries, AllWhole, Fresh, ValidUpTo, Size, Named;
    LastSpeaksSays(crc);
    FirstStartRecovers(crc, LastSpeaks(crc), 2);
  }
}
