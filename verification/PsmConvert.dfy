/** The storage converter of psm_upgrade_util.c: it reads blocks of text variables and fills one
    partition with binary objects. */
module PsmConvert {
  import opened PsmFormats

  const VARS := PARTITION - 4

  /** The write cache, the write address and the last object id. */
  datatype Conv = Conv(cache: Bytes, at: nat, id: nat)

  /** Writes into the cache.  Bytes that would lie behind it are dropped: the program writes a
      header there when an entry with neither name nor value meets a full cache. */
  function Put(cache: Bytes, at: nat, b: Bytes): (r: Bytes)
    ensures |r| == |cache|
  {
    seq(|cache|, i requires 0 <= i < |cache| => if at <= i < at + |b| then b[i - at] else cache[i])
  }

  function Room(at: nat): nat {
    if at < PARTITION then PARTITION - at else 0
  }

  function Min(a: nat, b: nat): nat { if a < b then a else b }

  /** How much a copying loop copies: up to the stop, while there is room. */
  function Copied(vars: Bytes, d: nat, stop: Byte, at: nat): (k: nat)
    requires d <= |vars|
    ensures d + k <= |vars| && k <= Room(at)
  {
    Min(Find(vars, d, stop) - d, Room(at))
  }

  function Slice(s: Bytes, at: nat, n: nat): Bytes {
    if at + n <= |s| then s[at..at + n] else []
  }

  /** The header for a name and value of the given lengths whose bytes are in the cache. */
  function HeaderFor(crc: Crc, cache: Bytes, at: nat, id: nat, nameLen: nat, dataLen: nat): (r: Bytes)
    ensures |r| == HEADER
  {
    var nl, dl := nameLen % 256, dataLen % 0x1_0000;
    var name, value := Slice(cache, at + HEADER, nl), Slice(cache, at + HEADER + nl, dl);
    Header(id, nameLen, dataLen, Seal(crc, Header(id, nameLen, dataLen, UNSEALED), name, value))
  }

  /** One round of the outer loop, at a mark: where it leaves the cache, and where it goes on. */
  function Round(crc: Crc, c: Conv, vars: Bytes, d: nat): (r: (Conv, nat))
    requires Mark(vars, d)
    ensures r.1 > d && |r.0.cache| == |c.cache|
  {
    var body, id, n0 := c.at + HEADER, (c.id + 1) % 0x1_0000, d + 4;
    var n := Copied(vars, n0, EQUALS, body);
    var cache := Put(c.cache, body, vars[n0..n0 + n]);
    if At(vars, n0 + n) != EQUALS then (Conv(cache, c.at, id), n0 + n)
    else
      var v0 := n0 + n + 1;
      var v := Copied(vars, v0, NUL, body + n);
      var cache2 := Put(cache, body + n, vars[v0..v0 + v]);
      if At(vars, v0 + v) != NUL then (Conv(cache2, c.at, id), v0 + v)
      else (Conv(Put(cache2, c.at, HeaderFor(crc, cache2, c.at, id, n, v)), body + n + v, id), v0 + v + 1)
  }

  /** The outer loop over one block. */
  function Convert(crc: Crc, c: Conv, vars: Bytes, d: nat): (r: Conv)
    ensures |r.cache| == |c.cache|
    decreases |vars| - d
  {
    if !Mark(vars, d) then c
    else
      var (c', d') := Round(crc, c, vars, d);
      Convert(crc, c', vars, d')
  }

  /** psm_crc_verify on a variable block. */
  predicate Valid(crc: Crc, part: Bytes): (r: bool)
    ensures r ==> |part| == PARTITION
  {
    |part| == PARTITION && part[..4] == Le32(crc(part[4..], 0))
  }

  /** The variable blocks in order. */
  function ConvertAll(crc: Crc, c: Conv, parts: seq<Bytes>): (r: Conv)
    ensures |r.cache| == |c.cache|
    decreases |parts|
  {
    if parts == [] then c else ConvertAll(crc, ConvertOne(crc, c, parts[0]), parts[1..])
  }

  /** One partition: passed over when its checksum is wrong. */
  function ConvertOne(crc: Crc, c: Conv, part: Bytes): (r: Conv)
    ensures |r.cache| == |c.cache|
  {
    if Valid(crc, part) then Convert(crc, c, part[4..], 0) else c
  }

  function Empty(): Conv {
    Conv(seq(PARTITION, _ => BLANK), 0, 0)
  }

  /** What a conversion writes to the storage area. */
  function Area(crc: Crc, parts: seq<Bytes>): (r: Bytes)
    ensures |r| == PARTITION
  {
    ConvertAll(crc, Empty(), parts).cache
  }

  /** What the blocks say. */
  function AllEntries(crc: Crc, parts: seq<Bytes>): seq<Entry>
    decreases |parts|
  {
    if parts == [] then [] else PartEntries(crc, parts[0]) + AllEntries(crc, parts[1..])
  }

  function PartEntries(crc: Crc, part: Bytes): seq<Entry> {
    if Valid(crc, part) then Entries(part[4..], 0) else []
  }

  predicate PartWhole(crc: Crc, part: Bytes) {
    Valid(crc, part) ==> Whole(part[4..], 0)
  }

  predicate AllWhole(crc: Crc, parts: seq<Bytes>) {
    forall i :: 0 <= i < |parts| ==> PartWhole(crc, parts[i])
  }

  // ----- the loops -----

  method Copy(vars: Bytes, d: nat, stop: Byte, cache: array<Byte>, at: nat) returns (n: nat)
    requires d <= |vars| && cache.Length == PARTITION
    modifies cache
    ensures n == Copied(vars, d, stop, at) && cache[..] == Put(old(cache[..]), at, vars[d..d + n])
  {
    n := 0;
    while At(vars, d + n) != stop && d + n < |vars| && at + n < PARTITION
      invariant n <= Copied(vars, d, stop, at)
      invariant forall i :: 0 <= i < PARTITION ==> cache[i] == if at <= i < at + n then vars[d + i - at] else old(cache[i])
      decreases |vars| - d - n
    {
      cache[at + n] := vars[d + n];
      n := n + 1;
    }
  }

  method PutHeader(cache: array<Byte>, at: nat, header: Bytes)
    requires cache.Length == PARTITION && |header| == HEADER
    modifies cache
    ensures cache[..] == Put(old(cache[..]), at, header)
  {
    var i := 0;
    while i < HEADER
      invariant i <= HEADER
      invariant forall j :: 0 <= j < PARTITION ==> cache[j] == if at <= j < at + i then header[j - at] else old(cache[j])
    {
      if at + i < PARTITION {
        cache[at + i] := header[i];
      }
      i := i + 1;
    }
  }

  /** The outer loop over one block whose checksum is right. */
  method ConvertBlock(crc: Crc, vars: Bytes, cache: array<Byte>, start: nat, lastId: nat) returns (at: nat, id: nat)
    requires cache.Length == PARTITION
    modifies cache
    ensures Conv(cache[..], at, id) == Convert(crc, Conv(old(cache[..]), start, lastId), vars, 0)
  {
    hide Copied, Put, HeaderFor, Convert, Mark;
    at, id := start, lastId;
    var d := 0;
    ghost var whole := Convert(crc, Conv(cache[..], start, lastId), vars, 0);
    while Mark(vars, d)
      invariant whole == Convert(crc, Conv(cache[..], at, id), vars, d)
      decreases |vars| - d
    {
      ConvertStep(crc, Conv(cache[..], at, id), vars, d);
      ghost var next := Round(crc, Conv(cache[..], at, id), vars, d);
      MarkInside(vars, d);
      d := d + 4;
      id := (id + 1) % 0x1_0000;
      var n := Copy(vars, d, EQUALS, cache, at + HEADER);
      d := d + n;
      if At(vars, d) != EQUALS {
        assert next == (Conv(cache[..], at, id), d);
        continue;
      }
      d := d + 1;
      var v := Copy(vars, d, NUL, cache, at + HEADER + n);
      d := d + v;
      if At(vars, d) != NUL {
        assert next == (Conv(cache[..], at, id), d);
        continue;
      }
      d := d + 1;
      PutHeader(cache, at, HeaderFor(crc, cache[..], at, id, n, v));
      at := at + HEADER + n + v;
      assert next == (Conv(cache[..], at, id), d);
    }
    ConvertStep(crc, Conv(cache[..], at, id), vars, d);
  }

  lemma MarkInside(vars: Bytes, d: nat)
    requires Mark(vars, d)
    ensures d + 4 <= |vars|
  {
  }

  lemma ConvertStep(crc: Crc, c: Conv, vars: Bytes, d: nat)
    ensures !Mark(vars, d) ==> Convert(crc, c, vars, d) == c
    ensures Mark(vars, d) ==>
      var next := Round(crc, c, vars, d);
      Convert(crc, c, vars, d) == Convert(crc, next.0, vars, next.1)
  {
  }

  // ----- what the conversion means -----

  lemma PutInside(cache: Bytes, at: nat, b: Bytes)
    requires at + |b| <= |cache|
    ensures Put(cache, at, b) == cache[..at] + b + cache[at + |b|..]
  {
  }

  /** With room for it, all of a name and all of a value is copied. */
  lemma AllCopied(vars: Bytes, d: nat, e: Entry, next: nat, body: nat)
    requires Stands(vars, d, e, next) && body + |e.name| + |e.value| <= PARTITION
    ensures var n, v, v0 := |e.name|, |e.value|, d + 5 + |e.name|;
      && v0 + v <= |vars| && next == v0 + v + 1
      && Copied(vars, d + 4, EQUALS, body) == n && At(vars, d + 4 + n) == EQUALS && vars[d + 4..d + 4 + n] == e.name
      && Copied(vars, v0, NUL, body + n) == v && At(vars, v0 + v) == NUL && vars[v0..v0 + v] == e.value
  {
  }

  /** The header over a name and a value that are in the cache is that of their object. */
  lemma HeaderOfCopied(crc: Crc, cache: Bytes, at: nat, id: nat, e: Entry)
    requires at + HEADER + |e.name| + |e.value| <= |cache| && |cache| == PARTITION && |e.name| < 256
    requires cache[at + HEADER..at + HEADER + |e.name|] == e.name
    requires cache[at + HEADER + |e.name|..at + HEADER + |e.name| + |e.value|] == e.value
    ensures HeaderFor(crc, cache, at, id, |e.name|, |e.value|) + e.name + e.value == Object(crc, id, e)
  {
    hide Header, Seal;
  }

  /** A round in which both loops stop at their marks. */
  lemma RoundTakes(crc: Crc, c: Conv, vars: Bytes, d: nat, n: nat, v: nat)
    requires Mark(vars, d) && c.id < 0xFFFF
    requires d + 5 + n + v <= |vars|
    requires Copied(vars, d + 4, EQUALS, c.at + HEADER) == n && At(vars, d + 4 + n) == EQUALS
    requires Copied(vars, d + 5 + n, NUL, c.at + HEADER + n) == v && At(vars, d + 5 + n + v) == NUL
    ensures var body := c.at + HEADER;
      var cache := Put(Put(c.cache, body, vars[d + 4..d + 4 + n]), body + n, vars[d + 5 + n..d + 5 + n + v]);
      Round(crc, c, vars, d)
        == (Conv(Put(cache, c.at, HeaderFor(crc, cache, c.at, c.id + 1, n, v)), body + n + v, c.id + 1), d + 6 + n + v)
  {
    hide Copied, Mark, Put, HeaderFor, At;
    IdsGrow(c.id);
  }

  lemma IdsGrow(id: nat)
    requires id < 0xFFFF
    ensures (id + 1) % 0x1_0000 == id + 1
  {
  }

  /** An entry that fits becomes its object. */
  lemma RoundFits(crc: Crc, c: Conv, vars: Bytes, d: nat, e: Entry, next: nat)
    requires Stands(vars, d, e, next) && Mark(vars, d) && |c.cache| == PARTITION && |e.name| < 256
    requires c.at + HEADER + |e.name| + |e.value| <= PARTITION && c.id < 0xFFFF
    ensures var o := Object(crc, c.id + 1, e);
      Round(crc, c, vars, d) == (Conv(Put(c.cache, c.at, o), c.at + |o|, c.id + 1), next)
  {
    hide Mark, Put, HeaderFor, Object, Copied, At, Stands, Round;
    var n, v, body := |e.name|, |e.value|, c.at + HEADER;
    AllCopied(vars, d, e, next, body);
    RoundTakes(crc, c, vars, d, n, v);
    TwoPuts(c.cache, body, e.name, e.value);
    var cache2 := Put(Put(c.cache, body, e.name), body + n, e.value);
    HeaderOfCopied(crc, cache2, c.at, c.id + 1, e);
    ThreePuts(c.cache, c.at, HeaderFor(crc, cache2, c.at, c.id + 1, n, v), e.name, e.value);
  }

  lemma TwoPuts(cache: Bytes, at: nat, a: Bytes, b: Bytes)
    requires at + |a| + |b| <= |cache|
    ensures var r := Put(Put(cache, at, a), at + |a|, b);
      r[at..at + |a|] == a && r[at + |a|..at + |a| + |b|] == b
  {
  }

  lemma ThreePuts(cache: Bytes, at: nat, h: Bytes, a: Bytes, b: Bytes)
    requires at + |h| + |a| + |b| <= |cache|
    ensures Put(Put(Put(cache, at + |h|, a), at + |h| + |a|, b), at, h) == Put(cache, at, h + a + b)
  {
  }

  lemma PutPut(cache: Bytes, at: nat, a: Bytes, b: Bytes)
    ensures Put(Put(cache, at, a), at + |a|, b) == Put(cache, at, a + b)
  {
  }

  predicate Named(es: seq<Entry>) {
    forall i :: 0 <= i < |es| ==> |es[i].name| < 256
  }

  /** A whole entry at a mark, named. */
  lemma FirstStands(vars: Bytes, d: nat) returns (e: Entry, next: nat)
    requires Mark(vars, d) && Whole(vars, d)
    ensures Stands(vars, d, e, next) && next > d
    ensures Entries(vars, d) == [e] + Entries(vars, next) && Whole(vars, next)
  {
    hide Find;
    var eq := Find(vars, d + 4, EQUALS);
    var end := Find(vars, eq + 1, NUL);
    e, next := Entry(vars[d + 4..eq], vars[eq + 1..end]), end + 1;
  }

  /** A block whose entries all fit becomes exactly their objects. */
  lemma {:induction false} ConvertFits(crc: Crc, c: Conv, vars: Bytes, d: nat)
    requires Whole(vars, d) && |c.cache| == PARTITION && Named(Entries(vars, d))
    requires c.at + Size(Entries(vars, d)) <= PARTITION && c.id + |Entries(vars, d)| <= 0xFFFF
    ensures var es := Entries(vars, d);
      Convert(crc, c, vars, d) == Conv(Put(c.cache, c.at, Objects(crc, es, c.id + 1)), c.at + Size(es), c.id + |es|)
    decreases |vars| - d
  {
    hide Whole, Entries, Mark, Put, Stands, Object, Round, Convert;
    ConvertStep(crc, c, vars, d);
    NoneAtEnd(vars, d);
    if Mark(vars, d) {
      MarkInside(vars, d);
      var e, next := FirstStands(vars, d);
      assert Entries(vars, d)[1..] == Entries(vars, next);
      RoundFits(crc, c, vars, d, e, next);
      ConvertFits(crc, Round(crc, c, vars, d).0, vars, next);
      PutPut(c.cache, c.at, Object(crc, c.id + 1, e), Objects(crc, Entries(vars, next), c.id + 2));
    } else {
      PutNothing(c.cache, c.at);
    }
  }

  lemma NoneAtEnd(vars: Bytes, d: nat)
    ensures !Mark(vars, d) ==> Entries(vars, d) == []
  {
  }

  lemma PutNothing(cache: Bytes, at: nat)
    ensures Put(cache, at, []) == cache
  {
  }

  lemma {:induction false} SizeConcat(a: seq<Entry>, b: seq<Entry>)
    ensures Size(a + b) == Size(a) + Size(b)
    decreases |a|
  {
    if a == [] {
      assert a + b == b;
    } else {
      assert (a + b)[0] == a[0] && (a + b)[1..] == a[1..] + b;
      SizeConcat(a[1..], b);
    }
  }

  lemma {:induction false} ObjectsConcat(crc: Crc, a: seq<Entry>, b: seq<Entry>, first: nat)
    ensures Objects(crc, a + b, first) == Objects(crc, a, first) + Objects(crc, b, first + |a|)
    decreases |a|
  {
    hide Object;
    if a == [] {
      assert a + b == b;
    } else {
      assert (a + b)[0] == a[0] && (a + b)[1..] == a[1..] + b;
      ObjectsConcat(crc, a[1..], b, first + 1);
    }
  }

  /** The entries fit behind what the cache holds, and the ids do not run out. */
  predicate Fit(c: Conv, es: seq<Entry>) {
    |c.cache| == PARTITION && Named(es) && c.at + Size(es) <= PARTITION && c.id + |es| <= 0xFFFF
  }

  /** The cache with the objects of the entries put behind what it holds. */
  function With(crc: Crc, c: Conv, es: seq<Entry>): Conv {
    Conv(Put(c.cache, c.at, Objects(crc, es, c.id + 1)), c.at + Size(es), c.id + |es|)
  }

  lemma WithWith(crc: Crc, c: Conv, a: seq<Entry>, b: seq<Entry>)
    requires Fit(c, a + b)
    ensures Fit(c, a) && Fit(With(crc, c, a), b) && With(crc, With(crc, c, a), b) == With(crc, c, a + b)
  {
    hide Put, Size, Objects;
    SizeConcat(a, b);
    ObjectsConcat(crc, a, b, c.id + 1);
    ObjectsLength(crc, a, c.id + 1);
    PutPut(c.cache, c.at, Objects(crc, a, c.id + 1), Objects(crc, b, c.id + 1 + |a|));
    assert forall i :: 0 <= i < |a| ==> (a + b)[i] == a[i];
    assert forall i :: 0 <= i < |b| ==> (a + b)[|a| + i] == b[i];
  }

  lemma WithNone(crc: Crc, c: Conv)
    ensures With(crc, c, []) == c
  {
    hide Put;
    PutNothing(c.cache, c.at);
  }

  lemma OneFits(crc: Crc, c: Conv, part: Bytes)
    requires PartWhole(crc, part) && Fit(c, PartEntries(crc, part))
    ensures ConvertOne(crc, c, part) == With(crc, c, PartEntries(crc, part))
  {
    hide Whole, Entries, Put, Convert, Objects, Size;
    if Valid(crc, part) {
      ConvertFits(crc, c, part[4..], 0);
    } else {
      WithNone(crc, c);
    }
  }

  /** All the blocks, from any point on. */
  lemma {:induction false} ConvertAllFits(crc: Crc, c: Conv, parts: seq<Bytes>)
    requires AllWhole(crc, parts) && Fit(c, AllEntries(crc, parts))
    ensures ConvertAll(crc, c, parts) == With(crc, c, AllEntries(crc, parts))
    decreases |parts|
  {
    hide PartWhole, PartEntries, Fit, With, ConvertOne;
    if parts == [] {
      WithNone(crc, c);
    } else {
      var es, rest := PartEntries(crc, parts[0]), AllEntries(crc, parts[1..]);
      WithWith(crc, c, es, rest);
      OneFits(crc, c, parts[0]);
      ConvertAllFits(crc, With(crc, c, es), parts[1..]);
    }
  }

  /** Exactly when the entries fit, with names of at most 255 bytes, does the written partition
      say what the blocks said; and then it is their objects, numbered from 1, and blank behind. */
  lemma MeaningIsKept(crc: Crc, parts: seq<Bytes>)
    requires AllWhole(crc, parts)
    ensures var es := AllEntries(crc, parts);
      var fits := Size(es) <= PARTITION && Named(es);
      && (Contents(Items(crc, Area(crc, parts))) == es <==> fits)
      && (fits ==>
        && Area(crc, parts) == Objects(crc, es, 1) + seq(PARTITION - Size(es), _ => BLANK)
        && Items(crc, Area(crc, parts)) == Numbers(es, 1))
  {
    hide AllWhole, AllEntries, Items, ConvertAll, Size, Objects, Put, Contents, Numbers;
    var es := AllEntries(crc, parts);
    ItemsFit(crc, Area(crc, parts));
    if Size(es) <= PARTITION && Named(es) {
      FewEntries(es);
      ConvertAllFits(crc, Empty(), parts);
      ObjectsLength(crc, es, 1);
      PutInside(seq(PARTITION, _ => BLANK), 0, Objects(crc, es, 1));
      var fill := PARTITION - Size(es);
      assert Area(crc, parts) == Objects(crc, es, 1) + seq(fill, _ => BLANK);
      AllSmall(es);
      ObjectsReadBack(crc, es, 1, fill);
      NumbersContents(es, 1);
    }
  }

  // ----- blocks with an entry that lacks its equals sign -----

  /** Objects under given ids. */
  function ObjectsOf(crc: Crc, items: seq<Item>): Bytes {
    if items == [] then [] else Object(crc, items[0].id, items[0].entry) + ObjectsOf(crc, items[1..])
  }

  lemma {:induction false} ObjectsOfConcat(crc: Crc, a: seq<Item>, b: seq<Item>)
    ensures ObjectsOf(crc, a + b) == ObjectsOf(crc, a) + ObjectsOf(crc, b)
    decreases |a|
  {
    hide Object;
    if a == [] {
      assert a + b == b;
    } else {
      assert (a + b)[0] == a[0] && (a + b)[1..] == a[1..] + b;
      ObjectsOfConcat(crc, a[1..], b);
    }
  }

  lemma {:induction false} ObjectsOfLength(crc: Crc, items: seq<Item>)
    ensures |ObjectsOf(crc, items)| == Size(Contents(items))
    decreases |items|
  {
    hide Object;
    if items != [] {
      ObjectsOfLength(crc, items[1..]);
      assert Contents(items)[1..] == Contents(items[1..]);
    }
  }

  lemma {:induction false} ContentsConcat(a: seq<Item>, b: seq<Item>)
    ensures Contents(a + b) == Contents(a) + Contents(b)
    decreases |a|
  {
    if a == [] {
      assert a + b == b;
    } else {
      assert (a + b)[0] == a[0] && (a + b)[1..] == a[1..] + b;
      ContentsConcat(a[1..], b);
    }
  }

  lemma {:induction false} ContentsAt(items: seq<Item>)
    ensures |Contents(items)| == |items| && forall i :: 0 <= i < |items| ==> Contents(items)[i] == items[i].entry
    decreases |items|
  {
    if items != [] {
      ContentsAt(items[1..]);
    }
  }

  /** The ids grow, between these bounds. */
  predicate Rising(items: seq<Item>, low: nat, high: nat) {
    && (forall i :: 0 <= i < |items| ==> low < items[i].id <= high)
    && (forall i, j :: 0 <= i < j < |items| ==> items[i].id < items[j].id)
  }

  lemma RisingConcat(a: seq<Item>, b: seq<Item>, low: nat, mid: nat, high: nat)
    requires Rising(a, low, mid) && Rising(b, mid, high) && low <= mid <= high
    ensures Rising(a + b, low, high)
  {
  }

  /** Reading gives back the objects and goes on behind them, whatever stands there. */
  lemma {:induction false} ObjectsThenRest(crc: Crc, items: seq<Item>, rest: Bytes)
    requires forall i :: 0 <= i < |items| ==> Small(items[i].entry) && items[i].id < 0x1_0000
    ensures Items(crc, ObjectsOf(crc, items) + rest) == items + Items(crc, rest)
    decreases |items|
  {
    hide ReadObject, Object, Small;
    var s := ObjectsOf(crc, items) + rest;
    if items == [] {
      assert s == rest;
    } else {
      var o := Object(crc, items[0].id, items[0].entry);
      var more := ObjectsOf(crc, items[1..]) + rest;
      assert s == o + more && s[|o|..] == more;
      ReadBack(crc, items[0].id, items[0].entry, more);
      ObjectsThenRest(crc, items[1..], rest);
      assert items + Items(crc, rest) == [items[0]] + (items[1..] + Items(crc, rest));
    }
  }

  function Left(vars: Bytes, d: nat): nat {
    if d < |vars| then |vars| - d else 0
  }

  /** `after` holds the objects of `items` behind what `c` held, under ids between the two last ids. */
  predicate Extends(crc: Crc, c: Conv, after: Conv, items: seq<Item>) {
    && c.at <= after.at <= |c.cache| == |after.cache| == PARTITION
    && after.cache[..after.at] == c.cache[..c.at] + ObjectsOf(crc, items)
    && c.id <= after.id && Rising(items, c.id, after.id)
  }

  lemma ExtendsNothing(crc: Crc, c: Conv, after: Conv)
    requires c.at == after.at <= |c.cache| == |after.cache| == PARTITION && after.cache[..c.at] == c.cache[..c.at]
    requires c.id <= after.id
    ensures Extends(crc, c, after, [])
  {
  }

  lemma ExtendsMore(crc: Crc, c: Conv, mid: Conv, after: Conv, a: seq<Item>, b: seq<Item>)
    requires Extends(crc, c, mid, a) && Extends(crc, mid, after, b)
    ensures Extends(crc, c, after, a + b)
  {
    hide Rising, ObjectsOf;
    ObjectsOfConcat(crc, a, b);
    RisingConcat(a, b, c.id, mid.id, after.id);
  }

  /** A round over an entry that lacks its equals sign takes back everything but the id. */
  lemma RoundRollsBack(crc: Crc, c: Conv, vars: Bytes, d: nat)
    requires Mark(vars, d) && Find(vars, d + 4, EQUALS) == |vars| && c.at <= |c.cache| && c.id < 0xFFFF
    ensures var (c', d') := Round(crc, c, vars, d);
      && c'.at == c.at && c'.cache[..c.at] == c.cache[..c.at] && c'.id == c.id + 1
      && d + 4 <= d' <= |vars| && forall i :: d' <= i < |vars| ==> vars[i] != EQUALS
  {
    hide HeaderFor;
    IdsGrow(c.id);
  }

  lemma {:induction false} NoEqualsFrom(vars: Bytes, d: nat)
    requires d <= |vars| && forall i :: d <= i < |vars| ==> vars[i] != EQUALS
    ensures Find(vars, d, EQUALS) == |vars|
  {
  }

  lemma {:induction false} RollsBack(crc: Crc, c: Conv, vars: Bytes, d: nat)
    requires d <= |vars| && (forall i :: d <= i < |vars| ==> vars[i] != EQUALS)
    requires c.at <= |c.cache| && c.id + Left(vars, d) <= 0xFFFF
    ensures var r := Convert(crc, c, vars, d);
      r.at == c.at && r.cache[..c.at] == c.cache[..c.at] && c.id <= r.id <= c.id + Left(vars, d)
    decreases |vars| - d
  {
    hide Round, Mark, Convert;
    ConvertStep(crc, c, vars, d);
    if Mark(vars, d) {
      MarkInside(vars, d);
      NoEqualsFrom(vars, d + 4);
      RoundRollsBack(crc, c, vars, d);
      var next := Round(crc, c, vars, d);
      RollsBack(crc, next.0, vars, next.1);
    }
  }

  /** A block of any kind whose entries fit: exactly their objects, under growing ids. */
  lemma {:induction false} ConvertBegins(crc: Crc, c: Conv, vars: Bytes, d: nat) returns (items: seq<Item>)
    requires |c.cache| == PARTITION && Named(Entries(vars, d))
    requires c.at + Size(Entries(vars, d)) <= PARTITION && c.id + Left(vars, d) <= 0xFFFF
    ensures var r := Convert(crc, c, vars, d);
      && Contents(items) == Entries(vars, d) && Extends(crc, c, r, items)
      && r.at == c.at + Size(Entries(vars, d)) && r.id <= c.id + Left(vars, d)
    decreases |vars| - d
  {
    hide Mark, Put, Object, Round, Convert, Extends;
    ConvertStep(crc, c, vars, d);
    if !Mark(vars, d) {
      items := [];
      ExtendsNothing(crc, c, c);
    } else {
      MarkInside(vars, d);
      if Find(vars, d + 4, EQUALS) == |vars| {
        items := [];
        RoundRollsBack(crc, c, vars, d);
        var next := Round(crc, c, vars, d);
        RollsBack(crc, next.0, vars, next.1);
        ExtendsNothing(crc, c, Convert(crc, c, vars, d));
      } else {
        var e, next := FirstWhole(vars, d);
        assert Entries(vars, d)[1..] == Entries(vars, next);
        RoundFits(crc, c, vars, d, e, next);
        var c' := Round(crc, c, vars, d).0;
        var more := ConvertBegins(crc, c', vars, next);
        OneExtends(crc, c, c', e);
        items := [Item(c.id + 1, e)] + more;
        ExtendsMore(crc, c, c', Convert(crc, c, vars, d), [Item(c.id + 1, e)], more);
        assert Contents(items) == [e] + Contents(more);
      }
    }
  }

  lemma FirstWhole(vars: Bytes, d: nat) returns (e: Entry, next: nat)
    requires Mark(vars, d) && Find(vars, d + 4, EQUALS) != |vars|
    ensures Stands(vars, d, e, next) && d + 6 <= next
    ensures Entries(vars, d) == [e] + Entries(vars, next)
  {
    hide Find;
    var eq := Find(vars, d + 4, EQUALS);
    var end := Find(vars, eq + 1, NUL);
    e, next := Entry(vars[d + 4..eq], vars[eq + 1..end]), end + 1;
  }

  lemma OneExtends(crc: Crc, c: Conv, after: Conv, e: Entry)
    requires |c.cache| == PARTITION && c.at + HEADER + |e.name| + |e.value| <= PARTITION
    requires var o := Object(crc, c.id + 1, e); after == Conv(Put(c.cache, c.at, o), c.at + |o|, c.id + 1)
    ensures Extends(crc, c, after, [Item(c.id + 1, e)])
  {
    hide Put, Object;
    var o := Object(crc, c.id + 1, e);
    PutInside(c.cache, c.at, o);
    assert ObjectsOf(crc, [Item(c.id + 1, e)]) == o + ObjectsOf(crc, []);
  }

  lemma {:induction false} ConvertAllBegins(crc: Crc, c: Conv, parts: seq<Bytes>) returns (items: seq<Item>)
    requires |c.cache| == PARTITION && Named(AllEntries(crc, parts))
    requires c.at + Size(AllEntries(crc, parts)) <= PARTITION && c.id + PARTITION * |parts| <= 0xFFFF
    ensures var r := ConvertAll(crc, c, parts);
      && Contents(items) == AllEntries(crc, parts) && Extends(crc, c, r, items)
      && r.at == c.at + Size(AllEntries(crc, parts)) && r.id <= 0xFFFF
    decreases |parts|
  {
    hide PartEntries, Extends, ConvertOne, Size, Contents;
    if parts == [] {
      items := [];
      NothingIsNothing();
      ExtendsNothing(crc, c, c);
    } else {
      var es, rest := PartEntries(crc, parts[0]), AllEntries(crc, parts[1..]);
      SizeConcat(es, rest);
      NamedApart(es, rest);
      var a := OneBegins(crc, c, parts[0]);
      var c' := ConvertOne(crc, c, parts[0]);
      var b := ConvertAllBegins(crc, c', parts[1..]);
      items := a + b;
      ContentsConcat(a, b);
      ExtendsMore(crc, c, c', ConvertAll(crc, c, parts), a, b);
    }
  }

  lemma NothingIsNothing()
    ensures Size([]) == 0 && Contents([]) == []
  {
  }

  lemma NamedApart(a: seq<Entry>, b: seq<Entry>)
    requires Named(a + b)
    ensures Named(a) && Named(b)
  {
    assert forall i :: 0 <= i < |a| ==> (a + b)[i] == a[i];
    assert forall i :: 0 <= i < |b| ==> (a + b)[|a| + i] == b[i];
  }

  lemma OneBegins(crc: Crc, c: Conv, part: Bytes) returns (items: seq<Item>)
    requires |c.cache| == PARTITION && Named(PartEntries(crc, part))
    requires c.at + Size(PartEntries(crc, part)) <= PARTITION && c.id + PARTITION <= 0xFFFF
    ensures var r := ConvertOne(crc, c, part);
      && Contents(items) == PartEntries(crc, part) && Extends(crc, c, r, items)
      && r.at == c.at + Size(PartEntries(crc, part)) && r.id <= c.id + PARTITION
  {
    hide Entries, Convert, Extends;
    if Valid(crc, part) {
      items := ConvertBegins(crc, c, part[4..], 0);
    } else {
      items := [];
      ExtendsNothing(crc, c, c);
    }
  }

  /** For blocks of any kind: when their entries fit, what the written partition says begins with all
      of them, in order and under growing ids; and it is just that exactly when they fit and the
      bytes behind their objects say nothing. */
  lemma MeaningBegins(crc: Crc, parts: seq<Bytes>)
    requires |parts| <= 3
    ensures var es := AllEntries(crc, parts);
      var items := Items(crc, Area(crc, parts));
      var fits := Size(es) <= PARTITION && Named(es);
      && (fits ==>
        && |es| <= |items|
        && (forall i :: 0 <= i < |es| ==> items[i].entry == es[i])
        && (forall i, j :: 0 <= i < j < |es| ==> items[i].id < items[j].id))
      && (Contents(items) == es <==> fits && Items(crc, Area(crc, parts)[Size(es)..]) == [])
  {
    hide AllEntries, Items, ConvertAll, Size, ObjectsOf, Contents;
    var es := AllEntries(crc, parts);
    var area := Area(crc, parts);
    ItemsFit(crc, area);
    if Size(es) <= PARTITION && Named(es) {
      var items := ConvertAllBegins(crc, Empty(), parts);
      var rest := area[Size(es)..];
      assert area == ObjectsOf(crc, items) + rest;
      AllSmall(es);
      ContentsAt(items);
      ObjectsThenRest(crc, items, rest);
      ContentsAt(Items(crc, area));
      ContentsAt(Items(crc, rest));
      ContentsConcat(items, Items(crc, rest));
    }
  }

  lemma {:induction false} FewEntries(es: seq<Entry>)
    ensures |es| * HEADER <= Size(es)
    decreases |es|
  {
    if es != [] {
      FewEntries(es[1..]);
    }
  }

  lemma {:induction false} AllSmall(es: seq<Entry>)
    requires Size(es) <= PARTITION && Named(es)
    ensures forall i :: 0 <= i < |es| ==> Small(es[i])
    decreases |es|
  {
    if es != [] {
      assert forall i :: 0 <= i < |es[1..]| ==> es[1..][i] == es[i + 1];
      AllSmall(es[1..]);
      assert Small(es[0]);
    }
  }

  /** A partition as the old library writes it: checksum, entries, filling. */
  function Partition(crc: Crc, es: seq<Entry>, rest: Bytes): Bytes {
    var vars := Text(es) + rest;
    Le32(crc(vars, 0)) + vars
  }

  lemma PartitionReads(crc: Crc, es: seq<Entry>, rest: Bytes)
    requires Writable(es) && !Mark(rest, 0) && |Text(es) + rest| == VARS
    ensures var p := Partition(crc, es, rest);
      Valid(crc, p) && Entries(p[4..], 0) == es && Whole(p[4..], 0)
  {
    hide Entries, Whole, Text, Mark;
    TextReadsBack(es, rest);
    assert Partition(crc, es, rest)[4..] == Text(es) + rest;
    assert Partition(crc, es, rest)[..4] == Le32(crc(Text(es) + rest, 0));
  }

  /** From one library to the other: what the old one wrote to the three blocks, the new one reads
      from the converted partition, in order, under the ids 1, 2, ... */
  lemma OldToNew(crc: Crc, a: seq<Entry>, b: seq<Entry>, c: seq<Entry>, fillA: Bytes, fillB: Bytes, fillC: Bytes)
    requires Writable(a) && Writable(b) && Writable(c)
    requires !Mark(fillA, 0) && !Mark(fillB, 0) && !Mark(fillC, 0)
    requires |Text(a) + fillA| == |Text(b) + fillB| == |Text(c) + fillC| == VARS
    requires Size(a) + Size(b) + Size(c) <= PARTITION && Named(a + b + c)
    ensures var parts := [Partition(crc, a, fillA), Partition(crc, b, fillB), Partition(crc, c, fillC)];
      Items(crc, Area(crc, parts)) == Numbers(a + b + c, 1)
  {
    hide Valid, Entries, Whole, Text, Mark, Partition, Writable, Area, Items, Numbers, Size;
    var parts := [Partition(crc, a, fillA), Partition(crc, b, fillB), Partition(crc, c, fillC)];
    PartitionReads(crc, a, fillA);
    PartitionReads(crc, b, fillB);
    PartitionReads(crc, c, fillC);
    AllThree(crc, parts);
    assert a + (b + c) == a + b + c;
    SizeConcat(a + b, c);
    SizeConcat(a, b);
    MeaningIsKept(crc, parts);
  }

  lemma AllThree(crc: Crc, parts: seq<Bytes>)
    requires |parts| == 3
    ensures AllEntries(crc, parts)
      == PartEntries(crc, parts[0]) + (PartEntries(crc, parts[1]) + PartEntries(crc, parts[2]))
  {
    hide PartEntries;
    var two := parts[1..];
    var one := two[1..];
    assert two[0] == parts[1] && one[0] == parts[2];
    assert AllEntries(crc, one) == PartEntries(crc, one[0]) + AllEntries(crc, one[1..]);
    assert AllEntries(crc, one[1..]) == [];
    assert AllEntries(crc, two) == PartEntries(crc, two[0]) + AllEntries(crc, one);
  }
}
