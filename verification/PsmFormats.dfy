/** The two storage formats of psm_upgrade_util.c: blocks of text variables, and one
    partition of binary objects, each with its writer and its reader.

    A variable block is what follows the 4-byte checksum of a 4096-byte partition, so 4092 bytes;
    the four bytes behind it are the zeros of partition_num, which is 0 whenever a conversion runs.
    soft_crc32 is any function of a text and a running value. */
module PsmFormats {
  type Byte = x: int | 0 <= x < 256
  type Bytes = seq<Byte>
  type Crc = (Bytes, nat) -> nat

  const PARTITION := 4096
  const HEADER := 12
  const EQUALS: Byte := 0x3D
  const NUL: Byte := 0x00
  const BLANK: Byte := 0xFF
  const PREFIX: Bytes := [0x57, 0x4D, 0x43, 0x2E]  // "WMC."

  datatype Entry = Entry(name: Bytes, value: Bytes)

  // ----- the text format -----

  /** Reading runs into the zeros behind the block. */
  function At(vars: Bytes, d: nat): Byte {
    if d < |vars| then vars[d] else NUL
  }

  /** The first `stop` from d on, or the end. */
  function Find(vars: Bytes, d: nat, stop: Byte): (r: nat)
    requires d <= |vars|
    ensures d <= r <= |vars| && (r < |vars| ==> vars[r] == stop)
    ensures forall i :: d <= i < r ==> vars[i] != stop
    decreases |vars| - d
  {
    if d == |vars| || vars[d] == stop then d else Find(vars, d + 1, stop)
  }

  predicate Mark(vars: Bytes, d: nat) {
    d + 4 <= |vars| && vars[d..d + 4] == PREFIX
  }

  /** What a block says: entries from d on, each up to its NUL or the end of the block. */
  function Entries(vars: Bytes, d: nat): seq<Entry>
    decreases |vars| - d
  {
    if !Mark(vars, d) then []
    else
      var eq := Find(vars, d + 4, EQUALS);
      if eq == |vars| then []
      else
        var end := Find(vars, eq + 1, NUL);
        [Entry(vars[d + 4..eq], vars[eq + 1..end])] + Entries(vars, end + 1)
  }

  /** No entry lacks its equals sign. */
  predicate Whole(vars: Bytes, d: nat)
    decreases |vars| - d
  {
    Mark(vars, d) ==>
      var eq := Find(vars, d + 4, EQUALS);
      eq < |vars| && Whole(vars, Find(vars, eq + 1, NUL) + 1)
  }

  /** The writer of that format. */
  function Written(e: Entry): Bytes {
    PREFIX + e.name + [EQUALS] + e.value + [NUL]
  }

  function Text(es: seq<Entry>): Bytes {
    if es == [] then [] else Written(es[0]) + Text(es[1..])
  }

  predicate Writable(es: seq<Entry>) {
    forall i :: 0 <= i < |es| ==> EQUALS !in es[i].name && NUL !in es[i].value
  }

  lemma {:induction false} FindAt(vars: Bytes, d: nat, stop: Byte, r: nat)
    requires d <= r < |vars| && vars[r] == stop && forall i :: d <= i < r ==> vars[i] != stop
    ensures Find(vars, d, stop) == r
    decreases r - d
  {
    if d < r {
      FindAt(vars, d + 1, stop, r);
    }
  }

  /** The entry that stands at d, if there is a whole one, and where the next would start. */
  predicate Stands(vars: Bytes, d: nat, e: Entry, next: nat) {
    && Mark(vars, d)
    && var eq := Find(vars, d + 4, EQUALS);
    && eq < |vars| && vars[d + 4..eq] == e.name
    && var end := Find(vars, eq + 1, NUL);
    && vars[eq + 1..end] == e.value && end + 1 == next
  }

  lemma StandsFirst(vars: Bytes, d: nat, e: Entry, next: nat)
    requires Stands(vars, d, e, next)
    ensures Entries(vars, d) == [e] + Entries(vars, next) && Whole(vars, d) == Whole(vars, next)
  {
  }

  /** One written entry is read back, wherever it stands. */
  lemma ReadOne(before: Bytes, e: Entry, after: Bytes)
    requires EQUALS !in e.name && NUL !in e.value
    ensures Stands(before + Written(e) + after, |before|, e, |before + Written(e)|)
  {
    hide Find;
    var vars := before + Written(e) + after;
    var start := |before| + 4;
    assert vars[|before|..start] == PREFIX;
    var eq, end := start + |e.name|, start + |e.name| + 1 + |e.value|;
    assert vars[start..eq] == e.name && vars[eq] == EQUALS;
    assert forall i :: start <= i < eq ==> vars[i] == e.name[i - start];
    FindAt(vars, start, EQUALS, eq);
    assert vars[eq + 1..end] == e.value && vars[end] == NUL;
    assert forall i :: eq + 1 <= i < end ==> vars[i] == e.value[i - eq - 1];
    FindAt(vars, eq + 1, NUL, end);
  }

  lemma {:induction false} ReadText(before: Bytes, es: seq<Entry>, rest: Bytes)
    requires Writable(es) && !Mark(rest, 0)
    ensures var vars := before + Text(es) + rest;
      Entries(vars, |before|) == es && Whole(vars, |before|)
    decreases |es|
  {
    hide Stands, Written, Find;
    var vars := before + Text(es) + rest;
    if es == [] {
      NoMarkBehind(before, rest);
      assert vars == before + rest;
    } else {
      ReadTextStep(before, es, rest);
      ReadText(before + Written(es[0]), es[1..], rest);
    }
  }

  lemma ReadTextStep(before: Bytes, es: seq<Entry>, rest: Bytes)
    requires Writable(es) && es != []
    ensures var vars := before + Text(es) + rest;
      var next := before + Written(es[0]);
      && vars == next + Text(es[1..]) + rest
      && Entries(vars, |before|) == [es[0]] + Entries(vars, |next|) && Whole(vars, |before|) == Whole(vars, |next|)
  {
    hide Entries, Whole, Stands, Written;
    var vars := before + Text(es) + rest;
    assert vars == before + Written(es[0]) + (Text(es[1..]) + rest);
    ReadOne(before, es[0], Text(es[1..]) + rest);
    StandsFirst(vars, |before|, es[0], |before + Written(es[0])|);
  }

  lemma NoMarkBehind(before: Bytes, rest: Bytes)
    requires !Mark(rest, 0)
    ensures !Mark(before + rest, |before|)
  {
    if |rest| >= 4 {
      assert (before + rest)[|before|..|before| + 4] == rest[0..4];
    }
  }

  /** Reading gives back what was written, whatever fills the block behind it. */
  lemma TextReadsBack(es: seq<Entry>, rest: Bytes)
    requires Writable(es) && !Mark(rest, 0)
    ensures Entries(Text(es) + rest, 0) == es && Whole(Text(es) + rest, 0)
  {
    hide Entries, Whole, Text;
    ReadText([], es, rest);
    assert [] + Text(es) + rest == Text(es) + rest;
  }

  // ----- the object format -----

  function Low(n: nat): Byte { n % 256 }

  function Le16(n: nat): Bytes { [Low(n), Low(n / 256)] }

  function Le32(n: nat): Bytes { Le16(n) + Le16(n / 0x1_0000) }

  function Word(a: Byte, b: Byte): nat { a + 256 * b }

  lemma WordLe16(n: nat)
    requires n < 0x1_0000
    ensures Word(Le16(n)[0], Le16(n)[1]) == n
  {
  }

  const UNSEALED: Bytes := [BLANK, BLANK, BLANK, BLANK]

  function Header(id: nat, nameLen: nat, dataLen: nat, seal: Bytes): (r: Bytes)
    requires |seal| == 4
    ensures |r| == HEADER
  {
    [0x55, 0xAA, 0xFF] + seal + Le16(dataLen) + Le16(id) + [Low(nameLen)]
  }

  /** The checksum over name, value and the header with its own field blank. */
  function Seal(crc: Crc, header: Bytes, name: Bytes, value: Bytes): Bytes {
    Le32(crc(header, crc(value, crc(name, 0))))
  }

  function Object(crc: Crc, id: nat, e: Entry): (r: Bytes)
    ensures |r| == HEADER + |e.name| + |e.value|
  {
    var seal := Seal(crc, Header(id, |e.name|, |e.value|, UNSEALED), e.name, e.value);
    Header(id, |e.name|, |e.value|, seal) + e.name + e.value
  }

  datatype Item = Item(id: nat, entry: Entry)

  /** One object at the start of a text, if its type, its lengths and its checksum are right. */
  datatype Found = Nothing | Found(item: Item, len: nat)

  function ReadObject(crc: Crc, s: Bytes): (r: Found)
    ensures r.Found? ==> HEADER <= r.len <= |s|
    ensures r.Found? ==> r.len == HEADER + |r.item.entry.name| + |r.item.entry.value| && |r.item.entry.name| < 256
  {
    if |s| < HEADER || s[..2] != [0x55, 0xAA] then Nothing
    else
      var nl, dl := s[11], Word(s[7], s[8]);
      if HEADER + nl + dl > |s| then Nothing
      else
        var name, value := s[HEADER..HEADER + nl], s[HEADER + nl..HEADER + nl + dl];
        if s[3..7] != Seal(crc, s[..3] + UNSEALED + s[7..HEADER], name, value) then Nothing
        else Found(Item(Word(s[9], s[10]), Entry(name, value)), HEADER + nl + dl)
  }

  /** What a partition of objects says. */
  function Items(crc: Crc, s: Bytes): seq<Item>
    decreases |s|
  {
    match ReadObject(crc, s)
    case Nothing => []
    case Found(item, len) => [item] + Items(crc, s[len..])
  }

  /** Consecutive objects, numbered from first. */
  function Objects(crc: Crc, es: seq<Entry>, first: nat): Bytes
    decreases |es|
  {
    if es == [] then [] else Object(crc, first, es[0]) + Objects(crc, es[1..], first + 1)
  }

  function Size(es: seq<Entry>): nat {
    if es == [] then 0 else HEADER + |es[0].name| + |es[0].value| + Size(es[1..])
  }

  lemma {:induction false} ObjectsLength(crc: Crc, es: seq<Entry>, first: nat)
    ensures |Objects(crc, es, first)| == Size(es)
    decreases |es|
  {
    hide Object;
    if es != [] {
      ObjectsLength(crc, es[1..], first + 1);
    }
  }

  function Numbers(es: seq<Entry>, first: nat): seq<Item>
    decreases |es|
  {
    if es == [] then [] else [Item(first, es[0])] + Numbers(es[1..], first + 1)
  }

  predicate Small(e: Entry) {
    |e.name| < 256 && |e.value| < 0x1_0000
  }

  lemma ReadBack(crc: Crc, id: nat, e: Entry, rest: Bytes)
    requires Small(e) && id < 0x1_0000
    ensures ReadObject(crc, Object(crc, id, e) + rest) == Found(Item(id, e), |Object(crc, id, e)|)
  {
    hide Seal, Le16, Word, Low;
    var seal := Seal(crc, Header(id, |e.name|, |e.value|, UNSEALED), e.name, e.value);
    SealLength(crc, Header(id, |e.name|, |e.value|, UNSEALED), e.name, e.value);
    var h := Header(id, |e.name|, |e.value|, seal);
    var s := Object(crc, id, e) + rest;
    var n, v := |e.name|, |e.value|;
    Le16Length(v);
    Le16Length(id);
    WordLe16(v);
    WordLe16(id);
    LowNat(n);
    assert s[..HEADER] == h;
    assert s[..2] == h[..2] == [0x55, 0xAA];
    assert s[11] == h[11] == Low(n);
    assert s[7] == h[7] == Le16(v)[0] && s[8] == h[8] == Le16(v)[1];
    assert s[9] == h[9] == Le16(id)[0] && s[10] == h[10] == Le16(id)[1];
    assert s[HEADER..HEADER + n] == e.name && s[HEADER + n..HEADER + n + v] == e.value;
    assert s[3..7] == h[3..7] == seal;
    assert s[..3] + UNSEALED + s[7..HEADER] == Header(id, n, v, UNSEALED) by {
      assert s[..3] == h[..3] == [0x55, 0xAA, 0xFF];
      assert s[7..HEADER] == h[7..HEADER] == Le16(v) + Le16(id) + [Low(n)];
    }
  }

  lemma SealLength(crc: Crc, header: Bytes, name: Bytes, value: Bytes)
    ensures |Seal(crc, header, name, value)| == 4
  {
  }

  lemma Le16Length(n: nat)
    ensures |Le16(n)| == 2
  {
  }

  lemma LowNat(n: nat)
    requires n < 256
    ensures Low(n) == n
  {
  }

  /** Objects followed by blank bytes say exactly their entries, under consecutive numbers. */
  lemma {:induction false} ObjectsReadBack(crc: Crc, es: seq<Entry>, first: nat, fill: nat)
    requires (forall i :: 0 <= i < |es| ==> Small(es[i])) && first + |es| <= 0x1_0000
    ensures Items(crc, Objects(crc, es, first) + seq(fill, _ => BLANK)) == Numbers(es, first)
    decreases |es|
  {
    hide ReadObject, Object, Small;
    var blank := seq(fill, _ => BLANK);
    var s := Objects(crc, es, first) + blank;
    if es == [] {
      assert s == blank;
      BlankIsNothing(crc, fill);
    } else {
      var o := Object(crc, first, es[0]);
      var rest := Objects(crc, es[1..], first + 1) + blank;
      assert s == o + rest && s[|o|..] == rest;
      ReadBack(crc, first, es[0], rest);
      ObjectsReadBack(crc, es[1..], first + 1, fill);
    }
  }

  lemma BlankIsNothing(crc: Crc, fill: nat)
    ensures ReadObject(crc, seq(fill, _ => BLANK)) == Nothing
  {
    var s: Bytes := seq(fill, _ => BLANK);
    if fill >= HEADER {
      assert s[..2][0] == BLANK;
    }
  }

  function Contents(items: seq<Item>): seq<Entry> {
    if items == [] then [] else [items[0].entry] + Contents(items[1..])
  }

  lemma {:induction false} NumbersContents(es: seq<Entry>, first: nat)
    ensures Contents(Numbers(es, first)) == es
    decreases |es|
  {
    if es != [] {
      NumbersContents(es[1..], first + 1);
    }
  }

  /** No partition can say more than fits in it, nor a name of more than 255 bytes. */
  lemma {:induction false} ItemsFit(crc: Crc, s: Bytes)
    ensures Size(Contents(Items(crc, s))) <= |s|
    ensures forall i :: 0 <= i < |Contents(Items(crc, s))| ==> |Contents(Items(crc, s))[i].name| < 256
    decreases |s|
  {
    hide ReadObject;
    var r := ReadObject(crc, s);
    if r.Found? {
      var rest := Items(crc, s[r.len..]);
      ItemsFit(crc, s[r.len..]);
      assert Items(crc, s)[1..] == rest;
      assert Contents(Items(crc, s)) == [r.item.entry] + Contents(rest);
      assert Contents(Items(crc, s))[1..] == Contents(rest);
    }
  }
}
