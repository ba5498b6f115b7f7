/** The CRC-16 of xmodem.c: the bit-serial form, the table form, and what both compute.

    Polynomials over GF(2) are bit sequences, highest power first. */
module Crc16 {

  /** x^16 + x^12 + x^5 + 1 without its leading term. */
  const G: bv16 := 0x1021

  type Bytes = seq<bv8>

  // ----- one bit, one byte -----

  /** Addition of polynomials, multiplication by x before reduction, and whether that overflows. */
  function Xor(a: bv16, b: bv16): bv16 { a ^ b }
  function Up(r: bv16): bv16 { r << 1 }
  predicate Top(r: bv16) { r & 0x8000 != 0 }

  /** One round of the inner loop: multiplication by x modulo the generator. */
  function Shift(r: bv16): bv16 {
    if Top(r) then Xor(Up(r), G) else Up(r)
  }

  function Shift8(r: bv16): bv16 {
    Shift(Shift(Shift(Shift(Shift(Shift(Shift(Shift(r))))))))
  }

  function CrcByte(r: bv16, b: bv8): bv16 {
    Shift8(r ^ ((b as bv16) << 8))
  }

  function Crc(r: bv16, buf: Bytes): bv16
    decreases buf
  {
    if buf == [] then r else Crc(CrcByte(r, buf[0]), buf[1..])
  }

  // ----- the two builds -----

  method Bitwise(buf: Bytes) returns (crc: bv16)
    ensures crc == Crc(0, buf)
  {
    crc := 0;
    var k := 0;
    while k < |buf|
      invariant k <= |buf|
      invariant Crc(0, buf) == Crc(crc, buf[k..])
    {
      assert buf[k..][1..] == buf[k + 1..];
      crc := crc ^ ((buf[k] as bv16) << 8);
      ghost var whole := Shift8(crc);
      Shift8IsShifts(crc);
      var i := 0;
      while i < 8
        invariant 0 <= i <= 8
        invariant whole == Shifts(crc, 8 - i)
      {
        if crc & 0x8000 != 0 {
          crc := (crc << 1) ^ G;
        } else {
          crc := crc << 1;
        }
        i := i + 1;
      }
      k := k + 1;
    }
  }

  function Shifts(r: bv16, n: nat): bv16
    decreases n
  {
    if n == 0 then r else Shifts(Shift(r), n - 1)
  }

  lemma Shift8IsShifts(r: bv16)
    ensures Shift8(r) == Shifts(r, 8)
  {
    hide Shift;
    var r2, r4, r6 := Shift(Shift(r)), Shift(Shift(Shift(Shift(r)))), Shift(Shift(Shift(Shift(Shift(Shift(r))))));
    assert Shifts(r, 8) == Shifts(r2, 6) == Shifts(r4, 4) == Shifts(r6, 2) == Shift(Shift(r6));
  }

  function Row(h: bv8): (r: seq<bv16>)
    requires h < 16
    ensures |r| == 16
  {
    if h == 0 then [
      0x0000, 0x1021, 0x2042, 0x3063, 0x4084, 0x50a5, 0x60c6, 0x70e7,
      0x8108, 0x9129, 0xa14a, 0xb16b, 0xc18c, 0xd1ad, 0xe1ce, 0xf1ef]
    else if h == 1 then [
      0x1231, 0x0210, 0x3273, 0x2252, 0x52b5, 0x4294, 0x72f7, 0x62d6,
      0x9339, 0x8318, 0xb37b, 0xa35a, 0xd3bd, 0xc39c, 0xf3ff, 0xe3de]
    else if h == 2 then [
      0x2462, 0x3443, 0x0420, 0x1401, 0x64e6, 0x74c7, 0x44a4, 0x5485,
      0xa56a, 0xb54b, 0x8528, 0x9509, 0xe5ee, 0xf5cf, 0xc5ac, 0xd58d]
    else if h == 3 then [
      0x3653, 0x2672, 0x1611, 0x0630, 0x76d7, 0x66f6, 0x5695, 0x46b4,
      0xb75b, 0xa77a, 0x9719, 0x8738, 0xf7df, 0xe7fe, 0xd79d, 0xc7bc]
    else if h == 4 then [
      0x48c4, 0x58e5, 0x6886, 0x78a7, 0x0840, 0x1861, 0x2802, 0x3823,
      0xc9cc, 0xd9ed, 0xe98e, 0xf9af, 0x8948, 0x9969, 0xa90a, 0xb92b]
    else if h == 5 then [
      0x5af5, 0x4ad4, 0x7ab7, 0x6a96, 0x1a71, 0x0a50, 0x3a33, 0x2a12,
      0xdbfd, 0xcbdc, 0xfbbf, 0xeb9e, 0x9b79, 0x8b58, 0xbb3b, 0xab1a]
    else if h == 6 then [
      0x6ca6, 0x7c87, 0x4ce4, 0x5cc5, 0x2c22, 0x3c03, 0x0c60, 0x1c41,
      0xedae, 0xfd8f, 0xcdec, 0xddcd, 0xad2a, 0xbd0b, 0x8d68, 0x9d49]
    else if h == 7 then [
      0x7e97, 0x6eb6, 0x5ed5, 0x4ef4, 0x3e13, 0x2e32, 0x1e51, 0x0e70,
      0xff9f, 0xefbe, 0xdfdd, 0xcffc, 0xbf1b, 0xaf3a, 0x9f59, 0x8f78]
    else if h == 8 then [
      0x9188, 0x81a9, 0xb1ca, 0xa1eb, 0xd10c, 0xc12d, 0xf14e, 0xe16f,
      0x1080, 0x00a1, 0x30c2, 0x20e3, 0x5004, 0x4025, 0x7046, 0x6067]
    else if h == 9 then [
      0x83b9, 0x9398, 0xa3fb, 0xb3da, 0xc33d, 0xd31c, 0xe37f, 0xf35e,
      0x02b1, 0x1290, 0x22f3, 0x32d2, 0x4235, 0x5214, 0x6277, 0x7256]
    else if h == 10 then [
      0xb5ea, 0xa5cb, 0x95a8, 0x8589, 0xf56e, 0xe54f, 0xd52c, 0xc50d,
      0x34e2, 0x24c3, 0x14a0, 0x0481, 0x7466, 0x6447, 0x5424, 0x4405]
    else if h == 11 then [
      0xa7db, 0xb7fa, 0x8799, 0x97b8, 0xe75f, 0xf77e, 0xc71d, 0xd73c,
      0x26d3, 0x36f2, 0x0691, 0x16b0, 0x6657, 0x7676, 0x4615, 0x5634]
    else if h == 12 then [
      0xd94c, 0xc96d, 0xf90e, 0xe92f, 0x99c8, 0x89e9, 0xb98a, 0xa9ab,
      0x5844, 0x4865, 0x7806, 0x6827, 0x18c0, 0x08e1, 0x3882, 0x28a3]
    else if h == 13 then [
      0xcb7d, 0xdb5c, 0xeb3f, 0xfb1e, 0x8bf9, 0x9bd8, 0xabbb, 0xbb9a,
      0x4a75, 0x5a54, 0x6a37, 0x7a16, 0x0af1, 0x1ad0, 0x2ab3, 0x3a92]
    else if h == 14 then [
      0xfd2e, 0xed0f, 0xdd6c, 0xcd4d, 0xbdaa, 0xad8b, 0x9de8, 0x8dc9,
      0x7c26, 0x6c07, 0x5c64, 0x4c45, 0x3ca2, 0x2c83, 0x1ce0, 0x0cc1]
    else [
      0xef1f, 0xff3e, 0xcf5d, 0xdf7c, 0xaf9b, 0xbfba, 0x8fd9, 0x9ff8,
      0x6e17, 0x7e36, 0x4e55, 0x5e74, 0x2e93, 0x3eb2, 0x0ed1, 0x1ef0]
  }

  /** The table of the other build. */
  function Table(x: bv8): bv16 {
    Row(x >> 4)[(x & 15) as int]
  }

  method ByTable(buf: Bytes) returns (crc: bv16)
    ensures crc == Crc(0, buf)
  {
    hide Table, CrcByte;
    crc := 0;
    var k := 0;
    while k < |buf|
      invariant k <= |buf|
      invariant Crc(0, buf) == Crc(crc, buf[k..])
    {
      assert buf[k..][1..] == buf[k + 1..];
      var index := ((crc >> 8) as bv8) ^ buf[k];
      TableStep(crc, buf[k]);
      crc := (crc << 8) ^ Table(index);
      k := k + 1;
    }
  }

  // The table, a quarter at a time.

  lemma FirstQuarter(x: bv8)
    requires x < 0x40
    ensures Table(x) == Shift8((x as bv16) << 8)
  {
  }

  lemma SecondQuarter(x: bv8)
    requires 0x40 <= x < 0x80
    ensures Table(x) == Shift8((x as bv16) << 8)
  {
  }

  lemma ThirdQuarter(x: bv8)
    requires 0x80 <= x < 0xC0
    ensures Table(x) == Shift8((x as bv16) << 8)
  {
  }

  lemma FourthQuarter(x: bv8)
    requires x >= 0xC0
    ensures Table(x) == Shift8((x as bv16) << 8)
  {
  }

  /** Each entry of the table is its index shifted eight times. */
  lemma TableIsShift8(x: bv8)
    ensures Table(x) == Shift8((x as bv16) << 8)
  {
    hide Table, Shift8;
    if x < 0x40 {
      FirstQuarter(x);
    } else if x < 0x80 {
      SecondQuarter(x);
    } else if x < 0xC0 {
      ThirdQuarter(x);
    } else {
      FourthQuarter(x);
    }
  }

  // ----- linearity -----

  lemma XorUp(a: bv16, b: bv16)
    ensures Up(Xor(a, b)) == Xor(Up(a), Up(b))
  {
  }

  lemma XorTop(a: bv16, b: bv16)
    ensures Top(Xor(a, b)) <==> Top(a) != Top(b)
  {
  }

  lemma XorAssoc(a: bv16, b: bv16, c: bv16)
    ensures Xor(Xor(a, b), c) == Xor(a, Xor(b, c))
  {
  }

  lemma XorSwaps(a: bv16, b: bv16)
    ensures Xor(a, b) == Xor(b, a)
  {
  }

  lemma XorCancels(a: bv16, b: bv16)
    ensures Xor(Xor(a, b), b) == a
  {
  }

  lemma ShiftLinear(a: bv16, b: bv16)
    ensures Shift(Xor(a, b)) == Xor(Shift(a), Shift(b))
  {
    hide Xor, Up, Top;
    var u, v := Up(a), Up(b);
    XorUp(a, b);
    XorTop(a, b);
    XorAssoc(u, v, G);
    XorAssoc(u, G, v);
    XorSwaps(G, v);
    XorAssoc(Xor(u, G), v, G);
    XorCancels(Xor(u, v), G);
  }

  lemma {:induction false} ShiftsLinear(a: bv16, b: bv16, n: nat)
    ensures Shifts(Xor(a, b), n) == Xor(Shifts(a, n), Shifts(b, n))
    decreases n
  {
    hide Shift, Xor;
    if n > 0 {
      ShiftLinear(a, b);
      ShiftsLinear(Shift(a), Shift(b), n - 1);
    }
  }

  lemma Shift8Low(r: bv16)
    requires r & 0xff00 == 0
    ensures Shift8(r) == r << 8
  {
  }

  lemma SplitWord(r: bv16, b: bv8)
    ensures r ^ ((b as bv16) << 8) == (((((r >> 8) as bv8) ^ b) as bv16) << 8) ^ (r & 0xff)
  {
  }

  lemma LowByte(r: bv16)
    ensures Shift8(r & 0xff) == r << 8
  {
    assert (r & 0xff) & 0xff00 == 0 && (r & 0xff) << 8 == r << 8;
    Shift8Low(r & 0xff);
  }

  lemma Shift8Linear(a: bv16, b: bv16)
    ensures Shift8(Xor(a, b)) == Xor(Shift8(a), Shift8(b))
  {
    hide Shift8, Xor, Shift, Shifts;
    Shift8IsShifts(a);
    Shift8IsShifts(b);
    Shift8IsShifts(Xor(a, b));
    ShiftsLinear(a, b, 8);
  }

  /** One step of the table form is eight steps of the bitwise form. */
  lemma TableStep(r: bv16, b: bv8)
    ensures Xor(r << 8, Table(((r >> 8) as bv8) ^ b)) == CrcByte(r, b)
  {
    var index := ((r >> 8) as bv8) ^ b;
    TableIsShift8(index);
    SplitWord(r, b);
    LowByte(r);
    TableJoin((index as bv16) << 8, r & 0xff, r << 8);
  }

  lemma TableJoin(high: bv16, low: bv16, up: bv16)
    requires Shift8(low) == up
    ensures Xor(up, Shift8(high)) == Shift8(Xor(high, low))
  {
    hide Shift8, Xor;
    Shift8Linear(high, low);
    XorSwaps(Shift8(high), up);
  }
}
