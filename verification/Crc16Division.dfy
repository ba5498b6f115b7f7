/** What the CRC-16 of a buffer is: the remainder of its bits, times x^16, modulo the generator;
    and what it catches. */
module Crc16Division {
  import opened BitSequence
  import opened Crc16

  // ----- bit by bit -----

  function ByteBits(b: bv8): (r: Bits)
    ensures |r| == 8
  {
    [b & 0x80 != 0, b & 0x40 != 0, b & 0x20 != 0, b & 0x10 != 0, b & 8 != 0, b & 4 != 0, b & 2 != 0, b & 1 != 0]
  }

  function BitsOf(buf: Bytes): (r: Bits)
    ensures |r| == 8 * |buf|
  {
    if buf == [] then [] else ByteBits(buf[0]) + BitsOf(buf[1..])
  }

  function TopBit(b: bool): bv16 { if b then 0x8000 else 0 }

  /** One message bit enters the register. */
  function Feed(r: bv16, b: bool): bv16 {
    Shift(Xor(r, TopBit(b)))
  }

  function FeedAll(r: bv16, bits: Bits): bv16
    decreases bits
  {
    if bits == [] then r else FeedAll(Feed(r, bits[0]), bits[1..])
  }

  lemma {:induction false} FeedConcat(r: bv16, a: Bits, b: Bits)
    ensures FeedAll(r, a + b) == FeedAll(FeedAll(r, a), b)
    decreases a
  {
    hide Feed;
    if a == [] {
      assert a + b == b;
    } else {
      assert (a + b)[1..] == a[1..] + b;
      FeedConcat(Feed(r, a[0]), a[1..], b);
    }
  }

  // ----- up to sixteen bits at once -----

  function Down(p: bv16): bv16 { p >> 1 }
  predicate Clear(p: bv16, m: bv16) { p & m == 0 }

  /** The bits as the top of a word. */
  function Pack(u: Bits): bv16 {
    if u == [] then 0 else Xor(TopBit(u[0]), Down(Pack(u[1..])))
  }

  /** What n packed bits leave free. */
  function Mask(n: nat): bv16 {
    if n == 0 then 0xffff else Down(Mask(n - 1))
  }

  lemma MaskStep(b: bool, p: bv16, m: bv16)
    requires Clear(p, m)
    ensures Clear(Xor(TopBit(b), Down(p)), Down(m))
  {
  }

  /** A packed sequence of n bits fills only the n highest bits of the word. */
  lemma {:induction false} PackHigh(u: Bits)
    ensures Clear(Pack(u), Mask(|u|))
  {
    if u == [] {
      assert Clear(0, 0xffff);
    } else {
      PackHighStep(u);
      PackHigh(u[1..]);
      MaskStep(u[0], Pack(u[1..]), Mask(|u| - 1));
    }
  }

  lemma PackHighStep(u: Bits)
    requires u != []
    ensures Pack(u) == Xor(TopBit(u[0]), Down(Pack(u[1..]))) && Mask(|u|) == Down(Mask(|u| - 1))
  {
  }

  lemma MaskLow(n: nat)
    requires n < 16
    ensures Mask(n) & 1 == 1
  {
    assert Mask(3) == 0x1fff && Mask(6) == 0x03ff && Mask(9) == 0x007f && Mask(12) == 0x000f && Mask(15) == 1;
  }

  /** Halving and shifting back loses nothing when the lowest bit is free. */
  lemma ShiftHalf(p: bv16, m: bv16)
    requires Clear(p, m) && m & 1 == 1
    ensures Shift(Down(p)) == p
  {
  }

  lemma PackHalf(u: Bits)
    requires |u| < 16
    ensures Shift(Down(Pack(u))) == Pack(u)
  {
    hide Shift, Down;
    PackHigh(u);
    MaskLow(|u|);
    ShiftHalf(Pack(u), Mask(|u|));
  }

  /** Feeding up to sixteen bits is adding them at the top and shifting. */
  lemma {:induction false} FeedPacked(r: bv16, u: Bits)
    requires |u| <= 16
    ensures FeedAll(r, u) == Shifts(Xor(r, Pack(u)), |u|)
    decreases u
  {
    hide Shift, Xor, Down, TopBit;
    if u == [] {
      XorZero(r);
    } else {
      var b, p := TopBit(u[0]), Pack(u[1..]);
      FeedPacked(Feed(r, u[0]), u[1..]);
      PackHalf(u[1..]);
      JoinStep(r, b, Down(p));
    }
  }

  lemma XorZero(r: bv16)
    ensures Xor(r, 0) == r && Xor(0, r) == r && Xor(r, r) == 0
  {
  }

  lemma JoinStep(r: bv16, b: bv16, h: bv16)
    ensures Xor(Shift(Xor(r, b)), Shift(h)) == Shift(Xor(r, Xor(b, h)))
  {
    hide Shift, Xor;
    ShiftLinear(Xor(r, b), h);
    XorAssoc(r, b, h);
  }

  function Put(b: bool, rest: bv16): bv16 { Xor(TopBit(b), Down(rest)) }

  lemma PackFrom(u: Bits, k: nat)
    requires k < |u|
    ensures Pack(u[k..]) == Put(u[k], Pack(u[k + 1..]))
  {
    assert u[k..][1..] == u[k + 1..];
  }

  lemma PackByte(b: bv8)
    ensures Pack(ByteBits(b)) == (b as bv16) << 8
  {
    hide Put, Pack;
    var u := ByteBits(b);
    PackFrom(u, 0);
    PackFrom(u, 1);
    PackFrom(u, 2);
    PackFrom(u, 3);
    PackFrom(u, 4);
    PackFrom(u, 5);
    PackFrom(u, 6);
    PackFrom(u, 7);
    PackNothing(u[8..]);
    assert u[0..] == u;
    ByteJoin(b);
  }

  lemma PackNothing(u: Bits)
    requires u == []
    ensures Pack(u) == 0
  {
  }

  lemma ByteJoin(x: bv8)
    ensures Put(x & 0x80 != 0, Put(x & 0x40 != 0, Put(x & 0x20 != 0, Put(x & 0x10 != 0,
              Put(x & 8 != 0, Put(x & 4 != 0, Put(x & 2 != 0, Put(x & 1 != 0, 0)))))))) == (x as bv16) << 8
  {
  }

  /** The byte loop of the code is the bit loop of the theory. */
  lemma {:induction false} CrcIsFeed(r: bv16, buf: Bytes)
    ensures Crc(r, buf) == FeedAll(r, BitsOf(buf))
    decreases buf
  {
    if buf != [] {
      var b := buf[0];
      FeedByte(r, b);
      FeedConcat(r, ByteBits(b), BitsOf(buf[1..]));
      CrcIsFeed(CrcByte(r, b), buf[1..]);
    }
  }

  lemma FeedByte(r: bv16, b: bv8)
    ensures FeedAll(r, ByteBits(b)) == CrcByte(r, b)
  {
    hide FeedAll, ByteBits, Pack, Shift8, Shifts;
    FeedPacked(r, ByteBits(b));
    PackByte(b);
    Shift8IsShifts(Xor(r, (b as bv16) << 8));
  }

  // ----- division -----

  function Ups(r: bv16, n: nat): bv16
    decreases n
  {
    if n == 0 then r else Ups(Up(r), n - 1)
  }

  function WordBits(r: bv16): (w: Bits)
    ensures |w| == 16
  {
    seq(16, i requires 0 <= i < 16 => Top(Ups(r, i)))
  }

  /** x^16 + x^12 + x^5 + 1. */
  const GENERATOR: Bits := [true] + WordBits(G)

  /** q times the generator, by schoolbook multiplication. */
  function Times(q: Bits): (r: Bits)
    ensures |r| == |q| + 16
  {
    if q == [] then Zeros(16)
    else
      var n := |q| - 1;
      Add(Times(q[..n]) + [false], Zeros(n) + if q[n] then GENERATOR else Zeros(17))
  }

  /** The bits times x^16 are q times the generator plus the remainder r. */
  ghost predicate Divides(m: Bits, q: Bits, r: bv16) {
    |q| == |m| && m + Zeros(16) == Add(Times(q), Zeros(|m|) + WordBits(r))
  }

  lemma {:induction false} UpsNext(r: bv16, n: nat)
    ensures Ups(r, n + 1) == Up(Ups(r, n))
    decreases n
  {
    if n > 0 {
      UpsNext(Up(r), n - 1);
    }
  }

  /** The generator has exactly the powers 16, 12, 5 and 0. */
  lemma GeneratorTerms()
    ensures forall i :: 0 <= i <= 16 ==> (GENERATOR[i] <==> i == 0 || i == 4 || i == 11 || i == 16)
  {
    hide Ups;
    NoUps(G);
    UpsNext(G, 0);
    assert Ups(G, 1) == 0x2042;
    UpsNext(G, 1);
    assert Ups(G, 2) == 0x4084;
    UpsNext(G, 2);
    assert Ups(G, 3) == 0x8108;
    UpsNext(G, 3);
    assert Ups(G, 4) == 0x0210;
    UpsNext(G, 4);
    assert Ups(G, 5) == 0x0420;
    UpsNext(G, 5);
    assert Ups(G, 6) == 0x0840;
    UpsNext(G, 6);
    assert Ups(G, 7) == 0x1080;
    UpsNext(G, 7);
    assert Ups(G, 8) == 0x2100;
    UpsNext(G, 8);
    assert Ups(G, 9) == 0x4200;
    UpsNext(G, 9);
    assert Ups(G, 10) == 0x8400;
    UpsNext(G, 10);
    assert Ups(G, 11) == 0x0800;
    UpsNext(G, 11);
    assert Ups(G, 12) == 0x1000;
    UpsNext(G, 12);
    assert Ups(G, 13) == 0x2000;
    UpsNext(G, 13);
    assert Ups(G, 14) == 0x4000;
    UpsNext(G, 14);
    assert Ups(G, 15) == 0x8000;
  }

  lemma NoUps(r: bv16)
    ensures Ups(r, 0) == r
  {
  }

  lemma {:induction false} UpsXor(a: bv16, b: bv16, n: nat)
    ensures Ups(Xor(a, b), n) == Xor(Ups(a, n), Ups(b, n))
    decreases n
  {
    hide Xor, Up;
    if n > 0 {
      XorUp(a, b);
      UpsXor(Up(a), Up(b), n - 1);
    }
  }

  lemma WordBitsXor(a: bv16, b: bv16)
    ensures WordBits(Xor(a, b)) == Add(WordBits(a), WordBits(b))
  {
    hide Xor, Up, Top, Ups;
    forall i: nat | i < 16
      ensures WordBits(Xor(a, b))[i] == Add(WordBits(a), WordBits(b))[i]
    {
      UpsXor(a, b, i);
      XorTop(Ups(a, i), Ups(b, i));
    }
  }

  lemma UpsOut(r: bv16)
    ensures Ups(r, 16) == 0
  {
    hide Up;
    var r4 := Up(Up(Up(Up(r))));
    var r8 := Up(Up(Up(Up(r4))));
    var r12 := Up(Up(Up(Up(r8))));
    assert Ups(r, 16) == Ups(r4, 12) == Ups(r8, 8) == Ups(r12, 4) == Up(Up(Up(Up(r12))));
    UpFour(r);
    UpFour(r4);
    UpFour(r8);
    UpFour(r12);
    UpAll(r);
  }

  lemma UpFour(r: bv16)
    ensures Up(Up(Up(Up(r)))) == r << 4
  {
  }

  lemma UpAll(r: bv16)
    ensures (((r << 4) << 4) << 4) << 4 == 0
  {
  }

  /** A word's bits and a zero are its top bit and the bits of the shifted word. */
  lemma WordBitsUp(r: bv16)
    ensures WordBits(r) + [false] == [Top(r)] + WordBits(Up(r))
  {
    hide Up, Top;
    UpsOut(r);
    TopZero();
  }

  lemma TopZero()
    ensures !Top(0) && WordBits(0) == Zeros(16)
  {
    UpsZero();
  }

  lemma UpsZero()
    ensures forall n: nat :: Ups(0, n) == 0
  {
    assert Up(0) == 0;
    forall n: nat
      ensures Ups(0, n) == 0
    {
      UpsOfZero(n);
    }
  }

  lemma {:induction false} UpsOfZero(n: nat)
    ensures Ups(0, n) == 0
  {
    if n > 0 {
      assert Up(0) == 0;
      UpsOfZero(n - 1);
    }
  }

  lemma TopBitUp(r: bv16)
    ensures Up(Xor(r, 0x8000)) == Up(r) && Up(Xor(r, 0)) == Up(r)
  {
  }

  lemma TopBitTop(r: bv16)
    ensures Top(Xor(r, 0x8000)) == !Top(r) && Top(Xor(r, 0)) == Top(r)
  {
  }

  /** The bit that leaves the register decides whether the generator is added. */
  lemma FeedForm(r: bv16, b: bool)
    ensures Feed(r, b) == Xor(Up(r), if Top(r) != b then G else 0)
  {
    hide Xor, Up, Top;
    TopBitUp(r);
    TopBitTop(r);
    XorZero(Up(r));
  }

  /** One column of the division: the leading bit is cancelled by the generator. */
  lemma Column(r: bv16, b: bool)
    ensures Add(Add([b] + Zeros(16), WordBits(r) + [false]), if Top(r) != b then GENERATOR else Zeros(17))
        == [false] + WordBits(Feed(r, b))
  {
    hide Feed, WordBits, Xor, Up, Top;
    var c := Top(r) != b;
    var g := if c then G else 0;
    FeedForm(r, b);
    WordBitsUp(r);
    WordBitsXor(Up(r), g);
    TopZero();
    assert (if c then GENERATOR else Zeros(17)) == [c] + WordBits(g);
  }

  /** The register after the bits m holds the remainder of m x^16, and dividing yields a quotient. */
  lemma {:induction false} Division(m: Bits) returns (q: Bits)
    ensures Divides(m, q, FeedAll(0, m))
    decreases m
  {
    if m == [] {
      q := [];
      TopZero();
      assert Zeros(16) == Add(Zeros(16), WordBits(0));
    } else {
      var n := |m| - 1;
      var b, r := m[n], FeedAll(0, m[..n]);
      var q0 := Division(m[..n]);
      FeedConcat(0, m[..n], [b]);
      assert m == m[..n] + [b];
      assert FeedAll(Feed(r, b), []) == Feed(r, b);
      q := q0 + [Top(r) != b];
      DivisionStep(m[..n], q0, r, b);
    }
  }

  lemma DivisionStep(m: Bits, q: Bits, r: bv16, b: bool)
    requires Divides(m, q, r)
    ensures Divides(m + [b], q + [Top(r) != b], Feed(r, b))
  {
    hide WordBits, Feed, Top;
    var n, c := |m|, Top(r) != b;
    var gen := if c then GENERATOR else Zeros(17);
    Column(r, b);
    var q' := q + [c];
    assert q'[..n] == q && q'[n] == c;
    assert Times(q') == Add(Times(q) + [false], Zeros(n) + gen);
    var lhs := m + [b] + Zeros(16);
    var was := m + Zeros(16);
    var rem := Zeros(n) + WordBits(r);
    forall i | 0 <= i < n + 17
      ensures lhs[i] == Add(Times(q'), Zeros(n + 1) + WordBits(Feed(r, b)))[i]
    {
      assert was == Add(Times(q), rem);
      if i < n {
        assert was[i] == Add(Times(q), rem)[i];
      } else {
        var k := i - n;
        assert Add(Add([b] + Zeros(16), WordBits(r) + [false]), gen)[k] == ([false] + WordBits(Feed(r, b)))[k];
        if i < n + 16 {
          assert was[i] == Add(Times(q), rem)[i];
        }
      }
    }
  }

  // ----- uniqueness -----

  lemma AddSelf(a: Bits, b: Bits)
    requires |a| == |b|
    ensures Add(a, b) == Zeros(|a|) <==> a == b
  {
    if Add(a, b) == Zeros(|a|) {
      forall i | 0 <= i < |a|
        ensures a[i] == b[i]
      {
        assert Add(a, b)[i] == Zeros(|a|)[i];
      }
    }
  }

  /** The product of q and the generator starts where q does. */
  lemma {:induction false} TimesLeads(q: Bits, k: nat)
    requires k < |q| && q[k] && forall i :: 0 <= i < k ==> !q[i]
    ensures Times(q)[k]
  {
    var n := |q| - 1;
    if k < n {
      TimesLeads(q[..n], k);
    } else {
      TimesZero(q[..n]);
    }
  }

  lemma {:induction false} TimesZero(q: Bits)
    requires forall i :: 0 <= i < |q| ==> !q[i]
    ensures Times(q) == Zeros(|q| + 16)
  {
    if q != [] {
      TimesZero(q[..|q| - 1]);
    }
  }

  lemma {:induction false} TimesAdd(p: Bits, q: Bits)
    requires |p| == |q|
    ensures Times(Add(p, q)) == Add(Times(p), Times(q))
  {
    if p != [] {
      var n := |p| - 1;
      TimesAdd(p[..n], q[..n]);
      assert Add(p, q)[..n] == Add(p[..n], q[..n]);
    }
  }

  lemma FirstSet(q: Bits) returns (k: nat)
    requires exists i :: 0 <= i < |q| && q[i]
    ensures k < |q| && q[k] && forall i :: 0 <= i < k ==> !q[i]
  {
    k := 0;
    while !q[k]
      invariant k < |q| && forall i :: 0 <= i < k ==> !q[i]
      invariant exists i :: k <= i < |q| && q[i]
      decreases |q| - k
    {
      k := k + 1;
    }
  }

  /** Quotient and remainder are determined by the message. */
  lemma DivisionUnique(m: Bits, q1: Bits, r1: bv16, q2: Bits, r2: bv16)
    requires Divides(m, q1, r1) && Divides(m, q2, r2)
    ensures q1 == q2 && r1 == r2
  {
    hide Times, WordBits;
    var n := |m|;
    var t := m + Zeros(16);
    var a1, a2 := Zeros(n) + WordBits(r1), Zeros(n) + WordBits(r2);
    forall i | 0 <= i < n + 16
      ensures (Times(q1)[i] != Times(q2)[i]) == (a1[i] != a2[i])
    {
      assert Add(Times(q1), a1)[i] == t[i] == Add(Times(q2), a2)[i];
    }
    TimesAdd(q1, q2);
    if q1 != q2 {
      var i :| 0 <= i < n && q1[i] != q2[i];
      assert Add(q1, q2)[i];
      var k := FirstSet(Add(q1, q2));
      TimesLeads(Add(q1, q2), k);
      assert false;
    }
    forall i | 0 <= i < 16
      ensures WordBits(r1)[i] == WordBits(r2)[i]
    {
      assert a1[n + i] == WordBits(r1)[i] && a2[n + i] == WordBits(r2)[i];
    }
    WordBitsInjective(r1, r2);
  }

  lemma WordBitsInjective(a: bv16, b: bv16)
    requires WordBits(a) == WordBits(b)
    ensures a == b
  {
    hide Xor;
    WordBitsXor(a, b);
    AddSelf(WordBits(a), WordBits(b));
    WordBitsZero(Xor(a, b));
    XorIsZero(a, b);
  }

  lemma XorIsZero(a: bv16, b: bv16)
    ensures Xor(a, b) == 0 <==> a == b
  {
  }

  lemma WordBitsZero(r: bv16)
    requires WordBits(r) == Zeros(16)
    ensures r == 0
  {
    NibbleClear(r, 0);
    NibbleClear(r, 4);
    NibbleClear(r, 8);
    NibbleClear(r, 12);
    NibblesZero(r);
  }

  lemma NibbleClear(r: bv16, k: nat)
    requires WordBits(r) == Zeros(16) && k + 4 <= 16
    ensures Ups(r, k) & 0xf000 == 0 && Ups(r, k + 4) == Ups(r, k) << 4
  {
    hide Up, Top;
    assert !WordBits(r)[k] && !WordBits(r)[k + 1] && !WordBits(r)[k + 2] && !WordBits(r)[k + 3];
    UpsNext(r, k);
    UpsNext(r, k + 1);
    UpsNext(r, k + 2);
    UpsNext(r, k + 3);
    TopFour(Ups(r, k));
  }

  lemma TopFour(r: bv16)
    requires !Top(r) && !Top(Up(r)) && !Top(Up(Up(r))) && !Top(Up(Up(Up(r))))
    ensures r & 0xf000 == 0 && Up(Up(Up(Up(r)))) == r << 4
  {
  }

  lemma NibblesZero(r: bv16)
    requires r & 0xf000 == 0 && (r << 4) & 0xf000 == 0 && ((r << 4) << 4) & 0xf000 == 0
      && (((r << 4) << 4) << 4) & 0xf000 == 0
    ensures r == 0
  {
  }

  /** The CRC is the remainder of the message times x^16: there is a division that leaves it, and
      every division does. */
  lemma CrcIsRemainder(buf: Bytes)
    ensures exists q :: Divides(BitsOf(buf), q, Crc(0, buf))
    ensures forall q, r :: Divides(BitsOf(buf), q, r) ==> r == Crc(0, buf)
  {
    hide Divides;
    CrcIsFeed(0, buf);
    var q0 := Division(BitsOf(buf));
    forall q, r | Divides(BitsOf(buf), q, r)
      ensures r == Crc(0, buf)
    {
      DivisionUnique(BitsOf(buf), q, r, q0, Crc(0, buf));
    }
  }

  // ----- what the receiver sees -----

  /** The bytes that follow a payload on the line: its CRC, high byte first. */
  function Trailer(crc: bv16): Bytes {
    [((crc >> 8) & 0xff) as bv8, (crc & 0xff) as bv8]
  }

  lemma {:induction false} CrcConcat(r: bv16, a: Bytes, b: Bytes)
    ensures Crc(r, a + b) == Crc(Crc(r, a), b)
    decreases a
  {
    hide CrcByte;
    if a == [] {
      assert a + b == b;
    } else {
      assert (a + b)[1..] == a[1..] + b;
      CrcConcat(CrcByte(r, a[0]), a[1..], b);
    }
  }

  lemma TrailerHigh(crc: bv16)
    ensures CrcByte(crc, ((crc >> 8) & 0xff) as bv8) == crc << 8
  {
    assert crc ^ (((((crc >> 8) & 0xff) as bv8) as bv16) << 8) == crc & 0xff;
    LowByte(crc);
  }

  lemma TrailerLow(crc: bv16)
    ensures CrcByte(crc << 8, (crc & 0xff) as bv8) == 0
  {
    assert (crc << 8) ^ ((((crc & 0xff) as bv8) as bv16) << 8) == 0;
    assert Shift8(0) == 0;
  }

  /** A payload followed by its CRC has CRC zero. */
  lemma CodewordIsZero(payload: Bytes)
    ensures Crc(0, payload + Trailer(Crc(0, payload))) == 0
  {
    hide CrcByte;
    var crc := Crc(0, payload);
    var t := Trailer(crc);
    CrcConcat(0, payload, t);
    TrailerHigh(crc);
    TrailerLow(crc);
    assert t[1..] == [t[1]];
    assert Crc(crc << 8, [t[1]]) == Crc(CrcByte(crc << 8, t[1]), []);
  }

  // ----- error bursts -----

  lemma {:induction false} FeedAdd(r: bv16, s: bv16, x: Bits, y: Bits)
    requires |x| == |y|
    ensures FeedAll(Xor(r, s), Add(x, y)) == Xor(FeedAll(r, x), FeedAll(s, y))
    decreases x
  {
    hide Feed, Xor;
    if x != [] {
      FeedAddOne(r, s, x[0], y[0]);
      FeedAdd(Feed(r, x[0]), Feed(s, y[0]), x[1..], y[1..]);
      assert Add(x, y)[1..] == Add(x[1..], y[1..]);
    }
  }

  lemma FeedAddOne(r: bv16, s: bv16, x: bool, y: bool)
    ensures Feed(Xor(r, s), x != y) == Xor(Feed(r, x), Feed(s, y))
  {
    hide Shift;
    ShiftLinear(Xor(r, TopBit(x)), Xor(s, TopBit(y)));
    XorFour(r, s, x, y);
  }

  lemma XorFour(r: bv16, s: bv16, x: bool, y: bool)
    ensures Xor(Xor(r, s), TopBit(x != y)) == Xor(Xor(r, TopBit(x)), Xor(s, TopBit(y)))
  {
    XorMedial(r, s, TopBit(x), TopBit(y));
    assert Xor(TopBit(x), TopBit(y)) == TopBit(x != y);
  }

  lemma XorMedial(a: bv16, b: bv16, c: bv16, d: bv16)
    ensures Xor(Xor(a, b), Xor(c, d)) == Xor(Xor(a, c), Xor(b, d))
  {
    hide Xor;
    XorAssoc(a, b, Xor(c, d));
    XorAssoc(b, c, d);
    XorSwaps(b, c);
    XorAssoc(c, b, d);
    XorAssoc(a, c, Xor(b, d));
  }

  lemma ShiftNonZero(r: bv16)
    ensures Shift(r) == 0 <==> r == 0
  {
  }

  lemma {:induction false} ShiftsNonZero(r: bv16, n: nat)
    ensures Shifts(r, n) == 0 <==> r == 0
    decreases n
  {
    hide Shift;
    if n > 0 {
      ShiftNonZero(r);
      ShiftsNonZero(Shift(r), n - 1);
    }
  }

  lemma {:induction false} FeedZeros(r: bv16, n: nat)
    ensures FeedAll(r, Zeros(n)) == Shifts(r, n)
    decreases n
  {
    hide Shift, Xor;
    if n > 0 {
      XorZero(r);
      assert Zeros(n)[1..] == Zeros(n - 1);
      FeedZeros(Shift(r), n - 1);
    }
  }

  lemma {:induction false} PackZero(u: Bits)
    requires |u| <= 16
    ensures Pack(u) == 0 <==> forall i :: 0 <= i < |u| ==> !u[i]
  {
    if u != [] {
      PackZero(u[1..]);
      PackHalf(u[1..]);
      ShiftNonZero(Down(Pack(u[1..])));
      PackHighStep(u);
      PutZero(u[0], Pack(u[1..]));
      assert forall i :: 0 < i < |u| ==> u[i] == u[1..][i - 1];
    }
  }

  lemma PutZero(b: bool, p: bv16)
    ensures Xor(TopBit(b), Down(p)) == 0 <==> !b && Down(p) == 0
  {
  }

  /** Errors confined to sixteen consecutive bits: zeros, a burst with something in it, zeros. */
  ghost predicate Burst(e: Bits, before: nat, u: Bits, after: nat) {
    && e == Zeros(before) + u + Zeros(after) && |u| <= 16
    && exists i :: 0 <= i < |u| && u[i]
  }

  lemma BurstSeen(e: Bits, before: nat, u: Bits, after: nat)
    requires Burst(e, before, u, after)
    ensures FeedAll(0, e) != 0
  {
    hide FeedAll, Shifts, Pack, Xor;
    FeedConcat(0, Zeros(before) + u, Zeros(after));
    FeedConcat(0, Zeros(before), u);
    FeedZeros(0, before);
    ShiftsNonZero(0, before);
    FeedPacked(0, u);
    XorZero(Pack(u));
    PackZero(u);
    ShiftsNonZero(Pack(u), |u|);
    FeedZeros(Shifts(Pack(u), |u|), after);
    ShiftsNonZero(Shifts(Pack(u), |u|), after);
  }

  /** No burst of up to sixteen bits goes unnoticed: the corrupted frame has another CRC, so a
      frame that ends with its own CRC no longer checks to zero. */
  lemma BurstDetected(frame: Bytes, garbled: Bytes, before: nat, u: Bits, after: nat)
    requires |frame| == |garbled|
    requires Burst(Add(BitsOf(frame), BitsOf(garbled)), before, u, after)
    ensures Crc(0, garbled) != Crc(0, frame)
  {
    hide Burst, Crc, BitsOf, Xor, FeedAll;
    var e := Add(BitsOf(frame), BitsOf(garbled));
    CrcIsFeed(0, frame);
    CrcIsFeed(0, garbled);
    FeedAdd(0, 0, BitsOf(frame), BitsOf(garbled));
    XorZero(0);
    BurstSeen(e, before, u, after);
    XorIsZero(Crc(0, frame), Crc(0, garbled));
  }
}
