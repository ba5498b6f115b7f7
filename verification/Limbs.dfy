/** The multi-word arithmetic of util.c: products from 16-bit and 32-bit limbs, and the reading of
    decimal numbers that is built on it. */
module Limbs {
  import opened DecimalText

  const B16 := 0x1_0000
  const B32 := 0x1_0000_0000
  const B64 := 0x1_0000_0000_0000_0000

  type U32 = x: int | 0 <= x < 0x1_0000_0000

  datatype Word64 = Word64(u0: U32, u1: U32) {
    function AsNat(): nat { u0 + u1 * B32 }
  }

  datatype Word128 = Word128(u0: U32, u1: U32, u2: U32, u3: U32) {
    function AsNat(): nat { u0 + u1 * B32 + u2 * B64 + u3 * (B64 * B32) }
    function Low(): Word64 { Word64(u0, u1) }
  }

  function Lo(x: U32): nat { x % B16 }
  function Hi(x: U32): nat { x / B16 }

  lemma Halves(x: U32)
    ensures x == Lo(x) + Hi(x) * B16 && Lo(x) < B16 && Hi(x) < B16
  {
  }

  // ----- 32 by 32 bits -----

  function Carry(sum: nat, base: nat): nat { if sum >= base then 1 else 0 }

  /** Column sums of the four partial products; the second takes the first one's carry. */
  function Column1(a: U32, b: U32): nat
  {
    SmallProduct(Lo(a), Lo(b));
    SmallProduct(Hi(a), Lo(b));
    SmallProduct(Lo(a), Hi(b));
    Hi(Lo(a) * Lo(b)) + Lo(Hi(a) * Lo(b)) + Lo(Lo(a) * Hi(b))
  }

  function Column2(a: U32, b: U32): nat {
    SmallProduct(Hi(a), Lo(b));
    SmallProduct(Lo(a), Hi(b));
    SmallProduct(Hi(a), Hi(b));
    Hi(Hi(a) * Lo(b)) + Hi(Lo(a) * Hi(b)) + Lo(Hi(a) * Hi(b)) + Carry(Column1(a, b), B16)
  }

  lemma SmallProduct(x: nat, y: nat)
    requires x < B16 && y < B16
    ensures 0 <= x * y < B32
  {
    MulBound(x, y, 0xFFFF, 0xFFFF);
    assert 0xFFFF * 0xFFFF < B32;
  }

  lemma MulBound(x: nat, y: nat, m: nat, n: nat)
    requires x <= m && y <= n
    ensures 0 <= x * y <= m * n
  {
    assert x * y <= m * y;
    assert m * y <= m * n;
  }

  /** mulu64: the carry out of a column is taken to be at most one. */
  function Mul64(a: U32, b: U32): Word64 {
    SmallProduct(Lo(a), Lo(b));
    SmallProduct(Hi(a), Hi(b));
    var c0 := Lo(Lo(a) * Lo(b));
    var c1 := Column1(a, b) % B16;
    var c2 := Column2(a, b) % B16;
    var c3 := (Hi(Hi(a) * Hi(b)) + Carry(Column2(a, b), B16)) % B16;
    Word64(c0 + c1 * B16, c2 + c3 * B16)
  }

  /** What is lost of a column sum. */
  function Lost(sum: nat): nat { sum / B16 - Carry(sum, B16) }

  lemma ColumnSplit(sum: nat)
    ensures sum == sum % B16 + (Carry(sum, B16) + Lost(sum)) * B16 && Lost(sum) >= 0
    ensures Lost(sum) == 0 <==> sum < 2 * B16
  {
  }

  /** The true product, column by column. */
  lemma Schoolbook(a: U32, b: U32)
    ensures Column2(a, b) >= Carry(Column1(a, b), B16)
    ensures Lo(a) * Lo(b) < B32 && Hi(a) * Hi(b) < B32
    ensures a * b == Lo(Lo(a) * Lo(b)) + Column1(a, b) * B16
      + (Column2(a, b) - Carry(Column1(a, b), B16)) * B32 + Hi(Hi(a) * Hi(b)) * (B32 * B16)
  {
    var a0, a1, b0, b1 := Lo(a), Hi(a), Lo(b), Hi(b);
    SmallProduct(a0, b0);
    SmallProduct(a1, b0);
    SmallProduct(a0, b1);
    SmallProduct(a1, b1);
    Halves(a);
    Halves(b);
    FourProducts(a0, a1, b0, b1);
    Halves(a0 * b0);
    Halves(a1 * b0);
    Halves(a0 * b1);
    Halves(a1 * b1);
    hide Lo, Hi;
    Regroup(a0 * b0, a1 * b0, a0 * b1, a1 * b1, Lo(a0 * b0), Hi(a0 * b0), Lo(a1 * b0), Hi(a1 * b0),
            Lo(a0 * b1), Hi(a0 * b1), Lo(a1 * b1), Hi(a1 * b1));
  }

  lemma FourProducts(a0: nat, a1: nat, b0: nat, b1: nat)
    ensures (a0 + a1 * B16) * (b0 + b1 * B16) == a0 * b0 + (a1 * b0 + a0 * b1) * B16 + a1 * b1 * B32
  {
    Distribute(a0, a1 * B16, b0 + b1 * B16);
    Distribute(b0, b1 * B16, a0);
    Distribute(b0, b1 * B16, a1 * B16);
    Assoc(a1, b0, b1);
    Assoc(b1, a0, 0);
  }

  lemma Distribute(x: nat, y: nat, z: nat)
    ensures (x + y) * z == x * z + y * z
  {
  }

  lemma Assoc(x: nat, y: nat, z: nat)
    ensures x * B16 * y == x * y * B16
    ensures x * B16 * (z * B16) == x * z * B32
  {
  }

  lemma Regroup(d: nat, e: nat, f: nat, h: nat, d0: nat, d1: nat, e0: nat, e1: nat, f0: nat, f1: nat, h0: nat, h1: nat)
    requires d == d0 + d1 * B16 && e == e0 + e1 * B16 && f == f0 + f1 * B16 && h == h0 + h1 * B16
    ensures d + (e + f) * B16 + h * B32
      == d0 + (d1 + e0 + f0) * B16 + (e1 + f1 + h0) * B32 + h1 * (B32 * B16)
  {
  }

  /** A sum of columns, from what is kept of each, the carries, and what is lost. */
  lemma Recombine(c0: nat, s1: nat, s2: nat, h1: nat, k1: nat, l1: nat, k2: nat, l2: nat, r1: nat, r2: nat,
                  r3: nat, over: nat)
    requires s1 == r1 + (k1 + l1) * B16 && s2 == r2 + (k2 + l2) * B16 && h1 + k2 == r3 + over * B16
    ensures c0 + s1 * B16 + (s2 - k1) * B32 + h1 * (B32 * B16)
      == (c0 + r1 * B16 + (r2 + r3 * B16) * B32) + l1 * B32 + l2 * (B32 * B16) + over * B64
  {
  }

  /** What mulu64 leaves out of the product, and so exactly when it is the product. */
  lemma Mul64Exact(a: U32, b: U32)
    ensures Mul64(a, b).AsNat() == a * b <==> Column1(a, b) < 2 * B16 && Column2(a, b) < 2 * B16
  {
    hide Lo, Hi, Carry, Lost, Column1, Column2;
    Schoolbook(a, b);
    var s1, s2 := Column1(a, b), Column2(a, b);
    var c0, h1 := Lo(Lo(a) * Lo(b)), Hi(Hi(a) * Hi(b));
    var last := h1 + Carry(s2, B16);
    ColumnSplit(s1);
    ColumnSplit(s2);
    Recombine(c0, s1, s2, h1, Carry(s1, B16), Lost(s1), Carry(s2, B16), Lost(s2), s1 % B16, s2 % B16, last % B16,
      last / B16);
    MulBound(a, b, B32 - 1, B32 - 1);
  }

  /** Operands for which it is not: the first column carries two. */
  lemma Mul64Loses()
    ensures Mul64(131071, 131071).AsNat() != 131071 * 131071
  {
    assert Lo(131071) == 65535 && Hi(131071) == 1;
    assert Column1(131071, 131071) >= 2 * B16;
    Mul64Exact(131071, 131071);
  }

  /** A multiplier of one 16-bit limb loses nothing. */
  lemma Mul64ByLimb(a: U32, m: U32)
    requires m < B16
    ensures Mul64(a, m).AsNat() == a * m
  {
    assert Lo(m) == m && Hi(m) == 0;
    Mul64Exact(a, m);
    SmallProduct(Hi(a), m);
    SmallProduct(Lo(a), m);
    Halves(Hi(a) * m);
    Halves(Lo(a) * m);
    MulBound(Hi(a), m, B16 - 1, B16 - 1);
  }

  // ----- 64 by 64 bits -----

  function Add(x: U32, y: U32): U32 { (x + y) % B32 }

  /** mulu128: carries seen by the wrap of a 32-bit sum. */
  function Mul128(a: Word64, b: Word64): Word128 {
    var d, e := Mul64(a.u0, b.u0), Mul64(a.u1, b.u0);
    var f, h := Mul64(a.u0, b.u1), Mul64(a.u1, b.u1);
    var s := Add(d.u1, e.u0);
    var c1 := Add(s, f.u0);
    var carry1 := if s < d.u1 || c1 < s then 1 else 0;
    var t := Add(e.u1, f.u1);
    var u := Add(t, h.u0);
    var c2 := Add(u, carry1);
    var carry2 := if t < e.u1 || u < t || c2 < u then 1 else 0;
    Word128(d.u0, c1, c2, Add(h.u1, carry2))
  }

  /** The columns when the upper multiplier word is zero and the carries are small. */
  lemma LimbColumns(d: Word64, e: Word64)
    requires d.u1 < B16 && e.u1 < B16
    ensures var s := Add(d.u1, e.u0);
      var carry := if s < d.u1 then 1 else 0;
      && Add(s, 0) == s && Add(e.u1, 0) == e.u1 && Add(e.u1, carry) >= e.u1
      && Word128(d.u0, s, Add(e.u1, carry), 0).AsNat() == d.AsNat() + e.AsNat() * B32
  {
  }

  lemma UpperWordZero(a: Word64, m: U32, d: Word64, e: Word64)
    requires d == Mul64(a.u0, m) && e == Mul64(a.u1, m)
    requires Mul64(a.u0, 0) == Mul64(a.u1, 0) == Word64(0, 0)
    requires d.u1 < B16 && e.u1 < B16
    ensures Mul128(a, Word64(m, 0)).AsNat() == d.AsNat() + e.AsNat() * B32
  {
    hide Mul64, Add, Word128.AsNat, Word64.AsNat;
    LimbColumns(d, e);
    assert Add(0, 0) == 0 by { AddZero(); }
  }

  lemma AddZero()
    ensures Add(0, 0) == 0
  {
  }

  lemma SmallUpper(w: Word64, x: U32, m: nat)
    requires w.AsNat() == x * m && m < B16
    ensures w.u1 < B16
  {
    MulBound(x, m, B32 - 1, B16 - 1);
  }

  lemma ZeroWords(w: Word64)
    requires w.AsNat() == 0
    ensures w == Word64(0, 0)
  {
  }

  lemma TwoWordsTimes(a: Word64, m: nat)
    ensures a.AsNat() * m == a.u0 * m + a.u1 * m * B32
  {
    Distribute(a.u0, a.u1 * B32, m);
    assert a.u1 * B32 * m == a.u1 * m * B32;
  }

  /** A multiplier of one 16-bit limb loses nothing here either. */
  lemma Mul128ByLimb(a: Word64, m: U32)
    requires m < B16
    ensures Mul128(a, Word64(m, 0)).AsNat() == a.AsNat() * m
  {
    hide Mul64, Mul128, Word128.AsNat, Word64.AsNat;
    Mul64ByLimb(a.u0, m);
    Mul64ByLimb(a.u1, m);
    Mul64ByLimb(a.u0, 0);
    Mul64ByLimb(a.u1, 0);
    ZeroWords(Mul64(a.u0, 0));
    ZeroWords(Mul64(a.u1, 0));
    SmallUpper(Mul64(a.u0, m), a.u0, m);
    SmallUpper(Mul64(a.u1, m), a.u1, m);
    UpperWordZero(a, m, Mul64(a.u0, m), Mul64(a.u1, m));
    TwoWordsTimes(a, m);
  }

  /** du64_plus_u32. */
  function Plus(a: Word64, n: U32): Word64 {
    Word64(Add(a.u0, n), if Add(a.u0, n) < a.u0 then Add(a.u1, 1) else a.u1)
  }

  lemma PlusIsSum(a: Word64, n: U32)
    ensures a.AsNat() + n < B64 ==> Plus(a, n).AsNat() == a.AsNat() + n
    ensures a.AsNat() + n >= B64 ==> Plus(a, n).AsNat() == a.AsNat() + n - B64
  {
  }

  // ----- reading numbers -----

  lemma TimesTen(dig: Word128, n: nat, d: nat)
    requires dig.AsNat() == n && 10 * n + d < B64 && d < 10
    ensures var r := Mul128(dig.Low(), Word64(10, 0));
      r.Low().AsNat() == 10 * n && r.u2 == 0 && r.u3 == 0 && Plus(r.Low(), d).AsNat() == 10 * n + d
  {
    hide Mul128;
    assert dig.u2 == 0 && dig.u3 == 0;
    Mul128ByLimb(dig.Low(), 10);
    var r := Mul128(dig.Low(), Word64(10, 0));
    assert r.u2 == 0 && r.u3 == 0;
    PlusIsSum(r.Low(), d);
  }

  lemma NineteenDigitsFit()
    ensures Pow10(19) < B64
  {
    assert Pow10(4) == 10000 by { assert Pow10(2) == 100; }
    assert Pow10(8) == 1_0000_0000 by { assert Pow10(6) == 100_0000; }
    assert Pow10(12) == 1_0000_0000_0000 by { assert Pow10(10) == 100_0000_0000; }
    assert Pow10(16) == 1_0000_0000_0000_0000 by { assert Pow10(14) == 100_0000_0000_0000; }
    assert Pow10(18) == 100_0000_0000_0000_0000;
  }

  lemma {:induction false} PowMonotone(a: nat, b: nat)
    requires a <= b
    ensures Pow10(a) <= Pow10(b)
    decreases b
  {
    if a < b {
      PowMonotone(a, b - 1);
    }
  }

  /** The first i characters are digits and have been read. */
  predicate Taken(c: string, i: nat, n: nat, dig: nat) {
    i <= |c| && i <= n && AllDigits(c[..i]) && dig == Value(c[..i])
  }

  lemma TakeNone(c: string, n: nat)
    ensures Taken(c, 0, n, 0)
  {
    assert c[..0] == "";
  }

  lemma TakeOne(c: string, i: nat, n: nat, dig: nat)
    requires Taken(c, i, n, dig) && i < |c| && i < n && IsDigit(c[i])
    ensures Taken(c, i + 1, n, 10 * dig + DigitValue(c[i])) && 10 * dig + DigitValue(c[i]) < Pow10(n)
  {
    assert c[..i + 1][..i] == c[..i] && c[..i + 1][i] == c[i];
    ValueBound(c[..i + 1]);
    PowMonotone(i + 1, n);
  }

  lemma TakenAll(c: string, i: nat, n: nat, dig: nat)
    requires Taken(c, i, n, dig) && (i == |c| || i == n || !IsDigit(c[i]))
    ensures dig == Value(Leading(c, n)) < Pow10(n)
  {
    LeadingIs(c, n, i);
    ValueBound(c[..i]);
    PowMonotone(i, n);
  }

  lemma OneWord(dig: Word128)
    requires dig.AsNat() < B64
    ensures dig.u2 == 0 && dig.u3 == 0 && dig.Low().AsNat() == dig.AsNat()
  {
  }

  /** arch_ato64u: the exact value of the leading digits, at most 19 of them. */
  method Ato64u(c: string) returns (out: Word64)
    ensures out.AsNat() == Value(Leading(c, 19))
  {
    hide Mul128, Plus, Taken, Word128.AsNat, Word64.AsNat, Pow10, Value, Leading;
    NineteenDigitsFit();
    var dig := Word128(0, 0, 0, 0);
    var i := 0;
    TakeNone(c, 19);
    assert dig.AsNat() == 0 by { ZeroIsZero(); }
    while i < |c| && IsDigit(c[i]) && i < 19
      invariant i <= |c| && i <= 19
      invariant Taken(c, i, 19, dig.AsNat())
      decreases |c| - i
    {
      var d := DigitValue(c[i]);
      TakeOne(c, i, 19, dig.AsNat());
      TimesTen(dig, dig.AsNat(), d);
      dig := Mul128(dig.Low(), Word64(10, 0));
      LowReplaced(dig, Plus(dig.Low(), d));
      var low := Plus(dig.Low(), d);
      dig := dig.(u0 := low.u0, u1 := low.u1);
      i := i + 1;
    }
    TakenAll(c, i, 19, dig.AsNat());
    OneWord(dig);
    out := dig.Low();
  }

  lemma ZeroIsZero()
    ensures Word128(0, 0, 0, 0).AsNat() == 0
  {
  }

  lemma LowReplaced(dig: Word128, low: Word64)
    requires dig.u2 == 0 && dig.u3 == 0
    ensures dig.(u0 := low.u0, u1 := low.u1).AsNat() == low.AsNat()
  {
  }

  /** arch_atou64n: up to n digits, modulo 2^64. */
  method Atou64n(c: string, n: nat) returns (r: nat)
    ensures r == Value(Leading(c, n)) % B64
  {
    hide Taken, Value, Leading;
    r := 0;
    ghost var dig: nat := 0;
    var i := 0;
    TakeNone(c, n);
    while i < |c| && IsDigit(c[i]) && i < n
      invariant i <= |c| && i <= n
      invariant Taken(c, i, n, dig) && r == dig % B64
      decreases |c| - i
    {
      TakeOne(c, i, n, dig);
      WrapStep(dig, DigitValue(c[i]));
      dig := 10 * dig + DigitValue(c[i]);
      r := (r * 10 + DigitValue(c[i])) % B64;
      i := i + 1;
    }
    TakenAll(c, i, n, dig);
  }

  lemma WrapStep(v: nat, d: nat)
    ensures (v % B64 * 10 + d) % B64 == (10 * v + d) % B64
  {
    var q := v / B64;
    assert 10 * v + d == v % B64 * 10 + d + (10 * q) * B64;
    ModShift(v % B64 * 10 + d, 10 * q);
  }

  lemma ModShift(x: nat, k: nat)
    ensures (x + k * B64) % B64 == x % B64
  {
    var q, r := x / B64, x % B64;
    assert x + k * B64 == (q + k) * B64 + r;
    ModAt64(x + k * B64, q + k, r);
  }

  lemma ModAt64(n: nat, q: nat, r: nat)
    requires r < B64 && n == q * B64 + r
    ensures n % B64 == r
  {
  }

  /** The two readers agree: the multi-word one and the 64-bit one limited to 19 digits. */
  method ReadBoth(c: string) returns (words: Word64, number: nat)
    ensures words.AsNat() == number == Value(Leading(c, 19))
  {
    hide Value, Leading, Pow10;
    words := Ato64u(c);
    number := Atou64n(c, 19);
    ValueBound(Leading(c, 19));
    PowMonotone(|Leading(c, 19)|, 19);
    NineteenDigitsFit();
  }

  /** What is printed in decimal is read back exactly when it is below 10^19: of a 64-bit number
      with 20 digits the last one is not read. */
  lemma PrintedIsRead(n: nat, rest: string)
    requires rest == "" || !IsDigit(rest[0])
    ensures Value(Leading(Digits(n) + rest, 19)) == n <==> n < Pow10(19)
  {
    var s := Digits(n) + rest;
    var k := |Digits(n)|;
    DigitsReadBack(n);
    DigitsCount(n, 19);
    if k <= 19 {
      assert s[..k] == Digits(n);
      LeadingIs(s, 19, k);
    } else {
      ValueBound(Leading(s, 19));
      PowMonotone(|Leading(s, 19)|, 19);
    }
  }
}
