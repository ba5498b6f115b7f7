/** The CRC-8 of kernel_crc8.c: tables filled by doubling, for any polynomial, most or least
    significant bit first, and the division they stand for.

    An 8-bit value is its bits, most significant first. */
module Crc8 {
  import opened BitSequence

  const SIZE := 256

  predicate Byte(b: Bits) { |b| == 8 }

  // ----- one step of the division -----

  /** Times x modulo the polynomial, most significant bit first. */
  function Shift(r: Bits, p: Bits): (s: Bits)
    requires Byte(r) && Byte(p)
    ensures Byte(s)
  {
    if r[0] then Add(r[1..] + [false], p) else r[1..] + [false]
  }

  function Shifts(r: Bits, p: Bits, n: nat): (s: Bits)
    requires Byte(r) && Byte(p)
    ensures Byte(s)
    decreases n
  {
    if n == 0 then r else Shifts(Shift(r, p), p, n - 1)
  }

  lemma ShiftLinear(a: Bits, b: Bits, p: Bits)
    requires Byte(a) && Byte(b) && Byte(p)
    ensures Shift(Add(a, b), p) == Add(Shift(a, p), Shift(b, p))
  {
    var x := Add(a, b);
    forall i | 0 <= i < 8 ensures Shift(x, p)[i] == Add(Shift(a, p), Shift(b, p))[i] {
      assert (x[1..] + [false])[i] == ((a[1..] + [false])[i] != (b[1..] + [false])[i]);
    }
  }

  lemma {:induction false} ShiftsLinear(a: Bits, b: Bits, p: Bits, n: nat)
    requires Byte(a) && Byte(b) && Byte(p)
    ensures Shifts(Add(a, b), p, n) == Add(Shifts(a, p, n), Shifts(b, p, n))
    decreases n
  {
    hide Shift;
    if n > 0 {
      ShiftLinear(a, b, p);
      ShiftsLinear(Shift(a, p), Shift(b, p), p, n - 1);
    }
  }

  lemma {:induction false} ShiftsAdd(r: Bits, p: Bits, m: nat, n: nat)
    requires Byte(r) && Byte(p)
    ensures Shifts(Shifts(r, p, m), p, n) == Shifts(r, p, m + n)
    decreases m
  {
    hide Shift;
    if m > 0 {
      ShiftsAdd(Shift(r, p), p, m - 1, n);
    }
  }

  // ----- numbers and bits -----

  function Two(k: nat): (r: nat)
    ensures r > 0
  {
    if k == 0 then 1 else 2 * Two(k - 1)
  }

  function NumberBits(n: nat, k: nat): (r: Bits)
    ensures |r| == k
  {
    if k == 0 then [] else NumberBits(n / 2, k - 1) + [n % 2 == 1]
  }

  function Num(b: Bits): nat {
    if b == [] then 0 else 2 * Num(b[..|b| - 1]) + if b[|b| - 1] then 1 else 0
  }

  lemma {:induction false} BitsNum(b: Bits)
    ensures NumberBits(Num(b), |b|) == b && Num(b) < Two(|b|)
    decreases |b|
  {
    if b != [] {
      BitsNum(b[..|b| - 1]);
      assert b == b[..|b| - 1] + [b[|b| - 1]];
    }
  }

  lemma {:induction false} BitsZero(k: nat)
    ensures NumberBits(0, k) == Zeros(k)
    decreases k
  {
    if k > 0 {
      BitsZero(k - 1);
    }
  }

  lemma AddLast(a: Bits, b: Bits, x: bool, y: bool)
    requires |a| == |b|
    ensures Add(a + [x], b + [y]) == Add(a, b) + [x != y]
  {
  }

  lemma AddZeros(a: Bits)
    ensures Add(a, Zeros(|a|)) == a && Add(Zeros(|a|), a) == a
  {
  }

  /** A number and a power of two above all its bits: no carries. */
  lemma {:induction false} BitsSum(m: nat, j: nat, k: nat)
    requires j < Two(m)
    ensures NumberBits(Two(m) + j, k) == Add(NumberBits(Two(m), k), NumberBits(j, k))
    decreases k
  {
    if k > 0 {
      if m == 0 {
        BitsZero(k);
        AddZeros(NumberBits(1, k));
      } else {
        BitsSum(m - 1, j / 2, k - 1);
        AddLast(NumberBits(Two(m - 1), k - 1), NumberBits(j / 2, k - 1), false, j % 2 == 1);
      }
    }
  }

  /** The division of the number k by the polynomial: its bits, moved up past the width. */
  function Remainder(k: nat, p: Bits): (r: Bits)
    requires Byte(p)
    ensures Byte(r)
  {
    Shifts(NumberBits(k, 8), p, 8)
  }

  const TOP: Bits := [true, false, false, false, false, false, false, false]

  lemma {:induction false} UnitUp(m: nat, k: nat)
    requires m + 1 < k
    ensures NumberBits(Two(m), k)[0] == false && NumberBits(Two(m + 1), k) == NumberBits(Two(m), k)[1..] + [false]
    decreases k
  {
    if m == 0 {
      UnitBits(k);
    } else {
      UnitUp(m - 1, k - 1);
      assert Two(m) / 2 == Two(m - 1) && Two(m + 1) / 2 == Two(m);
      var b := NumberBits(Two(m - 1), k - 1);
      assert (b + [false])[1..] == b[1..] + [false];
    }
  }

  lemma UnitBits(k: nat)
    requires k > 1
    ensures NumberBits(1, k)[0] == false && NumberBits(2, k) == NumberBits(1, k)[1..] + [false]
  {
    BitsZero(k - 1);
    BitsZero(k - 2);
    assert NumberBits(1, k) == Zeros(k - 1) + [true];
    assert NumberBits(1, k - 1) == Zeros(k - 2) + [true];
    assert (Zeros(k - 1) + [true])[1..] == Zeros(k - 2) + [true];
    assert NumberBits(2, k) == NumberBits(1, k - 1) + [false];
  }

  lemma {:induction false} UnitToTop(m: nat, p: Bits)
    requires m < 8 && Byte(p)
    ensures Shifts(NumberBits(Two(m), 8), p, 7 - m) == TOP
    decreases 8 - m
  {
    if m == 7 {
      TopIs128();
    } else {
      UnitUp(m, 8);
      UnitToTop(m + 1, p);
    }
  }

  lemma {:induction false} TopBit(m: nat)
    ensures NumberBits(Two(m), m + 1) == [true] + Zeros(m)
    decreases m
  {
    if m > 0 {
      TopBit(m - 1);
    }
  }

  lemma TopIs128()
    ensures NumberBits(Two(7), 8) == TOP
  {
    hide NumberBits, Two;
    TopBit(7);
  }

  /** The remainder of a power of two is what the doubling loop has in hand. */
  lemma UnitRemainder(m: nat, p: Bits)
    requires m < 8 && Byte(p)
    ensures Remainder(Two(m), p) == Shifts(TOP, p, m + 1)
  {
    hide Shift, Shifts;
    UnitToTop(m, p);
    ShiftsAdd(NumberBits(Two(m), 8), p, 7 - m, m + 1);
  }

  lemma RemainderSum(m: nat, j: nat, p: Bits)
    requires m < 8 && j < Two(m) && Byte(p)
    ensures Remainder(Two(m) + j, p) == Add(Remainder(j, p), Shifts(TOP, p, m + 1))
  {
    hide Shifts, NumberBits;
    BitsSum(m, j, 8);
    ShiftsLinear(NumberBits(Two(m), 8), NumberBits(j, 8), p, 8);
    UnitRemainder(m, p);
    AddSwaps(Remainder(Two(m), p), Remainder(j, p));
  }

  lemma AddSwaps(a: Bits, b: Bits)
    requires |a| == |b|
    ensures Add(a, b) == Add(b, a)
  {
  }

  /** The first n entries are right. */
  ghost predicate Filled(table: seq<Bits>, n: nat, p: Bits)
    requires Byte(p) && n <= |table|
  {
    forall k :: 0 <= k < n ==> table[k] == Remainder(k, p)
  }

  lemma {:induction false} ShiftsLast(r: Bits, p: Bits, n: nat)
    requires Byte(r) && Byte(p)
    ensures Shifts(r, p, n + 1) == Shift(Shifts(r, p, n), p)
  {
    ShiftsAdd(r, p, n, 1);
  }

  lemma {:induction false} TwoIsEight(m: nat)
    ensures Two(m) < SIZE <==> m < 8
    ensures m < 8 ==> 2 * Two(m) <= SIZE
    decreases m
  {
    TwoOf8();
    if m > 8 {
      TwoIsEight(m - 1);
    }
  }

  lemma TwoOf8()
    ensures Two(8) == 256 && Two(7) == 128 && Two(6) == 64 && Two(5) == 32 && Two(4) == 16
    ensures Two(3) == 8 && Two(2) == 4 && Two(1) == 2 && Two(0) == 1
  {
    assert Two(2) == 4;
    assert Two(4) == 16;
    assert Two(6) == 64;
  }

  /** crc8_populate_msb: for every polynomial, table[k] is the remainder of k. */
  method PopulateMsb(table: array<Bits>, polynomial: Bits)
    requires table.Length == SIZE && Byte(polynomial)
    modifies table
    ensures Filled(table[..], SIZE, polynomial)
  {
    hide Remainder, Shift, Shifts, Two;
    var t := TOP;
    table[0] := Zeros(8);
    RemainderZero(polynomial);
    var i := 1;
    ghost var m := 0;
    TwoOf8();
    assert t == Shifts(TOP, polynomial, 0) by { NoShift(TOP, polynomial); }
    while i < SIZE
      invariant i == Two(m) && m <= 8 && Byte(t) && t == Shifts(TOP, polynomial, m)
      invariant i <= SIZE
      invariant Filled(table[..], i, polynomial)
      decreases SIZE - i
    {
      TwoIsEight(m);
      ShiftsLast(TOP, polynomial, m);
      t := Shift(t, polynomial);
      var j := 0;
      while j < i
        invariant j <= i
        invariant Filled(table[..], i + j, polynomial)
      {
        RemainderSum(m, j, polynomial);
        assert table[..][j] == Remainder(j, polynomial);
        table[i + j] := Add(table[j], t);
        j := j + 1;
      }
      assert Two(m + 1) == 2 * Two(m) by { TwoNext(m); }
      i := i * 2;
      m := m + 1;
    }
    TwoIsEight(m);
  }

  lemma TwoNext(m: nat)
    ensures Two(m + 1) == 2 * Two(m)
  {
  }

  lemma NoShift(r: Bits, p: Bits)
    requires Byte(r) && Byte(p)
    ensures Shifts(r, p, 0) == r
  {
  }

  lemma {:induction false} ShiftsZero(p: Bits, n: nat)
    requires Byte(p)
    ensures Shifts(Zeros(8), p, n) == Zeros(8)
    decreases n
  {
    if n > 0 {
      assert Zeros(8)[1..] + [false] == Zeros(8);
      ShiftsZero(p, n - 1);
    }
  }

  lemma RemainderZero(p: Bits)
    requires Byte(p)
    ensures Remainder(0, p) == Zeros(8)
  {
    BitsZero(8);
    ShiftsZero(p, 8);
  }

  // ----- the least significant bit first -----

  function ShiftDown(r: Bits, p: Bits): (s: Bits)
    requires Byte(r) && Byte(p)
    ensures Byte(s)
  {
    if r[7] then Add([false] + r[..7], p) else [false] + r[..7]
  }

  function ShiftsDown(r: Bits, p: Bits, n: nat): (s: Bits)
    requires Byte(r) && Byte(p)
    ensures Byte(s)
    decreases n
  {
    if n == 0 then r else ShiftsDown(ShiftDown(r, p), p, n - 1)
  }

  function Reverse(b: Bits): (r: Bits)
    ensures |r| == |b|
  {
    seq(|b|, i requires 0 <= i < |b| => b[|b| - 1 - i])
  }

  lemma ReverseTwice(b: Bits)
    ensures Reverse(Reverse(b)) == b
  {
  }

  /** Down is up in the mirror. */
  lemma MirrorStep(r: Bits, p: Bits)
    requires Byte(r) && Byte(p)
    ensures ShiftDown(r, p) == Reverse(Shift(Reverse(r), Reverse(p)))
  {
    assert Reverse(r)[0] == r[7];
    var u := Reverse(r)[1..] + [false];
    forall i | 0 <= i < 8 ensures ([false] + r[..7])[i] == u[7 - i] {
    }
  }

  lemma {:induction false} Mirror(r: Bits, p: Bits, n: nat)
    requires Byte(r) && Byte(p)
    ensures ShiftsDown(r, p, n) == Reverse(Shifts(Reverse(r), Reverse(p), n))
    decreases n
  {
    hide Shift, ShiftDown, Reverse;
    if n == 0 {
      ReverseTwice(r);
    } else {
      MirrorStep(r, p);
      ReverseTwice(Shift(Reverse(r), Reverse(p)));
      Mirror(ShiftDown(r, p), p, n - 1);
    }
  }

  /** The remainder of k with both its bits and the polynomial's read backwards. */
  function RemainderDown(k: nat, p: Bits): (r: Bits)
    requires Byte(p)
    ensures Byte(r)
  {
    Reverse(Shifts(Reverse(NumberBits(k, 8)), Reverse(p), 8))
  }

  lemma AddReverse(a: Bits, b: Bits)
    requires |a| == |b|
    ensures Reverse(Add(a, b)) == Add(Reverse(a), Reverse(b))
  {
  }

  const BOTTOM: Bits := [false, false, false, false, false, false, false, true]

  /** The n lowest bits of j are clear. */
  predicate Clear(j: nat, n: nat)
    decreases n
  {
    n == 0 || (j % 2 == 0 && Clear(j / 2, n - 1))
  }

  lemma {:induction false} MultipleIsClear(q: nat, n: nat)
    ensures Clear(q * Two(n), n)
    decreases n
  {
    if n > 0 {
      MultipleIsClear(q, n - 1);
      TwicePower(q, n);
    }
  }

  lemma TwicePower(q: nat, n: nat)
    requires n > 0
    ensures q * Two(n) % 2 == 0 && q * Two(n) / 2 == q * Two(n - 1)
  {
    assert q * Two(n) == 2 * (q * Two(n - 1));
  }

  /** A power of two and a number that is clear up to and with that bit: no carries. */
  lemma {:induction false} BitsOdd(m: nat, j: nat, k: nat)
    requires Clear(j, m + 1)
    ensures NumberBits(Two(m) + j, k) == Add(NumberBits(j, k), NumberBits(Two(m), k))
    decreases k
  {
    if k > 0 {
      if m == 0 {
        BitsZero(k - 1);
        AddZeros(NumberBits(j / 2, k - 1));
        AddLast(NumberBits(j / 2, k - 1), Zeros(k - 1), false, true);
      } else {
        BitsOdd(m - 1, j / 2, k - 1);
        AddLast(NumberBits(j / 2, k - 1), NumberBits(Two(m - 1), k - 1), false, false);
      }
    }
  }

  lemma ReverseBottom()
    ensures Reverse(BOTTOM) == TOP
  {
  }

  lemma UnitDown(m: nat, p: Bits)
    requires m < 8 && Byte(p)
    ensures RemainderDown(Two(m), p) == ShiftsDown(BOTTOM, p, 8 - m)
  {
    hide Shifts, ShiftsDown, NumberBits, Two, Reverse;
    UnitReversed(m);
    UnitRemainder(7 - m, Reverse(p));
    Mirror(BOTTOM, p, 8 - m);
    ReverseBottom();
  }

  /** Reversed, bit m is bit 7 - m. */
  lemma UnitReversed(m: nat)
    requires m < 8
    ensures Reverse(NumberBits(Two(m), 8)) == NumberBits(Two(7 - m), 8)
  {
    OneBit(m, 8);
    OneBit(7 - m, 8);
  }

  lemma {:induction false} OneBit(m: nat, k: nat)
    requires m < k
    ensures forall i :: 0 <= i < k ==> NumberBits(Two(m), k)[i] == (i == k - 1 - m)
    decreases k
  {
    if m == 0 {
      BitsZero(k - 1);
    } else {
      OneBit(m - 1, k - 1);
    }
  }

  lemma OddMultiple(m: nat, j: nat, p: Bits)
    requires m < 8 && Byte(p) && Clear(j, m + 1)
    ensures RemainderDown(Two(m) + j, p) == Add(RemainderDown(j, p), ShiftsDown(BOTTOM, p, 8 - m))
  {
    hide Shifts, ShiftsDown, NumberBits, Reverse, Two, Add, Clear;
    BitsOdd(m, j, 8);
    AddReverse(NumberBits(j, 8), NumberBits(Two(m), 8));
    ShiftsLinear(Reverse(NumberBits(j, 8)), Reverse(NumberBits(Two(m), 8)), Reverse(p), 8);
    AddReverse(Shifts(Reverse(NumberBits(j, 8)), Reverse(p), 8), Shifts(Reverse(NumberBits(Two(m), 8)), Reverse(p), 8));
    UnitDown(m, p);
  }

  /** The entry at q times 2^m is right. */
  ghost predicate RightAt(table: seq<Bits>, q: nat, m: nat, p: Bits)
    requires Byte(p)
  {
    q * Two(m) < |table| && table[q * Two(m)] == RemainderDown(q * Two(m), p)
  }

  /** All multiples of 2^m are right. */
  ghost predicate Sieved(table: seq<Bits>, m: nat, p: Bits)
    requires Byte(p) && m <= 8
  {
    forall q: nat :: q < Two(8 - m) ==> RightAt(table, q, m, p)
  }

  /** And of the odd multiples of 2^m the first n. */
  ghost predicate HalfSieved(table: seq<Bits>, m: nat, n: nat, p: Bits)
    requires Byte(p) && m < 8
  {
    Sieved(table, m + 1, p) && forall q: nat :: q < n ==> OddRight(table, q, m, p)
  }

  ghost predicate OddRight(table: seq<Bits>, q: nat, m: nat, p: Bits)
    requires Byte(p)
  {
    RightAt(table, 2 * q + 1, m, p)
  }

  lemma TwiceTwo(q: nat, m: nat)
    ensures q * Two(m + 1) == 2 * q * Two(m) && (2 * q + 1) * Two(m) == 2 * q * Two(m) + Two(m)
  {
  }

  lemma Inside(q: nat, m: nat, n: nat)
    requires m + n == 8 && q < Two(n)
    ensures q * Two(m) < SIZE
  {
    hide Two;
    TwoProduct(m, n);
    GrowsBy(q, Two(n), Two(m));
  }

  lemma GrowsBy(a: nat, b: nat, t: nat)
    requires a < b && t > 0
    ensures a * t < t * b
  {
  }

  lemma {:induction false} TwoProduct(m: nat, n: nat)
    requires m + n == 8
    ensures Two(m) * Two(n) == SIZE
    decreases n
  {
    if n == 0 {
      TwoOf8();
    } else {
      TwoProduct(m + 1, n - 1);
      assert Two(m) * Two(n) == Two(m) * (2 * Two(n - 1)) == (2 * Two(m)) * Two(n - 1);
    }
  }

  lemma Grows(a: nat, b: nat, m: nat)
    requires a < b
    ensures a * Two(m) < b * Two(m)
  {
  }

  lemma Apart(a: nat, b: nat, m: nat)
    requires a != b
    ensures a * Two(m) != b * Two(m)
  {
    if a < b {
      Grows(a, b, m);
    } else {
      Grows(b, a, m);
    }
  }

  /** Filling one odd multiple touches no other multiple. */
  lemma FillOne(table: seq<Bits>, m: nat, n: nat, p: Bits)
    requires |table| == SIZE && m < 8 && Byte(p) && n < Two(7 - m)
    requires HalfSieved(table, m, n, p)
    ensures var j := 2 * n * Two(m);
      && Two(m) + j < SIZE && Byte(table[j])
      && HalfSieved(table[Two(m) + j := Add(table[j], ShiftsDown(BOTTOM, p, 8 - m))], m, n + 1, p)
  {
    hide RemainderDown, ShiftsDown, Add, Two;
    var j := 2 * n * Two(m);
    TwiceTwo(n, m);
    assert RightAt(table, n, m + 1, p);
    TwoNext(7 - m);
    Inside(2 * n + 1, m, 8 - m);
    MultipleIsClear(n, m + 1);
    OddMultiple(m, j, p);
    var after := table[Two(m) + j := Add(table[j], ShiftsDown(BOTTOM, p, 8 - m))];
    var above := m + 1;
    forall q: nat | q < Two(7 - m) ensures RightAt(after, q, above, p) {
      assert RightAt(table, q, above, p);
      TwiceTwo(q, m);
      Apart(2 * q, 2 * n + 1, m);
    }
    forall q: nat | q < n + 1 ensures OddRight(after, q, m, p) {
      if q < n {
        assert OddRight(table, q, m, p);
        Apart(2 * q + 1, 2 * n + 1, m);
      }
    }
  }

  /** Even and odd multiples are all of them. */
  lemma SieveStep(table: seq<Bits>, m: nat, p: Bits)
    requires m < 8 && Byte(p) && HalfSieved(table, m, Two(7 - m), p)
    ensures Sieved(table, m, p)
  {
    hide RemainderDown, Two;
    TwoNext(7 - m);
    forall q: nat | q < Two(8 - m) ensures RightAt(table, q, m, p) {
      if q % 2 == 0 {
        assert RightAt(table, q / 2, m + 1, p);
        TwiceTwo(q / 2, m);
      } else {
        assert OddRight(table, q / 2, m, p);
      }
    }
  }

  lemma SieveStarts(table: seq<Bits>, p: Bits)
    requires |table| == SIZE && Byte(p) && table[0] == Zeros(8)
    ensures Sieved(table, 8, p)
  {
    RemainderDownZero(p);
    hide RemainderDown;
    forall q: nat | q < Two(0) ensures RightAt(table, q, 8, p) {
      assert q == 0;
    }
  }

  lemma RemainderDownZero(p: Bits)
    requires Byte(p)
    ensures RemainderDown(0, p) == Zeros(8)
  {
    hide Shifts;
    BitsZero(8);
    assert Reverse(Zeros(8)) == Zeros(8);
    ShiftsZero(Reverse(p), 8);
  }

  lemma SieveEnds(table: seq<Bits>, p: Bits, k: nat)
    requires |table| == SIZE && Byte(p) && Sieved(table, 0, p) && k < SIZE
    ensures table[k] == RemainderDown(k, p)
  {
    hide RemainderDown;
    TwoOf8();
    assert RightAt(table, k, 0, p);
  }

  lemma {:induction false} ShiftsDownLast(r: Bits, p: Bits, n: nat)
    requires Byte(r) && Byte(p)
    ensures ShiftsDown(r, p, n + 1) == ShiftDown(ShiftsDown(r, p, n), p)
    decreases n
  {
    hide ShiftDown;
    if n > 0 {
      ShiftsDownLast(ShiftDown(r, p), p, n - 1);
    }
  }

  /** crc8_populate_lsb: for every polynomial, table[k] is the mirrored remainder of k. */
  method PopulateLsb(table: array<Bits>, polynomial: Bits)
    requires table.Length == SIZE && Byte(polynomial)
    modifies table
    ensures forall k :: 0 <= k < SIZE ==> table[k] == RemainderDown(k, polynomial)
  {
    hide RemainderDown, ShiftDown, ShiftsDown, Two, Sieved, HalfSieved, Add;
    var t := BOTTOM;
    table[0] := Zeros(8);
    SieveStarts(table[..], polynomial);
    TwoOf8();
    NoShiftDown(BOTTOM, polynomial);
    var i := SIZE / 2;
    ghost var m: nat := 8;
    while i > 0
      invariant m <= 8 && (if m > 0 then i == Two(m - 1) else i == 0)
      invariant Byte(t) && t == ShiftsDown(BOTTOM, polynomial, 8 - m)
      invariant Sieved(table[..], m, polynomial)
      decreases i
    {
      ShiftsDownLast(BOTTOM, polynomial, 8 - m);
      t := ShiftDown(t, polynomial);
      m := m - 1;
      var j := 0;
      ghost var n: nat := 0;
      HalfStarts(table[..], m, polynomial);
      while j < SIZE
        invariant j == 2 * n * Two(m) && n <= Two(7 - m)
        invariant HalfSieved(table[..], m, n, polynomial)
        decreases SIZE - j
      {
        RoomLeft(m, n);
        FillOne(table[..], m, n, polynomial);
        table[i + j] := Add(table[j], t);
        j := j + 2 * i;
        n := n + 1;
        NextMultiple(m, n);
      }
      AllFilled(m, n);
      SieveStep(table[..], m, polynomial);
      i := i / 2;
    }
    forall k | 0 <= k < SIZE ensures table[k] == RemainderDown(k, polynomial) {
      SieveEnds(table[..], polynomial, k);
    }
  }

  lemma NoShiftDown(r: Bits, p: Bits)
    requires Byte(r) && Byte(p)
    ensures ShiftsDown(r, p, 0) == r
  {
  }

  lemma HalfStarts(table: seq<Bits>, m: nat, p: Bits)
    requires m < 8 && Byte(p) && Sieved(table, m + 1, p)
    ensures HalfSieved(table, m, 0, p)
  {
    hide Sieved;
  }

  lemma RoomLeft(m: nat, n: nat)
    requires m < 8 && 2 * n * Two(m) < SIZE
    ensures n < Two(7 - m)
  {
    TwoProduct(m + 1, 7 - m);
    TwiceTwo(n, m);
    if n >= Two(7 - m) {
      AtLeast(Two(7 - m), n, Two(m + 1));
    }
  }

  lemma AtLeast(a: nat, b: nat, t: nat)
    requires a <= b
    ensures a * t <= b * t
  {
  }

  lemma InsideHalf(m: nat, n: nat)
    requires m < 8 && n < Two(7 - m)
    ensures 2 * n * Two(m) < SIZE
  {
    TwiceTwo(n, m);
    Inside(n, m + 1, 7 - m);
  }

  lemma AllFilled(m: nat, n: nat)
    requires m < 8 && n <= Two(7 - m) && 2 * n * Two(m) >= SIZE
    ensures n == Two(7 - m) && Two(m) / 2 == (if m > 0 then Two(m - 1) else 0)
  {
    if n < Two(7 - m) {
      InsideHalf(m, n);
    }
  }

  lemma NextMultiple(m: nat, n: nat)
    requires n > 0
    ensures 2 * n * Two(m) == 2 * (n - 1) * Two(m) + 2 * Two(m)
  {
  }

  /** The two tables are mirror images: of the indices, of the entries, and of the polynomials. */
  lemma TablesMirror(msb: seq<Bits>, lsb: seq<Bits>, p: Bits, b: Bits)
    requires |msb| == |lsb| == SIZE && Byte(p) && Byte(b) && Filled(msb, SIZE, p)
    requires forall k :: 0 <= k < SIZE ==> lsb[k] == RemainderDown(k, Reverse(p))
    ensures Num(b) < SIZE && Num(Reverse(b)) < SIZE
    ensures lsb[Num(Reverse(b))] == Reverse(msb[Num(b)])
  {
    hide Shifts, NumberBits, Num, Reverse;
    TwoOf8();
    BitsNum(b);
    BitsNum(Reverse(b));
    ReverseTwice(b);
    ReverseTwice(p);
  }

  // ----- the checksum of a buffer -----

  /** One byte: eight steps on the register with the byte added. */
  function Crc(p: Bits, data: seq<Bits>, r: Bits): (c: Bits)
    requires Byte(p) && Byte(r) && forall i :: 0 <= i < |data| ==> Byte(data[i])
    ensures Byte(c)
    decreases |data|
  {
    if data == [] then r
    else
      assert Byte(data[0]);
      Crc(p, data[1..], Shifts(Add(r, data[0]), p, 8))
  }

  /** crc8, with the table of a polynomial. */
  method Crc8Of(table: seq<Bits>, data: seq<Bits>, r: Bits, ghost p: Bits) returns (crc: Bits)
    requires Byte(p) && Byte(r) && (forall i :: 0 <= i < |data| ==> Byte(data[i]))
    requires |table| == SIZE && Filled(table, SIZE, p)
    ensures crc == Crc(p, data, r)
  {
    hide Shifts, Add, Num;
    crc := r;
    var k := 0;
    while k < |data|
      invariant k <= |data| && Byte(crc)
      invariant Crc(p, data, r) == Crc(p, data[k..], crc)
    {
      assert data[k..][1..] == data[k + 1..] && data[k..][0] == data[k];
      var index := Add(crc, data[k]);
      BitsNum(index);
      TwoOf8();
      assert table[Num(index)] == Remainder(Num(index), p);
      crc := table[Num(index)];
      k := k + 1;
    }
  }

  /** Any split of a buffer: the second part goes on where the first ended. */
  lemma {:induction false} CrcSplit(p: Bits, a: seq<Bits>, b: seq<Bits>, r: Bits)
    requires Byte(p) && Byte(r)
    requires (forall i :: 0 <= i < |a| ==> Byte(a[i])) && (forall i :: 0 <= i < |b| ==> Byte(b[i]))
    ensures forall i :: 0 <= i < |a + b| ==> Byte((a + b)[i])
    ensures Crc(p, a + b, r) == Crc(p, b, Crc(p, a, r))
    decreases |a|
  {
    hide Shifts, Add;
    if a == [] {
      assert a + b == b;
    } else {
      assert (a + b)[0] == a[0] && (a + b)[1..] == a[1..] + b;
      CrcSplit(p, a[1..], b, Shifts(Add(r, a[0]), p, 8));
    }
  }

  /** Serial division: one bit at a time against the top of the register. */
  function Feed(r: Bits, bits: Bits, p: Bits): (s: Bits)
    requires Byte(r) && Byte(p)
    ensures Byte(s)
    decreases |bits|
  {
    if bits == [] then r else Feed(Shift([r[0] != bits[0]] + r[1..], p), bits[1..], p)
  }

  function Flatten(data: seq<Bits>): Bits {
    if data == [] then [] else data[0] + Flatten(data[1..])
  }

  /** The first of some bits, and the others. */
  lemma FirstBitApart(r: Bits, u: Bits)
    requires Byte(r) && 0 < |u| <= 8
    ensures var w := u + Zeros(8 - |u|);
      var rest := [false] + w[1..];
      && Add(r, w) == Add([r[0] != u[0]] + r[1..], rest)
      && !rest[0] && rest[1..] + [false] == u[1..] + Zeros(8 - |u| + 1)
  {
  }

  /** n bits fed one by one, or added to the top of the register and shifted through. */
  lemma {:induction false} FeedIsShifts(r: Bits, u: Bits, p: Bits)
    requires Byte(r) && Byte(p) && |u| <= 8
    ensures Feed(r, u, p) == Shifts(Add(r, u + Zeros(8 - |u|)), p, |u|)
    decreases |u|
  {
    var w := u + Zeros(8 - |u|);
    if u == [] {
      assert w == Zeros(8);
      AddZeros(r);
    } else {
      hide Add, Zeros;
      var rest := [false] + w[1..];
      var r' := [r[0] != u[0]] + r[1..];
      FirstBitApart(r, u);
      ShiftLinear(r', rest, p);
      FeedIsShifts(Shift(r', p), u[1..], p);
    }
  }

  lemma {:induction false} FeedConcat(r: Bits, a: Bits, b: Bits, p: Bits)
    requires Byte(r) && Byte(p)
    ensures Feed(r, a + b, p) == Feed(Feed(r, a, p), b, p)
    decreases |a|
  {
    hide Shift;
    if a == [] {
      assert a + b == b;
    } else {
      assert (a + b)[0] == a[0] && (a + b)[1..] == a[1..] + b;
      FeedConcat(Shift([r[0] != a[0]] + r[1..], p), a[1..], b, p);
    }
  }

  /** The checksum of a buffer is the serial division of all its bits. */
  lemma {:induction false} CrcIsDivision(p: Bits, data: seq<Bits>, r: Bits)
    requires Byte(p) && Byte(r) && forall i :: 0 <= i < |data| ==> Byte(data[i])
    ensures Crc(p, data, r) == Feed(r, Flatten(data), p)
    decreases |data|
  {
    hide Shifts, Add, Feed;
    if data == [] {
      FeedNothing(r, p);
    } else {
      FeedIsShifts(r, data[0], p);
      assert data[0] + Zeros(0) == data[0];
      FeedConcat(r, data[0], Flatten(data[1..]), p);
      CrcIsDivision(p, data[1..], Shifts(Add(r, data[0]), p, 8));
    }
  }

  lemma FeedNothing(r: Bits, p: Bits)
    requires Byte(r) && Byte(p)
    ensures Feed(r, [], p) == r
  {
  }
}
