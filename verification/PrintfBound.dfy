/** Bounded printing refines unbounded printing: what a buffer keeps is a prefix of what would be
    printed without a bound, and how long that is. */
module PrintfBound {
  import opened CText
  import opened DecimalText
  import opened Printf

  /** A directive that starts inside the bound puts out the same; one that starts past it at least
      as much. */
  lemma PieceAgrees(n: nat, p: nat, q: nat, d: Directive, c: char, arg: Arg)
    ensures p < n ==> Emit(Limit(n), p, d, c, arg) == Emit(Endless, q, d, c, arg)
    ensures |Emit(Limit(n), p, d, c, arg)| >= |Emit(Endless, q, d, c, arg)|
    ensures !Signed(c) ==> Emit(Limit(n), p, d, c, arg) == Emit(Endless, q, d, c, arg)
  {
    hide Digits, HexDigits, NumberText;
  }

  /** Past the bound only the length counts, and it does not depend on the position. */
  lemma {:induction false} LongerPast(n: nat, p: nat, q: nat, fmt: string, f: nat, args: Args, a: nat)
    ensures |Format(Limit(n), p, fmt, f, args, a)| >= |Format(Endless, q, fmt, f, args, a)|
    decreases |fmt| - f
  {
    hide Format, Emit, Parse, TakesArg;
    if At(fmt, f) == '\0' {
      FormatEnds(Limit(n), p, fmt, f, args, a);
      FormatEnds(Endless, q, fmt, f, args, a);
    } else {
      FormatStep(Limit(n), p, fmt, f, args, a);
      FormatStep(Endless, q, fmt, f, args, a);
      if At(fmt, f) != '%' {
        LongerPast(n, p + 1, q + 1, fmt, f + 1, args, a);
      } else {
        var d := Parse(fmt, f, args, a);
        var c := At(fmt, d.at);
        PieceAgrees(n, p, q, d, c, args(d.arg));
        LongerPast(n, p + |Emit(Limit(n), p, d, c, args(d.arg))|, q + |Emit(Endless, q, d, c, args(d.arg))|,
                   fmt, if c == '\0' then d.at else d.at + 1, args, if TakesArg(c) then d.arg + 1 else d.arg);
      }
    }
  }

  /** The first `room` characters are the same; if there are fewer, all is. */
  predicate Refines(bounded: string, full: string, room: nat) {
    && |bounded| >= |full|
    && (|full| < room ==> bounded == full)
    && (|full| >= room ==> bounded[..room] == full[..room])
  }

  lemma RefinesBehind(x: string, bounded: string, full: string, room: nat)
    requires |bounded| >= |full| && (|x| < room ==> Refines(bounded, full, room - |x|))
    ensures Refines(x + bounded, x + full, room)
  {
    if |x| >= room {
      assert (x + bounded)[..room] == x[..room] == (x + full)[..room];
    } else if |full| >= room - |x| {
      assert (x + bounded)[..room] == x + bounded[..room - |x|];
      assert (x + full)[..room] == x + full[..room - |x|];
    }
  }

  lemma {:induction false} FormatRefines(n: nat, p: nat, fmt: string, f: nat, args: Args, a: nat)
    requires p < n
    ensures Refines(Format(Limit(n), p, fmt, f, args, a), Format(Endless, p, fmt, f, args, a), n - p)
    decreases |fmt| - f
  {
    hide Format, Emit, Parse, TakesArg, Refines;
    if At(fmt, f) == '\0' {
      FormatEnds(Limit(n), p, fmt, f, args, a);
      FormatEnds(Endless, p, fmt, f, args, a);
      EmptyRefines(n - p);
    } else {
      FormatStep(Limit(n), p, fmt, f, args, a);
      FormatStep(Endless, p, fmt, f, args, a);
      if At(fmt, f) != '%' {
        if p + 1 < n {
          FormatRefines(n, p + 1, fmt, f + 1, args, a);
        }
        LongerPast(n, p + 1, p + 1, fmt, f + 1, args, a);
        RefinesBehind([At(fmt, f)], Format(Limit(n), p + 1, fmt, f + 1, args, a),
                      Format(Endless, p + 1, fmt, f + 1, args, a), n - p);
      } else {
        var d := Parse(fmt, f, args, a);
        var c := At(fmt, d.at);
        var x := Emit(Limit(n), p, d, c, args(d.arg));
        PieceAgrees(n, p, p, d, c, args(d.arg));
        var g, b := if c == '\0' then d.at else d.at + 1, if TakesArg(c) then d.arg + 1 else d.arg;
        if p + |x| < n {
          FormatRefines(n, p + |x|, fmt, g, args, b);
        }
        LongerPast(n, p + |x|, p + |x|, fmt, g, args, b);
        RefinesBehind(x, Format(Limit(n), p + |x|, fmt, g, args, b), Format(Endless, p + |x|, fmt, g, args, b), n - p);
      }
    }
  }

  lemma EmptyRefines(room: nat)
    ensures Refines("", "", room)
  {
  }

  /** No conversion of the format is signed. */
  predicate Unsigned(fmt: string, f: nat, args: Args, a: nat)
    decreases |fmt| - f
  {
    if At(fmt, f) == '\0' then true
    else if At(fmt, f) != '%' then Unsigned(fmt, f + 1, args, a)
    else
      var d := Parse(fmt, f, args, a);
      var c := At(fmt, d.at);
      !Signed(c)
      && Unsigned(fmt, if c == '\0' then d.at else d.at + 1, args, if TakesArg(c) then d.arg + 1 else d.arg)
  }

  /** Without signed conversions the bound changes nothing that is counted. */
  lemma {:induction false} UnsignedIsSame(n: nat, p: nat, fmt: string, f: nat, args: Args, a: nat)
    requires Unsigned(fmt, f, args, a)
    ensures Format(Limit(n), p, fmt, f, args, a) == Format(Endless, p, fmt, f, args, a)
    decreases |fmt| - f
  {
    hide Format, Emit, Parse, TakesArg, Signed;
    if At(fmt, f) == '\0' {
      FormatEnds(Limit(n), p, fmt, f, args, a);
      FormatEnds(Endless, p, fmt, f, args, a);
    } else {
      FormatStep(Limit(n), p, fmt, f, args, a);
      FormatStep(Endless, p, fmt, f, args, a);
      if At(fmt, f) != '%' {
        UnsignedIsSame(n, p + 1, fmt, f + 1, args, a);
      } else {
        var d := Parse(fmt, f, args, a);
        var c := At(fmt, d.at);
        PieceAgrees(n, p, p, d, c, args(d.arg));
        UnsignedIsSame(n, p + |Emit(Limit(n), p, d, c, args(d.arg))|,
                       fmt, if c == '\0' then d.at else d.at + 1, args, if TakesArg(c) then d.arg + 1 else d.arg);
      }
    }
  }

  // ----- what is counted -----

  /** A signed conversion that starts past the bound, shows a sign, and has padding that is not made
      of leading spaces: its sign is counted but does not take from the width. */
  predicate Twice(n: nat, p: nat, d: Directive, c: char, arg: Arg) {
    Signed(c) && p >= n
    && var v := Converted(arg.number, d.qualifier, true);
       SignOf(v, d.flags) != "" && (d.flags.left || d.flags.zeropad) && d.width > |Digits(Magnitude(v))|
  }

  /** Exactly these conversions are counted one too long. */
  lemma SignCountedTwice(n: nat, p: nat, q: nat, d: Directive, c: char, arg: Arg)
    requires (p < n && q == p) || (p >= n && q >= n)
    ensures |Emit(Limit(n), p, d, c, arg)| == |Emit(Endless, q, d, c, arg)| + if Twice(n, q, d, c, arg) then 1 else 0
  {
    hide Digits, HexDigits, NumberText;
  }

  /** How many directives of a format do that, where they stand in the text without a bound. */
  function CountedTwice(n: nat, p: nat, fmt: string, f: nat, args: Args, a: nat): nat
    decreases |fmt| - f
  {
    if At(fmt, f) == '\0' then 0
    else if At(fmt, f) != '%' then CountedTwice(n, p + 1, fmt, f + 1, args, a)
    else
      var d := Parse(fmt, f, args, a);
      var c := At(fmt, d.at);
      (if Twice(n, p, d, c, args(d.arg)) then 1 else 0)
      + CountedTwice(n, p + |Emit(Endless, p, d, c, args(d.arg))|, fmt, if c == '\0' then d.at else d.at + 1, args,
                     if TakesArg(c) then d.arg + 1 else d.arg)
  }

  /** What is counted is the length without a bound, and one more for each of them. */
  lemma {:induction false} LengthCounted(n: nat, p: nat, q: nat, fmt: string, f: nat, args: Args, a: nat)
    requires (p < n && q == p) || (p >= n && q >= n)
    ensures |Format(Limit(n), p, fmt, f, args, a)|
      == |Format(Endless, q, fmt, f, args, a)| + CountedTwice(n, q, fmt, f, args, a)
    decreases |fmt| - f
  {
    hide Format, Emit, Parse, TakesArg, Twice, Signed;
    if At(fmt, f) == '\0' {
      FormatEnds(Limit(n), p, fmt, f, args, a);
      FormatEnds(Endless, q, fmt, f, args, a);
    } else {
      FormatStep(Limit(n), p, fmt, f, args, a);
      FormatStep(Endless, q, fmt, f, args, a);
      if At(fmt, f) != '%' {
        LengthCounted(n, p + 1, q + 1, fmt, f + 1, args, a);
      } else {
        var d := Parse(fmt, f, args, a);
        var c := At(fmt, d.at);
        var x, y := Emit(Limit(n), p, d, c, args(d.arg)), Emit(Endless, q, d, c, args(d.arg));
        PieceAgrees(n, p, q, d, c, args(d.arg));
        SignCountedTwice(n, p, q, d, c, args(d.arg));
        LengthCounted(n, p + |x|, q + |y|, fmt, if c == '\0' then d.at else d.at + 1, args,
                      if TakesArg(c) then d.arg + 1 else d.arg);
      }
    }
  }

  /** The result is more than the length by one: "x%05d" with -7 into one character. */
  lemma OverCounted(args: Args)
    requires args(0).number == -7
    ensures Format(Endless, 0, "x%05d", 0, args, 0) == "x-0007"
    ensures |Format(Limit(1), 0, "x%05d", 0, args, 0)| == 7
  {
    hide Format, Emit, Parse;
    var fmt := "x%05d";
    var d := Directive(NO_FLAGS.(zeropad := true), 5, '\0', 4, 0);
    ParsesZeroFive(args);
    EmitsMinusSeven(d, args(0));
    FormatStep(Limit(1), 0, fmt, 0, args, 0);
    FormatStep(Limit(1), 1, fmt, 1, args, 0);
    FormatEnds(Limit(1), 7, fmt, 5, args, 1);
    FormatStep(Endless, 0, fmt, 0, args, 0);
    FormatStep(Endless, 1, fmt, 1, args, 0);
    FormatEnds(Endless, 6, fmt, 5, args, 1);
  }

  lemma ParsesZeroFive(args: Args)
    ensures Parse("x%05d", 1, args, 0) == Directive(NO_FLAGS.(zeropad := true), 5, '\0', 4, 0)
  {
    var fmt := "x%05d";
    var flags := NO_FLAGS.(zeropad := true);
    assert ParseFlags(fmt, 2, flags) == (flags, 3);
    assert ParseFlags(fmt, 1, NO_FLAGS) == (flags, 3);
    assert Number(fmt, 4, 5) == (5, 4) && Number(fmt, 3, 0) == (5, 4);
  }

  lemma EmitsMinusSeven(d: Directive, arg: Arg)
    requires d == Directive(NO_FLAGS.(zeropad := true), 5, '\0', 4, 0) && arg.number == -7
    ensures Emit(Limit(1), 1, d, 'd', arg) == "-00007" && Emit(Endless, 1, d, 'd', arg) == "-0007"
  {
    assert Converted(-7, '\0', true) == B32 - 7 && Magnitude(B32 - 7) == 7;
    assert Digits(7) == "7";
    assert Fill('0', 4) == "0000" && Fill('0', 3) == "000";
  }

  /** What is printed into a buffer of `size` characters is what fits of the text that would be
      printed without a bound.  The result is the length of that text plus the number of signs that
      are counted twice: exactly the length if and only if there is none, as when the text fits or no
      conversion is signed. */
  method PrintInto(buf: array<char>, base: nat, size: nat, fmt: string, args: Args) returns (n: int)
    requires 0 < size && base + size <= buf.Length
    modifies buf
    ensures var full := Format(Endless, base, fmt, 0, args, 0);
      && Printed(old(buf[..]), buf[..], base, size, full)
      && n == |full| + CountedTwice(base + size, base, fmt, 0, args, 0)
      && (|full| < size || Unsigned(fmt, 0, args, 0) ==> n == |full|)
  {
    hide Format, Unsigned, CountedTwice;
    n := Vsnprintf(buf, base, size, fmt, args);
    ghost var bounded, full := Format(Limit(base + size), base, fmt, 0, args, 0), Format(Endless, base, fmt, 0,
                                      args, 0);
    FormatRefines(base + size, base, fmt, 0, args, 0);
    LengthCounted(base + size, base, base, fmt, 0, args, 0);
    if Unsigned(fmt, 0, args, 0) {
      UnsignedIsSame(base + size, base, fmt, 0, args, 0);
    }
    if |full| >= size {
      assert bounded[..size - 1] == bounded[..size][..size - 1] == full[..size][..size - 1] == full[..size - 1];
    }
  }

  /** A plain "%d" prints the number, for every 32-bit number. */
  lemma PlainDecimal(room: Room, p: nat, d: Directive, c: char, n: int)
    requires Signed(c) && d.flags == NO_FLAGS && d.width == -1 && d.qualifier != 'h' && -B31 <= n < B31
    ensures Emit(room, p, d, c, Arg(n, Null)) == Decimal(n)
  {
    hide Digits;
    var v := Converted(n, d.qualifier, true);
    SignedValue(n);
    var t := Digits(Magnitude(v));
    assert Fill(' ', -1 - |t|) == "";
    assert "" + SignOf(v, NO_FLAGS) + t == SignOf(v, NO_FLAGS) + t;
    assert "" + t == t;
  }

  lemma SignedValue(n: int)
    requires -B31 <= n < B31
    ensures n % B32 == if n < 0 then n + B32 else n
  {
  }
}
