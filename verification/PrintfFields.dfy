/** What the conversions of the formatter mean: which directive a format spells, which number the digits
    of a field stand for, and how wide the field is. */
module PrintfFields {
  import opened CText
  import opened DecimalText
  import opened Printf

  // ----- the directive a format spells -----

  predicate IsFlag(c: char) { c == '-' || c == '+' || c == ' ' || c == '#' || c == '0' }

  /** Between the '%' at f and g stand flags only, and at g stands none. */
  ghost predicate FlagsRun(fmt: string, f: nat, g: nat) {
    f < g && (forall i :: f < i < g ==> IsFlag(At(fmt, i))) && !IsFlag(At(fmt, g))
  }

  ghost predicate HasFlag(fmt: string, f: nat, g: nat, c: char) {
    exists i :: f < i < g && At(fmt, i) == c
  }

  lemma {:induction false} FlagsAre(fmt: string, f: nat, flags: Flags) returns (g: nat)
    ensures FlagsRun(fmt, f, g) && (f < |fmt| ==> g <= |fmt|)
    ensures ParseFlags(fmt, f, flags) ==
      (Flags(flags.zeropad || HasFlag(fmt, f, g, '0'), flags.plus || HasFlag(fmt, f, g, '+'),
             flags.space || HasFlag(fmt, f, g, ' '), flags.left || HasFlag(fmt, f, g, '-')), g)
    decreases |fmt| - f
  {
    var c := At(fmt, f + 1);
    if IsFlag(c) {
      var next := if c == '-' then flags.(left := true) else if c == '+' then flags.(plus := true)
                  else if c == ' ' then flags.(space := true) else if c == '0' then flags.(zeropad := true) else flags;
      g := FlagsAre(fmt, f + 1, next);
      HasMore(fmt, f, g, '0');
      HasMore(fmt, f, g, '+');
      HasMore(fmt, f, g, ' ');
      HasMore(fmt, f, g, '-');
    } else {
      g := f + 1;
    }
  }

  lemma HasMore(fmt: string, f: nat, g: nat, c: char)
    requires f + 1 < g
    ensures HasFlag(fmt, f, g, c) <==> At(fmt, f + 1) == c || HasFlag(fmt, f + 1, g, c)
  {
  }

  /** From g to h stands the longest run of digits. */
  ghost predicate DigitRun(fmt: string, g: nat, h: nat) {
    g <= h <= |fmt| && AllDigits(fmt[g..h]) && !IsDigit(At(fmt, h))
  }

  lemma {:induction false} NumberIs(fmt: string, start: nat, g: nat) returns (h: nat)
    requires start <= g <= |fmt| && AllDigits(fmt[start..g])
    ensures g <= h && DigitRun(fmt, start, h) && Number(fmt, g, Value(fmt[start..g])) == (Value(fmt[start..h]), h)
    decreases |fmt| - g
  {
    if IsDigit(At(fmt, g)) {
      var run := fmt[start..g + 1];
      assert run[..|run| - 1] == fmt[start..g] && run[|run| - 1] == fmt[g];
      h := NumberIs(fmt, start, g + 1);
    } else {
      h := g;
    }
  }

  /** Flags, then a number, a star or nothing for the width, then h, l or nothing: what the directive
      says.  A star takes the next argument, and a negative one stands for the flag '-' too. */
  lemma DirectiveIs(fmt: string, f: nat, args: Args, a: nat) returns (g: nat, h: nat)
    requires f < |fmt|
    ensures FlagsRun(fmt, f, g) && g <= h <= |fmt|
    ensures if At(fmt, g) == '*' then h == g + 1 else DigitRun(fmt, g, h)
    ensures var d := Parse(fmt, f, args, a);
      var star, n := At(fmt, g) == '*', args(a).number;
      && d.width == (if star then (if n < 0 then -n else n) else if h == g then -1 else Value(fmt[g..h]))
      && d.flags == Flags(HasFlag(fmt, f, g, '0'), HasFlag(fmt, f, g, '+'), HasFlag(fmt, f, g, ' '),
                          HasFlag(fmt, f, g, '-') || (star && n < 0))
      && (if At(fmt, h) == 'h' || At(fmt, h) == 'l' then d.qualifier == At(fmt, h) && d.at == h + 1
          else d.qualifier == '\0' && d.at == h)
      && d.arg == if star then a + 1 else a
  {
    hide ParseFlags, Number, HasFlag, Value;
    g := FlagsAre(fmt, f, NO_FLAGS);
    NoDigits(fmt, g);
    if At(fmt, g) == '*' {
      h := g + 1;
    } else {
      h := NumberIs(fmt, g, g);
    }
  }

  lemma NoDigits(fmt: string, g: nat)
    requires g <= |fmt|
    ensures AllDigits(fmt[g..g]) && Value(fmt[g..g]) == 0
  {
    assert fmt[g..g] == "";
  }

  // ----- hexadecimal digits -----

  /** The value of a digit by its code: 0 to 9, A to F or a to f. */
  function HexCode(c: char, large: bool): int {
    var n := c as int;
    if 0x30 <= n <= 0x39 then n - 0x30
    else if large && 0x41 <= n <= 0x46 then n - 0x41 + 10
    else if !large && 0x61 <= n <= 0x66 then n - 0x61 + 10
    else -1
  }

  ghost predicate AllHex(s: string, large: bool) {
    forall i :: 0 <= i < |s| ==> HexCode(s[i], large) >= 0
  }

  function HexNumber(s: string, large: bool): int {
    if s == "" then 0 else 16 * HexNumber(s[..|s| - 1], large) + HexCode(s[|s| - 1], large)
  }

  lemma HexDigitIs(d: nat, large: bool)
    requires d < 16
    ensures HexCode(HexDigit(d, large), large) == d
  {
  }

  lemma {:induction false} HexReadsBack(n: nat, large: bool)
    ensures var s := HexDigits(n, large);
      AllHex(s, large) && HexNumber(s, large) == n && s != "" && (n > 0 ==> s[0] != '0')
    decreases n
  {
    hide HexCode, HexDigit;
    var s := HexDigits(n, large);
    HexDigitIs(n % 16, large);
    NotZero(n % 16, large);
    if n < 16 {
      assert s[..0] == "" && s == [HexDigit(n, large)];
      assert HexNumber(s, large) == 16 * HexNumber("", large) + HexCode(s[0], large);
    } else {
      HexReadsBack(n / 16, large);
      assert s[..|s| - 1] == HexDigits(n / 16, large);
    }
  }

  lemma NotZero(d: nat, large: bool)
    requires d < 16
    ensures d > 0 ==> HexDigit(d, large) != '0'
  {
  }

  lemma {:induction false} DecimalReads(n: nat)
    ensures var s := Digits(n);
      AllDigits(s) && Value(s) == n && s != "" && (n > 0 ==> s[0] != '0')
    decreases n
  {
    hide Value;
    DigitsReadBack(n);
    if n >= 10 {
      DecimalReads(n / 10);
    }
  }

  // ----- the fields -----

  function Max(a: int, b: int): int { if a > b then a else b }

  /** The number an integer conversion takes of its argument: 16 bits for h, else 32; for d and i with
      its sign. */
  function Taken(n: int, short: bool, signed: bool): int {
    var size := if short then 0x1_0000 else 0x1_0000_0000;
    if signed && n % size >= size / 2 then n % size - size else n % size
  }

  /** The digits of a field stand for this number: in decimal for d, i and u, else in sixteens, also
      for o. */
  ghost predicate StandFor(digits: string, n: nat, c: char) {
    && digits != "" && (n > 0 ==> digits[0] != '0')
    && if c == 'd' || c == 'i' || c == 'u' then AllDigits(digits) && Value(digits) == n
       else AllHex(digits, c == 'X') && HexNumber(digits, c == 'X') == n
  }

  function SignText(v: int, signed: bool, flags: Flags): string {
    if v < 0 then "-" else if signed && flags.plus then "+" else if signed && flags.space then " " else ""
  }

  /** An integer conversion that starts inside the bound: blanks, sign, zeros, digits, blanks. */
  lemma NumberField(room: Room, p: nat, d: Directive, c: char, arg: Arg)
    returns (lead: int, sign: string, zeros: int, digits: string, trail: int)
    requires c == 'd' || c == 'i' || c == 'u' || c == 'o' || c == 'x' || c == 'X'
    requires room.Fits(p)
    ensures var signed := c == 'd' || c == 'i';
      var v := Taken(arg.number, d.qualifier == 'h', signed);
      && Emit(room, p, d, c, arg) == Fill(' ', lead) + sign + Fill('0', zeros) + digits + Fill(' ', trail)
      && sign == SignText(v, signed, d.flags)
      && StandFor(digits, if v < 0 then -v else v, c)
      && lead == (if d.flags.left || d.flags.zeropad then 0 else Max(0, d.width - |digits|))
      && zeros == (if d.flags.left || !d.flags.zeropad then 0 else Max(0, d.width - |digits| - |sign|))
      && trail == (if d.flags.left then Max(0, d.width - |digits| - |sign|) else 0)
  {
    hide Digits, HexDigits, PrintNumber;
    var signed := c == 'd' || c == 'i';
    var v := Taken(arg.number, d.qualifier == 'h', signed);
    var u := Converted(arg.number, d.qualifier, signed);
    TakenIs(arg.number, d.qualifier, signed);
    var n := if v < 0 then -v else v;
    sign := SignText(v, signed, d.flags);
    digits := if c == 'd' || c == 'i' || c == 'u' then Digits(n) else HexDigits(n, c == 'X');
    DecimalReads(n);
    HexReadsBack(n, c == 'X');
    DecimalIsText(n);
    HexIsText(n, c == 'X');
    lead, zeros, trail := FieldParts(room, p, digits, sign, d.flags, d.width);
    assert signed ==> u == (if v < 0 then v + B32 else v) && Magnitude(u) == n && SignOf(u, d.flags) == sign;
    assert !signed ==> u == n && sign == "";
  }

  lemma TakenIs(n: int, qualifier: char, signed: bool)
    ensures var v, u := Taken(n, qualifier == 'h', signed), Converted(n, qualifier, signed);
      && u == (if v < 0 then v + B32 else v)
      && (signed ==> (u >= B31 <==> v < 0))
      && (!signed ==> v >= 0)
  {
  }

  lemma FieldParts(room: Room, p: nat, digits: string, sign: string, flags: Flags, width: int)
    returns (lead: int, zeros: int, trail: int)
    requires room.Fits(p) && |sign| <= 1
    ensures PrintNumber(room, p, digits, sign, flags, width)
      == Fill(' ', lead) + sign + Fill('0', zeros) + digits + Fill(' ', trail)
    ensures lead == (if flags.left || flags.zeropad then 0 else Max(0, width - |digits|))
    ensures zeros == (if flags.left || !flags.zeropad then 0 else Max(0, width - |digits| - |sign|))
    ensures trail == (if flags.left then Max(0, width - |digits| - |sign|) else 0)
  {
    lead := if flags.left || flags.zeropad then 0 else Max(0, width - |digits|);
    zeros := if flags.left || !flags.zeropad then 0 else Max(0, width - |digits| - |sign|);
    trail := if flags.left then Max(0, width - |digits| - |sign|) else 0;
    hide Fill;
    FillNone(' ', width - |digits|);
    FillNone(' ', width - |digits| - |sign|);
    FillNone('0', width - |digits| - |sign|);
    FillNone(' ', 0);
    FillNone('0', 0);
    var a, b, e := Fill(' ', lead), Fill('0', zeros), Fill(' ', trail);
    assert a + sign + "" + digits + "" == a + sign + digits;
    assert "" + sign + b + digits + "" == sign + b + digits;
    assert "" + sign + "" + digits + e == sign + digits + e;
  }

  lemma FillNone(c: char, n: int)
    ensures Fill(c, n) == Fill(c, Max(0, n)) && (n <= 0 ==> Fill(c, n) == "")
  {
  }

  /** How wide a number is: as wide as asked for or as its sign and digits need; but with leading
      blanks the sign comes on top of the width. */
  lemma NumberWidth(p: nat, d: Directive, c: char, arg: Arg)
    returns (sign: string, digits: string)
    requires c == 'd' || c == 'i' || c == 'u' || c == 'o' || c == 'x' || c == 'X'
    ensures var signed := c == 'd' || c == 'i';
      var v := Taken(arg.number, d.qualifier == 'h', signed);
      && sign == SignText(v, signed, d.flags) && StandFor(digits, if v < 0 then -v else v, c)
      && (|Emit(Endless, p, d, c, arg)| == Max(d.width, |sign| + |digits|) <==>
           sign == "" || d.flags.left || d.flags.zeropad || d.width <= |digits|)
      && |Emit(Endless, p, d, c, arg)| <= Max(d.width, |sign| + |digits|) + 1
  {
    hide Emit, StandFor;
    var lead, zeros, trail;
    lead, sign, zeros, digits, trail := NumberField(Endless, p, d, c, arg);
  }

  /** "%5d" with -7 is six characters wide. */
  lemma FieldTooWide(d: Directive, arg: Arg)
    requires d.flags == NO_FLAGS && d.width == 5 && d.qualifier == '\0' && arg.number == -7
    ensures Emit(Endless, 0, d, 'd', arg) == "    -7"
  {
    assert Converted(-7, '\0', true) == B32 - 7 && Magnitude(B32 - 7) == 7;
    assert Digits(7) == "7";
    assert Fill(' ', 4) == "    ";
  }

  /** A text or a character in its field: on the left with '-', else on the right; NULL is spelled
      out. */
  lemma TextField(room: Room, p: nat, d: Directive, c: char, arg: Arg)
    requires c == 's' || c == 'c'
    ensures var out := Emit(room, p, d, c, arg);
      var t := if c == 'c' then [(arg.number % 256) as char] else if arg.text.Null? then "(NULL)" else arg.text.s;
      && |out| == Max(d.width, |t|)
      && (d.flags.left ==> out[..|t|] == t && forall i :: |t| <= i < |out| ==> out[i] == ' ')
      && (!d.flags.left ==> out[|out| - |t|..] == t && forall i :: 0 <= i < |out| - |t| ==> out[i] == ' ')
  {
  }

  /** A pointer: its 32 bits in small hexadecimal digits, eight of them unless a width is given. */
  lemma PointerField(room: Room, p: nat, d: Directive, arg: Arg)
    ensures var out, digits := Emit(room, p, d, 'p', arg), HexDigits(arg.number % 0x1_0000_0000, false);
      && StandFor(digits, arg.number % 0x1_0000_0000, 'p')
      && |out| == Max(if d.width == -1 then 8 else d.width, |digits|)
      && (d.width == -1 && !d.flags.left ==> out == Fill('0', 8 - |digits|) + digits)
      && (d.flags.left ==> out == digits + Fill(' ', (if d.width == -1 then 8 else d.width) - |digits|))
      && (d.width != -1 && !d.flags.left ==>
           out == Fill(if d.flags.zeropad then '0' else ' ', d.width - |digits|) + digits)
  {
    hide HexDigits, AllHex, HexNumber;
    HexReadsBack(arg.number % 0x1_0000_0000, false);
    var digits := HexDigits(arg.number % 0x1_0000_0000, false);
    assert "" + digits == digits;
    assert forall c, n :: Fill(c, n) + "" + digits == Fill(c, n) + digits;
    assert forall c, n :: "" + Fill(c, n) + digits == Fill(c, n) + digits;
    assert forall n :: "" + digits + Fill(' ', n) == digits + Fill(' ', n);
  }

  /** Any other character is printed behind its '%', and a doubled '%' or one at the end once. */
  lemma OtherField(room: Room, p: nat, d: Directive, c: char, arg: Arg)
    requires c !in "diuoxXcsp"
    ensures Emit(room, p, d, c, arg) == if c == '%' || c == '\0' then "%" else ['%', c]
    ensures TakesArg(c) == false
  {
    var known := "diuoxXcsp";
    assert known[0] == 'd' && known[1] == 'i' && known[2] == 'u' && known[3] == 'o' && known[4] == 'x'
      && known[5] == 'X' && known[6] == 'c' && known[7] == 's' && known[8] == 'p';
  }

  /** Which conversions take an argument. */
  lemma Arguments(c: char)
    ensures TakesArg(c) <==> c in "diuoxXcsp"
  {
    if c in "diuoxXcsp" {
    } else {
      OtherField(Endless, 0, Directive(NO_FLAGS, -1, '\0', 0, 0), c, Arg(0, Null));
    }
  }
}
