/** The bounded formatter of util.c, built without precision, "#" forms and 64-bit conversions.

    A format is the contents of a C string.  The variable arguments are a stream in which every
    argument can be taken as a number or as a text; taking one of the wrong kind is not modelled. */
module Printf {
  import opened CText
  import opened DecimalText

  const B16 := 0x1_0000
  const B31 := 0x8000_0000
  const B32 := 0x1_0000_0000

  datatype Text = Null | Text(s: string)
  datatype Arg = Arg(number: int, text: Text)
  type Args = nat -> Arg

  // ----- one directive of a format -----

  datatype Flags = Flags(zeropad: bool, plus: bool, space: bool, left: bool)

  const NO_FLAGS := Flags(false, false, false, false)

  /** From a '%' or a flag on: the flags that follow, and where they end. */
  function ParseFlags(fmt: string, f: nat, flags: Flags): (r: (Flags, nat))
    ensures r.1 > f && (f < |fmt| ==> r.1 <= |fmt|)
    decreases |fmt| - f
  {
    var c := At(fmt, f + 1);
    if c == '-' then ParseFlags(fmt, f + 1, flags.(left := true))
    else if c == '+' then ParseFlags(fmt, f + 1, flags.(plus := true))
    else if c == ' ' then ParseFlags(fmt, f + 1, flags.(space := true))
    else if c == '#' then ParseFlags(fmt, f + 1, flags)
    else if c == '0' then ParseFlags(fmt, f + 1, flags.(zeropad := true))
    else (flags, f + 1)
  }

  function Number(s: string, f: nat, n: nat): (r: (nat, nat))
    ensures r.1 >= f && (f <= |s| ==> r.1 <= |s|)
    decreases |s| - f
  {
    if IsDigit(At(s, f)) then Number(s, f + 1, n * 10 + DigitValue(At(s, f))) else (n, f)
  }

  /** A directive: flags, width (-1 for none), qualifier and conversion, where the conversion
      stands, and the next argument. */
  datatype Directive = Directive(flags: Flags, width: int, qualifier: char, at: nat, arg: nat)

  function Parse(fmt: string, f: nat, args: Args, a: nat): (d: Directive)
    requires f < |fmt|
    ensures f < d.at <= |fmt|
  {
    var (flags, g) := ParseFlags(fmt, f, NO_FLAGS);
    var starred := At(fmt, g) == '*';
    var (n, h) := if IsDigit(At(fmt, g)) then Number(fmt, g, 0) else if starred then (0, g + 1) else (0, g);
    var w := if starred then args(a).number else if IsDigit(At(fmt, g)) then n else -1;
    var width := if starred && w < 0 then -w else w;
    var q := if At(fmt, h) == 'h' || At(fmt, h) == 'l' then At(fmt, h) else '\0';
    Directive(
      if starred && w < 0 then flags.(left := true) else flags, width, q,
      if q != '\0' then h + 1 else h, if starred then a + 1 else a)
  }

  // ----- what a directive puts out -----

  /** How far the sink reaches.  A character past it is counted but not kept. */
  datatype Room = Limit(n: nat) | Endless {
    predicate Fits(p: nat) { Limit? ==> p < n }
  }

  function Fill(c: char, n: int): (r: string)
    ensures |r| == if n > 0 then n else 0
  {
    seq(if n > 0 then n else 0, _ => c)
  }

  function HexDigit(d: nat, large: bool): char
    requires d < 16
  {
    if d < 10 then Digit(d) else if large then 'A' + (d - 10) as char else 'a' + (d - 10) as char
  }

  function HexDigits(n: nat, large: bool): string {
    if n < 16 then [HexDigit(n, large)] else HexDigits(n / 16, large) + [HexDigit(n % 16, large)]
  }

  /** The digits: every base but ten counts as sixteen. */
  function NumberText(n: nat, decimal: bool, large: bool): string {
    if decimal then Digits(n) else HexDigits(n, large)
  }

  /** print_number.  `sign` is empty or one character; it takes from the width only if it fits. */
  function PrintNumber(room: Room, p: nat, digits: string, sign: string, flags: Flags, width: int): string {
    var size := width - |digits|;
    if !flags.left && !flags.zeropad then Fill(' ', size) + sign + digits
    else
      var rest := if sign != "" && room.Fits(p) then size - 1 else size;
      if flags.left then sign + digits + Fill(' ', rest) else sign + Fill('0', rest) + digits
  }

  /** The 32-bit value of an argument, after the qualifier, and for signed conversions its sign. */
  function Converted(n: int, qualifier: char, signed: bool): (r: nat)
    ensures r < B32
  {
    if qualifier == 'h' then
      var v := n % B16;
      if signed && v >= B16 / 2 then v + (B32 - B16) else v
    else n % B32
  }

  function SignOf(v: nat, flags: Flags): string {
    if v >= B31 then "-" else if flags.plus then "+" else if flags.space then " " else ""
  }

  function Magnitude(v: nat): nat
    requires v < B32
  {
    if v >= B31 then B32 - v else v
  }

  function StringOf(t: Text): string {
    match t case Null => "(NULL)" case Text(s) => s
  }

  predicate Signed(c: char) { c == 'd' || c == 'i' }
  predicate Integer(c: char) { c == 'o' || c == 'X' || c == 'x' || c == 'u' || Signed(c) }
  predicate TakesArg(c: char) { Integer(c) || c == 'c' || c == 's' || c == 'p' }

  function Emit(room: Room, p: nat, d: Directive, c: char, arg: Arg): string {
    if c == 'c' then
      var one := [(arg.number % 256) as char];
      if d.flags.left then one + Fill(' ', d.width - 1) else Fill(' ', d.width - 1) + one
    else if c == 's' then
      var s := StringOf(arg.text);
      if d.flags.left then s + Fill(' ', d.width - |s|) else Fill(' ', d.width - |s|) + s
    else if c == 'p' then
      PrintNumber(room, p, HexDigits(arg.number % B32, false), "",
                  if d.width == -1 then d.flags.(zeropad := true) else d.flags,
                  if d.width == -1 then 8 else d.width)
    else if c == '%' then "%"
    else if Integer(c) then
      var v := Converted(arg.number, d.qualifier, Signed(c));
      var decimal := c == 'u' || Signed(c);
      if Signed(c) then PrintNumber(room, p, Digits(Magnitude(v)), SignOf(v, d.flags), d.flags, d.width)
      else PrintNumber(room, p, NumberText(v, decimal, c == 'X'), "", d.flags, d.width)
    else if c == '\0' then "%"
    else "%" + [c]
  }

  /** All that is put out from position p on. */
  function Format(room: Room, p: nat, fmt: string, f: nat, args: Args, a: nat): string
    decreases |fmt| - f
  {
    if At(fmt, f) == '\0' then ""
    else if At(fmt, f) != '%' then [At(fmt, f)] + Format(room, p + 1, fmt, f + 1, args, a)
    else
      var d := Parse(fmt, f, args, a);
      var c := At(fmt, d.at);
      var piece := Emit(room, p, d, c, args(d.arg));
      piece
      + Format(room, p + |piece|, fmt, if c == '\0' then d.at else d.at + 1, args,
               if TakesArg(c) then d.arg + 1 else d.arg)
  }

  // ----- the formatter -----

  /** A piece was put at a position: what lies below `size` is in the buffer, nothing else changed. */
  ghost predicate Wrote(was: seq<char>, now: seq<char>, size: nat, at: nat, piece: string) {
    |now| == |was|
    && forall i :: 0 <= i < |now| ==> now[i] == if at <= i < at + |piece| && i < size then piece[i - at] else was[i]
  }

  lemma WroteNothing(was: seq<char>, size: nat, at: nat)
    ensures Wrote(was, was, size, at, "")
  {
  }

  lemma WroteMore(a: seq<char>, b: seq<char>, c: seq<char>, size: nat, at: nat, x: string, y: string)
    requires Wrote(a, b, size, at, x) && Wrote(b, c, size, at + |x|, y)
    ensures Wrote(a, c, size, at, x + y)
  {
  }

  method Put(buf: array<char>, size: nat, at: nat, c: char) returns (next: nat)
    requires size <= buf.Length
    modifies buf
    ensures next == at + 1 && Wrote(old(buf[..]), buf[..], size, at, [c])
  {
    if at < size {
      buf[at] := c;
    }
    next := at + 1;
  }

  method PutFill(buf: array<char>, size: nat, at: nat, c: char, n: int) returns (next: nat)
    requires size <= buf.Length
    modifies buf
    ensures next == at + |Fill(c, n)| && Wrote(old(buf[..]), buf[..], size, at, Fill(c, n))
  {
    hide Wrote;
    next := at;
    var left := n;
    WroteNothing(buf[..], size, at);
    ghost var done := 0;
    assert Fill(c, 0) == "";
    while left > 0
      invariant done >= 0 && left == n - done && (n > 0 ==> left >= 0) && (n <= 0 ==> done == 0)
      invariant next == at + done && Wrote(old(buf[..]), buf[..], size, at, Fill(c, done))
      decreases left
    {
      ghost var before := buf[..];
      next := Put(buf, size, next, c);
      WroteMore(old(buf[..]), before, buf[..], size, at, Fill(c, done), [c]);
      assert Fill(c, done) + [c] == Fill(c, done + 1);
      left := left - 1;
      done := done + 1;
    }
    assert Fill(c, n) == Fill(c, done);
  }

  method PutText(buf: array<char>, size: nat, at: nat, s: string) returns (next: nat)
    requires size <= buf.Length
    modifies buf
    ensures next == at + |s| && Wrote(old(buf[..]), buf[..], size, at, s)
  {
    hide Wrote;
    next := at;
    var i := 0;
    WroteNothing(buf[..], size, at);
    assert s[..0] == "";
    while i < |s|
      invariant 0 <= i <= |s| && next == at + i && Wrote(old(buf[..]), buf[..], size, at, s[..i])
    {
      ghost var before := buf[..];
      next := Put(buf, size, next, s[i]);
      WroteMore(old(buf[..]), before, buf[..], size, at, s[..i], [s[i]]);
      assert s[..i] + [s[i]] == s[..i + 1];
      i := i + 1;
    }
    assert s[..i] == s;
  }

  lemma LastDigit(n: nat, decimal: bool, large: bool)
    requires n > 0
    ensures var t := NumberText(n, decimal, large);
      var base := if decimal then 10 else 16;
      && t != "" && t[|t| - 1] == (if decimal then Digit(n % base) else HexDigit(n % base, large))
      && t[..|t| - 1] == if n / base == 0 then "" else NumberText(n / base, decimal, large)
  {
    var t := NumberText(n, decimal, large);
    if n >= if decimal then 10 else 16 {
      assert t[..|t| - 1] == NumberText(n / if decimal then 10 else 16, decimal, large);
    }
  }

  lemma ZeroDigit(decimal: bool, large: bool)
    ensures NumberText(0, decimal, large) == [Digit(0)]
  {
  }

  /** The digit loop: least significant digit first. */
  method Reversed(n: nat, decimal: bool, large: bool) returns (tmp: seq<char>)
    ensures |tmp| == |NumberText(n, decimal, large)|
    ensures forall i :: 0 <= i < |tmp| ==> tmp[i] == NumberText(n, decimal, large)[|tmp| - 1 - i]
  {
    hide NumberText;
    var base := if decimal then 10 else 16;
    tmp := [];
    if n == 0 {
      ZeroDigit(decimal, large);
      return [Digit(0)];
    }
    var num: nat := n;
    ghost var whole := NumberText(n, decimal, large);
    while num != 0
      invariant |tmp| <= |whole|
      invariant whole[..|whole| - |tmp|] == if num == 0 then "" else NumberText(num, decimal, large)
      invariant forall i :: 0 <= i < |tmp| ==> tmp[i] == whole[|whole| - 1 - i]
      decreases num
    {
      LastDigit(num, decimal, large);
      ghost var rest := whole[..|whole| - |tmp|];
      assert rest[|rest| - 1] == whole[|whole| - 1 - |tmp|] && rest[..|rest| - 1] == whole[..|whole| - |tmp| - 1];
      var d := num % base;
      tmp := tmp + [if decimal then Digit(d) else HexDigit(d, large)];
      num := num / base;
    }
  }

  /** The parts as the program puts them. */
  lemma PartsAreWhole(room: Room, p: nat, digits: string, sign: string, flags: Flags, width: int)
    requires |sign| <= 1
    ensures var z, left := flags.zeropad && !flags.left, flags.left;
      var size := width - |digits|;
      var a := if !z && !left then Fill(' ', size) else "";
      var rest := (if !z && !left then -1 else size) - if sign != "" && room.Fits(p + |a|) then 1 else 0;
      var b := if !left then Fill(if z then '0' else ' ', rest) else "";
      var c := Fill(' ', if left then rest else -1);
      a + sign + b + digits + c == PrintNumber(room, p, digits, sign, flags, width)
  {
    var z, left := flags.zeropad && !flags.left, flags.left;
    var size := width - |digits|;
    assert Fill(' ', -1) == "";
    if !z && !left {
      assert Fill(' ', size) + sign + "" + digits + "" == Fill(' ', size) + sign + digits;
    } else if left {
      assert "" + sign + "" + digits == sign + digits;
    } else {
      var rest := size - if sign != "" && room.Fits(p) then 1 else 0;
      assert "" + sign + Fill('0', rest) + digits + "" == sign + Fill('0', rest) + digits;
    }
  }

  /** print_number. */
  method PutNumber(buf: array<char>, size: nat, at: nat, n: nat, decimal: bool, large: bool, sign: string,
                   given: Flags, width: int) returns (next: nat)
    requires size <= buf.Length && |sign| <= 1
    modifies buf
    ensures var out := PrintNumber(Limit(size), at, NumberText(n, decimal, large), sign, given, width);
      next == at + |out| && Wrote(old(buf[..]), buf[..], size, at, out)
  {
    hide Wrote, NumberText, PrintNumber;
    ghost var was, digits := buf[..], NumberText(n, decimal, large);
    var zeropad := given.zeropad && !given.left;
    var tmp := Reversed(n, decimal, large);
    var left := width - |tmp|;
    PartsAreWhole(Limit(size), at, digits, sign, given, width);
    next := at;
    ghost var a := "";
    WroteNothing(was, size, at);
    if !zeropad && !given.left {
      a := Fill(' ', left);
      next := PutFill(buf, size, next, ' ', left);
      left := -1;
    }
    ghost var before := buf[..];
    if sign != "" {
      if next < size {
        left := left - 1;
      }
      next := Put(buf, size, next, sign[0]);
      assert [sign[0]] == sign;
    } else {
      WroteNothing(before, size, next);
    }
    WroteMore(was, before, buf[..], size, at, a, sign);
    ghost var b := "";
    before := buf[..];
    if !given.left {
      b := Fill(if zeropad then '0' else ' ', left);
      next := PutFill(buf, size, next, if zeropad then '0' else ' ', left);
      left := -1;
    } else {
      WroteNothing(before, size, next);
    }
    WroteMore(was, before, buf[..], size, at, a + sign, b);
    next := PutReversed(buf, size, next, tmp, digits, was, at, a + sign + b);
    before := buf[..];
    next := PutFill(buf, size, next, ' ', left);
    WroteMore(was, before, buf[..], size, at, a + sign + b + digits, Fill(' ', left));
  }

  /** The digits, from the last in the temporary buffer to the first. */
  method PutReversed(buf: array<char>, size: nat, at: nat, tmp: seq<char>, ghost digits: string,
                     ghost was: seq<char>, ghost start: nat, ghost out: string)
    returns (next: nat)
    requires size <= buf.Length && |tmp| == |digits| && forall i :: 0 <= i < |tmp| ==> tmp[i] == digits[|tmp| - 1 - i]
    requires at == start + |out| && Wrote(was, buf[..], size, start, out)
    modifies buf
    ensures next == at + |digits| && Wrote(was, buf[..], size, start, out + digits)
  {
    hide Wrote;
    next := at;
    var i := |tmp|;
    assert out + digits[..0] == out;
    while i > 0
      invariant 0 <= i <= |tmp| && next == at + |tmp| - i
      invariant Wrote(was, buf[..], size, start, out + digits[..|tmp| - i])
    {
      i := i - 1;
      ghost var before, done := buf[..], |tmp| - i;
      next := Put(buf, size, next, tmp[i]);
      WroteMore(was, before, buf[..], size, start, out + digits[..done - 1], [tmp[i]]);
      assert out + digits[..done - 1] + [tmp[i]] == out + digits[..done];
    }
    assert digits[..|tmp|] == digits;
  }

  method ReadFlags(fmt: string, start: nat) returns (flags: Flags, f: nat)
    ensures (flags, f) == ParseFlags(fmt, start, NO_FLAGS)
  {
    flags, f := NO_FLAGS, start;
    while true
      invariant ParseFlags(fmt, start, NO_FLAGS) == ParseFlags(fmt, f, flags)
      decreases |fmt| - f
    {
      f := f + 1;
      var c := At(fmt, f);
      if c == '-' {
        flags := flags.(left := true);
      } else if c == '+' {
        flags := flags.(plus := true);
      } else if c == ' ' {
        flags := flags.(space := true);
      } else if c == '#' {
      } else if c == '0' {
        flags := flags.(zeropad := true);
      } else {
        return;
      }
    }
  }

  /** skip_atoi. */
  method SkipAtoi(fmt: string, start: nat) returns (n: nat, f: nat)
    ensures (n, f) == Number(fmt, start, 0)
  {
    n, f := 0, start;
    while IsDigit(At(fmt, f))
      invariant Number(fmt, start, 0) == Number(fmt, f, n)
      decreases |fmt| - f
    {
      n, f := n * 10 + DigitValue(At(fmt, f)), f + 1;
    }
  }

  method ReadDirective(fmt: string, f: nat, args: Args, a: nat) returns (d: Directive)
    requires f < |fmt|
    ensures d == Parse(fmt, f, args, a)
  {
    hide ParseFlags, Number;
    var flags, h := ReadFlags(fmt, f);
    var arg := a;
    var width := -1;
    if IsDigit(At(fmt, h)) {
      width, h := SkipAtoi(fmt, h);
    } else if At(fmt, h) == '*' {
      h := h + 1;
      width := args(arg).number;
      arg := arg + 1;
      if width < 0 {
        width := -width;
        flags := flags.(left := true);
      }
    }
    var qualifier := '\0';
    if At(fmt, h) == 'h' || At(fmt, h) == 'l' {
      qualifier := At(fmt, h);
      h := h + 1;
    }
    d := Directive(flags, width, qualifier, h, arg);
  }

  method PutDirective(buf: array<char>, size: nat, at: nat, d: Directive, c: char, arg: Arg) returns (next: nat)
    requires size <= buf.Length
    modifies buf
    ensures var out := Emit(Limit(size), at, d, c, arg);
      next == at + |out| && Wrote(old(buf[..]), buf[..], size, at, out)
  {
    hide Wrote, PrintNumber, NumberText, Fill, Digits, HexDigits;
    ghost var was := buf[..];
    if c == 'c' || c == 's' {
      var text := if c == 'c' then [(arg.number % 256) as char] else StringOf(arg.text);
      if d.flags.left {
        next := PutText(buf, size, at, text);
        ghost var mid := buf[..];
        next := PutFill(buf, size, next, ' ', d.width - |text|);
        WroteMore(was, mid, buf[..], size, at, text, Fill(' ', d.width - |text|));
      } else {
        next := PutFill(buf, size, at, ' ', d.width - |text|);
        ghost var mid := buf[..];
        next := PutText(buf, size, next, text);
        WroteMore(was, mid, buf[..], size, at, Fill(' ', d.width - |text|), text);
      }
    } else if c == 'p' {
      HexIsText(arg.number % B32, false);
      next := PutNumber(buf, size, at, arg.number % B32, false, false, "",
                        if d.width == -1 then d.flags.(zeropad := true) else d.flags,
                        if d.width == -1 then 8 else d.width);
    } else if c == '%' || c == '\0' {
      next := PutText(buf, size, at, "%");
    } else if Integer(c) {
      var v := Converted(arg.number, d.qualifier, Signed(c));
      if Signed(c) {
        DecimalIsText(Magnitude(v));
        next := PutNumber(buf, size, at, Magnitude(v), true, false, SignOf(v, d.flags), d.flags, d.width);
      } else {
        next := PutNumber(buf, size, at, v, c == 'u', c == 'X', "", d.flags, d.width);
      }
    } else {
      next := PutText(buf, size, at, "%" + [c]);
    }
  }

  lemma HexIsText(n: nat, large: bool)
    ensures NumberText(n, false, large) == HexDigits(n, large)
  {
  }

  lemma DecimalIsText(n: nat)
    ensures NumberText(n, true, false) == Digits(n)
  {
  }

  /** The loop over the format, from a position of the buffer on. */
  method PutAll(buf: array<char>, base: nat, size: nat, fmt: string, args: Args) returns (at: nat)
    requires size <= buf.Length
    modifies buf
    ensures var out := Format(Limit(size), base, fmt, 0, args, 0);
      at == base + |out| && Wrote(old(buf[..]), buf[..], size, base, out)
  {
    hide Format, Emit, Parse, Printing, Wrote, TakesArg;
    ghost var was, out := buf[..], "";
    var f: nat, a: nat := 0, 0;
    at := base;
    PrintingStarts(was, base, size, fmt, args);
    while At(fmt, f) != '\0'
      invariant f <= |fmt|
      invariant Printing(was, buf[..], base, size, fmt, args, f, a, at, out)
      decreases |fmt| - f
    {
      ghost var before, p := buf[..], at;
      if At(fmt, f) != '%' {
        at := Put(buf, size, at, At(fmt, f));
        PrintingChar(was, before, buf[..], base, size, fmt, args, f, a, p, out);
        out := out + [At(fmt, f)];
        f := f + 1;
      } else {
        var d := ReadDirective(fmt, f, args, a);
        var c := At(fmt, d.at);
        at := PutDirective(buf, size, at, d, c, args(d.arg));
        PrintingDirective(was, before, buf[..], base, size, fmt, args, f, a, p, out);
        out := out + Emit(Limit(size), p, d, c, args(d.arg));
        f := if c == '\0' then d.at else d.at + 1;
        a := if TakesArg(c) then d.arg + 1 else d.arg;
      }
    }
    PrintingEnds(was, buf[..], base, size, fmt, args, f, a, at, out);
  }

  /** __vsnprintf, into the buffer that starts at `base` and has `size` characters. */
  method Vsnprintf(buf: array<char>, base: nat, size: int, fmt: string, args: Args) returns (n: int)
    requires size > 0 ==> base + size <= buf.Length
    modifies buf
    ensures size <= 0 ==> n == 0 && buf[..] == old(buf[..])
    ensures size > 0 ==>
      var out := Format(Limit(base + size), base, fmt, 0, args, 0);
      n == |out| && Printed(old(buf[..]), buf[..], base, size, out)
  {
    hide Format, Wrote;
    if size - 1 < 0 {
      return 0;
    }
    ghost var was := buf[..];
    var at := PutAll(buf, base, base + size, fmt, args);
    ghost var mid := buf[..];
    if at <= base + size - 1 {
      buf[at] := '\0';
    } else {
      buf[base + size - 1] := '\0';
    }
    n := at - base;
    Ended(was, mid, buf[..], base, size, Format(Limit(base + size), base, fmt, 0, args, 0));
  }

  /** A buffer of `size` characters from `base` on holds what fits of a text, and its end mark;
      behind the end mark and outside the buffer nothing changed. */
  ghost predicate Printed(was: seq<char>, now: seq<char>, base: nat, size: nat, out: string) {
    && 0 < size && base + size <= |was| == |now|
    && var kept := if |out| < size then |out| else size - 1;
    && now[base..base + kept] == out[..kept] && now[base + kept] == '\0'
    && (forall i :: 0 <= i < |now| && (i < base || i > base + kept) ==> now[i] == was[i])
  }

  /** `out` has been put out, and what remains of the format comes behind it. */
  ghost predicate Printing(was: seq<char>, now: seq<char>, base: nat, size: nat, fmt: string, args: Args,
                           f: nat, a: nat, at: nat, out: string) {
    && Format(Limit(size), base, fmt, 0, args, 0) == out + Format(Limit(size), at, fmt, f, args, a)
    && at == base + |out| && Wrote(was, now, size, base, out)
  }

  lemma PrintingStarts(was: seq<char>, base: nat, size: nat, fmt: string, args: Args)
    ensures Printing(was, was, base, size, fmt, args, 0, 0, base, "")
  {
    hide Format;
    var whole := Format(Limit(size), base, fmt, 0, args, 0);
    assert "" + whole == whole;
  }

  lemma PrintingPiece(was: seq<char>, before: seq<char>, now: seq<char>, base: nat, size: nat, fmt: string, args: Args,
                      f: nat, a: nat, at: nat, out: string, piece: string, f': nat, a': nat)
    requires Printing(was, before, base, size, fmt, args, f, a, at, out)
    requires Wrote(before, now, size, at, piece)
    requires Format(Limit(size), at, fmt, f, args, a) == piece + Format(Limit(size), at + |piece|, fmt, f', args, a')
    ensures Printing(was, now, base, size, fmt, args, f', a', at + |piece|, out + piece)
  {
    hide Format, Wrote;
    WroteMore(was, before, now, size, base, out, piece);
    var rest := Format(Limit(size), at + |piece|, fmt, f', args, a');
    assert out + (piece + rest) == (out + piece) + rest;
  }

  lemma PrintingChar(was: seq<char>, before: seq<char>, now: seq<char>, base: nat, size: nat, fmt: string, args: Args,
                     f: nat, a: nat, at: nat, out: string)
    requires Printing(was, before, base, size, fmt, args, f, a, at, out)
    requires At(fmt, f) != '\0' && At(fmt, f) != '%' && Wrote(before, now, size, at, [At(fmt, f)])
    ensures f < |fmt| && Printing(was, now, base, size, fmt, args, f + 1, a, at + 1, out + [At(fmt, f)])
  {
    hide Format, Wrote, Printing;
    FormatStep(Limit(size), at, fmt, f, args, a);
    PrintingPiece(was, before, now, base, size, fmt, args, f, a, at, out, [At(fmt, f)], f + 1, a);
  }

  lemma PrintingDirective(was: seq<char>, before: seq<char>, now: seq<char>, base: nat, size: nat, fmt: string,
                          args: Args,
                          f: nat, a: nat, at: nat, out: string)
    requires Printing(was, before, base, size, fmt, args, f, a, at, out) && f < |fmt| && At(fmt, f) == '%'
    requires var d := Parse(fmt, f, args, a);
      Wrote(before, now, size, at, Emit(Limit(size), at, d, At(fmt, d.at), args(d.arg)))
    ensures var d := Parse(fmt, f, args, a);
      var c := At(fmt, d.at);
      var piece := Emit(Limit(size), at, d, c, args(d.arg));
      && f < d.at <= |fmt| && (c != '\0' ==> d.at < |fmt|)
      && Printing(was, now, base, size, fmt, args, if c == '\0' then d.at else d.at + 1,
                  if TakesArg(c) then d.arg + 1 else d.arg, at + |piece|, out + piece)
  {
    hide Format, Wrote, Printing, Emit, Parse;
    FormatStep(Limit(size), at, fmt, f, args, a);
    var d := Parse(fmt, f, args, a);
    var c := At(fmt, d.at);
    var piece := Emit(Limit(size), at, d, c, args(d.arg));
    PrintingPiece(was, before, now, base, size, fmt, args, f, a, at, out, piece,
                  if c == '\0' then d.at else d.at + 1, if TakesArg(c) then d.arg + 1 else d.arg);
  }

  lemma PrintingEnds(was: seq<char>, now: seq<char>, base: nat, size: nat, fmt: string, args: Args, f: nat, a: nat,
                     at: nat, out: string)
    requires Printing(was, now, base, size, fmt, args, f, a, at, out) && At(fmt, f) == '\0'
    ensures out == Format(Limit(size), base, fmt, 0, args, 0) && at == base + |out| && Wrote(was, now, size, base, out)
  {
    hide Wrote;
    FormatEnds(Limit(size), at, fmt, f, args, a);
    assert out + "" == out;
  }

  /** The end mark goes behind what was kept. */
  lemma Ended(was: seq<char>, mid: seq<char>, now: seq<char>, base: nat, size: nat, out: string)
    requires Wrote(was, mid, base + size, base, out) && 0 < size && base + size <= |was|
    requires |mid| == |was| && now == mid[base + (if |out| < size then |out| else size - 1) := '\0']
    ensures Printed(was, now, base, size, out)
  {
  }

  lemma FormatStep(room: Room, p: nat, fmt: string, f: nat, args: Args, a: nat)
    requires At(fmt, f) != '\0'
    ensures f < |fmt|
    ensures At(fmt, f) != '%' ==>
      Format(room, p, fmt, f, args, a) == [At(fmt, f)] + Format(room, p + 1, fmt, f + 1, args, a)
    ensures At(fmt, f) == '%' ==>
      var d := Parse(fmt, f, args, a);
      var c := At(fmt, d.at);
      var piece := Emit(room, p, d, c, args(d.arg));
      Format(room, p, fmt, f, args, a) == piece
        + Format(room, p + |piece|, fmt, if c == '\0' then d.at else d.at + 1, args,
                 if TakesArg(c) then d.arg + 1 else d.arg)
  {
  }

  lemma FormatEnds(room: Room, p: nat, fmt: string, f: nat, args: Args, a: nat)
    requires At(fmt, f) == '\0'
    ensures Format(room, p, fmt, f, args, a) == ""
  {
  }
}
