/** Bytes as hexadecimal text: snprintf_hex prints them through the formatter, arch_axtobuf_detail
    reads them back. */
module HexText {
  import opened CText
  import opened DecimalText
  import opened Printf

  type Byte = x: int | 0 <= x < 256
  type Bytes = seq<Byte>

  // ----- printing -----

  function Pair(b: Byte, upper: bool): string {
    [HexDigit(b / 16, upper), HexDigit(b % 16, upper)]
  }

  /** Two digits for every byte, and the separator, if any, between them. */
  function Hex(data: Bytes, sep: string, upper: bool): string {
    if data == [] then ""
    else Pair(data[0], upper) + (if |data| > 1 then sep else "") + Hex(data[1..], sep, upper)
  }

  /** The formats the printer uses, and the arguments behind them. */
  function FormatOf(sep: string, upper: bool): string {
    if upper then (if sep != "" then "%02X%c" else "%02X") else if sep != "" then "%02x%c" else "%02x"
  }

  function ArgsOf(b: Byte, sep: string): Args {
    (i: nat) => if i == 0 then Arg(b, Null) else Arg(if sep == "" then 0 else sep[0] as int, Null)
  }

  lemma TwoDigits(b: Byte, upper: bool)
    ensures Fill('0', 2 - |HexDigits(b, upper)|) + HexDigits(b, upper) == Pair(b, upper)
  {
    if b < 16 {
      assert Fill('0', 1) == ['0'];
    } else {
      assert HexDigits(b / 16, upper) == [HexDigit(b / 16, upper)];
      assert HexDigits(b, upper) == HexDigits(b / 16, upper) + [HexDigit(b % 16, upper)];
      assert Fill('0', 0) == "";
    }
  }

  lemma SecondDirective(room: Room, p: nat, b: Byte, sep: string, upper: bool)
    requires |sep| == 1 && sep[0] as int < 256
    ensures Format(room, p, FormatOf(sep, upper), 4, ArgsOf(b, sep), 1) == sep
  {
    hide HexDigits;
    var fmt, args := FormatOf(sep, upper), ArgsOf(b, sep);
    assert fmt[4] == '%' && fmt[5] == 'c' && |fmt| == 6;
    assert ParseFlags(fmt, 4, NO_FLAGS) == (NO_FLAGS, 5);
    assert Parse(fmt, 4, args, 1) == Directive(NO_FLAGS, -1, '\0', 5, 1);
    assert Fill(' ', -2) == "";
    assert Emit(room, p, Parse(fmt, 4, args, 1), 'c', args(1)) == "" + sep == sep;
    FormatStep(room, p, fmt, 4, args, 1);
    FormatEnds(room, p + 1, fmt, 6, args, 2);
  }

  /** One call of the formatter prints one byte and what follows it. */
  lemma FormatsPair(room: Room, p: nat, b: Byte, sep: string, upper: bool)
    requires |sep| <= 1 && (sep != "" ==> sep[0] as int < 256)
    ensures Format(room, p, FormatOf(sep, upper), 0, ArgsOf(b, sep), 0) == Pair(b, upper) + sep
  {
    hide HexDigits;
    var fmt, args := FormatOf(sep, upper), ArgsOf(b, sep);
    var x := if upper then 'X' else 'x';
    assert fmt[0] == '%' && fmt[1] == '0' && fmt[2] == '2' && fmt[3] == x;
    assert ParseFlags(fmt, 0, NO_FLAGS) == (NO_FLAGS.(zeropad := true), 2);
    assert Number(fmt, 2, 0) == (2, 3);
    assert Parse(fmt, 0, args, 0) == Directive(NO_FLAGS.(zeropad := true), 2, '\0', 3, 0);
    TwoDigits(b, upper);
    var one := Emit(room, p, Parse(fmt, 0, args, 0), x, args(0));
    assert one == "" + Pair(b, upper) == Pair(b, upper);
    FormatStep(room, p, fmt, 0, args, 0);
    if sep == "" {
      FormatEnds(room, p + 2, fmt, 4, args, 1);
    } else {
      SecondDirective(room, p + 2, b, sep, upper);
    }
  }

  /** snprintf_hex.  Nothing at all is written for no bytes. */
  method SnprintfHex(buf: array<char>, size: nat, data: Bytes, style: Byte) returns (n: nat)
    requires size <= buf.Length
    modifies buf
    ensures size == 0 || data == [] ==> n == 0 && buf[..] == old(buf[..])
    ensures size > 0 && data != [] ==>
      var out := Hex(data, Separator(style), style >= 128);
      && Printed(old(buf[..]), buf[..], 0, size, out)
      && (|out| < size ==> n == |out|) && (|out| >= size ==> size <= n <= |out|)
  {
    hide Hex, Printed, Format, Separator, Hexing;
    if size == 0 {
      return 0;
    }
    var sep, upper := Separator(style), style >= 128;
    SeparatorIsByte(style);
    n := 0;
    var i := 0;
    ghost var was, out := buf[..], "";
    HexingStarts(was, size, data, sep, upper);
    while i < |data|
      invariant 0 <= i <= |data| && n == |out| < size
      invariant Hexing(was, buf[..], size, data, sep, upper, i, out)
    {
      var s := if i < |data| - 1 && sep != "" then sep else "";
      ghost var before := buf[..];
      FormatsPair(Limit(size), n, data[i], s, upper);
      var k := Vsnprintf(buf, n, size - n, FormatOf(s, upper), ArgsOf(data[i], s));
      HexingStep(was, before, buf[..], size, data, sep, upper, i, out, Pair(data[i], upper) + s);
      out := out + (Pair(data[i], upper) + s);
      n := n + k;
      i := i + 1;
      if n >= size {
        return;
      }
    }
    HexingEnds(was, buf[..], size, data, sep, upper, out);
  }

  /** The first i bytes have been printed, as `out`, and all of it fitted. */
  ghost predicate Hexing(was: seq<char>, now: seq<char>, size: nat, data: Bytes, sep: string, upper: bool, i: nat,
                         out: string) {
    && i <= |data| && |out| < size
    && (if i == 0 then now == was && out == "" else Printed(was, now, 0, size, out))
    && Hex(data, sep, upper) == out + Hex(data[i..], sep, upper)
  }

  lemma HexingStarts(was: seq<char>, size: nat, data: Bytes, sep: string, upper: bool)
    requires size > 0
    ensures Hexing(was, was, size, data, sep, upper, 0, "")
  {
    hide Hex;
    HexStarts(data, sep, upper);
  }

  lemma HexingStep(was: seq<char>, before: seq<char>, now: seq<char>, size: nat, data: Bytes, sep: string, upper: bool,
                   i: nat, out: string, piece: string)
    requires Hexing(was, before, size, data, sep, upper, i, out) && i < |data|
    requires piece == Pair(data[i], upper) + (if i < |data| - 1 && sep != "" then sep else "")
    requires Printed(before, now, |out|, size - |out|, piece)
    ensures |out + piece| < size ==> Hexing(was, now, size, data, sep, upper, i + 1, out + piece)
    ensures |out + piece| >= size ==>
      Printed(was, now, 0, size, Hex(data, sep, upper)) && |out + piece| <= |Hex(data, sep, upper)|
  {
    hide Hex, Printed, Pair;
    HexStep(data, i, sep, upper);
    var rest := Hex(data[i + 1..], sep, upper);
    assert out + (piece + rest) == (out + piece) + rest;
    if i == 0 {
      assert "" + piece == piece;
    } else {
      PrintedMore(was, before, now, size, out, piece);
    }
    if |out + piece| >= size {
      PrintedPrefix(was, now, size, out + piece, rest);
    }
  }

  lemma HexingEnds(was: seq<char>, now: seq<char>, size: nat, data: Bytes, sep: string, upper: bool, out: string)
    requires Hexing(was, now, size, data, sep, upper, |data|, out)
    ensures out == Hex(data, sep, upper) && (data == [] ==> now == was && out == "")
    ensures data != [] ==> Printed(was, now, 0, size, out)
  {
    hide Printed;
    HexEnds(data, sep, upper);
    assert out + "" == out;
  }

  function Separator(style: Byte): string {
    var c := (style % 128) as char;
    if ' ' <= c <= '~' then [c] else ""
  }

  lemma SeparatorIsByte(style: Byte)
    ensures |Separator(style)| <= 1 && (Separator(style) != "" ==> Separator(style)[0] as int < 256)
  {
  }

  lemma HexStarts(data: Bytes, sep: string, upper: bool)
    ensures Hex(data, sep, upper) == "" + Hex(data[0..], sep, upper)
  {
    assert data[0..] == data;
    assert "" + Hex(data, sep, upper) == Hex(data, sep, upper);
  }

  lemma HexEnds(data: Bytes, sep: string, upper: bool)
    ensures Hex(data[|data|..], sep, upper) == ""
  {
  }

  lemma HexStep(data: Bytes, i: nat, sep: string, upper: bool)
    requires i < |data|
    ensures Hex(data[i..], sep, upper)
      == Pair(data[i], upper) + (if i < |data| - 1 && sep != "" then sep else "") + Hex(data[i + 1..], sep, upper)
  {
    assert data[i..][0] == data[i] && data[i..][1..] == data[i + 1..];
  }

  /** A second print that starts on the end mark of the first one. */
  lemma PrintedMore(was: seq<char>, mid: seq<char>, now: seq<char>, size: nat, x: string, y: string)
    requires Printed(was, mid, 0, size, x) && |x| < size && Printed(mid, now, |x|, size - |x|, y)
    ensures Printed(was, now, 0, size, x + y)
  {
    var kept := if |x + y| < size then |x + y| else size - 1;
    forall i | 0 <= i < kept ensures now[i] == (x + y)[i] {
      if i < |x| {
        assert now[i] == mid[i] == mid[0..0 + |x|][i] == x[..|x|][i];
      } else {
        assert now[i] == now[|x|..kept][i - |x|] == y[..kept - |x|][i - |x|];
      }
    }
    assert now[0..0 + kept] == (x + y)[..kept];
  }

  /** What did not fit is not seen. */
  lemma PrintedPrefix(was: seq<char>, now: seq<char>, size: nat, x: string, rest: string)
    requires Printed(was, now, 0, size, x) && |x| >= size
    ensures Printed(was, now, 0, size, x + rest)
  {
    assert (x + rest)[..size - 1] == x[..size - 1];
  }

  // ----- reading -----

  predicate IsHex(c: char) {
    IsDigit(c) || 'A' <= c <= 'F' || 'a' <= c <= 'f'
  }

  function HexValue(c: char): (r: nat)
    requires IsHex(c)
    ensures r < 16
  {
    if IsDigit(c) then DigitValue(c) else if 'A' <= c <= 'F' then (c - 'A') as nat + 10 else (c - 'a') as nat + 10
  }

  /** The bytes read from i on: pairs of digits, while both bounds allow. */
  function Read(text: string, i: nat, limit: nat, room: nat): (r: Bytes)
    ensures |r| <= room
    decreases room
  {
    if IsHex(At(text, i)) && IsHex(At(text, i + 1)) && i < limit && room > 0 then
      [HexValue(At(text, i)) * 16 + HexValue(At(text, i + 1))] + Read(text, i + 2, limit, room - 1)
    else []
  }

  /** arch_axtobuf_detail. */
  method Axtobuf(text: string, inSize: nat, out: array<Byte>, outSize: nat) returns (n: nat, inLen: nat)
    requires outSize <= out.Length
    modifies out
    ensures var r := Read(text, 0, inSize, outSize);
      n == |r| && inLen == 2 * n && out[..n] == r && out[n..] == old(out[n..])
  {
    hide Read, Reading;
    n, inLen := 0, 0;
    ghost var was := out[..];
    ReadingStarts(text, inSize, outSize, was);
    while IsHex(At(text, inLen)) && IsHex(At(text, inLen + 1)) && inLen < inSize && n < outSize
      invariant n <= outSize && inLen == 2 * n
      invariant Reading(text, inSize, outSize, was, out[..], n)
      decreases outSize - n
    {
      ReadingStep(text, inSize, outSize, was, out[..], n);
      ghost var before := out[..];
      out[n] := HexValue(At(text, inLen)) * 16 + HexValue(At(text, inLen + 1));
      assert out[..] == before[n := out[n]];
      inLen, n := inLen + 2, n + 1;
    }
    ReadingEnds(text, inSize, outSize, was, out[..], n);
    assert out[..n] == out[..][..n] && out[n..] == out[..][n..];
  }

  /** The first n bytes have been read, the rest of the buffer is as it was. */
  ghost predicate Reading(text: string, inSize: nat, outSize: nat, was: Bytes, now: Bytes, n: nat) {
    && n <= outSize <= |now| == |was| && now[n..] == was[n..]
    && Read(text, 0, inSize, outSize) == now[..n] + Read(text, 2 * n, inSize, outSize - n)
  }

  lemma ReadingStarts(text: string, inSize: nat, outSize: nat, was: Bytes)
    requires outSize <= |was|
    ensures Reading(text, inSize, outSize, was, was, 0)
  {
    hide Read;
    var r := Read(text, 0, inSize, outSize);
    assert was[..0] + r == r;
  }

  lemma ReadingStep(text: string, inSize: nat, outSize: nat, was: Bytes, now: Bytes, n: nat)
    requires Reading(text, inSize, outSize, was, now, n) && n < outSize && 2 * n < inSize
    requires IsHex(At(text, 2 * n)) && IsHex(At(text, 2 * n + 1))
    ensures var b := HexValue(At(text, 2 * n)) * 16 + HexValue(At(text, 2 * n + 1));
      Reading(text, inSize, outSize, was, now[n := b], n + 1)
  {
    var b := HexValue(At(text, 2 * n)) * 16 + HexValue(At(text, 2 * n + 1));
    var rest := Read(text, 2 * n + 2, inSize, outSize - n - 1);
    assert now[n := b][..n + 1] == now[..n] + [b];
    assert now[..n] + ([b] + rest) == (now[..n] + [b]) + rest;
  }

  lemma ReadingEnds(text: string, inSize: nat, outSize: nat, was: Bytes, now: Bytes, n: nat)
    requires Reading(text, inSize, outSize, was, now, n)
    requires !(IsHex(At(text, 2 * n)) && IsHex(At(text, 2 * n + 1)) && 2 * n < inSize && n < outSize)
    ensures Read(text, 0, inSize, outSize) == now[..n] && now[n..] == was[n..]
  {
    assert now[..n] + [] == now[..n];
  }

  lemma DigitReadsBack(d: nat, upper: bool)
    requires d < 16
    ensures IsHex(HexDigit(d, upper)) && HexValue(HexDigit(d, upper)) == d
  {
  }

  lemma NulIsNoDigit()
    ensures !IsHex('\0')
  {
  }

  lemma {:induction false} ReadHex(before: string, data: Bytes, upper: bool, limit: nat, room: nat)
    requires |before| + 2 * |data| <= limit && |data| <= room
    ensures Read(before + Hex(data, "", upper), |before|, limit, room) == data
    decreases |data|
  {
    hide IsHex, HexValue, HexDigit;
    var text := before + Hex(data, "", upper);
    if data == [] {
      assert At(text, |before|) == '\0';
      NulIsNoDigit();
    } else {
      var pair := Pair(data[0], upper);
      assert text == (before + pair) + Hex(data[1..], "", upper);
      DigitReadsBack(data[0] / 16, upper);
      DigitReadsBack(data[0] % 16, upper);
      assert At(text, |before|) == pair[0] && At(text, |before| + 1) == pair[1];
      ReadHex(before + pair, data[1..], upper, limit, room - 1);
    }
  }

  lemma {:induction false} HexLength(data: Bytes, upper: bool)
    ensures |Hex(data, "", upper)| == 2 * |data|
    decreases |data|
  {
    if data != [] {
      HexLength(data[1..], upper);
    }
  }

  /** Round trip: bytes printed without separator, in either case, are read back, all of them. */
  method RoundTrip(data: Bytes, upper: bool, buf: array<char>, out: array<Byte>) returns (n: nat)
    requires buf.Length > 2 * |data| && out.Length >= |data|
    modifies buf, out
    ensures n == |data| && out[..n] == data && out[n..] == old(out[n..])
  {
    var style := if upper then 128 else 0;
    assert Separator(style) == "";
    var k := SnprintfHex(buf, buf.Length, data, style);
    HexLength(data, upper);
    var text := buf[..k];
    assert text == Hex(data, "", upper) by {
      assert buf[0..0 + k] == text;
    }
    ReadHex("", data, upper, k, out.Length);
    assert "" + Hex(data, "", upper) == Hex(data, "", upper);
    var used;
    n, used := Axtobuf(text, k, out, out.Length);
  }

  /** A separator that is no digit ends the reading after the first byte. */
  lemma SeparatorEndsIt(data: Bytes, sep: string, upper: bool, limit: nat, room: nat)
    requires |data| > 1 && |sep| == 1 && !IsHex(sep[0]) && limit >= 2 && room >= 1
    ensures Read(Hex(data, sep, upper), 0, limit, room) == [data[0]]
  {
    var text := Hex(data, sep, upper);
    var pair := Pair(data[0], upper);
    DigitReadsBack(data[0] / 16, upper);
    DigitReadsBack(data[0] % 16, upper);
    assert text[0] == pair[0] && text[1] == pair[1] && text[2] == sep[0];
    assert Read(text, 2, limit, room - 1) == [];
  }
}
