/** Writing and reading the string leaves of JSON text: str_escape_from_buf and
    str_unescape_to_buf of util.c. */
module StringEscape {
  import opened CText
  import opened Jsmn

  const BEL := 7 as char
  const BS := 8 as char
  const VT := 11 as char
  const FF := 12 as char

  function EscapeChar(c: char): (r: string)
    ensures 1 <= |r| <= 2
  {
    if c == '"' then "\\\""
    else if c == '\\' then "\\\\"
    else if c == BS then "\\b"
    else if c == FF then "\\f"
    else if c == '\n' then "\\n"
    else if c == '\r' then "\\r"
    else if c == '\t' then "\\t"
    else [c]
  }

  function Escape(s: string): string {
    if s == [] then [] else EscapeChar(s[0]) + Escape(s[1..])
  }

  /** The characters a C reader sees: up to the first NUL or n characters. */
  function Readable(s: string, n: nat): string
    decreases n
  {
    if n == 0 || s == [] || s[0] == '\0' then [] else [s[0]] + Readable(s[1..], n - 1)
  }

  /** How many characters of s go into a destination of `room` bytes: each is written only while
      two bytes are free, whether it needs both or not. */
  function Fitting(s: string, room: int): (k: nat)
    ensures k <= |s|
    decreases s
  {
    if s == [] || room < 2 then 0
    else 1 + Fitting(s[1..], room - |EscapeChar(s[0])|)
  }

  lemma {:induction false} EscapeConcat(a: string, b: string)
    ensures Escape(a + b) == Escape(a) + Escape(b)
  {
    if a == [] {
      assert a + b == b;
    } else {
      EscapeConcat(a[1..], b);
      assert (a + b)[1..] == a[1..] + b;
      assert EscapeChar(a[0]) + (Escape(a[1..]) + Escape(b)) == (EscapeChar(a[0]) + Escape(a[1..])) + Escape(b);
    }
  }

  lemma {:induction false} EscapeLength(s: string)
    ensures |s| <= |Escape(s)| <= 2 * |s|
  {
    if s != [] {
      EscapeLength(s[1..]);
    }
  }

  /** Nothing is cut off exactly when the destination holds the escaped text and, unless its last
      character took two bytes, one byte more; the empty text always fits. */
  lemma {:induction false} AllFit(s: string, room: nat)
    ensures Fitting(s, room) == |s| <==>
      |Escape(s)| + (if s != [] && |EscapeChar(s[|s| - 1])| == 1 then 1 else 0) <= room
  {
    if s == [] {
      return;
    }
    assert Escape(s) == EscapeChar(s[0]) + Escape(s[1..]);
    if |s| > 1 {
      EscapeLength(s[1..]);
      if room - |EscapeChar(s[0])| >= 0 {
        AllFit(s[1..], room - |EscapeChar(s[0])|);
      }
    } else {
      assert Escape(s[1..]) == [];
    }
  }

  datatype Option<T> = None | Some(value: T)

  /** What str_unescape_to_buf puts for the character after a backslash; None where it leaves the
      destination byte as it was. */
  function Unescaped(c: char): Option<char> {
    if c == 'a' then Some(BEL)
    else if c == 'b' then Some(BS)
    else if c == 'f' then Some(FF)
    else if c == 'n' then Some('\n')
    else if c == 'r' then Some('\r')
    else if c == 't' then Some('\t')
    else if c == 'v' then Some(VT)
    else if c == '\\' || c == '\'' || c == '"' || c == '/' then Some(c)
    else if c == '0' then Some('\0')
    else None
  }

  /** The bytes read from src at i up to len, into at most |stale| bytes that held `stale` before. */
  function Unescape(src: string, len: nat, i: nat, stale: string): (r: string)
    ensures |r| <= |stale|
    decreases stale
  {
    if i >= len || stale == [] then []
    else if At(src, i) == '\\' then
      [match Unescaped(At(src, i + 1)) case Some(c) => c case None => stale[0]]
      + Unescape(src, len, i + 2, stale[1..])
    else [At(src, i)] + Unescape(src, len, i + 1, stale[1..])
  }

  /** A character is written either as itself or as a backslash and a letter that stands for it. */
  lemma EscapeCharForms(c: char)
    ensures var e := EscapeChar(c);
      if |e| == 2 then e[0] == '\\' && Escapable(e[1]) && Unescaped(e[1]) == Some(c)
      else e == [c] && c != '\\' && c != '"'
  {
  }

  lemma EscapedAt(src: string, i: nat, c: char, rest: string)
    requires i <= |src| && EscapeChar(c) + rest <= src[i..]
    ensures At(src, i) == EscapeChar(c)[0]
    ensures |EscapeChar(c)| == 2 ==> At(src, i + 1) == EscapeChar(c)[1]
    ensures rest <= src[i + |EscapeChar(c)|..]
  {
    assert src[i] == src[i..][0] == (EscapeChar(c) + rest)[0];
    if |EscapeChar(c)| == 2 {
      assert src[i + 1] == src[i..][1] == (EscapeChar(c) + rest)[1];
    }
    assert src[i..][|EscapeChar(c)|..] == src[i + |EscapeChar(c)|..];
    assert src[i..][..|EscapeChar(c)| + |rest|] == EscapeChar(c) + rest;
  }

  /** Reading back what was written gives the original characters, and a destination too small
      for them gets as many as it can hold; no stale byte shows through. */
  lemma {:induction false} UnescapeEscape(s: string, src: string, i: nat, stale: string)
    requires i <= |src| && Escape(s) <= src[i..]
    ensures Unescape(src, i + |Escape(s)|, i, stale) == if |s| <= |stale| then s else s[..|stale|]
    decreases s
  {
    hide EscapeChar, Unescaped;
    if s != [] && stale != [] {
      var e := EscapeChar(s[0]);
      EscapeCharForms(s[0]);
      assert Escape(s) == e + Escape(s[1..]);
      EscapedAt(src, i, s[0], Escape(s[1..]));
      UnescapeEscape(s[1..], src, i + |e|, stale[1..]);
      assert i + |e| + |Escape(s[1..])| == i + |Escape(s)|;
      assert s == [s[0]] + s[1..];
    }
  }

  // ----- the two functions, on their buffers -----

  /** `out` has been written for the first i characters of src, `left` more may be read. */
  ghost predicate Writing(src: string, srcLen: nat, room: nat, i: nat, left: int, out: string) {
    var s := Readable(src, srcLen);
    && i <= |s| && i <= |src| && 0 <= left && i + left == srcLen
    && s[i..] == Readable(src[i..], left)
    && out == Escape(s[..i]) && |out| <= room
    && Fitting(s, room) == i + Fitting(s[i..], room - |out|)
  }

  lemma WritingStarts(src: string, srcLen: nat, room: nat)
    ensures Writing(src, srcLen, room, 0, srcLen, [])
  {
    assert src[0..] == src && Readable(src, srcLen)[0..] == Readable(src, srcLen);
  }

  lemma WritingGoesOn(src: string, srcLen: nat, room: nat, i: nat, left: int, out: string)
    requires Writing(src, srcLen, room, i, left, out)
    requires At(src, i) != '\0' && left > 0 && |out| + 1 < room
    ensures Writing(src, srcLen, room, i + 1, left - 1, out + EscapeChar(At(src, i)))
  {
    var s, c := Readable(src, srcLen), src[i];
    assert src[i..][0] == c && src[i..][1..] == src[i + 1..];
    assert s[i..][0] == c && s[i..][1..] == s[i + 1..];
    assert s[..i + 1] == s[..i] + [c];
    EscapeConcat(s[..i], [c]);
    assert Escape([c]) == EscapeChar(c);
  }

  lemma WritingEnds(src: string, srcLen: nat, room: nat, i: nat, left: int, out: string)
    requires Writing(src, srcLen, room, i, left, out)
    requires At(src, i) == '\0' || left <= 0 || |out| + 1 >= room
    ensures var s := Readable(src, srcLen); out == Escape(s[..Fitting(s, room)])
  {
  }

  method EscapeFromBuf(src: string, srcLen: nat, dest: array<char>) returns (n: nat)
    modifies dest
    ensures n <= dest.Length
    ensures var s := Readable(src, srcLen); dest[..n] == Escape(s[..Fitting(s, dest.Length)])
    ensures n < dest.Length ==> dest[n] == '\0'
    ensures forall i :: n < i < dest.Length ==> dest[i] == old(dest[i])
  {
    hide Writing, Readable, Escape, Fitting;
    n := 0;
    var i, left := 0, srcLen;
    WritingStarts(src, srcLen, dest.Length);
    while At(src, i) != '\0' && left > 0 && n + 1 < dest.Length
      invariant 0 <= i && n <= dest.Length
      invariant Writing(src, srcLen, dest.Length, i, left, dest[..n])
      invariant forall j :: n <= j < dest.Length ==> dest[j] == old(dest[j])
      decreases left
    {
      WritingGoesOn(src, srcLen, dest.Length, i, left, dest[..n]);
      ghost var before := dest[..n];
      var e := EscapeChar(At(src, i));
      dest[n] := e[0];
      if |e| == 2 {
        dest[n + 1] := e[1];
      }
      n := n + |e|;
      assert dest[..n] == before + e;
      i, left := i + 1, left - 1;
    }
    WritingEnds(src, srcLen, dest.Length, i, left, dest[..n]);
    ghost var out := dest[..n];
    if n < dest.Length {
      dest[n] := '\0';
    }
    assert dest[..n] == out;
  }

  /** `out` has been read up to position i of src, over what `stale` held. */
  ghost predicate Reading(src: string, srcLen: nat, stale: string, i: nat, out: string) {
    |out| <= |stale| && Unescape(src, srcLen, 0, stale) == out + Unescape(src, srcLen, i, stale[|out|..])
  }

  lemma ReadingGoesOn(src: string, srcLen: nat, stale: string, i: nat, out: string)
    requires Reading(src, srcLen, stale, i, out) && i < srcLen && |out| < |stale|
    ensures At(src, i) != '\\' ==> Reading(src, srcLen, stale, i + 1, out + [At(src, i)])
    ensures At(src, i) == '\\' ==>
      Reading(src, srcLen, stale, i + 2,
              out + [match Unescaped(At(src, i + 1)) case Some(c) => c case None => stale[|out|]])
  {
    assert stale[|out|..][1..] == stale[|out| + 1..];
  }

  method UnescapeToBuf(src: string, srcLen: nat, dst: array<char>) returns (n: nat)
    requires dst.Length >= 1 && srcLen <= |src|
    modifies dst
    ensures n < dst.Length
    ensures dst[..n] == Unescape(src, srcLen, 0, old(dst[..dst.Length - 1]))
    ensures dst[n] == '\0'
    ensures forall j :: n < j < dst.Length ==> dst[j] == old(dst[j])
  {
    ghost var stale := dst[..dst.Length - 1];
    var i := 0;
    n := 0;
    while i < srcLen && n < dst.Length - 1
      invariant 0 <= n <= dst.Length - 1
      invariant Reading(src, srcLen, stale, i, dst[..n])
      invariant forall j :: n <= j < dst.Length ==> dst[j] == old(dst[j])
      decreases dst.Length - n
    {
      ReadingGoesOn(src, srcLen, stale, i, dst[..n]);
      ghost var before := dst[..n];
      assert stale[n] == dst[n];
      if At(src, i) == '\\' {
        i := i + 1;
        match Unescaped(At(src, i)) {
          case Some(c) => dst[n] := c;
          case None =>
        }
      } else {
        dst[n] := At(src, i);
      }
      n := n + 1;
      i := i + 1;
      assert dst[..n] == before + [dst[n - 1]];
    }
    ghost var out := dst[..n];
    dst[n] := '\0';
    assert dst[..n] == out;
  }
}
