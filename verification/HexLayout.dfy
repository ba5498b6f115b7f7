/** Hexadecimal text by its character codes: where each byte of the data stands in what is printed,
    and exactly how far a text is read. */
module HexLayout {
  import opened CText
  import opened HexText
  import opened Printf
  import opened PrintfFields

  /** The byte at position i of a text stands for b. */
  ghost predicate ShowsByte(out: string, i: int, b: int, upper: bool) {
    && 0 <= i && i + 2 <= |out|
    && HexCode(out[i], upper) >= 0 && HexCode(out[i + 1], upper) >= 0
    && 16 * HexCode(out[i], upper) + HexCode(out[i + 1], upper) == b
  }

  lemma PairShows(b: Byte, upper: bool, rest: string)
    ensures ShowsByte(Pair(b, upper) + rest, 0, b, upper)
  {
    HexDigitIs(b / 16, upper);
    HexDigitIs(b % 16, upper);
    var out := Pair(b, upper) + rest;
    assert out[0] == HexDigit(b / 16, upper) && out[1] == HexDigit(b % 16, upper);
  }

  lemma ShowsLater(front: string, rest: string, i: int, b: int, upper: bool)
    requires ShowsByte(rest, i, b, upper)
    ensures ShowsByte(front + rest, |front| + i, b, upper)
  {
    hide HexCode;
    assert (front + rest)[|front| + i] == rest[i] && (front + rest)[|front| + i + 1] == rest[i + 1];
  }

  lemma Step(step: nat, k: nat, n: nat, i: int)
    requires k > 0 && i == (k - 1) * step
    ensures step + i == k * step
    ensures n > 0 ==> step + (n - 1) * step == n * step
  {
  }

  /** Byte k of the data is printed as two digits at k times the distance, and a separator, if there is
      one, stands between two bytes and nowhere else. */
  lemma {:induction false} ByteAt(data: Bytes, sep: string, upper: bool, k: nat)
    requires k < |data| && |sep| <= 1
    ensures var out, step := Hex(data, sep, upper), 2 + |sep|;
      && |out| == |data| * step - |sep|
      && ShowsByte(out, k * step, data[k], upper)
      && (sep != "" && k < |data| - 1 ==> out[k * step + 2] == sep[0])
    decreases |data|
  {
    hide ShowsByte, Pair;
    var out, step := Hex(data, sep, upper), 2 + |sep|;
    var rest := Hex(data[1..], sep, upper);
    PairLength(data[0], upper);
    if |data| == 1 {
      assert data[1..] == [] && out == Pair(data[0], upper) + ("" + rest);
      PairShows(data[0], upper, "" + rest);
    } else {
      var front := Pair(data[0], upper) + sep;
      assert out == front + rest && out == Pair(data[0], upper) + (sep + rest);
      if k == 0 {
        PairShows(data[0], upper, sep + rest);
        ByteAt(data[1..], sep, upper, 0);
      } else {
        ByteAt(data[1..], sep, upper, k - 1);
        ShowsLater(front, rest, (k - 1) * step, data[k], upper);
        if sep != "" && k < |data| - 1 {
          SepInside(data[1..], sep, upper, k - 1);
          assert out[step + ((k - 1) * step + 2)] == rest[(k - 1) * step + 2];
        }
      }
      Step(step, if k > 0 then k else 1, |data| - 1, if k > 0 then (k - 1) * step else 0);
      assert |data| * step == step + (|data| - 1) * step;
    }
  }

  lemma PairLength(b: Byte, upper: bool)
    ensures |Pair(b, upper)| == 2
  {
  }

  lemma SepInside(data: Bytes, sep: string, upper: bool, k: nat)
    requires k < |data| - 1 && |sep| == 1
    ensures (k + 1) * 3 <= |data| * 3 - 1
  {
  }

  /** The style byte: capitals from 128 on, and a printable character in the low seven bits is the
      separator. */
  lemma StyleIs(style: Byte)
    ensures Separator(style) == if 0x20 <= style % 128 <= 0x7E then [(style % 128) as char] else ""
  {
  }

  // ----- reading -----

  /** The value of a digit of either case, or -1. */
  function Code(c: char): int {
    if HexCode(c, true) >= 0 then HexCode(c, true) else HexCode(c, false)
  }

  lemma CodeIs(c: char)
    ensures IsHex(c) <==> Code(c) >= 0
    ensures IsHex(c) ==> HexValue(c) == Code(c)
  {
  }

  ghost predicate PairAt(text: string, i: nat) { Code(At(text, i)) >= 0 && Code(At(text, i + 1)) >= 0 }

  /** Pairs of digits are read from i on as long as there is a pair, its first digit lies below the limit
      and there is room; byte k is the pair at i + 2k. */
  lemma {:induction false} ReadIs(text: string, i: nat, limit: nat, room: nat)
    ensures var r := Read(text, i, limit, room);
      && |r| <= room
      && (forall k :: 0 <= k < |r| ==> ReadAt(text, i, limit, k, r[k]))
      && (|r| == room || i + 2 * |r| >= limit || !PairAt(text, i + 2 * |r|))
    decreases room
  {
    hide Code, IsHex;
    CodeIs(At(text, i));
    CodeIs(At(text, i + 1));
    var r := Read(text, i, limit, room);
    if r != [] {
      ReadIs(text, i + 2, limit, room - 1);
      var rest := Read(text, i + 2, limit, room - 1);
      assert r == [r[0]] + rest;
      forall k | 0 <= k < |r|
        ensures ReadAt(text, i, limit, k, r[k])
      {
        if k > 0 {
          assert ReadAt(text, i + 2, limit, k - 1, rest[k - 1]);
        }
      }
    }
  }

  ghost predicate ReadAt(text: string, i: nat, limit: nat, k: nat, b: int) {
    var p := i + 2 * k;
    p < limit && PairAt(text, p) && b == 16 * Code(At(text, p)) + Code(At(text, p + 1))
  }
}
