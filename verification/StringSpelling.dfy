/** The escapes of util.c by their code points: what every spelling of a string is read as, and how
    every character is written. */
module StringSpelling {
  import opened CText
  import opened StringEscape

  // ----- reading -----

  /** A string is spelled with characters that stand for themselves and backslashes with a letter. */
  datatype Piece = Plain(c: char) | Escaped(letter: char)

  function Spelled(pieces: seq<Piece>): string {
    if pieces == [] then ""
    else
      (match pieces[0] case Plain(c) => [c] case Escaped(l) => ['\\', l]) + Spelled(pieces[1..])
  }

  /** The two-character escapes of RFC 8259, section 7. */
  predicate Rfc8259(letter: char, code: int) {
    var l := letter as int;
    || (l == 0x22 && code == 0x22)
    || (l == 0x5C && code == 0x5C)
    || (l == 0x2F && code == 0x2F)
    || (l == 0x62 && code == 0x08)
    || (l == 0x66 && code == 0x0C)
    || (l == 0x6E && code == 0x0A)
    || (l == 0x72 && code == 0x0D)
    || (l == 0x74 && code == 0x09)
  }

  /** The four that util.c knows beside them: bell, vertical tab, apostrophe and NUL. */
  predicate Further(letter: char, code: int) {
    var l := letter as int;
    || (l == 0x61 && code == 0x07)
    || (l == 0x76 && code == 0x0B)
    || (l == 0x27 && code == 0x27)
    || (l == 0x30 && code == 0x00)
  }

  /** What a piece is read as; a byte of the destination is left as it was for any other escape. */
  ghost predicate ReadsAs(piece: Piece, c: char, stale: char) {
    match piece
    case Plain(p) => p != '\\' && c == p
    case Escaped(l) =>
      || Rfc8259(l, c as int)
      || Further(l, c as int)
      || ((forall code :: !Rfc8259(l, code) && !Further(l, code)) && c == stale)
  }

  lemma UnescapedIs(l: char, stale: char)
    ensures ReadsAs(Escaped(l), match Unescaped(l) case Some(c) => c case None => stale, stale)
  {
  }

  /** src from i up to len consists of these pieces; the letter of the last may lie behind len. */
  ghost predicate Cuts(src: string, len: nat, i: nat, pieces: seq<Piece>)
    decreases pieces
  {
    if pieces == [] then i >= len
    else
      && i < len
      && match pieces[0]
         case Plain(c) => At(src, i) == c && c != '\\' && Cuts(src, len, i + 1, pieces[1..])
         case Escaped(l) => At(src, i) == '\\' && At(src, i + 1) == l && Cuts(src, len, i + 2, pieces[1..])
  }

  function Min(a: nat, b: nat): nat { if a < b then a else b }

  /** Every text is read piece by piece, as far as there is room. */
  lemma {:induction false} ReadByPieces(src: string, len: nat, i: nat, stale: string, pieces: seq<Piece>)
    requires Cuts(src, len, i, pieces)
    ensures var r := Unescape(src, len, i, stale);
      && |r| == Min(|pieces|, |stale|)
      && forall k :: 0 <= k < |r| ==> ReadsAs(pieces[k], r[k], stale[k])
    decreases pieces
  {
    hide ReadsAs, Unescaped;
    if pieces != [] && stale != [] {
      var next := if pieces[0].Plain? then i + 1 else i + 2;
      ReadByPieces(src, len, next, stale[1..], pieces[1..]);
      FirstReads(src, i, stale[0], pieces[0]);
      var r, rest := Unescape(src, len, i, stale), Unescape(src, len, next, stale[1..]);
      assert r == [r[0]] + rest;
      forall k | 0 < k < |r|
        ensures ReadsAs(pieces[k], r[k], stale[k])
      {
        assert pieces[k] == pieces[1..][k - 1] && r[k] == rest[k - 1] && stale[k] == stale[1..][k - 1];
      }
    }
  }

  lemma FirstReads(src: string, i: nat, stale: char, piece: Piece)
    requires match piece
             case Plain(c) => At(src, i) == c && c != '\\'
             case Escaped(l) => At(src, i) == '\\' && At(src, i + 1) == l
    ensures var c :=
        if At(src, i) != '\\' then At(src, i) else match Unescaped(At(src, i + 1)) case Some(c) => c case None => stale;
      ReadsAs(piece, c, stale)
  {
    if piece.Escaped? {
      UnescapedIs(piece.letter, stale);
    }
  }

  /** And every text can be cut into pieces. */
  lemma {:induction false} CanBeCut(src: string, len: nat, i: nat) returns (pieces: seq<Piece>)
    ensures Cuts(src, len, i, pieces)
    decreases len - i
  {
    if i >= len {
      pieces := [];
    } else if At(src, i) == '\\' {
      var rest := CanBeCut(src, len, i + 2);
      pieces := [Escaped(At(src, i + 1))] + rest;
      assert pieces[1..] == rest;
    } else {
      var rest := CanBeCut(src, len, i + 1);
      pieces := [Plain(At(src, i))] + rest;
      assert pieces[1..] == rest;
    }
  }

  /** Character k of the text is what piece k spells, by one of the two tables. */
  ghost predicate Spells(pieces: seq<Piece>, text: string) {
    && |pieces| == |text|
    && forall k :: 0 <= k < |pieces| ==>
         match pieces[k]
         case Plain(c) => c != '\\' && text[k] == c
         case Escaped(l) => Rfc8259(l, text[k] as int) || Further(l, text[k] as int)
  }

  lemma {:induction false} SpelledCuts(src: string, i: nat, pieces: seq<Piece>, text: string)
    requires i <= |src| && src[i..] == Spelled(pieces) && Spells(pieces, text)
    ensures Cuts(src, |src|, i, pieces)
    decreases pieces
  {
    hide Rfc8259, Further;
    if pieces != [] {
      var rest := Spelled(pieces[1..]);
      assert pieces[0].Plain? ==> pieces[0].c != '\\';
      assert |src| - i == |src[i..]|;
      assert src[i] == src[i..][0];
      if pieces[0].Plain? {
        assert src[i + 1..] == src[i..][1..] == rest;
        SpelledCuts(src, i + 1, pieces[1..], text[1..]);
      } else {
        assert src[i + 1] == src[i..][1];
        assert src[i + 2..] == src[i..][2..] == rest;
        SpelledCuts(src, i + 2, pieces[1..], text[1..]);
      }
    }
  }

  lemma OneCode(l: char, a: int, b: int)
    requires Rfc8259(l, a) || Further(l, a)
    requires Rfc8259(l, b) || Further(l, b)
    ensures a == b
  {
  }

  /** Any spelling of a text, by any writer, is read as that text, or as much of it as there is room
      for; what the buffer held before does not show. */
  lemma SpellingIsRead(pieces: seq<Piece>, text: string, stale: string)
    requires Spells(pieces, text)
    ensures var src := Spelled(pieces);
      Unescape(src, |src|, 0, stale) == text[..Min(|text|, |stale|)]
  {
    hide Rfc8259, Further, Cuts, Unescape, Spelled;
    var src := Spelled(pieces);
    assert src[0..] == src;
    SpelledCuts(src, 0, pieces, text);
    ReadByPieces(src, |src|, 0, stale, pieces);
    var r := Unescape(src, |src|, 0, stale);
    forall k | 0 <= k < |r|
      ensures r[k] == text[k]
    {
      PieceIs(pieces[k], r[k], stale[k], text[k]);
    }
  }

  lemma PieceIs(piece: Piece, c: char, stale: char, d: char)
    requires ReadsAs(piece, c, stale)
    requires match piece
             case Plain(p) => d == p
             case Escaped(l) => Rfc8259(l, d as int) || Further(l, d as int)
    ensures c == d
  {
    hide Rfc8259, Further;
    if piece.Escaped? {
      var l := piece.letter;
      if Rfc8259(l, c as int) || Further(l, c as int) {
        OneCode(l, c as int, d as int);
      }
    }
  }

  // ----- writing -----

  /** Seven characters are written as a backslash and a letter, all others as themselves. */
  lemma WrittenAs(c: char)
    ensures var e := EscapeChar(c);
      if c as int in {0x22, 0x5C, 0x08, 0x0C, 0x0A, 0x0D, 0x09} then
        |e| == 2 && e[0] as int == 0x5C && Rfc8259(e[1], c as int)
      else e == [c]
  {
  }

  /** Character k is written exactly when after those before it two bytes are free. */
  lemma {:induction false} WrittenWhile(s: string, room: int, k: nat)
    requires k < |s|
    ensures k < Fitting(s, room) <==> |Escape(s[..k])| + 2 <= room
    decreases k
  {
    hide EscapeChar;
    if k == 0 {
      assert s[..0] == [];
    } else {
      var step := |EscapeChar(s[0])|;
      assert s[..k][1..] == s[1..][..k - 1];
      assert |Escape(s[..k])| == step + |Escape(s[1..][..k - 1])|;
      WrittenWhile(s[1..], room - step, k - 1);
      assert s[1..][..k - 1] == s[1..k];
    }
  }

  /** What is written of: up to the first NUL, at most n characters. */
  lemma {:induction false} ReadableIs(s: string, n: nat)
    ensures var r := Readable(s, n);
      && r <= s && |r| <= n && '\0' !in r
      && (|r| == n || |r| == |s| || s[|r|] == '\0')
    decreases n
  {
    if n > 0 && s != [] && s[0] != '\0' {
      ReadableIs(s[1..], n - 1);
      var rest := Readable(s[1..], n - 1);
      assert s[..|rest| + 1] == [s[0]] + s[1..][..|rest|];
    }
  }
}
