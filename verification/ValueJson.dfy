/** Which property values are JSON: the value check of miio_up_manager.c lets through more than the
    texts of JSON values, and here is exactly how much more.

    JSON is what the trees of JsonPrint print: any layout, any escapes the tokenizer knows, and for a
    literal any run of characters the tokenizer takes for one; NumberIsRfc says which of the accepted
    numbers are numbers of the standard. */
module ValueJson {
  import opened JsonPrint
  import opened StringEscape
  import U = UpLink

  /** The text is this tree, printed, with blanks around it. */
  ghost predicate IsPrint(text: string, lead: string, j: Json, trail: string) {
    Blank(lead) && Blank(trail) && Printable(j) && text == lead + Print(j) + trail
  }

  ghost predicate JsonText(text: string) {
    exists lead, j, trail :: IsPrint(text, lead, j, trail)
  }

  // ----- the values that pass the check -----

  /** What stands before, in and behind the core of a value. */
  function Front(v: string): string { v[..U.Head(v)] }

  function Core(v: string): string
    requires U.WellFormed(v)
  {
    v[U.Head(v)..U.Tail(v) + 1]
  }

  function Back(v: string): string { v[U.Tail(v) + 1..] }

  /** What a string value has between its quotes. */
  function Body(v: string): string
    requires U.AsString(v)
  {
    v[U.Head(v) + 1..U.Tail(v)]
  }

  /** What the check leaves open: only blanks around the core, and in a string only whole escapes. */
  predicate Legible(v: string)
    requires U.WellFormed(v)
  {
    Blank(Front(v)) && Blank(Back(v)) && (U.AsString(v) ==> SpellingText(Body(v)))
  }

  /** The value as a leaf of a tree. */
  function Leaf(v: string): Json
    requires U.WellFormed(v)
  {
    if U.AsString(v) then Raw(Body(v)) else Literal(Core(v))
  }

  lemma CoreInside(v: string)
    requires U.WellFormed(v)
    ensures 0 <= U.Head(v) <= U.Tail(v) < |v| && !U.Passed(v[U.Head(v)]) && !U.Passed(v[U.Tail(v)])
    ensures U.AsString(v) <==> v[U.Head(v)] == '"'
  {
    if !U.AsString(v) && !U.AsNumber(v) {
      assert v[U.Head(v)] == v[U.Head(v)..U.Tail(v) + 1][0];
    }
  }

  lemma StringCore(v: string)
    requires U.AsString(v)
    ensures v[U.Head(v)..U.Tail(v) + 1] == "\"" + v[U.Head(v) + 1..U.Tail(v)] + "\""
  {
    hide U.Head, U.Tail;
  }

  lemma AroundIsPassed(v: string)
    requires U.WellFormed(v)
    ensures forall c :: c in Front(v) || c in Back(v) ==> U.Passed(c)
  {
    hide U.WellFormed, U.Passed;
    var h, t := U.Head(v), U.Tail(v);
    assert forall i :: 0 <= i < |Front(v)| ==> Front(v)[i] == v[i];
    assert forall i :: 0 <= i < |Back(v)| ==> Back(v)[i] == v[t + 1 + i];
  }

  lemma ValueParts(v: string)
    requires U.WellFormed(v)
    ensures v == Front(v) + Core(v) + Back(v) && Core(v) != ""
    ensures forall c :: c in Front(v) || c in Back(v) ==> U.Passed(c)
    ensures !U.Passed(Core(v)[0]) && !U.Passed(Core(v)[|Core(v)| - 1])
    ensures U.AsString(v) <==> Core(v)[0] == '"'
    ensures U.AsString(v) ==> Core(v) == "\"" + Body(v) + "\""
  {
    hide U.WellFormed, U.Passed, U.AsString, U.Head, U.Tail;
    CoreInside(v);
    AroundIsPassed(v);
    if U.AsString(v) {
      StringCore(v);
    }
  }

  lemma CoreIsLiteral(v: string)
    requires U.WellFormed(v) && !U.AsString(v)
    ensures LiteralText(Core(v))
  {
    var core := Core(v);
    if U.AsNumber(v) {
      assert forall i :: 0 <= i < |core| ==> core[i] == v[U.Head(v) + i];
    } else {
      assert core == "true" || core == "false";
    }
  }

  lemma LeafPrints(v: string)
    requires U.WellFormed(v)
    ensures Print(Leaf(v)) == Core(v)
    ensures Printable(Leaf(v)) <==> (U.AsString(v) ==> SpellingText(Body(v)))
  {
    hide SpellingText, LiteralText;
    ValueParts(v);
    if !U.AsString(v) {
      CoreIsLiteral(v);
    }
  }

  /** A printed tree begins and ends with characters the check does not pass over. */
  lemma PrintEnds(j: Json)
    requires Printable(j)
    ensures Print(j) != "" && !U.Passed(Print(j)[0]) && !U.Passed(Print(j)[|Print(j)| - 1])
    ensures Print(j)[0] == '"' <==> j.Text? || j.Raw?
    ensures Print(j)[0] == '{' <==> j.Dict?
  {
    hide Escape, PrintElems, PrintMembers;
    match j
    case Literal(lit) => assert lit[|lit| - 1] in lit;
    case _ =>
  }

  lemma BlankIsPassed(s: string)
    requires Blank(s)
    ensures forall c :: c in s ==> U.Passed(c)
  {
  }

  /** There is only one way to cut a text into passed characters, a core, and passed characters. */
  lemma CoreIsUnique(v: string, front: string, core: string, back: string)
    requires v == front + core + back && core != ""
    requires forall c :: c in front || c in back ==> U.Passed(c)
    requires !U.Passed(core[0]) && !U.Passed(core[|core| - 1])
    ensures U.Head(v) == |front| && U.Tail(v) == |front| + |core| - 1
  {
    var h, t := |front|, |front| + |core| - 1;
    assert v[h] == core[0] && v[t] == core[|core| - 1];
    assert forall i :: 0 <= i < h ==> v[i] == front[i] && v[i] in front;
    assert forall i :: t < i < |v| ==> v[i] == back[i - t - 1] && v[i] in back;
  }

  /** Exactly which values that pass the check are the text of a JSON value. */
  lemma ValueIsJson(v: string)
    requires U.WellFormed(v)
    ensures JsonText(v) <==> Legible(v)
  {
    hide U.WellFormed, SpellingText, Print, Printable, U.AsString;
    ValueParts(v);
    LeafPrints(v);
    if Legible(v) {
      assert IsPrint(v, Front(v), Leaf(v), Back(v));
    }
    if JsonText(v) {
      var lead, j, trail :| IsPrint(v, lead, j, trail);
      PrintEnds(j);
      BlankIsPassed(lead);
      BlankIsPassed(trail);
      CoreIsUnique(v, lead, Print(j), trail);
      assert Front(v) == lead && Core(v) == Print(j) && Back(v) == trail;
      if U.AsString(v) {
        StringPrints(j, Body(v));
      }
    }
  }

  lemma StringPrints(j: Json, body: string)
    requires Printable(j) && Print(j) == "\"" + body + "\""
    ensures SpellingText(body)
  {
    hide SpellingText, Escape;
    PrintEnds(j);
    match j
    case Text(content) =>
      EscapeIsSpelling(content);
      assert body == Print(j)[1..|Print(j)| - 1] == Escape(content);
    case Raw(spelling) =>
      assert body == Print(j)[1..|Print(j)| - 1] == spelling;
    case _ =>
  }

  /** A value that passes the check and is not JSON: quote, a, backslash, quote. */
  const OPEN_ESCAPE := "\"a\\\""

  lemma OpenEscape()
    ensures U.WellFormed(OPEN_ESCAPE) && !Legible(OPEN_ESCAPE) && !JsonText(OPEN_ESCAPE)
  {
    CoreIsUnique(OPEN_ESCAPE, "", OPEN_ESCAPE, "");
    assert U.AsString(OPEN_ESCAPE);
    assert Body(OPEN_ESCAPE) == "a\\";
    assert "a\\"[1..] == "\\" && !SpellingText("\\");
    ValueIsJson(OPEN_ESCAPE);
  }

  /** And one with a control character before a number. */
  lemma ControlBefore()
    ensures var v := [1 as char, '5']; U.WellFormed(v) && !Legible(v) && !JsonText(v)
  {
    var v := [1 as char, '5'];
    CoreIsUnique(v, [1 as char], "5", "");
    assert U.AsNumber(v);
    assert Front(v)[0] == 1 as char && Front(v)[0] in Front(v);
    ValueIsJson(v);
  }

  // ----- numbers -----

  predicate AllDigits(s: string) { s != "" && forall c :: c in s ==> U.DigitChar(c) }

  /** A number of RFC 8259, section 6, without an exponent, which the check never lets through. */
  ghost predicate RfcNumber(s: string) {
    exists minus, whole, frac :: IsNumber(s, minus, whole, frac)
  }

  ghost predicate IsNumber(s: string, minus: string, whole: string, frac: string) {
    && s == minus + whole + frac && (minus == "" || minus == "-")
    && AllDigits(whole) && (whole[0] == '0' ==> |whole| == 1)
    && (frac == "" || (frac[0] == '.' && AllDigits(frac[1..])))
  }

  function Unsigned(s: string): string { if s != "" && s[0] == '-' then s[1..] else s }

  /** What the number check leaves open: a digit at each end, at most one point, and no zero in front
      of another digit. */
  predicate PlainNumber(s: string) {
    var u := Unsigned(s);
    && u != "" && U.DigitChar(u[0]) && U.DigitChar(u[|u| - 1])
    && (u[0] == '0' && |u| > 1 ==> u[1] == '.')
    && forall i, j :: 0 <= i < j < |u| ==> !(u[i] == '.' && u[j] == '.')
  }

  /** Where the point is, or the end. */
  function Point(u: string): (k: nat)
    ensures k <= |u| && (k < |u| ==> u[k] == '.') && forall i :: 0 <= i < k ==> u[i] != '.'
  {
    if u == "" || u[0] == '.' then 0 else 1 + Point(u[1..])
  }

  /** Exactly which numbers that pass the check are numbers of the standard. */
  lemma NumberIsRfc(v: string)
    requires U.AsNumber(v)
    ensures RfcNumber(Core(v)) <==> PlainNumber(Core(v))
  {
    hide U.Head, U.Tail, RfcNumber;
    var s := Core(v);
    NumberCore(v);
    if PlainNumber(s) {
      PlainIsRfc(s);
    }
    if RfcNumber(s) {
      RfcIsPlain(s);
    }
  }

  predicate NumberChars(s: string) {
    s != "" && (U.DigitChar(s[0]) || s[0] == '-') && forall i :: 0 < i < |s| ==> U.DigitChar(s[i]) || s[i] == '.'
  }

  lemma NumberCore(v: string)
    requires U.AsNumber(v)
    ensures U.WellFormed(v) && NumberChars(Core(v))
  {
    hide U.Head, U.Tail, U.DigitChar;
    assert forall i :: 0 <= i < |Core(v)| ==> Core(v)[i] == v[U.Head(v) + i];
  }

  lemma DigitsBetween(u: string, i: nat, k: nat)
    requires i < k <= |u| && forall j :: i <= j < k ==> U.DigitChar(u[j])
    ensures AllDigits(u[i..k])
  {
    hide U.DigitChar;
    assert forall j :: 0 <= j < k - i ==> u[i..k][j] == u[i + j];
  }

  function Minus(s: string): string { if s != "" && s[0] == '-' then "-" else "" }

  lemma UnsignedParts(s: string)
    requires NumberChars(s)
    ensures s == Minus(s) + Unsigned(s)
    ensures forall i :: 0 <= i < |Unsigned(s)| ==> U.DigitChar(Unsigned(s)[i]) || Unsigned(s)[i] == '.'
  {
    hide U.DigitChar;
    var u := Unsigned(s);
    assert forall i :: 0 <= i < |u| ==> u[i] == s[i + |Minus(s)|];
  }

  /** Digits, and perhaps a point with digits behind it. */
  lemma PlainParts(u: string) returns (k: nat)
    requires u != "" && forall i :: 0 <= i < |u| ==> U.DigitChar(u[i]) || u[i] == '.'
    requires U.DigitChar(u[0]) && U.DigitChar(u[|u| - 1])
    requires forall i, j :: 0 <= i < j < |u| ==> !(u[i] == '.' && u[j] == '.')
    ensures k <= |u| && AllDigits(u[..k]) && (k < |u| ==> u[k] == '.' && AllDigits(u[k..][1..]))
  {
    hide AllDigits;
    k := Point(u);
    assert '.' != u[0] && '.' != u[|u| - 1];
    DigitsBetween(u, 0, k);
    assert u[0..k] == u[..k];
    if k < |u| {
      DigitsBetween(u, k + 1, |u|);
      assert u[k..][1..] == u[k + 1..|u|];
    }
  }

  lemma PlainIsRfc(s: string)
    requires NumberChars(s) && PlainNumber(s)
    ensures RfcNumber(s)
  {
    hide AllDigits, NumberChars, U.DigitChar, Unsigned;
    UnsignedParts(s);
    var u := Unsigned(s);
    var k := PlainParts(u);
    var whole, frac := u[..k], u[k..];
    assert u == whole + frac;
    assert Minus(s) + u == Minus(s) + whole + frac;
    SomeDigits(whole);
    assert whole[0] == u[0] && (k < |u| ==> frac[0] == u[k]);
    assert IsNumber(s, Minus(s), whole, frac);
  }

  lemma SomeDigits(s: string)
    requires AllDigits(s)
    ensures s != "" && forall i :: 0 <= i < |s| ==> s[i] != '.'
  {
    assert forall i :: 0 <= i < |s| ==> s[i] in s;
  }

  lemma RfcIsPlain(s: string)
    requires RfcNumber(s)
    ensures PlainNumber(s)
  {
    var minus, whole, frac :| IsNumber(s, minus, whole, frac);
    var u := Unsigned(s);
    assert whole[0] in whole && u == whole + frac;
    assert forall i :: 0 <= i < |whole| ==> whole[i] in whole && u[i] == whole[i];
    assert forall i :: 0 < i < |frac| ==> frac[i] == frac[1..][i - 1] && frac[1..][i - 1] in frac[1..];
    assert forall i :: |whole| < i < |u| ==> u[i] == frac[i - |whole|];
  }

  /** A lone minus passes the check; no standard calls it a number. */
  lemma LoneMinus()
    ensures U.AsNumber("-") && !RfcNumber(Core("-"))
  {
    CoreIsUnique("-", "", "-", "");
    assert Unsigned("-") == "";
    NumberIsRfc("-");
  }
}
