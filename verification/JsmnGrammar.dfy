/** Which characters the tokenizer of jsmn.c accepts, and where: what a token of each kind spans, and
    exactly why a call stops where it does.  The characters are written out here; nothing refers to
    the scanners. */
module JsmnGrammar {
  import opened CText
  import opened Jsmn
  import opened JsmnInvariant

  const BLANKS := " \t\r\n"
  const LITERAL_STARTS := "-0123456789tfn"
  const LITERAL_ENDS := " \t\r\n,]}"
  const ESCAPES := "\"\\/bfnrtu"

  // ----- the inside of a leaf -----

  /** What may stand between the quotes of a string. */
  predicate InQuotes(s: string) {
    if s == [] then true
    else if s[0] == '\\' then |s| > 1 && s[1] in ESCAPES && InQuotes(s[2..])
    else s[0] != '"' && s[0] != '\0' && InQuotes(s[1..])
  }

  predicate LiteralChar(c: char) { ' ' <= c <= '~' && c !in LITERAL_ENDS }

  predicate LiteralRun(text: string, p: nat, e: nat) {
    p <= e <= |text| && forall i :: p <= i < e ==> LiteralChar(text[i])
  }

  /** From p on there is string content up to e. */
  predicate Content(text: string, p: nat, e: nat) {
    p <= e <= |text| && InQuotes(text[p..e])
  }

  predicate StringEnds(text: string, len: nat, p: nat, e: nat) {
    e < len && e < |text| && text[e] == '"' && Content(text, p, e)
  }

  predicate BadEscapeAt(text: string, len: nat, p: nat, q: nat) {
    q < len && q < |text| && text[q] == '\\' && At(text, q + 1) !in ESCAPES && Content(text, p, q)
  }

  predicate LiteralEnds(text: string, len: nat, p: nat, e: nat) {
    e < len && e < |text| && text[e] in LITERAL_ENDS && LiteralRun(text, p, e)
  }

  predicate BadCharAt(text: string, len: nat, p: nat, q: nat) {
    && q < len && q < |text| && text[q] != '\0' && !LiteralChar(text[q]) && text[q] !in LITERAL_ENDS
    && LiteralRun(text, p, q)
  }

  lemma Sets(c: char)
    ensures c in BLANKS <==> c == ' ' || c == '\t' || c == '\r' || c == '\n'
    ensures c in LITERAL_ENDS <==> Delimits(c)
    ensures c in LITERAL_STARTS <==> StartsPrimitive(c)
    ensures c in ESCAPES <==> Escapable(c)
  {
  }

  /** The string scanner: where a string ends, and why it does not. */
  lemma {:induction false} StringScan(text: string, len: nat, p: nat)
    ensures var r := StringEnd(text, len, p);
      && (r.Found? ==> StringEnds(text, len, p, r.at))
      && (r.Bad? ==> exists q :: BadEscapeAt(text, len, p, q))
    decreases len - p
  {
    hide InQuotes, Escapable;
    if !AtEnd(text, len, p) {
      Sets(At(text, p + 1));
      if text[p] == '"' {
        NothingInQuotes(text, p);
      } else if text[p] == '\\' && !Escapable(At(text, p + 1)) {
        NothingInQuotes(text, p);
        assert BadEscapeAt(text, len, p, p);
      } else {
        var k := if text[p] == '\\' then 2 else 1;
        StringScan(text, len, p + k);
        var r := StringEnd(text, len, p + k);
        if r.Found? {
          MoreInQuotes(text, p, p + k, r.at);
        } else if r.Bad? {
          var q :| BadEscapeAt(text, len, p + k, q);
          MoreInQuotes(text, p, p + k, q);
          assert BadEscapeAt(text, len, p, q);
        }
      }
    }
  }

  lemma NothingInQuotes(text: string, p: nat)
    requires p <= |text|
    ensures Content(text, p, p)
  {
    assert text[p..p] == [];
  }

  lemma MoreInQuotes(text: string, p: nat, p': nat, e: nat)
    requires p < |text| && text[p] != '"' && text[p] != '\0' && Content(text, p', e)
    requires if text[p] == '\\' then p' == p + 2 && At(text, p + 1) in ESCAPES else p' == p + 1
    ensures Content(text, p, e)
  {
    var s := text[p..e];
    assert s[0] == text[p] && s[p' - p..] == text[p'..e];
    if text[p] == '\\' {
      assert s[1] == text[p + 1];
    }
  }

  /** And the scan has only one result. */
  lemma {:induction false} StringScanIs(text: string, len: nat, p: nat, e: nat)
    requires StringEnds(text, len, p, e) || BadEscapeAt(text, len, p, e)
    ensures StringEnd(text, len, p) == if text[e] == '"' then Found(e) else Bad
    decreases e - p
  {
    hide Escapable;
    Sets(At(text, p + 1));
    if p < e {
      var s := text[p..e];
      assert s[0] == text[p];
      if text[p] == '\\' {
        assert s[1] == text[p + 1] && s[2..] == text[p + 2..e];
        StringScanIs(text, len, p + 2, e);
      } else {
        assert s[1..] == text[p + 1..e];
        StringScanIs(text, len, p + 1, e);
      }
    }
  }

  lemma {:induction false} LiteralScan(text: string, len: nat, p: nat)
    ensures var r := PrimitiveEnd(text, len, p);
      && (r.Found? ==> LiteralEnds(text, len, p, r.at))
      && (r.Bad? ==> exists q :: BadCharAt(text, len, p, q))
    decreases len - p
  {
    hide LiteralChar, Delimits;
    if !AtEnd(text, len, p) {
      Sets(text[p]);
      LiteralCharIs(text[p]);
      if LiteralChar(text[p]) {
        LiteralScan(text, len, p + 1);
        var r := PrimitiveEnd(text, len, p + 1);
        if r.Bad? {
          var q :| BadCharAt(text, len, p + 1, q);
          assert BadCharAt(text, len, p, q);
        }
      } else if !Delimits(text[p]) {
        assert BadCharAt(text, len, p, p);
      }
    }
  }

  lemma LiteralCharIs(c: char)
    ensures LiteralChar(c) <==> !Delimits(c) && ' ' <= c <= '~'
  {
    Sets(c);
  }

  lemma {:induction false} LiteralScanIs(text: string, len: nat, p: nat, e: nat)
    requires LiteralEnds(text, len, p, e) || BadCharAt(text, len, p, e)
    ensures PrimitiveEnd(text, len, p) == if text[e] in LITERAL_ENDS then Found(e) else Bad
    decreases e - p
  {
    hide Delimits, LiteralChar;
    Sets(text[p]);
    LiteralCharIs(text[p]);
    if p < e {
      LiteralScanIs(text, len, p + 1, e);
    } else {
      DelimitsNoNul(text[p]);
    }
  }

  lemma DelimitsNoNul(c: char)
    ensures Delimits(c) ==> c != '\0'
  {
  }

  // ----- what each token spans -----

  /** An opening bracket, and the closing one at the end of what is not open any more. */
  predicate Between(text: string, t: Token, opening: char, closing: char) {
    && 0 <= t.start && At(text, t.start) == opening
    && (t.end == -1 || (t.start < t.end && At(text, t.end - 1) == closing))
  }

  /** Brackets of its own kind, quotes, or a run that starts like a literal and is delimited. */
  predicate Spells(text: string, t: Token) {
    match t.kind
    case Object => Between(text, t, '{', '}')
    case Array => Between(text, t, '[', ']')
    case String =>
      && 1 <= t.start <= t.end < |text|
      && text[t.start - 1] == '"' && text[t.end] == '"' && Content(text, t.start, t.end)
    case Primitive =>
      && 0 <= t.start < t.end < |text|
      && text[t.start] in LITERAL_STARTS && LiteralRun(text, t.start, t.end) && text[t.end] in LITERAL_ENDS
    case Invalid => false
  }

  ghost predicate AllSpelled(text: string, ts: seq<Token>) {
    forall i :: 0 <= i < |ts| ==> Spells(text, ts[i])
  }

  lemma SizeDoesNotMatter(text: string, t: Token, n: int)
    ensures Spells(text, t.(size := n)) == Spells(text, t)
  {
    hide Content, LiteralRun;
  }

  lemma BumpKeepsSpelled(text: string, ts: seq<Token>, super: int)
    requires AllSpelled(text, ts) && -1 <= super < |ts|
    ensures AllSpelled(text, Bump(ts, super))
  {
    hide Spells;
    if super != -1 {
      SizeDoesNotMatter(text, ts[super], Increment(ts[super].size));
    }
  }

  lemma ConsumeSpells(text: string, len: nat, cap: nat, s: State)
    requires WellFormed(s) && !AtEnd(text, len, s.pos) && AllSpelled(text, s.tokens)
    ensures var r := Consume(text, len, cap, s); r.Advance? ==> AllSpelled(text, r.next.tokens)
  {
    hide StringEnd, PrimitiveEnd, Content, LiteralRun, LastOpen, Bump;
    var c, p := At(text, s.pos), s.pos;
    BumpKeepsSpelled(text, s.tokens, s.super);
    Sets(c);
    if c == '"' {
      StringScan(text, len, p + 1);
    } else if StartsPrimitive(c) && !Skipped(c) {
      LiteralScan(text, len, p);
      StartsInside(text, len, p);
    } else if c == '}' || c == ']' {
      var i := LastOpen(s.tokens, |s.tokens|);
      if i != -1 && s.tokens[i].kind == (if c == '}' then Object else Array) {
        ClosedSpells(text, s, i);
      }
    }
  }

  lemma ClosedSpells(text: string, s: State, i: nat)
    requires WellFormed(s) && AllSpelled(text, s.tokens) && i < |s.tokens| && s.tokens[i].Open()
    requires s.tokens[i].kind == Object ==> At(text, s.pos) == '}'
    requires s.tokens[i].kind == Array ==> At(text, s.pos) == ']'
    ensures Spells(text, s.tokens[i].(end := s.pos + 1))
  {
    assert Spells(text, s.tokens[i]) && GoodToken(s.tokens[i], s.pos);
  }

  /** A literal is not empty: its first character does not end it. */
  lemma StartsInside(text: string, len: nat, p: nat)
    requires p < |text| && StartsPrimitive(text[p])
    ensures PrimitiveEnd(text, len, p).Found? ==> p < PrimitiveEnd(text, len, p).at
  {
    var c := text[p];
    assert !Delimits(c);
  }

  /** After any call on any input, every object is between braces and every array between square
      brackets (an open one has its own opening bracket), every string between quotes with nothing but
      whole escapes, and every primitive is a delimited literal. */
  lemma {:induction false} RunSpells(text: string, len: nat, cap: nat, s: State)
    requires WellFormed(s) && AllSpelled(text, s.tokens)
    ensures AllSpelled(text, Run(text, len, cap, s).state.tokens)
    decreases len - s.pos
  {
    hide Consume, Spells;
    if !AtEnd(text, len, s.pos) {
      ConsumeKeeps(text, len, cap, s);
      ConsumeSpells(text, len, cap, s);
      match Consume(text, len, cap, s)
      case Halt(_) =>
      case Advance(next) => RunSpells(text, len, cap, next);
    }
  }

  // ----- why a call stops -----

  /** i is the innermost container that is still open. */
  ghost predicate Innermost(ts: seq<Token>, i: nat) {
    i < |ts| && ts[i].Open() && forall j :: i < j < |ts| ==> !ts[j].Open()
  }

  ghost predicate NoneOpen(ts: seq<Token>) {
    forall i :: 0 <= i < |ts| ==> !ts[i].Open()
  }

  lemma LastOpenIs(ts: seq<Token>)
    ensures var i := LastOpen(ts, |ts|);
      if i == -1 then NoneOpen(ts) else Innermost(ts, i)
    ensures forall i: nat :: Innermost(ts, i) ==> i == LastOpen(ts, |ts|)
  {
  }

  function Opening(closing: char): char { if closing == '}' then '{' else '[' }

  function StartsWith(text: string, t: Token): char { if t.start >= 0 then At(text, t.start) else '\0' }

  ghost predicate StringWhole(text: string, len: nat, p: nat) { exists e :: StringEnds(text, len, p, e) }

  ghost predicate StringBroken(text: string, len: nat, p: nat) { exists q :: BadEscapeAt(text, len, p, q) }

  ghost predicate LiteralWhole(text: string, len: nat, p: nat) { exists e :: LiteralEnds(text, len, p, e) }

  ghost predicate LiteralBroken(text: string, len: nat, p: nat) { exists q :: BadCharAt(text, len, p, q) }

  /** The character at the cursor cannot stand there. */
  ghost predicate Misfit(text: string, len: nat, s: State)
    requires s.pos < |text|
  {
    var c := text[s.pos];
    if c == '}' || c == ']' then forall i: nat :: Innermost(s.tokens, i) ==> StartsWith(text, s.tokens[i]) != Opening(c)
    else if c == '"' then StringBroken(text, len, s.pos + 1)
    else if c in LITERAL_STARTS then LiteralBroken(text, len, s.pos)
    else c != '{' && c != '[' && c != ':' && c != ',' && c !in BLANKS
  }

  /** A token starts at the cursor, and all of it is there. */
  ghost predicate TokenStands(text: string, len: nat, s: State)
    requires s.pos < |text|
  {
    var c := text[s.pos];
    || c == '{' || c == '['
    || (c == '"' && StringWhole(text, len, s.pos + 1))
    || (c in LITERAL_STARTS && LiteralWhole(text, len, s.pos))
  }

  ghost predicate LeafStarts(text: string, s: State)
    requires s.pos < |text|
  {
    text[s.pos] == '"' || text[s.pos] in LITERAL_STARTS
  }

  ghost predicate Ended(text: string, len: nat, s: State) { s.pos >= len || At(text, s.pos) == '\0' }

  /** Exactly when a call goes no further, and with which result. */
  ghost predicate Stops(text: string, len: nat, cap: nat, s: State, code: Code) {
    match code
    case Success => Ended(text, len, s) && NoneOpen(s.tokens)
    case Inval => !Ended(text, len, s) && Misfit(text, len, s)
    case NoMem => !Ended(text, len, s) && TokenStands(text, len, s) && |s.tokens| >= cap
    case Part =>
      if Ended(text, len, s) then !NoneOpen(s.tokens)
      else LeafStarts(text, s) && !TokenStands(text, len, s) && !Misfit(text, len, s)
  }

  lemma ConsumeString(text: string, len: nat, cap: nat, s: State)
    requires s.Valid() && !AtEnd(text, len, s.pos) && text[s.pos] == '"'
    ensures var r := Consume(text, len, cap, s);
      && (Misfit(text, len, s) ==> r == Halt(Inval))
      && (TokenStands(text, len, s) && |s.tokens| >= cap ==> r == Halt(NoMem))
      && (TokenStands(text, len, s) && |s.tokens| < cap ==> r.Advance?)
      && (!Misfit(text, len, s) && !TokenStands(text, len, s) ==> r == Halt(Part))
      && !(Misfit(text, len, s) && TokenStands(text, len, s))
  {
    hide StringEnd, PrimitiveEnd, LastOpen, StringEnds, BadEscapeAt;
    var p := s.pos + 1;
    StringScan(text, len, p);
    if Misfit(text, len, s) {
      var q :| BadEscapeAt(text, len, p, q);
      EscapeIsNoQuote(text, len, p, q);
      StringScanIs(text, len, p, q);
    }
    if TokenStands(text, len, s) {
      var e :| StringEnds(text, len, p, e);
      EscapeIsNoQuote(text, len, p, e);
      StringScanIs(text, len, p, e);
    }
  }

  lemma EscapeIsNoQuote(text: string, len: nat, p: nat, q: nat)
    ensures BadEscapeAt(text, len, p, q) ==> q < |text| && text[q] != '"'
    ensures StringEnds(text, len, p, q) ==> q < |text| && text[q] == '"'
  {
  }

  lemma ConsumeLiteral(text: string, len: nat, cap: nat, s: State)
    requires s.Valid() && !AtEnd(text, len, s.pos) && text[s.pos] in LITERAL_STARTS
    ensures var r := Consume(text, len, cap, s);
      && (Misfit(text, len, s) ==> r == Halt(Inval))
      && (TokenStands(text, len, s) && |s.tokens| >= cap ==> r == Halt(NoMem))
      && (TokenStands(text, len, s) && |s.tokens| < cap ==> r.Advance?)
      && (!Misfit(text, len, s) && !TokenStands(text, len, s) ==> r == Halt(Part))
      && !(Misfit(text, len, s) && TokenStands(text, len, s))
  {
    hide StringEnd, PrimitiveEnd, LastOpen, LiteralEnds, BadCharAt;
    var p := s.pos;
    Sets(text[p]);
    LiteralScan(text, len, p);
    if Misfit(text, len, s) {
      var q :| BadCharAt(text, len, p, q);
      BadIsNoEnd(text, len, p, q);
      LiteralScanIs(text, len, p, q);
    }
    if TokenStands(text, len, s) {
      var e :| LiteralEnds(text, len, p, e);
      BadIsNoEnd(text, len, p, e);
      LiteralScanIs(text, len, p, e);
    }
  }

  lemma BadIsNoEnd(text: string, len: nat, p: nat, q: nat)
    ensures BadCharAt(text, len, p, q) ==> q < |text| && text[q] !in LITERAL_ENDS
    ensures LiteralEnds(text, len, p, q) ==> q < |text| && text[q] in LITERAL_ENDS
  {
  }

  lemma ConsumeClosing(text: string, len: nat, cap: nat, s: State)
    requires s.Valid() && !AtEnd(text, len, s.pos) && (text[s.pos] == '}' || text[s.pos] == ']')
    requires AllSpelled(text, s.tokens) && AllGood(s.tokens, s.pos)
    ensures var r := Consume(text, len, cap, s);
      if Misfit(text, len, s) then r == Halt(Inval) else r.Advance?
  {
    hide StringEnd, PrimitiveEnd, LastOpen, Content, LiteralRun;
    LastOpenIs(s.tokens);
    var i := LastOpen(s.tokens, |s.tokens|);
    if i != -1 {
      assert Spells(text, s.tokens[i]) && GoodToken(s.tokens[i], s.pos);
      assert Innermost(s.tokens, i);
    }
  }

  lemma ConsumeOther(text: string, len: nat, cap: nat, s: State)
    requires s.Valid() && !AtEnd(text, len, s.pos)
    requires text[s.pos] !in LITERAL_STARTS && text[s.pos] != '}' && text[s.pos] != ']' && text[s.pos] != '"'
    ensures var r := Consume(text, len, cap, s);
      if Misfit(text, len, s) then r == Halt(Inval)
      else if TokenStands(text, len, s) && |s.tokens| >= cap then r == Halt(NoMem)
      else r.Advance?
  {
    hide StringEnd, PrimitiveEnd, LastOpen;
    Sets(text[s.pos]);
  }

  /** A call stays where it is with a result exactly when it must. */
  lemma StopsExactly(text: string, len: nat, cap: nat, s: State, code: Code)
    requires WellFormed(s) && AllSpelled(text, s.tokens)
    ensures Run(text, len, cap, s) == Result(code, s) <==> Stops(text, len, cap, s, code)
  {
    hide Consume, StringEnd, PrimitiveEnd, LastOpen, Misfit, TokenStands, Spells, Ordered, Nested, Sized;
    LastOpenIs(s.tokens);
    if !AtEnd(text, len, s.pos) {
      var c := text[s.pos];
      if c == '"' {
        ConsumeString(text, len, cap, s);
        QuoteStands(text, len, s);
      } else if c in LITERAL_STARTS {
        ConsumeLiteral(text, len, cap, s);
      } else if c == '}' || c == ']' {
        ConsumeClosing(text, len, cap, s);
        ClosingStands(text, len, s);
      } else {
        ConsumeOther(text, len, cap, s);
        OtherStands(text, len, s);
      }
      match Consume(text, len, cap, s)
      case Halt(_) =>
      case Advance(next) => assert Run(text, len, cap, s).state.pos >= next.pos > s.pos;
    }
  }

  lemma QuoteStands(text: string, len: nat, s: State)
    requires s.pos < |text| && text[s.pos] == '"'
    ensures LeafStarts(text, s)
  {
  }

  lemma ClosingStands(text: string, len: nat, s: State)
    requires s.pos < |text| && (text[s.pos] == '}' || text[s.pos] == ']')
    ensures !LeafStarts(text, s) && !TokenStands(text, len, s)
  {
  }

  lemma OtherStands(text: string, len: nat, s: State)
    requires s.pos < |text| && text[s.pos] !in LITERAL_STARTS && text[s.pos] != '"'
    ensures !LeafStarts(text, s)
    ensures Misfit(text, len, s) ==> !TokenStands(text, len, s)
  {
  }

  lemma {:induction false} RunStays(text: string, len: nat, cap: nat, s: State)
    requires s.Valid()
    ensures var r := Run(text, len, cap, s); Run(text, len, cap, r.state) == r
    decreases len - s.pos
  {
    hide Consume;
    if !AtEnd(text, len, s.pos) {
      match Consume(text, len, cap, s)
      case Halt(_) =>
      case Advance(next) => RunStays(text, len, cap, next);
    }
  }

  /** Every call on every input ends with one of the four results, and each exactly for its own reason
      at the place where the call stopped. */
  lemma WhyItStops(text: string, len: nat, cap: nat, s: State, code: Code)
    requires WellFormed(s) && AllSpelled(text, s.tokens)
    ensures var r := Run(text, len, cap, s);
      r.code == code <==> Stops(text, len, cap, r.state, code)
  {
    hide Run, Stops, AllSpelled, Ordered, Nested, Sized, AllGood, LastOpen;
    RunKeeps(text, len, cap, s);
    RunSpells(text, len, cap, s);
    RunStays(text, len, cap, s);
    StopsExactly(text, len, cap, Run(text, len, cap, s).state, code);
  }

  /** Of every call from the initial state: a closed object stands between braces and a closed array
      between square brackets. */
  lemma BracketsMatch(text: string, len: nat, cap: nat, i: nat)
    requires i < |Run(text, len, cap, INIT).state.tokens|
    ensures var t := Run(text, len, cap, INIT).state.tokens[i];
      && (t.kind == Object && !t.Open() ==>
            0 <= t.start < t.end - 1 && At(text, t.start) == '{' && At(text, t.end - 1) == '}')
      && (t.kind == Array && !t.Open() ==>
            0 <= t.start < t.end - 1 && At(text, t.start) == '[' && At(text, t.end - 1) == ']')
  {
    hide Run, Content, LiteralRun;
    RunKeeps(text, len, cap, INIT);
    RunSpells(text, len, cap, INIT);
    var s := Run(text, len, cap, INIT).state;
    assert Spells(text, s.tokens[i]) && GoodToken(s.tokens[i], s.pos);
  }

  /** At a closing bracket the call is refused exactly when no container is open or the innermost one
      was opened by the other bracket. */
  lemma ClosingRefused(text: string, len: nat, cap: nat, s: State)
    requires WellFormed(s) && AllSpelled(text, s.tokens)
    requires s.pos < len && (At(text, s.pos) == '}' || At(text, s.pos) == ']')
    ensures Run(text, len, cap, s) == Result(Inval, s) <==>
      || NoneOpen(s.tokens)
      || exists i: nat :: Innermost(s.tokens, i) &&
           StartsWith(text, s.tokens[i]) == if At(text, s.pos) == '}' then '[' else '{'
  {
    hide Run, LastOpen, StringBroken, LiteralBroken, Ordered, Nested, Sized;
    StopsExactly(text, len, cap, s, Inval);
    LastOpenIs(s.tokens);
    var i := LastOpen(s.tokens, |s.tokens|);
    if i != -1 {
      assert Innermost(s.tokens, i);
      assert Spells(text, s.tokens[i]) && GoodToken(s.tokens[i], s.pos);
    }
  }

  /** A bracket of the wrong kind. */
  lemma WrongBracket()
    ensures Run("[1}", 3, 8, INIT).code == Inval
  {
    var text := "[1}";
    var open := State(1, [Token(Array, 0, 0, -1)], 0);
    var full := State(2, [Token(Array, 1, 0, -1), Token(Primitive, 0, 1, 2)], 0);
    assert Consume(text, 3, 8, INIT) == Advance(open);
    assert PrimitiveEnd(text, 3, 2) == Found(2);
    assert PrimitiveEnd(text, 3, 1) == Found(2);
    assert Consume(text, 3, 8, open) == Advance(full);
    assert LastOpen(full.tokens, 1) == 0;
    assert Consume(text, 3, 8, full) == Halt(Inval);
  }
}
