/** When a property message of miio_up_manager.c is JSON: exactly when it was not cut short and every
    value in it is the text of a JSON value. */
module PropertyJson {
  import opened CText
  import opened DecimalText
  import opened Jsmn
  import opened JsmnInvariant
  import opened JsonPrint
  import opened Messages
  import opened StringEscape
  import opened ValueJson
  import R = UpLinkRuns
  import U = UpLink

  // ----- tokens of a printed tree do not touch -----

  /** Between a string and the next token there is its closing quote and something more. */
  ghost predicate Spaced(ts: seq<Token>) {
    forall i :: 0 <= i < |ts| - 1 ==> ts[i].kind == String ==> ts[i + 1].start >= ts[i].end + 2
  }

  /** The tokens lie in this stretch of text, strings with their closing quote. */
  ghost predicate Within(ts: seq<Token>, from: nat, to: nat) {
    forall i :: 0 <= i < |ts| ==> from <= ts[i].start && (ts[i].kind == String ==> ts[i].end + 1 <= to)
  }

  ghost predicate SpacedWithin(ts: seq<Token>, from: nat, to: nat) {
    Spaced(ts) && Within(ts, from, to)
  }

  lemma SpacedConcat(a: seq<Token>, b: seq<Token>, from: nat, mid: nat, next: nat, to: nat)
    requires SpacedWithin(a, from, mid) && SpacedWithin(b, next, to) && from <= mid < next && mid <= to
    ensures SpacedWithin(a + b, from, to)
  {
  }

  lemma SpacedOne(t: Token, from: nat, to: nat)
    requires from <= t.start && (t.kind == String ==> t.end + 1 <= to)
    ensures SpacedWithin([t], from, to)
  {
  }

  lemma SpacedContainer(t: Token, us: seq<Token>, from: nat, inner: nat, last: nat, to: nat)
    requires t.kind != String && from <= t.start && from <= inner && last <= to && SpacedWithin(us, inner, last)
    ensures SpacedWithin([t] + us, from, to)
  {
  }

  lemma {:induction false} TokensSpaced(j: Json, at: nat)
    ensures SpacedWithin(Tokens(j, at), at, at + |Print(j)|)
    decreases j
  {
    hide Escape, SpacedWithin, ElemTokens, MemberTokens, PrintElems, PrintMembers;
    match j
    case Literal(lit) => SpacedOne(Tokens(j, at)[0], at, at + |lit|);
    case Text(content) => SpacedOne(TextToken(content, at), at, at + |Quoted(content)|);
    case Raw(spelling) => SpacedOne(StringToken(|spelling|, at), at, at + |spelling| + 2);
    case List(blank, elems) =>
      var p := at + 1 + |blank|;
      ElemsSpaced(elems, "", p);
      SpacedContainer(Tokens(j, at)[0], ElemTokens(elems, "", p), at, p, p + |PrintElems(elems, "")|, at + |Print(j)|);
    case Dict(blank, members) =>
      var p := at + 1 + |blank|;
      MembersSpaced(members, "", p);
      SpacedContainer(Tokens(j, at)[0], MemberTokens(members, "", p), at, p, p + |PrintMembers(members, "")|,
                      at + |Print(j)|);
  }

  lemma Wider(ts: seq<Token>, from: nat, to: nat, from': nat)
    requires SpacedWithin(ts, from, to) && from' <= from
    ensures SpacedWithin(ts, from', to)
  {
  }

  lemma NoneSpaced(from: nat, to: nat)
    ensures SpacedWithin([], from, to)
  {
  }

  lemma {:induction false} ElemsSpaced(es: Elems, sep: string, at: nat)
    ensures SpacedWithin(ElemTokens(es, sep, at), at + |sep|, at + |PrintElems(es, sep)|)
    decreases es
  {
    hide SpacedWithin, Tokens, Print;
    match es
    case NoElems => NoneSpaced(at + |sep|, at);
    case Elem(before, value, after, rest) =>
      var p := at + |sep + before|;
      var q := p + |Print(value)|;
      var r := q + |after|;
      TokensSpaced(value, p);
      Wider(Tokens(value, p), p, q, at + |sep|);
      ElemsSpaced(rest, ",", r);
      SpacedConcat(Tokens(value, p), ElemTokens(rest, ",", r), at + |sep|, q, r + 1, at + |PrintElems(es, sep)|);
  }

  lemma {:induction false} MembersSpaced(ms: Members, sep: string, at: nat)
    ensures SpacedWithin(MemberTokens(ms, sep, at), at + |sep|, at + |PrintMembers(ms, sep)|)
    decreases ms
  {
    hide SpacedWithin, Tokens, Print, Escape;
    match ms
    case NoMembers => NoneSpaced(at + |sep|, at);
    case Member(before, key, cb, ca, value, after, rest) =>
      var p := at + |sep + before|;
      var k := p + |Quoted(key)|;
      var q := k + |cb + ":" + ca|;
      var v := q + |Print(value)|;
      var r := v + |after|;
      var end := at + |PrintMembers(ms, sep)|;
      SpacedOne(TextToken(key, p), at + |sep|, k);
      TokensSpaced(value, q);
      MembersSpaced(rest, ",", r);
      SpacedConcat(Tokens(value, q), MemberTokens(rest, ",", r), q, v, r + 1, end);
      SpacedConcat([TextToken(key, p)], Tokens(value, q) + MemberTokens(rest, ",", r), at + |sep|, k, q, end);
  }

  // ----- the header -----

  lemma Numerals()
    ensures Decimal(3) == "3" && Decimal(2000) == "2000"
  {
    assert Digits(20) == Digits(2) + "0";
    assert Digits(200) == Digits(20) + "0";
    assert Digits(2000) == Digits(200) + "0";
  }

  lemma HeaderLeaves()
    ensures Print(Literal("3")) == "3" && Printable(Literal("3"))
    ensures Print(Literal("2000")) == "2000" && Printable(Literal("2000"))
    ensures Print(Text("props")) == "\"props\"" && Printable(Text("props"))
  {
    hide Decimal, Escape, LiteralText, Word;
    Numerals();
    NumberPrints(3);
    NumberPrints(2000);
    Keywords();
    WordEscape("props");
  }

  const FRONT_HALF := "{\"retry\":3,\"timeout\":2000"
  const BACK_HALF := ",\"method\":\"props\",\"params\":{"

  lemma HeaderHalves()
    ensures U.HEADER == FRONT_HALF + BACK_HALF
  {
  }

  lemma FrontHalf()
    ensures FRONT_HALF == "{\"retry\":3" + ",\"timeout\":2000"
  {
  }

  lemma BackHalf()
    ensures BACK_HALF == ",\"method\":\"props\"" + ",\"params\":{"
  {
  }

  lemma HalvesJoin(a: string, b: string, c: string, d: string)
    ensures (a + b) + (c + d) == a + b + c + d
  {
  }

  lemma RetryText()
    ensures "{\"retry\":3" == "{" + Key("retry") + "3"
  {
  }

  lemma TimeoutText()
    ensures ",\"timeout\":2000" == "," + Key("timeout") + "2000"
  {
  }

  lemma MethodText()
    ensures ",\"method\":\"props\"" == "," + Key("method") + "\"props\""
  {
  }

  lemma ParamsText()
    ensures ",\"params\":{" == "," + Key("params") + "{"
  {
  }

  lemma HeaderIs()
    ensures U.HEADER == "{" + Key("retry") + "3" + ("," + Key("timeout") + "2000")
      + ("," + Key("method") + "\"props\"") + ("," + Key("params") + "{")
  {
    hide Key;
    HeaderHalves();
    FrontHalf();
    BackHalf();
    RetryText();
    TimeoutText();
    MethodText();
    ParamsText();
    HalvesJoin("{" + Key("retry") + "3", "," + Key("timeout") + "2000",
               "," + Key("method") + "\"props\"", "," + Key("params") + "{");
  }

  // ----- reading a message up to one of its values -----

  /** The tokenizer, on its way through the text inside some container, stands before `tail`. */
  ghost predicate Reached(text: string, cap: nat, s: State, tail: string) {
    && Standing(s) && s.super != -1
    && s.pos + |tail| == |text| && Has(text, s.pos, tail)
    && Run(text, |text|, cap, INIT) == Run(text, |text|, cap, s)
  }

  lemma ReachGap(text: string, cap: nat, s: State, gap: string, tail: string) returns (next: State)
    requires Reached(text, cap, s, gap + tail) && forall c :: c in gap ==> Skipped(c)
    ensures Reached(text, cap, next, tail) && next.tokens == s.tokens
  {
    hide Run, Has, LastOpen;
    HasParts(text, s.pos, gap, tail);
    SkipGap(text, cap, s, gap);
    next := s.(pos := s.pos + |gap|);
  }

  lemma ReachKey(text: string, cap: nat, s: State, sep: string, key: string, tail: string) returns (next: State)
    requires Reached(text, cap, s, sep + (Key(key) + tail)) && Word(key) && (sep == "" || sep == ",")
    requires |s.tokens| < cap
    ensures Reached(text, cap, next, tail) && |next.tokens| == |s.tokens| + 1
  {
    hide Run, Has, LastOpen, Escape, Word, Bump;
    WordEscape(key);
    assert sep + (Key(key) + tail) == sep + (Quoted(key) + (":" + tail));
    ReadKey(text, cap, s, sep, key, ":" + tail);
    var p := s.pos + |sep|;
    var next1 := After(s, [TextToken(key, p)], p + |Quoted(key)|);
    next := ReachGap(text, cap, next1, ":", tail);
  }

  lemma ReachValue(text: string, cap: nat, s: State, before: string, value: Json, after: string, tail: string)
    returns (next: State)
    requires Reached(text, cap, s, before + (Print(value) + (after + tail)))
    requires Blank(before) && Printable(value) && Blank(after) && |Tokens(value, s.pos + |before|)| == 1
    requires tail != [] && Delimits(tail[0]) && |s.tokens| < cap
    ensures Reached(text, cap, next, tail) && |next.tokens| == |s.tokens| + 1
  {
    hide Run, Has, LastOpen, Bump, Tokens, Print, Printable, Blank;
    BlankIsSkipped(before);
    ReadOne(text, cap, s, before, value, after, tail);
    var p := s.pos + |before|;
    next := After(s, Tokens(value, p), p + |Print(value)| + |after|);
  }

  lemma ReachOpen(text: string, cap: nat, s: State, tail: string) returns (next: State)
    requires Reached(text, cap, s, "{" + tail) && |s.tokens| < cap
    ensures Reached(text, cap, next, tail) && |next.tokens| == |s.tokens| + 1
  {
    hide Run, Has, LastOpen, Bump;
    HasParts(text, s.pos, "{", tail);
    HasChar(text, s.pos, "{", 0);
    ReadOpen(text, cap, s, Object);
    NoTokensClosed();
    InsideStands(s, Object, [], 0, s.pos + 1);
    next := Inside(s, Object, [], 0, s.pos + 1);
  }

  /** A pair of the header. */
  lemma ReachPair(text: string, cap: nat, s: State, sep: string, key: string, value: Json, tail: string)
    returns (next: State)
    requires Reached(text, cap, s, sep + (Key(key) + (Print(value) + tail))) && Word(key) && (sep == "" || sep == ",")
    requires Printable(value) && (value.Literal? || value.Text?) && tail != [] && Delimits(tail[0])
      && |s.tokens| + 1 < cap
    ensures Reached(text, cap, next, tail) && |next.tokens| == |s.tokens| + 2
  {
    hide Reached, Word, Key, Print, Printable, Delimits;
    next := ReachKey(text, cap, s, sep, key, Print(value) + tail);
    assert Print(value) + tail == "" + (Print(value) + ("" + tail));
    next := ReachValue(text, cap, next, "", value, "", tail);
  }

  lemma ReachStart(text: string, cap: nat, tail: string) returns (next: State)
    requires text == "{" + tail && cap > 0
    ensures Reached(text, cap, next, tail) && |next.tokens| == 1
  {
    hide Run, LastOpen, Bump;
    assert Has(text, 0, "{" + tail);
    HasParts(text, 0, "{", tail);
    assert At(text, 0) == '{';
    assert Standing(INIT);
    ReadOpen(text, cap, INIT, Object);
    NoTokensClosed();
    InsideStands(INIT, Object, [], 0, 1);
    next := Inside(INIT, Object, [], 0, 1);
  }

  lemma HeaderRegroup(r: string, t: string, m: string, p: string, tail: string)
    ensures "{" + r + "3" + ("," + t + "2000") + ("," + m + "\"props\"") + ("," + p + "{") + tail
      == "{" + ("" + (r + ("3" + ("," + (t + ("2000" + ("," + (m + ("\"props\"" + ("," + (p + ("{" + tail))))))))))))
  {
  }

  /** Through the header. */
  lemma ReachHeader(text: string, cap: nat, tail: string) returns (s: State)
    requires text == U.HEADER + tail && cap >= 10
    ensures Reached(text, cap, s, tail) && |s.tokens| == 9
  {
    hide Reached, Word, Key, Print, Printable;
    HeaderIs();
    HeaderLeaves();
    Keywords();
    var m, p := Key("method"), Key("params");
    HeaderRegroup(Key("retry"), Key("timeout"), m, p, tail);
    var t4 := "," + (p + ("{" + tail));
    var t3 := "," + (m + ("\"props\"" + t4));
    var t2 := "," + (Key("timeout") + ("2000" + t3));
    s := ReachStart(text, cap, "" + (Key("retry") + ("3" + t2)));
    s := ReachPair(text, cap, s, "", "retry", Literal("3"), t2);
    s := ReachPair(text, cap, s, ",", "timeout", Literal("2000"), t3);
    s := ReachPair(text, cap, s, ",", "method", Text("props"), t4);
    s := ReachKey(text, cap, s, ",", "params", "{" + tail);
    s := ReachOpen(text, cap, s, tail);
  }

  // ----- through the items -----

  predicate Checked(p: U.Property) { U.Verify(p.key, p.value) == U.Ok }

  ghost predicate AllLegible(items: seq<U.Property>)
    requires U.Stored(items)
  {
    forall i :: 0 <= i < |items| ==> StoredLegible(items[i])
  }

  predicate StoredLegible(p: U.Property) { Checked(p) && Legible(p.value) }

  lemma CheckedParts(p: U.Property)
    requires Checked(p)
    ensures Word(p.key) && p.key != "" && U.WellFormed(p.value)
  {
    assert forall i :: 0 <= i < |p.key| ==> p.key[i] in p.key;
  }

  function Sep(first: bool): string { if first then "" else "," }

  lemma ItemParts(p: U.Property, first: bool)
    ensures U.ItemText(p, first) == Sep(first) + (Key(p.key) + p.value)
  {
    assert "\"" + p.key + "\":" == Key(p.key);
  }

  lemma ReachItem(text: string, cap: nat, s: State, p: U.Property, first: bool, tail: string) returns (next: State)
    requires Reached(text, cap, s, U.ItemText(p, first) + tail) && StoredLegible(p)
    requires tail != [] && Delimits(tail[0]) && |s.tokens| + 1 < cap
    ensures Reached(text, cap, next, tail) && |next.tokens| == |s.tokens| + 2
  {
    hide Reached, Word, Key, Print, Delimits, U.ItemText, U.WellFormed, SpellingText, U.AsString, Checked, Blank,
         Front, Core, Back;
    ItemParts(p, first);
    CheckedParts(p);
    var v := p.value;
    ValueParts(v);
    LeafPrints(v);
    assert Sep(first) + (Key(p.key) + v) + tail == Sep(first) + (Key(p.key) + (v + tail));
    next := ReachKey(text, cap, s, Sep(first), p.key, v + tail);
    assert v + tail == Front(v) + (Core(v) + (Back(v) + tail));
    next := ReachValue(text, cap, next, Front(v), Leaf(v), Back(v), tail);
  }

  lemma JoinFirst(items: seq<U.Property>, first: bool, tail: string)
    requires items != []
    ensures U.Join(items, first) + tail == U.ItemText(items[0], first) + (U.Join(items[1..], false) + tail)
  {
    hide U.ItemText;
  }

  lemma JoinDelimits(items: seq<U.Property>, tail: string)
    requires tail != [] && Delimits(tail[0])
    ensures var more := U.Join(items, false) + tail; more != [] && Delimits(more[0])
  {
    if items == [] {
      assert U.Join(items, false) + tail == tail;
    } else {
      assert U.ItemText(items[0], false)[0] == ',';
    }
  }

  lemma {:induction false} ReachItems(text: string, cap: nat, s: State, items: seq<U.Property>, first: bool,
                                      tail: string)
    returns (next: State)
    requires Reached(text, cap, s, U.Join(items, first) + tail) && U.Stored(items) && AllLegible(items)
    requires items != [] ==> tail != [] && Delimits(tail[0])
    requires |s.tokens| + 2 * |items| <= cap
    ensures Reached(text, cap, next, tail) && |next.tokens| == |s.tokens| + 2 * |items|
    decreases |items|
  {
    hide Reached, U.ItemText, StoredLegible, Delimits, U.Verify;
    if items == [] {
      assert U.Join(items, first) + tail == tail;
      next := s;
    } else {
      JoinFirst(items, first, tail);
      JoinDelimits(items[1..], tail);
      next := ReachItem(text, cap, s, items[0], first, U.Join(items[1..], false) + tail);
      next := ReachItems(text, cap, next, items[1..], false, tail);
    }
  }

  lemma {:induction false} JoinSplit(items: seq<U.Property>, first: bool, k: nat)
    requires k < |items|
    ensures U.Join(items, first)
      == U.Join(items[..k], first) + (U.ItemText(items[k], first && k == 0) + U.Join(items[k + 1..], false))
    decreases k
  {
    hide U.ItemText;
    if k == 0 {
      assert items[..0] == [] && items[0 + 1..] == items[1..];
    } else {
      JoinSplit(items[1..], false, k - 1);
      assert items[..k][1..] == items[1..][..k - 1] && items[1..][k..] == items[k + 1..];
      var a, b, c := U.ItemText(items[0], first), U.Join(items[..k][1..], false), U.ItemText(items[k], false);
      var d := U.Join(items[k + 1..], false);
      assert U.Join(items[..k], first) == a + b;
      assert a + (b + (c + d)) == (a + b) + (c + d);
    }
  }

  /** Up to the k-th value, when those before it are fine. */
  lemma ReachBad(text: string, cap: nat, items: seq<U.Property>, k: nat, closing: string) returns (s: State)
    requires text == U.HEADER + (U.Join(items, true) + closing) && U.Stored(items) && k < |items|
    requires forall i :: 0 <= i < k ==> StoredLegible(items[i])
    requires cap >= 10 + 2 * |items|
    ensures Reached(text, cap, s, items[k].value + (U.Join(items[k + 1..], false) + closing))
    ensures |s.tokens| == 10 + 2 * k
  {
    hide Reached, U.ItemText, StoredLegible, U.Verify, U.Join, Word, Key;
    JoinSplit(items, true, k);
    var p, first := items[k], k == 0;
    var rest := U.Join(items[k + 1..], false) + closing;
    assert U.Join(items, true) + closing == U.Join(items[..k], true) + (U.ItemText(p, first) + rest);
    s := ReachHeader(text, cap, U.Join(items, true) + closing);
    if k > 0 {
      NotFirstDelimits(p, rest);
    }
    s := ReachItems(text, cap, s, items[..k], true, U.ItemText(p, first) + rest);
    ItemParts(p, first);
    CheckedParts(p);
    assert U.ItemText(p, first) + rest == Sep(first) + (Key(p.key) + (p.value + rest));
    s := ReachKey(text, cap, s, Sep(first), p.key, p.value + rest);
  }

  lemma NotFirstDelimits(p: U.Property, rest: string)
    ensures var more := U.ItemText(p, false) + rest; more != [] && Delimits(more[0])
  {
    assert U.ItemText(p, false)[0] == ',';
  }

  // ----- a value that is not JSON -----

  /** The tokenizer does not accept the text, or with tokens that no printed tree has. */
  ghost predicate Refused(text: string, cap: nat, s: State)
    requires s.Valid()
  {
    var r := Run(text, |text|, cap, s); r.code != Success || !Spaced(r.state.tokens)
  }

  lemma RefusedOn(text: string, cap: nat, s: State, tail: string, next: State, more: string)
    requires Reached(text, cap, s, tail) && Reached(text, cap, next, more) && Refused(text, cap, next)
    ensures Refused(text, cap, s)
  {
    hide Run, Spaced, Has, LastOpen;
  }

  /** Characters that are passed over by the check but are no blanks. */
  lemma {:induction false} BadGap(text: string, cap: nat, s: State, gap: string, tail: string)
    requires Reached(text, cap, s, gap + tail) && !Blank(gap) && forall c :: c in gap ==> U.Passed(c)
    ensures Refused(text, cap, s)
    decreases |gap|
  {
    hide Reached, Refused;
    GapChar(text, cap, s, gap, tail);
    if Blank([gap[0]]) {
      assert gap[0] in [gap[0]];
      assert gap + tail == [gap[0]] + (gap[1..] + tail);
      var next := ReachGap(text, cap, s, [gap[0]], gap[1..] + tail);
      assert gap == [gap[0]] + gap[1..];
      BadGap(text, cap, next, gap[1..], tail);
      RefusedOn(text, cap, s, gap + tail, next, gap[1..] + tail);
    } else {
      assert gap[0] in gap;
      assert forall c :: c in [gap[0]] ==> c == gap[0];
      BadHere(text, cap, s);
    }
  }

  lemma GapChar(text: string, cap: nat, s: State, gap: string, tail: string)
    requires Reached(text, cap, s, gap + tail) && !Blank(gap)
    ensures gap != "" && s.Valid() && s.pos < |text| && At(text, s.pos) == gap[0]
    ensures s.super != -1 && Standing(s)
  {
    hide Run, LastOpen;
    HasChar(text, s.pos, gap + tail, 0);
  }

  lemma BadHere(text: string, cap: nat, s: State)
    requires Standing(s) && s.super != -1 && s.pos < |text|
    requires At(text, s.pos) <= ' ' && !Blank([At(text, s.pos)])
    ensures Run(text, |text|, cap, s).code != Success && Refused(text, cap, s)
  {
    hide LastOpen, StringEnd, PrimitiveEnd;
    var c := At(text, s.pos);
    assert c != ' ' && c != '\t' && c != '\r' && c != '\n';
  }

  /** A literal with such a character right behind it. */
  lemma {:induction false} ScanBadLiteral(text: string, p: nat, s: string)
    requires forall c :: c in s ==> ' ' <= c <= '~' && !Delimits(c)
    requires Has(text, p, s) && p + |s| < |text| && text[p + |s|] < ' ' && !Delimits(text[p + |s|])
    ensures !PrimitiveEnd(text, |text|, p).Found?
    decreases |s|
  {
    hide Has;
    if s != [] {
      assert s == [s[0]] + s[1..];
      HasParts(text, p, [s[0]], s[1..]);
      HasChar(text, p, s, 0);
      assert s[0] in s && forall c :: c in s[1..] ==> c in s;
      ScanBadLiteral(text, p + 1, s[1..]);
    }
  }

  lemma BadLiteral(text: string, cap: nat, s: State, lit: string, tail: string)
    requires Reached(text, cap, s, lit + tail) && LiteralText(lit)
    requires tail != "" && tail[0] < ' ' && !Delimits(tail[0])
    ensures Refused(text, cap, s)
  {
    hide LastOpen, StringEnd, PrimitiveEnd;
    HasParts(text, s.pos, lit, tail);
    HasChar(text, s.pos, lit, 0);
    HasChar(text, s.pos + |lit|, tail, 0);
    ScanBadLiteral(text, s.pos, lit);
  }

  /** A wrongly spelled string: its scan fails, or passes its closing quote. */
  lemma {:induction false} ScanBadSpelling(text: string, p: nat, body: string, tail: string)
    requires Has(text, p, body + ("\"" + tail)) && !SpellingText(body)
    requires forall c :: c in body ==> ' ' <= c <= '~' && c != '"'
    ensures var r := StringEnd(text, |text|, p);
      r == Bad || r == StringEnd(text, |text|, p + |body| + 1)
    decreases |body|
  {
    hide Has;
    assert body != "";
    var k := if body[0] == '\\' then 2 else 1;
    HasChar(text, p, body + ("\"" + tail), 0);
    assert body[0] in body;
    if k == 2 {
      HasChar(text, p, body + ("\"" + tail), 1);
    }
    if |body| < k {
      assert At(text, p + 1) == '"';
    } else if k == 1 || Escapable(body[1]) {
      assert body + ("\"" + tail) == body[..k] + (body[k..] + ("\"" + tail));
      HasParts(text, p, body[..k], body[k..] + ("\"" + tail));
      assert forall c :: c in body[k..] ==> c in body;
      ScanBadSpelling(text, p + k, body[k..], tail);
    }
  }

  lemma {:induction false} ScanPassed(text: string, p: nat, gap: string)
    requires Has(text, p, gap) && forall c :: c in gap ==> U.Passed(c)
    ensures var r := StringEnd(text, |text|, p); r == Truncated || r == StringEnd(text, |text|, p + |gap|)
    decreases |gap|
  {
    hide Has;
    if gap != [] {
      assert gap == [gap[0]] + gap[1..];
      HasInside(text, p, gap);
      HasParts(text, p, [gap[0]], gap[1..]);
      HasChar(text, p, gap, 0);
      assert gap[0] in gap && forall c :: c in gap[1..] ==> c in gap;
      ScanPassed(text, p + 1, gap[1..]);
    }
  }

  /** The closing braces of a message, as far as they are there. */
  predicate Braces(s: string) { forall c :: c in s ==> c == '}' }

  lemma {:induction false} ScanBraces(text: string, p: nat, closing: string)
    requires Has(text, p, closing) && p + |closing| == |text| && Braces(closing)
    ensures StringEnd(text, |text|, p) == Truncated
    decreases |closing|
  {
    hide Has;
    if closing != [] {
      assert closing == [closing[0]] + closing[1..];
      HasParts(text, p, [closing[0]], closing[1..]);
      HasChar(text, p, closing, 0);
      assert closing[0] in closing && forall c :: c in closing[1..] ==> c in closing;
      ScanBraces(text, p + 1, closing[1..]);
    }
  }

  /** What follows a value: the closing braces, or a comma and the next key. */
  predicate KeyFollows(rest: string) {
    |rest| > 2 && rest[0] == ',' && rest[1] == '"' && U.KeyChar(rest[2])
  }

  lemma ScanNextKey(text: string, p: nat, rest: string)
    requires Has(text, p, rest) && KeyFollows(rest)
    ensures StringEnd(text, |text|, p) == Found(p + 1) && p + 2 < |text| && U.KeyChar(At(text, p + 2))
  {
    hide Has;
    HasInside(text, p, rest);
    HasChar(text, p, rest, 0);
    HasChar(text, p, rest, 1);
    HasChar(text, p, rest, 2);
  }

  /** A string that ended at the quote of a key: the key's first character is refused, or starts a
      token that touches it. */
  lemma Touching(text: string, cap: nat, s: State)
    requires s.Valid() && s.pos < |text| && U.KeyChar(At(text, s.pos)) && s.tokens != []
    requires var t := s.tokens[|s.tokens| - 1]; t.kind == String && t.end == s.pos - 1 && t.end != -1
    ensures Refused(text, cap, s)
  {
    hide LastOpen, PrimitiveEnd, StringEnd;
    var n := |s.tokens|;
    if StartsPrimitive(At(text, s.pos)) && PrimitiveEnd(text, |text|, s.pos).Found? && n < cap {
      var next := Consume(text, |text|, cap, s).next;
      assert SameSpan(next.tokens[n - 1], s.tokens[n - 1]);
      assert next.tokens[n].start == s.pos;
      hide Consume;
      RunKeepsClosed(text, |text|, cap, next, n - 1);
      RunKeepsClosed(text, |text|, cap, next, n);
      var ts := Run(text, |text|, cap, s).state.tokens;
      assert ts == Run(text, |text|, cap, next).state.tokens;
    }
  }

  /** One step that halts, or that takes a string which ends at the next key's quote. */
  lemma OpenString(text: string, cap: nat, s: State, e: nat)
    requires s.Valid() && s.pos < |text| && At(text, s.pos) == '"'
    requires var r := StringEnd(text, |text|, s.pos + 1); r.Found? ==>
      r.at == e && e + 1 < |text| && U.KeyChar(At(text, e + 1))
    ensures Refused(text, cap, s)
  {
    hide LastOpen, PrimitiveEnd, StringEnd;
    if StringEnd(text, |text|, s.pos + 1).Found? && |s.tokens| < cap {
      var next := Consume(text, |text|, cap, s).next;
      assert next.tokens[|next.tokens| - 1] == Token(String, 0, s.pos + 1, e);
      Touching(text, cap, next);
    }
  }

  lemma BadString(text: string, cap: nat, s: State, body: string, back: string, rest: string)
    requires Reached(text, cap, s, ("\"" + body + "\"") + (back + rest)) && !SpellingText(body)
    requires forall c :: c in body ==> ' ' <= c <= '~' && c != '"'
    requires forall c :: c in back ==> U.Passed(c)
    requires Braces(rest) || KeyFollows(rest)
    ensures Refused(text, cap, s)
  {
    hide Run, Has, LastOpen, SpellingText, Braces, KeyFollows, Refused, StringEnd;
    assert ("\"" + body + "\"") + (back + rest) == "\"" + (body + ("\"" + (back + rest)));
    HasParts(text, s.pos, "\"", body + ("\"" + (back + rest)));
    HasChar(text, s.pos, "\"", 0);
    var p := s.pos + 1;
    ScanBadSpelling(text, p, body, back + rest);
    assert body + ("\"" + (back + rest)) == (body + "\"") + (back + rest);
    HasParts(text, p, body + "\"", back + rest);
    var q := p + |body| + 1;
    HasParts(text, q, back, rest);
    ScanPassed(text, q, back);
    var e := q + |back|;
    if Braces(rest) {
      ScanBraces(text, e, rest);
    } else {
      ScanNextKey(text, e, rest);
    }
    OpenString(text, cap, s, e + 1);
  }

  /** A value that is not legible is never accepted as it stands. */
  lemma BadValue(text: string, cap: nat, s: State, v: string, rest: string)
    requires Reached(text, cap, s, v + rest) && U.WellFormed(v) && !Legible(v) && |s.tokens| + 1 < cap
    requires rest != "" && (Braces(rest) || KeyFollows(rest))
    ensures s.Valid() && Refused(text, cap, s)
  {
    hide Reached, Refused, U.WellFormed, SpellingText, Blank, Braces, KeyFollows, LiteralText, U.AsString, Front,
         Core, Back, Body;
    ValueParts(v);
    LeafPrints(v);
    ReachedValid(text, cap, s, v + rest);
    var tail := Back(v) + rest;
    assert v + rest == Front(v) + (Core(v) + tail);
    if !Blank(Front(v)) {
      BadGap(text, cap, s, Front(v), Core(v) + tail);
    } else {
      BlankIsSkipped(Front(v));
      var s1 := ReachGap(text, cap, s, Front(v), Core(v) + tail);
      ReachedValid(text, cap, s1, Core(v) + tail);
      if U.AsString(v) && !SpellingText(Body(v)) {
        BodyChars(v);
        BadString(text, cap, s1, Body(v), Back(v), rest);
      } else {
        BadBack(text, cap, s1, v, rest);
      }
      RefusedOn(text, cap, s, v + rest, s1, Core(v) + tail);
    }
  }

  lemma ReachedValid(text: string, cap: nat, s: State, tail: string)
    requires Reached(text, cap, s, tail)
    ensures s.Valid()
  {
  }

  lemma BodyChars(v: string)
    requires U.AsString(v)
    ensures forall c :: c in Body(v) ==> ' ' <= c <= '~' && c != '"'
  {
  }

  /** The core is fine, what follows it is not. */
  lemma BadBack(text: string, cap: nat, s: State, v: string, rest: string)
    requires U.WellFormed(v) && Reached(text, cap, s, Core(v) + (Back(v) + rest)) && |s.tokens| + 1 < cap
    requires (U.AsString(v) ==> SpellingText(Body(v))) && !Blank(Back(v))
    ensures s.Valid() && Refused(text, cap, s)
  {
    hide Reached, Refused, U.WellFormed, SpellingText, LiteralText, U.AsString, Front, Core, Back, Body;
    ValueParts(v);
    LeafPrints(v);
    var back := Back(v);
    ReachedValid(text, cap, s, Core(v) + (back + rest));
    assert back != "" && back[0] in back;
    if !U.AsString(v) {
      CoreIsLiteral(v);
    }
    if !U.AsString(v) && !Delimits(back[0]) {
      assert (back + rest)[0] == back[0];
      BadLiteral(text, cap, s, Core(v), back + rest);
    } else {
      var next := ReachCore(text, cap, s, Leaf(v), back + rest);
      ReachedValid(text, cap, next, back + rest);
      BadGap(text, cap, next, back, rest);
      RefusedOn(text, cap, s, Core(v) + (back + rest), next, back + rest);
    }
  }

  /** A leaf alone. */
  lemma ReachCore(text: string, cap: nat, s: State, leaf: Json, tail: string) returns (next: State)
    requires Reached(text, cap, s, Print(leaf) + tail) && Printable(leaf) && (leaf.Raw? || leaf.Literal?)
    requires tail != "" && (leaf.Literal? ==> Delimits(tail[0])) && |s.tokens| < cap
    ensures Reached(text, cap, next, tail)
  {
    hide Run, Has, LastOpen, Bump;
    HasParts(text, s.pos, Print(leaf), tail);
    HasChar(text, s.pos + |Print(leaf)|, tail, 0);
    ReadValue(text, cap, s, leaf);
    TokensClosed(leaf, s.pos);
    AfterStands(s, Tokens(leaf, s.pos), s.pos + |Print(leaf)|);
    next := After(s, Tokens(leaf, s.pos), s.pos + |Print(leaf)|);
  }

  // ----- the tree of a message -----

  /** The items as members, each value with the blanks around it. */
  function PropsOf(items: seq<U.Property>): Members
    requires U.Stored(items)
  {
    if items == [] then NoMembers
    else
      var p := items[0];
      assert Checked(p);
      Member("", p.key, "", Front(p.value), Leaf(p.value), Back(p.value), PropsOf(items[1..]))
  }

  function MessageTree(items: seq<U.Property>): Json
    requires U.Stored(items)
  {
    Dict("", Pair("retry", Literal("3"), Pair("timeout", Literal("2000"), Pair("method", Text("props"),
      Pair("params", Dict("", PropsOf(items)), NoMembers)))))
  }

  lemma MemberText(p: U.Property, first: bool, rest: Members)
    requires StoredLegible(p)
    ensures var m := Member("", p.key, "", Front(p.value), Leaf(p.value), Back(p.value), rest);
      && PrintMembers(m, Sep(first)) == U.ItemText(p, first) + PrintMembers(rest, ",")
      && (PrintableMembers(rest) ==> PrintableMembers(m))
  {
    hide Escape, Print, Printable, U.WellFormed, U.AsString, Checked, Front, Core, Back, Body, SpellingText, Word;
    CheckedParts(p);
    WordEscape(p.key);
    ValueParts(p.value);
    LeafPrints(p.value);
    ItemParts(p, first);
    var a, c, b := Front(p.value), Core(p.value), Back(p.value);
    Spread(Sep(first), p.key, a, c, b, PrintMembers(rest, ","));
  }

  lemma Spread(sep: string, key: string, a: string, c: string, b: string, more: string)
    ensures (sep + "") + ("\"" + key + "\"") + (("" + ":" + a) + c + (b + more)) == sep + (Key(key) + (a + c + b)) + more
  {
    assert ("\"" + key + "\"") + ":" == Key(key);
  }

  lemma {:induction false} PropsPrint(items: seq<U.Property>, first: bool)
    requires U.Stored(items) && AllLegible(items)
    ensures PrintMembers(PropsOf(items), Sep(first)) == U.Join(items, first)
    ensures PrintableMembers(PropsOf(items))
    decreases |items|
  {
    hide Print, Printable, PrintMembers, PrintableMembers, U.ItemText, StoredLegible, U.Verify, Front, Back, Leaf;
    if items == [] {
      NoPairs(Sep(first));
    } else {
      PropsPrint(items[1..], false);
      MemberText(items[0], first, PropsOf(items[1..]));
    }
  }

  lemma TreeText(r: string, t: string, m: string, q: string, p: string, body: string)
    ensures "{" + ("" + r + "3" + ("," + t + "2000" + ("," + m + q + ("," + p + ("{" + body + "}") + "")))) + "}"
      == "{" + r + "3" + ("," + t + "2000") + ("," + m + q) + ("," + p + "{") + body + "}}"
  {
  }

  lemma MessagePrints(items: seq<U.Property>)
    requires U.Stored(items) && AllLegible(items)
    ensures Printable(MessageTree(items))
    ensures Print(MessageTree(items)) == U.HEADER + U.Join(items, true) + "}}"
  {
    hide Print, Printable, PrintMembers, PrintableMembers, Pair, Word, Key, PropsOf, U.Join, U.Stored, AllLegible;
    HeaderLeaves();
    Keywords();
    PropsPrint(items, true);
    NoPairs(",");
    var params := Dict("", PropsOf(items));
    DictText(PropsOf(items));
    var m4 := Pair("params", params, NoMembers);
    PairText("params", params, NoMembers, ",");
    var m3 := Pair("method", Text("props"), m4);
    PairText("method", Text("props"), m4, ",");
    var m2 := Pair("timeout", Literal("2000"), m3);
    PairText("timeout", Literal("2000"), m3, ",");
    PairText("retry", Literal("3"), m2, "");
    DictText(Pair("retry", Literal("3"), m2));
    HeaderIs();
    TreeText(Key("retry"), Key("timeout"), Key("method"), "\"props\"", Key("params"), U.Join(items, true));
  }

  // ----- when a message is JSON -----

  predicate Fits(items: seq<U.Property>) { |U.HEADER| + |U.Join(items, true)| <= U.MAX_UP_JSON_LEN - 3 }

  /** What packing guarantees. */
  predicate Packed(items: seq<U.Property>) { |U.HEADER| + |U.Join(items, true)| <= U.MAX_UP_JSON_LEN - 2 }

  function Sent(items: seq<U.Property>): string { U.Message(U.Join(items, true)) }

  lemma MessageCut(body: string)
    requires |U.HEADER| + |body| <= U.MAX_UP_JSON_LEN - 2
    ensures var full := U.HEADER + body + "}}";
      U.Message(body) == if |full| < U.MAX_UP_JSON_LEN then full else full[..U.MAX_UP_JSON_LEN - 1]
    ensures exists closing :: closing != "" && Braces(closing) && U.Message(body) == U.HEADER + (body + closing)
  {
    var full := U.HEADER + body + "}}";
    var closing := if |full| < U.MAX_UP_JSON_LEN then "}}" else "}";
    assert "}}"[..1] == "}";
    if |full| >= U.MAX_UP_JSON_LEN {
      assert full[..U.MAX_UP_JSON_LEN - 1] == U.HEADER + body + "}";
    }
    assert Braces(closing) && U.Message(body) == U.HEADER + (body + closing);
  }

  /** With legible values: the tokens of the tree exactly when the message was not cut short, and no
      acceptance otherwise. */
  lemma MessageTokens(items: seq<U.Property>, cap: nat)
    requires U.Stored(items) && AllLegible(items) && Packed(items) && |Tokens(MessageTree(items), 0)| <= cap
    ensures var sent := Sent(items);
      && (Run(sent, |sent|, cap, INIT).code == Success <==> Fits(items))
      && (Fits(items) ==>
        Run(sent, |sent|, cap, INIT) == Result(Success, State(|sent|, Tokens(MessageTree(items), 0), -1)))
  {
    hide Run, Tokens, Print, Printable, U.Join, PropsOf, AllLegible, U.Stored;
    MessagePrints(items);
    MessageCut(U.Join(items, true));
    assert MessageTree(items).Dict?;
    CutDocument(MessageTree(items), U.MAX_UP_JSON_LEN, Sent(items), cap);
  }

  /** With a value that is not legible: no acceptance with tokens that a tree could have. */
  lemma BadMessage(items: seq<U.Property>, cap: nat)
    requires U.Stored(items) && !AllLegible(items) && Packed(items) && cap >= 12 + 2 * |items|
    ensures Refused(Sent(items), cap, INIT)
  {
    hide Reached, Refused, U.Join, U.Verify, Legible;
    var k: nat := FirstBad(items);
    MessageCut(U.Join(items, true));
    var closing :| closing != "" && Braces(closing) && Sent(items) == U.HEADER + (U.Join(items, true) + closing);
    var s := ReachBad(Sent(items), cap, items, k, closing);
    var v, rest := items[k].value, U.Join(items[k + 1..], false) + closing;
    assert Checked(items[k]);
    CheckedParts(items[k]);
    RestFollows(items[k + 1..], closing);
    BadValue(Sent(items), cap, s, v, rest);
    RefusedFromStart(Sent(items), cap, s, v + rest);
  }

  lemma FirstBad(items: seq<U.Property>) returns (k: nat)
    requires U.Stored(items) && !AllLegible(items)
    ensures k < |items| && !StoredLegible(items[k]) && forall i :: 0 <= i < k ==> StoredLegible(items[i])
  {
    hide StoredLegible;
    k := 0;
    while k + 1 < |items| && StoredLegible(items[k])
      invariant k < |items| && forall i :: 0 <= i < k ==> StoredLegible(items[i])
    {
      k := k + 1;
    }
  }

  lemma RestFollows(items: seq<U.Property>, closing: string)
    requires U.Stored(items) && closing != "" && Braces(closing)
    ensures var rest := U.Join(items, false) + closing; rest != "" && (Braces(rest) || KeyFollows(rest))
  {
    hide Braces;
    if items == [] {
      assert U.Join(items, false) + closing == closing;
    } else {
      assert Checked(items[0]);
      CheckedParts(items[0]);
      ItemBegins(items[0]);
      assert U.Join(items, false) + closing == U.ItemText(items[0], false) + (U.Join(items[1..], false) + closing);
    }
  }

  lemma ItemBegins(p: U.Property)
    requires Word(p.key) && p.key != ""
    ensures KeyFollows(U.ItemText(p, false))
  {
    assert U.ItemText(p, false) == "," + "\"" + p.key + "\":" + p.value;
  }

  lemma RefusedFromStart(text: string, cap: nat, s: State, tail: string)
    requires Reached(text, cap, s, tail) && Refused(text, cap, s)
    ensures Refused(text, cap, INIT)
  {
    hide Run, Spaced, Has, LastOpen;
  }

  lemma NoLead(lead: string, text: string)
    requires Blank(lead) && lead <= text && text != "" && text[0] == '{'
    ensures lead == ""
  {
    assert '{' !in lead;
  }

  /** A text that begins with a brace and is JSON is an object, and is accepted with its tokens. */
  lemma JsonIsAccepted(text: string, lead: string, j: Json, trail: string, cap: nat)
    requires IsPrint(text, lead, j, trail) && text != "" && text[0] == '{' && |Tokens(j, |lead|)| <= cap
    ensures !Refused(text, cap, INIT)
  {
    hide Run, Tokens, Print, Printable;
    PrintEnds(j);
    NoLead(lead, text);
    assert Print(j)[0] == text[0];
    PrintThenParse(lead, j, trail, cap);
    TokensSpaced(j, |lead|);
  }

  /** A property message is JSON exactly when it was not cut short and every value in it is. */
  lemma MessageIsJson(items: seq<U.Property>)
    requires U.Stored(items) && Packed(items)
    ensures JsonText(Sent(items)) <==> Fits(items) && AllLegible(items)
  {
    hide Run, Tokens, Print, Printable, U.Join, PropsOf, U.Stored, AllLegible, Refused, Blank;
    MessageBegins(items);
    if Fits(items) && AllLegible(items) {
      MessagePrints(items);
      MessageCut(U.Join(items, true));
      NoBlank();
      assert "" + Print(MessageTree(items)) + "" == Sent(items);
      assert IsPrint(Sent(items), "", MessageTree(items), "");
    }
    if JsonText(Sent(items)) {
      var lead, j, trail :| IsPrint(Sent(items), lead, j, trail);
      var cap := |Tokens(j, |lead|)| + |Tokens(MessageTree(items), 0)| + 12 + 2 * |items|;
      JsonIsAccepted(Sent(items), lead, j, trail, cap);
      if AllLegible(items) {
        MessageTokens(items, cap);
        NotRefused(Sent(items), cap);
      } else {
        BadMessage(items, cap);
      }
    }
  }

  lemma NotRefused(text: string, cap: nat)
    requires !Refused(text, cap, INIT)
    ensures Run(text, |text|, cap, INIT).code == Success
  {
    hide Run;
  }

  lemma NoBlank()
    ensures Blank("")
  {
  }

  lemma MessageBegins(items: seq<U.Property>)
    requires Packed(items)
    ensures Sent(items) != "" && Sent(items)[0] == '{'
  {
    hide U.Join, Key;
    MessageCut(U.Join(items, true));
    HeaderIs();
  }

  // ----- over a manager and its runs -----

  /** Whatever a manager packs, when all it holds has passed the check: the message is JSON exactly
      when it was not cut short and every value in it is. */
  lemma PackedIsJson(props: seq<U.Property>, session: nat, now: nat)
    requires U.Stored(props)
    ensures var items := U.Pack(props, "", 0, session, now).items;
      && U.Stored(items)
      && (JsonText(Sent(items)) <==> Fits(items) && AllLegible(items))
  {
    hide U.Join, JsonText, AllLegible, U.Verify;
    assert |U.HEADER| == 53;
    U.PackWritesWhatItMarks(props, "", 0, session, now);
    PackedStored(props, "", 0, session, now);
    MessageIsJson(U.Pack(props, "", 0, session, now).items);
  }

  lemma {:induction false} PackedStored(props: seq<U.Property>, body: string, count: nat, session: nat, now: nat)
    requires U.Stored(props)
    ensures U.Stored(U.Pack(props, body, count, session, now).items)
    decreases |props|
  {
    hide U.Verify, U.ItemText;
    if props != [] {
      var p := props[0];
      if U.Taken(p, |U.HEADER| + |body|, now) {
        PackedStored(props[1..], body + U.ItemText(p, count == 0), count + 1, session, now);
      } else {
        PackedStored(props[1..], body, count, session, now);
      }
    }
  }

  /** So over every run from an empty manager. */
  lemma RunIsJson(run: seq<R.Step>, session: nat, now: nat)
    ensures var props := R.Exec(R.INIT, run).device.props;
      var items := U.Pack(props, "", 0, session, now).items;
      U.Stored(items) && (JsonText(Sent(items)) <==> Fits(items) && AllLegible(items))
  {
    hide R.Exec, JsonText, AllLegible, Sent, U.Pack, Fits;
    R.AlwaysStored(R.INIT, run);
    PackedIsJson(R.Exec(R.INIT, run).device.props, session, now);
  }

  // ----- a property that spoils its message -----

  const SPOILER := U.Property("p", OPEN_ESCAPE, U.Dirty, 0, 0)

  /** One write that the manager accepts, and a message that has room to spare and is no JSON: the
      tokenizer waits for the end of the string. */
  lemma SpoiledMessage()
    ensures U.Verify("p", OPEN_ESCAPE) == U.Ok && U.Stored([SPOILER]) && Packed([SPOILER]) && Fits([SPOILER])
    ensures !JsonText(Sent([SPOILER]))
  {
    hide U.WellFormed, Legible, JsonText, Sent;
    OpenEscape();
    assert forall c :: c in "p" ==> c == 'p' && U.KeyChar(c);
    assert U.Verify("p", OPEN_ESCAPE) == U.Ok;
    assert |U.HEADER| == 53 && |U.ItemText(SPOILER, true)| == 8;
    assert U.Join([SPOILER], true) == U.ItemText(SPOILER, true) + U.Join([SPOILER][1..], false);
    assert U.Stored([SPOILER]);
    assert !AllLegible([SPOILER]) by { assert !StoredLegible([SPOILER][0]); }
    MessageIsJson([SPOILER]);
  }

  // ----- properties that leave two bytes -----

  const LONG_FIRST := U.Property(seq(31, _ => 'a'), seq(899, _ => '1'), U.Dirty, 0, 0)
  const SHORT_SECOND := U.Property(seq(31, _ => 'b'), "1", U.Dirty, 0, 0)

  lemma DigitsPass(n: nat)
    requires n > 0
    ensures var v: string := seq(n, _ => '1'); U.WellFormed(v) && Legible(v)
  {
    var v: string := seq(n, _ => '1');
    CoreIsUnique(v, "", v, "");
    assert U.AsNumber(v);
    assert Front(v) == "" && Back(v) == "";
  }

  lemma BothChecked()
    ensures StoredLegible(LONG_FIRST) && StoredLegible(SHORT_SECOND)
  {
    hide U.WellFormed, Legible;
    DigitsPass(899);
    DigitsPass(1);
    assert seq(1, _ => '1') == "1";
    assert forall c :: c in LONG_FIRST.key ==> c == 'a';
    assert forall c :: c in SHORT_SECOND.key ==> c == 'b';
  }

  /** Two writes that the manager accepts and packs into one message, which is then cut: with 31
      characters for each key, 899 for one value and 1 for the other, two bytes are left. */
  lemma CutMessage(session: nat)
    ensures var props := [LONG_FIRST, SHORT_SECOND];
      && U.Storable(props) && U.Stored(props) && AllLegible(props)
      && U.Pack(props, "", 0, session, 5000).items == props
      && |U.HEADER| + |U.Join(props, true)| == U.MAX_UP_JSON_LEN - 2
      && !JsonText(Sent(props))
  {
    hide JsonText, StoredLegible;
    var props := [LONG_FIRST, SHORT_SECOND];
    BothChecked();
    assert U.Storable(props) by { assert LONG_FIRST.key[0] != SHORT_SECOND.key[0]; }
    BothStored();
    BothPacked(session);
    MessageIsJson(props);
  }

  lemma BothStored()
    requires StoredLegible(LONG_FIRST) && StoredLegible(SHORT_SECOND)
    ensures var props := [LONG_FIRST, SHORT_SECOND]; U.Stored(props) && AllLegible(props)
  {
    hide Legible, U.Verify;
  }

  lemma BothPacked(session: nat)
    ensures var props := [LONG_FIRST, SHORT_SECOND];
      && U.Pack(props, "", 0, session, 5000).items == props
      && |U.HEADER| + |U.Join(props, true)| == U.MAX_UP_JSON_LEN - 2
  {
    var props := [LONG_FIRST, SHORT_SECOND];
    var first, second := U.ItemText(LONG_FIRST, true), U.ItemText(SHORT_SECOND, false);
    assert |U.HEADER| == 53 && |first| == 933 && |second| == 36;
    assert props[1..] == [SHORT_SECOND] && [SHORT_SECOND][1..] == [];
    assert U.Join([SHORT_SECOND], false) == second + U.Join([], false);
    assert U.Join(props, true) == first + U.Join([SHORT_SECOND], false);
    assert U.Taken(LONG_FIRST, |U.HEADER| + |""|, 5000) && U.Taken(SHORT_SECOND, |U.HEADER| + |"" + first|, 5000);
    assert U.Pack([], "" + first + second, 2, session, 5000).items == [];
    assert U.Pack([SHORT_SECOND], "" + first, 1, session, 5000).items == [SHORT_SECOND];
  }
}
