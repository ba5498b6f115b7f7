/** The answers to commands of miio_command.c are JSON exactly when they were not cut short: read back
    by the tokenizer of jsmn.c. */
module Messages {
  import opened Jsmn
  import opened JsmnInvariant
  import opened JsmnResume
  import opened JsonPrint
  import opened StringEscape
  import opened DecimalText
  import D = DownCommand
  import U = UpLink

  // ----- a document that is cut short -----

  /** A step leaves closed tokens as they are, up to their child counts. */
  predicate SameSpan(t: Token, u: Token) {
    t.kind == u.kind && t.start == u.start && t.end == u.end
  }

  lemma ConsumeKeepsClosed(text: string, len: nat, cap: nat, s: State, i: nat)
    requires s.Valid() && !AtEnd(text, len, s.pos) && i < |s.tokens| && s.tokens[i].end != -1
    requires Consume(text, len, cap, s).Advance?
    ensures SameSpan(Consume(text, len, cap, s).next.tokens[i], s.tokens[i])
  {
    hide StringEnd, PrimitiveEnd;
  }

  lemma {:induction false} RunKeepsClosed(text: string, len: nat, cap: nat, s: State, i: nat)
    requires s.Valid() && i < |s.tokens| && s.tokens[i].end != -1
    ensures SameSpan(Run(text, len, cap, s).state.tokens[i], s.tokens[i])
    decreases len - s.pos
  {
    hide Consume;
    if !AtEnd(text, len, s.pos) {
      match Consume(text, len, cap, s)
      case Halt(_) =>
      case Advance(next) =>
        ConsumeKeepsClosed(text, len, cap, s, i);
        RunKeepsClosed(text, len, cap, next, i);
    }
  }

  lemma FirstBrace(text: string, len: nat, cap: nat)
    requires 0 < len <= |text| && text[0] == '{' && cap > 0
    ensures |Run(text, len, cap, INIT).state.tokens| > 0
  {
    assert Consume(text, len, cap, INIT) == Advance(State(1, [Token(Object, 0, 0, -1)], 0));
  }

  /** No proper beginning of an object is accepted. */
  lemma CutIsRefused(text: string, k: nat, cap: nat)
    requires 0 < k < |text| && text[0] == '{' && cap > 0
    requires var r := Run(text, |text|, cap, INIT);
      r.code == Success && r.state.tokens != [] && r.state.tokens[0].end == |text|
    ensures Run(text[..k], k, cap, INIT).code != Success
  {
    hide Run;
    var part := text[..k];
    var cut := Run(part, k, cap, INIT);
    if cut.code == Success {
      TerminatedPart(part, text, cap, INIT);
      assert cut.state == Run(text, k, cap, INIT).state;
      Resume(text, k, |text|, cap, cap, INIT);
      FirstBrace(text, k, cap);
      RunKeeps(text, k, cap, INIT);
      PosBound(text, k, cap, INIT);
      SuccessMeansClosed(part, k, cap, INIT);
      assert GoodToken(cut.state.tokens[0], cut.state.pos);
      RunKeepsClosed(text, |text|, cap, cut.state, 0);
    }
  }

  /** A printed object, or what fits of it below `room`. */
  lemma CutDocument(j: Json, room: nat, sent: string, cap: nat)
    requires j.Dict? && Printable(j) && |Tokens(j, 0)| <= cap && room > 1
    requires sent == if |Print(j)| < room then Print(j) else Print(j)[..room - 1]
    ensures Run(sent, |sent|, cap, INIT).code == Success <==> |Print(j)| < room
    ensures |Print(j)| < room ==> Run(sent, |sent|, cap, INIT) == Result(Success, State(|sent|, Tokens(j, 0), -1))
  {
    hide Run, Printable;
    var text := Print(j);
    assert "" + text + "" == text;
    PrintThenParse("", j, "", cap);
    assert text[0] == '{' && Tokens(j, 0)[0].end == |text|;
    if |text| >= room {
      CutIsRefused(text, room - 1, cap);
    }
  }

  // ----- trees for the texts -----

  /** Letters, digits and underscores: nothing that is escaped. */
  predicate Word(s: string) {
    forall i :: 0 <= i < |s| ==> U.KeyChar(s[i])
  }

  lemma {:induction false} WordEscape(s: string)
    requires Word(s)
    ensures Escape(s) == s && ContentText(s)
    decreases |s|
  {
    if s != [] {
      assert U.KeyChar(s[0]) && EscapeChar(s[0]) == [s[0]];
      WordEscape(s[1..]);
      assert s == [s[0]] + s[1..];
    }
  }

  lemma Keywords()
    ensures Word("retry") && Word("timeout") && Word("method") && Word("params") && Word("props")
    ensures Word("error") && Word("code") && Word("message") && Word("result")
  {
  }

  function Key(k: string): string { "\"" + k + "\":" }

  function Texts(vs: seq<Json>): seq<string> {
    if vs == [] then [] else [Print(vs[0])] + Texts(vs[1..])
  }

  function ElemsOf(vs: seq<Json>): Elems {
    if vs == [] then NoElems else Elem("", vs[0], "", ElemsOf(vs[1..]))
  }

  ghost predicate AllPrintable(vs: seq<Json>) {
    forall i :: 0 <= i < |vs| ==> Printable(vs[i])
  }

  lemma {:induction false} JoinedFirst(a: string, rest: seq<string>)
    requires rest != []
    ensures D.Joined([a] + rest) == a + D.COMMA + D.Joined(rest)
    decreases |rest|
  {
    var all := [a] + rest;
    var n := |rest| - 1;
    assert all[|all| - 1] == rest[n] && all[..|all| - 1] == [a] + rest[..n];
    if n > 0 {
      JoinedFirst(a, rest[..n]);
      assert a + D.COMMA + D.Joined(rest[..n]) + D.COMMA + rest[n]
        == a + D.COMMA + (D.Joined(rest[..n]) + D.COMMA + rest[n]);
    } else {
      assert [a] + rest[..0] == [a];
    }
  }

  lemma {:induction false} PrintList(vs: seq<Json>, sep: string)
    requires vs != []
    ensures PrintElems(ElemsOf(vs), sep) == sep + D.Joined(Texts(vs))
    ensures AllPrintable(vs) ==> PrintableElems(ElemsOf(vs))
    decreases |vs|
  {
    hide Print, Printable;
    var first, rest := Print(vs[0]), vs[1..];
    if rest == [] {
      assert PrintElems(ElemsOf(rest), ",") == "";
      assert (sep + "") + first + ("" + "") == sep + first;
      assert Texts(vs) == [first];
    } else {
      PrintList(rest, ",");
      JoinedFirst(first, Texts(rest));
      var more := D.Joined(Texts(rest));
      assert (sep + "") + first + ("" + ("," + more)) == sep + (first + "," + more);
    }
  }

  function Pair(key: string, value: Json, rest: Members): Members {
    Member("", key, "", "", value, "", rest)
  }

  lemma PairText(key: string, value: Json, rest: Members, sep: string)
    requires Word(key)
    ensures PrintMembers(Pair(key, value, rest), sep) == sep + Key(key) + Print(value) + PrintMembers(rest, ",")
    ensures Printable(value) && PrintableMembers(rest) ==> PrintableMembers(Pair(key, value, rest))
  {
    hide Escape, Print;
    WordEscape(key);
    Regroup(sep, key, Print(value), PrintMembers(rest, ","));
  }

  lemma Regroup(sep: string, key: string, value: string, more: string)
    ensures (sep + "") + ("\"" + key + "\"") + (("" + ":" + "") + value + ("" + more)) == sep + Key(key) + value + more
  {
    assert ("\"" + key + "\"") + ("" + ":" + "") == Key(key);
  }

  lemma NoPairs(sep: string)
    ensures PrintMembers(NoMembers, sep) == "" && PrintableMembers(NoMembers)
  {
  }

  lemma DictText(members: Members)
    ensures Print(Dict("", members)) == "{" + PrintMembers(members, "") + "}"
    ensures PrintableMembers(members) ==> Printable(Dict("", members))
  {
  }

  lemma ListText(elems: Elems)
    ensures Print(List("", elems)) == "[" + PrintElems(elems, "") + "]"
    ensures PrintableElems(elems) ==> Printable(List("", elems))
  {
  }

  // ----- the answers to commands -----

  function ResultTree(vs: seq<Json>): Json {
    Dict("", Pair("result", List("", ElemsOf(vs)), NoMembers))
  }

  lemma ResultPrints(vs: seq<Json>)
    requires vs != [] && AllPrintable(vs)
    ensures Printable(ResultTree(vs))
    ensures Print(ResultTree(vs)) == "{\"result\":[" + D.Joined(Texts(vs)) + "]}"
  {
    hide Print, PrintMembers, PrintElems, Printable, AllPrintable, PrintableMembers, PrintableElems, D.Joined,
         Pair, Word, Key;
    var list := List("", ElemsOf(vs));
    PrintList(vs, "");
    ListText(ElemsOf(vs));
    Keywords();
    NoPairs(",");
    PairText("result", list, NoMembers, "");
    DictText(Pair("result", list, NoMembers));
    ResultHead();
    var inner, k := D.Joined(Texts(vs)), Key("result");
    assert "{" + ("" + k + ("[" + ("" + inner) + "]") + "") + "}" == ("{" + k + "[") + inner + "]}";
  }

  lemma ResultHead()
    ensures "{\"result\":[" == "{" + Key("result") + "["
  {
  }

  /** send_result: when every argument is the text of a JSON value, the answer is the object with
      the array of them, and the tokenizer accepts it exactly when it fits the buffer. */
  lemma ResultIsJson(vs: seq<Json>, cap: nat)
    requires vs != [] && AllPrintable(vs) && |Tokens(ResultTree(vs), 0)| <= cap
    ensures var sent := D.ResultText(Texts(vs));
      var fits := |Print(ResultTree(vs))| < D.ROOM;
      && (Run(sent, |sent|, cap, INIT).code == Success <==> fits)
      && (fits ==> Run(sent, |sent|, cap, INIT) == Result(Success, State(|sent|, Tokens(ResultTree(vs), 0), -1)))
  {
    hide Run, Tokens, Print, Printable, AllPrintable, D.Joined;
    ResultPrints(vs);
    assert ResultTree(vs).Dict?;
    CutDocument(ResultTree(vs), D.ROOM, D.ResultText(Texts(vs)), cap);
  }

  function ErrorTree(code: int, message: Json): Json {
    Dict("", Pair("error", Dict("", Pair("code", Literal(Decimal(code)), Pair("message", message, NoMembers))),
      NoMembers))
  }

  lemma {:induction false} DigitsAreLiteral(n: nat)
    ensures Digits(n) != "" && forall c :: c in Digits(n) ==> IsDigit(c)
    decreases n
  {
    if n >= 10 {
      DigitsAreLiteral(n / 10);
    }
  }

  lemma DecimalIsLiteral(n: int)
    ensures LiteralText(Decimal(n))
  {
    hide Digits;
    DigitsAreLiteral(if n < 0 then -n else n);
    var s := Decimal(n);
    assert s[0] in s;
    assert forall c :: c in s ==> c == '-' || IsDigit(c);
  }

  lemma ErrorPrints(code: int, message: Json)
    requires Printable(message)
    ensures Printable(ErrorTree(code, message))
    ensures Print(ErrorTree(code, message)) == "{\"error\":{\"code\":" + Decimal(code) + ",\"message\":"
      + Print(message) + "}}"
  {
    hide Print, Printable, PrintMembers, PrintElems, PrintableMembers, PrintableElems, Pair, Decimal, LiteralText,
         Word, Key;
    var number := Literal(Decimal(code));
    NumberPrints(code);
    NoPairs(",");
    Keywords();
    var second := Pair("message", message, NoMembers);
    PairText("message", message, NoMembers, ",");
    PairText("code", number, second, "");
    var inner := Dict("", Pair("code", number, second));
    DictText(Pair("code", number, second));
    PairText("error", inner, NoMembers, "");
    DictText(Pair("error", inner, NoMembers));
    ErrorHead();
    ErrorText(Key("error"), Key("code"), Decimal(code), Key("message"), Print(message));
  }

  lemma NumberPrints(n: int)
    ensures Print(Literal(Decimal(n))) == Decimal(n) && Printable(Literal(Decimal(n)))
  {
    hide LiteralText, Decimal;
    DecimalIsLiteral(n);
  }

  lemma ErrorHead()
    ensures "{\"error\":{\"code\":" == "{" + Key("error") + "{" + Key("code")
    ensures ",\"message\":" == "," + Key("message")
  {
  }

  lemma ErrorText(e: string, c: string, n: string, m: string, v: string)
    ensures "{" + ("" + e + ("{" + ("" + c + n + ("," + m + v + "")) + "}") + "") + "}"
      == ("{" + e + "{" + c) + n + ("," + m) + v + "}}"
  {
  }

  /** send_error: the same for an error whose message is the text of a JSON value. */
  lemma ErrorIsJson(code: int, message: Json, cap: nat)
    requires Printable(message) && |Tokens(ErrorTree(code, message), 0)| <= cap
    ensures var sent := D.ErrorText(code, Print(message));
      var fits := |Print(ErrorTree(code, message))| < D.ROOM;
      && (Run(sent, |sent|, cap, INIT).code == Success <==> fits)
      && (fits ==> Run(sent, |sent|, cap, INIT) == Result(Success, State(|sent|, Tokens(ErrorTree(code, message),
        0), -1)))
  {
    hide Run, Tokens, Print, Printable, Decimal;
    ErrorPrints(code, message);
    assert ErrorTree(code, message).Dict?;
    CutDocument(ErrorTree(code, message), D.ROOM, D.ErrorText(code, Print(message)), cap);
  }
}
