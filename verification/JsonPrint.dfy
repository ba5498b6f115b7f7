/** Printing a JSON tree and tokenizing what was printed.

    A tree carries its layout: every blank the JSON grammar allows may hold any white space.  A
    string leaf is given by its content, which is written with `Escape` between quotes, or as it is
    spelled between them, with any escapes the tokenizer knows. */
module JsonPrint {
  import opened CText
  import opened Jsmn
  import opened JsmnInvariant
  import opened JsmnResume
  import opened StringEscape

  datatype Json =
    | Literal(lit: string)
    | Text(content: string)
    | Raw(spelling: string)
    | List(blank: string, elems: Elems)
    | Dict(blank: string, members: Members)

  datatype Elems = NoElems | Elem(before: string, value: Json, after: string, rest: Elems)

  datatype Members =
    | NoMembers
    | Member(before: string, key: string, colonBefore: string, colonAfter: string,
             value: Json, after: string, rest: Members)

  // ----- what may be printed -----

  predicate Blank(s: string) {
    forall c :: c in s ==> c == ' ' || c == '\t' || c == '\r' || c == '\n'
  }

  /** Numbers, true, false, null: printable characters that do not end a primitive. */
  predicate LiteralText(s: string) {
    && s != [] && StartsPrimitive(s[0])
    && forall c :: c in s ==> ' ' <= c <= '~' && !Delimits(c)
  }

  predicate ContentText(s: string) {
    '\0' !in s
  }

  /** What may stand between quotes: no bare quote, and every backslash with a letter it may have. */
  predicate SpellingText(s: string) {
    if s == [] then true
    else if s[0] == '\\' then |s| > 1 && Escapable(s[1]) && SpellingText(s[2..])
    else s[0] != '"' && s[0] != '\0' && SpellingText(s[1..])
  }

  ghost predicate Printable(j: Json) {
    match j
    case Literal(lit) => LiteralText(lit)
    case Text(content) => ContentText(content)
    case Raw(spelling) => SpellingText(spelling)
    case List(blank, elems) => Blank(blank) && PrintableElems(elems)
    case Dict(blank, members) => Blank(blank) && PrintableMembers(members)
  }

  ghost predicate PrintableElems(es: Elems) {
    match es
    case NoElems => true
    case Elem(before, value, after, rest) =>
      Blank(before) && Printable(value) && Blank(after) && PrintableElems(rest)
  }

  ghost predicate PrintableMembers(ms: Members) {
    match ms
    case NoMembers => true
    case Member(before, key, cb, ca, value, after, rest) =>
      && Blank(before) && ContentText(key) && Blank(cb) && Blank(ca)
      && Printable(value) && Blank(after) && PrintableMembers(rest)
  }

  // ----- the printer -----

  function Quoted(s: string): string { "\"" + Escape(s) + "\"" }

  function Print(j: Json): (r: string)
    ensures j.List? || j.Dict? ==> r != []
  {
    match j
    case Literal(lit) => lit
    case Text(content) => Quoted(content)
    case Raw(spelling) => "\"" + spelling + "\""
    case List(blank, elems) => "[" + blank + PrintElems(elems, "") + "]"
    case Dict(blank, members) => "{" + blank + PrintMembers(members, "") + "}"
  }

  /** `sep` is what precedes the first element: nothing, or the comma after an earlier one. */
  function PrintElems(es: Elems, sep: string): string {
    match es
    case NoElems => ""
    case Elem(before, value, after, rest) =>
      (sep + before) + Print(value) + (after + PrintElems(rest, ","))
  }

  function PrintMembers(ms: Members, sep: string): string {
    match ms
    case NoMembers => ""
    case Member(before, key, cb, ca, value, after, rest) =>
      (sep + before) + Quoted(key) + ((cb + ":" + ca) + Print(value) + (after + PrintMembers(rest, ",")))
  }

  // ----- the tokens of a tree, by themselves: preorder, with spans and child counts -----

  function ElemCount(es: Elems): nat {
    match es case NoElems => 0 case Elem(_, _, _, rest) => 1 + ElemCount(rest)
  }

  function MemberCount(ms: Members): nat {
    match ms case NoMembers => 0 case Member(_, _, _, _, _, _, rest) => 1 + MemberCount(rest)
  }

  function Tokens(j: Json, at: nat): (r: seq<Token>)
    ensures |r| >= 1
  {
    match j
    case Literal(lit) => [Token(Primitive, 0, at, at + |lit|)]
    case Text(content) => [TextToken(content, at)]
    case Raw(spelling) => [StringToken(|spelling|, at)]
    case List(blank, elems) =>
      [Token(Array, Wrapped(ElemCount(elems)), at, at + |Print(j)|)] + ElemTokens(elems, "", at + 1 + |blank|)
    case Dict(blank, members) =>
      [Token(Object, Wrapped(2 * MemberCount(members)), at, at + |Print(j)|)]
      + MemberTokens(members, "", at + 1 + |blank|)
  }

  function StringToken(n: nat, at: nat): Token {
    Token(String, 0, at + 1, at + 1 + n)
  }

  function TextToken(content: string, at: nat): Token { StringToken(|Escape(content)|, at) }

  function ElemTokens(es: Elems, sep: string, at: nat): seq<Token> {
    match es
    case NoElems => []
    case Elem(before, value, after, rest) =>
      var p := at + |sep + before|;
      Tokens(value, p) + ElemTokens(rest, ",", p + |Print(value)| + |after|)
  }

  function MemberTokens(ms: Members, sep: string, at: nat): seq<Token> {
    match ms
    case NoMembers => []
    case Member(before, key, cb, ca, value, after, rest) =>
      var p := at + |sep + before|;
      var q := p + |Quoted(key)| + |cb + ":" + ca|;
      [TextToken(key, p)] + (Tokens(value, q) + MemberTokens(rest, ",", q + |Print(value)| + |after|))
  }

  // ----- reading one piece of text -----

  /** The text has this piece at p. */
  predicate Has(text: string, p: nat, piece: string) {
    p + |piece| <= |text| && text[p..p + |piece|] == piece
  }

  lemma HasParts(text: string, p: nat, a: string, b: string)
    requires Has(text, p, a + b)
    ensures Has(text, p, a) && Has(text, p + |a|, b)
  {
    assert text[p..p + |a + b|][..|a|] == text[p..p + |a|];
    assert (a + b)[..|a|] == a;
    assert text[p..p + |a + b|][|a|..] == text[p + |a|..p + |a| + |b|];
    assert (a + b)[|a|..] == b;
  }

  lemma HasInside(text: string, p: nat, piece: string)
    requires Has(text, p, piece)
    ensures p + |piece| <= |text|
  {
  }

  lemma HasChar(text: string, p: nat, piece: string, i: nat)
    requires Has(text, p, piece) && i < |piece|
    ensures At(text, p + i) == piece[i]
  {
    assert text[p..p + |piece|][i] == text[p + i];
  }

  /** The string scanner crosses what may stand between quotes and stops at the quote after it. */
  lemma {:induction false} ScanSpelling(text: string, p: nat, s: string)
    requires SpellingText(s) && Has(text, p, s + "\"")
    ensures StringEnd(text, |text|, p) == Found(p + |s|)
    decreases |s|
  {
    hide Has, Escapable;
    if s == [] {
      HasParts(text, p, s, "\"");
      HasChar(text, p, "\"", 0);
    } else {
      var k := if s[0] == '\\' then 2 else 1;
      assert s + "\"" == s[..k] + (s[k..] + "\"");
      HasParts(text, p, s[..k], s[k..] + "\"");
      HasChar(text, p, s[..k], 0);
      if k == 2 {
        HasChar(text, p, s[..2], 1);
      }
      assert StringEnd(text, |text|, p) == StringEnd(text, |text|, p + k);
      ScanSpelling(text, p + k, s[k..]);
    }
  }

  /** What `Escape` writes may stand between quotes. */
  lemma {:induction false} EscapeIsSpelling(s: string)
    requires ContentText(s)
    ensures SpellingText(Escape(s))
    decreases s
  {
    hide EscapeChar, Escapable;
    if s != [] {
      var e := EscapeChar(s[0]);
      EscapeCharForms(s[0]);
      assert s[0] in s && forall c :: c in s[1..] ==> c in s;
      EscapeIsSpelling(s[1..]);
      assert (e + Escape(s[1..]))[|e|..] == Escape(s[1..]);
    }
  }

  /** The primitive scanner crosses a literal and stops at the delimiter after it. */
  lemma {:induction false} ScanLiteral(text: string, p: nat, s: string)
    requires forall c :: c in s ==> ' ' <= c <= '~' && !Delimits(c)
    requires Has(text, p, s) && p + |s| < |text| && Delimits(text[p + |s|])
    ensures PrimitiveEnd(text, |text|, p) == Found(p + |s|)
    decreases s
  {
    hide Has;
    if s != [] {
      var c := s[0];
      assert s == [c] + s[1..] && c in s;
      HasParts(text, p, [c], s[1..]);
      HasChar(text, p, s, 0);
      assert At(text, p) == c && c != '\0';
      assert forall d :: d in s[1..] ==> d in s;
      ScanLiteral(text, p + 1, s[1..]);
    }
  }

  lemma SkipOne(text: string, cap: nat, s: State)
    requires s.Valid() && s.pos < |text| && Skipped(At(text, s.pos))
    ensures Run(text, |text|, cap, s) == Run(text, |text|, cap, s.(pos := s.pos + 1))
  {
    hide LastOpen, StringEnd, PrimitiveEnd;
  }

  /** White space, commas and colons leave everything but the cursor as it was. */
  lemma {:induction false} SkipGap(text: string, cap: nat, s: State, gap: string)
    requires s.Valid() && Has(text, s.pos, gap)
    requires forall c :: c in gap ==> Skipped(c)
    ensures Run(text, |text|, cap, s) == Run(text, |text|, cap, s.(pos := s.pos + |gap|))
    decreases gap
  {
    hide Has, Run, Skipped;
    if gap != [] {
      assert gap == [gap[0]] + gap[1..];
      HasInside(text, s.pos, gap);
      HasParts(text, s.pos, [gap[0]], gap[1..]);
      HasChar(text, s.pos, gap, 0);
      assert gap[0] in gap && forall c :: c in gap[1..] ==> c in gap;
      SkipOne(text, cap, s);
      SkipGap(text, cap, s.(pos := s.pos + 1), gap[1..]);
    }
  }

  // ----- bookkeeping of the token array -----

  ghost predicate AllClosed(ts: seq<Token>) {
    forall i :: 0 <= i < |ts| ==> !ts[i].Open()
  }

  lemma {:induction false} ClosedTail(ts: seq<Token>, us: seq<Token>)
    requires AllClosed(us)
    ensures LastOpen(ts + us, |ts + us|) == LastOpen(ts, |ts|)
  {
    LastOpenBelow(ts + us, |ts + us|, |ts|);
    LastOpenSame(ts, ts + us, |ts|);
  }

  lemma BumpKeepsOpen(ts: seq<Token>, super: int)
    requires -1 <= super < |ts|
    ensures LastOpen(Bump(ts, super), |ts|) == LastOpen(ts, |ts|)
  {
    LastOpenSame(ts, Bump(ts, super), |ts|);
  }

  lemma {:induction false} TokensClosed(j: Json, at: nat)
    ensures AllClosed(Tokens(j, at))
    decreases j
  {
    match j
    case Literal(_) =>
    case Text(_) =>
    case Raw(_) =>
    case List(blank, elems) => ElemTokensClosed(elems, "", at + 1 + |blank|);
    case Dict(blank, members) => MemberTokensClosed(members, "", at + 1 + |blank|);
  }

  lemma {:induction false} ElemTokensClosed(es: Elems, sep: string, at: nat)
    ensures AllClosed(ElemTokens(es, sep, at))
    decreases es
  {
    match es
    case NoElems =>
    case Elem(before, value, after, rest) =>
      var p := at + |sep + before|;
      TokensClosed(value, p);
      ElemTokensClosed(rest, ",", p + |Print(value)| + |after|);
  }

  lemma {:induction false} MemberTokensClosed(ms: Members, sep: string, at: nat)
    ensures AllClosed(MemberTokens(ms, sep, at))
    decreases ms
  {
    match ms
    case NoMembers =>
    case Member(before, key, cb, ca, value, after, rest) =>
      var q := at + |sep + before| + |Quoted(key)| + |cb + ":" + ca|;
      TokensClosed(value, q);
      MemberTokensClosed(rest, ",", q + |Print(value)| + |after|);
  }

  // ----- reading a tree -----

  /** The parser stands at p with these tokens, in step with its own superior token. */
  ghost predicate Standing(s: State) {
    s.Valid() && s.super == LastOpen(s.tokens, |s.tokens|)
  }

  /** After a subtree of tokens `us`: the superior token counts one more child. */
  function After(s: State, us: seq<Token>, pos: nat): State
    requires s.Valid()
  {
    State(pos, Bump(s.tokens, s.super) + us, s.super)
  }

  lemma AfterStands(s: State, us: seq<Token>, pos: nat)
    requires Standing(s) && AllClosed(us)
    ensures Standing(After(s, us, pos))
  {
    BumpKeepsOpen(s.tokens, s.super);
    ClosedTail(Bump(s.tokens, s.super), us);
  }

  lemma ConsumeRaw(text: string, cap: nat, s: State, spelling: string)
    requires s.Valid() && SpellingText(spelling) && Has(text, s.pos, "\"" + spelling + "\"") && |s.tokens| < cap
    ensures !AtEnd(text, |text|, s.pos)
    ensures Consume(text, |text|, cap, s)
      == Advance(After(s, [StringToken(|spelling|, s.pos)], s.pos + |spelling| + 2))
  {
    hide Has, SpellingText, StringEnd, PrimitiveEnd, LastOpen;
    assert "\"" + spelling + "\"" == "\"" + (spelling + "\"");
    HasParts(text, s.pos, "\"", spelling + "\"");
    HasChar(text, s.pos, "\"", 0);
    ScanSpelling(text, s.pos + 1, spelling);
  }

  lemma ReadRaw(text: string, cap: nat, s: State, spelling: string)
    requires s.Valid() && SpellingText(spelling) && Has(text, s.pos, "\"" + spelling + "\"") && |s.tokens| < cap
    ensures Run(text, |text|, cap, s)
      == Run(text, |text|, cap, After(s, [StringToken(|spelling|, s.pos)], s.pos + |spelling| + 2))
  {
    hide Consume, LastOpen, Has, StringToken, After, SpellingText;
    ConsumeRaw(text, cap, s, spelling);
  }

  lemma ReadText(text: string, cap: nat, s: State, content: string)
    requires s.Valid() && ContentText(content) && Has(text, s.pos, Quoted(content)) && |s.tokens| < cap
    ensures Run(text, |text|, cap, s)
      == Run(text, |text|, cap, After(s, [TextToken(content, s.pos)], s.pos + |Quoted(content)|))
  {
    hide Run, LastOpen, Has, After, Escape, SpellingText;
    EscapeIsSpelling(content);
    ReadRaw(text, cap, s, Escape(content));
  }

  lemma ReadLiteral(text: string, cap: nat, s: State, lit: string)
    requires s.Valid() && LiteralText(lit) && Has(text, s.pos, lit) && |s.tokens| < cap
    requires s.pos + |lit| < |text| && Delimits(text[s.pos + |lit|])
    ensures Run(text, |text|, cap, s)
      == Run(text, |text|, cap, After(s, [Token(Primitive, 0, s.pos, s.pos + |lit|)], s.pos + |lit|))
  {
    hide Has, PrimitiveEnd, StringEnd, LastOpen;
    HasChar(text, s.pos, lit, 0);
    ScanLiteral(text, s.pos, lit);
  }

  // ----- containers -----

  function BumpBy(ts: seq<Token>, super: int, k: nat): (r: seq<Token>)
    requires -1 <= super < |ts|
    ensures |r| == |ts|
    decreases k
  {
    if k == 0 then ts else BumpBy(Bump(ts, super), super, k - 1)
  }

  lemma {:induction false} BumpByAppend(ts: seq<Token>, us: seq<Token>, super: nat, k: nat)
    requires super < |ts|
    ensures BumpBy(ts + us, super, k) == BumpBy(ts, super, k) + us
    decreases k
  {
    if k > 0 {
      assert Bump(ts + us, super) == Bump(ts, super) + us;
      BumpByAppend(Bump(ts, super), us, super, k - 1);
    }
  }

  lemma {:induction false} BumpByCounts(base: seq<Token>, t: Token, have: nat, k: nat)
    requires t.size == Wrapped(have)
    ensures BumpBy(base + [t], |base|, k) == base + [t.(size := Wrapped(have + k))]
    decreases k
  {
    if k > 0 {
      IncrementWraps(have);
      assert Bump(base + [t], |base|) == base + [t.(size := Wrapped(have + 1))];
      BumpByCounts(base, t.(size := Wrapped(have + 1)), have + 1, k - 1);
    } else {
      assert t.(size := t.size) == t;
    }
  }

  /** The container is open, `us` holds what was read in it and k its children. */
  function Inside(s: State, kind: Kind, us: seq<Token>, k: nat, pos: nat): State
    requires s.Valid()
  {
    State(pos, Bump(s.tokens, s.super) + [Token(kind, Wrapped(k), s.pos, -1)] + us, |s.tokens|)
  }

  lemma InsideStands(s: State, kind: Kind, us: seq<Token>, k: nat, pos: nat)
    requires s.Valid() && AllClosed(us)
    ensures Standing(Inside(s, kind, us, k, pos))
  {
    ClosedTail(Bump(s.tokens, s.super) + [Token(kind, Wrapped(k), s.pos, -1)], us);
  }

  lemma ReadOpen(text: string, cap: nat, s: State, kind: Kind)
    requires s.Valid() && |s.tokens| < cap
    requires At(text, s.pos) == (if kind == Object then '{' else '[') && kind in {Object, Array}
    requires s.pos < |text|
    ensures Run(text, |text|, cap, s) == Run(text, |text|, cap, Inside(s, kind, [], 0, s.pos + 1))
  {
    var next := Inside(s, kind, [], 0, s.pos + 1);
    assert next.tokens == Bump(s.tokens, s.super) + [Token(kind, 0, s.pos, -1)];
    assert Consume(text, |text|, cap, s) == Advance(next);
  }

  lemma ReadClose(text: string, cap: nat, s: State, kind: Kind, us: seq<Token>, k: nat, pos: nat)
    requires Standing(s) && AllClosed(us) && kind in {Object, Array}
    requires pos < |text| && At(text, pos) == if kind == Object then '}' else ']'
    ensures Run(text, |text|, cap, Inside(s, kind, us, k, pos))
      == Run(text, |text|, cap, After(s, [Token(kind, Wrapped(k), s.pos, pos + 1)] + us, pos + 1))
  {
    var base, n := Bump(s.tokens, s.super), |s.tokens|;
    var open := Token(kind, Wrapped(k), s.pos, -1);
    var t := Inside(s, kind, us, k, pos);
    InsideStands(s, kind, us, k, pos);
    var closed := t.tokens[n := open.(end := pos + 1)];
    assert closed == base + ([Token(kind, Wrapped(k), s.pos, pos + 1)] + us);
    LastOpenPrefix(closed, base, n);
    BumpKeepsOpen(s.tokens, s.super);
    assert Consume(text, |text|, cap, t) == CloseContainer(t, kind);
  }

  /** k more children of the superior token, with tokens us. */
  function Many(s: State, us: seq<Token>, k: nat, pos: nat): State
    requires s.Valid()
  {
    State(pos, BumpBy(s.tokens, s.super, k) + us, s.super)
  }

  lemma ManyNone(s: State)
    requires s.Valid()
    ensures Many(s, [], 0, s.pos) == s
  {
  }

  /** A first child with its tokens, then the rest, are together one batch. */
  lemma ManyMore(s: State, us: seq<Token>, p: nat, p': nat, vs: seq<Token>, k: nat, q: nat)
    requires s.Valid() && s.super != -1
    ensures After(s, us, p).(pos := p').Valid()
    ensures Many(After(s, us, p).(pos := p'), vs, k, q) == Many(s, us + vs, k + 1, q)
  {
    BumpByAppend(Bump(s.tokens, s.super), us, s.super, k);
    assert BumpBy(Bump(s.tokens, s.super), s.super, k) + us + vs
      == BumpBy(Bump(s.tokens, s.super), s.super, k) + (us + vs);
  }

  /** After a value inside a container comes white space, a comma or the closing bracket. */
  predicate Follows(text: string, p: nat) {
    p < |text| && Delimits(text[p])
  }

  lemma GapFollows(text: string, p: nat, after: string, rest: string)
    requires Blank(after) && Has(text, p, after + rest)
    requires rest != [] && Delimits(rest[0])
    ensures Follows(text, p)
  {
    HasChar(text, p, after + rest, 0);
    if after != [] {
      assert after[0] in after;
    }
  }

  // ----- the theorem, by recursion on the tree -----

  lemma {:induction false} ReadValue(text: string, cap: nat, s: State, j: Json)
    requires Standing(s) && Printable(j) && Has(text, s.pos, Print(j))
    requires j.Literal? ==> Follows(text, s.pos + |Print(j)|)
    requires |s.tokens| + |Tokens(j, s.pos)| <= cap
    ensures Run(text, |text|, cap, s)
      == Run(text, |text|, cap, After(s, Tokens(j, s.pos), s.pos + |Print(j)|))
    decreases j, 1
  {
    hide Run, Has, PrintElems, PrintMembers, ElemTokens, MemberTokens, Escape, LastOpen, Bump;
    match j
    case Literal(lit) => ReadLiteral(text, cap, s, lit);
    case Text(content) => ReadText(text, cap, s, content);
    case Raw(spelling) => ReadRaw(text, cap, s, spelling);
    case List(blank, elems) => ReadList(text, cap, s, j);
    case Dict(blank, members) => ReadDict(text, cap, s, j);
  }

  lemma ListShape(j: Json, at: nat)
    requires j.List?
    ensures var body := PrintElems(j.elems, "");
      && Print(j) == "[" + (j.blank + (body + "]"))
      && Tokens(j, at)
        == [Token(Array, Wrapped(ElemCount(j.elems)), at, at + 1 + |j.blank| + |body| + 1)]
           + ElemTokens(j.elems, "", at + 1 + |j.blank|)
  {
    hide PrintElems, ElemTokens;
    assert Print(j) == "[" + (j.blank + (PrintElems(j.elems, "") + "]"));
  }

  lemma DictShape(j: Json, at: nat)
    requires j.Dict?
    ensures var body := PrintMembers(j.members, "");
      && Print(j) == "{" + (j.blank + (body + "}"))
      && Tokens(j, at)
        == [Token(Object, Wrapped(2 * MemberCount(j.members)), at, at + 1 + |j.blank| + |body| + 1)]
           + MemberTokens(j.members, "", at + 1 + |j.blank|)
  {
    hide PrintMembers, MemberTokens;
    assert Print(j) == "{" + (j.blank + (PrintMembers(j.members, "") + "}"));
  }

  /** From the opening to the closing bracket, given that what stands between them is read as k
      children with tokens us. */
  lemma ReadContainer(text: string, cap: nat, s: State, kind: Kind, blank: string, us: seq<Token>, k: nat, q: nat)
    requires Standing(s) && kind in {Object, Array} && |s.tokens| < cap && AllClosed(us)
    requires s.pos < |text| && At(text, s.pos) == (if kind == Object then '{' else '[')
    requires Blank(blank) && Has(text, s.pos + 1, blank)
    requires q < |text| && At(text, q) == if kind == Object then '}' else ']'
    requires var s2 := Inside(s, kind, [], 0, s.pos + 1 + |blank|);
      Standing(s2) ==> Run(text, |text|, cap, s2) == Run(text, |text|, cap, Many(s2, us, k, q))
    ensures Run(text, |text|, cap, s)
      == Run(text, |text|, cap, After(s, [Token(kind, Wrapped(k), s.pos, q + 1)] + us, q + 1))
  {
    hide Run, Has, Many, AllClosed, LastOpen, Bump, BumpBy;
    ReadOpen(text, cap, s, kind);
    BlankIsSkipped(blank);
    SkipGap(text, cap, Inside(s, kind, [], 0, s.pos + 1), blank);
    NoTokensClosed();
    InsideStands(s, kind, [], 0, s.pos + 1 + |blank|);
    InsideMany(s, kind, us, k, s.pos + 1 + |blank|, q);
    ReadClose(text, cap, s, kind, us, k, q);
  }

  lemma NoTokensClosed()
    ensures AllClosed([])
  {
  }

  lemma {:induction false} ReadList(text: string, cap: nat, s: State, j: Json)
    requires Standing(s) && j.List? && Printable(j) && Has(text, s.pos, Print(j))
    requires |s.tokens| + |Tokens(j, s.pos)| <= cap
    ensures Run(text, |text|, cap, s)
      == Run(text, |text|, cap, After(s, Tokens(j, s.pos), s.pos + |Print(j)|))
    decreases j, 0
  {
    hide Run, Has, Bump, LastOpen, Print, Tokens, AllClosed, Many, ElemTokens, PrintElems, ElemCount, SpellingText;
    ListShape(j, s.pos);
    var body := PrintElems(j.elems, "");
    var p := s.pos + 1 + |j.blank|;
    HasParts(text, s.pos, "[", j.blank + (body + "]"));
    HasChar(text, s.pos, "[", 0);
    HasParts(text, s.pos + 1, j.blank, body + "]");
    HasParts(text, p, body, "]");
    HasChar(text, p + |body|, "]", 0);
    var s2 := Inside(s, Array, [], 0, p);
    if Standing(s2) {
      ReadElems(text, cap, s2, j.elems, "");
    }
    ElemTokensClosed(j.elems, "", p);
    ReadContainer(text, cap, s, Array, j.blank, ElemTokens(j.elems, "", p), ElemCount(j.elems), p + |body|);
  }

  lemma {:induction false} ReadDict(text: string, cap: nat, s: State, j: Json)
    requires Standing(s) && j.Dict? && Printable(j) && Has(text, s.pos, Print(j))
    requires |s.tokens| + |Tokens(j, s.pos)| <= cap
    ensures Run(text, |text|, cap, s)
      == Run(text, |text|, cap, After(s, Tokens(j, s.pos), s.pos + |Print(j)|))
    decreases j, 0
  {
    hide Run, Has, Bump, LastOpen, Print, Tokens, AllClosed, Many, MemberTokens, PrintMembers, MemberCount,
         SpellingText;
    DictShape(j, s.pos);
    var body := PrintMembers(j.members, "");
    var p := s.pos + 1 + |j.blank|;
    HasParts(text, s.pos, "{", j.blank + (body + "}"));
    HasChar(text, s.pos, "{", 0);
    HasParts(text, s.pos + 1, j.blank, body + "}");
    HasParts(text, p, body, "}");
    HasChar(text, p + |body|, "}", 0);
    var s2 := Inside(s, Object, [], 0, p);
    if Standing(s2) {
      ReadMembers(text, cap, s2, j.members, "");
    }
    MemberTokensClosed(j.members, "", p);
    ReadContainer(text, cap, s, Object, j.blank, MemberTokens(j.members, "", p), 2 * MemberCount(j.members), p + |body|);
  }

  lemma InsideMany(s: State, kind: Kind, us: seq<Token>, k: nat, p: nat, q: nat)
    requires s.Valid()
    ensures Many(Inside(s, kind, [], 0, p), us, k, q) == Inside(s, kind, us, k, q)
  {
    var base := Bump(s.tokens, s.super);
    BumpByCounts(base, Token(kind, 0, s.pos, -1), 0, k);
    assert Inside(s, kind, [], 0, p).tokens == base + [Token(kind, 0, s.pos, -1)];
  }

  lemma BlankIsSkipped(s: string)
    requires Blank(s)
    ensures forall c :: c in s ==> Skipped(c)
  {
  }

  lemma {:induction false} ReadElems(text: string, cap: nat, s: State, es: Elems, sep: string)
    requires Standing(s) && s.super != -1 && PrintableElems(es) && (sep == "" || sep == ",")
    requires Has(text, s.pos, PrintElems(es, sep) + "]")
    requires |s.tokens| + |ElemTokens(es, sep, s.pos)| <= cap
    ensures Run(text, |text|, cap, s)
      == Run(text, |text|, cap, Many(s, ElemTokens(es, sep, s.pos), ElemCount(es), s.pos + |PrintElems(es, sep)|))
    decreases es, 0
  {
    hide Run, Has, Bump, LastOpen, Escape, AllClosed, Tokens, Print, BumpBy, Printable;
    match es
    case NoElems =>
      ManyNone(s);
    case Elem(before, value, after, rest) =>
      var tail := PrintElems(rest, ",") + "]";
      var p := s.pos + |sep + before|;
      var p2 := p + |Print(value)| + |after|;
      var us := Tokens(value, p);
      assert PrintElems(es, sep) + "]" == (sep + before) + (Print(value) + (after + tail));
      assert tail[0] == ',' || tail[0] == ']';
      ReadOne(text, cap, s, sep + before, value, after, tail);
      ReadElems(text, cap, After(s, us, p2), rest, ",");
      ManyMore(s, us, p2, p2, ElemTokens(rest, ",", p2), ElemCount(rest), s.pos + |PrintElems(es, sep)|);
  }

  lemma {:induction false} ReadMembers(text: string, cap: nat, s: State, ms: Members, sep: string)
    requires Standing(s) && s.super != -1 && PrintableMembers(ms) && (sep == "" || sep == ",")
    requires Has(text, s.pos, PrintMembers(ms, sep) + "}")
    requires |s.tokens| + |MemberTokens(ms, sep, s.pos)| <= cap
    ensures Run(text, |text|, cap, s)
      == Run(text, |text|, cap,
             Many(s, MemberTokens(ms, sep, s.pos), 2 * MemberCount(ms), s.pos + |PrintMembers(ms, sep)|))
    decreases ms, 0
  {
    hide Run, Has, Bump, LastOpen, Escape, AllClosed, Tokens, Print, BumpBy, Printable, TextToken, Quoted;
    hide Many, Blank;
    match ms
    case NoMembers =>
      ManyNone(s);
    case Member(before, key, cb, ca, value, after, rest) =>
      BlankIsSkipped(before);
      BlankIsSkipped(cb);
      BlankIsSkipped(ca);
      var tail := PrintMembers(rest, ",") + "}";
      var gap := cb + ":" + ca;
      var p := s.pos + |sep + before|;
      var q := p + |Quoted(key)| + |gap|;
      var p2 := q + |Print(value)| + |after|;
      MemberText(ms, sep, tail);
      assert tail[0] == ',' || tail[0] == '}';
      var next := ReadMember(text, cap, s, sep + before, key, gap, value, after, tail);
      ReadMembers(text, cap, next, rest, ",");
      ManyPair(s, [TextToken(key, p)], p + |Quoted(key)|, Tokens(value, q), p2,
               MemberTokens(rest, ",", p2), 2 * MemberCount(rest), s.pos + |PrintMembers(ms, sep)|);
  }

  lemma MemberText(ms: Members, sep: string, tail: string)
    requires ms.Member? && tail == PrintMembers(ms.rest, ",") + "}"
    ensures PrintMembers(ms, sep) + "}" == (sep + ms.before) + (Quoted(ms.key)
      + ((ms.colonBefore + ":" + ms.colonAfter) + (Print(ms.value) + (ms.after + tail))))
  {
    hide Quoted, Print;
  }

  lemma ManyPair(s: State, us: seq<Token>, p: nat, vs: seq<Token>, q: nat, ws: seq<Token>, k: nat, end: nat)
    requires s.Valid() && s.super != -1
    ensures Many(After(After(s, us, p), vs, q), ws, k, end) == Many(s, us + (vs + ws), k + 2, end)
  {
    ManyMore(After(s, us, p), vs, q, q, ws, k, end);
    ManyMore(s, us, p, p, vs + ws, k + 1, end);
  }

  lemma {:induction false} ReadMember(text: string, cap: nat, s: State, before: string, key: string,
                                      gap: string, value: Json, after: string, tail: string) returns (next: State)
    requires Standing(s) && ContentText(key) && Printable(value) && Blank(after)
    requires forall c :: c in before || c in gap ==> Skipped(c)
    requires Has(text, s.pos, before + (Quoted(key) + (gap + (Print(value) + (after + tail)))))
    requires tail != [] && Delimits(tail[0])
    requires |s.tokens| + 1 + |Tokens(value, s.pos + |before| + |Quoted(key)| + |gap|)| <= cap
    ensures var p := s.pos + |before|;
      var q := p + |Quoted(key)| + |gap|;
      next == After(After(s, [TextToken(key, p)], p + |Quoted(key)|), Tokens(value, q), q + |Print(value)| + |after|)
    ensures Run(text, |text|, cap, s) == Run(text, |text|, cap, next)
    ensures Standing(next) && Has(text, next.pos, tail)
    decreases value, 3
  {
    hide Run, Has, Bump, LastOpen, Escape, Tokens, Print, Printable, TextToken, Quoted;
    var p := s.pos + |before|;
    ReadKey(text, cap, s, before, key, gap + (Print(value) + (after + tail)));
    var s1 := After(s, [TextToken(key, p)], p + |Quoted(key)|);
    ReadOne(text, cap, s1, gap, value, after, tail);
    var q := s1.pos + |gap|;
    next := After(s1, Tokens(value, q), q + |Print(value)| + |after|);
  }

  lemma ReadKey(text: string, cap: nat, s: State, gap: string, key: string, tail: string)
    requires Standing(s) && ContentText(key) && forall c :: c in gap ==> Skipped(c)
    requires Has(text, s.pos, gap + (Quoted(key) + tail)) && |s.tokens| < cap
    ensures var p := s.pos + |gap|;
      var next := After(s, [TextToken(key, p)], p + |Quoted(key)|);
      && Run(text, |text|, cap, s) == Run(text, |text|, cap, next)
      && Standing(next) && Has(text, next.pos, tail)
  {
    hide Run, Has, Bump, LastOpen, Escape, Quoted;
    var p := s.pos + |gap|;
    HasParts(text, s.pos, gap, Quoted(key) + tail);
    SkipGap(text, cap, s, gap);
    HasParts(text, p, Quoted(key), tail);
    ReadText(text, cap, s.(pos := p), key);
    AfterStands(s, [TextToken(key, p)], p + |Quoted(key)|);
  }

  /** A value with what stands around it, and something delimiting behind. */
  lemma {:induction false} ReadOne(text: string, cap: nat, s: State, gap: string, value: Json, after: string,
                                   tail: string)
    requires Standing(s) && Printable(value) && Blank(after) && forall c :: c in gap ==> Skipped(c)
    requires Has(text, s.pos, gap + (Print(value) + (after + tail)))
    requires tail != [] && Delimits(tail[0])
    requires |s.tokens| + |Tokens(value, s.pos + |gap|)| <= cap
    ensures var p := s.pos + |gap|;
      var next := After(s, Tokens(value, p), p + |Print(value)| + |after|);
      && Run(text, |text|, cap, s) == Run(text, |text|, cap, next)
      && Standing(next) && Has(text, next.pos, tail)
    decreases value, 2
  {
    hide Run, Has, Bump, LastOpen, Escape, AllClosed, Tokens, Print, Printable;
    var p := s.pos + |gap|;
    var p1 := p + |Print(value)|;
    var us := Tokens(value, p);
    HasParts(text, s.pos, gap, Print(value) + (after + tail));
    SkipGap(text, cap, s, gap);
    HasParts(text, p, Print(value), after + tail);
    GapFollows(text, p1, after, tail);
    ReadValue(text, cap, s.(pos := p), value);
    TokensClosed(value, p);
    AfterStands(s, us, p1);
    HasParts(text, p1, after, tail);
    SkipGap(text, cap, After(s, us, p1), after);
  }

  // ----- a whole document -----

  /** A bare literal with nothing behind it is the one document the strict build never finishes. */
  predicate Finishes(j: Json, trail: string) {
    j.Literal? ==> trail != ""
  }

  lemma {:induction false} ScanToEnd(text: string, p: nat, s: string)
    requires forall c :: c in s ==> ' ' <= c <= '~' && !Delimits(c)
    requires Has(text, p, s) && p + |s| == |text|
    ensures PrimitiveEnd(text, |text|, p) == Truncated
    decreases s
  {
    if s != [] {
      assert s == [s[0]] + s[1..];
      HasParts(text, p, [s[0]], s[1..]);
      HasChar(text, p, s, 0);
      assert forall c :: c in s[1..] ==> c in s;
      ScanToEnd(text, p + 1, s[1..]);
    }
  }

  lemma DocumentParts(lead: string, body: string, trail: string)
    ensures var text := lead + body + trail;
      Has(text, 0, lead) && Has(text, |lead|, body) && Has(text, |lead| + |body|, trail)
  {
  }

  lemma ReadDocument(text: string, cap: nat, s: State, j: Json, trail: string)
    requires s.tokens == [] && s.super == -1 && Printable(j) && Blank(trail)
    requires Has(text, s.pos, Print(j)) && Has(text, s.pos + |Print(j)|, trail)
    requires |text| == s.pos + |Print(j)| + |trail| && Finishes(j, trail)
    requires |Tokens(j, s.pos)| <= cap
    ensures Run(text, |text|, cap, s) == Result(Success, State(|text|, Tokens(j, s.pos), -1))
  {
    hide Tokens, Print, Printable, Consume, Has;
    var p := s.pos + |Print(j)|;
    if trail != "" {
      HasChar(text, p, trail, 0);
      assert trail[0] in trail;
    }
    ReadValue(text, cap, s, j);
    var us := Tokens(j, s.pos);
    assert After(s, us, p) == State(p, us, -1);
    BlankIsSkipped(trail);
    SkipGap(text, cap, State(p, us, -1), trail);
    TokensClosed(j, s.pos);
    ClosedTail([], us);
    assert [] + us == us;
  }

  /** Tokenizing a printed document gives exactly the preorder of its tree, or, for a bare literal
      that the text ends with, asks for more input with no token taken. */
  lemma PrintThenParse(lead: string, j: Json, trail: string, cap: nat)
    requires Blank(lead) && Printable(j) && Blank(trail)
    requires |Tokens(j, |lead|)| <= cap
    ensures var text := lead + Print(j) + trail;
      Run(text, |text|, cap, INIT) ==
        if Finishes(j, trail) then Result(Success, State(|text|, Tokens(j, |lead|), -1))
        else Result(Part, State(|lead|, [], -1))
  {
    hide Run, Has, Tokens;
    var text := lead + Print(j) + trail;
    DocumentParts(lead, Print(j), trail);
    BlankIsSkipped(lead);
    SkipGap(text, cap, INIT, lead);
    var s := State(|lead|, [], -1);
    if Finishes(j, trail) {
      ReadDocument(text, cap, s, j, trail);
    } else {
      BareLiteral(text, cap, s, j.lit);
    }
  }

  lemma BareLiteral(text: string, cap: nat, s: State, lit: string)
    requires s.Valid() && LiteralText(lit) && Has(text, s.pos, lit) && s.pos + |lit| == |text|
    ensures Run(text, |text|, cap, s) == Result(Part, s)
  {
    HasChar(text, s.pos, lit, 0);
    ScanToEnd(text, s.pos, lit);
  }

  /** With a token array too small for the tree, the call stops for lack of room. */
  lemma PrintThenParseNoRoom(lead: string, j: Json, trail: string, cap: nat)
    requires Blank(lead) && Printable(j) && Blank(trail) && Finishes(j, trail)
    requires cap < |Tokens(j, |lead|)|
    ensures var text := lead + Print(j) + trail; Run(text, |text|, cap, INIT).code == NoMem
  {
    var text := lead + Print(j) + trail;
    var enough := |Tokens(j, |lead|)|;
    PrintThenParse(lead, j, trail, enough);
    RoomDecides(text, |text|, cap, enough, INIT);
  }

  // ----- the string leaves come back -----

  /** What stands in the text for each token, in the same order, if it is a string. */
  function Spellings(j: Json): seq<Option<string>> {
    match j
    case Literal(_) => [None]
    case Text(content) => [Some(Escape(content))]
    case Raw(spelling) => [Some(spelling)]
    case List(_, elems) => [None] + ElemSpellings(elems)
    case Dict(_, members) => [None] + MemberSpellings(members)
  }

  function ElemSpellings(es: Elems): seq<Option<string>> {
    match es
    case NoElems => []
    case Elem(_, value, _, rest) => Spellings(value) + ElemSpellings(rest)
  }

  function MemberSpellings(ms: Members): seq<Option<string>> {
    match ms
    case NoMembers => []
    case Member(_, key, _, _, value, _, rest) => [Some(Escape(key))] + (Spellings(value) + MemberSpellings(rest))
  }

  /** Each string token spans its spelling, and only string tokens have one. */
  ghost predicate Spans(text: string, ts: seq<Token>, cs: seq<Option<string>>) {
    && |ts| == |cs|
    && forall k :: 0 <= k < |ts| ==>
      && (ts[k].kind == String <==> cs[k].Some?)
      && (cs[k].Some? ==> 0 <= ts[k].start && ts[k].end == ts[k].start + |cs[k].value|
                          && Has(text, ts[k].start, cs[k].value))
  }

  lemma SpansConcat(text: string, a: seq<Token>, ac: seq<Option<string>>, b: seq<Token>, bc: seq<Option<string>>)
    requires Spans(text, a, ac) && Spans(text, b, bc)
    ensures Spans(text, a + b, ac + bc)
  {
  }

  lemma RawSpans(text: string, at: nat, spelling: string)
    requires Has(text, at, "\"" + spelling + "\"")
    ensures Spans(text, [StringToken(|spelling|, at)], [Some(spelling)])
  {
    hide Has;
    assert "\"" + spelling + "\"" == "\"" + (spelling + "\"");
    HasParts(text, at, "\"", spelling + "\"");
    HasParts(text, at + 1, spelling, "\"");
  }

  lemma TextSpans(text: string, at: nat, content: string)
    requires Has(text, at, Quoted(content))
    ensures Spans(text, [TextToken(content, at)], [Some(Escape(content))])
  {
    hide Has, Escape, Spans;
    RawSpans(text, at, Escape(content));
  }

  lemma {:induction false} TokensSpan(text: string, at: nat, j: Json)
    requires Has(text, at, Print(j))
    ensures Spans(text, Tokens(j, at), Spellings(j))
    decreases j
  {
    hide Has, Spans, PrintElems, PrintMembers, ElemTokens, MemberTokens, Quoted;
    match j
    case Literal(_) =>
      NoStringSpans(text, Tokens(j, at)[0]);
    case Text(content) =>
      TextSpans(text, at, content);
    case Raw(spelling) =>
      RawSpans(text, at, spelling);
    case List(blank, elems) =>
      ListShape(j, at);
      BodyPart(text, at, "[", blank, PrintElems(elems, ""), "]");
      var us := ElemTokens(elems, "", at + 1 + |blank|);
      ElemTokensSpan(text, at + 1 + |blank|, elems, "");
      ContainerSpans(text, Tokens(j, at)[0], us, ElemSpellings(elems));
    case Dict(blank, members) =>
      DictShape(j, at);
      BodyPart(text, at, "{", blank, PrintMembers(members, ""), "}");
      var us := MemberTokens(members, "", at + 1 + |blank|);
      MemberTokensSpan(text, at + 1 + |blank|, members, "");
      ContainerSpans(text, Tokens(j, at)[0], us, MemberSpellings(members));
  }

  lemma BodyPart(text: string, at: nat, open: string, blank: string, body: string, close: string)
    requires Has(text, at, open + (blank + (body + close)))
    ensures Has(text, at + |open| + |blank|, body)
  {
    hide Has;
    HasParts(text, at, open, blank + (body + close));
    HasParts(text, at + |open|, blank, body + close);
    HasParts(text, at + |open| + |blank|, body, close);
  }

  lemma ContainerSpans(text: string, t: Token, us: seq<Token>, cs: seq<Option<string>>)
    requires t.kind != String && Spans(text, us, cs)
    ensures Spans(text, [t] + us, [None] + cs)
  {
    NoStringSpans(text, t);
    SpansConcat(text, [t], [None], us, cs);
  }

  lemma NoStringSpans(text: string, t: Token)
    requires t.kind != String
    ensures Spans(text, [t], [None])
  {
  }

  lemma {:induction false} ElemTokensSpan(text: string, at: nat, es: Elems, sep: string)
    requires Has(text, at, PrintElems(es, sep))
    ensures Spans(text, ElemTokens(es, sep, at), ElemSpellings(es))
    decreases es
  {
    hide Has, Tokens, Print;
    match es
    case NoElems =>
    case Elem(before, value, after, rest) =>
      hide Spans;
      var p := at + |sep + before|;
      var p2 := p + |Print(value)| + |after|;
      HasParts(text, at, (sep + before) + Print(value), after + PrintElems(rest, ","));
      HasParts(text, at, sep + before, Print(value));
      HasParts(text, p + |Print(value)|, after, PrintElems(rest, ","));
      TokensSpan(text, p, value);
      ElemTokensSpan(text, p2, rest, ",");
      SpansConcat(text, Tokens(value, p), Spellings(value), ElemTokens(rest, ",", p2), ElemSpellings(rest));
  }

  lemma {:induction false} MemberTokensSpan(text: string, at: nat, ms: Members, sep: string)
    requires Has(text, at, PrintMembers(ms, sep))
    ensures Spans(text, MemberTokens(ms, sep, at), MemberSpellings(ms))
    decreases ms
  {
    hide Has, Tokens, Print, Quoted, TextToken;
    match ms
    case NoMembers =>
    case Member(before, key, cb, ca, value, after, rest) =>
      hide Spans;
      var gap, tail := cb + ":" + ca, after + PrintMembers(rest, ",");
      var p := at + |sep + before|;
      var q := p + |Quoted(key)| + |gap|;
      var p2 := q + |Print(value)| + |after|;
      HasParts(text, at, (sep + before) + Quoted(key), gap + Print(value) + tail);
      HasParts(text, at, sep + before, Quoted(key));
      HasParts(text, p + |Quoted(key)|, gap + Print(value), tail);
      HasParts(text, p + |Quoted(key)|, gap, Print(value));
      HasParts(text, q + |Print(value)|, after, PrintMembers(rest, ","));
      TextSpans(text, p, key);
      TokensSpan(text, q, value);
      MemberTokensSpan(text, p2, rest, ",");
      SpansConcat(text, Tokens(value, q), Spellings(value), MemberTokens(rest, ",", p2), MemberSpellings(rest));
      SpansConcat(text, [TextToken(key, p)], [Some(Escape(key))],
                  Tokens(value, q) + MemberTokens(rest, ",", p2), Spellings(value) + MemberSpellings(rest));
  }

  /** jsmn_tkn2val_str on one token: NOTFOUND (here false) unless it is a string. */
  method TokenText(text: string, t: Token, dst: array<char>) returns (found: bool, n: nat)
    requires dst.Length >= 1
    requires t.kind == String ==> 0 <= t.start <= t.end <= |text|
    modifies dst
    ensures found <==> t.kind == String
    ensures !found ==> n == 0 && dst[..] == old(dst[..])
    ensures found ==> n < dst.Length && dst[n] == '\0'
    ensures found ==> dst[..n] == Unescape(text[t.start..], t.end - t.start, 0, old(dst[..dst.Length - 1]))
  {
    if t.kind != String {
      return false, 0;
    }
    n := UnescapeToBuf(text[t.start..], t.end - t.start, dst);
    found := true;
  }

  /** The characters of a token are `spelling`, and reading it over `stale` bytes reads just that; in
      particular what was written for a content gives it back, or as much of it as fits. */
  ghost predicate ReadsBack(text: string, t: Token, spelling: string, stale: string) {
    && 0 <= t.start <= t.end <= |text| && text[t.start..t.end] == spelling
    && var read := Unescape(text[t.start..], t.end - t.start, 0, stale);
    && (SpellingText(spelling) ==> read == Unescape(spelling, |spelling|, 0, stale))
    && forall content :: Escape(content) == spelling ==>
      read == if |content| <= |stale| then content else content[..|stale|]
  }

  /** No escape of a well-spelled string reaches behind its end. */
  lemma {:induction false} UnescapeInside(src: string, s: string, i: nat, stale: string)
    requires i <= |s| <= |src| && src[..|s|] == s && SpellingText(s[i..])
    ensures Unescape(src, |s|, i, stale) == Unescape(s, |s|, i, stale)
    decreases |s| - i
  {
    hide Unescaped, Escapable;
    if i < |s| && stale != [] {
      assert src[i] == src[..|s|][i] == s[i] == s[i..][0];
      if s[i] == '\\' {
        assert |s[i..]| > 1 && src[i + 1] == src[..|s|][i + 1] == s[i + 1];
        assert s[i..][2..] == s[i + 2..];
        UnescapeInside(src, s, i + 2, stale[1..]);
      } else {
        assert s[i..][1..] == s[i + 1..];
        UnescapeInside(src, s, i + 1, stale[1..]);
      }
    }
  }

  lemma ContentReads(src: string, spelling: string, stale: string)
    requires spelling <= src
    ensures forall content :: Escape(content) == spelling ==>
      Unescape(src, |spelling|, 0, stale) == if |content| <= |stale| then content else content[..|stale|]
  {
    hide Escape, Unescape;
    assert src[0..] == src;
    forall content | Escape(content) == spelling
      ensures Unescape(src, |spelling|, 0, stale) == if |content| <= |stale| then content else content[..|stale|]
    {
      UnescapeEscape(content, src, 0, stale);
    }
  }

  lemma SpellingReads(src: string, spelling: string, stale: string)
    requires spelling <= src && SpellingText(spelling)
    ensures Unescape(src, |spelling|, 0, stale) == Unescape(spelling, |spelling|, 0, stale)
  {
    hide Unescape, SpellingText;
    assert spelling[0..] == spelling && src[..|spelling|] == spelling;
    UnescapeInside(src, spelling, 0, stale);
  }

  lemma LeafComesBack(text: string, t: Token, spelling: string, stale: string)
    requires 0 <= t.start && t.end == t.start + |spelling| && Has(text, t.start, spelling)
    ensures ReadsBack(text, t, spelling, stale)
  {
    hide Escape, Unescape, SpellingText;
    var src := text[t.start..];
    assert src[..|spelling|] == text[t.start..t.end];
    ContentReads(src, spelling, stale);
    if SpellingText(spelling) {
      SpellingReads(src, spelling, stale);
    }
  }

  /** TokenText gives back the original content of every string leaf of a printed document, and
      only the string leaves have a string token. */
  lemma LeavesComeBack(lead: string, j: Json, trail: string, k: nat, stale: string)
    requires k < |Tokens(j, |lead|)|
    ensures k < |Spellings(j)|
    ensures Tokens(j, |lead|)[k].kind == String <==> Spellings(j)[k].Some?
    ensures Spellings(j)[k].Some? ==>
      ReadsBack(lead + Print(j) + trail, Tokens(j, |lead|)[k], Spellings(j)[k].value, stale)
  {
    hide Tokens, Print, Spellings, Escape, Has, ReadsBack;
    var text := lead + Print(j) + trail;
    DocumentParts(lead, Print(j), trail);
    TokensSpan(text, |lead|, j);
    if Spellings(j)[k].Some? {
      LeafComesBack(text, Tokens(j, |lead|)[k], Spellings(j)[k].value, stale);
    }
  }
}
