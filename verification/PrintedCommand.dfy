/** What json2cmd makes of a printed command: the text of the method, and the parameters without their
    brackets. */
module PrintedCommand {
  import opened CText
  import opened Jsmn
  import opened JsmnInvariant
  import opened JsmnNavigate
  import opened JsonCommand
  import opened JsonLookup
  import opened JsonPrint
  import opened StringEscape
  import D = DownCommand

  // ----- no NUL in a printed tree -----

  lemma {:induction false} EscapeHasNoNul(s: string)
    requires ContentText(s)
    ensures '\0' !in Escape(s)
    decreases s
  {
    if s != [] {
      assert s[0] in s && forall c :: c in s[1..] ==> c in s;
      EscapeHasNoNul(s[1..]);
    }
  }

  lemma {:induction false} SpellingHasNoNul(s: string)
    requires SpellingText(s)
    ensures '\0' !in s
    decreases |s|
  {
    if s != [] {
      var k := if s[0] == '\\' then 2 else 1;
      assert s == s[..k] + s[k..];
      SpellingHasNoNul(s[k..]);
    }
  }

  lemma {:induction false} PrintHasNoNul(j: Json)
    requires Printable(j)
    ensures '\0' !in Print(j)
    decreases j
  {
    hide Escape, SpellingText, PrintElems, PrintMembers;
    match j
    case Literal(_) =>
    case Text(content) => EscapeHasNoNul(content);
    case Raw(spelling) => SpellingHasNoNul(spelling);
    case List(_, elems) => ElemsHaveNoNul(elems, "");
    case Dict(_, members) => MembersHaveNoNul(members, "");
  }

  lemma {:induction false} ElemsHaveNoNul(es: Elems, sep: string)
    requires PrintableElems(es) && '\0' !in sep
    ensures '\0' !in PrintElems(es, sep)
    decreases es
  {
    hide Print, Printable;
    match es
    case NoElems =>
    case Elem(_, value, _, rest) =>
      PrintHasNoNul(value);
      ElemsHaveNoNul(rest, ",");
  }

  lemma {:induction false} MembersHaveNoNul(ms: Members, sep: string)
    requires PrintableMembers(ms) && '\0' !in sep
    ensures '\0' !in PrintMembers(ms, sep)
    decreases ms
  {
    hide Print, Printable, Escape;
    match ms
    case NoMembers =>
    case Member(_, key, _, _, value, _, rest) =>
      EscapeHasNoNul(key);
      PrintHasNoNul(value);
      MembersHaveNoNul(rest, ",");
  }

  // ----- few tokens are few children -----

  lemma {:induction false} FewTokensNarrow(j: Json, at: nat)
    requires |Tokens(j, at)| <= 127
    ensures Narrow(j)
    decreases j
  {
    hide Print, ElemTokens, MemberTokens;
    match j
    case Literal(_) =>
    case Text(_) =>
    case Raw(_) =>
    case List(blank, elems) => FewElemsNarrow(elems, "", at + 1 + |blank|);
    case Dict(blank, members) => FewMembersNarrow(members, "", at + 1 + |blank|);
  }

  lemma {:induction false} FewElemsNarrow(es: Elems, sep: string, at: nat)
    requires |ElemTokens(es, sep, at)| <= 127
    ensures ElemCount(es) <= |ElemTokens(es, sep, at)| && NarrowElems(es)
    decreases es
  {
    hide Print, Tokens;
    match es
    case NoElems =>
    case Elem(before, value, after, rest) =>
      var p := at + |sep + before|;
      FewTokensNarrow(value, p);
      FewElemsNarrow(rest, ",", p + |Print(value)| + |after|);
  }

  lemma {:induction false} FewMembersNarrow(ms: Members, sep: string, at: nat)
    requires |MemberTokens(ms, sep, at)| <= 127
    ensures 2 * MemberCount(ms) <= |MemberTokens(ms, sep, at)| && NarrowMembers(ms)
    decreases ms
  {
    hide Print, Tokens, Quoted;
    match ms
    case NoMembers =>
    case Member(before, key, cb, ca, value, after, rest) =>
      var q := at + |sep + before| + |Quoted(key)| + |cb + ":" + ca|;
      FewTokensNarrow(value, q);
      FewMembersNarrow(rest, ",", q + |Print(value)| + |after|);
  }

  // ----- where a value's token is -----

  /** What the token of a value spans. */
  function SpanText(j: Json): string {
    match SpellingOf(j) case Some(s) => s case None => Print(j)
  }

  lemma {:induction false} ValueHere(text: string, ms: Members, sep: string, at: nat, p: nat)
    requires Has(text, at, PrintMembers(ms, sep)) && p < MemberCount(ms)
    ensures Has(text, ValuePos(ms, sep, at, p), Print(ValueOf(ms, p)))
    decreases ms
  {
    hide Has, Print, Quoted;
    var before, quoted, gap := sep + ms.before, Quoted(ms.key), ms.colonBefore + ":" + ms.colonAfter;
    var value, rest := Print(ms.value), ms.after + PrintMembers(ms.rest, ",");
    HasParts(text, at, before + quoted, gap + value + rest);
    var k := at + |before| + |quoted|;
    HasParts(text, k, gap + value, rest);
    HasParts(text, k, gap, value);
    if p > 0 {
      HasParts(text, k + |gap| + |value|, ms.after, PrintMembers(ms.rest, ","));
      ValueHere(text, ms.rest, ",", k + |gap| + |value| + |ms.after|, p - 1);
    }
  }

  /** The values lie one behind the other. */
  lemma {:induction false} ValueOrder(ms: Members, sep: string, at: nat, p: nat, q: nat)
    requires p < q < MemberCount(ms)
    ensures at < ValuePos(ms, sep, at, p)
    ensures ValuePos(ms, sep, at, p) + |Print(ValueOf(ms, p))| < ValuePos(ms, sep, at, q)
    decreases ms
  {
    hide Print, Escape;
    var r := ValuePos(ms, sep, at, 0) + |Print(ms.value)| + |ms.after|;
    if p > 0 {
      ValueOrder(ms.rest, ",", r, p - 1, q - 1);
    } else {
      ValueBehind(ms.rest, ",", r, q - 1);
    }
  }

  lemma {:induction false} ValueBehind(ms: Members, sep: string, at: nat, p: nat)
    requires p < MemberCount(ms)
    ensures at < ValuePos(ms, sep, at, p)
    decreases ms
  {
    hide Print, Escape;
    if p > 0 {
      ValueBehind(ms.rest, ",", ValuePos(ms, sep, at, 0) + |Print(ms.value)| + |ms.after|, p - 1);
    }
  }

  /** The token of a value: its span lies in the value's text and is SpanText. */
  ghost predicate SpanAt(text: string, t: Token, j: Json, pos: nat) {
    && pos <= t.start <= t.end <= pos + |Print(j)| <= |text|
    && t.end - t.start == |SpanText(j)| && text[t.start..t.end] == SpanText(j) && '\0' !in SpanText(j)
    && (t.end == t.start ==> pos < t.start)
  }

  lemma FirstSpan(text: string, j: Json, pos: nat)
    requires Printable(j) && Has(text, pos, Print(j))
    ensures SpanAt(text, Tokens(j, pos)[0], j, pos)
  {
    hide Has, Escape, SpellingText, PrintElems, PrintMembers;
    PrintHasNoNul(j);
    HasInside(text, pos, Print(j));
    match j
    case Literal(_) => HasIs(text, pos, Print(j));
    case Text(content) =>
      StringSpan(text, pos, Escape(content));
    case Raw(spelling) =>
      StringSpan(text, pos, spelling);
    case List(_, _) => HasIs(text, pos, Print(j));
    case Dict(_, _) => HasIs(text, pos, Print(j));
  }

  lemma HasIs(text: string, p: nat, piece: string)
    requires Has(text, p, piece)
    ensures p + |piece| <= |text| && text[p..p + |piece|] == piece
  {
  }

  lemma StringSpan(text: string, pos: nat, s: string)
    requires Has(text, pos, "\"" + s + "\"") && '\0' !in "\"" + s + "\""
    ensures pos + |s| + 2 <= |text| && text[pos + 1..pos + 1 + |s|] == s && '\0' !in s
  {
    hide Has;
    HasInside(text, pos, "\"" + s + "\"");
    HasParts(text, pos, "\"" + s, "\"");
    HasParts(text, pos, "\"", s);
    HasIs(text, pos + 1, s);
    assert forall c :: c in s ==> c in "\"" + s + "\"";
  }

  /** A printed command, its tokens, and where its text starts. */
  ghost predicate Command(text: string, ts: seq<Token>, blank: string, ms: Members, at: nat) {
    && Printed(ts, blank, ms, at) && Has(text, at, Print(Dict(blank, ms))) && PrintableMembers(ms)
    && Navigable(ts) && LeafKeys(ts, 0) && ts[0].kind == Object
  }

  function Pos(blank: string, ms: Members, at: nat, p: nat): nat
    requires p < MemberCount(ms)
  {
    ValuePos(ms, "", at + 1 + |blank|, p)
  }

  lemma ValueSpan(text: string, ts: seq<Token>, blank: string, ms: Members, at: nat, p: nat)
    requires Command(text, ts, blank, ms, at) && p < MemberCount(ms)
    ensures NameIndex(ms, p) + 1 < |ts|
    ensures SpanAt(text, ts[NameIndex(ms, p) + 1], ValueOf(ms, p), Pos(blank, ms, at, p))
  {
    hide Printed, Has, Print, Printable, PrintableMembers, Navigable, LeafKeys, SpanAt, Here, Children, End,
         ValuePos, Tokens;
    var a, b := PairTokens(ts, blank, ms, at, p);
    var c, us := NameIndex(ms, p) + 1, Tokens(ValueOf(ms, p), b);
    assert us == [us[0]] + us[1..];
    HereParts(ts, c, [us[0]], us[1..]);
    HereFirst(ts, c, us[0]);
    DictShape(Dict(blank, ms), at);
    BodyPart(text, at, "{", blank, PrintMembers(ms, ""), "}");
    ValueHere(text, ms, "", at + 1 + |blank|, p);
    ValuePrintable(ms, p);
    FirstSpan(text, ValueOf(ms, p), b);
  }

  lemma SpellsSame(text: string, e: nat, t: Token, key: string)
    requires 0 <= t.start <= t.end <= e || 0 <= e < t.start
    ensures Spells(Ended(text, e), t, key) <==> Spells(text, t, key)
  {
    assert forall i: nat :: t.start <= i < t.end ==> At(Ended(text, e), i) == At(text, i);
  }

  /** The NUL behind a value changes no name. */
  lemma NameUntouched(text: string, ts: seq<Token>, blank: string, ms: Members, at: nat, m: nat, e: nat, q: nat,
                      key: string)
    requires Command(text, ts, blank, ms, at) && m < MemberCount(ms) && q < MemberCount(ms)
    requires Pos(blank, ms, at, m) <= e <= Pos(blank, ms, at, m) + |Print(ValueOf(ms, m))|
    ensures NameIndex(ms, q) < |ts|
    ensures Spells(Ended(text, e), ts[NameIndex(ms, q)], key) <==> Spells(text, ts[NameIndex(ms, q)], key)
  {
    hide Printed, Has, Print, PrintableMembers, Navigable, LeafKeys, Here, Children, End, ValuePos, Tokens, Spells,
         Escape;
    var a, b := PairTokens(ts, blank, ms, at, q);
    if q < m {
      ValueOrder(ms, "", at + 1 + |blank|, q, m);
    } else if q > m {
      if q - 1 > m {
        ValueOrder(ms, "", at + 1 + |blank|, m, q - 1);
      }
    }
    SpellsSame(text, e, ts[NameIndex(ms, q)], key);
  }

  ghost predicate SameNames(text: string, buf: string, ts: seq<Token>, ms: Members, key: string) {
    forall q: nat :: q < MemberCount(ms) ==> SameName(text, buf, ts, ms, q, key)
  }

  predicate SameName(text: string, buf: string, ts: seq<Token>, ms: Members, q: nat, key: string)
    requires q < MemberCount(ms)
  {
    NameIndex(ms, q) < |ts| ==> (Spells(buf, ts[NameIndex(ms, q)], key) <==> Spells(text, ts[NameIndex(ms, q)], key))
  }

  lemma KeyInside(ts: seq<Token>, q: nat, c: nat)
    requires KeyAt(ts, 0, q, c)
    ensures c < |ts|
  {
  }

  /** A look-up in a buffer with the same names finds the first member of that name. */
  lemma LookupNames(text: string, buf: string, ts: seq<Token>, blank: string, ms: Members, at: nat, key: string)
    requires Command(text, ts, blank, ms, at) && SameNames(text, buf, ts, ms, key)
    ensures var p := FindMember(ms, key);
      Lookup(buf, ts, key) == if p < MemberCount(ms) then NameIndex(ms, p) + 1 else -1
  {
    hide Printed, Has, Print, PrintableMembers, Navigable, LeafKeys, Children, Spells, Escape, NameIndex,
         FindMember, KeyAt, ValueAt, Tokens;
    ObjectFirst(ts, blank, ms, at);
    LookupIs(buf, ts, key);
    var pair := FindsPair(buf, ts, 0, key);
    var r := Search(buf, ts, key, 1, Pairs(ts, 0));
    if r != -1 {
      OnlyTheseKeys(ts, blank, ms, at, pair, r - 1);
      KeyInside(ts, pair, r - 1);
      assert SameName(text, buf, ts, ms, pair, key);
    }
    forall q: nat, c: nat | PairNamed(text, ts, 0, q, c, key)
      ensures PairNamed(buf, ts, 0, q, c, key)
    {
      OnlyTheseKeys(ts, blank, ms, at, q, c);
      KeyInside(ts, q, c);
      assert SameName(text, buf, ts, ms, q, key);
    }
    LookupFinds(text, ts, blank, ms, at, key, r, pair);
  }

  // ----- the command that is read -----

  /** From a buffer that agrees with the text up to n and is ended there. */
  lemma EndedAt(text: string, buf: string, start: nat, end: nat)
    requires start <= end <= |text| == |buf| && text[start..end] == buf[start..end] && '\0' !in text[start..end]
    requires end < |buf| ==> buf[end] == '\0'
    ensures CString(buf[start..]) == text[start..end]
  {
    assert buf[start..][..end - start] == buf[start..end];
    CStringIs(buf[start..], end - start);
  }

  lemma MethodFound(text: string, ts: seq<Token>, blank: string, ms: Members, at: nat)
    requires Command(text, ts, blank, ms, at)
    ensures var m := FindMember(ms, "method");
      Lookup(text, ts, "method") == if m < MemberCount(ms) then NameIndex(ms, m) + 1 else -1
  {
    hide Command, FindMember, SameName, Lookup;
    Unchanged(text, ts, ms, "method");
    CommandNavigable(text, ts, blank, ms, at);
    LookupNames(text, text, ts, blank, ms, at, "method");
  }

  lemma Unchanged(text: string, ts: seq<Token>, ms: Members, key: string)
    ensures SameNames(text, text, ts, ms, key)
  {
  }

  lemma CommandNavigable(text: string, ts: seq<Token>, blank: string, ms: Members, at: nat)
    requires Command(text, ts, blank, ms, at)
    ensures Navigable(ts)
  {
  }

  /** The buffer after the first NUL. */
  function First(text: string, ts: seq<Token>, ms: Members, m: nat): string
    requires m < MemberCount(ms) && NameIndex(ms, m) + 1 < |ts| && ts[NameIndex(ms, m) + 1].end >= 0
  {
    Ended(text, ts[NameIndex(ms, m) + 1].end)
  }

  lemma ParamsFound(text: string, ts: seq<Token>, blank: string, ms: Members, at: nat, m: nat)
    requires Command(text, ts, blank, ms, at) && m < MemberCount(ms)
    ensures NameIndex(ms, m) + 1 < |ts| && ts[NameIndex(ms, m) + 1].end >= 0
    ensures var p := FindMember(ms, "params");
      Lookup(First(text, ts, ms, m), ts, "params") == if p < MemberCount(ms) then NameIndex(ms, p) + 1 else -1
  {
    hide Command, FindMember, Lookup, NameIndex, Spells, ValueOf, Print, Pos;
    ValueSpan(text, ts, blank, ms, at, m);
    CommandNavigable(text, ts, blank, ms, at);
    var e := ts[NameIndex(ms, m) + 1].end;
    forall q: nat | q < MemberCount(ms)
      ensures SameName(text, Ended(text, e), ts, ms, q, "params")
    {
      NameUntouched(text, ts, blank, ms, at, m, e, q, "params");
    }
    LookupNames(text, Ended(text, e), ts, blank, ms, at, "params");
  }

  // ----- NULs behind two spans -----

  ghost predicate SpanIs(text: string, t: Token, a: string) {
    0 <= t.start <= t.end <= |text| && text[t.start..t.end] == a && '\0' !in a
  }

  lemma EndedSlice(text: string, e: nat, i: nat, j: nat)
    requires i <= j <= |text| && (e < i || j <= e)
    ensures Ended(text, e)[i..j] == text[i..j]
  {
  }

  lemma EndedChar(text: string, e: nat, k: nat)
    requires k < |text| && (k == e || text[k] == '\0')
    ensures Ended(text, e)[k] == '\0'
  {
  }

  lemma FirstEnds(text: string, s: Token, a: string)
    requires SpanIs(text, s, a)
    ensures CString(Ended(text, s.end)[s.start..]) == a
  {
    hide CString, Ended;
    EndedSlice(text, s.end, s.start, s.end);
    if s.end < |text| {
      EndedChar(text, s.end, s.end);
    }
    EndedAt(text, Ended(text, s.end), s.start, s.end);
  }

  /** A second NUL outside the span changes nothing. */
  lemma SecondKeeps(text: string, s: Token, a: string, e: nat)
    requires SpanIs(text, s, a) && (e < s.start || s.end <= e)
    ensures CString(Ended(Ended(text, s.end), e)[s.start..]) == a
  {
    hide CString, Ended;
    var first := Ended(text, s.end);
    EndedSlice(text, s.end, s.start, s.end);
    EndedSlice(first, e, s.start, s.end);
    if s.end < |text| {
      EndedChar(text, s.end, s.end);
      EndedChar(first, e, s.end);
    }
    EndedAt(text, Ended(first, e), s.start, s.end);
  }

  /** Without first and last character. */
  function Inner(s: string): string
    requires |s| >= 2
  {
    s[1..|s| - 1]
  }

  lemma InnerOf(text: string, i: nat, j: nat)
    requires i + 2 <= j <= |text|
    ensures Inner(text[i..j]) == text[i + 1..j - 1]
  {
    var s := text[i..j];
    assert forall k :: 0 <= k < |s| ==> s[k] == text[i + k];
    assert s[1..|s| - 1] == text[i + 1..j - 1];
  }

  lemma InnerRead(text: string, e: nat, t: Token, b: string)
    requires SpanIs(text, t, b) && |b| >= 2 && (e < t.start || t.end <= e)
    ensures CString(Ended(Ended(text, e), t.end - 1)[t.start + 1..]) == Inner(b)
  {
    hide CString, Ended;
    var first := Ended(text, e);
    var i, j := t.start + 1, t.end - 1;
    InnerOf(text, t.start, t.end);
    assert forall c :: c in Inner(b) ==> c in b;
    EndedSlice(text, e, i, j);
    EndedSlice(first, j, i, j);
    EndedChar(first, j, j);
    EndedAt(text, Ended(first, j), i, j);
  }

  /** The tokens of two values, one behind the other. */
  lemma TwoValues(text: string, ts: seq<Token>, blank: string, ms: Members, at: nat, m: nat,
                  p: nat) returns (s: Token, t: Token)
    requires Command(text, ts, blank, ms, at) && m < MemberCount(ms) && p < MemberCount(ms) && p != m
    ensures NameIndex(ms, m) + 1 < |ts| && NameIndex(ms, p) + 1 < |ts|
    ensures s == ts[NameIndex(ms, m) + 1] && t == ts[NameIndex(ms, p) + 1]
    ensures SpanIs(text, s, SpanText(ValueOf(ms, m))) && SpanIs(text, t, SpanText(ValueOf(ms, p))) && 0 < t.end
    ensures t.end - 1 < s.start || s.end <= t.end - 1
    ensures s.end < t.start || t.end <= s.end
    ensures m < p ==> s.end < t.start
  {
    hide Command, NameIndex, Print, SpanText, ValueOf;
    ValueSpan(text, ts, blank, ms, at, m);
    ValueSpan(text, ts, blank, ms, at, p);
    s, t := ts[NameIndex(ms, m) + 1], ts[NameIndex(ms, p) + 1];
    if p < m {
      ValueOrder(ms, "", at + 1 + |blank|, p, m);
    } else {
      ValueOrder(ms, "", at + 1 + |blank|, m, p);
    }
  }

  /** What the split is when the look-ups are known. */
  lemma SplitKnown(text: string, ts: seq<Token>)
    requires Navigable(ts) && InText(text, ts)
    ensures var m := Lookup(text, ts, "method");
      && (m == -1 ==> SplitTokens(text, ts) == NoMethod)
      && (m != -1 ==>
        var first := Ended(text, ts[m].end);
        var p := Lookup(first, ts, "params");
        && (p == -1 ==> SplitTokens(text, ts) == Split(CString(first[ts[m].start..]), ""))
        && (p > 0 ==>
          var second := Ended(first, ts[p].end - 1);
          SplitTokens(text, ts) == Split(CString(second[ts[m].start..]), CString(second[ts[p].start + 1..]))))
  {
    hide Navigable, Lookup, CString;
  }

  lemma SplitIs(text: string, ts: seq<Token>, blank: string, ms: Members, at: nat)
    requires Command(text, ts, blank, ms, at) && Navigable(ts) && InText(text, ts)
    ensures Splits(SplitTokens(text, ts), ms)
  {
    hide Command, FindMember, Lookup, SpanText, CString, NameIndex, Navigable, SplitTokens, InText, Ended, ValueOf,
         MemberCount;
    InTextAt(text, ts);
    SplitKnown(text, ts);
    MethodFound(text, ts, blank, ms, at);
    var m, p := FindMember(ms, "method"), FindMember(ms, "params");
    if m < MemberCount(ms) {
      ParamsFound(text, ts, blank, ms, at, m);
      if p < MemberCount(ms) {
        NamesDiffer(ms, m, p);
        var s, t := TwoValues(text, ts, blank, ms, at, m, p);
        SecondKeeps(text, s, SpanText(ValueOf(ms, m)), t.end - 1);
        if |SpanText(ValueOf(ms, p))| >= 2 {
          InnerRead(text, s.end, t, SpanText(ValueOf(ms, p)));
        }
      } else {
        var s := OneValue(text, ts, blank, ms, at, m);
        FirstEnds(text, s, SpanText(ValueOf(ms, m)));
      }
    }
  }

  lemma OneValue(text: string, ts: seq<Token>, blank: string, ms: Members, at: nat, m: nat) returns (s: Token)
    requires Command(text, ts, blank, ms, at) && m < MemberCount(ms)
    ensures NameIndex(ms, m) + 1 < |ts| && s == ts[NameIndex(ms, m) + 1]
    ensures SpanIs(text, s, SpanText(ValueOf(ms, m)))
  {
    hide Command, NameIndex, Print, SpanText, ValueOf;
    ValueSpan(text, ts, blank, ms, at, m);
    s := ts[NameIndex(ms, m) + 1];
  }

  /** The parts of a command, of its members: the text of the first "method", and of the first "params"
      what stands between the first and the last character, its brackets; no method if there is none,
      and no parameters if there are none. */
  ghost predicate Splits(split: Split, ms: Members) {
    var m, p := FindMember(ms, "method"), FindMember(ms, "params");
    && (m == MemberCount(ms) ==> split == NoMethod)
    && (m < MemberCount(ms) ==> split.Split? && split.name == SpanText(ValueOf(ms, m)))
    && (m < MemberCount(ms) && p == MemberCount(ms) ==> split.params == "")
    && (m < MemberCount(ms) && p < MemberCount(ms) && |SpanText(ValueOf(ms, p))| >= 2 ==>
      split.params == Inner(SpanText(ValueOf(ms, p))))
  }

  /** What the reader gets of a printed command. */
  lemma CommandSplits(lead: string, blank: string, ms: Members, trail: string)
    requires Blank(lead) && Blank(trail) && Printable(Dict(blank, ms))
    requires |Tokens(Dict(blank, ms), |lead|)| <= TOKENS
    ensures Splits(SplitOf(lead + Print(Dict(blank, ms)) + trail), ms)
  {
    hide Command, Run, Tokens, Print, Printable, Navigable, Blank, Splits, SplitTokens, InText;
    var text, ts := lead + Print(Dict(blank, ms)) + trail, Tokens(Dict(blank, ms), |lead|);
    PrintedCommandIs(lead, blank, ms, trail);
    PrintThenParse(lead, Dict(blank, ms), trail, TOKENS);
    Ready(text);
    SplitIs(text, ts, blank, ms, |lead|);
  }

  lemma NamesDiffer(ms: Members, m: nat, p: nat)
    requires m == FindMember(ms, "method") < MemberCount(ms) && p == FindMember(ms, "params") < MemberCount(ms)
    ensures m != p
  {
    hide FindMember;
    FindMemberIs(ms, "method", m);
    FindMemberIs(ms, "params", p);
    assert "method"[0] != "params"[0];
  }

  lemma PrintedCommandIs(lead: string, blank: string, ms: Members, trail: string)
    requires Blank(lead) && Blank(trail) && Printable(Dict(blank, ms))
    requires |Tokens(Dict(blank, ms), |lead|)| <= TOKENS
    ensures Command(lead + Print(Dict(blank, ms)) + trail, Tokens(Dict(blank, ms), |lead|), blank, ms, |lead|)
  {
    hide Print, Tokens, Printable, Narrow, LeafKeys, Has;
    var j := Dict(blank, ms);
    var ts := Tokens(j, |lead|);
    FewTokensNarrow(j, |lead|);
    PrintedIsNavigable(lead, j, trail);
    KeysAreLeaves(ts, blank, ms, |lead|);
    DocumentParts(lead, Print(j), trail);
    ObjectFirst(ts, blank, ms, |lead|);
    DictPrintable(blank, ms);
  }

  // ----- parameters of one character -----

  /** The blanks behind the last value. */
  function LastAfter(ms: Members): string
    requires MemberCount(ms) > 0
  {
    if ms.rest == NoMembers then ms.after else LastAfter(ms.rest)
  }

  lemma {:induction false} BehindLast(text: string, ms: Members, sep: string, at: nat, tail: string)
    requires MemberCount(ms) > 0 && Has(text, at, PrintMembers(ms, sep) + tail)
    ensures var p := MemberCount(ms) - 1;
      Has(text, ValuePos(ms, sep, at, p) + |Print(ValueOf(ms, p))|, LastAfter(ms) + tail)
    decreases ms
  {
    hide Has, Print, Quoted;
    var front := (sep + ms.before) + Quoted(ms.key) + (ms.colonBefore + ":" + ms.colonAfter) + Print(ms.value);
    var rest := PrintMembers(ms.rest, ",");
    assert PrintMembers(ms, sep) + tail == front + (ms.after + (rest + tail));
    HasParts(text, at, front, ms.after + (rest + tail));
    if ms.rest == NoMembers {
      assert rest + tail == tail;
    } else {
      HasParts(text, at + |front|, ms.after, rest + tail);
      BehindLast(text, ms.rest, ",", at + |front| + |ms.after|, tail);
    }
  }

  lemma DictBehind(text: string, blank: string, ms: Members, at: nat, trail: string)
    requires MemberCount(ms) > 0 && Has(text, at, Print(Dict(blank, ms)) + trail)
    ensures var p := MemberCount(ms) - 1;
      Has(text, Pos(blank, ms, at, p) + |Print(ValueOf(ms, p))|, LastAfter(ms) + ("}" + trail))
  {
    hide Has, Print, PrintMembers, ValuePos;
    DictShape(Dict(blank, ms), at);
    var body := PrintMembers(ms, "");
    assert Print(Dict(blank, ms)) + trail == "{" + (blank + (body + ("}" + trail)));
    HasParts(text, at, "{", blank + (body + ("}" + trail)));
    HasParts(text, at + 1, blank, body + ("}" + trail));
    BehindLast(text, ms, "", at + 1 + |blank|, "}" + trail);
  }

  lemma {:induction false} LastAfterBlank(ms: Members)
    requires MemberCount(ms) > 0 && PrintableMembers(ms)
    ensures Blank(LastAfter(ms))
    decreases ms
  {
    hide Printable;
    if ms.rest != NoMembers {
      LastAfterBlank(ms.rest);
    }
  }

  lemma BlankHasNoNul(a: string, b: string)
    requires Blank(a) && Blank(b)
    ensures '\0' !in a + ("}" + b)
  {
    assert '\0' !in a && '\0' !in b;
  }

  /** There are no brackets around a single digit: a command whose last member is such a "params" is
      read with what stands behind the digit for its parameters. */
  lemma DigitParams(lead: string, blank: string, ms: Members, trail: string)
    requires Blank(lead) && Blank(trail) && Printable(Dict(blank, ms))
    requires |Tokens(Dict(blank, ms), |lead|)| <= TOKENS
    requires FindMember(ms, "method") < FindMember(ms, "params") == MemberCount(ms) - 1
    requires var v := ValueOf(ms, MemberCount(ms) - 1); v.Literal? && |v.lit| == 1
    ensures var split := SplitOf(lead + Print(Dict(blank, ms)) + trail);
      split.Split? && split.params == LastAfter(ms) + ("}" + trail)
  {
    hide Command, Run, Tokens, Print, Printable, Navigable, Blank, SplitTokens, InText, Lookup, FindMember,
         NameIndex, CString, Pos, PrintableMembers, SpanText;
    var text, ts, at := lead + Print(Dict(blank, ms)) + trail, Tokens(Dict(blank, ms), |lead|), |lead|;
    PrintedCommandIs(lead, blank, ms, trail);
    PrintThenParse(lead, Dict(blank, ms), trail, TOKENS);
    Ready(text);
    InTextAt(text, ts);
    SplitKnown(text, ts);
    MethodFound(text, ts, blank, ms, at);
    var m, p := FindMember(ms, "method"), MemberCount(ms) - 1;
    ParamsFound(text, ts, blank, ms, at, m);
    var s, t := TwoValues(text, ts, blank, ms, at, m, p);
    WholeBehind(lead, blank, ms, trail);
    DictPrintable(blank, ms);
    LastAfterBlank(ms);
    BlankHasNoNul(LastAfter(ms), trail);
    DigitRead(text, ts, blank, ms, at, s, t, LastAfter(ms) + ("}" + trail));
  }

  lemma WholeBehind(lead: string, blank: string, ms: Members, trail: string)
    requires MemberCount(ms) > 0
    ensures var text, p := lead + Print(Dict(blank, ms)) + trail, MemberCount(ms) - 1;
      var k, rest := Pos(blank, ms, |lead|, p) + |Print(ValueOf(ms, p))|, LastAfter(ms) + ("}" + trail);
      Has(text, k, rest) && k + |rest| == |text|
  {
    hide Has, Print, Pos;
    var text := lead + Print(Dict(blank, ms)) + trail;
    assert text == lead + (Print(Dict(blank, ms)) + trail);
    WholeHas(lead, Print(Dict(blank, ms)) + trail);
    DictBehind(text, blank, ms, |lead|, trail);
    LastEnds(blank, ms, |lead|);
  }

  lemma WholeHas(lead: string, rest: string)
    ensures Has(lead + rest, |lead|, rest)
  {
  }

  /** The last value, the blanks behind it and the brace are the end of the object. */
  lemma LastEnds(blank: string, ms: Members, at: nat)
    requires MemberCount(ms) > 0
    ensures var p := MemberCount(ms) - 1;
      Pos(blank, ms, at, p) + |Print(ValueOf(ms, p))| + |LastAfter(ms)| + 1 == at + |Print(Dict(blank, ms))|
  {
    hide Print, PrintMembers, ValuePos;
    DictShape(Dict(blank, ms), at);
    LastLength(ms, "", at + 1 + |blank|);
  }

  lemma {:induction false} LastLength(ms: Members, sep: string, at: nat)
    requires MemberCount(ms) > 0
    ensures var p := MemberCount(ms) - 1;
      ValuePos(ms, sep, at, p) + |Print(ValueOf(ms, p))| + |LastAfter(ms)| == at + |PrintMembers(ms, sep)|
    decreases ms
  {
    hide Print, Quoted;
    if ms.rest != NoMembers {
      LastLength(ms.rest, ",", ValuePos(ms, sep, at, 0) + |Print(ms.value)| + |ms.after|);
    }
  }

  lemma DigitRead(text: string, ts: seq<Token>, blank: string, ms: Members, at: nat, s: Token, t: Token, rest: string)
    requires Command(text, ts, blank, ms, at) && MemberCount(ms) > 0
    requires var p := MemberCount(ms) - 1;
      && ValueOf(ms, p).Literal? && |ValueOf(ms, p).lit| == 1 && NameIndex(ms, p) + 1 < |ts|
        && t == ts[NameIndex(ms, p) + 1]
      && var k := Pos(blank, ms, at, p) + |Print(ValueOf(ms, p))|;
         Has(text, k, rest) && k + |rest| == |text|
    requires 0 <= s.start <= s.end < t.start && 0 < t.end && '\0' !in rest
    ensures t.start + 1 == t.end <= |text|
    ensures CString(Ended(Ended(text, s.end), t.end - 1)[t.start + 1..]) == rest
  {
    hide Command, NameIndex, CString, Pos, PrintableMembers;
    var p := MemberCount(ms) - 1;
    ValueSpan(text, ts, blank, ms, at, p);
    HasIs(text, t.end, rest);
    var second := Ended(Ended(text, s.end), t.end - 1);
    EndedSlice(text, s.end, t.end, |text|);
    EndedSlice(Ended(text, s.end), t.end - 1, t.end, |text|);
    assert text[t.end..|text|] == rest == second[t.end..|text|];
    EndedAt(text, second, t.end, |text|);
  }

  /** A fresh printed command at the head of the queue: it is shown, as its method and its parameters
      without brackets, exactly when it has a method that is not empty. */
  lemma CommandIsShown(s: D.State, now: nat, lead: string, blank: string, ms: Members, trail: string)
    requires Blank(lead) && Blank(trail) && Printable(Dict(blank, ms))
    requires |Tokens(Dict(blank, ms), |lead|)| <= TOKENS
    requires s.slot.Free? && s.queue != [] && s.queue[0].kind.Json? && D.Fresh(s.queue[0], now, s.limit)
    requires s.queue[0].text == lead + Print(Dict(blank, ms)) + trail
    ensures var m, p := FindMember(ms, "method"), FindMember(ms, "params");
      var t := D.GetDown(s, now);
      && (t.shown == s.shown + [s.queue[0]] <==> m < MemberCount(ms) && SpanText(ValueOf(ms, m)) != "")
      && (&& m < MemberCount(ms) && SpanText(ValueOf(ms, m)) != ""
          && p < MemberCount(ms) && |SpanText(ValueOf(ms, p))| > 2 ==>
        t.sent == s.sent + ["down " + SpanText(ValueOf(ms, m)) + " " + Inner(SpanText(ValueOf(ms, p)))])
  {
    hide SplitOf, Tokens, Print, Printable, FindMember, SpanText, D.Fresh, Blank, MemberCount, ValueOf;
    CommandSplits(lead, blank, ms, trail);
    var u := s.(slot := D.Held(s.queue[0]), queue := s.queue[1..]);
    assert D.Dequeue(s, now) == u;
    assert |s.shown + [s.queue[0]]| == |s.shown| + 1;
  }
}
