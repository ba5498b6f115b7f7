/** Looking a key up in a printed object: print, tokenize, navigate, read the value back. */
module JsonLookup {
  import opened CText
  import opened Jsmn
  import opened JsmnInvariant
  import opened JsmnNavigate
  import opened JsonPrint
  import opened StringEscape

  // ----- trees whose counts fit -----

  /** No container has more than 127 direct children, as the signed char demands. */
  predicate Narrow(j: Json) {
    match j
    case Literal(_) => true
    case Text(_) => true
    case Raw(_) => true
    case List(_, elems) => ElemCount(elems) <= 127 && NarrowElems(elems)
    case Dict(_, members) => 2 * MemberCount(members) <= 127 && NarrowMembers(members)
  }

  predicate NarrowElems(es: Elems) {
    match es case NoElems => true case Elem(_, value, _, rest) => Narrow(value) && NarrowElems(rest)
  }

  predicate NarrowMembers(ms: Members) {
    match ms case NoMembers => true case Member(_, _, _, _, value, _, rest) => Narrow(value) && NarrowMembers(rest)
  }

  function SumSizes(ts: seq<Token>): int {
    if ts == [] then 0 else SumSizes(ts[..|ts| - 1]) + ts[|ts| - 1].size
  }

  lemma {:induction false} SumConcat(a: seq<Token>, b: seq<Token>)
    ensures SumSizes(a + b) == SumSizes(a) + SumSizes(b)
    decreases |b|
  {
    if b == [] {
      assert a + b == a;
    } else {
      assert (a + b)[..|a + b| - 1] == a + b[..|b| - 1];
      SumConcat(a, b[..|b| - 1]);
    }
  }

  lemma SumOne(t: Token)
    ensures SumSizes([t]) == t.size
  {
    assert [t][..0] == [];
  }

  ghost predicate Counted(ts: seq<Token>) {
    forall i :: 0 <= i < |ts| ==> 0 <= ts[i].size <= 127
  }

  lemma CountedConcat(a: seq<Token>, b: seq<Token>)
    requires Counted(a) && Counted(b)
    ensures Counted(a + b)
  {
  }

  lemma CountedOne(t: Token)
    requires 0 <= t.size <= 127
    ensures Counted([t])
  {
  }

  lemma ContainerSizes(t: Token, us: seq<Token>, count: nat)
    requires t.size == Wrapped(count) && count <= 127
    requires SumSizes(us) == |us| - count && Counted(us)
    ensures SumSizes([t] + us) == |[t] + us| - 1 && Counted([t] + us)
  {
    SumOne(t);
    SumConcat([t], us);
  }

  lemma LeafSizes(t: Token)
    requires t.size == 0
    ensures SumSizes([t]) == 0 && Counted([t])
  {
    SumOne(t);
  }

  /** The sizes in a printed tree count every token but the first. */
  lemma {:induction false} SizesOfTokens(j: Json, at: nat)
    requires Narrow(j)
    ensures var ts := Tokens(j, at); SumSizes(ts) == |ts| - 1 && Counted(ts)
    decreases j
  {
    hide Print, ElemTokens, MemberTokens, SumSizes, Counted, Wrapped;
    match j
    case Literal(_) =>
      LeafSizes(Tokens(j, at)[0]);
    case Text(_) =>
      LeafSizes(Tokens(j, at)[0]);
    case Raw(_) =>
      LeafSizes(Tokens(j, at)[0]);
    case List(blank, elems) =>
      SizesOfElems(elems, "", at + 1 + |blank|);
      ContainerSizes(Tokens(j, at)[0], ElemTokens(elems, "", at + 1 + |blank|), ElemCount(elems));
    case Dict(blank, members) =>
      SizesOfMembers(members, "", at + 1 + |blank|);
      ContainerSizes(Tokens(j, at)[0], MemberTokens(members, "", at + 1 + |blank|), 2 * MemberCount(members));
  }

  lemma {:induction false} SizesOfElems(es: Elems, sep: string, at: nat)
    requires NarrowElems(es)
    ensures var ts := ElemTokens(es, sep, at); SumSizes(ts) == |ts| - ElemCount(es) && Counted(ts)
    decreases es
  {
    hide Tokens, Print, Narrow;
    match es
    case NoElems =>
    case Elem(before, value, after, rest) =>
      var p := at + |sep + before|;
      var q := p + |Print(value)| + |after|;
      SizesOfTokens(value, p);
      SizesOfElems(rest, ",", q);
      SumConcat(Tokens(value, p), ElemTokens(rest, ",", q));
      CountedConcat(Tokens(value, p), ElemTokens(rest, ",", q));
  }

  lemma {:induction false} SizesOfMembers(ms: Members, sep: string, at: nat)
    requires NarrowMembers(ms)
    ensures var ts := MemberTokens(ms, sep, at); SumSizes(ts) == |ts| - 2 * MemberCount(ms) && Counted(ts)
    decreases ms
  {
    hide Tokens, Print, Narrow, Quoted, TextToken;
    match ms
    case NoMembers =>
    case Member(before, key, cb, ca, value, after, rest) =>
      hide SumSizes, Counted;
      var p := at + |sep + before|;
      var q := p + |Quoted(key)| + |cb + ":" + ca|;
      var q2 := q + |Print(value)| + |after|;
      KeyHasNoSize(key, p);
      CountedOne(TextToken(key, p));
      SizesOfTokens(value, q);
      SizesOfMembers(rest, ",", q2);
      var more := MemberTokens(rest, ",", q2);
      SumConcat(Tokens(value, q), more);
      CountedConcat(Tokens(value, q), more);
      SumOne(TextToken(key, p));
      SumConcat([TextToken(key, p)], Tokens(value, q) + more);
      CountedConcat([TextToken(key, p)], Tokens(value, q) + more);
  }

  // ----- the counts are the true ones, not just modulo 256 -----

  function SumChildren(ts: seq<Token>, m: nat, n: nat): nat
    requires n <= |ts|
  {
    if m == 0 then 0 else SumChildren(ts, m - 1, n) + Children(ts, m - 1, n)
  }

  /** Each token has at most one parent. */
  lemma {:induction false} SumStep(ts: seq<Token>, m: nat, n: nat)
    requires 0 < n <= |ts|
    ensures SumChildren(ts, m, n) == SumChildren(ts, m, n - 1) + if 0 <= Parent(ts, n - 1) < m then 1 else 0
    decreases m
  {
    hide Parent;
    if m > 0 {
      SumStep(ts, m - 1, n);
    }
  }

  /** All but the first at most. */
  lemma {:induction false} SumBound(ts: seq<Token>, m: nat, n: nat)
    requires 0 < n <= |ts|
    ensures SumChildren(ts, m, n) <= n - 1
    decreases n
  {
    SumStep(ts, m, n);
    if n == 1 {
      NoneYet(ts, m);
    } else {
      SumBound(ts, m, n - 1);
    }
  }

  lemma {:induction false} NoneYet(ts: seq<Token>, m: nat)
    ensures SumChildren(ts, m, 0) == 0
    decreases m
  {
    if m > 0 {
      NoneYet(ts, m - 1);
    }
  }

  lemma AtLeastSize(ts: seq<Token>, i: nat)
    requires Accepted(ts) && Counted(ts) && i < |ts|
    ensures Children(ts, i, |ts|) >= ts[i].size
  {
    assert ts[i].size == Wrapped(Children(ts, i, |ts|));
  }

  lemma {:induction false} SumAtLeast(ts: seq<Token>, m: nat, i: nat)
    requires Accepted(ts) && Counted(ts) && m <= |ts| && i < |ts|
    ensures SumChildren(ts, m, |ts|) >= SumSizes(ts[..m]) + if i < m then Children(ts, i, |ts|) - ts[i].size else 0
    decreases m
  {
    hide Accepted, Children;
    if m > 0 {
      SumAtLeast(ts, m - 1, i);
      AtLeastSize(ts, m - 1);
      assert ts[..m][..m - 1] == ts[..m - 1];
    }
  }

  /** Tokens whose sizes fit and add up are navigable: every size is the number of children. */
  lemma SizesAreChildren(ts: seq<Token>)
    requires Accepted(ts) && Counted(ts) && ts != [] && SumSizes(ts) == |ts| - 1
    ensures Navigable(ts) && forall i :: 0 <= i < |ts| ==> Children(ts, i, |ts|) == ts[i].size
  {
    hide Accepted, Children;
    SumBound(ts, |ts|, |ts|);
    forall i | 0 <= i < |ts| ensures Children(ts, i, |ts|) == ts[i].size {
      SumAtLeast(ts, |ts|, i);
      AtLeastSize(ts, i);
      assert ts[..|ts|] == ts;
    }
  }

  /** The tokens of a printed document can be navigated. */
  lemma PrintedIsNavigable(lead: string, j: Json, trail: string)
    requires Blank(lead) && Printable(j) && Blank(trail) && Finishes(j, trail) && Narrow(j)
    ensures var ts := Tokens(j, |lead|);
      Navigable(ts) && forall i :: 0 <= i < |ts| ==> Children(ts, i, |ts|) == ts[i].size
  {
    hide Tokens, Run, Printable, Navigable, Accepted, Narrow;
    var text := lead + Print(j) + trail;
    var ts := Tokens(j, |lead|);
    PrintThenParse(lead, j, trail, |ts|);
    SuccessIsAccepted(text, |text|, |ts|, INIT);
    SizesOfTokens(j, |lead|);
    SizesAreChildren(ts);
  }

  // ----- subtrees -----

  /** The text's tokens from k on are these. */
  predicate Here(ts: seq<Token>, k: nat, us: seq<Token>): (r: bool)
    ensures r ==> k + |us| <= |ts|
  {
    k + |us| <= |ts| && ts[k..k + |us|] == us
  }

  lemma HereParts(ts: seq<Token>, k: nat, a: seq<Token>, b: seq<Token>)
    requires Here(ts, k, a + b)
    ensures Here(ts, k, a) && Here(ts, k + |a|, b)
  {
    assert ts[k..k + |a|] == ts[k..k + |a + b|][..|a|];
    assert ts[k + |a|..k + |a| + |b|] == ts[k..k + |a + b|][|a|..];
  }

  lemma HereFirst(ts: seq<Token>, k: nat, t: Token)
    requires Here(ts, k, [t])
    ensures k < |ts| && ts[k] == t
  {
    assert ts[k..k + 1][0] == ts[k];
  }

  ghost predicate Natural(ts: seq<Token>) {
    forall x :: 0 <= x < |ts| ==> ts[x].size >= 0
  }

  lemma SkipFirst(ts: seq<Token>, k: nat, n: nat)
    requires k < |ts| && Natural(ts)
    ensures Skip(ts, k, n + 1) == Skip(ts, k + 1, n + ts[k].size)
  {
  }

  lemma SkipNone(ts: seq<Token>, k: nat)
    requires k <= |ts|
    ensures Skip(ts, k, 0) == k
  {
  }

  /** The counting walk passes exactly over a printed tree. */
  lemma {:induction false} SkipTree(ts: seq<Token>, k: nat, j: Json, at: nat)
    requires Natural(ts) && Here(ts, k, Tokens(j, at)) && Narrow(j)
    ensures Skip(ts, k, 1) == k + |Tokens(j, at)|
    decreases j
  {
    hide Print, ElemTokens, MemberTokens, Skip, Here;
    var us := Tokens(j, at);
    assert us == [us[0]] + us[1..];
    HereParts(ts, k, [us[0]], us[1..]);
    HereFirst(ts, k, us[0]);
    SkipFirst(ts, k, 0);
    match j
    case Literal(_) => SkipNone(ts, k + 1);
    case Text(_) => SkipNone(ts, k + 1);
    case Raw(_) => SkipNone(ts, k + 1);
    case List(blank, elems) => SkipElems(ts, k + 1, elems, "", at + 1 + |blank|);
    case Dict(blank, members) => SkipMembers(ts, k + 1, members, "", at + 1 + |blank|);
  }

  lemma {:induction false} SkipElems(ts: seq<Token>, k: nat, es: Elems, sep: string, at: nat)
    requires Natural(ts) && Here(ts, k, ElemTokens(es, sep, at)) && NarrowElems(es)
    ensures Skip(ts, k, ElemCount(es)) == k + |ElemTokens(es, sep, at)|
    decreases es
  {
    hide Tokens, Print, Skip, Here, Narrow;
    match es
    case NoElems => SkipNone(ts, k);
    case Elem(before, value, after, rest) =>
      var p := at + |sep + before|;
      var q := p + |Print(value)| + |after|;
      HereParts(ts, k, Tokens(value, p), ElemTokens(rest, ",", q));
      SkipTree(ts, k, value, p);
      SkipElems(ts, k + |Tokens(value, p)|, rest, ",", q);
      SkipAdds(ts, k, 1, ElemCount(rest));
  }

  lemma {:induction false} SkipMembers(ts: seq<Token>, k: nat, ms: Members, sep: string, at: nat)
    requires Natural(ts) && Here(ts, k, MemberTokens(ms, sep, at)) && NarrowMembers(ms)
    ensures Skip(ts, k, 2 * MemberCount(ms)) == k + |MemberTokens(ms, sep, at)|
    decreases ms
  {
    hide Tokens, Print, Skip, Here, Narrow, Quoted, TextToken;
    match ms
    case NoMembers => SkipNone(ts, k);
    case Member(before, key, cb, ca, value, after, rest) =>
      var p := at + |sep + before|;
      var q := p + |Quoted(key)| + |cb + ":" + ca|;
      var q2 := q + |Print(value)| + |after|;
      var more := MemberTokens(rest, ",", q2);
      HereParts(ts, k, [TextToken(key, p)], Tokens(value, q) + more);
      HereFirst(ts, k, TextToken(key, p));
      HereParts(ts, k + 1, Tokens(value, q), more);
      KeyHasNoSize(key, p);
      SkipFirst(ts, k, 1 + 2 * MemberCount(rest));
      SkipTree(ts, k + 1, value, q);
      SkipMembers(ts, k + 1 + |Tokens(value, q)|, rest, ",", q2);
      SkipAdds(ts, k + 1, 1, 2 * MemberCount(rest));
  }

  lemma KeyHasNoSize(key: string, at: nat)
    ensures TextToken(key, at).size == 0 && TextToken(key, at).kind == String
  {
  }

  // ----- the pairs of a printed object -----

  function TokenCount(j: Json): nat { |Tokens(j, 0)| }

  lemma {:induction false} CountsAgree(j: Json, a: nat, b: nat)
    ensures |Tokens(j, a)| == |Tokens(j, b)|
    decreases j
  {
    hide Print, ElemTokens, MemberTokens;
    match j
    case Literal(_) =>
    case Text(_) =>
    case Raw(_) =>
    case List(blank, elems) => ElemsAgree(elems, "", a + 1 + |blank|, b + 1 + |blank|);
    case Dict(blank, members) => MembersAgree(members, "", a + 1 + |blank|, b + 1 + |blank|);
  }

  lemma {:induction false} ElemsAgree(es: Elems, sep: string, a: nat, b: nat)
    ensures |ElemTokens(es, sep, a)| == |ElemTokens(es, sep, b)|
    decreases es
  {
    hide Tokens, Print;
    match es
    case NoElems =>
    case Elem(before, value, after, rest) =>
      var p, q := a + |sep + before|, b + |sep + before|;
      CountsAgree(value, p, q);
      ElemsAgree(rest, ",", p + |Print(value)| + |after|, q + |Print(value)| + |after|);
  }

  lemma {:induction false} MembersAgree(ms: Members, sep: string, a: nat, b: nat)
    ensures |MemberTokens(ms, sep, a)| == |MemberTokens(ms, sep, b)|
    decreases ms
  {
    hide Tokens, Print, Quoted, TextToken;
    match ms
    case NoMembers =>
    case Member(before, key, cb, ca, value, after, rest) =>
      var d := |sep + before| + |Quoted(key)| + |cb + ":" + ca|;
      CountsAgree(value, a + d, b + d);
      MembersAgree(rest, ",", a + d + |Print(value)| + |after|, b + d + |Print(value)| + |after|);
  }

  /** The name and value of the p-th member. */
  function NameAt(ms: Members, p: nat): string
    requires p < MemberCount(ms)
  {
    if p == 0 then ms.key else NameAt(ms.rest, p - 1)
  }

  function ValueOf(ms: Members, p: nat): Json
    requires p < MemberCount(ms)
  {
    if p == 0 then ms.value else ValueOf(ms.rest, p - 1)
  }

  /** What stands between the quotes of a value, if it is a string. */
  function SpellingOf(j: Json): Option<string> {
    match j
    case Text(content) => Some(Escape(content))
    case Raw(spelling) => Some(spelling)
    case _ => None
  }

  /** Where its name's token is. */
  function NameIndex(ms: Members, p: nat): nat
    requires p <= MemberCount(ms)
  {
    if p == 0 then 1 else 1 + TokenCount(ms.value) + NameIndex(ms.rest, p - 1)
  }

  /** Where its value starts in the text. */
  function ValuePos(ms: Members, sep: string, at: nat, p: nat): nat
    requires p < MemberCount(ms)
  {
    var q := at + |sep + ms.before| + |Quoted(ms.key)| + |ms.colonBefore + ":" + ms.colonAfter|;
    if p == 0 then q else ValuePos(ms.rest, ",", q + |Print(ms.value)| + |ms.after|, p - 1)
  }

  /** The tokens of the p-th pair, among those of all members from k on. */
  lemma {:induction false} PairHere(ts: seq<Token>, k: nat, ms: Members, sep: string, at: nat, p: nat)
    returns (a: nat, b: nat)
    requires Here(ts, k, MemberTokens(ms, sep, at)) && p < MemberCount(ms) && NarrowMembers(ms)
    ensures var c := k + NameIndex(ms, p) - 1;
      && c + 1 < |ts| && ts[c] == TextToken(NameAt(ms, p), a)
      && Here(ts, c + 1, Tokens(ValueOf(ms, p), b)) && Narrow(ValueOf(ms, p))
      && NameIndex(ms, p + 1) == NameIndex(ms, p) + 1 + |Tokens(ValueOf(ms, p), b)|
    ensures b == ValuePos(ms, sep, at, p)
    ensures at + |sep| <= a && a + |Quoted(NameAt(ms, p))| < b && (p > 0 ==>
      ValuePos(ms, sep, at, p - 1) + |Print(ValueOf(ms, p - 1))| < a)
    decreases ms
  {
    hide Tokens, Print, Here, Quoted, TextToken, Narrow;
    var value, rest := ms.value, ms.rest;
    var n := at + |sep + ms.before|;
    var q := n + |Quoted(ms.key)| + |ms.colonBefore + ":" + ms.colonAfter|;
    var q2 := q + |Print(value)| + |ms.after|;
    var more := MemberTokens(rest, ",", q2);
    HereParts(ts, k, [TextToken(ms.key, n)], Tokens(value, q) + more);
    HereFirst(ts, k, TextToken(ms.key, n));
    HereParts(ts, k + 1, Tokens(value, q), more);
    CountsAgree(value, q, 0);
    if p == 0 {
      a, b := n, q;
    } else {
      a, b := PairHere(ts, k + 1 + |Tokens(value, q)|, rest, ",", q2, p - 1);
    }
  }

  /** ts are the tokens of a printed object with these members, and can be navigated. */
  ghost predicate Printed(ts: seq<Token>, blank: string, ms: Members, at: nat) {
    && ts == Tokens(Dict(blank, ms), at) && Narrow(Dict(blank, ms))
    && Navigable(ts) && forall i :: 0 <= i < |ts| ==> Children(ts, i, |ts|) == ts[i].size
  }

  lemma ObjectFirst(ts: seq<Token>, blank: string, ms: Members, at: nat)
    requires Printed(ts, blank, ms, at)
    ensures Navigable(ts) && ts != [] && ts[0].kind == Object && Children(ts, 0, |ts|) == 2 * MemberCount(ms)
    ensures Here(ts, 1, MemberTokens(ms, "", at + 1 + |blank|)) && NarrowMembers(ms)
  {
    hide Navigable, MemberTokens, Print, Children, Here;
    var us := MemberTokens(ms, "", at + 1 + |blank|);
    assert ts == [ts[0]] + us && ts[0].size == Wrapped(2 * MemberCount(ms)) == 2 * MemberCount(ms);
    RestIsHere(ts, us);
  }

  lemma SizeIsChildren(ts: seq<Token>, blank: string, ms: Members, at: nat, i: nat)
    requires Printed(ts, blank, ms, at) && i < |ts|
    ensures Children(ts, i, |ts|) == ts[i].size
  {
  }

  /** The tokens of the p-th pair: a name, and a value that ends where the next pair starts. */
  lemma PairTokens(ts: seq<Token>, blank: string, ms: Members, at: nat, p: nat) returns (a: nat, b: nat)
    requires Printed(ts, blank, ms, at) && p < MemberCount(ms)
    ensures var c := NameIndex(ms, p);
      && c + 1 < |ts| && ts[c] == TextToken(NameAt(ms, p), a)
      && Here(ts, c + 1, Tokens(ValueOf(ms, p), b))
      && Children(ts, c, |ts|) == 0 && End(ts, c) == c + 1 && End(ts, c + 1) == NameIndex(ms, p + 1)
    ensures b == ValuePos(ms, "", at + 1 + |blank|, p) && a + |Quoted(NameAt(ms, p))| < b
    ensures p > 0 ==> ValuePos(ms, "", at + 1 + |blank|, p - 1) + |Print(ValueOf(ms, p - 1))| < a
  {
    hide Navigable, MemberTokens, Tokens, Print, Children, Here, Printed, NarrowMembers, Narrow, TextToken,
         NameIndex, Skip;
    ObjectFirst(ts, blank, ms, at);
    a, b := PairHere(ts, 1, ms, "", at + 1 + |blank|, p);
    var c := NameIndex(ms, p);
    KeyHasNoSize(NameAt(ms, p), a);
    SizeIsChildren(ts, blank, ms, at, c);
    LeafEnd(ts, c);
    SizesNatural(ts);
    SkipSubtree(ts, c + 1);
    SkipTree(ts, c + 1, ValueOf(ms, p), b);
  }

  /** The p-th name and the p-th value are where the navigator looks for them. */
  lemma {:induction false} PairAt(ts: seq<Token>, blank: string, ms: Members, at: nat, p: nat)
    requires Printed(ts, blank, ms, at) && p < MemberCount(ms)
    ensures KeyAt(ts, 0, p, NameIndex(ms, p)) && ValueAt(ts, 0, p, NameIndex(ms, p) + 1)
    decreases p
  {
    hide Navigable, MemberTokens, Tokens, Print, Children, Here, Printed, Parent, End, TextToken;
    ObjectFirst(ts, blank, ms, at);
    var a, b := PairTokens(ts, blank, ms, at, p);
    if p == 0 {
      FirstChild(ts, 0);
    } else {
      PairAt(ts, blank, ms, at, p - 1);
      var a', b' := PairTokens(ts, blank, ms, at, p - 1);
      FollowingChild(ts, 0, 2 * (p - 1) + 1, NameIndex(ms, p - 1) + 1);
    }
    FollowingChild(ts, 0, 2 * p, NameIndex(ms, p));
  }

  lemma RestIsHere(ts: seq<Token>, us: seq<Token>)
    requires ts != [] && ts == [ts[0]] + us
    ensures Here(ts, 1, us)
  {
    assert ts[1..1 + |us|] == us;
  }

  /** All keys of a printed object are leaves, and there are no other keys. */
  lemma OnlyTheseKeys(ts: seq<Token>, blank: string, ms: Members, at: nat, p: nat, c: nat)
    requires Printed(ts, blank, ms, at) && KeyAt(ts, 0, p, c)
    ensures p < MemberCount(ms) && c == NameIndex(ms, p) && Children(ts, c, |ts|) == 0
  {
    hide Navigable, MemberTokens, Tokens, Print, Children, Here, Printed, Parent, End, TextToken;
    ObjectFirst(ts, blank, ms, at);
    PairAt(ts, blank, ms, at, p);
    ChildUnique(ts, 0, 2 * p, c, NameIndex(ms, p));
    var a, b := PairTokens(ts, blank, ms, at, p);
  }

  lemma KeysAreLeaves(ts: seq<Token>, blank: string, ms: Members, at: nat)
    requires Printed(ts, blank, ms, at)
    ensures LeafKeys(ts, 0)
  {
    hide Printed, KeyAt, Children;
    ObjectFirst(ts, blank, ms, at);
    forall p: nat, c: nat | KeyAt(ts, 0, p, c) ensures Children(ts, c, |ts|) == 0 {
      OnlyTheseKeys(ts, blank, ms, at, p, c);
    }
  }

  // ----- the lookup -----

  /** The first member with this name as it stands in the text. */
  function FindMember(ms: Members, key: string): (p: nat)
    ensures p <= MemberCount(ms)
  {
    match ms
    case NoMembers => 0
    case Member(_, name, _, _, _, _, rest) => if Escape(name) == key then 0 else 1 + FindMember(rest, key)
  }

  lemma {:induction false} FindMemberIs(ms: Members, key: string, p: nat)
    requires p < MemberCount(ms)
    ensures p < FindMember(ms, key) ==> Escape(NameAt(ms, p)) != key
    ensures p == FindMember(ms, key) ==> Escape(NameAt(ms, p)) == key
    decreases p
  {
    if p > 0 && Escape(ms.key) != key {
      FindMemberIs(ms.rest, key, p - 1);
    }
  }

  lemma SpanSpells(text: string, t: Token, span: string, key: string)
    requires 0 <= t.start && t.end == t.start + |span| && Has(text, t.start, span)
    ensures Spells(text, t, key) <==> span == key
  {
    if Spells(text, t, key) {
      var here := text[t.start..t.start + |span|];
      assert forall q :: 0 <= q < |key| ==> span[q] == here[q] == At(text, t.start + q) == key[q];
    }
  }

  /** A name's token spells a key exactly when the escaped name is that key. */
  lemma NameSpells(text: string, ts: seq<Token>, blank: string, ms: Members, at: nat, p: nat, key: string)
    requires Printed(ts, blank, ms, at) && p < MemberCount(ms) && Has(text, at, Print(Dict(blank, ms)))
    ensures NameIndex(ms, p) < |ts|
    ensures Spells(text, ts[NameIndex(ms, p)], key) <==> Escape(NameAt(ms, p)) == key
  {
    hide Navigable, Tokens, Print, Children, Here, Parent, End, Has, Spells, Escape, Spellings, NameIndex, NameAt,
         Narrow;
    var j := Dict(blank, ms);
    var a, b := PairTokens(ts, blank, ms, at, p);
    TokensSpan(text, at, j);
    var c := NameIndex(ms, p);
    SpellingOfName(ms, p, blank);
    SpanSpells(text, ts[c], Escape(NameAt(ms, p)), key);
  }

  lemma {:induction false} SpellingCounts(j: Json, at: nat)
    ensures |Spellings(j)| == |Tokens(j, at)|
  {
    SpansLength(Print(j), j);
    CountsAgree(j, at, 0);
  }

  lemma SpansLength(text: string, j: Json)
    requires text == Print(j)
    ensures |Spellings(j)| == |Tokens(j, 0)|
  {
    hide Tokens, Print, Spellings;
    assert Has(text, 0, Print(j));
    TokensSpan(text, 0, j);
  }

  lemma {:induction false} MemberSpellingAt(ms: Members, p: nat)
    requires p < MemberCount(ms)
    ensures NameIndex(ms, p) - 1 < |MemberSpellings(ms)|
      && MemberSpellings(ms)[NameIndex(ms, p) - 1] == Some(Escape(NameAt(ms, p)))
    decreases p
  {
    hide Spellings, Tokens;
    if p > 0 {
      SpellingCounts(ms.value, 0);
      MemberSpellingAt(ms.rest, p - 1);
    }
  }

  lemma SpellingOfName(ms: Members, p: nat, blank: string)
    requires p < MemberCount(ms)
    ensures NameIndex(ms, p) < |Spellings(Dict(blank, ms))|
    ensures Spellings(Dict(blank, ms))[NameIndex(ms, p)] == Some(Escape(NameAt(ms, p)))
  {
    hide MemberSpellings;
    MemberSpellingAt(ms, p);
  }

  /** What the search on a printed object finds: the value of the first member of that name, and
      nothing exactly when there is none. */
  lemma LookupFinds(text: string, ts: seq<Token>, blank: string, ms: Members, at: nat, key: string, r: int, pair: nat)
    requires Printed(ts, blank, ms, at) && Has(text, at, Print(Dict(blank, ms)))
    requires r == -1 || (0 < r - 1 && PairNamed(text, ts, 0, pair, r - 1, key) && NoPairBelow(text, ts, 0, pair, key))
    requires r == -1 ==> NoPair(text, ts, 0, key)
    ensures var p := FindMember(ms, key);
      r == if p < MemberCount(ms) then NameIndex(ms, p) + 1 else -1
  {
    hide Printed, Print, Tokens, KeyAt, Spells, Escape, NameIndex, NameAt, FindMember;
    var p := FindMember(ms, key);
    if p < MemberCount(ms) {
      FindMemberIs(ms, key, p);
      PairAt(ts, blank, ms, at, p);
      NameSpells(text, ts, blank, ms, at, p, key);
      assert PairNamed(text, ts, 0, p, NameIndex(ms, p), key);
    }
    if r != -1 {
      OnlyTheseKeys(ts, blank, ms, at, pair, r - 1);
      NameSpells(text, ts, blank, ms, at, pair, key);
      FindMemberIs(ms, key, pair);
    }
  }

  /** jsmn_key2val_str. */
  method KeyToText(text: string, all: seq<Token>, ghost ts: seq<Token>, tokens: nat, key: string, dst: array<char>)
    returns (found: bool, n: nat, ghost r: int)
    requires Terminated(all, ts) && tokens < |ts| && dst.Length >= 1
    requires forall i :: 0 <= i < |ts| ==> ts[i].end <= |text|
    modifies dst
    ensures r == if ts[tokens].kind == Object then Search(text, ts, key, tokens + 1, Pairs(ts, tokens)) else -1
    ensures -1 <= r < |ts| && (found <==> r != -1 && ts[r].kind == String)
    ensures !found ==> dst[..] == old(dst[..])
    ensures found ==> 0 <= ts[r].start <= ts[r].end <= |text| && n < dst.Length && dst[n] == '\0'
    ensures found ==>
      dst[..n] == Unescape(text[ts[r].start..], ts[r].end - ts[r].start, 0, old(dst[..dst.Length - 1]))
  {
    hide Unescape, Search;
    var k := KeyValue(text, all, ts, tokens, key);
    r := k;
    if k == -1 {
      return false, 0, r;
    }
    assert all[k] == ts[k];
    TokenInText(ts, k);
    found, n := TokenText(text, all[k], dst);
  }

  lemma TokenInText(ts: seq<Token>, k: nat)
    requires Navigable(ts) && k < |ts|
    ensures 0 <= ts[k].start <= ts[k].end
  {
  }

  /** What reading a string leaf over `stale` bytes gives. */
  function ReadingOf(j: Json, stale: string): string
    requires SpellingOf(j).Some?
  {
    match j
    case Text(content) => if |content| <= |stale| then content else content[..|stale|]
    case Raw(spelling) => Unescape(spelling, |spelling|, 0, stale)
  }

  /** The whole way: an object is printed, tokenized, and a key looked up in it.  What comes back
      is the content of the first member whose name stands in the text as that key, if that is a
      string, as far as it fits; otherwise nothing is written. */
  method Get(text: string, key: string, dst: array<char>, capacity: nat,
             ghost lead: string, ghost blank: string, ghost ms: Members, ghost trail: string)
    returns (found: bool, n: nat)
    requires Blank(lead) && Blank(trail) && Printable(Dict(blank, ms)) && Narrow(Dict(blank, ms))
    requires text == lead + Print(Dict(blank, ms)) + trail && |Tokens(Dict(blank, ms), |lead|)| <= capacity
    requires dst.Length >= 1
    modifies dst
    ensures var p := FindMember(ms, key);
      && (found <==> p < MemberCount(ms) && SpellingOf(ValueOf(ms, p)).Some?)
      && (!found ==> dst[..] == old(dst[..]))
      && (found ==> n < dst.Length && dst[n] == '\0')
      && (found ==> dst[..n] == ReadingOf(ValueOf(ms, p), old(dst[..dst.Length - 1])))
  {
    hide Print, Tokens, Printable, Narrow, Run, Unescape, NameIndex, ValueOf, FindMember, LeafKeys, Terminated;
    hide Navigable, Search, Pairs, Printed, Blank, SpellingOf, ReadingOf, Has, MemberCount;
    ghost var j := Dict(blank, ms);
    ghost var ts := Tokens(j, |lead|);
    var parser := new Parser();
    var tokens := new Token[capacity + 1];
    PrintThenParse(lead, j, trail, capacity);
    assert tokens[..0] == [];
    var code := parser.Parse(text, |text|, tokens, capacity);
    assert code == Success && tokens[..parser.toknext] == ts;
    tokens[parser.toknext] := Token(Invalid, 0, -1, -1);
    var all := tokens[..];
    assert all[..|ts|] == ts;
    Prepared(lead, blank, ms, trail, all);
    ghost var stale := dst[..dst.Length - 1];
    ghost var r;
    found, n, r := KeyToText(text, all, ts, 0, key, dst);
    LookupReads(text, lead, blank, ms, trail, key, stale);
  }

  /** What the search ends at is a string exactly when the first member of that name is one, and reading
      it reads that. */
  lemma LookupReads(text: string, lead: string, blank: string, ms: Members, trail: string, key: string, stale: string)
    requires text == lead + Print(Dict(blank, ms)) + trail && Printable(Dict(blank, ms))
    requires var ts := Tokens(Dict(blank, ms), |lead|);
      Printed(ts, blank, ms, |lead|) && Navigable(ts) && LeafKeys(ts, 0) && Has(text, |lead|, Print(Dict(blank, ms)))
    ensures var ts, p := Tokens(Dict(blank, ms), |lead|), FindMember(ms, key);
      var r := Search(text, ts, key, 1, Pairs(ts, 0));
      && (0 <= r < |ts| && ts[r].kind == String <==> p < MemberCount(ms) && SpellingOf(ValueOf(ms, p)).Some?)
      && (p < MemberCount(ms) && SpellingOf(ValueOf(ms, p)).Some? ==>
        && 0 <= ts[r].start <= ts[r].end <= |text|
        && Unescape(text[ts[r].start..], ts[r].end - ts[r].start, 0, stale) == ReadingOf(ValueOf(ms, p), stale))
  {
    hide Print, Tokens, Printable, Navigable, Unescape, NameIndex, ValueOf, FindMember, LeafKeys, Search, Pairs, Has;
    hide NoPair, NoPairBelow, PairNamed, Printed, ReadsBack, PrintableMembers, SpellingOf, ReadingOf, MemberCount;
    var ts, p := Tokens(Dict(blank, ms), |lead|), FindMember(ms, key);
    var pair := FindsPair(text, ts, 0, key);
    var r := Search(text, ts, key, 1, Pairs(ts, 0));
    LookupFinds(text, ts, blank, ms, |lead|, key, r, pair);
    if p < MemberCount(ms) {
      ValueReadsBack(text, lead, blank, ms, trail, p, stale);
      DictPrintable(blank, ms);
      ValuePrintable(ms, p);
      if SpellingOf(ValueOf(ms, p)).Some? {
        ReadsBackIs(text, ts[r], ValueOf(ms, p), stale);
      }
    }
  }

  /** What the tokenizer leaves, with the sentinel behind it, is ready for the navigator. */
  lemma Prepared(lead: string, blank: string, ms: Members, trail: string, all: seq<Token>)
    requires Blank(lead) && Blank(trail) && Printable(Dict(blank, ms)) && Narrow(Dict(blank, ms))
    requires var ts := Tokens(Dict(blank, ms), |lead|);
      |ts| < |all| && all[..|ts|] == ts && all[|ts|].kind == Invalid
    ensures var j := Dict(blank, ms);
      var ts := Tokens(j, |lead|);
      var text := lead + Print(j) + trail;
      && Terminated(all, ts) && Navigable(ts) && LeafKeys(ts, 0) && ts[0].kind == Object
      && (forall i :: 0 <= i < |ts| ==> ts[i].end <= |text|)
      && Printed(ts, blank, ms, |lead|) && Has(text, |lead|, Print(j))
  {
    hide Print, Tokens, Printable, Narrow, Run, LeafKeys;
    var j := Dict(blank, ms);
    var ts := Tokens(j, |lead|);
    PrintedIsNavigable(lead, j, trail);
    KeysAreLeaves(ts, blank, ms, |lead|);
    DocumentParts(lead, Print(j), trail);
    ObjectFirst(ts, blank, ms, |lead|);
    EndsInText(lead, j, trail);
  }

  lemma ReadsBackIs(text: string, t: Token, j: Json, stale: string)
    requires Printable(j) && SpellingOf(j).Some? && ReadsBack(text, t, SpellingOf(j).value, stale)
    ensures 0 <= t.start <= t.end <= |text|
    ensures Unescape(text[t.start..], t.end - t.start, 0, stale) == ReadingOf(j, stale)
  {
    hide Unescape, SpellingText, Escape;
  }

  lemma {:induction false} ValuePrintable(ms: Members, p: nat)
    requires PrintableMembers(ms) && p < MemberCount(ms)
    ensures Printable(ValueOf(ms, p))
    decreases p
  {
    hide Printable;
    if p > 0 {
      ValuePrintable(ms.rest, p - 1);
    }
  }

  lemma DictPrintable(blank: string, ms: Members)
    requires Printable(Dict(blank, ms))
    ensures PrintableMembers(ms)
  {
  }

  lemma EndsInText(lead: string, j: Json, trail: string)
    requires Blank(lead) && Printable(j) && Blank(trail) && Finishes(j, trail)
    ensures forall i :: 0 <= i < |Tokens(j, |lead|)| ==> Tokens(j, |lead|)[i].end <= |lead + Print(j) + trail|
  {
    hide Tokens, Print, Printable, Run;
    var text := lead + Print(j) + trail;
    var ts := Tokens(j, |lead|);
    PrintThenParse(lead, j, trail, |ts|);
    RunKeeps(text, |text|, |ts|, INIT);
    var s := Run(text, |text|, |ts|, INIT).state;
    forall i | 0 <= i < |ts| ensures ts[i].end <= |text| {
      assert GoodToken(s.tokens[i], s.pos);
    }
  }

  /** The value's token is a string exactly when the value is one, and reads back as it. */
  lemma ValueReadsBack(text: string, lead: string, blank: string, ms: Members, trail: string, p: nat, stale: string)
    requires text == lead + Print(Dict(blank, ms)) + trail
    requires Printed(Tokens(Dict(blank, ms), |lead|), blank, ms, |lead|) && p < MemberCount(ms)
    ensures var ts := Tokens(Dict(blank, ms), |lead|);
      var v := NameIndex(ms, p) + 1;
      && v < |ts| && (ts[v].kind == String <==> SpellingOf(ValueOf(ms, p)).Some?)
      && (SpellingOf(ValueOf(ms, p)).Some? ==> ReadsBack(text, ts[v], SpellingOf(ValueOf(ms, p)).value, stale))
  {
    hide Print, Tokens, NameIndex, Printed, Spellings, ReadsBack, MemberSpellings, Here, Narrow;
    var ts := Tokens(Dict(blank, ms), |lead|);
    var v := NameIndex(ms, p) + 1;
    var a, b := PairTokens(ts, blank, ms, |lead|, p);
    LeavesComeBack(lead, Dict(blank, ms), trail, v, stale);
    SpellingOfValue(ms, p, blank);
  }

  lemma {:induction false} MemberValueAt(ms: Members, p: nat)
    requires p < MemberCount(ms)
    ensures NameIndex(ms, p) < |MemberSpellings(ms)|
    ensures MemberSpellings(ms)[NameIndex(ms, p)]
      == SpellingOf(ValueOf(ms, p))
    decreases p
  {
    hide Tokens;
    SpellingCounts(ms.value, 0);
    if p > 0 {
      hide Spellings;
      MemberValueAt(ms.rest, p - 1);
    }
  }

  lemma SpellingOfValue(ms: Members, p: nat, blank: string)
    requires p < MemberCount(ms)
    ensures NameIndex(ms, p) + 1 < |Spellings(Dict(blank, ms))|
    ensures Spellings(Dict(blank, ms))[NameIndex(ms, p) + 1]
      == SpellingOf(ValueOf(ms, p))
  {
    hide MemberSpellings;
    MemberValueAt(ms, p);
  }
}
