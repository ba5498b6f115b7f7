/** What the token array looks like after any call, on any input. */
module JsmnInvariant {
  import opened CText
  import opened Jsmn

  /** Container t is still open at, or closes after, a token that starts at `start`. */
  predicate Encloses(t: Token, start: int) {
    t.Container() && t.start < start && (t.end == -1 || start < t.end)
  }

  /** The innermost container around token k, searched below index i; -1 for none. */
  function ParentBelow(ts: seq<Token>, k: nat, i: nat): (r: int)
    requires i <= k < |ts|
    ensures -1 <= r < i
    ensures r != -1 ==> Encloses(ts[r], ts[k].start)
    ensures forall j :: r < j < i ==> !Encloses(ts[j], ts[k].start)
  {
    if i == 0 then -1
    else if Encloses(ts[i - 1], ts[k].start) then i - 1
    else ParentBelow(ts, k, i - 1)
  }

  function Parent(ts: seq<Token>, k: nat): int
    requires k < |ts|
  {
    ParentBelow(ts, k, k)
  }

  /** How many of the first n tokens have j as innermost container. */
  function Children(ts: seq<Token>, j: int, n: nat): nat
    requires n <= |ts|
  {
    if n == 0 then 0
    else Children(ts, j, n - 1) + if Parent(ts, n - 1) == j then 1 else 0
  }

  /** An int as a signed char holds it. */
  function Wrapped(n: int): int {
    (n + 128) % 256 - 128
  }

  ghost predicate Ordered(ts: seq<Token>) {
    forall i, j :: 0 <= i < j < |ts| ==> ts[i].start < ts[j].start
  }

  /** A closed token ends before a later one starts, or is a container and wholly contains it. */
  ghost predicate Nested(ts: seq<Token>) {
    forall i, j :: 0 <= i < j < |ts| && !ts[i].Open() ==>
      ts[i].end <= ts[j].start || (ts[i].Container() && !ts[j].Open() && ts[j].end < ts[i].end)
  }

  predicate GoodToken(t: Token, pos: nat) {
    && t.kind != Invalid
    && 0 <= t.start < pos
    && (t.Open() ==> t.Container())
    && (!t.Open() ==> t.start <= t.end <= pos)
    && (!t.Open() && t.Container() ==> t.start < t.end)
  }

  ghost predicate AllGood(ts: seq<Token>, pos: nat) {
    forall i :: 0 <= i < |ts| ==> GoodToken(ts[i], pos)
  }

  ghost predicate Sized(ts: seq<Token>) {
    forall j :: 0 <= j < |ts| ==> ts[j].size == Wrapped(Children(ts, j, |ts|))
  }

  ghost predicate WellFormed(s: State) {
    && s.Valid()
    && AllGood(s.tokens, s.pos)
    && Ordered(s.tokens)
    && Nested(s.tokens)
    && s.super == LastOpen(s.tokens, |s.tokens|)
    && Sized(s.tokens)
  }

  // ----- parents and counts do not change once a token is there -----

  /** ts and us agree on where their first n tokens start and on which of them enclose which. */
  ghost predicate SameShape(ts: seq<Token>, us: seq<Token>, n: nat) {
    && n <= |ts| && n <= |us|
    && forall i, k :: 0 <= i < k < n ==>
      (Encloses(ts[i], ts[k].start) <==> Encloses(us[i], us[k].start))
  }

  lemma {:induction false} SameParent(ts: seq<Token>, us: seq<Token>, n: nat, k: nat, i: nat)
    requires SameShape(ts, us, n) && i <= k < n
    ensures ParentBelow(ts, k, i) == ParentBelow(us, k, i)
  {
    if i > 0 {
      SameParent(ts, us, n, k, i - 1);
    }
  }

  lemma {:induction false} SameChildren(ts: seq<Token>, us: seq<Token>, j: int, n: nat)
    requires SameShape(ts, us, n)
    ensures Children(ts, j, n) == Children(us, j, n)
  {
    hide Encloses;
    if n > 0 {
      SameParent(ts, us, n, n - 1, n - 1);
      SameChildren(ts, us, j, n - 1);
    }
  }

  lemma {:induction false} NoChildYet(ts: seq<Token>, j: nat, n: nat)
    requires n <= |ts| && n <= j + 1
    ensures Children(ts, j, n) == 0
  {
    if n > 0 {
      NoChildYet(ts, j, n - 1);
    }
  }

  // ----- one step -----

  lemma {:induction false} LastOpenSame(ts: seq<Token>, us: seq<Token>, n: nat)
    requires n <= |ts| && n <= |us|
    requires forall i :: 0 <= i < n ==> (ts[i].Open() <==> us[i].Open())
    ensures LastOpen(ts, n) == LastOpen(us, n)
  {
    if n > 0 {
      LastOpenSame(ts, us, n - 1);
    }
  }

  /** A new token becomes a child of the superior token, and of nothing else. */
  lemma NewTokenParent(s: State, t: Token, us: seq<Token>)
    requires WellFormed(s) && s.pos <= t.start
    requires us == Bump(s.tokens, s.super) + [t]
    ensures SameShape(s.tokens, us, |s.tokens|)
    ensures Parent(us, |s.tokens|) == s.super
  {
    var n := |s.tokens|;
    forall i | 0 <= i < n
      ensures Encloses(us[i], t.start) <==> us[i].Open()
    {
      assert GoodToken(s.tokens[i], s.pos);
    }
    if s.super != -1 {
      assert us[s.super].Open();
    }
  }

  lemma IncrementWraps(n: nat)
    ensures Increment(Wrapped(n)) == Wrapped(n + 1)
  {
  }

  /** The count of token j after a child of `super` was appended. */
  lemma CountAfterAdd(ts: seq<Token>, us: seq<Token>, super: int, j: nat)
    requires |us| == |ts| + 1 && j < |us|
    requires SameShape(ts, us, |ts|) && Parent(us, |ts|) == super < |ts|
    ensures j == |ts| ==> Children(us, j, |us|) == 0
    ensures j < |ts| ==> Children(us, j, |us|) == Children(ts, j, |ts|) + if j == super then 1 else 0
  {
    SameChildren(ts, us, j, |ts|);
    if j == |ts| {
      NoChildYet(us, j, |ts|);
    }
  }

  lemma AddedTokenSizes(s: State, t: Token, us: seq<Token>)
    requires WellFormed(s) && s.pos <= t.start && t.size == 0
    requires us == Bump(s.tokens, s.super) + [t]
    ensures Sized(us)
  {
    hide SameShape, Parent, Children, Ordered, Nested, AllGood, LastOpen;
    var ts, n := s.tokens, |s.tokens|;
    NewTokenParent(s, t, us);
    assert Sized(ts);
    forall j | 0 <= j < |us|
      ensures us[j].size == Wrapped(Children(us, j, |us|))
    {
      CountAfterAdd(ts, us, s.super, j);
      if j < n {
        assert ts[j].size == Wrapped(Children(ts, j, n));
        IncrementWraps(Children(ts, j, n));
      }
    }
  }

  lemma AddedTokenGood(ts: seq<Token>, super: int, t: Token, pos: nat, pos': nat)
    requires -1 <= super < |ts| && AllGood(ts, pos) && pos <= pos' && GoodToken(t, pos')
    ensures AllGood(Bump(ts, super) + [t], pos')
  {
    var us := Bump(ts, super) + [t];
    forall i | 0 <= i < |us|
      ensures GoodToken(us[i], pos')
    {
      if i < |ts| {
        assert GoodToken(ts[i], pos) && us[i] == ts[i].(size := us[i].size);
      }
    }
  }

  lemma AddedTokenOrdered(ts: seq<Token>, super: int, t: Token, pos: nat)
    requires -1 <= super < |ts| && AllGood(ts, pos) && pos <= t.start
    requires Ordered(ts)
    ensures Ordered(Bump(ts, super) + [t])
  {
    var us := Bump(ts, super) + [t];
    forall i, j | 0 <= i < j < |us|
      ensures us[i].start < us[j].start
    {
      assert GoodToken(ts[i], pos) && us[i] == ts[i].(size := us[i].size);
      if j < |ts| {
        assert us[j] == ts[j].(size := us[j].size);
      }
    }
  }

  lemma AddedTokenNested(ts: seq<Token>, super: int, t: Token, pos: nat)
    requires -1 <= super < |ts| && AllGood(ts, pos) && pos <= t.start
    requires Nested(ts)
    ensures Nested(Bump(ts, super) + [t])
  {
    var us := Bump(ts, super) + [t];
    forall i, j | 0 <= i < j < |us| && !us[i].Open()
      ensures us[i].end <= us[j].start || (us[i].Container() && !us[j].Open() && us[j].end < us[i].end)
    {
      assert GoodToken(ts[i], pos) && us[i] == ts[i].(size := us[i].size);
      if j < |ts| {
        assert us[j] == ts[j].(size := us[j].size);
      }
    }
  }

  lemma AddToken(s: State, t: Token, pos: nat, super: int)
    requires WellFormed(s) && s.pos <= t.start && s.pos < pos
    requires GoodToken(t, pos) && t.size == 0
    requires super == if t.Open() then |s.tokens| else s.super
    ensures WellFormed(State(pos, Bump(s.tokens, s.super) + [t], super))
  {
    hide Ordered, Nested, Sized, AllGood;
    var us := Bump(s.tokens, s.super) + [t];
    AddedTokenSizes(s, t, us);
    AddedTokenGood(s.tokens, s.super, t, s.pos, pos);
    AddedTokenOrdered(s.tokens, s.super, t, s.pos);
    AddedTokenNested(s.tokens, s.super, t, s.pos);
    LastOpenSame(s.tokens, us, |s.tokens|);
    assert LastOpen(us, |us|) == super;
  }

  lemma ClosedTokenOrder(s: State, us: seq<Token>)
    requires WellFormed(s) && s.super != -1
    requires us == s.tokens[s.super := s.tokens[s.super].(end := s.pos + 1)]
    ensures AllGood(us, s.pos + 1) && Ordered(us) && Nested(us)
  {
    var ts := s.tokens;
    forall i | 0 <= i < |ts|
      ensures GoodToken(us[i], s.pos + 1)
    {
      assert GoodToken(ts[i], s.pos);
    }
    forall i, j | 0 <= i < j < |us| && !us[i].Open()
      ensures us[i].end <= us[j].start || (us[i].Container() && !us[j].Open() && us[j].end < us[i].end)
    {
      assert GoodToken(ts[i], s.pos) && GoodToken(ts[j], s.pos);
    }
  }

  lemma ClosedTokenSizes(s: State, us: seq<Token>)
    requires WellFormed(s) && s.super != -1
    requires us == s.tokens[s.super := s.tokens[s.super].(end := s.pos + 1)]
    ensures Sized(us)
  {
    var ts, n := s.tokens, |s.tokens|;
    forall i, k | 0 <= i < k < n
      ensures Encloses(ts[i], ts[k].start) <==> Encloses(us[i], us[k].start)
    {
      assert GoodToken(ts[k], s.pos);
    }
    forall j | 0 <= j < n
      ensures us[j].size == Wrapped(Children(us, j, n))
    {
      SameChildren(ts, us, j, n);
    }
  }

  lemma CloseToken(s: State, kind: Kind)
    requires WellFormed(s) && CloseContainer(s, kind).Advance?
    ensures WellFormed(CloseContainer(s, kind).next)
  {
    hide Ordered, Nested, Sized, AllGood;
    var us := s.tokens[s.super := s.tokens[s.super].(end := s.pos + 1)];
    ClosedTokenOrder(s, us);
    ClosedTokenSizes(s, us);
    LastOpenBelow(us, |us|, s.super);
  }

  lemma {:induction false} LastOpenBelow(ts: seq<Token>, n: nat, i: nat)
    requires i <= n <= |ts|
    requires forall k :: i <= k < n ==> !ts[k].Open()
    ensures LastOpen(ts, n) == LastOpen(ts, i)
  {
    if i < n {
      LastOpenBelow(ts, n - 1, i);
    }
  }

  lemma LeafKeeps(s: State, cap: nat, kind: Kind, start: nat, end: nat, next: nat)
    requires WellFormed(s) && kind in {String, Primitive}
    requires s.pos <= start <= end <= next && s.pos < next && start < next
    ensures var r := AddLeaf(s, cap, kind, start, end, next); r.Advance? ==> WellFormed(r.next)
  {
    AddToken(s, Token(kind, 0, start, end), next, s.super);
  }

  lemma OpenKeeps(s: State, cap: nat, kind: Kind)
    requires WellFormed(s) && kind in {Object, Array}
    ensures var r := OpenContainer(s, cap, kind); r.Advance? ==> WellFormed(r.next)
  {
    AddToken(s, Token(kind, 0, s.pos, -1), s.pos + 1, |s.tokens|);
  }

  lemma CloseKeeps(s: State, kind: Kind)
    requires WellFormed(s)
    ensures var r := CloseContainer(s, kind); r.Advance? ==> WellFormed(r.next)
  {
    if CloseContainer(s, kind).Advance? {
      CloseToken(s, kind);
    }
  }

  lemma SkipKeeps(s: State)
    requires WellFormed(s)
    ensures WellFormed(s.(pos := s.pos + 1))
  {
    assert AllGood(s.tokens, s.pos + 1) by {
      assert AllGood(s.tokens, s.pos);
    }
  }

  lemma PrimitiveNonEmpty(text: string, len: nat, p: nat)
    requires StartsPrimitive(At(text, p))
    ensures var e := PrimitiveEnd(text, len, p); e.Found? ==> p < e.at
  {
  }

  lemma ConsumeKeeps(text: string, len: nat, cap: nat, s: State)
    requires WellFormed(s) && !AtEnd(text, len, s.pos)
    ensures var r := Consume(text, len, cap, s); r.Advance? ==> WellFormed(r.next)
  {
    hide WellFormed, CloseContainer, OpenContainer, AddLeaf, PrimitiveEnd, StringEnd;
    SkipKeeps(s);
    var c := At(text, s.pos);
    if c == '{' || c == '[' {
      OpenKeeps(s, cap, if c == '{' then Object else Array);
    } else if c == '}' || c == ']' {
      CloseKeeps(s, if c == '}' then Object else Array);
    } else if c == '"' {
      var e := StringEnd(text, len, s.pos + 1);
      if e.Found? {
        LeafKeeps(s, cap, String, s.pos + 1, e.at, e.at + 1);
      }
    } else if StartsPrimitive(c) {
      PrimitiveNonEmpty(text, len, s.pos);
      var e := PrimitiveEnd(text, len, s.pos);
      if e.Found? {
        LeafKeeps(s, cap, Primitive, s.pos, e.at, e.at);
      }
    }
  }

  /** Every call keeps the invariant, whatever the input and however it stops. */
  lemma {:induction false} RunKeeps(text: string, len: nat, cap: nat, s: State)
    requires WellFormed(s)
    ensures WellFormed(Run(text, len, cap, s).state)
    decreases len - s.pos
  {
    if !AtEnd(text, len, s.pos) {
      ConsumeKeeps(text, len, cap, s);
      match Consume(text, len, cap, s)
      case Halt(_) =>
      case Advance(next) => RunKeeps(text, len, cap, next);
    }
  }

  /** The tokens of an accepted text: every one closed, in order, properly nested, and each
      counting its children. */
  ghost predicate Accepted(ts: seq<Token>) {
    && (forall i :: 0 <= i < |ts| ==> ts[i].kind != Invalid && !ts[i].Open() && 0 <= ts[i].start <= ts[i].end)
    && Ordered(ts) && Nested(ts) && Sized(ts)
  }

  /** A call succeeds exactly when it reaches the end of the input with no container open. */
  lemma {:induction false} SuccessMeansClosed(text: string, len: nat, cap: nat, s: State)
    requires s.Valid()
    ensures var r := Run(text, len, cap, s);
      r.code == Success <==>
        AtEnd(text, len, r.state.pos) && forall i :: 0 <= i < |r.state.tokens| ==> !r.state.tokens[i].Open()
    decreases len - s.pos
  {
    if !AtEnd(text, len, s.pos) {
      match Consume(text, len, cap, s)
      case Halt(_) =>
      case Advance(next) => SuccessMeansClosed(text, len, cap, next);
    }
  }

  lemma SuccessIsAccepted(text: string, len: nat, cap: nat, s: State)
    requires WellFormed(s)
    ensures var r := Run(text, len, cap, s); r.code == Success ==> Accepted(r.state.tokens)
  {
    RunKeeps(text, len, cap, s);
    SuccessMeansClosed(text, len, cap, s);
    var r := Run(text, len, cap, s).state;
    assert forall i :: 0 <= i < |r.tokens| ==> GoodToken(r.tokens[i], r.pos);
  }

  lemma {:induction false} PosBound(text: string, len: nat, cap: nat, s: State)
    requires s.Valid() && s.pos <= len
    ensures Run(text, len, cap, s).state.pos <= len
    decreases len - s.pos
  {
    if !AtEnd(text, len, s.pos) {
      match Consume(text, len, cap, s)
      case Halt(_) =>
      case Advance(next) => PosBound(text, len, cap, next);
    }
  }

  /** From the initial state every field of every token fits the C struct, as long as the input
      length fits a signed short. */
  lemma FieldsFit(text: string, len: nat, cap: nat, i: nat)
    requires len <= MAX_LEN && i < |Run(text, len, cap, INIT).state.tokens|
    ensures var t := Run(text, len, cap, INIT).state.tokens[i];
      -128 <= t.size <= 127 && 0 <= t.start < MAX_LEN && -1 <= t.end <= MAX_LEN
  {
    var s := Run(text, len, cap, INIT).state;
    RunKeeps(text, len, cap, INIT);
    PosBound(text, len, cap, INIT);
    assert GoodToken(s.tokens[i], s.pos);
    assert s.tokens[i].size == Wrapped(Children(s.tokens, i, |s.tokens|));
  }
}
