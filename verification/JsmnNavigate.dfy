/** The navigator of jsmn_api.c: walking a token array by its child counts alone.

    A token pointer is an index, NULL is -1.  `all` is the caller's array: the tokens of an
    accepted text followed by an INVALID sentinel. */
module JsmnNavigate {
  import opened CText
  import opened Jsmn
  import opened JsmnInvariant

  /** Child counts that did not wrap around in the signed char. */
  ghost predicate Navigable(ts: seq<Token>) {
    Accepted(ts) && forall j :: 0 <= j < |ts| ==> Children(ts, j, |ts|) <= 127
  }

  /** The array `all` holds the tokens ts and then the sentinel. */
  ghost predicate Terminated(all: seq<Token>, ts: seq<Token>) {
    Navigable(ts) && ts < all && all[|ts|].kind == Invalid
  }

  /** The first token that starts at or after the end of token i: just past its subtree. */
  function EndFrom(ts: seq<Token>, i: nat, k: nat): (r: nat)
    requires i < k <= |ts|
    ensures k <= r <= |ts|
    ensures r < |ts| ==> ts[r].start >= ts[i].end
    ensures forall x :: k <= x < r ==> ts[x].start < ts[i].end
    decreases |ts| - k
  {
    if k == |ts| || ts[k].start >= ts[i].end then k else EndFrom(ts, i, k + 1)
  }

  function End(ts: seq<Token>, i: nat): (r: nat)
    requires i < |ts|
    ensures i < r <= |ts|
  {
    EndFrom(ts, i, i + 1)
  }

  /** c is the p-th direct child of i, counting from 0. */
  ghost predicate IsChild(ts: seq<Token>, i: nat, p: nat, c: nat) {
    i < c < |ts| && Parent(ts, c) == i && Children(ts, i, c) == p
  }

  /** What the counting loop of jsmn_next does from token k with `range` subtrees to go. */
  function Skip(ts: seq<Token>, k: nat, range: int): (r: nat)
    requires k <= |ts|
    ensures k <= r <= |ts|
    decreases |ts| - k
  {
    if range <= 0 || k == |ts| then k else Skip(ts, k + 1, range - 1 + ts[k].size)
  }

  lemma {:induction false} SkipAdds(ts: seq<Token>, k: nat, a: nat, b: nat)
    requires k <= |ts| && forall x :: 0 <= x < |ts| ==> ts[x].size >= 0
    ensures Skip(ts, k, a + b) == Skip(ts, Skip(ts, k, a), b)
    decreases |ts| - k
  {
    if a > 0 && k < |ts| {
      SkipAdds(ts, k + 1, a - 1 + ts[k].size, b);
    }
  }

  lemma {:induction false} ChildrenMonotone(ts: seq<Token>, i: nat, m: nat, n: nat)
    requires m <= n <= |ts|
    ensures Children(ts, i, m) <= Children(ts, i, n)
    ensures (forall x :: m <= x < n ==> Parent(ts, x) != i) ==> Children(ts, i, m) == Children(ts, i, n)
    ensures (exists x :: m <= x < n && Parent(ts, x) == i) ==> Children(ts, i, m) < Children(ts, i, n)
  {
    if m < n {
      ChildrenMonotone(ts, i, m, n - 1);
    }
  }

  /** Tokens from the end of i on are not its children; tokens strictly inside i have a parent
      at i or above. */
  lemma ParentOutside(ts: seq<Token>, i: nat, x: nat)
    requires Accepted(ts) && i < x < |ts|
    ensures x >= End(ts, i) ==> Parent(ts, x) != i
    ensures x < End(ts, i) ==> Parent(ts, x) >= i
  {
    if x >= End(ts, i) {
      assert ts[x].start >= ts[End(ts, i)].start;
    }
  }

  lemma EndInside(ts: seq<Token>, i: nat, k: nat)
    requires Accepted(ts) && i < k < |ts| && Parent(ts, k) == i
    ensures End(ts, k) <= End(ts, i)
  {
    assert ts[k].end < ts[i].end;
  }

  lemma ParentPastEnd(ts: seq<Token>, i: nat, k: nat)
    requires Accepted(ts) && i < k < |ts| && Parent(ts, k) == i
    requires End(ts, k) < End(ts, i)
    ensures Parent(ts, End(ts, k)) == i
  {
    var e := End(ts, k);
    forall j | i < j < e
      ensures !Encloses(ts[j], ts[e].start)
    {
      if j < k {
        assert !Encloses(ts[j], ts[k].start);
        assert ts[k].start < ts[e].start;
      } else if j > k {
        assert ts[j].start < ts[k].end;
      }
    }
    assert Encloses(ts[i], ts[e].start);
  }

  lemma OneChild(ts: seq<Token>, i: nat, k: nat)
    requires Accepted(ts) && i < k < |ts| && Parent(ts, k) == i
    ensures Children(ts, i, End(ts, k)) == Children(ts, i, k) + 1
  {
    hide Accepted;
    forall x | k < x < End(ts, k)
      ensures Parent(ts, x) != i
    {
      ParentOutside(ts, k, x);
    }
    ChildrenMonotone(ts, i, k + 1, End(ts, k));
  }

  /** Where the next sibling of child k is looked for: still inside i, a child of i again. */
  lemma NextSibling(ts: seq<Token>, i: nat, k: nat)
    requires Accepted(ts) && i < k < |ts| && Parent(ts, k) == i
    ensures var e := End(ts, k);
      && e <= End(ts, i)
      && (e < End(ts, i) ==> Parent(ts, e) == i)
      && Children(ts, i, e) == Children(ts, i, k) + 1
  {
    var e := End(ts, k);
    EndInside(ts, i, k);
    if e < End(ts, i) {
      ParentPastEnd(ts, i, k);
    }
    OneChild(ts, i, k);
  }

  lemma NoChildPast(ts: seq<Token>, i: nat)
    requires Accepted(ts) && i < |ts|
    ensures Children(ts, i, End(ts, i)) == Children(ts, i, |ts|)
  {
    forall x | End(ts, i) <= x < |ts|
      ensures Parent(ts, x) != i
    {
      ParentOutside(ts, i, x);
    }
    ChildrenMonotone(ts, i, End(ts, i), |ts|);
  }

  lemma {:induction false} SkipChildren(ts: seq<Token>, i: nat, k: nat)
    requires Navigable(ts) && i < |ts| && i < k <= End(ts, i)
    requires k < End(ts, i) ==> Parent(ts, k) == i
    ensures Skip(ts, k, Children(ts, i, |ts|) - Children(ts, i, k)) == End(ts, i)
    decreases |ts| - k, 1
  {
    hide Accepted, Parent;
    var m := Children(ts, i, |ts|) - Children(ts, i, k);
    if k == End(ts, i) {
      NoChildPast(ts, i);
    } else {
      var e := End(ts, k);
      NextSibling(ts, i, k);
      SkipSubtree(ts, k);
      SkipChildren(ts, i, e);
      ChildrenMonotone(ts, i, e, |ts|);
      SizesNatural(ts);
      SkipAdds(ts, k, 1, m - 1);
    }
  }

  lemma SizesNatural(ts: seq<Token>)
    requires Navigable(ts)
    ensures forall x :: 0 <= x < |ts| ==> ts[x].size == Children(ts, x, |ts|) && ts[x].kind != Invalid
  {
  }

  /** The counting loop stops exactly past the subtree. */
  lemma {:induction false} SkipSubtree(ts: seq<Token>, i: nat)
    requires Navigable(ts) && i < |ts|
    ensures Skip(ts, i, 1) == End(ts, i)
    decreases |ts| - i, 0
  {
    SizesNatural(ts);
    NoChildYet(ts, i, i + 1);
    SkipChildren(ts, i, i + 1);
  }

  /** The children of i are found at i + 1 and then each past the previous one. */
  lemma FirstChild(ts: seq<Token>, i: nat)
    requires Navigable(ts) && i < |ts| && Children(ts, i, |ts|) > 0
    ensures IsChild(ts, i, 0, i + 1)
  {
    hide Accepted;
    NoChildYet(ts, i, i + 1);
    NoChildPast(ts, i);
    ParentOutside(ts, i, i + 1);
  }

  lemma FollowingChild(ts: seq<Token>, i: nat, p: nat, c: nat)
    requires Navigable(ts) && IsChild(ts, i, p, c) && p + 1 < Children(ts, i, |ts|)
    ensures End(ts, c) < |ts| && IsChild(ts, i, p + 1, End(ts, c))
  {
    NextSibling(ts, i, c);
    if End(ts, c) == End(ts, i) {
      NoChildPast(ts, i);
    }
  }

  /** A p-th child is unique. */
  lemma ChildUnique(ts: seq<Token>, i: nat, p: nat, c: nat, d: nat)
    requires IsChild(ts, i, p, c) && IsChild(ts, i, p, d)
    ensures c == d
  {
    if c < d {
      ChildrenMonotone(ts, i, c, d);
    } else if d < c {
      ChildrenMonotone(ts, i, d, c);
    }
  }

  lemma LeafEnd(ts: seq<Token>, i: nat)
    requires Navigable(ts) && i < |ts| && Children(ts, i, |ts|) == 0
    ensures End(ts, i) == i + 1
  {
    NoChildYet(ts, i, i + 1);
    SizesNatural(ts);
    SkipSubtree(ts, i);
  }

  /** Whatever text the tokenizer accepts, its tokens and a sentinel can be navigated, as long as
      no container has more children than the signed char can count. */
  lemma AcceptedIsNavigable(text: string, len: nat, cap: nat, sentinel: Token)
    requires Run(text, len, cap, INIT).code == Success && sentinel.kind == Invalid
    requires var ts := Run(text, len, cap, INIT).state.tokens;
      forall j :: 0 <= j < |ts| ==> Children(ts, j, |ts|) <= 127
    ensures var ts := Run(text, len, cap, INIT).state.tokens;
      Terminated(ts + [sentinel], ts)
  {
    SuccessIsAccepted(text, len, cap, INIT);
  }

  // ----- the pointer loops -----

  method Next(all: seq<Token>, ghost ts: seq<Token>, i: nat) returns (r: int)
    requires Terminated(all, ts) && i <= |ts|
    ensures i == |ts| ==> r == -1
    ensures i < |ts| ==> r == if End(ts, i) < |ts| then End(ts, i) else -1
  {
    SizesNatural(ts);
    if i < |ts| {
      SkipSubtree(ts, i);
    }
    var t, range := i, 1;
    while range > 0 && all[t].kind != Invalid
      invariant i <= t <= |ts| && range >= 0
      invariant Skip(ts, t, range) == Skip(ts, i, 1)
      decreases |ts| - t
    {
      assert ts[t] == all[t];
      range := range + all[t].size;
      t, range := t + 1, range - 1;
    }
    return if all[t].kind != Invalid then t else -1;
  }

  /** jsmn_array_value: the idx-th direct child of an array, and NULL past the last one. */
  method ArrayValue(all: seq<Token>, ghost ts: seq<Token>, tokens: nat, idx: nat) returns (r: int)
    requires Terminated(all, ts) && tokens < |ts|
    ensures if ts[tokens].kind == Array && idx < Children(ts, tokens, |ts|) then r > 0 && IsChild(ts, tokens, idx, r)
      else r == -1
  {
    SizesNatural(ts);
    assert ts[tokens] == all[tokens];
    var num := all[tokens].size;
    if all[tokens].kind != Array || num == 0 || idx >= num {
      return -1;
    }
    r := tokens + 1;
    FirstChild(ts, tokens);
    var left := idx;
    while left > 0 && r != -1
      invariant 0 <= left <= idx
      invariant tokens < r < |ts| && IsChild(ts, tokens, idx - left, r)
    {
      FollowingChild(ts, tokens, idx - left, r);
      r := Next(all, ts, r);
      left := left - 1;
    }
  }

  /** The `strlen` and `strncmp` test on a token's span. */
  predicate Spells(text: string, t: Token, key: string) {
    t.end - t.start == |key| && forall q :: 0 <= q < |key| ==> t.start + q >= 0 && At(text, t.start + q) == key[q]
  }

  /** c is the key of the p-th pair of i: a child of even rank that has a value after it. */
  ghost predicate KeyAt(ts: seq<Token>, i: nat, p: nat, c: nat) {
    IsChild(ts, i, 2 * p, c) && 2 * p + 1 < Children(ts, i, |ts|)
  }

  ghost predicate ValueAt(ts: seq<Token>, i: nat, p: nat, c: nat) {
    IsChild(ts, i, 2 * p + 1, c)
  }

  /** Keys as an object has them: leaves, not containers with something inside. */
  ghost predicate LeafKeys(ts: seq<Token>, i: nat) {
    i < |ts| && forall p: nat, c: nat :: KeyAt(ts, i, p, c) ==> Children(ts, c, |ts|) == 0
  }

  /** Pair p of object i has this key, at c. */
  ghost predicate PairNamed(text: string, ts: seq<Token>, i: nat, p: nat, c: nat, key: string) {
    KeyAt(ts, i, p, c) && Spells(text, ts[c], key)
  }

  /** The token after a leaf key is its value. */
  lemma ValueFollows(ts: seq<Token>, i: nat, p: nat, t: nat)
    requires Navigable(ts) && LeafKeys(ts, i) && KeyAt(ts, i, p, t)
    ensures t + 1 < |ts| && ValueAt(ts, i, p, t + 1)
  {
    assert Children(ts, t, |ts|) == 0;
    LeafEnd(ts, t);
    FollowingChild(ts, i, 2 * p, t);
  }

  /** The token past the value's subtree is the next key, if there is another pair. */
  lemma KeyFollows(ts: seq<Token>, i: nat, p: nat, v: nat)
    requires Navigable(ts) && ValueAt(ts, i, p, v)
    requires 2 * (p + 1) + 1 < Children(ts, i, |ts|)
    ensures End(ts, v) < |ts| && KeyAt(ts, i, p + 1, End(ts, v))
  {
    FollowingChild(ts, i, 2 * p + 1, v);
  }

  /** None of the first n pairs of i has this key. */
  ghost predicate NoPairBelow(text: string, ts: seq<Token>, i: nat, n: nat, key: string) {
    forall p: nat, c: nat :: p < n ==> !PairNamed(text, ts, i, p, c, key)
  }

  ghost predicate NoPair(text: string, ts: seq<Token>, i: nat, key: string) {
    forall p: nat, c: nat :: !PairNamed(text, ts, i, p, c, key)
  }

  lemma NextPairDiffers(text: string, ts: seq<Token>, i: nat, p: nat, t: nat, key: string)
    requires NoPairBelow(text, ts, i, p, key)
    requires KeyAt(ts, i, p, t) && !Spells(text, ts[t], key)
    ensures NoPairBelow(text, ts, i, p + 1, key)
  {
    forall c: nat | KeyAt(ts, i, p, c)
      ensures c == t
    {
      ChildUnique(ts, i, 2 * p, c, t);
    }
  }

  /** The search stands at the key of pair p (if there is such a pair) after p misses. */
  ghost predicate Searching(text: string, ts: seq<Token>, i: nat, key: string, p: nat, t: int) {
    && Navigable(ts) && LeafKeys(ts, i)
    && NoPairBelow(text, ts, i, p, key)
    && (p < ts[i].size / 2 ==> i < t < |ts| && KeyAt(ts, i, p, t))
  }

  lemma SearchStarts(text: string, ts: seq<Token>, i: nat, key: string)
    requires Navigable(ts) && LeafKeys(ts, i)
    ensures Searching(text, ts, i, key, 0, i + 1)
  {
    SizesNatural(ts);
    if 0 < ts[i].size / 2 {
      FirstChild(ts, i);
    }
  }

  /** The current key, its value, and where the search goes when the key differs. */
  lemma SearchRound(text: string, ts: seq<Token>, i: nat, key: string, p: nat, t: int)
    requires i < |ts| && Searching(text, ts, i, key, p, t) && p < ts[i].size / 2
    ensures i < t < t + 1 < |ts| && ts[t].kind != Invalid
    ensures KeyAt(ts, i, p, t) && ValueAt(ts, i, p, t + 1) && NoPairBelow(text, ts, i, p, key)
    ensures !Spells(text, ts[t], key) ==>
      Searching(text, ts, i, key, p + 1, if End(ts, t + 1) < |ts| then End(ts, t + 1) else -1)
  {
    SizesNatural(ts);
    ValueFollows(ts, i, p, t);
    if p + 1 < ts[i].size / 2 {
      KeyFollows(ts, i, p, t + 1);
    }
    if !Spells(text, ts[t], key) {
      NextPairDiffers(text, ts, i, p, t, key);
    }
  }

  lemma SearchFails(text: string, ts: seq<Token>, i: nat, key: string, p: nat, t: int)
    requires i < |ts| && Searching(text, ts, i, key, p, t) && p >= ts[i].size / 2
    ensures NoPair(text, ts, i, key)
  {
    SizesNatural(ts);
    assert forall q: nat, c: nat :: KeyAt(ts, i, q, c) ==> q < Children(ts, i, |ts|) / 2;
  }

  /** Where jsmn_next leads from token k: past its subtree, or NULL. */
  function After(ts: seq<Token>, k: nat): (r: int)
    requires Navigable(ts)
    ensures -1 <= r < |ts|
  {
    if k < |ts| && End(ts, k) < |ts| then End(ts, k) else -1
  }

  /** The search of jsmn_key_value from token t on with this many pairs to look at: the token behind
      the first one that spells the key, where each looked at is the one past the subtree that follows
      the one before. */
  function Search(text: string, ts: seq<Token>, key: string, t: int, pairs: nat): (r: int)
    requires Navigable(ts) && -1 <= t <= |ts|
    ensures r == -1 || 0 < r <= |ts|
    decreases pairs
  {
    if t == -1 || t == |ts| || pairs == 0 then -1
    else if Spells(text, ts[t], key) then t + 1
    else Search(text, ts, key, After(ts, t + 1), pairs - 1)
  }

  function Pairs(ts: seq<Token>, i: nat): nat
    requires Navigable(ts) && i < |ts|
  {
    SizesNatural(ts);
    ts[i].size / 2
  }

  /** In an object whose keys are leaves, from the key of pair p on after p misses. */
  lemma {:induction false} SearchFinds(text: string, ts: seq<Token>, i: nat, key: string, p: nat, t: int)
    returns (pair: nat)
    requires Navigable(ts) && i < |ts| && Searching(text, ts, i, key, p, t) && p <= Pairs(ts, i) && -1 <= t < |ts|
    ensures var r := Search(text, ts, key, t, Pairs(ts, i) - p);
      && (r == -1 || i < r - 1 < r < |ts|)
      && (r != -1 ==> PairNamed(text, ts, i, pair, r - 1, key) && ValueAt(ts, i, pair, r))
      && (r != -1 ==> NoPairBelow(text, ts, i, pair, key))
      && (r == -1 ==> NoPair(text, ts, i, key))
    decreases Pairs(ts, i) - p
  {
    hide Navigable, LeafKeys, KeyAt, ValueAt, Spells, NoPairBelow, NoPair, Searching, EndFrom;
    pair := p;
    if p == Pairs(ts, i) {
      SearchFails(text, ts, i, key, p, t);
    } else {
      SearchRound(text, ts, i, key, p, t);
      if !Spells(text, ts[t], key) {
        pair := SearchFinds(text, ts, i, key, p + 1, After(ts, t + 1));
      }
    }
  }

  /** So in an object whose keys are leaves the search ends at the value of the first direct pair with
      the key, never at a token from inside another value, and at NULL only when no pair has it. */
  lemma FindsPair(text: string, ts: seq<Token>, i: nat, key: string) returns (pair: nat)
    requires Navigable(ts) && LeafKeys(ts, i) && i < |ts|
    ensures var r := Search(text, ts, key, i + 1, Pairs(ts, i));
      && (r == -1 || i < r - 1 < r < |ts|)
      && (r != -1 ==> PairNamed(text, ts, i, pair, r - 1, key) && ValueAt(ts, i, pair, r))
      && (r != -1 ==> NoPairBelow(text, ts, i, pair, key))
      && (r == -1 ==> NoPair(text, ts, i, key))
  {
    hide Navigable, LeafKeys, KeyAt, ValueAt, Spells, NoPairBelow, NoPair, Searching, EndFrom;
    SearchStarts(text, ts, i, key);
    if Pairs(ts, i) == 0 {
      pair := 0;
      SearchFails(text, ts, i, key, 0, i + 1);
    } else {
      SearchRound(text, ts, i, key, 0, i + 1);
      pair := SearchFinds(text, ts, i, key, 0, i + 1);
    }
  }

  /** Within i, a token not behind a child ends not behind it. */
  lemma EndsBefore(ts: seq<Token>, i: nat, x: nat, v: nat)
    requires Accepted(ts) && i < x <= v < |ts| && Parent(ts, v) == i
    ensures End(ts, x) <= End(ts, v)
  {
    var e := End(ts, v);
    if x < v && e < |ts| {
      assert !Encloses(ts[x], ts[v].start);
      assert ts[x].start < ts[v].start < ts[e].start;
      assert ts[e].start >= ts[x].end;
    }
  }

  /** Whatever the keys are, the search never comes past the key it would stand at if they were leaves;
      so it never ends at the sentinel. */
  lemma {:induction false} SearchInside(text: string, ts: seq<Token>, key: string, i: nat, t: int, pairs: nat,
                                        p: nat, c: nat)
    requires Navigable(ts) && i < t <= c && IsChild(ts, i, 2 * p, c) && 2 * (p + pairs) <= Children(ts, i, |ts|)
    ensures Search(text, ts, key, t, pairs) < |ts|
    decreases pairs
  {
    hide Accepted, Spells, EndFrom;
    if pairs > 0 {
      FollowingChild(ts, i, 2 * p, c);
      var v := End(ts, c);
      assert t + 1 <= c + 1 <= v < |ts|;
      if pairs > 1 {
        FollowingChild(ts, i, 2 * p + 1, v);
        EndsBefore(ts, i, t + 1, v);
        SearchInside(text, ts, key, i, After(ts, t + 1), pairs - 1, p + 1, End(ts, v));
      }
    }
  }

  lemma FoundInside(text: string, ts: seq<Token>, key: string, i: nat)
    requires Navigable(ts) && i < |ts|
    ensures Search(text, ts, key, i + 1, Pairs(ts, i)) < |ts|
  {
    hide Accepted, Spells, EndFrom;
    SizesNatural(ts);
    if Pairs(ts, i) > 0 {
      FirstChild(ts, i);
      SearchInside(text, ts, key, i, i + 1, Pairs(ts, i), 0, i + 1);
    }
  }

  /** jsmn_key_value: the search over the pairs of an object. */
  method KeyValue(text: string, all: seq<Token>, ghost ts: seq<Token>, tokens: nat, key: string) returns (r: int)
    requires Terminated(all, ts) && tokens <= |ts|
    ensures r == if tokens < |ts| && ts[tokens].kind == Object then
        Search(text, ts, key, tokens + 1, Pairs(ts, tokens)) else -1
    ensures r < |ts|
  {
    hide Navigable, Spells, EndFrom;
    SizesNatural(ts);
    var t: int := tokens;
    var pairs := all[t].size / 2;
    if all[t].kind != Object || pairs == 0 {
      return -1;
    }
    assert ts[tokens] == all[tokens];
    FoundInside(text, ts, key, tokens);
    t := t + 1;
    while t != -1 && all[t].kind != Invalid && pairs > 0
      invariant pairs >= 0 && -1 <= t <= |ts|
      invariant Search(text, ts, key, t, pairs) == Search(text, ts, key, tokens + 1, Pairs(ts, tokens))
      decreases pairs
    {
      assert ts[t] == all[t];
      if Spells(text, all[t], key) {
        return t + 1;
      }
      t := Next(all, ts, t + 1);
      pairs := pairs - 1;
    }
    return -1;
  }
}
