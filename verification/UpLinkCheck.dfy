/** What the up-link manager stores and what it puts into a message, told character by character and
    without the scans and walks of UpLink. */
module UpLinkCheck {
  import opened UpLink

  // ----- the check -----

  predicate Digit(c: char) { 0x30 <= c as int <= 0x39 }

  /** Printable and no quote. */
  predicate Inside(c: char) { 0x20 <= c as int <= 0x7E && c != '"' }

  /** A quoted text, a run of digits and dots after a digit or a minus sign, or one of two words. */
  predicate ValueCore(s: string) {
    || (|s| >= 2 && s[0] == '"' && s[|s| - 1] == '"' && forall i :: 0 < i < |s| - 1 ==> Inside(s[i]))
    || (s != [] && (s[0] == '-' || Digit(s[0])) && forall i :: 0 < i < |s| ==> s[i] == '.' || Digit(s[i]))
    || s == "true" || s == "false"
  }

  predicate BlankOrControl(s: string) { forall i :: 0 <= i < |s| ==> s[i] as int <= 0x20 }

  /** From i to j stands a core, and around it only what is passed over. */
  predicate Framed(value: string, i: nat, j: nat) {
    i <= j <= |value| && BlankOrControl(value[..i]) && BlankOrControl(value[j..]) && ValueCore(value[i..j])
  }

  ghost predicate HasForm(value: string) { exists i, j :: Framed(value, i, j) }

  /** Digits, letters and the underscore. */
  predicate KeyForm(key: string) {
    forall i :: 0 <= i < |key| ==>
      var c := key[i] as int;
      0x30 <= c <= 0x39 || 0x41 <= c <= 0x5A || 0x61 <= c <= 0x7A || c == 0x5F
  }

  lemma KeyFormIs(key: string)
    ensures KeyForm(key) <==> forall c :: c in key ==> KeyChar(c)
  {
    assert forall i :: 0 <= i < |key| ==> key[i] in key;
  }

  /** A core begins and ends with something that is not passed over. */
  lemma CoreEnds(s: string)
    requires ValueCore(s)
    ensures s != [] && s[0] > ' ' && s[|s| - 1] > ' '
  {
  }

  lemma FrameIsUnique(value: string, i: nat, j: nat)
    requires Framed(value, i, j)
    ensures Head(value) == i && Tail(value) == j - 1 && i < j
  {
    hide ValueCore;
    var core := value[i..j];
    CoreEnds(core);
    assert core[0] == value[i] && core[|core| - 1] == value[j - 1];
    assert forall k :: 0 <= k < i ==> value[k] == value[..i][k];
    assert forall k :: j <= k < |value| ==> value[k] == value[j..][k - j];
  }

  lemma StringCore(value: string, i: nat, j: nat)
    requires i < j <= |value| && Head(value) == i && Tail(value) == j - 1
    ensures var s := value[i..j];
      AsString(value) == (|s| >= 2 && s[0] == '"' && s[|s| - 1] == '"' && forall k :: 0 < k < |s| - 1 ==> Inside(s[k]))
  {
    var s := value[i..j];
    assert (forall k :: 0 < k < |s| - 1 ==> Inside(s[k])) == (forall k :: i < k < j - 1 ==> Inside(value[k])) by {
      SliceInside(value, i, j);
    }
  }

  lemma SliceInside(value: string, i: nat, j: nat)
    requires i < j <= |value|
    ensures (forall k :: 0 < k < j - i - 1 ==> Inside(value[i..j][k]))
      == (forall k :: i < k < j - 1 ==> Inside(value[k]))
  {
    hide Inside;
    var s := value[i..j];
    assert forall k :: i <= k < j ==> value[k] == s[k - i];
    assert forall k :: 0 <= k < j - i ==> s[k] == value[k + i];
  }

  lemma NumberCore(value: string, i: nat, j: nat)
    requires i < j <= |value| && Head(value) == i && Tail(value) == j - 1
    ensures var s := value[i..j];
      AsNumber(value) <==> (s[0] == '-' || Digit(s[0])) && forall k :: 0 < k < |s| ==> s[k] == '.' || Digit(s[k])
  {
    var s := value[i..j];
    assert forall k :: i <= k < j ==> value[k] == s[k - i];
    assert forall k :: 0 <= k < j - i ==> s[k] == value[k + i];
  }

  lemma CoreIs(value: string, i: nat, j: nat)
    requires i < j <= |value| && Head(value) == i && Tail(value) == j - 1
    ensures WellFormed(value) <==> ValueCore(value[i..j])
  {
    hide AsString, AsNumber, Digit, Inside;
    StringCore(value, i, j);
    NumberCore(value, i, j);
  }

  /** The scans from both ends accept exactly the values of this form. */
  lemma ValueForms(value: string)
    ensures WellFormed(value) <==> HasForm(value)
  {
    hide ValueCore;
    if HasForm(value) {
      var i, j :| Framed(value, i, j);
      FrameIsUnique(value, i, j);
      CoreIs(value, i, j);
    }
    if WellFormed(value) {
      var i, j := Head(value), Tail(value) + 1;
      CoreIs(value, i, j);
      assert Framed(value, i, j);
    }
  }

  /** Which result the check gives, for every key and every value. */
  lemma CheckGives(key: string, value: string)
    ensures Verify(key, value) == Ok <==> 1 <= |key| <= 31 && KeyForm(key) && |value| <= 899 && HasForm(value)
    ensures Verify(key, value) == KeyTooLong <==> |key| >= 32
    ensures Verify(key, value) == KeyInvalid <==> key == "" || (|key| <= 31 && !KeyForm(key))
    ensures Verify(key, value) == ValueTooLong <==> 1 <= |key| <= 31 && KeyForm(key) && |value| >= 900
  {
    hide WellFormed, KeyChar, HasForm;
    KeyFormIs(key);
    ValueForms(value);
  }

  // ----- the message -----

  /** More than a second lies between the two readings of a 32-bit counter of milliseconds. */
  predicate Cooled(last: nat, now: nat) { (now - last) % 0x1_0000_0000 > 1000 }

  lemma CooledIs(last: nat, now: nat)
    requires now < U32
    ensures Elapsed(last, now) == (now - last) % U32
  {
    if last >= now {
      assert U32 - 1 - last + now + 1 == (now - last) + U32;
    }
  }

  predicate Waiting(p: Property, now: nat) { p.status == Dirty && Cooled(p.lastSent, now) }

  /** Was waiting, and is in the message now. */
  predicate Went(p: Property, q: Property) { p.status == Dirty && q.status == Sending }

  /** What the properties that went take of the message: quotes, colon, and a comma between. */
  function Used(was: seq<Property>, after: seq<Property>): nat
    requires |was| == |after|
  {
    if was == [] then 0
    else
      var n := |was| - 1;
      var before := Used(was[..n], after[..n]);
      if !Went(was[n], after[n]) then before
      else before + |was[n].key| + |was[n].value| + if before == 0 then 3 else 4
  }

  /** Of a message of 1024 bytes the header takes 53. */
  predicate Fits(used: nat, p: Property) { 53 + used + |p.key| + |p.value| + 5 < 1024 }

  ghost predicate WentAt(was: seq<Property>, after: seq<Property>, i: nat, p: Property) {
    i < |was| && i < |after| && was[i] == p && Went(p, after[i])
  }

  predicate GoesIfFits(was: seq<Property>, after: seq<Property>, i: nat, session: nat, now: nat)
    requires |was| == |after| && i < |was|
  {
    after[i] == if Waiting(was[i], now) && Fits(Used(was[..i], after[..i]), was[i])
                then was[i].(status := Sending, session := session) else was[i]
  }

  /** In list order, every waiting property for which there is room goes, and nothing else. */
  ghost predicate Greedy(was: seq<Property>, after: seq<Property>, items: seq<Property>, session: nat, now: nat) {
    && |was| == |after|
    && (forall i :: 0 <= i < |was| ==> GoesIfFits(was, after, i, session, now))
    && (forall p :: p in items <==> exists i: nat :: WentAt(was, after, i, p))
  }

  lemma GreedyGoesOn(was: seq<Property>, after: seq<Property>, items: seq<Property>, session: nat, now: nat,
                     p: Property, goes: bool)
    requires Greedy(was, after, items, session, now)
    requires goes == (Waiting(p, now) && Fits(Used(was, after), p))
    ensures Greedy(was + [p], after + [if goes then p.(status := Sending, session := session) else p],
      if goes then items + [p] else items, session, now)
  {
    hide Waiting, Fits, Used;
    WaitingIsDirty(p, now);
    var q := if goes then p.(status := Sending, session := session) else p;
    var was', after' := was + [p], after + [q];
    assert was'[..|was|] == was && after'[..|was|] == after;
    forall i | 0 <= i < |was|
      ensures GoesIfFits(was', after', i, session, now)
    {
      assert GoesIfFits(was, after, i, session, now);
      assert was'[..i] == was[..i] && after'[..i] == after[..i];
    }
    assert GoesIfFits(was', after', |was|, session, now);
    ItemsGoOn(was, after, items, p, q);
  }

  lemma ItemsGoOn(was: seq<Property>, after: seq<Property>, items: seq<Property>, p: Property, q: Property)
    requires |was| == |after| && forall x :: x in items <==> exists i: nat :: WentAt(was, after, i, x)
    ensures var items' := if Went(p, q) then items + [p] else items;
      forall x :: x in items' <==> exists i: nat :: WentAt(was + [p], after + [q], i, x)
  {
    var was', after' := was + [p], after + [q];
    var items' := if Went(p, q) then items + [p] else items;
    forall x: Property
      ensures x in items' <==> exists i: nat :: WentAt(was', after', i, x)
    {
      if x in items {
        var i: nat :| WentAt(was, after, i, x);
        assert WentAt(was', after', i, x);
      }
      if Went(p, q) && x == p {
        assert WentAt(was', after', |was|, x);
      }
      if i: nat :| WentAt(was', after', i, x) && i < |was| {
        assert WentAt(was, after, i, x);
      }
    }
  }

  lemma WaitingIsDirty(p: Property, now: nat)
    ensures Waiting(p, now) ==> p.status == Dirty
  {
  }

  lemma UsedGoesOn(was: seq<Property>, after: seq<Property>, p: Property, q: Property)
    requires |was| == |after|
    ensures Used(was + [p], after + [q]) == Used(was, after) +
      if Went(p, q) then |p.key| + |p.value| + (if Used(was, after) == 0 then 3 else 4) else 0
  {
    assert (was + [p])[..|was|] == was && (after + [q])[..|was|] == after;
  }

  lemma TakenIs(p: Property, n: nat, now: nat)
    requires now < U32
    ensures Taken(p, 53 + n, now) <==> Waiting(p, now) && Fits(n, p)
  {
    CooledIs(p.lastSent, now);
  }

  /** The walk over the list packs greedily. */
  lemma PacksGreedily(was: seq<Property>, session: nat, now: nat)
    requires now < U32
    ensures var r := Pack(was, "", 0, session, now);
      Greedy(was, r.props, r.items, session, now) && |r.body| == Used(was, r.props)
  {
    hide Packing, Greedy, Waiting, Fits, Taken, Used, Pack;
    assert |HEADER| == 53;
    var i, done, items, body := 0, [], [], "";
    PackingStarts(was, session, now);
    GreedyStarts(session, now);
    while i < |was|
      invariant i <= |was| && |done| == i && (body == "" <==> items == [])
      invariant Packing(was, session, now, i, done, items, body)
      invariant Greedy(was[..i], done, items, session, now) && |body| == Used(was[..i], done)
    {
      var p := was[i];
      PackingGoesOn(was, session, now, i, done, items, body);
      TakenIs(p, |body|, now);
      WaitingIsDirty(p, now);
      var goes := Taken(p, |HEADER| + |body|, now);
      var q := if goes then p.(status := Sending, session := session) else p;
      GreedyGoesOn(was[..i], done, items, session, now, p, goes);
      UsedGoesOn(was[..i], done, p, q);
      assert was[..i + 1] == was[..i] + [p];
      if goes {
        body, items := body + ItemText(p, items == []), items + [p];
      }
      done, i := done + [q], i + 1;
    }
    assert was[..i] == was;
    PackingEnds(was, session, now, done, items, body);
  }

  lemma GreedyStarts(session: nat, now: nat)
    ensures Greedy([], [], [], session, now) && Used([], []) == 0
  {
  }
}
