/** Stopping and resuming the tokenizer. */
module JsmnResume {
  import opened CText
  import opened Jsmn

  lemma {:induction false} StringEndMonotone(text: string, n: nat, m: nat, p: nat)
    requires n <= m && !StringEnd(text, n, p).Truncated?
    ensures StringEnd(text, m, p) == StringEnd(text, n, p)
    decreases n - p
  {
    if At(text, p) == '\\' {
      if Escapable(At(text, p + 1)) {
        StringEndMonotone(text, n, m, p + 2);
      }
    } else if At(text, p) != '"' {
      StringEndMonotone(text, n, m, p + 1);
    }
  }

  lemma {:induction false} PrimitiveEndMonotone(text: string, n: nat, m: nat, p: nat)
    requires n <= m && !PrimitiveEnd(text, n, p).Truncated?
    ensures PrimitiveEnd(text, m, p) == PrimitiveEnd(text, n, p)
    decreases n - p
  {
    if !Delimits(At(text, p)) && ' ' <= At(text, p) <= '~' {
      PrimitiveEndMonotone(text, n, m, p + 1);
    }
  }

  /** A step taken with less input and fewer tokens is the step taken with more. */
  lemma ConsumeMonotone(text: string, n: nat, m: nat, cap: nat, cap': nat, s: State)
    requires s.Valid() && !AtEnd(text, n, s.pos) && n <= m && cap <= cap'
    ensures Consume(text, n, cap, s).Advance? ==> Consume(text, m, cap', s) == Consume(text, n, cap, s)
    ensures Consume(text, n, cap, s) == Halt(Inval) ==> Consume(text, m, cap', s) == Halt(Inval)
  {
    var c := At(text, s.pos);
    if c == '"' && !StringEnd(text, n, s.pos + 1).Truncated? {
      StringEndMonotone(text, n, m, s.pos + 1);
    } else if StartsPrimitive(c) && !PrimitiveEnd(text, n, s.pos).Truncated? {
      PrimitiveEndMonotone(text, n, m, s.pos);
    }
  }

  /** Whatever made a call stop (end of the part received so far, a full token array, even a
      forbidden character), calling again with at least as much input and room ends exactly
      where one call on the larger input would have ended. */
  lemma {:induction false} Resume(text: string, n: nat, m: nat, cap: nat, cap': nat, s: State)
    requires s.Valid() && n <= m && cap <= cap'
    ensures Run(text, m, cap', Run(text, n, cap, s).state) == Run(text, m, cap', s)
    decreases n - s.pos
  {
    if !AtEnd(text, n, s.pos) {
      ConsumeMonotone(text, n, m, cap, cap', s);
      match Consume(text, n, cap, s)
      case Halt(_) =>
      case Advance(next) => Resume(text, n, m, cap, cap', next);
    }
  }

  /** A refusal is final: no further input and no larger array turns it into anything else. */
  lemma {:induction false} RefusalIsFinal(text: string, n: nat, m: nat, cap: nat, cap': nat, s: State)
    requires s.Valid() && n <= m && cap <= cap'
    requires Run(text, n, cap, s).code == Inval
    ensures Run(text, m, cap', s) == Run(text, n, cap, s)
    decreases n - s.pos
  {
    ConsumeMonotone(text, n, m, cap, cap', s);
    match Consume(text, n, cap, s)
    case Halt(_) =>
    case Advance(next) => RefusalIsFinal(text, n, m, cap, cap', next);
  }

  /** The token array matters only by its size: a call that needs no more than cap tokens goes the
      same way with cap, and one that needs more stops for lack of room. */
  lemma {:induction false} RoomDecides(text: string, len: nat, cap: nat, cap': nat, s: State)
    requires s.Valid() && |s.tokens| <= cap <= cap'
    ensures var all := Run(text, len, cap', s);
      if |all.state.tokens| <= cap && all.code != NoMem then Run(text, len, cap, s) == all
      else Run(text, len, cap, s).code == NoMem
    decreases len - s.pos
  {
    if !AtEnd(text, len, s.pos) {
      ConsumeMonotone(text, len, len, cap, cap', s);
      match Consume(text, len, cap', s)
      case Halt(_) =>
      case Advance(next) =>
        if |next.tokens| <= cap {
          RoomDecides(text, len, cap, cap', next);
        }
    }
  }

  /** A whole session: any number of calls, each with its own input length and capacity. */
  function Session(text: string, calls: seq<(nat, nat)>, s: State): (r: State)
    requires s.Valid()
    ensures r.Valid()
  {
    if calls == [] then s
    else Session(text, calls[1..], Run(text, calls[0].0, calls[0].1, s).state)
  }

  /** However the input was cut into calls, the last call, if it sees the most, ends as a single
      call on everything does. */
  lemma {:induction false} SessionIsOneCall(text: string, calls: seq<(nat, nat)>, m: nat, cap: nat, s: State)
    requires s.Valid()
    requires forall i :: 0 <= i < |calls| ==> calls[i].0 <= m && calls[i].1 <= cap
    ensures Run(text, m, cap, Session(text, calls, s)) == Run(text, m, cap, s)
  {
    if calls != [] {
      Resume(text, calls[0].0, m, calls[0].1, cap, s);
      SessionIsOneCall(text, calls[1..], m, cap, Run(text, calls[0].0, calls[0].1, s).state);
    }
  }

  // ----- a buffer that is NUL-terminated after the part received so far -----

  /** Does the text end right after the backslash of an escape, inside the string whose body is
      being scanned at p? */
  predicate CutInEscape(text: string, p: nat)
    decreases |text| - p
  {
    p < |text| && text[p] != '\0' && text[p] != '"' &&
    if text[p] == '\\' then
      p + 1 == |text| || (Escapable(text[p + 1]) && CutInEscape(text, p + 2))
    else CutInEscape(text, p + 1)
  }

  /** The parser, stopped at s, stands at the quote of such a string. */
  predicate StoppedInEscape(text: string, s: State) {
    At(text, s.pos) == '"' && CutInEscape(text, s.pos + 1)
  }

  lemma {:induction false} StringEndGrown(part: string, text: string, p: nat)
    requires part <= text
    ensures !CutInEscape(part, p) ==> StringEnd(part, |part|, p) == StringEnd(text, |part|, p)
    ensures CutInEscape(part, p) ==> StringEnd(part, |part|, p) == Bad
    ensures CutInEscape(part, p) ==>
      StringEnd(text, |part|, p) == if Escapable(At(text, |part|)) then Truncated else Bad
    decreases |part| - p
  {
    if p < |part| && At(part, p) != '\0' && At(part, p) != '"' {
      if At(part, p) != '\\' {
        StringEndGrown(part, text, p + 1);
      } else if p + 1 < |part| && Escapable(At(part, p + 1)) {
        StringEndGrown(part, text, p + 2);
      }
    }
  }

  lemma {:induction false} PrimitiveEndGrown(part: string, text: string, p: nat)
    requires part <= text
    ensures PrimitiveEnd(part, |part|, p) == PrimitiveEnd(text, |part|, p)
    decreases |part| - p
  {
    if p < |part| {
      PrimitiveEndGrown(part, text, p + 1);
    }
  }

  lemma ConsumeGrown(part: string, text: string, cap: nat, s: State)
    requires s.Valid() && part <= text && !AtEnd(part, |part|, s.pos)
    ensures if StoppedInEscape(part, s) && Escapable(At(text, |part|)) then
        && Consume(part, |part|, cap, s) == Halt(Inval)
        && Consume(text, |part|, cap, s) == Halt(Part)
      else Consume(part, |part|, cap, s) == Consume(text, |part|, cap, s)
  {
    StringEndGrown(part, text, s.pos + 1);
    PrimitiveEndGrown(part, text, s.pos);
    assert At(part, s.pos) == At(text, s.pos);
  }

  /** Terminating the received part with a NUL, instead of leaving the rest of the text behind it,
      never changes the state the parser stops in; it changes the answer (a final refusal where
      more input was due) exactly when the part ends inside a legal escape. */
  lemma {:induction false} TerminatedPart(part: string, text: string, cap: nat, s: State)
    requires s.Valid() && part <= text
    ensures var cut := Run(part, |part|, cap, s);
      var whole := Run(text, |part|, cap, s);
      && cut.state == whole.state
      && (cut.code != whole.code <==> StoppedInEscape(part, cut.state) && Escapable(At(text, |part|)))
      && (cut.code != whole.code ==> cut.code == Inval && whole.code == Part)
    decreases |part| - s.pos
  {
    if !AtEnd(part, |part|, s.pos) {
      ConsumeGrown(part, text, cap, s);
      match Consume(part, |part|, cap, s)
      case Halt(_) =>
      case Advance(next) => TerminatedPart(part, text, cap, next);
    }
  }

  /** So feeding a growing, NUL-terminated buffer also ends as one call does, provided the caller
      calls again whatever the code was. */
  lemma ResumeGrown(part: string, text: string, m: nat, cap: nat, cap': nat, s: State)
    requires s.Valid() && part <= text && |part| <= m && cap <= cap'
    ensures Run(text, m, cap', Run(part, |part|, cap, s).state) == Run(text, m, cap', s)
  {
    TerminatedPart(part, text, cap, s);
    Resume(text, |part|, m, cap, cap', s);
  }

  /** The smallest such cut: the first three characters of ["\""] are refused, all of it is not. */
  lemma CutInEscapeExample()
    ensures Run("[\"\\", 3, 9, INIT).code == Inval
    ensures Run("[\"\\\"\"]", 6, 9, INIT).code == Success
  {
    var part, text := "[\"\\", "[\"\\\"\"]";
    var s1 := State(1, [Token(Array, 0, 0, -1)], 0);
    assert Consume(part, 3, 9, INIT) == Advance(s1);
    assert Consume(text, 6, 9, INIT) == Advance(s1);
    assert StringEnd(text, 6, 2) == StringEnd(text, 6, 4) == Found(4);
    var s2 := State(5, [Token(Array, 1, 0, -1), Token(String, 0, 2, 4)], 0);
    assert Consume(text, 6, 9, s1) == Advance(s2);
    assert LastOpen(s2.tokens, 2) == LastOpen(s2.tokens, 1) == 0;
    var s3 := State(6, [Token(Array, 1, 0, 6), Token(String, 0, 2, 4)], -1);
    assert Consume(text, 6, 9, s2) == Advance(s3);
    assert LastOpen(s3.tokens, 2) == LastOpen(s3.tokens, 1) == -1;
  }
}
