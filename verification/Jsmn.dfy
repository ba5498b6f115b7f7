/** The resumable JSON tokenizer of jsmn.c, built with JSMN_STRICT and JSMN_OPTIMIZE and
    without JSMN_PARENT_LINKS.

    A text is the contents of a C string: reading index |text| gives the NUL terminator.
    `Run` is the specification of one call of the parser; `Parser.Parse` is the parser itself,
    which updates its three fields and the token array in place. */
module Jsmn {
  import opened CText

  datatype Kind = Invalid | Primitive | Object | Array | String

  datatype Code = Success | Part | Inval | NoMem

  /** `end == -1` marks a container that is still open.  The C struct keeps `size` in a signed
      char and `start`, `end` in signed shorts. */
  datatype Token = Token(kind: Kind, size: int, start: int, end: int) {
    predicate Open() { start != -1 && end == -1 }
    predicate Container() { kind == Object || kind == Array }
  }

  /** What one call leaves behind: the cursor, the tokens allocated so far, and the container
      that receives the next child (-1 for none). */
  datatype State = State(pos: nat, tokens: seq<Token>, super: int) {
    predicate Valid() { -1 <= super < |tokens| }
  }

  const INIT := State(0, [], -1)

  const MAX_LEN := 32767

  predicate AtEnd(text: string, len: nat, p: nat) {
    At(text, p) == '\0' || p >= len
  }

  // ----- scanning one leaf -----

  /** Where a leaf ends: at a position, at the end of the input, or at a forbidden character. */
  datatype Scan = Found(at: nat) | Truncated | Bad

  predicate Delimits(c: char) {
    c == '\t' || c == '\r' || c == '\n' || c == ' ' || c == ',' || c == ']' || c == '}'
  }

  predicate StartsPrimitive(c: char) {
    c == '-' || '0' <= c <= '9' || c == 't' || c == 'f' || c == 'n'
  }

  predicate Skipped(c: char) {
    c == '\t' || c == '\r' || c == '\n' || c == ':' || c == ',' || c == ' '
  }

  predicate Escapable(c: char) {
    c == '"' || c == '/' || c == '\\' || c == 'b' || c == 'f' || c == 'r' || c == 'n' || c == 't' || c == 'u'
  }

  function PrimitiveEnd(text: string, len: nat, p: nat): (r: Scan)
    ensures r.Found? ==> p <= r.at < len && Delimits(At(text, r.at))
    decreases len - p
  {
    if AtEnd(text, len, p) then Truncated
    else if Delimits(At(text, p)) then Found(p)
    else if At(text, p) < ' ' || At(text, p) > '~' then Bad
    else PrimitiveEnd(text, len, p + 1)
  }

  function StringEnd(text: string, len: nat, p: nat): (r: Scan)
    ensures r.Found? ==> p <= r.at < len && At(text, r.at) == '"'
    decreases len - p
  {
    if AtEnd(text, len, p) then Truncated
    else if At(text, p) == '"' then Found(p)
    else if At(text, p) == '\\' then
      if Escapable(At(text, p + 1)) then StringEnd(text, len, p + 2) else Bad
    else StringEnd(text, len, p + 1)
  }

  // ----- one token at a time -----

  /** `size++` on a signed char. */
  function Increment(size: int): int {
    if size == 127 then -128 else size + 1
  }

  function Bump(tokens: seq<Token>, super: int): (r: seq<Token>)
    requires -1 <= super < |tokens|
    ensures |r| == |tokens|
  {
    if super == -1 then tokens
    else tokens[super := tokens[super].(size := Increment(tokens[super].size))]
  }

  /** The highest open token below index n, or -1. */
  function LastOpen(tokens: seq<Token>, n: nat): (r: int)
    requires n <= |tokens|
    ensures -1 <= r < n
    ensures r != -1 ==> tokens[r].Open()
    ensures forall i :: r < i < n ==> !tokens[i].Open()
  {
    if n == 0 then -1
    else if tokens[n - 1].Open() then n - 1
    else LastOpen(tokens, n - 1)
  }

  datatype Outcome = Advance(next: State) | Halt(code: Code)

  function AddLeaf(s: State, cap: nat, kind: Kind, start: nat, end: nat, next: nat): Outcome
    requires s.Valid()
  {
    if |s.tokens| >= cap then Halt(NoMem)
    else Advance(State(next, Bump(s.tokens, s.super) + [Token(kind, 0, start, end)], s.super))
  }

  function OpenContainer(s: State, cap: nat, kind: Kind): Outcome
    requires s.Valid()
  {
    if |s.tokens| >= cap then Halt(NoMem)
    else Advance(State(s.pos + 1, Bump(s.tokens, s.super) + [Token(kind, 0, s.pos, -1)], |s.tokens|))
  }

  function CloseContainer(s: State, kind: Kind): Outcome {
    var i := LastOpen(s.tokens, |s.tokens|);
    if i == -1 || s.tokens[i].kind != kind then Halt(Inval)
    else
      var closed := s.tokens[i := s.tokens[i].(end := s.pos + 1)];
      Advance(State(s.pos + 1, closed, LastOpen(closed, i)))
  }

  function Consume(text: string, len: nat, cap: nat, s: State): (r: Outcome)
    requires s.Valid() && !AtEnd(text, len, s.pos)
    ensures r.Advance? ==> r.next.Valid() && s.pos < r.next.pos <= len
    ensures r.Advance? ==> |s.tokens| <= |r.next.tokens| && (|s.tokens| <= cap ==> |r.next.tokens| <= cap)
  {
    var c := At(text, s.pos);
    if c == '{' then OpenContainer(s, cap, Object)
    else if c == '[' then OpenContainer(s, cap, Array)
    else if c == '}' then CloseContainer(s, Object)
    else if c == ']' then CloseContainer(s, Array)
    else if c == '"' then
      match StringEnd(text, len, s.pos + 1)
      case Found(e) => AddLeaf(s, cap, String, s.pos + 1, e, e + 1)
      case Truncated => Halt(Part)
      case Bad => Halt(Inval)
    else if Skipped(c) then Advance(s.(pos := s.pos + 1))
    else if StartsPrimitive(c) then
      match PrimitiveEnd(text, len, s.pos)
      case Found(e) => AddLeaf(s, cap, Primitive, s.pos, e, e)
      case Truncated => Halt(Part)
      case Bad => Halt(Inval)
    else Halt(Inval)
  }

  datatype Result = Result(code: Code, state: State)

  /** One call of the parser, from whatever state the previous call left. */
  function Run(text: string, len: nat, cap: nat, s: State): (r: Result)
    requires s.Valid()
    ensures r.state.Valid() && s.pos <= r.state.pos && |s.tokens| <= |r.state.tokens|
    ensures |s.tokens| <= cap ==> |r.state.tokens| <= cap
    decreases len - s.pos
  {
    if AtEnd(text, len, s.pos) then
      Result(if LastOpen(s.tokens, |s.tokens|) == -1 then Success else Part, s)
    else
      match Consume(text, len, cap, s)
      case Halt(code) => Result(code, s)
      case Advance(next) => Run(text, len, cap, next)
  }

  // ----- the parser object -----

  class Parser {
    var pos: nat
    var toknext: nat
    var toksuper: int

    constructor ()
      ensures pos == 0 && toknext == 0 && toksuper == -1
    {
      pos, toknext, toksuper := 0, 0, -1;
    }

    ghost predicate Valid(tokens: array<Token>)
      reads this
    {
      toknext <= tokens.Length && -1 <= toksuper < toknext
    }

    ghost function Abs(tokens: array<Token>): (s: State)
      reads this, tokens
      requires Valid(tokens)
    {
      State(pos, tokens[..toknext], toksuper)
    }

    /** Takes the next free token, or reports that the array is full. */
    method Alloc(tokens: array<Token>, numTokens: nat) returns (index: int)
      requires Valid(tokens) && numTokens <= tokens.Length
      modifies this`toknext, tokens
      ensures index == if old(toknext) >= numTokens then -1 else old(toknext)
      ensures toknext == if index == -1 then old(toknext) else old(toknext) + 1
      ensures toknext <= tokens.Length
      ensures index == -1 ==> tokens[..] == old(tokens[..])
      ensures index != -1 ==>
        tokens[..] == old(tokens[..])[index := old(tokens[index]).(start := -1, end := -1, size := 0)]
    {
      if toknext >= numTokens {
        return -1;
      }
      index := toknext;
      toknext := toknext + 1;
      tokens[index] := tokens[index].(start := -1, end := -1, size := 0);
    }

    method ParsePrimitive(text: string, len: nat, tokens: array<Token>, numTokens: nat) returns (code: Code)
      requires Valid(tokens) && numTokens <= tokens.Length && !AtEnd(text, len, pos)
      requires StartsPrimitive(At(text, pos))
      modifies this`pos, this`toknext, tokens
      ensures Valid(tokens)
      ensures var r := PrimitiveEnd(text, len, old(pos));
        if r.Found? && old(toknext) < numTokens then
          && code == Success && pos == r.at - 1 && toknext == old(toknext) + 1
          && tokens[..] == old(tokens[..])[old(toknext) := Token(Primitive, 0, old(pos), r.at)]
        else
          && code == (if r.Found? then NoMem else if r.Truncated? then Part else Inval)
          && pos == old(pos) && toknext == old(toknext) && tokens[..] == old(tokens[..])
    {
      var start := pos;
      while !AtEnd(text, len, pos)
        invariant start <= pos <= len
        invariant PrimitiveEnd(text, len, start) == PrimitiveEnd(text, len, pos)
        invariant toknext == old(toknext) && tokens[..] == old(tokens[..])
        decreases len - pos
      {
        if Delimits(At(text, pos)) {
          var i := Alloc(tokens, numTokens);
          if i == -1 {
            pos := start;
            return NoMem;
          }
          tokens[i] := Token(Primitive, 0, start, pos);
          pos := pos - 1;
          return Success;
        }
        if At(text, pos) < ' ' || At(text, pos) > '~' {
          pos := start;
          return Inval;
        }
        pos := pos + 1;
      }
      pos := start;
      return Part;
    }

    method ParseString(text: string, len: nat, tokens: array<Token>, numTokens: nat) returns (code: Code)
      requires Valid(tokens) && numTokens <= tokens.Length && !AtEnd(text, len, pos)
      modifies this`pos, this`toknext, tokens
      ensures Valid(tokens)
      ensures var r := StringEnd(text, len, old(pos) + 1);
        if r.Found? && old(toknext) < numTokens then
          && code == Success && pos == r.at && toknext == old(toknext) + 1
          && tokens[..] == old(tokens[..])[old(toknext) := Token(String, 0, old(pos) + 1, r.at)]
        else
          && code == (if r.Found? then NoMem else if r.Truncated? then Part else Inval)
          && pos == old(pos) && toknext == old(toknext) && tokens[..] == old(tokens[..])
    {
      var start := pos;
      pos := pos + 1;
      while !AtEnd(text, len, pos)
        invariant start < pos <= len + 1
        invariant StringEnd(text, len, start + 1) == StringEnd(text, len, pos)
        invariant toknext == old(toknext) && tokens[..] == old(tokens[..])
        decreases len + 1 - pos
      {
        var c := At(text, pos);
        if c == '"' {
          var i := Alloc(tokens, numTokens);
          if i == -1 {
            pos := start;
            return NoMem;
          }
          tokens[i] := Token(String, 0, start + 1, pos);
          return Success;
        }
        if c == '\\' {
          pos := pos + 1;
          if !Escapable(At(text, pos)) {
            pos := start;
            return Inval;
          }
        }
        pos := pos + 1;
      }
      pos := start;
      return Part;
    }

    /** `tokens[toksuper].size++` when there is a superior token. */
    method BumpSuper(tokens: array<Token>)
      requires Valid(tokens)
      modifies tokens
      ensures tokens[..toknext] == Bump(old(tokens[..toknext]), toksuper)
      ensures forall i :: toknext <= i < tokens.Length ==> tokens[i] == old(tokens[i])
    {
      if toksuper != -1 {
        tokens[toksuper] := tokens[toksuper].(size := Increment(tokens[toksuper].size));
      }
    }

    /** The backward scan for the nearest open token. */
    method FindOpen(tokens: array<Token>, n: nat) returns (i: int)
      requires n <= tokens.Length
      ensures i == LastOpen(tokens[..], n)
    {
      i := n - 1;
      while i >= 0
        invariant -1 <= i < n
        invariant LastOpen(tokens[..], n) == LastOpen(tokens[..], i + 1)
      {
        if tokens[i].Open() {
          return;
        }
        i := i - 1;
      }
    }

    method Close(tokens: array<Token>, kind: Kind) returns (code: Code)
      requires Valid(tokens)
      modifies this`toksuper, tokens
      ensures Valid(tokens)
      ensures match CloseContainer(old(Abs(tokens)), kind)
        case Halt(c) => code == c && tokens[..] == old(tokens[..]) && toksuper == old(toksuper)
        case Advance(next) =>
          code == Success && tokens[..toknext] == next.tokens && toksuper == next.super
      ensures tokens[toknext..] == old(tokens[toknext..])
    {
      var i := FindOpen(tokens, toknext);
      LastOpenPrefix(tokens[..], tokens[..toknext], toknext);
      if i == -1 || tokens[i].kind != kind {
        return Inval;
      }
      tokens[i] := tokens[i].(end := pos + 1);
      toksuper := FindOpen(tokens, i);
      LastOpenPrefix(tokens[..], tokens[..toknext], i);
      assert tokens[..toknext] == old(tokens[..toknext])[i := old(tokens[i]).(end := pos + 1)];
      return Success;
    }

    method Open(tokens: array<Token>, numTokens: nat, kind: Kind) returns (code: Code)
      requires Valid(tokens) && numTokens <= tokens.Length
      modifies this`toknext, this`toksuper, tokens
      ensures Valid(tokens)
      ensures match OpenContainer(old(Abs(tokens)), numTokens, kind)
        case Halt(c) => code == c && Abs(tokens) == old(Abs(tokens))
        case Advance(next) => code == Success && Abs(tokens) == next.(pos := pos)
    {
      ghost var before := tokens[..toknext];
      var i := Alloc(tokens, numTokens);
      if i == -1 {
        return NoMem;
      }
      tokens[i] := Token(kind, 0, pos, -1);
      assert tokens[..toknext] == before + [Token(kind, 0, pos, -1)];
      BumpSuper(tokens);
      assert tokens[..toknext] == Bump(before, toksuper) + [Token(kind, 0, pos, -1)];
      toksuper := toknext - 1;
      return Success;
    }

    /** The body of the main loop up to its `pos++`. */
    method Dispatch(text: string, len: nat, tokens: array<Token>, numTokens: nat) returns (code: Code)
      requires Valid(tokens) && numTokens <= tokens.Length && !AtEnd(text, len, pos)
      modifies this, tokens
      ensures Valid(tokens)
      ensures match Consume(text, len, numTokens, old(Abs(tokens)))
        case Halt(c) => code == c && c != Success && Abs(tokens) == old(Abs(tokens))
        case Advance(next) => code == Success && Abs(tokens).(pos := pos + 1) == next
    {
      ghost var before := tokens[..toknext];
      var c := At(text, pos);
      if c == '{' || c == '[' {
        code := Open(tokens, numTokens, if c == '{' then Object else Array);
      } else if c == '}' || c == ']' {
        code := Close(tokens, if c == '}' then Object else Array);
      } else if c == '"' {
        code := ParseString(text, len, tokens, numTokens);
        if code == Success {
          assert tokens[..toknext] == before + [tokens[toknext - 1]];
          BumpSuper(tokens);
        } else {
          assert tokens[..toknext] == before;
        }
      } else if Skipped(c) {
        code := Success;
      } else if StartsPrimitive(c) {
        code := ParsePrimitive(text, len, tokens, numTokens);
        if code == Success {
          assert tokens[..toknext] == before + [tokens[toknext - 1]];
          BumpSuper(tokens);
        } else {
          assert tokens[..toknext] == before;
        }
      } else {
        code := Inval;
      }
    }

    /** One call of the parser.  The token array may be longer than what earlier calls filled
        and its unused part may hold anything. */
    method Parse(text: string, len: nat, tokens: array<Token>, numTokens: nat) returns (code: Code)
      requires Valid(tokens) && numTokens <= tokens.Length
      modifies this, tokens
      ensures Valid(tokens)
      ensures Run(text, len, numTokens, old(Abs(tokens))) == Result(code, Abs(tokens))
    {
      ghost var start := Abs(tokens);
      while !AtEnd(text, len, pos)
        invariant Valid(tokens)
        invariant Run(text, len, numTokens, start) == Run(text, len, numTokens, Abs(tokens))
        decreases len - pos
      {
        ghost var s := Abs(tokens);
        code := Dispatch(text, len, tokens, numTokens);
        if code != Success {
          return;
        }
        pos := pos + 1;
        assert Consume(text, len, numTokens, s) == Advance(Abs(tokens));
      }
      var open := FindOpen(tokens, toknext);
      LastOpenPrefix(tokens[..], tokens[..toknext], toknext);
      code := if open == -1 then Success else Part;
    }
  }

  lemma LastOpenPrefix(a: seq<Token>, b: seq<Token>, n: nat)
    requires n <= |a| && n <= |b| && a[..n] == b[..n]
    ensures LastOpen(a, n) == LastOpen(b, n)
  {
    if n > 0 {
      assert a[n - 1] == a[..n][n - 1] == b[..n][n - 1];
      assert a[..n - 1] == a[..n][..n - 1] == b[..n - 1];
      LastOpenPrefix(a, b, n - 1);
    }
  }
}
