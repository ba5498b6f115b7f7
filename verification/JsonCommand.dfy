/** json2cmd of miio_down_manager.c: a JSON command is split into method and parameters inside its own
    buffer, by NULs that are written behind them. */
module JsonCommand {
  import opened CText
  import opened Jsmn
  import opened JsmnInvariant
  import opened JsmnNavigate

  /** How many tokens json2cmd has room for. */
  const TOKENS := 32

  /** What the reader gets: the method, and the parameters or "" when there are none. */
  datatype Split = Split(name: string, params: string) | NoMethod

  /** A NUL is written at i; at the end of the text one stands there already. */
  function Ended(text: string, i: nat): (r: string)
    ensures |r| == |text|
  {
    if i < |text| then text[i := '\0'] else text
  }

  /** jsmn_key_value from the first token. */
  function Lookup(text: string, ts: seq<Token>, key: string): (r: int)
    requires Navigable(ts)
    ensures -1 <= r < |ts|
  {
    if ts == [] || ts[0].kind != Object then -1
    else
      FoundInside(text, ts, key, 0);
      Search(text, ts, key, 1, Pairs(ts, 0))
  }

  /** All tokens lie in the text, and only the first can end at its start. */
  ghost predicate InText(text: string, ts: seq<Token>) {
    && (forall i :: 0 <= i < |ts| ==> 0 <= ts[i].start <= ts[i].end <= |text| && ts[i].start < |text|)
    && (forall i :: 0 < i < |ts| ==> ts[i].end > 0)
  }

  /** What the tokenizer accepts with this much room can always be navigated, and lies in the text. */
  lemma Ready(text: string)
    requires Run(text, |text|, TOKENS, INIT).code == Success
    ensures var ts := Run(text, |text|, TOKENS, INIT).state.tokens; Navigable(ts) && InText(text, ts)
  {
    hide Run;
    var s := Run(text, |text|, TOKENS, INIT).state;
    SuccessIsAccepted(text, |text|, TOKENS, INIT);
    RunKeeps(text, |text|, TOKENS, INIT);
    PosBound(text, |text|, TOKENS, INIT);
    forall i | 0 <= i < |s.tokens|
      ensures Children(s.tokens, i, |s.tokens|) <= 127
    {
      FewChildren(s.tokens, i, |s.tokens|);
    }
    forall i | 0 <= i < |s.tokens|
      ensures 0 <= s.tokens[i].start <= s.tokens[i].end <= |text| && s.tokens[i].start < |text|
    {
      assert GoodToken(s.tokens[i], s.pos);
    }
    forall i | 0 < i < |s.tokens|
      ensures s.tokens[i].end > 0
    {
      assert s.tokens[0].start < s.tokens[i].start <= s.tokens[i].end;
    }
  }

  lemma {:induction false} FewChildren(ts: seq<Token>, i: nat, n: nat)
    requires n <= |ts|
    ensures Children(ts, i, n) <= n
    decreases n
  {
    if n > 0 {
      FewChildren(ts, i, n - 1);
    }
  }

  lemma LookupPositive(text: string, ts: seq<Token>, key: string)
    requires Navigable(ts)
    ensures Lookup(text, ts, key) != 0
  {
    hide Navigable, Search, Pairs;
  }

  /** The two look-ups; the second finds the NUL of the first already written. */
  function SplitTokens(text: string, ts: seq<Token>): Split
    requires Navigable(ts) && InText(text, ts)
  {
    var m := Lookup(text, ts, "method");
    if m == -1 then NoMethod
    else
      var first := Ended(text, ts[m].end);
      var p := Lookup(first, ts, "params");
      if p == -1 then Split(CString(first[ts[m].start..]), "")
      else
        LookupPositive(first, ts, "params");
        var second := Ended(first, ts[p].end - 1);
        Split(CString(second[ts[m].start..]), CString(second[ts[p].start + 1..]))
  }

  /** What the reader of a JSON command gets of it. */
  function SplitOf(json: string): Split {
    var r := Run(json, |json|, TOKENS, INIT);
    if r.code != Success then NoMethod
    else
      Ready(json);
      SplitTokens(json, r.state.tokens)
  }

  /** The tokens, with the sentinel behind them. */
  method Tokenize(text: string) returns (code: Code, all: seq<Token>, ghost ts: seq<Token>)
    ensures code == Run(text, |text|, TOKENS, INIT).code
    ensures code == Success ==> ts == Run(text, |text|, TOKENS, INIT).state.tokens && Terminated(all, ts)
    ensures code == Success ==> |ts| < |all| && forall i :: 0 <= i < |ts| ==> all[i] == ts[i]
  {
    hide Run, Navigable;
    var parser := new Parser();
    var tokens := new Token[TOKENS + 1];
    assert tokens[..0] == [];
    code := parser.Parse(text, |text|, tokens, TOKENS);
    all, ts := [], [];
    if code == Success {
      Ready(text);
      ts := tokens[..parser.toknext];
      tokens[parser.toknext] := tokens[parser.toknext].(kind := Invalid);
      all := tokens[..];
      assert ts == all[..|ts|] && all[|ts|].kind == Invalid;
    }
  }

  /** The C strings at these places of a buffer are the parts of the command. */
  predicate Reads(buf: string, name: int, params: int, split: Split)
    requires -1 <= name <= |buf| && -1 <= params <= |buf|
  {
    if name == -1 then split.NoMethod? && params == -1
    else split == Split(CString(buf[name..]), if params == -1 then "" else CString(buf[params..]))
  }

  /** json2cmd: where the method and the parameters start, -1 for none; the buffer is written to. */
  method JsonToCommand(buf: array<char>, n: nat) returns (ok: bool, name: int, params: int)
    requires buf.Length == n + 1 && buf[n] == '\0'
    modifies buf
    ensures buf[n] == '\0' && -1 <= name <= n && -1 <= params <= n
    ensures Reads(buf[..], name, params, SplitOf(old(buf[..n])))
    ensures name == -1 ==> buf[..] == old(buf[..])
    ensures ok <==> name != -1 && params != -1 && buf[name] != '\0'
  {
    hide Run, Terminated, Navigable, Search, Pairs, CString, Lookup, SplitTokens, Reads, InText;
    var text := buf[..n];
    var code, all;
    ghost var ts;
    code, all, ts := Tokenize(text);
    if code != Success {
      ReadsNothing(buf[..], SplitOf(text));
      return false, -1, -1;
    }
    Ready(text);
    var m := KeyValue(text, all, ts, 0, "method");
    LookupIs(text, ts, "method");
    InTextAt(text, ts);
    if m == -1 {
      NoMethodReads(buf[..], text, ts);
      return false, -1, -1;
    }
    name := all[m].start;
    buf[all[m].end] := '\0';
    ghost var first := Ended(text, ts[m].end);
    assert buf[..n] == first;
    var p := KeyValue(buf[..n], all, ts, 0, "params");
    LookupIs(first, ts, "params");
    if p == -1 {
      NoParamsReads(buf[..], text, ts);
      return false, name, -1;
    }
    LookupPositive(first, ts, "params");
    params := all[p].start + 1;
    buf[all[p].end - 1] := '\0';
    assert buf[..n] == Ended(first, ts[p].end - 1);
    BothRead(buf[..], text, ts);
    ok := buf[name] != '\0';
  }

  lemma InTextAt(text: string, ts: seq<Token>)
    requires InText(text, ts)
    ensures forall i :: 0 <= i < |ts| ==> 0 <= ts[i].start <= ts[i].end <= |text| && ts[i].start < |text|
    ensures forall i :: 0 < i < |ts| ==> ts[i].end > 0
  {
  }

  lemma ReadsNothing(buf: string, split: Split)
    requires split == NoMethod
    ensures Reads(buf, -1, -1, split)
  {
  }

  lemma NoMethodReads(buf: string, text: string, ts: seq<Token>)
    requires Navigable(ts) && InText(text, ts) && Lookup(text, ts, "method") == -1
    ensures Reads(buf, -1, -1, SplitTokens(text, ts))
  {
    hide Navigable, Lookup, InText;
  }

  lemma NoParamsReads(buf: string, text: string, ts: seq<Token>)
    requires Navigable(ts) && InText(text, ts) && Lookup(text, ts, "method") != -1
    requires var m := Lookup(text, ts, "method");
      var first := Ended(text, ts[m].end);
      Lookup(first, ts, "params") == -1 && |buf| == |first| + 1 && buf[..|first|] == first && buf[|first|] == '\0'
    ensures var m := Lookup(text, ts, "method");
      0 <= ts[m].start <= |text| && Reads(buf, ts[m].start, -1, SplitTokens(text, ts))
  {
    hide Navigable, Lookup, CString;
    var m := Lookup(text, ts, "method");
    EndOfBuffer(buf, Ended(text, ts[m].end), ts[m].start);
  }

  lemma BothRead(buf: string, text: string, ts: seq<Token>)
    requires Navigable(ts) && InText(text, ts) && Lookup(text, ts, "method") != -1
    requires var m := Lookup(text, ts, "method");
      var first := Ended(text, ts[m].end);
      var p := Lookup(first, ts, "params");
      && 0 < p && |buf| == |first| + 1 && ts[p].end > 0
      && buf[..|first|] == Ended(first, ts[p].end - 1) && buf[|first|] == '\0'
    ensures var m := Lookup(text, ts, "method");
      var p := Lookup(Ended(text, ts[m].end), ts, "params");
      && 0 <= ts[m].start <= |text| && 0 <= ts[p].start < |text|
      && Reads(buf, ts[m].start, ts[p].start + 1, SplitTokens(text, ts))
  {
    hide Navigable, Lookup, CString;
    var m := Lookup(text, ts, "method");
    var first := Ended(text, ts[m].end);
    var p := Lookup(first, ts, "params");
    EndOfBuffer(buf, Ended(first, ts[p].end - 1), ts[m].start);
    EndOfBuffer(buf, Ended(first, ts[p].end - 1), ts[p].start + 1);
  }

  lemma LookupIs(text: string, ts: seq<Token>, key: string)
    requires Navigable(ts)
    ensures Lookup(text, ts, key)
      == if 0 < |ts| && ts[0].kind == Object then Search(text, ts, key, 1, Pairs(ts, 0)) else -1
  {
    hide Navigable, Search, Pairs;
  }

  /** The NUL behind the text ends what nothing ended before. */
  lemma EndOfBuffer(buf: string, text: string, i: nat)
    requires |buf| == |text| + 1 && buf[..|text|] == text && buf[|text|] == '\0' && i <= |text|
    ensures CString(buf[i..]) == CString(text[i..])
  {
    var s := CString(text[i..]);
    assert buf[i..][..|s|] == text[i..][..|s|];
    assert |s| < |text[i..]| ==> buf[i..][|s|] == text[i..][|s|];
    CStringIs(buf[i..], |s|);
  }
}
