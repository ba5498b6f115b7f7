/** The property half of the up-link manager, miio_up_manager.c: what is stored, packed into a
    message, acknowledged and retried.  Ticks and session ids are 32-bit counters. */
module UpLink {

  const MAX_KEY_LEN := 32
  const MAX_VALUE_LEN := 900
  const MAX_UP_JSON_LEN := 1024
  const COOLDOWN := 1000
  const U32 := 0x1_0000_0000

  const HEADER := "{\"retry\":3,\"timeout\":2000,\"method\":\"props\",\"params\":{"

  datatype Status = Sent | Dirty | Sending

  datatype Property = Property(key: string, value: string, status: Status, session: nat, lastSent: nat)

  datatype Code = Ok | KeyInvalid | KeyTooLong | ValueInvalid | ValueTooLong

  // ----- storing a value -----

  predicate KeyChar(c: char) {
    '0' <= c <= '9' || 'A' <= c <= 'Z' || 'a' <= c <= 'z' || c == '_'
  }

  /** What the value check passes over at both ends: blanks and all control characters. */
  predicate Passed(c: char) { c <= ' ' }

  /** `skip`: the first character that is not passed over.  On a text without one the program reads on
      behind it, and whatever it finds there it refuses the value; here that is the end of the text. */
  function Head(value: string): (h: nat)
    ensures h <= |value| && (h < |value| ==> !Passed(value[h])) && forall i :: 0 <= i < h ==> Passed(value[i])
  {
    if value == "" || !Passed(value[0]) then 0 else 1 + Head(value[1..])
  }

  /** `rev_skip`: the last such character, or -1. */
  function Tail(value: string): (t: int)
    ensures -1 <= t < |value| && (t >= 0 ==> !Passed(value[t])) && forall i :: t < i < |value| ==> Passed(value[i])
  {
    if value == "" then -1
    else if !Passed(value[|value| - 1]) then |value| - 1
    else Tail(value[..|value| - 1])
  }

  predicate DigitChar(c: char) { '0' <= c <= '9' }

  predicate AsNumber(value: string) {
    var h, t := Head(value), Tail(value);
    && h <= t && (DigitChar(value[h]) || value[h] == '-')
    && forall i :: h < i <= t ==> DigitChar(value[i]) || value[i] == '.'
  }

  /** Between its quotes a string may hold anything printable but a quote. */
  predicate AsString(value: string) {
    var h, t := Head(value), Tail(value);
    && h < t && value[h] == '"' && value[t] == '"'
    && forall i :: h < i < t ==> ' ' <= value[i] <= '~' && value[i] != '"'
  }

  predicate AsBool(value: string) {
    var h, t := Head(value), Tail(value);
    h <= t && (value[h..t + 1] == "true" || value[h..t + 1] == "false")
  }

  predicate WellFormed(value: string) {
    AsString(value) || AsNumber(value) || AsBool(value)
  }

  function VerifyKey(key: string): Code {
    if key == "" then KeyInvalid
    else if |key| >= MAX_KEY_LEN then KeyTooLong
    else if exists c :: c in key && !KeyChar(c) then KeyInvalid
    else Ok
  }

  /** What is wrong with a key or value, in the order the checks are made. */
  function Verify(key: string, value: string): Code {
    if VerifyKey(key) != Ok then VerifyKey(key)
    else if |value| >= MAX_VALUE_LEN then ValueTooLong
    else if !WellFormed(value) then ValueInvalid
    else Ok
  }

  method SkipForward(value: string) returns (h: nat)
    ensures h == Head(value)
  {
    h := 0;
    while h < |value| && Passed(value[h])
      invariant h <= |value|
      invariant Head(value) == h + Head(value[h..])
    {
      assert value[h..][1..] == value[h + 1..];
      h := h + 1;
    }
  }

  method SkipBack(value: string) returns (t: int)
    ensures t == Tail(value)
  {
    t := |value| - 1;
    assert value[..t + 1] == value;
    while t >= 0 && Passed(value[t])
      invariant -1 <= t < |value|
      invariant Tail(value) == Tail(value[..t + 1])
    {
      assert value[..t + 1][..t] == value[..t];
      t := t - 1;
    }
  }

  method VerifyAsNumber(value: string) returns (ok: bool)
    ensures ok == AsNumber(value)
  {
    var head := SkipForward(value);
    var tail := SkipBack(value);
    if tail < head || !(DigitChar(value[head]) || value[head] == '-') {
      return false;
    }
    var p := head + 1;
    while p <= tail
      invariant head < p <= tail + 1
      invariant forall i :: head < i < p ==> DigitChar(value[i]) || value[i] == '.'
    {
      if !DigitChar(value[p]) && value[p] != '.' {
        return false;
      }
      p := p + 1;
    }
    return true;
  }

  method VerifyAsString(value: string) returns (ok: bool)
    ensures ok == AsString(value)
  {
    var head := SkipForward(value);
    var tail := SkipBack(value);
    if tail <= head || value[head] != '"' || value[tail] != '"' {
      return false;
    }
    var p := head + 1;
    while p < tail
      invariant head < p <= tail
      invariant forall i :: head < i < p ==> ' ' <= value[i] <= '~' && value[i] != '"'
    {
      if value[p] < ' ' || value[p] > '~' || value[p] == '"' {
        return false;
      }
      p := p + 1;
    }
    return true;
  }

  method VerifyAsBool(value: string) returns (ok: bool)
    ensures ok == AsBool(value)
  {
    var head := SkipForward(value);
    var tail := SkipBack(value);
    if tail < head {
      return false;
    }
    var core := value[head..tail + 1];
    return (tail - head == 3 && core == "true") || (tail - head == 4 && core == "false");
  }

  /** The first property with this key, or the length of the list. */
  function Find(props: seq<Property>, key: string): (i: nat)
    ensures i <= |props|
    ensures i < |props| ==> props[i].key == key
    ensures forall j :: 0 <= j < i ==> props[j].key != key
  {
    if props == [] || props[0].key == key then 0 else 1 + Find(props[1..], key)
  }

  function Updated(p: Property, value: string, report: bool): Property {
    p.(value := value, status := if report then Dirty else Sent, session := 0)
  }

  function Store(props: seq<Property>, key: string, value: string, report: bool, now: nat): seq<Property> {
    var i := Find(props, key);
    if i < |props| then props[i := Updated(props[i], value, report)]
    else [Updated(Property(key, value, Sent, 0, (now - COOLDOWN - 1) % U32), value, report)] + props
  }

  /** Every stored key and value has passed the check. */
  ghost predicate Stored(props: seq<Property>) {
    forall i :: 0 <= i < |props| ==> Verify(props[i].key, props[i].value) == Ok
  }

  lemma StoreKeepsStored(props: seq<Property>, key: string, value: string, report: bool, now: nat)
    requires Stored(props) && Verify(key, value) == Ok
    ensures Stored(Store(props, key, value, report, now))
  {
    hide Verify;
  }

  // ----- packing a message -----

  /** arch_os_tick_elapsed. */
  function Elapsed(last: nat, now: nat): int {
    if last < now then now - last else (U32 - 1 - last + now + 1) % U32
  }

  function NextSession(session: nat): nat {
    if (session + 1) % U32 == 0 then 1 else (session + 1) % U32
  }

  predicate Ready(p: Property, now: nat) {
    p.status == Dirty && Elapsed(p.lastSent, now) > COOLDOWN
  }

  /** Is p put into a message that is n characters long so far? */
  predicate Taken(p: Property, n: nat, now: nat) {
    Ready(p, now) && |p.key| + |p.value| + 5 < MAX_UP_JSON_LEN - n
  }

  function ItemText(p: Property, first: bool): string {
    (if first then "" else ",") + "\"" + p.key + "\":" + p.value
  }

  datatype Packed = Packed(props: seq<Property>, items: seq<Property>, body: string)

  /** The walk over the property list with `body` written and `count` items in it already. */
  function Pack(props: seq<Property>, body: string, count: nat, session: nat, now: nat): Packed {
    if props == [] then Packed([], [], "")
    else
      var p := props[0];
      if Taken(p, |HEADER| + |body|, now) then
        var text := ItemText(p, count == 0);
        var rest := Pack(props[1..], body + text, count + 1, session, now);
        Packed([p.(status := Sending, session := session)] + rest.props, [p] + rest.items, text + rest.body)
      else
        var rest := Pack(props[1..], body, count, session, now);
        Packed([p] + rest.props, rest.items, rest.body)
  }

  /** `snprintf` into what is left of the buffer: all but the last byte may be used. */
  function Cut(s: string, room: int): string {
    if |s| < room then s else if room <= 0 then "" else s[..room - 1]
  }

  /** The text that goes to the cloud. */
  function Message(body: string): string {
    HEADER + body + Cut("}}", MAX_UP_JSON_LEN - |HEADER| - |body|)
  }

  // ----- acknowledging -----

  function Acknowledged(p: Property, session: nat, answered: bool, now: nat): Property {
    if p.status == Sending && p.session == session then
      if answered then p.(status := Sent, lastSent := now) else p.(status := Dirty)
    else p
  }

  function AckAll(props: seq<Property>, session: nat, answered: bool, now: nat): (r: seq<Property>)
    ensures |r| == |props|
    ensures forall i :: 0 <= i < |props| ==> r[i] == Acknowledged(props[i], session, answered, now)
  {
    if props == [] then []
    else [Acknowledged(props[0], session, answered, now)] + AckAll(props[1..], session, answered, now)
  }

  // ----- what packing does -----

  /** The texts of the items, separated by commas. */
  function Join(items: seq<Property>, first: bool): string {
    if items == [] then "" else ItemText(items[0], first) + Join(items[1..], false)
  }

  /** props' is props with exactly `items`, in order, marked as sending in this session. */
  predicate Marks(props: seq<Property>, props': seq<Property>, items: seq<Property>, session: nat, now: nat) {
    |props'| == |props| &&
    if props == [] then items == []
    else if props'[0] == props[0] then Marks(props[1..], props'[1..], items, session, now)
    else
      && props'[0] == props[0].(status := Sending, session := session)
      && Ready(props[0], now)
      && items != [] && items[0] == props[0]
      && Marks(props[1..], props'[1..], items[1..], session, now)
  }

  /** Exactly the properties marked as sending are written, each whole, in list order and
      separated by commas; two bytes of the buffer are always left for what follows. */
  lemma {:induction false} PackWritesWhatItMarks(props: seq<Property>, body: string, count: nat, session: nat, now: nat)
    requires |HEADER| + |body| <= MAX_UP_JSON_LEN - 2
    ensures var r := Pack(props, body, count, session, now);
      && Marks(props, r.props, r.items, session, now)
      && r.body == Join(r.items, count == 0)
      && |HEADER| + |body| + |r.body| <= MAX_UP_JSON_LEN - 2
  {
    if props != [] {
      var p := props[0];
      if Taken(p, |HEADER| + |body|, now) {
        PackWritesWhatItMarks(props[1..], body + ItemText(p, count == 0), count + 1, session, now);
        var r := Pack(props, body, count, session, now);
        assert r.props[1..] == Pack(props[1..], body + ItemText(p, count == 0), count + 1, session, now).props;
        assert r.items[1..] == Pack(props[1..], body + ItemText(p, count == 0), count + 1, session, now).items;
      } else {
        PackWritesWhatItMarks(props[1..], body, count, session, now);
        assert Pack(props, body, count, session, now).props[1..] == Pack(props[1..], body, count, session, now).props;
      }
    }
  }

  ghost predicate Storable(props: seq<Property>) {
    && (forall i :: 0 <= i < |props| ==> 0 < |props[i].key| < MAX_KEY_LEN && |props[i].value| < MAX_VALUE_LEN)
    && (forall i, j :: 0 <= i < j < |props| ==> props[i].key != props[j].key)
  }

  /** A message is sent whenever some property is waiting and has cooled down: the first such
      property always fits. */
  lemma {:induction false} PackMakesProgress(props: seq<Property>, session: nat, now: nat)
    requires Storable(props)
    ensures Pack(props, "", 0, session, now).items == [] <==>
      forall i :: 0 <= i < |props| ==> !Ready(props[i], now)
  {
    if props != [] {
      assert |HEADER| == 53;
      if Ready(props[0], now) {
        assert Taken(props[0], |HEADER| + |""|, now);
      } else {
        PackMakesProgress(props[1..], session, now);
        assert forall i :: 0 < i < |props| ==> props[i] == props[1..][i - 1];
      }
    }
  }

  /** The closing braces are whole exactly when the items leave three bytes. */
  lemma ClosingBraces(body: string)
    requires |HEADER| + |body| <= MAX_UP_JSON_LEN - 2
    ensures Message(body) == HEADER + body + "}}" <==> |HEADER| + |body| <= MAX_UP_JSON_LEN - 3
  {
    assert "}}"[..1] == "}";
    if |HEADER| + |body| == MAX_UP_JSON_LEN - 2 {
      assert |Message(body)| == |HEADER + body| + 1;
    }
  }

  // ----- sending and retrying -----

  datatype Device = Device(props: seq<Property>, sessionId: nat)

  /** What leaves for the cloud: nothing, or a message with its session and retry budget. */
  datatype Outgoing = Nothing | Outgoing(session: nat, retry: nat, items: seq<Property>)

  /** mum_send_property_with_retry: a session is allocated even when nothing is sent. */
  function Send(d: Device, retry: nat, online: bool, now: nat): (Device, Outgoing) {
    if !online then (d, Nothing)
    else
      var session := NextSession(d.sessionId);
      var r := Pack(d.props, "", 0, session, now);
      (Device(r.props, session), if r.items == [] then Nothing else Outgoing(session, retry, r.items))
  }

  /** mum_send_property_ack: a message that got no answer is sent again while it has retries. */
  function Ack(d: Device, session: nat, answered: bool, retry: nat, online: bool, now: nat): (Device, Outgoing) {
    var d' := d.(props := AckAll(d.props, session, answered, now));
    if retry > 0 && !answered then Send(d', retry - 1, online, now) else (d', Nothing)
  }

  // ----- the manager object -----

  class Manager {
    var props: seq<Property>
    var sessionId: nat

    constructor ()
      ensures props == [] && sessionId == 0
    {
      props, sessionId := [], 0;
    }

    method GetPropByName(key: string) returns (i: nat)
      ensures i == Find(props, key)
    {
      i := 0;
      while i < |props|
        invariant i <= |props|
        invariant Find(props, key) == i + Find(props[i..], key)
      {
        if props[i].key == key {
          return;
        }
        assert props[i..][1..] == props[i + 1..];
        i := i + 1;
      }
    }

    method CheckKey(key: string) returns (code: Code)
      ensures code == VerifyKey(key)
    {
      if key == "" {
        return KeyInvalid;
      }
      if |key| >= MAX_KEY_LEN {
        return KeyTooLong;
      }
      var i := 0;
      while i < |key|
        invariant i <= |key|
        invariant forall j :: 0 <= j < i ==> KeyChar(key[j])
      {
        if !KeyChar(key[i]) {
          assert key[i] in key;
          return KeyInvalid;
        }
        i := i + 1;
      }
      return Ok;
    }

    method SetProperty(key: string, value: string, report: bool, now: nat) returns (code: Code)
      modifies this`props
      ensures code == Verify(key, value)
      ensures props == if code == Ok then Store(old(props), key, value, report, now) else old(props)
    {
      code := CheckKey(key);
      if code != Ok {
        return;
      }
      if |value| >= MAX_VALUE_LEN {
        return ValueTooLong;
      }
      var ok := VerifyAsString(value);
      if !ok {
        ok := VerifyAsNumber(value);
        if !ok {
          ok := VerifyAsBool(value);
          if !ok {
            return ValueInvalid;
          }
        }
      }
      var i := GetPropByName(key);
      if i < |props| {
        props := props[i := Updated(props[i], value, report)];
      } else {
        var p := Property(key, value, Sent, 0, (now - COOLDOWN - 1) % U32);
        p := Updated(p, value, report);
        props := [p] + props;
      }
    }

    method AllocSession() returns (session: nat)
      modifies this`sessionId
      ensures session == sessionId == NextSession(old(sessionId))
    {
      sessionId := (sessionId + 1) % U32;
      if sessionId == 0 {
        sessionId := 1;
      }
      session := sessionId;
    }

    /** mum_make_json_property with the manager's own buffer. */
    method MakeJson(now: nat) returns (js: string, session: nat, count: nat, ghost items: seq<Property>)
      modifies this
      ensures session == sessionId == NextSession(old(sessionId))
      ensures var r := Pack(old(props), "", 0, session, now); props == r.props && items == r.items && count == |items|
      ensures Marks(old(props), props, items, session, now)
      ensures |HEADER| + |Join(items, true)| <= MAX_UP_JSON_LEN - 2 && js == Message(Join(items, true))
    {
      hide Packing, Pack, Marks, Join;
      session := AllocSession();
      js := HEADER;
      ghost var was := props;
      ghost var body := "";
      var i := 0;
      count, items := 0, [];
      PackingStarts(was, session, now);
      while i < |props|
        invariant i <= |props| == |was| && props[i..] == was[i..]
        invariant js == HEADER + body && count == |items|
        invariant Packing(was, session, now, i, props[..i], items, body)
        invariant sessionId == session
      {
        var p := props[i];
        assert p == was[i] by {
          assert was[i..][0] == props[i..][0];
        }
        PackingGoesOn(was, session, now, i, props[..i], items, body);
        ghost var done := props[..i];
        if p.status == Dirty && |p.key| + |p.value| + 5 < MAX_UP_JSON_LEN - |js|
          && Elapsed(p.lastSent, now) > COOLDOWN {
          if count > 0 {
            js := js + ",";
          }
          js := js + "\"" + p.key + "\":" + p.value;
          ghost var text := ItemText(p, count == 0);
          assert js == HEADER + (body + text);
          props := props[i := p.(status := Sending, session := session)];
          body, items, count := body + text, items + [p], count + 1;
        }
        assert props[..i + 1] == done + [props[i]];
        i := i + 1;
        assert props[i..] == was[i..];
      }
      assert props[..i] == props;
      PackingEnds(was, session, now, props, items, body);
      js := js + Cut("}}", MAX_UP_JSON_LEN - |js|);
    }

    function Abs(): Device
      reads this
    {
      Device(props, sessionId)
    }

    method SendProperty(retry: nat, online: bool, now: nat) returns (js: string, ghost out: Outgoing)
      modifies this
      ensures (Abs(), out) == Send(old(Abs()), retry, online, now)
      ensures js == if out == Nothing then "" else Message(Join(out.items, true))
    {
      if !online {
        return "", Nothing;
      }
      var text, session, count, items := MakeJson(now);
      if count > 0 {
        js, out := text, Outgoing(session, retry, items);
      } else {
        js, out := "", Nothing;
      }
    }

    method PropertyAck(session: nat, answered: bool, retry: nat, online: bool, now: nat)
      returns (js: string, ghost out: Outgoing)
      modifies this
      ensures (Abs(), out) == Ack(old(Abs()), session, answered, retry, online, now)
      ensures js == if out == Nothing then "" else Message(Join(out.items, true))
    {
      var i := 0;
      while i < |props|
        invariant i <= |props| == |old(props)|
        invariant forall j :: 0 <= j < |props| ==>
          props[j] == if j < i then Acknowledged(old(props)[j], session, answered, now) else old(props)[j]
        invariant sessionId == old(sessionId)
      {
        var p := props[i];
        if p.status == Sending && p.session == session {
          p := p.(status := if answered then Sent else Dirty);
          if answered {
            p := p.(lastSent := now);
          }
          props := props[i := p];
        }
        i := i + 1;
      }
      assert props == AckAll(old(props), session, answered, now);
      if retry > 0 && !answered {
        js, out := SendProperty(retry - 1, online, now);
      } else {
        js, out := "", Nothing;
      }
    }
  }

  /** The walk has reached index i: what is done, plus the walk over the rest, is the whole walk. */
  ghost predicate Packing(was: seq<Property>, session: nat, now: nat, i: nat,
                          done: seq<Property>, items: seq<Property>, body: string) {
    && i <= |was|
    && var rest := Pack(was[i..], body, |items|, session, now);
       Pack(was, "", 0, session, now) == Packed(done + rest.props, items + rest.items, body + rest.body)
  }

  lemma PackingStarts(was: seq<Property>, session: nat, now: nat)
    ensures Packing(was, session, now, 0, [], [], "")
  {
    assert was[0..] == was;
  }

  lemma PackingGoesOn(was: seq<Property>, session: nat, now: nat, i: nat,
                      done: seq<Property>, items: seq<Property>, body: string)
    requires i < |was| && Packing(was, session, now, i, done, items, body)
    ensures var p := was[i];
      if Taken(p, |HEADER| + |body|, now) then
        Packing(was, session, now, i + 1, done + [p.(status := Sending, session := session)], items + [p],
                body + ItemText(p, items == []))
      else Packing(was, session, now, i + 1, done + [p], items, body)
  {
    assert was[i..][0] == was[i] && was[i..][1..] == was[i + 1..];
  }

  lemma PackingEnds(was: seq<Property>, session: nat, now: nat, done: seq<Property>, items: seq<Property>, body: string)
    requires Packing(was, session, now, |was|, done, items, body)
    ensures Pack(was, "", 0, session, now) == Packed(done, items, body)
    ensures Marks(was, done, items, session, now) && body == Join(items, true)
    ensures |HEADER| + |body| <= MAX_UP_JSON_LEN - 2
  {
    assert |HEADER| == 53;
    PackWritesWhatItMarks(was, "", 0, session, now);
  }
}
