/** The client's loops over its mutable state, each tied to the functions of Resp and RespStream. */
module MiniRedis {
  import opened OptionType
  import opened Resp
  import opened RespStream

  /** The header and then each argument as a bulk string, length first. */
  method EncodeCommand(args: seq<Bytes>) returns (wire: Bytes)
    ensures wire == Encode(Command(args))
  {
    hide Encode, Header;
    wire := Header(STAR, |args|);
    var i := 0;
    assert EncodeAll(Bulks(args)[..0]) == [];
    while i < |args|
      invariant 0 <= i <= |args|
      invariant wire == Header(STAR, |args|) + EncodeAll(Bulks(args)[..i])
    {
      var part := Header(DOLLAR, |args[i]|) + args[i] + CRLF;
      BulkText(args[i]);
      OneMoreBulk(args, i);
      wire := wire + part;
      i := i + 1;
    }
    assert Bulks(args)[..i] == Bulks(args);
    CommandText(args);
  }

  lemma BulkText(b: Bytes)
    ensures Encode(Bulk(b)) == Header(DOLLAR, |b|) + b + CRLF
  {
    hide Header;
  }

  lemma CommandText(args: seq<Bytes>)
    ensures Encode(Command(args)) == Header(STAR, |args|) + EncodeAll(Bulks(args))
  {
    hide Header, EncodeAll;
  }

  lemma OneMoreBulk(args: seq<Bytes>, i: nat)
    requires i < |args|
    ensures EncodeAll(Bulks(args)[..i + 1]) == EncodeAll(Bulks(args)[..i]) + Encode(Bulk(args[i]))
  {
    hide Encode;
    var last := [Bulk(args[i])];
    assert Bulks(args)[..i + 1] == Bulks(args)[..i] + last;
    EncodeAllConcat(Bulks(args)[..i], last);
    assert last[1..] == [];
  }

  function Behind(items: seq<Value>, rest: Outcome<seq<Value>>): Outcome<seq<Value>> {
    match rest
    case Parsed(more, next) => Parsed(items + more, next)
    case Incomplete => Incomplete
    case Rejected => Rejected
  }

  /** One complete reply from `pos`, with the source's cursor loop over an array's elements. */
  method ParseReply(buf: Bytes, pos: nat) returns (r: Outcome<Value>)
    ensures r == Parse(buf, pos)
    decreases |buf| - pos
  {
    hide Digits, Decimal, HasCrlf, NumberValue;
    var lineEnd := FindCrlf(buf, pos);
    if pos >= |buf| || lineEnd.None? { return Incomplete; }
    if lineEnd.value == pos { return Rejected; }
    var kind, line, next := buf[pos], buf[pos + 1..lineEnd.value], lineEnd.value + 2;
    if kind == PLUS { return Parsed(Str(line), next); }
    if kind == MINUS { return Parsed(Err(line), next); }
    if kind != COLON && kind != DOLLAR && kind != STAR { return Rejected; }
    var number := NumberValue(line);
    if number.None? { return Rejected; }
    var n := number.value;
    if kind == COLON { return Parsed(Num(n), next); }
    if n == -1 { return Parsed(Null, next); }
    if n < 0 { return Rejected; }
    if kind == DOLLAR {
      if |buf| < next + n + 2 { return Incomplete; }
      return Parsed(Str(buf[next..next + n]), next + n + 2);
    }
    r := ParseElements(buf, next, n, pos);
  }

  method ParseElements(buf: Bytes, next: nat, count: nat, ghost pos: nat) returns (r: Outcome<Value>)
    requires pos < next <= |buf|
    ensures r == ByHeader(buf, STAR, count, next)
    decreases |buf| - pos, 0
  {
    hide Parse;
    var items: seq<Value> := [];
    var cursor := next;
    var i := 0;
    ghost var all := ParseItems(buf, next, count);
    assert all.Parsed? ==> items + all.value == all.value;
    while i < count
      invariant 0 <= i <= count && next <= cursor <= |buf|
      invariant ParseItems(buf, next, count) == Behind(items, ParseItems(buf, cursor, count - i))
    {
      var one := ParseReply(buf, cursor);
      if !one.Parsed? {
        return if one.Rejected? then Rejected else Incomplete;
      }
      ghost var rest := ParseItems(buf, one.next, count - i - 1);
      assert rest.Parsed? ==> items + ([one.value] + rest.value) == (items + [one.value]) + rest.value;
      items := items + [one.value];
      cursor := one.next;
      i := i + 1;
    }
    assert items + [] == items;
    return Parsed(List(items), cursor);
  }

  const SUBSCRIBE: Bytes := [83, 85, 66, 83, 67, 82, 73, 66, 69]

  /** One connection. A waiting command is known by a number; its promise is settled at most once. */
  class MiniRedis {
    var buffer: Bytes
    var pending: seq<nat>
    var settled: seq<(nat, Value)>
    var messages: seq<Value>
    var unclaimed: seq<Value>
    var subscriberMode: bool

    ghost function Box(): Inbox
      reads this
    {
      Inbox(pending, settled, messages, unclaimed)
    }

    constructor ()
      ensures buffer == [] && Box() == Inbox([], [], [], []) && !subscriberMode
    {
      buffer, pending, settled, messages, unclaimed := [], [], [], [], [];
      subscriberMode := false;
    }

    /** The waiter queues up and its encoded command is what goes to the socket. */
    method Send(id: nat, args: seq<Bytes>) returns (wire: Bytes)
      modifies this
      ensures wire == Encode(Command(args))
      ensures Box() == Queue(old(Box()), id)
      ensures buffer == old(buffer) && subscriberMode == old(subscriberMode)
    {
      wire := EncodeCommand(args);
      pending := pending + [id];
    }

    /** Subscriber mode is on before the command is sent, and stays on. */
    method Subscribe(id: nat, channel: Bytes) returns (wire: Bytes)
      modifies this
      ensures wire == Encode(Command([SUBSCRIBE, channel])) && subscriberMode
      ensures Box() == Queue(old(Box()), id) && buffer == old(buffer)
    {
      subscriberMode := true;
      wire := Send(id, [SUBSCRIBE, channel]);
    }

    /** A push goes to the listeners; any other reply settles the command that has waited longest. */
    method DispatchReply(v: Value)
      modifies this
      ensures Box() == Dispatch(old(Box()), subscriberMode, v)
      ensures buffer == old(buffer) && subscriberMode == old(subscriberMode)
    {
      if subscriberMode && v.List? && |v.items| > 0 && v.items[0] == Str(MESSAGE) {
        messages := messages + [v];
        return;
      }
      if pending == [] {
        unclaimed := unclaimed + [v];
        return;
      }
      settled := settled + [(pending[0], v)];
      pending := pending[1..];
    }

    /** One data event. When parsing throws, the bytes already dispatched stay in the buffer. */
    method OnData(chunk: Bytes) returns (threw: bool)
      modifies this
      ensures var d := Drain(old(buffer) + chunk, 0);
        && threw == d.rejected
        && buffer == Receive(Feed(old(buffer), []), chunk).buffer
        && Box() == DispatchAll(old(Box()), old(subscriberMode), d.values)
      ensures subscriberMode == old(subscriberMode)
    {
      hide Parse, Dispatch;
      buffer := buffer + chunk;
      var pos := 0;
      ghost var seen: seq<Value> := [];
      ghost var whole := Drain(buffer, 0);
      while true
        invariant 0 <= pos <= |buffer| && buffer == old(buffer) + chunk && subscriberMode == old(subscriberMode)
        invariant whole == Drain(buffer, 0)
        invariant whole.values == seen + Drain(buffer, pos).values
        invariant whole.next == Drain(buffer, pos).next && whole.rejected == Drain(buffer, pos).rejected
        invariant Box() == DispatchAll(old(Box()), subscriberMode, seen)
        decreases |buffer| - pos
      {
        var one := ParseReply(buffer, pos);
        if one.Rejected? {
          assert whole.values == seen;
          return true;
        }
        if one.Incomplete? {
          DrainStop(buffer, pos);
          assert whole.values == seen;
          break;
        }
        DrainStep(buffer, pos, one.value, one.next);
        pos := one.next;
        DispatchReply(one.value);
        assert (seen + [one.value])[..|seen|] == seen;
        seen := seen + [one.value];
      }
      if pos > 0 { buffer := buffer[pos..]; }
      return false;
    }
  }
}
