/**
  What a client makes of a byte stream that arrives in arbitrary chunks, and which waiting command
  each reply settles.
 */
module RespStream {
  import opened Resp

  // ---- one buffer, parsed until it runs dry ---------------------------------------------------------

  /** The replies parsed one after the other, the position reached, and whether parsing ended in an exception. */
  datatype Drained = Drained(values: seq<Value>, next: nat, rejected: bool)

  function Drain(buf: Bytes, pos: nat): (d: Drained)
    requires pos <= |buf|
    ensures pos <= d.next <= |buf|
    decreases |buf| - pos
  {
    match Parse(buf, pos)
    case Parsed(value, next) =>
      var rest := Drain(buf, next);
      Drained([value] + rest.values, rest.next, rest.rejected)
    case Incomplete => Drained([], pos, false)
    case Rejected => Drained([], pos, true)
  }

  /** How many of the replies are complete within the first `n` bytes of their encoding. */
  function Finished(rs: seq<Reply>, n: nat): (k: nat)
    ensures k <= |rs|
  {
    if rs == [] || n < |Encode(rs[0])| then 0 else 1 + Finished(rs[1..], n - |Encode(rs[0])|)
  }

  /** The unfinished tail: what is left of the first bytes of a stream after its complete replies. */
  ghost predicate UnfinishedTail(rs: seq<Reply>, bytes: Bytes, k: nat, tail: Bytes)
    requires k <= |rs|
  {
    && bytes == EncodeAll(rs[..k]) + tail
    && (if k == |rs| then tail == [] else tail < Encode(rs[k]))
  }

  ghost predicate AllWellFormed(rs: seq<Reply>) {
    forall i :: 0 <= i < |rs| ==> WellFormed(rs[i])
  }

  lemma EncodeAllHead(rs: seq<Reply>, k: nat)
    requires 0 < k <= |rs|
    ensures EncodeAll(rs[..k]) == Encode(rs[0]) + EncodeAll(rs[1..][..k - 1])
  {
    assert rs[..k][1..] == rs[1..][..k - 1] && rs[..k][0] == rs[0];
  }

  lemma ValuesOfHead(rs: seq<Reply>, k: nat)
    requires 0 < k <= |rs|
    ensures ValuesOf(rs[..k]) == [ValueOf(rs[0])] + ValuesOf(rs[1..][..k - 1])
  {
    assert rs[..k][1..] == rs[1..][..k - 1] && rs[..k][0] == rs[0];
  }

  lemma {:induction false} EncodeAllConcat(a: seq<Reply>, b: seq<Reply>)
    ensures EncodeAll(a + b) == EncodeAll(a) + EncodeAll(b)
    ensures ValuesOf(a + b) == ValuesOf(a) + ValuesOf(b)
  {
    if a == [] {
      assert a + b == b;
    } else {
      assert (a + b)[1..] == a[1..] + b;
      hide Encode, ValueOf;
      EncodeAllConcat(a[1..], b);
    }
  }

  lemma UnfinishedBehind(rs: seq<Reply>, bytes: Bytes, k: nat, tail: Bytes)
    requires 0 < k <= |rs| && |Encode(rs[0])| <= |bytes| && bytes[..|Encode(rs[0])|] == Encode(rs[0])
    requires UnfinishedTail(rs[1..], bytes[|Encode(rs[0])|..], k - 1, tail)
    ensures UnfinishedTail(rs, bytes, k, tail)
  {
    hide Encode, EncodeAll;
    EncodeAllHead(rs, k);
  }

  lemma DrainStep(buf: Bytes, pos: nat, value: Value, next: nat)
    requires pos <= |buf| && Parse(buf, pos) == Parsed(value, next)
    ensures Drain(buf, pos).values == [value] + Drain(buf, next).values
    ensures Drain(buf, pos).next == Drain(buf, next).next && Drain(buf, pos).rejected == Drain(buf, next).rejected
  {
    hide Parse;
  }

  lemma DrainStop(buf: Bytes, pos: nat)
    requires pos <= |buf| && Parse(buf, pos) == Incomplete
    ensures Drain(buf, pos) == Drained([], pos, false)
  {
    hide Parse;
  }

  /** A buffer that holds, from `pos` on, the beginning of a well-formed stream. */
  lemma {:induction false} DrainStream(buf: Bytes, pos: nat, rs: seq<Reply>)
    requires pos <= |buf| && AllWellFormed(rs) && buf[pos..] <= EncodeAll(rs)
    ensures var k := Finished(rs, |buf| - pos);
      && Drain(buf, pos) == Drained(ValuesOf(rs[..k]), pos + |EncodeAll(rs[..k])|, false)
      && UnfinishedTail(rs, buf[pos..], k, buf[pos + |EncodeAll(rs[..k])|..])
    decreases |rs|, 1
  {
    hide Parse, Encode, ValueOf, WellFormed, Drain;
    if rs == [] {
      assert rs[..0] == [];
      EmptyIsIncomplete(buf, pos);
      DrainStop(buf, pos);
    } else if |buf| - pos < |Encode(rs[0])| {
      var e := Encode(rs[0]);
      assert EncodeAll(rs) == e + EncodeAll(rs[1..]);
      assert rs[..0] == [];
      assert buf[pos..] == EncodeAll(rs)[..|buf| - pos] == e[..|buf| - pos];
      ParseCut(buf, pos, rs[0]);
      DrainStop(buf, pos);
    } else {
      DrainFirst(buf, pos, rs);
    }
  }

  lemma {:induction false} DrainFirst(buf: Bytes, pos: nat, rs: seq<Reply>)
    requires pos <= |buf| && rs != [] && AllWellFormed(rs) && buf[pos..] <= EncodeAll(rs)
    requires |Encode(rs[0])| <= |buf| - pos
    ensures var k := Finished(rs, |buf| - pos);
      && Drain(buf, pos) == Drained(ValuesOf(rs[..k]), pos + |EncodeAll(rs[..k])|, false)
      && UnfinishedTail(rs, buf[pos..], k, buf[pos + |EncodeAll(rs[..k])|..])
    decreases |rs|, 0
  {
    hide Parse, Encode, ValueOf, WellFormed, Drain, ValuesOf, UnfinishedTail;
    var mid := pos + |Encode(rs[0])|;
    FirstReply(buf, pos, rs);
    DrainStream(buf, mid, rs[1..]);
    var k := Finished(rs, |buf| - pos);
    FinishedStep(rs, |buf| - pos);
    hide Finished, EncodeAll;
    EncodeAllHead(rs, k);
    ValuesOfHead(rs, k);
    UnfinishedBehind(rs, buf[pos..], k, buf[pos + |EncodeAll(rs[..k])|..]);
  }

  /** A complete first reply is drained first, and the buffer goes on with the rest of the stream. */
  lemma FirstReply(buf: Bytes, pos: nat, rs: seq<Reply>)
    requires pos <= |buf| && rs != [] && AllWellFormed(rs) && buf[pos..] <= EncodeAll(rs)
    requires |Encode(rs[0])| <= |buf| - pos
    ensures var mid := pos + |Encode(rs[0])|;
      && Drain(buf, pos).values == [ValueOf(rs[0])] + Drain(buf, mid).values
      && Drain(buf, pos).next == Drain(buf, mid).next && Drain(buf, pos).rejected == Drain(buf, mid).rejected
      && buf[pos..][..|Encode(rs[0])|] == Encode(rs[0])
      && buf[mid..] == buf[pos..][|Encode(rs[0])|..] && buf[mid..] <= EncodeAll(rs[1..])
      && AllWellFormed(rs[1..])
  {
    hide *;
    WellFormedParts(rs);
    EncodeAllUnfold(rs);
    Beginning(buf, pos, Encode(rs[0]), EncodeAll(rs[1..]));
    ParseEncoded(buf, pos, rs[0]);
    DrainStep(buf, pos, ValueOf(rs[0]), pos + |Encode(rs[0])|);
  }

  lemma WellFormedParts(rs: seq<Reply>)
    requires rs != [] && AllWellFormed(rs)
    ensures WellFormed(rs[0]) && AllWellFormed(rs[1..])
  {
    hide WellFormed;
  }

  lemma EncodeAllUnfold(rs: seq<Reply>)
    requires rs != []
    ensures EncodeAll(rs) == Encode(rs[0]) + EncodeAll(rs[1..])
  {
    hide Encode;
  }

  lemma FinishedStep(rs: seq<Reply>, n: nat)
    requires rs != [] && |Encode(rs[0])| <= n
    ensures Finished(rs, n) == 1 + Finished(rs[1..], n - |Encode(rs[0])|)
  {
    hide Encode;
  }

  /** The first part of a stream stands at `pos`, and the rest of the stream begins behind it. */
  lemma Beginning(buf: Bytes, pos: nat, e: Bytes, rest: Bytes)
    requires pos + |e| <= |buf| && buf[pos..] <= e + rest
    ensures At(buf, pos, e) && buf[pos..][..|e|] == e
    ensures buf[pos + |e|..] == buf[pos..][|e|..] && buf[pos + |e|..] <= rest
  {
    assert buf[pos..pos + |e|] == buf[pos..][..|e|] == (e + rest)[..|e|] == e;
    assert buf[pos + |e|..] == buf[pos..][|e|..];
  }

  lemma EmptyIsIncomplete(buf: Bytes, pos: nat)
    requires pos >= |buf|
    ensures Parse(buf, pos) == Incomplete
  {}

  // ---- chunk by chunk --------------------------------------------------------------------------------

  /** The buffered bytes and everything dispatched so far. */
  datatype Feed = Feed(buffer: Bytes, dispatched: seq<Value>)

  /** One data event: append, parse until dry, dispatch, drop what was parsed (unless parsing threw). */
  function Receive(f: Feed, chunk: Bytes): Feed {
    var buf := f.buffer + chunk;
    var d := Drain(buf, 0);
    Feed(if d.rejected then buf else buf[d.next..], f.dispatched + d.values)
  }

  function ReceiveAll(f: Feed, chunks: seq<Bytes>): Feed {
    if chunks == [] then f else Receive(ReceiveAll(f, chunks[..|chunks| - 1]), chunks[|chunks| - 1])
  }

  function Joined(chunks: seq<Bytes>): Bytes {
    if chunks == [] then [] else Joined(chunks[..|chunks| - 1]) + chunks[|chunks| - 1]
  }

  lemma {:induction false} FinishedMonotone(rs: seq<Reply>, m: nat, n: nat)
    requires m <= n
    ensures Finished(rs, m) <= Finished(rs, n)
    decreases |rs|
  {
    if rs != [] && m >= |Encode(rs[0])| {
      FinishedMonotone(rs[1..], m - |Encode(rs[0])|, n - |Encode(rs[0])|);
    }
  }

  lemma {:induction false} FinishedFrom(rs: seq<Reply>, k: nat, n: nat)
    requires k <= Finished(rs, n)
    ensures |EncodeAll(rs[..k])| <= n
    ensures Finished(rs, n) == k + Finished(rs[k..], n - |EncodeAll(rs[..k])|)
    decreases k
  {
    hide Encode;
    if k == 0 {
      assert rs[..0] == [] && rs[0..] == rs;
    } else {
      EncodeAllHead(rs, k);
      FinishedFrom(rs[1..], k - 1, n - |Encode(rs[0])|);
      assert rs[1..][k - 1..] == rs[k..];
    }
  }

  /**
    Chunk independence. However the bytes of a well-formed stream are cut, what has been dispatched
    is the replies that are complete within the bytes received, in order, and what is kept is
    exactly the unfinished tail.
   */
  lemma {:induction false} ChunkingIsInvisible(rs: seq<Reply>, chunks: seq<Bytes>)
    requires AllWellFormed(rs) && Joined(chunks) <= EncodeAll(rs)
    ensures var k := Finished(rs, |Joined(chunks)|);
      var f := ReceiveAll(Feed([], []), chunks);
      f.dispatched == ValuesOf(rs[..k]) && UnfinishedTail(rs, Joined(chunks), k, f.buffer)
    decreases |chunks|
  {
    hide Encode, ValueOf, WellFormed, Drain;
    if chunks == [] {
      assert Finished(rs, 0) == 0;
      assert rs[..0] == [];
    } else {
      var before, chunk := chunks[..|chunks| - 1], chunks[|chunks| - 1];
      var bytes := Joined(before);
      ChunkingIsInvisible(rs, before);
      var f := ReceiveAll(Feed([], []), before);
      var j := Finished(rs, |bytes|);
      OneMoreChunk(rs, bytes, j, f.buffer, chunk);
    }
  }

  lemma OneMoreChunk(rs: seq<Reply>, bytes: Bytes, j: nat, tail: Bytes, chunk: Bytes)
    requires AllWellFormed(rs) && bytes + chunk <= EncodeAll(rs)
    requires j == Finished(rs, |bytes|) && UnfinishedTail(rs, bytes, j, tail)
    ensures var k := Finished(rs, |bytes + chunk|);
      var d := Drain(tail + chunk, 0);
      && !d.rejected
      && ValuesOf(rs[..j]) + d.values == ValuesOf(rs[..k])
      && UnfinishedTail(rs, bytes + chunk, k, (tail + chunk)[d.next..])
  {
    hide Encode, EncodeAll, ValueOf, ValuesOf, WellFormed, Drain, Finished;
    var n := |bytes + chunk|;
    FinishedMonotone(rs, |bytes|, n);
    FinishedFrom(rs, j, n);
    var done := EncodeAll(rs[..j]);
    var buf := tail + chunk;
    assert bytes + chunk == done + buf;
    EncodeAllConcat(rs[..j], rs[j..]);
    assert rs[..j] + rs[j..] == rs;
    assert EncodeAll(rs) == done + EncodeAll(rs[j..]);
    assert buf <= EncodeAll(rs[j..]) by {
      assert buf == (done + buf)[|done|..];
      assert EncodeAll(rs[j..]) == EncodeAll(rs)[|done|..];
    }
    assert buf[0..] == buf;
    DrainStream(buf, 0, rs[j..]);
    JoinTails(rs, j, Finished(rs[j..], |buf|), buf, Drain(buf, 0).next);
  }

  lemma JoinTails(rs: seq<Reply>, j: nat, i: nat, buf: Bytes, next: nat)
    requires j <= |rs| && i <= |rs| - j && next <= |buf|
    requires UnfinishedTail(rs[j..], buf, i, buf[next..])
    ensures ValuesOf(rs[..j + i]) == ValuesOf(rs[..j]) + ValuesOf(rs[j..][..i])
    ensures UnfinishedTail(rs, EncodeAll(rs[..j]) + buf, j + i, buf[next..])
  {
    hide Encode, EncodeAll, ValueOf, ValuesOf;
    assert rs[..j + i] == rs[..j] + rs[j..][..i];
    EncodeAllConcat(rs[..j], rs[j..][..i]);
    assert j + i < |rs| ==> rs[j + i] == rs[j..][i];
  }

  // ---- replies and commands -----------------------------------------------------------------------------

  /** What the dispatcher works on: commands waiting for a reply, settled ones, and pushed messages. */
  datatype Inbox = Inbox(pending: seq<nat>, settled: seq<(nat, Value)>, pushed: seq<Value>, dropped: seq<Value>)

  const MESSAGE: Bytes := [109, 101, 115, 115, 97, 103, 101]

  /** A subscriber's push, as opposed to the answer to a command. */
  predicate IsPush(subscriber: bool, v: Value) {
    subscriber && v.List? && |v.items| > 0 && v.items[0] == Str(MESSAGE)
  }

  function Dispatch(box: Inbox, subscriber: bool, v: Value): Inbox {
    if IsPush(subscriber, v) then box.(pushed := box.pushed + [v])
    else if box.pending == [] then box.(dropped := box.dropped + [v])
    else box.(pending := box.pending[1..], settled := box.settled + [(box.pending[0], v)])
  }

  function DispatchAll(box: Inbox, subscriber: bool, vs: seq<Value>): Inbox {
    if vs == [] then box
    else Dispatch(DispatchAll(box, subscriber, vs[..|vs| - 1]), subscriber, vs[|vs| - 1])
  }

  lemma {:induction false} DispatchAllConcat(box: Inbox, subscriber: bool, a: seq<Value>, b: seq<Value>)
    ensures DispatchAll(box, subscriber, a + b) == DispatchAll(DispatchAll(box, subscriber, a), subscriber, b)
    decreases |b|
  {
    hide Dispatch;
    if b == [] {
      assert a + b == a;
    } else {
      var n := |b| - 1;
      assert (a + b)[..|a + b| - 1] == a + b[..n];
      DispatchAllConcat(box, subscriber, a, b[..n]);
    }
  }

  /** A dispatched value, and whether the connection was in subscriber mode by then. */
  datatype Heard = Heard(subscriber: bool, value: Value)

  function Hear(subscriber: bool, vs: seq<Value>): (h: seq<Heard>)
    ensures |h| == |vs| && forall i :: 0 <= i < |vs| ==> h[i] == Heard(subscriber, vs[i])
  {
    seq(|vs|, i requires 0 <= i < |vs| => Heard(subscriber, vs[i]))
  }

  function Values(heard: seq<Heard>): (vs: seq<Value>)
    ensures |vs| == |heard| && forall i :: 0 <= i < |vs| ==> vs[i] == heard[i].value
  {
    seq(|heard|, i requires 0 <= i < |heard| => heard[i].value)
  }

  function Answers(heard: seq<Heard>): seq<Value> {
    if heard == [] then []
    else
      var rest, h := Answers(heard[..|heard| - 1]), heard[|heard| - 1];
      if IsPush(h.subscriber, h.value) then rest else rest + [h.value]
  }

  function Pushes(heard: seq<Heard>): seq<Value> {
    if heard == [] then []
    else
      var rest, h := Pushes(heard[..|heard| - 1]), heard[|heard| - 1];
      if IsPush(h.subscriber, h.value) then rest + [h.value] else rest
  }

  // ---- whole runs of one connection -----------------------------------------------------------------------

  /** Subscribing is a command too; it switches the connection to subscriber mode at once, for good. */
  datatype Event = Send(id: nat) | Subscribe(id: nat) | Data(chunk: Bytes)

  datatype Client = Client(feed: Feed, box: Inbox, subscriber: bool, heard: seq<Heard>)

  function Queue(box: Inbox, id: nat): Inbox { box.(pending := box.pending + [id]) }

  function Happens(c: Client, e: Event): Client {
    match e
    case Send(id) => c.(box := Queue(c.box, id))
    case Subscribe(id) => c.(box := Queue(c.box, id), subscriber := true)
    case Data(chunk) =>
      var vs := Drain(c.feed.buffer + chunk, 0).values;
      c.(feed := Receive(c.feed, chunk), box := DispatchAll(c.box, c.subscriber, vs), heard := c.heard + Hear(c.subscriber, vs))
  }

  const FRESH: Client := Client(Feed([], []), Inbox([], [], [], []), false, [])

  function History(events: seq<Event>): Client {
    if events == [] then FRESH
    else Happens(History(events[..|events| - 1]), events[|events| - 1])
  }

  function Chunks(events: seq<Event>): seq<Bytes> {
    if events == [] then []
    else
      var rest, e := Chunks(events[..|events| - 1]), events[|events| - 1];
      if e.Data? then rest + [e.chunk] else rest
  }

  function Sent(events: seq<Event>): seq<nat> {
    if events == [] then []
    else
      var rest, e := Sent(events[..|events| - 1]), events[|events| - 1];
      if e.Data? then rest else rest + [e.id]
  }

  function Ids(s: seq<(nat, Value)>): seq<nat> { seq(|s|, i requires 0 <= i < |s| => s[i].0) }
  function Results(s: seq<(nat, Value)>): seq<Value> { seq(|s|, i requires 0 <= i < |s| => s[i].1) }

  /** What the bookkeeping amounts to, for what was sent and what was dispatched. */
  ghost predicate InOrder(box: Inbox, sent: seq<nat>, heard: seq<Heard>) {
    && Ids(box.settled) + box.pending == sent
    && box.pushed == Pushes(heard)
    && (box.dropped == [] ==> Results(box.settled) == Answers(heard))
  }

  lemma DispatchInOrder(box: Inbox, subscriber: bool, sent: seq<nat>, heard: seq<Heard>, v: Value)
    requires InOrder(box, sent, heard)
    ensures InOrder(Dispatch(box, subscriber, v), sent, heard + [Heard(subscriber, v)])
  {
    var more := heard + [Heard(subscriber, v)];
    assert more[..|more| - 1] == heard;
    if !IsPush(subscriber, v) && box.pending != [] {
      var settled := box.settled + [(box.pending[0], v)];
      assert Ids(settled) == Ids(box.settled) + [box.pending[0]];
      assert Results(settled) == Results(box.settled) + [v];
    }
  }

  lemma {:induction false} DispatchAllInOrder(box: Inbox, subscriber: bool, sent: seq<nat>, heard: seq<Heard>, more: seq<Value>)
    requires InOrder(box, sent, heard)
    ensures InOrder(DispatchAll(box, subscriber, more), sent, heard + Hear(subscriber, more))
    decreases |more|
  {
    hide Dispatch, InOrder;
    if more == [] {
      assert heard + Hear(subscriber, more) == heard;
    } else {
      var n := |more| - 1;
      DispatchAllInOrder(box, subscriber, sent, heard, more[..n]);
      DispatchInOrder(DispatchAll(box, subscriber, more[..n]), subscriber, sent, heard + Hear(subscriber, more[..n]), more[n]);
      assert (heard + Hear(subscriber, more[..n])) + [Heard(subscriber, more[n])] == heard + Hear(subscriber, more);
    }
  }

  lemma QueueInOrder(box: Inbox, sent: seq<nat>, heard: seq<Heard>, id: nat)
    requires InOrder(box, sent, heard)
    ensures InOrder(Queue(box, id), sent + [id], heard)
  {}

  /** Replies heard in subscriber mode come last. */
  ghost predicate Switched(heard: seq<Heard>, subscriber: bool) {
    && (forall i, j :: 0 <= i < j < |heard| && heard[i].subscriber ==> heard[j].subscriber)
    && (!subscriber ==> forall i :: 0 <= i < |heard| ==> !heard[i].subscriber)
  }

  /** What the history of some events amounts to. */
  ghost predicate Told(c: Client, sent: seq<nat>, chunks: seq<Bytes>) {
    InOrder(c.box, sent, c.heard) && Values(c.heard) == c.feed.dispatched && c.feed == ReceiveAll(Feed([], []), chunks)
  }

  lemma DataTold(c: Client, sent: seq<nat>, chunks: seq<Bytes>, chunk: Bytes)
    requires Told(c, sent, chunks)
    ensures Told(Happens(c, Data(chunk)), sent, chunks + [chunk])
  {
    hide InOrder, Drain, DispatchAll;
    var vs := Drain(c.feed.buffer + chunk, 0).values;
    DispatchAllInOrder(c.box, c.subscriber, sent, c.heard, vs);
    assert Values(c.heard + Hear(c.subscriber, vs)) == Values(c.heard) + vs;
    assert (chunks + [chunk])[..|chunks + [chunk]| - 1] == chunks;
  }

  lemma CommandTold(c: Client, sent: seq<nat>, chunks: seq<Bytes>, e: Event)
    requires Told(c, sent, chunks) && !e.Data?
    ensures Told(Happens(c, e), sent + [e.id], chunks)
  {
    hide InOrder, Queue;
    QueueInOrder(c.box, sent, c.heard, e.id);
  }

  lemma {:induction false} HistoryInOrder(events: seq<Event>)
    ensures Told(History(events), Sent(events), Chunks(events))
    decreases |events|
  {
    hide Happens;
    if events != [] {
      hide Told;
      var before, e := events[..|events| - 1], events[|events| - 1];
      HistoryInOrder(before);
      if e.Data? { DataTold(History(before), Sent(before), Chunks(before), e.chunk); }
      else { CommandTold(History(before), Sent(before), Chunks(before), e); }
    }
  }

  /** The mode is whether there was a subscription, and what was heard follows it. */
  lemma {:induction false} HistorySwitches(events: seq<Event>)
    ensures var c := History(events);
      Switched(c.heard, c.subscriber) && (c.subscriber <==> exists i :: 0 <= i < |events| && events[i].Subscribe?)
    decreases |events|
  {
    if events != [] {
      var n := |events| - 1;
      HistorySwitches(events[..n]);
      assert forall i :: 0 <= i < n ==> events[..n][i] == events[i];
      hide Receive, Drain, DispatchAll, Queue;
    }
  }

  /**
    Every interleaving of commands, a switch to subscriber mode at any point, and chunks: as long as
    the server never answers more commands than were sent, the i-th command sent is settled by the
    i-th answer of the stream, whatever the chunks and however many pushes stand in between; commands
    beyond that keep waiting in order. What is an answer is decided by the mode when it is dispatched.
   */
  lemma CommandsAreAnsweredInOrder(events: seq<Event>, rs: seq<Reply>)
    requires AllWellFormed(rs) && Joined(Chunks(events)) <= EncodeAll(rs)
    requires History(events).box.dropped == []
    ensures
      var box, heard := History(events).box, History(events).heard;
      && Values(heard) == ValuesOf(rs[..Finished(rs, |Joined(Chunks(events))|)])
      && Switched(heard, exists i :: 0 <= i < |events| && events[i].Subscribe?)
      && Results(box.settled) == Answers(heard)
      && |box.settled| <= |Sent(events)|
      && Ids(box.settled) == Sent(events)[..|box.settled|]
      && box.pending == Sent(events)[|box.settled|..]
      && box.pushed == Pushes(heard)
  {
    hide Encode, ValueOf, WellFormed, Drain, Joined;
    HistoryInOrder(events);
    HistorySwitches(events);
    ChunkingIsInvisible(rs, Chunks(events));
    hide *;
    ToldIs(History(events), Sent(events), Chunks(events));
    InOrderSplit(History(events).box, Sent(events), History(events).heard);
  }

  lemma ToldIs(c: Client, sent: seq<nat>, chunks: seq<Bytes>)
    requires Told(c, sent, chunks)
    ensures InOrder(c.box, sent, c.heard) && Values(c.heard) == c.feed.dispatched && c.feed == ReceiveAll(Feed([], []), chunks)
  {}

  lemma InOrderSplit(box: Inbox, sent: seq<nat>, heard: seq<Heard>)
    requires InOrder(box, sent, heard) && box.dropped == []
    ensures |box.settled| <= |sent| && Ids(box.settled) == sent[..|box.settled|]
    ensures box.pending == sent[|box.settled|..]
    ensures Results(box.settled) == Answers(heard) && box.pushed == Pushes(heard)
  {
    assert |Ids(box.settled)| == |box.settled|;
  }

  /** A command on the wire, followed by anything, reads back as its arguments and ends where it ends. */
  lemma CommandRoundTrip(args: seq<Bytes>, suffix: Bytes)
    ensures var wire := Encode(Command(args));
      Parse(wire + suffix, 0) == Parsed(List(Strings(args)), |wire|)
  {
    var wire := Encode(Command(args));
    assert (wire + suffix)[0..|wire|] == wire;
    CommandWellFormed(args);
    ParseEncoded(wire + suffix, 0, Command(args));
    hide Encode, Parse;
    BulkValues(args);
  }

  function Bulks(args: seq<Bytes>): seq<Reply> { seq(|args|, i requires 0 <= i < |args| => Bulk(args[i])) }
  function Strings(args: seq<Bytes>): seq<Value> { seq(|args|, i requires 0 <= i < |args| => Str(args[i])) }
  function Command(args: seq<Bytes>): Reply { Array(Bulks(args)) }

  lemma CommandWellFormed(args: seq<Bytes>)
    ensures WellFormed(Command(args))
  {}

  lemma {:induction false} BulkValues(args: seq<Bytes>)
    ensures ValuesOf(Bulks(args)) == Strings(args)
  {
    if args != [] {
      assert Bulks(args)[1..] == Bulks(args[1..]);
      BulkValues(args[1..]);
    }
  }
}
