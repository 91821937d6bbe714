/**
  Requests passing through the response cache: look up, serve, claim a refresh, run the handler,
  store. Any number of requests interleave at the points where the hook awaits the store.
 */
module CacheProtocol {
  import opened OptionType
  import opened CacheStore

  type Bytes = seq<int>

  /** The parts of the plugin's options that decide what is stored and served; times are in milliseconds. */
  datatype Config = Config(
    cachePrivate: bool,
    statuses: set<int>,
    prefixes: seq<string>,
    defaultTtlMs: int,
    defaultSwrMs: int,
    etagOn: bool,
    etagOf: Bytes -> string,
    lockTtlMs: int,
    lim: Limits)

  /** What If-None-Match lists: some opaque tags, or * for any representation. */
  datatype Known = Tags(tags: set<string>) | AnyTag

  predicate Knows(known: Known, tag: string) {
    known.AnyTag? || tag in known.tags
  }

  /** A GET or HEAD request: its cache key, its headers by lower-case name, the entity tags it already holds. */
  datatype Request = Request(key: Key, path: string, head: bool, headers: map<string, string>, known: Known)

  datatype Marker = Marker(ttlMs: Option<int>, swrMs: Option<int>, varyHeaders: seq<string>)

  /** What the handler sends: the body and the headers the write-through gate looks at. */
  datatype Response = Response(
    body: Bytes,
    status: int,
    contentType: string,
    etag: Option<string>,
    setCookie: bool,
    contentEncoded: bool,
    cacheControl: string,
    marker: Option<Marker>)

  // ---- the decisions ------------------------------------------------------------------------------------

  predicate Eligible(cfg: Config, req: Request) {
    cfg.cachePrivate || ("authorization" !in req.headers && "cookie" !in req.headers)
  }

  function Header(req: Request, name: string): string {
    if name in req.headers then req.headers[name] else ""
  }

  predicate Contains(s: string, part: string) {
    part <= s || (s != [] && Contains(s[1..], part))
  }

  predicate OptedIn(prefixes: seq<string>, path: string) {
    exists i :: 0 <= i < |prefixes| && (prefixes[i] == "/" || path == prefixes[i] || prefixes[i] + "/" <= path)
  }

  function TtlOf(cfg: Config, resp: Response): int {
    if resp.marker.Some? && resp.marker.value.ttlMs.Some? then resp.marker.value.ttlMs.value else cfg.defaultTtlMs
  }

  function SwrOf(cfg: Config, resp: Response): int {
    if resp.marker.Some? && resp.marker.value.swrMs.Some? then resp.marker.value.swrMs.value else cfg.defaultSwrMs
  }

  /** The write-through gate. */
  predicate ShouldStore(cfg: Config, req: Request, resp: Response) {
    && Eligible(cfg, req)
    && resp.status in cfg.statuses
    && !resp.setCookie
    && !resp.contentEncoded
    && !Contains(resp.cacheControl, "no-store")
    && (Contains(resp.cacheControl, "private") ==> cfg.cachePrivate)
    && (resp.marker.Some? || OptedIn(cfg.prefixes, req.path))
    && TtlOf(cfg, resp) > 0
  }

  function TagOf(cfg: Config, resp: Response): Option<string> {
    if resp.etag.None? && cfg.etagOn && 200 <= resp.status < 300 then Some(cfg.etagOf(resp.body)) else resp.etag
  }

  /** The client already holds this successful response: 304, and nothing is stored. */
  predicate NotModified(cfg: Config, req: Request, resp: Response) {
    cfg.etagOn && 200 <= resp.status < 300 && TagOf(cfg, resp).Some? && Knows(req.known, TagOf(cfg, resp).value)
  }

  function VaryOf(req: Request, resp: Response): map<string, string> {
    if resp.marker.None? then map[]
    else map name | name in resp.marker.value.varyHeaders :: Header(req, name)
  }

  function EntryOf(cfg: Config, req: Request, resp: Response, now: int): Entry {
    Entry(resp.body, resp.status, resp.contentType, TagOf(cfg, resp), now, TtlOf(cfg, resp), SwrOf(cfg, resp), VaryOf(req, resp))
  }

  predicate VaryMatches(entry: Entry, req: Request) {
    forall name :: name in entry.vary ==> Header(req, name) == entry.vary[name]
  }

  // ---- the state machine ------------------------------------------------------------------------------------

  datatype Phase =
    | Looking
    | Got(found: Option<Entry>)
    | Claiming(entry: Entry, judgedAt: int, mine: bool, until: int)
    | Handling(refreshing: bool, until: int)
    | Releasing(until: int)
    | Done

  datatype Kind = Hit | Stale

  /** What a stored entry was answered with; `logged` is how many responses had been stored by then. */
  datatype Served = Served(request: nat, kind: Kind, judgedAt: int, logged: nat,
                           status: int, body: Bytes, contentType: string, tag: Option<string>)

  /** A response that passed the gate and was sent: which request, and when. */
  datatype Emission = Emission(req: Request, resp: Response, at: int)

  datatype World = World(
    now: int,
    records: seq<Rec>,
    locks: map<Key, int>,
    reqs: map<nat, Request>,
    phase: map<nat, Phase>,
    log: seq<Emission>,
    served: seq<Served>)

  datatype Event =
    | Clock(to: int)
    | Arrive(r: nat, req: Request)
    | LookUp(r: nat)
    | Decide(r: nat)
    | Resume(r: nat)
    | Finish(r: nat, resp: Response)
    | Release(r: nat)
    | Abandon(r: nat)
    | Invalidate(test: Test)
    | Sweep
    | Clear

  const EMPTY: World := World(0, [], map[], map[], map[], [], [])

  predicate Enabled(w: World, e: Event) {
    match e
    case Clock(to) => w.now <= to
    case Arrive(r, _) => r !in w.reqs
    case LookUp(r) => r in w.phase && r in w.reqs && w.phase[r].Looking?
    case Decide(r) => r in w.phase && r in w.reqs && w.phase[r].Got?
    case Resume(r) => r in w.phase && r in w.reqs && w.phase[r].Claiming?
    case Finish(r, _) => r in w.phase && r in w.reqs && w.phase[r].Handling?
    case Release(r) => r in w.phase && r in w.reqs && w.phase[r].Releasing?
    case Abandon(r) => r in w.phase && r in w.reqs && w.phase[r].Handling?
    case _ => true
  }

  /** Answering from an entry: 304 when the client holds it, headers only for HEAD, the stored body otherwise. */
  function Serve(cfg: Config, w: World, r: nat, entry: Entry, kind: Kind, judgedAt: int): World
    requires r in w.reqs
  {
    var req := w.reqs[r];
    var tag := if cfg.etagOn then entry.etag else None;
    var s :=
      if tag.Some? && Knows(req.known, tag.value) then Served(r, kind, judgedAt, |w.log|, 304, [], "", tag)
      else Served(r, kind, judgedAt, |w.log|, entry.statusCode, if req.head then [] else entry.payload, entry.contentType, tag);
    w.(phase := w.phase[r := Done], served := w.served + [s])
  }

  function Judge(cfg: Config, w: World, r: nat): World
    requires r in w.reqs && r in w.phase && w.phase[r].Got?
  {
    var req, found := w.reqs[r], w.phase[r].found;
    var handle := w.(phase := w.phase[r := Handling(false, 0)]);
    if found.None? || !VaryMatches(found.value, req) then handle
    else
      var entry, age := found.value, w.now - found.value.storedAt;
      if age <= entry.ttlMs then Serve(cfg, w, r, entry, Hit, w.now)
      else if age <= entry.ttlMs + entry.swrMs then
        var (locks, mine) := AcquireLock(w.locks, req.key, cfg.lockTtlMs, w.now);
        w.(locks := locks, phase := w.phase[r := Claiming(entry, w.now, mine, w.now + cfg.lockTtlMs)])
      else handle
  }

  /** The response goes out and is stored if it may be; a refresh claim is then still to be given back. */
  function Complete(cfg: Config, w: World, r: nat, resp: Response): World
    requires r in w.reqs && r in w.phase && w.phase[r].Handling?
  {
    var req := w.reqs[r];
    var store := !NotModified(cfg, req, resp) && ShouldStore(cfg, req, resp);
    w.(records :=
         if store then Set(w.records, cfg.lim, req.key, EntryOf(cfg, req, resp, w.now), TtlOf(cfg, resp) + SwrOf(cfg, resp), w.now)
         else w.records,
       log := if store then w.log + [Emission(req, resp, w.now)] else w.log,
       phase := w.phase[r := if w.phase[r].refreshing then Releasing(w.phase[r].until) else Done])
  }

  function Next(cfg: Config, w: World, e: Event): World
    requires Enabled(w, e)
  {
    match e
    case Clock(to) => w.(now := to)
    case Arrive(r, req) =>
      w.(reqs := w.reqs[r := req], phase := w.phase[r := if Eligible(cfg, req) then Looking else Handling(false, 0)])
    case LookUp(r) =>
      var (records, found) := Get(w.records, w.reqs[r].key, w.now);
      w.(records := records, phase := w.phase[r := Got(found)])
    case Decide(r) => Judge(cfg, w, r)
    case Resume(r) =>
      var p := w.phase[r];
      if p.mine then w.(phase := w.phase[r := Handling(true, p.until)])
      else Serve(cfg, w, r, p.entry, Stale, p.judgedAt)
    case Finish(r, resp) => Complete(cfg, w, r, resp)
    case Release(r) => w.(locks := w.locks - {w.reqs[r].key}, phase := w.phase[r := Done])
    case Abandon(r) => w.(phase := w.phase[r := Done])
    case Invalidate(test) => w.(records := Keep(w.records, test))
    case Sweep => w.(records := Keep(w.records, LivesAt(w.now)), locks := SweepLocks(w.locks, w.now))
    case Clear => w.(records := [], locks := map[])
  }

  ghost predicate Run(cfg: Config, states: seq<World>, events: seq<Event>) {
    && |states| == |events| + 1
    && states[0] == EMPTY
    && forall i {:trigger events[i]} :: 0 <= i < |events| ==>
         Enabled(states[i], events[i]) && states[i + 1] == Next(cfg, states[i], events[i])
  }

  lemma StepAt(cfg: Config, states: seq<World>, events: seq<Event>, i: nat)
    requires Run(cfg, states, events) && i < |events|
    ensures Enabled(states[i], events[i]) && states[i + 1] == Next(cfg, states[i], events[i])
  {
    var e := events[i];
  }

  // ---- where served entries come from -----------------------------------------------------------------------------

  /** The entry is what some logged response under this key was stored as. */
  ghost predicate FromLog(cfg: Config, log: seq<Emission>, n: nat, key: Key, entry: Entry) {
    exists i :: 0 <= i < n <= |log| && IsEntryOf(cfg, log[i], key, entry)
  }

  predicate IsEntryOf(cfg: Config, e: Emission, key: Key, entry: Entry) {
    e.req.key == key && entry == EntryOf(cfg, e.req, e.resp, e.at) && ShouldStore(cfg, e.req, e.resp)
  }

  ghost predicate Sound(cfg: Config, log: seq<Emission>, req: Request, p: Phase) {
    match p
    case Got(found) => found.Some? ==> FromLog(cfg, log, |log|, req.key, found.value)
    case Claiming(entry, judgedAt, _, _) =>
      && FromLog(cfg, log, |log|, req.key, entry) && VaryMatches(entry, req)
      && entry.ttlMs < judgedAt - entry.storedAt <= entry.ttlMs + entry.swrMs
    case _ => true
  }

  /**
    The served answer is the stored form of an earlier logged response under the same key and vary
    values, which passed the gate and was young enough when the request read the clock.
   */
  ghost predicate Explained(cfg: Config, log: seq<Emission>, reqs: map<nat, Request>, s: Served) {
    s.request in reqs && s.logged <= |log| &&
    exists i :: 0 <= i < s.logged && ExplainedBy(cfg, log[i], reqs[s.request], s)
  }

  predicate ExplainedBy(cfg: Config, e: Emission, req: Request, s: Served) {
    && e.req.key == req.key
    && ShouldStore(cfg, e.req, e.resp)
    && (e.resp.marker.Some? ==> forall name :: name in e.resp.marker.value.varyHeaders ==> Header(e.req, name) == Header(req, name))
    && (match s.kind
        case Hit => s.judgedAt - e.at <= TtlOf(cfg, e.resp)
        case Stale => TtlOf(cfg, e.resp) < s.judgedAt - e.at <= TtlOf(cfg, e.resp) + SwrOf(cfg, e.resp))
    && (if cfg.etagOn && TagOf(cfg, e.resp).Some? && Knows(req.known, TagOf(cfg, e.resp).value)
        then s.status == 304 && s.body == []
        else
          && s.status == e.resp.status && s.contentType == e.resp.contentType
          && s.body == if req.head then [] else e.resp.body)
    && s.tag == if cfg.etagOn then TagOf(cfg, e.resp) else None
  }

  lemma LogGrows(cfg: Config, log: seq<Emission>, more: seq<Emission>, key: Key, entry: Entry)
    requires FromLog(cfg, log, |log|, key, entry)
    ensures FromLog(cfg, log + more, |log + more|, key, entry)
  {
    var i :| 0 <= i < |log| && IsEntryOf(cfg, log[i], key, entry);
    assert IsEntryOf(cfg, (log + more)[i], key, entry);
  }

  lemma ExplainedGrows(cfg: Config, log: seq<Emission>, more: seq<Emission>, reqs: map<nat, Request>, s: Served)
    requires Explained(cfg, log, reqs, s)
    ensures Explained(cfg, log + more, reqs, s)
  {
    var i :| 0 <= i < s.logged && ExplainedBy(cfg, log[i], reqs[s.request], s);
    assert ExplainedBy(cfg, (log + more)[i], reqs[s.request], s);
  }

  /** Serving an entry that came from the log, judged young enough, is explained by that response. */
  lemma ServeExplained(cfg: Config, w: World, r: nat, entry: Entry, kind: Kind, judgedAt: int)
    requires r in w.reqs && FromLog(cfg, w.log, |w.log|, w.reqs[r].key, entry) && VaryMatches(entry, w.reqs[r])
    requires var age := judgedAt - entry.storedAt;
      match kind
      case Hit => age <= entry.ttlMs
      case Stale => entry.ttlMs < age <= entry.ttlMs + entry.swrMs
    ensures var v := Serve(cfg, w, r, entry, kind, judgedAt);
      && v.served[..|w.served|] == w.served && |v.served| == |w.served| + 1
      && Explained(cfg, w.log, w.reqs, v.served[|w.served|])
  {
    var s := Serve(cfg, w, r, entry, kind, judgedAt).served[|w.served|];
    var i :| 0 <= i < |w.log| && IsEntryOf(cfg, w.log[i], w.reqs[r].key, entry);
    var e := w.log[i];
    hide ShouldStore;
    assert forall name :: name in VaryOf(e.req, e.resp) ==> Header(w.reqs[r], name) == VaryOf(e.req, e.resp)[name];
    assert ExplainedBy(cfg, e, w.reqs[r], s);
  }

  // ---- every step keeps the invariant --------------------------------------------------------------------------------

  ghost predicate RecordsSound(cfg: Config, w: World) {
    forall r {:trigger r in w.records} :: r in w.records ==> FromLog(cfg, w.log, |w.log|, r.key, r.entry)
  }

  ghost predicate PhasesSound(cfg: Config, w: World) {
    forall r {:trigger r in w.phase} :: r in w.phase ==> r in w.reqs && Sound(cfg, w.log, w.reqs[r], w.phase[r])
  }

  ghost predicate ServedSound(cfg: Config, w: World) {
    forall s :: s in w.served ==> Explained(cfg, w.log, w.reqs, s)
  }

  ghost predicate Inv(cfg: Config, w: World) {
    RecordsSound(cfg, w) && PhasesSound(cfg, w) && ServedSound(cfg, w)
  }

  /** One request moved on; nothing else that the invariant speaks of has changed. */
  lemma PhaseMoves(cfg: Config, w: World, v: World, r: nat)
    requires PhasesSound(cfg, w) && r in w.reqs && r in v.phase && v.reqs == w.reqs && v.log == w.log
    requires v.phase == w.phase[r := v.phase[r]] && Sound(cfg, w.log, w.reqs[r], v.phase[r])
    ensures PhasesSound(cfg, v)
  {
    hide Sound;
  }

  lemma LookUpKeeps(cfg: Config, w: World, e: Event)
    requires Inv(cfg, w) && Enabled(w, e) && e.LookUp?
    ensures Inv(cfg, Next(cfg, w, e))
  {
    var v := Next(cfg, w, e);
    var key := w.reqs[e.r].key;
    var found := Find(w.records, key);
    KeepMembers(w.records, KeyIsNot(key));
    assert forall x :: x in v.records ==> x in w.records;
    if found.Some? { assert found.value in w.records; }
    assert v.reqs == w.reqs && v.log == w.log && v.served == w.served && v.phase == w.phase[e.r := v.phase[e.r]];
    assert v.phase[e.r].found.Some? ==> found.Some? && v.phase[e.r].found.value == found.value.entry;
    hide Next, Get, Find, Keep, FromLog, Explained;
    PhaseMoves(cfg, w, v, e.r);
  }

  lemma ServeKeeps(cfg: Config, w: World, r: nat, entry: Entry, kind: Kind, judgedAt: int)
    requires Inv(cfg, w) && r in w.reqs
    requires FromLog(cfg, w.log, |w.log|, w.reqs[r].key, entry) && VaryMatches(entry, w.reqs[r])
    requires var age := judgedAt - entry.storedAt;
      match kind
      case Hit => age <= entry.ttlMs
      case Stale => entry.ttlMs < age <= entry.ttlMs + entry.swrMs
    ensures Inv(cfg, Serve(cfg, w, r, entry, kind, judgedAt))
  {
    ServeExplained(cfg, w, r, entry, kind, judgedAt);
    var v := Serve(cfg, w, r, entry, kind, judgedAt);
    assert v.phase == w.phase[r := Done] && v.log == w.log && v.reqs == w.reqs && v.records == w.records;
    assert v.served == w.served + [v.served[|w.served|]];
    hide Serve, Explained, FromLog;
    PhaseMoves(cfg, w, v, r);
  }

  lemma JudgeKeeps(cfg: Config, w: World, r: nat)
    requires Inv(cfg, w) && r in w.reqs && r in w.phase && w.phase[r].Got?
    ensures Inv(cfg, Judge(cfg, w, r))
  {
    var v := Judge(cfg, w, r);
    var req, found := w.reqs[r], w.phase[r].found;
    assert Sound(cfg, w.log, req, w.phase[r]);
    if found.Some? && VaryMatches(found.value, req) && w.now - found.value.storedAt <= found.value.ttlMs {
      ServeKeeps(cfg, w, r, found.value, Hit, w.now);
    } else {
      assert Sound(cfg, w.log, req, v.phase[r]);
      assert v.phase == w.phase[r := v.phase[r]] && v.log == w.log && v.reqs == w.reqs && v.records == w.records;
      assert v.served == w.served;
      hide Judge, Sound, Explained, FromLog;
      PhaseMoves(cfg, w, v, r);
    }
  }

  lemma CompleteKeeps(cfg: Config, w: World, r: nat, resp: Response)
    requires Inv(cfg, w) && r in w.reqs && r in w.phase && w.phase[r].Handling?
    ensures Inv(cfg, Complete(cfg, w, r, resp))
  {
    var v := Complete(cfg, w, r, resp);
    var req := w.reqs[r];
    var more := v.log[|w.log|..];
    assert v.log == w.log + more;
    CompleteRecords(cfg, w, r, resp);
    assert v.served == w.served && v.reqs == w.reqs && v.phase == w.phase[r := v.phase[r]];
    assert Sound(cfg, v.log, v.reqs[r], v.phase[r]);
    hide Complete;
    forall s | s in v.served ensures Explained(cfg, v.log, v.reqs, s) {
      ExplainedGrows(cfg, w.log, more, w.reqs, s);
    }
    forall k | k in v.phase ensures k in v.reqs && Sound(cfg, v.log, v.reqs[k], v.phase[k]) {
      if k != r { SoundGrows(cfg, w.log, more, w.reqs[k], w.phase[k]); }
    }
  }

  lemma SoundGrows(cfg: Config, log: seq<Emission>, more: seq<Emission>, req: Request, p: Phase)
    requires Sound(cfg, log, req, p)
    ensures Sound(cfg, log + more, req, p)
  {
    hide FromLog;
    match p
    case Got(found) => if found.Some? { LogGrows(cfg, log, more, req.key, found.value); }
    case Claiming(entry, _, _, _) => LogGrows(cfg, log, more, req.key, entry);
    case _ =>
  }

  /** Every record is an old one or the entry just logged. */
  lemma CompleteRecords(cfg: Config, w: World, r: nat, resp: Response)
    requires RecordsSound(cfg, w) && r in w.reqs && r in w.phase && w.phase[r].Handling?
    ensures RecordsSound(cfg, Complete(cfg, w, r, resp))
  {
    var v := Complete(cfg, w, r, resp);
    var req := w.reqs[r];
    if v.log != w.log {
      var emission := Emission(req, resp, w.now);
      var entry := EntryOf(cfg, req, resp, w.now);
      assert v.log == w.log + [emission];
      SetMembers(w.records, cfg.lim, req.key, entry, TtlOf(cfg, resp) + SwrOf(cfg, resp), w.now);
      assert IsEntryOf(cfg, v.log[|w.log|], req.key, entry);
      assert FromLog(cfg, v.log, |v.log|, req.key, entry);
      hide Complete, FromLog, IsEntryOf, EntryOf, ShouldStore;
      forall x | x in v.records ensures FromLog(cfg, v.log, |v.log|, x.key, x.entry) {
        if x in w.records { LogGrows(cfg, w.log, [emission], x.key, x.entry); }
      }
    } else {
      assert v.records == w.records;
    }
  }

  lemma SetMembers(records: seq<Rec>, lim: Limits, key: Key, entry: Entry, lifeMs: int, now: int)
    ensures forall x :: x in Set(records, lim, key, entry, lifeMs, now) ==>
      x in records || x == Rec(key, entry, now + lifeMs, Size(key, entry))
  {
    var r := Rec(key, entry, now + lifeMs, Size(key, entry));
    var all := Keep(records, KeyIsNot(key)) + [r];
    KeepMembers(records, KeyIsNot(key));
    var k := EvictKeepsLongestFittingSuffix(all, lim);
    assert forall x :: x in all[k..] ==> x in all;
  }

  lemma ArriveKeeps(cfg: Config, w: World, e: Event)
    requires Inv(cfg, w) && Enabled(w, e) && e.Arrive?
    ensures Inv(cfg, Next(cfg, w, e))
  {
    var v := Next(cfg, w, e);
    assert v.log == w.log && v.served == w.served && v.records == w.records;
    assert v.reqs == w.reqs[e.r := e.req] && v.phase == w.phase[e.r := v.phase[e.r]];
    assert Sound(cfg, w.log, e.req, v.phase[e.r]);
    hide Next, Sound, FromLog;
    forall k | k in v.phase ensures k in v.reqs && Sound(cfg, v.log, v.reqs[k], v.phase[k]) {
      assert k != e.r ==> k in w.phase;
    }
    forall s | s in v.served ensures Explained(cfg, v.log, v.reqs, s) {
      assert Explained(cfg, w.log, w.reqs, s);
      assert s.request != e.r ==> v.reqs[s.request] == w.reqs[s.request];
    }
  }

  lemma InvNext(cfg: Config, w: World, e: Event)
    requires Inv(cfg, w) && Enabled(w, e)
    ensures Inv(cfg, Next(cfg, w, e))
  {
    match e
    case Arrive(_, _) => ArriveKeeps(cfg, w, e);
    case LookUp(_) => LookUpKeeps(cfg, w, e);
    case Decide(r) => JudgeKeeps(cfg, w, r);
    case Resume(r) => ResumeKeeps(cfg, w, r);
    case Finish(r, resp) => CompleteKeeps(cfg, w, r, resp);
    case Release(r) => PhaseMoves(cfg, w, Next(cfg, w, e), r);
    case Abandon(r) => PhaseMoves(cfg, w, Next(cfg, w, e), r);
    case Invalidate(test) => RemovalKeeps(cfg, w, Next(cfg, w, e), test);
    case Sweep => RemovalKeeps(cfg, w, Next(cfg, w, e), LivesAt(w.now));
    case Clear =>
    case Clock(_) =>
  }

  lemma RemovalKeeps(cfg: Config, w: World, v: World, t: Test)
    requires Inv(cfg, w) && v == w.(records := Keep(w.records, t), locks := v.locks)
    ensures Inv(cfg, v)
  {
    hide FromLog, Explained, Sound;
    KeepMembers(w.records, t);
  }

  lemma ResumeKeeps(cfg: Config, w: World, r: nat)
    requires Inv(cfg, w) && Enabled(w, Resume(r))
    ensures Inv(cfg, Next(cfg, w, Resume(r)))
  {
    var p := w.phase[r];
    assert Sound(cfg, w.log, w.reqs[r], p);
    if p.mine { PhaseMoves(cfg, w, Next(cfg, w, Resume(r)), r); }
    else { ServeKeeps(cfg, w, r, p.entry, Stale, p.judgedAt); }
  }

  lemma {:induction false} InvRun(cfg: Config, states: seq<World>, events: seq<Event>, i: nat)
    requires Run(cfg, states, events) && i <= |events|
    ensures Inv(cfg, states[i])
  {
    if i > 0 {
      InvRun(cfg, states, events, i - 1);
      StepAt(cfg, states, events, i - 1);
      InvNext(cfg, states[i - 1], events[i - 1]);
    }
  }

  /**
    In every run, everything served from the cache is the body, status, content type and entity tag
    of a response that an earlier request with the same key and the same varying header values sent
    and that passed the write-through gate, at most its lifetime ago (a hit) or within the stale
    grace after it (a stale answer), by the clock reading the request judged it with.
   */
  lemma ServedWasStored(cfg: Config, states: seq<World>, events: seq<Event>, i: nat, s: Served)
    requires Run(cfg, states, events) && i <= |events| && s in states[i].served
    ensures s.request in states[i].reqs && s.logged <= |states[i].log|
    ensures exists n :: 0 <= n < s.logged && ExplainedBy(cfg, states[i].log[n], states[i].reqs[s.request], s)
  {
    InvRun(cfg, states, events, i);
    assert Explained(cfg, states[i].log, states[i].reqs, s);
  }

  // ---- refresh claims ---------------------------------------------------------------------------------------------------

  /** The request holds its key's refresh claim: it was granted and not given back yet. */
  predicate Refreshes(w: World, r: nat) {
    r in w.phase && r in w.reqs &&
    match w.phase[r]
    case Claiming(_, _, mine, _) => mine
    case Handling(refreshing, _) => refreshing
    case Releasing(_) => true
    case _ => false
  }

  function Until(w: World, r: nat): int
    requires Refreshes(w, r)
  {
    match w.phase[r]
    case Claiming(_, _, _, until) => until
    case Handling(_, until) => until
    case Releasing(until) => until
  }

  /** Every revalidator is still within the lifetime of its claim. */
  ghost predicate InTime(w: World) {
    forall r :: Refreshes(w, r) ==> w.now < Until(w, r)
  }

  ghost predicate Claims(w: World) {
    && (forall r :: r in w.phase ==> r in w.reqs)
    && (forall r :: Refreshes(w, r) ==> w.reqs[r].key in w.locks && w.locks[w.reqs[r].key] == Until(w, r))
    && (forall r, q :: Refreshes(w, r) && Refreshes(w, q) && w.reqs[r].key == w.reqs[q].key ==> r == q)
  }

  lemma ClaimsNext(cfg: Config, w: World, e: Event)
    requires Claims(w) && InTime(w) && Enabled(w, e) && e != Clear
    ensures Claims(Next(cfg, w, e))
  {
    match e
    case Decide(r) => ClaimsJudge(cfg, w, r);
    case Release(r) => ClaimsRelease(cfg, w, r);
    case Arrive(r, req) => ClaimsArrive(cfg, w, r, req);
    case Sweep => ClaimsSweep(cfg, w);
    case Clear =>
    case Clock(_) => ClaimsRest(cfg, w, e);
    case Invalidate(_) => ClaimsRest(cfg, w, e);
    case LookUp(_) => ClaimsRest(cfg, w, e);
    case Resume(_) => ClaimsRest(cfg, w, e);
    case Finish(_, _) => ClaimsRest(cfg, w, e);
    case Abandon(_) => ClaimsRest(cfg, w, e);
  }

  lemma ClaimsRest(cfg: Config, w: World, e: Event)
    requires Claims(w) && Enabled(w, e)
    requires e.Clock? || e.Invalidate? || e.LookUp? || e.Resume? || e.Finish? || e.Abandon?
    ensures Claims(Next(cfg, w, e))
  {
    hide Keep, Get, ShouldStore, NotModified, EntryOf, Set;
    ClaimsQuiet(w, Next(cfg, w, e));
  }

  lemma ClaimsArrive(cfg: Config, w: World, r: nat, req: Request)
    requires Claims(w) && Enabled(w, Arrive(r, req))
    ensures Claims(Next(cfg, w, Arrive(r, req)))
  {
    var v := Next(cfg, w, Arrive(r, req));
    assert forall q :: Refreshes(v, q) ==> q != r && Refreshes(w, q) && Until(v, q) == Until(w, q);
  }

  lemma ClaimsSweep(cfg: Config, w: World)
    requires Claims(w) && InTime(w)
    ensures Claims(Next(cfg, w, Sweep))
  {
    hide Keep;
  }

  /** Locks untouched, and nobody holds a claim that was not held before. */
  lemma ClaimsQuiet(w: World, v: World)
    requires Claims(w) && v.locks == w.locks && v.reqs == w.reqs && (forall r :: r in v.phase ==> r in w.phase)
    requires forall q :: Refreshes(v, q) ==> Refreshes(w, q) && Until(v, q) == Until(w, q)
    ensures Claims(v)
  {}

  lemma ClaimsJudge(cfg: Config, w: World, r: nat)
    requires Claims(w) && InTime(w) && r in w.reqs && r in w.phase && w.phase[r].Got?
    ensures Claims(Judge(cfg, w, r))
  {
    var v := Judge(cfg, w, r);
    assert v.reqs == w.reqs && v.phase == w.phase[r := v.phase[r]];
    assert forall q :: q != r && Refreshes(v, q) ==> Refreshes(w, q) && Until(v, q) == Until(w, q);
    if Refreshes(v, r) {
      assert v.locks == w.locks[w.reqs[r].key := Until(v, r)];
      assert forall q :: Refreshes(w, q) ==> w.reqs[q].key != w.reqs[r].key;
    } else {
      assert v.locks == w.locks;
    }
  }

  lemma ClaimsRelease(cfg: Config, w: World, r: nat)
    requires Claims(w) && Enabled(w, Release(r))
    ensures Claims(Next(cfg, w, Release(r)))
  {
    var v := Next(cfg, w, Release(r));
    assert v.reqs == w.reqs && v.phase == w.phase[r := Done] && v.locks == w.locks - {w.reqs[r].key};
    assert Refreshes(w, r);
    assert forall q :: Refreshes(v, q) ==> q != r && Refreshes(w, q) && Until(v, q) == Until(w, q);
  }

  lemma {:induction false} ClaimsRun(cfg: Config, states: seq<World>, events: seq<Event>, i: nat)
    requires Run(cfg, states, events) && i <= |events|
    requires forall j :: 0 <= j < i ==> InTime(states[j]) && events[j] != Clear
    ensures Claims(states[i])
  {
    if i > 0 {
      ClaimsRun(cfg, states, events, i - 1);
      StepAt(cfg, states, events, i - 1);
      ClaimsNext(cfg, states[i - 1], events[i - 1]);
    }
  }

  /**
    While revalidators finish within the lifetime of their claims and nobody clears the cache: at
    most one request holds a key's refresh claim, and any other request that then judges a stale
    entry of that key is not granted it, and is served that entry when it resumes.
   */
  lemma OneRevalidatorOthersServedStale(cfg: Config, states: seq<World>, events: seq<Event>, i: nat, holder: nat, other: nat)
    requires Run(cfg, states, events) && i < |events|
    requires forall j :: 0 <= j <= i ==> InTime(states[j]) && events[j] != Clear
    requires Refreshes(states[i], holder) && other != holder
    requires other in states[i].reqs && states[i].reqs[other].key == states[i].reqs[holder].key
    ensures !Refreshes(states[i], other)
    ensures events[i] == Decide(other) && states[i + 1].phase[other].Claiming? ==> !states[i + 1].phase[other].mine
    ensures events[i] == Resume(other) ==>
      var entry := states[i].phase[other].entry;
      && states[i + 1].served == Serve(cfg, states[i], other, entry, Stale, states[i].phase[other].judgedAt).served
      && states[i + 1].phase[other] == Done
  {
    ClaimsRun(cfg, states, events, i);
    StepAt(cfg, states, events, i);
    var w := states[i];
    assert w.locks[w.reqs[holder].key] == Until(w, holder) > w.now;
  }

  // ---- a claim is given back after the fresh entry was stored ------------------------------------------------------------

  /** The store never holds a key twice nor goes over its limits. */
  ghost predicate Kept(cfg: Config, w: World) {
    Unique(w.records) && Fits(w.records, cfg.lim)
  }

  lemma KeptNext(cfg: Config, w: World, e: Event)
    requires Kept(cfg, w) && Enabled(w, e)
    ensures Kept(cfg, Next(cfg, w, e))
  {
    RefusedFits(cfg, w);
    hide Unique, Fits, Get, Set, Keep, EntryOf, ShouldStore, NotModified, VaryMatches, AcquireLock, SweepLocks;
    match e
    case LookUp(r) => GetFits(w.records, cfg.lim, w.reqs[r].key, w.now);
    case Finish(r, resp) =>
      SetFits(w.records, cfg.lim, w.reqs[r].key, EntryOf(cfg, w.reqs[r], resp, w.now), TtlOf(cfg, resp) + SwrOf(cfg, resp), w.now);
    case Invalidate(test) => KeepFits(w.records, cfg.lim, test);
    case Sweep => KeepFits(w.records, cfg.lim, LivesAt(w.now));
    case _ =>
  }

  lemma RefusedFits(cfg: Config, w: World)
    requires Kept(cfg, w)
    ensures Unique([]) && Fits([], cfg.lim)
  {}

  lemma {:induction false} KeptRun(cfg: Config, states: seq<World>, events: seq<Event>, i: nat)
    requires Run(cfg, states, events) && i <= |events|
    ensures Kept(cfg, states[i])
  {
    if i > 0 {
      KeptRun(cfg, states, events, i - 1);
      StepAt(cfg, states, events, i - 1);
      hide Next, Enabled, Kept;
      KeptNext(cfg, states[i - 1], events[i - 1]);
    }
  }

  /** The fresh entry is the one the store answers with, unless it alone exceeds the limits. */
  ghost predicate FreshlyStored(cfg: Config, w: World, v: World, r: nat, resp: Response)
    requires r in w.reqs
  {
    var key, entry := w.reqs[r].key, EntryOf(cfg, w.reqs[r], resp, w.now);
    && (cfg.lim.maxEntries >= 1 && Size(key, entry) <= cfg.lim.maxBytes ==> Find(v.records, key).Some? && Find(v.records, key).value.entry == entry)
    && (Size(key, entry) > cfg.lim.maxBytes ==> v.records == w.records)
  }

  lemma CompleteStores(cfg: Config, w: World, r: nat, resp: Response)
    requires Kept(cfg, w) && Refreshes(w, r) && w.phase[r].Handling?
    requires ShouldStore(cfg, w.reqs[r], resp) && !NotModified(cfg, w.reqs[r], resp)
    ensures FreshlyStored(cfg, w, Complete(cfg, w, r, resp), r, resp)
  {
    var v, key := Complete(cfg, w, r, resp), w.reqs[r].key;
    var entry := EntryOf(cfg, w.reqs[r], resp, w.now);
    var lifeMs := TtlOf(cfg, resp) + SwrOf(cfg, resp);
    assert v.records == Set(w.records, cfg.lim, key, entry, lifeMs, w.now);
    if cfg.lim.maxEntries >= 1 && Size(key, entry) <= cfg.lim.maxBytes {
      AcceptedEntryStays(w.records, cfg.lim, key, entry, lifeMs, w.now);
      SetFits(w.records, cfg.lim, key, entry, lifeMs, w.now);
      hide Set, EntryOf, ShouldStore, Complete, Fits;
      FindUnique(v.records, v.records[|v.records| - 1]);
    }
  }

  /** A request that has its claim to give back finished before, and has held the claim ever since. */
  lemma {:induction false} FinishedBefore(cfg: Config, states: seq<World>, events: seq<Event>, k: nat, r: nat) returns (i: nat)
    requires Run(cfg, states, events) && k <= |events| && r in states[k].phase && states[k].phase[r].Releasing?
    ensures i < k && events[i].Finish? && events[i].r == r && Refreshes(states[i], r) && states[i].phase[r].Handling?
    ensures forall j :: i < j <= k ==> r in states[j].phase && states[j].phase[r] == states[k].phase[r]
  {
    var n := k - 1;
    StepAt(cfg, states, events, n);
    ReleasingFrom(cfg, states[n], events[n], r);
    if events[n].Finish? && events[n].r == r {
      i := n;
    } else {
      i := FinishedBefore(cfg, states, events, n, r);
    }
  }

  lemma ReleasingFrom(cfg: Config, w: World, e: Event, r: nat)
    requires Enabled(w, e) && r in Next(cfg, w, e).phase && Next(cfg, w, e).phase[r].Releasing?
    ensures if e.Finish? && e.r == r then Refreshes(w, r) && w.phase[r].Handling?
            else r in w.phase && w.phase[r] == Next(cfg, w, e).phase[r]
  {
    hide EntryOf, ShouldStore, NotModified, Get, Keep, VaryMatches;
  }

  lemma PhasesKnown(cfg: Config, states: seq<World>, events: seq<Event>, i: nat, r: nat)
    requires Run(cfg, states, events) && i <= |events| && r in states[i].phase
    ensures r in states[i].reqs
  {
    InvRun(cfg, states, events, i);
  }

  /**
    In every run, whenever a revalidator gives its claim back: it finished before, held the claim from
    then to now, and if its response was storable, the fresh entry was in the store when it finished,
    unless that entry alone exceeds the store's limits.
   */
  lemma ClaimReleasedAfterStoring(cfg: Config, states: seq<World>, events: seq<Event>, k: nat, r: nat) returns (i: nat)
    requires Run(cfg, states, events) && k < |events| && events[k] == Release(r)
    ensures i < k && events[i].Finish? && events[i].r == r && r in states[i].reqs
    ensures forall j :: i <= j <= k ==> Refreshes(states[j], r)
    ensures states[i + 1].locks == states[i].locks
    ensures ShouldStore(cfg, states[i].reqs[r], events[i].resp) && !NotModified(cfg, states[i].reqs[r], events[i].resp) ==>
      FreshlyStored(cfg, states[i], states[i + 1], r, events[i].resp)
    ensures !Refreshes(states[k + 1], r) && states[k].reqs[r].key !in states[k + 1].locks
  {
    StepAt(cfg, states, events, k);
    i := FinishedBefore(cfg, states, events, k, r);
    StepAt(cfg, states, events, i);
    KeptRun(cfg, states, events, i);
    forall j | i < j <= k ensures Refreshes(states[j], r) { PhasesKnown(cfg, states, events, j, r); }
    var resp := events[i].resp;
    if ShouldStore(cfg, states[i].reqs[r], resp) && !NotModified(cfg, states[i].reqs[r], resp) {
      CompleteStores(cfg, states[i], r, resp);
    }
  }
}
