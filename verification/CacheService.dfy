/** What the cache does for a request, step by step and over whole runs, said of the data alone. */
module CacheService {
  import opened OptionType
  import opened CacheStore
  import opened CacheProtocol

  // ---- the write-through gate --------------------------------------------------------------------------

  predicate StandsAt(s: string, k: nat, part: string) {
    k + |part| <= |s| && s[k..k + |part|] == part
  }

  ghost predicate Occurs(s: string, part: string) {
    exists k: nat :: StandsAt(s, k, part)
  }

  lemma {:induction false} ContainsMeans(s: string, part: string)
    ensures Contains(s, part) <==> Occurs(s, part)
  {
    if part <= s { assert StandsAt(s, 0, part); }
    if s != [] {
      ContainsMeans(s[1..], part);
      forall k: nat ensures StandsAt(s[1..], k, part) <==> StandsAt(s, k + 1, part) {
        if k + 1 + |part| <= |s| { assert s[1..][k..k + |part|] == s[k + 1..k + 1 + |part|]; }
      }
      if Occurs(s, part) {
        var k: nat :| StandsAt(s, k, part);
        if k > 0 { assert StandsAt(s[1..], k - 1, part); }
      }
    }
  }

  /** How long a response may be served: as its route says, or by default. */
  predicate Lifetimes(cfg: Config, resp: Response, ttlMs: int, swrMs: int) {
    && ttlMs == (if resp.marker.None? || resp.marker.value.ttlMs.None? then cfg.defaultTtlMs else resp.marker.value.ttlMs.value)
    && swrMs == (if resp.marker.None? || resp.marker.value.swrMs.None? then cfg.defaultSwrMs else resp.marker.value.swrMs.value)
  }

  /** No credentials, or the operator lifted the restriction. */
  predicate Anonymous(cfg: Config, req: Request) {
    !cfg.cachePrivate ==> "authorization" !in req.headers && "cookie" !in req.headers
  }

  /** The path is the prefix, or goes on below it. */
  predicate Under(path: string, prefix: string) {
    prefix == "/" || path == prefix || (|prefix| < |path| && path[..|prefix|] == prefix && path[|prefix|] == '/')
  }

  /** The route opted in, by itself or through one of the configured prefixes. */
  predicate RouteOptedIn(cfg: Config, req: Request, resp: Response) {
    resp.marker.Some? || exists i :: 0 <= i < |cfg.prefixes| && Under(req.path, cfg.prefixes[i])
  }

  /** What may be stored: nothing personal, encoded or forbidden, of a cacheable status, with a positive lifetime. */
  ghost predicate Storable(cfg: Config, req: Request, resp: Response, ttlMs: int) {
    && Anonymous(cfg, req) && resp.status in cfg.statuses
    && !resp.setCookie && !resp.contentEncoded
    && !Occurs(resp.cacheControl, "no-store") && (Occurs(resp.cacheControl, "private") ==> cfg.cachePrivate)
    && RouteOptedIn(cfg, req, resp) && ttlMs > 0
  }

  lemma OptedInMeans(cfg: Config, req: Request, resp: Response)
    ensures resp.marker.Some? || OptedIn(cfg.prefixes, req.path) <==> RouteOptedIn(cfg, req, resp)
  {
    forall i | 0 <= i < |cfg.prefixes|
      ensures Under(req.path, cfg.prefixes[i]) <==>
        cfg.prefixes[i] == "/" || req.path == cfg.prefixes[i] || cfg.prefixes[i] + "/" <= req.path
    {
      UnderMeans(req.path, cfg.prefixes[i]);
    }
    hide Under;
  }

  lemma UnderMeans(path: string, p: string)
    ensures Under(path, p) <==> p == "/" || path == p || p + "/" <= path
  {
    if p + "/" <= path { assert (p + "/")[|p|] == '/' && (p + "/")[..|p|] == p; }
    if |p| < |path| && path[..|p|] == p && path[|p|] == '/' { assert path[..|p| + 1] == p + "/"; }
  }

  lemma GateMeans(cfg: Config, req: Request, resp: Response, ttlMs: int, swrMs: int)
    requires Lifetimes(cfg, resp, ttlMs, swrMs)
    ensures TtlOf(cfg, resp) == ttlMs && SwrOf(cfg, resp) == swrMs
    ensures ShouldStore(cfg, req, resp) <==> Storable(cfg, req, resp, ttlMs)
  {
    ContainsMeans(resp.cacheControl, "no-store");
    ContainsMeans(resp.cacheControl, "private");
    OptedInMeans(cfg, req, resp);
    hide Contains, Occurs, OptedIn, RouteOptedIn;
  }

  /** The entity tag sent: the response's own, or one computed for a successful body when tags are on. */
  predicate Tagged(cfg: Config, resp: Response, tag: Option<string>) {
    if resp.etag.Some? then tag == resp.etag
    else if cfg.etagOn && 200 <= resp.status < 300 then tag == Some(cfg.etagOf(resp.body))
    else tag == None
  }

  /** The client lists this tag, or any. */
  predicate Listed(known: Known, tag: Option<string>) {
    tag.Some? && (known == AnyTag || (known.Tags? && tag.value in known.tags))
  }

  lemma TagMeans(cfg: Config, resp: Response, tag: Option<string>)
    ensures Tagged(cfg, resp, tag) <==> TagOf(cfg, resp) == tag
  {}

  /** A conditional request that the response need not be sent for. */
  predicate StillHeld(cfg: Config, req: Request, resp: Response, tag: Option<string>) {
    cfg.etagOn && 200 <= resp.status < 300 && Listed(req.known, tag)
  }

  lemma StillHeldMeans(cfg: Config, req: Request, resp: Response, tag: Option<string>)
    requires Tagged(cfg, resp, tag)
    ensures NotModified(cfg, req, resp) <==> StillHeld(cfg, req, resp, tag)
  {}

  // ---- answering from an entry ------------------------------------------------------------------------------

  /** The entry's own response, headers only for HEAD, and 304 for a client that holds it. */
  predicate AnsweredFrom(cfg: Config, req: Request, entry: Entry, s: Served) {
    && s.tag == (if cfg.etagOn then entry.etag else None)
    && if Listed(req.known, s.tag) then s.status == 304 && s.body == []
       else
         && s.status == entry.statusCode && s.contentType == entry.contentType
         && s.body == if req.head then [] else entry.payload
  }

  /** The request has the header values the entry was made for; a missing header counts as empty. */
  predicate SameVariant(entry: Entry, req: Request) {
    forall name :: name in entry.vary ==> entry.vary[name] == if name in req.headers then req.headers[name] else ""
  }

  /** Exactly one answer went out, to this request, and the request is done. */
  ghost predicate AnswersOnce(cfg: Config, w: World, v: World, r: nat, entry: Entry, kind: Kind, judgedAt: int)
    requires r in w.reqs
  {
    && |v.served| == |w.served| + 1 && v.served[..|w.served|] == w.served
    && var s := v.served[|w.served|];
    && s.request == r && s.kind == kind && s.judgedAt == judgedAt && s.logged == |w.log| && AnsweredFrom(cfg, w.reqs[r], entry, s)
    && v.phase == w.phase[r := Done] && v.reqs == w.reqs && v.now == w.now
    && v.records == w.records && v.locks == w.locks && v.log == w.log
  }

  /** The request goes to the handler, as the revalidator or not; nothing is answered yet. */
  ghost predicate GoesToHandler(w: World, v: World, r: nat, refreshing: bool) {
    && r in v.phase && v.phase == w.phase[r := v.phase[r]] && v.phase[r].Handling? && v.phase[r].refreshing == refreshing
    && v.reqs == w.reqs && v.now == w.now && v.served == w.served && v.records == w.records && v.locks == w.locks && v.log == w.log
  }

  lemma ServeMeans(cfg: Config, w: World, r: nat, entry: Entry, kind: Kind, judgedAt: int)
    requires r in w.reqs
    ensures AnswersOnce(cfg, w, Serve(cfg, w, r, entry, kind, judgedAt), r, entry, kind, judgedAt)
  {}

  // ---- one request, event by event ---------------------------------------------------------------------------

  /** A request with credentials goes past the cache; any other looks up first. */
  lemma ArrivalMeans(cfg: Config, w: World, r: nat, req: Request)
    requires Enabled(w, Arrive(r, req))
    ensures var v := Next(cfg, w, Arrive(r, req));
      && v.reqs == w.reqs[r := req] && v.phase == w.phase[r := if Anonymous(cfg, req) then Looking else Handling(false, 0)]
      && v.served == w.served && v.records == w.records && v.locks == w.locks && v.log == w.log
  {}

  /** A lookup finds the record of the key, if it is stored and has not expired, and makes it the most recent; an expired one goes. */
  lemma LookUpMeans(cfg: Config, w: World, r: nat)
    requires Kept(cfg, w) && Enabled(w, LookUp(r))
    ensures var v, key := Next(cfg, w, LookUp(r)), w.reqs[r].key;
      && r in v.phase && v.phase[r].Got?
      && (v.phase[r].found.Some? <==> exists x :: x in w.records && x.key == key && x.expiresAt > w.now)
      && (forall x :: x in w.records && x.key == key && x.expiresAt > w.now ==> v.phase[r].found == Some(x.entry))
      && (forall x :: x in v.records <==> x in w.records && (x.key == key ==> x.expiresAt > w.now))
      && (v.phase[r].found.Some? ==> v.records[|v.records| - 1].key == key)
  {
    KeepMembers(w.records, KeyIsNot(w.reqs[r].key));
    var key := w.reqs[r].key;
    var found := Find(w.records, key);
    forall x | x in w.records && x.key == key ensures found == Some(x) { FindUnique(w.records, x); }
    hide Find, Keep, Unique, Fits;
  }

  /**
    What a request does with what it found: an entry of its variant within its lifetime is served as a
    hit; one within the stale grace makes the request the revalidator exactly when no unexpired claim is
    held, which it then takes; everything else goes to the handler.
   */
  lemma DecisionMeans(cfg: Config, w: World, r: nat)
    requires Enabled(w, Decide(r))
    ensures var v, found, req := Next(cfg, w, Decide(r)), w.phase[r].found, w.reqs[r];
      if found.None? || !SameVariant(found.value, req) then GoesToHandler(w, v, r, false)
      else
        var entry, age := found.value, w.now - found.value.storedAt;
        if age <= entry.ttlMs then AnswersOnce(cfg, w, v, r, entry, Hit, w.now)
        else if age > entry.ttlMs + entry.swrMs then GoesToHandler(w, v, r, false)
        else
          var free := !(req.key in w.locks && w.locks[req.key] > w.now);
          && r in v.phase && v.phase[r] == Claiming(entry, w.now, free, w.now + cfg.lockTtlMs)
          && v.locks == (if free then w.locks[req.key := w.now + cfg.lockTtlMs] else w.locks)
          && v.served == w.served && v.records == w.records
  {
    var found, req := w.phase[r].found, w.reqs[r];
    assert found.Some? ==> (VaryMatches(found.value, req) <==> SameVariant(found.value, req));
    if found.Some? { ServeMeans(cfg, w, r, found.value, Hit, w.now); }
    hide AnswersOnce, Serve, VaryMatches, SameVariant;
  }

  /** A revalidator goes on to the handler; a request without the claim is served the stale entry. */
  lemma ResumptionMeans(cfg: Config, w: World, r: nat)
    requires Enabled(w, Resume(r))
    ensures var v, p := Next(cfg, w, Resume(r)), w.phase[r];
      if p.mine then GoesToHandler(w, v, r, true) else AnswersOnce(cfg, w, v, r, p.entry, Stale, p.judgedAt)
  {
    ServeMeans(cfg, w, r, w.phase[r].entry, Stale, w.phase[r].judgedAt);
    hide AnswersOnce, Serve;
  }

  /** What is stored of a response. */
  ghost predicate StoredForm(cfg: Config, req: Request, resp: Response, now: int, ttlMs: int, swrMs: int, tag: Option<string>, entry: Entry) {
    && entry.payload == resp.body && entry.statusCode == resp.status && entry.contentType == resp.contentType
    && entry.etag == tag && entry.storedAt == now && entry.ttlMs == ttlMs && entry.swrMs == swrMs
    && (forall name :: name in entry.vary <==> resp.marker.Some? && name in resp.marker.value.varyHeaders)
    && SameVariant(entry, req)
  }

  lemma FormMeans(cfg: Config, req: Request, resp: Response, now: int, ttlMs: int, swrMs: int, tag: Option<string>)
    requires Lifetimes(cfg, resp, ttlMs, swrMs) && Tagged(cfg, resp, tag)
    ensures StoredForm(cfg, req, resp, now, ttlMs, swrMs, tag, EntryOf(cfg, req, resp, now))
  {}

  /**
    A response is stored exactly when it is storable and is not answered with 304; then it is logged,
    and its stored form is the most recent record, to expire after its lifetime and stale grace, unless
    the store's limits have no room for it alone. A revalidator then has its claim to give back.
   */
  lemma CompletionMeans(cfg: Config, w: World, r: nat, resp: Response, ttlMs: int, swrMs: int, tag: Option<string>)
    requires Kept(cfg, w) && Enabled(w, Finish(r, resp)) && Lifetimes(cfg, resp, ttlMs, swrMs) && Tagged(cfg, resp, tag)
    ensures var v, req := Next(cfg, w, Finish(r, resp)), w.reqs[r];
      if Storable(cfg, req, resp, ttlMs) && !StillHeld(cfg, req, resp, tag) then
        && v.log == w.log + [Emission(req, resp, w.now)]
        && (if |resp.body| + |req.key| + 200 > cfg.lim.maxBytes then v.records == w.records
            else cfg.lim.maxEntries >= 1 ==> v.records != [] && Newest(cfg, req, resp, w.now, ttlMs, swrMs, tag, v.records[|v.records| - 1]))
      else v.log == w.log && v.records == w.records
    ensures var v, p := Next(cfg, w, Finish(r, resp)), w.phase[r];
      v.phase == w.phase[r := if p.refreshing then Releasing(p.until) else Done] && v.served == w.served && v.locks == w.locks
  {
    var req := w.reqs[r];
    GateMeans(cfg, req, resp, ttlMs, swrMs);
    StillHeldMeans(cfg, req, resp, tag);
    FormMeans(cfg, req, resp, w.now, ttlMs, swrMs, tag);
    var entry := EntryOf(cfg, req, resp, w.now);
    if cfg.lim.maxEntries >= 1 && Size(req.key, entry) <= cfg.lim.maxBytes {
      AcceptedEntryStays(w.records, cfg.lim, req.key, entry, ttlMs + swrMs, w.now);
    }
    hide Storable, ShouldStore, NotModified, StillHeld, EntryOf, StoredForm, Evict, Keep;
  }

  ghost predicate Newest(cfg: Config, req: Request, resp: Response, now: int, ttlMs: int, swrMs: int, tag: Option<string>, x: Rec) {
    x.key == req.key && x.expiresAt == now + ttlMs + swrMs && StoredForm(cfg, req, resp, now, ttlMs, swrMs, tag, x.entry)
  }

  /** Requests, what was stored and what was served stay as they are. */
  ghost predicate SameStory(w: World, v: World) {
    v.reqs == w.reqs && v.log == w.log && v.served == w.served
  }

  /**
    Time, giving a claim back, a handler that answers nothing, invalidation and upkeep: whom they move,
    and which records and claims they leave. A claim that is not given back is left to run out.
   */
  lemma UpkeepMeans(cfg: Config, w: World, e: Event, x: Rec, key: Key)
    requires Enabled(w, e)
    ensures var v := Next(cfg, w, e);
      match e
      case Clock(to) => SameStory(w, v) && v.now == to && v.phase == w.phase && v.records == w.records && v.locks == w.locks
      case Release(r) =>
        && SameStory(w, v) && v.now == w.now && v.phase == w.phase[r := Done] && v.records == w.records
        && (key in v.locks <==> key in w.locks && key != w.reqs[r].key) && (key in v.locks ==> v.locks[key] == w.locks[key])
      case Abandon(r) => SameStory(w, v) && v.now == w.now && v.phase == w.phase[r := Done] && v.records == w.records && v.locks == w.locks
      case Invalidate(KeyIsNot(k)) =>
        SameStory(w, v) && v.now == w.now && v.phase == w.phase && v.locks == w.locks && (x in v.records <==> x in w.records && x.key != k)
      case Invalidate(KeyLacksPrefix(prefix)) =>
        && SameStory(w, v) && v.now == w.now && v.phase == w.phase && v.locks == w.locks
        && (x in v.records <==> x in w.records && (|prefix| > |x.key| || x.key[..|prefix|] != prefix))
      case Sweep =>
        && SameStory(w, v) && v.now == w.now && v.phase == w.phase && (x in v.records <==> x in w.records && w.now < x.expiresAt)
        && (key in v.locks <==> key in w.locks && w.now < w.locks[key]) && (key in v.locks ==> v.locks[key] == w.locks[key])
      case Clear => SameStory(w, v) && v.now == w.now && v.phase == w.phase && x !in v.records && key !in v.locks
      case _ => true
  {
    match e
    case Invalidate(test) => KeepMembers(w.records, test);
    case Sweep => KeepMembers(w.records, LivesAt(w.now));
    case _ =>
  }

  // ---- over whole runs ----------------------------------------------------------------------------------------

  /** What a request found is what its lookup found, and that was its last event. */
  lemma {:induction false} FoundBefore(cfg: Config, states: seq<World>, events: seq<Event>, j: nat, r: nat) returns (i: nat)
    requires Run(cfg, states, events) && j <= |events| && r in states[j].phase && states[j].phase[r].Got?
    ensures i < j && events[i] == LookUp(r) && r in states[i].reqs && r in states[j].reqs && states[j].reqs[r] == states[i].reqs[r]
    ensures r in states[i + 1].phase && states[i + 1].phase[r] == states[j].phase[r]
  {
    var n := j - 1;
    StepAt(cfg, states, events, n);
    GotFrom(cfg, states[n], events[n], r);
    if events[n] == LookUp(r) {
      i := n;
    } else {
      i := FoundBefore(cfg, states, events, n, r);
    }
  }

  lemma GotFrom(cfg: Config, w: World, e: Event, r: nat)
    requires Enabled(w, e) && r in Next(cfg, w, e).phase && Next(cfg, w, e).phase[r].Got?
    ensures e == LookUp(r) ==> r in w.reqs && r in Next(cfg, w, e).reqs && Next(cfg, w, e).reqs[r] == w.reqs[r]
    ensures e != LookUp(r) ==> r in w.phase && w.phase[r] == Next(cfg, w, e).phase[r] && (r in w.reqs ==> r in Next(cfg, w, e).reqs && Next(cfg, w, e).reqs[r] == w.reqs[r])
  {
    hide EntryOf, ShouldStore, NotModified, Get, Keep, VaryMatches;
  }

  /**
    A cache that holds a response serves it: if the store held an unexpired record of the key when the
    request looked up, the request is of its variant, and the record is within its lifetime when the
    request decides, then the request is answered from it, as a hit, and done.
   */
  lemma FreshEntryIsServed(cfg: Config, states: seq<World>, events: seq<Event>, j: nat, r: nat) returns (i: nat)
    requires Run(cfg, states, events) && j < |events| && events[j] == Decide(r)
    ensures i < j && events[i] == LookUp(r) && r in states[i].reqs && r in states[j].reqs && states[j].reqs[r] == states[i].reqs[r]
    ensures forall x :: (x in states[i].records && x.key == states[i].reqs[r].key && x.expiresAt > states[i].now
                         && SameVariant(x.entry, states[i].reqs[r]) && states[j].now - x.entry.storedAt <= x.entry.ttlMs) ==>
      AnswersOnce(cfg, states[j], states[j + 1], r, x.entry, Hit, states[j].now)
  {
    StepAt(cfg, states, events, j);
    i := FoundBefore(cfg, states, events, j, r);
    StepAt(cfg, states, events, i);
    KeptRun(cfg, states, events, i);
    hide Next, Kept, Run, AnswersOnce, SameVariant;
    LookUpMeans(cfg, states[i], r);
    DecisionMeans(cfg, states[j], r);
  }

  /** The log is what was sent: a storable response of an earlier event, by the request that finished with it. */
  ghost predicate SentAt(cfg: Config, states: seq<World>, events: seq<Event>, k: nat, e: Emission, ttlMs: int, swrMs: int, tag: Option<string>) {
    && k < |events| && k < |states| && events[k].Finish? && events[k].resp == e.resp
    && events[k].r in states[k].reqs && states[k].reqs[events[k].r] == e.req && states[k].now == e.at
    && Lifetimes(cfg, e.resp, ttlMs, swrMs) && Tagged(cfg, e.resp, tag)
    && Storable(cfg, e.req, e.resp, ttlMs) && !StillHeld(cfg, e.req, e.resp, tag)
  }

  lemma {:induction false} LogIsHistory(cfg: Config, states: seq<World>, events: seq<Event>, i: nat, n: nat) returns (k: nat, ttlMs: int, swrMs: int, tag: Option<string>)
    requires Run(cfg, states, events) && i <= |events| && n < |states[i].log|
    ensures k < i && SentAt(cfg, states, events, k, states[i].log[n], ttlMs, swrMs, tag)
  {
    StepAt(cfg, states, events, i - 1);
    var w, e := states[i - 1], events[i - 1];
    LogFrom(cfg, w, e);
    if n < |w.log| {
      hide Run, SentAt, Next;
      k, ttlMs, swrMs, tag := LogIsHistory(cfg, states, events, i - 1, n);
    } else {
      k, ttlMs, swrMs, tag := i - 1, TtlOf(cfg, e.resp), SwrOf(cfg, e.resp), TagOf(cfg, e.resp);
      GateMeans(cfg, w.reqs[e.r], e.resp, ttlMs, swrMs);
      TagMeans(cfg, e.resp, tag);
      StillHeldMeans(cfg, w.reqs[e.r], e.resp, tag);
    }
  }

  lemma LogFrom(cfg: Config, w: World, e: Event)
    requires Enabled(w, e)
    ensures var v := Next(cfg, w, e);
      v.log == w.log ||
      (e.Finish? && e.r in w.reqs && v.log == w.log + [Emission(w.reqs[e.r], e.resp, w.now)]
       && ShouldStore(cfg, w.reqs[e.r], e.resp) && !NotModified(cfg, w.reqs[e.r], e.resp))
  {
    hide EntryOf, ShouldStore, NotModified, Get, Keep, VaryMatches, Set;
  }

  /** `s` answers its request with the response sent at event `k`, within its lifetime (a hit) or its stale grace. */
  ghost predicate Repeats(cfg: Config, states: seq<World>, events: seq<Event>, k: nat, e: Emission, req: Request, s: Served) {
    exists ttlMs, swrMs, tag ::
      && SentAt(cfg, states, events, k, e, ttlMs, swrMs, tag)
      && e.req.key == req.key
      && (e.resp.marker.Some? ==> forall name :: name in e.resp.marker.value.varyHeaders ==>
            (if name in req.headers then req.headers[name] else "") == (if name in e.req.headers then e.req.headers[name] else ""))
      && (if s.kind == Hit then s.judgedAt - e.at <= ttlMs else ttlMs < s.judgedAt - e.at <= ttlMs + swrMs)
      && s.tag == (if cfg.etagOn then tag else None)
      && (if Listed(req.known, s.tag) then s.status == 304 && s.body == []
          else s.status == e.resp.status && s.contentType == e.resp.contentType && s.body == if req.head then [] else e.resp.body)
  }

  /**
    In every run, whatever is served from the cache repeats a response that an earlier request for the
    same key and variant finished with, which carried nothing personal, encoded or forbidden, and which
    was young enough when the request was decided.
   */
  lemma ServedRepeatsASentResponse(cfg: Config, states: seq<World>, events: seq<Event>, i: nat, s: Served) returns (k: nat)
    requires Run(cfg, states, events) && i <= |events| && s in states[i].served
    ensures s.request in states[i].reqs && k < i && events[k].Finish? && events[k].r in states[k].reqs
    ensures Repeats(cfg, states, events, k, Emission(states[k].reqs[events[k].r], events[k].resp, states[k].now), states[i].reqs[s.request], s)
  {
    ServedWasStored(cfg, states, events, i, s);
    var n :| 0 <= n < s.logged && ExplainedBy(cfg, states[i].log[n], states[i].reqs[s.request], s);
    var ttlMs, swrMs, tag;
    k, ttlMs, swrMs, tag := LogIsHistory(cfg, states, events, i, n);
    var e := states[i].log[n];
    GateMeans(cfg, e.req, e.resp, ttlMs, swrMs);
    TagMeans(cfg, e.resp, tag);
    hide Run, ShouldStore, Storable, Next;
    assert e == Emission(states[k].reqs[events[k].r], events[k].resp, states[k].now);
  }
}
