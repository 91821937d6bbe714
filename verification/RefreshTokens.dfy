/**
  Refresh-token rotation: requests that check, issue, save and revoke, interleaved in any way, over a
  store whose every call may fail, with or without having taken effect. Token ids are numbered in
  the order they are made.
 */
module RefreshTokens {
  import opened OptionType

  type Id = nat

  /** Where a request stands: which id was presented, and which new one it is about to issue. */
  datatype Phase =
    | Presented(prior: Id)
    | Checked(prior: Id)
    | Signed(prior: Id, next: Id)
    | Saved(prior: Id, next: Id)
    | Answered(status: int, prior: Id, issued: Option<Id>)

  /**
    `live` is what the store holds. `made` counts the ids used; `parent` says which id a new one was
    issued for; `known` are the ids whose tokens clients have been given; `ever` were live once.
   */
  datatype World = World(
    live: set<Id>,
    made: Id,
    parent: map<Id, Id>,
    known: set<Id>,
    ever: set<Id>,
    phase: map<nat, Phase>)

  /** How a store call went. */
  datatype Call = Works | FailsWithEffect | FailsWithoutEffect

  datatype Event =
    | Login
    | Present(r: nat, prior: Id)
    | Check(r: nat, call: Call)
    | Sign(r: nat, ok: bool)
    | Save(r: nat, call: Call)
    | Revoke(r: nat, call: Call)

  const EMPTY: World := World({}, 0, map[], {}, {}, map[])

  predicate Enabled(w: World, e: Event) {
    match e
    case Login => true
    case Present(r, prior) => r !in w.phase && prior in w.known
    case Check(r, _) => r in w.phase && w.phase[r].Presented?
    case Sign(r, _) => r in w.phase && w.phase[r].Checked?
    case Save(r, _) => r in w.phase && w.phase[r].Signed?
    case Revoke(r, _) => r in w.phase && w.phase[r].Saved?
  }

  function Put(w: World, id: Id): World {
    w.(live := w.live + {id}, ever := w.ever + {id})
  }

  function Move(w: World, r: nat, p: Phase): World {
    w.(phase := w.phase[r := p])
  }

  function Next(w: World, e: Event): World
    requires Enabled(w, e)
  {
    match e
    case Login => Put(w, w.made).(made := w.made + 1, known := w.known + {w.made})
    case Present(r, prior) => Move(w, r, Presented(prior))
    case Check(r, call) =>
      var prior := w.phase[r].prior;
      if !call.Works? then Move(w, r, Answered(503, prior, None))
      else if prior !in w.live then Move(w, r, Answered(401, prior, None))
      else Move(w, r, Checked(prior))
    case Sign(r, ok) =>
      var prior := w.phase[r].prior;
      if !ok then Move(w.(made := w.made + 1), r, Answered(500, prior, None))
      else Move(w.(made := w.made + 1, parent := w.parent[w.made := prior]), r, Signed(prior, w.made))
    case Save(r, call) =>
      var prior, next := w.phase[r].prior, w.phase[r].next;
      var stored := if call.FailsWithoutEffect? then w else Put(w, next);
      if call.Works? then Move(stored, r, Saved(prior, next)) else Move(stored, r, Answered(503, prior, None))
    case Revoke(r, call) =>
      var prior, next := w.phase[r].prior, w.phase[r].next;
      var revoked := if call.FailsWithoutEffect? then w else w.(live := w.live - {prior});
      Move(revoked.(known := revoked.known + {next}), r, Answered(200, prior, Some(next)))
  }

  ghost predicate Run(states: seq<World>, events: seq<Event>) {
    && |states| == |events| + 1
    && states[0] == EMPTY
    && forall i {:trigger events[i]} :: 0 <= i < |events| ==>
         Enabled(states[i], events[i]) && states[i + 1] == Next(states[i], events[i])
  }

  lemma StepAt(states: seq<World>, events: seq<Event>, i: nat)
    requires Run(states, events) && i < |events|
    ensures Enabled(states[i], events[i]) && states[i + 1] == Next(states[i], events[i])
  {
    var e := events[i];
  }

  // ---- the invariant -----------------------------------------------------------------------------------------

  /** What is true of a request in this phase. */
  ghost predicate Sound(w: World, p: Phase) {
    match p
    case Presented(prior) => prior in w.known
    case Checked(prior) => prior in w.ever && prior in w.known
    case Signed(prior, next) =>
      prior in w.ever && prior in w.known && next < w.made && next in w.parent && w.parent[next] == prior && next !in w.known
    case Saved(prior, next) =>
      prior in w.ever && prior in w.known && next in w.parent && w.parent[next] == prior && next in w.live && next !in w.known
    case Answered(status, prior, issued) => status == 200 ==> issued.Some? && issued.value in w.ever
  }

  /** An id that was live once still is, or was handed over to a newer one that a client has been given. */
  ghost predicate HandedOver(w: World, x: Id) {
    x in w.live || exists c :: c in w.parent && w.parent[c] == x && c in w.ever && c in w.known
  }

  ghost predicate Numbered(w: World) {
    && w.live <= w.ever && w.known <= w.ever
    && (forall x :: x in w.ever ==> x < w.made)
    && (forall c :: c in w.parent ==> w.parent[c] < c < w.made)
  }

  /** Nobody else is about to issue the same new id. */
  ghost predicate OwnNext(w: World) {
    forall r, q :: r in w.phase && q in w.phase && SameNext(w.phase[r], w.phase[q]) ==> r == q
  }

  predicate SameNext(p: Phase, q: Phase) { Issues(p) && Issues(q) && p.next == q.next }

  predicate Issues(p: Phase) { p.Signed? || p.Saved? }

  ghost predicate Inv(w: World) {
    && Numbered(w) && OwnNext(w)
    && (forall r :: r in w.phase ==> Sound(w, w.phase[r]))
    && (forall x :: x in w.ever ==> HandedOver(w, x))
  }

  /** The world only grew, apart from a revoked id that was handed over. */
  lemma SoundKeeps(w: World, v: World, p: Phase)
    requires Sound(w, p) && w.ever <= v.ever && w.known <= v.known && w.made <= v.made
    requires forall c :: c in w.parent ==> c in v.parent && v.parent[c] == w.parent[c]
    requires Issues(p) ==> p.next !in v.known
    requires p.Saved? ==> p.next in v.live
    ensures Sound(v, p)
  {}

  lemma HandedOverKeeps(w: World, v: World, x: Id)
    requires HandedOver(w, x) && w.live <= v.live && w.ever <= v.ever && w.known <= v.known
    requires forall c :: c in w.parent ==> c in v.parent && v.parent[c] == w.parent[c]
    ensures HandedOver(v, x)
  {}

  lemma RevokeKeeps(w: World, e: Event)
    requires Inv(w) && Enabled(w, e) && e.Revoke?
    ensures Inv(Next(w, e))
  {
    var v := Next(w, e);
    var p := w.phase[e.r];
    assert Sound(w, p);
    forall x | x in v.ever ensures HandedOver(v, x) {
      assert HandedOver(w, x);
      if x == p.prior { assert w.parent[p.next] == x && p.next in v.ever && p.next in v.known; }
    }
    forall r | r in v.phase ensures Sound(v, v.phase[r]) {
      if r != e.r {
        assert Sound(w, w.phase[r]);
        SoundKeeps(w, v, w.phase[r]);
      }
    }
  }

  /** One request moved on (or none); nothing was taken away, and new ids are new. */
  lemma GrowthKeeps(w: World, v: World, r: nat)
    requires Inv(w) && Numbered(v) && w.live <= v.live && w.ever <= v.ever && w.known <= v.known && w.made <= v.made
    requires forall c :: c in w.parent ==> c in v.parent && v.parent[c] == w.parent[c]
    requires forall q :: q in v.phase && q != r ==> q in w.phase && v.phase[q] == w.phase[q]
    requires forall x :: x in v.ever ==> x in w.ever || x in v.live
    requires r in v.phase ==> Sound(v, v.phase[r])
    requires r in v.phase && Issues(v.phase[r]) ==>
      v.phase[r].next >= w.made || (r in w.phase && Issues(w.phase[r]) && v.phase[r].next == w.phase[r].next)
    requires forall x :: x in v.known && x !in w.known ==> x >= w.made
    ensures Inv(v)
  {
    forall x | x in v.ever ensures HandedOver(v, x) {
      if x in w.ever { HandedOverKeeps(w, v, x); }
    }
    forall q | q in v.phase ensures Sound(v, v.phase[q]) {
      if q != r {
        assert Sound(w, w.phase[q]);
        SoundKeeps(w, v, w.phase[q]);
      }
    }
    forall q | q in w.phase && Issues(w.phase[q]) ensures w.phase[q].next < w.made { assert Sound(w, w.phase[q]); }
    hide Sound, HandedOver, Numbered;
  }

  lemma InvNext(w: World, e: Event)
    requires Inv(w) && Enabled(w, e)
    ensures Inv(Next(w, e))
  {
    match e
    case Revoke(_, _) => RevokeKeeps(w, e);
    case Login => LoginKeeps(w);
    case Present(r, _) => hide OwnNext, HandedOver; GrowthKeeps(w, Next(w, e), r);
    case Check(r, _) => QuietKeeps(w, e);
    case Sign(r, _) => SignKeeps(w, e);
    case Save(r, _) => SaveKeeps(w, e);
  }

  lemma LoginKeeps(w: World)
    requires Inv(w)
    ensures Inv(Next(w, Login))
  {
    var v := Next(w, Login);
    if w.phase == map[] {
      hide OwnNext, HandedOver;
      GrowthKeeps(w, v, 0);
    } else {
      var r :| r in w.phase;
      assert Sound(w, w.phase[r]);
      SoundKeeps(w, v, w.phase[r]);
      hide OwnNext, HandedOver;
      GrowthKeeps(w, v, r);
    }
  }

  lemma QuietKeeps(w: World, e: Event)
    requires Inv(w) && Enabled(w, e) && e.Check?
    ensures Inv(Next(w, e))
  {
    assert Sound(w, w.phase[e.r]);
    hide OwnNext, HandedOver;
    GrowthKeeps(w, Next(w, e), e.r);
  }

  lemma SignKeeps(w: World, e: Event)
    requires Inv(w) && Enabled(w, e) && e.Sign?
    ensures Inv(Next(w, e))
  {
    assert Sound(w, w.phase[e.r]);
    hide OwnNext, HandedOver;
    GrowthKeeps(w, Next(w, e), e.r);
  }

  lemma SaveKeeps(w: World, e: Event)
    requires Inv(w) && Enabled(w, e) && e.Save?
    ensures Inv(Next(w, e))
  {
    assert Sound(w, w.phase[e.r]);
    hide OwnNext, HandedOver;
    GrowthKeeps(w, Next(w, e), e.r);
  }

  lemma {:induction false} InvRun(states: seq<World>, events: seq<Event>, i: nat)
    requires Run(states, events) && i <= |events|
    ensures Inv(states[i])
  {
    if i > 0 {
      InvRun(states, events, i - 1);
      StepAt(states, events, i - 1);
      InvNext(states[i - 1], events[i - 1]);
    }
  }

  // ---- what every run guarantees --------------------------------------------------------------------------------

  /** `y` was issued, in one or more rotations or none, for `x`. */
  predicate Descends(w: World, y: Id, x: Id)
    requires forall c :: c in w.parent ==> w.parent[c] < c
    decreases y
  {
    y == x || (y in w.parent && Descends(w, w.parent[y], x))
  }

  lemma {:induction false} DescendsThrough(w: World, y: Id, c: Id, x: Id)
    requires forall k :: k in w.parent ==> w.parent[k] < k
    requires Descends(w, y, c) && c in w.parent && w.parent[c] == x
    ensures Descends(w, y, x)
    decreases y
  {
    if y != c { DescendsThrough(w, w.parent[y], c, x); }
  }

  lemma {:induction false} SomeLiveDescendant(w: World, x: Id) returns (y: Id)
    requires Inv(w) && x in w.ever
    ensures y in w.live && Descends(w, y, x) && (y == x || y in w.known)
    decreases w.made - x
  {
    assert HandedOver(w, x);
    if x in w.live {
      y := x;
    } else {
      var c :| c in w.parent && w.parent[c] == x && c in w.ever && c in w.known;
      y := SomeLiveDescendant(w, c);
      DescendsThrough(w, y, c, x);
    }
  }

  lemma {:induction false} EverStays(states: seq<World>, events: seq<Event>, i: nat, j: nat)
    requires Run(states, events) && i <= j <= |events|
    ensures states[i].ever <= states[j].ever
    decreases j
  {
    if i < j {
      EverStays(states, events, i, j - 1);
      StepAt(states, events, j - 1);
    }
  }

  lemma {:induction false} KnownStays(states: seq<World>, events: seq<Event>, i: nat, j: nat)
    requires Run(states, events) && i <= j <= |events|
    ensures states[i].known <= states[j].known
    decreases j
  {
    if i < j {
      KnownStays(states, events, i, j - 1);
      StepAt(states, events, j - 1);
    }
  }

  /**
    Nobody is ever locked out: once an id is live, at every later moment some id descended from it is.
    If a client has been given that first id, it has been given the live one too.
   */
  lemma SomeDescendantIsAlwaysLive(states: seq<World>, events: seq<Event>, i: nat, j: nat, x: Id)
    requires Run(states, events) && i <= j <= |events| && x in states[i].live
    ensures forall c :: c in states[j].parent ==> states[j].parent[c] < c
    ensures exists y :: y in states[j].live && Descends(states[j], y, x) && (x in states[i].known ==> y in states[j].known)
  {
    InvRun(states, events, i);
    InvRun(states, events, j);
    EverStays(states, events, i, j);
    KnownStays(states, events, i, j);
    var y := SomeLiveDescendant(states[j], x);
  }

  // ---- a rotated id is out for good -----------------------------------------------------------------------------

  lemma {:induction false} RevokedStaysOut(states: seq<World>, events: seq<Event>, i: nat, j: nat, x: Id)
    requires Run(states, events) && i <= j <= |events| && x in states[i].known && x !in states[i].live
    ensures x in states[j].known && x !in states[j].live
    decreases j
  {
    if i < j {
      RevokedStaysOut(states, events, i, j - 1, x);
      StepAt(states, events, j - 1);
      InvRun(states, events, j - 1);
      OnlyNewIdsComeIn(states[j - 1], events[j - 1]);
    }
  }

  /** An id a client knows never comes back to life. */
  lemma OnlyNewIdsComeIn(w: World, e: Event)
    requires Inv(w) && Enabled(w, e)
    ensures w.known <= Next(w, e).known && forall x :: x in w.known && x !in w.live ==> x !in Next(w, e).live
  {
    if e.Save? { assert Sound(w, w.phase[e.r]); }
  }

  /**
    A rotation whose revocation took effect leaves the presented id out of the store for good: any later
    request that checks it is refused.
   */
  lemma ARotatedIdIsRefused(states: seq<World>, events: seq<Event>, i: nat, j: nat)
    requires Run(states, events) && i < j < |events| && events[i].Revoke? && !events[i].call.FailsWithoutEffect?
    requires events[i].r in states[i].phase && events[j].Check? && events[j].r in states[j].phase
    requires states[i].phase[events[i].r].Saved? && states[j].phase[events[j].r].Presented?
    requires states[j].phase[events[j].r].prior == states[i].phase[events[i].r].prior
    ensures var prior := states[i].phase[events[i].r].prior;
      && (forall k :: i < k <= |events| ==> prior !in states[k].live)
      && states[j + 1].phase[events[j].r] == Answered(if events[j].call.Works? then 401 else 503, prior, None)
  {
    var prior := states[i].phase[events[i].r].prior;
    StepAt(states, events, i);
    InvRun(states, events, i);
    assert Sound(states[i], states[i].phase[events[i].r]);
    forall k | i < k <= |events| ensures prior !in states[k].live { RevokedStaysOut(states, events, i + 1, k, prior); }
    StepAt(states, events, j);
  }

  /** A login stores a new id and hands it to the client, which may present it from then on. */
  lemma LoginMeans(w: World, r: nat)
    requires Inv(w) && r !in w.phase
    ensures var v, id := Next(w, Login), w.made;
      && id !in w.ever && v.live == w.live + {id} && v.known == w.known + {id} && v.phase == w.phase
      && Enabled(v, Present(r, id)) && Next(v, Present(r, id)).phase == w.phase[r := Presented(id)]
      && Next(v, Present(r, id)).live == v.live
  {}

  /** Ids are new when they are made. */
  lemma SignatureMakesANewId(w: World, r: nat)
    requires Inv(w) && Enabled(w, Sign(r, true))
    ensures var next := Next(w, Sign(r, true)).phase[r].next; next !in w.ever && next !in w.known && next !in w.parent
  {}

  /**
    A rotation, call by call: a failing check is 503 and an unknown id 401; a failing signature is 500; a
    failing save is 503, and whether it took effect decides if the new id is stored; after a save that
    worked the answer is 200 with the new id, whether or not revoking the old one worked.
   */
  lemma RotationMeans(w: World, e: Event)
    requires Enabled(w, e) && !e.Login? && !e.Present?
    ensures e.r in w.phase && e.r in Next(w, e).phase
    ensures var v, p, q := Next(w, e), w.phase[e.r], Next(w, e).phase[e.r];
      match e
      case Check(_, call) =>
        && v.live == w.live
        && q == (if !call.Works? then Answered(503, p.prior, None)
                 else if p.prior in w.live then Checked(p.prior) else Answered(401, p.prior, None))
      case Sign(_, ok) => v.live == w.live && q == if ok then Signed(p.prior, w.made) else Answered(500, p.prior, None)
      case Save(_, call) =>
        && v.live == (if call.FailsWithoutEffect? then w.live else w.live + {p.next})
        && q == if call.Works? then Saved(p.prior, p.next) else Answered(503, p.prior, None)
      case Revoke(_, call) =>
        && v.live == (if call.FailsWithoutEffect? then w.live else w.live - {p.prior})
        && q == Answered(200, p.prior, Some(p.next)) && p.next in v.known
      case _ => true
  {}

  /** A 200 answer carries an id that is in the store when it is sent, descended from the one presented. */
  lemma SuccessMeansTheNewIdIsLive(states: seq<World>, events: seq<Event>, i: nat, r: nat)
    requires Run(states, events) && i < |events|
    requires r in states[i + 1].phase && states[i + 1].phase[r].Answered? && states[i + 1].phase[r].status == 200
    requires r in states[i].phase && !states[i].phase[r].Answered?
    ensures var answer := states[i + 1].phase[r];
      && answer.issued.Some? && answer.issued.value in states[i + 1].live
      && answer.issued.value in states[i + 1].parent && states[i + 1].parent[answer.issued.value] == answer.prior
  {
    InvRun(states, events, i);
    StepAt(states, events, i);
    assert Sound(states[i], states[i].phase[r]);
  }

  /** No other request revokes the id `prior` between two moments. */
  ghost predicate Lone(states: seq<World>, events: seq<Event>, r: nat, prior: Id, i: nat, j: nat)
    requires Run(states, events) && i <= j <= |events|
  {
    forall k :: i <= k < j && events[k].Revoke? && events[k].r != r ==>
      events[k].r in states[k].phase && states[k].phase[events[k].r].Saved? && states[k].phase[events[k].r].prior != prior
  }

  lemma {:induction false} StillLive(states: seq<World>, events: seq<Event>, r: nat, prior: Id, i: nat, j: nat)
    requires Run(states, events) && i <= j <= |events| && Lone(states, events, r, prior, i, j)
    requires OnItsWay(states[i], r, prior)
    ensures OnItsWay(states[j], r, prior)
    decreases j
  {
    if i < j {
      assert |states| == |events| + 1;
      hide *;
      LoneAt(states, events, r, prior, i, j);
      StillLive(states, events, r, prior, i, j - 1);
      StepAt(states, events, j - 1);
      StillLiveNext(states[j - 1], events[j - 1], r, prior);
    } else {
      hide Run, Lone;
    }
  }

  lemma LoneAt(states: seq<World>, events: seq<Event>, r: nat, prior: Id, i: nat, j: nat)
    requires Run(states, events) && i < j <= |events| && Lone(states, events, r, prior, i, j)
    ensures Lone(states, events, r, prior, i, j - 1)
    ensures var e, w := events[j - 1], states[j - 1];
      e.Revoke? && e.r != r ==> e.r in w.phase && w.phase[e.r].prior != prior
  {
    hide Run;
  }

  ghost predicate OnItsWay(w: World, r: nat, prior: Id) {
    && r in w.phase && w.phase[r].prior == prior && !w.phase[r].Presented?
    && (w.phase[r].Answered? ==> w.phase[r].status in {200, 500, 503})
    && (!(w.phase[r].Answered? && w.phase[r].status == 200) ==> prior in w.live)
  }

  lemma StillLiveNext(w: World, e: Event, r: nat, prior: Id)
    requires Enabled(w, e) && OnItsWay(w, r, prior)
    requires e.Revoke? && e.r != r ==> w.phase[e.r].prior != prior
    ensures OnItsWay(Next(w, e), r, prior)
  {}

  /**
    A request that passed its check, alone with its id, and then is refused because issuing or
    saving failed leaves the presented id live: the client can try again.
   */
  lemma RefusalLeavesTheOldIdLive(states: seq<World>, events: seq<Event>, r: nat, i: nat, j: nat)
    requires Run(states, events) && i < j <= |events| && events[i].Check? && events[i].r == r
    requires r in states[i + 1].phase && states[i + 1].phase[r].Checked?
    requires Lone(states, events, r, states[i + 1].phase[r].prior, i + 1, j)
    requires r in states[j].phase && states[j].phase[r].Answered? && states[j].phase[r].status != 200
    ensures states[i + 1].phase[r].prior in states[j].live
    ensures states[j].phase[r].status == 500 || states[j].phase[r].status == 503
  {
    StepAt(states, events, i);
    StillLive(states, events, r, states[i + 1].phase[r].prior, i + 1, j);
  }

  // ---- the in-memory store ------------------------------------------------------------------------------------------

  /** The ids the store answers for at a time: saved, not revoked, not expired (0 is read as absent). */
  ghost function LiveAt(tokens: map<string, int>, now: int): set<string> {
    set jti | jti in tokens && tokens[jti] != 0 && tokens[jti] > now
  }

  class MemoryTokenStore {
    var tokens: map<string, int>

    constructor ()
      ensures tokens == map[]
    {
      tokens := map[];
    }

    /** Saving adds the id for its lifetime and touches no other. */
    method Save(jti: string, ttlMs: int, now: int)
      modifies this
      ensures forall t :: LiveAt(tokens, t) - {jti} == LiveAt(old(tokens), t) - {jti}
      ensures forall t :: jti in LiveAt(tokens, t) <==> t < now + ttlMs && now + ttlMs != 0
    {
      tokens := tokens[jti := now + ttlMs];
    }

    /** The answer is membership; dropping an expired id changes no answer from now on. */
    method Exists(jti: string, now: int) returns (found: bool)
      modifies this
      ensures found <==> jti in LiveAt(old(tokens), now)
      ensures forall t :: t >= now ==> LiveAt(tokens, t) == LiveAt(old(tokens), t)
    {
      if jti !in tokens || tokens[jti] == 0 { return false; }
      if tokens[jti] <= now {
        tokens := tokens - {jti};
        return false;
      }
      return true;
    }

    method RevokeToken(jti: string)
      modifies this
      ensures forall t :: LiveAt(tokens, t) == LiveAt(old(tokens), t) - {jti}
    {
      tokens := tokens - {jti};
    }

    /** The periodic sweep changes no answer from now on, and leaves nothing expired behind. */
    method Prune(now: int)
      modifies this
      ensures forall t :: t >= now ==> LiveAt(tokens, t) == LiveAt(old(tokens), t)
      ensures forall jti :: jti in tokens ==> jti in old(tokens) && tokens[jti] > now
    {
      var left := tokens.Keys;
      ghost var before := tokens;
      while left != {}
        invariant left <= before.Keys
        invariant tokens == map k | k in before && (k in left || before[k] > now) :: before[k]
        decreases |left|
      {
        var jti :| jti in left;
        left := left - {jti};
        if tokens[jti] <= now { tokens := tokens - {jti}; }
      }
    }
  }
}
