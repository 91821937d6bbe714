/**
  The abuse-prevention rule of the GraphQL plugin: depth, field and alias counts of an operation,
  computed with a memo table over fragments, against the counts of the fully inlined operation.
 */
module GraphQLCost {
  import opened OptionType
  import opened Text

  datatype Selection =
    | Field(alias: bool, sub: seq<Selection>)
    | Spread(name: string)
    | Inline(sub: seq<Selection>)

  /** Fragment definitions by name; for a name defined twice the last definition counts. */
  type Fragments = map<string, seq<Selection>>

  datatype Metrics = Metrics(depth: nat, fields: nat, aliases: nat)

  const ZERO := Metrics(0, 0, 0)

  function Max(a: nat, b: nat): nat {
    if a < b then b else a
  }

  /** Beside each other: the deeper one, and the sums. */
  function Beside(a: Metrics, b: Metrics): Metrics {
    Metrics(Max(a.depth, b.depth), a.fields + b.fields, a.aliases + b.aliases)
  }

  /** One field around its sub-selection. */
  function Around(alias: bool, sub: Metrics): Metrics {
    Metrics(sub.depth + 1, sub.fields + 1, sub.aliases + if alias then 1 else 0)
  }

  // ---- the specification: inline everything, then count ---------------------------------------

  /** The costs of a selection set without spreads: plain structural counting. */
  function Cost(sels: seq<Selection>): Metrics {
    if sels == [] then ZERO else Beside(CostOne(sels[0]), Cost(sels[1..]))
  }

  function CostOne(s: Selection): Metrics {
    match s
    case Field(alias, sub) => Around(alias, Cost(sub))
    case Spread(_) => ZERO
    case Inline(sub) => Cost(sub)
  }

  /** Every fragment the selections spread has a rank below `bound`. */
  predicate Descends(frags: Fragments, rank: map<string, nat>, sels: seq<Selection>, bound: nat) {
    sels == [] || (DescendsOne(frags, rank, sels[0], bound) && Descends(frags, rank, sels[1..], bound))
  }

  predicate DescendsOne(frags: Fragments, rank: map<string, nat>, s: Selection, bound: nat) {
    match s
    case Field(_, sub) => Descends(frags, rank, sub, bound)
    case Spread(name) => name in frags ==> name in rank && rank[name] < bound
    case Inline(sub) => Descends(frags, rank, sub, bound)
  }

  /** No fragment reaches itself: `rank` is a topological order of the fragments. */
  ghost predicate AcyclicBy(frags: Fragments, rank: map<string, nat>) {
    forall f :: f in frags ==> f in rank && Descends(frags, rank, frags[f], rank[f])
  }

  /** The selection set with every spread replaced by the inlined body of its fragment. */
  ghost function Inlined(frags: Fragments, rank: map<string, nat>, sels: seq<Selection>, bound: nat): seq<Selection>
    requires AcyclicBy(frags, rank) && Descends(frags, rank, sels, bound)
    decreases bound, sels
  {
    if sels == [] then []
    else [InlinedOne(frags, rank, sels[0], bound)] + Inlined(frags, rank, sels[1..], bound)
  }

  ghost function InlinedOne(frags: Fragments, rank: map<string, nat>, s: Selection, bound: nat): Selection
    requires AcyclicBy(frags, rank) && DescendsOne(frags, rank, s, bound)
    decreases bound, s
  {
    match s
    case Field(alias, sub) => Field(alias, Inlined(frags, rank, sub, bound))
    case Spread(name) =>
      if name in frags then Inline(Inlined(frags, rank, frags[name], rank[name])) else Inline([])
    case Inline(sub) => Inline(Inlined(frags, rank, sub, bound))
  }

  lemma InlinedCost(frags: Fragments, rank: map<string, nat>, sels: seq<Selection>, bound: nat)
    requires AcyclicBy(frags, rank) && Descends(frags, rank, sels, bound) && sels != []
    ensures Cost(Inlined(frags, rank, sels, bound)) ==
      Beside(CostOne(InlinedOne(frags, rank, sels[0], bound)), Cost(Inlined(frags, rank, sels[1..], bound)))
  {
    var r := Inlined(frags, rank, sels, bound);
    assert r[1..] == Inlined(frags, rank, sels[1..], bound);
  }

  /** Inlining leaves no spread anywhere. */
  predicate SpreadFree(sels: seq<Selection>) {
    sels == [] ||
    ((match sels[0]
      case Field(_, sub) => SpreadFree(sub)
      case Spread(_) => false
      case Inline(sub) => SpreadFree(sub))
     && SpreadFree(sels[1..]))
  }

  lemma {:induction false} InlinedIsSpreadFree(frags: Fragments, rank: map<string, nat>, sels: seq<Selection>, bound: nat)
    requires AcyclicBy(frags, rank) && Descends(frags, rank, sels, bound)
    ensures SpreadFree(Inlined(frags, rank, sels, bound))
    decreases bound, sels
  {
    if sels != [] {
      match sels[0] {
        case Field(_, sub) => InlinedIsSpreadFree(frags, rank, sub, bound);
        case Spread(name) => if name in frags { InlinedIsSpreadFree(frags, rank, frags[name], rank[name]); }
        case Inline(sub) => InlinedIsSpreadFree(frags, rank, sub, bound);
      }
      InlinedIsSpreadFree(frags, rank, sels[1..], bound);
      var r := Inlined(frags, rank, sels, bound);
      assert r[1..] == Inlined(frags, rank, sels[1..], bound);
    }
  }

  /** The inlined operation does not depend on which topological order one picks. */
  lemma {:induction false} InlinedIsUnique(frags: Fragments, rank: map<string, nat>, rank': map<string, nat>,
                                           sels: seq<Selection>, bound: nat, bound': nat)
    requires AcyclicBy(frags, rank) && Descends(frags, rank, sels, bound)
    requires AcyclicBy(frags, rank') && Descends(frags, rank', sels, bound')
    ensures Inlined(frags, rank, sels, bound) == Inlined(frags, rank', sels, bound')
    decreases bound, sels
  {
    if sels != [] {
      match sels[0] {
        case Field(_, sub) => InlinedIsUnique(frags, rank, rank', sub, bound, bound');
        case Spread(name) => if name in frags { InlinedIsUnique(frags, rank, rank', frags[name], rank[name], rank'[name]); }
        case Inline(sub) => InlinedIsUnique(frags, rank, rank', sub, bound, bound');
      }
      InlinedIsUnique(frags, rank, rank', sels[1..], bound, bound');
    }
  }

  // ---- the memoised analysis -------------------------------------------------------------------

  /** Number of selections, nested ones included. */
  function Size(sels: seq<Selection>): nat {
    if sels == [] then 0 else SizeOne(sels[0]) + Size(sels[1..])
  }

  function SizeOne(s: Selection): nat {
    match s
    case Field(_, sub) => 1 + Size(sub)
    case Spread(_) => 1
    case Inline(sub) => 1 + Size(sub)
  }

  /**
    What one run of the rule carries along: the memo, the fragments in progress, and, for the
    record, which fragment bodies were entered and how many selections were looked at.
   */
  datatype Run = Run(cache: map<string, Metrics>, visited: set<string>, entered: seq<string>, looks: nat)

  const START := Run(map[], {}, [], 0)

  function Enter(run: Run, name: string): Run {
    run.(visited := run.visited + {name}, entered := run.entered + [name])
  }

  function Leave(run: Run, name: string, m: Metrics): Run {
    run.(visited := run.visited - {name}, cache := run.cache[name := m])
  }

  function FragmentMetrics(frags: Fragments, run: Run, name: string): (r: (Metrics, Run))
    ensures r.1.visited == run.visited
    decreases frags.Keys - run.visited, 0, 0
  {
    if name in run.cache then (run.cache[name], run)
    else if name !in frags || name in run.visited then (ZERO, run)
    else
      assert name in frags.Keys - run.visited;
      var (m, run1) := Analyze(frags, Enter(run, name), frags[name], ZERO);
      (m, Leave(run1, name, m))
  }

  function AnalyzeOne(frags: Fragments, run: Run, s: Selection): (r: (Metrics, Run))
    ensures r.1.visited == run.visited
    decreases frags.Keys - run.visited, SizeOne(s), 0
  {
    var run0 := run.(looks := run.looks + 1);
    match s
    case Field(alias, sub) =>
      var (m, run1) := Analyze(frags, run0, sub, ZERO);
      (Around(alias, m), run1)
    case Spread(name) => FragmentMetrics(frags, run0, name)
    case Inline(sub) => Analyze(frags, run0, sub, ZERO)
  }

  /** The selections still to come, on top of the totals so far. */
  function Analyze(frags: Fragments, run: Run, sels: seq<Selection>, sofar: Metrics): (r: (Metrics, Run))
    ensures r.1.visited == run.visited
    decreases frags.Keys - run.visited, Size(sels), 1
  {
    if sels == [] then (sofar, run)
    else
      var (m, run1) := AnalyzeOne(frags, run, sels[0]);
      Analyze(frags, run1, sels[1..], Beside(sofar, m))
  }

  // ---- every document: one entry per fragment, one look per selection --------------------------

  /** Entered fragments are exactly those memoised or in progress, each entered once. */
  ghost predicate Tidy(frags: Fragments, run: Run) {
    && Distinct(run.entered)
    && (forall f :: f in run.entered <==> f in run.cache || f in run.visited)
    && run.visited !! run.cache.Keys
    && (forall f :: f in run.entered ==> f in frags)
  }

  /** The total size of the bodies entered. */
  function Entered(frags: Fragments, names: seq<string>): nat {
    if names == [] then 0
    else Entered(frags, names[..|names| - 1]) + if names[|names| - 1] in frags then Size(frags[names[|names| - 1]]) else 0
  }

  lemma EnteredAppend(frags: Fragments, names: seq<string>, name: string)
    ensures Entered(frags, names + [name]) == Entered(frags, names) + if name in frags then Size(frags[name]) else 0
  {
    assert (names + [name])[..|names|] == names;
  }

  /** `looks` selections were looked at beyond one for each selection of the bodies entered. */
  ghost predicate Accounted(frags: Fragments, run: Run, run': Run, looks: nat) {
    && Tidy(frags, run')
    && run'.looks - Entered(frags, run'.entered) == run.looks - Entered(frags, run.entered) + looks
  }

  lemma {:induction false} FragmentOnce(frags: Fragments, run: Run, name: string)
    requires Tidy(frags, run)
    ensures Accounted(frags, run, FragmentMetrics(frags, run, name).1, 0)
    decreases frags.Keys - run.visited, 0, 0
  {
    if name !in run.cache && name in frags && name !in run.visited {
      assert name in frags.Keys - run.visited;
      EnteredAppend(frags, run.entered, name);
      AnalyzeOnce(frags, Enter(run, name), frags[name], ZERO);
    }
  }

  lemma {:induction false} AnalyzeOneOnce(frags: Fragments, run: Run, s: Selection)
    requires Tidy(frags, run)
    ensures Accounted(frags, run, AnalyzeOne(frags, run, s).1, SizeOne(s))
    decreases frags.Keys - run.visited, SizeOne(s), 0
  {
    var run0 := run.(looks := run.looks + 1);
    match s
    case Field(_, sub) => AnalyzeOnce(frags, run0, sub, ZERO);
    case Spread(name) => FragmentOnce(frags, run0, name);
    case Inline(sub) => AnalyzeOnce(frags, run0, sub, ZERO);
  }

  /** The analysis of any document, cyclic or not, enters no fragment twice and looks once at each selection. */
  lemma {:induction false} AnalyzeOnce(frags: Fragments, run: Run, sels: seq<Selection>, sofar: Metrics)
    requires Tidy(frags, run)
    ensures Accounted(frags, run, Analyze(frags, run, sels, sofar).1, Size(sels))
    decreases frags.Keys - run.visited, Size(sels), 1
  {
    if sels != [] {
      var (m, run1) := AnalyzeOne(frags, run, sels[0]);
      AnalyzeOneOnce(frags, run, sels[0]);
      AnalyzeOnce(frags, run1, sels[1..], Beside(sofar, m));
    }
  }

  // ---- acyclic documents: the counts of the inlined operation -----------------------------------

  ghost predicate MemoRight(frags: Fragments, rank: map<string, nat>, run: Run)
    requires AcyclicBy(frags, rank)
  {
    forall f :: f in run.cache ==> f in frags && run.cache[f] == Cost(Inlined(frags, rank, frags[f], rank[f]))
  }

  /** Nothing in progress could be spread from here. */
  ghost predicate Clear(frags: Fragments, rank: map<string, nat>, run: Run, bound: nat)
    requires AcyclicBy(frags, rank)
  {
    forall f :: f in run.visited ==> f in frags && rank[f] >= bound
  }

  lemma BesideLaws(a: Metrics, b: Metrics, c: Metrics)
    ensures Beside(ZERO, a) == a && Beside(a, ZERO) == a
    ensures Beside(Beside(a, b), c) == Beside(a, Beside(b, c))
  {}

  lemma {:induction false} FragmentRight(frags: Fragments, rank: map<string, nat>, run: Run, name: string, bound: nat)
    requires AcyclicBy(frags, rank) && MemoRight(frags, rank, run) && Clear(frags, rank, run, bound)
    requires name in frags ==> rank[name] < bound
    ensures var (m, r) := FragmentMetrics(frags, run, name);
      MemoRight(frags, rank, r) && m == if name in frags then Cost(Inlined(frags, rank, frags[name], rank[name])) else ZERO
    decreases frags.Keys - run.visited, 0, 0
  {
    if name !in run.cache && name in frags {
      assert name !in run.visited && name in frags.Keys - run.visited;
      hide Inlined, Cost, Descends, Analyze;
      assert rank[name] >= 0 && Descends(frags, rank, frags[name], rank[name]);
      assert Clear(frags, rank, Enter(run, name), rank[name]);
      AnalyzeRight(frags, rank, Enter(run, name), frags[name], ZERO, rank[name]);
      var (m, run1) := Analyze(frags, Enter(run, name), frags[name], ZERO);
      BesideLaws(Cost(Inlined(frags, rank, frags[name], rank[name])), ZERO, ZERO);
      MemoAdd(frags, rank, run1, name, m);
    }
  }

  lemma MemoAdd(frags: Fragments, rank: map<string, nat>, run: Run, name: string, m: Metrics)
    requires AcyclicBy(frags, rank) && MemoRight(frags, rank, run)
    requires name in frags && m == Cost(Inlined(frags, rank, frags[name], rank[name]))
    ensures MemoRight(frags, rank, Leave(run, name, m))
  {
    hide Cost, Inlined, Descends;
  }

  lemma {:induction false} AnalyzeOneRight(frags: Fragments, rank: map<string, nat>, run: Run, s: Selection, bound: nat)
    requires AcyclicBy(frags, rank) && MemoRight(frags, rank, run) && Clear(frags, rank, run, bound)
    requires DescendsOne(frags, rank, s, bound)
    ensures var (m, r) := AnalyzeOne(frags, run, s);
      MemoRight(frags, rank, r) && m == CostOne(InlinedOne(frags, rank, s, bound))
    decreases frags.Keys - run.visited, SizeOne(s), 1
  {
    if s.Spread? { SpreadRight(frags, rank, run, s.name, bound); } else { NestedRight(frags, rank, run, s, bound); }
  }

  lemma {:induction false} SpreadRight(frags: Fragments, rank: map<string, nat>, run: Run, name: string, bound: nat)
    requires AcyclicBy(frags, rank) && MemoRight(frags, rank, run) && Clear(frags, rank, run, bound)
    requires DescendsOne(frags, rank, Spread(name), bound)
    ensures var (m, r) := AnalyzeOne(frags, run, Spread(name));
      MemoRight(frags, rank, r) && m == CostOne(InlinedOne(frags, rank, Spread(name), bound))
    decreases frags.Keys - run.visited, 1, 0
  {
    var run0 := run.(looks := run.looks + 1);
    MemoLooks(frags, rank, run, run0);
    RankOf(frags, rank, name);
    SpreadCost(frags, rank, name, bound);
    hide MemoRight, AcyclicBy, FragmentMetrics, Descends, Cost, CostOne, Inlined, InlinedOne;
    FragmentRight(frags, rank, run0, name, bound);
  }

  lemma {:induction false} NestedRight(frags: Fragments, rank: map<string, nat>, run: Run, s: Selection, bound: nat)
    requires AcyclicBy(frags, rank) && MemoRight(frags, rank, run) && Clear(frags, rank, run, bound)
    requires !s.Spread? && DescendsOne(frags, rank, s, bound)
    ensures var (m, r) := AnalyzeOne(frags, run, s);
      MemoRight(frags, rank, r) && m == CostOne(InlinedOne(frags, rank, s, bound))
    decreases frags.Keys - run.visited, SizeOne(s), 0
  {
    var run0 := run.(looks := run.looks + 1);
    MemoLooks(frags, rank, run, run0);
    NestedCost(frags, rank, s, bound);
    AnalyzeNested(frags, run, s);
    hide AcyclicBy, MemoRight, Inlined, Analyze, Cost, CostOne, InlinedOne, AnalyzeOne;
    var inner := Cost(Inlined(frags, rank, s.sub, bound));
    AnalyzeRight(frags, rank, run0, s.sub, ZERO, bound);
    BesideLaws(inner, ZERO, ZERO);
  }

  lemma NestedCost(frags: Fragments, rank: map<string, nat>, s: Selection, bound: nat)
    requires AcyclicBy(frags, rank) && !s.Spread? && DescendsOne(frags, rank, s, bound)
    ensures CostOne(InlinedOne(frags, rank, s, bound)) ==
      var m := Cost(Inlined(frags, rank, s.sub, bound)); if s.Field? then Around(s.alias, m) else m
  {
    hide Inlined, Cost;
  }

  lemma AnalyzeNested(frags: Fragments, run: Run, s: Selection)
    requires !s.Spread?
    ensures var (m, run1) := Analyze(frags, run.(looks := run.looks + 1), s.sub, ZERO);
      AnalyzeOne(frags, run, s) == (if s.Field? then Around(s.alias, m) else m, run1)
  {
    hide Analyze;
  }

  lemma SpreadCost(frags: Fragments, rank: map<string, nat>, name: string, bound: nat)
    requires AcyclicBy(frags, rank) && DescendsOne(frags, rank, Spread(name), bound)
    ensures CostOne(InlinedOne(frags, rank, Spread(name), bound)) ==
      if name in frags then Cost(Inlined(frags, rank, frags[name], rank[name])) else ZERO
  {
    hide Inlined;
  }

  lemma MemoLooks(frags: Fragments, rank: map<string, nat>, run: Run, run0: Run)
    requires AcyclicBy(frags, rank) && MemoRight(frags, rank, run) && run0.cache == run.cache
    ensures MemoRight(frags, rank, run0)
  {}

  lemma RankOf(frags: Fragments, rank: map<string, nat>, name: string)
    requires AcyclicBy(frags, rank)
    ensures name in frags ==> name in rank && Descends(frags, rank, frags[name], rank[name])
  {}

  lemma {:induction false} AnalyzeRight(frags: Fragments, rank: map<string, nat>, run: Run, sels: seq<Selection>, sofar: Metrics, bound: nat)
    requires AcyclicBy(frags, rank) && MemoRight(frags, rank, run) && Clear(frags, rank, run, bound)
    requires Descends(frags, rank, sels, bound)
    ensures var (m, r) := Analyze(frags, run, sels, sofar);
      MemoRight(frags, rank, r) && m == Beside(sofar, Cost(Inlined(frags, rank, sels, bound)))
    decreases frags.Keys - run.visited, Size(sels), 2
  {
    if sels == [] {
      BesideLaws(sofar, ZERO, ZERO);
    } else {
      InlinedCost(frags, rank, sels, bound);
      hide AcyclicBy, MemoRight, AnalyzeOne, DescendsOne, Cost, CostOne, Inlined, InlinedOne, Beside;
      var (m, run1) := AnalyzeOne(frags, run, sels[0]);
      var rest := Cost(Inlined(frags, rank, sels[1..], bound));
      AnalyzeOneRight(frags, rank, run, sels[0], bound);
      AnalyzeRight(frags, rank, run1, sels[1..], Beside(sofar, m), bound);
      BesideLaws(sofar, m, rest);
    }
  }

  // ---- the rule --------------------------------------------------------------------------------

  datatype Limits = Limits(maxDepth: Option<nat>, maxAliases: Option<nat>, maxFields: Option<nat>)
  datatype Complaint = TooDeep | TooManyAliases | TooManyFields

  predicate Exceeds(n: nat, max: Option<nat>) {
    max.Some? && n > max.value
  }

  /** The complaints a selection set of these counts deserves. */
  function Complaints(limits: Limits, m: Metrics): set<Complaint> {
    (if Exceeds(m.depth, limits.maxDepth) then {TooDeep} else {}) +
    (if Exceeds(m.aliases, limits.maxAliases) then {TooManyAliases} else {}) +
    (if Exceeds(m.fields, limits.maxFields) then {TooManyFields} else {})
  }

  /** The memo between two operations of one document. */
  function AfterOperations(frags: Fragments, ops: seq<seq<Selection>>): Run {
    if ops == [] then START
    else Analyze(frags, AfterOperations(frags, ops[..|ops| - 1]), ops[|ops| - 1], ZERO).1
  }

  function TotalSize(ops: seq<seq<Selection>>): nat {
    if ops == [] then 0 else TotalSize(ops[..|ops| - 1]) + Size(ops[|ops| - 1])
  }

  lemma {:induction false} OperationsRight(frags: Fragments, rank: map<string, nat>, ops: seq<seq<Selection>>, bound: nat)
    requires AcyclicBy(frags, rank) && forall i :: 0 <= i < |ops| ==> Descends(frags, rank, ops[i], bound)
    ensures var run := AfterOperations(frags, ops); MemoRight(frags, rank, run) && run.visited == {}
  {
    if ops != [] {
      OperationsRight(frags, rank, ops[..|ops| - 1], bound);
      AnalyzeRight(frags, rank, AfterOperations(frags, ops[..|ops| - 1]), ops[|ops| - 1], ZERO, bound);
    }
  }

  /**
    Whatever operations were analysed before, the metrics of an operation in an acyclic document
    are those of the operation with every fragment spread inlined.
   */
  lemma MemoAgreesWithInlining(frags: Fragments, rank: map<string, nat>, before: seq<seq<Selection>>, op: seq<Selection>, bound: nat)
    requires AcyclicBy(frags, rank) && Descends(frags, rank, op, bound)
    requires forall i :: 0 <= i < |before| ==> Descends(frags, rank, before[i], bound)
    ensures Analyze(frags, AfterOperations(frags, before), op, ZERO).0 == Cost(Inlined(frags, rank, op, bound))
  {
    OperationsRight(frags, rank, before, bound);
    AnalyzeRight(frags, rank, AfterOperations(frags, before), op, ZERO, bound);
    BesideLaws(Cost(Inlined(frags, rank, op, bound)), ZERO, ZERO);
  }

  /** Every document, cyclic ones included: each fragment body is entered at most once per run. */
  lemma {:induction false} EachFragmentEnteredOnce(frags: Fragments, ops: seq<seq<Selection>>)
    ensures var run := AfterOperations(frags, ops);
      && Distinct(run.entered) && run.visited == {}
      && (forall f :: f in run.entered <==> f in run.cache)
      && (forall f :: f in run.entered ==> f in frags)
      && run.looks == TotalSize(ops) + Entered(frags, run.entered)
  {
    OperationsOnce(frags, ops);
  }

  lemma {:induction false} OperationsOnce(frags: Fragments, ops: seq<seq<Selection>>)
    ensures var run := AfterOperations(frags, ops);
      Tidy(frags, run) && run.visited == {} && run.looks == TotalSize(ops) + Entered(frags, run.entered)
  {
    if ops != [] {
      OperationsOnce(frags, ops[..|ops| - 1]);
      AnalyzeOnce(frags, AfterOperations(frags, ops[..|ops| - 1]), ops[|ops| - 1], ZERO);
    }
  }

  // ---- cyclic documents --------------------------------------------------------------------------

  /** Two fragments in a cycle: `a` spreads `b`; `b` spreads `a` and has one field. */
  ghost predicate TwoCycle(frags: Fragments, a: string, b: string) {
    && a != b && a in frags && b in frags
    && frags[a] == [Spread(b)] && frags[b] == [Spread(a), Field(false, [])]
  }

  predicate Untouched(run: Run) {
    run.cache == map[] && run.visited == {}
  }

  lemma CutOff(frags: Fragments, run: Run, name: string)
    requires name in run.visited && name !in run.cache
    ensures AnalyzeOne(frags, run, Spread(name)) == (ZERO, run.(looks := run.looks + 1))
  {}

  lemma Entering(frags: Fragments, run: Run, name: string)
    requires name in frags && name !in run.visited && name !in run.cache
    ensures var (m, run1) := Analyze(frags, Enter(run.(looks := run.looks + 1), name), frags[name], ZERO);
      AnalyzeOne(frags, run, Spread(name)) == (m, Leave(run1, name, m))
      && AnalyzeOne(frags, run, Spread(name)).1.cache == run1.cache[name := m]
  {
    hide Analyze;
  }

  lemma OneField(frags: Fragments, run: Run)
    ensures AnalyzeOne(frags, run, Field(false, [])) == (Metrics(1, 1, 0), run.(looks := run.looks + 1))
  {}

  lemma Pair(frags: Fragments, run: Run, s: Selection, t: Selection)
    ensures var (m, run1) := AnalyzeOne(frags, run, s); var (n, run2) := AnalyzeOne(frags, run1, t);
      Analyze(frags, run, [s, t], ZERO) == (Beside(Beside(ZERO, m), n), run2)
  {
    hide AnalyzeOne;
    var (m, run1) := AnalyzeOne(frags, run, s);
    assert [s, t][1..] == [t];
    Single(frags, run1, t, Beside(ZERO, m));
  }

  lemma BodyOfB(frags: Fragments, run: Run, a: string)
    requires a in run.visited && a !in run.cache
    ensures Analyze(frags, run, [Spread(a), Field(false, [])], ZERO).0 == Metrics(1, 1, 0)
  {
    hide *;
    var one := Metrics(1, 1, 0);
    CutOff(frags, run, a);
    OneField(frags, run.(looks := run.looks + 1));
    Pair(frags, run, Spread(a), Field(false, []));
    BesideLaws(ZERO, ZERO, ZERO);
    BesideLaws(one, ZERO, ZERO);
  }

  /** `a` enters `b`, where the spread of `a` is cut off. */
  lemma FromA(frags: Fragments, run: Run, a: string, b: string)
    requires TwoCycle(frags, a, b) && Untouched(run)
    ensures Analyze(frags, run, [Spread(a)], ZERO).0 == Metrics(1, 1, 0)
  {
    hide AnalyzeOne, Analyze;
    var r1 := Enter(run.(looks := run.looks + 1), a);
    assert AnalyzeOne(frags, r1, Spread(b)).0 == Metrics(1, 1, 0) by {
      BodyOfB(frags, Enter(r1.(looks := r1.looks + 1), b), a);
      Entering(frags, r1, b);
    }
    assert Analyze(frags, r1, frags[a], ZERO).0 == Metrics(1, 1, 0) by { Single(frags, r1, Spread(b), ZERO); }
    Entering(frags, run, a);
    Single(frags, run, Spread(a), ZERO);
  }

  lemma StillInProgress(run: Run, name: string, other: string)
    requires other in run.visited && other !in run.cache
    ensures other in Enter(run.(looks := run.looks + 1), name).visited
    ensures other !in Enter(run.(looks := run.looks + 1), name).cache
  {}

  /** Seen from inside `b`, `a` comes out empty and is memoised as such. */
  lemma EmptyA(frags: Fragments, run: Run, a: string, b: string)
    requires a in frags && frags[a] == [Spread(b)]
    requires a !in run.cache && b !in run.cache && a !in run.visited && b in run.visited
    ensures a in AnalyzeOne(frags, run, Spread(a)).1.cache
    ensures AnalyzeOne(frags, run, Spread(a)).1.cache[a] == ZERO
  {
    hide *;
    StillInProgress(run, a, b);
    var r := Enter(run.(looks := run.looks + 1), a);
    CutOff(frags, r, b);
    Single(frags, r, Spread(b), ZERO);
    BesideLaws(ZERO, ZERO, ZERO);
    assert Analyze(frags, r, frags[a], ZERO).0 == ZERO;
    Entering(frags, run, a);
  }

  /** `b` enters `a`, where the spread of `b` is cut off; then `b` looks at its field. */
  lemma FromB(frags: Fragments, run: Run, a: string, b: string)
    requires TwoCycle(frags, a, b) && Untouched(run)
    ensures var after := Analyze(frags, run, [Spread(b)], ZERO).1; a in after.cache && after.cache[a] == ZERO
  {
    hide AnalyzeOne, Analyze;
    var q1 := Enter(run.(looks := run.looks + 1), b);
    var (m4, q4) := Analyze(frags, q1, frags[b], ZERO);
    assert a in q4.cache && q4.cache[a] == ZERO by {
      EmptyA(frags, q1, a, b);
      OneField(frags, AnalyzeOne(frags, q1, Spread(a)).1);
      Pair(frags, q1, Spread(a), Field(false, []));
    }
    Entering(frags, run, b);
    Single(frags, run, Spread(b), ZERO);
  }

  /**
    In a cyclic document the memo holds whatever the first traversal saw, so the metrics of an
    operation can depend on the operations analysed before it.
   */
  lemma CyclicAnswerDependsOnOrder(frags: Fragments, a: string, b: string)
    requires TwoCycle(frags, a, b)
    ensures Analyze(frags, AfterOperations(frags, []), [Spread(a)], ZERO).0 == Metrics(1, 1, 0)
    ensures Analyze(frags, AfterOperations(frags, [[Spread(b)]]), [Spread(a)], ZERO).0 == ZERO
  {
    hide Analyze, AnalyzeOne;
    FromA(frags, START, a, b);
    FromB(frags, START, a, b);
    FirstOperation(frags, [Spread(b)]);
    var run := AfterOperations(frags, [[Spread(b)]]);
    Memoised(frags, run, a);
    Single(frags, run, Spread(a), ZERO);
  }

  lemma FirstOperation(frags: Fragments, op: seq<Selection>)
    ensures AfterOperations(frags, []) == START
    ensures AfterOperations(frags, [op]) == Analyze(frags, START, op, ZERO).1
  {
    hide Analyze;
    assert [op][..0] == [];
  }

  lemma Memoised(frags: Fragments, run: Run, name: string)
    requires name in run.cache
    ensures AnalyzeOne(frags, run, Spread(name)) == (run.cache[name], run.(looks := run.looks + 1))
  {}

  lemma Single(frags: Fragments, run: Run, s: Selection, sofar: Metrics)
    ensures Analyze(frags, run, [s], sofar) ==
      (Beside(sofar, AnalyzeOne(frags, run, s).0), AnalyzeOne(frags, run, s).1)
  {
    hide AnalyzeOne;
    assert [s][1..] == [];
  }
}
