/**
  Cyclic documents: for exactly which of them the counts of an operation do not depend on the
  operations analysed before it, and what the counts then are.
 */
module GraphQLCycles {
  import opened OptionType
  import opened Text
  import opened GraphQLCost

  // ---- which fragments a document leads to ---------------------------------------------------------------

  /** The selections spread this fragment, at any depth. */
  predicate Spreads(sels: seq<Selection>, name: string) {
    sels != [] && (SpreadsOne(sels[0], name) || Spreads(sels[1..], name))
  }

  predicate SpreadsOne(s: Selection, name: string) {
    match s
    case Field(_, sub) => Spreads(sub, name)
    case Spread(other) => other == name
    case Inline(sub) => Spreads(sub, name)
  }

  /** The selections themselves contain a field, at any depth. */
  predicate HasField(sels: seq<Selection>) {
    sels != [] && ((sels[0].Field? || (sels[0].Inline? && HasField(sels[0].sub))) || HasField(sels[1..]))
  }

  /** Fragments each of which spreads the next. */
  ghost predicate Chain(frags: Fragments, path: seq<string>) {
    && path != []
    && (forall i :: 0 <= i < |path| ==> path[i] in frags)
    && forall i :: 0 <= i < |path| - 1 ==> Spreads(frags[path[i]], path[i + 1])
  }

  ghost predicate ChainFromTo(frags: Fragments, path: seq<string>, f: string, g: string) {
    Chain(frags, path) && path[0] == f && path[|path| - 1] == g
  }

  /** `f` is `g` or leads to it. */
  ghost predicate Reaches(frags: Fragments, f: string, g: string) {
    exists path :: ChainFromTo(frags, path, f, g)
  }

  /** No field is reached from this fragment. */
  ghost predicate Fieldless(frags: Fragments, f: string) {
    forall g :: g in frags && Reaches(frags, f, g) ==> !HasField(frags[g])
  }

  /** Two different fragments that lead to each other lead to no field. */
  ghost predicate MutualCyclesAreFieldless(frags: Fragments) {
    forall f, g :: f != g && Reaches(frags, f, g) && Reaches(frags, g, f) ==> Fieldless(frags, f)
  }

  /** The counts of an operation are the same whatever was analysed before it. */
  ghost predicate OrderFree(frags: Fragments) {
    forall before, op :: Analyze(frags, AfterOperations(frags, before), op, ZERO).0 == Analyze(frags, START, op, ZERO).0
  }

  lemma Stays(frags: Fragments, f: string)
    requires f in frags
    ensures Reaches(frags, f, f)
  {
    assert ChainFromTo(frags, [f], f, f);
  }

  lemma StepThen(frags: Fragments, f: string, g: string, h: string)
    requires f in frags && Spreads(frags[f], g) && Reaches(frags, g, h)
    ensures Reaches(frags, f, h)
  {
    var path :| ChainFromTo(frags, path, g, h);
    hide Spreads;
    var longer := [f] + path;
    assert forall i :: 0 < i < |longer| ==> longer[i] == path[i - 1];
    assert ChainFromTo(frags, longer, f, h);
  }

  lemma {:induction false} ReachesThrough(frags: Fragments, path: seq<string>, f: string, g: string, h: string)
    requires ChainFromTo(frags, path, f, g) && Reaches(frags, g, h)
    ensures Reaches(frags, f, h)
    decreases |path|
  {
    hide Spreads, Reaches;
    if |path| > 1 {
      var rest := path[1..];
      assert ChainFromTo(frags, rest, path[1], g);
      ReachesThrough(frags, rest, path[1], g, h);
      assert Spreads(frags[f], path[0 + 1]);
      StepThen(frags, f, path[1], h);
    }
  }

  lemma Transitive(frags: Fragments, f: string, g: string, h: string)
    requires Reaches(frags, f, g) && Reaches(frags, g, h)
    ensures Reaches(frags, f, h) && f in frags && h in frags
  {
    var path :| ChainFromTo(frags, path, f, g);
    ReachesThrough(frags, path, f, g, h);
    var path' :| ChainFromTo(frags, path', g, h);
  }

  // ---- the memo only grows ---------------------------------------------------------------------------------

  predicate Extends(c: map<string, Metrics>, c': map<string, Metrics>) {
    forall f :: f in c ==> f in c' && c'[f] == c[f]
  }

  /** Every fragment the selections spread is memoised or in progress. */
  ghost predicate Covered(frags: Fragments, run: Run, sels: seq<Selection>) {
    forall x :: Spreads(sels, x) && x in frags ==> x in run.cache || x in run.visited
  }

  ghost predicate Closed(frags: Fragments, run: Run) {
    Tidy(frags, run) && forall f :: f in run.cache ==> f in frags && Covered(frags, run, frags[f])
  }

  /** What an analysis does to the memo: it keeps what was there, and what it memoises is closed. */
  ghost predicate Grown(frags: Fragments, run: Run, run': Run) {
    Closed(frags, run') && Extends(run.cache, run'.cache) && run'.visited == run.visited
  }

  lemma CoveredLater(frags: Fragments, run: Run, run': Run, sels: seq<Selection>)
    requires Covered(frags, run, sels) && Extends(run.cache, run'.cache) && run'.visited == run.visited
    ensures Covered(frags, run', sels)
  {}

  lemma Looked(frags: Fragments, run: Run)
    requires Closed(frags, run)
    ensures Closed(frags, run.(looks := run.looks + 1))
  {
    hide Spreads;
  }

  lemma EnterKeeps(frags: Fragments, run: Run, name: string)
    requires Closed(frags, run) && name in frags && name !in run.cache && name !in run.visited
    ensures Closed(frags, Enter(run, name))
  {
    hide Spreads;
  }

  lemma LeaveKeeps(frags: Fragments, run: Run, run1: Run, name: string, m: Metrics)
    requires Grown(frags, Enter(run, name), run1) && Covered(frags, run1, frags[name])
    requires name in frags && name !in run.cache && name !in run.visited
    ensures Grown(frags, run, Leave(run1, name, m)) && name in Leave(run1, name, m).cache
    ensures Extends(run1.cache, Leave(run1, name, m).cache)
  {
    hide Spreads;
  }

  lemma FragmentIs(frags: Fragments, run: Run, name: string)
    ensures FragmentMetrics(frags, run, name) ==
      if name in run.cache then (run.cache[name], run)
      else if name !in frags || name in run.visited then (ZERO, run)
      else var (m, run1) := Analyze(frags, Enter(run, name), frags[name], ZERO); (m, Leave(run1, name, m))
  {
    hide Analyze;
  }

  lemma {:induction false} FragmentGrows(frags: Fragments, run: Run, name: string)
    requires Closed(frags, run)
    ensures var run' := FragmentMetrics(frags, run, name).1;
      Grown(frags, run, run') && (name in frags ==> name in run'.cache || name in run'.visited)
    decreases frags.Keys - run.visited, 0, 0
  {
    hide Closed, Spreads, Covered, Analyze, FragmentMetrics;
    FragmentIs(frags, run, name);
    if name !in run.cache && name in frags && name !in run.visited {
      assert name in frags.Keys - run.visited;
      EnterKeeps(frags, run, name);
      AnalyzeGrows(frags, Enter(run, name), frags[name], ZERO);
      var (m, run1) := Analyze(frags, Enter(run, name), frags[name], ZERO);
      LeaveKeeps(frags, run, run1, name, m);
    }
  }

  lemma {:induction false} AnalyzeOneGrows(frags: Fragments, run: Run, s: Selection)
    requires Closed(frags, run)
    ensures Grown(frags, run, AnalyzeOne(frags, run, s).1) && Covered(frags, AnalyzeOne(frags, run, s).1, [s])
    decreases frags.Keys - run.visited, SizeOne(s), 0
  {
    var run0 := run.(looks := run.looks + 1);
    Looked(frags, run);
    OneSpreads(s);
    hide Closed, Analyze, Spreads;
    match s {
      case Field(_, sub) => AnalyzeGrows(frags, run0, sub, ZERO);
      case Spread(name) => FragmentGrows(frags, run0, name);
      case Inline(sub) => AnalyzeGrows(frags, run0, sub, ZERO);
    }
  }

  lemma OneSpreads(s: Selection)
    ensures forall x :: Spreads([s], x) <==> if s.Spread? then s.name == x else Spreads(s.sub, x)
  {
    assert [s][1..] == [];
  }

  lemma MoreSpreads(sels: seq<Selection>)
    requires sels != []
    ensures forall x :: Spreads(sels, x) <==> Spreads([sels[0]], x) || Spreads(sels[1..], x)
  {
    assert [sels[0]][1..] == [];
  }

  lemma GrownTwice(frags: Fragments, run: Run, run1: Run, run2: Run, sels: seq<Selection>)
    requires sels != [] && Grown(frags, run, run1) && Grown(frags, run1, run2)
    requires Covered(frags, run1, [sels[0]]) && Covered(frags, run2, sels[1..])
    ensures Grown(frags, run, run2) && Covered(frags, run2, sels)
  {
    MoreSpreads(sels);
    hide Closed, Spreads;
    CoveredLater(frags, run1, run2, [sels[0]]);
  }

  lemma {:induction false} AnalyzeGrows(frags: Fragments, run: Run, sels: seq<Selection>, sofar: Metrics)
    requires Closed(frags, run)
    ensures Grown(frags, run, Analyze(frags, run, sels, sofar).1) && Covered(frags, Analyze(frags, run, sels, sofar).1, sels)
    decreases frags.Keys - run.visited, Size(sels), 1
  {
    if sels != [] {
      var (m, run1) := AnalyzeOne(frags, run, sels[0]);
      hide Closed, Covered, AnalyzeOne, Spreads;
      AnalyzeOneGrows(frags, run, sels[0]);
      AnalyzeGrows(frags, run1, sels[1..], Beside(sofar, m));
      GrownTwice(frags, run, run1, Analyze(frags, run1, sels[1..], Beside(sofar, m)).1, sels);
    }
  }

  lemma {:induction false} OperationsGrow(frags: Fragments, ops: seq<seq<Selection>>)
    ensures Closed(frags, AfterOperations(frags, ops)) && AfterOperations(frags, ops).visited == {}
  {
    if ops != [] {
      OperationsGrow(frags, ops[..|ops| - 1]);
      hide Closed, Analyze;
      AnalyzeGrows(frags, AfterOperations(frags, ops[..|ops| - 1]), ops[|ops| - 1], ZERO);
    }
  }

  /** A closed memo with nothing in progress holds all that its fragments lead to. */
  lemma {:induction false} HoldsAll(frags: Fragments, run: Run, path: seq<string>, f: string, g: string)
    requires Closed(frags, run) && run.visited == {} && ChainFromTo(frags, path, f, g) && f in run.cache
    ensures g in run.cache
    decreases |path|
  {
    if |path| > 1 {
      assert Spreads(frags[f], path[0 + 1]);
      assert ChainFromTo(frags, path[1..], path[1], g);
      HoldsAll(frags, run, path[1..], path[1], g);
    }
  }

  // ---- if order does not matter, the memo is the same in every run -----------------------------------------

  /** The counts of a fragment on its own, analysed first. */
  function Alone(frags: Fragments, name: string): Metrics {
    Analyze(frags, START, [Spread(name)], ZERO).0
  }

  ghost predicate Agreed(frags: Fragments, cache: map<string, Metrics>) {
    forall f :: f in cache ==> cache[f] == Alone(frags, f)
  }

  lemma OrderFreeAgrees(frags: Fragments, ops: seq<seq<Selection>>)
    requires OrderFree(frags)
    ensures Agreed(frags, AfterOperations(frags, ops).cache)
  {
    var run := AfterOperations(frags, ops);
    hide Analyze, AnalyzeOne, AfterOperations;
    forall f | f in run.cache ensures run.cache[f] == Alone(frags, f) {
      Memoised(frags, run, f);
      Single(frags, run, Spread(f), ZERO);
      BesideLaws(run.cache[f], ZERO, ZERO);
    }
  }

  /** The fields of some selections when the fragments in `cut` count nothing and all others count as they do alone. */
  function Total(frags: Fragments, cut: set<string>, sels: seq<Selection>): nat {
    if sels == [] then 0 else TotalOne(frags, cut, sels[0]) + Total(frags, cut, sels[1..])
  }

  function TotalOne(frags: Fragments, cut: set<string>, s: Selection): nat {
    match s
    case Field(_, sub) => 1 + Total(frags, cut, sub)
    case Spread(name) => if name in frags && name !in cut then Alone(frags, name).fields else 0
    case Inline(sub) => Total(frags, cut, sub)
  }

  lemma {:induction false} TotalOfSpread(frags: Fragments, run: Run, name: string)
    requires Closed(frags, run) && Agreed(frags, FragmentMetrics(frags, run, name).1.cache)
    ensures FragmentMetrics(frags, run, name).0.fields == TotalOne(frags, run.visited, Spread(name))
  {
    hide Analyze, Alone;
    FragmentIs(frags, run, name);
    FragmentGrows(frags, run, name);
  }

  lemma {:induction false} TotalOfOne(frags: Fragments, run: Run, s: Selection)
    requires Closed(frags, run) && Agreed(frags, AnalyzeOne(frags, run, s).1.cache)
    ensures AnalyzeOne(frags, run, s).0.fields == TotalOne(frags, run.visited, s)
    decreases SizeOne(s), 0
  {
    var run0 := run.(looks := run.looks + 1);
    Looked(frags, run);
    hide Closed, Analyze, Agreed, Total, FragmentMetrics, Alone;
    match s {
      case Field(_, sub) => TotalOf(frags, run0, sub, ZERO);
      case Spread(name) => TotalOfSpread(frags, run0, name);
      case Inline(sub) => TotalOf(frags, run0, sub, ZERO);
    }
  }

  lemma AgreedBefore(frags: Fragments, c: map<string, Metrics>, c': map<string, Metrics>)
    requires Extends(c, c') && Agreed(frags, c')
    ensures Agreed(frags, c)
  {
    hide Alone;
  }

  /** With a memo that agrees, an analysis counts each fragment as it counts alone, except those in progress. */
  lemma {:induction false} TotalOf(frags: Fragments, run: Run, sels: seq<Selection>, sofar: Metrics)
    requires Closed(frags, run) && Agreed(frags, Analyze(frags, run, sels, sofar).1.cache)
    ensures Analyze(frags, run, sels, sofar).0.fields == sofar.fields + Total(frags, run.visited, sels)
    decreases Size(sels), 1
  {
    if sels != [] {
      var (m, run1) := AnalyzeOne(frags, run, sels[0]);
      hide Closed, Agreed, AnalyzeOne, TotalOne, Covered;
      AnalyzeOneGrows(frags, run, sels[0]);
      AnalyzeGrows(frags, run1, sels[1..], Beside(sofar, m));
      AgreedBefore(frags, run1.cache, Analyze(frags, run1, sels[1..], Beside(sofar, m)).1.cache);
      TotalOfOne(frags, run, sels[0]);
      TotalOf(frags, run1, sels[1..], Beside(sofar, m));
    }
  }

  /** Cutting one more fragment takes away what its spreads count. */
  lemma {:induction false} CutMore(frags: Fragments, cut: set<string>, cut': set<string>, sels: seq<Selection>)
    requires cut <= cut'
    ensures Total(frags, cut', sels) <= Total(frags, cut, sels)
    ensures forall g :: g in frags && g in cut' && g !in cut && Spreads(sels, g) ==>
      Total(frags, cut', sels) + Alone(frags, g).fields <= Total(frags, cut, sels)
    decreases sels
  {
    hide Alone;
    if sels != [] {
      match sels[0] {
        case Field(_, sub) => CutMore(frags, cut, cut', sub);
        case Spread(_) =>
        case Inline(sub) => CutMore(frags, cut, cut', sub);
      }
      CutMore(frags, cut, cut', sels[1..]);
    }
  }

  /** What is memoised while `g` is in progress counts nothing for `g`. */
  ghost predicate MemoisedWithout(frags: Fragments, g: string, c: map<string, Metrics>, c': map<string, Metrics>) {
    forall f :: f in c' && f !in c ==> f in frags && c'[f].fields <= Total(frags, {f, g}, frags[f])
  }

  lemma {:induction false} FragmentWithout(frags: Fragments, run: Run, name: string, g: string)
    requires Closed(frags, run) && g in run.visited && Agreed(frags, FragmentMetrics(frags, run, name).1.cache)
    ensures MemoisedWithout(frags, g, run.cache, FragmentMetrics(frags, run, name).1.cache)
    decreases frags.Keys - run.visited, 0, 0
  {
    hide Closed, Spreads, Covered, Analyze, Agreed, FragmentMetrics, Total;
    FragmentIs(frags, run, name);
    if name !in run.cache && name in frags && name !in run.visited {
      assert name in frags.Keys - run.visited;
      EnterKeeps(frags, run, name);
      AnalyzeGrows(frags, Enter(run, name), frags[name], ZERO);
      var (m, run1) := Analyze(frags, Enter(run, name), frags[name], ZERO);
      LeaveKeeps(frags, run, run1, name, m);
      AgreedBefore(frags, run1.cache, Leave(run1, name, m).cache);
      AnalyzeWithout(frags, Enter(run, name), frags[name], ZERO, g);
      TotalOf(frags, Enter(run, name), frags[name], ZERO);
      CutMore(frags, {name, g}, run.visited + {name}, frags[name]);
    }
  }

  lemma {:induction false} AnalyzeOneWithout(frags: Fragments, run: Run, s: Selection, g: string)
    requires Closed(frags, run) && g in run.visited && Agreed(frags, AnalyzeOne(frags, run, s).1.cache)
    ensures MemoisedWithout(frags, g, run.cache, AnalyzeOne(frags, run, s).1.cache)
    decreases frags.Keys - run.visited, SizeOne(s), 0
  {
    var run0 := run.(looks := run.looks + 1);
    Looked(frags, run);
    hide Closed, Analyze, Agreed, MemoisedWithout;
    match s {
      case Field(_, sub) => AnalyzeWithout(frags, run0, sub, ZERO, g);
      case Spread(name) => FragmentWithout(frags, run0, name, g);
      case Inline(sub) => AnalyzeWithout(frags, run0, sub, ZERO, g);
    }
  }

  lemma WithoutTwice(frags: Fragments, g: string, c: map<string, Metrics>, c': map<string, Metrics>, c'': map<string, Metrics>)
    requires MemoisedWithout(frags, g, c, c') && MemoisedWithout(frags, g, c', c'') && Extends(c', c'')
    ensures MemoisedWithout(frags, g, c, c'')
  {
    hide Total;
  }

  lemma {:induction false} AnalyzeWithout(frags: Fragments, run: Run, sels: seq<Selection>, sofar: Metrics, g: string)
    requires Closed(frags, run) && g in run.visited && Agreed(frags, Analyze(frags, run, sels, sofar).1.cache)
    ensures MemoisedWithout(frags, g, run.cache, Analyze(frags, run, sels, sofar).1.cache)
    decreases frags.Keys - run.visited, Size(sels), 1
  {
    if sels != [] {
      var (m, run1) := AnalyzeOne(frags, run, sels[0]);
      hide Closed, Covered, AnalyzeOne, Agreed, MemoisedWithout;
      var last := Analyze(frags, run1, sels[1..], Beside(sofar, m)).1;
      AnalyzeOneGrows(frags, run, sels[0]);
      AnalyzeGrows(frags, run1, sels[1..], Beside(sofar, m));
      AgreedBefore(frags, run1.cache, last.cache);
      AnalyzeOneWithout(frags, run, sels[0], g);
      AnalyzeWithout(frags, run1, sels[1..], Beside(sofar, m), g);
      WithoutTwice(frags, g, run.cache, run1.cache, last.cache);
    } else {
      NothingNew(frags, g, run.cache);
    }
  }

  lemma NothingNew(frags: Fragments, g: string, c: map<string, Metrics>)
    ensures MemoisedWithout(frags, g, c, c)
  {}

  // ---- so a fragment on a mutual cycle counts nothing ---------------------------------------------------------

  lemma FreshStart(frags: Fragments, name: string)
    ensures var run := START.(looks := START.looks + 1);
      Closed(frags, run) && run.cache == map[] && run.visited == {} && name !in run.cache && Enter(run, name).cache == map[]
      && Enter(run, name).visited == {name}
  {}

  /** Analysing one fragment first enters it, and nothing else. */
  lemma AloneEnters(frags: Fragments, g: string)
    requires g in frags
    ensures var (m, run1) := Analyze(frags, Enter(START.(looks := START.looks + 1), g), frags[g], ZERO);
      Alone(frags, g) == m && AfterOperations(frags, [[Spread(g)]]) == Leave(run1, g, m)
  {
    hide Analyze, AnalyzeOne, AfterOperations;
    FreshStart(frags, g);
    Entering(frags, START, g);
    Single(frags, START, Spread(g), ZERO);
    FirstOperation(frags, [Spread(g)]);
    BesideLaws(AnalyzeOne(frags, START, Spread(g)).0, ZERO, ZERO);
  }

  /** Everything else is memoised while it is in progress. */
  lemma AloneIs(frags: Fragments, g: string)
    requires OrderFree(frags) && g in frags
    ensures var run := AfterOperations(frags, [[Spread(g)]]);
      && Closed(frags, run) && run.visited == {} && g in run.cache && Agreed(frags, run.cache)
      && (forall f :: f in run.cache && f != g ==> f in frags && run.cache[f].fields <= Total(frags, {f, g}, frags[f]))
    ensures Alone(frags, g).fields == Total(frags, {g}, frags[g])
  {
    var start := START.(looks := START.looks + 1);
    var first := Enter(start, g);
    var (m, run1) := Analyze(frags, first, frags[g], ZERO);
    hide Analyze, AfterOperations, Closed, Agreed, Spreads, Covered, Total, OrderFree, Alone;
    FreshStart(frags, g);
    AloneEnters(frags, g);
    EnterKeeps(frags, start, g);
    AnalyzeGrows(frags, first, frags[g], ZERO);
    LeaveKeeps(frags, start, run1, g, m);
    OrderFreeAgrees(frags, [[Spread(g)]]);
    AgreedBefore(frags, run1.cache, Leave(run1, g, m).cache);
    AnalyzeWithout(frags, first, frags[g], ZERO, g);
    TotalOf(frags, first, frags[g], ZERO);
  }

  /** If order does not matter and `h` spreads a fragment that leads to it, that fragment counts no field. */
  lemma SpreadOnACycleCountsNothing(frags: Fragments, g: string, h: string)
    requires OrderFree(frags) && g != h && g in frags && h in frags && Spreads(frags[h], g) && Reaches(frags, g, h)
    ensures Alone(frags, g).fields == 0
  {
    var path :| ChainFromTo(frags, path, g, h);
    hide Analyze, AfterOperations, Closed, Spreads, Total, OrderFree, Alone;
    var run := AfterOperations(frags, [[Spread(g)]]);
    AloneIs(frags, g);
    HoldsAll(frags, run, path, g, h);
    AloneIs(frags, h);
    CutMore(frags, {h}, {h, g}, frags[h]);
  }

  lemma {:induction false} NoTotalNoField(frags: Fragments, cut: set<string>, sels: seq<Selection>)
    requires Total(frags, cut, sels) == 0
    ensures !HasField(sels) && forall x :: Spreads(sels, x) && x in frags && x !in cut ==> Alone(frags, x).fields == 0
    decreases sels
  {
    hide Alone;
    if sels != [] {
      match sels[0] {
        case Field(_, _) =>
        case Spread(_) =>
        case Inline(sub) => NoTotalNoField(frags, cut, sub);
      }
      NoTotalNoField(frags, cut, sels[1..]);
    }
  }

  /** A fragment that counts no field alone leads to no field. */
  lemma {:induction false} NothingBelow(frags: Fragments, path: seq<string>, f: string, g: string)
    requires OrderFree(frags) && ChainFromTo(frags, path, f, g) && Alone(frags, f).fields == 0
    ensures !HasField(frags[g])
    decreases |path|
  {
    hide OrderFree, Alone, Total, Spreads, HasField;
    AloneIs(frags, f);
    NoTotalNoField(frags, {f}, frags[f]);
    if |path| > 1 {
      assert Spreads(frags[f], path[0 + 1]);
      assert ChainFromTo(frags, path[1..], path[1], g);
      NothingBelow(frags, path[1..], path[1], g);
    }
  }

  /** The last other fragment on a chain to `f` spreads `f`. */
  lemma {:induction false} Predecessor(frags: Fragments, path: seq<string>, g: string, f: string) returns (h: string)
    requires ChainFromTo(frags, path, g, f) && g != f
    ensures h != f && h in frags && Spreads(frags[h], f) && Reaches(frags, g, h)
    decreases |path|
  {
    hide Spreads, Reaches;
    assert Spreads(frags[g], path[0 + 1]);
    if path[1] == f {
      h := g;
      Stays(frags, g);
    } else {
      assert ChainFromTo(frags, path[1..], path[1], f);
      h := Predecessor(frags, path[1..], path[1], f);
      StepThen(frags, g, path[1], h);
    }
  }

  lemma OrderFreeNeedsFieldlessCycles(frags: Fragments)
    requires OrderFree(frags)
    ensures MutualCyclesAreFieldless(frags)
  {
    forall f, g | f != g && Reaches(frags, f, g) && Reaches(frags, g, f) ensures Fieldless(frags, f) {
      var path :| ChainFromTo(frags, path, g, f);
      hide OrderFree, Spreads, HasField, Alone, Chain;
      var h := Predecessor(frags, path, g, f);
      Transitive(frags, f, g, h);
      SpreadOnACycleCountsNothing(frags, f, h);
      forall x | x in frags && Reaches(frags, f, x) ensures !HasField(frags[x]) {
        var down :| ChainFromTo(frags, down, f, x);
        NothingBelow(frags, down, f, x);
      }
    }
  }

  // ---- fieldless cycles do no harm: the counts of the pruned, inlined operation -----------------------------------

  /** A document with a set of fragments to leave out and an order of the others. */
  datatype Outline = Outline(frags: Fragments, hollow: set<string>, rank: map<string, nat>)

  /** Nothing to count here: no field, and only hollow fragments are spread. */
  ghost predicate Hollow(d: Outline, sels: seq<Selection>) {
    !HasField(sels) && forall x :: Spreads(sels, x) && x in d.frags ==> x in d.hollow
  }

  /** What is spread here is hollow, is the fragment `self` itself, or ranks below `bound`. */
  ghost predicate Falls(d: Outline, self: Option<string>, sels: seq<Selection>, bound: nat) {
    forall x :: Spreads(sels, x) && x in d.frags ==> self == Some(x) || x in d.hollow || (x in d.rank && d.rank[x] < bound)
  }

  /** The only cycles are those of fragments that spread themselves and those of hollow ones. */
  ghost predicate Sound(d: Outline) {
    && (forall f :: f in d.hollow ==> f in d.frags && Hollow(d, d.frags[f]))
    && (forall f :: f in d.frags && f !in d.hollow ==> f in d.rank && Falls(d, Some(f), d.frags[f], d.rank[f]))
  }

  lemma FallsParts(d: Outline, self: Option<string>, sels: seq<Selection>, bound: nat)
    requires Falls(d, self, sels, bound) && sels != []
    ensures Falls(d, self, [sels[0]], bound) && Falls(d, self, sels[1..], bound)
  {
    MoreSpreads(sels);
  }

  lemma FallsInside(d: Outline, self: Option<string>, s: Selection, bound: nat)
    requires Falls(d, self, [s], bound)
    ensures if s.Spread? then s.name in d.frags ==> self == Some(s.name) || s.name in d.hollow || (s.name in d.rank && d.rank[s.name] < bound)
            else Falls(d, self, s.sub, bound)
  {
    OneSpreads(s);
    assert s.Spread? ==> Spreads([s], s.name);
  }

  /** The selections with every fragment spread inlined, except that hollow fragments and self-spreads are left out. */
  ghost function Pruned(d: Outline, self: Option<string>, sels: seq<Selection>, bound: nat): seq<Selection>
    requires Sound(d) && Falls(d, self, sels, bound)
    decreases bound, sels
  {
    if sels == [] then []
    else
      FallsParts(d, self, sels, bound);
      [PrunedOne(d, self, sels[0], bound)] + Pruned(d, self, sels[1..], bound)
  }

  ghost function PrunedOne(d: Outline, self: Option<string>, s: Selection, bound: nat): Selection
    requires Sound(d) && Falls(d, self, [s], bound)
    decreases bound, s
  {
    FallsInside(d, self, s, bound);
    match s
    case Field(alias, sub) => Field(alias, Pruned(d, self, sub, bound))
    case Spread(name) =>
      if name in d.frags && self != Some(name) && name !in d.hollow
      then Inline(Pruned(d, Some(name), d.frags[name], d.rank[name])) else Inline([])
    case Inline(sub) => Inline(Pruned(d, self, sub, bound))
  }

  /** What one fragment counts. */
  ghost function Worth(d: Outline, f: string): Metrics
    requires Sound(d) && f in d.frags
  {
    if f in d.hollow then ZERO else Cost(Pruned(d, Some(f), d.frags[f], d.rank[f]))
  }

  lemma PrunedCost(d: Outline, self: Option<string>, sels: seq<Selection>, bound: nat)
    requires Sound(d) && Falls(d, self, sels, bound) && sels != []
    ensures Falls(d, self, [sels[0]], bound) && Falls(d, self, sels[1..], bound)
    ensures Cost(Pruned(d, self, sels, bound)) ==
      Beside(CostOne(PrunedOne(d, self, sels[0], bound)), Cost(Pruned(d, self, sels[1..], bound)))
  {
    FallsParts(d, self, sels, bound);
    hide Sound, Falls, PrunedOne, CostOne;
    var r := Pruned(d, self, sels, bound);
    assert r[1..] == Pruned(d, self, sels[1..], bound);
  }

  lemma PrunedOneCost(d: Outline, self: Option<string>, s: Selection, bound: nat)
    requires Sound(d) && Falls(d, self, [s], bound)
    ensures !s.Spread? ==> Falls(d, self, s.sub, bound)
    ensures CostOne(PrunedOne(d, self, s, bound)) ==
      if s.Spread? then (if s.name in d.frags && self != Some(s.name) then Worth(d, s.name) else ZERO)
      else var m := Cost(Pruned(d, self, s.sub, bound)); if s.Field? then Around(s.alias, m) else m
  {
    FallsInside(d, self, s, bound);
    hide Pruned, Falls, Sound;
  }

  ghost predicate Good(d: Outline, run: Run)
    requires Sound(d)
  {
    forall f :: f in run.cache ==> f in d.frags && run.cache[f] == Worth(d, f)
  }

  lemma GoodMore(d: Outline, run: Run, name: string, m: Metrics)
    requires Sound(d) && Good(d, run) && name in d.frags && m == Worth(d, name)
    ensures Good(d, Leave(run, name, m))
  {
    hide Worth;
  }

  lemma {:induction false} HollowFragment(d: Outline, run: Run, name: string)
    requires Sound(d) && Good(d, run) && name in d.hollow
    ensures var (m, run') := FragmentMetrics(d.frags, run, name); m == ZERO && Good(d, run')
    decreases d.frags.Keys - run.visited, 0, 0
  {
    assert name in d.frags && Hollow(d, d.frags[name]) && Worth(d, name) == ZERO;
    hide Sound, Hollow, Analyze, FragmentMetrics, Worth;
    FragmentIs(d.frags, run, name);
    if name !in run.cache && name !in run.visited {
      assert name in d.frags.Keys - run.visited;
      HollowAnalyze(d, Enter(run, name), d.frags[name], ZERO);
      GoodMore(d, Analyze(d.frags, Enter(run, name), d.frags[name], ZERO).1, name, ZERO);
    }
  }

  lemma HollowParts(d: Outline, sels: seq<Selection>)
    requires Hollow(d, sels) && sels != []
    ensures !sels[0].Field? && Hollow(d, sels[1..])
    ensures sels[0].Spread? ==> sels[0].name in d.frags ==> sels[0].name in d.hollow
    ensures sels[0].Inline? ==> Hollow(d, sels[0].sub)
  {
    MoreSpreads(sels);
    OneSpreads(sels[0]);
    hide Spreads;
    assert sels[0].Spread? ==> Spreads(sels, sels[0].name);
    assert sels[0].Inline? ==> forall x :: Spreads(sels[0].sub, x) ==> Spreads(sels, x);
  }

  lemma {:induction false} HollowOne(d: Outline, run: Run, s: Selection)
    requires Sound(d) && Good(d, run) && !s.Field?
    requires s.Spread? ==> s.name in d.frags ==> s.name in d.hollow
    requires s.Inline? ==> Hollow(d, s.sub)
    ensures var (m, run') := AnalyzeOne(d.frags, run, s); m == ZERO && Good(d, run')
    decreases d.frags.Keys - run.visited, SizeOne(s), 0
  {
    var run0 := run.(looks := run.looks + 1);
    GoodEnter(d, run, "");
    hide Sound, Hollow, Worth, FragmentMetrics, Analyze, Good;
    if s.Inline? {
      HollowAnalyze(d, run0, s.sub, ZERO);
    } else if s.name in d.frags {
      HollowFragment(d, run0, s.name);
    } else {
      FragmentIs(d.frags, run0, s.name);
      GoodIsKnown(d, run0, s.name);
    }
  }

  lemma GoodIsKnown(d: Outline, run: Run, name: string)
    requires Sound(d) && Good(d, run) && name !in d.frags
    ensures name !in run.cache
  {
    hide Worth;
  }

  lemma {:induction false} HollowAnalyze(d: Outline, run: Run, sels: seq<Selection>, sofar: Metrics)
    requires Sound(d) && Good(d, run) && Hollow(d, sels)
    ensures var (m, run') := Analyze(d.frags, run, sels, sofar); m == sofar && Good(d, run')
    decreases d.frags.Keys - run.visited, Size(sels), 1
  {
    if sels != [] {
      HollowParts(d, sels);
      BesideLaws(sofar, ZERO, ZERO);
      hide Sound, Hollow, Good, AnalyzeOne;
      var run1 := AnalyzeOne(d.frags, run, sels[0]).1;
      HollowOne(d, run, sels[0]);
      HollowAnalyze(d, run1, sels[1..], sofar);
    }
  }

  /** What is in progress is cut off only where the pruned operation leaves it out. */
  ghost predicate InProgress(d: Outline, run: Run, self: Option<string>, bound: nat) {
    && run.visited !! run.cache.Keys && (self.Some? ==> self.value in run.visited)
    && forall v :: v in run.visited ==> v in d.hollow || (v in d.rank && d.rank[v] >= bound)
  }

  lemma EnterInProgress(d: Outline, run: Run, self: Option<string>, bound: nat, name: string)
    requires InProgress(d, run, self, bound) && name !in run.cache && name in d.rank && d.rank[name] < bound
    ensures InProgress(d, Enter(run, name), Some(name), d.rank[name])
  {}

  lemma Undisturbed(d: Outline, run: Run, run': Run, self: Option<string>, bound: nat)
    requires InProgress(d, run, self, bound) && Closed(d.frags, run') && run'.visited == run.visited
    ensures InProgress(d, run', self, bound)
  {}

  lemma {:induction false} FragmentPruned(d: Outline, run: Run, name: string, self: Option<string>, bound: nat)
    requires Sound(d) && Good(d, run) && Closed(d.frags, run) && InProgress(d, run, self, bound)
    requires name in d.frags ==> self == Some(name) || name in d.hollow || (name in d.rank && d.rank[name] < bound)
    ensures var (m, run') := FragmentMetrics(d.frags, run, name);
      Good(d, run') && m == if name in d.frags && self != Some(name) then Worth(d, name) else ZERO
    decreases d.frags.Keys - run.visited, 0, 0
  {
    FragmentIs(d.frags, run, name);
    if name in d.hollow {
      HollowFragment(d, run, name);
    } else if name in d.frags && self != Some(name) && name !in run.cache {
      assert name !in run.visited && name in d.frags.Keys - run.visited && Falls(d, Some(name), d.frags[name], d.rank[name]);
      hide Sound, Falls, Analyze, FragmentMetrics, Closed, Good, Pruned, InProgress;
      EnterKeeps(d.frags, run, name);
      EnterInProgress(d, run, self, bound, name);
      GoodEnter(d, run, name);
      AnalyzePruned(d, Enter(run, name), d.frags[name], ZERO, Some(name), d.rank[name]);
      BesideLaws(Worth(d, name), ZERO, ZERO);
      GoodMore(d, Analyze(d.frags, Enter(run, name), d.frags[name], ZERO).1, name, Worth(d, name));
    }
  }

  lemma GoodEnter(d: Outline, run: Run, name: string)
    requires Sound(d) && Good(d, run)
    ensures Good(d, Enter(run, name)) && Good(d, run.(looks := run.looks + 1))
  {}

  lemma {:induction false} AnalyzeOnePruned(d: Outline, run: Run, s: Selection, self: Option<string>, bound: nat)
    requires Sound(d) && Good(d, run) && Closed(d.frags, run) && InProgress(d, run, self, bound) && Falls(d, self, [s], bound)
    ensures var (m, run') := AnalyzeOne(d.frags, run, s);
      Good(d, run') && m == CostOne(PrunedOne(d, self, s, bound))
    decreases d.frags.Keys - run.visited, SizeOne(s), 0
  {
    hide *;
    var run0 := run.(looks := run.looks + 1);
    Looked(d.frags, run);
    GoodEnter(d, run, "");
    FallsInside(d, self, s, bound);
    PrunedOneCost(d, self, s, bound);
    Undisturbed(d, run, run0, self, bound);
    if s.Spread? {
      SpreadIs(d.frags, run, s.name);
      FragmentPruned(d, run0, s.name, self, bound);
    } else {
      SizeInside(s);
      AnalyzeNested(d.frags, run, s);
      AnalyzePruned(d, run0, s.sub, ZERO, self, bound);
      BesideLaws(Cost(Pruned(d, self, s.sub, bound)), ZERO, ZERO);
    }
  }

  lemma SpreadIs(frags: Fragments, run: Run, name: string)
    ensures AnalyzeOne(frags, run, Spread(name)) == FragmentMetrics(frags, run.(looks := run.looks + 1), name)
    ensures SizeOne(Spread(name)) == 1
  {}

  lemma SizeInside(s: Selection)
    requires !s.Spread?
    ensures Size(s.sub) < SizeOne(s)
  {}

  lemma {:induction false} AnalyzePruned(d: Outline, run: Run, sels: seq<Selection>, sofar: Metrics, self: Option<string>, bound: nat)
    requires Sound(d) && Good(d, run) && Closed(d.frags, run) && InProgress(d, run, self, bound) && Falls(d, self, sels, bound)
    ensures var (m, run') := Analyze(d.frags, run, sels, sofar);
      Good(d, run') && m == Beside(sofar, Cost(Pruned(d, self, sels, bound)))
    decreases d.frags.Keys - run.visited, Size(sels), 1
  {
    if sels == [] {
      BesideLaws(sofar, ZERO, ZERO);
    } else {
      PrunedCost(d, self, sels, bound);
      var (m, run1) := AnalyzeOne(d.frags, run, sels[0]);
      hide Sound, Falls, AnalyzeOne, Closed, Good, Pruned, PrunedOne, Cost, CostOne, InProgress, Beside, Covered;
      AnalyzeOneGrows(d.frags, run, sels[0]);
      AnalyzeOnePruned(d, run, sels[0], self, bound);
      Undisturbed(d, run, run1, self, bound);
      AnalyzePruned(d, run1, sels[1..], Beside(sofar, m), self, bound);
      BesideLaws(sofar, m, Cost(Pruned(d, self, sels[1..], bound)));
    }
  }

  // ---- the exact condition -----------------------------------------------------------------------------------------

  /** Every fragment that is not hollow ranks below `bound`. */
  predicate RanksBelow(d: Outline, bound: nat) {
    forall f :: f in d.frags && f !in d.hollow ==> f in d.rank && d.rank[f] < bound
  }

  lemma RankedFalls(d: Outline, op: seq<Selection>, bound: nat)
    requires Sound(d) && RanksBelow(d, bound)
    ensures Falls(d, None, op, bound)
  {
    hide Spreads;
  }

  lemma {:induction false} OperationsPruned(d: Outline, ops: seq<seq<Selection>>, bound: nat)
    requires Sound(d) && RanksBelow(d, bound)
    ensures var run := AfterOperations(d.frags, ops); Good(d, run) && Closed(d.frags, run) && run.visited == {}
  {
    OperationsGrow(d.frags, ops);
    if ops != [] {
      var run := AfterOperations(d.frags, ops[..|ops| - 1]);
      hide Sound, Falls, Analyze, Good;
      OperationsPruned(d, ops[..|ops| - 1], bound);
      RankedFalls(d, ops[|ops| - 1], bound);
      assert InProgress(d, run, None, bound);
      AnalyzePruned(d, run, ops[|ops| - 1], ZERO, None, bound);
    } else {
      assert AfterOperations(d.frags, []).cache == map[];
    }
  }

  /**
    Where the only cycles are those of hollow fragments and of fragments that spread themselves, the
    metrics of an operation, whatever was analysed before, are those of the pruned, inlined one.
   */
  lemma MemoAgreesWithPruning(d: Outline, before: seq<seq<Selection>>, op: seq<Selection>, bound: nat)
    requires Sound(d) && RanksBelow(d, bound)
    ensures Falls(d, None, op, bound)
    ensures Analyze(d.frags, AfterOperations(d.frags, before), op, ZERO).0 == Cost(Pruned(d, None, op, bound))
  {
    var run := AfterOperations(d.frags, before);
    hide Sound, Falls, Analyze, AfterOperations, Cost, Pruned, Closed, Good;
    OperationsPruned(d, before, bound);
    RankedFalls(d, op, bound);
    assert InProgress(d, run, None, bound) by { NothingInProgress(d, run, bound); }
    AnalyzePruned(d, run, op, ZERO, None, bound);
    BesideLaws(Cost(Pruned(d, None, op, bound)), ZERO, ZERO);
  }

  lemma NothingInProgress(d: Outline, run: Run, bound: nat)
    requires run.visited == {}
    ensures InProgress(d, run, None, bound)
  {}

  /** The fragments that `f` leads to, itself among them. */
  ghost function Below(frags: Fragments, f: string): set<string> {
    set g | g in frags && Reaches(frags, f, g)
  }

  ghost function OutlineOf(frags: Fragments): Outline {
    Outline(frags, set f | f in frags && Fieldless(frags, f), map f | f in frags :: |Below(frags, f)|)
  }

  lemma {:induction false} SpreadsFalls(frags: Fragments, f: string, x: string)
    requires MutualCyclesAreFieldless(frags) && f in frags && x in frags && Spreads(frags[f], x) && f != x && !Fieldless(frags, f)
    ensures |Below(frags, x)| < |Below(frags, f)|
  {
    hide Spreads, Fieldless, Reaches;
    Stays(frags, f);
    Stays(frags, x);
    StepThen(frags, f, x, x);
    assert !Reaches(frags, x, f);
    forall g | g in Below(frags, x) ensures g in Below(frags, f) { StepThen(frags, f, x, g); }
    assert Below(frags, x) <= Below(frags, f) - {f};
    Smaller(Below(frags, x), Below(frags, f) - {f});
  }

  lemma {:induction false} Smaller(a: set<string>, b: set<string>)
    requires a <= b
    ensures |a| <= |b|
    decreases a
  {
    if a != {} {
      var x :| x in a;
      Smaller(a - {x}, b - {x});
    }
  }

  lemma HollowBelow(frags: Fragments, f: string)
    requires f in frags && Fieldless(frags, f)
    ensures Hollow(OutlineOf(frags), frags[f])
  {
    hide Spreads, HasField, Reaches;
    Stays(frags, f);
    var d := OutlineOf(frags);
    forall x | Spreads(frags[f], x) && x in frags ensures x in d.hollow {
      forall g | g in frags && Reaches(frags, x, g) ensures !HasField(frags[g]) { StepThen(frags, f, x, g); }
    }
  }

  lemma OutlineIsSound(frags: Fragments)
    requires MutualCyclesAreFieldless(frags)
    ensures Sound(OutlineOf(frags)) && RanksBelow(OutlineOf(frags), |frags| + 1)
  {
    var d := OutlineOf(frags);
    hide Spreads, Fieldless, Reaches, HasField;
    forall f | f in d.hollow ensures Hollow(d, frags[f]) { HollowBelow(frags, f); }
    forall f | f in frags && f !in d.hollow ensures Falls(d, Some(f), frags[f], d.rank[f]) {
      forall x | Spreads(frags[f], x) && x in frags && x != f ensures d.rank[x] < d.rank[f] { SpreadsFalls(frags, f, x); }
    }
    forall x | x in frags ensures d.rank[x] <= |frags| {
      Smaller(Below(frags, x), frags.Keys);
      assert |frags.Keys| == |frags|;
    }
  }

  lemma FieldlessCyclesAreOrderFree(frags: Fragments)
    requires MutualCyclesAreFieldless(frags)
    ensures OrderFree(frags)
  {
    hide Analyze, AfterOperations, Cost, Pruned, OutlineOf, Sound, Falls;
    OutlineIsSound(frags);
    var d := OutlineOf(frags);
    assert d.frags == frags && AfterOperations(frags, []) == START by { NoOperations(frags); }
    forall before, op ensures Analyze(frags, AfterOperations(frags, before), op, ZERO).0 == Analyze(frags, START, op, ZERO).0 {
      MemoAgreesWithPruning(d, before, op, |frags| + 1);
      MemoAgreesWithPruning(d, [], op, |frags| + 1);
    }
  }

  lemma NoOperations(frags: Fragments)
    ensures AfterOperations(frags, []) == START && OutlineOf(frags).frags == frags
  {}

  /**
    The counts of operations do not depend on what was analysed before exactly when fragments that
    lead to each other lead to no field.
   */
  lemma OrderFreeExactlyWhenMutualCyclesAreFieldless(frags: Fragments)
    ensures OrderFree(frags) <==> MutualCyclesAreFieldless(frags)
  {
    hide OrderFree, MutualCyclesAreFieldless;
    if OrderFree(frags) { OrderFreeNeedsFieldlessCycles(frags); }
    if MutualCyclesAreFieldless(frags) { FieldlessCyclesAreOrderFree(frags); }
  }

  lemma Ends(frags: Fragments, f: string, g: string)
    requires Reaches(frags, f, g)
    ensures f in frags && g in frags
  {
    var path :| ChainFromTo(frags, path, f, g);
  }

  /** For a document of two fragments that spread each other: exactly when neither has a field. */
  lemma TwoFragmentsInACycle(frags: Fragments, a: string, b: string)
    requires a != b && frags.Keys == {a, b} && Spreads(frags[a], b) && Spreads(frags[b], a)
    ensures OrderFree(frags) <==> !HasField(frags[a]) && !HasField(frags[b])
  {
    hide OrderFree, Spreads, HasField, Reaches;
    OrderFreeExactlyWhenMutualCyclesAreFieldless(frags);
    assert a in frags && b in frags;
    Stays(frags, a);
    Stays(frags, b);
    StepThen(frags, a, b, b);
    StepThen(frags, b, a, a);
    forall f, g | Reaches(frags, f, g) ensures f in {a, b} { Ends(frags, f, g); }
    assert forall x :: x in frags ==> x == a || x == b;
  }

  /** Every fragment spreads only itself and fragments of lower rank. */
  ghost predicate OnlySelfSpreads(frags: Fragments, rank: map<string, nat>) {
    && (forall f :: f in frags ==> f in rank)
    && forall f, x :: f in frags && x in frags && Spreads(frags[f], x) && x != f ==> rank[x] < rank[f]
  }

  lemma {:induction false} ChainFalls(frags: Fragments, rank: map<string, nat>, path: seq<string>, f: string, g: string)
    requires OnlySelfSpreads(frags, rank) && ChainFromTo(frags, path, f, g) && f != g
    ensures rank[g] < rank[f]
    decreases |path|
  {
    hide Spreads;
    assert Spreads(frags[f], path[0 + 1]);
    if path[1] != g {
      assert ChainFromTo(frags, path[1..], path[1], g);
      ChainFalls(frags, rank, path[1..], path[1], g);
    }
  }

  /** Fragments that spread themselves, but form no other cycle, do no harm. */
  lemma SelfSpreadsAreOrderFree(frags: Fragments, rank: map<string, nat>)
    requires OnlySelfSpreads(frags, rank)
    ensures OrderFree(frags)
  {
    hide OnlySelfSpreads, Spreads, OrderFree;
    forall f, g | f != g && Reaches(frags, f, g) ensures !Reaches(frags, g, f) {
      var path :| ChainFromTo(frags, path, f, g);
      ChainFalls(frags, rank, path, f, g);
      if Reaches(frags, g, f) {
        var back :| ChainFromTo(frags, back, g, f);
        ChainFalls(frags, rank, back, g, f);
      }
    }
    OrderFreeExactlyWhenMutualCyclesAreFieldless(frags);
  }
}
