/** The rule as it runs: a memo map and a visited set updated in place by mutual recursion. */
module GraphQLRule {
  import opened OptionType
  import opened GraphQLCost

  class AbusePreventionRule {
    const fragments: Fragments
    const limits: Limits
    var cache: map<string, Metrics>
    var visited: set<string>
    ghost var entered: seq<string>
    ghost var looks: nat

    ghost function State(): Run
      reads this
    {
      Run(cache, visited, entered, looks)
    }

    constructor (fragments: Fragments, limits: Limits)
      ensures this.fragments == fragments && this.limits == limits && State() == START
    {
      this.fragments, this.limits := fragments, limits;
      cache, visited, entered, looks := map[], {}, [], 0;
    }

    method GetFragmentMetrics(name: string) returns (m: Metrics)
      modifies this
      ensures (m, State()) == FragmentMetrics(fragments, old(State()), name)
      decreases fragments.Keys - visited, 0
    {
      if name in cache { return cache[name]; }
      if name !in fragments { return ZERO; }
      if name in visited { return ZERO; }
      assert name in fragments.Keys - visited;
      visited, entered := visited + {name}, entered + [name];
      m := AnalyzeSelectionSet(fragments[name]);
      visited := visited - {name};
      cache := cache[name := m];
    }

    method AnalyzeSelectionSet(sels: seq<Selection>) returns (m: Metrics)
      modifies this
      ensures (m, State()) == Analyze(fragments, old(State()), sels, ZERO)
      decreases fragments.Keys - visited, Size(sels) + 1
    {
      var maxD: nat, totalF: nat, totalA: nat := 0, 0, 0;
      for i := 0 to |sels|
        invariant visited == old(visited)
        invariant Analyze(fragments, State(), sels[i..], Metrics(maxD, totalF, totalA))
               == Analyze(fragments, old(State()), sels, ZERO)
      {
        SizeAt(sels, i);
        assert sels[i..][0] == sels[i] && sels[i..][1..] == sels[i + 1..];
        ghost var run, sofar := State(), Metrics(maxD, totalF, totalA);
        ghost var one := AnalyzeOne(fragments, run, sels[i]);
        assert Analyze(fragments, run, sels[i..], sofar) == Analyze(fragments, one.1, sels[i + 1..], Beside(sofar, one.0));
        looks := looks + 1;
        assert State() == run.(looks := run.looks + 1);
        match sels[i] {
          case Field(alias, sub) =>
            var fieldDepth: nat, fieldFields: nat, fieldAliases: nat := 1, 1, if alias then 1 else 0;
            if sub != [] {
              var inner := AnalyzeSelectionSet(sub);
              fieldDepth := fieldDepth + inner.depth;
              fieldFields := fieldFields + inner.fields;
              fieldAliases := fieldAliases + inner.aliases;
            }
            assert one.0 == Around(alias, Analyze(fragments, run.(looks := run.looks + 1), sub, ZERO).0);
            assert Metrics(fieldDepth, fieldFields, fieldAliases) == one.0;
            maxD := Max(maxD, fieldDepth);
            totalF, totalA := totalF + fieldFields, totalA + fieldAliases;
          case Spread(name) =>
            var inner := GetFragmentMetrics(name);
            assert inner == one.0;
            maxD := Max(maxD, inner.depth);
            totalF, totalA := totalF + inner.fields, totalA + inner.aliases;
          case Inline(sub) =>
            var inner := AnalyzeSelectionSet(sub);
            assert inner == one.0;
            maxD := Max(maxD, inner.depth);
            totalF, totalA := totalF + inner.fields, totalA + inner.aliases;
        }
        assert State() == one.1 && Metrics(maxD, totalF, totalA) == Beside(sofar, one.0);
      }
      assert sels[|sels|..] == [];
      m := Metrics(maxD, totalF, totalA);
    }

    /** What the rule reports for one operation of the document. */
    method CheckOperation(op: seq<Selection>) returns (errors: set<Complaint>)
      modifies this
      ensures var (m, run) := Analyze(fragments, old(State()), op, ZERO);
        State() == run && errors == Complaints(limits, m)
    {
      var m := AnalyzeSelectionSet(op);
      errors := {};
      if limits.maxDepth.Some? && m.depth > limits.maxDepth.value { errors := errors + {TooDeep}; }
      if limits.maxAliases.Some? && m.aliases > limits.maxAliases.value { errors := errors + {TooManyAliases}; }
      if limits.maxFields.Some? && m.fields > limits.maxFields.value { errors := errors + {TooManyFields}; }
    }

    /** A whole document: every operation is judged with the memo the earlier ones left. */
    method CheckDocument(ops: seq<seq<Selection>>) returns (errors: seq<set<Complaint>>)
      requires State() == START
      modifies this
      ensures State() == AfterOperations(fragments, ops) && |errors| == |ops|
      ensures forall i :: 0 <= i < |ops| ==>
        errors[i] == Complaints(limits, Analyze(fragments, AfterOperations(fragments, ops[..i]), ops[i], ZERO).0)
      ensures forall rank, bound ::
        AcyclicDocument(fragments, rank, ops, bound) ==>
        forall i :: 0 <= i < |ops| ==> errors[i] == Complaints(limits, Cost(Inlined(fragments, rank, ops[i], bound)))
    {
      errors := [];
      for k := 0 to |ops|
        invariant State() == AfterOperations(fragments, ops[..k]) && |errors| == k
        invariant forall i :: 0 <= i < k ==>
          errors[i] == Complaints(limits, Analyze(fragments, AfterOperations(fragments, ops[..i]), ops[i], ZERO).0)
      {
        assert ops[..k + 1][..k] == ops[..k];
        var e := CheckOperation(ops[k]);
        errors := errors + [e];
      }
      assert ops[..|ops|] == ops;
      forall rank, bound, i | AcyclicDocument(fragments, rank, ops, bound) && 0 <= i < |ops|
        ensures errors[i] == Complaints(limits, Cost(Inlined(fragments, rank, ops[i], bound)))
      {
        MemoAgreesWithInlining(fragments, rank, ops[..i], ops[i], bound);
      }
    }
  }

  /** A document in which no fragment reaches itself; `rank` and `bound` witness it. */
  ghost predicate AcyclicDocument(frags: Fragments, rank: map<string, nat>, ops: seq<seq<Selection>>, bound: nat) {
    AcyclicBy(frags, rank) && forall j :: 0 <= j < |ops| ==> Descends(frags, rank, ops[j], bound)
  }

  lemma {:induction false} SizeAt(sels: seq<Selection>, i: nat)
    requires i < |sels|
    ensures SizeOne(sels[i]) <= Size(sels)
  {
    if i > 0 { SizeAt(sels[1..], i - 1); }
  }
}
