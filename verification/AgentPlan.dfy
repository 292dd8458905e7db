/** scripts/validate_agent_plan.py: which agent plans are accepted, and why an accepted
    plan can be executed.  Steps name each other by step_index; a dependency of a step on
    itself is ignored by the cycle check, so "depends" below always means "on another". */
module AgentPlan {
  import opened Results
  import opened Ordering

  datatype Step = Step(
    stepIndex: Option<int>,           // None: the key is absent
    dependsOn: seq<int>,
    hasIntent: bool,
    proposesTool: bool,               // tool_proposal_ref is not None
    requiresHumanApproval: bool,
    forbidsAutonomousExecution: bool,
    riskTier: string,                 // "" when absent
    expectedResult: Option<string>)   // None: absent or empty; Some(result_type)

  datatype Plan = Plan(
    typeName: string,
    planId: string,
    sessionRef: string,
    steps: seq<Step>,
    maxSteps: Option<int>,
    requiresStepApproval: bool,
    forbidsParallelExecution: Option<bool>,
    privatePaths: seq<string>)        // fields in which the scan finds a private path

  datatype Code =
    | InvalidType | MissingPlanId | InvalidPlanIdFormat | MissingSessionRef | EmptySteps
    | MaxStepsExceeded | PlanApprovalNotRequired | PlanParallelWithSideEffects
    | DuplicateStepIndex(index: int) | StepIndexOutOfRange(index: int)
    | MissingStepIntent(index: int) | StepApprovalNotRequired(index: int)
    | StepAutonomousAllowed(index: int) | InvalidRiskTier(index: int)
    | MissingExpectedResult(index: int) | InvalidResultType(index: int)
    | InvalidDependsOn(index: int, dependency: int)
    | CircularDependency | PrivatePathDetected(field: string)

  const VALID_RISK_TIERS := {"none", "low", "medium", "high"}
  const SIDE_EFFECT_RISK_TIERS := {"low", "medium", "high"}
  const VALID_RESULT_TYPES := {"proposal_only", "read_result", "approval_record", "escalation_record"}

  // ---- The dependency graph --------------------------------------------------------

  /** Step b, at some position of the list, names step a. */
  ghost predicate Names(steps: seq<Step>, a: int, b: int) {
    exists i :: 0 <= i < |steps| && steps[i].stepIndex == Some(b) && a in steps[i].dependsOn
  }

  /** Step b depends on step a. */
  ghost predicate Depends(steps: seq<Step>, a: int, b: int) {
    0 <= a < |steps| && a != b && Names(steps, a, b)
  }

  /** An execution order: every index below |steps| once, each after all it depends on. */
  ghost predicate Schedule(order: seq<int>, steps: seq<Step>) {
    && |order| == |steps|
    && Distinct(order)
    && (forall x :: x in order ==> 0 <= x < |steps|)
    && forall j, a :: 0 <= j < |order| && Depends(steps, a, order[j]) ==> a in order[..j]
  }

  /** A closed walk along dependencies. */
  ghost predicate Cycle(c: seq<int>, steps: seq<Step>) {
    && |c| >= 2 && c[0] == c[|c| - 1]
    && forall i :: 0 <= i < |c| - 1 ==> Depends(steps, c[i], c[i + 1])
  }

  /** The step makes _topological_sort raise KeyError on a list of n steps. */
  ghost predicate Unindexable(step: Step, n: nat) {
    || step.stepIndex.None?
    || (!(0 <= step.stepIndex.value < n) && exists d :: d in step.dependsOn && 0 <= d < n)
  }

  /** A cyclic graph has no execution order: the member of the cycle that is executed
      first would have to follow its predecessor. */
  lemma ScheduleExcludesCycle(order: seq<int>, c: seq<int>, steps: seq<Step>)
    ensures !(Schedule(order, steps) && Cycle(c, steps))
  {
    if Schedule(order, steps) && Cycle(c, steps) {
      var k := FirstOnCycle(order, c, steps);
      var a := PredecessorOnCycle(c, order[k], steps);
      assert false;
    }
  }

  lemma PredecessorOnCycle(c: seq<int>, x: int, steps: seq<Step>) returns (a: int)
    requires Cycle(c, steps) && x in c
    ensures a in c && Depends(steps, a, x)
  {
    var i :| 0 <= i < |c| && c[i] == x;
    var k := if i == 0 then |c| - 2 else i - 1;
    a := c[k];
    assert Depends(steps, c[k], c[k + 1]);
  }

  lemma FirstOnCycle(order: seq<int>, c: seq<int>, steps: seq<Step>) returns (k: nat)
    requires Schedule(order, steps) && Cycle(c, steps)
    ensures k < |order| && order[k] in c
    ensures forall x :: x in order[..k] ==> x !in c
  {
    assert Depends(steps, c[0], c[1]);
    Pigeonhole(order, |steps|);
    assert c[0] in order;
    k := 0;
    while order[k] !in c
      invariant k < |order|
      invariant forall x :: x in order[..k] ==> x !in c
      decreases |order| - k
    {
      assert order[..k + 1] == order[..k] + [order[k]];
      assert order[..|order|] == order;
      k := k + 1;
    }
  }

  /** Every member of u depends on the member that pred names. */
  ghost predicate Trapped(u: set<int>, pred: map<int, int>, steps: seq<Step>) {
    && (forall b :: b in u <==> b in pred)
    && forall b {:trigger pred[b]} :: b in u ==> pred[b] in u && Depends(steps, pred[b], b)
  }

  /** A non-empty set of steps in which every member depends on a member has a cycle. */
  lemma TrappedImpliesCycle(u: set<int>, start: int, pred: map<int, int>, steps: seq<Step>)
    returns (c: seq<int>)
    requires start in u && Trapped(u, pred, steps)
    ensures Cycle(c, steps) && forall x :: x in c ==> x in u
  {
    var n := |steps|;
    var w := WalkWithin(u, start, pred, steps, n + 2);
    var v := w[..n + 1];
    forall i | 0 <= i < n + 1 ensures 0 <= v[i] < n {
      assert Depends(steps, w[i], w[i + 1]);
    }
    if Distinct(v) { Pigeonhole(v, n); assert false; }
    var i, j :| 0 <= i < j < n + 1 && v[i] == v[j];
    c := w[i..j + 1];
    forall k | 0 <= k < |c| - 1 ensures Depends(steps, c[k], c[k + 1]) {
      assert Depends(steps, w[i + k], w[i + k + 1]);
    }
    assert c[0] == v[i] && c[|c| - 1] == v[j];
  }

  lemma {:induction false} WalkWithin(u: set<int>, start: int, pred: map<int, int>, steps: seq<Step>, len: nat)
    returns (w: seq<int>)
    requires start in u && len > 0 && Trapped(u, pred, steps)
    ensures |w| == len && forall x :: x in w ==> x in u
    ensures forall i :: 0 <= i < len - 1 ==> Depends(steps, w[i], w[i + 1])
  {
    if len == 1 {
      w := [start];
    } else {
      var t := WalkWithin(u, start, pred, steps, len - 1);
      var next := t[0];
      assert next in t;
      w := [pred[next]] + t;
      forall i | 0 <= i < len - 1 ensures Depends(steps, w[i], w[i + 1]) {
        if i > 0 { assert w[i] == t[i - 1] && w[i + 1] == t[i]; }
      }
    }
  }

  // ---- Edges as the loops produce them, with repetitions ---------------------------

  datatype Edge = Edge(source: int, target: int)

  function StepEdges(si: int, deps: seq<int>, n: nat): seq<Edge> {
    if deps == [] then []
    else
      var d := deps[|deps| - 1];
      StepEdges(si, deps[..|deps| - 1], n) + if 0 <= d < n && d != si then [Edge(d, si)] else []
  }

  function Edges(steps: seq<Step>, n: nat): seq<Edge> {
    if steps == [] then []
    else
      var s := steps[|steps| - 1];
      Edges(steps[..|steps| - 1], n)
      + if s.stepIndex.Some? then StepEdges(s.stepIndex.value, s.dependsOn, n) else []
  }

  lemma {:induction false} StepEdgesAre(si: int, deps: seq<int>, n: nat)
    ensures forall a, b :: Edge(a, b) in StepEdges(si, deps, n)
                      <==> b == si && a in deps && 0 <= a < n && a != si
  {
    if deps != [] {
      var m := |deps| - 1;
      StepEdgesAre(si, deps[..m], n);
      assert deps == deps[..m] + [deps[m]];
    }
  }

  lemma {:induction false} EdgesAre(steps: seq<Step>, n: nat)
    ensures forall a, b :: Edge(a, b) in Edges(steps, n) <==> 0 <= a < n && a != b && Names(steps, a, b)
  {
    if steps != [] {
      var m := |steps| - 1;
      var s := steps[m];
      EdgesAre(steps[..m], n);
      if s.stepIndex.Some? { StepEdgesAre(s.stepIndex.value, s.dependsOn, n); }
      forall a, b
        ensures Names(steps, a, b) <==> Names(steps[..m], a, b) || (s.stepIndex == Some(b) && a in s.dependsOn)
      {
        if Names(steps[..m], a, b) {
          var i :| 0 <= i < m && steps[..m][i].stepIndex == Some(b) && a in steps[..m][i].dependsOn;
          assert steps[i].stepIndex == Some(b);
        }
        if Names(steps, a, b) {
          var i :| 0 <= i < |steps| && steps[i].stepIndex == Some(b) && a in steps[i].dependsOn;
          if i < m { assert steps[..m][i] == steps[i]; }
        }
      }
    }
  }

  /** adj[a]: the targets of the edges out of a, in order. */
  function Targets(e: seq<Edge>, a: int): seq<int> {
    if e == [] then []
    else Targets(e[..|e| - 1], a) + if e[|e| - 1].source == a then [e[|e| - 1].target] else []
  }

  /** How many edges into b start outside `done`. */
  function Remaining(e: seq<Edge>, done: seq<int>, b: int): nat {
    if e == [] then 0
    else Remaining(e[..|e| - 1], done, b)
         + if e[|e| - 1].target == b && e[|e| - 1].source !in done then 1 else 0
  }

  lemma {:induction false} RemainingZero(e: seq<Edge>, done: seq<int>, b: int)
    ensures Remaining(e, done, b) == 0 <==> forall a :: Edge(a, b) in e ==> a in done
  {
    if e != [] {
      var m := |e| - 1;
      RemainingZero(e[..m], done, b);
      assert e == e[..m] + [e[m]];
      assert e[m] in e && e[m] == Edge(e[m].source, e[m].target);
      if Remaining(e, done, b) != 0 && Remaining(e[..m], done, b) == 0 {
        assert Edge(e[m].source, b) in e;
      } else if Remaining(e[..m], done, b) != 0 {
        var a :| Edge(a, b) in e[..m] && a !in done;
        assert Edge(a, b) in e;
      }
    }
  }

  /** Executing a step lowers the count of b by the number of edges from the step to b. */
  lemma {:induction false} RemainingDrops(e: seq<Edge>, done: seq<int>, node: int, b: int)
    requires node !in done
    ensures Remaining(e, done + [node], b) == Remaining(e, done, b) - multiset(Targets(e, node))[b]
  {
    if e != [] {
      RemainingDrops(e[..|e| - 1], done, node, b);
    }
  }

  lemma {:induction false} TargetsAre(e: seq<Edge>, a: int, b: int)
    ensures b in Targets(e, a) <==> Edge(a, b) in e
  {
    if e != [] {
      TargetsAre(e[..|e| - 1], a, b);
      assert e == e[..|e| - 1] + [e[|e| - 1]];
    }
  }

  // ---- _topological_sort -----------------------------------------------------------

  /** The adjacency and in-degree tables of edges e over the nodes below n. */
  ghost predicate Tables(e: seq<Edge>, n: nat, adj: map<int, seq<int>>, inDegree: map<int, int>) {
    && (forall x :: x in adj <==> 0 <= x < n)
    && (forall x :: x in inDegree <==> 0 <= x < n)
    && (forall a :: 0 <= a < n ==> adj[a] == Targets(e, a))
    && (forall b :: 0 <= b < n ==> inDegree[b] == Remaining(e, [], b))
    && (forall p :: p in e ==> 0 <= p.source < n && 0 <= p.target < n)
  }

  function NodeSet(n: nat): (s: set<int>)
    ensures forall x :: x in s <==> 0 <= x < n
  {
    if n == 0 then {} else NodeSet(n - 1) + {n - 1}
  }

  lemma TablesExtend(e: seq<Edge>, n: nat, adj: map<int, seq<int>>, inDegree: map<int, int>, a: int, b: int)
    requires Tables(e, n, adj, inDegree) && 0 <= a < n && 0 <= b < n
    ensures Tables(e + [Edge(a, b)], n, adj[a := adj[a] + [b]], inDegree[b := inDegree[b] + 1])
  {
    var f := e + [Edge(a, b)];
    assert f[..|f| - 1] == e;
  }

  /** Enters the dependencies of one step into both tables, or fails on its index. */
  method LinkStep(si: int, deps: seq<int>, n: nat, ghost e: seq<Edge>,
                  adj0: map<int, seq<int>>, inDegree0: map<int, int>)
    returns (ok: bool, adj: map<int, seq<int>>, inDegree: map<int, int>)
    requires Tables(e, n, adj0, inDegree0)
    ensures ok <==> 0 <= si < n || forall d :: d in deps ==> !(0 <= d < n)
    ensures ok ==> Tables(e + StepEdges(si, deps, n), n, adj, inDegree)
  {
    adj, inDegree := adj0, inDegree0;
    assert e + StepEdges(si, deps[..0], n) == e;
    for k := 0 to |deps|
      invariant Tables(e + StepEdges(si, deps[..k], n), n, adj, inDegree)
      invariant 0 <= si < n || forall d :: d in deps[..k] ==> !(0 <= d < n)
    {
      var dep := deps[k];
      ghost var f, adj1, inDegree1 := e + StepEdges(si, deps[..k], n), adj, inDegree;
      assert deps[..k + 1][..k] == deps[..k];
      assert deps[..k + 1] == deps[..k] + [dep];
      if 0 <= dep < n && dep != si {
        adj := adj[dep := adj[dep] + [si]];
        if si !in inDegree {
          assert dep in deps;
          return false, adj, inDegree;
        }
        inDegree := inDegree[si := inDegree[si] + 1];
        assert e + StepEdges(si, deps[..k + 1], n) == f + [Edge(dep, si)];
        TablesExtend(f, n, adj1, inDegree1, dep, si);
      } else {
        assert e + StepEdges(si, deps[..k + 1], n) == f;
      }
    }
    assert deps[..|deps|] == deps;
    ok := true;
  }

  /** One round of the first loop: the dependencies of one step, or KeyError. */
  method EnterStep(step: Step, n: nat, ghost before: seq<Step>, adj0: map<int, seq<int>>, inDegree0: map<int, int>)
    returns (ok: bool, adj: map<int, seq<int>>, inDegree: map<int, int>)
    requires Tables(Edges(before, n), n, adj0, inDegree0)
    ensures ok <==> !Unindexable(step, n)
    ensures ok ==> Tables(Edges(before + [step], n), n, adj, inDegree)
  {
    if step.stepIndex.None? {
      return false, adj0, inDegree0;
    }
    assert (before + [step])[..|before|] == before;
    ok, adj, inDegree := LinkStep(step.stepIndex.value, step.dependsOn, n, Edges(before, n), adj0, inDegree0);
  }

  /** The first half of _topological_sort: both tables, or KeyError. */
  method BuildTables(steps: seq<Step>) returns (ok: bool, adj: map<int, seq<int>>, inDegree: map<int, int>)
    ensures ok <==> forall s :: s in steps ==> !Unindexable(s, |steps|)
    ensures ok ==> Tables(Edges(steps, |steps|), |steps|, adj, inDegree)
  {
    var n := |steps|;
    adj := map i | i in NodeSet(n) :: [];
    inDegree := map i | i in NodeSet(n) :: 0;
    assert Tables([], n, adj, inDegree) && steps[..0] == [];
    for i := 0 to n
      invariant Tables(Edges(steps[..i], n), n, adj, inDegree)
      invariant forall k :: 0 <= k < i ==> !Unindexable(steps[k], n)
    {
      assert steps[..i + 1] == steps[..i] + [steps[i]];
      ok, adj, inDegree := EnterStep(steps[i], n, steps[..i], adj, inDegree);
      if !ok {
        assert steps[i] in steps;
        return;
      }
    }
    assert steps[..n] == steps;
    ok := true;
  }

  /** The queue holds, once each, the ready steps that are not yet executed. */
  ghost predicate Ready(n: nat, done: seq<int>, queue: seq<int>, inDegree: map<int, int>) {
    && Distinct(queue)
    && (forall x :: x in queue ==> 0 <= x < n && x !in done)
    && (forall x :: x in inDegree <==> 0 <= x < n)
    && (forall b :: 0 <= b < n ==> (inDegree[b] == 0 <==> b in done || b in queue))
  }

  /** The in-degree of b counts the edges into b from steps not yet executed. */
  ghost predicate Counted(e: seq<Edge>, n: nat, done: seq<int>, inDegree: map<int, int>) {
    && (forall x :: x in inDegree <==> 0 <= x < n)
    && (forall b :: 0 <= b < n ==> inDegree[b] == Remaining(e, done, b))
  }

  /** Executed steps are distinct and each follows all it depends on. */
  ghost predicate Executed(e: seq<Edge>, n: nat, order: seq<int>) {
    && Distinct(order)
    && (forall x :: x in order ==> 0 <= x < n)
    && forall j, a :: 0 <= j < |order| && Edge(a, order[j]) in e ==> a in order[..j]
  }

  /** In the middle of releasing a step: its first k edges are counted down. */
  ghost predicate Releasing(e: seq<Edge>, n: nat, done: seq<int>, released: seq<int>, inDegree: map<int, int>) {
    && (forall x :: x in inDegree <==> 0 <= x < n)
    && (forall b :: 0 <= b < n ==> inDegree[b] == Remaining(e, done, b) - multiset(released)[b])
  }

  lemma {:induction false} ReleaseNext(e: seq<Edge>, n: nat, done: seq<int>, node: int, k: nat, inDegree: map<int, int>)
    requires forall p :: p in e ==> 0 <= p.source < n && 0 <= p.target < n
    requires node !in done && k < |Targets(e, node)|
    requires Releasing(e, n, done, Targets(e, node)[..k], inDegree)
    ensures var b := Targets(e, node)[k];
            && 0 <= b < n && inDegree[b] >= 1
            && Releasing(e, n, done, Targets(e, node)[..k + 1], inDegree[b := inDegree[b] - 1])
  {
    var targets := Targets(e, node);
    var b := targets[k];
    RemainingDrops(e, done, node, b);
    TargetsAre(e, node, b);
    assert b in targets;
    assert Edge(node, b) in e;
    assert targets[..k + 1] == targets[..k] + [targets[k]];
    assert targets == targets[..k + 1] + targets[k + 1..];
  }

  lemma {:induction false} ReleaseDone(e: seq<Edge>, n: nat, done: seq<int>, node: int, inDegree: map<int, int>)
    requires node !in done && Releasing(e, n, done, Targets(e, node), inDegree)
    ensures Counted(e, n, done + [node], inDegree)
  {
    forall b | 0 <= b < n ensures inDegree[b] == Remaining(e, done + [node], b) {
      RemainingDrops(e, done, node, b);
    }
  }

  lemma CountDown(n: nat, done: seq<int>, queue: seq<int>, inDegree: map<int, int>, b: int)
    requires Ready(n, done, queue, inDegree) && 0 <= b < n && inDegree[b] >= 1
    ensures Ready(n, done, if inDegree[b] == 1 then queue + [b] else queue, inDegree[b := inDegree[b] - 1])
  {
  }

  /** One round of the release loop. */
  method ReleaseEdge(ghost e: seq<Edge>, n: nat, ghost done: seq<int>, ghost node: int, ghost k: nat, nb: int,
                     queue0: seq<int>, inDegree0: map<int, int>)
    returns (queue: seq<int>, inDegree: map<int, int>)
    requires forall p :: p in e ==> 0 <= p.source < n && 0 <= p.target < n
    requires node !in done && k < |Targets(e, node)| && nb == Targets(e, node)[k]
    requires Ready(n, done + [node], queue0, inDegree0) && Releasing(e, n, done, Targets(e, node)[..k], inDegree0)
    ensures Ready(n, done + [node], queue, inDegree) && Releasing(e, n, done, Targets(e, node)[..k + 1], inDegree)
  {
    ReleaseNext(e, n, done, node, k, inDegree0);
    CountDown(n, done + [node], queue0, inDegree0, nb);
    inDegree := inDegree0[nb := inDegree0[nb] - 1];
    queue := if inDegree[nb] == 0 then queue0 + [nb] else queue0;
  }

  /** Counts down the successors of `node` and queues those that became ready. */
  method Release(ghost e: seq<Edge>, n: nat, ghost done: seq<int>, node: int, targets: seq<int>,
                 queue0: seq<int>, inDegree0: map<int, int>)
    returns (queue: seq<int>, inDegree: map<int, int>)
    requires targets == Targets(e, node) && node !in done
    requires forall p :: p in e ==> 0 <= p.source < n && 0 <= p.target < n
    requires Ready(n, done + [node], queue0, inDegree0) && Counted(e, n, done, inDegree0)
    ensures Ready(n, done + [node], queue, inDegree) && Counted(e, n, done + [node], inDegree)
  {
    queue, inDegree := queue0, inDegree0;
    for k := 0 to |targets|
      invariant Ready(n, done + [node], queue, inDegree)
      invariant Releasing(e, n, done, Targets(e, node)[..k], inDegree)
    {
      queue, inDegree := ReleaseEdge(e, n, done, node, k, targets[k], queue, inDegree);
    }
    assert Targets(e, node)[..|targets|] == Targets(e, node);
    ReleaseDone(e, n, done, node, inDegree);
  }

  lemma {:induction false} ExecuteNext(e: seq<Edge>, n: nat, order: seq<int>, node: int)
    requires Executed(e, n, order) && 0 <= node < n && node !in order
    requires Remaining(e, order, node) == 0
    ensures Executed(e, n, order + [node])
  {
    RemainingZero(e, order, node);
    var next := order + [node];
    forall j, a | 0 <= j < |next| && Edge(a, next[j]) in e ensures a in next[..j] {
      if j < |order| {
        assert Edge(a, order[j]) in e && next[..j] == order[..j];
      } else {
        assert next[..j] == order;
      }
    }
  }

  /** The dependency graph has an execution order, or it has a cycle; KeyError exactly when
      some step cannot be indexed. */
  method TopologicalSort(steps: seq<Step>) returns (r: Option<bool>)
    ensures r.None? <==> exists s :: s in steps && Unindexable(s, |steps|)
    ensures r.Some? ==> (r.value <==> exists order :: Schedule(order, steps))
    ensures r.Some? ==> (!r.value <==> exists c :: Cycle(c, steps))
  {
    var n := |steps|;
    var ok, adj, inDegree := BuildTables(steps);
    if !ok { return None; }
    ghost var e := Edges(steps, n);
    var queue := ReadyNodes(n, inDegree);
    ghost var order: seq<int> := [];
    var visited := 0;
    while queue != []
      invariant Executed(e, n, order)
      invariant Ready(n, order, queue, inDegree) && Counted(e, n, order, inDegree)
      invariant visited == |order| <= n
      decreases n - visited
    {
      var node := queue[0];
      assert node in queue;
      ExecuteNext(e, n, order, node);
      PopReady(n, order, queue, inDegree);
      queue := queue[1..];
      visited := visited + 1;
      Pigeonhole(order + [node], n);
      queue, inDegree := Release(e, n, order, node, adj[node], queue, inDegree);
      order := order + [node];
    }
    if visited == n {
      CompleteOrder(steps, order);
    } else {
      UnvisitedTrapped(steps, order, inDegree);
    }
    r := Some(visited == n);
  }

  lemma PopReady(n: nat, done: seq<int>, queue: seq<int>, inDegree: map<int, int>)
    requires Ready(n, done, queue, inDegree) && queue != []
    ensures Ready(n, done + [queue[0]], queue[1..], inDegree)
  {
    var head, rest := queue[0], queue[1..];
    assert queue == [head] + rest;
    assert head in queue && head !in rest;
    forall x ensures x in queue <==> x == head || x in rest {}
    forall x ensures x in done + [head] <==> x in done || x == head {}
  }

  method ReadyNodes(n: nat, inDegree: map<int, int>) returns (queue: seq<int>)
    requires forall x :: x in inDegree <==> 0 <= x < n
    ensures Ready(n, [], queue, inDegree)
  {
    queue := [];
    for i := 0 to n
      invariant Distinct(queue)
      invariant forall b :: b in queue <==> 0 <= b < i && inDegree[b] == 0
    {
      assert i !in queue;
      if inDegree[i] == 0 { queue := queue + [i]; }
    }
  }

  lemma {:induction false} CompleteOrder(steps: seq<Step>, order: seq<int>)
    requires Executed(Edges(steps, |steps|), |steps|, order) && |order| == |steps|
    ensures Schedule(order, steps)
    ensures !exists c :: Cycle(c, steps)
  {
    EdgesAre(steps, |steps|);
    forall j, a | 0 <= j < |order| && Depends(steps, a, order[j]) ensures a in order[..j] {
      assert Edge(a, order[j]) in Edges(steps, |steps|);
    }
    forall c | Cycle(c, steps) ensures false { ScheduleExcludesCycle(order, c, steps); }
  }

  /** An unexecuted step that b still waits for. */
  ghost function Blocker(e: seq<Edge>, done: seq<int>, b: int): (a: int)
    requires Remaining(e, done, b) != 0
    ensures Edge(a, b) in e && a !in done
  {
    RemainingZero(e, done, b);
    var a :| Edge(a, b) in e && a !in done;
    a
  }

  /** When the queue runs dry early, the steps never visited contain a cycle. */
  lemma {:induction false} UnvisitedTrapped(steps: seq<Step>, order: seq<int>, inDegree: map<int, int>)
    requires forall p :: p in Edges(steps, |steps|) ==> 0 <= p.source < |steps| && 0 <= p.target < |steps|
    requires Executed(Edges(steps, |steps|), |steps|, order) && |order| < |steps|
    requires Ready(|steps|, order, [], inDegree) && Counted(Edges(steps, |steps|), |steps|, order, inDegree)
    ensures exists c :: Cycle(c, steps) && forall x :: x in c ==> x !in order
    ensures !exists other :: Schedule(other, steps)
  {
    var n := |steps|;
    var e := Edges(steps, n);
    EdgesAre(steps, n);
    var u, start := Unvisited(order, n);
    forall b | b in u ensures Remaining(e, order, b) != 0 {}
    var pred := map b | b in u :: Blocker(e, order, b);
    forall b {:trigger pred[b]} | b in u ensures pred[b] in u && Depends(steps, pred[b], b) {
      assert 0 <= Edge(pred[b], b).source < n;
    }
    var c := TrappedImpliesCycle(u, start, pred, steps);
    forall other | Schedule(other, steps) ensures false {
      ScheduleExcludesCycle(other, c, steps);
    }
  }

  lemma Unvisited(order: seq<int>, n: nat) returns (u: set<int>, start: int)
    requires |order| < n
    ensures start in u && forall x :: x in u <==> 0 <= x < n && x !in order
  {
    u := set x | x in Elements(Range(n)) && x !in order;
    RangeElements(n);
    DistinctSize(order);
    if forall x :: x in Elements(Range(n)) ==> x in order {
      assert Elements(Range(n)) <= Elements(order);
      SubsetSize(Elements(Range(n)), Elements(order));
      assert false;
    }
    start :| start in Elements(Range(n)) && start !in order;
  }

  // ---- validate_agent_plan ---------------------------------------------------------

  /** step.get("step_index", -1) */
  function Index(step: Step): int {
    if step.stepIndex.Some? then step.stepIndex.value else -1
  }

  function Indices(steps: seq<Step>): seq<int> {
    seq(|steps|, i requires 0 <= i < |steps| => Index(steps[i]))
  }

  predicate IntLeq(a: int, b: int) { a <= b }

  predicate HasSideEffects(step: Step) {
    step.proposesTool || step.riskTier in SIDE_EFFECT_RISK_TIERS
  }

  /** What is asked of one step, apart from its place in the graph. */
  predicate StepDeclared(step: Step) {
    && step.hasIntent
    && (step.proposesTool ==> step.requiresHumanApproval)
    && step.forbidsAutonomousExecution
    && (step.riskTier == "" || step.riskTier in VALID_RISK_TIERS)
    && step.expectedResult.Some? && step.expectedResult.value in VALID_RESULT_TYPES
  }

  predicate HeaderDeclared(plan: Plan, planIdFormat: string -> bool) {
    && plan.typeName == "agent_plan"
    && plan.planId != "" && planIdFormat(plan.planId)
    && plan.sessionRef != ""
    && plan.steps != []
    && |plan.steps| <= (if plan.maxSteps.Some? then plan.maxSteps.value else 64)
    && plan.requiresStepApproval
    && ((plan.forbidsParallelExecution.Some? && !plan.forbidsParallelExecution.value)
        ==> forall s :: s in plan.steps ==> !HasSideEffects(s))
    && plan.privatePaths == []
  }

  /** The plans that deserve acceptance: the indices are a permutation of 0 .. n-1, every
      dependency names a step, and the steps can be executed in some order. */
  ghost predicate Acceptable(plan: Plan, planIdFormat: string -> bool) {
    && HeaderDeclared(plan, planIdFormat)
    && (forall s :: s in plan.steps ==> StepDeclared(s))
    && (forall s :: s in plan.steps ==> 0 <= Index(s) < |plan.steps|)
    && Distinct(Indices(plan.steps))
    && (forall s, d :: s in plan.steps && d in s.dependsOn ==> 0 <= d < |plan.steps|)
    && exists order :: Schedule(order, plan.steps)
  }

  ghost predicate Repeats(s: seq<int>, x: int) {
    exists i, j :: 0 <= i < j < |s| && s[i] == x && s[j] == x
  }

  method CheckDuplicates(indices: seq<int>) returns (errors: seq<Code>)
    ensures forall c :: c in errors <==> c.DuplicateStepIndex? && Repeats(indices, c.index)
  {
    errors := [];
    var seen: set<int> := {};
    for k := 0 to |indices|
      invariant forall x :: x in seen <==> x in indices[..k]
      invariant forall c :: c in errors <==> c.DuplicateStepIndex? && Repeats(indices[..k], c.index)
    {
      var idx := indices[k];
      var before, after := indices[..k], indices[..k + 1];
      assert after == before + [idx];
      forall x ensures Repeats(after, x) <==> Repeats(before, x) || (x == idx && x in before) {
        if Repeats(before, x) {
          var i, j :| 0 <= i < j < k && before[i] == x && before[j] == x;
          assert after[i] == x && after[j] == x;
        }
        if x == idx && x in before {
          var i :| 0 <= i < k && before[i] == x;
          assert after[i] == x && after[k] == x;
        }
      }
      if idx in seen { errors := errors + [DuplicateStepIndex(idx)]; }
      seen := seen + {idx};
    }
    assert indices[..|indices|] == indices;
  }

  lemma RepeatsOrDistinct(s: seq<int>)
    ensures Distinct(s) <==> forall x :: !Repeats(s, x)
  {
    if !Distinct(s) {
      var i, j :| 0 <= i < j < |s| && s[i] == s[j];
      assert Repeats(s, s[i]);
    }
  }

  /** A list that sorts to 0 .. n-1 repeats nothing, so skipping the duplicate check is safe. */
  lemma {:induction false} SortedRangeIsDistinct(indices: seq<int>)
    requires SortBy(indices, IntLeq) == Range(|indices|)
    ensures Distinct(indices)
  {
    SortMembers(indices, IntLeq);
    RangeElements(|indices|);
    assert Elements(indices) == Elements(Range(|indices|));
    DistinctSize(indices);
  }

  // ---- What each error means -------------------------------------------------------

  predicate IdentityFault(plan: Plan, planIdFormat: string -> bool, c: Code) {
    match c
    case InvalidType => plan.typeName != "agent_plan"
    case MissingPlanId => plan.planId == ""
    case InvalidPlanIdFormat => plan.planId != "" && !planIdFormat(plan.planId)
    case MissingSessionRef => plan.sessionRef == ""
    case _ => false
  }

  function StepLimit(plan: Plan): int {
    if plan.maxSteps.Some? then plan.maxSteps.value else 64
  }

  predicate SafetyFault(plan: Plan, c: Code) {
    match c
    case MaxStepsExceeded => |plan.steps| > StepLimit(plan)
    case PlanApprovalNotRequired => !plan.requiresStepApproval
    case PlanParallelWithSideEffects =>
      plan.forbidsParallelExecution == Some(false) && exists s :: s in plan.steps && HasSideEffects(s)
    case _ => false
  }

  /** Why a step is faulted for its place in the graph. */
  predicate Misplaced(c: Code, step: Step, n: nat, known: seq<int>) {
    || (c == StepIndexOutOfRange(Index(step)) && !(0 <= Index(step) < n))
    || (c.InvalidDependsOn? && c.index == Index(step) && c.dependency in step.dependsOn && c.dependency !in known)
  }

  /** ... and for what it declares. */
  predicate Misdeclared(c: Code, step: Step) {
    match c
    case MissingStepIntent(k) => k == Index(step) && !step.hasIntent
    case StepApprovalNotRequired(k) => k == Index(step) && step.proposesTool && !step.requiresHumanApproval
    case StepAutonomousAllowed(k) => k == Index(step) && !step.forbidsAutonomousExecution
    case InvalidRiskTier(k) => k == Index(step) && step.riskTier != "" && step.riskTier !in VALID_RISK_TIERS
    case MissingExpectedResult(k) => k == Index(step) && step.expectedResult.None?
    case InvalidResultType(k) =>
      k == Index(step) && step.expectedResult.Some? && step.expectedResult.value !in VALID_RESULT_TYPES
    case _ => false
  }

  predicate StepFault(c: Code, step: Step, n: nat, known: seq<int>) {
    Misplaced(c, step, n, known) || Misdeclared(c, step)
  }

  ghost predicate StepsFault(steps: seq<Step>, c: Code) {
    exists i :: 0 <= i < |steps| && StepFault(c, steps[i], |steps|, Indices(steps))
  }

  /** Why a plan is rejected; a plan without steps is not looked at further. */
  ghost predicate PlanFault(plan: Plan, planIdFormat: string -> bool, c: Code) {
    || IdentityFault(plan, planIdFormat, c)
    || (if plan.steps == [] then c == EmptySteps
        else
          || SafetyFault(plan, c)
          || (c.DuplicateStepIndex? && Repeats(Indices(plan.steps), c.index))
          || StepsFault(plan.steps, c)
          || (c == CircularDependency && exists w :: Cycle(w, plan.steps))
          || (c.PrivatePathDetected? && c.field in plan.privatePaths))
  }

  /** validate_agent_plan raises KeyError instead of reporting errors. */
  ghost predicate RaisesKeyError(plan: Plan) {
    exists s :: s in plan.steps && Unindexable(s, |plan.steps|)
  }

  // ---- The checks ------------------------------------------------------------------

  method CheckDeclared(step: Step) returns (errors: seq<Code>)
    ensures forall c :: c in errors <==> Misdeclared(c, step)
  {
    var si := Index(step);
    errors := [];
    if !step.hasIntent { errors := errors + [MissingStepIntent(si)]; }
    if step.proposesTool && !step.requiresHumanApproval { errors := errors + [StepApprovalNotRequired(si)]; }
    if !step.forbidsAutonomousExecution { errors := errors + [StepAutonomousAllowed(si)]; }
    if step.riskTier != "" && step.riskTier !in VALID_RISK_TIERS { errors := errors + [InvalidRiskTier(si)]; }
    if step.expectedResult.None? {
      errors := errors + [MissingExpectedResult(si)];
    } else if step.expectedResult.value !in VALID_RESULT_TYPES {
      errors := errors + [InvalidResultType(si)];
    }
  }

  method CheckStep(step: Step, n: nat, known: seq<int>) returns (errors: seq<Code>)
    ensures forall c :: c in errors <==> StepFault(c, step, n, known)
  {
    var si := Index(step);
    var range := if si < 0 || si >= n then [StepIndexOutOfRange(si)] else [];
    var declared := CheckDeclared(step);
    var references := CheckReferences(step, known);
    errors := range + declared + references;
  }

  method CheckReferences(step: Step, known: seq<int>) returns (errors: seq<Code>)
    ensures forall c :: c in errors <==> c.InvalidDependsOn? && c.index == Index(step)
                                         && c.dependency in step.dependsOn && c.dependency !in known
  {
    errors := [];
    var deps := step.dependsOn;
    for k := 0 to |deps|
      invariant forall c :: c in errors <==> c.InvalidDependsOn? && c.index == Index(step)
                                             && c.dependency in deps[..k] && c.dependency !in known
    {
      var dep := deps[k];
      assert deps[..k + 1] == deps[..k] + [dep];
      if dep !in known { errors := errors + [InvalidDependsOn(Index(step), dep)]; }
    }
    assert deps[..|deps|] == deps;
  }

  /** The per-step loop of validate_agent_plan. */
  method CheckSteps(steps: seq<Step>, known: seq<int>) returns (errors: seq<Code>)
    ensures forall c :: c in errors <==> exists i :: 0 <= i < |steps| && StepFault(c, steps[i], |steps|, known)
  {
    errors := [];
    for k := 0 to |steps|
      invariant forall c :: c in errors <==> exists i :: 0 <= i < k && StepFault(c, steps[i], |steps|, known)
    {
      var more := CheckStep(steps[k], |steps|, known);
      ghost var before := errors;
      errors := errors + more;
      assert forall c :: c in errors <==> c in before || StepFault(c, steps[k], |steps|, known);
    }
  }

  method CheckIdentity(plan: Plan, planIdFormat: string -> bool) returns (errors: seq<Code>)
    ensures forall c :: c in errors <==> IdentityFault(plan, planIdFormat, c)
  {
    errors := [];
    if plan.typeName != "agent_plan" { errors := errors + [InvalidType]; }
    if plan.planId == "" {
      errors := errors + [MissingPlanId];
    } else if !planIdFormat(plan.planId) {
      errors := errors + [InvalidPlanIdFormat];
    }
    if plan.sessionRef == "" { errors := errors + [MissingSessionRef]; }
  }

  method CheckSafety(plan: Plan) returns (errors: seq<Code>)
    ensures forall c :: c in errors <==> SafetyFault(plan, c)
  {
    errors := [];
    if |plan.steps| > StepLimit(plan) { errors := errors + [MaxStepsExceeded]; }
    if !plan.requiresStepApproval { errors := errors + [PlanApprovalNotRequired]; }
    if plan.forbidsParallelExecution == Some(false) {
      if exists s :: s in plan.steps && HasSideEffects(s) {
        errors := errors + [PlanParallelWithSideEffects];
      }
    }
  }

  /** The checks of the graph and of what each step declares; None is the KeyError. */
  method CheckGraph(steps: seq<Step>) returns (r: Option<seq<Code>>)
    ensures r.None? <==> exists s :: s in steps && Unindexable(s, |steps|)
    ensures r.Some? ==> ((exists order :: Schedule(order, steps)) <==> !exists w :: Cycle(w, steps))
    ensures r.Some? ==> forall c :: c in r.value <==>
              || (c.DuplicateStepIndex? && Repeats(Indices(steps), c.index))
              || StepsFault(steps, c)
              || (c == CircularDependency && exists w :: Cycle(w, steps))
  {
    var indices := Indices(steps);
    var duplicates: seq<Code> := [];
    if SortBy(indices, IntLeq) != Range(|steps|) {
      duplicates := CheckDuplicates(indices);
    } else {
      SortedRangeIsDistinct(indices);
    }
    RepeatsOrDistinct(indices);
    var perStep := CheckSteps(steps, indices);
    var acyclic := TopologicalSort(steps);
    if acyclic.None? { return None; }
    var cyclic := if acyclic.value then [] else [CircularDependency];
    r := Some(duplicates + perStep + cyclic);
  }

  /** validate_agent_plan: its errors, each exactly when its cause is present, or the KeyError of the
      cycle check. */
  method ValidateAgentPlan(plan: Plan, planIdFormat: string -> bool) returns (r: Result<seq<Code>, ()>)
    ensures r.Raised? <==> RaisesKeyError(plan)
    ensures r.Ok? ==> forall c :: c in r.value <==> PlanFault(plan, planIdFormat, c)
    ensures r == Ok([]) <==> Acceptable(plan, planIdFormat)
    ensures r == Ok([]) <==> PlanSays(plan, planIdFormat)
    ensures r.Ok? ==> forall c :: c in r.value <==> PlanCauses(plan, planIdFormat, c)
  {
    AcceptableIff(plan, planIdFormat);
    forall c ensures PlanFault(plan, planIdFormat, c) <==> PlanCauses(plan, planIdFormat, c) {
      PlanFaultIff(plan, planIdFormat, c);
    }
    var identity := CheckIdentity(plan, planIdFormat);
    if plan.steps == [] {
      return Ok(identity + [EmptySteps]);
    }
    var safety := CheckSafety(plan);
    var graph := CheckGraph(plan.steps);
    if graph.None? {
      return Raised(());
    }
    var scanned := PrivatePathErrors(plan.privatePaths);
    r := Ok(identity + safety + graph.value + scanned);
    FaultlessIffAcceptable(plan, planIdFormat);
    if r != Ok([]) { assert r.value[0] in r.value; }
  }

  function PrivatePathErrors(paths: seq<string>): (r: seq<Code>)
    ensures forall c :: c in r <==> c.PrivatePathDetected? && c.field in paths
  {
    var r := seq(|paths|, i requires 0 <= i < |paths| => PrivatePathDetected(paths[i]));
    assert forall i :: 0 <= i < |paths| ==> r[i].field == paths[i];
    r
  }

  // ---- A plan without faults is acceptable -----------------------------------------

  lemma FaultlessHeader(plan: Plan, planIdFormat: string -> bool)
    requires plan.steps != []
    ensures (forall c :: !IdentityFault(plan, planIdFormat, c) && !SafetyFault(plan, c)) && plan.privatePaths == []
            <==> HeaderDeclared(plan, planIdFormat)
  {
    if forall c :: !IdentityFault(plan, planIdFormat, c) && !SafetyFault(plan, c) {
      assert !IdentityFault(plan, planIdFormat, InvalidType) && !IdentityFault(plan, planIdFormat, MissingPlanId);
      assert !IdentityFault(plan, planIdFormat, InvalidPlanIdFormat);
      assert !IdentityFault(plan, planIdFormat, MissingSessionRef);
      assert !SafetyFault(plan, MaxStepsExceeded) && !SafetyFault(plan, PlanApprovalNotRequired);
      assert !SafetyFault(plan, PlanParallelWithSideEffects);
    }
  }

  lemma FaultlessStep(step: Step)
    ensures (forall c :: !Misdeclared(c, step)) <==> StepDeclared(step)
  {
    var k := Index(step);
    if forall c :: !Misdeclared(c, step) {
      assert !Misdeclared(MissingStepIntent(k), step) && !Misdeclared(StepApprovalNotRequired(k), step);
      assert !Misdeclared(StepAutonomousAllowed(k), step) && !Misdeclared(InvalidRiskTier(k), step);
      assert !Misdeclared(MissingExpectedResult(k), step) && !Misdeclared(InvalidResultType(k), step);
    }
  }

  /** The range and reference checks, given that no index repeats: the indices are then a permutation of
      0 .. n-1, so the set of indices that dependencies are checked against is 0 .. n-1. */
  lemma FaultlessSteps(steps: seq<Step>)
    requires Distinct(Indices(steps))
    ensures (forall c :: !StepsFault(steps, c))
            <==> && (forall s :: s in steps ==> StepDeclared(s) && 0 <= Index(s) < |steps|)
                 && (forall s, d :: s in steps && d in s.dependsOn ==> 0 <= d < |steps|)
  {
    var n, known := |steps|, Indices(steps);
    if forall c :: !StepsFault(steps, c) {
      forall i | 0 <= i < n ensures StepDeclared(steps[i]) && 0 <= Index(steps[i]) < n {
        assert !StepsFault(steps, StepIndexOutOfRange(Index(steps[i])));
        assert !Misplaced(StepIndexOutOfRange(Index(steps[i])), steps[i], n, known);
        forall c ensures !Misdeclared(c, steps[i]) {
          assert !StepsFault(steps, c) && !StepFault(c, steps[i], n, known);
        }
        FaultlessStep(steps[i]);
      }
      forall i, d | 0 <= i < n && d in steps[i].dependsOn ensures 0 <= d < n {
        var fault := InvalidDependsOn(Index(steps[i]), d);
        assert !StepsFault(steps, fault) && !StepFault(fault, steps[i], n, known);
        var k := IndexOf(known, d);
        assert Index(steps[k]) == d;
      }
    } else if (forall s :: s in steps ==> StepDeclared(s) && 0 <= Index(s) < n)
              && forall s, d :: s in steps && d in s.dependsOn ==> 0 <= d < n {
      var c :| StepsFault(steps, c);
      var i :| 0 <= i < n && StepFault(c, steps[i], n, known);
      assert steps[i] in steps;
      FaultlessStep(steps[i]);
      forall k | 0 <= k < n ensures 0 <= known[k] < n { assert steps[k] in steps; }
      Pigeonhole(known, n);
      assert false;
    }
  }

  /** The error list is empty exactly for acceptable plans. */
  lemma FaultlessIffAcceptable(plan: Plan, planIdFormat: string -> bool)
    requires !RaisesKeyError(plan) && plan.steps != []
    requires (exists order :: Schedule(order, plan.steps)) <==> !exists w :: Cycle(w, plan.steps)
    ensures (forall c :: !PlanFault(plan, planIdFormat, c)) <==> Acceptable(plan, planIdFormat)
  {
    var steps := plan.steps;
    RepeatsOrDistinct(Indices(steps));
    FaultlessHeader(plan, planIdFormat);
    if forall c :: !PlanFault(plan, planIdFormat, c) {
      forall c ensures !IdentityFault(plan, planIdFormat, c) && !SafetyFault(plan, c) && !StepsFault(steps, c) {
        assert !PlanFault(plan, planIdFormat, c);
      }
      forall x ensures !Repeats(Indices(steps), x) { assert !PlanFault(plan, planIdFormat, DuplicateStepIndex(x)); }
      assert !PlanFault(plan, planIdFormat, CircularDependency);
      if plan.privatePaths != [] {
        assert PlanFault(plan, planIdFormat, PrivatePathDetected(plan.privatePaths[0]));
      }
      FaultlessSteps(steps);
    }
    if Acceptable(plan, planIdFormat) {
      FaultlessSteps(steps);
      forall c ensures !PlanFault(plan, planIdFormat, c) {}
    }
  }

  /** The KeyError does happen: a single step with index 1 that depends on step 0 is only out of range,
      and yet no error is reported. */
  lemma KeyErrorHappens(planIdFormat: string -> bool)
    requires planIdFormat("agent_plan:a.b.v1")
    ensures var step := Step(Some(1), [0], true, false, false, true, "", Some("proposal_only"));
            var plan := Plan("agent_plan", "agent_plan:a.b.v1", "s", [step], None, true, None, []);
            && HeaderDeclared(plan, planIdFormat) && StepDeclared(step)
            && PlanFault(plan, planIdFormat, StepIndexOutOfRange(1)) && RaisesKeyError(plan)
  {
    var step := Step(Some(1), [0], true, false, false, true, "", Some("proposal_only"));
    var plan := Plan("agent_plan", "agent_plan:a.b.v1", "s", [step], None, true, None, []);
    assert plan.steps[0] == step && step in plan.steps;
    assert step.dependsOn[0] == 0 && 0 in step.dependsOn;
    assert Unindexable(step, 1);
    assert StepFault(StepIndexOutOfRange(1), plan.steps[0], 1, Indices(plan.steps));
    assert StepsFault(plan.steps, StepIndexOutOfRange(1));
  }

  /** Where the step with a given index stands in an accepted plan. */
  lemma StepWithIndex(plan: Plan, planIdFormat: string -> bool, x: int) returns (k: nat)
    requires Acceptable(plan, planIdFormat) && 0 <= x < |plan.steps|
    ensures k < |plan.steps| && plan.steps[k].stepIndex == Some(x)
  {
    var ix := Indices(plan.steps);
    forall i | 0 <= i < |ix| ensures 0 <= ix[i] < |plan.steps| { assert plan.steps[i] in plan.steps; }
    Pigeonhole(ix, |plan.steps|);
    k := IndexOf(ix, x);
  }

  /** The positions of all steps, in an order in which each step comes after every other
      step it depends on. */
  ghost predicate Execution(run: seq<nat>, steps: seq<Step>) {
    && |run| == |steps| && Distinct(run)
    && (forall j :: 0 <= j < |run| ==> run[j] < |steps|)
    && forall j, d :: 0 <= j < |run| && d in steps[run[j]].dependsOn && Some(d) != steps[run[j]].stepIndex
         ==> exists i :: 0 <= i < j && steps[run[i]].stepIndex == Some(d)
  }

  /** An accepted plan can be executed: not only its indices but its steps themselves, all of
      them, each once, can be put in an order that respects every dependency. */
  lemma AcceptedPlansExecute(plan: Plan, planIdFormat: string -> bool) returns (run: seq<nat>)
    requires Acceptable(plan, planIdFormat)
    ensures Execution(run, plan.steps)
  {
    var steps := plan.steps;
    var order :| Schedule(order, steps);
    forall i | 0 <= i < |order| ensures 0 <= order[i] < |steps| {
      var x := order[i];
      assert x in order;
    }
    run := PositionsOf(plan, planIdFormat, order);
    forall j, d | 0 <= j < |run| && d in steps[run[j]].dependsOn && Some(d) != steps[run[j]].stepIndex
      ensures exists i :: 0 <= i < j && steps[run[i]].stepIndex == Some(d)
    {
      assert steps[run[j]] in steps;
      assert Depends(steps, d, order[j]);
      var i :| 0 <= i < j && order[..j][i] == d;
      assert steps[run[i]].stepIndex == Some(d);
    }
    forall i, j | 0 <= i < j < |run| ensures run[i] != run[j] {
      assert steps[run[i]].stepIndex == Some(order[i]);
      assert steps[run[j]].stepIndex == Some(order[j]);
    }
  }

  lemma {:induction false} PositionsOf(plan: Plan, planIdFormat: string -> bool, order: seq<int>)
    returns (run: seq<nat>)
    requires Acceptable(plan, planIdFormat)
    requires forall i :: 0 <= i < |order| ==> 0 <= order[i] < |plan.steps|
    ensures |run| == |order|
    ensures forall j :: 0 <= j < |run| ==> run[j] < |plan.steps| && plan.steps[run[j]].stepIndex == Some(order[j])
  {
    run := [];
    if order != [] {
      var k := StepWithIndex(plan, planIdFormat, order[0]);
      var rest := PositionsOf(plan, planIdFormat, order[1..]);
      run := [k] + rest;
    }
  }

  // ---- Acceptance and errors, read off the plan ------------------------------------

  /** What a step must declare. */
  predicate StepSays(s: Step) {
    && s.hasIntent && (s.proposesTool ==> s.requiresHumanApproval) && s.forbidsAutonomousExecution
    && s.riskTier in ["", "none", "low", "medium", "high"]
    && s.expectedResult.Some?
    && s.expectedResult.value in ["proposal_only", "read_result", "approval_record", "escalation_record"]
  }

  predicate ActsOutside(s: Step) { s.proposesTool || s.riskTier in ["low", "medium", "high"] }

  /** A plan that deserves acceptance, without reference to how it is checked. */
  ghost predicate PlanSays(plan: Plan, planIdFormat: string -> bool) {
    var steps, n := plan.steps, |plan.steps|;
    && plan.typeName == "agent_plan" && plan.planId != "" && planIdFormat(plan.planId) && plan.sessionRef != ""
    && 0 < n <= (match plan.maxSteps case None => 64 case Some(most) => most)
    && plan.requiresStepApproval && plan.privatePaths == []
    && (plan.forbidsParallelExecution == Some(false) ==> forall s :: s in steps ==> !ActsOutside(s))
    && (forall s :: s in steps ==> StepSays(s) && s.stepIndex.Some? && 0 <= s.stepIndex.value < n)
    && (forall i, j :: 0 <= i < j < n ==> steps[i].stepIndex != steps[j].stepIndex)
    && (forall s, d :: s in steps && d in s.dependsOn ==> 0 <= d < n)
    && exists run :: Execution(run, steps)
  }

  /** The steps of an execution, by their indices, are a schedule. */
  lemma ExecutionSchedules(run: seq<nat>, steps: seq<Step>) returns (order: seq<int>)
    requires Execution(run, steps)
    requires forall s :: s in steps ==> s.stepIndex.Some? && 0 <= s.stepIndex.value < |steps|
    requires forall i, j :: 0 <= i < j < |steps| ==> steps[i].stepIndex != steps[j].stepIndex
    ensures Schedule(order, steps)
  {
    forall i | 0 <= i < |steps| ensures steps[i].stepIndex.Some? { assert steps[i] in steps; }
    order := seq(|run|, j requires 0 <= j < |run| => steps[run[j]].stepIndex.value);
    forall i, j | 0 <= i < j < |order| ensures order[i] != order[j] {
      assert run[i] != run[j];
      assert steps[run[i]].stepIndex != steps[run[j]].stepIndex;
    }
    forall x | x in order ensures 0 <= x < |steps| {
      var j := IndexOf(order, x);
      assert steps[run[j]] in steps;
    }
    forall j, a | 0 <= j < |order| && Depends(steps, a, order[j]) ensures a in order[..j] {
      var i :| 0 <= i < |steps| && steps[i].stepIndex == Some(order[j]) && a in steps[i].dependsOn;
      assert steps[i].stepIndex == steps[run[j]].stepIndex;
      assert i == run[j];
      var k :| 0 <= k < j && steps[run[k]].stepIndex == Some(a);
      assert order[..j][k] == a;
    }
  }

  lemma StepDeclaredIff(s: Step)
    ensures StepDeclared(s) <==> StepSays(s)
    ensures HasSideEffects(s) <==> ActsOutside(s)
  {
    assert VALID_RISK_TIERS == {"none", "low", "medium", "high"} && SIDE_EFFECT_RISK_TIERS == {"low", "medium", "high"};
    assert VALID_RESULT_TYPES == {"proposal_only", "read_result", "approval_record", "escalation_record"};
  }

  /** The indices lie in range and none repeats. */
  lemma IndicesIff(steps: seq<Step>)
    ensures (forall s :: s in steps ==> 0 <= Index(s) < |steps|) && Distinct(Indices(steps))
            <==> && (forall s :: s in steps ==> s.stepIndex.Some? && 0 <= s.stepIndex.value < |steps|)
                 && forall i, j :: 0 <= i < j < |steps| ==> steps[i].stepIndex != steps[j].stepIndex
  {
    if (forall s :: s in steps ==> 0 <= Index(s) < |steps|) && Distinct(Indices(steps)) {
      forall i, j | 0 <= i < j < |steps| ensures steps[i].stepIndex != steps[j].stepIndex {
        assert Indices(steps)[i] != Indices(steps)[j];
      }
    }
    if && (forall s :: s in steps ==> s.stepIndex.Some? && 0 <= s.stepIndex.value < |steps|)
       && forall i, j :: 0 <= i < j < |steps| ==> steps[i].stepIndex != steps[j].stepIndex {
      forall i, j | 0 <= i < j < |steps| ensures Indices(steps)[i] != Indices(steps)[j] {
        assert steps[i] in steps && steps[j] in steps;
      }
    }
  }

  /** Exactly the plans that say so are acceptable. */
  lemma AcceptableIff(plan: Plan, planIdFormat: string -> bool)
    ensures Acceptable(plan, planIdFormat) <==> PlanSays(plan, planIdFormat)
  {
    forall s ensures StepDeclared(s) <==> StepSays(s) { StepDeclaredIff(s); }
    forall s ensures HasSideEffects(s) <==> ActsOutside(s) { StepDeclaredIff(s); }
    IndicesIff(plan.steps);
    if Acceptable(plan, planIdFormat) { var run := AcceptedPlansExecute(plan, planIdFormat); }
    if PlanSays(plan, planIdFormat) {
      var run :| Execution(run, plan.steps);
      var order := ExecutionSchedules(run, plan.steps);
    }
  }

  /** The step has this index, or none at all and the index is -1. */
  predicate Numbered(s: Step, x: int) {
    s.stepIndex == Some(x) || (s.stepIndex == None && x == -1)
  }

  /** What each error says about the plan. */
  ghost predicate PlanCauses(plan: Plan, planIdFormat: string -> bool, c: Code) {
    var steps := plan.steps;
    match c
    case InvalidType => plan.typeName != "agent_plan"
    case MissingPlanId => plan.planId == ""
    case InvalidPlanIdFormat => plan.planId != "" && !planIdFormat(plan.planId)
    case MissingSessionRef => plan.sessionRef == ""
    case EmptySteps => steps == []
    case MaxStepsExceeded => steps != [] && |steps| > (match plan.maxSteps case None => 64 case Some(most) => most)
    case PlanApprovalNotRequired => steps != [] && !plan.requiresStepApproval
    case PlanParallelWithSideEffects =>
      plan.forbidsParallelExecution == Some(false) && exists s :: s in steps && ActsOutside(s)
    case DuplicateStepIndex(x) =>
      exists i, j :: 0 <= i < j < |steps| && Numbered(steps[i], x) && Numbered(steps[j], x)
    case CircularDependency => exists w :: Cycle(w, steps)
    case PrivatePathDetected(field) => steps != [] && field in plan.privatePaths
    case _ => exists i :: 0 <= i < |steps| && StepCause(c, steps[i], steps)
  }

  /** The step, one of these, has this fault. */
  ghost predicate StepCause(c: Code, s: Step, steps: seq<Step>) {
    match c
    case StepIndexOutOfRange(x) => Numbered(s, x) && !(0 <= x < |steps|)
    case MissingStepIntent(x) => Numbered(s, x) && !s.hasIntent
    case StepApprovalNotRequired(x) => Numbered(s, x) && s.proposesTool && !s.requiresHumanApproval
    case StepAutonomousAllowed(x) => Numbered(s, x) && !s.forbidsAutonomousExecution
    case InvalidRiskTier(x) => Numbered(s, x) && s.riskTier !in ["", "none", "low", "medium", "high"]
    case MissingExpectedResult(x) => Numbered(s, x) && s.expectedResult == None
    case InvalidResultType(x) =>
      Numbered(s, x) && s.expectedResult.Some?
      && s.expectedResult.value !in ["proposal_only", "read_result", "approval_record", "escalation_record"]
    case InvalidDependsOn(x, d) =>
      Numbered(s, x) && d in s.dependsOn && forall other :: other in steps ==> !Numbered(other, d)
    case _ => false
  }

  lemma StepCauseIff(c: Code, s: Step, steps: seq<Step>)
    ensures StepFault(c, s, |steps|, Indices(steps)) <==> StepCause(c, s, steps)
  {
    assert VALID_RISK_TIERS == {"none", "low", "medium", "high"};
    assert VALID_RESULT_TYPES == {"proposal_only", "read_result", "approval_record", "escalation_record"};
    if c.InvalidDependsOn? { KnownIff(steps, c.dependency); }
  }

  lemma KnownIff(steps: seq<Step>, d: int)
    ensures d in Indices(steps) <==> exists s :: s in steps && Numbered(s, d)
  {
    if d in Indices(steps) {
      var i := IndexOf(Indices(steps), d);
      assert steps[i] in steps && Numbered(steps[i], d);
    }
    if s :| s in steps && Numbered(s, d) {
      var i := IndexOf(steps, s);
      assert Indices(steps)[i] == d;
    }
  }

  lemma RepeatsIff(steps: seq<Step>, x: int)
    ensures Repeats(Indices(steps), x)
            <==> exists i, j :: 0 <= i < j < |steps| && Numbered(steps[i], x) && Numbered(steps[j], x)
  {
    forall i | 0 <= i < |steps| ensures Indices(steps)[i] == x <==> Numbered(steps[i], x) {}
    if i, j :| 0 <= i < j < |steps| && Numbered(steps[i], x) && Numbered(steps[j], x) {
      assert Indices(steps)[i] == x && Indices(steps)[j] == x;
    }
  }

  lemma NoCycleWithoutSteps(w: seq<int>)
    ensures !Cycle(w, [])
  {
    if |w| >= 2 { assert !Depends([], w[0], w[1]); }
  }

  /** The errors of the header, which has no say in the others. */
  lemma HeaderFaultIff(plan: Plan, planIdFormat: string -> bool, c: Code)
    requires plan.steps != []
    ensures IdentityFault(plan, planIdFormat, c) || SafetyFault(plan, c)
            <==> match c
                 case InvalidType => plan.typeName != "agent_plan"
                 case MissingPlanId => plan.planId == ""
                 case InvalidPlanIdFormat => plan.planId != "" && !planIdFormat(plan.planId)
                 case MissingSessionRef => plan.sessionRef == ""
                 case MaxStepsExceeded =>
                   |plan.steps| > (match plan.maxSteps case None => 64 case Some(most) => most)
                 case PlanApprovalNotRequired => !plan.requiresStepApproval
                 case PlanParallelWithSideEffects =>
                   plan.forbidsParallelExecution == Some(false) && exists s :: s in plan.steps && ActsOutside(s)
                 case _ => false
  {
    forall s ensures HasSideEffects(s) <==> ActsOutside(s) { StepDeclaredIff(s); }
  }

  lemma StepsFaultIff(steps: seq<Step>, c: Code)
    ensures StepsFault(steps, c) <==> exists i :: 0 <= i < |steps| && StepCause(c, steps[i], steps)
  {
    forall s ensures StepFault(c, s, |steps|, Indices(steps)) <==> StepCause(c, s, steps) {
      StepCauseIff(c, s, steps);
    }
  }

  /** Every error is reported exactly for what it says. */
  lemma PlanFaultIff(plan: Plan, planIdFormat: string -> bool, c: Code)
    ensures PlanFault(plan, planIdFormat, c) <==> PlanCauses(plan, planIdFormat, c)
  {
    if plan.steps == [] {
      forall w ensures !Cycle(w, plan.steps) { NoCycleWithoutSteps(w); }
    } else {
      HeaderFaultIff(plan, planIdFormat, c);
      StepsFaultIff(plan.steps, c);
      if c.DuplicateStepIndex? { RepeatsIff(plan.steps, c.index); }
    }
  }
}
