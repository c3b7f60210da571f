/** The counter-driven parallel scheduler, as a state machine over worker steps.

    The source seeds workers in a loop that reads live counters while workers already decrement
    them.  The step relation has both readings: with `atomic` set, workers move only after the
    seeding loop is done; otherwise they interleave with it. */
module ParallelExec {
  import opened Dag
  import SerialExec

  // ----- set-up: who unblocks whom -----

  /** `id`, once for each of its inputs that is `src`. */
  function Targets(ins: seq<NodeInput>, id: NodeID, src: NodeID): seq<NodeID> {
    if ins == [] then []
    else
      var last := ins[|ins| - 1];
      Targets(ins[..|ins| - 1], id, src) + if last.node == src then [id] else []
  }

  /** The nodes among the first n that `src` unblocks, with multiplicity. */
  function Unblocks(dag: seq<Node>, n: nat, src: NodeID): seq<NodeID>
    requires n <= |dag|
  {
    if n == 0 then [] else Unblocks(dag, n - 1, src) + Targets(dag[n - 1].inputs, n - 1, src)
  }

  function Outs(dag: seq<Node>, src: NodeID): seq<NodeID> {
    Unblocks(dag, |dag|, src)
  }

  /** The two nested loops that fill the scheduler's tables. */
  method Prepare(dag: seq<Node>) returns (unblocks: array<seq<NodeID>>, needCount: array<int>)
    requires Topological(dag)
    ensures unblocks.Length == needCount.Length == |dag|
    ensures forall s :: 0 <= s < |dag| ==> unblocks[s] == Outs(dag, s)
    ensures forall i :: 0 <= i < |dag| ==> needCount[i] == |dag[i].inputs|
  {
    unblocks := new seq<NodeID>[|dag|](_ => []);
    needCount := new int[|dag|](_ => 0);
    var i := 0;
    while i < |dag|
      invariant 0 <= i <= |dag|
      invariant forall s :: 0 <= s < |dag| ==> unblocks[s] == Unblocks(dag, i, s)
      invariant forall j :: 0 <= j < |dag| ==> needCount[j] == if j < i then |dag[j].inputs| else 0
    {
      RecordInputs(dag[i].inputs, i, unblocks);
      needCount[i] := needCount[i] + |dag[i].inputs|;
      i := i + 1;
    }
  }

  method RecordInputs(ins: seq<NodeInput>, id: NodeID, unblocks: array<seq<NodeID>>)
    requires InRange(ins, unblocks.Length)
    modifies unblocks
    ensures forall s :: 0 <= s < unblocks.Length ==> unblocks[s] == old(unblocks[s]) + Targets(ins, id, s)
  {
    var k := 0;
    while k < |ins|
      invariant 0 <= k <= |ins|
      invariant forall s :: 0 <= s < unblocks.Length ==> unblocks[s] == old(unblocks[s]) + Targets(ins[..k], id, s)
    {
      var src := ins[k].node;
      assert ins[..k + 1][..k] == ins[..k];
      unblocks[src] := unblocks[src] + [id];
      k := k + 1;
    }
    assert ins[..k] == ins;
  }

  lemma {:induction false} TargetsMember(ins: seq<NodeInput>, id: NodeID, src: NodeID, t: NodeID)
    ensures t in Targets(ins, id, src) ==> t == id
    ensures id in Targets(ins, id, src) <==> exists k :: 0 <= k < |ins| && ins[k].node == src
    decreases |ins|
  {
    if ins != [] {
      var init := ins[..|ins| - 1];
      TargetsMember(init, id, src, t);
      assert forall k :: 0 <= k < |init| ==> init[k] == ins[k];
      if id in Targets(ins, id, src) && ins[|ins| - 1].node != src {
        var k :| 0 <= k < |init| && init[k].node == src;
        assert ins[k].node == src;
      }
    }
  }

  lemma {:induction false} UnblocksMember(dag: seq<Node>, n: nat, src: NodeID, t: NodeID)
    requires n <= |dag|
    ensures t in Unblocks(dag, n, src) <==> t < n && exists k :: 0 <= k < |dag[t].inputs| && dag[t].inputs[k].node == src
    decreases n
  {
    hide Targets;
    if n > 0 {
      UnblocksMember(dag, n - 1, src, t);
      TargetsMember(dag[n - 1].inputs, n - 1, src, t);
    }
  }

  // ----- the machine -----

  /** Where a worker is: about to compute, having released k of the nodes it unblocks, or ended. */
  datatype Pc = Running | Releasing(k: nat) | Finished | Failed

  datatype Worker = Worker(id: NodeID, pc: Pc)

  /** `released` is history: how many releases each node's worker has made. */
  datatype State = State(
    results: seq<Result>,
    need: seq<int>,
    seeded: nat,
    workers: seq<Worker>,
    released: seq<nat>)

  function Init(dag: seq<Node>): State {
    State(seq(|dag|, _ => ZERO_RESULT),
          seq(|dag|, i requires 0 <= i < |dag| => |dag[i].inputs|),
          0, [],
          seq(|dag|, _ => 0))
  }

  predicate Sized(dag: seq<Node>, s: State) {
    |s.results| == |s.need| == |s.released| == |dag| && s.seeded <= |dag| &&
    forall j :: 0 <= j < |s.workers| ==> s.workers[j].id < |dag|
  }

  predicate CanSeed(dag: seq<Node>, s: State) { s.seeded < |dag| }

  /** One iteration of the seeding loop. */
  function Seed(dag: seq<Node>, s: State): State
    requires Sized(dag, s) && CanSeed(dag, s)
  {
    s.(seeded := s.seeded + 1,
       workers := if s.need[s.seeded] == 0 then s.workers + [Worker(s.seeded, Running)] else s.workers)
  }

  predicate Active(s: State, j: nat) {
    j < |s.workers| && (s.workers[j].pc.Running? || s.workers[j].pc.Releasing?)
  }

  /** One step of worker j: compute and store a result, or release one node, or end. */
  function Advance(w: World, dag: seq<Node>, s: State, j: nat): State
    requires Topological(dag) && Sized(dag, s) && Active(s, j)
  {
    var id := s.workers[j].id;
    match s.workers[j].pc
    case Running =>
      (match NodeOutcome(w, dag[id], s.results)
       case Err(_) => s.(workers := s.workers[j := Worker(id, Failed)])
       case Ok(res) => s.(results := s.results[id := res], workers := s.workers[j := Worker(id, Releasing(0))]))
    case Releasing(k) =>
      if k < |Outs(dag, id)| then Release(dag, s, j, Outs(dag, id)[k])
      else s.(workers := s.workers[j := Worker(id, Finished)])
  }

  predicate ReleasesNext(dag: seq<Node>, s: State, j: nat, t: NodeID) {
    j < |s.workers| && s.workers[j].pc.Releasing? &&
    var k := s.workers[j].pc.k;
    k < |Outs(dag, s.workers[j].id)| && t == Outs(dag, s.workers[j].id)[k]
  }

  /** The atomic decrement of the counter of t, which launches t when it reaches zero. */
  function Release(dag: seq<Node>, s: State, j: nat, t: NodeID): State
    requires Sized(dag, s) && ReleasesNext(dag, s, j, t)
  {
    var id, k := s.workers[j].id, s.workers[j].pc.k;
    UnblocksMember(dag, |dag|, id, t);
    var left := s.need[t] - 1;
    s.(need := s.need[t := left],
       workers := s.workers[j := Worker(id, Releasing(k + 1))] + if left == 0 then [Worker(t, Running)] else [],
       released := s.released[id := s.released[id] + 1])
  }

  predicate AnyFailed(s: State) {
    exists j :: 0 <= j < |s.workers| && s.workers[j].pc.Failed?
  }

  /** After one failure the shared context is cancelled, which may fail a worker that computes. */
  predicate CanCancel(s: State, j: nat) {
    j < |s.workers| && s.workers[j].pc.Running? && AnyFailed(s)
  }

  function Cancel(s: State, j: nat): State
    requires CanCancel(s, j)
  {
    s.(workers := s.workers[j := Worker(s.workers[j].id, Failed)])
  }

  ghost predicate WorkerStep(w: World, dag: seq<Node>, s: State, s': State, j: nat)
    requires Topological(dag) && Sized(dag, s)
  {
    || (Active(s, j) && s' == Advance(w, dag, s, j))
    || (CanCancel(s, j) && s' == Cancel(s, j))
  }

  ghost predicate Next(w: World, dag: seq<Node>, atomic: bool, s: State, s': State)
    requires Topological(dag) && Sized(dag, s)
  {
    || (CanSeed(dag, s) && s' == Seed(dag, s))
    || ((atomic ==> !CanSeed(dag, s)) && exists j :: WorkerStep(w, dag, s, s', j))
  }

  /** Nothing left to do: the group's Wait returns. */
  predicate Quiescent(dag: seq<Node>, s: State) {
    s.seeded == |dag| && forall j :: 0 <= j < |s.workers| ==> !Active(s, j)
  }

  ghost predicate IsRun(w: World, dag: seq<Node>, atomic: bool, run: seq<State>)
    requires Topological(dag)
  {
    |run| > 0 && run[0] == Init(dag) &&
    (forall i :: 0 <= i < |run| ==> Sized(dag, run[i])) &&
    forall i :: 0 <= i < |run| - 1 ==> Next(w, dag, atomic, run[i], run[i + 1])
  }

  // ----- counting unreleased edges -----

  predicate ReleasedOk(dag: seq<Node>, released: seq<nat>) {
    |released| == |dag| && forall s :: 0 <= s < |dag| ==> released[s] <= |Outs(dag, s)|
  }

  function Count(xs: seq<NodeID>, i: NodeID): nat {
    if xs == [] then 0 else (if xs[0] == i then 1 else 0) + Count(xs[1..], i)
  }

  /** Edges from src to i not yet released. */
  function Pending(dag: seq<Node>, released: seq<nat>, src: NodeID, i: NodeID): nat
    requires ReleasedOk(dag, released) && src < |dag|
  {
    Count(Outs(dag, src)[released[src]..], i)
  }

  /** Edges into i from the first m nodes, with multiplicity, not yet released. */
  function Remaining(dag: seq<Node>, released: seq<nat>, i: NodeID, m: nat): nat
    requires ReleasedOk(dag, released) && m <= |dag|
  {
    if m == 0 then 0 else Remaining(dag, released, i, m - 1) + Pending(dag, released, m - 1, i)
  }

  function EdgeCount(ins: seq<NodeInput>, src: NodeID): nat {
    if ins == [] then 0
    else EdgeCount(ins[..|ins| - 1], src) + if ins[|ins| - 1].node == src then 1 else 0
  }

  lemma {:induction false} CountInConcat(a: seq<NodeID>, b: seq<NodeID>, i: NodeID)
    ensures Count(a + b, i) == Count(a, i) + Count(b, i)
    decreases |a|
  {
    if a == [] {
      assert a + b == b;
    } else {
      assert (a + b)[1..] == a[1..] + b;
      CountInConcat(a[1..], b, i);
    }
  }

  lemma {:induction false} CountZero(a: seq<NodeID>, i: NodeID)
    ensures Count(a, i) == 0 <==> i !in a
    decreases |a|
  {
    if a != [] { CountZero(a[1..], i); }
  }

  lemma {:induction false} TargetsCount(ins: seq<NodeInput>, id: NodeID, src: NodeID, i: NodeID)
    ensures Count(Targets(ins, id, src), i) == if i == id then EdgeCount(ins, src) else 0
    decreases |ins|
  {
    if ins != [] {
      var init := ins[..|ins| - 1];
      TargetsCount(init, id, src, i);
      CountInConcat(Targets(init, id, src), if ins[|ins| - 1].node == src then [id] else [], i);
    }
  }

  lemma {:induction false} UnblocksCount(dag: seq<Node>, n: nat, src: NodeID, i: NodeID)
    requires n <= |dag|
    ensures Count(Unblocks(dag, n, src), i) == if i < n then EdgeCount(dag[i].inputs, src) else 0
    decreases n
  {
    if n > 0 {
      UnblocksCount(dag, n - 1, src, i);
      TargetsCount(dag[n - 1].inputs, n - 1, src, i);
      CountInConcat(Unblocks(dag, n - 1, src), Targets(dag[n - 1].inputs, n - 1, src), i);
    }
  }

  function EdgeSum(ins: seq<NodeInput>, m: nat): nat {
    if m == 0 then 0 else EdgeSum(ins, m - 1) + EdgeCount(ins, m - 1)
  }

  lemma {:induction false} EdgeSumStep(ins: seq<NodeInput>, m: nat)
    requires ins != []
    ensures EdgeSum(ins, m) == EdgeSum(ins[..|ins| - 1], m) + if ins[|ins| - 1].node < m then 1 else 0
    decreases m
  {
    if m > 0 { EdgeSumStep(ins, m - 1); }
  }

  lemma {:induction false} EdgeSumTotal(ins: seq<NodeInput>, m: nat)
    requires InRange(ins, m)
    ensures EdgeSum(ins, m) == |ins|
    decreases |ins|
  {
    if ins == [] {
      EdgeSumEmpty(m);
    } else {
      EdgeSumStep(ins, m);
      EdgeSumTotal(ins[..|ins| - 1], m);
    }
  }

  lemma {:induction false} EdgeSumEmpty(m: nat)
    ensures EdgeSum([], m) == 0
  {
    if m > 0 { EdgeSumEmpty(m - 1); }
  }

  /** Before any release, the unreleased edges into a node are all its inputs. */
  lemma {:induction false} RemainingInitially(dag: seq<Node>, released: seq<nat>, i: NodeID, m: nat)
    requires ReleasedOk(dag, released) && m <= |dag| && i < |dag|
    requires forall s :: 0 <= s < |dag| ==> released[s] == 0
    ensures Remaining(dag, released, i, m) == EdgeSum(dag[i].inputs, m)
    decreases m
  {
    if m > 0 {
      RemainingInitially(dag, released, i, m - 1);
      assert Outs(dag, m - 1)[0..] == Outs(dag, m - 1);
      UnblocksCount(dag, |dag|, m - 1, i);
    }
  }

  /** One release removes exactly one unreleased edge. */
  lemma {:induction false} RemainingAfterRelease(dag: seq<Node>, released: seq<nat>, src: NodeID, i: NodeID, m: nat)
    requires ReleasedOk(dag, released) && m <= |dag| && src < |dag| && released[src] < |Outs(dag, src)|
    ensures ReleasedOk(dag, released[src := released[src] + 1])
    ensures Remaining(dag, released, i, m) == Remaining(dag, released[src := released[src] + 1], i, m)
              + if src < m && i == Outs(dag, src)[released[src]] then 1 else 0
    decreases m
  {
    if m > 0 {
      RemainingAfterRelease(dag, released, src, i, m - 1);
      var outs, k := Outs(dag, src), released[src];
      assert outs[k..][1..] == outs[k + 1..];
    }
  }

  /** No unreleased edges: every source has released past its last edge to i. */
  lemma {:induction false} RemainingZero(dag: seq<Node>, released: seq<nat>, i: NodeID, m: nat, src: NodeID)
    requires ReleasedOk(dag, released) && src < m <= |dag|
    requires Remaining(dag, released, i, m) == 0
    ensures Pending(dag, released, src, i) == 0
    decreases m
  {
    if src < m - 1 { RemainingZero(dag, released, i, m - 1, src); }
  }

  lemma {:induction false} RemainingAllZero(dag: seq<Node>, released: seq<nat>, i: NodeID, m: nat)
    requires ReleasedOk(dag, released) && m <= |dag|
    requires forall src :: 0 <= src < m ==> Pending(dag, released, src, i) == 0
    ensures Remaining(dag, released, i, m) == 0
    decreases m
  {
    if m > 0 { RemainingAllZero(dag, released, i, m - 1); }
  }

  // ----- the invariant -----

  ghost predicate Launched(s: State, i: NodeID) {
    exists j :: 0 <= j < |s.workers| && s.workers[j].id == i
  }

  /** No node has two workers. */
  ghost predicate LaunchedOnce(s: State) {
    forall a, b :: 0 <= a < b < |s.workers| ==> s.workers[a].id != s.workers[b].id
  }

  /** The counters agree with the unreleased edges. */
  ghost predicate CountsAgree(dag: seq<Node>, need: seq<int>, released: seq<nat>) {
    && |need| == |dag| && ReleasedOk(dag, released)
    && forall i :: 0 <= i < |dag| ==> need[i] == Remaining(dag, released, i, |dag|)
  }

  /** A worker's progress agrees with the release history, and a stored result is the node's value. */
  ghost predicate WorkerOk(w: World, dag: seq<Node>, s: State, wk: Worker)
    requires Topological(dag) && Sized(dag, s) && wk.id < |dag|
  {
    match wk.pc
    case Running => s.released[wk.id] == 0
    case Failed => s.released[wk.id] == 0 && !SerialExec.AllEvaluate(w, dag)
    case Releasing(k) => s.released[wk.id] == k <= |Outs(dag, wk.id)| && Value(w, dag, wk.id) == Some(s.results[wk.id])
    case Finished => s.released[wk.id] == |Outs(dag, wk.id)| && Value(w, dag, wk.id) == Some(s.results[wk.id])
  }

  /** A node is due when it has no inputs and seeding has passed it, or its last input was released. */
  predicate Due(dag: seq<Node>, s: State, i: NodeID)
    requires Sized(dag, s) && i < |dag|
  {
    if dag[i].inputs == [] then i < s.seeded else s.need[i] == 0
  }

  ghost predicate Inv(w: World, dag: seq<Node>, s: State)
    requires Topological(dag)
  {
    && Sized(dag, s) && CountsAgree(dag, s.need, s.released)
    && LaunchedOnce(s)
    && (forall i :: 0 <= i < |dag| ==> (Launched(s, i) <==> Due(dag, s, i)))
    && (forall i :: 0 <= i < |dag| && !Launched(s, i) ==> s.released[i] == 0)
    && (forall j :: 0 <= j < |s.workers| ==> WorkerOk(w, dag, s, s.workers[j]))
  }

  lemma InitInv(w: World, dag: seq<Node>)
    requires Topological(dag)
    ensures Inv(w, dag, Init(dag))
  {
    var s := Init(dag);
    forall i | 0 <= i < |dag|
      ensures s.need[i] == Remaining(dag, s.released, i, |dag|)
    {
      RemainingInitially(dag, s.released, i, |dag|);
      EdgeSumTotal(dag[i].inputs, |dag|);
    }
  }

  /** In an invariant state every input of a launched node has its final result stored. */
  lemma InputsReady(w: World, dag: seq<Node>, s: State, i: NodeID)
    requires Topological(dag) && Inv(w, dag, s) && i < |dag| && Launched(s, i)
    ensures forall k :: 0 <= k < |dag[i].inputs| ==>
              Value(w, dag, dag[i].inputs[k].node) == Some(s.results[dag[i].inputs[k].node])
  {
    forall k | 0 <= k < |dag[i].inputs|
      ensures Value(w, dag, dag[i].inputs[k].node) == Some(s.results[dag[i].inputs[k].node])
    {
      var src := dag[i].inputs[k].node;
      RemainingZero(dag, s.released, i, |dag|, src);
      UnblocksMember(dag, |dag|, src, i);
      assert i in Outs(dag, src);
      assert Outs(dag, src)[0..] == Outs(dag, src);
      CountZero(Outs(dag, src), i);
      assert s.released[src] > 0;
      assert Launched(s, src);
      var j :| 0 <= j < |s.workers| && s.workers[j].id == src;
      assert WorkerOk(w, dag, s, s.workers[j]);
    }
  }

  /** What a worker computes is the node's value, or proof that the serial run fails. */
  lemma ComputeIsValue(w: World, dag: seq<Node>, s: State, i: NodeID)
    requires Topological(dag) && Inv(w, dag, s) && i < |dag| && Launched(s, i)
    ensures NodeOutcome(w, dag[i], s.results).Ok? ==> Value(w, dag, i) == Some(NodeOutcome(w, dag[i], s.results).value)
    ensures NodeOutcome(w, dag[i], s.results).Err? ==> Value(w, dag, i) == None
  {
    InputsReady(w, dag, s, i);
    ValueFromResults(w, dag, i, s.results);
  }

  // ----- every step keeps the invariant -----

  /** Replacing the program counter of worker j changes neither who is launched nor whose. */
  lemma SameIds(s: State, ws: seq<Worker>, j: nat)
    requires |ws| == |s.workers| && j < |ws|
    requires ws == s.workers[j := Worker(s.workers[j].id, ws[j].pc)]
    ensures LaunchedOnce(s) ==> LaunchedOnce(s.(workers := ws))
    ensures forall i: NodeID :: Launched(s.(workers := ws), i) <==> Launched(s, i)
  {
    forall i: NodeID ensures Launched(s.(workers := ws), i) <==> Launched(s, i) {
      if Launched(s, i) {
        var a :| 0 <= a < |s.workers| && s.workers[a].id == i;
        assert ws[a].id == i;
      }
      if Launched(s.(workers := ws), i) {
        var a :| 0 <= a < |ws| && ws[a].id == i;
        assert s.workers[a].id == i;
      }
    }
  }

  lemma ComputeInv(w: World, dag: seq<Node>, s: State, j: nat)
    requires Topological(dag) && Inv(w, dag, s) && j < |s.workers| && s.workers[j].pc.Running?
    ensures Inv(w, dag, Advance(w, dag, s, j))
  {
    hide Remaining, CountsAgree;
    var id := s.workers[j].id;
    assert Launched(s, id) && WorkerOk(w, dag, s, s.workers[j]);
    ComputeIsValue(w, dag, s, id);
    match NodeOutcome(w, dag[id], s.results)
    case Err(_) => EndInv(w, dag, s, j, Failed);
    case Ok(res) => StoreInv(w, dag, s, j, res);
  }

  lemma StoreInv(w: World, dag: seq<Node>, s: State, j: nat, res: Result)
    requires Topological(dag) && Inv(w, dag, s) && j < |s.workers| && s.workers[j].pc.Running?
    requires Value(w, dag, s.workers[j].id) == Some(res)
    ensures Inv(w, dag, s.(results := s.results[s.workers[j].id := res],
                           workers := s.workers[j := Worker(s.workers[j].id, Releasing(0))]))
  {
    hide Remaining, CountsAgree, Value;
    var id := s.workers[j].id;
    var s' := s.(results := s.results[id := res], workers := s.workers[j := Worker(id, Releasing(0))]);
    assert WorkerOk(w, dag, s, s.workers[j]);
    SameIds(s, s'.workers, j);
    forall a | 0 <= a < |s'.workers| ensures WorkerOk(w, dag, s', s'.workers[a]) {
      assert WorkerOk(w, dag, s, s.workers[a]);
    }
    forall i | 0 <= i < |dag| ensures Launched(s', i) <==> Due(dag, s', i) {
      assert Launched(s.(workers := s'.workers), i) <==> Launched(s', i);
      assert Due(dag, s, i) <==> Due(dag, s', i);
    }
  }

  lemma EndInv(w: World, dag: seq<Node>, s: State, j: nat, pc: Pc)
    requires Topological(dag) && Inv(w, dag, s) && j < |s.workers|
    requires WorkerOk(w, dag, s, Worker(s.workers[j].id, pc))
    ensures Inv(w, dag, s.(workers := s.workers[j := Worker(s.workers[j].id, pc)]))
  {
    hide Remaining, CountsAgree;
    var s' := s.(workers := s.workers[j := Worker(s.workers[j].id, pc)]);
    SameIds(s, s'.workers, j);
    forall a | 0 <= a < |s'.workers| ensures WorkerOk(w, dag, s', s'.workers[a]) {
      assert WorkerOk(w, dag, s, s.workers[a]);
    }
    forall i | 0 <= i < |dag| ensures Launched(s', i) <==> Due(dag, s', i) {
      assert Due(dag, s, i) <==> Due(dag, s', i);
    }
  }

  /** The released edge was still pending, so its target is not launched yet. */
  lemma TargetNotLaunched(w: World, dag: seq<Node>, s: State, id: NodeID, k: nat)
    requires Topological(dag) && Inv(w, dag, s) && id < |dag|
    requires s.released[id] == k < |Outs(dag, id)|
    ensures
      var t := Outs(dag, id)[k];
      t < |dag| && dag[t].inputs != [] && s.need[t] >= 1 && !Launched(s, t)
  {
    var t := Outs(dag, id)[k];
    UnblocksMember(dag, |dag|, id, t);
    RemainingAfterRelease(dag, s.released, id, t, |dag|);
    assert !Due(dag, s, t);
  }

  lemma ReleaseInv(w: World, dag: seq<Node>, s: State, j: nat, t: NodeID)
    requires Topological(dag) && Inv(w, dag, s) && ReleasesNext(dag, s, j, t)
    ensures Inv(w, dag, Release(dag, s, j, t))
  {
    hide Remaining, CountsAgree;
    var id, k := s.workers[j].id, s.workers[j].pc.k;
    assert WorkerOk(w, dag, s, s.workers[j]) && Launched(s, id);
    TargetNotLaunched(w, dag, s, id, k);
    var s' := Release(dag, s, j, t);
    ReleaseLaunches(s, s', j, Releasing(k + 1), t, s'.need[t] == 0);
    ReleaseCounts(dag, s.need, s.released, id, t);
    ReleaseWorkers(w, dag, s, s', j, t, s'.need[t] == 0);
    ReleaseDue(w, dag, s, s', id, t);
  }

  lemma ReleaseDue(w: World, dag: seq<Node>, s: State, s': State, id: NodeID, t: NodeID)
    requires Topological(dag) && Inv(w, dag, s) && Sized(dag, s') && id < |dag| && t < |dag|
    requires Launched(s, id) && !Launched(s, t) && dag[t].inputs != []
    requires s'.seeded == s.seeded && s'.need == s.need[t := s.need[t] - 1]
    requires s'.released == s.released[id := s.released[id] + 1]
    requires forall i: NodeID :: i != t ==> (Launched(s', i) <==> Launched(s, i))
    requires Launched(s', t) <==> s'.need[t] == 0
    ensures forall i :: 0 <= i < |dag| ==> (Launched(s', i) <==> Due(dag, s', i))
    ensures forall i :: 0 <= i < |dag| && !Launched(s', i) ==> s'.released[i] == 0
  {
    forall i | 0 <= i < |dag|
      ensures Launched(s', i) <==> Due(dag, s', i)
      ensures !Launched(s', i) ==> s'.released[i] == 0
    {
      assert i != t ==> (Due(dag, s, i) <==> Due(dag, s', i));
      assert Launched(s, i) <==> Due(dag, s, i);
    }
  }

  lemma ReleaseCounts(dag: seq<Node>, need: seq<int>, released: seq<nat>, id: NodeID, t: NodeID)
    requires CountsAgree(dag, need, released) && id < |dag| && t < |dag|
    requires released[id] < |Outs(dag, id)| && t == Outs(dag, id)[released[id]]
    ensures CountsAgree(dag, need[t := need[t] - 1], released[id := released[id] + 1])
  {
    var need', released' := need[t := need[t] - 1], released[id := released[id] + 1];
    forall i: nat | i < |dag|
      ensures ReleasedOk(dag, released') && need'[i] == Remaining(dag, released', i, |dag|)
    {
      assert need[i] == Remaining(dag, released, i, |dag|);
      RemainingAfterRelease(dag, released, id, i, |dag|);
    }
  }

  lemma ReleaseWorkers(w: World, dag: seq<Node>, s: State, s': State, j: nat, t: NodeID, launch: bool)
    requires Topological(dag) && Inv(w, dag, s) && Sized(dag, s') && j < |s.workers| && t < |dag| && !Launched(s, t)
    requires s.workers[j].pc.Releasing? && s.workers[j].pc.k < |Outs(dag, s.workers[j].id)|
    requires s'.results == s.results
    requires s'.released == s.released[s.workers[j].id := s.released[s.workers[j].id] + 1]
    requires s'.workers == s.workers[j := Worker(s.workers[j].id, Releasing(s.workers[j].pc.k + 1))] +
                           if launch then [Worker(t, Running)] else []
    ensures forall a :: 0 <= a < |s'.workers| ==> WorkerOk(w, dag, s', s'.workers[a])
  {
    assert WorkerOk(w, dag, s, s.workers[j]);
    forall a | 0 <= a < |s'.workers| ensures WorkerOk(w, dag, s', s'.workers[a]) {
      if a < |s.workers| {
        assert WorkerOk(w, dag, s, s.workers[a]);
      } else {
        assert t != s.workers[j].id;
      }
    }
  }

  lemma ReleaseLaunches(s: State, s': State, j: nat, pc: Pc, t: NodeID, launch: bool)
    requires j < |s.workers| && LaunchedOnce(s) && !Launched(s, t)
    requires s'.workers == s.workers[j := Worker(s.workers[j].id, pc)] + if launch then [Worker(t, Running)] else []
    ensures LaunchedOnce(s')
    ensures forall i: NodeID :: i != t ==> (Launched(s', i) <==> Launched(s, i))
    ensures Launched(s', t) <==> launch
  {
    forall i: NodeID | i != t ensures Launched(s', i) <==> Launched(s, i) {
      if Launched(s, i) {
        var a :| 0 <= a < |s.workers| && s.workers[a].id == i;
        assert s'.workers[a].id == i;
      }
    }
    if launch {
      assert s'.workers[|s.workers|].id == t;
    }
    forall a, b | 0 <= a < b < |s'.workers| ensures s'.workers[a].id != s'.workers[b].id {
      if b == |s.workers| {
        assert s.workers[a].id != t;
      }
    }
  }

  /** Worker steps keep the invariant, whether or not seeding is finished. */
  lemma WorkerStepInv(w: World, dag: seq<Node>, s: State, s': State, j: nat)
    requires Topological(dag) && Inv(w, dag, s) && WorkerStep(w, dag, s, s', j)
    ensures Inv(w, dag, s') && s'.seeded == s.seeded
  {
    hide Remaining, CountsAgree;
    assert WorkerOk(w, dag, s, s.workers[j]);
    if Active(s, j) && s' == Advance(w, dag, s, j) {
      match s.workers[j].pc
      case Running => ComputeInv(w, dag, s, j);
      case Releasing(k) =>
        if k < |Outs(dag, s.workers[j].id)| {
          ReleaseInv(w, dag, s, j, Outs(dag, s.workers[j].id)[k]);
        } else {
          EndInv(w, dag, s, j, Finished);
        }
    } else {
      var f :| 0 <= f < |s.workers| && s.workers[f].pc.Failed?;
      assert WorkerOk(w, dag, s, s.workers[f]);
      EndInv(w, dag, s, j, Failed);
    }
  }

  /** The seeding loop goes wrong exactly when it meets a node that has inputs and whose counter
      has already reached zero. */
  predicate SeedsTwice(dag: seq<Node>, s: State)
    requires Sized(dag, s)
  {
    CanSeed(dag, s) && dag[s.seeded].inputs != [] && s.need[s.seeded] == 0
  }

  lemma SeedInv(w: World, dag: seq<Node>, s: State)
    requires Topological(dag) && Inv(w, dag, s) && CanSeed(dag, s)
    ensures !SeedsTwice(dag, s) ==> Inv(w, dag, Seed(dag, s))
    ensures SeedsTwice(dag, s) ==> !LaunchedOnce(Seed(dag, s))
  {
    hide Remaining, CountsAgree;
    var s', i0 := Seed(dag, s), s.seeded;
    assert |s.workers| < |s'.workers| ==> s'.workers[|s.workers|] == Worker(i0, Running);
    assert forall a :: 0 <= a < |s.workers| ==> s'.workers[a] == s.workers[a];
    if SeedsTwice(dag, s) {
      assert Due(dag, s, i0);
      var a :| 0 <= a < |s.workers| && s.workers[a].id == i0;
      assert s'.workers[a].id == s'.workers[|s.workers|].id;
    } else {
      if dag[i0].inputs == [] { NoInputsNoNeed(w, dag, s, i0); }
      assert !Due(dag, s, i0);
      forall i | 0 <= i < |dag| ensures Launched(s', i) <==> Due(dag, s', i) {
        assert i != i0 ==> (Launched(s', i) <==> Launched(s, i)) && (Due(dag, s', i) <==> Due(dag, s, i));
      }
      forall a | 0 <= a < |s'.workers| ensures WorkerOk(w, dag, s', s'.workers[a]) {
        if a < |s.workers| { assert WorkerOk(w, dag, s, s.workers[a]); }
      }
    }
  }

  lemma NoInputsNoNeed(w: World, dag: seq<Node>, s: State, i: NodeID)
    requires Topological(dag) && Inv(w, dag, s) && i < |dag| && dag[i].inputs == []
    ensures s.need[i] == 0
  {
    forall src | 0 <= src < |dag| ensures Pending(dag, s.released, src, i) == 0 {
      UnblocksMember(dag, |dag|, src, i);
      var rest := Outs(dag, src)[s.released[src]..];
      assert i !in rest;
      CountZero(rest, i);
    }
    RemainingAllZero(dag, s.released, i, |dag|);
  }

  // ----- runs with atomic seeding -----

  /** Until seeding is done no worker has moved. */
  ghost predicate AtomicInv(w: World, dag: seq<Node>, s: State)
    requires Topological(dag)
  {
    && Inv(w, dag, s)
    && (CanSeed(dag, s) ==> forall i :: 0 <= i < |dag| ==> s.released[i] == 0)
  }

  lemma AtomicNeverSeedsTwice(w: World, dag: seq<Node>, s: State)
    requires Topological(dag) && AtomicInv(w, dag, s)
    ensures !SeedsTwice(dag, s)
  {
    if CanSeed(dag, s) {
      RemainingInitially(dag, s.released, s.seeded, |dag|);
      EdgeSumTotal(dag[s.seeded].inputs, |dag|);
    }
  }

  lemma AtomicStep(w: World, dag: seq<Node>, s: State, s': State)
    requires Topological(dag) && AtomicInv(w, dag, s) && Next(w, dag, true, s, s')
    ensures AtomicInv(w, dag, s')
  {
    if CanSeed(dag, s) {
      AtomicNeverSeedsTwice(w, dag, s);
      SeedInv(w, dag, s);
    } else {
      var j :| WorkerStep(w, dag, s, s', j);
      WorkerStepInv(w, dag, s, s', j);
    }
  }

  lemma {:induction false} AtomicRunInv(w: World, dag: seq<Node>, run: seq<State>, i: nat)
    requires Topological(dag) && IsRun(w, dag, true, run) && i < |run|
    ensures AtomicInv(w, dag, run[i])
    decreases i
  {
    hide Remaining, CountsAgree;
    if i == 0 {
      InitInv(w, dag);
    } else {
      AtomicRunInv(w, dag, run, i - 1);
      AtomicStep(w, dag, run[i - 1], run[i]);
    }
  }

  /** In every state of every run: counters equal unreleased edges, no node has two workers, and
      a node that has a worker finds the final results of all its inputs stored. */
  lemma SchedulerSafety(w: World, dag: seq<Node>, run: seq<State>, i: nat)
    requires Topological(dag) && IsRun(w, dag, true, run) && i < |run|
    ensures CountsAgree(dag, run[i].need, run[i].released)
    ensures LaunchedOnce(run[i])
    ensures forall n, k :: 0 <= n < |dag| && Launched(run[i], n) && 0 <= k < |dag[n].inputs| ==>
              Value(w, dag, dag[n].inputs[k].node) == Some(run[i].results[dag[n].inputs[k].node])
  {
    hide Remaining, CountsAgree;
    AtomicRunInv(w, dag, run, i);
    forall n | 0 <= n < |dag| && Launched(run[i], n)
      ensures forall k :: 0 <= k < |dag[n].inputs| ==>
                Value(w, dag, dag[n].inputs[k].node) == Some(run[i].results[dag[n].inputs[k].node])
    {
      InputsReady(w, dag, run[i], n);
    }
  }

  // ----- quiescence -----

  /** Its worker has ended normally. */
  ghost predicate Completed(s: State, i: NodeID) {
    exists j :: 0 <= j < |s.workers| && s.workers[j] == Worker(i, Finished)
  }

  /** With all its inputs completed, nothing is pending on a node. */
  lemma InputsCompletedNeedZero(w: World, dag: seq<Node>, s: State, i: NodeID)
    requires Topological(dag) && Inv(w, dag, s) && i < |dag|
    requires forall k :: 0 <= k < |dag[i].inputs| ==> Completed(s, dag[i].inputs[k].node)
    ensures s.need[i] == 0
  {
    forall src | 0 <= src < |dag| ensures Pending(dag, s.released, src, i) == 0 {
      var rest := Outs(dag, src)[s.released[src]..];
      UnblocksMember(dag, |dag|, src, i);
      if exists k :: 0 <= k < |dag[i].inputs| && dag[i].inputs[k].node == src {
        var j :| 0 <= j < |s.workers| && s.workers[j] == Worker(src, Finished);
        assert WorkerOk(w, dag, s, s.workers[j]);
        assert rest == [];
      }
      assert i !in rest;
      CountZero(rest, i);
    }
    RemainingAllZero(dag, s.released, i, |dag|);
  }

  /** A quiescent state without failures has completed every node. */
  lemma {:induction false} QuiescentCompletes(w: World, dag: seq<Node>, s: State, i: NodeID)
    requires Topological(dag) && Inv(w, dag, s) && Quiescent(dag, s) && !AnyFailed(s) && i < |dag|
    ensures Completed(s, i)
    decreases i
  {
    forall k | 0 <= k < |dag[i].inputs| ensures Completed(s, dag[i].inputs[k].node) {
      QuiescentCompletes(w, dag, s, dag[i].inputs[k].node);
    }
    InputsCompletedNeedZero(w, dag, s, i);
    assert Due(dag, s, i);
    var j :| 0 <= j < |s.workers| && s.workers[j].id == i;
    assert !Active(s, j);
    assert s.workers[j] == Worker(i, Finished);
  }

  /** What the source returns once the group has been waited for. */
  predicate Fails(s: State) { AnyFailed(s) }

  /** A quiescent state fails exactly when the serial run fails; otherwise every slot of its
      result table, in particular the last, is what the serial run computes. */
  lemma QuiescentMatchesSerial(w: World, dag: seq<Node>, s: State)
    requires Topological(dag) && Inv(w, dag, s) && Quiescent(dag, s)
    ensures Fails(s) <==> !SerialExec.AllEvaluate(w, dag)
    ensures !Fails(s) ==> forall i :: 0 <= i < |dag| ==> Value(w, dag, i) == Some(s.results[i])
  {
    if Fails(s) {
      var j :| 0 <= j < |s.workers| && s.workers[j].pc.Failed?;
      assert WorkerOk(w, dag, s, s.workers[j]);
    } else {
      forall i | 0 <= i < |dag| ensures Value(w, dag, i) == Some(s.results[i]) {
        QuiescentCompletes(w, dag, s, i);
        var j :| 0 <= j < |s.workers| && s.workers[j] == Worker(i, Finished);
        assert WorkerOk(w, dag, s, s.workers[j]);
      }
    }
  }

  /** Parallel refines serial, over every interleaving of worker steps. */
  lemma ParallelRefinesSerial(w: World, dag: seq<Node>, run: seq<State>)
    requires Topological(dag) && |dag| > 0 && IsRun(w, dag, true, run)
    requires Quiescent(dag, run[|run| - 1])
    ensures
      var final := run[|run| - 1];
      && (Fails(final) <==> !SerialExec.AllEvaluate(w, dag))
      && (!Fails(final) ==> Value(w, dag, |dag| - 1) == Some(final.results[|dag| - 1]))
      && (!Fails(final) ==> forall i :: 0 <= i < |dag| ==> Completed(final, i))
  {
    hide Remaining, CountsAgree;
    var final := run[|run| - 1];
    AtomicRunInv(w, dag, run, |run| - 1);
    QuiescentMatchesSerial(w, dag, final);
    if !Fails(final) {
      forall i | 0 <= i < |dag| ensures Completed(final, i) { QuiescentCompletes(w, dag, final, i); }
    }
  }

  // ----- termination: every schedule comes to rest -----

  function Work(dag: seq<Node>, wk: Worker): nat {
    match wk.pc
    case Running => |Outs(dag, wk.id)| + 2
    case Releasing(k) => if k <= |Outs(dag, wk.id)| then |Outs(dag, wk.id)| - k + 1 else 1
    case _ => 0
  }

  function TotalWork(dag: seq<Node>, ws: seq<Worker>): nat {
    if ws == [] then 0 else TotalWork(dag, ws[..|ws| - 1]) + Work(dag, ws[|ws| - 1])
  }

  lemma {:induction false} TotalWorkUpdate(dag: seq<Node>, ws: seq<Worker>, j: nat, wk: Worker)
    requires j < |ws|
    ensures TotalWork(dag, ws[j := wk]) + Work(dag, ws[j]) == TotalWork(dag, ws) + Work(dag, wk)
    decreases |ws|
  {
    var init := ws[..|ws| - 1];
    if j == |ws| - 1 {
      assert ws[j := wk][..j] == init;
    } else {
      TotalWorkUpdate(dag, init, j, wk);
      assert ws[j := wk][..|ws| - 1] == init[j := wk];
    }
  }

  function NodesBelow(n: nat): (ids: set<NodeID>)
    ensures |ids| == n && forall i: NodeID :: i in ids <==> i < n
  {
    if n == 0 then {} else NodesBelow(n - 1) + {n - 1}
  }

  lemma AtMostOneWorkerEach(dag: seq<Node>, s: State)
    requires Sized(dag, s) && LaunchedOnce(s)
    ensures |s.workers| <= |dag|
  {
    var ids := set j | 0 <= j < |s.workers| :: s.workers[j].id;
    IdsDistinct(s, |s.workers|);
    assert ids <= NodesBelow(|dag|);
    SubsetSize(ids, NodesBelow(|dag|));
  }

  lemma {:induction false} IdsDistinct(s: State, m: nat)
    requires m <= |s.workers| && LaunchedOnce(s)
    ensures |set j | 0 <= j < m :: s.workers[j].id| == m
    decreases m
  {
    if m > 0 {
      IdsDistinct(s, m - 1);
      var init := set j | 0 <= j < m - 1 :: s.workers[j].id;
      assert (set j | 0 <= j < m :: s.workers[j].id) == init + {s.workers[m - 1].id};
      assert s.workers[m - 1].id !in init;
    }
  }

  lemma SubsetSize<T>(a: set<T>, b: set<T>)
    requires a <= b
    ensures |a| <= |b|
  {
    assert b == a + (b - a);
  }

  /** Every step of a worker either launches one more node or leaves less work. */
  lemma StepProgress(w: World, dag: seq<Node>, s: State, s': State, j: nat)
    requires Topological(dag) && Inv(w, dag, s) && WorkerStep(w, dag, s, s', j)
    ensures |s'.workers| > |s.workers| ||
            (|s'.workers| == |s.workers| && TotalWork(dag, s'.workers) < TotalWork(dag, s.workers))
  {
    hide Remaining, CountsAgree, Outs, NodeOutcome, Launched, Due;
    assert WorkerOk(w, dag, s, s.workers[j]);
    if |s'.workers| == |s.workers| {
      assert s'.workers == s.workers[j := s'.workers[j]];
      TotalWorkUpdate(dag, s.workers, j, s'.workers[j]);
    }
  }

  /** The scheduler run to completion under an arbitrary schedule: it terminates and answers what
      the serial interpreter answers. */
  method ParallelExecLast(w: World, dag: seq<Node>) returns (r: Option<Result>)
    requires Topological(dag) && |dag| > 0
    ensures r.Some? <==> SerialExec.AllEvaluate(w, dag)
    ensures r.Some? ==> Value(w, dag, |dag| - 1) == r
  {
    var s := Init(dag);
    InitInv(w, dag);
    while s.seeded < |dag|
      invariant AtomicInv(w, dag, s)
    {
      AtomicStep(w, dag, s, Seed(dag, s));
      s := Seed(dag, s);
    }
    while exists j :: 0 <= j < |s.workers| && Active(s, j)
      invariant Inv(w, dag, s) && s.seeded == |dag|
      decreases |dag| - |s.workers|, TotalWork(dag, s.workers)
    {
      var j: nat :| j < |s.workers| && Active(s, j);
      var cancelled: bool := *;
      var s' := if cancelled && CanCancel(s, j) then Cancel(s, j) else Advance(w, dag, s, j);
      WorkerStepInv(w, dag, s, s', j);
      StepProgress(w, dag, s, s', j);
      AtMostOneWorkerEach(dag, s');
      s := s';
    }
    QuiescentMatchesSerial(w, dag, s);
    r := if Fails(s) then None else Some(s.results[|dag| - 1]);
  }

  // ----- interleaved seeding: the race in the source -----

  /** Failed workers really failed; nothing was cancelled. */
  ghost predicate Honest(w: World, dag: seq<Node>, s: State)
    requires Topological(dag) && Sized(dag, s)
  {
    forall j :: 0 <= j < |s.workers| && s.workers[j].pc.Failed? ==> Value(w, dag, s.workers[j].id).None?
  }

  function Last(run: seq<State>): State
    requires |run| > 0
  {
    run[|run| - 1]
  }

  lemma ExtendRun(w: World, dag: seq<Node>, atomic: bool, run: seq<State>, s': State)
    requires Topological(dag) && IsRun(w, dag, atomic, run) && Next(w, dag, atomic, Last(run), s') && Sized(dag, s')
    ensures IsRun(w, dag, atomic, run + [s'])
  {
    var run' := run + [s'];
    forall i | 0 <= i < |run'| - 1 ensures Next(w, dag, atomic, run'[i], run'[i + 1]) {
      if i < |run| - 1 { assert Next(w, dag, atomic, run[i], run[i + 1]); }
    }
  }

  lemma AdvanceHonest(w: World, dag: seq<Node>, s: State, j: nat)
    requires Topological(dag) && Inv(w, dag, s) && Honest(w, dag, s) && Active(s, j)
    ensures Sized(dag, Advance(w, dag, s, j)) && Honest(w, dag, Advance(w, dag, s, j))
  {
    hide Remaining, CountsAgree;
    assert WorkerStep(w, dag, s, Advance(w, dag, s, j), j);
    WorkerStepInv(w, dag, s, Advance(w, dag, s, j), j);
    assert Launched(s, s.workers[j].id);
    ComputeIsValue(w, dag, s, s.workers[j].id);
  }

  /** Pause seeding and let the launched workers, and those they launch, run to their ends. */
  lemma {:induction false} Drain(w: World, dag: seq<Node>, run: seq<State>) returns (run': seq<State>)
    requires Topological(dag) && IsRun(w, dag, false, run)
    requires Inv(w, dag, Last(run)) && Honest(w, dag, Last(run))
    ensures IsRun(w, dag, false, run')
    ensures Inv(w, dag, Last(run')) && Honest(w, dag, Last(run')) && Last(run').seeded == Last(run).seeded
    ensures forall j :: 0 <= j < |Last(run').workers| ==> !Active(Last(run'), j)
    decreases |dag| - |Last(run).workers|, TotalWork(dag, Last(run).workers)
  {
    hide Remaining, CountsAgree;
    var s := Last(run);
    if j: nat :| j < |s.workers| && Active(s, j) {
      var s' := Advance(w, dag, s, j);
      assert WorkerStep(w, dag, s, s', j);
      WorkerStepInv(w, dag, s, s', j);
      StepProgress(w, dag, s, s', j);
      AdvanceHonest(w, dag, s, j);
      AtMostOneWorkerEach(dag, s');
      ExtendRun(w, dag, false, run, s');
      run' := Drain(w, dag, run + [s']);
    } else {
      run' := run;
    }
  }

  /** Seed the first n nodes before any worker moves. */
  lemma {:induction false} SeedUpTo(w: World, dag: seq<Node>, n: nat) returns (run: seq<State>)
    requires Topological(dag) && n <= |dag|
    ensures IsRun(w, dag, false, run)
    ensures AtomicInv(w, dag, Last(run)) && Last(run).seeded == n
    ensures forall i :: 0 <= i < |dag| ==> Last(run).released[i] == 0
    ensures forall j :: 0 <= j < |Last(run).workers| ==> Last(run).workers[j].pc.Running?
    decreases n
  {
    if n == 0 {
      InitInv(w, dag);
      run := [Init(dag)];
    } else {
      var before := SeedUpTo(w, dag, n - 1);
      var s := Last(before);
      assert Next(w, dag, true, s, Seed(dag, s));
      AtomicStep(w, dag, s, Seed(dag, s));
      ExtendRun(w, dag, false, before, Seed(dag, s));
      run := before + [Seed(dag, s)];
    }
  }

  lemma InputlessEvaluates(w: World, dag: seq<Node>, i: NodeID)
    requires Topological(dag) && i < |dag| && dag[i].inputs == [] && w.postTree([]).Some?
    ensures Value(w, dag, i).Some?
  {
    assert Entries(w, [], Filled(Values(w, dag, i))) == Ok([]);
  }

  /** Let i be the first node with inputs.  A schedule that finishes its inputs before the seeding
      loop reaches it launches it twice. */
  lemma RaceOnFirst(w: World, dag: seq<Node>, i: NodeID) returns (run: seq<State>)
    requires Topological(dag) && w.postTree([]).Some? && i < |dag| && dag[i].inputs != []
    requires forall n :: 0 <= n < i ==> dag[n].inputs == []
    ensures IsRun(w, dag, false, run) && !LaunchedOnce(Last(run))
  {
    var seeded := SeedUpTo(w, dag, i);
    var drained := Drain(w, dag, seeded);
    var s := Last(drained);
    forall k | 0 <= k < |dag[i].inputs| ensures Completed(s, dag[i].inputs[k].node) {
      var src := dag[i].inputs[k].node;
      assert Due(dag, s, src);
      var j :| 0 <= j < |s.workers| && s.workers[j].id == src;
      InputlessEvaluates(w, dag, src);
      assert !Active(s, j);
      assert s.workers[j] == Worker(src, Finished);
    }
    InputsCompletedNeedZero(w, dag, s, i);
    SeedInv(w, dag, s);
    ExtendRun(w, dag, false, drained, Seed(dag, s));
    run := drained + [Seed(dag, s)];
  }

  lemma {:induction false} NoInputsRunInv(w: World, dag: seq<Node>, run: seq<State>, i: nat)
    requires Topological(dag) && IsRun(w, dag, false, run) && i < |run|
    requires forall n :: 0 <= n < |dag| ==> dag[n].inputs == []
    ensures Inv(w, dag, run[i])
    decreases i
  {
    hide Remaining, CountsAgree;
    if i == 0 {
      InitInv(w, dag);
    } else {
      NoInputsRunInv(w, dag, run, i - 1);
      var s, s' := run[i - 1], run[i];
      assert Next(w, dag, false, s, s');
      if CanSeed(dag, s) && s' == Seed(dag, s) {
        SeedInv(w, dag, s);
      } else {
        var j :| WorkerStep(w, dag, s, s', j);
        WorkerStepInv(w, dag, s, s', j);
      }
    }
  }

  ghost predicate NeverLaunchedTwice(w: World, dag: seq<Node>)
    requires Topological(dag)
  {
    forall run :: IsRun(w, dag, false, run) ==> LaunchedOnce(Last(run))
  }

  lemma {:induction false} FirstWithInputs(dag: seq<Node>, i: NodeID) returns (first: NodeID)
    requires i < |dag| && dag[i].inputs != []
    ensures first < |dag| && dag[first].inputs != []
    ensures forall n :: 0 <= n < first ==> dag[n].inputs == []
    decreases i
  {
    if n: nat :| n < i && dag[n].inputs != [] {
      first := FirstWithInputs(dag, n);
    } else {
      first := i;
    }
  }

  /** With seeding interleaved, as the source has it, launching each node at most once is
      guaranteed exactly for graphs in which no node has inputs. */
  lemma InterleavedSeedingSafeIff(w: World, dag: seq<Node>)
    requires Topological(dag) && w.postTree([]).Some?
    ensures NeverLaunchedTwice(w, dag) <==> forall i :: 0 <= i < |dag| ==> dag[i].inputs == []
  {
    if i: nat :| i < |dag| && dag[i].inputs != [] {
      var first := FirstWithInputs(dag, i);
      var run := RaceOnFirst(w, dag, first);
      assert !NeverLaunchedTwice(w, dag);
    } else {
      forall run | IsRun(w, dag, false, run) ensures LaunchedOnce(Last(run)) {
        NoInputsRunInv(w, dag, run, |run| - 1);
      }
    }
  }

  /** The smallest racy graph: a fact, and one node that uses it. */
  lemma TwoNodeRace(w: World, ref: Ref)
    requires w.postTree([]).Some?
    ensures
      var dag := [Node(Some(ref), "", []), Node(None, "op", [NodeInput("", 0)])];
      Topological(dag) && !NeverLaunchedTwice(w, dag)
  {
    var dag := [Node(Some(ref), "", []), Node(None, "op", [NodeInput("", 0)])];
    InterleavedSeedingSafeIff(w, dag);
    assert dag[1].inputs != [];
  }

  // ----- interleaved runs: either a node is launched twice, or all is well -----

  /** A seeding iteration that launches a node a second time. */
  predicate SecondLaunch(dag: seq<Node>, s: State, s': State)
    requires Sized(dag, s)
  {
    SeedsTwice(dag, s) && s' == Seed(dag, s)
  }

  ghost predicate DoublySeeded(w: World, dag: seq<Node>, run: seq<State>)
    requires Topological(dag) && IsRun(w, dag, false, run)
  {
    exists i :: 0 <= i < |run| - 1 && SecondLaunch(dag, run[i], run[i + 1])
  }

  /** Workers are never forgotten, so a node with two workers keeps them. */
  lemma LaunchesStay(w: World, dag: seq<Node>, s: State, s': State)
    requires Topological(dag) && Sized(dag, s) && Next(w, dag, false, s, s') && LaunchedOnce(s')
    ensures LaunchedOnce(s)
  {
    hide NodeOutcome, Outs;
    assert |s.workers| <= |s'.workers|;
    assert forall j :: 0 <= j < |s.workers| ==> s.workers[j].id == s'.workers[j].id;
  }

  /** As long as no node has two workers, interleaved seeding keeps the invariant. */
  lemma {:induction false} InterleavedRunInv(w: World, dag: seq<Node>, run: seq<State>, i: nat)
    requires Topological(dag) && IsRun(w, dag, false, run) && i < |run| && LaunchedOnce(run[i])
    ensures Inv(w, dag, run[i])
    decreases i
  {
    hide Inv, LaunchedOnce, SeedsTwice, WorkerStep;
    if i == 0 {
      InitInv(w, dag);
    } else {
      var s, s' := run[i - 1], run[i];
      assert Next(w, dag, false, s, s');
      LaunchesStay(w, dag, s, s');
      InterleavedRunInv(w, dag, run, i - 1);
      if CanSeed(dag, s) && s' == Seed(dag, s) {
        SeedInv(w, dag, s);
      } else {
        var j :| WorkerStep(w, dag, s, s', j);
        WorkerStepInv(w, dag, s, s', j);
      }
    }
  }

  lemma {:induction false} LaunchedOnceBefore(w: World, dag: seq<Node>, run: seq<State>, m: nat, n: nat)
    requires Topological(dag) && IsRun(w, dag, false, run) && m <= n < |run| && LaunchedOnce(run[n])
    ensures LaunchedOnce(run[m])
    decreases n
  {
    hide Next, LaunchedOnce;
    if m < n {
      LaunchesStay(w, dag, run[n - 1], run[n]);
      LaunchedOnceBefore(w, dag, run, m, n - 1);
    }
  }

  /** Over any interleaving no node is launched twice exactly if the seeding loop never meets a node
      that has inputs and whose counter has already reached zero. */
  lemma RunSafeIff(w: World, dag: seq<Node>, run: seq<State>)
    requires Topological(dag) && IsRun(w, dag, false, run)
    ensures LaunchedOnce(Last(run)) <==> !DoublySeeded(w, dag, run)
  {
    hide Inv, LaunchedOnce, Next, SecondLaunch;
    if LaunchedOnce(Last(run)) && DoublySeeded(w, dag, run) {
      var i :| 0 <= i < |run| - 1 && SecondLaunch(dag, run[i], run[i + 1]);
      LaunchedOnceBefore(w, dag, run, i, |run| - 1);
      LaunchedOnceBefore(w, dag, run, i + 1, |run| - 1);
      InterleavedRunInv(w, dag, run, i);
      SecondLaunchBreaks(w, dag, run[i], run[i + 1]);
      assert false;
    }
    if !DoublySeeded(w, dag, run) { NotDoublySeeded(w, dag, run, |run| - 1); }
  }

  lemma SecondLaunchBreaks(w: World, dag: seq<Node>, s: State, s': State)
    requires Topological(dag) && Inv(w, dag, s) && SecondLaunch(dag, s, s')
    ensures !LaunchedOnce(s')
  {
    hide LaunchedOnce, Remaining, CountsAgree;
    SeedInv(w, dag, s);
  }

  lemma {:induction false} NotDoublySeeded(w: World, dag: seq<Node>, run: seq<State>, i: nat)
    requires Topological(dag) && IsRun(w, dag, false, run) && i < |run| && !DoublySeeded(w, dag, run)
    ensures LaunchedOnce(run[i])
    decreases i
  {
    hide Inv, LaunchedOnce, Next, SecondLaunch;
    if i == 0 {
      InitInv(w, dag);
      InvLaunchedOnce(w, dag, run[0]);
    } else {
      NotDoublySeeded(w, dag, run, i - 1);
      InterleavedRunInv(w, dag, run, i - 1);
      assert Next(w, dag, false, run[i - 1], run[i - 1 + 1]);
      assert !SecondLaunch(dag, run[i - 1], run[i - 1 + 1]);
      NoSecondLaunch(w, dag, run[i - 1], run[i]);
    }
  }

  lemma InvLaunchedOnce(w: World, dag: seq<Node>, s: State)
    requires Topological(dag) && Inv(w, dag, s)
    ensures LaunchedOnce(s)
  {}

  lemma NoSecondLaunch(w: World, dag: seq<Node>, s: State, s': State)
    requires Topological(dag) && Inv(w, dag, s) && Next(w, dag, false, s, s') && !SecondLaunch(dag, s, s')
    ensures LaunchedOnce(s')
  {
    hide Inv, LaunchedOnce, WorkerStep;
    InvSized(w, dag, s);
    if CanSeed(dag, s) && s' == Seed(dag, s) {
      SeedInv(w, dag, s);
    } else {
      var j :| WorkerStep(w, dag, s, s', j);
      WorkerStepInv(w, dag, s, s', j);
    }
    InvLaunchedOnce(w, dag, s');
  }

  lemma InvSized(w: World, dag: seq<Node>, s: State)
    requires Topological(dag) && Inv(w, dag, s)
    ensures Sized(dag, s)
  {}

  /** Every finished run, with seeding interleaved as the source has it, either launches some node
      twice or ends as the serial run ends. */
  lemma InterleavedRefinesSerial(w: World, dag: seq<Node>, run: seq<State>)
    requires Topological(dag) && |dag| > 0 && IsRun(w, dag, false, run) && Quiescent(dag, Last(run))
    requires LaunchedOnce(Last(run))
    ensures Fails(Last(run)) <==> !SerialExec.AllEvaluate(w, dag)
    ensures !Fails(Last(run)) ==> forall i :: 0 <= i < |dag| ==> Value(w, dag, i) == Some(Last(run).results[i])
  {
    hide Inv, LaunchedOnce, Next, Quiescent, Fails;
    InterleavedRunInv(w, dag, run, |run| - 1);
    QuiescentMatchesSerial(w, dag, Last(run));
  }

  /** And while no node has two workers, every launched node finds all its inputs. */
  lemma InterleavedSafety(w: World, dag: seq<Node>, run: seq<State>, i: nat)
    requires Topological(dag) && IsRun(w, dag, false, run) && i < |run| && LaunchedOnce(run[i])
    ensures CountsAgree(dag, run[i].need, run[i].released)
    ensures forall n, k :: 0 <= n < |dag| && Launched(run[i], n) && 0 <= k < |dag[n].inputs| ==>
              Value(w, dag, dag[n].inputs[k].node) == Some(run[i].results[dag[n].inputs[k].node])
  {
    hide Remaining, CountsAgree, Next;
    InterleavedRunInv(w, dag, run, i);
    forall n | 0 <= n < |dag| && Launched(run[i], n)
      ensures forall k :: 0 <= k < |dag[n].inputs| ==>
                Value(w, dag, dag[n].inputs[k].node) == Some(run[i].results[dag[n].inputs[k].node])
    {
      InputsReady(w, dag, run[i], n);
    }
  }

  // ----- what a double launch leads to -----

  /** A fact, a node that uses it, another fact, and a node that uses both. */
  function Diamond(ref: Ref): seq<Node> {
    [Node(Some(ref), "", []), Node(None, "op", [NodeInput("", 0)]), Node(Some(ref), "", []),
     Node(None, "op", [NodeInput("a", 1), NodeInput("b", 2)])]
  }

  /** The world is such that the serial run of the diamond succeeds. */
  ghost predicate DiamondRuns(w: World, ref: Ref) {
    var res := w.exec("op", w.marshal(ref));
    && w.parse(w.marshal(ref)) == Some(ref) && w.parse("") == None
    && res.errCode == 0 && w.parse(res.root).Some?
    && forall ents :: w.postTree(ents).Some?
  }

  lemma DiamondOuts(ref: Ref)
    ensures
      var dag := Diamond(ref);
      Topological(dag) && Outs(dag, 0) == [1] && Outs(dag, 1) == [3] && Outs(dag, 2) == [3] && Outs(dag, 3) == []
  {
    hide Targets;
    var dag := Diamond(ref);
    forall src: NodeID ensures Outs(dag, src) == Targets(dag[1].inputs, 1, src) + Targets(dag[3].inputs, 3, src) {
      TargetsNone(0, src);
      TargetsNone(2, src);
      assert Unblocks(dag, 0, src) == [] && Unblocks(dag, 1, src) == [];
      assert Unblocks(dag, 2, src) == Targets(dag[1].inputs, 1, src);
      assert Unblocks(dag, 3, src) == Targets(dag[1].inputs, 1, src);
    }
    TargetsOfOne(NodeInput("", 0), 1);
    TargetsOfTwo(NodeInput("a", 1), NodeInput("b", 2), 3);
  }

  lemma TargetsNone(id: NodeID, src: NodeID)
    ensures Targets([], id, src) == []
  {}

  lemma TargetsOfOne(x: NodeInput, id: NodeID)
    ensures forall src :: Targets([x], id, src) == if src == x.node then [id] else []
  {
    assert [x][..0] == [];
  }

  lemma TargetsOfTwo(x: NodeInput, y: NodeInput, id: NodeID)
    ensures forall src :: Targets([x, y], id, src) ==
              (if src == x.node then [id] else []) + (if src == y.node then [id] else [])
  {
    assert [x, y][..1] == [x];
    TargetsOfOne(x, id);
  }

  lemma DiamondEvaluates(w: World, ref: Ref)
    requires DiamondRuns(w, ref)
    ensures Topological(Diamond(ref)) && SerialExec.AllEvaluate(w, Diamond(ref))
  {
    hide Value, Values;
    var dag := Diamond(ref);
    var results := [Success(w, ref), w.exec("op", w.marshal(ref)), Success(w, ref), ZERO_RESULT];
    ValueFromResults(w, dag, 0, results);
    OneEntry(w, dag[1].inputs, results);
    ValueFromResults(w, dag, 1, results);
    ValueFromResults(w, dag, 2, results);
    EntriesFailIff(w, dag[3].inputs, results);
    ValueFromResults(w, dag, 3, results);
    assert NodeOutcome(w, dag[3], results).Ok?;
  }

  lemma OneEntry(w: World, ins: seq<NodeInput>, results: seq<Result>)
    requires |ins| == 1 && ins[0].name == "" && ins[0].node < |results|
    requires results[ins[0].node].errCode == 0 && w.parse(results[ins[0].node].root).Some?
    ensures PrepareInput(w, ins, results) == Ok(w.parse(results[ins[0].node].root).value)
  {
    assert ins[..0] == [];
    assert Entries(w, ins[..0], results) == Ok([]);
  }

  /** The states of the racy run up to the moment the last node is launched too early. */
  function DiamondRun(w: World, ref: Ref): seq<State> {
    var z := ZERO_RESULT;
    var f, r := Success(w, ref), w.exec("op", w.marshal(ref));
    [State([z, z, z, z], [0, 1, 0, 2], 0, [], [0, 0, 0, 0]),
     State([z, z, z, z], [0, 1, 0, 2], 1, [Worker(0, Running)], [0, 0, 0, 0]),
     State([f, z, z, z], [0, 1, 0, 2], 1, [Worker(0, Releasing(0))], [0, 0, 0, 0]),
     State([f, z, z, z], [0, 0, 0, 2], 1, [Worker(0, Releasing(1)), Worker(1, Running)], [1, 0, 0, 0]),
     State([f, z, z, z], [0, 0, 0, 2], 2, [Worker(0, Releasing(1)), Worker(1, Running), Worker(1, Running)], [1, 0, 0, 0]),
     State([f, r, z, z], [0, 0, 0, 2], 2, [Worker(0, Releasing(1)), Worker(1, Releasing(0)), Worker(1, Running)], [1, 0, 0, 0]),
     State([f, r, z, z], [0, 0, 0, 1], 2, [Worker(0, Releasing(1)), Worker(1, Releasing(1)), Worker(1, Running)], [1, 1, 0, 0]),
     State([f, r, z, z], [0, 0, 0, 1], 2, [Worker(0, Releasing(1)), Worker(1, Releasing(1)), Worker(1, Releasing(0))], [1, 1, 0, 0]),
     State([f, r, z, z], [0, 0, 0, 0], 2,
           [Worker(0, Releasing(1)), Worker(1, Releasing(1)), Worker(1, Releasing(1)), Worker(3, Running)], [1, 2, 0, 0]),
     State([f, r, z, z], [0, 0, 0, 0], 2,
           [Worker(0, Releasing(1)), Worker(1, Releasing(1)), Worker(1, Releasing(1)), Worker(3, Failed)], [1, 2, 0, 0])]
  }

  /** The i-th step of that run is a step of the machine. */
  lemma DiamondStep(w: World, ref: Ref, i: nat)
    requires DiamondRuns(w, ref) && i < 9
    ensures
      var dag, run := Diamond(ref), DiamondRun(w, ref);
      Topological(dag) && Sized(dag, run[i]) && Sized(dag, run[i + 1]) && Next(w, dag, false, run[i], run[i + 1])
  {
    hide Outs, NodeOutcome, Advance;
    DiamondOuts(ref);
    var dag, run := Diamond(ref), DiamondRun(w, ref);
    if i == 0 || i == 3 {
      assert run[i + 1] == Seed(dag, run[i]);
    } else if i == 2 || i == 5 || i == 7 {
      DiamondRelease(w, ref, i);
      assert WorkerStep(w, dag, run[i], run[i + 1], i / 3);
    } else {
      DiamondCompute(w, ref, i);
      assert WorkerStep(w, dag, run[i], run[i + 1], DiamondWorker(i));
    }
  }

  /** Which worker computes in a step. */
  function DiamondWorker(i: nat): nat {
    if i == 1 then 0 else if i == 4 then 1 else if i == 6 then 2 else 3
  }

  lemma DiamondRelease(w: World, ref: Ref, i: nat)
    requires Topological(Diamond(ref)) && (i == 2 || i == 5 || i == 7)
    ensures
      var dag, run := Diamond(ref), DiamondRun(w, ref);
      Sized(dag, run[i]) && Active(run[i], i / 3) && run[i + 1] == Advance(w, dag, run[i], i / 3)
  {
    hide Outs, NodeOutcome;
    DiamondOuts(ref);
  }

  lemma DiamondCompute(w: World, ref: Ref, i: nat)
    requires DiamondRuns(w, ref) && (i == 1 || i == 4 || i == 6 || i == 8)
    ensures
      var dag, run := Diamond(ref), DiamondRun(w, ref);
      && Topological(dag) && Sized(dag, run[i]) && Active(run[i], DiamondWorker(i))
      && run[i + 1] == Advance(w, dag, run[i], DiamondWorker(i))
  {
    hide Outs, NodeOutcome, Release;
    DiamondOutcomes(w, ref);
  }

  /** What the diamond's nodes compute before node 2 has a result. */
  lemma DiamondOutcomes(w: World, ref: Ref)
    requires DiamondRuns(w, ref)
    ensures
      var dag, z := Diamond(ref), ZERO_RESULT;
      var f, r := Success(w, ref), w.exec("op", w.marshal(ref));
      && NodeOutcome(w, dag[0], [z, z, z, z]) == Ok(f)
      && NodeOutcome(w, dag[1], [f, z, z, z]) == Ok(r)
      && NodeOutcome(w, dag[1], [f, r, z, z]) == Ok(r)
      && NodeOutcome(w, dag[3], [f, r, z, z]).Err?
  {
    hide Entries;
    var dag, z := Diamond(ref), ZERO_RESULT;
    var f, r := Success(w, ref), w.exec("op", w.marshal(ref));
    OneEntry(w, dag[1].inputs, [f, z, z, z]);
    OneEntry(w, dag[1].inputs, [f, r, z, z]);
    EntriesFailIff(w, dag[3].inputs, [f, r, z, z]);
    assert w.parse([f, r, z, z][dag[3].inputs[1].node].root).None?;
  }

  /** A failed worker stays failed, so the run it belongs to fails. */
  lemma {:induction false} FailureStays(w: World, dag: seq<Node>, run: seq<State>, m: nat, n: nat)
    requires Topological(dag) && IsRun(w, dag, false, run) && m <= n < |run| && Fails(run[m])
    ensures Fails(run[n])
    decreases n
  {
    hide Next, Fails;
    if m < n {
      FailureStays(w, dag, run, m, n - 1);
      assert Next(w, dag, false, run[n - 1], run[n - 1 + 1]);
      FailureStep(w, dag, run[n - 1], run[n]);
    }
  }

  lemma FailureStep(w: World, dag: seq<Node>, s: State, s': State)
    requires Topological(dag) && Sized(dag, s) && Next(w, dag, false, s, s') && Fails(s)
    ensures Fails(s')
  {
    hide NodeOutcome, Outs;
    var f :| 0 <= f < |s.workers| && s.workers[f].pc.Failed?;
    assert s'.workers[f] == s.workers[f];
  }

  /** With seeding interleaved, a duplicate worker's releases can launch a node before one of its
      inputs has a result or even a worker; the run then fails although the serial run succeeds, and
      so does every run that begins like it. */
  lemma RaceBreaksRefinement(w: World, ref: Ref)
    requires DiamondRuns(w, ref)
    ensures
      var dag, run := Diamond(ref), DiamondRun(w, ref);
      && Topological(dag) && IsRun(w, dag, false, run) && SerialExec.AllEvaluate(w, dag)
      && run[8].workers[3] == Worker(3, Running) && dag[3].inputs[1].node == 2 && !Launched(run[8], 2)
      && forall more: seq<State> :: IsRun(w, dag, false, run + more) ==> Fails(Last(run + more))
  {
    hide DiamondRuns, NodeOutcome, SerialExec.AllEvaluate, Next;
    var dag, run := Diamond(ref), DiamondRun(w, ref);
    DiamondEvaluates(w, ref);
    forall i | 0 <= i < |run| - 1 ensures Next(w, dag, false, run[i], run[i + 1]) {
      DiamondStep(w, ref, i);
    }
    assert forall i :: 0 <= i < |run| ==> Sized(dag, run[i]);
    assert run[0] == Init(dag);
    assert run[9].workers[3].pc.Failed?;
    forall more: seq<State> | IsRun(w, dag, false, run + more) ensures Fails(Last(run + more)) {
      assert (run + more)[9] == run[9];
      FailureStays(w, dag, run + more, 9, |run + more| - 1);
    }
  }
}
