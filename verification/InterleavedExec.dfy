/** Which graphs are safe to run although the seeding loop interleaves with the workers.

    A node with inputs may then be launched twice, and its workers release everything it unblocks twice.
    The counters can no longer be trusted in general, but they can for graphs in which a node that waits
    for a derived node waits, apart from it, only for what that node itself depends on. */
module InterleavedExec {
  import opened Dag
  import opened ParallelExec
  import SerialExec

  // ----- the condition -----

  /** The node a is needed, directly or not, for i. */
  predicate Ancestor(dag: seq<Node>, a: NodeID, i: NodeID)
    requires Topological(dag) && i < |dag|
    decreases i
  {
    exists k :: 0 <= k < |dag[i].inputs| && (dag[i].inputs[k].node == a || Ancestor(dag, a, dag[i].inputs[k].node))
  }

  /** Of two different inputs of a node, one that has inputs itself depends on the other. */
  predicate Staggered(dag: seq<Node>)
    requires Topological(dag)
  {
    forall t, k, m :: 0 <= t < |dag| && 0 <= k < |dag[t].inputs| && 0 <= m < |dag[t].inputs| ==>
      var i, j := dag[t].inputs[k].node, dag[t].inputs[m].node;
      i != j && dag[i].inputs != [] ==> Ancestor(dag, j, i)
  }

  lemma {:induction false} AncestorBefore(dag: seq<Node>, a: NodeID, i: NodeID)
    requires Topological(dag) && i < |dag| && Ancestor(dag, a, i)
    ensures a < i
    decreases i
  {
    var k :| 0 <= k < |dag[i].inputs| && (dag[i].inputs[k].node == a || Ancestor(dag, a, dag[i].inputs[k].node));
    if dag[i].inputs[k].node != a { AncestorBefore(dag, a, dag[i].inputs[k].node); }
  }

  // ----- counting releases, worker by worker -----

  /** How many of the nodes it unblocks a worker has released. */
  function Done(dag: seq<Node>, wk: Worker): nat {
    match wk.pc
    case Releasing(k) => if k <= |Outs(dag, wk.id)| then k else |Outs(dag, wk.id)|
    case Finished => |Outs(dag, wk.id)|
    case _ => 0
  }

  function ReleasesOf(dag: seq<Node>, wk: Worker, t: NodeID): nat {
    Count(Outs(dag, wk.id)[..Done(dag, wk)], t)
  }

  /** Releases of t by the workers of src. */
  function From(dag: seq<Node>, ws: seq<Worker>, src: NodeID, t: NodeID): nat {
    if ws == [] then 0
    else From(dag, ws[..|ws| - 1], src, t) + if ws[|ws| - 1].id == src then ReleasesOf(dag, ws[|ws| - 1], t) else 0
  }

  /** Releases of t by the workers of the first m nodes. */
  function FromFirst(dag: seq<Node>, ws: seq<Worker>, t: NodeID, m: nat): nat {
    if m == 0 then 0 else FromFirst(dag, ws, t, m - 1) + From(dag, ws, m - 1, t)
  }

  lemma {:induction false} FromUpdate(dag: seq<Node>, ws: seq<Worker>, j: nat, wk: Worker, src: NodeID, t: NodeID)
    requires j < |ws| && wk.id == ws[j].id
    ensures From(dag, ws[j := wk], src, t) + (if src == wk.id then ReleasesOf(dag, ws[j], t) else 0)
            == From(dag, ws, src, t) + if src == wk.id then ReleasesOf(dag, wk, t) else 0
    decreases |ws|
  {
    hide ReleasesOf;
    var init := ws[..|ws| - 1];
    if j == |ws| - 1 {
      assert ws[j := wk][..j] == init;
    } else {
      FromUpdate(dag, init, j, wk, src, t);
      assert ws[j := wk][..|ws| - 1] == init[j := wk];
    }
  }

  lemma {:induction false} FromFirstUpdate(dag: seq<Node>, ws: seq<Worker>, j: nat, wk: Worker, t: NodeID, m: nat)
    requires j < |ws| && wk.id == ws[j].id
    ensures FromFirst(dag, ws[j := wk], t, m) + (if wk.id < m then ReleasesOf(dag, ws[j], t) else 0)
            == FromFirst(dag, ws, t, m) + if wk.id < m then ReleasesOf(dag, wk, t) else 0
    decreases m
  {
    hide ReleasesOf, From;
    if m > 0 {
      FromFirstUpdate(dag, ws, j, wk, t, m - 1);
      FromUpdate(dag, ws, j, wk, m - 1, t);
    }
  }

  /** A worker that has not released anything changes no count. */
  lemma {:induction false} FromFirstAppend(dag: seq<Node>, ws: seq<Worker>, wk: Worker, t: NodeID, m: nat)
    requires wk.pc.Running?
    ensures FromFirst(dag, ws + [wk], t, m) == FromFirst(dag, ws, t, m)
    decreases m
  {
    if m > 0 {
      FromFirstAppend(dag, ws, wk, t, m - 1);
      assert (ws + [wk])[..|ws|] == ws;
      assert Outs(dag, wk.id)[..0] == [];
    }
  }

  /** Whoever has a result has a worker past computing it. */
  ghost predicate Ready(s: State, i: NodeID) {
    exists j :: 0 <= j < |s.workers| && s.workers[j].id == i && (s.workers[j].pc.Releasing? || s.workers[j].pc.Finished?)
  }

  lemma {:induction false} FromNotReady(dag: seq<Node>, s: State, ws: seq<Worker>, src: NodeID, t: NodeID)
    requires ws <= s.workers && !Ready(s, src)
    ensures From(dag, ws, src, t) == 0
    decreases |ws|
  {
    if ws != [] {
      FromNotReady(dag, s, ws[..|ws| - 1], src, t);
      assert ws[|ws| - 1] == s.workers[|ws| - 1];
      assert Outs(dag, src)[..0] == [];
    }
  }

  lemma CountPrefix(xs: seq<NodeID>, n: nat, t: NodeID)
    requires n <= |xs|
    ensures Count(xs[..n], t) <= Count(xs, t)
  {
    assert xs == xs[..n] + xs[n..];
    CountInConcat(xs[..n], xs[n..], t);
  }

  lemma ReleasesAtMost(dag: seq<Node>, wk: Worker, t: NodeID)
    requires t < |dag|
    ensures ReleasesOf(dag, wk, t) <= EdgeCount(dag[t].inputs, wk.id)
    ensures wk.pc.Finished? ==> ReleasesOf(dag, wk, t) == EdgeCount(dag[t].inputs, wk.id)
  {
    var outs := Outs(dag, wk.id);
    CountPrefix(outs, Done(dag, wk), t);
    UnblocksCount(dag, |dag|, wk.id, t);
    assert outs[..|outs|] == outs;
  }

  ghost predicate OneWorker(ws: seq<Worker>, src: NodeID) {
    forall a, b :: 0 <= a < b < |ws| ==> !(ws[a].id == src && ws[b].id == src)
  }

  /** A node with one worker releases each edge at most once. */
  lemma {:induction false} FromOneWorker(dag: seq<Node>, ws: seq<Worker>, src: NodeID, t: NodeID)
    requires t < |dag| && OneWorker(ws, src)
    ensures From(dag, ws, src, t) <= EdgeCount(dag[t].inputs, src)
    ensures (forall j :: 0 <= j < |ws| ==> ws[j].id != src) ==> From(dag, ws, src, t) == 0
    decreases |ws|
  {
    hide ReleasesOf, EdgeCount;
    if ws != [] {
      var init, last := ws[..|ws| - 1], ws[|ws| - 1];
      FromOneWorker(dag, init, src, t);
      ReleasesAtMost(dag, last, t);
      assert last.id == src ==> forall j :: 0 <= j < |init| ==> init[j].id != src;
    }
  }

  /** What one of its workers has released is part of what the node has. */
  lemma {:induction false} FromAtLeast(dag: seq<Node>, ws: seq<Worker>, j: nat, t: NodeID)
    requires j < |ws|
    ensures From(dag, ws, ws[j].id, t) >= ReleasesOf(dag, ws[j], t)
    decreases |ws|
  {
    hide ReleasesOf;
    if j < |ws| - 1 { FromAtLeast(dag, ws[..|ws| - 1], j, t); }
  }

  lemma {:induction false} EdgeCountIff(ins: seq<NodeInput>, src: NodeID)
    ensures EdgeCount(ins, src) > 0 <==> exists k :: 0 <= k < |ins| && ins[k].node == src
    decreases |ins|
  {
    if ins != [] {
      var init := ins[..|ins| - 1];
      EdgeCountIff(init, src);
      if EdgeCount(init, src) > 0 {
        var k :| 0 <= k < |init| && init[k].node == src;
        assert ins[k].node == src;
      }
      if k :| 0 <= k < |ins| && ins[k].node == src {
        if k < |init| { assert init[k].node == src; }
      }
    }
  }

  /** If no source exceeds its edges and one falls short, the total falls short. */
  lemma {:induction false} TotalShort(dag: seq<Node>, ws: seq<Worker>, t: NodeID, m: nat, src: NodeID)
    requires t < |dag| && forall x :: 0 <= x < m ==> From(dag, ws, x, t) <= EdgeCount(dag[t].inputs, x)
    ensures FromFirst(dag, ws, t, m) <= EdgeSum(dag[t].inputs, m)
    ensures src < m && From(dag, ws, src, t) < EdgeCount(dag[t].inputs, src) ==>
              FromFirst(dag, ws, t, m) < EdgeSum(dag[t].inputs, m)
    decreases m
  {
    hide From, EdgeCount;
    if m > 0 { TotalShort(dag, ws, t, m - 1, src); }
  }

  lemma {:induction false} TotalEnough(dag: seq<Node>, ws: seq<Worker>, t: NodeID, m: nat)
    requires t < |dag| && forall x :: 0 <= x < m ==> From(dag, ws, x, t) >= EdgeCount(dag[t].inputs, x)
    ensures FromFirst(dag, ws, t, m) >= EdgeSum(dag[t].inputs, m)
    decreases m
  {
    hide From, EdgeCount;
    if m > 0 { TotalEnough(dag, ws, t, m - 1); }
  }

  // ----- the invariant -----

  /** The counters agree with what all workers together have released. */
  ghost predicate Counted(dag: seq<Node>, s: State) {
    |s.need| == |dag| &&
    forall t :: 0 <= t < |dag| ==> s.need[t] == |dag[t].inputs| - FromFirst(dag, s.workers, t, |dag|)
  }

  /** A node is due when it has no inputs and seeding has passed it, or its counter has reached zero. */
  predicate Triggered(dag: seq<Node>, s: State, t: NodeID)
    requires Sized(dag, s) && t < |dag|
  {
    if dag[t].inputs == [] then t < s.seeded else s.need[t] <= 0
  }

  ghost predicate WorkerFine(w: World, dag: seq<Node>, s: State, wk: Worker)
    requires Topological(dag) && Sized(dag, s) && wk.id < |dag|
  {
    match wk.pc
    case Running => true
    case Failed => !SerialExec.AllEvaluate(w, dag)
    case Releasing(k) => k <= |Outs(dag, wk.id)| && Value(w, dag, wk.id) == Some(s.results[wk.id])
    case Finished => Value(w, dag, wk.id) == Some(s.results[wk.id])
  }

  ghost predicate InputsAreReady(dag: seq<Node>, s: State, t: NodeID)
    requires t < |dag|
  {
    forall k :: 0 <= k < |dag[t].inputs| ==> Ready(s, dag[t].inputs[k].node)
  }

  ghost predicate LooseInv(w: World, dag: seq<Node>, s: State)
    requires Topological(dag)
  {
    && Sized(dag, s) && Counted(dag, s)
    && (forall t :: 0 <= t < |dag| ==> (Launched(s, t) <==> Triggered(dag, s, t)))
    && (forall t :: 0 <= t < |dag| && dag[t].inputs == [] ==> OneWorker(s.workers, t))
    && (forall j :: 0 <= j < |s.workers| ==> WorkerFine(w, dag, s, s.workers[j]))
    && forall t :: 0 <= t < |dag| && Launched(s, t) ==> InputsAreReady(dag, s, t)
  }

  // ----- a counter at zero means what it should -----

  /** What has a result was launched, so everything it depends on has one too. */
  lemma {:induction false} AncestorsReady(dag: seq<Node>, s: State, a: NodeID, i: NodeID)
    requires Topological(dag) && i < |dag| && Ready(s, i) && Ancestor(dag, a, i)
    requires forall x :: 0 <= x <= i && Launched(s, x) ==> InputsAreReady(dag, s, x)
    ensures Ready(s, a)
    decreases i
  {
    assert Launched(s, i);
    var k :| 0 <= k < |dag[i].inputs| && (dag[i].inputs[k].node == a || Ancestor(dag, a, dag[i].inputs[k].node));
    assert Ready(s, dag[i].inputs[k].node);
    if dag[i].inputs[k].node != a { AncestorsReady(dag, s, a, dag[i].inputs[k].node); }
  }

  /** If all sources but one release each edge at most once, a counter at zero needs that one. */
  lemma SourceReady(dag: seq<Node>, s: State, t: NodeID, src: NodeID)
    requires Topological(dag) && Counted(dag, s) && t < |dag| && s.need[t] <= 0
    requires exists k :: 0 <= k < |dag[t].inputs| && dag[t].inputs[k].node == src
    requires forall k :: 0 <= k < |dag[t].inputs| && dag[t].inputs[k].node != src ==> OneWorker(s.workers, dag[t].inputs[k].node)
    ensures Ready(s, src)
  {
    hide EdgeCount, From, FromFirst, OneWorker, Ready, EdgeSum;
    if !Ready(s, src) {
      var ins := dag[t].inputs;
      forall x: NodeID | x < |dag| ensures From(dag, s.workers, x, t) <= EdgeCount(ins, x) {
        if x == src {
          FromNotReady(dag, s, s.workers, src, t);
        } else {
          FromBounded(dag, s.workers, x, t);
        }
      }
      FromNotReady(dag, s, s.workers, src, t);
      EdgeCountIff(ins, src);
      TotalShort(dag, s.workers, t, |dag|, src);
      EdgeSumTotal(ins, |dag|);
      assert false;
    }
  }

  /** A source with one worker, or none at all, does not exceed its edges. */
  lemma FromBounded(dag: seq<Node>, ws: seq<Worker>, x: NodeID, t: NodeID)
    requires t < |dag| && x < |dag|
    requires (exists k :: 0 <= k < |dag[t].inputs| && dag[t].inputs[k].node == x) ==> OneWorker(ws, x)
    ensures From(dag, ws, x, t) <= EdgeCount(dag[t].inputs, x)
  {
    hide EdgeCount, OneWorker;
    EdgeCountIff(dag[t].inputs, x);
    if EdgeCount(dag[t].inputs, x) > 0 { FromOneWorker(dag, ws, x, t); } else { FromNoEdges(dag, ws, x, t); }
  }

  lemma {:induction false} FromNoEdges(dag: seq<Node>, ws: seq<Worker>, x: NodeID, t: NodeID)
    requires t < |dag| && EdgeCount(dag[t].inputs, x) == 0
    ensures From(dag, ws, x, t) == 0
    decreases |ws|
  {
    hide ReleasesOf, EdgeCount;
    if ws != [] {
      FromNoEdges(dag, ws[..|ws| - 1], x, t);
      ReleasesAtMost(dag, ws[|ws| - 1], t);
    }
  }

  /** In a staggered graph a counter at zero means that all inputs have results. */
  lemma TriggeredReady(dag: seq<Node>, s: State, t: NodeID)
    requires Topological(dag) && Staggered(dag) && Counted(dag, s) && t < |dag| && s.need[t] <= 0
    requires forall x :: 0 <= x < |dag| && dag[x].inputs == [] ==> OneWorker(s.workers, x)
    requires forall x :: 0 <= x < t && Launched(s, x) ==> InputsAreReady(dag, s, x)
    ensures InputsAreReady(dag, s, t)
  {
    hide Counted, OneWorker, Ready, Launched, Ancestor, InputsAreReady;
    var ins := dag[t].inputs;
    if k :| 0 <= k < |ins| && dag[ins[k].node].inputs != [] {
      var i := ins[k].node;
      forall m | 0 <= m < |ins| && ins[m].node != i ensures dag[ins[m].node].inputs == [] && Ancestor(dag, ins[m].node, i) {
        OthersAreSources(dag, t, k, m);
      }
      SourceReady(dag, s, t, i);
      forall m | 0 <= m < |ins| ensures Ready(s, ins[m].node) {
        if ins[m].node != i { AncestorsReady(dag, s, ins[m].node, i); }
      }
    } else {
      forall m | 0 <= m < |ins| ensures Ready(s, ins[m].node) {
        SourceReady(dag, s, t, ins[m].node);
      }
    }
    AllReady(dag, s, t);
  }

  lemma AllReady(dag: seq<Node>, s: State, t: NodeID)
    requires t < |dag| && forall m :: 0 <= m < |dag[t].inputs| ==> Ready(s, dag[t].inputs[m].node)
    ensures InputsAreReady(dag, s, t)
  {}

  /** Beside an input that has inputs, all others are sources and needed for it. */
  lemma OthersAreSources(dag: seq<Node>, t: NodeID, k: nat, m: nat)
    requires Topological(dag) && Staggered(dag) && t < |dag| && k < |dag[t].inputs| && m < |dag[t].inputs|
    requires dag[dag[t].inputs[k].node].inputs != [] && dag[t].inputs[m].node != dag[t].inputs[k].node
    ensures dag[dag[t].inputs[m].node].inputs == [] && Ancestor(dag, dag[t].inputs[m].node, dag[t].inputs[k].node)
  {
    hide Ancestor;
    var i, j := dag[t].inputs[k].node, dag[t].inputs[m].node;
    assert Ancestor(dag, j, i);
    AncestorBefore(dag, j, i);
    if dag[j].inputs != [] {
      assert Ancestor(dag, i, j);
      AncestorBefore(dag, i, j);
      assert false;
    }
  }

  // ----- the invariant is kept -----

  /** Workers keep their nodes, and results stay stored; nothing else need hold. */
  ghost predicate Evolves(s: State, s': State) {
    && |s.workers| <= |s'.workers|
    && forall j :: 0 <= j < |s.workers| ==>
         && s'.workers[j].id == s.workers[j].id
         && ((s.workers[j].pc.Releasing? || s.workers[j].pc.Finished?) ==>
               (s'.workers[j].pc.Releasing? || s'.workers[j].pc.Finished?))
  }

  lemma ReadyStays(dag: seq<Node>, s: State, s': State, t: NodeID)
    requires Evolves(s, s') && t < |dag| && InputsAreReady(dag, s, t)
    ensures InputsAreReady(dag, s', t)
  {
    forall k | 0 <= k < |dag[t].inputs| ensures Ready(s', dag[t].inputs[k].node) {
      var j :| 0 <= j < |s.workers| && s.workers[j].id == dag[t].inputs[k].node &&
        (s.workers[j].pc.Releasing? || s.workers[j].pc.Finished?);
      assert s'.workers[j].id == dag[t].inputs[k].node;
    }
  }

  /** One worker moves on without a release; its node's result is stored if it has one. */
  ghost predicate MovesOn(dag: seq<Node>, s: State, s': State, j: nat, pc: Pc)
    requires Sized(dag, s) && j < |s.workers|
  {
    && s'.workers == s.workers[j := Worker(s.workers[j].id, pc)]
    && s'.need == s.need && s'.seeded == s.seeded && Sized(dag, s')
    && Done(dag, s'.workers[j]) == Done(dag, s.workers[j])
    && (s.workers[j].pc.Releasing? || s.workers[j].pc.Finished? ==> pc.Releasing? || pc.Finished?)
  }

  lemma MovesOnCounted(dag: seq<Node>, s: State, s': State, j: nat, pc: Pc)
    requires Sized(dag, s) && j < |s.workers| && Counted(dag, s) && MovesOn(dag, s, s', j, pc)
    ensures Counted(dag, s')
  {
    hide FromFirst, Count, Outs;
    forall t | 0 <= t < |dag| ensures FromFirst(dag, s'.workers, t, |dag|) == FromFirst(dag, s.workers, t, |dag|) {
      FromFirstUpdate(dag, s.workers, j, s'.workers[j], t, |dag|);
    }
  }

  lemma SameLaunches(s: State, s': State, j: nat, pc: Pc)
    requires j < |s.workers| && s'.workers == s.workers[j := Worker(s.workers[j].id, pc)]
    ensures forall t: NodeID :: Launched(s', t) <==> Launched(s, t)
    ensures forall t: NodeID :: OneWorker(s.workers, t) ==> OneWorker(s'.workers, t)
  {
    forall t: NodeID ensures Launched(s', t) <==> Launched(s, t) {
      if Launched(s, t) {
        var a :| 0 <= a < |s.workers| && s.workers[a].id == t;
        assert s'.workers[a].id == t;
      }
      if Launched(s', t) {
        var a :| 0 <= a < |s'.workers| && s'.workers[a].id == t;
        assert s.workers[a].id == t;
      }
    }
  }

  lemma MovesOnLoose(w: World, dag: seq<Node>, s: State, s': State, j: nat, pc: Pc)
    requires Topological(dag) && LooseInv(w, dag, s) && j < |s.workers| && MovesOn(dag, s, s', j, pc)
    requires forall a :: 0 <= a < |s'.workers| ==> WorkerFine(w, dag, s', s'.workers[a])
    ensures LooseInv(w, dag, s')
  {
    hide Counted, WorkerFine, OneWorker, InputsAreReady, Launched, Done;
    MovesOnCounted(dag, s, s', j, pc);
    SameLaunches(s, s', j, pc);
    assert Evolves(s, s');
    forall t | 0 <= t < |dag| && Launched(s', t) ensures InputsAreReady(dag, s', t) { ReadyStays(dag, s, s', t); }
    assert forall t :: 0 <= t < |dag| ==> (Triggered(dag, s', t) <==> Triggered(dag, s, t));
  }

  /** A launched node finds its inputs' values. */
  lemma LaunchedComputes(w: World, dag: seq<Node>, s: State, i: NodeID)
    requires Topological(dag) && LooseInv(w, dag, s) && i < |dag| && Launched(s, i)
    ensures NodeOutcome(w, dag[i], s.results).Ok? ==> Value(w, dag, i) == Some(NodeOutcome(w, dag[i], s.results).value)
    ensures NodeOutcome(w, dag[i], s.results).Err? ==> Value(w, dag, i) == None
  {
    hide Counted, OneWorker, NodeOutcome, Value;
    forall k | 0 <= k < |dag[i].inputs|
      ensures Value(w, dag, dag[i].inputs[k].node) == Some(s.results[dag[i].inputs[k].node])
    {
      assert Ready(s, dag[i].inputs[k].node);
      var j :| 0 <= j < |s.workers| && s.workers[j].id == dag[i].inputs[k].node &&
        (s.workers[j].pc.Releasing? || s.workers[j].pc.Finished?);
      assert WorkerFine(w, dag, s, s.workers[j]);
    }
    ValueFromResults(w, dag, i, s.results);
  }

  lemma ComputeLoose(w: World, dag: seq<Node>, s: State, j: nat)
    requires Topological(dag) && LooseInv(w, dag, s) && j < |s.workers| && s.workers[j].pc.Running?
    ensures LooseInv(w, dag, Advance(w, dag, s, j))
  {
    hide Counted, OneWorker, InputsAreReady, NodeOutcome, Value, Outs, Triggered;
    var id, s' := s.workers[j].id, Advance(w, dag, s, j);
    assert Launched(s, id);
    LaunchedComputes(w, dag, s, id);
    forall a | 0 <= a < |s'.workers| ensures WorkerFine(w, dag, s', s'.workers[a]) {
      assert WorkerFine(w, dag, s, s.workers[a]);
    }
    MovesOnLoose(w, dag, s, s', j, s'.workers[j].pc);
  }

  lemma FinishLoose(w: World, dag: seq<Node>, s: State, j: nat)
    requires Topological(dag) && LooseInv(w, dag, s) && j < |s.workers| && s.workers[j].pc.Releasing?
    requires s.workers[j].pc.k >= |Outs(dag, s.workers[j].id)|
    ensures LooseInv(w, dag, Advance(w, dag, s, j))
  {
    hide Counted, OneWorker, InputsAreReady, NodeOutcome, Value, Outs, Triggered, Launched;
    var s' := Advance(w, dag, s, j);
    assert WorkerFine(w, dag, s, s.workers[j]);
    forall a | 0 <= a < |s'.workers| ensures WorkerFine(w, dag, s', s'.workers[a]) {
      assert WorkerFine(w, dag, s, s.workers[a]);
    }
    MovesOnLoose(w, dag, s, s', j, Finished);
  }

  lemma CancelLoose(w: World, dag: seq<Node>, s: State, j: nat)
    requires Topological(dag) && LooseInv(w, dag, s) && CanCancel(s, j)
    ensures LooseInv(w, dag, Cancel(s, j))
  {
    hide Counted, OneWorker, InputsAreReady, NodeOutcome, Value, Outs, Triggered, Launched;
    var s' := Cancel(s, j);
    var f :| 0 <= f < |s.workers| && s.workers[f].pc.Failed?;
    assert WorkerFine(w, dag, s, s.workers[f]);
    forall a | 0 <= a < |s'.workers| ensures WorkerFine(w, dag, s', s'.workers[a]) {
      assert WorkerFine(w, dag, s, s.workers[a]);
    }
    MovesOnLoose(w, dag, s, s', j, Failed);
  }

  lemma TargetHasInputs(dag: seq<Node>, s: State, j: nat, t: NodeID)
    requires Sized(dag, s) && ReleasesNext(dag, s, j, t)
    ensures t < |dag| && dag[t].inputs != []
  {
    UnblocksMember(dag, |dag|, s.workers[j].id, t);
  }

  /** A release counts once, for its target. */
  lemma ReleaseCounted(dag: seq<Node>, s: State, j: nat, t: NodeID)
    requires Sized(dag, s) && Counted(dag, s) && ReleasesNext(dag, s, j, t)
    ensures Counted(dag, Release(dag, s, j, t))
  {
    hide FromFirst, Outs;
    var id, k, s' := s.workers[j].id, s.workers[j].pc.k, Release(dag, s, j, t);
    TargetHasInputs(dag, s, j, t);
    var moved := s.workers[j := Worker(id, Releasing(k + 1))];
    forall x | 0 <= x < |dag|
      ensures FromFirst(dag, s'.workers, x, |dag|) == FromFirst(dag, s.workers, x, |dag|) + if x == t then 1 else 0
    {
      FromFirstUpdate(dag, s.workers, j, moved[j], x, |dag|);
      OneMoreRelease(Outs(dag, id), k, x);
      if |s'.workers| > |moved| {
        FromFirstAppend(dag, moved, Worker(t, Running), x, |dag|);
        assert s'.workers == moved + [Worker(t, Running)];
      } else {
        assert s'.workers == moved;
      }
    }
  }

  lemma OneMoreRelease(outs: seq<NodeID>, k: nat, x: NodeID)
    requires k < |outs|
    ensures Count(outs[..k + 1], x) == Count(outs[..k], x) + if outs[k] == x then 1 else 0
  {
    assert outs[..k + 1] == outs[..k] + [outs[k]];
    CountInConcat(outs[..k], [outs[k]], x);
    assert [outs[k]][1..] == [];
  }

  lemma ReleaseLaunchesLoose(dag: seq<Node>, s: State, s': State, j: nat, k: nat, t: NodeID, launch: bool)
    requires j < |s.workers| && t < |dag| && dag[t].inputs != []
    requires s'.workers == s.workers[j := Worker(s.workers[j].id, Releasing(k))] + if launch then [Worker(t, Running)] else []
    ensures forall x: NodeID :: Launched(s', x) <==> Launched(s, x) || (launch && x == t)
    ensures forall x: NodeID :: x != t && OneWorker(s.workers, x) ==> OneWorker(s'.workers, x)
  {
    var moved := s.workers[j := Worker(s.workers[j].id, Releasing(k))];
    SameLaunches(s, s.(workers := moved), j, Releasing(k));
    forall x: NodeID ensures Launched(s', x) <==> Launched(s, x) || (launch && x == t) {
      if Launched(s.(workers := moved), x) {
        var a :| 0 <= a < |moved| && moved[a].id == x;
        assert s'.workers[a].id == x;
      }
      if launch { assert s'.workers[|moved|].id == t; }
      if Launched(s', x) {
        var a :| 0 <= a < |s'.workers| && s'.workers[a].id == x;
        if a < |moved| { assert s.(workers := moved).workers[a].id == x; }
      }
    }
  }

  lemma ReleaseLoose(w: World, dag: seq<Node>, s: State, j: nat, t: NodeID)
    requires Topological(dag) && Staggered(dag) && LooseInv(w, dag, s) && ReleasesNext(dag, s, j, t)
    ensures LooseInv(w, dag, Release(dag, s, j, t))
  {
    hide Counted, OneWorker, InputsAreReady, NodeOutcome, Value, Outs, Launched, Staggered;
    var id, k, s' := s.workers[j].id, s.workers[j].pc.k, Release(dag, s, j, t);
    TargetHasInputs(dag, s, j, t);
    ReleaseCounted(dag, s, j, t);
    var launch := s.need[t] == 1;
    ReleaseLaunchesLoose(dag, s, s', j, k + 1, t, launch);
    assert Evolves(s, s');
    assert Sized(dag, s');
    forall x | 0 <= x < |dag| && dag[x].inputs == [] ensures OneWorker(s'.workers, x) {}
    forall x | 0 <= x < |dag| && Launched(s, x) ensures InputsAreReady(dag, s', x) { ReadyStays(dag, s, s', x); }
    assert WorkerFine(w, dag, s, s.workers[j]);
    ReleaseFine(w, dag, s, s', j, k, t, launch);
    if launch { LaunchedReady(w, dag, s, s', t); }
    ReleaseTriggers(w, dag, s, s', t, launch);
  }

  lemma ReleaseFine(w: World, dag: seq<Node>, s: State, s': State, j: nat, k: nat, t: NodeID, launch: bool)
    requires Topological(dag) && LooseInv(w, dag, s) && Sized(dag, s') && s'.results == s.results
    requires j < |s.workers| && s.workers[j].pc == Releasing(k) && k < |Outs(dag, s.workers[j].id)|
    requires s'.workers == s.workers[j := Worker(s.workers[j].id, Releasing(k + 1))] + if launch then [Worker(t, Running)] else []
    ensures forall a :: 0 <= a < |s'.workers| ==> WorkerFine(w, dag, s', s'.workers[a])
  {
    hide Counted, OneWorker, InputsAreReady, Value, Outs, Launched, Triggered;
    forall a | 0 <= a < |s'.workers| ensures WorkerFine(w, dag, s', s'.workers[a]) {
      if a < |s.workers| { assert WorkerFine(w, dag, s, s.workers[a]); }
    }
  }

  lemma LaunchedReady(w: World, dag: seq<Node>, s: State, s': State, t: NodeID)
    requires Topological(dag) && Staggered(dag) && LooseInv(w, dag, s) && Counted(dag, s') && t < |dag| && s'.need[t] <= 0
    requires Evolves(s, s') && forall x :: 0 <= x < |dag| && dag[x].inputs == [] ==> OneWorker(s'.workers, x)
    requires forall x :: 0 <= x < |dag| && x != t && Launched(s', x) ==> Launched(s, x)
    ensures InputsAreReady(dag, s', t)
  {
    hide Counted, OneWorker, InputsAreReady, Launched, Staggered, Triggered, WorkerFine;
    forall x | 0 <= x < t && Launched(s', x) ensures InputsAreReady(dag, s', x) { ReadyStays(dag, s, s', x); }
    TriggeredReady(dag, s', t);
  }

  lemma ReleaseTriggers(w: World, dag: seq<Node>, s: State, s': State, t: NodeID, launch: bool)
    requires Topological(dag) && LooseInv(w, dag, s) && Sized(dag, s') && t < |dag| && dag[t].inputs != []
    requires s'.seeded == s.seeded && s'.need == s.need[t := s.need[t] - 1] && launch == (s.need[t] == 1)
    requires forall x: NodeID :: Launched(s', x) <==> Launched(s, x) || (launch && x == t)
    ensures forall x :: 0 <= x < |dag| ==> (Launched(s', x) <==> Triggered(dag, s', x))
  {
    hide Counted, OneWorker, InputsAreReady, Launched, WorkerFine;
    forall x | 0 <= x < |dag| ensures Launched(s', x) <==> Triggered(dag, s', x) {
      assert Launched(s, x) <==> Triggered(dag, s, x);
    }
  }

  lemma SeedLoose(w: World, dag: seq<Node>, s: State)
    requires Topological(dag) && LooseInv(w, dag, s) && CanSeed(dag, s)
    ensures LooseInv(w, dag, Seed(dag, s))
  {
    hide Counted, WorkerFine, InputsAreReady;
    var i, s' := s.seeded, Seed(dag, s);
    if dag[i].inputs == [] { SourceCounter(dag, s, i); }
    SeedCounted(dag, s);
    SeedLaunches(dag, s);
    assert Evolves(s, s');
    forall a | 0 <= a < |s'.workers| ensures WorkerFine(w, dag, s', s'.workers[a]) {
      if a < |s.workers| { SameFine(w, dag, s, s', s.workers[a]); } else { RunningFine(w, dag, s', s'.workers[a]); }
    }
    forall t | 0 <= t < |dag| ensures Launched(s', t) <==> Triggered(dag, s', t) {
      assert Launched(s, t) <==> Triggered(dag, s, t);
    }
    forall t | 0 <= t < |dag| && Launched(s', t) ensures InputsAreReady(dag, s', t) {
      if Launched(s, t) { ReadyStays(dag, s, s', t); } else { NoInputsReady(dag, s', t); }
    }
  }

  lemma NoInputsReady(dag: seq<Node>, s: State, t: NodeID)
    requires t < |dag| && dag[t].inputs == []
    ensures InputsAreReady(dag, s, t)
  {}

  lemma SameFine(w: World, dag: seq<Node>, s: State, s': State, wk: Worker)
    requires Topological(dag) && Sized(dag, s) && Sized(dag, s') && wk.id < |dag| && s'.results == s.results
    requires WorkerFine(w, dag, s, wk)
    ensures WorkerFine(w, dag, s', wk)
  {}

  lemma RunningFine(w: World, dag: seq<Node>, s: State, wk: Worker)
    requires Topological(dag) && Sized(dag, s) && wk.id < |dag| && wk.pc.Running?
    ensures WorkerFine(w, dag, s, wk)
  {}

  /** The counter of a node without inputs never moves. */
  lemma SourceCounter(dag: seq<Node>, s: State, i: NodeID)
    requires Topological(dag) && Counted(dag, s) && i < |dag| && dag[i].inputs == []
    ensures s.need[i] == 0
  {
    hide From, EdgeCount;
    forall x: NodeID | x < |dag| ensures From(dag, s.workers, x, i) <= EdgeCount(dag[i].inputs, x) {
      EdgeCountIff(dag[i].inputs, x);
      FromNoEdges(dag, s.workers, x, i);
    }
    TotalShort(dag, s.workers, i, |dag|, 0);
    EdgeSumTotal(dag[i].inputs, |dag|);
  }

  lemma SeedCounted(dag: seq<Node>, s: State)
    requires Sized(dag, s) && CanSeed(dag, s) && Counted(dag, s)
    ensures Counted(dag, Seed(dag, s))
  {
    hide FromFirst;
    forall t | 0 <= t < |dag|
      ensures FromFirst(dag, Seed(dag, s).workers, t, |dag|) == FromFirst(dag, s.workers, t, |dag|)
    {
      FromFirstAppend(dag, s.workers, Worker(s.seeded, Running), t, |dag|);
    }
  }

  lemma SeedLaunches(dag: seq<Node>, s: State)
    requires Sized(dag, s) && CanSeed(dag, s)
    ensures forall t: NodeID :: Launched(Seed(dag, s), t) <==> Launched(s, t) || (t == s.seeded && s.need[t] == 0)
    ensures forall t: NodeID :: OneWorker(s.workers, t) && (t != s.seeded || !Launched(s, t)) ==> OneWorker(Seed(dag, s).workers, t)
  {
    var s' := Seed(dag, s);
    forall t: NodeID ensures Launched(s', t) <==> Launched(s, t) || (t == s.seeded && s.need[t] == 0) {
      if Launched(s, t) {
        var a :| 0 <= a < |s.workers| && s.workers[a].id == t;
        assert s'.workers[a].id == t;
      }
      if t == s.seeded && s.need[t] == 0 { assert s'.workers[|s.workers|].id == t; }
      if Launched(s', t) {
        var a :| 0 <= a < |s'.workers| && s'.workers[a].id == t;
        if a < |s.workers| { assert s.workers[a].id == t; }
      }
    }
  }

  lemma InitLoose(w: World, dag: seq<Node>)
    requires Topological(dag)
    ensures LooseInv(w, dag, Init(dag))
  {
    var s := Init(dag);
    forall t | 0 <= t < |dag| ensures FromFirst(dag, [], t, |dag|) == 0 { FromFirstNone(dag, t, |dag|); }
  }

  lemma {:induction false} FromFirstNone(dag: seq<Node>, t: NodeID, m: nat)
    ensures FromFirst(dag, [], t, m) == 0
    decreases m
  {
    if m > 0 { FromFirstNone(dag, t, m - 1); }
  }

  lemma StepLoose(w: World, dag: seq<Node>, s: State, s': State)
    requires Topological(dag) && Staggered(dag) && LooseInv(w, dag, s) && Next(w, dag, false, s, s')
    ensures LooseInv(w, dag, s')
  {
    hide LooseInv, Staggered, Outs;
    LooseSized(w, dag, s);
    if CanSeed(dag, s) && s' == Seed(dag, s) {
      SeedLoose(w, dag, s);
    } else {
      var j: nat :| WorkerStep(w, dag, s, s', j);
      if CanCancel(s, j) && s' == Cancel(s, j) {
        CancelLoose(w, dag, s, j);
      } else if s.workers[j].pc.Running? {
        ComputeLoose(w, dag, s, j);
      } else if s.workers[j].pc.k < |Outs(dag, s.workers[j].id)| {
        ReleaseLoose(w, dag, s, j, Outs(dag, s.workers[j].id)[s.workers[j].pc.k]);
      } else {
        FinishLoose(w, dag, s, j);
      }
    }
  }

  lemma LooseSized(w: World, dag: seq<Node>, s: State)
    requires Topological(dag) && LooseInv(w, dag, s)
    ensures Sized(dag, s)
  {}

  lemma {:induction false} RunLoose(w: World, dag: seq<Node>, run: seq<State>, i: nat)
    requires Topological(dag) && Staggered(dag) && IsRun(w, dag, false, run) && i < |run|
    ensures LooseInv(w, dag, run[i])
    decreases i
  {
    hide LooseInv, Staggered, Next;
    if i == 0 {
      InitLoose(w, dag);
    } else {
      RunLoose(w, dag, run, i - 1);
      assert Next(w, dag, false, run[i - 1], run[i - 1 + 1]);
      StepLoose(w, dag, run[i - 1], run[i]);
    }
  }

  // ----- finished runs -----

  /** In a state at rest without failures every node has a worker that has ended. */
  lemma {:induction false} RestCompletes(w: World, dag: seq<Node>, s: State, i: NodeID)
    requires Topological(dag) && LooseInv(w, dag, s) && Quiescent(dag, s) && !AnyFailed(s) && i < |dag|
    ensures Completed(s, i)
    decreases i
  {
    hide Counted, WorkerFine, OneWorker, InputsAreReady;
    if dag[i].inputs != [] {
      forall k | 0 <= k < |dag[i].inputs| ensures Completed(s, dag[i].inputs[k].node) {
        RestCompletes(w, dag, s, dag[i].inputs[k].node);
      }
      InputsCompleted(dag, s, i);
    }
    assert Launched(s, i);
    var j :| 0 <= j < |s.workers| && s.workers[j].id == i;
    assert !Active(s, j);
    assert s.workers[j] == Worker(i, Finished);
  }

  lemma InputsCompleted(dag: seq<Node>, s: State, i: NodeID)
    requires Topological(dag) && Counted(dag, s) && i < |dag|
    requires forall k :: 0 <= k < |dag[i].inputs| ==> Completed(s, dag[i].inputs[k].node)
    ensures s.need[i] <= 0
  {
    hide From, EdgeCount, ReleasesOf;
    var ins := dag[i].inputs;
    forall x: NodeID | x < |dag| ensures From(dag, s.workers, x, i) >= EdgeCount(ins, x) {
      EdgeCountIff(ins, x);
      if EdgeCount(ins, x) > 0 {
        var j :| 0 <= j < |s.workers| && s.workers[j] == Worker(x, Finished);
        ReleasesAtMost(dag, s.workers[j], i);
        FromAtLeast(dag, s.workers, j, i);
      }
    }
    TotalEnough(dag, s.workers, i, |dag|);
    EdgeSumTotal(ins, |dag|);
  }

  /** Every finished run of a staggered graph, with seeding interleaved as the source has it, ends as the
      serial run ends, though nodes may have been launched twice. */
  lemma StaggeredRefinesSerial(w: World, dag: seq<Node>, run: seq<State>)
    requires Topological(dag) && Staggered(dag) && IsRun(w, dag, false, run) && Quiescent(dag, Last(run))
    ensures Fails(Last(run)) <==> !SerialExec.AllEvaluate(w, dag)
    ensures !Fails(Last(run)) ==> forall i :: 0 <= i < |dag| ==> Value(w, dag, i) == Some(Last(run).results[i])
  {
    hide Staggered, Next, Counted, OneWorker, InputsAreReady, Value;
    RunLoose(w, dag, run, |run| - 1);
    var s := Last(run);
    if Fails(s) {
      var j :| 0 <= j < |s.workers| && s.workers[j].pc.Failed?;
      assert WorkerFine(w, dag, s, s.workers[j]);
    } else {
      forall i | 0 <= i < |dag| ensures Value(w, dag, i) == Some(s.results[i]) {
        RestCompletes(w, dag, s, i);
        var j :| 0 <= j < |s.workers| && s.workers[j] == Worker(i, Finished);
        assert WorkerFine(w, dag, s, s.workers[j]);
      }
    }
  }

  /** In every state of such a run a node that has a worker finds the final results of all its inputs. */
  lemma StaggeredSafety(w: World, dag: seq<Node>, run: seq<State>, i: nat, n: NodeID)
    requires Topological(dag) && Staggered(dag) && IsRun(w, dag, false, run) && i < |run|
    requires n < |dag| && Launched(run[i], n)
    ensures forall k :: 0 <= k < |dag[n].inputs| ==>
              Value(w, dag, dag[n].inputs[k].node) == Some(run[i].results[dag[n].inputs[k].node])
  {
    hide Staggered, Next, Counted, OneWorker, Value;
    RunLoose(w, dag, run, i);
    var s := run[i];
    forall k | 0 <= k < |dag[n].inputs|
      ensures Value(w, dag, dag[n].inputs[k].node) == Some(s.results[dag[n].inputs[k].node])
    {
      assert Ready(s, dag[n].inputs[k].node);
      var j :| 0 <= j < |s.workers| && s.workers[j].id == dag[n].inputs[k].node &&
        (s.workers[j].pc.Releasing? || s.workers[j].pc.Finished?);
      assert WorkerFine(w, dag, s, s.workers[j]);
    }
  }

  // ----- which graphs these are -----

  /** Among them are the graphs in which each node's inputs all come from one node, or all from nodes
      without inputs. */
  lemma SimpleGraphsStaggered(dag: seq<Node>)
    requires Topological(dag)
    requires forall t :: 0 <= t < |dag| ==>
               || (forall k, m :: 0 <= k < |dag[t].inputs| && 0 <= m < |dag[t].inputs| ==>
                     dag[t].inputs[k].node == dag[t].inputs[m].node)
               || (forall k :: 0 <= k < |dag[t].inputs| ==> dag[dag[t].inputs[k].node].inputs == [])
    ensures Staggered(dag)
  {}

  /** The graph on which the race does harm is not. */
  lemma DiamondNotStaggered(ref: Ref)
    ensures Topological(Diamond(ref)) && !Staggered(Diamond(ref))
  {
    DiamondOuts(ref);
    var dag := Diamond(ref);
    var i, j := dag[3].inputs[0].node, dag[3].inputs[1].node;
    assert dag[i].inputs != [] && i != j;
    if Ancestor(dag, j, i) { AncestorBefore(dag, j, i); }
  }
}
