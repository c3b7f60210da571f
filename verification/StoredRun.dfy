/** Running a graph after a trip through storage.  Storing sorts every node's inputs by name, so the
    executor assembles input trees in another order than the compiler wrote them; nothing changes as
    long as posting a tree does not depend on the order of its entries. */
module StoredRun {
  import opened Dag
  import opened NodeList
  import opened DagStore
  import SerialExec
  import ParallelExec
  import opened Meaning
  import opened GraphBuilders

  function EntryName(e: TreeEntry): string { e.name }

  /** What is assumed of posting trees: entries are put in order first. */
  ghost predicate OrderBlind(w: World) {
    forall ents :: w.postTree(SortBy(EntryName, ents)) == w.postTree(ents)
  }

  /** The entry an input contributes, with a filler where it contributes none. */
  function EntryOf(w: World, results: seq<Result>): NodeInput -> TreeEntry {
    (i: NodeInput) =>
      if i.node < |results| && EntryFor(w, i, results[i.node]).Ok? then EntryFor(w, i, results[i.node]).value
      else TreeEntry(i.name, false, Ref("", false, ""))
  }

  lemma EntryKeepsName(w: World, results: seq<Result>)
    ensures forall i: NodeInput :: EntryName(EntryOf(w, results)(i)) == NameOf(i)
  {}

  lemma {:induction false} EntriesMap(w: World, ins: seq<NodeInput>, results: seq<Result>)
    requires InRange(ins, |results|) && Entries(w, ins, results).Ok?
    ensures Entries(w, ins, results).value == Map(EntryOf(w, results), ins)
    decreases |ins|
  {
    if ins != [] {
      var init, last := ins[..|ins| - 1], ins[|ins| - 1];
      EntriesMap(w, init, results);
      assert Map(EntryOf(w, results), ins) == Map(EntryOf(w, results), init) + [EntryOf(w, results)(last)];
    }
  }

  /** Sorting moves inputs around and neither adds nor loses one. */
  lemma SortKeepsInputs(ins: seq<NodeInput>)
    ensures forall i :: i in SortBy(NameOf, ins) <==> i in ins
  {
    SortBySorts(NameOf, ins);
    assert forall i :: i in ins <==> i in multiset(ins);
    assert forall i :: i in SortBy(NameOf, ins) <==> i in multiset(SortBy(NameOf, ins));
  }

  lemma SortKeepsRange(ins: seq<NodeInput>, n: nat)
    ensures InRange(SortBy(NameOf, ins), n) <==> InRange(ins, n)
  {
    hide SortBy;
    SortKeepsInputs(ins);
    assert InRange(ins, n) <==> forall i :: i in ins ==> i.node < n;
    var sorted := SortBy(NameOf, ins);
    assert InRange(sorted, n) <==> forall i :: i in sorted ==> i.node < n;
  }

  predicate Bad(w: World, i: NodeInput, results: seq<Result>)
    requires i.node < |results|
  {
    results[i.node].errCode != 0 || w.parse(results[i.node].root).None?
  }

  /** Whether assembling fails does not depend on the order of the inputs. */
  lemma SortKeepsFailure(w: World, ins: seq<NodeInput>, sorted: seq<NodeInput>, results: seq<Result>)
    requires InRange(ins, |results|) && InRange(sorted, |results|)
    requires forall i :: i in sorted ==> i in ins
    ensures Entries(w, sorted, results).Err? ==> Entries(w, ins, results).Err?
  {
    hide Entries;
    EntriesFailIff(w, ins, results);
    EntriesFailIff(w, sorted, results);
    if Entries(w, sorted, results).Err? {
      var k :| 0 <= k < |sorted| && Bad(w, sorted[k], results);
      assert sorted[k] in ins;
      var m :| 0 <= m < |ins| && ins[m] == sorted[k];
      assert Bad(w, ins[m], results);
    }
  }

  lemma SortedEntries(w: World, ins: seq<NodeInput>, results: seq<Result>)
    requires InRange(ins, |results|)
    ensures
      var sorted := SortBy(NameOf, ins);
      && InRange(sorted, |results|)
      && (Entries(w, sorted, results).Ok? <==> Entries(w, ins, results).Ok?)
      && (Entries(w, ins, results).Ok? ==>
            Entries(w, sorted, results).value == SortBy(EntryName, Entries(w, ins, results).value))
  {
    hide Entries, SortBy, EntryOf;
    var sorted := SortBy(NameOf, ins);
    SortKeepsInputs(ins);
    SortKeepsRange(ins, |results|);
    SortKeepsFailure(w, ins, sorted, results);
    SortKeepsFailure(w, sorted, ins, results);
    if Entries(w, ins, results).Ok? {
      EntriesMap(w, ins, results);
      EntriesMap(w, sorted, results);
      EntryKeepsName(w, results);
      SortMap(EntryOf(w, results), NameOf, EntryName, ins);
    }
  }

  lemma SortSingle(ents: seq<TreeEntry>)
    ensures |SortBy(EntryName, ents)| == |ents|
    ensures |ents| <= 1 ==> SortBy(EntryName, ents) == ents
  {
    SortBySorts(EntryName, ents);
    assert |multiset(ents)| == |ents| && |multiset(SortBy(EntryName, ents))| == |SortBy(EntryName, ents)|;
    if |ents| <= 1 { SortBySorted(EntryName, ents); }
  }

  /** The prepared input is the same; only which of several errors comes first may differ. */
  lemma SortedPrepare(w: World, ins: seq<NodeInput>, results: seq<Result>)
    requires InRange(ins, |results|) && OrderBlind(w)
    ensures
      var sorted := SortBy(NameOf, ins);
      && InRange(sorted, |results|)
      && (PrepareInput(w, sorted, results).Ok? <==> PrepareInput(w, ins, results).Ok?)
      && (PrepareInput(w, ins, results).Ok? ==> PrepareInput(w, sorted, results) == PrepareInput(w, ins, results))
  {
    hide Entries, SortBy;
    SortedEntries(w, ins, results);
    if Entries(w, ins, results).Ok? { SortSingle(Entries(w, ins, results).value); }
  }

  lemma SortedNodeValue(w: World, n: Node, table: seq<Option<Result>>)
    requires InRange(n.inputs, |table|) && OrderBlind(w)
    ensures InRange(SortedNode(n).inputs, |table|)
    ensures NodeValue(w, SortedNode(n), table) == NodeValue(w, n, table)
  {
    hide PrepareInput, SortBy, OrderBlind;
    SortKeepsInputs(n.inputs);
    SortKeepsRange(n.inputs, |table|);
    SortedPrepare(w, n.inputs, Filled(table));
    AvailableIff(n, table);
    AvailableIff(SortedNode(n), table);
  }

  lemma AvailableIff(n: Node, table: seq<Option<Result>>)
    requires InRange(n.inputs, |table|)
    ensures InputsAvailable(n, table) <==> forall i :: i in n.inputs && i.node < |table| ==> table[i.node].Some?
  {
    if InputsAvailable(n, table) {
      forall i | i in n.inputs && i.node < |table| ensures table[i.node].Some? {
        var k :| 0 <= k < |n.inputs| && n.inputs[k] == i;
      }
    }
  }

  lemma SortedTopological(dag: seq<Node>)
    requires Topological(dag)
    ensures Topological(SortedDag(dag))
  {
    hide SortBy;
    forall i | 0 <= i < |dag| ensures InRange(SortedDag(dag)[i].inputs, i) {
      SortKeepsRange(dag[i].inputs, i);
    }
  }

  /** Every node of the stored graph evaluates to what it evaluated to before. */
  lemma {:induction false} SortedValues(w: World, dag: seq<Node>, n: nat)
    requires Topological(dag) && OrderBlind(w) && n <= |dag|
    ensures Topological(SortedDag(dag)) && Values(w, SortedDag(dag), n) == Values(w, dag, n)
    decreases n
  {
    hide NodeValue, SortedNode, OrderBlind;
    SortedTopological(dag);
    if n > 0 {
      SortedValues(w, dag, n - 1);
      SortedNodeValue(w, dag[n - 1], Values(w, dag, n - 1));
    }
  }

  datatype StoredOutcome = NotPosted | NotRead | Ran(res: Option<Result>)

  /** Post a graph, read it back and run it on the parallel scheduler: reading never fails, and the
      outcome is that of running the graph that was posted. */
  method PostGetRun(w: World, dag: seq<Node>) returns (r: StoredOutcome)
    requires Topological(dag) && 0 < |dag| <= TWO32 && OrderBlind(w)
    ensures r.NotPosted? <==> exists i :: 0 <= i < |dag| && dag[i].IsFact() && IsZero(dag[i].value.value.cid)
    ensures !r.NotRead?
    ensures r.Ran? ==> (r.res.Some? <==> SerialExec.AllEvaluate(w, dag))
    ensures r.Ran? && r.res.Some? ==> Value(w, dag, |dag| - 1) == r.res
  {
    hide Storable, Value, Values, OrderBlind, SortedNode, IsZero;
    StorableIff(dag);
    var back := PostAndGet(dag);
    if back.None? { return NotPosted; }
    if !back.value.Got? { return NotRead; }
    SameEvaluation(w, dag);
    var res := ParallelExec.ParallelExecLast(w, back.value.dag);
    return Ran(res);
  }

  lemma SameEvaluation(w: World, dag: seq<Node>)
    requires Topological(dag) && OrderBlind(w)
    ensures |SortedDag(dag)| == |dag| && Topological(SortedDag(dag))
    ensures forall i :: 0 <= i < |dag| ==> Value(w, SortedDag(dag), i) == Value(w, dag, i)
    ensures SerialExec.AllEvaluate(w, SortedDag(dag)) <==> SerialExec.AllEvaluate(w, dag)
  {
    hide OrderBlind, SortedNode;
    SortedTopological(dag);
    forall i | 0 <= i < |dag| ensures Value(w, SortedDag(dag), i) == Value(w, dag, i) {
      SortedValues(w, dag, i + 1);
    }
  }

  /** The whole way: the graph of a compiled target, stored, read back and run under any schedule, ends
      in the reference its expression denotes, exactly when it denotes one.  What is required of the
      graph is what compiling ensures. */
  method RunStored(env: Env, dag: seq<Node>, ghost ref: Option<Ref>) returns (r: StoredOutcome)
    requires Topological(dag) && 0 < |dag| <= TWO32 && OrderBlind(env.world)
    requires NodeRef(env.world, dag, |dag| - 1) == ref
    requires ref.Some? ==> NewEvaluate(env.world, dag, 0)
    ensures r.NotPosted? <==> exists i :: 0 <= i < |dag| && dag[i].IsFact() && IsZero(dag[i].value.value.cid)
    ensures !r.NotRead?
    ensures r.Ran? ==> (if r.res.Some? then RefOf(env.world, r.res.value) else None) == ref
  {
    hide Value, Values, OrderBlind, IsZero, NodeRef, NewEvaluate;
    RunRoot(env, dag, ref);
    r := PostGetRun(env.world, dag);
  }
}
