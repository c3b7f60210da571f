/** The hash-consing compiler from expressions to graphs, with batched merging. */
module GraphBuilders {
  import opened Dag
  import opened Exprs
  import opened Meaning
  import DagStore
  import NodeList
  import opened FileMeaning
  import SerialExec
  import ParallelExec

  // ----- batching arithmetic -----

  function BatchSize(n: nat): nat {
    n / MAX_NODE_INPUTS + if n % MAX_NODE_INPUTS > 0 then 1 else 0
  }

  /** Batches are smaller than the whole, and 64 of them suffice. */
  lemma BatchSizeBounds(n: nat)
    requires n > MAX_NODE_INPUTS
    ensures 1 <= BatchSize(n) < n && n <= MAX_NODE_INPUTS * BatchSize(n)
  {}

  // ----- appending nodes -----

  predicate Below(ids: seq<NodeID>, n: nat) {
    forall k :: 0 <= k < |ids| ==> ids[k] < n
  }

  ghost predicate Grown(before: seq<Node>, after: seq<Node>) {
    before <= after && Topological(after)
  }

  /** All nodes from lo on evaluate to references. */
  ghost predicate NewEvaluate(w: World, dag: seq<Node>, lo: nat)
    requires Topological(dag)
  {
    forall i :: lo <= i < |dag| ==> NodeRef(w, dag, i).Some?
  }

  lemma AppendTopological(dag: seq<Node>, n: Node)
    requires Topological(dag) && InRange(n.inputs, |dag|)
    ensures Topological(dag + [n])
  {}

  lemma NodeRefsStable(w: World, dag: seq<Node>, longer: seq<Node>, ids: seq<NodeID>)
    requires Topological(dag) && Grown(dag, longer) && Below(ids, |dag|)
    ensures Below(ids, |longer|) && NodeRefs(w, longer, ids) == NodeRefs(w, dag, ids)
  {
    forall k | 0 <= k < |ids| ensures ids[k] < |longer| && NodeRef(w, longer, ids[k]) == NodeRef(w, dag, ids[k]) {
      NodeRefStable(w, dag, longer, ids[k]);
    }
  }

  lemma AppendDerived(w: World, dag: seq<Node>, op: string, ins: seq<NodeInput>)
    requires Topological(dag) && InRange(ins, |dag|) && w.parse("") == None
    ensures Topological(dag + [Node(None, op, ins)])
    ensures NodeRef(w, dag + [Node(None, op, ins)], |dag|) == RunOp(w, op, Names(ins), NodeRefs(w, dag, Ids(ins)))
  {
    var n := Node(None, op, ins);
    AppendTopological(dag, n);
    DerivedNodeRef(w, dag + [n], |dag|);
    NodeRefsStable(w, dag, dag + [n], Ids(ins));
  }

  lemma NewEvaluateExtend(w: World, dag: seq<Node>, longer: seq<Node>, lo: nat)
    requires Topological(dag) && Grown(dag, longer) && NewEvaluate(w, dag, lo) && NewEvaluate(w, longer, |dag|)
    ensures NewEvaluate(w, longer, lo)
  {
    forall i | lo <= i < |longer| ensures NodeRef(w, longer, i).Some? {
      if i < |dag| { NodeRefStable(w, dag, longer, i); }
    }
  }

  lemma LastEvaluates(w: World, dag: seq<Node>)
    requires Topological(dag) && dag != []
    ensures NodeRef(w, dag, |dag| - 1).Some? ==> NewEvaluate(w, dag, |dag| - 1)
  {
    hide NodeRef;
  }

  // ----- how many nodes, with how many inputs, and which facts -----

  /** No reference in the expression is zero. */
  predicate NonzeroRefs(e: Expr) {
    match e
    case Value(ref) => !NodeList.IsZero(ref.cid)
    case Compute(_, ins) => forall k :: 0 <= k < |ins| ==> NonzeroRefs(ins[k].from)
    case Selection(_, _, _) => true
  }

  ghost predicate NonzeroBlobs(env: Env) {
    forall s :: !NodeList.IsZero(env.world.postBlob(s).cid)
  }

  /** Posting can only fail on a zero fact, and there is none in a graph made of nonzero references. */
  ghost predicate Nonzero(env: Env, e: Expr) {
    NonzeroBlobs(env) && NonzeroRefs(e)
  }

  /** All nodes from lo on have at most 64 inputs and, if so demanded, are no zero facts. */
  ghost predicate NewOk(dag: seq<Node>, lo: nat, nonzero: bool) {
    forall i :: lo <= i < |dag| ==>
      |dag[i].inputs| <= 64 && (nonzero && dag[i].IsFact() ==> !NodeList.IsZero(dag[i].value.value.cid))
  }

  lemma NewOkExtend(dag: seq<Node>, longer: seq<Node>, lo: nat, nonzero: bool)
    requires Grown(dag, longer) && NewOk(dag, lo, nonzero) && NewOk(longer, |dag|, nonzero)
    ensures NewOk(longer, lo, nonzero)
  {}

  lemma NewOkNone(dag: seq<Node>, nonzero: bool)
    ensures NewOk(dag, |dag|, nonzero)
  {}

  lemma NewOkOne(dag: seq<Node>, n: Node, nonzero: bool)
    requires |n.inputs| <= 64 && (nonzero && n.IsFact() ==> !NodeList.IsZero(n.value.value.cid))
    ensures NewOk(dag + [n], |dag|, nonzero)
  {}

  lemma NewOkWeaker(dag: seq<Node>, lo: nat, demanded: bool, nonzero: bool)
    requires NewOk(dag, lo, nonzero) && (demanded ==> nonzero)
    ensures NewOk(dag, lo, demanded)
  {}

  lemma InputNonzero(env: Env, e: Expr, k: nat)
    requires e.Compute? && k < |e.inputs|
    ensures Nonzero(env, e) ==> Nonzero(env, e.inputs[k].from)
  {}

  /** At most as many nodes as these are made for an expression. */
  function NodeBound(e: Expr): (n: nat)
    ensures n >= 1
    decreases e, 1
  {
    match e
    case Value(_) => 1
    case Compute(_, ins) => InputBound(ins) + 2 * |ins| + 1
    case Selection(_, _, _) => 1
  }

  function InputBound(ins: seq<Input>): nat
    decreases ins, 0
  {
    if ins == [] then 0 else InputBound(ins[..|ins| - 1]) + NodeBound(ins[|ins| - 1].from) + 2
  }

  lemma InputBoundMore(ins: seq<Input>, k: nat)
    requires k < |ins|
    ensures InputBound(ins[..k + 1]) == InputBound(ins[..k]) + NodeBound(ins[k].from) + 2
  {
    assert ins[..k + 1][..k] == ins[..k];
  }

  // ----- the builder -----

  class GraphBuilder {
    const env: Env
    ghost const universe: set<Expr>
    var nodes: seq<Node>
    var index: map<string, NodeID>
    /** The expression each index entry was made for. */
    ghost var origin: map<string, Expr>

    ghost predicate Valid()
      reads this
    {
      && Lawful(env) && KeysFaithful(env.hasher, universe) && LayersCovered(env, universe)
      && Topological(nodes)
      && index.Keys == origin.Keys
      && forall k :: k in index ==> EntryOk(k)
    }

    /** A memo entry names a node that evaluates to the expression it was made for. */
    ghost predicate EntryOk(k: string)
      requires k in index && k in origin && Topological(nodes)
      reads this
    {
      && origin[k] in universe && Key(env.hasher, origin[k]) == k
      && index[k] < |nodes|
      && NodeRef(env.world, nodes, index[k]) == ExprRef(env, origin[k])
    }

    lemma ValidFacts()
      requires Valid()
      ensures Lawful(env) && KeysFaithful(env.hasher, universe) && LayersCovered(env, universe) && Topological(nodes)
    {}

    constructor (env: Env, ghost universe: set<Expr>)
      requires Lawful(env) && KeysFaithful(env.hasher, universe) && LayersCovered(env, universe)
      ensures Valid() && nodes == [] && index == map[] && this.env == env && this.universe == universe
    {
      this.env := env;
      this.universe := universe;
      nodes, index := [], map[];
      origin := map[];
    }

    /** Every memo entry stays correct as nodes are appended. */
    twostate lemma IndexStable()
      requires old(Valid()) && Grown(old(nodes), nodes) && index == old(index) && origin == old(origin)
      ensures Valid()
    {
      hide NodeRef, ExprRef, Key, Lawful, LayersCovered, KeysFaithful;
      forall k | k in index ensures EntryOk(k) {
        assert old(EntryOk(k));
        NodeRefStable(env.world, old(nodes), nodes, index[k]);
      }
    }

    method Fact(ref: Ref) returns (nid: NodeID)
      requires Valid()
      modifies this`nodes
      ensures Valid() && Grown(old(nodes), nodes)
      ensures nodes == old(nodes) + [Node(Some(ref), "", [])] && nid == |old(nodes)|
      ensures NodeRef(env.world, nodes, nid) == Some(ref)
    {
      hide NodeRef, ExprRef, Key, KeysFaithful, Associative, MergesLayers, FilesLaw, LayersCovered;
      nid := |nodes|;
      nodes := nodes + [Node(Some(ref), "", [])];
      FactNodeRef(env.world, nodes, nid);
      IndexStable();
    }

    /** Rejects a reference to a node that does not exist yet. */
    method Derived(op: string, inputs: seq<NodeInput>) returns (r: Option<NodeID>)
      requires Valid()
      modifies this`nodes
      ensures Valid() && Grown(old(nodes), nodes)
      ensures r.Some? <==> InRange(inputs, |old(nodes)|)
      ensures r.None? ==> nodes == old(nodes)
      ensures r.Some? ==> r.value == |old(nodes)| && nodes == old(nodes) + [Node(None, op, inputs)]
      ensures r.Some? ==> NodeRef(env.world, nodes, r.value) ==
                          RunOp(env.world, op, Names(inputs), NodeRefs(env.world, old(nodes), Ids(inputs)))
    {
      hide NodeRef, RunOp, ExprRef, Key, KeysFaithful, Associative, MergesLayers, FilesLaw, LayersCovered;
      var nid := |nodes|;
      for k := 0 to |inputs|
        invariant InRange(inputs[..k], nid)
      {
        if inputs[k].node >= nid { return None; }
      }
      assert inputs[..|inputs|] == inputs;
      AppendDerived(env.world, nodes, op, inputs);
      nodes := nodes + [Node(None, op, inputs)];
      IndexStable();
      return Some(nid);
    }

    /** One merge node; the source panics on more than 64 layers. */
    method DeriveMerge(layers: seq<NodeID>) returns (nid: NodeID)
      requires Valid() && Below(layers, |nodes|)
      requires 1 <= |layers| <= MAX_NODE_INPUTS && InLayers(env, NodeRefs(env.world, nodes, layers))
      modifies this`nodes
      ensures Valid() && Grown(old(nodes), nodes) && nid == |nodes| - 1 == |old(nodes)|
      ensures NodeRef(env.world, nodes, nid) == Merged(env, NodeRefs(env.world, old(nodes), layers))
      ensures forall nonzero :: NewOk(nodes, |old(nodes)|, nonzero)
    {
      hide NodeRef, ExprRef, Key, RunOp, Valid, Lawful, Merged, LayerNames, DagStore.Hex, LayersCovered;
      ValidFacts();
      var inputs: seq<NodeInput> := [];
      for i := 0 to |layers|
        invariant |inputs| == i
        invariant forall k :: 0 <= k < i ==> inputs[k] == NodeInput(DagStore.Hex(k, 2), layers[k])
      {
        inputs := inputs + [NodeInput(DagStore.Hex(i, 2), layers[i])];
      }
      var derived := Derived("glfs.merge", inputs);
      nid := derived.value;
      forall nonzero ensures NewOk(nodes, |old(nodes)|, nonzero) {
        NewOkOne(old(nodes), Node(None, "glfs.merge", inputs), nonzero);
      }
      assert Names(inputs) == LayerNames(|layers|) && Ids(inputs) == layers;
      MergeRuns(env, NodeRefs(env.world, old(nodes), layers));
    }

    /** Merges any number of layers with at most 64 inputs per node, keeping their order: the result
        is the flat merge of all layers. */
    method MergeLayers(xs: seq<NodeID>) returns (nid: NodeID)
      requires Valid() && Below(xs, |nodes|) && xs != [] && InLayers(env, NodeRefs(env.world, nodes, xs))
      modifies this`nodes
      ensures Valid() && Grown(old(nodes), nodes) && nid == |nodes| - 1 >= |old(nodes)|
      ensures NodeRef(env.world, nodes, nid) == Merged(env, NodeRefs(env.world, old(nodes), xs))
      ensures NodeRef(env.world, nodes, nid).Some? ==> NewEvaluate(env.world, nodes, |old(nodes)|)
      ensures |nodes| < |old(nodes)| + 2 * |xs| && forall nonzero :: NewOk(nodes, |old(nodes)|, nonzero)
      decreases |xs|, 1
    {
      hide NodeRef, Merged, Valid, Batched, ExprRef, Key, Lawful, NewEvaluate, LayersCovered, NewOk;
      ValidFacts();
      if |xs| <= MAX_NODE_INPUTS {
        nid := DeriveMerge(xs);
        LastEvaluates(env.world, nodes);
        return;
      }
      ghost var refs := NodeRefs(env.world, nodes, xs);
      var ys := MergeBatches(xs);
      ghost var before := nodes;
      BatchedAll(env, before, refs, ys, |old(nodes)|);
      nid := DeriveMerge(ys);
      forall nonzero ensures NewOk(nodes, |old(nodes)|, nonzero) { NewOkExtend(before, nodes, |old(nodes)|, nonzero); }
      if NodeRef(env.world, nodes, nid).Some? {
        MergedNeedsAll(env, NodeRefs(env.world, before, ys));
        NewEvaluateExtend(env.world, before, nodes, |old(nodes)|);
      }
    }

    /** The loop over batches: one merged node for each. */
    method MergeBatches(xs: seq<NodeID>) returns (ys: seq<NodeID>)
      requires Valid() && Below(xs, |nodes|) && |xs| > MAX_NODE_INPUTS && InLayers(env, NodeRefs(env.world, nodes, xs))
      modifies this`nodes
      ensures Valid() && Grown(old(nodes), nodes)
      ensures 2 <= |ys| <= MAX_NODE_INPUTS
      ensures |nodes| + |ys| <= |old(nodes)| + 2 * |xs| && forall nonzero :: NewOk(nodes, |old(nodes)|, nonzero)
      ensures Batched(env, nodes, NodeRefs(env.world, old(nodes), xs), ys, |xs|, |old(nodes)|)
      decreases |xs|, 0
    {
      hide NodeRef, Merged, Lawful, Valid, BatchSize, Batched, ExprRef, Key, NewEvaluate, LayersCovered, NewOk;
      ValidFacts();
      BatchSizeBounds(|xs|);
      var batchSize := BatchSize(|xs|);
      ghost var refs := NodeRefs(env.world, nodes, xs);
      ys := [];
      var start := 0;
      BatchedNone(env, nodes, refs);
      forall nonzero ensures NewOk(nodes, |nodes|, nonzero) { NewOkNone(nodes, nonzero); }
      while start < |xs|
        invariant Valid() && Grown(old(nodes), nodes)
        invariant 0 <= start == |ys| * batchSize < |xs| + batchSize
        invariant Batched(env, nodes, refs, ys, if start < |xs| then start else |xs|, |old(nodes)|)
        invariant |nodes| + |ys| <= |old(nodes)| + 2 * if start < |xs| then start else |xs|
        invariant forall nonzero :: NewOk(nodes, |old(nodes)|, nonzero)
        decreases |xs| - start
      {
        var end := if start + batchSize < |xs| then start + batchSize else |xs|;
        ghost var before := nodes;
        BatchRefs(env.world, old(nodes), nodes, xs, start, end);
        var n := MergeLayers(xs[start..end]);
        BatchStep(env, before, nodes, refs, ys, n, start, end, |old(nodes)|);
        forall nonzero ensures NewOk(nodes, |old(nodes)|, nonzero) { NewOkExtend(before, nodes, |old(nodes)|, nonzero); }
        NextMultiple(|ys|, batchSize);
        ys := ys + [n];
        start := start + batchSize;
      }
      BatchCount(|xs|, batchSize, |ys|, start);
    }

    /** Moves a node's tree to a destination path; the empty path moves nothing. */
    method Place(to: string, from: NodeID) returns (nid: NodeID)
      requires Valid() && from < |nodes|
      modifies this`nodes
      ensures Valid() && Grown(old(nodes), nodes) && nid < |nodes|
      ensures NodeRef(env.world, nodes, nid) == PlaceRef(env, to, NodeRef(env.world, old(nodes), from))
      ensures NodeRef(env.world, nodes, nid).Some? ==>
                NodeRef(env.world, old(nodes), from).Some? && NewEvaluate(env.world, nodes, |old(nodes)|)
      ensures nid == if nodes == old(nodes) then from else |nodes| - 1
      ensures |nodes| <= |old(nodes)| + 2 && NewOk(nodes, |old(nodes)|, NonzeroBlobs(env))
      ensures MovedTo(env, to, NodeRef(env.world, old(nodes), from), NodeRef(env.world, nodes, nid))
    {
      hide NodeRef, ExprRef, Key, Valid, Lawful, RunOp, NewEvaluate, LayersCovered, NewOk, MovedTo, PlaceRef;
      ValidFacts();
      ghost var w, before := env.world, nodes;
      var p := env.cleanPath(to);
      PlaceMoves(env, to, NodeRef(w, before, from));
      PlaceCases(env, to, NodeRef(w, before, from));
      if p == "" {
        NothingNew(w, nodes);
        NewOkNone(nodes, NonzeroBlobs(env));
        return from;
      }
      var blob := env.world.postBlob(p);
      var pathNode := Fact(blob);
      NodeRefStable(w, before, nodes, from);
      ghost var withPath := nodes;
      NewOkOne(before, Node(Some(blob), "", []), NonzeroBlobs(env));
      var inputs := [NodeInput("x", from), NodeInput("path", pathNode)];
      var derived := Derived("glfs.place", inputs);
      nid := derived.value;
      NewOkOne(withPath, Node(None, "glfs.place", inputs), NonzeroBlobs(env));
      NewOkExtend(withPath, nodes, |before|, NonzeroBlobs(env));
      assert Names(inputs) == ["x", "path"];
      assert NodeRefs(w, withPath, Ids(inputs)) == [NodeRef(w, before, from), Some(blob)];
      if NodeRef(w, nodes, nid).Some? {
        ghost var refs := [NodeRef(w, before, from), Some(blob)];
        RunOpNeedsAll(w, "glfs.place", ["x", "path"], refs);
        assert refs[0].Some?;
        LastEvaluates(w, withPath);
        LastEvaluates(w, nodes);
        NewEvaluateExtend(w, withPath, nodes, |before|);
      }
    }

    /** Compiles a selection-free expression; the source panics on selections.  The returned node
        evaluates to the expression's reference, and when it was not found in the index it is the
        last node. */
    method Compile(e: Expr) returns (nid: NodeID)
      requires Valid() && e in universe && SelectionFree(e)
      modifies this
      ensures Valid() && Grown(old(nodes), nodes) && nid < |nodes|
      ensures NodeRef(env.world, nodes, nid) == ExprRef(env, e)
      ensures ExprRef(env, e).Some? ==> NewEvaluate(env.world, nodes, |old(nodes)|)
      ensures Key(env.hasher, e) !in old(index) ==> nid == |nodes| - 1
      ensures |nodes| <= |old(nodes)| + NodeBound(e) && NewOk(nodes, |old(nodes)|, Nonzero(env, e))
      decreases e, 2
    {
      hide NodeRef, ExprRef, Key, Valid, Lawful, LayersCovered, NewOk, NewEvaluate, KeysFaithful;
      ValidFacts();
      var key := Key(env.hasher, e);
      if key in index {
        nid := index[key];
        HitIsRight(e);
        NothingNew(env.world, nodes);
        NewOkNone(nodes, Nonzero(env, e));
        return;
      }
      if e.Value? {
        nid := Fact(e.ref);
        NewOkOne(old(nodes), Node(Some(e.ref), "", []), Nonzero(env, e));
        ValueRef(env, e);
        LastEvaluates(env.world, nodes);
      } else {
        nid := CompileCompute(e);
      }
      Remember(key, e, nid);
    }

    /** Adds an index entry. */
    method Remember(key: string, e: Expr, nid: NodeID)
      requires Valid() && e in universe && key == Key(env.hasher, e)
      requires nid < |nodes| && NodeRef(env.world, nodes, nid) == ExprRef(env, e)
      modifies this`index, this`origin
      ensures Valid() && index == old(index)[key := nid]
    {
      hide NodeRef, ExprRef, Key, Lawful, LayersCovered, KeysFaithful;
      index := index[key := nid];
      origin := origin[key := e];
      forall k | k in index ensures EntryOk(k) {
        if k != key { assert old(EntryOk(k)); }
      }
    }

    /** A hit was made for an expression with the same key, hence the same meaning. */
    lemma HitIsRight(e: Expr)
      requires Valid() && e in universe && Key(env.hasher, e) in index
      ensures index[Key(env.hasher, e)] < |nodes|
      ensures NodeRef(env.world, nodes, index[Key(env.hasher, e)]) == ExprRef(env, e)
    {
      hide NodeRef, ExprRef, Key, Lawful, LayersCovered, KeysFaithful;
      var k := Key(env.hasher, e);
      assert EntryOk(k);
      KeyInjective(env.hasher, universe, e, origin[k]);
      ExprRefErased(env, e);
      ExprRefErased(env, origin[k]);
    }

    method CompileCompute(e: Expr) returns (nid: NodeID)
      requires Valid() && e in universe && SelectionFree(e) && e.Compute?
      modifies this
      ensures Valid() && Grown(old(nodes), nodes) && nid == |nodes| - 1
      ensures NodeRef(env.world, nodes, nid) == ExprRef(env, e)
      ensures ExprRef(env, e).Some? ==> NewEvaluate(env.world, nodes, |old(nodes)|)
      ensures |nodes| <= |old(nodes)| + NodeBound(e) && NewOk(nodes, |old(nodes)|, Nonzero(env, e))
      decreases e, 1
    {
      hide NodeRef, ExprRef, Key, Valid, Lawful, LayersCovered, NewOk, NewEvaluate, KeysFaithful, RunOp, Merged, LayerRefs;
      ValidFacts();
      ghost var w, lo := env.world, |nodes|;
      var layers := CompileInputs(e);
      ghost var refs, layered := LayerRefs(env, e.inputs), nodes;
      ComputeRef(env, e);
      var inputs: seq<NodeInput>;
      if |layers| == 0 {
        inputs := [];
      } else if |layers| == 1 {
        inputs := [NodeInput("", layers[0])];
        MergedSingle(env, refs);
        NothingNew(w, nodes);
      } else {
        LayersOccur(env, universe, e);
        var merged := MergeLayers(layers);
        NewOkExtend(layered, nodes, lo, Nonzero(env, e));
        inputs := [NodeInput("", merged)];
      }
      ghost var before := nodes;
      if |layers| > 0 {
        InputEvaluates(env, layered, before, refs, lo);
      }
      var derived := Derived(e.op, inputs);
      nid := derived.value;
      NewOkOne(before, Node(None, e.op, inputs), Nonzero(env, e));
      NewOkExtend(before, nodes, lo, Nonzero(env, e));
      FinalNode(env, e, before, nodes, inputs, lo);
    }

    /** Compiles and places every input, in order. */
    method CompileInputs(e: Expr) returns (layers: seq<NodeID>)
      requires Valid() && e in universe && SelectionFree(e) && e.Compute?
      modifies this
      ensures Valid() && Grown(old(nodes), nodes)
      ensures Below(layers, |nodes|) && NodeRefs(env.world, nodes, layers) == LayerRefs(env, e.inputs)
      ensures AllSome(LayerRefs(env, e.inputs)) ==> NewEvaluate(env.world, nodes, |old(nodes)|)
      ensures |nodes| <= |old(nodes)| + InputBound(e.inputs) && NewOk(nodes, |old(nodes)|, Nonzero(env, e))
      ensures |layers| == |e.inputs|
      decreases e, 0
    {
      hide NodeRef, ExprRef, Key, Valid, Lawful, LayersCovered, NewOk, NewEvaluate, KeysFaithful, PlaceRef, MovedTo, Nonzero, NonzeroBlobs, NodeBound, InputBound;
      ValidFacts();
      ghost var w, refs := env.world, LayerRefs(env, e.inputs);
      layers := [];
      NothingNew(w, nodes);
      NewOkNone(nodes, Nonzero(env, e));
      var k := 0;
      while k < |e.inputs|
        invariant Valid() && Grown(old(nodes), nodes) && 0 <= k == |layers| <= |e.inputs|
        invariant |nodes| <= |old(nodes)| + InputBound(e.inputs[..k]) && NewOk(nodes, |old(nodes)|, Nonzero(env, e))
        invariant Layered(w, nodes, layers, refs[..k], |old(nodes)|)
      {
        var input := e.inputs[k];
        InUniverse(e, k);
        ghost var before := nodes;
        var nid := Compile(input.from);
        ghost var compiled := nodes;
        nid := Place(input.to, nid);
        LayerAdded(w, before, compiled, nodes, layers, refs, k, nid, |old(nodes)|);
        InputBoundMore(e.inputs, k);
        InputOk(env, e, k, before, compiled, nodes, |old(nodes)|);
        layers := layers + [nid];
        k := k + 1;
      }
      assert refs[..k] == refs && e.inputs[..k] == e.inputs;
    }

    lemma InUniverse(e: Expr, k: nat)
      requires Valid() && e in universe && SelectionFree(e) && e.Compute? && k < |e.inputs|
      ensures e.inputs[k].from in universe && SelectionFree(e.inputs[k].from)
    {}
  }

  lemma LayersOccur(env: Env, universe: set<Expr>, e: Expr)
    requires LayersCovered(env, universe) && e in universe && e.Compute?
    ensures InLayers(env, LayerRefs(env, e.inputs))
  {}

  lemma InputOk(env: Env, e: Expr, k: nat, before: seq<Node>, compiled: seq<Node>, after: seq<Node>, lo: nat)
    requires e.Compute? && k < |e.inputs| && Grown(before, compiled) && Grown(compiled, after)
    requires NewOk(before, lo, Nonzero(env, e)) && NewOk(compiled, |before|, Nonzero(env, e.inputs[k].from))
    requires NewOk(after, |compiled|, NonzeroBlobs(env))
    ensures NewOk(after, lo, Nonzero(env, e))
  {
    hide NewOk;
    InputNonzero(env, e, k);
    NewOkWeaker(compiled, |before|, Nonzero(env, e), Nonzero(env, e.inputs[k].from));
    NewOkExtend(before, compiled, lo, Nonzero(env, e));
    NewOkWeaker(after, |compiled|, Nonzero(env, e), NonzeroBlobs(env));
    NewOkExtend(compiled, after, lo, Nonzero(env, e));
  }

  lemma NothingNew(w: World, dag: seq<Node>)
    requires Topological(dag)
    ensures NewEvaluate(w, dag, |dag|)
  {}

  lemma ValueRef(env: Env, e: Expr)
    requires e.Value?
    ensures ExprRef(env, e) == Some(e.ref)
  {}

  lemma ComputeRef(env: Env, e: Expr)
    requires e.Compute?
    ensures ExprRef(env, e) == if e.inputs == [] then RunOp(env.world, e.op, [], [])
                               else RunOp(env.world, e.op, [""], [Merged(env, LayerRefs(env, e.inputs))])
  {}

  lemma MergedSingle(env: Env, refs: seq<Option<Ref>>)
    requires |refs| == 1
    ensures Merged(env, refs) == refs[0]
  {}

  lemma RunOpNeedsAll(w: World, op: string, names: seq<string>, refs: seq<Option<Ref>>)
    requires |names| == |refs| && RunOp(w, op, names, refs).Some?
    ensures AllSome(refs)
  {}

  lemma PlaceCases(env: Env, to: string, x: Option<Ref>)
    ensures
      var p := env.cleanPath(to);
      PlaceRef(env, to, x) ==
        if p == "" then x
        else RunOp(env.world, "glfs.place", ["x", "path"], [x, Some(env.world.postBlob(p))])
  {}

  /** The layers compiled so far evaluate to the first placed inputs. */
  ghost predicate Layered(w: World, dag: seq<Node>, layers: seq<NodeID>, refs: seq<Option<Ref>>, lo: nat)
    requires Topological(dag)
  {
    && Below(layers, |dag|) && NodeRefs(w, dag, layers) == refs
    && (AllSome(refs) ==> NewEvaluate(w, dag, lo))
  }

  lemma LayerAdded(w: World, before: seq<Node>, compiled: seq<Node>, after: seq<Node>, layers: seq<NodeID>,
                   refs: seq<Option<Ref>>, k: nat, nid: NodeID, lo: nat)
    requires Topological(before) && Grown(before, compiled) && Grown(compiled, after) && k < |refs| && nid < |after|
    requires Layered(w, before, layers, refs[..k], lo)
    requires NodeRef(w, after, nid) == refs[k]
    requires refs[k].Some? ==> NewEvaluate(w, compiled, |before|) && NewEvaluate(w, after, |compiled|)
    ensures Grown(before, after) && Layered(w, after, layers + [nid], refs[..k + 1], lo)
  {
    hide NodeRef, NewEvaluate;
    NodeRefsStable(w, before, after, layers);
    assert NodeRefs(w, after, layers + [nid]) == NodeRefs(w, after, layers) + [NodeRef(w, after, nid)];
    assert refs[..k + 1] == refs[..k] + [refs[k]];
    if AllSome(refs[..k + 1]) {
      assert forall m :: 0 <= m < k ==> refs[..k][m] == refs[..k + 1][m];
      assert refs[..k + 1][k].Some?;
      NewEvaluateExtend(w, compiled, after, |before|);
      NewEvaluateExtend(w, before, after, lo);
    }
  }

  /** If the merged input evaluates, so does everything made for it. */
  lemma InputEvaluates(env: Env, layered: seq<Node>, before: seq<Node>, refs: seq<Option<Ref>>, lo: nat)
    requires Topological(layered) && Grown(layered, before) && refs != []
    requires AllSome(refs) ==> NewEvaluate(env.world, layered, lo)
    requires Merged(env, refs).Some? ==> NewEvaluate(env.world, before, |layered|)
    ensures Merged(env, refs).Some? ==> NewEvaluate(env.world, before, lo)
  {
    hide NodeRef, NewEvaluate, Merged;
    MergedNeedsAll(env, refs);
    if Merged(env, refs).Some? { NewEvaluateExtend(env.world, layered, before, lo); }
  }

  lemma FinalNode(env: Env, e: Expr, before: seq<Node>, after: seq<Node>, inputs: seq<NodeInput>, lo: nat)
    requires e.Compute? && Topological(before) && Grown(before, after) && InRange(inputs, |before|)
    requires |after| == |before| + 1
    requires NodeRef(env.world, after, |before|) ==
             RunOp(env.world, e.op, Names(inputs), NodeRefs(env.world, before, Ids(inputs)))
    requires
      if e.inputs == [] then inputs == [] && NewEvaluate(env.world, before, lo)
      else
        && |inputs| == 1 && inputs[0].name == ""
        && NodeRef(env.world, before, inputs[0].node) == Merged(env, LayerRefs(env, e.inputs))
        && (Merged(env, LayerRefs(env, e.inputs)).Some? ==> NewEvaluate(env.world, before, lo))
    ensures NodeRef(env.world, after, |before|) == ExprRef(env, e)
    ensures ExprRef(env, e).Some? ==> NewEvaluate(env.world, after, lo)
  {
    hide NodeRef, ExprRef, NewEvaluate, RunOp, Merged, LayerRefs;
    ComputeRef(env, e);
    var w, names, refs := env.world, Names(inputs), NodeRefs(env.world, before, Ids(inputs));
    if e.inputs == [] {
      assert names == [] && refs == [];
    } else {
      assert names == [""] && refs == [Merged(env, LayerRefs(env, e.inputs))];
    }
    if ExprRef(env, e).Some? {
      RunOpNeedsAll(w, e.op, names, refs);
      assert e.inputs != [] ==> refs[0].Some?;
      LastEvaluates(w, after);
      NewEvaluateExtend(w, before, after, lo);
    }
  }

  /** The nodes ys merge, in order, the first `done` layers. */
  ghost predicate Batched(env: Env, dag: seq<Node>, refs: seq<Option<Ref>>, ys: seq<NodeID>, done: nat, lo: nat)
    requires Topological(dag) && done <= |refs|
  {
    && Below(ys, |dag|) && (ys == [] <==> done == 0)
    && (ys != [] ==> Merged(env, NodeRefs(env.world, dag, ys)) == Merged(env, refs[..done]))
    && (AllSome(NodeRefs(env.world, dag, ys)) ==> NewEvaluate(env.world, dag, lo))
    && InLayers(env, NodeRefs(env.world, dag, ys))
  }

  lemma BatchedNone(env: Env, dag: seq<Node>, refs: seq<Option<Ref>>)
    requires Topological(dag)
    ensures Batched(env, dag, refs, [], 0, |dag|)
  {}

  lemma BatchedAll(env: Env, dag: seq<Node>, refs: seq<Option<Ref>>, ys: seq<NodeID>, lo: nat)
    requires Topological(dag) && refs != [] && Batched(env, dag, refs, ys, |refs|, lo)
    ensures Below(ys, |dag|) && ys != []
    ensures Merged(env, NodeRefs(env.world, dag, ys)) == Merged(env, refs)
    ensures AllSome(NodeRefs(env.world, dag, ys)) ==> NewEvaluate(env.world, dag, lo)
    ensures InLayers(env, NodeRefs(env.world, dag, ys))
  {
    assert refs[..|refs|] == refs;
  }

  lemma BatchRefs(w: World, dag: seq<Node>, longer: seq<Node>, xs: seq<NodeID>, start: nat, end: nat)
    requires Topological(dag) && Grown(dag, longer) && Below(xs, |dag|) && start <= end <= |xs|
    ensures Below(xs[start..end], |longer|)
    ensures NodeRefs(w, longer, xs[start..end]) == NodeRefs(w, dag, xs)[start..end]
  {
    hide NodeRef;
    NodeRefsStable(w, dag, longer, xs[start..end]);
  }

  lemma BatchStep(env: Env, before: seq<Node>, after: seq<Node>, refs: seq<Option<Ref>>, ys: seq<NodeID>, n: NodeID,
                  start: nat, end: nat, lo: nat)
    requires Lawful(env) && Topological(before) && Grown(before, after) && n < |after| && start < end <= |refs|
    requires Batched(env, before, refs, ys, start, lo) && InLayers(env, refs)
    requires NodeRef(env.world, after, n) == Merged(env, refs[start..end])
    requires NodeRef(env.world, after, n).Some? ==> NewEvaluate(env.world, after, |before|)
    ensures Batched(env, after, refs, ys + [n], end, lo)
  {
    hide NodeRef, Merged, Lawful;
    MergedInLayers(env, refs[start..end]);
    OneMoreLayer(env, before, after, ys, n);
    BatchJoins(env, before, after, ys, n, refs, start, end);
    BatchEvaluates(env.world, before, after, ys, n, lo);
  }

  lemma OneMoreLayer(env: Env, before: seq<Node>, after: seq<Node>, ys: seq<NodeID>, n: NodeID)
    requires Topological(before) && Grown(before, after) && Below(ys, |before|) && n < |after|
    requires InLayers(env, NodeRefs(env.world, before, ys)) && InLayers(env, [NodeRef(env.world, after, n)])
    ensures Below(ys + [n], |after|) && InLayers(env, NodeRefs(env.world, after, ys + [n]))
  {
    hide NodeRef;
    NodeRefsStable(env.world, before, after, ys);
    var old', all := NodeRefs(env.world, after, ys), NodeRefs(env.world, after, ys + [n]);
    assert all == old' + [NodeRef(env.world, after, n)];
    assert [NodeRef(env.world, after, n)][0] == all[|ys|];
  }

  lemma MergeRuns(env: Env, xs: seq<Option<Ref>>)
    requires Lawful(env) && 1 <= |xs| <= MAX_NODE_INPUTS && InLayers(env, xs)
    ensures RunOp(env.world, "glfs.merge", LayerNames(|xs|), xs) == Merged(env, xs)
  {
    hide Associative, Join, FilesLaw;
    LayerNamesOrdered(|xs|);
    MergedNeedsAll(env, xs);
  }

  /** One more merged batch extends the merged part of the layers. */
  lemma BatchJoins(env: Env, before: seq<Node>, after: seq<Node>, ys: seq<NodeID>, n: NodeID,
                   refs: seq<Option<Ref>>, start: nat, end: nat)
    requires Lawful(env) && Topological(before) && Grown(before, after) && Below(ys, |before|) && n < |after|
    requires start < end <= |refs| && (ys == [] <==> start == 0)
    requires ys != [] ==> Merged(env, NodeRefs(env.world, before, ys)) == Merged(env, refs[..start])
    requires NodeRef(env.world, after, n) == Merged(env, refs[start..end])
    ensures Below(ys + [n], |after|)
    ensures Merged(env, NodeRefs(env.world, after, ys + [n])) == Merged(env, refs[..end])
  {
    hide NodeRef, Lawful;
    var w := env.world;
    NodeRefsStable(w, before, after, ys);
    var all := NodeRefs(w, after, ys + [n]);
    if ys == [] {
      assert refs[start..end] == refs[..end];
    } else {
      assert all == NodeRefs(w, after, ys) + [NodeRef(w, after, n)];
      MergedConcat(env, NodeRefs(w, after, ys), [NodeRef(w, after, n)]);
      MergedConcat(env, refs[..start], refs[start..end]);
      assert refs[..start] + refs[start..end] == refs[..end];
    }
  }

  lemma BatchEvaluates(w: World, before: seq<Node>, after: seq<Node>, ys: seq<NodeID>, n: NodeID, lo: nat)
    requires Topological(before) && Grown(before, after) && Below(ys, |before|) && n < |after|
    requires AllSome(NodeRefs(w, before, ys)) ==> NewEvaluate(w, before, lo)
    requires NodeRef(w, after, n).Some? ==> NewEvaluate(w, after, |before|)
    ensures Below(ys + [n], |after|)
    ensures AllSome(NodeRefs(w, after, ys + [n])) ==> NewEvaluate(w, after, lo)
  {
    hide NodeRef;
    NodeRefsStable(w, before, after, ys);
    var all := NodeRefs(w, after, ys + [n]);
    if AllSome(all) {
      assert forall k :: 0 <= k < |ys| ==> NodeRefs(w, before, ys)[k] == all[k];
      assert all[|ys|] == NodeRef(w, after, n);
      NewEvaluateExtend(w, before, after, lo);
    }
  }

  /** The loop makes at least two and at most 64 batches. */
  lemma BatchCount(n: nat, size: nat, count: nat, start: nat)
    requires n > MAX_NODE_INPUTS && size == BatchSize(n) && start == count * size && start < n + size
    ensures count <= MAX_NODE_INPUTS
    ensures start >= n ==> count >= 2
  {
    BatchSizeBounds(n);
    CancelFactor(count, MAX_NODE_INPUTS + 1, size);
    assert count <= 1 ==> count * size <= size;
  }

  lemma NextMultiple(count: nat, size: nat)
    ensures (count + 1) * size == count * size + size
  {}

  lemma CancelFactor(a: nat, b: nat, c: nat)
    requires a * c < b * c
    ensures a < b
  {}

  // ----- a fresh builder -----

  lemma RefEvaluates(w: World, dag: seq<Node>)
    requires Topological(dag) && NewEvaluate(w, dag, 0)
    ensures SerialExec.AllEvaluate(w, dag)
  {
    forall i | 0 <= i < |dag| ensures Dag.Value(w, dag, i).Some? {
      assert NodeRef(w, dag, i).Some?;
    }
  }

  /** The graph of one target: a fresh builder, the expression, and its placement last. */
  method MakeGraph(env: Env, ghost universe: set<Expr>, e: Expr, place: string) returns (dag: seq<Node>)
    requires Lawful(env) && KeysFaithful(env.hasher, universe) && LayersCovered(env, universe) && e in universe && SelectionFree(e)
    ensures Topological(dag) && dag != []
    ensures NodeRef(env.world, dag, |dag| - 1) == PlaceRef(env, place, ExprRef(env, e))
    ensures PlaceRef(env, place, ExprRef(env, e)).Some? ==> NewEvaluate(env.world, dag, 0)
    ensures |dag| <= NodeBound(e) + 2 && NewOk(dag, 0, Nonzero(env, e))
    ensures MovedTo(env, place, ExprRef(env, e), NodeRef(env.world, dag, |dag| - 1))
  {
    hide NodeRef, ExprRef, Key, Lawful, LayersCovered, NewOk, NewEvaluate, KeysFaithful, PlaceRef, MovedTo;
    var gb := new GraphBuilder(env, universe);
    var root := gb.Compile(e);
    ghost var compiled := gb.nodes;
    var nid := gb.Place(place, root);
    dag := gb.nodes;
    NewOkWeaker(dag, |compiled|, Nonzero(env, e), NonzeroBlobs(env));
    NewOkExtend(compiled, dag, 0, Nonzero(env, e));
    if PlaceRef(env, place, ExprRef(env, e)).Some? { NewEvaluateExtend(env.world, compiled, dag, 0); }
  }

  /** Compile one target and run its graph on the parallel scheduler, under any schedule: it ends in a
      result that holds the placed reference of the expression, exactly when there is one. */
  method CompileAndRun(env: Env, ghost universe: set<Expr>, e: Expr, place: string) returns (r: Option<Result>)
    requires Lawful(env) && KeysFaithful(env.hasher, universe) && LayersCovered(env, universe) && e in universe && SelectionFree(e)
    ensures (if r.Some? then RefOf(env.world, r.value) else None) == PlaceRef(env, place, ExprRef(env, e))
  {
    hide NodeRef, ExprRef, Key, Lawful, LayersCovered, NewOk, NewEvaluate, KeysFaithful, PlaceRef;
    var dag := MakeGraph(env, universe, e, place);
    RunRoot(env, dag, PlaceRef(env, place, ExprRef(env, e)));
    r := ParallelExec.ParallelExecLast(env.world, dag);
  }

  lemma RunRoot(env: Env, dag: seq<Node>, ref: Option<Ref>)
    requires Topological(dag) && dag != []
    requires NodeRef(env.world, dag, |dag| - 1) == ref
    requires ref.Some? ==> NewEvaluate(env.world, dag, 0)
    ensures ref.Some? ==> SerialExec.AllEvaluate(env.world, dag)
    ensures forall res :: Dag.Value(env.world, dag, |dag| - 1) == Some(res) ==> RefOf(env.world, res) == ref
  {
    if ref.Some? { RefEvaluates(env.world, dag); }
  }
}
