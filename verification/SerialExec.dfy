/** The serial interpreter: the reference the parallel scheduler is compared with. */
module SerialExec {
  import opened Dag

  /** Every node evaluates to something. */
  ghost predicate AllEvaluate(w: World, dag: seq<Node>)
    requires Topological(dag)
  {
    forall i :: 0 <= i < |dag| ==> Value(w, dag, i).Some?
  }

  /** The loop over all nodes.  It succeeds exactly when every node evaluates, and then its table
      holds each node's value; otherwise it reports the error of the first node that does not. */
  method SerialExecAll(w: World, dag: seq<Node>) returns (r: Outcome<seq<Result>>)
    requires Topological(dag)
    ensures r.Ok? <==> AllEvaluate(w, dag)
    ensures r.Ok? ==> |r.value| == |dag| && forall i :: 0 <= i < |dag| ==> Value(w, dag, i) == Some(r.value[i])
    ensures r.Err? ==>
      exists i :: 0 <= i < |dag| && Value(w, dag, i).None? && dag[i].IsDerived() &&
        (forall j :: 0 <= j < i ==> Value(w, dag, j).Some?) &&
        PrepareInput(w, dag[i].inputs, Filled(Values(w, dag, i))) == Err(r.error)
  {
    hide Value, Values;
    var nodeResults := new Result[|dag|](_ => ZERO_RESULT);
    var i := 0;
    while i < |dag|
      invariant 0 <= i <= |dag|
      invariant forall j :: 0 <= j < i ==> Value(w, dag, j) == Some(nodeResults[j])
      invariant forall j :: i <= j < |dag| ==> nodeResults[j] == ZERO_RESULT
    {
      var n := dag[i];
      ValueFromResults(w, dag, i, nodeResults[..]);
      if n.IsFact() {
        nodeResults[i] := Success(w, n.value.value);
      } else if n.IsDerived() {
        var input := PrepareInputLoop(w, n.inputs, nodeResults[..]);
        if input.Err? {
          FailureAt(w, dag, i, nodeResults[..]);
          return Err(input.error);
        }
        nodeResults[i] := w.exec(n.op, w.marshal(input.value));
      } else {
        EmptyNodeValue(w, dag, i);
      }
      i := i + 1;
    }
    return Ok(nodeResults[..]);
  }

  lemma FailureAt(w: World, dag: seq<Node>, i: nat, results: seq<Result>)
    requires Topological(dag) && i < |dag| == |results|
    requires forall j :: 0 <= j < i ==> Value(w, dag, j) == Some(results[j])
    requires dag[i].IsDerived() && !dag[i].IsFact() && PrepareInput(w, dag[i].inputs, results).Err?
    ensures Value(w, dag, i).None?
    ensures PrepareInput(w, dag[i].inputs, Filled(Values(w, dag, i))) == PrepareInput(w, dag[i].inputs, results)
  {
    ValueFromResults(w, dag, i, results);
    var ins := dag[i].inputs;
    forall k | 0 <= k < |ins| ensures Filled(Values(w, dag, i))[ins[k].node] == results[ins[k].node] {
      ValueInTable(w, dag, ins[k].node, i);
    }
    EntriesAgree(w, ins, Filled(Values(w, dag, i)), results);
  }

  /** The result of the last node; the source indexes out of range on an empty graph. */
  method SerialExecLast(w: World, dag: seq<Node>) returns (r: Outcome<Result>)
    requires Topological(dag) && |dag| > 0
    ensures r.Ok? <==> AllEvaluate(w, dag)
    ensures r.Ok? ==> Value(w, dag, |dag| - 1) == Some(r.value)
  {
    var all := SerialExecAll(w, dag);
    r := match all
      case Err(e) => Err(e)
      case Ok(results) => Ok(results[|results| - 1]);
  }
}
