/** Build graphs: nodes, the outside world they run in, and what each node evaluates to. */
module Dag {

  datatype Option<T> = None | Some(value: T)

  /** A filesystem reference: content identifier, type, and the remaining fields. */
  datatype Ref = Ref(cid: string, isTree: bool, meta: string)

  /** A job result; errCode 0 is success and root then holds marshalled data. */
  datatype Result = Result(errCode: nat, root: string, schema: string)

  /** Go's zero value, which unwritten slots of a result table hold. */
  const ZERO_RESULT := Result(0, "", "")

  type NodeID = nat

  datatype NodeInput = NodeInput(name: string, node: NodeID)

  datatype Node = Node(value: Option<Ref>, op: string, inputs: seq<NodeInput>) {
    predicate IsFact() { value.Some? }
    predicate IsDerived() { op != "" }
  }

  datatype TreeEntry = TreeEntry(name: string, isDir: bool, ref: Ref)

  /** What lies outside the graph code: job execution, reference marshalling, and posting trees
      and blobs; all deterministic. */
  datatype World = World(
    exec: (string, string) -> Result,
    marshal: Ref -> string,
    parse: string -> Option<Ref>,
    postTree: seq<TreeEntry> -> Option<Ref>,
    postBlob: string -> Ref)

  datatype ExecError =
    | UpstreamErrored(node: NodeID, errCode: nat)
    | Unparsable(root: string)
    | PostFailed

  datatype Outcome<T> = Ok(value: T) | Err(error: ExecError)

  /** Inputs refer to earlier nodes only. */
  predicate Topological(dag: seq<Node>) {
    forall i, k :: 0 <= i < |dag| && 0 <= k < |dag[i].inputs| ==> dag[i].inputs[k].node < i
  }

  predicate InRange(ins: seq<NodeInput>, n: nat) {
    forall k :: 0 <= k < |ins| ==> ins[k].node < n
  }

  // ----- assembling a node's input -----

  function EntryFor(w: World, input: NodeInput, res: Result): Outcome<TreeEntry> {
    if res.errCode != 0 then Err(UpstreamErrored(input.node, res.errCode))
    else
      match w.parse(res.root)
      case None => Err(Unparsable(res.root))
      case Some(ref) => Ok(TreeEntry(input.name, ref.isTree, ref))
  }

  /** One tree entry per input, or the first error in input order. */
  function Entries(w: World, ins: seq<NodeInput>, results: seq<Result>): Outcome<seq<TreeEntry>>
    requires InRange(ins, |results|)
  {
    if ins == [] then Ok([])
    else
      var init := ins[..|ins| - 1];
      match Entries(w, init, results)
      case Err(e) => Err(e)
      case Ok(ents) =>
        var input := ins[|ins| - 1];
        match EntryFor(w, input, results[input.node])
        case Err(e) => Err(e)
        case Ok(ent) => Ok(ents + [ent])
  }

  /** A single unnamed input is passed through; anything else is posted as a tree. */
  function InputOf(w: World, ents: seq<TreeEntry>): Outcome<Ref> {
    if |ents| == 1 && ents[0].name == "" then Ok(ents[0].ref)
    else
      match w.postTree(ents)
      case None => Err(PostFailed)
      case Some(ref) => Ok(ref)
  }

  function PrepareInput(w: World, ins: seq<NodeInput>, results: seq<Result>): Outcome<Ref>
    requires InRange(ins, |results|)
  {
    match Entries(w, ins, results)
    case Err(e) => Err(e)
    case Ok(ents) => InputOf(w, ents)
  }

  lemma {:induction false} EntriesPrefix(w: World, ins: seq<NodeInput>, results: seq<Result>, k: nat)
    requires InRange(ins, |results|) && k <= |ins|
    ensures Entries(w, ins, results).Ok? ==> Entries(w, ins[..k], results).Ok?
    ensures Entries(w, ins[..k], results).Err? ==> Entries(w, ins, results) == Entries(w, ins[..k], results)
    decreases |ins|
  {
    if k == |ins| {
      assert ins[..k] == ins;
    } else {
      assert ins[..|ins| - 1][..k] == ins[..k];
      EntriesPrefix(w, ins[..|ins| - 1], results, k);
    }
  }

  /** The source's accumulation loop with its early returns. */
  method PrepareInputLoop(w: World, ins: seq<NodeInput>, results: seq<Result>) returns (r: Outcome<Ref>)
    requires InRange(ins, |results|)
    ensures r == PrepareInput(w, ins, results)
  {
    var ents: seq<TreeEntry> := [];
    var k := 0;
    while k < |ins|
      invariant 0 <= k <= |ins|
      invariant Entries(w, ins[..k], results) == Ok(ents)
    {
      var res := results[ins[k].node];
      assert ins[..k + 1][..k] == ins[..k];
      EntriesPrefix(w, ins, results, k + 1);
      if res.errCode != 0 {
        return Err(UpstreamErrored(ins[k].node, res.errCode));
      }
      var parsed := w.parse(res.root);
      if parsed.None? {
        return Err(Unparsable(res.root));
      }
      ents := ents + [TreeEntry(ins[k].name, parsed.value.isTree, parsed.value)];
      k := k + 1;
    }
    assert ins[..k] == ins;
    if |ents| == 1 && ents[0].name == "" {
      return Ok(ents[0].ref);
    }
    var posted := w.postTree(ents);
    r := if posted.None? then Err(PostFailed) else Ok(posted.value);
  }

  /** Only the results of the named inputs matter. */
  lemma {:induction false} EntriesAgree(w: World, ins: seq<NodeInput>, a: seq<Result>, b: seq<Result>)
    requires InRange(ins, |a|) && InRange(ins, |b|)
    requires forall k :: 0 <= k < |ins| ==> a[ins[k].node] == b[ins[k].node]
    ensures Entries(w, ins, a) == Entries(w, ins, b)
    decreases |ins|
  {
    if ins != [] {
      EntriesAgree(w, ins[..|ins| - 1], a, b);
    }
  }

  /** Input preparation fails without running anything exactly when some upstream result is an
      error or does not parse. */
  lemma {:induction false} EntriesFailIff(w: World, ins: seq<NodeInput>, results: seq<Result>)
    requires InRange(ins, |results|)
    ensures Entries(w, ins, results).Err? <==>
            exists k :: 0 <= k < |ins| &&
              (results[ins[k].node].errCode != 0 || w.parse(results[ins[k].node].root).None?)
    decreases |ins|
  {
    if ins != [] {
      var init := ins[..|ins| - 1];
      EntriesFailIff(w, init, results);
      if Entries(w, init, results).Err? {
        var k :| 0 <= k < |init| &&
          (results[init[k].node].errCode != 0 || w.parse(results[init[k].node].root).None?);
        assert ins[k] == init[k];
      } else {
        assert forall k :: 0 <= k < |init| ==> ins[k] == init[k];
        if Entries(w, ins, results).Err? {
          var last := ins[|ins| - 1];
          assert results[last.node].errCode != 0 || w.parse(results[last.node].root).None?;
        }
      }
    }
  }

  /** The error is that of the first input, in order, that is an error or does not parse: it names the
      input's node and code, or quotes what does not parse. */
  lemma {:induction false} FirstError(w: World, ins: seq<NodeInput>, results: seq<Result>) returns (k: nat)
    requires InRange(ins, |results|) && Entries(w, ins, results).Err?
    ensures k < |ins|
    ensures forall m :: 0 <= m < k ==> results[ins[m].node].errCode == 0 && w.parse(results[ins[m].node].root).Some?
    ensures var res := results[ins[k].node];
      if res.errCode != 0 then Entries(w, ins, results) == Err(UpstreamErrored(ins[k].node, res.errCode))
      else w.parse(res.root).None? && Entries(w, ins, results) == Err(Unparsable(res.root))
    decreases |ins|
  {
    var init := ins[..|ins| - 1];
    if Entries(w, init, results).Err? {
      k := FirstError(w, init, results);
    } else {
      k := |ins| - 1;
      EntriesFailIff(w, init, results);
      assert forall m :: 0 <= m < k ==> init[m] == ins[m];
      forall m | 0 <= m < k ensures results[ins[m].node].errCode == 0 && w.parse(results[ins[m].node].root).Some? {
        assert init[m] == ins[m];
      }
    }
  }

  /** Without an error there is one entry for each input, in order, with the input's name and the reference
      its result holds. */
  lemma {:induction false} EntriesInOrder(w: World, ins: seq<NodeInput>, results: seq<Result>, k: nat)
    requires InRange(ins, |results|) && Entries(w, ins, results).Ok? && k < |ins|
    ensures |Entries(w, ins, results).value| == |ins|
    ensures
      var ent := Entries(w, ins, results).value[k];
      ent.name == ins[k].name && Some(ent.ref) == w.parse(results[ins[k].node].root) && ent.isDir == ent.ref.isTree
    decreases |ins|
  {
    if |ins| == 1 {
      assert Entries(w, ins[..0], results) == Ok([]);
    } else if k < |ins| - 1 {
      EntriesInOrder(w, ins[..|ins| - 1], results, k);
    } else {
      EntriesInOrder(w, ins[..|ins| - 1], results, 0);
    }
  }

  // ----- what a node evaluates to -----

  function Success(w: World, ref: Ref): Result {
    Result(0, w.marshal(ref), "")
  }

  /** One node, given the results so far; an empty node leaves its slot at zero. */
  function NodeOutcome(w: World, n: Node, results: seq<Result>): Outcome<Result>
    requires InRange(n.inputs, |results|)
  {
    if n.IsFact() then Ok(Success(w, n.value.value))
    else if n.IsDerived() then
      match PrepareInput(w, n.inputs, results)
      case Err(e) => Err(e)
      case Ok(ref) => Ok(w.exec(n.op, w.marshal(ref)))
    else Ok(ZERO_RESULT)
  }

  predicate InputsAvailable(n: Node, table: seq<Option<Result>>)
    requires InRange(n.inputs, |table|)
  {
    forall k :: 0 <= k < |n.inputs| ==> table[n.inputs[k].node].Some?
  }

  function Filled(table: seq<Option<Result>>): (results: seq<Result>)
    ensures |results| == |table|
    ensures forall i :: 0 <= i < |table| ==> results[i] == if table[i].Some? then table[i].value else ZERO_RESULT
  {
    seq(|table|, i requires 0 <= i < |table| => if table[i].Some? then table[i].value else ZERO_RESULT)
  }

  /** What a node evaluates to given what its inputs evaluate to: nothing, if an input of a
      derived node evaluates to nothing or its input cannot be prepared. */
  function NodeValue(w: World, n: Node, table: seq<Option<Result>>): Option<Result>
    requires InRange(n.inputs, |table|)
  {
    if n.IsDerived() && !n.IsFact() && !InputsAvailable(n, table) then None
    else
      match NodeOutcome(w, n, Filled(table))
      case Err(_) => None
      case Ok(res) => Some(res)
  }

  /** What the first n nodes evaluate to. */
  function Values(w: World, dag: seq<Node>, n: nat): (table: seq<Option<Result>>)
    requires Topological(dag) && n <= |dag|
    ensures |table| == n
  {
    if n == 0 then []
    else
      var table := Values(w, dag, n - 1);
      table + [NodeValue(w, dag[n - 1], table)]
  }

  function Value(w: World, dag: seq<Node>, i: NodeID): Option<Result>
    requires Topological(dag) && i < |dag|
  {
    Values(w, dag, i + 1)[i]
  }

  lemma {:induction false} ValuesPrefix(w: World, dag: seq<Node>, m: nat, n: nat)
    requires Topological(dag) && m <= n <= |dag|
    ensures Values(w, dag, n)[..m] == Values(w, dag, m)
    decreases n
  {
    if m < n {
      ValuesPrefix(w, dag, m, n - 1);
      assert Values(w, dag, n)[..m] == Values(w, dag, n - 1)[..m];
    }
  }

  lemma ValueInTable(w: World, dag: seq<Node>, i: NodeID, n: nat)
    requires Topological(dag) && i < n <= |dag|
    ensures Values(w, dag, n)[i] == Value(w, dag, i)
  {
    ValuesPrefix(w, dag, i + 1, n);
    assert Values(w, dag, n)[..i + 1][i] == Values(w, dag, n)[i];
  }

  /** A node's value is one computation over the values of its inputs, wherever those results
      are stored. */
  lemma ValueFromResults(w: World, dag: seq<Node>, i: NodeID, results: seq<Result>)
    requires Topological(dag) && i < |dag| && InRange(dag[i].inputs, |results|)
    requires forall k :: 0 <= k < |dag[i].inputs| ==>
               Value(w, dag, dag[i].inputs[k].node) == Some(results[dag[i].inputs[k].node])
    ensures Value(w, dag, i) == (match NodeOutcome(w, dag[i], results)
                                 case Err(_) => None
                                 case Ok(res) => Some(res))
  {
    var n, table := dag[i], Values(w, dag, i);
    forall k | 0 <= k < |n.inputs| ensures table[n.inputs[k].node] == Some(results[n.inputs[k].node]) {
      ValueInTable(w, dag, n.inputs[k].node, i);
    }
    EntriesAgree(w, n.inputs, Filled(table), results);
  }

  /** An empty node leaves its slot at the zero result. */
  lemma EmptyNodeValue(w: World, dag: seq<Node>, i: NodeID)
    requires Topological(dag) && i < |dag| && !dag[i].IsFact() && !dag[i].IsDerived()
    ensures Value(w, dag, i) == Some(ZERO_RESULT)
  {}

  /** A derived node with an input that evaluates to nothing evaluates to nothing. */
  lemma BlockedValue(w: World, dag: seq<Node>, i: NodeID, k: nat)
    requires Topological(dag) && i < |dag| && !dag[i].IsFact() && dag[i].IsDerived()
    requires k < |dag[i].inputs| && Value(w, dag, dag[i].inputs[k].node).None?
    ensures Value(w, dag, i).None?
  {
    ValueInTable(w, dag, dag[i].inputs[k].node, i);
    assert !InputsAvailable(dag[i], Values(w, dag, i));
  }

  /** Appending nodes does not change what earlier nodes evaluate to. */
  lemma {:induction false} ValuesStable(w: World, dag: seq<Node>, more: seq<Node>, n: nat)
    requires Topological(dag) && Topological(dag + more) && n <= |dag|
    ensures Values(w, dag + more, n) == Values(w, dag, n)
    decreases n
  {
    if n > 0 {
      ValuesStable(w, dag, more, n - 1);
      assert (dag + more)[n - 1] == dag[n - 1];
    }
  }
}
