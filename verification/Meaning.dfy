/** What an expression evaluates to, by direct recursion without any graph; and the same question
    for a graph node, in terms of the references its inputs evaluate to. */
module Meaning {
  import opened Dag
  import opened Exprs
  import DagStore
  import PathSets
  import opened Files
  import NodeList
  import Paths

  /** The surroundings of a compilation: `cleanPath` normalises a destination path, `combine` is the layering
      of one tree over another, which may fail, and `json` writes a path set down.  What a reference holds
      is `files`.  Assumptions are made only for what occurs in one compilation: the references that are
      `layers`, the operations that are run on named references, and the texts that are posted. */
  datatype Env = Env(
    world: World,
    hasher: Hasher,
    cleanPath: string -> string,
    combine: (Ref, Ref) -> Option<Ref>,
    json: PathSets.PathSet -> string,
    ghost files: Ref -> FileMap,
    ghost layers: iset<Ref>,
    ghost runs: iset<(string, seq<string>, seq<Ref>)>,
    ghost texts: iset<string>)

  const MAX_NODE_INPUTS := 64

  // ----- references -----

  function RefOf(w: World, res: Result): Option<Ref> {
    if res.errCode != 0 then None else w.parse(res.root)
  }

  /** The reference a node evaluates to, if it evaluates to one. */
  function NodeRef(w: World, dag: seq<Node>, i: NodeID): Option<Ref>
    requires Topological(dag) && i < |dag|
  {
    match Dag.Value(w, dag, i)
    case None => None
    case Some(res) => RefOf(w, res)
  }

  function NodeRefs(w: World, dag: seq<Node>, ids: seq<NodeID>): (refs: seq<Option<Ref>>)
    requires Topological(dag) && forall k :: 0 <= k < |ids| ==> ids[k] < |dag|
    ensures |refs| == |ids| && forall k :: 0 <= k < |ids| ==> refs[k] == NodeRef(w, dag, ids[k])
  {
    seq(|ids|, k requires 0 <= k < |ids| => NodeRef(w, dag, ids[k]))
  }

  predicate AllSome(xs: seq<Option<Ref>>) {
    forall k :: 0 <= k < |xs| ==> xs[k].Some?
  }

  function EntryList(names: seq<string>, refs: seq<Option<Ref>>): (ents: seq<TreeEntry>)
    requires |names| == |refs| && AllSome(refs)
    ensures |ents| == |refs|
    ensures forall k :: 0 <= k < |refs| ==> ents[k] == TreeEntry(names[k], refs[k].value.isTree, refs[k].value)
  {
    seq(|refs|, k requires 0 <= k < |refs| => TreeEntry(names[k], refs[k].value.isTree, refs[k].value))
  }

  /** Run an operation on named references, all of which must be available. */
  function RunOp(w: World, op: string, names: seq<string>, refs: seq<Option<Ref>>): Option<Ref>
    requires |names| == |refs|
  {
    if op == "" || !AllSome(refs) then None
    else
      match InputOf(w, EntryList(names, refs))
      case Err(_) => None
      case Ok(input) => RefOf(w, w.exec(op, w.marshal(input)))
  }

  // ----- layers -----

  function Join(env: Env, a: Option<Ref>, b: Option<Ref>): Option<Ref> {
    if a.Some? && b.Some? then env.combine(a.value, b.value) else None
  }

  /** All layers combined in order; a single layer is itself. */
  function Merged(env: Env, xs: seq<Option<Ref>>): Option<Ref>
    requires xs != []
  {
    if |xs| == 1 then xs[0] else Join(env, Merged(env, xs[..|xs| - 1]), xs[|xs| - 1])
  }

  function LayerNames(n: nat): (names: seq<string>)
    ensures |names| == n && forall i :: 0 <= i < n ==> names[i] == DagStore.Hex(i, 2)
  {
    seq(n, i requires 0 <= i < n => DagStore.Hex(i, 2))
  }

  /** Layers are named in their order. */
  lemma LayerNamesOrdered(n: nat)
    requires n <= MAX_NODE_INPUTS
    ensures OrderedNames(LayerNames(n))
  {
    hide DagStore.Hex, NodeList.LexLe;
    HexNamesOrdered(LayerNames(n), 2);
  }

  lemma HexNamesOrdered(names: seq<string>, w: nat)
    requires w > 0 && |names| <= DagStore.Pow16(w)
    requires forall i :: 0 <= i < |names| ==> names[i] == DagStore.Hex(i, w)
    ensures OrderedNames(names)
  {
    hide DagStore.Hex, NodeList.LexLe;
    forall i | 0 <= i < |names| ensures Paths.Segment(names[i]) { HexSegment(i, w); }
    forall i, j | 0 <= i < j < |names| ensures NodeList.LexLe(names[i], names[j]) && names[i] != names[j] {
      DagStore.HexOrdered(i, j, w);
    }
  }

  lemma {:induction false} HexSegment(x: nat, w: nat)
    requires w > 0
    ensures Paths.Segment(DagStore.Hex(x, w)) && SimpleName(DagStore.Hex(x, w))
    decreases w
  {
    DagStore.DigitsRead(x % 16);
    if w > 1 {
      HexSegment(x / 16, w - 1);
    } else {
      assert DagStore.Hex(x / 16, 0) == "";
    }
  }

  ghost predicate Associative(env: Env) {
    forall a, b, c :: Join(env, env.combine(a, b), Some(c)) == Join(env, Some(a), env.combine(b, c))
  }

  /** All that are references occur as layers. */
  ghost predicate InLayers(env: Env, xs: seq<Option<Ref>>) {
    forall k :: 0 <= k < |xs| && xs[k].Some? ==> xs[k].value in env.layers
  }

  /** Merging combines up to 64 layers in the order of their names. */
  ghost predicate MergesLayers(env: Env) {
    forall names, xs ::
      1 <= |xs| <= MAX_NODE_INPUTS && |names| == |xs| && OrderedNames(names) && AllSome(xs) && InLayers(env, xs) ==>
        RunOp(env.world, "glfs.merge", names, xs) == Merged(env, xs)
  }

  function Somes(refs: seq<Ref>): (xs: seq<Option<Ref>>)
    ensures |xs| == |refs| && AllSome(xs) && forall k :: 0 <= k < |refs| ==> xs[k] == Some(refs[k])
  {
    seq(|refs|, k requires 0 <= k < |refs| => Some(refs[k]))
  }

  ghost function HeldBy(env: Env, refs: seq<Ref>): (fs: seq<FileMap>)
    ensures |fs| == |refs| && forall k :: 0 <= k < |refs| ==> fs[k] == env.files(refs[k])
  {
    seq(|refs|, k requires 0 <= k < |refs| => env.files(refs[k]))
  }

  /** A posted tree holds what its entries hold, each under its name. */
  ghost predicate PostsTrees(env: Env) {
    forall op, names, refs ::
      (op, names, refs) in env.runs && |names| == |refs| && DistinctSegments(names) &&
      env.world.postTree(EntryList(names, Somes(refs))).Some? ==>
        env.files(env.world.postTree(EntryList(names, Somes(refs))).value) == TreeOf(names, HeldBy(env, refs))
  }

  /** What an operation does to files, if it succeeds: f is what its input holds, and g its result. */
  ghost predicate OpMeans(env: Env, op: string, f: FileMap, g: FileMap) {
    && (op == "glfs.pass" ==> g == f)
    && (op == "glfs.place" ==> "" in Sub(f, "path") && g == Placed(Sub(f, "path")[""], Sub(f, "x")))
    && (op == "glfs.filterPathSet" ==>
          forall q :: Sub(f, "filter") == map["" := env.json(q)] ==> g == Kept(Sub(f, "x"), PathSets.FromPathSet(q)))
    && (op == "glfs.merge" ==> MergeMeans(f, g))
  }

  /** Merging invents no paths, and without conflicts between files and directories the last entry wins. */
  ghost predicate MergeMeans(f: FileMap, g: FileMap) {
    && (forall p :: p in g ==> exists n :: HasEntry(f, n, p))
    && (EntriesCompatible(f) ==> LastEntryWins(f, g))
  }

  ghost predicate OpsMean(env: Env) {
    forall op, names, refs ::
      (op, names, refs) in env.runs && |names| == |refs| && RunOp(env.world, op, names, Somes(refs)).Some? ==>
        var input := InputOf(env.world, EntryList(names, Somes(refs)));
        input.Ok? && OpMeans(env, op, env.files(input.value), env.files(RunOp(env.world, op, names, Somes(refs)).value))
  }

  /** Combining layers invents no paths, and without conflicts between files and directories the second is
      laid over the first. */
  ghost predicate Combines(env: Env) {
    forall a, b :: a in env.layers && b in env.layers && env.combine(a, b).Some? ==>
      var g := env.files(env.combine(a, b).value);
      && (forall p :: p in g ==> p in env.files(a) || p in env.files(b))
      && (Compatible(env.files(a), env.files(b)) ==> g == env.files(a) + env.files(b))
  }

  /** Digits and small letters: nothing for a path to be cleaned of. */
  predicate SimpleName(s: string) {
    s != "" && forall i :: 0 <= i < |s| ==> '0' <= s[i] <= '9' || 'a' <= s[i] <= 'z'
  }

  ghost predicate CleansPaths(env: Env) {
    forall s :: SimpleName(s) ==> env.cleanPath(s) == s
  }

  ghost predicate HoldsTexts(env: Env) {
    forall s :: s in env.texts ==> env.files(env.world.postBlob(s)) == map["" := s]
  }

  ghost predicate FilesLaw(env: Env) {
    CleansPaths(env) && HoldsTexts(env) && PostsTrees(env) && OpsMean(env) && Combines(env)
  }

  /** What is assumed of the world: references survive marshalling, the empty string is no reference,
      combining is associative and stays among the layers that occur, the merge operation combines these,
      and operations do to files what they are for. */
  ghost predicate Lawful(env: Env) {
    var w := env.world;
    && (forall r :: w.parse(w.marshal(r)) == Some(r))
    && w.parse("") == None
    && Associative(env) && MergesLayers(env) && FilesLaw(env)
    && forall a, b :: a in env.layers && b in env.layers && env.combine(a, b).Some? ==> env.combine(a, b).value in env.layers
  }

  lemma {:induction false} MergedInLayers(env: Env, xs: seq<Option<Ref>>)
    requires Lawful(env) && xs != [] && InLayers(env, xs)
    ensures InLayers(env, [Merged(env, xs)])
    decreases |xs|
  {
    hide Associative, MergesLayers, FilesLaw;
    if |xs| > 1 {
      MergedInLayers(env, xs[..|xs| - 1]);
      assert [Merged(env, xs[..|xs| - 1])][0] == Merged(env, xs[..|xs| - 1]);
    }
  }

  lemma {:induction false} MergedConcat(env: Env, a: seq<Option<Ref>>, b: seq<Option<Ref>>)
    requires Lawful(env) && a != [] && b != []
    ensures Merged(env, a + b) == Join(env, Merged(env, a), Merged(env, b))
    decreases |b|
  {
    hide Lawful, Join;
    var xs := a + b;
    if |b| == 1 {
      assert xs[..|xs| - 1] == a;
    } else {
      var init := b[..|b| - 1];
      assert xs[..|xs| - 1] == a + init;
      MergedConcat(env, a, init);
      JoinAssociative(env, Merged(env, a), Merged(env, init), b[|b| - 1]);
    }
  }

  lemma JoinAssociative(env: Env, a: Option<Ref>, b: Option<Ref>, c: Option<Ref>)
    requires Lawful(env)
    ensures Join(env, Join(env, a, b), c) == Join(env, a, Join(env, b, c))
  {
    if a.Some? && b.Some? && c.Some? {
      assert Join(env, env.combine(a.value, b.value), Some(c.value)) == Join(env, Some(a.value), env.combine(b.value, c.value));
    }
  }

  /** A merge of layers of which one is missing is missing. */
  lemma {:induction false} MergedNeedsAll(env: Env, xs: seq<Option<Ref>>)
    requires xs != []
    ensures Merged(env, xs).Some? ==> AllSome(xs)
    decreases |xs|
  {
    if |xs| > 1 {
      MergedNeedsAll(env, xs[..|xs| - 1]);
      assert AllSome(xs) <==> AllSome(xs[..|xs| - 1]) && xs[|xs| - 1].Some?;
    }
  }

  // ----- expressions -----

  function PlaceRef(env: Env, to: string, r: Option<Ref>): Option<Ref> {
    var p := env.cleanPath(to);
    if p == "" then r
    else RunOp(env.world, "glfs.place", ["x", "path"], [r, Some(env.world.postBlob(p))])
  }

  /** The reference denotation: evaluate the inputs, place each, merge them, run the operation. */
  function ExprRef(env: Env, e: Expr): Option<Ref>
    decreases e, 1
  {
    match e
    case Value(ref) => Some(ref)
    case Compute(op, ins) =>
      if ins == [] then RunOp(env.world, op, [], [])
      else RunOp(env.world, op, [""], [Merged(env, LayerRefs(env, ins))])
    case Selection(_, _, _) => None
  }

  function LayerRefs(env: Env, ins: seq<Input>): (refs: seq<Option<Ref>>)
    ensures |refs| == |ins|
    ensures forall k :: 0 <= k < |ins| ==> refs[k] == PlaceRef(env, ins[k].to, ExprRef(env, ins[k].from))
    decreases ins, 0
  {
    if ins == [] then []
    else [PlaceRef(env, ins[0].to, ExprRef(env, ins[0].from))] + LayerRefs(env, ins[1..])
  }

  /** File modes do not matter. */
  lemma {:induction false} ExprRefErased(env: Env, e: Expr)
    ensures ExprRef(env, Erase(e)) == ExprRef(env, e)
    decreases e, 1
  {
    if e.Compute? {
      var ins, erased := e.inputs, EraseAll(e.inputs);
      forall k | 0 <= k < |ins| ensures LayerRefs(env, erased)[k] == LayerRefs(env, ins)[k] {
        ExprRefErased(env, ins[k].from);
      }
      assert LayerRefs(env, erased) == LayerRefs(env, ins);
    }
  }

  /** The layers of every computation in the universe are among those that occur. */
  ghost predicate LayersCovered(env: Env, universe: set<Expr>) {
    forall e :: e in universe && e.Compute? ==> InLayers(env, LayerRefs(env, e.inputs))
  }

  // ----- graph nodes in terms of references -----

  function Ids(ins: seq<NodeInput>): (ids: seq<NodeID>)
    ensures |ids| == |ins| && forall k :: 0 <= k < |ins| ==> ids[k] == ins[k].node
  {
    seq(|ins|, k requires 0 <= k < |ins| => ins[k].node)
  }

  function Names(ins: seq<NodeInput>): (names: seq<string>)
    ensures |names| == |ins| && forall k :: 0 <= k < |ins| ==> names[k] == ins[k].name
  {
    seq(|ins|, k requires 0 <= k < |ins| => ins[k].name)
  }

  lemma {:induction false} EntriesAreEntryList(w: World, ins: seq<NodeInput>, results: seq<Result>, refs: seq<Option<Ref>>)
    requires InRange(ins, |results|) && |refs| == |ins|
    requires forall k :: 0 <= k < |ins| ==> refs[k] == RefOf(w, results[ins[k].node])
    requires AllSome(refs)
    ensures Entries(w, ins, results) == Ok(EntryList(Names(ins), refs))
    decreases |ins|
  {
    if ins == [] {
      assert EntryList(Names(ins), refs) == [];
    } else {
      var init, initRefs := ins[..|ins| - 1], refs[..|refs| - 1];
      EntriesAreEntryList(w, init, results, initRefs);
      var last, ents := |ins| - 1, EntryList(Names(ins), refs);
      assert ents == ents[..last] + [ents[last]];
      assert ents[..last] == EntryList(Names(init), initRefs);
    }
  }

  /** A derived node evaluates to its operation run on what its inputs evaluate to. */
  lemma DerivedNodeRef(w: World, dag: seq<Node>, i: NodeID)
    requires Topological(dag) && i < |dag| && dag[i].value.None? && w.parse("") == None
    ensures InRange(dag[i].inputs, |dag|)
    ensures NodeRef(w, dag, i) == RunOp(w, dag[i].op, Names(dag[i].inputs), NodeRefs(w, dag, Ids(dag[i].inputs)))
  {
    hide Dag.Value, Dag.Values, Dag.Entries, Dag.InputOf;
    var n, ins := dag[i], dag[i].inputs;
    var refs := NodeRefs(w, dag, Ids(ins));
    if n.op == "" {
      EmptyNodeValue(w, dag, i);
    } else if k: nat :| k < |ins| && Dag.Value(w, dag, ins[k].node).None? {
      assert refs[k].None?;
      BlockedValue(w, dag, i, k);
    } else {
      var results := Filled(Values(w, dag, i));
      forall k | 0 <= k < |ins| ensures Dag.Value(w, dag, ins[k].node) == Some(results[ins[k].node]) {
        ValueInTable(w, dag, ins[k].node, i);
      }
      ValueFromResults(w, dag, i, results);
      assert forall k :: 0 <= k < |ins| ==> refs[k] == RefOf(w, results[ins[k].node]);
      if AllSome(refs) {
        EntriesAreEntryList(w, ins, results, refs);
      } else {
        EntriesFailIff(w, ins, results);
        var k :| 0 <= k < |refs| && refs[k].None?;
        assert results[ins[k].node].errCode != 0 || w.parse(results[ins[k].node].root).None?;
      }
    }
  }

  lemma FactNodeRef(w: World, dag: seq<Node>, i: NodeID)
    requires Topological(dag) && i < |dag| && dag[i].value.Some?
    requires w.parse(w.marshal(dag[i].value.value)) == dag[i].value
    ensures NodeRef(w, dag, i) == dag[i].value
  {}

  /** Appending nodes changes no earlier node's reference. */
  lemma NodeRefStable(w: World, dag: seq<Node>, longer: seq<Node>, i: NodeID)
    requires Topological(dag) && Topological(longer) && dag <= longer && i < |dag|
    ensures NodeRef(w, longer, i) == NodeRef(w, dag, i)
  {
    assert longer == dag + longer[|dag|..];
    ValuesStable(w, dag, longer[|dag|..], i + 1);
  }
}
