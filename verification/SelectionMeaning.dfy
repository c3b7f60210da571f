/** What selections stand for, in terms of files. */
module SelectionMeaning {
  import opened Dag
  import opened Exprs
  import opened Meaning
  import opened Files
  import opened FileMeaning
  import opened StringSets
  import opened Selections
  import PathSets
  import DagStore
  import Paths

  // ----- expressions with one text beside them -----

  /** An operation on `x` and a named text. */
  function WithText(op: string, x: Expr, name: string, text: Ref): Expr {
    Compute(op, [Input("x", x, 0), Input(name, Value(text), 0)])
  }

  lemma WithTextExpands(ctx: LowerCtx, op: string, x: Expr, name: string, text: Ref, r: Expr, d: nat) returns (y: Expr)
    requires ExpandsTo(ctx, WithText(op, x, name, text), r, d)
    ensures d > 0 && r == WithText(op, y, name, text) && ExpandsTo(ctx, x, y, d - 1)
  {
    var e := WithText(op, x, name, text);
    y := r.inputs[0].from;
    assert e.inputs[0].from == x && e.inputs[1].from == Value(text);
    assert ExpandsTo(ctx, e.inputs[0].from, r.inputs[0].from, d - 1);
    assert ExpandsTo(ctx, e.inputs[1].from, r.inputs[1].from, d - 1);
    assert r.inputs == [Input("x", y, 0), Input(name, Value(text), 0)];
  }

  /** Such an operation gets the files of `x` and the text, each under its name. */
  lemma WithTextFiles(env: Env, op: string, x: Expr, name: string, text: string) returns (f: FileMap)
    requires Lawful(env) && text in env.texts && name != "x" && SimpleName(name) && Paths.Segment(name)
    requires Occurs(env, WithText(op, x, name, env.world.postBlob(text)))
    requires ExprRef(env, WithText(op, x, name, env.world.postBlob(text))).Some?
    ensures ExprRef(env, x).Some?
    ensures Sub(f, "x") == env.files(ExprRef(env, x).value) && Sub(f, name) == map["" := text]
    ensures OpMeans(env, op, f, env.files(ExprRef(env, WithText(op, x, name, env.world.postBlob(text))).value))
  {
    hide Lawful, OpMeans, Stack, Placed, Sub, ExprRef, Occurs, AllCompatible;
    var e := WithText(op, x, name, env.world.postBlob(text));
    f := ComputeFiles(env, e);
    assert e.inputs[0].from == x && e.inputs[1].from == Value(env.world.postBlob(text));
    assert ExprRef(env, e.inputs[0].from).Some?;
    ValueHolds(env, text);
    var names, fs := ["x", name], [env.files(ExprRef(env, x).value), map["" := text]];
    SimpleNamesStay(env, name);
    assert DistinctSegments(names);
    assert InputFiles(env, e.inputs) == PlacedAll(names, fs);
    DistinctCompatible(names, fs);
    TreeSub(names, fs, 0);
    TreeSub(names, fs, 1);
  }

  lemma ValueHolds(env: Env, text: string)
    requires Lawful(env) && text in env.texts
    ensures ExprRef(env, Value(env.world.postBlob(text))) == Dag.Some(env.world.postBlob(text))
    ensures env.files(env.world.postBlob(text)) == map["" := text]
  {
    TextHeld(env, text);
  }

  lemma SimpleNamesStay(env: Env, name: string)
    requires Lawful(env) && SimpleName(name)
    ensures env.cleanPath(name) == name && env.cleanPath("x") == "x"
  {
    hide OpsMean, PostsTrees, HoldsTexts, Combines, Associative, MergesLayers;
    assert SimpleName("x");
  }

  // ----- one layer of a derived selection -----

  /** The texts that the lowering of a selection posts are among those that occur. */
  ghost predicate QueryOccurs(env: Env, ctx: LowerCtx, paths: Set) {
    && ctx.postBlob == env.world.postBlob && ctx.json == env.json
    && (PathSets.Expressible(paths) ==> env.json(PathSets.ToPathSet(paths)) in env.texts)
    && forall k :: 0 <= k < |ctx.get(paths)| ==> ctx.get(paths)[k].placeAt in env.texts
  }

  lemma KeptAsSelected(f: FileMap, paths: Set)
    requires PathSets.Expressible(paths)
    ensures Kept(f, PathSets.FromPathSet(PathSets.ToPathSet(paths))) == Kept(f, paths)
  {
    forall p ensures Contains(PathSets.FromPathSet(PathSets.ToPathSet(paths)), p) == Contains(paths, p) {
      PathSets.RoundTripMeaning(paths, p);
    }
  }

  /** A placed expression holds the files below the path. */
  lemma PlacedExpr(env: Env, ctx: LowerCtx, keys: set<Expr>, e: Expr, path: string, r: Expr, d: nat) returns (y: Expr)
    requires Lawful(env) && Closed(keys) && AllOccur(env, keys) && r in keys
    requires ctx.postBlob == env.world.postBlob && path in env.texts
    requires ExpandsTo(ctx, PlaceAt(ctx, e, path), r, d) && ExprRef(env, r).Some?
    ensures Expansion(ctx, e, y) && ExprRef(env, y).Some?
    ensures env.files(ExprRef(env, r).value) == Placed(path, env.files(ExprRef(env, y).value))
  {
    hide Lawful, ExprRef, Occurs, Placed, Sub, ExpandsTo;
    if path == "" {
      y := r;
      PlacedNowhere(env.files(ExprRef(env, r).value));
    } else {
      y := WithTextExpands(ctx, "glfs.place", e, "path", env.world.postBlob(path), r, d);
      PathSegments();
      var f := WithTextFiles(env, "glfs.place", y, "path", path);
    }
  }

  lemma PathSegments()
    ensures SimpleName("path") && Paths.Segment("path") && SimpleName("filter") && Paths.Segment("filter")
  {}

  /** A filtered expression holds the selected files. */
  lemma FilteredExpr(env: Env, ctx: LowerCtx, keys: set<Expr>, e: Expr, paths: Set, r: Expr, d: nat) returns (y: Expr)
    requires Lawful(env) && Closed(keys) && AllOccur(env, keys) && r in keys
    requires PathSets.Expressible(paths) && QueryOccurs(env, ctx, paths)
    requires ExpandsTo(ctx, FilterExpr(ctx, e, paths), r, d) && ExprRef(env, r).Some?
    ensures d > 0 && ExpandsTo(ctx, e, y, d - 1) && y in keys && ExprRef(env, y).Some?
    ensures env.files(ExprRef(env, r).value) == Kept(env.files(ExprRef(env, y).value), paths)
  {
    hide Lawful, ExprRef, Occurs, Sub, ExpandsTo, Kept;
    var q := PathSets.ToPathSet(paths);
    y := WithTextExpands(ctx, "glfs.filterPathSet", e, "filter", env.world.postBlob(env.json(q)), r, d);
    assert r.inputs[0].from == y;
    PathSegments();
    var f := WithTextFiles(env, "glfs.filterPathSet", y, "filter", env.json(q));
    KeptAsSelected(env.files(ExprRef(env, y).value), paths);
  }

  // ----- derived selections -----

  /** What the k-th entry found contributes: its files, placed and filtered. */
  ghost predicate IsLayer(env: Env, ctx: LowerCtx, paths: Set, k: nat, layer: FileMap)
    requires k < |ctx.get(paths)|
  {
    var ent := ctx.get(paths)[k];
    exists y :: Expansion(ctx, ent.value, y) && ExprRef(env, y).Some? &&
      layer == Kept(Placed(ent.placeAt, env.files(ExprRef(env, y).value)), paths)
  }

  lemma LayerOf(env: Env, ctx: LowerCtx, keys: set<Expr>, paths: Set, k: nat, r: Expr, d: nat)
    requires Lawful(env) && Closed(keys) && AllOccur(env, keys) && r in keys
    requires PathSets.Expressible(paths) && QueryOccurs(env, ctx, paths) && k < |ctx.get(paths)|
    requires
      var ent := ctx.get(paths)[k];
      ExpandsTo(ctx, FilterExpr(ctx, PlaceAt(ctx, ent.value, ent.placeAt), paths), r, d)
    requires ExprRef(env, r).Some?
    ensures IsLayer(env, ctx, paths, k, env.files(ExprRef(env, r).value))
  {
    hide Lawful, ExprRef, AllOccur, Placed, Kept, ExpandsTo, Expansion;
    var ent := ctx.get(paths)[k];
    var placed := FilteredExpr(env, ctx, keys, PlaceAt(ctx, ent.value, ent.placeAt), paths, r, d);
    var y := PlacedExpr(env, ctx, keys, ent.value, ent.placeAt, placed, d - 1);
  }

  lemma LayerNamesSimple(names: seq<string>)
    requires |names| <= DagStore.Pow16(8) && forall k :: 0 <= k < |names| ==> names[k] == LayerName(k)
    ensures OrderedNames(names) && forall k :: 0 <= k < |names| ==> SimpleName(names[k])
  {
    hide DagStore.Hex, NodeList.LexLe;
    HexNamesOrdered(names, 8);
    forall k | 0 <= k < |names| ensures SimpleName(names[k]) { HexSegment(k, 8); }
  }

  /** A derived selection that evaluates holds only selected paths; and it holds the files of the entries
      found, each placed and filtered, in the order they are found, the last one uppermost. */
  lemma DerivedSelectionFiles(env: Env, ctx: LowerCtx, keys: set<Expr>, paths: Set, x: Expr) returns (layers: seq<FileMap>)
    requires Lawful(env) && Closed(keys) && AllOccur(env, keys) && x in keys
    requires QueryOccurs(env, ctx, paths) && |ctx.get(paths)| <= DagStore.Pow16(8)
    requires Expansion(ctx, Selection(ctx.moduleID, true, paths), x) && ExprRef(env, x).Some?
    ensures |layers| == |ctx.get(paths)| && forall k :: 0 <= k < |layers| ==> IsLayer(env, ctx, paths, k, layers[k])
    ensures forall p :: p in env.files(ExprRef(env, x).value) ==> Contains(paths, p)
    ensures AllCompatible(layers) ==> env.files(ExprRef(env, x).value) == Stack(layers)
  {
    hide Lawful, ExprRef, Occurs, Placed, Stack, AllCompatible, IsLayer, FilterExpr, PlaceAt, LayerName;
    var sel, ents := Selection(ctx.moduleID, true, paths), ctx.get(paths);
    var d: nat :| ExpandsTo(ctx, sel, x, d);
    var q := Query(ctx, paths);
    assert ExpandsTo(ctx, q, x, d - 1);
    assert x.op == "glfs.merge" && |x.inputs| == |ents|;
    layers := [];
    if |ents| == 0 {
      EmptyMerge(env, x);
      StackNone();
    } else {
      var f := ComputeFiles(env, x);
      layers := seq(|ents|, k requires 0 <= k < |ents| => env.files(ExprRef(env, x.inputs[k].from).value));
      forall k | 0 <= k < |ents| ensures x.inputs[k].to == LayerName(k) && IsLayer(env, ctx, paths, k, layers[k]) {
        assert q.inputs[k].to == LayerName(k) && x.inputs[k].to == q.inputs[k].to;
        assert ExpandsTo(ctx, q.inputs[k].from, x.inputs[k].from, d - 2);
        LayerOf(env, ctx, keys, paths, k, x.inputs[k].from, d - 2);
      }
      MergedQuery(env, x, layers, f);
      forall p | p in env.files(ExprRef(env, x).value) ensures Contains(paths, p) {
        var k :| 0 <= k < |layers| && p in layers[k];
        LayerSelected(env, ctx, paths, k, layers[k], p);
      }
    }
  }

  lemma LayerSelected(env: Env, ctx: LowerCtx, paths: Set, k: nat, layer: FileMap, p: string)
    requires k < |ctx.get(paths)| && IsLayer(env, ctx, paths, k, layer) && p in layer
    ensures Contains(paths, p)
  {
    hide Placed, ExprRef;
  }

  /** A merge of nothing holds nothing. */
  lemma EmptyMerge(env: Env, x: Expr)
    requires Lawful(env) && Occurs(env, x) && x.Compute? && x.op == "glfs.merge" && x.inputs == [] && ExprRef(env, x).Some?
    ensures env.files(ExprRef(env, x).value) == map[]
  {
    hide Lawful, Stack;
    assert Somes([]) == [];
    InputHolds(env, "glfs.merge", [], []);
    assert HeldBy(env, []) == [];
    NothingThere();
  }

  lemma NothingThere()
    ensures TreeOf([], []) == map[] && forall n, p :: !HasEntry(map[], n, p)
  {}

  /** Merging numbered layers stacks them; even with conflicts nothing is invented. */
  lemma MergedQuery(env: Env, x: Expr, layers: seq<FileMap>, f: FileMap)
    requires Lawful(env) && x.Compute? && x.op == "glfs.merge" && 0 < |x.inputs| <= DagStore.Pow16(8) && ExprRef(env, x).Some?
    requires forall k :: 0 <= k < |x.inputs| ==> x.inputs[k].to == LayerName(k) && ExprRef(env, x.inputs[k].from).Some?
    requires |layers| == |x.inputs|
    requires forall k :: 0 <= k < |layers| ==> layers[k] == env.files(ExprRef(env, x.inputs[k].from).value)
    requires OpMeans(env, x.op, f, env.files(ExprRef(env, x).value))
    requires AllCompatible(InputFiles(env, x.inputs)) ==> f == Stack(InputFiles(env, x.inputs))
    ensures forall p :: p in env.files(ExprRef(env, x).value) ==> exists k :: 0 <= k < |layers| && p in layers[k]
    ensures AllCompatible(layers) ==> env.files(ExprRef(env, x).value) == Stack(layers)
  {
    hide Lawful, ExprRef, Placed, Stack, AllCompatible, LayerName, HasEntry, EntriesCompatible, LastEntryWins, OrderedNames, DistinctSegments;
    var names := seq(|layers|, k requires 0 <= k < |layers| => LayerName(k));
    LayerNamesSimple(names);
    OrderedDistinct(names);
    forall k | 0 <= k < |names| ensures env.cleanPath(names[k]) == names[k] { SimpleNamesStay(env, names[k]); }
    assert InputFiles(env, x.inputs) == PlacedAll(names, layers);
    DistinctCompatible(names, layers);
    var g := env.files(ExprRef(env, x).value);
    assert f == TreeOf(names, layers);
    forall p | p in g ensures exists k :: 0 <= k < |layers| && p in layers[k] {
      var n :| HasEntry(f, n, p);
      EntryInTree(names, layers, n, p);
    }
    if AllCompatible(layers) {
      CompatibleEntries(names, layers);
      MergedTreeIsStack(names, layers, g);
    }
  }

  lemma OrderedDistinct(names: seq<string>)
    requires OrderedNames(names)
    ensures DistinctSegments(names)
  {}

  // ----- ground selections -----

  /** A ground selection is what the module's own files have at the selected paths. */
  ghost predicate GroundHolds(env: Env, ctx: LowerCtx, source: FileMap) {
    forall m, paths :: ctx.ground(m, paths).Some? ==> env.files(ctx.ground(m, paths).value) == Kept(source, paths)
  }

  lemma GroundSelectionFiles(env: Env, ctx: LowerCtx, source: FileMap, paths: Set, x: Expr)
    requires GroundHolds(env, ctx, source) && Expansion(ctx, Selection(ctx.moduleID, false, paths), x)
    ensures ExprRef(env, x).Some? && env.files(ExprRef(env, x).value) == Kept(source, paths)
    ensures forall p :: p in env.files(ExprRef(env, x).value) ==> Contains(paths, p)
  {
    var sel := Selection(ctx.moduleID, false, paths);
    var d: nat :| ExpandsTo(ctx, sel, x, d);
    assert ExpandsTo(ctx, Answer(ctx, sel).e, x, d - 1);
  }
}
