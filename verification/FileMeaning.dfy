/** What expressions evaluate to, in terms of files: placing moves files below a path, a computation's input
    stacks its placed inputs, and a derived selection holds the selected files of the entries it finds. */
module FileMeaning {
  import opened Dag
  import opened Exprs
  import opened Meaning
  import opened Files
  import opened StringSets
  import opened PathSets
  import DagStore
  import Simplify
  import Paths

  // ----- operations on named references -----

  lemma SomesBack(refs: seq<Ref>, xs: seq<Dag.Option<Ref>>)
    requires |refs| == |xs| && forall k :: 0 <= k < |xs| ==> xs[k] == Dag.Some(refs[k])
    ensures Somes(refs) == xs
  {}

  /** What an operation gets: a single unnamed reference as it is, and otherwise a tree of all. */
  lemma InputHolds(env: Env, op: string, names: seq<string>, refs: seq<Ref>)
    requires Lawful(env) && (op, names, refs) in env.runs && |names| == |refs|
    requires RunOp(env.world, op, names, Somes(refs)).Some?
    requires names == [""] || DistinctSegments(names)
    ensures
      var f := if names == [""] then env.files(refs[0]) else TreeOf(names, HeldBy(env, refs));
      OpMeans(env, op, f, env.files(RunOp(env.world, op, names, Somes(refs)).value))
  {
    hide OpMeans, Combines, Associative, MergesLayers, HoldsTexts, CleansPaths, TreeOf;
    var ents := EntryList(names, Somes(refs));
    if names == [""] {
      assert ents[0].name == "" && |ents| == 1;
    } else {
      if |ents| == 1 { assert Paths.Segment(names[0]); }
    }
  }

  // ----- placing -----

  /** Placing x at a destination is among what occurs. */
  ghost predicate PlaceOccurs(env: Env, to: string, x: Ref) {
    var p := env.cleanPath(to);
    p != "" ==> ("glfs.place", ["x", "path"], [x, env.world.postBlob(p)]) in env.runs && p in env.texts
  }

  /** If both are references, r holds the files of x below the cleaned destination. */
  ghost predicate MovedTo(env: Env, to: string, x: Dag.Option<Ref>, r: Dag.Option<Ref>) {
    x.Some? && r.Some? && PlaceOccurs(env, to, x.value) ==>
      env.files(r.value) == Placed(env.cleanPath(to), env.files(x.value))
  }

  lemma PlaceMoves(env: Env, to: string, x: Dag.Option<Ref>)
    requires Lawful(env)
    ensures MovedTo(env, to, x, PlaceRef(env, to, x))
  {
    hide Lawful, Placed, PlaceOccurs, PlaceRef;
    if x.Some? && PlaceRef(env, to, x).Some? && PlaceOccurs(env, to, x.value) { PlaceFiles(env, to, x.value); }
  }

  lemma PlacedNowhere(f: FileMap)
    ensures Placed("", f) == f
  {
    assert forall q :: At("", q) == q;
  }

  /** Placing moves the files of a reference below the cleaned destination. */
  lemma PlaceFiles(env: Env, to: string, x: Ref)
    requires Lawful(env) && PlaceOccurs(env, to, x) && PlaceRef(env, to, Dag.Some(x)).Some?
    ensures env.files(PlaceRef(env, to, Dag.Some(x)).value) == Placed(env.cleanPath(to), env.files(x))
  {
    hide Lawful, Placed, Sub, TreeOf;
    var p := env.cleanPath(to);
    if p == "" {
      PlacedNowhere(env.files(x));
    } else {
      var names, refs := ["x", "path"], [x, env.world.postBlob(p)];
      SomesBack(refs, [Dag.Some(x), Dag.Some(env.world.postBlob(p))]);
      TextHeld(env, p);
      PlaceNames();
      InputHolds(env, "glfs.place", names, refs);
      TreeSub(names, HeldBy(env, refs), 0);
      TreeSub(names, HeldBy(env, refs), 1);
    }
  }

  lemma TextHeld(env: Env, s: string)
    requires Lawful(env) && s in env.texts
    ensures env.files(env.world.postBlob(s)) == map["" := s]
  {}

  lemma PlaceNames()
    ensures DistinctSegments(["x", "path"]) && DistinctSegments(["x", "filter"])
  {}

  // ----- stacking layers -----

  lemma CompatibleBelow(fs: seq<FileMap>, g: FileMap)
    requires forall i :: 0 <= i < |fs| ==> Compatible(fs[i], g)
    ensures Compatible(Stack(fs), g)
  {
    hide Stack, Below;
    forall p, q | p in Stack(fs) && q in g ensures !Below(p, q) && !Below(q, p) {
      StackHas(fs, p);
      var k :| 0 <= k < |fs| && p in fs[k];
      assert Compatible(fs[k], g);
    }
  }

  /** What the layers hold, where all are references. */
  ghost function Held(env: Env, xs: seq<Dag.Option<Ref>>): (fs: seq<FileMap>)
    requires AllSome(xs)
    ensures |fs| == |xs| && forall k :: 0 <= k < |xs| ==> fs[k] == env.files(xs[k].value)
  {
    seq(|xs|, k requires 0 <= k < |xs| => env.files(xs[k].value))
  }

  /** Merged layers hold their files on top of each other; even with conflicts nothing is invented. */
  lemma {:induction false} MergedFiles(env: Env, xs: seq<Dag.Option<Ref>>)
    requires Lawful(env) && xs != [] && InLayers(env, xs) && Merged(env, xs).Some?
    ensures AllSome(xs)
    ensures forall p :: p in env.files(Merged(env, xs).value) ==> p in Stack(Held(env, xs))
    ensures AllCompatible(Held(env, xs)) ==> env.files(Merged(env, xs).value) == Stack(Held(env, xs))
    decreases |xs|
  {
    hide Lawful, Stack, Compatible, Below;
    MergedNeedsAll(env, xs);
    var fs := Held(env, xs);
    if |xs| == 1 {
      StackOne(fs);
    } else {
      var init, last := xs[..|xs| - 1], xs[|xs| - 1];
      MergedFiles(env, init);
      MergedInLayers(env, init);
      assert [Merged(env, init)][0] == Merged(env, init);
      CombinedFiles(env, Merged(env, init).value, last.value);
      assert Held(env, init) == fs[..|fs| - 1];
      StackMore(fs);
      if AllCompatible(fs) {
        assert AllCompatible(fs[..|fs| - 1]);
        CompatibleBelow(fs[..|fs| - 1], fs[|fs| - 1]);
      }
    }
  }

  lemma StackOne(fs: seq<FileMap>)
    requires |fs| == 1
    ensures Stack(fs) == fs[0]
  {
    assert Stack(fs[..0]) == map[];
  }

  lemma StackMore(fs: seq<FileMap>)
    requires fs != []
    ensures Stack(fs) == Stack(fs[..|fs| - 1]) + fs[|fs| - 1]
  {}

  lemma CombinedFiles(env: Env, a: Ref, b: Ref)
    requires Lawful(env) && a in env.layers && b in env.layers && env.combine(a, b).Some?
    ensures forall p :: p in env.files(env.combine(a, b).value) ==> p in env.files(a) + env.files(b)
    ensures Compatible(env.files(a), env.files(b)) ==> env.files(env.combine(a, b).value) == env.files(a) + env.files(b)
  {
    hide OpsMean, PostsTrees, HoldsTexts, CleansPaths, Associative, MergesLayers, Compatible;
  }

  // ----- computations -----

  /** Evaluating an expression is among what occurs: its layers, the placing of its inputs, and the run of
      its operation. */
  ghost predicate Occurs(env: Env, e: Expr) {
    e.Compute? ==>
      && InLayers(env, LayerRefs(env, e.inputs))
      && (forall k :: 0 <= k < |e.inputs| && ExprRef(env, e.inputs[k].from).Some? ==>
            PlaceOccurs(env, e.inputs[k].to, ExprRef(env, e.inputs[k].from).value))
      && (e.inputs == [] ==> (e.op, [], []) in env.runs)
      && (e.inputs != [] && Merged(env, LayerRefs(env, e.inputs)).Some? ==>
            (e.op, [""], [Merged(env, LayerRefs(env, e.inputs)).value]) in env.runs)
  }

  ghost predicate AllOccur(env: Env, universe: set<Expr>) {
    forall e :: e in universe ==> Occurs(env, e)
  }

  ghost function InputFiles(env: Env, ins: seq<Input>): (fs: seq<FileMap>)
    requires forall k :: 0 <= k < |ins| ==> ExprRef(env, ins[k].from).Some?
    ensures |fs| == |ins|
    ensures forall k :: 0 <= k < |ins| ==> fs[k] == Placed(env.cleanPath(ins[k].to), env.files(ExprRef(env, ins[k].from).value))
  {
    seq(|ins|, k requires 0 <= k < |ins| => Placed(env.cleanPath(ins[k].to), env.files(ExprRef(env, ins[k].from).value)))
  }

  /** A computation that has a value was run on a reference that holds its inputs, each placed, on top of each
      other; even with conflicts nothing is invented. */
  lemma ComputeFiles(env: Env, e: Expr) returns (f: FileMap)
    requires Lawful(env) && Occurs(env, e) && e.Compute? && e.inputs != [] && ExprRef(env, e).Some?
    ensures forall k :: 0 <= k < |e.inputs| ==> ExprRef(env, e.inputs[k].from).Some?
    ensures OpMeans(env, e.op, f, env.files(ExprRef(env, e).value))
    ensures forall p :: p in f ==> p in Stack(InputFiles(env, e.inputs))
    ensures AllCompatible(InputFiles(env, e.inputs)) ==> f == Stack(InputFiles(env, e.inputs))
  {
    hide Lawful, Stack, Compatible, OpMeans, Placed, PlaceOccurs;
    var xs := LayerRefs(env, e.inputs);
    var m := Merged(env, xs);
    RunNeedsInput(env, e);
    MergedFiles(env, xs);
    SomesBack([m.value], [m]);
    InputHolds(env, e.op, [""], [m.value]);
    f := env.files(m.value);
    forall k | 0 <= k < |e.inputs|
      ensures ExprRef(env, e.inputs[k].from).Some?
      ensures env.files(xs[k].value) == Placed(env.cleanPath(e.inputs[k].to), env.files(ExprRef(env, e.inputs[k].from).value))
    {
      PlaceNeedsInput(env, e.inputs[k].to, ExprRef(env, e.inputs[k].from));
      PlaceFiles(env, e.inputs[k].to, ExprRef(env, e.inputs[k].from).value);
    }
    assert Held(env, xs) == InputFiles(env, e.inputs);
  }

  lemma RunNeedsInput(env: Env, e: Expr)
    requires e.Compute? && e.inputs != [] && ExprRef(env, e).Some?
    ensures Merged(env, LayerRefs(env, e.inputs)).Some?
    ensures ExprRef(env, e) == RunOp(env.world, e.op, [""], [Merged(env, LayerRefs(env, e.inputs))])
  {
    assert [Merged(env, LayerRefs(env, e.inputs))][0] == Merged(env, LayerRefs(env, e.inputs));
  }

  lemma PlaceNeedsInput(env: Env, to: string, x: Dag.Option<Ref>)
    requires PlaceRef(env, to, x).Some?
    ensures x.Some?
  {
    assert [x, Dag.Some(env.world.postBlob(env.cleanPath(to)))][0] == x;
  }
}
