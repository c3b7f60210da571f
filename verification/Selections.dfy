/** The selection graph: which path sets the entries found by a path set select in turn; the
    depth-first search over it; and the lowering of selections, which terminates because of it. */
module Selections {
  import opened Dag
  import opened Exprs
  import opened StringSets
  import PathSets
  import DagStore

  /** Looking a path set up in the virtual filesystem. */
  type Lookup = Set -> seq<VFSEntry>

  function SelectedBy(e: Expr): set<Set>
    decreases e, 1
  {
    match e
    case Value(_) => {}
    case Compute(_, ins) => SelectedByAll(ins)
    case Selection(_, _, paths) => {paths}
  }

  function SelectedByAll(ins: seq<Input>): (r: set<Set>)
    ensures forall y :: y in r <==> exists k :: 0 <= k < |ins| && y in SelectedBy(ins[k].from)
    decreases ins, 0
  {
    if ins == [] then {}
    else
      assert forall k :: 1 <= k < |ins| ==> ins[k] == ins[1..][k - 1];
      SelectedBy(ins[0].from) + SelectedByAll(ins[1..])
  }

  lemma {:induction false} NothingSelected(e: Expr)
    requires SelectedBy(e) == {}
    ensures SelectionFree(e)
    decreases e
  {
    if e.Compute? {
      forall k | 0 <= k < |e.inputs| ensures SelectionFree(e.inputs[k].from) {
        assert forall y :: y in SelectedBy(e.inputs[k].from) ==> y in SelectedBy(e);
        NothingSelected(e.inputs[k].from);
      }
    }
  }

  // ----- the selection graph -----

  ghost predicate Edge(get: Lookup, x: Set, y: Set) {
    exists i :: 0 <= i < |get(x)| && y in SelectedBy(get(x)[i].value)
  }

  ghost predicate IsPath(get: Lookup, p: seq<Set>) {
    forall i :: 0 <= i < |p| - 1 ==> Edge(get, p[i], p[i + 1])
  }

  ghost predicate Repeats(p: seq<Set>) {
    exists i, j :: 0 <= i < j < |p| && p[i] == p[j]
  }

  /** A walk from x that comes back to where it has been: a cycle reachable from x. */
  ghost predicate WalksIntoCycle(get: Lookup, x: Set, p: seq<Set>) {
    p != [] && p[0] == x && IsPath(get, p) && Repeats(p)
  }

  ghost predicate Acyclic(get: Lookup, x: Set) {
    forall p :: !WalksIntoCycle(get, x, p)
  }

  /** Finitely many path sets, closed under looking up. */
  ghost predicate ClosedUnder(get: Lookup, universe: set<Set>) {
    forall x, i :: x in universe && 0 <= i < |get(x)| ==> SelectedBy(get(x)[i].value) <= universe
  }

  lemma PathExtends(get: Lookup, p: seq<Set>, y: Set)
    requires IsPath(get, p) && (p != [] ==> Edge(get, p[|p| - 1], y))
    ensures IsPath(get, p + [y])
  {}

  /** If no successor reaches a cycle, neither does x: a cycle through x goes through a successor. */
  lemma AcyclicFromSuccessors(get: Lookup, x: Set)
    requires forall y :: Edge(get, x, y) ==> Acyclic(get, y)
    ensures Acyclic(get, x)
  {
    forall p ensures !WalksIntoCycle(get, x, p) {
      if WalksIntoCycle(get, x, p) {
        var i, j :| 0 <= i < j < |p| && p[i] == p[j];
        var y := p[1];
        assert Edge(get, p[0], p[1]);
        var q := if i > 0 then p[1..] else p[1..j + 1] + [y];
        TailWalk(get, p, i, j, q);
        assert false;
      }
    }
  }

  lemma TailWalk(get: Lookup, p: seq<Set>, i: nat, j: nat, q: seq<Set>)
    requires IsPath(get, p) && i < j < |p| && p[i] == p[j]
    requires q == if i > 0 then p[1..] else p[1..j + 1] + [p[1]]
    ensures WalksIntoCycle(get, p[1], q)
  {
    if i > 0 {
      assert q[i - 1] == q[j - 1];
      forall k | 0 <= k < |q| - 1 ensures Edge(get, q[k], q[k + 1]) { assert Edge(get, p[k + 1], p[k + 2]); }
    } else {
      assert q[0] == p[1] == q[j];
      forall k | 0 <= k < |q| - 1 ensures Edge(get, q[k], q[k + 1]) {
        if k < j - 1 {
          assert Edge(get, p[k + 1], p[k + 2]);
        } else {
          assert q[k] == p[j] == p[0] && Edge(get, p[0], p[1]);
        }
      }
    }
  }

  lemma SuccessorsAcyclic(get: Lookup, x: Set, y: Set)
    requires Acyclic(get, x) && Edge(get, x, y)
    ensures Acyclic(get, y)
  {
    forall p ensures !WalksIntoCycle(get, y, p) {
      if WalksIntoCycle(get, y, p) {
        var q := [x] + p;
        var i, j :| 0 <= i < j < |p| && p[i] == p[j];
        assert q[i + 1] == q[j + 1];
        forall k | 0 <= k < |q| - 1 ensures Edge(get, q[k], q[k + 1]) {
          if k > 0 { assert Edge(get, p[k - 1], p[k]); }
        }
        assert WalksIntoCycle(get, x, q);
        assert false;
      }
    }
  }

  // ----- the depth-first search -----

  /** A repeating path that starts with the given stack. */
  ghost predicate CycleBeyond(get: Lookup, stack: seq<Set>, p: seq<Set>) {
    |stack| < |p| && stack == p[..|stack|] && IsPath(get, p) && Repeats(p)
  }

  /** Path sets are identified by their string form in the source; the model uses the terms. */
  class CycleDetector {
    const get: Lookup
    ghost const universe: set<Set>
    var visited: set<Set>
    var current: set<Set>
    var path: seq<Set>

    ghost predicate Valid()
      reads this
    {
      && ClosedUnder(get, universe)
      && (forall x :: x in current <==> x in path) && current <= universe
      && IsPath(get, path) && !Repeats(path)
      && forall x :: x in visited ==> Acyclic(get, x)
    }

    constructor (get: Lookup, ghost universe: set<Set>)
      requires ClosedUnder(get, universe)
      ensures Valid() && path == [] && this.get == get && this.universe == universe
    {
      this.get := get;
      this.universe := universe;
      visited, current, path := {}, {}, [];
    }

    /** True: no cycle is reachable from x.  False: the stack extends through x to a cycle. */
    method Dfs(x: Set) returns (ok: bool)
      requires Valid() && x in universe && IsPath(get, path + [x])
      modifies this
      ensures Valid() && path == old(path) && current == old(current)
      ensures ok ==> Acyclic(get, x)
      ensures !ok ==> exists p :: CycleBeyond(get, path, p) && p[|path|] == x
      decreases universe - current, 0
    {
      hide Valid, Acyclic, Edge, IsPath, Repeats, CycleBeyond, ClosedUnder, SelectedBy;
      if x in visited {
        KnownAcyclic(x);
        return true;
      }
      if x in current {
        RepeatHere(x);
        assert (path + [x])[|path|] == x;
        return false;
      }
      Push(x);
      var ents := get(x);
      var i := 0;
      while i < |ents|
        invariant 0 <= i <= |ents| && Valid() && path == old(path) + [x] && current == old(current) + {x}
        invariant forall k, y :: 0 <= k < i && y in SelectedBy(ents[k].value) ==> Acyclic(get, y)
      {
        EntryEdges(x, i);
        var deeper := TraverseExpr(ents[i].value);
        if !deeper {
          Pop(x);
          ghost var p :| CycleBeyond(get, path + [x], p);
          ShorterStack(get, path, x, p);
          return false;
        }
        i := i + 1;
      }
      MarkVisited(x);
      Pop(x);
      return true;
    }

    lemma KnownAcyclic(x: Set)
      requires Valid() && x in visited
      ensures Acyclic(get, x)
    {}

    method MarkVisited(x: Set)
      requires Valid()
      requires forall k, y :: 0 <= k < |get(x)| && y in SelectedBy(get(x)[k].value) ==> Acyclic(get, y)
      modifies this`visited
      ensures Valid() && visited == old(visited) + {x} && Acyclic(get, x)
    {
      hide Acyclic, Edge;
      AllEntriesAcyclic(get, x);
      visited := visited + {x};
    }

    lemma EntryEdges(x: Set, i: nat)
      requires Valid() && x in universe && i < |get(x)| && path != [] && path[|path| - 1] == x
      ensures SelectedBy(get(x)[i].value) <= universe
      ensures forall y :: y in SelectedBy(get(x)[i].value) ==> IsPath(get, path + [y])
    {
      forall y | y in SelectedBy(get(x)[i].value) ensures IsPath(get, path + [y]) {
        assert Edge(get, x, y);
        PathExtends(get, path, y);
      }
    }

    /** The same for every selection inside an expression. */
    method TraverseExpr(e: Expr) returns (ok: bool)
      requires Valid() && SelectedBy(e) <= universe
      requires forall y :: y in SelectedBy(e) ==> IsPath(get, path + [y])
      modifies this
      ensures Valid() && path == old(path) && current == old(current)
      ensures ok ==> forall y :: y in SelectedBy(e) ==> Acyclic(get, y)
      ensures !ok ==> exists p :: CycleBeyond(get, path, p) && p[|path|] in SelectedBy(e)
      decreases universe - current, 1, e
    {
      match e
      case Value(_) => return true;
      case Selection(_, _, paths) =>
        ok := Dfs(paths);
      case Compute(_, ins) =>
        var k := 0;
        while k < |ins|
          invariant 0 <= k <= |ins| && Valid() && path == old(path) && current == old(current)
          invariant forall m, y :: 0 <= m < k && y in SelectedBy(ins[m].from) ==> Acyclic(get, y)
        {
          ok := TraverseExpr(ins[k].from);
          if !ok { return; }
          k := k + 1;
        }
        return true;
    }

    method Push(x: Set)
      requires Valid() && x in universe && x !in current && IsPath(get, path + [x])
      modifies this`current, this`path
      ensures Valid() && path == old(path) + [x] && current == old(current) + {x}
    {
      current := current + {x};
      path := path + [x];
      assert forall i :: 0 <= i < |path| - 1 ==> path[i] in old(path);
    }

    method Pop(x: Set)
      requires Valid() && path != [] && path[|path| - 1] == x
      modifies this`current, this`path
      ensures Valid() && path == old(path)[..|old(path)| - 1] && current == old(current) - {x}
    {
      ghost var before := path;
      path := path[..|path| - 1];
      current := current - {x};
      assert before == path + [x];
      assert x !in path by { assert forall i :: 0 <= i < |path| ==> before[i] == path[i] != before[|before| - 1]; }
      forall i | 0 <= i < |path| - 1 ensures Edge(get, path[i], path[i + 1]) {
        assert Edge(get, before[i], before[i + 1]);
      }
    }

    lemma RepeatHere(x: Set)
      requires Valid() && x in current && IsPath(get, path + [x])
      ensures CycleBeyond(get, path, path + [x])
    {
      var p := path + [x];
      var i :| 0 <= i < |path| && path[i] == x;
      assert p[i] == p[|path|];
    }

    /** Every root is traversed; a false verdict calls for an error, but by then the stack has been
        unwound and the check that would report it finds it empty, so none is ever returned. */
    method DetectCycles(roots: seq<Expr>) returns (err: Option<seq<Set>>, verdicts: seq<bool>)
      requires Valid() && path == []
      requires forall i :: 0 <= i < |roots| ==> SelectedBy(roots[i]) <= universe
      modifies this
      ensures |verdicts| == |roots|
      ensures forall i :: 0 <= i < |roots| ==> (verdicts[i] <==> RootAcyclic(get, roots[i]))
      ensures err == None
    {
      verdicts := [];
      var i := 0;
      while i < |roots|
        invariant 0 <= i <= |roots| && Valid() && path == [] && |verdicts| == i
        invariant forall k :: 0 <= k < i ==> (verdicts[k] <==> RootAcyclic(get, roots[k]))
      {
        var ok := TraverseExpr(roots[i]);
        if !ok {
          ghost var p :| CycleBeyond(get, [], p) && p[0] in SelectedBy(roots[i]);
          assert WalksIntoCycle(get, p[0], p);
          if |path| != 0 { return Some(path), verdicts; }
        }
        verdicts := verdicts + [ok];
        i := i + 1;
      }
      err := if |path| != 0 then Some(path) else None;
    }
  }

  /** No cycle is reachable from any selection of a root. */
  ghost predicate RootAcyclic(get: Lookup, root: Expr) {
    forall y :: y in SelectedBy(root) ==> Acyclic(get, y)
  }

  lemma AllEntriesAcyclic(get: Lookup, x: Set)
    requires forall k, y :: 0 <= k < |get(x)| && y in SelectedBy(get(x)[k].value) ==> Acyclic(get, y)
    ensures Acyclic(get, x)
  {
    hide Acyclic;
    AcyclicFromSuccessors(get, x);
  }

  lemma ShorterStack(get: Lookup, stack: seq<Set>, x: Set, p: seq<Set>)
    requires CycleBeyond(get, stack + [x], p)
    ensures CycleBeyond(get, stack, p) && p[|stack|] == x
  {
    assert p[..|stack|] == p[..|stack| + 1][..|stack|];
  }

  // ----- lowering -----

  /** Everything lowering asks of its surroundings: the hash, posted blobs, the written form of path sets,
      the module being compiled and its files, and selections answered from source files alone. */
  datatype LowerCtx = LowerCtx(
    hasher: Hasher,
    postBlob: string -> Ref,
    json: PathSets.PathSet -> string,
    moduleID: string,
    get: Lookup,
    ground: (string, Set) -> Option<Ref>)

  /** The last one is a panic: the universe and the empty set have no configuration form. */
  datatype LowerError = MissingModule(modID: string) | NoGround(modID: string) | Inexpressible

  datatype LowerResult = Lowered(e: Expr) | LowerFailed(error: LowerError)

  function PlaceAt(ctx: LowerCtx, e: Expr, p: string): Expr {
    if p == "" then e
    else Compute("glfs.place", [Input("x", e, 0), Input("path", Value(ctx.postBlob(p)), 0)])
  }

  function FilterExpr(ctx: LowerCtx, e: Expr, paths: Set): Expr
    requires PathSets.Expressible(paths)
  {
    var q := PathSets.ToPathSet(paths);
    Compute("glfs.filterPathSet", [Input("x", e, 0), Input("filter", Value(ctx.postBlob(ctx.json(q))), 0)])
  }

  /** Layers are numbered by eight hexadecimal digits. */
  function LayerName(i: nat): string {
    DagStore.Hex(i, 8)
  }

  const LAYER_MODE := 0x1ff

  /** What a derived selection stands for: the entries it finds, each placed and filtered, merged. */
  function Query(ctx: LowerCtx, paths: Set): Expr
    requires PathSets.Expressible(paths)
  {
    var ents := ctx.get(paths);
    Compute("glfs.merge",
            seq(|ents|, i requires 0 <= i < |ents| =>
              Input(LayerName(i), FilterExpr(ctx, PlaceAt(ctx, ents[i].value, ents[i].placeAt), paths), LAYER_MODE)))
  }

  /** One step of lowering a selection. */
  function Answer(ctx: LowerCtx, e: Expr): LowerResult
    requires e.Selection?
  {
    if e.modID != ctx.moduleID then LowerFailed(MissingModule(e.modID))
    else if e.derived then
      if PathSets.Expressible(e.paths) then Lowered(Query(ctx, e.paths)) else LowerFailed(Inexpressible)
    else
      match ctx.ground(e.modID, e.paths)
      case None => LowerFailed(NoGround(e.modID))
      case Some(ref) => Lowered(Value(ref))
  }

  lemma SelectedByPair(e: Expr, op: string, to: string, to': string, ref: Ref)
    ensures SelectedBy(Compute(op, [Input(to, e, 0), Input(to', Value(ref), 0)])) == SelectedBy(e)
  {
    var ins := [Input(to, e, 0), Input(to', Value(ref), 0)];
    assert ins[0].from == e && ins[1].from == Value(ref);
  }

  /** A query selects only successors of its path set. */
  lemma QuerySelects(ctx: LowerCtx, paths: Set, y: Set)
    requires PathSets.Expressible(paths) && y in SelectedBy(Query(ctx, paths))
    ensures Edge(ctx.get, paths, y)
  {
    var ents, ins := ctx.get(paths), Query(ctx, paths).inputs;
    var i :| 0 <= i < |ins| && y in SelectedBy(ins[i].from);
    var placed := PlaceAt(ctx, ents[i].value, ents[i].placeAt);
    assert ins[i].from == FilterExpr(ctx, placed, paths);
    SelectedByPair(placed, "glfs.filterPathSet", "x", "filter", ctx.postBlob(ctx.json(PathSets.ToPathSet(paths))));
    SelectedByPair(ents[i].value, "glfs.place", "x", "path", ctx.postBlob(ents[i].placeAt));
    assert y in SelectedBy(ents[i].value);
  }

  /** r is e with every selection replaced by what it stands for, all the way down. */
  ghost predicate ExpandsTo(ctx: LowerCtx, e: Expr, r: Expr, depth: nat)
    decreases depth
  {
    depth > 0 &&
    match e
    case Value(_) => r == e
    case Compute(op, ins) =>
      && r.Compute? && r.op == op && |r.inputs| == |ins|
      && forall k :: 0 <= k < |ins| ==>
           && r.inputs[k].to == ins[k].to && r.inputs[k].mode == ins[k].mode
           && ExpandsTo(ctx, ins[k].from, r.inputs[k].from, depth - 1)
    case Selection(_, _, _) =>
      Answer(ctx, e).Lowered? && ExpandsTo(ctx, Answer(ctx, e).e, r, depth - 1)
  }

  ghost predicate Expansion(ctx: LowerCtx, e: Expr, r: Expr) {
    exists depth :: ExpandsTo(ctx, e, r, depth)
  }

  ghost predicate Expandable(ctx: LowerCtx, e: Expr) {
    exists r :: Expansion(ctx, e, r)
  }

  /** The error is what some selection was answered with. */
  ghost predicate ErrorOf(ctx: LowerCtx, error: LowerError) {
    exists s: Expr :: s.Selection? && Answer(ctx, s) == LowerFailed(error)
  }

  /** What the errors stand for: another module, a module without files, or a set without a configuration
      form. */
  lemma ErrorMeans(ctx: LowerCtx, error: LowerError)
    requires ErrorOf(ctx, error)
    ensures error.MissingModule? ==> error.modID != ctx.moduleID
    ensures error.NoGround? ==> error.modID == ctx.moduleID && exists paths :: ctx.ground(ctx.moduleID, paths) == None
    ensures error.Inexpressible? ==> exists paths :: !PathSets.Expressible(paths)
  {}

  /** Only selections of the module being compiled can be expanded. */
  lemma OnlyThisModule(ctx: LowerCtx, m: string, derived: bool, paths: Set)
    requires Expandable(ctx, Selection(m, derived, paths))
    ensures m == ctx.moduleID && (derived ==> PathSets.Expressible(paths)) && (!derived ==> ctx.ground(m, paths).Some?)
  {
    var sel := Selection(m, derived, paths);
    var r, d: nat :| ExpandsTo(ctx, sel, r, d);
  }

  /** Without an answer, or one that can be expanded, a selection cannot be expanded. */
  lemma NoAnswer(ctx: LowerCtx, e: Expr)
    requires e.Selection? && (Answer(ctx, e).Lowered? ==> !Expandable(ctx, Answer(ctx, e).e))
    ensures !Expandable(ctx, e)
  {
    forall r, d: nat ensures !ExpandsTo(ctx, e, r, d) {
      if ExpandsTo(ctx, e, r, d) { assert ExpandsTo(ctx, Answer(ctx, e).e, r, d - 1) && Expansion(ctx, Answer(ctx, e).e, r); }
    }
  }

  lemma NoInput(ctx: LowerCtx, e: Expr, k: nat)
    requires e.Compute? && k < |e.inputs| && !Expandable(ctx, e.inputs[k].from)
    ensures !Expandable(ctx, e)
  {
    forall r, d: nat ensures !ExpandsTo(ctx, e, r, d) {
      if ExpandsTo(ctx, e, r, d) { assert ExpandsTo(ctx, e.inputs[k].from, r.inputs[k].from, d - 1) && Expansion(ctx, e.inputs[k].from, r.inputs[k].from); }
    }
  }

  lemma {:induction false} ExpandsDeeper(ctx: LowerCtx, e: Expr, r: Expr, d: nat, d': nat)
    requires ExpandsTo(ctx, e, r, d) && d <= d'
    ensures ExpandsTo(ctx, e, r, d')
    decreases d
  {
    match e
    case Value(_) =>
    case Compute(_, ins) =>
      forall k | 0 <= k < |ins| ensures ExpandsTo(ctx, ins[k].from, r.inputs[k].from, d' - 1) {
        ExpandsDeeper(ctx, ins[k].from, r.inputs[k].from, d - 1, d' - 1);
      }
    case Selection(_, _, _) => ExpandsDeeper(ctx, Answer(ctx, e).e, r, d - 1, d' - 1);
  }

  /** An expression has at most one expansion. */
  lemma {:induction false} ExpansionUnique(ctx: LowerCtx, e: Expr, r: Expr, r': Expr, d: nat)
    requires ExpandsTo(ctx, e, r, d) && ExpandsTo(ctx, e, r', d)
    ensures r == r'
    decreases d
  {
    match e
    case Value(_) =>
    case Compute(_, ins) =>
      forall k | 0 <= k < |ins| ensures r.inputs[k] == r'.inputs[k] {
        ExpansionUnique(ctx, ins[k].from, r.inputs[k].from, r'.inputs[k].from, d - 1);
      }
      assert r.inputs == r'.inputs;
    case Selection(_, _, _) => ExpansionUnique(ctx, Answer(ctx, e).e, r, r', d - 1);
  }

  lemma OnlyExpansion(ctx: LowerCtx, e: Expr, r: Expr, r': Expr)
    requires Expansion(ctx, e, r) && Expansion(ctx, e, r')
    ensures r == r'
  {
    hide ExpandsTo;
    var d: nat :| ExpandsTo(ctx, e, r, d);
    var d': nat :| ExpandsTo(ctx, e, r', d');
    var deep := if d < d' then d' else d;
    ExpandsDeeper(ctx, e, r, d, deep);
    ExpandsDeeper(ctx, e, r', d', deep);
    ExpansionUnique(ctx, e, r, r', deep);
  }

  lemma ExpandInputs(ctx: LowerCtx, e: Expr, r: Expr, n: nat) returns (depth: nat)
    requires e.Compute? && r.Compute? && n <= |e.inputs| == |r.inputs|
    requires forall k :: 0 <= k < n ==> Expansion(ctx, e.inputs[k].from, r.inputs[k].from)
    ensures forall k :: 0 <= k < n ==> ExpandsTo(ctx, e.inputs[k].from, r.inputs[k].from, depth)
  {
    depth := 0;
    for m := 0 to n
      invariant forall k :: 0 <= k < m ==> ExpandsTo(ctx, e.inputs[k].from, r.inputs[k].from, depth)
    {
      assert Expansion(ctx, e.inputs[m].from, r.inputs[m].from);
      var d: nat :| ExpandsTo(ctx, e.inputs[m].from, r.inputs[m].from, d);
      var bigger := if d < depth then depth else d;
      forall k | 0 <= k <= m ensures ExpandsTo(ctx, e.inputs[k].from, r.inputs[k].from, bigger) {
        ExpandsDeeper(ctx, e.inputs[k].from, r.inputs[k].from, if k < m then depth else d, bigger);
      }
      depth := bigger;
    }
  }

  /** Selections of one path set share a key whatever their module and kind. */
  lemma SelectionKeysClash(h: Hasher, paths: Set, m: string, m': string)
    ensures Key(h, Selection(m, true, paths)) == Key(h, Selection(m', false, paths))
  {}

  /** Yet a ground and a derived selection never have a common expansion: one is a value, the other a
      merge. */
  lemma GroundAndDerivedDiffer(ctx: LowerCtx, m: string, m': string, paths: Set, r: Expr)
    requires Expansion(ctx, Selection(m, false, paths), r)
    ensures r.Value? && !Expansion(ctx, Selection(m', true, paths), r)
  {
    var ground, derived := Selection(m, false, paths), Selection(m', true, paths);
    var d: nat :| ExpandsTo(ctx, ground, r, d);
    assert ExpandsTo(ctx, Answer(ctx, ground).e, r, d - 1);
    forall d': nat ensures !ExpandsTo(ctx, derived, r, d') {
      if d' > 0 && Answer(ctx, derived).Lowered? {
        assert Answer(ctx, derived).e.Compute?;
        assert !ExpandsTo(ctx, Answer(ctx, derived).e, r, d' - 1);
      }
    }
  }

  /** Expressions in play that share a key share their expansions: all that the cache needs. */
  ghost predicate KeysAgree(ctx: LowerCtx, exprs: iset<Expr>) {
    forall a, b, r :: a in exprs && b in exprs && Key(ctx.hasher, a) == Key(ctx.hasher, b) && Expansion(ctx, a, r) ==>
      Expansion(ctx, b, r)
  }

  /** The path sets being expanded, outermost first, and what may come next. */
  ghost predicate Expanding(get: Lookup, universe: set<Set>, chain: seq<Set>, e: Expr) {
    && ClosedUnder(get, universe) && SelectedBy(e) <= universe
    && (forall x :: x in chain ==> x in universe)
    && (chain != [] ==> Acyclic(get, chain[0]))
    && (chain == [] ==> RootAcyclic(get, e))
    && forall y :: y in SelectedBy(e) ==> IsPath(get, chain + [y])
  }

  ghost function Elements(chain: seq<Set>): set<Set> {
    set x | x in chain
  }

  /** In an acyclic graph no path set is expanded inside its own expansion. */
  lemma NotExpandingAlready(get: Lookup, universe: set<Set>, chain: seq<Set>, e: Expr, x: Set)
    requires Expanding(get, universe, chain, e) && x in SelectedBy(e)
    ensures x !in chain
  {
    var p := chain + [x];
    if x in chain {
      var i :| 0 <= i < |chain| && chain[i] == x;
      assert p[i] == p[|chain|];
      assert WalksIntoCycle(get, chain[0], p);
      assert false;
    }
  }

  lemma ExpandAnswer(ctx: LowerCtx, universe: set<Set>, chain: seq<Set>, e: Expr)
    requires e.Selection? && Expanding(ctx.get, universe, chain, e) && Answer(ctx, e).Lowered?
    ensures Expanding(ctx.get, universe, chain + [e.paths], Answer(ctx, e).e)
  {
    var x, next, longer := e.paths, Answer(ctx, e).e, chain + [e.paths];
    forall y | y in SelectedBy(next) ensures y in universe && IsPath(ctx.get, longer + [y]) {
      QuerySelects(ctx, x, y);
      assert IsPath(ctx.get, longer);
      PathExtends(ctx.get, longer, y);
    }
  }

  /** The lowering pass with its cache. */
  class Lowerer {
    const ctx: LowerCtx
    ghost const universe: set<Set>
    ghost var exprs: iset<Expr>
    var cache: map<string, Expr>
    /** The expression each cache entry was made for. */
    ghost var origin: map<string, Expr>

    ghost predicate Valid()
      reads this
    {
      && cache.Keys == origin.Keys
      && (forall k :: k in cache ==> Key(ctx.hasher, origin[k]) == k && origin[k] in exprs)
      && forall k :: k in cache ==> LoweredOk(ctx, exprs, origin[k], cache[k])
    }

    constructor (ctx: LowerCtx, ghost universe: set<Set>, ghost exprs: iset<Expr>)
      ensures Valid() && this.ctx == ctx && this.universe == universe && this.exprs == exprs && cache == map[]
    {
      this.ctx := ctx;
      this.universe := universe;
      this.exprs := exprs;
      cache := map[];
      origin := map[];
    }

    /** More expressions come into play: what is promised of cached ones only gets weaker. */
    ghost method Widen(more: iset<Expr>)
      requires Valid() && exprs <= more
      modifies this`exprs
      ensures Valid() && exprs == more
    {
      hide Key, ExpandsTo, Expansion;
      exprs := more;
    }

    /** Terminates on an acyclic selection graph; what it returns contains no selection, and is the
        expansion of the expression when expressions in play that share a key share it.  A cached
        answer is given again and never replaced, and every success is cached. */
    method ReplaceSelections(e: Expr, ghost chain: seq<Set>) returns (r: LowerResult)
      requires Valid() && Expanding(ctx.get, universe, chain, e) && e in exprs && InPlay(ctx, exprs)
      modifies this`cache, this`origin
      ensures Valid() && (r.Lowered? ==> LoweredOk(ctx, exprs, e, r.e))
      ensures Extends(old(cache), cache)
      ensures Key(ctx.hasher, e) in old(cache) ==> r == Lowered(old(cache)[Key(ctx.hasher, e)])
      ensures r.Lowered? ==> Key(ctx.hasher, e) in cache && cache[Key(ctx.hasher, e)] == r.e
      ensures r.LowerFailed? ==> !Expandable(ctx, e) && ErrorOf(ctx, r.error)
      decreases universe - Elements(chain), e
    {
      hide Expanding, InPlay, Key, LoweredOk, Valid, Elements, ExpandsTo, SelectionFree, Expandable;
      var key := Key(ctx.hasher, e);
      if key in cache {
        HitIsOk(e);
        return Lowered(cache[key]);
      }
      match e {
        case Value(_) =>
          ValueLowered(ctx, exprs, e);
          r := Lowered(e);
        case Compute(op, ins) =>
          r := ReplaceInputs(e, chain);
        case Selection(_, _, paths) =>
          r := Answer(ctx, e);
          if r.LowerFailed? {
            NoAnswer(ctx, e);
            return;
          }
          ChainShrinks(ctx.get, universe, chain, e);
          ExpandAnswer(ctx, universe, chain, e);
          StaysInPlay(ctx, exprs, e);
          r := ReplaceSelections(r.e, chain + [paths]);
          if r.Lowered? { AnswerLowered(ctx, exprs, e, r.e); } else { NoAnswer(ctx, e); }
      }
      if r.Lowered? { Remember(key, e, r.e); }
    }

    /** The inputs of a computation, in order, stopping at the first failure. */
    method ReplaceInputs(e: Expr, ghost chain: seq<Set>) returns (r: LowerResult)
      requires Valid() && Expanding(ctx.get, universe, chain, e) && e in exprs && InPlay(ctx, exprs) && e.Compute?
      modifies this`cache, this`origin
      ensures Valid() && (r.Lowered? ==> LoweredOk(ctx, exprs, e, r.e))
      ensures Extends(old(cache), cache)
      ensures r.LowerFailed? ==> !Expandable(ctx, e) && ErrorOf(ctx, r.error)
      decreases universe - Elements(chain), e, 0
    {
      hide Expanding, InPlay, Key, LoweredOk, Valid, Elements, ExpandsTo, SelectionFree, Expandable;
      var ins := e.inputs;
      var out: seq<Input> := [];
      var k := 0;
      while k < |ins|
        invariant 0 <= k == |out| <= |ins| && Valid() && Extends(old(cache), cache)
        invariant forall m :: 0 <= m < k ==>
                    out[m].to == ins[m].to && out[m].mode == ins[m].mode && LoweredOk(ctx, exprs, ins[m].from, out[m].from)
      {
        InputExpanding(ctx.get, universe, chain, e, k);
        StaysInPlay(ctx, exprs, e);
        var lowered := ReplaceSelections(ins[k].from, chain);
        if lowered.LowerFailed? {
          NoInput(ctx, e, k);
          return lowered;
        }
        out := out + [Input(ins[k].to, lowered.e, ins[k].mode)];
        k := k + 1;
      }
      r := Lowered(Compute(e.op, out));
      InputsLowered(ctx, exprs, e, r.e);
    }

    method Remember(key: string, e: Expr, r: Expr)
      requires Valid() && e in exprs && key == Key(ctx.hasher, e) && LoweredOk(ctx, exprs, e, r)
      modifies this`cache, this`origin
      ensures Valid() && cache == old(cache)[key := r]
    {
      hide Key, LoweredOk;
      cache := cache[key := r];
      origin := origin[key := e];
    }

    lemma HitIsOk(e: Expr)
      requires Valid() && e in exprs && Key(ctx.hasher, e) in cache
      ensures LoweredOk(ctx, exprs, e, cache[Key(ctx.hasher, e)])
    {
      hide Key, ExpandsTo;
      var k := Key(ctx.hasher, e);
      assert LoweredOk(ctx, exprs, origin[k], cache[k]);
    }
  }

  /** Every entry of the one is an entry of the other. */
  predicate Extends(before: map<string, Expr>, after: map<string, Expr>) {
    forall k :: k in before ==> k in after && after[k] == before[k]
  }

  /** What a lowered expression satisfies. */
  ghost predicate LoweredOk(ctx: LowerCtx, exprs: iset<Expr>, e: Expr, r: Expr) {
    SelectionFree(r) && (KeysAgree(ctx, exprs) ==> Expansion(ctx, e, r))
  }

  lemma ValueLowered(ctx: LowerCtx, exprs: iset<Expr>, e: Expr)
    requires e.Value?
    ensures LoweredOk(ctx, exprs, e, e)
  {
    assert ExpandsTo(ctx, e, e, 1);
  }

  lemma AnswerLowered(ctx: LowerCtx, exprs: iset<Expr>, e: Expr, r: Expr)
    requires e.Selection? && Answer(ctx, e).Lowered? && LoweredOk(ctx, exprs, Answer(ctx, e).e, r)
    ensures LoweredOk(ctx, exprs, e, r)
  {
    if KeysAgree(ctx, exprs) {
      var d: nat :| ExpandsTo(ctx, Answer(ctx, e).e, r, d);
      assert ExpandsTo(ctx, e, r, d + 1);
    }
  }

  lemma InputsLowered(ctx: LowerCtx, exprs: iset<Expr>, e: Expr, r: Expr)
    requires e.Compute? && r.Compute? && r.op == e.op && |r.inputs| == |e.inputs|
    requires forall m :: 0 <= m < |e.inputs| ==>
               r.inputs[m].to == e.inputs[m].to && r.inputs[m].mode == e.inputs[m].mode &&
               LoweredOk(ctx, exprs, e.inputs[m].from, r.inputs[m].from)
    ensures LoweredOk(ctx, exprs, e, r)
  {
    if KeysAgree(ctx, exprs) {
      forall m | 0 <= m < |e.inputs| ensures Expansion(ctx, e.inputs[m].from, r.inputs[m].from) {
        assert LoweredOk(ctx, exprs, e.inputs[m].from, r.inputs[m].from);
      }
      var d := ExpandInputs(ctx, e, r, |e.inputs|);
      assert ExpandsTo(ctx, e, r, d + 1);
    }
  }

  lemma StaysInPlay(ctx: LowerCtx, exprs: iset<Expr>, e: Expr)
    requires InPlay(ctx, exprs) && e in exprs
    ensures e.Compute? ==> forall k :: 0 <= k < |e.inputs| ==> e.inputs[k].from in exprs
    ensures e.Selection? && Answer(ctx, e).Lowered? ==> Answer(ctx, e).e in exprs
  {}

  /** Expanding one more path set leaves fewer that are not being expanded. */
  lemma ChainShrinks(get: Lookup, universe: set<Set>, chain: seq<Set>, e: Expr)
    requires e.Selection? && Expanding(get, universe, chain, e)
    ensures universe - Elements(chain + [e.paths]) < universe - Elements(chain)
  {
    NotExpandingAlready(get, universe, chain, e, e.paths);
    assert e.paths in universe - Elements(chain) && e.paths !in universe - Elements(chain + [e.paths]);
  }

  /** Lowers every root in place; a failure leaves the remaining roots as they were.  The graph
      builder, which panics on selections, can take every root of a successful run. */
  method LowerSelections(ctx: LowerCtx, ghost universe: set<Set>, ghost exprs: iset<Expr>, roots: array<Expr>)
      returns (err: Option<LowerError>)
    requires ClosedUnder(ctx.get, universe) && InPlay(ctx, exprs)
    requires forall i :: 0 <= i < roots.Length ==> roots[i] in exprs && SelectedBy(roots[i]) <= universe
    requires forall i :: 0 <= i < roots.Length ==> RootAcyclic(ctx.get, roots[i])
    modifies roots
    ensures err.None? ==> forall i :: 0 <= i < roots.Length ==> LoweredOk(ctx, exprs, old(roots[i]), roots[i])
    ensures err.Some? ==>
      ErrorOf(ctx, err.value) &&
      exists n :: 0 <= n < roots.Length && roots[n..] == old(roots[n..]) && !Expandable(ctx, roots[n]) &&
        forall i :: 0 <= i < n ==> LoweredOk(ctx, exprs, old(roots[i]), roots[i])
  {
    hide LoweredOk, Expanding, RootAcyclic, ClosedUnder, InPlay, SelectedBy, Lowerer.Valid, Expandable;
    var lowerer := new Lowerer(ctx, universe, exprs);
    var i := 0;
    while i < roots.Length
      invariant 0 <= i <= roots.Length && fresh(lowerer) && lowerer.Valid() && lowerer.exprs == exprs
      invariant roots[i..] == old(roots[i..])
      invariant forall k :: 0 <= k < i ==> LoweredOk(ctx, exprs, old(roots[k]), roots[k])
    {
      assert roots[i] == old(roots[i]) by { assert roots[i] == roots[i..][0] == old(roots[i..])[0]; }
      RootExpanding(ctx.get, universe, roots[i]);
      var r := lowerer.ReplaceSelections(roots[i], []);
      if r.LowerFailed? { return Some(r.error); }
      assert roots[i + 1..] == roots[i..][1..] && old(roots[i + 1..]) == old(roots[i..])[1..];
      roots[i] := r.e;
      i := i + 1;
    }
    return None;
  }

  lemma RootExpanding(get: Lookup, universe: set<Set>, root: Expr)
    requires ClosedUnder(get, universe) && SelectedBy(root) <= universe && RootAcyclic(get, root)
    ensures Expanding(get, universe, [], root)
  {}

  /** Expressions in play include the inputs and answers of expressions in play. */
  ghost predicate InPlay(ctx: LowerCtx, exprs: iset<Expr>) {
    && (forall e, k :: e in exprs && e.Compute? && 0 <= k < |e.inputs| ==> e.inputs[k].from in exprs)
    && (forall e :: e in exprs && e.Selection? && Answer(ctx, e).Lowered? ==> Answer(ctx, e).e in exprs)
  }

  lemma InputExpanding(get: Lookup, universe: set<Set>, chain: seq<Set>, e: Expr, k: nat)
    requires e.Compute? && k < |e.inputs| && Expanding(get, universe, chain, e)
    ensures Expanding(get, universe, chain, e.inputs[k].from)
  {
    assert forall y :: y in SelectedBy(e.inputs[k].from) ==> y in SelectedBy(e);
  }

  // ----- what the cache confuses -----

  /** The two expressions have a common expansion. */
  ghost predicate ExpansionsCoincide(ctx: LowerCtx, a: Expr, b: Expr) {
    exists r :: Expansion(ctx, a, r) && Expansion(ctx, b, r)
  }

  /** Lowers one expression and then another with the same key.  The second gets the answer of the
      first, which is right exactly if their expansions coincide. */
  method LowerClashing(ctx: LowerCtx, ghost universe: set<Set>, ghost few: iset<Expr>, ghost exprs: iset<Expr>, a: Expr, b: Expr)
      returns (first: LowerResult, second: LowerResult)
    requires Key(ctx.hasher, a) == Key(ctx.hasher, b)
    requires a in few && few <= exprs && InPlay(ctx, few) && KeysAgree(ctx, few)
    requires b in exprs && InPlay(ctx, exprs)
    requires Expanding(ctx.get, universe, [], a) && Expanding(ctx.get, universe, [], b)
    ensures first.Lowered? ==> Expansion(ctx, a, first.e) && second == first
    ensures first.Lowered? ==> (Expansion(ctx, b, second.e) <==> ExpansionsCoincide(ctx, a, b))
    ensures first.Lowered? <==> Expandable(ctx, a)
  {
    hide Expanding, InPlay, Key, KeysAgree, Expansion, SelectionFree, Lowerer.Valid;
    var lowerer := new Lowerer(ctx, universe, few);
    first := lowerer.ReplaceSelections(a, []);
    lowerer.Widen(exprs);
    second := lowerer.ReplaceSelections(b, []);
    if first.Lowered? && ExpansionsCoincide(ctx, a, b) {
      ghost var r :| Expansion(ctx, a, r) && Expansion(ctx, b, r);
      OnlyExpansion(ctx, a, first.e, r);
    }
  }

  /** A ground selection and its answer. */
  ghost function JustGround(ctx: LowerCtx, paths: Set): iset<Expr> {
    var ground := Selection(ctx.moduleID, false, paths);
    match ctx.ground(ctx.moduleID, paths)
    case None => iset{ground}
    case Some(ref) => iset{ground, Value(ref)}
  }

  lemma GroundAlone(ctx: LowerCtx, exprs: iset<Expr>, paths: Set)
    requires InPlay(ctx, exprs) && Selection(ctx.moduleID, false, paths) in exprs
    ensures Selection(ctx.moduleID, false, paths) in JustGround(ctx, paths) && JustGround(ctx, paths) <= exprs
    ensures InPlay(ctx, JustGround(ctx, paths)) && KeysAgree(ctx, JustGround(ctx, paths))
    ensures ctx.ground(ctx.moduleID, paths).Some? <==> Expandable(ctx, Selection(ctx.moduleID, false, paths))
    ensures forall r :: Expansion(ctx, Selection(ctx.moduleID, false, paths), r) ==>
              r.Value? && ctx.ground(ctx.moduleID, paths) == Some(r.ref)
  {
    hide Key;
    var ground := Selection(ctx.moduleID, false, paths);
    var few := JustGround(ctx, paths);
    if ctx.ground(ctx.moduleID, paths).Some? {
      var v := Value(ctx.ground(ctx.moduleID, paths).value);
      forall r ensures Expansion(ctx, ground, r) <==> r == v { GroundExpansion(ctx, ground, v, r); }
      forall r ensures Expansion(ctx, v, r) <==> r == v { ValueExpansion(ctx, v, r); }
      assert Expansion(ctx, ground, v);
      forall e | e in few ensures forall r :: Expansion(ctx, e, r) <==> r == v {}
    } else {
      NoAnswer(ctx, ground);
    }
  }

  lemma ValueExpansion(ctx: LowerCtx, v: Expr, r: Expr)
    requires v.Value?
    ensures Expansion(ctx, v, r) <==> r == v
  {
    assert ExpandsTo(ctx, v, v, 1);
  }

  lemma GroundExpansion(ctx: LowerCtx, ground: Expr, v: Expr, r: Expr)
    requires ground.Selection? && Answer(ctx, ground) == Lowered(v) && v.Value?
    ensures Expansion(ctx, ground, r) <==> r == v
  {
    ValueExpansion(ctx, v, r);
    if d: nat :| ExpandsTo(ctx, ground, r, d) { assert ExpandsTo(ctx, v, r, d - 1); }
    assert ExpandsTo(ctx, ground, v, 2) by { assert ExpandsTo(ctx, v, v, 1); }
  }

  /** Lowering a ground selection and then the derived selection of the same set: whenever the ground
      selection has an answer, the derived one gets it too, and it is never its expansion. */
  method LowerGroundThenDerived(ctx: LowerCtx, ghost universe: set<Set>, ghost exprs: iset<Expr>, paths: Set)
      returns (first: LowerResult, second: LowerResult)
    requires ClosedUnder(ctx.get, universe) && paths in universe && Acyclic(ctx.get, paths) && InPlay(ctx, exprs)
    requires Selection(ctx.moduleID, false, paths) in exprs && Selection(ctx.moduleID, true, paths) in exprs
    ensures first.Lowered? ==> first.e.Value? && ctx.ground(ctx.moduleID, paths) == Some(first.e.ref)
    ensures first.Lowered? ==> second == first && !Expansion(ctx, Selection(ctx.moduleID, true, paths), second.e)
    ensures ctx.ground(ctx.moduleID, paths).Some? ==> first.Lowered?
  {
    var ground, derived := Selection(ctx.moduleID, false, paths), Selection(ctx.moduleID, true, paths);
    ghost var few := JustGround(ctx, paths);
    GroundAlone(ctx, exprs, paths);
    SelectionKeysClash(ctx.hasher, paths, ctx.moduleID, ctx.moduleID);
    RootExpanding(ctx.get, universe, ground);
    RootExpanding(ctx.get, universe, derived);
    first, second := LowerClashing(ctx, universe, few, exprs, ground, derived);
    if first.Lowered? {
      GroundAndDerivedDiffer(ctx, ctx.moduleID, ctx.moduleID, paths, first.e);
    }
  }
}
