/** The stages of the compiler together: the index answers queries, the search for cycles runs on the
    answers, selections are lowered, the graph is built, stored, read back and run. */
module Compilation {
  import opened Dag
  import opened Exprs
  import opened StringSets
  import opened BoundingPrefixes
  import opened Paths
  import opened Vfs
  import opened Selections
  import opened Meaning
  import opened GraphBuilders
  import NodeList
  import StoredRun
  import FileMeaning
  import Simplify

  // ----- the index as a lookup -----

  /** The lookup answers the queries as the index does, in some order, and nothing else. */
  ghost predicate Consults(get: Lookup, stored: set<VFSEntry>, f: Filing, queries: set<Set>) {
    && (forall k :: k in queries ==> AnsweredBy(get(k), stored, f, k))
    && forall k :: k !in queries ==> get(k) == []
  }

  ghost predicate AnsweredBy(ents: seq<VFSEntry>, stored: set<VFSEntry>, f: Filing, k: Set) {
    && NoRepeats(ents)
    && exists depth: nat, c :: StartsAt(f, k, depth, c) && BoundingPrefix(k, depth).Bounded? &&
         forall e :: e in ents <==> e in stored && FiledBelow(e.key, c) && Simplify.Intersects(e.key, k)
  }

  function AsLookup(found: map<Set, seq<VFSEntry>>): Lookup {
    (k: Set) => if k in found then found[k] else []
  }

  /** Asks the index every query. */
  method LookUpAll(v: VFS, queries: set<Set>, depth: nat) returns (get: Lookup)
    requires v.Tidy() && forall k :: k in queries ==> BoundingPrefix(k, depth).Bounded?
    ensures Consults(get, v.stored, v.t.files, queries)
  {
    hide VFS.Tidy, BoundingPrefix, StartsAt, FiledBelow, NoRepeats, Simplify.Intersects, Anchored, Sharp, Distinct, Found;
    TidyValid(v);
    var found: map<Set, seq<VFSEntry>> := map[];
    var pending := queries;
    while pending != {}
      invariant pending <= queries && found.Keys == queries - pending
      invariant forall k :: k in found ==> AnsweredBy(found[k], v.stored, v.t.files, k)
    {
      var k :| k in pending;
      var ents, c := v.Get(k, depth);
      assert AnsweredBy(ents, v.stored, v.t.files, k);
      found := found[k := ents];
      pending := pending - {k};
    }
    get := AsLookup(found);
  }

  lemma TidyValid(v: VFS)
    requires v.Tidy()
    ensures v.Valid()
  {}

  /** Selections in stored entries stay among the queries, so the selection graph is finite. */
  lemma ConsultedClosed(get: Lookup, stored: set<VFSEntry>, f: Filing, queries: set<Set>)
    requires Consults(get, stored, f, queries) && forall e :: e in stored ==> SelectedBy(e.value) <= queries
    ensures ClosedUnder(get, queries)
  {
    hide StartsAt, FiledBelow, NoRepeats, Simplify.Intersects, SelectedBy;
    forall k, i | k in queries && 0 <= i < |get(k)| ensures SelectedBy(get(k)[i].value) <= queries {
      assert AnsweredBy(get(k), stored, f, k);
      assert get(k)[i] in get(k);
    }
  }

  // ----- a cycle that is missed -----

  lemma TwoCycle(get: Lookup, x: Set, y: Set)
    requires Edge(get, x, y) && Edge(get, y, x)
    ensures !Acyclic(get, x)
  {
    var p := [x, y, x];
    assert p[0] == p[2];
    assert WalksIntoCycle(get, x, p);
  }

  /** Keys of places of which neither is above the other meet only if the places are the same. */
  lemma ApartMeetIff(k: Set, p: Place, k': Set, q: Place)
    requires KeyAt(k, p) && KeyAt(k', q) && (p == q || (!Under(p, q) && !Under(q, p)))
    ensures Meet(k, k') <==> p == q
  {
    OverlapIff(k, p, k', q);
  }

  /** Two expression files side by side: the index accepts both, and finds each under its own path. */
  method IndexTwoFiles(p: Place, q: Place, ep: VFSEntry, eq: VFSEntry) returns (fp: seq<VFSEntry>, fq: seq<VFSEntry>)
    requires Paths.IsPath(Segments(p)) && Paths.IsPath(Segments(q)) && !Under(p, q) && !Under(q, p)
    requires ep.key == TreeKey(Segments(p)) && eq.key == TreeKey(Segments(q))
    ensures ep in fp && forall x :: x in fp ==> x == ep
    ensures eq in fq && forall x :: x in fq ==> x == eq
  {
    hide VFS.Tidy, VFS.Valid, KeyAt, Meet, BoundingPrefix, StartsAt, FiledBelow, FiledAt, NoRepeats, Simplify.Intersects, Anchored, Sharp,
      Distinct, Found, Paths.Join, Under, Above;
    KeysOfFile(p);
    KeysOfFile(q);
    var kp, kq := FileKey(Segments(p)), FileKey(Segments(q));
    UnderSelf(p);
    ApartMeetIff(ep.key, p, eq.key, q);
    ApartMeetIff(ep.key, p, kp, p);
    ApartMeetIff(ep.key, p, kq, q);
    ApartMeetIff(eq.key, q, kp, p);
    ApartMeetIff(eq.key, q, kq, q);
    var v := new VFS();
    TidyValid(v);
    ghost var c: Place;
    var r;
    r, c := v.Add(ep, KEY_DEPTH);
    TidyValid(v);
    r, c := v.Add(eq, KEY_DEPTH);
    TidyValid(v);
    assert v.stored == {ep, eq};
    fp, c := v.Get(kp, KEY_DEPTH);
    fq, c := v.Get(kq, KEY_DEPTH);
  }

  lemma KeysOfFile(p: Place)
    requires Paths.IsPath(Segments(p))
    ensures KeyAt(FileKey(Segments(p)), p) && Anchored(FileKey(Segments(p)), KEY_DEPTH, p) && Sharp(FileKey(Segments(p)))
    ensures KeyAt(TreeKey(Segments(p)), p)
    ensures BoundingPrefix(FileKey(Segments(p)), KEY_DEPTH).Bounded? && BoundingPrefix(TreeKey(Segments(p)), KEY_DEPTH).Bounded?
  {
    KeyAnchored(FileKey(Segments(p)), p);
    KeyBounded(FileKey(Segments(p)), p);
    KeyBounded(TreeKey(Segments(p)), p);
  }

  /** Two expression files, each selecting what the other makes: the index accepts both, the verdict of
      the search is false, and no error comes of it. */
  method MissCycle(p: Place, q: Place, modID: string) returns (err: Option<seq<Set>>, verdict: bool)
    requires Paths.IsPath(Segments(p)) && Paths.IsPath(Segments(q)) && !Under(p, q) && !Under(q, p)
    ensures !verdict && err == None
  {
    hide Acyclic, CycleDetector.Valid, Paths.Join, Under;
    var kp, kq := FileKey(Segments(p)), FileKey(Segments(q));
    var ep := VFSEntry(TreeKey(Segments(p)), Selection(modID, true, kq), "");
    var eq := VFSEntry(TreeKey(Segments(q)), Selection(modID, true, kp), "");
    var fp, fq := IndexTwoFiles(p, q, ep, eq);
    FilesDiffer(p, q);
    var get := AsLookup(map[kp := fp, kq := fq]);
    OneSelection(get, kp, ep, fp, kq);
    OneSelection(get, kq, eq, fq, kp);
    TwoCycle(get, kp, kq);
    assert ClosedUnder(get, {kp, kq});
    var root := Selection(modID, true, kp);
    assert kp in SelectedBy(root);
    var detector := new CycleDetector(get, {kp, kq});
    var verdicts;
    err, verdicts := detector.DetectCycles([root]);
    verdict := verdicts[0];
  }

  lemma FilesDiffer(p: Place, q: Place)
    requires Paths.IsPath(Segments(p)) && Paths.IsPath(Segments(q)) && !Under(p, q)
    ensures FileKey(Segments(p)) != FileKey(Segments(q))
  {
    UnderSelf(p);
    if FileKey(Segments(p)) == FileKey(Segments(q)) {
      JoinInjective(Segments(p), Segments(q));
      SegmentsInjective(p, q);
    }
  }

  /** Of a lookup that finds one entry, a selection. */
  lemma OneSelection(get: Lookup, k: Set, e: VFSEntry, ents: seq<VFSEntry>, y: Set)
    requires get(k) == ents && e in ents && (forall x :: x in ents ==> x == e)
    requires e.value.Selection? && e.value.paths == y
    ensures Edge(get, k, y) && forall i :: 0 <= i < |get(k)| ==> SelectedBy(get(k)[i].value) == {y}
  {
    var i :| 0 <= i < |ents| && ents[i] == e;
    assert y in SelectedBy(get(k)[i].value);
    forall j | 0 <= j < |get(k)| ensures SelectedBy(get(k)[j].value) == {y} {
      assert ents[j] in ents;
    }
  }

  // ----- what lowering may come across -----

  ghost predicate LoweringStep(ctx: LowerCtx, x: Expr, y: Expr) {
    || (x.Compute? && exists k :: 0 <= k < |x.inputs| && x.inputs[k].from == y)
    || (x.Selection? && Answer(ctx, x) == Lowered(y))
  }

  ghost predicate ReachedIn(ctx: LowerCtx, e: Expr, x: Expr, steps: nat)
    decreases steps
  {
    if steps == 0 then x == e else exists y :: ReachedIn(ctx, e, y, steps - 1) && LoweringStep(ctx, y, x)
  }

  /** Everything that lowering an expression can come across. */
  ghost function Reached(ctx: LowerCtx, e: Expr): iset<Expr> {
    iset x, steps: nat | ReachedIn(ctx, e, x, steps) :: x
  }

  lemma ReachedInPlay(ctx: LowerCtx, e: Expr)
    ensures e in Reached(ctx, e) && InPlay(ctx, Reached(ctx, e))
  {
    hide Answer;
    assert ReachedIn(ctx, e, e, 0);
    forall x, y | x in Reached(ctx, e) && LoweringStep(ctx, x, y) ensures y in Reached(ctx, e) {
      var steps: nat :| ReachedIn(ctx, e, x, steps);
      assert ReachedIn(ctx, e, y, steps + 1);
    }
    forall x, k | x in Reached(ctx, e) && x.Compute? && 0 <= k < |x.inputs| ensures x.inputs[k].from in Reached(ctx, e) {
      assert LoweringStep(ctx, x, x.inputs[k].from);
    }
    forall x | x in Reached(ctx, e) && x.Selection? && Answer(ctx, x).Lowered? ensures Answer(ctx, x).e in Reached(ctx, e) {
      assert LoweringStep(ctx, x, Answer(ctx, x).e);
    }
  }

  // ----- one target, from the index to the result -----

  /** `Cyclic` stands for a lowering that would not end. */
  datatype BuildResult =
    | Cyclic
    | NotLowered(error: LowerError)
    | TooLarge
    | NotPosted
    | Ran(res: Option<Result>)

  /** Keys do not mislead the compiler, whatever order the index answers in. */
  ghost predicate KeysSuffice(ctx: LowerCtx, stored: set<VFSEntry>, f: Filing, queries: set<Set>, keys: set<Expr>, e: Expr) {
    forall get :: Consults(get, stored, f, queries) ==> KeysSufficeFor(ctx.(get := get), keys, e)
  }

  ghost predicate KeysSufficeFor(ctx: LowerCtx, keys: set<Expr>, e: Expr) {
    KeysAgree(ctx, Reached(ctx, e)) && forall r :: Expansion(ctx, e, r) ==> r in keys
  }

  /** The result of a run, as a reference. */
  function Delivered(w: World, res: Option<Result>): Option<Ref> {
    if res.Some? then RefOf(w, res.value) else None
  }

  /** Detects cycles, lowers, builds the graph, stores it, reads it back and runs it.  It stops early exactly
      on a cycle and exactly on an expression without an expansion; after that only a graph of more than 2^32
      nodes or a zero fact can keep it from running, and neither comes of a small expansion without zero
      references.  The run delivers the placed meaning of the expansion, exactly when that has one. */
  method BuildTarget(env: Env, ctx0: LowerCtx, v: VFS, queries: set<Set>, depth: nat, ghost keys: set<Expr>, e: Expr, place: string)
      returns (r: BuildResult, ctx: LowerCtx, dag: seq<Node>)
    requires v.Tidy() && forall k :: k in queries ==> BoundingPrefix(k, depth).Bounded?
    requires SelectedBy(e) <= queries && forall x :: x in v.stored ==> SelectedBy(x.value) <= queries
    requires Lawful(env) && KeysFaithful(env.hasher, keys) && LayersCovered(env, keys) && StoredRun.OrderBlind(env.world)
    requires KeysSuffice(ctx0, v.stored, v.t.files, queries, keys, e)
    ensures Consults(ctx.get, v.stored, v.t.files, queries) && ctx == ctx0.(get := ctx.get)
    ensures r.Cyclic? <==> !RootAcyclic(ctx.get, e)
    ensures !r.Cyclic? ==> (r.NotLowered? <==> !Expandable(ctx, e))
    ensures r.NotLowered? ==> ErrorOf(ctx, r.error)
    ensures r.TooLarge? ==> |dag| > NodeList.TWO32
    ensures r.NotPosted? ==> exists i :: 0 <= i < |dag| && dag[i].IsFact() && NodeList.IsZero(dag[i].value.value.cid)
    ensures forall x :: RootAcyclic(ctx.get, e) && Expansion(ctx, e, x) ==>
              |dag| <= NodeBound(x) + 2 && (Nonzero(env, x) && NodeBound(x) + 2 <= NodeList.TWO32 ==> r.Ran?)
    ensures forall x :: r.Ran? && Expansion(ctx, e, x) ==>
              Delivered(env.world, r.res) == PlaceRef(env, place, ExprRef(env, x)) &&
              FileMeaning.MovedTo(env, place, ExprRef(env, x), Delivered(env.world, r.res))
  {
    hide VFS.Tidy, BoundingPrefix, Consults, SelectedBy, Lawful, KeysFaithful, LayersCovered, StoredRun.OrderBlind, RootAcyclic, ClosedUnder,
      CycleDetector.Valid, Lowerer.Valid, InPlay, KeysAgree, Reached, Expansion, Expanding, Key, NodeRef, ExprRef, PlaceRef, NewEvaluate,
      SelectionFree, NodeList.IsZero, RefOf, Topological, NodeBound, Nonzero, FileMeaning.MovedTo, NewOk;
    var get := LookUpAll(v, queries, depth);
    ctx := ctx0.(get := get);
    dag := [];
    ConsultedClosed(get, v.stored, v.t.files, queries);
    var detector := new CycleDetector(get, queries);
    var err, verdicts := detector.DetectCycles([e]);
    if !verdicts[0] { return Cyclic, ctx, dag; }
    ReachedInPlay(ctx, e);
    RootExpanding(get, queries, e);
    assert KeysSufficeFor(ctx, keys, e);
    var lowerer := new Lowerer(ctx, queries, Reached(ctx, e));
    var lowered := lowerer.ReplaceSelections(e, []);
    if lowered.LowerFailed? { return NotLowered(lowered.error), ctx, dag; }
    assert Expansion(ctx, e, lowered.e);
    forall x | Expansion(ctx, e, x) ensures x == lowered.e { OnlyExpansion(ctx, e, x, lowered.e); }
    dag := MakeGraph(env, keys, lowered.e, place);
    NoZeroFacts(dag, Nonzero(env, lowered.e));
    if |dag| > NodeList.TWO32 { return TooLarge, ctx, dag; }
    var outcome := StoredRun.RunStored(env, dag, PlaceRef(env, place, ExprRef(env, lowered.e)));
    FileMeaning.PlaceMoves(env, place, ExprRef(env, lowered.e));
    match outcome
    case NotPosted => return NotPosted, ctx, dag;
    case NotRead => assert false;
    case Ran(res) => return Ran(res), ctx, dag;
  }

  lemma NoZeroFacts(dag: seq<Node>, nonzero: bool)
    requires NewOk(dag, 0, nonzero)
    ensures nonzero ==> forall i :: 0 <= i < |dag| && dag[i].IsFact() ==> !NodeList.IsZero(dag[i].value.value.cid)
  {}
}
