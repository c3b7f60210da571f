/** A world that meets everything that is assumed of one: references are identified by what they hold. */
module LawfulWorld {
  import opened Dag
  import opened Exprs
  import opened Meaning
  import opened Files
  import opened NodeList
  import PathSets
  import Paths
  import StoredRun

  // ----- writing things down -----

  function Marks(n: nat): string {
    if n == 0 then "." else "#" + Marks(n - 1)
  }

  /** A string with its length in unary before it. */
  function Field(s: string): string {
    Marks(|s|) + s
  }

  lemma {:induction false} MarksInjective(m: nat, n: nat, a: string, b: string)
    requires Marks(m) + a == Marks(n) + b
    ensures m == n && a == b
    decreases m
  {
    var x, y := Marks(m) + a, Marks(n) + b;
    assert (m == 0) == (x[0] == '.') && (n == 0) == (y[0] == '.');
    assert m > 0 ==> x[1..] == Marks(m - 1) + a;
    assert n > 0 ==> y[1..] == Marks(n - 1) + b;
    if m > 0 {
      MarksInjective(m - 1, n - 1, a, b);
    } else {
      assert x[1..] == a && y[1..] == b;
    }
  }

  lemma FieldInjective(a: string, b: string, c: string, d: string)
    requires Field(a) + c == Field(b) + d
    ensures a == b && c == d
  {
    assert Field(a) + c == Marks(|a|) + (a + c) && Field(b) + d == Marks(|b|) + (b + d);
    MarksInjective(|a|, |b|, a + c, b + d);
    assert (a + c)[..|a|] == a && (b + d)[..|b|] == b;
    assert (a + c)[|a|..] == c && (b + d)[|b|..] == d;
  }

  function Written(r: Ref): string {
    Field(r.cid) + (if r.isTree then "d" else "f") + r.meta
  }

  lemma WrittenInjective(r: Ref, s: Ref)
    requires Written(r) == Written(s)
    ensures r == s
  {
    var a, b := (if r.isTree then "d" else "f") + r.meta, (if s.isTree then "d" else "f") + s.meta;
    assert Written(r) == Field(r.cid) + a && Written(s) == Field(s.cid) + b;
    FieldInjective(r.cid, s.cid, a, b);
    assert (a[0] == 'd') == r.isTree && (b[0] == 'd') == s.isTree;
    assert a[1..] == r.meta && b[1..] == s.meta;
  }

  ghost function Read(s: string): Option<Ref> {
    if exists r :: Written(r) == s then
      var r :| Written(r) == s;
      Some(r)
    else None
  }

  lemma ReadWritten(r: Ref)
    ensures Read(Written(r)) == Some(r)
  {
    hide Written;
    var back := Read(Written(r));
    assert back.Some? && Written(back.value) == Written(r);
    WrittenInjective(r, back.value);
  }

  lemma NothingReadsEmpty()
    ensures Read("") == None
  {
    forall r ensures Written(r) != "" { assert |Marks(|r.cid|)| > 0; }
  }

  /** Files, one after the other in some order. */
  ghost function Listing(f: FileMap): string
    decreases |f|
  {
    if f == map[] then ""
    else
      var p :| p in f;
      var rest := f - {p};
      assert |rest| < |f| by { assert rest.Keys == f.Keys - {p}; assert |rest.Keys| == |f.Keys| - 1; }
      Field(p) + (Field(f[p]) + Listing(rest))
  }

  lemma {:induction false} ListingInjective(f: FileMap, g: FileMap)
    requires Listing(f) == Listing(g)
    ensures f == g
    decreases |f|
  {
    hide Field, Listing;
    if f == map[] || g == map[] {
      ListingEmpty(f);
      ListingEmpty(g);
    } else {
      var p, c := ListingSplit(f);
      var q, d := ListingSplit(g);
      FieldInjective(p, q, Field(f[p]) + c, Field(g[q]) + d);
      FieldInjective(f[p], g[q], c, d);
      var f', g' := f - {p}, g - {q};
      assert f'.Keys == f.Keys - {p} && |f'.Keys| == |f.Keys| - 1;
      ListingInjective(f', g');
      assert f == f'[p := f[p]] && g == g'[q := g[q]];
    }
  }

  lemma ListingEmpty(f: FileMap)
    ensures Listing(f) == "" <==> f == map[]
  {
    if f != map[] {
      var p, c := ListingSplit(f);
      assert |Marks(|p|)| > 0;
    }
  }

  lemma ListingSplit(f: FileMap) returns (p: string, rest: string)
    requires f != map[]
    ensures p in f && rest == Listing(f - {p}) && Listing(f) == Field(p) + (Field(f[p]) + rest)
  {
    hide Field;
    p :| p in f && Listing(f) == Field(p) + (Field(f[p]) + Listing(f - {p}));
    rest := Listing(f - {p});
  }

  ghost function RefTo(f: FileMap): Ref {
    Ref(Listing(f), true, "")
  }

  ghost function FilesIn(r: Ref): FileMap {
    if exists f :: Listing(f) == r.cid then
      var f :| Listing(f) == r.cid;
      f
    else map[]
  }

  lemma FilesBack(f: FileMap)
    ensures FilesIn(RefTo(f)) == f
  {
    hide Listing;
    var g := FilesIn(RefTo(f));
    assert Listing(g) == Listing(f);
    ListingInjective(g, f);
  }

  // ----- merging -----

  lemma {:induction false} LastName(names: set<string>) returns (n: string)
    requires names != {}
    ensures n in names && forall m :: m in names ==> LexLe(m, n)
    decreases |names|
  {
    hide LexLe;
    var x :| x in names;
    var rest := names - {x};
    LexTotal(x, x);
    if rest == {} {
      n := x;
      assert names == {x};
    } else {
      assert |rest| == |names| - 1;
      var y := LastName(rest);
      LexTotal(x, y);
      n := if LexLe(x, y) then y else x;
      forall m | m in names ensures LexLe(m, n) {
        if m != x && n == x { LexTransitive(m, y, x); }
      }
    }
  }

  ghost predicate LastHas(f: FileMap, n: string, p: string) {
    HasEntry(f, n, p) && forall m :: HasEntry(f, m, p) ==> LexLe(m, n)
  }

  lemma SomeLast(f: FileMap, n: string, p: string) returns (last: string)
    requires HasEntry(f, n, p)
    ensures LastHas(f, last, p)
  {
    hide LexLe;
    var starts := set s, i | s in f && 0 <= i <= |s| :: s[..i];
    forall m | HasEntry(f, m, p) ensures m in starts {
      AtStarts(m, p);
      assert At(m, p)[..|m|] == m;
    }
    var names := set m | m in starts && HasEntry(f, m, p);
    assert n in names;
    last := LastName(names);
  }

  lemma OneLast(f: FileMap, p: string, m: string, n: string)
    requires LastHas(f, m, p) && LastHas(f, n, p)
    ensures m == n
  {
    LexTotal(m, n);
  }

  ghost function Entries(f: FileMap): FileMap {
    map p | p in (set s, i | s in f && 0 <= i <= |s| :: s[i..]) && (exists n :: LastHas(f, n, p)) :: LastAt(f, p)
  }

  ghost function LastAt(f: FileMap, p: string): string
    requires exists n :: LastHas(f, n, p)
  {
    var n :| LastHas(f, n, p);
    f[At(n, p)]
  }

  lemma EntriesMerge(f: FileMap)
    ensures LastEntryWins(f, Entries(f))
  {
    hide LexLe, LastAt;
    var g := Entries(f);
    forall p ensures p in g <==> exists n :: HasEntry(f, n, p) {
      if n :| HasEntry(f, n, p) {
        var last := SomeLast(f, n, p);
        SuffixOf(f, n, p);
      }
    }
    forall p, n | HasEntry(f, n, p) && (forall m :: HasEntry(f, m, p) ==> LexLe(m, n)) ensures p in g && g[p] == f[At(n, p)] {
      assert LastHas(f, n, p);
      SuffixOf(f, n, p);
      LastAtIs(f, n, p);
    }
  }

  lemma SuffixOf(f: FileMap, n: string, p: string)
    requires HasEntry(f, n, p)
    ensures p in (set s, i | s in f && 0 <= i <= |s| :: s[i..])
  {
    var s := At(n, p);
    var i := |s| - |p|;
    assert s[i..] == p;
  }

  lemma LastAtIs(f: FileMap, n: string, p: string)
    requires LastHas(f, n, p)
    ensures LastAt(f, p) == f[At(n, p)]
  {
    hide LexLe;
    forall m | LastHas(f, m, p) ensures m == n { OneLast(f, p, m, n); }
  }

  // ----- the world -----

  ghost function Filtered(json: PathSets.PathSet -> string, f: FileMap): Option<FileMap> {
    if exists q :: Sub(f, "filter") == map["" := json(q)] then
      var q :| Sub(f, "filter") == map["" := json(q)];
      Some(Kept(Sub(f, "x"), PathSets.FromPathSet(q)))
    else None
  }

  /** What each operation makes of the files it gets. */
  ghost function Performed(json: PathSets.PathSet -> string, op: string, f: FileMap): Option<FileMap> {
    if op == "glfs.pass" then Some(f)
    else if op == "glfs.place" then
      if "" in Sub(f, "path") then Some(Placed(Sub(f, "path")[""], Sub(f, "x"))) else None
    else if op == "glfs.filterPathSet" then Filtered(json, f)
    else if op == "glfs.merge" then Some(Entries(f))
    else None
  }

  ghost function Executed(json: PathSets.PathSet -> string, op: string, input: string): Result {
    match Read(input)
    case None => Result(1, "", "")
    case Some(i) =>
      match Performed(json, op, FilesIn(i))
      case None => Result(1, "", "")
      case Some(g) => Result(0, Written(RefTo(g)), "")
  }

  ghost function NamesOf(ents: seq<TreeEntry>): (names: seq<string>)
    ensures |names| == |ents| && forall k :: 0 <= k < |ents| ==> names[k] == ents[k].name
  {
    seq(|ents|, k requires 0 <= k < |ents| => ents[k].name)
  }

  ghost function FilesOf(ents: seq<TreeEntry>): (fs: seq<FileMap>)
    ensures |fs| == |ents| && forall k :: 0 <= k < |ents| ==> fs[k] == FilesIn(ents[k].ref)
  {
    seq(|ents|, k requires 0 <= k < |ents| => FilesIn(ents[k].ref))
  }

  ghost function Posted(ents: seq<TreeEntry>): Option<Ref> {
    if DistinctSegments(NamesOf(ents)) then Some(RefTo(TreeOf(NamesOf(ents), FilesOf(ents)))) else None
  }

  ghost function TheWorld(json: PathSets.PathSet -> string): World {
    World((op, input) => Executed(json, op, input), r => Written(r), s => Read(s), ents => Posted(ents), s => RefTo(map["" := s]))
  }

  /** References that are what this world makes of their files. */
  ghost function PlainRefs(): iset<Ref> {
    iset r: Ref | r == RefTo(FilesIn(r))
  }

  ghost function TheEnv(h: Hasher, json: PathSets.PathSet -> string, runs: iset<(string, seq<string>, seq<Ref>)>, texts: iset<string>): Env {
    Env(TheWorld(json), h, s => s, (a, b) => Some(RefTo(FilesIn(a) + FilesIn(b))), json,
        r => FilesIn(r), PlainRefs(), runs, texts)
  }

  ghost predicate Injective(json: PathSets.PathSet -> string) {
    forall q, q' :: json(q) == json(q') ==> q == q'
  }

  lemma PerformedMeans(env: Env, op: string, f: FileMap)
    requires Injective(env.json) && Performed(env.json, op, f).Some?
    ensures OpMeans(env, op, f, Performed(env.json, op, f).value)
  {
    hide Sub, Placed, Kept, Entries, LastEntryWins, EntriesCompatible;
    var g := Performed(env.json, op, f).value;
    if op == "glfs.merge" {
      EntriesMerge(f);
      MergeHas(f, g);
    } else if op == "glfs.filterPathSet" {
      forall q | Sub(f, "filter") == map["" := env.json(q)] ensures g == Kept(Sub(f, "x"), PathSets.FromPathSet(q)) {
        FilteredBy(env.json, f, q);
      }
    }
  }

  lemma MergeHas(f: FileMap, g: FileMap)
    requires LastEntryWins(f, g)
    ensures forall p :: p in g ==> exists n :: HasEntry(f, n, p)
  {}

  lemma FilteredBy(json: PathSets.PathSet -> string, f: FileMap, q: PathSets.PathSet)
    requires Injective(json) && Sub(f, "filter") == map["" := json(q)]
    ensures Filtered(json, f) == Some(Kept(Sub(f, "x"), PathSets.FromPathSet(q)))
  {
    hide Sub, Kept;
    forall q' | Sub(f, "filter") == map["" := json(q')] ensures q' == q {
      assert map["" := json(q)][""] == map["" := json(q')][""];
    }
  }

  /** Running an operation on named references in this world. */
  lemma RunsTo(json: PathSets.PathSet -> string, op: string, names: seq<string>, refs: seq<Ref>)
    requires |names| == |refs|
    ensures
      var w := TheWorld(json);
      var input := InputOf(w, EntryList(names, Somes(refs)));
      RunOp(w, op, names, Somes(refs)) ==
        if op == "" || input.Err? || Performed(json, op, FilesIn(input.value)).None? then None
        else Some(RefTo(Performed(json, op, FilesIn(input.value)).value))
  {
    hide Read, Written, Performed, InputOf, FilesIn, RefTo;
    var w := TheWorld(json);
    var input := InputOf(w, EntryList(names, Somes(refs)));
    if op != "" && input.Ok? {
      ReadWritten(input.value);
      var res := Executed(json, op, Written(input.value));
      assert w.exec(op, w.marshal(input.value)) == res;
      if Performed(json, op, FilesIn(input.value)).Some? {
        ReadWritten(RefTo(Performed(json, op, FilesIn(input.value)).value));
      }
    }
  }

  lemma InputIsTree(json: PathSets.PathSet -> string, names: seq<string>, refs: seq<Ref>)
    requires |names| == |refs| && DistinctSegments(names)
    ensures InputOf(TheWorld(json), EntryList(names, Somes(refs))) ==
            Ok(RefTo(TreeOf(names, FilesOf(EntryList(names, Somes(refs))))))
  {
    hide Read, Written, Performed, FilesIn, RefTo, TreeOf;
    var ents := EntryList(names, Somes(refs));
    assert NamesOf(ents) == names;
    assert |ents| == 1 ==> ents[0].name == names[0] && Paths.Segment(names[0]);
  }

  lemma {:induction false} MergedHere(env: Env, xs: seq<Option<Ref>>)
    requires xs != [] && AllSome(xs) && (forall a, b :: env.combine(a, b) == Some(RefTo(FilesIn(a) + FilesIn(b))))
    requires forall k :: 0 <= k < |xs| ==> xs[k].value == RefTo(FilesIn(xs[k].value))
    ensures Merged(env, xs) == Some(RefTo(Stack(AllFiles(xs))))
    decreases |xs|
  {
    hide RefTo, FilesIn;
    var fs := AllFiles(xs);
    if |xs| == 1 {
      StackNone();
      assert Stack(fs) == Stack(fs[..0]) + fs[0] == fs[0];
    } else {
      MergedHere(env, xs[..|xs| - 1]);
      FilesBack(Stack(AllFiles(xs[..|xs| - 1])));
      assert AllFiles(xs[..|xs| - 1]) == fs[..|fs| - 1];
    }
  }

  ghost function AllFiles(xs: seq<Option<Ref>>): (fs: seq<FileMap>)
    requires AllSome(xs)
    ensures |fs| == |xs| && forall k :: 0 <= k < |xs| ==> fs[k] == FilesIn(xs[k].value)
  {
    seq(|xs|, k requires 0 <= k < |xs| => FilesIn(xs[k].value))
  }

  lemma MergesHere(env: Env, names: seq<string>, xs: seq<Option<Ref>>)
    requires env == TheEnv(env.hasher, env.json, env.runs, env.texts)
    requires xs != [] && |names| == |xs| && OrderedNames(names) && AllSome(xs) && InLayers(env, xs)
    ensures RunOp(env.world, "glfs.merge", names, xs) == Merged(env, xs)
  {
    hide RefTo, FilesIn, TreeOf, Stack, LexLe, Entries, LastEntryWins;
    var refs := seq(|xs|, k requires 0 <= k < |xs| => xs[k].value);
    assert Somes(refs) == xs;
    RunsTo(env.json, "glfs.merge", names, refs);
    InputIsTree(env.json, names, refs);
    var fs := AllFiles(xs);
    assert FilesOf(EntryList(names, xs)) == fs;
    FilesBack(TreeOf(names, fs));
    EntriesMerge(TreeOf(names, fs));
    MergedTreeIsStack(names, fs, Entries(TreeOf(names, fs)));
    MergedHere(env, xs);
  }

  lemma PostsHere(env: Env)
    requires env == TheEnv(env.hasher, env.json, env.runs, env.texts)
    ensures PostsTrees(env)
  {
    hide RefTo, FilesIn, TreeOf, DistinctSegments;
    forall names, refs | |names| == |refs| && DistinctSegments(names)
      ensures env.world.postTree(EntryList(names, Somes(refs))).Some?
      ensures env.files(env.world.postTree(EntryList(names, Somes(refs))).value) == TreeOf(names, HeldBy(env, refs))
    {
      var ents := EntryList(names, Somes(refs));
      assert NamesOf(ents) == names && FilesOf(ents) == HeldBy(env, refs);
      FilesBack(TreeOf(names, FilesOf(ents)));
    }
  }

  lemma OpHere(env: Env, op: string, names: seq<string>, refs: seq<Ref>)
    requires env == TheEnv(env.hasher, env.json, env.runs, env.texts) && Injective(env.json)
    requires |names| == |refs| && RunOp(env.world, op, names, Somes(refs)).Some?
    ensures
      var input := InputOf(env.world, EntryList(names, Somes(refs)));
      input.Ok? && OpMeans(env, op, env.files(input.value), env.files(RunOp(env.world, op, names, Somes(refs)).value))
  {
    hide RefTo, FilesIn, OpMeans, Performed, InputOf, RunOp;
    RunsTo(env.json, op, names, refs);
    var input := InputOf(env.world, EntryList(names, Somes(refs)));
    PerformedMeans(env, op, FilesIn(input.value));
    FilesBack(Performed(env.json, op, FilesIn(input.value)).value);
  }

  lemma OpsHere(env: Env)
    requires env == TheEnv(env.hasher, env.json, env.runs, env.texts) && Injective(env.json)
    ensures OpsMean(env)
  {
    hide TheEnv, OpMeans, InputOf, RunOp;
    forall op, names, refs | |names| == |refs| && RunOp(env.world, op, names, Somes(refs)).Some?
      ensures
        var input := InputOf(env.world, EntryList(names, Somes(refs)));
        input.Ok? && OpMeans(env, op, env.files(input.value), env.files(RunOp(env.world, op, names, Somes(refs)).value))
    {
      OpHere(env, op, names, refs);
    }
  }

  lemma CombinesHere(env: Env)
    requires env == TheEnv(env.hasher, env.json, env.runs, env.texts)
    ensures Combines(env)
  {
    hide RefTo, FilesIn, Compatible;
    forall a, b ensures env.files(env.combine(a, b).value) == env.files(a) + env.files(b) {
      FilesBack(FilesIn(a) + FilesIn(b));
    }
  }

  lemma TextsHere(env: Env)
    requires env == TheEnv(env.hasher, env.json, env.runs, env.texts)
    ensures HoldsTexts(env) && CleansPaths(env)
  {
    hide RefTo, FilesIn;
    forall s ensures env.files(env.world.postBlob(s)) == map["" := s] { FilesBack(map["" := s]); }
  }

  lemma FilesLawHere(env: Env)
    requires env == TheEnv(env.hasher, env.json, env.runs, env.texts) && Injective(env.json)
    ensures FilesLaw(env)
  {
    hide PostsTrees, OpsMean, Combines, HoldsTexts, CleansPaths, TheEnv;
    PostsHere(env);
    OpsHere(env);
    CombinesHere(env);
    TextsHere(env);
  }

  // ----- posting does not depend on the order of entries -----

  lemma TwiceCounted(ys: seq<TreeEntry>, i: nat, j: nat)
    requires i < j < |ys| && ys[i] == ys[j]
    ensures multiset(ys)[ys[i]] >= 2
  {
    assert ys == ys[..j] + [ys[j]] + ys[j + 1..];
    assert ys[i] in ys[..j];
  }

  lemma OnceCounted(xs: seq<TreeEntry>, p: nat)
    requires p < |xs| && forall i :: 0 <= i < |xs| && i != p ==> xs[i] != xs[p]
    ensures multiset(xs)[xs[p]] == 1
  {
    assert xs == xs[..p] + [xs[p]] + xs[p + 1..];
    assert xs[p] !in xs[..p] && xs[p] !in xs[p + 1..];
  }

  lemma DistinctRearranged(xs: seq<TreeEntry>, ys: seq<TreeEntry>)
    requires multiset(xs) == multiset(ys) && DistinctSegments(NamesOf(xs))
    ensures DistinctSegments(NamesOf(ys))
  {
    forall i | 0 <= i < |ys| ensures Paths.Segment(ys[i].name) {
      var p := SameEntry(ys, xs, i);
      assert NamesOf(xs)[p] == ys[i].name;
    }
    forall i, j | 0 <= i < j < |ys| ensures ys[i].name != ys[j].name {
      var p := SameEntry(ys, xs, i);
      var q := SameEntry(ys, xs, j);
      if ys[i].name == ys[j].name {
        assert NamesOf(xs)[p] == NamesOf(xs)[q];
        TwiceCounted(ys, i, j);
        forall m | 0 <= m < |xs| && m != p ensures xs[m] != xs[p] { assert NamesOf(xs)[m] != NamesOf(xs)[p]; }
        OnceCounted(xs, p);
        assert false;
      }
    }
  }

  lemma SameEntry(ys: seq<TreeEntry>, xs: seq<TreeEntry>, i: nat) returns (p: nat)
    requires multiset(xs) == multiset(ys) && i < |ys|
    ensures p < |xs| && xs[p] == ys[i]
  {
    assert ys[i] in multiset(ys);
    assert ys[i] in xs;
    p :| 0 <= p < |xs| && xs[p] == ys[i];
  }

  lemma TreeRearranged(xs: seq<TreeEntry>, ys: seq<TreeEntry>)
    requires multiset(xs) == multiset(ys) && DistinctSegments(NamesOf(xs)) && DistinctSegments(NamesOf(ys))
    ensures TreeOf(NamesOf(xs), FilesOf(xs)) == TreeOf(NamesOf(ys), FilesOf(ys))
  {
    hide FilesIn, At, Stack, TreeOf;
    var f, g := TreeOf(NamesOf(xs), FilesOf(xs)), TreeOf(NamesOf(ys), FilesOf(ys));
    forall s | s in f ensures s in g && g[s] == f[s] { PathRearranged(xs, ys, s); }
    forall s | s in g ensures s in f { PathRearranged(ys, xs, s); }
  }

  lemma PathRearranged(xs: seq<TreeEntry>, ys: seq<TreeEntry>, s: string)
    requires multiset(xs) == multiset(ys) && DistinctSegments(NamesOf(xs)) && DistinctSegments(NamesOf(ys))
    requires s in TreeOf(NamesOf(xs), FilesOf(xs))
    ensures s in TreeOf(NamesOf(ys), FilesOf(ys)) && TreeOf(NamesOf(ys), FilesOf(ys))[s] == TreeOf(NamesOf(xs), FilesOf(xs))[s]
  {
    hide FilesIn, At, Stack, TreeOf;
    var k, q := TreeHas(NamesOf(xs), FilesOf(xs), s);
    var j := SameEntry(xs, ys, k);
    TreeAt(NamesOf(xs), FilesOf(xs), k, q);
    TreeAt(NamesOf(ys), FilesOf(ys), j, q);
  }

  lemma OrderBlindHere(json: PathSets.PathSet -> string)
    ensures StoredRun.OrderBlind(TheWorld(json))
  {
    hide RefTo, TreeOf, DistinctSegments, LexLe, SortBy;
    var w := TheWorld(json);
    forall xs: seq<TreeEntry> ensures w.postTree(SortBy(StoredRun.EntryName, xs)) == w.postTree(xs) {
      var ys := SortBy(StoredRun.EntryName, xs);
      SortBySorts(StoredRun.EntryName, xs);
      if DistinctSegments(NamesOf(xs)) {
        DistinctRearranged(xs, ys);
        TreeRearranged(xs, ys);
      } else if DistinctSegments(NamesOf(ys)) {
        DistinctRearranged(ys, xs);
        assert false;
      }
    }
  }

  /** All assumptions can be met together, whatever operations are run and whatever texts occur, if path sets
      are written down unambiguously. */
  lemma LawfulWorldExists(h: Hasher, json: PathSets.PathSet -> string, runs: iset<(string, seq<string>, seq<Ref>)>, texts: iset<string>)
    requires Injective(json)
    ensures Lawful(TheEnv(h, json, runs, texts)) && StoredRun.OrderBlind(TheEnv(h, json, runs, texts).world)
  {
    hide Read, Written, RefTo, FilesIn, TreeOf, FilesLaw, RunOp, Merged, LexLe, OrderedNames, StoredRun.OrderBlind;
    var env := TheEnv(h, json, runs, texts);
    FilesLawHere(env);
    OrderBlindHere(json);
    forall r ensures Read(Written(r)) == Some(r) { ReadWritten(r); }
    NothingReadsEmpty();
    forall a, b, c ensures Meaning.Join(env, env.combine(a, b), Some(c)) == Meaning.Join(env, Some(a), env.combine(b, c)) {
      FilesBack(FilesIn(a) + FilesIn(b));
      FilesBack(FilesIn(b) + FilesIn(c));
      assert FilesIn(a) + FilesIn(b) + FilesIn(c) == FilesIn(a) + (FilesIn(b) + FilesIn(c));
    }
    forall a, b ensures env.combine(a, b).value in env.layers { FilesBack(FilesIn(a) + FilesIn(b)); }
    forall names, xs | 1 <= |xs| <= MAX_NODE_INPUTS && |names| == |xs| && OrderedNames(names) && AllSome(xs) && InLayers(env, xs)
      ensures RunOp(env.world, "glfs.merge", names, xs) == Merged(env, xs)
    {
      MergesHere(env, names, xs);
    }
  }
}
