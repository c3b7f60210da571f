/** What references hold, as finite maps from paths to data: a blob has its data at the empty path, and a
    tree has each of its blobs at the blob's path. */
module Files {
  import opened StringSets
  import opened NodeList
  import Paths

  type FileMap = map<string, string>

  // ----- paths -----

  /** The path q inside what stands at p. */
  function At(p: string, q: string): string {
    if p == "" then q else if q == "" then p else p + "/" + q
  }

  /** Where s is, seen from p. */
  function From(p: string, s: string): string {
    if p == "" then s else if |s| <= |p| then "" else s[|p| + 1..]
  }

  lemma FromAt(p: string, q: string)
    ensures From(p, At(p, q)) == q
  {
    if p != "" && q != "" { assert (p + "/" + q)[|p| + 1..] == q; }
  }

  lemma AtStarts(m: string, q: string)
    requires m != ""
    ensures |m| <= |At(m, q)| && At(m, q)[..|m|] == m && (|At(m, q)| > |m| ==> At(m, q)[|m|] == '/')
  {}

  /** Different segments lead to different places. */
  lemma SegmentsApart(m: string, n: string, p: string, q: string)
    requires Paths.Segment(m) && Paths.Segment(n) && At(m, p) == At(n, q)
    ensures m == n && p == q
  {
    AtStarts(m, p);
    AtStarts(n, q);
    var s := At(m, p);
    assert forall i :: 0 <= i < |m| ==> m[i] in m && s[..|m|][i] == m[i];
    assert forall i :: 0 <= i < |n| ==> n[i] in n && s[..|n|][i] == n[i];
    assert |m| == |n|;
    FromAt(m, p);
    FromAt(n, q);
  }

  // ----- operations on file maps -----

  /** Everything moved below a path. */
  function Placed(p: string, f: FileMap): (g: FileMap)
    ensures forall s :: s in g <==> exists q :: q in f && At(p, q) == s
    ensures forall q :: q in f ==> At(p, q) in g && g[At(p, q)] == f[q]
  {
    assert forall q :: From(p, At(p, q)) == q by { forall q ensures From(p, At(p, q)) == q { FromAt(p, q); } }
    map s | s in (set q | q in f :: At(p, q)) :: f[From(p, s)]
  }

  /** What is found below a path. */
  function Sub(f: FileMap, p: string): (g: FileMap)
    ensures forall q :: q in g <==> At(p, q) in f
    ensures forall q :: q in g ==> g[q] == f[At(p, q)]
  {
    assert forall q :: From(p, At(p, q)) == q by { forall q ensures From(p, At(p, q)) == q { FromAt(p, q); } }
    map q | q in (set s | s in f && At(p, From(p, s)) == s :: From(p, s)) :: f[At(p, q)]
  }

  /** The files at the paths of a set. */
  function Kept(f: FileMap, paths: Set): FileMap {
    map p | p in f && Contains(paths, p) :: f[p]
  }

  /** Layers on top of each other, the last one uppermost. */
  function Stack(fs: seq<FileMap>): FileMap {
    if fs == [] then map[] else Stack(fs[..|fs| - 1]) + fs[|fs| - 1]
  }

  /** A tree with an entry for each name. */
  function TreeOf(names: seq<string>, fs: seq<FileMap>): FileMap
    requires |names| == |fs|
  {
    Stack(PlacedAll(names, fs))
  }

  function PlacedAll(names: seq<string>, fs: seq<FileMap>): (gs: seq<FileMap>)
    requires |names| == |fs|
    ensures |gs| == |fs| && forall k :: 0 <= k < |fs| ==> gs[k] == Placed(names[k], fs[k])
  {
    seq(|fs|, k requires 0 <= k < |fs| => Placed(names[k], fs[k]))
  }

  // ----- conflicts between files and directories -----

  /** The file q would lie in the directory p. */
  predicate Below(p: string, q: string) {
    (p == "" && q != "") || (p != "" && HasPrefix(q, p + "/"))
  }

  /** No file of one is where the other has a directory. */
  ghost predicate Compatible(f: FileMap, g: FileMap) {
    forall p, q :: p in f && q in g ==> !Below(p, q) && !Below(q, p)
  }

  ghost predicate AllCompatible(fs: seq<FileMap>) {
    forall i, j :: 0 <= i < j < |fs| ==> Compatible(fs[i], fs[j])
  }

  // ----- facts about stacks -----

  lemma StackNone()
    ensures Stack([]) == map[]
  {}

  lemma {:induction false} StackHas(fs: seq<FileMap>, p: string)
    ensures p in Stack(fs) <==> exists k :: 0 <= k < |fs| && p in fs[k]
    decreases |fs|
  {
    if fs != [] {
      var init, last := fs[..|fs| - 1], |fs| - 1;
      StackHas(init, p);
      assert forall k :: 0 <= k < last ==> init[k] == fs[k];
      if p in Stack(fs) {
        if p in fs[last] {
        } else {
          var k :| 0 <= k < |init| && p in init[k];
          assert p in fs[k];
        }
      }
      if k :| 0 <= k < |fs| && p in fs[k] {
        if k < last { assert p in init[k]; }
      }
    }
  }

  /** The last layer that has a path decides. */
  lemma {:induction false} StackAt(fs: seq<FileMap>, p: string, k: nat)
    requires k < |fs| && p in fs[k] && forall j :: k < j < |fs| ==> p !in fs[j]
    ensures p in Stack(fs) && Stack(fs)[p] == fs[k][p]
    decreases |fs|
  {
    var init := fs[..|fs| - 1];
    if k < |init| {
      assert forall j :: k < j < |init| ==> init[j] == fs[j];
      StackAt(init, p, k);
    }
  }

  lemma {:induction false} LastWith(fs: seq<FileMap>, p: string) returns (k: nat)
    requires exists i :: 0 <= i < |fs| && p in fs[i]
    ensures k < |fs| && p in fs[k] && forall j :: k < j < |fs| ==> p !in fs[j]
    decreases |fs|
  {
    var last := |fs| - 1;
    if p in fs[last] {
      k := last;
    } else {
      var i :| 0 <= i < |fs| && p in fs[i];
      assert p in fs[..last][i];
      k := LastWith(fs[..last], p);
      assert forall j :: k < j < last ==> fs[..last][j] == fs[j];
    }
  }

  predicate DistinctSegments(names: seq<string>) {
    (forall k :: 0 <= k < |names| ==> Paths.Segment(names[k])) &&
    forall i, j :: 0 <= i < j < |names| ==> names[i] != names[j]
  }

  /** In a tree each name leads to what was put there. */
  lemma TreeSub(names: seq<string>, fs: seq<FileMap>, k: nat)
    requires |names| == |fs| && DistinctSegments(names) && k < |names|
    ensures Sub(TreeOf(names, fs), names[k]) == fs[k]
  {
    hide Stack, At;
    var t, gs := TreeOf(names, fs), PlacedAll(names, fs);
    forall q ensures (At(names[k], q) in t <==> q in fs[k]) && (q in fs[k] ==> t[At(names[k], q)] == fs[k][q]) {
      TreeAt(names, fs, k, q);
    }
  }

  lemma TreeAt(names: seq<string>, fs: seq<FileMap>, k: nat, q: string)
    requires |names| == |fs| && DistinctSegments(names) && k < |names|
    ensures At(names[k], q) in TreeOf(names, fs) <==> q in fs[k]
    ensures q in fs[k] ==> TreeOf(names, fs)[At(names[k], q)] == fs[k][q]
  {
    hide Stack, At;
    var gs, s := PlacedAll(names, fs), At(names[k], q);
    StackHas(gs, s);
    forall j | 0 <= j < |gs| && s in gs[j] ensures j == k && q in fs[k] {
      var q' :| q' in fs[j] && At(names[j], q') == s;
      SegmentsApart(names[j], names[k], q', q);
    }
    if q in fs[k] {
      assert s in gs[k];
      StackAt(gs, s, k);
    }
  }

  /** Every path of a tree starts at one of its names. */
  lemma TreeHas(names: seq<string>, fs: seq<FileMap>, s: string) returns (k: nat, q: string)
    requires |names| == |fs| && s in TreeOf(names, fs)
    ensures k < |names| && q in fs[k] && At(names[k], q) == s
  {
    hide Stack, At;
    StackHas(PlacedAll(names, fs), s);
    k :| 0 <= k < |names| && s in PlacedAll(names, fs)[k];
    q :| q in fs[k] && At(names[k], q) == s;
  }

  // ----- merging what stands at the top of a tree -----

  /** The path p in the entry n. */
  ghost predicate HasEntry(f: FileMap, n: string, p: string) {
    Paths.Segment(n) && At(n, p) in f
  }

  /** No file of one entry is where another has a directory. */
  ghost predicate EntriesCompatible(f: FileMap) {
    forall n, p, m, q :: HasEntry(f, n, p) && HasEntry(f, m, q) && n != m ==> !Below(p, q)
  }

  /** g has what the entries of f have; of several that have a path, the last in the order of names decides. */
  ghost predicate LastEntryWins(f: FileMap, g: FileMap) {
    && (forall p :: p in g <==> exists n :: HasEntry(f, n, p))
    && forall p, n :: HasEntry(f, n, p) && (forall m :: HasEntry(f, m, p) ==> LexLe(m, n)) ==> p in g && g[p] == f[At(n, p)]
  }

  ghost predicate OrderedNames(names: seq<string>) {
    DistinctSegments(names) && forall i, j :: 0 <= i < j < |names| ==> LexLe(names[i], names[j])
  }

  lemma EntryInTree(names: seq<string>, fs: seq<FileMap>, n: string, p: string)
    requires |names| == |fs| && DistinctSegments(names)
    ensures HasEntry(TreeOf(names, fs), n, p) <==> exists k :: 0 <= k < |names| && names[k] == n && p in fs[k]
  {
    hide Stack, At, TreeOf;
    if HasEntry(TreeOf(names, fs), n, p) {
      var k, q := TreeHas(names, fs, At(n, p));
      SegmentsApart(names[k], n, q, p);
      assert names[k] == n && p in fs[k];
    }
    if k :| 0 <= k < |names| && names[k] == n && p in fs[k] {
      TreeAt(names, fs, k, p);
    }
  }

  /** Merging a tree whose names are in the order of its layers stacks the layers. */
  lemma MergedTreeIsStack(names: seq<string>, fs: seq<FileMap>, g: FileMap)
    requires |names| == |fs| && OrderedNames(names) && LastEntryWins(TreeOf(names, fs), g)
    ensures g == Stack(fs)
  {
    hide Stack, At, TreeOf, LexLe;
    var t := TreeOf(names, fs);
    forall p ensures (p in g <==> p in Stack(fs)) && (p in g ==> g[p] == Stack(fs)[p]) {
      StackHas(fs, p);
      MergedAt(names, fs, g, p);
    }
  }

  lemma MergedAt(names: seq<string>, fs: seq<FileMap>, g: FileMap, p: string)
    requires |names| == |fs| && OrderedNames(names) && LastEntryWins(TreeOf(names, fs), g)
    ensures p in g <==> exists k :: 0 <= k < |fs| && p in fs[k]
    ensures p in g ==> p in Stack(fs) && g[p] == Stack(fs)[p]
  {
    hide Stack, At, TreeOf, LexLe;
    var t := TreeOf(names, fs);
    forall n ensures HasEntry(t, n, p) <==> exists k :: 0 <= k < |names| && names[k] == n && p in fs[k] {
      EntryInTree(names, fs, n, p);
    }
    if i :| 0 <= i < |fs| && p in fs[i] {
      assert HasEntry(t, names[i], p);
      var k := LastWith(fs, p);
      StackAt(fs, p, k);
      TreeAt(names, fs, k, p);
      forall m | HasEntry(t, m, p) ensures LexLe(m, names[k]) {
        var j :| 0 <= j < |names| && names[j] == m && p in fs[j];
        if j == k { LexTotal(m, m); }
      }
      assert HasEntry(t, names[k], p);
    }
  }

  lemma CompatibleEntries(names: seq<string>, fs: seq<FileMap>)
    requires |names| == |fs| && DistinctSegments(names) && AllCompatible(fs)
    ensures EntriesCompatible(TreeOf(names, fs))
  {
    hide Stack, At, TreeOf, Below;
    var t := TreeOf(names, fs);
    forall n, p, m, q | HasEntry(t, n, p) && HasEntry(t, m, q) && n != m ensures !Below(p, q) {
      EntryInTree(names, fs, n, p);
      EntryInTree(names, fs, m, q);
      var i :| 0 <= i < |names| && names[i] == n && p in fs[i];
      var j :| 0 <= j < |names| && names[j] == m && q in fs[j];
      if i < j { assert Compatible(fs[i], fs[j]); } else { assert Compatible(fs[j], fs[i]); }
    }
  }

  // ----- layers under different names have no conflicts -----

  predicate StartsAt(s: string, m: string) {
    |m| <= |s| && s[..|m|] == m && (|s| > |m| ==> s[|m|] == '/')
  }

  lemma OneStart(s: string, m: string, n: string)
    requires Paths.Segment(m) && Paths.Segment(n) && StartsAt(s, m) && StartsAt(s, n)
    ensures m == n
  {
    assert forall i :: 0 <= i < |m| ==> m[i] in m && s[..|m|][i] == m[i];
    assert forall i :: 0 <= i < |n| ==> n[i] in n && s[..|n|][i] == n[i];
    assert |m| == |n|;
  }

  lemma SegmentsCompatible(m: string, n: string, f: FileMap, g: FileMap)
    requires Paths.Segment(m) && Paths.Segment(n) && m != n
    ensures Compatible(Placed(m, f), Placed(n, g))
  {
    forall s, t | s in Placed(m, f) && t in Placed(n, g) ensures !Below(s, t) && !Below(t, s) {
      var p :| p in f && At(m, p) == s;
      var q :| q in g && At(n, q) == t;
      AtStarts(m, p);
      AtStarts(n, q);
      if Below(s, t) {
        BelowStarts(s, t, m);
        OneStart(t, m, n);
      }
      if Below(t, s) {
        BelowStarts(t, s, n);
        OneStart(s, m, n);
      }
    }
  }

  lemma BelowStarts(s: string, t: string, m: string)
    requires m != "" && StartsAt(s, m) && Below(s, t)
    ensures StartsAt(t, m)
  {
    var d := s + "/";
    assert t[..|d|] == d;
    assert t[..|m|] == d[..|m|] == s[..|m|] == m;
    assert t[|m|] == d[|m|];
  }

  lemma DistinctCompatible(names: seq<string>, fs: seq<FileMap>)
    requires |names| == |fs| && DistinctSegments(names)
    ensures AllCompatible(PlacedAll(names, fs))
  {
    hide Placed, Compatible;
    var gs := PlacedAll(names, fs);
    forall i, j | 0 <= i < j < |gs| ensures Compatible(gs[i], gs[j]) {
      SegmentsCompatible(names[i], names[j], fs[i], fs[j]);
    }
  }
}
