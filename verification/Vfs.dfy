/** The virtual filesystem index: a trie of nodes linked by pointers, keyed by path segments, which
    answers which entries overlap a given path set.

    Nodes are created with a copy of their parent's own parent pointer, so every parent pointer is null
    and the walk towards the root in `Get` never takes a step.  The index is right all the same as long as it
    holds only the two key shapes that files and expression files use, because no node exists below a
    tree entry; statements can bring keys of other shapes, and then conflicts can be missed. */
module Vfs {
  import opened StringSets
  import opened Simplify
  import opened BoundingPrefixes
  import opened Paths
  import opened Exprs

  // ----- places in the trie -----

  datatype Place = Root | Child(up: Place, name: string)

  function Segments(p: Place): seq<string> {
    match p
    case Root => []
    case Child(up, name) => Segments(up) + [name]
  }

  function Extend(p: Place, rest: seq<string>): Place
    decreases |rest|
  {
    if rest == [] then p else Extend(Child(p, rest[0]), rest[1..])
  }

  /** q is p or lies below it. */
  predicate Under(p: Place, q: Place) {
    p == q || (q.Child? && Under(p, q.up))
  }

  /** The child of p on the way down to q. */
  function Toward(p: Place, q: Place): Place
    requires Under(p, q) && p != q
  {
    if q.up == p then q else Toward(p, q.up)
  }

  lemma {:induction false} UnderTransitive(p: Place, q: Place, r: Place)
    requires Under(p, q) && Under(q, r)
    ensures Under(p, r)
    decreases r
  {
    if q != r { UnderTransitive(p, q, r.up); }
  }

  lemma {:induction false} TowardIsBetween(p: Place, q: Place)
    requires Under(p, q) && p != q
    ensures Toward(p, q).Child? && Toward(p, q).up == p && Under(Toward(p, q), q)
    decreases q
  {
    if q.up != p { TowardIsBetween(p, q.up); }
  }

  /** Under a child of p, that child is the way down. */
  lemma {:induction false} TowardUnique(p: Place, c: string, q: Place)
    requires Under(Child(p, c), q)
    ensures Under(p, q) && p != q && Toward(p, q) == Child(p, c)
    decreases q
  {
    if q == Child(p, c) {
      NotUnderChild(p, c);
    } else {
      TowardUnique(p, c, q.up);
      NotUnderSelf(p, q.up);
    }
  }

  lemma {:induction false} NotUnderSelf(p: Place, q: Place)
    requires Under(p, q) && q != p
    ensures !Under(q, p)
  {
    UnderLength(p, q);
    if Under(q, p) { UnderLength(q, p); }
  }

  lemma NotUnderChild(p: Place, c: string)
    ensures p != Child(p, c) && Under(p, Child(p, c))
  {
    UnderLength(p, Child(p, c));
  }

  lemma {:induction false} UnderLength(p: Place, q: Place)
    requires Under(p, q)
    ensures |Segments(p)| <= |Segments(q)| && (p != q ==> |Segments(p)| < |Segments(q)|)
    decreases q
  {
    if p != q { UnderLength(p, q.up); }
  }

  /** Two places above a third are one above the other. */
  lemma {:induction false} AboveComparable(p: Place, q: Place, r: Place)
    requires Under(p, r) && Under(q, r)
    ensures Under(p, q) || Under(q, p)
    decreases r
  {
    if p != r && q != r { AboveComparable(p, q, r.up); }
  }

  lemma {:induction false} SegmentsInjective(p: Place, q: Place)
    requires Segments(p) == Segments(q)
    ensures p == q
    decreases p
  {
    if p.Child? && q.Child? {
      var s := Segments(p);
      assert Segments(p.up) == s[..|s| - 1] == Segments(q.up);
      assert p.name == s[|s| - 1] == q.name;
      SegmentsInjective(p.up, q.up);
    }
  }

  /** Lying below is extending the segments. */
  lemma {:induction false} UnderIffPrefix(p: Place, q: Place)
    ensures Under(p, q) <==> Segments(p) <= Segments(q)
    decreases q
  {
    if p == q {
    } else if q.Root? {
      if Segments(p) <= Segments(q) { SegmentsInjective(p, q); }
    } else {
      UnderIffPrefix(p, q.up);
      var a, b := Segments(p), Segments(q);
      assert b == Segments(q.up) + [q.name];
      if a <= b && |a| == |b| { SegmentsInjective(p, q); }
      if a <= b && |a| < |b| { assert a <= Segments(q.up); }
    }
  }

  lemma {:induction false} ExtendSegments(p: Place, rest: seq<string>)
    ensures Segments(Extend(p, rest)) == Segments(p) + rest && Under(p, Extend(p, rest))
    decreases |rest|
  {
    if rest == [] {
      assert Segments(p) + rest == Segments(p);
    } else {
      ExtendSegments(Child(p, rest[0]), rest[1..]);
      assert Segments(p) + [rest[0]] + rest[1..] == Segments(p) + rest;
      NotUnderChild(p, rest[0]);
      UnderTransitive(p, Child(p, rest[0]), Extend(p, rest));
    }
  }

  function Above(p: Place): set<Place> {
    if p.Root? then {p} else Above(p.up) + {p}
  }

  lemma {:induction false} AboveIffUnder(p: Place, q: Place)
    ensures p in Above(q) <==> Under(p, q)
    decreases q
  {
    if q.Child? { AboveIffUnder(p, q.up); }
  }

  // ----- keys and places -----

  predicate KeyAt(k: Set, p: Place) {
    IsKey(k, Segments(p))
  }

  predicate Overlap(k: Set, p: Place, k': Set, p': Place) {
    p == p' || (IsTree(k) && Under(p, p')) || (IsTree(k') && Under(p', p))
  }

  lemma OverlapIff(k: Set, p: Place, k': Set, p': Place)
    requires KeyAt(k, p) && KeyAt(k', p')
    ensures Overlap(k, p, k', p') <==> Meet(k, k')
    ensures Intersects(k, k') <==> Meet(k, k')
  {
    hide Intersects, Meet, IsKey, IsTree;
    var s, s' := Segments(p), Segments(p');
    KeysIntersectIff(k, s, k', s');
    UnderIffPrefix(p, p');
    UnderIffPrefix(p', p);
    if s == s' { SegmentsInjective(p, p'); }
  }

  /** Enough for the bounding prefix of a key. */
  const KEY_DEPTH := 3

  /** Where a path set is filed or looked for: the segments of its bounding prefix. */
  function FiledUnder(k: Set, depth: nat): seq<string> {
    match BoundingPrefix(k, depth)
    case Bounded(s) => Split(Trim(s))
    case _ => []
  }

  lemma FiledAtPlace(k: Set, p: Place)
    requires KeyAt(k, p)
    ensures FiledUnder(k, KEY_DEPTH) == Segments(p) && Extend(Root, FiledUnder(k, KEY_DEPTH)) == p
  {
    hide Join;
    KeyBound(k, Segments(p), KEY_DEPTH);
    NodePathOfJoin(Segments(p));
    ExtendSegments(Root, Segments(p));
    assert [] + Segments(p) == Segments(p);
    SegmentsInjective(Extend(Root, Segments(p)), p);
  }

  // ----- what is filed where -----

  type Filing = map<Place, seq<VFSEntry>>

  ghost predicate EntryAt(f: Filing, e: VFSEntry, p: Place) {
    p in f && e in f[p]
  }

  ghost predicate UpClosed(f: Filing) {
    forall p :: p in f && p.Child? ==> p.up in f
  }

  /** Keys are filed at their own places, one to a node. */
  ghost predicate KeysInPlace(f: Filing, stored: set<VFSEntry>) {
    && (forall e, p :: EntryAt(f, e, p) ==> KeyAt(e.key, p) && f[p] == [e] && e in stored)
    && forall e :: e in stored ==> exists p :: EntryAt(f, e, p)
  }

  /** The place of a key: where its bounding prefix leads, within whatever depth that is found. */
  ghost predicate FiledAt(k: Set, p: Place) {
    exists depth: nat :: BoundingPrefix(k, depth).Bounded? && Extend(Root, FiledUnder(k, depth)) == p
  }

  lemma FiledAtUnique(k: Set, p: Place, q: Place)
    requires FiledAt(k, p) && FiledAt(k, q)
    ensures p == q
  {
    hide BoundingPrefix, Split, Trim;
    var d: nat :| BoundingPrefix(k, d).Bounded? && Extend(Root, FiledUnder(k, d)) == p;
    var e: nat :| BoundingPrefix(k, e).Bounded? && Extend(Root, FiledUnder(k, e)) == q;
    if d <= e { BudgetIrrelevant(k, d, e); } else { BudgetIrrelevant(k, e, d); }
  }

  /** Every key, of whatever shape, is filed at its own place. */
  ghost predicate Placed(f: Filing, stored: set<VFSEntry>) {
    && (forall e, p :: EntryAt(f, e, p) ==> FiledAt(e.key, p) && e in stored)
    && forall e :: e in stored ==> exists p :: EntryAt(f, e, p)
  }

  lemma KeyFiledAt(k: Set, p: Place)
    requires KeyAt(k, p)
    ensures FiledAt(k, p)
  {
    hide BoundingPrefix, FiledUnder, Extend;
    FiledAtPlace(k, p);
    KeyBound(k, Segments(p), KEY_DEPTH);
  }

  lemma KeysArePlaced(f: Filing, stored: set<VFSEntry>)
    requires KeysInPlace(f, stored)
    ensures Placed(f, stored) && Distinct(f)
  {
    hide KeyAt, FiledAt;
    forall e, p | EntryAt(f, e, p) ensures FiledAt(e.key, p) { KeyFiledAt(e.key, p); }
    forall p | p in f ensures NoRepeats(f[p]) {
      if f[p] != [] { assert EntryAt(f, f[p][0], p); }
    }
  }

  /** No node holds an entry twice. */
  ghost predicate Distinct(f: Filing) {
    forall p :: p in f ==> NoRepeats(f[p])
  }

  /** Some entry lies at or below the place. */
  ghost predicate Populated(f: Filing, p: Place) {
    exists q, e :: Under(p, q) && EntryAt(f, e, q)
  }

  /** Every node but the root leads to an entry. */
  ghost predicate AllPopulated(f: Filing) {
    forall p :: p in f && p.Child? ==> Populated(f, p)
  }

  /** Nothing exists below a tree entry. */
  ghost predicate TreesAreLeaves(f: Filing) {
    forall e, p, q :: EntryAt(f, e, p) && IsTree(e.key) && q in f && Under(p, q) ==> q == p
  }

  ghost predicate WellFiled(f: Filing, stored: set<VFSEntry>) {
    UpClosed(f) && KeysInPlace(f, stored) && AllPopulated(f) && TreesAreLeaves(f)
  }

  lemma {:induction false} AboveFiled(f: Filing, p: Place, q: Place)
    requires UpClosed(f) && Under(p, q) && q in f
    ensures p in f
    decreases q
  {
    if p != q { AboveFiled(f, p, q.up); }
  }

  /** An entry is in one place only. */
  lemma OnePlace(f: Filing, stored: set<VFSEntry>, e: VFSEntry, p: Place, q: Place)
    requires Placed(f, stored) && EntryAt(f, e, p) && EntryAt(f, e, q)
    ensures p == q
  {
    hide FiledAt;
    FiledAtUnique(e.key, p, q);
  }

  /** Entries whose keys overlap are one entry. */
  lemma OverlapIsSame(f: Filing, stored: set<VFSEntry>, e: VFSEntry, p: Place, e': VFSEntry, p': Place)
    requires KeysInPlace(f, stored) && TreesAreLeaves(f) && EntryAt(f, e, p) && EntryAt(f, e', p')
    requires Overlap(e.key, p, e'.key, p')
    ensures e == e'
  {
    hide KeyAt, IsTree, Under;
    assert p == p';
    assert f[p] == [e] && f[p] == [e'];
    assert e == [e][0] == [e'][0];
  }

  /** Stored keys are pairwise disjoint. */
  lemma StoredDisjoint(f: Filing, stored: set<VFSEntry>, e: VFSEntry, e': VFSEntry)
    requires WellFiled(f, stored) && e in stored && e' in stored && e != e'
    ensures Disjoint(e.key, e'.key)
  {
    hide KeyAt, Overlap, UpClosed, AllPopulated, TreesAreLeaves, Meet, Disjoint;
    var p :| EntryAt(f, e, p);
    var p' :| EntryAt(f, e', p');
    OverlapIff(e.key, p, e'.key, p');
    if Meet(e.key, e'.key) { OverlapIsSame(f, stored, e, p, e', p'); }
    MeetOrDisjoint(e.key, e'.key);
  }

  lemma MeetOrDisjoint(a: Set, b: Set)
    ensures Meet(a, b) || Disjoint(a, b)
  {}

  // ----- what a search finds -----

  ghost predicate Found(f: Filing, e: VFSEntry, p: Place, k: Set) {
    exists q :: Under(p, q) && EntryAt(f, e, q) && Intersects(e.key, k)
  }

  ghost predicate FoundBelow(f: Filing, e: VFSEntry, p: Place, cs: set<string>, k: Set) {
    exists c :: c in cs && Found(f, e, Child(p, c), k)
  }

  predicate NoRepeats(es: seq<VFSEntry>) {
    forall i, j :: 0 <= i < j < |es| ==> es[i] != es[j]
  }

  lemma NoRepeatsConcat(a: seq<VFSEntry>, b: seq<VFSEntry>)
    requires NoRepeats(a) && NoRepeats(b) && forall e :: e in a ==> e !in b
    ensures NoRepeats(a + b)
  {
    var ab := a + b;
    forall i, j | 0 <= i < j < |ab| ensures ab[i] != ab[j] {
      if i < |a| <= j {
        assert ab[i] in a && ab[j] in b;
      }
    }
  }

  /** Subtrees of different children share no entry. */
  lemma SubtreesApart(f: Filing, stored: set<VFSEntry>, e: VFSEntry, p: Place, c: string, d: string, k: Set)
    requires Placed(f, stored) && Found(f, e, Child(p, c), k) && Found(f, e, Child(p, d), k)
    ensures c == d
  {
    hide Placed, Under, EntryAt, Intersects;
    var q :| Under(Child(p, c), q) && EntryAt(f, e, q) && Intersects(e.key, k);
    var q' :| Under(Child(p, d), q') && EntryAt(f, e, q') && Intersects(e.key, k);
    OnePlace(f, stored, e, q, q');
    TowardUnique(p, c, q);
    TowardUnique(p, d, q);
  }

  /** A node's own entry is in none of its subtrees. */
  lemma OwnApart(f: Filing, stored: set<VFSEntry>, e: VFSEntry, p: Place, c: string, k: Set)
    requires Placed(f, stored) && Found(f, e, Child(p, c), k)
    ensures !EntryAt(f, e, p)
  {
    hide Placed, Under, EntryAt, Intersects;
    var q :| Under(Child(p, c), q) && EntryAt(f, e, q) && Intersects(e.key, k);
    TowardUnique(p, c, q);
    if EntryAt(f, e, p) { OnePlace(f, stored, e, p, q); }
  }

  /** A search finds what is at the place or below one of its children. */
  lemma FoundIff(f: Filing, e: VFSEntry, p: Place, cs: set<string>, k: Set)
    requires UpClosed(f) && forall c :: Child(p, c) in f ==> c in cs
    ensures Found(f, e, p, k) <==> (EntryAt(f, e, p) && Intersects(e.key, k)) || FoundBelow(f, e, p, cs, k)
  {
    hide Intersects, Under, UpClosed;
    if Found(f, e, p, k) {
      var q :| Under(p, q) && EntryAt(f, e, q) && Intersects(e.key, k);
      if q != p {
        TowardIsBetween(p, q);
        AboveFiled(f, Toward(p, q), q);
        var c := Toward(p, q).name;
        assert Toward(p, q) == Child(p, c);
        assert Found(f, e, Child(p, c), k);
      }
    }
    if FoundBelow(f, e, p, cs, k) {
      var c :| c in cs && Found(f, e, Child(p, c), k);
      var q :| Under(Child(p, c), q) && EntryAt(f, e, q) && Intersects(e.key, k);
      TowardUnique(p, c, q);
    }
    if EntryAt(f, e, p) { UnderSelf(p); }
  }

  lemma UnderSelf(p: Place)
    ensures Under(p, p)
  {}

  lemma NothingBelow(f: Filing, p: Place, k: Set)
    ensures forall e :: !FoundBelow(f, e, p, {}, k)
    ensures NoRepeats([])
  {}

  /** Whatever overlaps a key lies at or below any node above the key's place. */
  lemma OverlapsBelow(f: Filing, k: Set, p: Place, c: Place, e: VFSEntry, q: Place)
    requires TreesAreLeaves(f) && EntryAt(f, e, q) && Overlap(e.key, q, k, p)
    requires Under(c, p) && c in f
    ensures Under(c, q)
  {
    hide Under, IsTree, EntryAt;
    if q == p {
    } else if IsTree(k) && Under(p, q) {
      UnderTransitive(c, p, q);
    } else {
      AboveComparable(c, q, p);
      UnderSelf(c);
    }
  }

  // ----- queries -----

  /** A query that finds everything it meets: its bounding prefix has no segments, or is a path below
      which, or at which, all its members lie. */
  ghost predicate Anchored(k: Set, depth: nat, p: Place) {
    if p.Root? then FiledUnder(k, depth) == [""]
    else
      var s := Segments(p);
      Paths.IsPath(s) && FiledUnder(k, depth) == s && Subsumes(TreeKey(s), k)
  }

  /** A query for which the intersection test against any key is exact. */
  ghost predicate Sharp(k: Set) {
    forall k', p :: KeyAt(k', p) && Intersects(k', k) ==> Meet(k', k)
  }

  /** Everything strictly below a directory. */
  function DirKey(p: seq<string>): Set
    requires p != []
  {
    Prefix(Join(p) + "/")
  }

  lemma KeyAnchored(k: Set, p: Place)
    requires KeyAt(k, p)
    ensures p.Child? && Anchored(k, KEY_DEPTH, p) && Sharp(k)
  {
    hide Join, Intersects, Meet;
    var s := Segments(p);
    FiledAtPlace(k, p);
    forall t: string | Contains(k, t) ensures Contains(TreeKey(s), t) {
      KeyMembers(k, s, t);
      KeyMembers(TreeKey(s), s, t);
    }
    forall k', p' | KeyAt(k', p') && Intersects(k', k) ensures Meet(k', k) {
      OverlapIff(k', p', k, p);
    }
  }

  lemma DirAnchored(p: Place)
    requires Paths.IsPath(Segments(p))
    ensures Anchored(DirKey(Segments(p)), 1, p) && Sharp(DirKey(Segments(p)))
  {
    hide Join, Intersects;
    var s := Segments(p);
    var k := DirKey(s);
    assert Simplified(k) == k;
    TrimSlash(s);
    forall t: string | Contains(k, t) ensures Contains(TreeKey(s), t) {
      KeyMembers(TreeKey(s), s, t);
    }
    PrefixSharp(Join(s) + "/");
  }

  lemma TrimSlash(s: seq<string>)
    requires Paths.IsPath(s)
    ensures Split(Trim(Join(s) + "/")) == s
  {
    JoinEnds(s);
    var j := Join(s);
    assert TrimLeft(j + "/") == j + "/";
    assert (j + "/")[..|j + "/"| - 1] == j;
    assert TrimRight(j + "/") == TrimRight(j) == j;
    SplitJoin(s);
  }

  /** Against any prefix the test is decided for every key, and right. */
  lemma PrefixSharp(x: string)
    ensures Sharp(Prefix(x))
  {
    hide IsKey, Meet;
    forall k', p | KeyAt(k', p) && Intersects(k', Prefix(x)) ensures Meet(k', Prefix(x)) {
      PrefixDecided(k', Segments(p), x);
      KeyBranches(k', Segments(p));
      assert Contains(Prefix(x), x);
      IntersectsTrueMeets(k', Prefix(x));
    }
  }

  lemma PrefixDecided(k: Set, p: seq<string>, x: string)
    requires IsKey(k, p)
    ensures TryIntersects(k, Prefix(x)).Just?
  {
    hide HasPrefix, Join;
    assert TryIntersects(Unit(Join(p)), Prefix(x)) == OwnIntersects(Prefix(x), Unit(Join(p)));
    assert TryIntersects(Prefix(Join(p) + "/"), Prefix(x)).Just?;
  }

  /** Sets without a bounding prefix other than the empty one: everything, and the paths with a given
      suffix. */
  lemma UnboundedAnchored(k: Set)
    requires k == Top || k.Suffix? || k == Prefix("")
    ensures Anchored(k, 1, Root)
  {
    assert Simplified(k) == k;
    assert BoundingPrefix(k, 1) == Bounded("");
    assert Trim("") == "" && Split("") == [""];
  }

  /** The deepest existing node on the way to where a path set is looked for. */
  ghost predicate StartsAt(f: Filing, k: Set, depth: nat, c: Place) {
    var goal := Extend(Root, FiledUnder(k, depth));
    Under(c, goal) && c in f && (c == goal || Toward(c, goal) !in f)
  }

  /** The key's place is c or below. */
  ghost predicate FiledBelow(k: Set, c: Place) {
    exists q :: FiledAt(k, q) && Under(c, q)
  }

  lemma FoundIsStored(f: Filing, stored: set<VFSEntry>, e: VFSEntry, c: Place, k: Set)
    requires Placed(f, stored)
    ensures Found(f, e, c, k) <==> e in stored && FiledBelow(e.key, c) && Intersects(e.key, k)
  {
    hide FiledAt, Intersects, Under;
    if e in stored && FiledBelow(e.key, c) && Intersects(e.key, k) {
      var p :| EntryAt(f, e, p);
      var q :| FiledAt(e.key, q) && Under(c, q);
      FiledAtUnique(e.key, p, q);
    }
  }

  /** No node is named by the empty segment. */
  lemma NoEmptyName(f: Filing, stored: set<VFSEntry>)
    requires WellFiled(f, stored)
    ensures Child(Root, "") !in f
  {
    hide Join, Intersects, UpClosed, TreesAreLeaves;
    var p := Child(Root, "");
    if p in f {
      assert Populated(f, p);
      var q, e :| Under(p, q) && EntryAt(f, e, q);
      EmptySegment(q);
      assert false;
    }
  }

  lemma EmptySegment(q: Place)
    requires Under(Child(Root, ""), q)
    ensures !Paths.IsPath(Segments(q))
  {
    var p := Child(Root, "");
    UnderIffPrefix(p, q);
    assert Segments(p) == [""];
    assert Segments(q)[0] == "";
  }

  lemma {:induction false} UnderRoot(q: Place)
    ensures Under(Root, q)
    decreases q
  {
    if q.Child? { UnderRoot(q.up); }
  }

  /** Where an anchored query is looked for, everything it meets lies at or below. */
  lemma MeetsBelow(f: Filing, stored: set<VFSEntry>, k: Set, depth: nat, p: Place, c: Place, e: VFSEntry, q: Place)
    requires WellFiled(f, stored) && Anchored(k, depth, p) && StartsAt(f, k, depth, c)
    requires EntryAt(f, e, q) && Meet(e.key, k)
    ensures Under(c, q)
  {
    hide Intersects, Join, UpClosed, AllPopulated, Under;
    if p.Root? {
      NoEmptyName(f, stored);
      assert Extend(Root, [""]) == Child(Root, "");
      UnderRoot(q);
      ChildOfRoot(c);
    } else {
      var s := Segments(p);
      ExtendSegments(Root, s);
      assert [] + s == s;
      SegmentsInjective(Extend(Root, s), p);
      OverlapIff(e.key, q, TreeKey(s), p);
      MeetMore(e.key, k, TreeKey(s));
      OverlapsBelow(f, TreeKey(s), p, c, e, q);
    }
  }

  lemma ChildOfRoot(c: Place)
    requires Under(c, Child(Root, ""))
    ensures c == Root || c == Child(Root, "")
  {}

  lemma MeetMore(a: Set, b: Set, c: Set)
    requires Meet(a, b) && Subsumes(c, b)
    ensures Meet(a, c)
  {}

  lemma MeetIsFound(f: Filing, stored: set<VFSEntry>, k: Set, depth: nat, p: Place, c: Place, e: VFSEntry)
    requires WellFiled(f, stored) && Anchored(k, depth, p) && StartsAt(f, k, depth, c)
    requires e in stored && Meet(e.key, k)
    ensures Found(f, e, c, k)
  {
    hide KeyAt, Intersects, Meet, UpClosed, AllPopulated, TreesAreLeaves, Under, Anchored, StartsAt;
    var q :| EntryAt(f, e, q);
    MeetsBelow(f, stored, k, depth, p, c, e, q);
    MeetIntersects(e.key, k);
  }

  /** q's path, as a string, starts with p's. */
  predicate StartsLike(q: Place, p: Place) {
    q.Child? && p.Child? && Segments(q) != [] && HasPrefix(Join(Segments(q)), Join(Segments(p)))
  }

  /** A query by a prefix that ends inside a segment is not anchored, and can miss what it meets: if
      something is filed at or below p, the search for the prefix p starts there, and finds nothing
      that is filed elsewhere. */
  lemma UnanchoredMisses(f: Filing, stored: set<VFSEntry>, p: Place, e: VFSEntry, q: Place)
    requires WellFiled(f, stored) && p in f && Paths.IsPath(Segments(p))
    requires EntryAt(f, e, q) && !Under(p, q) && StartsLike(q, p)
    ensures
      var k := Prefix(Join(Segments(p)));
      Meet(e.key, k) && StartsAt(f, k, 1, p) && !Found(f, e, p, k)
  {
    hide Intersects, Join, UpClosed, AllPopulated, TreesAreLeaves, FiledUnder;
    var s := Segments(p);
    PrefixFiled(p);
    UnderSelf(p);
    KeyMembers(e.key, Segments(q), Join(Segments(q)));
    assert Contains(e.key, Join(Segments(q))) && Contains(Prefix(Join(s)), Join(Segments(q)));
    if Found(f, e, p, Prefix(Join(s))) {
      var q' :| Under(p, q') && EntryAt(f, e, q');
      KeysArePlaced(f, stored);
      OnePlace(f, stored, e, q, q');
    }
  }

  /** A prefix query by a path without its slash finds everything it meets exactly if nothing is filed at
      or below the path, or everything filed under a name that starts like the path is. */
  lemma PrefixQueryCompleteIff(f: Filing, stored: set<VFSEntry>, p: Place, c: Place)
    requires WellFiled(f, stored) && Paths.IsPath(Segments(p))
    requires StartsAt(f, Prefix(Join(Segments(p))), 1, c)
    ensures
      var k := Prefix(Join(Segments(p)));
      (forall e :: e in stored && Meet(e.key, k) ==> Found(f, e, c, k)) <==>
      p !in f || forall e, q :: EntryAt(f, e, q) && StartsLike(q, p) ==> Under(p, q)
  {
    hide Intersects, Join, KeyAt, FiledUnder, StartsLike, Meet, Found, Under, StartsAt;
    var k := Prefix(Join(Segments(p)));
    if p in f { StartsAtGoal(f, p, c); }
    if (forall e :: e in stored && Meet(e.key, k) ==> Found(f, e, c, k)) && p in f {
      forall e, q | EntryAt(f, e, q) && StartsLike(q, p) ensures Under(p, q) {
        if !Under(p, q) { UnanchoredMisses(f, stored, p, e, q); }
      }
    }
    if p !in f || forall e, q :: EntryAt(f, e, q) && StartsLike(q, p) ==> Under(p, q) {
      forall e | e in stored && Meet(e.key, k) ensures Found(f, e, c, k) {
        var q :| EntryAt(f, e, q);
        PrefixQueryMeets(e.key, q, p);
        PrefixMeetsBelow(f, stored, p, c, e, q);
        MeetIntersects(e.key, k);
        FoundThere(f, e, c, q, k);
      }
    }
  }

  lemma FoundThere(f: Filing, e: VFSEntry, c: Place, q: Place, k: Set)
    requires Under(c, q) && EntryAt(f, e, q) && Intersects(e.key, k)
    ensures Found(f, e, c, k)
  {}

  /** If the goal exists, the search starts there. */
  lemma StartsAtGoal(f: Filing, p: Place, c: Place)
    requires UpClosed(f) && p in f && Paths.IsPath(Segments(p)) && StartsAt(f, Prefix(Join(Segments(p))), 1, c)
    ensures c == p
  {
    hide Join, FiledUnder;
    PrefixFiled(p);
    if c != p {
      TowardIsBetween(c, p);
      AboveFiled(f, Toward(c, p), p);
    }
  }

  lemma PrefixQueryMeets(k: Set, q: Place, p: Place)
    requires KeyAt(k, q) && Paths.IsPath(Segments(p)) && Meet(k, Prefix(Join(Segments(p))))
    ensures StartsLike(q, p) || (IsTree(k) && Under(q, p))
  {
    hide Join;
    var a, b := Join(Segments(q)), Join(Segments(p));
    var t: string :| Contains(k, t) && Contains(Prefix(b), t);
    KeyMembers(k, Segments(q), t);
    if t != a {
      PrefixesComparable(t, a + "/", b);
      if HasPrefix(b, a + "/") {
        BelowIff(Segments(q), Segments(p));
        UnderIffPrefix(q, p);
      } else {
        JoinEnds(Segments(p));
        SlashLast(a, b);
      }
    }
  }

  lemma SlashLast(a: string, b: string)
    requires HasPrefix(a + "/", b) && b != "" && b[|b| - 1] != '/'
    ensures HasPrefix(a, b)
  {
    assert b[|b| - 1] == (a + "/")[|b| - 1];
    assert |b| <= |a|;
    assert (a + "/")[..|b|] == a[..|b|];
  }

  lemma PrefixMeetsBelow(f: Filing, stored: set<VFSEntry>, p: Place, c: Place, e: VFSEntry, q: Place)
    requires WellFiled(f, stored) && Paths.IsPath(Segments(p)) && StartsAt(f, Prefix(Join(Segments(p))), 1, c)
    requires EntryAt(f, e, q) && (StartsLike(q, p) || (IsTree(e.key) && Under(q, p)))
    requires p in f && StartsLike(q, p) ==> Under(p, q)
    ensures Under(c, q)
  {
    hide Join, FiledUnder, StartsLike, KeyAt, Under, IsTree, UpClosed, KeysInPlace, AllPopulated, TreesAreLeaves, StartsAt;
    StartsAbove(f, p, c);
    if StartsLike(q, p) {
      if p in f {
        StartsAtGoal(f, p, c);
      } else {
        EntryIsPath(f, stored, e, q);
        SiblingsUnder(p, q);
        UpIsAbove(c, p);
        UnderTransitive(c, p.up, q);
      }
    } else {
      TreeAbove(f, e, q, c, p);
    }
  }

  lemma TreeAbove(f: Filing, e: VFSEntry, q: Place, c: Place, p: Place)
    requires TreesAreLeaves(f) && EntryAt(f, e, q) && IsTree(e.key) && Under(q, p) && Under(c, p) && c in f
    ensures Under(c, q)
  {
    hide Under, IsTree, EntryAt;
    AboveComparable(c, q, p);
    UnderSelf(c);
  }

  lemma StartsAbove(f: Filing, p: Place, c: Place)
    requires Paths.IsPath(Segments(p)) && StartsAt(f, Prefix(Join(Segments(p))), 1, c)
    ensures Under(c, p) && c in f && (p !in f ==> c != p)
  {
    hide Join, FiledUnder;
    PrefixFiled(p);
  }

  lemma EntryIsPath(f: Filing, stored: set<VFSEntry>, e: VFSEntry, q: Place)
    requires KeysInPlace(f, stored) && EntryAt(f, e, q)
    ensures Paths.IsPath(Segments(q))
  {}

  lemma UpIsAbove(c: Place, p: Place)
    requires Under(c, p) && c != p
    ensures p.Child? && Under(c, p.up)
  {}

  /** A path whose string starts with another's lies under the other's parent. */
  lemma SiblingsUnder(p: Place, q: Place)
    requires Paths.IsPath(Segments(p)) && Paths.IsPath(Segments(q)) && StartsLike(q, p)
    ensures p.Child? && Under(p.up, q)
  {
    hide Join, HasPrefix, Under;
    var s, up := Segments(p), Segments(p.up);
    if up == [] {
      SegmentsInjective(p.up, Root);
      UnderRoot(q);
    } else {
      assert s == up + [p.name];
      assert Paths.IsPath(up) by { assert forall i :: 0 <= i < |up| ==> up[i] == s[i]; }
      JoinConcat(up, [p.name]);
      SlashedPart(Join(Segments(q)), Join(up), Join([p.name]));
      BelowIff(up, Segments(q));
      UnderIffPrefix(p.up, q);
    }
  }

  lemma SlashedPart(t: string, a: string, b: string)
    requires HasPrefix(t, a + "/" + b)
    ensures HasPrefix(t, a + "/")
  {
    PrefixTransitive(t, a + "/" + b, a + "/");
  }

  lemma PrefixFiled(p: Place)
    requires Paths.IsPath(Segments(p))
    ensures Extend(Root, FiledUnder(Prefix(Join(Segments(p))), 1)) == p
  {
    hide Join;
    var s := Segments(p);
    assert Simplified(Prefix(Join(s))) == Prefix(Join(s));
    NodePathOfJoin(s);
    ExtendSegments(Root, s);
    assert [] + s == s;
    SegmentsInjective(Extend(Root, s), p);
  }

  // ----- conflicts that are missed -----

  /** The search for a key finds an entry that meets it exactly if it starts at or above the entry's
      place. */
  lemma SeenIff(f: Filing, stored: set<VFSEntry>, e: VFSEntry, q: Place, k: Set, c: Place)
    requires Placed(f, stored) && EntryAt(f, e, q) && Meet(e.key, k)
    ensures Found(f, e, c, k) <==> Under(c, q)
  {
    hide Intersects, Under, FiledAt, Placed, Meet;
    MeetIntersects(e.key, k);
    if Found(f, e, c, k) {
      var q' :| Under(c, q') && EntryAt(f, e, q');
      OnePlace(f, stored, e, q, q');
    }
  }

  /** For an entry filed above the place of the key that is looked for: it is found exactly if no node
      exists further on the way. */
  lemma SeenAboveIff(f: Filing, stored: set<VFSEntry>, e: VFSEntry, q: Place, k: Set, depth: nat, c: Place)
    requires UpClosed(f) && Placed(f, stored) && EntryAt(f, e, q) && Meet(e.key, k) && StartsAt(f, k, depth, c)
    requires Under(q, Extend(Root, FiledUnder(k, depth)))
    ensures
      var goal := Extend(Root, FiledUnder(k, depth));
      Found(f, e, c, k) <==> q == goal || Toward(q, goal) !in f
  {
    hide Meet, FiledUnder, FiledAt, Placed, Found;
    SeenIff(f, stored, e, q, k, c);
    StartsAtOrAboveIff(f, q, Extend(Root, FiledUnder(k, depth)), c);
  }

  lemma StartsAtOrAboveIff(f: Filing, q: Place, goal: Place, c: Place)
    requires UpClosed(f) && q in f && Under(q, goal)
    requires Under(c, goal) && c in f && (c == goal || Toward(c, goal) !in f)
    ensures Under(c, q) <==> q == goal || Toward(q, goal) !in f
  {
    hide UpClosed;
    AboveComparable(c, q, goal);
    if Under(c, q) && c != q {
      NotUnderSelf(c, q);
      TowardOnTheWay(c, q, goal);
      AboveFiled(f, Toward(c, goal), q);
      assert false;
    }
    if Under(q, c) && c != q {
      NotUnderSelf(q, c);
      TowardOnTheWay(q, c, goal);
      AboveFiled(f, Toward(q, goal), c);
      NotUnderSelf(q, goal);
    }
  }

  /** The next place on the way to the goal is also on the way to any place in between. */
  lemma {:induction false} TowardOnTheWay(p: Place, q: Place, goal: Place)
    requires Under(p, q) && p != q && Under(q, goal)
    ensures p != goal && Under(p, goal) && Toward(p, goal) == Toward(p, q) && Under(Toward(p, goal), q)
    decreases goal
  {
    TowardIsBetween(p, q);
    UnderTransitive(p, q, goal);
    if q != goal {
      TowardOnTheWay(p, q, goal.up);
      NotUnderSelf(q, goal);
      if p == goal { NotUnderSelf(p, q); }
    }
  }

  // ----- unions of paths, which statements bring -----

  /** Two paths. */
  function PairKey(u: string, v: string): Set {
    Or(Unit(u), Unit(v))
  }

  /** The guard on statement files lets a pair of paths through exactly if both lie below the directory. */
  lemma GuardOnPair(d: string, u: string, v: string)
    ensures Superset(Prefix(d), PairKey(u, v)) <==> HasPrefix(u, d) && HasPrefix(v, d)
  {
    hide Superset, HasPrefix;
    GuardExactOnLiterals(PairKey(u, v), d);
    SubsumesUnion(Prefix(d), Unit(u), Unit(v));
    SubsumesUnit(d, u);
    SubsumesUnit(d, v);
  }

  lemma SubsumesUnit(d: string, u: string)
    ensures Subsumes(Prefix(d), Unit(u)) <==> HasPrefix(u, d)
  {
    assert Contains(Unit(u), u);
  }

  /** A pair is filed where the common prefix of its paths leads. */
  lemma PairBound(u: string, v: string, depth: nat)
    requires u != v && depth > 1
    ensures BoundingPrefix(PairKey(u, v), depth) == Bounded(CommonPrefix(u, v))
  {
    hide CommonPrefix;
    var l, r := Unit(u), Unit(v);
    var x := Or(l, r);
    assert SimplifyTerm(l) == l && SimplifyTerm(r) == r;
    assert TrySuperset(l, Not(r)) == Nothing && TrySuperset(r, Not(l)) == Nothing;
    assert SimplifyTerm(x) == x;
    MintermsKeepLiterals(x);
    OneRound(x, x);
    assert Simplified(l) == l && Simplified(r) == r;
  }

  /** Two entries of a directory, one of them further down: the pair is filed at the directory. */
  lemma PairFiledAt(a: Place, x: string, s: string, y: string)
    requires a.Child? && Paths.IsPath(Segments(a)) && Segment(x) && Segment(s) && Segment(y) && x[0] != y[0]
    ensures
      var k := PairKey(Join(Segments(a) + [x, s]), Join(Segments(a) + [y]));
      BoundingPrefix(k, 2).Bounded? && Extend(Root, FiledUnder(k, 2)) == a && FiledAt(k, a)
  {
    hide BoundingPrefix;
    var d := Segments(a);
    var u, v := Join(d + [x, s]), Join(d + [y]);
    JoinConcat(d, [x, s]);
    JoinConcat(d, [y]);
    var j := Join(d) + "/";
    assert u == j + Join([x, s]) && v == j + Join([y]);
    assert Join([x, s]) == x + "/" + Join([x, s][1..]);
    SplitCommon(j, Join([x, s]), Join([y]));
    assert u[|j|] == x[0] && v[|j|] == y[0];
    PairBound(u, v, 2);
    TrimSlash(d);
    ExtendSegments(Root, d);
    assert [] + d == d;
    SegmentsInjective(Extend(Root, d), a);
  }

  lemma SplitCommon(j: string, a: string, b: string)
    requires a != "" && b != "" && a[0] != b[0]
    ensures CommonPrefix(j + a, j + b) == j
  {
    assert (j + a)[..|j|] == j == (j + b)[..|j|];
    assert (j + a)[|j|] == a[0] && (j + b)[|j|] == b[0];
    CommonPrefixLenUnique(j + a, j + b, |j|);
  }

  /** Once the subdirectory exists, a pair that has a path in it is not found by the search for that path,
      wherever the pair comes from a statement that passed the guard. */
  lemma PairUnseen(f: Filing, stored: set<VFSEntry>, e: VFSEntry, a: Place, x: string, s: string, y: string, c: Place)
    requires a.Child? && Paths.IsPath(Segments(a)) && Segment(x) && Segment(s) && Segment(y) && x[0] != y[0]
    requires e.key == PairKey(Join(Segments(a) + [x, s]), Join(Segments(a) + [y]))
    requires UpClosed(f) && Placed(f, stored) && EntryAt(f, e, a) && Child(a, x) in f
    requires StartsAt(f, FileKey(Segments(a) + [x, s]), KEY_DEPTH, c)
    ensures Meet(e.key, FileKey(Segments(a) + [x, s])) && !Found(f, e, c, FileKey(Segments(a) + [x, s]))
  {
    hide Join, Found, StartsAt, Placed, UpClosed;
    PairMeets(e.key.l.unit, e.key.r.unit);
    var p := Child(Child(a, x), s);
    FilePlace(a, x, s);
    SeenAboveIff(f, stored, e, a, FileKey(Segments(a) + [x, s]), KEY_DEPTH, c);
  }

  lemma PairMeets(u: string, v: string)
    ensures Meet(PairKey(u, v), Unit(u))
  {
    assert Contains(Unit(u), u) && Contains(PairKey(u, v).l, u);
    assert Contains(PairKey(u, v), u);
  }

  /** Where a file two levels below a directory is filed, and the way there. */
  lemma FilePlace(a: Place, x: string, s: string)
    requires a.Child? && Paths.IsPath(Segments(a)) && Segment(x) && Segment(s)
    ensures
      var k, p := FileKey(Segments(a) + [x, s]), Child(Child(a, x), s);
      && KeyAt(k, p) && Extend(Root, FiledUnder(k, KEY_DEPTH)) == p
      && a != p && Under(a, p) && Toward(a, p) == Child(a, x) && Under(Child(a, x), p)
  {
    hide Join;
    var p := Child(Child(a, x), s);
    assert Segments(p) == Segments(a) + [x, s];
    FiledAtPlace(FileKey(Segments(p)), p);
    NotUnderChild(Child(a, x), s);
    TowardUnique(a, x, p);
  }

  /** A set without a bounding prefix is filed under the empty segment, so the search for a key finds it
      exactly if it starts at the root. */
  lemma UnboundedSeenIff(f: Filing, stored: set<VFSEntry>, e: VFSEntry, k: Set, p: Place, c: Place)
    requires Placed(f, stored) && EntryAt(f, e, Child(Root, "")) && Meet(e.key, k)
    requires KeyAt(k, p) && Under(c, p)
    ensures Found(f, e, c, k) <==> c == Root
  {
    hide Join, Intersects, Meet, FiledAt;
    SeenIff(f, stored, e, Child(Root, ""), k, c);
    if Under(c, Child(Root, "")) {
      ChildOfRoot(c);
      if c == Child(Root, "") {
        EmptySegment(p);
        assert false;
      }
    }
  }

  /** Among these are two paths with different first characters, which the guard lets through at the
      root. */
  lemma PairFiledUnbounded(u: string, v: string)
    requires u != "" && v != "" && u[0] != v[0]
    ensures Superset(Prefix(""), PairKey(u, v)) && FiledAt(PairKey(u, v), Child(Root, ""))
  {
    hide BoundingPrefix, Superset;
    GuardOnPair("", u, v);
    PairBound(u, v, 2);
    SplitCommon("", u, v);
    assert "" + u == u && "" + v == v;
    assert Trim("") == "" && Split("") == [""];
    assert Extend(Root, FiledUnder(PairKey(u, v), 2)) == Extend(Root, [""]) == Child(Root, "");
  }

  lemma StoredSharp(f: Filing, stored: set<VFSEntry>, e: VFSEntry, k: Set)
    requires WellFiled(f, stored) && e in stored && Sharp(k) && Intersects(e.key, k)
    ensures Meet(e.key, k)
  {
    hide KeyAt, Intersects, Meet, UpClosed, AllPopulated, TreesAreLeaves;
    var p :| EntryAt(f, e, p);
    assert KeyAt(e.key, p);
  }

  lemma KeyBounded(k: Set, p: Place)
    requires KeyAt(k, p)
    ensures BoundingPrefix(k, KEY_DEPTH).Bounded?
  {
    KeyBound(k, Segments(p), KEY_DEPTH);
  }

  lemma NoOverlaps(f: Filing, stored: set<VFSEntry>, x: VFSEntry, p: Place)
    requires KeysInPlace(f, stored) && KeyAt(x.key, p) && forall e :: e in stored ==> !Meet(e.key, x.key)
    ensures Free(f, x, p)
  {
    hide KeyAt, Overlap, Meet;
    forall e, q | EntryAt(f, e, q) ensures !Overlap(e.key, q, x.key, p) {
      OverlapIff(e.key, q, x.key, p);
    }
  }

  // ----- filing one more entry -----

  /** No filed key overlaps the key of x at p. */
  ghost predicate Free(f: Filing, x: VFSEntry, p: Place) {
    forall e, q :: EntryAt(f, e, q) ==> !Overlap(e.key, q, x.key, p)
  }

  /** The same filing with nodes for all places above p. */
  ghost predicate MadeRoom(f: Filing, f': Filing, p: Place) {
    && f'.Keys == f.Keys + Above(p)
    && (forall q :: q in f ==> f'[q] == f[q])
    && (forall q :: q in f' && q !in f ==> f'[q] == [])
  }

  /** Filing an entry whose key overlaps no filed key keeps everything well filed. */
  lemma FileOne(f: Filing, f': Filing, stored: set<VFSEntry>, x: VFSEntry, p: Place)
    requires WellFiled(f, stored) && MadeRoom(f, f', p) && KeyAt(x.key, p) && Free(f, x, p)
    ensures p in f' && f'[p] == [] && WellFiled(f'[p := [x]], stored + {x})
  {
    hide UpClosed, KeysInPlace, AllPopulated, TreesAreLeaves, MadeRoom, Free;
    RoomAtPlace(f, f', x, p);
    var g := f'[p := [x]];
    NewEntries(f, f', x, p);
    RoomClosed(f, f', g, p);
    KeysStayInPlace(f, g, stored, x, p);
    StaysPopulated(f, f', g, x, p);
    TreesStayLeaves(f, f', g, x, p);
  }

  lemma RoomAtPlace(f: Filing, f': Filing, x: VFSEntry, p: Place)
    requires MadeRoom(f, f', p) && Free(f, x, p)
    ensures p in f' && f'[p] == []
  {
    assert p in Above(p);
    if p in f && f[p] != [] { assert EntryAt(f, f[p][0], p); }
  }

  /** The entries afterwards are the entries before and the new one. */
  ghost predicate OneMore(f: Filing, g: Filing, x: VFSEntry, p: Place) {
    && p in g && g[p] == [x]
    && (forall e, q :: EntryAt(g, e, q) ==> (q == p && e == x) || EntryAt(f, e, q))
    && (forall e, q :: EntryAt(f, e, q) ==> EntryAt(g, e, q) && g[q] == f[q])
  }

  lemma NewEntries(f: Filing, f': Filing, x: VFSEntry, p: Place)
    requires MadeRoom(f, f', p) && p in f' && f'[p] == []
    ensures OneMore(f, f'[p := [x]], x, p)
  {
    var g := f'[p := [x]];
    forall e, q | EntryAt(f, e, q) ensures EntryAt(g, e, q) && g[q] == f[q] {
      assert f'[q] == f[q];
      assert q != p;
    }
    forall e, q | EntryAt(g, e, q) ensures (q == p && e == x) || EntryAt(f, e, q) {
      if q != p { assert g[q] == f'[q]; }
    }
  }

  lemma RoomClosed(f: Filing, f': Filing, g: Filing, p: Place)
    requires UpClosed(f) && MadeRoom(f, f', p) && g.Keys == f'.Keys
    ensures UpClosed(g)
  {
    hide Above;
    forall q | q in g && q.Child? ensures q.up in g {
      AboveIffUnder(q, p);
      AboveIffUnder(q.up, p);
      if Under(q, p) {
        NotUnderChild(q.up, q.name);
        UnderTransitive(q.up, q, p);
      }
    }
  }

  lemma KeysStayInPlace(f: Filing, g: Filing, stored: set<VFSEntry>, x: VFSEntry, p: Place)
    requires KeysInPlace(f, stored) && KeyAt(x.key, p) && OneMore(f, g, x, p)
    ensures KeysInPlace(g, stored + {x})
  {
    hide KeyAt;
    assert EntryAt(g, x, p);
    forall e | e in stored ensures exists q :: EntryAt(g, e, q) {
      var q :| EntryAt(f, e, q);
      assert EntryAt(g, e, q);
    }
  }

  lemma StaysPopulated(f: Filing, f': Filing, g: Filing, x: VFSEntry, p: Place)
    requires AllPopulated(f) && MadeRoom(f, f', p) && g.Keys == f'.Keys && OneMore(f, g, x, p)
    ensures AllPopulated(g)
  {
    hide Under, Above;
    assert EntryAt(g, x, p);
    forall q | q in g && q.Child? ensures Populated(g, q) {
      AboveIffUnder(q, p);
      if q in f {
        assert Populated(f, q);
        var r, e :| Under(q, r) && EntryAt(f, e, r);
        assert EntryAt(g, e, r);
      }
    }
  }

  lemma TreesStayLeaves(f: Filing, f': Filing, g: Filing, x: VFSEntry, p: Place)
    requires AllPopulated(f) && TreesAreLeaves(f) && MadeRoom(f, f', p) && g.Keys == f'.Keys
    requires OneMore(f, g, x, p) && Free(f, x, p) && p.Child?
    ensures TreesAreLeaves(g)
  {
    hide EntryAt, Under, IsTree, Above, Overlap;
    forall e, q, r | EntryAt(g, e, q) && IsTree(e.key) && r in g && Under(q, r) ensures r == q {
      AboveIffUnder(r, p);
      if q == p && e == x {
        LeafStays(f, x, p, r);
      } else {
        assert EntryAt(f, e, q);
        if r !in f {
          UnderTransitive(q, r, p);
          OverlapFromTree(e.key, q, x.key, p);
        }
      }
    }
  }

  lemma OverlapFromTree(k: Set, p: Place, k': Set, p': Place)
    requires IsTree(k) && Under(p, p')
    ensures Overlap(k, p, k', p') && Overlap(k', p', k, p)
  {}

  /** No node lies below a place that a new tree key may take. */
  lemma LeafStays(f: Filing, x: VFSEntry, p: Place, r: Place)
    requires AllPopulated(f) && Free(f, x, p) && p.Child? && IsTree(x.key) && Under(p, r)
    ensures r !in f
    ensures Under(r, p) ==> r == p
  {
    hide EntryAt, Under, IsTree, Overlap;
    if r in f {
      ChildBelow(p, r);
      assert Populated(f, r);
      var t, e :| Under(r, t) && EntryAt(f, e, t);
      UnderTransitive(p, r, t);
      OverlapFromTree(x.key, p, e.key, t);
    }
    if r != p { NotUnderSelf(p, r); }
  }

  lemma {:induction false} ChildBelow(p: Place, r: Place)
    requires p.Child? && Under(p, r)
    ensures r.Child?
  {}

  // ----- the pointers -----

  class VfsNode {
    var parent: VfsNode?
    var children: map<string, VfsNode>
    var ents: seq<VFSEntry>

    constructor (parent: VfsNode?)
      ensures this.parent == parent && children == map[] && ents == []
    {
      this.parent := parent;
      children := map[];
      ents := [];
    }

    /** These children and entries, and a null parent pointer. */
    ghost predicate Holds(cs: map<string, VfsNode>, es: seq<VFSEntry>)
      reads this
    {
      parent == null && children == cs && ents == es
    }
  }

  ghost predicate DepthBound(f: Filing, depth: nat) {
    forall p :: p in f ==> |Segments(p)| <= depth
  }

  lemma DepthFacts(f: Filing, p: Place, k: string, depth: nat)
    requires DepthBound(f, depth) && p in f
    ensures |Segments(p)| <= depth && |Segments(Child(p, k))| == |Segments(p)| + 1
    ensures |Segments(p)| < depth ==> DepthBound(f[Child(p, k) := []], depth)
  {}

  /** Who is whose child agrees with the places. */
  ghost predicate Linked(at: map<Place, VfsNode>, kids: map<Place, map<string, VfsNode>>) {
    && kids.Keys == at.Keys
    && (forall p, q :: p in at && q in at && at[p] == at[q] ==> p == q)
    && (forall p, s :: p in kids && s in kids[p] ==> Child(p, s) in at && at[Child(p, s)] == kids[p][s])
    && (forall p, s :: Child(p, s) in at ==> p in kids && s in kids[p])
  }

  lemma LinkChild(at: map<Place, VfsNode>, kids: map<Place, map<string, VfsNode>>, p: Place, k: string, child: VfsNode)
    requires Linked(at, kids) && p in at && k !in kids[p] && forall q :: q in at ==> at[q] != child
    ensures Child(p, k) !in at && Child(p, k) != p
    ensures Linked(at[Child(p, k) := child], kids[p := kids[p][k := child]][Child(p, k) := map[]])
  {
    hide Segments;
    NotUnderChild(p, k);
    var at', kids' := at[Child(p, k) := child], kids[p := kids[p][k := child]][Child(p, k) := map[]];
    forall q, s | q in kids' && s in kids'[q] ensures Child(q, s) in at' && at'[Child(q, s)] == kids'[q][s] {
      assert q != Child(p, k);
    }
    forall q, s | Child(q, s) in at' ensures q in kids' && s in kids'[q] {
      if Child(q, s) in at { assert q in kids && s in kids[q]; }
    }
  }

  lemma LinkFacts(at: map<Place, VfsNode>, kids: map<Place, map<string, VfsNode>>, p: Place)
    requires Linked(at, kids) && p in at
    ensures kids.Keys == at.Keys
    ensures forall q :: q in at && q != p ==> at[q] != at[p]
    ensures forall k :: k in kids[p] <==> Child(p, k) in at
    ensures forall k :: k in kids[p] ==> at[Child(p, k)] == kids[p][k]
  {}

  lemma ChildClosed(f: Filing, p: Place, k: string)
    requires UpClosed(f) && p in f
    ensures UpClosed(f[Child(p, k) := []])
  {}

  lemma NoRoomNeeded(f: Filing, p: Place)
    requires Above(p) <= f.Keys
    ensures MadeRoom(f, f, p)
  {}

  lemma RoomForChild(f: Filing, p: Place, k: string)
    requires Above(p) <= f.Keys
    ensures Child(p, k) in f ==> MadeRoom(f, f, Child(p, k))
    ensures Child(p, k) !in f ==> MadeRoom(f, f[Child(p, k) := []], Child(p, k))
    ensures Above(Child(p, k)) == Above(p) + {Child(p, k)}
  {}

  lemma RoomAgain(f: Filing, g: Filing, h: Filing, p: Place, q: Place)
    requires MadeRoom(f, g, p) && MadeRoom(g, h, q) && Under(p, q)
    ensures MadeRoom(f, h, q)
  {
    hide Above;
    forall r | r in Above(p) ensures r in Above(q) {
      AboveIffUnder(r, p);
      UnderTransitive(r, p, q);
      AboveIffUnder(r, q);
    }
  }

  /** Everything about the trie but what its nodes hold. */
  datatype Trie = Trie(
    at: map<Place, VfsNode>,
    kids: map<Place, map<string, VfsNode>>,
    files: Filing,
    repr: set<VfsNode>,
    depth: nat)

  ghost predicate Shaped(t: Trie, root: VfsNode) {
    && Root in t.at && t.at[Root] == root
    && Linked(t.at, t.kids) && t.files.Keys == t.at.Keys && UpClosed(t.files) && DepthBound(t.files, t.depth)
    && forall p :: p in t.at ==> t.at[p] in t.repr
  }

  lemma ShapedFacts(t: Trie, root: VfsNode, p: Place)
    requires Shaped(t, root) && p in t.at
    ensures t.kids.Keys == t.at.Keys == t.files.Keys && Root in t.at && t.at[Root] == root && t.at[p] in t.repr
    ensures forall q :: q in t.at && q != p ==> t.at[q] != t.at[p]
    ensures forall k :: k in t.kids[p] <==> Child(p, k) in t.at
    ensures forall k :: k in t.kids[p] ==> t.at[Child(p, k)] == t.kids[p][k]
    ensures UpClosed(t.files) && |Segments(p)| <= t.depth
  {
    hide UpClosed;
  }

  /** The trie with one more node. */
  ghost function WithChild(t: Trie, p: Place, k: string, child: VfsNode): Trie
    requires p in t.kids
  {
    var c := Child(p, k);
    t.(at := t.at[c := child], kids := t.kids[p := t.kids[p][k := child]][c := map[]],
       files := t.files[c := []], repr := t.repr + {child})
  }

  /** Node by node, what one more child changes. */
  lemma WithChildAt(t: Trie, p: Place, k: string, child: VfsNode)
    requires p in t.at && t.kids.Keys == t.at.Keys == t.files.Keys && Child(p, k) !in t.at
    ensures
      var u := WithChild(t, p, k, child);
      && (forall q :: q in u.at <==> q in t.at || q == Child(p, k))
      && u.repr == t.repr + {child} && u.depth == t.depth
      && u.at == t.at[Child(p, k) := child] && u.files == t.files[Child(p, k) := []]
      && u.at[Child(p, k)] == child && u.kids[Child(p, k)] == map[] && u.files[Child(p, k)] == []
      && u.at[p] == t.at[p] && u.kids[p] == t.kids[p][k := child] && u.files[p] == t.files[p]
      && (forall q :: q in t.at && q != p ==> u.at[q] == t.at[q] && u.kids[q] == t.kids[q] && u.files[q] == t.files[q])
  {}

  lemma WithChildShaped(t: Trie, root: VfsNode, p: Place, k: string, child: VfsNode)
    requires Shaped(t, root) && p in t.at && k !in t.kids[p] && |Segments(p)| < t.depth
    requires forall q :: q in t.at ==> t.at[q] != child
    ensures Shaped(WithChild(t, p, k, child), root) && Child(p, k) !in t.at && Child(p, k) != p
  {
    hide Linked, UpClosed, DepthBound, Segments;
    LinkFacts(t.at, t.kids, p);
    LinkChild(t.at, t.kids, p, k, child);
    ChildClosed(t.files, p, k);
    DepthFacts(t.files, p, k, t.depth);
  }

  lemma WithFilesShaped(t: Trie, root: VfsNode, f: Filing, depth: nat)
    requires Shaped(t, root) && f.Keys == t.files.Keys && depth >= t.depth
    ensures Shaped(t.(files := f, depth := depth), root)
  {
    hide Linked;
  }

  datatype AddOutcome = Filed | Conflict(first: Set, second: Set)

  class VFS {
    const root: VfsNode
    ghost var t: Trie
    ghost var stored: set<VFSEntry>

    /** The nodes hold what the trie says. */
    ghost predicate Synced()
      requires t.kids.Keys == t.at.Keys == t.files.Keys && forall p :: p in t.at ==> t.at[p] in t.repr
      reads this, t.repr
    {
      forall p :: p in t.at ==> t.at[p].Holds(t.kids[p], t.files[p])
    }

    ghost predicate Shape()
      reads this, t.repr
    {
      Shaped(t, root) && Synced()
    }

    ghost predicate Valid()
      reads this, t.repr
    {
      Shape() && Placed(t.files, stored)
    }

    /** All keys are of the two shapes that are kept apart. */
    ghost predicate Tidy()
      reads this, t.repr
    {
      Valid() && WellFiled(t.files, stored)
    }

    constructor ()
      ensures Tidy() && stored == {} && fresh(t.repr)
    {
      var r := new VfsNode(null);
      root := r;
      t := Trie(map[Root := r], map[Root := map[]], map[Root := []], {r}, 0);
      stored := {};
    }

    /** What a node at a known place holds. */
    lemma NodeFacts(p: Place)
      requires Shape() && p in t.at
      ensures t.kids.Keys == t.at.Keys == t.files.Keys && t.at[p] in t.repr
      ensures t.at[p].parent == null && t.at[p].children == t.kids[p] && t.at[p].ents == t.files[p]
    {
      hide Shaped;
      ShapedFacts(t, root, p);
      assert t.at[p].Holds(t.kids[p], t.files[p]);
    }

    lemma ClosedFiles()
      requires Valid()
      ensures UpClosed(t.files)
    {}

    // ----- descending -----

    /** The deepest existing node on the way down `rest`. */
    method Closest(n: VfsNode, ghost p: Place, rest: seq<string>) returns (m: VfsNode, ghost q: Place)
      requires Shape() && p in t.at && t.at[p] == n
      ensures Under(q, Extend(p, rest)) && q in t.at && t.at[q] == m
      ensures q == Extend(p, rest) || Toward(q, Extend(p, rest)) !in t.at
      decreases |rest|
    {
      hide Shaped, Synced, Under, Segments;
      ShapedFacts(t, root, p);
      NodeFacts(p);
      ExtendSegments(p, rest);
      if |rest| == 0 || rest[0] !in n.children {
        m, q := n, p;
        if |rest| > 0 {
          ExtendSegments(Child(p, rest[0]), rest[1..]);
          TowardUnique(p, rest[0], Extend(p, rest));
        }
      } else {
        m, q := Closest(n.children[rest[0]], Child(p, rest[0]), rest[1..]);
      }
    }

    /** Creates the child of a node; it inherits the node's own parent pointer. */
    method AddChild(n: VfsNode, ghost p: Place, k: string)
      requires Shape() && p in t.at && t.at[p] == n && k !in n.children && |Segments(p)| < t.depth
      modifies this`t, n
      ensures Shape() && p in old(t).kids && k in n.children && fresh(n.children[k])
      ensures t == WithChild(old(t), p, k, n.children[k]) && t.at == old(t).at[Child(p, k) := n.children[k]]
      ensures t.files == old(t).files[Child(p, k) := []] && t.repr == old(t).repr + {n.children[k]} && t.depth == old(t).depth
    {
      hide Shaped, Segments, WithChild;
      ShapedFacts(t, root, p);
      NodeFacts(p);
      ghost var was := t;
      var child := new VfsNode(n.parent);
      WithChildShaped(t, root, p, k, child);
      WithChildAt(t, p, k, child);
      n.children := n.children[k := child];
      t := WithChild(t, p, k, child);
      ShapedFacts(t, root, p);
      forall q | q in t.at ensures t.at[q].Holds(t.kids[q], t.files[q]) {
        if q in was.at && q != p { assert old(t.at[q].Holds(t.kids[q], t.files[q])); }
      }
    }

    /** Descends `rest`, creating what is missing. */
    method MakeRoom(n: VfsNode, ghost p: Place, rest: seq<string>) returns (m: VfsNode)
      requires Shape() && p in t.at && t.at[p] == n && |Segments(p)| + |rest| <= t.depth && Above(p) <= t.files.Keys
      modifies this`t, t.repr
      ensures Shape() && MadeRoom(old(t).files, t.files, Extend(p, rest))
      ensures Extend(p, rest) in t.at && t.at[Extend(p, rest)] == m && m in t.repr
      ensures fresh(t.repr - old(t.repr))
      decreases |rest|
    {
      hide Shaped, Synced, MadeRoom, Above, Under, Segments, WithChild;
      ShapedFacts(t, root, p);
      NodeFacts(p);
      if |rest| == 0 {
        NoRoomNeeded(t.files, p);
        return n;
      }
      var k := rest[0];
      ghost var before, q := t.files, Child(p, k);
      RoomForChild(t.files, p, k);
      ChildLength(p, k);
      if k !in n.children { AddChild(n, p, k); }
      ghost var mid := t.files;
      ShapedFacts(t, root, p);
      NodeFacts(p);
      m := MakeRoom(n.children[k], q, rest[1..]);
      ExtendSegments(q, rest[1..]);
      RoomAgain(before, mid, t.files, q, Extend(p, rest));
    }

    // ----- collecting -----

    /** The entries of a subtree that intersect k, each once if no node holds one twice, in whatever order
        children are visited. */
    method Collect(n: VfsNode, ghost p: Place, k: Set) returns (ret: seq<VFSEntry>)
      requires Valid() && p in t.at && t.at[p] == n
      ensures Distinct(t.files) ==> NoRepeats(ret)
      ensures forall e :: e in ret <==> Found(t.files, e, p, k)
      decreases t.depth - |Segments(p)|, 1
    {
      hide Intersects, Placed, NoRepeats, FoundBelow, Found, Shaped, Synced, Segments, Distinct;
      ShapedFacts(t, root, p);
      NodeFacts(p);
      var below := CollectChildren(n, p, k);
      var own := CollectOwn(n, p, k);
      forall e | e in below ensures e !in own {
        ChildNotOwn(t.files, stored, e, p, n.children.Keys, k);
      }
      if Distinct(t.files) { NoRepeatsConcat(below, own); }
      forall e ensures e in below + own <==> Found(t.files, e, p, k) {
        FoundIff(t.files, e, p, n.children.Keys, k);
      }
      ret := below + own;
    }

    method CollectOwn(n: VfsNode, ghost p: Place, k: Set) returns (own: seq<VFSEntry>)
      requires Valid() && p in t.at && t.at[p] == n
      ensures Distinct(t.files) ==> NoRepeats(own)
      ensures forall e :: e in own <==> EntryAt(t.files, e, p) && Intersects(e.key, k)
    {
      hide Intersects, Placed, Shaped, Synced, Picked, NoRepeats;
      ShapedFacts(t, root, p);
      NodeFacts(p);
      own := [];
      PickedNone(n.ents, k);
      var i := 0;
      while i < |n.ents|
        invariant 0 <= i <= |n.ents|
        invariant Picked(n.ents, i, k, own)
      {
        PickedNext(n.ents, i, k, own);
        if Intersects(n.ents[i].key, k) { own := own + [n.ents[i]]; }
        i := i + 1;
      }
      PickedAll(n.ents, k, own);
    }

    method CollectChildren(n: VfsNode, ghost p: Place, k: Set) returns (ret: seq<VFSEntry>)
      requires Valid() && p in t.at && t.at[p] == n
      ensures Distinct(t.files) ==> NoRepeats(ret)
      ensures forall e :: e in ret <==> FoundBelow(t.files, e, p, n.children.Keys, k)
      decreases t.depth - |Segments(p)|, 0
    {
      hide Intersects, Placed, NoRepeats, FoundBelow, Found, Shaped, Synced, Segments, Distinct;
      ShapedFacts(t, root, p);
      NodeFacts(p);
      ret := [];
      var pending := n.children.Keys;
      NothingBelow(t.files, p, k);
      assert n.children.Keys - pending == {};
      while pending != {}
        invariant pending <= n.children.Keys && (Distinct(t.files) ==> NoRepeats(ret))
        invariant forall e :: e in ret <==> FoundBelow(t.files, e, p, n.children.Keys - pending, k)
      {
        var c :| c in pending;
        ShapedFacts(t, root, Child(p, c));
        ChildLength(p, c);
        var sub := Collect(n.children[c], Child(p, c), k);
        JoinChild(t.files, stored, ret, sub, p, n.children.Keys - pending, c, k);
        assert n.children.Keys - (pending - {c}) == (n.children.Keys - pending) + {c};
        ret := ret + sub;
        pending := pending - {c};
      }
      assert n.children.Keys - pending == n.children.Keys;
    }

    // ----- the public operations -----

    /** What is filed at or below the deepest existing node on the way to the query's bounding prefix and
        intersects the query; the walk from there to the root adds nothing.  In a tidy index and for an
        anchored query that is what a scan over all entries would find. */
    method Get(k: Set, depth: nat) returns (ret: seq<VFSEntry>, ghost c: Place)
      requires Valid() && BoundingPrefix(k, depth).Bounded?
      ensures StartsAt(t.files, k, depth, c)
      ensures forall e :: e in ret <==> Found(t.files, e, c, k)
      ensures forall e :: e in ret <==> e in stored && FiledBelow(e.key, c) && Intersects(e.key, k)
      ensures Distinct(t.files) ==> NoRepeats(ret)
      ensures Tidy() ==> NoRepeats(ret)
      ensures forall p, e :: Tidy() && Anchored(k, depth, p) && e in stored && Meet(e.key, k) ==> e in ret
      ensures forall p, e :: Tidy() && Anchored(k, depth, p) && Sharp(k) ==> (e in ret <==> e in stored && Meet(e.key, k))
    {
      hide Intersects, WellFiled, Placed, Found, KeyAt, NoRepeats, Meet, FiledUnder, Synced, UpClosed, Linked, DepthBound, Under, Anchored, Sharp, Distinct, FiledBelow;
      var n;
      n, c := Closest(root, Root, FiledUnder(k, depth));
      ret := Collect(n, c, k);
      assert n.parent == null by { NodeFacts(c); }
      forall e ensures Found(t.files, e, c, k) <==> e in stored && FiledBelow(e.key, c) && Intersects(e.key, k) {
        FoundIsStored(t.files, stored, e, c, k);
      }
      if Tidy() {
        TidyDistinct(t.files, stored);
        forall p, e | Anchored(k, depth, p) && e in stored && Meet(e.key, k) ensures e in ret {
          MeetIsFound(t.files, stored, k, depth, p, c, e);
        }
        if Sharp(k) {
          forall e | e in ret ensures Meet(e.key, k) { StoredSharp(t.files, stored, e, k); }
        }
      }
    }

    /** Files the entry, unless it intersects one that is filed at or below where the search for its key
        starts.  In a tidy index, a key of either shape is filed if and only if no stored key meets it, and
        the index stays tidy. */
    method Add(x: VFSEntry, depth: nat) returns (r: AddOutcome, ghost c: Place)
      requires Valid() && BoundingPrefix(x.key, depth).Bounded?
      modifies this, t.repr
      ensures Valid() && fresh(t.repr - old(t.repr))
      ensures StartsAt(old(t.files), x.key, depth, c)
      ensures r.Filed? <==> forall e :: e in old(stored) && FiledBelow(e.key, c) ==> !Intersects(e.key, x.key)
      ensures stored == if r.Filed? then old(stored) + {x} else old(stored)
      ensures r.Conflict? ==> r.second == x.key && exists e :: e in stored && e.key == r.first && Intersects(e.key, x.key)
      ensures old(t.files).Keys <= t.files.Keys
      ensures r.Filed? ==> forall p :: FiledAt(x.key, p) ==> Above(p) <= t.files.Keys
      ensures forall p :: old(Tidy()) && KeyAt(x.key, p) ==>
                Tidy() && (r.Filed? <==> forall e :: e in old(stored) ==> !Meet(e.key, x.key))
      ensures forall p :: old(Tidy()) && KeyAt(x.key, p) && r.Conflict? ==>
                exists e :: e in stored && e.key == r.first && Meet(e.key, x.key)
    {
      hide WellFiled, Placed, KeyAt, Meet, FiledUnder, NoRepeats, Shape, Anchored, Sharp, StartsAt, Found, Intersects, FiledBelow, FiledAt, Distinct, Above, KeysInPlace;
      var ents;
      ents, c := Get(x.key, depth);
      if p :| Tidy() && KeyAt(x.key, p) {
        KeyAnchored(x.key, p);
        SameDepth(x.key, depth, p);
      }
      if |ents| > 0 {
        assert ents[0] in ents;
        return Conflict(ents[0].key, x.key), c;
      }
      File(x, depth);
      return Filed, c;
    }

    method File(x: VFSEntry, depth: nat)
      requires Valid() && BoundingPrefix(x.key, depth).Bounded?
      modifies this, t.repr
      ensures Valid() && stored == old(stored) + {x} && fresh(t.repr - old(t.repr))
      ensures old(t.files).Keys <= t.files.Keys && forall p :: FiledAt(x.key, p) ==> Above(p) <= t.files.Keys
      ensures forall p :: old(Tidy()) && KeyAt(x.key, p) && (forall e :: e in old(stored) ==> !Meet(e.key, x.key)) ==> Tidy()
    {
      hide WellFiled, Placed, KeyAt, Meet, FiledUnder, Free, MadeRoom, Shape, Segments, FiledAt, Extend, Above, FiledOnce, BoundingPrefix;
      ghost var p := Extend(Root, FiledUnder(x.key, depth));
      FiledHere(x.key, depth);
      ghost var before, was := t.files, stored;
      Deepen(p, x);
      RootFacts(t.files);
      PlaceLength(x.key, depth);
      var n := MakeRoom(root, Root, FiledUnder(x.key, depth));
      ghost var room := t.files;
      RoomThere(before, room, p);
      PutEntry(n, p, x);
      OnceFiled(before, room, t.files, x, p);
      FilePlaced(before, t.files, was, x, p);
      forall q | FiledAt(x.key, q) ensures Above(q) <= t.files.Keys { FiledAtUnique(x.key, p, q); }
      if q :| WellFiled(before, was) && KeyAt(x.key, q) && forall e :: e in was ==> !Meet(e.key, x.key) {
        KeyFiledAt(x.key, q);
        FiledAtUnique(x.key, p, q);
        FileTidy(before, t.files, was, x, p);
      }
    }

    /** Ghost bookkeeping before an entry is filed. */
    ghost method Deepen(p: Place, x: VFSEntry)
      requires Shape()
      modifies this
      ensures Shape() && t == old(t).(depth := t.depth) && t.depth >= |Segments(p)| && stored == old(stored) + {x}
      ensures Root in t.files && Root in t.at && t.at[Root] == root
    {
      hide Linked, UpClosed, DepthBound, Segments;
      ghost var d := if |Segments(p)| > t.depth then |Segments(p)| else t.depth;
      WithFilesShaped(t, root, t.files, d);
      t := t.(depth := d);
      stored := stored + {x};
    }

    method PutEntry(n: VfsNode, ghost p: Place, x: VFSEntry)
      requires Shape() && p in t.at && t.at[p] == n && p in t.files
      modifies this`t, n
      ensures Shape() && t == old(t).(files := old(t).files[p := old(t).files[p] + [x]])
    {
      hide Shaped;
      ShapedFacts(t, root, p);
      NodeFacts(p);
      ghost var more := t.files[p := t.files[p] + [x]];
      WithFilesShaped(t, root, more, t.depth);
      n.ents := n.ents + [x];
      t := t.(files := more);
      ShapedFacts(t, root, p);
      forall q | q in t.at ensures t.at[q].Holds(t.kids[q], t.files[q]) {
        if q != p { assert old(t.at[q].Holds(t.kids[q], t.files[q])); }
      }
    }
  }

  /** The entries among the first i that intersect k, each once if no entry is there twice. */
  ghost predicate Picked(es: seq<VFSEntry>, i: nat, k: Set, own: seq<VFSEntry>) {
    && i <= |es|
    && (forall e :: e in own <==> e in es[..i] && Intersects(e.key, k))
    && (NoRepeats(es) ==> NoRepeats(own))
  }

  lemma PickedNone(es: seq<VFSEntry>, k: Set)
    ensures Picked(es, 0, k, [])
  {}

  lemma PickedNext(es: seq<VFSEntry>, i: nat, k: Set, own: seq<VFSEntry>)
    requires Picked(es, i, k, own) && i < |es|
    ensures Picked(es, i + 1, k, if Intersects(es[i].key, k) then own + [es[i]] else own)
  {
    hide Intersects;
    assert es[..i + 1] == es[..i] + [es[i]];
    if NoRepeats(es) {
      assert es[i] !in es[..i];
      NoRepeatsConcat(own, [es[i]]);
    }
  }

  lemma PickedAll(es: seq<VFSEntry>, k: Set, own: seq<VFSEntry>)
    requires Picked(es, |es|, k, own)
    ensures (forall e :: e in own <==> e in es && Intersects(e.key, k)) && (NoRepeats(es) ==> NoRepeats(own))
  {
    hide Intersects;
    assert es[..|es|] == es;
  }

  lemma TidyDistinct(f: Filing, stored: set<VFSEntry>)
    requires WellFiled(f, stored)
    ensures Distinct(f)
  {
    hide KeyAt;
    KeysArePlaced(f, stored);
  }

  /** A key's anchor does not depend on the depth at which its bound is found. */
  lemma SameDepth(k: Set, depth: nat, p: Place)
    requires BoundingPrefix(k, depth).Bounded? && Anchored(k, KEY_DEPTH, p) && KeyAt(k, p)
    ensures Anchored(k, depth, p)
  {
    hide BoundingPrefix, KeyAt, Subsumes;
    KeyBounded(k, p);
    if depth <= KEY_DEPTH { BudgetIrrelevant(k, depth, KEY_DEPTH); } else { BudgetIrrelevant(k, KEY_DEPTH, depth); }
  }

  lemma FiledHere(k: Set, depth: nat)
    requires BoundingPrefix(k, depth).Bounded?
    ensures FiledAt(k, Extend(Root, FiledUnder(k, depth)))
  {}

  lemma PlaceLength(k: Set, depth: nat)
    ensures |Segments(Extend(Root, FiledUnder(k, depth)))| == |FiledUnder(k, depth)|
  {
    hide FiledUnder;
    ExtendSegments(Root, FiledUnder(k, depth));
  }

  lemma RoomThere(f: Filing, f': Filing, p: Place)
    requires MadeRoom(f, f', p)
    ensures p in f' && f.Keys <= f'.Keys && Above(p) <= f'.Keys
  {
    assert p in Above(p);
  }

  /** Room was made for a place, and the entry put there. */
  ghost predicate FiledOnce(f: Filing, g: Filing, x: VFSEntry, p: Place) {
    exists f' :: MadeRoom(f, f', p) && p in f' && g == f'[p := f'[p] + [x]]
  }

  lemma OnceFiled(f: Filing, f': Filing, g: Filing, x: VFSEntry, p: Place)
    requires MadeRoom(f, f', p) && p in f' && g == f'[p := f'[p] + [x]]
    ensures FiledOnce(f, g, x, p)
  {}

  lemma FilePlaced(f: Filing, g: Filing, stored: set<VFSEntry>, x: VFSEntry, p: Place)
    requires Placed(f, stored) && FiledAt(x.key, p) && FiledOnce(f, g, x, p)
    ensures Placed(g, stored + {x})
  {
    hide FiledAt, Above;
    var f' :| MadeRoom(f, f', p) && p in f' && g == f'[p := f'[p] + [x]];
    assert x in g[p];
    forall e, q | EntryAt(g, e, q) ensures FiledAt(e.key, q) && e in stored + {x} {
      if !(e == x && q == p) { assert EntryAt(f', e, q) && EntryAt(f, e, q); }
    }
    forall e | e in stored + {x} ensures exists q :: EntryAt(g, e, q) {
      if e == x {
        assert EntryAt(g, x, p);
      } else {
        var q :| EntryAt(f, e, q);
        assert EntryAt(g, e, q);
      }
    }
  }

  lemma FileTidy(f: Filing, g: Filing, stored: set<VFSEntry>, x: VFSEntry, p: Place)
    requires WellFiled(f, stored) && KeyAt(x.key, p) && FiledOnce(f, g, x, p)
    requires forall e :: e in stored ==> !Meet(e.key, x.key)
    ensures WellFiled(g, stored + {x})
  {
    hide KeyAt, Meet, Above, Free, WellFiled, MadeRoom;
    var f' :| MadeRoom(f, f', p) && p in f' && g == f'[p := f'[p] + [x]];
    ClosedAndFree(f, stored, x, p);
    FileOne(f, f', stored, x, p);
    assert f'[p] + [x] == [x];
  }

  lemma ClosedAndFree(f: Filing, stored: set<VFSEntry>, x: VFSEntry, p: Place)
    requires WellFiled(f, stored) && KeyAt(x.key, p) && forall e :: e in stored ==> !Meet(e.key, x.key)
    ensures Free(f, x, p)
  {
    hide KeyAt, Meet, Free;
    NoOverlaps(f, stored, x, p);
  }

  lemma ChildLength(p: Place, k: string)
    ensures |Segments(Child(p, k))| == |Segments(p)| + 1
  {}

  lemma RootFacts(f: Filing)
    requires Root in f
    ensures Above(Root) <= f.Keys && Segments(Root) == []
  {}

  lemma ChildNotOwn(f: Filing, stored: set<VFSEntry>, e: VFSEntry, p: Place, cs: set<string>, k: Set)
    requires Placed(f, stored) && FoundBelow(f, e, p, cs, k)
    ensures !EntryAt(f, e, p)
  {
    hide Placed, Found, EntryAt;
    var c :| c in cs && Found(f, e, Child(p, c), k);
    OwnApart(f, stored, e, p, c, k);
  }

  lemma JoinChild(f: Filing, stored: set<VFSEntry>, ret: seq<VFSEntry>, sub: seq<VFSEntry>, p: Place, cs: set<string>, c: string, k: Set)
    requires Placed(f, stored) && c !in cs
    requires forall e :: e in ret <==> FoundBelow(f, e, p, cs, k)
    requires forall e :: e in sub <==> Found(f, e, Child(p, c), k)
    ensures NoRepeats(ret) && NoRepeats(sub) ==> NoRepeats(ret + sub)
    ensures forall e :: e in ret + sub <==> FoundBelow(f, e, p, cs + {c}, k)
  {
    hide Placed, NoRepeats, Found;
    forall e | e in ret ensures e !in sub {
      var d :| d in cs && Found(f, e, Child(p, d), k);
      if Found(f, e, Child(p, c), k) { SubtreesApart(f, stored, e, p, c, d, k); }
    }
    if NoRepeats(ret) && NoRepeats(sub) { NoRepeatsConcat(ret, sub); }
  }

  // ----- an index that holds a conflict -----

  /** Two files and the pair that conflicts with the second. */
  lemma MissSetup(a: Place, x: string, q: string, s: string, y: string)
    requires a.Child? && Paths.IsPath(Segments(a)) && Segment(x) && Segment(q) && Segment(s) && Segment(y)
    requires x[0] != y[0] && q != s
    ensures
      var first, second := FileKey(Segments(a) + [x, q]), FileKey(Segments(a) + [x, s]);
      var pair := PairKey(Join(Segments(a) + [x, s]), Join(Segments(a) + [y]));
      !Intersects(first, pair) && !Intersects(first, second)
  {
    hide Join, Intersects;
    var d := Segments(a);
    var u, v, w := Join(d + [x, s]), Join(d + [y]), Join(d + [x, q]);
    assert (d + [x, s])[|d| + 1] == s && (d + [x, q])[|d| + 1] == q;
    assert |d + [y]| == |d| + 1 && |d + [x, q]| == |d| + 2;
    JoinDiffers(d + [x, s], d + [x, q]);
    JoinDiffers(d + [y], d + [x, q]);
    UnitMissesPair(w, u, v);
  }

  lemma JoinDiffers(p: seq<string>, q: seq<string>)
    requires Paths.IsPath(p) && Paths.IsPath(q) && p != q
    ensures Join(p) != Join(q)
  {
    if Join(p) == Join(q) { JoinInjective(p, q); }
  }

  lemma UnitMissesPair(w: string, u: string, v: string)
    requires w != u && w != v
    ensures !Intersects(Unit(w), PairKey(u, v)) && !Intersects(Unit(w), Unit(u))
  {
    assert TryIntersects(Unit(w), Unit(u)) == OwnIntersects(Unit(w), Unit(u)) == Just(false);
    assert TryIntersects(Unit(u), Unit(w)) == OwnIntersects(Unit(u), Unit(w)) == Just(false);
    assert TryIntersects(Unit(v), Unit(w)) == OwnIntersects(Unit(v), Unit(w)) == Just(false);
    assert OwnIntersects(PairKey(u, v), Unit(w)) == Just(false);
    assert TryIntersects(Unit(w), PairKey(u, v)) == Just(false);
  }

  /** A file below a subdirectory, a statement for a pair of paths that the guard lets through in the
      directory and above it, and another file that the pair contains: all three are accepted. */
  method MissConflict(a: Place, x: string, q: string, s: string, y: string, e: Expr) returns (r1: AddOutcome, r2: AddOutcome, r3: AddOutcome)
    requires a.Child? && Paths.IsPath(Segments(a)) && Segment(x) && Segment(q) && Segment(s) && Segment(y)
    requires x[0] != y[0] && q != s
    ensures r1 == r2 == r3 == Filed
    ensures
      var pair := PairKey(Join(Segments(a) + [x, s]), Join(Segments(a) + [y]));
      && Meet(pair, FileKey(Segments(a) + [x, s]))
      && Superset(Prefix(""), pair) && Superset(Prefix(Join(Segments(a)) + "/"), pair)
  {
    hide Intersects, Superset, Join, Meet, KeyAt, FiledAt, StartsAt, Above, BoundingPrefix, Under, VFS.Shape, Placed, WellFiled, FiledBelow;
    var first := VFSEntry(FileKey(Segments(a) + [x, q]), e, "");
    var pair := VFSEntry(PairKey(Join(Segments(a) + [x, s]), Join(Segments(a) + [y])), e, "");
    var second := VFSEntry(FileKey(Segments(a) + [x, s]), e, "");
    MissSetup(a, x, q, s, y);
    FilePlace(a, x, q);
    FilePlace(a, x, s);
    PairFiledAt(a, x, s, y);
    PairPasses(a, x, s, y);
    PairMeets(pair.key.l.unit, pair.key.r.unit);
    FileBounds(a, x, q);
    FileBounds(a, x, s);
    var v := new VFS();
    ghost var c: Place;
    r1, c := v.Add(first, KEY_DEPTH);
    r2, c := v.Add(pair, 2);
    assert v.stored == {first, pair};
    v.ClosedFiles();
    ghost var files := v.t.files;
    r3, c := v.Add(second, KEY_DEPTH);
    PairNotBelow(files, pair.key, second.key, a, x, s, c);
  }

  /** The way to a file two levels down passes through its directory. */
  lemma FileBounds(a: Place, x: string, s: string)
    requires a.Child? && Paths.IsPath(Segments(a)) && Segment(x) && Segment(s)
    ensures
      var k, p := FileKey(Segments(a) + [x, s]), Child(Child(a, x), s);
      BoundingPrefix(k, KEY_DEPTH).Bounded? && FiledAt(k, p) && Child(a, x) in Above(p) && a in Above(p)
  {
    hide Join, BoundingPrefix, Above;
    FilePlace(a, x, s);
    var k, p := FileKey(Segments(a) + [x, s]), Child(Child(a, x), s);
    KeyBounded(k, p);
    KeyFiledAt(k, p);
    AboveIffUnder(Child(a, x), p);
    AboveIffUnder(a, p);
  }

  lemma PairPasses(a: Place, x: string, s: string, y: string)
    requires a.Child? && Paths.IsPath(Segments(a)) && Segment(x) && Segment(s) && Segment(y)
    ensures
      var pair := PairKey(Join(Segments(a) + [x, s]), Join(Segments(a) + [y]));
      Superset(Prefix(""), pair) && Superset(Prefix(Join(Segments(a)) + "/"), pair)
  {
    hide Superset, Join;
    var d := Segments(a);
    var u, v := Join(d + [x, s]), Join(d + [y]);
    JoinConcat(d, [x, s]);
    JoinConcat(d, [y]);
    var j := Join(d) + "/";
    assert u[..|j|] == j == v[..|j|];
    GuardOnPair("", u, v);
    GuardOnPair(j, u, v);
  }

  /** The search for the second file starts below the directory, where the pair is filed. */
  lemma PairNotBelow(f: Filing, pair: Set, k: Set, a: Place, x: string, s: string, c: Place)
    requires a.Child? && Paths.IsPath(Segments(a)) && Segment(x) && Segment(s) && FiledAt(pair, a)
    requires k == FileKey(Segments(a) + [x, s]) && StartsAt(f, k, KEY_DEPTH, c)
    requires Child(a, x) in f && a in f && UpClosed(f)
    ensures !FiledBelow(pair, c)
  {
    hide Join, FiledAt, StartsAt, FiledUnder, Above;
    FilePlace(a, x, s);
    StartsBelow(f, k, a, x, s, c);
    forall q | FiledAt(pair, q) ensures !Under(c, q) {
      FiledAtUnique(pair, a, q);
    }
  }

  lemma StartsBelow(f: Filing, k: Set, a: Place, x: string, s: string, c: Place)
    requires a.Child? && Paths.IsPath(Segments(a)) && Segment(x) && Segment(s)
    requires k == FileKey(Segments(a) + [x, s]) && StartsAt(f, k, KEY_DEPTH, c)
    requires Child(a, x) in f && a in f && UpClosed(f)
    ensures !Under(c, a)
  {
    hide Join, FiledUnder, UpClosed;
    FilePlace(a, x, s);
    StartsAtOrAboveIff(f, a, Child(Child(a, x), s), c);
  }
}
