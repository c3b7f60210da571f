/** Slash-separated paths, and the two shapes of path set that files and expression files occupy. */
module Paths {
  import opened StringSets
  import opened Simplify
  import opened BoundingPrefixes

  // ----- splitting and joining -----

  predicate Segment(s: string) {
    s != "" && '/' !in s
  }

  predicate IsPath(p: seq<string>) {
    p != [] && forall i :: 0 <= i < |p| ==> Segment(p[i])
  }

  function Join(p: seq<string>): string
    requires p != []
  {
    if |p| == 1 then p[0] else p[0] + "/" + Join(p[1..])
  }

  /** `acc` is the segment read so far. */
  function SplitFrom(s: string, acc: string): seq<string>
    decreases |s|
  {
    if s == "" then [acc]
    else if s[0] == '/' then [acc] + SplitFrom(s[1..], "")
    else SplitFrom(s[1..], acc + [s[0]])
  }

  function Split(s: string): seq<string> {
    SplitFrom(s, "")
  }

  function TrimLeft(s: string): string {
    if s != "" && s[0] == '/' then TrimLeft(s[1..]) else s
  }

  function TrimRight(s: string): string {
    if s != "" && s[|s| - 1] == '/' then TrimRight(s[..|s| - 1]) else s
  }

  function Trim(s: string): string {
    TrimRight(TrimLeft(s))
  }

  lemma {:induction false} SplitSegment(seg: string, rest: string, acc: string)
    requires '/' !in seg
    ensures SplitFrom(seg + rest, acc) == SplitFrom(rest, acc + seg)
    decreases |seg|
  {
    if seg == "" {
      assert seg + rest == rest && acc + seg == acc;
    } else {
      assert (seg + rest)[1..] == seg[1..] + rest;
      assert (seg + rest)[0] == seg[0] && seg[0] in seg;
      SplitSegment(seg[1..], rest, acc + [seg[0]]);
      assert acc + [seg[0]] + seg[1..] == acc + seg;
    }
  }

  lemma {:induction false} SplitJoin(p: seq<string>)
    requires IsPath(p)
    ensures Split(Join(p)) == p
    decreases |p|
  {
    if |p| == 1 {
      assert p[0] + "" == p[0];
      SplitSegment(p[0], "", "");
      assert "" + p[0] == p[0];
    } else {
      var rest := "/" + Join(p[1..]);
      assert Join(p) == p[0] + rest;
      SplitSegment(p[0], rest, "");
      assert "" + p[0] == p[0];
      assert rest[1..] == Join(p[1..]);
      SplitJoin(p[1..]);
      assert p == [p[0]] + p[1..];
    }
  }

  lemma {:induction false} JoinEnds(p: seq<string>)
    requires IsPath(p)
    ensures Join(p) != "" && Join(p)[0] != '/' && Join(p)[|Join(p)| - 1] != '/'
    decreases |p|
  {
    assert p[0][0] in p[0] && p[0][|p[0]| - 1] in p[0];
    if |p| > 1 {
      JoinEnds(p[1..]);
      var s, t := Join(p), Join(p[1..]);
      assert s[|s| - 1] == t[|t| - 1];
    }
  }

  lemma NodePathOfJoin(p: seq<string>)
    requires IsPath(p)
    ensures Split(Trim(Join(p))) == p
  {
    JoinEnds(p);
    SplitJoin(p);
  }

  /** Distinct paths have distinct strings. */
  lemma JoinInjective(p: seq<string>, q: seq<string>)
    requires IsPath(p) && IsPath(q) && Join(p) == Join(q)
    ensures p == q
  {
    SplitJoin(p);
    SplitJoin(q);
  }

  lemma {:induction false} JoinConcat(p: seq<string>, q: seq<string>)
    requires p != [] && q != []
    ensures Join(p + q) == Join(p) + "/" + Join(q)
    decreases |p|
  {
    var pq := p + q;
    assert pq[1..] == p[1..] + q;
    if |p| == 1 {
      assert p[1..] + q == q;
    } else {
      JoinConcat(p[1..], q);
      assert Join(pq) == p[0] + "/" + (Join(p[1..]) + "/" + Join(q));
      assert Join(p) == p[0] + "/" + Join(p[1..]);
    }
  }

  /** Splitting distributes over a slash. */
  lemma {:induction false} SplitAtSlash(a: string, b: string, acc: string)
    ensures SplitFrom(a + "/" + b, acc) == SplitFrom(a, acc) + Split(b)
    decreases |a|
  {
    var s := a + "/" + b;
    if a == "" {
      assert s == "/" + b && s[1..] == b;
    } else {
      assert s[1..] == a[1..] + "/" + b;
      SplitAtSlash(a[1..], b, if a[0] == '/' then "" else acc + [a[0]]);
    }
  }

  /** A path string lies below another's directory exactly when the path strictly extends it. */
  lemma BelowIff(p: seq<string>, q: seq<string>)
    requires IsPath(p) && IsPath(q)
    ensures HasPrefix(Join(q), Join(p) + "/") <==> p < q
  {
    if p < q {
      assert q == p + q[|p|..];
      JoinConcat(p, q[|p|..]);
    }
    if HasPrefix(Join(q), Join(p) + "/") {
      var s, d := Join(q), Join(p) + "/";
      assert s == Join(p) + "/" + s[|d|..];
      SplitAtSlash(Join(p), s[|d|..], "");
      SplitJoin(p);
      SplitJoin(q);
      SplitNonempty(s[|d|..], "");
    }
  }

  lemma {:induction false} SplitNonempty(s: string, acc: string)
    ensures SplitFrom(s, acc) != []
    decreases |s|
  {
    if s != "" && s[0] != '/' { SplitNonempty(s[1..], acc + [s[0]]); }
  }

  // ----- the two key shapes -----

  /** A single file. */
  function FileKey(p: seq<string>): Set
    requires p != []
  {
    Unit(Join(p))
  }

  /** A file or directory together with everything below it. */
  function TreeKey(p: seq<string>): Set
    requires p != []
  {
    Or(Unit(Join(p)), Prefix(Join(p) + "/"))
  }

  predicate IsKey(k: Set, p: seq<string>) {
    IsPath(p) && (k == FileKey(p) || k == TreeKey(p))
  }

  predicate IsTree(k: Set) { k.Or? }

  /** A key's bounding prefix is its path. */
  lemma KeyBound(k: Set, p: seq<string>, depth: nat)
    requires IsKey(k, p) && depth >= 3
    ensures BoundingPrefix(k, depth) == Bounded(Join(p))
  {
    var s := Join(p);
    LiteralBoundIsLongest(k, depth, s);
    var b := BoundingPrefix(k, depth).prefix;
    assert Subsumes(Prefix(s), k) by { KeyStartsWithPath(k, p); }
    assert Contains(k, s);
    BoundingPrefixSound(k, depth, s);
    assert b == s;
  }

  lemma KeyMembers(k: Set, p: seq<string>, t: string)
    requires IsKey(k, p)
    ensures Contains(k, t) <==> t == Join(p) || (IsTree(k) && HasPrefix(t, Join(p) + "/"))
  {
    hide HasPrefix, Join;
    if IsTree(k) {
      assert Contains(k.l, t) <==> t == Join(p);
      assert Contains(k.r, t) <==> HasPrefix(t, Join(p) + "/");
    }
  }

  lemma KeyStartsWithPath(k: Set, p: seq<string>)
    requires IsKey(k, p)
    ensures Subsumes(Prefix(Join(p)), k)
  {
    var s := Join(p);
    forall t: string | Contains(k, t) ensures HasPrefix(t, s) {
      KeyMembers(k, p, t);
      if t != s {
        assert (s + "/")[..|s|] == s;
        PrefixTransitive(t, s + "/", s);
      }
    }
  }

  /** When two keys have a common member, in terms of their paths. */
  predicate KeysOverlap(k: Set, p: seq<string>, k': Set, p': seq<string>) {
    p == p' || (IsTree(k) && p < p') || (IsTree(k') && p' < p)
  }

  lemma ContainsPathIff(k: Set, p: seq<string>, q: seq<string>)
    requires IsKey(k, p) && IsPath(q)
    ensures Contains(k, Join(q)) <==> p == q || (IsTree(k) && p < q)
  {
    KeyMembers(k, p, Join(q));
    BelowIff(p, q);
    if Join(p) == Join(q) { JoinInjective(p, q); }
  }

  lemma OverlapMeets(k: Set, p: seq<string>, k': Set, p': seq<string>)
    requires IsKey(k, p) && IsKey(k', p') && KeysOverlap(k, p, k', p')
    ensures Meet(k, k')
  {
    var q := if p <= p' then p' else p;
    ContainsPathIff(k, p, q);
    ContainsPathIff(k', p', q);
    assert Contains(k, Join(q)) && Contains(k', Join(q));
  }

  /** On these shapes the three-valued procedure always answers. */
  lemma KeysDecided(k: Set, p: seq<string>, k': Set, p': seq<string>)
    requires IsKey(k, p) && IsKey(k', p')
    ensures TryIntersects(k, k').Just?
  {
    hide HasPrefix, Join;
    var u, u' := Unit(Join(p)), Unit(Join(p'));
    var f, f' := Prefix(Join(p) + "/"), Prefix(Join(p') + "/");
    assert TryIntersects(u, u').Just? && TryIntersects(u, f').Just?;
    assert TryIntersects(f, u').Just? && TryIntersects(f, f').Just?;
    assert TryIntersects(u', u).Just? && TryIntersects(f', u).Just?;
    assert TryIntersects(u', f).Just? && TryIntersects(f', f).Just?;
    if IsTree(k) && IsTree(k') {
      assert OwnIntersects(k', u).Just? && OwnIntersects(k', f).Just?;
      assert TryIntersects(u, k').Just? && TryIntersects(f, k').Just?;
    }
  }

  lemma KeyBranches(k: Set, p: seq<string>)
    requires IsKey(k, p)
    ensures NonemptyBranches(k)
  {
    assert Contains(Unit(Join(p)), Join(p)) && Contains(Prefix(Join(p) + "/"), Join(p) + "/");
    assert Contains(k, Join(p));
  }

  /** Disjoint paths give disjoint keys. */
  lemma MeetOverlaps(k: Set, p: seq<string>, k': Set, p': seq<string>)
    requires IsKey(k, p) && IsKey(k', p') && Meet(k, k')
    ensures KeysOverlap(k, p, k', p')
  {
    var s :| Contains(k, s) && Contains(k', s);
    KeyMembers(k, p, s);
    KeyMembers(k', p', s);
    if s == Join(p) {
      ContainsPathIff(k', p', p);
    } else if s == Join(p') {
      ContainsPathIff(k, p, p');
    } else {
      PrefixesComparable(s, Join(p) + "/", Join(p') + "/");
      if HasPrefix(Join(p') + "/", Join(p) + "/") { SlashedPrefixes(p, p'); } else { SlashedPrefixes(p', p); }
    }
  }

  lemma SlashedPrefixes(p: seq<string>, q: seq<string>)
    requires IsPath(p) && IsPath(q) && HasPrefix(Join(q) + "/", Join(p) + "/")
    ensures p <= q
  {
    var a, b := Join(p), Join(q);
    if |a| == |b| {
      assert a == (b + "/")[..|a|] == b;
      JoinInjective(p, q);
    } else {
      assert b[..|a| + 1] == (b + "/")[..|a| + 1] == a + "/";
      BelowIff(p, q);
    }
  }

  /** The public intersection test is exact on these shapes. */
  lemma KeysIntersectIff(k: Set, p: seq<string>, k': Set, p': seq<string>)
    requires IsKey(k, p) && IsKey(k', p')
    ensures Intersects(k, k') <==> KeysOverlap(k, p, k', p')
    ensures Intersects(k, k') <==> Meet(k, k')
  {
    KeysDecided(k, p, k', p');
    if Intersects(k, k') {
      KeyBranches(k, p);
      KeyBranches(k', p');
      IntersectsTrueMeets(k, k');
    } else {
      IntersectsFalseDisjoint(k, k');
    }
    if Meet(k, k') { MeetOverlaps(k, p, k', p'); }
    if KeysOverlap(k, p, k', p') { OverlapMeets(k, p, k', p'); }
  }
}
