/** Path-set terms, their membership, and the two mutually recursive three-valued
    procedures `intersects` and `superset` that the rewriter trusts.

    Only two of the four verdicts are sound for every pair of terms: `superset` answering
    true and `intersects` answering false. */
module StringSets {

  datatype Set =
    | Unit(unit: string)
    | Prefix(prefix: string)
    | Suffix(suffix: string)
    | And(l: Set, r: Set)
    | Or(l: Set, r: Set)
    | Not(x: Set)
    | Top
    | Empty

  /** A verdict that may be absent. */
  datatype Maybe = Nothing | Just(x: bool)

  predicate IsTrue(m: Maybe) { m == Just(true) }

  predicate IsFalse(m: Maybe) { m == Just(false) }

  predicate HasPrefix(s: string, p: string) {
    |p| <= |s| && s[..|p|] == p
  }

  predicate HasSuffix(s: string, x: string) {
    |x| <= |s| && s[|s| - |x|..] == x
  }

  /** Membership: what a term means. */
  predicate Contains(x: Set, s: string) {
    match x
    case Unit(u) => s == u
    case Prefix(p) => HasPrefix(s, p)
    case Suffix(e) => HasSuffix(s, e)
    case And(l, r) => Contains(l, s) && Contains(r, s)
    case Or(l, r) => Contains(l, s) || Contains(r, s)
    case Not(y) => !Contains(y, s)
    case Top => true
    case Empty => false
  }

  function Size(x: Set): nat {
    match x
    case And(l, r) => 1 + Size(l) + Size(r)
    case Or(l, r) => 1 + Size(l) + Size(r)
    case Not(y) => 1 + Size(y)
    case _ => 1
  }

  // ----- the three-valued procedures -----

  /** The dispatcher: ask `a`, and if it does not know, ask `b`. */
  function TryIntersects(a: Set, b: Set): Maybe
    decreases Size(a) + Size(b), 1
  {
    var v := OwnIntersects(a, b);
    if v.Just? then v else OwnIntersects(b, a)
  }

  /** The `intersects` method of the term `a`. */
  function OwnIntersects(a: Set, b: Set): Maybe
    decreases Size(a) + Size(b), 0
  {
    match a
    case Unit(u) => (match b
                     case Unit(v) => Just(u == v)
                     case _ => Nothing)
    case Prefix(p) => (match b
                       case Unit(v) => Just(HasPrefix(v, p))
                       case Prefix(q) => Just(HasPrefix(q, p) || HasPrefix(p, q))
                       case Suffix(_) => Just(true)
                       case _ => Nothing)
    case Suffix(e) => (match b
                       case Unit(v) => Just(HasSuffix(v, e))
                       case Prefix(_) => Just(true)
                       case Suffix(f) => Just(HasSuffix(f, e) || HasSuffix(e, f))
                       case _ => Nothing)
    case And(l, r) =>
      var li, ri := TryIntersects(l, b), TryIntersects(r, b);
      if IsFalse(li) || IsFalse(ri) then Just(false) else Nothing
    case Or(l, r) =>
      var li, ri := TryIntersects(l, b), TryIntersects(r, b);
      if IsTrue(li) || IsTrue(ri) then Just(true)
      else if IsFalse(li) && IsFalse(ri) then Just(false)
      else Nothing
    case Not(y) =>
      if IsTrue(TrySuperset(y, b)) then Just(false)
      else if IsFalse(TryIntersects(y, b)) then Just(true)
      else Nothing
    case Top => Just(true)
    case Empty => Just(false)
  }

  /** The `superset` method of the term `a`: does `a` contain `b`? */
  function TrySuperset(a: Set, b: Set): Maybe
    decreases Size(a) + Size(b), 0
  {
    match a
    case Unit(u) => (match b
                     case Empty => Just(true)
                     case Top => Just(false)
                     case Unit(v) => Just(u == v)
                     case _ => Nothing)
    case Prefix(p) => (match b
                       case Empty => Just(true)
                       case Top => Just(p == "")
                       case Unit(v) => Just(HasPrefix(v, p))
                       case Prefix(q) => Just(HasPrefix(q, p))
                       case Suffix(e) => Just(p == "" && e == "")
                       case _ => Nothing)
    case Suffix(e) => (match b
                       case Empty => Just(true)
                       case Top => Just(e == "")
                       case Unit(v) => Just(HasSuffix(v, e))
                       case Prefix(q) => Just(e == "" && q == "")
                       case Suffix(f) => Just(HasSuffix(f, e))
                       case _ => Nothing)
    case And(l, r) =>
      var ls, rs := TrySuperset(l, b), TrySuperset(r, b);
      if IsFalse(ls) || IsFalse(rs) then Just(false)
      else if IsTrue(ls) && IsTrue(rs) then Just(true)
      else Nothing
    case Or(l, r) =>
      var ls, rs := TrySuperset(l, b), TrySuperset(r, b);
      if IsTrue(ls) || IsTrue(rs) then Just(true)
      else if IsFalse(ls) && IsFalse(rs) then Just(false)
      else Nothing
    case Not(y) =>
      if IsTrue(TryIntersects(y, b)) then Just(false)
      else if IsFalse(TryIntersects(y, b)) then Just(true)
      else if IsTrue(TrySuperset(y, b)) then Just(false)
      else Nothing
    case Top => Just(true)
    case Empty => Just(b == Empty)
  }

  // ----- soundness of the two trusted polarities -----

  ghost predicate Disjoint(a: Set, b: Set) {
    forall s: string :: !(Contains(a, s) && Contains(b, s))
  }

  ghost predicate Subsumes(a: Set, b: Set) {
    forall s: string :: Contains(b, s) ==> Contains(a, s)
  }

  lemma PrefixTransitive(s: string, q: string, p: string)
    requires HasPrefix(s, q) && HasPrefix(q, p)
    ensures HasPrefix(s, p)
  {
    assert s[..|p|] == s[..|q|][..|p|];
  }

  lemma SuffixTransitive(s: string, f: string, e: string)
    requires HasSuffix(s, f) && HasSuffix(f, e)
    ensures HasSuffix(s, e)
  {
    assert s[|s| - |e|..] == s[|s| - |f|..][|f| - |e|..];
  }

  /** Two prefixes (suffixes) of one string are comparable. */
  lemma PrefixesComparable(s: string, p: string, q: string)
    requires HasPrefix(s, p) && HasPrefix(s, q)
    ensures HasPrefix(p, q) || HasPrefix(q, p)
  {
    if |q| <= |p| {
      assert p[..|q|] == s[..|p|][..|q|] == s[..|q|];
    } else {
      assert q[..|p|] == s[..|q|][..|p|] == s[..|p|];
    }
  }

  lemma SuffixesComparable(s: string, e: string, f: string)
    requires HasSuffix(s, e) && HasSuffix(s, f)
    ensures HasSuffix(e, f) || HasSuffix(f, e)
  {
    if |f| <= |e| {
      assert e[|e| - |f|..] == s[|s| - |e|..][|e| - |f|..] == s[|s| - |f|..];
    } else {
      assert f[|f| - |e|..] == s[|s| - |f|..][|f| - |e|..] == s[|s| - |e|..];
    }
  }

  lemma {:induction false} OwnIntersectsSound(a: Set, b: Set, s: string)
    requires IsFalse(OwnIntersects(a, b))
    ensures !(Contains(a, s) && Contains(b, s))
    decreases Size(a) + Size(b), 0
  {
    match a
    case Unit(_) =>
    case Prefix(p) =>
      if b.Prefix? && Contains(a, s) && Contains(b, s) { PrefixesComparable(s, p, b.prefix); }
    case Suffix(e) =>
      if b.Suffix? && Contains(a, s) && Contains(b, s) { SuffixesComparable(s, e, b.suffix); }
    case And(l, r) =>
      if IsFalse(TryIntersects(l, b)) { IntersectsSound(l, b, s); } else { IntersectsSound(r, b, s); }
    case Or(l, r) =>
      IntersectsSound(l, b, s);
      IntersectsSound(r, b, s);
    case Not(y) => SupersetSound(y, b, s);
    case Top =>
    case Empty =>
  }

  /** `intersects` answering false is right for every pair of terms. */
  lemma {:induction false} IntersectsSound(a: Set, b: Set, s: string)
    requires IsFalse(TryIntersects(a, b))
    ensures !(Contains(a, s) && Contains(b, s))
    decreases Size(a) + Size(b), 1
  {
    if OwnIntersects(a, b).Just? { OwnIntersectsSound(a, b, s); } else { OwnIntersectsSound(b, a, s); }
  }

  /** `superset` answering true is right for every pair of terms. */
  lemma {:induction false} SupersetSound(a: Set, b: Set, s: string)
    requires IsTrue(TrySuperset(a, b))
    ensures Contains(b, s) ==> Contains(a, s)
    decreases Size(a) + Size(b), 0
  {
    match a
    case Unit(_) =>
    case Prefix(p) =>
      if b.Prefix? && Contains(b, s) { PrefixTransitive(s, b.prefix, p); }
    case Suffix(e) =>
      if b.Suffix? && Contains(b, s) { SuffixTransitive(s, b.suffix, e); }
    case And(l, r) =>
      SupersetSound(l, b, s);
      SupersetSound(r, b, s);
    case Or(l, r) =>
      if IsTrue(TrySuperset(l, b)) { SupersetSound(l, b, s); } else { SupersetSound(r, b, s); }
    case Not(y) => IntersectsSound(y, b, s);
    case Top =>
    case Empty =>
  }

  lemma IntersectsFalseIsDisjoint(a: Set, b: Set)
    requires IsFalse(TryIntersects(a, b))
    ensures Disjoint(a, b)
  {
    forall s: string { IntersectsSound(a, b, s); }
  }

  lemma SupersetTrueIsSubsumes(a: Set, b: Set)
    requires IsTrue(TrySuperset(a, b))
    ensures Subsumes(a, b)
  {
    forall s: string { SupersetSound(a, b, s); }
  }

  // ----- the other two polarities -----

  ghost predicate Nonempty(x: Set) {
    exists s: string :: Contains(x, s)
  }

  ghost predicate Meet(a: Set, b: Set) {
    exists s: string :: Contains(a, s) && Contains(b, s)
  }

  /** Nonempty, and so is every alternative of the outermost unions. */
  ghost predicate NonemptyBranches(x: Set) {
    Nonempty(x) && (x.Or? ==> NonemptyBranches(x.l) && NonemptyBranches(x.r))
  }

  /** Both sets nonempty along every union branch: then `intersects` answering true exhibits
      a common member. */
  lemma {:induction false} IntersectsTrueMeets(a: Set, b: Set)
    requires IsTrue(TryIntersects(a, b))
    requires NonemptyBranches(a) && NonemptyBranches(b)
    ensures Meet(a, b)
    decreases Size(a) + Size(b), 1
  {
    if OwnIntersects(a, b).Just? { OwnIntersectsTrueMeets(a, b); } else { OwnIntersectsTrueMeets(b, a); }
  }

  lemma {:induction false} OwnIntersectsTrueMeets(a: Set, b: Set)
    requires IsTrue(OwnIntersects(a, b))
    requires NonemptyBranches(a) && NonemptyBranches(b)
    ensures Meet(a, b)
    decreases Size(a) + Size(b), 0
  {
    match a
    case Unit(u) =>
      assert Contains(a, u) && Contains(b, u);
    case Prefix(p) => PrefixMeets(p, b);
    case Suffix(e) => SuffixMeets(e, b);
    case And(_, _) =>
    case Or(l, r) =>
      var c := if IsTrue(TryIntersects(l, b)) then l else r;
      IntersectsTrueMeets(c, b);
      var s :| Contains(c, s) && Contains(b, s);
      assert Contains(a, s);
    case Not(y) =>
      var s :| Contains(b, s);
      IntersectsSound(y, b, s);
      assert Contains(a, s);
    case Top =>
      var s :| Contains(b, s);
      assert Contains(a, s);
    case Empty =>
  }

  lemma PrefixMeets(p: string, b: Set)
    requires IsTrue(OwnIntersects(Prefix(p), b))
    ensures Meet(Prefix(p), b)
  {
    var w := match b
      case Unit(v) => v
      case Prefix(q) => if HasPrefix(q, p) then q else p
      case Suffix(e) => p + e
      case _ => "";
    assert Contains(Prefix(p), w) && Contains(b, w);
  }

  lemma SuffixMeets(e: string, b: Set)
    requires IsTrue(OwnIntersects(Suffix(e), b))
    ensures Meet(Suffix(e), b)
  {
    var w := match b
      case Unit(v) => v
      case Prefix(q) => q + e
      case Suffix(f) => if HasSuffix(f, e) then f else e
      case _ => "";
    assert Contains(Suffix(e), w) && Contains(b, w);
  }

  /** For terms that are not themselves unions the condition is exact: a true verdict is
      right if and only if both sets are nonempty. */
  lemma IntersectsTrueExact(a: Set, b: Set)
    requires IsTrue(TryIntersects(a, b)) && !a.Or? && !b.Or?
    ensures Meet(a, b) <==> Nonempty(a) && Nonempty(b)
  {
    if Nonempty(a) && Nonempty(b) { IntersectsTrueMeets(a, b); }
  }

  /** The universe, asked first, answers true for every set: rightly exactly for the nonempty ones.
      Asked second it may be overruled by the other term. */
  lemma TopIntersects(b: Set)
    ensures TryIntersects(Top, b) == Just(true)
    ensures Meet(Top, b) <==> Nonempty(b)
    ensures TryIntersects(b, Top) == if OwnIntersects(b, Top).Just? then OwnIntersects(b, Top) else Just(true)
  {
    if s: string :| Contains(b, s) { assert Contains(Top, s); }
  }

  /** A union with one unsatisfiable alternative answers true for a set it does not meet. */
  lemma EmptyBranchMisleads()
    ensures
      var a := Or(And(Unit("a"), Unit("b")), Unit("c"));
      var b := Not(Unit("c"));
      Nonempty(a) && Nonempty(b) && TryIntersects(a, b) == Just(true) && Disjoint(a, b)
  {
    var a := Or(And(Unit("a"), Unit("b")), Unit("c"));
    var b := Not(Unit("c"));
    var bad := And(Unit("a"), Unit("b"));
    assert Contains(a, "c") && Contains(b, "a");
    assert TryIntersects(Unit("b"), Unit("c")) == Just(false);
    assert TryIntersects(Unit("a"), Unit("c")) == Just(false);
    assert OwnIntersects(Unit("c"), bad) == Nothing;
    assert TryIntersects(Unit("c"), bad) == OwnIntersects(bad, Unit("c")) == Just(false);
    assert TrySuperset(Unit("c"), bad) == Nothing;
    assert OwnIntersects(b, bad) == Just(true);
    calc {
      OwnIntersects(bad, b);
      { assert OwnIntersects(Unit("a"), b) == Nothing && OwnIntersects(Unit("b"), b) == Nothing;
        assert TryIntersects(Unit("c"), Unit("a")) == Just(false) && TryIntersects(Unit("c"), Unit("b")) == Just(false);
        assert TryIntersects(Unit("a"), b) == OwnIntersects(b, Unit("a")) == Just(true);
        assert TryIntersects(Unit("b"), b) == OwnIntersects(b, Unit("b")) == Just(true); }
      Nothing;
    }
    assert TryIntersects(bad, b) == Just(true);
    forall s: string ensures !(Contains(a, s) && Contains(b, s)) {
      assert !Contains(bad, s) by { assert "a"[0] != "b"[0]; }
    }
  }

  ghost predicate Escapes(b: Set, a: Set) {
    exists s: string :: Contains(b, s) && !Contains(a, s)
  }

  /** No unions, no empty prefix or suffix, and nothing unsatisfiable under a complement. */
  ghost predicate PlainSuper(a: Set) {
    match a
    case Prefix(p) => p != ""
    case Suffix(e) => e != ""
    case And(l, r) => PlainSuper(l) && PlainSuper(r)
    case Or(_, _) => false
    case Not(y) => NonemptyBranches(y)
    case _ => true
  }

  lemma OtherChar(c: char) returns (d: char)
    ensures d != c
  {
    d := if c == 'a' then 'b' else 'a';
  }

  /** A prefix that answers false is right exactly if it is not empty. */
  lemma PrefixEscape(p: string, b: Set)
    requires IsFalse(TrySuperset(Prefix(p), b))
    ensures Escapes(b, Prefix(p)) <==> p != ""
  {
    if p != "" {
      var c := OtherChar(p[0]);
      var w := match b
        case Unit(v) => v
        case Prefix(q) => q
        case Suffix(e) => [c] + e
        case _ => "";
      assert Contains(b, w) && !Contains(Prefix(p), w);
    }
  }

  lemma SuffixEscape(e: string, b: Set)
    requires IsFalse(TrySuperset(Suffix(e), b))
    ensures Escapes(b, Suffix(e)) <==> e != ""
  {
    if e != "" {
      var c := OtherChar(e[|e| - 1]);
      var w := match b
        case Unit(v) => v
        case Prefix(q) => q + [c]
        case Suffix(f) => f
        case _ => "";
      assert Contains(b, w) && !Contains(Suffix(e), w);
    }
  }

  /** A complement that answers false for a set without alternatives is right exactly if that set
      and what is complemented, if it has no alternatives either, are nonempty. */
  lemma ComplementEscape(y: Set, b: Set)
    requires IsFalse(TrySuperset(Not(y), b)) && !y.Or? && !b.Or?
    ensures Escapes(b, Not(y)) <==> Nonempty(b) && Nonempty(y)
  {
    if s: string :| Contains(b, s) && !Contains(Not(y), s) {
      assert Contains(y, s);
    }
    if Nonempty(b) && Nonempty(y) {
      var t: string :| Contains(b, t);
      if IsTrue(TryIntersects(y, b)) {
        IntersectsTrueMeets(y, b);
        var s: string :| Contains(y, s) && Contains(b, s);
        assert !Contains(Not(y), s);
      } else {
        SupersetSound(y, b, t);
        assert !Contains(Not(y), t);
      }
    }
  }

  lemma UnitEscape(u: string, b: Set)
    requires IsFalse(TrySuperset(Unit(u), b))
    ensures Escapes(b, Unit(u))
  {
    var w := if b.Unit? then b.unit else u + "a";
    assert Contains(b, w) && !Contains(Unit(u), w);
  }

  /** When `superset` answering false is right, term by term: exactly, except that a conjunction is
      reduced to its parts and alternatives are left to the one-way result below. */
  lemma SupersetFalseExact(a: Set, b: Set)
    requires IsFalse(TrySuperset(a, b))
    ensures a.Unit? ==> Escapes(b, a)
    ensures a.Prefix? ==> (Escapes(b, a) <==> a.prefix != "")
    ensures a.Suffix? ==> (Escapes(b, a) <==> a.suffix != "")
    ensures a.And? ==> (Escapes(b, a) <==> Escapes(b, a.l) || Escapes(b, a.r))
    ensures a.Not? && !a.x.Or? && !b.Or? ==> (Escapes(b, a) <==> Nonempty(b) && Nonempty(a.x))
    ensures a.Empty? ==> (Escapes(b, a) <==> Nonempty(b))
    ensures !a.Top?
  {
    match a
    case Unit(u) => UnitEscape(u, b);
    case Prefix(p) => PrefixEscape(p, b);
    case Suffix(e) => SuffixEscape(e, b);
    case And(l, r) => ConjunctionEscape(l, r, b);
    case Or(_, _) =>
    case Not(y) => if !y.Or? && !b.Or? { ComplementEscape(y, b); }
    case Top =>
    case Empty => if s: string :| Contains(b, s) { assert !Contains(Empty, s); }
  }

  lemma ConjunctionEscape(l: Set, r: Set, b: Set)
    ensures Escapes(b, And(l, r)) <==> Escapes(b, l) || Escapes(b, r)
  {
    hide Contains;
    forall s: string ensures Contains(And(l, r), s) <==> Contains(l, s) && Contains(r, s) {
      ConjunctionMembers(l, r, s);
    }
  }

  lemma ConjunctionMembers(l: Set, r: Set, s: string)
    ensures Contains(And(l, r), s) <==> Contains(l, s) && Contains(r, s)
  {}

  /** Of a term and a single path, the term decides. */
  lemma UnitAskedLast(a: Set, v: string)
    ensures TryIntersects(a, Unit(v)) == OwnIntersects(a, Unit(v))
  {
    assert !a.Unit? ==> OwnIntersects(Unit(v), a) == Nothing;
  }

  /** Against a single path both procedures are exact, for every term: `superset` decides membership,
      and `intersects` answers false exactly for non-members. */
  lemma {:induction false} UnitDecided(a: Set, v: string)
    ensures TrySuperset(a, Unit(v)) == Just(Contains(a, v))
    ensures IsFalse(TryIntersects(a, Unit(v))) <==> !Contains(a, v)
    decreases a
  {
    hide TryIntersects;
    UnitAskedLast(a, v);
    match a
    case And(l, r) =>
      UnitDecided(l, v);
      UnitDecided(r, v);
    case Or(l, r) =>
      UnitDecided(l, v);
      UnitDecided(r, v);
    case Not(y) => UnitDecided(y, v);
    case _ =>
  }

  /** Under those conditions `superset` answering false exhibits a member of `b` outside `a`. */
  lemma {:induction false} SupersetFalseEscapes(a: Set, b: Set)
    requires IsFalse(TrySuperset(a, b))
    requires PlainSuper(a) && NonemptyBranches(b)
    ensures Escapes(b, a)
    decreases a
  {
    match a
    case Unit(u) => UnitEscape(u, b);
    case Prefix(p) => PrefixEscape(p, b);
    case Suffix(e) => SuffixEscape(e, b);
    case And(l, r) =>
      var c := if IsFalse(TrySuperset(l, b)) then l else r;
      SupersetFalseEscapes(c, b);
      var s :| Contains(b, s) && !Contains(c, s);
      assert !Contains(a, s);
    case Not(y) =>
      if IsTrue(TryIntersects(y, b)) {
        IntersectsTrueMeets(y, b);
        var s :| Contains(y, s) && Contains(b, s);
        assert !Contains(a, s);
      } else {
        var s :| Contains(b, s);
        SupersetSound(y, b, s);
        assert !Contains(a, s);
      }
    case Top =>
    case Empty =>
      var s :| Contains(b, s);
      assert !Contains(a, s);
  }

  /** Why unions are excluded: a prefix and its complement hold everything, yet `superset` answers false
      for exactly the prefixes shorter than it. */
  lemma ExcludedMiddleMisleads(p: string, q: string)
    ensures Subsumes(Or(Prefix(p), Not(Prefix(p))), Prefix(q))
    ensures IsFalse(TrySuperset(Or(Prefix(p), Not(Prefix(p))), Prefix(q))) <==> HasPrefix(p, q) && p != q
  {
    assert TrySuperset(Not(Prefix(p)), Prefix(q)) ==
      if HasPrefix(q, p) || HasPrefix(p, q) then Just(false) else Just(true) by {
      assert TryIntersects(Prefix(p), Prefix(q)) == Just(HasPrefix(q, p) || HasPrefix(p, q));
    }
    if HasPrefix(q, p) && HasPrefix(p, q) { assert q == p; }
  }

  /** Why empty prefixes and suffixes are excluded: they hold everything. */
  lemma EmptyAffixMisleads(a: Set, b: Set)
    requires a == Prefix("") || a == Suffix("")
    ensures Subsumes(a, b)
    ensures a == Prefix("") && b.Suffix? ==> (IsFalse(TrySuperset(a, b)) <==> b.suffix != "")
    ensures a == Suffix("") && b.Prefix? ==> (IsFalse(TrySuperset(a, b)) <==> b.prefix != "")
  {
    forall s: string ensures Contains(a, s) { assert s[..0] == "" && s[|s|..] == ""; }
  }
}
