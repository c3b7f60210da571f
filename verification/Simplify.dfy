/** The rewriter over path-set terms: local simplification, distribution of conjunctions,
    De Morgan and the bounded fixpoint loop; it never changes the members of a set. */
module Simplify {
  import opened StringSets

  // ----- one node at a time -----

  /** (l1 & l2) & r becomes (l1 & r) & (l2 & r), and symmetrically. */
  function Dist(l: Set, r: Set): (Set, Set)
    decreases if l.And? == r.And? then 0 else 1
  {
    if l.And? && !r.And? then Dist(And(l.l, r), And(l.r, r))
    else if r.And? && !l.And? then Dist(And(l, r.l), And(l, r.r))
    else (l, r)
  }

  lemma DistMeaning(l: Set, r: Set, s: string)
    ensures Contains(Dist(l, r).0, s) && Contains(Dist(l, r).1, s) <==> Contains(l, s) && Contains(r, s)
  {}

  lemma DistSmaller(l: Set, r: Set)
    ensures Size(Dist(l, r).0) < Size(And(l, r)) && Size(Dist(l, r).1) < Size(And(l, r))
  {}

  /** The `simplify` method of a term. */
  function SimplifyTerm(x: Set): Set
    decreases Size(x)
  {
    match x
    case And(l0, r0) =>
      DistSmaller(l0, r0);
      var (dl, dr) := Dist(l0, r0);
      var l, r := SimplifyTerm(dl), SimplifyTerm(dr);
      if l == r then l
      else if IsTrue(TrySuperset(r, l)) then l
      else if IsTrue(TrySuperset(l, r)) then r
      else if IsTrue(TrySuperset(Not(r), l)) || IsTrue(TrySuperset(Not(l), r)) then Empty
      else if IsFalse(TryIntersects(dl, dr)) then Empty
      else And(l, r)
    case Or(l0, r0) =>
      var l, r := SimplifyTerm(l0), SimplifyTerm(r0);
      if l == Top || r == Top then Top
      else if IsTrue(TrySuperset(l, r)) then l
      else if IsTrue(TrySuperset(r, l)) then r
      else if IsTrue(TrySuperset(l, Not(r))) || IsTrue(TrySuperset(r, Not(l))) then Top
      else Or(l, r)
    case Not(y) =>
      assert y.Not? ==> Size(y.x) < Size(y);
      if y.Not? then SimplifyTerm(y.x) else Not(SimplifyTerm(y))
    case _ => x
  }

  lemma {:induction false} SimplifyTermMeaning(x: Set, s: string)
    ensures Contains(SimplifyTerm(x), s) == Contains(x, s)
    decreases Size(x)
  {
    match x
    case And(l0, r0) =>
      DistSmaller(l0, r0);
      var (dl, dr) := Dist(l0, r0);
      SimplifyTermMeaning(dl, s);
      SimplifyTermMeaning(dr, s);
      DistMeaning(l0, r0, s);
      ConjunctionCases(dl, dr, SimplifyTerm(dl), SimplifyTerm(dr), s);
    case Or(l0, r0) =>
      SimplifyTermMeaning(l0, s);
      SimplifyTermMeaning(r0, s);
      DisjunctionCases(SimplifyTerm(l0), SimplifyTerm(r0), s);
    case Not(y) =>
      assert y.Not? ==> Size(y.x) < Size(y);
      SimplifyTermMeaning(if y.Not? then y.x else y, s);
    case _ =>
  }

  /** Every verdict-guarded replacement of a conjunction is justified. */
  lemma ConjunctionCases(dl: Set, dr: Set, l: Set, r: Set, s: string)
    requires Contains(l, s) == Contains(dl, s) && Contains(r, s) == Contains(dr, s)
    ensures IsTrue(TrySuperset(r, l)) ==> (Contains(And(l, r), s) <==> Contains(l, s))
    ensures IsTrue(TrySuperset(l, r)) ==> (Contains(And(l, r), s) <==> Contains(r, s))
    ensures IsTrue(TrySuperset(Not(r), l)) || IsTrue(TrySuperset(Not(l), r)) || IsFalse(TryIntersects(dl, dr))
            ==> !Contains(And(l, r), s)
  {
    if IsTrue(TrySuperset(r, l)) { SupersetSound(r, l, s); }
    if IsTrue(TrySuperset(l, r)) { SupersetSound(l, r, s); }
    if IsTrue(TrySuperset(Not(r), l)) { SupersetSound(Not(r), l, s); }
    if IsTrue(TrySuperset(Not(l), r)) { SupersetSound(Not(l), r, s); }
    if IsFalse(TryIntersects(dl, dr)) { IntersectsSound(dl, dr, s); }
  }

  /** Every verdict-guarded replacement of a union is justified. */
  lemma DisjunctionCases(l: Set, r: Set, s: string)
    ensures IsTrue(TrySuperset(l, r)) ==> (Contains(Or(l, r), s) <==> Contains(l, s))
    ensures IsTrue(TrySuperset(r, l)) ==> (Contains(Or(l, r), s) <==> Contains(r, s))
    ensures IsTrue(TrySuperset(l, Not(r))) || IsTrue(TrySuperset(r, Not(l))) ==> Contains(Or(l, r), s)
  {
    if IsTrue(TrySuperset(l, r)) { SupersetSound(l, r, s); }
    if IsTrue(TrySuperset(r, l)) { SupersetSound(r, l, s); }
    if IsTrue(TrySuperset(l, Not(r))) { SupersetSound(l, Not(r), s); }
    if IsTrue(TrySuperset(r, Not(l))) { SupersetSound(r, Not(l), s); }
  }

  // ----- sum of minterms -----

  /** Decreases when a complement moves inward, although the term grows. */
  function MintermMeasure(x: Set): nat {
    match x
    case And(l, r) => MintermMeasure(l) + MintermMeasure(r) + 2
    case Or(l, r) => MintermMeasure(l) + MintermMeasure(r) + 2
    case Not(y) => 2 * MintermMeasure(y) + 1
    case _ => 1
  }

  lemma DeMorganDecreases(l: Set, r: Set)
    ensures MintermMeasure(Or(Not(l), Not(r))) < MintermMeasure(Not(And(l, r)))
  {
    assert MintermMeasure(And(l, r)) == MintermMeasure(l) + MintermMeasure(r) + 2;
    assert MintermMeasure(Not(l)) == 2 * MintermMeasure(l) + 1;
  }

  function SumOfMinterms(x: Set): Set
    decreases MintermMeasure(x)
  {
    match x
    case Or(l, r) => Or(SumOfMinterms(l), SumOfMinterms(r))
    case And(l, r) => Distribute(SumOfMinterms(l), SumOfMinterms(r))
    case Not(And(l, r)) =>
      DeMorganDecreases(l, r);
      SumOfMinterms(Or(Not(l), Not(r)))
    case Not(Or(l, r)) =>
      assert MintermMeasure(Or(l, r)) == MintermMeasure(l) + MintermMeasure(r) + 2;
      And(Not(SumOfMinterms(l)), Not(SumOfMinterms(r)))
    case Not(y) => Not(SumOfMinterms(y))
    case _ => x
  }

  /** A conjunction pushed through the unions directly below it. */
  function Distribute(l: Set, r: Set): Set {
    if l.Or? && !r.Or? then Or(And(l.l, r), And(l.r, r))
    else if r.Or? && !l.Or? then Or(And(l, r.l), And(l, r.r))
    else if l.Or? && r.Or? then
      Or(Or(And(l.l, r.l), And(l.l, r.r)), Or(And(l.r, r.l), And(l.r, r.r)))
    else And(l, r)
  }

  lemma DistributeMeaning(l: Set, r: Set, s: string)
    ensures Contains(Distribute(l, r), s) == (Contains(l, s) && Contains(r, s))
  {
    if l.Or? && r.Or? {
      var a, b, c, d := l.l, l.r, r.l, r.r;
      assert Contains(Or(And(a, c), And(a, d)), s) == (Contains(a, s) && Contains(r, s));
      assert Contains(Or(And(b, c), And(b, d)), s) == (Contains(b, s) && Contains(r, s));
    }
  }

  lemma {:induction false} SumOfMintermsMeaning(x: Set, s: string)
    ensures Contains(SumOfMinterms(x), s) == Contains(x, s)
    decreases MintermMeasure(x)
  {
    match x
    case Or(l, r) =>
      SumOfMintermsMeaning(l, s);
      SumOfMintermsMeaning(r, s);
    case And(l, r) =>
      SumOfMintermsMeaning(l, s);
      SumOfMintermsMeaning(r, s);
      DistributeMeaning(SumOfMinterms(l), SumOfMinterms(r), s);
    case Not(y) =>
      assert MintermMeasure(x) == 2 * MintermMeasure(y) + 1;
      match y {
        case And(l, r) =>
          DeMorganDecreases(l, r);
          SumOfMintermsMeaning(Or(Not(l), Not(r)), s);
        case Or(l, r) =>
          SumOfMintermsMeaning(l, s);
          SumOfMintermsMeaning(r, s);
        case _ => SumOfMintermsMeaning(y, s);
      }
    case _ =>
  }

  // ----- the bounded loop -----

  function SimplifyOnce(x: Set): Set {
    SumOfMinterms(SimplifyTerm(x))
  }

  const MAX_ROUNDS := 3

  /** At most `rounds` rounds, stopping early at a fixpoint. */
  function Rounds(x: Set, rounds: nat): Set
    decreases rounds, x
  {
    if rounds == 0 || SimplifyOnce(x) == x then x else Rounds(SimplifyOnce(x), rounds - 1)
  }

  function Simplified(x: Set): Set {
    Rounds(x, MAX_ROUNDS)
  }

  /** A term that the first round leaves in its final form. */
  lemma OneRound(x: Set, y: Set)
    requires SimplifyOnce(x) == y && SimplifyOnce(y) == y
    ensures Simplified(x) == y
  {
    assert Rounds(y, MAX_ROUNDS - 1) == y;
  }

  lemma {:induction false} RoundsMeaning(x: Set, rounds: nat, s: string)
    ensures Contains(Rounds(x, rounds), s) == Contains(x, s)
    decreases rounds
  {
    if rounds > 0 && SimplifyOnce(x) != x {
      SimplifyTermMeaning(x, s);
      SumOfMintermsMeaning(SimplifyTerm(x), s);
      RoundsMeaning(SimplifyOnce(x), rounds - 1, s);
    }
  }

  /** Simplification preserves membership, for every term and every string. */
  lemma SimplifyMeaning(x: Set, s: string)
    ensures Contains(Simplified(x), s) == Contains(x, s)
  {
    RoundsMeaning(x, MAX_ROUNDS, s);
  }

  /** The loop as the source runs it. */
  method SimplifyLoop(x0: Set) returns (x: Set)
    ensures x == Simplified(x0)
    ensures forall s: string :: Contains(x, s) == Contains(x0, s)
  {
    x := x0;
    var i := 0;
    while i < MAX_ROUNDS
      invariant 0 <= i <= MAX_ROUNDS
      invariant Rounds(x, MAX_ROUNDS - i) == Simplified(x0)
    {
      var x1 := SimplifyOnce(x);
      if x1 == x { break; }
      x := x1;
      i := i + 1;
    }
    forall s: string { SimplifyMeaning(x0, s); }
  }

  // ----- public verdicts, with their fallback through simplification -----

  /** The `Equals` test: simplify both sides and compare the terms. */
  predicate EqualTerms(a: Set, b: Set) {
    Simplified(a) == Simplified(b)
  }

  function Subtract(a: Set, b: Set): Set {
    And(a, Not(b))
  }

  predicate Intersects(a: Set, b: Set) {
    var v := TryIntersects(a, b);
    if v.Just? then v.x else !EqualTerms(And(a, b), Empty)
  }

  predicate Superset(super: Set, sub: Set) {
    var v := TrySuperset(super, sub);
    if v.Just? then v.x else EqualTerms(Subtract(sub, super), Empty)
  }

  lemma EqualTermsSameMembers(a: Set, b: Set, s: string)
    requires EqualTerms(a, b)
    ensures Contains(a, s) == Contains(b, s)
  {
    SimplifyMeaning(a, s);
    SimplifyMeaning(b, s);
  }

  /** The public `Intersects` answering false is right for all terms. */
  lemma IntersectsFalseDisjoint(a: Set, b: Set)
    requires !Intersects(a, b)
    ensures Disjoint(a, b)
  {
    forall s: string ensures !(Contains(a, s) && Contains(b, s)) {
      if TryIntersects(a, b).Just? {
        IntersectsSound(a, b, s);
      } else {
        EqualTermsSameMembers(And(a, b), Empty, s);
      }
    }
  }

  /** The public `Superset` answering true is right for all terms. */
  lemma SupersetTrueSubsumes(super: Set, sub: Set)
    requires Superset(super, sub)
    ensures Subsumes(super, sub)
  {
    forall s: string ensures Contains(sub, s) ==> Contains(super, s) {
      if TrySuperset(super, sub).Just? {
        SupersetSound(super, sub, s);
      } else {
        EqualTermsSameMembers(Subtract(sub, super), Empty, s);
      }
    }
  }

  /** The guard on statement files: everything an accepted statement affects starts with the
      prefix of the file's parent directory. */
  lemma AcceptedStatementStaysInside(affects: Set, dir: string, s: string)
    requires Superset(Prefix(dir), affects)
    requires Contains(affects, s)
    ensures HasPrefix(s, dir)
  {
    SupersetTrueSubsumes(Prefix(dir), affects);
    assert Contains(Prefix(dir), s);
  }

  // ----- when the order of arguments matters -----

  /** Sets with a common member are reported to intersect in either order. */
  lemma MeetIntersects(a: Set, b: Set)
    requires Meet(a, b)
    ensures Intersects(a, b) && Intersects(b, a)
  {
    if !Intersects(a, b) { IntersectsFalseDisjoint(a, b); }
    if !Intersects(b, a) { IntersectsFalseDisjoint(b, a); }
  }

  /** A verdict decided without simplification does not depend on the order if both sets are nonempty
      along every union branch. */
  lemma OrderIrrelevant(a: Set, b: Set)
    requires TryIntersects(a, b).Just? && NonemptyBranches(a) && NonemptyBranches(b)
    ensures TryIntersects(b, a) == TryIntersects(a, b) && Intersects(b, a) == Intersects(a, b)
  {
    if IsTrue(TryIntersects(a, b)) { IntersectsTrueMeets(a, b); } else { IntersectsFalseIsDisjoint(a, b); }
    if IsTrue(TryIntersects(b, a)) { IntersectsTrueMeets(b, a); } else { IntersectsFalseIsDisjoint(b, a); }
  }

  /** A decided verdict depends on the order exactly when both terms know an answer of their own and
      these differ.  Then the sets are disjoint, so the answer true is wrong, and one of them has an
      unsatisfiable branch. */
  lemma OrderMattersIff(a: Set, b: Set)
    requires TryIntersects(a, b).Just?
    ensures Intersects(a, b) != Intersects(b, a) <==>
            OwnIntersects(a, b).Just? && OwnIntersects(b, a).Just? && OwnIntersects(a, b) != OwnIntersects(b, a)
    ensures Intersects(a, b) != Intersects(b, a) ==>
            Disjoint(a, b) && !(NonemptyBranches(a) && NonemptyBranches(b))
  {
    if Intersects(a, b) != Intersects(b, a) {
      if Intersects(a, b) { IntersectsFalseDisjoint(b, a); } else { IntersectsFalseDisjoint(a, b); }
      if NonemptyBranches(a) && NonemptyBranches(b) { OrderIrrelevant(a, b); }
    }
  }

  /** Verdicts that need simplification can depend on the order too, but like all verdicts only for
      disjoint sets. */
  lemma OrderMattersOnlyIfDisjoint(a: Set, b: Set)
    ensures Intersects(a, b) != Intersects(b, a) ==> Disjoint(a, b)
  {
    if Intersects(a, b) != Intersects(b, a) {
      if Intersects(a, b) { IntersectsFalseDisjoint(b, a); } else { IntersectsFalseDisjoint(a, b); }
    }
  }

  function AllPaths(): Set { Or(Or(Prefix(""), Suffix("b")), Not(Suffix("b"))) }

  function NoPaths(): Set { And(Not(Prefix("")), Prefix("")) }

  lemma AllIsTop()
    ensures SimplifyTerm(AllPaths()) == Top
  {}

  /** The universe absorbs on the right of itself and on the left of a prefix, and gives way to a
      complement. */
  lemma HalvesSimplified()
    ensures SimplifyTerm(And(AllPaths(), Prefix(""))) == Top
    ensures SimplifyTerm(And(Prefix(""), AllPaths())) == Prefix("")
    ensures SimplifyTerm(And(AllPaths(), Not(Prefix("")))) == Not(Prefix(""))
    ensures SimplifyTerm(And(Not(Prefix("")), AllPaths())) == Not(Prefix(""))
  {
    hide Dist;
    AllIsTop();
    var p := Prefix("");
    assert SimplifyTerm(p) == p && SimplifyTerm(Not(p)) == Not(p);
    assert TrySuperset(p, Top) == Just(true);
    assert TryIntersects(p, Top) == Just(true);
    assert TrySuperset(Not(p), Top) == Just(false);
    DistOr(AllPaths(), p);
    DistOr(p, AllPaths());
    DistOr(AllPaths(), Not(p));
    DistOr(Not(p), AllPaths());
  }

  lemma DistOr(l: Set, r: Set)
    requires !l.And? && !r.And?
    ensures Dist(l, r) == (l, r)
  {}

  lemma AllWithNone()
    ensures Simplified(And(AllPaths(), NoPaths())) == Not(Prefix(""))
  {
    var n := Not(Prefix(""));
    var x := And(AllPaths(), NoPaths());
    assert Dist(AllPaths(), NoPaths()) == (And(AllPaths(), n), And(AllPaths(), Prefix("")));
    HalvesSimplified();
    assert SimplifyTerm(x) == n by {
      assert TrySuperset(n, Top) == Just(false);
      assert TrySuperset(Top, n) == Just(true);
    }
    assert SimplifyOnce(x) == n && SimplifyOnce(n) == n;
  }

  lemma NoneWithAll()
    ensures Simplified(And(NoPaths(), AllPaths())) == Empty
  {
    var n, p := Not(Prefix("")), Prefix("");
    var x := And(NoPaths(), AllPaths());
    assert Dist(NoPaths(), AllPaths()) == (And(n, AllPaths()), And(p, AllPaths()));
    HalvesSimplified();
    assert SimplifyTerm(x) == Empty by {
      assert TryIntersects(p, p) == Just(true);
      assert TrySuperset(n, p) == Just(false);
      assert TrySuperset(p, n) == Nothing;
      assert TrySuperset(Not(p), n) == Just(true) by { assert TrySuperset(p, n) == Nothing; }
    }
    assert SimplifyOnce(x) == Empty && SimplifyOnce(Empty) == Empty;
  }

  lemma AllNoneUndecided()
    ensures TryIntersects(AllPaths(), NoPaths()) == Nothing && TryIntersects(NoPaths(), AllPaths()) == Nothing
  {}

  /** Undecided in both orders, and answered differently. */
  lemma UndecidedOrderMatters()
    ensures TryIntersects(AllPaths(), NoPaths()) == Nothing && TryIntersects(NoPaths(), AllPaths()) == Nothing
    ensures Intersects(AllPaths(), NoPaths()) && !Intersects(NoPaths(), AllPaths())
  {
    hide Simplified, TryIntersects;
    AllNoneUndecided();
    AllWithNone();
    NoneWithAll();
    EmptySimplified();
  }

  lemma EmptySimplified()
    ensures Simplified(Empty) == Empty
  {}

  /** The universe against a set that finds itself empty: the order matters for all of these. */
  lemma UniverseOrderMattersIff(b: Set)
    ensures Intersects(Top, b)
    ensures !Intersects(b, Top) <==> IsFalse(OwnIntersects(b, Top))
    ensures !Intersects(b, Top) ==> !Nonempty(b)
  {
    TopIntersects(b);
    OrderMattersIff(Top, b);
    if !Intersects(b, Top) { IntersectsFalseDisjoint(b, Top); }
    if s: string :| Contains(b, s) { assert Contains(Top, s); }
  }

  // ----- single paths, and the guard at the root -----

  /** Asked about a single path, the public verdicts are membership, for every term. */
  lemma UnitVerdictsExact(a: Set, v: string)
    ensures Superset(a, Unit(v)) <==> Contains(a, v)
    ensures Intersects(a, Unit(v)) <==> Contains(a, v)
  {
    UnitDecided(a, v);
    if Contains(a, v) {
      assert Contains(Unit(v), v);
      MeetIntersects(a, Unit(v));
    }
  }

  /** The guard on a set given by a suffix: such a set lies below a directory only if that is the root, and
      even there the guard accepts it only if the suffix is empty. */
  lemma GuardOnSuffix(d: string, e: string)
    ensures Subsumes(Prefix(d), Suffix(e)) <==> d == ""
    ensures Superset(Prefix(d), Suffix(e)) <==> d == "" && e == ""
  {
    if d == "" {
      EmptyAffixMisleads(Prefix(""), Suffix(e));
    } else {
      var c := OtherChar(d[0]);
      assert Contains(Suffix(e), [c] + e) && !Contains(Prefix(d), [c] + e);
    }
  }
}
