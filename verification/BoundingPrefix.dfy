/** The bounding prefix of a path set.  Every recursive call simplifies its argument again, so
    the recursion is not structural: the function below carries a depth budget, and a run of
    the source that returns is a run with enough budget. */
module BoundingPrefixes {
  import opened StringSets
  import opened Simplify

  // ----- longest common prefix -----

  /** The index of the first difference. */
  function CommonPrefixLen(a: string, b: string): (n: nat)
    ensures n <= |a| && n <= |b| && a[..n] == b[..n]
    ensures n < |a| && n < |b| ==> a[n] != b[n]
  {
    if a == "" || b == "" || a[0] != b[0] then 0
    else
      var n := CommonPrefixLen(a[1..], b[1..]);
      assert a[..n + 1] == [a[0]] + a[1..][..n];
      assert b[..n + 1] == [b[0]] + b[1..][..n];
      n + 1
  }

  lemma CommonPrefixLenUnique(a: string, b: string, n: nat)
    requires n <= |a| && n <= |b| && a[..n] == b[..n]
    requires n < |a| && n < |b| ==> a[n] != b[n]
    ensures n == CommonPrefixLen(a, b)
  {
    var m := CommonPrefixLen(a, b);
    assert forall k :: 0 <= k < n ==> a[k] == a[..n][k] && b[k] == b[..n][k];
    assert forall k :: 0 <= k < m ==> a[k] == a[..m][k] && b[k] == b[..m][k];
  }

  method CommonPrefixLenLoop(a: string, b: string) returns (n: nat)
    ensures n == CommonPrefixLen(a, b)
  {
    var i := 0;
    while i < |a| && i < |b|
      invariant 0 <= i <= |a| && i <= |b|
      invariant a[..i] == b[..i]
    {
      if a[i] != b[i] {
        CommonPrefixLenUnique(a, b, i);
        return i;
      }
      assert a[..i + 1] == a[..i] + [a[i]] && b[..i + 1] == b[..i] + [b[i]];
      i := i + 1;
    }
    n := if |a| < |b| then |a| else |b|;
    CommonPrefixLenUnique(a, b, n);
  }

  function CommonPrefix(a: string, b: string): string {
    a[..CommonPrefixLen(a, b)]
  }

  /** A string is a prefix of both exactly when it is a prefix of their common prefix. */
  lemma CommonPrefixIsGreatest(a: string, b: string, q: string)
    ensures HasPrefix(a, q) && HasPrefix(b, q) <==> HasPrefix(CommonPrefix(a, b), q)
  {
    var n := CommonPrefixLen(a, b);
    var p := a[..n];
    if HasPrefix(p, q) {
      PrefixTransitive(a, p, q);
      PrefixTransitive(b, p, q);
    }
    if HasPrefix(a, q) && HasPrefix(b, q) {
      assert forall k :: 0 <= k < |q| ==> a[k] == a[..|q|][k] == q[k] == b[..|q|][k] == b[k];
      assert p[..|q|] == a[..|q|];
    }
  }

  ghost predicate CommonToAll(xs: seq<string>, q: string) {
    forall i :: 0 <= i < |xs| ==> HasPrefix(xs[i], q)
  }

  /** The source's loop over any number of strings returns their longest common prefix. */
  method LongestCommonPrefix(xs: seq<string>) returns (lcp: string)
    ensures xs == [] ==> lcp == ""
    ensures xs != [] ==> forall q :: HasPrefix(lcp, q) <==> CommonToAll(xs, q)
  {
    if |xs| < 1 { return ""; }
    lcp := xs[0];
    var i := 1;
    while i < |xs|
      invariant 1 <= i <= |xs|
      invariant forall q :: HasPrefix(lcp, q) <==> CommonToAll(xs[..i], q)
    {
      forall q ensures HasPrefix(CommonPrefix(lcp, xs[i]), q) <==> CommonToAll(xs[..i + 1], q) {
        CommonPrefixIsGreatest(lcp, xs[i], q);
        assert xs[..i + 1] == xs[..i] + [xs[i]];
        assert CommonToAll(xs[..i + 1], q) <==> CommonToAll(xs[..i], q) && HasPrefix(xs[i], q);
      }
      var n := CommonPrefixLenLoop(lcp, xs[i]);
      assert lcp[..n] == CommonPrefix(lcp, xs[i]);
      lcp := lcp[..n];
      i := i + 1;
      if |lcp| == 0 {
        EmptyIsCommon(xs, i);
        return;
      }
    }
    assert xs[..i] == xs;
  }

  lemma EmptyIsCommon(xs: seq<string>, i: nat)
    requires 1 <= i <= |xs|
    requires forall q :: HasPrefix("", q) <==> CommonToAll(xs[..i], q)
    ensures forall q :: HasPrefix("", q) <==> CommonToAll(xs, q)
  {
    forall q ensures HasPrefix("", q) <==> CommonToAll(xs, q) {
      if CommonToAll(xs, q) {
        assert CommonToAll(xs[..i], q);
      }
    }
  }

  // ----- the bounding prefix -----

  datatype Bound = Bounded(prefix: string) | Panics | OutOfBudget

  function BoundingPrefix(x: Set, depth: nat): Bound
    decreases depth
  {
    if depth == 0 then OutOfBudget
    else
      match Simplified(x)
      case Unit(u) => Bounded(u)
      case Prefix(p) => Bounded(p)
      case Suffix(_) => Bounded("")
      case Top => Bounded("")
      case Empty => Panics
      case Not(_) => Bounded("")
      case Or(l, r) =>
        var lb := BoundingPrefix(l, depth - 1);
        if !lb.Bounded? then lb
        else
          var rb := BoundingPrefix(r, depth - 1);
          if !rb.Bounded? then rb else Bounded(CommonPrefix(lb.prefix, rb.prefix))
      case And(l, r) =>
        var lb := BoundingPrefix(l, depth - 1);
        if !lb.Bounded? then lb
        else
          var rb := BoundingPrefix(r, depth - 1);
          if !rb.Bounded? then rb
          else if !(HasPrefix(lb.prefix, rb.prefix) && HasPrefix(rb.prefix, lb.prefix)) then Panics
          else Bounded(CommonPrefix(lb.prefix, rb.prefix))
  }

  /** The answer does not depend on the budget once there is one. */
  lemma {:induction false} BudgetIrrelevant(x: Set, d: nat, e: nat)
    requires d <= e && !BoundingPrefix(x, d).OutOfBudget?
    ensures BoundingPrefix(x, e) == BoundingPrefix(x, d)
    decreases d
  {
    hide Simplified, CommonPrefix, CommonPrefixLen;
    var y := Simplified(x);
    if y.Or? || y.And? {
      BudgetIrrelevant(y.l, d - 1, e - 1);
      if BoundingPrefix(y.l, d - 1).Bounded? {
        BudgetIrrelevant(y.r, d - 1, e - 1);
      }
    }
  }

  /** Whenever it returns, every member starts with the returned string. */
  lemma {:induction false} BoundingPrefixSound(x: Set, depth: nat, s: string)
    requires BoundingPrefix(x, depth).Bounded? && Contains(x, s)
    ensures HasPrefix(s, BoundingPrefix(x, depth).prefix)
    decreases depth
  {
    SimplifyMeaning(x, s);
    var y := Simplified(x);
    if y.Or? || y.And? {
      var lp, rp := BoundingPrefix(y.l, depth - 1).prefix, BoundingPrefix(y.r, depth - 1).prefix;
      CommonPrefixIsGreatest(lp, rp, CommonPrefix(lp, rp));
      var c := if Contains(y.l, s) then y.l else y.r;
      BoundingPrefixSound(c, depth - 1, s);
      PrefixTransitive(s, if Contains(y.l, s) then lp else rp, CommonPrefix(lp, rp));
    }
  }

  /** A conjunction that survives simplification is answered only if its two sides have the
      same bound; otherwise the source panics. */
  lemma ConjunctionAnsweredIff(x: Set, depth: nat)
    requires depth > 0 && Simplified(x).And?
    requires BoundingPrefix(Simplified(x).l, depth - 1).Bounded?
    requires BoundingPrefix(Simplified(x).r, depth - 1).Bounded?
    ensures BoundingPrefix(x, depth).Bounded?
            <==> BoundingPrefix(Simplified(x).l, depth - 1) == BoundingPrefix(Simplified(x).r, depth - 1)
  {
    var lp := BoundingPrefix(Simplified(x).l, depth - 1).prefix;
    var rp := BoundingPrefix(Simplified(x).r, depth - 1).prefix;
    if HasPrefix(lp, rp) && HasPrefix(rp, lp) {
      assert lp == lp[..|rp|] == rp;
    }
  }

  /** The paths with a given suffix below a given prefix: such a conjunction has a bound exactly if
      the prefix is empty, and otherwise the source panics. */
  lemma PrefixAndSuffixBound(p: string, e: string, depth: nat)
    requires depth > 1
    ensures BoundingPrefix(And(Prefix(p), Suffix(e)), depth) == if p == "" then Bounded("") else Panics
  {
    hide CommonPrefix, Subsumes;
    PrefixAndSuffixSimplified(p, e);
    assert Simplified(Prefix(p)) == Prefix(p) && Simplified(Suffix(e)) == Suffix(e);
    assert BoundingPrefix(Prefix(p), depth - 1) == Bounded(p) && BoundingPrefix(Suffix(e), depth - 1) == Bounded("");
    EmptyCommon(p);
  }

  /** All paths with a prefix but one.  The removed path must lie outside, or the prefix be empty, for there
      to be a bound. */
  lemma PrefixWithoutUnitBound(p: string, u: string, depth: nat)
    requires depth > 1
    ensures BoundingPrefix(And(Prefix(p), Not(Unit(u))), depth) ==
            if !HasPrefix(u, p) then Bounded(p) else if p == "" then Bounded("") else Panics
  {
    hide CommonPrefix, Subsumes;
    PrefixWithoutUnitSimplified(p, u);
    PlainTerms(p, u);
    assert BoundingPrefix(Prefix(p), depth - 1) == Bounded(p) && BoundingPrefix(Not(Unit(u)), depth - 1) == Bounded("");
    EmptyCommon(p);
  }

  lemma PlainTerms(p: string, u: string)
    ensures SimplifyOnce(Prefix(p)) == Prefix(p) && Simplified(Prefix(p)) == Prefix(p)
    ensures SimplifyOnce(Not(Unit(u))) == Not(Unit(u)) && Simplified(Not(Unit(u))) == Not(Unit(u))
    ensures SumOfMinterms(Not(Unit(u))) == Not(Unit(u))
  {
    var n := Not(Unit(u));
    assert SimplifyTerm(Unit(u)) == Unit(u);
    assert SimplifyTerm(n) == n;
    assert SumOfMinterms(Unit(u)) == Unit(u);
    assert SumOfMinterms(n) == n;
    OneRound(n, n);
    OneRound(Prefix(p), Prefix(p));
  }

  lemma PrefixWithoutUnitSimplified(p: string, u: string)
    ensures
      var x := And(Prefix(p), Not(Unit(u)));
      Simplified(x) == if HasPrefix(u, p) then x else Prefix(p)
  {
    var l, r := Prefix(p), Not(Unit(u));
    var x := And(l, r);
    assert Dist(l, r) == (l, r);
    PlainTerms(p, u);
    assert SimplifyTerm(l) == l && SimplifyTerm(r) == r by { assert SimplifyTerm(Unit(u)) == Unit(u); }
    assert TryIntersects(Unit(u), l) == Just(HasPrefix(u, p));
    assert TrySuperset(Unit(u), l) == Nothing && TrySuperset(l, r) == Nothing;
    if HasPrefix(u, p) {
      assert TrySuperset(r, l) == Just(false);
      assert TryIntersects(r, l) == Nothing && TryIntersects(l, r) == Nothing;
      assert TryIntersects(l, Unit(u)) == Just(true);
      assert TrySuperset(Not(r), l) == Nothing;
      assert TrySuperset(Not(l), r) == Nothing;
      assert SimplifyTerm(x) == x;
      assert SumOfMinterms(x) == Distribute(l, r) == x;
      OneRound(x, x);
    } else {
      assert TrySuperset(r, l) == Just(true);
      assert SimplifyTerm(x) == l;
      OneRound(x, l);
    }
  }

  /** What an expression file makes. */
  function OwnPaths(u: string): Set {
    Or(Unit(u), Prefix(u + "/"))
  }

  /** A derived selection by prefix in an expression file, from which the file's own paths are taken: if
      the file lies below a nonempty prefix, the source panics when it looks the selection up. */
  lemma SelectionWithoutSelfBound(p: string, u: string, depth: nat)
    requires depth > 2 && !HasPrefix(p, u + "/")
    ensures BoundingPrefix(And(Prefix(p), Not(OwnPaths(u))), depth) ==
            if !HasPrefix(u, p) then Bounded(p) else if p == "" then Bounded("") else Panics
  {
    hide CommonPrefix, Subsumes, Simplified;
    if HasPrefix(u, p) {
      SelfInside(p, u);
      WithoutUnitInside(p, u, depth - 1);
      WithoutPrefixAtRoot(p, u + "/", depth - 1);
      EmptyCommon("");
    } else {
      SelfOutside(p, u);
      PlainTerms(p, u);
    }
  }

  /** The selection is what the compiler rejects as empty if the prefix lies among the file's own paths. */
  lemma SelectionOfSelfEmpty(p: string, u: string)
    requires HasPrefix(p, u + "/")
    ensures Simplified(And(Prefix(p), Not(OwnPaths(u)))) == Empty
  {
    var l, o := Prefix(p), OwnPaths(u);
    var r := Not(o);
    OwnPathsPlain(u);
    assert TrySuperset(o, l) == Just(true);
    assert TryIntersects(Unit(u), l) == Just(HasPrefix(u, p)) && TryIntersects(Prefix(u + "/"), l) == Just(true);
    assert TryIntersects(o, l) == Just(true);
    assert TrySuperset(r, l) == Just(false) && TrySuperset(l, r) == Nothing;
    assert TryIntersects(r, l) == Just(false);
    assert TrySuperset(Not(r), l) == Just(true);
    assert SimplifyTerm(And(l, r)) == Empty;
    OneRound(And(l, r), Empty);
  }

  lemma OwnPathsPlain(u: string)
    ensures SimplifyTerm(OwnPaths(u)) == OwnPaths(u) && SimplifyTerm(Not(OwnPaths(u))) == Not(OwnPaths(u))
  {
    var a, b := Unit(u), Prefix(u + "/");
    assert SimplifyTerm(a) == a && SimplifyTerm(b) == b;
    assert !HasPrefix(u, u + "/");
    assert TrySuperset(a, b) == Nothing && TrySuperset(b, a) == Just(false);
    assert TrySuperset(a, Not(b)) == Nothing && TrySuperset(b, Not(a)) == Nothing;
  }

  lemma SelfOutside(p: string, u: string)
    requires !HasPrefix(p, u + "/") && !HasPrefix(u, p)
    ensures Simplified(And(Prefix(p), Not(OwnPaths(u)))) == Prefix(p)
  {
    var l, o := Prefix(p), OwnPaths(u);
    var r := Not(o);
    OwnPathsPlain(u);
    PlainTerms(p, u);
    assert !HasPrefix(u + "/", p) by { if HasPrefix(u + "/", p) { PrefixOfSlashed(u, p); } }
    assert TryIntersects(Unit(u), l) == OwnIntersects(l, Unit(u)) == Just(false);
    assert TryIntersects(Prefix(u + "/"), l) == OwnIntersects(Prefix(u + "/"), l) == Just(false);
    assert TryIntersects(o, l) == OwnIntersects(o, l) == Just(false);
    assert TrySuperset(r, l) == Just(true);
    assert SimplifyTerm(And(l, r)) == l;
    OneRound(And(l, r), l);
  }

  lemma PrefixOfSlashed(u: string, p: string)
    requires HasPrefix(u + "/", p) && !HasPrefix(p, u + "/")
    ensures HasPrefix(u, p)
  {
    var d := u + "/";
    assert d[..|d|] == d;
    assert |p| != |d|;
    assert d[..|p|] == u[..|p|];
  }

  /** With the file inside, the rewriter ends with a conjunction of two conjunctions. */
  lemma SelfInside(p: string, u: string)
    requires HasPrefix(u, p)
    ensures Simplified(And(Prefix(p), Not(OwnPaths(u)))) ==
            And(And(Prefix(p), Not(Unit(u))), And(Prefix(p), Not(Prefix(u + "/"))))
  {
    hide SimplifyOnce;
    var x := And(Prefix(p), Not(OwnPaths(u)));
    var x1 := And(Prefix(p), And(Not(Unit(u)), Not(Prefix(u + "/"))));
    var x2 := And(And(Prefix(p), Not(Unit(u))), And(Prefix(p), Not(Prefix(u + "/"))));
    FirstRound(p, u);
    SecondRound(p, u);
    assert Rounds(x2, 1) == x2;
    assert Rounds(x1, 2) == x2;
    assert Rounds(x, 3) == x2;
  }

  lemma FirstRound(p: string, u: string)
    requires HasPrefix(u, p)
    ensures SimplifyOnce(And(Prefix(p), Not(OwnPaths(u)))) == And(Prefix(p), And(Not(Unit(u)), Not(Prefix(u + "/"))))
  {
    var l, o := Prefix(p), OwnPaths(u);
    var r := Not(o);
    var x := And(l, r);
    OwnPathsPlain(u);
    assert !HasPrefix(p, u + "/");
    assert TryIntersects(Unit(u), l) == OwnIntersects(l, Unit(u)) == Just(true);
    assert TryIntersects(o, l) == OwnIntersects(o, l) == Just(true);
    assert TrySuperset(o, l) == Nothing;
    assert TrySuperset(r, l) == Just(false) && TrySuperset(l, r) == Nothing;
    assert TryIntersects(r, l) == Nothing && TryIntersects(l, r) == Nothing;
    assert TrySuperset(Not(r), l) == Nothing && TrySuperset(Not(l), r) == Nothing;
    assert Dist(l, r) == (l, r);
    assert SimplifyTerm(x) == x;
    PlainTerms(p, u);
    PlainComplement(u + "/");
    assert SumOfMinterms(r) == And(Not(Unit(u)), Not(Prefix(u + "/"))) by {
      assert SumOfMinterms(Unit(u)) == Unit(u) && SumOfMinterms(Prefix(u + "/")) == Prefix(u + "/");
    }
    assert SumOfMinterms(x) == Distribute(l, SumOfMinterms(r));
  }

  lemma PlainComplement(q: string)
    ensures SimplifyTerm(Not(Prefix(q))) == Not(Prefix(q)) && SumOfMinterms(Not(Prefix(q))) == Not(Prefix(q))
    ensures Simplified(Not(Prefix(q))) == Not(Prefix(q))
  {
    var n := Not(Prefix(q));
    assert SimplifyTerm(Prefix(q)) == Prefix(q) && SumOfMinterms(Prefix(q)) == Prefix(q);
    assert SimplifyTerm(n) == n;
    assert SumOfMinterms(n) == n;
    OneRound(n, n);
  }

  /** A prefix without a longer one. */
  lemma PrefixWithoutPrefix(p: string, q: string)
    requires HasPrefix(q, p) && p != q
    ensures
      var x := And(Prefix(p), Not(Prefix(q)));
      SimplifyTerm(x) == x && SumOfMinterms(x) == x && Simplified(x) == x
  {
    var l, r := Prefix(p), Not(Prefix(q));
    var x := And(l, r);
    PlainComplement(q);
    assert !HasPrefix(p, q);
    assert TryIntersects(Prefix(q), l) == Just(true) && TrySuperset(Prefix(q), l) == Just(false);
    assert TrySuperset(r, l) == Just(false) && TrySuperset(l, r) == Nothing;
    assert TryIntersects(r, l) == Nothing && TryIntersects(l, r) == Nothing;
    assert TrySuperset(Not(r), l) == Nothing && TrySuperset(Not(l), r) == Nothing;
    assert Dist(l, r) == (l, r);
    assert SimplifyTerm(x) == x;
    assert SumOfMinterms(x) == Distribute(l, r) == x;
    OneRound(x, x);
  }

  lemma SecondRound(p: string, u: string)
    requires HasPrefix(u, p)
    ensures
      var n1, n2 := Not(Unit(u)), Not(Prefix(u + "/"));
      var x2 := And(And(Prefix(p), n1), And(Prefix(p), n2));
      SimplifyOnce(And(Prefix(p), And(n1, n2))) == x2 && SimplifyOnce(x2) == x2
  {
    var n1, n2 := Not(Unit(u)), Not(Prefix(u + "/"));
    var l, r := And(Prefix(p), n1), And(Prefix(p), n2);
    assert HasPrefix(u + "/", p) by { assert (u + "/")[..|p|] == u[..|p|]; }
    PrefixWithoutUnitSimplified(p, u);
    UnitPartPlain(p, u);
    PrefixWithoutPrefix(p, u + "/");
    assert Dist(Prefix(p), And(n1, n2)) == (l, r) by { assert Dist(l, r) == (l, r); }
    PartsUndecided(p, u);
    assert SimplifyTerm(And(l, r)) == And(l, r);
    assert SimplifyTerm(And(Prefix(p), And(n1, n2))) == And(l, r);
    assert SumOfMinterms(And(l, r)) == Distribute(l, r) == And(l, r);
  }

  lemma UnitPartPlain(p: string, u: string)
    requires HasPrefix(u, p)
    ensures var x := And(Prefix(p), Not(Unit(u))); SimplifyTerm(x) == x && SumOfMinterms(x) == x
  {
    var l, r := Prefix(p), Not(Unit(u));
    var x := And(l, r);
    PlainTerms(p, u);
    assert SimplifyTerm(Unit(u)) == Unit(u);
    assert TryIntersects(Unit(u), l) == OwnIntersects(l, Unit(u)) == Just(true);
    assert TryIntersects(l, Unit(u)) == OwnIntersects(l, Unit(u)) == Just(true);
    assert TrySuperset(Unit(u), l) == Nothing && TrySuperset(l, r) == Nothing && TrySuperset(r, l) == Just(false);
    assert TryIntersects(r, l) == Nothing && TryIntersects(l, r) == Nothing;
    assert TrySuperset(Not(r), l) == Nothing && TrySuperset(Not(l), r) == Nothing;
    assert Dist(l, r) == (l, r);
    assert SimplifyTerm(x) == x;
    assert SumOfMinterms(x) == Distribute(l, r) == x;
  }

  lemma PartMembers(p: string, u: string, s: string)
    ensures Contains(And(Prefix(p), Not(Unit(u))), s) <==> HasPrefix(s, p) && s != u
    ensures Contains(And(Prefix(p), Not(Prefix(u + "/"))), s) <==> HasPrefix(s, p) && !HasPrefix(s, u + "/")
    ensures Contains(Not(And(Prefix(p), Not(Unit(u)))), s) <==> !Contains(And(Prefix(p), Not(Unit(u))), s)
    ensures Contains(Not(And(Prefix(p), Not(Prefix(u + "/")))), s) <==> !Contains(And(Prefix(p), Not(Prefix(u + "/"))), s)
  {
    assert Contains(Not(Unit(u)), s) <==> !Contains(Unit(u), s);
    assert Contains(Not(Prefix(u + "/")), s) <==> !Contains(Prefix(u + "/"), s);
  }

  /** No verdict relates the two parts. */
  lemma PartsUndecided(p: string, u: string)
    requires HasPrefix(u, p)
    ensures
      var l, r := And(Prefix(p), Not(Unit(u))), And(Prefix(p), Not(Prefix(u + "/")));
      && !IsTrue(TrySuperset(r, l)) && !IsTrue(TrySuperset(l, r))
      && !IsTrue(TrySuperset(Not(r), l)) && !IsTrue(TrySuperset(Not(l), r))
      && !IsFalse(TryIntersects(l, r))
  {
    var l, r := And(Prefix(p), Not(Unit(u))), And(Prefix(p), Not(Prefix(u + "/")));
    var w, v := u + "a", u + "/";
    assert w[..|p|] == u[..|p|] && w[|u|] == 'a' && v[|u|] == '/' && v[..|p|] == u[..|p|];
    assert !HasPrefix(w, v) && w != u && v != u && !HasPrefix(u, v) && HasPrefix(v, v);
    PartMembers(p, u, u);
    PartMembers(p, u, v);
    PartMembers(p, u, w);
    if IsTrue(TrySuperset(r, l)) { SupersetSound(r, l, v); }
    if IsTrue(TrySuperset(l, r)) { SupersetSound(l, r, u); }
    if IsTrue(TrySuperset(Not(r), l)) { SupersetSound(Not(r), l, w); }
    if IsTrue(TrySuperset(Not(l), r)) { SupersetSound(Not(l), r, w); }
    if IsFalse(TryIntersects(l, r)) { IntersectsSound(l, r, w); }
  }

  lemma WithoutUnitInside(p: string, u: string, depth: nat)
    requires depth > 1 && HasPrefix(u, p)
    ensures BoundingPrefix(And(Prefix(p), Not(Unit(u))), depth) == if p == "" then Bounded("") else Panics
  {
    PrefixWithoutUnitBound(p, u, depth);
  }

  lemma WithoutPrefixAtRoot(p: string, q: string, depth: nat)
    requires depth > 1
    ensures p == "" && q != "" ==> BoundingPrefix(And(Prefix(p), Not(Prefix(q))), depth) == Bounded("")
  {
    hide CommonPrefix;
    if p == "" && q != "" {
      PrefixWithoutPrefix(p, q);
      PlainComplement(q);
      assert Simplified(Prefix("")) == Prefix("");
      assert BoundingPrefix(Prefix(""), depth - 1) == Bounded("") && BoundingPrefix(Not(Prefix(q)), depth - 1) == Bounded("");
      EmptyCommon("");
    }
  }

  lemma EmptyCommon(p: string)
    ensures HasPrefix(p, "") && (HasPrefix("", p) <==> p == "") && CommonPrefix(p, "") == ""
  {}

  lemma PrefixAndSuffixSimplified(p: string, e: string)
    ensures
      var x := And(Prefix(p), Suffix(e));
      Simplified(x) == if p == "" && e == "" then Prefix("") else x
  {
    var l, r := Prefix(p), Suffix(e);
    var x := And(l, r);
    assert Dist(l, r) == (l, r);
    if p == "" && e == "" {
      assert SimplifyTerm(x) == l;
      assert SimplifyOnce(x) == l;
      assert SimplifyOnce(l) == l;
    } else {
      assert TryIntersects(l, r) == Just(true) && TryIntersects(r, l) == Just(true);
      assert TrySuperset(Not(r), l) == Just(false) && TrySuperset(Not(l), r) == Just(false);
      assert SimplifyTerm(x) == x;
      assert SumOfMinterms(x) == x;
    }
  }

  // ----- unions of literals: the bound exists and is the longest -----

  predicate UnionOfLiterals(x: Set) {
    match x
    case Unit(_) => true
    case Prefix(_) => true
    case Or(l, r) => UnionOfLiterals(l) && UnionOfLiterals(r)
    case _ => false
  }

  lemma {:induction false} LiteralsDoNotDecideComplements(a: Set, b: Set)
    requires UnionOfLiterals(a)
    ensures TrySuperset(a, Not(b)) == Nothing
  {
    if a.Or? {
      LiteralsDoNotDecideComplements(a.l, b);
      LiteralsDoNotDecideComplements(a.r, b);
    }
  }

  lemma {:induction false} SimplifyTermKeepsLiterals(x: Set)
    requires UnionOfLiterals(x)
    ensures UnionOfLiterals(SimplifyTerm(x)) && Size(SimplifyTerm(x)) <= Size(x)
  {
    if x.Or? {
      SimplifyTermKeepsLiterals(x.l);
      SimplifyTermKeepsLiterals(x.r);
      var l, r := SimplifyTerm(x.l), SimplifyTerm(x.r);
      LiteralsDoNotDecideComplements(l, r);
      LiteralsDoNotDecideComplements(r, l);
    }
  }

  lemma {:induction false} MintermsKeepLiterals(x: Set)
    requires UnionOfLiterals(x)
    ensures SumOfMinterms(x) == x
  {
    if x.Or? {
      MintermsKeepLiterals(x.l);
      MintermsKeepLiterals(x.r);
    }
  }

  lemma {:induction false} RoundsKeepLiterals(x: Set, rounds: nat)
    requires UnionOfLiterals(x)
    ensures UnionOfLiterals(Rounds(x, rounds)) && Size(Rounds(x, rounds)) <= Size(x)
    decreases rounds
  {
    SimplifyTermKeepsLiterals(x);
    MintermsKeepLiterals(SimplifyTerm(x));
    if rounds > 0 && SimplifyOnce(x) != x {
      RoundsKeepLiterals(SimplifyOnce(x), rounds - 1);
    }
  }

  lemma SimplifiedKeepsLiterals(x: Set)
    requires UnionOfLiterals(x)
    ensures UnionOfLiterals(Simplified(x)) && Size(Simplified(x)) <= Size(x)
  {
    RoundsKeepLiterals(x, MAX_ROUNDS);
  }

  /** On a union of units and prefixes the recursion terminates within the term's size, does not
      panic, and a string bounds the set exactly when it is a prefix of the answer. */
  lemma {:induction false} LiteralBoundIsLongest(x: Set, depth: nat, q: string)
    requires UnionOfLiterals(x) && depth >= Size(x)
    ensures BoundingPrefix(x, depth).Bounded?
    ensures HasPrefix(BoundingPrefix(x, depth).prefix, q) <==> Subsumes(Prefix(q), x)
    decreases depth
  {
    hide Simplified, CommonPrefix, CommonPrefixLen, HasPrefix, Contains, Subsumes;
    SimplifiedKeepsLiterals(x);
    var y := Simplified(x);
    forall s: string ensures Contains(y, s) == Contains(x, s) { SimplifyMeaning(x, s); }
    SubsumesSame(Prefix(q), x, y);
    match y
    case Unit(u) => LiteralBound(y, u, q);
    case Prefix(p) => LiteralBound(y, p, q);
    case Or(l, r) =>
      LiteralBoundIsLongest(l, depth - 1, q);
      LiteralBoundIsLongest(r, depth - 1, q);
      CommonPrefixIsGreatest(BoundingPrefix(l, depth - 1).prefix, BoundingPrefix(r, depth - 1).prefix, q);
      SubsumesUnion(Prefix(q), l, r);
  }

  lemma LiteralBound(y: Set, p: string, q: string)
    requires y == Unit(p) || y == Prefix(p)
    ensures HasPrefix(p, q) <==> Subsumes(Prefix(q), y)
  {
    assert Contains(y, p);
    if HasPrefix(p, q) {
      forall s: string | Contains(y, s) ensures Contains(Prefix(q), s) {
        PrefixTransitive(s, p, q);
      }
    } else {
      assert !Contains(Prefix(q), p);
    }
  }

  lemma SubsumesUnion(a: Set, l: Set, r: Set)
    ensures Subsumes(a, Or(l, r)) <==> Subsumes(a, l) && Subsumes(a, r)
  {
    assert forall s: string :: Contains(Or(l, r), s) <==> Contains(l, s) || Contains(r, s);
  }

  lemma SubsumesSame(a: Set, x: Set, y: Set)
    requires forall s: string :: Contains(y, s) == Contains(x, s)
    ensures Subsumes(a, x) <==> Subsumes(a, y)
  {}

  // ----- the guard on statement files is exact on unions of literals -----

  lemma {:induction false} LiteralsMissComplement(x: Set, d: string)
    requires UnionOfLiterals(x) && Subsumes(Prefix(d), x)
    ensures IsFalse(OwnIntersects(x, Not(Prefix(d)))) || IsFalse(OwnIntersects(Not(Prefix(d)), x))
    ensures OwnIntersects(x, Not(Prefix(d))) != Just(true)
    ensures IsFalse(TryIntersects(x, Not(Prefix(d))))
    decreases x
  {
    var n := Not(Prefix(d));
    match x
    case Unit(u) =>
      assert Contains(x, u);
      assert TrySuperset(Prefix(d), x) == Just(true);
    case Prefix(p) =>
      assert Contains(x, p);
      assert TrySuperset(Prefix(d), x) == Just(true);
    case Or(l, r) =>
      SubsumesUnion(Prefix(d), l, r);
      LiteralsMissComplement(l, d);
      LiteralsMissComplement(r, d);
  }

  /** The complement of a prefix does not know, or says it misses the literals below the prefix. */
  lemma {:induction false} ComplementMissesLiterals(x: Set, d: string)
    requires UnionOfLiterals(x) && Subsumes(Prefix(d), x)
    ensures IsFalse(TryIntersects(Not(Prefix(d)), x))
  {
    LiteralsMissComplement(x, d);
    LiteralsNonempty(x);
    var s: string :| Contains(x, s);
    if IsFalse(TryIntersects(Prefix(d), x)) { IntersectsSound(Prefix(d), x, s); }
  }

  lemma {:induction false} LiteralsNonempty(x: Set)
    requires UnionOfLiterals(x)
    ensures Nonempty(x)
  {
    match x
    case Unit(u) => assert Contains(x, u);
    case Prefix(p) => assert Contains(x, p);
    case Or(l, _) =>
      LiteralsNonempty(l);
      var s: string :| Contains(l, s);
      assert Contains(x, s);
  }

  /** What the fallback of the guard simplifies: below the prefix it is found empty at once. */
  lemma SubtractedIsEmpty(x: Set, d: string)
    requires UnionOfLiterals(x) && x.Or? && Subsumes(Prefix(d), x)
    ensures Simplified(And(x, Not(Prefix(d)))) == Empty
  {
    var n := Not(Prefix(d));
    var l := SimplifyTerm(x);
    SimplifyTermKeepsLiterals(x);
    forall s: string ensures Contains(l, s) == Contains(x, s) { SimplifyTermMeaning(x, s); }
    SubsumesSame(Prefix(d), x, l);
    ComplementMissesLiterals(l, d);
    LiteralsDoNotDecideComplements(l, Prefix(d));
    NotInComplement(l, d);
    TrueOfDoubleComplement(n, l);
    SubtractedOnce(x, l, d);
    assert SimplifyOnce(Empty) == Empty;
    OneRound(And(x, n), Empty);
  }

  lemma NotInComplement(l: Set, d: string)
    requires UnionOfLiterals(l) && Subsumes(Prefix(d), l)
    ensures !IsTrue(TrySuperset(Not(Prefix(d)), l))
  {
    LiteralsNonempty(l);
    var s: string :| Contains(l, s);
    if IsTrue(TrySuperset(Not(Prefix(d)), l)) { SupersetSound(Not(Prefix(d)), l, s); }
  }

  lemma TrueOfDoubleComplement(n: Set, l: Set)
    requires IsFalse(TryIntersects(n, l))
    ensures TrySuperset(Not(n), l) == Just(true)
  {}

  lemma SubtractedOnce(x: Set, l: Set, d: string)
    requires x.Or? && l == SimplifyTerm(x) && UnionOfLiterals(l)
    requires !IsTrue(TrySuperset(Not(Prefix(d)), l)) && TrySuperset(l, Not(Prefix(d))) == Nothing
    requires TrySuperset(Not(Not(Prefix(d))), l) == Just(true)
    ensures SimplifyOnce(And(x, Not(Prefix(d)))) == Empty
  {
    hide TrySuperset, TryIntersects;
    var n := Not(Prefix(d));
    assert Dist(x, n) == (x, n);
    assert SimplifyTerm(n) == n by { assert SimplifyTerm(Prefix(d)) == Prefix(d); }
    assert SimplifyTerm(And(x, n)) == Empty;
  }

  /** On sets built from paths and prefixes the guard accepts exactly what lies below the directory. */
  lemma GuardExactOnLiterals(x: Set, d: string)
    requires UnionOfLiterals(x)
    ensures Superset(Prefix(d), x) <==> Subsumes(Prefix(d), x)
  {
    hide Simplified, SimplifyTerm;
    if Superset(Prefix(d), x) { SupersetTrueSubsumes(Prefix(d), x); }
    if Subsumes(Prefix(d), x) {
      match x
      case Unit(u) => assert Contains(x, u);
      case Prefix(p) => assert Contains(x, p);
      case Or(_, _) =>
        SubtractedIsEmpty(x, d);
        EmptyStays();
    }
  }

  lemma EmptyStays()
    ensures Simplified(Empty) == Empty
  {}

  // ----- and on paths with a prefix and a suffix -----

  lemma BelowWithSuffix(p: string, q: string, e: string)
    ensures Subsumes(Prefix(p), And(Prefix(q), Suffix(e))) <==> HasPrefix(q, p)
  {
    var x := And(Prefix(q), Suffix(e));
    if HasPrefix(q, p) {
      forall s: string | Contains(x, s) ensures Contains(Prefix(p), s) {
        ConjunctionMembers(Prefix(q), Suffix(e), s);
        PrefixTransitive(s, q, p);
      }
    } else {
      var w := if |q| < |p| then q + [if p[|q|] == 'a' then 'b' else 'a'] + e else q + e;
      assert Contains(Prefix(q), w) && Contains(Suffix(e), w);
      assert Contains(x, w);
      if |q| < |p| {
        assert w[|q|] != p[|q|];
        assert |p| <= |w| ==> w[..|p|][|q|] == w[|q|];
      } else {
        assert w[..|p|] == q[..|p|];
      }
      assert !Contains(Prefix(p), w);
    }
  }

  /** On the paths with a given prefix and suffix the guard accepts exactly what lies below the directory,
      through the fallback simplification. */
  lemma GuardExactOnPrefixAndSuffix(p: string, q: string, e: string)
    ensures Superset(Prefix(p), And(Prefix(q), Suffix(e))) <==> HasPrefix(q, p)
  {
    hide Simplified, SimplifyTerm, Subsumes, HasPrefix;
    var x := And(Prefix(q), Suffix(e));
    BelowWithSuffix(p, q, e);
    if Superset(Prefix(p), x) { SupersetTrueSubsumes(Prefix(p), x); }
    if HasPrefix(q, p) {
      PartsSubtracted(p, q, e);
      EmptyStays();
    }
  }

  lemma PartsSubtracted(p: string, q: string, e: string)
    requires HasPrefix(q, p)
    ensures Simplified(And(And(Prefix(q), Suffix(e)), Not(Prefix(p)))) == Empty
  {
    var n := Not(Prefix(p));
    var x := And(And(Prefix(q), Suffix(e)), n);
    var dl, dr := And(Prefix(q), n), And(Suffix(e), n);
    assert Dist(And(Prefix(q), Suffix(e)), n) == (dl, dr) by { assert Dist(dl, dr) == (dl, dr); }
    InsideSubtracted(p, q);
    assert SimplifyTerm(dl) == Empty;
    SuffixSubtracted(p, e);
    EmptyWins(dl, dr);
    assert SimplifyTerm(x) == Empty;
    OneRound(x, Empty);
  }

  lemma InsideSubtracted(p: string, q: string)
    requires HasPrefix(q, p)
    ensures SimplifyTerm(And(Prefix(q), Not(Prefix(p)))) == Empty
  {
    var l, r := Prefix(q), Not(Prefix(p));
    PlainComplement(p);
    assert SimplifyTerm(l) == l;
    assert TrySuperset(Prefix(p), l) == Just(true) && TryIntersects(Prefix(p), l) == Just(true);
    assert TrySuperset(r, l) == Just(false) && TrySuperset(l, r) == Nothing;
    assert TryIntersects(r, l) == Just(false);
    assert TrySuperset(Not(r), l) == Just(true);
    assert Dist(l, r) == (l, r);
  }

  /** Whatever the second part simplifies to, it is a superset of nothing. */
  lemma SuffixSubtracted(p: string, e: string)
    ensures var r := SimplifyTerm(And(Suffix(e), Not(Prefix(p)))); r == Empty || IsTrue(TrySuperset(r, Empty))
  {
    var l, r := Suffix(e), Not(Prefix(p));
    PlainComplement(p);
    assert SimplifyTerm(l) == l;
    assert Dist(l, r) == (l, r);
    assert TrySuperset(l, Empty) == Just(true);
    assert TryIntersects(Prefix(p), Empty) == Just(false);
    assert TrySuperset(r, Empty) == Just(true);
    assert TrySuperset(And(l, r), Empty) == Just(true);
  }

  lemma EmptyWins(dl: Set, dr: Set)
    requires SimplifyTerm(dl) == Empty && (SimplifyTerm(dr) == Empty || IsTrue(TrySuperset(SimplifyTerm(dr), Empty)))
    ensures Dist(dl, dr) == (dl, dr) ==> SimplifyTerm(And(dl, dr)) == Empty
  {}
}
