/** Configuration path sets and their conversion to and from the term algebra. */
module PathSets {
  import opened StringSets
  import opened Simplify

  datatype Option<T> = None | Some(value: T)

  /** A configuration record: optional fields, of which the first one present counts. */
  datatype PathSet = PathSet(
    unit: Option<string>,
    prefix: Option<string>,
    suffix: Option<string>,
    not: Operand,
    union: Operands,
    intersect: Operands)

  datatype Operand = NoOperand | Operand(q: PathSet)

  datatype Operands = NoOperands | Operands(qs: seq<PathSet>)

  const NOTHING := PathSet(None, None, None, NoOperand, NoOperands, NoOperands)

  /** The members a configuration record denotes, read off the record itself. */
  predicate Denotes(q: PathSet, s: string) {
    if q.unit.Some? then s == q.unit.value
    else if q.prefix.Some? then HasPrefix(s, q.prefix.value)
    else if q.suffix.Some? then HasSuffix(s, q.suffix.value)
    else if q.union.Operands? then exists i :: 0 <= i < |q.union.qs| && Denotes(q.union.qs[i], s)
    else if q.intersect.Operands? then forall i :: 0 <= i < |q.intersect.qs| ==> Denotes(q.intersect.qs[i], s)
    else if q.not.Operand? then !Denotes(q.not.q, s)
    else false
  }

  // ----- balanced n-ary operations -----

  function Union(xs: seq<Set>): Set {
    var n := |xs|;
    if n == 0 then Empty
    else if n == 1 then xs[0]
    else if n == 2 then Or(xs[0], xs[1])
    else Or(Union(xs[..n / 2]), Union(xs[n / 2..]))
  }

  function Intersection(xs: seq<Set>): Set {
    var n := |xs|;
    if n == 0 then Top
    else if n == 1 then xs[0]
    else if n == 2 then And(xs[0], xs[1])
    else And(Intersection(xs[..n / 2]), Intersection(xs[n / 2..]))
  }

  ghost predicate SomeContains(xs: seq<Set>, s: string) {
    exists i :: 0 <= i < |xs| && Contains(xs[i], s)
  }

  ghost predicate AllContain(xs: seq<Set>, s: string) {
    forall i :: 0 <= i < |xs| ==> Contains(xs[i], s)
  }

  lemma HalvesQuantify(xs: seq<Set>, k: nat, s: string)
    requires k <= |xs|
    ensures SomeContains(xs, s) <==> SomeContains(xs[..k], s) || SomeContains(xs[k..], s)
    ensures AllContain(xs, s) <==> AllContain(xs[..k], s) && AllContain(xs[k..], s)
  {
    assert forall i :: 0 <= i < k ==> xs[..k][i] == xs[i];
    assert forall i :: k <= i < |xs| ==> xs[k..][i - k] == xs[i];
  }

  lemma {:induction false} UnionMeaning(xs: seq<Set>, s: string)
    ensures Contains(Union(xs), s) <==> SomeContains(xs, s)
    decreases |xs|
  {
    var n := |xs|;
    if n > 2 {
      UnionMeaning(xs[..n / 2], s);
      UnionMeaning(xs[n / 2..], s);
      HalvesQuantify(xs, n / 2, s);
    } else if n > 0 {
      assert SomeContains(xs, s) <==> Contains(xs[0], s) || Contains(xs[n - 1], s);
    }
  }

  lemma {:induction false} IntersectionMeaning(xs: seq<Set>, s: string)
    ensures Contains(Intersection(xs), s) <==> AllContain(xs, s)
    decreases |xs|
  {
    var n := |xs|;
    if n > 2 {
      IntersectionMeaning(xs[..n / 2], s);
      IntersectionMeaning(xs[n / 2..], s);
      HalvesQuantify(xs, n / 2, s);
    } else if n > 0 {
      assert AllContain(xs, s) <==> Contains(xs[0], s) && Contains(xs[n - 1], s);
    }
  }

  // ----- conversions -----

  function FromPathSet(q: PathSet): Set {
    if q.unit.Some? then Unit(q.unit.value)
    else if q.prefix.Some? then Prefix(q.prefix.value)
    else if q.suffix.Some? then Suffix(q.suffix.value)
    else if q.union.Operands? then
      Simplified(Union(FromPathSets(q.union.qs)))
    else if q.intersect.Operands? then
      Simplified(Intersection(FromPathSets(q.intersect.qs)))
    else if q.not.Operand? then Not(FromPathSet(q.not.q))
    else Empty
  }

  function FromPathSets(qs: seq<PathSet>): (xs: seq<Set>)
    ensures |xs| == |qs| && forall i :: 0 <= i < |qs| ==> xs[i] == FromPathSet(qs[i])
  {
    seq(|qs|, i requires 0 <= i < |qs| => FromPathSet(qs[i]))
  }

  /** The converted term has exactly the members the record denotes. */
  lemma {:induction false} FromPathSetMeaning(q: PathSet, s: string)
    ensures Contains(FromPathSet(q), s) <==> Denotes(q, s)
  {
    if q.unit.Some? || q.prefix.Some? || q.suffix.Some? {
    } else if q.union.Operands? {
      var qs := q.union.qs;
      var xs := FromPathSets(qs);
      forall i | 0 <= i < |qs| ensures Contains(xs[i], s) <==> Denotes(qs[i], s) { FromPathSetMeaning(qs[i], s); }
      SimplifyMeaning(Union(xs), s);
      UnionMeaning(xs, s);
    } else if q.intersect.Operands? {
      var qs := q.intersect.qs;
      var xs := FromPathSets(qs);
      forall i | 0 <= i < |qs| ensures Contains(xs[i], s) <==> Denotes(qs[i], s) { FromPathSetMeaning(qs[i], s); }
      SimplifyMeaning(Intersection(xs), s);
      IntersectionMeaning(xs, s);
    } else if q.not.Operand? {
      FromPathSetMeaning(q.not.q, s);
    }
  }

  /** The universe and the empty set have no configuration form: the source panics on them. */
  predicate Expressible(x: Set) {
    match x
    case And(l, r) => Expressible(l) && Expressible(r)
    case Or(l, r) => Expressible(l) && Expressible(r)
    case Not(y) => Expressible(y)
    case Top => false
    case Empty => false
    case _ => true
  }

  function ToPathSet(x: Set): PathSet
    requires Expressible(x)
  {
    match x
    case Unit(u) => NOTHING.(unit := Some(u))
    case Prefix(p) => NOTHING.(prefix := Some(p))
    case Suffix(e) => NOTHING.(suffix := Some(e))
    case Not(y) => NOTHING.(not := Operand(ToPathSet(y)))
    case And(l, r) => NOTHING.(intersect := Operands([ToPathSet(l), ToPathSet(r)]))
    case Or(l, r) => NOTHING.(union := Operands([ToPathSet(l), ToPathSet(r)]))
  }

  lemma {:induction false} ToPathSetMeaning(x: Set, s: string)
    requires Expressible(x)
    ensures Denotes(ToPathSet(x), s) <==> Contains(x, s)
  {
    match x
    case Not(y) => ToPathSetMeaning(y, s);
    case And(l, r) =>
      ToPathSetMeaning(l, s);
      ToPathSetMeaning(r, s);
      var qs := ToPathSet(x).intersect.qs;
      assert Denotes(ToPathSet(x), s) <==> Denotes(qs[0], s) && Denotes(qs[1], s);
    case Or(l, r) =>
      ToPathSetMeaning(l, s);
      ToPathSetMeaning(r, s);
      var qs := ToPathSet(x).union.qs;
      assert Denotes(ToPathSet(x), s) <==> Denotes(qs[0], s) || Denotes(qs[1], s);
    case _ =>
  }

  /** Converting there and back gives a possibly different term with the same members. */
  lemma RoundTripMeaning(x: Set, s: string)
    requires Expressible(x)
    ensures Contains(FromPathSet(ToPathSet(x)), s) == Contains(x, s)
  {
    ToPathSetMeaning(x, s);
    FromPathSetMeaning(ToPathSet(x), s);
  }

  /** Records for which the order of arguments matters: an intersection of nothing is the universe, and
      a record without fields the empty set. */
  lemma OrderMattersForRecords(q: PathSet, q': PathSet)
    requires q.unit.None? && q.prefix.None? && q.suffix.None? && q.union.NoOperands? && q.intersect == Operands([])
    requires q' == NOTHING
    ensures FromPathSet(q) == Top && FromPathSet(q') == Empty
    ensures Intersects(FromPathSet(q), FromPathSet(q')) && !Intersects(FromPathSet(q'), FromPathSet(q))
  {
    assert Intersection(FromPathSets([])) == Top;
    assert SimplifyOnce(Top) == Top;
    UniverseOrderMattersIff(Empty);
  }
}
