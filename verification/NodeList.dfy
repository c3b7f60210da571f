/** The stored form of a graph: nodes refer to their inputs by relative offset, inputs are sorted
    by name, and fact nodes are listed a second time in a table that is checked on reading. */
module NodeList {
  import opened Dag

  const TWO32 := 0x1_0000_0000

  /** Subtraction on 32-bit unsigned integers. */
  function Sub32(a: int, b: int): nat {
    (a - b) % TWO32
  }

  datatype WireInput = WireInput(to: string, from: nat)

  datatype WireNode = WireNode(value: Option<Ref>, op: string, inputs: seq<WireInput>)

  predicate IsZero(cid: string) {
    forall k :: 0 <= k < |cid| ==> cid[k] == 0 as char
  }

  // ----- sorting by name -----

  predicate LexLe(a: string, b: string) {
    a == "" || (b != "" && (a[0] < b[0] || (a[0] == b[0] && LexLe(a[1..], b[1..]))))
  }

  lemma {:induction false} LexTotal(a: string, b: string)
    ensures LexLe(a, b) || LexLe(b, a)
    ensures LexLe(a, b) && LexLe(b, a) ==> a == b
    decreases |a|
  {
    if a != "" && b != "" && a[0] == b[0] {
      LexTotal(a[1..], b[1..]);
      assert a == [a[0]] + a[1..] && b == [b[0]] + b[1..];
    }
  }

  lemma {:induction false} LexTransitive(a: string, b: string, c: string)
    requires LexLe(a, b) && LexLe(b, c)
    ensures LexLe(a, c)
    decreases |a|
  {
    if a != "" && a[0] == b[0] == c[0] { LexTransitive(a[1..], b[1..], c[1..]); }
  }

  /** The usual order of strings: at the first difference the smaller character decides, and a prefix comes
      first. */
  lemma {:induction false} LexLeIff(a: string, b: string)
    ensures LexLe(a, b) <==>
            (|a| <= |b| && a == b[..|a|]) || exists n :: 0 <= n < |a| && n < |b| && a[..n] == b[..n] && a[n] < b[n]
    decreases |a|
  {
    if a == "" {
    } else if b == "" {
    } else if a[0] != b[0] {
      forall n | 0 < n <= |a| && n <= |b| ensures a[..n] != b[..n] {
        assert a[..n][0] == a[0] && b[..n][0] == b[0];
      }
      assert a == a[..|a|];
      assert a[..0] == b[..0];
    } else {
      LexLeIff(a[1..], b[1..]);
      ShiftedDifference(a, b);
    }
  }

  lemma ShiftedDifference(a: string, b: string)
    requires a != "" && b != "" && a[0] == b[0]
    ensures (|a| <= |b| && a == b[..|a|]) <==> (|a[1..]| <= |b[1..]| && a[1..] == b[1..][..|a[1..]|])
    ensures (exists n :: 0 <= n < |a| && n < |b| && a[..n] == b[..n] && a[n] < b[n]) <==>
            exists n :: 0 <= n < |a[1..]| && n < |b[1..]| && a[1..][..n] == b[1..][..n] && a[1..][n] < b[1..][n]
  {
    var a', b' := a[1..], b[1..];
    if |a| <= |b| {
      assert b[..|a|] == [b[0]] + b'[..|a'|];
      assert a == [a[0]] + a';
    }
    if n :| 0 <= n < |a| && n < |b| && a[..n] == b[..n] && a[n] < b[n] {
      var m := n - 1;
      assert a[..n][1..] == a'[..m] && b[..n][1..] == b'[..m];
      assert a'[m] < b'[m];
    }
    if m :| 0 <= m < |a'| && m < |b'| && a'[..m] == b'[..m] && a'[m] < b'[m] {
      var n := m + 1;
      assert a[..n] == [a[0]] + a'[..m] && b[..n] == [b[0]] + b'[..m];
      assert a[n] < b[n];
    }
  }

  function Insert<T>(key: T -> string, x: T, ys: seq<T>): seq<T> {
    if ys == [] || LexLe(key(x), key(ys[0])) then [x] + ys else [ys[0]] + Insert(key, x, ys[1..])
  }

  function SortBy<T>(key: T -> string, xs: seq<T>): seq<T> {
    if xs == [] then [] else Insert(key, xs[0], SortBy(key, xs[1..]))
  }

  ghost predicate Sorted<T(!new)>(key: T -> string, xs: seq<T>) {
    forall i, j :: 0 <= i < j < |xs| ==> LexLe(key(xs[i]), key(xs[j]))
  }

  ghost predicate DistinctKeys<T(!new)>(key: T -> string, xs: seq<T>) {
    forall i, j :: 0 <= i < j < |xs| ==> key(xs[i]) != key(xs[j])
  }

  lemma {:induction false} InsertSorted<T(!new)>(key: T -> string, x: T, ys: seq<T>)
    requires Sorted(key, ys)
    ensures Sorted(key, Insert(key, x, ys))
    ensures multiset(Insert(key, x, ys)) == multiset([x] + ys)
    decreases |ys|
  {
    if ys == [] {
    } else if LexLe(key(x), key(ys[0])) {
      forall j | 0 <= j < |ys| ensures LexLe(key(x), key(ys[j])) {
        if j > 0 { LexTransitive(key(x), key(ys[0]), key(ys[j])); }
      }
    } else {
      LexTotal(key(x), key(ys[0]));
      InsertSorted(key, x, ys[1..]);
      var rest := Insert(key, x, ys[1..]);
      assert ys == [ys[0]] + ys[1..];
      forall j | 0 <= j < |rest| ensures LexLe(key(ys[0]), key(rest[j])) {
        assert rest[j] in multiset(rest);
        assert rest[j] == x || rest[j] in ys[1..];
      }
    }
  }

  lemma {:induction false} SortBySorts<T(!new)>(key: T -> string, xs: seq<T>)
    ensures Sorted(key, SortBy(key, xs)) && multiset(SortBy(key, xs)) == multiset(xs)
    decreases |xs|
  {
    if xs != [] {
      SortBySorts(key, xs[1..]);
      InsertSorted(key, xs[0], SortBy(key, xs[1..]));
      assert xs == [xs[0]] + xs[1..];
    }
  }

  /** Sorting what is already sorted changes nothing. */
  lemma {:induction false} SortBySorted<T(!new)>(key: T -> string, xs: seq<T>)
    requires Sorted(key, xs)
    ensures SortBy(key, xs) == xs
    decreases |xs|
  {
    if xs != [] { SortBySorted(key, xs[1..]); }
  }

  lemma SortedHeads<T(!new)>(key: T -> string, a: seq<T>, b: seq<T>)
    requires Sorted(key, a) && Sorted(key, b) && multiset(a) == multiset(b) && DistinctKeys(key, a)
    requires a != [] && b != []
    ensures a[0] == b[0]
  {
    assert a[0] in multiset(b) && b[0] in multiset(a);
    var i :| 0 <= i < |b| && b[i] == a[0];
    var j :| 0 <= j < |a| && a[j] == b[0];
    LexTotal(key(a[0]), key(b[0]));
  }

  lemma MultisetTail<T>(a: seq<T>)
    requires a != []
    ensures multiset(a[1..]) == multiset(a) - multiset{a[0]}
  {
    assert a == [a[0]] + a[1..];
  }

  /** With distinct names there is only one sorted arrangement, so any sorting algorithm, stable or
      not, gives this one. */
  lemma {:induction false} SortedUnique<T(!new)>(key: T -> string, a: seq<T>, b: seq<T>)
    requires Sorted(key, a) && Sorted(key, b) && multiset(a) == multiset(b) && DistinctKeys(key, a)
    ensures a == b
    decreases |a|
  {
    hide LexLe;
    assert |multiset(a)| == |a| && |multiset(b)| == |b|;
    if a != [] {
      SortedHeads(key, a, b);
      MultisetTail(a);
      MultisetTail(b);
      SortedUnique(key, a[1..], b[1..]);
    }
  }

  function Map<A, B>(f: A -> B, xs: seq<A>): (ys: seq<B>)
    ensures |ys| == |xs| && forall i :: 0 <= i < |xs| ==> ys[i] == f(xs[i])
  {
    seq(|xs|, i requires 0 <= i < |xs| => f(xs[i]))
  }

  lemma {:induction false} InsertMap<A(!new), B>(f: A -> B, ka: A -> string, kb: B -> string, x: A, ys: seq<A>)
    requires forall a :: kb(f(a)) == ka(a)
    ensures Insert(kb, f(x), Map(f, ys)) == Map(f, Insert(ka, x, ys))
    decreases |ys|
  {
    if ys != [] {
      InsertMap(f, ka, kb, x, ys[1..]);
      assert Map(f, ys)[1..] == Map(f, ys[1..]);
    }
  }

  /** Sorting commutes with a renaming of the items that keeps their names. */
  lemma {:induction false} SortMap<A(!new), B>(f: A -> B, ka: A -> string, kb: B -> string, xs: seq<A>)
    requires forall a :: kb(f(a)) == ka(a)
    ensures SortBy(kb, Map(f, xs)) == Map(f, SortBy(ka, xs))
    decreases |xs|
  {
    if xs != [] {
      SortMap(f, ka, kb, xs[1..]);
      assert Map(f, xs)[1..] == Map(f, xs[1..]);
      InsertMap(f, ka, kb, xs[0], SortBy(ka, xs[1..]));
    }
  }

  // ----- one node -----

  function NameOf(i: NodeInput): string { i.name }

  function ToOf(i: WireInput): string { i.to }

  function ToWire(nid: nat): NodeInput -> WireInput {
    (i: NodeInput) => WireInput(i.name, Sub32(nid, i.node))
  }

  function FromWire(nid: nat): WireInput -> NodeInput {
    (i: WireInput) => NodeInput(i.to, Sub32(nid, i.from))
  }

  function EncodeNode(nid: nat, x: Node): WireNode {
    WireNode(x.value, x.op, SortBy(ToOf, Map(ToWire(nid), x.inputs)))
  }

  function DecodeNode(nid: nat, x: WireNode): Node {
    Node(x.value, x.op, Map(FromWire(nid), x.inputs))
  }

  /** What the writer demands of the node it is about to number nid. */
  predicate Addable(nid: nat, x: Node) {
    (x.IsFact() ==> !IsZero(x.value.value.cid)) && InRange(x.inputs, nid)
  }

  function SortedNode(x: Node): Node {
    x.(inputs := SortBy(NameOf, x.inputs))
  }

  lemma WireInverse(nid: nat, i: NodeInput)
    requires nid < TWO32 && i.node < nid
    ensures 0 < ToWire(nid)(i).from <= nid && FromWire(nid)(ToWire(nid)(i)) == i
    ensures ToWire(nid)(i) == WireInput(i.name, nid - i.node)
  {}

  /** Reading back one node gives it with its inputs sorted; no subtraction wraps. */
  lemma NodeRoundTrip(nid: nat, x: Node)
    requires nid < TWO32 && InRange(x.inputs, nid)
    ensures DecodeNode(nid, EncodeNode(nid, x)) == SortedNode(x)
    ensures forall k :: 0 <= k < |EncodeNode(nid, x).inputs| ==> 0 < EncodeNode(nid, x).inputs[k].from <= nid
    ensures |EncodeNode(nid, x).inputs| == |SortedNode(x).inputs|
    ensures forall k :: 0 <= k < |SortedNode(x).inputs| ==>
              EncodeNode(nid, x).inputs[k] == WireInput(SortedNode(x).inputs[k].name, nid - SortedNode(x).inputs[k].node)
  {
    hide ToWire, FromWire, SortBy;
    var sorted := SortBy(NameOf, x.inputs);
    assert forall i: NodeInput :: ToOf(ToWire(nid)(i)) == NameOf(i) by { WireKeepsNames(nid); }
    SortMap(ToWire(nid), NameOf, ToOf, x.inputs);
    SortBySorts(NameOf, x.inputs);
    forall k | 0 <= k < |sorted|
      ensures 0 < ToWire(nid)(sorted[k]).from <= nid && FromWire(nid)(ToWire(nid)(sorted[k])) == sorted[k]
      ensures sorted[k].node < nid && ToWire(nid)(sorted[k]) == WireInput(sorted[k].name, nid - sorted[k].node)
    {
      assert sorted[k] in multiset(x.inputs);
      assert sorted[k] in x.inputs;
      WireInverse(nid, sorted[k]);
    }
    assert DecodeNode(nid, EncodeNode(nid, x)).inputs == sorted;
  }

  lemma WireKeepsNames(nid: nat)
    ensures forall i: NodeInput :: ToOf(ToWire(nid)(i)) == NameOf(i)
  {}

  /** The reader does not check offsets.  An offset larger than the position wraps around: a decoded
      input refers backwards exactly when its offset is at most the position, and otherwise it refers
      into a graph of n nodes only if the graph is large enough for the wrapped number. */
  lemma DecodedBackwardIff(nid: nat, i: WireInput, n: nat)
    requires nid < n <= TWO32 && 0 < i.from < TWO32
    ensures FromWire(nid)(i).node < nid <==> i.from <= nid
    ensures FromWire(nid)(i).node < n <==> i.from <= nid || i.from > nid + (TWO32 - n)
    ensures i.from <= nid ==> FromWire(nid)(i).node == nid - i.from
    ensures i.from > nid ==> FromWire(nid)(i).node == TWO32 - (i.from - nid)
  {
    if i.from <= nid {
      assert Sub32(nid, i.from) == nid - i.from;
    } else {
      assert (nid - i.from) % TWO32 == nid - i.from + TWO32;
    }
  }

  // ----- the writer and the reader -----

  datatype AddResult = Added(nid: NodeID) | ZeroValue | DanglingReference

  class NodeListWriter {
    var out: seq<WireNode>
    var nodeCount: nat

    ghost predicate Valid()
      reads this
    {
      nodeCount == |out|
    }

    constructor ()
      ensures Valid() && out == []
    {
      out, nodeCount := [], 0;
    }

    /** Appends the encoded node, or rejects it and leaves the list as it was. */
    method Add(x: Node) returns (r: AddResult)
      requires Valid()
      modifies this
      ensures Valid()
      ensures r.Added? <==> Addable(old(nodeCount) % TWO32, x)
      ensures r.Added? ==> r.nid == old(nodeCount) % TWO32 && out == old(out) + [EncodeNode(r.nid, x)]
      ensures !r.Added? ==> out == old(out)
      ensures r.ZeroValue? <==> x.IsFact() && IsZero(x.value.value.cid)
    {
      if x.value.Some? && IsZero(x.value.value.cid) {
        return ZeroValue;
      }
      var nid := nodeCount % TWO32;
      var inputs: seq<WireInput> := [];
      var k := 0;
      while k < |x.inputs|
        invariant 0 <= k <= |x.inputs|
        invariant InRange(x.inputs[..k], nid)
        invariant inputs == Map(ToWire(nid), x.inputs[..k])
      {
        var input := x.inputs[k];
        if input.node >= nid {
          return DanglingReference;
        }
        inputs := inputs + [WireInput(input.name, Sub32(nid, input.node))];
        k := k + 1;
      }
      assert x.inputs[..k] == x.inputs;
      out := out + [WireNode(x.value, x.op, SortBy(ToOf, inputs))];
      nodeCount := nodeCount + 1;
      return Added(nid);
    }
  }

  datatype NextResult = Next(node: Node) | EndOfStream | ZeroOffset(name: string)

  predicate OffsetsNonzero(x: WireNode) {
    forall k :: 0 <= k < |x.inputs| ==> x.inputs[k].from != 0
  }

  /** The name of the first input whose offset is zero. */
  predicate FirstZero(x: WireNode, name: string) {
    exists k :: 0 <= k < |x.inputs| && x.inputs[k] == WireInput(name, 0) && OffsetsNonzero(x.(inputs := x.inputs[..k]))
  }

  class NodeListReader {
    const src: seq<WireNode>
    var pos: nat
    var nextNode: nat

    ghost predicate Valid()
      reads this
    {
      pos <= |src| && nextNode == pos % TWO32
    }

    constructor (src: seq<WireNode>)
      ensures Valid() && this.src == src && pos == 0
    {
      this.src := src;
      pos, nextNode := 0, 0;
    }

    method Read() returns (r: NextResult)
      requires Valid()
      modifies this
      ensures pos <= |src|
      ensures r.EndOfStream? <==> old(pos) == |src|
      ensures r.EndOfStream? ==> pos == old(pos)
      ensures old(pos) < |src| ==> (r.Next? <==> OffsetsNonzero(src[old(pos)]))
      ensures r.ZeroOffset? ==> FirstZero(src[old(pos)], r.name)
      ensures r.Next? ==> Valid() && pos == old(pos) + 1 && r.node == DecodeNode(old(pos) % TWO32, src[old(pos)])
    {
      if pos == |src| {
        return EndOfStream;
      }
      var node := src[pos];
      pos := pos + 1;
      var inputs: seq<NodeInput> := [];
      var k := 0;
      while k < |node.inputs|
        invariant 0 <= k <= |node.inputs|
        invariant forall m :: 0 <= m < k ==> node.inputs[m].from != 0
        invariant inputs == Map(FromWire(nextNode), node.inputs[..k])
      {
        var input := node.inputs[k];
        if input.from == 0 {
          return ZeroOffset(input.to);
        }
        inputs := inputs + [NodeInput(input.to, Sub32(nextNode, input.from))];
        k := k + 1;
      }
      assert node.inputs[..k] == node.inputs;
      r := Next(Node(node.value, node.op, inputs));
      nextNode := (nextNode + 1) % TWO32;
    }
  }
}
