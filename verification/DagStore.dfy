/** Posting a graph and getting it back: the node list plus the table of facts. */
module DagStore {
  import opened Dag
  import opened NodeList

  // ----- names of nodes -----

  const HEX := "0123456789abcdef"

  /** Fixed-width hexadecimal. */
  function Hex(x: nat, width: nat): string {
    if width == 0 then "" else Hex(x / 16, width - 1) + [HEX[x % 16]]
  }

  function NodeName(i: NodeID): string {
    Hex(i, 16)
  }

  function Pow16(w: nat): nat {
    if w == 0 then 1 else 16 * Pow16(w - 1)
  }

  lemma HexDigitsDistinct(a: nat, b: nat)
    requires a < 16 && b < 16 && HEX[a] == HEX[b]
    ensures a == b
  {}

  lemma {:induction false} HexInjective(x: nat, y: nat, w: nat)
    requires x < Pow16(w) && y < Pow16(w) && Hex(x, w) == Hex(y, w)
    ensures x == y
    decreases w
  {
    if w > 0 {
      var hx, hy := Hex(x / 16, w - 1), Hex(y / 16, w - 1);
      HexLength(x / 16, w - 1);
      HexLength(y / 16, w - 1);
      assert hx == Hex(x, w)[..w - 1] && hy == Hex(y, w)[..w - 1];
      assert HEX[x % 16] == Hex(x, w)[w - 1] && HEX[y % 16] == Hex(y, w)[w - 1];
      HexDigitsDistinct(x % 16, y % 16);
      HexInjective(x / 16, y / 16, w - 1);
    }
  }

  lemma {:induction false} HexLength(x: nat, w: nat)
    ensures |Hex(x, w)| == w
    decreases w
  {
    if w > 0 { HexLength(x / 16, w - 1); }
  }

  lemma Pow16Of16()
    ensures Pow16(16) == 0x1_0000_0000_0000_0000
  {
    assert Pow16(8) == TWO32;
    assert Pow16(12) == 0x1_0000_0000_0000;
  }

  /** The value of a hexadecimal digit, by its character code. */
  function DigitValue(c: char): nat {
    if '0' <= c <= '9' then c as int - '0' as int
    else if 'a' <= c <= 'f' then 10 + (c as int - 'a' as int)
    else 0
  }

  /** Reads a number digit by digit. */
  function HexValue(s: string): nat {
    if s == "" then 0 else 16 * HexValue(s[..|s| - 1]) + DigitValue(s[|s| - 1])
  }

  lemma DigitsRead(d: nat)
    requires d < 16
    ensures DigitValue(HEX[d]) == d && (HEX[d] in "0123456789" || HEX[d] in "abcdef")
  {}

  lemma HexParts(x: nat, w: nat)
    requires 0 < w && x < Pow16(w)
    ensures Hex(x, w) == Hex(x / 16, w - 1) + [HEX[x % 16]] && |Hex(x, w)| == w && |Hex(x / 16, w - 1)| == w - 1
    ensures x / 16 < Pow16(w - 1)
  {
    HexLength(x, w);
    HexLength(x / 16, w - 1);
  }

  /** Reading what was written gives the number. */
  lemma {:induction false} HexReadBack(x: nat, w: nat)
    requires x < Pow16(w)
    ensures HexValue(Hex(x, w)) == x
    decreases w
  {
    hide Pow16, Hex;
    if w == 0 {
      HexNothing(x);
    } else {
      HexParts(x, w);
      HexReadBack(x / 16, w - 1);
      DigitsRead(x % 16);
      assert Hex(x, w)[..w - 1] == Hex(x / 16, w - 1);
    }
  }

  lemma HexNothing(x: nat)
    requires x < Pow16(0)
    ensures x == 0 && Hex(x, 0) == ""
  {}

  lemma DigitsOrdered(a: nat, b: nat)
    requires a < b < 16
    ensures HEX[a] < HEX[b]
  {}

  lemma AppendOrdered(a: string, b: string, c: char, d: char)
    requires |a| == |b| && (if a == b then c < d else LexLe(a, b))
    ensures LexLe(a + [c], b + [d])
  {
    hide LexLe;
    var x, y := a + [c], b + [d];
    if a == b {
      assert x[..|a|] == a == y[..|a|] && x[|a|] < y[|a|];
    } else {
      LexLeIff(a, b);
      assert b[..|a|] == b;
      var n :| 0 <= n < |a| && n < |b| && a[..n] == b[..n] && a[n] < b[n];
      assert x[..n] == a[..n] == b[..n] == y[..n] && x[n] < y[n];
    }
    LexLeIff(x, y);
  }

  /** Of numbers written at one width, the names are in the order of the numbers. */
  lemma {:induction false} HexOrdered(x: nat, y: nat, w: nat)
    requires x < y < Pow16(w)
    ensures LexLe(Hex(x, w), Hex(y, w)) && Hex(x, w) != Hex(y, w)
    decreases w
  {
    hide LexLe, Hex, Pow16, HexValue;
    HexReadBack(x, w);
    HexReadBack(y, w);
    if w == 0 {
      HexNothing(y);
    } else {
      HexParts(x, w);
      HexParts(y, w);
      if x / 16 == y / 16 {
        DigitsOrdered(x % 16, y % 16);
      } else {
        HexOrdered(x / 16, y / 16, w - 1);
      }
      AppendOrdered(Hex(x / 16, w - 1), Hex(y / 16, w - 1), HEX[x % 16], HEX[y % 16]);
    }
  }

  /** A node's name is its number in sixteen hexadecimal digits, and names are in the order of the nodes. */
  lemma NodeNameRead(i: NodeID, j: NodeID)
    requires i < j < TWO32
    ensures |NodeName(i)| == 16 && HexValue(NodeName(i)) == i && HexValue(NodeName(j)) == j
    ensures LexLe(NodeName(i), NodeName(j)) && NodeName(i) != NodeName(j)
  {
    hide LexLe;
    Pow16Of16();
    HexLength(i, 16);
    HexReadBack(i, 16);
    HexReadBack(j, 16);
    HexOrdered(i, j, 16);
  }

  /** Nodes of one graph have different names. */
  lemma NodeNameInjective(i: NodeID, j: NodeID)
    requires i < TWO32 && j < TWO32 && NodeName(i) == NodeName(j)
    ensures i == j
  {
    Pow16Of16();
    HexInjective(i, j, 16);
  }

  // ----- the facts table -----

  datatype FactEntry = FactEntry(name: string, ref: Ref)

  datatype Stored = Stored(facts: seq<FactEntry>, nodes: seq<WireNode>)

  /** The facts among the first n nodes, in order. */
  function Facts(dag: seq<Node>, n: nat): seq<FactEntry>
    requires n <= |dag|
  {
    if n == 0 then []
    else Facts(dag, n - 1) +
         if dag[n - 1].IsFact() then [FactEntry(NodeName(n - 1), dag[n - 1].value.value)] else []
  }

  function FactCount(dag: seq<Node>, n: nat): nat
    requires n <= |dag|
  {
    if n == 0 then 0 else FactCount(dag, n - 1) + if dag[n - 1].IsFact() then 1 else 0
  }

  /** The first entry with the given name. */
  function Lookup(facts: seq<FactEntry>, name: string): Option<Ref> {
    if facts == [] then None
    else if facts[0].name == name then Some(facts[0].ref)
    else Lookup(facts[1..], name)
  }

  predicate FactListed(facts: seq<FactEntry>, dag: seq<Node>, i: NodeID)
    requires i < |dag|
  {
    dag[i].IsFact() ==> Lookup(facts, NodeName(i)) == dag[i].value
  }

  lemma {:induction false} LookupConcat(a: seq<FactEntry>, b: seq<FactEntry>, name: string)
    ensures Lookup(a + b, name) == if Lookup(a, name).Some? then Lookup(a, name) else Lookup(b, name)
    decreases |a|
  {
    if a == [] {
      assert a + b == b;
    } else {
      assert (a + b)[1..] == a[1..] + b;
      LookupConcat(a[1..], b, name);
    }
  }

  /** In a graph's own table every fact is found under its node's name, and only there. */
  lemma {:induction false} FactsLookup(dag: seq<Node>, n: nat, i: NodeID)
    requires n <= |dag| <= TWO32 && i < |dag|
    ensures Lookup(Facts(dag, n), NodeName(i)) == if i < n && dag[i].IsFact() then dag[i].value else None
    decreases n
  {
    if n > 0 {
      FactsLookup(dag, n - 1, i);
      var last := if dag[n - 1].IsFact() then [FactEntry(NodeName(n - 1), dag[n - 1].value.value)] else [];
      LookupConcat(Facts(dag, n - 1), last, NodeName(i));
      if i != n - 1 && NodeName(i) == NodeName(n - 1) { NodeNameInjective(i, n - 1); }
    }
  }

  lemma {:induction false} FactsSize(dag: seq<Node>, n: nat)
    requires n <= |dag|
    ensures |Facts(dag, n)| == FactCount(dag, n)
    decreases n
  {
    if n > 0 { FactsSize(dag, n - 1); }
  }

  // ----- posting -----

  /** Every node may be added where it stands. */
  predicate Storable(dag: seq<Node>) {
    forall i :: 0 <= i < |dag| ==> Addable(i, dag[i])
  }

  function EncodeAll(dag: seq<Node>): seq<WireNode> {
    seq(|dag|, i requires 0 <= i < |dag| => EncodeNode(i, dag[i]))
  }

  lemma StorableIff(dag: seq<Node>)
    ensures Storable(dag) <==>
              Topological(dag) && forall i :: 0 <= i < |dag| && dag[i].IsFact() ==> !IsZero(dag[i].value.value.cid)
  {
  }

  /** Posting succeeds exactly when there is no self or forward reference and no zero fact. */
  method PostDAG(dag: seq<Node>) returns (r: Option<Stored>)
    requires |dag| <= TWO32
    ensures r.Some? <==> Topological(dag) && forall i :: 0 <= i < |dag| && dag[i].IsFact() ==> !IsZero(dag[i].value.value.cid)
    ensures r.Some? <==> Storable(dag)
    ensures r.Some? ==> r.value == Stored(Facts(dag, |dag|), EncodeAll(dag))
  {
    hide Addable, EncodeNode, NodeName, Topological, IsZero;
    StorableIff(dag);
    var factEnts: seq<FactEntry> := [];
    for i := 0 to |dag|
      invariant factEnts == Facts(dag, i)
    {
      if dag[i].IsFact() {
        factEnts := factEnts + [FactEntry(NodeName(i), dag[i].value.value)];
      }
    }
    var nlw := new NodeListWriter();
    for i := 0 to |dag|
      invariant nlw.Valid() && fresh(nlw)
      invariant forall k :: 0 <= k < i ==> Addable(k, dag[k])
      invariant nlw.out == EncodeAll(dag)[..i]
    {
      var added := nlw.Add(dag[i]);
      if !added.Added? {
        assert !Addable(i, dag[i]);
        return None;
      }
    }
    assert EncodeAll(dag)[..|dag|] == EncodeAll(dag);
    return Some(Stored(factEnts, nlw.out));
  }

  // ----- getting -----

  function DecodeAll(nodes: seq<WireNode>): (dag: seq<Node>)
    ensures |dag| == |nodes|
  {
    seq(|nodes|, i requires 0 <= i < |nodes| => DecodeNode(i % TWO32, nodes[i]))
  }

  /** Offsets that fit their field. */
  predicate Offsets32(nodes: seq<WireNode>) {
    forall i, k :: 0 <= i < |nodes| && 0 <= k < |nodes[i].inputs| ==> nodes[i].inputs[k].from < TWO32
  }

  /** No offset reaches back before the first node. */
  predicate OffsetsInside(nodes: seq<WireNode>) {
    forall i, k :: 0 <= i < |nodes| && 0 <= k < |nodes[i].inputs| ==> nodes[i].inputs[k].from <= i
  }

  /** What is read is topologically ordered, as executors need it, exactly if no offset reaches back
      before the first node. */
  lemma DecodedTopologicalIff(nodes: seq<WireNode>)
    requires |nodes| <= TWO32 && Offsets32(nodes) && forall i :: 0 <= i < |nodes| ==> OffsetsNonzero(nodes[i])
    ensures Topological(DecodeAll(nodes)) <==> OffsetsInside(nodes)
  {
    hide FromWire;
    var dag := DecodeAll(nodes);
    forall i, k | 0 <= i < |nodes| && 0 <= k < |nodes[i].inputs|
      ensures dag[i].inputs[k].node < i <==> nodes[i].inputs[k].from <= i
    {
      DecodedInput(nodes, i, k);
    }
    assert OffsetsInside(nodes) <==>
      forall i, k :: 0 <= i < |nodes| && 0 <= k < |nodes[i].inputs| ==> dag[i].inputs[k].node < i;
  }

  lemma DecodedInput(nodes: seq<WireNode>, i: nat, k: nat)
    requires i < |nodes| <= TWO32 && k < |nodes[i].inputs| && 0 < nodes[i].inputs[k].from < TWO32
    ensures k < |DecodeAll(nodes)[i].inputs|
    ensures DecodeAll(nodes)[i].inputs[k] == FromWire(i)(nodes[i].inputs[k])
    ensures DecodeAll(nodes)[i].inputs[k].node < i <==> nodes[i].inputs[k].from <= i
  {
    assert i % TWO32 == i;
    DecodedBackwardIff(i, nodes[i].inputs[k], |nodes|);
  }

  datatype GetResult =
    | Got(dag: seq<Node>)
    | BadOffset
    | FactMismatch
    | MissingFact
    | TooManyFacts

  method ReadNodes(nodes: seq<WireNode>) returns (r: Option<seq<Node>>)
    ensures r.Some? <==> forall i :: 0 <= i < |nodes| ==> OffsetsNonzero(nodes[i])
    ensures r.Some? ==> r.value == DecodeAll(nodes)
  {
    var nlr := new NodeListReader(nodes);
    var out: seq<Node> := [];
    while true
      invariant nlr.Valid() && fresh(nlr) && nlr.src == nodes && nlr.pos == |out|
      invariant forall i :: 0 <= i < |out| ==> OffsetsNonzero(nodes[i])
      invariant out == DecodeAll(nodes)[..|out|]
      decreases |nodes| - nlr.pos
    {
      var next := nlr.Read();
      match next {
        case EndOfStream =>
          assert DecodeAll(nodes)[..|nodes|] == DecodeAll(nodes);
          return Some(out);
        case ZeroOffset(_) =>
          assert !OffsetsNonzero(nodes[|out|]);
          return None;
        case Next(node) => out := out + [node];
      }
    }
  }

  /** A fact under whose name the table has the given entry, or none. */
  predicate FactLooksUp(st: Stored, i: NodeID, found: Option<Ref>)
    requires i < |st.nodes|
  {
    st.nodes[i].value.Some? && Lookup(st.facts, NodeName(i)) == found
  }

  lemma DecodedValue(nodes: seq<WireNode>, i: NodeID)
    requires i < |nodes|
    ensures DecodeAll(nodes)[i].value == nodes[i].value
  {}

  /** Reading succeeds exactly when all offsets are nonzero, every fact is listed under its name
      with its value, and nothing else is listed. */
  method GetDAG(st: Stored) returns (r: GetResult)
    ensures r.Got? <==>
              && (forall i :: 0 <= i < |st.nodes| ==> OffsetsNonzero(st.nodes[i]))
              && (forall i :: 0 <= i < |st.nodes| ==> FactListed(st.facts, DecodeAll(st.nodes), i))
              && |st.facts| == FactCount(DecodeAll(st.nodes), |st.nodes|)
    ensures r.Got? ==> r.dag == DecodeAll(st.nodes)
    ensures r.BadOffset? <==> exists i :: 0 <= i < |st.nodes| && !OffsetsNonzero(st.nodes[i])
    ensures r.MissingFact? ==> exists i :: 0 <= i < |st.nodes| && FactLooksUp(st, i, None)
    ensures r.FactMismatch? ==> exists i, ref :: 0 <= i < |st.nodes| && FactLooksUp(st, i, Some(ref)) && st.nodes[i].value != Some(ref)
    ensures r.TooManyFacts? ==> |st.facts| != FactCount(DecodeAll(st.nodes), |st.nodes|)
    ensures r.TooManyFacts? ==> forall i :: 0 <= i < |st.nodes| ==> FactListed(st.facts, DecodeAll(st.nodes), i)
    ensures r.Got? && |st.nodes| <= TWO32 && Offsets32(st.nodes) ==> (Topological(r.dag) <==> OffsetsInside(st.nodes))
  {
    hide Lookup, NodeName, DecodeAll, OffsetsNonzero, Topological, OffsetsInside, Offsets32;
    var read := ReadNodes(st.nodes);
    if read.None? {
      assert exists i :: 0 <= i < |st.nodes| && !OffsetsNonzero(st.nodes[i]);
      return BadOffset;
    }
    var nodes := read.value;
    var factCount := 0;
    for i := 0 to |nodes|
      invariant factCount == FactCount(nodes, i)
      invariant forall k :: 0 <= k < i ==> FactListed(st.facts, nodes, k)
    {
      if nodes[i].IsFact() {
        var ent := Lookup(st.facts, NodeName(i));
        if ent != nodes[i].value {
          assert !FactListed(st.facts, nodes, i);
          DecodedValue(st.nodes, i);
          assert FactLooksUp(st, i, ent);
          return if ent.None? then MissingFact else FactMismatch;
        }
        factCount := factCount + 1;
      }
    }
    if |st.facts| != factCount {
      return TooManyFacts;
    }
    if |st.nodes| <= TWO32 && Offsets32(st.nodes) { DecodedTopologicalIff(st.nodes); }
    return Got(nodes);
  }

  // ----- the round trip -----

  function SortedDag(dag: seq<Node>): seq<Node> {
    seq(|dag|, i requires 0 <= i < |dag| => SortedNode(dag[i]))
  }

  lemma {:induction false} FactCountSame(a: seq<Node>, b: seq<Node>, n: nat)
    requires |a| == |b| && n <= |a| && forall i :: 0 <= i < |a| ==> a[i].value == b[i].value
    ensures FactCount(a, n) == FactCount(b, n)
    decreases n
  {
    if n > 0 { FactCountSame(a, b, n - 1); }
  }

  /** What was posted passes every check on the way back, and decodes to the same nodes with their
      inputs sorted by name. */
  lemma StoredRoundTrip(dag: seq<Node>)
    requires Storable(dag) && |dag| <= TWO32
    ensures
      var st := Stored(Facts(dag, |dag|), EncodeAll(dag));
      && DecodeAll(st.nodes) == SortedDag(dag)
      && (forall i :: 0 <= i < |st.nodes| ==> OffsetsNonzero(st.nodes[i]))
      && (forall i :: 0 <= i < |st.nodes| ==> FactListed(st.facts, SortedDag(dag), i))
      && |st.facts| == FactCount(SortedDag(dag), |dag|)
  {
    hide Lookup, NodeName, Facts, FactCount, EncodeNode, DecodeNode;
    var nodes := EncodeAll(dag);
    forall i | 0 <= i < |dag|
      ensures DecodeAll(nodes)[i] == SortedDag(dag)[i] && OffsetsNonzero(nodes[i])
    {
      assert Addable(i, dag[i]);
      NodeRoundTrip(i, dag[i]);
    }
    forall i | 0 <= i < |dag| ensures FactListed(Facts(dag, |dag|), SortedDag(dag), i) {
      FactsLookup(dag, |dag|, i);
    }
    FactsSize(dag, |dag|);
    FactCountSame(dag, SortedDag(dag), |dag|);
  }

  /** A graph whose inputs are already sorted, as validation demands, is stored without change. */
  lemma SortedDagUnchanged(dag: seq<Node>)
    requires forall i :: 0 <= i < |dag| ==> Sorted(NameOf, dag[i].inputs)
    ensures SortedDag(dag) == dag
  {
    forall i | 0 <= i < |dag| ensures SortedDag(dag)[i] == dag[i] {
      SortBySorted(NameOf, dag[i].inputs);
    }
  }

  /** Post, then get. */
  method PostAndGet(dag: seq<Node>) returns (r: Option<GetResult>)
    requires |dag| <= TWO32
    ensures r == if Storable(dag) then Some(Got(SortedDag(dag))) else None
  {
    var posted := PostDAG(dag);
    if posted.None? {
      return None;
    }
    StoredRoundTrip(dag);
    var got := GetDAG(posted.value);
    return Some(got);
  }

  /** A graph that reading accepts and no executor can run: the only node has an input, which is read
      as a node that does not exist.  Any offset will do. */
  method ReadBadGraph(op: string, name: string, from: nat) returns (r: GetResult)
    requires 0 < from < TWO32
    ensures r == Got([Node(None, op, [NodeInput(name, TWO32 - from)])])
    ensures r.dag[0].inputs[0].node >= |r.dag| && !Topological(r.dag)
  {
    hide Lookup, NodeName;
    var wire := WireNode(None, op, [WireInput(name, from)]);
    var st := Stored([], [wire]);
    r := GetDAG(st);
    OneBadNode(wire, from);
    assert st.nodes[0] == wire;
    assert FactCount(DecodeAll(st.nodes), 1) == 0;
    assert r.Got?;
  }

  lemma OneBadNode(wire: WireNode, from: nat)
    requires |wire.inputs| == 1 && wire.inputs[0].from == from && 0 < from < TWO32 && wire.value == None
    ensures DecodeAll([wire]) == [Node(None, wire.op, [NodeInput(wire.inputs[0].to, TWO32 - from)])]
    ensures FactCount(DecodeAll([wire]), 1) == 0 && OffsetsNonzero(wire)
  {
    DecodedInput([wire], 0, 0);
    DecodedBackwardIff(0, wire.inputs[0], 1);
    var dag := DecodeAll([wire]);
    assert dag[0].inputs == [NodeInput(wire.inputs[0].to, TWO32 - from)];
    assert FactCount(dag, 0) == 0;
  }
}
