/** Compiler expressions and their 32-byte keys. */
module Exprs {
  import opened Dag
  import StringSets

  datatype Expr =
    | Value(ref: Ref)
    | Compute(op: string, inputs: seq<Input>)
    | Selection(modID: string, derived: bool, paths: StringSets.Set)

  datatype Input = Input(to: string, from: Expr, mode: nat)

  /** An entry of the virtual filesystem: the path space it occupies, and what occupies it. */
  datatype VFSEntry = VFSEntry(key: StringSets.Set, value: Expr, placeAt: string)

  predicate SelectionFree(e: Expr) {
    match e
    case Value(_) => true
    case Compute(_, ins) => forall k :: 0 <= k < |ins| ==> SelectionFree(ins[k].from)
    case Selection(_, _, _) => false
  }

  // ----- keys -----

  /** Strings are byte strings: every character stands for one byte.  `hash` is the 256-bit hash and
      `show` the string form of a path set. */
  datatype Hasher = Hasher(hash: string -> string, show: StringSets.Set -> string)

  const TWO32 := 0x1_0000_0000

  /** A length as four big-endian bytes; lengths of 2^32 and more are truncated. */
  function U32(n: nat): (bytes: string)
    ensures |bytes| == 4
  {
    [(n / 0x100_0000 % 0x100) as char, (n / 0x1_0000 % 0x100) as char, (n / 0x100 % 0x100) as char, (n % 0x100) as char]
  }

  /** The input part of the encoding: length-prefixed name, then the 32-byte key. */
  function InputBytes(ins: seq<(string, string)>): string {
    if ins == [] then ""
    else U32(|ins[0].0|) + ins[0].0 + ins[0].1 + InputBytes(ins[1..])
  }

  function ComputeBytes(op: string, ins: seq<(string, string)>): string {
    U32(|op|) + op + U32(|ins|) + InputBytes(ins)
  }

  function Key(h: Hasher, e: Expr): string
    decreases e, 1
  {
    match e
    case Value(ref) => ref.cid
    case Compute(op, ins) => h.hash(ComputeBytes(op, InputKeys(h, ins)))
    case Selection(_, _, paths) => h.hash(h.show(paths))
  }

  function InputKeys(h: Hasher, ins: seq<Input>): (keys: seq<(string, string)>)
    ensures |keys| == |ins|
    ensures forall k :: 0 <= k < |ins| ==> keys[k] == (ins[k].to, Key(h, ins[k].from))
    decreases ins, 0
  {
    if ins == [] then []
    else [(ins[0].to, Key(h, ins[0].from))] + InputKeys(h, ins[1..])
  }

  lemma {:induction false} InputBytesSnoc(ins: seq<(string, string)>, last: (string, string))
    ensures InputBytes(ins + [last]) == InputBytes(ins) + (U32(|last.0|) + last.0 + last.1)
    decreases |ins|
  {
    if ins == [] {
      assert ins + [last] == [last];
      assert InputBytes([last]) == U32(|last.0|) + last.0 + last.1 + "";
    } else {
      assert (ins + [last])[1..] == ins[1..] + [last];
      InputBytesSnoc(ins[1..], last);
    }
  }

  /** The buffer-appending loop of the source. */
  method ComputeKey(h: Hasher, op: string, inputs: seq<Input>) returns (key: string)
    ensures key == Key(h, Compute(op, inputs))
  {
    hide U32;
    var x := U32(|op|) + op;
    x := x + U32(|inputs|);
    var keys := InputKeys(h, inputs);
    var k := 0;
    while k < |inputs|
      invariant 0 <= k <= |inputs|
      invariant x == U32(|op|) + op + U32(|inputs|) + InputBytes(keys[..k])
    {
      var input := inputs[k];
      InputBytesSnoc(keys[..k], keys[k]);
      assert keys[..k + 1] == keys[..k] + [keys[k]];
      ghost var done, part := InputBytes(keys[..k]), U32(|input.to|) + input.to + Key(h, input.from);
      ConcatAssociative(U32(|op|) + op + U32(|inputs|), done, part);
      x := x + (U32(|input.to|) + input.to + Key(h, input.from));
      k := k + 1;
    }
    assert keys[..k] == keys;
    key := h.hash(x);
  }

  // ----- unique decodability -----

  lemma U32Injective(a: nat, b: nat)
    requires a < TWO32 && b < TWO32 && U32(a) == U32(b)
    ensures a == b
  {
    assert U32(a)[0] == U32(b)[0] && U32(a)[1] == U32(b)[1] && U32(a)[2] == U32(b)[2] && U32(a)[3] == U32(b)[3];
    Bytes(a);
    Bytes(b);
  }

  lemma Bytes(n: nat)
    requires n < TWO32
    ensures n == (U32(n)[0] as int) * 0x100_0000 + (U32(n)[1] as int) * 0x1_0000 + (U32(n)[2] as int) * 0x100 + U32(n)[3] as int
  {
    assert n / 0x1_0000 == n / 0x100 / 0x100;
    assert n / 0x100_0000 == n / 0x1_0000 / 0x100;
  }

  /** A length prefix determines where the prefixed string ends. */
  lemma PrefixedInjective(a: string, b: string, restA: string, restB: string)
    requires |a| < TWO32 && |b| < TWO32
    requires U32(|a|) + a + restA == U32(|b|) + b + restB
    ensures a == b && restA == restB
  {
    hide U32;
    var x := U32(|a|) + a + restA;
    assert U32(|a|) == x[..4] == U32(|b|);
    U32Injective(|a|, |b|);
    assert a == x[4..4 + |a|] == b;
    assert restA == x[4 + |a|..] == restB;
  }

  lemma ConcatAssociative(a: string, b: string, c: string)
    ensures a + b + c == a + (b + c)
  {}

  predicate Encodable(ins: seq<(string, string)>) {
    |ins| < TWO32 && forall k :: 0 <= k < |ins| ==> |ins[k].0| < TWO32 && |ins[k].1| == 32
  }

  lemma {:induction false} InputBytesInjective(a: seq<(string, string)>, b: seq<(string, string)>)
    requires Encodable(a) && Encodable(b) && |a| == |b| && InputBytes(a) == InputBytes(b)
    ensures a == b
    decreases |a|
  {
    hide U32;
    if a != [] {
      var restA, restB := a[0].1 + InputBytes(a[1..]), b[0].1 + InputBytes(b[1..]);
      ConcatAssociative(U32(|a[0].0|) + a[0].0, a[0].1, InputBytes(a[1..]));
      ConcatAssociative(U32(|b[0].0|) + b[0].0, b[0].1, InputBytes(b[1..]));
      PrefixedInjective(a[0].0, b[0].0, restA, restB);
      assert a[0].1 == restA[..32] == b[0].1;
      assert InputBytes(a[1..]) == restA[32..] == InputBytes(b[1..]);
      InputBytesInjective(a[1..], b[1..]);
      assert a == [a[0]] + a[1..] && b == [b[0]] + b[1..];
    }
  }

  /** The encoding that is hashed can be decoded in only one way. */
  lemma ComputeBytesInjective(op: string, ins: seq<(string, string)>, op': string, ins': seq<(string, string)>)
    requires |op| < TWO32 && |op'| < TWO32 && Encodable(ins) && Encodable(ins')
    requires ComputeBytes(op, ins) == ComputeBytes(op', ins')
    ensures op == op' && ins == ins'
  {
    hide U32;
    var rest, rest' := U32(|ins|) + InputBytes(ins), U32(|ins'|) + InputBytes(ins');
    ConcatAssociative(U32(|op|) + op, U32(|ins|), InputBytes(ins));
    ConcatAssociative(U32(|op'|) + op', U32(|ins'|), InputBytes(ins'));
    PrefixedInjective(op, op', rest, rest');
    assert U32(|ins|) == rest[..4] == U32(|ins'|);
    U32Injective(|ins|, |ins'|);
    assert InputBytes(ins) == rest[4..] == InputBytes(ins');
    InputBytesInjective(ins, ins');
  }

  // ----- a reader for the encoding -----

  /** Four bytes, the most significant first. */
  function ReadU32(s: string): nat {
    if |s| < 4 then 0
    else (s[0] as int) * 0x100_0000 + (s[1] as int) * 0x1_0000 + (s[2] as int) * 0x100 + s[3] as int
  }

  /** A length and as many bytes, with what follows. */
  function ReadPrefixed(s: string): (string, string) {
    var n := ReadU32(s);
    if |s| < 4 + n then ("", "") else (s[4..4 + n], s[4 + n..])
  }

  /** n inputs: for each a name with its length and a key of 32 bytes. */
  function ReadInputs(s: string, n: nat): seq<(string, string)> {
    if n == 0 then []
    else
      var (name, rest) := ReadPrefixed(s);
      if |rest| < 32 then [] else [(name, rest[..32])] + ReadInputs(rest[32..], n - 1)
  }

  /** The operation's name with its length, the number of inputs, and the inputs. */
  function ReadCompute(s: string): (string, seq<(string, string)>) {
    var (op, rest) := ReadPrefixed(s);
    if |rest| < 4 then (op, []) else (op, ReadInputs(rest[4..], ReadU32(rest)))
  }

  lemma ReadPrefixedBack(a: string, rest: string)
    requires |a| < TWO32
    ensures ReadPrefixed(U32(|a|) + a + rest) == (a, rest)
  {
    var s := U32(|a|) + a + rest;
    ReadU32Back(|a|, a + rest);
    ConcatAssociative(U32(|a|), a, rest);
    assert s[4..4 + |a|] == a && s[4 + |a|..] == rest;
  }

  lemma ReadU32Back(n: nat, rest: string)
    requires n < TWO32
    ensures ReadU32(U32(n) + rest) == n
  {
    Bytes(n);
    var s := U32(n) + rest;
    assert s[0] == U32(n)[0] && s[1] == U32(n)[1] && s[2] == U32(n)[2] && s[3] == U32(n)[3];
  }

  lemma {:induction false} ReadInputsBack(ins: seq<(string, string)>)
    requires Encodable(ins)
    ensures ReadInputs(InputBytes(ins), |ins|) == ins
    decreases |ins|
  {
    hide U32, ReadPrefixed, ReadU32;
    if ins != [] {
      var rest := ins[0].1 + InputBytes(ins[1..]);
      ConcatAssociative(U32(|ins[0].0|) + ins[0].0, ins[0].1, InputBytes(ins[1..]));
      ReadPrefixedBack(ins[0].0, rest);
      assert rest[..32] == ins[0].1 && rest[32..] == InputBytes(ins[1..]);
      ReadInputsBack(ins[1..]);
      assert ins == [ins[0]] + ins[1..];
    }
  }

  /** Reading the encoding gives the operation and its inputs. */
  lemma ReadComputeBack(op: string, ins: seq<(string, string)>)
    requires |op| < TWO32 && Encodable(ins)
    ensures ReadCompute(ComputeBytes(op, ins)) == (op, ins)
  {
    hide U32, ReadPrefixed, ReadU32, ReadInputs;
    var rest := U32(|ins|) + InputBytes(ins);
    ConcatAssociative(U32(|op|) + op, U32(|ins|), InputBytes(ins));
    ReadPrefixedBack(op, rest);
    ReadU32Back(|ins|, InputBytes(ins));
    assert rest[4..] == InputBytes(ins);
    ReadInputsBack(ins);
  }

  // ----- keys identify expressions -----

  /** File modes are not part of a key. */
  function Erase(e: Expr): Expr
    decreases e, 1
  {
    match e
    case Compute(op, ins) => Compute(op, EraseAll(ins))
    case _ => e
  }

  function EraseAll(ins: seq<Input>): (r: seq<Input>)
    ensures |r| == |ins|
    ensures forall k :: 0 <= k < |ins| ==> r[k] == Input(ins[k].to, Erase(ins[k].from), 0)
    decreases ins, 0
  {
    if ins == [] then [] else [Input(ins[0].to, Erase(ins[0].from), 0)] + EraseAll(ins[1..])
  }

  predicate Closed(universe: set<Expr>) {
    forall e :: e in universe && e.Compute? ==>
      forall k :: 0 <= k < |e.inputs| ==> e.inputs[k].from in universe
  }

  /** What is assumed of hashing, over the finitely many expressions of one compilation: no two
      encodings that occur collide, no content identifier equals a computed key, content identifiers
      determine references, and names are shorter than 2^32. */
  predicate KeysFaithful(h: Hasher, universe: set<Expr>) {
    && Closed(universe)
    && (forall e :: e in universe ==> SelectionFree(e) && |Key(h, e)| == 32)
    && (forall a, b :: a in universe && b in universe && a.Value? && b.Value? && a.ref.cid == b.ref.cid ==> a.ref == b.ref)
    && (forall a, b :: a in universe && b in universe && a.Value? && b.Compute? ==> Key(h, a) != Key(h, b))
    && (forall a, b :: a in universe && b in universe && a.Compute? && b.Compute? && Key(h, a) == Key(h, b) ==>
          ComputeBytes(a.op, InputKeys(h, a.inputs)) == ComputeBytes(b.op, InputKeys(h, b.inputs)))
    && (forall e :: e in universe && e.Compute? ==> ShortNames(e))
  }

  predicate ShortNames(e: Expr)
    requires e.Compute?
  {
    |e.op| < TWO32 && |e.inputs| < TWO32 && forall k :: 0 <= k < |e.inputs| ==> |e.inputs[k].to| < TWO32
  }

  lemma UniverseEncodable(h: Hasher, universe: set<Expr>, e: Expr)
    requires KeysFaithful(h, universe) && e in universe && e.Compute?
    ensures |e.op| < TWO32 && Encodable(InputKeys(h, e.inputs))
  {
    forall k | 0 <= k < |e.inputs|
      ensures |InputKeys(h, e.inputs)[k].0| < TWO32 && |InputKeys(h, e.inputs)[k].1| == 32
    {
      assert e.inputs[k].from in universe;
    }
  }

  /** Equal keys mean equal expressions, up to file modes. */
  lemma {:induction false} KeyInjective(h: Hasher, universe: set<Expr>, a: Expr, b: Expr)
    requires KeysFaithful(h, universe) && a in universe && b in universe && Key(h, a) == Key(h, b)
    ensures Erase(a) == Erase(b)
    decreases a
  {
    assert SelectionFree(a) && SelectionFree(b);
    match a {
      case Value(_) =>
        assert b.Value?;
      case Compute(op, ins) =>
        assert b.Compute? by { assert b.Value? ==> Key(h, b) != Key(h, a); }
        UniverseEncodable(h, universe, a);
        UniverseEncodable(h, universe, b);
        ComputeBytesInjective(op, InputKeys(h, ins), b.op, InputKeys(h, b.inputs));
        InputsInjective(h, universe, a, b);
      case Selection(_, _, _) =>
    }
  }

  lemma {:induction false} InputsInjective(h: Hasher, universe: set<Expr>, a: Expr, b: Expr)
    requires KeysFaithful(h, universe) && a in universe && b in universe && a.Compute? && b.Compute?
    requires InputKeys(h, a.inputs) == InputKeys(h, b.inputs)
    ensures EraseAll(a.inputs) == EraseAll(b.inputs)
    decreases a, 0
  {
    assert |a.inputs| == |InputKeys(h, a.inputs)| == |b.inputs|;
    forall k | 0 <= k < |a.inputs| ensures EraseAll(a.inputs)[k] == EraseAll(b.inputs)[k] {
      var x, y := a.inputs[k], b.inputs[k];
      assert (x.to, Key(h, x.from)) == InputKeys(h, a.inputs)[k] == InputKeys(h, b.inputs)[k] == (y.to, Key(h, y.from));
      KeyInjective(h, universe, x.from, y.from);
    }
  }
}
