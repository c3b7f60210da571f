/** The stream multiplexer: many streams over one byte pipe, with a single read permit that moves
    between the wait channel, the accept channel, a stream's length channel and whoever holds it.

    The machine covers one endpoint reading what its peer writes.  Frames are written whole, because
    writers hold a lock; reads of a payload may be short. */
module StreamMux {

  type byte = b: int | 0 <= b < 256

  const TWO32 := 0x1_0000_0000

  // ----- frames -----

  /** A 32-bit integer, least significant byte first. */
  function LE32(n: nat): (bytes: seq<byte>)
    requires n < TWO32
    ensures |bytes| == 4
  {
    [n % 0x100, n / 0x100 % 0x100, n / 0x1_0000 % 0x100, n / 0x100_0000]
  }

  function FromLE32(bytes: seq<byte>): nat
    requires |bytes| == 4
  {
    bytes[0] as int + 0x100 * (bytes[1] as int) + 0x1_0000 * (bytes[2] as int) + 0x100_0000 * (bytes[3] as int)
  }

  lemma LE32RoundTrip(n: nat)
    requires n < TWO32
    ensures FromLE32(LE32(n)) == n
  {
    assert n / 0x1_0000 == n / 0x100 / 0x100;
    assert n / 0x100_0000 == n / 0x1_0000 / 0x100;
  }

  /** The bytes in order: what is left after dividing comes next. */
  lemma LE32Bytes(n: nat)
    requires n < TWO32
    ensures LE32(n)[0] as int == n % 0x100 && LE32(n)[3] as int == n / 0x100_0000
    ensures n < 0x100 ==> LE32(n) == [n, 0, 0, 0]
  {}

  datatype Frame = Frame(tag: nat, payload: seq<byte>)

  predicate Sendable(f: Frame) {
    f.tag < TWO32 && |f.payload| < TWO32
  }

  function Encode(f: Frame): seq<byte>
    requires Sendable(f)
  {
    LE32(f.tag) + LE32(|f.payload|) + f.payload
  }

  /** A frame is its tag, the length of its payload, and the payload. */
  lemma FrameLayout(f: Frame)
    requires Sendable(f)
    ensures |Encode(f)| == 8 + |f.payload| && Encode(f)[8..] == f.payload
    ensures FromLE32(Encode(f)[..4]) == f.tag && FromLE32(Encode(f)[4..8]) == |f.payload|
    ensures Encode(f)[0] as int == f.tag % 0x100 && Encode(f)[4] as int == |f.payload| % 0x100
  {
    hide FromLE32;
    LE32RoundTrip(f.tag);
    LE32RoundTrip(|f.payload|);
    assert Encode(f)[..4] == LE32(f.tag) && Encode(f)[4..8] == LE32(|f.payload|);
  }

  predicate AllSendable(fs: seq<Frame>) {
    forall i :: 0 <= i < |fs| ==> Sendable(fs[i])
  }

  function EncodeAll(fs: seq<Frame>): seq<byte>
    requires AllSendable(fs)
  {
    if fs == [] then [] else Encode(fs[0]) + EncodeAll(fs[1..])
  }

  lemma {:induction false} EncodeSnoc(fs: seq<Frame>, f: Frame)
    requires AllSendable(fs) && Sendable(f)
    ensures AllSendable(fs + [f]) && EncodeAll(fs + [f]) == EncodeAll(fs) + Encode(f)
    decreases |fs|
  {
    var all := fs + [f];
    if fs == [] {
      assert all[1..] == [];
      assert EncodeAll(all) == Encode(f) + [];
    } else {
      assert all[1..] == fs[1..] + [f];
      EncodeSnoc(fs[1..], f);
    }
  }

  lemma EncodeNonempty(fs: seq<Frame>)
    requires AllSendable(fs)
    ensures EncodeAll(fs) == [] <==> fs == []
  {}

  /** What the frames carry for one stream. */
  function PayloadOf(fs: seq<Frame>, tag: nat): seq<byte> {
    if fs == [] then [] else (if fs[0].tag == tag then fs[0].payload else []) + PayloadOf(fs[1..], tag)
  }

  lemma {:induction false} PayloadSnoc(fs: seq<Frame>, f: Frame, tag: nat)
    ensures PayloadOf(fs + [f], tag) == PayloadOf(fs, tag) + if f.tag == tag then f.payload else []
    decreases |fs|
  {
    var all := fs + [f];
    if fs == [] {
      assert all[1..] == [];
      assert PayloadOf(all, tag) == (if f.tag == tag then f.payload else []) + [];
    } else {
      assert all[1..] == fs[1..] + [f];
      PayloadSnoc(fs[1..], f, tag);
      var head := if fs[0].tag == tag then fs[0].payload else [];
      ConcatAssociative(head, PayloadOf(fs[1..], tag), if f.tag == tag then f.payload else []);
    }
  }

  // ----- frames in flight agree with the known streams -----

  /** Known streams once the frames have been read: an empty frame opens its tag. */
  function KnownAfter(known: set<nat>, fs: seq<Frame>): set<nat>
    decreases |fs|
  {
    if fs == [] then known
    else KnownAfter(if fs[0].payload == [] then known + {fs[0].tag} else known, fs[1..])
  }

  /** Empty frames open unknown tags; other frames are for known ones. */
  predicate Orderly(known: set<nat>, fs: seq<Frame>)
    decreases |fs|
  {
    fs == [] ||
    ((fs[0].payload == [] <==> fs[0].tag !in known) && Orderly(known + {fs[0].tag}, fs[1..]))
  }

  lemma {:induction false} OrderlySnoc(known: set<nat>, fs: seq<Frame>, f: Frame)
    requires Orderly(known, fs) && (f.payload == [] <==> f.tag !in KnownAfter(known, fs))
    ensures Orderly(known, fs + [f])
    ensures KnownAfter(known, fs + [f]) == KnownAfter(known, fs) + {f.tag}
    decreases |fs|
  {
    var all := fs + [f];
    if fs == [] {
      assert all[1..] == [];
    } else {
      assert all[1..] == fs[1..] + [f];
      var next := known + {fs[0].tag};
      assert fs[0].payload != [] ==> next == known;
      OrderlySnoc(next, fs[1..], f);
    }
  }

  /** A tag that no frame in flight concerns may be opened locally. */
  lemma {:induction false} OrderlyWithLocal(known: set<nat>, fs: seq<Frame>, tag: nat)
    requires Orderly(known, fs) && tag !in KnownAfter(known, fs)
    ensures Orderly(known + {tag}, fs)
    ensures KnownAfter(known + {tag}, fs) == KnownAfter(known, fs) + {tag}
    decreases |fs|
  {
    if fs != [] {
      var next := known + {fs[0].tag};
      assert fs[0].payload != [] ==> next == known;
      KnownGrows(next, fs[1..]);
      OrderlyWithLocal(next, fs[1..], tag);
      assert next + {tag} == known + {tag} + {fs[0].tag};
    }
  }

  lemma {:induction false} KnownGrows(known: set<nat>, fs: seq<Frame>)
    ensures known <= KnownAfter(known, fs)
    decreases |fs|
  {
    if fs != [] { KnownGrows(if fs[0].payload == [] then known + {fs[0].tag} else known, fs[1..]); }
  }

  // ----- the machine -----

  /** A goroutine that holds the read permit: about to read a header, reading a payload, or about to
      put the permit back. */
  datatype Holder = AtHeader | Delivering(tag: nat, len: nat) | Returning

  /** A message in some stream's length channel. */
  datatype Length = Length(tag: nat, len: nat)

  /** `broken` records a header that makes the source return an error or lock itself up.  The last
      six fields are history: frames whose headers are unread, bytes written and bytes read per stream,
      tags opened by either side, and those that the peer opened and that were accepted, in order. */
  datatype Mux = Mux(
    pipe: seq<byte>,
    wait: nat,
    incoming: seq<nat>,
    lengths: seq<Length>,
    holders: seq<Holder>,
    streams: set<nat>,
    broken: bool,
    pending: seq<Frame>,
    written: map<nat, seq<byte>>,
    delivered: map<nat, seq<byte>>,
    tags: set<nat>,
    openings: seq<nat>,
    accepted: seq<nat>)

  const INITIAL := Mux([], 1, [], [], [], {}, false, [], map[], map[], {}, [], [])

  function On(h: map<nat, seq<byte>>, tag: nat): seq<byte> {
    if tag in h then h[tag] else []
  }

  function Drop<T>(xs: seq<T>, i: nat): seq<T>
    requires i < |xs|
  {
    xs[..i] + xs[i + 1..]
  }

  /** The peer opens a stream: an empty frame on a new tag. */
  predicate PeerOpens(m: Mux, m': Mux, tag: nat) {
    tag < TWO32 && tag !in m.tags &&
    m' == m.(pipe := m.pipe + Encode(Frame(tag, [])), pending := m.pending + [Frame(tag, [])], tags := m.tags + {tag},
             openings := m.openings + [tag])
  }

  /** The peer writes a nonempty payload on an opened tag. */
  predicate PeerWrites(m: Mux, m': Mux, f: Frame) {
    Sendable(f) && f.payload != [] && f.tag in m.tags &&
    m' == m.(pipe := m.pipe + Encode(f), pending := m.pending + [f],
             written := m.written[f.tag := On(m.written, f.tag) + f.payload])
  }

  predicate LocalOpens(m: Mux, m': Mux, tag: nat) {
    tag < TWO32 && tag !in m.tags && m' == m.(streams := m.streams + {tag}, tags := m.tags + {tag})
  }

  predicate TakesToken(m: Mux, m': Mux) {
    m.wait > 0 && m' == m.(wait := m.wait - 1, holders := m.holders + [AtHeader])
  }

  /** Reads eight bytes and dispatches on whether the tag is known and the length zero. */
  predicate ReadsHeader(m: Mux, m': Mux, j: nat) {
    j < |m.holders| && m.holders[j] == AtHeader && |m.pipe| >= 8 &&
    var tag, len := FromLE32(m.pipe[..4]), FromLE32(m.pipe[4..8]);
    var rest := m.(pipe := m.pipe[8..], holders := Drop(m.holders, j), pending := if m.pending == [] then [] else m.pending[1..]);
    if tag !in m.streams && len == 0 then
      |m.incoming| == 0 && m' == rest.(incoming := m.incoming + [tag], streams := m.streams + {tag})
    else if tag in m.streams && len != 0 then
      (forall i :: 0 <= i < |m.lengths| ==> m.lengths[i].tag != tag) && m' == rest.(lengths := m.lengths + [Length(tag, len)])
    else m' == rest.(broken := true)
  }

  predicate TakesIncoming(m: Mux, m': Mux) {
    |m.incoming| > 0 &&
    m' == m.(incoming := m.incoming[1..], holders := m.holders + [Returning], accepted := m.accepted + [m.incoming[0]])
  }

  predicate PutsToken(m: Mux, m': Mux, j: nat) {
    j < |m.holders| && m.holders[j] == Returning && m.wait < 1 &&
    m' == m.(wait := m.wait + 1, holders := Drop(m.holders, j))
  }

  predicate TakesLength(m: Mux, m': Mux, i: nat) {
    i < |m.lengths| &&
    m' == m.(lengths := Drop(m.lengths, i), holders := m.holders + [Delivering(m.lengths[i].tag, m.lengths[i].len)])
  }

  /** Reads n bytes of the payload; a short read leaves the rest of the length for the next reader. */
  predicate Delivers(m: Mux, m': Mux, j: nat, n: nat) {
    j < |m.holders| && m.holders[j].Delivering? && n <= m.holders[j].len && n <= |m.pipe| &&
    var tag, len := m.holders[j].tag, m.holders[j].len;
    var read := m.(pipe := m.pipe[n..], delivered := m.delivered[tag := On(m.delivered, tag) + m.pipe[..n]]);
    if n < len then
      m' == read.(holders := Drop(m.holders, j), lengths := m.lengths + [Length(tag, len - n)])
    else m' == read.(holders := m.holders[j := Returning])
  }

  ghost predicate Next(m: Mux, m': Mux) {
    || (exists tag :: PeerOpens(m, m', tag))
    || (exists f :: PeerWrites(m, m', f))
    || (exists tag :: LocalOpens(m, m', tag))
    || TakesToken(m, m')
    || (exists j :: ReadsHeader(m, m', j))
    || TakesIncoming(m, m')
    || (exists j :: PutsToken(m, m', j))
    || (exists i :: TakesLength(m, m', i))
    || (exists j, n :: Delivers(m, m', j, n))
  }

  ghost predicate IsRun(run: seq<Mux>) {
    |run| > 0 && run[0] == INITIAL && forall i :: 0 <= i < |run| - 1 ==> Next(run[i], run[i + 1])
  }

  // ----- the invariant -----

  function Permits(m: Mux): nat {
    m.wait + |m.incoming| + |m.lengths| + |m.holders|
  }

  /** The payload being read, if any: its stream and how much of it is still in the pipe. */
  function Current(m: Mux): Length {
    if |m.lengths| > 0 then m.lengths[0]
    else if |m.holders| > 0 && m.holders[0].Delivering? then Length(m.holders[0].tag, m.holders[0].len)
    else Length(0, 0)
  }

  /** The pipe holds the rest of the current payload, then whole frames. */
  ghost predicate PipeOk(m: Mux) {
    && AllSendable(m.pending) && Current(m).len <= |m.pipe|
    && m.pipe[Current(m).len..] == EncodeAll(m.pending)
  }

  /** Bytes written on a stream: those read, then those of the current payload, then those in flight. */
  ghost predicate StreamOk(m: Mux, tag: nat)
    requires Current(m).len <= |m.pipe|
  {
    On(m.written, tag) ==
      On(m.delivered, tag) + (if Current(m).tag == tag then m.pipe[..Current(m).len] else []) + PayloadOf(m.pending, tag)
  }

  ghost predicate Inv(m: Mux) {
    && Permits(m) == 1 && !m.broken
    && Orderly(m.streams, m.pending) && KnownAfter(m.streams, m.pending) == m.tags
    && PipeOk(m)
    && forall tag: nat :: StreamOk(m, tag)
  }

  lemma InitialInv()
    ensures Inv(INITIAL)
  {
    assert forall tag: nat :: StreamOk(INITIAL, tag);
  }

  /** Sends on the channels never block: whoever holds the permit finds them empty. */
  lemma SendsNeverBlock(m: Mux, j: nat)
    requires Inv(m) && j < |m.holders|
    ensures m.wait == 0 && m.incoming == [] && m.lengths == [] && |m.holders| == 1
  {}

  /** Headers are read only at frame boundaries: the eight bytes are the header of the first frame in
      flight, and they announce an unknown tag exactly when they announce no payload. */
  lemma HeaderAtBoundary(m: Mux, j: nat)
    requires Inv(m) && j < |m.holders| && m.holders[j] == AtHeader && |m.pipe| >= 8
    ensures m.pending != [] && m.pipe == EncodeAll(m.pending)
    ensures FromLE32(m.pipe[..4]) == m.pending[0].tag && FromLE32(m.pipe[4..8]) == |m.pending[0].payload|
    ensures m.pipe[8..] == m.pending[0].payload + EncodeAll(m.pending[1..])
    ensures m.pending[0].tag !in m.streams <==> m.pending[0].payload == []
  {
    assert m.pipe[0..] == m.pipe;
    EncodeNonempty(m.pending);
    FirstHeader(m.pending);
  }

  /** The first eight bytes of encoded frames are the header of the first. */
  lemma FirstHeader(fs: seq<Frame>)
    requires fs != [] && AllSendable(fs)
    ensures
      var bytes := EncodeAll(fs);
      && |bytes| >= 8 && FromLE32(bytes[..4]) == fs[0].tag && FromLE32(bytes[4..8]) == |fs[0].payload|
      && bytes[8..] == fs[0].payload + EncodeAll(fs[1..])
  {
    hide LE32, FromLE32;
    var f, tail := fs[0], EncodeAll(fs[1..]);
    HeaderSlices(LE32(f.tag), LE32(|f.payload|), f.payload, tail);
    LE32RoundTrip(f.tag);
    LE32RoundTrip(|f.payload|);
  }

  lemma HeaderSlices(tag: seq<byte>, len: seq<byte>, payload: seq<byte>, tail: seq<byte>)
    requires |tag| == |len| == 4
    ensures
      var bytes := tag + len + payload + tail;
      |bytes| >= 8 && bytes[..4] == tag && bytes[4..8] == len && bytes[8..] == payload + tail
  {
  }

  /** Something appended to pipe and pending. */
  lemma SendInv(m: Mux, m': Mux, f: Frame)
    requires Inv(m) && Sendable(f) && (f.payload == [] <==> f.tag !in m.tags)
    requires m' == m.(pipe := m.pipe + Encode(f), pending := m.pending + [f], tags := m.tags + {f.tag}, openings := m'.openings,
                      written := if f.payload == [] then m.written else m.written[f.tag := On(m.written, f.tag) + f.payload])
    ensures Inv(m')
  {
    hide Encode, EncodeAll, PayloadOf, KnownAfter, Orderly, StreamOk;
    var c := Current(m).len;
    EncodeSnoc(m.pending, f);
    OrderlySnoc(m.streams, m.pending, f);
    assert m'.pipe[c..] == m.pipe[c..] + Encode(f);
    forall tag: nat ensures StreamOk(m', tag) { SendStream(m, m', f, tag); }
  }

  lemma SendStream(m: Mux, m': Mux, f: Frame, tag: nat)
    requires Sendable(f) && Current(m).len <= |m.pipe| && StreamOk(m, tag)
    requires m' == m.(pipe := m.pipe + Encode(f), pending := m.pending + [f], tags := m.tags + {f.tag}, openings := m'.openings,
                      written := if f.payload == [] then m.written else m.written[f.tag := On(m.written, f.tag) + f.payload])
    ensures StreamOk(m', tag)
  {
    hide Encode, PayloadOf;
    var c := Current(m).len;
    PayloadSnoc(m.pending, f, tag);
    assert m'.pipe[..c] == m.pipe[..c];
    var more := if f.tag == tag then f.payload else [];
    assert On(m'.written, tag) == On(m.written, tag) + more;
    ConcatAssociative(On(m.delivered, tag) + (if Current(m).tag == tag then m.pipe[..c] else []), PayloadOf(m.pending, tag), more);
  }

  lemma ConcatAssociative(a: seq<byte>, b: seq<byte>, c: seq<byte>)
    ensures a + b + c == a + (b + c)
  {}

  lemma HeaderInv(m: Mux, m': Mux, j: nat)
    requires Inv(m) && ReadsHeader(m, m', j)
    ensures Inv(m')
  {
    hide FromLE32, Encode, EncodeAll, PayloadOf;
    SendsNeverBlock(m, j);
    HeaderAtBoundary(m, j);
    PayloadHead(m.pending);
    var f, rest := m.pending[0], m.pending[1..];
    OrderlyHead(m.streams, m.pending);
    var len := |f.payload|;
    assert m'.pipe == m.pipe[8..] && m'.pending == rest;
    assert Current(m).len == 0 && Current(m').len == len;
    assert m'.pipe[len..] == EncodeAll(rest) && m'.pipe[..len] == f.payload;
    forall tag: nat ensures StreamOk(m', tag) {
      assert StreamOk(m, tag);
      var own := if f.tag == tag then f.payload else [];
      assert m.pipe[..0] == [];
      assert On(m.delivered, tag) + [] + (own + PayloadOf(rest, tag)) == On(m.delivered, tag) + own + PayloadOf(rest, tag);
    }
  }

  lemma PayloadHead(fs: seq<Frame>)
    requires fs != []
    ensures forall tag: nat :: PayloadOf(fs, tag) == (if fs[0].tag == tag then fs[0].payload else []) + PayloadOf(fs[1..], tag)
  {}

  lemma OrderlyHead(known: set<nat>, fs: seq<Frame>)
    requires fs != [] && Orderly(known, fs)
    ensures
      var next := if fs[0].payload == [] then known + {fs[0].tag} else known;
      Orderly(next, fs[1..]) && KnownAfter(next, fs[1..]) == KnownAfter(known, fs)
  {
    assert fs[0].payload != [] ==> known + {fs[0].tag} == known;
  }

  lemma DeliverInv(m: Mux, m': Mux, j: nat, n: nat)
    requires Inv(m) && Delivers(m, m', j, n)
    ensures Inv(m')
  {
    hide EncodeAll, PayloadOf, KnownAfter, Orderly, StreamOk;
    SendsNeverBlock(m, j);
    var len := m.holders[j].len;
    assert Current(m) == Length(m.holders[j].tag, len);
    assert Current(m').len == len - n;
    assert m'.pipe[len - n..] == m.pipe[len..];
    forall tag: nat ensures StreamOk(m', tag) { DeliverStream(m, m', m.holders[j].tag, len, n, tag); }
  }

  lemma DeliverStream(m: Mux, m': Mux, reader: nat, len: nat, n: nat, tag: nat)
    requires n <= len <= |m.pipe| && Current(m) == Length(reader, len) && StreamOk(m, tag)
    requires m'.pipe == m.pipe[n..] && m'.written == m.written && m'.pending == m.pending
    requires m'.delivered == m.delivered[reader := On(m.delivered, reader) + m.pipe[..n]]
    requires Current(m').len == len - n && (n < len ==> Current(m').tag == reader)
    ensures StreamOk(m', tag)
  {
    hide PayloadOf;
    var got, left := m.pipe[..n], m.pipe[n..len];
    assert m'.pipe[..len - n] == left;
    assert m.pipe[..len] == got + left;
    if tag == reader {
      ConcatAssociative(On(m.delivered, tag), got, left);
    }
    if n == len { assert left == []; }
  }

  /** Moving the permit without touching the pipe. */
  lemma PermitInv(m: Mux, m': Mux)
    requires Inv(m) && Permits(m') == 1 && Current(m') == Current(m)
    requires m' == m.(wait := m'.wait, incoming := m'.incoming, lengths := m'.lengths, holders := m'.holders,
                      accepted := m'.accepted)
    ensures Inv(m')
  {
    hide EncodeAll, PayloadOf, KnownAfter, Orderly;
    forall tag: nat ensures StreamOk(m', tag) { assert StreamOk(m, tag); }
  }

  lemma LocalOpenInv(m: Mux, m': Mux, tag: nat)
    requires Inv(m) && LocalOpens(m, m', tag)
    ensures Inv(m')
  {
    hide EncodeAll, PayloadOf;
    OrderlyWithLocal(m.streams, m.pending, tag);
    forall t: nat ensures StreamOk(m', t) { assert StreamOk(m, t); }
  }

  lemma StepInv(m: Mux, m': Mux)
    requires Inv(m) && Next(m, m')
    ensures Inv(m')
  {
    hide Inv, Encode, ReadsHeader, Delivers;
    if tag :| PeerOpens(m, m', tag) {
      SendInv(m, m', Frame(tag, []));
    } else if f :| PeerWrites(m, m', f) {
      assert m.tags + {f.tag} == m.tags;
      SendInv(m, m', f);
    } else if tag :| LocalOpens(m, m', tag) {
      LocalOpenInv(m, m', tag);
    } else if j :| ReadsHeader(m, m', j) {
      HeaderInv(m, m', j);
    } else if j, n :| Delivers(m, m', j, n) {
      DeliverInv(m, m', j, n);
    } else {
      PermitMoves(m, m');
      PermitInv(m, m');
    }
  }

  /** Only the permit moves. */
  ghost predicate PermitMoved(m: Mux, m': Mux) {
    && Permits(m') == 1 && Current(m') == Current(m)
    && m' == m.(wait := m'.wait, incoming := m'.incoming, lengths := m'.lengths, holders := m'.holders,
                      accepted := m'.accepted)
  }

  lemma OnePermit(m: Mux)
    requires Inv(m)
    ensures Permits(m) == 1
  {}

  lemma PermitMoves(m: Mux, m': Mux)
    requires Inv(m)
    requires TakesToken(m, m') || TakesIncoming(m, m') || (exists j :: PutsToken(m, m', j)) || (exists i :: TakesLength(m, m', i))
    ensures PermitMoved(m, m')
  {
    hide Inv, TakesToken, TakesIncoming, PutsToken, TakesLength, PermitMoved;
    OnePermit(m);
    if TakesToken(m, m') {
      TokenMoves(m, m');
    } else if TakesIncoming(m, m') {
      IncomingMoves(m, m');
    } else if j :| PutsToken(m, m', j) {
      TokenReturns(m, m', j);
    } else {
      var i :| TakesLength(m, m', i);
      LengthMoves(m, m', i);
    }
  }

  lemma TokenMoves(m: Mux, m': Mux)
    requires Permits(m) == 1 && TakesToken(m, m')
    ensures PermitMoved(m, m')
  {}

  lemma IncomingMoves(m: Mux, m': Mux)
    requires Permits(m) == 1 && TakesIncoming(m, m')
    ensures PermitMoved(m, m')
  {}

  lemma TokenReturns(m: Mux, m': Mux, j: nat)
    requires Permits(m) == 1 && PutsToken(m, m', j)
    ensures PermitMoved(m, m')
  {}

  lemma LengthMoves(m: Mux, m': Mux, i: nat)
    requires Permits(m) == 1 && TakesLength(m, m', i)
    ensures PermitMoved(m, m')
  {}

  lemma {:induction false} RunInv(run: seq<Mux>, i: nat)
    requires IsRun(run) && i < |run|
    ensures Inv(run[i])
    decreases i
  {
    hide Inv, Next;
    if i == 0 {
      InitialInv();
    } else {
      RunInv(run, i - 1);
      StepInv(run[i - 1], run[i]);
    }
  }

  /** Over every interleaving: one permit, no broken header, headers read only at frame boundaries,
      and on every stream the bytes read are a prefix of the bytes written. */
  lemma MuxSafety(run: seq<Mux>, i: nat, tag: nat)
    requires IsRun(run) && i < |run|
    ensures Permits(run[i]) == 1 && !run[i].broken
    ensures AtHeader in run[i].holders ==> AllSendable(run[i].pending) && run[i].pipe == EncodeAll(run[i].pending)
    ensures On(run[i].delivered, tag) <= On(run[i].written, tag)
  {
    hide IsRun;
    RunInv(run, i);
    var m := run[i];
    assert StreamOk(m, tag);
  }

  // ----- streams are accepted in the order in which they are opened -----

  /** The streams that frames in flight open, in order. */
  function Openers(fs: seq<Frame>): seq<nat> {
    if fs == [] then [] else (if fs[0].payload == [] then [fs[0].tag] else []) + Openers(fs[1..])
  }

  lemma {:induction false} OpenersSnoc(fs: seq<Frame>, f: Frame)
    ensures Openers(fs + [f]) == Openers(fs) + if f.payload == [] then [f.tag] else []
    decreases |fs|
  {
    var all := fs + [f];
    if fs == [] {
      assert all[1..] == [];
    } else {
      assert all[1..] == fs[1..] + [f];
      OpenersSnoc(fs[1..], f);
    }
  }

  /** What the peer opened was accepted, waits to be accepted, or is on its way. */
  ghost predicate AcceptOk(m: Mux) {
    m.openings == m.accepted + m.incoming + Openers(m.pending)
  }

  /** What dispatching a header does to what is opened. */
  lemma HeaderMoves(m: Mux, m': Mux, j: nat)
    requires Inv(m) && ReadsHeader(m, m', j)
    ensures m.pending != [] && m'.pending == m.pending[1..] && m'.openings == m.openings && m'.accepted == m.accepted
    ensures m'.incoming == m.incoming + if m.pending[0].payload == [] then [m.pending[0].tag] else []
  {
    hide Inv, FromLE32, EncodeAll;
    HeaderAtBoundary(m, j);
    SendsNeverBlock(m, j);
  }

  lemma HeaderAccepts(m: Mux, m': Mux, j: nat)
    requires Inv(m) && AcceptOk(m) && ReadsHeader(m, m', j)
    ensures AcceptOk(m')
  {
    hide Inv, ReadsHeader;
    HeaderMoves(m, m', j);
    var opener := if m.pending[0].payload == [] then [m.pending[0].tag] else [];
    assert Openers(m.pending) == opener + Openers(m.pending[1..]);
  }

  /** Steps that neither write nor read a header. */
  ghost predicate MovesNoFrames(m: Mux, m': Mux) {
    || (exists tag :: LocalOpens(m, m', tag))
    || TakesToken(m, m') || TakesIncoming(m, m')
    || (exists j :: PutsToken(m, m', j)) || (exists i :: TakesLength(m, m', i)) || (exists j, n :: Delivers(m, m', j, n))
  }

  lemma MovesAccept(m: Mux, m': Mux)
    requires AcceptOk(m) && MovesNoFrames(m, m')
    ensures AcceptOk(m')
  {
    hide Openers;
    assert m'.pending == m.pending && m'.openings == m.openings;
    assert m'.accepted + m'.incoming == m.accepted + m.incoming;
  }

  lemma WriteAccepts(m: Mux, m': Mux, f: Frame)
    requires AcceptOk(m) && m'.pending == m.pending + [f] && m'.accepted == m.accepted && m'.incoming == m.incoming
    requires m'.openings == m.openings + if f.payload == [] then [f.tag] else []
    ensures AcceptOk(m')
  {
    hide Openers;
    OpenersSnoc(m.pending, f);
  }

  lemma StepAccepts(m: Mux, m': Mux)
    requires Inv(m) && AcceptOk(m) && Next(m, m')
    ensures AcceptOk(m')
  {
    hide Inv, Encode, ReadsHeader, AcceptOk, LocalOpens, TakesToken, TakesIncoming, PutsToken, TakesLength, Delivers;
    if j :| ReadsHeader(m, m', j) {
      HeaderAccepts(m, m', j);
    } else if tag :| PeerOpens(m, m', tag) {
      WriteAccepts(m, m', Frame(tag, []));
    } else if f :| PeerWrites(m, m', f) {
      WriteAccepts(m, m', f);
    } else {
      MovesAccept(m, m');
    }
  }

  lemma {:induction false} RunAccepts(run: seq<Mux>, i: nat)
    requires IsRun(run) && i < |run|
    ensures AcceptOk(run[i])
    decreases i
  {
    hide Next, AcceptOk;
    if i == 0 {
      InitialAccepts();
    } else {
      RunAccepts(run, i - 1);
      RunInv(run, i - 1);
      assert Next(run[i - 1], run[i - 1 + 1]);
      StepAccepts(run[i - 1], run[i]);
    }
  }

  lemma InitialAccepts()
    ensures AcceptOk(INITIAL)
  {}

  /** Over every interleaving the accepted streams are, in order, the first ones that the peer opened; and
      all of them once nothing waits and nothing is on its way. */
  lemma AcceptedInOrder(run: seq<Mux>, i: nat)
    requires IsRun(run) && i < |run|
    ensures run[i].accepted <= run[i].openings
    ensures run[i].incoming == [] && run[i].pipe == [] ==> run[i].accepted == run[i].openings
  {
    hide Next;
    RunAccepts(run, i);
    RunInv(run, i);
    EncodeNonempty(run[i].pending);
  }

  /** When the pipe is empty and no payload is half read, everything written has been read. */
  lemma DrainedDeliversAll(run: seq<Mux>, i: nat, tag: nat)
    requires IsRun(run) && i < |run| && run[i].pipe == []
    ensures On(run[i].delivered, tag) == On(run[i].written, tag)
  {
    hide IsRun;
    RunInv(run, i);
    var m := run[i];
    assert StreamOk(m, tag);
    EncodeNonempty(m.pending);
  }

  /** At a frame boundary, whatever the frames: a header breaks the multiplexer exactly when an empty
      frame arrives on a known stream, which the source takes for a close and locks a mutex it already
      holds, or a payload arrives on an unknown one, which it reports as an error. */
  lemma HeaderBreaksIff(m: Mux, m': Mux, j: nat)
    requires !m.broken && m.pending != [] && AllSendable(m.pending) && m.pipe == EncodeAll(m.pending)
    requires ReadsHeader(m, m', j)
    ensures m'.broken <==> (m.pending[0].payload == [] <==> m.pending[0].tag in m.streams)
  {
    FirstHeader(m.pending);
  }

  /** Why empty writes are excluded: after any safe run, one empty frame on a known stream, once the
      pipe before it has been read, cannot be read without breaking. */
  lemma EmptyWriteBreaks(run: seq<Mux>, m': Mux, m'': Mux, tag: nat, j: nat)
    requires IsRun(run)
    requires
      var m := run[|run| - 1];
      && m.pipe == [] && tag < TWO32 && tag in m.streams
      && m' == m.(pipe := Encode(Frame(tag, [])), pending := [Frame(tag, [])])
    requires ReadsHeader(m', m'', j)
    ensures m''.broken
  {
    hide ReadsHeader, Encode, On, Orderly, KnownAfter, Next;
    RunInv(run, |run| - 1);
    SingleFrame(Frame(tag, []));
    HeaderBreaksIff(m', m'', j);
  }

  lemma SingleFrame(f: Frame)
    requires Sendable(f)
    ensures AllSendable([f]) && EncodeAll([f]) == Encode(f)
  {
    assert [f][1..] == [];
    assert EncodeAll([f]) == Encode(f) + [];
  }
}
