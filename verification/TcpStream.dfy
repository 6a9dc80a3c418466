/** In-order delivery of net/tcp.c on one connection: what the receiver accepts, what the application is
    handed, and how the sender cuts a stream into segments (RFC 9293 section 3.4). */
module TcpStream {
  import opened MachineInts

  const BUFFER := 8192
  const MSS := 1460

  /** An arriving segment on an established connection: sequence number, flags and payload. */
  datatype Segment = Segment(num: u32, fin: bool, ack: bool, payload: seq<u8>)

  datatype Event = Arrive(seg: Segment) | Recv(max: nat)

  /** The receiver: bytes handed to the application, bytes buffered, the next expected sequence number, and
      whether the connection is still established (true) or has seen the peer's FIN (false). */
  datatype Receiver = Receiver(handed: seq<u8>, buffered: seq<u8>, nxt: u32, open: bool)

  function Accepted(r: Receiver, seg: Segment): nat
    requires |r.buffered| <= BUFFER
  {
    Min(|seg.payload|, BUFFER - |r.buffered|)
  }

  function OnSegment(r: Receiver, seg: Segment): Receiver
    requires |r.buffered| <= BUFFER
  {
    if !r.open then r
    else if seg.fin then r.(nxt := (seg.num + 1) % TWO_32, open := false)
    else if seg.ack && seg.payload != [] && seg.num == r.nxt then
      r.(buffered := r.buffered + seg.payload[..Accepted(r, seg)], nxt := (r.nxt + Accepted(r, seg)) % TWO_32)
    else r
  }

  function OnRecv(r: Receiver, max: nat): Receiver {
    var n := Min(|r.buffered|, max);
    r.(handed := r.handed + r.buffered[..n], buffered := r.buffered[n..])
  }

  function Step(r: Receiver, e: Event): (r': Receiver)
    requires |r.buffered| <= BUFFER
    ensures |r'.buffered| <= BUFFER
  {
    match e
    case Arrive(seg) => OnSegment(r, seg)
    case Recv(max) => OnRecv(r, max)
  }

  function Run(r: Receiver, es: seq<Event>): (r': Receiver)
    requires |r.buffered| <= BUFFER
    ensures |r'.buffered| <= BUFFER
    decreases |es|
  {
    if es == [] then r else Run(Step(r, es[0]), es[1..])
  }

  // ---------------------------------------------------------------- streams

  /** The payload is the stretch of the peer's stream that its sequence number names; `base` is the number of
      the first data byte. */
  ghost predicate Carries(seg: Segment, stream: seq<u8>, base: u32) {
    exists at: nat :: IsSlice(seg, stream, base, at)
  }

  ghost predicate IsSlice(seg: Segment, stream: seq<u8>, base: u32, at: nat) {
    at + |seg.payload| <= |stream| && seg.num == (base + at) % TWO_32
    && seg.payload == stream[at..at + |seg.payload|]
  }

  ghost predicate AllCarry(es: seq<Event>, stream: seq<u8>, base: u32) {
    forall i | 0 <= i < |es| && es[i].Arrive? && !es[i].seg.fin :: Carries(es[i].seg, stream, base)
  }

  function Received(r: Receiver): seq<u8> {
    r.handed + r.buffered
  }

  /** Everything received is a prefix of the stream, and while the connection is open the next expected
      number is that prefix's length past `base`, modulo 2^32. */
  ghost predicate InOrder(r: Receiver, stream: seq<u8>, base: u32) {
    && |r.buffered| <= BUFFER
    && Received(r) <= stream
    && (r.open ==> r.nxt == (base + |Received(r)|) % TWO_32)
  }

  /** Sequence numbers name one place in a stream shorter than 2^32 bytes. */
  lemma SameNumberSamePlace(base: u32, a: nat, b: nat)
    requires a < TWO_32 && b < TWO_32 && (base + a) % TWO_32 == (base + b) % TWO_32
    ensures a == b
  {
    var x, y := base + a, base + b;
    assert x - y == TWO_32 * (x / TWO_32 - y / TWO_32);
  }

  lemma StepInOrder(r: Receiver, e: Event, stream: seq<u8>, base: u32)
    requires InOrder(r, stream, base) && |stream| < TWO_32
    requires e.Arrive? && !e.seg.fin ==> Carries(e.seg, stream, base)
    ensures InOrder(Step(r, e), stream, base)
    ensures Received(r) <= Received(Step(r, e)) && r.handed <= Step(r, e).handed
  {
    match e
    case Recv(max) =>
      var n := Min(|r.buffered|, max);
      assert r.handed + r.buffered[..n] + r.buffered[n..] == Received(r);
    case Arrive(seg) =>
      if r.open && !seg.fin && seg.ack && seg.payload != [] && seg.num == r.nxt {
        AcceptInOrder(r, seg, stream, base);
      }
  }

  lemma AcceptInOrder(r: Receiver, seg: Segment, stream: seq<u8>, base: u32)
    requires InOrder(r, stream, base) && |stream| < TWO_32 && Carries(seg, stream, base)
    requires r.open && !seg.fin && seg.ack && seg.payload != [] && seg.num == r.nxt
    ensures InOrder(OnSegment(r, seg), stream, base)
    ensures Received(OnSegment(r, seg)) == Received(r) + seg.payload[..Accepted(r, seg)]
  {
    var at: nat :| IsSlice(seg, stream, base, at);
    var n, k := |Received(r)|, Accepted(r, seg);
    SameNumberSamePlace(base, at, n);
    var r' := OnSegment(r, seg);
    assert Received(r') == Received(r) + seg.payload[..k];
    assert Received(r') == stream[..n + k];
    WrapAdd(base, n, k);
  }

  lemma WrapAdd(base: nat, n: nat, k: nat)
    ensures ((base + n) % TWO_32 + k) % TWO_32 == (base + n + k) % TWO_32
  {
  }

  /** In-order delivery over every run: for any loss, reordering, duplication and interleaving of reads, the
      bytes handed out plus the buffered ones are a prefix of the peer's stream. */
  lemma {:induction false} RunInOrder(r: Receiver, es: seq<Event>, stream: seq<u8>, base: u32)
    requires InOrder(r, stream, base) && |stream| < TWO_32 && AllCarry(es, stream, base)
    ensures InOrder(Run(r, es), stream, base)
    ensures r.handed <= Run(r, es).handed
    decreases |es|
  {
    if es != [] {
      assert es[0].Arrive? && !es[0].seg.fin ==> Carries(es[0].seg, stream, base);
      StepInOrder(r, es[0], stream, base);
      forall i | 0 <= i < |es[1..]| && es[1..][i].Arrive? && !es[1..][i].seg.fin
        ensures Carries(es[1..][i].seg, stream, base)
      {
        assert es[i + 1] == es[1..][i];
      }
      RunInOrder(Step(r, es[0]), es[1..], stream, base);
    }
  }

  // ---------------------------------------------------------------- the sender

  /** tcp_send_id: MSS-sized pieces with consecutive sequence numbers. */
  function Cut(data: seq<u8>, num: u32): (segs: seq<Segment>)
    decreases |data|
  {
    if data == [] then []
    else
      var c := Min(|data|, MSS);
      [Segment(num, false, true, data[..c])] + Cut(data[c..], (num + c) % TWO_32)
  }

  /** Every piece is a slice of the stream it was cut from. */
  lemma {:induction false} CutCarries(data: seq<u8>, num: u32, stream: seq<u8>, base: u32, at: nat, i: nat)
    requires at + |data| <= |stream| && data == stream[at..at + |data|] && num == (base + at) % TWO_32
    requires i < |Cut(data, num)|
    ensures Carries(Cut(data, num)[i], stream, base) && !Cut(data, num)[i].fin
    decreases |data|
  {
    var c := Min(|data|, MSS);
    if i == 0 {
      assert IsSlice(Cut(data, num)[0], stream, base, at);
    } else {
      WrapAdd(base, at, c);
      CutCarries(data[c..], (num + c) % TWO_32, stream, base, at + c, i - 1);
    }
  }

  /** What a sequence of sends puts on the wire. */
  function SendAll(sends: seq<seq<u8>>, num: u32): (segs: seq<Segment>) {
    if sends == [] then [] else Cut(sends[0], num) + SendAll(sends[1..], (num + |sends[0]|) % TWO_32)
  }

  function Joined(sends: seq<seq<u8>>): (data: seq<u8>) {
    if sends == [] then [] else sends[0] + Joined(sends[1..])
  }

  lemma {:induction false} SendsCarry(sends: seq<seq<u8>>, num: u32, stream: seq<u8>, base: u32, at: nat, seg: Segment)
    requires at + |Joined(sends)| == |stream| && Joined(sends) == stream[at..] && num == (base + at) % TWO_32
    requires seg in SendAll(sends, num)
    ensures Carries(seg, stream, base)
    decreases |sends|
  {
    var data := sends[0];
    assert stream[at..at + |data|] == data && stream[at + |data|..] == Joined(sends[1..]);
    if seg in Cut(data, num) {
      var j: nat :| j < |Cut(data, num)| && Cut(data, num)[j] == seg;
      CutCarries(data, num, stream, base, at, j);
    } else {
      WrapAdd(base, at, |data|);
      SendsCarry(sends[1..], (num + |data|) % TWO_32, stream, base, at + |data|, seg);
    }
  }

  /** The segments that arrive are among `segs`. */
  ghost predicate DrawnFrom(es: seq<Event>, segs: seq<Segment>) {
    forall i | 0 <= i < |es| && es[i].Arrive? && !es[i].seg.fin :: es[i].seg in segs
  }

  lemma DrawnCarry(es: seq<Event>, segs: seq<Segment>, stream: seq<u8>, base: u32)
    requires DrawnFrom(es, segs) && forall seg | seg in segs :: Carries(seg, stream, base)
    ensures AllCarry(es, stream, base)
  {
  }

  /** End to end: however the data is split into sends, whatever subset of their segments arrives, in whatever order and
      however often, the receiver holds a prefix of what was sent. */
  lemma EndToEnd(es: seq<Event>, sends: seq<seq<u8>>, base: u32)
    requires |Joined(sends)| < TWO_32 && DrawnFrom(es, SendAll(sends, base))
    ensures InOrder(Run(Receiver([], [], base, true), es), Joined(sends), base)
  {
    var data := Joined(sends);
    forall seg | seg in SendAll(sends, base)
      ensures Carries(seg, data, base)
    {
      assert data[0..] == data;
      SendsCarry(sends, base, data, base, 0, seg);
    }
    DrawnCarry(es, SendAll(sends, base), data, base);
    RunInOrder(Receiver([], [], base, true), es, data, base);
  }

  /** Segments delivered in order, each followed by a read. */
  function Lossless(segs: seq<Segment>): seq<Event> {
    if segs == [] then [] else [Arrive(segs[0]), Recv(BUFFER)] + Lossless(segs[1..])
  }

  lemma TwoSteps(r: Receiver, e: Event, f: Event, rest: seq<Event>)
    requires |r.buffered| <= BUFFER
    ensures Run(r, [e, f] + rest) == Run(Step(Step(r, e), f), rest)
  {
    var es := [e, f] + rest;
    assert es[1..] == [f] + rest && ([f] + rest)[1..] == rest;
    assert Run(r, es) == Run(Step(r, e), [f] + rest);
  }

  lemma ArriveThenRead(r: Receiver, seg: Segment)
    requires r.open && r.buffered == [] && !seg.fin && seg.ack && seg.num == r.nxt && 0 < |seg.payload| <= MSS
    ensures Step(Step(r, Arrive(seg)), Recv(BUFFER)) ==
            r.(handed := r.handed + seg.payload, nxt := (r.nxt + |seg.payload|) % TWO_32)
  {
    assert [] + seg.payload[..|seg.payload|] == seg.payload;
    assert seg.payload[|seg.payload|..] == [];
  }

  /** Without loss or reordering the application is handed exactly what was sent. */
  lemma {:induction false} LosslessDelivers(r: Receiver, data: seq<u8>)
    requires r.open && r.buffered == []
    ensures Run(r, Lossless(Cut(data, r.nxt))).handed == r.handed + data
    ensures Run(r, Lossless(Cut(data, r.nxt))).buffered == []
    decreases |data|
  {
    if data == [] {
      assert r.handed + data == r.handed;
    } else {
      var c := Min(|data|, MSS);
      var seg, rest := Cut(data, r.nxt)[0], Cut(data[c..], (r.nxt + c) % TWO_32);
      assert Cut(data, r.nxt)[1..] == rest;
      ArriveThenRead(r, seg);
      TwoSteps(r, Arrive(seg), Recv(BUFFER), Lossless(rest));
      LosslessDelivers(r.(handed := r.handed + seg.payload, nxt := (r.nxt + c) % TWO_32), data[c..]);
      assert r.handed + seg.payload + data[c..] == r.handed + data;
    }
  }
}
