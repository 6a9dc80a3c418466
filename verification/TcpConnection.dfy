/** One connection of net/tcp.c: the fields that the handshake, the data path and the close change in
    place. The receive path refines `TcpStream.Receiver`, the send path `TcpStream.Cut`. */
module TcpConnection {
  import opened MachineInts
  import opened TcpStream

  datatype TcpState =
    Closed | Listen | SynSent | SynReceived | Established | FinWait1 | FinWait2 | CloseWait | Closing
    | LastAck | TimeWait

  /** A parsed TCP header and the memory from the start of the segment on. */
  datatype Packet = Packet(num: u32, ackNum: u32, fin: bool, syn: bool, ack: bool, dataOff: nat, len: u16, mem: seq<u8>)

  /** `pkt->len - data_off` in 16 bits. */
  function PayloadLen(p: Packet): nat {
    (p.len - p.dataOff) % TWO_16
  }

  /** At most a buffer's worth of the payload is ever looked at. */
  predicate Readable(p: Packet) {
    p.dataOff + Min(PayloadLen(p), BUFFER) <= |p.mem|
  }

  function AsSegment(p: Packet): Segment
    requires Readable(p)
  {
    Segment(p.num, p.fin, p.ack, p.mem[p.dataOff..p.dataOff + Min(PayloadLen(p), BUFFER)])
  }

  /** The fixed header. */
  const HEADER := 20

  /** The receiver takes at least one byte of the packet. */
  predicate Takes(r: Receiver, p: Packet) {
    r.open && !p.fin && p.ack && p.num == r.nxt && PayloadLen(p) > 0 && |r.buffered| < BUFFER
  }

  function Taken(r: Receiver, p: Packet): int
    requires Readable(p) && |r.buffered| <= BUFFER
  {
    |Received(OnSegment(r, AsSegment(p)))| - |Received(r)|
  }

  /** Every byte taken lies behind the fixed header and within the packet. */
  predicate WithinPacket(r: Receiver, p: Packet)
    requires Readable(p) && |r.buffered| <= BUFFER
  {
    Taken(r, p) == 0 || (HEADER <= p.dataOff && p.dataOff + Taken(r, p) <= p.len)
  }

  /** The bytes taken are those from the data offset on; they are the packet's own exactly when nothing is taken or the
      data offset lies between the fixed header and the packet's length. */
  lemma PayloadIff(r: Receiver, p: Packet)
    requires Readable(p) && |r.buffered| <= BUFFER
    ensures 0 <= Taken(r, p) && p.dataOff + Taken(r, p) <= |p.mem| && (Taken(r, p) > 0 <==> Takes(r, p))
    ensures Received(OnSegment(r, AsSegment(p))) == Received(r) + p.mem[p.dataOff..p.dataOff + Taken(r, p)]
    ensures WithinPacket(r, p) <==> !Takes(r, p) || HEADER <= p.dataOff <= p.len
  {
    var seg := AsSegment(p);
    if Takes(r, p) {
      var k := Accepted(r, seg);
      assert seg.payload[..k] == p.mem[p.dataOff..p.dataOff + k];
      assert Received(OnSegment(r, seg)) == Received(r) + seg.payload[..k];
    } else {
      assert Received(r) + [] == Received(r);
      assert OnSegment(r, seg).handed == r.handed && OnSegment(r, seg).buffered == r.buffered;
    }
  }

  /** A header length beyond the packet makes the receiver take bytes that were never in it. */
  lemma LongHeaderCounterexample()
    ensures var p := Packet(7, 0, false, false, true, 60, 20, seq(9000, _ => 0x2A));
      var r := Receiver([], [], 7, true);
      PayloadLen(p) == 65496 && |Received(OnSegment(r, AsSegment(p)))| == BUFFER && !WithinPacket(r, p)
  {
  }

  /** A header length of zero makes it take the header. */
  lemma ShortHeaderCounterexample()
    ensures var p := Packet(7, 0, false, false, true, 0, 20, seq(20, _ => 0x2A));
      var r := Receiver([], [], 7, true);
      Received(OnSegment(r, AsSegment(p))) == p.mem && !WithinPacket(r, p)
  {
    var p, r := Packet(7, 0, false, false, true, 0, 20, seq(20, _ => 0x2A)), Receiver([], [], 7, true);
    PayloadIff(r, p);
    assert p.mem[0..20] == p.mem;
  }

  /** `sent` is what tcp_send_id has handed on once it has reached byte `off` of `data`, with `num` the next number. */
  ghost predicate SentUpTo(sent: seq<Segment>, data: seq<u8>, first: u32, off: nat, num: u32) {
    && off == Min(|data|, MSS * |sent|) && num == (first + off) % TWO_32
    && sent + Cut(data[off..], num) == Cut(data, first)
  }

  lemma SentPiece(sent: seq<Segment>, data: seq<u8>, first: u32, off: nat, num: u32, chunk: nat)
    requires SentUpTo(sent, data, first, off, num) && off < |data| && chunk == Min(|data| - off, MSS)
    ensures SentUpTo(sent + [Segment(num, false, true, data[off..off + chunk])], data, first, off + chunk,
      (num + chunk) % TWO_32)
    ensures |sent| < |Cut(data, first)|
  {
    var tail, rest := data[off..], Cut(data[off + chunk..], (num + chunk) % TWO_32);
    var seg := Segment(num, false, true, data[off..off + chunk]);
    WrapAdd(first, off, chunk);
    assert tail[..chunk] == data[off..off + chunk] && tail[chunk..] == data[off + chunk..];
    assert sent + ([seg] + rest) == sent + [seg] + rest;
  }

  lemma SentAll(sent: seq<Segment>, data: seq<u8>, first: u32, num: u32)
    requires SentUpTo(sent, data, first, |data|, num)
    ensures sent == Cut(data, first) && num == (first + |data|) % TWO_32
  {
    assert data[|data|..] == [] && sent + [] == sent;
  }

  lemma SentPrefix(sent: seq<Segment>, data: seq<u8>, first: u32, off: nat, num: u32)
    requires SentUpTo(sent, data, first, off, num)
    ensures sent <= Cut(data, first) && off == Min(|data|, MSS * |sent|)
  {
  }

  class Connection {
    var state: TcpState
    var sndNxt: u32
    var sndUna: u32
    var rcvNxt: u32
    const rxBuf: array<u8>
    var rxLen: nat
    var acksSent: nat
    ghost var handed: seq<u8>

    ghost predicate Valid()
      reads this, rxBuf
    {
      rxBuf.Length == BUFFER && rxLen <= BUFFER
    }

    ghost function View(): Receiver
      requires Valid()
      reads this, rxBuf
    {
      Receiver(handed, rxBuf[..rxLen], rcvNxt, state == Established)
    }

    /** tcp_connect. */
    constructor Active()
      ensures Valid() && fresh(rxBuf) && state == SynSent && sndNxt == 5001 && rxLen == 0 && handed == []
    {
      rxBuf := new u8[BUFFER];
      state, sndNxt, sndUna, rcvNxt, rxLen, acksSent, handed := SynSent, 5001, 0, 0, 0, 0, [];
    }

    /** The connection a listener makes for a SYN: it expects the byte after the SYN. */
    constructor Passive(syn: Packet)
      requires syn.syn
      ensures Valid() && fresh(rxBuf) && state == SynReceived && rxLen == 0 && handed == []
      ensures rcvNxt == (syn.num + 1) % TWO_32 && sndNxt == 1001
    {
      rxBuf := new u8[BUFFER];
      state, rcvNxt, sndNxt, sndUna, rxLen, acksSent, handed := SynReceived, (syn.num + 1) % TWO_32, 1001, 0, 0, 1, [];
    }

    /** tcp_rx for a segment of this connection. On an established connection it is one receiver step; in every
        other state no byte is taken. */
    method Receive(p: Packet)
      requires Valid() && Readable(p)
      modifies this, rxBuf
      ensures Valid() && handed == old(handed)
      ensures old(state) == Established ==> View() == OnSegment(old(View()), AsSegment(p))
      ensures old(state) == Established ==> state == if p.fin then CloseWait else Established
      ensures old(state) != Established ==> rxLen == old(rxLen) && rxBuf[..] == old(rxBuf[..])
      ensures old(state) == SynSent ==>
        if p.syn && p.ack then state == Established && rcvNxt == (p.num + 1) % TWO_32
        else state == SynSent && rcvNxt == old(rcvNxt)
      ensures old(state) == SynReceived ==>
        rcvNxt == old(rcvNxt) && state == if p.ack then Established else SynReceived
      ensures old(state) == FinWait1 ==>
        state == if p.fin then (if p.ack then TimeWait else Closing) else if p.ack then FinWait2 else FinWait1
      ensures old(state) == FinWait2 ==> state == if p.fin then TimeWait else FinWait2
      ensures old(state) in {FinWait1, FinWait2} ==> rcvNxt == if p.fin then (p.num + 1) % TWO_32 else old(rcvNxt)
      ensures old(state) == LastAck ==> rcvNxt == old(rcvNxt) && state == if p.ack then Closed else LastAck
      ensures sndNxt == old(sndNxt)
      ensures sndUna == if p.ack
        && ((old(state) == SynSent && p.syn) || old(state) == SynReceived || (old(state) == Established && !p.fin))
                        then p.ackNum else old(sndUna)
      ensures acksSent == old(acksSent) +
        if (old(state) == SynSent && p.syn && p.ack) || (old(state) in {Established, FinWait1, FinWait2} && p.fin)
           || (old(state) == Established && !p.fin && p.ack && PayloadLen(p) > 0 && p.num == old(rcvNxt)) then 1 else 0
      ensures old(state) in {Closed, Listen, CloseWait, Closing, TimeWait} ==>
        state == old(state) && rcvNxt == old(rcvNxt)
    {
      match state
      case SynSent =>
        if p.syn && p.ack {
          rcvNxt, sndUna, state := (p.num + 1) % TWO_32, p.ackNum, Established;
          acksSent := acksSent + 1;
        }
      case SynReceived =>
        if p.ack {
          sndUna, state := p.ackNum, Established;
        }
      case Established =>
        if p.fin {
          rcvNxt, state := (p.num + 1) % TWO_32, CloseWait;
          acksSent := acksSent + 1;
        } else if p.ack {
          sndUna := p.ackNum;
          var n := PayloadLen(p);
          if n > 0 && p.num == rcvNxt {
            Append(p, n);
            acksSent := acksSent + 1;
          }
        }
      case FinWait1 =>
        if p.ack && p.fin {
          rcvNxt, state := (p.num + 1) % TWO_32, TimeWait;
          acksSent := acksSent + 1;
        } else if p.ack {
          state := FinWait2;
        } else if p.fin {
          rcvNxt, state := (p.num + 1) % TWO_32, Closing;
          acksSent := acksSent + 1;
        }
      case FinWait2 =>
        if p.fin {
          rcvNxt, state := (p.num + 1) % TWO_32, TimeWait;
          acksSent := acksSent + 1;
        }
      case LastAck =>
        if p.ack { state := Closed; }
      case _ =>
    }

    /** Copies what fits behind the buffered bytes. */
    method Append(p: Packet, n: nat)
      requires Valid() && Readable(p) && n == PayloadLen(p) > 0
      requires state == Established && !p.fin && p.ack && p.num == rcvNxt
      modifies this`rxLen, this`rcvNxt, rxBuf
      ensures Valid() && View() == OnSegment(old(View()), AsSegment(p))
    {
      var len := rxLen;
      var space := BUFFER - len;
      var copy := if n < space then n else space;
      for i := 0 to copy
        modifies rxBuf
        invariant forall j | 0 <= j < len :: rxBuf[j] == old(rxBuf[j])
        invariant forall j | len <= j < len + i :: rxBuf[j] == p.mem[p.dataOff + (j - len)]
      {
        rxBuf[len + i] := p.mem[p.dataOff + i];
      }
      assert rxBuf[..len + copy] == old(rxBuf[..len]) + AsSegment(p).payload[..copy];
      rxLen := len + copy;
      rcvNxt := (rcvNxt + copy) % TWO_32;
    }

    /** tcp_recv_id: hands out the oldest bytes and shifts the rest down. */
    method Recv(max: u16) returns (rc: int, buf: seq<u8>)
      requires Valid()
      modifies this`rxLen, this`handed, rxBuf
      ensures Valid()
      ensures max == 0 || (state != Established && state != CloseWait) ==>
        rc == -1 && buf == [] && View() == old(View())
      ensures max > 0 && (state == Established || state == CloseWait) ==>
        rc == |buf| == Min(old(rxLen), max) && handed == old(handed) + buf && View() == OnRecv(old(View()), max)
    {
      if max == 0 { return -1, []; }
      if state != Established && state != CloseWait { return -1, []; }
      if rxLen == 0 {
        assert OnRecv(View(), max) == View() by {
          assert handed + [] == handed;
        }
        return 0, [];
      }
      var n := if rxLen < max then rxLen else max;
      buf := rxBuf[..n];
      var len := rxLen;
      ghost var was := rxBuf[..len];
      for i := n to len
        modifies rxBuf
        invariant forall j | 0 <= j < i - n :: rxBuf[j] == was[j + n]
        invariant forall j | i <= j < len :: rxBuf[j] == was[j]
      {
        rxBuf[i - n] := rxBuf[i];
      }
      assert rxBuf[..len - n] == was[n..];
      assert buf == was[..n];
      rxLen := len - n;
      handed := handed + buf;
      rc := n;
    }
  
    /** tcp_send_id: hands the pieces to the IP layer in order; `refused` is the first one it will not take.
        The sequence numbers of a refused piece are used up all the same. */
    method Send(data: seq<u8>, refused: Option<nat>) returns (rc: int, sent: seq<Segment>)
      requires Valid() && |data| < TWO_16
      modifies this`sndNxt
      ensures data == [] || state != Established ==> rc == -1 && sent == [] && sndNxt == old(sndNxt)
      ensures data != [] && state == Established ==>
        && sent <= Cut(data, old(sndNxt))
        && (refused.None? || refused.value >= |Cut(data, old(sndNxt))| ==>
              rc == |data| && sent == Cut(data, old(sndNxt)) && sndNxt == (old(sndNxt) + |data|) % TWO_32)
        && (refused.Some? && refused.value < |Cut(data, old(sndNxt))| ==>
              rc == -1 && |sent| == refused.value && sndNxt == (old(sndNxt) + Min(|data|, MSS * (|sent| + 1))) % TWO_32)
    {
      sent := [];
      if data == [] { return -1, []; }
      if state != Established { return -1, []; }
      var off := 0;
      assert SentUpTo(sent, data, sndNxt, off, sndNxt) by { assert data[0..] == data; }
      while off < |data|
        modifies this`sndNxt
        invariant 0 <= off <= |data| && SentUpTo(sent, data, old(sndNxt), off, sndNxt)
        invariant refused.Some? ==> |sent| <= refused.value
      {
        var chunk := if |data| - off > MSS then MSS else |data| - off;
        var seg := Segment(sndNxt, false, true, data[off..off + chunk]);
        SentPiece(sent, data, old(sndNxt), off, sndNxt, chunk);
        if refused == Some(|sent|) {
          SentPrefix(sent, data, old(sndNxt), off, sndNxt);
        }
        sndNxt := (sndNxt + chunk) % TWO_32;
        if refused == Some(|sent|) { return -1, sent; }
        sent := sent + [seg];
        off := off + chunk;
      }
      SentAll(sent, data, old(sndNxt), sndNxt);
      rc := |data|;
    }
  }
}
