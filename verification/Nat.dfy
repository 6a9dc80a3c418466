/** Network address and port translation of net/nat.c (RFC 3022 section 2.2). */
module Nat {
  import opened MachineInts
  import opened Bytes
  import IC = InternetChecksum

  const MAX_ENTRIES := 4096
  const PORT_MIN := 10000
  const PORT_MAX := 60000
  const PORT_CYCLE := 50001

  datatype Entry = Entry(internalIp: u32, internalPort: u16, externalIp: u32, externalPort: u16,
                         remoteIp: u32, remotePort: u16, protocol: u8, lastSeen: u32, active: bool)

  /** An entry after a clean-up for the age limit `maxAge`. */
  function Aged(e: Entry, maxAge: u32): Entry {
    if e.active && e.lastSeen > maxAge then e.(active := false) else e
  }

  // ---------------------------------------------------------------- lookups

  predicate IsOut(e: Entry, ip: u32, port: u16, rip: u32, rport: u16, proto: u8) {
    e.active && e.internalIp == ip && e.internalPort == port && e.remoteIp == rip && e.remotePort == rport
    && e.protocol == proto
  }

  predicate IsIn(e: Entry, port: u16, rip: u32, rport: u16, proto: u8) {
    e.active && e.externalPort == port && e.remoteIp == rip && e.remotePort == rport && e.protocol == proto
  }

  /** The first entry of the flow, as nat_find_outbound returns it. */
  ghost predicate FirstOut(t: seq<Entry>, ip: u32, port: u16, rip: u32, rport: u16, proto: u8, r: Option<nat>) {
    match r
    case Some(i) =>
      i < |t| && IsOut(t[i], ip, port, rip, rport, proto)
      && forall j | 0 <= j < i :: !IsOut(t[j], ip, port, rip, rport, proto)
    case None => forall j | 0 <= j < |t| :: !IsOut(t[j], ip, port, rip, rport, proto)
  }

  ghost predicate FirstIn(t: seq<Entry>, port: u16, rip: u32, rport: u16, proto: u8, r: Option<nat>) {
    match r
    case Some(i) =>
      i < |t| && IsIn(t[i], port, rip, rport, proto)
      && forall j | 0 <= j < i :: !IsIn(t[j], port, rip, rport, proto)
    case None => forall j | 0 <= j < |t| :: !IsIn(t[j], port, rip, rport, proto)
  }

  // ---------------------------------------------------------------- the invariant

  /** How entry `i` came to be: the serial number of its port allocation, or a port forward. */
  datatype Origin = Outbound(serial: nat) | Forward

  function PortOf(serial: nat): u16 {
    PORT_MIN + serial % PORT_CYCLE
  }

  /** The table is a filled prefix; outbound ports come from a window of fewer than 4097 consecutive serial
      numbers; port forwards have remote 0:0; nothing has aged. */
  ghost predicate Inv(t: seq<Entry>, origins: seq<Origin>, next: nat, nextPort: u16) {
    && |t| == MAX_ENTRIES && |origins| <= MAX_ENTRIES
    && nextPort == PortOf(next)
    && (forall i | 0 <= i < |t| :: t[i].active <==> i < |origins|)
    && (forall i | 0 <= i < |t| :: t[i].lastSeen == 0)
    && (forall i | 0 <= i < |origins| && origins[i].Forward? :: t[i].remoteIp == 0 && t[i].remotePort == 0)
    && (forall i | 0 <= i < |origins| && origins[i].Outbound? ::
          && t[i].externalPort == PortOf(origins[i].serial)
          && origins[i].serial < next && next - origins[i].serial <= |origins| - i)
    && (forall i, j | 0 <= i < j < |origins| && origins[i].Outbound? && origins[j].Outbound? ::
          origins[i].serial < origins[j].serial)
  }

  lemma PortsDistinct(a: nat, b: nat)
    requires a < b < a + PORT_CYCLE
    ensures PortOf(a) != PortOf(b)
  {
    assert b - a == PORT_CYCLE * (b / PORT_CYCLE - a / PORT_CYCLE) + (b % PORT_CYCLE - a % PORT_CYCLE);
  }

  /** In every reachable table the external ports of outbound mappings are pairwise distinct. */
  lemma OutboundPortsDistinct(t: seq<Entry>, origins: seq<Origin>, next: nat, nextPort: u16, i: nat, j: nat)
    requires Inv(t, origins, next, nextPort) && i < j < |origins|
    requires origins[i].Outbound? && origins[j].Outbound?
    ensures t[i].externalPort != t[j].externalPort
  {
    PortsDistinct(origins[i].serial, origins[j].serial);
  }

  /** Entry `j` is a port forward of the external port and protocol of entry `i`. */
  predicate ForwardsFor(t: seq<Entry>, origins: seq<Origin>, j: nat, i: nat)
    requires j < |origins| <= |t| && i < |t|
  {
    origins[j].Forward? && t[j].externalPort == t[i].externalPort && t[j].protocol == t[i].protocol
  }

  /** No port forward answers in place of mapping `i`: its remote is not 0:0, or no earlier forward has its port. */
  predicate Unshadowed(t: seq<Entry>, origins: seq<Origin>, i: nat)
    requires i < |origins| <= |t|
  {
    !(t[i].remoteIp == 0 && t[i].remotePort == 0) || forall j | 0 <= j < i :: !ForwardsFor(t, origins, j, i)
  }

  /** A packet that answers an outbound mapping finds exactly that mapping, if and only if no forward shadows it. */
  lemma ReplyFindsMapping(t: seq<Entry>, origins: seq<Origin>, next: nat, nextPort: u16, i: nat)
    requires Inv(t, origins, next, nextPort) && i < |origins| && origins[i].Outbound?
    ensures FirstIn(t, t[i].externalPort, t[i].remoteIp, t[i].remotePort, t[i].protocol, Some(i))
      <==> Unshadowed(t, origins, i)
  {
    forall j | 0 <= j < i
      ensures IsIn(t[j], t[i].externalPort, t[i].remoteIp, t[i].remotePort, t[i].protocol)
        <==> t[i].remoteIp == 0 && t[i].remotePort == 0 && ForwardsFor(t, origins, j, i)
    {
      if origins[j].Outbound? {
        OutboundPortsDistinct(t, origins, next, nextPort, j, i);
      }
    }
  }

  /** A port forward, meant for any source, answers packets from 0.0.0.0 port 0 only. */
  lemma ForwardNeedsZeroRemote(t: seq<Entry>, origins: seq<Origin>, next: nat, nextPort: u16,
                               i: nat, port: u16, rip: u32, rport: u16, proto: u8)
    requires Inv(t, origins, next, nextPort) && i < |origins| && origins[i].Forward?
    ensures IsIn(t[i], port, rip, rport, proto) <==>
      port == t[i].externalPort && proto == t[i].protocol && rip == 0 && rport == 0
  {
  }

  /** Entries in use are never changed or moved. */
  ghost predicate Extends(t: seq<Entry>, t': seq<Entry>) {
    |t'| == |t| && forall i | 0 <= i < |t| && t[i].active :: t'[i] == t[i]
  }

  /** A known flow keeps its mapping, and so its external port, through all later table growth. */
  lemma FlowKeepsMapping(t: seq<Entry>, t': seq<Entry>, n: nat, ip: u32, port: u16, rip: u32, rport: u16, proto: u8,
    i: nat)
    requires Extends(t, t') && n <= |t| && forall j | 0 <= j < |t| :: t[j].active <==> j < n
    requires FirstOut(t, ip, port, rip, rport, proto, Some(i))
    ensures FirstOut(t', ip, port, rip, rport, proto, Some(i))
  {
  }

  // ---------------------------------------------------------------- packets

  /** The IPv4 header and the ports, read off the buffer `d` at `h`. */
  function Ihl(d: seq<u8>, h: nat): nat
    requires h < |d|
  {
    d[h] % 16 * 4
  }

  predicate InBuffer(d: seq<u8>, h: nat) {
    h + 20 <= |d| && h + Ihl(d, h) + 4 <= |d|
  }

  function Proto(d: seq<u8>, h: nat): u8
    requires InBuffer(d, h)
  {
    d[h + 9]
  }

  function SrcIp(d: seq<u8>, h: nat): u32
    requires InBuffer(d, h)
  {
    PowersOf256();
    LeAt(d, h + 12, 4)
  }

  function DstIp(d: seq<u8>, h: nat): u32
    requires InBuffer(d, h)
  {
    PowersOf256();
    LeAt(d, h + 16, 4)
  }

  function PortAt(d: seq<u8>, at: nat): u16
    requires at + 2 <= |d|
  {
    IC.Word(d[at + 1], d[at])
  }

  function SrcPort(d: seq<u8>, h: nat): u16
    requires InBuffer(d, h)
  {
    PortAt(d, h + Ihl(d, h))
  }

  function DstPort(d: seq<u8>, h: nat): u16
    requires InBuffer(d, h)
  {
    PortAt(d, h + Ihl(d, h) + 2)
  }

  function PutPort(d: seq<u8>, at: nat, port: u16): seq<u8>
    requires at + 2 <= |d|
  {
    d[at := port / 256][at + 1 := port % 256]
  }

  function PutIp(d: seq<u8>, at: nat, ip: u32): seq<u8>
    requires at + 4 <= |d|
  {
    Splice(d, at, Le(ip, 4))
  }

  /** ip_recalc_checksum in place. */
  function Recalc(d: seq<u8>, h: nat): (d': seq<u8>)
    requires InBuffer(d, h)
    ensures |d'| == |d|
  {
    var z: seq<u8> := d[h + 10 := 0][h + 11 := 0];
    var c := IC.Checksum(Sub(z, h, Ihl(d, h)));
    z[h + 10 := c % 256][h + 11 := c / 256]
  }

  function OutRewritten(d: seq<u8>, h: nat, ip: u32, port: u16): seq<u8>
    requires InBuffer(d, h)
  {
    PutPort(Recalc(PutIp(d, h + 12, ip), h), h + Ihl(d, h), port)
  }

  function InRewritten(d: seq<u8>, h: nat, ip: u32, port: u16): seq<u8>
    requires InBuffer(d, h)
  {
    PutPort(Recalc(PutIp(d, h + 16, ip), h), h + Ihl(d, h) + 2, port)
  }

  ghost predicate HeaderValid(d: seq<u8>, h: nat) {
    InBuffer(d, h) && Ihl(d, h) >= 20 && IC.CheckOk(Sub(d, h, Ihl(d, h)))
  }

  /** A recomputed header of at least 20 bytes passes the receive check and keeps every other byte. */
  lemma RecalcValid(d: seq<u8>, h: nat)
    requires InBuffer(d, h) && Ihl(d, h) >= 20
    ensures HeaderValid(Recalc(d, h), h)
    ensures forall i {:trigger Recalc(d, h)[i]} | 0 <= i < |d| && i != h + 10 && i != h + 11 :: Recalc(d, h)[i] == d[i]
  {
    var n := Ihl(d, h);
    var hdr := Sub(d, h, n);
    var z: seq<u8> := d[h + 10 := 0][h + 11 := 0];
    assert Sub(z, h, n) == IC.Zeroed(hdr);
    var c := IC.Checksum(IC.Zeroed(hdr));
    assert Recalc(d, h)[h + 10] == c % 256 && Recalc(d, h)[h + 11] == c / 256;
    forall i | 0 <= i < n
      ensures Sub(Recalc(d, h), h, n)[i] == IC.Stamped(hdr)[i]
    {
    }
    assert Sub(Recalc(d, h), h, n) == IC.Stamped(hdr);
    IC.StampedPasses(hdr);
  }

  lemma PutIpReads(d: seq<u8>, at: nat, ip: u32)
    requires at + 4 <= |d|
    ensures LeAt(PutIp(d, at, ip), at, 4) == ip
  {
    PowersOf256();
    LeAtStored(PutIp(d, at, ip), at, ip, 4);
  }

  /** What an outbound rewrite does to a packet with a full header. */
  lemma OutFields(d: seq<u8>, h: nat, ip: u32, port: u16)
    requires InBuffer(d, h) && Ihl(d, h) >= 20
    ensures var r := OutRewritten(d, h, ip, port);
      && HeaderValid(r, h) && |r| == |d| && Ihl(r, h) == Ihl(d, h)
      && SrcIp(r, h) == ip && SrcPort(r, h) == port
      && DstIp(r, h) == DstIp(d, h) && DstPort(r, h) == DstPort(d, h) && Proto(r, h) == Proto(d, h)
  {
    var a := PutIp(d, h + 12, ip);
    var b := Recalc(a, h);
    var r := OutRewritten(d, h, ip, port);
    PutIpReads(d, h + 12, ip);
    RecalcValid(a, h);
    LeAtSame(a, r, h + 12, 4);
    LeAtSame(d, r, h + 16, 4);
    assert Sub(r, h, Ihl(d, h)) == Sub(b, h, Ihl(d, h));
  }

  lemma InFields(d: seq<u8>, h: nat, ip: u32, port: u16)
    requires InBuffer(d, h) && Ihl(d, h) >= 20
    ensures var r := InRewritten(d, h, ip, port);
      && HeaderValid(r, h) && |r| == |d| && Ihl(r, h) == Ihl(d, h)
      && DstIp(r, h) == ip && DstPort(r, h) == port
      && SrcIp(r, h) == SrcIp(d, h) && SrcPort(r, h) == SrcPort(d, h) && Proto(r, h) == Proto(d, h)
  {
    var a := PutIp(d, h + 16, ip);
    var b := Recalc(a, h);
    var r := InRewritten(d, h, ip, port);
    PutIpReads(d, h + 16, ip);
    RecalcValid(a, h);
    LeAtSame(a, r, h + 16, 4);
    LeAtSame(d, r, h + 12, 4);
    assert Sub(r, h, Ihl(d, h)) == Sub(b, h, Ihl(d, h));
  }

  // ---------------------------------------------------------------- the translator

  class PktBuf {
    var data: seq<u8>
    const head: nat
    const len: nat

    constructor (data: seq<u8>, head: nat, len: nat)
      ensures this.data == data && this.head == head && this.len == len
    {
      this.data, this.head, this.len := data, head, len;
    }
  }

  /** ip_recalc_checksum: zero the field, sum the header's words, store the complement. */
  method RecalcChecksum(pkt: PktBuf)
    requires InBuffer(pkt.data, pkt.head)
    modifies pkt
    ensures pkt.data == Recalc(old(pkt.data), pkt.head)
  {
    var h := pkt.head;
    pkt.data := pkt.data[h + 10 := 0][h + 11 := 0];
    var n := Ihl(pkt.data, h);
    var c := IC.IpChecksum(Sub(pkt.data, h, n));
    pkt.data := pkt.data[h + 10 := c % 256][h + 11 := c / 256];
  }

  class Translator {
    var table: seq<Entry>
    var nextPort: u16
    var enabled: bool
    ghost var origins: seq<Origin>
    ghost var next: nat

    ghost predicate Valid()
      reads this
    {
      Inv(table, origins, next, nextPort)
    }

    constructor ()
      ensures Valid() && origins == [] && !enabled
    {
      table := seq(MAX_ENTRIES, _ => Entry(0, 0, 0, 0, 0, 0, 0, 0, false));
      nextPort, enabled := PORT_MIN, false;
      origins, next := [], 0;
    }

    /** Clears the table; the port counter keeps its place in the cycle. */
    method Init()
      requires Valid()
      modifies this
      ensures Valid() && origins == [] && !enabled && next == old(next)
    {
      for i := 0 to MAX_ENTRIES
        invariant |table| == MAX_ENTRIES && nextPort == old(nextPort) && next == old(next)
        invariant forall j | 0 <= j < |table| :: table[j].lastSeen == 0
        invariant forall j | 0 <= j < i :: !table[j].active
      {
        table := table[i := table[i].(active := false)];
      }
      enabled := false;
      origins := [];
    }

    method AllocPort() returns (port: u16)
      requires nextPort == PortOf(next)
      modifies this`nextPort, this`next
      ensures port == PortOf(old(next)) && next == old(next) + 1 && nextPort == PortOf(next)
    {
      port := nextPort;
      nextPort := (nextPort + 1) % TWO_16;
      if nextPort > PORT_MAX { nextPort := PORT_MIN; }
      PortCycles(next);
      next := next + 1;
    }

    method FindOutbound(ip: u32, port: u16, rip: u32, rport: u16, proto: u8) returns (r: Option<nat>)
      ensures FirstOut(table, ip, port, rip, rport, proto, r)
    {
      for i := 0 to |table|
        invariant forall j | 0 <= j < i :: !IsOut(table[j], ip, port, rip, rport, proto)
      {
        if IsOut(table[i], ip, port, rip, rport, proto) { return Some(i); }
      }
      r := None;
    }

    method FindInbound(port: u16, rip: u32, rport: u16, proto: u8) returns (r: Option<nat>)
      ensures FirstIn(table, port, rip, rport, proto, r)
    {
      for i := 0 to |table|
        invariant forall j | 0 <= j < i :: !IsIn(table[j], port, rip, rport, proto)
      {
        if IsIn(table[i], port, rip, rport, proto) { return Some(i); }
      }
      r := None;
    }

    /** The first unused slot, which is the end of the filled prefix. */
    method AllocEntry() returns (r: Option<nat>)
      requires Valid()
      ensures r == if |origins| < MAX_ENTRIES then Some(|origins|) else None
    {
      for i := 0 to |table|
        invariant i <= |origins|
      {
        if !table[i].active { return Some(i); }
      }
      r := None;
    }

    /** A new outbound mapping with the next port of the cycle. */
    method NewMapping(i: nat, ip: u32, port: u16, wan: u32, rip: u32, rport: u16, proto: u8)
      requires Valid() && i == |origins| < MAX_ENTRIES
      modifies this`table, this`nextPort, this`origins, this`next
      ensures Valid() && origins == old(origins) + [Outbound(old(next))] && next == old(next) + 1
      ensures Extends(old(table), table) && IsOut(table[i], ip, port, rip, rport, proto)
      ensures forall j | 0 <= j < |table| && j != i :: table[j] == old(table)[j]
    {
      var p := AllocPort();
      table := table[i := Entry(ip, port, wan, p, rip, rport, proto, 0, true)];
      origins := origins + [Outbound(old(next))];
    }

    /** Masquerades one packet: an existing mapping is reused, else a new one is made while the table has room. */
    method TranslateOutbound(pkt: PktBuf?, wan: u32) returns (ok: bool, ghost i: nat)
      requires Valid()
      requires pkt != null ==> InBuffer(pkt.data, pkt.head)
      modifies this`table, this`nextPort, this`origins, this`next, pkt
      ensures Valid() && Extends(old(table), table) && old(origins) <= origins
      ensures !ok ==> table == old(table) && origins == old(origins) && next == old(next)
      ensures !ok && pkt != null ==> pkt.data == old(pkt.data)
      ensures ok ==> enabled && pkt != null && pkt.len >= 24
      ensures ok ==> i < |origins|
      ensures ok ==> FirstOut(table, SrcIp(old(pkt.data), pkt.head), SrcPort(old(pkt.data), pkt.head),
                              DstIp(old(pkt.data), pkt.head), DstPort(old(pkt.data), pkt.head),
                              Proto(old(pkt.data), pkt.head), Some(i))
      ensures ok ==> pkt.data == OutRewritten(old(pkt.data), pkt.head, wan, table[i].externalPort)
      ensures ok && Ihl(old(pkt.data), pkt.head) >= 20 ==>
        && HeaderValid(pkt.data, pkt.head) && SrcIp(pkt.data, pkt.head) == wan
          && SrcPort(pkt.data, pkt.head) == table[i].externalPort
        && DstIp(pkt.data, pkt.head) == DstIp(old(pkt.data), pkt.head)
          && DstPort(pkt.data, pkt.head) == DstPort(old(pkt.data), pkt.head)
      ensures !ok && enabled && pkt != null && pkt.len >= 24 ==> |origins| == MAX_ENTRIES
    {
      i := 0;
      if !enabled || pkt == null { return false, 0; }
      if pkt.len < 24 { return false, 0; }
      var d, h := pkt.data, pkt.head;
      var sip, sport, dip, dport, proto := SrcIp(d, h), SrcPort(d, h), DstIp(d, h), DstPort(d, h), Proto(d, h);
      var found := FindOutbound(sip, sport, dip, dport, proto);
      if found.None? {
        found := AllocEntry();
        if found.None? { return false, 0; }
        NewMapping(found.value, sip, sport, wan, dip, dport, proto);
      }
      assert FirstOut(table, sip, sport, dip, dport, proto, found);
      i := found.value;
      var port := table[found.value].externalPort;
      pkt.data := PutIp(pkt.data, h + 12, wan);
      RecalcChecksum(pkt);
      pkt.data := PutPort(pkt.data, h + Ihl(d, h), port);
      if Ihl(d, h) >= 20 { OutFields(d, h, wan, port); }
      return true, i;
    }

    /** Rewrites a packet for a known mapping and leaves any other packet alone. */
    method TranslateInbound(pkt: PktBuf?) returns (ok: bool, ghost i: nat)
      requires Valid()
      requires pkt != null ==> InBuffer(pkt.data, pkt.head)
      modifies pkt
      ensures !ok && pkt != null ==> pkt.data == old(pkt.data)
      ensures ok ==> enabled && pkt != null && pkt.len >= 24
      ensures enabled && pkt != null && pkt.len >= 24 ==>
        FirstIn(table, DstPort(old(pkt.data), pkt.head), SrcIp(old(pkt.data), pkt.head),
          SrcPort(old(pkt.data), pkt.head),
                Proto(old(pkt.data), pkt.head), if ok then Some(i) else None)
      ensures ok ==> i < |origins|
      ensures ok ==> pkt.data == InRewritten(old(pkt.data), pkt.head, table[i].internalIp, table[i].internalPort)
    {
      i := 0;
      if !enabled || pkt == null { return false, 0; }
      if pkt.len < 24 { return false, 0; }
      var d, h := pkt.data, pkt.head;
      var found := FindInbound(DstPort(d, h), SrcIp(d, h), SrcPort(d, h), Proto(d, h));
      if found.None? { return false, 0; }
      i := found.value;
      pkt.data := PutIp(pkt.data, h + 16, table[found.value].internalIp);
      RecalcChecksum(pkt);
      pkt.data := PutPort(pkt.data, h + Ihl(d, h) + 2, table[found.value].internalPort);
      return true, i;
    }

    method AddPortForward(externalIp: u32, externalPort: u16, internalIp: u32, internalPort: u16, proto: u8)
      returns (ok: bool)
      requires Valid()
      modifies this`table, this`origins
      ensures Valid() && Extends(old(table), table)
      ensures ok <==> |old(origins)| < MAX_ENTRIES
      ensures origins == if ok then old(origins) + [Forward] else old(origins)
      ensures ok ==>
        table[|old(origins)|] == Entry(internalIp, internalPort, externalIp, externalPort, 0, 0, proto, 0, true)
      ensures !ok ==> table == old(table)
    {
      var i := AllocEntry();
      if i.None? { return false; }
      table := table[i.value := Entry(internalIp, internalPort, externalIp, externalPort, 0, 0, proto,
                                      table[i.value].lastSeen, true)];
      origins := origins + [Forward];
      ok := true;
    }

    /** No entry ever ages, so cleaning up removes nothing for any age limit. */
    method Cleanup(maxAge: u32)
      requires Valid()
      modifies this`table
      ensures Valid() && table == old(table)
    {
      for i := 0 to |table|
        invariant table == old(table)
      {
        table := table[i := Aged(table[i], maxAge)];
      }
    }

    method ActiveCount() returns (n: nat)
      requires Valid()
      ensures n == |origins|
    {
      n := 0;
      for i := 0 to |table|
        invariant n == Min(i, |origins|)
      {
        if table[i].active { n := n + 1; }
      }
    }
  }

  /** The round trip: after packet `d` went out through mapping `i`, any reply to the rewritten packet, in any
      later table, is rewritten to the original sender's address and port. */
  lemma ReplyReachesSender(t: seq<Entry>, origins: seq<Origin>, next: nat, nextPort: u16,
                           d: seq<u8>, h: nat, i: nat, r: seq<u8>, g: nat, found: Option<nat>)
    requires Inv(t, origins, next, nextPort) && InBuffer(d, h) && InBuffer(r, g) && Ihl(r, g) >= 20
    requires FirstOut(t, SrcIp(d, h), SrcPort(d, h), DstIp(d, h), DstPort(d, h), Proto(d, h), Some(i))
    requires !(DstIp(d, h) == 0 && DstPort(d, h) == 0) ||
             (i < |origins| && origins[i].Outbound? && Unshadowed(t, origins, i))
    requires SrcIp(r, g) == DstIp(d, h) && SrcPort(r, g) == DstPort(d, h) && Proto(r, g) == Proto(d, h)
    requires DstPort(r, g) == t[i].externalPort
    requires FirstIn(t, DstPort(r, g), SrcIp(r, g), SrcPort(r, g), Proto(r, g), found)
    ensures found == Some(i)
    ensures var q := InRewritten(r, g, t[i].internalIp, t[i].internalPort);
      DstIp(q, g) == SrcIp(d, h) && DstPort(q, g) == SrcPort(d, h) && HeaderValid(q, g)
  {
    assert origins[i].Outbound?;
    ReplyFindsMapping(t, origins, next, nextPort, i);
    InFields(r, g, t[i].internalIp, t[i].internalPort);
  }

  lemma PortCycles(n: nat)
    ensures PortOf(n + 1) == if PortOf(n) == PORT_MAX then PORT_MIN else PortOf(n) + 1
  {
  }
}
