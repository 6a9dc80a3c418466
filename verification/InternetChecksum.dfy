/** The Internet checksum of net/ipv4.c and net/nat.c (RFC 1071): little-endian word sums, end-around
    carry folding, and the header check on receive. */
module InternetChecksum {
  import opened MachineInts

  const ONES := 0xFFFF

  // ---------------------------------------------------------------- word sums

  function Word(lo: int, hi: int): int {
    lo + 256 * hi
  }

  /** The sum the code forms: words loaded little-endian, an odd last byte as a low byte. */
  function SumLe(b: seq<u8>): nat {
    if |b| == 0 then 0 else if |b| == 1 then b[0] else Word(b[0], b[1]) + SumLe(b[2..])
  }

  /** The sum RFC 1071 section 1 describes: words in network order, an odd last byte as a high byte. */
  function SumBe(b: seq<u8>): nat {
    if |b| == 0 then 0 else if |b| == 1 then Word(0, b[0]) else Word(b[1], b[0]) + SumBe(b[2..])
  }

  lemma {:induction false} SumBound(b: seq<u8>)
    ensures SumLe(b) <= ONES * ((|b| + 1) / 2)
  {
    if |b| > 1 {
      SumBound(b[2..]);
    }
  }

  lemma {:induction false} SumLeAppendWord(b: seq<u8>, lo: u8, hi: u8)
    requires |b| % 2 == 0
    ensures SumLe(b + [lo, hi]) == SumLe(b) + Word(lo, hi)
  {
    if |b| > 0 {
      assert (b + [lo, hi])[2..] == b[2..] + [lo, hi];
      SumLeAppendWord(b[2..], lo, hi);
    } else {
      assert (b + [lo, hi])[2..] == [];
    }
  }

  lemma {:induction false} SumLeAppendByte(b: seq<u8>, x: u8)
    requires |b| % 2 == 0
    ensures SumLe(b + [x]) == SumLe(b) + x
  {
    if |b| > 0 {
      assert (b + [x])[2..] == b[2..] + [x];
      SumLeAppendByte(b[2..], x);
    }
  }

  // ---------------------------------------------------------------- folding

  function Fold(s: nat): nat {
    if s < 0x10000 then s else Fold(s % 0x10000 + s / 0x10000)
  }

  /** Folding removes a multiple of 65535 and keeps zero apart from the other multiples. */
  lemma {:induction false} FoldIs(s: nat) returns (k: nat)
    ensures s == Fold(s) + k * ONES
    ensures Fold(s) <= ONES
    ensures Fold(s) == 0 <==> s == 0
    decreases s
  {
    k := 0;
    if s >= 0x10000 {
      var k' := FoldIs(s % 0x10000 + s / 0x10000);
      k := k' + s / 0x10000;
    }
  }

  /** The complement of a folded sum completes it to all ones; so does 65535 on top of 65535, and nothing else. */
  lemma FoldsToOnes(s: nat, c: nat)
    requires c <= ONES
    ensures Fold(s + c) == ONES <==> c == ONES - Fold(s) || (c == ONES && Fold(s) == ONES)
  {
    var i: int := FoldIs(s);
    var j: int := FoldIs(s + c);
    var m := j - i;
    assert Fold(s) + c - Fold(s + c) == m * ONES;
  }

  lemma SmallMultiple(x: int, m: int)
    requires x == m * ONES
    ensures -ONES < x < ONES <==> x == 0
  {
  }

  /** Changing one summand `a` to `b` leaves a nonzero folded sum alone exactly for 0 against 65535. */
  lemma FoldShift(s: nat, t: nat, a: nat, b: nat)
    requires s > 0 && t > 0 && a <= ONES && b <= ONES && a != b && t == s - a + b
    ensures Fold(t) == Fold(s) <==> a == b + ONES || b == a + ONES
  {
    var j: int := FoldIs(s);
    var k: int := FoldIs(t);
    var x, y := Fold(t) - Fold(s), b - a;
    ShiftBy(x, y, j - k);
  }

  lemma ShiftBy(x: int, y: int, m: int)
    requires -ONES < x < ONES && -ONES <= y <= ONES && y != 0 && x == y + m * ONES
    ensures x == 0 <==> y == ONES || y == -ONES
  {
    if x == 0 {
      SmallMultiple(y, -m);
    } else if y == ONES {
      SmallMultiple(x, m + 1);
    } else if y == -ONES {
      SmallMultiple(x, m - 1);
    }
  }

  lemma FoldBound(s: nat)
    ensures Fold(s) <= ONES
  {
    var k := FoldIs(s);
  }

  function Checksum(b: seq<u8>): (c: u16) {
    FoldBound(SumLe(b));
    ONES - Fold(SumLe(b))
  }

  function ChecksumBe(b: seq<u8>): (c: u16) {
    FoldBound(SumBe(b));
    ONES - Fold(SumBe(b))
  }

  method SumWords(data: seq<u8>) returns (sum: u32)
    requires |data| < TWO_16
    ensures sum == SumLe(data)
  {
    sum := 0;
    var i := 0;
    while |data| - i > 1
      invariant 0 <= i <= |data| && i % 2 == 0
      invariant sum == SumLe(data[..i])
    {
      SumBound(data[..i + 2]);
      assert data[..i + 2] == data[..i] + [data[i], data[i + 1]];
      SumLeAppendWord(data[..i], data[i], data[i + 1]);
      sum := sum + Word(data[i], data[i + 1]);
      i := i + 2;
    }
    SumBound(data);
    if |data| - i == 1 {
      assert data == data[..i] + [data[i]];
      SumLeAppendByte(data[..i], data[i]);
      sum := sum + data[i];
    } else {
      assert data == data[..i];
    }
  }

  /** ip_checksum: the 32-bit accumulator never wraps for any 16-bit length. */
  method IpChecksum(data: seq<u8>) returns (c: u16)
    requires |data| < TWO_16
    ensures c == Checksum(data)
  {
    var sum := SumWords(data);
    ghost var total := sum;
    while sum / 0x10000 != 0
      invariant Fold(sum) == Fold(total)
      decreases sum
    {
      sum := sum % 0x10000 + sum / 0x10000;
    }
    c := ONES - sum;
  }

  // ---------------------------------------------------------------- byte order

  function HighBytes(b: seq<u8>): nat {
    if |b| < 2 then 0 else b[1] + HighBytes(b[2..])
  }

  lemma {:induction false} SumsSwap(b: seq<u8>)
    ensures 256 * SumLe(b) == SumBe(b) + HighBytes(b) * ONES
    ensures SumLe(b) == 0 <==> SumBe(b) == 0
  {
    if |b| > 1 {
      SumsSwap(b[2..]);
    }
  }

  function Swap(c: int): int {
    c % 256 * 256 + c / 256
  }

  lemma SwapIs(c: int)
    requires 0 <= c <= ONES
    ensures 0 <= Swap(c) <= ONES && 256 * c == Swap(c) + c / 256 * ONES
    ensures Swap(c) == 0 <==> c == 0
    ensures Swap(ONES - c) == ONES - Swap(c)
  {
  }

  /** RFC 1071 section 2(B): the little-endian sum is the byte-swapped network-order sum, so the stored
      checksum has the same two bytes on the wire. */
  lemma SameWireBytes(b: seq<u8>)
    ensures ChecksumBe(b) == Swap(Checksum(b))
    ensures Checksum(b) % 256 == ChecksumBe(b) / 256 && Checksum(b) / 256 == ChecksumBe(b) % 256
  {
    var f, g := Fold(SumLe(b)), Fold(SumBe(b));
    var i := FoldIs(SumLe(b));
    var j := FoldIs(SumBe(b));
    SumsSwap(b);
    SwapIs(f);
    var m := HighBytes(b) - 256 * i + j - f / 256;
    assert Swap(f) == g + m * ONES;
    assert m == 0;
  }

  // ---------------------------------------------------------------- the IPv4 header check

  /** Replacing one aligned word changes the sum by the difference of the words. */
  lemma {:induction false} SumUpdate(h: seq<u8>, i: nat, lo: u8, hi: u8)
    requires i % 2 == 0 && i + 1 < |h|
    ensures SumLe(h[i := lo][i + 1 := hi]) == SumLe(h) - Word(h[i], h[i + 1]) + Word(lo, hi)
  {
    if i == 0 {
      assert h[i := lo][i + 1 := hi][2..] == h[2..];
    } else {
      assert h[i := lo][i + 1 := hi][2..] == h[2..][i - 2 := lo][i - 1 := hi];
      SumUpdate(h[2..], i - 2, lo, hi);
    }
  }

  /** A header as received: whole words, with the checksum field at bytes 10 and 11. */
  predicate HeaderShape(h: seq<u8>) {
    |h| % 2 == 0 && |h| >= 12
  }

  function Field(h: seq<u8>): u16
    requires HeaderShape(h)
  {
    Word(h[10], h[11])
  }

  function Zeroed(h: seq<u8>): seq<u8>
    requires HeaderShape(h)
  {
    h[10 := 0][11 := 0]
  }

  function Stamped(h: seq<u8>): (h': seq<u8>)
    requires HeaderShape(h)
    ensures HeaderShape(h') && |h'| == |h|
  {
    h[10 := Checksum(Zeroed(h)) % 256][11 := Checksum(Zeroed(h)) / 256]
  }

  /** The comparison ipv4_rx makes: recompute over the zeroed field and compare. */
  predicate CheckOk(h: seq<u8>)
    requires HeaderShape(h)
  {
    Field(h) == Checksum(Zeroed(h))
  }

  lemma StampedParts(h: seq<u8>)
    requires HeaderShape(h)
    ensures Zeroed(Stamped(h)) == Zeroed(h) && Field(Stamped(h)) == Checksum(Zeroed(h))
  {
  }

  /** A stamped header passes the check, and its full sum folds to all ones. */
  lemma StampedPasses(h: seq<u8>)
    requires HeaderShape(h)
    ensures CheckOk(Stamped(h)) && Fold(SumLe(Stamped(h))) == ONES
  {
    StampedParts(h);
    CheckVersusRfc(Stamped(h));
  }

  lemma {:induction false} SumZeroIff(b: seq<u8>)
    ensures SumLe(b) == 0 <==> forall i | 0 <= i < |b| :: b[i] == 0
  {
    if |b| >= 2 {
      SumZeroIff(b[2..]);
      assert forall i | 0 <= i < |b[2..]| :: b[2..][i] == b[i + 2];
      if forall i | 0 <= i < |b[2..]| :: b[2..][i] == 0 {
        forall i | 2 <= i < |b|
          ensures b[i] == 0
        {
          assert b[2..][i - 2] == b[i];
        }
      }
    }
  }

  /** Some byte outside the checksum field is not zero. */
  predicate OtherBytes(h: seq<u8>)
    requires HeaderShape(h)
  {
    exists i | 0 <= i < |h| && i != 10 && i != 11 :: h[i] != 0
  }

  lemma OtherBytesSum(h: seq<u8>)
    requires HeaderShape(h)
    ensures SumLe(Zeroed(h)) > 0 <==> OtherBytes(h)
  {
    SumZeroIff(Zeroed(h));
    if i :| 0 <= i < |h| && i != 10 && i != 11 && h[i] != 0 {
      assert Zeroed(h)[i] == h[i];
    }
  }

  /** The receive check is RFC 1071's (the whole header folds to all ones), except that it refuses a field of 0xFFFF in
      a header that is not otherwise zero. */
  lemma CheckVersusRfc(h: seq<u8>)
    requires HeaderShape(h)
    ensures CheckOk(h) <==> Fold(SumLe(h)) == ONES && !(Field(h) == ONES && OtherBytes(h))
  {
    var s := SumLe(Zeroed(h));
    SumUpdate(h, 10, 0, 0);
    FoldsToOnes(s, Field(h));
    OtherBytesSum(h);
    var k := FoldIs(s);
  }

  /** Such a header: version 4, five words, and a sum that is already all ones. */
  function AllOnesHeader(): (h: seq<u8>)
    ensures |h| == 20
  {
    seq(20, _ => 0)[0 := 0x45][2 := 0xBA][3 := 0xFF][10 := 0xFF][11 := 0xFF]
  }

  lemma ThreeWords(h: seq<u8>)
    requires |h| == 20 && forall i | 0 <= i < 20 && i !in {0, 1, 2, 3, 10, 11} :: h[i] == 0
    ensures SumLe(h) == Word(h[0], h[1]) + Word(h[2], h[3]) + Word(h[10], h[11])
  {
    var h1 := h[0 := 0][1 := 0];
    var h2 := h1[2 := 0][3 := 0];
    SumUpdate(h, 0, 0, 0);
    SumUpdate(h1, 2, 0, 0);
    SumUpdate(h2, 10, 0, 0);
    SumZeroIff(h2[10 := 0][11 := 0]);
  }

  lemma RfcCounterexample()
    ensures Fold(SumLe(AllOnesHeader())) == ONES && !CheckOk(AllOnesHeader())
  {
    var h := AllOnesHeader();
    ThreeWords(h);
    assert h[0] != 0;
    CheckVersusRfc(h);
  }

  /** One changed word other than the checksum goes unnoticed exactly when it swaps 0x0000 and 0xFFFF and other bytes
      are not zero before and after. */
  lemma OneWordDetected(h: seq<u8>, i: nat, lo: u8, hi: u8)
    requires HeaderShape(h) && CheckOk(h) && i % 2 == 0 && i + 1 < |h| && i != 10
    requires Word(lo, hi) != Word(h[i], h[i + 1])
    ensures var h' := h[i := lo][i + 1 := hi];
      CheckOk(h') <==>
        && (Word(lo, hi) == Word(h[i], h[i + 1]) + ONES || Word(h[i], h[i + 1]) == Word(lo, hi) + ONES)
        && OtherBytes(h) && OtherBytes(h')
  {
    var h' := h[i := lo][i + 1 := hi];
    var s, t := SumLe(Zeroed(h)), SumLe(Zeroed(h'));
    assert Zeroed(h') == Zeroed(h)[i := lo][i + 1 := hi];
    assert Zeroed(h)[i] == h[i] && Zeroed(h)[i + 1] == h[i + 1];
    SumUpdate(Zeroed(h), i, lo, hi);
    OtherBytesSum(h);
    OtherBytesSum(h');
    if s > 0 && t > 0 {
      FoldShift(s, t, Word(h[i], h[i + 1]), Word(lo, hi));
    } else {
      var j := FoldIs(s);
      var k := FoldIs(t);
    }
  }

  // ---------------------------------------------------------------- sending and receiving

  /** The checks of ipv4_rx up to and including the checksum. */
  predicate RxAccepts(p: seq<u8>) {
    && |p| >= 20 && p[0] / 16 == 4
    && p[0] % 16 * 4 >= 20 && |p| >= p[0] % 16 * 4
    && CheckOk(p[..p[0] % 16 * 4])
  }

  /** The 20 bytes ipv4_send writes before it computes the checksum. */
  function RawHeader(totalLen: u16, id: u16, proto: u8, src: seq<u8>, dst: seq<u8>): (h: seq<u8>)
    requires |src| == 4 && |dst| == 4
    ensures |h| == 20 && h[0] == 0x45
  {
    [0x45, 0, totalLen / 256, totalLen % 256, id / 256, id % 256, 0x40, 0x00, 64, proto, 0, 0] + src + dst
  }

  /** Whatever ipv4_send puts on the wire passes the receiver's header checks. */
  method BuildPacket(payload: seq<u8>, id: u16, proto: u8, src: seq<u8>, dst: seq<u8>) returns (p: seq<u8>)
    requires |src| == 4 && |dst| == 4
    ensures RxAccepts(p) && |p| == 20 + |payload| && p[20..] == payload
    ensures p[9] == proto && p[12..16] == src && p[16..20] == dst
    ensures Word(p[3], p[2]) == (20 + |payload|) % TWO_16 && Word(p[5], p[4]) == id
  {
    var h := RawHeader((20 + |payload|) % TWO_16, id, proto, src, dst);
    var c := IpChecksum(h);
    assert Zeroed(h) == h;
    ghost var raw := h;
    h := h[10 := c % 256][11 := c / 256];
    assert h == Stamped(raw);
    StampedPasses(raw);
    p := h + payload;
    assert p[..20] == h;
  }
}
