/** SHA-256 of security/src/integrity.rs against FIPS 180-4: padding of the whole message (section 5.1.1) and the fold
    of the compression function over its 64-byte blocks (section 6.2.2). */
module Sha256 {
  import opened MachineInts
  import opened Bytes

  type Byte = bv8
  type Word = bv32
  type Block = b: seq<Byte> | |b| == 64 witness seq(64, _ => 0)

  /** Eight words: a hash value, or the working variables of a round. */
  datatype Eight<W> = Eight(a: W, b: W, c: W, d: W, e: W, f: W, g: W, h: W)

  /** The operations the algorithm is built from: a word from four bytes, addition, the functions of section 4.1.2 and
      the constants of section 4.2.2.  The loops below are proved for any such operations; ShaOps gives SHA-256's. */
  datatype Ops<!W> = Ops(load: (Byte, Byte, Byte, Byte) -> W, add: (W, W) -> W, k: nat -> W,
                         smallSigma0: W -> W, smallSigma1: W -> W, bigSigma0: W -> W, bigSigma1: W -> W,
                         ch: (W, W, W) -> W, maj: (W, W, W) -> W)
  {
    function Sum3(x: W, y: W, z: W): W { add(add(x, y), z) }
    function Sum4(x: W, y: W, z: W, u: W): W { add(Sum3(x, y, z), u) }
  }

  predicate CommutesAt<W(==)>(o: Ops<W>, x: W, y: W) { o.add(x, y) == o.add(y, x) }
  predicate AssociatesAt<W(==)>(o: Ops<W>, x: W, y: W, z: W) { o.add(o.add(x, y), z) == o.add(x, o.add(y, z)) }

  ghost predicate Commutes<W(!new)>(o: Ops<W>) { forall x, y :: CommutesAt(o, x, y) }
  ghost predicate Associates<W(!new)>(o: Ops<W>) { forall x, y, z :: AssociatesAt(o, x, y, z) }

  /** Four words can be added from either end. */
  lemma SumOrder<W(!new)>(o: Ops<W>, x: W, y: W, z: W, u: W)
    requires Commutes(o) && Associates(o)
    ensures o.Sum4(x, y, z, u) == o.Sum4(u, z, y, x)
  {
    assert CommutesAt(o, x, y) && CommutesAt(o, o.add(y, x), z) && CommutesAt(o, o.add(z, o.add(y, x)), u);
    assert AssociatesAt(o, z, y, x) && AssociatesAt(o, u, o.add(z, y), x) && AssociatesAt(o, u, z, y);
  }

  // Section 6.2.2

  /** Word `t` of the message schedule. */
  function Schedule<W>(o: Ops<W>, m: Block, t: nat): W {
    if t < 16 then o.load(m[4 * t], m[4 * t + 1], m[4 * t + 2], m[4 * t + 3])
    else o.Sum4(o.smallSigma1(Schedule(o, m, t - 2)), Schedule(o, m, t - 7), o.smallSigma0(Schedule(o, m, t - 15)),
      Schedule(o, m, t - 16))
  }

  function Round<W>(o: Ops<W>, v: Eight<W>, t: nat, w: W): Eight<W> {
    var t1 := o.add(o.Sum4(v.h, o.bigSigma1(v.e), o.ch(v.e, v.f, v.g), o.k(t)), w);
    var t2 := o.add(o.bigSigma0(v.a), o.maj(v.a, v.b, v.c));
    Eight(o.add(t1, t2), v.a, v.b, v.c, o.add(v.d, t1), v.e, v.f, v.g)
  }

  /** The working variables after `t` rounds. */
  function Rounds<W>(o: Ops<W>, v: Eight<W>, m: Block, t: nat): Eight<W> {
    if t == 0 then v else Round(o, Rounds(o, v, m, t - 1), t - 1, Schedule(o, m, t - 1))
  }

  function AddAll<W>(o: Ops<W>, x: Eight<W>, y: Eight<W>): Eight<W> {
    Eight(o.add(x.a, y.a), o.add(x.b, y.b), o.add(x.c, y.c), o.add(x.d, y.d),
          o.add(x.e, y.e), o.add(x.f, y.f), o.add(x.g, y.g), o.add(x.h, y.h))
  }

  function Compress<W>(o: Ops<W>, h: Eight<W>, m: Block): Eight<W> {
    AddAll(o, h, Rounds(o, h, m, 64))
  }

  type Compression<!W> = (Eight<W>, Block) -> Eight<W>

  /** `f` is the compression function made of these operations. */
  ghost predicate Implements<W(!new)>(o: Ops<W>, f: Compression<W>) {
    Commutes(o) && Associates(o) && forall h, m {:trigger Compress(o, h, m)} :: f(h, m) == Compress(o, h, m)
  }

  // The loops of sha256_compress

  /** The message schedule, added up from the oldest word on. */
  method ExpandBlock<W(!new)>(o: Ops<W>, block: Block) returns (w: seq<W>)
    requires Commutes(o) && Associates(o)
    ensures |w| == 64 && forall t {:trigger w[t]} | 0 <= t < 64 :: w[t] == Schedule(o, block, t)
  {
    w := [];
    for i := 0 to 16
      invariant |w| == i && forall t {:trigger w[t]} | 0 <= t < i :: w[t] == Schedule(o, block, t)
    {
      w := w + [o.load(block[i * 4], block[i * 4 + 1], block[i * 4 + 2], block[i * 4 + 3])];
    }
    for i := 16 to 64
      invariant |w| == i && forall t {:trigger w[t]} | 0 <= t < i :: w[t] == Schedule(o, block, t)
    {
      var s0, s1 := o.smallSigma0(w[i - 15]), o.smallSigma1(w[i - 2]);
      SumOrder(o, w[i - 16], s0, w[i - 7], s1);
      w := w + [o.Sum4(w[i - 16], s0, w[i - 7], s1)];
    }
  }

  /** The round loop: the variables move down one by one. */
  method RunRounds<W>(o: Ops<W>, state: Eight<W>, word: seq<W>, ghost block: Block) returns (r: Eight<W>)
    requires |word| == 64 && forall t {:trigger word[t]} | 0 <= t < 64 :: word[t] == Schedule(o, block, t)
    ensures r == Rounds(o, state, block, 64)
  {
    var a, b, c, d, e, f, g, h := state.a, state.b, state.c, state.d, state.e, state.f, state.g, state.h;
    for i := 0 to 64
      invariant Eight(a, b, c, d, e, f, g, h) == Rounds(o, state, block, i)
    {
      var s1 := o.bigSigma1(e);
      var ch := o.ch(e, f, g);
      var temp1 := o.add(o.Sum4(h, s1, ch, o.k(i)), word[i]);
      var s0 := o.bigSigma0(a);
      var maj := o.maj(a, b, c);
      var temp2 := o.add(s0, maj);
      h := g;
      g := f;
      f := e;
      e := o.add(d, temp1);
      d := c;
      c := b;
      b := a;
      a := o.add(temp1, temp2);
    }
    r := Eight(a, b, c, d, e, f, g, h);
  }

  /** sha256_compress. */
  method CompressBlock<W(!new)>(o: Ops<W>, ghost f: Compression<W>, state: Eight<W>, block: Block) returns (r: Eight<W>)
    requires Implements(o, f)
    ensures r == f(state, block)
  {
    var word := ExpandBlock(o, block);
    var v := RunRounds(o, state, word, block);
    r := AddAll(o, state, v);
    assert r == Compress(o, state, block);
  }

  // Padding and folding

  function ByteOf(n: nat, i: nat): Byte {
    (n / Pow256(i) % 256) as Byte
  }

  /** The eight bytes of a 64-bit number, most significant first. */
  function Be64(n: nat): (s: seq<Byte>)
    ensures |s| == 8
  {
    seq(8, i requires 0 <= i < 8 => ByteOf(n, 7 - i))
  }

  /** The fewest zeros that fill the last block. */
  function ZerosFor(n: nat): (z: nat)
    ensures (n + 1 + z + 8) % 64 == 0 && z < 64
  {
    var r := n % 64;
    if r < 56 then 55 - r else 119 - r
  }

  /** Section 5.1.1: a 1 bit, zeros, the length in bits. */
  function Pad(msg: seq<Byte>): (p: seq<Byte>)
    ensures |p| == |msg| + 1 + ZerosFor(|msg|) + 8
  {
    msg + [0x80] + seq(ZerosFor(|msg|), _ => 0) + Be64(8 * |msg|)
  }

  /** The state after the first `n` blocks, for any compression function. */
  function Fold<S>(f: (S, Block) -> S, h: S, p: seq<Byte>, n: nat): S
    requires 64 * n <= |p|
  {
    if n == 0 then h else f(Fold(f, h, p, n - 1), Sub(p, 64 * (n - 1), 64))
  }

  lemma FoldStep<S>(f: (S, Block) -> S, h: S, p: seq<Byte>, n: nat)
    requires 64 * (n + 1) <= |p|
    ensures Fold(f, h, p, n + 1) == f(Fold(f, h, p, n), Sub(p, 64 * n, 64))
  {
  }

  /** The fold depends only on the blocks it takes. */
  lemma {:induction false} FoldPrefix<S>(f: (S, Block) -> S, h: S, p: seq<Byte>, q: seq<Byte>, n: nat)
    requires 64 * n <= |p| && 64 * n <= |q| && forall i | 0 <= i < 64 * n :: p[i] == q[i]
    ensures Fold(f, h, p, n) == Fold(f, h, q, n)
  {
    if n > 0 {
      FoldPrefix(f, h, p, q, n - 1);
      assert Sub(p, 64 * (n - 1), 64) == Sub(q, 64 * (n - 1), 64);
    }
  }

  lemma PadAt(msg: seq<Byte>, i: nat)
    requires i < |Pad(msg)|
    ensures Pad(msg)[i] ==
      if i < |msg| then msg[i]
      else if i == |msg| then 0x80
      else if i < |Pad(msg)| - 8 then 0
      else Be64(8 * |msg|)[i - (|Pad(msg)| - 8)]
  {
  }

  // The byte loop of sha256

  /** The buffered bytes: block `q` so far. */
  predicate Buffered(buf: seq<Byte>, fill: nat, p: seq<Byte>, q: nat) {
    |buf| == 64 && fill <= 64 && 64 * q + fill <= |p| && forall j | 0 <= j < fill :: buf[j] == p[64 * q + j]
  }

  lemma FullBuffer(buf: seq<Byte>, p: seq<Byte>, q: nat)
    requires Buffered(buf, 64, p, q)
    ensures buf == Sub(p, 64 * q, 64)
  {
  }

  /** All whole blocks of the data are compressed; the rest waits in the buffer. */
  method Absorb<W(!new)>(o: Ops<W>, ghost f: Compression<W>, h: Eight<W>, data: seq<Byte>, start: Block)
    returns (state: Eight<W>, buf: Block, fill: nat, ghost q: nat)
    requires Implements(o, f)
    ensures fill < 64 && |data| == 64 * q + fill && state == Fold(f, h, data, q) && Buffered(buf, fill, data, q)
  {
    state, buf, fill, q := h, start, 0, 0;
    for offset := 0 to |data|
      invariant fill < 64 && offset == 64 * q + fill
      invariant state == Fold(f, h, data, q) && Buffered(buf, fill, data, q)
    {
      buf := buf[fill := data[offset]];
      fill := fill + 1;
      if fill == 64 {
        FullBuffer(buf, data, q);
        state := CompressBlock(o, f, state, buf);
        FoldStep(f, h, data, q);
        q, fill := q + 1, 0;
      }
    }
  }

  /** Zeros go into the buffer up to `end`. */
  method ZeroFill(start: Block, fill: nat, end: nat, ghost p: seq<Byte>, ghost q: nat) returns (buf: Block)
    requires fill <= end <= 64 && Buffered(start, fill, p, q) && 64 * q + end <= |p|
    requires forall j | 64 * q + fill <= j < 64 * q + end :: p[j] == 0
    ensures Buffered(buf, end, p, q)
  {
    buf := start;
    for j := fill to end
      invariant Buffered(buf, j, p, q)
    {
      buf := buf[j := 0];
    }
  }

  /** The padded message `p`, filled up to byte `fill` of block `q`. */
  datatype Padded = Padded(p: seq<Byte>, q: nat, fill: nat, len: seq<Byte>)

  /** From there on it is zeros and the eight bytes of the length. */
  predicate Ends(t: Padded) {
    && |t.len| == 8 && t.fill <= 64 && |t.p| == 64 * (if t.fill <= 56 then t.q + 1 else t.q + 2)
    && (forall j | 64 * t.q + t.fill <= j < |t.p| - 8 :: t.p[j] == 0) && Sub(t.p, |t.p| - 8, 8) == t.len
  }

  type Ending = t: Padded | Ends(t) witness Padded(seq(64, _ => 0), 0, 0, seq(8, _ => 0))

  /** Without room for the length the block ends in zeros and the length is in the next. */
  lemma NextBlock(t: Ending)
    requires t.fill > 56
    ensures 64 * t.q + 64 <= |t.p| && forall j | 64 * t.q + t.fill <= j < 64 * t.q + 64 :: t.p[j] == 0
    ensures Ends(Padded(t.p, t.q + 1, 0, t.len))
  {
  }

  /** A block without room for the length is filled with zeros. */
  method MakeRoom<W(!new)>(o: Ops<W>, ghost f: Compression<W>, ghost h: Eight<W>, before: Eight<W>, start: Block,
    fill: nat, ghost t: Ending)
    returns (state: Eight<W>, buf: Block, fill': nat, ghost t': Ending)
    requires Implements(o, f) && fill == t.fill && Buffered(start, fill, t.p, t.q) && before == Fold(f, h, t.p, t.q)
    ensures fill' == t'.fill <= 56 && t'.p == t.p && t'.len == t.len
    ensures Buffered(buf, fill', t.p, t'.q) && state == Fold(f, h, t.p, t'.q)
  {
    state, buf, fill', t' := before, start, fill, t;
    if fill > 56 {
      NextBlock(t);
      buf := ZeroFill(start, fill, 64, t.p, t.q);
      FullBuffer(buf, t.p, t.q);
      state := CompressBlock(o, f, before, buf);
      FoldStep(f, h, t.p, t.q);
      fill', t' := 0, Padded(t.p, t.q + 1, 0, t.len);
    }
  }

  lemma LengthFits(buf: Block, t: Ending)
    requires t.fill <= 56 && Buffered(buf, 56, t.p, t.q)
    ensures |buf[..56] + t.len| == 64 && buf[..56] + t.len == Sub(t.p, 64 * t.q, 64)
  {
    assert |t.p| - 8 == 64 * t.q + 56;
    forall j | 0 <= j < 8
      ensures t.len[j] == t.p[64 * t.q + 56 + j]
    {
      assert t.len[j] == Sub(t.p, |t.p| - 8, 8)[j];
    }
  }

  /** The last block: zeros up to the length, then the length. */
  method LastBlock<W(!new)>(o: Ops<W>, ghost f: Compression<W>, ghost h: Eight<W>, before: Eight<W>, start: Block,
    fill: nat, len: seq<Byte>,
                            ghost t: Ending) returns (state: Eight<W>)
    requires Implements(o, f) && fill == t.fill <= 56 && len == t.len
    requires Buffered(start, fill, t.p, t.q) && before == Fold(f, h, t.p, t.q)
    ensures |t.p| == 64 * (t.q + 1) && state == Fold(f, h, t.p, t.q + 1)
  {
    var buf := ZeroFill(start, fill, 56, t.p, t.q);
    LengthFits(buf, t);
    state := CompressBlock(o, f, before, buf[..56] + len);
    FoldStep(f, h, t.p, t.q);
  }

  lemma WholeFold<S>(f: (S, Block) -> S, h: S, p: seq<Byte>, n: nat)
    requires |p| == 64 * n
    ensures Fold(f, h, p, |p| / 64) == Fold(f, h, p, n)
  {
    assert |p| / 64 == n;
  }

  /** The rest of the padding, in one block or two. */
  method Finish<W(!new)>(o: Ops<W>, ghost f: Compression<W>, ghost h: Eight<W>, before: Eight<W>, start: Block,
    fill: nat,
                         len: seq<Byte>, ghost t: Ending) returns (state: Eight<W>, ghost n: nat)
    requires Implements(o, f) && fill == t.fill && len == t.len
    requires Buffered(start, fill, t.p, t.q) && before == Fold(f, h, t.p, t.q)
    ensures |t.p| == 64 * n && state == Fold(f, h, t.p, n)
  {
    var s, buf, at, last := MakeRoom(o, f, h, before, start, fill, t);
    state := LastBlock(o, f, h, s, buf, at, len, last);
    n := last.q + 1;
  }

  /** sha256 up to the output: the hash of the padded message. */
  method Digest<W(!new)>(o: Ops<W>, ghost f: Compression<W>, h: Eight<W>, data: seq<Byte>) returns (state: Eight<W>)
    requires Implements(o, f) && 8 * |data| < TWO_64
    ensures state == Fold(f, h, Pad(data), |Pad(data)| / 64)
  {
    var s, buf, fill, q := Absorb(o, f, h, data, seq(64, _ => 0));
    PadStarts(f, h, data, q, buf, fill);
    ghost var n, t := 0, Padded(Pad(data), q, fill + 1, Be64(8 * |data|));
    state, n := Finish(o, f, h, s, buf[fill := 0x80], fill + 1, Be64(8 * |data|), t);
    WholeFold(f, h, Pad(data), n);
  }

  /** The padded message goes on from the buffered bytes. */
  lemma PadStarts<S>(f: (S, Block) -> S, h: S, data: seq<Byte>, q: nat, buf: Block, fill: nat)
    requires fill < 64 && |data| == 64 * q + fill && Buffered(buf, fill, data, q)
    ensures 64 * q <= |Pad(data)| && Fold(f, h, data, q) == Fold(f, h, Pad(data), q)
    ensures Buffered(buf[fill := 0x80], fill + 1, Pad(data), q)
    ensures Ends(Padded(Pad(data), q, fill + 1, Be64(8 * |data|)))
  {
    var p := Pad(data);
    assert forall i | 0 <= i < |data| :: p[i] == data[i];
    FoldPrefix(f, h, data, p, q);
    assert data[|data|..] == [];
    forall j: nat | |data| < j < |p| - 8
      ensures p[j] == 0
    {
      PadAt(data, j);
    }
    PadAt(data, |data|);
  }

  // SHA-256

  function BigEndian(b0: Byte, b1: Byte, b2: Byte, b3: Byte): Word {
    (b0 as Word << 24) | (b1 as Word << 16) | (b2 as Word << 8) | (b3 as Word)
  }

  function SmallSigma0(x: Word): Word { x.RotateRight(7) ^ x.RotateRight(18) ^ (x >> 3) }
  function SmallSigma1(x: Word): Word { x.RotateRight(17) ^ x.RotateRight(19) ^ (x >> 10) }
  function BigSigma0(x: Word): Word { x.RotateRight(2) ^ x.RotateRight(13) ^ x.RotateRight(22) }
  function BigSigma1(x: Word): Word { x.RotateRight(6) ^ x.RotateRight(11) ^ x.RotateRight(25) }
  function Ch(x: Word, y: Word, z: Word): Word { (x & y) ^ (!x & z) }
  function Maj(x: Word, y: Word, z: Word): Word { (x & y) ^ (x & z) ^ (y & z) }
  function Add(x: Word, y: Word): Word { x + y }

  function K(): (k: seq<Word>)
    ensures |k| == 64
  {
    [0x428a2f98, 0x71374491, 0xb5c0fbcf, 0xe9b5dba5, 0x3956c25b, 0x59f111f1, 0x923f82a4, 0xab1c5ed5,
     0xd807aa98, 0x12835b01, 0x243185be, 0x550c7dc3, 0x72be5d74, 0x80deb1fe, 0x9bdc06a7, 0xc19bf174,
     0xe49b69c1, 0xefbe4786, 0x0fc19dc6, 0x240ca1cc, 0x2de92c6f, 0x4a7484aa, 0x5cb0a9dc, 0x76f988da,
     0x983e5152, 0xa831c66d, 0xb00327c8, 0xbf597fc7, 0xc6e00bf3, 0xd5a79147, 0x06ca6351, 0x14292967,
     0x27b70a85, 0x2e1b2138, 0x4d2c6dfc, 0x53380d13, 0x650a7354, 0x766a0abb, 0x81c2c92e, 0x92722c85,
     0xa2bfe8a1, 0xa81a664b, 0xc24b8b70, 0xc76c51a3, 0xd192e819, 0xd6990624, 0xf40e3585, 0x106aa070,
     0x19a4c116, 0x1e376c08, 0x2748774c, 0x34b0bcb5, 0x391c0cb3, 0x4ed8aa4a, 0x5b9cca4f, 0x682e6ff3,
     0x748f82ee, 0x78a5636f, 0x84c87814, 0x8cc70208, 0x90befffa, 0xa4506ceb, 0xbef9a3f7, 0xc67178f2]
  }

  function KAt(t: nat): Word {
    if t < 64 then K()[t] else 0
  }

  function ShaOps(): Ops<Word> {
    Ops(BigEndian, Add, KAt, SmallSigma0, SmallSigma1, BigSigma0, BigSigma1, Ch, Maj)
  }

  function ShaCompress(h: Eight<Word>, m: Block): Eight<Word> {
    Compress(ShaOps(), h, m)
  }

  lemma AddCommutes(x: Word, y: Word)
    ensures Add(x, y) == Add(y, x)
  {
  }

  lemma AddAssociates(x: Word, y: Word, z: Word)
    ensures Add(Add(x, y), z) == Add(x, Add(y, z))
  {
    assert Add(x, y) == x + y && Add(y, z) == y + z;
    assert (x + y) + z == x + (y + z);
  }

  lemma ShaAdds(o: Ops<Word>)
    requires o.add == Add
    ensures Commutes(o) && Associates(o)
  {
    forall x, y ensures CommutesAt(o, x, y) { AddCommutes(x, y); }
    forall x, y, z ensures AssociatesAt(o, x, y, z) { AddAssociates(x, y, z); }
  }

  function InitialHash(): Eight<Word> {
    Eight(0x6a09e667, 0xbb67ae85, 0x3c6ef372, 0xa54ff53a, 0x510e527f, 0x9b05688c, 0x1f83d9ab, 0x5be0cd19)
  }

  function WordBytes(w: Word): (s: seq<Byte>)
    ensures |s| == 4
  {
    [((w >> 24) & 0xFF) as Byte, ((w >> 16) & 0xFF) as Byte, ((w >> 8) & 0xFF) as Byte, (w & 0xFF) as Byte]
  }

  function HashBytes(h: Eight<Word>): (s: seq<Byte>)
    ensures |s| == 32
  {
    WordBytes(h.a) + WordBytes(h.b) + WordBytes(h.c) + WordBytes(h.d) + WordBytes(h.e) + WordBytes(h.f) + WordBytes(h.g)
      + WordBytes(h.h)
  }

  /** sha256. */
  method Sum(data: seq<Byte>) returns (out: seq<Byte>)
    requires 8 * |data| < TWO_64
    ensures |out| == 32 && out == HashBytes(Fold(ShaCompress, InitialHash(), Pad(data), |Pad(data)| / 64))
  {
    ShaAdds(ShaOps());
    var state := Digest(ShaOps(), ShaCompress, InitialHash(), data);
    out := HashBytes(state);
  }
}
