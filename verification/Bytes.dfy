/** Byte strings: little-endian fields and overwriting a stretch of a buffer. */
module Bytes {
  import opened MachineInts

  function Pow256(k: nat): (p: nat)
    ensures p > 0
  {
    if k == 0 then 1 else 256 * Pow256(k - 1)
  }

  /** The low `k` bytes of `n`, least significant first. */
  function Le(n: nat, k: nat): (s: seq<u8>)
    ensures |s| == k
  {
    if k == 0 then [] else [n % 256] + Le(n / 256, k - 1)
  }

  function FromLe(s: seq<u8>): (n: nat)
    ensures n < Pow256(|s|)
  {
    if s == [] then 0
    else
      assert 256 * FromLe(s[1..]) <= 256 * (Pow256(|s| - 1) - 1);
      s[0] + 256 * FromLe(s[1..])
  }

  lemma {:induction false} LeRoundTrip(n: nat, k: nat)
    requires n < Pow256(k)
    ensures FromLe(Le(n, k)) == n
  {
    if k > 0 {
      LeRoundTrip(n / 256, k - 1);
      assert Le(n, k)[1..] == Le(n / 256, k - 1);
    }
  }

  /** The `n` bytes of `m` at `off`. */
  function Sub<T>(m: seq<T>, off: nat, n: nat): (s: seq<T>)
    requires off + n <= |m|
    ensures |s| == n
  {
    seq(n, i requires 0 <= i < n => m[off + i])
  }

  /** The `k`-byte little-endian number stored at `off`. */
  function LeAt(m: seq<u8>, off: nat, k: nat): (n: nat)
    requires off + k <= |m|
    ensures n < Pow256(k)
  {
    FromLe(Sub(m, off, k))
  }

  lemma LeAtSame(m: seq<u8>, m': seq<u8>, off: nat, k: nat)
    requires off + k <= |m| && off + k <= |m'|
    requires forall i | off <= i < off + k :: m'[i] == m[i]
    ensures LeAt(m', off, k) == LeAt(m, off, k)
  {
    assert Sub(m', off, k) == Sub(m, off, k);
  }

  /** A field holding the bytes of `n` reads back as `n`. */
  lemma LeAtStored(m: seq<u8>, off: nat, n: nat, k: nat)
    requires off + k <= |m| && n < Pow256(k)
    requires forall i | 0 <= i < k :: m[off + i] == Le(n, k)[i]
    ensures LeAt(m, off, k) == n
  {
    assert Sub(m, off, k) == Le(n, k);
    LeRoundTrip(n, k);
  }

  lemma PowersOf256()
    ensures Pow256(1) == 0x100 && Pow256(2) == TWO_16 && Pow256(4) == TWO_32 && Pow256(8) == TWO_64
  {
    assert Pow256(1) == 256 * Pow256(0);
    assert Pow256(2) == 256 * Pow256(1);
    assert Pow256(3) == 256 * Pow256(2);
    assert Pow256(4) == 256 * Pow256(3);
    assert Pow256(5) == 256 * Pow256(4);
    assert Pow256(6) == 256 * Pow256(5);
    assert Pow256(7) == 256 * Pow256(6);
    assert Pow256(8) == 256 * Pow256(7);
  }

  /** `m` with the bytes `b` written at offset `off`. */
  function Splice<T>(m: seq<T>, off: nat, b: seq<T>): (r: seq<T>)
    requires off + |b| <= |m|
    ensures |r| == |m|
    ensures forall i {:trigger r[i]} | 0 <= i < |m| :: r[i] == if off <= i < off + |b| then b[i - off] else m[i]
  {
    seq(|m|, i requires 0 <= i < |m| => if off <= i < off + |b| then b[i - off] else m[i])
  }

  function Zeros(n: nat): (z: seq<u8>)
    ensures |z| == n && forall i | 0 <= i < n :: z[i] == 0
  {
    seq(n, _ => 0)
  }
}
