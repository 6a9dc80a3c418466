/** Places in sequences of distinct elements. */
module Lists {
  predicate Distinct<T(==)>(s: seq<T>) {
    forall i, j | 0 <= i < j < |s| :: s[i] != s[j]
  }

  function IndexOf<T(==)>(s: seq<T>, x: T): (i: nat)
    requires x in s
    ensures i < |s| && s[i] == x
  {
    LastIn(s, x, |s|)
  }

  function LastIn<T(==)>(s: seq<T>, x: T, k: nat): (i: nat)
    requires k <= |s| && exists j :: 0 <= j < k && s[j] == x
    ensures i < k && s[i] == x
  {
    if s[k - 1] == x then k - 1 else LastIn(s, x, k - 1)
  }

  lemma IndexUnique<T>(s: seq<T>, i: nat)
    requires Distinct(s) && i < |s|
    ensures IndexOf(s, s[i]) == i
  {
  }

  function Without<X>(s: seq<X>, k: nat): (r: seq<X>)
    requires k < |s|
    ensures |r| == |s| - 1 && forall i | 0 <= i < |r| :: r[i] == s[if i < k then i else i + 1]
  {
    seq(|s| - 1, i requires 0 <= i < |s| - 1 => s[if i < k then i else i + 1])
  }

  lemma WithoutKeeps<X>(s: seq<X>, k: nat, i: nat)
    requires k < |s| && i < |s| && i != k
    ensures s[i] in Without(s, k)
  {
    assert Without(s, k)[if i < k then i else i - 1] == s[i];
  }

  lemma WithoutIndex<T>(s: seq<T>, k: nat, x: T)
    requires Distinct(s) && k < |s| && x in s && s[k] != x
    ensures Distinct(Without(s, k)) && x in Without(s, k)
    ensures IndexOf(Without(s, k), x) == (if IndexOf(s, x) < k then IndexOf(s, x) else IndexOf(s, x) - 1)
  {
    var i := IndexOf(s, x);
    var j := if i < k then i else i - 1;
    assert Without(s, k)[j] == x;
    IndexUnique(Without(s, k), j);
  }

  /** The place `d` steps after `c` on a cyclic list of `n`. */
  function Pos(c: nat, d: nat, n: nat): (p: nat)
    requires c < n && d < n
    ensures p < n && (p == c <==> d == 0)
  {
    if c + d < n then c + d else c + d - n
  }

  function Dist(c: nat, p: nat, n: nat): (d: nat)
    requires c < n && p < n
    ensures d < n && Pos(c, d, n) == p
  {
    if c <= p then p - c else p + n - c
  }
}
