/** The ARP cache of net/arp.c, against the list of learned addresses in order of recency. */
module Arp {
  import opened MachineInts
  import opened Lists

  const CACHE: nat := 64

  type Mac = m: seq<u8> | |m| == 6 witness [0, 0, 0, 0, 0, 0]

  /** `x` to the front; the rest keep their order. */
  function Touch<T(==)>(r: seq<T>, x: T): (s: seq<T>)
    ensures |s| > 0 && s[0] == x
  {
    [x] + (if x in r then Without(r, IndexOf(r, x)) else r)
  }

  lemma TouchDistinct<T>(r: seq<T>, x: T)
    requires Distinct(r)
    ensures Distinct(Touch(r, x))
  {
    if x in r {
      var k := IndexOf(r, x);
      assert forall i | 0 <= i < |r| - 1 :: Without(r, k)[i] == r[if i < k then i else i + 1] != x;
    }
  }

  // What the history of learned addresses says

  /** Learned addresses, most recent first. */
  function Recent(h: seq<u32>): (r: seq<u32>)
    ensures Distinct(r)
  {
    if h == [] then []
    else
      TouchDistinct(Recent(h[..|h| - 1]), h[|h| - 1]);
      Touch(Recent(h[..|h| - 1]), h[|h| - 1])
  }

  /** The other addresses learned since `ip` was last learned. */
  function Since(h: seq<u32>, ip: u32): set<u32> {
    if h == [] || h[|h| - 1] == ip then {} else {h[|h| - 1]} + Since(h[..|h| - 1], ip)
  }

  predicate Within(r: seq<u32>, ip: u32, n: nat) {
    exists k | 0 <= k < |r| && k < n :: r[k] == ip
  }

  /** What stands before place `k`. */
  function Before<T(==)>(r: seq<T>, k: nat): (s: set<T>)
    requires k <= |r|
  {
    if k == 0 then {} else Before(r, k - 1) + {r[k - 1]}
  }

  lemma {:induction false} InBefore<T>(r: seq<T>, k: nat, i: nat)
    requires i < k <= |r|
    ensures r[i] in Before(r, k)
  {
    if i < k - 1 {
      InBefore(r, k - 1, i);
    }
  }

  lemma {:induction false} PlaceOf<T>(r: seq<T>, k: nat, x: T) returns (i: nat)
    requires k <= |r| && x in Before(r, k)
    ensures i < k && r[i] == x
  {
    if r[k - 1] == x {
      i := k - 1;
    } else {
      i := PlaceOf(r, k - 1, x);
    }
  }

  lemma {:induction false} BeforeCount<T>(r: seq<T>, k: nat)
    requires Distinct(r) && k <= |r|
    ensures |Before(r, k)| == k
  {
    if k > 0 {
      BeforeCount(r, k - 1);
      if r[k - 1] in Before(r, k - 1) {
        var i := PlaceOf(r, k - 1, r[k - 1]);
      }
    }
  }

  /** In the recency list an address stands behind exactly those learned since. */
  lemma {:induction false} PlaceIsSince(h: seq<u32>, ip: u32)
    requires ip in h
    ensures ip in Recent(h) && Before(Recent(h), IndexOf(Recent(h), ip)) == Since(h, ip)
  {
    var init, last := h[..|h| - 1], h[|h| - 1];
    var r0, r := Recent(init), Recent(h);
    if last == ip {
      IndexUnique(r, 0);
    } else {
      assert ip in init;
      PlaceIsSince(init, ip);
      TouchPlace(r0, last, ip);
    }
  }

  /** Where place `i` of `r` stands once `x` has moved to the front. */
  function Moved(r: seq<u32>, x: u32, i: nat): nat {
    if x in r && IndexOf(r, x) < i then i else i + 1
  }

  lemma MovedTo(r: seq<u32>, x: u32, i: nat)
    requires Distinct(r) && i < |r| && r[i] != x
    ensures Moved(r, x, i) < |Touch(r, x)| && Touch(r, x)[Moved(r, x, i)] == r[i]
  {
  }

  lemma MovedFrom(r: seq<u32>, x: u32, p: nat) returns (i: nat)
    requires Distinct(r) && 1 <= p < |Touch(r, x)|
    ensures i < |r| && r[i] != x && Moved(r, x, i) == p && Touch(r, x)[p] == r[i]
  {
    i := if x in r && IndexOf(r, x) < p then p else p - 1;
  }

  lemma TouchPlace(r: seq<u32>, x: u32, ip: u32)
    requires Distinct(r) && ip in r && ip != x
    ensures Distinct(Touch(r, x)) && ip in Touch(r, x)
    ensures Before(Touch(r, x), IndexOf(Touch(r, x), ip)) == {x} + Before(r, IndexOf(r, ip))
  {
    TouchDistinct(r, x);
    var s, k := Touch(r, x), IndexOf(r, ip);
    var p := Moved(r, x, k);
    MovedTo(r, x, k);
    IndexUnique(s, p);
    forall y | y in Before(s, p)
      ensures y in {x} + Before(r, k)
    {
      var q := PlaceOf(s, p, y);
      if q > 0 {
        var i := MovedFrom(r, x, q);
        InBefore(r, k, i);
      }
    }
    forall y | y in {x} + Before(r, k)
      ensures y in Before(s, p)
    {
      if y == x {
        InBefore(s, p, 0);
      } else {
        var i := PlaceOf(r, k, y);
        MovedTo(r, x, i);
        InBefore(s, p, Moved(r, x, i));
      }
    }
  }

  /** An address is among the first 64 of the recency list exactly when fewer than 64 others were learned since. */
  lemma PresentIff(h: seq<u32>, ip: u32)
    requires ip in h
    ensures Within(Recent(h), ip, CACHE) <==> |Since(h, ip)| < CACHE
  {
    PlaceIsSince(h, ip);
    var r := Recent(h);
    var k := IndexOf(r, ip);
    BeforeCount(r, k);
    if j :| 0 <= j < |r| && j < CACHE && r[j] == ip {
      IndexUnique(r, j);
    }
  }

  // Counting slots

  function Below(n: nat): (s: set<nat>)
    ensures |s| == n && forall x: nat :: x in s <==> x < n
  {
    if n == 0 then {} else Below(n - 1) + {n - 1}
  }

  lemma {:induction false} SubsetCount<T>(a: set<T>, b: set<T>)
    requires a <= b
    ensures |a| <= |b|
  {
    if x :| x in a {
      SubsetCount(a - {x}, b - {x});
    }
  }

  /** Distinct slots that miss one are fewer than 64. */
  lemma Missing(order: seq<nat>, i: nat)
    requires Distinct(order) && i < CACHE && i !in order && forall k | 0 <= k < |order| :: order[k] < CACHE
    ensures |order| < CACHE
  {
    BeforeCount(order, |order|);
    forall x | x in Before(order, |order|)
      ensures x in Below(CACHE) - {i}
    {
      var k := PlaceOf(order, |order|, x);
    }
    SubsetCount(Before(order, |order|), Below(CACHE) - {i});
  }

  /** Distinct slots that miss none are 64. */
  lemma Covers(order: seq<nat>)
    requires Distinct(order) && |order| <= CACHE && forall s: nat | s < CACHE :: s in order
    ensures |order| == CACHE
  {
    BeforeCount(order, |order|);
    forall x | x in Below(CACHE)
      ensures x in Before(order, |order|)
    {
      InBefore(order, |order|, IndexOf(order, x));
    }
    SubsetCount(Below(CACHE), Before(order, |order|));
  }

  // The cache

  datatype Entry = Entry(ip: u32, mac: Mac, valid: bool, age: u32)

  /** The place-`k` slot of `order` holds the place-`k` address with its last learned MAC. */
  predicate HoldsPlace(es: seq<Entry>, order: seq<nat>, recent: seq<u32>, macs: map<u32, Mac>, k: nat) {
    && k < |order| && k < |recent| && order[k] < |es| && recent[k] in macs
    && es[order[k]].valid && es[order[k]].ip == recent[k] && es[order[k]].mac == macs[recent[k]]
  }

  predicate Younger(es: seq<Entry>, order: seq<nat>, k: nat, l: nat) {
    k < |order| && l < |order| && order[k] < |es| && order[l] < |es| && es[order[l]].age < es[order[k]].age
  }

  /** `order` lists the valid slots from youngest to oldest, and they hold the most recent addresses in that order. */
  predicate Ordered(es: seq<Entry>, order: seq<nat>, recent: seq<u32>, macs: map<u32, Mac>, counter: u32) {
    && |es| == CACHE && Distinct(order) && Distinct(recent) && |order| == Min(CACHE, |recent|)
    && (forall k: nat | k < |order| :: HoldsPlace(es, order, recent, macs, k))
    && (forall k: nat, l: nat | k < l < |order| :: Younger(es, order, k, l))
    && (forall s | 0 <= s < CACHE :: es[s].valid <==> s in order)
    && (forall s | 0 <= s < CACHE :: es[s].age <= counter)
  }

  /** The slot that arp_cache_set writes: the address's own, else a free one, else the oldest. */
  predicate Chosen(es: seq<Entry>, order: seq<nat>, recent: seq<u32>, ip: u32, s: nat) {
    && s < |es|
    && ((exists k | 0 <= k < |order| && k < |recent| :: order[k] == s && recent[k] == ip)
        || (|order| < CACHE && s !in order && ip !in recent)
        || (|order| == CACHE && order[CACHE - 1] == s && !Within(recent, ip, CACHE)))
  }

  /** Where place `j` after a learning comes from. */
  function CameFrom(order: seq<nat>, s: nat, j: nat): nat
    requires j >= 1
  {
    if s in order && IndexOf(order, s) < j then j else j - 1
  }

  lemma OrderBack(order: seq<nat>, s: nat, j: nat)
    requires Distinct(order) && 1 <= j < |Touch(order, s)|
    ensures CameFrom(order, s, j) < |order| && Touch(order, s)[j] == order[CameFrom(order, s, j)] != s
  {
  }

  lemma RecentBack(es: seq<Entry>, order: seq<nat>, recent: seq<u32>, macs: map<u32, Mac>, counter: u32, ip: u32,
    s: nat, j: nat)
    requires Ordered(es, order, recent, macs, counter) && Chosen(es, order, recent, ip, s) && 1 <= j < |Touch(order, s)|
    ensures j < |Touch(recent, ip)| && CameFrom(order, s, j) < |recent|
    ensures Touch(recent, ip)[j] == recent[CameFrom(order, s, j)] != ip
  {
    if k :| 0 <= k < |order| && k < |recent| && order[k] == s && recent[k] == ip {
      IndexUnique(order, k);
      IndexUnique(recent, k);
    } else if |order| == CACHE && s in order {
      IndexUnique(order, CACHE - 1);
      assert ip in recent ==> IndexOf(recent, ip) >= CACHE;
    }
  }

  lemma TouchLength(es: seq<Entry>, order: seq<nat>, recent: seq<u32>, macs: map<u32, Mac>, counter: u32, ip: u32,
    s: nat)
    requires Ordered(es, order, recent, macs, counter) && Chosen(es, order, recent, ip, s)
    ensures |Touch(order, s)| == Min(CACHE, |Touch(recent, ip)|)
  {
    if k :| 0 <= k < |order| && k < |recent| && order[k] == s && recent[k] == ip {
    } else if |order| == CACHE && s in order {
      assert ip in recent ==> IndexOf(recent, ip) >= CACHE;
    }
  }

  lemma SameMembers(order: seq<nat>, s: nat, q: nat)
    requires Distinct(order)
    ensures q in Touch(order, s) <==> q == s || q in order
  {
    if q in Touch(order, s) && q != s {
      var j :| 0 <= j < |Touch(order, s)| && Touch(order, s)[j] == q;
      OrderBack(order, s, j);
    }
    if q in order && q != s && s in order {
      WithoutKeeps(order, IndexOf(order, s), IndexOf(order, q));
    }
  }

  lemma LearnHolds(es: seq<Entry>, order: seq<nat>, recent: seq<u32>, macs: map<u32, Mac>, counter: u32, ip: u32,
    e: Entry, s: nat, k: nat)
    requires Ordered(es, order, recent, macs, counter) && Chosen(es, order, recent, ip, s) && e.ip == ip && e.valid
    requires k < |Touch(order, s)|
    ensures HoldsPlace(es[s := e], Touch(order, s), Touch(recent, ip), macs[ip := e.mac], k)
  {
    if k > 0 {
      OrderBack(order, s, k);
      RecentBack(es, order, recent, macs, counter, ip, s, k);
      assert HoldsPlace(es, order, recent, macs, CameFrom(order, s, k));
    }
  }

  lemma LearnYounger(es: seq<Entry>, order: seq<nat>, recent: seq<u32>, macs: map<u32, Mac>, counter: u32, ip: u32,
    e: Entry, s: nat, k: nat, l: nat)
    requires Ordered(es, order, recent, macs, counter) && s < |es| && e.age == counter + 1 && k < l < |Touch(order, s)|
    ensures Younger(es[s := e], Touch(order, s), k, l)
  {
    OrderBack(order, s, l);
    assert HoldsPlace(es, order, recent, macs, CameFrom(order, s, l));
    if k > 0 {
      OrderBack(order, s, k);
      assert Younger(es, order, CameFrom(order, s, k), CameFrom(order, s, l));
    }
  }

  /** arp_cache_set: the written slot goes to the front, as its address does in the recency list. */
  lemma LearnKeeps(es: seq<Entry>, order: seq<nat>, recent: seq<u32>, macs: map<u32, Mac>, counter: u32, ip: u32,
    e: Entry, s: nat)
    requires Ordered(es, order, recent, macs, counter) && Chosen(es, order, recent, ip, s) && counter + 1 < TWO_32
    requires e.ip == ip && e.valid && e.age == counter + 1
    ensures Ordered(es[s := e], Touch(order, s), Touch(recent, ip), macs[ip := e.mac], counter + 1)
  {
    var es', order', recent', macs' := es[s := e], Touch(order, s), Touch(recent, ip), macs[ip := e.mac];
    TouchDistinct(order, s);
    TouchDistinct(recent, ip);
    TouchLength(es, order, recent, macs, counter, ip, s);
    forall k: nat | k < |order'|
      ensures HoldsPlace(es', order', recent', macs', k)
    {
      LearnHolds(es, order, recent, macs, counter, ip, e, s, k);
    }
    forall k: nat, l: nat | k < l < |order'|
      ensures Younger(es', order', k, l)
    {
      LearnYounger(es, order, recent, macs, counter, ip, e, s, k, l);
    }
    forall q | 0 <= q < CACHE
      ensures es'[q].valid <==> q in order'
    {
      SameMembers(order, s, q);
    }
  }

  lemma RecentNext(h: seq<u32>, ip: u32)
    ensures Recent(h + [ip]) == Touch(Recent(h), ip)
  {
    assert (h + [ip])[..|h|] == h;
  }

  class ArpCache {
    const entries: array<Entry>
    var counter: u32
    ghost var history: seq<u32>
    ghost var macs: map<u32, Mac>
    ghost var order: seq<nat>

    ghost predicate Valid()
      reads this, entries
    {
      Ordered(entries[..], order, Recent(history), macs, counter)
    }

    /** arp_init on a zeroed cache. */
    constructor ()
      ensures Valid() && history == [] && counter == 0 && fresh(entries)
    {
      entries := new Entry[CACHE](_ => Entry(0, [0, 0, 0, 0, 0, 0], false, 0));
      counter, history, macs, order := 0, [], map[], [];
    }

    /** The scan for a valid entry of an address. */
    method Find(ip: u32) returns (r: Option<nat>)
      requires Valid()
      ensures r.Some? <==> Within(Recent(history), ip, CACHE)
      ensures r.Some? ==> exists k | 0 <= k < |order| :: order[k] == r.value && Recent(history)[k] == ip
    {
      ghost var recent := Recent(history);
      for i := 0 to CACHE
        invariant forall k | 0 <= k < |order| :: order[k] < i ==> recent[k] != ip
      {
        if entries[i].valid && entries[i].ip == ip {
          ghost var k := IndexOf(order, i);
          assert HoldsPlace(entries[..], order, recent, macs, k);
          return Some(i);
        }
        forall k | 0 <= k < |order| && order[k] == i
          ensures recent[k] != ip
        {
          assert HoldsPlace(entries[..], order, recent, macs, k);
        }
      }
      SlotsInRange();
      r := None;
    }

    /** arp_cache_lookup: the MAC learned last for an address, present exactly while fewer than 64 others were learned
        since. */
    method Lookup(ip: u32) returns (r: Option<Mac>)
      requires Valid()
      ensures r.Some? <==> ip in history && |Since(history, ip)| < CACHE
      ensures r.Some? ==> ip in macs && r.value == macs[ip]
    {
      var i := Find(ip);
      if ip in history {
        PresentIff(history, ip);
      } else {
        OnlyLearned(history, ip);
      }
      if i.None? {
        return None;
      }
      ghost var k :| 0 <= k < |order| && order[k] == i.value && Recent(history)[k] == ip;
      assert HoldsPlace(entries[..], order, Recent(history), macs, k);
      r := Some(entries[i.value].mac);
    }

    lemma SlotsInRange()
      requires Valid()
      ensures forall k | 0 <= k < |order| :: order[k] < CACHE
    {
      forall k: nat | k < |order|
        ensures order[k] < CACHE
      {
        assert HoldsPlace(entries[..], order, Recent(history), macs, k);
      }
    }

    /** The first slot in no use. */
    method FindEmpty() returns (r: Option<nat>)
      requires Valid()
      ensures r.Some? ==> r.value < CACHE && r.value !in order && |order| < CACHE
      ensures r.None? ==> |order| == CACHE
    {
      for i := 0 to CACHE
        invariant forall j | 0 <= j < i :: entries[j].valid
      {
        if !entries[i].valid {
          SlotsInRange();
          Missing(order, i);
          return Some(i);
        }
      }
      Covers(order);
      r := None;
    }

    /** The slot of the smallest age; all slots are in use. */
    method FindOldest() returns (r: nat)
      requires Valid() && |order| == CACHE && counter < TWO_32 - 1
      ensures r == order[CACHE - 1]
    {
      var oldest: u32 := 0xFFFF_FFFF;
      r := 0;
      for i := 0 to CACHE
        invariant r < CACHE
        invariant forall j | 0 <= j < i :: oldest <= entries[j].age
        invariant i == 0 ==> oldest == 0xFFFF_FFFF
        invariant i > 0 ==> entries[r].age == oldest
      {
        if entries[i].age < oldest {
          oldest, r := entries[i].age, i;
        }
      }
      ghost var last := order[CACHE - 1];
      assert HoldsPlace(entries[..], order, Recent(history), macs, CACHE - 1);
      SlotsInRange();
      if r !in order {
        Missing(order, r);
      }
      ghost var k := IndexOf(order, r);
      assert k == CACHE - 1 || Younger(entries[..], order, k, CACHE - 1);
    }

    /** The slot for an address: its own, else an unused one, else the oldest. */
    method Choose(ip: u32) returns (s: nat)
      requires Valid() && counter < TWO_32 - 1
      ensures Chosen(entries[..], order, Recent(history), ip, s)
    {
      ghost var recent := Recent(history);
      var found := Find(ip);
      if found.Some? {
        s := found.value;
        assert HoldsPlace(entries[..], order, recent, macs, IndexOf(order, s));
      } else {
        var empty := FindEmpty();
        if empty.Some? {
          s := empty.value;
        } else {
          s := FindOldest();
          assert HoldsPlace(entries[..], order, recent, macs, CACHE - 1);
        }
      }
    }

    /** arp_cache_set, before the age counter wraps. */
    method Set(ip: u32, mac: Mac)
      requires Valid() && counter < TWO_32 - 1
      modifies this, entries
      ensures Valid() && counter == old(counter) + 1
      ensures history == old(history) + [ip] && macs == old(macs)[ip := mac]
    {
      var s := Choose(ip);
      var e := Entry(ip, mac, true, counter + 1);
      LearnKeeps(entries[..], order, Recent(history), macs, counter, ip, e, s);
      RecentNext(history, ip);
      ghost var es := entries[..];
      entries[s] := e;
      assert entries[..] == es[s := e];
      counter := counter + 1;
      order, history, macs := Touch(order, s), history + [ip], macs[ip := mac];
    }
  }

  lemma {:induction false} OnlyLearned(h: seq<u32>, ip: u32)
    requires ip !in h
    ensures ip !in Recent(h)
  {
    if h != [] {
      var init, last := h[..|h| - 1], h[|h| - 1];
      OnlyLearned(init, ip);
      assert forall i | 0 <= i < |Touch(Recent(init), last)| :: Touch(Recent(init), last)[i] != ip;
    }
  }
}
