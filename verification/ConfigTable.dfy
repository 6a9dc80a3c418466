/** The linear-probing table of fs/configfs.c on values, and the map it stands for. */
module ConfigTable {
  import opened MachineInts
  import Lists

  const SLOTS: nat := 512
  const KEY_MAX: nat := 64
  const VALUE_MAX: nat := 256

  /** A C string without its terminator. */
  type Text = seq<bv8>

  /** hash_key over the first `n` characters. */
  function HashTo(key: Text, n: nat): bv32
    requires n <= |key|
  {
    if n == 0 then 5381
    else
      var h := HashTo(key, n - 1);
      ((h << 5) + h) ^ (key[n - 1] as bv32)
  }

  function Hash(key: Text): bv32 {
    HashTo(key, |key|)
  }

  /** Where probing for `key` starts. */
  function Start(key: Text): (s: nat)
    ensures s < SLOTS
  {
    Hash(key) as nat % SLOTS
  }

  function Cut(s: Text, max: nat): (r: Text)
    requires max >= 1
    ensures r <= s && |r| < max && (|s| < max ==> r == s)
  {
    if |s| < max then s else s[..max - 1]
  }

  datatype Slot = Free | Used(key: Text, value: Text, hash: bv32)

  type Table = t: seq<Slot> | |t| == SLOTS witness seq(SLOTS, _ => Free)

  function Pos(s: nat, d: nat): (p: nat)
    requires s < SLOTS && d < SLOTS
    ensures p < SLOTS
  {
    Lists.Pos(s, d, SLOTS)
  }

  lemma PosIsMod(s: nat, d: nat)
    requires s < SLOTS && d < SLOTS
    ensures (s + d) % SLOTS == Pos(s, d)
  {
  }

  function Dist(s: nat, p: nat): (d: nat)
    requires s < SLOTS && p < SLOTS
    ensures d < SLOTS && Pos(s, d) == p
  {
    Lists.Dist(s, p, SLOTS)
  }

  /** The entry the probe loops look for. */
  predicate Hit(e: Slot, key: Text) {
    e.Used? && e.hash == Hash(key) && e.key == key
  }

  datatype Probe = Found(at: nat) | Missing(free: nat) | Full

  /** The probe loop from step `i` on. */
  function Search(t: Table, key: Text, i: nat): (r: Probe)
    requires i <= SLOTS
    ensures r.Found? ==> r.at < SLOTS && Hit(t[r.at], key)
    ensures r.Missing? ==> r.free < SLOTS && t[r.free] == Free
    decreases SLOTS - i
  {
    if i == SLOTS then Full
    else
      var p := Pos(Start(key), i);
      if t[p] == Free then Missing(p)
      else if Hit(t[p], key) then Found(p)
      else Search(t, key, i + 1)
  }

  // The invariant

  /** A slot that some key can hit.  A key of 64 or more characters is stored cut but hashed whole: its slot is not live
      unless the two hashes collide. */
  predicate Live(e: Slot) {
    e.Used? && e.hash == Hash(e.key)
  }

  /** Step `e` of the probe for the key in slot `j` passes over a slot of another key. */
  predicate Passes(t: Table, j: nat, e: nat)
    requires j < SLOTS && Live(t[j]) && e < SLOTS
  {
    var p := Pos(Start(t[j].key), e);
    t[p].Used? && !Hit(t[p], t[j].key)
  }

  /** Probing for its key reaches slot `j`. */
  predicate Reached(t: Table, j: nat)
    requires j < SLOTS && Live(t[j])
  {
    forall e | 0 <= e < Dist(Start(t[j].key), j) :: Passes(t, j, e)
  }

  predicate Inv(t: Table) {
    && (forall j | 0 <= j < SLOTS && t[j].Used? :: |t[j].key| < KEY_MAX)
    && (forall j | 0 <= j < SLOTS && Live(t[j]) :: Reached(t, j))
  }

  /** What probing gives for the key in slot `j`. */
  lemma {:induction false} SearchReaches(t: Table, j: nat, i: nat)
    requires j < SLOTS && Live(t[j]) && Reached(t, j) && i <= Dist(Start(t[j].key), j)
    ensures Search(t, t[j].key, i) == Found(j)
    decreases SLOTS - i
  {
    if i < Dist(Start(t[j].key), j) {
      assert Passes(t, j, i);
      SearchReaches(t, j, i + 1);
    }
  }

  /** A key is live in at most one slot. */
  lemma OneSlotEach(t: Table, i: nat, j: nat)
    requires Inv(t) && i < SLOTS && j < SLOTS && Live(t[i]) && Live(t[j]) && t[i].key == t[j].key
    ensures i == j
  {
    SearchReaches(t, i, 0);
    SearchReaches(t, j, 0);
  }

  /** The table stands for the map `m`. */
  predicate Stands(t: Table, m: map<Text, Text>) {
    && (forall j | 0 <= j < SLOTS && Live(t[j]) :: t[j].key in m && m[t[j].key] == t[j].value)
    && (forall k | k in m :: exists j | 0 <= j < SLOTS :: Hit(t[j], k))
  }

  /** Probing finds exactly the keys of the map. */
  lemma SearchAgrees(t: Table, m: map<Text, Text>, key: Text)
    requires Inv(t) && Stands(t, m)
    ensures Search(t, key, 0).Found? <==> key in m
    ensures key in m ==> t[Search(t, key, 0).at].value == m[key]
  {
    if key in m {
      var j :| 0 <= j < SLOTS && Hit(t[j], key);
      SearchReaches(t, j, 0);
    }
  }

  /** A key of 64 or more characters is never found. */
  lemma LongKeyNeverFound(t: Table, key: Text)
    requires Inv(t) && |key| >= KEY_MAX
    ensures !Search(t, key, 0).Found?
  {
  }

  /** What a probe has passed over before it stops. */
  lemma {:induction false} SearchPassed(t: Table, key: Text, i: nat, e: nat)
    requires i <= e < SLOTS
    requires match Search(t, key, i) case Full => true case Missing(p) => e < Dist(Start(key), p) case Found(p) => false
    requires Search(t, key, i).Missing? ==> i <= Dist(Start(key), Search(t, key, i).free)
    ensures t[Pos(Start(key), e)].Used? && !Hit(t[Pos(Start(key), e)], key)
    decreases SLOTS - i
  {
    if i < e {
      SearchPassed(t, key, i + 1, e);
    }
  }

  // Set

  /** configfs_set; None when the table is full. */
  function Set(t: Table, key: Text, value: Text): (r: Option<Table>) {
    match Search(t, key, 0)
    case Found(p) => Some(t[p := t[p].(value := Cut(value, VALUE_MAX))])
    case Missing(p) => Some(t[p := Used(Cut(key, KEY_MAX), Cut(value, VALUE_MAX), Hash(key))])
    case Full => None
  }

  /** A change of a slot that no probe relies on being used or being another key's keeps every live slot reached. */
  lemma ReachedKept(t: Table, p: nat, e: Slot, j: nat)
    requires p < SLOTS && j < SLOTS && j != p && Live(t[j]) && Reached(t, j)
    requires e.Used? && (t[p] == Free || (t[p].Used? && e.key == t[p].key && e.hash == t[p].hash))
    ensures Reached(t[p := e], j)
  {
    var t' := t[p := e];
    forall d | 0 <= d < Dist(Start(t[j].key), j)
      ensures Passes(t', j, d)
    {
      assert Passes(t, j, d);
    }
  }

  /** Set fails exactly when all 512 slots are used and none holds the key. */
  lemma SetFails(t: Table, m: map<Text, Text>, key: Text, value: Text)
    requires Inv(t) && Stands(t, m)
    ensures Set(t, key, value).None? <==> key !in m && forall p | 0 <= p < SLOTS :: t[p].Used?
  {
    SearchAgrees(t, m, key);
    if Search(t, key, 0).Full? {
      forall p | 0 <= p < SLOTS
        ensures t[p].Used?
      {
        SearchPassed(t, key, 0, Dist(Start(key), p));
      }
    }
  }

  /** Set on a short key stores it. */
  lemma SetShort(t: Table, m: map<Text, Text>, key: Text, value: Text)
    requires Inv(t) && Stands(t, m) && |key| < KEY_MAX && Set(t, key, value).Some?
    ensures Inv(Set(t, key, value).value) && Stands(Set(t, key, value).value, m[key := Cut(value, VALUE_MAX)])
  {
    var r := Search(t, key, 0);
    var p := if r.Found? then r.at else r.free;
    var e := Used(key, Cut(value, VALUE_MAX), Hash(key));
    var t': Table := t[p := e];
    assert Set(t, key, value) == Some(t');
    forall j | 0 <= j < SLOTS && Live(t'[j])
      ensures Reached(t', j)
    {
      if j != p {
        ReachedKept(t, p, e, j);
      } else {
        NewReached(t, key, p, e);
      }
    }
    StandsWith(t, m, key, p, e);
  }

  lemma NewReached(t: Table, key: Text, p: nat, e: Slot)
    requires Inv(t) && p < SLOTS && Live(e) && e.key == key && Hit(e, key)
    requires Search(t, key, 0) == Found(p) || Search(t, key, 0) == Missing(p)
    ensures Reached(t[p := e], p)
  {
    var t': Table := t[p := e];
    forall d | 0 <= d < Dist(Start(key), p)
      ensures Passes(t', p, d)
    {
      if Search(t, key, 0) == Found(p) {
        assert Reached(t, p) && Passes(t, p, d);
      } else {
        SearchPassed(t, key, 0, d);
      }
    }
  }

  lemma StandsWith(t: Table, m: map<Text, Text>, key: Text, p: nat, e: Slot)
    requires Inv(t) && Stands(t, m) && p < SLOTS && Live(e) && e.key == key
    requires Search(t, key, 0) == Found(p) || Search(t, key, 0) == Missing(p)
    ensures Stands(t[p := e], m[key := e.value])
  {
    var t', m' := t[p := e], m[key := e.value];
    forall j | 0 <= j < SLOTS && Live(t'[j])
      ensures t'[j].key in m' && m'[t'[j].key] == t'[j].value
    {
      if j != p && t[j].key == key {
        SearchReaches(t, j, 0);
      }
    }
    forall k | k in m'
      ensures exists j | 0 <= j < SLOTS :: Hit(t'[j], k)
    {
      if k == key {
        assert Hit(t'[p], k);
      } else {
        var j :| 0 <= j < SLOTS && Hit(t[j], k);
        assert Hit(t'[j], k);
      }
    }
  }

  /** Set on a key of 64 or more characters uses up a slot and changes no lookup, unless the hash of the whole key is
      that of its first 63 characters. */
  lemma SetLong(t: Table, m: map<Text, Text>, key: Text, value: Text)
    requires Inv(t) && Stands(t, m) && |key| >= KEY_MAX && Hash(key) != Hash(Cut(key, KEY_MAX))
      && Set(t, key, value).Some?
    ensures Inv(Set(t, key, value).value) && Stands(Set(t, key, value).value, m)
  {
    LongKeyNeverFound(t, key);
    var p := Search(t, key, 0).free;
    var e := Used(Cut(key, KEY_MAX), Cut(value, VALUE_MAX), Hash(key));
    var t': Table := t[p := e];
    assert Set(t, key, value) == Some(t') && !Live(e);
    forall j | 0 <= j < SLOTS && Live(t'[j])
      ensures Reached(t', j)
    {
      ReachedKept(t, p, e, j);
    }
    forall k | k in m
      ensures exists j | 0 <= j < SLOTS :: Hit(t'[j], k)
    {
      var j :| 0 <= j < SLOTS && Hit(t[j], k);
      assert Hit(t'[j], k);
    }
  }

  /** Two keys that no slot holds, of one hash, probe alike. */
  lemma {:induction false} SearchSame(t: Table, a: Text, b: Text, i: nat)
    requires Hash(a) == Hash(b) && i <= SLOTS
    requires forall p | 0 <= p < SLOTS :: !Hit(t[p], a) && !Hit(t[p], b)
    ensures Search(t, a, i) == Search(t, b, i)
    decreases SLOTS - i
  {
    if i < SLOTS {
      SearchSame(t, a, b, i + 1);
    }
  }

  /** Set on a longer key that hashes like its cut form: while the cut key is not in the map, it is the cut key that is
      set. */
  lemma SetCollidingNew(t: Table, m: map<Text, Text>, key: Text, value: Text)
    requires Inv(t) && Stands(t, m) && |key| >= KEY_MAX && Hash(key) == Hash(Cut(key, KEY_MAX))
    requires Cut(key, KEY_MAX) !in m
    ensures Set(t, key, value) == Set(t, Cut(key, KEY_MAX), value)
  {
    SearchAgrees(t, m, Cut(key, KEY_MAX));
    SearchSame(t, key, Cut(key, KEY_MAX), 0);
  }

  /** When the cut key is in the map, no lookup changes, so the new value is never read; but the key then stands in two
      slots. */
  lemma SetCollidingKnown(t: Table, m: map<Text, Text>, key: Text, value: Text)
    requires Inv(t) && Stands(t, m) && |key| >= KEY_MAX && Hash(key) == Hash(Cut(key, KEY_MAX))
    requires Cut(key, KEY_MAX) in m && Set(t, key, value).Some?
    ensures LooksUp(Set(t, key, value).value, m) && !Inv(Set(t, key, value).value)
  {
    LongKeyNeverFound(t, key);
    var c, p := Cut(key, KEY_MAX), Search(t, key, 0).free;
    var e := Used(c, Cut(value, VALUE_MAX), Hash(key));
    var t': Table := t[p := e];
    assert Set(t, key, value) == Some(t');
    forall k: Text
      ensures (Search(t', k, 0).Found? <==> k in m) && (k in m ==> t'[Search(t', k, 0).at].value == m[k])
    {
      if k in m {
        var j :| 0 <= j < SLOTS && Hit(t[j], k);
        ReachedKept(t, p, e, j);
        SearchReaches(t', j, 0);
      }
    }
    var j :| 0 <= j < SLOTS && Hit(t[j], c);
    if Inv(t') {
      OneSlotEach(t', j, p);
    }
  }

  // Delete

  /** configfs_delete; None when the key is not found. */
  function Delete(t: Table, key: Text): (r: Option<Table>) {
    match Search(t, key, 0)
    case Found(p) => Some(t[p := Free])
    case _ => None
  }

  /** The probe for the key in slot `j` passes over slot `p`. */
  predicate Crosses(t: Table, p: nat, j: nat)
    requires p < SLOTS && j < SLOTS
  {
    j != p && Live(t[j]) && Dist(Start(t[j].key), p) < Dist(Start(t[j].key), j)
  }

  /** Lookups in `t` agree with `m`. */
  ghost predicate LooksUp(t: Table, m: map<Text, Text>) {
    forall k: Text :: (Search(t, k, 0).Found? <==> k in m) && (k in m ==> t[Search(t, k, 0).at].value == m[k])
  }

  lemma StandsWithout(t: Table, m: map<Text, Text>, key: Text, p: nat)
    requires Inv(t) && Stands(t, m) && Search(t, key, 0) == Found(p)
    ensures Stands(t[p := Free], m - {key})
  {
    var t', m' := t[p := Free], m - {key};
    forall j | 0 <= j < SLOTS && Live(t'[j])
      ensures t'[j].key in m' && m'[t'[j].key] == t'[j].value
    {
      if t[j].key == key {
        SearchReaches(t, j, 0);
      }
    }
    forall k | k in m'
      ensures exists j | 0 <= j < SLOTS :: Hit(t'[j], k)
    {
      var j :| 0 <= j < SLOTS && Hit(t[j], k);
      assert Hit(t'[j], k);
    }
  }

  lemma DeleteKeepsInv(t: Table, key: Text, p: nat)
    requires Inv(t) && Search(t, key, 0) == Found(p) && forall j | 0 <= j < SLOTS :: !Crosses(t, p, j)
    ensures Inv(t[p := Free])
  {
    var t': Table := t[p := Free];
    forall j | 0 <= j < SLOTS && Live(t'[j])
      ensures Reached(t', j)
    {
      forall d | 0 <= d < Dist(Start(t[j].key), j)
        ensures Passes(t', j, d)
      {
        assert Passes(t, j, d) && !Crosses(t, p, j);
      }
    }
  }

  /** A probe that meets a freed slot on its way stops there. */
  lemma {:induction false} SearchStops(t: Table, key: Text, i: nat, e: nat)
    requires i <= e < SLOTS && t[Pos(Start(key), e)] == Free
    requires forall d | i <= d < e :: !Hit(t[Pos(Start(key), d)], key)
    ensures Search(t, key, i).Missing?
    decreases SLOTS - i
  {
    if i < e {
      SearchStops(t, key, i + 1, e);
    }
  }

  /** A key whose probe passes over the deleted slot is lost. */
  lemma CrossingLosesKey(t: Table, key: Text, p: nat, j: nat)
    requires Inv(t) && Search(t, key, 0) == Found(p) && j < SLOTS && Crosses(t, p, j)
    ensures !Search(t[p := Free], t[j].key, 0).Found? && t[j].key != key
  {
    var t': Table, k := t[p := Free], t[j].key;
    var e := Dist(Start(k), p);
    forall d | 0 <= d < e
      ensures !Hit(t'[Pos(Start(k), d)], k)
    {
      assert Passes(t, j, d);
    }
    SearchStops(t', k, 0, e);
    if k == key {
      OneSlotEach(t, p, j);
    }
  }

  /** Delete keeps the agreement with the map exactly when no other key's probe passes over the freed slot. */
  lemma DeleteAgreesIff(t: Table, m: map<Text, Text>, key: Text)
    requires Inv(t) && Stands(t, m) && key in m
    ensures Search(t, key, 0).Found? && Delete(t, key).Some?
    ensures LooksUp(Delete(t, key).value, m - {key}) <==> forall j | 0 <= j < SLOTS ::
      !Crosses(t, Search(t, key, 0).at, j)
  {
    SearchAgrees(t, m, key);
    var p := Search(t, key, 0).at;
    var t': Table := t[p := Free];
    StandsWithout(t, m, key, p);
    if j :| 0 <= j < SLOTS && Crosses(t, p, j) {
      CrossingLosesKey(t, key, p, j);
      assert t[j].key in m - {key};
    } else {
      DeleteKeepsInv(t, key, p);
      forall k: Text
        ensures (Search(t', k, 0).Found? <==> k in m - {key})
          && (k in m - {key} ==> t'[Search(t', k, 0).at].value == (m - {key})[k])
      {
        SearchAgrees(t', m - {key}, k);
      }
    }
  }

  /** In particular when the cyclically next slot is empty. */
  lemma NextFreeIsSafe(t: Table, p: nat, j: nat)
    requires Inv(t) && p < SLOTS && j < SLOTS && t[Pos(p, 1)] == Free
    ensures !Crosses(t, p, j)
  {
    if Live(t[j]) {
      var s := Start(t[j].key);
      var e := Dist(s, p) + 1;
      assert e < SLOTS ==> Pos(s, e) == Pos(p, 1);
      assert e < Dist(s, j) ==> Passes(t, j, e);
    }
  }

  function EmptyTable(): Table {
    seq(SLOTS, _ => Free)
  }

  /** Two keys that start probing in the same slot: deleting the first loses the second. */
  lemma DeleteLosesKey(a: Text, b: Text, v: Text)
    requires a != b && |a| < KEY_MAX && |b| < KEY_MAX && Start(a) == Start(b)
    ensures var t1 := Set(EmptyTable(), a, v);
      t1.Some? && var t2 := Set(t1.value, b, v);
      t2.Some? && Search(t2.value, b, 0).Found? && var t3 := Delete(t2.value, a);
      t3.Some? && !Search(t3.value, b, 0).Found?
  {
    var t1 := Set(EmptyTable(), a, v).value;
    assert Search(t1, b, 0) == Search(t1, b, 1) == Missing(Pos(Start(b), 1));
    var t2 := Set(t1, b, v).value;
    assert Search(t2, b, 0) == Search(t2, b, 1) == Found(Pos(Start(b), 1));
  }

  /** Such keys exist: "a3" and "fT". */
  lemma Collision()
    ensures Start([0x61, 0x33]) == Start([0x66, 0x54])
  {
    var a: Text, b: Text := [0x61, 0x33], [0x66, 0x54];
    assert HashTo(a, 1) == 0x2B5C4 && HashTo(b, 1) == 0x2B5C3;
    assert HashTo(a, 2) % 512 == HashTo(b, 2) % 512;
  }
}
