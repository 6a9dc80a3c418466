/** net/firewall.c on its rule storage, threaded by next indices, and its connection table. */
module Firewall {
  import opened MachineInts
  import opened Lists
  import opened FirewallSpec

  const NONE: int := -1

  datatype Conn = Conn(flow: Flow, state: nat, active: bool)

  /** A 32-bit field as the little-endian load of the source reads it. */
  function Load32(p: seq<bv8>, off: nat): bv32
    requires off + 4 <= |p|
  {
    (p[off] as bv32) | (p[off + 1] as bv32 << 8) | (p[off + 2] as bv32 << 16) | (p[off + 3] as bv32 << 24)
  }

  /** extract_src_port and extract_dst_port. */
  function Port(p: seq<bv8>, off: nat): bv16
    requires off + 2 <= |p|
  {
    (p[off] as bv16 << 8) | (p[off + 1] as bv16)
  }

  /** The header fields firewall_check reads; ports are 0 unless TCP or UDP and inside the packet. */
  function FlowOf(p: seq<bv8>): (r: Option<Flow>) {
    if |p| < 20 then None
    else
      var ihl: nat := (p[0] & 0xF) as nat * 4;
      var proto := p[9];
      var ports := (proto == 6 || proto == 17) && |p| >= ihl + 4;
      Some(Flow(Load32(p, 12), Load32(p, 16), if ports then Port(p, ihl) else 0, if ports then Port(p, ihl + 2) else 0,
        proto))
  }

  /** Entry `i` of the list points to the one after it. */
  ghost predicate Follows(next: seq<int>, live: seq<nat>, i: nat) {
    i < |live| && live[i] < |next| && next[live[i]] == if i + 1 < |live| then live[i + 1] else NONE
  }

  ghost predicate Linked(head: int, next: seq<int>, live: seq<nat>) {
    && head == (if live == [] then NONE else live[0])
    && forall i: nat | i < |live| :: Follows(next, live, i)
  }

  /** Clearing the pointer of a slot that is not on the list. */
  lemma LinkedElsewhere(head: int, next: seq<int>, live: seq<nat>, id: nat)
    requires Linked(head, next, live) && id < |next| && id !in live
    ensures Linked(head, next[id := NONE], live)
  {
    var cleared := next[id := NONE];
    forall i: nat | i < |live|
      ensures Follows(cleared, live, i)
    {
      assert Follows(next, live, i);
    }
  }

  /** Passing over place `k` threads the list without it. */
  lemma LinkedWithout(n0: seq<int>, n1: seq<int>, live: seq<nat>, k: nat)
    requires live != [] && Linked(live[0], n0, live) && Distinct(live) && k < |live| && |n1| == |n0|
    requires forall i | 0 <= i < |live| :: live[i] < |n0|
    requires n1 == if k == 0 then n0[live[0] := NONE] else n0[live[k - 1] := n0[live[k]]][live[k] := NONE]
    ensures Linked(if k == 0 then n0[live[0]] else live[0], n1, Without(live, k))
  {
    var l := Without(live, k);
    assert Follows(n0, live, k);
    forall j: nat | j < |l|
      ensures Follows(n1, l, j)
    {
      assert Follows(n0, live, if j < k then j else j + 1);
    }
  }

  function Flows(conn: seq<Conn>, n: nat): (r: seq<Flow>)
    requires n <= |conn|
    ensures |r| == n && forall i | 0 <= i < n :: r[i] == conn[i].flow
  {
    seq(n, i requires 0 <= i < n => conn[i].flow)
  }

  class Filter {
    const storage: array<Rule>
    const next: array<int>
    const conn: array<Conn>
    var head: int
    var count: nat
    var policy: Action
    var enabled: bool
    ghost var live: seq<nat>
    ghost var used: nat

    ghost predicate Shaped()
      reads this
    {
      && storage.Length == MAX_RULES && next.Length == MAX_RULES && conn.Length == MAX_TRACKED
      && count <= MAX_RULES && used <= MAX_TRACKED
    }

    ghost function View(): Fw
      reads this, storage, conn
      requires Shaped()
    {
      Fw(storage[..count], live, Flows(conn[..], used), policy, enabled)
    }

    /** The active entries are the first `used`, all established. */
    ghost predicate Valid()
      reads this, storage, next, conn
    {
      && Shaped() && Inv(View()) && Linked(head, next[..], live)
      && (forall i | 0 <= i < MAX_TRACKED :: conn[i].active == (i < used))
      && (forall i | 0 <= i < used :: conn[i].state == 1)
    }

    /** firewall_init on zeroed tables. */
    constructor ()
      ensures Valid() && View() == Initial()
    {
      var none := Rule(0, 0, 0, 0, 0, 0, 0, Drop);
      storage := new Rule[MAX_RULES](_ => none);
      next := new int[MAX_RULES](_ => NONE);
      conn := new Conn[MAX_TRACKED](_ => Conn(Flow(0, 0, 0, 0, 0), 0, false));
      head, count, policy, enabled, live, used := NONE, 0, Drop, true, [], 0;
    }

    /** ct_lookup: the index of the one entry of the conversation. */
    method Lookup(f: Flow) returns (r: int)
      requires Valid()
      ensures r == NONE <==> !Tracked(View(), f)
      ensures r != NONE ==> 0 <= r < used && SameFlow(f, conn[r].flow)
    {
      for i := 0 to MAX_TRACKED
        invariant forall j | 0 <= j < i && j < used :: !SameFlow(f, conn[j].flow)
      {
        if conn[i].active {
          var c := conn[i].flow;
          if c == f || (c.src == f.dst && c.dst == f.src && c.srcPort == f.dstPort && c.dstPort == f.srcPort
            && c.proto == f.proto) {
            assert SameFlow(f, View().tracked[i]);
            return i;
          }
        }
      }
      r := NONE;
    }

    /** ct_create and the state change after it: the first inactive slot, if any. */
    method Track(f: Flow)
      requires Valid() && !Tracked(View(), f)
      modifies this`used, conn
      ensures Valid()
      ensures View() == if old(used) < MAX_TRACKED then old(View()).(tracked := old(View()).tracked + [f])
        else old(View())
    {
      for i := 0 to MAX_TRACKED
        invariant i <= used && used == old(used) && conn[..] == old(conn[..])
      {
        if !conn[i].active {
          conn[i] := Conn(f, 1, true);
          used := used + 1;
          assert View().tracked == old(View().tracked) + [f];
          return;
        }
      }
    }

    /** The rule loop of firewall_check: the storage slot of the first live rule that matches. */
    method FirstRule(f: Flow) returns (r: int)
      requires Valid()
      ensures var i := FirstMatch(View(), f, 0); r == if i == |live| then NONE else live[i]
    {
      r := head;
      ghost var i := 0;
      while r != NONE
        invariant 0 <= i <= |live| && r == (if i == |live| then NONE else live[i])
        invariant FirstMatch(View(), f, 0) == FirstMatch(View(), f, i)
        decreases |live| - i
      {
        if Matches(storage[r], f) {
          return;
        }
        assert Follows(next[..], live, i);
        r := next[r];
        i := i + 1;
      }
    }

    /** firewall_check. */
    method Check(pkt: seq<bv8>) returns (a: Action)
      requires Valid()
      modifies this`used, conn
      ensures Valid() && a == Verdict(old(View()), FlowOf(pkt))
        && View() == FirewallSpec.Check(old(View()), FlowOf(pkt))
    {
      if !enabled {
        return Accept;
      }
      var flow := FlowOf(pkt);
      if flow.None? {
        return policy;
      }
      var ct := Lookup(flow.value);
      if ct != NONE && conn[ct].state >= 1 {
        return Accept;
      }
      var r := FirstRule(flow.value);
      if r == NONE {
        return policy;
      }
      a := storage[r].action;
      if a == Accept && ct == NONE {
        Track(flow.value);
      }
    }

    /** firewall_add_rule; false when the storage is used up. */
    method AddRule(rule: Rule) returns (ok: bool)
      requires Valid()
      modifies this`head, this`count, this`live, storage, next
      ensures Valid() && View() == FirewallSpec.AddRule(old(View()), rule)
      ensures ok <==> old(count) < MAX_RULES
    {
      if count >= MAX_RULES {
        return false;
      }
      var stored := count;
      storage[stored], next[stored] := rule, NONE;
      count := count + 1;
      if head == NONE {
        head := stored;
      } else {
        var p := head;
        ghost var i := 0;
        assert old(Follows(next[..], live, 0));
        while next[p] != NONE
          invariant 0 <= i < |live| && p == live[i] && live == old(live)
          invariant forall j | 0 <= j < MAX_RULES :: next[j] == if j == stored then NONE else old(next[j])
          decreases |live| - i
        {
          assert old(Follows(next[..], live, i));
          assert old(Follows(next[..], live, i + 1));
          p := next[p];
          i := i + 1;
        }
        assert old(Follows(next[..], live, i));
        next[p] := stored;
      }
      live := live + [stored];
      forall i: nat | i < |live|
        ensures Follows(next[..], live, i)
      {
        assert i < |live| - 1 ==> old(Follows(next[..], live, i));
      }
      assert storage[..count] == old(storage[..count]) + [rule];
      ok := true;
    }

    /** The place in the list whose successor is `id`; |live| when there is none. */
    method FindBefore(id: nat) returns (p: int, ghost i: nat)
      requires Valid() && id < MAX_RULES && head != id
      ensures id in live ==> i + 1 < |live| && p == live[i] && live[i + 1] == id
      ensures id !in live ==> p == NONE
    {
      p, i := head, 0;
      while p != NONE
        invariant i <= |live| && p == (if i == |live| then NONE else live[i])
        invariant forall j | 0 <= j <= i && j < |live| :: live[j] != id
        decreases |live| - i
      {
        assert Follows(next[..], live, i);
        if next[p] == id {
          return;
        }
        p := next[p];
        i := i + 1;
      }
    }

    /** firewall_del_rule; false for an id that was never handed out. */
    method DelRule(id: nat) returns (ok: bool)
      requires Valid()
      modifies this`head, this`live, next
      ensures Valid() && View() == FirewallSpec.DelRule(old(View()), id)
      ensures ok <==> id < count
    {
      if id >= count {
        return false;
      }
      RisingDistinct(live, count);
      ghost var n0 := next[..];
      if head == id {
        assert Follows(n0, live, 0);
        head := next[id];
        next[id] := NONE;
        Unthread(n0, next[..], 0);
      } else {
        var p, i := FindBefore(id);
        if p != NONE {
          assert Follows(n0, live, i + 1);
          next[p] := next[id];
          next[id] := NONE;
          Unthread(n0, next[..], i + 1);
        } else {
          next[id] := NONE;
          LinkedElsewhere(head, n0, live, id);
          assert next[..] == n0[id := NONE];
        }
      }
      ok := true;
    }

    /** The list without its place `k`, once the pointers pass over it. */
    ghost method Unthread(n0: seq<int>, n1: seq<int>, k: nat)
      requires Shaped() && Inv(View()) && Distinct(live) && k < |live| && n1 == next[..]
      requires Linked(if k == 0 then live[0] else head, n0, live) && |n0| == |n1| == MAX_RULES
      requires n1 == if k == 0 then n0[live[0] := NONE] else n0[live[k - 1] := n0[live[k]]][live[k] := NONE]
      requires head == if k == 0 then n0[live[0]] else live[0]
      requires forall i | 0 <= i < MAX_TRACKED :: conn[i].active == (i < used)
      requires forall i | 0 <= i < used :: conn[i].state == 1
      modifies this`live
      ensures Valid() && View() == FirewallSpec.DelRule(old(View()), old(live)[k])
    {
      IndexUnique(live, k);
      LinkedWithout(n0, n1, live, k);
      live := Without(live, k);
      assert View() == FirewallSpec.DelRule(old(View()), old(live)[k]);
    }

    /** firewall_flush_rules. */
    method FlushRules()
      requires Valid()
      modifies this`head, this`count, this`live
      ensures Valid() && View() == Flush(old(View()))
    {
      head, count, live := NONE, 0, [];
    }
  }
}
