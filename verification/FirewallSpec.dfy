/** The stateful packet filter of net/firewall.c on values. */
module FirewallSpec {
  import opened MachineInts
  import opened Lists

  const MAX_RULES: nat := 256
  const MAX_TRACKED: nat := 4096

  datatype Action = Accept | Drop | Reject

  /** Addresses, ports and protocol as the filter reads them from a packet. */
  datatype Flow = Flow(src: bv32, dst: bv32, srcPort: bv16, dstPort: bv16, proto: bv8)

  datatype Rule = Rule(srcIp: bv32, srcMask: bv32, dstIp: bv32, dstMask: bv32, srcPort: bv16, dstPort: bv16,
    proto: bv8, action: Action)

  function Reply(f: Flow): Flow {
    Flow(f.dst, f.src, f.dstPort, f.srcPort, f.proto)
  }

  /** The same conversation, in either direction. */
  predicate SameFlow(a: Flow, b: Flow) {
    a == b || a == Reply(b)
  }

  /** ip_match. */
  predicate IpMatch(addr: bv32, ip: bv32, mask: bv32) {
    (ip == 0 && mask == 0) || addr & mask == ip & mask
  }

  predicate Matches(r: Rule, f: Flow) {
    && IpMatch(f.src, r.srcIp, r.srcMask) && IpMatch(f.dst, r.dstIp, r.dstMask)
    && (r.proto == 0 || r.proto == f.proto)
    && (r.srcPort == 0 || r.srcPort == f.srcPort) && (r.dstPort == 0 || r.dstPort == f.dstPort)
  }

  /** Rule storage, which of its slots are on the list (in list order), the tracked flows in slot order. */
  datatype Fw = Fw(slots: seq<Rule>, live: seq<nat>, tracked: seq<Flow>, policy: Action, enabled: bool)

  predicate Rising(live: seq<nat>, n: nat) {
    && (forall i, j | 0 <= i < j < |live| :: live[i] < live[j])
    && (forall i | 0 <= i < |live| :: live[i] < n)
  }

  lemma RisingDistinct(live: seq<nat>, n: nat)
    requires Rising(live, n)
    ensures Distinct(live)
  {
  }

  predicate OneEntryEach(tracked: seq<Flow>) {
    forall i, j | 0 <= i < j < |tracked| :: !SameFlow(tracked[i], tracked[j])
  }

  /** The list holds its rules in insertion order, and each conversation has at most one entry. */
  predicate Inv(s: Fw) {
    && |s.slots| <= MAX_RULES && Rising(s.live, |s.slots|)
    && |s.tracked| <= MAX_TRACKED && OneEntryEach(s.tracked)
  }

  predicate Tracked(s: Fw, f: Flow) {
    exists i | 0 <= i < |s.tracked| :: SameFlow(f, s.tracked[i])
  }

  /** The position in the list of the first live rule from `k` on that matches; |live| when there is none. */
  function FirstMatch(s: Fw, f: Flow, k: nat): (r: nat)
    requires Inv(s) && k <= |s.live|
    ensures k <= r <= |s.live| && (r < |s.live| ==> Matches(s.slots[s.live[r]], f))
    ensures forall i | k <= i < r :: !Matches(s.slots[s.live[i]], f)
    decreases |s.live| - k
  {
    if k == |s.live| || Matches(s.slots[s.live[k]], f) then k else FirstMatch(s, f, k + 1)
  }

  /** What the rules say about a flow; None when no rule matches. */
  function RuleVerdict(s: Fw, f: Flow): (r: Option<Action>)
    requires Inv(s)
  {
    var i := FirstMatch(s, f, 0);
    if i == |s.live| then None else Some(s.slots[s.live[i]].action)
  }

  /** The filter's answer to a packet; `flow` is None for one shorter than an IP header. */
  function Verdict(s: Fw, flow: Option<Flow>): (a: Action)
    requires Inv(s)
  {
    if !s.enabled then Accept
    else if flow.None? then s.policy
    else if Tracked(s, flow.value) then Accept
    else RuleVerdict(s, flow.value).GetOr(s.policy)
  }

  /** The packet is looked up in the rules and a rule accepts it. */
  predicate RuleAccepts(s: Fw, flow: Option<Flow>)
    requires Inv(s)
  {
    s.enabled && flow.Some? && !Tracked(s, flow.value) && RuleVerdict(s, flow.value) == Some(Accept)
  }

  /** firewall_check's effect: a flow a rule accepts gets an entry while there is room. */
  function Check(s: Fw, flow: Option<Flow>): (r: Fw)
    requires Inv(s)
    ensures Inv(r)
  {
    if RuleAccepts(s, flow) && |s.tracked| < MAX_TRACKED then s.(tracked := s.tracked + [flow.value]) else s
  }

  function AddRule(s: Fw, rule: Rule): (r: Fw)
    requires Inv(s)
    ensures Inv(r)
  {
    if |s.slots| == MAX_RULES then s else s.(slots := s.slots + [rule], live := s.live + [|s.slots|])
  }

  /** firewall_del_rule: the slot leaves the list but stays used up. */
  function DelRule(s: Fw, id: nat): (r: Fw)
    requires Inv(s)
    ensures Inv(r)
  {
    if id in s.live then s.(live := Without(s.live, IndexOf(s.live, id))) else s
  }

  function Flush(s: Fw): (r: Fw)
    requires Inv(s)
    ensures Inv(r)
  {
    s.(slots := [], live := [])
  }

  /** Deleting a rule takes exactly that rule off the list and keeps the order of the others. */
  lemma DelRuleExact(s: Fw, id: nat, x: nat)
    requires Inv(s)
    ensures x in DelRule(s, id).live <==> x in s.live && x != id
  {
    if id in s.live {
      var k := IndexOf(s.live, id);
      if x in s.live && x != id {
        WithoutKeeps(s.live, k, IndexOf(s.live, x));
      }
      if x in Without(s.live, k) {
        var i :| 0 <= i < |s.live| - 1 && Without(s.live, k)[i] == x;
        assert s.live[if i < k then i else i + 1] == x;
      }
    }
  }

  // Whole runs

  datatype Event =
    Packet(flow: Option<Flow>) | Added(rule: Rule) | Deleted(id: nat) | Flushed
    | Policy(action: Action) | Enabled(on: bool)

  function Step(s: Fw, e: Event): (r: Fw)
    requires Inv(s)
    ensures Inv(r)
  {
    match e
    case Packet(flow) => Check(s, flow)
    case Added(rule) => AddRule(s, rule)
    case Deleted(id) => DelRule(s, id)
    case Flushed => Flush(s)
    case Policy(action) => s.(policy := action)
    case Enabled(on) => s.(enabled := on)
  }

  function Initial(): (s: Fw)
    ensures Inv(s)
  {
    Fw([], [], [], Drop, true)
  }

  /** Why an enabled filter may accept a packet; `earlier` are the flows of earlier packets that a rule accepted. */
  predicate Justified(s: Fw, flow: Option<Flow>, earlier: set<Flow>)
    requires Inv(s)
  {
    match flow
    case None => s.policy == Accept
    case Some(f) =>
      || RuleVerdict(s, f) == Some(Accept)
      || (RuleVerdict(s, f) == None && s.policy == Accept)
      || f in earlier || Reply(f) in earlier
  }

  /** Every packet that the enabled filter accepts in the run `es` from event `i` on is justified. */
  predicate Sound(s: Fw, earlier: set<Flow>, es: seq<Event>, i: nat)
    requires Inv(s) && i <= |es|
    decreases |es| - i
  {
    i == |es| ||
    (&& (es[i].Packet? && s.enabled && Verdict(s, es[i].flow) == Accept ==> Justified(s, es[i].flow, earlier))
     && Sound(Step(s, es[i]),
       earlier + (if es[i].Packet? && RuleAccepts(s, es[i].flow) then {es[i].flow.value} else {}), es, i + 1))
  }

  /** Every tracked flow is that of an earlier packet a rule accepted. */
  predicate Earned(s: Fw, earlier: set<Flow>) {
    forall i | 0 <= i < |s.tracked| :: s.tracked[i] in earlier
  }

  lemma TrackedJustified(s: Fw, flow: Option<Flow>, earlier: set<Flow>)
    requires Inv(s) && Earned(s, earlier) && s.enabled && Verdict(s, flow) == Accept
    ensures Justified(s, flow, earlier)
  {
    if flow.Some? && Tracked(s, flow.value) {
      var i :| 0 <= i < |s.tracked| && SameFlow(flow.value, s.tracked[i]);
      assert Reply(Reply(s.tracked[i])) == s.tracked[i];
    }
  }

  /** Safety over every run: an enabled filter accepts a packet only if the first matching live rule accepts it, or no
      rule matches and the policy accepts, or it is short and the policy accepts, or a rule accepted an earlier packet
      of the same conversation. */
  lemma {:induction false} RunsAreSound(s: Fw, earlier: set<Flow>, es: seq<Event>, i: nat)
    requires Inv(s) && Earned(s, earlier) && i <= |es|
    ensures Sound(s, earlier, es, i)
    decreases |es| - i
  {
    if i < |es| {
      var e := es[i];
      var earlier' := earlier + (if e.Packet? && RuleAccepts(s, e.flow) then {e.flow.value} else {});
      if e.Packet? && s.enabled && Verdict(s, e.flow) == Accept {
        TrackedJustified(s, e.flow, earlier);
      }
      RunsAreSound(Step(s, e), earlier', es, i + 1);
    }
  }

  lemma SoundFromInit(es: seq<Event>)
    ensures Sound(Initial(), {}, es, 0)
  {
    RunsAreSound(Initial(), {}, es, 0);
  }

  /** A flow that a rule accepts is tracked from then on, unless the table is full. */
  lemma AcceptedIsTracked(s: Fw, f: Flow)
    requires Inv(s) && RuleAccepts(s, Some(f))
    ensures Tracked(Check(s, Some(f)), f) <==> |s.tracked| < MAX_TRACKED
  {
    if |s.tracked| < MAX_TRACKED {
      var t := Check(s, Some(f)).tracked;
      assert SameFlow(f, t[|t| - 1]);
    }
  }

  /** A tracked flow is accepted in both directions, and still tracked after any step. */
  lemma TrackedStays(s: Fw, f: Flow, e: Event)
    requires Inv(s) && Tracked(s, f)
    ensures Tracked(Step(s, e), f) && Tracked(s, Reply(f))
    ensures Verdict(s.(enabled := true), Some(f)) == Accept && Verdict(s.(enabled := true), Some(Reply(f))) == Accept
  {
    var i :| 0 <= i < |s.tracked| && SameFlow(f, s.tracked[i]);
    assert SameFlow(Reply(f), s.tracked[i]);
    assert Step(s, e).tracked[i] == s.tracked[i];
    assert Tracked(s.(enabled := true), f) && Tracked(s.(enabled := true), Reply(f));
  }

  /** In the run from event `i` on every packet of the flow, in either direction, is accepted. */
  predicate AlwaysAccepted(s: Fw, f: Flow, es: seq<Event>, i: nat)
    requires Inv(s) && i <= |es|
    decreases |es| - i
  {
    i == |es| ||
    (&& (es[i].Packet? && (es[i].flow == Some(f) || es[i].flow == Some(Reply(f))) ==> Verdict(s, es[i].flow) == Accept)
     && AlwaysAccepted(Step(s, es[i]), f, es, i + 1))
  }

  /** Once tracked, a conversation is accepted in both directions through every later run, whatever becomes of the
      rules. */
  lemma {:induction false} TrackedForGood(s: Fw, f: Flow, es: seq<Event>, i: nat)
    requires Inv(s) && Tracked(s, f) && i <= |es|
    ensures AlwaysAccepted(s, f, es, i)
    decreases |es| - i
  {
    if i < |es| {
      TrackedStays(s, f, es[i]);
      TrackedForGood(Step(s, es[i]), f, es, i + 1);
    }
  }
}
