/** submit of kernel/core/nvme.c with its polling loop, beside a device that writes the completion queue. */
module Nvme {
  import opened MachineInts
  import opened NvmeSpec

  class QueuePair {
    const cq: array<Cpl>
    var sqTail: nat
    var cqHead: nat
    var phase: nat
    var nextCid: u16
    // the device's side: commands to complete, completions posted, completions the host has acknowledged
    var pending: seq<u16>
    var posted: nat
    var acknowledged: nat
    ghost var state: NvmeSpec.Nvme

    ghost predicate Valid()
      reads this, cq
    {
      && state.cq == cq[..] && state.cqHead == cqHead && state.phase == phase && state.sqTail == sqTail
      && state.nextCid == nextCid && state.pending == pending && |state.posts| == posted
        && state.consumed == acknowledged
    }

    /** q_setup. */
    constructor (cid: u16)
      requires 1 <= cid
      ensures Valid() && state == Initial(cid) && fresh(cq)
    {
      cq := new Cpl[DEPTH](_ => Cpl(0, 0));
      sqTail, cqHead, phase, nextCid, pending, posted, acknowledged := 0, 0, 1, cid, [], 0, 0;
      state := Initial(cid);
      new;
      assert cq[..] == Initial(cid).cq;
    }

    /** The device completes a pending command into the next slot, unless the queue is full. */
    method DeviceStep(m: Option<(nat, nat)>)
      requires Valid()
      modifies this`pending, this`posted, this`state, cq
      ensures Valid() && state == DeviceMove(old(state), m)
    {
      if m.None? {
        return;
      }
      var (which, code) := m.value;
      if which >= |pending| || posted + 1 == acknowledged + DEPTH {
        return;
      }
      SlotAndTag(posted);
      cq[posted % DEPTH] := Encoded(Post(pending[which], code), posted);
      pending := pending[..which] + pending[which + 1..];
      posted := posted + 1;
      state := DevicePost(state, which, code);
    }

    /** What submit does with a completion it has seen: a foreign one is an error and stays where it is. */
    method Consume(e: Cpl, cid: u16) returns (r: Status)
      requires Valid() && state.consumed < |state.posts| && e == Encoded(state.posts[state.consumed], state.consumed)
      modifies this`cqHead, this`phase, this`acknowledged, this`state
      ensures Valid() && (state, r) == Take(old(state), cid)
    {
      if e.cid != cid {
        return EIo;
      }
      cqHead := (cqHead + 1) % DEPTH;
      if cqHead == 0 {
        phase := 1 - phase;
      }
      acknowledged := acknowledged + 1;
      state := Take(state, cid).0;
      return if e.status / 2 != 0 then EIo else Ok;
    }

    /** submit: `moves` says what the device does before each of the polls. */
    method Submit(moves: Schedule) returns (r: Status)
      requires Valid()
      modifies this, cq
      ensures Valid() && (state, r) == NvmeSpec.Submit(old(state), moves)
    {
      var cid := nextCid;
      nextCid := if nextCid + 1 == TWO_16 then 1 else nextCid + 1;
      sqTail := (sqTail + 1) % DEPTH;
      pending := pending + [cid];
      state := Enqueue(state);
      for spin := 0 to |moves|
        invariant Valid() && Poll(state, cid, moves, spin) == NvmeSpec.Submit(old(state), moves)
      {
        DeviceStep(moves[spin]);
        PhaseTestExact(state);
        var e := cq[cqHead];
        if e.status % 2 == phase {
          r := Consume(e, cid);
          return;
        }
      }
      r := ETimedOut;
    }
  }
}
