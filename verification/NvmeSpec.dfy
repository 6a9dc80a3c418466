/** The NVMe queue pair of kernel/core/nvme.c as a protocol between the host and a device that follows the phase-tag
    rules of section 4.6 of the NVM Express base specification, revision 1.4. */
module NvmeSpec {
  import opened MachineInts

  const DEPTH: nat := 32

  /** A completion queue slot; bit 0 of `status` is the phase tag. */
  datatype Cpl = Cpl(cid: u16, status: nat)

  /** A completion the device has posted: whose it is and the status code. */
  datatype Post = Post(cid: u16, code: nat)

  /** Host and device together.  `posts` are all completions so far, the first `consumed` of which the host has taken;
      `pending` are the commands the device has not completed yet. */
  datatype State = State(cq: seq<Cpl>, cqHead: nat, phase: nat, sqTail: nat, nextCid: nat, submitted: nat,
                         pending: seq<u16>, posts: seq<Post>, consumed: nat)

  /** The queue slot of the k-th entry. */
  function Slot(k: nat): (r: nat)
    ensures r < DEPTH
  {
    if k < DEPTH then k else Slot(k - DEPTH)
  }

  /** The phase tag of the k-th completion: it inverts on each pass through the queue. */
  function Tag(k: nat): (t: nat)
    ensures t <= 1
  {
    if k < DEPTH then 1 else 1 - Tag(k - DEPTH)
  }

  /** In closed form. */
  lemma {:induction false} SlotAndTag(k: nat)
    ensures Slot(k) == k % DEPTH && Tag(k) == if k / DEPTH % 2 == 0 then 1 else 0
  {
    if k >= DEPTH {
      SlotAndTag(k - DEPTH);
    }
  }

  lemma {:induction false} TagNext(k: nat)
    ensures Slot(k + 1) == (if Slot(k) + 1 == DEPTH then 0 else Slot(k) + 1)
    ensures Tag(k + 1) == if Slot(k + 1) == 0 then 1 - Tag(k) else Tag(k)
  {
    if k >= DEPTH {
      TagNext(k - DEPTH);
    }
  }

  /** Slots of different completions in one window differ. */
  lemma {:induction false} SlotsDiffer(j: nat, k: nat)
    requires j < k < j + DEPTH
    ensures Slot(j) != Slot(k)
  {
    if j >= DEPTH {
      SlotsDiffer(j - DEPTH, k - DEPTH);
    }
  }

  function Encoded(p: Post, k: nat): Cpl {
    Cpl(p.cid, 2 * p.code + Tag(k))
  }

  /** Slot of completion `k` holds it. */
  predicate Holds(cq: seq<Cpl>, posts: seq<Post>, k: nat) {
    k < |posts| && |cq| == DEPTH && cq[Slot(k)] == Encoded(posts[k], k)
  }

  predicate Empty(cq: seq<Cpl>, k: nat) {
    k < |cq| && cq[k].status % 2 == 0
  }

  predicate Inv(s: State) {
    && |s.cq| == DEPTH && s.consumed <= |s.posts| < s.consumed + DEPTH
    && s.cqHead == Slot(s.consumed) && s.phase == Tag(s.consumed)
    && s.sqTail == Slot(s.submitted) && 1 <= s.nextCid < TWO_16
    && (forall k: nat | k < |s.posts| < k + DEPTH + 1 :: Holds(s.cq, s.posts, k))
    && (forall k: nat | |s.posts| <= k < DEPTH :: Empty(s.cq, k))
  }

  /** q_setup. */
  function Initial(cid: nat): (s: State)
    requires 1 <= cid < TWO_16
    ensures Inv(s)
  {
    State(seq(DEPTH, _ => Cpl(0, 0)), 0, 1, 0, cid, 0, [], [], 0)
  }

  type Nvme = s: State | Inv(s) witness Initial(1)

  /** The host's test for a new completion. */
  predicate SeesNew(s: Nvme)
  {
    s.cq[s.cqHead].status % 2 == s.phase
  }

  /** After n completions the head is n mod 32 and the phase 1 xor (n / 32 mod 2), and the test is exact: it succeeds
      just when the device has posted the next completion, which is then the one in the slot. */
  lemma PhaseTestExact(s: Nvme)
    ensures s.cqHead == s.consumed % 32 && s.phase == (if s.consumed / 32 % 2 == 0 then 1 else 0)
    ensures SeesNew(s) <==> s.consumed < |s.posts|
    ensures s.consumed < |s.posts| ==> s.cq[s.cqHead] == Encoded(s.posts[s.consumed], s.consumed)
  {
    SlotAndTag(s.consumed);
    if s.consumed < |s.posts| {
      assert Holds(s.cq, s.posts, s.consumed);
    } else if s.consumed < DEPTH {
      assert Empty(s.cq, s.consumed);
    } else {
      assert Holds(s.cq, s.posts, s.consumed - DEPTH);
    }
  }

  // Steps

  /** The state with `p` posted in the next slot. */
  function Posted(s: State, p: Post, pending: seq<u16>): State
    requires |s.cq| == DEPTH
  {
    s.(cq := s.cq[Slot(|s.posts|) := Encoded(p, |s.posts|)], posts := s.posts + [p], pending := pending)
  }

  lemma PostKeeps(s: Nvme, p: Post, pending: seq<u16>)
    requires |s.posts| + 1 < s.consumed + DEPTH
    ensures Inv(Posted(s, p, pending))
  {
    var k, t := |s.posts|, Posted(s, p, pending);
    forall j: nat | j < k + 1 < j + DEPTH + 1
      ensures Holds(t.cq, t.posts, j)
    {
      if j < k {
        SlotsDiffer(j, k);
        assert Holds(s.cq, s.posts, j);
      }
    }
    forall j: nat | k + 1 <= j < DEPTH
      ensures Empty(t.cq, j)
    {
      assert Empty(s.cq, j);
    }
  }

  /** The device completes one of its pending commands; it does nothing while the queue is full. */
  function DevicePost(s: Nvme, which: nat, code: nat): (r: Nvme)
  {
    if which >= |s.pending| || |s.posts| + 1 == s.consumed + DEPTH then s
    else
      var p, rest := Post(s.pending[which], code), s.pending[..which] + s.pending[which + 1..];
      PostKeeps(s, p, rest);
      Posted(s, p, rest)
  }

  /** The command identifier after `c`: 1 to 65535, never 0. */
  function NextCid(c: nat): (r: nat)
    requires 1 <= c < TWO_16
    ensures 1 <= r < TWO_16
  {
    if c + 1 == TWO_16 then 1 else c + 1
  }

  /** The first half of submit: a new command goes to the device. */
  function Enqueue(s: Nvme): (r: Nvme)
  {
    TagNext(s.submitted);
    s.(nextCid := NextCid(s.nextCid), sqTail := (s.sqTail + 1) % DEPTH, submitted := s.submitted + 1,
      pending := s.pending + [s.nextCid])
  }

  /** One poll that sees a completion: a foreign one is an error and stays; its own is consumed. */
  function Take(s: Nvme, cid: u16): (r: (Nvme, Status))
    requires s.consumed < |s.posts|
  {
    var p := s.posts[s.consumed];
    if p.cid != cid then (s, EIo)
    else
      var head := (s.cqHead + 1) % DEPTH;
      TagNext(s.consumed);
      (s.(cqHead := head, phase := if head == 0 then 1 - s.phase else s.phase, consumed := s.consumed + 1),
       if p.code != 0 then EIo else Ok)
  }

  /** What the device does before each poll: nothing, or complete a pending command with a status code. */
  type Schedule = seq<Option<(nat, nat)>>

  function DeviceMove(s: Nvme, m: Option<(nat, nat)>): (r: Nvme)
  {
    if m.None? then s else DevicePost(s, m.value.0, m.value.1)
  }

  /** The polling loop from spin `k` on. */
  function Poll(s: Nvme, cid: u16, moves: Schedule, k: nat): (r: (Nvme, Status))
    requires k <= |moves|
    decreases |moves| - k
  {
    if k == |moves| then (s, ETimedOut)
    else
      var t := DeviceMove(s, moves[k]);
      if t.consumed < |t.posts| then Take(t, cid) else Poll(t, cid, moves, k + 1)
  }

  function Submit(s: Nvme, moves: Schedule): (r: (Nvme, Status))
  {
    Poll(Enqueue(s), s.nextCid, moves, 0)
  }

  // Runs without timeouts

  /** Everything submitted has been completed and consumed. */
  predicate Quiet(s: Nvme) {
    s.consumed == |s.posts| && s.pending == []
  }

  /** `t` comes from `s` by one command whose own completion was consumed and gave `status`. */
  predicate Served(s: Nvme, t: Nvme, status: Status) {
    && |t.posts| == |s.posts| + 1 && t.posts[..|s.posts|] == s.posts
    && t.posts[|s.posts|].cid == s.nextCid
    && t.consumed == s.consumed + 1 && t.pending == []
    && status == if t.posts[|s.posts|].code == 0 then Ok else EIo
  }

  lemma {:induction false} PollServes(s: Nvme, w: Nvme, moves: Schedule, k: nat)
    requires Quiet(s) && k <= |moves|
    requires w.posts == s.posts && w.consumed == s.consumed && w.pending == [s.nextCid]
    ensures var (t, status) := Poll(w, s.nextCid, moves, k); status != ETimedOut ==> Served(s, t, status)
    ensures var (t, status) := Poll(w, s.nextCid, moves, k); status == ETimedOut ==>
      t.posts == s.posts && t.consumed == s.consumed && t.pending == [s.nextCid] && t.nextCid == w.nextCid
    decreases |moves| - k
  {
    if k < |moves| {
      var u := DeviceMove(w, moves[k]);
      if u.consumed == |u.posts| {
        PollServes(s, u, moves, k + 1);
      } else {
        assert [s.nextCid][..0] + [s.nextCid][1..] == [];
      }
    }
  }

  /** From a quiet queue, a call that does not time out consumes exactly the completion of its own command. */
  lemma SubmitServes(s: Nvme, moves: Schedule)
    requires Quiet(s) && Submit(s, moves).1 != ETimedOut
    ensures Served(s, Submit(s, moves).0, Submit(s, moves).1) && Quiet(Submit(s, moves).0)
  {
    PollServes(s, Enqueue(s), moves, 0);
  }

  /** Each call from `i` on, up to the first timeout, is served. */
  predicate AllServed(s: Nvme, calls: seq<Schedule>, i: nat)
    requires i <= |calls|
    decreases |calls| - i
  {
    i == |calls| ||
    var (t, status) := Submit(s, calls[i]);
    status == ETimedOut || (Served(s, t, status) && AllServed(t, calls, i + 1))
  }

  /** In every run without timeouts each call gets its own completion, so none is skipped, repeated or stale. */
  lemma {:induction false} RunServes(s: Nvme, calls: seq<Schedule>, i: nat)
    requires Quiet(s) && i <= |calls|
    ensures AllServed(s, calls, i)
    decreases |calls| - i
  {
    if i < |calls| && Submit(s, calls[i]).1 != ETimedOut {
      SubmitServes(s, calls[i]);
      RunServes(Submit(s, calls[i]).0, calls, i + 1);
    }
  }

  // After a timeout

  /** The completion at the head belongs to command `x`. */
  predicate StaleHead(s: Nvme, x: u16) {
    s.consumed < |s.posts| && s.posts[s.consumed].cid == x
  }

  /** A command that timed out and completes late leaves its completion at the head. */
  lemma LateCompletion(s: Nvme, moves: Schedule, code: nat)
    requires Quiet(s) && Submit(s, moves).1 == ETimedOut
    ensures var t := DevicePost(Submit(s, moves).0, 0, code); StaleHead(t, s.nextCid) && t.nextCid == NextCid(s.nextCid)
  {
    PollServes(s, Enqueue(s), moves, 0);
  }

  /** With such a completion at the head, a call gets past it exactly when its own identifier is the same. */
  lemma StaleBlocks(s: Nvme, x: u16, moves: Schedule)
    requires StaleHead(s, x) && |moves| >= 1
    ensures var r := Submit(s, moves);
      && (r.0.consumed == s.consumed + 1 <==> s.nextCid == x)
      && (s.nextCid != x ==>
        r.1 == EIo && StaleHead(r.0, x) && r.0.consumed == s.consumed && r.0.nextCid == NextCid(s.nextCid))
  {
    var w := DeviceMove(Enqueue(s), moves[0]);
    assert w.posts[s.consumed] == s.posts[s.consumed];
  }

  /** The identifier after `n` more calls. */
  function CidAfter(c: nat, n: nat): (r: nat)
    requires 1 <= c < TWO_16
    ensures 1 <= r < TWO_16
  {
    if n == 0 then c else NextCid(CidAfter(c, n - 1))
  }

  lemma {:induction false} CidAfterIs(c: nat, n: nat)
    requires 1 <= c < TWO_16 && n < TWO_16
    ensures CidAfter(c, n) == if c + n < TWO_16 then c + n else c + n - (TWO_16 - 1)
  {
    if n > 0 {
      CidAfterIs(c, n - 1);
    }
  }

  /** After the identifier `x` it is 65534 calls before it comes again. */
  lemma ComesRound(x: u16, n: nat)
    requires 1 <= x && n < TWO_16 - 1
    ensures CidAfter(NextCid(x), n) == x <==> n == TWO_16 - 2
  {
    CidAfterIs(NextCid(x), n);
  }

  /** The state after the calls from `i` on. */
  function Calls(s: Nvme, calls: seq<Schedule>, i: nat): Nvme
    requires i <= |calls|
    decreases |calls| - i
  {
    if i == |calls| then s else Calls(Submit(s, calls[i]).0, calls, i + 1)
  }

  /** Every call from `i` on fails with an I/O error. */
  predicate AllFail(s: Nvme, calls: seq<Schedule>, i: nat)
    requires i <= |calls|
    decreases |calls| - i
  {
    i == |calls| || var r := Submit(s, calls[i]); r.1 == EIo && AllFail(r.0, calls, i + 1)
  }

  /** The calls all poll at least once. */
  predicate Polling(calls: seq<Schedule>) {
    forall i | 0 <= i < |calls| :: calls[i] != []
  }

  /** While the identifiers have not come round to `x`, its completion stays at the head and every call fails. */
  lemma {:induction false} StaleRun(s: Nvme, x: u16, calls: seq<Schedule>, i: nat, n: nat)
    requires StaleHead(s, x) && 1 <= x && s.nextCid == CidAfter(NextCid(x), n)
    requires Polling(calls) && i <= |calls| && n + (|calls| - i) <= TWO_16 - 2
    ensures AllFail(s, calls, i)
    ensures var t := Calls(s, calls, i);
      StaleHead(t, x) && t.consumed == s.consumed && t.nextCid == CidAfter(NextCid(x), n + (|calls| - i))
    decreases |calls| - i
  {
    if i < |calls| {
      ComesRound(x, n);
      StaleBlocks(s, x, calls[i]);
      StaleRun(Submit(s, calls[i]).0, x, calls, i + 1, n + 1);
    }
  }

  lemma GetsPast(t: Nvme, x: u16, n: nat, next: Schedule)
    requires StaleHead(t, x) && 1 <= x && n <= TWO_16 - 2 && t.nextCid == CidAfter(NextCid(x), n) && next != []
    ensures Submit(t, next).0.consumed == t.consumed + 1 <==> n == TWO_16 - 2
  {
    ComesRound(x, n);
    StaleBlocks(t, x, next);
  }

  /** A late completion of `x` at the head: up to 65534 polling calls fail, whatever the device does, and the next call
      gets past it exactly when there were 65534. */
  lemma BlockedUntilRound(s: Nvme, x: u16, calls: seq<Schedule>, next: Schedule)
    requires StaleHead(s, x) && 1 <= x && s.nextCid == NextCid(x)
    requires Polling(calls) && |calls| <= TWO_16 - 2 && next != []
    ensures var t := Calls(s, calls, 0);
      && AllFail(s, calls, 0) && t.consumed == s.consumed
      && (Submit(t, next).0.consumed == t.consumed + 1 <==> |calls| == TWO_16 - 2)
  {
    StaleRun(s, x, calls, 0, 0);
    GetsPast(Calls(s, calls, 0), x, |calls|, next);
  }
}
