/**
  The NVMe submission/completion queue pair of drivers/nvme.c, with the
  controller as a nondeterministic environment.

  The driver never asks how many completions there are: it trusts a phase bit
  that the controller writes and both sides invert on every lap. The controller
  here is given only what it really has: the two doorbells, its own positions and
  its own phase. Which completion sits where is proved, not assumed.
*/
module NvmeQueue {
  import Bits
  import opened Prelude

  const QDEPTH: nat := 16
  const OP_WRITE: nat := 1
  const OP_READ: nat := 2
  const SECTORS_PER_PAGE: nat := 8
  const CID_LIMIT: nat := 0x1_0000

  type Slot = i: nat | i < QDEPTH
  type Bit = b: nat | b < 2
  type U16 = x: nat | x < CID_LIMIT
  type Sector = s: seq<Byte> | |s| == 512 witness seq(512, _ => 0 as Byte)
  type Page = p: seq<Sector> | |p| == SECTORS_PER_PAGE witness seq(SECTORS_PER_PAGE, _ => seq(512, _ => 0 as Byte))
  type Disk = seq<Sector>
  type Memory = map<U64, Page>

  datatype Cmd = Cmd(opcode: nat, cid: U16, nsid: U32, prp1: U64, cdw10: U32, cdw11: U32, cdw12: U32)

  /** The status word carries the phase in bit 0 and the status code above it. */
  datatype Cqe = Cqe(cid: U16, status: U16)

  // ----- what a command means to the controller -----

  function Lba(c: Cmd): nat {
    c.cdw10 + 0x1_0000_0000 * c.cdw11
  }

  function Blocks(c: Cmd): nat {
    c.cdw12 % 0x1_0000 + 1
  }

  predicate InRange(c: Cmd, k: int) {
    Lba(c) <= k < Lba(c) + Blocks(c)
  }

  /** What a command still running, or failed, may have changed. */
  predicate Partial(c: Cmd, d: Disk, m: Memory, d': Disk, m': Memory) {
    && |d'| == |d| && m'.Keys == m.Keys
    && (c.opcode == OP_WRITE ==> m' == m && forall k :: 0 <= k < |d| && !InRange(c, k) ==> d'[k] == d[k])
    && (c.opcode != OP_WRITE ==> d' == d && forall p :: p in m && p != c.prp1 ==> m'[p] == m[p])
  }

  /** What a command that succeeded has done. */
  predicate Done(c: Cmd, d: Disk, m: Memory, d': Disk, m': Memory) {
    && Partial(c, d, m, d', m')
    && c.prp1 in m && Blocks(c) <= SECTORS_PER_PAGE && Lba(c) + Blocks(c) <= |d|
    && (c.opcode == OP_WRITE ==> d'[Lba(c)..Lba(c) + Blocks(c)] == m[c.prp1][..Blocks(c)])
    && (c.opcode == OP_READ ==> m'[c.prp1][..Blocks(c)] == d[Lba(c)..Lba(c) + Blocks(c)])
  }

  // ----- state -----

  /** A completion: for which of the fetched commands, and with what status code. */
  datatype Post = Post(index: nat, code: nat)

  /** The controller: doorbells, its own positions, which of the commands it has
      fetched it has not yet answered, storage, and the history of what it did. */
  datatype Device = Device(
    sqDoorbell: Slot, cqDoorbell: Slot,
    sqHead: Slot, cqTail: Slot, cqPhase: Bit,
    inflight: set<nat>, fetched: seq<Cmd>, posted: seq<Post>,
    disk: Disk, memory: Memory)

  /** Driver counters, the two rings, the controller, and the history of submits
      and of completions taken. */
  datatype Queue = Queue(
    tail: Slot, head: Slot, phase: Bit, cid: U16,
    sq: seq<Cmd>, cq: seq<Cqe>, dev: Device,
    submitted: seq<Cmd>, taken: nat)

  const NoCmd := Cmd(0, 0, 0, 0, 0, 0, 0)
  const NoCqe := Cqe(0, 0)

  function Start(disk: Disk, memory: Memory): Queue {
    Queue(0, 0, 1, 1, seq(QDEPTH, _ => NoCmd), seq(QDEPTH, _ => NoCqe),
          Device(0, 0, 0, 0, 1, {}, [], [], disk, memory), [], 0)
  }

  // ----- driver steps -----

  function Submit(q: Queue, cmd: Cmd): Queue
    requires |q.sq| == QDEPTH
  {
    var c := cmd.(cid := q.cid);
    var tail := (q.tail + 1) % QDEPTH;
    q.(sq := q.sq[q.tail := c], tail := tail, cid := (q.cid + 1) % CID_LIMIT,
       dev := q.dev.(sqDoorbell := tail), submitted := q.submitted + [c])
  }

  /** The driver's poll: is the entry at the head from this lap? */
  predicate Seen(q: Queue)
    requires |q.cq| == QDEPTH
  {
    q.cq[q.head].status % 2 == q.phase
  }

  function Take(q: Queue): Queue {
    var head := (q.head + 1) % QDEPTH;
    q.(head := head, phase := if head == 0 then 1 - q.phase else q.phase,
       dev := q.dev.(cqDoorbell := head), taken := q.taken + 1)
  }

  // ----- controller steps -----

  datatype Event =
    | Fetch
    | Work(index: nat, disk: Disk, memory: Memory)
    | Complete(index: nat, code: nat, disk: Disk, memory: Memory)

  /** A controller fetches while its head differs from the submission doorbell,
      works on and completes any command it has fetched in any order, and posts
      only while the completion queue is not full: one slot always stays open
      (section 4.1 of NVM Express 1.4). */
  predicate Enabled(dev: Device, e: Event) {
    match e
    case Fetch => dev.sqHead != dev.sqDoorbell
    case Work(i, d, m) =>
      i in dev.inflight && i < |dev.fetched| &&
      Partial(dev.fetched[i], dev.disk, dev.memory, d, m)
    case Complete(i, code, d, m) =>
      && i in dev.inflight && i < |dev.fetched| && code < CID_LIMIT / 2
      && (dev.cqTail + 1) % QDEPTH != dev.cqDoorbell
      && if code == 0 then Done(dev.fetched[i], dev.disk, dev.memory, d, m)
         else Partial(dev.fetched[i], dev.disk, dev.memory, d, m)
  }

  function DeviceStep(q: Queue, e: Event): Queue
    requires |q.sq| == QDEPTH && |q.cq| == QDEPTH && Enabled(q.dev, e)
  {
    match e
    case Fetch =>
      q.(dev := q.dev.(sqHead := (q.dev.sqHead + 1) % QDEPTH,
                       inflight := q.dev.inflight + {|q.dev.fetched|},
                       fetched := q.dev.fetched + [q.sq[q.dev.sqHead]]))
    case Work(_, d, m) => q.(dev := q.dev.(disk := d, memory := m))
    case Complete(i, code, d, m) =>
      var tail := (q.dev.cqTail + 1) % QDEPTH;
      q.(cq := q.cq[q.dev.cqTail := Cqe(q.dev.fetched[i].cid, 2 * code + q.dev.cqPhase)],
         dev := q.dev.(cqTail := tail, cqPhase := if tail == 0 then 1 - q.dev.cqPhase else q.dev.cqPhase,
                       inflight := q.dev.inflight - {i}, posted := q.dev.posted + [Post(i, code)],
                       disk := d, memory := m))
  }

  // ----- invariant -----

  /** Phase of the lap in which the n-th completion is posted. */
  function PhaseOf(n: nat): Bit {
    1 - (n / QDEPTH) % 2
  }

  function CidOf(k: nat): U16 {
    (k + 1) % CID_LIMIT
  }

  /** The queue entry that announces the n-th completion, of a command in `fetched`. */
  function EntryOf(fetched: seq<Cmd>, p: Post, n: nat): Cqe
    requires p.index < |fetched| && p.code < CID_LIMIT / 2
  {
    Cqe(fetched[p.index].cid, 2 * p.code + PhaseOf(n))
  }

  predicate Counters(q: Queue) {
    && q.taken <= |q.dev.posted| <= q.taken + QDEPTH - 1
    && |q.dev.posted| + |q.dev.inflight| == |q.dev.fetched| <= |q.submitted|
    && q.head == q.taken % QDEPTH == q.dev.cqDoorbell && q.phase == PhaseOf(q.taken)
    && q.tail == |q.submitted| % QDEPTH == q.dev.sqDoorbell && q.cid == CidOf(|q.submitted|)
    && q.dev.sqHead == |q.dev.fetched| % QDEPTH
    && q.dev.cqTail == |q.dev.posted| % QDEPTH && q.dev.cqPhase == PhaseOf(|q.dev.posted|)
  }

  /** Submitted commands are numbered, and the latest sixteen are in their slots. */
  predicate Commands(sq: seq<Cmd>, submitted: seq<Cmd>) {
    && |sq| == QDEPTH
    && (forall k :: 0 <= k < |submitted| ==> submitted[k].cid == CidOf(k))
    && forall k :: 0 <= k < |submitted| && |submitted| - QDEPTH <= k ==> sq[k % QDEPTH] == submitted[k]
  }

  /** The last sixteen completions are still in their slots; a slot never used
      still shows phase 0. */
  predicate Completions(cq: seq<Cqe>, posted: seq<Post>, fetched: seq<Cmd>) {
    && |cq| == QDEPTH
    && (forall n :: 0 <= n < |posted| ==> posted[n].index < |fetched| && posted[n].code < CID_LIMIT / 2)
    && (forall n :: 0 <= n < |posted| && |posted| - QDEPTH <= n ==> cq[n % QDEPTH] == EntryOf(fetched, posted[n], n))
    && (forall n :: |posted| <= n < QDEPTH ==> cq[n].status % 2 == 0)
  }

  /** Fetched commands are either in flight or answered exactly once. */
  ghost predicate Answers(inflight: set<nat>, fetched: nat, posted: seq<Post>) {
    && (forall n :: 0 <= n < |posted| ==> posted[n].index < fetched && posted[n].index !in inflight)
    && (forall i :: i in inflight ==> i < fetched)
    && (forall n, n' :: 0 <= n < n' < |posted| ==> posted[n].index != posted[n'].index)
  }

  /** Holds in every state of every run, however many commands the driver submits. */
  ghost predicate Inv(q: Queue) {
    && Counters(q) && Commands(q.sq, q.submitted)
    && Completions(q.cq, q.dev.posted, q.dev.fetched) && Answers(q.dev.inflight, |q.dev.fetched|, q.dev.posted)
  }

  // ----- commands the controller has or will see -----

  /** How many commands the controller finds waiting: the doorbell counts modulo the
      depth of the queue. */
  function Waiting(q: Queue): nat {
    (|q.submitted| - |q.dev.fetched|) % QDEPTH
  }

  /** The commands fetched, in order, and behind them those waiting. */
  function Jobs(q: Queue): (jobs: seq<Cmd>)
    ensures q.dev.fetched <= jobs
  {
    JobsOf(q.dev.fetched, q.submitted)
  }

  function JobsOf(fetched: seq<Cmd>, submitted: seq<Cmd>): (jobs: seq<Cmd>)
    ensures fetched <= jobs
  {
    var w := (|submitted| - |fetched|) % QDEPTH;
    fetched + if w <= |submitted| then submitted[|submitted| - w..] else []
  }

  /** One slot of the submission queue has to stay open. */
  predicate HasRoom(q: Queue) {
    Waiting(q) < QDEPTH - 1
  }

  /** No submitted command was lost to the controller. */
  predicate NothingLost(q: Queue) {
    Jobs(q) == q.submitted
  }

  // ----- modular arithmetic of the rings -----

  lemma NextSlot(n: nat)
    ensures (n + 1) % QDEPTH == (n % QDEPTH + 1) % QDEPTH
    ensures PhaseOf(n + 1) == if (n + 1) % QDEPTH == 0 then 1 - PhaseOf(n) else PhaseOf(n)
  {
    var lap, at := n / QDEPTH, n % QDEPTH;
    assert n == lap * QDEPTH + at;
    if at + 1 == QDEPTH {
      assert n + 1 == (lap + 1) * QDEPTH;
      assert (n + 1) / QDEPTH == lap + 1;
    } else {
      assert n + 1 == lap * QDEPTH + (at + 1);
      assert (n + 1) / QDEPTH == lap;
    }
  }

  lemma SameSlot(s: nat, f: nat)
    requires f <= s
    ensures var w := (s - f) % QDEPTH;
            w <= s - f && (s - w) % QDEPTH == f % QDEPTH && (w > 0 <==> s % QDEPTH != f % QDEPTH)
  {
    var w, laps := (s - f) % QDEPTH, (s - f) / QDEPTH;
    assert s - f == laps * QDEPTH + w;
    assert s - w == f + laps * QDEPTH;
  }

  lemma PreviousLap(n: nat)
    requires QDEPTH <= n
    ensures (n - QDEPTH) % QDEPTH == n % QDEPTH && PhaseOf(n - QDEPTH) == 1 - PhaseOf(n)
  {
    assert (n - QDEPTH) / QDEPTH == n / QDEPTH - 1;
  }

  // ----- every step keeps the invariant -----

  lemma StartInv(disk: Disk, memory: Memory)
    ensures Inv(Start(disk, memory)) && NothingLost(Start(disk, memory))
  {
  }

  lemma SubmitKeepsCommands(sq: seq<Cmd>, submitted: seq<Cmd>, c: Cmd)
    requires Commands(sq, submitted) && c.cid == CidOf(|submitted|)
    ensures Commands(sq[|submitted| % QDEPTH := c], submitted + [c])
  {
    var sq', submitted' := sq[|submitted| % QDEPTH := c], submitted + [c];
    forall k | 0 <= k < |submitted'| && |submitted'| - QDEPTH <= k
      ensures sq'[k % QDEPTH] == submitted'[k]
    {
      if k < |submitted| {
        Bits.SlotsDiffer(k, |submitted|, QDEPTH);
      }
    }
  }

  lemma NextCid(n: nat)
    ensures CidOf(n + 1) == (CidOf(n) + 1) % CID_LIMIT
  {
  }

  lemma CommandsSized(q: Queue)
    requires Inv(q)
    ensures |q.sq| == QDEPTH && |q.cq| == QDEPTH
  {
  }

  lemma SubmitKeepsInv(q: Queue, cmd: Cmd)
    requires Inv(q)
    ensures Inv(Submit(q, cmd))
  {
    CommandsSized(q);
    hide Commands, Completions, Answers, PhaseOf, CidOf;
    SubmitKeepsCommands(q.sq, q.submitted, cmd.(cid := q.cid));
    NextSlot(|q.submitted|);
    NextCid(|q.submitted|);
  }

  lemma WaitingGrows(s: nat, f: nat)
    requires f <= s
    ensures (s + 1 - f) % QDEPTH == if (s - f) % QDEPTH == QDEPTH - 1 then 0 else (s - f) % QDEPTH + 1
  {
    NextSlot(s - f);
  }

  lemma JobsAppend(fetched: seq<Cmd>, submitted: seq<Cmd>, c: Cmd)
    requires |fetched| <= |submitted|
    ensures JobsOf(fetched, submitted + [c]) ==
            if (|submitted| - |fetched|) % QDEPTH < QDEPTH - 1 then JobsOf(fetched, submitted) + [c] else fetched
  {
    var s, w := |submitted|, (|submitted| - |fetched|) % QDEPTH;
    SameSlot(s, |fetched|);
    WaitingGrows(s, |fetched|);
    assert w < QDEPTH - 1 ==> (submitted + [c])[s - w..] == submitted[s - w..] + [c];
  }

  /** With room a submit adds a job; without it the tail catches up with the
      controller's head, and everything that waited is lost with the new command. */
  lemma SubmitJobs(q: Queue, cmd: Cmd)
    requires Inv(q)
    ensures |q.sq| == QDEPTH
    ensures Jobs(Submit(q, cmd)) == if HasRoom(q) then Jobs(q) + [cmd.(cid := q.cid)] else q.dev.fetched
  {
    JobsAppend(q.dev.fetched, q.submitted, cmd.(cid := q.cid));
  }

  /** The driver never asks whether there is room, and its submits lose nothing
      exactly when there is. */
  lemma SubmitLosesNothingIff(q: Queue, cmd: Cmd)
    requires Inv(q) && NothingLost(q)
    ensures |q.sq| == QDEPTH && (NothingLost(Submit(q, cmd)) <==> HasRoom(q))
  {
    SubmitJobs(q, cmd);
  }

  /** Without room sixteen commands wait, and the controller sees an empty queue. */
  lemma SubmitWithoutRoomIsMissed(q: Queue, cmd: Cmd)
    requires Inv(q) && !HasRoom(q)
    ensures |q.sq| == QDEPTH
    ensures var q' := Submit(q, cmd);
            Waiting(q') == 0 && !Enabled(q'.dev, Fetch) && |Jobs(q')| + QDEPTH - 1 == |Jobs(q)|
  {
    SubmitJobs(q, cmd);
    SubmitKeepsInv(q, cmd);
    SameSlot(|q.submitted| + 1, |q.dev.fetched|);
    SameSlot(|q.submitted|, |q.dev.fetched|);
    WaitingGrows(|q.submitted|, |q.dev.fetched|);
  }

  lemma TakeKeepsInv(q: Queue)
    requires Inv(q) && q.taken < |q.dev.posted|
    ensures Inv(Take(q))
  {
    NextSlot(q.taken);
  }

  lemma SlotOfNextJob(sq: seq<Cmd>, submitted: seq<Cmd>, f: nat)
    requires Commands(sq, submitted) && f <= |submitted| && |submitted| % QDEPTH != f % QDEPTH
    ensures var w := (|submitted| - f) % QDEPTH;
            0 < w <= |submitted| && sq[f % QDEPTH] == submitted[|submitted| - w]
  {
    SameSlot(|submitted|, f);
  }

  lemma NextJobMovesOver(sq: seq<Cmd>, fetched: seq<Cmd>, submitted: seq<Cmd>)
    requires Commands(sq, submitted) && |fetched| <= |submitted| && |submitted| % QDEPTH != |fetched| % QDEPTH
    ensures |sq| == QDEPTH && (|submitted| - |fetched|) % QDEPTH > 0
    ensures JobsOf(fetched + [sq[|fetched| % QDEPTH]], submitted) == JobsOf(fetched, submitted)
  {
    var s, f := |submitted|, |fetched|;
    var w := (s - f) % QDEPTH;
    SlotOfNextJob(sq, submitted, f);
    hide Commands;
    WaitingGrows(s, f + 1);
    assert submitted[s - w..] == [submitted[s - w]] + submitted[s - (w - 1)..];
  }

  /** What is fetched is the next job. */
  lemma FetchTakesNextJob(q: Queue)
    requires Inv(q) && Enabled(q.dev, Fetch)
    ensures |q.sq| == |q.cq| == QDEPTH && Waiting(q) > 0 && Jobs(DeviceStep(q, Fetch)) == Jobs(q)
  {
    NextJobMovesOver(q.sq, q.dev.fetched, q.submitted);
  }

  lemma FetchKeepsInv(q: Queue)
    requires Inv(q) && Enabled(q.dev, Fetch)
    ensures |q.sq| == |q.cq| == QDEPTH && Inv(DeviceStep(q, Fetch))
  {
    FetchTakesNextJob(q);
    SameSlot(|q.submitted|, |q.dev.fetched|);
    NextSlot(|q.dev.fetched|);
    hide Commands;
  }

  /** The controller's own full test keeps at most fifteen entries untaken. */
  lemma NotFull(posted: nat, taken: nat)
    requires taken <= posted <= taken + QDEPTH - 1
    ensures (posted % QDEPTH + 1) % QDEPTH != taken % QDEPTH <==> posted < taken + QDEPTH - 1
  {
    NextSlot(posted);
    if posted + 1 < taken + QDEPTH {
      Bits.SlotsDiffer(taken, posted + 1, QDEPTH);
    } else {
      PreviousLap(posted + 1);
    }
  }

  lemma CompleteKeepsEntries(q: Queue, e: Event)
    requires Inv(q) && e.Complete? && Enabled(q.dev, e)
    ensures var q' := DeviceStep(q, e);
            Completions(q'.cq, q'.dev.posted, q'.dev.fetched)
  {
    var q', fetched := DeviceStep(q, e), q.dev.fetched;
    var p := |q.dev.posted|;
    forall n | 0 <= n <= p && p + 1 - QDEPTH <= n
      ensures q'.cq[n % QDEPTH] == EntryOf(fetched, q'.dev.posted[n], n)
    {
      if n < p {
        Bits.SlotsDiffer(n, p, QDEPTH);
        assert q.cq[n % QDEPTH] == EntryOf(fetched, q.dev.posted[n], n);
      }
    }
    forall n | p < n < QDEPTH
      ensures q'.cq[n].status % 2 == 0
    {
      assert q'.cq[n] == q.cq[n];
    }
  }

  lemma CompleteKeepsCounters(q: Queue, e: Event)
    requires Counters(q) && |q.cq| == |q.sq| == QDEPTH && e.Complete? && Enabled(q.dev, e)
    ensures Counters(DeviceStep(q, e))
  {
    NotFull(|q.dev.posted|, q.taken);
    NextSlot(|q.dev.posted|);
  }

  lemma CompleteKeepsInv(q: Queue, e: Event)
    requires Inv(q) && e.Complete? && Enabled(q.dev, e)
    ensures Inv(DeviceStep(q, e))
  {
    hide Completions, Counters;
    CommandsSized(q);
    CompleteKeepsEntries(q, e);
    CompleteKeepsCounters(q, e);
  }

  lemma DeviceKeepsInv(q: Queue, e: Event)
    requires Inv(q) && Enabled(q.dev, e)
    ensures |q.sq| == |q.cq| == QDEPTH && Inv(DeviceStep(q, e)) && Jobs(DeviceStep(q, e)) == Jobs(q)
  {
    match e
    case Fetch =>
      FetchKeepsInv(q);
      FetchTakesNextJob(q);
    case Work(_, _, _) =>
    case Complete(_, _, _, _) => CompleteKeepsInv(q, e);
  }

  // ----- whole runs -----

  datatype Step = DriverSubmits(cmd: Cmd) | DriverTakes | DeviceActs(event: Event)

  /** The driver takes only what its phase test shows it, and submits whenever it
      likes. */
  ghost predicate Allowed(q: Queue, step: Step)
    requires |q.sq| == QDEPTH && |q.cq| == QDEPTH
  {
    match step
    case DriverSubmits(_) => true
    case DriverTakes => Seen(q)
    case DeviceActs(e) => Enabled(q.dev, e)
  }

  ghost function After(q: Queue, step: Step): Queue
    requires |q.sq| == QDEPTH && |q.cq| == QDEPTH && Allowed(q, step)
  {
    match step
    case DriverSubmits(cmd) => Submit(q, cmd)
    case DriverTakes => Take(q)
    case DeviceActs(e) => DeviceStep(q, e)
  }

  ghost predicate IsRun(states: seq<Queue>, steps: seq<Step>) {
    && |states| == |steps| + 1
    && (exists d, m :: states[0] == Start(d, m))
    && (forall i :: 0 <= i < |steps| ==> Moves(states[i], steps[i], states[i + 1]))
  }

  ghost predicate Moves(q: Queue, step: Step, q': Queue) {
    |q.sq| == QDEPTH && |q.cq| == QDEPTH && Allowed(q, step) && q' == After(q, step)
  }

  /** The phase test is exact: it is true precisely when the controller has posted
      a completion the driver has not taken, and then the head slot holds the
      oldest such completion. */
  lemma SeenIffPosted(q: Queue)
    requires Inv(q)
    ensures Seen(q) <==> q.taken < |q.dev.posted|
    ensures Seen(q) ==> q.cq[q.head] == EntryOf(q.dev.fetched, q.dev.posted[q.taken], q.taken)
  {
    hide Commands, Answers, PhaseOf, EntryOf;
    var posted, fetched := q.dev.posted, q.dev.fetched;
    if q.taken < |posted| {
      assert q.cq[q.taken % QDEPTH] == EntryOf(fetched, posted[q.taken], q.taken);
      EntryPhase(fetched, posted[q.taken], q.taken);
    } else if QDEPTH <= q.taken {
      PreviousLap(q.taken);
      var n := q.taken - QDEPTH;
      assert q.cq[n % QDEPTH] == EntryOf(fetched, posted[n], n);
      EntryPhase(fetched, posted[n], n);
    } else {
      FirstLap(q.taken);
    }
  }

  lemma TakenWerePosted(q: Queue)
    requires Inv(q)
    ensures q.taken <= |q.dev.posted|
  {
  }

  lemma EntryPhase(fetched: seq<Cmd>, p: Post, n: nat)
    requires p.index < |fetched| && p.code < CID_LIMIT / 2
    ensures EntryOf(fetched, p, n).status % 2 == PhaseOf(n) && EntryOf(fetched, p, n).status / 2 == p.code
  {
  }

  lemma FirstLap(n: nat)
    requires n < QDEPTH
    ensures n % QDEPTH == n && PhaseOf(n) == 1
  {
  }

  lemma MoveKeepsInv(q: Queue, step: Step, q': Queue)
    requires Inv(q) && Moves(q, step, q')
    ensures Inv(q')
    ensures NothingLost(q) && (step.DriverSubmits? ==> HasRoom(q)) ==> NothingLost(q')
  {
    hide Counters, Commands, Completions, Answers;
    match step
    case DriverSubmits(cmd) =>
      SubmitKeepsInv(q, cmd);
      SubmitJobs(q, cmd);
    case DriverTakes =>
      SeenIffPosted(q);
      TakeKeepsInv(q);
    case DeviceActs(e) => DeviceKeepsInv(q, e);
  }

  /** Every submit before step `i` found room. */
  ghost predicate RoomyUpTo(states: seq<Queue>, steps: seq<Step>, i: nat)
    requires i <= |steps| < |states|
  {
    forall j :: 0 <= j < i && steps[j].DriverSubmits? ==> HasRoom(states[j])
  }

  lemma {:induction false} RunKeepsInv(states: seq<Queue>, steps: seq<Step>, i: nat)
    requires IsRun(states, steps) && i < |states|
    ensures Inv(states[i]) && (RoomyUpTo(states, steps, i) ==> NothingLost(states[i]))
  {
    hide Inv, NothingLost, HasRoom;
    if i == 0 {
      var d, m :| states[0] == Start(d, m);
      StartInv(d, m);
    } else {
      RunKeepsInv(states, steps, i - 1);
      assert Moves(states[i - 1], steps[i - 1], states[i - 1 + 1]);
      MoveKeepsInv(states[i - 1], steps[i - 1], states[i]);
    }
  }

  /** Main result on laps: in every state of every run, after k completions taken
      the head is k mod 16 and the phase that of lap k / 16, and what the driver sees
      next is exactly the k-th completion posted. As long as submits find room, what
      the controller works on are the commands submitted, in their order. */
  lemma NthTakenIsNthPosted(states: seq<Queue>, steps: seq<Step>, i: nat)
    requires IsRun(states, steps) && i < |states|
    ensures var q := states[i];
            && q.head == q.taken % QDEPTH && q.phase == 1 - (q.taken / QDEPTH) % 2
            && |q.cq| == QDEPTH && (Seen(q) <==> q.taken < |q.dev.posted|)
            && (Seen(q) ==>
                  var p := q.dev.posted[q.taken];
                  p.index < |q.dev.fetched| && q.cq[q.head].cid == q.dev.fetched[p.index].cid &&
                  q.cq[q.head].status / 2 == p.code)
            && (RoomyUpTo(states, steps, i) ==> q.dev.fetched <= q.submitted)
  {
    var q := states[i];
    RunKeepsInv(states, steps, i);
    SeenIffPosted(q);
    if q.taken < |q.dev.posted| {
      EntryPhase(q.dev.fetched, q.dev.posted[q.taken], q.taken);
    }
  }

  // ----- the command identifier -----

  /** The driver rings the head doorbell before it reads the entry's command
      identifier. The entry is still there: a full completion queue keeps one slot
      open, so sixteen further posts never happen. */
  lemma EntryOutlivesDoorbell(q: Queue, n: nat)
    requires Inv(q) && q.taken == n + 1
    ensures q.cq[n % QDEPTH] == EntryOf(q.dev.fetched, q.dev.posted[n], n)
  {
    assert 0 <= n < |q.dev.posted| && |q.dev.posted| - QDEPTH <= n;
  }

  /** `r` is what the controller makes of `q` by acting alone. */
  ghost predicate DeviceRun(q: Queue, events: seq<Event>, r: Queue)
    decreases |events|
  {
    if events == [] then r == q
    else |q.sq| == QDEPTH && |q.cq| == QDEPTH && Enabled(q.dev, events[0]) &&
         DeviceRun(DeviceStep(q, events[0]), events[1..], r)
  }

  lemma {:induction false} DeviceRunKeepsInv(q: Queue, events: seq<Event>, r: Queue)
    requires Inv(q) && DeviceRun(q, events, r)
    ensures Inv(r) && r.taken == q.taken && r.submitted == q.submitted && q.dev.posted <= r.dev.posted
    ensures Jobs(r) == Jobs(q) && q.dev.fetched <= r.dev.fetched
    ensures |r.dev.disk| == |q.dev.disk| && r.dev.memory.Keys == q.dev.memory.Keys
    decreases |events|
  {
    hide Counters, Commands, Completions, Answers, Jobs;
    if events != [] {
      DeviceKeepsInv(q, events[0]);
      DeviceRunKeepsInv(DeviceStep(q, events[0]), events[1..], r);
    }
  }

  /** `q` has submitted last; the head entry is new, says success and carries that
      command's identifier, so the submit is about to return 0. */
  predicate WouldReturnZero(q: Queue) {
    && |q.cq| == QDEPTH && |q.submitted| > 0
    && Seen(q) && q.cq[q.head].cid == q.submitted[|q.submitted| - 1].cid && q.cq[q.head].status / 2 == 0
  }

  /** The completion to be taken next is not that of job `own`. */
  predicate NextIsAnother(q: Queue, own: nat) {
    q.taken < |q.dev.posted| && q.dev.posted[q.taken].index != own
  }

  /** Some behaviour of the controller makes the next submit return 0 for another
      command's completion. */
  ghost predicate CanMistake(q: Queue, cmd: Cmd)
    requires |q.sq| == QDEPTH
  {
    exists events: seq<Event>, r: Queue ::
      DeviceRun(Submit(q, cmd), events, r) && WouldReturnZero(r) && NextIsAnother(r, |Jobs(q)|)
  }

  predicate Feasible(c: Cmd, disk: Disk, memory: Memory) {
    c.prp1 in memory && Blocks(c) <= SECTORS_PER_PAGE && Lba(c) + Blocks(c) <= |disk|
  }

  predicate CanSucceed(q: Queue, i: nat) {
    i < |q.dev.fetched| && Feasible(q.dev.fetched[i], q.dev.disk, q.dev.memory)
  }

  predicate HasNextId(q: Queue, i: nat) {
    i < |q.dev.fetched| && q.dev.fetched[i].cid == q.cid
  }

  /** An old command with the next identifier may answer first: it is the next
      completion already waiting, or none waits and it is still in flight. */
  ghost predicate OldCommandInTheWay(q: Queue) {
    if q.taken < |q.dev.posted| then
      q.dev.posted[q.taken].code == 0 && HasNextId(q, q.dev.posted[q.taken].index)
    else
      exists i :: i in q.dev.inflight && HasNextId(q, i) && CanSucceed(q, i)
  }

  lemma FeasibleIsDoable(c: Cmd, d: Disk, m: Memory) returns (d': Disk, m': Memory)
    requires Feasible(c, d, m)
    ensures Done(c, d, m, d', m')
  {
    d', m' := d, m;
    var lba, n, page := Lba(c), Blocks(c), m[c.prp1];
    if c.opcode == OP_WRITE {
      d' := d[..lba] + page[..n] + d[lba + n..];
      assert d'[lba..lba + n] == page[..n];
    } else {
      var p: Page := d[lba..lba + n] + page[n..];
      m' := m[c.prp1 := p];
      assert p[..n] == d[lba..lba + n];
    }
  }

  /** Where the completion the driver takes next came from, after any behaviour of
      the controller. */
  lemma {:induction false} OriginOfNext(q: Queue, events: seq<Event>, r: Queue)
    requires Inv(q) && DeviceRun(q, events, r) && q.taken == |q.dev.posted| < |r.dev.posted|
    ensures var p := r.dev.posted[q.taken];
            if p.index in q.dev.inflight then p.code == 0 ==> CanSucceed(q, p.index)
            else |q.dev.fetched| <= p.index < |Jobs(q)|
    decreases |events|
  {
    var q1 := DeviceStep(q, events[0]);
    DeviceKeepsInv(q, events[0]);
    DeviceRunKeepsInv(q1, events[1..], r);
    hide Completions, Commands, Counters, Jobs;
    if !events[0].Complete? {
      OriginOfNext(q1, events[1..], r);
    }
  }

  lemma OldCommandAnswers(q: Queue, i: nat, own: nat, d: Disk, m: Memory)
    requires Inv(q) && q.taken == |q.dev.posted| && |q.submitted| > 0
    requires i in q.dev.inflight && i < |q.dev.fetched| && i != own
    requires q.dev.fetched[i].cid == CidOf(|q.submitted| - 1)
    requires Done(q.dev.fetched[i], q.dev.disk, q.dev.memory, d, m)
    ensures exists events: seq<Event>, r: Queue ::
              DeviceRun(q, events, r) && WouldReturnZero(r) && NextIsAnother(r, own)
  {
    var e := Complete(i, 0, d, m);
    NotFull(|q.dev.posted|, q.taken);
    var q2 := DeviceStep(q, e);
    DeviceKeepsInv(q, e);
    SeenIffPosted(q2);
    assert [e][1..] == [];
    assert DeviceRun(q2, [], q2) && DeviceRun(q, [e], q2);
    assert WouldReturnZero(q2) && NextIsAnother(q2, own);
  }

  lemma OldCommandFools(q: Queue, cmd: Cmd)
    requires Inv(q) && OldCommandInTheWay(q)
    ensures |q.sq| == QDEPTH && CanMistake(q, cmd)
  {
    var q1 := Submit(q, cmd);
    SubmitKeepsInv(q, cmd);
    if q.taken < |q.dev.posted| {
      SeenIffPosted(q1);
      assert DeviceRun(q1, [], q1) && WouldReturnZero(q1) && NextIsAnother(q1, |Jobs(q)|);
    } else {
      var i :| i in q.dev.inflight && HasNextId(q, i) && CanSucceed(q, i);
      var d, m := FeasibleIsDoable(q.dev.fetched[i], q.dev.disk, q.dev.memory);
      OldCommandAnswers(q1, i, |Jobs(q)|, d, m);
    }
  }

  lemma CidsDiffer(i: nat, k: nat)
    requires i < k < i + CID_LIMIT
    ensures CidOf(i) != CidOf(k)
  {
  }

  /** Of the commands the controller has not fetched yet, none has the next
      identifier. */
  lemma WaitingIdsDiffer(q: Queue, i: nat)
    requires Inv(q) && |q.dev.fetched| <= i < |Jobs(q)|
    ensures Jobs(q)[i].cid != q.cid
  {
    var k := |q.submitted| - Waiting(q) + (i - |q.dev.fetched|);
    CidsDiffer(k, |q.submitted|);
    assert Jobs(q)[i] == q.submitted[k];
  }

  lemma ZeroNamesACommand(r: Queue)
    requires Inv(r) && WouldReturnZero(r)
    ensures r.taken < |r.dev.posted| && r.dev.posted[r.taken].code == 0 && r.dev.posted[r.taken].index < |r.dev.fetched|
    ensures r.dev.fetched[r.dev.posted[r.taken].index].cid == CidOf(|r.submitted| - 1)
  {
    SeenIffPosted(r);
    EntryPhase(r.dev.fetched, r.dev.posted[r.taken], r.taken);
  }

  lemma OnlyOldCommandsFool(q: Queue, cmd: Cmd, events: seq<Event>, r: Queue)
    requires Inv(q) && |q.sq| == QDEPTH && DeviceRun(Submit(q, cmd), events, r) && WouldReturnZero(r)
    ensures q.taken < |r.dev.posted| && r.dev.posted[q.taken].index < |r.dev.fetched|
    ensures r.dev.posted[q.taken] == Post(|Jobs(q)|, 0) || OldCommandInTheWay(q)
    ensures r.dev.posted[q.taken].index == |Jobs(q)| ==> r.dev.fetched[|Jobs(q)|] == cmd.(cid := q.cid)
  {
    var q1 := Submit(q, cmd);
    SubmitKeepsInv(q, cmd);
    SubmitJobs(q, cmd);
    DeviceRunKeepsInv(q1, events, r);
    ZeroNamesACommand(r);
    assert q.cid == CidOf(|q.submitted|) && |q.dev.posted| >= q.taken;
    assert forall n :: 0 <= n < |q.dev.posted| ==> q.dev.posted[n].index < |q.dev.fetched|;
    hide Inv, DeviceRun, Jobs, WouldReturnZero;
    var i := r.dev.posted[q.taken].index;
    assert r.dev.fetched[i] == Jobs(r)[i];
    if q.taken == |q.dev.posted| {
      OriginOfNext(q1, events, r);
      if i !in q.dev.inflight && i < |Jobs(q)| {
        WaitingIdsDiffer(q, i);
      }
    }
  }

  /** A submit can be fooled exactly when an old command is in the way. */
  lemma MistakenIffOldCommandInTheWay(q: Queue, cmd: Cmd)
    requires Inv(q)
    ensures |q.sq| == QDEPTH && (CanMistake(q, cmd) <==> OldCommandInTheWay(q))
  {
    CommandsSized(q);
    hide Inv, DeviceRun, WouldReturnZero, OldCommandInTheWay, Jobs;
    if OldCommandInTheWay(q) {
      OldCommandFools(q, cmd);
    }
    if CanMistake(q, cmd) {
      var events: seq<Event>, r: Queue :|
        DeviceRun(Submit(q, cmd), events, r) && WouldReturnZero(r) && NextIsAnother(r, |Jobs(q)|);
      SubmitKeepsInv(q, cmd);
      DeviceRunKeepsInv(Submit(q, cmd), events, r);
      OnlyOldCommandsFool(q, cmd, events, r);
    }
  }

  /** Main result on identifiers: unless an old command is in the way, a submit
      that returns 0 has been told of the success of that very command. */
  lemma ZeroMeansOwnSuccess(q: Queue, cmd: Cmd, events: seq<Event>, r: Queue)
    requires Inv(q) && !OldCommandInTheWay(q)
    requires |q.sq| == QDEPTH && DeviceRun(Submit(q, cmd), events, r) && WouldReturnZero(r)
    ensures q.taken < |r.dev.posted| && r.dev.posted[q.taken] == Post(|Jobs(q)|, 0)
    ensures |Jobs(q)| < |r.dev.fetched| && r.dev.fetched[|Jobs(q)|] == cmd.(cid := q.cid)
  {
    OnlyOldCommandsFool(q, cmd, events, r);
  }

  /** Job `i` has no answer yet. */
  predicate Pending(q: Queue, i: int) {
    0 <= i < |Jobs(q)| && (i in q.dev.inflight || |q.dev.fetched| <= i)
  }

  /** The identifier of `c` does not come round within `more` submits. */
  predicate NotSoon(q: Queue, c: Cmd, more: nat) {
    more <= (c.cid - q.cid) % CID_LIMIT
  }

  /** None of the next `more` identifiers is that of a command unanswered or
      untaken. */
  predicate FreshIds(q: Queue, more: nat) {
    && (forall i :: 0 <= i < |Jobs(q)| && Pending(q, i) ==> NotSoon(q, Jobs(q)[i], more))
    && (forall n :: 0 <= n < |q.dev.posted| && q.taken <= n && q.dev.posted[n].index < |q.dev.fetched| ==>
          NotSoon(q, q.dev.fetched[q.dev.posted[n].index], more))
  }

  lemma FreshIdsNeverInTheWay(q: Queue)
    requires Inv(q) && FreshIds(q, 1)
    ensures !OldCommandInTheWay(q)
  {
    hide Commands, Answers;
    forall i: nat | i in q.dev.inflight && i < |q.dev.fetched|
      ensures !HasNextId(q, i)
    {
      assert Pending(q, i) && NotSoon(q, Jobs(q)[i], 1);
    }
    if q.taken < |q.dev.posted| {
      assert NotSoon(q, q.dev.fetched[q.dev.posted[q.taken].index], 1);
    }
  }

  /** `c` is one of the latest 65535 submitted. */
  ghost predicate IsRecent(q: Queue, c: Cmd) {
    exists k :: 0 <= k < |q.submitted| < k + CID_LIMIT && q.submitted[k] == c
  }

  /** Identifiers repeat after 65536 submits, so nothing is in the way while every
      command unanswered or untaken is among the latest 65535. */
  lemma RecentCommandsNeverInTheWay(q: Queue)
    requires Inv(q)
    requires forall i :: i in q.dev.inflight && i < |q.dev.fetched| ==> IsRecent(q, q.dev.fetched[i])
    requires forall n :: q.taken <= n < |q.dev.posted| && q.dev.posted[n].index < |q.dev.fetched| ==>
               IsRecent(q, q.dev.fetched[q.dev.posted[n].index])
    ensures !OldCommandInTheWay(q)
  {
    hide Completions, Answers;
    forall c | IsRecent(q, c)
      ensures c.cid != q.cid
    {
      var k :| 0 <= k < |q.submitted| < k + CID_LIMIT && q.submitted[k] == c;
      CidsDiffer(k, |q.submitted|);
    }
  }

  // ----- an identifier does come round -----

  ghost predicate Reachable(q: Queue) {
    exists states, steps :: IsRun(states, steps) && states[|steps|] == q
  }

  lemma ReachableStep(q: Queue, step: Step, q': Queue)
    requires Reachable(q) && Moves(q, step, q')
    ensures Reachable(q')
  {
    var states, steps :| IsRun(states, steps) && states[|steps|] == q;
    var states', steps' := states + [q'], steps + [step];
    assert states'[0] == states[0];
    forall i | 0 <= i < |steps'|
      ensures Moves(states'[i], steps'[i], states'[i + 1])
    {
      assert i < |steps| ==> Moves(states[i], steps[i], states[i + 1]);
    }
    assert IsRun(states', steps') && states'[|steps'|] == q';
  }

  lemma StartIsReachable(d: Disk, m: Memory)
    ensures Reachable(Start(d, m)) && Inv(Start(d, m))
  {
    StartInv(d, m);
    var q, none: seq<Step> := Start(d, m), [];
    assert IsRun([q], none) && [q][|none|] == q;
  }

  /** Command 0 hangs in the controller; of those after it, all but the last
      `more` came and went. */
  ghost predicate FirstHangs(q: Queue, c: Cmd, n: nat, more: set<nat>) {
    && Reachable(q) && Inv(q) && |q.submitted| == |q.dev.fetched| == n
    && q.taken == |q.dev.posted| && q.dev.inflight == {0} + more
    && n > 0 && q.dev.fetched[0] == c && c.cid == CidOf(0) && Feasible(c, q.dev.disk, q.dev.memory)
  }

  /** The driver submits, and the controller fetches at once. */
  lemma SubmitAndFetch(q: Queue, cmd: Cmd) returns (q': Queue)
    requires Reachable(q) && Inv(q) && |q.submitted| == |q.dev.fetched|
    ensures Reachable(q') && Inv(q') && |q'.submitted| == |q'.dev.fetched| == |q.submitted| + 1
    ensures q'.submitted == q.submitted + [cmd.(cid := q.cid)]
    ensures q'.dev.fetched == q.dev.fetched + [cmd.(cid := q.cid)]
    ensures q'.dev.inflight == q.dev.inflight + {|q.dev.fetched|} && q'.taken == q.taken && q'.dev.posted == q.dev.posted
    ensures q'.dev.disk == q.dev.disk && q'.dev.memory == q.dev.memory
  {
    CommandsSized(q);
    var n, q1 := |q.submitted|, Submit(q, cmd);
    SubmitKeepsInv(q, cmd);
    ReachableStep(q, DriverSubmits(cmd), q1);
    Bits.SlotsDiffer(n, n + 1, QDEPTH);
    assert q1.sq[q1.dev.sqHead] == cmd.(cid := q.cid);
    hide Commands, Completions, Answers, Reachable;
    q' := DeviceStep(q1, Fetch);
    DeviceKeepsInv(q1, Fetch);
    ReachableStep(q1, DeviceActs(Fetch), q');
  }

  lemma OneMoreComes(q: Queue, c: Cmd, n: nat) returns (q': Queue)
    requires FirstHangs(q, c, n, {})
    ensures FirstHangs(q', c, n + 1, {n})
  {
    q' := SubmitAndFetch(q, NoCmd);
  }

  lemma ItGoes(q: Queue, c: Cmd, n: nat) returns (q': Queue)
    requires n > 0 && FirstHangs(q, c, n + 1, {n})
    ensures FirstHangs(q', c, n + 1, {})
  {
    NotFull(|q.dev.posted|, q.taken);
    var e := Complete(n, 1, q.dev.disk, q.dev.memory);
    var q1 := DeviceStep(q, e);
    DeviceKeepsInv(q, e);
    ReachableStep(q, DeviceActs(e), q1);
    SeenIffPosted(q1);
    q' := Take(q1);
    TakeKeepsInv(q1);
    ReachableStep(q1, DriverTakes, q');
  }

  lemma FirstCommandHangs() returns (q: Queue, c: Cmd)
    ensures FirstHangs(q, c, 1, {}) && c.opcode == OP_READ && q.submitted == [c]
  {
    var sector: Sector := seq(512, _ => 0 as Byte);
    var page: Page := seq(SECTORS_PER_PAGE, _ => sector);
    var q0 := Start([sector], map[1 := page]);
    c := Cmd(OP_READ, 1, 1, 1, 0, 0, 0);
    StartIsReachable([sector], map[1 := page]);
    hide Inv, Reachable;
    q := SubmitAndFetch(q0, c);
  }

  lemma {:induction false} FirstHangsFor(n: nat) returns (q: Queue, c: Cmd)
    requires n > 0
    ensures FirstHangs(q, c, n, {})
  {
    if n == 1 {
      q, c := FirstCommandHangs();
    } else {
      q, c := FirstHangsFor(n - 1);
      q := OneMoreComes(q, c, n - 1);
      q := ItGoes(q, c, n - 1);
    }
  }

  /** A reachable state in which the driver's next submit can be fooled: one
      command hangs while 65535 others are answered. The driver keeps no record
      that its identifier is still in use. */
  lemma IdentifierReuseIsReachable()
    ensures exists q :: Reachable(q) && Inv(q) && HasRoom(q) && OldCommandInTheWay(q) && q.dev.inflight == {0}
  {
    var q, c := FirstHangsFor(CID_LIMIT);
    assert 0 in q.dev.inflight && CanSucceed(q, 0);
    assert HasNextId(q, 0);
    assert OldCommandInTheWay(q);
  }

  // ----- the room does run out -----

  lemma {:induction false} OnlySubmits(n: nat) returns (q: Queue)
    requires n < QDEPTH
    ensures Reachable(q) && Inv(q) && |q.submitted| == n && q.dev.fetched == []
  {
    if n == 0 {
      q := Start([], map[]);
      StartIsReachable([], map[]);
    } else {
      var before := OnlySubmits(n - 1);
      SubmitKeepsInv(before, NoCmd);
      q := Submit(before, NoCmd);
      ReachableStep(before, DriverSubmits(NoCmd), q);
    }
  }

  /** Fifteen submits to a controller that hangs use up the room, and nothing in the
      driver stops the sixteenth. */
  lemma NoRoomIsReachable()
    ensures exists q :: Reachable(q) && Inv(q) && NothingLost(q) && !HasRoom(q)
  {
    var q := OnlySubmits(QDEPTH - 1);
    assert NothingLost(q) && !HasRoom(q);
  }
}
