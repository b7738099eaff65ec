/**
  The driver side of drivers/nvme.c in place: the submission and completion rings
  as arrays, the four counters as fields, and the polling and transfer loops. The
  controller acts, any number of times and in any way it may, whenever the driver
  is not looking.
*/
module NvmeDriver {
  import opened NvmeQueue
  import opened NvmeSubmit
  import opened Prelude

  const TIMEOUT: nat := 100000  // looks at the head entry before giving up

  function IoCommand(opcode: nat, lba: U64, count: nat, page: U64): Cmd
    requires 1 <= count <= 0x1_0000
  {
    Cmd(opcode, 0, 1, page, lba % 0x1_0000_0000, lba / 0x1_0000_0000, count - 1)
  }

  /** The controller reads back the range the driver split over the command words. */
  lemma IoCommandRange(opcode: nat, lba: U64, count: nat, page: U64)
    requires 1 <= count <= 0x1_0000
    ensures Lba(IoCommand(opcode, lba, count, page)) == lba && Blocks(IoCommand(opcode, lba, count, page)) == count
    ensures IoCommand(opcode, lba, count, page).nsid == 1 && IoCommand(opcode, lba, count, page).prp1 == page
  {
  }

  // ----- flat storage -----

  predicate Within(d: Disk, lba: nat, n: nat) {
    lba + n <= |d|
  }

  /** `n` sectors from `lba`; empty when they are not all there. */
  function ReadRange(d: Disk, lba: nat, n: nat): seq<Sector> {
    if Within(d, lba, n) then d[lba..lba + n] else []
  }

  function WriteRange(d: Disk, lba: nat, data: seq<Sector>): Disk {
    if Within(d, lba, |data|) then d[..lba] + data + d[lba + |data|..] else d
  }

  /** What is written is what is read back, and nothing else moves. */
  lemma WriteThenRead(d: Disk, lba: nat, data: seq<Sector>, at: nat, n: nat)
    requires Within(d, lba, |data|)
    ensures ReadRange(WriteRange(d, lba, data), lba, |data|) == data
    ensures at + n <= lba || lba + |data| <= at ==> ReadRange(WriteRange(d, lba, data), at, n) == ReadRange(d, at, n)
  {
    var w := WriteRange(d, lba, data);
    assert w[lba..lba + |data|] == data;
    if Within(d, at, n) && (at + n <= lba || lba + |data| <= at) {
      assert w[at..at + n] == d[at..at + n];
    }
  }

  /** Outside `loose`, `d'` differs from `d` only within `n` sectors from `lba`. */
  ghost predicate ChangedWithin(d: Disk, d': Disk, lba: nat, n: nat, loose: iset<int>) {
    |d'| == |d| && forall k :: 0 <= k < |d| && !(lba <= k < lba + n) && k !in loose ==> d'[k] == d[k]
  }

  /** How many of `n` sectors a transfer changes in storage, and in the buffer. */
  function WrittenCount(opcode: nat, n: nat): nat {
    if opcode == OP_WRITE then n else 0
  }

  function ReadCount(opcode: nat, n: nat): nat {
    if opcode == OP_READ then n else 0
  }

  /** The `n` sectors from `at` have been transferred, except for those in `loose`. */
  ghost predicate ChunkCopied(opcode: nat, lba: nat, at: nat, n: nat,
                              d0: Disk, b0: seq<Sector>, d: Disk, b: seq<Sector>, loose: iset<int>)
  {
    && at + n <= |b0| == |b| && Within(d0, lba, n) && ChangedWithin(d0, d, lba, WrittenCount(opcode, n), loose)
    && ChangedWithin(b0, b, at, ReadCount(opcode, n), iset{})
    && (opcode == OP_READ ==> forall j :: at <= j < at + n && lba + j - at !in loose ==> b[j] == d0[lba + j - at])
    && (opcode == OP_WRITE ==> forall k :: lba <= k < lba + n && k !in loose ==> d[k] == b0[at + k - lba])
  }

  /** The first `at` sectors of the transfer are done: outside `loose`, storage `d`
      and buffer `b` are what one flat copy of that many sectors makes of `d0` and
      `b0`. */
  ghost predicate Copied(opcode: nat, d0: Disk, b0: seq<Sector>, lba: nat, at: nat, d: Disk, b: seq<Sector>, loose: iset<int>) {
    && at <= |b0| == |b| && (at == 0 || Within(d0, lba, at)) && ChangedWithin(d0, d, lba, WrittenCount(opcode, at), loose)
    && ChangedWithin(b0, b, 0, ReadCount(opcode, at), iset{})
    && (opcode == OP_READ ==> forall j :: 0 <= j < at && lba + j !in loose ==> b[j] == d0[lba + j])
    && (opcode == OP_WRITE ==> forall k :: lba <= k < lba + at && k !in loose ==> d[k] == b0[k - lba])
  }

  /** The transfer stopped after some whole chunks: the buffer holds what they
      brought, and a write may have touched the next chunk besides. */
  ghost predicate CopyBroken(opcode: nat, d0: Disk, b0: seq<Sector>, lba: nat, count: nat, d: Disk, b: seq<Sector>, loose: iset<int>) {
    exists at: nat, d1 ::
      && Copied(opcode, d0, b0, lba, at, d1, b, loose) && at <= count && at % 8 == 0
      && ChangedWithin(d1, d, lba + at, WrittenCount(opcode, Min(8, count - at)), loose)
  }

  lemma BufferJoined(opcode: nat, b0: seq<Sector>, b1: seq<Sector>, b2: seq<Sector>, at: nat, n: nat, count: nat)
    requires at + n <= count && (opcode == OP_READ || opcode == OP_WRITE)
    requires ChangedWithin(b0, b1, 0, ReadCount(opcode, at), iset{}) && ChangedWithin(b1, b2, at, ReadCount(opcode, n), iset{})
    ensures ChangedWithin(b0, b2, 0, ReadCount(opcode, at + n), iset{})
    ensures ChangedWithin(b0, b2, 0, ReadCount(opcode, count), iset{})
  {
  }

  lemma DiskJoined(opcode: nat, q0: Queue, q1: Queue, q2: Queue, d0: Disk, lba: nat, at: nat, n: nat, count: nat)
    requires at + n <= count && (opcode == OP_READ || opcode == OP_WRITE)
    requires LooseWithin(q0, q1, lba, WrittenCount(opcode, at)) && LooseWithin(q1, q2, lba + at, WrittenCount(opcode, n))
    requires ChangedWithin(d0, q1.dev.disk, lba, WrittenCount(opcode, at), Loose(q0))
    requires ChangedWithin(q1.dev.disk, q2.dev.disk, lba + at, WrittenCount(opcode, n), Loose(q1))
    ensures LooseWithin(q0, q2, lba, WrittenCount(opcode, at + n))
    ensures ChangedWithin(d0, q2.dev.disk, lba, WrittenCount(opcode, at + n), Loose(q0))
    ensures ChangedWithin(d0, q2.dev.disk, lba, WrittenCount(opcode, count), Loose(q0))
  {
    hide Loose;
  }

  lemma LooseStarts(q: Queue, opcode: nat, lba: nat)
    ensures LooseWithin(q, q, lba, WrittenCount(opcode, 0))
  {
  }

  lemma LessLoose(d: Disk, d': Disk, lba: nat, n: nat, loose: iset<int>, more: iset<int>)
    requires ChangedWithin(d, d', lba, n, loose) && loose <= more
    ensures ChangedWithin(d, d', lba, n, more)
  {
  }

  lemma CopiedLessLoose(opcode: nat, lba: nat, at: nat, n: nat, d0: Disk, b0: seq<Sector>, d: Disk, b: seq<Sector>,
                        loose: iset<int>, more: iset<int>)
    requires ChunkCopied(opcode, lba, at, n, d0, b0, d, b, loose) && loose <= more
    ensures ChunkCopied(opcode, lba, at, n, d0, b0, d, b, more)
  {
  }

  lemma CopyStarts(opcode: nat, d: Disk, b: seq<Sector>, lba: nat, count: nat, loose: iset<int>)
    ensures Copied(opcode, d, b, lba, 0, d, b, loose)
    ensures ChangedWithin(d, d, lba, WrittenCount(opcode, 0), loose) && ChangedWithin(b, b, 0, ReadCount(opcode, 0), iset{})
    ensures ChangedWithin(d, d, lba, WrittenCount(opcode, count), loose) && ChangedWithin(b, b, 0, ReadCount(opcode, count), iset{})
    ensures ChangedWithin(d, d, lba, WrittenCount(opcode, Min(8, count)), loose)
  {
  }

  /** A further chunk makes a flat copy a longer one. */
  lemma CopyAdvances(opcode: nat, d0: Disk, b0: seq<Sector>, lba: nat, at: nat, n: nat,
                     d1: Disk, b1: seq<Sector>, d2: Disk, b2: seq<Sector>, loose: iset<int>)
    requires opcode == OP_READ || opcode == OP_WRITE
    requires Copied(opcode, d0, b0, lba, at, d1, b1, loose) && ChunkCopied(opcode, lba + at, at, n, d1, b1, d2, b2, loose)
    ensures Copied(opcode, d0, b0, lba, at + n, d2, b2, loose)
  {
    if opcode == OP_READ {
      forall j | 0 <= j < at + n && lba + j !in loose
        ensures b2[j] == d0[lba + j]
      {
        assert at <= j ==> b2[j] == d1[lba + at + j - at];
      }
    } else {
      forall k | lba <= k < lba + at + n && k !in loose
        ensures d2[k] == b0[k - lba]
      {
      }
    }
  }

  lemma CopyBreaks(opcode: nat, d0: Disk, b0: seq<Sector>, lba: nat, at: nat, count: nat,
                   d1: Disk, b1: seq<Sector>, d2: Disk, loose: iset<int>)
    requires Copied(opcode, d0, b0, lba, at, d1, b1, loose) && at <= count && at % 8 == 0
    requires ChangedWithin(d1, d2, lba + at, WrittenCount(opcode, Min(8, count - at)), loose)
    ensures CopyBroken(opcode, d0, b0, lba, count, d2, b1, loose)
  {
  }

  /** With nothing loose a finished transfer is exactly one flat copy. */
  lemma CopiedExactly(opcode: nat, d0: Disk, b0: seq<Sector>, lba: nat, n: nat, d: Disk, b: seq<Sector>)
    requires Copied(opcode, d0, b0, lba, n, d, b, iset{}) && n > 0
    ensures Within(d0, lba, n) && n <= |b0|
    ensures opcode == OP_WRITE ==> b == b0 && d == WriteRange(d0, lba, b0[..n])
    ensures opcode == OP_READ ==> d == d0 && b == ReadRange(d0, lba, n) + b0[n..]
  {
  }

  // ----- one chunk -----

  /** The number of commands a transfer takes. */
  function Chunks(count: nat): nat {
    (count + 7) / 8
  }

  /** No page can be handed out. */
  ghost predicate NoneFree(free: set<U64>, pages: set<U64>) {
    forall p :: p in free && p in pages ==> p == 0
  }

  lemma ChunksLeft(count: nat)
    requires count > 0
    ensures var n := if count > 8 then 8 else count;
            Chunks(count) > 0 && Chunks(count - n) == Chunks(count) - 1
    ensures Chunks(0) == 0
  {
  }

  /** Filling the bounce page leaves the queue as it is. */
  lemma MemoryAside(q: Queue, m: Memory)
    ensures var r := q.(dev := q.dev.(memory := m));
            && Loose(r) == Loose(q) && LoosePages(r) == LoosePages(q) && Lag(r) == Lag(q)
            && (Inv(q) ==> Inv(r)) && forall more: nat :: FreshIds(q, more) ==> FreshIds(r, more)
  {
    var r := q.(dev := q.dev.(memory := m));
    assert Jobs(r) == Jobs(q);
    assert forall i :: Pending(r, i) <==> Pending(q, i);
  }

  lemma MemoryIsAside(q: Queue, r: Queue)
    requires r == q.(dev := q.dev.(memory := r.dev.memory))
    ensures Quiet(r) <==> Quiet(q)
  {
  }

  /** What a chunk's command may have led to. */
  lemma ChunkSubmitted(q0: Queue, q: Queue, opcode: nat, lba: U64, n: nat, page: U64, r: int, q': Queue, more: nat)
    requires Inv(q) && 1 <= n <= 8 && q == q0.(dev := q0.dev.(memory := q.dev.memory))
    requires |q.sq| == QDEPTH && Waited(Submit(q, IoCommand(opcode, lba, n, page)), q.cid, r, q')
    ensures ChangedWithin(q.dev.disk, q'.dev.disk, lba, WrittenCount(opcode, n), Loose(q))
    ensures Quiet(q0) && r == -1 ==> LastFailed(q')
    ensures q'.dev.memory.Keys == q.dev.memory.Keys && LooseWithin(q, q', lba, WrittenCount(opcode, n))
    ensures r == 0 && FreshIds(q, more + 1) ==>
              FreshIds(q', more) && Loose(q') <= Loose(q) && LoosePages(q') <= LoosePages(q) && Within(q.dev.disk, lba, n)
    ensures r == 0 && FreshIds(q, 1) && page !in LoosePages(q) ==>
              Flat(IoCommand(opcode, lba, n, page).(cid := q.cid), q.dev.disk, q.dev.memory, q'.dev.disk, q'.dev.memory, Loose(q))
  {
    var c := IoCommand(opcode, lba, n, page);
    IoCommandRange(opcode, lba, n, page);
    MemoryIsAside(q0, q);
    hide Inv, Waited, Flat, OldCommandInTheWay, FreshIds, Loose, LoosePages, Submit, Quiet, LastFailed;
    if Quiet(q) {
      QuietSubmitIsExact(q, c, r, q');
    }
    SubmitSpares(q, c, r, q');
    if r == 0 && FreshIds(q, more + 1) {
      SuccessLeavesFewer(q, c, q', more);
    }
    if r == 0 && FreshIds(q, 1) && page !in LoosePages(q) {
      FreshIdsNeverInTheWay(q);
      SuccessIsFlat(q, c, r, q');
    }
  }

  /** Only `n` sectors from `lba` have become loose. */
  ghost predicate LooseWithin(q: Queue, q': Queue, lba: nat, n: nat) {
    forall k :: k in Loose(q') ==> k in Loose(q) || lba <= k < lba + n
  }

  lemma FresherStill(q: Queue, more: nat)
    requires FreshIds(q, more + 1)
    ensures FreshIds(q, 1)
  {
  }

  /** A faithful command makes a faithful chunk. */
  lemma ChunkSucceeded(opcode: nat, lba: U64, n: nat, page: U64, cid: U16, at: nat, d0: Disk, m0: Memory, d: Disk, m: Memory,
                       b0: seq<Sector>, b: seq<Sector>, loose: iset<int>)
    requires 1 <= n <= SECTORS_PER_PAGE && at + n <= |b0| && (opcode == OP_READ || opcode == OP_WRITE)
    requires Flat(IoCommand(opcode, lba, n, page).(cid := cid), d0, m0, d, m, loose)
    requires ChangedWithin(d0, d, lba, WrittenCount(opcode, n), loose) && page in m0 && page in m
    requires opcode == OP_WRITE ==> b == b0 && m0[page][..n] == b0[at..at + n]
    requires opcode == OP_READ ==> b == b0[..at] + m[page][..n] + b0[at + n..]
    ensures ChunkCopied(opcode, lba, at, n, d0, b0, d, b, loose)
  {
    var c := IoCommand(opcode, lba, n, page).(cid := cid);
    IoCommandRange(opcode, lba, n, page);
    assert Lba(c) == lba && Blocks(c) == n;
    if opcode == OP_READ {
      forall j | at <= j < at + n && lba + j - at !in loose
        ensures b[j] == d0[lba + j - at]
      {
        assert InRange(c, lba + j - at);
        assert b[j] == m[page][j - at];
      }
    } else {
      forall k | lba <= k < lba + n && k !in loose
        ensures d[k] == b0[at + k - lba]
      {
        assert InRange(c, k);
        assert m0[page][k - lba] == m0[page][..n][k - lba] == b0[at..at + n][k - lba];
      }
    }
  }

  // ----- the driver -----

  class Nvme {
    var tail: Slot
    var head: Slot
    var phase: Bit
    var cid: U16
    const sq: array<Cmd>
    const cq: array<Cqe>
    var ready: bool
    var free: set<U64>  // pages the allocator may hand out
    var dev: Device
    ghost var submitted: seq<Cmd>
    ghost var taken: nat

    ghost function View(): Queue
      reads this, sq, cq
    {
      Queue(tail, head, phase, cid, sq[..], cq[..], dev, submitted, taken)
    }

    ghost predicate Valid()
      reads this, sq, cq
    {
      sq.Length == QDEPTH && cq.Length == QDEPTH && Inv(View()) && |dev.disk| < U64_LIMIT
    }

    /** The queue state set up by `nvme_init` on a controller that came up. */
    constructor (disk: Disk, memory: Memory, pages: set<U64>)
      requires |disk| < U64_LIMIT
      ensures Valid() && fresh(sq) && fresh(cq) && ready && free == pages
      ensures Quiet(View()) && dev.disk == disk && dev.memory == memory
    {
      tail, head, phase, cid := 0, 0, 1, 1;
      sq := new Cmd[QDEPTH](_ => NoCmd);
      cq := new Cqe[QDEPTH](_ => NoCqe);
      dev := Device(0, 0, 0, 0, 1, {}, [], [], disk, memory);
      ready, free := true, pages;
      submitted, taken := [], 0;
      new;
      assert View() == Start(disk, memory);
      StartInv(disk, memory);
    }

    /** The environment: one act of the controller, if it may. */
    method ControllerActsOnce(e: Event)
      requires Valid() && Enabled(dev, e)
      modifies `dev, cq
      ensures Valid() && View() == DeviceStep(old(View()), e)
    {
      hide Inv;
      DeviceKeepsInv(View(), e);
      match e {
        case Fetch =>
          dev := dev.(sqHead := (dev.sqHead + 1) % QDEPTH, inflight := dev.inflight + {|dev.fetched|},
                      fetched := dev.fetched + [sq[dev.sqHead]]);
        case Work(_, d, m) =>
          dev := dev.(disk := d, memory := m);
        case Complete(k, code, d, m) =>
          var t := (dev.cqTail + 1) % QDEPTH;
          cq[dev.cqTail] := Cqe(dev.fetched[k].cid, 2 * code + dev.cqPhase);
          dev := dev.(cqTail := t, cqPhase := if t == 0 then 1 - dev.cqPhase else dev.cqPhase,
                      inflight := dev.inflight - {k}, posted := dev.posted + [Post(k, code)],
                      disk := d, memory := m);
      }
      assert View() == DeviceStep(old(View()), e);
    }

    /** The environment: the controller acts as often as it likes. */
    method ControllerActs()
      requires Valid()
      modifies `dev, cq
      ensures Valid() && exists events :: DeviceRun(old(View()), events, View())
    {
      ghost var q := View();
      ghost var done: seq<Event> := [];
      var n: nat := *;
      while n > 0
        invariant Valid() && DeviceRun(q, done, View())
        decreases n
      {
        var e: Event := *;
        if Enabled(dev, e) {
          ghost var before := View();
          OneEvent(before, e);
          ControllerActsOnce(e);
          DeviceRunsJoin(q, done, before, [e], View());
          done := done + [e];
        }
        n := n - 1;
      }
    }

    /** The head moves past the entry just seen, and the doorbell says so. */
    method AdvanceHead()
      requires Valid() && Seen(View())
      modifies `head, `phase, `dev, `taken
      ensures Valid() && View() == Take(old(View()))
    {
      SeenIffPosted(View());
      TakeKeepsInv(View());
      head := (head + 1) % QDEPTH;
      if head == 0 { phase := 1 - phase; }
      dev := dev.(cqDoorbell := head);
      taken := taken + 1;
      assert View() == Take(old(View()));
    }

    /** `nvme_wait_cqe`. The entry's identifier is read last, after the doorbell. */
    method WaitCqe(wanted: U16) returns (r: int, ghost looks: nat)
      requires Valid()
      modifies `head, `phase, `dev, `taken, cq
      ensures Valid() && Waited(old(View()), wanted, r, View())
      ensures taken == old(taken) ==> taken == |dev.posted| && looks == TIMEOUT
      ensures old(taken < |dev.posted|) ==> taken == old(taken) + 1
    {
      hide Inv, DeviceRun;
      ghost var q := View();
      ghost var events: seq<Event> := [];
      looks := 0;
      NoEvents(q);
      DeviceRunKeepsInv(q, events, View());
      for i := 0 to TIMEOUT
        invariant Valid() && submitted == q.submitted && taken == q.taken && looks == i
        invariant DeviceRun(q, events, View()) && |q.dev.posted| <= |dev.posted|
        invariant i > 0 ==> taken == |dev.posted|
      {
        looks := looks + 1;
        ghost var before := View();
        ControllerActs();
        ghost var more :| DeviceRun(before, more, View());
        DeviceRunsJoin(q, events, before, more, View());
        events := events + more;
        DeviceRunKeepsInv(before, more, View());
        SeenIffPosted(View());
        TakenWerePosted(View());
        if cq[head].status % 2 == phase {
          ghost var mid := View();
          var slot := head;
          var status := cq[slot].status / 2;
          AdvanceHead();
          ControllerActs();
          ghost var last :| DeviceRun(Take(mid), last, View());
          EntryStaysForJudging(mid, last, View());
          assert TookOne(q, events, mid, last, View());
          r := if cq[slot].cid == wanted && status == 0 then 0 else -1;
          return;
        }
      }
      r := -1;
    }

    /** `nvme_io_submit`: the command is built in the submission slot. */
    method IoSubmit(opcode: nat, lba: U64, count: nat, page: U64) returns (r: int)
      requires Valid() && 1 <= count <= 0x1_0000
      modifies `tail, `head, `phase, `cid, `dev, `submitted, `taken, cq, sq
      ensures Valid() && (r == 0 || r == -1)
      ensures Waited(Submit(old(View()), IoCommand(opcode, lba, count, page)), old(cid), r, View())
      ensures |submitted| == |old(submitted)| + 1 && (taken == old(taken) ==> taken == |dev.posted|)
      ensures old(taken < |dev.posted|) ==> taken == old(taken) + 1
      ensures Lag(View()) == old(Lag(View())) || (r == -1 && Lag(View()) == old(Lag(View())) + 1)
    {
      hide Inv, Waited;
      ghost var q := View();
      var id := cid;
      cid := (cid + 1) % CID_LIMIT;
      sq[tail] := Cmd(opcode, id, 1, page, lba % 0x1_0000_0000, lba / 0x1_0000_0000, count - 1);
      ghost var c := sq[tail];
      tail := (tail + 1) % QDEPTH;
      dev := dev.(sqDoorbell := tail);
      submitted := submitted + [c];
      SubmitKeepsInv(q, IoCommand(opcode, lba, count, page));
      assert View() == Submit(q, IoCommand(opcode, lba, count, page));
      ghost var looks;
      r, looks := WaitCqe(id);
      LagNeverShrinks(q, IoCommand(opcode, lba, count, page), r, View());
    }

    /** `nvme_admin_submit`: the command is filled in elsewhere and copied. */
    method AdminSubmit(cmd: Cmd) returns (r: int)
      requires Valid()
      modifies `tail, `head, `phase, `cid, `dev, `submitted, `taken, cq, sq
      ensures Valid() && (r == 0 || r == -1)
      ensures Waited(Submit(old(View()), cmd), old(cid), r, View())
      ensures |submitted| == |old(submitted)| + 1 && (taken == old(taken) ==> taken == |dev.posted|)
      ensures old(taken < |dev.posted|) ==> taken == old(taken) + 1
      ensures Lag(View()) == old(Lag(View())) || (r == -1 && Lag(View()) == old(Lag(View())) + 1)
    {
      hide Inv, Waited;
      ghost var q := View();
      var id := cid;
      cid := (cid + 1) % CID_LIMIT;
      sq[tail] := cmd.(cid := id);
      tail := (tail + 1) % QDEPTH;
      dev := dev.(sqDoorbell := tail);
      submitted := submitted + [cmd.(cid := id)];
      SubmitKeepsInv(q, cmd);
      assert View() == Submit(q, cmd);
      ghost var looks;
      r, looks := WaitCqe(id);
      LagNeverShrinks(q, cmd, r, View());
    }

    /** `pmm_alloc_pages(1)`: some free page, or 0 when there is none. */
    method AllocPage() returns (page: U64)
      modifies `free
      ensures page == 0 ==> free == old(free) && NoneFree(free, dev.memory.Keys)
      ensures page != 0 ==> page in old(free) && page in dev.memory && free == old(free) - {page}
    {
      if p: U64 :| p in free && p != 0 && p in dev.memory {
        page := p;
        free := free - {page};
      } else {
        page := 0;
      }
    }

    /** `memcpy(bounce, buf, bytes)`. */
    method FillBounce(page: U64, data: seq<Sector>)
      requires Valid() && page in dev.memory && |data| <= SECTORS_PER_PAGE
      modifies `dev
      ensures Valid() && View() == old(View()).(dev := old(dev).(memory := dev.memory))
      ensures page in dev.memory && dev.memory[page][..|data|] == data
      ensures dev.memory == old(dev.memory)[page := dev.memory[page]] && dev.memory.Keys == old(dev.memory.Keys)
    {
      var contents: Page := data + dev.memory[page][|data|..];
      MemoryAside(View(), dev.memory[page := contents]);
      dev := dev.(memory := dev.memory[page := contents]);
      assert contents[..|data|] == data;
    }

    /** No page that may be handed out belongs to an unanswered command. */
    ghost predicate FreshPages()
      reads this, sq, cq
    {
      forall p :: p in free ==> p !in LoosePages(View())
    }

    /** No identifier about to be used, and no page that may be handed out, belongs to
        an unanswered command. */
    ghost predicate Untangled(commands: nat)
      reads this, sq, cq
    {
      FreshIds(View(), commands) && FreshPages()
    }

    /** One pass of the transfer loop: bounce page, command, copy. */
    method TransferChunk(opcode: nat, lba: U64, n: nat, buf: array<Sector>, at: nat, ghost more: nat) returns (ret: int)
      requires Valid()
      requires (opcode == OP_READ || opcode == OP_WRITE) && 1 <= n <= 8 && at + n <= buf.Length
      modifies this, cq, sq, buf
      ensures Valid() && ready == old(ready) && free == old(free) && (ret == 0 || ret == -1)
      ensures Lag(View()) == old(Lag(View())) || (ret == -1 && Lag(View()) == old(Lag(View())) + 1)
      ensures ChangedWithin(old(dev.disk), dev.disk, lba, WrittenCount(opcode, n), old(Loose(View())))
      ensures LooseWithin(old(View()), View(), lba, WrittenCount(opcode, n))
      ensures ChangedWithin(old(buf[..]), buf[..], at, ReadCount(opcode, n), iset{})
      ensures ret == -1 ==> buf[..] == old(buf[..])
      ensures dev.memory.Keys == old(dev.memory.Keys)
      ensures |submitted| == |old(submitted)| + 1 || (ret == -1 && old(NoneFree(free, dev.memory.Keys)))
      ensures old(Quiet(View())) && ret == -1 ==> old(NoneFree(free, dev.memory.Keys)) || LastFailed(View())
      ensures ret == 0 && old(FreshIds(View(), more + 1)) ==>
                FreshIds(View(), more) && Loose(View()) <= old(Loose(View())) && Within(old(dev.disk), lba, n)
      ensures ret == 0 && old(Untangled(more + 1)) ==>
                Untangled(more) &&
                ChunkCopied(opcode, lba, at, n, old(dev.disk), old(buf[..]), dev.disk, buf[..], old(Loose(View())))
    {
      hide Inv, Waited, Flat, FreshIds, Loose, LoosePages, ChunkCopied, Submit, Quiet, LastFailed;
      ghost var q0, clear, buf0 := View(), Untangled(more + 1), buf[..];
      var page := AllocPage();
      if page == 0 {
        return -1;
      }
      if opcode == OP_WRITE {
        FillBounce(page, buf[at..at + n]);
        MemoryAside(q0, dev.memory);
      }
      ghost var q := View();
      ret := IoSubmit(opcode, lba, n, page);
      ghost var q' := View();
      ChunkSubmitted(q0, q, opcode, lba, n, page, ret, q', more);
      if ret == 0 && opcode == OP_READ {
        CopyOut(page, n, buf, at);
      }
      if ret == 0 && clear {
        FresherStill(q, more);
        ChunkSucceeded(opcode, lba, n, page, q.cid, at, q.dev.disk, q.dev.memory, dev.disk, dev.memory, buf0, buf[..], Loose(q));
      }
      FreePage(page);
      assert View() == q';
    }

    /** `pmm_free_pages`: also when the command that used the page is unanswered. */
    method FreePage(page: U64)
      modifies `free
      ensures free == old(free) + {page}
    {
      free := free + {page};
    }

    /** `memcpy(buf, bounce, bytes)`. */
    method CopyOut(page: U64, n: nat, buf: array<Sector>, at: nat)
      requires page in dev.memory && n <= SECTORS_PER_PAGE && at + n <= buf.Length
      modifies buf
      ensures buf[..] == old(buf[..at]) + dev.memory[page][..n] + old(buf[at + n..])
    {
      forall i | 0 <= i < n {
        buf[at + i] := dev.memory[page][i];
      }
    }

    /** `nvme_transfer`, in any state. Only the range and loose sectors change, if no
        identifier comes round or no block address wraps. If moreover no free page is
        an unanswered command's, success is a flat copy of all that is not loose, and
        a failure has copied some whole chunks. */
    method Transfer(opcode: nat, lba0: U64, count0: U32, buf: array<Sector>) returns (r: int)
      requires Valid() && (opcode == OP_READ || opcode == OP_WRITE) && count0 <= buf.Length
      modifies this, cq, sq, buf
      ensures Valid() && ready == old(ready) && free == old(free) && (r == 0 || r == -1)
      ensures Lag(View()) == old(Lag(View())) || (r == -1 && Lag(View()) == old(Lag(View())) + 1)
      ensures lba0 + count0 <= U64_LIMIT || old(FreshIds(View(), Chunks(count0))) ==>
                ChangedWithin(old(dev.disk), dev.disk, lba0, WrittenCount(opcode, count0), old(Loose(View())))
      ensures ChangedWithin(old(buf[..]), buf[..], 0, ReadCount(opcode, count0), iset{})
      ensures r == 0 ==> old(ready) && |submitted| == |old(submitted)| + Chunks(count0)
      ensures old(Quiet(View())) && r == -1 ==> !ready || old(NoneFree(free, dev.memory.Keys)) || LastFailed(View())
      ensures old(Untangled(Chunks(count0))) && r == 0 ==>
                Copied(opcode, old(dev.disk), old(buf[..]), lba0, count0, dev.disk, buf[..], old(Loose(View())))
      ensures old(Untangled(Chunks(count0))) && r == -1 ==>
                CopyBroken(opcode, old(dev.disk), old(buf[..]), lba0, count0, dev.disk, buf[..], old(Loose(View())))
    {
      hide Inv, FreshIds, Copied, CopyBroken, ChunkCopied, Loose, LoosePages, ChangedWithin, LooseWithin, Quiet, LastFailed, NoneFree;
      hide Lag, Chunks, WrittenCount, ReadCount;
      ghost var disk0, buf0, q0 := dev.disk, buf[..], View();
      ghost var loose, apart, clear := Loose(q0), FreshIds(q0, Chunks(count0)), Untangled(Chunks(count0));
      ghost var straight := lba0 + count0 <= U64_LIMIT || apart;
      var lba: U64 := lba0;
      var count: nat := count0;
      var at: nat := 0;
      CopyStarts(opcode, disk0, buf0, lba0, count0, loose);
      LooseStarts(q0, opcode, lba0);
      ChunksLeft(1);
      if !ready {
        CopyBreaks(opcode, disk0, buf0, lba0, 0, count0, disk0, buf0, dev.disk, loose);
        return -1;
      }
      while count > 0
        invariant Valid() && ready && free == old(free) && Lag(View()) == old(Lag(View()))
        invariant dev.memory.Keys == old(dev.memory.Keys) && |submitted| + Chunks(count) == |q0.submitted| + Chunks(count0)
        invariant Quiet(q0) ==> Quiet(View())
        invariant |buf0| == buf.Length && at + count == count0
        invariant ChangedWithin(buf0, buf[..], 0, ReadCount(opcode, at), iset{})
        invariant straight ==> (count > 0 ==> lba == lba0 + at)
        invariant straight ==> LooseWithin(q0, View(), lba0, WrittenCount(opcode, at))
        invariant straight ==> ChangedWithin(disk0, dev.disk, lba0, WrittenCount(opcode, at), loose)
        invariant apart ==> FreshIds(View(), Chunks(count)) && Loose(View()) <= loose && lba == lba0 + at
        invariant clear ==> Untangled(Chunks(count)) && Copied(opcode, disk0, buf0, lba0, at, dev.disk, buf[..], loose)
        invariant count > 0 ==> at % 8 == 0
      {
        var n := if count > 8 then 8 else count;
        ghost var disk1, buf1, q1 := dev.disk, buf[..], View();
        ChunksLeft(count);
        var ret := TransferChunk(opcode, lba, n, buf, at, Chunks(count) - 1);
        BufferJoined(opcode, buf0, buf1, buf[..], at, n, count0);
        QuietIffNoLag(q1);
        QuietIffNoLag(View());
        if straight {
          DiskJoined(opcode, q0, q1, View(), disk0, lba0, at, n, count0);
        }
        if ret < 0 {
          if clear {
            LessLoose(disk1, dev.disk, lba, WrittenCount(opcode, n), Loose(q1), loose);
            CopyBreaks(opcode, disk0, buf0, lba0, at, count0, disk1, buf1, dev.disk, loose);
          }
          return -1;
        }
        if clear {
          CopiedLessLoose(opcode, lba, at, n, disk1, buf1, dev.disk, buf[..], Loose(q1), loose);
          CopyAdvances(opcode, disk0, buf0, lba0, at, n, disk1, buf1, dev.disk, buf[..], loose);
        }
        lba := (lba + n) % U64_LIMIT;
        count := count - n;
        at := at + n;
      }
      return 0;
    }

    /** `nvme_read_sectors`. */
    method ReadSectors(lba: U64, count: U32, buf: array<Sector>) returns (r: int)
      requires Valid() && count <= buf.Length
      modifies this, cq, sq, buf
      ensures Valid() && ready == old(ready) && free == old(free) && (r == 0 || r == -1)
      ensures Lag(View()) == old(Lag(View())) || (r == -1 && Lag(View()) == old(Lag(View())) + 1)
      ensures lba + count <= U64_LIMIT || old(FreshIds(View(), Chunks(count))) ==>
                ChangedWithin(old(dev.disk), dev.disk, lba, 0, old(Loose(View())))
      ensures ChangedWithin(old(buf[..]), buf[..], 0, count, iset{})
      ensures r == 0 ==> old(ready) && |submitted| == |old(submitted)| + Chunks(count)
      ensures old(Quiet(View())) && r == -1 ==> !ready || old(NoneFree(free, dev.memory.Keys)) || LastFailed(View())
      ensures old(Untangled(Chunks(count))) && r == 0 && count > 0 ==>
                Within(old(dev.disk), lba, count) &&
                forall j :: 0 <= j < count && lba + j !in old(Loose(View())) ==> buf[j] == old(dev.disk)[lba + j]
      ensures old(Quiet(View())) && Lag(View()) == 0 ==> Quiet(View())
      ensures old(Quiet(View())) && r == 0 && count > 0 ==>
                Quiet(View()) && dev.disk == old(dev.disk) && Within(dev.disk, lba, count) &&
                buf[..] == ReadRange(dev.disk, lba, count) + old(buf[count..])
    {
      hide Inv, Loose, LoosePages, FreshIds;
      ghost var q, disk0, buf0 := View(), dev.disk, buf[..];
      r := Transfer(OP_READ, lba, count, buf);
      QuietIffNoLag(View());
      if Quiet(q) {
        QuietIffNoLag(q);
        QuietIsTight(q);
        if r == 0 && count > 0 {
          CopiedExactly(OP_READ, disk0, buf0, lba, count, dev.disk, buf[..]);
        }
      }
    }

    /** `nvme_write_sectors`. */
    method WriteSectors(lba: U64, count: U32, buf: array<Sector>) returns (r: int)
      requires Valid() && count <= buf.Length
      modifies this, cq, sq, buf
      ensures Valid() && ready == old(ready) && free == old(free) && (r == 0 || r == -1)
      ensures Lag(View()) == old(Lag(View())) || (r == -1 && Lag(View()) == old(Lag(View())) + 1)
      ensures buf[..] == old(buf[..])
      ensures lba + count <= U64_LIMIT || old(FreshIds(View(), Chunks(count))) ==>
                ChangedWithin(old(dev.disk), dev.disk, lba, count, old(Loose(View())))
      ensures r == 0 ==> old(ready) && |submitted| == |old(submitted)| + Chunks(count)
      ensures old(Quiet(View())) && r == -1 ==> !ready || old(NoneFree(free, dev.memory.Keys)) || LastFailed(View())
      ensures old(Untangled(Chunks(count))) && r == 0 && count > 0 ==>
                Within(old(dev.disk), lba, count) &&
                forall k :: lba <= k < lba + count && k !in old(Loose(View())) ==> dev.disk[k] == buf[k - lba]
      ensures old(Quiet(View())) && Lag(View()) == 0 ==> Quiet(View())
      ensures old(Quiet(View())) && r == 0 && count > 0 ==>
                Quiet(View()) && Within(old(dev.disk), lba, count) &&
                dev.disk == WriteRange(old(dev.disk), lba, buf[..count])
    {
      hide Inv, Loose, LoosePages, FreshIds;
      ghost var q, disk0, buf0 := View(), dev.disk, buf[..];
      r := Transfer(OP_WRITE, lba, count, buf);
      QuietIffNoLag(View());
      if Quiet(q) {
        QuietIffNoLag(q);
        QuietIsTight(q);
        if r == 0 && count > 0 {
          CopiedExactly(OP_WRITE, disk0, buf0, lba, count, dev.disk, buf[..]);
        }
      }
    }
  }
}
