/**
  What one submit of drivers/nvme.c may lead to, in any state of the queue: the
  driver polls, the controller acts whenever it likes, and commands abandoned by
  earlier timeouts may still be under way.
*/
module NvmeSubmit {
  import Bits
  import opened NvmeQueue
  import opened Prelude

  // ----- what a wait may lead to -----

  /** `q'` is what waiting for `cid` in `q` may lead to: a timeout, with nothing taken
      and nothing posted that could be, or exactly one completion taken and judged. */
  ghost predicate Waited(q: Queue, cid: U16, r: int, q': Queue) {
    || (r == -1 && q'.taken == |q'.dev.posted| && exists events :: DeviceRun(q, events, q'))
    || (exists events, mid, events' :: TookOne(q, events, mid, events', q') && r == Judged(mid.cq[mid.head], cid))
  }

  ghost predicate TookOne(q: Queue, events: seq<Event>, mid: Queue, events': seq<Event>, q': Queue) {
    DeviceRun(q, events, mid) && |mid.cq| == QDEPTH && Seen(mid) && DeviceRun(Take(mid), events', q')
  }

  function Judged(e: Cqe, cid: U16): int {
    if e.cid == cid && e.status / 2 == 0 then 0 else -1
  }

  lemma {:induction false} DeviceRunsJoin(a: Queue, es: seq<Event>, b: Queue, es': seq<Event>, c: Queue)
    requires DeviceRun(a, es, b) && DeviceRun(b, es', c)
    ensures DeviceRun(a, es + es', c)
    decreases |es|
  {
    if es == [] {
      assert es + es' == es';
    } else {
      assert (es + es')[1..] == es[1..] + es';
      DeviceRunsJoin(DeviceStep(a, es[0]), es[1..], b, es', c);
    }
  }

  lemma NoEvents(q: Queue)
    ensures DeviceRun(q, [], q)
  {
  }

  lemma OneEvent(q: Queue, e: Event)
    requires Inv(q) && Enabled(q.dev, e)
    ensures DeviceRun(q, [e], DeviceStep(q, e))
  {
    assert [e][1..] == [];
    assert DeviceRun(DeviceStep(q, e), [], DeviceStep(q, e));
  }

  lemma TookOneKeepsInv(q: Queue, events: seq<Event>, mid: Queue, events': seq<Event>, q': Queue)
    requires Inv(q) && TookOne(q, events, mid, events', q')
    ensures Inv(mid) && Inv(Take(mid)) && Inv(q') && mid.submitted == q'.submitted == q.submitted
    ensures Jobs(mid) == Jobs(Take(mid)) == Jobs(q') == Jobs(q) && mid.dev.fetched <= q'.dev.fetched
    ensures mid.taken == q.taken < |mid.dev.posted| && mid.dev.posted <= q'.dev.posted && q'.taken == q.taken + 1
  {
    hide Inv;
    DeviceRunKeepsInv(q, events, mid);
    SeenIffPosted(mid);
    TakeKeepsInv(mid);
    DeviceRunKeepsInv(Take(mid), events', q');
  }

  /** What the driver still reads from an entry after it has rung the doorbell. */
  lemma EntryStaysForJudging(mid: Queue, events: seq<Event>, r: Queue)
    requires Inv(mid) && Seen(mid) && DeviceRun(Take(mid), events, r)
    ensures Inv(r) && |r.cq| == QDEPTH && r.cq[mid.head] == mid.cq[mid.head]
  {
    SeenIffPosted(mid);
    TakeKeepsInv(mid);
    DeviceRunKeepsInv(Take(mid), events, r);
    EntryOutlivesDoorbell(r, mid.taken);
  }

  lemma {:induction false} DeviceRunKeepsCounts(q: Queue, events: seq<Event>, r: Queue)
    requires DeviceRun(q, events, r)
    ensures r.submitted == q.submitted && r.taken == q.taken
    decreases |events|
  {
    if events != [] {
      DeviceRunKeepsCounts(DeviceStep(q, events[0]), events[1..], r);
    }
  }

  lemma WaitedKeepsCounts(q: Queue, cid: U16, r: int, q': Queue)
    requires Waited(q, cid, r, q')
    ensures q'.submitted == q.submitted && q.taken <= q'.taken <= q.taken + 1
    ensures (r == 0 || r == -1) && (q'.taken == q.taken ==> r == -1 && q'.taken == |q'.dev.posted|)
  {
    hide DeviceRun;
    if events :| r == -1 && q'.taken == |q'.dev.posted| && DeviceRun(q, events, q') {
      DeviceRunKeepsCounts(q, events, q');
    } else {
      var events, mid, events' :| TookOne(q, events, mid, events', q') && r == Judged(mid.cq[mid.head], cid);
      DeviceRunKeepsCounts(q, events, mid);
      DeviceRunKeepsCounts(Take(mid), events', q');
    }
  }

  lemma WaitedKeepsInv(q: Queue, cid: U16, r: int, q': Queue)
    requires Inv(q) && Waited(q, cid, r, q')
    ensures Inv(q')
  {
    hide Inv, DeviceRun;
    if events :| r == -1 && q'.taken == |q'.dev.posted| && DeviceRun(q, events, q') {
      DeviceRunKeepsInv(q, events, q');
    } else {
      var events, mid, events' :| TookOne(q, events, mid, events', q') && r == Judged(mid.cq[mid.head], cid);
      TookOneKeepsInv(q, events, mid, events', q');
    }
  }

  // ----- falling behind -----

  /** Nothing is under way: every command submitted was answered, and every answer
      taken. */
  predicate Quiet(q: Queue) {
    |q.submitted| == |q.dev.fetched| == |q.dev.posted| == q.taken && q.dev.inflight == {}
  }

  /** Submits that the driver has not taken an answer for. */
  function Lag(q: Queue): int {
    |q.submitted| - q.taken
  }

  lemma QuietIffNoLag(q: Queue)
    requires Inv(q)
    ensures Lag(q) >= 0 && (Quiet(q) <==> Lag(q) == 0)
  {
  }

  /** A submit adds one command and takes at most one answer: the lag stays, or
      after a timeout grows by one, and never shrinks. */
  lemma LagNeverShrinks(q: Queue, cmd: Cmd, r: int, q': Queue)
    requires |q.sq| == QDEPTH && Waited(Submit(q, cmd), q.cid, r, q')
    ensures (r == 0 || r == -1) && (Lag(q') == Lag(q) || (r == -1 && Lag(q') == Lag(q) + 1))
  {
    hide Waited;
    WaitedKeepsCounts(Submit(q, cmd), q.cid, r, q');
  }

  /** One call from `q` to `q'`: the controller may act before it. */
  ghost predicate CallMoves(q: Queue, cmd: Cmd, q': Queue) {
    exists idle, start, r ::
      DeviceRun(q, idle, start) && |start.sq| == QDEPTH && Waited(Submit(start, cmd), start.cid, r, q')
  }

  ghost predicate IsCallRun(states: seq<Queue>, cmds: seq<Cmd>) {
    && |states| == |cmds| + 1 && Inv(states[0])
    && forall i :: 0 <= i < |cmds| ==> CallMoves(states[i], cmds[i], states[i + 1])
  }

  lemma CallKeepsLag(q: Queue, cmd: Cmd, q': Queue)
    requires Inv(q) && CallMoves(q, cmd, q')
    ensures Inv(q') && Lag(q) <= Lag(q')
  {
    hide Inv, Waited, DeviceRun;
    var idle, start, r :|
      DeviceRun(q, idle, start) && |start.sq| == QDEPTH && Waited(Submit(start, cmd), start.cid, r, q');
    DeviceRunKeepsInv(q, idle, start);
    SubmitKeepsInv(start, cmd);
    WaitedKeepsInv(Submit(start, cmd), start.cid, r, q');
    LagNeverShrinks(start, cmd, r, q');
  }

  /** Main result on timeouts: over any run of calls, a driver that has fallen
      behind once is never quiet again, even when every command gets answered. */
  lemma {:induction false} OnceBehindNeverQuiet(states: seq<Queue>, cmds: seq<Cmd>, i: nat, j: nat)
    requires IsCallRun(states, cmds) && i <= j < |states|
    ensures Inv(states[i]) && Inv(states[j]) && Lag(states[i]) <= Lag(states[j])
    ensures !Quiet(states[i]) ==> !Quiet(states[j])
    decreases j
  {
    hide Inv, CallMoves;
    if j > 0 {
      OnceBehindNeverQuiet(states, cmds, if i < j then i else j - 1, j - 1);
      CallKeepsLag(states[j - 1], cmds[j - 1], states[j]);
    }
    QuietIffNoLag(states[i]);
    QuietIffNoLag(states[j]);
  }

  lemma ZeroWasAboutToBeReturned(q: Queue, cmd: Cmd, q': Queue)
    returns (events: seq<Event>, mid: Queue, events': seq<Event>)
    requires Inv(q) && |q.sq| == QDEPTH && Waited(Submit(q, cmd), q.cid, 0, q')
    ensures TookOne(Submit(q, cmd), events, mid, events', q') && WouldReturnZero(mid)
    ensures Inv(Submit(q, cmd)) && Inv(mid) && Inv(Take(mid)) && Inv(q')
    ensures mid.taken == q.taken < |mid.dev.posted| && mid.dev.posted <= q'.dev.posted
    ensures q'.taken == q.taken + 1 && q'.submitted == mid.submitted == Submit(q, cmd).submitted
    ensures Jobs(mid) == Jobs(Take(mid)) == Jobs(q') == Jobs(Submit(q, cmd))
  {
    hide Inv, DeviceRun, Jobs;
    events, mid, events' :|
      TookOne(Submit(q, cmd), events, mid, events', q') && 0 == Judged(mid.cq[mid.head], q.cid);
    SubmitKeepsInv(q, cmd);
    TookOneKeepsInv(Submit(q, cmd), events, mid, events', q');
  }

  lemma OwnAnswerComesLast(q: Queue, c: Cmd, mid: Queue, q': Queue)
    requires Inv(q) && Inv(q') && q.dev.posted <= mid.dev.posted <= q'.dev.posted
    requires q.taken < |mid.dev.posted| && mid.dev.posted[q.taken].index == |Jobs(q)|
    requires Jobs(q') == if HasRoom(q) then Jobs(q) + [c] else q.dev.fetched
    ensures q.taken == |q.dev.posted| && HasRoom(q) && q'.dev.fetched == Jobs(q')
  {
    assert q'.dev.posted[q.taken].index < |q'.dev.fetched|;
    assert forall n :: 0 <= n < |q.dev.posted| ==> q.dev.posted[n].index < |q.dev.fetched|;
    hide Commands, Completions, Answers, Jobs;
  }

  /** When nothing is in the way, 0 means that there was room, that no earlier answer
      was waiting, that the command just submitted was reported done, and that the
      controller has fetched everything. */
  lemma ZeroMeansDone(q: Queue, cmd: Cmd, r: int, q': Queue)
    requires Inv(q) && !OldCommandInTheWay(q) && |q.sq| == QDEPTH && Waited(Submit(q, cmd), q.cid, r, q')
    ensures r == 0 ==> q.taken == |q.dev.posted| < |q'.dev.posted| && q'.dev.posted[q.taken] == Post(|Jobs(q)|, 0)
    ensures r == 0 ==> Inv(q') && HasRoom(q) && q'.taken == q.taken + 1 && |q'.submitted| == |q.submitted| + 1
    ensures r == 0 ==> q'.dev.fetched == Jobs(q') == Jobs(q) + [cmd.(cid := q.cid)]
  {
    if r == 0 {
      hide Inv, DeviceRun, OldCommandInTheWay, Jobs, WouldReturnZero;
      var events, mid, events' := ZeroWasAboutToBeReturned(q, cmd, q');
      ZeroMeansOwnSuccess(q, cmd, events, mid);
      DeviceRunKeepsInv(Submit(q, cmd), events, mid);
      SubmitJobs(q, cmd);
      hide TookOne, HasRoom;
      OwnAnswerComesLast(q, cmd.(cid := q.cid), mid, q');
    }
  }

  /** The other side of falling behind: a late answer that waits when a submit is
      made is taken in its place, and the submit fails whatever became of it. */
  lemma LateAnswerFailsNext(q: Queue, cmd: Cmd, r: int, q': Queue)
    requires Inv(q) && !OldCommandInTheWay(q) && |q.sq| == QDEPTH && Waited(Submit(q, cmd), q.cid, r, q')
    requires q.taken < |q.dev.posted|
    ensures r == -1 && q'.taken == q.taken + 1
  {
    hide OldCommandInTheWay;
    SubmitKeepsInv(q, cmd);
    WaitedKeepsCounts(Submit(q, cmd), q.cid, r, q');
    WaitedSpares(Submit(q, cmd), q.cid, r, q');
    ZeroMeansDone(q, cmd, r, q');
  }

  /** The command last submitted was not answered in time, or not with success. */
  predicate LastFailed(q: Queue) {
    Lag(q) > 0 || (|q.dev.posted| > 0 && q.dev.posted[|q.dev.posted| - 1].code != 0)
  }

  /** With nothing else under way there is no doubt: the submit succeeds exactly when
      its command was answered with success before the driver gave up. */
  lemma QuietSubmitIsExact(q: Queue, cmd: Cmd, r: int, q': Queue)
    requires Inv(q) && Quiet(q) && |q.sq| == QDEPTH && Waited(Submit(q, cmd), q.cid, r, q')
    ensures r == 0 <==> q'.taken == q.taken + 1 && q.taken < |q'.dev.posted| && q'.dev.posted[q.taken] == Post(q.taken, 0)
    ensures r == -1 <==> LastFailed(q')
  {
    hide Inv, DeviceRun, Jobs;
    var q1 := Submit(q, cmd);
    if events :| r == -1 && q'.taken == |q'.dev.posted| && DeviceRun(q1, events, q') {
      DeviceRunKeepsCounts(q1, events, q');
    } else {
      var events, mid, events' :| TookOne(q1, events, mid, events', q') && r == Judged(mid.cq[mid.head], q.cid);
      OnlyOwnIsTaken(q, cmd, events, mid, events', q');
    }
  }

  lemma QuietSubmit(q: Queue, cmd: Cmd)
    requires Inv(q) && Quiet(q)
    ensures |q.sq| == QDEPTH && Inv(Submit(q, cmd)) && Jobs(Submit(q, cmd)) == Jobs(q) + [cmd.(cid := q.cid)]
    ensures |Jobs(q)| == q.taken && q.cid == CidOf(q.taken)
  {
    SubmitKeepsInv(q, cmd);
    SubmitJobs(q, cmd);
  }

  lemma OnlyOwnIsTaken(q: Queue, cmd: Cmd, events: seq<Event>, mid: Queue, events': seq<Event>, q': Queue)
    requires Inv(q) && Quiet(q) && |q.sq| == QDEPTH && TookOne(Submit(q, cmd), events, mid, events', q')
    ensures q.taken < |q'.dev.posted| == q'.taken == q.taken + 1 && Lag(q') == 0 && q'.dev.posted[q.taken].index == q.taken
    ensures Judged(mid.cq[mid.head], q.cid) == 0 <==> q'.dev.posted[q.taken].code == 0
  {
    var q1 := Submit(q, cmd);
    QuietSubmit(q, cmd);
    hide Commands, Counters, Answers, DeviceRun, Jobs;
    TookOneKeepsInv(q1, events, mid, events', q');
    QuietIffNoLag(q');
    OriginOfNext(q1, events, mid);
    SeenIffPosted(mid);
    hide Completions;
    var p := mid.dev.posted[q.taken];
    EntryPhase(mid.dev.fetched, p, q.taken);
    assert mid.dev.fetched[p.index] == Jobs(mid)[p.index] == cmd.(cid := q.cid);
  }

  // ----- what unanswered commands may still change -----

  /** Sectors that unanswered writes may still change. */
  ghost predicate SectorLoose(q: Queue, k: int) {
    exists i :: Pending(q, i) && WritesSector(Jobs(q)[i], k)
  }

  /** Pages that the other unanswered commands may still change. */
  ghost predicate PageLoose(q: Queue, p: int) {
    exists i :: Pending(q, i) && UsesPage(Jobs(q)[i], p)
  }

  /** Sector `k` is one that a write changes; page `p` one that another command
      changes. */
  predicate WritesSector(c: Cmd, k: int) {
    c.opcode == OP_WRITE && InRange(c, k)
  }

  predicate UsesPage(c: Cmd, p: int) {
    c.opcode != OP_WRITE && c.prp1 == p
  }

  ghost function Loose(q: Queue): iset<int> {
    iset k | SectorLoose(q, k)
  }

  ghost function LoosePages(q: Queue): iset<int> {
    iset p | PageLoose(q, p)
  }

  /** In a quiet state nothing is loose and no identifier is taken. */
  lemma QuietIsTight(q: Queue)
    requires Inv(q) && Quiet(q)
    ensures Loose(q) == iset{} && LoosePages(q) == iset{} && forall more: nat :: FreshIds(q, more)
  {
    assert |Jobs(q)| == |q.dev.fetched|;
  }

  /** Commands answered from `q` to `r` were pending, and those that succeeded could. */
  ghost predicate AnsweredSince(q: Queue, r: Queue) {
    && q.dev.posted <= r.dev.posted
    && forall j :: |q.dev.posted| <= j < |r.dev.posted| ==> AnsweredWell(q, r.dev.posted[j])
  }

  predicate AnsweredWell(q: Queue, p: Post) {
    Pending(q, p.index) && (p.code == 0 ==> Feasible(Jobs(q)[p.index], q.dev.disk, q.dev.memory))
  }

  /** Nothing becomes pending, and storage outside the loose parts is as before. */
  ghost predicate Spared(q: Queue, r: Queue) {
    && Jobs(r) == Jobs(q) && (forall i :: Pending(r, i) ==> Pending(q, i))
    && |r.dev.disk| == |q.dev.disk| && r.dev.memory.Keys == q.dev.memory.Keys
    && (forall k :: 0 <= k < |q.dev.disk| && k !in Loose(q) ==> r.dev.disk[k] == q.dev.disk[k])
    && (forall p :: p in q.dev.memory && p !in LoosePages(q) ==> r.dev.memory[p] == q.dev.memory[p])
    && AnsweredSince(q, r)
  }

  lemma FewerPending(q: Queue, r: Queue)
    requires forall i :: Pending(r, i) ==> Pending(q, i) && Jobs(r)[i] == Jobs(q)[i]
    ensures Loose(r) <= Loose(q) && LoosePages(r) <= LoosePages(q)
  {
    hide Jobs, WritesSector, UsesPage;
  }

  lemma SparedStays(q: Queue, mid: Queue, r: Queue)
    requires Spared(q, mid) && Spared(mid, r)
    ensures Spared(q, r)
  {
    FewerPending(q, mid);
    hide Loose, LoosePages, Pending, Jobs;
    forall j | |q.dev.posted| <= j < |r.dev.posted|
      ensures AnsweredWell(q, r.dev.posted[j])
    {
      assert j < |mid.dev.posted| ==> r.dev.posted[j] == mid.dev.posted[j];
      assert |mid.dev.posted| <= j ==> AnsweredWell(mid, r.dev.posted[j]);
    }
  }

  lemma DoneIsPartial(e: Event, o: Cmd, q: Queue, r: Queue)
    requires |q.sq| == QDEPTH && |q.cq| == QDEPTH && !e.Fetch? && Enabled(q.dev, e)
    requires o == q.dev.fetched[e.index] && r == DeviceStep(q, e)
    ensures Partial(o, q.dev.disk, q.dev.memory, r.dev.disk, r.dev.memory)
  {
  }

  /** What a pending command does to storage stays within the loose parts. */
  lemma PendingStaysLoose(q: Queue, i: nat, d: Disk, m: Memory)
    requires Pending(q, i) && Partial(Jobs(q)[i], q.dev.disk, q.dev.memory, d, m)
    ensures |d| == |q.dev.disk| && m.Keys == q.dev.memory.Keys
    ensures forall k :: 0 <= k < |d| && k !in Loose(q) ==> d[k] == q.dev.disk[k]
    ensures forall p :: p in m && p !in LoosePages(q) ==> m[p] == q.dev.memory[p]
  {
    var c := Jobs(q)[i];
    hide Pending, Jobs, InRange;
    assert forall k :: c.opcode == OP_WRITE && InRange(c, k) ==> WritesSector(c, k);
    assert forall k :: WritesSector(c, k) ==> SectorLoose(q, k);
    assert c.opcode != OP_WRITE ==> UsesPage(c, c.prp1);
    assert forall p :: UsesPage(c, p) ==> PageLoose(q, p);
  }

  lemma CompletePends(q: Queue, e: Event)
    requires Inv(q) && e.Complete? && Enabled(q.dev, e)
    ensures |q.sq| == |q.cq| == QDEPTH && Pending(q, e.index) && Jobs(q)[e.index] == q.dev.fetched[e.index]
    ensures AnsweredSince(q, DeviceStep(q, e))
  {
    CommandsSized(q);
    hide Inv, Jobs, Partial;
    var p := Post(e.index, e.code);
    assert AnsweredWell(q, p);
    assert DeviceStep(q, e).dev.posted == q.dev.posted + [p];
  }

  lemma StepAnswersPending(q: Queue, e: Event)
    requires Inv(q) && Enabled(q.dev, e)
    ensures |q.sq| == |q.cq| == QDEPTH && AnsweredSince(q, DeviceStep(q, e))
    ensures forall i :: Pending(DeviceStep(q, e), i) ==> Pending(q, i)
    ensures !e.Fetch? ==> Pending(q, e.index) && Jobs(q)[e.index] == q.dev.fetched[e.index]
  {
    DeviceKeepsInv(q, e);
    if e.Complete? {
      CompletePends(q, e);
    }
    hide Inv, Jobs, Partial, Done, AnsweredWell, Feasible;
  }

  lemma StepSpares(q: Queue, e: Event)
    requires Inv(q) && Enabled(q.dev, e)
    ensures |q.sq| == |q.cq| == QDEPTH && Spared(q, DeviceStep(q, e))
  {
    DeviceKeepsInv(q, e);
    StepAnswersPending(q, e);
    hide Inv, Jobs, Loose, LoosePages, Partial, Done, AnsweredSince, Pending;
    if !e.Fetch? {
      var r := DeviceStep(q, e);
      DoneIsPartial(e, q.dev.fetched[e.index], q, r);
      PendingStaysLoose(q, e.index, r.dev.disk, r.dev.memory);
    }
  }

  lemma {:induction false} RunSpares(q: Queue, events: seq<Event>, r: Queue)
    requires Inv(q) && DeviceRun(q, events, r)
    ensures Spared(q, r)
    decreases |events|
  {
    hide Inv, Spared;
    if events == [] {
      SparedSelf(q);
    } else {
      var mid := DeviceStep(q, events[0]);
      DeviceKeepsInv(q, events[0]);
      StepSpares(q, events[0]);
      RunSpares(mid, events[1..], r);
      SparedStays(q, mid, r);
    }
  }

  lemma SparedSelf(q: Queue)
    ensures Spared(q, q)
  {
  }

  lemma TakeSpares(q: Queue)
    ensures Spared(q, Take(q))
  {
  }

  lemma WaitedSpares(q: Queue, cid: U16, r: int, q': Queue)
    requires Inv(q) && Waited(q, cid, r, q')
    ensures Spared(q, q')
  {
    hide Inv, DeviceRun, Spared;
    if events :| r == -1 && q'.taken == |q'.dev.posted| && DeviceRun(q, events, q') {
      RunSpares(q, events, q');
    } else {
      var events, mid, events' :| TookOne(q, events, mid, events', q') && r == Judged(mid.cq[mid.head], cid);
      TookOneKeepsInv(q, events, mid, events', q');
      RunSpares(q, events, mid);
      TakeSpares(mid);
      RunSpares(Take(mid), events', q');
      SparedStays(q, mid, Take(mid));
      SparedStays(q, Take(mid), q');
    }
  }

  lemma SubmitLoosensOwn(q: Queue, cmd: Cmd)
    requires Inv(q)
    ensures |q.sq| == QDEPTH
    ensures forall k :: k in Loose(Submit(q, cmd)) ==> k in Loose(q) || WritesSector(cmd, k)
    ensures forall p :: p in LoosePages(Submit(q, cmd)) ==> p in LoosePages(q) || UsesPage(cmd, p)
  {
    SubmitJobs(q, cmd);
    var q1, n, c := Submit(q, cmd), |Jobs(q)|, cmd.(cid := q.cid);
    hide Inv, Jobs;
    assert forall k :: WritesSector(c, k) <==> WritesSector(cmd, k);
    assert forall i :: Pending(q1, i) && i != n ==> Pending(q, i) && Jobs(q1)[i] == Jobs(q)[i];
    assert Pending(q1, n) ==> Jobs(q1)[n] == c;
    hide Pending, Submit, WritesSector, InRange;
  }

  /** Whatever a submit returns, it and the commands unanswered before it changed
      only what is theirs, and only that is loose afterwards. */
  lemma SubmitSpares(q: Queue, cmd: Cmd, r: int, q': Queue)
    requires Inv(q) && |q.sq| == QDEPTH && Waited(Submit(q, cmd), q.cid, r, q')
    ensures |q'.dev.disk| == |q.dev.disk| && q'.dev.memory.Keys == q.dev.memory.Keys
    ensures forall k :: 0 <= k < |q.dev.disk| && k !in Loose(q) && !WritesSector(cmd, k) ==> q'.dev.disk[k] == q.dev.disk[k]
    ensures forall p :: p in q.dev.memory && p !in LoosePages(q) && !UsesPage(cmd, p) ==> q'.dev.memory[p] == q.dev.memory[p]
    ensures forall k :: k in Loose(q') ==> k in Loose(q) || WritesSector(cmd, k)
  {
    hide Waited, Loose, LoosePages, Commands, Completions, Answers, Jobs;
    SubmitKeepsInv(q, cmd);
    SubmitLoosensOwn(q, cmd);
    WaitedSpares(Submit(q, cmd), q.cid, r, q');
    FewerPending(Submit(q, cmd), q');
  }

  lemma SoonerByOne(q: Queue, q': Queue, c: Cmd, more: nat)
    requires NotSoon(q, c, more + 1) && q'.cid == (q.cid + 1) % CID_LIMIT
    ensures NotSoon(q', c, more)
  {
  }

  /** After a success fewer commands are unanswered than before, and the command was
      one that the controller could carry out. */
  lemma SuccessLeavesFewer(q: Queue, cmd: Cmd, q': Queue, more: nat)
    requires Inv(q) && FreshIds(q, more + 1) && |q.sq| == QDEPTH && Waited(Submit(q, cmd), q.cid, 0, q')
    ensures Inv(q') && FreshIds(q', more)
    ensures Loose(q') <= Loose(q) && LoosePages(q') <= LoosePages(q)
    ensures Feasible(cmd, q.dev.disk, q.dev.memory)
  {
    hide Waited, Loose, LoosePages, Commands, Completions, Jobs;
    var q1, n := Submit(q, cmd), |Jobs(q)|;
    FreshIdsNeverInTheWay(q);
    ZeroMeansDone(q, cmd, 0, q');
    SubmitKeepsInv(q, cmd);
    SubmitJobs(q, cmd);
    WaitedSpares(q1, q.cid, 0, q');
    assert AnsweredWell(q1, q'.dev.posted[q.taken]);
    NextCid(|q.submitted|);
    assert q'.cid == (q.cid + 1) % CID_LIMIT;
    hide Counters, Feasible, NotSoon;
    forall i | Pending(q', i)
      ensures Pending(q, i) && Jobs(q')[i] == Jobs(q)[i]
      ensures NotSoon(q', Jobs(q')[i], more)
    {
      assert Pending(q1, i) && i != n;
      SoonerByOne(q, q', Jobs(q)[i], more);
    }
    forall j | 0 <= j < |q'.dev.posted| && q'.taken <= j && q'.dev.posted[j].index < |q'.dev.fetched|
      ensures NotSoon(q', q'.dev.fetched[q'.dev.posted[j].index], more)
    {
      var i := q'.dev.posted[j].index;
      assert AnsweredWell(q1, q'.dev.posted[j]) && i != n;
      assert Pending(q, i);
      SoonerByOne(q, q', Jobs(q)[i], more);
    }
    FewerPending(q, q');
  }

  // ----- when success is a faithful copy -----

  /** Outside `loose`, storage `d'`, `m'` is what the transfer `c` should make of
      `d`, `m`. */
  ghost predicate Flat(c: Cmd, d: Disk, m: Memory, d': Disk, m': Memory, loose: iset<int>) {
    && Feasible(c, d, m) && |d'| == |d| && m'.Keys == m.Keys
    && forall k :: InRange(c, k) && k !in loose ==>
         && (c.opcode == OP_WRITE ==> d'[k] == m[c.prp1][k - Lba(c)])
         && (c.opcode == OP_READ ==> d'[k] == d[k] && m'[c.prp1][k - Lba(c)] == d[k])
  }

  /** The command has not been answered: what it works from is unchanged. */
  ghost predicate Awaited(c: Cmd, d: Disk, m: Memory, d': Disk, m': Memory, loose: iset<int>) {
    && |d'| == |d| && m'.Keys == m.Keys
    && (c.opcode == OP_READ ==> forall k :: 0 <= k < |d| && InRange(c, k) && k !in loose ==> d'[k] == d[k])
    && (c.opcode == OP_WRITE && c.prp1 in m ==> m'[c.prp1] == m[c.prp1])
  }

  /** `o` can disturb the transfer `c` in sectors of `loose` only. */
  ghost predicate Apart(o: Cmd, c: Cmd, loose: iset<int>) {
    if o.opcode == OP_WRITE then forall k :: InRange(o, k) ==> k in loose else o.prp1 != c.prp1
  }

  lemma OtherLeavesAlone(o: Cmd, c: Cmd, d: Disk, m: Memory, d1: Disk, m1: Memory, d2: Disk, m2: Memory, loose: iset<int>)
    requires Apart(o, c, loose) && Partial(o, d1, m1, d2, m2)
    ensures Awaited(c, d, m, d1, m1, loose) ==> Awaited(c, d, m, d2, m2, loose)
    ensures Flat(c, d, m, d1, m1, loose) ==> Flat(c, d, m, d2, m2, loose)
  {
    assert forall k :: 0 <= k < |d1| && k !in loose ==> d2[k] == d1[k];
    assert c.prp1 in m1 ==> m2[c.prp1] == m1[c.prp1];
  }

  lemma OwnWorkIsAwaited(c: Cmd, d: Disk, m: Memory, d1: Disk, m1: Memory, d2: Disk, m2: Memory, loose: iset<int>)
    requires Awaited(c, d, m, d1, m1, loose) && Partial(c, d1, m1, d2, m2)
    ensures Awaited(c, d, m, d2, m2, loose)
  {
  }

  lemma OwnSuccessIsFlat(c: Cmd, d: Disk, m: Memory, d1: Disk, m1: Memory, d2: Disk, m2: Memory, loose: iset<int>)
    requires Awaited(c, d, m, d1, m1, loose) && Done(c, d1, m1, d2, m2)
    ensures Flat(c, d, m, d2, m2, loose)
  {
    var lba, n := Lba(c), Blocks(c);
    forall k | InRange(c, k) && k !in loose
      ensures c.opcode == OP_WRITE ==> d2[k] == m[c.prp1][k - lba]
      ensures c.opcode == OP_READ ==> d2[k] == d[k] && m2[c.prp1][k - lba] == d[k]
    {
      assert c.opcode == OP_WRITE ==> d2[k] == d2[lba..lba + n][k - lba] == m1[c.prp1][..n][k - lba];
      assert c.opcode == OP_READ ==> m2[c.prp1][..n][k - lba] == d1[lba..lba + n][k - lba];
    }
  }

  /** Job `n` on its way, among others that leave it alone. */
  ghost predicate OnItsWay(q: Queue, n: nat, d: Disk, m: Memory, loose: iset<int>) {
    && n < |Jobs(q)|
    && (forall i :: Pending(q, i) && i != n ==> Apart(Jobs(q)[i], Jobs(q)[n], loose))
    && (Pending(q, n) ==> Awaited(Jobs(q)[n], d, m, q.dev.disk, q.dev.memory, loose))
    && forall j :: 0 <= j < |q.dev.posted| && q.dev.posted[j] == Post(n, 0) ==>
         Flat(Jobs(q)[n], d, m, q.dev.disk, q.dev.memory, loose)
  }

  lemma InflightNotPosted(q: Queue, i: nat)
    requires Inv(q) && i in q.dev.inflight
    ensures forall j :: 0 <= j < |q.dev.posted| ==> q.dev.posted[j].index != i
  {
  }

  lemma OnItsWayStep(q: Queue, n: nat, d: Disk, m: Memory, loose: iset<int>, e: Event)
    requires Inv(q) && OnItsWay(q, n, d, m, loose) && Enabled(q.dev, e)
    ensures |q.sq| == |q.cq| == QDEPTH && OnItsWay(DeviceStep(q, e), n, d, m, loose)
  {
    DeviceKeepsInv(q, e);
    StepAnswersPending(q, e);
    var r := DeviceStep(q, e);
    hide Counters, Commands, Completions, Answers, Jobs, Partial, Done, Awaited, Flat, Apart, Pending, AnsweredSince;
    if !e.Fetch? {
      var o, c := q.dev.fetched[e.index], Jobs(q)[n];
      DoneIsPartial(e, o, q, r);
      if e.index == n {
        InflightNotPosted(q, n);
        OwnWorkIsAwaited(c, d, m, q.dev.disk, q.dev.memory, r.dev.disk, r.dev.memory, loose);
        if e.Complete? && e.code == 0 {
          OwnSuccessIsFlat(c, d, m, q.dev.disk, q.dev.memory, r.dev.disk, r.dev.memory, loose);
        }
      } else {
        OtherLeavesAlone(o, c, d, m, q.dev.disk, q.dev.memory, r.dev.disk, r.dev.memory, loose);
      }
    }
  }

  lemma {:induction false} OnItsWayRun(q: Queue, n: nat, d: Disk, m: Memory, loose: iset<int>, events: seq<Event>, r: Queue)
    requires Inv(q) && OnItsWay(q, n, d, m, loose) && DeviceRun(q, events, r)
    ensures OnItsWay(r, n, d, m, loose)
    decreases |events|
  {
    hide Inv, OnItsWay;
    if events != [] {
      OnItsWayStep(q, n, d, m, loose, events[0]);
      DeviceKeepsInv(q, events[0]);
      OnItsWayRun(DeviceStep(q, events[0]), n, d, m, loose, events[1..], r);
    }
  }

  lemma PendingIsApart(q: Queue, c: Cmd, i: int)
    requires Pending(q, i) && c.prp1 !in LoosePages(q)
    ensures Apart(Jobs(q)[i], c, Loose(q))
  {
    var o := Jobs(q)[i];
    hide Jobs, Pending, InRange;
    assert UsesPage(o, o.prp1) ==> PageLoose(q, o.prp1);
    assert forall k :: WritesSector(o, k) ==> SectorLoose(q, k);
    assert forall k :: o.opcode == OP_WRITE && InRange(o, k) ==> WritesSector(o, k);
  }

  lemma PostedWereFetched(q: Queue, n: nat)
    requires Inv(q) && n < |q.dev.posted|
    ensures q.dev.posted[n].index < |q.dev.fetched| <= |Jobs(q)|
  {
  }

  lemma SubmitSetsOut(q: Queue, cmd: Cmd)
    requires Inv(q) && HasRoom(q) && cmd.prp1 !in LoosePages(q)
    ensures |q.sq| == QDEPTH && OnItsWay(Submit(q, cmd), |Jobs(q)|, q.dev.disk, q.dev.memory, Loose(q))
  {
    SubmitJobs(q, cmd);
    var q1, n, c := Submit(q, cmd), |Jobs(q)|, cmd.(cid := q.cid);
    forall i | Pending(q1, i) && i != n
      ensures Apart(Jobs(q1)[i], c, Loose(q))
    {
      assert Pending(q, i) && Jobs(q1)[i] == Jobs(q)[i];
      PendingIsApart(q, c, i);
    }
    forall j | 0 <= j < |q.dev.posted|
      ensures q.dev.posted[j].index < n
    {
      PostedWereFetched(q, j);
    }
    hide Inv, Jobs, Loose, LoosePages, Apart, Pending, HasRoom, Flat;
  }

  /** Main result on success, for a state with any commands still unanswered: when
      none of those may change the bounce page, a submit that returns 0 has copied
      every sector they may not change either. */
  lemma SuccessIsFlat(q: Queue, cmd: Cmd, r: int, q': Queue)
    requires Inv(q) && !OldCommandInTheWay(q) && cmd.prp1 !in LoosePages(q)
    requires |q.sq| == QDEPTH && Waited(Submit(q, cmd), q.cid, r, q')
    ensures r == 0 ==> Flat(cmd.(cid := q.cid), q.dev.disk, q.dev.memory, q'.dev.disk, q'.dev.memory, Loose(q))
  {
    hide Inv, DeviceRun, OldCommandInTheWay, Flat, Awaited, Apart, Loose, Jobs;
    if r == 0 {
      var c, n, loose := cmd.(cid := q.cid), |Jobs(q)|, Loose(q);
      var q1, d, m := Submit(q, cmd), q.dev.disk, q.dev.memory;
      ZeroMeansDone(q, cmd, r, q');
      SubmitSetsOut(q, cmd);
      var events, mid, events' := ZeroWasAboutToBeReturned(q, cmd, q');
      OnItsWayRun(q1, n, d, m, loose, events, mid);
      assert forall i :: Pending(Take(mid), i) <==> Pending(mid, i);
      assert OnItsWay(Take(mid), n, d, m, loose);
      OnItsWayRun(Take(mid), n, d, m, loose, events', q');
      assert Jobs(q')[n] == c;
    }
  }

  // ----- exactly when a success may be no faithful copy -----

  /** Some run of a submit returns 0 without the copy having been made. */
  ghost predicate CanMiscopy(q: Queue, cmd: Cmd)
    requires |q.sq| == QDEPTH
  {
    exists q' :: Waited(Submit(q, cmd), q.cid, 0, q') && Miscopied(cmd, q.dev, q'.dev)
  }

  ghost predicate Miscopied(cmd: Cmd, before: Device, after: Device) {
    !Flat(cmd, before.disk, before.memory, after.disk, after.memory, iset{})
  }

  /** `o` may change what `c` transfers: its bounce page, or a sector of its range. */
  ghost predicate Touches(o: Cmd, c: Cmd) {
    if o.opcode == OP_WRITE then exists k :: InRange(o, k) && InRange(c, k) else o.prp1 == c.prp1
  }

  ghost predicate TouchedByOld(q: Queue, c: Cmd) {
    exists i :: Pending(q, i) && Touches(Jobs(q)[i], c)
  }

  lemma SomethingWaits(q: Queue)
    requires Inv(q) && |q.dev.fetched| < |Jobs(q)|
    ensures Enabled(q.dev, Fetch)
  {
    SameSlot(|q.submitted|, |q.dev.fetched|);
  }

  lemma FetchOnce(q: Queue) returns (r: Queue)
    requires Inv(q) && |q.dev.fetched| < |Jobs(q)|
    ensures DeviceRun(q, [Fetch], r) && Inv(r) && |r.dev.fetched| == |q.dev.fetched| + 1
    ensures Jobs(r) == Jobs(q) && r.taken == q.taken && r.dev.posted == q.dev.posted
    ensures r.dev.disk == q.dev.disk && r.dev.memory == q.dev.memory
    ensures forall i :: Pending(q, i) ==> Pending(r, i)
  {
    SomethingWaits(q);
    hide Inv, Jobs, DeviceRun, Enabled;
    DeviceKeepsInv(q, Fetch);
    OneEvent(q, Fetch);
    r := DeviceStep(q, Fetch);
    FetchKeepsPending(q);
  }

  lemma FetchKeepsPending(q: Queue)
    requires |q.sq| == |q.cq| == QDEPTH && Enabled(q.dev, Fetch) && Jobs(DeviceStep(q, Fetch)) == Jobs(q)
    ensures forall i :: Pending(q, i) ==> Pending(DeviceStep(q, Fetch), i)
  {
    hide Jobs;
  }

  /** The controller fetches all it is given. */
  lemma {:induction false} FetchAll(q: Queue) returns (events: seq<Event>, r: Queue)
    requires Inv(q)
    ensures DeviceRun(q, events, r) && Inv(r) && r.dev.fetched == Jobs(r) == Jobs(q)
    ensures r.taken == q.taken && r.dev.posted == q.dev.posted
    ensures r.dev.disk == q.dev.disk && r.dev.memory == q.dev.memory
    ensures forall i :: Pending(q, i) ==> i in r.dev.inflight
    decreases |Jobs(q)| - |q.dev.fetched|
  {
    NoEvents(q);
    hide Inv, DeviceRun, Jobs;
    events, r := [], q;
    if |q.dev.fetched| < |Jobs(q)| {
      var next := FetchOnce(q);
      events, r := FetchAll(next);
      DeviceRunsJoin(q, [Fetch], next, events, r);
      events := [Fetch] + events;
    }
  }

  /** A success posted for `i` when nothing waits is what the driver sees next. */
  lemma CompletionIsSeen(q: Queue, i: nat, d: Disk, m: Memory) returns (r: Queue)
    requires Inv(q) && q.taken == |q.dev.posted| && i in q.dev.inflight && i < |q.dev.fetched|
    requires Done(q.dev.fetched[i], q.dev.disk, q.dev.memory, d, m)
    ensures DeviceRun(q, [Complete(i, 0, d, m)], r) && Inv(r) && Seen(r) && Judged(r.cq[r.head], q.dev.fetched[i].cid) == 0
    ensures r.dev.inflight == q.dev.inflight - {i} && r.dev.fetched == q.dev.fetched
    ensures r.dev.disk == d && r.dev.memory == m
  {
    var e := Complete(i, 0, d, m);
    NotFull(|q.dev.posted|, q.taken);
    DeviceKeepsInv(q, e);
    OneEvent(q, e);
    r := DeviceStep(q, e);
    SeenIffPosted(r);
    EntryPhase(r.dev.fetched, r.dev.posted[q.taken], q.taken);
  }

  /** After the answer is taken, an unanswered command may still have its way before
      the driver looks at its page. */
  lemma TakenThenWork(q: Queue, events: seq<Event>, mid: Queue, cid: U16, i: nat, d: Disk, m: Memory) returns (q': Queue)
    requires Inv(mid) && DeviceRun(q, events, mid) && Seen(mid) && Judged(mid.cq[mid.head], cid) == 0
    requires i in mid.dev.inflight && i < |mid.dev.fetched|
    requires Partial(mid.dev.fetched[i], mid.dev.disk, mid.dev.memory, d, m)
    ensures Waited(q, cid, 0, q') && q'.dev.disk == d && q'.dev.memory == m
  {
    var e := Work(i, d, m);
    SeenIffPosted(mid);
    TakeKeepsInv(mid);
    OneEvent(Take(mid), e);
    q' := DeviceStep(Take(mid), e);
    hide Inv, DeviceRun;
    assert TookOne(q, events, mid, [e], q');
  }

  lemma AnotherSector(s: Sector) returns (t: Sector)
    ensures t != s
  {
    t := seq(512, _ => if s[0] == 0 then 1 else 0);
    assert t[0] != s[0];
  }

  /** `o` can spoil the copy even after the command was carried out. */
  ghost predicate HasLastWord(o: Cmd, c: Cmd) {
    Touches(o, c) && (o.opcode == OP_WRITE || c.opcode == OP_READ)
  }

  lemma Spoil(o: Cmd, c: Cmd, d: Disk, m: Memory, d1: Disk, m1: Memory) returns (d2: Disk, m2: Memory)
    requires HasLastWord(o, c) && Feasible(c, d, m) && (c.opcode == OP_READ || c.opcode == OP_WRITE)
    requires |d1| == |d| && m1.Keys == m.Keys
    ensures Partial(o, d1, m1, d2, m2) && !Flat(c, d, m, d2, m2, iset{})
  {
    d2, m2 := d1, m1;
    if o.opcode == OP_WRITE {
      var k :| InRange(o, k) && InRange(c, k);
      var s := AnotherSector(if c.opcode == OP_WRITE then m[c.prp1][k - Lba(c)] else d[k]);
      d2 := d1[k := s];
    } else {
      var s := AnotherSector(d[Lba(c)]);
      var page: Page := m1[c.prp1][0 := s];
      m2 := m1[c.prp1 := page];
      assert InRange(c, Lba(c)) && m2[c.prp1][0] == s;
    }
  }

  lemma SubmitAddsJob(q: Queue, cmd: Cmd)
    requires Inv(q) && HasRoom(q)
    ensures |q.sq| == QDEPTH && Inv(Submit(q, cmd)) && Jobs(Submit(q, cmd)) == Jobs(q) + [cmd.(cid := q.cid)]
    ensures Pending(Submit(q, cmd), |Jobs(q)|) && forall i :: Pending(q, i) ==> Pending(Submit(q, cmd), i)
  {
    SubmitKeepsInv(q, cmd);
    SubmitJobs(q, cmd);
    hide Counters, Commands, Completions, Answers, Jobs;
  }

  /** A submit after which the controller has fetched everything. */
  lemma SubmittedAndFetched(q: Queue, cmd: Cmd) returns (events: seq<Event>, r: Queue)
    requires Inv(q) && HasRoom(q)
    ensures |q.sq| == |r.cq| == QDEPTH && DeviceRun(Submit(q, cmd), events, r) && Inv(r)
    ensures r.dev.fetched == Jobs(q) + [cmd.(cid := q.cid)]
    ensures r.taken == q.taken && r.dev.posted == q.dev.posted
    ensures r.dev.disk == q.dev.disk && r.dev.memory == q.dev.memory
    ensures |Jobs(q)| in r.dev.inflight && forall i :: Pending(q, i) ==> i in r.dev.inflight
  {
    SubmitAddsJob(q, cmd);
    hide Counters, Commands, Answers, DeviceRun, Jobs, Pending, HasRoom;
    events, r := FetchAll(Submit(q, cmd));
    CommandsSized(r);
  }

  /** An old command that can spoil the result last does so. */
  lemma LastWordMiscopies(q: Queue, cmd: Cmd, i: nat)
    requires Inv(q) && HasRoom(q) && q.taken == |q.dev.posted| && Pending(q, i) && HasLastWord(Jobs(q)[i], cmd)
    requires Feasible(cmd, q.dev.disk, q.dev.memory) && (cmd.opcode == OP_READ || cmd.opcode == OP_WRITE)
    ensures |q.sq| == QDEPTH && CanMiscopy(q, cmd)
  {
    var events, q2 := SubmittedAndFetched(q, cmd);
    var q1, n, d, m := Submit(q, cmd), |Jobs(q)|, q.dev.disk, q.dev.memory;
    hide Inv, Done, Partial, Flat, DeviceRun, Seen, Judged, Touches, Feasible, Jobs;
    var d1, m1 := Carried(cmd.(cid := q.cid), d, m);
    var mid := CompletionIsSeen(q2, n, d1, m1);
    DeviceRunsJoin(q1, events, q2, [Complete(n, 0, d1, m1)], mid);
    var d2, m2 := Spoil(Jobs(q)[i], cmd, d, m, d1, m1);
    var q' := TakenThenWork(q1, events + [Complete(n, 0, d1, m1)], mid, q.cid, i, d2, m2);
    assert Miscopied(cmd, q.dev, q'.dev);
  }

  lemma Carried(c: Cmd, d: Disk, m: Memory) returns (d1: Disk, m1: Memory)
    requires Feasible(c, d, m)
    ensures Done(c, d, m, d1, m1) && |d1| == |d| && m1.Keys == m.Keys
  {
    d1, m1 := FeasibleIsDoable(c, d, m);
  }

  /** What an abandoned read may do to the bounce page of a write, before the write
      is carried out. */
  lemma SpoilPage(o: Cmd, c: Cmd, d: Disk, m: Memory) returns (m1: Memory, d2: Disk, m2: Memory)
    requires Feasible(c, d, m) && c.opcode == OP_WRITE && UsesPage(o, c.prp1)
    ensures Partial(o, d, m, d, m1) && Done(c, d, m1, d2, m2) && !Flat(c, d, m, d2, m2, iset{})
  {
    var s := AnotherSector(m[c.prp1][0]);
    var page: Page := m[c.prp1][0 := s];
    m1 := m[c.prp1 := page];
    d2, m2 := Carried(c, d, m1);
    var lba, n := Lba(c), Blocks(c);
    assert d2[lba] == d2[lba..lba + n][0] == m1[c.prp1][..n][0] == s;
    assert InRange(c, lba);
  }

  lemma FirstWordMiscopies(q: Queue, cmd: Cmd, i: nat)
    requires Inv(q) && HasRoom(q) && q.taken == |q.dev.posted| && Pending(q, i)
    requires cmd.opcode == OP_WRITE && UsesPage(Jobs(q)[i], cmd.prp1)
    requires Feasible(cmd, q.dev.disk, q.dev.memory)
    ensures |q.sq| == QDEPTH && CanMiscopy(q, cmd)
  {
    var events, q2 := SubmittedAndFetched(q, cmd);
    var q1, n, d, m, o := Submit(q, cmd), |Jobs(q)|, q.dev.disk, q.dev.memory, Jobs(q)[i];
    hide Counters, Commands, Completions, Done, Partial, Flat, DeviceRun, Seen, Judged, Feasible, Jobs;
    var m1, d2, m2 := SpoilPage(o, cmd.(cid := q.cid), d, m);
    var e := Work(i, d, m1);
    OneEvent(q2, e);
    DeviceKeepsInv(q2, e);
    var q3 := DeviceStep(q2, e);
    hide Inv;
    var mid := CompletionIsSeen(q3, n, d2, m2);
    DeviceRunsJoin(q1, events, q2, [e], q3);
    DeviceRunsJoin(q1, events + [e], q3, [Complete(n, 0, d2, m2)], mid);
    NothingIsPartial(o, d2, m2);
    var q' := TakenThenWork(q1, events + [e] + [Complete(n, 0, d2, m2)], mid, q.cid, i, d2, m2);
    FlatForAnyCid(cmd, q.cid, d, m, d2, m2);
    assert Miscopied(cmd, q.dev, q'.dev);
  }

  lemma NothingIsPartial(o: Cmd, d: Disk, m: Memory)
    ensures Partial(o, d, m, d, m)
  {
  }

  lemma FlatForAnyCid(c: Cmd, cid: U16, d: Disk, m: Memory, d': Disk, m': Memory)
    ensures Flat(c.(cid := cid), d, m, d', m', iset{}) <==> Flat(c, d, m, d', m', iset{})
  {
    assert forall k :: InRange(c.(cid := cid), k) <==> InRange(c, k);
  }

  /** The old command that is in the way answers first, while the one submitted last
      is still at work. */
  lemma OldAnswersFirst(q: Queue, cmd: Cmd) returns (events: seq<Event>, mid: Queue)
    requires Inv(q) && HasRoom(q) && OldCommandInTheWay(q)
    ensures |q.sq| == |mid.cq| == QDEPTH && DeviceRun(Submit(q, cmd), events, mid) && Inv(mid)
    ensures Seen(mid) && Judged(mid.cq[mid.head], q.cid) == 0
    ensures |Jobs(q)| in mid.dev.inflight && mid.dev.fetched == Jobs(q) + [cmd.(cid := q.cid)]
    ensures |mid.dev.disk| == |q.dev.disk| && mid.dev.memory.Keys == q.dev.memory.Keys
  {
    events, mid := SubmittedAndFetched(q, cmd);
    if q.taken < |q.dev.posted| {
      SeenIffPosted(mid);
      EntryPhase(mid.dev.fetched, mid.dev.posted[q.taken], q.taken);
    } else {
      var i :| i in q.dev.inflight && HasNextId(q, i) && CanSucceed(q, i);
      var q1, q2 := Submit(q, cmd), mid;
      assert Pending(q, i) && q2.dev.fetched[i] == q.dev.fetched[i];
      hide Inv, Done, DeviceRun, Seen, Judged, Jobs;
      var d1, m1 := Carried(q.dev.fetched[i], q.dev.disk, q.dev.memory);
      mid := CompletionIsSeen(q2, i, d1, m1);
      DeviceRunsJoin(q1, events, q2, [Complete(i, 0, d1, m1)], mid);
      events := events + [Complete(i, 0, d1, m1)];
    }
  }

  /** Its success is taken for the other's, which then spoils the copy. */
  lemma MistakeMiscopies(q: Queue, cmd: Cmd)
    requires Inv(q) && HasRoom(q) && OldCommandInTheWay(q)
    requires Feasible(cmd, q.dev.disk, q.dev.memory) && (cmd.opcode == OP_READ || cmd.opcode == OP_WRITE)
    ensures |q.sq| == QDEPTH && CanMiscopy(q, cmd)
  {
    var c := cmd.(cid := q.cid);
    assert InRange(cmd, Lba(cmd)) && InRange(c, Lba(cmd));
    assert HasLastWord(c, cmd);
    hide Inv, Done, Partial, Flat, DeviceRun, Seen, Judged, Touches, OldCommandInTheWay, Jobs;
    var events, mid := OldAnswersFirst(q, cmd);
    var d2, m2 := Spoil(c, cmd, q.dev.disk, q.dev.memory, mid.dev.disk, mid.dev.memory);
    var q' := TakenThenWork(Submit(q, cmd), events, mid, q.cid, |Jobs(q)|, d2, m2);
    assert Miscopied(cmd, q.dev, q'.dev);
  }

  /** Whatever the old command leaves in storage, its success is not the other's. */
  lemma MistakeDeceives(q: Queue, cmd: Cmd) returns (q': Queue)
    requires Inv(q) && OldCommandInTheWay(q)
    ensures |q.sq| == QDEPTH && Waited(Submit(q, cmd), q.cid, 0, q') && !OwnAnswerTaken(q, q')
  {
    OldCommandFools(q, cmd);
    CommandsSized(q);
    var events: seq<Event>, r: Queue :|
      DeviceRun(Submit(q, cmd), events, r) && WouldReturnZero(r) && NextIsAnother(r, |Jobs(q)|);
    SubmitKeepsInv(q, cmd);
    DeviceRunKeepsInv(Submit(q, cmd), events, r);
    q' := Take(r);
    NoEvents(q');
    assert q.cid == CidOf(|q.submitted|);
    hide Inv, DeviceRun, Jobs;
    assert TookOne(Submit(q, cmd), events, r, [], q');
  }

  lemma UntouchedIsFlat(q: Queue, cmd: Cmd, q': Queue)
    requires Inv(q) && !OldCommandInTheWay(q) && !TouchedByOld(q, cmd)
    requires |q.sq| == QDEPTH && Waited(Submit(q, cmd), q.cid, 0, q')
    ensures !Miscopied(cmd, q.dev, q'.dev)
  {
    hide Inv, Waited, OldCommandInTheWay, Jobs;
    assert forall i :: Pending(q, i) && UsesPage(Jobs(q)[i], cmd.prp1) ==> Touches(Jobs(q)[i], cmd);
    SuccessIsFlat(q, cmd, 0, q');
    FlatForAnyCid(cmd, q.cid, q.dev.disk, q.dev.memory, q'.dev.disk, q'.dev.memory);
    forall k | InRange(cmd.(cid := q.cid), k)
      ensures k !in Loose(q)
    {
      assert InRange(cmd, k);
      assert forall i :: Pending(q, i) && WritesSector(Jobs(q)[i], k) ==> Touches(Jobs(q)[i], cmd);
    }
  }

  lemma TouchMiscopies(q: Queue, cmd: Cmd)
    requires Inv(q) && HasRoom(q) && q.taken == |q.dev.posted| && TouchedByOld(q, cmd)
    requires Feasible(cmd, q.dev.disk, q.dev.memory) && (cmd.opcode == OP_READ || cmd.opcode == OP_WRITE)
    ensures |q.sq| == QDEPTH && CanMiscopy(q, cmd)
  {
    hide Inv, Feasible, CanMiscopy, Jobs;
    var i :| Pending(q, i) && Touches(Jobs(q)[i], cmd);
    PendingIsNat(q, i);
    if HasLastWord(Jobs(q)[i], cmd) {
      LastWordMiscopies(q, cmd, i);
    } else {
      FirstWordMiscopies(q, cmd, i);
    }
  }

  lemma PendingIsNat(q: Queue, i: int)
    requires Pending(q, i)
    ensures 0 <= i < |Jobs(q)|
  {
  }

  /** The success taken in `q'` was that of the command submitted in `q`. */
  predicate OwnAnswerTaken(q: Queue, q': Queue) {
    q'.taken == q.taken + 1 && q.taken < |q'.dev.posted| && q'.dev.posted[q.taken] == Post(|Jobs(q)|, 0)
  }

  /** Some run of a submit returns 0 although its own command was not the one that
      succeeded, or the copy is not faithful. */
  ghost predicate CanDeceive(q: Queue, cmd: Cmd)
    requires |q.sq| == QDEPTH
  {
    exists q' :: Waited(Submit(q, cmd), q.cid, 0, q') && (!OwnAnswerTaken(q, q') || Miscopied(cmd, q.dev, q'.dev))
  }

  /** An unanswered command may spoil what `cmd` transfers. */
  ghost predicate CanBeSpoiled(q: Queue, cmd: Cmd) {
    && HasRoom(q) && q.taken == |q.dev.posted|
    && Feasible(cmd, q.dev.disk, q.dev.memory) && TouchedByOld(q, cmd)
  }

  lemma OnlyTheseGoWrong(q: Queue, cmd: Cmd, q': Queue)
    requires Inv(q) && !OldCommandInTheWay(q) && |q.sq| == QDEPTH && Waited(Submit(q, cmd), q.cid, 0, q')
    ensures OwnAnswerTaken(q, q') && (Miscopied(cmd, q.dev, q'.dev) ==> CanBeSpoiled(q, cmd))
  {
    hide Inv, Waited, Miscopied, OldCommandInTheWay, Feasible, TouchedByOld, Jobs;
    ZeroMeansDone(q, cmd, 0, q');
    SuccessWasFeasible(q, cmd, q');
    if !TouchedByOld(q, cmd) {
      UntouchedIsFlat(q, cmd, q');
    }
  }

  lemma SuccessWasFeasible(q: Queue, cmd: Cmd, q': Queue)
    requires Inv(q) && !OldCommandInTheWay(q) && |q.sq| == QDEPTH && Waited(Submit(q, cmd), q.cid, 0, q')
    ensures Feasible(cmd, q.dev.disk, q.dev.memory)
  {
    hide Waited, Commands, Completions, Answers, Jobs, OldCommandInTheWay;
    ZeroMeansDone(q, cmd, 0, q');
    SubmitKeepsInv(q, cmd);
    SubmitJobs(q, cmd);
    WaitedSpares(Submit(q, cmd), q.cid, 0, q');
    assert AnsweredWell(Submit(q, cmd), q'.dev.posted[q.taken]);
  }

  /** Exactly when the code can go wrong: a submit may return 0 for another command,
      or without a faithful copy, if and only if an old command with its identifier
      is in the way, or no answer waits, there is room, and some unanswered command
      touches its page or its range. The driver frees the bounce page of a command
      that timed out, so either may be. */
  lemma DeceivesIffTouched(q: Queue, cmd: Cmd)
    requires Inv(q) && (cmd.opcode == OP_READ || cmd.opcode == OP_WRITE)
    ensures |q.sq| == QDEPTH && (CanDeceive(q, cmd) <==> OldCommandInTheWay(q) || CanBeSpoiled(q, cmd))
  {
    CommandsSized(q);
    hide Inv, Waited, Miscopied, OldCommandInTheWay, OwnAnswerTaken, Feasible, TouchedByOld;
    if OldCommandInTheWay(q) {
      var q' := MistakeDeceives(q, cmd);
    } else if CanBeSpoiled(q, cmd) {
      TouchMiscopies(q, cmd);
    } else {
      forall q' | Waited(Submit(q, cmd), q.cid, 0, q')
        ensures OwnAnswerTaken(q, q') && !Miscopied(cmd, q.dev, q'.dev)
      {
        OnlyTheseGoWrong(q, cmd, q');
      }
    }
  }

  /** With room, the copy itself may be unfaithful under the same condition. Without
      room nothing is copied at all, and 0 is returned only when an old command is in
      the way. */
  lemma MiscopiesIffTouched(q: Queue, cmd: Cmd)
    requires Inv(q) && (cmd.opcode == OP_READ || cmd.opcode == OP_WRITE)
    ensures |q.sq| == QDEPTH
    ensures HasRoom(q) ==> (CanMiscopy(q, cmd) <==> OldCommandInTheWay(q) || CanBeSpoiled(q, cmd))
    ensures !HasRoom(q) ==> ((exists q' :: Waited(Submit(q, cmd), q.cid, 0, q')) <==> OldCommandInTheWay(q))
  {
    CommandsSized(q);
    hide Inv, Waited, OldCommandInTheWay, TouchedByOld, OwnAnswerTaken, Jobs;
    if OldCommandInTheWay(q) {
      var q' := MistakeDeceives(q, cmd);
      assert !Feasible(cmd, q.dev.disk, q.dev.memory) ==> Miscopied(cmd, q.dev, q'.dev);
      if HasRoom(q) && Feasible(cmd, q.dev.disk, q.dev.memory) {
        MistakeMiscopies(q, cmd);
      }
    } else {
      forall q' | Waited(Submit(q, cmd), q.cid, 0, q')
        ensures HasRoom(q) && (Miscopied(cmd, q.dev, q'.dev) ==> CanBeSpoiled(q, cmd))
      {
        OnlyTheseGoWrong(q, cmd, q');
        ZeroMeansDone(q, cmd, 0, q');
      }
      if CanBeSpoiled(q, cmd) {
        TouchMiscopies(q, cmd);
      }
    }
  }

  /** A run in which it goes wrong: the very first read times out, its page is freed
      and handed to the second read, and the first one is still under way. */
  lemma AbandonedReadCanSpoilNext()
    ensures exists q: Queue, cmd: Cmd ::
              && Reachable(q) && Inv(q) && !OldCommandInTheWay(q) && cmd.opcode == OP_READ
              && q.submitted == [cmd] && |q.sq| == QDEPTH && CanMiscopy(q, cmd)
  {
    var q, cmd := FirstCommandHangs();
    assert q.submitted == [cmd];
    assert IsRecent(q, q.submitted[0]);
    RecentCommandsNeverInTheWay(q);
    assert Pending(q, 0) && Jobs(q)[0] == cmd;
    TouchMiscopies(q, cmd);
  }
}
