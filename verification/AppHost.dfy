/**
  The hosted-application rings of kernel/apphost.c. Each section between `cli` and
  `sti` is one atomic step; `apphost_kill` is two of them.
*/
module AppHost {
  import opened Prelude

  const OUT_SIZE: nat := 65536
  const IN_SIZE: nat := 4096
  const QUIT_BYTE: Byte := 0xFF
  const QUIT_LINE: seq<Byte> := [0x71, 0x0A]  // "q\n"

  // ----- one ring, in place -----

  /** Both rings run the same code on buffers of different sizes. */
  class ByteRing {
    const buf: array<Byte>
    var head: nat
    var tail: nat

    ghost predicate Valid()
      reads this
    {
      buf.Length > 1 && head < buf.Length && tail < buf.Length
    }

    ghost function Contents(): seq<Byte>
      requires Valid()
      reads this, buf
    {
      Between(buf[..], head, tail)
    }

    constructor (size: nat)
      requires size > 1
      ensures Valid() && fresh(buf) && buf.Length == size && Contents() == []
    {
      buf := new Byte[size](_ => 0);
      head := 0;
      tail := 0;
    }

    /** The loop of `apphost_write_out` and `apphost_write_in`. */
    method Write(data: seq<Byte>) returns (accepted: nat)
      requires Valid()
      modifies `tail, buf
      ensures Valid() && accepted == Min(|data|, buf.Length - 1 - |old(Contents())|)
      ensures Contents() == old(Contents()) + data[..accepted]
    {
      hide Between;
      accepted := 0;
      ghost var q := Contents();
      RoomLeft(buf[..], head, tail);
      assert q + data[..0] == q;
      for i := 0 to |data|
        invariant Valid() && accepted == i && |Contents()| < buf.Length
        invariant Contents() == q + data[..i]
      {
        var next := (tail + 1) % buf.Length;
        RoomLeft(buf[..], head, tail);
        if next == head { break; }
        Push(buf[..], head, tail, data[i]);
        buf[tail] := data[i];
        tail := next;
        RoomLeft(buf[..], head, tail);
        accepted := accepted + 1;
        assert q + data[..i] + [data[i]] == q + data[..i + 1];
      }
    }

    /** The loop of `apphost_drain` and `apphost_read_in`. */
    method Drain(max: int) returns (out: seq<Byte>)
      requires Valid()
      modifies `head
      ensures Valid() && out == old(Contents())[..Min(if max < 0 then 0 else max, |old(Contents())|)]
      ensures Contents() == old(Contents())[|out|..]
    {
      hide Between;
      out := [];
      ghost var q := Contents();
      while |out| < max && head != tail
        invariant Valid() && q == out + Contents()
        invariant |out| <= if max < 0 then 0 else max
        decreases max - |out|
      {
        Pop(buf[..], head, tail);
        out := out + [buf[head]];
        head := (head + 1) % buf.Length;
      }
      RoomLeft(buf[..], head, tail);
    }

    method Reset()
      requires Valid()
      modifies this
      ensures Valid() && Contents() == []
    {
      head := 0;
      tail := 0;
    }
  }

  lemma Around(i: nat, n: nat)
    requires i < n
    ensures (i + 1) % n == if i + 1 == n then 0 else i + 1
  {
  }

  /** The bytes from `head` up to `tail`, around the end of the buffer. */
  function Between(b: seq<Byte>, head: nat, tail: nat): seq<Byte>
    requires head < |b| && tail < |b|
  {
    if head <= tail then b[head..tail] else b[head..] + b[..tail]
  }

  /** One place always stays empty, so equal indices mean an empty ring. */
  lemma RoomLeft(b: seq<Byte>, head: nat, tail: nat)
    requires head < |b| && tail < |b|
    ensures |Between(b, head, tail)| <= |b| - 1
    ensures |Between(b, head, tail)| == |b| - 1 <==> (tail + 1) % |b| == head
    ensures Between(b, head, tail) == [] <==> head == tail
  {
    Around(tail, |b|);
  }

  lemma Push(b: seq<Byte>, head: nat, tail: nat, x: Byte)
    requires head < |b| && tail < |b| && (tail + 1) % |b| != head
    ensures Between(b[tail := x], head, (tail + 1) % |b|) == Between(b, head, tail) + [x]
  {
    Around(tail, |b|);
  }

  lemma Pop(b: seq<Byte>, head: nat, tail: nat)
    requires head < |b| && tail < |b| && head != tail
    ensures Between(b, head, tail) == [b[head]] + Between(b, (head + 1) % |b|, tail)
  {
    Around(head, |b|);
  }

  // ----- the atomic steps as functions -----

  /** Queued bytes and the kill flags. */
  datatype Host = Host(outQueue: seq<Byte>, inQueue: seq<Byte>, kill: bool, killReq: bool)

  datatype Step =
    | WriteOut(data: seq<Byte>)
    | DrainOut(max: int)
    | WriteIn(data: seq<Byte>)
    | ReadIn(max: int)
    | KillFlags        // first section of apphost_kill
    | KillLine         // second section: "q\n" goes into the input ring
    | Clear

  function Start(): Host {
    Host([], [], false, false)
  }

  function Fits(queue: seq<Byte>, size: nat, data: seq<Byte>): seq<Byte> {
    data[..Min(|data|, if |queue| < size then size - 1 - |queue| else 0)]
  }

  function Taken(queue: seq<Byte>, max: int): seq<Byte> {
    queue[..Min(if max < 0 then 0 else max, |queue|)]
  }

  /** A read marks the quit when the flag is up and room is left after all input. */
  predicate Marks(s: Host, max: int) {
    s.kill && max > |s.inQueue|
  }

  /** What `apphost_read_in` hands to the application. */
  function ReadOut(s: Host, max: int): seq<Byte> {
    Taken(s.inQueue, max) + if Marks(s, max) then [QUIT_BYTE] else []
  }

  function After(s: Host, step: Step): Host {
    match step
    case WriteOut(data) => s.(outQueue := s.outQueue + Fits(s.outQueue, OUT_SIZE, data))
    case DrainOut(max) => s.(outQueue := s.outQueue[|Taken(s.outQueue, max)|..])
    case WriteIn(data) => Entered(s, data)
    case ReadIn(max) => s.(inQueue := s.inQueue[|Taken(s.inQueue, max)|..], kill := s.kill && !Marks(s, max))
    case KillFlags => s.(kill := true, killReq := true)
    case KillLine => Entered(s, QUIT_LINE)
    case Clear => s.(outQueue := [], inQueue := [])
  }

  function Entered(s: Host, data: seq<Byte>): Host {
    s.(inQueue := s.inQueue + Fits(s.inQueue, IN_SIZE, data))
  }

  function Run(s: Host, steps: seq<Step>): Host {
    if steps == [] then s else After(Run(s, steps[..|steps| - 1]), steps[|steps| - 1])
  }

  // ----- the code, in place -----

  class AppRings {
    const outRing: ByteRing
    const inRing: ByteRing
    var kill: bool
    var killReq: bool

    ghost predicate Valid()
      reads this, outRing, inRing
    {
      && outRing != inRing && outRing.buf != inRing.buf
      && outRing.Valid() && outRing.buf.Length == OUT_SIZE
      && inRing.Valid() && inRing.buf.Length == IN_SIZE
    }

    /** The present state agrees with `s`. */
    ghost predicate Shows(s: Host)
      requires Valid()
      reads this, outRing, inRing, outRing.buf, inRing.buf
    {
      outRing.Contents() == s.outQueue && inRing.Contents() == s.inQueue && kill == s.kill && killReq == s.killReq
    }

    constructor ()
      ensures Valid() && Shows(Start())
      ensures fresh(outRing) && fresh(outRing.buf) && fresh(inRing) && fresh(inRing.buf)
    {
      outRing := new ByteRing(OUT_SIZE);
      inRing := new ByteRing(IN_SIZE);
      kill := false;
      killReq := false;
    }

    /** `apphost_write_out`. */
    method WriteOutput(data: seq<Byte>, ghost s: Host) returns (accepted: nat)
      requires Valid() && Shows(s)
      modifies outRing, outRing.buf
      ensures Valid() && Shows(After(s, WriteOut(data))) && accepted == |Fits(s.outQueue, OUT_SIZE, data)|
      ensures outRing.Contents() == old(outRing.Contents()) + data[..accepted]
      ensures accepted == Min(|data|, OUT_SIZE - 1 - |old(outRing.Contents())|)
    {
      hide Between;
      accepted := outRing.Write(data);
    }

    /** `apphost_drain`. */
    method Drain(max: int, ghost s: Host) returns (out: seq<Byte>)
      requires Valid() && Shows(s)
      modifies outRing
      ensures Valid() && Shows(After(s, DrainOut(max))) && out == Taken(s.outQueue, max)
      ensures old(outRing.Contents()) == out + outRing.Contents()
      ensures |out| == Min(if max < 0 then 0 else max, |old(outRing.Contents())|)
    {
      hide Between;
      out := outRing.Drain(max);
    }

    /** `apphost_write_in`. */
    method WriteInput(data: seq<Byte>, ghost s: Host) returns (accepted: nat)
      requires Valid() && Shows(s)
      modifies inRing, inRing.buf
      ensures Valid() && Shows(After(s, WriteIn(data))) && accepted == |Fits(s.inQueue, IN_SIZE, data)|
      ensures inRing.Contents() == old(inRing.Contents()) + data[..accepted]
      ensures accepted == Min(|data|, IN_SIZE - 1 - |old(inRing.Contents())|)
    {
      hide Between;
      accepted := inRing.Write(data);
    }

    /** `apphost_read_in`. */
    method ReadInput(max: int, ghost s: Host) returns (out: seq<Byte>)
      requires Valid() && Shows(s)
      modifies inRing, `kill
      ensures Valid() && Shows(After(s, ReadIn(max))) && out == ReadOut(s, max)
      ensures max > |old(inRing.Contents())| ==>
                inRing.Contents() == [] && !kill && out == old(inRing.Contents()) + if old(kill) then [QUIT_BYTE] else []
      ensures max <= |old(inRing.Contents())| ==>
                kill == old(kill) && |out| == (if max < 0 then 0 else max) && out + inRing.Contents() == old(inRing.Contents())
    {
      hide Between;
      if max <= 0 { return []; }
      out := inRing.Drain(max);
      if kill && |out| < max {
        kill := false;
        out := out + [QUIT_BYTE];
      }
    }

    /** The first section of `apphost_kill`. */
    method RaiseKill(ghost s: Host)
      requires Valid() && Shows(s)
      modifies `kill, `killReq
      ensures Valid() && Shows(After(s, KillFlags)) && kill && killReq
    {
      kill := true;
      killReq := true;
    }

    /** `apphost_clear`. */
    method ClearRings(ghost s: Host)
      requires Valid() && Shows(s)
      modifies outRing, inRing
      ensures Valid() && Shows(After(s, Clear)) && outRing.Contents() == [] && inRing.Contents() == []
    {
      outRing.Reset();
      inRing.Reset();
    }
  }

  // ----- every run -----

  predicate Inv(s: Host) {
    |s.outQueue| < OUT_SIZE && |s.inQueue| < IN_SIZE
  }

  lemma FitsBounded(queue: seq<Byte>, size: nat, data: seq<Byte>)
    requires |queue| < size
    ensures |queue + Fits(queue, size, data)| < size
  {
  }

  /** A write takes the longest prefix that fits. */
  lemma FitsIsLongest(queue: seq<Byte>, size: nat, data: seq<Byte>)
    requires |queue| < size
    ensures Fits(queue, size, data) <= data
    ensures Fits(queue, size, data) == data || |queue| + |Fits(queue, size, data)| == size - 1
  {
  }

  /** A read takes the oldest bytes, as many as are asked for and there. */
  lemma TakenSplits(queue: seq<Byte>, max: int)
    ensures |Taken(queue, max)| == Min(if max < 0 then 0 else max, |queue|)
    ensures queue == Taken(queue, max) + queue[|Taken(queue, max)|..]
  {
  }

  lemma StepKeepsInv(s: Host, step: Step)
    requires Inv(s)
    ensures Inv(After(s, step))
  {
    hide Fits, Taken;
    match step
    case WriteOut(data) => FitsBounded(s.outQueue, OUT_SIZE, data);
    case DrainOut(max) => TakenSplits(s.outQueue, max);
    case WriteIn(data) => FitsBounded(s.inQueue, IN_SIZE, data);
    case ReadIn(max) => TakenSplits(s.inQueue, max);
    case KillFlags =>
    case KillLine => FitsBounded(s.inQueue, IN_SIZE, QUIT_LINE);
    case Clear =>
  }

  lemma {:induction false} RunKeepsInv(s: Host, steps: seq<Step>)
    requires Inv(s)
    ensures Inv(Run(s, steps))
  {
    if steps != [] {
      RunKeepsInv(s, steps[..|steps| - 1]);
      StepKeepsInv(Run(s, steps[..|steps| - 1]), steps[|steps| - 1]);
    }
  }

  /** What one step takes into a ring, and what it hands out of it. */
  function OutputTaken(s: Host, step: Step): seq<Byte> {
    if step.WriteOut? then Fits(s.outQueue, OUT_SIZE, step.data) else []
  }

  function OutputGiven(s: Host, step: Step): seq<Byte> {
    if step.DrainOut? then Taken(s.outQueue, step.max) else []
  }

  function InputTaken(s: Host, step: Step): seq<Byte> {
    if step.WriteIn? then Fits(s.inQueue, IN_SIZE, step.data)
    else if step.KillLine? then Fits(s.inQueue, IN_SIZE, QUIT_LINE)
    else []
  }

  function InputGiven(s: Host, step: Step): seq<Byte> {
    if step.ReadIn? then Taken(s.inQueue, step.max) else []
  }

  /** The same over whole runs, in order. */
  function OutAccepted(s: Host, steps: seq<Step>): seq<Byte> {
    if steps == [] then []
    else OutAccepted(s, steps[..|steps| - 1]) + OutputTaken(Run(s, steps[..|steps| - 1]), steps[|steps| - 1])
  }

  function OutDelivered(s: Host, steps: seq<Step>): seq<Byte> {
    if steps == [] then []
    else OutDelivered(s, steps[..|steps| - 1]) + OutputGiven(Run(s, steps[..|steps| - 1]), steps[|steps| - 1])
  }

  function InAccepted(s: Host, steps: seq<Step>): seq<Byte> {
    if steps == [] then []
    else InAccepted(s, steps[..|steps| - 1]) + InputTaken(Run(s, steps[..|steps| - 1]), steps[|steps| - 1])
  }

  function InDelivered(s: Host, steps: seq<Step>): seq<Byte> {
    if steps == [] then []
    else InDelivered(s, steps[..|steps| - 1]) + InputGiven(Run(s, steps[..|steps| - 1]), steps[|steps| - 1])
  }

  lemma StepConserves(s: Host, step: Step)
    requires !step.Clear?
    ensures s.outQueue + OutputTaken(s, step) == OutputGiven(s, step) + After(s, step).outQueue
    ensures s.inQueue + InputTaken(s, step) == InputGiven(s, step) + After(s, step).inQueue
  {
    hide Fits, Taken;
    if step.DrainOut? {
      TakenSplits(s.outQueue, step.max);
    } else if step.ReadIn? {
      TakenSplits(s.inQueue, step.max);
    }
  }

  lemma Conserved(given: seq<Byte>, taken: seq<Byte>, queue: seq<Byte>, start: seq<Byte>, more: seq<Byte>, out: seq<Byte>, left: seq<Byte>)
    requires start + taken == given + queue && queue + more == out + left
    ensures start + (taken + more) == (given + out) + left
  {
    assert start + (taken + more) == (start + taken) + more == given + (queue + more);
  }

  /** Main result on the rings, for any interleaving of the atomic steps since the
      rings were in any state `s`, until they are cleared: what was queued and what was
      accepted since is, in this order, what was delivered and what is still queued. */
  lemma {:induction false} BytesAreConserved(s: Host, steps: seq<Step>)
    requires forall i :: 0 <= i < |steps| ==> !steps[i].Clear?
    ensures s.outQueue + OutAccepted(s, steps) == OutDelivered(s, steps) + Run(s, steps).outQueue
    ensures s.inQueue + InAccepted(s, steps) == InDelivered(s, steps) + Run(s, steps).inQueue
  {
    hide After, OutputTaken, OutputGiven, InputTaken, InputGiven;
    if steps != [] {
      var before, last := steps[..|steps| - 1], steps[|steps| - 1];
      var m := Run(s, before);
      BytesAreConserved(s, before);
      StepConserves(m, last);
      Conserved(OutDelivered(s, before), OutAccepted(s, before), m.outQueue, s.outQueue,
                OutputTaken(m, last), OutputGiven(m, last), After(m, last).outQueue);
      Conserved(InDelivered(s, before), InAccepted(s, before), m.inQueue, s.inQueue,
                InputTaken(m, last), InputGiven(m, last), After(m, last).inQueue);
    }
  }

  /** So each ring is a bounded first-in first-out queue. */
  lemma RingsAreFifo(steps: seq<Step>)
    requires forall i :: 0 <= i < |steps| ==> !steps[i].Clear?
    ensures var out, taken := OutDelivered(Start(), steps), OutAccepted(Start(), steps);
            out <= taken && |taken| - |out| < OUT_SIZE
    ensures var out, taken := InDelivered(Start(), steps), InAccepted(Start(), steps);
            out <= taken && |taken| - |out| < IN_SIZE
  {
    RunKeepsInv(Start(), steps);
    BytesAreConserved(Start(), steps);
    assert Start().outQueue + OutAccepted(Start(), steps) == OutAccepted(Start(), steps);
    assert Start().inQueue + InAccepted(Start(), steps) == InAccepted(Start(), steps);
  }

  // ----- the quit line and the marker -----

  /** Some step of the list is a read with room to spare when its turn comes. */
  predicate SomeRoomyRead(s: Host, steps: seq<Step>) {
    exists i :: 0 <= i < |steps| && RoomyRead(Run(s, steps[..i]), steps[i])
  }

  lemma RoomyReadOneMore(s: Host, steps: seq<Step>, last: Step)
    ensures SomeRoomyRead(s, steps + [last]) <==> SomeRoomyRead(s, steps) || RoomyRead(Run(s, steps), last)
  {
    hide Run, RoomyRead;
    var all := steps + [last];
    assert forall i :: 0 <= i <= |steps| ==> all[..i] == steps[..i];
    assert steps[..|steps|] == steps && all[|steps|] == last;
    if i :| 0 <= i < |steps| && RoomyRead(Run(s, steps[..i]), steps[i]) {
      assert RoomyRead(Run(s, all[..i]), all[i]);
    }
    if RoomyRead(Run(s, steps), last) {
      assert RoomyRead(Run(s, all[..|steps|]), all[|steps|]);
    }
  }

  lemma FlagAfter(s: Host, step: Step)
    requires !step.KillFlags?
    ensures After(s, step).kill <==> s.kill && !RoomyRead(s, step)
  {
  }

  lemma {:induction false} FlagFallsIff(s: Host, steps: seq<Step>)
    requires forall i :: 0 <= i < |steps| ==> !steps[i].KillFlags?
    requires s.kill
    ensures !Run(s, steps).kill <==> SomeRoomyRead(s, steps)
  {
    hide After, RoomyRead;
    if steps != [] {
      var n := |steps| - 1;
      var before := steps[..n];
      FlagFallsIff(s, before);
      assert steps == before + [steps[n]];
      RoomyReadOneMore(s, before, steps[n]);
      FlagAfter(Run(s, before), steps[n]);
    }
  }

  /** The teardown request is sticky: it stands once a kill has begun. */
  lemma {:induction false} KillRequestStands(s: Host, steps: seq<Step>)
    ensures Run(s, steps).killReq <==> s.killReq || exists i :: 0 <= i < |steps| && steps[i].KillFlags?
  {
    hide After;
    if steps != [] {
      var before, last := steps[..|steps| - 1], steps[|steps| - 1];
      KillRequestStands(s, before);
      OnlyKillAsks(Run(s, before), last);
      assert steps == before + [last];
    }
  }

  lemma OnlyKillAsks(s: Host, step: Step)
    ensures After(s, step).killReq <==> s.killReq || step.KillFlags?
  {
    hide Taken, Fits;
  }

  predicate RoomyRead(s: Host, step: Step) {
    step.ReadIn? && step.max > |s.inQueue|
  }

  /** What the application is handed: input bytes, and markers. On the wire a marker
      is the quit byte, which input may contain too. */
  datatype Item = Input(b: Byte) | Marker

  function Inputs(bytes: seq<Byte>): (r: seq<Item>)
    ensures |r| == |bytes| && Marker !in r
  {
    seq(|bytes|, i requires 0 <= i < |bytes| => Input(bytes[i]))
  }

  function Spelled(items: seq<Item>): seq<Byte> {
    seq(|items|, i requires 0 <= i < |items| => if items[i] == Marker then QUIT_BYTE else items[i].b)
  }

  function ReadItems(s: Host, step: Step): seq<Item> {
    if step.ReadIn? then Inputs(Taken(s.inQueue, step.max)) + (if Marks(s, step.max) then [Marker] else []) else []
  }

  lemma ReadItemsSpelled(s: Host, step: Step)
    ensures Spelled(ReadItems(s, step)) == if step.ReadIn? then ReadOut(s, step.max) else []
  {
  }

  /** A read hands over the marker exactly when the flag is up and room is left after
      all input that is queued; it then takes the flag down, and a read without the
      marker leaves the flag. */
  lemma MarkerComesLast(s: Host, max: int)
    ensures var items, s' := ReadItems(s, ReadIn(max)), After(s, ReadIn(max));
            && (Marker in items <==> s.kill && max > |s.inQueue|)
            && (Marker in items ==> items == Inputs(s.inQueue) + [Marker] && s'.inQueue == [] && !s'.kill)
            && (Marker !in items ==> items <= Inputs(s.inQueue) && s'.kill == s.kill)
  {
    var items := ReadItems(s, ReadIn(max));
    if Marks(s, max) {
      assert items[|items| - 1] == Marker;
      assert Taken(s.inQueue, max) == s.inQueue;
    }
  }

  /** So when a run comes to hand over the marker, every input byte accepted before has
      been delivered. */
  lemma MarkerAfterAllInput(steps: seq<Step>, max: int)
    requires forall i :: 0 <= i < |steps| ==> !steps[i].Clear?
    ensures var all := steps + [ReadIn(max)];
            Marker in ReadItems(Run(Start(), steps), ReadIn(max)) ==>
              InDelivered(Start(), all) == InAccepted(Start(), all) == InAccepted(Start(), steps)
  {
    var all, s := steps + [ReadIn(max)], Run(Start(), steps);
    assert all[..|all| - 1] == steps;
    MarkerComesLast(s, max);
    BytesAreConserved(Start(), all);
    assert Start().inQueue + InAccepted(Start(), all) == InAccepted(Start(), all);
  }

  function MarkerCount(items: seq<Item>): nat {
    if items == [] then 0 else MarkerCount(items[..|items| - 1]) + if items[|items| - 1] == Marker then 1 else 0
  }

  function KillCount(steps: seq<Step>): nat {
    if steps == [] then 0 else KillCount(steps[..|steps| - 1]) + if steps[|steps| - 1].KillFlags? then 1 else 0
  }

  lemma {:induction false} MarkersAdd(a: seq<Item>, b: seq<Item>)
    ensures MarkerCount(a + b) == MarkerCount(a) + MarkerCount(b)
  {
    if b == [] {
      assert a + b == a;
    } else {
      MarkersAdd(a, b[..|b| - 1]);
      assert (a + b)[..|a + b| - 1] == a + b[..|b| - 1];
    }
  }

  lemma {:induction false} NoMarkers(items: seq<Item>)
    requires Marker !in items
    ensures MarkerCount(items) == 0
  {
    if items != [] {
      NoMarkers(items[..|items| - 1]);
    }
  }

  lemma ReadMarkers(s: Host, step: Step)
    ensures MarkerCount(ReadItems(s, step)) == if step.ReadIn? && Marks(s, step.max) then 1 else 0
  {
    if step.ReadIn? {
      var inputs := Inputs(Taken(s.inQueue, step.max));
      NoMarkers(inputs);
      MarkersAdd(inputs, [Marker]);
      assert [Marker][..0] == [];
      assert inputs + [] == inputs;
    }
  }

  /** The quit byte is handed over at most once per kill request. */
  lemma {:induction false} MarkersNeverOutnumberKills(s: Host, steps: seq<Step>)
    ensures MarkerCount(Handed(s, steps)) + (if Run(s, steps).kill then 1 else 0) <= KillCount(steps) + (if s.kill then 1 else 0)
  {
    hide ReadItems, Taken, Fits;
    if steps != [] {
      var before, last := steps[..|steps| - 1], steps[|steps| - 1];
      MarkersNeverOutnumberKills(s, before);
      MarkersAdd(Handed(s, before), ReadItems(Run(s, before), last));
      ReadMarkers(Run(s, before), last);
    }
  }

  /** All that the reads among `steps` hand over. */
  function Handed(s: Host, steps: seq<Step>): seq<Item> {
    if steps == [] then []
    else
      var before := steps[..|steps| - 1];
      Handed(s, before) + ReadItems(Run(s, before), steps[|steps| - 1])
  }

  /** The bytes those reads deliver. */
  function Delivered(s: Host, steps: seq<Step>): seq<Byte> {
    if steps == [] then []
    else
      var before, last := steps[..|steps| - 1], steps[|steps| - 1];
      Delivered(s, before) + if last.ReadIn? then ReadOut(Run(s, before), last.max) else []
  }

  lemma SpelledJoins(a: seq<Item>, b: seq<Item>)
    ensures Spelled(a + b) == Spelled(a) + Spelled(b)
  {
  }

  /** The items are what the delivered bytes stand for. */
  lemma {:induction false} HandedIsDelivered(s: Host, steps: seq<Step>)
    ensures Spelled(Handed(s, steps)) == Delivered(s, steps)
  {
    hide Spelled, ReadItems, ReadOut;
    if steps == [] {
      assert Spelled([]) == [] by { NothingSpelled(); }
    } else {
      var before, last := steps[..|steps| - 1], steps[|steps| - 1];
      HandedIsDelivered(s, before);
      SpelledJoins(Handed(s, before), ReadItems(Run(s, before), last));
      ReadItemsSpelled(Run(s, before), last);
    }
  }

  lemma NothingSpelled()
    ensures Spelled([]) == []
  {
  }

  /** Main result on the quit protocol: between the two sections of `apphost_kill`
      other steps may run. The marker is handed over there, before the quit line even
      enters the ring, exactly when one of them is a read with room to spare. */
  lemma {:induction false} MarkerOvertakesLineIff(s: Host, between: seq<Step>)
    requires forall i :: 0 <= i < |between| ==> !between[i].KillFlags?
    requires s.kill
    ensures Marker in Handed(s, between) <==> SomeRoomyRead(s, between)
  {
    hide After, Run, Taken;
    if between != [] {
      var n := |between| - 1;
      var before := between[..n];
      MarkerOvertakesLineIff(s, before);
      FlagFallsIff(s, before);
      assert between == before + [between[n]];
      RoomyReadOneMore(s, before, between[n]);
      var items := ReadItems(Run(s, before), between[n]);
      assert Marker in items <==> Run(s, before).kill && RoomyRead(Run(s, before), between[n]) by {
        if Run(s, before).kill && RoomyRead(Run(s, before), between[n]) {
          assert items[|items| - 1] == Marker;
        }
      }
    }
  }

  /** `items` begins with all of `queue`, or is itself a beginning of it, the rest of
      which is then still first in `left`. */
  predicate QueueFirst(queue: seq<Byte>, items: seq<Item>, left: seq<Byte>) {
    Inputs(queue) <= items || (|items| < |queue| && items == Inputs(queue[..|items|]) && queue[|items|..] <= left)
  }

  lemma QueueFirstStep(queue: seq<Byte>, items: seq<Item>, s: Host, step: Step)
    requires !step.Clear? && QueueFirst(queue, items, s.inQueue)
    ensures QueueFirst(queue, items + ReadItems(s, step), After(s, step).inQueue)
  {
    if Inputs(queue) <= items {
      hide Inputs, ReadItems, After;
    } else if step.ReadIn? {
      hide Inputs;
      ReadTakesFirst(queue, items, s.inQueue, step.max);
      var got := Inputs(Taken(s.inQueue, step.max));
      assert items + ReadItems(s, step) == items + got || items + ReadItems(s, step) == items + got + [Marker];
      hide Taken;
    } else {
      hide Inputs, Fits;
      assert items + ReadItems(s, step) == items && s.inQueue <= After(s, step).inQueue;
    }
  }

  /** The case of a read, before any of `queue` is left out; a marker may follow. */
  lemma ReadTakesFirst(queue: seq<Byte>, items: seq<Item>, now: seq<Byte>, max: int)
    requires |items| < |queue| && items == Inputs(queue[..|items|]) && queue[|items|..] <= now
    ensures var got := Taken(now, max);
            && QueueFirst(queue, items + Inputs(got), now[|got|..])
            && (max > |now| ==> Inputs(queue) <= items + Inputs(got) && Inputs(queue) <= items + Inputs(got) + [Marker])
  {
    var got, rest := Taken(now, max), queue[|items|..];
    TakenOfPrefix(rest, now, max);
    hide Taken, Inputs;
    if |items| + |got| < |queue| {
      InputsInParts(queue, |items|, got);
      assert queue[|items| + |got|..] == rest[|got|..];
    } else {
      InputsInFull(queue, |items|, got);
    }
  }

  /** What a read takes when the queue begins with `rest`. */
  lemma TakenOfPrefix(rest: seq<Byte>, queue: seq<Byte>, max: int)
    requires rest <= queue
    ensures var got := Taken(queue, max);
            if |got| < |rest| then got == rest[..|got|] && max <= |queue| && rest[|got|..] <= queue[|got|..] else rest <= got
  {
  }

  lemma InputsInParts(queue: seq<Byte>, n: nat, got: seq<Byte>)
    requires n + |got| < |queue| && got == queue[n..][..|got|]
    ensures Inputs(queue[..n]) + Inputs(got) == Inputs(queue[..n + |got|])
  {
  }

  lemma InputsInFull(queue: seq<Byte>, n: nat, got: seq<Byte>)
    requires n <= |queue| && queue[n..] <= got
    ensures Inputs(queue) <= Inputs(queue[..n]) + Inputs(got)
  {
    assert forall i :: 0 <= i < |queue| - n ==> got[i] == queue[n..][i];
  }

  /** Whatever is queued is handed over before any marker and before later input. */
  lemma {:induction false} QueuedComesFirst(s: Host, steps: seq<Step>)
    requires forall i :: 0 <= i < |steps| ==> !steps[i].Clear?
    ensures QueueFirst(s.inQueue, Handed(s, steps), Run(s, steps).inQueue)
  {
    hide QueueFirst, After, ReadItems;
    if steps == [] {
      NothingHandedYet(s.inQueue);
    } else {
      var before := steps[..|steps| - 1];
      QueuedComesFirst(s, before);
      QueueFirstStep(s.inQueue, Handed(s, before), Run(s, before), steps[|steps| - 1]);
    }
  }

  lemma NothingHandedYet(queue: seq<Byte>)
    ensures QueueFirst(queue, [], queue)
  {
    assert queue[..0] == [];
  }

  /** When the marker has not overtaken it, what was accepted of the quit line comes
      before the marker, over any number of reads of any size. */
  lemma LineThenMarker(s: Host, between: seq<Step>, later: seq<Step>)
    requires s.kill && !SomeRoomyRead(s, between)
    requires forall i :: 0 <= i < |between| ==> !between[i].KillFlags?
    requires forall i :: 0 <= i < |later| ==> !later[i].Clear?
    ensures var s1 := Run(s, between);
            var line := Fits(s1.inQueue, IN_SIZE, QUIT_LINE);
            var items := Handed(After(s1, KillLine), later);
            && s1.kill && Marker !in Handed(s, between)
            && (Marker in items ==>
                  Inputs(s1.inQueue + line) <= items && s1.inQueue + line <= Delivered(After(s1, KillLine), later))
  {
    var s1 := Run(s, between);
    FlagFallsIff(s, between);
    MarkerOvertakesLineIff(s, between);
    hide Run, Fits, SomeRoomyRead;
    QueuedComesFirst(After(s1, KillLine), later);
    HandedIsDelivered(After(s1, KillLine), later);
    var queue, items := After(s1, KillLine).inQueue, Handed(After(s1, KillLine), later);
    if Marker in items {
      SpelledJoins(Inputs(queue), items[|queue|..]);
      InputsSpelled(queue);
    }
  }

  lemma InputsSpelled(bytes: seq<Byte>)
    ensures Spelled(Inputs(bytes)) == bytes
  {
  }

  /** A run in which it is: one read of one byte between the sections gets the
      marker, and the quit line arrives after it. */
  lemma MarkerCanOvertakeLine()
    ensures var s1 := After(Start(), KillFlags);
            var s2 := After(s1, ReadIn(1));
            var s3 := After(s2, KillLine);
            ReadOut(s1, 1) == [0xFF] && ReadOut(s3, 9) == [0x71, 0x0A]
  {
  }
}
