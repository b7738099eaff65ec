/**
  The shared-page message ring of drivers/zircon_ipc.c: one producer, one
  consumer, no lock. Two views of the same code are given.

  `SharedRing` is the code as it reads, one call at a time. `State` and its two
  step functions break each call into its loads, its byte-by-byte slot copy and
  its index store, and let producer and consumer interleave freely under
  sequential consistency.
*/
module ZirconIpc {
  import opened Prelude

  const SLOTS: nat := 16
  const MSG_BYTES: nat := 152  // type, x, y, w, h, id and text[128]

  type Message = m: seq<Byte> | |m| == MSG_BYTES witness seq(MSG_BYTES, _ => 0)
  type Index = i: nat | i < SLOTS
  type Slots = s: seq<seq<Byte>> | |s| == SLOTS && forall i :: 0 <= i < SLOTS ==> |s[i]| == MSG_BYTES
    witness seq(SLOTS, _ => seq(MSG_BYTES, _ => 0))

  function Succ(i: Index): Index {
    (i + 1) % SLOTS
  }

  function Count(head: Index, tail: Index): (n: nat)
    ensures n < SLOTS
  {
    if tail <= head then head - tail else head + SLOTS - tail
  }

  /** The index `i` places after `tail`. */
  function At(tail: Index, i: Index): Index {
    if tail + i < SLOTS then tail + i else tail + i - SLOTS
  }

  /** The messages between the two indices, oldest first. */
  function Pending(slots: Slots, head: Index, tail: Index): seq<Message> {
    seq(Count(head, tail), i requires 0 <= i < SLOTS => slots[At(tail, i)])
  }

  // ----- one call at a time -----

  class SharedRing {
    var head: Index
    var tail: Index
    const msgs: array<Message>

    ghost predicate Valid()
      reads this
    {
      msgs.Length == SLOTS
    }

    ghost function Contents(): seq<Message>
      requires Valid()
      reads this, msgs
    {
      Pending(msgs[..], head, tail)
    }

    /** `zircon_ipc_init`, when the page could be allocated. */
    constructor ()
      ensures Valid() && fresh(msgs) && Contents() == []
    {
      msgs := new Message[SLOTS](_ => seq(MSG_BYTES, _ => 0));
      head := 0;
      tail := 0;
    }

    method Send(msg: Message) returns (r: int)
      requires Valid()
      modifies this`head, msgs
      ensures r == if |old(Contents())| == SLOTS - 1 then -1 else 0
      ensures Contents() == if r == 0 then old(Contents()) + [msg] else old(Contents())
    {
      var next := (head + 1) % SLOTS;
      FullWhenFifteen(head, tail);
      if next == tail { return -1; }
      msgs[head] := msg;
      head := next;
      AppendSlot(old(msgs[..]), old(head), tail, msg);
      return 0;
    }

    method Recv() returns (r: int, msg: Message)
      requires Valid()
      modifies this`tail
      ensures r == if old(Contents()) == [] then 0 else 1
      ensures r == 1 ==> msg == old(Contents())[0]
      ensures Contents() == if r == 1 then old(Contents())[1..] else []
    {
      msg := msgs[0];
      if tail == head { return 0, msg; }
      var t := tail;
      DropSlot(msgs[..], head, t);
      msg := msgs[t];
      tail := (t + 1) % SLOTS;
      return 1, msg;
    }

    method Available() returns (b: bool)
      requires Valid()
      ensures b <==> Contents() != []
    {
      return head != tail;
    }
  }

  /** Writing the head slot and moving the head appends one message. */
  lemma AppendSlot(slots: Slots, head: Index, tail: Index, msg: Message)
    requires Count(head, tail) < SLOTS - 1
    ensures Pending(slots[head := msg], Succ(head), tail) == Pending(slots, head, tail) + [msg]
  {
  }

  /** Moving the tail removes the oldest message. */
  lemma DropSlot(slots: Slots, head: Index, tail: Index)
    requires head != tail
    ensures Pending(slots, head, tail) == [slots[tail]] + Pending(slots, head, Succ(tail))
  {
    assert Count(head, tail) == 1 + Count(head, Succ(tail));
    var rest := Pending(slots, head, Succ(tail));
    forall i | 0 <= i < |rest|
      ensures Pending(slots, head, tail)[i + 1] == rest[i]
    {
      assert At(tail, i + 1) == At(Succ(tail), i);
    }
  }

  /** The full test compares indices; it tells when fifteen are pending. */
  lemma FullWhenFifteen(head: Index, tail: Index)
    ensures Succ(head) == tail <==> Count(head, tail) == SLOTS - 1
    ensures head == tail <==> Count(head, tail) == 0
  {
  }

  /** Writing the head slot without moving the head changes nothing pending. */
  lemma HeadSlotIsNotPending(slots: Slots, head: Index, tail: Index, msg: Message)
    ensures Pending(slots[head := msg], head, tail) == Pending(slots, head, tail)
  {
  }

  // ----- all interleavings -----

  datatype Producer =
    | Resting
    | GotNext(msg: Message, next: Index)               // head loaded
    | HasRoom(msg: Message, next: Index)               // tail loaded and compared
    | Writing(msg: Message, next: Index, slot: Index, done: nat)

  datatype Consumer =
    | Waiting
    | GotTail(seen: Index)                             // tail loaded
    | HasWork                                          // head loaded and compared
    | Reading(slot: Index, out: seq<Byte>)

  /** `sent` and `received` record the calls that returned success, in order. */
  datatype State = State(head: Index, tail: Index, slots: Slots,
                         producer: Producer, consumer: Consumer,
                         sent: seq<Message>, received: seq<seq<Byte>>)

  function Start(): State {
    State(0, 0, seq(SLOTS, _ => seq(MSG_BYTES, _ => 0)), Resting, Waiting, [], [])
  }

  /** One load, byte copy or store of `zircon_ipc_send`; `msg` is used when the
      producer starts a new call. */
  function ProducerStep(s: State, msg: Message): State {
    match s.producer
    case Resting => s.(producer := GotNext(msg, Succ(s.head)))
    case GotNext(m, next) =>
      if next == s.tail then s.(producer := Resting) else s.(producer := HasRoom(m, next))
    case HasRoom(m, next) => s.(producer := Writing(m, next, s.head, 0))
    case Writing(m, next, slot, done) =>
      if done < MSG_BYTES then
        s.(slots := s.slots[slot := s.slots[slot][done := m[done]]], producer := Writing(m, next, slot, done + 1))
      else
        s.(head := next, producer := Resting, sent := s.sent + [m])
  }

  /** One load, byte copy or store of `zircon_ipc_recv`. */
  function ConsumerStep(s: State): State {
    match s.consumer
    case Waiting => s.(consumer := GotTail(s.tail))
    case GotTail(seen) =>
      if seen == s.head then s.(consumer := Waiting) else s.(consumer := HasWork)
    case HasWork => s.(consumer := Reading(s.tail, []))
    case Reading(slot, out) =>
      if |out| < MSG_BYTES then
        s.(consumer := Reading(slot, out + [s.slots[slot][|out|]]))
      else
        s.(tail := Succ(slot), consumer := Waiting, received := s.received + [out])
  }

  datatype Turn = ProducerTurn(msg: Message) | ConsumerTurn

  function Take(s: State, turn: Turn): State {
    match turn
    case ProducerTurn(msg) => ProducerStep(s, msg)
    case ConsumerTurn => ConsumerStep(s)
  }

  function Run(s: State, turns: seq<Turn>): State {
    if turns == [] then s else Take(Run(s, turns[..|turns| - 1]), turns[|turns| - 1])
  }

  predicate ProducerOk(s: State) {
    match s.producer
    case Resting => true
    case GotNext(_, next) => next == Succ(s.head)
    case HasRoom(_, next) => next == Succ(s.head) && Count(s.head, s.tail) < SLOTS - 1
    case Writing(m, next, slot, done) =>
      && next == Succ(s.head) && Count(s.head, s.tail) < SLOTS - 1
      && slot == s.head && done <= MSG_BYTES && s.slots[slot][..done] == m[..done]
  }

  predicate ConsumerOk(s: State) {
    match s.consumer
    case Waiting => true
    case GotTail(seen) => seen == s.tail
    case HasWork => s.head != s.tail
    case Reading(slot, out) =>
      s.head != s.tail && slot == s.tail && |out| <= MSG_BYTES && out == s.slots[slot][..|out|]
  }

  predicate Inv(s: State) {
    && s.sent == s.received + Pending(s.slots, s.head, s.tail)
    && ProducerOk(s) && ConsumerOk(s)
  }

  lemma ProducerKeepsInv(s: State, msg: Message)
    requires Inv(s)
    ensures Inv(ProducerStep(s, msg))
  {
    var s' := ProducerStep(s, msg);
    if s.producer.Writing? {
      var Writing(m, next, slot, done) := s.producer;
      if done < MSG_BYTES {
        HeadSlotIsNotPending(s.slots, s.head, s.tail, s'.slots[slot]);
        assert s'.slots[slot][..done + 1] == s.slots[slot][..done] + [m[done]];
        assert m[..done + 1] == m[..done] + [m[done]];
      } else {
        AppendSlot(s.slots, s.head, s.tail, m);
        assert s.slots[slot] == s.slots[slot][..done] == m[..done] == m;
        assert s.slots == s.slots[slot := m];
      }
    }
  }

  lemma ConsumerKeepsInv(s: State)
    requires Inv(s)
    ensures Inv(ConsumerStep(s))
  {
    if s.consumer.Reading? && |s.consumer.out| == MSG_BYTES {
      var out := s.consumer.out;
      assert out == s.slots[s.tail];
      DropSlot(s.slots, s.head, s.tail);
      assert s.received + ([out] + Pending(s.slots, s.head, Succ(s.tail)))
          == (s.received + [out]) + Pending(s.slots, s.head, Succ(s.tail));
    }
  }

  lemma {:induction false} RunKeepsInv(s: State, turns: seq<Turn>)
    requires Inv(s)
    ensures Inv(Run(s, turns))
  {
    if turns != [] {
      var before := Run(s, turns[..|turns| - 1]);
      RunKeepsInv(s, turns[..|turns| - 1]);
      match turns[|turns| - 1]
      case ProducerTurn(msg) => ProducerKeepsInv(before, msg);
      case ConsumerTurn => ConsumerKeepsInv(before);
    }
  }

  /** Main result, for every interleaving: what was received is a prefix of what
      was sent, whole and in order, and at most 15 messages are under way. */
  lemma ReceivedIsPrefixOfSent(turns: seq<Turn>)
    ensures var s := Run(Start(), turns);
            s.received <= s.sent && |s.sent| - |s.received| <= SLOTS - 1 &&
            s.sent[|s.received|..] == Pending(s.slots, s.head, s.tail)
  {
    RunKeepsInv(Start(), turns);
    var s := Run(Start(), turns);
    assert s.sent[|s.received|..] == Pending(s.slots, s.head, s.tail);
  }

  /** In no interleaving does the producer write the slot being copied out. */
  lemma NeverOverwritesSlotInUse(turns: seq<Turn>)
    ensures var s := Run(Start(), turns);
            s.producer.Writing? && s.consumer.Reading? ==> s.producer.slot != s.consumer.slot
  {
    RunKeepsInv(Start(), turns);
  }

  lemma RefusalsInState(s: State, msg: Message)
    requires Inv(s)
    ensures s.producer.GotNext? ==>
              (ProducerStep(s, msg).producer.Resting? <==> |s.sent| - |s.received| == SLOTS - 1)
    ensures s.consumer.GotTail? ==>
              (ConsumerStep(s).consumer.Waiting? <==> s.received == s.sent)
  {
    FullWhenFifteen(s.head, s.tail);
    assert |s.sent| == |s.received| + Count(s.head, s.tail);
    assert Count(s.head, s.tail) == 0 ==> s.sent == s.received;
  }

  /** A send is refused exactly when, at its load of the tail, fifteen accepted
      messages have not been received; a receive comes back empty exactly when,
      at its load of the head, every accepted message has been. */
  lemma RefusalsAreHonest(turns: seq<Turn>, msg: Message)
    ensures var s := Run(Start(), turns);
            s.producer.GotNext? ==>
              (ProducerStep(s, msg).producer.Resting? <==> |s.sent| - |s.received| == SLOTS - 1)
    ensures var s := Run(Start(), turns);
            s.consumer.GotTail? ==>
              (ConsumerStep(s).consumer.Waiting? <==> s.received == s.sent)
  {
    RunKeepsInv(Start(), turns);
    var s := Run(Start(), turns);
    RefusalsInState(s, msg);
  }

  // ----- the two views agree -----

  function ProducerAlone(s: State, msg: Message, steps: nat): State
    decreases steps
  {
    if steps == 0 then s else ProducerAlone(ProducerStep(s, msg), msg, steps - 1)
  }

  lemma {:induction false} CopyRunsToEnd(s: State, msg: Message)
    requires Inv(s) && s.producer.Writing?
    ensures var s' := ProducerAlone(s, msg, MSG_BYTES - s.producer.done + 1);
            Inv(s') && s'.producer == Resting && s'.sent == s.sent + [s.producer.msg] &&
            s'.consumer == s.consumer && s'.received == s.received
    decreases MSG_BYTES - s.producer.done
  {
    ProducerKeepsInv(s, msg);
    if s.producer.done < MSG_BYTES {
      CopyRunsToEnd(ProducerStep(s, msg), msg);
    } else {
      assert ProducerAlone(ProducerStep(s, msg), msg, 0) == ProducerStep(s, msg);
    }
  }

  /** An undisturbed call of the stepwise producer does what `Send` promises. */
  lemma SendAloneMatchesSend(s: State, msg: Message)
    requires Inv(s) && s.producer == Resting
    ensures var p := Pending(s.slots, s.head, s.tail);
            var s' := ProducerAlone(s, msg, if |p| == SLOTS - 1 then 2 else MSG_BYTES + 4);
            s'.producer == Resting &&
            Pending(s'.slots, s'.head, s'.tail) == if |p| == SLOTS - 1 then p else p + [msg]
  {
    var p := Pending(s.slots, s.head, s.tail);
    var s1 := ProducerStep(s, msg);
    var s2 := ProducerStep(s1, msg);
    ProducerKeepsInv(s, msg);
    ProducerKeepsInv(s1, msg);
    if |p| == SLOTS - 1 {
      assert ProducerAlone(s1, msg, 1) == ProducerAlone(s2, msg, 0) == s2;
    } else {
      var s3 := ProducerStep(s2, msg);
      ProducerKeepsInv(s2, msg);
      CopyRunsToEnd(s3, msg);
      var s' := ProducerAlone(s3, msg, MSG_BYTES + 1);
      assert ProducerAlone(s, msg, MSG_BYTES + 4) == ProducerAlone(s1, msg, MSG_BYTES + 3)
          == ProducerAlone(s2, msg, MSG_BYTES + 2) == s';
      assert s'.received + Pending(s'.slots, s'.head, s'.tail) == s.received + (p + [msg]);
      assert Pending(s'.slots, s'.head, s'.tail) == (s'.received + Pending(s'.slots, s'.head, s'.tail))[|s.received|..];
    }
  }

  function ConsumerAlone(s: State, steps: nat): State
    decreases steps
  {
    if steps == 0 then s else ConsumerAlone(ConsumerStep(s), steps - 1)
  }

  lemma {:induction false} ReadRunsToEnd(s: State)
    requires Inv(s) && s.consumer.Reading?
    ensures var s' := ConsumerAlone(s, MSG_BYTES - |s.consumer.out| + 1);
            Inv(s') && s'.consumer == Waiting && s'.received == s.received + [s.slots[s.tail]] &&
            s'.producer == s.producer && s'.sent == s.sent
    decreases MSG_BYTES - |s.consumer.out|
  {
    ConsumerKeepsInv(s);
    if |s.consumer.out| < MSG_BYTES {
      ReadRunsToEnd(ConsumerStep(s));
    } else {
      assert s.consumer.out == s.slots[s.tail];
      assert ConsumerAlone(ConsumerStep(s), 0) == ConsumerStep(s);
    }
  }

  lemma LeftAfterOne(received: seq<seq<Byte>>, p: seq<Message>, left: seq<Message>)
    requires p != [] && received + p == received + [p[0]] + left
    ensures left == p[1..]
  {
    assert left == (received + [p[0]] + left)[|received| + 1..];
    assert p[1..] == (received + p)[|received| + 1..];
  }

  /** An undisturbed call of the stepwise consumer does what `Recv` promises. */
  lemma RecvAloneMatchesRecv(s: State)
    requires Inv(s) && s.consumer == Waiting
    ensures var p := Pending(s.slots, s.head, s.tail);
            var s' := ConsumerAlone(s, if p == [] then 2 else MSG_BYTES + 4);
            s'.consumer == Waiting &&
            Pending(s'.slots, s'.head, s'.tail) == (if p == [] then [] else p[1..]) &&
            s'.received == s.received + if p == [] then [] else [p[0]]
  {
    var p := Pending(s.slots, s.head, s.tail);
    var s1 := ConsumerStep(s);
    var s2 := ConsumerStep(s1);
    ConsumerKeepsInv(s);
    ConsumerKeepsInv(s1);
    FullWhenFifteen(s.head, s.tail);
    if p == [] {
      assert ConsumerAlone(s1, 1) == ConsumerAlone(s2, 0) == s2;
    } else {
      var s3 := ConsumerStep(s2);
      ConsumerKeepsInv(s2);
      ReadRunsToEnd(s3);
      DropSlot(s.slots, s.head, s.tail);
      var s' := ConsumerAlone(s3, MSG_BYTES + 1);
      assert ConsumerAlone(s, MSG_BYTES + 4) == ConsumerAlone(s1, MSG_BYTES + 3)
          == ConsumerAlone(s2, MSG_BYTES + 2) == s';
      LeftAfterOne(s.received, p, Pending(s'.slots, s'.head, s'.tail));
    }
  }
}
