/**
  The transfer-descriptor chain that `uhci_control_transfer` of drivers/usb_uhci.c
  builds from its pool of 36 (control transfers: section 8.5.3 of USB 2.0).
*/
module UhciTransfer {
  import opened Bits
  import opened Prelude

  const POOL_SIZE: nat := 36
  const DMA_BYTES: nat := 512
  const TERMINATE: int := -1

  datatype Pid = SetupPid | InPid | OutPid

  datatype Buffer = SetupBuffer | DataBuffer(offset: nat) | NoBuffer

  /** A descriptor; `link` is the position of the next one, or TERMINATE. */
  datatype Td = Td(link: int, pid: Pid, address: int, toggle: nat, maxLen: int, buffer: Buffer, lowSpeed: bool, ioc: bool)

  const BlankTd := Td(TERMINATE, OutPid, 0, 0, 0, NoBuffer, false, false)

  /** What a caller asks for, and of which device. */
  datatype Request = Request(address: int, maxPacket: int, lowSpeed: bool, dirIn: bool, length: nat, hasData: bool)

  // ----- the plan of a transfer -----

  function PacketSize(q: Request): (mp: nat)
    ensures mp > 0
  {
    if q.maxPacket <= 0 then 64 else q.maxPacket
  }

  function DataLength(q: Request): nat {
    Min(q.length, DMA_BYTES)
  }

  function SetupTd(q: Request): Td {
    Td(TERMINATE, SetupPid, q.address, 0, 8, SetupBuffer, q.lowSpeed, false)
  }

  function DataTd(q: Request, offset: nat, toggle: nat): Td {
    Td(TERMINATE, if q.dirIn then InPid else OutPid, q.address, toggle, PacketSize(q), DataBuffer(offset), q.lowSpeed, false)
  }

  function StatusTd(q: Request): Td {
    Td(TERMINATE, if q.dirIn || DataLength(q) == 0 then OutPid else InPid, q.address, 1, 0, NoBuffer, q.lowSpeed, true)
  }

  /** The data stage from `offset` on, with `remaining` bytes to go. */
  function DataTds(q: Request, offset: nat, remaining: nat, toggle: nat): seq<Td>
    decreases remaining
  {
    if remaining == 0 then []
    else
      var chunk := Min(remaining, PacketSize(q));
      [DataTd(q, offset, toggle)] + DataTds(q, offset + chunk, remaining - chunk, 1 - Min(toggle, 1))
  }

  function Plan(q: Request): seq<Td> {
    [SetupTd(q)] + DataTds(q, 0, DataLength(q), 1) + [StatusTd(q)]
  }

  /** What a caller can check beforehand: data is there, and it takes no more than 34
      packets. */
  predicate Feasible(q: Request) {
    (DataLength(q) > 0 ==> q.hasData) && DataLength(q) <= (POOL_SIZE - 2) * PacketSize(q)
  }

  /** Each descriptor points at the one after it; the last one ends the chain. */
  function Linked(s: seq<Td>): (r: seq<Td>)
    ensures |r| == |s|
  {
    seq(|s|, i requires 0 <= i < |s| => s[i].(link := if i + 1 < |s| then i + 1 else TERMINATE))
  }

  lemma LinkedAppend(s: seq<Td>, td: Td)
    requires s != [] && td.link == TERMINATE
    ensures var l := Linked(s);
            Linked(s + [td]) == l[|s| - 1 := l[|s| - 1].(link := |s|)] + [td]
  {
  }

  // ----- the code, in place -----

  class Uhci {
    const pool: array<Td>
    var used: nat
    var element: int  // what the control queue head points at

    ghost predicate Valid()
      reads this
    {
      pool.Length == POOL_SIZE && used <= POOL_SIZE
    }

    constructor ()
      ensures Valid() && fresh(pool) && element == TERMINATE
    {
      pool := new Td[POOL_SIZE](_ => BlankTd);
      used := 0;
      element := TERMINATE;
    }

    /** `td_alloc`: a cleared descriptor, or -1 when the pool is used up. */
    method TdAlloc() returns (td: int)
      requires Valid()
      modifies pool, `used
      ensures Valid() && td == (if old(used) >= POOL_SIZE then -1 else old(used))
      ensures td == -1 ==> used == old(used) && pool[..] == old(pool[..])
      ensures td != -1 ==> used == old(used) + 1 && pool[..] == old(pool[..])[td := BlankTd]
    {
      if used >= POOL_SIZE { return -1; }
      td := used;
      used := used + 1;
      pool[td] := BlankTd;
    }

    /** `td_alloc`, `td_init` and the link from the descriptor before. */
    method Append(td: Td, ghost chain: seq<Td>) returns (ok: bool)
      requires Valid() && td.link == TERMINATE && chain != [] && |chain| == used && pool[..used] == Linked(chain)
      modifies pool, `used
      ensures Valid() && (ok <==> |chain| < POOL_SIZE)
      ensures ok ==> used == |chain| + 1 && pool[..used] == Linked(chain + [td])
    {
      ghost var before := pool[..used];
      var prev := used - 1;
      var at := TdAlloc();
      if at == -1 { return false; }
      pool[at] := td;
      pool[prev] := pool[prev].(link := at);
      LinkedAppend(chain, td);
      assert pool[..used] == before[prev := before[prev].(link := at)] + [td];
      return true;
    }

    /** The chain-building part of `uhci_control_transfer`, up to the attachment. */
    method BuildAndAttach(q: Request) returns (r: int)
      requires Valid()
      modifies pool, `used, `element
      ensures Valid() && (r == 0 <==> Feasible(q)) && (r == 0 || r == -1)
      ensures r == -1 ==> element == old(element)
      ensures r == 0 ==> element == 0 && |Plan(q)| <= POOL_SIZE && pool[..|Plan(q)|] == Linked(Plan(q))
    {
      PoolSuffices(q);
      hide Linked, SetupTd, StatusTd, DataTd, PacketSize, Feasible;
      PlainTds(q);
      var maxPacket := if q.maxPacket <= 0 then 64 else q.maxPacket;
      used := 0;
      var td := TdAlloc();
      pool[td] := SetupTd(q);
      ghost var chain := [SetupTd(q)];
      LinkedOne(SetupTd(q));
      assert pool[..used] == [SetupTd(q)];
      var dataLen: nat := q.length;
      if dataLen > 0 {
        if !q.hasData { return -1; }
        if dataLen > DMA_BYTES { dataLen := DMA_BYTES; }
        var remaining: nat := dataLen;
        var toggle: nat := 1;
        var offset: nat := 0;
        while remaining > 0
          invariant Valid() && used == |chain| && chain != [] && pool[..used] == Linked(chain)
          invariant toggle <= 1 && element == old(element)
          invariant chain + DataTds(q, offset, remaining, toggle) + [StatusTd(q)] == Plan(q)
          decreases remaining
        {
          var chunk := remaining;
          if chunk > maxPacket { chunk := maxPacket; }
          var ok := Append(DataTd(q, offset, toggle), chain);
          if !ok { return -1; }
          chain := chain + [DataTd(q, offset, toggle)];
          offset := offset + chunk;
          remaining := remaining - chunk;
          toggle := 1 - toggle;
        }
      }
      assert chain + [StatusTd(q)] == Plan(q);
      var ok := Append(StatusTd(q), chain);
      if !ok { return -1; }
      element := 0;
      return 0;
    }
  }

  lemma PlainTds(q: Request)
    ensures SetupTd(q).link == TERMINATE && StatusTd(q).link == TERMINATE
    ensures forall o: nat, t: nat :: DataTd(q, o, t).link == TERMINATE
    ensures PacketSize(q) == if q.maxPacket <= 0 then 64 else q.maxPacket
  {
  }

  lemma LinkedOne(td: Td)
    requires td.link == TERMINATE
    ensures Linked([td]) == [td]
  {
  }

  // ----- what a plan looks like -----

  /** Where the `i`-th packet of the data stage starts. */
  function OffsetOf(q: Request, i: nat): nat {
    i * PacketSize(q)
  }

  lemma NextOffset(q: Request, i: nat)
    ensures OffsetOf(q, 0) == 0 && OffsetOf(q, i + 1) == OffsetOf(q, i) + PacketSize(q)
  {
  }

  lemma {:induction false} OffsetsRise(q: Request, a: nat, b: nat)
    requires a < b
    ensures OffsetOf(q, a) + PacketSize(q) <= OffsetOf(q, b)
    decreases b - a
  {
    hide OffsetOf;
    NextOffset(q, b - 1);
    if a + 1 < b {
      OffsetsRise(q, a, b - 1);
    }
  }

  function ToggleOf(i: nat): nat {
    if i % 2 == 0 then 1 else 0
  }

  /** The `i`-th data descriptor starts at a multiple of the packet size, and the
      toggles alternate from the first one on. */
  lemma {:induction false} DataTdAt(q: Request, offset: nat, remaining: nat, toggle: nat, i: nat)
    requires toggle <= 1 && i < |DataTds(q, offset, remaining, toggle)|
    ensures DataTds(q, offset, remaining, toggle)[i] ==
            DataTd(q, offset + OffsetOf(q, i), if i % 2 == 0 then toggle else 1 - toggle)
    decreases i
  {
    hide OffsetOf, PacketSize, DataTd;
    if i == 0 {
      NextOffset(q, 0);
    } else {
      NextOffset(q, i - 1);
      LongerThanOne(q, offset, remaining, toggle);
      DataTdAt(q, offset + PacketSize(q), remaining - PacketSize(q), 1 - toggle, i - 1);
    }
  }

  lemma LongerThanOne(q: Request, offset: nat, remaining: nat, toggle: nat)
    requires |DataTds(q, offset, remaining, toggle)| > 1
    ensures remaining > PacketSize(q)
  {
  }

  /** The number of data descriptors is the length in packets, rounded up. */
  lemma {:induction false} DataTdCount(q: Request, offset: nat, remaining: nat, toggle: nat)
    ensures var n := |DataTds(q, offset, remaining, toggle)|;
            OffsetOf(q, n) >= remaining && (n > 0 ==> OffsetOf(q, n - 1) < remaining)
    decreases remaining
  {
    hide OffsetOf, PacketSize;
    NextOffset(q, 0);
    if remaining > 0 {
      var chunk := Min(remaining, PacketSize(q));
      var n := |DataTds(q, offset, remaining, toggle)|;
      DataTdCount(q, offset + chunk, remaining - chunk, 1 - Min(toggle, 1));
      NextOffset(q, n - 1);
      if n > 1 {
        NextOffset(q, n - 2);
      }
    }
  }

  function DataCount(q: Request): nat {
    |DataTds(q, 0, DataLength(q), 1)|
  }

  /** The pool is large enough exactly for transfers of up to 34 packets. */
  lemma PoolSuffices(q: Request)
    ensures |Plan(q)| == DataCount(q) + 2
    ensures |Plan(q)| <= POOL_SIZE <==> DataLength(q) <= (POOL_SIZE - 2) * PacketSize(q)
    ensures Feasible(q) <==> (DataLength(q) > 0 ==> q.hasData) && |Plan(q)| <= POOL_SIZE
  {
    var n, most := DataCount(q), POOL_SIZE - 2;
    DataTdCount(q, 0, DataLength(q), 1);
    hide PacketSize;
    if n < most {
      OffsetsRise(q, n, most);
    } else if most < n {
      AtMost(q, most, n - 1);
    }
  }

  lemma AtMost(q: Request, a: nat, b: nat)
    requires a <= b
    ensures OffsetOf(q, a) <= OffsetOf(q, b)
  {
    if a < b {
      hide OffsetOf;
      OffsetsRise(q, a, b);
    }
  }

  /** The packet a byte falls into. */
  function PacketOf(q: Request, b: nat): nat {
    b / PacketSize(q)
  }

  lemma PacketHoldsByte(q: Request, b: nat)
    ensures OffsetOf(q, PacketOf(q, b)) <= b < OffsetOf(q, PacketOf(q, b) + 1)
  {
    var mp := PacketSize(q);
    assert b == mp * (b / mp) + b % mp;
    NextOffset(q, b / mp);
  }

  lemma PlanCount(q: Request)
    ensures var n := DataCount(q);
            |Plan(q)| == n + 2 && n * PacketSize(q) >= DataLength(q) && (n > 0 ==> (n - 1) * PacketSize(q) < DataLength(q))
  {
    DataTdCount(q, 0, DataLength(q), 1);
  }

  lemma DataTdFields(q: Request, i: nat)
    requires i < DataCount(q) && i + 1 < |Plan(q)|
    ensures Plan(q)[i + 1] == DataTd(q, OffsetOf(q, i), ToggleOf(i))
  {
    assert Plan(q)[i + 1] == DataTds(q, 0, DataLength(q), 1)[i];
    hide PacketSize, OffsetOf, DataTd;
    DataTdAt(q, 0, DataLength(q), 1, i);
  }

  lemma PlanEnds(q: Request)
    ensures var n, p := DataCount(q), Plan(q);
            |p| == n + 2 && p[0] == SetupTd(q) && p[n + 1] == StatusTd(q) && (n > 0 ==> DataLength(q) > 0)
  {
  }

  /** Main result on the chain, field by field: the set-up descriptor with toggle 0,
      then as many data descriptors as the length in packets rounded up, at consecutive
      multiples of the packet size with toggles 1, 0, 1, ..., then one status descriptor
      with toggle 1, the only one to interrupt, that goes the other way. Each points at
      the one after it. */
  lemma PlanShape(q: Request)
    ensures var n, p := DataCount(q), Linked(Plan(q));
            && |p| == n + 2 && n * PacketSize(q) >= DataLength(q) && (n > 0 ==> (n - 1) * PacketSize(q) < DataLength(q))
            && p[0].pid == SetupPid && p[0].toggle == 0 && p[0].maxLen == 8 && p[0].buffer == SetupBuffer
            && p[n + 1].toggle == 1 && p[n + 1].maxLen == 0 && p[n + 1].buffer == NoBuffer
            && (n > 0 ==> p[n + 1].pid == if q.dirIn then OutPid else InPid)
    ensures var n, p := DataCount(q), Linked(Plan(q));
            forall k :: 1 <= k <= n ==>
              && p[k].toggle == k % 2 && p[k].pid == (if q.dirIn then InPid else OutPid)
              && p[k].buffer == DataBuffer((k - 1) * PacketSize(q)) && p[k].maxLen == PacketSize(q)
    ensures var n, p := DataCount(q), Linked(Plan(q));
            forall i :: 0 <= i < n + 2 ==>
              && p[i].address == q.address && p[i].lowSpeed == q.lowSpeed && p[i].ioc == (i == n + 1)
              && p[i].link == (if i < n + 1 then i + 1 else TERMINATE)
    ensures PacketSize(q) == (if q.maxPacket <= 0 then 64 else q.maxPacket) && DataLength(q) == Min(q.length, 512)
  {
    var n, plan := DataCount(q), Plan(q);
    PlanCount(q);
    PlanEnds(q);
    forall i | 0 <= i < n
      ensures plan[i + 1] == DataTd(q, OffsetOf(q, i), ToggleOf(i))
    {
      DataTdFields(q, i);
    }
    LinkedFields(q, plan, Linked(plan), n);
  }

  /** Linking changes links only. */
  lemma LinkedFields(q: Request, plan: seq<Td>, p: seq<Td>, n: nat)
    requires |plan| == n + 2 && plan[0] == SetupTd(q) && plan[n + 1] == StatusTd(q) && (n > 0 ==> DataLength(q) > 0)
    requires forall i :: 0 <= i < n ==> plan[i + 1] == DataTd(q, OffsetOf(q, i), ToggleOf(i))
    requires |p| == n + 2 && p == Linked(plan)
    ensures p[0].pid == SetupPid && p[0].toggle == 0 && p[0].maxLen == 8 && p[0].buffer == SetupBuffer
    ensures p[n + 1].toggle == 1 && p[n + 1].maxLen == 0 && p[n + 1].buffer == NoBuffer
    ensures n > 0 ==> p[n + 1].pid == if q.dirIn then OutPid else InPid
    ensures forall k :: 1 <= k <= n ==>
              && p[k].toggle == k % 2 && p[k].pid == (if q.dirIn then InPid else OutPid)
              && p[k].buffer == DataBuffer((k - 1) * PacketSize(q)) && p[k].maxLen == PacketSize(q)
    ensures forall i :: 0 <= i < n + 2 ==>
              && p[i].address == q.address && p[i].lowSpeed == q.lowSpeed && p[i].ioc == (i == n + 1)
              && p[i].link == (if i < n + 1 then i + 1 else TERMINATE)
  {
    hide PacketSize, DataLength;
    forall k | 1 <= k <= n
      ensures p[k] == DataTd(q, (k - 1) * PacketSize(q), k % 2).(link := k + 1)
    {
      assert plan[k - 1 + 1] == DataTd(q, OffsetOf(q, k - 1), ToggleOf(k - 1));
    }
    forall i | 0 <= i < n + 2
      ensures p[i].address == q.address && p[i].lowSpeed == q.lowSpeed && p[i].ioc == (i == n + 1)
    {
      assert 0 < i < n + 1 ==> plan[i - 1 + 1] == DataTd(q, OffsetOf(q, i - 1), ToggleOf(i - 1));
    }
  }

  // ----- which bytes the descriptors ask for -----

  /** The `i`-th data descriptor asks for byte `b` of the data buffer. */
  predicate Asks(q: Request, i: nat, b: nat) {
    i < DataCount(q) && i + 1 < |Plan(q)| && AsksFor(Plan(q)[i + 1], b)
  }

  predicate AsksFor(td: Td, b: nat) {
    td.buffer.DataBuffer? && td.buffer.offset <= b < td.buffer.offset + td.maxLen
  }

  ghost predicate Asked(q: Request, b: nat) {
    exists i: nat :: Asks(q, i, b)
  }

  lemma AsksItsPacket(q: Request, i: nat, b: nat)
    ensures Asks(q, i, b) <==> i < DataCount(q) && OffsetOf(q, i) <= b < OffsetOf(q, i) + PacketSize(q)
  {
    PlanCount(q);
    hide OffsetOf, PacketSize, DataTds, Plan;
    if i < DataCount(q) {
      DataTdFields(q, i);
    }
  }

  /** No byte is asked for twice. */
  lemma NoByteTwice(q: Request, i: nat, j: nat, b: nat)
    requires Asks(q, i, b) && Asks(q, j, b)
    ensures i == j
  {
    AsksItsPacket(q, i, b);
    AsksItsPacket(q, j, b);
    hide OffsetOf, PacketSize, Asks;
    if i < j {
      OffsetsRise(q, i, j);
    } else if j < i {
      OffsetsRise(q, j, i);
    }
  }

  /** Together the descriptors ask for whole packets: the length rounded up. */
  lemma AskedIffInPackets(q: Request, b: nat)
    ensures Asked(q, b) <==> b < OffsetOf(q, DataCount(q))
  {
    hide OffsetOf, PacketSize, PacketOf, Asks, DataCount;
    var n, i := DataCount(q), PacketOf(q, b);
    PacketHoldsByte(q, b);
    NextOffset(q, i);
    AsksItsPacket(q, i, b);
    if i < n {
      AtMost(q, i + 1, n);
      assert Asks(q, i, b);
    } else {
      AtMost(q, n, i);
      forall j: nat
        ensures !Asks(q, j, b)
      {
        AsksItsPacket(q, j, b);
        NextOffset(q, j);
        if j < n {
          AtMost(q, j + 1, n);
        }
      }
    }
  }

  /** Main result on the data stage: each descriptor carries a full packet, the last
      one too, so the descriptors ask for exactly the bytes of the transfer if and
      only if its length is a multiple of the packet size. */
  lemma DescriptorsTileIff(q: Request)
    ensures (forall b: nat :: Asked(q, b) <==> b < DataLength(q)) <==> DataLength(q) % PacketSize(q) == 0
  {
    var n, len := DataCount(q), DataLength(q);
    PlanCount(q);
    forall b: nat
      ensures Asked(q, b) <==> b < OffsetOf(q, n)
    {
      AskedIffInPackets(q, b);
    }
    WholePackets(len, PacketSize(q), n);
    hide PacketSize, Asked, DataCount, DataLength;
    if len < OffsetOf(q, n) {
      assert Asked(q, len);
    }
  }

  lemma WholePackets(len: nat, size: nat, n: nat)
    requires size > 0 && n * size >= len && (n > 0 ==> (n - 1) * size < len)
    ensures n * size == len <==> len % size == 0
  {
    var k := len / size;
    assert len == size * k + len % size;
    if n * size == len {
      RemainderOf(len, size, n, 0);
    }
    if len % size == 0 {
      assert k * size == len;
      if k < n {
        UpToProduct(k, n - 1, size);
      } else if n < k {
        UpToProduct(n + 1, k, size);
      }
    }
  }

  lemma UpToProduct(a: nat, b: nat, size: nat)
    requires a <= b
    ensures a * size <= b * size && (a + 1) * size == a * size + size
  {
  }

  /** The length in whole packets. */
  function RoundedUp(q: Request): nat {
    (DataLength(q) + PacketSize(q) - 1) / PacketSize(q) * PacketSize(q)
  }

  lemma WholeLength(q: Request)
    ensures OffsetOf(q, DataCount(q)) == RoundedUp(q)
  {
    var n, size := DataCount(q), PacketSize(q);
    PlanCount(q);
    hide DataCount, Plan, PacketSize, DataLength;
    var x := DataLength(q) + size - 1;
    assert n > 0 ==> size * n == (n - 1) * size + size;
    RemainderOf(x, size, n, x - size * n);
  }

  /** They stay inside the 512-byte buffer if and only if the length rounded up to
      packets does. */
  lemma DescriptorsStayInBufferIff(q: Request)
    ensures (forall b: nat :: Asked(q, b) ==> b < DMA_BYTES) <==> RoundedUp(q) <= DMA_BYTES
  {
    WholeLength(q);
    forall b: nat
      ensures Asked(q, b) <==> b < OffsetOf(q, DataCount(q))
    {
      AskedIffInPackets(q, b);
    }
    hide Asked, DataCount, PacketSize;
    if DMA_BYTES < OffsetOf(q, DataCount(q)) {
      assert Asked(q, DMA_BYTES);
    }
  }

  /** Ten bytes to send in packets of 64: the one descriptor sends 64. */
  lemma ShortTransferAsksForMore(address: int)
    ensures var q := Request(address, 64, false, false, 10, true);
            DataCount(q) == 1 && Feasible(q) && Asked(q, 63)
  {
    var q := Request(address, 64, false, false, 10, true);
    PlanCount(q);
    CountOf(q, 1);
    AskedIffInPackets(q, 63);
  }

  /** A full buffer in packets of 100: the last descriptor starts at 500 and reaches
      600. */
  lemma FullTransferLeavesBuffer(address: int)
    ensures var q := Request(address, 100, false, true, DMA_BYTES, true);
            DataCount(q) == 6 && Feasible(q) && Asked(q, 599)
  {
    var q := Request(address, 100, false, true, DMA_BYTES, true);
    PlanCount(q);
    CountOf(q, 6);
    AskedIffInPackets(q, 599);
  }

  /** The number of data descriptors from its two bounds. */
  lemma CountOf(q: Request, n: nat)
    requires n > 0 && (n - 1) * PacketSize(q) < DataLength(q) <= n * PacketSize(q)
    ensures DataCount(q) == n
  {
    var m := DataCount(q);
    PlanCount(q);
    hide PacketSize, DataLength, DataCount;
    if m < n {
      UpToProduct(m, n - 1, PacketSize(q));
    } else if n < m {
      UpToProduct(n, m - 1, PacketSize(q));
    }
  }

  /** The controller's walk over a chain, with a bound on its steps. */
  function Walk(pool: seq<Td>, at: int, fuel: nat): seq<int>
    decreases fuel
  {
    if fuel == 0 || at < 0 || at >= |pool| then [] else [at] + Walk(pool, pool[at].link, fuel - 1)
  }

  /** Walking an attached chain visits its descriptors once each, in order, and
      stops: any number of further steps changes nothing. */
  lemma {:induction false} WalkVisitsInOrder(s: seq<Td>, from: nat, fuel: nat)
    requires from <= |s| && fuel >= |s| - from
    ensures Walk(Linked(s), if from < |s| then from else TERMINATE, fuel) == seq(|s| - from, i => from + i)
    decreases fuel
  {
    if from < |s| {
      WalkVisitsInOrder(s, from + 1, fuel - 1);
    }
  }
}
