/**
  The driver-owned side of a virtqueue in drivers/virtio_net.c: sizing, the free
  descriptor chain and the available ring (section 2.6 of Virtio 1.1).
*/
module Virtqueue {
  import opened Prelude
  import opened Bits

  const END: nat := 0xFFFF
  const MAX_SIZE: nat := 32768

  // ----- state and calls -----

  /** `next` links of the descriptor table, head of the free chain, available ring;
      and what callers hold, and everything submitted so far. */
  datatype Vq = Vq(next: seq<nat>, freeHead: nat, ring: seq<nat>, idx: nat, held: set<nat>, submitted: seq<nat>)

  function Size(q: Vq): nat {
    |q.next|
  }

  function Fresh(size: nat): Vq {
    Vq(seq(size, i requires 0 <= i < size => if i + 1 < size then i + 1 else END), 0, seq(size, _ => 0), 0, {}, [])
  }

  function AllocResult(q: Vq): int {
    if q.freeHead >= Size(q) then -1 else q.freeHead
  }

  function AfterAlloc(q: Vq): Vq {
    if q.freeHead >= Size(q) then q
    else q.(freeHead := q.next[q.freeHead], next := q.next[q.freeHead := END], held := q.held + {q.freeHead})
  }

  function AfterFree(q: Vq, d: nat): Vq
    requires d < Size(q)
  {
    q.(next := q.next[d := q.freeHead], freeHead := d, held := q.held - {d})
  }

  /** The ring slot of the next submit: `idx & (size - 1)`. */
  function SlotOf(q: Vq): nat
    requires Size(q) > 0
  {
    And(q.idx, Size(q) - 1)
  }

  function AfterSubmit(q: Vq, d: nat): Vq
    requires Size(q) > 0
  {
    q.(ring := if SlotOf(q) < |q.ring| then q.ring[SlotOf(q) := d] else q.ring,
       idx := (q.idx + 1) % IDX_LIMIT, submitted := q.submitted + [d])
  }

  // ----- the free chain -----

  /** Following `next` from `head` visits exactly `free`, in order, and stops at the
      end mark. A chain spelled by a finite list cannot run in circles. */
  predicate Chain(next: seq<nat>, head: nat, free: seq<nat>)
    decreases |free|
  {
    if free == [] then head == END
    else head == free[0] && head < |next| && Chain(next, next[head], free[1..])
  }

  predicate Distinct(s: seq<nat>) {
    forall i, j :: 0 <= i < j < |s| ==> s[i] != s[j]
  }

  /** Free and held descriptors are all the descriptors, each once. */
  ghost predicate Partition(free: seq<nat>, held: set<nat>, size: nat) {
    && Distinct(free)
    && (forall d :: d in free ==> d < size && d !in held)
    && (forall d :: d in held ==> d < size)
    && (forall d :: 0 <= d < size ==> d in free || d in held)
  }

  ghost predicate FreeOk(q: Vq, free: seq<nat>) {
    Chain(q.next, q.freeHead, free) && Partition(free, q.held, Size(q))
  }

  /** The place of the k-th submit in a ring of `n` slots. */
  function Place(k: nat, n: nat): (i: nat)
    requires n > 0
    ensures i < n
  {
    k % n
  }

  predicate RingOk(q: Vq) {
    && IsPow2(Size(q)) && Size(q) <= MAX_SIZE && |q.ring| == Size(q)
    && q.idx == |q.submitted| % IDX_LIMIT
    && forall k :: 0 <= k < |q.submitted| && |q.submitted| - Size(q) <= k ==> q.ring[Place(k, Size(q))] == q.submitted[k]
  }

  ghost predicate Inv(q: Vq) {
    RingOk(q) && exists free :: FreeOk(q, free)
  }

  lemma {:induction false} ChainFrame(next: seq<nat>, head: nat, free: seq<nat>, d: nat, x: nat)
    requires Chain(next, head, free) && d < |next| && d !in free
    ensures Chain(next[d := x], head, free)
    decreases |free|
  {
    if free != [] {
      assert free[0] in free && forall i :: i in free[1..] ==> i in free;
      ChainFrame(next, next[head], free[1..], d, x);
    }
  }

  lemma {:induction false} FreshChain(size: nat, from: nat) returns (free: seq<nat>)
    requires from < size <= MAX_SIZE
    ensures Chain(Fresh(size).next, from, free)
    ensures |free| == size - from && forall i :: 0 <= i < |free| ==> free[i] == from + i
    decreases size - from
  {
    if from + 1 == size {
      free := [from];
      assert free[1..] == [];
    } else {
      var rest := FreshChain(size, from + 1);
      free := [from] + rest;
      assert free[1..] == rest;
    }
  }

  lemma FreshInv(size: nat)
    requires IsPow2(size) && size <= MAX_SIZE
    ensures Inv(Fresh(size))
  {
    var free := FreshChain(size, 0);
    forall d | 0 <= d < size
      ensures d in free
    {
      assert free[d] == d;
    }
    assert Partition(free, {}, size);
    assert FreeOk(Fresh(size), free);
  }

  lemma AllocKeepsFree(q: Vq, free: seq<nat>)
    requires FreeOk(q, free) && Size(q) <= MAX_SIZE
    ensures AllocResult(q) == -1 <==> free == []
    ensures free != [] ==> AllocResult(q) == free[0] && FreeOk(AfterAlloc(q), free[1..])
    ensures free == [] ==> AfterAlloc(q) == q
  {
    if free != [] {
      var d := free[0];
      assert d in free && d !in free[1..];
      ChainFrame(q.next, q.next[d], free[1..], d, END);
      forall x | 0 <= x < Size(q)
        ensures x in free[1..] || x in AfterAlloc(q).held
      {
        if x in free && x != d {
          var i :| 0 <= i < |free| && free[i] == x;
          assert free[1..][i - 1] == x;
        }
      }
      assert forall x :: x in free[1..] ==> x in free;
    }
  }

  lemma FreeKeepsFree(q: Vq, free: seq<nat>, d: nat)
    requires FreeOk(q, free) && d in q.held
    ensures d < Size(q) && FreeOk(AfterFree(q, d), [d] + free)
  {
    ChainFrame(q.next, q.freeHead, free, d, q.freeHead);
    assert ([d] + free)[1..] == free;
  }

  // ----- the available ring -----

  /** The next submit goes to the slot its running number names, even after the
      16-bit index has wrapped. */
  lemma SubmitSlot(q: Vq)
    requires RingOk(q)
    ensures Size(q) > 0 && SlotOf(q) == Place(|q.submitted|, Size(q)) && SlotOf(q) < |q.ring|
  {
    var k := Log2(Size(q));
    SmallPower(k);
    MaskIsRemainder(q.idx, k);
    WrapKeepsSlot(|q.submitted|, k);
  }

  lemma {:induction false} SmallPower(k: nat)
    requires Pow2(k) <= MAX_SIZE
    ensures k <= 16
  {
    if k > 16 {
      SixteenBits();
      PowersDivide(16, k);
    }
  }

  lemma PlacesDiffer(a: nat, b: nat, n: nat)
    requires n > 0 && a < b < a + n
    ensures Place(a, n) != Place(b, n)
  {
    SlotsDiffer(a, b, n);
  }

  lemma SubmitKeepsRing(q: Vq, d: nat)
    requires RingOk(q)
    ensures Size(q) > 0 && RingOk(AfterSubmit(q, d))
  {
    SubmitSlot(q);
    hide Place, SlotOf, IsPow2;
    var q' := AfterSubmit(q, d);
    var n := |q.submitted|;
    NextIdx(n);
    forall k | 0 <= k <= n && n + 1 - Size(q) <= k
      ensures q'.ring[Place(k, Size(q))] == q'.submitted[k]
    {
      if k < n {
        PlacesDiffer(k, n, Size(q));
      }
    }
  }

  lemma NextIdx(n: nat)
    ensures (n % IDX_LIMIT + 1) % IDX_LIMIT == (n + 1) % IDX_LIMIT
  {
  }

  // ----- whole runs -----

  datatype Call = Alloc | Free(d: nat) | Submit(d: nat)

  /** Callers give back only what they hold. */
  predicate Allowed(q: Vq, c: Call) {
    c.Free? ==> c.d in q.held
  }

  predicate Runs(q: Vq, calls: seq<Call>)
    decreases |calls|
  {
    calls == [] || (Size(q) > 0 && Allowed(q, calls[0]) && (calls[0].Free? ==> calls[0].d < Size(q)) &&
                    Runs(After(q, calls[0]), calls[1..]))
  }

  function After(q: Vq, c: Call): Vq
    requires Size(q) > 0 && (c.Free? ==> c.d < Size(q))
  {
    match c
    case Alloc => AfterAlloc(q)
    case Free(d) => AfterFree(q, d)
    case Submit(d) => AfterSubmit(q, d)
  }

  function Final(q: Vq, calls: seq<Call>): Vq
    requires Runs(q, calls)
    decreases |calls|
  {
    if calls == [] then q else Final(After(q, calls[0]), calls[1..])
  }

  lemma CallKeepsInv(q: Vq, c: Call)
    requires Inv(q) && Allowed(q, c)
    ensures Size(q) > 0 && (c.Free? ==> c.d < Size(q)) && Inv(After(q, c))
  {
    hide RingOk;
    RingSize(q);
    var free :| FreeOk(q, free);
    match c
    case Alloc =>
      AllocKeepsFree(q, free);
      SameRing(q, AfterAlloc(q));
      assert free == [] ==> FreeOk(AfterAlloc(q), free);
    case Free(d) =>
      FreeKeepsFree(q, free, d);
      SameRing(q, AfterFree(q, d));
    case Submit(d) =>
      SubmitKeepsRing(q, d);
      assert FreeOk(AfterSubmit(q, d), free);
  }

  lemma RingSize(q: Vq)
    requires RingOk(q)
    ensures 0 < Size(q) <= MAX_SIZE
  {
  }

  lemma SameRing(q: Vq, q': Vq)
    requires RingOk(q) && Size(q') == Size(q) && q'.ring == q.ring && q'.idx == q.idx && q'.submitted == q.submitted
    ensures RingOk(q')
  {
  }

  lemma {:induction false} RunsKeepInv(q: Vq, calls: seq<Call>)
    requires Inv(q) && Runs(q, calls)
    ensures Inv(Final(q, calls))
    decreases |calls|
  {
    hide Inv;
    if calls != [] {
      CallKeepsInv(q, calls[0]);
      RunsKeepInv(After(q, calls[0]), calls[1..]);
    }
  }

  // ----- what callers see -----

  /** What the submit calls put in. */
  function Submits(calls: seq<Call>): seq<nat> {
    if calls == [] then [] else (if calls[0].Submit? then [calls[0].d] else []) + Submits(calls[1..])
  }

  lemma {:induction false} SubmittedInOrder(q: Vq, calls: seq<Call>)
    requires Runs(q, calls)
    ensures Final(q, calls).submitted == q.submitted + Submits(calls)
    decreases |calls|
  {
    hide SlotOf;
    if calls != [] {
      SubmittedInOrder(After(q, calls[0]), calls[1..]);
    }
  }

  lemma {:induction false} RunInParts(q: Vq, a: seq<Call>, b: seq<Call>)
    requires Runs(q, a + b)
    ensures Runs(q, a) && Runs(Final(q, a), b) && Final(q, a + b) == Final(Final(q, a), b)
    decreases |a|
  {
    if a == [] {
      assert a + b == b;
    } else {
      assert (a + b)[1..] == a[1..] + b;
      RunInParts(After(q, a[0]), a[1..], b);
    }
  }

  lemma {:induction false} HeldUntilFreed(q: Vq, calls: seq<Call>, d: nat)
    requires Runs(q, calls) && d in q.held && Free(d) !in calls
    ensures d in Final(q, calls).held
    decreases |calls|
  {
    hide SlotOf;
    if calls != [] {
      assert calls[0] in calls && forall c :: c in calls[1..] ==> c in calls;
      HeldUntilFreed(After(q, calls[0]), calls[1..], d);
    }
  }

  /** Main result for callers: in any run on a fresh queue, a descriptor that one
      allocation handed out is not handed out again until it has been given back. */
  lemma NeverHandedOutTwice(size: nat, first: seq<Call>, between: seq<Call>)
    requires IsPow2(size) && size <= MAX_SIZE && Runs(Fresh(size), first + ([Alloc] + between))
    ensures var q := Fresh(size);
            Runs(q, first) && AllocResult(Final(q, first)) >= 0 &&
            AllocResult(Final(q, first + ([Alloc] + between))) == AllocResult(Final(q, first)) ==>
              Free(AllocResult(Final(q, first))) in between
  {
    var q0 := Fresh(size);
    RunInParts(q0, first, [Alloc] + between);
    var q1 := Final(q0, first);
    var d := AllocResult(q1);
    if d >= 0 && Free(d) !in between {
      var q2 := AfterAlloc(q1);
      assert ([Alloc] + between)[1..] == between;
      HeldUntilFreed(q2, between, d);
      FreshInv(size);
      RunsKeepInv(q0, first + ([Alloc] + between));
      var q3 := Final(q2, between);
      hide Final, Runs, Chain;
      RingSize(q3);
      var free :| FreeOk(q3, free);
      AllocKeepsFree(q3, free);
      assert free != [] ==> free[0] in free;
    }
  }

  /** What has been given back is the next to be handed out. */
  lemma GivenBackComesNext(q: Vq, d: nat)
    requires d < Size(q)
    ensures AllocResult(AfterFree(q, d)) == d && AfterAlloc(AfterFree(q, d)).freeHead == q.freeHead
  {
  }

  /** Main result: after any calls on a fresh queue, the free chain is a finite list
      that ends, free and held descriptors are a partition of all, an allocation
      gives a descriptor nobody holds exactly when one is left, and the latest
      submits lie in consecutive ring slots. */
  lemma QueueStaysConsistent(size: nat, calls: seq<Call>)
    requires IsPow2(size) && size <= MAX_SIZE && Runs(Fresh(size), calls)
    ensures var q := Final(Fresh(size), calls);
            && Size(q) > 0 && (exists free :: FreeOk(q, free))
            && (AllocResult(q) == -1 <==> forall d :: 0 <= d < Size(q) ==> d in q.held)
            && (AllocResult(q) != -1 ==> 0 <= AllocResult(q) < Size(q) && AllocResult(q) !in q.held)
            && q.submitted == Submits(calls) && SlotOf(q) == |q.submitted| % Size(q)
            && (forall k :: 0 <= k < |q.submitted| && |q.submitted| - Size(q) <= k ==>
                  Place(k, Size(q)) < |q.ring| && q.ring[Place(k, Size(q))] == q.submitted[k])
  {
    FreshInv(size);
    RunsKeepInv(Fresh(size), calls);
    SubmittedInOrder(Fresh(size), calls);
    var q := Final(Fresh(size), calls);
    hide Final, Runs, Chain;
    var free :| FreeOk(q, free);
    AllocKeepsFree(q, free);
    SubmitSlot(q);
    assert free != [] ==> free[0] in free;
  }

  // ----- the code, in place -----

  class Queue {
    const next: array<nat>
    const ring: array<nat>
    var freeHead: nat
    var idx: nat
    ghost var held: set<nat>
    ghost var submitted: seq<nat>

    ghost function View(): Vq
      reads this, next, ring
    {
      Vq(next[..], freeHead, ring[..], idx, held, submitted)
    }

    /** The tables `vq_setup` builds once it has chosen a size. */
    constructor (size: nat)
      requires size > 0
      ensures fresh(next) && fresh(ring) && next != ring && View() == Fresh(size)
    {
      next := new nat[size](_ => 0);
      ring := new nat[size](_ => 0);
      freeHead := 0;
      idx := 0;
      held, submitted := {}, [];
      new;
      for i := 0 to size - 1
        invariant next.Length == size && ring.Length == size && next != ring
        invariant freeHead == 0 && idx == 0 && held == {} && submitted == []
        invariant forall k :: 0 <= k < i ==> next[k] == k + 1
        invariant forall k :: 0 <= k < size ==> ring[k] == 0
      {
        next[i] := i + 1;
      }
      next[size - 1] := END;
      assert next[..] == Fresh(size).next && ring[..] == Fresh(size).ring;
    }

    /** `vq_alloc_desc`. */
    method AllocDesc() returns (d: int)
      requires next != ring
      modifies next, `freeHead, `held
      ensures d == AllocResult(old(View())) && View() == AfterAlloc(old(View()))
    {
      if freeHead >= next.Length { return -1; }
      d := freeHead;
      held := held + {freeHead};
      freeHead := next[d];
      next[d] := END;
    }

    /** `vq_free_desc`. */
    method FreeDesc(d: nat)
      requires next != ring && d < next.Length
      modifies next, `freeHead, `held
      ensures View() == AfterFree(old(View()), d)
    {
      next[d] := freeHead;
      freeHead := d;
      held := held - {d};
    }

    /** `vq_submit`. */
    method SubmitDesc(d: nat)
      requires next != ring && RingOk(View())
      modifies ring, `idx, `submitted
      ensures View() == AfterSubmit(old(View()), d) && RingOk(View())
    {
      SubmitSlot(View());
      SubmitKeepsRing(View(), d);
      var at := And(idx, next.Length - 1);
      ring[at] := d;
      idx := (idx + 1) % IDX_LIMIT;
      submitted := submitted + [d];
      assert View() == AfterSubmit(old(View()), d);
    }
  }

  /** The sizing part of `vq_setup`: the largest power of two that neither the
      device nor the caller minds. `-1` for a device without a usable queue. */
  method ChooseSize(deviceSize: nat, num: int) returns (r: int)
    ensures r == -1 <==> deviceSize == 0 || deviceSize > MAX_SIZE
    ensures r != -1 ==> r > 0 && IsPow2(r) && r <= (if 0 < num < deviceSize then num else deviceSize) < 2 * r
  {
    hide And, IsPow2;
    var sz := deviceSize;
    if sz == 0 || sz > MAX_SIZE { return -1; }
    if num > 0 && num < sz { sz := num; }
    PowerTest(sz);
    Doubling(1);
    if And(sz, sz - 1) != 0 {
      var pow2 := 1;
      while pow2 < sz
        invariant 0 < pow2 < 2 * sz && IsPow2(pow2)
        decreases sz - pow2
      {
        Doubling(pow2);
        pow2 := 2 * pow2;
      }
      Halving(pow2);
      sz := pow2 / 2;
      if sz < 2 { return -1; }
    }
    return sz;
  }

  lemma Doubling(n: nat)
    requires n > 0
    ensures IsPow2(1) && (IsPow2(n) ==> IsPow2(2 * n))
  {
  }

  lemma Halving(n: nat)
    requires IsPow2(n)
    ensures n > 1 ==> n % 2 == 0 && IsPow2(n / 2)
  {
  }
}
