/**
  The ARP cache of kernel/arp.c: a 64-slot array scanned from slot 0.

  `arp_update` takes the first slot that is free, expired or already holds the
  address, so it may leave an older entry for the same address further up.
  The model shows exactly when that matters: the cache behaves as a last-writer-wins
  directory with expiry as long as no call takes the current entry away from above a
  live entry it replaced. Under a clock that moves on before every update stamp no
  update, lookup or purge does, since a replaced copy was last used before the
  current one was made, so expiry and eviction take it first.
*/
module ArpCache {
  import opened Prelude

  const CACHE_SIZE: nat := 64
  const TTL: nat := 300000

  type Mac = m: seq<Byte> | |m| == 6 witness [0, 0, 0, 0, 0, 0]

  datatype Entry = Entry(ip: U32, mac: Mac, valid: bool, created: U64, lastAccess: U64)

  type Cache = c: seq<Entry> | |c| == CACHE_SIZE witness seq(CACHE_SIZE, _ => Blank)

  const Blank := Entry(0, [0, 0, 0, 0, 0, 0], false, 0, 0)

  // ----- one call, as a function of the slots -----

  /** `now - created` in unsigned 64-bit arithmetic. */
  function Age(now: U64, created: U64): U64 {
    (now - created) % U64_LIMIT
  }

  predicate Expired(e: Entry, now: U64) {
    Age(now, e.created) > TTL
  }

  predicate Holds(e: Entry, ip: U32) {
    e.valid && e.ip == ip
  }

  predicate Claimable(e: Entry, ip: U32, now: U64) {
    !e.valid || e.ip == ip || Expired(e, now)
  }

  /** First slot at or after `i` that holds `ip`; `|c|` when there is none. */
  function SlotOf(c: seq<Entry>, ip: U32, i: nat): (k: nat)
    requires i <= |c|
    ensures i <= k <= |c|
    ensures forall j :: i <= j < k ==> !Holds(c[j], ip)
    ensures k < |c| ==> Holds(c[k], ip)
    decreases |c| - i
  {
    if i == |c| || Holds(c[i], ip) then i else SlotOf(c, ip, i + 1)
  }

  /** First slot at or after `i` that an update may take without evicting. */
  function ClaimFrom(c: seq<Entry>, ip: U32, now: U64, i: nat): (k: nat)
    requires i <= |c|
    ensures i <= k <= |c|
    ensures forall j :: i <= j < k ==> !Claimable(c[j], ip, now)
    ensures k < |c| ==> Claimable(c[k], ip, now)
    decreases |c| - i
  {
    if i == |c| || Claimable(c[i], ip, now) then i else ClaimFrom(c, ip, now, i + 1)
  }

  /** The least recently accessed of the first `n` slots, the lowest on a tie. */
  function OldestOf(c: seq<Entry>, n: nat): (o: nat)
    requires 0 < n <= |c|
    ensures o < n
    ensures forall j :: 0 <= j < n ==> c[o].lastAccess <= c[j].lastAccess
  {
    if n == 1 then 0 else
      var o := OldestOf(c, n - 1);
      if c[n - 1].lastAccess < c[o].lastAccess then n - 1 else o
  }

  function UpdateSlot(c: Cache, ip: U32, now: U64): (k: nat)
    ensures k < CACHE_SIZE
  {
    var k := ClaimFrom(c, ip, now, 0);
    if k < CACHE_SIZE then k else OldestOf(c, CACHE_SIZE)
  }

  function AfterUpdate(c: Cache, ip: U32, mac: Mac, now: U64, stamp: U64): Cache {
    if ip == 0 then c else c[UpdateSlot(c, ip, now) := Entry(ip, mac, true, stamp, stamp)]
  }

  function AfterResolve(c: Cache, ip: U32, now: U64): Cache {
    var k := SlotOf(c, ip, 0);
    if ip == 0 || k == CACHE_SIZE then c
    else if Expired(c[k], now) then c[k := c[k].(valid := false)]
    else c[k := c[k].(lastAccess := now)]
  }

  function ResolveResult(c: Cache, ip: U32, now: U64): Option<Mac> {
    var k := SlotOf(c, ip, 0);
    if ip == 0 || k == CACHE_SIZE || Expired(c[k], now) then None else Some(c[k].mac)
  }

  function AfterPurge(c: Cache, now: U64): Cache {
    seq(CACHE_SIZE, (i: nat) requires i < CACHE_SIZE =>
      if c[i].valid && Expired(c[i], now) then c[i].(valid := false) else c[i])
  }

  function AfterRemove(c: Cache, ip: U32): Cache {
    var k := SlotOf(c, ip, 0);
    if k == CACHE_SIZE then c else c[k := c[k].(valid := false)]
  }

  // ----- the code itself, in place -----

  class ArpTable {
    const cache: array<Entry>

    ghost predicate Valid()
      reads this
    {
      cache.Length == CACHE_SIZE
    }

    constructor ()
      ensures Valid() && fresh(cache)
      ensures forall i :: 0 <= i < CACHE_SIZE ==> cache[i] == Blank
    {
      cache := new Entry[CACHE_SIZE](_ => Blank);
    }

    /** `arp_resolve`; `now` is the clock reading taken inside. */
    method Resolve(ip: U32, now: U64) returns (r: Option<Mac>)
      requires Valid()
      modifies cache
      ensures cache[..] == AfterResolve(old(cache[..]), ip, now)
      ensures r == ResolveResult(old(cache[..]), ip, now)
    {
      if ip == 0 { return None; }
      for i := 0 to CACHE_SIZE
        invariant cache[..] == old(cache[..])
        invariant SlotOf(cache[..], ip, 0) == SlotOf(cache[..], ip, i)
      {
        if cache[i].valid && cache[i].ip == ip {
          if Age(now, cache[i].created) > TTL {
            cache[i] := cache[i].(valid := false);
            return None;
          }
          r := Some(cache[i].mac);
          cache[i] := cache[i].(lastAccess := now);
          return;
        }
      }
      r := None;
    }

    /** `arp_update`; the clock is read once for the scan and again for the stamp. */
    method Update(ip: U32, mac: Mac, now: U64, stamp: U64)
      requires Valid()
      modifies cache
      ensures cache[..] == AfterUpdate(old(cache[..]), ip, mac, now, stamp)
    {
      if ip == 0 { return; }
      var slot := -1;
      var oldest := 0;
      var oldestTime: U64 := U64_LIMIT - 1;
      ghost var c := cache[..];
      for i := 0 to CACHE_SIZE
        invariant ClaimFrom(c, ip, now, 0) == ClaimFrom(c, ip, now, i)
        invariant slot == -1
        invariant i == 0 ==> oldest == 0 && oldestTime == U64_LIMIT - 1
        invariant i > 0 ==> oldest == OldestOf(c, i) && oldestTime == c[oldest].lastAccess
      {
        if !cache[i].valid { slot := i; break; }
        if cache[i].ip == ip { slot := i; break; }
        if !cache[i].valid || Age(now, cache[i].created) > TTL { slot := i; break; }
        if cache[i].lastAccess < oldestTime {
          oldestTime := cache[i].lastAccess;
          oldest := i;
        }
      }
      if slot < 0 { slot := oldest; }
      cache[slot] := Entry(ip, mac, true, stamp, stamp);
    }

    /** `arp_purge_expired`. */
    method PurgeExpired(now: U64)
      requires Valid()
      modifies cache
      ensures cache[..] == AfterPurge(old(cache[..]), now)
    {
      for i := 0 to CACHE_SIZE
        invariant forall j :: 0 <= j < i ==> cache[j] == AfterPurge(old(cache[..]), now)[j]
        invariant forall j :: i <= j < CACHE_SIZE ==> cache[j] == old(cache[j])
      {
        if cache[i].valid && Age(now, cache[i].created) > TTL {
          cache[i] := cache[i].(valid := false);
        }
      }
    }

    /** `arp_remove`: clears the first match only. */
    method Remove(ip: U32)
      requires Valid()
      modifies cache
      ensures cache[..] == AfterRemove(old(cache[..]), ip)
    {
      for i := 0 to CACHE_SIZE
        invariant cache[..] == old(cache[..])
        invariant SlotOf(cache[..], ip, 0) == SlotOf(cache[..], ip, i)
      {
        if cache[i].valid && cache[i].ip == ip {
          cache[i] := cache[i].(valid := false);
          return;
        }
      }
    }

    /** `arp_cache_has_ip`. */
    method HasIp(ip: U32) returns (found: bool)
      requires Valid()
      ensures found <==> exists i :: 0 <= i < CACHE_SIZE && Holds(cache[i], ip)
    {
      for i := 0 to CACHE_SIZE
        invariant forall j :: 0 <= j < i ==> !Holds(cache[j], ip)
      {
        if cache[i].valid && cache[i].ip == ip { return true; }
      }
      return false;
    }
  }

  // ----- the specification: a last-writer-wins directory with expiry -----

  datatype Binding = Binding(mac: Mac, at: U64)

  type Directory = map<U32, Binding>

  datatype Op =
    | Update(ip: U32, mac: Mac, now: U64, stamp: U64)
    | Resolve(ip: U32, now: U64)
    | Purge(now: U64)
    | Remove(ip: U32)

  function AfterOp(c: Cache, op: Op): Cache {
    match op
    case Update(ip, mac, now, stamp) => AfterUpdate(c, ip, mac, now, stamp)
    case Resolve(ip, now) => AfterResolve(c, ip, now)
    case Purge(now) => AfterPurge(c, now)
    case Remove(ip) => AfterRemove(c, ip)
  }

  function Recorded(d: Directory, op: Op): Directory {
    match op
    case Update(ip, mac, _, stamp) => if ip == 0 then d else d[ip := Binding(mac, stamp)]
    case Remove(ip) => d - {ip}
    case _ => d
  }

  /** Clock readings never go back. A purge reads the clock before it takes the lock,
      so its reading may lie before the last stamp. */
  predicate Steady(clock: U64, op: Op) {
    match op
    case Update(_, _, now, stamp) => clock <= now <= stamp
    case Resolve(_, now) => clock <= now
    case _ => true
  }

  function Later(clock: U64, now: U64): U64 {
    if clock <= now then now else clock
  }

  function ClockAfter(clock: U64, op: Op): U64 {
    match op
    case Update(_, _, _, stamp) => stamp
    case Resolve(_, now) => now
    case Purge(now) => Later(clock, now)
    case Remove(_) => clock
  }

  // ----- the invariant -----

  predicate Current(e: Entry, d: Directory) {
    e.valid && e.ip in d && e.created == d[e.ip].at && e.mac == d[e.ip].mac
  }

  predicate Live(e: Entry, clock: U64) {
    clock - e.created <= TTL
  }

  /** A lookup of `ip` comes to its current entry first. */
  predicate Held(c: Cache, d: Directory, ip: U32) {
    var k := SlotOf(c, ip, 0);
    k < CACHE_SIZE && Current(c[k], d)
  }

  predicate Stamped(e: Entry, clock: U64) {
    e.valid ==> e.ip != 0 && e.created <= e.lastAccess <= clock
  }

  predicate SameAddress(e: Entry, f: Entry) {
    e.valid && f.valid && e.ip == f.ip
  }

  /** Of two copies the lower is the newer, and a copy that is still live stands
      behind the current entry of its address. */
  predicate Inv(c: Cache, d: Directory, clock: U64) {
    && (forall i :: 0 <= i < CACHE_SIZE ==> Stamped(c[i], clock))
    && (forall i, j :: 0 <= i < j < CACHE_SIZE && SameAddress(c[i], c[j]) ==> c[j].created <= c[i].created)
    && (forall j :: 0 <= j < CACHE_SIZE && c[j].valid ==> Held(c, d, c[j].ip) || !Live(c[j], clock))
  }

  // ----- what each call does -----

  /** An update is remembered: whatever the cache holds, a lookup of the address
      comes to what was just entered. */
  lemma UpdateIsRemembered(c: Cache, d: Directory, op: Op)
    requires op.Update? && op.ip != 0
    ensures Held(AfterOp(c, op), Recorded(d, op), op.ip)
    ensures var k := SlotOf(AfterOp(c, op), op.ip, 0);
            k < CACHE_SIZE && AfterOp(c, op)[k] == Entry(op.ip, op.mac, true, op.stamp, op.stamp)
    ensures forall now: U64 :: op.stamp <= now && now - op.stamp <= TTL ==>
              ResolveResult(AfterOp(c, op), op.ip, now) == Some(op.mac)
  {
    var k, c' := UpdateSlot(c, op.ip, op.now), AfterOp(c, op);
    assert Holds(c'[k], op.ip);
    UpdateComesFirst(c, op, SlotOf(c', op.ip, 0));
  }

  /** Ages in 64-bit arithmetic: an entry whose stamp is not ahead of the clock has
      expired after five minutes, one stamped ahead of it has unless it is ahead by
      nearly all of the counter's range. */
  lemma ExpiredIff(e: Entry, now: U64)
    ensures e.created <= now ==> (Expired(e, now) <==> now - e.created > 300000)
    ensures e.created > now ==> (Expired(e, now) <==> e.created - now < U64_LIMIT - 300000)
  {
  }

  /** A live entry of another address. */
  predicate InUse(e: Entry, ip: U32, now: U64) {
    e.valid && e.ip != ip && Age(now, e.created) <= 300000
  }

  lemma {:induction false} OldestIsLowest(c: seq<Entry>, n: nat)
    requires 0 < n <= |c|
    ensures forall j :: 0 <= j < OldestOf(c, n) ==> c[OldestOf(c, n)].lastAccess < c[j].lastAccess
  {
    if n > 1 {
      OldestIsLowest(c, n - 1);
    }
  }

  /** Which slot an update takes: the first that is free, of the same address or
      expired; if there is none, the one idle longest, the lowest on a tie. */
  lemma UpdateEffect(c: Cache, ip: U32, mac: Mac, now: U64, stamp: U64) returns (k: nat)
    requires ip != 0
    ensures k < CACHE_SIZE && AfterUpdate(c, ip, mac, now, stamp) == c[k := Entry(ip, mac, true, stamp, stamp)]
    ensures (exists j :: 0 <= j < CACHE_SIZE && !InUse(c[j], ip, now)) ==>
              !InUse(c[k], ip, now) && forall j :: 0 <= j < k ==> InUse(c[j], ip, now)
    ensures (forall j :: 0 <= j < CACHE_SIZE ==> InUse(c[j], ip, now)) ==>
              forall j :: 0 <= j < CACHE_SIZE ==> c[k].lastAccess <= c[j].lastAccess && (j < k ==> c[k].lastAccess < c[j].lastAccess)
  {
    k := UpdateSlot(c, ip, now);
    assert forall j :: 0 <= j < CACHE_SIZE ==> (InUse(c[j], ip, now) <==> !Claimable(c[j], ip, now));
    hide InUse, Claimable;
    OldestIsLowest(c, CACHE_SIZE);
  }

  /** A lookup that answers marks the entry as used now, one that finds it expired
      drops it, and neither does anything else. */
  lemma LookupEffect(c: Cache, ip: U32, now: U64)
    ensures var k, c', r := SlotOf(c, ip, 0), AfterResolve(c, ip, now), ResolveResult(c, ip, now);
            && (r.Some? <==> ip != 0 && k < CACHE_SIZE && Age(now, c[k].created) <= TTL)
            && (r.Some? ==> r.value == c[k].mac && c' == c[k := c[k].(lastAccess := now)])
            && (r.None? && ip != 0 && k < CACHE_SIZE ==> c' == c[k := c[k].(valid := false)])
            && (ip == 0 || k == CACHE_SIZE ==> c' == c)
  {
  }

  /** A purge leaves exactly the entries that are within their lifetime by its clock. */
  lemma PurgeEffect(c: Cache, now: U64, i: nat)
    requires i < CACHE_SIZE
    ensures AfterPurge(c, now)[i].valid <==> c[i].valid && Age(now, c[i].created) <= TTL
    ensures AfterPurge(c, now)[i] == c[i].(valid := AfterPurge(c, now)[i].valid)
  {
  }

  // ----- exactly which calls uncover a replaced entry -----

  /** The call overwrites or invalidates slot `k`. */
  predicate Clears(c: Cache, op: Op, k: nat) {
    k < CACHE_SIZE && match op
      case Update(ip, _, now, _) => ip != 0 && k == UpdateSlot(c, ip, now)
      case Resolve(ip, now) => ip != 0 && k == SlotOf(c, ip, 0) && Expired(c[k], now)
      case Purge(now) => Expired(c[k], now)
      case Remove(ip) => k == SlotOf(c, ip, 0)
  }

  /** Slot `j` holds a live entry that is not its address's latest; the call leaves it
      and clears every slot before it that holds the address. */
  predicate Uncovers(c: Cache, d: Directory, clock: U64, op: Op, j: nat) {
    && j < CACHE_SIZE && c[j].valid && !Clears(c, op, j) && !(op.Update? && op.ip == c[j].ip)
    && (forall i :: 0 <= i < j && Holds(c[i], c[j].ip) ==> Clears(c, op, i))
    && Live(c[j], ClockAfter(clock, op)) && !Current(c[j], Recorded(d, op))
  }

  ghost predicate UncoversAny(c: Cache, d: Directory, clock: U64, op: Op) {
    exists j: nat :: Uncovers(c, d, clock, op, j)
  }

  /** What a call does to a slot, as far as an address it does not update goes. */
  lemma OpOnSlot(c: Cache, op: Op, ip: U32, j: nat)
    requires j < CACHE_SIZE && !(op.Update? && op.ip == ip) && ip != 0
    ensures Holds(AfterOp(c, op)[j], ip) <==> Holds(c[j], ip) && !Clears(c, op, j)
    ensures Holds(AfterOp(c, op)[j], ip) ==> AfterOp(c, op)[j].created == c[j].created && AfterOp(c, op)[j].mac == c[j].mac
  {
  }

  /** An update takes a slot no higher than any that holds its address. */
  lemma UpdateComesFirst(c: Cache, op: Op, j: nat)
    requires op.Update? && op.ip != 0 && j < CACHE_SIZE && Holds(AfterOp(c, op)[j], op.ip)
    ensures UpdateSlot(c, op.ip, op.now) <= j
    ensures j != UpdateSlot(c, op.ip, op.now) ==> AfterOp(c, op)[j] == c[j]
  {
    assert j != UpdateSlot(c, op.ip, op.now) ==> Claimable(c[j], op.ip, op.now);
  }

  lemma OpKeepsStamps(c: Cache, d: Directory, clock: U64, op: Op)
    requires Inv(c, d, clock) && Steady(clock, op)
    ensures var c' := AfterOp(c, op);
            && (forall i :: 0 <= i < CACHE_SIZE ==> Stamped(c'[i], ClockAfter(clock, op)))
            && (forall i, j :: 0 <= i < j < CACHE_SIZE && SameAddress(c'[i], c'[j]) ==> c'[j].created <= c'[i].created)
  {
    var c' := AfterOp(c, op);
    forall i | 0 <= i < CACHE_SIZE
      ensures Stamped(c'[i], ClockAfter(clock, op))
    {
      assert Stamped(c[i], clock);
    }
    forall i, j | 0 <= i < j < CACHE_SIZE && SameAddress(c'[i], c'[j])
      ensures c'[j].created <= c'[i].created
    {
      assert Stamped(c[i], clock) && Stamped(c[j], clock);
      var ip := c'[i].ip;
      if op.Update? && op.ip == ip {
        UpdateComesFirst(c, op, i);
        UpdateComesFirst(c, op, j);
        assert i != UpdateSlot(c, ip, op.now) ==> SameAddress(c[i], c[j]);
      } else {
        OpOnSlot(c, op, ip, i);
        OpOnSlot(c, op, ip, j);
        assert SameAddress(c[i], c[j]);
      }
    }
  }

  /** What a call makes of the slots of an address it does not update. */
  lemma OpOnAddress(c: Cache, op: Op, ip: U32)
    requires !(op.Update? && op.ip == ip) && ip != 0
    ensures var c' := AfterOp(c, op);
            && (forall i :: 0 <= i < CACHE_SIZE ==> (Holds(c'[i], ip) <==> Holds(c[i], ip) && !Clears(c, op, i)))
            && (forall i :: 0 <= i < CACHE_SIZE && Holds(c'[i], ip) ==> c'[i].created == c[i].created && c'[i].mac == c[i].mac)
  {
    forall i | 0 <= i < CACHE_SIZE
      ensures Holds(AfterOp(c, op)[i], ip) <==> Holds(c[i], ip) && !Clears(c, op, i)
      ensures Holds(AfterOp(c, op)[i], ip) ==> AfterOp(c, op)[i].created == c[i].created && AfterOp(c, op)[i].mac == c[i].mac
    {
      OpOnSlot(c, op, ip, i);
    }
  }

  lemma CoveredStays(c: Cache, d: Directory, clock: U64, op: Op, j: nat)
    requires Inv(c, d, clock) && Steady(clock, op) && !UncoversAny(c, d, clock, op)
    requires j < CACHE_SIZE && AfterOp(c, op)[j].valid && AfterOp(c, op)[j].ip != 0
    ensures var c', d' := AfterOp(c, op), Recorded(d, op);
            Held(c', d', c'[j].ip) || !Live(c'[j], ClockAfter(clock, op))
  {
    var c', d' := AfterOp(c, op), Recorded(d, op);
    var ip := c'[j].ip;
    if op.Update? && op.ip == ip {
      UpdateComesFirst(c, op, SlotOf(c', ip, 0));
      assert Holds(c'[UpdateSlot(c, ip, op.now)], ip);
    } else {
      assert Stamped(c[j], clock) && ClockAfter(clock, op) >= clock;
      SurvivorStays(c, d, clock, op, ip, j);
    }
  }

  /** An address stays covered when its first slot survives as it was, or the next to
      survive is current or no longer live. */
  lemma CoverCarriesOver(c: Cache, d: Directory, c': Cache, d': Directory, ip: U32, j: nat, t: U64)
    requires forall i :: 0 <= i < CACHE_SIZE && Holds(c'[i], ip) ==> Holds(c[i], ip) && c'[i].created == c[i].created && c'[i].mac == c[i].mac
    requires j < CACHE_SIZE && Holds(c'[j], ip) && (Held(c, d, ip) || !Live(c[j], t))
    requires var f := SlotOf(c, ip, 0);
             f < CACHE_SIZE && Holds(c'[f], ip) && Current(c[f], d) ==> Current(c[f], d')
    requires var f' := SlotOf(c', ip, 0);
             && c[j].created <= c[f'].created
             && (f' != SlotOf(c, ip, 0) ==> Current(c[f'], d') || !Live(c[f'], t))
    ensures Held(c', d', ip) || !Live(c'[j], t)
  {
  }

  lemma SurvivorStays(c: Cache, d: Directory, clock: U64, op: Op, ip: U32, j: nat)
    requires Inv(c, d, clock) && clock <= ClockAfter(clock, op) && !UncoversAny(c, d, clock, op)
    requires !(op.Update? && op.ip == ip) && ip != 0 && j < CACHE_SIZE && Holds(AfterOp(c, op)[j], ip)
    ensures Held(AfterOp(c, op), Recorded(d, op), ip) || !Live(AfterOp(c, op)[j], ClockAfter(clock, op))
  {
    var c', d', t := AfterOp(c, op), Recorded(d, op), ClockAfter(clock, op);
    var f, f' := SlotOf(c, ip, 0), SlotOf(c', ip, 0);
    OpOnAddress(c, op, ip);
    assert !Clears(c, op, f) && Current(c[f], d) ==> Current(c[f], d');
    assert Held(c, d, ip) || !Live(c[j], t);
    assert c[j].created <= c[f'].created by {
      assert f' < j ==> SameAddress(c[f'], c[j]);
    }
    hide Inv, AfterOp, Recorded, ClockAfter, SlotOf, Clears, Current;
    assert !Uncovers(c, d, clock, op, f');
    assert f' != f ==> Current(c[f'], d') || !Live(c[f'], t);
    CoverCarriesOver(c, d, c', d', ip, j, t);
  }

  lemma UncoveredBreaksInv(c: Cache, d: Directory, clock: U64, op: Op, j: nat)
    requires Inv(c, d, clock) && Uncovers(c, d, clock, op, j)
    ensures var c', d' := AfterOp(c, op), Recorded(d, op);
            && SlotOf(c', c[j].ip, 0) == j && !Current(c'[j], d') && Live(c'[j], ClockAfter(clock, op))
            && c'[j].created == c[j].created <= clock && c[j].ip != 0 && !Inv(c', d', ClockAfter(clock, op))
  {
    var c', ip := AfterOp(c, op), c[j].ip;
    assert Stamped(c[j], clock);
    OpOnAddress(c, op, ip);
    hide AfterOp, Clears, Recorded, ClockAfter;
    assert c'[j].valid && !Held(c', Recorded(d, op), c'[j].ip);
  }

  /** Main result on calls: a call keeps the invariant exactly when it uncovers no
      live entry that was replaced. */
  lemma OpKeepsInvIff(c: Cache, d: Directory, clock: U64, op: Op)
    requires Inv(c, d, clock) && Steady(clock, op)
    ensures Inv(AfterOp(c, op), Recorded(d, op), ClockAfter(clock, op)) <==> !UncoversAny(c, d, clock, op)
  {
    if j: nat :| Uncovers(c, d, clock, op, j) {
      UncoveredBreaksInv(c, d, clock, op, j);
    } else {
      var c' := AfterOp(c, op);
      OpKeepsStamps(c, d, clock, op);
      forall j | 0 <= j < CACHE_SIZE && c'[j].valid
        ensures Held(c', Recorded(d, op), c'[j].ip) || !Live(c'[j], ClockAfter(clock, op))
      {
        assert Stamped(c'[j], ClockAfter(clock, op));
        CoveredStays(c, d, clock, op, j);
      }
    }
  }

  /** What a lookup means in an invariant state, in both directions: it answers
      exactly when the current entry is held and within its lifetime, and then with
      the directory's address. */
  lemma ResolveMeetsDirectory(c: Cache, d: Directory, clock: U64, ip: U32, now: U64)
    requires Inv(c, d, clock) && clock <= now
    ensures ResolveResult(c, ip, now).Some? <==> Held(c, d, ip) && now - d[ip].at <= TTL
    ensures ResolveResult(c, ip, now).Some? ==> ResolveResult(c, ip, now).value == d[ip].mac
  {
    var k := SlotOf(c, ip, 0);
    if k < CACHE_SIZE {
      assert Stamped(c[k], clock);
    }
  }

  /** A lookup of `ip` at `now` answers with an entry that is not the latest. */
  predicate AnswersStale(c: Cache, d: Directory, ip: U32, now: U64) {
    ResolveResult(c, ip, now).Some? && !Held(c, d, ip)
  }

  lemma NotStale(c: Cache, d: Directory, clock: U64, ip: U32, now: U64)
    requires Inv(c, d, clock) && clock <= now
    ensures !AnswersStale(c, d, ip, now)
  {
    ResolveMeetsDirectory(c, d, clock, ip, now);
  }

  lemma StaleFirstAnswers(c: Cache, d: Directory, ip: U32, j: nat, now: U64)
    requires ip != 0 && j < CACHE_SIZE && SlotOf(c, ip, 0) == j && !Current(c[j], d)
    requires c[j].created <= now && Live(c[j], now)
    ensures AnswersStale(c, d, ip, now)
  {
  }

  lemma UncoversInRange(c: Cache, d: Directory, clock: U64, op: Op, j: nat)
    requires Uncovers(c, d, clock, op, j)
    ensures j < CACHE_SIZE
  {
  }

  lemma TimeMovesOn(clock: U64, op: Op)
    requires Steady(clock, op)
    ensures clock <= ClockAfter(clock, op)
  {
  }

  /** And that is exactly when some later lookup goes wrong. */
  lemma UncoversIffStaleAnswer(c: Cache, d: Directory, clock: U64, op: Op)
    requires Inv(c, d, clock) && Steady(clock, op)
    ensures UncoversAny(c, d, clock, op) <==>
            exists ip: U32, now: U64 :: ClockAfter(clock, op) <= now && AnswersStale(AfterOp(c, op), Recorded(d, op), ip, now)
  {
    hide Inv, Uncovers, AfterOp, Recorded, ClockAfter, AnswersStale, Steady;
    if j: nat :| Uncovers(c, d, clock, op, j) {
      assert j < CACHE_SIZE by { UncoversInRange(c, d, clock, op, j); }
      TimeMovesOn(clock, op);
      UncoveredBreaksInv(c, d, clock, op, j);
      StaleFirstAnswers(AfterOp(c, op), Recorded(d, op), c[j].ip, j, ClockAfter(clock, op));
    } else {
      OpKeepsInvIff(c, d, clock, op);
      forall ip: U32, now: U64 | ClockAfter(clock, op) <= now
        ensures !AnswersStale(AfterOp(c, op), Recorded(d, op), ip, now)
      {
        NotStale(AfterOp(c, op), Recorded(d, op), ClockAfter(clock, op), ip, now);
      }
    }
  }

  // ----- calls that uncover nothing -----

  lemma LookupUncoversNothing(c: Cache, d: Directory, clock: U64, op: Op)
    requires Inv(c, d, clock) && Steady(clock, op) && op.Resolve?
    ensures !UncoversAny(c, d, clock, op)
  {
    forall j: nat
      ensures !Uncovers(c, d, clock, op, j)
    {
      if j < CACHE_SIZE && c[j].valid {
        var k := SlotOf(c, c[j].ip, 0);
        assert k < j ==> SameAddress(c[k], c[j]);
        assert Stamped(c[k], clock);
      }
    }
  }

  /** A purge whose reading is not before the last stamp uncovers nothing. */
  lemma PunctualPurgeUncoversNothing(c: Cache, d: Directory, clock: U64, op: Op)
    requires Inv(c, d, clock) && op.Purge? && clock <= op.now
    ensures !UncoversAny(c, d, clock, op)
  {
    forall j: nat
      ensures !Uncovers(c, d, clock, op, j)
    {
      if j < CACHE_SIZE && c[j].valid {
        var k := SlotOf(c, c[j].ip, 0);
        assert k < j ==> SameAddress(c[k], c[j]);
        assert Stamped(c[k], clock);
      }
    }
  }

  /** A removal uncovers nothing when no second slot holds the address. */
  lemma LoneRemovalUncoversNothing(c: Cache, d: Directory, clock: U64, op: Op)
    requires Inv(c, d, clock) && op.Remove?
    requires forall i, j :: 0 <= i < j < CACHE_SIZE ==> !(Holds(c[i], op.ip) && Holds(c[j], op.ip))
    ensures !UncoversAny(c, d, clock, op)
  {
    forall j: nat
      ensures !Uncovers(c, d, clock, op, j)
    {
      if j < CACHE_SIZE && c[j].valid {
        var k := SlotOf(c, c[j].ip, 0);
        assert k < j ==> Holds(c[k], c[j].ip);
      }
    }
  }

  /** The subtle part: every use of a higher copy came before the lower was created. */
  predicate UsedInOrder(c: Cache) {
    forall i, j :: 0 <= i < j < CACHE_SIZE && SameAddress(c[i], c[j]) ==> c[j].lastAccess < c[i].created
  }

  /** Then eviction takes copies from the top: the slot idle longest has no copy of
      its address above it. */
  lemma EvictionTakesStaleFirst(c: Cache, d: Directory, clock: U64)
    requires Inv(c, d, clock) && UsedInOrder(c) && forall i :: 0 <= i < CACHE_SIZE ==> c[i].valid
    ensures forall j :: OldestOf(c, CACHE_SIZE) < j < CACHE_SIZE ==> c[j].ip != c[OldestOf(c, CACHE_SIZE)].ip
  {
    var o := OldestOf(c, CACHE_SIZE);
    assert Stamped(c[o], clock);
    forall j | o < j < CACHE_SIZE
      ensures c[j].ip != c[o].ip
    {
      assert c[o].lastAccess <= c[j].lastAccess && c[o].valid && c[j].valid;
      assert !SameAddress(c[o], c[j]);
    }
  }

  lemma ClaimSparesCovered(c: Cache, d: Directory, clock: U64, op: Op, j: nat)
    requires Inv(c, d, clock) && Steady(clock, op) && op.Update?
    requires ClaimFrom(c, op.ip, op.now, 0) < CACHE_SIZE
    ensures !Uncovers(c, d, clock, op, j)
  {
    if j < CACHE_SIZE && c[j].valid {
      var f := SlotOf(c, c[j].ip, 0);
      assert Stamped(c[f], clock) && (Held(c, d, c[j].ip) || !Live(c[j], clock));
      assert f < j ==> SameAddress(c[f], c[j]) && c[j].created <= c[f].created;
      hide Inv, OldestOf, Stamped, SameAddress;
    }
  }

  /** An update that finds a slot to claim uncovers nothing: only eviction may. */
  lemma ClaimUncoversNothing(c: Cache, d: Directory, clock: U64, op: Op)
    requires Inv(c, d, clock) && Steady(clock, op) && op.Update?
    requires ClaimFrom(c, op.ip, op.now, 0) < CACHE_SIZE
    ensures !UncoversAny(c, d, clock, op)
  {
    forall j: nat
      ensures !Uncovers(c, d, clock, op, j)
    {
      ClaimSparesCovered(c, d, clock, op, j);
    }
  }

  lemma OrderedEvictionUncoversNothing(c: Cache, d: Directory, clock: U64, op: Op, j: nat)
    requires Inv(c, d, clock) && UsedInOrder(c) && Steady(clock, op) && op.Update?
    requires ClaimFrom(c, op.ip, op.now, 0) == CACHE_SIZE
    ensures !Uncovers(c, d, clock, op, j)
  {
    assert forall i :: 0 <= i < CACHE_SIZE ==> !Claimable(c[i], op.ip, op.now);
    EvictionTakesStaleFirst(c, d, clock);
    if j < CACHE_SIZE {
      var f := SlotOf(c, c[j].ip, 0);
      assert Stamped(c[f], clock) && (Held(c, d, c[j].ip) || !Live(c[j], clock));
      hide Inv, UsedInOrder, OldestOf;
    }
  }

  lemma OrderedUpdateUncoversNothing(c: Cache, d: Directory, clock: U64, op: Op)
    requires Inv(c, d, clock) && UsedInOrder(c) && Steady(clock, op) && op.Update?
    ensures !UncoversAny(c, d, clock, op)
  {
    if ClaimFrom(c, op.ip, op.now, 0) < CACHE_SIZE {
      ClaimUncoversNothing(c, d, clock, op);
    } else {
      forall j: nat
        ensures !Uncovers(c, d, clock, op, j)
      {
        OrderedEvictionUncoversNothing(c, d, clock, op, j);
      }
    }
  }

  /** An update that leaves an older entry for its address behind is stamped later
      than that entry's last use. */
  predicate NoTie(c: Cache, op: Op) {
    op.Update? ==>
      forall j :: 0 <= j < CACHE_SIZE && j != UpdateSlot(c, op.ip, op.now) && Holds(c[j], op.ip) ==> c[j].lastAccess < op.stamp
  }

  lemma OpKeepsUseOrder(c: Cache, d: Directory, clock: U64, op: Op)
    requires Inv(c, d, clock) && UsedInOrder(c) && Steady(clock, op) && NoTie(c, op)
    ensures UsedInOrder(AfterOp(c, op))
  {
    var c' := AfterOp(c, op);
    forall i, j | 0 <= i < j < CACHE_SIZE && SameAddress(c'[i], c'[j])
      ensures c'[j].lastAccess < c'[i].created
    {
      var ip := c'[i].ip;
      assert Stamped(c[i], clock) && Stamped(c[j], clock);
      if op.Update? && op.ip == ip && ip != 0 {
        UpdateComesFirst(c, op, i);
        UpdateComesFirst(c, op, j);
        assert i != UpdateSlot(c, ip, op.now) ==> SameAddress(c[i], c[j]);
      } else if ip != 0 {
        OpOnSlot(c, op, ip, i);
        OpOnSlot(c, op, ip, j);
        assert SameAddress(c[i], c[j]);
      }
    }
  }

  // ----- whole runs -----

  function InitCache(): Cache {
    seq(CACHE_SIZE, _ => Blank)
  }

  function CacheAfter(ops: seq<Op>): Cache {
    if ops == [] then InitCache()
    else AfterOp(CacheAfter(ops[..|ops| - 1]), ops[|ops| - 1])
  }

  function DirectoryAfter(ops: seq<Op>): Directory {
    if ops == [] then map[]
    else Recorded(DirectoryAfter(ops[..|ops| - 1]), ops[|ops| - 1])
  }

  function TimeAfter(ops: seq<Op>): U64 {
    if ops == [] then 0 else ClockAfter(TimeAfter(ops[..|ops| - 1]), ops[|ops| - 1])
  }

  /** The clock never goes back, and no call uncovers a live entry that was replaced. */
  ghost predicate WellTimed(ops: seq<Op>) {
    ops == [] || (
      var before := ops[..|ops| - 1];
      var op := ops[|ops| - 1];
      WellTimed(before) && Steady(TimeAfter(before), op) &&
      !UncoversAny(CacheAfter(before), DirectoryAfter(before), TimeAfter(before), op))
  }

  lemma {:induction false} RunKeepsInv(ops: seq<Op>)
    requires WellTimed(ops)
    ensures Inv(CacheAfter(ops), DirectoryAfter(ops), TimeAfter(ops))
  {
    hide Inv, UncoversAny;
    if ops == [] {
      InitialInv();
    } else {
      var before := ops[..|ops| - 1];
      RunKeepsInv(before);
      OpKeepsInvIff(CacheAfter(before), DirectoryAfter(before), TimeAfter(before), ops[|ops| - 1]);
    }
  }

  lemma InitialInv()
    ensures Inv(InitCache(), map[], 0) && UsedInOrder(InitCache())
  {
  }

  /** Updates, lookups and purges under a clock that moves on before every update
      stamp, with no purge overtaken by an update between reading the clock and
      taking the lock. */
  predicate StrictClock(ops: seq<Op>) {
    ops == [] || (
      var before := ops[..|ops| - 1];
      var op := ops[|ops| - 1];
      && StrictClock(before) && Steady(TimeAfter(before), op) && !op.Remove?
      && (op.Update? ==> TimeAfter(before) < op.stamp) && (op.Purge? ==> TimeAfter(before) <= op.now))
  }

  /** Such a run uncovers nothing. */
  lemma {:induction false} StrictClockIsEnough(ops: seq<Op>)
    requires StrictClock(ops)
    ensures WellTimed(ops) && UsedInOrder(CacheAfter(ops))
  {
    if ops == [] {
      InitialInv();
    } else {
      var before, op := ops[..|ops| - 1], ops[|ops| - 1];
      StrictClockIsEnough(before);
      RunKeepsInv(before);
      var c, d, t := CacheAfter(before), DirectoryAfter(before), TimeAfter(before);
      assert forall j :: 0 <= j < CACHE_SIZE ==> Stamped(c[j], t);
      hide Inv, UncoversAny, CacheAfter, DirectoryAfter, TimeAfter;
      match op {
        case Update(_, _, _, _) => OrderedUpdateUncoversNothing(c, d, t, op);
        case Resolve(_, _) => LookupUncoversNothing(c, d, t, op);
        case Purge(_) => PunctualPurgeUncoversNothing(c, d, t, op);
      }
      OpKeepsUseOrder(c, d, t, op);
      assert CacheAfter(ops) == AfterOp(c, op) by { LastOp(ops); }
    }
  }

  lemma LastOp(ops: seq<Op>)
    requires ops != []
    ensures CacheAfter(ops) == AfterOp(CacheAfter(ops[..|ops| - 1]), ops[|ops| - 1])
  {
  }

  predicate Names(op: Op, ip: U32) {
    (op.Update? || op.Remove?) && op.ip == ip
  }

  /** `ops[k]` is the last update of `ip` in the run, and nothing removed it since. */
  predicate LastUpdateAt(ops: seq<Op>, ip: U32, k: nat) {
    k < |ops| && ops[k].Update? && ops[k].ip == ip && forall j :: k < j < |ops| ==> !Names(ops[j], ip)
  }

  /** The directory is what its name says: it maps an address to its last update. */
  lemma {:induction false} DirectoryIsLastWriter(ops: seq<Op>, ip: U32)
    requires ip != 0
    ensures ip in DirectoryAfter(ops) <==> exists k: nat :: LastUpdateAt(ops, ip, k)
    ensures forall k: nat :: LastUpdateAt(ops, ip, k) && ip in DirectoryAfter(ops) ==>
              DirectoryAfter(ops)[ip] == Binding(ops[k].mac, ops[k].stamp)
  {
    if ops != [] {
      var n := |ops| - 1;
      var before := ops[..n];
      DirectoryIsLastWriter(before, ip);
      forall k: nat
        ensures LastUpdateAt(ops, ip, k) <==> if Names(ops[n], ip) then k == n && ops[n].Update? else LastUpdateAt(before, ip, k)
      {
        assert forall j :: 0 <= j < n ==> ops[j] == before[j];
      }
      if Names(ops[n], ip) {
        assert ops[n].Update? ==> LastUpdateAt(ops, ip, n);
      } else if k: nat :| LastUpdateAt(before, ip, k) {
        assert LastUpdateAt(ops, ip, k);
      }
    }
  }

  /** Main result: after any run of updates, lookups, purges and removals that
      uncovers nothing, a lookup that answers gives the hardware address of the latest
      update of that address, and that update is within its lifetime. */
  lemma ResolveGivesLatestUpdate(ops: seq<Op>, ip: U32, now: U64)
    requires WellTimed(ops) && TimeAfter(ops) <= now
    requires ResolveResult(CacheAfter(ops), ip, now).Some?
    ensures exists k: nat :: LastUpdateAt(ops, ip, k) && now - ops[k].stamp <= TTL &&
                        ResolveResult(CacheAfter(ops), ip, now) == Some(ops[k].mac)
  {
    RunKeepsInv(ops);
    ResolveMeetsDirectory(CacheAfter(ops), DirectoryAfter(ops), TimeAfter(ops), ip, now);
    DirectoryIsLastWriter(ops, ip);
  }

  /** In particular under a strict clock. */
  lemma StrictClockGivesLatestUpdate(ops: seq<Op>, ip: U32, now: U64)
    requires StrictClock(ops) && TimeAfter(ops) <= now
    requires ResolveResult(CacheAfter(ops), ip, now).Some?
    ensures exists k: nat :: LastUpdateAt(ops, ip, k) && now - ops[k].stamp <= TTL &&
                        ResolveResult(CacheAfter(ops), ip, now) == Some(ops[k].mac)
  {
    StrictClockIsEnough(ops);
    ResolveGivesLatestUpdate(ops, ip, now);
  }

  // ----- when a live entry is lost -----

  /** `op` evicts slot `k`: every slot holds a live entry of another address,
      and `k` is the one idle the longest. */
  predicate Evicts(c: Cache, op: Op, k: nat) {
    && op.Update? && op.ip != 0
    && (forall j :: 0 <= j < CACHE_SIZE ==> !Claimable(c[j], op.ip, op.now))
    && k == OldestOf(c, CACHE_SIZE)
  }

  /** `op` is a purge that read the clock before slot `k` was stamped. */
  predicate PurgedTooEarly(c: Cache, op: Op, k: nat) {
    op.Purge? && k < CACHE_SIZE && Expired(c[k], op.now)
  }

  /** The second slot of `ip` holds the same current entry once more. */
  predicate HasTwin(c: Cache, d: Directory, ip: U32) {
    var k := SlotOf(c, ip, 0);
    k < CACHE_SIZE && var t := SlotOf(c, ip, k + 1); t < CACHE_SIZE && Current(c[t], d)
  }

  lemma ClearedWhenLive(c: Cache, d: Directory, clock: U64, op: Op, ip: U32)
    requires Inv(c, d, clock) && Steady(clock, op) && Held(c, d, ip)
    requires Live(c[SlotOf(c, ip, 0)], ClockAfter(clock, op)) && !(op.Update? && op.ip == ip)
    ensures var k := SlotOf(c, ip, 0);
            Clears(c, op, k) <==> Evicts(c, op, k) || PurgedTooEarly(c, op, k) || (op.Remove? && op.ip == ip)
  {
    var k := SlotOf(c, ip, 0);
    assert Stamped(c[k], clock);
    if op.Update? && op.ip != 0 {
      assert !Claimable(c[k], op.ip, op.now);
    }
  }

  lemma FirstAfter(c: Cache, op: Op, ip: U32)
    requires ip != 0 && !(op.Update? && op.ip == ip)
    ensures var k := SlotOf(c, ip, 0);
            SlotOf(AfterOp(c, op), ip, 0) == if k < CACHE_SIZE && Clears(c, op, k) then SlotOf(AfterOp(c, op), ip, k + 1) else k
  {
    var k, c' := SlotOf(c, ip, 0), AfterOp(c, op);
    forall i | 0 <= i < CACHE_SIZE
      ensures Holds(c'[i], ip) <==> Holds(c[i], ip) && !Clears(c, op, i)
    {
      OpOnSlot(c, op, ip, i);
    }
    hide AfterOp, Clears;
  }

  /** A current entry within its lifetime is lost exactly by removal, by a purge that
      read the clock before the entry's stamp, or by eviction without a twin. */
  lemma LiveEntryLostIff(c: Cache, d: Directory, clock: U64, op: Op, ip: U32)
    requires Inv(c, d, clock) && Steady(clock, op)
    requires Held(c, d, ip) && Live(c[SlotOf(c, ip, 0)], ClockAfter(clock, op))
    ensures !Held(AfterOp(c, op), Recorded(d, op), ip) <==>
            || (op.Remove? && op.ip == ip) || PurgedTooEarly(c, op, SlotOf(c, ip, 0))
            || (Evicts(c, op, SlotOf(c, ip, 0)) && !HasTwin(c, d, ip))
  {
    var k, c', d' := SlotOf(c, ip, 0), AfterOp(c, op), Recorded(d, op);
    assert Stamped(c[k], clock);
    if op.Update? && op.ip == ip {
      var f := SlotOf(c', ip, 0);
      assert Holds(c'[UpdateSlot(c, ip, op.now)], ip);
      UpdateComesFirst(c, op, f);
    } else {
      ClearedWhenLive(c, d, clock, op, ip);
      FirstAfter(c, op, ip);
      OpOnSlot(c, op, ip, k);
      if Clears(c, op, k) {
        ClearedOnceHeld(c, d, clock, op, ip);
      }
    }
  }

  lemma EvictedOnceHeld(c: Cache, d: Directory, op: Op, ip: U32)
    requires Held(c, d, ip) && ip != 0 && op.Update? && op.ip != ip && Clears(c, op, SlotOf(c, ip, 0))
    ensures Held(AfterOp(c, op), Recorded(d, op), ip) <==> HasTwin(c, d, ip)
  {
    var k, c' := SlotOf(c, ip, 0), AfterOp(c, op);
    FirstAfter(c, op, ip);
    OpOnAddress(c, op, ip);
    assert forall i :: k < i < CACHE_SIZE ==> !Clears(c, op, i);
    hide AfterOp, Clears;
    SameFrom(c, c', ip, k + 1);
  }

  lemma PurgedOnceHeld(c: Cache, d: Directory, op: Op, ip: U32)
    requires Held(c, d, ip) && ip != 0 && PurgedTooEarly(c, op, SlotOf(c, ip, 0))
    ensures !Held(AfterOp(c, op), Recorded(d, op), ip)
  {
    var k, c' := SlotOf(c, ip, 0), AfterOp(c, op);
    OpOnAddress(c, op, ip);
    var f := SlotOf(c', ip, 0);
    assert f < CACHE_SIZE ==> !Expired(c[f], op.now) && c'[f].created == c[f].created;
    hide AfterOp, Clears, SlotOf;
  }

  lemma ClearedOnceHeld(c: Cache, d: Directory, clock: U64, op: Op, ip: U32)
    requires Inv(c, d, clock) && Held(c, d, ip) && ip != 0 && !(op.Update? && op.ip == ip)
    requires var k := SlotOf(c, ip, 0);
             Clears(c, op, k) && (Evicts(c, op, k) || PurgedTooEarly(c, op, k) || (op.Remove? && op.ip == ip))
    ensures Held(AfterOp(c, op), Recorded(d, op), ip) <==> op.Update? && HasTwin(c, d, ip)
  {
    hide Inv, AfterOp, HasTwin;
    if op.Update? {
      EvictedOnceHeld(c, d, op, ip);
    } else if op.Purge? {
      PurgedOnceHeld(c, d, op, ip);
    }
  }

  lemma {:induction false} SameFrom(c: Cache, c': Cache, ip: U32, i: nat)
    requires i <= CACHE_SIZE && forall j :: i <= j < CACHE_SIZE ==> (Holds(c'[j], ip) <==> Holds(c[j], ip))
    ensures SlotOf(c', ip, i) == SlotOf(c, ip, i)
  {
  }

  /** The call loses the current entry of `ip`. */
  predicate Loses(c: Cache, d: Directory, op: Op, ip: U32) {
    || (op.Remove? && op.ip == ip) || PurgedTooEarly(c, op, SlotOf(c, ip, 0))
    || (Evicts(c, op, SlotOf(c, ip, 0)) && !HasTwin(c, d, ip))
  }

  ghost predicate LosesAt(ops: seq<Op>, ip: U32, j: nat)
    requires j < |ops|
  {
    Loses(CacheAfter(ops[..j]), DirectoryAfter(ops[..j]), ops[j], ip)
  }

  /** Once lost within its lifetime, an entry comes back by an update only. */
  lemma LostStaysLost(c: Cache, d: Directory, clock: U64, op: Op, ip: U32)
    requires Inv(c, d, clock) && Steady(clock, op) && ip != 0 && !Names(op, ip)
    requires !Held(c, d, ip) && ip in d && d[ip].at <= clock && clock - d[ip].at <= TTL
    ensures !Held(AfterOp(c, op), Recorded(d, op), ip)
  {
    var c' := AfterOp(c, op);
    OpOnAddress(c, op, ip);
    var f := SlotOf(c', ip, 0);
    assert f < CACHE_SIZE ==> c[f].valid && c'[f].created == c[f].created && !Live(c[f], clock);
    hide Inv, AfterOp, Clears;
  }

  lemma OneCallOn(ops: seq<Op>, ip: U32, k: nat)
    requires WellTimed(ops) && ip != 0 && LastUpdateAt(ops, ip, k) && k < |ops| - 1
    requires TimeAfter(ops) - ops[k].stamp <= TTL
    ensures var before, op := ops[..|ops| - 1], ops[|ops| - 1];
            && WellTimed(before) && LastUpdateAt(before, ip, k) && TimeAfter(before) <= TimeAfter(ops) && before[k] == ops[k]
            && (Held(CacheAfter(ops), DirectoryAfter(ops), ip) <==>
                  Held(CacheAfter(before), DirectoryAfter(before), ip) && !Loses(CacheAfter(before), DirectoryAfter(before), op, ip))
  {
    var before, op := ops[..|ops| - 1], ops[|ops| - 1];
    var c, d, t := CacheAfter(before), DirectoryAfter(before), TimeAfter(before);
    RunKeepsInv(before);
    TimeMovesOn(t, op);
    assert LastUpdateAt(before, ip, k);
    DirectoryIsLastWriter(before, ip);
    StampIsPast(before, k);
    hide Inv, WellTimed, UncoversAny, Loses;
    if Held(c, d, ip) {
      LiveEntryLostIff(c, d, t, op, ip);
      LosesIsLost(c, d, op, ip);
    } else {
      LostStaysLost(c, d, t, op, ip);
    }
  }

  lemma LosesIsLost(c: Cache, d: Directory, op: Op, ip: U32)
    ensures Loses(c, d, op, ip) <==>
            || (op.Remove? && op.ip == ip) || PurgedTooEarly(c, op, SlotOf(c, ip, 0))
            || (Evicts(c, op, SlotOf(c, ip, 0)) && !HasTwin(c, d, ip))
  {
  }

  lemma {:induction false} StampIsPast(ops: seq<Op>, k: nat)
    requires WellTimed(ops) && k < |ops| && ops[k].Update?
    ensures ops[k].stamp <= TimeAfter(ops)
  {
    var n := |ops| - 1;
    if k < n {
      StampIsPast(ops[..n], k);
      TimeMovesOn(TimeAfter(ops[..n]), ops[n]);
    }
  }

  lemma HeldAtOnce(ops: seq<Op>, ip: U32)
    requires ops != [] && ops[|ops| - 1].Update? && ops[|ops| - 1].ip == ip != 0
    ensures Held(CacheAfter(ops), DirectoryAfter(ops), ip)
  {
    hide AfterOp, Recorded, Held;
    var n := |ops| - 1;
    UpdateIsRemembered(CacheAfter(ops[..n]), DirectoryAfter(ops[..n]), ops[n]);
  }

  lemma LosesAtPrefix(ops: seq<Op>, ip: U32, n: nat, j: nat)
    requires j < n <= |ops|
    ensures LosesAt(ops[..n], ip, j) <==> LosesAt(ops, ip, j)
  {
    assert ops[..n][..j] == ops[..j] && ops[..n][j] == ops[j];
  }

  /** Main result on remembering: in any run that uncovers nothing, while the latest
      update of an address is within its lifetime, its entry is held exactly as long
      as no call since has lost it. */
  lemma {:induction false} HeldUntilLost(ops: seq<Op>, ip: U32, k: nat)
    requires WellTimed(ops) && ip != 0 && LastUpdateAt(ops, ip, k) && TimeAfter(ops) - ops[k].stamp <= TTL
    ensures Held(CacheAfter(ops), DirectoryAfter(ops), ip) <==> forall j :: k < j < |ops| ==> !LosesAt(ops, ip, j)
  {
    hide Held, WellTimed, CacheAfter, DirectoryAfter, Loses;
    var n := |ops| - 1;
    if k == n {
      HeldAtOnce(ops, ip);
    } else {
      OneCallOn(ops, ip, k);
      HeldUntilLost(ops[..n], ip, k);
      assert LosesAt(ops, ip, n) <==> Loses(CacheAfter(ops[..n]), DirectoryAfter(ops[..n]), ops[n], ip);
      hide LosesAt;
      forall j | k < j < n
        ensures LosesAt(ops[..n], ip, j) <==> LosesAt(ops, ip, j)
      {
        LosesAtPrefix(ops, ip, n, j);
      }
    }
  }

  /** And with it the answers, in both directions: a lookup gives the hardware address
      of the latest update exactly as long as that update is within its lifetime and
      no call since has lost it. */
  lemma AnswersUntilLost(ops: seq<Op>, ip: U32, k: nat, now: U64)
    requires WellTimed(ops) && ip != 0 && LastUpdateAt(ops, ip, k) && TimeAfter(ops) <= now
    ensures ResolveResult(CacheAfter(ops), ip, now) ==
            if now - ops[k].stamp <= TTL && forall j :: k < j < |ops| ==> !LosesAt(ops, ip, j) then Some(ops[k].mac) else None
  {
    RunKeepsInv(ops);
    ResolveMeetsDirectory(CacheAfter(ops), DirectoryAfter(ops), TimeAfter(ops), ip, now);
    DirectoryIsLastWriter(ops, ip);
    hide Inv, WellTimed, CacheAfter, DirectoryAfter, ResolveResult, LosesAt, Held;
    if now - ops[k].stamp <= TTL {
      HeldUntilLost(ops, ip, k);
    }
  }

  // ----- removal -----

  /** `arp_remove` clears one slot, so it forgets the address exactly when no
      second slot holds it. */
  lemma RemoveForgetsIff(c: Cache, ip: U32)
    ensures (forall i :: 0 <= i < CACHE_SIZE ==> !Holds(AfterRemove(c, ip)[i], ip))
            <==> (forall i, j :: 0 <= i < j < CACHE_SIZE ==> !(Holds(c[i], ip) && Holds(c[j], ip)))
  {
    var k := SlotOf(c, ip, 0);
    var c' := AfterRemove(c, ip);
    if k < CACHE_SIZE {
      forall j | k < j < CACHE_SIZE
        ensures c'[j] == c[j]
      {
      }
    }
    if i :| 0 <= i < CACHE_SIZE && Holds(c'[i], ip) {
      assert Holds(c[k], ip) && Holds(c[i], ip) && k < i;
    }
    if i, j :| 0 <= i < j < CACHE_SIZE && Holds(c[i], ip) && Holds(c[j], ip) {
      assert Holds(c'[j], ip);
    }
  }

  // ----- runs that end in a stale answer -----

  lemma OneMore(ops: seq<Op>, op: Op)
    ensures CacheAfter(ops + [op]) == AfterOp(CacheAfter(ops), op) && TimeAfter(ops + [op]) == ClockAfter(TimeAfter(ops), op)
    ensures WellTimed(ops + [op]) <==>
            && WellTimed(ops) && Steady(TimeAfter(ops), op)
            && !UncoversAny(CacheAfter(ops), DirectoryAfter(ops), TimeAfter(ops), op)
  {
    assert (ops + [op])[..|ops|] == ops;
    hide AfterOp, ClockAfter, Steady, UncoversAny;
  }

  lemma OneMoreUpdate(ops: seq<Op>, op: Op)
    requires StrictClock(ops) && op.Update? && TimeAfter(ops) <= op.now <= op.stamp && TimeAfter(ops) < op.stamp
    ensures StrictClock(ops + [op]) && TimeAfter(ops + [op]) == op.stamp
    ensures CacheAfter(ops + [op]) == AfterUpdate(CacheAfter(ops), op.ip, op.mac, op.now, op.stamp)
  {
    assert (ops + [op])[..|ops|] == ops;
    hide AfterUpdate;
  }

  lemma OneMoreClaim(ops: seq<Op>, op: Op)
    requires WellTimed(ops) && op.Update? && Steady(TimeAfter(ops), op)
    requires ClaimFrom(CacheAfter(ops), op.ip, op.now, 0) < CACHE_SIZE
    ensures WellTimed(ops + [op]) && TimeAfter(ops + [op]) == op.stamp
    ensures CacheAfter(ops + [op]) == AfterOp(CacheAfter(ops), op)
  {
    RunKeepsInv(ops);
    ClaimUncoversNothing(CacheAfter(ops), DirectoryAfter(ops), TimeAfter(ops), op);
    OneMore(ops, op);
  }

  /** Address 9 comes and takes slot 0, then 7 takes slot 1. */
  lemma NineThenSeven(old': Mac) returns (ops: seq<Op>)
    ensures StrictClock(ops) && TimeAfter(ops) == 200000
    ensures var c := CacheAfter(ops);
            && c[0] == Entry(9, old', true, 1, 1) && c[1] == Entry(7, old', true, 200000, 200000)
            && forall i :: 2 <= i < CACHE_SIZE ==> !c[i].valid
  {
    var first, second := Update(9, old', 1, 1), Update(7, old', 200000, 200000);
    assert TimeAfter([]) == 0 && CacheAfter([]) == InitCache() && StrictClock([]);
    OneMoreUpdate([], first);
    hide CacheAfter, TimeAfter, StrictClock;
    OneMoreUpdate([] + [first], second);
    var c1 := CacheAfter([] + [first]);
    assert ClaimFrom(InitCache(), 9, 1, 0) == 0;
    assert c1 == InitCache()[0 := Entry(9, old', true, 1, 1)];
    assert ClaimFrom(c1, 7, 200000, 0) == ClaimFrom(c1, 7, 200000, 1) == 1;
    ops := [] + [first] + [second];
  }

  /** The second update of 7 finds slot 0 expired and leaves a copy in slot 1. */
  lemma TwoCopiesAreLeft(old': Mac, new': Mac) returns (ops: seq<Op>)
    ensures StrictClock(ops) && WellTimed(ops) && TimeAfter(ops) == 300002
    ensures var c := CacheAfter(ops);
            c[0] == Entry(7, new', true, 300002, 300002) && c[1] == Entry(7, old', true, 200000, 200000)
  {
    var before := NineThenSeven(old');
    var op := Update(7, new', 300002, 300002);
    OneMoreUpdate(before, op);
    ops := before + [op];
    StrictClockIsEnough(ops);
  }

  /** The address is removed, and then resolved to its first, stale value. */
  lemma RemoveCanUncoverStale(old': Mac, new': Mac) returns (ops: seq<Op>)
    ensures WellTimed(ops) && TimeAfter(ops) == 300002
    ensures ResolveResult(AfterRemove(CacheAfter(ops), 7), 7, 300003) == Some(old')
  {
    ops := TwoCopiesAreLeft(old', new');
    hide WellTimed, CacheAfter, TimeAfter, StrictClock;
    var c := AfterRemove(CacheAfter(ops), 7);
    assert SlotOf(c, 7, 0) == SlotOf(c, 7, 1) == 1;
  }

  /** A purge whose clock was read one millisecond before the last update drops the
      newest entry and spares the one it replaced. */
  lemma EarlyPurgeCanUncoverStale(old': Mac, new': Mac) returns (ops: seq<Op>)
    ensures WellTimed(ops) && TimeAfter(ops) == 300002
    ensures ResolveResult(AfterPurge(CacheAfter(ops), 300001), 7, 300003) == Some(old')
  {
    ops := TwoCopiesAreLeft(old', new');
    hide WellTimed, CacheAfter, TimeAfter, StrictClock;
    var c := AfterPurge(CacheAfter(ops), 300001);
    assert !c[0].valid && c[1] == Entry(7, old', true, 200000, 200000);
    assert SlotOf(c, 7, 0) == SlotOf(c, 7, 1) == 1;
  }

  /** Two copies of address 7 in slots 0 and 1, used in the same millisecond, and `n`
      other entries of that millisecond behind them. */
  predicate Tied(c: Cache, old': Mac, new': Mac, n: nat) {
    && n <= CACHE_SIZE - 2
    && c[0] == Entry(7, new', true, 300002, 300002) && c[1] == Entry(7, old', true, 200000, 300002)
    && (forall i :: 2 <= i < 2 + n ==> c[i] == Entry(100 + i, old', true, 300002, 300002))
    && (forall i :: 2 + n <= i < CACHE_SIZE ==> !c[i].valid)
  }

  /** A lookup in the very millisecond of the next update. */
  lemma TiedCopies(old': Mac, new': Mac) returns (ops: seq<Op>)
    ensures WellTimed(ops) && TimeAfter(ops) == 300002 && Tied(CacheAfter(ops), old', new', 0)
  {
    var before := NineThenSeven(old');
    StrictClockIsEnough(before);
    var lookup, again := Resolve(7, 300002), Update(7, new', 300002, 300002);
    var c := CacheAfter(before);
    RunKeepsInv(before);
    LookupUncoversNothing(c, DirectoryAfter(before), TimeAfter(before), lookup);
    OneMore(before, lookup);
    hide Inv, WellTimed, CacheAfter, TimeAfter, DirectoryAfter, StrictClock, UncoversAny;
    assert SlotOf(c, 7, 0) == SlotOf(c, 7, 1) == 1;
    var c1 := CacheAfter(before + [lookup]);
    assert c1 == c[1 := Entry(7, old', true, 200000, 300002)];
    assert ClaimFrom(c1, 7, 300002, 0) == 0;
    OneMoreClaim(before + [lookup], again);
    ops := before + [lookup] + [again];
  }

  lemma {:induction false} TiedAndMore(old': Mac, new': Mac, n: nat) returns (ops: seq<Op>)
    requires n <= CACHE_SIZE - 2
    ensures WellTimed(ops) && TimeAfter(ops) == 300002 && Tied(CacheAfter(ops), old', new', n)
  {
    hide WellTimed, CacheAfter, TimeAfter;
    if n == 0 {
      ops := TiedCopies(old', new');
    } else {
      var before := TiedAndMore(old', new', n - 1);
      var op := Update(100 + n + 1, old', 300002, 300002);
      var c := CacheAfter(before);
      assert forall i :: 0 <= i < n + 1 ==> !Claimable(c[i], op.ip, 300002);
      assert Claimable(c[n + 1], op.ip, 300002);
      assert ClaimFrom(c, op.ip, 300002, 0) == n + 1;
      OneMoreClaim(before, op);
      ops := before + [op];
    }
  }

  lemma {:induction false} LowestOfEqual(c: seq<Entry>, n: nat, t: U64)
    requires 0 < n <= |c| && forall i :: 0 <= i < n ==> c[i].lastAccess == t
    ensures OldestOf(c, n) == 0
  {
    if n > 1 {
      LowestOfEqual(c, n - 1, t);
    }
  }

  /** Ties do matter: the cache is full of entries last used in one millisecond, so the
      next update evicts the lowest of them, which is the newest entry of address 7,
      and uncovers the one it replaced. */
  lemma TieCanUncoverStale(old': Mac, new': Mac) returns (ops: seq<Op>)
    ensures WellTimed(ops) && TimeAfter(ops) == 300002
    ensures ResolveResult(AfterUpdate(CacheAfter(ops), 5000, new', 300003, 300003), 7, 300003) == Some(old')
  {
    ops := TiedAndMore(old', new', CACHE_SIZE - 2);
    hide WellTimed, CacheAfter, TimeAfter;
    var c := CacheAfter(ops);
    assert forall i :: 0 <= i < CACHE_SIZE ==> !Claimable(c[i], 5000, 300003);
    assert ClaimFrom(c, 5000, 300003, 0) == CACHE_SIZE;
    LowestOfEqual(c, CACHE_SIZE, 300002);
    var c' := AfterUpdate(c, 5000, new', 300003, 300003);
    assert c'[1] == c[1] && SlotOf(c', 7, 0) == SlotOf(c', 7, 1) == 1;
  }
}
