/** The multi-finger tracker of drivers/gesture.c. */
module Gesture {
  import opened Prelude

  const MAX_FINGERS: nat := 4
  const SWIPE_THRESHOLD: int := 50
  const LONG_PRESS_MS: int := 600
  const TAP_MAX_MS: int := 300
  const TAP_MAX_MOVE: int := 15
  const PINCH_THRESHOLD: int := 30

  datatype Kind = NoGesture | SwipeUp | SwipeDown | SwipeLeft | SwipeRight | Tap | LongPress | PinchIn | PinchOut

  /** `fromX`, `fromY` record where the travel `dx`, `dy` is counted from; the code
      keeps no such field. */
  datatype Finger = Finger(active: bool, id: int, curX: int, curY: int, dx: int, dy: int, startMs: U64, moved: bool,
                           fromX: int, fromY: int)

  const NoFinger := Finger(false, 0, 0, 0, 0, 0, 0, false, 0, 0)

  datatype Tracker = Tracker(fingers: seq<Finger>, count: int, pinch: bool, initDist: int, curDist: int, first: int, second: int)

  /** What `gesture_touch_up` returns and stores; nothing is stored for no finger. */
  datatype Report = Report(emitted: bool, kind: Kind)

  // ----- look-ups -----

  function FindFrom(fs: seq<Finger>, id: int, i: nat): (k: nat)
    requires i <= |fs|
    ensures i <= k <= |fs| && (k < |fs| ==> fs[k].active && fs[k].id == id)
    ensures forall j :: i <= j < k ==> !(fs[j].active && fs[j].id == id)
    decreases |fs| - i
  {
    if i == |fs| || (fs[i].active && fs[i].id == id) then i else FindFrom(fs, id, i + 1)
  }

  function FindFinger(fs: seq<Finger>, id: int): nat {
    FindFrom(fs, id, 0)
  }

  function FreeFrom(fs: seq<Finger>, i: nat): (k: nat)
    requires i <= |fs|
    ensures i <= k <= |fs| && (k < |fs| ==> !fs[k].active)
    ensures forall j :: i <= j < k ==> fs[j].active
    decreases |fs| - i
  {
    if i == |fs| || !fs[i].active then i else FreeFrom(fs, i + 1)
  }

  function ActiveFrom(fs: seq<Finger>, i: nat): (k: nat)
    requires i <= |fs|
    ensures i <= k <= |fs| && (k < |fs| ==> fs[k].active)
    ensures forall j :: i <= j < k ==> !fs[j].active
    decreases |fs| - i
  {
    if i == |fs| || fs[i].active then i else ActiveFrom(fs, i + 1)
  }

  function Actives(fs: seq<Finger>): nat {
    if fs == [] then 0 else Actives(fs[..|fs| - 1]) + if fs[|fs| - 1].active then 1 else 0
  }

  /** `calc_dist`: the squared distance, 0 if a finger is not down. */
  function Dist(fs: seq<Finger>, id1: int, id2: int): int {
    var a, b := FindFinger(fs, id1), FindFinger(fs, id2);
    if a == |fs| || b == |fs| then 0
    else
      var dx, dy := fs[a].curX - fs[b].curX, fs[a].curY - fs[b].curY;
      dx * dx + dy * dy
  }

  // ----- the events as functions -----

  function Initial(): Tracker {
    Tracker([NoFinger, NoFinger, NoFinger, NoFinger], 0, false, 0, 0, -1, -1)
  }

  function Cleared(f: Finger): Finger {
    f.(dx := 0, dy := 0, fromX := f.curX, fromY := f.curY)
  }

  function ClearedBoth(fs: seq<Finger>): seq<Finger>
    requires |fs| == MAX_FINGERS
  {
    fs[0 := Cleared(fs[0])][1 := Cleared(fs[1])]
  }

  /** A second finger starts a pinch between the two lowest active slots, and the
      travel recorded in slots 0 and 1 is dropped. */
  function PinchStarted(t: Tracker): Tracker
    requires |t.fingers| == MAX_FINGERS
  {
    var i := ActiveFrom(t.fingers, 0);
    if i == MAX_FINGERS then t else
      var j := ActiveFrom(t.fingers, i + 1);
      if j == MAX_FINGERS then t else
        var d := Dist(t.fingers, t.fingers[i].id, t.fingers[j].id);
        t.(pinch := true, first := t.fingers[i].id, second := t.fingers[j].id, initDist := d, curDist := d,
           fingers := t.fingers[0 := Cleared(t.fingers[0])][1 := Cleared(t.fingers[1])])
  }

  function Pressed(x: int, y: int, id: int, ms: U64): Finger {
    Finger(true, id, x, y, 0, 0, ms, false, x, y)
  }

  function AfterDown(t: Tracker, x: int, y: int, id: int, ms: U64): Tracker
    requires |t.fingers| == MAX_FINGERS
  {
    var k := FreeFrom(t.fingers, 0);
    if k == MAX_FINGERS then t else
      var t1 := t.(fingers := t.fingers[k := Pressed(x, y, id, ms)], count := t.count + 1);
      if t1.count == 2 then PinchStarted(t1) else t1
  }

  function Travelled(f: Finger, x: int, y: int): Finger {
    var dx, dy := f.dx + (x - f.curX), f.dy + (y - f.curY);
    f.(curX := x, curY := y, dx := dx, dy := dy, moved := f.moved || dx * dx + dy * dy > TAP_MAX_MOVE * TAP_MAX_MOVE)
  }

  function AfterMove(t: Tracker, x: int, y: int, id: int): Tracker
    requires |t.fingers| == MAX_FINGERS
  {
    var k := FindFinger(t.fingers, id);
    if k == MAX_FINGERS then t else
      var t1 := t.(fingers := t.fingers[k := Travelled(t.fingers[k], x, y)]);
      if t1.pinch && (id == t1.first || id == t1.second) then t1.(curDist := Dist(t1.fingers, t1.first, t1.second)) else t1
  }

  /** `classify_finger`. */
  function Classified(f: Finger, ms: U64): Kind {
    var elapsed := (ms - f.startMs) % U64_LIMIT;
    var adx, ady := if f.dx < 0 then -f.dx else f.dx, if f.dy < 0 then -f.dy else f.dy;
    if !f.moved && elapsed >= LONG_PRESS_MS then LongPress
    else if !f.moved && elapsed <= TAP_MAX_MS then Tap
    else if adx < SWIPE_THRESHOLD && ady < SWIPE_THRESHOLD then NoGesture
    else if adx > ady then (if f.dx > 0 then SwipeRight else SwipeLeft)
    else (if f.dy > 0 then SwipeDown else SwipeUp)
  }

  function AfterUp(t: Tracker, id: int): Tracker
    requires |t.fingers| == MAX_FINGERS
  {
    var k := FindFinger(t.fingers, id);
    if k == MAX_FINGERS then t
    else t.(fingers := t.fingers[k := t.fingers[k].(active := false)], count := t.count - 1,
            pinch := t.pinch && t.count < 2)
  }

  function PinchDelta(t: Tracker): int {
    t.curDist - t.initDist
  }

  predicate PinchReported(t: Tracker) {
    t.pinch && t.count >= 2 &&
    (PinchDelta(t) >= PINCH_THRESHOLD * PINCH_THRESHOLD || -PinchDelta(t) >= PINCH_THRESHOLD * PINCH_THRESHOLD)
  }

  function UpReport(t: Tracker, id: int, ms: U64): Report
    requires |t.fingers| == MAX_FINGERS
  {
    var k := FindFinger(t.fingers, id);
    if k == MAX_FINGERS then Report(false, NoGesture)
    else if PinchReported(t) then Report(true, if PinchDelta(t) < 0 then PinchIn else PinchOut)
    else if t.count > 1 then Report(false, NoGesture)
    else
      var kind := Classified(t.fingers[k], ms);
      Report(kind != NoGesture, kind)
  }

  function AfterAbort(t: Tracker): Tracker {
    t.(fingers := seq(|t.fingers|, i requires 0 <= i < |t.fingers| => t.fingers[i].(active := false)), count := 0, pinch := false)
  }

  // ----- the code, in place -----

  class GestureTracker {
    const fingers: array<Finger>
    var count: int
    var pinch: bool
    var initDist: int
    var curDist: int
    var first: int
    var second: int

    ghost predicate Valid()
      reads this
    {
      fingers.Length == MAX_FINGERS
    }

    ghost function View(): Tracker
      reads this, fingers
    {
      Tracker(fingers[..], count, pinch, initDist, curDist, first, second)
    }

    /** `gesture_init`. */
    constructor ()
      ensures Valid() && fresh(fingers) && View() == Initial()
    {
      fingers := new Finger[MAX_FINGERS](_ => NoFinger);
      count, pinch, initDist, curDist, first, second := 0, false, 0, 0, -1, -1;
      new;
      assert fingers[..] == Initial().fingers;
    }

    /** `find_finger`, as a slot; `MAX_FINGERS` when there is none. */
    method Find(id: int) returns (k: nat)
      requires Valid()
      ensures k == FindFinger(fingers[..], id)
    {
      for i := 0 to MAX_FINGERS
        invariant FindFinger(fingers[..], id) == FindFrom(fingers[..], id, i)
      {
        if fingers[i].active && fingers[i].id == id { return i; }
      }
      return MAX_FINGERS;
    }

    /** `find_free_slot`. */
    method FindFree() returns (k: nat)
      requires Valid()
      ensures k == FreeFrom(fingers[..], 0)
    {
      for i := 0 to MAX_FINGERS
        invariant FreeFrom(fingers[..], 0) == FreeFrom(fingers[..], i)
      {
        if !fingers[i].active { return i; }
      }
      return MAX_FINGERS;
    }

    /** `calc_dist`. */
    method CalcDist(id1: int, id2: int) returns (d: int)
      requires Valid()
      ensures d == Dist(fingers[..], id1, id2)
    {
      var a := Find(id1);
      var b := Find(id2);
      if a == MAX_FINGERS || b == MAX_FINGERS { return 0; }
      var dx, dy := fingers[a].curX - fingers[b].curX, fingers[a].curY - fingers[b].curY;
      return dx * dx + dy * dy;
    }

    /** `gesture_touch_down`. */
    method TouchDown(x: int, y: int, id: int, ms: U64)
      requires Valid()
      modifies this, fingers
      ensures View() == AfterDown(old(View()), x, y, id, ms)
    {
      hide Dist;
      var k := FindFree();
      if k == MAX_FINGERS { return; }
      fingers[k] := Pressed(x, y, id, ms);
      count := count + 1;
      if count == 2 {
        StartPinch();
      }
    }

    method StartPinch()
      requires Valid()
      modifies this, fingers
      ensures View() == PinchStarted(old(View()))
    {
      hide Dist;
      ghost var fs := fingers[..];
      var i := 0;
      while i < MAX_FINGERS && !fingers[i].active
        invariant 0 <= i <= MAX_FINGERS && ActiveFrom(fs, 0) == ActiveFrom(fs, i)
      {
        i := i + 1;
      }
      if i == MAX_FINGERS { return; }
      var j := i + 1;
      while j < MAX_FINGERS && !fingers[j].active
        invariant i < j <= MAX_FINGERS && ActiveFrom(fs, i + 1) == ActiveFrom(fs, j)
      {
        j := j + 1;
      }
      if j == MAX_FINGERS { return; }
      pinch := true;
      first := fingers[i].id;
      second := fingers[j].id;
      initDist := CalcDist(first, second);
      curDist := initDist;
      fingers[0] := Cleared(fingers[0]);
      fingers[1] := Cleared(fingers[1]);
    }

    /** `gesture_touch_move`. */
    method TouchMove(x: int, y: int, id: int)
      requires Valid()
      modifies this, fingers
      ensures View() == AfterMove(old(View()), x, y, id)
    {
      hide Dist;
      var k := Find(id);
      if k == MAX_FINGERS { return; }
      var f := fingers[k];
      f := f.(dx := f.dx + (x - f.curX), dy := f.dy + (y - f.curY), curX := x, curY := y);
      var moved := f.dx * f.dx + f.dy * f.dy;
      if moved > TAP_MAX_MOVE * TAP_MAX_MOVE {
        f := f.(moved := true);
      }
      fingers[k] := f;
      if pinch && id == first {
        curDist := CalcDist(first, second);
      } else if pinch && id == second {
        curDist := CalcDist(first, second);
      }
    }

    /** `gesture_touch_up`. */
    method TouchUp(id: int, ms: U64) returns (r: Report)
      requires Valid()
      modifies this, fingers
      ensures View() == AfterUp(old(View()), id) && r == UpReport(old(View()), id, ms)
    {
      hide Classified;
      var k := Find(id);
      if k == MAX_FINGERS { return Report(false, NoGesture); }
      var wasPinching := pinch && count >= 2;
      fingers[k] := fingers[k].(active := false);
      count := count - 1;
      if wasPinching {
        var delta := curDist - initDist;
        var adelta := if delta < 0 then -delta else delta;
        pinch := false;
        if adelta >= PINCH_THRESHOLD * PINCH_THRESHOLD {
          return Report(true, if delta < 0 then PinchIn else PinchOut);
        }
      }
      if count > 0 { return Report(false, NoGesture); }
      SameKind(old(fingers[k]), ms);
      var kind := Classified(fingers[k], ms);
      return Report(kind != NoGesture, kind);
    }

    /** `gesture_abort`. */
    method Abort()
      requires Valid()
      modifies this, fingers
      ensures View() == AfterAbort(old(View()))
    {
      for i := 0 to MAX_FINGERS
        invariant forall j :: 0 <= j < i ==> fingers[j] == old(fingers[j]).(active := false)
        invariant forall j :: i <= j < MAX_FINGERS ==> fingers[j] == old(fingers[j])
        invariant View() == old(View()).(fingers := fingers[..])
      {
        fingers[i] := fingers[i].(active := false);
      }
      count := 0;
      pinch := false;
    }
  }

  lemma SameKind(f: Finger, ms: U64)
    ensures Classified(f.(active := false), ms) == Classified(f, ms)
  {
  }

  // ----- invariant -----

  predicate Travel(f: Finger) {
    f.active ==>
      && f.dx == f.curX - f.fromX && f.dy == f.curY - f.fromY
      && (!f.moved ==> f.dx * f.dx + f.dy * f.dy <= TAP_MAX_MOVE * TAP_MAX_MOVE)
  }

  predicate Down(fs: seq<Finger>, id: int) {
    FindFinger(fs, id) < |fs|
  }

  predicate DistinctIds(fs: seq<Finger>) {
    forall i, j :: 0 <= i < j < |fs| && fs[i].active && fs[j].active ==> fs[i].id != fs[j].id
  }

  predicate Inv(t: Tracker) {
    && |t.fingers| == MAX_FINGERS && t.count == Actives(t.fingers)
    && DistinctIds(t.fingers)
    && (forall i :: 0 <= i < MAX_FINGERS ==> Travel(t.fingers[i]))
    && (t.pinch ==> t.first != t.second && Down(t.fingers, t.first) && Down(t.fingers, t.second) &&
                    t.curDist == Dist(t.fingers, t.first, t.second))
  }

  datatype Event =
    | Press(x: int, y: int, id: int, ms: U64)
    | Move(x: int, y: int, id: int)
    | Lift(id: int)
    | Abort

  /** Callers never press a finger that is already down. */
  predicate Allowed(t: Tracker, e: Event) {
    e.Press? ==> !Down(t.fingers, e.id)
  }

  function After(t: Tracker, e: Event): Tracker
    requires |t.fingers| == MAX_FINGERS
  {
    match e
    case Press(x, y, id, ms) => AfterDown(t, x, y, id, ms)
    case Move(x, y, id) => AfterMove(t, x, y, id)
    case Lift(id) => AfterUp(t, id)
    case Abort => AfterAbort(t)
  }

  lemma {:induction false} ActivesOfUpdate(fs: seq<Finger>, k: nat, f: Finger)
    requires k < |fs|
    ensures Actives(fs[k := f]) == Actives(fs) - (if fs[k].active then 1 else 0) + (if f.active then 1 else 0)
  {
    var n := |fs| - 1;
    if k < n {
      assert fs[k := f][..n] == fs[..n][k := f];
      ActivesOfUpdate(fs[..n], k, f);
    } else {
      assert fs[k := f][..n] == fs[..n];
    }
  }

  lemma {:induction false} NoneActive(fs: seq<Finger>)
    requires forall i :: 0 <= i < |fs| ==> !fs[i].active
    ensures Actives(fs) == 0
  {
    if fs != [] {
      NoneActive(fs[..|fs| - 1]);
    }
  }

  /** A look-up depends only on which slots are active and with what ids. */
  predicate SameDowns(fs: seq<Finger>, fs': seq<Finger>) {
    |fs'| == |fs| && forall i :: 0 <= i < |fs| ==> fs'[i].active == fs[i].active && fs'[i].id == fs[i].id
  }

  lemma SameFind(fs: seq<Finger>, fs': seq<Finger>, id: int)
    requires SameDowns(fs, fs')
    ensures FindFinger(fs', id) == FindFinger(fs, id)
  {
  }

  lemma {:induction false} SameActives(fs: seq<Finger>, fs': seq<Finger>)
    requires SameDowns(fs, fs')
    ensures Actives(fs') == Actives(fs)
  {
    if fs != [] {
      SameActives(fs[..|fs| - 1], fs'[..|fs| - 1]);
    }
  }

  lemma SameDist(fs: seq<Finger>, fs': seq<Finger>, id1: int, id2: int)
    requires SameDowns(fs, fs')
    requires forall i :: 0 <= i < |fs| && fs[i].active && (fs[i].id == id1 || fs[i].id == id2) ==>
               fs'[i].curX == fs[i].curX && fs'[i].curY == fs[i].curY
    ensures Dist(fs', id1, id2) == Dist(fs, id1, id2)
  {
    SameFind(fs, fs', id1);
    SameFind(fs, fs', id2);
  }

  /** Filling a free slot does not disturb looking up the others. */
  lemma FindAfterPress(fs: seq<Finger>, k: nat, f: Finger, id: int)
    requires k < |fs| && !fs[k].active && f.id != id
    ensures FindFinger(fs[k := f], id) == FindFinger(fs, id)
    ensures FindFinger(fs, id) < |fs| ==> FindFinger(fs, id) != k
  {
    var fs' := fs[k := f];
    var a, b := FindFinger(fs, id), FindFinger(fs', id);
    assert a < |fs| ==> fs'[a] == fs[a];
    assert b < |fs| ==> fs[b] == fs'[b];
  }

  lemma DistAfterPress(fs: seq<Finger>, k: nat, f: Finger, id1: int, id2: int)
    requires k < |fs| && !fs[k].active && f.id != id1 && f.id != id2
    ensures Dist(fs[k := f], id1, id2) == Dist(fs, id1, id2)
  {
    FindAfterPress(fs, k, f, id1);
    FindAfterPress(fs, k, f, id2);
  }

  lemma NewIdIsDistinct(fs: seq<Finger>, k: nat, f: Finger)
    requires k < |fs| && DistinctIds(fs) && !Down(fs, f.id)
    ensures DistinctIds(fs[k := f])
  {
  }

  lemma PressKeepsInv(t: Tracker, x: int, y: int, id: int, ms: U64)
    requires Inv(t) && !Down(t.fingers, id)
    ensures Inv(AfterDown(t, x, y, id, ms))
  {
    var k := FreeFrom(t.fingers, 0);
    if k < MAX_FINGERS {
      var f := Pressed(x, y, id, ms);
      var t1 := t.(fingers := t.fingers[k := f], count := t.count + 1);
      ActivesOfUpdate(t.fingers, k, f);
      if t.pinch {
        FindAfterPress(t.fingers, k, f, t.first);
        FindAfterPress(t.fingers, k, f, t.second);
        DistAfterPress(t.fingers, k, f, t.first, t.second);
      }
      NewIdIsDistinct(t.fingers, k, f);
      hide Dist, FindFinger, FreeFrom, DistinctIds;
      assert Inv(t1);
      if t1.count == 2 {
        PinchStartKeepsInv(t1);
      }
    }
  }

  lemma ClearedBothKeeps(fs: seq<Finger>)
    requires |fs| == MAX_FINGERS && forall i :: 0 <= i < MAX_FINGERS ==> Travel(fs[i])
    ensures var g := ClearedBoth(fs);
            && SameDowns(fs, g) && (forall i :: 0 <= i < MAX_FINGERS ==> Travel(g[i]))
            && (forall i :: 0 <= i < MAX_FINGERS ==> g[i].curX == fs[i].curX && g[i].curY == fs[i].curY)
  {
  }

  lemma PinchStartKeepsInv(t: Tracker)
    requires Inv(t)
    ensures Inv(PinchStarted(t))
  {
    var t', fs := PinchStarted(t), t.fingers;
    var i := ActiveFrom(fs, 0);
    if i < MAX_FINGERS && ActiveFrom(fs, i + 1) < MAX_FINGERS {
      var g := ClearedBoth(fs);
      ClearedBothKeeps(fs);
      ActiveIsDown(fs, i);
      ActiveIsDown(fs, ActiveFrom(fs, i + 1));
      TwoAreDistinct(fs, i, ActiveFrom(fs, i + 1));
      hide ClearedBoth, Travel, Dist, FindFinger, DistinctIds, Actives;
      SameActives(fs, g);
      SameIds(fs, g);
      SameFind(fs, g, t'.first);
      SameFind(fs, g, t'.second);
      SameDist(fs, g, t'.first, t'.second);
    }
  }

  lemma ActiveIsDown(fs: seq<Finger>, i: nat)
    requires i < |fs| && fs[i].active
    ensures Down(fs, fs[i].id)
  {
  }

  lemma TwoAreDistinct(fs: seq<Finger>, i: nat, j: nat)
    requires DistinctIds(fs) && i < j < |fs| && fs[i].active && fs[j].active
    ensures fs[i].id != fs[j].id
  {
  }

  lemma SameIds(fs: seq<Finger>, fs': seq<Finger>)
    requires SameDowns(fs, fs') && DistinctIds(fs)
    ensures DistinctIds(fs')
  {
  }

  lemma TravelKept(f: Finger, x: int, y: int)
    requires Travel(f)
    ensures Travel(Travelled(f, x, y))
    ensures Travelled(f, x, y).active == f.active && Travelled(f, x, y).id == f.id
  {
  }

  lemma MoveKeepsInv(t: Tracker, x: int, y: int, id: int)
    requires Inv(t)
    ensures Inv(AfterMove(t, x, y, id))
  {
    var k := FindFinger(t.fingers, id);
    if k < MAX_FINGERS {
      TravelKept(t.fingers[k], x, y);
      hide Dist, Travelled, Travel, DistinctIds, Actives;
      var fs := t.fingers[k := Travelled(t.fingers[k], x, y)];
      SameActives(t.fingers, fs);
      SameIds(t.fingers, fs);
      SameFind(t.fingers, fs, t.first);
      SameFind(t.fingers, fs, t.second);
      if id != t.first && id != t.second {
        SameDist(t.fingers, fs, t.first, t.second);
      }
    }
  }

  lemma LiftKeepsInv(t: Tracker, id: int)
    requires Inv(t)
    ensures Inv(AfterUp(t, id))
  {
    var k := FindFinger(t.fingers, id);
    if k < MAX_FINGERS {
      ActivesOfUpdate(t.fingers, k, t.fingers[k].(active := false));
      if t.pinch {
        PinchNeedsTwo(t);
      }
    }
  }

  lemma PinchNeedsTwo(t: Tracker)
    requires Inv(t) && t.pinch
    ensures t.count >= 2
  {
    var a, b := FindFinger(t.fingers, t.first), FindFinger(t.fingers, t.second);
    var fa, fb := t.fingers[a].(active := false), t.fingers[b].(active := false);
    ActivesOfUpdate(t.fingers, a, fa);
    ActivesOfUpdate(t.fingers[a := fa], b, fb);
  }

  lemma EventKeepsInv(t: Tracker, e: Event)
    requires Inv(t) && Allowed(t, e)
    ensures Inv(After(t, e))
  {
    match e
    case Press(x, y, id, ms) => PressKeepsInv(t, x, y, id, ms);
    case Move(x, y, id) => MoveKeepsInv(t, x, y, id);
    case Lift(id) => LiftKeepsInv(t, id);
    case Abort => NoneActive(AfterAbort(t).fingers);
  }

  predicate Playable(t: Tracker, events: seq<Event>)
    decreases |events|
  {
    |t.fingers| == MAX_FINGERS &&
    (events == [] || (Allowed(t, events[0]) && Playable(After(t, events[0]), events[1..])))
  }

  function Final(t: Tracker, events: seq<Event>): Tracker
    requires Playable(t, events)
    decreases |events|
  {
    if events == [] then t else Final(After(t, events[0]), events[1..])
  }

  lemma InitialInv()
    ensures Inv(Initial())
  {
    NoneActive(Initial().fingers);
  }

  lemma {:induction false} EventsKeepInv(t: Tracker, events: seq<Event>)
    requires Inv(t) && Playable(t, events)
    ensures Inv(Final(t, events))
    decreases |events|
  {
    hide Inv;
    if events != [] {
      EventKeepsInv(t, events[0]);
      EventsKeepInv(After(t, events[0]), events[1..]);
    }
  }

  /** Fingers `a` and `b` are the two of the pinch. */
  predicate PinchSlots(t: Tracker, a: nat, b: nat) {
    && a < |t.fingers| && b < |t.fingers| && a != b
    && t.fingers[a].active && t.fingers[a].id == t.first && t.fingers[b].active && t.fingers[b].id == t.second
  }

  function Square(x: int): int {
    x * x
  }

  ghost predicate PinchMeasured(t: Tracker) {
    exists a: nat, b: nat ::
      PinchSlots(t, a, b) &&
      t.curDist == Square(t.fingers[a].curX - t.fingers[b].curX) + Square(t.fingers[a].curY - t.fingers[b].curY)
  }

  /** Main result: for callers that never press a finger twice, the count is the
      number of fingers down, and a pinch is between two different fingers that are
      down, with their present squared distance recorded. */
  lemma TrackerStaysTrue(events: seq<Event>)
    requires Playable(Initial(), events)
    ensures var t := Final(Initial(), events);
            && |t.fingers| == MAX_FINGERS && t.count == Actives(t.fingers) <= MAX_FINGERS
            && (t.pinch ==> t.count >= 2 && t.first != t.second && PinchMeasured(t))
  {
    InitialInv();
    EventsKeepInv(Initial(), events);
    var t := Final(Initial(), events);
    ActivesBounded(t.fingers);
    if t.pinch {
      PinchNeedsTwo(t);
      assert PinchSlots(t, FindFinger(t.fingers, t.first), FindFinger(t.fingers, t.second));
    }
  }

  lemma {:induction false} ActivesBounded(fs: seq<Finger>)
    ensures Actives(fs) <= |fs|
  {
    if fs != [] {
      ActivesBounded(fs[..|fs| - 1]);
    }
  }

  /** Lifting a finger reports a swipe exactly when no pinch was reported, no other
      finger is down, and the finger has moved, by fifty or more along some axis.
      In particular an unmoved finger never swipes. */
  lemma SwipeIff(events: seq<Event>, id: int, ms: U64)
    requires Playable(Initial(), events)
    ensures var t := Final(Initial(), events);
            && |t.fingers| == MAX_FINGERS
            && var k := FindFinger(t.fingers, id);
               IsSwipe(UpReport(t, id, ms).kind) <==>
                 k < MAX_FINGERS && !PinchReported(t) && t.count <= 1 && t.fingers[k].moved && Far(t.fingers[k])
  {
    InitialInv();
    EventsKeepInv(Initial(), events);
    var t := Final(Initial(), events);
    var k := FindFinger(t.fingers, id);
    if k < MAX_FINGERS && !t.fingers[k].moved {
      assert Travel(t.fingers[k]);
      ShortTravelIsNear(t.fingers[k]);
    }
  }

  /** A swipe goes the way the finger went, along the axis it went further. */
  lemma SwipeDirection(events: seq<Event>, id: int, ms: U64)
    requires Playable(Initial(), events)
    ensures var t := Final(Initial(), events);
            && |t.fingers| == MAX_FINGERS
            && var k := FindFinger(t.fingers, id);
               k < MAX_FINGERS ==>
                 var f := t.fingers[k];
                 var right, down := f.curX - f.fromX, f.curY - f.fromY;
                 && (UpReport(t, id, ms).kind == SwipeRight ==> right >= SWIPE_THRESHOLD && right > down && right > -down)
                 && (UpReport(t, id, ms).kind == SwipeLeft ==> -right >= SWIPE_THRESHOLD && -right > down && -right > -down)
                 && (UpReport(t, id, ms).kind == SwipeDown ==> down >= SWIPE_THRESHOLD && down >= right && down >= -right)
                 && (UpReport(t, id, ms).kind == SwipeUp ==> -down >= SWIPE_THRESHOLD && -down >= right && -down >= -right)
  {
    InitialInv();
    EventsKeepInv(Initial(), events);
    var t := Final(Initial(), events);
    var k := FindFinger(t.fingers, id);
    if k < MAX_FINGERS {
      assert Travel(t.fingers[k]);
    }
  }

  predicate IsSwipe(kind: Kind) {
    kind == SwipeUp || kind == SwipeDown || kind == SwipeLeft || kind == SwipeRight
  }

  predicate Far(f: Finger) {
    f.dx >= SWIPE_THRESHOLD || -f.dx >= SWIPE_THRESHOLD || f.dy >= SWIPE_THRESHOLD || -f.dy >= SWIPE_THRESHOLD
  }

  lemma SquareGrows(a: int)
    ensures a * a >= 0
    ensures a > 15 || a < -15 ==> a * a >= 256
  {
    if a > 15 {
      assert a * a >= 16 * a;
    } else if a < -15 {
      assert a * a >= -16 * a;
    }
  }

  lemma ShortTravelIsNear(f: Finger)
    requires f.dx * f.dx + f.dy * f.dy <= TAP_MAX_MOVE * TAP_MAX_MOVE
    ensures !Far(f)
  {
    SquareGrows(f.dx);
    SquareGrows(f.dy);
  }

  // ----- what starting a pinch leaves behind -----

  lemma {:induction false} NoneWhenZero(fs: seq<Finger>)
    requires Actives(fs) == 0
    ensures forall i :: 0 <= i < |fs| ==> !fs[i].active
  {
    if fs != [] {
      NoneWhenZero(fs[..|fs| - 1]);
      assert forall i :: 0 <= i < |fs| - 1 ==> fs[i] == fs[..|fs| - 1][i];
    }
  }

  lemma AloneWhenOne(fs: seq<Finger>, k: nat)
    requires k < |fs| && fs[k].active && Actives(fs) == 1
    ensures forall i :: 0 <= i < |fs| && i != k ==> !fs[i].active
  {
    var none := fs[k := fs[k].(active := false)];
    ActivesOfUpdate(fs, k, fs[k].(active := false));
    NoneWhenZero(none);
    assert forall i :: 0 <= i < |fs| && i != k ==> none[i] == fs[i];
  }

  /** The finger that was down alone in slot `k`, after a second finger came and went. */
  function LeftAfterPinch(t: Tracker, k: nat): Finger
    requires k < |t.fingers|
  {
    if k < 2 then Cleared(t.fingers[k]) else t.fingers[k]
  }

  lemma SecondFingerComes(t: Tracker, k: nat, x: int, y: int, id: int, ms: U64)
    requires Inv(t) && t.count == 1 && k < MAX_FINGERS && t.fingers[k].active && !Down(t.fingers, id)
    ensures var s, t1 := FreeFrom(t.fingers, 0), AfterDown(t, x, y, id, ms);
            && s < MAX_FINGERS && s != k && t.fingers[k].id != id
            && t1.pinch && t1.count == 2 && t1.curDist == t1.initDist && |t1.fingers| == MAX_FINGERS
            && t1.fingers[s].active && t1.fingers[s].id == id && t1.fingers[k] == LeftAfterPinch(t, k)
            && forall i :: 0 <= i < MAX_FINGERS && i != k && i != s ==> !t1.fingers[i].active
  {
    AloneWhenOne(t.fingers, k);
    var s := FreeFrom(t.fingers, 0);
    assert s <= if k == 0 then 1 else 0;
    var fs := t.fingers[s := Pressed(x, y, id, ms)];
    var i := ActiveFrom(fs, 0);
    assert fs[k].active && fs[s].active && i <= s && i <= k;
    assert i == k || i == s;
    assert ActiveFrom(fs, i + 1) <= if i == k then s else k;
    hide Dist;
  }

  lemma SecondFingerGoes(t: Tracker, k: nat, s: nat)
    requires |t.fingers| == MAX_FINGERS && t.pinch && t.count == 2
    requires k < MAX_FINGERS && s < MAX_FINGERS && k != s && t.fingers[k].active && t.fingers[s].active
    requires t.fingers[k].id != t.fingers[s].id
    requires forall i :: 0 <= i < MAX_FINGERS && i != k && i != s ==> !t.fingers[i].active
    ensures var t' := AfterUp(t, t.fingers[s].id);
            && |t'.fingers| == MAX_FINGERS && t'.count == 1 && !t'.pinch && t'.fingers[k] == t.fingers[k]
            && FindFinger(t'.fingers, t.fingers[k].id) == k
    ensures t.curDist == t.initDist ==> forall ms: U64 :: !UpReport(t, t.fingers[s].id, ms).emitted
  {
    assert FindFinger(t.fingers, t.fingers[s].id) == s;
    var fs := t.fingers[s := t.fingers[s].(active := false)];
    assert fs[k].active && fs[k].id == t.fingers[k].id;
  }

  predicate OnlyMoves(events: seq<Event>) {
    forall i :: 0 <= i < |events| ==> events[i].Move?
  }

  predicate SameOrigins(fs: seq<Finger>, fs': seq<Finger>) {
    |fs'| == |fs| && forall i :: 0 <= i < |fs| ==> fs'[i].fromX == fs[i].fromX && fs'[i].fromY == fs[i].fromY
  }

  lemma MoveKeepsDowns(t: Tracker, e: Event)
    requires |t.fingers| == MAX_FINGERS && e.Move?
    ensures var t' := After(t, e);
            Allowed(t, e) && SameDowns(t.fingers, t'.fingers) && SameOrigins(t.fingers, t'.fingers) &&
            t'.count == t.count && t'.pinch == t.pinch
  {
    hide Dist;
  }

  /** Moves change where fingers are and how far they went, and nothing else. */
  lemma {:induction false} MovesKeepDowns(t: Tracker, moves: seq<Event>)
    requires |t.fingers| == MAX_FINGERS && OnlyMoves(moves)
    ensures Playable(t, moves)
    ensures var t' := Final(t, moves);
            SameDowns(t.fingers, t'.fingers) && SameOrigins(t.fingers, t'.fingers) && t'.count == t.count && t'.pinch == t.pinch
    decreases |moves|
  {
    if moves != [] {
      MoveKeepsDowns(t, moves[0]);
      hide After, Allowed;
      MovesKeepDowns(After(t, moves[0]), moves[1..]);
    }
  }

  /** The finger in slot `k` was down alone in `t`; in `t2` it and a second one, `id`,
      have moved about. What lifting both then reports. */
  predicate SwipeReflectsTravel(t: Tracker, t2: Tracker, k: nat, id: int, later: U64) {
    && |t.fingers| == |t2.fingers| == MAX_FINGERS && |AfterUp(t2, id).fingers| == MAX_FINGERS && k < MAX_FINGERS
    && var f, f2 := t.fingers[k], t2.fingers[k];
       && f2.dx == (if k < 2 then 0 else f.dx) + (f2.curX - f.curX)
       && f2.dy == (if k < 2 then 0 else f.dy) + (f2.curY - f.curY)
       && (IsSwipe(UpReport(AfterUp(t2, id), f.id, later).kind) <==> Far(f2))
  }

  lemma TravelSince(f: Finger, f2: Finger, k: nat)
    requires f.active && Travel(f) && f2.active && Travel(f2)
    requires f2.fromX == (if k < 2 then Cleared(f) else f).fromX && f2.fromY == (if k < 2 then Cleared(f) else f).fromY
    ensures f2.dx == (if k < 2 then 0 else f.dx) + (f2.curX - f.curX)
    ensures f2.dy == (if k < 2 then 0 else f.dy) + (f2.curY - f.curY)
  {
  }

  lemma LastLiftReports(t: Tracker, k: nat, s: nat, later: U64)
    requires |t.fingers| == MAX_FINGERS && t.pinch && t.count == 2
    requires k < MAX_FINGERS && s < MAX_FINGERS && k != s && t.fingers[k].active && t.fingers[s].active
    requires t.fingers[k].id != t.fingers[s].id && Travel(t.fingers[k])
    requires forall i :: 0 <= i < MAX_FINGERS && i != k && i != s ==> !t.fingers[i].active
    ensures |AfterUp(t, t.fingers[s].id).fingers| == MAX_FINGERS
    ensures IsSwipe(UpReport(AfterUp(t, t.fingers[s].id), t.fingers[k].id, later).kind) <==> Far(t.fingers[k])
  {
    SecondFingerGoes(t, k, s);
    FarMeansMoved(t.fingers[k]);
    hide AfterUp;
  }

  lemma TwoMoveAbout(t: Tracker, k: nat, s: nat, moves: seq<Event>)
    requires Inv(t) && OnlyMoves(moves) && k < MAX_FINGERS && s < MAX_FINGERS && t.fingers[k].active
    ensures Playable(t, moves)
    ensures var t2 := Final(t, moves);
            && SameDowns(t.fingers, t2.fingers) && SameOrigins(t.fingers, t2.fingers)
            && t2.count == t.count && t2.pinch == t.pinch && Travel(t2.fingers[k])
  {
    MovesKeepDowns(t, moves);
    EventsKeepInv(t, moves);
  }

  lemma LiftAfterTravel(t: Tracker, t2: Tracker, k: nat, s: nat, later: U64)
    requires |t.fingers| == |t2.fingers| == MAX_FINGERS && k < MAX_FINGERS && s < MAX_FINGERS && k != s
    requires t.fingers[k].active && Travel(t.fingers[k]) && Travel(t2.fingers[k])
    requires t2.pinch && t2.count == 2 && t2.fingers[k].active && t2.fingers[s].active
    requires t2.fingers[k].id == t.fingers[k].id != t2.fingers[s].id
    requires forall i :: 0 <= i < MAX_FINGERS && i != k && i != s ==> !t2.fingers[i].active
    requires t2.fingers[k].fromX == LeftAfterPinch(t, k).fromX && t2.fingers[k].fromY == LeftAfterPinch(t, k).fromY
    ensures SwipeReflectsTravel(t, t2, k, t2.fingers[s].id, later)
  {
    TravelSince(t.fingers[k], t2.fingers[k], k);
    LastLiftReports(t2, k, s, later);
    hide AfterUp, UpReport;
  }

  lemma LiftAfterMoves(t: Tracker, k: nat, x: int, y: int, id: int, ms: U64, moves: seq<Event>, later: U64)
    requires Inv(t) && k < MAX_FINGERS && OnlyMoves(moves)
    requires t.count == 1 && t.fingers[k].active && !Down(t.fingers, id)
    ensures var pinching := AfterDown(t, x, y, id, ms);
            && |pinching.fingers| == MAX_FINGERS && pinching.pinch && Playable(pinching, moves)
            && SwipeReflectsTravel(t, Final(pinching, moves), k, id, later)
            && (moves == [] ==> !UpReport(pinching, id, later).emitted)
  {
    SecondFingerComes(t, k, x, y, id, ms);
    PressKeepsInv(t, x, y, id, ms);
    assert Travel(t.fingers[k]);
    var t1, s := AfterDown(t, x, y, id, ms), FreeFrom(t.fingers, 0);
    TwoMoveAbout(t1, k, s, moves);
    hide Inv, AfterDown, FreeFrom, Travel, UpReport, AfterUp, Playable, Final, OnlyMoves, Down, SwipeReflectsTravel;
    SecondFingerGoes(t1, k, s);
    LiftAfterTravel(t, Final(t1, moves), k, s, later);
  }

  /** The comment at the start of a pinch speaks of aborting the first finger's own
      gesture. The code drops the travel of slots 0 and 1, whichever fingers those
      are. In any run, when a second finger comes, the two move about and the second
      goes, lifting the first reports a swipe exactly when it went far: since the
      pinch began in slots 0 and 1, but before and since together in slots 2 and 3. */
  lemma OldTravelOutlivesPinchIff(events: seq<Event>, k: nat, x: int, y: int, id: int, ms: U64,
                                  moves: seq<Event>, later: U64)
    requires Playable(Initial(), events) && k < MAX_FINGERS && OnlyMoves(moves)
    requires var t := Final(Initial(), events);
             t.count == 1 && |t.fingers| == MAX_FINGERS && t.fingers[k].active && !Down(t.fingers, id)
    ensures var t := Final(Initial(), events);
            var pinching := AfterDown(t, x, y, id, ms);
            && |t.fingers| == |pinching.fingers| == MAX_FINGERS && pinching.pinch && Playable(pinching, moves)
            && SwipeReflectsTravel(t, Final(pinching, moves), k, id, later)
            && (moves == [] ==>
                  !UpReport(pinching, id, later).emitted &&
                  (IsSwipe(UpReport(AfterUp(pinching, id), t.fingers[k].id, later).kind) <==> k >= 2 && Far(t.fingers[k])))
  {
    InitialInv();
    EventsKeepInv(Initial(), events);
    hide Inv, AfterDown, AfterUp, UpReport;
    LiftAfterMoves(Final(Initial(), events), k, x, y, id, ms, moves, later);
  }

  lemma FarMeansMoved(f: Finger)
    requires f.active && Travel(f)
    ensures Far(f) ==> f.moved
  {
    if !f.moved {
      ShortTravelIsNear(f);
    }
  }

  lemma FinalStep(t: Tracker, events: seq<Event>)
    requires |t.fingers| == MAX_FINGERS && events != [] && Allowed(t, events[0])
    requires Playable(After(t, events[0]), events[1..])
    ensures Playable(t, events) && Final(t, events) == Final(After(t, events[0]), events[1..])
  {
  }

  function ThirdFinger(): Finger {
    Finger(true, 3, 100, 0, 100, 0, 0, true, 0, 0)
  }

  lemma ThreeFingersDown() returns (t1: Tracker, t2: Tracker, t3: Tracker)
    ensures t1 == AfterDown(Initial(), 0, 0, 1, 0) && |t1.fingers| == MAX_FINGERS && !Down(t1.fingers, 2)
    ensures t2 == AfterDown(t1, 0, 0, 2, 0) && |t2.fingers| == MAX_FINGERS && !Down(t2.fingers, 3)
    ensures t3 == AfterDown(t2, 0, 0, 3, 0) && |t3.fingers| == MAX_FINGERS && t3.fingers[2] == Pressed(0, 0, 3, 0)
    ensures t3.count == 3 && !t3.fingers[3].active
    ensures t3.fingers[0].active && t3.fingers[0].id == 1 && t3.fingers[1].active && t3.fingers[1].id == 2
  {
    t1 := AfterDown(Initial(), 0, 0, 1, 0);
    assert t1.fingers[0] == Pressed(0, 0, 1, 0) && t1.count == 1;
    hide Dist;
    t2 := AfterDown(t1, 0, 0, 2, 0);
    assert t2.fingers[0].active && t2.fingers[0].id == 1 && t2.fingers[1].active && t2.fingers[1].id == 2;
    assert !t2.fingers[2].active && !t2.fingers[3].active && t2.count == 2;
    t3 := AfterDown(t2, 0, 0, 3, 0);
    assert t3.fingers[0] == t2.fingers[0] && t3.fingers[1] == t2.fingers[1];
  }

  lemma OnlyTheThirdStays(t3: Tracker) returns (t4: Tracker, t5: Tracker, t6: Tracker)
    requires |t3.fingers| == MAX_FINGERS && t3.fingers[2] == Pressed(0, 0, 3, 0) && t3.count == 3 && !t3.fingers[3].active
    requires t3.fingers[0].active && t3.fingers[0].id == 1 && t3.fingers[1].active && t3.fingers[1].id == 2
    ensures t4 == AfterUp(t3, 1) && |t4.fingers| == MAX_FINGERS && t5 == AfterUp(t4, 2) && |t5.fingers| == MAX_FINGERS
    ensures t6 == AfterMove(t5, 100, 0, 3) && |t6.fingers| == MAX_FINGERS && t6.fingers[2] == ThirdFinger() && t6.count == 1
    ensures !t6.fingers[0].active && !t6.fingers[1].active && !t6.fingers[3].active
  {
    hide Dist, Travelled;
    t4 := AfterUp(t3, 1);
    assert !t4.fingers[0].active && t4.fingers[1] == t3.fingers[1] && t4.fingers[2] == t3.fingers[2] && t4.count == 2;
    t5 := AfterUp(t4, 2);
    assert !t5.fingers[0].active && !t5.fingers[1].active && t5.fingers[2] == t3.fingers[2] && t5.count == 1;
    t6 := AfterMove(t5, 100, 0, 3);
    ThirdMoves(t5);
  }

  lemma ThirdMoves(t: Tracker)
    requires |t.fingers| == MAX_FINGERS && t.fingers[2] == Pressed(0, 0, 3, 0) && t.count == 1
    requires !t.fingers[0].active && !t.fingers[1].active && !t.fingers[3].active
    ensures var t' := AfterMove(t, 100, 0, 3);
            && |t'.fingers| == MAX_FINGERS && t'.fingers[2] == ThirdFinger() && t'.count == 1
            && !t'.fingers[0].active && !t'.fingers[1].active && !t'.fingers[3].active
  {
    hide Dist;
    HundredToTheRight();
    hide Travelled;
    assert FindFinger(t.fingers, 3) == 2;
  }

  lemma HundredToTheRight()
    ensures Travelled(Pressed(0, 0, 3, 0), 100, 0) == ThirdFinger()
  {
    var f := Pressed(0, 0, 3, 0);
    var dx, dy := f.dx + (100 - f.curX), f.dy + (0 - f.curY);
    assert dx == 100 && dy == 0;
    assert dx * dx + dy * dy == 10000;
  }

  lemma ThirdIsClassified()
    ensures Classified(ThirdFinger(), 300) == SwipeRight
  {
  }

  /** Three fingers come, the first two go, the third moves a hundred to the right. */
  lemma ThirdFingerAlone() returns (events: seq<Event>)
    ensures Playable(Initial(), events)
    ensures var t := Final(Initial(), events);
            && |t.fingers| == MAX_FINGERS && t.fingers[2] == ThirdFinger() && t.count == 1
            && !t.fingers[0].active && !t.fingers[1].active && !t.fingers[3].active
  {
    events := [Press(0, 0, 1, 0), Press(0, 0, 2, 0), Press(0, 0, 3, 0), Lift(1), Lift(2), Move(100, 0, 3)];
    var t1, t2, t3 := ThreeFingersDown();
    hide AfterDown, AfterUp, AfterMove, Final;
    var t4, t5, t6 := OnlyTheThirdStays(t3);
    assert events[6..] == [] && Playable(t6, []) && Final(t6, []) == t6 by { NothingMore(t6); }
    hide Playable;
    FinalStep(t5, events[5..]);
    FinalStep(t4, events[4..]);
    FinalStep(t3, events[3..]);
    FinalStep(t2, events[2..]);
    FinalStep(t1, events[1..]);
    FinalStep(Initial(), events);
  }

  lemma NothingMore(t: Tracker)
    requires |t.fingers| == MAX_FINGERS
    ensures Playable(t, []) && Final(t, []) == t
  {
  }

  /** Such a run goes on: a fourth finger starts a pinch and leaves, and lifting the
      third reports a swipe made before the pinch. */
  lemma OldTravelReportedAsSwipe() returns (events: seq<Event>)
    ensures Playable(Initial(), events) && |Final(Initial(), events).fingers| == MAX_FINGERS
    ensures var t := Final(Initial(), events);
            var pinching := AfterDown(t, 9, 9, 4, 100);
            && |t.fingers| == MAX_FINGERS && |pinching.fingers| == MAX_FINGERS
            && |AfterUp(pinching, 4).fingers| == MAX_FINGERS && pinching.pinch
            && !UpReport(pinching, 4, 200).emitted
            && UpReport(AfterUp(pinching, 4), 3, 300) == Report(true, SwipeRight)
  {
    events := ThirdFingerAlone();
    InitialInv();
    EventsKeepInv(Initial(), events);
    hide Inv, AfterDown, AfterUp, Final, UpReport;
    FourthComesAndGoes(Final(Initial(), events));
  }

  lemma NotDown(fs: seq<Finger>, id: int)
    requires |fs| == MAX_FINGERS && forall i :: 0 <= i < |fs| && fs[i].active ==> fs[i].id != id
    ensures !Down(fs, id)
  {
  }

  lemma FourthComesAndGoes(t: Tracker)
    requires Inv(t) && |t.fingers| == MAX_FINGERS && t.fingers[2] == ThirdFinger() && t.count == 1
    requires !t.fingers[0].active && !t.fingers[1].active && !t.fingers[3].active
    ensures var pinching := AfterDown(t, 9, 9, 4, 100);
            && |pinching.fingers| == MAX_FINGERS && |AfterUp(pinching, 4).fingers| == MAX_FINGERS && pinching.pinch
            && !UpReport(pinching, 4, 200).emitted
            && UpReport(AfterUp(pinching, 4), 3, 300) == Report(true, SwipeRight)
  {
    hide Inv, AfterDown, AfterUp, Down, Classified, Dist, FreeFrom;
    assert forall i :: 0 <= i < MAX_FINGERS && i != 2 ==> !t.fingers[i].active;
    NotDown(t.fingers, 4);
    SecondFingerComes(t, 2, 9, 9, 4, 100);
    var pinching := AfterDown(t, 9, 9, 4, 100);
    assert pinching.fingers[2] == ThirdFinger();
    SecondFingerGoes(pinching, 2, FreeFrom(t.fingers, 0));
    ThirdIsClassified();
  }
}
