/**
  What the tracker of drivers/gesture.c should know and report, told from the list of
  events alone: who is down, where, since when, how far from where; and what lifting
  a finger then means. The tracker is proved to agree with it in every run.
*/
module GestureLog {
  import opened Gesture
  import opened Prelude

  type Slots = s: seq<Option<int>> | |s| == MAX_FINGERS witness seq(MAX_FINGERS, _ => None)

  datatype Point = Point(x: int, y: int)

  /** The squared distance of two points. */
  function Gap(a: Point, b: Point): int {
    (a.x - b.x) * (a.x - b.x) + (a.y - b.y) * (a.y - b.y)
  }

  lemma GapIsSymmetric(a: Point, b: Point)
    ensures Gap(a, b) == Gap(b, a)
  {
  }

  // ----- the log -----

  /** A finger takes the lowest free slot. */
  function PutIn(s: Slots, id: int): Slots {
    if s[0].None? then s[0 := Some(id)]
    else if s[1].None? then s[1 := Some(id)]
    else if s[2].None? then s[2 := Some(id)]
    else if s[3].None? then s[3 := Some(id)]
    else s
  }

  function TakeOut(s: Slots, id: int): Slots {
    seq(MAX_FINGERS, i requires 0 <= i < MAX_FINGERS => if s[i] == Some(id) then None else s[i])
  }

  function One(o: Option<int>): nat {
    if o.Some? then 1 else 0
  }

  function Count(s: Slots): nat {
    One(s[0]) + One(s[1]) + One(s[2]) + One(s[3])
  }

  /** Which finger is in which slot. */
  function SlotsOf(es: seq<Event>): Slots {
    if es == [] then seq(MAX_FINGERS, _ => None)
    else
      var before := SlotsOf(es[..|es| - 1]);
      match es[|es| - 1]
      case Press(_, _, id, _) => PutIn(before, id)
      case Move(_, _, _) => before
      case Lift(id) => TakeOut(before, id)
      case Abort => seq(MAX_FINGERS, _ => None)
  }

  predicate IsDown(es: seq<Event>, id: int) {
    Some(id) in SlotsOf(es)
  }

  function DownCount(es: seq<Event>): nat {
    Count(SlotsOf(es))
  }

  /** The last press was of a second finger. */
  predicate IsSecond(es: seq<Event>) {
    es != [] && es[|es| - 1].Press? && DownCount(es[..|es| - 1]) == 1
  }

  /** Where the finger was last said to be. */
  function Position(es: seq<Event>, id: int): Point {
    if es == [] then Point(0, 0)
    else
      var e := es[|es| - 1];
      if (e.Press? || e.Move?) && e.id == id then Point(e.x, e.y) else Position(es[..|es| - 1], id)
  }

  /** When it was last pressed. */
  function PressTime(es: seq<Event>, id: int): U64 {
    if es == [] then 0
    else if es[|es| - 1].Press? && es[|es| - 1].id == id then es[|es| - 1].ms
    else PressTime(es[..|es| - 1], id)
  }

  /** Where its travel counts from: where it was pressed, or, for a finger in slot 0
      or 1, where it was when a second finger came. */
  function Origin(es: seq<Event>, id: int): Point {
    if es == [] then Point(0, 0)
    else
      var before, e := es[..|es| - 1], es[|es| - 1];
      if e.Press? && e.id == id then Point(e.x, e.y)
      else if IsSecond(es) && (SlotsOf(before)[0] == Some(id) || SlotsOf(before)[1] == Some(id)) then Position(before, id)
      else Origin(before, id)
  }

  /** It has been further than fifteen from there. */
  predicate HasMoved(es: seq<Event>, id: int) {
    es != [] &&
    var before, e := es[..|es| - 1], es[|es| - 1];
    if e.Press? && e.id == id then false
    else HasMoved(before, id) || (e.Move? && e.id == id && Gap(Point(e.x, e.y), Origin(before, id)) > 15 * 15)
  }

  /** The number of events after which the present pinch began: a second finger came,
      and none has gone since. */
  function PinchFrom(es: seq<Event>): Option<nat> {
    if es == [] then None
    else
      var before := es[..|es| - 1];
      match es[|es| - 1]
      case Press(_, _, _, _) => if IsSecond(es) then Some(|es|) else PinchFrom(before)
      case Move(_, _, _) => PinchFrom(before)
      case Lift(id) => if IsDown(before, id) then None else PinchFrom(before)
      case Abort => None
  }

  // ----- the tracker agrees -----

  predicate FingerAgrees(f: Finger, slot: Option<int>, es: seq<Event>) {
    && (f.active <==> slot.Some?)
    && (f.active ==>
          && slot == Some(f.id) && Position(es, f.id) == Point(f.curX, f.curY) && Origin(es, f.id) == Point(f.fromX, f.fromY)
          && PressTime(es, f.id) == f.startMs && HasMoved(es, f.id) == f.moved)
  }

  predicate FingersAgree(t: Tracker, es: seq<Event>) {
    && |t.fingers| == MAX_FINGERS && t.count == DownCount(es)
    && forall i :: 0 <= i < MAX_FINGERS ==> FingerAgrees(t.fingers[i], SlotsOf(es)[i], es)
  }

  /** The pinch is between the two fingers that were down when it began, and the
      distance they had then is recorded. */
  ghost predicate PinchAgrees(t: Tracker, es: seq<Event>) {
    match PinchFrom(es)
    case None => !t.pinch
    case Some(m) =>
      && t.pinch && m <= |es| && t.first != t.second
      && (forall id :: Some(id) in SlotsOf(es[..m]) ==> id == t.first || id == t.second)
      && t.initDist == Gap(Position(es[..m], t.first), Position(es[..m], t.second))
  }

  ghost predicate Agrees(t: Tracker, es: seq<Event>) {
    FingersAgree(t, es) && PinchAgrees(t, es)
  }

  lemma {:induction false} FinalSnoc(t: Tracker, es: seq<Event>)
    requires Playable(t, es) && es != []
    ensures var before, e := es[..|es| - 1], es[|es| - 1];
            && Playable(t, before) && |Final(t, before).fingers| == MAX_FINGERS && Allowed(Final(t, before), e)
            && Final(t, es) == After(Final(t, before), e)
    decreases |es|
  {
    hide After, Allowed;
    var before := es[..|es| - 1];
    if before == [] {
      assert es[1..] == [];
    } else {
      FinalSnoc(After(t, es[0]), es[1..]);
      assert es[1..][..|es| - 2] == before[1..];
    }
  }

  /** A slot that the press does not fill, before travel is dropped. */
  lemma OthersStay(es: seq<Event>, e: Event, f: Finger, slot: Option<int>)
    requires FingerAgrees(f, slot, es) && f.active
    requires (e.Press? || e.Move?) ==> e.id != f.id
    requires !IsSecond(es + [e])
    ensures FingerAgrees(f, slot, es + [e])
  {
    assert (es + [e])[..|es|] == es;
  }

  lemma InactiveStays(es: seq<Event>, es': seq<Event>, f: Finger)
    requires FingerAgrees(f, None, es)
    ensures FingerAgrees(f, None, es')
  {
  }

  /** Any other finger when a second one comes. */
  lemma OthersAtPinch(es: seq<Event>, e: Event, f: Finger, i: nat)
    requires i < MAX_FINGERS && FingerAgrees(f, SlotsOf(es)[i], es) && f.active && e.Press? && e.id != f.id
    requires IsSecond(es + [e])
    requires forall j :: 0 <= j < MAX_FINGERS && j != i ==> SlotsOf(es)[j] != Some(f.id)
    ensures FingerAgrees(if i < 2 then Cleared(f) else f, SlotsOf(es)[i], es + [e])
  {
    assert (es + [e])[..|es|] == es;
  }

  lemma NewFinger(es: seq<Event>, e: Event)
    requires e.Press?
    ensures FingerAgrees(Pressed(e.x, e.y, e.id, e.ms), Some(e.id), es + [e])
    ensures FingerAgrees(Cleared(Pressed(e.x, e.y, e.id, e.ms)), Some(e.id), es + [e])
  {
    assert (es + [e])[..|es|] == es;
  }

  /** The tracker's free slot is the log's. */
  lemma SameSlot(t: Tracker, es: seq<Event>, id: int)
    requires FingersAgree(t, es)
    ensures var k := FreeFrom(t.fingers, 0);
            PutIn(SlotsOf(es), id) == if k < MAX_FINGERS then SlotsOf(es)[k := Some(id)] else SlotsOf(es)
    ensures var k := FreeFrom(t.fingers, 0);
            Count(PutIn(SlotsOf(es), id)) == t.count + if k < MAX_FINGERS then 1 else 0
    ensures t.count == 1 ==> FreeFrom(t.fingers, 0) < MAX_FINGERS
  {
    var k := FreeFrom(t.fingers, 0);
    assert forall i :: 0 <= i < MAX_FINGERS ==> (t.fingers[i].active <==> SlotsOf(es)[i].Some?);
    hide FingerAgrees, SlotsOf;
  }

  lemma SlotsAreDistinct(t: Tracker, es: seq<Event>)
    requires FingersAgree(t, es) && DistinctIds(t.fingers)
    ensures forall i, j :: 0 <= i < j < MAX_FINGERS && SlotsOf(es)[i].Some? ==> SlotsOf(es)[i] != SlotsOf(es)[j]
  {
    assert forall i :: 0 <= i < MAX_FINGERS ==> FingerAgrees(t.fingers[i], SlotsOf(es)[i], es);
    hide SlotsOf, Position, Origin, PressTime, HasMoved;
  }

  lemma PressKeepsFingers(t: Tracker, es: seq<Event>, e: Event)
    requires FingersAgree(t, es) && Inv(t) && e.Press? && !Down(t.fingers, e.id)
    ensures FingersAgree(AfterDown(t, e.x, e.y, e.id, e.ms), es + [e])
  {
    var es', s, k := es + [e], SlotsOf(es), FreeFrom(t.fingers, 0);
    assert es'[..|es|] == es;
    SameSlot(t, es, e.id);
    SlotsAreDistinct(t, es);
    NewFinger(es, e);
    assert SlotsOf(es') == PutIn(s, e.id) && (IsSecond(es') <==> t.count == 1);
    forall i | 0 <= i < MAX_FINGERS
      ensures FingerAgrees(t.fingers[i], s[i], es)
      ensures t.fingers[i].active ==> t.fingers[i].id != e.id
    {
    }
    forall i | 0 <= i < MAX_FINGERS && i != k
      ensures FingerAgrees(if IsSecond(es') && i < 2 then Cleared(t.fingers[i]) else t.fingers[i], s[i], es')
    {
      var f := t.fingers[i];
      if f.active {
        if IsSecond(es') {
          OthersAtPinch(es, e, f, i);
        } else {
          OthersStay(es, e, f, s[i]);
        }
      } else {
        InactiveStays(es, es', Cleared(f));
        InactiveStays(es, es', f);
      }
    }
    hide FingerAgrees, SlotsOf, IsSecond, Inv, Cleared, Pressed, FreeFrom, PutIn, Dist;
    FingersAfterPress(t, e);
  }

  /** What a press makes of the slots. */
  lemma FingersAfterPress(t: Tracker, e: Event)
    requires Inv(t) && e.Press? && !Down(t.fingers, e.id)
    ensures var k, t' := FreeFrom(t.fingers, 0), AfterDown(t, e.x, e.y, e.id, e.ms);
            && |t'.fingers| == MAX_FINGERS && t'.count == t.count + (if k < MAX_FINGERS then 1 else 0)
            && forall i :: 0 <= i < MAX_FINGERS ==>
                 var f := if i == k then Pressed(e.x, e.y, e.id, e.ms) else t.fingers[i];
                 t'.fingers[i] == if t.count == 1 && i < 2 then Cleared(f) else f
  {
    if t.count == 1 {
      if k :| 0 <= k < MAX_FINGERS && t.fingers[k].active {
        SecondFingerComes(t, k, e.x, e.y, e.id, e.ms);
      } else {
        NoneActive(t.fingers);
      }
      if t.pinch {
        PinchNeedsTwo(t);
      }
      PressStartsPinch(t, e);
    }
  }

  lemma PressStartsPinch(t: Tracker, e: Event)
    requires Inv(t) && e.Press? && t.count == 1 && AfterDown(t, e.x, e.y, e.id, e.ms).pinch && !t.pinch
    ensures var k, t' := FreeFrom(t.fingers, 0), AfterDown(t, e.x, e.y, e.id, e.ms);
            k < MAX_FINGERS && t'.fingers == ClearedBoth(t.fingers[k := Pressed(e.x, e.y, e.id, e.ms)])
  {
  }

  lemma MovedFinger(es: seq<Event>, e: Event, f: Finger)
    requires FingerAgrees(f, Some(f.id), es) && f.active && Travel(f) && e.Move? && e.id == f.id
    ensures FingerAgrees(Travelled(f, e.x, e.y), Some(f.id), es + [e])
  {
    assert (es + [e])[..|es|] == es;
    assert f.dx + (e.x - f.curX) == e.x - f.fromX && f.dy + (e.y - f.curY) == e.y - f.fromY;
  }

  lemma MoveKeepsFingers(t: Tracker, es: seq<Event>, e: Event)
    requires FingersAgree(t, es) && Inv(t) && e.Move?
    ensures FingersAgree(AfterMove(t, e.x, e.y, e.id), es + [e])
  {
    var es', s, k := es + [e], SlotsOf(es), FindFinger(t.fingers, e.id);
    var t' := AfterMove(t, e.x, e.y, e.id);
    assert es'[..|es|] == es && SlotsOf(es') == s;
    forall i | 0 <= i < MAX_FINGERS
      ensures FingerAgrees(t'.fingers[i], s[i], es')
    {
      var f := t.fingers[i];
      assert FingerAgrees(f, s[i], es) && Travel(f);
      if i == k {
        MovedFinger(es, e, f);
      } else if f.active {
        assert f.id != e.id;
        OthersStay(es, e, f, s[i]);
      } else {
        InactiveStays(es, es', f);
      }
    }
  }

  lemma LiftKeepsFingers(t: Tracker, es: seq<Event>, e: Event)
    requires FingersAgree(t, es) && Inv(t) && e.Lift?
    ensures FingersAgree(AfterUp(t, e.id), es + [e])
  {
    var es', s, k := es + [e], SlotsOf(es), FindFinger(t.fingers, e.id);
    var t' := AfterUp(t, e.id);
    assert es'[..|es|] == es && SlotsOf(es') == TakeOut(s, e.id);
    SlotsAreDistinct(t, es);
    forall i | 0 <= i < MAX_FINGERS
      ensures FingerAgrees(t'.fingers[i], SlotsOf(es')[i], es')
      ensures s[i] == Some(e.id) <==> i == k
    {
      var f := t.fingers[i];
      assert FingerAgrees(f, s[i], es);
      assert f.active && f.id == e.id ==> i == k;
      if i != k && f.active {
        OthersStay(es, e, f, s[i]);
      }
    }
    hide FingerAgrees, SlotsOf, Inv;
    CountAfterTakeOut(s, e.id, k);
  }

  lemma CountAfterTakeOut(s: Slots, id: int, k: nat)
    requires forall i :: 0 <= i < MAX_FINGERS ==> (s[i] == Some(id) <==> i == k)
    ensures Count(TakeOut(s, id)) == Count(s) - if k < MAX_FINGERS then 1 else 0
  {
  }

  lemma AbortKeepsFingers(t: Tracker, es: seq<Event>)
    requires FingersAgree(t, es)
    ensures FingersAgree(AfterAbort(t), es + [Abort])
  {
    assert (es + [Abort])[..|es|] == es;
  }

  // ----- the pinch -----

  lemma DistOfPoints(fs: seq<Finger>, a: int, b: int)
    requires Down(fs, a) && Down(fs, b)
    ensures var f, g := fs[FindFinger(fs, a)], fs[FindFinger(fs, b)];
            Dist(fs, a, b) == Gap(Point(f.curX, f.curY), Point(g.curX, g.curY))
  {
    hide FindFinger;
  }

  lemma PositionOf(t: Tracker, es: seq<Event>, a: int)
    requires FingersAgree(t, es) && Down(t.fingers, a)
    ensures var f := t.fingers[FindFinger(t.fingers, a)];
            Position(es, a) == Point(f.curX, f.curY)
  {
    assert FingerAgrees(t.fingers[FindFinger(t.fingers, a)], SlotsOf(es)[FindFinger(t.fingers, a)], es);
  }

  /** The distance the tracker computes is that of the fingers' positions. */
  lemma DistIsGap(t: Tracker, es: seq<Event>, a: int, b: int)
    requires FingersAgree(t, es) && Down(t.fingers, a) && Down(t.fingers, b)
    ensures Dist(t.fingers, a, b) == Gap(Position(es, a), Position(es, b))
  {
    hide FingersAgree, Position, Dist, Gap;
    DistOfPoints(t.fingers, a, b);
    PositionOf(t, es, a);
    PositionOf(t, es, b);
  }

  lemma DownIsDown(t: Tracker, es: seq<Event>, id: int)
    requires FingersAgree(t, es)
    ensures IsDown(es, id) <==> Down(t.fingers, id)
  {
    forall i | 0 <= i < MAX_FINGERS
      ensures SlotsOf(es)[i] == Some(id) <==> t.fingers[i].active && t.fingers[i].id == id
    {
      assert FingerAgrees(t.fingers[i], SlotsOf(es)[i], es);
    }
    hide FingerAgrees, SlotsOf;
    if Down(t.fingers, id) {
      assert SlotsOf(es)[FindFinger(t.fingers, id)] == Some(id);
    }
  }

  /** A pinch that goes on. */
  lemma PinchGoesOn(t: Tracker, es: seq<Event>, e: Event, t': Tracker)
    requires PinchAgrees(t, es) && PinchFrom(es + [e]) == PinchFrom(es)
    requires t'.pinch == t.pinch && t'.first == t.first && t'.second == t.second && t'.initDist == t.initDist
    ensures PinchAgrees(t', es + [e])
  {
    if PinchFrom(es).Some? {
      assert (es + [e])[..PinchFrom(es).value] == es[..PinchFrom(es).value];
    }
  }

  /** What starting a pinch records. */
  lemma PinchRecords(t: Tracker, e: Event)
    requires Inv(t) && e.Press? && !Down(t.fingers, e.id) && t.count == 1
    ensures var t' := AfterDown(t, e.x, e.y, e.id, e.ms);
            && |t'.fingers| == MAX_FINGERS && t'.pinch && t'.first != t'.second
            && Down(t'.fingers, t'.first) && Down(t'.fingers, t'.second) && t'.initDist == Dist(t'.fingers, t'.first, t'.second)
            && forall id :: Down(t'.fingers, id) ==> id == t'.first || id == t'.second
  {
    if k :| 0 <= k < MAX_FINGERS && t.fingers[k].active {
      SecondFingerComes(t, k, e.x, e.y, e.id, e.ms);
      PressKeepsInv(t, e.x, e.y, e.id, e.ms);
      hide Dist;
    } else {
      NoneActive(t.fingers);
    }
  }

  lemma PressKeepsPinch(t: Tracker, es: seq<Event>, e: Event)
    requires Agrees(t, es) && Inv(t) && e.Press? && !Down(t.fingers, e.id)
    requires FingersAgree(AfterDown(t, e.x, e.y, e.id, e.ms), es + [e])
    ensures PinchAgrees(AfterDown(t, e.x, e.y, e.id, e.ms), es + [e])
  {
    var es', t' := es + [e], AfterDown(t, e.x, e.y, e.id, e.ms);
    assert es'[..|es|] == es && es'[..|es'|] == es';
    if t.count == 1 {
      PinchRecords(t, e);
      DistIsGap(t', es', t'.first, t'.second);
      forall id | Some(id) in SlotsOf(es')
        ensures id == t'.first || id == t'.second
      {
        DownIsDown(t', es', id);
      }
    } else {
      PinchGoesOn(t, es, e, t');
    }
  }

  lemma MoveKeepsPinch(t: Tracker, es: seq<Event>, e: Event)
    requires Agrees(t, es) && e.Move?
    ensures PinchAgrees(AfterMove(t, e.x, e.y, e.id), es + [e])
  {
    assert (es + [e])[..|es|] == es;
    PinchGoesOn(t, es, e, AfterMove(t, e.x, e.y, e.id));
  }

  lemma LiftKeepsPinch(t: Tracker, es: seq<Event>, e: Event)
    requires Agrees(t, es) && Inv(t) && e.Lift?
    ensures PinchAgrees(AfterUp(t, e.id), es + [e])
  {
    assert (es + [e])[..|es|] == es;
    DownIsDown(t, es, e.id);
    if t.pinch {
      PinchNeedsTwo(t);
    }
    if !IsDown(es, e.id) {
      PinchGoesOn(t, es, e, AfterUp(t, e.id));
    }
  }

  lemma EventKeepsAgreement(t: Tracker, es: seq<Event>, e: Event)
    requires Agrees(t, es) && Inv(t) && Allowed(t, e)
    ensures Agrees(After(t, e), es + [e])
  {
    hide Inv, FingersAgree, PinchAgrees;
    match e
    case Press(_, _, _, _) =>
      assert |t.fingers| == MAX_FINGERS && !Down(t.fingers, e.id) by { Sized(t); }
      PressKeepsFingers(t, es, e);
      PressKeepsPinch(t, es, e);
    case Move(_, _, _) =>
      MoveKeepsFingers(t, es, e);
      MoveKeepsPinch(t, es, e);
    case Lift(_) =>
      LiftKeepsFingers(t, es, e);
      LiftKeepsPinch(t, es, e);
    case Abort =>
      AbortKeepsFingers(t, es);
      AbortEndsPinch(t, es);
  }

  lemma Sized(t: Tracker)
    requires Inv(t)
    ensures |t.fingers| == MAX_FINGERS
  {
  }

  lemma AbortEndsPinch(t: Tracker, es: seq<Event>)
    ensures PinchAgrees(AfterAbort(t), es + [Abort])
  {
  }

  /** Main result on states: for callers that never press a finger twice, the tracker
      says of every finger what the events say, and of the pinch as well. */
  lemma {:induction false} TrackerFollowsLog(es: seq<Event>)
    requires Playable(Initial(), es)
    ensures Agrees(Final(Initial(), es), es)
  {
    if es == [] {
    } else {
      var before, e := es[..|es| - 1], es[|es| - 1];
      FinalSnoc(Initial(), es);
      TrackerFollowsLog(before);
      InitialInv();
      EventsKeepInv(Initial(), before);
      hide Agrees, Inv, After, Allowed;
      EventKeepsAgreement(Final(Initial(), before), before, e);
      assert before + [e] == es;
    }
  }

  // ----- what a lift reports -----

  /** What lifting `id` after `es` returns and stores. */
  function Reported(es: seq<Event>, id: int, ms: U64): Report
    requires Playable(Initial(), es)
    requires |Final(Initial(), es).fingers| == MAX_FINGERS
  {
    UpReport(Final(Initial(), es), id, ms)
  }

  lemma FinalSized(es: seq<Event>)
    requires Playable(Initial(), es)
    ensures |Final(Initial(), es).fingers| == MAX_FINGERS
  {
    InitialInv();
    EventsKeepInv(Initial(), es);
  }

  /** Main result on pinches, on coordinates: while two fingers `a` and `b` pinch, a
      lift reports that they spread when their squared distance has grown by 900 or
      more since the second one came, that they closed when it has shrunk by as much,
      and nothing otherwise. */
  lemma PinchReportIff(es: seq<Event>, m: nat, a: int, b: int, id: int, ms: U64)
    requires Playable(Initial(), es) && PinchFrom(es) == Some(m) && m <= |es|
    requires a != b && IsDown(es[..m], a) && IsDown(es[..m], b) && IsDown(es, id)
    ensures |Final(Initial(), es).fingers| == MAX_FINGERS
    ensures var then', now := Gap(Position(es[..m], a), Position(es[..m], b)), Gap(Position(es, a), Position(es, b));
            Reported(es, id, ms) ==
              if now - then' >= 900 then Report(true, PinchOut)
              else if then' - now >= 900 then Report(true, PinchIn)
              else Report(false, NoGesture)
  {
    FinalSized(es);
    TrackerFollowsLog(es);
    InitialInv();
    EventsKeepInv(Initial(), es);
    var t := Final(Initial(), es);
    hide Final, Playable;
    PinchNeedsTwo(t);
    DownIsDown(t, es, id);
    DistIsGap(t, es, t.first, t.second);
    GapIsSymmetric(Position(es, a), Position(es, b));
    GapIsSymmetric(Position(es[..m], a), Position(es[..m], b));
    hide FingersAgree, Gap, Position, Dist, SlotsOf, Classified;
  }

  /** Without a pinch, a lift while another finger is down reports nothing, and lifting
      a finger that is not down does neither that nor anything else. */
  lemma OtherReports(es: seq<Event>, id: int, ms: U64)
    requires Playable(Initial(), es) && (!IsDown(es, id) || (PinchFrom(es).None? && DownCount(es) > 1))
    ensures |Final(Initial(), es).fingers| == MAX_FINGERS && Reported(es, id, ms) == Report(false, NoGesture)
    ensures !IsDown(es, id) ==> AfterUp(Final(Initial(), es), id) == Final(Initial(), es)
  {
    FinalSized(es);
    TrackerFollowsLog(es);
    DownIsDown(Final(Initial(), es), es, id);
    hide Final, Playable, FingerAgrees, Classified;
  }

  function Abs(a: int): int {
    if a < 0 then -a else a
  }

  /** A finger that has gone `right` and `down` is classified by that. */
  lemma ClassifiedByTravel(f: Finger, ms: U64, right: int, down: int)
    requires f.active && Travel(f) && f.dx == right && f.dy == down
    ensures var kind, held := Classified(f, ms), (ms - f.startMs) % U64_LIMIT;
            && (kind == LongPress <==> !f.moved && held >= 600)
            && (kind == Tap <==> !f.moved && held <= 300)
            && (kind == SwipeRight <==> f.moved && right >= 50 && right > Abs(down))
            && (kind == SwipeLeft <==> f.moved && right <= -50 && -right > Abs(down))
            && (kind == SwipeDown <==> f.moved && down >= 50 && down >= Abs(right))
            && (kind == SwipeUp <==> f.moved && down <= -50 && -down >= Abs(right))
            && kind != PinchIn && kind != PinchOut
  {
    FarMeansMoved(f);
    hide Travel;
  }

  /** Lifting the one finger down reports what that finger is classified as. */
  lemma LoneLift(es: seq<Event>, id: int, ms: U64) returns (f: Finger)
    requires Playable(Initial(), es) && IsDown(es, id) && PinchFrom(es).None? && DownCount(es) <= 1
    ensures |Final(Initial(), es).fingers| == MAX_FINGERS
    ensures Reported(es, id, ms) == Report(Classified(f, ms) != NoGesture, Classified(f, ms))
    ensures f.active && Travel(f) && f.startMs == PressTime(es, id) && f.moved == HasMoved(es, id)
    ensures f.dx == Position(es, id).x - Origin(es, id).x && f.dy == Position(es, id).y - Origin(es, id).y
  {
    FinalSized(es);
    TrackerFollowsLog(es);
    InitialInv();
    EventsKeepInv(Initial(), es);
    var t := Final(Initial(), es);
    hide Final, Playable, Classified;
    DownIsDown(t, es, id);
    var k := FindFinger(t.fingers, id);
    f := t.fingers[k];
    assert FingerAgrees(f, SlotsOf(es)[k], es) && Travel(f);
    hide Inv, FindFinger, FingersAgree, SlotsOf, Position, Origin, HasMoved, PressTime;
  }

  /** The one finger down: how long, whether it moved, and how far from its origin
      decide between a long press, a tap, the four swipes and nothing. */
  lemma LastFingerReportIff(es: seq<Event>, id: int, ms: U64)
    requires Playable(Initial(), es) && IsDown(es, id) && PinchFrom(es).None? && DownCount(es) <= 1
    ensures |Final(Initial(), es).fingers| == MAX_FINGERS
    ensures var r := Reported(es, id, ms);
            var held, moved := (ms - PressTime(es, id)) % U64_LIMIT, HasMoved(es, id);
            var right, down := Position(es, id).x - Origin(es, id).x, Position(es, id).y - Origin(es, id).y;
            && (r.emitted <==> r.kind != NoGesture)
            && (r.kind == LongPress <==> !moved && held >= 600)
            && (r.kind == Tap <==> !moved && held <= 300)
            && (r.kind == SwipeRight <==> moved && right >= 50 && right > Abs(down))
            && (r.kind == SwipeLeft <==> moved && right <= -50 && -right > Abs(down))
            && (r.kind == SwipeDown <==> moved && down >= 50 && down >= Abs(right))
            && (r.kind == SwipeUp <==> moved && down <= -50 && -down >= Abs(right))
            && r.kind != PinchIn && r.kind != PinchOut
  {
    var f := LoneLift(es, id, ms);
    ClassifiedByTravel(f, ms, f.dx, f.dy);
    hide Final, Playable, Reported, SlotsOf, Travel, Position, Origin, HasMoved, PressTime, Classified, Abs;
  }
}
