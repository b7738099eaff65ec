/** The z-ordered window array of lvgl_wm.c: later in the array is further up. */
module WindowManager {
  import opened Bits
  import opened Prelude

  const MAX_WINDOWS: nat := 32
  const TITLE_MAX: nat := 127
  const MARGIN: int := 8
  const START_X: int := 24
  const START_Y: int := 24

  datatype Win = Win(id: int, title: string, rect: Rect, visible: bool, focused: bool)

  const NoWin := Win(0, "", Rect(0, 0, 0, 0), false, false)

  datatype Wm = Wm(screenW: int, screenH: int, cascadeStep: int, cascadeX: int, cascadeY: int,
                   nextId: int, focusedId: int, windows: seq<Win>)

  // ----- calls as functions -----

  function ClampSize(size: int, screen: int): int {
    var largest := if screen - MARGIN * 2 < 1 then 1 else screen - MARGIN * 2;
    if size < 1 then 1 else if size > largest then largest else size
  }

  function ClampPos(pos: int, size: int, screen: int): int {
    var p := if pos < 0 then 0 else pos;
    var q := if p + size > screen then screen - size else p;
    if q < 0 then 0 else q
  }

  function Clamped(s: Wm, r: Rect): Rect {
    var w, h := ClampSize(r.w, s.screenW), ClampSize(r.h, s.screenH);
    Rect(ClampPos(r.x, w, s.screenW), ClampPos(r.y, h, s.screenH), w, h)
  }

  /** A rectangle that already fits the screen with its margins is not touched. */
  lemma ClampLeavesFitting(s: Wm, r: Rect)
    requires 1 <= r.w <= s.screenW - 2 * MARGIN && 1 <= r.h <= s.screenH - 2 * MARGIN
    requires 0 <= r.x && r.x + r.w <= s.screenW && 0 <= r.y && r.y + r.h <= s.screenH
    ensures Clamped(s, r) == r
  {
  }

  predicate OnScreen(screenW: int, screenH: int, r: Rect) {
    1 <= r.w && 1 <= r.h && 0 <= r.x && 0 <= r.y && r.x + r.w <= screenW && r.y + r.h <= screenH
  }

  lemma ClampedIsOnScreen(s: Wm, r: Rect)
    requires s.screenW >= 1 && s.screenH >= 1
    ensures OnScreen(s.screenW, s.screenH, Clamped(s, r))
  {
  }

  /** `r` is the value between `lo` and `hi` that lies nearest to `v`. */
  predicate Nearest(v: int, lo: int, hi: int, r: int) {
    lo <= r <= hi && (v < lo ==> r == lo) && (v > hi ==> r == hi) && (lo <= v <= hi ==> r == v)
  }

  /** Clamping moves each number as little as it can: the size to the nearest that
      leaves sixteen pixels, the position to the nearest that keeps all of the
      window on the screen. */
  lemma ClampIsNearest(s: Wm, r: Rect)
    requires s.screenW >= 1 && s.screenH >= 1
    ensures var c := Clamped(s, r);
            && Nearest(r.w, 1, if s.screenW > 16 then s.screenW - 16 else 1, c.w)
            && Nearest(r.h, 1, if s.screenH > 16 then s.screenH - 16 else 1, c.h)
            && Nearest(r.x, 0, s.screenW - c.w, c.x) && Nearest(r.y, 0, s.screenH - c.h, c.y)
  {
  }

  /** Position of the window with this id, or the number of windows. */
  function Find(ws: seq<Win>, id: int): (k: nat)
    ensures k <= |ws| && (k < |ws| ==> ws[k].id == id)
    ensures forall j :: 0 <= j < k ==> ws[j].id != id
  {
    if ws == [] || ws[0].id == id then 0 else 1 + Find(ws[1..], id)
  }

  /** Position of the last window with this id, or -1. */
  function FindLast(ws: seq<Win>, id: int): (k: int)
    ensures -1 <= k < |ws| && (k >= 0 ==> ws[k].id == id)
    ensures forall j :: k < j < |ws| ==> ws[j].id != id
  {
    if ws == [] || ws[|ws| - 1].id == id then |ws| - 1 else FindLast(ws[..|ws| - 1], id)
  }

  lemma FoundEitherWay(ws: seq<Win>, id: int)
    ensures Find(ws, id) < |ws| <==> FindLast(ws, id) >= 0
  {
  }

  lemma LastIsOnTop(ws: seq<Win>)
    requires ws != []
    ensures Drop(ws, |ws| - 1) + [ws[|ws| - 1]] == ws
  {
  }

  function Flagged(ws: seq<Win>, id: int): seq<Win> {
    seq(|ws|, i requires 0 <= i < |ws| => ws[i].(focused := ws[i].id == id))
  }

  function Placed(s: Wm, title: string, w: int, h: int): Win {
    var size := Rect(s.cascadeX, s.cascadeY, if w <= 0 then 400 else w, if h <= 0 then 300 else h);
    Win(s.nextId, title[..Min(|title|, TITLE_MAX)], Clamped(s, size), true, false)
  }

  function AfterCreate(s: Wm, title: string, w: int, h: int): Wm {
    if |s.windows| >= MAX_WINDOWS then s else
      var x, y := s.cascadeX + s.cascadeStep, s.cascadeY + s.cascadeStep;
      var back := x > s.screenW / 2;
      s.(windows := s.windows + [Placed(s, title, w, h)], nextId := s.nextId + 1,
         cascadeX := if back then START_X else x, cascadeY := if back then START_Y else y)
  }

  function AfterDestroy(s: Wm, id: int): Wm {
    var k := Find(s.windows, id);
    if id <= 0 || k == |s.windows| then s else
      var rest := Drop(s.windows, k);
      if s.focusedId != id then s.(windows := rest) else s.(windows := TopFlagged(rest), focusedId := TopId(rest))
  }

  function TopId(ws: seq<Win>): int {
    if ws == [] then 0 else ws[|ws| - 1].id
  }

  function TopFlagged(ws: seq<Win>): seq<Win> {
    if TopId(ws) == 0 then ws else ws[|ws| - 1 := ws[|ws| - 1].(focused := true)]
  }

  function AfterSync(s: Wm, id: int, r: Rect): Wm {
    var k := Find(s.windows, id);
    if id <= 0 || k == |s.windows| then s
    else s.(windows := s.windows[k := s.windows[k].(rect := Clamped(s, r))])
  }

  function AfterFocus(s: Wm, id: int): Wm {
    var ws := Flagged(s.windows, id);
    var k := FindLast(ws, id);
    if k < 0 then s.(windows := ws, focusedId := 0)
    else s.(windows := Drop(ws, k) + [ws[k]], focusedId := if id <= 0 then 0 else id)
  }

  function AfterReset(s: Wm): Wm {
    s.(windows := [], nextId := 1, focusedId := 0, cascadeX := START_X, cascadeY := START_Y)
  }

  predicate Hit(w: Win, x: int, y: int) {
    w.visible && Inside(w.rect, x, y)
  }

  // ----- the code, in place -----

  class WindowManager {
    var screenW: int
    var screenH: int
    var cascadeStep: int
    var cascadeX: int
    var cascadeY: int
    var count: nat
    var nextId: int
    var focusedId: int
    const windows: array<Win>

    ghost predicate Valid()
      reads this
    {
      windows.Length == MAX_WINDOWS && count <= MAX_WINDOWS
    }

    ghost function View(): Wm
      requires Valid()
      reads this, windows
    {
      Wm(screenW, screenH, cascadeStep, cascadeX, cascadeY, nextId, focusedId, windows[..count])
    }

    /** `lvgl_wm_init`. */
    constructor (w: int, h: int, titlebar: int)
      ensures Valid() && fresh(windows)
      ensures View() == Initial(w, h, titlebar)
    {
      screenW := if w > 0 then w else 1280;
      screenH := if h > 0 then h else 800;
      cascadeStep := (if titlebar > 0 then titlebar else 30) + MARGIN;
      windows := new Win[MAX_WINDOWS](_ => NoWin);
      count, nextId, focusedId := 0, 1, 0;
      cascadeX, cascadeY := START_X, START_Y;
    }

    /** `lvgl_wm_create_window`; 0 when the array is full. */
    method CreateWindow(title: string, w0: int, h0: int) returns (id: int)
      requires Valid()
      modifies windows, `count, `nextId, `cascadeX, `cascadeY
      ensures Valid() && View() == AfterCreate(old(View()), title, w0, h0)
      ensures id == if |old(View()).windows| >= MAX_WINDOWS then 0 else old(nextId)
    {
      if count >= MAX_WINDOWS { return 0; }
      hide Clamped;
      var w, h := w0, h0;
      id := nextId;
      nextId := nextId + 1;
      if w <= 0 { w := 400; }
      if h <= 0 { h := 300; }
      var rect := ClampRect(Rect(cascadeX, cascadeY, w, h));
      ghost var before := old(View());
      assert rect == Placed(before, title, w0, h0).rect by { ClampUsesScreen(before, View(), Rect(cascadeX, cascadeY, w, h)); }
      windows[count] := Win(id, title[..Min(|title|, TITLE_MAX)], rect, true, false);
      cascadeX := cascadeX + cascadeStep;
      cascadeY := cascadeY + cascadeStep;
      if cascadeX > screenW / 2 {
        cascadeX := START_X;
        cascadeY := START_Y;
      }
      count := count + 1;
      assert windows[..count] == before.windows + [Placed(before, title, w0, h0)];
    }

    /** `clamp_rect`. */
    method ClampRect(r0: Rect) returns (r: Rect)
      requires Valid()
      ensures r == Clamped(View(), r0)
    {
      var x, y, w, h := r0.x, r0.y, r0.w, r0.h;
      var maxW, maxH := screenW - MARGIN * 2, screenH - MARGIN * 2;
      if maxW < 1 { maxW := 1; }
      if maxH < 1 { maxH := 1; }
      if w < 1 { w := 1; }
      if h < 1 { h := 1; }
      if w > maxW { w := maxW; }
      if h > maxH { h := maxH; }
      if x < 0 { x := 0; }
      if y < 0 { y := 0; }
      if x + w > screenW { x := screenW - w; }
      if y + h > screenH { y := screenH - h; }
      if x < 0 { x := 0; }
      if y < 0 { y := 0; }
      r := Rect(x, y, w, h);
    }

    /** The shifting loops: everything above `k` moves down by one. */
    method ShiftDown(k: nat)
      requires Valid() && k < count
      modifies windows
      ensures windows[..count - 1] == Drop(old(windows[..count]), k)
    {
      var i := k;
      while i + 1 < count
        invariant k <= i < count
        invariant forall j :: 0 <= j < k ==> windows[j] == old(windows[j])
        invariant forall j :: k <= j < i ==> windows[j] == old(windows[j + 1])
        invariant forall j :: i <= j < count ==> windows[j] == old(windows[j])
      {
        windows[i] := windows[i + 1];
        i := i + 1;
      }
    }

    /** The window at `k` goes, and the slot it frees at the end is blanked. */
    method RemoveAt(k: nat)
      requires Valid() && k < count
      modifies windows, `count
      ensures Valid() && View() == old(View()).(windows := Drop(old(View()).windows, k))
    {
      ShiftDown(k);
      ghost var rest := windows[..count - 1];
      windows[count - 1] := windows[count - 1].(id := 0, visible := false, focused := false);
      count := count - 1;
      assert windows[..count] == rest;
    }

    /** The uppermost window, if any, takes the focus. */
    method FocusTop()
      requires Valid()
      modifies windows, `focusedId
      ensures View() == old(View()).(windows := TopFlagged(old(View()).windows), focusedId := TopId(old(View()).windows))
    {
      focusedId := if count != 0 then windows[count - 1].id else 0;
      if focusedId != 0 {
        windows[count - 1] := windows[count - 1].(focused := true);
      }
    }

    /** `lvgl_wm_destroy_window`. */
    method DestroyWindow(id: int)
      requires Valid()
      modifies windows, `count, `focusedId
      ensures Valid() && View() == AfterDestroy(old(View()), id)
    {
      if id <= 0 { return; }
      ghost var s := View();
      for i := 0 to count
        invariant View() == s && forall j :: 0 <= j < i ==> windows[j].id != id
      {
        if windows[i].id == id {
          assert s.windows[i].id == id && Find(s.windows, id) == i;
          RemoveAt(i);
          if focusedId == id {
            FocusTop();
          }
          return;
        }
      }
    }

    /** `lvgl_wm_find_window`, as a position; `count` when there is none. */
    method FindWindow(id: int) returns (k: nat)
      requires Valid()
      ensures k == if id <= 0 then count else Find(View().windows, id)
    {
      if id <= 0 { return count; }
      for i := 0 to count
        invariant forall j :: 0 <= j < i ==> windows[j].id != id
      {
        if windows[i].id == id {
          assert View().windows[i].id == id;
          return i;
        }
      }
      return count;
    }

    /** `lvgl_wm_hit_test`: the uppermost visible window at the point. */
    method HitTest(x: int, y: int) returns (id: int)
      requires Valid()
      ensures id == HitId(View().windows, x, y)
    {
      var i: int := count - 1;
      while i >= 0
        invariant -1 <= i < count
        invariant HitId(windows[..count], x, y) == HitId(windows[..i + 1], x, y)
      {
        assert windows[..i + 1][..i] == windows[..i];
        if Hit(windows[i], x, y) { return windows[i].id; }
        i := i - 1;
      }
      return 0;
    }

    /** `lvgl_wm_sync_geometry`. */
    method SyncGeometry(id: int, x: int, y: int, w: int, h: int)
      requires Valid()
      modifies windows
      ensures View() == AfterSync(old(View()), id, Rect(x, y, w, h))
    {
      hide Clamped;
      ghost var s := View();
      var k := FindWindow(id);
      if k == count { return; }
      var rect := ClampRect(Rect(x, y, w, h));
      windows[k] := windows[k].(rect := rect);
      assert windows[..count] == s.windows[k := s.windows[k].(rect := rect)];
    }

    /** `lvgl_wm_set_focus`. */
    method SetFocus(id: int) returns (prev: int)
      requires Valid()
      modifies windows, `focusedId
      ensures View() == AfterFocus(old(View()), id) && prev == old(focusedId)
    {
      hide Flagged, Find, FindLast, Drop;
      ghost var s := View();
      prev := focusedId;
      var at := FlagFocus(id);
      ghost var ws := windows[..count];
      var k := FindWindow(id);
      FoundEitherWay(ws, id);
      focusedId := if k < count then id else 0;
      if at >= 0 && at + 1 < count {
        MoveToTop(at);
      } else if at >= 0 {
        LastIsOnTop(ws);
      }
    }

    /** The window at `k` is taken out and put on top. */
    method MoveToTop(k: nat)
      requires Valid() && k + 1 < count
      modifies windows
      ensures windows[..count] == Drop(old(windows[..count]), k) + [old(windows[k])]
    {
      hide Drop;
      var win := windows[k];
      ShiftDown(k);
      windows[count - 1] := win;
      assert windows[..count] == windows[..count - 1] + [win];
    }

    /** The first loop of `lvgl_wm_set_focus`: flags, and the last match. */
    method FlagFocus(id: int) returns (at: int)
      requires Valid()
      modifies windows
      ensures windows[..count] == Flagged(old(windows[..count]), id)
      ensures at == FindLast(windows[..count], id)
    {
      at := -1;
      for i := 0 to count
        invariant forall j :: 0 <= j < i ==> windows[j] == old(windows[j]).(focused := old(windows[j]).id == id)
        invariant forall j :: i <= j < count ==> windows[j] == old(windows[j])
        invariant -1 <= at < i && (at >= 0 ==> windows[at].id == id)
        invariant forall j :: at < j < i ==> windows[j].id != id
      {
        windows[i] := windows[i].(focused := windows[i].id == id);
        if windows[i].id == id { at := i; }
      }
    }

    /** `lvgl_wm_reset`. */
    method Reset()
      requires Valid()
      modifies this, windows
      ensures Valid() && View() == AfterReset(old(View()))
    {
      count, nextId, focusedId := 0, 1, 0;
      cascadeX, cascadeY := START_X, START_Y;
      for i := 0 to MAX_WINDOWS
        invariant Valid() && View() == AfterReset(old(View()))
      {
        windows[i] := NoWin;
      }
    }
  }

  function Initial(w: int, h: int, titlebar: int): Wm {
    Wm(if w > 0 then w else 1280, if h > 0 then h else 800, (if titlebar > 0 then titlebar else 30) + MARGIN,
       START_X, START_Y, 1, 0, [])
  }

  lemma ClampUsesScreen(s: Wm, s': Wm, r: Rect)
    requires s.screenW == s'.screenW && s.screenH == s'.screenH
    ensures Clamped(s, r) == Clamped(s', r)
  {
  }

  /** The id of the last window that is hit; 0 when none is. */
  function HitId(ws: seq<Win>, x: int, y: int): int {
    if ws == [] then 0
    else if Hit(ws[|ws| - 1], x, y) then ws[|ws| - 1].id
    else HitId(ws[..|ws| - 1], x, y)
  }

  // ----- invariant -----

  predicate DistinctIds(ws: seq<Win>) {
    forall i, j :: 0 <= i < j < |ws| ==> ws[i].id != ws[j].id
  }

  predicate WinOk(s: Wm, w: Win) {
    0 < w.id < s.nextId && w.visible && OnScreen(s.screenW, s.screenH, w.rect) && (w.focused <==> w.id == s.focusedId)
  }

  predicate Inv(s: Wm) {
    && s.screenW >= 1 && s.screenH >= 1 && s.nextId >= 1 && |s.windows| <= MAX_WINDOWS
    && DistinctIds(s.windows)
    && (forall i :: 0 <= i < |s.windows| ==> WinOk(s, s.windows[i]))
    && (s.focusedId == 0 || Find(s.windows, s.focusedId) < |s.windows|)
  }

  datatype Call =
    | Create(title: string, w: int, h: int)
    | Destroy(id: int)
    | Sync(id: int, r: Rect)
    | Focus(id: int)
    | Reset

  function After(s: Wm, c: Call): Wm {
    match c
    case Create(title, w, h) => AfterCreate(s, title, w, h)
    case Destroy(id) => AfterDestroy(s, id)
    case Sync(id, r) => AfterSync(s, id, r)
    case Focus(id) => AfterFocus(s, id)
    case Reset => AfterReset(s)
  }

  function Final(s: Wm, calls: seq<Call>): Wm
    decreases |calls|
  {
    if calls == [] then s else Final(After(s, calls[0]), calls[1..])
  }

  lemma FindIsOnly(ws: seq<Win>, id: int, k: nat)
    requires DistinctIds(ws) && k < |ws| && ws[k].id == id
    ensures Find(ws, id) == k && FindLast(ws, id) == k
  {
  }

  lemma CreateKeepsInv(s: Wm, title: string, w: int, h: int)
    requires Inv(s)
    ensures Inv(AfterCreate(s, title, w, h))
  {
    hide Clamped;
    var s' := AfterCreate(s, title, w, h);
    if |s.windows| < MAX_WINDOWS {
      var size := Rect(s.cascadeX, s.cascadeY, if w <= 0 then 400 else w, if h <= 0 then 300 else h);
      ClampedIsOnScreen(s, size);
      if s.focusedId != 0 {
        var k := Find(s.windows, s.focusedId);
        assert WinOk(s, s.windows[k]);
        FindIsOnly(s'.windows, s.focusedId, k);
      }
    }
  }

  lemma DropKeepsDistinct(ws: seq<Win>, k: nat)
    requires k < |ws| && DistinctIds(ws)
    ensures var rest := Drop(ws, k);
            && |rest| == |ws| - 1 && DistinctIds(rest)
            && forall i :: 0 <= i < |rest| ==> rest[i] == ws[if i < k then i else i + 1] && rest[i].id != ws[k].id
  {
  }

  lemma DestroyKeepsInv(s: Wm, id: int)
    requires Inv(s)
    ensures Inv(AfterDestroy(s, id))
  {
    hide OnScreen;
    var k := Find(s.windows, id);
    if 0 < id && k < |s.windows| {
      var s', rest := AfterDestroy(s, id), Drop(s.windows, k);
      DropKeepsDistinct(s.windows, k);
      hide Drop;
      forall i | 0 <= i < |s'.windows|
        ensures WinOk(s', s'.windows[i])
      {
        assert WinOk(s, rest[i]);
      }
      if s'.focusedId != 0 {
        var f := if s.focusedId == id then |rest| - 1 else
                   var j := Find(s.windows, s.focusedId); if j < k then j else j - 1;
        FindIsOnly(s'.windows, s'.focusedId, f);
      }
    }
  }

  lemma SyncKeepsInv(s: Wm, id: int, r: Rect)
    requires Inv(s)
    ensures Inv(AfterSync(s, id, r))
  {
    hide Clamped;
    ClampedIsOnScreen(s, r);
    var s' := AfterSync(s, id, r);
    forall i | 0 <= i < |s'.windows|
      ensures WinOk(s', s'.windows[i])
    {
      assert WinOk(s, s.windows[i]);
    }
    if s.focusedId != 0 {
      FindIsOnly(s'.windows, s.focusedId, Find(s.windows, s.focusedId));
    }
  }

  lemma FocusKeepsInv(s: Wm, id: int)
    requires Inv(s)
    ensures Inv(AfterFocus(s, id))
  {
    var k := Find(s.windows, id);
    if k < |s.windows| {
      RaisedKeepsInv(s, k);
    } else {
      hide OnScreen;
      NotThere(Flagged(s.windows, id), id);
      assert forall i :: 0 <= i < |s.windows| ==> WinOk(s, s.windows[i]);
    }
  }

  lemma RaisedKeepsInv(s: Wm, k: nat)
    requires Inv(s) && k < |s.windows|
    ensures Inv(AfterFocus(s, s.windows[k].id))
  {
    RaisedOrder(s, k);
    var id, n := s.windows[k].id, |s.windows|;
    var s' := AfterFocus(s, id);
    assert s'.screenW == s.screenW && s'.screenH == s.screenH && s'.nextId == s.nextId;
    hide AfterFocus, OnScreen, Find, FindLast;
    forall i | 0 <= i < n
      ensures WinOk(s', s'.windows[i])
    {
      var from := if i < k then i else if i + 1 < n then i + 1 else k;
      assert WinOk(s, s.windows[from]);
    }
    FindIsOnly(s'.windows, id, n - 1);
  }

  lemma NotThere(ws: seq<Win>, id: int)
    requires forall i :: 0 <= i < |ws| ==> ws[i].id != id
    ensures FindLast(ws, id) == -1
  {
  }

  lemma DropSkips(ws: seq<Win>, k: nat)
    requires k < |ws|
    ensures |Drop(ws, k)| == |ws| - 1 && forall i :: 0 <= i < |ws| - 1 ==> Drop(ws, k)[i] == ws[if i < k then i else i + 1]
  {
  }

  /** Where each window goes when the one at `k` is focused. */
  lemma RaisedOrder(s: Wm, k: nat)
    requires Inv(s) && k < |s.windows|
    ensures var id, n := s.windows[k].id, |s.windows|;
            var s' := AfterFocus(s, id);
            && s'.focusedId == id && |s'.windows| == n && id > 0
            && forall i :: 0 <= i < n ==>
                 s'.windows[i] == s.windows[if i < k then i else if i + 1 < n then i + 1 else k].(focused := i == n - 1)
  {
    var id := s.windows[k].id;
    var ws := Flagged(s.windows, id);
    assert WinOk(s, s.windows[k]);
    assert forall i :: 0 <= i < |ws| && i != k ==> ws[i].id != id;
    FindIsOnly(ws, id, k);
    DropSkips(ws, k);
    hide Inv, WinOk, OnScreen, Find, FindLast, Drop;
    assert AfterFocus(s, id).windows == Drop(ws, k) + [ws[k]];
  }

  lemma CallKeepsInv(s: Wm, c: Call)
    requires Inv(s)
    ensures Inv(After(s, c))
  {
    match c
    case Create(title, w, h) => CreateKeepsInv(s, title, w, h);
    case Destroy(id) => DestroyKeepsInv(s, id);
    case Sync(id, r) => SyncKeepsInv(s, id, r);
    case Focus(id) => FocusKeepsInv(s, id);
    case Reset =>
  }

  /** Main result on states: after any calls, ids are distinct, positive and below
      the next id, the focused id is 0 or names the only flagged window, and every
      window lies inside the screen. */
  lemma {:induction false} CallsKeepInv(s: Wm, calls: seq<Call>)
    requires Inv(s)
    ensures Inv(Final(s, calls))
    decreases |calls|
  {
    hide Inv;
    if calls != [] {
      CallKeepsInv(s, calls[0]);
      CallsKeepInv(After(s, calls[0]), calls[1..]);
    }
  }

  lemma InitialInv(w: int, h: int, titlebar: int)
    ensures Inv(Initial(w, h, titlebar))
  {
  }

  /** So it holds after any calls on a fresh window manager of any size. */
  lemma RunsKeepInv(w: int, h: int, titlebar: int, calls: seq<Call>)
    ensures Inv(Final(Initial(w, h, titlebar), calls))
  {
    InitialInv(w, h, titlebar);
    CallsKeepInv(Initial(w, h, titlebar), calls);
  }

  // ----- what each call does, record by record -----

  /** A new window lies on top of the old ones, which stay as they are: the next
      free id, at most 127 characters of title, and the cascade's place and the
      wanted size (400 by 300 by default) as far as the screen allows. */
  lemma CreateEffect(s: Wm, title: string, w: int, h: int)
    requires Inv(s)
    ensures |s.windows| == 32 ==> AfterCreate(s, title, w, h) == s
    ensures var s' := AfterCreate(s, title, w, h);
            |s.windows| < 32 ==>
              && |s'.windows| == |s.windows| + 1 && s'.windows[..|s.windows|] == s.windows
              && s'.nextId == s.nextId + 1 && s'.focusedId == s.focusedId
              && var win := s'.windows[|s.windows|];
                 && win.id == s.nextId && win.visible && !win.focused
                 && win.title <= title && (|win.title| == 127 || win.title == title) && |win.title| <= 127
                 && win.rect == Clamped(s, Rect(s.cascadeX, s.cascadeY, if w >= 1 then w else 400, if h >= 1 then h else 300))
                 && forall i :: 0 <= i < |s.windows| ==> s.windows[i].id != win.id
  {
    hide Clamped;
    forall i | 0 <= i < |s.windows|
      ensures s.windows[i].id != s.nextId
    {
      assert WinOk(s, s.windows[i]);
    }
  }

  /** Where the next window goes: down the diagonal from (24, 24) in steps of a title
      bar and a margin, back to the start beyond half of the screen's width. */
  predicate OnDiagonal(s: Wm) {
    && s.cascadeX == s.cascadeY && s.cascadeX >= 24 && s.cascadeStep > 8
    && (s.cascadeX - 24) % s.cascadeStep == 0 && (s.cascadeX == 24 || s.cascadeX <= s.screenW / 2)
  }

  lemma {:induction false} CascadeStaysOnDiagonal(s: Wm, calls: seq<Call>)
    requires OnDiagonal(s)
    ensures OnDiagonal(Final(s, calls))
    decreases |calls|
  {
    hide OnDiagonal, After;
    if calls != [] {
      CallKeepsDiagonal(s, calls[0]);
      CascadeStaysOnDiagonal(After(s, calls[0]), calls[1..]);
    }
  }

  lemma CallKeepsDiagonal(s: Wm, c: Call)
    requires OnDiagonal(s)
    ensures OnDiagonal(After(s, c))
  {
    hide Placed, TopFlagged, Flagged, Clamped, Find, FindLast;
    NextStep(s.cascadeX - 24, s.cascadeStep);
  }

  lemma NextStep(x: nat, step: nat)
    requires step > 0 && x % step == 0
    ensures (x + step) % step == 0
  {
    RemainderOf(x + step, step, x / step + 1, 0);
  }

  /** Destroying takes out that one window; the others keep order, place and title,
      and lose or gain nothing but the focus, which falls to the top one when the
      destroyed window had it. */
  lemma DestroyEffect(s: Wm, k: nat)
    requires Inv(s) && k < |s.windows|
    ensures var s' := AfterDestroy(s, s.windows[k].id);
            && |s'.windows| == |s.windows| - 1
            && (forall i :: 0 <= i < |s'.windows| ==>
                  var from := s.windows[if i < k then i else i + 1];
                  s'.windows[i] == from.(focused := from.id == s'.focusedId))
            && s'.focusedId == (if s.focusedId != s.windows[k].id then s.focusedId
                                else if s'.windows == [] then 0 else s'.windows[|s'.windows| - 1].id)
            && s'.nextId == s.nextId && s'.cascadeX == s.cascadeX && s'.cascadeY == s.cascadeY
  {
    var id, rest := s.windows[k].id, Drop(s.windows, k);
    assert WinOk(s, s.windows[k]);
    FindIsOnly(s.windows, id, k);
    DropKeepsDistinct(s.windows, k);
    hide Drop, OnScreen, Find;
    forall i | 0 <= i < |rest|
      ensures WinOk(s, rest[i])
    {
      assert rest[i] == s.windows[if i < k then i else i + 1];
    }
  }

  /** A call for an id that no window has: a destroy or a move does nothing, a focus
      takes the focus away from all. */
  lemma UnknownIdEffect(s: Wm, id: int, r: Rect)
    requires forall i :: 0 <= i < |s.windows| ==> s.windows[i].id != id
    ensures AfterDestroy(s, id) == s && AfterSync(s, id, r) == s
    ensures var s' := AfterFocus(s, id);
            && s'.focusedId == 0 && |s'.windows| == |s.windows|
            && forall i :: 0 <= i < |s.windows| ==> s'.windows[i] == s.windows[i].(focused := false)
  {
    hide Clamped;
    NotThere(Flagged(s.windows, id), id);
  }

  /** Moving or resizing changes that window's rectangle and nothing else. */
  lemma SyncEffect(s: Wm, k: nat, r: Rect)
    requires Inv(s) && k < |s.windows|
    ensures AfterSync(s, s.windows[k].id, r) == s.(windows := s.windows[k := s.windows[k].(rect := Clamped(s, r))])
  {
    hide Clamped;
    assert WinOk(s, s.windows[k]);
    FindIsOnly(s.windows, s.windows[k].id, k);
  }

  lemma {:induction false} ScreenStays(s: Wm, calls: seq<Call>)
    ensures var f := Final(s, calls); f.screenW == s.screenW && f.screenH == s.screenH && f.cascadeStep == s.cascadeStep
    decreases |calls|
  {
    hide Clamped;
    if calls != [] {
      ScreenStays(After(s, calls[0]), calls[1..]);
    }
  }

  /** After any calls, a reset leads back to the state at start. */
  lemma ResetIsFresh(w: int, h: int, titlebar: int, calls: seq<Call>)
    ensures AfterReset(Final(Initial(w, h, titlebar), calls)) == Initial(w, h, titlebar)
  {
    ScreenStays(Initial(w, h, titlebar), calls);
  }

  lemma RunsStayOnDiagonal(w: int, h: int, titlebar: int, calls: seq<Call>)
    ensures OnDiagonal(Initial(w, h, titlebar))
    ensures OnDiagonal(Final(Initial(w, h, titlebar), calls))
  {
    CascadeStaysOnDiagonal(Initial(w, h, titlebar), calls);
  }

  // ----- raising -----

  function Ids(ws: seq<Win>): seq<int> {
    seq(|ws|, i requires 0 <= i < |ws| => ws[i].id)
  }

  /** Focusing an existing window takes its id out of the z-order and puts it at the
      end; nothing but focus flags changes besides. */
  lemma FocusMovesToEnd(s: Wm, k: nat)
    requires Inv(s) && k < |s.windows|
    ensures var id := s.windows[k].id;
            var s' := AfterFocus(s, id);
            && Ids(s'.windows) == Ids(s.windows)[..k] + Ids(s.windows)[k + 1..] + [id]
            && s'.focusedId == id
            && (forall i :: 0 <= i < |s'.windows| ==>
                  s'.windows[i].focused == (i == |s'.windows| - 1) &&
                  s'.windows[i].rect == s.windows[if i < k then i else if i + 1 < |s.windows| then i + 1 else k].rect)
  {
    hide AfterFocus, Inv;
    RaisedOrder(s, k);
    var id, n := s.windows[k].id, |s.windows|;
    var now, was := Ids(AfterFocus(s, id).windows), Ids(s.windows);
    assert was[..k] + was[k + 1..] + [id] == now;
  }

  predicate OnTop(s: Wm, id: int) {
    s.windows != [] && TopId(s.windows) == id
  }

  /** Calls that neither create nor destroy nor raise another window. */
  predicate LeavesOnTop(c: Call, id: int) {
    match c
    case Create(_, _, _) => false
    case Destroy(other) => other != id
    case Sync(_, _) => true
    case Focus(other) => other == id
    case Reset => false
  }

  lemma TopStays(s: Wm, c: Call, id: int)
    requires Inv(s) && OnTop(s, id) && LeavesOnTop(c, id)
    ensures OnTop(After(s, c), id)
  {
    var n := |s.windows| - 1;
    assert WinOk(s, s.windows[n]);
    hide OnScreen, Clamped;
    match c
    case Destroy(other) =>
      var k := Find(s.windows, other);
      if 0 < other && k <= n {
        DropKeepsTop(s.windows, k);
      }
    case Sync(_, _) =>
    case Focus(other) => RaisedOrder(s, n);
  }

  lemma DropKeepsTop(ws: seq<Win>, k: nat)
    requires k + 1 < |ws|
    ensures Drop(ws, k) != [] && TopId(Drop(ws, k)) == TopId(ws) && TopId(TopFlagged(Drop(ws, k))) == TopId(ws)
  {
    assert Drop(ws, k)[|ws| - 2] == ws[|ws| - 1];
  }

  lemma TopIsHit(s: Wm, id: int)
    requires Inv(s) && OnTop(s, id)
    ensures forall x, y :: Inside(s.windows[|s.windows| - 1].rect, x, y) ==> HitId(s.windows, x, y) == id
  {
    assert WinOk(s, s.windows[|s.windows| - 1]);
    hide Inv, WinOk, Inside;
  }

  /** A window on top stays there, and wins every hit test inside its rectangle. */
  lemma {:induction false} TopWinsHitTests(s: Wm, calls: seq<Call>, id: int)
    requires Inv(s) && OnTop(s, id) && forall i :: 0 <= i < |calls| ==> LeavesOnTop(calls[i], id)
    ensures var f := Final(s, calls);
            && OnTop(f, id)
            && forall x, y :: Inside(f.windows[|f.windows| - 1].rect, x, y) ==> HitId(f.windows, x, y) == id
    decreases |calls|
  {
    hide Inv, OnTop, LeavesOnTop, HitId, Inside;
    if calls == [] {
      TopIsHit(s, id);
    } else {
      CallKeepsInv(s, calls[0]);
      TopStays(s, calls[0], id);
      TopWinsHitTests(After(s, calls[0]), calls[1..], id);
    }
  }

  /** Main result on raising: after a focus, the focused window wins every hit test
      inside its rectangle through any calls until one creates or raises another
      window or takes it away. */
  lemma FocusedWinsHitTests(s: Wm, k: nat, calls: seq<Call>)
    requires Inv(s) && k < |s.windows| && forall i :: 0 <= i < |calls| ==> LeavesOnTop(calls[i], s.windows[k].id)
    ensures var id := s.windows[k].id;
            var f := Final(AfterFocus(s, id), calls);
            && Find(f.windows, id) == |f.windows| - 1
            && forall x, y :: Inside(f.windows[|f.windows| - 1].rect, x, y) ==> HitId(f.windows, x, y) == id
  {
    var id := s.windows[k].id;
    RaisedOrder(s, k);
    FocusKeepsInv(s, id);
    hide AfterFocus;
    var s' := AfterFocus(s, id);
    assert OnTop(s', id);
    TopWinsHitTests(s', calls, id);
    CallsKeepInv(s', calls);
    var f := Final(s', calls);
    hide Final, HitId;
    FindIsOnly(f.windows, id, |f.windows| - 1);
  }

  /** What a hit test answers, in both directions: 0 when no visible window is
      there, else the uppermost one that is. */
  lemma {:induction false} HitIsUppermost(ws: seq<Win>, x: int, y: int)
    ensures (forall w :: w in ws ==> !(w.visible && Inside(w.rect, x, y))) ==> HitId(ws, x, y) == 0
    ensures forall k :: (&& 0 <= k < |ws| && ws[k].visible && Inside(ws[k].rect, x, y)
                         && forall i :: k < i < |ws| ==> !(ws[i].visible && Inside(ws[i].rect, x, y))) ==>
              HitId(ws, x, y) == ws[k].id
  {
    hide Inside;
    if ws != [] {
      HitIsUppermost(ws[..|ws| - 1], x, y);
    }
  }
}
