/** The layout recursion of lvgl_panels.c: rectangles from the root down. */
module PanelsLayout {
  import opened PanelsTree
  import opened Prelude

  datatype Placed = Placed(node: nat, rect: Rect)

  /** `(int)(size * ratio)`: conversion truncates toward zero. */
  function Part(size: int, ratio: real): int {
    var p := size as real * ratio;
    if p >= 0.0 then p.Floor else -((-p).Floor)
  }

  predicate RatioOk(n: Node) {
    0.0 <= n.ratio <= 1.0
  }

  lemma PartWithin(size: int, ratio: real)
    requires 0 <= size && 0.0 <= ratio <= 1.0
    ensures 0 <= Part(size, ratio) <= size
  {
    Scales(size as real, ratio);
  }

  lemma Scales(a: real, b: real)
    requires 0.0 <= a && 0.0 <= b <= 1.0
    ensures 0.0 <= a * b <= a
  {
    assert a - a * b == a * (1.0 - b);
  }

  /** The rectangle a split hands to its first child. */
  function FirstPart(c: Node, r: Rect): Rect {
    if c.dir == Horizontal then
      var splitX := r.x + Part(r.w, c.ratio);
      Rect(r.x, r.y, splitX - r.x, r.h)
    else
      var splitY := r.y + Part(r.h, c.ratio);
      Rect(r.x, r.y, r.w, splitY - r.y)
  }

  function SecondPart(c: Node, r: Rect): Rect {
    if c.dir == Horizontal then
      var splitX := r.x + Part(r.w, c.ratio);
      Rect(splitX, r.y, r.w - (splitX - r.x), r.h)
    else
      var splitY := r.y + Part(r.h, c.ratio);
      Rect(r.x, splitY, r.w, r.h - (splitY - r.y))
  }

  /** `panels_de_layout_container`: what each leaf is laid out into. */
  function Layout(pool: Pool, t: Tree, r: Rect): seq<Placed> {
    match t
    case Leaf(n) => [Placed(n, r)]
    case Split(n, a, b) =>
      if n < MAX_CONTAINERS then Layout(pool, a, FirstPart(pool[n], r)) + Layout(pool, b, SecondPart(pool[n], r)) else []
  }

  /** How many of the placed leaves contain the point. */
  function Hits(ps: seq<Placed>, px: int, py: int): nat {
    if ps == [] then 0 else (if Inside(ps[0].rect, px, py) then 1 else 0) + Hits(ps[1..], px, py)
  }

  lemma {:induction false} HitsConcat(a: seq<Placed>, b: seq<Placed>, px: int, py: int)
    ensures Hits(a + b, px, py) == Hits(a, px, py) + Hits(b, px, py)
  {
    if a == [] {
      assert a + b == b;
    } else {
      assert (a + b)[1..] == a[1..] + b;
      HitsConcat(a[1..], b, px, py);
    }
  }

  lemma PartsTile(c: Node, r: Rect, px: int, py: int)
    requires RatioOk(c) && r.w >= 0 && r.h >= 0
    ensures FirstPart(c, r).w >= 0 && FirstPart(c, r).h >= 0 && SecondPart(c, r).w >= 0 && SecondPart(c, r).h >= 0
    ensures (if Inside(FirstPart(c, r), px, py) then 1 else 0) + (if Inside(SecondPart(c, r), px, py) then 1 else 0)
            == if Inside(r, px, py) then 1 else 0
  {
    hide Part;
    PartWithin(r.w, c.ratio);
    PartWithin(r.h, c.ratio);
  }

  /** A horizontal split cuts the width and a vertical one the height, the first
      child gets its ratio's share to within a pixel, and comes left or on top. */
  lemma PartsFollowSplit(c: Node, r: Rect)
    requires RatioOk(c) && r.w >= 0 && r.h >= 0
    ensures var a, b := FirstPart(c, r), SecondPart(c, r);
            && a.x == r.x && a.y == r.y
            && (c.dir == Horizontal ==>
                  a.h == b.h == r.h && b.y == r.y && b.x == a.x + a.w && a.w + b.w == r.w &&
                  r.w as real * c.ratio - 1.0 < a.w as real <= r.w as real * c.ratio)
            && (c.dir == Vertical ==>
                  a.w == b.w == r.w && b.x == r.x && b.y == a.y + a.h && a.h + b.h == r.h &&
                  r.h as real * c.ratio - 1.0 < a.h as real <= r.h as real * c.ratio)
  {
    Scales(r.w as real, c.ratio);
    Scales(r.h as real, c.ratio);
  }

  /** Main result on layout: whatever the tree and the ratios between 0 and 1,
      every point of the root rectangle falls to exactly one leaf, and no other
      point to any. */
  lemma {:induction false} LayoutIsPartition(pool: Pool, t: Tree, parent: Ptr, r: Rect, px: int, py: int)
    requires Spells(pool, t, parent) && r.w >= 0 && r.h >= 0
    requires forall n :: n in Splits(t) && n < MAX_CONTAINERS ==> RatioOk(pool[n])
    ensures Hits(Layout(pool, t, r), px, py) == if Inside(r, px, py) then 1 else 0
  {
    hide FirstPart, SecondPart, Inside, RatioOk;
    match t
    case Leaf(n) =>
      assert Layout(pool, t, r)[1..] == [];
    case Split(n, a, b) =>
      var ra, rb := FirstPart(pool[n], r), SecondPart(pool[n], r);
      assert n in Splits(t);
      PartsTile(pool[n], r, px, py);
      LayoutIsPartition(pool, a, n, ra, px, py);
      LayoutIsPartition(pool, b, n, rb, px, py);
      HitsConcat(Layout(pool, a, ra), Layout(pool, b, rb), px, py);
  }

  // ----- what destroying a window does to the picture -----

  /** The rectangle that container `n` of the tree is laid out into. */
  function Place(pool: Pool, t: Tree, r: Rect, n: nat): Rect
    requires n in Nodes(t)
  {
    if t.node == n || t.node >= MAX_CONTAINERS then r
    else if n in Nodes(t.a) then Place(pool, t.a, FirstPart(pool[t.node], r), n)
    else Place(pool, t.b, SecondPart(pool[t.node], r), n)
  }

  lemma {:induction false} LeavesArePlaced(pool: Pool, t: Tree, parent: Ptr, r: Rect)
    requires Spells(pool, t, parent) && Unshared(t)
    ensures |Layout(pool, t, r)| == |Leaves(t)|
    ensures forall i :: 0 <= i < |Leaves(t)| ==>
              Leaves(t)[i] in Nodes(t) && Layout(pool, t, r)[i] == Placed(Leaves(t)[i], Place(pool, t, r, Leaves(t)[i]))
  {
    hide FirstPart, SecondPart;
    if t.Split? {
      LeavesAreNodes(t.a);
      LeavesAreNodes(t.b);
      LeavesArePlaced(pool, t.a, t.node, FirstPart(pool[t.node], r));
      LeavesArePlaced(pool, t.b, t.node, SecondPart(pool[t.node], r));
    }
  }

  predicate SameCut(x: Node, y: Node) {
    x.dir == y.dir && x.ratio == y.ratio
  }

  lemma {:induction false} PlaceFrame(pool: Pool, pool': Pool, t: Tree, r: Rect, n: nat)
    requires n in Nodes(t) && forall m :: 0 <= m < MAX_CONTAINERS ==> SameCut(pool[m], pool'[m])
    ensures Place(pool', t, r, n) == Place(pool, t, r, n)
  {
    if t.node != n && t.node < MAX_CONTAINERS {
      var kid, part := if n in Nodes(t.a) then t.a else t.b,
                       if n in Nodes(t.a) then FirstPart(pool[t.node], r) else SecondPart(pool[t.node], r);
      PlaceFrame(pool, pool', kid, part, n);
    }
  }

  /** The subtree rooted at the sibling of leaf `c`. */
  function SiblingTree(t: Tree, c: nat): Tree {
    match t
    case Leaf(_) => t
    case Split(_, a, b) =>
      if a == Leaf(c) then b else if b == Leaf(c) then a
      else if c in Leaves(a) then SiblingTree(a, c) else SiblingTree(b, c)
  }

  function ParentIn(t: Tree, c: nat): nat {
    match t
    case Leaf(n) => n
    case Split(n, a, b) =>
      if a == Leaf(c) || b == Leaf(c) then n
      else if c in Leaves(a) then ParentIn(a, c) else ParentIn(b, c)
  }

  lemma {:induction false} SiblingTreeInside(t: Tree, c: nat)
    requires Unshared(t) && c in Leaves(t) && t != Leaf(c)
    ensures ParentIn(t, c) in Nodes(t)
    ensures Nodes(SiblingTree(t, c)) <= Nodes(Prune(t, c)) <= Nodes(t)
    ensures SiblingTree(t, c).node in Nodes(Prune(t, c))
  {
    LeavesAreNodes(t.a);
    LeavesAreNodes(t.b);
    LeavesAreNodes(SiblingTree(t, c));
    PruneIsUnshared(t, c);
    if t.a != Leaf(c) && t.b != Leaf(c) {
      var kid, other := if c in Leaves(t.a) then t.a else t.b, if c in Leaves(t.a) then t.b else t.a;
      SiblingTreeInside(kid, c);
      PruneElsewhere(other, c);
    }
  }

  /** The sibling takes over its parent's rectangle, and every container outside
      the sibling's subtree stays where it was. */
  lemma {:induction false} OnlySiblingMoves(pool: Pool, t: Tree, c: nat, r: Rect, n: nat)
    requires Unshared(t) && c in Leaves(t) && t != Leaf(c) && n in Nodes(Prune(t, c))
    ensures ParentIn(t, c) in Nodes(t) && SiblingTree(t, c).node in Nodes(Prune(t, c)) && n in Nodes(t)
    ensures Place(pool, Prune(t, c), r, SiblingTree(t, c).node) == Place(pool, t, r, ParentIn(t, c))
    ensures n !in Nodes(SiblingTree(t, c)) ==> Place(pool, Prune(t, c), r, n) == Place(pool, t, r, n)
  {
    hide FirstPart, SecondPart;
    SiblingTreeInside(t, c);
    LeavesAreNodes(t.a);
    LeavesAreNodes(t.b);
    LeavesAreNodes(SiblingTree(t, c));
    if t.a != Leaf(c) && t.b != Leaf(c) && t.node < MAX_CONTAINERS {
      var inA := c in Leaves(t.a);
      var kid, other := if inA then t.a else t.b, if inA then t.b else t.a;
      var part := if inA then FirstPart(pool[t.node], r) else SecondPart(pool[t.node], r);
      SiblingTreeInside(kid, c);
      PruneElsewhere(other, c);
      OnlySiblingMoves(pool, kid, c, part, SiblingTree(t, c).node);
      if n in Nodes(Prune(kid, c)) {
        OnlySiblingMoves(pool, kid, c, part, n);
      }
    }
  }

  lemma SpliceKeepsCuts(pool: Pool, c: nat)
    requires c < MAX_CONTAINERS && pool[c].parent != NULL && SiblingOf(pool, c) != NULL
    ensures forall m :: 0 <= m < MAX_CONTAINERS ==> SameCut(pool[m], Splice(pool, c)[m])
  {
  }

  /** Destroying a window moves nothing but its sibling's subtree, which fills the
      space the two shared. */
  lemma DestroyMovesOnlySibling(pool: Pool, t: Tree, c: nat, r: Rect, n: nat)
    requires Spells(pool, t, NULL) && Unshared(t) && c in Leaves(t) && t != Leaf(c) && n in Nodes(Prune(t, c))
    ensures c < MAX_CONTAINERS && pool[c].parent != NULL && SiblingOf(pool, c) != NULL
    ensures ParentIn(t, c) in Nodes(t) && SiblingTree(t, c).node in Nodes(Prune(t, c)) && n in Nodes(t)
    ensures Place(Splice(pool, c), Prune(t, c), r, SiblingTree(t, c).node) == Place(pool, t, r, ParentIn(t, c))
    ensures n !in Nodes(SiblingTree(t, c)) ==> Place(Splice(pool, c), Prune(t, c), r, n) == Place(pool, t, r, n)
  {
    hide Place, Prune, Splice, Spells, Unshared, Leaves, SiblingTree, ParentIn;
    var k := SpliceTakesOneWindowOut(pool, t, c);
    OnlySiblingMoves(pool, t, c, r, n);
    SpliceKeepsCuts(pool, c);
    PlaceFrame(pool, Splice(pool, c), Prune(t, c), r, n);
    PlaceFrame(pool, Splice(pool, c), Prune(t, c), r, SiblingTree(t, c).node);
  }
}
