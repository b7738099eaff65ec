/**
  The tiling tree of lvgl_panels.c. Containers live in one fixed pool and point at
  each other by position; `Tree` is the shape those pointers are supposed to have.
*/
module PanelsTree {
  import opened Prelude

  const MAX_CONTAINERS: nat := 32

  type Ptr = p: int | -1 <= p < MAX_CONTAINERS
  const NULL: Ptr := -1

  datatype Dir = Horizontal | Vertical

  datatype Node = Node(isSplit: bool, dir: Dir, ratio: real, parent: Ptr, childA: Ptr, childB: Ptr, window: int)

  type Pool = s: seq<Node> | |s| == MAX_CONTAINERS witness seq(MAX_CONTAINERS, _ => Node(false, Horizontal, 0.5, NULL, NULL, NULL, -1))

  // ----- shape -----

  datatype Tree = Leaf(node: nat) | Split(node: nat, a: Tree, b: Tree)

  function Nodes(t: Tree): set<nat> {
    match t
    case Leaf(n) => {n}
    case Split(n, a, b) => {n} + Nodes(a) + Nodes(b)
  }

  function Splits(t: Tree): set<nat> {
    match t
    case Leaf(_) => {}
    case Split(n, a, b) => {n} + Splits(a) + Splits(b)
  }

  /** The leaves from left to right. */
  function Leaves(t: Tree): seq<nat> {
    match t
    case Leaf(n) => [n]
    case Split(_, a, b) => Leaves(a) + Leaves(b)
  }

  /** No container occurs twice. */
  predicate Unshared(t: Tree) {
    t.Split? ==> t.node !in Nodes(t.a) && t.node !in Nodes(t.b) && Nodes(t.a) !! Nodes(t.b) &&
                 Unshared(t.a) && Unshared(t.b)
  }

  /** The pool's pointers spell out `t`, hung below `parent`: parent and child
      links agree at every container. */
  predicate Spells(pool: Pool, t: Tree, parent: Ptr) {
    && t.node < MAX_CONTAINERS && pool[t.node].parent == parent && pool[t.node].isSplit == t.Split?
    && (t.Split? ==> pool[t.node].childA == t.a.node && pool[t.node].childB == t.b.node &&
                     Spells(pool, t.a, t.node) && Spells(pool, t.b, t.node))
  }

  function WindowAt(pool: Pool, n: nat): int {
    if n < MAX_CONTAINERS then pool[n].window else -1
  }

  function WindowsOf(pool: Pool, leaves: seq<nat>): seq<int> {
    seq(|leaves|, i requires 0 <= i < |leaves| => WindowAt(pool, leaves[i]))
  }

  lemma {:induction false} NodesInPool(pool: Pool, t: Tree, parent: Ptr)
    requires Spells(pool, t, parent)
    ensures forall n :: n in Nodes(t) ==> n < MAX_CONTAINERS
  {
    if t.Split? {
      NodesInPool(pool, t.a, t.node);
      NodesInPool(pool, t.b, t.node);
    }
  }

  lemma {:induction false} LeavesAreNodes(t: Tree)
    ensures forall n :: n in Leaves(t) ==> n in Nodes(t)
    ensures t.node in Nodes(t) && |Leaves(t)| > 0
  {
    if t.Split? {
      LeavesAreNodes(t.a);
      LeavesAreNodes(t.b);
    }
  }

  predicate SameLinks(x: Node, y: Node) {
    x.isSplit == y.isSplit && x.parent == y.parent && x.childA == y.childA && x.childB == y.childB
  }

  lemma {:induction false} SpellsFrame(pool: Pool, pool': Pool, t: Tree, parent: Ptr)
    requires Spells(pool, t, parent)
    requires forall n :: n in Nodes(t) && n < MAX_CONTAINERS ==> SameLinks(pool[n], pool'[n])
    ensures Spells(pool', t, parent)
  {
    LeavesAreNodes(t);
    if t.Split? {
      SpellsFrame(pool, pool', t.a, t.node);
      SpellsFrame(pool, pool', t.b, t.node);
    }
  }

  // ----- taking a leaf out -----

  function SiblingOf(pool: Pool, c: nat): Ptr
    requires c < MAX_CONTAINERS && pool[c].parent != NULL
  {
    var p := pool[pool[c].parent];
    if p.childA == c then p.childB else p.childA
  }

  /** The pointer changes of `panels_de_destroy_window` when the leaf has a parent
      and a sibling. */
  function Splice(pool: Pool, c: nat): Pool
    requires c < MAX_CONTAINERS && pool[c].parent != NULL && SiblingOf(pool, c) != NULL
  {
    var p := pool[c].parent;
    var s := SiblingOf(pool, c);
    var g := pool[p].parent;
    var pool1 := if g == NULL then pool
                 else if pool[g].childA == p then pool[g := pool[g].(childA := s)]
                 else pool[g := pool[g].(childB := s)];
    pool1[s := pool1[s].(parent := g)]
  }

  /** The tree without leaf `c`: its sibling moves up. */
  function Prune(t: Tree, c: nat): Tree {
    match t
    case Leaf(_) => t
    case Split(n, a, b) =>
      if a == Leaf(c) then b else if b == Leaf(c) then a else Split(n, Prune(a, c), Prune(b, c))
  }

  /** Where a leaf's relatives lie: all inside the tree, except that the parent's
      parent is the tree's own when the leaf hangs off the root. */
  lemma {:induction false} Relatives(pool: Pool, t: Tree, up: Ptr, c: nat)
    requires Spells(pool, t, up) && Unshared(t) && up !in Nodes(t) && c in Leaves(t) && t != Leaf(c)
    ensures c < MAX_CONTAINERS && pool[c].parent != NULL && SiblingOf(pool, c) != NULL
    ensures pool[c].parent in Nodes(t) && SiblingOf(pool, c) in Nodes(t) && SiblingOf(pool, c) != t.node
    ensures pool[pool[c].parent].parent == up <==> pool[c].parent == t.node
    ensures pool[c].parent != t.node ==> pool[pool[c].parent].parent in Nodes(t)
  {
    NodesInPool(pool, t, up);
    LeavesAreNodes(t);
    LeavesAreNodes(t.a);
    LeavesAreNodes(t.b);
    if t.a != Leaf(c) && t.b != Leaf(c) {
      var kid := if c in Leaves(t.a) then t.a else t.b;
      Relatives(pool, kid, t.node, c);
    }
  }

  lemma {:induction false} PruneIsUnshared(t: Tree, c: nat)
    requires Unshared(t)
    ensures Unshared(Prune(t, c)) && Nodes(Prune(t, c)) <= Nodes(t)
  {
    if t.Split? {
      PruneIsUnshared(t.a, c);
      PruneIsUnshared(t.b, c);
    }
  }

  /** A tree that does not hold `c` is not changed by pruning it. */
  lemma {:induction false} PruneElsewhere(t: Tree, c: nat)
    requires c !in Leaves(t)
    ensures Prune(t, c) == t
  {
    if t.Split? {
      PruneElsewhere(t.a, c);
      PruneElsewhere(t.b, c);
    }
  }

  lemma {:induction false} SpliceKeepsSpelling(pool: Pool, t: Tree, up: Ptr, c: nat)
    requires Spells(pool, t, up) && Unshared(t) && up !in Nodes(t) && c in Leaves(t) && t != Leaf(c)
    requires c < MAX_CONTAINERS && pool[c].parent != NULL && SiblingOf(pool, c) != NULL
    ensures Spells(Splice(pool, c), Prune(t, c), up)
    ensures Prune(t, c).node == if pool[c].parent == t.node then SiblingOf(pool, c) else t.node
  {
    NodesInPool(pool, t, up);
    LeavesAreNodes(t.a);
    LeavesAreNodes(t.b);
    Relatives(pool, t, up, c);
    var pool' := Splice(pool, c);
    if t.a == Leaf(c) || t.b == Leaf(c) {
      var rest := if t.a == Leaf(c) then t.b else t.a;
      MovedUp(pool, pool', rest, t.node, up);
    } else {
      var kid, other := if c in Leaves(t.a) then t.a else t.b, if c in Leaves(t.a) then t.b else t.a;
      Relatives(pool, kid, t.node, c);
      SpliceKeepsSpelling(pool, kid, t.node, c);
      PruneElsewhere(other, c);
      SpliceSparesElsewhere(pool, kid, t.node, c, other);
    }
  }

  /** The splice below one child does not reach a tree beside it. */
  lemma SpliceSparesElsewhere(pool: Pool, kid: Tree, up: Ptr, c: nat, other: Tree)
    requires Spells(pool, kid, up) && Unshared(kid) && up !in Nodes(kid) && c in Leaves(kid) && kid != Leaf(c)
    requires c < MAX_CONTAINERS && pool[c].parent != NULL && SiblingOf(pool, c) != NULL
    requires Spells(pool, other, up) && up !in Nodes(other) && Nodes(other) !! Nodes(kid)
    ensures Spells(Splice(pool, c), other, up)
  {
    hide Unshared, Leaves, Nodes;
    Relatives(pool, kid, up, c);
    SpellsFrame(pool, Splice(pool, c), other, up);
  }

  lemma MovedUp(pool: Pool, pool': Pool, t: Tree, old': Ptr, up: Ptr)
    requires Spells(pool, t, old') && Unshared(t)
    requires pool'[t.node] == pool[t.node].(parent := up)
    requires forall n :: n in Nodes(t) && n != t.node && n < MAX_CONTAINERS ==> pool'[n] == pool[n]
    ensures Spells(pool', t, up)
  {
    if t.Split? {
      SpellsFrame(pool, pool', t.a, t.node);
      SpellsFrame(pool, pool', t.b, t.node);
    }
  }

  lemma DropFromConcat<T>(a: seq<T>, b: seq<T>, k: nat)
    requires k < |a| + |b|
    ensures Drop(a + b, k) == if k < |a| then Drop(a, k) + b else a + Drop(b, k - |a|)
  {
  }

  lemma {:induction false} PruneDropsOneLeaf(t: Tree, c: nat) returns (k: nat)
    requires Unshared(t) && c in Leaves(t) && t != Leaf(c)
    ensures k < |Leaves(t)| && Leaves(t)[k] == c && Leaves(Prune(t, c)) == Drop(Leaves(t), k)
    ensures c !in Leaves(Prune(t, c))
  {
    LeavesAreNodes(t.a);
    LeavesAreNodes(t.b);
    if t.a == Leaf(c) {
      k := 0;
    } else if t.b == Leaf(c) {
      k := |Leaves(t.a)|;
    } else if c in Leaves(t.a) {
      k := PruneDropsOneLeaf(t.a, c);
      PruneElsewhere(t.b, c);
      DropFromConcat(Leaves(t.a), Leaves(t.b), k);
    } else {
      k := PruneDropsOneLeaf(t.b, c);
      PruneElsewhere(t.a, c);
      k := k + |Leaves(t.a)|;
      DropFromConcat(Leaves(t.a), Leaves(t.b), k);
    }
  }

  lemma SpliceKeepsWindows(pool: Pool, c: nat, leaves: seq<nat>, k: nat)
    requires c < MAX_CONTAINERS && pool[c].parent != NULL && SiblingOf(pool, c) != NULL && k < |leaves|
    ensures WindowsOf(Splice(pool, c), Drop(leaves, k)) == Drop(WindowsOf(pool, leaves), k)
  {
    var pool', l', w' := Splice(pool, c), Drop(leaves, k), Drop(WindowsOf(pool, leaves), k);
    forall i | 0 <= i < |l'|
      ensures WindowAt(pool', l'[i]) == w'[i]
    {
      assert WindowAt(pool', l'[i]) == WindowAt(pool, l'[i]);
    }
  }

  /** Main result on destroying a tiled window, leaf at any depth below a split:
      the links still spell an unshared tree, whose windows from left to right are
      the old ones without that leaf's. */
  lemma SpliceTakesOneWindowOut(pool: Pool, t: Tree, c: nat) returns (k: nat)
    requires Spells(pool, t, NULL) && Unshared(t) && c in Leaves(t) && t != Leaf(c)
    ensures c < MAX_CONTAINERS && pool[c].parent != NULL && SiblingOf(pool, c) != NULL
    ensures Spells(Splice(pool, c), Prune(t, c), NULL) && Unshared(Prune(t, c)) && Nodes(Prune(t, c)) <= Nodes(t)
    ensures Prune(t, c).node == if pool[pool[c].parent].parent == NULL then SiblingOf(pool, c) else t.node
    ensures k < |Leaves(t)| && Leaves(t)[k] == c && Leaves(Prune(t, c)) == Drop(Leaves(t), k)
    ensures WindowsOf(Splice(pool, c), Leaves(Prune(t, c))) == Drop(WindowsOf(pool, Leaves(t)), k)
  {
    hide Splice, Prune, Leaves, SiblingOf, WindowsOf;
    NodesInPool(pool, t, NULL);
    assert NULL !in Nodes(t);
    Relatives(pool, t, NULL, c);
    SpliceKeepsSpelling(pool, t, NULL, c);
    PruneIsUnshared(t, c);
    k := PruneDropsOneLeaf(t, c);
    SpliceKeepsWindows(pool, c, Leaves(t), k);
  }

  /** Trees of other workspaces, which share no container with this one, are left
      as they are. */
  lemma SpliceSparesOtherTrees(pool: Pool, t: Tree, c: nat, other: Tree)
    requires Spells(pool, t, NULL) && Unshared(t) && c in Leaves(t) && t != Leaf(c)
    requires Spells(pool, other, NULL) && Nodes(other) !! Nodes(t)
    ensures c < MAX_CONTAINERS && pool[c].parent != NULL && SiblingOf(pool, c) != NULL
    ensures Spells(Splice(pool, c), other, NULL)
  {
    NodesInPool(pool, t, NULL);
    assert NULL !in Nodes(t);
    Relatives(pool, t, NULL, c);
    SpellsFrame(pool, Splice(pool, c), other, NULL);
  }

  // ----- counting -----

  function SplitCount(t: Tree): nat {
    match t
    case Leaf(_) => 0
    case Split(_, a, b) => 1 + SplitCount(a) + SplitCount(b)
  }

  lemma {:induction false} UnsharedSize(t: Tree)
    requires Unshared(t)
    ensures |Nodes(t)| == 2 * SplitCount(t) + 1
  {
    if t.Split? {
      UnsharedSize(t.a);
      UnsharedSize(t.b);
      assert |Nodes(t.a) + Nodes(t.b)| == |Nodes(t.a)| + |Nodes(t.b)|;
      assert Nodes(t) == {t.node} + (Nodes(t.a) + Nodes(t.b));
    }
  }

  lemma {:induction false} BoundedSet(s: set<nat>, n: nat)
    requires forall x :: x in s ==> x < n
    ensures |s| <= n
  {
    if n > 0 {
      BoundedSet(s - {n - 1}, n - 1);
      assert s <= (s - {n - 1}) + {n - 1};
      assert |s| <= |s - {n - 1}| + 1;
    } else {
      assert s == {};
    }
  }

  /** A pool of 32 has room for trees of at most 15 splits. */
  lemma AtMostFifteenSplits(pool: Pool, t: Tree, parent: Ptr)
    requires Spells(pool, t, parent) && Unshared(t)
    ensures SplitCount(t) <= 15
  {
    NodesInPool(pool, t, parent);
    BoundedSet(Nodes(t), MAX_CONTAINERS);
    UnsharedSize(t);
  }
}
