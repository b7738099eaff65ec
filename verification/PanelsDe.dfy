/** The operations of lvgl_panels.c that rewrite the tiling tree in place. */
module PanelsDe {
  import opened Prelude
  import opened PanelsTree

  const MAX_WINDOWS: nat := 64
  const MAX_WORKSPACES: nat := 9

  type WorkspaceNo = i: nat | i < MAX_WORKSPACES

  datatype Window = Window(id: int, container: Ptr, workspace: WorkspaceNo)

  const NoWindow := Window(0, NULL, 0)

  /** The tiling state: containers, windows, and the root of each workspace. */
  datatype Desk = Desk(pool: Pool, windows: seq<Window>, roots: seq<Ptr>)

  predicate Sized(d: Desk) {
    |d.windows| == MAX_WINDOWS && |d.roots| == MAX_WORKSPACES
  }

  /** The pointer changes of `panels_de_destroy_window`, on any state. */
  function Detached(d: Desk, c: Ptr, ws: WorkspaceNo): Desk
    requires Sized(d)
  {
    if c == NULL || d.pool[c].isSplit then d
    else if d.pool[c].parent == NULL || SiblingOf(d.pool, c) == NULL then d.(roots := d.roots[ws := NULL])
    else
      var grand := d.pool[d.pool[c].parent].parent;
      d.(pool := Splice(d.pool, c), roots := if grand == NULL then d.roots[ws := SiblingOf(d.pool, c)] else d.roots)
  }

  function Destroyed(d: Desk, w: nat): Desk
    requires Sized(d) && w < MAX_WINDOWS
  {
    var win := d.windows[w];
    if win.id == 0 then d
    else
      var d' := Detached(d, win.container, win.workspace);
      d'.(windows := d.windows[w := NoWindow])
  }

  // ----- what destroying does to a well-formed workspace -----

  /** Workspace `ws` shows tree `t`, or nothing. */
  predicate Shows(d: Desk, ws: WorkspaceNo, t: Option<Tree>) {
    && Sized(d)
    && (t.None? ==> d.roots[ws] == NULL)
    && (t.Some? ==> d.roots[ws] == t.value.node && Spells(d.pool, t.value, NULL) && Unshared(t.value))
  }

  /** Leaf `n` and its window point at each other. */
  predicate Bound(d: Desk, ws: WorkspaceNo, n: nat)
    requires Sized(d)
  {
    && n < MAX_CONTAINERS && 0 <= d.pool[n].window < MAX_WINDOWS
    && var win := d.windows[d.pool[n].window];
       win.id != 0 && win.container == n && win.workspace == ws
  }

  predicate WindowsBound(d: Desk, ws: WorkspaceNo, t: Tree)
    requires Sized(d)
  {
    forall n :: n in Leaves(t) ==> Bound(d, ws, n)
  }

  function Remaining(t: Tree, c: nat): Option<Tree> {
    if t == Leaf(c) then None else Some(Prune(t, c))
  }

  /** Destroying a window of a well-formed workspace leaves it well-formed, showing the
      old tree without the window's leaf. */
  lemma DestroyKeepsTree(d: Desk, w: nat, t: Tree)
    requires Sized(d) && w < MAX_WINDOWS && d.windows[w].id != 0 && d.windows[w].container in Leaves(t)
    requires Shows(d, d.windows[w].workspace, Some(t))
    ensures Shows(Destroyed(d, w), d.windows[w].workspace, Remaining(t, d.windows[w].container))
  {
    hide Splice, Prune, Leaves, Unshared, Spells;
    var c := d.windows[w].container;
    LeafLinks(d.pool, t, c);
    if t != Leaf(c) {
      var k := SpliceTakesOneWindowOut(d.pool, t, c);
    }
  }

  /** Main result on the whole operation: the workspace stays well-formed, and every
      remaining leaf of it tied to its window. */
  lemma DestroyKeepsWorkspace(d: Desk, w: nat, t: Tree)
    requires Sized(d) && w < MAX_WINDOWS && d.windows[w].id != 0 && d.windows[w].container in Leaves(t)
    requires Shows(d, d.windows[w].workspace, Some(t)) && WindowsBound(d, d.windows[w].workspace, t)
    ensures var ws, t' := d.windows[w].workspace, Remaining(t, d.windows[w].container);
            && Shows(Destroyed(d, w), ws, t')
            && (t'.Some? ==> WindowsBound(Destroyed(d, w), ws, t'.value))
  {
    hide Splice, Prune, Leaves, Unshared, Spells;
    var c, ws := d.windows[w].container, d.windows[w].workspace;
    DestroyKeepsTree(d, w, t);
    LeafLinks(d.pool, t, c);
    if t != Leaf(c) {
      var k := SpliceTakesOneWindowOut(d.pool, t, c);
      SpliceKeepsLeafWindows(d.pool, t, c);
      forall n | n in Leaves(Prune(t, c))
        ensures Bound(Destroyed(d, w), ws, n)
      {
        assert Bound(d, ws, n);
      }
    }
  }

  /** Workspaces that share no container are left alone. */
  lemma DestroySparesOtherWorkspaces(d: Desk, w: nat, t: Tree, ws: WorkspaceNo, other: Option<Tree>)
    requires Sized(d) && w < MAX_WINDOWS && d.windows[w].id != 0 && d.windows[w].container in Leaves(t)
    requires Shows(d, d.windows[w].workspace, Some(t))
    requires ws != d.windows[w].workspace && Shows(d, ws, other)
    requires other.Some? ==> Nodes(other.value) !! Nodes(t)
    ensures Shows(Destroyed(d, w), ws, other)
  {
    hide Splice, Prune, Leaves, Unshared, Spells;
    var c := d.windows[w].container;
    LeafLinks(d.pool, t, c);
    if t != Leaf(c) {
      var k := SpliceTakesOneWindowOut(d.pool, t, c);
      if other.Some? {
        SpliceSparesOtherTrees(d.pool, t, c, other.value);
      }
    }
  }

  /** What happens to the tables, in any state: the window's record is blank
      afterwards and every other one as it was; no other workspace's root moves, and
      no container changes more than its links. */
  lemma DestroyBlanksOne(d: Desk, w: nat)
    requires Sized(d) && w < MAX_WINDOWS
    ensures var d' := Destroyed(d, w);
            && Sized(d')
            && d'.windows[w].id == 0 && (d.windows[w].id != 0 ==> d'.windows[w] == Window(0, NULL, 0))
            && (forall k :: 0 <= k < MAX_WINDOWS && k != w ==> d'.windows[k] == d.windows[k])
            && (forall ws :: 0 <= ws < MAX_WORKSPACES && ws != d.windows[w].workspace ==> d'.roots[ws] == d.roots[ws])
            && (forall n :: 0 <= n < MAX_CONTAINERS ==>
                  && d'.pool[n].isSplit == d.pool[n].isSplit && d'.pool[n].window == d.pool[n].window
                  && d'.pool[n].dir == d.pool[n].dir && d'.pool[n].ratio == d.pool[n].ratio)
            && (d.windows[w].id == 0 || d.windows[w].container == NULL || d.pool[d.windows[w].container].isSplit ==>
                  d'.pool == d.pool && d'.roots == d.roots)
  {
  }

  /** The ratio nearest to the wanted one that leaves both sides a tenth. */
  function Clamped(ratio: real): (r: real)
    ensures 0.1 <= r <= 0.9 && (0.1 <= ratio <= 0.9 ==> r == ratio)
    ensures ratio < 0.1 ==> r == 0.1
    ensures ratio > 0.9 ==> r == 0.9
  {
    if ratio < 0.1 then 0.1 else if ratio > 0.9 then 0.9 else ratio
  }

  // ----- balancing -----

  /** The pool with every split of `done` set to one half. */
  function Balanced(pool: Pool, done: set<nat>): Pool {
    seq(MAX_CONTAINERS, (i: nat) requires i < MAX_CONTAINERS => if i in done then pool[i].(ratio := 0.5) else pool[i])
  }

  ghost function NodeTotal(ts: seq<Tree>): nat {
    if ts == [] then 0 else NodeTotal(ts[..|ts| - 1]) + 2 * SplitCount(ts[|ts| - 1]) + 1
  }

  ghost function SplitTotal(ts: seq<Tree>): nat {
    if ts == [] then 0 else SplitTotal(ts[..|ts| - 1]) + SplitCount(ts[|ts| - 1])
  }

  /** Splits that the trees still waiting on the stack contain. */
  ghost function SplitsLeft(ts: seq<Tree>): set<nat> {
    if ts == [] then {} else SplitsLeft(ts[..|ts| - 1]) + Splits(ts[|ts| - 1])
  }

  /** Popping a split and pushing its two children. */
  lemma ReplaceTop(ts: seq<Tree>, t: Tree)
    requires t.Split?
    ensures NodeTotal(ts + [t.a] + [t.b]) < NodeTotal(ts + [t])
    ensures SplitTotal(ts + [t.a] + [t.b]) + 1 == SplitTotal(ts + [t])
    ensures SplitsLeft(ts + [t.a] + [t.b]) + {t.node} == SplitsLeft(ts + [t])
  {
    var u := ts + [t.a] + [t.b];
    assert u[..|u| - 1] == ts + [t.a] && (ts + [t.a])[..|ts|] == ts && (ts + [t])[..|ts|] == ts;
  }

  lemma PopTotals(ts: seq<Tree>, t: Tree)
    ensures NodeTotal(ts) < NodeTotal(ts + [t])
    ensures SplitTotal(ts + [t]) == SplitTotal(ts) + SplitCount(t)
    ensures SplitsLeft(ts + [t]) == SplitsLeft(ts) + Splits(t)
    ensures t.Leaf? ==> SplitCount(t) == 0 && Splits(t) == {}
  {
    assert (ts + [t])[..|ts|] == ts;
  }

  class PanelsDesktop {
    const containers: array<Node>
    const windows: array<Window>
    const roots: array<Ptr>

    ghost predicate Valid()
      reads this
    {
      containers.Length == MAX_CONTAINERS && windows.Length == MAX_WINDOWS && roots.Length == MAX_WORKSPACES
    }

    ghost function View(): Desk
      requires Valid()
      reads this, containers, windows, roots
    {
      Desk(containers[..], windows[..], roots[..])
    }

    ghost function Links(): Pool
      requires Valid()
      reads this, containers
    {
      containers[..]
    }

    /** `panels_de_destroy_window`. */
    method DestroyWindow(w: nat)
      requires Valid() && w < MAX_WINDOWS
      modifies containers, windows, roots
      ensures View() == Destroyed(old(View()), w)
    {
      hide Splice;
      if windows[w].id == 0 { return; }
      var c, ws := windows[w].container, windows[w].workspace;
      if c != NULL {
        if !containers[c].isSplit {
          var parent := containers[c].parent;
          if parent != NULL {
            var sibling := if containers[parent].childA == c then containers[parent].childB else containers[parent].childA;
            if sibling != NULL {
              var grand := containers[parent].parent;
              Unlink(c, parent, sibling);
              if grand == NULL {
                roots[ws] := sibling;
              }
            } else {
              roots[ws] := NULL;
            }
          } else {
            roots[ws] := NULL;
          }
        }
      }
      windows[w] := NoWindow;
    }

    /** The splice itself: the grandparent, if any, and the sibling are tied. */
    method Unlink(c: nat, parent: Ptr, sibling: Ptr)
      requires Valid() && c < MAX_CONTAINERS && parent != NULL && sibling != NULL
      requires containers[c].parent == parent && SiblingOf(Links(), c) == sibling
      modifies containers
      ensures Links() == Splice(old(Links()), c)
    {
      var grand := containers[parent].parent;
      if grand != NULL {
        if containers[grand].childA == parent {
          containers[grand] := containers[grand].(childA := sibling);
        } else {
          containers[grand] := containers[grand].(childB := sibling);
        }
        containers[sibling] := containers[sibling].(parent := grand);
      } else {
        containers[sibling] := containers[sibling].(parent := NULL);
      }
    }

    /** `panels_de_resize_split`. */
    method ResizeSplit(c: Ptr, ratio: real)
      requires Valid()
      modifies containers
      ensures c == NULL || !old(containers[c].isSplit) ==> Links() == old(Links())
      ensures c != NULL && old(containers[c].isSplit) ==>
                Links() == old(Links())[c := old(Links())[c].(ratio := Clamped(ratio))]
    {
      if c == NULL || !containers[c].isSplit { return; }
      var r := ratio;
      if r < 0.1 { r := 0.1; }
      if r > 0.9 { r := 0.9; }
      containers[c] := containers[c].(ratio := r);
    }

    /** Both children go on the stack. */
    method PushChildren(stack: array<Ptr>, sp: nat, n: Node)
      requires sp + 2 <= stack.Length
      modifies stack
      ensures stack[..sp + 2] == old(stack[..sp]) + [n.childA] + [n.childB]
    {
      stack[sp] := n.childA;
      stack[sp + 1] := n.childB;
    }

    /** One pass of the loop in `panels_de_balance_windows`: pop, set, push. */
    method VisitTop(stack: array<Ptr>, sp0: nat, ghost pool: Pool, ghost root: Tree, ghost ts: seq<Tree>, ghost done: set<nat>)
      returns (sp: nat, ghost ts': seq<Tree>, ghost done': set<nat>)
      requires Valid() && stack.Length == MAX_CONTAINERS && 0 < sp0 <= 16
      requires Walk(pool, root, stack[..sp0], ts, done) && containers[..] == Balanced(pool, done)
      modifies containers, stack
      ensures sp <= 16 && Walk(pool, root, stack[..sp], ts', done') && containers[..] == Balanced(pool, done')
      ensures NodeTotal(ts') < NodeTotal(ts)
    {
      hide Walk, Balanced, NodeTotal;
      WalkOn(pool, root, stack[..sp0], ts, done);
      sp := sp0 - 1;
      var node := stack[sp];
      assert stack[..sp0][..sp] == stack[..sp];
      ghost var top, below := ts[sp], ts[..sp];
      ts', done' := below, done;
      if node == NULL { return; }
      if containers[node].isSplit {
        containers[node] := containers[node].(ratio := 0.5);
        done' := done + {top.node};
        if sp < MAX_CONTAINERS - 2 {
          PushChildren(stack, sp, containers[node]);
          sp := sp + 2;
          ts' := below + [top.a] + [top.b];
        }
      }
    }

    /** `panels_de_balance_windows`: every split of the tree, and nothing else, is
        set to one half. `peak` is the fullest the 32-entry stack gets; the guard
        on pushing children never closes. */
    method BalanceWindows(ws: WorkspaceNo, ghost t: Option<Tree>) returns (ghost peak: nat)
      requires Valid() && Shows(View(), ws, t)
      modifies containers
      ensures Links() == Balanced(old(Links()), if t.None? then {} else Splits(t.value))
      ensures peak <= 16
    {
      peak := 0;
      var c := roots[ws];
      if c == NULL { return; }
      if containers[c].isSplit {
        ghost var pool, root := Links(), t.value;
        hide Shows, Walk, Balanced, NodeTotal, Splits;
        WalkStarts(View(), ws, root);
        containers[c] := containers[c].(ratio := 0.5);
        var stack := new Ptr[MAX_CONTAINERS](_ => NULL);
        var sp: nat := 0;
        PushChildren(stack, sp, containers[c]);
        sp := sp + 2;
        peak := 2;
        ghost var ts: seq<Tree> := [] + [root.a] + [root.b];
        ghost var done: set<nat> := {} + {root.node};
        while sp > 0
          invariant fresh(stack) && stack.Length == MAX_CONTAINERS && sp <= 16 && peak <= 16
          invariant Walk(pool, root, stack[..sp], ts, done)
          invariant containers[..] == Balanced(pool, done)
          decreases NodeTotal(ts)
        {
          sp, ts, done := VisitTop(stack, sp, pool, root, ts, done);
          if sp > peak { peak := sp; }
        }
        WalkEnds(pool, root, ts, done);
      } else {
        RootLeaf(View(), ws, t.value);
      }
    }
  }

  /** Where the walk is: the stack points at the trees `ts` still to be visited,
      `done` are the splits already set, and together they are all splits. Every
      split still waiting costs at most one more stack entry. */
  ghost predicate Walk(pool: Pool, root: Tree, stack: seq<Ptr>, ts: seq<Tree>, done: set<nat>) {
    AllWaiting(pool, stack, ts) && SplitTotal(ts) + |ts| <= 16 && done + SplitsLeft(ts) == Splits(root)
  }

  lemma WalkStarts(d: Desk, ws: WorkspaceNo, t: Tree)
    requires Shows(d, ws, Some(t)) && d.roots[ws] != NULL && d.pool[d.roots[ws]].isSplit
    ensures var c: Ptr := d.roots[ws];
            && t.Split? && c == t.node
            && Walk(d.pool, t, [] + [d.pool[c].childA] + [d.pool[c].childB], [] + [t.a] + [t.b], {} + {t.node})
            && d.pool[c := d.pool[c].(ratio := 0.5)] == Balanced(d.pool, {} + {t.node})
  {
    RootWaits(d, ws, t);
    StartTotals(t);
    BalancedOne(d.pool, {}, t.node);
    BalancedNone(d.pool);
    assert [] + [t.a] + [t.b] == [t.a] + [t.b];
  }

  /** One visit: what the top of the stack is, and where the walk is after it. */
  lemma WalkOn(pool: Pool, root: Tree, stack: seq<Ptr>, ts: seq<Tree>, done: set<nat>)
    requires Walk(pool, root, stack, ts, done) && |stack| > 0
    ensures |ts| == |stack| <= 16
    ensures var k := |stack| - 1;
            var p, t, b := stack[k], ts[k], Balanced(pool, done);
            && p == t.node && b[p].isSplit == t.Split?
            && NodeTotal(ts[..k]) < NodeTotal(ts)
            && (t.Leaf? ==> Walk(pool, root, stack[..k], ts[..k], done))
            && (t.Split? ==>
                  && k + 2 <= 16
                  && Walk(pool, root, stack[..k] + [b[p].childA] + [b[p].childB], ts[..k] + [t.a] + [t.b], done + {t.node})
                  && NodeTotal(ts[..k] + [t.a] + [t.b]) < NodeTotal(ts)
                  && b[p := b[p].(ratio := 0.5)] == Balanced(pool, done + {t.node}))
  {
    hide Waiting, AllWaiting, Balanced, NodeTotal, SplitTotal, SplitsLeft, Splits, SplitCount;
    var k := |stack| - 1;
    WalkLengths(pool, stack, ts);
    var t, below := ts[k], ts[..k];
    assert ts == below + [t];
    TopWaits(pool, stack, ts);
    PopTotals(below, t);
    BalancedKeepsLinks(pool, done);
    if t.Split? {
      ReplaceTop(below, t);
      BalancedOne(pool, done, t.node);
    }
  }

  lemma WalkLengths(pool: Pool, stack: seq<Ptr>, ts: seq<Tree>)
    requires AllWaiting(pool, stack, ts)
    ensures |stack| == |ts|
  {
  }

  lemma WalkEnds(pool: Pool, root: Tree, ts: seq<Tree>, done: set<nat>)
    requires Walk(pool, root, [], ts, done)
    ensures done == Splits(root)
  {
  }

  lemma RootLeaf(d: Desk, ws: WorkspaceNo, t: Tree)
    requires Shows(d, ws, Some(t)) && d.roots[ws] != NULL && !d.pool[d.roots[ws]].isSplit
    ensures Balanced(d.pool, Splits(t)) == d.pool
  {
  }

  lemma BalancedNone(pool: Pool)
    ensures Balanced(pool, {}) == pool
  {
  }

  lemma BalancedOne(pool: Pool, done: set<nat>, n: nat)
    requires n < MAX_CONTAINERS
    ensures Balanced(pool, done)[n := Balanced(pool, done)[n].(ratio := 0.5)] == Balanced(pool, done + {n})
  {
  }

  lemma BalancedKeepsLinks(pool: Pool, done: set<nat>)
    ensures forall n :: 0 <= n < MAX_CONTAINERS ==> SameLinks(pool[n], Balanced(pool, done)[n])
  {
  }

  predicate AllWaiting(pool: Pool, stack: seq<Ptr>, ts: seq<Tree>) {
    |stack| == |ts| && forall i :: 0 <= i < |ts| ==> Waiting(pool, stack[i], ts[i])
  }

  lemma TopWaits(pool: Pool, stack: seq<Ptr>, ts: seq<Tree>)
    requires AllWaiting(pool, stack, ts) && |ts| > 0
    ensures var p, t, below, tsBelow := stack[|stack| - 1], ts[|ts| - 1], stack[..|stack| - 1], ts[..|ts| - 1];
            && p == t.node && pool[p].isSplit == t.Split? && AllWaiting(pool, below, tsBelow)
            && (t.Split? ==> AllWaiting(pool, below + [pool[p].childA] + [pool[p].childB], tsBelow + [t.a] + [t.b]))
  {
    WaitingUnfolds(pool, stack[|stack| - 1], ts[|ts| - 1]);
  }

  lemma WaitingUnfolds(pool: Pool, p: Ptr, t: Tree)
    requires Waiting(pool, p, t)
    ensures p == t.node && pool[p].isSplit == t.Split?
    ensures t.Split? ==> Waiting(pool, pool[p].childA, t.a) && Waiting(pool, pool[p].childB, t.b)
  {
    if t.Split? {
      assert Spells(pool, t.a, t.node) && Spells(pool, t.b, t.node);
      assert pool[t.a.node].parent == t.node && pool[t.b.node].parent == t.node;
    }
  }

  /** Balancing changes ratios only, so the workspace still shows the same tree. */
  lemma BalanceKeepsTree(pool: Pool, t: Tree)
    requires Spells(pool, t, NULL)
    ensures Spells(Balanced(pool, Splits(t)), t, NULL)
    ensures forall n :: 0 <= n < MAX_CONTAINERS ==>
              Balanced(pool, Splits(t))[n] == if n in Splits(t) then pool[n].(ratio := 0.5) else pool[n]
  {
    SpellsFrame(pool, Balanced(pool, Splits(t)), t, NULL);
  }

  /** A stack entry points at a subtree still to be walked. */
  predicate Waiting(pool: Pool, p: Ptr, t: Tree) {
    p == t.node && Spells(pool, t, pool[p].parent)
  }

  lemma RootWaits(d: Desk, ws: WorkspaceNo, t: Tree)
    requires Shows(d, ws, Some(t))
    ensures t.node < MAX_CONTAINERS && d.roots[ws] == t.node && t.Split? == d.pool[t.node].isSplit
    ensures t.Split? ==> AllWaiting(d.pool, [] + [d.pool[t.node].childA] + [d.pool[t.node].childB], [t.a] + [t.b])
    ensures SplitCount(t) <= 15
  {
    AtMostFifteenSplits(d.pool, t, NULL);
    assert Waiting(d.pool, t.node, t);
    WaitingUnfolds(d.pool, t.node, t);
  }

  lemma StartTotals(t: Tree)
    requires t.Split?
    ensures SplitTotal([t.a] + [t.b]) + 1 == SplitCount(t)
    ensures {t.node} + SplitsLeft([t.a] + [t.b]) == Splits(t)
  {
    var none: seq<Tree> := [];
    assert [t.a][..0] == none && ([t.a] + [t.b])[..1] == [t.a];
    assert SplitTotal([t.a]) == SplitTotal(none) + SplitCount(t.a) == SplitCount(t.a);
    assert SplitsLeft([t.a]) == SplitsLeft(none) + Splits(t.a) == Splits(t.a);
  }

  /** What the code finds when it looks at a leaf of the tree. */
  lemma {:induction false} LeafLinks(pool: Pool, t: Tree, c: Ptr)
    requires Spells(pool, t, NULL) && Unshared(t) && c in Leaves(t)
    ensures c != NULL && !pool[c].isSplit
    ensures t == Leaf(c) ==> pool[c].parent == NULL
  {
    NodesInPool(pool, t, NULL);
    LeavesAreNodes(t);
    LeafIsNoSplit(pool, t, NULL, c);
  }

  lemma {:induction false} LeafIsNoSplit(pool: Pool, t: Tree, up: Ptr, c: nat)
    requires Spells(pool, t, up) && c in Leaves(t)
    ensures c < MAX_CONTAINERS && !pool[c].isSplit
  {
    if t.Split? {
      if c in Leaves(t.a) {
        LeafIsNoSplit(pool, t.a, t.node, c);
      } else {
        LeafIsNoSplit(pool, t.b, t.node, c);
      }
    }
  }

  lemma SpliceKeepsLeafWindows(pool: Pool, t: Tree, c: nat)
    requires Spells(pool, t, NULL) && Unshared(t) && c in Leaves(t) && t != Leaf(c)
    ensures c < MAX_CONTAINERS && pool[c].parent != NULL && SiblingOf(pool, c) != NULL
    ensures forall n :: n in Leaves(Prune(t, c)) ==> n in Leaves(t) && n != c
    ensures forall n :: 0 <= n < MAX_CONTAINERS ==> Splice(pool, c)[n].window == pool[n].window
  {
    NodesInPool(pool, t, NULL);
    LeavesAreNodes(t);
    assert NULL !in Nodes(t);
    Relatives(pool, t, NULL, c);
    var k := PruneDropsOneLeaf(t, c);
    forall n | n in Leaves(Prune(t, c))
      ensures n in Leaves(t) && n != c
    {
      assert n in Drop(Leaves(t), k);
    }
  }
}
