/** The kernel's tree object: an array of nodes, the root, and the free list. */
module RbArena {
  import opened Layout
  import opened Arith
  import opened RunQueues
  import opened RbTrees
  import opened RbFix
  import opened RbDelete
  import opened RbColors
  import opened RbBalance

  class RedBlackTree {
    const nodes: array<RbNode>
    var root: nat
    var freeHead: nat
    ghost var shape: Shape
    ghost var pool: seq<nat>

    ghost predicate Valid()
      reads this, nodes
    {
      && nodes.Length == MAX_NODES
      && Links(nodes[..], shape, root, NONE) && NoDup(shape)
      && PoolOk(nodes[..], freeHead, pool)
    }

    /** The child links form a tree; parent links may be wrong. */
    ghost predicate Ordered()
      reads this, nodes
    {
      && nodes.Length == MAX_NODES
      && ChildLinks(nodes[..], shape, root) && NoDup(shape)
      && PoolOk(nodes[..], freeHead, pool)
    }

    ghost function View(): Arena
      reads this, nodes
    {
      Arena(nodes[..], root)
    }

    ghost function Contents(): seq<Entry>
      reads this, nodes
    {
      InOrder(nodes[..], shape)
    }

    /** The red-black rules: a black root, no red child of a red node, as many black nodes on every way down. */
    ghost predicate Balanced()
      reads this, nodes
    {
      RedBlack(ColorsOf(nodes[..]), shape)
    }

    constructor ()
      ensures nodes.Length == MAX_NODES && fresh(nodes)
    {
      nodes := new RbNode[MAX_NODES](_ => EMPTY);
      root, freeHead := NONE, NONE;
      shape, pool := Leaf, [];
    }

    method Init()
      requires nodes.Length == MAX_NODES
      modifies this, nodes
      ensures Valid() && Contents() == [] && |pool| == MAX_NODES
      ensures shape == Leaf && Balanced() && forall i: nat :: i < MAX_NODES ==> !nodes[i].inUse
    {
      for i := 0 to MAX_NODES
        invariant forall j: nat :: j < i ==>
                    !nodes[j].inUse && nodes[j].left == if j + 1 < MAX_NODES then j + 1 else NONE
      {
        nodes[i] := nodes[i].(inUse := false, left := if i + 1 < MAX_NODES then i + 1 else NONE);
      }
      freeHead := 0;
      root := NONE;
      shape, pool := Leaf, CountFrom(0, MAX_NODES);
      FreshPool(nodes[..]);
      assert Even(ColorsOf(nodes[..]), Leaf, 0);
    }

    /** None exactly when every node is in use. */
    method AllocNode() returns (r: Option<nat>)
      requires Valid()
      modifies this, nodes
      ensures Valid() && shape == old(shape) && root == old(root) && Contents() == old(Contents())
      ensures r.None? <==> forall i: nat :: i < MAX_NODES ==> old(nodes[i].inUse)
      ensures r.None? ==> pool == old(pool) && nodes[..] == old(nodes[..])
      ensures r.Some? ==> old(pool) == [r.value] + pool && r.value !in Ids(shape) && r.value < MAX_NODES
                          && nodes[..] == old(nodes[..])[r.value := EMPTY.(inUse := true)]
    {
      ghost var ns := nodes[..];
      if freeHead == NONE {
        assert pool == [];
        return None;
      }
      var id := freeHead;
      assert pool[0] == id && !ns[id].inUse;
      var next := nodes[id].left;
      nodes[id] := EMPTY;
      nodes[id] := nodes[id].(inUse := true);
      freeHead := next;
      PoolTake(ns, nodes[..], id, pool);
      pool := pool[1..];
      IdsInArena(ns, shape, root, NONE);
      LinksFrame(ns, nodes[..], shape, root, NONE);
      InOrderFrame(ns, nodes[..], shape);
      r := Some(id);
    }

    /** Give back a node that is no longer in the tree. */
    method FreeNode(id: nat)
      requires Valid() && id < MAX_NODES && nodes[id].inUse && id !in Ids(shape)
      modifies this, nodes
      ensures Valid() && shape == old(shape) && root == old(root) && Contents() == old(Contents())
              && pool == [id] + old(pool)
      ensures nodes[..] == old(nodes[..])[id := old(nodes[id]).(inUse := false, left := old(freeHead))]
    {
      ghost var ns, head := nodes[..], freeHead;
      nodes[id] := nodes[id].(inUse := false);
      nodes[id] := nodes[id].(left := freeHead);
      freeHead := id;
      PoolGive(ns, nodes[..], head, pool, id);
      pool := [id] + pool;
      LinksFrame(ns, nodes[..], shape, root, NONE);
      InOrderFrame(ns, nodes[..], shape);
    }

    /** The leftmost node: the first in order, whether or not the parent links agree. */
    method Minimum() returns (r: Option<(nat, Entry)>)
      requires Ordered()
      ensures r.None? <==> Contents() == []
      ensures r.Some? ==> r.value.1 == Contents()[0] && r.value.0 in Ids(shape) && r.value.0 < MAX_NODES
                          && r.value.1 == EntryOf(nodes[..], r.value.0) && nodes[r.value.0].left == NONE
    {
      ghost var ns := nodes[..];
      if root == NONE {
        return None;
      }
      var current := root;
      ghost var sub := shape;
      while nodes[current].left != NONE
        invariant sub.Fork? && ChildLinks(ns, sub, current) && Ids(sub) <= Ids(shape)
        invariant InOrder(ns, sub) != [] && InOrder(ns, shape) != [] && InOrder(ns, sub)[0] == InOrder(ns, shape)[0]
        decreases sub
      {
        sub := sub.left;
        current := nodes[current].left;
      }
      assert InOrder(ns, sub.left) == [];
      r := Some((current, Entry(nodes[current].key, nodes[current].tid)));
    }

    /** The statements of `rotate_left`. */
    method RelinkLeft(x: nat)
      requires RotL(View(), x).Some?
      modifies this`root, nodes
      ensures Some(View()) == RotL(old(View()), x)
    {
      var y := nodes[x].right;
      nodes[x] := nodes[x].(right := nodes[y].left);
      var b := nodes[y].left;
      if b != NONE {
        nodes[b] := nodes[b].(parent := x);
      }
      nodes[y] := nodes[y].(parent := nodes[x].parent);
      var parent := nodes[x].parent;
      if parent == NONE {
        root := y;
      } else if nodes[parent].left == x {
        nodes[parent] := nodes[parent].(left := y);
      } else {
        nodes[parent] := nodes[parent].(right := y);
      }
      nodes[y] := nodes[y].(left := x);
      nodes[x] := nodes[x].(parent := y);
    }

    /** The statements of `rotate_right`. */
    method RelinkRight(y: nat)
      requires RotR(View(), y).Some?
      modifies this`root, nodes
      ensures Some(View()) == RotR(old(View()), y)
    {
      var x := nodes[y].left;
      nodes[y] := nodes[y].(left := nodes[x].right);
      var b := nodes[x].right;
      if b != NONE {
        nodes[b] := nodes[b].(parent := y);
      }
      nodes[x] := nodes[x].(parent := nodes[y].parent);
      var parent := nodes[y].parent;
      if parent == NONE {
        root := x;
      } else if nodes[parent].right == y {
        nodes[parent] := nodes[parent].(right := x);
      } else {
        nodes[parent] := nodes[parent].(left := x);
      }
      nodes[x] := nodes[x].(right := y);
      nodes[y] := nodes[y].(parent := x);
    }

    /** Rotate to the left at `x`, whose right child goes up. */
    method RotateLeft(x: nat)
      requires Valid() && x in Ids(shape) && x < MAX_NODES && nodes[x].right != NONE
      modifies this, nodes
      ensures Valid() && shape == RotatedLeft(old(shape), x) && Contents() == old(Contents())
      ensures Ids(shape) == old(Ids(shape)) && pool == old(pool)
    {
      hide RotL, InOrder, NoDup, Ids, RotatedLeft, Links, PoolOk;
      ghost var a := View();
      RotLKeeps(a, shape, x);
      RelinkLeft(x);
      PoolFrame(a.ns, nodes[..], freeHead, pool);
      shape := RotatedLeft(shape, x);
    }

    /** Rotate to the right at `y`, whose left child goes up. */
    method RotateRight(y: nat)
      requires Valid() && y in Ids(shape) && y < MAX_NODES && nodes[y].left != NONE
      modifies this, nodes
      ensures Valid() && shape == RotatedRight(old(shape), y) && Contents() == old(Contents())
      ensures Ids(shape) == old(Ids(shape)) && pool == old(pool)
    {
      hide RotR, InOrder, NoDup, Ids, RotatedRight, Links, PoolOk;
      ghost var a := View();
      RotRKeeps(a, shape, y);
      RelinkRight(y);
      PoolFrame(a.ns, nodes[..], freeHead, pool);
      shape := RotatedRight(shape, y);
    }

    /** The descent of `insert_node`: the node that the new key is hung below. */
    method FindLeaf(key: nat) returns (current: nat)
      requires Links(nodes[..], shape, root, NONE) && root != NONE
      ensures shape.Fork? && current == AttachPoint(nodes[..], shape, key) && current < nodes.Length
    {
      ghost var ns := nodes[..];
      current := root;
      ghost var sub, parent := shape, NONE;
      while true
        invariant sub.Fork? && Links(ns, sub, current, parent)
        invariant AttachPoint(ns, sub, key) == AttachPoint(ns, shape, key)
        decreases sub
      {
        if key < nodes[current].key {
          if nodes[current].left == NONE {
            break;
          }
          parent, sub := current, sub.left;
          current := nodes[current].left;
        } else {
          if nodes[current].right == NONE {
            break;
          }
          parent, sub := current, sub.right;
          current := nodes[current].right;
        }
      }
    }

    /** The rotating part of a pass below a left parent. */
    method TurnRightAt(node: nat, parent: nat, g: nat)
      requires parent < nodes.Length && TurnRight(View(), node, parent, g).Stop?
      modifies this`root, nodes
      ensures Stop(View()) == TurnRight(old(View()), node, parent, g)
    {
      hide RotL, RotR;
      var current := node;
      if nodes[parent].right == node {
        RelinkLeft(parent);
        current := parent;
      }
      nodes[current] := nodes[current].(parent := g);
      RelinkRight(g);
      var top := nodes[g].parent;
      nodes[top] := nodes[top].(color := Black);
      nodes[g] := nodes[g].(color := Red);
    }

    /** The rotating part of a pass below a right parent. */
    method TurnLeftAt(node: nat, parent: nat, g: nat)
      requires parent < nodes.Length && TurnLeft(View(), node, parent, g).Stop?
      modifies this`root, nodes
      ensures Stop(View()) == TurnLeft(old(View()), node, parent, g)
    {
      hide RotL, RotR;
      var current := node;
      if nodes[parent].left == node {
        RelinkRight(parent);
        current := parent;
      }
      nodes[current] := nodes[current].(parent := g);
      RelinkLeft(g);
      var top := nodes[g].parent;
      nodes[top] := nodes[top].(color := Black);
      nodes[g] := nodes[g].(color := Red);
    }

    /** One pass of `fix_insert`: the node to go on from, or None. */
    method FixPass(node: nat) returns (next: Option<nat>)
      requires !FixRound(View(), node).Crash?
      modifies this`root, nodes
      ensures FixRound(old(View()), node) == if next.Some? then Climb(View(), next.value) else Stop(View())
    {
      hide TurnRight, TurnLeft;
      if node == root || nodes[node].parent == NONE {
        return None;
      }
      var parent := nodes[node].parent;
      if nodes[parent].color != Red {
        return None;
      }
      var g := nodes[parent].parent;
      if g == NONE {
        return None;
      }
      var parentIsLeft := nodes[g].left == parent;
      var uncle := if parentIsLeft then nodes[g].right else nodes[g].left;
      if uncle != NONE && nodes[uncle].color == Red {
        nodes[parent] := nodes[parent].(color := Black);
        nodes[uncle] := nodes[uncle].(color := Black);
        nodes[g] := nodes[g].(color := Red);
        return Some(g);
      }
      if parentIsLeft {
        TurnStops(View(), node, parent, g);
        TurnRightAt(node, parent, g);
      } else {
        TurnStops(View(), node, parent, g);
        TurnLeftAt(node, parent, g);
      }
      next := None;
    }

    /** `fix_insert`, where it ends within `rounds` passes. */
    method FixInsert(id: nat, ghost rounds: nat)
      requires FixFrom(View(), id, rounds).Done?
      modifies this`root, nodes
      ensures Done(View()) == FixFrom(old(View()), id, rounds)
    {
      hide FixRound;
      ghost var left: nat, goal := rounds, FixFrom(View(), id, rounds);
      var node := id;
      while true
        invariant FixFrom(View(), node, left) == goal
        decreases left
      {
        assert left > 0;
        var next := FixPass(node);
        if next.None? {
          break;
        }
        node := next.value;
        left := left - 1;
      }
      nodes[root] := nodes[root].(color := Black);
    }

    /** `insert`: None exactly when the pool is used up. The entries are in order afterwards, behind equal keys; the
      * tree stays well linked exactly when the insertion does not end in a rotation. */
    method Insert(key: nat, tid: nat) returns (r: Option<nat>)
      requires Valid() && Sorted(Contents())
      modifies this, nodes
      ensures r.None? <==> old(pool) == []
      ensures r.None? ==> Valid() && Contents() == old(Contents())
      ensures r.Some? ==> Ordered() && Contents() == RunQueues.Insert(old(Contents()), Entry(key, tid))
      ensures r.Some? ==> (Valid() <==> !InsertRotates(old(nodes[..]), old(shape), key))
      ensures r.Some? ==> Ids(shape) == old(Ids(shape)) + {r.value} && old(pool) == [r.value] + pool
      ensures r.Some? ==> r.value !in old(Ids(shape)) && EntryOf(nodes[..], r.value) == Entry(key, tid)
      ensures r.None? ==> nodes[..] == old(nodes[..]) && shape == old(shape)
      ensures r.Some? ==> OthersSame(old(nodes[..]), nodes[..], r.value) && nodes[r.value].inUse
      ensures r.Some? ==> r.value < MAX_NODES
                          && InsertNode(old(View()), r.value, key, tid, MAX_NODES + 1) == Done(View())
      ensures old(Balanced()) ==> Balanced()
    {
      hide Links, PoolOk, NoDup, InOrder, RunQueues.Insert, Ids, Sorted, ChildLinks, InsertRotates, InsertNode;
      hide RedBlack, ColorsOf;
      ghost var a, t := View(), shape;
      NoneFree(nodes[..], freeHead, pool);
      r := AllocNode();
      if r.Some? {
        var id := r.value;
        ghost var ns := nodes[..];
        InsertAt(id, key, tid, a);
        if t.Fork? {
          PathFits(a, t, key);
        }
        ghost var t' := WholeInsert(a, t, id, key, tid, MAX_NODES + 1);
        assert a.ns[id := RbNode(key, tid, NONE, NONE, NONE, Red, true)]
               == ns[id := RbNode(key, tid, NONE, NONE, NONE, Red, true)];
        TakenPool(ns, nodes[..], freeHead, pool, id, key, tid);
        shape := t';
        if RedBlack(ColorsOf(a.ns), t) {
          InsertedBalance(a, t, id, key, tid, t');
        }
      }
    }

    /** Fill in the node taken from the pool and insert it. */
    method InsertAt(id: nat, key: nat, tid: nat, ghost a: Arena)
      requires nodes.Length == MAX_NODES && Links(nodes[..], shape, root, NONE) && NoDup(shape)
      requires id < MAX_NODES && id !in Ids(shape)
      requires Sorted(InOrder(a.ns, shape)) && Tree(a, shape) && |a.ns| == MAX_NODES && a.root == root
      requires a.ns[id := RbNode(key, tid, NONE, NONE, NONE, Red, true)]
               == nodes[..][id := RbNode(key, tid, NONE, NONE, NONE, Red, true)]
      modifies this`root, nodes
      ensures InsertNode(a, id, key, tid, MAX_NODES + 1) == Done(View())
    {
      hide Links, NoDup, InOrder, RunQueues.Insert, Ids, Sorted, ChildLinks, Descend, FixFrom, AttachPoint;
      ghost var ns := nodes[..];
      nodes[id] := RbNode(key, tid, NONE, NONE, NONE, Red, true);
      ghost var ns1 := nodes[..];
      assert ns1 == a.ns[id := RbNode(key, tid, NONE, NONE, NONE, Red, true)];
      RootOf(a, shape);
      if root == NONE {
        root := id;
        nodes[id] := nodes[id].(color := Black);
        return;
      }
      HungTree(a, shape, id, key, tid);
      PathFits(a, shape, key);
      ghost var t' := WholeInsert(a, shape, id, key, tid, MAX_NODES + 1);
      DescendsTo(a, shape, ns1, id, key);
      var p := FindLeaf(key);
      if key < nodes[p].key {
        nodes[p] := nodes[p].(left := id);
      } else {
        nodes[p] := nodes[p].(right := id);
      }
      nodes[id] := nodes[id].(parent := p);
      assert nodes[..] == Hung(ns1, p, id);
      FixInsert(id, MAX_NODES + 1);
    }

    // ---------------------------------------------------------------- removal

    method RotateAt(x: nat, s: Side)
      requires Rotate(View(), x, s).Some?
      modifies this`root, nodes
      ensures Some(View()) == Rotate(old(View()), x, s)
    {
      hide RotL, RotR;
      if s.OnLeft? {
        RelinkLeft(x);
      } else {
        RelinkRight(x);
      }
    }

    method PaintNode(i: nat, c: Color)
      requires i < nodes.Length
      modifies nodes
      ensures View() == Paint(old(View()), i, c)
    {
      nodes[i] := nodes[i].(color := c);
    }

    method ColorOf(i: nat) returns (black: bool)
      requires nodes.Length <= NONE && InBounds(nodes[..], i)
      ensures black == IsBlack(nodes[..], i)
    {
      black := i == NONE || nodes[i].color == Black;
    }

    /** One pass of `fix_delete`; `s` says which child of `p` the node `x` is. */
    method DelPass(x: nat, p: nat, s: Side) returns (next: Option<nat>)
      requires p < nodes.Length <= NONE && !DelRound(View(), x, p, s).Crash?
      modifies this`root, nodes
      ensures DelRound(old(View()), x, p, s) == if next.Some? then Climb(View(), next.value) else Stop(View())
    {
      hide Rotate;
      var w := Far(nodes[p], s);
      if w != NONE && nodes[w].color == Red {
        PaintNode(w, Black);
        PaintNode(p, Red);
        RotateAt(p, s);
        w := Far(nodes[p], s);
      }
      if w == NONE {
        return None;
      }
      var leftBlack := ColorOf(nodes[w].left);
      var rightBlack := ColorOf(nodes[w].right);
      if leftBlack && rightBlack {
        PaintNode(w, Red);
        return Some(p);
      }
      TurnLength(View(), w, s);
      next := DelTurn(x, p, w, s);
    }

    /** The rotating part of a pass. */
    method DelTurn(x: nat, p: nat, w: nat, s: Side) returns (next: Option<nat>)
      requires p < nodes.Length <= NONE && w < nodes.Length && w == Far(nodes[p], s)
      requires InBounds(nodes[..], nodes[w].left) && InBounds(nodes[..], nodes[w].right)
      requires TurnSibling(View(), w, s).Some? && p < |TurnSibling(View(), w, s).value.ns| == nodes.Length
      requires var b := TurnSibling(View(), w, s).value;
               Far(b.ns[p], s) != NONE ==> Far(b.ns[p], s) < |b.ns| && RaiseFar(b, p, s).Some?
      modifies this`root, nodes
      ensures var b := TurnSibling(old(View()), w, s).value;
              if Far(b.ns[p], s) == NONE then next == Some(x) && View() == b
              else next == Some(root) && Some(View()) == RaiseFar(b, p, s)
    {
      hide Rotate;
      var sibling := w;
      var farBlack := ColorOf(Far(nodes[w], s));
      if farBlack {
        var near := Near(nodes[w], s);
        if near != NONE {
          PaintNode(near, Black);
        }
        PaintNode(w, Red);
        RotateAt(w, Other(s));
        sibling := Far(nodes[p], s);
      }
      if sibling == NONE {
        return Some(x);
      }
      PaintNode(sibling, nodes[p].color);
      PaintNode(p, Black);
      var far := Far(nodes[sibling], s);
      if far != NONE {
        PaintNode(far, Black);
      }
      RotateAt(p, s);
      next := Some(root);
    }

    /** `fix_delete`, where it ends within `rounds` passes. */
    method FixDelete(start: nat, ghost rounds: nat)
      requires nodes.Length <= NONE && FixDelFrom(View(), start, rounds).Done?
      modifies this`root, nodes
      ensures Done(View()) == FixDelFrom(old(View()), start, rounds)
    {
      hide DelRound;
      ghost var left: nat, goal := rounds, FixDelFrom(View(), start, rounds);
      var x := start;
      while x != root && x != NONE && nodes[x].color == Black && nodes[x].parent != NONE
        invariant FixDelFrom(View(), x, left) == goal && left > 0
        decreases left
      {
        var p := nodes[x].parent;
        var next := DelPass(x, p, if nodes[p].left == x then OnLeft else OnRight);
        if next.None? {
          break;
        }
        x := next.value;
        left := left - 1;
      }
      if x != NONE {
        nodes[x] := nodes[x].(color := Black);
      }
    }

    /** Take node `y` out of the tree. */
    method SpliceOut(y: nat)
      requires y < nodes.Length && Splice(View(), y).Some?
      modifies this`root, nodes
      ensures Some(View()) == Splice(old(View()), y)
    {
      var x := if nodes[y].left == NONE then nodes[y].right else nodes[y].left;
      if x != NONE {
        nodes[x] := nodes[x].(parent := nodes[y].parent);
      }
      var p := nodes[y].parent;
      if p == NONE {
        root := x;
      } else if nodes[p].left == y {
        nodes[p] := nodes[p].(left := x);
      } else {
        nodes[p] := nodes[p].(right := x);
      }
    }

    /** `transplant`. */
    method PutInPlace(u: nat, v: nat)
      requires u < nodes.Length && v < nodes.Length && Transplant(View(), u, v).Some?
      modifies this`root, nodes
      ensures Some(View()) == Transplant(old(View()), u, v)
    {
      ghost var ns := nodes[..];
      var n, m := nodes[u], nodes[v];
      nodes[v] := n;
      nodes[v] := nodes[v].(left := m.left);
      nodes[v] := nodes[v].(right := m.right);
      nodes[v] := nodes[v].(color := m.color);
      nodes[v] := nodes[v].(tid := m.tid);
      nodes[v] := nodes[v].(key := m.key);
      assert nodes[..] == ns[v := n.(left := m.left, right := m.right, color := m.color, tid := m.tid, key := m.key)];
      if m.left != NONE {
        nodes[m.left] := nodes[m.left].(parent := v);
      }
      if m.right != NONE {
        nodes[m.right] := nodes[m.right].(parent := v);
      }
      if n.parent == NONE {
        root := v;
      } else if nodes[n.parent].left == u {
        nodes[n.parent] := nodes[n.parent].(left := v);
      } else {
        nodes[n.parent] := nodes[n.parent].(right := v);
      }
      nodes[v] := nodes[v].(parent := n.parent);
    }

    /** The leftmost node below `start`. */
    method FindFirst(start: nat, ghost steps: nat) returns (y: nat)
      requires Leftmost(nodes[..], start, steps).Some?
      ensures Leftmost(nodes[..], start, steps) == Some(y) && y < nodes.Length
    {
      y := start;
      ghost var left: nat := steps;
      while nodes[y].left != NONE
        invariant Leftmost(nodes[..], y, left) == Leftmost(nodes[..], start, steps)
        invariant y < nodes.Length && left > 0
        decreases left
      {
        y := nodes[y].left;
        left := left - 1;
      }
    }

    /** `delete_node`, where it ends within `steps`. */
    method Delete(z: nat, ghost steps: nat)
      requires nodes.Length <= NONE && DeleteNode(View(), z, steps).Done?
      modifies this`root, nodes
      ensures Done(View()) == DeleteNode(old(View()), z, steps)
    {
      hide Splice, Transplant, FixDelFrom, Leftmost;
      var y := z;
      if nodes[z].left != NONE && nodes[z].right != NONE {
        y := FindFirst(nodes[z].right, steps);
      }
      var black := nodes[y].color == Black;
      var x := if nodes[y].left == NONE then nodes[y].right else nodes[y].left;
      SpliceOut(y);
      if y != z {
        PutInPlace(z, y);
      }
      if black {
        FixDelete(x, steps);
      }
    }

    /** `remove`: the entry of the node is gone, and nothing else exactly when the node has at most one child. */
    method Remove(id: nat) returns (r: Option<nat>)
      requires Valid() && InBounds(nodes[..], id) && (id < MAX_NODES && nodes[id].inUse ==> id in Ids(shape))
      modifies this, nodes
      ensures Valid() && (r.Some? <==> id in old(Ids(shape)))
      ensures r.None? ==> nodes[..] == old(nodes[..]) && shape == old(shape) && pool == old(pool)
      ensures r.Some? ==> r.value == EntryOf(old(nodes[..]), id).tid && pool == [id] + old(pool)
      ensures r.Some? ==> SubAt(old(shape), id).Fork? && Ids(shape) == Ids(AfterDelete(old(shape), id))
                          && Contents() == InOrder(old(nodes[..]), AfterDelete(old(shape), id))
      ensures r.Some? ==> (Contents() == InOrderBut(old(nodes[..]), old(shape), id) <==> !TwoChildren(old(shape), id))
      ensures r.Some? ==> OthersSame(old(nodes[..]), nodes[..], id) && !nodes[id].inUse
      ensures r.None? && old(Balanced()) ==> Balanced()
      ensures r.Some? && old(Balanced()) && !TwoChildren(old(shape), id) ==>
                (Balanced() <==> old(nodes[id].color == Red || OnlyChild(nodes[id]) != NONE || root == id))
      ensures r.Some? && old(Balanced()) && TwoChildren(old(shape), id) ==>
                (Balanced() <==> old(LeafSuccessor(nodes[..], root, id, Gone(shape, id))))
    {
      hide Links, NoDup, InOrder, PoolOk, AfterDelete, InOrderBut, TwoChildren, SubAt, DeleteNode, Ids, RedBlack;
      ghost var a, t := View(), shape;
      IdsInArena(a.ns, t, a.root, NONE);
      if id == NONE || !nodes[id].inUse {
        return None;
      }
      var tid := nodes[id].tid;
      ghost var t' := WholeDelete(a, t, id, MAX_NODES + 1);
      SubAtIs(a, t, id);
      ghost var rest := DeleteLosesExactlyWhen(a.ns, t, id);
      Delete(id, MAX_NODES + 1);
      PoolFrame(a.ns, nodes[..], freeHead, pool);
      shape := t';
      ghost var b := View();
      FreeNode(id);
      assert ColorsOf(nodes[..]) == ColorsOf(b.ns);
      if RedBlack(ColorsOf(a.ns), t) {
        if TwoChildren(t, id) {
          RemovedTwoBalance(a, t, id, t');
        } else {
          RemovedBalance(a, t, id, t');
        }
      }
      r := Some(tid);
    }
  }

  lemma InsertedBalance(a: Arena, t: Shape, id: nat, key: nat, tid: nat, t': Shape)
    requires Tree(a, t) && id < |a.ns| == MAX_NODES && id !in Ids(t) && RedBlack(ColorsOf(a.ns), t)
    requires var r := InsertNode(a, id, key, tid, MAX_NODES + 1); r.Done? && ChildLinks(r.a.ns, t', r.a.root)
    ensures RedBlack(ColorsOf(InsertNode(a, id, key, tid, MAX_NODES + 1).a.ns), t')
  {
    hide Links, NoDup, Ids, RedBlack, ColorsOf, InsertNode, ChildLinks;
    if t.Fork? {
      PathFits(a, t, key);
    }
    var u := InsertKeepsBalance(a, t, id, key, tid, MAX_NODES + 1);
    var b := InsertNode(a, id, key, tid, MAX_NODES + 1).a;
    OneShape(b.ns, u, t', b.root);
  }

  /** The successor `y` is a black leaf, and `z` the root or red with `y` for a child. */
  ghost predicate LeafSuccessor(ns: seq<RbNode>, root: nat, z: nat, y: nat) {
    && z < |ns| && y < |ns| && ns[y].color == Black && OnlyChild(ns[y]) == NONE
    && (z == root || (ns[z].color == Red && ns[z].right == y))
  }

  lemma RemovedTwoBalance(a: Arena, t: Shape, z: nat, t': Shape)
    requires Tree(a, t) && z in Ids(t) && |a.ns| == MAX_NODES && TwoChildren(t, z) && RedBlack(ColorsOf(a.ns), t)
    requires var r := DeleteNode(a, z, MAX_NODES + 1); r.Done? && Tree(r.a, t')
    ensures RedBlack(ColorsOf(DeleteNode(a, z, MAX_NODES + 1).a.ns), t') <==> LeafSuccessor(a.ns, a.root, z, Gone(t, z))
  {
    hide Links, NoDup, Ids, RedBlack, ColorsOf, DeleteNode, ChildLinks, TwoChildren;
    var u := RemoveTwoBalancedExactlyWhen(a, t, z, MAX_NODES + 1);
    var b := DeleteNode(a, z, MAX_NODES + 1).a;
    ChildLinksOf(b.ns, b.ns, u, b.root, NONE);
    ChildLinksOf(b.ns, b.ns, t', b.root, NONE);
    OneShape(b.ns, u, t', b.root);
  }

  lemma RemovedBalance(a: Arena, t: Shape, z: nat, t': Shape)
    requires Tree(a, t) && z in Ids(t) && |a.ns| == MAX_NODES && !TwoChildren(t, z) && RedBlack(ColorsOf(a.ns), t)
    requires var r := DeleteNode(a, z, MAX_NODES + 1); r.Done? && Tree(r.a, t')
    ensures z < |a.ns|
    ensures RedBlack(ColorsOf(DeleteNode(a, z, MAX_NODES + 1).a.ns), t') <==>
            a.ns[z].color == Red || OnlyChild(a.ns[z]) != NONE || z == a.root
  {
    hide Links, NoDup, Ids, RedBlack, ColorsOf, DeleteNode, ChildLinks, TwoChildren;
    var u := RemoveBalancedExactlyWhen(a, t, z, MAX_NODES + 1);
    var b := DeleteNode(a, z, MAX_NODES + 1).a;
    ChildLinksOf(b.ns, b.ns, u, b.root, NONE);
    ChildLinksOf(b.ns, b.ns, t', b.root, NONE);
    OneShape(b.ns, u, t', b.root);
  }

  /** Nodes but `id` keep their use and entry. */
  ghost predicate OthersSame(ns: seq<RbNode>, ns': seq<RbNode>, id: nat) {
    && |ns'| == |ns|
    && forall i: nat :: i < |ns| && i != id ==>
      ns'[i].inUse == ns[i].inUse && ns'[i].key == ns[i].key && ns'[i].tid == ns[i].tid
  }

  /** A rotating pass that does not fail stops. */
  lemma TurnStops(a: Arena, node: nat, parent: nat, g: nat)
    requires parent < |a.ns|
    ensures !TurnRight(a, node, parent, g).Crash? ==> TurnRight(a, node, parent, g).Stop?
    ensures !TurnLeft(a, node, parent, g).Crash? ==> TurnLeft(a, node, parent, g).Stop?
  {
    hide RotL, RotR;
  }

  lemma RootOf(a: Arena, t: Shape)
    requires Tree(a, t)
    ensures a.root == NONE <==> t == Leaf
  {
  }

  lemma DescendsTo(a: Arena, t: Shape, ns: seq<RbNode>, id: nat, key: nat)
    requires Tree(a, t) && t.Fork? && id !in Ids(t) && id < |a.ns| == MAX_NODES
    requires |ns| == |a.ns| && Links(ns, t, a.root, NONE) && AttachPoint(ns, t, key) == AttachPoint(a.ns, t, key)
    ensures Descend(ns, key, a.root, MAX_NODES + 1) == Some(AttachPoint(ns, t, key))
  {
    PathFits(a, t, key);
    AttachPointInside(ns, t, key);
    DescendEnds(ns, t, a.root, NONE, key, MAX_NODES + 1);
  }

  /** Filling in a node that was taken, and relinking nodes in use, does not touch the pool. */
  lemma TakenPool(ns: seq<RbNode>, ns': seq<RbNode>, head: nat, pool: seq<nat>, id: nat, key: nat, tid: nat)
    requires PoolOk(ns, head, pool) && id < |ns| && ns[id].inUse
    requires SameNodes(ns[id := RbNode(key, tid, NONE, NONE, NONE, Red, true)], ns')
    ensures PoolOk(ns', head, pool)
  {
    hide PoolOk;
    PoolFrame(ns, ns', head, pool);
  }
}
