/** Removing a node from the arena tree, as the kernel writes it: right for a node with at most one child, and a loss of
  * entries for a node with two. */
module RbDelete {
  import opened Layout
  import opened Arith
  import opened RunQueues
  import opened RbTrees
  import opened RbFix

  // ---------------------------------------------------------------- the code on values

  /** The child that takes the place of a node with at most one. */
  function OnlyChild(n: RbNode): nat { if n.left == NONE then n.right else n.left }

  /** Take node `y` out: its only child goes to its parent. None is an index out of bounds. */
  function Splice(a: Arena, y: nat): Option<Arena>
    requires y < |a.ns|
  {
    var x := OnlyChild(a.ns[y]);
    if x != NONE && x >= |a.ns| then None else
      var ns1 := if x != NONE then WithParent(a.ns, x, a.ns[y].parent) else a.ns;
      var p := ns1[y].parent;
      if p == NONE then Some(Arena(ns1, x))
      else if p >= |ns1| then None
      else Some(Arena(ns1[p := Relinked(ns1[p], y, x)], a.root))
  }

  /** `transplant`: node `v` takes the parent of `u`, but keeps its own children. */
  function Transplant(a: Arena, u: nat, v: nat): Option<Arena>
    requires u < |a.ns| && v < |a.ns|
  {
    var n, m := a.ns[u], a.ns[v];
    var ns1 := a.ns[v := n.(left := m.left, right := m.right, color := m.color, tid := m.tid, key := m.key)];
    if (m.left != NONE && m.left >= |ns1|) || (m.right != NONE && m.right >= |ns1|) then None else
      var ns2 := if m.left != NONE then WithParent(ns1, m.left, v) else ns1;
      var ns3 := if m.right != NONE then WithParent(ns2, m.right, v) else ns2;
      if n.parent == NONE then Some(Arena(WithParent(ns3, v, NONE), v))
      else if n.parent >= |ns3| then None
      else Some(Arena(WithParent(ns3[n.parent := Relinked(ns3[n.parent], u, v)], v, n.parent), a.root))
  }

  /** The search for the successor. */
  function Leftmost(ns: seq<RbNode>, y: nat, steps: nat): Option<nat>
    decreases steps, 0
  {
    if steps == 0 || y >= |ns| then None
    else if ns[y].left == NONE then Some(y)
    else Leftmost(ns, ns[y].left, steps - 1)
  }

  /** The halves of `fix_delete` are mirror images; a side says which child `x` is. */
  datatype Side = OnLeft | OnRight

  function Other(s: Side): Side { if s.OnLeft? then OnRight else OnLeft }

  function Near(n: RbNode, s: Side): nat { if s.OnLeft? then n.left else n.right }

  function Far(n: RbNode, s: Side): nat { if s.OnLeft? then n.right else n.left }

  function Rotate(a: Arena, x: nat, s: Side): Option<Arena> { if s.OnLeft? then RotL(a, x) else RotR(a, x) }

  function Paint(a: Arena, i: nat, c: Color): Arena
    requires i < |a.ns|
  {
    Arena(WithColor(a.ns, i, c), a.root)
  }

  function PaintIf(a: Arena, i: nat, c: Color): Arena {
    if i < |a.ns| then Paint(a, i, c) else a
  }

  /** `node_color`: a missing node is black. */
  predicate IsBlack(ns: seq<RbNode>, i: nat) { i < |ns| ==> ns[i].color == Black }

  predicate InBounds(ns: seq<RbNode>, i: nat) { i == NONE || i < |ns| }

  /** A red sibling is turned above the parent first. */
  function RaiseSibling(a: Arena, p: nat, s: Side): Option<Arena>
    requires p < |a.ns|
  {
    var w := Far(a.ns[p], s);
    if w == NONE then Some(a)
    else if w >= |a.ns| then None
    else if a.ns[w].color == Red then Rotate(Paint(Paint(a, w, Black), p, Red), p, s)
    else Some(a)
  }

  /** The sibling's far child is made red, if it is not. */
  function TurnSibling(a: Arena, w: nat, s: Side): Option<Arena>
    requires w < |a.ns|
  {
    if IsBlack(a.ns, Far(a.ns[w], s))
    then Rotate(Paint(PaintIf(a, Near(a.ns[w], s), Black), w, Red), w, Other(s))
    else Some(a)
  }

  /** The last rotation. */
  function RaiseFar(a: Arena, p: nat, s: Side): Option<Arena>
    requires p < |a.ns| && Far(a.ns[p], s) < |a.ns|
  {
    var w := Far(a.ns[p], s);
    if !InBounds(a.ns, Far(a.ns[w], s)) then None
    else Rotate(PaintIf(Paint(Paint(a, w, a.ns[p].color), p, Black), Far(a.ns[w], s), Black), p, s)
  }

  /** One pass of `fix_delete` at `x`, the child of `p` on side `s`. */
  function DelRound(a: Arena, x: nat, p: nat, s: Side): Round
    requires p < |a.ns|
  {
    var a1 := RaiseSibling(a, p, s);
    if a1.None? || p >= |a1.value.ns| then Crash else
      var b := a1.value;
      var w := Far(b.ns[p], s);
      if w == NONE then Stop(b)
      else if w >= |b.ns| || !InBounds(b.ns, b.ns[w].left) || !InBounds(b.ns, b.ns[w].right) then Crash
      else if IsBlack(b.ns, b.ns[w].left) && IsBlack(b.ns, b.ns[w].right) then Climb(Paint(b, w, Red), p)
      else
        var a2 := TurnSibling(b, w, s);
        if a2.None? || p >= |a2.value.ns| then Crash
        else if Far(a2.value.ns[p], s) == NONE then Climb(a2.value, x)
        else if Far(a2.value.ns[p], s) >= |a2.value.ns| then Crash
        else
          var a3 := RaiseFar(a2.value, p, s);
          if a3.None? then Crash else Climb(a3.value, a3.value.root)
  }

  function FixDelRound(a: Arena, x: nat): Round {
    if x == a.root || x == NONE then Stop(a)
    else if x >= |a.ns| then Crash
    else if a.ns[x].color == Red || a.ns[x].parent == NONE then Stop(a)
    else if a.ns[x].parent >= |a.ns| then Crash
    else
      var p := a.ns[x].parent;
      DelRound(a, x, p, if a.ns[p].left == x then OnLeft else OnRight)
  }

  /** `fix_delete`, up to a number of passes. */
  function FixDelFrom(a: Arena, x: nat, rounds: nat): Fixed
    decreases rounds, 0
  {
    if rounds == 0 then Unfinished else
      match FixDelRound(a, x)
      case Stop(b) => if x == NONE then Done(b) else if x >= |b.ns| then Failed else Done(Paint(b, x, Black))
      case Climb(b, x') => FixDelFrom(b, x', rounds - 1)
      case Crash => Failed
  }

  /** `delete_node`. */
  function DeleteNode(a: Arena, z: nat, steps: nat): Fixed {
    if z >= |a.ns| then Failed else
      var n := a.ns[z];
      var y := if n.left == NONE || n.right == NONE then Some(z) else Leftmost(a.ns, n.right, steps);
      if y.None? || y.value >= |a.ns| then Failed else
        var x := OnlyChild(a.ns[y.value]);
        var a1 := Splice(a, y.value);
        if a1.None? || |a1.value.ns| != |a.ns| then Failed else
          var a2 := if y.value == z then a1 else Transplant(a1.value, z, y.value);
          if a2.None? then Failed
          else if a.ns[y.value].color == Black then FixDelFrom(a2.value, x, steps)
          else Done(a2.value)
  }

  lemma TurnLength(a: Arena, w: nat, s: Side)
    requires w < |a.ns|
    ensures TurnSibling(a, w, s).Some? ==> |TurnSibling(a, w, s).value.ns| == |a.ns|
  {
  }

  // ---------------------------------------------------------------- rearranging

  /** The same nodes and entries in order, well linked before and after. */
  ghost predicate Rearranged(a: Arena, t: Shape, a': Arena, t': Shape) {
    Tree(a', t') && Ids(t') == Ids(t) && InOrder(a'.ns, t') == InOrder(a.ns, t) && SameNodes(a.ns, a'.ns)
  }

  lemma RearrangedTrans(a: Arena, t: Shape, b: Arena, u: Shape, c: Arena, v: Shape)
    requires Rearranged(a, t, b, u) && Rearranged(b, u, c, v)
    ensures Rearranged(a, t, c, v)
  {
    hide Links, NoDup, InOrder, Ids;
  }

  lemma PaintKeeps(a: Arena, t: Shape, i: nat, c: Color)
    requires Tree(a, t) && i in Ids(t)
    ensures i < |a.ns| && a.ns[i].inUse && Rearranged(a, t, Paint(a, i, c), t)
  {
    IdsInArena(a.ns, t, a.root, NONE);
    RecolorLinks(a.ns, WithColor(a.ns, i, c), t, a.root, NONE);
    SameOrder(a.ns, WithColor(a.ns, i, c), t);
  }

  /** The tree rotated at `x`, which goes down to side `s`. */
  ghost function Turn(t: Shape, x: nat, s: Side): Shape {
    if s.OnLeft? then RotatedLeft(t, x) else RotatedRight(t, x)
  }

  lemma RotateKeeps(a: Arena, t: Shape, x: nat, s: Side) returns (t': Shape)
    requires Tree(a, t) && x in Ids(t) && x < |a.ns| && Far(a.ns[x], s) != NONE
    ensures Rotate(a, x, s).Some? && Rearranged(a, t, Rotate(a, x, s).value, t') && t' == Turn(t, x, s)
    ensures if s.OnLeft? then LeftRotation(a.ns, Rotate(a, x, s).value.ns, x)
            else RightRotation(a.ns, Rotate(a, x, s).value.ns, x)
  {
    hide Links, NoDup, InOrder, Ids, LeftRotation, RightRotation, RotL, RotR;
    if s.OnLeft? {
      RotLKeeps(a, t, x);
      t' := RotatedLeft(t, x);
    } else {
      RotRKeeps(a, t, x);
      t' := RotatedRight(t, x);
    }
  }

  /** What a rotation at `x` to side `s` changes of the nodes this module looks at. */
  lemma RotateLinks1(a: Arena, t: Shape, x: nat, s: Side)
    requires Tree(a, t) && x in Ids(t) && x < |a.ns| && Far(a.ns[x], s) != NONE && Rotate(a, x, s).Some?
    requires var ns' := Rotate(a, x, s).value.ns;
             if s.OnLeft? then LeftRotation(a.ns, ns', x) else RightRotation(a.ns, ns', x)
    ensures var ns', w := Rotate(a, x, s).value.ns, Far(a.ns[x], s);
            && |ns'| == |a.ns| && w < |a.ns| && w != x && Far(ns'[x], s) == Near(a.ns[w], s)
            && Near(ns'[x], s) == Near(a.ns[x], s)
            && ns'[x].color == a.ns[x].color && ns'[w].color == a.ns[w].color && Near(ns'[w], s) == x
            && forall i: nat :: i < |a.ns| ==> ns'[i].color == a.ns[i].color
  {
    SiblingsDiffer(a.ns, t, a.root, NONE, x);
    hide Rotate;
    if s.OnLeft? {
      RotationNodes(a.ns, t, a.root, x);
    } else {
      RightFamily(a, t, x);
    }
  }

  // ---------------------------------------------------------------- a pass of fix_delete

  lemma ChildrenOf(a: Arena, t: Shape, x: nat, s: Side)
    requires Tree(a, t) && x in Ids(t)
    ensures x < |a.ns| && InBounds(a.ns, a.ns[x].left) && InBounds(a.ns, a.ns[x].right)
    ensures Far(a.ns[x], s) != NONE ==> Far(a.ns[x], s) in Ids(t) && IsChild(a.ns, x, Far(a.ns[x], s))
    ensures Near(a.ns[x], s) != NONE ==> Near(a.ns[x], s) in Ids(t) && IsChild(a.ns, x, Near(a.ns[x], s))
  {
    SiblingsDiffer(a.ns, t, a.root, NONE, x);
  }

  lemma PaintIfKeeps(a: Arena, t: Shape, i: nat, c: Color)
    requires Tree(a, t) && (i != NONE ==> i in Ids(t))
    ensures Rearranged(a, t, PaintIf(a, i, c), t)
  {
    if i != NONE {
      PaintKeeps(a, t, i, c);
    } else {
      SameOrder(a.ns, a.ns, t);
    }
  }

  lemma RaiseSiblingKeeps(a: Arena, t: Shape, p: nat, s: Side) returns (t': Shape)
    requires Tree(a, t) && p in Ids(t) && p < |a.ns|
    ensures var b := RaiseSibling(a, p, s);
            && b.Some? && Rearranged(a, t, b.value, t')
            && ((b.value == a && t' == t) || b.value.ns[p].color == Red)
    ensures var w := Far(a.ns[p], s); t' == if w < |a.ns| && a.ns[w].color == Red then Turn(t, p, s) else t
  {
    hide Links, NoDup, InOrder, Ids, Rotate, LeftRotation, RightRotation, Turn;
    ChildrenOf(a, t, p, s);
    var w := Far(a.ns[p], s);
    if w < |a.ns| && a.ns[w].color == Red {
      var b, c := Paint(a, w, Black), Paint(Paint(a, w, Black), p, Red);
      PaintKeeps(a, t, w, Black);
      PaintKeeps(b, t, p, Red);
      RearrangedTrans(a, t, b, t, c, t);
      t' := RotateKeeps(c, t, p, s);
      RotateLinks1(c, t, p, s);
      RearrangedTrans(a, t, c, t, Rotate(c, p, s).value, t');
    } else {
      t' := t;
      PaintIfKeeps(a, t, NONE, Black);
    }
  }

  /** The link to `w` from above after a rotation at `w`. */
  lemma RelinkedAbove(a: Arena, t: Shape, p: nat, w: nat, s: Side)
    requires Tree(a, t) && p in Ids(t) && w in Ids(t) && IsChild(a.ns, p, w) && Far(a.ns[p], s) == w
    requires Near(a.ns[w], s) != NONE && Rotate(a, w, Other(s)).Some?
    requires var ns' := Rotate(a, w, Other(s)).value.ns;
             if s.OnLeft? then RightRotation(a.ns, ns', w) else LeftRotation(a.ns, ns', w)
    ensures var ns' := Rotate(a, w, Other(s)).value.ns;
            |ns'| == |a.ns| && Far(ns'[p], s) == Near(a.ns[w], s) && Near(a.ns[w], s) < |a.ns|
  {
    SiblingsDiffer(a.ns, t, a.root, NONE, w);
    SiblingsDiffer(a.ns, t, a.root, NONE, p);
    hide Rotate, Links, NoDup, Ids;
    if s.OnLeft? {
      RightFamily(a, t, w);
    } else {
      RotationNodes(a.ns, t, a.root, w);
    }
  }

  lemma TurnSiblingKeeps(a: Arena, t: Shape, p: nat, w: nat, s: Side) returns (t': Shape)
    requires Tree(a, t) && p in Ids(t) && w in Ids(t) && IsChild(a.ns, p, w) && Far(a.ns[p], s) == w
    requires !(IsBlack(a.ns, a.ns[w].left) && IsBlack(a.ns, a.ns[w].right))
    ensures var b := TurnSibling(a, w, s);
            b.Some? && Rearranged(a, t, b.value, t') && |b.value.ns| == |a.ns| && Far(b.value.ns[p], s) < |a.ns|
    ensures t' == if IsBlack(a.ns, Far(a.ns[w], s)) then Turn(t, w, Other(s)) else t
  {
    hide Links, NoDup, InOrder, Ids, Rotate, LeftRotation, RightRotation, SameNodes, Turn;
    ChildrenOf(a, t, w, s);
    if IsBlack(a.ns, Far(a.ns[w], s)) {
      var near := Near(a.ns[w], s);
      var b, c := Paint(a, near, Black), Paint(Paint(a, near, Black), w, Red);
      PaintKeeps(a, t, near, Black);
      PaintKeeps(b, t, w, Red);
      RearrangedTrans(a, t, b, t, c, t);
      t' := RotateKeeps(c, t, w, Other(s));
      RelinkedAbove(c, t, p, w, s);
      RearrangedTrans(a, t, c, t, Rotate(c, w, Other(s)).value, t');
    } else {
      t' := t;
      PaintIfKeeps(a, t, NONE, Black);
    }
  }

  lemma RaiseFarKeeps(a: Arena, t: Shape, p: nat, s: Side) returns (t': Shape)
    requires Tree(a, t) && p in Ids(t) && p < |a.ns| && Far(a.ns[p], s) < |a.ns|
    ensures RaiseFar(a, p, s).Some? && Rearranged(a, t, RaiseFar(a, p, s).value, t') && t' == Turn(t, p, s)
  {
    hide Links, NoDup, InOrder, Ids, Rotate, LeftRotation, RightRotation, Turn;
    ChildrenOf(a, t, p, s);
    var w := Far(a.ns[p], s);
    ChildrenOf(a, t, w, s);
    var b := Paint(a, w, a.ns[p].color);
    PaintKeeps(a, t, w, a.ns[p].color);
    var c := Paint(b, p, Black);
    PaintKeeps(b, t, p, Black);
    RearrangedTrans(a, t, b, t, c, t);
    var d := PaintIf(c, Far(a.ns[w], s), Black);
    PaintIfKeeps(c, t, Far(a.ns[w], s), Black);
    RearrangedTrans(a, t, c, t, d, t);
    assert Far(d.ns[p], s) == w;
    t' := RotateKeeps(d, t, p, s);
    RearrangedTrans(a, t, d, t, Rotate(d, p, s).value, t');
  }

  /** A pass does not fail. It ends at the root, or goes on from the parent: with the parent red, or with nothing but
    * colours changed. */
  lemma DelRoundKeeps(a: Arena, t: Shape, x: nat, p: nat, s: Side) returns (t': Shape)
    requires Tree(a, t) && p in Ids(t) && p < |a.ns|
    ensures var r := DelRound(a, x, p, s);
            && !r.Crash? && Rearranged(a, t, r.a, t')
            && (r.Climb? && r.node != r.a.root ==>
                  r.node == p && p < |r.a.ns|
                  && (r.a.ns[p].color == Red || (t' == t && r.a.root == a.root && Recolored(a.ns, r.a.ns))))
  {
    hide Links, NoDup, InOrder, Ids, Rotate, RaiseSibling, TurnSibling, RaiseFar, Turn, SameNodes;
    var t1 := RaiseSiblingKeeps(a, t, p, s);
    var b := RaiseSibling(a, p, s).value;
    ChildrenOf(b, t1, p, s);
    var w := Far(b.ns[p], s);
    t' := t1;
    if w != NONE {
      ChildrenOf(b, t1, w, s);
      if IsBlack(b.ns, b.ns[w].left) && IsBlack(b.ns, b.ns[w].right) {
        PaintKeeps(b, t1, w, Red);
        RearrangedTrans(a, t, b, t1, Paint(b, w, Red), t1);
      } else {
        var t2 := TurnSiblingKeeps(b, t1, p, w, s);
        var c := TurnSibling(b, w, s).value;
        t' := RaiseFarKeeps(c, t2, p, s);
        RearrangedTrans(a, t, b, t1, c, t2);
        RearrangedTrans(a, t, c, t2, RaiseFar(c, p, s).value, t');
      }
    }
  }

  // ---------------------------------------------------------------- fix_delete

  lemma StopKeeps(a: Arena, t: Shape, x: nat, rounds: nat)
    requires Tree(a, t) && (x != NONE ==> x in Ids(t)) && FixDelRound(a, x) == Stop(a) && rounds > 0
    ensures FixDelFrom(a, x, rounds).Done? && Rearranged(a, t, FixDelFrom(a, x, rounds).a, t)
  {
    hide FixDelRound;
    if x != NONE {
      PaintKeeps(a, t, x, Black);
    } else {
      PaintIfKeeps(a, t, NONE, Black);
    }
  }

  /** `fix_delete` on a well-linked tree ends within its depth, indexes nothing out of bounds, and keeps entries, order
    * and links. */
  lemma {:induction false} FixDelKeeps(a: Arena, t: Shape, path: seq<nat>, rounds: nat) returns (t': Shape)
    requires Tree(a, t) && PathTo(a, t, path) && rounds > |path|
    ensures var r := FixDelFrom(a, path[|path| - 1], rounds); r.Done? && Rearranged(a, t, r.a, t')
    decreases |path|
  {
    hide Links, NoDup, InOrder, Ids, DelRound;
    var n, x := |path| - 1, path[|path| - 1];
    if n > 0 {
      assert ChildAt(a.ns, path, n);
    }
    if n == 0 || a.ns[x].color == Red {
      StopKeeps(a, t, x, rounds);
      t' := t;
    } else {
      var p := path[n - 1];
      var s := if a.ns[p].left == x then OnLeft else OnRight;
      var t1 := DelRoundKeeps(a, t, x, p, s);
      var r := DelRound(a, x, p, s);
      assert x != a.root && FixDelRound(a, x) == r;
      if r.Stop? {
        PaintKeeps(r.a, t1, x, Black);
        RearrangedTrans(a, t, r.a, t1, Paint(r.a, x, Black), t1);
        t' := t1;
      } else if r.node == r.a.root || r.a.ns[p].color == Red {
        HasRoot(r.a, t1, x);
        StopKeeps(r.a, t1, r.node, rounds - 1);
        RearrangedTrans(a, t, r.a, t1, FixDelFrom(r.a, r.node, rounds - 1).a, t1);
        t' := t1;
      } else {
        PathPrefix(a, t, r.a.ns, path, n);
        t' := FixDelKeeps(r.a, t, path[..n], rounds - 1);
        RearrangedTrans(a, t, r.a, t, FixDelFrom(r.a, p, rounds - 1).a, t');
      }
    }
  }

  lemma HasRoot(a: Arena, t: Shape, x: nat)
    requires Tree(a, t) && x in Ids(t)
    ensures a.root in Ids(t) && a.root != NONE
  {
  }

  // ---------------------------------------------------------------- replacing a subtree

  /** The subtree at node `z`. */
  ghost function SubAt(t: Shape, z: nat): Shape {
    match t
    case Leaf => Leaf
    case Fork(l, id, r) => if id == z then t else if z in Ids(l) then SubAt(l, z) else SubAt(r, z)
  }

  /** The tree with `s` in place of the subtree at `z`. */
  ghost function Grafted(t: Shape, z: nat, s: Shape): Shape {
    match t
    case Leaf => Leaf
    case Fork(l, id, r) =>
      if id == z then s else if z in Ids(l) then Fork(Grafted(l, z, s), id, r) else Fork(l, id, Grafted(r, z, s))
  }

  lemma {:induction false} SubAtLinks(ns: seq<RbNode>, t: Shape, at: nat, parent: nat, z: nat)
    requires Links(ns, t, at, parent) && NoDup(t) && z in Ids(t) && parent !in Ids(t)
    ensures var sub := SubAt(t, z);
            && sub.Fork? && sub.id == z && Ids(sub) <= Ids(t) && NoDup(sub) && z < |ns|
            && Links(ns, sub, z, ns[z].parent) && ns[z].parent !in Ids(sub)
    ensures at == z ==> SubAt(t, z) == t && ns[z].parent == parent
    ensures at != z ==> ns[z].parent in Ids(t)
    decreases t
  {
    if t.id != z {
      if z in Ids(t.left) {
        SubAtLinks(ns, t.left, ns[t.id].left, t.id, z);
      } else {
        SubAtLinks(ns, t.right, ns[t.id].right, t.id, z);
      }
    }
  }

  /** The link from above leads to the new subtree, and nothing else outside changed. */
  ghost predicate Graft(ns: seq<RbNode>, ns': seq<RbNode>, t: Shape, z: nat, s: Shape, at: nat)
    requires z < |ns|
  {
    var p := ns[z].parent;
    && |ns'| == |ns| && Links(ns', s, at, p)
    && (p < |ns| ==> ns'[p] == Relinked(ns[p], z, at))
    && forall i: nat :: i in Ids(t) && i !in Ids(SubAt(t, z)) && i != p && i < |ns| ==> ns'[i] == ns[i]
  }

  lemma {:induction false} GraftLinks(ns: seq<RbNode>, ns': seq<RbNode>, t: Shape, at: nat, parent: nat, z: nat,
                                      s: Shape, sAt: nat)
    requires Links(ns, t, at, parent) && NoDup(t) && z in Ids(t) && parent !in Ids(t) && |ns| <= NONE && z < |ns|
    requires Graft(ns, ns', t, z, s, sAt)
    ensures Links(ns', Grafted(t, z, s), if at == z then sAt else at, parent)
    decreases t
  {
    SubAtLinks(ns, t, at, parent, z);
    if t.id != z {
      var id, inLeft := t.id, z in Ids(t.left);
      var sub, subAt := if inLeft then t.left else t.right, if inLeft then ns[id].left else ns[id].right;
      var other, otherAt := if inLeft then t.right else t.left, if inLeft then ns[id].right else ns[id].left;
      SubAtLinks(ns, sub, subAt, id, z);
      IdsInArena(ns, t, at, parent);
      assert SubAt(t, z) == SubAt(sub, z);
      GraftLinks(ns, ns', sub, subAt, id, z, s, sAt);
      LinksFrame(ns, ns', other, otherAt, id);
      assert otherAt != z by {
        assert other.Fork? ==> other.id in Ids(other);
      }
    }
  }

  lemma {:induction false} GraftedIds(t: Shape, z: nat, s: Shape)
    requires NoDup(t) && z in Ids(t) && NoDup(s) && Ids(s) <= Ids(SubAt(t, z))
    ensures Ids(Grafted(t, z, s)) == Ids(t) - Ids(SubAt(t, z)) + Ids(s) && NoDup(Grafted(t, z, s))
    ensures Ids(SubAt(t, z)) <= Ids(t)
  {
    if t.id != z {
      var inLeft := z in Ids(t.left);
      var sub, other := if inLeft then t.left else t.right, if inLeft then t.right else t.left;
      var u := Grafted(sub, z, s);
      assert SubAt(t, z) == SubAt(sub, z)
             && Grafted(t, z, s) == if inLeft then Fork(u, t.id, other) else Fork(other, t.id, u);
      assert Ids(t) == Ids(sub) + {t.id} + Ids(other) && t.id !in Ids(sub) && Ids(sub) !! Ids(other);
      assert Ids(Grafted(t, z, s)) == Ids(u) + {t.id} + Ids(other);
      GraftedIds(sub, z, s);
      hide Ids, SubAt, Grafted;
    }
  }

  /** The entries before and behind the subtree at `z`. */
  ghost function Ahead(ns: seq<RbNode>, t: Shape, z: nat): seq<Entry> {
    match t
    case Leaf => []
    case Fork(l, id, r) =>
      if id == z then []
      else if z in Ids(l) then Ahead(ns, l, z)
      else InOrder(ns, l) + [EntryOf(ns, id)] + Ahead(ns, r, z)
  }

  ghost function Behind(ns: seq<RbNode>, t: Shape, z: nat): seq<Entry> {
    match t
    case Leaf => []
    case Fork(l, id, r) =>
      if id == z then [] else if z in Ids(l) then Behind(ns, l, z) + [EntryOf(ns, id)] + InOrder(ns, r)
      else Behind(ns, r, z)
  }

  lemma {:induction false} GraftedInOrder(ns: seq<RbNode>, t: Shape, z: nat, s: Shape)
    requires z in Ids(t)
    ensures InOrder(ns, Grafted(t, z, s)) == Ahead(ns, t, z) + InOrder(ns, s) + Behind(ns, t, z)
  {
    if t.id == z {
      assert [] + InOrder(ns, s) + [] == InOrder(ns, s);
    } else if z in Ids(t.left) {
      var e, r, u := EntryOf(ns, t.id), InOrder(ns, t.right), Grafted(t.left, z, s);
      assert InOrder(ns, Grafted(t, z, s)) == InOrder(ns, u) + [e] + r;
      assert Ahead(ns, t, z) == Ahead(ns, t.left, z) && Behind(ns, t, z) == Behind(ns, t.left, z) + [e] + r;
      GraftedInOrder(ns, t.left, z, s);
      hide InOrder, Ahead, Behind, Ids;
      Shift(Ahead(ns, t.left, z), InOrder(ns, s), Behind(ns, t.left, z), e, r);
    } else {
      var e, l, u := EntryOf(ns, t.id), InOrder(ns, t.left), Grafted(t.right, z, s);
      assert InOrder(ns, Grafted(t, z, s)) == l + [e] + InOrder(ns, u);
      assert Ahead(ns, t, z) == l + [e] + Ahead(ns, t.right, z) && Behind(ns, t, z) == Behind(ns, t.right, z);
      GraftedInOrder(ns, t.right, z, s);
      hide InOrder, Ahead, Behind, Ids;
      ShiftBack(l, e, Ahead(ns, t.right, z), InOrder(ns, s), Behind(ns, t.right, z));
    }
  }

  lemma Shift(a: seq<Entry>, m: seq<Entry>, b: seq<Entry>, e: Entry, r: seq<Entry>)
    ensures (a + m + b) + [e] + r == a + m + (b + [e] + r)
  {
  }

  lemma ShiftBack(l: seq<Entry>, e: Entry, a: seq<Entry>, m: seq<Entry>, b: seq<Entry>)
    ensures l + [e] + (a + m + b) == (l + [e] + a) + m + b
  {
  }

  lemma {:induction false} GraftItself(t: Shape, z: nat)
    requires z in Ids(t)
    ensures Grafted(t, z, SubAt(t, z)) == t
  {
    if t.id != z {
      GraftItself(if z in Ids(t.left) then t.left else t.right, z);
    }
  }

  // ---------------------------------------------------------------- what is left of a subtree

  ghost predicate TwoChildren(t: Shape, z: nat) {
    var sub := SubAt(t, z);
    sub.Fork? && sub.left.Fork? && sub.right.Fork?
  }

  /** The subtree of the leftmost node. */
  ghost function First(t: Shape): Shape
    requires t.Fork?
    ensures First(t).Fork? && First(t).left.Leaf?
  {
    if t.left.Leaf? then t else First(t.left)
  }

  /** What the code puts in place of the subtree at a removed node. */
  ghost function Remains(sub: Shape): Shape
    requires sub.Fork?
  {
    if sub.left.Leaf? then sub.right
    else if sub.right.Leaf? then sub.left
    else Fork(Leaf, First(sub.right).id, First(sub.right).right)
  }

  ghost function AfterDelete(t: Shape, z: nat): Shape
    requires SubAt(t, z).Fork?
  {
    Grafted(t, z, Remains(SubAt(t, z)))
  }

  lemma {:induction false} FirstInside(t: Shape)
    requires t.Fork? && NoDup(t)
    ensures Ids(First(t)) <= Ids(t) && NoDup(First(t)) && SubAt(t, First(t).id) == First(t) && First(t).id in Ids(t)
    decreases t
  {
    if t.left.Fork? {
      FirstInside(t.left);
    }
  }

  lemma RemainsInside(sub: Shape)
    requires sub.Fork? && NoDup(sub)
    ensures NoDup(Remains(sub)) && Ids(Remains(sub)) <= Ids(sub) - {sub.id}
  {
    if sub.right.Fork? {
      FirstInside(sub.right);
      assert Ids(First(sub.right)) == Ids(First(sub.right).left) + {First(sub.right).id} + Ids(First(sub.right).right);
    }
  }

  // ---------------------------------------------------------------- a whole deletion

  /** Where the remains begin. */
  ghost function RemainsAt(ns: seq<RbNode>, z: nat, sub: Shape): nat
    requires z < |ns| && sub.Fork?
  {
    if sub.left.Fork? && sub.right.Fork? then First(sub.right).id else OnlyChild(ns[z])
  }

  ghost predicate Grafts(a: Arena, t: Shape, z: nat, b: Arena)
    requires z < |a.ns| && SubAt(t, z).Fork?
  {
    var at := RemainsAt(a.ns, z, SubAt(t, z));
    && Graft(a.ns, b.ns, t, z, Remains(SubAt(t, z)), at) && SameNodes(a.ns, b.ns)
    && b.root == if a.root == z then at else a.root
  }

  ghost predicate Inner(ns: seq<RbNode>, i: nat) { i == NONE || (i < |ns| && ns[i].inUse) }

  /** What taking out node `y` writes. */
  lemma SpliceEffect(a: Arena, y: nat)
    requires y < |a.ns| <= NONE && a.ns[y].inUse && a.ns[y].parent != y && OnlyChild(a.ns[y]) != y
    requires Inner(a.ns, OnlyChild(a.ns[y])) && Inner(a.ns, a.ns[y].parent)
    requires OnlyChild(a.ns[y]) != NONE ==> OnlyChild(a.ns[y]) != a.ns[y].parent
    ensures Splice(a, y).Some?
    ensures var b, x, p := Splice(a, y).value, OnlyChild(a.ns[y]), a.ns[y].parent;
            && |b.ns| == |a.ns| && SameNodes(a.ns, b.ns) && b.root == (if p == NONE then x else a.root)
            && (x != NONE ==> b.ns[x] == a.ns[x].(parent := p)) && (p != NONE ==> b.ns[p] == Relinked(a.ns[p], y, x))
            && forall i: nat :: i < |a.ns| && i != x && i != p ==> b.ns[i] == a.ns[i]
  {
  }

  /** Taking out a node with at most one child puts that child's subtree in its place. */
  lemma SpliceGrafts(a: Arena, t: Shape, z: nat)
    requires Tree(a, t) && z in Ids(t) && !TwoChildren(t, z)
    ensures z < |a.ns| && SubAt(t, z).Fork? && Splice(a, z).Some? && Grafts(a, t, z, Splice(a, z).value)
  {
    IdsInArena(a.ns, t, a.root, NONE);
    SubAtLinks(a.ns, t, a.root, NONE, z);
    var ns, sub, x := a.ns, SubAt(t, z), OnlyChild(a.ns[z]);
    var rem, p := Remains(sub), ns[z].parent;
    assert Links(ns, rem, x, z) && (rem.Fork? ==> rem.id in Ids(rem) && x == rem.id);
    RemainsInside(sub);
    hide SubAt, Remains, NoDup, Splice;
    SpliceEffect(a, z);
    var b := Splice(a, z).value;
    hide OnlyChild;
    Rehang(ns, b.ns, rem, x, z, p);
  }

  lemma LeftIsSmaller(t: Shape)
    requires t.Fork? && NoDup(t)
    ensures |Ids(t.left)| < |Ids(t)|
  {
    assert t.id in Ids(t) && t.id !in Ids(t.left) && Ids(t.left) <= Ids(t);
    hide Ids, NoDup;
    Fewer(Ids(t.left), Ids(t), t.id);
  }

  lemma Fewer(a: set<nat>, b: set<nat>, x: nat)
    requires a <= b && x in b && x !in a
    ensures |a| < |b|
  {
    assert b == a + (b - a) && x in b - a;
  }

  lemma {:induction false} LeftmostEnds(ns: seq<RbNode>, t: Shape, at: nat, parent: nat, steps: nat)
    requires Links(ns, t, at, parent) && NoDup(t) && t.Fork? && steps >= |Ids(t)|
    ensures Leftmost(ns, at, steps) == Some(First(t).id)
    decreases t
  {
    LeftIsSmaller(t);
    hide Ids;
    if t.left.Fork? {
      LeftmostEnds(ns, t.left, ns[t.id].left, t.id, steps - 1);
    }
  }

  lemma {:induction false} SmallNumbers(s: set<nat>, n: nat)
    requires forall i: nat :: i in s ==> i < n
    ensures |s| <= n
  {
    if n == 0 {
      assert s == {};
    } else {
      var rest := s - {n - 1};
      SmallNumbers(rest, n - 1);
      assert s == rest || s == rest + {n - 1};
    }
  }

  /** Where the successor is. */
  lemma Successor(a: Arena, t: Shape, z: nat)
    requires Tree(a, t) && z in Ids(t) && TwoChildren(t, z)
    ensures var sub := SubAt(t, z); var first := First(sub.right); var y := first.id;
            && z < |a.ns| && Links(a.ns, sub, z, a.ns[z].parent) && NoDup(sub) && a.ns[z].parent !in Ids(sub)
            && Ids(sub) <= Ids(t) && y in Ids(sub.right) && y < |a.ns| && sub.id == z
            && Links(a.ns, first, y, a.ns[y].parent) && NoDup(first) && Ids(first) <= Ids(sub.right)
            && a.ns[y].parent !in Ids(first) && a.ns[y].parent in Ids(sub)
  {
    IdsInArena(a.ns, t, a.root, NONE);
    SubAtLinks(a.ns, t, a.root, NONE, z);
    var sub := SubAt(t, z);
    assert z !in Ids(sub.right) && Links(a.ns, sub.right, a.ns[z].right, z);
    FirstInside(sub.right);
    SubAtLinks(a.ns, sub.right, a.ns[z].right, z, First(sub.right).id);
  }

  /** What putting `v`, which has no left child, in place of `u` writes. */
  lemma TransplantEffect(a: Arena, u: nat, v: nat)
    requires u < |a.ns| <= NONE && v < |a.ns| && u != v && a.ns[u].inUse && a.ns[v].inUse && a.ns[v].left == NONE
    requires Inner(a.ns, a.ns[v].right) && Inner(a.ns, a.ns[u].parent) && a.ns[v].right != v && a.ns[v].right != u
    requires a.ns[u].parent != u && a.ns[u].parent != v
    requires a.ns[v].right != NONE ==> a.ns[v].right != a.ns[u].parent
    ensures Transplant(a, u, v).Some?
    ensures var b, x, p := Transplant(a, u, v).value, a.ns[v].right, a.ns[u].parent;
            && |b.ns| == |a.ns| && SameNodes(a.ns, b.ns) && b.root == (if p == NONE then v else a.root)
            && b.ns[v] == a.ns[v].(parent := p) && (x != NONE ==> b.ns[x] == a.ns[x].(parent := v))
            && (p != NONE ==> b.ns[p] == Relinked(a.ns[p], u, v))
            && forall i: nat :: i < |a.ns| && i != v && i != x && i != p ==> b.ns[i] == a.ns[i]
  {
  }

  /** The successor's surroundings: who is who. */
  lemma SuccessorFamily(a: Arena, t: Shape, z: nat)
    requires Tree(a, t) && z in Ids(t) && TwoChildren(t, z)
    ensures var sub := SubAt(t, z); var first := First(sub.right); var y := first.id;
            && z < |a.ns| && y < |a.ns| && a.ns[z].inUse && a.ns[y].inUse && a.ns[y].left == NONE
            && var x, q, p := a.ns[y].right, a.ns[y].parent, a.ns[z].parent;
            && Inner(a.ns, x) && q < |a.ns| && a.ns[q].inUse && Inner(a.ns, p) && Links(a.ns, first.right, x, y)
            && y != z && x != y && x != z && x != q && q != y && p != y && p != z && p != q && (x != NONE ==> x != p)
            && (x != NONE ==> x in Ids(first.right)) && q !in Ids(first.right) && p !in Ids(sub) && q in Ids(sub)
            && y !in Ids(first.right) && z !in Ids(first.right) && Ids(first.right) <= Ids(sub) && y in Ids(sub)
  {
    Successor(a, t, z);
    IdsInArena(a.ns, t, a.root, NONE);
    ParentInTree(a.ns, t, a.root, NONE, z);
    var sub := SubAt(t, z);
    var first := First(sub.right);
    hide SubAt, First;
    assert Ids(first) == Ids(first.left) + {first.id} + Ids(first.right);
    assert first.right.Fork? ==> first.right.id in Ids(first.right);
  }

  /** Splice and transplant together: node `y`, without a left child, moves to the place of `z`. */
  lemma MovesUp(a: Arena, z: nat, y: nat)
    requires z < |a.ns| <= NONE && y < |a.ns| && y != z && a.ns[z].inUse && a.ns[y].inUse && a.ns[y].left == NONE
    requires var x, q, p := a.ns[y].right, a.ns[y].parent, a.ns[z].parent;
             && Inner(a.ns, x) && q < |a.ns| && a.ns[q].inUse && Inner(a.ns, p) && (x != NONE ==> a.ns[x].parent == y)
             && x != y && x != z && x != q && q != y && p != y && p != z && p != q && (x != NONE ==> x != p)
    ensures Splice(a, y).Some? && |Splice(a, y).value.ns| == |a.ns| && Transplant(Splice(a, y).value, z, y).Some?
    ensures var b, q, p := Transplant(Splice(a, y).value, z, y).value, a.ns[y].parent, a.ns[z].parent;
            && SameNodes(a.ns, b.ns) && b.root == (if p == NONE then y else a.root)
            && b.ns[y] == a.ns[y].(parent := p) && (p != NONE ==> b.ns[p] == Relinked(a.ns[p], z, y))
            && forall i: nat :: i < |a.ns| && i != y && i != q && i != p ==> b.ns[i] == a.ns[i]
  {
    assert OnlyChild(a.ns[y]) == a.ns[y].right;
    SpliceEffect(a, y);
    var c := Splice(a, y).value;
    TransplantEffect(c, z, y);
    hide Splice, Transplant, OnlyChild;
  }

  /** Taking out the successor and putting it in place of a node with two children. */
  lemma TransplantGrafts(a: Arena, t: Shape, z: nat)
    requires Tree(a, t) && z in Ids(t) && TwoChildren(t, z)
    ensures var y := First(SubAt(t, z).right).id;
            && z < |a.ns| && y < |a.ns| && y != z && Splice(a, y).Some? && |Splice(a, y).value.ns| == |a.ns|
            && var b := Transplant(Splice(a, y).value, z, y); b.Some? && Grafts(a, t, z, b.value)
  {
    SuccessorFamily(a, t, z);
    SubAtRoot(a, t, z);
    var ns, sub := a.ns, SubAt(t, z);
    var first, p := First(sub.right), ns[z].parent;
    var y, x, q, rest := first.id, ns[first.id].right, ns[first.id].parent, first.right;
    assert Remains(sub) == Fork(Leaf, y, rest) && RemainsAt(ns, z, sub) == y && OnlyChild(ns[y]) == x;
    assert x != NONE ==> ns[x].parent == y && ns[x].inUse;
    hide SubAt, Remains, First, Links, NoDup, Splice, Transplant, RemainsAt, OnlyChild, Relinked, Inner;
    MovesUp(a, z, y);
    hide Ids;
    var b := Transplant(Splice(a, y).value, z, y).value;
    LinksFrame(ns, b.ns, rest, x, y);
    GraftsOne(a, t, z, b, y, rest);
  }

  lemma SubAtRoot(a: Arena, t: Shape, z: nat)
    requires Tree(a, t) && z in Ids(t)
    ensures z < |a.ns| && (a.ns[z].parent == NONE <==> a.root == z) && SubAt(t, z).Fork?
  {
    IdsInArena(a.ns, t, a.root, NONE);
    SubAtLinks(a.ns, t, a.root, NONE, z);
  }

  lemma SubAtIs(a: Arena, t: Shape, z: nat)
    requires Tree(a, t) && z in Ids(t)
    ensures SubAt(t, z).Fork? && SubAt(t, z).id == z
  {
    IdsInArena(a.ns, t, a.root, NONE);
    SubAtLinks(a.ns, t, a.root, NONE, z);
  }

  lemma GraftsOne(a: Arena, t: Shape, z: nat, b: Arena, y: nat, rest: Shape)
    requires z < |a.ns| <= NONE && SubAt(t, z).Fork? && Remains(SubAt(t, z)) == Fork(Leaf, y, rest)
    requires RemainsAt(a.ns, z, SubAt(t, z)) == y && SameNodes(a.ns, b.ns) && y < |a.ns| && b.ns[y].inUse
    requires b.ns[y].parent == a.ns[z].parent && b.ns[y].left == NONE && Links(b.ns, rest, b.ns[y].right, y)
    requires a.ns[z].parent != NONE ==> a.ns[z].parent < |a.ns|
    requires a.ns[z].parent < |a.ns| ==> b.ns[a.ns[z].parent] == Relinked(a.ns[a.ns[z].parent], z, y)
    requires forall i: nat :: i < |a.ns| && i !in Ids(SubAt(t, z)) && i != a.ns[z].parent ==> b.ns[i] == a.ns[i]
    requires b.root == if a.root == z then y else a.root
    ensures Grafts(a, t, z, b)
  {
    assert Links(b.ns, Fork(Leaf, y, rest), y, a.ns[z].parent);
    hide SubAt, Remains, RemainsAt, Ids, Links;
  }

  lemma GraftTree(a: Arena, t: Shape, z: nat, b: Arena)
    requires Tree(a, t) && z in Ids(t) && z < |a.ns| && SubAt(t, z).Fork? && Grafts(a, t, z, b)
    ensures var u := AfterDelete(t, z);
            Tree(b, u) && Ids(u) == Ids(t) - Ids(SubAt(t, z)) + Ids(Remains(SubAt(t, z)))
            && z !in Ids(u) && Ids(u) <= Ids(t) && InOrder(b.ns, u) == InOrder(a.ns, u)
  {
    var sub := SubAt(t, z);
    IdsInArena(a.ns, t, a.root, NONE);
    SubAtLinks(a.ns, t, a.root, NONE, z);
    RemainsInside(sub);
    hide Links, NoDup, Remains, Graft, SubAt, Grafted;
    GraftLinks(a.ns, b.ns, t, a.root, NONE, z, Remains(sub), RemainsAt(a.ns, z, sub));
    GraftedIds(t, z, Remains(sub));
    SameOrder(a.ns, b.ns, AfterDelete(t, z));
  }

  /** The node whose colour decides on rebalancing, and the child that goes up. */
  ghost function Gone(t: Shape, z: nat): nat
    requires SubAt(t, z).Fork?
  {
    if TwoChildren(t, z) then First(SubAt(t, z).right).id else z
  }

  lemma ChildStays(a: Arena, t: Shape, z: nat)
    requires Tree(a, t) && z in Ids(t)
    ensures z < |a.ns| && SubAt(t, z).Fork? && Gone(t, z) < |a.ns|
    ensures var x := OnlyChild(a.ns[Gone(t, z)]); x == NONE || x in Ids(Remains(SubAt(t, z)))
  {
    IdsInArena(a.ns, t, a.root, NONE);
    SubAtLinks(a.ns, t, a.root, NONE, z);
    var sub := SubAt(t, z);
    if TwoChildren(t, z) {
      SuccessorFamily(a, t, z);
    } else {
      hide SubAt;
      assert sub.left.Fork? ==> sub.left.id in Ids(sub.left);
      assert sub.right.Fork? ==> sub.right.id in Ids(sub.right);
    }
  }

  lemma FixDelWhole(b: Arena, u: Shape, x: nat, steps: nat) returns (t': Shape)
    requires Tree(b, u) && (x == NONE || x in Ids(u)) && steps > |b.ns|
    ensures FixDelFrom(b, x, steps).Done? && Rearranged(b, u, FixDelFrom(b, x, steps).a, t')
  {
    hide Links, NoDup, InOrder;
    if x == NONE {
      StopKeeps(b, u, x, steps);
      t' := u;
    } else {
      PathInTree(b, u, x);
      var path := PathOf(u, x);
      DistinctCount(path, |b.ns|);
      t' := FixDelKeeps(b, u, path, steps);
    }
  }

  /** The code up to rebalancing, for a node with two children. */
  lemma CutOutTwo(a: Arena, t: Shape, z: nat, steps: nat) returns (b: Arena)
    requires Tree(a, t) && z in Ids(t) && steps > |a.ns| && TwoChildren(t, z)
    ensures SubAt(t, z).Fork? && z < |a.ns| && Gone(t, z) < |a.ns| && Grafts(a, t, z, b)
    ensures var a1 := Splice(a, Gone(t, z));
            a1.Some? && |a1.value.ns| == |a.ns| && Transplant(a1.value, z, Gone(t, z)) == Some(b)
    ensures DeleteNode(a, z, steps) == if a.ns[Gone(t, z)].color == Black
                                       then FixDelFrom(b, OnlyChild(a.ns[Gone(t, z)]), steps) else Done(b)
  {
    IdsInArena(a.ns, t, a.root, NONE);
    SubAtLinks(a.ns, t, a.root, NONE, z);
    var sub, y := SubAt(t, z), Gone(t, z);
    assert Links(a.ns, sub.right, a.ns[z].right, z) && NoDup(sub.right);
    assert a.ns[z].left != NONE && a.ns[z].right != NONE;
    hide Links, NoDup, Splice, Transplant, Grafts, SubAt, FixDelFrom, OnlyChild, Leftmost;
    TransplantGrafts(a, t, z);
    SmallNumbers(Ids(t), |a.ns|);
    RightFits(sub, Ids(t));
    hide Ids, First;
    LeftmostEnds(a.ns, sub.right, a.ns[z].right, z, steps);
    b := Transplant(Splice(a, y).value, z, y).value;
    hide DeleteNode;
    DeletesTwo(a, z, y, steps);
  }

  lemma DeletesTwo(a: Arena, z: nat, y: nat, steps: nat)
    requires z < |a.ns| && a.ns[z].left != NONE && a.ns[z].right != NONE && y < |a.ns| && y != z
    requires Leftmost(a.ns, a.ns[z].right, steps) == Some(y)
    requires Splice(a, y).Some? && |Splice(a, y).value.ns| == |a.ns| && Transplant(Splice(a, y).value, z, y).Some?
    ensures var b := Transplant(Splice(a, y).value, z, y).value;
            DeleteNode(a, z, steps)
            == if a.ns[y].color == Black then FixDelFrom(b, OnlyChild(a.ns[y]), steps) else Done(b)
  {
    hide Leftmost, Splice, Transplant, FixDelFrom, OnlyChild;
  }

  lemma CutOutOne(a: Arena, t: Shape, z: nat, steps: nat) returns (b: Arena)
    requires Tree(a, t) && z in Ids(t) && steps > |a.ns| && !TwoChildren(t, z)
    ensures SubAt(t, z).Fork? && z < |a.ns| && Gone(t, z) == z && Grafts(a, t, z, b) && Splice(a, z) == Some(b)
    ensures DeleteNode(a, z, steps)
            == if a.ns[z].color == Black then FixDelFrom(b, OnlyChild(a.ns[z]), steps) else Done(b)
  {
    IdsInArena(a.ns, t, a.root, NONE);
    SubAtLinks(a.ns, t, a.root, NONE, z);
    assert a.ns[z].left == NONE || a.ns[z].right == NONE;
    hide Links, NoDup, Splice, Transplant, Graft, SubAt, FixDelFrom, OnlyChild, Leftmost, Ids;
    SpliceGrafts(a, t, z);
    b := Splice(a, z).value;
  }

  /** The tree before rebalancing. */
  lemma CutOut(a: Arena, t: Shape, z: nat, steps: nat) returns (b: Arena)
    requires Tree(a, t) && z in Ids(t) && steps > |a.ns|
    ensures SubAt(t, z).Fork? && z < |a.ns| && Gone(t, z) < |a.ns| && Grafts(a, t, z, b)
    ensures DeleteNode(a, z, steps) == if a.ns[Gone(t, z)].color == Black
                                       then FixDelFrom(b, OnlyChild(a.ns[Gone(t, z)]), steps) else Done(b)
  {
    hide TwoChildren, DeleteNode;
    if TwoChildren(t, z) {
      b := CutOutTwo(a, t, z, steps);
    } else {
      b := CutOutOne(a, t, z, steps);
    }
  }

  lemma RightFits(sub: Shape, ids: set<nat>)
    requires sub.Fork? && Ids(sub) <= ids
    ensures |Ids(sub.right)| <= |ids|
  {
    assert Ids(sub.right) <= ids;
    hide Ids;
    assert ids == Ids(sub.right) + (ids - Ids(sub.right));
  }

  /** Deleting any node of a well-linked tree ends without an index out of bounds and leaves a well-linked tree with the
    * entries of `AfterDelete`. */
  lemma WholeDelete(a: Arena, t: Shape, z: nat, steps: nat) returns (t': Shape)
    requires Tree(a, t) && z in Ids(t) && steps > |a.ns|
    ensures DeleteNode(a, z, steps).Done? && SubAt(t, z).Fork?
    ensures var a' := DeleteNode(a, z, steps).a;
            && Tree(a', t') && SameNodes(a.ns, a'.ns) && Ids(t') == Ids(AfterDelete(t, z)) && z !in Ids(t')
            && Ids(t') <= Ids(t) && InOrder(a'.ns, t') == InOrder(a.ns, AfterDelete(t, z))
  {
    var b := CutOut(a, t, z, steps);
    GraftTree(a, t, z, b);
    ChildStays(a, t, z);
    var x := OnlyChild(a.ns[Gone(t, z)]);
    hide Links, NoDup, InOrder, DeleteNode, FixDelFrom, Graft, AfterDelete, SubAt;
    if a.ns[Gone(t, z)].color == Black {
      t' := FixDelWhole(b, AfterDelete(t, z), x, steps);
    } else {
      t' := AfterDelete(t, z);
    }
  }

  // ---------------------------------------------------------------- what is lost

  /** The entries in order without that of node `z`. */
  ghost function InOrderBut(ns: seq<RbNode>, t: Shape, z: nat): seq<Entry>
    requires SubAt(t, z).Fork?
  {
    var sub := SubAt(t, z);
    Ahead(ns, t, z) + (InOrder(ns, sub.left) + InOrder(ns, sub.right)) + Behind(ns, t, z)
  }

  lemma ButIsRemove(ns: seq<RbNode>, t: Shape, z: nat)
    requires z in Ids(t) && SubAt(t, z).Fork? && SubAt(t, z).id == z && Distinct(InOrder(ns, t))
    ensures InOrderBut(ns, t, z) == Remove(InOrder(ns, t), EntryOf(ns, z).tid)
    ensures |InOrderBut(ns, t, z)| == |InOrder(ns, t)| - 1
  {
    GraftItself(t, z);
    GraftedInOrder(ns, t, z, SubAt(t, z));
    var sub, e := SubAt(t, z), EntryOf(ns, z);
    var pre, l, r, post := Ahead(ns, t, z), InOrder(ns, sub.left), InOrder(ns, sub.right), Behind(ns, t, z);
    assert InOrder(ns, sub) == l + [e] + r;
    hide InOrder, Ahead, Behind, SubAt, Remove, Distinct;
    DropMiddle(pre, l, e, r, post);
  }

  lemma DropMiddle(pre: seq<Entry>, l: seq<Entry>, e: Entry, r: seq<Entry>, post: seq<Entry>)
    requires Distinct(pre + (l + [e] + r) + post)
    ensures Remove(pre + (l + [e] + r) + post, e.tid) == pre + (l + r) + post
  {
    assert pre + (l + [e] + r) + post == (pre + l) + [e] + (r + post);
    hide Distinct, Remove;
    RemoveMiddle(pre + l, e, r + post);
    assert pre + (l + r) + post == (pre + l) + (r + post);
  }

  lemma {:induction false} RemoveMiddle(a: seq<Entry>, e: Entry, b: seq<Entry>)
    requires Distinct(a + [e] + b)
    ensures Remove(a + [e] + b, e.tid) == a + b
  {
    var q := a + [e] + b;
    if a == [] {
      assert q[0] == e && q[1..] == b && a + b == b;
    } else {
      assert q[|a|] == e && q[0] == a[0] && q[1..] == a[1..] + [e] + b;
      DistinctTail(q);
      RemoveMiddle(a[1..], e, b);
      assert [a[0]] + (a[1..] + b) == a + b;
    }
  }

  lemma DistinctTail(q: seq<Entry>)
    requires Distinct(q) && q != []
    ensures Distinct(q[1..])
  {
  }

  lemma {:induction false} FirstInOrder(ns: seq<RbNode>, t: Shape) returns (rest: seq<Entry>)
    requires t.Fork?
    ensures InOrder(ns, t) == [EntryOf(ns, First(t).id)] + InOrder(ns, First(t).right) + rest
    decreases t
  {
    if t.left.Leaf? {
      rest := [];
    } else {
      var r := FirstInOrder(ns, t.left);
      rest := r + [EntryOf(ns, t.id)] + InOrder(ns, t.right);
    }
  }

  /** What is left are the entries without that of `z` exactly when `z` has at most one child. With two, everything in
    * its left subtree is lost, and everything in its right subtree but the successor and what is below it. */
  lemma DeleteLosesExactlyWhen(ns: seq<RbNode>, t: Shape, z: nat) returns (rest: seq<Entry>)
    requires z in Ids(t) && SubAt(t, z).Fork? && SubAt(t, z).id == z
    ensures InOrder(ns, AfterDelete(t, z)) == InOrderBut(ns, t, z) <==> !TwoChildren(t, z)
    ensures TwoChildren(t, z) ==>
              var l := InOrder(ns, SubAt(t, z).left);
              && l != [] && InOrder(ns, SubAt(t, z).right) == InOrder(ns, Remains(SubAt(t, z))) + rest
              && |InOrder(ns, AfterDelete(t, z))| + |l| + |rest| == |InOrderBut(ns, t, z)|
  {
    var sub := SubAt(t, z);
    var l, r, m := InOrder(ns, sub.left), InOrder(ns, sub.right), InOrder(ns, Remains(sub));
    GraftedInOrder(ns, t, z, Remains(sub));
    var two := TwoChildren(t, z);
    rest := [];
    if two {
      rest := FirstInOrder(ns, sub.right);
      assert m == [EntryOf(ns, First(sub.right).id)] + InOrder(ns, First(sub.right).right);
      assert l != [];
    } else {
      assert l + r == m;
    }
    hide InOrder, Ahead, Behind, SubAt, First, Remains;
  }

  /** The first entry in order is at a node without a left child, so picking the next thread never loses one. */
  lemma {:induction false} MinimumHasOneChild(t: Shape)
    requires t.Fork? && NoDup(t)
    ensures First(t).id in Ids(t) && !TwoChildren(t, First(t).id)
  {
    FirstInside(t);
  }

  // ---------------------------------------------------------------- an example

  /** Below a black node without that child, an insertion stops at once. */
  lemma HangsBelowRoot(ns: seq<RbNode>, root: RbNode, id: nat, key: nat, tid: nat)
    requires 0 < id < |ns| <= NONE && ns[0] == root && root.color == Black && root.parent == NONE
    requires (if key < root.key then root.left else root.right) == NONE
    ensures var node := RbNode(key, tid, 0, NONE, NONE, Red, true);
            InsertNode(Arena(ns, 0), id, key, tid, 4)
            == Done(Arena(ns[0 := if key < root.key then root.(left := id) else root.(right := id)][id := node], 0))
  {
    var fresh_ := RbNode(key, tid, NONE, NONE, NONE, Red, true);
    var ns1 := ns[id := fresh_];
    assert Descend(ns1, key, 0, 4) == Some(0);
    var ns2 := Hung(ns1, 0, id);
    assert FixRound(Arena(ns2, 0), id) == Stop(Arena(ns2, 0));
    assert FixFrom(Arena(ns2, 0), id, 4) == Done(Arena(WithColor(ns2, 0, Black), 0));
    assert WithColor(ns2, 0, Black) == ns2;
    assert ns2 == ns[0 := if key < root.key then root.(left := id) else root.(right := id)]
                    [id := RbNode(key, tid, 0, NONE, NONE, Red, true)];
  }

  /** The first three nodes after insertions under keys 2, 1 and 3. */
  lemma ThreeInserted(ns: seq<RbNode>) returns (a: Arena)
    requires 3 <= |ns| < NONE
    ensures InsertAll(ns, [Entry(2, 1), Entry(1, 2), Entry(3, 3)], 4) == Done(a) && |a.ns| == |ns| && a.root == 0
    ensures a.ns[0] == RbNode(2, 1, NONE, 1, 2, Black, true) && a.ns[1] == RbNode(1, 2, 0, NONE, NONE, Red, true)
            && a.ns[2] == RbNode(3, 3, 0, NONE, NONE, Red, true)
  {
    var root, one := RbNode(2, 1, NONE, NONE, NONE, Black, true), RbNode(1, 2, 0, NONE, NONE, Red, true);
    var two := RbNode(3, 3, 0, NONE, NONE, Red, true);
    var ns1 := ns[0 := root];
    HangsBelowRoot(ns1, root, 1, 1, 2);
    var ns2 := ns1[0 := root.(left := 1)][1 := one];
    HangsBelowRoot(ns2, root.(left := 1), 2, 3, 3);
    var ns3 := ns2[0 := root.(left := 1, right := 2)][2 := two];
    a := Arena(ns3, 0);
    InsertsThree(ns, ns1, ns2, ns3);
  }

  /** Three threads are enqueued under keys 2, 1 and 3, and the first is removed: the second is lost with it. */
  lemma RemovalExample(ns: seq<RbNode>) returns (a: Arena, t: Shape, t': Shape)
    requires 3 <= |ns| < NONE
    ensures InsertAll(ns, [Entry(2, 1), Entry(1, 2), Entry(3, 3)], 4) == Done(a) && Tree(a, t)
    ensures InOrder(a.ns, t) == [Entry(1, 2), Entry(2, 1), Entry(3, 3)]
    ensures var r := DeleteNode(a, 0, |ns| + 1);
            r.Done? && Tree(r.a, t') && InOrder(r.a.ns, t') == [Entry(3, 3)]
  {
    a := ThreeInserted(ns);
    t := Fork(Fork(Leaf, 1, Leaf), 0, Fork(Leaf, 2, Leaf));
    ThreeTree(a);
    hide Links, InsertAll, DeleteNode, InsertNode;
    t' := WholeDelete(a, t, 0, |ns| + 1);
    assert AfterDelete(t, 0) == Fork(Leaf, 2, Leaf);
  }

  lemma ThreeTree(a: Arena)
    requires 3 <= |a.ns| < NONE && a.root == 0
    requires a.ns[0] == RbNode(2, 1, NONE, 1, 2, Black, true) && a.ns[1] == RbNode(1, 2, 0, NONE, NONE, Red, true)
    requires a.ns[2] == RbNode(3, 3, 0, NONE, NONE, Red, true)
    ensures var t := Fork(Fork(Leaf, 1, Leaf), 0, Fork(Leaf, 2, Leaf));
            && Tree(a, t) && InOrder(a.ns, t) == [Entry(1, 2), Entry(2, 1), Entry(3, 3)] && 0 in Ids(t)
            && InOrder(a.ns, Fork(Leaf, 2, Leaf)) == [Entry(3, 3)]
  {
    var l, r := Fork(Leaf, 1, Leaf), Fork(Leaf, 2, Leaf);
    assert Links(a.ns, l, 1, 0) && Links(a.ns, r, 2, 0) && NoDup(l) && NoDup(r) && Ids(l) == {1} && Ids(r) == {2};
    assert InOrder(a.ns, l) == [Entry(1, 2)] && InOrder(a.ns, r) == [Entry(3, 3)];
  }

  lemma InsertsThree(ns: seq<RbNode>, ns1: seq<RbNode>, ns2: seq<RbNode>, ns3: seq<RbNode>)
    requires 3 <= |ns| < NONE && |ns1| == |ns2| == |ns3| == |ns|
    requires ns1 == ns[0 := RbNode(2, 1, NONE, NONE, NONE, Black, true)]
    requires InsertNode(Arena(ns1, 0), 1, 1, 2, 4) == Done(Arena(ns2, 0))
    requires InsertNode(Arena(ns2, 0), 2, 3, 3, 4) == Done(Arena(ns3, 0))
    ensures InsertAll(ns, [Entry(2, 1), Entry(1, 2), Entry(3, 3)], 4) == Done(Arena(ns3, 0))
  {
    var e1, e2, e3 := Entry(2, 1), Entry(1, 2), Entry(3, 3);
    InsertsFirst(ns);
    hide InsertNode, InsertAll;
    assert [] + [e1] == [e1] && [e1] + [e2] == [e1, e2] && [e1, e2] + [e3] == [e1, e2, e3];
    InsertsNext(ns, [], e1, Arena(ns, NONE));
    InsertsNext(ns, [e1], e2, Arena(ns1, 0));
    InsertsNext(ns, [e1, e2], e3, Arena(ns2, 0));
  }

  lemma InsertsFirst(ns: seq<RbNode>)
    requires 3 <= |ns| < NONE
    ensures InsertAll(ns, [], 4) == Done(Arena(ns, NONE))
    ensures InsertNode(Arena(ns, NONE), 0, 2, 1, 4)
            == Done(Arena(ns[0 := RbNode(2, 1, NONE, NONE, NONE, Black, true)], 0))
  {
  }

  lemma InsertsNext(ns: seq<RbNode>, q: seq<Entry>, e: Entry, a: Arena)
    requires |q| < |ns| == |a.ns| && InsertAll(ns, q, 4) == Done(a)
    ensures InsertAll(ns, q + [e], 4) == InsertNode(a, |q|, e.key, e.tid, 4)
  {
    hide InsertNode;
    assert (q + [e])[..|q|] == q;
  }
}
