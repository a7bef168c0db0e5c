/** The arena behind the run queue's tree: links, rotations, descent, minimum and the node pool. */
module RbTrees {
  import opened Layout
  import opened RunQueues

  const NONE: nat := 0xFFFF

  datatype Color = Red | Black
  datatype RbNode = RbNode(key: nat, tid: nat, parent: nat, left: nat, right: nat, color: Color, inUse: bool)

  const EMPTY := RbNode(0, 0, NONE, NONE, NONE, Black, false)

  // ---------------------------------------------------------------- trees in the arena

  datatype Shape = Leaf | Fork(left: Shape, id: nat, right: Shape)

  /** `t` is the tree linked from `at`, and every parent link agrees. */
  ghost predicate Links(ns: seq<RbNode>, t: Shape, at: nat, parent: nat) {
    match t
    case Leaf => at == NONE
    case Fork(l, id, r) =>
      at == id && id < |ns| && id != NONE && ns[id].inUse && ns[id].parent == parent && Links(ns, l, ns[id].left, id)
      && Links(ns, r, ns[id].right, id)
  }

  ghost function Ids(t: Shape): set<nat> {
    match t
    case Leaf => {}
    case Fork(l, id, r) => Ids(l) + {id} + Ids(r)
  }

  /** No node occurs twice. */
  ghost predicate NoDup(t: Shape) {
    match t
    case Leaf => true
    case Fork(l, id, r) => NoDup(l) && NoDup(r) && id !in Ids(l) && id !in Ids(r) && Ids(l) !! Ids(r)
  }

  ghost function InOrderIds(t: Shape): seq<nat> {
    match t
    case Leaf => []
    case Fork(l, id, r) => InOrderIds(l) + [id] + InOrderIds(r)
  }

  ghost function EntryOf(ns: seq<RbNode>, id: nat): Entry {
    if id < |ns| then Entry(ns[id].key, ns[id].tid) else Entry(0, 0)
  }

  /** The entries in order. */
  ghost function InOrder(ns: seq<RbNode>, t: Shape): seq<Entry> {
    match t
    case Leaf => []
    case Fork(l, id, r) => InOrder(ns, l) + [EntryOf(ns, id)] + InOrder(ns, r)
  }

  /** Links depend on the tree's own nodes only. */
  lemma {:induction false} LinksFrame(ns: seq<RbNode>, ns': seq<RbNode>, t: Shape, at: nat, parent: nat)
    requires Links(ns, t, at, parent) && |ns'| == |ns| && forall i: nat :: i in Ids(t) && i < |ns| ==> ns'[i] == ns[i]
    ensures Links(ns', t, at, parent)
  {
    if t.Fork? {
      LinksFrame(ns, ns', t.left, ns[t.id].left, t.id);
      LinksFrame(ns, ns', t.right, ns[t.id].right, t.id);
    }
  }

  /** A subtree hung elsewhere: only its root's parent link changes. */
  lemma Rehang(ns: seq<RbNode>, ns': seq<RbNode>, t: Shape, at: nat, parent: nat, parent': nat)
    requires Links(ns, t, at, parent) && NoDup(t) && |ns'| == |ns|
    requires forall i: nat :: i in Ids(t) && i < |ns| && i != at ==> ns'[i] == ns[i]
    requires t.Fork? && at < |ns| ==> ns'[at] == ns[at].(parent := parent')
    ensures Links(ns', t, at, parent')
  {
    if t.Fork? {
      LinksFrame(ns, ns', t.left, ns[t.id].left, t.id);
      LinksFrame(ns, ns', t.right, ns[t.id].right, t.id);
    }
  }

  /** The entries in order depend on keys and owners only. */
  lemma {:induction false} InOrderFrame(ns: seq<RbNode>, ns': seq<RbNode>, t: Shape)
    requires forall i: nat :: i in Ids(t) ==> EntryOf(ns', i) == EntryOf(ns, i)
    ensures InOrder(ns', t) == InOrder(ns, t)
  {
    if t.Fork? {
      InOrderFrame(ns, ns', t.left);
      InOrderFrame(ns, ns', t.right);
    }
  }

  lemma OthersInOrder(ns: seq<RbNode>, ns': seq<RbNode>, t: Shape, id: nat)
    requires id !in Ids(t) && |ns'| == |ns| && forall i: nat :: i < |ns| && i != id ==> ns'[i] == ns[i]
    ensures InOrder(ns', t) == InOrder(ns, t)
  {
    InOrderFrame(ns, ns', t);
  }

  lemma {:induction false} IdsInArena(ns: seq<RbNode>, t: Shape, at: nat, parent: nat)
    requires Links(ns, t, at, parent)
    ensures forall i: nat :: i in Ids(t) ==> i < |ns| && i != NONE && ns[i].inUse
  {
    if t.Fork? {
      IdsInArena(ns, t.left, ns[t.id].left, t.id);
      IdsInArena(ns, t.right, ns[t.id].right, t.id);
    }
  }

  // ---------------------------------------------------------------- rotations

  /** The tree with node `x`, which has a right child, rotated to the left. */
  ghost function RotatedLeft(t: Shape, x: nat): Shape {
    match t
    case Leaf => Leaf
    case Fork(l, id, r) =>
      if id == x then
        if r.Fork? then Fork(Fork(l, x, r.left), r.id, r.right) else t
      else Fork(RotatedLeft(l, x), id, RotatedLeft(r, x))
  }

  lemma {:induction false} RotatedLeftIds(t: Shape, x: nat)
    ensures InOrderIds(RotatedLeft(t, x)) == InOrderIds(t) && Ids(RotatedLeft(t, x)) == Ids(t)
    ensures NoDup(t) ==> NoDup(RotatedLeft(t, x))
  {
    if t.Fork? {
      if t.id != x {
        RotatedLeftIds(t.left, x);
        RotatedLeftIds(t.right, x);
      } else if t.right.Fork? {
        var l, m, r := InOrderIds(t.left), InOrderIds(t.right.left), InOrderIds(t.right.right);
        assert (l + [x] + m) + [t.right.id] + r == l + [x] + (m + [t.right.id] + r);
        assert Ids(t.right) == Ids(t.right.left) + {t.right.id} + Ids(t.right.right);
        assert Ids(Fork(t.left, x, t.right.left)) == Ids(t.left) + {x} + Ids(t.right.left);
        assert NoDup(t) ==> NoDup(t.right) && NoDup(Fork(t.left, x, t.right.left));
      }
    }
  }

  lemma {:induction false} RotatedLeftInOrder(ns: seq<RbNode>, t: Shape, x: nat)
    ensures InOrder(ns, RotatedLeft(t, x)) == InOrder(ns, t)
  {
    if t.Fork? {
      if t.id != x {
        RotatedLeftInOrder(ns, t.left, x);
        RotatedLeftInOrder(ns, t.right, x);
      } else if t.right.Fork? {
        var l, m, r := InOrder(ns, t.left), InOrder(ns, t.right.left), InOrder(ns, t.right.right);
        var ex, ey := EntryOf(ns, x), EntryOf(ns, t.right.id);
        assert (l + [ex] + m) + [ey] + r == l + [ex] + (m + [ey] + r);
      }
    }
  }

  lemma {:induction false} NotThere(t: Shape, x: nat)
    requires x !in Ids(t)
    ensures RotatedLeft(t, x) == t
  {
    if t.Fork? {
      NotThere(t.left, x);
      NotThere(t.right, x);
    }
  }

  /** Child link of `n` after `x` was replaced by `y`. */
  function Relinked(n: RbNode, x: nat, y: nat): RbNode {
    if n.left == x then n.(left := y) else n.(right := y)
  }

  /** The arena after a left rotation at `x`: exactly these links changed. */
  ghost predicate LeftRotation(ns: seq<RbNode>, ns': seq<RbNode>, x: nat) {
    && |ns'| == |ns| && x < |ns| && ns[x].right < |ns|
    && var y, p := ns[x].right, ns[x].parent;
    && var b := ns[y].left;
    && ns'[x] == ns[x].(right := b, parent := y)
    && ns'[y] == ns[y].(left := x, parent := p)
    && (b < |ns| ==> ns'[b] == ns[b].(parent := x))
    && (p < |ns| ==> ns'[p] == Relinked(ns[p], x, y))
    && forall i: nat :: i < |ns| && i != x && i != y && i != b && i != p ==> ns'[i] == ns[i]
  }

  /** The link that led to a subtree: a rotation at its root changes it. */
  ghost function LinkAfter(ns: seq<RbNode>, x: nat, at: nat): nat
    requires x < |ns|
  {
    if at == x then ns[x].right else at
  }

  lemma RotateAtRoot(ns: seq<RbNode>, ns': seq<RbNode>, t: Shape, at: nat, parent: nat)
    requires t.Fork? && t.right.Fork? && Links(ns, t, at, parent) && NoDup(t) && LeftRotation(ns, ns', t.id)
             && parent !in Ids(t)
    ensures Links(ns', RotatedLeft(t, t.id), ns[t.id].right, parent)
  {
    var x, y := t.id, t.right.id;
    var b := ns[y].left;
    IdsInArena(ns, t.left, ns[x].left, x);
    IdsInArena(ns, t.right.left, b, y);
    IdsInArena(ns, t.right.right, ns[y].right, y);
    LinksFrame(ns, ns', t.left, ns[x].left, x);
    LinksFrame(ns, ns', t.right.right, ns[y].right, y);
    Rehang(ns, ns', t.right.left, b, y, x);
  }

  /** The parent of an inner node is in the tree. */
  lemma {:induction false} ParentInTree(ns: seq<RbNode>, t: Shape, at: nat, parent: nat, x: nat)
    requires Links(ns, t, at, parent) && x in Ids(t)
    ensures x < |ns| && (x == at || (ns[x].parent in Ids(t) && at != NONE))
    ensures x == at ==> ns[x].parent == parent
    decreases t
  {
    if x != t.id {
      if x in Ids(t.left) {
        ParentInTree(ns, t.left, ns[t.id].left, t.id, x);
      } else {
        ParentInTree(ns, t.right, ns[t.id].right, t.id, x);
      }
    }
  }

  /** The children of an inner node are in the tree. */
  lemma {:induction false} ChildrenInTree(ns: seq<RbNode>, t: Shape, at: nat, parent: nat, x: nat)
    requires Links(ns, t, at, parent) && x in Ids(t)
    ensures x < |ns| && (ns[x].left == NONE || ns[x].left in Ids(t)) && (ns[x].right == NONE || ns[x].right in Ids(t))
  {
    if x != t.id {
      if x in Ids(t.left) {
        ChildrenInTree(ns, t.left, ns[t.id].left, t.id, x);
      } else {
        ChildrenInTree(ns, t.right, ns[t.id].right, t.id, x);
      }
    }
  }

  /** A rotation inside a subtree writes nodes of that subtree only, and the link above it if it is at its root. */
  lemma TouchedInTree(ns: seq<RbNode>, t: Shape, at: nat, parent: nat, x: nat)
    requires Links(ns, t, at, parent) && x in Ids(t) && x < |ns| && ns[x].right < |ns| <= NONE
    ensures ns[x].right in Ids(t) && (ns[ns[x].right].left in Ids(t) || ns[ns[x].right].left == NONE)
    ensures if x == at then ns[x].parent == parent else ns[x].parent in Ids(t)
  {
    ParentInTree(ns, t, at, parent, x);
    ChildrenInTree(ns, t, at, parent, x);
    ChildrenInTree(ns, t, at, parent, ns[x].right);
  }

  /** What a rotation inside `sub` leaves alone: the sibling subtree, and the node above except its link to `x`. */
  lemma RotateBeside(ns: seq<RbNode>, ns': seq<RbNode>, id: nat, sub: Shape, at: nat, other: Shape, otherAt: nat,
                     x: nat)
    requires Links(ns, sub, at, id) && Links(ns, other, otherAt, id) && x in Ids(sub) && LeftRotation(ns, ns', x)
             && |ns| <= NONE
    requires id !in Ids(sub) && id !in Ids(other) && Ids(sub) !! Ids(other) && id < |ns|
    ensures Links(ns', other, otherAt, id) && RotatedLeft(other, x) == other
    ensures ns'[id] == if at == x then Relinked(ns[id], x, ns[x].right) else ns[id]
  {
    TouchedInTree(ns, sub, at, id, x);
    IdsInArena(ns, other, otherAt, id);
    LinksFrame(ns, ns', other, otherAt, id);
    NotThere(other, x);
  }

  /** A left rotation keeps the arena well linked. */
  lemma {:induction false} RotateLinks(ns: seq<RbNode>, ns': seq<RbNode>, t: Shape, at: nat, parent: nat, x: nat)
    requires Links(ns, t, at, parent) && NoDup(t) && x in Ids(t) && LeftRotation(ns, ns', x) && |ns| <= NONE
    requires parent !in Ids(t)
    ensures Links(ns', RotatedLeft(t, x), LinkAfter(ns, x, at), parent)
    decreases t
  {
    var id, l, r := t.id, t.left, t.right;
    if id == x {
      RotateAtRoot(ns, ns', t, at, parent);
    } else if x in Ids(l) {
      RotateBeside(ns, ns', id, l, ns[id].left, r, ns[id].right, x);
      hide LeftRotation;
      RotateLinks(ns, ns', l, ns[id].left, id, x);
    } else {
      RotateBeside(ns, ns', id, r, ns[id].right, l, ns[id].left, x);
      hide LeftRotation;
      RotateLinks(ns, ns', r, ns[id].right, id, x);
      assert ns[id].left != x;
    }
  }

  /** A left rotation, as a whole: order, nodes, links. */
  lemma RotateLeftKeeps(ns: seq<RbNode>, ns': seq<RbNode>, t: Shape, root: nat, x: nat)
    requires Links(ns, t, root, NONE) && NoDup(t) && x in Ids(t) && LeftRotation(ns, ns', x) && |ns| <= NONE
    ensures var t' := RotatedLeft(t, x);
            && Links(ns', t', LinkAfter(ns, x, root), NONE) && NoDup(t') && Ids(t') == Ids(t)
            && InOrder(ns', t') == InOrder(ns, t)
  {
    var t' := RotatedLeft(t, x);
    IdsInArena(ns, t, root, NONE);
    RotateLinks(ns, ns', t, root, NONE, x);
    RotatedLeftIds(t, x);
    RotatedLeftInOrder(ns, t, x);
    InOrderFrame(ns, ns', t');
  }

  /** The nodes a rotation writes are in use and distinct. */
  ghost predicate Family(ns: seq<RbNode>, root: nat, x: nat) {
    && x < |ns| <= NONE && ns[x].right < |ns|
    && var y, p := ns[x].right, ns[x].parent;
    && y != x && ns[x].inUse && ns[y].inUse
    && var b := ns[y].left;
    && (b == NONE || (b < |ns| && b != x && b != y && b != p && ns[b].inUse))
    && (p == NONE || (p < |ns| && p != x && p != y && ns[p].inUse))
    && (p == NONE <==> x == root)
  }

  lemma RotationNodes(ns: seq<RbNode>, t: Shape, root: nat, x: nat)
    requires Links(ns, t, root, NONE) && NoDup(t) && x in Ids(t) && |ns| <= NONE && x < |ns| && ns[x].right != NONE
    ensures Family(ns, root, x)
  {
    IdsInArena(ns, t, root, NONE);
    ChildrenInTree(ns, t, root, NONE, x);
    ChildrenInTree(ns, t, root, NONE, ns[x].right);
    ParentInTree(ns, t, root, NONE, x);
    FamilyDistinct(ns, t, root, NONE, x);
  }

  /** Parent, node, right child and its left child are four different nodes. */
  lemma {:induction false} FamilyDistinct(ns: seq<RbNode>, t: Shape, at: nat, parent: nat, x: nat)
    requires Links(ns, t, at, parent) && NoDup(t) && x in Ids(t) && |ns| <= NONE && x < |ns| && ns[x].right != NONE
             && parent !in Ids(t)
    ensures var y, p := ns[x].right, ns[x].parent;
            && y < |ns| && y != x && p != x && p != y
            && (ns[y].left == NONE || (ns[y].left != x && ns[y].left != y && ns[y].left != p))
    decreases t
  {
    if t.id == x {
      var y := t.right;
      ChildrenInTree(ns, t, at, parent, y.id);
      assert Links(ns, y, y.id, x) && Links(ns, y.left, ns[y.id].left, y.id) && NoDup(y);
      assert ns[y.id].left == NONE || (y.left.Fork? && ns[y.id].left == y.left.id && y.left.id in Ids(y.left)
                                       && y.left.id in Ids(y));
    } else if x in Ids(t.left) {
      FamilyDistinct(ns, t.left, ns[t.id].left, t.id, x);
    } else {
      FamilyDistinct(ns, t.right, ns[t.id].right, t.id, x);
    }
  }

  // ---------------------------------------------------------------- the mirror image

  function Flip(n: RbNode): RbNode { n.(left := n.right, right := n.left) }

  function FlipAll(ns: seq<RbNode>): (ms: seq<RbNode>)
    ensures |ms| == |ns| && forall i: nat :: i < |ns| ==> ms[i] == Flip(ns[i])
  {
    seq(|ns|, i requires 0 <= i < |ns| => Flip(ns[i]))
  }

  ghost function FlipShape(t: Shape): Shape {
    match t
    case Leaf => Leaf
    case Fork(l, id, r) => Fork(FlipShape(r), id, FlipShape(l))
  }

  ghost function Reverse(q: seq<Entry>): seq<Entry> {
    if q == [] then [] else Reverse(q[1..]) + [q[0]]
  }

  lemma {:induction false} ReverseConcat(p: seq<Entry>, q: seq<Entry>)
    ensures Reverse(p + q) == Reverse(q) + Reverse(p)
  {
    if p == [] {
      assert p + q == q;
    } else {
      ReverseConcat(p[1..], q);
      assert (p + q)[1..] == p[1..] + q;
    }
  }

  lemma {:induction false} ReverseTwice(q: seq<Entry>)
    ensures Reverse(Reverse(q)) == q
  {
    if q != [] {
      ReverseTwice(q[1..]);
      ReverseConcat(Reverse(q[1..]), [q[0]]);
      assert Reverse([q[0]]) == [q[0]];
      assert [q[0]] + q[1..] == q;
    }
  }

  lemma {:induction false} FlipIds(t: Shape)
    ensures Ids(FlipShape(t)) == Ids(t) && NoDup(FlipShape(t)) == NoDup(t) && FlipShape(FlipShape(t)) == t
  {
    if t.Fork? {
      FlipIds(t.left);
      FlipIds(t.right);
    }
  }

  lemma {:induction false} FlipLinks(ns: seq<RbNode>, t: Shape, at: nat, parent: nat)
    requires Links(ns, t, at, parent)
    ensures Links(FlipAll(ns), FlipShape(t), at, parent)
  {
    if t.Fork? {
      FlipLinks(ns, t.left, ns[t.id].left, t.id);
      FlipLinks(ns, t.right, ns[t.id].right, t.id);
    }
  }

  lemma FlipTwice(ns: seq<RbNode>)
    ensures FlipAll(FlipAll(ns)) == ns
  {
  }

  lemma {:induction false} FlipInOrder(ns: seq<RbNode>, t: Shape)
    ensures InOrder(FlipAll(ns), FlipShape(t)) == Reverse(InOrder(ns, t))
  {
    if t.Fork? {
      var l, e, r := InOrder(ns, t.left), EntryOf(ns, t.id), InOrder(ns, t.right);
      FlipInOrder(ns, t.left);
      FlipInOrder(ns, t.right);
      ReverseConcat(l + [e], r);
      ReverseConcat(l, [e]);
      assert Reverse([e]) == [e];
      assert Reverse(r) + ([e] + Reverse(l)) == Reverse(r) + [e] + Reverse(l);
    }
  }

  /** Child link of `n` after `y` was replaced by `x`, looking at the right link first. */
  function RelinkedRight(n: RbNode, y: nat, x: nat): RbNode {
    if n.right == y then n.(right := x) else n.(left := x)
  }

  /** The arena after a right rotation at `y`. */
  ghost predicate RightRotation(ns: seq<RbNode>, ns': seq<RbNode>, y: nat) {
    && |ns'| == |ns| && y < |ns| && ns[y].left < |ns|
    && var x, p := ns[y].left, ns[y].parent;
    && var b := ns[x].right;
    && ns'[y] == ns[y].(left := b, parent := x)
    && ns'[x] == ns[x].(right := y, parent := p)
    && (b < |ns| ==> ns'[b] == ns[b].(parent := y))
    && (p < |ns| ==> ns'[p] == RelinkedRight(ns[p], y, x))
    && forall i: nat :: i < |ns| && i != y && i != x && i != b && i != p ==> ns'[i] == ns[i]
  }

  /** A right rotation is a left rotation in the mirror. */
  lemma RightIsMirrored(ns: seq<RbNode>, ns': seq<RbNode>, y: nat)
    requires RightRotation(ns, ns', y)
    ensures LeftRotation(FlipAll(ns), FlipAll(ns'), y)
  {
    var ms, ms' := FlipAll(ns), FlipAll(ns');
    forall i: nat | i < |ns| && ns'[i] == ns[i] ensures ms'[i] == ms[i] {}
  }

  ghost predicate FamilyRight(ns: seq<RbNode>, root: nat, y: nat) {
    && y < |ns| <= NONE && ns[y].left < |ns|
    && var x, p := ns[y].left, ns[y].parent;
    && x != y && ns[y].inUse && ns[x].inUse
    && var b := ns[x].right;
    && (b == NONE || (b < |ns| && b != y && b != x && b != p && ns[b].inUse))
    && (p == NONE || (p < |ns| && p != y && p != x && ns[p].inUse))
    && (p == NONE <==> y == root)
  }

  lemma FamilyIsMirrored(ns: seq<RbNode>, root: nat, y: nat)
    requires Family(FlipAll(ns), root, y)
    ensures FamilyRight(ns, root, y)
  {
    var ms := FlipAll(ns);
    assert ms[y] == Flip(ns[y]) && ms[ms[y].right] == Flip(ns[ns[y].left]);
  }

  ghost function RotatedRight(t: Shape, y: nat): Shape {
    FlipShape(RotatedLeft(FlipShape(t), y))
  }

  lemma RotateRightKeeps(ns: seq<RbNode>, ns': seq<RbNode>, t: Shape, root: nat, y: nat)
    requires Links(ns, t, root, NONE) && NoDup(t) && y in Ids(t) && RightRotation(ns, ns', y) && |ns| <= NONE
    ensures var t' := RotatedRight(t, y);
            && y < |ns| && Links(ns', t', if root == y then ns[y].left else root, NONE) && NoDup(t')
              && Ids(t') == Ids(t)
            && InOrder(ns', t') == InOrder(ns, t)
  {
    RightIsMirrored(ns, ns', y);
    hide LeftRotation, RightRotation, Links, InOrder;
    var ms, ms', u := FlipAll(ns), FlipAll(ns'), FlipShape(t);
    FlipIds(t);
    FlipLinks(ns, t, root, NONE);
    IdsInArena(ns, t, root, NONE);
    RotateLeftKeeps(ms, ms', u, root, y);
    var u' := RotatedLeft(u, y);
    FlipIds(u');
    FlipLinks(ms', u', LinkAfter(ms, y, root), NONE);
    FlipTwice(ns');
    FlipInOrder(ms', u');
    FlipInOrder(ns, t);
    ReverseTwice(InOrder(ns, t));
  }

  /** Rotating to the right at the child undoes rotating to the left. */
  lemma {:induction false} RotateBack(t: Shape, x: nat, y: nat)
    requires NoDup(t) && x in Ids(t) && RightChild(t, x) == Some(y)
    ensures RotatedRight(RotatedLeft(t, x), y) == t
  {
    FlipIds(t.left);
    FlipIds(t.right);
    if t.id == x {
      var l, b, c := t.left, t.right.left, t.right.right;
      FlipIds(b);
      FlipIds(c);
      assert FlipShape(RotatedLeft(t, x)) == Fork(FlipShape(c), y, FlipShape(Fork(l, x, b)));
      assert FlipShape(Fork(Fork(FlipShape(c), y, FlipShape(b)), x, FlipShape(l)))
             == Fork(l, x, FlipShape(Fork(FlipShape(c), y, FlipShape(b))));
    } else if x in Ids(t.left) {
      RotateBack(t.left, x, y);
      ChildInside(t.left, x);
      NotThere(t.right, x);
      NotThere(FlipShape(t.right), y);
    } else {
      RotateBack(t.right, x, y);
      ChildInside(t.right, x);
      NotThere(t.left, x);
      NotThere(FlipShape(t.left), y);
    }
  }

  ghost function RightChild(t: Shape, x: nat): Option<nat> {
    match t
    case Leaf => None
    case Fork(l, id, r) =>
      if id == x then (if r.Fork? then Some(r.id) else None)
      else if x in Ids(l) then RightChild(l, x) else RightChild(r, x)
  }

  lemma {:induction false} ChildInside(t: Shape, x: nat)
    requires RightChild(t, x).Some?
    ensures RightChild(t, x).value in Ids(t)
  {
    if t.id != x {
      if x in Ids(t.left) {
        ChildInside(t.left, x);
      } else {
        ChildInside(t.right, x);
      }
    }
  }

  // ---------------------------------------------------------------- descent

  /** Where the descent for `key` ends. */
  ghost function AttachPoint(ns: seq<RbNode>, t: Shape, key: nat): nat
    requires t.Fork?
  {
    if key < EntryOf(ns, t.id).key then
      if t.left.Fork? then AttachPoint(ns, t.left, key) else t.id
    else
      if t.right.Fork? then AttachPoint(ns, t.right, key) else t.id
  }

  ghost function Attached(ns: seq<RbNode>, t: Shape, key: nat, id: nat): Shape {
    match t
    case Leaf => Fork(Leaf, id, Leaf)
    case Fork(l, top, r) =>
      if key < EntryOf(ns, top).key then Fork(Attached(ns, l, key, id), top, r)
      else Fork(l, top, Attached(ns, r, key, id))
  }

  /** The arena after node `id` was hung below the attach point `p`. */
  ghost predicate Attachment(ns: seq<RbNode>, ns': seq<RbNode>, p: nat, id: nat) {
    && |ns'| == |ns| && p < |ns| && id < |ns| && p != id
    && ns'[p] == (if ns[id].key < ns[p].key then ns[p].(left := id) else ns[p].(right := id))
    && ns'[id] == ns[id].(parent := p)
    && forall i: nat :: i < |ns| && i != p && i != id ==> ns'[i] == ns[i]
  }

  /** A node in use that has no children yet and is not in the tree. */
  ghost predicate Loose(ns: seq<RbNode>, t: Shape, id: nat) {
    id < |ns| && id != NONE && ns[id].inUse && ns[id].left == NONE && ns[id].right == NONE && id !in Ids(t)
  }

  lemma FirstNode(ns: seq<RbNode>, ns': seq<RbNode>, id: nat)
    requires id < |ns| && |ns'| == |ns| && EntryOf(ns', id) == EntryOf(ns, id)
    ensures NoDup(Fork(Leaf, id, Leaf)) && Ids(Leaf) == {} && Ids(Fork(Leaf, id, Leaf)) == {id}
            && InOrder(ns, Leaf) == []
    ensures InOrder(ns', Fork(Leaf, id, Leaf)) == Insert([], EntryOf(ns, id))
  {
  }

  lemma {:induction false} AttachPointInside(ns: seq<RbNode>, t: Shape, key: nat)
    requires t.Fork?
    ensures AttachPoint(ns, t, key) in Ids(t)
  {
    if key < EntryOf(ns, t.id).key {
      if t.left.Fork? {
        AttachPointInside(ns, t.left, key);
      }
    } else if t.right.Fork? {
      AttachPointInside(ns, t.right, key);
    }
  }

  lemma {:induction false} AttachLinks(ns: seq<RbNode>, ns': seq<RbNode>, t: Shape, at: nat, parent: nat, id: nat)
    requires t.Fork? && Links(ns, t, at, parent) && NoDup(t) && Loose(ns, t, id)
    requires Attachment(ns, ns', AttachPoint(ns, t, ns[id].key), id)
    ensures Links(ns', Attached(ns, t, ns[id].key, id), at, parent) && NoDup(Attached(ns, t, ns[id].key, id))
    ensures Ids(Attached(ns, t, ns[id].key, id)) == Ids(t) + {id}
    decreases t
  {
    var key, top := ns[id].key, t.id;
    AttachPointInside(ns, t, key);
    if key < ns[top].key {
      if t.left.Fork? {
        AttachPointInside(ns, t.left, key);
        AttachLinks(ns, ns', t.left, ns[top].left, top, id);
      } else {
        assert Attached(ns, t.left, key, id) == Fork(Leaf, id, Leaf);
      }
      LinksFrame(ns, ns', t.right, ns[top].right, top);
    } else {
      if t.right.Fork? {
        AttachPointInside(ns, t.right, key);
        AttachLinks(ns, ns', t.right, ns[top].right, top, id);
      } else {
        assert Attached(ns, t.right, key, id) == Fork(Leaf, id, Leaf);
      }
      LinksFrame(ns, ns', t.left, ns[top].left, top);
    }
  }

  lemma {:induction false} InsertBefore(a: seq<Entry>, e0: Entry, b: seq<Entry>, e: Entry)
    requires e.key < e0.key
    ensures Insert(a + [e0] + b, e) == Insert(a, e) + [e0] + b
  {
    var q := a + [e0] + b;
    if a == [] {
      assert q == [e0] + b && Insert(a, e) == [e];
    } else if e.key >= a[0].key {
      InsertBefore(a[1..], e0, b, e);
      assert q[1..] == a[1..] + [e0] + b;
    }
  }

  lemma {:induction false} InsertBehind(a: seq<Entry>, b: seq<Entry>, e: Entry)
    requires forall x :: x in a ==> x.key <= e.key
    ensures Insert(a + b, e) == a + Insert(b, e)
  {
    if a == [] {
      assert a + b == b;
    } else {
      assert a[0] in a && forall x :: x in a[1..] ==> x in a;
      InsertBehind(a[1..], b, e);
      assert (a + b)[1..] == a[1..] + b;
      assert [a[0]] + (a[1..] + Insert(b, e)) == a + Insert(b, e);
    }
  }

  /** Hanging a node below its attach point inserts it in order, behind equal keys. */
  lemma {:induction false} AttachInOrder(ns: seq<RbNode>, t: Shape, id: nat)
    requires id < |ns| && Sorted(InOrder(ns, t))
    ensures InOrder(ns, Attached(ns, t, ns[id].key, id)) == Insert(InOrder(ns, t), EntryOf(ns, id))
  {
    var e := EntryOf(ns, id);
    if t.Fork? {
      var l, e0, r := InOrder(ns, t.left), EntryOf(ns, t.id), InOrder(ns, t.right);
      SortedParts(l, e0, r);
      if e.key < e0.key {
        AttachInOrder(ns, t.left, id);
        InsertBefore(l, e0, r, e);
      } else {
        AttachInOrder(ns, t.right, id);
        InsertBehind(l + [e0], r, e);
      }
    }
  }

  lemma SortedParts(l: seq<Entry>, e0: Entry, r: seq<Entry>)
    requires Sorted(l + [e0] + r)
    ensures Sorted(l) && Sorted(r) && forall x :: x in l + [e0] ==> x.key <= e0.key
  {
    var q := l + [e0] + r;
    assert forall i: nat :: i < |l| ==> l[i] == q[i];
    assert forall i: nat :: i < |r| ==> r[i] == q[|l| + 1 + i];
    assert q[|l|] == e0;
  }

  // ---------------------------------------------------------------- the node pool

  /** The free list from `head`, linked through `left`. */
  ghost predicate FreeList(ns: seq<RbNode>, head: nat, pool: seq<nat>)
    decreases |pool|
  {
    if pool == [] then head == NONE
    else head == pool[0] && head < |ns| && FreeList(ns, ns[head].left, pool[1..])
  }

  /** The free list holds exactly the nodes not in use, each once. */
  ghost predicate PoolOk(ns: seq<RbNode>, head: nat, pool: seq<nat>) {
    && FreeList(ns, head, pool)
    && (forall i: nat, j: nat :: i < j < |pool| ==> pool[i] != pool[j])
    && (forall i: nat :: i < |ns| ==> (i in pool <==> !ns[i].inUse))
    && forall i: nat :: i in pool ==> i < |ns|
  }

  lemma {:induction false} FreeListFrame(ns: seq<RbNode>, ns': seq<RbNode>, head: nat, pool: seq<nat>)
    requires FreeList(ns, head, pool) && |ns'| == |ns|
    requires forall i: nat :: i in pool && i < |ns| ==> ns'[i].left == ns[i].left
    ensures FreeList(ns', head, pool)
    decreases |pool|
  {
    if pool != [] {
      assert forall i: nat :: i in pool[1..] ==> i in pool;
      FreeListFrame(ns, ns', ns[head].left, pool[1..]);
    }
  }

  /** Changes to nodes in use, which stay in use, do not touch the pool. */
  lemma PoolFrame(ns: seq<RbNode>, ns': seq<RbNode>, head: nat, pool: seq<nat>)
    requires PoolOk(ns, head, pool) && |ns'| == |ns|
    requires forall i: nat :: i < |ns| ==> ns'[i].inUse == ns[i].inUse && (ns[i].inUse || ns'[i] == ns[i])
    ensures PoolOk(ns', head, pool)
  {
    FreeListFrame(ns, ns', head, pool);
  }

  lemma PoolTake(ns: seq<RbNode>, ns': seq<RbNode>, head: nat, pool: seq<nat>)
    requires PoolOk(ns, head, pool) && pool != [] && |ns'| == |ns|
    requires ns'[head].inUse && forall i: nat :: i < |ns| && i != head ==> ns'[i] == ns[i]
    ensures PoolOk(ns', ns[head].left, pool[1..]) && !ns[head].inUse
  {
    var rest := pool[1..];
    assert pool == [pool[0]] + rest && pool[0] !in rest;
    assert forall i: nat :: i in pool <==> i == pool[0] || i in rest;
    forall i: nat, j: nat | i < j < |rest| ensures rest[i] != rest[j] {
      assert rest[i] == pool[i + 1] && rest[j] == pool[j + 1];
    }
    FreeListFrame(ns, ns', ns[head].left, pool[1..]);
  }

  lemma NoneFree(ns: seq<RbNode>, head: nat, pool: seq<nat>)
    requires PoolOk(ns, head, pool)
    ensures pool == [] <==> forall i: nat :: i < |ns| ==> ns[i].inUse
  {
    if pool != [] {
      assert pool[0] in pool && !ns[pool[0]].inUse;
    }
  }

  lemma PoolGive(ns: seq<RbNode>, ns': seq<RbNode>, head: nat, pool: seq<nat>, id: nat)
    requires PoolOk(ns, head, pool) && id < |ns| && ns[id].inUse && |ns'| == |ns|
    requires ns'[id] == ns[id].(inUse := false, left := head)
    requires forall i: nat :: i < |ns| && i != id ==> ns'[i] == ns[i]
    ensures PoolOk(ns', id, [id] + pool)
  {
    FreeListFrame(ns, ns', head, pool);
    assert ([id] + pool)[1..] == pool;
  }

  function CountFrom(lo: nat, hi: nat): (s: seq<nat>)
    requires lo <= hi
    ensures |s| == hi - lo && forall i: nat :: i < hi - lo ==> s[i] == lo + i
    decreases hi - lo
  {
    if lo == hi then [] else [lo] + CountFrom(lo + 1, hi)
  }

  lemma {:induction false} FreshFreeList(ns: seq<RbNode>, lo: nat)
    requires lo <= |ns| && forall i: nat :: i < |ns| ==> ns[i].left == if i + 1 < |ns| then i + 1 else NONE
    ensures FreeList(ns, if lo < |ns| then lo else NONE, CountFrom(lo, |ns|))
    decreases |ns| - lo
  {
    if lo < |ns| {
      FreshFreeList(ns, lo + 1);
      assert CountFrom(lo, |ns|)[1..] == CountFrom(lo + 1, |ns|);
    }
  }

  lemma Counted(pool: seq<nat>, n: nat)
    requires |pool| == n && forall i: nat :: i < n ==> pool[i] == i
    ensures forall i: nat :: i in pool <==> i < n
  {
    forall i: nat ensures i in pool <==> i < n {
      if i < n {
        assert pool[i] == i;
      }
    }
  }

  lemma FreshPool(ns: seq<RbNode>)
    requires 0 < |ns|
    requires forall i: nat :: i < |ns| ==> !ns[i].inUse && ns[i].left == if i + 1 < |ns| then i + 1 else NONE
    ensures PoolOk(ns, 0, CountFrom(0, |ns|))
  {
    FreshFreeList(ns, 0);
    var pool := CountFrom(0, |ns|);
    assert |pool| == |ns| && forall i: nat :: i < |ns| ==> pool[i] == i;
    hide CountFrom, FreeList;
    Counted(pool, |ns|);
  }
}
