/** The rebalancing after an insertion, as the kernel writes it: what it keeps and what it breaks. */
module RbFix {
  import opened Layout
  import opened Arith
  import opened Cfs
  import opened RunQueues
  import opened RbTrees

  /** The nodes and the root link. */
  datatype Arena = Arena(ns: seq<RbNode>, root: nat)

  // ---------------------------------------------------------------- the code on values

  function WithParent(ns: seq<RbNode>, i: nat, p: nat): seq<RbNode>
    requires i < |ns|
  {
    ns[i := ns[i].(parent := p)]
  }

  function WithColor(ns: seq<RbNode>, i: nat, c: Color): seq<RbNode>
    requires i < |ns|
  {
    ns[i := ns[i].(color := c)]
  }

  /** `rotate_left`, statement by statement; None is an index out of bounds. */
  function RotL(a: Arena, x: nat): Option<Arena> {
    if x >= |a.ns| || a.ns[x].right >= |a.ns| then None else
      var y := a.ns[x].right;
      var ns1 := a.ns[x := a.ns[x].(right := a.ns[y].left)];
      var b := ns1[y].left;
      if b != NONE && b >= |ns1| then None else
        var ns2 := if b != NONE then WithParent(ns1, b, x) else ns1;
        var ns3 := WithParent(ns2, y, ns2[x].parent);
        var p := ns3[x].parent;
        if p != NONE && p >= |ns3| then None else
          var ns4 := if p == NONE then ns3 else ns3[p := Relinked(ns3[p], x, y)];
          var ns5 := ns4[y := ns4[y].(left := x)];
          Some(Arena(WithParent(ns5, x, y), if p == NONE then y else a.root))
  }

  /** `rotate_right`. */
  function RotR(a: Arena, y: nat): Option<Arena> {
    if y >= |a.ns| || a.ns[y].left >= |a.ns| then None else
      var x := a.ns[y].left;
      var ns1 := a.ns[y := a.ns[y].(left := a.ns[x].right)];
      var b := ns1[x].right;
      if b != NONE && b >= |ns1| then None else
        var ns2 := if b != NONE then WithParent(ns1, b, y) else ns1;
        var ns3 := WithParent(ns2, x, ns2[y].parent);
        var p := ns3[y].parent;
        if p != NONE && p >= |ns3| then None else
          var ns4 := if p == NONE then ns3 else ns3[p := RelinkedRight(ns3[p], y, x)];
          var ns5 := ns4[x := ns4[x].(right := y)];
          Some(Arena(WithParent(ns5, y, x), if p == NONE then x else a.root))
  }

  datatype Round = Stop(a: Arena) | Climb(a: Arena, node: nat) | Crash

  /** The last statements of a rotating round: the grandparent's new parent turns black, the grandparent red. */
  function Repaint(a: Arena, g: nat): Round {
    if g >= |a.ns| || a.ns[g].parent >= |a.ns| then Crash
    else Stop(Arena(WithColor(WithColor(a.ns, a.ns[g].parent, Black), g, Red), a.root))
  }

  /** A rotating round whose parent is a left child. */
  function TurnRight(a: Arena, node: nat, parent: nat, g: nat): Round
    requires parent < |a.ns|
  {
    var inner := a.ns[parent].right == node;
    var a1 := if inner then RotL(a, parent) else Some(a);
    var n1 := if inner then parent else node;
    if a1.None? || n1 >= |a1.value.ns| then Crash else
      var a3 := RotR(Arena(WithParent(a1.value.ns, n1, g), a1.value.root), g);
      if a3.None? then Crash else Repaint(a3.value, g)
  }

  /** A rotating round whose parent is a right child. */
  function TurnLeft(a: Arena, node: nat, parent: nat, g: nat): Round
    requires parent < |a.ns|
  {
    var inner := a.ns[parent].left == node;
    var a1 := if inner then RotR(a, parent) else Some(a);
    var n1 := if inner then parent else node;
    if a1.None? || n1 >= |a1.value.ns| then Crash else
      var a3 := RotL(Arena(WithParent(a1.value.ns, n1, g), a1.value.root), g);
      if a3.None? then Crash else Repaint(a3.value, g)
  }

  function Uncle(ns: seq<RbNode>, g: nat, parent: nat): nat
    requires g < |ns|
  {
    if ns[g].left == parent then ns[g].right else ns[g].left
  }

  /** One pass through the loop of `fix_insert`. */
  function FixRound(a: Arena, node: nat): Round {
    if node == a.root then Stop(a) else if node >= |a.ns| then Crash else
      var parent := a.ns[node].parent;
      if parent == NONE then Stop(a) else if parent >= |a.ns| then Crash
      else if a.ns[parent].color != Red || a.ns[parent].parent == NONE then Stop(a)
      else if a.ns[parent].parent >= |a.ns| then Crash else
        var g := a.ns[parent].parent;
        var uncle := Uncle(a.ns, g, parent);
        if uncle != NONE && uncle >= |a.ns| then Crash
        else if uncle != NONE && a.ns[uncle].color == Red then
          Climb(Arena(WithColor(WithColor(WithColor(a.ns, parent, Black), uncle, Black), g, Red), a.root), g)
        else if a.ns[g].left == parent then TurnRight(a, node, parent, g)
        else TurnLeft(a, node, parent, g)
  }

  datatype Fixed = Done(a: Arena) | Failed | Unfinished

  /** `fix_insert`, up to a number of passes. */
  function FixFrom(a: Arena, node: nat, rounds: nat): Fixed
    decreases rounds, 0
  {
    if rounds == 0 then Unfinished else
      match FixRound(a, node)
      case Stop(a') => if a'.root >= |a'.ns| then Failed else Done(Arena(WithColor(a'.ns, a'.root, Black), a'.root))
      case Climb(a', node') => FixFrom(a', node', rounds - 1)
      case Crash => Failed
  }

  /** The descent of `insert_node`; None past a bad link or too many steps. */
  function Descend(ns: seq<RbNode>, key: nat, current: nat, steps: nat): Option<nat>
    decreases steps, 0
  {
    if steps == 0 || current >= |ns| then None
    else if key < ns[current].key then
      if ns[current].left == NONE then Some(current) else Descend(ns, key, ns[current].left, steps - 1)
    else
      if ns[current].right == NONE then Some(current) else Descend(ns, key, ns[current].right, steps - 1)
  }

  /** Node `id` hung below `p`. */
  function Hung(ns: seq<RbNode>, p: nat, id: nat): seq<RbNode>
    requires p < |ns| && id < |ns|
  {
    var ns1 := ns[p := if ns[id].key < ns[p].key then ns[p].(left := id) else ns[p].(right := id)];
    WithParent(ns1, id, p)
  }

  /** `insert` into the node `id` taken from the pool. */
  function InsertNode(a: Arena, id: nat, key: nat, tid: nat, steps: nat): Fixed
    requires id < |a.ns|
  {
    var ns := a.ns[id := RbNode(key, tid, NONE, NONE, NONE, Red, true)];
    if a.root == NONE then Done(Arena(WithColor(ns, id, Black), id)) else
      var p := Descend(ns, key, a.root, steps);
      if p.None? then Unfinished
      else if p.value >= |ns| then Failed
      else FixFrom(Arena(Hung(ns, p.value, id), a.root), id, steps)
  }

  // ---------------------------------------------------------------- rotations

  /** A well-linked tree. */
  ghost predicate Tree(a: Arena, t: Shape) {
    Links(a.ns, t, a.root, NONE) && NoDup(t) && |a.ns| <= NONE
  }

  /** Nodes keep their use and entry, and unused nodes everything. */
  ghost predicate SameNodes(ns: seq<RbNode>, ns': seq<RbNode>) {
    && |ns'| == |ns|
    && forall i: nat :: i < |ns| ==>
      && ns'[i].inUse == ns[i].inUse && ns'[i].key == ns[i].key && ns'[i].tid == ns[i].tid
      && (ns[i].inUse || ns'[i] == ns[i])
  }

  lemma RotLIsRotation(a: Arena, x: nat)
    requires Family(a.ns, a.root, x)
    ensures RotL(a, x).Some? && LeftRotation(a.ns, RotL(a, x).value.ns, x)
    ensures RotL(a, x).value.root == LinkAfter(a.ns, x, a.root) && SameNodes(a.ns, RotL(a, x).value.ns)
  {
  }

  lemma RotRIsRotation(a: Arena, y: nat)
    requires FamilyRight(a.ns, a.root, y)
    ensures RotR(a, y).Some? && RightRotation(a.ns, RotR(a, y).value.ns, y)
    ensures RotR(a, y).value.root == (if a.root == y then a.ns[y].left else a.root)
              && SameNodes(a.ns, RotR(a, y).value.ns)
  {
  }

  /** `rotate_left` on a well-linked tree. */
  lemma RotLKeeps(a: Arena, t: Shape, x: nat)
    requires Tree(a, t) && x in Ids(t) && x < |a.ns| && a.ns[x].right != NONE
    ensures RotL(a, x).Some?
    ensures var a' := RotL(a, x).value; var t' := RotatedLeft(t, x);
            && Tree(a', t') && Ids(t') == Ids(t) && InOrder(a'.ns, t') == InOrder(a.ns, t) && SameNodes(a.ns, a'.ns)
            && LeftRotation(a.ns, a'.ns, x)
  {
    RotationNodes(a.ns, t, a.root, x);
    RotLIsRotation(a, x);
    hide RotL, Family, LeftRotation;
    RotateLeftKeeps(a.ns, RotL(a, x).value.ns, t, a.root, x);
  }

  lemma RightFamily(a: Arena, t: Shape, y: nat)
    requires Tree(a, t) && y in Ids(t) && y < |a.ns| && a.ns[y].left != NONE
    ensures FamilyRight(a.ns, a.root, y)
  {
    hide Family, FamilyRight, Links;
    FlipLinks(a.ns, t, a.root, NONE);
    FlipIds(t);
    RotationNodes(FlipAll(a.ns), FlipShape(t), a.root, y);
    FamilyIsMirrored(a.ns, a.root, y);
  }

  /** `rotate_right` on a well-linked tree. */
  lemma RotRKeeps(a: Arena, t: Shape, y: nat)
    requires Tree(a, t) && y in Ids(t) && y < |a.ns| && a.ns[y].left != NONE
    ensures RotR(a, y).Some?
    ensures var a' := RotR(a, y).value; var t' := RotatedRight(t, y);
            && Tree(a', t') && Ids(t') == Ids(t) && InOrder(a'.ns, t') == InOrder(a.ns, t) && SameNodes(a.ns, a'.ns)
            && RightRotation(a.ns, a'.ns, y)
  {
    RightFamily(a, t, y);
    RotRIsRotation(a, y);
    hide RotR, FamilyRight, RightRotation;
    RotateRightKeeps(a.ns, RotR(a, y).value.ns, t, a.root, y);
  }

  // ---------------------------------------------------------------- paths

  /** The nodes from the root of `t` down to `x`. */
  ghost function PathOf(t: Shape, x: nat): seq<nat>
    requires x in Ids(t)
  {
    if t.id == x then [x]
    else if x in Ids(t.left) then [t.id] + PathOf(t.left, x)
    else [t.id] + PathOf(t.right, x)
  }

  ghost predicate IsChild(ns: seq<RbNode>, p: nat, c: nat) {
    && p < |ns| && c < |ns| && p != NONE && c != NONE && ns[p].inUse && ns[c].inUse
    && ns[c].parent == p && (ns[p].left == c || ns[p].right == c)
  }

  ghost predicate ChildAt(ns: seq<RbNode>, path: seq<nat>, k: nat)
    requires 0 < k < |path|
  {
    IsChild(ns, path[k - 1], path[k])
  }

  /** Each node of the path is a child of the one before, and none occurs twice. */
  ghost predicate IsPath(ns: seq<RbNode>, path: seq<nat>) {
    && (forall k: nat :: k < |path| ==> path[k] < |ns| && path[k] != NONE)
    && (forall k: nat :: 0 < k < |path| ==> ChildAt(ns, path, k))
    && forall j: nat, k: nat :: j < k < |path| ==> path[j] != path[k]
  }

  lemma {:induction false} PathsAreLinked(ns: seq<RbNode>, t: Shape, at: nat, parent: nat, x: nat)
    requires Links(ns, t, at, parent) && NoDup(t) && x in Ids(t)
    ensures var path := PathOf(t, x);
            && IsPath(ns, path) && |path| > 0 && path[0] == at && path[|path| - 1] == x
            && forall k: nat :: k < |path| ==> path[k] in Ids(t)
    decreases t
  {
    if t.id != x {
      var sub := if x in Ids(t.left) then t.left else t.right;
      var subAt := if x in Ids(t.left) then ns[t.id].left else ns[t.id].right;
      PathsAreLinked(ns, sub, subAt, t.id, x);
      var rest := PathOf(sub, x);
      assert IsChild(ns, t.id, rest[0]);
      ConsPath(ns, t.id, rest);
    }
  }

  lemma ConsPath(ns: seq<RbNode>, p: nat, path: seq<nat>)
    requires IsPath(ns, path) && path != [] && IsChild(ns, p, path[0]) && p !in path
    ensures IsPath(ns, [p] + path)
  {
    var path' := [p] + path;
    forall k: nat | 0 < k < |path'| ensures ChildAt(ns, path', k) {
      if k > 1 {
        assert ChildAt(ns, path, k - 1);
      }
    }
  }

  /** The path of a node in a well-linked tree. */
  ghost predicate PathTo(a: Arena, t: Shape, path: seq<nat>) {
    && IsPath(a.ns, path) && path != [] && path[0] == a.root && a.root < |a.ns| && a.ns[a.root].parent == NONE
    && forall k: nat :: k < |path| ==> path[k] in Ids(t)
  }

  lemma PathInTree(a: Arena, t: Shape, x: nat)
    requires Tree(a, t) && x in Ids(t)
    ensures PathTo(a, t, PathOf(t, x)) && PathOf(t, x)[|PathOf(t, x)| - 1] == x
  {
    PathsAreLinked(a.ns, t, a.root, NONE, x);
  }

  /** The two children of a node differ. */
  lemma {:induction false} SiblingsDiffer(ns: seq<RbNode>, t: Shape, at: nat, parent: nat, x: nat)
    requires Links(ns, t, at, parent) && NoDup(t) && x in Ids(t)
    ensures x < |ns| && (ns[x].left == NONE || ns[x].left != ns[x].right)
    ensures ns[x].left != NONE ==> ns[x].left in Ids(t) && IsChild(ns, x, ns[x].left)
    ensures ns[x].right != NONE ==> ns[x].right in Ids(t) && IsChild(ns, x, ns[x].right)
    decreases t
  {
    if t.id == x {
      assert t.left.Fork? ==> t.left.id in Ids(t.left);
      assert t.right.Fork? ==> t.right.id in Ids(t.right);
    } else if x in Ids(t.left) {
      SiblingsDiffer(ns, t.left, ns[t.id].left, t.id, x);
    } else {
      SiblingsDiffer(ns, t.right, ns[t.id].right, t.id, x);
    }
  }

  /** Node, parent, grandparent and great-grandparent are different nodes of the tree. */
  lemma Ancestors(a: Arena, t: Shape, g: nat, x: nat, node: nat)
    requires Tree(a, t) && node in Ids(t) && IsChild(a.ns, x, node) && IsChild(a.ns, g, x)
    ensures x in Ids(t) && g in Ids(t) && node != x && node != g && x != g && InUse(a.ns, a.root) && a.root in Ids(t)
    ensures var p := a.ns[g].parent; p != node && p != x && p != g
  {
    PathInTree(a, t, node);
    var path := PathOf(t, node);
    var n := |path| - 1;
    assert n > 0 && path[n - 1] == x by {
      if n > 0 {
        assert ChildAt(a.ns, path, n);
      }
    }
    assert n > 1 && path[n - 2] == g by {
      if n > 1 {
        assert ChildAt(a.ns, path, n - 1);
      }
    }
    if n > 2 {
      assert ChildAt(a.ns, path, n - 2);
    }
    assert ChildAt(a.ns, path, 1);
  }

  // ---------------------------------------------------------------- trees whose parent links may be wrong

  /** `t` is the tree linked from `at` by child links. */
  ghost predicate ChildLinks(ns: seq<RbNode>, t: Shape, at: nat) {
    match t
    case Leaf => at == NONE
    case Fork(l, id, r) =>
      at == id && id < |ns| && id != NONE && ns[id].inUse && ChildLinks(ns, l, ns[id].left)
      && ChildLinks(ns, r, ns[id].right)
  }

  /** Only parents and colours differ. */
  ghost predicate SameChildren(ns: seq<RbNode>, ns': seq<RbNode>) {
    |ns'| == |ns| && forall i: nat :: i < |ns| ==> ns'[i] == ns[i].(parent := ns'[i].parent, color := ns'[i].color)
  }

  lemma {:induction false} ChildLinksOf(ns: seq<RbNode>, ns': seq<RbNode>, t: Shape, at: nat, parent: nat)
    requires Links(ns, t, at, parent) && SameChildren(ns, ns')
    ensures ChildLinks(ns', t, at)
  {
    if t.Fork? {
      ChildLinksOf(ns, ns', t.left, ns[t.id].left, t.id);
      ChildLinksOf(ns, ns', t.right, ns[t.id].right, t.id);
    }
  }

  /** Child links determine the tree. */
  lemma {:induction false} OneShape(ns: seq<RbNode>, t: Shape, t': Shape, at: nat)
    requires ChildLinks(ns, t, at) && ChildLinks(ns, t', at)
    ensures t == t'
  {
    if t.Fork? {
      OneShape(ns, t.left, t'.left, ns[t.id].left);
      OneShape(ns, t.right, t'.right, ns[t.id].right);
    }
  }

  /** Child links determine what the parent links should be. */
  lemma {:induction false} OneParentEach(ns: seq<RbNode>, ns': seq<RbNode>, t: Shape, at: nat, parent: nat, x: nat)
    requires Links(ns, t, at, parent) && Links(ns', t, at, parent) && x in Ids(t)
    ensures x < |ns| && x < |ns'| && ns[x].parent == ns'[x].parent
  {
    if t.id != x {
      if x in Ids(t.left) {
        OneParentEach(ns, ns', t.left, ns[t.id].left, t.id, x);
      } else {
        OneParentEach(ns, ns', t.right, ns[t.id].right, t.id, x);
      }
    }
  }

  ghost predicate Recolored(ns: seq<RbNode>, ns': seq<RbNode>) {
    |ns'| == |ns| && forall i: nat :: i < |ns| ==> ns'[i] == ns[i].(color := ns'[i].color)
  }

  lemma {:induction false} RecolorLinks(ns: seq<RbNode>, ns': seq<RbNode>, t: Shape, at: nat, parent: nat)
    requires Links(ns, t, at, parent) && Recolored(ns, ns')
    ensures Links(ns', t, at, parent)
  {
    if t.Fork? {
      RecolorLinks(ns, ns', t.left, ns[t.id].left, t.id);
      RecolorLinks(ns, ns', t.right, ns[t.id].right, t.id);
    }
  }

  lemma SameOrder(ns: seq<RbNode>, ns': seq<RbNode>, t: Shape)
    requires SameNodes(ns, ns')
    ensures InOrder(ns', t) == InOrder(ns, t)
  {
    InOrderFrame(ns, ns', t);
  }

  /** `t` would be well linked, were the parent of `node` the node `p`; it is another. */
  ghost predicate BrokenAt(a: Arena, t: Shape, node: nat, p: nat) {
    && node < |a.ns| && node in Ids(t) && a.ns[node].parent != p
    && Tree(Arena(WithParent(a.ns, node, p), a.root), t)
  }

  ghost predicate Broken(a: Arena, t: Shape) {
    exists node: nat, p: nat :: BrokenAt(a, t, node, p)
  }

  /** A broken tree still has its child links, but its parent links do not agree. */
  lemma BrokenMeans(a: Arena, t: Shape)
    requires Broken(a, t)
    ensures ChildLinks(a.ns, t, a.root) && NoDup(t) && !Links(a.ns, t, a.root, NONE)
  {
    var node: nat, p: nat :| BrokenAt(a, t, node, p);
    var ns := WithParent(a.ns, node, p);
    ChildLinksOf(ns, a.ns, t, a.root, NONE);
    if Links(a.ns, t, a.root, NONE) {
      OneParentEach(ns, a.ns, t, a.root, NONE, node);
    }
  }

  lemma RecolorBroken(a: Arena, ns': seq<RbNode>, t: Shape)
    requires Broken(a, t) && Recolored(a.ns, ns')
    ensures Broken(Arena(ns', a.root), t)
  {
    var node: nat, p: nat :| BrokenAt(a, t, node, p);
    RecolorLinks(WithParent(a.ns, node, p), WithParent(ns', node, p), t, a.root, NONE);
    assert BrokenAt(Arena(ns', a.root), t, node, p);
  }

  // ---------------------------------------------------------------- a rotating round

  ghost predicate InUse(ns: seq<RbNode>, i: nat) {
    i < |ns| && ns[i].inUse
  }

  /** What a rotating round leaves: the same entries in order on a tree with one wrong parent link. */
  ghost predicate Turned(a: Arena, t: Shape, a': Arena, t': Shape) {
    && Broken(a', t') && Ids(t') == Ids(t) && InOrder(a'.ns, t') == InOrder(a.ns, t) && SameNodes(a.ns, a'.ns)
    && InUse(a'.ns, a'.root)
  }

  /** A rotation beside a stale parent link: but for that link it is the rotation of the well-linked arena. */
  lemma StaleRight(a: Arena, g: nat, x: nat, node: nat)
    requires FamilyRight(a.ns, a.root, g) && a.ns[g].left == x && node < |a.ns| && a.ns[node].inUse
             && a.ns[node].parent == x
    requires node != g && node != x && node != a.ns[x].right && node != a.ns[g].parent
    ensures var r := RotR(Arena(WithParent(a.ns, node, g), a.root), g);
            && r.Some? && |r.value.ns| == |a.ns| && RightRotation(a.ns, WithParent(r.value.ns, node, x), g)
            && r.value.root == (if a.root == g then x else a.root)
            && r.value.ns[node].parent == g && r.value.ns[g].parent == x && SameNodes(a.ns, r.value.ns)
  {
    var a2 := Arena(WithParent(a.ns, node, g), a.root);
    RotRIsRotation(a2, g);
    hide RotR;
  }

  lemma OuterRight(a: Arena, t: Shape, g: nat, x: nat, node: nat)
    requires Tree(a, t) && node in Ids(t) && IsChild(a.ns, x, node) && IsChild(a.ns, g, x)
    requires a.ns[g].left == x && a.ns[x].left == node
    ensures var r := RotR(Arena(WithParent(a.ns, node, g), a.root), g);
            && r.Some? && Turned(a, t, r.value, RotatedRight(t, g)) && InUse(r.value.ns, g)
            && InUse(r.value.ns, x) && r.value.ns[g].parent == x
  {
    hide RotR, Links, NoDup, Ids, RotatedRight, InOrder, RightRotation, FamilyRight;
    Ancestors(a, t, g, x, node);
    SiblingsDiffer(a.ns, t, a.root, NONE, x);
    RightFamily(a, t, g);
    StaleRight(a, g, x, node);
    var a3 := RotR(Arena(WithParent(a.ns, node, g), a.root), g).value;
    var fixed := WithParent(a3.ns, node, x);
    RotateRightKeeps(a.ns, fixed, t, a.root, g);
    SameOrder(fixed, a3.ns, RotatedRight(t, g));
    assert BrokenAt(a3, RotatedRight(t, g), node, x);
  }

  /** A rotation beside a stale parent link: but for that link it is the rotation of the well-linked arena. */
  lemma StaleLeft(a: Arena, g: nat, x: nat, node: nat)
    requires Family(a.ns, a.root, g) && a.ns[g].right == x && node < |a.ns| && a.ns[node].inUse
             && a.ns[node].parent == x
    requires node != g && node != x && node != a.ns[x].left && node != a.ns[g].parent
    ensures var r := RotL(Arena(WithParent(a.ns, node, g), a.root), g);
            && r.Some? && |r.value.ns| == |a.ns| && LeftRotation(a.ns, WithParent(r.value.ns, node, x), g)
            && r.value.root == (if a.root == g then x else a.root)
            && r.value.ns[node].parent == g && r.value.ns[g].parent == x && SameNodes(a.ns, r.value.ns)
  {
    var a2 := Arena(WithParent(a.ns, node, g), a.root);
    RotLIsRotation(a2, g);
    hide RotL;
  }

  lemma OuterLeft(a: Arena, t: Shape, g: nat, x: nat, node: nat)
    requires Tree(a, t) && node in Ids(t) && IsChild(a.ns, x, node) && IsChild(a.ns, g, x)
    requires a.ns[g].right == x && a.ns[x].right == node
    ensures var r := RotL(Arena(WithParent(a.ns, node, g), a.root), g);
            && r.Some? && Turned(a, t, r.value, RotatedLeft(t, g)) && InUse(r.value.ns, g)
            && InUse(r.value.ns, x) && r.value.ns[g].parent == x
  {
    hide RotL, Links, NoDup, Ids, RotatedLeft, InOrder, LeftRotation, Family;
    Ancestors(a, t, g, x, node);
    SiblingsDiffer(a.ns, t, a.root, NONE, x);
    RotationNodes(a.ns, t, a.root, g);
    StaleLeft(a, g, x, node);
    var a3 := RotL(Arena(WithParent(a.ns, node, g), a.root), g).value;
    var fixed := WithParent(a3.ns, node, x);
    RotateLeftKeeps(a.ns, fixed, t, a.root, g);
    SameOrder(fixed, a3.ns, RotatedLeft(t, g));
    assert BrokenAt(a3, RotatedLeft(t, g), node, x);
  }

  lemma PaintTurned(a: Arena, t: Shape, a': Arena, t': Shape, g: nat)
    requires Turned(a, t, a', t') && InUse(a'.ns, g) && InUse(a'.ns, a'.ns[g].parent)
    ensures Repaint(a', g).Stop? && Turned(a, t, Repaint(a', g).a, t')
  {
    hide Links, NoDup, Ids, InOrder, Broken;
    RecolorBroken(a', Repaint(a', g).a.ns, t');
    SameOrder(a'.ns, Repaint(a', g).a.ns, t');
  }

  /** A round that turns the grandparent to the right. */
  lemma TurnRightBreaks(a: Arena, t: Shape, g: nat, parent: nat, node: nat) returns (t': Shape)
    requires Tree(a, t) && node in Ids(t) && IsChild(a.ns, parent, node) && IsChild(a.ns, g, parent)
             && a.ns[g].left == parent
    ensures var r := TurnRight(a, node, parent, g);
            && r.Stop? && Turned(a, t, r.a, t') && g < |r.a.ns|
            && r.a.ns[g].parent == if a.ns[parent].right == node then node else parent
    ensures t' == RotatedRight(if a.ns[parent].right == node then RotatedLeft(t, parent) else t, g)
  {
    hide Links, NoDup, Ids, RotatedLeft, RotatedRight, TurnRight, Turned;
    if a.ns[parent].right == node {
      t' := TurnRightInner(a, t, g, parent, node);
    } else {
      t' := TurnRightOuter(a, t, g, parent, node);
    }
  }

  lemma TurnRightInner(a: Arena, t: Shape, g: nat, parent: nat, node: nat) returns (t': Shape)
    requires Tree(a, t) && node in Ids(t) && IsChild(a.ns, parent, node) && IsChild(a.ns, g, parent)
             && a.ns[g].left == parent && a.ns[parent].right == node
    ensures var r := TurnRight(a, node, parent, g);
            && r.Stop? && Turned(a, t, r.a, t') && g < |r.a.ns| && r.a.ns[g].parent == node
    ensures t' == RotatedRight(RotatedLeft(t, parent), g)
  {
    hide RotL, RotR, Links, NoDup, Ids, RotatedLeft, RotatedRight, InOrder, LeftRotation;
    Ancestors(a, t, g, parent, node);
    SiblingsDiffer(a.ns, t, a.root, NONE, node);
    RotLKeeps(a, t, parent);
    var a1, t1 := RotL(a, parent).value, RotatedLeft(t, parent);
    InnerRight(a, a1, g, parent, node);
    OuterRight(a1, t1, g, node, parent);
    var a3 := RotR(Arena(WithParent(a1.ns, parent, g), a1.root), g).value;
    t' := RotatedRight(t1, g);
    PaintTurned(a, t, a3, t', g);
  }

  lemma TurnRightOuter(a: Arena, t: Shape, g: nat, parent: nat, node: nat) returns (t': Shape)
    requires Tree(a, t) && node in Ids(t) && IsChild(a.ns, parent, node) && IsChild(a.ns, g, parent)
             && a.ns[g].left == parent && a.ns[parent].right != node
    ensures var r := TurnRight(a, node, parent, g);
            && r.Stop? && Turned(a, t, r.a, t') && g < |r.a.ns| && r.a.ns[g].parent == parent
    ensures t' == RotatedRight(t, g)
  {
    hide RotL, RotR, Links, NoDup, Ids, RotatedLeft, RotatedRight, InOrder, LeftRotation;
    Ancestors(a, t, g, parent, node);
    SiblingsDiffer(a.ns, t, a.root, NONE, node);
    OuterRight(a, t, g, parent, node);
    var a3 := RotR(Arena(WithParent(a.ns, node, g), a.root), g).value;
    t' := RotatedRight(t, g);
    PaintTurned(a, t, a3, t', g);
  }

  /** After the inner rotation, parent and node have changed places. */
  lemma InnerRight(a: Arena, a1: Arena, g: nat, parent: nat, node: nat)
    requires LeftRotation(a.ns, a1.ns, parent) && SameNodes(a.ns, a1.ns) && a.ns[parent].right == node
    requires IsChild(a.ns, parent, node) && IsChild(a.ns, g, parent) && a.ns[g].left == parent
    requires g != parent && g != node && parent != node && a.ns[node].left != g
    ensures IsChild(a1.ns, node, parent) && IsChild(a1.ns, g, node) && a1.ns[g].left == node
            && a1.ns[node].left == parent
  {
  }

  /** A round that turns the grandparent to the left. */
  lemma TurnLeftBreaks(a: Arena, t: Shape, g: nat, parent: nat, node: nat) returns (t': Shape)
    requires Tree(a, t) && node in Ids(t) && IsChild(a.ns, parent, node) && IsChild(a.ns, g, parent)
             && a.ns[g].right == parent
    ensures var r := TurnLeft(a, node, parent, g);
            && r.Stop? && Turned(a, t, r.a, t') && g < |r.a.ns|
            && r.a.ns[g].parent == if a.ns[parent].left == node then node else parent
    ensures t' == RotatedLeft(if a.ns[parent].left == node then RotatedRight(t, parent) else t, g)
  {
    hide Links, NoDup, Ids, RotatedLeft, RotatedRight, TurnLeft, Turned;
    if a.ns[parent].left == node {
      t' := TurnLeftInner(a, t, g, parent, node);
    } else {
      t' := TurnLeftOuter(a, t, g, parent, node);
    }
  }

  lemma TurnLeftInner(a: Arena, t: Shape, g: nat, parent: nat, node: nat) returns (t': Shape)
    requires Tree(a, t) && node in Ids(t) && IsChild(a.ns, parent, node) && IsChild(a.ns, g, parent)
             && a.ns[g].right == parent && a.ns[parent].left == node
    ensures var r := TurnLeft(a, node, parent, g);
            && r.Stop? && Turned(a, t, r.a, t') && g < |r.a.ns| && r.a.ns[g].parent == node
    ensures t' == RotatedLeft(RotatedRight(t, parent), g)
  {
    hide RotL, RotR, Links, NoDup, Ids, RotatedLeft, RotatedRight, InOrder, RightRotation;
    Ancestors(a, t, g, parent, node);
    SiblingsDiffer(a.ns, t, a.root, NONE, node);
    RotRKeeps(a, t, parent);
    var a1, t1 := RotR(a, parent).value, RotatedRight(t, parent);
    InnerLeft(a, a1, g, parent, node);
    OuterLeft(a1, t1, g, node, parent);
    var a3 := RotL(Arena(WithParent(a1.ns, parent, g), a1.root), g).value;
    t' := RotatedLeft(t1, g);
    PaintTurned(a, t, a3, t', g);
  }

  lemma TurnLeftOuter(a: Arena, t: Shape, g: nat, parent: nat, node: nat) returns (t': Shape)
    requires Tree(a, t) && node in Ids(t) && IsChild(a.ns, parent, node) && IsChild(a.ns, g, parent)
             && a.ns[g].right == parent && a.ns[parent].left != node
    ensures var r := TurnLeft(a, node, parent, g);
            && r.Stop? && Turned(a, t, r.a, t') && g < |r.a.ns| && r.a.ns[g].parent == parent
    ensures t' == RotatedLeft(t, g)
  {
    hide RotL, RotR, Links, NoDup, Ids, RotatedLeft, RotatedRight, InOrder, RightRotation;
    Ancestors(a, t, g, parent, node);
    SiblingsDiffer(a.ns, t, a.root, NONE, node);
    OuterLeft(a, t, g, parent, node);
    var a3 := RotL(Arena(WithParent(a.ns, node, g), a.root), g).value;
    t' := RotatedLeft(t, g);
    PaintTurned(a, t, a3, t', g);
  }

  /** After the inner rotation, parent and node have changed places. */
  lemma InnerLeft(a: Arena, a1: Arena, g: nat, parent: nat, node: nat)
    requires RightRotation(a.ns, a1.ns, parent) && SameNodes(a.ns, a1.ns) && a.ns[parent].left == node
    requires IsChild(a.ns, parent, node) && IsChild(a.ns, g, parent) && a.ns[g].right == parent
    requires g != parent && g != node && parent != node && a.ns[node].right != g
    ensures IsChild(a1.ns, node, parent) && IsChild(a1.ns, g, node) && a1.ns[g].right == node
            && a1.ns[node].right == parent
  {
  }

  // ---------------------------------------------------------------- the climb

  /** The climb from a red node at depth `i` below `path` ends in a rotation: its parent is red, and its uncle is red
    * and the climb from its grandparent does, or its uncle is not red. */
  ghost predicate Rotates(ns: seq<RbNode>, path: seq<nat>, i: nat)
    requires i <= |path| && forall k: nat :: k < |path| ==> path[k] < |ns|
    decreases i
  {
    && i >= 2 && ns[path[i - 1]].color == Red
    && var uncle := Uncle(ns, path[i - 2], path[i - 1]);
    (uncle < |ns| && ns[uncle].color == Red ==> Rotates(ns, path, i - 2))
  }

  ghost predicate SameColor(ns: seq<RbNode>, ns': seq<RbNode>, c: nat) {
    |ns'| == |ns| && (c < |ns| ==> ns'[c].color == ns[c].color)
  }

  /** The part of the arena that the climb reads. */
  ghost predicate LooksSame(ns: seq<RbNode>, ns': seq<RbNode>, path: seq<nat>, i: nat) {
    && |ns'| == |ns| && i <= |path| && (forall k: nat :: k < |path| ==> path[k] < |ns|)
    && (forall k: nat :: k < i ==> SameColor(ns, ns', path[k]))
    && forall k: nat :: k < i - 1 ==>
      && ns'[path[k]].left == ns[path[k]].left && ns'[path[k]].right == ns[path[k]].right
      && SameColor(ns, ns', ns[path[k]].left) && SameColor(ns, ns', ns[path[k]].right)
  }

  lemma {:induction false} RotatesFrame(ns: seq<RbNode>, ns': seq<RbNode>, path: seq<nat>, path': seq<nat>, i: nat)
    requires LooksSame(ns, ns', path, i) && i <= |path'| && path'[..i] == path[..i]
    requires forall k: nat :: k < |path'| ==> path'[k] < |ns'|
    ensures Rotates(ns', path', i) == Rotates(ns, path, i)
    decreases i
  {
    if i >= 2 {
      assert path'[i - 1] == path'[..i][i - 1] == path[i - 1] && path'[i - 2] == path'[..i][i - 2] == path[i - 2];
      assert path'[..i - 2] == path'[..i][..i - 2] == path[..i - 2];
      RotatesFrame(ns, ns', path, path', i - 2);
    }
  }

  /** Recolouring parent, uncle and grandparent is not seen by the climb from the grandparent. */
  lemma ClimbUnseen(a: Arena, t: Shape, path: seq<nat>, uncle: nat, ns': seq<RbNode>)
    requires Tree(a, t) && PathTo(a, t, path) && |path| >= 3 && IsChild(a.ns, path[|path| - 3], uncle)
    requires |ns'| == |a.ns|
    requires forall i: nat :: i < |a.ns| && i != path[|path| - 2] && i != uncle && i != path[|path| - 3] ==>
               ns'[i] == a.ns[i]
    requires Recolored(a.ns, ns')
    ensures LooksSame(a.ns, ns', path, |path| - 3)
  {
    hide Links, NoDup, Ids;
    var n := |path| - 1;
    forall k: nat | k < n - 2 ensures SameColor(a.ns, ns', path[k]) {
      if k > 0 {
        assert ChildAt(a.ns, path, k);
      }
    }
    forall k: nat | k < n - 3
      ensures SameColor(a.ns, ns', a.ns[path[k]].left) && SameColor(a.ns, ns', a.ns[path[k]].right)
    {
      SiblingsDiffer(a.ns, t, a.root, NONE, path[k]);
      assert ChildAt(a.ns, path, n - 2) && ChildAt(a.ns, path, n - 1);
    }
  }

  lemma PathPrefix(a: Arena, t: Shape, ns': seq<RbNode>, path: seq<nat>, n: nat)
    requires PathTo(a, t, path) && Recolored(a.ns, ns') && 0 < n <= |path|
    ensures PathTo(Arena(ns', a.root), t, path[..n])
  {
    var path' := path[..n];
    forall k: nat | 0 < k < |path'| ensures ChildAt(ns', path', k) {
      assert ChildAt(a.ns, path, k);
    }
  }

  /** A round that stops at once. */
  lemma StopsAtOnce(a: Arena, t: Shape, path: seq<nat>)
    requires Tree(a, t) && PathTo(a, t, path)
    requires var n := |path| - 1; n < 2 || a.ns[path[n - 1]].color != Red
    ensures FixRound(a, path[|path| - 1]) == Stop(a)
  {
    var n := |path| - 1;
    if n > 0 {
      assert ChildAt(a.ns, path, n);
    }
  }

  /** What the rebalancing of a well-linked tree leaves. */
  ghost predicate Rebalanced(a: Arena, t: Shape, a': Arena, t': Shape, rotates: bool) {
    && Ids(t') == Ids(t) && InOrder(a'.ns, t') == InOrder(a.ns, t) && SameNodes(a.ns, a'.ns)
    && if rotates then Broken(a', t') else t' == t && Tree(a', t)
  }

  lemma PaintRoot(a: Arena, t: Shape)
    requires Tree(a, t) && a.root in Ids(t)
    ensures InUse(a.ns, a.root) && Rebalanced(a, t, Arena(WithColor(a.ns, a.root, Black), a.root), t, false)
  {
    IdsInArena(a.ns, t, a.root, NONE);
    RecolorLinks(a.ns, WithColor(a.ns, a.root, Black), t, a.root, NONE);
    SameOrder(a.ns, WithColor(a.ns, a.root, Black), t);
  }

  lemma PaintBroken(a: Arena, t: Shape, a': Arena, t': Shape)
    requires Turned(a, t, a', t') && InUse(a'.ns, a'.root)
    ensures Rebalanced(a, t, Arena(WithColor(a'.ns, a'.root, Black), a'.root), t', true)
  {
    hide Links, NoDup, Ids, InOrder, Broken;
    RecolorBroken(a', WithColor(a'.ns, a'.root, Black), t');
    SameOrder(a'.ns, WithColor(a'.ns, a'.root, Black), t');
  }

  /** Parent, uncle and grandparent repainted. */
  function Repainted(ns: seq<RbNode>, parent: nat, uncle: nat, g: nat): seq<RbNode>
    requires parent < |ns| && uncle < |ns| && g < |ns|
  {
    WithColor(WithColor(WithColor(ns, parent, Black), uncle, Black), g, Red)
  }

  /** A round below a red parent that is not the root: it climbs exactly when the uncle is red. */
  lemma RedParent(a: Arena, t: Shape, path: seq<nat>)
    requires Tree(a, t) && PathTo(a, t, path) && |path| >= 3 && a.ns[path[|path| - 2]].color == Red
    ensures var n := |path| - 1;
            var g, parent, node := path[n - 2], path[n - 1], path[n];
            var uncle := Uncle(a.ns, g, parent);
            && (uncle < |a.ns| ==> IsChild(a.ns, g, uncle))
            && FixRound(a, node) ==
               if uncle < |a.ns| && a.ns[uncle].color == Red then
                 Climb(Arena(Repainted(a.ns, parent, uncle, g), a.root), g)
               else if a.ns[g].left == parent then TurnRight(a, node, parent, g) else TurnLeft(a, node, parent, g)
  {
    hide Links, NoDup, Ids, TurnRight, TurnLeft;
    var n := |path| - 1;
    var g, parent, node := path[n - 2], path[n - 1], path[n];
    assert ChildAt(a.ns, path, n - 1) && ChildAt(a.ns, path, n);
    assert node != a.root;
    SiblingsDiffer(a.ns, t, a.root, NONE, g);
  }

  /** The next round of the climb, from the grandparent. */
  lemma RedUncle(a: Arena, t: Shape, path: seq<nat>)
    requires Tree(a, t) && PathTo(a, t, path) && |path| >= 3
    requires IsChild(a.ns, path[|path| - 3], Uncle(a.ns, path[|path| - 3], path[|path| - 2]))
    ensures var n := |path| - 1;
            var a' := Arena(Repainted(a.ns, path[n - 1], Uncle(a.ns, path[n - 2], path[n - 1]), path[n - 2]), a.root);
            && Tree(a', t) && SameNodes(a.ns, a'.ns) && PathTo(a', t, path[..n - 1])
            && LooksSame(a.ns, a'.ns, path, n - 2)
  {
    hide Links, NoDup, Ids, LooksSame;
    var n := |path| - 1;
    var g, parent := path[n - 2], path[n - 1];
    assert ChildAt(a.ns, path, n - 1);
    var uncle := Uncle(a.ns, g, parent);
    var ns' := Repainted(a.ns, parent, uncle, g);
    assert Recolored(a.ns, ns');
    RecolorLinks(a.ns, ns', t, a.root, NONE);
    PathPrefix(a, t, ns', path, n - 1);
    ClimbUnseen(a, t, path, uncle, ns');
  }

  lemma TurnBreaks(a: Arena, t: Shape, path: seq<nat>) returns (t': Shape)
    requires Tree(a, t) && PathTo(a, t, path) && |path| >= 3
    ensures var n: nat := |path| - 1;
            var round := if a.ns[path[n - 2]].left == path[n - 1] then TurnRight(a, path[n], path[n - 1], path[n - 2])
                         else TurnLeft(a, path[n], path[n - 1], path[n - 2]);
            round.Stop? && Turned(a, t, round.a, t') && InUse(round.a.ns, round.a.root)
  {
    hide Links, NoDup, Ids, TurnRight, TurnLeft, InOrder;
    var n := |path| - 1;
    var g, parent, node := path[n - 2], path[n - 1], path[n];
    assert ChildAt(a.ns, path, n - 1) && ChildAt(a.ns, path, n);
    if a.ns[g].left == parent {
      t' := TurnRightBreaks(a, t, g, parent, node);
    } else {
      t' := TurnLeftBreaks(a, t, g, parent, node);
    }
  }

  /** fix_insert on a well-linked tree: it ends, never indexes out of bounds, keeps the entries in order, and keeps the
    * parent links exactly when the climb does not end in a rotation. */
  lemma {:induction false} FixFromKeeps(a: Arena, t: Shape, path: seq<nat>, rounds: nat) returns (t': Shape)
    requires Tree(a, t) && PathTo(a, t, path) && rounds >= |path|
    ensures FixFrom(a, path[|path| - 1], rounds).Done?
    ensures Rebalanced(a, t, FixFrom(a, path[|path| - 1], rounds).a, t', Rotates(a.ns, path, |path| - 1))
    decreases |path|
  {
    hide Links, NoDup, Ids, InOrder, FixRound, TurnRight, TurnLeft, Repainted, LooksSame, Broken;
    var n, node := |path| - 1, path[|path| - 1];
    if n < 2 || a.ns[path[n - 1]].color != Red {
      StopsAtOnce(a, t, path);
      t' := t;
      PaintRoot(a, t);
    } else {
      RedParent(a, t, path);
      var round, uncle := FixRound(a, node), Uncle(a.ns, path[n - 2], path[n - 1]);
      if uncle < |a.ns| && a.ns[uncle].color == Red {
        RedUncle(a, t, path);
        var shorter := path[..n - 1];
        t' := FixFromKeeps(round.a, t, shorter, rounds - 1);
        assert shorter[..n - 2] == path[..n - 2];
        RotatesFrame(a.ns, round.a.ns, path, shorter, n - 2);
        SameOrder(a.ns, round.a.ns, t);
      } else {
        t' := TurnBreaks(a, t, path);
        PaintBroken(a, t, round.a, t');
      }
    }
  }

  // ---------------------------------------------------------------- a whole insertion

  /** On the tree before the call: the path that the new node is hung below. */
  ghost function InsertPath(ns: seq<RbNode>, t: Shape, key: nat): seq<nat>
    requires t.Fork?
  {
    AttachPointInside(ns, t, key);
    PathOf(t, AttachPoint(ns, t, key))
  }

  /** On the tree before the call: inserting `key` ends in a rotation. */
  ghost predicate InsertRotates(ns: seq<RbNode>, t: Shape, key: nat) {
    && t.Fork?
    && var path := InsertPath(ns, t, key);
    (forall k: nat :: k < |path| ==> path[k] < |ns|) && Rotates(ns, path, |path|)
  }

  lemma {:induction false} AttachPointFrame(ns: seq<RbNode>, ns': seq<RbNode>, t: Shape, key: nat)
    requires t.Fork? && forall i: nat :: i in Ids(t) ==> EntryOf(ns', i) == EntryOf(ns, i)
    ensures AttachPoint(ns', t, key) == AttachPoint(ns, t, key)
  {
    if t.left.Fork? {
      AttachPointFrame(ns, ns', t.left, key);
    }
    if t.right.Fork? {
      AttachPointFrame(ns, ns', t.right, key);
    }
  }

  lemma {:induction false} DescendEnds(ns: seq<RbNode>, t: Shape, at: nat, parent: nat, key: nat, steps: nat)
    requires t.Fork? && Links(ns, t, at, parent) && NoDup(t) && steps >= |InsertPath(ns, t, key)|
    ensures Descend(ns, key, at, steps) == Some(AttachPoint(ns, t, key))
    decreases t
  {
    if key < ns[t.id].key {
      if t.left.Fork? {
        AttachPointInside(ns, t.left, key);
        DescendEnds(ns, t.left, ns[t.id].left, t.id, key, steps - 1);
      }
    } else if t.right.Fork? {
      AttachPointInside(ns, t.right, key);
      DescendEnds(ns, t.right, ns[t.id].right, t.id, key, steps - 1);
    }
  }

  /** The new node's path is the insertion path with the node at its end. */
  lemma {:induction false} AttachPath(ns: seq<RbNode>, t: Shape, key: nat, id: nat)
    requires t.Fork? && NoDup(t) && id !in Ids(t)
    ensures id in Ids(Attached(ns, t, key, id)) && PathOf(Attached(ns, t, key, id), id) == InsertPath(ns, t, key) + [id]
  {
    if key < EntryOf(ns, t.id).key {
      if t.left.Fork? {
        AttachPointInside(ns, t.left, key);
        AttachPath(ns, t.left, key, id);
      }
    } else {
      if t.right.Fork? {
        AttachPointInside(ns, t.right, key);
        AttachPath(ns, t.right, key, id);
      }
    }
  }

  /** Hanging the node is not seen by the climb. */
  lemma HangUnseen(a: Arena, t: Shape, ns: seq<RbNode>, id: nat, p: nat)
    requires Tree(a, t) && p in Ids(t) && p < |a.ns| && id < |a.ns| && id !in Ids(t) && id != NONE
    requires |ns| == |a.ns| && forall i: nat :: i < |ns| && i != id ==> ns[i] == a.ns[i]
    ensures var path := PathOf(t, p); PathTo(a, t, path) && LooksSame(a.ns, Hung(ns, p, id), path, |path|)
  {
    PathInTree(a, t, p);
    hide Links, NoDup, Ids;
    var path := PathOf(t, p);
    var ns' := Hung(ns, p, id);
    hide PathOf;
    forall k: nat | k < |path| - 1
      ensures ns'[path[k]].left == a.ns[path[k]].left && ns'[path[k]].right == a.ns[path[k]].right
      ensures SameColor(a.ns, ns', a.ns[path[k]].left) && SameColor(a.ns, ns', a.ns[path[k]].right)
    {
      SiblingsDiffer(a.ns, t, a.root, NONE, path[k]);
    }
  }

  /** The arena with the new node hung below its attach point, and its tree. */
  lemma HungTree(a: Arena, t: Shape, id: nat, key: nat, tid: nat)
    requires Tree(a, t) && t.Fork? && id < |a.ns| && id !in Ids(t) && id != NONE
    ensures var ns := a.ns[id := RbNode(key, tid, NONE, NONE, NONE, Red, true)];
            var p := AttachPoint(a.ns, t, key);
            && p < |ns| && AttachPoint(ns, t, key) == p && p in Ids(t)
            && var a1, t1 := Arena(Hung(ns, p, id), a.root), Attached(ns, t, key, id);
            && Tree(a1, t1) && Ids(t1) == Ids(t) + {id} && Links(ns, t, a.root, NONE)
            && InOrder(ns, t) == InOrder(a.ns, t) && EntryOf(ns, id) == Entry(key, tid) && SameNodes(ns, a1.ns)
  {
    var ns := a.ns[id := RbNode(key, tid, NONE, NONE, NONE, Red, true)];
    LinksFrame(a.ns, ns, t, a.root, NONE);
    IdsInArena(a.ns, t, a.root, NONE);
    AttachPointFrame(a.ns, ns, t, key);
    OthersInOrder(a.ns, ns, t, id);
    AttachPointInside(ns, t, key);
    hide Links, NoDup, Ids, AttachPoint, Attached, InOrder;
    AttachLinks(ns, Hung(ns, AttachPoint(ns, t, key), id), t, a.root, NONE, id);
  }

  /** An insertion into a well-linked tree ends without an index out of bounds and inserts the entry in order, behind
    * equal keys. The parent links agree afterwards exactly when the climb did not end in a rotation. */
  lemma WholeInsert(a: Arena, t: Shape, id: nat, key: nat, tid: nat, steps: nat) returns (t': Shape)
    requires Tree(a, t) && id < |a.ns| && id !in Ids(t) && id != NONE && Sorted(InOrder(a.ns, t))
    requires t.Fork? ==> steps > |InsertPath(a.ns, t, key)|
    ensures InsertNode(a, id, key, tid, steps).Done?
    ensures var a' := InsertNode(a, id, key, tid, steps).a;
            && ChildLinks(a'.ns, t', a'.root) && NoDup(t') && Ids(t') == Ids(t) + {id}
            && InOrder(a'.ns, t') == Insert(InOrder(a.ns, t), Entry(key, tid))
            && (Links(a'.ns, t', a'.root, NONE) <==> !InsertRotates(a.ns, t, key))
            && SameNodes(a.ns[id := RbNode(key, tid, NONE, NONE, NONE, Red, true)], a'.ns)
  {
    var ns := a.ns[id := RbNode(key, tid, NONE, NONE, NONE, Red, true)];
    if t.Leaf? {
      t' := Fork(Leaf, id, Leaf);
      FirstNode(ns, WithColor(ns, id, Black), id);
      assert Links(WithColor(ns, id, Black), t', id, NONE);
      ChildLinksOf(WithColor(ns, id, Black), WithColor(ns, id, Black), t', id, NONE);
    } else {
      assert a.root != NONE;
      HungTree(a, t, id, key, tid);
      var p := AttachPoint(a.ns, t, key);
      var a1, t1 := Arena(Hung(ns, p, id), a.root), Attached(ns, t, key, id);
      assert InsertPath(ns, t, key) == InsertPath(a.ns, t, key);
      DescendEnds(ns, t, a.root, NONE, key, steps);
      AttachPath(ns, t, key, id);
      HangUnseen(a, t, ns, id, p);
      AttachInOrder(ns, t, id);
      t' := HungFixed(a, t, ns, a1, t1, id, steps);
    }
  }

  lemma HungFixed(a: Arena, t: Shape, ns: seq<RbNode>, a1: Arena, t1: Shape, id: nat, steps: nat) returns (t': Shape)
    requires id < |ns| && t.Fork? && Tree(a1, t1) && id in Ids(t1) && SameNodes(ns, a1.ns)
    requires var path := InsertPath(a.ns, t, ns[id].key);
             PathTo(a, t, path) && PathOf(t1, id) == path + [id] && LooksSame(a.ns, a1.ns, path, |path|)
             && steps > |path|
    ensures FixFrom(a1, id, steps).Done?
    ensures var a' := FixFrom(a1, id, steps).a;
            && ChildLinks(a'.ns, t', a'.root) && NoDup(t') && Ids(t') == Ids(t1)
            && InOrder(a'.ns, t') == InOrder(ns, t1)
            && (Links(a'.ns, t', a'.root, NONE) <==> !InsertRotates(a.ns, t, ns[id].key)) && SameNodes(ns, a'.ns)
  {
    hide Links, NoDup, Ids, InOrder, FixFrom, Rotates, LooksSame, PathOf, IsPath, Broken, ChildLinks;
    var path := InsertPath(a.ns, t, ns[id].key);
    var path1 := path + [id];
    PathInTree(a1, t1, id);
    t' := FixFromKeeps(a1, t1, path1, steps);
    var a' := FixFrom(a1, id, steps).a;
    assert path1[..|path|] == path == path[..|path|];
    PathBounds(a, t, path);
    PathBounds(a1, t1, path1);
    RotatesFrame(a.ns, a1.ns, path, path1, |path|);
    SameOrder(ns, a1.ns, t1);
    if Rotates(a1.ns, path1, |path|) {
      BrokenMeans(a', t');
    } else {
      ChildLinksOf(a'.ns, a'.ns, t', a'.root, NONE);
    }
  }

  lemma PathBounds(a: Arena, t: Shape, path: seq<nat>)
    requires PathTo(a, t, path)
    ensures forall k: nat :: k < |path| ==> path[k] < |a.ns|
  {
  }

  /** A path is no longer than the arena. */
  lemma PathFits(a: Arena, t: Shape, key: nat)
    requires Tree(a, t) && t.Fork?
    ensures |InsertPath(a.ns, t, key)| <= |a.ns|
  {
    AttachPointInside(a.ns, t, key);
    PathInTree(a, t, AttachPoint(a.ns, t, key));
    DistinctCount(InsertPath(a.ns, t, key), |a.ns|);
  }

  /** The arena after inserting entries with nodes 0, 1, 2, ... of a new pool. */
  ghost function InsertAll(ns: seq<RbNode>, entries: seq<Entry>, steps: nat): Fixed
    requires |entries| <= |ns|
    decreases |entries|
  {
    if entries == [] then Done(Arena(ns, NONE)) else
      var n := |entries| - 1;
      var before := InsertAll(ns, entries[..n], steps);
      if before.Done? && n < |before.a.ns|
      then InsertNode(before.a, n, entries[n].key, entries[n].tid, steps)
      else before
  }

  /** The entries in order, behind equal keys. */
  ghost function InsertEach(entries: seq<Entry>): seq<Entry> {
    if entries == [] then [] else Insert(InsertEach(entries[..|entries| - 1]), entries[|entries| - 1])
  }

  ghost function Numbers(n: nat): (s: set<nat>)
    ensures n !in s && forall i: nat :: i in s ==> i < n
  {
    if n == 0 then {} else Numbers(n - 1) + {n - 1}
  }

  ghost predicate WellLinked(r: Fixed) {
    r.Done? && exists t :: Tree(r.a, t)
  }

  /** A run of insertions into a new pool: as long as every insertion but the last left the parent links in agreement,
    * none fails and the tree holds the entries in order. */
  lemma {:induction false} InsertRun(ns: seq<RbNode>, entries: seq<Entry>, steps: nat) returns (t: Shape)
    requires |entries| <= |ns| <= NONE && steps > |ns|
    requires forall k: nat :: k < |entries| ==> WellLinked(InsertAll(ns, entries[..k], steps))
    ensures InsertAll(ns, entries, steps).Done?
    ensures var a := InsertAll(ns, entries, steps).a;
            && |a.ns| == |ns| && ChildLinks(a.ns, t, a.root) && NoDup(t) && InOrder(a.ns, t) == InsertEach(entries)
            && Ids(t) == Numbers(|entries|) && Sorted(InsertEach(entries))
    decreases |entries|
  {
    if entries == [] {
      t := Leaf;
    } else {
      var n := |entries| - 1;
      var before := entries[..n];
      forall k: nat | k < |before| ensures WellLinked(InsertAll(ns, before[..k], steps)) {
        assert before[..k] == entries[..k];
      }
      hide Links, NoDup, ChildLinks, InOrder, Insert, Sorted, WellLinked, Ids, InsertNode;
      var t0 := InsertRun(ns, before, steps);
      assert WellLinked(InsertAll(ns, entries[..n], steps));
      t := InsertOneMore(InsertAll(ns, before, steps).a, t0, entries[n], InsertEach(before), n, steps);
    }
  }

  lemma InsertOneMore(a: Arena, t: Shape, e: Entry, q: seq<Entry>, n: nat, steps: nat) returns (t': Shape)
    requires WellLinked(Done(a)) && ChildLinks(a.ns, t, a.root) && NoDup(t) && Ids(t) == Numbers(n)
    requires n < |a.ns| <= NONE && steps > |a.ns| && InOrder(a.ns, t) == q && Sorted(q)
    ensures InsertNode(a, n, e.key, e.tid, steps).Done?
    ensures var a' := InsertNode(a, n, e.key, e.tid, steps).a;
            && |a'.ns| == |a.ns| && ChildLinks(a'.ns, t', a'.root) && NoDup(t') && InOrder(a'.ns, t') == Insert(q, e)
            && Ids(t') == Numbers(n + 1) && Sorted(Insert(q, e))
  {
    hide InsertNode, Links, NoDup, ChildLinks, InOrder, Insert, Sorted;
    var u :| Tree(a, u);
    ChildLinksOf(a.ns, a.ns, u, a.root, NONE);
    OneShape(a.ns, u, t, a.root);
    if t.Fork? {
      PathFits(a, t, e.key);
    }
    t' := WholeInsert(a, t, n, e.key, e.tid, steps);
    SortedInsert(q, e);
  }

  lemma {:induction false} SortedInsert(q: seq<Entry>, e: Entry)
    requires Sorted(q)
    ensures Sorted(Insert(q, e)) && forall x :: x in Insert(q, e) <==> x in q || x == e
  {
    if q != [] && e.key >= q[0].key {
      var rest := q[1..];
      assert q == [q[0]] + rest;
      SortedInsert(rest, e);
      assert forall x :: x in rest ==> q[0].key <= x.key;
      assert forall i: nat :: i < |Insert(rest, e)| ==> Insert(rest, e)[i] in Insert(rest, e);
    } else {
      assert forall i: nat :: i < |q| ==> q[i] in q;
    }
  }

  // ---------------------------------------------------------------- four equal keys

  lemma FirstOfFour(ns: seq<RbNode>, tid: nat)
    requires |ns| >= 4
    ensures InsertNode(Arena(ns, NONE), 0, 0, tid, 4)
              == Done(Arena(ns[0 := RbNode(0, tid, NONE, NONE, NONE, Black, true)], 0))
  {
  }

  /** The second hangs below the black root. */
  lemma SecondOfFour(ns: seq<RbNode>, t0: nat, t1: nat)
    requires 4 <= |ns| <= NONE && ns[0] == RbNode(0, t0, NONE, NONE, NONE, Black, true)
    ensures InsertNode(Arena(ns, 0), 1, 0, t1, 4)
         == Done(Arena(ns[0 := RbNode(0, t0, NONE, NONE, 1, Black, true)][1 := RbNode(0, t1, 0, NONE, NONE, Red, true)],
                       0))
  {
    var ns1 := ns[1 := RbNode(0, t1, NONE, NONE, NONE, Red, true)];
    assert Descend(ns1, 0, 0, 4) == Some(0);
    var a := Arena(Hung(ns1, 0, 1), 0);
    assert FixRound(a, 1) == Stop(a);
    assert FixFrom(a, 1, 4) == Done(Arena(WithColor(a.ns, 0, Black), 0));
    assert WithColor(a.ns, 0, Black)
           == ns[0 := RbNode(0, t0, NONE, NONE, 1, Black, true)][1 := RbNode(0, t1, 0, NONE, NONE, Red, true)];
  }

  /** The third rotates, and its own parent link is left at the node that is now its sibling. */
  lemma ThirdOfFour(ns: seq<RbNode>, t0: nat, t1: nat, t2: nat)
    requires 4 <= |ns| <= NONE && ns[0] == RbNode(0, t0, NONE, NONE, 1, Black, true)
             && ns[1] == RbNode(0, t1, 0, NONE, NONE, Red, true)
    ensures InsertNode(Arena(ns, 0), 2, 0, t2, 4)
         == Done(Arena(ns[0 := RbNode(0, t0, 1, NONE, NONE, Red, true)][1 := RbNode(0, t1, NONE, 0, 2, Black, true)]
                         [2 := RbNode(0, t2, 0, NONE, NONE, Red, true)], 1))
  {
    var ns1 := ns[2 := RbNode(0, t2, NONE, NONE, NONE, Red, true)];
    assert Descend(ns1, 0, 1, 3) == Some(1);
    assert Descend(ns1, 0, 0, 4) == Some(1);
    var a := Arena(Hung(ns1, 1, 2), 0);
    var a2 := Arena(WithParent(a.ns, 2, 0), 0);
    var ns3 := ns[0 := RbNode(0, t0, 1, NONE, NONE, Black, true)][1 := RbNode(0, t1, NONE, 0, 2, Red, true)]
                 [2 := RbNode(0, t2, 0, NONE, NONE, Red, true)];
    assert RotL(a2, 0).Some? && RotL(a2, 0).value.ns == ns3 && RotL(a2, 0).value.root == 1;
    var ns4 := ns[0 := RbNode(0, t0, 1, NONE, NONE, Red, true)][1 := RbNode(0, t1, NONE, 0, 2, Black, true)]
                 [2 := RbNode(0, t2, 0, NONE, NONE, Red, true)];
    assert WithColor(WithColor(ns3, 1, Black), 0, Red) == ns4;
    assert FixRound(a, 2) == Stop(Arena(ns4, 1));
    assert WithColor(ns4, 1, Black) == ns4;
    assert FixFrom(a, 2, 4) == Done(Arena(ns4, 1));
  }

  /** The fourth follows that link and rotates at a node without a right child: an index out of bounds. */
  lemma FourthOfFour(ns: seq<RbNode>, t0: nat, t1: nat, t2: nat, t3: nat)
    requires 4 <= |ns| <= NONE && ns[0] == RbNode(0, t0, 1, NONE, NONE, Red, true)
    requires ns[1] == RbNode(0, t1, NONE, 0, 2, Black, true) && ns[2] == RbNode(0, t2, 0, NONE, NONE, Red, true)
    ensures InsertNode(Arena(ns, 1), 3, 0, t3, 4) == Failed
  {
    var ns1 := ns[3 := RbNode(0, t3, NONE, NONE, NONE, Red, true)];
    assert Descend(ns1, 0, 2, 3) == Some(2);
    assert Descend(ns1, 0, 1, 4) == Some(2);
    var a := Arena(Hung(ns1, 2, 3), 1);
    assert FixRound(a, 3) == TurnLeft(a, 3, 2, 0);
    assert RotL(Arena(WithParent(a.ns, 3, 0), 1), 0).None?;
    assert FixRound(a, 3) == Crash;
  }

  function NewThread(): Thread { Thread(0, 0, NICE_0_LOAD, 0, false, false) }

  /** A new queue and four enqueues of threads that never ran, a run that callers may make: the ordered queue holds four
    * entries, and the tree of the code fails on the fourth. */
  lemma FourEnqueuesCrash(ns: seq<RbNode>) returns (states: seq<State>)
    requires |ns| == MAX_NODES
    ensures var threads := map[1 := NewThread(), 2 := NewThread(), 3 := NewThread(), 4 := NewThread()];
            && RunQueues.IsRun(states, [Enqueue(1), Enqueue(2), Enqueue(3), Enqueue(4)], 0, 0)
            && states[0] == State([], 0, 0, None, threads, map[])
            && states[4].tree == [Entry(0, 1), Entry(0, 2), Entry(0, 3), Entry(0, 4)]
    ensures InsertAll(ns, states[3].tree, 4).Done? && InsertAll(ns, states[4].tree, 4) == Failed
  {
    states := FourEnqueues();
    var q := states[4].tree;
    assert q[..3] == [Entry(0, 1), Entry(0, 2), Entry(0, 3)] && states[3].tree == q[..3];
    assert q[..3][..2] == [Entry(0, 1), Entry(0, 2)] && [Entry(0, 1), Entry(0, 2)][..1] == [Entry(0, 1)]
           && [Entry(0, 1)][..0] == [];
    FirstOfFour(ns, 1);
    var ns1 := ns[0 := RbNode(0, 1, NONE, NONE, NONE, Black, true)];
    SecondOfFour(ns1, 1, 2);
    var ns2 := ns1[0 := RbNode(0, 1, NONE, NONE, 1, Black, true)][1 := RbNode(0, 2, 0, NONE, NONE, Red, true)];
    ThirdOfFour(ns2, 1, 2, 3);
    var ns3 := ns2[0 := RbNode(0, 1, 1, NONE, NONE, Red, true)][1 := RbNode(0, 2, NONE, 0, 2, Black, true)]
                 [2 := RbNode(0, 3, 0, NONE, NONE, Red, true)];
    FourthOfFour(ns3, 1, 2, 3, 4);
    hide InsertNode;
    assert InsertAll(ns, [], 4) == Done(Arena(ns, NONE));
    assert InsertAll(ns, [Entry(0, 1)], 4) == Done(Arena(ns1, 0));
    assert InsertAll(ns, [Entry(0, 1), Entry(0, 2)], 4) == Done(Arena(ns2, 0));
    assert InsertAll(ns, q[..3], 4) == Done(Arena(ns3, 1));
  }

  lemma FourEnqueues() returns (states: seq<State>)
    ensures var threads := map[1 := NewThread(), 2 := NewThread(), 3 := NewThread(), 4 := NewThread()];
            && RunQueues.IsRun(states, [Enqueue(1), Enqueue(2), Enqueue(3), Enqueue(4)], 0, 0)
            && states[0] == State([], 0, 0, None, threads, map[])
            && states[3].tree == [Entry(0, 1), Entry(0, 2), Entry(0, 3)]
            && states[4].tree == [Entry(0, 1), Entry(0, 2), Entry(0, 3), Entry(0, 4)]
  {
    var threads := map[1 := NewThread(), 2 := NewThread(), 3 := NewThread(), 4 := NewThread()];
    var s0 := State([], 0, 0, None, threads, map[]);
    hide Insert, EnqueueStep, Allowed;
    var s1 := EnqueueStep(s0, 1);
    EnqueueZero(s0, 1);
    var s2 := EnqueueStep(s1, 2);
    EnqueueZero(s1, 2);
    var s3 := EnqueueStep(s2, 3);
    EnqueueZero(s2, 3);
    var s4 := EnqueueStep(s3, 4);
    EnqueueZero(s3, 4);
    states := [s0, s1, s2, s3, s4];
    var ops := [Enqueue(1), Enqueue(2), Enqueue(3), Enqueue(4)];
    forall k: nat | k < |ops| ensures Allowed(states[k], ops[k], 0, 0) && states[k + 1] == Next(states[k], ops[k]) {
      if k == 0 {} else if k == 1 {} else if k == 2 {} else {}
    }
  }

  /** A thread at virtual time 0 goes behind others at 0. */
  lemma EnqueueZero(s: State, tid: nat)
    requires tid != 0 && tid in s.threads && s.threads[tid] == NewThread() && s.min == 0 && |s.tree| < MAX_NODES
    requires forall e :: e in s.tree ==> e.key == 0
    ensures Allowed(s, Enqueue(tid), 0, 0)
    ensures var s' := EnqueueStep(s, tid);
            && s'.tree == s.tree + [Entry(0, tid)] && s'.min == 0 && (forall e :: e in s'.tree ==> e.key == 0)
            && s'.threads.Keys == s.threads.Keys
            && forall t :: t in s.threads && t != tid ==> s'.threads[t] == s.threads[t]
  {
    hide Insert;
    BehindEqual(s.tree, tid);
    var q := s.tree + [Entry(0, tid)];
    assert q[0] in q;
  }

  lemma BehindEqual(q: seq<Entry>, tid: nat)
    requires forall e :: e in q ==> e.key == 0
    ensures Insert(q, Entry(0, tid)) == q + [Entry(0, tid)]
  {
    InsertBehind(q, [], Entry(0, tid));
    assert q + [] == q;
  }
}
