/** The colours of the arena tree: what insertion and removal do to the red-black balance. */
module RbColors {
  import opened Layout
  import opened Arith
  import opened RunQueues
  import opened RbTrees
  import opened RbFix
  import opened RbDelete

  // ---------------------------------------------------------------- balance

  function ColorsOf(ns: seq<RbNode>): (c: seq<Color>)
    ensures |c| == |ns| && forall i: nat :: i < |ns| ==> c[i] == ns[i].color
  {
    seq(|ns|, i requires 0 <= i < |ns| => ns[i].color)
  }

  /** Stands for no node. */
  const NOBODY: int := -1

  ghost predicate RedAt(c: seq<Color>, t: Shape) {
    t.Fork? && t.id < |c| && c[t.id] == Red
  }

  /** Every path from the top to a missing child has `h` black nodes. */
  ghost predicate Even(c: seq<Color>, t: Shape, h: int) {
    match t
    case Leaf => h == 0
    case Fork(l, id, r) => id < |c| && var k := Below(c, id, h); Even(c, l, k) && Even(c, r, k)
  }

  ghost function Below(c: seq<Color>, id: nat, h: int): int
    requires id < |c|
  {
    if c[id] == Black then h - 1 else h
  }

  /** No red node but `from` has a red child but `into`. */
  ghost predicate Calm(c: seq<Color>, t: Shape, into: int, from: int) {
    match t
    case Leaf => true
    case Fork(l, id, r) =>
      && (id < |c| && c[id] == Red && id != from ==> CalmEdge(c, l, into) && CalmEdge(c, r, into))
      && Calm(c, l, into, from) && Calm(c, r, into, from)
  }

  ghost predicate CalmEdge(c: seq<Color>, child: Shape, into: int) {
    RedAt(c, child) ==> child.id == into
  }

  /** The root is black, no red node has a red child, and all paths have the same number of black nodes. */
  ghost predicate RedBlack(c: seq<Color>, t: Shape) {
    !RedAt(c, t) && Calm(c, t, NOBODY, NOBODY) && exists h :: Even(c, t, h)
  }

  // ---------------------------------------------------------------- what balance is for

  ghost function Depth(t: Shape): nat {
    match t
    case Leaf => 0
    case Fork(l, _, r) => 1 + Max(Depth(l), Depth(r))
  }

  ghost function Size(t: Shape): nat {
    match t
    case Leaf => 0
    case Fork(l, _, r) => Size(l) + 1 + Size(r)
  }

  /** A balanced tree is shallow: its depth is at most twice the logarithm of its size. */
  lemma {:induction false} Shallow(c: seq<Color>, t: Shape, h: nat)
    requires Even(c, t, h) && Calm(c, t, NOBODY, NOBODY)
    ensures Depth(t) <= 2 * h + (if RedAt(c, t) then 1 else 0) && Pow2(h) <= Size(t) + 1
  {
    if t.Fork? {
      var k := Below(c, t.id, h);
      NotNegative(c, t.left, k);
      Shallow(c, t.left, k);
      Shallow(c, t.right, k);
    }
  }

  lemma {:induction false} NotNegative(c: seq<Color>, t: Shape, h: int)
    requires Even(c, t, h)
    ensures h >= 0
  {
    if t.Fork? {
      NotNegative(c, t.left, Below(c, t.id, h));
    }
  }

  // ---------------------------------------------------------------- subtrees

  /** The number of black nodes below the link to `g`. */
  ghost function LevelAt(c: seq<Color>, t: Shape, h: int, g: nat): int {
    if t.Leaf? || t.id == g || t.id >= |c| then h
    else LevelAt(c, if g in Ids(t.left) then t.left else t.right, Below(c, t.id, h), g)
  }

  lemma {:induction false} SubEven(c: seq<Color>, t: Shape, h: int, g: nat)
    requires Even(c, t, h) && g in Ids(t)
    ensures Even(c, SubAt(t, g), LevelAt(c, t, h, g))
  {
    if t.id != g {
      SubEven(c, if g in Ids(t.left) then t.left else t.right, Below(c, t.id, h), g);
    }
  }

  lemma {:induction false} SubCalm(c: seq<Color>, t: Shape, g: nat, into: int, from: int)
    requires Calm(c, t, into, from) && g in Ids(t)
    ensures Calm(c, SubAt(t, g), into, from)
  {
    if t.id != g {
      SubCalm(c, if g in Ids(t.left) then t.left else t.right, g, into, from);
    }
  }

  /** The colours are the same but for some nodes. */
  ghost predicate SameBut(c: seq<Color>, c': seq<Color>, but: set<nat>) {
    |c'| == |c| && forall i: nat :: i < |c| && i !in but ==> c'[i] == c[i]
  }

  lemma {:induction false} FrameEven(c: seq<Color>, c': seq<Color>, t: Shape, h: int, but: set<nat>)
    requires Even(c, t, h) && SameBut(c, c', but) && Ids(t) !! but
    ensures Even(c', t, h)
  {
    if t.Fork? {
      FrameEven(c, c', t.left, Below(c, t.id, h), but);
      FrameEven(c, c', t.right, Below(c, t.id, h), but);
    }
  }

  lemma {:induction false} FrameCalm(c: seq<Color>, c': seq<Color>, t: Shape, but: set<nat>, into: int, from: int,
                                     into': int, from': int)
    requires Calm(c, t, into, from) && SameBut(c, c', but) && Ids(t) !! but && NoDup(t)
    requires (into in Ids(t) ==> into == t.id) && from !in Ids(t)
    ensures Calm(c', t, into', from')
  {
    if t.Fork? {
      assert t.left.Fork? ==> t.left.id in Ids(t.left);
      assert t.right.Fork? ==> t.right.id in Ids(t.right);
      FrameCalm(c, c', t.left, but, into, from, into', from');
      FrameCalm(c, c', t.right, but, into, from, into', from');
    }
  }

  lemma {:induction false} SubInside(t: Shape, g: nat)
    requires g in Ids(t) && NoDup(t)
    ensures SubAt(t, g).Fork? && SubAt(t, g).id == g && Ids(SubAt(t, g)) <= Ids(t) && NoDup(SubAt(t, g))
    ensures t.id != g ==> t.id !in Ids(SubAt(t, g))
  {
    if t.id != g {
      SubInside(if g in Ids(t.left) then t.left else t.right, g);
    }
  }

  /** A subtree replaced by one of the same height. */
  lemma {:induction false} GraftEven(c: seq<Color>, c': seq<Color>, t: Shape, h: int, g: nat, u: Shape)
    requires g in Ids(t) && NoDup(t) && Even(c, t, h) && SameBut(c, c', Ids(SubAt(t, g)))
    requires Even(c', u, LevelAt(c, t, h, g))
    ensures Even(c', Grafted(t, g, u), h)
  {
    if t.id != g {
      var sub, other := if g in Ids(t.left) then t.left else t.right, if g in Ids(t.left) then t.right else t.left;
      SubInside(sub, g);
      GraftEven(c, c', sub, Below(c, t.id, h), g, u);
      FrameEven(c, c', other, Below(c, t.id, h), Ids(SubAt(t, g)));
    }
  }

  /** The exempted nodes are inside the subtree at `g`. */
  ghost predicate Inside(t: Shape, g: nat, x: int) {
    x in Ids(t) ==> x in Ids(SubAt(t, g))
  }

  /** A subtree replaced by one that is calm, and red at the top only where that is no matter. */
  lemma {:induction false} GraftCalm(c: seq<Color>, c': seq<Color>, t: Shape, g: nat, u: Shape, into: int, from: int,
                                     into': int, from': int)
    requires g in Ids(t) && NoDup(t) && Calm(c, t, into, from) && SameBut(c, c', Ids(SubAt(t, g)))
    requires Calm(c', u, into', from') && Inside(t, g, into) && Inside(t, g, from)
    requires RedAt(c', u) ==> u.id == into' || (g != into && RedAt(c, SubAt(t, g)))
    ensures Calm(c', Grafted(t, g, u), into', from')
  {
    if t.id != g {
      var inLeft := g in Ids(t.left);
      var sub, other := if inLeft then t.left else t.right, if inLeft then t.right else t.left;
      SubInside(sub, g);
      assert other.Fork? ==> other.id in Ids(other);
      assert sub.id in Ids(sub) && t.id !in Ids(SubAt(t, g)) && Ids(other) !! Ids(SubAt(t, g));
      assert t.id < |c| ==> c'[t.id] == c[t.id];
      GraftCalm(c, c', sub, g, u, into, from, into', from');
      FrameCalm(c, c', other, Ids(SubAt(t, g)), into, from, into', from');
      if t.id < |c| && c[t.id] == Red {
        EdgeCalm(c, c', sub, g, u, into, into');
      }
    }
  }

  /** The edge into a tree with a subtree replaced. */
  lemma EdgeCalm(c: seq<Color>, c': seq<Color>, t: Shape, g: nat, u: Shape, into: int, into': int)
    requires g in Ids(t) && NoDup(t) && SameBut(c, c', Ids(SubAt(t, g))) && CalmEdge(c, t, into) && Inside(t, g, into)
    requires RedAt(c', u) ==> u.id == into' || (g != into && RedAt(c, SubAt(t, g)))
    ensures CalmEdge(c', Grafted(t, g, u), into')
  {
    SubInside(t, g);
  }

  /** The top of a tree with a subtree replaced. */
  lemma GraftTop(c: seq<Color>, c': seq<Color>, t: Shape, g: nat, u: Shape)
    requires g in Ids(t) && NoDup(t) && SameBut(c, c', Ids(SubAt(t, g))) && !RedAt(c, t)
    requires g == t.id ==> !RedAt(c', u)
    ensures !RedAt(c', Grafted(t, g, u))
  {
    if t.id != g {
      SubInside(if g in Ids(t.left) then t.left else t.right, g);
    }
  }

  // ---------------------------------------------------------------- rotations to a side

  ghost function NearOf(t: Shape, s: Side): Shape
    requires t.Fork?
  {
    if s.OnLeft? then t.left else t.right
  }

  ghost function FarOf(t: Shape, s: Side): Shape
    requires t.Fork?
  {
    if s.OnLeft? then t.right else t.left
  }

  ghost function ForkOf(s: Side, near: Shape, id: nat, far: Shape): Shape {
    if s.OnLeft? then Fork(near, id, far) else Fork(far, id, near)
  }

  /** A rotation to the right, step by step. */
  lemma RightStep(t: Shape, y: nat)
    requires t.Fork?
    ensures t.id != y ==> RotatedRight(t, y) == Fork(RotatedRight(t.left, y), t.id, RotatedRight(t.right, y))
    ensures t.id == y && t.left.Fork? ==>
              RotatedRight(t, y) == Fork(t.left.left, t.left.id, Fork(t.left.right, y, t.right))
  {
    if t.id == y && t.left.Fork? {
      var l, m, r := FlipShape(t.left.left), FlipShape(t.left.right), FlipShape(t.right);
      FlipIds(t.left.left);
      FlipIds(t.left.right);
      FlipIds(t.right);
      assert FlipShape(t.left) == Fork(m, t.left.id, l) && FlipShape(t) == Fork(r, y, Fork(m, t.left.id, l));
      assert RotatedLeft(FlipShape(t), y) == Fork(Fork(r, y, m), t.left.id, l);
      assert FlipShape(Fork(r, y, m)) == Fork(t.left.right, y, t.right);
    }
  }

  lemma TurnTop(t: Shape, s: Side)
    requires t.Fork? && FarOf(t, s).Fork?
    ensures var far := FarOf(t, s);
            Turn(t, t.id, s) == ForkOf(s, ForkOf(s, NearOf(t, s), t.id, NearOf(far, s)), far.id, FarOf(far, s))
  {
    RightStep(t, t.id);
    hide RotatedRight;
  }

  lemma {:induction false} TurnAbsent(t: Shape, x: nat, s: Side)
    requires x !in Ids(t)
    ensures Turn(t, x, s) == t
  {
    if t.Fork? {
      TurnAbsent(t.left, x, s);
      TurnAbsent(t.right, x, s);
      RightStep(t, x);
      hide RotatedRight;
    }
  }

  /** A rotation replaces the subtree at its node. */
  lemma {:induction false} TurnIsGraft(t: Shape, x: nat, s: Side)
    requires x in Ids(t) && NoDup(t)
    ensures Turn(t, x, s) == Grafted(t, x, Turn(SubAt(t, x), x, s))
  {
    if t.id != x {
      RightStep(t, x);
      var sub, other := if x in Ids(t.left) then t.left else t.right, if x in Ids(t.left) then t.right else t.left;
      TurnIsGraft(sub, x, s);
      TurnAbsent(other, x, s);
      hide RotatedRight;
    }
  }

  // ---------------------------------------------------------------- a round of fix_insert

  /** A subtree of height `h` that is calm but for edges into `into`. */
  ghost predicate Good(c: seq<Color>, t: Shape, h: int, into: int) {
    Even(c, t, h) && Calm(c, t, into, NOBODY)
  }

  /** The nodes a round of `fix_insert` looks at: below black `sub.id` a red parent on side `s`, and below that, on side
    * `q`, the red node. */
  ghost predicate Trouble(c: seq<Color>, sub: Shape, s: Side, q: Side, node: nat) {
    && sub.Fork? && NoDup(sub) && NearOf(sub, s).Fork? && NearOf(NearOf(sub, s), q).Fork?
    && NearOf(NearOf(sub, s), q).id == node && RedAt(c, NearOf(sub, s)) && RedAt(c, NearOf(NearOf(sub, s), q))
  }

  lemma TroubleNodes(c: seq<Color>, sub: Shape, s: Side, q: Side, node: nat)
    requires Trouble(c, sub, s, q, node)
    ensures sub.Fork? && NoDup(sub) && NearOf(sub, s).Fork? && NearOf(NearOf(sub, s), q).Fork?
    ensures NearOf(NearOf(sub, s), q).id == node && RedAt(c, NearOf(sub, s)) && RedAt(c, NearOf(NearOf(sub, s), q))
  {
  }

  /** The parts have no node in common. */
  lemma PartsApart(sub: Shape, s: Side, q: Side)
    requires sub.Fork? && NoDup(sub) && NearOf(sub, s).Fork? && NearOf(NearOf(sub, s), q).Fork?
    ensures var near, far := NearOf(sub, s), FarOf(sub, s); var x, b := NearOf(near, q), FarOf(near, q);
            && NoDup(near) && NoDup(far) && NoDup(x) && NoDup(b) && NoDup(x.left) && NoDup(x.right)
            && Ids(near) == Ids(x) + {near.id} + Ids(b) && Ids(x) == Ids(x.left) + {x.id} + Ids(x.right)
            && Ids(near) !! Ids(far) && sub.id !in Ids(near) && sub.id !in Ids(far)
            && Ids(x) !! Ids(b) && near.id !in Ids(x) && near.id !in Ids(b)
            && Ids(x.left) !! Ids(x.right) && x.id !in Ids(x.left) && x.id !in Ids(x.right)
  {
    var near := NearOf(sub, s);
    assert NoDup(near);
    assert NoDup(NearOf(near, q)) && NoDup(FarOf(near, q));
  }

  lemma TroubleParts(c: seq<Color>, sub: Shape, h: int, s: Side, q: Side, node: nat)
    requires Trouble(c, sub, s, q, node) && Good(c, sub, h, node)
    ensures var near, far := NearOf(sub, s), FarOf(sub, s); var x, b := NearOf(near, q), FarOf(near, q);
            && sub.id < |c| && c[sub.id] == Black && near.id < |c| && node < |c| && !RedAt(c, b)
            && Good(c, far, h - 1, NOBODY) && Good(c, b, h - 1, NOBODY) && Good(c, x, h - 1, NOBODY)
  {
    var near, far := NearOf(sub, s), FarOf(sub, s);
    var x, b := NearOf(near, q), FarOf(near, q);
    PartsApart(sub, s, q);
    assert Even(c, near, Below(c, sub.id, h)) && Calm(c, near, node, NOBODY);
    assert Even(c, x, h - 1) && Calm(c, x, node, NOBODY);
    assert b.Fork? ==> b.id in Ids(b);
    FrameCalm(c, c, far, {}, node, NOBODY, NOBODY, NOBODY);
    FrameCalm(c, c, b, {}, node, NOBODY, NOBODY, NOBODY);
    FrameCalm(c, c, x, {}, node, NOBODY, NOBODY, NOBODY);
  }

  lemma MakeFork(c: seq<Color>, s: Side, near: Shape, id: nat, far: Shape, h: int, into: int)
    requires id < |c| && Good(c, near, Below(c, id, h), into) && Good(c, far, Below(c, id, h), into)
    requires c[id] == Red ==> !RedAt(c, near) && !RedAt(c, far)
    ensures Good(c, ForkOf(s, near, id, far), h, into) && RedAt(c, ForkOf(s, near, id, far)) == (c[id] == Red)
  {
  }

  lemma ForkIs(t: Shape, s: Side)
    requires t.Fork?
    ensures t == ForkOf(s, NearOf(t, s), t.id, FarOf(t, s))
  {
  }

  lemma GoodAfter(c: seq<Color>, c': seq<Color>, t: Shape, h: int, but: set<nat>, into: int)
    requires Good(c, t, h, NOBODY) && SameBut(c, c', but) && Ids(t) !! but && NoDup(t)
    ensures Good(c', t, h, into) && RedAt(c', t) == RedAt(c, t)
  {
    assert t.Fork? ==> t.id in Ids(t);
    FrameEven(c, c', t, h, but);
    FrameCalm(c, c', t, but, NOBODY, NOBODY, into, NOBODY);
  }

  lemma GoodChildren(c: seq<Color>, t: Shape, h: int)
    requires Good(c, t, h, NOBODY) && RedAt(c, t) && NoDup(t)
    ensures Good(c, t.left, h, NOBODY) && Good(c, t.right, h, NOBODY) && !RedAt(c, t.left) && !RedAt(c, t.right)
    ensures NoDup(t.left) && NoDup(t.right) && Ids(t) == Ids(t.left) + {t.id} + Ids(t.right)
    ensures t.id !in Ids(t.left) && t.id !in Ids(t.right)
  {
  }

  /** Parent and uncle of a red node are red: painting them black and the grandparent red moves the trouble up. */
  lemma UncleSub(c: seq<Color>, sub: Shape, h: int, s: Side, q: Side, node: nat)
    requires Trouble(c, sub, s, q, node) && Good(c, sub, h, node) && RedAt(c, FarOf(sub, s))
    ensures var p, u := NearOf(sub, s).id, FarOf(sub, s).id;
            && p < |c| && u < |c| && sub.id < |c|
            && var c' := c[p := Black][u := Black][sub.id := Red];
            Good(c', sub, h, sub.id)
  {
    hide Good, NoDup, Ids, Trouble;
    TroubleNodes(c, sub, s, q, node);
    TroubleParts(c, sub, h, s, q, node);
    PartsApart(sub, s, q);
    var g, near, far := sub.id, NearOf(sub, s), FarOf(sub, s);
    var x, b := NearOf(near, q), FarOf(near, q);
    GoodChildren(c, far, h - 1);
    var c' := c[near.id := Black][far.id := Black][g := Red];
    var but := {near.id, far.id, g};
    GoodAfter(c, c', x, h - 1, but, g);
    GoodAfter(c, c', b, h - 1, but, g);
    GoodAfter(c, c', far.left, h - 1, but, g);
    GoodAfter(c, c', far.right, h - 1, but, g);
    MakeFork(c', q, x, near.id, b, h, g);
    MakeFork(c', OnLeft, far.left, far.id, far.right, h, g);
    MakeFork(c', s, near, g, far, h, g);
  }

  /** The subtree after the rotating round: the node that comes to the top is black, the grandparent red below it. */
  ghost function TurnedSub(sub: Shape, s: Side, q: Side): Shape
    requires sub.Fork? && NearOf(sub, s).Fork?
  {
    var g, near := sub.id, NearOf(sub, s);
    if q == s then Turn(sub, g, Other(s)) else Turn(ForkOf(s, Turn(near, near.id, s), g, FarOf(sub, s)), g, Other(s))
  }

  lemma TurnedSubIs(sub: Shape, s: Side, q: Side)
    requires sub.Fork? && NearOf(sub, s).Fork? && NearOf(NearOf(sub, s), q).Fork?
    ensures var g, near, far := sub.id, NearOf(sub, s), FarOf(sub, s);
            var x, b := NearOf(near, q), FarOf(near, q);
            TurnedSub(sub, s, q)
            == if q == s then ForkOf(s, x, near.id, ForkOf(s, b, g, far))
               else ForkOf(s, ForkOf(s, b, near.id, NearOf(x, s)), x.id, ForkOf(s, FarOf(x, s), g, far))
  {
    var g, near, far := sub.id, NearOf(sub, s), FarOf(sub, s);
    var x, b := NearOf(near, q), FarOf(near, q);
    hide RotatedLeft, RotatedRight, Turn;
    if q == s {
      TurnTop(sub, Other(s));
    } else {
      TurnTop(near, s);
      TurnTop(ForkOf(s, Turn(near, near.id, s), g, far), Other(s));
    }
  }

  /** The uncle is not red: the rotation ends the trouble. */
  lemma TurnSub(c: seq<Color>, sub: Shape, h: int, s: Side, q: Side, node: nat)
    requires Trouble(c, sub, s, q, node) && Good(c, sub, h, node) && !RedAt(c, FarOf(sub, s))
    ensures var top, u := if q == s then NearOf(sub, s).id else node, TurnedSub(sub, s, q);
            && top < |c| && sub.id < |c|
            && var c' := c[top := Black][sub.id := Red];
            Good(c', u, h, NOBODY) && !RedAt(c', u)
  {
    hide Good, NoDup, Ids, TurnedSub, Trouble;
    TroubleNodes(c, sub, s, q, node);
    TroubleParts(c, sub, h, s, q, node);
    PartsApart(sub, s, q);
    TurnedSubIs(sub, s, q);
    var g, near, far := sub.id, NearOf(sub, s), FarOf(sub, s);
    var x, b := NearOf(near, q), FarOf(near, q);
    GoodChildren(c, x, h - 1);
    var top := if q == s then near.id else node;
    var c' := c[top := Black][g := Red];
    var but := {top, g};
    GoodAfter(c, c', far, h - 1, but, NOBODY);
    GoodAfter(c, c', b, h - 1, but, NOBODY);
    if q == s {
      GoodAfter(c, c', x, h - 1, but, NOBODY);
      MakeFork(c', s, b, g, far, h - 1, NOBODY);
      MakeFork(c', s, x, near.id, ForkOf(s, b, g, far), h, NOBODY);
    } else {
      GoodAfter(c, c', x.left, h - 1, but, NOBODY);
      GoodAfter(c, c', x.right, h - 1, but, NOBODY);
      MakeFork(c', s, b, near.id, NearOf(x, s), h - 1, NOBODY);
      MakeFork(c', s, FarOf(x, s), g, far, h - 1, NOBODY);
      MakeFork(c', s, ForkOf(s, b, near.id, NearOf(x, s)), node, ForkOf(s, FarOf(x, s), g, far), h, NOBODY);
    }
  }

  // ---------------------------------------------------------------- the round in the arena

  /** The whole tree after its part at `g` was replaced. */
  lemma GraftGood(c: seq<Color>, c': seq<Color>, t: Shape, h: int, g: nat, u: Shape, into: int, into': int)
    requires g in Ids(t) && NoDup(t) && Good(c, t, h, into) && SameBut(c, c', Ids(SubAt(t, g)))
    requires Good(c', u, LevelAt(c, t, h, g), into') && Inside(t, g, into)
    requires RedAt(c', u) ==> u.id == into'
    ensures Good(c', Grafted(t, g, u), h, into')
  {
    hide Even, Calm, Ids, NoDup, SubAt, Grafted;
    GraftEven(c, c', t, h, g, u);
    GraftCalm(c, c', t, g, u, into, NOBODY, into', NOBODY);
  }

  lemma SubGood(c: seq<Color>, t: Shape, h: int, g: nat, into: int)
    requires Good(c, t, h, into) && g in Ids(t)
    ensures Good(c, SubAt(t, g), LevelAt(c, t, h, g), into)
  {
    SubEven(c, t, h, g);
    SubCalm(c, t, g, into, NOBODY);
  }

  function SideOf(ns: seq<RbNode>, p: nat, x: nat): Side
    requires p < |ns|
  {
    if ns[p].left == x then OnLeft else OnRight
  }

  /** A child link in the arena is one in the shape. */
  lemma LinkedChild(ns: seq<RbNode>, t: Shape, parent: nat, x: nat)
    requires t.Fork? && Links(ns, t, t.id, parent) && IsChild(ns, t.id, x)
    ensures var s := SideOf(ns, t.id, x);
            && NearOf(t, s).Fork? && NearOf(t, s).id == x && Links(ns, NearOf(t, s), x, t.id)
            && Links(ns, FarOf(t, s), Far(ns[t.id], s), t.id)
  {
  }

  /** The nodes of a round of `fix_insert`, as the shape has them. */
  lemma TroubleHere(a: Arena, t: Shape, g: nat, parent: nat, node: nat)
    requires Tree(a, t) && g in Ids(t) && IsChild(a.ns, g, parent) && IsChild(a.ns, parent, node)
    requires a.ns[parent].color == Red && a.ns[node].color == Red
    ensures var c, sub, s, q := ColorsOf(a.ns), SubAt(t, g), SideOf(a.ns, g, parent), SideOf(a.ns, parent, node);
            && Trouble(c, sub, s, q, node) && sub.id == g && NearOf(sub, s).id == parent && Ids(sub) <= Ids(t)
            && node in Ids(sub) && parent in Ids(sub)
            && var uncle := Uncle(a.ns, g, parent);
            && (RedAt(c, FarOf(sub, s)) <==> uncle < |a.ns| && a.ns[uncle].color == Red)
            && (RedAt(c, FarOf(sub, s)) ==> FarOf(sub, s).id == uncle && uncle in Ids(sub))
  {
    hide SubAt, Links, NoDup, Ids;
    IdsInArena(a.ns, t, a.root, NONE);
    SubAtLinks(a.ns, t, a.root, NONE, g);
    var sub, s, q := SubAt(t, g), SideOf(a.ns, g, parent), SideOf(a.ns, parent, node);
    LinkedChild(a.ns, sub, a.ns[g].parent, parent);
    var near, far := NearOf(sub, s), FarOf(sub, s);
    LinkedChild(a.ns, near, g, node);
    PartsApart(sub, s, q);
    WholeIds(sub, s);
    LinkedTop(a.ns, far, Far(a.ns[g], s), g);
  }

  lemma WholeIds(t: Shape, s: Side)
    requires t.Fork?
    ensures Ids(t) == Ids(NearOf(t, s)) + {t.id} + Ids(FarOf(t, s))
  {
  }

  lemma LinkedTop(ns: seq<RbNode>, t: Shape, at: nat, parent: nat)
    requires Links(ns, t, at, parent)
    ensures if t.Fork? then t.id == at && at < |ns| && t.id in Ids(t) else at == NONE
  {
  }

  /** A red uncle: the colours change, the tree does not, and the trouble is at the grandparent. */
  lemma ClimbGood(a: Arena, t: Shape, g: nat, parent: nat, node: nat, h: int)
    requires Tree(a, t) && g in Ids(t) && IsChild(a.ns, g, parent) && IsChild(a.ns, parent, node)
    requires a.ns[parent].color == Red && a.ns[node].color == Red && Good(ColorsOf(a.ns), t, h, node)
    requires var uncle := Uncle(a.ns, g, parent); uncle < |a.ns| && a.ns[uncle].color == Red
    ensures Good(ColorsOf(Repainted(a.ns, parent, Uncle(a.ns, g, parent), g)), t, h, g)
  {
    hide Good, Ids, NoDup, SubAt, Links, Trouble, LevelAt;
    var c, sub, s, q := ColorsOf(a.ns), SubAt(t, g), SideOf(a.ns, g, parent), SideOf(a.ns, parent, node);
    var uncle := Uncle(a.ns, g, parent);
    TroubleHere(a, t, g, parent, node);
    TroubleNodes(c, sub, s, q, node);
    SubGood(c, t, h, g, node);
    UncleSub(c, sub, LevelAt(c, t, h, g), s, q, node);
    var c' := ColorsOf(Repainted(a.ns, parent, uncle, g));
    assert c' == c[parent := Black][uncle := Black][g := Red];
    assert sub.id in Ids(sub) by { TopInside(sub); }
    GraftGood(c, c', t, h, g, sub, node, g);
    GraftItself(t, g);
  }

  lemma TopInside(t: Shape)
    requires t.Fork?
    ensures t.id in Ids(t)
  {
  }

  // ---------------------------------------------------------------- the rotating round

  lemma {:induction false} GraftTwice(t: Shape, g: nat, u: Shape, v: Shape)
    requires g in Ids(t) && NoDup(t) && u.Fork? && u.id == g && Ids(u) == Ids(SubAt(t, g))
    ensures SubAt(Grafted(t, g, u), g) == u && Grafted(Grafted(t, g, u), g, v) == Grafted(t, g, v)
  {
    if t.id != g {
      var inLeft := g in Ids(t.left);
      var sub, other := if inLeft then t.left else t.right, if inLeft then t.right else t.left;
      GraftTwice(sub, g, u, v);
      TopInside(u);
      GraftHas(sub, g, u);
    }
  }

  lemma {:induction false} GraftHas(t: Shape, g: nat, u: Shape)
    requires g in Ids(t) && g in Ids(u)
    ensures g in Ids(Grafted(t, g, u))
  {
    if t.id != g {
      GraftHas(if g in Ids(t.left) then t.left else t.right, g, u);
    }
  }

  /** A rotation inside the subtree at `g`. */
  lemma {:induction false} TurnInside(t: Shape, g: nat, x: nat, s: Side)
    requires g in Ids(t) && NoDup(t) && x in Ids(SubAt(t, g))
    ensures Turn(t, x, s) == Grafted(t, g, Turn(SubAt(t, g), x, s))
  {
    if t.id != g {
      SubInside(t, g);
      RightStep(t, x);
      var sub, other := if g in Ids(t.left) then t.left else t.right, if g in Ids(t.left) then t.right else t.left;
      SubInside(sub, g);
      TurnInside(sub, g, x, s);
      TurnAbsent(other, x, s);
      hide RotatedRight;
    }
  }

  /** A rotation at the near child. */
  lemma TurnNear(sub: Shape, s: Side)
    requires sub.Fork? && NoDup(sub) && NearOf(sub, s).Fork?
    ensures var near := NearOf(sub, s);
            Turn(sub, near.id, s) == ForkOf(s, Turn(near, near.id, s), sub.id, FarOf(sub, s))
  {
    var near := NearOf(sub, s);
    TopInside(near);
    RightStep(sub, near.id);
    TurnAbsent(FarOf(sub, s), near.id, s);
    hide RotatedRight;
  }

  /** Both rotations of the round replace the subtree at the grandparent. */
  lemma RoundIsGraft(t: Shape, g: nat, s: Side, q: Side)
    requires g in Ids(t) && NoDup(t) && SubAt(t, g).Fork? && NearOf(SubAt(t, g), s).Fork?
    requires NearOf(NearOf(SubAt(t, g), s), q).Fork?
    ensures var sub := SubAt(t, g);
            Turn(if q == s then t else Turn(t, NearOf(sub, s).id, s), g, Other(s))
            == Grafted(t, g, TurnedSub(sub, s, q))
  {
    hide NoDup, Ids, SubAt, Grafted, Turn;
    SubInside(t, g);
    var sub := SubAt(t, g);
    if q == s {
      TurnIsGraft(t, g, Other(s));
    } else {
      var p := NearOf(sub, s).id;
      WholeIds(sub, s);
      TopInside(NearOf(sub, s));
      TurnInside(t, g, p, s);
      TurnNear(sub, s);
      var u := Turn(sub, p, s);
      TurnedIds(sub, p, s);
      GraftTwice(t, g, u, Turn(u, g, Other(s)));
      GraftedIds(t, g, u);
      TurnIsGraft(Grafted(t, g, u), g, Other(s));
      TopInside(u);
      GraftHas(t, g, u);
    }
  }

  lemma TurnedIds(t: Shape, x: nat, s: Side)
    ensures Ids(Turn(t, x, s)) == Ids(t) && (NoDup(t) ==> NoDup(Turn(t, x, s)))
  {
    if s.OnLeft? {
      RotatedLeftIds(t, x);
    } else {
      RotatedLeftIds(FlipShape(t), x);
      FlipIds(t);
      FlipIds(RotatedLeft(FlipShape(t), x));
    }
  }

  lemma EntryColors(ns: seq<RbNode>, i: nat, n: RbNode)
    requires i < |ns| && n.color == ns[i].color
    ensures ColorsOf(ns[i := n]) == ColorsOf(ns)
  {
  }

  lemma RelinkedColor(n: RbNode, u: nat, v: nat)
    ensures Relinked(n, u, v).color == n.color && RelinkedRight(n, u, v).color == n.color
  {
  }

  lemma ParentColors(ns: seq<RbNode>, i: nat, p: nat)
    requires i < |ns|
    ensures ColorsOf(WithParent(ns, i, p)) == ColorsOf(ns)
  {
  }

  lemma RepaintColors(a: Arena, g: nat)
    ensures Repaint(a, g).Stop? ==> Repainting(a.ns, Repaint(a, g).a.ns, g)
  {
    if Repaint(a, g).Stop? {
      var p := a.ns[g].parent;
      var ns' := Repaint(a, g).a.ns;
      assert ns'[g].parent == p;
    }
  }

  /** Rotations leave colours alone, and the last statements paint two nodes. */
  lemma TurnRightColors(a: Arena, node: nat, parent: nat, g: nat)
    requires parent < |a.ns|
    ensures var r := TurnRight(a, node, parent, g); r.Stop? ==> Repainting(a.ns, r.a.ns, g)
  {
    hide RotL, RotR, Repaint, WithParent, ColorsOf;
    RotLColors(a, parent);
    var inner := a.ns[parent].right == node;
    var a1, n1 := if inner then RotL(a, parent) else Some(a), if inner then parent else node;
    if a1.Some? && n1 < |a1.value.ns| {
      ParentColors(a1.value.ns, n1, g);
      var a2 := Arena(WithParent(a1.value.ns, n1, g), a1.value.root);
      RotRColors(a2, g);
      if RotR(a2, g).Some? {
        RepaintColors(RotR(a2, g).value, g);
      }
    }
  }

  lemma TurnLeftColors(a: Arena, node: nat, parent: nat, g: nat)
    requires parent < |a.ns|
    ensures var r := TurnLeft(a, node, parent, g); r.Stop? ==> Repainting(a.ns, r.a.ns, g)
  {
    hide RotL, RotR, Repaint, WithParent, ColorsOf;
    RotRColors(a, parent);
    var inner := a.ns[parent].left == node;
    var a1, n1 := if inner then RotR(a, parent) else Some(a), if inner then parent else node;
    if a1.Some? && n1 < |a1.value.ns| {
      ParentColors(a1.value.ns, n1, g);
      var a2 := Arena(WithParent(a1.value.ns, n1, g), a1.value.root);
      RotLColors(a2, g);
      if RotL(a2, g).Some? {
        RepaintColors(RotL(a2, g).value, g);
      }
    }
  }

  ghost predicate Repainting(ns: seq<RbNode>, ns': seq<RbNode>, g: nat) {
    && |ns'| == |ns| && g < |ns| && ns'[g].parent < |ns|
    && ColorsOf(ns') == ColorsOf(ns)[ns'[g].parent := Black][g := Red]
  }

  lemma RotLColors(a: Arena, x: nat)
    ensures RotL(a, x).Some? ==> ColorsOf(RotL(a, x).value.ns) == ColorsOf(a.ns)
  {
    hide ColorsOf, WithParent, Relinked;
    if RotL(a, x).Some? {
      var y := a.ns[x].right;
      EntryColors(a.ns, x, a.ns[x].(right := a.ns[y].left));
      var ns1 := a.ns[x := a.ns[x].(right := a.ns[y].left)];
      var b, ns2 := ns1[y].left, ns1;
      if b != NONE {
        ParentColors(ns1, b, x);
        ns2 := WithParent(ns1, b, x);
      }
      ParentColors(ns2, y, ns2[x].parent);
      var ns3 := WithParent(ns2, y, ns2[x].parent);
      var p, ns4 := ns3[x].parent, ns3;
      if p != NONE {
        RelinkedColor(ns3[p], x, y);
        EntryColors(ns3, p, Relinked(ns3[p], x, y));
        ns4 := ns3[p := Relinked(ns3[p], x, y)];
      }
      EntryColors(ns4, y, ns4[y].(left := x));
      ParentColors(ns4[y := ns4[y].(left := x)], x, y);
    }
  }

  lemma RotRColors(a: Arena, y: nat)
    ensures RotR(a, y).Some? ==> ColorsOf(RotR(a, y).value.ns) == ColorsOf(a.ns)
  {
    hide ColorsOf, WithParent, RelinkedRight;
    if RotR(a, y).Some? {
      var x := a.ns[y].left;
      EntryColors(a.ns, y, a.ns[y].(left := a.ns[x].right));
      var ns1 := a.ns[y := a.ns[y].(left := a.ns[x].right)];
      var b, ns2 := ns1[x].right, ns1;
      if b != NONE {
        ParentColors(ns1, b, y);
        ns2 := WithParent(ns1, b, y);
      }
      ParentColors(ns2, x, ns2[y].parent);
      var ns3 := WithParent(ns2, x, ns2[y].parent);
      var p, ns4 := ns3[y].parent, ns3;
      if p != NONE {
        RelinkedColor(ns3[p], y, x);
        EntryColors(ns3, p, RelinkedRight(ns3[p], y, x));
        ns4 := ns3[p := RelinkedRight(ns3[p], y, x)];
      }
      EntryColors(ns4, x, ns4[x].(right := y));
      ParentColors(ns4[x := ns4[x].(right := y)], y, x);
    }
  }

  /** A round that rotates: the tree is balanced again. */
  lemma TurnGood(a: Arena, t: Shape, g: nat, parent: nat, node: nat, h: int) returns (t': Shape)
    requires Tree(a, t) && g in Ids(t) && node in Ids(t) && IsChild(a.ns, g, parent) && IsChild(a.ns, parent, node)
    requires a.ns[parent].color == Red && a.ns[node].color == Red && Good(ColorsOf(a.ns), t, h, node)
    requires var uncle := Uncle(a.ns, g, parent); !(uncle < |a.ns| && a.ns[uncle].color == Red)
    requires !RedAt(ColorsOf(a.ns), t)
    ensures var r := if a.ns[g].left == parent then TurnRight(a, node, parent, g) else TurnLeft(a, node, parent, g);
            && r.Stop? && ChildLinks(r.a.ns, t', r.a.root) && InUse(r.a.ns, r.a.root) && |r.a.ns| == |a.ns|
            && Good(ColorsOf(r.a.ns), t', h, NOBODY) && !RedAt(ColorsOf(r.a.ns), t')
  {
    hide Good, Ids, NoDup, SubAt, Links, Trouble, LevelAt, TurnRight, TurnLeft, ChildLinks, TurnedSub, RotatedLeft;
    hide RotatedRight, Grafted, Broken, RedAt;
    var c, sub, s, q := ColorsOf(a.ns), SubAt(t, g), SideOf(a.ns, g, parent), SideOf(a.ns, parent, node);
    TroubleHere(a, t, g, parent, node);
    TroubleNodes(c, sub, s, q, node);
    SubGood(c, t, h, g, node);
    TurnSub(c, sub, LevelAt(c, t, h, g), s, q, node);
    var top, u := if q == s then parent else node, TurnedSub(sub, s, q);
    var c' := c[top := Black][g := Red];
    TopInside(sub);
    GraftGood(c, c', t, h, g, u, node, NOBODY);
    GraftTop(c, c', t, g, u);
    RoundIsGraft(t, g, s, q);
    TurnRightColors(a, node, parent, g);
    TurnLeftColors(a, node, parent, g);
    t' := TurnBreaksTo(a, t, g, parent, node);
    var r := if a.ns[g].left == parent then TurnRight(a, node, parent, g) else TurnLeft(a, node, parent, g);
    BrokenMeans(r.a, t');
  }

  lemma TurnBreaksTo(a: Arena, t: Shape, g: nat, parent: nat, node: nat) returns (t': Shape)
    requires Tree(a, t) && node in Ids(t) && IsChild(a.ns, g, parent) && IsChild(a.ns, parent, node)
    ensures var r := if a.ns[g].left == parent then TurnRight(a, node, parent, g) else TurnLeft(a, node, parent, g);
            var s, q := SideOf(a.ns, g, parent), SideOf(a.ns, parent, node);
            && r.Stop? && Broken(r.a, t') && InUse(r.a.ns, r.a.root) && g < |r.a.ns|
            && r.a.ns[g].parent == (if q == s then parent else node)
            && t' == Turn(if q == s then t else Turn(t, parent, s), g, Other(s))
  {
    hide Ids, NoDup, Links, TurnRight, TurnLeft, RotatedLeft, RotatedRight, Broken, InOrder;
    Ancestors(a, t, g, parent, node);
    SiblingsDiffer(a.ns, t, a.root, NONE, parent);
    if a.ns[g].left == parent {
      t' := TurnRightBreaks(a, t, g, parent, node);
    } else {
      t' := TurnLeftBreaks(a, t, g, parent, node);
    }
  }

  // ---------------------------------------------------------------- where the climb stops

  /** No red node has `x` as a child. */
  ghost predicate Quiet(c: seq<Color>, t: Shape, x: nat) {
    match t
    case Leaf => true
    case Fork(l, id, r) =>
      && (id < |c| && c[id] == Red ==> !(l.Fork? && l.id == x) && !(r.Fork? && r.id == x))
      && Quiet(c, l, x) && Quiet(c, r, x)
  }

  lemma {:induction false} QuietIsCalm(c: seq<Color>, t: Shape, x: nat)
    requires Calm(c, t, x, NOBODY) && Quiet(c, t, x)
    ensures Calm(c, t, NOBODY, NOBODY)
  {
    if t.Fork? {
      QuietIsCalm(c, t.left, x);
      QuietIsCalm(c, t.right, x);
    }
  }

  /** A node's parent is the one its link names. */
  lemma {:induction false} BlackParentIsQuiet(ns: seq<RbNode>, t: Shape, at: nat, parent: nat, x: nat)
    requires Links(ns, t, at, parent) && x < |ns| && (ns[x].parent < |ns| ==> ns[ns[x].parent].color == Black)
    ensures Quiet(ColorsOf(ns), t, x)
  {
    if t.Fork? {
      BlackParentIsQuiet(ns, t.left, ns[t.id].left, t.id, x);
      BlackParentIsQuiet(ns, t.right, ns[t.id].right, t.id, x);
    }
  }

  /** Painting the top black. */
  lemma PaintTop(c: seq<Color>, t: Shape, h: int, into: int)
    requires Good(c, t, h, into) && t.Fork? && NoDup(t)
    ensures t.id < |c|
    ensures var c' := c[t.id := Black]; Good(c', t, if c[t.id] == Red then h + 1 else h, into) && !RedAt(c', t)
  {
    var c', k := c[t.id := Black], Below(c, t.id, h);
    FrameEven(c, c', t.left, k, {t.id});
    FrameEven(c, c', t.right, k, {t.id});
    SameCalm(c, c', t.left, into);
    SameCalm(c, c', t.right, into);
  }

  lemma {:induction false} SameCalm(c: seq<Color>, c': seq<Color>, t: Shape, into: int)
    requires Calm(c, t, into, NOBODY) && |c'| == |c| && forall i: nat :: i in Ids(t) && i < |c| ==> c'[i] == c[i]
    ensures Calm(c', t, into, NOBODY)
  {
    if t.Fork? {
      assert t.left.Fork? ==> t.left.id in Ids(t.left);
      assert t.right.Fork? ==> t.right.id in Ids(t.right);
      SameCalm(c, c', t.left, into);
      SameCalm(c, c', t.right, into);
    }
  }

  /** The climb stops at a node whose parent is black, or will be once the root is painted. */
  lemma StopGood(a: Arena, t: Shape, path: seq<nat>, h: int)
    requires Tree(a, t) && PathTo(a, t, path) && Good(ColorsOf(a.ns), t, h, path[|path| - 1])
    requires var n := |path| - 1; n < 2 || a.ns[path[n - 1]].color != Red
    ensures RedBlack(ColorsOf(WithColor(a.ns, a.root, Black)), t)
  {
    hide Good, Calm, Even, Ids, NoDup, Links, ColorsOf;
    var n, node := |path| - 1, path[|path| - 1];
    if n > 0 {
      assert ChildAt(a.ns, path, n);
    }
    assert node < |a.ns|;
    var c, ns' := ColorsOf(a.ns), WithColor(a.ns, a.root, Black);
    LinkedTop(a.ns, t, a.root, NONE);
    PaintTop(c, t, h, node);
    assert ColorsOf(ns') == c[a.root := Black];
    RecolorLinks(a.ns, ns', t, a.root, NONE);
    BlackParentIsQuiet(ns', t, a.root, NONE, node);
    GoodParts(ColorsOf(ns'), t, if c[t.id] == Red then h + 1 else h, node);
    QuietIsCalm(ColorsOf(ns'), t, node);
  }

  lemma GoodParts(c: seq<Color>, t: Shape, h: int, into: int)
    requires Good(c, t, h, into)
    ensures Even(c, t, h) && Calm(c, t, into, NOBODY)
  {
  }

  /** `fix_insert` restores the balance. */
  lemma {:induction false} FixFromBalances(a: Arena, t: Shape, path: seq<nat>, rounds: nat, h: int)
    returns (t': Shape)
    requires Tree(a, t) && PathTo(a, t, path) && rounds >= |path| && a.ns[path[|path| - 1]].color == Red
    requires Good(ColorsOf(a.ns), t, h, path[|path| - 1])
    requires |path| > 1 ==> !RedAt(ColorsOf(a.ns), t)
    ensures var r := FixFrom(a, path[|path| - 1], rounds);
            r.Done? && ChildLinks(r.a.ns, t', r.a.root) && RedBlack(ColorsOf(r.a.ns), t')
    decreases |path|
  {
    hide Links, NoDup, Ids, Good, Calm, Even, RedAt, FixRound, TurnRight, TurnLeft, Repainted, LooksSame, ColorsOf;
    hide ChildLinks, IsPath;
    var n, node := |path| - 1, path[|path| - 1];
    PathBounds(a, t, path);
    if n < 2 || a.ns[path[n - 1]].color != Red {
      StopsAtOnce(a, t, path);
      t' := t;
      StopGood(a, t, path, h);
      ChildLinksOf(a.ns, WithColor(a.ns, a.root, Black), t, a.root, NONE);
    } else {
      RedParent(a, t, path);
      var g, parent := path[n - 2], path[n - 1];
      PathChildren(a, t, path);
      var round, uncle := FixRound(a, node), Uncle(a.ns, g, parent);
      if uncle < |a.ns| && a.ns[uncle].color == Red {
        RedUncle(a, t, path);
        ClimbGood(a, t, g, parent, node, h);
        ClimbTop(a, t, path, uncle);
        t' := FixFromBalances(round.a, t, path[..n - 1], rounds - 1, h);
      } else {
        t' := TurnGood(a, t, g, parent, node, h);
        EndsBalanced(round.a, t', h);
      }
    }
  }

  lemma PathChildren(a: Arena, t: Shape, path: seq<nat>)
    requires PathTo(a, t, path) && |path| >= 3
    ensures var n := |path| - 1;
            && IsChild(a.ns, path[n - 2], path[n - 1]) && IsChild(a.ns, path[n - 1], path[n])
            && path[n - 2] in Ids(t) && path[n] in Ids(t)
  {
    var n := |path| - 1;
    assert ChildAt(a.ns, path, n) && ChildAt(a.ns, path, n - 1);
  }

  /** Climbing paints the root only when it gets there. */
  lemma ClimbTop(a: Arena, t: Shape, path: seq<nat>, uncle: nat)
    requires Tree(a, t) && PathTo(a, t, path) && |path| >= 3 && uncle < |a.ns| && !RedAt(ColorsOf(a.ns), t)
    ensures var n := |path| - 1;
            var ns' := Repainted(a.ns, path[n - 1], uncle, path[n - 2]);
            ns'[path[n - 2]].color == Red && (n - 1 > 1 ==> !RedAt(ColorsOf(ns'), t))
  {
    LinkedTop(a.ns, t, a.root, NONE);
  }

  lemma EndsBalanced(a: Arena, t: Shape, h: int)
    requires ChildLinks(a.ns, t, a.root) && InUse(a.ns, a.root) && Good(ColorsOf(a.ns), t, h, NOBODY)
    requires !RedAt(ColorsOf(a.ns), t) && |a.ns| <= NONE
    ensures ChildLinks(WithColor(a.ns, a.root, Black), t, a.root)
    ensures RedBlack(ColorsOf(WithColor(a.ns, a.root, Black)), t)
  {
    assert a.ns[a.root].color == Black;
    assert WithColor(a.ns, a.root, Black) == a.ns;
  }

  // ---------------------------------------------------------------- insertion

  /** A red leaf at the attach point leaves the heights as they are. */
  lemma {:induction false} AttachGood(ns: seq<RbNode>, c: seq<Color>, t: Shape, h: int, key: nat, id: nat)
    requires Even(c, t, h) && Calm(c, t, NOBODY, NOBODY) && id !in Ids(t) && id < |c|
    ensures var c', t' := c[id := Red], Attached(ns, t, key, id);
            && Even(c', t', h) && Calm(c', t', id, NOBODY) && t'.Fork?
            && (t.Fork? ==> t'.id == t.id && t.id < |c| && c'[t.id] == c[t.id])
  {
    var c' := c[id := Red];
    if t.Fork? {
      var k := Below(c, t.id, h);
      var goesLeft := key < EntryOf(ns, t.id).key;
      var sub, other := if goesLeft then t.left else t.right, if goesLeft then t.right else t.left;
      AttachGood(ns, c, sub, k, key, id);
      FrameEven(c, c', other, k, {id});
      CalmAnyway(c, c', other, id);
      assert other.Fork? ==> other.id in Ids(other);
    }
  }

  /** Calm with nobody exempted is calm with somebody. */
  lemma {:induction false} CalmAnyway(c: seq<Color>, c': seq<Color>, t: Shape, into: int)
    requires Calm(c, t, NOBODY, NOBODY) && |c'| == |c| && forall i: nat :: i in Ids(t) && i < |c| ==> c'[i] == c[i]
    ensures Calm(c', t, into, NOBODY)
  {
    if t.Fork? {
      assert t.left.Fork? ==> t.left.id in Ids(t.left);
      assert t.right.Fork? ==> t.right.id in Ids(t.right);
      CalmAnyway(c, c', t.left, into);
      CalmAnyway(c, c', t.right, into);
    }
  }

  lemma HungColors(ns: seq<RbNode>, p: nat, id: nat)
    requires p < |ns| && id < |ns|
    ensures ColorsOf(Hung(ns, p, id)) == ColorsOf(ns)
  {
  }

  /** An insertion keeps the balance: with or without a rotation, the tree of the child links is red-black again. */
  lemma InsertKeepsBalance(a: Arena, t: Shape, id: nat, key: nat, tid: nat, steps: nat) returns (t': Shape)
    requires Tree(a, t) && id < |a.ns| && id !in Ids(t) && id != NONE && RedBlack(ColorsOf(a.ns), t)
    requires t.Fork? ==> steps > |InsertPath(a.ns, t, key)|
    ensures InsertNode(a, id, key, tid, steps).Done?
    ensures var a' := InsertNode(a, id, key, tid, steps).a;
            ChildLinks(a'.ns, t', a'.root) && RedBlack(ColorsOf(a'.ns), t')
  {
    var ns := a.ns[id := RbNode(key, tid, NONE, NONE, NONE, Red, true)];
    if t.Leaf? {
      t' := Fork(Leaf, id, Leaf);
      var c := ColorsOf(WithColor(ns, id, Black));
      assert Even(c, Leaf, 0) && Even(c, t', 1);
    } else {
      t' := HungBalances(a, t, ns, id, key, tid, steps);
    }
  }

  lemma HungBalances(a: Arena, t: Shape, ns: seq<RbNode>, id: nat, key: nat, tid: nat, steps: nat) returns (t': Shape)
    requires Tree(a, t) && t.Fork? && id < |a.ns| && id !in Ids(t) && id != NONE && RedBlack(ColorsOf(a.ns), t)
    requires ns == a.ns[id := RbNode(key, tid, NONE, NONE, NONE, Red, true)]
    requires steps > |InsertPath(a.ns, t, key)|
    ensures InsertNode(a, id, key, tid, steps).Done?
    ensures var a' := InsertNode(a, id, key, tid, steps).a;
            ChildLinks(a'.ns, t', a'.root) && RedBlack(ColorsOf(a'.ns), t')
  {
    hide Links, NoDup, Ids, Calm, Even, FixFrom, Hung, Attached, ChildLinks, ColorsOf, AttachPoint, PathOf, RedAt;
    LinkedTop(a.ns, t, a.root, NONE);
    HungTree(a, t, id, key, tid);
    var p := AttachPoint(ns, t, key);
    var a1, t1 := Arena(Hung(ns, p, id), a.root), Attached(ns, t, key, id);
    SamePath(a.ns, ns, t, key, id, p);
    DescendEnds(ns, t, a.root, NONE, key, steps);
    AttachPath(ns, t, key, id);
    HungColors(ns, p, id);
    var h :| Even(ColorsOf(a.ns), t, h);
    assert ColorsOf(a1.ns) == ColorsOf(a.ns)[id := Red];
    AttachGood(ns, ColorsOf(a.ns), t, h, key, id);
    PathInTree(a1, t1, id);
    var path := PathOf(t1, id);
    IdColor(a1.ns, id);
    SameTop(ColorsOf(a.ns), ColorsOf(a1.ns), t, t1);
    t' := FixFromBalances(a1, t1, path, steps, h);
  }

  lemma SamePath(ns: seq<RbNode>, ns': seq<RbNode>, t: Shape, key: nat, id: nat, p: nat)
    requires t.Fork? && AttachPoint(ns, t, key) == AttachPoint(ns', t, key) == p
    ensures InsertPath(ns, t, key) == InsertPath(ns', t, key)
  {
  }

  lemma IdColor(ns: seq<RbNode>, id: nat)
    requires id < |ns| && ColorsOf(ns)[id] == Red
    ensures ns[id].color == Red
  {
  }

  lemma SameTop(c: seq<Color>, c': seq<Color>, t: Shape, t': Shape)
    requires !RedAt(c, t) && t.Fork? && t'.Fork? && t'.id == t.id && t.id < |c| && |c'| == |c| && c'[t.id] == c[t.id]
    ensures !RedAt(c', t')
  {
  }
}
