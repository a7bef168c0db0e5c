/** Removal and the red-black balance: when it is kept, and what `fix_delete` would restore. */
module RbBalance {
  import opened Layout
  import opened Arith
  import opened RunQueues
  import opened RbTrees
  import opened RbFix
  import opened RbDelete
  import opened RbColors

  // ---------------------------------------------------------------- removing a node with at most one child

  lemma SpliceColors(a: Arena, y: nat)
    requires y < |a.ns| && Splice(a, y).Some?
    ensures ColorsOf(Splice(a, y).value.ns) == ColorsOf(a.ns)
  {
    var x := OnlyChild(a.ns[y]);
    var ns1 := if x != NONE then WithParent(a.ns, x, a.ns[y].parent) else a.ns;
    assert ColorsOf(ns1) == ColorsOf(a.ns);
    var p := ns1[y].parent;
    if p < |ns1| {
      assert ColorsOf(ns1[p := Relinked(ns1[p], y, x)]) == ColorsOf(ns1);
    }
  }

  /** In a balanced tree a node with at most one child has none, or is black with a red leaf. */
  lemma FewChildren(c: seq<Color>, sub: Shape, h: int)
    requires sub.Fork? && Good(c, sub, h, NOBODY) && (sub.left.Leaf? || sub.right.Leaf?)
    ensures var rem := Remains(sub);
            && sub.id < |c| && h == (if c[sub.id] == Black then 1 else 0)
            && (rem.Fork? ==> rem.left.Leaf? && rem.right.Leaf? && RedAt(c, rem) && c[sub.id] == Black)
  {
    var rem, k := Remains(sub), Below(c, sub.id, h);
    assert Even(c, sub.left, k) && Even(c, sub.right, k) && k == 0;
    if rem.Fork? {
      assert Even(c, rem, 0) && Calm(c, rem, NOBODY, NOBODY);
      NotNegative(c, rem.left, Below(c, rem.id, 0));
      OnlyRed(c, rem.left);
      OnlyRed(c, rem.right);
    }
  }

  /** A tree without black nodes whose top is not red is empty. */
  lemma OnlyRed(c: seq<Color>, t: Shape)
    requires Even(c, t, 0) && !RedAt(c, t)
    ensures t.Leaf?
  {
    if t.Fork? {
      NotNegative(c, t.left, Below(c, t.id, 0));
    }
  }

  lemma {:induction false} OneHeight(c: seq<Color>, t: Shape, h: int, h': int)
    requires Even(c, t, h) && Even(c, t, h')
    ensures h == h'
  {
    if t.Fork? {
      OneHeight(c, t.left, Below(c, t.id, h), Below(c, t.id, h'));
    }
  }

  /** Where a black leaf is missing below the root, the paths differ. */
  lemma {:induction false} MissingLeaf(c: seq<Color>, t: Shape, h: int, z: nat, h': int)
    requires Even(c, t, h) && z in Ids(t) && NoDup(t) && t.id != z
    requires SubAt(t, z) == Fork(Leaf, z, Leaf) && z < |c| && c[z] == Black
    ensures !Even(c, Grafted(t, z, Leaf), h')
  {
    var inLeft := z in Ids(t.left);
    var sub, other := if inLeft then t.left else t.right, if inLeft then t.right else t.left;
    var k, k' := Below(c, t.id, h), Below(c, t.id, h');
    if sub.id == z {
      assert Even(c, sub, k) && sub == Fork(Leaf, z, Leaf) && Even(c, Leaf, Below(c, z, k));
      if Even(c, other, k') && k' == 0 {
        OneHeight(c, other, k, k');
      }
    } else {
      MissingLeaf(c, sub, k, z, k');
    }
  }

  /** Removing a node with at most one child keeps the balance exactly when the node is red, or has a child, or is the
    * root: `fix_delete` does nothing for a missing child. */
  lemma RemoveBalancedExactlyWhen(a: Arena, t: Shape, z: nat, steps: nat) returns (t': Shape)
    requires Tree(a, t) && z in Ids(t) && steps > |a.ns| && !TwoChildren(t, z) && RedBlack(ColorsOf(a.ns), t)
    ensures z < |a.ns| && DeleteNode(a, z, steps).Done? && SubAt(t, z).Fork?
    ensures var a' := DeleteNode(a, z, steps).a;
            && Tree(a', t') && t' == AfterDelete(t, z)
            && (RedBlack(ColorsOf(a'.ns), t') <==>
                a.ns[z].color == Red || OnlyChild(a.ns[z]) != NONE || z == a.root)
  {
    hide Links, NoDup, Ids, Even, Calm, Good, Graft, DeleteNode, FixDelFrom, SubAt, AfterDelete, Grafted, ColorsOf;
    hide RedAt;
    var b := CutOutOne(a, t, z, steps);
    GraftTree(a, t, z, b);
    SpliceColors(a, z);
    var c, sub, x := ColorsOf(a.ns), SubAt(t, z), OnlyChild(a.ns[z]);
    t' := AfterDelete(t, z);
    var h :| Even(c, t, h);
    GoodIs(c, t, h);
    SubGood(c, t, h, z, NOBODY);
    FewChildren(c, sub, LevelAt(c, t, h, z));
    OnlyChildIs(a, t, z);
    if a.ns[z].color == Red {
      RedLeafGone(c, t, h, z);
    } else if x == NONE {
      StopKeeps(b, t', x, steps);
      assert FixDelFrom(b, x, steps) == Done(b) by { StopsForNone(b, steps); }
      BlackLeafGone(c, t, h, z);
      LinkedTop(a.ns, t, a.root, NONE);
    } else {
      RedChildStays(a, b, t, h, z, x, steps);
    }
  }

  lemma GoodIs(c: seq<Color>, t: Shape, h: int)
    requires Even(c, t, h) && Calm(c, t, NOBODY, NOBODY)
    ensures Good(c, t, h, NOBODY)
  {
  }

  lemma StopsForNone(b: Arena, steps: nat)
    requires steps > 0
    ensures FixDelFrom(b, NONE, steps) == Done(b)
  {
  }

  lemma OnlyChildIs(a: Arena, t: Shape, z: nat)
    requires Tree(a, t) && z in Ids(t) && !TwoChildren(t, z)
    ensures z < |a.ns| && SubAt(t, z).Fork? && SubAt(t, z).id == z && NoDup(SubAt(t, z))
    ensures var rem, x := Remains(SubAt(t, z)), OnlyChild(a.ns[z]);
            && (rem.Leaf? <==> x == NONE) && (rem.Fork? ==> rem.id == x && x < |a.ns| && x in Ids(SubAt(t, z)))
  {
    IdsInArena(a.ns, t, a.root, NONE);
    SubAtLinks(a.ns, t, a.root, NONE, z);
    var sub := SubAt(t, z);
    hide SubAt;
    assert sub.left.Fork? ==> sub.left.id in Ids(sub.left);
    assert sub.right.Fork? ==> sub.right.id in Ids(sub.right);
  }

  lemma RedLeafGone(c: seq<Color>, t: Shape, h: int, z: nat)
    requires Good(c, t, h, NOBODY) && z in Ids(t) && NoDup(t) && SubAt(t, z).Fork? && !RedAt(c, t)
    requires Remains(SubAt(t, z)).Leaf? && LevelAt(c, t, h, z) == 0 && z < |c| && c[z] == Red
    ensures RedBlack(c, AfterDelete(t, z))
  {
    SubInside(t, z);
    GraftGood(c, c, t, h, z, Leaf, NOBODY, NOBODY);
    GraftTop(c, c, t, z, Leaf);
  }

  lemma BlackLeafGone(c: seq<Color>, t: Shape, h: int, z: nat)
    requires Good(c, t, h, NOBODY) && z in Ids(t) && NoDup(t) && SubAt(t, z).Fork? && z < |c| && c[z] == Black
    requires Remains(SubAt(t, z)).Leaf?
    ensures RedBlack(c, AfterDelete(t, z)) <==> z == t.id
  {
    SubInside(t, z);
    if z == t.id {
      assert Even(c, Leaf, 0) && AfterDelete(t, z) == Leaf;
    } else {
      assert SubAt(t, z) == Fork(Leaf, z, Leaf);
      forall h' ensures !Even(c, AfterDelete(t, z), h') {
        MissingLeaf(c, t, h, z, h');
      }
    }
  }

  /** A red child is painted black and takes the place of its parent. */
  lemma RedChildStays(a: Arena, b: Arena, t: Shape, h: int, z: nat, x: nat, steps: nat)
    requires Tree(a, t) && z in Ids(t) && SubAt(t, z).Fork? && SubAt(t, z).id == z && NoDup(SubAt(t, z))
    requires z < |a.ns| && a.ns[z].color == Black && ColorsOf(b.ns) == ColorsOf(a.ns) && steps > 0
    requires Good(ColorsOf(a.ns), t, h, NOBODY) && !RedAt(ColorsOf(a.ns), t)
    requires LevelAt(ColorsOf(a.ns), t, h, z) == 1 && x < |a.ns| && x != NONE && x in Ids(SubAt(t, z))
    requires Remains(SubAt(t, z)) == Fork(Leaf, x, Leaf) && a.ns[x].color == Red && Tree(b, AfterDelete(t, z))
    ensures var r := FixDelFrom(b, x, steps);
            r.Done? && Tree(r.a, AfterDelete(t, z)) && RedBlack(ColorsOf(r.a.ns), AfterDelete(t, z))
  {
    hide Links, NoDup, Ids, Grafted, SubAt;
    var c := ColorsOf(a.ns);
    var c' := c[x := Black];
    var u := Fork(Leaf, x, Leaf);
    assert FixDelFrom(b, x, steps) == Done(Paint(b, x, Black));
    assert ColorsOf(Paint(b, x, Black).ns) == c';
    RecolorLinks(b.ns, Paint(b, x, Black).ns, AfterDelete(t, z), b.root, NONE);
    assert Even(c', Leaf, Below(c', x, 1)) && Even(c', u, 1) && Calm(c', u, NOBODY, NOBODY);
    GraftGood(c, c', t, h, z, u, NOBODY, NOBODY);
    GraftTop(c, c', t, z, u);
  }

  // ---------------------------------------------------------------- removing a node with two children

  lemma TransplantColors(a: Arena, u: nat, v: nat)
    requires u < |a.ns| && v < |a.ns| && Transplant(a, u, v).Some?
    ensures ColorsOf(Transplant(a, u, v).value.ns) == ColorsOf(a.ns)
  {
    hide ColorsOf, WithParent, Relinked;
    var n, m := a.ns[u], a.ns[v];
    var ns1 := a.ns[v := n.(left := m.left, right := m.right, color := m.color, tid := m.tid, key := m.key)];
    EntryColors(a.ns, v, ns1[v]);
    var ns2, ns3 := ns1, ns1;
    if m.left != NONE {
      ParentColors(ns1, m.left, v);
      ns2 := WithParent(ns1, m.left, v);
    }
    ns3 := ns2;
    if m.right != NONE {
      ParentColors(ns2, m.right, v);
      ns3 := WithParent(ns2, m.right, v);
    }
    ParentColors(ns3, v, NONE);
    if n.parent < |ns3| {
      RelinkedColor(ns3[n.parent], u, v);
      EntryColors(ns3, n.parent, Relinked(ns3[n.parent], u, v));
      ParentColors(ns3[n.parent := Relinked(ns3[n.parent], u, v)], v, n.parent);
    }
  }

  /** A part that was put in is even when the whole is. */
  lemma {:induction false} GraftedEven(c: seq<Color>, t: Shape, g: nat, u: Shape, h: int) returns (k: int)
    requires g in Ids(t) && Even(c, Grafted(t, g, u), h)
    ensures Even(c, u, k)
  {
    if t.id == g {
      k := h;
    } else {
      k := GraftedEven(c, if g in Ids(t.left) then t.left else t.right, g, u, Below(c, t.id, h));
    }
  }

  /** Below the root, the part must have the height of what it replaces. */
  lemma {:induction false} GraftedHeight(c: seq<Color>, t: Shape, g: nat, u: Shape, h: int, h': int)
    requires g in Ids(t) && NoDup(t) && t.id != g && Even(c, t, h) && Even(c, Grafted(t, g, u), h')
    ensures Even(c, u, LevelAt(c, t, h, g))
  {
    var inLeft := g in Ids(t.left);
    var sub, other := if inLeft then t.left else t.right, if inLeft then t.right else t.left;
    var k, k' := Below(c, t.id, h), Below(c, t.id, h');
    OneHeight(c, other, k, k');
    assert LevelAt(c, t, h, g) == LevelAt(c, sub, k, g) && Even(c, Grafted(sub, g, u), k');
    if sub.id != g {
      GraftedHeight(c, sub, g, u, k, k');
    }
  }

  lemma {:induction false} LevelFalls(c: seq<Color>, t: Shape, h: int, g: nat)
    requires g in Ids(t)
    ensures LevelAt(c, t, h, g) <= h
  {
    if t.id != g {
      LevelFalls(c, if g in Ids(t.left) then t.left else t.right, if t.id < |c| then Below(c, t.id, h) else h, g);
    }
  }

  /** The successor `y` of a node with two children: it has no child, or is black with a red leaf. */
  lemma SuccessorColors(c: seq<Color>, sub: Shape, h: int)
    requires sub.Fork? && sub.left.Fork? && sub.right.Fork? && NoDup(sub) && Good(c, sub, h, NOBODY)
    ensures var f := First(sub.right);
            && f.id < |c| && sub.id < |c| && h > 0
            && (f.right.Fork? ==> c[f.id] == Black && f.right == Fork(Leaf, f.right.id, Leaf) && RedAt(c, f.right))
            && (c[f.id] == Black ==> (h == 1 <==> c[sub.id] == Red && f.id == sub.right.id))
  {
    var k, f := Below(c, sub.id, h), First(sub.right);
    assert Good(c, sub.right, k, NOBODY);
    FirstInside(sub.right);
    SubGood(c, sub.right, k, f.id, NOBODY);
    FewChildren(c, f, LevelAt(c, sub.right, k, f.id));
    NotNegative(c, sub.right, k);
    LevelFalls(c, sub.right, k, f.id);
    if h == 0 {
      OnlyRed(c, sub.right);
    }
    if c[f.id] == Black && f.id != sub.right.id && c[sub.id] == Red {
      assert !RedAt(c, sub.right);
      var l := Below(c, sub.right.id, k);
      assert f.id in Ids(sub.right.left) by { FirstInside(sub.right.left); }
      LevelFalls(c, sub.right.left, l, f.id);
    }
  }

  /** The successor in the place of the node, its child still below it. */
  lemma SuccessorBalances(c: seq<Color>, t: Shape, h: int, z: nat)
    requires Good(c, t, h, NOBODY) && !RedAt(c, t) && NoDup(t) && z in Ids(t) && z < |c| && TwoChildren(t, z)
    requires SubAt(t, z).id == z && NoDup(SubAt(t, z))
    ensures var f := First(SubAt(t, z).right);
            && f.id < |c|
            && (f.right.Leaf? ==>
                  (RedBlack(c, AfterDelete(t, z)) <==>
                   c[f.id] == Black && (z == t.id || (c[z] == Red && f.id == SubAt(t, z).right.id))))
  {
    hide SubAt, Grafted, NoDup, LevelAt, Good;
    var sub, level := SubAt(t, z), LevelAt(c, t, h, z);
    SubGood(c, t, h, z, NOBODY);
    SuccessorColors(c, sub, level);
    var f := First(sub.right);
    if f.right.Leaf? {
      var u := Fork(Leaf, f.id, Leaf);
      assert AfterDelete(t, z) == Grafted(t, z, u);
      LeafAlone(c, f.id);
      if z == t.id {
        TopGraft(t, z, u);
      } else if c[f.id] == Black && level == 1 {
        GoodNow(c, t, h, z, u);
      } else {
        GoodParts(c, t, h, NOBODY);
        forall h' ensures !Even(c, Grafted(t, z, u), h') {
          if Even(c, Grafted(t, z, u), h') {
            GraftedHeight(c, t, z, u, h, h');
          }
        }
      }
    }
  }

  lemma LeafAlone(c: seq<Color>, id: nat)
    requires id < |c|
    ensures var u := Fork(Leaf, id, Leaf);
            && Calm(c, u, NOBODY, NOBODY)
            && forall h :: Even(c, u, h) <==> h == if c[id] == Black then 1 else 0
    ensures RedBlack(c, Fork(Leaf, id, Leaf)) <==> c[id] == Black
  {
    var u, h := Fork(Leaf, id, Leaf), if c[id] == Black then 1 else 0;
    assert Even(c, u, h);
  }

  lemma TopGraft(t: Shape, z: nat, u: Shape)
    requires t.Fork? && z == t.id
    ensures Grafted(t, z, u) == u
  {
  }

  lemma GoodNow(c: seq<Color>, t: Shape, h: int, z: nat, u: Shape)
    requires Good(c, t, h, NOBODY) && !RedAt(c, t) && NoDup(t) && z in Ids(t)
    requires Even(c, u, LevelAt(c, t, h, z)) && Calm(c, u, NOBODY, NOBODY) && !RedAt(c, u)
    ensures RedBlack(c, Grafted(t, z, u))
  {
    GraftGood(c, c, t, h, z, u, NOBODY, NOBODY);
    GraftTop(c, c, t, z, u);
  }

  lemma EvenSides(c: seq<Color>, y: nat, x: nat, h: int)
    requires y < |c| && x < |c| && c[y] == Black && c[x] == Black
    ensures !Even(c, Fork(Leaf, y, Fork(Leaf, x, Leaf)), h)
  {
    assert Even(c, Leaf, h - 1) <==> h == 1;
    assert Even(c, Fork(Leaf, x, Leaf), h - 1) <==> Even(c, Leaf, h - 2);
  }

  /** A red leaf below the successor is painted black, and the successor has a black child on one side only. */
  lemma LoneBlackChild(c: seq<Color>, t: Shape, z: nat, y: nat, x: nat)
    requires z in Ids(t) && y < |c| && x < |c| && c[y] == Black && c[x] == Black
    ensures !RedBlack(c, Grafted(t, z, Fork(Leaf, y, Fork(Leaf, x, Leaf))))
  {
    var u := Fork(Leaf, y, Fork(Leaf, x, Leaf));
    forall h ensures !Even(c, Grafted(t, z, u), h) {
      if Even(c, Grafted(t, z, u), h) {
        var k := GraftedEven(c, t, z, u, h);
        EvenSides(c, y, x, k);
      }
    }
  }

  /** Removing a node with two children keeps the balance exactly when the successor is a black leaf and the node is the
    * root, or red with the successor for a child. */
  lemma RemoveTwoBalancedExactlyWhen(a: Arena, t: Shape, z: nat, steps: nat) returns (t': Shape)
    requires Tree(a, t) && z in Ids(t) && steps > |a.ns| && TwoChildren(t, z) && RedBlack(ColorsOf(a.ns), t)
    ensures z < |a.ns| && DeleteNode(a, z, steps).Done? && SubAt(t, z).Fork? && Gone(t, z) < |a.ns|
    ensures var a', y := DeleteNode(a, z, steps).a, Gone(t, z);
            && Tree(a', t') && t' == AfterDelete(t, z)
            && (RedBlack(ColorsOf(a'.ns), t') <==>
                a.ns[y].color == Black && OnlyChild(a.ns[y]) == NONE
                && (z == a.root || (a.ns[z].color == Red && a.ns[z].right == y)))
  {
    hide Links, NoDup, Ids, Even, Calm, Good, Graft, DeleteNode, FixDelFrom, SubAt, AfterDelete, Grafted, ColorsOf;
    hide RedAt, First, Splice, Transplant;
    var b := CutOutTwo(a, t, z, steps);
    GraftTree(a, t, z, b);
    var y := Gone(t, z);
    SpliceColors(a, y);
    TransplantColors(Splice(a, y).value, z, y);
    var c := ColorsOf(a.ns);
    t' := AfterDelete(t, z);
    var h :| Even(c, t, h);
    GoodIs(c, t, h);
    SuccessorIs(a, t, z);
    SuccessorBalances(c, t, h, z);
    HasRoot(a, t, z);
    LinkedTop(a.ns, t, a.root, NONE);
    assert c[y] == a.ns[y].color && c[z] == a.ns[z].color;
    var x := OnlyChild(a.ns[y]);
    if x == NONE {
      if a.ns[y].color == Black {
        StopsForNone(b, steps);
      }
    } else {
      SuccessorPainted(a, b, t, h, z, steps);
    }
  }

  lemma SuccessorIs(a: Arena, t: Shape, z: nat)
    requires Tree(a, t) && z in Ids(t) && TwoChildren(t, z)
    ensures z < |a.ns| && SubAt(t, z).id == z && NoDup(SubAt(t, z))
    ensures var sub := SubAt(t, z); var f, y := First(sub.right), Gone(t, z);
            && y == f.id < |a.ns| && (f.right.Leaf? <==> OnlyChild(a.ns[y]) == NONE) && a.ns[z].right == sub.right.id
            && (f.right.Fork? ==> f.right.id == OnlyChild(a.ns[y]) < |a.ns|)
  {
    SuccessorFamily(a, t, z);
    IdsInArena(a.ns, t, a.root, NONE);
    SubAtLinks(a.ns, t, a.root, NONE, z);
    hide SubAt, First, Ids, NoDup;
  }

  lemma SuccessorPainted(a: Arena, b: Arena, t: Shape, h: int, z: nat, steps: nat)
    requires Tree(a, t) && z in Ids(t) && TwoChildren(t, z) && steps > 0 && ColorsOf(b.ns) == ColorsOf(a.ns)
    requires Good(ColorsOf(a.ns), t, h, NOBODY) && Tree(b, AfterDelete(t, z))
    requires Gone(t, z) < |a.ns| && OnlyChild(a.ns[Gone(t, z)]) != NONE
    ensures a.ns[Gone(t, z)].color == Black
    ensures var r := FixDelFrom(b, OnlyChild(a.ns[Gone(t, z)]), steps);
            r.Done? && Tree(r.a, AfterDelete(t, z)) && !RedBlack(ColorsOf(r.a.ns), AfterDelete(t, z))
  {
    hide Links, NoDup, Ids, Good, SubAt, Grafted, First, Even, Calm;
    var c, y := ColorsOf(a.ns), Gone(t, z);
    var x := OnlyChild(a.ns[y]);
    SuccessorIs(a, t, z);
    SubGood(c, t, h, z, NOBODY);
    SuccessorColors(c, SubAt(t, z), LevelAt(c, t, h, z));
    assert b.ns[x].color == Red by { assert c[x] == Red && ColorsOf(b.ns)[x] == Red; }
    assert FixDelFrom(b, x, steps) == Done(Paint(b, x, Black));
    PaintColors(b, x, Black);
    RecolorLinks(b.ns, Paint(b, x, Black).ns, AfterDelete(t, z), b.root, NONE);
    assert x != y;
    LoneBlackChild(c[x := Black], t, z, y, x);
  }

  // ---------------------------------------------------------------- a subtree that is one short

  /** All paths have `h` black nodes, but those through `x` have one fewer. */
  ghost predicate Short(c: seq<Color>, t: Shape, h: int, x: nat) {
    && t.Fork? && t.id < |c|
    && if t.id == x then Even(c, t, h - 1)
       else
         var k := Below(c, t.id, h);
         if x in Ids(t.left) then Short(c, t.left, k, x) && Even(c, t.right, k)
         else Even(c, t.left, k) && Short(c, t.right, k, x)
  }

  /** No red node has a red child, but `x` may, for it will be painted. */
  ghost predicate ShortGood(c: seq<Color>, t: Shape, h: int, x: nat) {
    Short(c, t, h, x) && Calm(c, t, NOBODY, x)
  }

  lemma {:induction false} SubShort(c: seq<Color>, t: Shape, h: int, g: nat, x: nat)
    requires Short(c, t, h, x) && g in Ids(t) && NoDup(t) && x in Ids(SubAt(t, g))
    ensures Short(c, SubAt(t, g), LevelAt(c, t, h, g), x)
  {
    if t.id != g {
      SubInside(t, g);
      var sub := if g in Ids(t.left) then t.left else t.right;
      SubInside(sub, g);
      SubShort(c, sub, Below(c, t.id, h), g, x);
    }
  }

  /** The part at `g`, which held the short subtree, is replaced by one that holds a short one, or by an even one. */
  lemma {:induction false} GraftShort(c: seq<Color>, c': seq<Color>, t: Shape, h: int, g: nat, u: Shape, x: nat,
                                      x': nat)
    requires g in Ids(t) && NoDup(t) && Short(c, t, h, x) && x in Ids(SubAt(t, g))
    requires SameBut(c, c', Ids(SubAt(t, g))) && Ids(u) == Ids(SubAt(t, g)) && x' in Ids(u)
    ensures Short(c', u, LevelAt(c, t, h, g), x') ==> Short(c', Grafted(t, g, u), h, x')
    ensures Even(c', u, LevelAt(c, t, h, g)) ==> Even(c', Grafted(t, g, u), h)
  {
    if t.id != g {
      SubInside(t, g);
      var inLeft := g in Ids(t.left);
      var sub, other := if inLeft then t.left else t.right, if inLeft then t.right else t.left;
      SubInside(sub, g);
      GraftShort(c, c', sub, Below(c, t.id, h), g, u, x, x');
      FrameEven(c, c', other, Below(c, t.id, h), Ids(SubAt(t, g)));
      GraftHolds(sub, g, u, x');
      assert x' !in Ids(other);
    }
  }

  lemma {:induction false} GraftHolds(t: Shape, g: nat, u: Shape, x: nat)
    requires g in Ids(t) && x in Ids(u)
    ensures x in Ids(Grafted(t, g, u))
  {
    if t.id != g {
      GraftHolds(if g in Ids(t.left) then t.left else t.right, g, u, x);
    }
  }

  /** A black node needs no exemption. */
  lemma {:induction false} BlackNeedsNone(c: seq<Color>, t: Shape, into: int, x: nat)
    requires Calm(c, t, into, x) && x < |c| && c[x] == Black
    ensures Calm(c, t, into, NOBODY)
  {
    if t.Fork? {
      BlackNeedsNone(c, t.left, into, x);
      BlackNeedsNone(c, t.right, into, x);
    }
  }

  lemma {:induction false} ExemptMore(c: seq<Color>, t: Shape, x: nat)
    requires Calm(c, t, NOBODY, NOBODY)
    ensures Calm(c, t, NOBODY, x)
  {
    if t.Fork? {
      ExemptMore(c, t.left, x);
      ExemptMore(c, t.right, x);
    }
  }

  // ---------------------------------------------------------------- a pass of fix_delete on the subtree at the parent

  /** Below `sub.id` on side `s` is the black `x`, whose subtree is one short. */
  ghost predicate Deficit(c: seq<Color>, sub: Shape, h: int, s: Side, x: nat) {
    && sub.Fork? && NoDup(sub) && NearOf(sub, s).Fork? && NearOf(sub, s).id == x && ShortGood(c, sub, h, x)
    && x < |c| && c[x] == Black
  }

  lemma DeficitNodes(c: seq<Color>, sub: Shape, h: int, s: Side, x: nat)
    requires Deficit(c, sub, h, s, x)
    ensures sub.Fork? && NoDup(sub) && NearOf(sub, s).Fork? && NearOf(sub, s).id == x && sub.id < |c| && x != sub.id
    ensures x < |c| && c[x] == Black && x in Ids(NearOf(sub, s))
    ensures Ids(sub) == Ids(NearOf(sub, s)) + {sub.id} + Ids(FarOf(sub, s))
    ensures sub.id !in Ids(NearOf(sub, s)) && sub.id !in Ids(FarOf(sub, s)) && Ids(NearOf(sub, s)) !! Ids(FarOf(sub, s))
    ensures NoDup(NearOf(sub, s)) && NoDup(FarOf(sub, s))
  {
    TopInside(NearOf(sub, s));
  }

  /** The sibling is there, and two black nodes deep. */
  lemma DeficitParts(c: seq<Color>, sub: Shape, h: int, s: Side, x: nat)
    requires Deficit(c, sub, h, s, x)
    ensures sub.id < |c|
    ensures var k := Below(c, sub.id, h);
            && Good(c, NearOf(sub, s), k - 1, NOBODY) && Good(c, FarOf(sub, s), k, NOBODY) && k >= 2
            && FarOf(sub, s).Fork? && (c[sub.id] == Red ==> !RedAt(c, FarOf(sub, s)))
  {
    var near, far, k := NearOf(sub, s), FarOf(sub, s), Below(c, sub.id, h);
    TopInside(near);
    assert x in Ids(near) && x !in Ids(far);
    assert Short(c, near, k, x) && Even(c, far, k);
    BlackNeedsNone(c, sub, NOBODY, x);
    NotNegative(c, near.left, Below(c, x, k - 1));
  }

  /** The parts of a black fork. */
  lemma BlackParts(c: seq<Color>, t: Shape, h: int)
    requires Good(c, t, h, NOBODY) && t.Fork? && NoDup(t)
    ensures t.id < |c|
    ensures var k := Below(c, t.id, h); Good(c, t.left, k, NOBODY) && Good(c, t.right, k, NOBODY)
    ensures NoDup(t.left) && NoDup(t.right) && Ids(t) == Ids(t.left) + {t.id} + Ids(t.right)
    ensures t.id !in Ids(t.left) && t.id !in Ids(t.right) && Ids(t.left) !! Ids(t.right)
    ensures c[t.id] == Red ==> !RedAt(c, t.left) && !RedAt(c, t.right)
  {
  }

  /** A tree that is `Good` has an exemption to spare. */
  lemma MakeShort(c: seq<Color>, s: Side, near: Shape, id: nat, far: Shape, h: int, x: nat)
    requires id < |c| && id != x && x in Ids(near) && x !in Ids(far)
    requires Short(c, near, Below(c, id, h), x) && Calm(c, near, NOBODY, x) && Good(c, far, Below(c, id, h), NOBODY)
    requires c[id] == Red ==> !RedAt(c, near) && !RedAt(c, far)
    ensures ShortGood(c, ForkOf(s, near, id, far), h, x)
  {
    ExemptMore(c, far, x);
  }

  lemma ShortItself(c: seq<Color>, t: Shape, h: int)
    requires Good(c, t, h - 1, NOBODY) && t.Fork?
    ensures ShortGood(c, t, h, t.id)
  {
    ExemptMore(c, t, t.id);
  }

  /** A red sibling: turned above the parent it leaves `x` short beside a black one. */
  lemma RedSibling(c: seq<Color>, sub: Shape, h: int, s: Side, x: nat)
    requires Deficit(c, sub, h, s, x) && RedAt(c, FarOf(sub, s))
    ensures var p, w := sub.id, FarOf(sub, s).id;
            && p < |c| && w < |c|
            && var c' := c[w := Black][p := Red];
            ShortGood(c', Turn(sub, p, s), h, x) && !RedAt(c', Turn(sub, p, s)) && c[p] == Black
  {
    hide Good, Short, ShortGood, NoDup, Ids, Turn, Deficit;
    DeficitNodes(c, sub, h, s, x);
    DeficitParts(c, sub, h, s, x);
    var p, near, far, k := sub.id, NearOf(sub, s), FarOf(sub, s), Below(c, sub.id, h);
    var w := far.id;
    BlackParts(c, far, k);
    TurnTop(sub, s);
    var c' := c[w := Black][p := Red];
    var but := {w, p};
    GoodAfter(c, c', near, k - 1, but, NOBODY);
    GoodAfter(c, c', far.left, k, but, NOBODY);
    GoodAfter(c, c', far.right, k, but, NOBODY);
    ShortItself(c', near, k);
    ShortParts(c', near, k, x);
    var inner := ForkOf(s, near, p, NearOf(far, s));
    MakeShort(c', s, near, p, NearOf(far, s), k, x);
    ShortParts(c', inner, k, x);
    WholeIds(inner, s);
    MakeShort(c', s, inner, w, FarOf(far, s), h, x);
  }

  lemma ShortParts(c: seq<Color>, t: Shape, h: int, x: nat)
    requires ShortGood(c, t, h, x)
    ensures Short(c, t, h, x) && Calm(c, t, NOBODY, x)
  {
  }

  /** A black sibling with black children: painted red, the parent is what is short. */
  lemma BlackSibling(c: seq<Color>, sub: Shape, h: int, s: Side, x: nat)
    requires Deficit(c, sub, h, s, x) && !RedAt(c, FarOf(sub, s))
    requires FarOf(sub, s).Fork? && !RedAt(c, FarOf(sub, s).left) && !RedAt(c, FarOf(sub, s).right)
    ensures var w := FarOf(sub, s).id; w < |c| && ShortGood(c[w := Red], sub, h, sub.id)
  {
    hide Good, Short, ShortGood, NoDup, Ids, Deficit;
    DeficitNodes(c, sub, h, s, x);
    DeficitParts(c, sub, h, s, x);
    var near, far, k := NearOf(sub, s), FarOf(sub, s), Below(c, sub.id, h);
    BlackParts(c, far, k);
    var c' := c[far.id := Red];
    GoodAfter(c, c', near, k - 1, {far.id}, NOBODY);
    GoodAfter(c, c', far.left, k - 1, {far.id}, NOBODY);
    GoodAfter(c, c', far.right, k - 1, {far.id}, NOBODY);
    MakeFork(c', OnLeft, far.left, far.id, far.right, k - 1, NOBODY);
    ForkIs(sub, s);
    TopShort(c', s, near, sub.id, far, h);
  }

  lemma TopShort(c: seq<Color>, s: Side, near: Shape, id: nat, far: Shape, h: int)
    requires id < |c| && Good(c, near, Below(c, id, h - 1), NOBODY) && Good(c, far, Below(c, id, h - 1), NOBODY)
    ensures ShortGood(c, ForkOf(s, near, id, far), h, id)
  {
    ExemptMore(c, near, id);
    ExemptMore(c, far, id);
  }

  /** The colours after the last rotation: the node that comes to the top has the parent's, and those beside it are
    * black. */
  ghost function LastColors(c: seq<Color>, top: nat, p: nat, beside: nat): seq<Color>
    requires top < |c| && p < |c| && beside < |c|
  {
    c[top := c[p]][p := Black][beside := Black]
  }

  /** A black sibling with a red far child. */
  lemma FarRed(c: seq<Color>, sub: Shape, h: int, s: Side, x: nat)
    requires Deficit(c, sub, h, s, x) && !RedAt(c, FarOf(sub, s)) && FarOf(sub, s).Fork?
    requires RedAt(c, FarOf(FarOf(sub, s), s))
    ensures var p, far := sub.id, FarOf(sub, s);
            && p < |c| && far.id < |c| && FarOf(far, s).id < |c|
            && var c' := LastColors(c, far.id, p, FarOf(far, s).id);
            && Good(c', Turn(sub, p, s), h, NOBODY) && (RedAt(c', Turn(sub, p, s)) <==> c[p] == Red)
  {
    hide Good, Short, ShortGood, NoDup, Ids, Turn, Deficit;
    DeficitNodes(c, sub, h, s, x);
    DeficitParts(c, sub, h, s, x);
    var p, near, far, k := sub.id, NearOf(sub, s), FarOf(sub, s), Below(c, sub.id, h);
    BlackParts(c, far, k);
    var n, f := NearOf(far, s), FarOf(far, s);
    BlackParts(c, f, k - 1);
    TurnTop(sub, s);
    var c' := LastColors(c, far.id, p, f.id);
    var but := {far.id, p, f.id};
    TopInside(f);
    GoodAfter(c, c', near, k - 1, but, NOBODY);
    GoodAfter(c, c', n, k - 1, but, NOBODY);
    GoodAfter(c, c', f.left, k - 1, but, NOBODY);
    GoodAfter(c, c', f.right, k - 1, but, NOBODY);
    MakeFork(c', OnLeft, f.left, f.id, f.right, k, NOBODY);
    MakeFork(c', s, near, p, n, k, NOBODY);
    MakeFork(c', s, ForkOf(s, near, p, n), far.id, f, h, NOBODY);
  }

  /** A black sibling whose only red child is the near one. */
  lemma NearRed(c: seq<Color>, sub: Shape, h: int, s: Side, x: nat)
    requires Deficit(c, sub, h, s, x) && !RedAt(c, FarOf(sub, s)) && FarOf(sub, s).Fork?
    requires RedAt(c, NearOf(FarOf(sub, s), s)) && !RedAt(c, FarOf(FarOf(sub, s), s))
    ensures var p, far := sub.id, FarOf(sub, s);
            && p < |c| && far.id < |c| && NearOf(far, s).id < |c|
            && var c' := LastColors(c, NearOf(far, s).id, p, far.id);
            && Good(c', TurnedSub(sub, Other(s), s), h, NOBODY)
            && (RedAt(c', TurnedSub(sub, Other(s), s)) <==> c[p] == Red)
  {
    hide Good, Short, ShortGood, NoDup, Ids, TurnedSub, Deficit;
    DeficitNodes(c, sub, h, s, x);
    DeficitParts(c, sub, h, s, x);
    var p, near, far, k := sub.id, NearOf(sub, s), FarOf(sub, s), Below(c, sub.id, h);
    BlackParts(c, far, k);
    var n, f := NearOf(far, s), FarOf(far, s);
    BlackParts(c, n, k - 1);
    TurnedSubIs(sub, Other(s), s);
    var c' := LastColors(c, n.id, p, far.id);
    var but := {n.id, p, far.id};
    TopInside(n);
    GoodAfter(c, c', near, k - 1, but, NOBODY);
    GoodAfter(c, c', f, k - 1, but, NOBODY);
    GoodAfter(c, c', n.left, k - 1, but, NOBODY);
    GoodAfter(c, c', n.right, k - 1, but, NOBODY);
    MakeFork(c', s, near, p, NearOf(n, s), k, NOBODY);
    MakeFork(c', s, FarOf(n, s), far.id, f, k, NOBODY);
    MakeFork(c', s, ForkOf(s, near, p, NearOf(n, s)), n.id, ForkOf(s, FarOf(n, s), far.id, f), h, NOBODY);
  }

  // ---------------------------------------------------------------- the passes in the arena

  lemma GraftShortGood(c: seq<Color>, c': seq<Color>, t: Shape, h: int, g: nat, u: Shape, x: nat, x': nat)
    requires g in Ids(t) && NoDup(t) && ShortGood(c, t, h, x) && x in Ids(SubAt(t, g))
    requires SameBut(c, c', Ids(SubAt(t, g))) && Ids(u) == Ids(SubAt(t, g)) && x' in Ids(u)
    requires ShortGood(c', u, LevelAt(c, t, h, g), x') && (RedAt(c', u) ==> RedAt(c, SubAt(t, g)))
    ensures ShortGood(c', Grafted(t, g, u), h, x')
  {
    hide Short, Calm, NoDup, Ids, SubAt, Grafted;
    GraftShort(c, c', t, h, g, u, x, x');
    GraftCalm(c, c', t, g, u, NOBODY, x, NOBODY, x');
  }

  lemma GraftShortEven(c: seq<Color>, c': seq<Color>, t: Shape, h: int, g: nat, u: Shape, x: nat)
    requires g in Ids(t) && NoDup(t) && ShortGood(c, t, h, x) && x in Ids(SubAt(t, g))
    requires SameBut(c, c', Ids(SubAt(t, g))) && Ids(u) == Ids(SubAt(t, g))
    requires Good(c', u, LevelAt(c, t, h, g), NOBODY) && (RedAt(c', u) ==> RedAt(c, SubAt(t, g)))
    ensures Good(c', Grafted(t, g, u), h, NOBODY)
  {
    hide Short, Even, Calm, NoDup, Ids, SubAt, Grafted;
    GraftShort(c, c', t, h, g, u, x, x);
    GraftCalm(c, c', t, g, u, NOBODY, x, NOBODY, NOBODY);
  }

  /** Where the pass stops, painting `x` black makes up for what is missing. */
  lemma PaintShort(c: seq<Color>, t: Shape, h: int, x: nat)
    requires ShortGood(c, t, h, x) && x in Ids(t) && NoDup(t) && x < |c|
    requires t.id == x || (c[x] == Red && !RedAt(c, t))
    ensures RedBlack(c[x := Black], t)
  {
    var c' := c[x := Black];
    if t.id == x {
      PaintTopShort(c, t, h);
    } else {
      hide ShortGood, NoDup, Ids, SubAt, Grafted, LevelAt, Good;
      SubInside(t, x);
      var sub, level := SubAt(t, x), LevelAt(c, t, h, x);
      TopInside(sub);
      ShortParts(c, t, h, x);
      SubShort(c, t, h, x, x);
      SubCalm(c, t, x, NOBODY, x);
      RedIsPainted(c, sub, level);
      GraftShortEven(c, c', t, h, x, sub, x);
      GraftItself(t, x);
      GraftTop(c, c', t, x, sub);
      GoodParts(c', t, h, NOBODY);
    }
  }

  lemma PaintTopShort(c: seq<Color>, t: Shape, h: int)
    requires t.Fork? && ShortGood(c, t, h, t.id) && NoDup(t) && t.id < |c|
    ensures RedBlack(c[t.id := Black], t)
  {
    var c', k := c[t.id := Black], Below(c, t.id, h - 1);
    FrameEven(c, c', t.left, k, {t.id});
    FrameEven(c, c', t.right, k, {t.id});
    FrameCalm(c, c', t.left, {t.id}, NOBODY, t.id, NOBODY, NOBODY);
    FrameCalm(c, c', t.right, {t.id}, NOBODY, t.id, NOBODY, NOBODY);
    assert Even(c', t, k + 1);
  }

  lemma RedIsPainted(c: seq<Color>, sub: Shape, h: int)
    requires sub.Fork? && NoDup(sub) && Short(c, sub, h, sub.id) && Calm(c, sub, NOBODY, sub.id) && c[sub.id] == Red
    ensures var c' := c[sub.id := Black]; Good(c', sub, h, NOBODY) && !RedAt(c', sub)
  {
    var c' := c[sub.id := Black];
    FrameEven(c, c', sub.left, h - 1, {sub.id});
    FrameEven(c, c', sub.right, h - 1, {sub.id});
    FrameCalm(c, c', sub.left, {sub.id}, NOBODY, sub.id, NOBODY, NOBODY);
    FrameCalm(c, c', sub.right, {sub.id}, NOBODY, sub.id, NOBODY, NOBODY);
  }

  /** What a pass needs: a black node that is short, and its parent. */
  ghost predicate CanPass(a: Arena, t: Shape, h: int, p: nat, x: nat) {
    && Tree(a, t) && p in Ids(t) && x in Ids(t) && IsChild(a.ns, p, x) && a.ns[x].color == Black
    && ShortGood(ColorsOf(a.ns), t, h, x) && !RedAt(ColorsOf(a.ns), t)
  }

  /** The sibling and its children, as the shape has them. */
  lemma DeficitHere(a: Arena, t: Shape, h: int, p: nat, x: nat)
    requires CanPass(a, t, h, p, x)
    ensures var c, s, sub := ColorsOf(a.ns), SideOf(a.ns, p, x), SubAt(t, p);
            && Deficit(c, sub, LevelAt(c, t, h, p), s, x) && sub.id == p && Ids(sub) <= Ids(t) && x in Ids(sub)
            && p < |a.ns| && p in Ids(sub)
            && var far, w := FarOf(sub, s), Far(a.ns[p], s);
            && far.Fork? && far.id == w && w < |a.ns| && w in Ids(sub) && w in Ids(t) && IsChild(a.ns, p, w)
            && (RedAt(c, NearOf(far, s)) <==> !IsBlack(a.ns, Near(a.ns[w], s)))
            && (RedAt(c, FarOf(far, s)) <==> !IsBlack(a.ns, Far(a.ns[w], s)))
            && (NearOf(far, s).Fork? ==> NearOf(far, s).id == Near(a.ns[w], s) && NearOf(far, s).id in Ids(sub))
            && (FarOf(far, s).Fork? ==> FarOf(far, s).id == Far(a.ns[w], s) && FarOf(far, s).id in Ids(sub))
  {
    hide SubAt, Links, NoDup, Ids, ShortGood, Short, Deficit, LevelAt, Good;
    IdsInArena(a.ns, t, a.root, NONE);
    SubAtLinks(a.ns, t, a.root, NONE, p);
    var c, s, sub := ColorsOf(a.ns), SideOf(a.ns, p, x), SubAt(t, p);
    LinkedChild(a.ns, sub, a.ns[p].parent, x);
    WholeIds(sub, s);
    TopInside(NearOf(sub, s));
    TopInside(sub);
    IsDeficit(c, t, h, p, s, x);
    DeficitParts(c, sub, LevelAt(c, t, h, p), s, x);
    var far := FarOf(sub, s);
    LinkedTop(a.ns, far, Far(a.ns[p], s), p);
    ForkLinks(a.ns, far, p, s);
    WholeIds(far, s);
    LinkedTop(a.ns, NearOf(far, s), Near(a.ns[far.id], s), far.id);
    LinkedTop(a.ns, FarOf(far, s), Far(a.ns[far.id], s), far.id);
  }

  lemma IsDeficit(c: seq<Color>, t: Shape, h: int, p: nat, s: Side, x: nat)
    requires NoDup(t) && p in Ids(t) && ShortGood(c, t, h, x) && x in Ids(SubAt(t, p)) && x < |c| && c[x] == Black
    requires SubAt(t, p).Fork? && NoDup(SubAt(t, p)) && NearOf(SubAt(t, p), s).Fork? && NearOf(SubAt(t, p), s).id == x
    ensures Deficit(c, SubAt(t, p), LevelAt(c, t, h, p), s, x)
  {
    SubShort(c, t, h, p, x);
    SubCalm(c, t, p, NOBODY, x);
  }

  lemma ForkLinks(ns: seq<RbNode>, t: Shape, parent: nat, s: Side)
    requires t.Fork? && Links(ns, t, t.id, parent)
    ensures t.id < |ns| && ns[t.id].parent == parent && ns[t.id].inUse && t.id != NONE
    ensures Links(ns, NearOf(t, s), Near(ns[t.id], s), t.id) && Links(ns, FarOf(t, s), Far(ns[t.id], s), t.id)
  {
  }

  lemma PaintColors(a: Arena, i: nat, k: Color)
    requires i < |a.ns|
    ensures ColorsOf(Paint(a, i, k).ns) == ColorsOf(a.ns)[i := k] && |Paint(a, i, k).ns| == |a.ns|
  {
  }

  lemma RotateColors(a: Arena, x: nat, s: Side)
    ensures Rotate(a, x, s).Some? ==> ColorsOf(Rotate(a, x, s).value.ns) == ColorsOf(a.ns)
  {
    RotLColors(a, x);
    RotRColors(a, x);
  }

  /** A red sibling is raised: `x` is short as before, beside a black sibling now. */
  lemma RaiseGood(a: Arena, t: Shape, h: int, p: nat, x: nat) returns (t': Shape)
    requires CanPass(a, t, h, p, x)
    ensures p < |a.ns|
    ensures var s := SideOf(a.ns, p, x); var b := RaiseSibling(a, p, s);
            && b.Some? && CanPass(b.value, t', h, p, x) && SideOf(b.value.ns, p, x) == s && |b.value.ns| == |a.ns|
            && IsBlack(b.value.ns, Far(b.value.ns[p], s)) && Ids(t') == Ids(t)
            && ((b.value == a && t' == t) || b.value.ns[p].color == Red)
  {
    hide CanPass, Links, NoDup, Ids, SubAt, Grafted, Good, ShortGood, Deficit, LevelAt, RaiseSibling, Turn, Rotate;
    DeficitHere(a, t, h, p, x);
    PassParts(a, t, h, p, x);
    var c, s, sub := ColorsOf(a.ns), SideOf(a.ns, p, x), SubAt(t, p);
    t' := RaiseSiblingKeeps(a, t, p, s);
    var w := Far(a.ns[p], s);
    var b := RaiseSibling(a, p, s).value;
    if a.ns[w].color == Red {
      RaiseColors(a, t, p, s);
      var c' := c[w := Black][p := Red];
      RedSibling(c, sub, LevelAt(c, t, h, p), s, x);
      TurnedIds(sub, p, s);
      TurnIsGraft(t, p, s);
      GraftShortGood(c, c', t, h, p, Turn(sub, p, s), x, x);
      GraftTop(c, c', t, p, Turn(sub, p, s));
      RaiseLinks(a, t, h, p, x);
      MakePass(b, t', h, p, x);
    } else {
      RaiseNothing(a, p, s);
    }
  }

  lemma PassParts(a: Arena, t: Shape, h: int, p: nat, x: nat)
    requires CanPass(a, t, h, p, x)
    ensures Tree(a, t) && NoDup(t) && p in Ids(t) && x in Ids(t) && IsChild(a.ns, p, x) && a.ns[x].color == Black
    ensures ShortGood(ColorsOf(a.ns), t, h, x) && !RedAt(ColorsOf(a.ns), t)
  {
  }

  lemma MakePass(a: Arena, t: Shape, h: int, p: nat, x: nat)
    requires Tree(a, t) && p in Ids(t) && x in Ids(t) && IsChild(a.ns, p, x) && a.ns[x].color == Black
    requires ShortGood(ColorsOf(a.ns), t, h, x) && !RedAt(ColorsOf(a.ns), t)
    ensures CanPass(a, t, h, p, x)
  {
  }

  lemma RaiseNothing(a: Arena, p: nat, s: Side)
    requires p < |a.ns| && Far(a.ns[p], s) < |a.ns| && a.ns[Far(a.ns[p], s)].color == Black
    ensures RaiseSibling(a, p, s) == Some(a)
  {
  }

  lemma RaiseColors(a: Arena, t: Shape, p: nat, s: Side)
    requires p < |a.ns| && Far(a.ns[p], s) < |a.ns| <= NONE && a.ns[Far(a.ns[p], s)].color == Red
    requires RaiseSibling(a, p, s).Some?
    ensures ColorsOf(RaiseSibling(a, p, s).value.ns) == ColorsOf(a.ns)[Far(a.ns[p], s) := Black][p := Red]
  {
    hide Rotate;
    var w := Far(a.ns[p], s);
    PaintColors(a, w, Black);
    PaintColors(Paint(a, w, Black), p, Red);
    RotateColors(Paint(Paint(a, w, Black), p, Red), p, s);
  }

  /** After raising the sibling, `x` is still below the parent on its side, and the new sibling was a child of the red
    * one, so it is black. */
  lemma RaiseLinks(a: Arena, t: Shape, h: int, p: nat, x: nat)
    requires CanPass(a, t, h, p, x) && p < |a.ns|
    requires var w := Far(a.ns[p], SideOf(a.ns, p, x)); w < |a.ns| && a.ns[w].color == Red
    requires RaiseSibling(a, p, SideOf(a.ns, p, x)).Some?
    ensures var s := SideOf(a.ns, p, x); var b := RaiseSibling(a, p, s).value;
            && |b.ns| == |a.ns| && IsChild(b.ns, p, x) && SideOf(b.ns, p, x) == s && b.ns[p].color == Red
            && b.ns[x].color == Black && IsBlack(b.ns, Far(b.ns[p], s))
  {
    hide CanPass, Links, NoDup, Ids, SubAt, Good, ShortGood, Deficit, LevelAt, Rotate, LeftRotation;
    hide RightRotation;
    PassParts(a, t, h, p, x);
    DeficitHere(a, t, h, p, x);
    var c, s, sub := ColorsOf(a.ns), SideOf(a.ns, p, x), SubAt(t, p);
    var w := Far(a.ns[p], s);
    NephewsBlack(c, sub, LevelAt(c, t, h, p), s, x);
    DeficitNodes(c, sub, LevelAt(c, t, h, p), s, x);
    BlackNephew(a.ns, c, FarOf(sub, s), w, s);
    RaisedLinks(a, t, p, w, x, s);
  }

  lemma BlackNephew(ns: seq<RbNode>, c: seq<Color>, far: Shape, w: nat, s: Side)
    requires far.Fork? && w < |ns| && !RedAt(c, far.left) && !RedAt(c, far.right)
    requires RedAt(c, NearOf(far, s)) <==> !IsBlack(ns, Near(ns[w], s))
    ensures IsBlack(ns, Near(ns[w], s))
  {
  }

  lemma RaisedLinks(a: Arena, t: Shape, p: nat, w: nat, x: nat, s: Side)
    requires Tree(a, t) && p in Ids(t) && IsChild(a.ns, p, x) && IsChild(a.ns, p, w) && SideOf(a.ns, p, x) == s
    requires w == Far(a.ns[p], s) && w in Ids(t) && a.ns[w].color == Red && a.ns[x].color == Black && x != p
    requires IsBlack(a.ns, Near(a.ns[w], s)) && RaiseSibling(a, p, s).Some?
    ensures var b := RaiseSibling(a, p, s).value;
            && |b.ns| == |a.ns| && IsChild(b.ns, p, x) && SideOf(b.ns, p, x) == s && b.ns[p].color == Red
            && b.ns[x].color == Black && IsBlack(b.ns, Far(b.ns[p], s))
  {
    hide Links, NoDup, Ids, Rotate, LeftRotation, RightRotation, Rearranged;
    var a1 := Paint(Paint(a, w, Black), p, Red);
    SiblingsDiffer(a.ns, t, a.root, NONE, p);
    SiblingsDiffer(a.ns, t, a.root, NONE, w);
    PaintTree(a, t, w, p);
    var t1 := RotateKeeps(a1, t, p, s);
    RotateLinks1(a1, t, p, s);
    var b := Rotate(a1, p, s).value;
    assert RaiseSibling(a, p, s) == Some(b);
    assert Near(b.ns[p], s) == x && Far(b.ns[p], s) == Near(a.ns[w], s);
    var n := Near(a.ns[w], s);
    assert x != w && x != p && n != w && w != p;
    assert n != p by { GrandchildDiffers(a, t, p, w, n); }
    assert b.ns[p].color == a1.ns[p].color == Red && b.ns[x].color == a1.ns[x].color == Black;
    assert n < |a.ns| ==> b.ns[n].color == a1.ns[n].color == a.ns[n].color;
    StillChild(a1, b, t, p, x, s);
  }

  lemma GrandchildDiffers(a: Arena, t: Shape, p: nat, w: nat, n: nat)
    requires Tree(a, t) && p in Ids(t) && IsChild(a.ns, p, w) && (n != NONE ==> n in Ids(t) && IsChild(a.ns, w, n))
    ensures n != p
  {
    if n != NONE {
      Ancestors(a, t, p, w, n);
    } else {
      IdsInArena(a.ns, t, a.root, NONE);
    }
  }

  lemma PaintTree(a: Arena, t: Shape, w: nat, p: nat)
    requires Tree(a, t) && w in Ids(t) && p in Ids(t) && w < |a.ns| && p < |a.ns|
    ensures Tree(Paint(Paint(a, w, Black), p, Red), t)
  {
    RecolorLinks(a.ns, Paint(Paint(a, w, Black), p, Red).ns, t, a.root, NONE);
  }

  lemma StillChild(a: Arena, b: Arena, t: Shape, p: nat, x: nat, s: Side)
    requires Tree(a, t) && p in Ids(t) && IsChild(a.ns, p, x) && Near(a.ns[p], s) == x && Far(a.ns[p], s) != NONE
    requires p < |b.ns| == |a.ns| && Near(b.ns[p], s) == x && Far(b.ns[p], s) != x
    requires if s.OnLeft? then LeftRotation(a.ns, b.ns, p) else RightRotation(a.ns, b.ns, p)
    ensures IsChild(b.ns, p, x) && SideOf(b.ns, p, x) == s
  {
    SiblingsDiffer(a.ns, t, a.root, NONE, p);
    hide Links, NoDup, Ids;
    if s.OnLeft? {
      RotationNodes(a.ns, t, a.root, p);
    } else {
      RightFamily(a, t, p);
    }
  }

  lemma NephewsBlack(c: seq<Color>, sub: Shape, h: int, s: Side, x: nat)
    requires Deficit(c, sub, h, s, x) && FarOf(sub, s).Fork? && RedAt(c, FarOf(sub, s))
    ensures !RedAt(c, FarOf(sub, s).left) && !RedAt(c, FarOf(sub, s).right) && c[sub.id] == Black
  {
    hide Good, Short, NoDup, Ids;
    DeficitNodes(c, sub, h, s, x);
    DeficitParts(c, sub, h, s, x);
    BlackParts(c, FarOf(sub, s), Below(c, sub.id, h));
  }

  /** The sibling and both its children are black: the sibling is painted, and the parent is short. */
  lemma ClimbShort(b: Arena, t: Shape, h: int, p: nat, x: nat)
    requires CanPass(b, t, h, p, x) && p < |b.ns|
    requires var w := Far(b.ns[p], SideOf(b.ns, p, x));
             w < |b.ns| && IsBlack(b.ns, w) && IsBlack(b.ns, b.ns[w].left) && IsBlack(b.ns, b.ns[w].right)
    ensures var c' := ColorsOf(Paint(b, Far(b.ns[p], SideOf(b.ns, p, x)), Red).ns);
            ShortGood(c', t, h, p) && !RedAt(c', t)
  {
    hide CanPass, Links, NoDup, Ids, SubAt, Grafted, Good, ShortGood, Deficit, LevelAt;
    DeficitHere(b, t, h, p, x);
    PassParts(b, t, h, p, x);
    var c, s, sub := ColorsOf(b.ns), SideOf(b.ns, p, x), SubAt(t, p);
    var w := Far(b.ns[p], s);
    var c' := c[w := Red];
    PaintColors(b, w, Red);
    BlackSibling(c, sub, LevelAt(c, t, h, p), s, x);
    DeficitNodes(c, sub, LevelAt(c, t, h, p), s, x);
    TopInside(FarOf(sub, s));
    assert w != p && c'[p] == c[p];
    GraftShortGood(c, c', t, h, p, sub, x, p);
    GraftItself(t, p);
    RootOfGraft(c, c', t, p, sub);
  }

  /** The far child of the sibling is red: one rotation at the parent ends it. */
  lemma EndFar(b: Arena, t: Shape, h: int, p: nat, x: nat) returns (t': Shape)
    requires CanPass(b, t, h, p, x) && p < |b.ns|
    requires var s := SideOf(b.ns, p, x); var w := Far(b.ns[p], s);
             w < |b.ns| && IsBlack(b.ns, w) && !IsBlack(b.ns, Far(b.ns[w], s))
    ensures var s := SideOf(b.ns, p, x); var r := RaiseFar(b, p, s);
            && r.Some? && Tree(r.value, t') && Ids(t') == Ids(t)
            && Good(ColorsOf(r.value.ns), t', h, NOBODY) && !RedAt(ColorsOf(r.value.ns), t')
  {
    hide CanPass, Links, NoDup, Ids, SubAt, Grafted, Good, ShortGood, Deficit, LevelAt, RaiseFar, Turn;
    DeficitHere(b, t, h, p, x);
    PassParts(b, t, h, p, x);
    var c, s, sub := ColorsOf(b.ns), SideOf(b.ns, p, x), SubAt(t, p);
    var w := Far(b.ns[p], s);
    t' := RaiseFarKeeps(b, t, p, s);
    FarRed(c, sub, LevelAt(c, t, h, p), s, x);
    DeficitNodes(c, sub, LevelAt(c, t, h, p), s, x);
    RaiseFarColors(b, p, s);
    var c' := LastColors(c, w, p, Far(b.ns[w], s));
    TurnedIds(sub, p, s);
    TurnIsGraft(t, p, s);
    GraftShortEven(c, c', t, h, p, Turn(sub, p, s), x);
    RootOfGraft(c, c', t, p, Turn(sub, p, s));
  }

  /** The top of the whole tree stays black where the top of the part keeps its colour. */
  lemma RootOfGraft(c: seq<Color>, c': seq<Color>, t: Shape, g: nat, u: Shape)
    requires g in Ids(t) && NoDup(t) && SameBut(c, c', Ids(SubAt(t, g))) && !RedAt(c, t)
    requires RedAt(c', u) ==> g < |c| && c[g] == Red
    ensures !RedAt(c', Grafted(t, g, u))
  {
    GraftTop(c, c', t, g, u);
  }

  lemma RaiseFarColors(b: Arena, p: nat, s: Side)
    requires p < |b.ns| && Far(b.ns[p], s) < |b.ns| && RaiseFar(b, p, s).Some?
    requires var w := Far(b.ns[p], s); Far(b.ns[w], s) < |b.ns|
    ensures var w := Far(b.ns[p], s);
            ColorsOf(RaiseFar(b, p, s).value.ns) == LastColors(ColorsOf(b.ns), w, p, Far(b.ns[w], s))
  {
    hide Rotate;
    var w := Far(b.ns[p], s);
    var b1 := Paint(b, w, b.ns[p].color);
    PaintColors(b, w, b.ns[p].color);
    var b2 := Paint(b1, p, Black);
    PaintColors(b1, p, Black);
    PaintColors(b2, Far(b.ns[w], s), Black);
    RotateColors(PaintIf(b2, Far(b.ns[w], s), Black), p, s);
  }

  /** Only the near child of the sibling is red: it is turned above the sibling first. */
  lemma EndNear(b: Arena, t: Shape, h: int, p: nat, x: nat) returns (t': Shape)
    requires CanPass(b, t, h, p, x) && p < |b.ns|
    requires var s := SideOf(b.ns, p, x); var w := Far(b.ns[p], s);
             w < |b.ns| && IsBlack(b.ns, w) && IsBlack(b.ns, Far(b.ns[w], s)) && !IsBlack(b.ns, Near(b.ns[w], s))
    ensures var s := SideOf(b.ns, p, x); var w := Far(b.ns[p], s); var m := TurnSibling(b, w, s);
            && m.Some? && |m.value.ns| == |b.ns| && Far(m.value.ns[p], s) < |b.ns|
            && var r := RaiseFar(m.value, p, s);
            && r.Some? && Tree(r.value, t') && Ids(t') == Ids(t)
            && Good(ColorsOf(r.value.ns), t', h, NOBODY) && !RedAt(ColorsOf(r.value.ns), t')
  {
    hide CanPass, Links, NoDup, Ids, SubAt, Grafted, Good, ShortGood, LevelAt, RaiseFar, TurnSibling, Turn;
    hide TurnedSub, LastColors, ColorsOf;
    NearNode(b, t, h, p, x);
    PassParts(b, t, h, p, x);
    var s := SideOf(b.ns, p, x);
    var w := Far(b.ns[p], s);
    var n := Near(b.ns[w], s);
    var t1 := TurnSiblingKeeps(b, t, p, w, s);
    var m := TurnSibling(b, w, s).value;
    TurnedSiblingLinks(b, t, p, w, n, s);
    t' := RaiseFarKeeps(m, t1, p, s);
    RaiseFarColors(m, p, s);
    LastAfterTurn(ColorsOf(b.ns), n, p, w);
    RoundIsGraft(t, p, Other(s), s);
  }

  lemma OwnChildDiffers(far: Shape, s: Side)
    requires far.Fork? && NoDup(far) && NearOf(far, s).Fork?
    ensures NearOf(far, s).id != far.id
  {
  }

  lemma LastAfterTurn(c: seq<Color>, n: nat, p: nat, w: nat)
    requires n < |c| && p < |c| && w < |c| && n != p && w != p && n != w
    ensures LastColors(c[n := Black][w := Red], n, p, w) == LastColors(c, n, p, w)
  {
  }

  /** The near child of the sibling in the shape, and what is there after the round of rotations. */
  lemma NearNode(b: Arena, t: Shape, h: int, p: nat, x: nat)
    requires CanPass(b, t, h, p, x) && p < |b.ns|
    requires var s := SideOf(b.ns, p, x); var w := Far(b.ns[p], s);
             w < |b.ns| && IsBlack(b.ns, w) && IsBlack(b.ns, Far(b.ns[w], s)) && !IsBlack(b.ns, Near(b.ns[w], s))
    ensures var c, s, sub := ColorsOf(b.ns), SideOf(b.ns, p, x), SubAt(t, p);
            var w := Far(b.ns[p], s); var n := Near(b.ns[w], s);
            && sub.Fork? && FarOf(sub, s).Fork? && NearOf(FarOf(sub, s), s).Fork? && FarOf(sub, s).id == w
            && w in Ids(t) && IsChild(b.ns, p, w) && n < |b.ns| && n != p && w != p && n != w
            && var u := Grafted(t, p, TurnedSub(sub, Other(s), s));
            Good(LastColors(c, n, p, w), u, h, NOBODY) && !RedAt(LastColors(c, n, p, w), u)
  {
    hide CanPass, Links, NoDup, Ids, SubAt, Grafted, Good, ShortGood, Deficit, LevelAt, TurnedSub;
    DeficitHere(b, t, h, p, x);
    PassParts(b, t, h, p, x);
    var c, s, sub := ColorsOf(b.ns), SideOf(b.ns, p, x), SubAt(t, p);
    var w := Far(b.ns[p], s);
    var n := Near(b.ns[w], s);
    NearRed(c, sub, LevelAt(c, t, h, p), s, x);
    DeficitNodes(c, sub, LevelAt(c, t, h, p), s, x);
    TopInside(FarOf(sub, s));
    SiblingsDiffer(b.ns, t, b.root, NONE, w);
    GrandchildDiffers(b, t, p, w, n);
    assert n != w by { OwnChildDiffers(FarOf(sub, s), s); }
    var c', u := LastColors(c, n, p, w), TurnedSub(sub, Other(s), s);
    TurnedSubIds(sub, Other(s), s);
    GraftShortEven(c, c', t, h, p, u, x);
    RootOfGraft(c, c', t, p, u);
  }

  lemma TurnedSubIds(sub: Shape, s: Side, q: Side)
    requires sub.Fork? && NearOf(sub, s).Fork? && NearOf(NearOf(sub, s), q).Fork?
    ensures Ids(TurnedSub(sub, s, q)) == Ids(sub)
  {
    hide Ids, Turn;
    var g, near := sub.id, NearOf(sub, s);
    TurnedIds(sub, g, Other(s));
    TurnedIds(near, near.id, s);
    var mid := ForkOf(s, Turn(near, near.id, s), g, FarOf(sub, s));
    TurnedIds(mid, g, Other(s));
    WholeIds(sub, s);
    WholeIds(mid, s);
  }

  /** After the near child was turned above the sibling, it is the parent's far child, with the sibling, red, beyond. */
  lemma TurnedSiblingLinks(b: Arena, t: Shape, p: nat, w: nat, n: nat, s: Side)
    requires Tree(b, t) && p in Ids(t) && w in Ids(t) && IsChild(b.ns, p, w) && Far(b.ns[p], s) == w
    requires n == Near(b.ns[w], s) && n < |b.ns| && b.ns[n].color == Red && IsBlack(b.ns, Far(b.ns[w], s))
    requires b.ns[w].color == Black
    ensures var m := TurnSibling(b, w, s);
            && m.Some? && |m.value.ns| == |b.ns| && Far(m.value.ns[p], s) == n && Far(m.value.ns[n], s) == w
            && m.value.ns[p].color == b.ns[p].color
            && ColorsOf(m.value.ns) == ColorsOf(b.ns)[n := Black][w := Red]
  {
    hide Links, NoDup, Ids, Rotate, LeftRotation, RightRotation, Rearranged, Turn;
    ChildrenOf(b, t, w, s);
    SiblingsDiffer(b.ns, t, b.root, NONE, p);
    SiblingsDiffer(b.ns, t, b.root, NONE, w);
    GrandchildDiffers(b, t, p, w, n);
    var b1 := Paint(b, n, Black);
    var b2 := Paint(b1, w, Red);
    PaintColors(b, n, Black);
    PaintColors(b1, w, Red);
    PaintKeeps(b, t, n, Black);
    PaintKeeps(b1, t, w, Red);
    ArrangedTree(b, t, b1);
    ArrangedTree(b1, t, b2);
    var t1 := RotateKeeps(b2, t, w, Other(s));
    RotateColors(b2, w, Other(s));
    RelinkedAbove(b2, t, p, w, s);
    RotateLinks1(b2, t, w, Other(s));
    var m := Rotate(b2, w, Other(s)).value;
    assert TurnSibling(b, w, s) == Some(m);
    assert m.ns[p].color == b2.ns[p].color == b.ns[p].color;
  }

  lemma ArrangedTree(a: Arena, t: Shape, b: Arena)
    requires Rearranged(a, t, b, t)
    ensures Tree(b, t)
  {
  }

  lemma TurnNothing(b: Arena, w: nat, s: Side)
    requires w < |b.ns| && !IsBlack(b.ns, Far(b.ns[w], s))
    ensures TurnSibling(b, w, s) == Some(b)
  {
  }

  /** What a pass leaves: at the root nothing more to mend, or the parent short. */
  ghost predicate Passed(a: Arena, t: Shape, h: int, p: nat, r: Round, t': Shape) {
    && r.Climb? && Tree(r.a, t') && Ids(t') == Ids(t) && !RedAt(ColorsOf(r.a.ns), t')
    && ((r.node == r.a.root && Good(ColorsOf(r.a.ns), t', h, NOBODY))
        || (&& r.node == p && p < |r.a.ns| && ShortGood(ColorsOf(r.a.ns), t', h, p)
            && (r.a.ns[p].color == Red || (t' == t && r.a.root == a.root && Recolored(a.ns, r.a.ns)))))
  }

  /** One pass of `fix_delete` at a black node that is short. */
  lemma DelRoundGood(a: Arena, t: Shape, h: int, p: nat, x: nat) returns (t': Shape)
    requires CanPass(a, t, h, p, x) && p < |a.ns|
    ensures Passed(a, t, h, p, DelRound(a, x, p, SideOf(a.ns, p, x)), t')
  {
    hide CanPass, Links, NoDup, Ids, Good, ShortGood, RaiseSibling, TurnSibling, RaiseFar, ColorsOf, RedAt;
    var s := SideOf(a.ns, p, x);
    var t1 := RaiseGood(a, t, h, p, x);
    var b := RaiseSibling(a, p, s).value;
    SiblingLinks(b, t1, h, p, x);
    var w := Far(b.ns[p], s);
    if IsBlack(b.ns, b.ns[w].left) && IsBlack(b.ns, b.ns[w].right) {
      ClimbShort(b, t1, h, p, x);
      t' := t1;
      PaintedTree(b, t1, h, p, x, w);
    } else if IsBlack(b.ns, Far(b.ns[w], s)) {
      t' := EndNear(b, t1, h, p, x);
    } else {
      TurnNothing(b, w, s);
      t' := EndFar(b, t1, h, p, x);
    }
  }

  lemma SiblingLinks(b: Arena, t: Shape, h: int, p: nat, x: nat)
    requires CanPass(b, t, h, p, x) && p < |b.ns|
    ensures var w := Far(b.ns[p], SideOf(b.ns, p, x));
            && w < |b.ns| && w != NONE && w != p && InBounds(b.ns, b.ns[w].left) && InBounds(b.ns, b.ns[w].right)
            && w in Ids(t) && |b.ns| <= NONE
  {
    hide CanPass, Links, NoDup, Ids, ShortGood, Deficit, LevelAt, SubAt;
    DeficitHere(b, t, h, p, x);
    PassParts(b, t, h, p, x);
    var s := SideOf(b.ns, p, x);
    ChildrenOf(b, t, Far(b.ns[p], s), s);
    DeficitNodes(ColorsOf(b.ns), SubAt(t, p), LevelAt(ColorsOf(b.ns), t, h, p), s, x);
    TopInside(FarOf(SubAt(t, p), s));
  }

  lemma PaintedTree(b: Arena, t: Shape, h: int, p: nat, x: nat, w: nat)
    requires CanPass(b, t, h, p, x) && w in Ids(t) && w != p && p < |b.ns| && w < |b.ns|
    ensures var r := Paint(b, w, Red);
            Tree(r, t) && r.root == b.root && Recolored(b.ns, r.ns) && r.ns[p].color == b.ns[p].color
  {
    hide Links, NoDup, Ids, ShortGood, InOrder;
    PaintKeeps(b, t, w, Red);
  }

  // ---------------------------------------------------------------- fix_delete

  /** Painting the short node black when it is red or the root. */
  lemma StopBalances(a: Arena, t: Shape, h: int, x: nat, rounds: nat)
    requires Tree(a, t) && x in Ids(t) && x < |a.ns| && rounds > 0
    requires ShortGood(ColorsOf(a.ns), t, h, x) && !RedAt(ColorsOf(a.ns), t)
    requires x == a.root || a.ns[x].color == Red
    ensures var r := FixDelFrom(a, x, rounds); r.Done? && Tree(r.a, t) && RedBlack(ColorsOf(r.a.ns), t)
  {
    hide Links, NoDup, Ids, ShortGood, InOrder, RedBlack, DelRound;
    PaintKeeps(a, t, x, Black);
    PaintColors(a, x, Black);
    LinkedTop(a.ns, t, a.root, NONE);
    PaintShort(ColorsOf(a.ns), t, h, x);
  }

  lemma RootBalances(a: Arena, t: Shape, h: int, rounds: nat)
    requires Tree(a, t) && a.root != NONE && rounds > 0
    requires Good(ColorsOf(a.ns), t, h, NOBODY) && !RedAt(ColorsOf(a.ns), t)
    ensures var r := FixDelFrom(a, a.root, rounds); r.Done? && Tree(r.a, t) && RedBlack(ColorsOf(r.a.ns), t)
  {
    LinkedTop(a.ns, t, a.root, NONE);
    assert a.ns[a.root].color == Black;
    assert Paint(a, a.root, Black) == a;
  }

  /** `fix_delete` at a node under which every path is one black node short: it ends with the balance restored. */
  lemma {:induction false} FixDelBalances(a: Arena, t: Shape, path: seq<nat>, rounds: nat, h: int)
    returns (t': Shape)
    requires Tree(a, t) && PathTo(a, t, path) && rounds > |path|
    requires ShortGood(ColorsOf(a.ns), t, h, path[|path| - 1]) && !RedAt(ColorsOf(a.ns), t)
    ensures var r := FixDelFrom(a, path[|path| - 1], rounds);
            r.Done? && Tree(r.a, t') && RedBlack(ColorsOf(r.a.ns), t')
    decreases |path|
  {
    hide Links, NoDup, InOrder, Ids, DelRound, Good, ShortGood, RedBlack, ColorsOf, RedAt;
    var n, x := |path| - 1, path[|path| - 1];
    if n > 0 {
      assert ChildAt(a.ns, path, n);
    }
    if n == 0 || a.ns[x].color == Red {
      StopBalances(a, t, h, x, rounds);
      t' := t;
    } else {
      var p := path[n - 1];
      MakePass(a, t, h, p, x);
      var t1 := DelRoundGood(a, t, h, p, x);
      var r := DelRound(a, x, p, SideOf(a.ns, p, x));
      assert x != a.root && FixDelRound(a, x) == r;
      if r.node == r.a.root && Good(ColorsOf(r.a.ns), t1, h, NOBODY) {
        HasRoot(r.a, t1, x);
        RootBalances(r.a, t1, h, rounds - 1);
        t' := t1;
      } else if r.a.ns[p].color == Red {
        StopBalances(r.a, t1, h, p, rounds - 1);
        t' := t1;
      } else {
        PathPrefix(a, t, r.a.ns, path, n);
        t' := FixDelBalances(r.a, t, path[..n], rounds - 1, h);
      }
    }
  }

  // ---------------------------------------------------------------- an example

  /** A fourth key hangs below a red node beside a red one: both are painted black. */
  lemma FourthRecolors(a: Arena)
    requires 4 <= |a.ns| < NONE && a.root == 0
    requires a.ns[0] == RbNode(2, 1, NONE, 1, 2, Black, true) && a.ns[1] == RbNode(1, 2, 0, NONE, NONE, Red, true)
    requires a.ns[2] == RbNode(3, 3, 0, NONE, NONE, Red, true)
    ensures InsertNode(a, 3, 0, 4, 4)
            == Done(Arena(a.ns[1 := RbNode(1, 2, 0, 3, NONE, Black, true)]
                              [2 := RbNode(3, 3, 0, NONE, NONE, Black, true)]
                              [3 := RbNode(0, 4, 1, NONE, NONE, Red, true)], 0))
  {
    var ns1 := a.ns[3 := RbNode(0, 4, NONE, NONE, NONE, Red, true)];
    assert Descend(ns1, 0, 1, 3) == Some(1);
    assert Descend(ns1, 0, 0, 4) == Some(1);
    var ns2 := Hung(ns1, 1, 3);
    var ns3 := WithColor(WithColor(WithColor(ns2, 1, Black), 2, Black), 0, Red);
    assert FixRound(Arena(ns2, 0), 3) == Climb(Arena(ns3, 0), 0);
    assert FixRound(Arena(ns3, 0), 0) == Stop(Arena(ns3, 0));
    assert FixFrom(Arena(ns3, 0), 0, 3) == Done(Arena(WithColor(ns3, 0, Black), 0));
    assert FixFrom(Arena(ns2, 0), 3, 4) == Done(Arena(WithColor(ns3, 0, Black), 0));
    assert WithColor(ns3, 0, Black)
        == a.ns[1 := RbNode(1, 2, 0, 3, NONE, Black, true)][2 := RbNode(3, 3, 0, NONE, NONE, Black, true)]
               [3 := RbNode(0, 4, 1, NONE, NONE, Red, true)];
  }

  /** Four threads are enqueued under keys 2, 1, 3 and 0, and the third is removed: the root has nothing on its right,
    * and a black node on its left. */
  lemma UnbalancedExample(ns: seq<RbNode>) returns (b: Arena, t: Shape, t': Shape)
    requires 4 <= |ns| < NONE
    ensures InsertAll(ns, [Entry(2, 1), Entry(1, 2), Entry(3, 3), Entry(0, 4)], 4) == Done(b)
    ensures Tree(b, t) && RedBlack(ColorsOf(b.ns), t)
    ensures var r := DeleteNode(b, 2, |ns| + 1);
            r.Done? && Tree(r.a, t') && !RedBlack(ColorsOf(r.a.ns), t')
  {
    var a := ThreeInserted(ns);
    FourthRecolors(a);
    b := InsertNode(a, 3, 0, 4, 4).a;
    var four := [Entry(2, 1), Entry(1, 2), Entry(3, 3), Entry(0, 4)];
    assert four[..3] == [Entry(2, 1), Entry(1, 2), Entry(3, 3)];
    t := Fork(Fork(Fork(Leaf, 3, Leaf), 1, Leaf), 0, Fork(Leaf, 2, Leaf));
    FourBalanced(b, t);
    hide InsertNode, DeleteNode, RedBlack, Links, NoDup, ColorsOf;
    t' := RemoveBalancedExactlyWhen(b, t, 2, |ns| + 1);
  }

  lemma FourBalanced(b: Arena, t: Shape)
    requires 4 <= |b.ns| < NONE && b.root == 0 && b.ns[0] == RbNode(2, 1, NONE, 1, 2, Black, true)
    requires b.ns[1] == RbNode(1, 2, 0, 3, NONE, Black, true) && b.ns[2] == RbNode(3, 3, 0, NONE, NONE, Black, true)
    requires b.ns[3] == RbNode(0, 4, 1, NONE, NONE, Red, true)
    requires t == Fork(Fork(Fork(Leaf, 3, Leaf), 1, Leaf), 0, Fork(Leaf, 2, Leaf))
    ensures Tree(b, t) && 2 in Ids(t) && !TwoChildren(t, 2) && RedBlack(ColorsOf(b.ns), t)
  {
    var c := ColorsOf(b.ns);
    var low, right := Fork(Leaf, 3, Leaf), Fork(Leaf, 2, Leaf);
    var left := Fork(low, 1, Leaf);
    assert Links(b.ns, low, 3, 1) && Links(b.ns, right, 2, 0);
    assert Links(b.ns, left, 1, 0);
    assert Ids(low) == {3} && Ids(left) == {1, 3} && Ids(right) == {2};
    assert NoDup(left) && NoDup(right) && NoDup(t);
    assert Even(c, low, 0) && Even(c, right, 1);
    assert Even(c, left, 1);
    assert Even(c, t, 2);
    assert Calm(c, low, NOBODY, NOBODY) && Calm(c, right, NOBODY, NOBODY);
    assert Calm(c, left, NOBODY, NOBODY);
    assert SubAt(t, 2) == right;
  }
}
