/** The run queue on the kernel's own tree: how long it is the ordered queue. */
module TreeQueues {
  import opened Layout
  import opened Arith
  import opened Cfs
  import opened RunQueues
  import opened RbTrees
  import opened RbFix
  import opened RbDelete
  import opened RbArena

  // ---------------------------------------------------------------- trees and their entries

  lemma {:induction false} EntriesCount(ns: seq<RbNode>, t: Shape)
    requires NoDup(t)
    ensures |InOrder(ns, t)| == |Ids(t)|
  {
    if t.Fork? {
      EntriesCount(ns, t.left);
      EntriesCount(ns, t.right);
      assert InOrder(ns, t) == InOrder(ns, t.left) + [EntryOf(ns, t.id)] + InOrder(ns, t.right);
      assert Ids(t) == Ids(t.left) + {t.id} + Ids(t.right);
      var l, r := Ids(t.left), Ids(t.right);
      hide Ids, InOrder;
      assert |l + {t.id}| == |l| + 1 && |l + {t.id} + r| == |l + {t.id}| + |r|;
    }
  }

  lemma {:induction false} EntryHasNode(ns: seq<RbNode>, t: Shape, e: Entry) returns (id: nat)
    requires e in InOrder(ns, t)
    ensures id in Ids(t) && EntryOf(ns, id) == e
  {
    if e in InOrder(ns, t.left) {
      id := EntryHasNode(ns, t.left, e);
    } else if e in InOrder(ns, t.right) {
      id := EntryHasNode(ns, t.right, e);
    } else {
      id := t.id;
    }
  }

  lemma {:induction false} NodeHasEntry(ns: seq<RbNode>, t: Shape, id: nat)
    requires id in Ids(t)
    ensures EntryOf(ns, id) in InOrder(ns, t)
  {
    if id in Ids(t.left) {
      NodeHasEntry(ns, t.left, id);
    } else if id in Ids(t.right) {
      NodeHasEntry(ns, t.right, id);
    }
  }

  lemma {:induction false} AllNumbers(s: set<nat>, n: nat)
    requires forall i: nat :: i in s ==> i < n
    ensures |s| == n <==> forall i: nat :: i < n ==> i in s
  {
    if n == 0 {
      assert s == {};
    } else {
      var rest := s - {n - 1};
      AllNumbers(rest, n - 1);
      SmallNumbers(rest, n - 1);
      if n - 1 in s {
        assert s == rest + {n - 1};
        assert forall i: nat :: i < n - 1 ==> (i in rest <==> i in s);
      } else {
        assert s == rest;
      }
    }
  }

  /** A tree of one node is inserted into without a rotation; in a tree of two no node has two children. */
  lemma SmallTrees(ns: seq<RbNode>, t: Shape)
    requires NoDup(t)
    ensures |Ids(t)| <= 1 ==> forall key: nat :: !InsertRotates(ns, t, key)
    ensures |Ids(t)| <= 2 ==> forall z: nat :: z in Ids(t) ==> !TwoChildren(t, z)
  {
    if t.Fork? && (t.left.Fork? || t.right.Fork?) {
      TwoNodes(t);
    }
    if |Ids(t)| <= 2 {
      forall z: nat | z in Ids(t) ensures !TwoChildren(t, z) {
        ThreeNodes(t, z);
      }
    }
  }

  lemma TwoNodes(t: Shape)
    requires t.Fork? && (t.left.Fork? || t.right.Fork?) && NoDup(t)
    ensures |Ids(t)| > 1
  {
    var child := if t.left.Fork? then t.left else t.right;
    assert child.id in Ids(child) && child.id in Ids(t) && t.id in Ids(t) && child.id != t.id;
    hide Ids, NoDup;
    Fewer({t.id}, Ids(t), child.id);
  }

  lemma ThreeNodes(t: Shape, z: nat)
    requires NoDup(t) && z in Ids(t)
    ensures TwoChildren(t, z) ==> |Ids(t)| > 2
  {
    SubAtInside(t, z);
    var sub := SubAt(t, z);
    if TwoChildren(t, z) {
      var x, y := sub.left.id, sub.right.id;
      assert x in Ids(sub.left) && y in Ids(sub.right) && x != y && x != sub.id && y != sub.id;
      var ids := Ids(t);
      hide Ids, NoDup;
      Fewer({x, y}, ids, sub.id);
    }
  }

  lemma {:induction false} SubAtInside(t: Shape, z: nat)
    requires NoDup(t) && z in Ids(t)
    ensures Ids(SubAt(t, z)) <= Ids(t) && NoDup(SubAt(t, z))
  {
    if t.id != z {
      SubAtInside(if z in Ids(t.left) then t.left else t.right, z);
    }
  }

  lemma OneChildIds(t: Shape, z: nat)
    requires NoDup(t) && z in Ids(t) && SubAt(t, z).Fork? && SubAt(t, z).id == z && !TwoChildren(t, z)
    ensures Ids(AfterDelete(t, z)) == Ids(t) - {z}
  {
    SubAtInside(t, z);
    var sub := SubAt(t, z);
    RemainsInside(sub);
    GraftedIds(t, z, Remains(sub));
    assert Ids(sub) == Ids(Remains(sub)) + {z};
  }

  // ---------------------------------------------------------------- threads and their nodes

  /** The nodes in use are those of the tree; each belongs to a thread that knows it, and the other way round. */
  ghost predicate NodesOk(ns: seq<RbNode>, t: Shape, threads: map<nat, Thread>, nodeOf: map<nat, nat>) {
    && (forall i: nat :: i < |ns| && ns[i].inUse ==> i in Ids(t))
    && (forall i: nat :: i in Ids(t) ==> Owned(ns, threads, nodeOf, i))
    && forall tid :: tid in threads && threads[tid].inTree ==>
         tid in nodeOf && nodeOf[tid] in Ids(t) && nodeOf[tid] < |ns| && ns[nodeOf[tid]].tid == tid
  }

  ghost predicate Owned(ns: seq<RbNode>, threads: map<nat, Thread>, nodeOf: map<nat, nat>, i: nat) {
    && i < |ns| && ns[i].tid in threads && threads[ns[i].tid].inTree
    && ns[i].tid in nodeOf && nodeOf[ns[i].tid] == i
  }

  lemma NodeAdded(ns: seq<RbNode>, t: Shape, threads: map<nat, Thread>, nodeOf: map<nat, nat>, ns': seq<RbNode>,
                  t': Shape, id: nat, tid: nat, th: Thread)
    requires NodesOk(ns, t, threads, nodeOf) && OthersSame(ns, ns', id) && id < |ns| && id !in Ids(t)
    requires Ids(t') == Ids(t) + {id} && ns'[id].inUse && ns'[id].tid == tid && th.inTree
    requires tid in threads && !threads[tid].inTree
    ensures NodesOk(ns', t', threads[tid := th], nodeOf[tid := id])
  {
    forall i: nat | i in Ids(t') ensures Owned(ns', threads[tid := th], nodeOf[tid := id], i) {
      if i != id {
        assert Owned(ns, threads, nodeOf, i);
      }
    }
  }

  lemma NodeDropped(ns: seq<RbNode>, t: Shape, threads: map<nat, Thread>, nodeOf: map<nat, nat>, ns': seq<RbNode>,
                    t': Shape, id: nat, tid: nat, th: Thread)
    requires NodesOk(ns, t, threads, nodeOf) && OthersSame(ns, ns', id) && id < |ns| && id in Ids(t)
    requires Ids(t') == Ids(t) - {id} && !ns'[id].inUse && ns[id].tid == tid && !th.inTree
    ensures NodesOk(ns', t', threads[tid := th], nodeOf)
  {
    hide Ids;
    assert Owned(ns, threads, nodeOf, id);
    forall i: nat | i in Ids(t') ensures Owned(ns', threads[tid := th], nodeOf, i) {
      assert Owned(ns, threads, nodeOf, i) && ns'[i].tid == ns[i].tid;
    }
    forall other | other in threads && threads[other].inTree && other != tid
      ensures nodeOf[other] in Ids(t') && ns'[nodeOf[other]].tid == other
    {
      assert ns[nodeOf[other]].tid == other;
    }
  }

  /** A thread that is not in the tree has no entry. */
  lemma NotQueued(ns: seq<RbNode>, t: Shape, threads: map<nat, Thread>, nodeOf: map<nat, nat>, tid: nat)
    requires NodesOk(ns, t, threads, nodeOf) && (tid in threads ==> !threads[tid].inTree)
    ensures !Queued(InOrder(ns, t), tid)
  {
    forall e | e in InOrder(ns, t) ensures e.tid != tid {
      var id := EntryHasNode(ns, t, e);
      assert Owned(ns, threads, nodeOf, id);
    }
  }

  /** A thread in the tree has an entry. */
  lemma IsQueued(ns: seq<RbNode>, t: Shape, at: nat, threads: map<nat, Thread>, nodeOf: map<nat, nat>, tid: nat)
    requires NodesOk(ns, t, threads, nodeOf) && Links(ns, t, at, NONE) && tid in threads && threads[tid].inTree
    ensures Queued(InOrder(ns, t), tid)
  {
    NodeHasEntry(ns, t, nodeOf[tid]);
  }

  /** The pool is used up exactly when the tree has all nodes. */
  lemma PoolIsFull(ns: seq<RbNode>, head: nat, pool: seq<nat>, t: Shape, at: nat, threads: map<nat, Thread>,
                   nodeOf: map<nat, nat>)
    requires PoolOk(ns, head, pool) && Links(ns, t, at, NONE) && NoDup(t) && NodesOk(ns, t, threads, nodeOf)
    ensures |InOrder(ns, t)| <= |ns| && (pool == [] <==> |InOrder(ns, t)| == |ns|)
  {
    NoneFree(ns, head, pool);
    EntriesCount(ns, t);
    IdsInArena(ns, t, at, NONE);
    SmallNumbers(Ids(t), |ns|);
    AllNumbers(Ids(t), |ns|);
  }

  /** The tree has no more entries than there are threads but the idle one. */
  lemma EntriesFit(ns: seq<RbNode>, t: Shape, threads: map<nat, Thread>, nodeOf: map<nat, nat>, ids: set<nat>)
    requires NodesOk(ns, t, threads, nodeOf)
    requires forall tid :: tid in threads && threads[tid].inTree ==> tid in ids
    ensures |Ids(t)| <= |ids|
  {
    forall i: nat | i in Ids(t) ensures i < |ns| && ns[i].tid in ids {
      assert Owned(ns, threads, nodeOf, i);
    }
    Injects(Ids(t), ids, ns, threads, nodeOf);
  }

  lemma {:induction false} Injects(nodes: set<nat>, tids: set<nat>, ns: seq<RbNode>, threads: map<nat, Thread>,
                                   nodeOf: map<nat, nat>)
    requires forall i: nat :: i in nodes ==> Owned(ns, threads, nodeOf, i) && ns[i].tid in tids
    ensures |nodes| <= |tids|
    decreases |nodes|
  {
    if nodes != {} {
      var i :| i in nodes;
      assert Owned(ns, threads, nodeOf, i);
      forall j: nat | j in nodes - {i}
        ensures Owned(ns, threads, nodeOf, j) && ns[j].tid in tids - {ns[i].tid}
      {
        assert Owned(ns, threads, nodeOf, j);
      }
      Injects(nodes - {i}, tids - {ns[i].tid}, ns, threads, nodeOf);
    }
  }

  /** The key under which a thread is enqueued. */
  function KeyOf(s: State, tid: nat): nat
    requires tid in s.threads
  {
    var th := s.threads[tid];
    EffectiveVruntime(PlaceEntity(s.min, EffectiveVruntime(th.vruntime, th.boost)), th.boost)
  }

  // ---------------------------------------------------------------- the run queue

  class CfsRunQueue {
    const tree: RedBlackTree
    var running: nat
    var min: nat
    var curr: Option<nat>
    const idle: nat
    /** The queue's part of the thread table, and each thread's node. */
    var threads: map<nat, Thread>
    var nodeOf: map<nat, nat>
    ghost var stint: map<nat, nat>

    ghost function View(): State
      reads this, tree, tree.nodes
    {
      State(tree.Contents(), running, min, curr, threads, stint)
    }

    /** The tree is well linked and in order, and threads and nodes know each other. */
    ghost predicate Linked()
      reads this, tree, tree.nodes
    {
      && tree.Valid() && Sorted(tree.Contents()) && Distinct(tree.Contents())
      && NodesOk(tree.nodes[..], tree.shape, threads, nodeOf)
    }

    constructor (idle: nat, threads: map<nat, Thread>)
      requires forall tid :: tid in threads ==> !threads[tid].inTree
      ensures Linked() && View() == State([], 0, 0, None, threads, map[]) && this.idle == idle
      ensures fresh(tree) && fresh(tree.nodes)
    {
      var t := new RedBlackTree();
      t.Init();
      tree := t;
      running, min, curr := 0, 0, None;
      this.idle, this.threads, nodeOf := idle, threads, map[];
      stint := map[];
    }

    /** Enqueueing this thread ends in a rotation. */
    ghost predicate EnqueueRotates(tid: nat)
      reads this, tree, tree.nodes
    {
      && tid in threads && |tree.Contents()| < MAX_NODES
      && InsertRotates(tree.nodes[..], tree.shape, KeyOf(View(), tid))
    }

    /** The queue is as it should be afterwards; its tree is well linked exactly when no rotation was needed. */
    method Enqueue(tid: nat)
      requires Linked() && (tid in threads ==> !threads[tid].inTree)
      modifies this, tree, tree.nodes
      ensures View() == Next(old(View()), Op.Enqueue(tid)) && Enqueued(old(View()), tid, View())
      ensures Linked() <==> !old(EnqueueRotates(tid))
    {
      hide Enqueued, EffectiveVruntime, PlaceEntity, Insert, InsertRotates, NodesOk, Sorted, Distinct;
      EnqueueMeans(View(), tid);
      if tid in threads {
        var th := threads[tid];
        th := th.(vruntime := PlaceEntity(min, EffectiveVruntime(th.vruntime, th.boost)));
        var key := EffectiveVruntime(th.vruntime, th.boost);
        var inserted := InsertEntry(key, tid, th);
        var first := tree.Minimum();
        running := running + 1;
        if first.Some? {
          min := first.value.1.key;
        }
      }
    }

    /** Insert into the tree and note node and marks. */
    method InsertEntry(key: nat, tid: nat, th: Thread) returns (inserted: bool)
      requires Linked() && tid in threads && !threads[tid].inTree
      modifies this, tree, tree.nodes
      ensures tree.Ordered() && running == old(running) && min == old(min) && curr == old(curr)
      ensures threads == old(threads)[tid := th.(onRq := true, inTree := inserted)] && stint == old(stint) - {tid}
      ensures inserted <==> |old(tree.Contents())| < MAX_NODES
      ensures tree.Contents()
              == if inserted then Insert(old(tree.Contents()), Entry(key, tid)) else old(tree.Contents())
      ensures Linked() <==> !(inserted && InsertRotates(old(tree.nodes[..]), old(tree.shape), key))
    {
      hide PoolOk, Links, NoDup, InOrder, Insert, InsertRotates, InsertNode, NodesOk, Sorted, Distinct, Ids;
      ghost var ns, t := tree.nodes[..], tree.shape;
      PoolIsFull(ns, tree.freeHead, tree.pool, t, tree.root, threads, nodeOf);
      NotQueued(ns, t, threads, nodeOf, tid);
      InsertKeeps(tree.Contents(), Entry(key, tid));
      var node := tree.Insert(key, tid);
      inserted := node.Some?;
      if inserted {
        NodeAdded(ns, t, threads, nodeOf, tree.nodes[..], tree.shape, node.value, tid,
                  th.(onRq := true, inTree := true));
        nodeOf := nodeOf[tid := node.value];
      } else {
        IsOrdered(tree);
        NodesKept(ns, t, threads, nodeOf, tid, th.(onRq := true, inTree := false));
      }
      threads := threads[tid := th.(onRq := true, inTree := inserted)];
      stint := stint - {tid};
    }

    /** The thread's node has two children. */
    ghost predicate HasTwo(tid: nat)
      reads this, tree
    {
      tid in threads && threads[tid].onRq && threads[tid].inTree
      && tid in nodeOf && TwoChildren(tree.shape, nodeOf[tid])
    }

    /** The queue is as it should be afterwards exactly when the thread's node has at most one child. */
    method Dequeue(tid: nat)
      requires Linked()
      modifies this, tree, tree.nodes
      ensures View() == Next(old(View()), Op.Dequeue(tid)).(tree := tree.Contents())
      ensures View() == Next(old(View()), Op.Dequeue(tid)) <==> !old(HasTwo(tid))
      ensures !old(HasTwo(tid)) ==> Linked() && Dequeued(old(View()), tid, View())
    {
      hide Sorted, Distinct;
      if tid in threads && threads[tid].inTree {
        IsQueued(tree.nodes[..], tree.shape, tree.root, threads, nodeOf, tid);
      }
      DequeueMeans(View(), tid);
      hide Dequeued;
      if tid in threads && threads[tid].onRq && threads[tid].inTree {
        DropEntry(tid);
        running := if running == 0 then 0 else running - 1;
      }
    }

    /** Remove a thread's node from the tree. */
    method DropEntry(tid: nat)
      requires Linked() && tid in threads && threads[tid].inTree
      modifies this, tree, tree.nodes
      ensures running == old(running) && min == old(min) && curr == old(curr) && stint == old(stint)
      ensures threads == old(threads)[tid := old(threads)[tid].(onRq := false, inTree := false)]
      ensures tid in old(nodeOf)
      ensures tree.Contents() == Remove(old(tree.Contents()), tid) <==> !TwoChildren(old(tree.shape), old(nodeOf)[tid])
      ensures !TwoChildren(old(tree.shape), old(nodeOf)[tid]) ==> Linked()
    {
      hide RedBlackTree.Balanced, LeafSuccessor, Gone, OnlyChild, PoolOk, Links, NoDup, InOrder, Remove, AfterDelete;
      hide InOrderBut, TwoChildren;
      var id := nodeOf[tid];
      ghost var ns, t, before := tree.nodes[..], tree.shape, threads;
      assert id in Ids(t) && id < |ns| && ns[id].tid == tid && (id < MAX_NODES && ns[id].inUse ==> id in Ids(t));
      hide NodesOk, Sorted, Distinct, Ids;
      SubAtIs(tree.View(), t, id);
      ButIsRemove(ns, t, id);
      RemoveKeeps(tree.Contents(), tid);
      var removed := tree.Remove(id);
      var th := threads[tid].(onRq := false, inTree := false);
      threads := threads[tid := th];
      if !TwoChildren(t, id) {
        OneChildIds(t, id);
        NodeDropped(ns, t, before, nodeOf, tree.nodes[..], tree.shape, id, tid, th);
      }
    }

    /** The leftmost thread leaves the queue; its node never has two children. */
    method PickNext() returns (tid: nat)
      requires Linked()
      modifies this, tree, tree.nodes
      ensures Linked() && View() == Next(old(View()), Pick) && tid == Picked(old(View()), idle)
      ensures Took(old(View()), idle, tid, View())
    {
      ghost var s := View();
      hide Took;
      hide Sorted, Distinct, NodesOk, PoolOk, Links, NoDup, InOrder, Remove;
      IsOrdered(tree);
      var first := tree.Minimum();
      if first.None? {
        PickMeans(s, idle);
        return idle;
      }
      var node, e := first.value.0, first.value.1;
      tid := e.tid;
      FirstIsOwned(tree.View(), tree.shape, threads, nodeOf, node);
      PickMeans(s, idle);
      DropEntry(tid);
      running := if running == 0 then 0 else running - 1;
      min := e.key;
      stint := stint[tid := 0];
    }

    /** `update_current_runtime`. */
    method ChargeCurrent(delta: nat)
      requires Linked()
      modifies this
      ensures Linked() && View() == Next(old(View()), Charge(delta)) && Charged(old(View()), delta, View())
    {
      ChargeMeans(View(), delta);
      hide Charged;
      hide Sorted, Distinct, NodesOk, RedBlackTree.Valid, RedBlackTree.Contents;
      hide Saturate, UpdateVruntime, CalcDeltaFair;
      if curr.Some? && curr.value in threads {
        var tid, th := curr.value, threads[curr.value];
        if tid in stint {
          stint := stint[tid := stint[tid] + CalcDeltaFair(delta, th.weight)];
        }
        ghost var before := threads;
        threads := threads[tid := th.(executed := Saturate(th.executed + delta),
                                      vruntime := UpdateVruntime(th.vruntime, delta, th.weight))];
        SameMarks(tree.nodes[..], tree.shape, before, threads, nodeOf);
      }
    }

    method MakeCurrent(tid: nat)
      requires Linked()
      modifies this
      ensures Linked() && View() == Next(old(View()), SetCurrent(tid))
    {
      curr := Some(tid);
    }

    // ---------------------------------------------------------------- two threads

    /** At most two threads but the idle one, which is not in the tree. */
    ghost predicate Few()
      reads this
    {
      |threads.Keys - {idle}| <= 2 && (idle in threads ==> !threads[idle].inTree)
    }

    /** With two threads no enqueue rotates, and no node has two children. */
    lemma FewAreSafe(tid: nat)
      requires Linked() && Few()
      ensures tid != idle && (tid in threads ==> !threads[tid].inTree) ==> !EnqueueRotates(tid)
      ensures !HasTwo(tid)
    {
      hide PoolOk, Links, InOrder, InsertRotates, TwoChildren, Sorted, Distinct;
      var ids := threads.Keys - {idle};
      EntriesFit(tree.nodes[..], tree.shape, threads, nodeOf, ids);
      SmallTrees(tree.nodes[..], tree.shape);
      if tid in ids && !threads[tid].inTree {
        assert |ids - {tid}| == |ids| - 1;
        EntriesFit(tree.nodes[..], tree.shape, threads, nodeOf, ids - {tid});
      }
    }

    /** Any operation, as the ordered queue does it. */
    method Apply(op: Op)
      requires Linked() && Few() && SafeOp(View(), op, idle)
      modifies this, tree, tree.nodes
      ensures Linked() && Few() && View() == Next(old(View()), op)
    {
      hide Linked, NodesOk, EnqueueRotates, HasTwo;
      ghost var s := View();
      FewStay(s, op, idle);
      match op
      case Enqueue(tid) =>
        FewAreSafe(tid);
        Enqueue(tid);
      case Dequeue(tid) =>
        FewAreSafe(tid);
        Dequeue(tid);
      case Pick =>
        var _ := PickNext();
      case SetCurrent(tid) =>
        MakeCurrent(tid);
      case Charge(delta) =>
        ChargeCurrent(delta);
    }

    /** With two threads the object is the ordered queue, whatever the operations. */
    method Run(ops: seq<Op>)
      requires Linked() && Few() && SafeOps(View(), ops, idle)
      modifies this, tree, tree.nodes
      ensures Linked() && Few() && View() == After(old(View()), ops)
    {
      hide Linked, Few, Next;
      ghost var start := View();
      for i := 0 to |ops|
        invariant Linked() && Few() && View() == After(start, ops[..i])
      {
        assert ops[..i + 1][..i] == ops[..i];
        Apply(ops[i]);
      }
      assert ops[..|ops|] == ops;
    }

    /** One stint of the scheduler: the picked thread runs for `delta` and, unless idle, goes back. */
    method Stint(delta: nat) returns (tid: nat)
      requires Linked() && Few()
      modifies this, tree, tree.nodes
      ensures Linked() && Few() && tid == Picked(old(View()), idle)
      ensures old(View()).tree != [] && tid != idle ==> View() == RoundStep(old(View()), delta)
    {
      hide EnqueueStep, ChargeStep, PickStep, Linked, EnqueueRotates, Took, Charged, Enqueued, RedBlackTree.Contents;
      ghost var s := View();
      FewStay(s, Pick, idle);
      FewStay(Next(s, Pick), SetCurrent(Picked(s, idle)), idle);
      FewStay(Next(Next(s, Pick), SetCurrent(Picked(s, idle))), Charge(delta), idle);
      if s.tree != [] {
        PickedIsOut(s, idle, delta);
      }
      tid := PickNext();
      MakeCurrent(tid);
      ChargeCurrent(delta);
      if tid != idle {
        FewAreSafe(tid);
        FewStay(View(), Op.Enqueue(tid), idle);
        Enqueue(tid);
      }
    }

    /** A whole run of stints of two threads: while `waiting` is queued and not picked, their number is bounded. */
    method Stints(deltas: seq<nat>, ghost waiting: nat, ghost d: nat, ghost D: nat)
      returns (picks: seq<nat>, ghost states: seq<State>)
      requires Linked() && Few() && TreeOk(View(), idle) && Fair(View(), idle, D) && 0 < d
      requires Queued(tree.Contents(), waiting) && |tree.Contents()| <= MAX_NODES
      modifies this, tree, tree.nodes
      ensures |picks| == |deltas| && |states| == |deltas| + 1 && states[0] == old(View()) && states[|deltas|] == View()
      ensures forall k: nat :: k < |deltas| ==> picks[k] == Picked(states[k], idle)
      ensures forall k: nat :: k < |deltas| && states[k].tree != [] && picks[k] != idle ==>
                states[k + 1] == RoundStep(states[k], deltas[k])
      ensures IsStintRun(states, deltas, d, D) && waiting !in picks ==>
                |picks| <= (|old(tree.Contents())| - 1) * (D / d + 1)
    {
      hide RoundStep, TreeOk, Fair, Queued, StintAt, Linked, Few;
      picks := [];
      states := [View()];
      for i := 0 to |deltas|
        invariant Linked() && Few()
        invariant |picks| == i && |states| == i + 1 && states[0] == old(View()) && states[i] == View()
        invariant forall k: nat :: k < i ==> picks[k] == Picked(states[k], idle)
        invariant forall k: nat :: k < i && states[k].tree != [] && picks[k] != idle ==>
                    states[k + 1] == RoundStep(states[k], deltas[k])
      {
        var tid := Stint(deltas[i]);
        picks, states := picks + [tid], states + [View()];
      }
      if IsStintRun(states, deltas, d, D) && waiting !in picks {
        PicksAreFirst(states, deltas, picks, idle, d, D, waiting);
        WaitBound(states, deltas, idle, d, D, waiting);
      }
    }
  }

  /** The state after a run of operations. */
  function After(s: State, ops: seq<Op>): State {
    if ops == [] then s else Next(After(s, ops[..|ops| - 1]), ops[|ops| - 1])
  }

  /** No thread is enqueued twice, nor the idle one. */
  predicate SafeOp(s: State, op: Op, idle: nat) {
    op.Enqueue? ==> op.tid != idle && (op.tid in s.threads ==> !s.threads[op.tid].inTree)
  }

  ghost predicate SafeOps(s: State, ops: seq<Op>, idle: nat) {
    forall i: nat :: i < |ops| ==> SafeOp(After(s, ops[..i]), ops[i], idle)
  }

  /** Operations know no other threads, and never put the idle one into the tree. */
  lemma FewStay(s: State, op: Op, idle: nat)
    requires SafeOp(s, op, idle)
    ensures Next(s, op).threads.Keys == s.threads.Keys
    ensures idle in s.threads && !s.threads[idle].inTree ==> !Next(s, op).threads[idle].inTree
  {
  }

  /** A thread that was picked is out of the tree while it is charged. */
  lemma PickedIsOut(s: State, idle: nat, delta: nat)
    requires s.tree != []
    ensures var tid := Picked(s, idle); var s' := ChargeStep(PickStep(s).(curr := Some(tid)), delta);
            tid in s'.threads ==> !s'.threads[tid].inTree
  {
  }

  /** A node without a left child that holds a thread's entry is the one the thread knows, with one child at most. */
  lemma FirstIsOwned(a: Arena, t: Shape, threads: map<nat, Thread>, nodeOf: map<nat, nat>, node: nat)
    requires Tree(a, t) && NodesOk(a.ns, t, threads, nodeOf)
    requires node in Ids(t) && node < |a.ns| && a.ns[node].left == NONE
    ensures var tid := a.ns[node].tid;
            tid in threads && threads[tid].inTree && tid in nodeOf && nodeOf[tid] == node && !TwoChildren(t, node)
  {
    assert Owned(a.ns, threads, nodeOf, node);
    IdsInArena(a.ns, t, a.root, NONE);
    SubAtLinks(a.ns, t, a.root, NONE, node);
  }

  /** Changes that leave the marks alone. */
  lemma SameMarks(ns: seq<RbNode>, t: Shape, threads: map<nat, Thread>, threads': map<nat, Thread>,
                  nodeOf: map<nat, nat>)
    requires NodesOk(ns, t, threads, nodeOf) && threads'.Keys == threads.Keys
    requires forall tid :: tid in threads ==> threads'[tid].inTree == threads[tid].inTree
    ensures NodesOk(ns, t, threads', nodeOf)
  {
    forall i: nat | i in Ids(t) ensures Owned(ns, threads', nodeOf, i) {
      assert Owned(ns, threads, nodeOf, i);
    }
  }

  lemma IsOrdered(tree: RedBlackTree)
    requires tree.Valid()
    ensures tree.Ordered()
  {
    ChildLinksOf(tree.nodes[..], tree.nodes[..], tree.shape, tree.root, NONE);
  }

  /** A thread without a node changes. */
  lemma NodesKept(ns: seq<RbNode>, t: Shape, threads: map<nat, Thread>, nodeOf: map<nat, nat>, tid: nat, th: Thread)
    requires NodesOk(ns, t, threads, nodeOf) && (tid in threads ==> !threads[tid].inTree) && !th.inTree
    ensures NodesOk(ns, t, threads[tid := th], nodeOf)
  {
    forall i: nat | i in Ids(t) ensures Owned(ns, threads[tid := th], nodeOf, i) {
      assert Owned(ns, threads, nodeOf, i);
    }
  }
}
