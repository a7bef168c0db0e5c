/** The run queue of one CPU: the fairness window over every run and the bound on waiting. */
module RunQueues {
  import opened Layout
  import opened Arith
  import opened Cfs

  const MAX_NODES: nat := 1024

  datatype Entry = Entry(key: nat, tid: nat)

  /** What the queue reads and writes of a thread; `inTree` says its tree node is valid. */
  datatype Thread = Thread(vruntime: nat, boost: nat, weight: nat, executed: nat, onRq: bool, inTree: bool)

  // ---------------------------------------------------------------- the tree as an ordered sequence

  ghost predicate Sorted(q: seq<Entry>) {
    forall i: nat, j: nat :: i <= j < |q| ==> q[i].key <= q[j].key
  }

  ghost predicate Distinct(q: seq<Entry>) {
    forall i: nat, j: nat :: i < j < |q| ==> q[i].tid != q[j].tid
  }

  ghost predicate Queued(q: seq<Entry>, tid: nat) {
    exists e :: e in q && e.tid == tid
  }

  /** The descent: equal keys go to the right. */
  function Insert(q: seq<Entry>, e: Entry): seq<Entry> {
    if q == [] || e.key < q[0].key then [e] + q else [q[0]] + Insert(q[1..], e)
  }

  function Remove(q: seq<Entry>, tid: nat): seq<Entry> {
    if q == [] then [] else if q[0].tid == tid then q[1..] else [q[0]] + Remove(q[1..], tid)
  }

  /** Putting an entry in front. */
  lemma ConsKeeps(e: Entry, q: seq<Entry>)
    requires Sorted(q) && Distinct(q) && forall x :: x in q ==> e.key <= x.key && x.tid != e.tid
    ensures Sorted([e] + q) && Distinct([e] + q)
    ensures forall x :: x in [e] + q <==> x == e || x in q
  {
    assert forall i :: 0 <= i < |q| ==> q[i] in q;
  }

  /** Taking the first entry off. */
  lemma TailKeeps(q: seq<Entry>)
    requires Sorted(q) && Distinct(q) && q != []
    ensures Sorted(q[1..]) && Distinct(q[1..]) && q == [q[0]] + q[1..]
    ensures forall x :: x in q <==> x == q[0] || x in q[1..]
    ensures forall x :: x in q[1..] ==> q[0].key <= x.key && x.tid != q[0].tid
  {
    assert q == [q[0]] + q[1..];
  }

  lemma {:induction false} InsertKeeps(q: seq<Entry>, e: Entry)
    requires Sorted(q) && Distinct(q) && !Queued(q, e.tid)
    ensures Sorted(Insert(q, e)) && Distinct(Insert(q, e)) && |Insert(q, e)| == |q| + 1
    ensures forall x :: x in Insert(q, e) <==> x in q || x == e
    decreases |q|
  {
    if q == [] || e.key < q[0].key {
      assert forall x :: x in q ==> e.key <= x.key && x.tid != e.tid;
      ConsKeeps(e, q);
    } else {
      TailKeeps(q);
      hide Sorted, Distinct;
      assert !Queued(q[1..], e.tid);
      InsertKeeps(q[1..], e);
      assert q[0] in q;
      ConsKeeps(q[0], Insert(q[1..], e));
    }
  }

  lemma {:induction false} RemoveKeeps(q: seq<Entry>, tid: nat)
    requires Sorted(q) && Distinct(q)
    ensures Sorted(Remove(q, tid)) && Distinct(Remove(q, tid))
    ensures forall x :: x in Remove(q, tid) <==> x in q && x.tid != tid
    ensures |Remove(q, tid)| == if Queued(q, tid) then |q| - 1 else |q|
  {
    if q != [] {
      TailKeeps(q);
      hide Sorted, Distinct;
      if q[0].tid == tid {
        assert Queued(q, tid);
      } else {
        RemoveKeeps(q[1..], tid);
        assert Queued(q, tid) <==> Queued(q[1..], tid);
        ConsKeeps(q[0], Remove(q[1..], tid));
      }
    }
  }

  // ---------------------------------------------------------------- the operations on values

  /** `stint` holds what each picked thread was charged since it was picked. */
  datatype State = State(tree: seq<Entry>, running: nat, min: nat, curr: Option<nat>, threads: map<nat, Thread>,
                         stint: map<nat, nat>)

  datatype Op = Enqueue(tid: nat) | Dequeue(tid: nat) | Pick | SetCurrent(tid: nat) | Charge(delta: nat)

  /** A thread that finds the node pool full is counted but not in the tree. */
  function EnqueueStep(s: State, tid: nat): State {
    if tid !in s.threads then s else
      var th := s.threads[tid];
      var vruntime := PlaceEntity(s.min, EffectiveVruntime(th.vruntime, th.boost));
      var room := |s.tree| < MAX_NODES;
      var tree := if room then Insert(s.tree, Entry(EffectiveVruntime(vruntime, th.boost), tid)) else s.tree;
      State(tree, s.running + 1, if tree == [] then s.min else tree[0].key, s.curr,
            s.threads[tid := th.(vruntime := vruntime, onRq := true, inTree := room)], s.stint - {tid})
  }

  function DequeueStep(s: State, tid: nat): State {
    if tid !in s.threads || !s.threads[tid].onRq || !s.threads[tid].inTree then s else
      s.(tree := Remove(s.tree, tid), running := if s.running == 0 then 0 else s.running - 1,
         threads := s.threads[tid := s.threads[tid].(onRq := false, inTree := false)])
  }

  function Picked(s: State, idle: nat): nat {
    if s.tree == [] then idle else s.tree[0].tid
  }

  function PickStep(s: State): State {
    if s.tree == [] then s else
      var tid := s.tree[0].tid;
      var known := tid in s.threads;
      State(if known && s.threads[tid].inTree then Remove(s.tree, tid) else s.tree,
            if s.running == 0 then 0 else s.running - 1, s.tree[0].key, s.curr,
            if known then s.threads[tid := s.threads[tid].(onRq := false, inTree := false)] else s.threads,
            s.stint[tid := 0])
  }

  function ChargeStep(s: State, delta: nat): State {
    if s.curr.None? || s.curr.value !in s.threads then s else
      var tid, th := s.curr.value, s.threads[s.curr.value];
      s.(threads := s.threads[tid := th.(executed := Saturate(th.executed + delta),
                                         vruntime := UpdateVruntime(th.vruntime, delta, th.weight))],
         stint := if tid in s.stint then s.stint[tid := s.stint[tid] + CalcDeltaFair(delta, th.weight)] else s.stint)
  }

  function Next(s: State, op: Op): State {
    match op
    case Enqueue(tid) => EnqueueStep(s, tid)
    case Dequeue(tid) => DequeueStep(s, tid)
    case Pick => PickStep(s)
    case SetCurrent(tid) => s.(curr := Some(tid))
    case Charge(delta) => ChargeStep(s, delta)
  }

  // ---------------------------------------------------------------- what the operations mean

  ghost predicate IsLeastKey(q: seq<Entry>, key: nat) {
    (exists e :: e in q && e.key == key) && forall e :: e in q ==> key <= e.key
  }

  /** The entry is new, behind all that are not later and ahead of all that are. */
  ghost predicate InsertedAt(q: seq<Entry>, e: Entry, q': seq<Entry>, k: nat) {
    && k <= |q| && q' == q[..k] + [e] + q[k..]
    && (forall x :: x in q[..k] ==> x.key <= e.key) && forall x :: x in q[k..] ==> e.key < x.key
  }

  /** A known thread enters at the larger of min_vruntime and its own virtual time, each less its boost; min_vruntime
    * is the least queued key then. */
  ghost predicate Enqueued(s: State, tid: nat, s': State) {
    if tid !in s.threads then s' == s
    else
      && tid in s'.threads
      && var th, th' := s.threads[tid], s'.threads[tid];
      && s'.threads == s.threads[tid := th']
      && th' == th.(vruntime := th'.vruntime, onRq := true, inTree := |s.tree| < MAX_NODES)
      && th'.vruntime == Max(s.min, EffectiveVruntime(th.vruntime, th.boost))
      && (if |s.tree| < MAX_NODES
          then exists k :: InsertedAt(s.tree, Entry(EffectiveVruntime(th'.vruntime, th.boost), tid), s'.tree, k)
          else s'.tree == s.tree)
      && IsLeastKey(s'.tree, s'.min) && s'.running == s.running + 1 && s'.curr == s.curr
  }

  /** The entry is gone, and no other. */
  ghost predicate RemovedAt(q: seq<Entry>, tid: nat, q': seq<Entry>, k: nat) {
    k < |q| && q[k].tid == tid && q' == q[..k] + q[k + 1..]
  }

  /** A thread in the tree leaves it; any other stays as it is. */
  ghost predicate Dequeued(s: State, tid: nat, s': State) {
    if tid !in s.threads || !s.threads[tid].onRq || !s.threads[tid].inTree then s' == s
    else
      && (exists k :: RemovedAt(s.tree, tid, s'.tree, k))
      && s'.threads == s.threads[tid := s.threads[tid].(onRq := false, inTree := false)]
      && s'.running == Max(s.running, 1) - 1 && s'.min == s.min && s'.curr == s.curr
  }

  /** The earliest of the threads with the least key leaves the tree, and min_vruntime is that key; idle if there is
    * none. */
  ghost predicate Took(s: State, idle: nat, tid: nat, s': State) {
    if s.tree == [] then tid == idle && s' == s
    else
      && RemovedAt(s.tree, tid, s'.tree, 0) && IsLeastKey(s.tree, s'.min) && s.tree[0].key == s'.min
      && (tid in s.threads ==> s'.threads == s.threads[tid := s.threads[tid].(onRq := false, inTree := false)])
      && s'.running == Max(s.running, 1) - 1 && s'.curr == s.curr
  }

  /** The current thread has run for `delta`: its virtual time grows by that times 1024 over its weight, rounded down,
    * as long as nothing passes 64 bits. */
  ghost predicate Charged(s: State, delta: nat, s': State) {
    if s.curr.None? || s.curr.value !in s.threads then s' == s
    else
      var tid, th := s.curr.value, s.threads[s.curr.value];
      && tid in s'.threads
      && var th' := s'.threads[tid];
      && s'.threads == s.threads[tid := th.(executed := th'.executed, vruntime := th'.vruntime)]
      && s'.tree == s.tree && s'.running == s.running && s'.min == s.min && s'.curr == s.curr
      && (th.executed + delta <= U64_MAX ==> th'.executed == th.executed + delta)
      && (0 < th.weight && delta * 1024 <= U64_MAX && th.vruntime + delta * 1024 <= U64_MAX ==>
            && th.vruntime <= th'.vruntime && (th'.vruntime - th.vruntime) * th.weight <= delta * 1024
            && delta * 1024 < (th'.vruntime - th.vruntime) * th.weight + th.weight)
  }

  lemma {:induction false} InsertPlace(q: seq<Entry>, e: Entry) returns (k: nat)
    requires Sorted(q)
    ensures InsertedAt(q, e, Insert(q, e), k)
  {
    if q == [] || e.key < q[0].key {
      k := 0;
      assert q[..0] == [] && q[0..] == q;
      assert [e] + q == [] + [e] + q;
    } else {
      var j := InsertPlace(q[1..], e);
      k := j + 1;
      assert q[..k] == [q[0]] + q[1..][..j] && q[k..] == q[1..][j..];
    }
  }

  lemma {:induction false} RemovePlace(q: seq<Entry>, tid: nat) returns (k: nat)
    requires Queued(q, tid)
    ensures RemovedAt(q, tid, Remove(q, tid), k)
  {
    hide Queued, RemovedAt;
    QueuedBehind(q, tid);
    if q[0].tid == tid {
      k := 0;
      RemovedHere(q, tid);
    } else {
      var j := RemovePlace(q[1..], tid);
      k := j + 1;
      RemovedDeeper(q, tid, Remove(q[1..], tid), j);
    }
  }

  lemma QueuedBehind(q: seq<Entry>, tid: nat)
    requires Queued(q, tid)
    ensures q != [] && (q[0].tid != tid ==> Queued(q[1..], tid))
  {
    var e :| e in q && e.tid == tid;
    assert q[0].tid != tid ==> e in q[1..];
  }

  lemma RemovedHere(q: seq<Entry>, tid: nat)
    requires q != [] && q[0].tid == tid
    ensures RemovedAt(q, tid, q[1..], 0)
  {
    assert q[..0] + q[1..] == q[1..];
  }

  lemma RemovedDeeper(q: seq<Entry>, tid: nat, rest: seq<Entry>, j: nat)
    requires q != [] && RemovedAt(q[1..], tid, rest, j)
    ensures RemovedAt(q, tid, [q[0]] + rest, j + 1)
  {
    assert q[..j + 1] == [q[0]] + q[1..][..j] && q[j + 2..] == q[1..][j + 1..];
  }

  lemma EnqueueMeans(s: State, tid: nat)
    requires Sorted(s.tree)
    ensures Enqueued(s, tid, EnqueueStep(s, tid))
  {
    if tid in s.threads {
      var th, s' := s.threads[tid], EnqueueStep(s, tid);
      var e := Entry(EffectiveVruntime(s'.threads[tid].vruntime, th.boost), tid);
      var k := InsertPlace(s.tree, e);
      if |s.tree| < MAX_NODES {
        assert InsertedAt(s.tree, e, s'.tree, k);
      }
      hide EffectiveVruntime, Insert;
      PlaceSorted(s.tree, e, s'.tree, k);
    }
  }

  lemma PlaceSorted(q: seq<Entry>, e: Entry, q': seq<Entry>, k: nat)
    requires Sorted(q) && (q' == q || InsertedAt(q, e, q', k)) && q' != []
    ensures Sorted(q') && IsLeastKey(q', q'[0].key)
  {
    if q' != q {
      forall i: nat, j: nat | i <= j < |q'| ensures q'[i].key <= q'[j].key {
        assert q'[i] == if i < k then q[..k][i] else if i == k then e else q[k..][i - k - 1];
        assert q'[j] == if j < k then q[..k][j] else if j == k then e else q[k..][j - k - 1];
      }
    }
    FirstIsLeast(q');
  }

  lemma DequeueMeans(s: State, tid: nat)
    requires tid in s.threads && s.threads[tid].inTree ==> Queued(s.tree, tid)
    ensures Dequeued(s, tid, DequeueStep(s, tid))
  {
    if tid in s.threads && s.threads[tid].onRq && s.threads[tid].inTree {
      var k := RemovePlace(s.tree, tid);
    }
  }

  lemma PickMeans(s: State, idle: nat)
    requires Sorted(s.tree)
    requires s.tree != [] ==> s.tree[0].tid in s.threads && s.threads[s.tree[0].tid].inTree
    ensures Took(s, idle, Picked(s, idle), PickStep(s))
  {
    if s.tree != [] {
      FirstIsLeast(s.tree);
      RemoveFirst(s.tree);
      assert s.tree[..0] + s.tree[1..] == s.tree[1..];
    }
  }

  lemma ChargeMeans(s: State, delta: nat)
    ensures Charged(s, delta, ChargeStep(s, delta))
  {
    if s.curr.Some? && s.curr.value in s.threads {
      var th := s.threads[s.curr.value];
      if 0 < th.weight && delta * 1024 <= U64_MAX {
        ChargeIsProportional(delta, th.weight);
        ChargeAtMost(delta, th.weight);
      }
      hide CalcDeltaFair;
    }
  }

  lemma ChargeAtMost(delta: nat, weight: nat)
    requires 0 < weight && delta * 1024 <= U64_MAX
    ensures CalcDeltaFair(delta, weight) <= delta * 1024
  {
    ChargeIsProportional(delta, weight);
    MulAtLeast(CalcDeltaFair(delta, weight), weight);
  }

  // ---------------------------------------------------------------- the fairness window

  /** Entries are the threads in the tree, under their virtual time. */
  ghost predicate TreeOk(s: State, idle: nat) {
    && Sorted(s.tree) && Distinct(s.tree)
    && (forall e :: e in s.tree ==>
        e.tid in s.threads && e.tid != idle && s.threads[e.tid].inTree && s.threads[e.tid].onRq
        && s.threads[e.tid].vruntime == e.key)
    && (forall t :: t in s.threads && s.threads[t].inTree ==> Entry(s.threads[t].vruntime, t) in s.tree)
    && s.running == |OnQueue(s.threads)|
  }

  /** The threads marked as being on the queue; those that found the pool full are among them. */
  ghost function OnQueue(threads: map<nat, Thread>): set<nat> {
    set t | t in threads && threads[t].onRq
  }

  lemma OnQueueUpdate(threads: map<nat, Thread>, tid: nat, th: Thread)
    requires tid in threads
    ensures var was, now := OnQueue(threads), OnQueue(threads[tid := th]);
            && (th.onRq && !threads[tid].onRq ==> |now| == |was| + 1)
            && (!th.onRq && threads[tid].onRq ==> |now| == |was| - 1)
            && (th.onRq == threads[tid].onRq ==> now == was)
  {
    var was, now := OnQueue(threads), OnQueue(threads[tid := th]);
    if th.onRq {
      assert now == was + {tid};
    } else {
      assert now == was - {tid};
    }
  }

  /** Queued keys lie in the window of width D above `min`, and no thread but the idle one is beyond it. */
  ghost predicate Fair(s: State, idle: nat, D: nat) {
    && (forall e :: e in s.tree ==> s.min <= e.key <= s.min + D)
    && (forall t :: t in s.threads && t != idle ==> s.threads[t].vruntime <= s.min + D && s.threads[t].boost == 0)
    && (forall t :: t in s.stint ==>
        t in s.threads && t != idle && !s.threads[t].inTree && s.stint[t] <= D
        && s.threads[t].vruntime <= s.min + s.stint[t])
  }

  /** What callers owe: no thread is enqueued twice or is the idle thread, and a stint charges at most D. */
  ghost predicate Allowed(s: State, op: Op, idle: nat, D: nat) {
    match op
    case Enqueue(tid) => tid in s.threads ==> tid != idle && !s.threads[tid].onRq
    case Charge(delta) => s.curr.Some? && s.curr.value in s.threads && s.curr.value != idle ==>
      s.curr.value in s.stint && s.stint[s.curr.value] + CalcDeltaFair(delta, s.threads[s.curr.value].weight) <= D
    case _ => true
  }

  lemma FirstIsLeast(q: seq<Entry>)
    requires Sorted(q) && q != []
    ensures q[0] in q && forall e :: e in q ==> q[0].key <= e.key
  {
  }

  lemma EnqueueFair(s: State, idle: nat, D: nat, tid: nat)
    requires TreeOk(s, idle) && Fair(s, idle, D) && Allowed(s, Enqueue(tid), idle, D)
    ensures var s' := EnqueueStep(s, tid); TreeOk(s', idle) && Fair(s', idle, D) && s.min <= s'.min
  {
    hide Insert, Sorted, Distinct, PlaceEntity;
    if tid in s.threads {
      var th := s.threads[tid];
      var key := PlaceEntity(s.min, th.vruntime);
      assert s.min <= key && th.vruntime <= key && key <= s.min + D by { Placed(s.min, th.vruntime); }
      assert EffectiveVruntime(th.vruntime, th.boost) == th.vruntime && EffectiveVruntime(key, th.boost) == key;
      hide EffectiveVruntime;
      assert !Queued(s.tree, tid);
      InsertKeeps(s.tree, Entry(key, tid));
      var s' := EnqueueStep(s, tid);
      OnQueueUpdate(s.threads, tid, s'.threads[tid]);
      hide OnQueue;
      assert forall e :: e in s'.tree ==> e in s.tree || (e == Entry(key, tid) && |s.tree| < MAX_NODES);
      if s'.tree != [] {
        FirstIsLeast(s'.tree);
      }
    }
  }

  lemma Placed(min: nat, vruntime: nat)
    ensures var key := PlaceEntity(min, vruntime); min <= key && vruntime <= key && (key == min || key == vruntime)
  {
  }

  lemma RemoveFair(s: State, idle: nat, D: nat, tid: nat)
    requires TreeOk(s, idle) && Fair(s, idle, D) && tid in s.threads && s.threads[tid].inTree
    ensures var s' := DequeueStep(s, tid);
            TreeOk(s', idle) && Fair(s', idle, D) && (forall e :: e in s'.tree ==> e in s.tree) && s'.min == s.min
  {
    hide Remove, Sorted, Distinct;
    RemoveKeeps(s.tree, tid);
    assert Entry(s.threads[tid].vruntime, tid) in s.tree;
    assert Queued(s.tree, tid) && tid in OnQueue(s.threads);
    OnQueueUpdate(s.threads, tid, s.threads[tid].(onRq := false, inTree := false));
    hide OnQueue;
  }

  lemma PickFair(s: State, idle: nat, D: nat)
    requires TreeOk(s, idle) && Fair(s, idle, D)
    ensures var s' := PickStep(s); TreeOk(s', idle) && Fair(s', idle, D) && s.min <= s'.min
  {
    if s.tree != [] {
      FirstIsLeast(s.tree);
      RemoveFair(s, idle, D, s.tree[0].tid);
      hide Remove, Sorted, Distinct, OnQueue;
      assert PickStep(s).tree == DequeueStep(s, s.tree[0].tid).tree
             && PickStep(s).threads == DequeueStep(s, s.tree[0].tid).threads;
    }
  }

  lemma ChargeFair(s: State, idle: nat, D: nat, delta: nat)
    requires TreeOk(s, idle) && Fair(s, idle, D) && Allowed(s, Charge(delta), idle, D)
    ensures var s' := ChargeStep(s, delta); TreeOk(s', idle) && Fair(s', idle, D) && s'.min == s.min
  {
    hide Sorted, Distinct;
    if s.curr.Some? && s.curr.value in s.threads {
      OnQueueUpdate(s.threads, s.curr.value, ChargeStep(s, delta).threads[s.curr.value]);
    }
    hide OnQueue;
  }

  lemma StepKeepsWindow(s: State, op: Op, idle: nat, D: nat)
    requires TreeOk(s, idle) && Fair(s, idle, D) && Allowed(s, op, idle, D)
    ensures var s' := Next(s, op); TreeOk(s', idle) && Fair(s', idle, D) && s.min <= s'.min
  {
    hide Sorted, Distinct;
    match op {
      case Enqueue(tid) => EnqueueFair(s, idle, D, tid);
      case Dequeue(tid) =>
        if tid in s.threads && s.threads[tid].onRq && s.threads[tid].inTree {
          RemoveFair(s, idle, D, tid);
        }
      case Pick => PickFair(s, idle, D);
      case SetCurrent(tid) =>
      case Charge(delta) => ChargeFair(s, idle, D, delta);
    }
  }

  ghost predicate IsRun(states: seq<State>, ops: seq<Op>, idle: nat, D: nat) {
    |states| == |ops| + 1 && forall k: nat :: k < |ops| ==>
      Allowed(states[k], ops[k], idle, D) && states[k + 1] == Next(states[k], ops[k])
  }

  /** The window holds in every state of every run, and min_vruntime never decreases. */
  lemma {:induction false} RunKeepsWindow(states: seq<State>, ops: seq<Op>, idle: nat, D: nat, i: nat, j: nat)
    requires IsRun(states, ops, idle, D) && TreeOk(states[0], idle) && Fair(states[0], idle, D)
    requires i <= j < |states|
    ensures TreeOk(states[j], idle) && Fair(states[j], idle, D) && states[i].min <= states[j].min
    decreases j
  {
    hide TreeOk, Fair, Allowed, Next;
    if j > 0 {
      RunKeepsWindow(states, ops, idle, D, Min(i, j - 1), j - 1);
      assert states[j - 1 + 1] == Next(states[j - 1], ops[j - 1]);
      StepKeepsWindow(states[j - 1], ops[j - 1], idle, D);
    }
  }

  /** The key a pick takes, or the least key queued after an enqueue. */
  ghost predicate Saw(s: State, op: Op, s': State, key: nat) {
    || (op == Pick && IsLeastKey(s.tree, key))
    || (op.Enqueue? && op.tid in s.threads && IsLeastKey(s'.tree, key))
  }

  /** A thread that comes back enters behind what the queue has seen: at no key below one picked before, nor below the
    * least that was queued after an earlier enqueue. */
  lemma SleeperEntersBehind(states: seq<State>, ops: seq<Op>, idle: nat, D: nat, i: nat, n: nat, seen: nat)
    requires IsRun(states, ops, idle, D) && TreeOk(states[0], idle) && Fair(states[0], idle, D) && i < n < |ops|
    requires ops[n].Enqueue? && ops[n].tid in states[n].threads && |states[n].tree| < MAX_NODES
    requires Saw(states[i], ops[i], states[i + 1], seen)
    ensures ops[n].tid in states[n + 1].threads
    ensures var key := states[n + 1].threads[ops[n].tid].vruntime;
            Entry(key, ops[n].tid) in states[n + 1].tree && key >= seen
  {
    hide Allowed, Sorted, Distinct, EnqueueStep, PickStep;
    assert states[i + 1] == Next(states[i], ops[i]) && states[n + 1] == Next(states[n], ops[n]);
    RunKeepsWindow(states, ops, idle, D, i, i);
    RunKeepsWindow(states, ops, idle, D, i + 1, n);
    RunKeepsWindow(states, ops, idle, D, i + 1, n + 1);
    EnqueueMeans(states[n], ops[n].tid);
    if ops[i].Enqueue? {
      EnqueueMeans(states[i], ops[i].tid);
    }
    if ops[i] == Pick && states[i].tree != [] {
      FirstIsLeast(states[i].tree);
      PickMeans(states[i], idle);
    }
  }

  /** A new queue over threads that never ran. */
  lemma NewQueueIsFair(threads: map<nat, Thread>, idle: nat, D: nat)
    requires forall t :: t in threads ==> threads[t].vruntime == 0 && threads[t].boost == 0 && !threads[t].inTree
                                          && !threads[t].onRq
    ensures var s := State([], 0, 0, None, threads, map[]); TreeOk(s, idle) && Fair(s, idle, D)
  {
    assert OnQueue(threads) == {};
  }

  // ---------------------------------------------------------------- the bound on waiting

  /** Pick the first, charge it, put it back. */
  function Round(q: seq<Entry>, charge: nat): seq<Entry>
    requires q != []
  {
    Insert(q[1..], Entry(q[0].key + charge, q[0].tid))
  }

  /** How often a thread at `key` can still be picked before one at K, when each pick costs at least d. */
  function Credit(K: nat, key: nat, d: nat): nat
    requires d > 0
  {
    if key > K then 0 else (K - key) / d + 1
  }

  function Potential(q: seq<Entry>, tid: nat, K: nat, d: nat): nat
    requires d > 0
  {
    if q == [] then 0 else (if q[0].tid == tid then 0 else Credit(K, q[0].key, d)) + Potential(q[1..], tid, K, d)
  }

  lemma {:induction false} PotentialOfInsert(q: seq<Entry>, e: Entry, tid: nat, K: nat, d: nat)
    requires d > 0
    ensures Potential(Insert(q, e), tid, K, d)
            == Potential(q, tid, K, d) + if e.tid == tid then 0 else Credit(K, e.key, d)
  {
    if q == [] || e.key < q[0].key {
      assert ([e] + q)[1..] == q;
    } else {
      PotentialOfInsert(q[1..], e, tid, K, d);
      assert ([q[0]] + Insert(q[1..], e))[1..] == Insert(q[1..], e);
    }
  }

  lemma CreditShrinks(K: nat, key: nat, charge: nat, d: nat)
    requires 0 < d <= charge && key <= K
    ensures Credit(K, key + charge, d) < Credit(K, key, d)
  {
    if key + charge <= K {
      QuotientStep(K - key, charge, d);
    }
  }

  lemma QuotientStep(x: nat, c: nat, d: nat)
    requires 0 < d <= c <= x
    ensures (x - c) / d < x / d
  {
    var q, r := (x - c) / d, (x - c) % d;
    assert x == d * (q + 1) + (r + c - d) by { Distribute(d, q + 1, 1); }
    QuotientAtLeast(x, d, q + 1, r + c - d);
  }

  lemma QuotientAtLeast(x: nat, d: nat, q: nat, r: nat)
    requires d > 0 && x == d * q + r
    ensures x / d >= q
  {
    QuotientsCompare(x, d, d, q, r, x / d, x % d);
  }

  lemma QuotientMonotone(a: nat, b: nat, d: nat)
    requires d > 0 && a <= b
    ensures a / d <= b / d
  {
    QuotientAtLeast(b, d, a / d, a % d + (b - a));
  }

  /** Every round that does not pick `tid` uses up credit. */
  lemma RoundUsesCredit(q: seq<Entry>, charge: nat, tid: nat, K: nat, d: nat)
    requires Sorted(q) && Distinct(q) && q != [] && q[0].tid != tid && Entry(K, tid) in q && 0 < d <= charge
    ensures var q' := Round(q, charge);
            && Potential(q', tid, K, d) < Potential(q, tid, K, d) && Entry(K, tid) in q'
            && Sorted(q') && Distinct(q') && |q'| == |q|
  {
    TailKeeps(q);
    FirstIsLeast(q);
    var e := Entry(q[0].key + charge, q[0].tid);
    assert !Queued(q[1..], e.tid);
    InsertKeeps(q[1..], e);
    PotentialOfInsert(q[1..], e, tid, K, d);
    CreditShrinks(K, q[0].key, charge, d);
  }

  function Scale(n: int, c: nat): int { n * c }

  lemma ScaleNext(n: int, c: nat)
    ensures Scale(n, c) == Scale(n - 1, c) + c
  {
  }

  lemma {:induction false} PotentialBound(q: seq<Entry>, tid: nat, K: nat, d: nat, c: nat)
    requires d > 0 && forall e :: e in q ==> Credit(K, e.key, d) <= c
    ensures Potential(q, tid, K, d) <= Scale(|q|, c)
    ensures Queued(q, tid) ==> Potential(q, tid, K, d) <= Scale(|q| - 1, c)
  {
    assert Scale(0, c) == 0;
    hide Credit, Scale;
    if q != [] {
      var rest := q[1..];
      assert forall e :: e in rest ==> e in q;
      PotentialBound(rest, tid, K, d, c);
      assert q[0] in q;
      assert Queued(q, tid) ==> q[0].tid == tid || Queued(rest, tid);
      ScaleNext(|q|, c);
      ScaleNext(|rest|, c);
    }
  }

  lemma CreditBound(K: nat, key: nat, d: nat, D: nat)
    requires d > 0 && K <= key + D
    ensures Credit(K, key, d) <= D / d + 1
  {
    if key <= K {
      QuotientMonotone(K - key, D, d);
    }
  }

  /** One stint as the scheduler runs it: pick, make current, charge, put back. */
  function RoundStep(s: State, delta: nat): State
    requires s.tree != []
  {
    var tid := s.tree[0].tid;
    EnqueueStep(ChargeStep(PickStep(s).(curr := Some(tid)), delta), tid)
  }

  function RoundCharge(s: State, delta: nat): nat
    requires s.tree != []
  {
    if s.tree[0].tid in s.threads then CalcDeltaFair(delta, s.threads[s.tree[0].tid].weight) else 0
  }

  /** The state in which the picked thread runs. */
  lemma PickFirst(s: State, idle: nat, D: nat)
    requires TreeOk(s, idle) && Fair(s, idle, D) && s.tree != []
    ensures var tid := s.tree[0].tid;
            var s1 := PickStep(s).(curr := Some(tid));
            && TreeOk(s1, idle) && Fair(s1, idle, D) && tid != idle && tid in s.threads && tid in s1.threads
            && tid in s1.stint
            && s1.tree == s.tree[1..] && s1.threads[tid].vruntime == s.tree[0].key == s1.min && s1.stint[tid] == 0
            && s1.threads[tid].weight == s.threads[tid].weight && s1.threads[tid].boost == 0 && !s1.threads[tid].inTree
            && !s1.threads[tid].onRq
  {
    hide Insert, Remove, Sorted, Distinct, CalcDeltaFair;
    FirstIsLeast(s.tree);
    RemoveFirst(s.tree);
    PickFair(s, idle, D);
  }

  /** A stint of the scheduler is a round of the queue. */
  lemma RoundStepIsRound(s: State, idle: nat, D: nat, delta: nat)
    requires TreeOk(s, idle) && Fair(s, idle, D) && s.tree != [] && |s.tree| <= MAX_NODES
    requires RoundCharge(s, delta) <= D && s.tree[0].key + RoundCharge(s, delta) <= U64_MAX
    ensures var s' := RoundStep(s, delta);
            s'.tree == Round(s.tree, RoundCharge(s, delta)) && TreeOk(s', idle) && Fair(s', idle, D)
  {
    hide PickStep, Fair, TreeOk, Insert, CalcDeltaFair;
    var tid := s.tree[0].tid;
    PickFirst(s, idle, D);
    var s1 := PickStep(s).(curr := Some(tid));
    ChargeFair(s1, idle, D, delta);
    var s2 := ChargeStep(s1, delta);
    assert s2.threads[tid].vruntime == s.tree[0].key + RoundCharge(s, delta) && s2.tree == s1.tree && s2.min == s1.min;
    assert !s2.threads[tid].onRq && s2.threads[tid].boost == 0;
    hide ChargeStep, RoundCharge;
    EnqueueFair(s2, idle, D, tid);
  }

  lemma RemoveFirst(q: seq<Entry>)
    requires q != []
    ensures Remove(q, q[0].tid) == q[1..]
  {
  }

  /** A run of stints with no other event: every charge is between d and D and nothing saturates. */
  ghost predicate IsStintRun(states: seq<State>, deltas: seq<nat>, d: nat, D: nat) {
    |states| == |deltas| + 1 && forall k: nat :: k < |deltas| ==> StintAt(states[k], deltas[k], states[k + 1], d, D)
  }

  ghost predicate StintAt(s: State, delta: nat, s': State, d: nat, D: nat) {
    && s.tree != [] && d <= RoundCharge(s, delta) <= D && s.tree[0].key + RoundCharge(s, delta) <= U64_MAX
    && s' == RoundStep(s, delta)
  }

  /** While `tid` is not picked, its key stays and every stint uses up credit. */
  lemma {:induction false} StintsUseCredit(states: seq<State>, deltas: seq<nat>, idle: nat, d: nat, D: nat, tid: nat,
                                           K: nat, k: nat)
    requires IsStintRun(states, deltas, d, D) && 0 < d && k < |states|
    requires TreeOk(states[0], idle) && Fair(states[0], idle, D) && Entry(K, tid) in states[0].tree
             && |states[0].tree| <= MAX_NODES
    requires forall m: nat :: m < k ==> states[m].tree != [] && states[m].tree[0].tid != tid
    ensures TreeOk(states[k], idle) && Fair(states[k], idle, D) && Entry(K, tid) in states[k].tree
            && |states[k].tree| <= MAX_NODES
    ensures Potential(states[k].tree, tid, K, d) + k <= Potential(states[0].tree, tid, K, d)
  {
    hide Fair, Potential, RoundStep, RoundCharge, Round;
    if k > 0 {
      StintsUseCredit(states, deltas, idle, d, D, tid, K, k - 1);
      var s := states[k - 1];
      assert StintAt(s, deltas[k - 1], states[k - 1 + 1], d, D);
      RoundStepIsRound(s, idle, D, deltas[k - 1]);
      RoundUsesCredit(s.tree, RoundCharge(s, deltas[k - 1]), tid, K, d);
    }
  }

  /** The bound on waiting: among n runnable threads, one that is queued is picked after at most (n-1)(D/d+1) other
    * picks. */
  lemma WaitBound(states: seq<State>, deltas: seq<nat>, idle: nat, d: nat, D: nat, tid: nat)
    requires IsStintRun(states, deltas, d, D) && 0 < d
    requires TreeOk(states[0], idle) && Fair(states[0], idle, D) && Queued(states[0].tree, tid)
             && |states[0].tree| <= MAX_NODES
    requires forall m: nat :: m < |deltas| ==> states[m].tree != [] && states[m].tree[0].tid != tid
    ensures |deltas| <= (|states[0].tree| - 1) * (D / d + 1)
  {
    hide Potential, Credit, RoundStep, RoundCharge, Round, StintAt, Sorted, Distinct;
    var q := states[0].tree;
    var e :| e in q && e.tid == tid;
    assert e == Entry(e.key, tid);
    StintsUseCredit(states, deltas, idle, d, D, tid, e.key, |deltas|);
    forall x | x in q ensures Credit(e.key, x.key, d) <= D / d + 1 {
      CreditBound(e.key, x.key, d, D);
    }
    PotentialBound(q, tid, e.key, d, D / d + 1);
  }

  lemma PicksAreFirst(states: seq<State>, deltas: seq<nat>, picks: seq<nat>, idle: nat, d: nat, D: nat, tid: nat)
    requires IsStintRun(states, deltas, d, D) && |picks| == |deltas| && tid !in picks
    requires forall k: nat :: k < |deltas| ==> picks[k] == Picked(states[k], idle)
    ensures forall m: nat :: m < |deltas| ==> states[m].tree != [] && states[m].tree[0].tid != tid
  {
    hide RoundStep, RoundCharge;
    forall m: nat | m < |deltas| ensures states[m].tree != [] && states[m].tree[0].tid != tid {
      assert StintAt(states[m], deltas[m], states[m + 1], d, D);
      assert picks[m] in picks;
    }
  }
}
