/** An NVMe queue pair: the host's phase-tag protocol against a device that may complete out of order. */
module Nvme {
  import opened Layout
  import opened Arith

  const DEPTH: nat := 64

  datatype Sqe = Sqe(cid: nat, command: nat)
  datatype Cqe = Cqe(cid: nat, code: nat, result: nat, phase: nat)

  /** A command the device has fetched; `index` counts submissions from the start. */
  datatype Job = Job(index: nat, sqe: Sqe)
  datatype Post = Post(index: nat, cqe: Cqe)

  /** Queue memory, host registers, device registers, and the history of the pair. */
  datatype State = State(
    sq: seq<Sqe>, cq: seq<Cqe>,
    sqTail: nat, cqHead: nat, phase: nat,
    devHead: nat, devTail: nat, devPhase: nat, inflight: seq<Job>,
    submitted: seq<nat>, fetched: nat, posted: seq<Post>, reaped: nat)

  datatype DeviceOp = Fetch | Complete(job: nat, code: nat, result: nat)

  // ---------------------------------------------------------------- steps

  /** Memory is zeroed, both sides start at slot 0 with phase 1. */
  function NewQueue(): State {
    State(seq(DEPTH, _ => Sqe(0, 0)), seq(DEPTH, _ => Cqe(0, 0, 0, 0)), 0, 0, 1, 0, 0, 1, [], [], 0, [], 0)
  }

  ghost predicate WellSized(s: State) {
    |s.sq| == DEPTH && |s.cq| == DEPTH && s.sqTail < DEPTH && s.cqHead < DEPTH && s.devHead < DEPTH && s.devTail < DEPTH
  }

  /** The command goes to the tail slot, its slot number is its id, and the doorbell rings. */
  function SubmitStep(s: State, command: nat): State
    requires WellSized(s)
  {
    s.(sq := s.sq[s.sqTail := Sqe(s.sqTail, command)], sqTail := (s.sqTail + 1) % DEPTH,
       submitted := s.submitted + [command])
  }

  /** The device does one thing, if it can: the submission queue is not empty, the completion queue not full. */
  function DeviceStep(s: State, op: DeviceOp): State
    requires WellSized(s)
  {
    match op
    case Fetch =>
      if s.devHead == s.sqTail then s else
        s.(devHead := (s.devHead + 1) % DEPTH, fetched := s.fetched + 1,
           inflight := s.inflight + [Job(s.fetched, s.sq[s.devHead])])
    case Complete(j, code, result) =>
      if j >= |s.inflight| || (s.devTail + 1) % DEPTH == s.cqHead then s else
        var cqe := Cqe(s.inflight[j].sqe.cid, code, result, s.devPhase);
        var tail := (s.devTail + 1) % DEPTH;
        s.(cq := s.cq[s.devTail := cqe], devTail := tail,
           devPhase := if tail == 0 then FlipPhase(s.devPhase) else s.devPhase,
           inflight := s.inflight[..j] + s.inflight[j + 1..], posted := s.posted + [Post(s.inflight[j].index, cqe)])
  }

  function FlipPhase(phase: nat): nat { if phase == 0 then 1 else 0 }

  predicate Accepts(s: State)
    requires WellSized(s)
  {
    s.cq[s.cqHead].phase == s.phase
  }

  /** Take the entry at the head and move on; the phase expected flips on every wrap. */
  function ReapStep(s: State): State
    requires WellSized(s)
  {
    var head := (s.cqHead + 1) % DEPTH;
    s.(cqHead := head, phase := if head == 0 then FlipPhase(s.phase) else s.phase, reaped := s.reaped + 1)
  }

  /** The host never looks for room, so this is up to its callers. */
  ghost predicate HasRoom(s: State) {
    |s.submitted| + 1 < s.fetched + DEPTH
  }

  // ---------------------------------------------------------------- the invariant

  /** The phase tag of completion number `j`. */
  function Tag(j: nat): nat { 1 - j / DEPTH % 2 }

  lemma TagNext(j: nat)
    ensures Tag(j) <= 1 && Tag(j + 1) == if (j + 1) % DEPTH == 0 then 1 - Tag(j) else Tag(j)
    ensures (j + 1) % DEPTH == (j % DEPTH + 1) % DEPTH
  {
    var q, r := j / DEPTH, j % DEPTH;
    if r + 1 == DEPTH {
      assert j + 1 == (q + 1) * DEPTH && (j + 1) / DEPTH == q + 1;
    } else {
      assert j + 1 == q * DEPTH + (r + 1) && (j + 1) / DEPTH == q;
    }
  }

  lemma TagFlips(j: nat)
    requires j >= DEPTH
    ensures Tag(j) != Tag(j - DEPTH) && (j - DEPTH) % DEPTH == j % DEPTH
  {
    assert (j - DEPTH) / DEPTH == j / DEPTH - 1;
  }

  lemma SlotsDiffer(i: nat, j: nat)
    requires i < j < i + DEPTH
    ensures i % DEPTH != j % DEPTH
  {
  }

  /** The queue registers are the four counters, modulo the depth. */
  ghost predicate Counters(s: State) {
    && WellSized(s)
    && s.reaped <= |s.posted| < s.reaped + DEPTH
    && |s.posted| <= s.fetched <= |s.submitted| < s.fetched + DEPTH
    && |s.inflight| == s.fetched - |s.posted|
    && s.sqTail == |s.submitted| % DEPTH && s.devHead == s.fetched % DEPTH
    && s.cqHead == s.reaped % DEPTH && s.phase == Tag(s.reaped)
    && s.devTail == |s.posted| % DEPTH && s.devPhase == Tag(|s.posted|)
  }

  /** Submissions not yet fetched are in their slots. */
  ghost predicate Pending(s: State) {
    WellSized(s) && forall j: nat :: s.fetched <= j < |s.submitted| ==>
      s.sq[j % DEPTH] == Sqe(j % DEPTH, s.submitted[j])
  }

  ghost predicate IsJob(s: State, job: Job) {
    job.index < s.fetched && job.index < |s.submitted| && job.sqe == Sqe(job.index % DEPTH, s.submitted[job.index])
  }

  /** Fetched commands are those submitted, each in flight or posted, never twice. */
  ghost predicate Jobs(s: State) {
    && (forall k: nat :: k < |s.inflight| ==> IsJob(s, s.inflight[k]))
    && (forall k: nat, m: nat :: k < m < |s.inflight| ==> s.inflight[k].index != s.inflight[m].index)
    && (forall j: nat :: j < |s.posted| ==>
        s.posted[j].index < s.fetched && s.posted[j].cqe.cid == s.posted[j].index % DEPTH
        && s.posted[j].cqe.phase == Tag(j))
    && (forall i: nat, j: nat :: i < j < |s.posted| ==> s.posted[i].index != s.posted[j].index)
    && forall j: nat, k: nat :: j < |s.posted| && k < |s.inflight| ==> s.posted[j].index != s.inflight[k].index
  }

  /** The last DEPTH completions are in their slots; slots never used hold zero. */
  ghost predicate Slots(s: State) {
    && WellSized(s)
    && (forall j: nat :: j < |s.posted| && |s.posted| <= j + DEPTH ==> s.cq[j % DEPTH] == s.posted[j].cqe)
    && forall i: nat :: |s.posted| <= i < DEPTH ==> s.cq[i].phase == 0
  }

  ghost predicate Ok(s: State) {
    Counters(s) && Pending(s) && Jobs(s) && Slots(s)
  }

  lemma NewQueueOk()
    ensures Ok(NewQueue())
  {
  }

  /** The heart of the protocol: the host accepts exactly when a completion is waiting, and takes the oldest. */
  lemma AcceptsExactlyWhen(s: State)
    requires Ok(s)
    ensures Accepts(s) <==> s.reaped < |s.posted|
    ensures Accepts(s) ==> s.cq[s.cqHead] == s.posted[s.reaped].cqe
  {
    hide Pending;
    var r := s.reaped;
    if r < |s.posted| {
      assert s.cq[r % DEPTH] == s.posted[r].cqe;
    } else if r < DEPTH {
      assert r % DEPTH == r && Tag(r) == 1;
    } else {
      TagFlips(r);
      assert s.cq[(r - DEPTH) % DEPTH] == s.posted[r - DEPTH].cqe;
    }
  }

  /** When every completion has been taken, host and device agree on slot and phase. */
  lemma Lockstep(s: State)
    requires Ok(s) && s.reaped == |s.posted|
    ensures s.cqHead == s.devTail && s.phase == s.devPhase
  {
  }

  lemma SubmitKeeps(s: State, command: nat)
    requires Ok(s) && HasRoom(s)
    ensures Ok(SubmitStep(s, command))
  {
    var s', n := SubmitStep(s, command), |s.submitted|;
    TagNext(n);
    forall j: nat | s'.fetched <= j < |s'.submitted| ensures s'.sq[j % DEPTH] == Sqe(j % DEPTH, s'.submitted[j]) {
      if j < n {
        SlotsDiffer(j, n);
      }
    }
    hide Tag;
  }

  lemma FetchKeeps(s: State)
    requires Ok(s)
    ensures Ok(DeviceStep(s, Fetch))
    ensures DeviceStep(s, Fetch) == s <==> s.fetched == |s.submitted|
  {
    var f := s.fetched;
    if f < |s.submitted| {
      SlotsDiffer(f, |s.submitted|);
      TagNext(f);
      assert s.sq[f % DEPTH] == Sqe(f % DEPTH, s.submitted[f]);
    }
    hide Tag;
  }

  lemma NotFull(n: nat, r: nat)
    requires r <= n < r + DEPTH && (n % DEPTH + 1) % DEPTH != r % DEPTH
    ensures n + 1 < r + DEPTH
  {
  }

  lemma CompleteCounters(s: State, j: nat, code: nat, result: nat)
    requires Ok(s) && j < |s.inflight| && (s.devTail + 1) % DEPTH != s.cqHead
    ensures var s' := DeviceStep(s, Complete(j, code, result)); Counters(s') && Pending(s')
  {
    TagNext(|s.posted|);
    NotFull(|s.posted|, s.reaped);
    hide Tag, Jobs, IsJob, Slots;
  }

  /** The device's completion, posted at its tail. */
  lemma CompleteSlots(s: State, j: nat, code: nat, result: nat)
    requires Ok(s) && j < |s.inflight| && (s.devTail + 1) % DEPTH != s.cqHead
    ensures Slots(DeviceStep(s, Complete(j, code, result)))
  {
    hide Tag, Jobs, IsJob, Pending;
    var s', n := DeviceStep(s, Complete(j, code, result)), |s.posted|;
    forall k: nat | k < |s'.posted| && |s'.posted| <= k + DEPTH ensures s'.cq[k % DEPTH] == s'.posted[k].cqe {
      if k < n {
        SlotsDiffer(k, n);
      }
    }
    forall i: nat | |s'.posted| <= i < DEPTH ensures s'.cq[i].phase == 0 {
      assert n % DEPTH == n;
    }
  }

  lemma CompleteJobs(s: State, j: nat, code: nat, result: nat)
    requires Ok(s) && j < |s.inflight|
    ensures Jobs(DeviceStep(s, Complete(j, code, result)))
  {
    hide Slots, Pending, Tag;
    var rest := s.inflight[..j] + s.inflight[j + 1..];
    assert forall k: nat :: k < |rest| ==> rest[k] == s.inflight[if k < j then k else k + 1];
    assert IsJob(s, s.inflight[j]);
  }

  /** The device does not touch what the host owns, and only adds completions. */
  ghost predicate SameHost(s: State, s': State) {
    && s'.submitted == s.submitted && s'.reaped == s.reaped && s'.phase == s.phase && s'.cqHead == s.cqHead
    && s'.sq == s.sq && s'.sqTail == s.sqTail && s.posted <= s'.posted
  }

  /** In any state at all a device step is in bounds and leaves the host's side alone. */
  lemma DeviceShapes(s: State, op: DeviceOp)
    requires WellSized(s)
    ensures WellSized(DeviceStep(s, op)) && SameHost(s, DeviceStep(s, op)) && (Ok(s) ==> Ok(DeviceStep(s, op)))
  {
    if Ok(s) {
      DeviceKeeps(s, op);
    }
    hide Ok;
  }

  lemma DeviceKeeps(s: State, op: DeviceOp)
    requires Ok(s)
    ensures Ok(DeviceStep(s, op)) && SameHost(s, DeviceStep(s, op))
  {
    match op {
      case Fetch => FetchKeeps(s);
      case Complete(j, code, result) =>
        if j < |s.inflight| && (s.devTail + 1) % DEPTH != s.cqHead {
          CompleteCounters(s, j, code, result);
          CompleteSlots(s, j, code, result);
          CompleteJobs(s, j, code, result);
        }
    }
  }

  lemma ReapKeeps(s: State)
    requires Ok(s) && Accepts(s)
    ensures Ok(ReapStep(s))
  {
    AcceptsExactlyWhen(s);
    TagNext(s.reaped);
    hide Tag;
  }

  lemma ReapShapes(s: State)
    requires WellSized(s) && Accepts(s)
    ensures WellSized(ReapStep(s))
    ensures Ok(s) ==> Ok(ReapStep(s)) && s.reaped < |s.posted| && s.cq[s.cqHead] == s.posted[s.reaped].cqe
  {
    if Ok(s) {
      AcceptsExactlyWhen(s);
      ReapKeeps(s);
    }
    hide Ok;
  }

  // ---------------------------------------------------------------- runs

  /** The device at work for a while. */
  function DeviceRun(s: State, ops: seq<DeviceOp>): (r: State)
    requires WellSized(s)
    ensures WellSized(r) && SameHost(s, r) && (Ok(s) ==> Ok(r))
    decreases |ops|
  {
    if ops == [] then s else
      DeviceShapes(s, ops[0]);
      DeviceRun(DeviceStep(s, ops[0]), ops[1..])
  }

  /** Waiting: before each poll the device does as it likes; None is a timeout. */
  function Wait(s: State, activity: seq<seq<DeviceOp>>): (r: (State, Option<Cqe>))
    requires WellSized(s)
    ensures WellSized(r.0) && r.0.submitted == s.submitted && s.posted <= r.0.posted && (Ok(s) ==> Ok(r.0))
    ensures r.1.None? ==> r.0.reaped == s.reaped
    ensures r.1.Some? ==> r.0.reaped == s.reaped + 1
    ensures r.1.Some? && Ok(s) ==> r.0.reaped <= |r.0.posted| && r.1.value == r.0.posted[s.reaped].cqe
    decreases |activity|
  {
    if activity == [] then (s, None) else
      var s1 := DeviceRun(s, activity[0]);
      if Accepts(s1) then
        ReapShapes(s1);
        (ReapStep(s1), Some(s1.cq[s1.cqHead]))
      else Wait(s1, activity[1..])
  }

  /** Nothing outstanding: every command submitted has been completed and its completion taken. */
  ghost predicate Quiet(s: State) {
    |s.submitted| == s.reaped
  }

  /** Once `n` of the first `n` commands are complete, the next completion is for a later command. */
  lemma NextIsNewest(s: State, n: nat)
    requires Ok(s) && n < |s.posted| && |s.submitted| == n + 1
    requires forall j: nat :: j < n ==> s.posted[j].index < n
    ensures s.posted[n].index == n
  {
    hide Slots, Pending, Tag, IsJob;
    var p := seq(n + 1, (j: nat) requires j < |s.posted| => s.posted[j].index);
    if p[n] < n {
      DistinctCount(p, n);
    }
  }

  lemma QuietPair(s: State)
    requires Ok(s) && Quiet(s)
    ensures WellSized(s) && |s.posted| == s.reaped == s.fetched && s.sqTail == s.reaped % DEPTH
    ensures forall j: nat :: j < s.reaped ==> s.posted[j].index < s.reaped
    ensures s.cqHead == s.devTail && s.phase == s.devPhase
  {
    hide Tag;
  }

  lemma IdOfPost(s: State, j: nat)
    requires Ok(s) && j < |s.posted|
    ensures s.posted[j].cqe.cid == s.posted[j].index % DEPTH
  {
  }

  /** From a quiet queue, a submit and a wait that does not time out: the answer is the command's own, and the queue
    * is quiet again with host and device in lockstep. */
  lemma PairAnswersItself(s: State, command: nat, activity: seq<seq<DeviceOp>>)
    requires Ok(s) && Quiet(s)
    ensures var s1 := SubmitStep(s, command);
            && Ok(s1)
            && var (s', r) := Wait(s1, activity);
            && (r.Some? ==> Quiet(s') && s'.posted[s.reaped].index == |s.submitted| && r.value.cid == s.sqTail
                            && s'.cqHead == s'.devTail && s'.phase == s'.devPhase)
  {
    hide Slots, Pending, Tag, IsJob, Wait, Jobs, Counters;
    QuietPair(s);
    SubmitKeeps(s, command);
    var s1 := SubmitStep(s, command);
    WaitKeeps(s1, activity);
    var (s', r) := Wait(s1, activity);
    if r.Some? {
      NextIsNewest(s', s.reaped);
      IdOfPost(s', s.reaped);
      QuietPair(s');
    }
  }

  lemma WaitKeeps(s: State, activity: seq<seq<DeviceOp>>)
    requires Ok(s)
    ensures var (s', r) := Wait(s, activity);
            && Ok(s') && s'.submitted == s.submitted && s.posted <= s'.posted && (r.None? ==> s'.reaped == s.reaped)
            && (r.Some? ==> s'.reaped == s.reaped + 1 <= |s'.posted| && r.value == s'.posted[s.reaped].cqe)
  {
  }

  /** All the device does before the last poll. */
  function Everything(activity: seq<seq<DeviceOp>>): seq<DeviceOp> {
    if activity == [] then [] else activity[0] + Everything(activity[1..])
  }

  lemma {:induction false} RunOn(s: State, a: seq<DeviceOp>, b: seq<DeviceOp>)
    requires WellSized(s)
    ensures DeviceRun(s, a + b) == DeviceRun(DeviceRun(s, a), b)
    decreases |a|
  {
    hide Ok, DeviceStep, SameHost;
    if a == [] {
      assert a + b == b;
    } else {
      DeviceShapes(s, a[0]);
      RunOn(DeviceStep(s, a[0]), a[1..], b);
      assert (a + b)[0] == a[0] && (a + b)[1..] == a[1..] + b;
    }
  }

  /** A wait times out exactly when the device has posted nothing new by the last poll; otherwise it takes the oldest
    * completion. */
  lemma {:induction false} TimesOutExactlyWhen(s: State, activity: seq<seq<DeviceOp>>)
    requires Ok(s) && activity != []
    ensures Wait(s, activity).1.None? <==> |DeviceRun(s, Everything(activity)).posted| == s.reaped
    ensures Wait(s, activity).1.Some? ==>
              var posted := DeviceRun(s, Everything(activity)).posted;
              s.reaped < |posted| && Wait(s, activity).1.value == posted[s.reaped].cqe
    decreases |activity|
  {
    var s1, rest := DeviceRun(s, activity[0]), activity[1..];
    AcceptsExactlyWhen(s1);
    RunOn(s, activity[0], Everything(rest));
    assert s1.posted <= DeviceRun(s1, Everything(rest)).posted;
    hide Pending, Jobs, Slots, Tag, Accepts, DeviceRun;
    if Accepts(s1) {
    } else if rest == [] {
      assert Wait(s1, rest).1.None?;
      RunNothing(s1);
    } else {
      TimesOutExactlyWhen(s1, rest);
    }
  }

  lemma RunNothing(s: State)
    requires WellSized(s)
    ensures DeviceRun(s, []) == s
  {
  }

  /** The wait, if it does not time out, returns the completion of the last command submitted. */
  ghost predicate AnswersNewest(s: State, activity: seq<seq<DeviceOp>>)
    requires Ok(s)
  {
    Wait(s, activity).1.Some? ==> Wait(s, activity).0.posted[s.reaped].index == |s.submitted| - 1
  }

  /** One poll after the device did `ops`. */
  lemma WaitOnce(s: State, ops: seq<DeviceOp>)
    requires Ok(s) && s.reaped < |DeviceRun(s, ops).posted|
    ensures Wait(s, [ops]).1.Some? && Wait(s, [ops]).0.posted == DeviceRun(s, ops).posted
  {
    AcceptsExactlyWhen(DeviceRun(s, ops));
  }

  /** Completing the first command in flight. */
  lemma FirstCompletes(s: State)
    requires Ok(s) && |s.posted| == s.reaped && s.inflight != []
    ensures var s' := DeviceStep(s, Complete(0, 0, 0));
            |s'.posted| == s.reaped + 1 && s'.posted[s.reaped].index == s.inflight[0].index
  {
    hide Slots, Pending, IsJob, Jobs, Tag;
    RoomToPost(s);
  }

  /** With an older command outstanding, some device answers that one first. */
  lemma OlderMayAnswer(s: State, command: nat) returns (ops: seq<DeviceOp>)
    requires Ok(s) && !Quiet(s) && HasRoom(s)
    ensures Ok(SubmitStep(s, command)) && !AnswersNewest(SubmitStep(s, command), [ops])
  {
    SubmitKeeps(s, command);
    assert s.inflight != [] ==> IsJob(s, s.inflight[0]);
    assert forall j: nat :: j < |s.posted| ==> s.posted[j].index < s.fetched;
    hide Slots, Pending, Jobs, Tag;
    var s1 := SubmitStep(s, command);
    var complete := Complete(0, 0, 0);
    if |s.posted| > s.reaped {
      ops := [];
      assert DeviceRun(s1, ops) == s1;
    } else if s.inflight != [] {
      ops := [complete];
      FirstCompletes(s1);
      RunOne(s1, complete);
    } else {
      ops := [Fetch, complete];
      FetchKeeps(s1);
      var s2 := DeviceStep(s1, Fetch);
      assert s2.inflight == [Job(s.fetched, s1.sq[s1.devHead])];
      FirstCompletes(s2);
      RunTwo(s1, Fetch, complete);
    }
    hide Counters, Wait, DeviceRun, DeviceStep;
    WaitOnce(s1, ops);
  }

  /** With nothing posted and not taken, the completion queue has room. */
  lemma RoomToPost(s: State)
    requires Ok(s) && |s.posted| == s.reaped
    ensures (s.devTail + 1) % DEPTH != s.cqHead
  {
    hide Slots, Pending, IsJob, Jobs, Tag;
  }

  lemma RunOne(s: State, op: DeviceOp)
    requires Ok(s)
    ensures DeviceRun(s, [op]) == DeviceStep(s, op)
  {
    DeviceKeeps(s, op);
    var s1 := DeviceStep(s, op);
    assert DeviceRun(s1, []) == s1;
    assert [op][1..] == [];
  }

  lemma RunTwo(s: State, op: DeviceOp, op': DeviceOp)
    requires Ok(s)
    ensures Ok(DeviceStep(s, op)) && DeviceRun(s, [op, op']) == DeviceStep(DeviceStep(s, op), op')
  {
    DeviceKeeps(s, op);
    RunOne(DeviceStep(s, op), op');
    assert [op, op'][1..] == [op'];
  }

  /** A wait answers the command just submitted, whatever the device does, exactly when nothing was outstanding:
    * the host never looks at the id of the completion it takes. */
  lemma AnswersNewestExactlyWhen(s: State, command: nat)
    requires Ok(s) && HasRoom(s)
    ensures Ok(SubmitStep(s, command))
    ensures (forall activity :: AnswersNewest(SubmitStep(s, command), activity)) <==> Quiet(s)
  {
    SubmitKeeps(s, command);
    var s1 := SubmitStep(s, command);
    if Quiet(s) {
      forall activity ensures AnswersNewest(s1, activity) {
        hide Ok, Wait, DeviceRun;
        PairAnswersItself(s, command, activity);
      }
    } else {
      var ops := OlderMayAnswer(s, command);
    }
  }

  /** One submit and the wait for it. */
  ghost predicate PairAt(s: State, command: nat, activity: seq<seq<DeviceOp>>, s': State) {
    Ok(s) && Ok(SubmitStep(s, command)) && Wait(SubmitStep(s, command), activity).0 == s'
    && Wait(SubmitStep(s, command), activity).1.Some?
  }

  ghost predicate PairRun(states: seq<State>, commands: seq<nat>, activities: seq<seq<seq<DeviceOp>>>) {
    |states| == |commands| + 1 == |activities| + 1 && forall k: nat :: k < |commands| ==>
      PairAt(states[k], commands[k], activities[k], states[k + 1])
  }

  /** Any number of pairs without a timeout, over any number of wraps: host and device stay in lockstep, and wait
    * number k takes the completion of command number k. */
  lemma {:induction false} PairsStayInLockstep(states: seq<State>, commands: seq<nat>,
                                               activities: seq<seq<seq<DeviceOp>>>, k: nat)
    requires PairRun(states, commands, activities) && k <= |commands| && states[0] == NewQueue()
    ensures Ok(states[k]) && Quiet(states[k]) && |states[k].posted| == k == states[k].reaped
            && states[k].submitted == commands[..k]
    ensures states[k].cqHead == states[k].devTail && states[k].phase == states[k].devPhase
    ensures k > 0 ==> states[k].posted[k - 1].index == k - 1
  {
    hide Wait, Slots, Pending, Jobs, Tag;
    NewQueueOk();
    if k > 0 {
      PairsStayInLockstep(states, commands, activities, k - 1);
      assert PairAt(states[k - 1], commands[k - 1], activities[k - 1], states[k - 1 + 1]);
      PairAnswersItself(states[k - 1], commands[k - 1], activities[k - 1]);
      WaitKeeps(SubmitStep(states[k - 1], commands[k - 1]), activities[k - 1]);
      assert commands[..k] == commands[..k - 1] + [commands[k - 1]];
    }
  }

  lemma TailMeetsHead(submitted: nat, fetched: nat)
    requires submitted + 1 == fetched + DEPTH
    ensures (submitted % DEPTH + 1) % DEPTH == fetched % DEPTH
  {
  }

  /** Submitting keeps the protocol exactly when there is room. With none, the tail catches up with the device's head
    * and a full ring looks empty: the device fetches nothing more. */
  lemma SubmitKeepsExactlyWhen(s: State, command: nat)
    requires Ok(s)
    ensures Ok(SubmitStep(s, command)) <==> HasRoom(s)
    ensures !HasRoom(s) ==> DeviceStep(SubmitStep(s, command), Fetch) == SubmitStep(s, command)
  {
    hide Pending, Jobs, Slots, Tag;
    if HasRoom(s) {
      SubmitKeeps(s, command);
    } else {
      TailMeetsHead(|s.submitted|, s.fetched);
      assert !Counters(SubmitStep(s, command));
    }
  }

  /** A queue with `n` commands submitted to a device that has not woken up. */
  function Unfetched(n: nat): (s: State)
    requires n < DEPTH
    ensures Ok(s) && |s.submitted| == n && s.fetched == 0
  {
    if n == 0 then
      NewQueueOk();
      NewQueue()
    else
      SubmitKeeps(Unfetched(n - 1), n);
      SubmitStep(Unfetched(n - 1), n)
  }

  /** Sixty-three commands unfetched, and one more submitted: the device sees an empty ring. */
  lemma FullRingExample() returns (s: State)
    ensures s == Unfetched(DEPTH - 1) && Ok(s) && |s.submitted| == 63
    ensures !Ok(SubmitStep(s, 64)) && DeviceStep(SubmitStep(s, 64), Fetch) == SubmitStep(s, 64)
  {
    s := Unfetched(DEPTH - 1);
    SubmitKeepsExactlyWhen(s, 64);
    hide Ok, DeviceStep, SubmitStep;
  }

  /** One poll, before which the device does nothing. */
  const IDLE: seq<seq<DeviceOp>> := [[]]

  lemma IdleTimesOut(s: State)
    requires Ok(s) && s.reaped == |s.posted|
    ensures Wait(s, IDLE) == (s, None)
  {
    AcceptsExactlyWhen(s);
    hide Ok, Accepts, ReapStep, DeviceStep;
    assert DeviceRun(s, []) == s && Wait(s, []) == (s, None) && IDLE[0] == [] && IDLE[1..] == [];
  }

  /** A wait times out, and the next wait takes the completion of the first command for the second. */
  lemma TimeoutExample()
    ensures Ok(SubmitStep(NewQueue(), 7))
    ensures var late := Wait(SubmitStep(NewQueue(), 7), IDLE);
            && late.1 == None && !Quiet(late.0) && late.0.sqTail == 1 && Ok(SubmitStep(late.0, 8))
            && Wait(SubmitStep(late.0, 8), [[Fetch, Complete(0, 0, 0)]]).1 == Some(Cqe(0, 0, 0, 1))
  {
    hide Pending, Jobs, Slots, Tag, Wait, DeviceRun;
    NewQueueOk();
    SubmitKeeps(NewQueue(), 7);
    var s1 := SubmitStep(NewQueue(), 7);
    IdleTimesOut(s1);
    SubmitKeeps(s1, 8);
    FirstAnswers(SubmitStep(s1, 8));
  }

  lemma FirstAnswers(s: State)
    requires Ok(s) && s.posted == [] && s.inflight == [] && s.reaped == 0 && s.sqTail == 2 && s.sq[0] == Sqe(0, 7)
    ensures Wait(s, [[Fetch, Complete(0, 0, 0)]]).1 == Some(Cqe(0, 0, 0, 1))
  {
    var complete := Complete(0, 0, 0);
    assert s.fetched == 0 && s.devPhase == Tag(0) == 1;
    hide Pending, Jobs, Slots, Tag, Wait, DeviceRun;
    RunTwo(s, Fetch, complete);
    var s1 := DeviceStep(s, Fetch);
    assert s1.inflight == [Job(0, Sqe(0, 7))];
    FirstCompletes(s1);
    OnlyPoll(s, [Fetch, complete]);
  }

  lemma OnlyPoll(s: State, ops: seq<DeviceOp>)
    requires Ok(s) && s.reaped < |DeviceRun(s, ops).posted|
    ensures Wait(s, [ops]).1 == Some(DeviceRun(s, ops).posted[s.reaped].cqe)
  {
    AcceptsExactlyWhen(DeviceRun(s, ops));
    hide Ok, DeviceRun;
  }

  // ---------------------------------------------------------------- the queue pair

  const POLLS: nat := 50_000_000

  datatype IoResult = Completed(entry: Cqe) | IoError

  /** What the caller is told: a timeout and a non-zero status code are both errors. */
  function Report(r: Option<Cqe>): (o: IoResult)
    ensures o.Completed? <==> r.Some? && r.value.code % 256 == 0
    ensures o.Completed? ==> r == Some(o.entry)
  {
    if r.None? || r.value.code % 256 != 0 then IoError else Completed(r.value)
  }

  /** The caller is told of success exactly when the device posted a completion in time and its status is zero, and
    * gets the oldest one. */
  ghost predicate Answered(s: State, activity: seq<seq<DeviceOp>>, r: IoResult)
    requires WellSized(s)
  {
    var posted := DeviceRun(s, Everything(activity)).posted;
    && (r.Completed? <==> |posted| > s.reaped && posted[s.reaped].cqe.code % 256 == 0)
    && (r.Completed? ==> s.reaped < |posted| && r.entry == posted[s.reaped].cqe)
  }

  lemma TransferAnswered(s: State, activity: seq<seq<DeviceOp>>)
    requires Ok(s) && activity != []
    ensures Answered(s, activity, Report(Wait(s, activity).1))
  {
    TimesOutExactlyWhen(s, activity);
    assert s.posted <= DeviceRun(s, Everything(activity)).posted;
    assert s.reaped <= |s.posted|;
    hide Ok, Wait, DeviceRun;
  }

  class Queue {
    var sq: seq<Sqe>
    var cq: seq<Cqe>
    var sqTail: nat
    var cqHead: nat
    var phase: nat
    /** The pair with the device's side and the history. */
    var pair: State

    /** The object is the host's side of `pair`. */
    ghost predicate Mirrors()
      reads this
    {
      && WellSized(pair) && sq == pair.sq && cq == pair.cq
      && sqTail == pair.sqTail && cqHead == pair.cqHead && phase == pair.phase
    }

    ghost predicate Valid()
      reads this
    {
      Mirrors() && Ok(pair)
    }

    constructor ()
      ensures Valid() && pair == NewQueue()
    {
      NewQueueOk();
      sq, cq := NewQueue().sq, NewQueue().cq;
      sqTail, cqHead, phase := 0, 0, 1;
      pair := NewQueue();
    }

    /** The host does not look for room. */
    method Submit(command: nat) returns (cid: nat)
      requires Mirrors()
      modifies this
      ensures Mirrors() && pair == SubmitStep(old(pair), command) && cid == old(sqTail)
      ensures old(Valid()) ==> (Valid() <==> old(HasRoom(pair)))
    {
      if Ok(pair) {
        SubmitKeepsExactlyWhen(pair, command);
      }
      hide Ok, Pending, Slots, Jobs, Tag;
      cid := sqTail;
      sq := sq[sqTail := Sqe(cid, command)];
      sqTail := (sqTail + 1) % DEPTH;
      pair := SubmitStep(pair, command);
    }

    /** The device works on queue memory behind the host's back. */
    method DeviceWorks(ops: seq<DeviceOp>)
      requires Mirrors()
      modifies this
      ensures Mirrors() && pair == DeviceRun(old(pair), ops)
    {
      hide Ok, DeviceStep;
      pair := DeviceRun(pair, ops);
      cq := pair.cq;
    }

    /** Look at the head entry once. */
    method Poll() returns (r: Option<Cqe>)
      requires Mirrors()
      modifies this
      ensures Mirrors() && (r.Some? <==> Accepts(old(pair)))
      ensures pair == (if r.Some? then ReapStep(old(pair)) else old(pair))
              && (r.Some? ==> r.value == old(pair).cq[old(pair).cqHead])
    {
      var entry := cq[cqHead];
      if entry.phase == phase {
        cqHead := (cqHead + 1) % DEPTH;
        if cqHead == 0 {
          phase := FlipPhase(phase);
        }
        pair := ReapStep(pair);
        return Some(entry);
      }
      r := None;
    }

    /** `wait_completion`: before each poll the device does what `activity` says. */
    method WaitCompletion(activity: seq<seq<DeviceOp>>) returns (r: IoResult)
      requires Mirrors() && |activity| == POLLS
      modifies this
      ensures Mirrors() && (old(Valid()) ==> Valid())
      ensures pair == Wait(old(pair), activity).0 && r == Report(Wait(old(pair), activity).1)
    {
      hide Ok, DeviceRun, ReapStep, DeviceStep;
      ghost var start := pair;
      assert activity[0..] == activity;
      for n := 0 to POLLS
        invariant Mirrors() && Wait(start, activity) == Wait(pair, activity[n..])
      {
        ghost var before := pair;
        assert activity[n..][0] == activity[n] && activity[n..][1..] == activity[n + 1..];
        DeviceWorks(activity[n]);
        assert Wait(before, activity[n..]).0
               == if Accepts(pair) then ReapStep(pair) else Wait(pair, activity[n + 1..]).0;
        var entry := Poll();
        if entry.Some? {
          if entry.value.code % 256 != 0 {
            return IoError;
          }
          return Completed(entry.value);
        }
      }
      r := IoError;
    }

    /** A transfer. From a quiet queue, unless it times out, the answer is the command's own and the queue is quiet
      * again. */
    method Transfer(command: nat, activity: seq<seq<DeviceOp>>) returns (r: IoResult)
      requires Mirrors() && |activity| == POLLS
      modifies this
      ensures Mirrors() && (old(Valid() && HasRoom(pair)) ==> Valid())
      ensures WellSized(SubmitStep(old(pair), command))
      ensures pair == Wait(SubmitStep(old(pair), command), activity).0
              && r == Report(Wait(SubmitStep(old(pair), command), activity).1)
      ensures old(Valid() && HasRoom(pair)) ==>
                Answered(SubmitStep(old(pair), command), activity, r)
      ensures old(Valid() && Quiet(pair)) && r.Completed? ==>
                Quiet(pair) && r.entry.cid == old(sqTail) && cqHead == pair.devTail && phase == pair.devPhase
    {
      ghost var before := pair;
      if Ok(pair) && Quiet(pair) {
        PairAnswersItself(pair, command, activity);
      }
      if Ok(pair) && HasRoom(pair) {
        SubmitKeeps(pair, command);
        TransferAnswered(SubmitStep(pair, command), activity);
      }
      hide Ok, Wait, SubmitStep, Answered, Report;
      var cid := Submit(command);
      r := WaitCompletion(activity);
    }
  }
}
