/** Whole runs of the buddy allocator: regions are added, blocks handed out and given back. */
module BuddyRuns {
  import opened Layout
  import opened Arith
  import opened BuddySpec

  /** `entries` counts arena entries used so far, `out` the blocks callers hold, `added` the frames given to it. */
  datatype State = State(lists: Lists, bits: seq<bool>, limit: nat, entries: nat, pool: nat, out: seq<Block>,
                         added: set<nat>)

  datatype Op =
    | AddRegion(start: nat, count: nat, node: nat)
    | Alloc(order: nat, node: nat)
    | Free(which: nat, node: nat)

  /** Blocks are well placed; enough for every operation to be defined. */
  ghost predicate Good(s: State) {
    && s.limit <= |s.bits| && GoodLists(s.lists, s.limit)
    && forall i :: 0 <= i < |s.out| ==>
      GoodBlock(s.out[i].frame, s.out[i].order, s.limit) && s.out[i].order <= MAX_ORDER
  }

  /** Free and held blocks partition the added frames. */
  ghost predicate Partition(s: State) {
    forall f: nat :: CoverFree(s.lists, f) + CoverBlocks(s.out, f) == if f in s.added then 1 else 0
  }

  /** What a caller must respect: new regions are new, freed blocks are held, nodes exist. */
  ghost predicate Allowed(s: State, op: Op) {
    match op
    case AddRegion(start, count, _) =>
      start + count <= s.limit && forall f :: start <= f < start + count ==> f !in s.added
    case Alloc(_, node) => node < MAX_NODES
    case Free(which, node) => which < |s.out| && node < MAX_NODES
  }

  predicate InRange(start: nat, end: nat, f: nat) {
    start <= f < end
  }

  function Range(start: nat, end: nat): set<nat> {
    set f: nat | f < end && InRange(start, end, f)
  }

  /** The state after one operation; None is a kernel panic. */
  ghost function Step(s: State, op: Op): Option<State>
    requires Good(s) && Allowed(s, op)
  {
    match op
    case AddRegion(start, count, node) => StepAdd(s, start, count, node)
    case Alloc(order, node) => StepAlloc(s, Min(order, MAX_ORDER), node)
    case Free(which, node) => StepFree(s, which, node)
  }

  ghost function StepAdd(s: State, start: nat, count: nat, node: nat): Option<State>
    requires Good(s) && start + count <= s.limit
  {
    if node >= MAX_NODES then Some(s)
    else
      var r := BuddySpec.AddRegion(s.lists, s.bits, s.limit, start, start + count, node);
      if s.entries + r.pushes > s.pool then None
      else Some(s.(lists := r.lists, bits := r.bits, entries := s.entries + r.pushes,
                   added := s.added + Range(start, start + count)))
  }

  ghost function StepAlloc(s: State, order: nat, node: nat): Option<State>
    requires Good(s) && order <= MAX_ORDER && node < MAX_NODES
  {
    match SourceNode(s.lists, order, node)
    case None => Some(s)
    case Some(from) =>
      var have := Highest(s.lists, from, order, MAX_ORDER).value;
      var frame := s.lists[Slot(from, have)][0];
      assert GoodBlock(frame, have, s.limit);
      if s.entries + (have - order) > s.pool then None
      else Some(s.(lists := Split(Pop(s.lists, from, have), from, frame, have, order),
                   bits := SplitBits(s.bits, frame, have, order)[frame := true],
                   entries := s.entries + (have - order),
                   out := s.out + [Block(frame, order)]))
  }

  ghost function StepFree(s: State, which: nat, node: nat): Option<State>
    requires Good(s) && which < |s.out| && node < MAX_NODES
  {
    var b := s.out[which];
    var (lists, bits, merged) := Merge(s.lists, s.bits[b.frame := false], s.limit, node, b.frame, b.order);
    if merged.order > MAX_ORDER || s.entries >= s.pool then None
    else Some(s.(lists := Push(lists, node, merged.frame, merged.order), bits := bits, entries := s.entries + 1,
                 out := s.out[..which] + s.out[which + 1..]))
  }

  // ---------------------------------------------------------------- one step keeps the partition

  lemma AddKeeps(s: State, start: nat, count: nat, node: nat)
    requires Good(s) && Partition(s) && Allowed(s, AddRegion(start, count, node))
    ensures var s' := StepAdd(s, start, count, node); s'.Some? ==> Good(s'.value) && Partition(s'.value)
  {
    var s' := StepAdd(s, start, count, node);
    if s'.Some? && node < MAX_NODES {
      var r := BuddySpec.AddRegion(s.lists, s.bits, s.limit, start, start + count, node);
      assert s' == Some(s.(lists := r.lists, bits := r.bits, entries := s.entries + r.pushes,
                           added := s.added + Range(start, start + count)));
      hide BuddySpec.AddRegion, CoverFree, GoodLists, StepAdd;
      AddRegionConserves(s.lists, s.bits, s.limit, start, start + count, node, 0);
      forall f: nat
        ensures CoverFree(r.lists, f) + CoverBlocks(s.out, f) == if f in s'.value.added then 1 else 0
      {
        AddRegionConserves(s.lists, s.bits, s.limit, start, start + count, node, f);
        assert f in Range(start, start + count) <==> InRange(start, start + count, f);
      }
    }
  }

  lemma CoverPop(lists: Lists, n: nat, o: nat, f: nat)
    requires n < MAX_NODES && o <= MAX_ORDER && lists[Slot(n, o)] != []
    ensures CoverFree(Pop(lists, n, o), f) + Cover1(lists[Slot(n, o)][0], o, f) == CoverFree(lists, f)
  {
    CoverUpdate(lists, n, o, lists[Slot(n, o)][1..], f);
  }

  lemma PopGood(lists: Lists, limit: nat, n: nat, o: nat)
    requires n < MAX_NODES && o <= MAX_ORDER && lists[Slot(n, o)] != [] && GoodLists(lists, limit)
    ensures GoodLists(Pop(lists, n, o), limit) && GoodBlock(lists[Slot(n, o)][0], o, limit)
  {
  }

  /** A handed-out block is aligned, made of added frames only, and disjoint from every held block. */
  lemma AllocKeeps(s: State, order: nat, node: nat)
    requires Good(s) && Partition(s) && order <= MAX_ORDER && node < MAX_NODES
    ensures var s' := StepAlloc(s, order, node);
            s'.Some? ==>
              && Good(s'.value) && Partition(s'.value)
              && (s'.value.out == s.out ||
                   exists frame ::
                     && s'.value.out == s.out + [Block(frame, order)] && GoodBlock(frame, order, s.limit)
                     && forall f :: Covers(frame, order, f) ==> f in s.added && CoverBlocks(s.out, f) == 0)
  {
    var s' := StepAlloc(s, order, node);
    var from := SourceNode(s.lists, order, node);
    if s'.Some? && from.Some? {
      var n, have := from.value, Highest(s.lists, from.value, order, MAX_ORDER).value;
      var frame := s.lists[Slot(n, have)][0];
      PopGood(s.lists, s.limit, n, have);
      SplitGood(Pop(s.lists, n, have), s.limit, n, frame, have, order);
      forall f: nat
        ensures CoverFree(s'.value.lists, f) + Cover1(frame, order, f) == CoverFree(s.lists, f)
        ensures CoverBlocks(s'.value.out, f) == CoverBlocks(s.out, f) + Cover1(frame, order, f)
      {
        SplitConserves(Pop(s.lists, n, have), n, frame, have, order, f);
        CoverPop(s.lists, n, have, f);
        CoverBlocksAppend(s.out, Block(frame, order), f);
      }
    }
  }

  lemma FreeKeeps(s: State, which: nat, node: nat)
    requires Good(s) && Partition(s) && which < |s.out| && node < MAX_NODES
    ensures var s' := StepFree(s, which, node); s'.Some? ==> Good(s'.value) && Partition(s'.value)
  {
    var s' := StepFree(s, which, node);
    if s'.Some? {
      var b := s.out[which];
      var bits := s.bits[b.frame := false];
      var merged := Merge(s.lists, bits, s.limit, node, b.frame, b.order).2;
      MergeConserves(s.lists, bits, s.limit, node, b.frame, b.order, 0);
      PushGood(Merge(s.lists, bits, s.limit, node, b.frame, b.order).0, s.limit, node, merged.frame, merged.order);
      forall f: nat
        ensures CoverFree(s'.value.lists, f) + CoverBlocks(s'.value.out, f)
                == CoverFree(s.lists, f) + CoverBlocks(s.out, f)
      {
        MergeConserves(s.lists, bits, s.limit, node, b.frame, b.order, f);
        CoverPush(Merge(s.lists, bits, s.limit, node, b.frame, b.order).0, node, merged.frame, merged.order, f);
        CoverBlocksRemove(s.out, which, f);
      }
    }
  }

  lemma StepKeeps(s: State, op: Op)
    requires Good(s) && Partition(s) && Allowed(s, op)
    ensures Step(s, op).Some? ==> Good(Step(s, op).value) && Partition(Step(s, op).value)
  {
    match op
    case AddRegion(start, count, node) => AddKeeps(s, start, count, node);
    case Alloc(order, node) => AllocKeeps(s, Min(order, MAX_ORDER), node);
    case Free(which, node) => FreeKeeps(s, which, node);
  }

  // ---------------------------------------------------------------- whole runs

  /** Every operation of the run is allowed when it is reached and the run ends in `last` without a panic. */
  ghost predicate IsRun(s: State, ops: seq<Op>, last: State)
    requires Good(s)
    decreases |ops|
  {
    if ops == [] then s == last
    else
      && Allowed(s, ops[0]) && Step(s, ops[0]).Some? && Good(Step(s, ops[0]).value)
      && IsRun(Step(s, ops[0]).value, ops[1..], last)
  }

  function Initial(bits: seq<bool>, limit: nat, pool: nat): State {
    State(seq(SLOTS, _ => []), bits, limit, 0, pool, [], {})
  }

  lemma InitialPartition(bits: seq<bool>, limit: nat, pool: nat)
    requires limit <= |bits|
    ensures Good(Initial(bits, limit, pool)) && Partition(Initial(bits, limit, pool))
  {
    var s := Initial(bits, limit, pool);
    forall f: nat
      ensures CoverFree(s.lists, f) == 0
    {
      EmptySlots(s.lists, SLOTS, f);
    }
  }

  lemma {:induction false} EmptySlots(lists: Lists, k: nat, f: nat)
    requires k <= SLOTS && forall i :: 0 <= i < SLOTS ==> lists[i] == []
    ensures CoverSlots(lists, k, f) == 0
  {
    if k > 0 {
      EmptySlots(lists, k - 1, f);
    }
  }

  /** After every run, each added frame is in exactly one block, free or held, and no other frame is in any. */
  lemma {:induction false} RunKeepsPartition(s: State, ops: seq<Op>, last: State)
    requires Good(s) && Partition(s) && IsRun(s, ops, last)
    ensures Good(last) && Partition(last)
    decreases |ops|
  {
    if ops != [] {
      StepKeeps(s, ops[0]);
      RunKeepsPartition(Step(s, ops[0]).value, ops[1..], last);
    }
  }

  // ---------------------------------------------------------------- held blocks are marked

  /** The first frame of every held block is marked used, so no neighbour merges with it. */
  ghost predicate HeldMarked(s: State)
    requires Good(s)
  {
    forall i :: 0 <= i < |s.out| ==> s.out[i].frame < |s.bits| && s.bits[s.out[i].frame]
  }

  lemma HeldCovers(blocks: seq<Block>, i: nat)
    requires i < |blocks|
    ensures CoverBlocks(blocks, blocks[i].frame) >= 1
  {
    CoverBlocksRemove(blocks, i, blocks[i].frame);
  }

  lemma AddKeepsMarks(s: State, start: nat, count: nat, node: nat)
    requires Good(s) && HeldMarked(s) && Allowed(s, AddRegion(start, count, node))
    ensures var s' := StepAdd(s, start, count, node); s'.Some? && Good(s'.value) ==> HeldMarked(s'.value)
  {
    hide BuddySpec.AddRegion, GoodLists;
    if node < MAX_NODES {
      AddRegionMeans(s.lists, s.bits, s.limit, start, start + count, node);
    }
  }

  lemma AllocKeepsMarks(s: State, order: nat, node: nat)
    requires Good(s) && Partition(s) && HeldMarked(s) && order <= MAX_ORDER && node < MAX_NODES
    ensures var s' := StepAlloc(s, order, node); s'.Some? && Good(s'.value) ==> HeldMarked(s'.value)
  {
    hide Split, SplitBits, UpperHalf, GoodLists, CoverFree, CoverBlocks, Partition;
    var s' := StepAlloc(s, order, node);
    var from := SourceNode(s.lists, order, node);
    if s'.Some? && from.Some? && Good(s'.value) {
      var have := Highest(s.lists, from.value, order, MAX_ORDER).value;
      var frame := s.lists[Slot(from.value, have)][0];
      PopGood(s.lists, s.limit, from.value, have);
      BitsAfterSplit(s.bits, frame, have, order);
      forall i | 0 <= i < |s.out| ensures !UpperHalf(frame, have, order, s.out[i].frame) {
        HeldIsNoHalf(s, from.value, have, order, i);
      }
    }
  }

  lemma HeldIsNoHalf(s: State, n: nat, have: nat, order: nat, i: nat)
    requires Good(s) && Partition(s) && n < MAX_NODES && order <= have <= MAX_ORDER && i < |s.out|
    requires s.lists[Slot(n, have)] != []
    ensures !UpperHalf(s.lists[Slot(n, have)][0], have, order, s.out[i].frame)
  {
    hide CoverFree, CoverBlocks, GoodLists;
    var frame, f := s.lists[Slot(n, have)][0], s.out[i].frame;
    if o: nat :| order <= o < have && f == frame + Pow2(o) {
      PowersGrow(o, have);
      CoverPop(s.lists, n, have, f);
      HeldCovers(s.out, i);
    }
  }

  lemma {:induction false} PowersGrow(a: nat, b: nat)
    requires a < b
    ensures Pow2(a) < Pow2(b)
  {
    if a + 1 < b {
      PowersGrow(a, b - 1);
    }
  }

  lemma FreeKeepsMarks(s: State, which: nat, node: nat)
    requires Good(s) && Partition(s) && HeldMarked(s) && which < |s.out| && node < MAX_NODES
    ensures var s' := StepFree(s, which, node); s'.Some? && Good(s'.value) ==> HeldMarked(s'.value)
  {
    hide Merge, GoodLists, CoverFree, CoverBlocks, Partition, FirstAbove, BuddyListed;
    var s' := StepFree(s, which, node);
    var b := s.out[which];
    var bits := s.bits[b.frame := false];
    MergeMeans(s.lists, bits, s.limit, node, b.frame, b.order);
    if s'.Some? && Good(s'.value) {
      forall i | 0 <= i < |s'.value.out| ensures s'.value.bits[s'.value.out[i].frame] {
        HeldIsNotMerged(s, which, node, i);
      }
    }
  }

  /** Another held block is neither the freed one nor inside what it merges into. */
  lemma HeldIsNotMerged(s: State, which: nat, node: nat, i: nat)
    requires Good(s) && Partition(s) && which < |s.out| && node < MAX_NODES && i < |s.out| - 1
    ensures var b, rest := s.out[which], s.out[..which] + s.out[which + 1..]; var f := rest[i].frame;
            var merged := Merge(s.lists, s.bits[b.frame := false], s.limit, node, b.frame, b.order).2;
            f != b.frame && !FirstAbove(b.frame, b.order, merged.order, f)
  {
    hide Merge, GoodLists, CoverFree, CoverBlocks, RoundDown;
    var b, rest := s.out[which], s.out[..which] + s.out[which + 1..];
    var f, bits := rest[i].frame, s.bits[b.frame := false];
    var merged := Merge(s.lists, bits, s.limit, node, b.frame, b.order).2;
    HeldCovers(rest, i);
    CoverBlocksRemove(s.out, which, f);
    MergeConserves(s.lists, bits, s.limit, node, b.frame, b.order, f);
    MergeMeans(s.lists, bits, s.limit, node, b.frame, b.order);
    if k :| b.order < k <= merged.order && f == RoundDown(b.frame, k) {
      RoundDownTwice(b.frame, k, merged.order);
      RoundDownIs(f, merged.order);
    }
  }

  /** In every state of a run a held block is marked used. */
  lemma {:induction false} RunKeepsHeldMarked(s: State, ops: seq<Op>, last: State)
    requires Good(s) && Partition(s) && HeldMarked(s) && IsRun(s, ops, last)
    ensures Good(last) && HeldMarked(last)
    decreases |ops|
  {
    hide Partition, HeldMarked, StepAdd, StepAlloc, StepFree;
    if ops != [] {
      StepKeeps(s, ops[0]);
      match ops[0] {
        case AddRegion(start, count, node) => AddKeepsMarks(s, start, count, node);
        case Alloc(order, node) => AllocKeepsMarks(s, Min(order, MAX_ORDER), node);
        case Free(which, node) => FreeKeepsMarks(s, which, node);
      }
      RunKeepsHeldMarked(Step(s, ops[0]).value, ops[1..], last);
    }
  }

  /** With pool entries left, freeing a held block panics exactly when every buddy up to order 10 is listed. */
  lemma FreePanicsExactlyWhen(s: State, which: nat, node: nat)
    requires Good(s) && which < |s.out| && node < MAX_NODES && s.entries < s.pool
    ensures StepFree(s, which, node).None?
       <==> AllBuddiesListed(s.lists, s.bits[s.out[which].frame := false], s.limit, node, s.out[which])
  {
    var b := s.out[which];
    MergeOverflowsExactlyWhen(s.lists, s.bits[b.frame := false], s.limit, node, b.frame, b.order);
  }

  // ---------------------------------------------------------------- a run that ends in that panic

  function TwoHalves(half: nat): seq<Op> {
    [AddRegion(0, 2 * half, 0), Alloc(MAX_ORDER, 0), Alloc(MAX_ORDER, 0), Free(0, 0)]
  }

  /** 2048 free frames are added, both order-10 halves are taken, and the second one given back panics. */
  lemma FreePanicsExample(s0: State, half: nat)
    requires half == Pow2(MAX_ORDER) && s0 == Initial(seq(2 * half, _ => false), 2 * half, s0.pool) && s0.pool >= 4
    ensures Good(s0)
    ensures exists s: State :: Good(s) && IsRun(s0, TwoHalves(half), s) && Allowed(s, Free(0, 0))
              && Step(s, Free(0, 0)).None?
  {
    hide Good, Partition, Step, IsRun, BuddyOf, AlignedBlock, Pow2;
    InitialPartition(s0.bits, 2 * half, s0.pool);
    ZeroAndPower(MAX_ORDER);
    var s1 := AfterAdd(s0, half);
    var s2 := AfterAlloc(s1, half, [0]);
    var s3 := AfterAlloc(s2, 0, []);
    assert s3.out == [Block(half, MAX_ORDER), Block(0, MAX_ORDER)];
    var s4 := AfterFree(s3, half, 0);
    TopBuddyListed(s4, 0, half);
    Chain(s0, TwoHalves(half), s1, s2, s3, s4);
  }

  lemma Chain(s0: State, ops: seq<Op>, s1: State, s2: State, s3: State, s4: State)
    requires |ops| == 4 && Good(s0) && Good(s1) && Good(s2) && Good(s3) && Good(s4)
    requires Allowed(s0, ops[0]) && Step(s0, ops[0]) == Some(s1)
    requires Allowed(s1, ops[1]) && Step(s1, ops[1]) == Some(s2)
    requires Allowed(s2, ops[2]) && Step(s2, ops[2]) == Some(s3)
    requires Allowed(s3, ops[3]) && Step(s3, ops[3]) == Some(s4)
    ensures IsRun(s0, ops, s4)
  {
    assert IsRun(s4, ops[4..], s4);
    assert ops[3..][1..] == ops[4..] && IsRun(s3, ops[3..], s4);
    assert ops[2..][1..] == ops[3..] && IsRun(s2, ops[2..], s4);
    assert ops[1..][1..] == ops[2..] && IsRun(s1, ops[1..], s4);
  }

  lemma {:induction false} ZeroAndPower(k: nat)
    ensures AlignedBlock(0, k) && AlignedBlock(Pow2(k), k) && BuddyOf(Pow2(k), k) == 0 && BuddyOf(0, k) == Pow2(k)
  {
    if k > 0 {
      var half := Pow2(k - 1);
      assert Pow2(k) == 2 * half && Pow2(k) / 2 == half && Pow2(k) % 2 == 0;
      assert AlignedBlock(0, k) == AlignedBlock(0, k - 1) && AlignedBlock(Pow2(k), k) == AlignedBlock(half, k - 1);
      assert BuddyOf(Pow2(k), k) == 2 * BuddyOf(half, k - 1) && BuddyOf(0, k) == 2 * BuddyOf(0, k - 1);
      hide AlignedBlock, BuddyOf, Pow2;
      ZeroAndPower(k - 1);
    }
  }

  lemma AfterAdd(s: State, half: nat) returns (s': State)
    requires half == Pow2(MAX_ORDER) && s == Initial(seq(2 * half, _ => false), 2 * half, s.pool) && s.pool >= 4
    requires Good(s) && Partition(s) && AlignedBlock(0, MAX_ORDER) && AlignedBlock(half, MAX_ORDER)
    ensures Allowed(s, AddRegion(0, 2 * half, 0)) && Step(s, AddRegion(0, 2 * half, 0)) == Some(s') && Good(s')
    ensures s'.lists[MAX_ORDER] == [half, 0] && s'.entries == 2 && s'.pool == s.pool
            && s'.limit == 2 * half == |s'.bits| && s'.out == []
  {
    hide BuddySpec.AddRegion, Good, Partition, AlignedBlock, GoodLists, Pow2;
    AddTwoBlocks(s.lists, s.bits, half);
    StepKeeps(s, AddRegion(0, 2 * half, 0));
    s' := Step(s, AddRegion(0, 2 * half, 0)).value;
  }

  /** A region of two free order-10 blocks is added as those two blocks. */
  lemma AddTwoBlocks(lists: Lists, bits: seq<bool>, half: nat)
    requires half == Pow2(MAX_ORDER) && |bits| == 2 * half && forall f :: 0 <= f < 2 * half ==> !bits[f]
    requires AlignedBlock(0, MAX_ORDER) && AlignedBlock(half, MAX_ORDER)
    ensures var r := BuddySpec.AddRegion(lists, bits, 2 * half, 0, 2 * half, 0);
            r.pushes == 2 && |r.bits| == 2 * half && r.lists == Push(Push(lists, 0, 0, MAX_ORDER), 0, half, MAX_ORDER)
  {
    assert RegionOrder(bits, 2 * half, 0, 2 * half, MAX_ORDER) == MAX_ORDER;
    var lists1, bits1 := Push(lists, 0, 0, MAX_ORDER), MarkUsed(bits, 0, half);
    assert RegionOrder(bits1, 2 * half, half, 2 * half, MAX_ORDER) == MAX_ORDER;
    var lists2, bits2 := Push(lists1, 0, half, MAX_ORDER), MarkUsed(bits1, half, half);
    hide RegionOrder, AlignedBlock, Push, MarkUsed;
    assert BuddySpec.AddRegion(lists2, bits2, 2 * half, 2 * half, 2 * half, 0) == Region(lists2, bits2, 0);
    assert BuddySpec.AddRegion(lists1, bits1, 2 * half, half, 2 * half, 0) == Region(lists2, bits2, 1);
    assert BuddySpec.AddRegion(lists, bits, 2 * half, 0, 2 * half, 0) == Region(lists2, bits2, 2);
  }

  /** Taking a whole order-10 block. */
  lemma AfterAlloc(s: State, frame: nat, rest: seq<nat>) returns (s': State)
    requires Good(s) && s.entries <= s.pool && s.lists[MAX_ORDER] == [frame] + rest
    ensures Step(s, Alloc(MAX_ORDER, 0)) == Some(s') && Good(s') && frame < |s.bits|
    ensures s'.lists[MAX_ORDER] == rest && s'.bits == s.bits[frame := true]
              && s'.out == s.out + [Block(frame, MAX_ORDER)]
    ensures s'.limit == s.limit && s'.entries == s.entries && s'.pool == s.pool
  {
    assert s.lists[MAX_ORDER][0] == frame && GoodBlock(frame, MAX_ORDER, s.limit);
    PopGood(s.lists, s.limit, 0, MAX_ORDER);
    assert ([frame] + rest)[1..] == rest;
    assert Highest(s.lists, 0, MAX_ORDER, MAX_ORDER) == Some(10);
    s' := Step(s, Alloc(MAX_ORDER, 0)).value;
  }

  /** Giving one half back while the other is still held merges nothing. */
  lemma AfterFree(s: State, high: nat, low: nat) returns (s': State)
    requires Good(s) && s.entries < s.pool && s.out == [Block(high, MAX_ORDER), Block(low, MAX_ORDER)]
    requires BuddyOf(high, MAX_ORDER) == low < |s.bits| && s.bits[low] && high != low
    ensures Step(s, Free(0, 0)) == Some(s') && Good(s')
    ensures s'.out == [Block(low, MAX_ORDER)] && high in s'.lists[MAX_ORDER] && s'.bits == s.bits[high := false]
    ensures s'.limit == s.limit && s'.entries == s.entries + 1 && s'.pool == s.pool
  {
    var b := s.out[0];
    assert s.out[1] == Block(low, MAX_ORDER);
    MergeStops(s.lists, s.bits[high := false], s.limit, 0, high, MAX_ORDER);
    PushGood(s.lists, s.limit, 0, high, MAX_ORDER);
    assert s.out[..0] + s.out[1..] == [Block(low, MAX_ORDER)];
    s' := Step(s, Free(0, 0)).value;
    assert s'.lists[MAX_ORDER][0] == high;
  }

  lemma MergeStops(lists: Lists, bits: seq<bool>, limit: nat, node: nat, frame: nat, order: nat)
    requires node < MAX_NODES && order <= MAX_ORDER && frame < limit <= |bits|
    requires var buddy := BuddyOf(frame, order); buddy >= limit || bits[buddy]
    ensures Merge(lists, bits, limit, node, frame, order) == (lists, bits, Block(frame, order))
  {
  }

  /** Two free buddies do not merge while one is as `add_region` left it: listed, with its frames marked used. */
  lemma RegionBlocksDoNotMerge(lists: Lists, bits: seq<bool>, limit: nat, start: nat, end: nat, node: nat, frame: nat,
                               order: nat)
    requires node < MAX_NODES && start <= end <= limit <= |bits| && frame < limit && order <= MAX_ORDER
    requires start <= BuddyOf(frame, order) < end
    ensures var r := BuddySpec.AddRegion(lists, bits, limit, start, end, node);
            var freed := r.bits[frame := false];
            Merge(r.lists, freed, limit, node, frame, order) == (r.lists, freed, Block(frame, order))
  {
    hide Merge;
    AddRegionMeans(lists, bits, limit, start, end, node);
    var r := BuddySpec.AddRegion(lists, bits, limit, start, end, node);
    var buddy := BuddyOf(frame, order);
    assert 0 <= buddy < |bits|;
    assert r.bits[buddy] <==> bits[buddy] || start <= buddy < end;
    MergeStops(r.lists, r.bits[frame := false], limit, node, frame, order);
  }

  lemma TopBuddyListed(s: State, frame: nat, buddy: nat)
    requires Good(s) && s.entries < s.pool && s.out == [Block(frame, MAX_ORDER)]
    requires BuddyOf(frame, MAX_ORDER) == buddy < s.limit && buddy in s.lists[MAX_ORDER] && !s.bits[buddy]
             && buddy != frame
    ensures Step(s, Free(0, 0)).None?
  {
    assert s.out[0] == Block(frame, MAX_ORDER);
    RoundDownFixes(frame, MAX_ORDER);
    assert BuddyListed(s.lists, s.bits[frame := false], s.limit, 0, frame, MAX_ORDER);
    FreePanicsExactlyWhen(s, 0, 0);
  }
}
