/**
 * The buddy allocator on values: one list of block frames per node and order.
 * `lists[Slot(node, order)]` holds the first frames of that list's free blocks, head first.
 */
module BuddySpec {
  import opened Layout
  import opened Arith

  const MAX_ORDER: nat := 10
  const MAX_NODES: nat := 8

  const ORDERS: nat := 11
  const SLOTS: nat := 88

  type Lists = ls: seq<seq<nat>> | |ls| == SLOTS witness seq(SLOTS, _ => [])

  /** The row-major index of a list head in the node-by-order table. */
  function Slot(node: nat, order: nat): (i: nat)
    requires node < MAX_NODES && order <= MAX_ORDER
    ensures i < SLOTS && i % ORDERS == order && i / ORDERS == node
  {
    node * ORDERS + order
  }

  datatype Block = Block(frame: nat, order: nat)

  /** `frame ^ (1 << order)`: flip bit `order`. */
  function BuddyOf(frame: nat, order: nat): (b: nat)
    ensures b != frame
  {
    if order == 0 then (if frame % 2 == 0 then frame + 1 else frame - 1)
    else 2 * BuddyOf(frame / 2, order - 1) + frame % 2
  }

  /** `frame` is a multiple of `1 << order`: its low `order` bits are clear. */
  predicate AlignedBlock(frame: nat, order: nat) {
    order == 0 || (frame % 2 == 0 && AlignedBlock(frame / 2, order - 1))
  }

  function Push(lists: Lists, node: nat, frame: nat, order: nat): Lists
    requires node < MAX_NODES && order <= MAX_ORDER
  {
    lists[Slot(node, order) := [frame] + lists[Slot(node, order)]]
  }

  function Pop(lists: Lists, node: nat, order: nat): Lists
    requires node < MAX_NODES && order <= MAX_ORDER && lists[Slot(node, order)] != []
  {
    lists[Slot(node, order) := lists[Slot(node, order)][1..]]
  }

  /** Drop the first occurrence of `x`. */
  function Without(l: seq<nat>, x: nat): seq<nat> {
    if l == [] then [] else if l[0] == x then l[1..] else [l[0]] + Without(l[1..], x)
  }

  function Take(lists: Lists, node: nat, frame: nat, order: nat): Lists
    requires node < MAX_NODES && order <= MAX_ORDER
  {
    lists[Slot(node, order) := Without(lists[Slot(node, order)], frame)]
  }

  // ---------------------------------------------------------------- alloc

  /** The highest non-empty order in `order..=top` of a node's lists. */
  function Highest(lists: Lists, node: nat, order: nat, top: nat): (r: Option<nat>)
    requires node < MAX_NODES && top <= MAX_ORDER
    ensures r.Some? ==> order <= r.value <= top && lists[Slot(node, r.value)] != []
    ensures r.Some? ==> forall o :: r.value < o <= top ==> lists[Slot(node, o)] == []
    ensures r.None? ==> forall o :: order <= o <= top ==> lists[Slot(node, o)] == []
    decreases top, order
  {
    if top < order then None
    else if lists[Slot(node, top)] != [] then Some(top)
    else if top == 0 then None
    else Highest(lists, node, order, top - 1)
  }

  /** The first node in `from..MAX_NODES`, `node` excepted, with a block of order at least `order`. */
  function OtherNode(lists: Lists, order: nat, node: nat, from: nat): (r: Option<nat>)
    requires from <= MAX_NODES
    ensures r.Some? ==> from <= r.value < MAX_NODES && r.value != node
                        && Highest(lists, r.value, order, MAX_ORDER).Some?
    ensures r.Some? ==>
              forall n :: from <= n < r.value && n != node ==> Highest(lists, n, order, MAX_ORDER).None?
    ensures r.None? ==> forall n :: from <= n < MAX_NODES && n != node ==> Highest(lists, n, order, MAX_ORDER).None?
    decreases MAX_NODES - from, node
  {
    if from == MAX_NODES then None
    else if from != node && Highest(lists, from, order, MAX_ORDER).Some? then Some(from)
    else OtherNode(lists, order, node, from + 1)
  }

  /** The node a request is served from: its own when that has a large enough block. */
  function SourceNode(lists: Lists, order: nat, node: nat): (r: Option<nat>)
    requires node < MAX_NODES
    ensures r.Some? ==> r.value < MAX_NODES && Highest(lists, r.value, order, MAX_ORDER).Some?
    ensures r.None? ==> forall n :: 0 <= n < MAX_NODES ==> Highest(lists, n, order, MAX_ORDER).None?
    ensures Highest(lists, node, order, MAX_ORDER).Some? ==> r == Some(node)
    ensures r.Some? && r.value != node ==>
              forall n :: 0 <= n < r.value ==> Highest(lists, n, order, MAX_ORDER).None?
  {
    if Highest(lists, node, order, MAX_ORDER).Some? then Some(node) else OtherNode(lists, order, node, 0)
  }

  /** Split the block at `frame` from order `have` down to `want`: every upper half goes on a list. */
  function Split(lists: Lists, node: nat, frame: nat, have: nat, want: nat): Lists
    requires node < MAX_NODES && want <= have <= MAX_ORDER
    decreases have - want
  {
    if have == want then lists
    else Push(Split(lists, node, frame, have, want + 1), node, frame + Pow2(want), want)
  }

  /** The bits after the same splits: the first frame of every upper half is clear. */
  function SplitBits(bits: seq<bool>, frame: nat, have: nat, want: nat): (r: seq<bool>)
    requires want <= have && frame + Pow2(have) <= |bits|
    ensures |r| == |bits| && frame + Pow2(want) <= |bits|
    decreases have - want
  {
    if have == want then bits
    else SplitBits(bits, frame, have, want + 1)[frame + Pow2(want) := false]
  }

  // ---------------------------------------------------------------- free

  /** The lists and block that merging with free buddies leads to; order 11 is past the last list. */
  function Merge(lists: Lists, bits: seq<bool>, limit: nat, node: nat, frame: nat,
                 order: nat): (r: (Lists, seq<bool>, Block))
    requires node < MAX_NODES && order <= MAX_ORDER + 1 && frame < limit <= |bits|
    ensures order <= r.2.order <= MAX_ORDER + 1 && r.2.frame < limit && |r.1| == |bits|
    decreases MAX_ORDER + 1 - order
  {
    if order > MAX_ORDER then (lists, bits, Block(frame, order))
    else
      var buddy := BuddyOf(frame, order);
      if buddy >= limit || bits[buddy] || buddy !in lists[Slot(node, order)] then (lists, bits, Block(frame, order))
      else
        var low := Min(frame, buddy);
        Merge(Take(lists, node, buddy, order), bits[low := false], limit, node, low, order + 1)
  }

  // ---------------------------------------------------------------- add_region

  predicate RangeFree(bits: seq<bool>, limit: nat, from: nat, to: nat)
    requires limit <= |bits|
  {
    to <= limit && forall f :: from <= f < to ==> !bits[f]
  }

  /** The order `add_region` picks at `frame`: order 0 is taken without looking at the bitmap. */
  function RegionOrder(bits: seq<bool>, limit: nat, frame: nat, end: nat, top: nat): (o: nat)
    requires limit <= |bits|
    ensures o <= top
    decreases top, frame
  {
    if top == 0 then 0
    else if AlignedBlock(frame, top) && frame + Pow2(top) <= end
            && RangeFree(bits, limit, frame, frame + Pow2(top)) then top
    else RegionOrder(bits, limit, frame, end, top - 1)
  }

  lemma {:induction false} RegionOrderFits(bits: seq<bool>, limit: nat, frame: nat, end: nat, top: nat)
    requires limit <= |bits| && frame < end
    ensures var o := RegionOrder(bits, limit, frame, end, top); AlignedBlock(frame, o) && frame + Pow2(o) <= end
  {
    if top > 0 {
      RegionOrderFits(bits, limit, frame, end, top - 1);
    }
  }

  function MarkUsed(bits: seq<bool>, from: nat, count: nat): (r: seq<bool>)
    requires from + count <= |bits|
    ensures |r| == |bits|
    ensures forall f :: 0 <= f < |bits| ==> r[f] == (from <= f < from + count || bits[f])
  {
    seq(|bits|, f requires 0 <= f < |bits| => from <= f < from + count || bits[f])
  }

  datatype Region = Region(lists: Lists, bits: seq<bool>, pushes: nat)

  /** The lists and bits after adding `frame..end` to a node, and the number of blocks pushed. */
  function AddRegion(lists: Lists, bits: seq<bool>, limit: nat, frame: nat, end: nat, node: nat): (r: Region)
    requires node < MAX_NODES && end <= |bits| && limit <= |bits|
    ensures |r.bits| == |bits|
    decreases end - frame
  {
    if frame >= end then Region(lists, bits, 0)
    else
      var o := RegionOrder(bits, limit, frame, end, MAX_ORDER);
      RegionOrderFits(bits, limit, frame, end, MAX_ORDER);
      var rest := AddRegion(Push(lists, node, frame, o), MarkUsed(bits, frame, Pow2(o)), limit, frame + Pow2(o), end,
                            node);
      rest.(pushes := rest.pushes + 1)
  }

  // ---------------------------------------------------------------- how often a frame is covered

  predicate Covers(frame: nat, order: nat, f: nat) {
    frame <= f < frame + Pow2(order)
  }

  function Cover1(frame: nat, order: nat, f: nat): nat {
    if Covers(frame, order, f) then 1 else 0
  }

  ghost function CoverList(l: seq<nat>, order: nat, f: nat): nat {
    if l == [] then 0 else Cover1(l[0], order, f) + CoverList(l[1..], order, f)
  }

  ghost function CoverSlots(lists: Lists, k: nat, f: nat): nat
    requires k <= SLOTS
  {
    if k == 0 then 0 else CoverSlots(lists, k - 1, f) + CoverList(lists[k - 1], (k - 1) % ORDERS, f)
  }

  /** How many free blocks, over all nodes and orders, contain frame `f`. */
  ghost function CoverFree(lists: Lists, f: nat): nat {
    CoverSlots(lists, SLOTS, f)
  }

  ghost function CoverBlocks(blocks: seq<Block>, f: nat): nat {
    if blocks == [] then 0 else Cover1(blocks[0].frame, blocks[0].order, f) + CoverBlocks(blocks[1..], f)
  }

  lemma {:induction false} CoverSlotsUpdate(lists: Lists, i: nat, l: seq<nat>, k: nat, f: nat)
    requires i < SLOTS && k <= SLOTS
    ensures CoverSlots(lists[i := l], k, f)
         == CoverSlots(lists, k, f)
            + (if i < k then CoverList(l, i % ORDERS, f) - CoverList(lists[i], i % ORDERS, f) else 0)
  {
    if k > 0 {
      CoverSlotsUpdate(lists, i, l, k - 1, f);
    }
  }

  lemma CoverUpdate(lists: Lists, n: nat, o: nat, l: seq<nat>, f: nat)
    requires n < MAX_NODES && o <= MAX_ORDER
    ensures CoverFree(lists[Slot(n, o) := l], f)
            == CoverFree(lists, f) + CoverList(l, o, f) - CoverList(lists[Slot(n, o)], o, f)
  {
    CoverSlotsUpdate(lists, Slot(n, o), l, SLOTS, f);
  }

  lemma CoverPush(lists: Lists, n: nat, frame: nat, o: nat, f: nat)
    requires n < MAX_NODES && o <= MAX_ORDER
    ensures CoverFree(Push(lists, n, frame, o), f) == CoverFree(lists, f) + Cover1(frame, o, f)
  {
    var l := lists[Slot(n, o)];
    CoverUpdate(lists, n, o, [frame] + l, f);
    assert ([frame] + l)[1..] == l;
  }

  lemma {:induction false} CoverWithout(l: seq<nat>, x: nat, o: nat, f: nat)
    requires x in l
    ensures CoverList(Without(l, x), o, f) + Cover1(x, o, f) == CoverList(l, o, f)
  {
    if l[0] != x {
      CoverWithout(l[1..], x, o, f);
      assert ([l[0]] + Without(l[1..], x))[1..] == Without(l[1..], x);
    }
  }

  lemma {:induction false} CoverBlocksRemove(blocks: seq<Block>, i: nat, f: nat)
    requires i < |blocks|
    ensures CoverBlocks(blocks[..i] + blocks[i + 1..], f) + Cover1(blocks[i].frame, blocks[i].order, f)
            == CoverBlocks(blocks, f)
  {
    if i == 0 {
      assert blocks[..0] + blocks[1..] == blocks[1..];
    } else {
      CoverBlocksRemove(blocks[1..], i - 1, f);
      assert (blocks[..i] + blocks[i + 1..])[1..] == blocks[1..][..i - 1] + blocks[1..][i..];
      assert (blocks[..i] + blocks[i + 1..])[0] == blocks[0];
    }
  }

  lemma {:induction false} CoverBlocksAppend(blocks: seq<Block>, b: Block, f: nat)
    ensures CoverBlocks(blocks + [b], f) == CoverBlocks(blocks, f) + Cover1(b.frame, b.order, f)
  {
    if blocks != [] {
      CoverBlocksAppend(blocks[1..], b, f);
      assert (blocks + [b])[1..] == blocks[1..] + [b];
    }
  }

  // ---------------------------------------------------------------- alignment

  /** A block starts at a multiple of its size and lies inside the bitmap. */
  predicate GoodBlock(frame: nat, order: nat, limit: nat) {
    AlignedBlock(frame, order) && frame + Pow2(order) <= limit
  }

  ghost predicate GoodLists(lists: Lists, limit: nat) {
    forall i, k :: 0 <= i < SLOTS && 0 <= k < |lists[i]| ==> GoodBlock(lists[i][k], i % ORDERS, limit)
  }

  lemma {:induction false} AlignedIsMultiple(frame: nat, order: nat)
    ensures AlignedBlock(frame, order) <==> frame % Pow2(order) == 0
  {
    if order > 0 {
      AlignedIsMultiple(frame / 2, order - 1);
      ModDouble(frame, Pow2(order - 1));
    }
  }

  lemma {:induction false} HalfAligned(frame: nat, order: nat)
    requires order > 0 && AlignedBlock(frame, order)
    ensures AlignedBlock(frame, order - 1) && AlignedBlock(frame + Pow2(order - 1), order - 1)
  {
    if order > 1 {
      HalfAligned(frame / 2, order - 1);
      assert (frame + Pow2(order - 1)) / 2 == frame / 2 + Pow2(order - 2);
    }
  }

  lemma {:induction false} BuddyDistance(frame: nat, order: nat)
    requires AlignedBlock(frame, order)
    ensures var buddy := BuddyOf(frame, order); buddy == frame + Pow2(order) || frame == buddy + Pow2(order)
  {
    if order > 0 {
      BuddyDistance(frame / 2, order - 1);
    }
  }

  lemma DoubleAligned(x: nat, order: nat)
    requires AlignedBlock(x, order)
    ensures AlignedBlock(2 * x, order + 1)
  {
    assert (2 * x) % 2 == 0 && (2 * x) / 2 == x;
  }

  lemma {:induction false} LowerBuddyAligned(frame: nat, order: nat)
    requires AlignedBlock(frame, order)
    ensures AlignedBlock(Min(frame, BuddyOf(frame, order)), order + 1)
  {
    if order == 0 {
      assert Min(frame, BuddyOf(frame, 0)) == 2 * (frame / 2);
      DoubleAligned(frame / 2, 0);
    } else {
      var half, buddyHalf := frame / 2, BuddyOf(frame / 2, order - 1);
      assert AlignedBlock(half, order - 1) && Min(frame, BuddyOf(frame, order)) == 2 * Min(half, buddyHalf);
      hide AlignedBlock, BuddyOf;
      LowerBuddyAligned(half, order - 1);
      DoubleAligned(Min(half, buddyHalf), order);
    }
  }

  /** Two buddies are disjoint and together are the aligned block one order up. */
  lemma BuddiesMakeBlock(frame: nat, order: nat)
    requires AlignedBlock(frame, order)
    ensures var buddy := BuddyOf(frame, order);
            && AlignedBlock(Min(frame, buddy), order + 1)
            && (buddy == frame + Pow2(order) || frame == buddy + Pow2(order))
  {
    BuddyDistance(frame, order);
    LowerBuddyAligned(frame, order);
  }

  lemma {:induction false} WithoutMembers(l: seq<nat>, x: nat)
    ensures forall y :: y in Without(l, x) ==> y in l
  {
    if l != [] && l[0] != x {
      WithoutMembers(l[1..], x);
    }
  }

  lemma PushGood(lists: Lists, limit: nat, n: nat, frame: nat, o: nat)
    requires n < MAX_NODES && o <= MAX_ORDER && GoodLists(lists, limit) && GoodBlock(frame, o, limit)
    ensures GoodLists(Push(lists, n, frame, o), limit)
  {
  }

  lemma TakeGood(lists: Lists, limit: nat, n: nat, frame: nat, o: nat)
    requires n < MAX_NODES && o <= MAX_ORDER && GoodLists(lists, limit)
    ensures GoodLists(Take(lists, n, frame, o), limit)
    ensures frame in lists[Slot(n, o)] ==> GoodBlock(frame, o, limit)
  {
    var l := lists[Slot(n, o)];
    WithoutMembers(l, frame);
    forall i | 0 <= i < |Without(l, frame)|
      ensures GoodBlock(Without(l, frame)[i], o, limit)
    {
      assert Without(l, frame)[i] in l;
    }
  }

  // ---------------------------------------------------------------- conservation

  lemma {:induction false} SplitConserves(lists: Lists, node: nat, frame: nat, have: nat, want: nat, f: nat)
    requires node < MAX_NODES && want <= have <= MAX_ORDER
    ensures CoverFree(Split(lists, node, frame, have, want), f) + Cover1(frame, want, f)
         == CoverFree(lists, f) + Cover1(frame, have, f)
    decreases have - want
  {
    if have != want {
      SplitConserves(lists, node, frame, have, want + 1, f);
      CoverPush(Split(lists, node, frame, have, want + 1), node, frame + Pow2(want), want, f);
    }
  }

  lemma {:induction false} SplitGood(lists: Lists, limit: nat, node: nat, frame: nat, have: nat, want: nat)
    requires node < MAX_NODES && want <= have <= MAX_ORDER
    requires GoodLists(lists, limit) && GoodBlock(frame, have, limit)
    ensures GoodLists(Split(lists, node, frame, have, want), limit) && GoodBlock(frame, want, limit)
    decreases have - want
  {
    hide GoodLists, AlignedBlock, Push;
    if have != want {
      SplitGood(lists, limit, node, frame, have, want + 1);
      HalfAligned(frame, want + 1);
      PushGood(Split(lists, node, frame, have, want + 1), limit, node, frame + Pow2(want), want);
    }
  }

  /** Taking the buddy off its list and joining the two halves loses no frame. */
  lemma MergeStepConserves(lists: Lists, limit: nat, node: nat, frame: nat, order: nat, f: nat)
    requires node < MAX_NODES && order <= MAX_ORDER
    requires GoodBlock(frame, order, limit) && GoodLists(lists, limit)
    requires BuddyOf(frame, order) in lists[Slot(node, order)]
    ensures var buddy := BuddyOf(frame, order); var low := Min(frame, buddy);
            && GoodBlock(low, order + 1, limit) && GoodLists(Take(lists, node, buddy, order), limit)
            && CoverFree(Take(lists, node, buddy, order), f) + Cover1(low, order + 1, f)
            == CoverFree(lists, f) + Cover1(frame, order, f)
  {
    var buddy := BuddyOf(frame, order);
    BuddiesMakeBlock(frame, order);
    TakeGood(lists, limit, node, buddy, order);
    var l := lists[Slot(node, order)];
    CoverUpdate(lists, node, order, Without(l, buddy), f);
    CoverWithout(l, buddy, order, f);
  }

  lemma {:induction false} MergeConserves(lists: Lists, bits: seq<bool>, limit: nat, node: nat, frame: nat, order: nat,
                                          f: nat)
    requires node < MAX_NODES && order <= MAX_ORDER + 1 && frame < limit <= |bits|
    requires GoodBlock(frame, order, limit) && GoodLists(lists, limit)
    ensures var (after, _, b) := Merge(lists, bits, limit, node, frame, order);
            && CoverFree(after, f) + Cover1(b.frame, b.order, f) == CoverFree(lists, f) + Cover1(frame, order, f)
            && GoodBlock(b.frame, b.order, limit) && GoodLists(after, limit)
    decreases MAX_ORDER + 1 - order
  {
    hide GoodLists, CoverFree, AlignedBlock, Take, BuddyOf;
    if order <= MAX_ORDER {
      var buddy := BuddyOf(frame, order);
      if !(buddy >= limit || bits[buddy] || buddy !in lists[Slot(node, order)]) {
        var low := Min(frame, buddy);
        MergeStepConserves(lists, limit, node, frame, order, f);
        MergeConserves(Take(lists, node, buddy, order), bits[low := false], limit, node, low, order + 1, f);
      }
    }
  }

  lemma {:induction false} AddRegionConserves(lists: Lists, bits: seq<bool>, limit: nat, frame: nat, end: nat,
                                              node: nat, f: nat)
    requires node < MAX_NODES && frame <= end <= limit <= |bits|
    requires GoodLists(lists, limit)
    ensures var after := AddRegion(lists, bits, limit, frame, end, node).lists;
            && CoverFree(after, f) == CoverFree(lists, f) + (if frame <= f < end then 1 else 0)
            && GoodLists(after, limit)
    decreases end - frame
  {
    hide RegionOrder, Push, GoodLists, CoverFree, AlignedBlock;
    if frame < end {
      var o := RegionOrder(bits, limit, frame, end, MAX_ORDER);
      RegionOrderFits(bits, limit, frame, end, MAX_ORDER);
      AddBlockConserves(lists, limit, frame, node, o, f);
      AddRegionConserves(Push(lists, node, frame, o), MarkUsed(bits, frame, Pow2(o)), limit, frame + Pow2(o), end, node,
                         f);
    }
  }

  lemma AddBlockConserves(lists: Lists, limit: nat, frame: nat, node: nat, o: nat, f: nat)
    requires node < MAX_NODES && o <= MAX_ORDER && GoodLists(lists, limit) && GoodBlock(frame, o, limit)
    ensures CoverFree(Push(lists, node, frame, o), f)
            == CoverFree(lists, f) + (if frame <= f < frame + Pow2(o) then 1 else 0)
    ensures GoodLists(Push(lists, node, frame, o), limit)
  {
    CoverPush(lists, node, frame, o, f);
    PushGood(lists, limit, node, frame, o);
  }

  // ---------------------------------------------------------------- when free runs off the last list

  /** `frame` with its low `k` bits cleared. */
  function RoundDown(frame: nat, k: nat): nat {
    if k == 0 then frame else 2 * RoundDown(frame / 2, k - 1)
  }

  /** At order `k`, the buddy of the block of that order around `frame` is free and listed. */
  ghost predicate BuddyListed(lists: Lists, bits: seq<bool>, limit: nat, node: nat, frame: nat, k: nat)
    requires node < MAX_NODES && k <= MAX_ORDER && limit <= |bits|
  {
    var b := BuddyOf(RoundDown(frame, k), k);
    b < limit && !bits[b] && b in lists[Slot(node, k)]
  }

  ghost predicate AllBuddiesListed(lists: Lists, bits: seq<bool>, limit: nat, node: nat, b: Block)
    requires node < MAX_NODES && limit <= |bits|
  {
    forall k :: b.order <= k <= MAX_ORDER ==> BuddyListed(lists, bits, limit, node, b.frame, k)
  }

  lemma {:induction false} RoundDownFixes(frame: nat, k: nat)
    requires AlignedBlock(frame, k)
    ensures RoundDown(frame, k) == frame
  {
    if k > 0 {
      assert AlignedBlock(frame / 2, k - 1) && RoundDown(frame, k) == 2 * RoundDown(frame / 2, k - 1);
      hide AlignedBlock, RoundDown;
      RoundDownFixes(frame / 2, k - 1);
    }
  }

  lemma {:induction false} RoundDownAligns(frame: nat, k: nat)
    ensures AlignedBlock(RoundDown(frame, k), k)
  {
    if k > 0 {
      assert RoundDown(frame, k) == 2 * RoundDown(frame / 2, k - 1);
      hide AlignedBlock, RoundDown;
      RoundDownAligns(frame / 2, k - 1);
      DoubleAligned(RoundDown(frame / 2, k - 1), k - 1);
    }
  }

  lemma {:induction false} LowerBuddyRounds(frame: nat, k: nat)
    requires AlignedBlock(frame, k)
    ensures Min(frame, BuddyOf(frame, k)) == RoundDown(frame, k + 1)
  {
    assert RoundDown(frame, k + 1) == 2 * RoundDown(frame / 2, k);
    if k > 0 {
      assert AlignedBlock(frame / 2, k - 1) && BuddyOf(frame, k) == 2 * BuddyOf(frame / 2, k - 1);
      hide AlignedBlock, RoundDown, BuddyOf;
      LowerBuddyRounds(frame / 2, k - 1);
    }
  }

  lemma {:induction false} RoundDownTwice(frame: nat, j: nat, k: nat)
    requires j <= k
    ensures RoundDown(RoundDown(frame, j), k) == RoundDown(frame, k)
  {
    if j > 0 {
      RoundDownTwice(frame / 2, j - 1, k - 1);
    }
  }

  /** The buddy of a block around `low` is outside that block, so it is never `low` itself. */
  lemma BuddyOutside(low: nat, k: nat)
    ensures BuddyOf(RoundDown(low, k), k) != low
  {
    var b := BuddyOf(RoundDown(low, k), k);
    if b == low {
      RoundDownAligns(low, k);
      BuddyAligned(RoundDown(low, k), k);
      RoundDownFixes(low, k);
    }
  }

  lemma {:induction false} BuddyAligned(frame: nat, k: nat)
    ensures AlignedBlock(frame, k) ==> AlignedBlock(BuddyOf(frame, k), k)
  {
    if k > 0 {
      BuddyAligned(frame / 2, k - 1);
    }
  }

  /** One merge does not change what is listed at a higher order. */
  lemma BuddyListedAbove(lists: Lists, bits: seq<bool>, limit: nat, node: nat, frame: nat, order: nat, k: nat)
    requires node < MAX_NODES && order < k <= MAX_ORDER && frame < limit <= |bits|
    ensures var low := RoundDown(frame, order + 1);
            low < |bits| ==>
              BuddyListed(Take(lists, node, BuddyOf(frame, order), order), bits[low := false], limit, node, low, k)
              == BuddyListed(lists, bits, limit, node, frame, k)
  {
    RoundDownTwice(frame, order + 1, k);
    BuddyOutside(RoundDown(frame, order + 1), k);
  }

  /** `f` is the first frame of a block around `frame` of an order above `order`, up to `top`. */
  ghost predicate FirstAbove(frame: nat, order: nat, top: nat, f: nat) {
    exists k :: order < k <= top && f == RoundDown(frame, k)
  }

  /** What merging comes to, order by order. It climbs as long as the buddy of the block around `frame` is free and
    * listed, and no further. Those buddies leave their lists, the first frames of the blocks that arise are cleared,
    * and no other list or bit changes. */
  ghost predicate Climbed(lists: Lists, bits: seq<bool>, limit: nat, node: nat, frame: nat, order: nat,
                          lists': Lists, bits': seq<bool>, b: Block)
    requires node < MAX_NODES && limit <= |bits|
  {
    && order <= b.order <= MAX_ORDER + 1 && b.frame == RoundDown(frame, b.order) && |bits'| == |bits|
    && (forall k :: order <= k < b.order ==> BuddyListed(lists, bits, limit, node, frame, k))
    && (b.order <= MAX_ORDER ==> !BuddyListed(lists, bits, limit, node, frame, b.order))
    && (forall f :: 0 <= f < |bits| ==> (bits'[f] <==> bits[f] && !FirstAbove(frame, order, b.order, f)))
    && forall i :: 0 <= i < SLOTS ==>
         lists'[i] == if i / ORDERS == node && order <= i % ORDERS < b.order
                      then Without(lists[i], BuddyOf(RoundDown(frame, i % ORDERS), i % ORDERS)) else lists[i]
  }

  lemma {:induction false} MergeMeans(lists: Lists, bits: seq<bool>, limit: nat, node: nat, frame: nat, order: nat)
    requires node < MAX_NODES && order <= MAX_ORDER + 1 && frame < limit <= |bits| && AlignedBlock(frame, order)
    ensures var r := Merge(lists, bits, limit, node, frame, order);
            Climbed(lists, bits, limit, node, frame, order, r.0, r.1, r.2)
    decreases MAX_ORDER + 1 - order
  {
    hide AlignedBlock, RoundDown, BuddyOf, Take, Climbed;
    RoundDownFixes(frame, order);
    if order <= MAX_ORDER && BuddyListed(lists, bits, limit, node, frame, order) {
      var buddy := BuddyOf(frame, order);
      var low := Min(frame, buddy);
      LowerBuddyRounds(frame, order);
      BuddiesMakeBlock(frame, order);
      MergeMeans(Take(lists, node, buddy, order), bits[low := false], limit, node, low, order + 1);
      var r := Merge(lists, bits, limit, node, frame, order);
      ClimbOneMore(lists, bits, limit, node, frame, order, r.0, r.1, r.2);
    } else {
      ClimbNone(lists, bits, limit, node, frame, order);
    }
  }

  lemma ClimbNone(lists: Lists, bits: seq<bool>, limit: nat, node: nat, frame: nat, order: nat)
    requires node < MAX_NODES && order <= MAX_ORDER + 1 && frame < limit <= |bits|
    requires RoundDown(frame, order) == frame
    requires order <= MAX_ORDER ==> !BuddyListed(lists, bits, limit, node, frame, order)
    ensures Climbed(lists, bits, limit, node, frame, order, lists, bits, Block(frame, order))
  {
  }

  lemma ClimbOneMore(lists: Lists, bits: seq<bool>, limit: nat, node: nat, frame: nat, order: nat, lists': Lists,
                     bits': seq<bool>, b: Block)
    requires node < MAX_NODES && order <= MAX_ORDER && frame < limit <= |bits| && RoundDown(frame, order) == frame
    requires BuddyListed(lists, bits, limit, node, frame, order) && RoundDown(frame, order + 1) < |bits|
    requires var low := RoundDown(frame, order + 1);
             Climbed(Take(lists, node, BuddyOf(frame, order), order), bits[low := false], limit, node, low, order + 1,
                     lists', bits', b)
    ensures Climbed(lists, bits, limit, node, frame, order, lists', bits', b)
  {
    hide BuddyListed, BuddyOf, RoundDown, Without;
    var low := RoundDown(frame, order + 1);
    var lists1, bits1 := Take(lists, node, BuddyOf(frame, order), order), bits[low := false];
    forall k | order < k <= MAX_ORDER + 1
      ensures RoundDown(low, k) == RoundDown(frame, k)
      ensures k <= MAX_ORDER ==>
                BuddyListed(lists1, bits1, limit, node, low, k) == BuddyListed(lists, bits, limit, node, frame, k)
    {
      RoundDownTwice(frame, order + 1, k);
      if k <= MAX_ORDER {
        BuddyListedAbove(lists, bits, limit, node, frame, order, k);
      }
    }
    forall f | 0 <= f < |bits| ensures bits'[f] <==> bits[f] && !FirstAbove(frame, order, b.order, f) {
      FirstAboveNext(frame, order, b.order, f);
    }
  }

  lemma FirstAboveNext(frame: nat, order: nat, top: nat, f: nat)
    requires order < top <= MAX_ORDER + 1
    ensures var low := RoundDown(frame, order + 1);
            FirstAbove(frame, order, top, f) <==> f == low || FirstAbove(low, order + 1, top, f)
  {
    hide RoundDown;
    var low := RoundDown(frame, order + 1);
    forall k | order < k <= top ensures RoundDown(low, k) == RoundDown(frame, k) {
      RoundDownTwice(frame, order + 1, k);
    }
  }

  /** Merging climbs past order 10 exactly when every buddy on the way up is listed as free. */
  lemma MergeOverflowsExactlyWhen(lists: Lists, bits: seq<bool>, limit: nat, node: nat, frame: nat, order: nat)
    requires node < MAX_NODES && order <= MAX_ORDER + 1 && frame < limit <= |bits|
    requires AlignedBlock(frame, order)
    ensures Merge(lists, bits, limit, node, frame, order).2.order == MAX_ORDER + 1
       <==> AllBuddiesListed(lists, bits, limit, node, Block(frame, order))
  {
    hide BuddyListed, Merge;
    MergeMeans(lists, bits, limit, node, frame, order);
  }

  /** Clearing the low bits rounds down to a multiple of the block size. */
  lemma {:induction false} RoundDownIs(frame: nat, k: nat)
    ensures RoundDown(frame, k) <= frame < RoundDown(frame, k) + Pow2(k) && RoundDown(frame, k) % Pow2(k) == 0
  {
    RoundDownAligns(frame, k);
    AlignedIsMultiple(RoundDown(frame, k), k);
    if k > 0 {
      RoundDownIs(frame / 2, k - 1);
    }
  }

  // ---------------------------------------------------------------- what alloc and add_region come to

  /** The lists after an allocation: the head of the highest list leaves it, and its upper halves join the lists below;
    * no other list changes. */
  ghost predicate ListsHandOut(lists: Lists, node: nat, have: nat, want: nat, frame: nat, lists': Lists) {
    forall n: nat, o: nat :: n < MAX_NODES && o <= MAX_ORDER ==>
      && (n != node || o < want || have < o ==> lists'[Slot(n, o)] == lists[Slot(n, o)])
      && (n == node && o == have ==> lists[Slot(n, o)] == [frame] + lists'[Slot(n, o)])
      && (n == node && want <= o < have ==> lists'[Slot(n, o)] == [frame + Pow2(o)] + lists[Slot(n, o)])
  }

  /** The bits: the first frame of the block is marked, the first frames of the upper halves are cleared. */
  ghost predicate BitsHandOut(bits: seq<bool>, have: nat, want: nat, frame: nat, bits': seq<bool>) {
    && |bits'| == |bits|
    && forall f :: 0 <= f < |bits| ==> (bits'[f] <==> f == frame || (bits[f] && !UpperHalf(frame, have, want, f)))
  }

  ghost predicate UpperHalf(frame: nat, have: nat, want: nat, f: nat) {
    exists o: nat :: want <= o < have && f == frame + Pow2(o)
  }

  lemma {:induction false} SplitMeans(lists: Lists, node: nat, frame: nat, have: nat, want: nat, n: nat, o: nat)
    requires node < MAX_NODES && want <= have <= MAX_ORDER && n < MAX_NODES && o <= MAX_ORDER
    ensures Split(lists, node, frame, have, want)[Slot(n, o)]
         == if n == node && want <= o < have then [frame + Pow2(o)] + lists[Slot(n, o)] else lists[Slot(n, o)]
    decreases have - want
  {
    if want < have {
      SplitMeans(lists, node, frame, have, want + 1, n, o);
      SlotsDiffer(node, want, n, o);
    }
  }

  lemma SlotsDiffer(n: nat, o: nat, m: nat, p: nat)
    requires n < MAX_NODES && o <= MAX_ORDER && m < MAX_NODES && p <= MAX_ORDER
    ensures Slot(n, o) == Slot(m, p) <==> n == m && o == p
  {
  }

  lemma {:induction false} SplitBitsMean(bits: seq<bool>, frame: nat, have: nat, want: nat, f: nat)
    requires want <= have && frame + Pow2(have) <= |bits| && f < |bits|
    ensures SplitBits(bits, frame, have, want)[f] <==> bits[f] && !UpperHalf(frame, have, want, f)
    decreases have - want
  {
    if want < have {
      SplitBitsMean(bits, frame, have, want + 1, f);
    }
  }

  lemma AllocMeans(lists: Lists, bits: seq<bool>, node: nat, have: nat, want: nat)
    requires node < MAX_NODES && want <= have <= MAX_ORDER && lists[Slot(node, have)] != []
    requires lists[Slot(node, have)][0] + Pow2(have) <= |bits|
    ensures var frame := lists[Slot(node, have)][0];
            && ListsHandOut(lists, node, have, want, frame, Split(Pop(lists, node, have), node, frame, have, want))
            && BitsHandOut(bits, have, want, frame, SplitBits(bits, frame, have, want)[frame := true])
  {
    hide Split, SplitBits, UpperHalf, Slot, Pow2;
    var frame := lists[Slot(node, have)][0];
    var popped := Pop(lists, node, have);
    forall n: nat, o: nat | n < MAX_NODES && o <= MAX_ORDER
      ensures Split(popped, node, frame, have, want)[Slot(n, o)]
           == if n == node && want <= o < have then [frame + Pow2(o)] + lists[Slot(n, o)] else popped[Slot(n, o)]
      ensures popped[Slot(n, o)] == if n == node && o == have then lists[Slot(n, o)][1..] else lists[Slot(n, o)]
    {
      SplitMeans(popped, node, frame, have, want, n, o);
      SlotsDiffer(node, have, n, o);
    }
    BitsAfterSplit(bits, frame, have, want);
  }

  lemma BitsAfterSplit(bits: seq<bool>, frame: nat, have: nat, want: nat)
    requires want <= have && frame + Pow2(have) <= |bits| && frame < |bits|
    ensures BitsHandOut(bits, have, want, frame, SplitBits(bits, frame, have, want)[frame := true])
  {
    hide SplitBits, UpperHalf, Pow2;
    forall f | 0 <= f < |bits|
      ensures SplitBits(bits, frame, have, want)[f] <==> bits[f] && !UpperHalf(frame, have, want, f)
    {
      SplitBitsMean(bits, frame, have, want, f);
    }
  }

  /** A block of order `o` can be made at `frame`: aligned, inside the region, and all of it free. */
  ghost predicate BlockFits(bits: seq<bool>, limit: nat, frame: nat, end: nat, o: nat)
    requires limit <= |bits|
  {
    && frame % Pow2(o) == 0 && frame + Pow2(o) <= end && frame + Pow2(o) <= limit
    && forall f :: frame <= f < frame + Pow2(o) ==> !bits[f]
  }

  /** The largest block that fits; a single frame is taken whatever its bit says. */
  lemma {:induction false} RegionOrderIsLargest(bits: seq<bool>, limit: nat, frame: nat, end: nat, top: nat)
    requires limit <= |bits|
    ensures var o := RegionOrder(bits, limit, frame, end, top);
            && (o > 0 ==> BlockFits(bits, limit, frame, end, o))
            && forall k: nat :: o < k <= top ==> !BlockFits(bits, limit, frame, end, k)
  {
    if top > 0 {
      AlignedIsMultiple(frame, top);
      RegionOrderIsLargest(bits, limit, frame, end, top - 1);
    }
  }

  /** Adding a region marks its frames used and puts blocks on its own node's lists only. */
  lemma {:induction false} AddRegionMeans(lists: Lists, bits: seq<bool>, limit: nat, frame: nat, end: nat, node: nat)
    requires node < MAX_NODES && frame <= end <= |bits| && limit <= |bits|
    ensures var r := AddRegion(lists, bits, limit, frame, end, node);
            && (forall f :: 0 <= f < |bits| ==> (r.bits[f] <==> bits[f] || frame <= f < end))
            && (forall n: nat, o: nat :: n < MAX_NODES && o <= MAX_ORDER && n != node ==>
                  r.lists[Slot(n, o)] == lists[Slot(n, o)])
    decreases end - frame
  {
    hide Slot;
    if frame < end {
      var o := RegionOrder(bits, limit, frame, end, MAX_ORDER);
      RegionOrderFits(bits, limit, frame, end, MAX_ORDER);
      forall n: nat, p: nat | n < MAX_NODES && p <= MAX_ORDER && n != node
        ensures Push(lists, node, frame, o)[Slot(n, p)] == lists[Slot(n, p)]
      {
        SlotsDiffer(node, o, n, p);
      }
      var lists1, bits1 := Push(lists, node, frame, o), MarkUsed(bits, frame, Pow2(o));
      AddRegionMeans(lists1, bits1, limit, frame + Pow2(o), end, node);
      var rest := AddRegion(lists1, bits1, limit, frame + Pow2(o), end, node);
      assert AddRegion(lists, bits, limit, frame, end, node) == rest.(pushes := rest.pushes + 1);
      hide AddRegion, MarkUsed;
      forall f | 0 <= f < |bits| ensures rest.bits[f] <==> bits[f] || frame <= f < end {
        assert bits1[f] <==> bits[f] || frame <= f < frame + Pow2(o);
      }
    }
  }
}
