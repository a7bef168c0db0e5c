/** The buddy allocator as the kernel stores it: list heads and an arena of linked free blocks. */
module Buddy {
  import opened Layout
  import opened Arith
  import opened BuddySpec
  import opened FrameBitmaps

  datatype FreeBlock = FreeBlock(frame: nat, order: nat, next: Option<nat>)

  /** One list head per node and order, in row-major order. */
  type Heads = h: seq<Option<nat>> | |h| == SLOTS witness seq(SLOTS, _ => None)

  // ---------------------------------------------------------------- lists in the arena

  /**
   * Links only go to older entries of the same list. `owner` records the list an entry was pushed
   * on. Entries are never reused, so a link can only ever point downwards.
   */
  ghost predicate ArenaOk(heads: Heads, blocks: seq<FreeBlock>, owner: seq<nat>) {
    && |owner| == |blocks|
    && (forall i :: 0 <= i < |blocks| ==> LinkOk(blocks, owner, i))
    && (forall slot :: 0 <= slot < SLOTS ==> HeadOk(heads[slot], blocks, owner, slot))
  }

  ghost predicate LinkOk(blocks: seq<FreeBlock>, owner: seq<nat>, i: nat)
    requires i < |blocks| == |owner|
  {
    && blocks[i].order == owner[i] % ORDERS
    && (blocks[i].next.Some? ==> blocks[i].next.value < i && owner[blocks[i].next.value] == owner[i])
  }

  ghost predicate HeadOk(head: Option<nat>, blocks: seq<FreeBlock>, owner: seq<nat>, slot: nat)
    requires |owner| == |blocks|
  {
    head.Some? ==> head.value < |blocks| && owner[head.value] == slot
  }

  ghost predicate Descending(blocks: seq<FreeBlock>) {
    forall i :: 0 <= i < |blocks| && blocks[i].next.Some? ==> blocks[i].next.value < i
  }

  ghost predicate InArena(blocks: seq<FreeBlock>, head: Option<nat>) {
    head.Some? ==> head.value < |blocks|
  }

  /** The frames on the list that starts at `head`. */
  ghost function Frames(blocks: seq<FreeBlock>, head: Option<nat>): seq<nat>
    requires Descending(blocks) && InArena(blocks, head)
    decreases if head.Some? then head.value + 1 else 0
  {
    if head.None? then [] else [blocks[head.value].frame] + Frames(blocks, blocks[head.value].next)
  }

  ghost function ListsOf(heads: Heads, blocks: seq<FreeBlock>, owner: seq<nat>): Lists
    requires ArenaOk(heads, blocks, owner)
  {
    ArenaDescends(heads, blocks, owner);
    seq(SLOTS, slot requires 0 <= slot < SLOTS => Frames(blocks, heads[slot]))
  }

  /** Entry `p` is on the list that starts at `h`. */
  ghost predicate OnList(blocks: seq<FreeBlock>, h: nat, p: nat)
    requires Descending(blocks) && h < |blocks|
  {
    h == p || (blocks[h].next.Some? && OnList(blocks, blocks[h].next.value, p))
  }

  /** The frames from `h` up to and including `p`. */
  ghost function Upto(blocks: seq<FreeBlock>, h: nat, p: nat): seq<nat>
    requires Descending(blocks) && h < |blocks| && OnList(blocks, h, p)
  {
    if h == p then [blocks[h].frame] else [blocks[h].frame] + Upto(blocks, blocks[h].next.value, p)
  }

  lemma {:induction false} FramesSplit(blocks: seq<FreeBlock>, h: nat, p: nat)
    requires Descending(blocks) && h < |blocks| && OnList(blocks, h, p)
    ensures p < |blocks| && Frames(blocks, Some(h)) == Upto(blocks, h, p) + Frames(blocks, blocks[p].next)
    decreases h
  {
    if h != p {
      FramesSplit(blocks, blocks[h].next.value, p);
    }
  }

  lemma {:induction false} OnListNext(blocks: seq<FreeBlock>, h: nat, p: nat)
    requires Descending(blocks) && h < |blocks| && OnList(blocks, h, p) && p < |blocks| && blocks[p].next.Some?
    ensures var q := blocks[p].next.value;
            OnList(blocks, h, q) && Upto(blocks, h, q) == Upto(blocks, h, p) + [blocks[q].frame]
    decreases h
  {
    var q := blocks[p].next.value;
    if h == p {
      assert OnList(blocks, q, q);
    } else {
      OnListNext(blocks, blocks[h].next.value, p);
      OnListBelow(blocks, blocks[h].next.value, p);
    }
  }

  lemma {:induction false} OnListBelow(blocks: seq<FreeBlock>, h: nat, p: nat)
    requires Descending(blocks) && h < |blocks| && OnList(blocks, h, p)
    ensures p <= h
    decreases h
  {
    if h != p {
      OnListBelow(blocks, blocks[h].next.value, p);
    }
  }

  /** Redirecting the link of `p` keeps the list up to `p` and replaces what follows. */
  lemma {:induction false} Relink(blocks: seq<FreeBlock>, h: nat, p: nat, next: Option<nat>)
    requires Descending(blocks) && h < |blocks| && OnList(blocks, h, p) && p < |blocks|
    requires next.Some? ==> next.value < p
    ensures var blocks' := blocks[p := blocks[p].(next := next)];
            Descending(blocks') && Frames(blocks', Some(h)) == Upto(blocks, h, p) + Frames(blocks, next)
    decreases h
  {
    var blocks' := blocks[p := blocks[p].(next := next)];
    if h == p {
      FramesBelow(blocks, blocks', next, p);
    } else {
      Relink(blocks, blocks[h].next.value, p, next);
    }
  }

  /** A list that starts below `p` does not see a change at `p`. */
  lemma {:induction false} FramesBelow(blocks: seq<FreeBlock>, blocks': seq<FreeBlock>, head: Option<nat>, p: nat)
    requires Descending(blocks) && Descending(blocks') && p <= |blocks| <= |blocks'|
    requires forall i :: 0 <= i < p ==> blocks[i] == blocks'[i]
    requires head.Some? ==> head.value < p
    ensures Frames(blocks, head) == Frames(blocks', head)
    decreases if head.Some? then head.value + 1 else 0
  {
    if head.Some? {
      FramesBelow(blocks, blocks', blocks[head.value].next, p);
    }
  }

  /** Redirecting the link of an entry leaves every other list alone. */
  lemma {:induction false} RelinkElsewhere(blocks: seq<FreeBlock>, owner: seq<nat>, head: Option<nat>, p: nat,
                                           next: Option<nat>)
    requires |owner| == |blocks| && p < |blocks| && InArena(blocks, head) && Descending(blocks)
    requires forall i :: 0 <= i < |blocks| ==> LinkOk(blocks, owner, i)
    requires next.Some? ==> next.value < p
    requires head.Some? ==> owner[head.value] != owner[p]
    ensures Descending(blocks[p := blocks[p].(next := next)])
    ensures Frames(blocks[p := blocks[p].(next := next)], head) == Frames(blocks, head)
    decreases if head.Some? then head.value + 1 else 0
  {
    if head.Some? {
      assert LinkOk(blocks, owner, head.value);
      RelinkElsewhere(blocks, owner, blocks[head.value].next, p, next);
    }
  }

  lemma ArenaDescends(heads: Heads, blocks: seq<FreeBlock>, owner: seq<nat>)
    requires ArenaOk(heads, blocks, owner)
    ensures Descending(blocks)
    ensures forall slot :: 0 <= slot < SLOTS ==> InArena(blocks, heads[slot])
  {
    forall i | 0 <= i < |blocks| && blocks[i].next.Some? ensures blocks[i].next.value < i {
      assert LinkOk(blocks, owner, i);
    }
    forall slot | 0 <= slot < SLOTS ensures InArena(blocks, heads[slot]) {
      assert HeadOk(heads[slot], blocks, owner, slot);
    }
  }

  lemma PushLists(heads: Heads, blocks: seq<FreeBlock>, owner: seq<nat>, n: nat, frame: nat, o: nat)
    requires ArenaOk(heads, blocks, owner) && n < MAX_NODES && o <= MAX_ORDER
    ensures var slot := Slot(n, o);
            var heads' := heads[slot := Some(|blocks|)];
            var blocks' := blocks + [FreeBlock(frame, o, heads[slot])];
            && ArenaOk(heads', blocks', owner + [slot])
            && ListsOf(heads', blocks', owner + [slot]) == Push(ListsOf(heads, blocks, owner), n, frame, o)
  {
    var slot := Slot(n, o);
    var heads' := heads[slot := Some(|blocks|)];
    var blocks' := blocks + [FreeBlock(frame, o, heads[slot])];
    var owner' := owner + [slot];
    forall i | 0 <= i < |blocks'|
      ensures LinkOk(blocks', owner', i)
    {
      if i < |blocks| { assert LinkOk(blocks, owner, i); } else { assert HeadOk(heads[slot], blocks, owner, slot); }
    }
    forall q | 0 <= q < SLOTS
      ensures HeadOk(heads'[q], blocks', owner', q)
    {
      assert HeadOk(heads[q], blocks, owner, q);
    }
    ArenaDescends(heads, blocks, owner);
    ArenaDescends(heads', blocks', owner');
    forall q | 0 <= q < SLOTS
      ensures Frames(blocks', heads[q]) == Frames(blocks, heads[q])
    {
      FramesBelow(blocks, blocks', heads[q], |blocks|);
    }
  }

  lemma PopLists(heads: Heads, blocks: seq<FreeBlock>, owner: seq<nat>, n: nat, o: nat)
    requires ArenaOk(heads, blocks, owner) && n < MAX_NODES && o <= MAX_ORDER && heads[Slot(n, o)].Some?
    ensures var slot := Slot(n, o);
            var head := heads[slot].value;
            var heads' := heads[slot := blocks[head].next];
            && ListsOf(heads, blocks, owner)[slot] != [] && ListsOf(heads, blocks, owner)[slot][0] == blocks[head].frame
            && ArenaOk(heads', blocks, owner)
            && ListsOf(heads', blocks, owner) == Pop(ListsOf(heads, blocks, owner), n, o)
  {
    var slot := Slot(n, o);
    var head := heads[slot].value;
    assert HeadOk(heads[slot], blocks, owner, slot);
    assert LinkOk(blocks, owner, head);
    var heads' := heads[slot := blocks[head].next];
    forall q | 0 <= q < SLOTS
      ensures HeadOk(heads'[q], blocks, owner, q)
    {
      assert HeadOk(heads[q], blocks, owner, q);
    }
  }

  /** Redirecting entry `p` of a list changes that list only. */
  lemma RelinkLists(heads: Heads, blocks: seq<FreeBlock>, owner: seq<nat>, slot: nat, p: nat, next: Option<nat>)
    requires ArenaOk(heads, blocks, owner) && slot < SLOTS && heads[slot].Some?
    requires p < |blocks| && owner[p] == slot
    requires next.Some? ==> next.value < p && owner[next.value] == slot
    requires Descending(blocks) && heads[slot].value < |blocks| && OnList(blocks, heads[slot].value, p)
    ensures var blocks' := blocks[p := blocks[p].(next := next)];
            && ArenaOk(heads, blocks', owner)
            && ListsOf(heads, blocks', owner)
            == ListsOf(heads, blocks, owner)[slot := Upto(blocks, heads[slot].value, p) + Frames(blocks, next)]
  {
    var blocks' := blocks[p := blocks[p].(next := next)];
    forall i | 0 <= i < |blocks'|
      ensures LinkOk(blocks', owner, i)
    {
      assert LinkOk(blocks, owner, i);
    }
    forall q | 0 <= q < SLOTS
      ensures HeadOk(heads[q], blocks', owner, q)
    {
      assert HeadOk(heads[q], blocks, owner, q);
    }
    var before, after := ListsOf(heads, blocks, owner), ListsOf(heads, blocks', owner);
    forall q | 0 <= q < SLOTS && q != slot
      ensures after[q] == before[q]
    {
      assert HeadOk(heads[q], blocks, owner, q);
      RelinkElsewhere(blocks, owner, heads[q], p, next);
    }
    Relink(blocks, heads[slot].value, p, next);
  }

  lemma {:induction false} WithoutFirst(before: seq<nat>, x: nat, rest: seq<nat>)
    requires x !in before
    ensures Without(before + [x] + rest, x) == before + rest
  {
    if before == [] {
      assert [] + [x] + rest == [x] + rest;
      assert ([x] + rest)[1..] == rest;
      assert [] + rest == rest;
    } else {
      WithoutFirst(before[1..], x, rest);
      assert (before + [x] + rest)[1..] == before[1..] + [x] + rest;
      assert [before[0]] + (before[1..] + rest) == before + rest;
    }
  }

  /** Moving the head of a list on takes its first entry off. */
  lemma PopIsTake(heads: Heads, blocks: seq<FreeBlock>, owner: seq<nat>, n: nat, o: nat)
    requires ArenaOk(heads, blocks, owner) && n < MAX_NODES && o <= MAX_ORDER && heads[Slot(n, o)].Some?
    ensures var head := heads[Slot(n, o)].value;
            && head < |blocks|
            && var heads' := heads[Slot(n, o) := blocks[head].next];
            && ArenaOk(heads', blocks, owner)
            && ListsOf(heads', blocks, owner) == Take(ListsOf(heads, blocks, owner), n, blocks[head].frame, o)
  {
    ArenaDescends(heads, blocks, owner);
    PopLists(heads, blocks, owner, n, o);
  }

  /** Linking the entry before `index` to the one behind it takes `index` off. */
  lemma RelinkIsTake(heads: Heads, blocks: seq<FreeBlock>, owner: seq<nat>, n: nat, o: nat, p: nat, index: nat)
    requires ArenaOk(heads, blocks, owner) && n < MAX_NODES && o <= MAX_ORDER && heads[Slot(n, o)].Some?
             && Descending(blocks)
    requires p < |blocks| && index < |blocks| && blocks[p].next == Some(index) && owner[p] == owner[index] == Slot(n, o)
    requires heads[Slot(n, o)].value < |blocks| && OnList(blocks, heads[Slot(n, o)].value, p)
    requires blocks[index].frame !in Upto(blocks, heads[Slot(n, o)].value, p)
    ensures var blocks' := blocks[p := blocks[p].(next := blocks[index].next)];
            && ArenaOk(heads, blocks', owner)
            && ListsOf(heads, blocks', owner) == Take(ListsOf(heads, blocks, owner), n, blocks[index].frame, o)
  {
    var slot, next := Slot(n, o), blocks[index].next;
    assert LinkOk(blocks, owner, index) && LinkOk(blocks, owner, p);
    hide LinkOk, HeadOk;
    var seen := Upto(blocks, heads[slot].value, p);
    FramesSplit(blocks, heads[slot].value, p);
    assert Frames(blocks, Some(index)) == [blocks[index].frame] + Frames(blocks, next);
    hide Frames, Upto;
    RelinkLists(heads, blocks, owner, slot, p, next);
    WithoutFirst(seen, blocks[index].frame, Frames(blocks, next));
    assert ListsOf(heads, blocks, owner)[slot] == seen + [blocks[index].frame] + Frames(blocks, next);
  }

  class BuddyAllocator {
    var freeLists: Heads
    var blocks: seq<FreeBlock>
    const blockCount: nat
    ghost var owner: seq<nat>

    ghost predicate Valid()
      reads this
    {
      |blocks| <= blockCount && ArenaOk(freeLists, blocks, owner)
    }

    ghost function Contents(): Lists
      requires Valid()
      reads this
    {
      ListsOf(freeLists, blocks, owner)
    }

    constructor (blockCount: nat)
      ensures Valid() && this.blockCount == blockCount && blocks == []
      ensures forall slot :: 0 <= slot < SLOTS ==> Contents()[slot] == []
    {
      freeLists := seq(SLOTS, _ => None);
      blocks := [];
      owner := [];
      this.blockCount := blockCount;
    }

    /** `false` stands for the failed assertion on the exhausted block pool. */
    method PushBlock(node: nat, frame: nat, order: nat) returns (ok: bool)
      requires Valid() && node < MAX_NODES && order <= MAX_ORDER
      modifies this
      ensures Valid() && ok == (old(|blocks|) < blockCount)
      ensures ok ==> Contents() == Push(old(Contents()), node, frame, order) && |blocks| == old(|blocks|) + 1
    {
      ok := |blocks| < blockCount;
      if ok {
        PushLists(freeLists, blocks, owner, node, frame, order);
        var slot := Slot(node, order);
        var index := |blocks|;
        blocks := blocks + [FreeBlock(frame, order, freeLists[slot])];
        freeLists := freeLists[slot := Some(index)];
        owner := owner + [slot];
      }
    }

    /** `prev` and `current` are consecutive entries of the list, and `seen` its frames up to `prev`. */
    ghost predicate Cursor(slot: nat, prev: Option<nat>, current: Option<nat>, seen: seq<nat>)
      requires Valid() && slot < SLOTS && Descending(blocks)
      reads this
    {
      && InArena(blocks, current) && (current.Some? ==> owner[current.value] == slot)
      && match prev
         case None => current == freeLists[slot] && seen == []
         case Some(p) =>
           && p < |blocks| && owner[p] == slot && blocks[p].next == current
           && InArena(blocks, freeLists[slot]) && freeLists[slot].Some?
           && OnList(blocks, freeLists[slot].value, p) && seen == Upto(blocks, freeLists[slot].value, p)
    }

    lemma CursorSplits(slot: nat, prev: Option<nat>, current: Option<nat>, seen: seq<nat>)
      requires Valid() && slot < SLOTS && Descending(blocks) && Cursor(slot, prev, current, seen)
      ensures Contents()[slot] == seen + Frames(blocks, current)
    {
      if prev.Some? {
        FramesSplit(blocks, freeLists[slot].value, prev.value);
      }
    }

    lemma CursorAdvances(slot: nat, prev: Option<nat>, index: nat, seen: seq<nat>)
      requires Valid() && slot < SLOTS && Descending(blocks) && Cursor(slot, prev, Some(index), seen)
      ensures Cursor(slot, Some(index), blocks[index].next, seen + [blocks[index].frame])
    {
      assert LinkOk(blocks, owner, index);
      if prev.Some? {
        OnListNext(blocks, freeLists[slot].value, prev.value);
      } else {
        assert OnList(blocks, index, index);
      }
    }

    /** Take entry `index` off its list; `prev` is the entry before it. */
    method Unlink(node: nat, order: nat, prev: Option<nat>, index: nat, ghost seen: seq<nat>)
      requires Valid() && node < MAX_NODES && order <= MAX_ORDER && Descending(blocks)
      requires Cursor(Slot(node, order), prev, Some(index), seen)
      requires blocks[index].frame !in seen
      modifies this
      ensures Valid() && |blocks| == old(|blocks|)
      ensures Contents() == Take(old(Contents()), node, old(blocks[index]).frame, order)
    {
      hide ArenaOk, ListsOf, Frames, Without;
      if prev.None? {
        PopIsTake(freeLists, blocks, owner, node, order);
        freeLists := freeLists[Slot(node, order) := blocks[index].next];
      } else {
        CursorSplits(Slot(node, order), prev, Some(index), seen);
        RelinkIsTake(freeLists, blocks, owner, node, order, prev.value, index);
        blocks := blocks[prev.value := blocks[prev.value].(next := blocks[index].next)];
      }
    }

    /** The list walk of `take_buddy`. */
    method TakeFromList(node: nat, buddy: nat, order: nat) returns (taken: bool)
      requires Valid() && node < MAX_NODES && order <= MAX_ORDER
      modifies this
      ensures Valid() && |blocks| == old(|blocks|)
      ensures taken <==> buddy in old(Contents())[Slot(node, order)]
      ensures Contents() == if taken then Take(old(Contents()), node, buddy, order) else old(Contents())
    {
      ArenaDescends(freeLists, blocks, owner);
      var slot := Slot(node, order);
      assert HeadOk(freeLists[slot], blocks, owner, slot);
      var prev: Option<nat>, current: Option<nat> := None, freeLists[slot];
      ghost var seen: seq<nat> := [];
      while current.Some?
        invariant unchanged(this) && Valid() && Descending(blocks)
        invariant Cursor(slot, prev, current, seen) && buddy !in seen
        decreases if current.Some? then current.value + 1 else 0
      {
        var index := current.value;
        var block := blocks[index];
        assert LinkOk(blocks, owner, index);
        if block.frame == buddy && block.order == order {
          CursorSplits(slot, prev, current, seen);
          Unlink(node, order, prev, index, seen);
          return true;
        }
        CursorAdvances(slot, prev, index, seen);
        seen := seen + [block.frame];
        prev := Some(index);
        current := block.next;
      }
      CursorSplits(slot, prev, None, seen);
      taken := false;
    }

    method TakeBuddy(bitmap: FrameBitmap, node: nat, buddy: nat, order: nat) returns (taken: bool)
      requires Valid() && bitmap.Valid() && node < MAX_NODES && order <= MAX_ORDER
      modifies this
      ensures Valid() && |blocks| == old(|blocks|)
      ensures taken <==> buddy < bitmap.frameCount && !bitmap.Used()[buddy]
                         && buddy in old(Contents())[Slot(node, order)]
      ensures Contents() == if taken then Take(old(Contents()), node, buddy, order) else old(Contents())
    {
      var free := bitmap.IsFree(buddy);
      if !free {
        return false;
      }
      taken := TakeFromList(node, buddy, order);
    }

    /** One round of splitting: the upper half goes back on a list. */
    method ReleaseHalf(bitmap: FrameBitmap, node: nat, buddy: nat, order: nat) returns (ok: bool)
      requires Valid() && bitmap.Valid() && node < MAX_NODES && order <= MAX_ORDER && buddy < bitmap.frameCount
      modifies this, bitmap.words
      ensures Valid() && bitmap.Valid() && ok == (old(|blocks|) < blockCount)
      ensures bitmap.Used() == old(bitmap.Used())[buddy := false]
      ensures ok ==> Contents() == Push(old(Contents()), node, buddy, order) && |blocks| == old(|blocks|) + 1
    {
      bitmap.Set(buddy, false);
      ok := PushBlock(node, buddy, order);
    }

    /** Split the block at `frame`: the loop shared by both halves of `alloc`. */
    method SplitBlock(bitmap: FrameBitmap, node: nat, frame: nat, have: nat, want: nat) returns (ok: bool)
      requires Valid() && bitmap.Valid() && node < MAX_NODES && want <= have <= MAX_ORDER
      requires frame + Pow2(have) <= bitmap.frameCount
      modifies this, bitmap.words
      ensures Valid() && bitmap.Valid() && |bitmap.Used()| == old(|bitmap.Used()|)
      ensures ok <==> old(|blocks|) + (have - want) <= blockCount
      ensures ok ==> |blocks| == old(|blocks|) + (have - want)
      ensures ok ==> Contents() == Split(old(Contents()), node, frame, have, want)
      ensures ok ==> bitmap.Used() == SplitBits(old(bitmap.Used()), frame, have, want)[frame := true]
    {
      hide Contents, ArenaOk, FrameBitmap.Used, Slot, Push;
      var order := have;
      ghost var lists, bits := Contents(), bitmap.Used();
      while order > want
        invariant want <= order <= have && Valid() && bitmap.Valid() && frame + Pow2(order) <= bitmap.frameCount
        invariant |blocks| == old(|blocks|) + (have - order) && |bitmap.Used()| == |bits|
        invariant Contents() == Split(lists, node, frame, have, order)
        invariant bitmap.Used() == SplitBits(bits, frame, have, order)
      {
        order := order - 1;
        assert Pow2(order + 1) == 2 * Pow2(order);
        ok := ReleaseHalf(bitmap, node, frame + Pow2(order), order);
        if !ok {
          return;
        }
      }
      bitmap.Set(frame, true);
      ok := true;
    }

    /** Serve a request from one node's lists, largest order first. */
    method AllocFrom(bitmap: FrameBitmap, order: nat, node: nat) returns (ok: bool, r: Option<nat>)
      requires Valid() && bitmap.Valid() && node < MAX_NODES && order <= MAX_ORDER
      requires GoodLists(Contents(), bitmap.frameCount)
      modifies this, bitmap.words
      ensures Valid() && bitmap.Valid() && |bitmap.Used()| == old(|bitmap.Used()|)
      ensures var from := Highest(old(Contents()), node, order, MAX_ORDER);
              match from
              case None =>
                ok && r == None && Contents() == old(Contents()) && bitmap.Used() == old(bitmap.Used())
                && |blocks| == old(|blocks|)
              case Some(have) =>
                && (ok <==> old(|blocks|) + (have - order) <= blockCount)
                && (ok ==> |blocks| == old(|blocks|) + (have - order))
                && (ok ==> AllocatesBlock(old(Contents()), old(bitmap.Used()), node, have, order, r, Contents(),
                                          bitmap.Used()))
    {
      ArenaDescends(freeLists, blocks, owner);
      var top := MAX_ORDER + 1;
      while top > order
        invariant order <= top <= MAX_ORDER + 1
        invariant Valid() && bitmap.Valid() && unchanged(this) && unchanged(bitmap.words)
        invariant top <= MAX_ORDER ==>
                    Highest(Contents(), node, order, MAX_ORDER)
                    == if top == 0 then None else Highest(Contents(), node, order, top - 1)
      {
        top := top - 1;
        var slot := Slot(node, top);
        var head := freeLists[slot];
        assert Contents()[slot] == Frames(blocks, head);
        if head.Some? {
          assert HeadOk(head, blocks, owner, slot);
          PopLists(freeLists, blocks, owner, node, top);
          var block := blocks[head.value];
          assert GoodBlock(Contents()[slot][0], top, bitmap.frameCount);
          freeLists := freeLists[slot := block.next];
          ok := SplitBlock(bitmap, node, block.frame, top, order);
          return ok, Some(block.frame);
        }
      }
      ok, r := true, None;
    }

    /** The inner search of `add_region`: the largest aligned, fitting, free block at `frame`. */
    method PickOrder(bitmap: FrameBitmap, frame: nat, end: nat) returns (order: nat)
      requires bitmap.Valid()
      ensures order == RegionOrder(bitmap.Used(), bitmap.frameCount, frame, end, MAX_ORDER)
    {
      order := MAX_ORDER;
      while order > 0
        invariant order <= MAX_ORDER
        invariant RegionOrder(bitmap.Used(), bitmap.frameCount, frame, end, MAX_ORDER)
               == RegionOrder(bitmap.Used(), bitmap.frameCount, frame, end, order)
      {
        var size := Pow2(order);
        var multiple := IsMultiple(frame, order);
        if !multiple || frame + size > end {
          order := order - 1;
          continue;
        }
        var free := IsRangeFree(bitmap, frame, frame + size);
        if free {
          break;
        }
        order := order - 1;
      }
    }

    /** `frame % (1 << order) == 0`. */
    method IsMultiple(frame: nat, order: nat) returns (multiple: bool)
      ensures multiple == AlignedBlock(frame, order)
    {
      AlignedIsMultiple(frame, order);
      multiple := frame % Pow2(order) == 0;
    }

    method IsRangeFree(bitmap: FrameBitmap, from: nat, to: nat) returns (free: bool)
      requires bitmap.Valid() && from < to
      ensures free == RangeFree(bitmap.Used(), bitmap.frameCount, from, to)
    {
      for f := from to to
        invariant f <= bitmap.frameCount || f == from
        invariant forall g :: from <= g < f ==> g < bitmap.frameCount && !bitmap.Used()[g]
      {
        free := bitmap.IsFree(f);
        if !free {
          return;
        }
      }
      free := true;
    }

    method AddRegion(bitmap: FrameBitmap, startFrame: nat, frameCount: nat, node: nat) returns (ok: bool)
      requires Valid() && bitmap.Valid() && startFrame + frameCount <= |bitmap.Used()|
      modifies this, bitmap.words
      ensures Valid() && bitmap.Valid() && |bitmap.Used()| == old(|bitmap.Used()|)
      ensures node >= MAX_NODES ==> ok && Contents() == old(Contents()) && bitmap.Used() == old(bitmap.Used())
                                    && |blocks| == old(|blocks|)
      ensures node < MAX_NODES ==>
                var added := BuddySpec.AddRegion(old(Contents()), old(bitmap.Used()), bitmap.frameCount, startFrame,
                                                 startFrame + frameCount, node);
                && (ok <==> old(|blocks|) + added.pushes <= blockCount)
                && (ok ==> Contents() == added.lists && bitmap.Used() == added.bits
                           && |blocks| == old(|blocks|) + added.pushes)
    {
      if frameCount == 0 || node >= MAX_NODES {
        return true;
      }
      ok := AddBlocks(bitmap, startFrame, startFrame + frameCount, node,
        BuddySpec.AddRegion(Contents(), bitmap.Used(), bitmap.frameCount, startFrame, startFrame + frameCount, node));
    }

    /** The loop of `add_region`; `goal` is the state it must reach. */
    method AddBlocks(bitmap: FrameBitmap, start: nat, end: nat, node: nat, ghost goal: Region) returns (ok: bool)
      requires Valid() && bitmap.Valid() && node < MAX_NODES && start <= end <= |bitmap.Used()|
      requires goal == BuddySpec.AddRegion(Contents(), bitmap.Used(), bitmap.frameCount, start, end, node)
      modifies this, bitmap.words
      ensures Valid() && bitmap.Valid() && |bitmap.Used()| == old(|bitmap.Used()|)
      ensures ok <==> old(|blocks|) + goal.pushes <= blockCount
      ensures ok ==> Contents() == goal.lists && bitmap.Used() == goal.bits && |blocks| == old(|blocks|) + goal.pushes
    {
      hide Contents, ArenaOk, FrameBitmap.Used, RegionOrder, Push, MarkUsed;
      var frame := start;
      ghost var lists, bits, left := Contents(), bitmap.Used(), goal;
      while frame < end
        invariant start <= frame <= end <= |bits| == old(|bitmap.Used()|) && Valid() && bitmap.Valid()
        invariant Contents() == lists && bitmap.Used() == bits
        invariant left == goal.(pushes := left.pushes) && |blocks| + left.pushes == old(|blocks|) + goal.pushes
        invariant left == BuddySpec.AddRegion(lists, bits, bitmap.frameCount, frame, end, node)
      {
        var order := PickOrder(bitmap, frame, end);
        AddRegionRound(lists, bits, bitmap.frameCount, frame, end, node, order, left);
        lists, bits := Push(lists, node, frame, order), MarkUsed(bits, frame, Pow2(order));
        left := left.(pushes := left.pushes - 1);
        ok := ListBlock(bitmap, node, frame, order);
        if !ok {
          return;
        }
        frame := frame + Pow2(order);
      }
      ok := true;
    }

    /** Mark a block's frames used and put it on its list. */
    method ListBlock(bitmap: FrameBitmap, node: nat, frame: nat, order: nat) returns (ok: bool)
      requires Valid() && bitmap.Valid() && node < MAX_NODES && order <= MAX_ORDER
      requires frame + Pow2(order) <= |bitmap.Used()|
      modifies this, bitmap.words
      ensures Valid() && bitmap.Valid() && ok == (old(|blocks|) < blockCount)
      ensures bitmap.Used() == MarkUsed(old(bitmap.Used()), frame, Pow2(order))
      ensures ok ==> Contents() == Push(old(Contents()), node, frame, order) && |blocks| == old(|blocks|) + 1
    {
      for f := frame to frame + Pow2(order)
        invariant Valid() && bitmap.Valid() && unchanged(this)
        invariant bitmap.Used() == MarkUsed(old(bitmap.Used()), frame, f - frame)
      {
        bitmap.Set(f, true);
      }
      ok := PushBlock(node, frame, order);
    }

    method Alloc(bitmap: FrameBitmap, order: nat, node: nat) returns (ok: bool, r: Option<nat>)
      requires Valid() && bitmap.Valid() && node < MAX_NODES
      requires GoodLists(Contents(), bitmap.frameCount)
      modifies this, bitmap.words
      ensures Valid() && bitmap.Valid() && |bitmap.Used()| == old(|bitmap.Used()|)
      ensures var want := Min(order, MAX_ORDER);
              match SourceNode(old(Contents()), want, node)
              case None =>
                ok && r == None && Contents() == old(Contents()) && bitmap.Used() == old(bitmap.Used())
                && |blocks| == old(|blocks|)
              case Some(from) =>
                var have := Highest(old(Contents()), from, want, MAX_ORDER).value;
                && (ok <==> old(|blocks|) + (have - want) <= blockCount)
                && (ok ==> |blocks| == old(|blocks|) + (have - want))
                && (ok ==> AllocatesBlock(old(Contents()), old(bitmap.Used()), from, have, want, r, Contents(),
                                          bitmap.Used()))
    {
      var want := Min(order, MAX_ORDER);
      hide Contents, ArenaOk, FrameBitmap.Used, Highest;
      ok, r := AllocFrom(bitmap, want, node);
      if !ok || r.Some? {
        return;
      }
      for other := 0 to MAX_NODES
        invariant ok && r == None && Valid() && bitmap.Valid()
        invariant Contents() == old(Contents()) && bitmap.Used() == old(bitmap.Used()) && |blocks| == old(|blocks|)
        invariant SourceNode(old(Contents()), want, node) == OtherNode(old(Contents()), want, node, other)
      {
        if other != node {
          ok, r := AllocFrom(bitmap, want, other);
          if !ok || r.Some? {
            return;
          }
        }
      }
    }

    /** `false` also stands for the index past the last list when two order-10 buddies merge. */
    method Free(bitmap: FrameBitmap, frame: nat, order: nat, node: nat) returns (ok: bool)
      requires Valid() && bitmap.Valid() && node < MAX_NODES && frame < bitmap.frameCount
      modifies this, bitmap.words
      ensures Valid() && bitmap.Valid() && |bitmap.Used()| == old(|bitmap.Used()|)
      ensures var (lists, bits, merged) :=
                Merge(old(Contents()), old(bitmap.Used())[frame := false], bitmap.frameCount, node, frame,
                      Min(order, MAX_ORDER));
              && (ok <==> merged.order <= MAX_ORDER && old(|blocks|) < blockCount)
              && (ok ==> |blocks| == old(|blocks|) + 1)
              && (ok ==> Contents() == Push(lists, node, merged.frame, merged.order) && bitmap.Used() == bits)
    {
      bitmap.Set(frame, false);
      var block, level := MergeUp(bitmap, node, frame, Min(order, MAX_ORDER),
        Merge(Contents(), bitmap.Used(), bitmap.frameCount, node, frame, Min(order, MAX_ORDER)));
      if level > MAX_ORDER {
        return false;
      }
      ok := PushBlock(node, block, level);
    }

    /** The loop of `free`; `goal` is the state it must reach. */
    method MergeUp(bitmap: FrameBitmap, node: nat, frame: nat, order: nat, ghost goal: (Lists, seq<bool>, Block))
      returns (block: nat, level: nat)
      requires Valid() && bitmap.Valid() && node < MAX_NODES && frame < bitmap.frameCount && order <= MAX_ORDER
      requires goal == Merge(Contents(), bitmap.Used(), bitmap.frameCount, node, frame, order)
      modifies this, bitmap.words
      ensures Valid() && bitmap.Valid() && |blocks| == old(|blocks|)
      ensures Contents() == goal.0 && bitmap.Used() == goal.1 && Block(block, level) == goal.2
    {
      hide Contents, ArenaOk, FrameBitmap.Used, BuddyOf, Take, Slot, Merge;
      block, level := frame, order;
      while level <= MAX_ORDER
        invariant level <= MAX_ORDER + 1 && block < bitmap.frameCount
        invariant Valid() && bitmap.Valid() && |blocks| == old(|blocks|) && |bitmap.Used()| == old(|bitmap.Used()|)
        invariant goal == Merge(Contents(), bitmap.Used(), bitmap.frameCount, node, block, level)
        decreases MAX_ORDER + 1 - level
      {
        var buddy := BuddyOf(block, level);
        MergeRound(Contents(), bitmap.Used(), bitmap.frameCount, node, block, level);
        if buddy >= bitmap.frameCount {
          break;
        }
        var taken := TakeBuddy(bitmap, node, buddy, level);
        if !taken {
          break;
        }
        block := Min(block, buddy);
        level := level + 1;
        bitmap.Set(block, false);
      }
      MergeRound(Contents(), bitmap.Used(), bitmap.frameCount, node, block, level);
    }
  }

  /** One round of merging: done, or on with the block of both. */
  lemma MergeRound(lists: Lists, bits: seq<bool>, limit: nat, node: nat, frame: nat, order: nat)
    requires node < MAX_NODES && frame < limit <= |bits| && order <= MAX_ORDER + 1
    ensures var buddy := BuddyOf(frame, order);
            Merge(lists, bits, limit, node, frame, order)
            == if order <= MAX_ORDER && buddy < limit && !bits[buddy] && buddy in lists[Slot(node, order)]
               then Merge(Take(lists, node, buddy, order), bits[Min(frame, buddy) := false], limit, node,
                          Min(frame, buddy), order + 1)
               else (lists, bits, Block(frame, order))
  {
    hide BuddyOf, Take;
  }

  lemma AddRegionRound(lists: Lists, bits: seq<bool>, limit: nat, frame: nat, end: nat, node: nat, order: nat,
                       goal: Region)
    requires node < MAX_NODES && frame < end <= |bits| && limit <= |bits|
    requires order == RegionOrder(bits, limit, frame, end, MAX_ORDER)
    requires goal == BuddySpec.AddRegion(lists, bits, limit, frame, end, node)
    ensures frame + Pow2(order) <= end && goal.pushes > 0
    ensures goal.(pushes := goal.pushes - 1)
         == BuddySpec.AddRegion(Push(lists, node, frame, order), MarkUsed(bits, frame, Pow2(order)), limit,
                                frame + Pow2(order), end, node)
  {
    RegionOrderFits(bits, limit, frame, end, MAX_ORDER);
  }

  /** The head block of order `have` leaves its list, is split to `order` and returned. */
  ghost predicate AllocatesBlock(lists: Lists, bits: seq<bool>, node: nat, have: nat, order: nat, r: Option<nat>,
                                 lists': Lists, bits': seq<bool>)
    requires node < MAX_NODES && order <= have <= MAX_ORDER && lists[Slot(node, have)] != []
  {
    var frame := lists[Slot(node, have)][0];
    && r == Some(frame)
    && lists' == Split(Pop(lists, node, have), node, frame, have, order)
    && frame + Pow2(have) <= |bits| && bits' == SplitBits(bits, frame, have, order)[frame := true]
  }
}
