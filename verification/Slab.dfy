/** The kernel heap: twelve size classes with free lists threaded through the free objects themselves. */
module Slab {
  import opened Layout
  import opened Arith
  import opened BuddySpec
  import opened Buddy
  import opened FrameBitmaps
  import opened FrameAllocators
  import opened SlabSpec

  ghost predicate IsPow2(a: nat) {
    exists k: nat :: a == Pow2(k)
  }

  // ---------------------------------------------------------------- placement arithmetic

  lemma {:induction false} NextAligned(x: nat, o: nat)
    requires AlignedBlock(x, o)
    ensures AlignedBlock(x + Pow2(o), o)
  {
    if o > 0 {
      NextAligned(x / 2, o - 1);
      assert (x + Pow2(o)) / 2 == x / 2 + Pow2(o - 1);
    }
  }

  /** An aligned block of at most 2^n bytes does not cross a 2^n boundary. */
  lemma {:induction false} StaysInBlock(x: nat, o: nat, n: nat)
    requires o <= n && AlignedBlock(x, o)
    ensures x % Pow2(n) + Pow2(o) <= Pow2(n)
  {
    if o > 0 {
      assert AlignedBlock(x / 2, o - 1) && x % 2 == 0 && Pow2(o) == 2 * Pow2(o - 1) && Pow2(n) == 2 * Pow2(n - 1);
      hide AlignedBlock, Pow2;
      StaysInBlock(x / 2, o - 1, n - 1);
      ModDouble(x, Pow2(n - 1));
    }
  }

  lemma PageSizeIsPower()
    ensures Pow2(12) == PAGE_SIZE
  {
  }

  lemma StaysInPage(p: nat, class_: nat)
    requires class_ <= 9 && AlignedBlock(p, class_ + 3)
    ensures p % PAGE_SIZE + ClassSize(class_) <= PAGE_SIZE
  {
    hide AlignedBlock;
    PageSizeIsPower();
    StaysInBlock(p, class_ + 3, 12);
  }

  /** Objects on different frames do not overlap. */
  lemma PagesApart(p: nat, n: nat, q: nat, m: nat, hhdm: nat)
    requires Aligned(hhdm) && hhdm <= p && hhdm <= q
    requires p % PAGE_SIZE + n <= PAGE_SIZE && q % PAGE_SIZE + m <= PAGE_SIZE
    requires FrameOf(p, hhdm) != FrameOf(q, hhdm)
    ensures Apart(p, n, q, m)
  {
    assert p / PAGE_SIZE != q / PAGE_SIZE;
  }

  lemma PageAligned(base: nat)
    requires Aligned(base)
    ensures AlignedBlock(base, 12)
  {
    PageSizeIsPower();
    AlignedIsMultiple(base, 12);
  }

  function Quotient(a: nat, b: nat): nat
    requires b > 0
  {
    a / b
  }

  /** `slab_size / object_size`. */
  function SlabCount(i: nat): nat {
    Quotient(PAGE_SIZE, ClassSize(i))
  }

  /** `offset` is that of object `k` in its slab. */
  ghost predicate AtObject(i: nat, k: nat, offset: nat) {
    offset == k * ClassSize(i)
  }

  /** Object `k` ends inside the page, where object `k + 1` would begin. */
  lemma ObjectsPerPage(i: nat, k: nat, offset: nat)
    requires i < CLASSES && k < SlabCount(i) && AtObject(i, k, offset)
    ensures offset + ClassSize(i) <= PAGE_SIZE && AtObject(i, k + 1, offset + ClassSize(i))
  {
    hide Pow2;
    FitsBefore(PAGE_SIZE, ClassSize(i), k);
  }

  /** A page holds at least one object of class i exactly for the classes up to 4096 bytes. */
  lemma ClassFitsPage(i: nat)
    requires i < CLASSES
    ensures SlabCount(i) > 0 <==> i <= 9
  {
    hide Quotient;
    PageSizeIsPower();
    QuotientPositive(PAGE_SIZE, ClassSize(i));
    if i <= 9 {
      Pow2Monotone(i + 3, 12);
    } else {
      assert Pow2(13) == 8192;
      Pow2Monotone(13, i + 3);
    }
  }

  lemma QuotientPositive(a: nat, b: nat)
    requires b > 0
    ensures Quotient(a, b) > 0 <==> b <= a
  {
  }

  /** The objects of a class up to 4096 bytes fill a page. */
  lemma WholePage(i: nat, offset: nat)
    requires i <= 9 && AtObject(i, SlabCount(i), offset)
    ensures offset == PAGE_SIZE
  {
    PageSizeIsPower();
    PowerDivides(i + 3, 12);
  }

  lemma {:induction false} PowerDivides(k: nat, n: nat)
    requires k <= n
    ensures Pow2(n) % Pow2(k) == 0
  {
    if k > 0 {
      PowerDivides(k - 1, n - 1);
      var a, b := Pow2(n - 1), Pow2(k - 1);
      var q := a / b;
      assert a == b * q && 2 * a == 2 * b * q;
      DivModUnique(2 * a, 2 * b, q, 0);
    }
  }

  /** The list holds the objects cut from the first `off` bytes of the page at `base`, the last one first. */
  ghost predicate IsCut(list: seq<nat>, base: nat, off: nat, size: nat) {
    if list == [] then off == 0
    else off >= size && list[0] == base + off - size && IsCut(list[1..], base, off - size, size)
  }

  /** The byte lies in an object of the list. */
  ghost predicate InSome(list: seq<nat>, size: nat, b: nat) {
    exists k :: 0 <= k < |list| && list[k] <= b < list[k] + size
  }

  /** The objects of a list tile a range: they have its size together, lie inside, and each of its bytes is in exactly
    * one of them. */
  ghost predicate Tiles(list: seq<nat>, base: nat, length: nat, size: nat) {
    && |list| * size == length
    && (forall k :: 0 <= k < |list| ==> base <= list[k] && list[k] + size <= base + length)
    && (forall b: nat :: base <= b < base + length ==> InSome(list, size, b))
    && forall j, k :: 0 <= j < k < |list| ==> Apart(list[j], size, list[k], size)
  }

  lemma {:induction false} CutTiles(list: seq<nat>, base: nat, off: nat, size: nat)
    requires IsCut(list, base, off, size)
    ensures Tiles(list, base, off, size)
  {
    if list == [] {
      assert |list| * size == 0;
    } else {
      var rest := list[1..];
      CutTiles(rest, base, off - size, size);
      assert |list| * size == |rest| * size + size;
      assert forall k :: 0 < k < |list| ==> list[k] == rest[k - 1];
      forall b: nat | base <= b < base + off ensures InSome(list, size, b) {
        if b >= list[0] {
          assert list[0] <= b < list[0] + size;
        } else {
          assert InSome(rest, size, b);
          var k :| 0 <= k < |rest| && rest[k] <= b < rest[k] + size;
          assert list[k + 1] <= b < list[k + 1] + size;
        }
      }
    }
  }

  // ---------------------------------------------------------------- the allocator

  /** The whole new page at `base` is free objects of class `i`, which had none; no other list changed. */
  ghost predicate PageAdded(before: Heap, after: Heap, base: nat, i: nat)
    requires i < |before.lists|
  {
    && |after.lists| == |before.lists| && after.lists == before.lists[i := after.lists[i]]
    && Tiles(after.lists[i], base, PAGE_SIZE, ClassSize(i))
    && forall p :: p in after.lists[i] ==> p !in before.objects && p in after.objects && after.objects[p] == Free(i)
  }

  /** A refill took the least free frame and made a page of it. */
  ghost predicate Refilled(before: Heap, free: set<nat>, after: Heap, free': set<nat>, hhdm: nat, i: nat)
    requires i < |before.lists|
  {
    exists f: nat :: IsLeast(f, free) && free' == free - {f} && PageAdded(before, after, hhdm + f * PAGE_SIZE, i)
  }

  /** The free lists after a block `p` of class `i` was handed out: its first object is gone, of a new page if it had
    * none. */
  ghost predicate ListsAfter(lists: seq<seq<nat>>, i: nat, lists': seq<seq<nat>>)
    requires i < |lists|
  {
    && |lists'| == |lists| && lists' == lists[i := lists'[i]]
    && if lists[i] != [] then lists'[i] == lists[i][1..] else (|lists'[i]| + 1) * ClassSize(i) == PAGE_SIZE
  }

  /** The block is back in front of the list of its class. */
  ghost predicate Pushes(lists: seq<seq<nat>>, need: nat, p: nat, lists': seq<seq<nat>>) {
    var i := ClassIndex(need);
    i.Some? && i.value < |lists| && lists' == lists[i.value := [p] + lists[i.value]]
  }

  /** A block of `need` bytes at `p` gave way to a new one: one object is taken, then one is given back. */
  ghost predicate ListsMoved(h: Heap, need: nat, p: nat, size: nat, align: nat, h': Heap) {
    exists middle: Heap :: ListsFor(h, size, align, middle) && Pushes(middle.lists, need, p, h'.lists)
  }

  ghost predicate ListsFor(h: Heap, size: nat, align: nat, h': Heap) {
    var i := ClassIndex(Max(size, align));
    i.Some? && i.value < |h.lists| && ListsAfter(h.lists, i.value, h'.lists)
  }

  /** Every live block of `before` is untouched: same layout, same bytes. */
  ghost predicate LiveKept(before: Heap, after: Heap, but: set<nat>)
    requires AllOk(before.objects)
  {
    forall q :: q in before.objects && before.objects[q].Live? && q !in but ==>
      q in after.objects && after.objects[q] == before.objects[q]
      && SameBytes(before.mem, after.mem, q, Extent(before.objects[q]))
  }

  lemma KeptTrans(a: Heap, b: Heap, c: Heap, but: set<nat>)
    requires AllOk(a.objects) && AllOk(b.objects) && LiveKept(a, b, but) && LiveKept(b, c, but)
    ensures LiveKept(a, c, but)
  {
    forall q | q in a.objects && a.objects[q].Live? && q !in but
      ensures q in c.objects && c.objects[q] == a.objects[q] && SameBytes(a.mem, c.mem, q, Extent(a.objects[q]))
    {
      assert q in b.objects && b.objects[q] == a.objects[q];
      assert SameBytes(a.mem, b.mem, q, Extent(a.objects[q])) && SameBytes(b.mem, c.mem, q, Extent(a.objects[q]));
    }
  }

  lemma PushKeepsLive(h: Heap, p: nat, i: nat)
    requires AllOk(h.objects) && CanFree(h, p, i) && i < |h.heads| && i < |h.lists|
    ensures LiveKept(h, Pushed(h, p, i), {p})
  {
    forall q | q in h.objects && h.objects[q].Live? && q != p
      ensures SameBytes(h.mem, Pushed(h, p, i).mem, q, Extent(h.objects[q]))
    {
      PushKeepsOthers(h, p, i, q);
    }
  }

  /** The objects so far: the ones before, and free ones of class `i` carved from the page at `base` up to `off`. */
  ghost predicate Carved(before: Objects, now: Objects, base: nat, off: nat, i: nat) {
    && (forall q :: q in before ==> q in now && now[q] == before[q])
    && forall q :: q in now && q !in before ==> base <= q && q + ClassSize(i) <= base + off && now[q] == Free(i)
  }

  /** Nothing but free objects of class `i` is new. */
  ghost predicate Grown(before: Objects, now: Objects, i: nat) {
    && (forall q :: q in before ==> q in now && now[q] == before[q])
    && forall q :: q in now && q !in before ==> now[q] == Free(i)
  }

  /** No object of `before` lies on the frame at `base`. */
  ghost predicate OffFrame(before: Objects, frame: nat, hhdm: nat) {
    forall q :: q in before ==> ObjOk(before[q]) && q >= hhdm && FrameOf(q, hhdm) != frame
                                && q % PAGE_SIZE + Extent(before[q]) <= PAGE_SIZE
  }

  lemma NewFrameIsOff(objects: Objects, hhdm: nat, free: set<nat>, frame: nat)
    requires ObjectsOk(objects, hhdm, free) && frame in free
    ensures OffFrame(objects, frame, hhdm)
  {
    hide ClassIndex, AlignedBlock, Pow2, Disjoint;
    forall q | q in objects
      ensures ObjOk(objects[q]) && q >= hhdm && FrameOf(q, hhdm) != frame
              && q % PAGE_SIZE + Extent(objects[q]) <= PAGE_SIZE
    {
      assert Placed(q, ClassOf(objects[q]), hhdm, free);
      StaysInPage(q, ClassOf(objects[q]));
    }
  }

  lemma CarveNext(h: Heap, before: Objects, hhdm: nat, frame: nat, base: nat, off: nat, i: nat)
    requires AllOk(h.objects) && Carved(before, h.objects, base, off, i) && OffFrame(before, frame, hhdm)
    requires Aligned(hhdm) && base == hhdm + frame * PAGE_SIZE && off + ClassSize(i) <= PAGE_SIZE && i < CLASSES
             && ClassSize(i) > 0
    ensures CanFree(h, base + off, i) && base + off !in h.objects && base + off !in before
    ensures FrameOf(base + off, hhdm) == frame
  {
    var p := base + off;
    hide ClassIndex, ClassSize;
    assert p % PAGE_SIZE == off && FrameOf(p, hhdm) == frame;
    forall q | q in h.objects
      ensures q != p && Apart(p, ClassSize(i), q, Extent(h.objects[q]))
    {
      if q in before {
        PagesApart(p, ClassSize(i), q, Extent(before[q]), hhdm);
      }
    }
  }

  /** One frame, the least free one, is gone. */
  ghost predicate TakesFrame(free: set<nat>, free': set<nat>) {
    exists f :: IsLeast(f, free) && free' == free - {f}
  }

  /** The free frames after a request: one fewer when its class has no object left. */
  ghost predicate FramesFor(h: Heap, free: set<nat>, size: nat, align: nat, free': set<nat>) {
    var i := ClassIndex(Max(size, align));
    if i.None? || i.value >= |h.lists| || h.lists[i.value] != [] || free == {} then free' == free
    else TakesFrame(free, free')
  }

  /** A request can be met: its class fits a page and has an object, or a frame for more. */
  ghost predicate CanServe(h: Heap, free: set<nat>, size: nat, align: nat) {
    var i := ClassIndex(Max(size, align));
    i.Some? && i.value <= 9 && i.value < |h.lists| && (h.lists[i.value] != [] || free != {})
  }

  /** A request for 8192 bytes is never met, however many frames are free; nor is one for 16384 or 20000. */
  lemma LargeClassesExample(h: Heap, free: set<nat>)
    ensures !CanServe(h, free, 8192, 8) && ClassIndex(8192) == Some(10)
    ensures !CanServe(h, free, 16384, 8) && ClassIndex(16384) == Some(11)
    ensures !CanServe(h, free, 20000, 8) && ClassIndex(20000) == None
  {
    PageIsLastUsefulClass(8192);
    PageIsLastUsefulClass(16384);
    assert ClassSize(10) == 8192 && ClassSize(11) == 16384;
  }

  /** A class that has free objects hands out the one freed last. */
  ghost predicate FirstOfClass(h: Heap, size: nat, align: nat, p: nat) {
    var i := ClassIndex(Max(size, align));
    i.Some? && i.value < |h.lists| && (h.lists[i.value] != [] ==> p == h.lists[i.value][0])
  }

  class SlabAllocator {
    const phys: FrameAllocator
    const hhdm: nat
    var mem: Memory
    var heads: seq<nat>
    ghost var lists: seq<seq<nat>>
    /** Every block and free object there is. */
    ghost var objects: Objects

    ghost function State(): Heap
      reads this
    {
      Heap(mem, heads, lists, objects)
    }

    ghost predicate Parts()
      reads this, phys, phys.bitmap, phys.bitmap.words, phys.buddy
    {
      phys.Valid() && Aligned(hhdm) && hhdm > 0 && hhdm + phys.bitmap.frameCount * PAGE_SIZE <= U64
    }

    ghost predicate Valid()
      reads this, phys, phys.bitmap, phys.bitmap.words, phys.buddy
    {
      Parts() && HeapOk(State(), hhdm, phys.Free())
    }

    constructor (phys: FrameAllocator, hhdm: nat, mem: Memory)
      requires phys.Valid() && Aligned(hhdm) && hhdm > 0 && hhdm + phys.bitmap.frameCount * PAGE_SIZE <= U64
      ensures Valid() && this.phys == phys && objects == map[]
    {
      this.phys := phys;
      this.hhdm := hhdm;
      this.mem := mem;
      heads := seq(CLASSES, _ => 0);
      lists := seq(CLASSES, _ => []);
      objects := map[];
    }

    /** `SlabCache::free`: thread the object onto its class's list. */
    method CacheFree(i: nat, p: nat)
      requires Valid() && CanFree(State(), p, i) && Placed(p, i, hhdm, phys.Free())
      modifies this
      ensures Valid() && State() == Pushed(old(State()), p, i)
    {
      PushKeeps(State(), hhdm, phys.Free(), p, i);
      mem := StoreWord(mem, p, heads[i]);
      heads := heads[i := p];
      lists := lists[i := [p] + lists[i]];
      objects := objects[p := Free(i)];
    }

    /** `refill`: cut a new frame into objects. Classes above a page get none, and the frame is lost. */
    method Refill(i: nat) returns (ok: bool)
      requires Valid() && i < CLASSES && lists[i] == []
      modifies this, phys.Repr()
      ensures Valid() && LiveKept(old(State()), State(), {})
      ensures ok <==> old(phys.Free()) != {}
      ensures ok ==> (lists[i] != [] <==> i <= 9) && TakesFrame(old(phys.Free()), phys.Free())
      ensures !ok ==> State() == old(State()) && phys.Free() == {}
      ensures Grown(old(objects), objects, i)
      ensures i > 9 ==> State() == old(State())
      ensures ok && i <= 9 ==> Refilled(old(State()), old(phys.Free()), State(), phys.Free(), hhdm, i)
    {
      hide BuddyAllocator.Valid, BuddyAllocator.Contents, FrameBitmap.Used, Linked, ClassIndex, AlignedBlock, IsLeast;
      hide PageAdded;
      ghost var before, free := State(), phys.Free();
      var frame := phys.AllocOne(0);
      if frame.None? {
        return false;
      }
      HeapShrinksFree(before, hhdm, free, phys.Free());
      NewFrameIsOff(objects, hhdm, free, frame.value);
      Carve(i, frame.value);
      ok := true;
    }

    /** The loop of `refill`. */
    method Carve(i: nat, frame: nat)
      requires Valid() && i < CLASSES && lists[i] == [] && frame !in phys.Free() && frame < phys.bitmap.frameCount
      requires OffFrame(objects, frame, hhdm)
      modifies this
      ensures Valid() && LiveKept(old(State()), State(), {})
      ensures lists[i] != [] <==> i <= 9
      ensures Grown(old(objects), objects, i)
      ensures i > 9 ==> State() == old(State())
      ensures i <= 9 ==> PageAdded(old(State()), State(), hhdm + frame * PAGE_SIZE, i)
    {
      hide BuddyAllocator.Valid, BuddyAllocator.Contents, FrameBitmap.Used, HeapOk, ClassIndex, AlignedBlock, Pow2;
      hide Carved, Grown, LiveKept, OffFrame, AllOk, AtObject;
      hide ClassSize, SlabCount, Quotient, Pushed, SameBytes, IsCut, PageAdded;
      var base := hhdm + frame * PAGE_SIZE;
      var size := ClassSize(i);
      var count := SlabCount(i);
      ghost var before := State();
      StartCarving(before, hhdm, phys.Free(), base, i);
      var offset: nat := 0;
      CutNone(base, size);
      for k := 0 to count
        invariant Valid() && LiveKept(before, State(), {}) && Carved(before.objects, objects, base, offset, i)
        invariant |lists| == CLASSES && (k > 0 <==> lists[i] != []) && (k == 0 ==> State() == before)
        invariant AtObject(i, k, offset)
        invariant lists == before.lists[i := lists[i]] && IsCut(lists[i], base, offset, size)
        invariant NewOnes(before.objects, objects, lists[i], i)
        invariant count > 0 ==> AlignedBlock(base + offset, i + 3)
      {
        ObjectsPerPage(i, k, offset);
        CutNext(lists[i], base, offset, size);
        NewNext(before.objects, objects, lists[i], base + offset, i);
        CarveObject(i, frame, offset, before);
        offset := offset + size;
      }
      CarvedGrows(before.objects, objects, base, offset, i);
      if i <= 9 {
        WholePage(i, offset);
        CutTiles(lists[i], base, offset, size);
        PageIsAdded(before, State(), base, i);
      }
    }

    /** One free object at offset `off` of the new page. */
    method CarveObject(i: nat, frame: nat, off: nat, ghost before: Heap)
      requires Valid() && i <= 9 && frame !in phys.Free() && frame < phys.bitmap.frameCount
      requires off + ClassSize(i) <= PAGE_SIZE && AlignedBlock(hhdm + frame * PAGE_SIZE + off, i + 3)
      requires AllOk(before.objects) && OffFrame(before.objects, frame, hhdm) && LiveKept(before, State(), {})
      requires Carved(before.objects, objects, hhdm + frame * PAGE_SIZE, off, i) && |lists| == CLASSES
      modifies this
      ensures Valid() && LiveKept(before, State(), {}) && |lists| == CLASSES == old(|lists|)
      ensures lists == old(lists)[i := [hhdm + frame * PAGE_SIZE + off] + old(lists)[i]]
      ensures objects == old(objects)[hhdm + frame * PAGE_SIZE + off := Free(i)]
      ensures hhdm + frame * PAGE_SIZE + off !in before.objects
      ensures Carved(before.objects, objects, hhdm + frame * PAGE_SIZE, off + ClassSize(i), i)
      ensures AlignedBlock(hhdm + frame * PAGE_SIZE + off + ClassSize(i), i + 3)
    {
      hide BuddyAllocator.Valid, BuddyAllocator.Contents, FrameBitmap.Used, ListOk, ClassIndex, AlignedBlock, Pow2;
      hide Carved, LiveKept, OffFrame, CanFree, Disjoint;
      var p := hhdm + frame * PAGE_SIZE + off;
      assert ClassSize(i) > 0;
      hide ClassSize;
      assert AllOk(objects) && |heads| == CLASSES && |lists| == CLASSES;
      hide HeapOk;
      CarveNext(State(), before.objects, hhdm, frame, hhdm + frame * PAGE_SIZE, off, i);
      CarvedNext(before.objects, objects, hhdm + frame * PAGE_SIZE, off, i);
      ghost var middle := State();
      PushKeepsLive(middle, p, i);
      CacheFree(i, p);
      NewObjectKeepsLive(middle, State(), p);
      KeptTrans(before, middle, State(), {});
      NextAlignedObject(p, i);
    }

    /** `SlabCache::alloc`: pop the list, refilling it first when it is empty; 0 is null. */
    method CacheAlloc(i: nat, ghost size: nat, ghost align: nat) returns (p: nat)
      requires Valid() && ClassIndex(Max(size, align)) == Some(i)
      modifies this, phys.Repr()
      ensures Valid() && LiveKept(old(State()), State(), {})
      ensures p != 0 <==> i <= 9 && (old(lists)[i] != [] || old(phys.Free()) != {})
      ensures p != 0 ==> Handed(old(objects), objects, p, size, align)
      ensures FramesFor(old(State()), old(phys.Free()), size, align, phys.Free())
      ensures p == 0 ==> State() == old(State())
      ensures old(lists)[i] != [] ==> p == old(lists)[i][0]
      ensures p != 0 ==> i < old(|lists|) && ListsAfter(old(lists), i, lists)
    {
      hide BuddyAllocator.Valid, BuddyAllocator.Contents, FrameBitmap.Used, HeapOk, AlignedBlock, Pow2, ClassSize;
      hide Grown, TakesFrame, Refilled;
      ghost var before := State();
      HeapBasics(before, hhdm, phys.Free(), i);
      if heads[i] == 0 {
        var ok := Refill(i);
        HeapBasics(State(), hhdm, phys.Free(), i);
        if !ok {
          return 0;
        }
      }
      if heads[i] == 0 {
        return 0;
      }
      p := heads[i];
      ghost var middle := State();
      FirstTaken(before, middle, old(phys.Free()), phys.Free(), hhdm, i);
      PopKeeps(middle, hhdm, phys.Free(), i, Live(size, align));
      PopKeepsLive(middle, i, Live(size, align));
      heads := heads[i := LoadWord(mem, p)];
      lists := lists[i := lists[i][1..]];
      objects := objects[p := Live(size, align)];
      HandedOut(before.objects, middle.objects, p, i, size, align);
      KeptTrans(before, middle, State(), {});
    }

    method LargeAlloc(size: nat) returns (p: nat)
      requires Valid() && ClassIndex(size).None?
      modifies phys.Repr()
      ensures Valid() && p == 0 && phys.Free() == old(phys.Free())
    {
      hide BuddyAllocator.Valid, BuddyAllocator.Contents, FrameBitmap.Used, HeapOk;
      LargeNeedsPages(size);
      var pages := (size + PAGE_SIZE - 1) / PAGE_SIZE;
      var order := OrderForCount(pages);
      p := 0;
      var frame := phys.AllocOrder(order, 0);
      if frame.Some? {
        assert false;
      }
    }

    /** A block is returned exactly for requests of at most 4096 bytes that find an object or a free frame. */
    method Allocate(size: nat, align: nat) returns (p: nat)
      requires Valid() && IsPow2(align)
      modifies this, phys.Repr()
      ensures Valid() && LiveKept(old(State()), State(), {})
      ensures p != 0 <==> CanServe(old(State()), old(phys.Free()), size, align)
      ensures FramesFor(old(State()), old(phys.Free()), size, align, phys.Free())
      ensures p == 0 ==> State() == old(State())
      ensures p != 0 ==> FirstOfClass(old(State()), size, align, p) && ListsFor(old(State()), size, align, State())
      ensures p != 0 ==> Max(size, align) <= PAGE_SIZE
      ensures p != 0 ==> Handed(old(objects), objects, p, size, align) && p % align == 0 && size <= Extent(objects[p])
    {
      hide BuddyAllocator.Valid, BuddyAllocator.Contents, FrameBitmap.Used, HeapOk, AlignedBlock, Pow2, ClassSize;
      hide LiveKept, IsPow2, ListsAfter;
      var need := Max(size, align);
      PageIsLastUsefulClass(need);
      HeapBasics(State(), hhdm, phys.Free(), 0);
      KeptRefl(State());
      var i := ClassIndex(need);
      if i.Some? {
        HeapBasics(State(), hhdm, phys.Free(), i.value);
        p := CacheAlloc(i.value, size, align);
        if p != 0 {
          HandedFits(State(), hhdm, phys.Free(), p, size, align);
        }
        return;
      }
      p := LargeAlloc(need);
    }

    method Deallocate(p: nat, size: nat, align: nat)
      requires Valid() && p in objects && objects[p] == Live(size, align)
      modifies this
      ensures Valid() && LiveKept(old(State()), State(), {p})
      ensures var i := ClassIndex(Max(size, align)); i.Some? && State() == Pushed(old(State()), p, i.value)
    {
      hide BuddyAllocator.Valid, BuddyAllocator.Contents, FrameBitmap.Used, HeapOk, AlignedBlock, Pow2, ClassSize;
      hide LiveKept, CanFree, Placed;
      LiveCanBeFreed(State(), hhdm, phys.Free(), p);
      var i := ClassIndex(Max(size, align));
      if i.Some? {
        PushKeepsLive(State(), p, i.value);
        CacheFree(i.value, p);
      } else {
        assert false;
      }
    }

    /** The old contents are kept, whether the block stays, moves, or cannot be had. */
    method Reallocate(p: nat, size: nat, align: nat, newSize: nat) returns (r: nat)
      requires Valid() && p in objects && objects[p] == Live(size, align) && IsPow2(align)
      modifies this, phys.Repr()
      ensures Valid() && LiveKept(old(State()), State(), {p})
      ensures r == 0 ==> State() == old(State())
      ensures if newSize <= Max(size, align) then phys.Free() == old(phys.Free())
              else FramesFor(old(State()), old(phys.Free()), newSize, align, phys.Free())
      ensures r != 0 <==> newSize <= Max(size, align) || CanServe(old(State()), old(phys.Free()), newSize, align)
      ensures r != 0 ==> r in objects && objects[r] == Live(newSize, align)
      ensures r != 0 ==> Copied(old(mem), p, mem, r, Min(Max(size, align), newSize))
      ensures r != 0 ==> (r == p <==> newSize <= Max(size, align)) && (r != p ==> p in objects && objects[p].Free?)
      ensures r != 0 && r != p && r in old(objects) ==> old(objects)[r].Free?
      ensures r != 0 ==> LiveSet(State()) == LiveSet(old(State())) - {p} + {r}
      ensures r == p ==> lists == old(lists)
      ensures r != 0 && r != p ==> ListsMoved(old(State()), Max(size, align), p, newSize, align, State())
    {
      hide BuddyAllocator.Valid, BuddyAllocator.Contents, FrameBitmap.Used, HeapOk, AlignedBlock, Pow2, ClassSize;
      hide LiveKept, Placed, ListsMoved;
      var oldSize := Max(size, align);
      ghost var before := State();
      HeapBasics(before, hhdm, phys.Free(), 0);
      KeptRefl(before);
      if newSize <= oldSize {
        ShrinkKeeps(before, hhdm, phys.Free(), p, newSize);
        ShrinkKeepsLive(before, p, newSize);
        objects := objects[p := Live(newSize, align)];
        assert LiveSet(State()) == LiveSet(before) && p in LiveSet(before);
        return p;
      }
      if newSize > 0x7FFF_FFFF_FFFF_FFFF - (align - 1) {
        TooLargeForClass(Max(newSize, align));
        KeptBut(before, before, p);
        return 0;
      }
      r := Grow(p, size, align, newSize);
    }

    /** A larger block, with the old contents. */
    method Grow(p: nat, size: nat, align: nat, newSize: nat) returns (r: nat)
      requires Valid() && p in objects && objects[p] == Live(size, align) && IsPow2(align) && newSize > Max(size, align)
      modifies this, phys.Repr()
      ensures Valid() && LiveKept(old(State()), State(), {p})
      ensures r == 0 ==> State() == old(State())
      ensures FramesFor(old(State()), old(phys.Free()), newSize, align, phys.Free())
      ensures r != 0 <==> CanServe(old(State()), old(phys.Free()), newSize, align)
      ensures r != 0 ==> r in objects && objects[r] == Live(newSize, align) && r != p
                         && p in objects && objects[p].Free?
      ensures r != 0 ==> Copied(old(mem), p, mem, r, Max(size, align))
      ensures r != 0 && r in old(objects) ==> old(objects)[r].Free?
      ensures r != 0 ==> LiveSet(State()) == LiveSet(old(State())) - {p} + {r}
      ensures r != 0 ==> ListsMoved(old(State()), Max(size, align), p, newSize, align, State())
    {
      hide BuddyAllocator.Valid, BuddyAllocator.Contents, FrameBitmap.Used, HeapOk, AlignedBlock, Pow2, ClassSize;
      hide LiveKept, Placed, FramesFor, CanServe, FrameAllocator.Free, ListsFor, Pushes;
      ghost var before := State();
      HeapBasics(before, hhdm, phys.Free(), 0);
      r := Allocate(newSize, align);
      ghost var middle := State();
      HeapBasics(middle, hhdm, phys.Free(), 0);
      KeptBut(before, middle, p);
      if r == 0 {
        return;
      }
      KeptBytes(before, middle, p, {});
      HandedLives(before, middle, r, newSize, align);
      MoveBlock(p, size, align, r);
      assert LiveSet(State()) == LiveSet(middle) - {p};
      CopiedTrans(before.mem, p, middle.mem, p, mem, r, Max(size, align));
      MoveTrans(before, middle, State(), p, r);
    }

    /** A caller writes inside a block it holds. */
    method CallerWrites(p: nat, off: nat, bytes: seq<nat>)
      requires Valid() && p in objects && objects[p].Live? && ObjOk(objects[p]) && off + |bytes| <= Extent(objects[p])
      modifies this`mem
      ensures Valid() && mem == StoreBytes(old(mem), p + off, bytes) && LiveKept(old(State()), State(), {p})
    {
      hide BuddyAllocator.Valid, BuddyAllocator.Contents, FrameBitmap.Used, HeapOk, Extent;
      HeapBasics(State(), hhdm, phys.Free(), 0);
      ghost var mem' := StoreBytes(mem, p + off, bytes);
      forall b: nat
        ensures Load(mem', b)
                == if p + off <= b < p + off + |bytes| then bytes[b - (p + off)] % 256 else Load(mem, b)
      {
        StoreBytesLoads(mem, p + off, bytes, b);
      }
      LiveWriteKeeps(State(), hhdm, phys.Free(), p, mem');
      mem := StoreBytes(mem, p + off, bytes);
    }

    /** Copy the old bytes into the new block and free the old one. */
    method MoveBlock(p: nat, size: nat, align: nat, r: nat)
      requires Valid() && p in objects && objects[p] == Live(size, align) && r in objects && objects[r].Live? && r != p
      requires ObjOk(objects[r]) && Max(size, align) <= Extent(objects[r])
      modifies this
      ensures Valid() && LiveKept(old(State()), State(), {p, r})
      ensures p in objects && objects[p].Free? && objects == old(objects)[p := objects[p]]
      ensures Pushes(old(lists), Max(size, align), p, lists)
      ensures Copied(old(mem), p, mem, r, Max(size, align))
    {
      hide BuddyAllocator.Valid, BuddyAllocator.Contents, FrameBitmap.Used, HeapOk, AlignedBlock, Pow2, ClassSize;
      hide LiveKept, Placed, CopyN, Extent;
      var n := Max(size, align);
      ghost var before := State();
      HeapBasics(before, hhdm, phys.Free(), 0);
      CopyKeeps(before, hhdm, phys.Free(), p, r, n);
      CopyKeepsLive(before, hhdm, phys.Free(), p, r, n);
      mem := CopyN(mem, p, r, n);
      ghost var middle := State();
      CopyCopies(before.mem, p, r, n);
      Deallocate(p, size, align);
      KeptBytes(middle, State(), r, {p});
      CopiedTrans(before.mem, p, middle.mem, r, mem, r, n);
      KeptBoth(before, middle, State(), p, r);
    }
  }

  /** The class had objects, or has those of a new page: taking the first leaves the rest. */
  lemma FirstTaken(before: Heap, middle: Heap, free: set<nat>, free': set<nat>, hhdm: nat, i: nat)
    requires i < |before.lists|
    requires (before.lists[i] != [] && middle == before)
             || (before.lists[i] == [] && Refilled(before, free, middle, free', hhdm, i))
    ensures |middle.lists| == |before.lists|
    ensures middle.lists[i] != [] ==> ListsAfter(before.lists, i, middle.lists[i := middle.lists[i][1..]])
  {
    hide ClassSize, InSome;
  }

  /** The objects of the list are new and free. */
  ghost predicate NewOnes(before: Objects, now: Objects, list: seq<nat>, i: nat) {
    forall p :: p in list ==> p !in before && p in now && now[p] == Free(i)
  }

  lemma NewNext(before: Objects, now: Objects, list: seq<nat>, p: nat, i: nat)
    requires NewOnes(before, now, list, i)
    ensures p !in before ==> NewOnes(before, now[p := Free(i)], [p] + list, i)
  {
  }

  lemma CutNone(base: nat, size: nat)
    ensures IsCut([], base, 0, size)
  {
  }

  lemma CutNext(list: seq<nat>, base: nat, off: nat, size: nat)
    requires IsCut(list, base, off, size)
    ensures IsCut([base + off] + list, base, off + size, size)
  {
    assert ([base + off] + list)[1..] == list;
  }

  lemma PageIsAdded(before: Heap, after: Heap, base: nat, i: nat)
    requires i < |before.lists| == |after.lists| && after.lists == before.lists[i := after.lists[i]]
    requires Tiles(after.lists[i], base, PAGE_SIZE, ClassSize(i))
    requires NewOnes(before.objects, after.objects, after.lists[i], i)
    ensures PageAdded(before, after, base, i)
  {
  }

  lemma LiveCanBeFreed(h: Heap, hhdm: nat, free: set<nat>, p: nat)
    requires HeapOk(h, hhdm, free) && p in h.objects && h.objects[p].Live?
    ensures AllOk(h.objects) && |h.heads| == CLASSES && |h.lists| == CLASSES
    ensures var i := ClassIndex(Max(h.objects[p].size, h.objects[p].align));
            i.Some? && CanFree(h, p, i.value) && Placed(p, i.value, hhdm, free)
  {
    hide ListOk, ClassIndex, AlignedBlock, Pow2, ClassSize;
    var o := h.objects[p];
    assert Placed(p, ClassOf(o), hhdm, free);
    forall q | q in h.objects && q != p ensures Apart(p, Extent(o), q, Extent(h.objects[q])) {}
  }

  lemma ShrinkKeepsLive(h: Heap, p: nat, newSize: nat)
    requires AllOk(h.objects) && p in h.objects && h.objects[p].Live?
    ensures LiveKept(h, h.(objects := h.objects[p := Live(newSize, h.objects[p].align)]), {p})
  {
  }

  lemma KeptBut(h: Heap, h': Heap, p: nat)
    requires AllOk(h.objects) && LiveKept(h, h', {})
    ensures LiveKept(h, h', {p})
  {
  }

  /** A kept live block has its layout and its bytes. */
  lemma KeptBytes(h: Heap, h': Heap, p: nat, but: set<nat>)
    requires AllOk(h.objects) && p in h.objects && h.objects[p].Live? && p !in but && LiveKept(h, h', but)
    ensures p in h'.objects && h'.objects[p] == h.objects[p]
    ensures Max(h.objects[p].size, h.objects[p].align) <= Extent(h.objects[p])
    ensures Copied(h.mem, p, h'.mem, p, Extent(h.objects[p]))
  {
    var n := Extent(h.objects[p]);
    assert Max(h.objects[p].size, h.objects[p].align) <= n;
    hide ClassSize, Extent, ClassIndex;
    assert SameBytes(h.mem, h'.mem, p, n);
    forall k: nat | k < n ensures ByteOf(h'.mem, p, k) == ByteOf(h.mem, p, k) {
      assert Load(h'.mem, p + k) == Load(h.mem, p + k);
    }
  }

  lemma CopiedTrans(a: Memory, p: nat, b: Memory, q: nat, c: Memory, r: nat, n: nat)
    requires exists m :: m >= n && Copied(a, p, b, q, m)
    requires exists m :: m >= n && Copied(b, q, c, r, m)
    ensures Copied(a, p, c, r, n)
  {
    var m :| m >= n && Copied(a, p, b, q, m);
    var l :| l >= n && Copied(b, q, c, r, l);
    forall k: nat | k < n ensures ByteOf(c, r, k) == ByteOf(a, p, k) {
      assert ByteOf(b, q, k) == ByteOf(a, p, k);
    }
  }

  lemma CopyKeepsLive(h: Heap, hhdm: nat, free: set<nat>, src: nat, dst: nat, n: nat)
    requires HeapOk(h, hhdm, free) && dst in h.objects && n <= Extent(h.objects[dst])
    ensures AllOk(h.objects) && LiveKept(h, h.(mem := CopyN(h.mem, src, dst, n)), {dst})
  {
    hide ListOk, Placed, ClassIndex, Pow2, CopyN;
    forall q | q in h.objects && h.objects[q].Live? && q != dst
      ensures SameBytes(h.mem, CopyN(h.mem, src, dst, n), q, Extent(h.objects[q]))
    {
      assert Apart(dst, Extent(h.objects[dst]), q, Extent(h.objects[q]));
      CopyElsewhere(h.mem, src, dst, n, q, Extent(h.objects[q]));
    }
  }

  lemma KeptBoth(a: Heap, b: Heap, c: Heap, p: nat, r: nat)
    requires AllOk(a.objects) && AllOk(b.objects) && LiveKept(a, b, {r}) && LiveKept(b, c, {p})
    ensures LiveKept(a, c, {p, r})
  {
    hide SameBytes;
    forall q | q in a.objects && a.objects[q].Live? && q !in {p, r}
      ensures q in c.objects && c.objects[q] == a.objects[q] && SameBytes(a.mem, c.mem, q, Extent(a.objects[q]))
    {
      assert SameBytes(a.mem, b.mem, q, Extent(a.objects[q])) && SameBytes(b.mem, c.mem, q, Extent(a.objects[q]));
      SameBytesTrans(a.mem, b.mem, c.mem, q, Extent(a.objects[q]));
    }
  }

  lemma SameBytesTrans(a: Memory, b: Memory, c: Memory, p: nat, n: nat)
    requires SameBytes(a, b, p, n) && SameBytes(b, c, p, n)
    ensures SameBytes(a, c, p, n)
  {
  }

  lemma MoveTrans(a: Heap, b: Heap, c: Heap, p: nat, r: nat)
    requires AllOk(a.objects) && AllOk(b.objects) && LiveKept(a, b, {}) && LiveKept(b, c, {p, r})
             && (r in a.objects ==> a.objects[r].Free?)
    ensures LiveKept(a, c, {p})
  {
    hide SameBytes;
    forall q | q in a.objects && a.objects[q].Live? && q != p
      ensures q in c.objects && c.objects[q] == a.objects[q] && SameBytes(a.mem, c.mem, q, Extent(a.objects[q]))
    {
      assert SameBytes(a.mem, b.mem, q, Extent(a.objects[q])) && SameBytes(b.mem, c.mem, q, Extent(a.objects[q]));
      SameBytesTrans(a.mem, b.mem, c.mem, q, Extent(a.objects[q]));
    }
  }

  ghost function LiveSet(h: Heap): set<nat> {
    set p | p in h.objects && h.objects[p].Live?
  }

  /** One block became live, and no other died. */
  lemma HandedLives(before: Heap, after: Heap, p: nat, size: nat, align: nat)
    requires AllOk(before.objects) && LiveKept(before, after, {})
    requires Handed(before.objects, after.objects, p, size, align)
    ensures LiveSet(after) == LiveSet(before) + {p} && p !in LiveSet(before)
  {
    forall q | q in LiveSet(before) ensures q in LiveSet(after) {
      assert after.objects[q] == before.objects[q];
    }
  }

  /** `p`, which was no live block, is now one with that layout, and nothing else became live or dead. */
  ghost predicate Handed(before: Objects, after: Objects, p: nat, size: nat, align: nat) {
    && p in after && after[p] == Live(size, align) && ObjOk(after[p]) && (p in before ==> before[p].Free?)
    && forall q :: q != p && q in after && after[q].Live? ==> q in before && before[q] == after[q]
  }

  lemma HandedOut(before: Objects, middle: Objects, p: nat, i: nat, size: nat, align: nat)
    requires before == middle || Grown(before, middle, i)
    requires p in middle && middle[p].Free? && ObjOk(Live(size, align))
    ensures Handed(before, middle[p := Live(size, align)], p, size, align)
  {
  }

  lemma HeapBasics(h: Heap, hhdm: nat, free: set<nat>, i: nat)
    requires HeapOk(h, hhdm, free) && i < CLASSES
    ensures AllOk(h.objects) && |h.heads| == CLASSES && |h.lists| == CLASSES && LiveKept(h, h, {})
    ensures h.heads[i] == 0 <==> h.lists[i] == []
    ensures i > 9 ==> h.lists[i] == []
    ensures 0 !in h.objects
  {
    assert ListOk(h.mem, h.heads[i], h.lists[i], h.objects, i);
    hide Disjoint, Linked;
    if h.lists[i] != [] {
      assert h.lists[i][0] in h.lists[i];
    }
  }

  lemma KeptRefl(h: Heap)
    requires AllOk(h.objects)
    ensures LiveKept(h, h, {})
  {
  }

  lemma PopKeepsLive(h: Heap, i: nat, o: Obj)
    requires AllOk(h.objects) && i < |h.heads| && i < |h.lists| && h.lists[i] != []
    requires h.heads[i] in h.objects && h.objects[h.heads[i]].Free?
    ensures LiveKept(h, Popped(h, i, o), {})
  {
  }

  /** A handed-out block has its layout's size and alignment. */
  lemma HandedFits(h: Heap, hhdm: nat, free: set<nat>, p: nat, size: nat, align: nat)
    requires HeapOk(h, hhdm, free) && p in h.objects && h.objects[p] == Live(size, align) && ObjOk(h.objects[p])
             && IsPow2(align)
    ensures align > 0 && p % align == 0 && size <= Extent(h.objects[p])
  {
    var o := h.objects[p];
    var k: nat :| align == Pow2(k);
    assert Placed(p, ClassOf(o), hhdm, free);
    if k > ClassOf(o) + 3 {
      Pow2Monotone(ClassOf(o) + 4, k);
    }
    LowerAligned(p, ClassOf(o) + 3, k);
    AlignedIsMultiple(p, k);
  }

  lemma PageIsLastUsefulClass(need: nat)
    ensures need <= PAGE_SIZE <==> ClassIndex(need).Some? && ClassIndex(need).value <= 9
  {
    assert ClassSize(9) == PAGE_SIZE && ClassSize(10) == 8192;
    if need <= PAGE_SIZE {
      var i := ClassIndex(need);
    } else if ClassIndex(need).Some? && ClassIndex(need).value <= 9 {
      Pow2Monotone(ClassIndex(need).value + 3, 12);
    }
  }

  lemma TooLargeForClass(need: nat)
    requires need > 16384
    ensures ClassIndex(need).None?
  {
    assert Pow2(14) == 16384;
    if ClassIndex(need).Some? {
      Pow2Monotone(ClassIndex(need).value + 3, 14);
    }
  }

  lemma LargeNeedsPages(size: nat)
    requires ClassIndex(size).None?
    ensures size > 16384 && (size + PAGE_SIZE - 1) / PAGE_SIZE >= 5
  {
    assert ClassSize(11) == 16384;
  }

  /** `order_for_count`: the least order whose block holds that many pages, at most 10. */
  method OrderForCount(pages: nat) returns (order: nat)
    ensures order <= MAX_ORDER && (order < MAX_ORDER ==> pages <= Pow2(order))
            && (order > 0 ==> Pow2(order - 1) < Max(pages, 1))
  {
    order := 0;
    while Pow2(order) < Max(pages, 1) && order < MAX_ORDER
      invariant order <= MAX_ORDER && (order > 0 ==> Pow2(order - 1) < Max(pages, 1))
    {
      order := order + 1;
    }
  }

  lemma StartCarving(h: Heap, hhdm: nat, free: set<nat>, base: nat, i: nat)
    requires HeapOk(h, hhdm, free) && Aligned(base) && i < CLASSES
    ensures AllOk(h.objects) && |h.lists| == CLASSES && LiveKept(h, h, {}) && Carved(h.objects, h.objects, base, 0, i)
            && AtObject(i, 0, 0)
    ensures SlabCount(i) > 0 <==> i <= 9
    ensures i <= 9 ==> AlignedBlock(base, i + 3)
  {
    ClassFitsPage(i);
    PageAligned(base);
    hide Pow2, AlignedBlock, ListOk, Disjoint;
    if i <= 9 {
      LowerAligned(base, 12, i + 3);
    }
  }

  lemma CarvedGrows(before: Objects, now: Objects, base: nat, off: nat, i: nat)
    requires Carved(before, now, base, off, i)
    ensures Grown(before, now, i)
  {
  }

  lemma CarvedNext(before: Objects, now: Objects, base: nat, off: nat, i: nat)
    requires Carved(before, now, base, off, i) && base + off !in now
    ensures Carved(before, now[base + off := Free(i)], base, off + ClassSize(i), i)
  {
  }

  lemma NewObjectKeepsLive(h: Heap, h': Heap, p: nat)
    requires AllOk(h.objects) && LiveKept(h, h', {p}) && p !in h.objects
    ensures LiveKept(h, h', {})
  {
  }

  lemma NextAlignedObject(p: nat, i: nat)
    requires AlignedBlock(p, i + 3)
    ensures AlignedBlock(p + ClassSize(i), i + 3)
  {
    NextAligned(p, i + 3);
  }

  /** Fewer free frames leave every object in place. */
  lemma HeapShrinksFree(h: Heap, hhdm: nat, free: set<nat>, free': set<nat>)
    requires HeapOk(h, hhdm, free) && free' <= free
    ensures HeapOk(h, hhdm, free') && ObjectsOk(h.objects, hhdm, free)
  {
    hide Linked, ClassIndex, AlignedBlock, Pow2, Disjoint;
  }
}
