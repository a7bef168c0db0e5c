/** The physical frame allocator: single frames come from the bitmap, larger blocks from the buddy lists. */
module FrameAllocators {
  import opened Layout
  import opened Arith
  import opened FrameBitmaps
  import opened BuddySpec
  import opened Buddy

  const MAX_BITMAP_WORDS: nat := 65536
  const MAX_BUDDY_BLOCKS: nat := 8192
  const KERNEL_FRAMES: nat := 4096

  datatype MemoryKind = Usable | Reserved | AcpiReclaimable | AcpiNvs | BadMemory | BootloaderReclaimable | Unknown
  datatype MemoryRegion = MemoryRegion(start: nat, length: nat, kind: MemoryKind)

  predicate Allocatable(kind: MemoryKind): (r: bool)
    ensures r <==> !(kind.Reserved? || kind.AcpiNvs? || kind.BadMemory? || kind.Unknown?)
  {
    kind.Usable? || kind.BootloaderReclaimable? || kind.AcpiReclaimable?
  }

  /** Frame `f` lies in the whole pages of an allocatable region. */
  predicate InRegion(r: MemoryRegion, f: nat) {
    Allocatable(r.kind) && r.start / PAGE_SIZE <= f < r.start / PAGE_SIZE + r.length / PAGE_SIZE
  }

  /** The largest end address of the memory map; 256 MiB when it is empty. */
  function MaxEnd(memoryMap: seq<MemoryRegion>): (end: nat)
    ensures forall i :: 0 <= i < |memoryMap| ==> memoryMap[i].start + memoryMap[i].length <= end
    ensures memoryMap != [] ==> exists i :: 0 <= i < |memoryMap| && memoryMap[i].start + memoryMap[i].length == end
  {
    if memoryMap == [] then 256 * 1024 * 1024
    else
      var last := memoryMap[|memoryMap| - 1];
      if |memoryMap| == 1 then last.start + last.length
      else Max(MaxEnd(memoryMap[..|memoryMap| - 1]), last.start + last.length)
  }

  /** The number of frames the bitmap tracks: whole words, at most 65536 of them. */
  function TrackedFrames(memoryMap: seq<MemoryRegion>): (n: nat)
    ensures n % WORD_BITS == 0 && n <= WORD_BITS * MAX_BITMAP_WORDS
    ensures n == WORD_BITS * MAX_BITMAP_WORDS || MaxEnd(memoryMap) <= n * PAGE_SIZE
  {
    Min((AlignUp(MaxEnd(memoryMap)) / PAGE_SIZE + 63) / WORD_BITS, MAX_BITMAP_WORDS) * WORD_BITS
  }

  ghost predicate IsLeast(f: nat, s: set<nat>) {
    f in s && forall g :: g in s ==> f <= g
  }

  class FrameAllocator {
    const bitmap: FrameBitmap
    const buddy: BuddyAllocator
    const bits: array<Word>

    ghost predicate Valid()
      reads this, bitmap, bitmap.words, buddy
    {
      && bitmap.words == bits && bitmap.Valid() && buddy.Valid()
      && bitmap.frameCount == WORD_BITS * bits.Length
      && forall slot :: 0 <= slot < SLOTS ==> buddy.Contents()[slot] == []
    }

    /** The free frames. */
    ghost function Free(): (s: set<nat>)
      requires bitmap.words == bits && bitmap.Valid()
      reads this, bitmap, bits
      ensures forall f :: f in s <==> 0 <= f < bitmap.frameCount && !bitmap.Used()[f]
    {
      set f: nat | f < bitmap.frameCount && !bitmap.Used()[f]
    }

    ghost function Repr(): set<object>
      reads this
    {
      {this, bitmap, bits, buddy}
    }

    /** `FrameBitmap::reserve`. */
    static method Mark(bitmap: FrameBitmap, start: nat, end: nat, used: bool)
      requires bitmap.Valid() && start <= end <= |bitmap.Used()|
      modifies bitmap.words
      ensures bitmap.Valid() && |bitmap.Used()| == old(|bitmap.Used()|)
      ensures forall f :: 0 <= f < |bitmap.Used()| ==>
                bitmap.Used()[f] == if start <= f < end then used else old(bitmap.Used())[f]
    {
      for frame := start to end
        invariant bitmap.Valid() && |bitmap.Used()| == old(|bitmap.Used()|)
        invariant forall f :: 0 <= f < |bitmap.Used()| ==>
                    bitmap.Used()[f] == if start <= f < frame then used else old(bitmap.Used())[f]
      {
        bitmap.Set(frame, used);
      }
    }

    /**
     * The kernel's frames are reserved before the regions are released, so the reservation leaves no trace:
     * a frame starts out free exactly when an allocatable region covers it.
     */
    constructor (memoryMap: seq<MemoryRegion>, kernelBase: nat)
      requires kernelBase / PAGE_SIZE + KERNEL_FRAMES <= TrackedFrames(memoryMap)
      ensures Valid() && bitmap.frameCount == TrackedFrames(memoryMap) && fresh(Repr())
      ensures forall f :: 0 <= f < bitmap.frameCount ==>
                (f in Free() <==> exists i :: 0 <= i < |memoryMap| && InRegion(memoryMap[i], f))
    {
      hide MaxEnd, InRegion, FrameBitmap.Used, BuddyAllocator.Valid, BuddyAllocator.Contents;
      var frameCount := TrackedFrames(memoryMap);
      var map_ := new FrameBitmap(frameCount / WORD_BITS, frameCount);
      map_.MarkAllUsed();
      Mark(map_, kernelBase / PAGE_SIZE, kernelBase / PAGE_SIZE + KERNEL_FRAMES, true);
      for i := 0 to |memoryMap|
        invariant map_.Valid() && fresh(map_.words) && fresh(map_) && |map_.Used()| == frameCount
        invariant forall f :: 0 <= f < frameCount ==>
                    (!map_.Used()[f] <==> exists k :: 0 <= k < i && InRegion(memoryMap[k], f))
      {
        Release(map_, memoryMap, i);
      }
      var lists := new BuddyAllocator(MAX_BUDDY_BLOCKS);
      bitmap := map_;
      buddy := lists;
      bits := map_.words;
    }

    /** Free the frames of region `i`, cut off at the end of the bitmap. */
    static method Release(bitmap: FrameBitmap, memoryMap: seq<MemoryRegion>, i: nat)
      requires i < |memoryMap| && bitmap.Valid() && bitmap.frameCount == |bitmap.Used()|
      modifies bitmap.words
      ensures bitmap.Valid() && |bitmap.Used()| == old(|bitmap.Used()|)
      ensures forall f :: 0 <= f < |bitmap.Used()| ==>
                bitmap.Used()[f] == (old(bitmap.Used())[f] && !InRegion(memoryMap[i], f))
    {
      var region := memoryMap[i];
      if !Allocatable(region.kind) {
        return;
      }
      var start := region.start / PAGE_SIZE;
      if start >= bitmap.frameCount {
        return;
      }
      var end := Min(start + region.length / PAGE_SIZE, bitmap.frameCount);
      Mark(bitmap, start, end, false);
    }

    method AllocOne(node: nat) returns (r: Option<nat>)
      requires Valid()
      modifies Repr()
      ensures Valid() && bitmap.words == old(bitmap.words)
      ensures r.None? <==> old(Free()) == {}
      ensures r.Some? ==> IsLeast(r.value, old(Free()))
      ensures Free() == if r.Some? then old(Free()) - {r.value} else {}
    {
      r := bitmap.FindFree();
      if r.Some? {
        bitmap.Set(r.value, true);
        return;
      }
      r := AllocOrder(0, node);
    }

    /** No region is ever added to the buddy lists, so a request for more than one frame always fails. */
    method AllocOrder(order: nat, node: nat) returns (r: Option<nat>)
      requires Valid()
      modifies Repr()
      ensures Valid()
      ensures order > 0 ==> r.None? && Free() == old(Free())
      ensures order == 0 ==> (r.None? <==> old(Free()) == {})
      ensures order == 0 && r.Some? ==> IsLeast(r.value, old(Free()))
      ensures order == 0 ==> Free() == if r.Some? then old(Free()) - {r.value} else {}
    {
      if order == 0 {
        r := bitmap.FindFree();
        if r.Some? {
          bitmap.Set(r.value, true);
          return;
        }
      }
      var ok, frame := buddy.Alloc(bitmap, order, Min(node, MAX_NODES - 1));
      assert ok && frame == None;
      r := frame;
    }

    /** Only single frames are ever handed out, so only those come back. */
    method FreeFrame(frame: nat)
      requires Valid() && frame < bitmap.frameCount
      modifies bits
      ensures Valid() && Free() == old(Free()) + {frame}
    {
      bitmap.Set(frame, false);
    }
  }

  // ---------------------------------------------------------------- runs

  datatype Event = Allocated(frame: nat) | OutOfFrames | Freed(frame: nat)

  /** The free set after one event that the allocator can produce. */
  ghost predicate StepOk(free: set<nat>, e: Event, free': set<nat>) {
    match e
    case Allocated(f) => IsLeast(f, free) && free' == free - {f}
    case OutOfFrames => free == {} && free' == {}
    case Freed(f) => free' == free + {f}
  }

  /** `free[k]` is the free set before event k. */
  ghost predicate IsTrace(events: seq<Event>, free: seq<set<nat>>) {
    |free| == |events| + 1 && forall k :: 0 <= k < |events| ==> StepOk(free[k], events[k], free[k + 1])
  }

  datatype Op = TakeOne(node: nat) | GiveBack(frame: nat)

  /** The event an operation gives rise to. */
  predicate Produces(op: Op, e: Event) {
    match op
    case TakeOne(_) => !e.Freed?
    case GiveBack(f) => e == Freed(f)
  }

  /** A run of the allocator is a trace: it hands out the least free frame, never one that is out. */
  method Run(frames: FrameAllocator, ops: seq<Op>) returns (events: seq<Event>, ghost free: seq<set<nat>>)
    requires frames.Valid() && forall k :: 0 <= k < |ops| && ops[k].GiveBack? ==>
               ops[k].frame < frames.bitmap.frameCount
    modifies frames.Repr()
    ensures frames.Valid() && |events| == |ops| && IsTrace(events, free)
    ensures free[0] == old(frames.Free()) && free[|ops|] == frames.Free()
    ensures forall k :: 0 <= k < |ops| ==> Produces(ops[k], events[k])
    ensures forall i: nat, j: nat, f :: i < j < |ops| && events[i] == Allocated(f) && events[j] == Allocated(f) ==>
              FreedBetween(events, i, j, f)
  {
    hide BuddyAllocator.Valid, BuddyAllocator.Contents, FrameBitmap.Used, StepOk, IsLeast;
    events, free := [], [frames.Free()];
    for n := 0 to |ops|
      invariant frames.Valid() && |events| == n && IsTrace(events, free)
      invariant free[0] == old(frames.Free()) && free[n] == frames.Free()
      invariant forall k :: 0 <= k < n ==> Produces(ops[k], events[k])
    {
      var e := Apply(frames, ops[n]);
      events, free := events + [e], free + [frames.Free()];
    }
    forall i: nat, j: nat, f | i < j < |ops| && events[i] == Allocated(f) && events[j] == Allocated(f)
      ensures FreedBetween(events, i, j, f)
    {
      NoDoubleHandout(events, free, i, j, f);
    }
  }

  method Apply(frames: FrameAllocator, op: Op) returns (e: Event)
    requires frames.Valid() && (op.GiveBack? ==> op.frame < frames.bitmap.frameCount)
    modifies frames.Repr()
    ensures frames.Valid() && Produces(op, e) && StepOk(old(frames.Free()), e, frames.Free())
  {
    hide BuddyAllocator.Valid, BuddyAllocator.Contents, FrameBitmap.Used, IsLeast;
    match op
    case TakeOne(node) =>
      var frame := frames.AllocOne(node);
      e := if frame.Some? then Allocated(frame.value) else OutOfFrames;
    case GiveBack(frame) =>
      frames.FreeFrame(frame);
      e := Freed(frame);
  }

  /** 32 MiB of usable memory and a kernel at 1 MiB: the kernel's own first frame starts out free. */
  method KernelReservationExample() returns (frames: FrameAllocator)
    ensures frames.Valid() && 0x10_0000 / PAGE_SIZE in frames.Free()
  {
    var memoryMap := [MemoryRegion(0, 0x200_0000, Usable)];
    assert MaxEnd(memoryMap) == 0x200_0000;
    assert TrackedFrames(memoryMap) == 8192;
    frames := new FrameAllocator(memoryMap, 0x10_0000);
    assert InRegion(memoryMap[0], 256);
  }

  ghost predicate FreedBetween(events: seq<Event>, i: nat, j: nat, f: nat) {
    exists k :: i < k < j < |events| && events[k] == Freed(f)
  }

  /** Between two allocations of the same frame there is a free of it. */
  lemma NoDoubleHandout(events: seq<Event>, free: seq<set<nat>>, i: nat, j: nat, f: nat)
    requires IsTrace(events, free) && i < j < |events|
    requires events[i] == Allocated(f) && events[j] == Allocated(f)
    ensures FreedBetween(events, i, j, f)
  {
    if forall k :: i < k < j ==> events[k] != Freed(f) {
      assert StepOk(free[i], events[i], free[i + 1]);
      StaysAllocated(events, free, i + 1, j, f);
      assert StepOk(free[j], events[j], free[j + 1]);
    }
  }

  lemma {:induction false} StaysAllocated(events: seq<Event>, free: seq<set<nat>>, from: nat, to: nat, f: nat)
    requires IsTrace(events, free) && from <= to <= |events| && f !in free[from]
    requires forall k :: from <= k < to ==> events[k] != Freed(f)
    ensures f !in free[to]
  {
    if from < to {
      StaysAllocated(events, free, from, to - 1, f);
      assert StepOk(free[to - 1], events[to - 1], free[to]);
    }
  }
}
