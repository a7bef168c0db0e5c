/** Whole runs of heap requests by a caller that writes into its blocks. */
module SlabRuns {
  import opened Layout
  import opened Arith
  import opened BuddySpec
  import opened Buddy
  import opened FrameBitmaps
  import opened FrameAllocators
  import opened SlabSpec
  import opened Slab

  /** A block the caller holds, and the bytes it wrote last, by offset. */
  datatype Held = Held(ptr: nat, size: nat, align: nat, bytes: map<nat, nat>)

  /** A caller's requests; `which` picks one of the blocks it holds. */
  datatype Request =
    | Alloc(size: nat, align: nat)
    | Dealloc(which: nat)
    | Realloc(which: nat, newSize: nat)
    | Write(which: nat, off: nat, data: seq<nat>)

  /** The heap, the free frames, and what the caller holds. */
  datatype View = View(heap: Heap, free: set<nat>, held: seq<Held>)

  // ---------------------------------------------------------------- what a request does

  function Without(held: seq<Held>, k: nat): seq<Held>
    requires k < |held|
  {
    held[..k] + held[k + 1..]
  }

  /** The bytes written, those beyond `size` dropped. */
  function Cut(bytes: map<nat, nat>, size: nat): map<nat, nat> {
    map k | k in bytes && k < size :: bytes[k]
  }

  /** The bytes known after `data` is written at `off`. */
  function Written(bytes: map<nat, nat>, off: nat, data: seq<nat>): map<nat, nat>
    decreases |data|
  {
    if data == [] then bytes else Written(bytes[off := data[0] % 256], off + 1, data[1..])
  }

  /** The caller's blocks after a request that returned `p`; 0 is null. */
  function HeldAfter(held: seq<Held>, request: Request, p: nat): seq<Held> {
    match request
    case Alloc(size, align) => if p == 0 then held else held + [Held(p, size, align, map[])]
    case Dealloc(k) => if k < |held| then Without(held, k) else held
    case Realloc(k, newSize) =>
      if k >= |held| || p == 0 then held
      else Without(held, k) + [Held(p, newSize, held[k].align, Cut(held[k].bytes, newSize))]
    case Write(k, off, data) =>
      if k < |held| && off + |data| <= held[k].size
      then held[k := held[k].(bytes := Written(held[k].bytes, off, data))]
      else held
  }

  /** When a request returns a block. */
  ghost predicate Answers(s: View, request: Request, p: nat) {
    match request
    case Alloc(size, align) => p != 0 <==> CanServe(s.heap, s.free, size, align)
    case Realloc(k, newSize) =>
      k < |s.held| ==>
        var need := Max(s.held[k].size, s.held[k].align);
        && (p != 0 <==> newSize <= need || CanServe(s.heap, s.free, newSize, s.held[k].align))
        && (p != 0 ==> (p == s.held[k].ptr <==> newSize <= need))
    case _ => true
  }

  /** The held blocks are live, with their layouts, no two the same, and read as their caller last wrote them. */
  ghost predicate Holds(h: Heap, held: seq<Held>) {
    && (forall i :: 0 <= i < |held| ==> HoldsAt(h, held[i]))
    && forall i, j :: 0 <= i < j < |held| ==> held[i].ptr != held[j].ptr
  }

  ghost predicate HoldsAt(h: Heap, b: Held) {
    b.ptr in h.objects && h.objects[b.ptr] == Live(b.size, b.align) && IsPow2(b.align) && ReadsAs(h.mem, b)
  }

  ghost predicate ReadsAs(mem: Memory, b: Held) {
    forall k: nat :: k in b.bytes ==> k < b.size && ByteOf(mem, b.ptr, k) == b.bytes[k]
  }

  /** The live blocks after a request that returned `p`. */
  ghost function LiveAfter(s: View, request: Request, p: nat): set<nat> {
    var live := LiveSet(s.heap);
    match request
    case Alloc(_, _) => if p == 0 then live else live + {p}
    case Dealloc(k) => if k < |s.held| then live - {s.held[k].ptr} else live
    case Realloc(k, _) => if k >= |s.held| || p == 0 then live else live - {s.held[k].ptr} + {p}
    case Write(_, _, _) => live
  }

  /** The free frames after a request: at most one is gone, when a class needs more objects. */
  ghost predicate FramesAfter(s: View, request: Request, free': set<nat>) {
    match request
    case Alloc(size, align) => FramesFor(s.heap, s.free, size, align, free')
    case Realloc(k, newSize) =>
      if k < |s.held| && newSize > Max(s.held[k].size, s.held[k].align)
      then FramesFor(s.heap, s.free, newSize, s.held[k].align, free')
      else free' == s.free
    case _ => free' == s.free
  }

  /** Which block an allocation gets, and where a deallocated one goes: free lists are last in, first out, and a list
    * that has run out is filled with a whole page. */
  ghost predicate Reuses(s: View, request: Request, p: nat, s': View) {
    match request
    case Alloc(size, align) =>
      if p == 0 then s'.heap == s.heap
      else p !in LiveSet(s.heap) && FirstOfClass(s.heap, size, align, p) && ListsFor(s.heap, size, align, s'.heap)
    case Dealloc(k) => if k < |s.held| then Returned(s.heap, s.held[k], s'.heap) else s'.heap == s.heap
    case Realloc(k, newSize) =>
      if k >= |s.held| || p == 0 then s'.heap == s.heap
      else
        var b := s.held[k];
        if p == b.ptr then s'.heap.lists == s.heap.lists
        else p !in LiveSet(s.heap) && ListsMoved(s.heap, Max(b.size, b.align), b.ptr, newSize, b.align, s'.heap)
    case Write(_, _, _) => s'.heap.lists == s.heap.lists
  }

  /** The block is a free object of its class, at the front of the list. */
  ghost predicate Returned(h: Heap, b: Held, h': Heap) {
    var i := ClassIndex(Max(b.size, b.align));
    i.Some? && i.value < |h.heads| && i.value < |h.lists| && h' == Pushed(h, b.ptr, i.value)
  }

  ghost predicate Steps(s: View, request: Request, p: nat, s': View) {
    && Answers(s, request, p) && s'.held == HeldAfter(s.held, request, p)
    && LiveSet(s'.heap) == LiveAfter(s, request, p) && FramesAfter(s, request, s'.free) && Reuses(s, request, p, s')
  }

  ghost predicate IsRun(trace: seq<View>, requests: seq<Request>, results: seq<nat>) {
    && |trace| == |requests| + 1 == |results| + 1
    && forall k: nat :: k < |requests| ==> Steps(trace[k], requests[k], results[k], trace[k + 1])
  }

  /** Held blocks never overlap and are as large and as aligned as asked. */
  lemma HeldBlocksAreGood(h: Heap, hhdm: nat, free: set<nat>, held: seq<Held>, i: nat, j: nat)
    requires HeapOk(h, hhdm, free) && Holds(h, held) && i < |held| && j < |held| && i != j
    ensures held[i].align > 0 && held[i].ptr % held[i].align == 0
    ensures Apart(held[i].ptr, held[i].size, held[j].ptr, held[j].size)
  {
    assert HoldsAt(h, held[i]) && HoldsAt(h, held[j]);
    hide ListOk, Placed, AlignedBlock, ClassIndex, Pow2, ReadsAs;
    HandedFits(h, hhdm, free, held[i].ptr, held[i].size, held[i].align);
    HandedFits(h, hhdm, free, held[j].ptr, held[j].size, held[j].align);
    var p, q := held[i].ptr, held[j].ptr;
    assert Apart(p, Extent(h.objects[p]), q, Extent(h.objects[q]));
  }

  ghost function Pointers(held: seq<Held>): set<nat> {
    set i | 0 <= i < |held| :: held[i].ptr
  }

  lemma PointersAfter(held: seq<Held>, request: Request, p: nat)
    requires forall i, j :: 0 <= i < j < |held| ==> held[i].ptr != held[j].ptr
    ensures var ptrs := Pointers(HeldAfter(held, request, p));
            match request
            case Alloc(_, _) => ptrs == if p == 0 then Pointers(held) else Pointers(held) + {p}
            case Dealloc(k) => ptrs == if k < |held| then Pointers(held) - {held[k].ptr} else Pointers(held)
            case Realloc(k, _) =>
              ptrs == if k >= |held| || p == 0 then Pointers(held) else Pointers(held) - {held[k].ptr} + {p}
            case Write(_, _, _) => ptrs == Pointers(held)
  {
    hide Cut, Written;
    var held' := HeldAfter(held, request, p);
    match request {
      case Alloc(size, align) => if p != 0 { PointersPlus(held, Held(p, size, align, map[])); }
      case Dealloc(k) => if k < |held| { PointersWithout(held, k); }
      case Realloc(k, newSize) =>
        if k < |held| && p != 0 {
          PointersWithout(held, k);
          PointersPlus(Without(held, k), held'[|held'| - 1]);
        }
      case Write(k, off, data) =>
        if held' != held {
          forall i | 0 <= i < |held| ensures held'[i].ptr == held[i].ptr {}
        }
    }
  }

  lemma PointersPlus(held: seq<Held>, b: Held)
    ensures Pointers(held + [b]) == Pointers(held) + {b.ptr}
  {
    var more := held + [b];
    forall q | q in Pointers(held) + {b.ptr} ensures q in Pointers(more) {
      if q == b.ptr {
        assert more[|held|].ptr == q;
      } else {
        var i :| 0 <= i < |held| && held[i].ptr == q;
        assert more[i].ptr == q;
      }
    }
  }

  lemma PointersWithout(held: seq<Held>, k: nat)
    requires k < |held| && forall i, j :: 0 <= i < j < |held| ==> held[i].ptr != held[j].ptr
    ensures Pointers(Without(held, k)) == Pointers(held) - {held[k].ptr}
  {
    var rest := Without(held, k);
    forall q | q in Pointers(rest) ensures q in Pointers(held) && q != held[k].ptr {
      var i :| 0 <= i < |rest| && rest[i].ptr == q;
      assert rest[i] == held[if i < k then i else i + 1];
    }
    forall q | q in Pointers(held) && q != held[k].ptr ensures q in Pointers(rest) {
      var i :| 0 <= i < |held| && held[i].ptr == q;
      assert rest[if i < k then i else i - 1] == held[i];
    }
  }

  /** In every state of every run the live blocks are those live at the start, which nobody touches, and the held ones:
    * nothing is leaked and nothing is kept after it was given back. */
  lemma {:induction false} LiveAreHeld(trace: seq<View>, requests: seq<Request>, results: seq<nat>, n: nat)
    requires IsRun(trace, requests, results) && n <= |requests| && trace[0].held == []
    requires forall k: nat :: k < |trace| ==> Holds(trace[k].heap, trace[k].held)
    ensures LiveSet(trace[n].heap) == LiveSet(trace[0].heap) + Pointers(trace[n].held)
    ensures LiveSet(trace[0].heap) !! Pointers(trace[n].held)
  {
    hide HoldsAt, LiveSet, Answers, FramesAfter, Returned, FirstOfClass;
    if n > 0 {
      LiveAreHeld(trace, requests, results, n - 1);
      var s, request, p := trace[n - 1], requests[n - 1], results[n - 1];
      assert Steps(s, request, p, trace[n - 1 + 1]);
      assert Holds(s.heap, s.held);
      PointersAfter(s.held, request, p);
      hide HeldAfter, Holds;
      assert request.Dealloc? || request.Realloc? ==>
          request.which < |s.held| ==> s.held[request.which].ptr in Pointers(s.held);
    }
  }

  /** Memory that was given back can be had again: after a deallocation, a request of that layout is met, and with the
    * block just given back. */
  lemma FreedComesBack(s: View, hhdm: nat, k: nat, s1: View, p: nat, s2: View)
    requires HeapOk(s.heap, hhdm, s.free) && Holds(s.heap, s.held)
    requires k < |s.held| && Steps(s, Dealloc(k), 0, s1)
    requires Steps(s1, Alloc(s.held[k].size, s.held[k].align), p, s2)
    ensures p == s.held[k].ptr && s2.free == s.free
  {
    assert HoldsAt(s.heap, s.held[k]);
    hide LiveSet, LiveAfter, HoldsAt, ClassIndex, ListOk, AlignedBlock;
    assert Placed(s.held[k].ptr, ClassOf(s.heap.objects[s.held[k].ptr]), hhdm, s.free);
  }

  // ---------------------------------------------------------------- objects are conserved

  /** How many held blocks have a layout of class `i`. */
  ghost function HeldIn(held: seq<Held>, i: nat): nat {
    if held == [] then 0 else HeldIn(held[..|held| - 1], i) + InClass(Need(held[|held| - 1]), i)
  }

  ghost function Need(b: Held): nat { Max(b.size, b.align) }

  ghost function InClass(need: nat, i: nat): nat {
    if ClassIndex(need) == Some(i) then 1 else 0
  }

  lemma HeldInPlus(held: seq<Held>, b: Held, i: nat)
    ensures HeldIn(held + [b], i) == HeldIn(held, i) + InClass(Need(b), i)
  {
    assert (held + [b])[..|held|] == held;
  }

  lemma {:induction false} HeldInWithout(held: seq<Held>, k: nat, i: nat)
    requires k < |held|
    ensures HeldIn(Without(held, k), i) + InClass(Need(held[k]), i) == HeldIn(held, i)
  {
    hide Without;
    var n := |held| - 1;
    WithoutFront(held, k);
    if k < n {
      HeldInWithout(held[..n], k, i);
      HeldInPlus(Without(held[..n], k), held[n], i);
    }
  }

  lemma WithoutFront(held: seq<Held>, k: nat)
    requires k < |held|
    ensures var n := |held| - 1;
            Without(held, k) == if k == n then held[..n] else Without(held[..n], k) + [held[n]]
  {
  }

  lemma {:induction false} HeldInUpdate(held: seq<Held>, k: nat, b: Held, i: nat)
    requires k < |held| && Need(b) == Need(held[k])
    ensures HeldIn(held[k := b], i) == HeldIn(held, i)
  {
    var n := |held| - 1;
    if k == n {
      assert held[k := b][..n] == held[..n];
    } else {
      HeldInUpdate(held[..n], k, b, i);
      assert held[k := b][..n] == held[..n][k := b];
    }
  }

  /** The bytes a request needs a new block for. */
  ghost function NewNeed(s: View, request: Request): Option<nat> {
    match request
    case Alloc(size, align) => Some(Max(size, align))
    case Realloc(k, newSize) =>
      if k < |s.held| && newSize > Need(s.held[k]) then Some(Max(newSize, s.held[k].align)) else None
    case _ => None
  }

  /** The request was met from a new page of class `i`. */
  ghost predicate MakesPage(s: View, request: Request, p: nat, i: nat)
    requires i < |s.heap.lists|
  {
    p != 0 && NewNeed(s, request).Some? && ClassIndex(NewNeed(s, request).value) == Some(i) && s.heap.lists[i] == []
  }

  /** A block that shrinks in place changes its class: it came from its old one and will go to its new one. */
  ghost function Shifted(s: View, request: Request, i: nat): int {
    if request.Realloc? && request.which < |s.held| && request.newSize <= Need(s.held[request.which])
    then var b := s.held[request.which]; InClass(Max(request.newSize, b.align), i) - InClass(Need(b), i)
    else 0
  }

  ghost function ObjectsIn(s: View, i: nat): nat
    requires i < |s.heap.lists|
  {
    |s.heap.lists[i]| + HeldIn(s.held, i)
  }

  lemma StepConservesObjects(s: View, request: Request, p: nat, s': View, i: nat, per: nat)
    requires Steps(s, request, p, s') && i < |s.heap.lists| && per * ClassSize(i) == PAGE_SIZE
    ensures |s'.heap.lists| == |s.heap.lists|
    ensures ObjectsIn(s', i)
            == ObjectsIn(s, i) + (if MakesPage(s, request, p, i) then per else 0) + Shifted(s, request, i)
  {
    hide ClassIndex, ClassSize, LiveAfter, FramesAfter, LiveSet, Cut, Written, FirstOfClass, CanServe, HeldIn;
    match request {
      case Alloc(size, align) =>
        if p != 0 {
          HeldInPlus(s.held, Held(p, size, align, map[]), i);
          TakenFrom(s.heap, size, align, s'.heap, i, per);
        }
      case Dealloc(k) =>
        if k < |s.held| {
          HeldInWithout(s.held, k, i);
        }
      case Realloc(k, newSize) =>
        if k < |s.held| && p != 0 {
          var b := s.held[k];
          HeldInWithout(s.held, k, i);
          HeldInPlus(Without(s.held, k), s'.held[|s'.held| - 1], i);
          if p != b.ptr {
            var middle :| ListsFor(s.heap, newSize, b.align, middle)
                          && Pushes(middle.lists, Need(b), b.ptr, s'.heap.lists);
            TakenFrom(s.heap, newSize, b.align, middle, i, per);
          }
        }
      case Write(k, off, data) =>
        if s'.held != s.held {
          HeldInUpdate(s.held, k, s'.held[k], i);
        }
    }
  }

  lemma TakenFrom(h: Heap, size: nat, align: nat, h': Heap, i: nat, per: nat)
    requires ListsFor(h, size, align, h') && i < |h.lists| && per * ClassSize(i) == PAGE_SIZE
    ensures |h'.lists| == |h.lists|
    ensures |h'.lists[i]| + InClass(Max(size, align), i)
            == |h.lists[i]| + if InClass(Max(size, align), i) == 1 && h.lists[i] == [] then per else 0
  {
    hide ClassIndex, ClassSize;
    if ClassIndex(Max(size, align)) == Some(i) && h.lists[i] == [] {
      PerIsPositive(ClassSize(i), per);
      SameFactor(|h'.lists[i]| + 1, per, ClassSize(i), PAGE_SIZE);
    }
  }

  lemma SameFactor(a: nat, b: nat, n: nat, total: nat)
    requires a * n == total == b * n && n > 0
    ensures a == b
  {
    DivModUnique(total, n, a, 0);
    DivModUnique(total, n, b, 0);
  }

  /** The pages that requests before `n` made for class `i`. */
  ghost function PagesMade(trace: seq<View>, requests: seq<Request>, results: seq<nat>, i: nat, n: nat): nat
    requires n <= |requests| == |results| < |trace|
    requires forall k: nat :: k < |trace| ==> i < |trace[k].heap.lists|
  {
    if n == 0 then 0
    else PagesMade(trace, requests, results, i, n - 1)
         + if MakesPage(trace[n - 1], requests[n - 1], results[n - 1], i) then 1 else 0
  }

  ghost function AllShifted(trace: seq<View>, requests: seq<Request>, i: nat, n: nat): int
    requires n <= |requests| < |trace|
  {
    if n == 0 then 0 else AllShifted(trace, requests, i, n - 1) + Shifted(trace[n - 1], requests[n - 1], i)
  }

  /** Over any run the objects of a class, free and held, are those of the start and those of the pages made for it,
    * each cut into as many as fit, but for the blocks that changed class by shrinking in place. */
  lemma {:induction false} ObjectsAreConserved(trace: seq<View>, requests: seq<Request>, results: seq<nat>, i: nat,
                                               per: nat, n: nat)
    requires IsRun(trace, requests, results) && n <= |requests| && per * ClassSize(i) == PAGE_SIZE
    requires forall k: nat :: k < |trace| ==> i < |trace[k].heap.lists|
    ensures ObjectsIn(trace[n], i)
            == ObjectsIn(trace[0], i) + PagesMade(trace, requests, results, i, n) * per
               + AllShifted(trace, requests, i, n)
  {
    hide Steps, ObjectsIn, MakesPage, Shifted, ClassSize;
    if n > 0 {
      ObjectsAreConserved(trace, requests, results, i, per, n - 1);
      assert Steps(trace[n - 1], requests[n - 1], results[n - 1], trace[n - 1 + 1]);
      StepConservesObjects(trace[n - 1], requests[n - 1], results[n - 1], trace[n], i, per);
      var before := PagesMade(trace, requests, results, i, n - 1);
      assert (before + 1) * per == before * per + per;
    }
  }

  /** Requests of one class, all met, from an empty list: a frame is taken only for every `per`-th of them. */
  lemma {:induction false} OneFrameServes(trace: seq<View>, requests: seq<Request>, results: seq<nat>, i: nat,
                                          per: nat, n: nat)
    requires IsRun(trace, requests, results) && n <= |requests| && per * ClassSize(i) == PAGE_SIZE
    requires i < |trace[0].heap.lists| && trace[0].heap.lists[i] == []
    requires forall k: nat :: k < |requests| ==>
               requests[k].Alloc? && ClassIndex(Max(requests[k].size, requests[k].align)) == Some(i) && results[k] != 0
    ensures i < |trace[n].heap.lists| && |trace[n].heap.lists[i]| < per && |trace[n].free| <= |trace[0].free|
    ensures (|trace[0].free| - |trace[n].free|) * per == n + |trace[n].heap.lists[i]|
  {
    hide Steps, ClassIndex, ClassSize;
    if n == 0 {
      PerIsPositive(per, ClassSize(i));
    } else {
      OneFrameServes(trace, requests, results, i, per, n - 1);
      assert Steps(trace[n - 1], requests[n - 1], results[n - 1], trace[n - 1 + 1]);
      ServedStep(trace[n - 1], requests[n - 1].size, requests[n - 1].align, results[n - 1], trace[n], i, per);
      var taken := |trace[0].free| - |trace[n - 1].free|;
      assert (taken + 1) * per == taken * per + per;
    }
  }

  /** A frame is gone exactly when the list had run out, which then has the rest of a page. */
  lemma ServedStep(s: View, size: nat, align: nat, p: nat, s': View, i: nat, per: nat)
    requires Steps(s, Alloc(size, align), p, s') && p != 0 && ClassIndex(Max(size, align)) == Some(i)
    requires i < |s.heap.lists| && per * ClassSize(i) == PAGE_SIZE
    ensures |s'.heap.lists| == |s.heap.lists|
    ensures s.heap.lists[i] == [] ==> |s'.free| == |s.free| - 1 && |s'.heap.lists[i]| == per - 1
    ensures s.heap.lists[i] != [] ==> s'.free == s.free && |s'.heap.lists[i]| == |s.heap.lists[i]| - 1
  {
    hide ClassIndex, ClassSize, LiveAfter, LiveSet, FirstOfClass, HeldAfter;
    TakenFrom(s.heap, size, align, s'.heap, i, per);
    if s.heap.lists[i] == [] {
      var f :| IsLeast(f, s.free) && s'.free == s.free - {f};
      assert s.free == s'.free + {f};
    }
  }

  lemma PerIsPositive(per: nat, size: nat)
    requires per * size == PAGE_SIZE
    ensures per > 0
  {
  }

  // ---------------------------------------------------------------- keeping hold

  lemma ReadsKept(mem: Memory, mem': Memory, b: Held, p: nat, n: nat, bytes: map<nat, nat>, size: nat)
    requires ReadsAs(mem, b) && Copied(mem, b.ptr, mem', p, n)
    requires forall k: nat :: k in bytes ==> k < n && k < size && k in b.bytes && bytes[k] == b.bytes[k]
    ensures ReadsAs(mem', Held(p, size, b.align, bytes))
  {
    forall k: nat | k in bytes ensures ByteOf(mem', p, k) == bytes[k] {
      assert ByteOf(mem', p, k) == ByteOf(mem, b.ptr, k);
    }
  }

  lemma StillHeldAt(before: Heap, after: Heap, b: Held, but: set<nat>)
    requires AllOk(before.objects) && LiveKept(before, after, but) && HoldsAt(before, b) && b.ptr !in but
    ensures HoldsAt(after, b)
  {
    hide IsPow2, LiveKept, ReadsAs;
    KeptBytes(before, after, b.ptr, but);
    KnownInside(before.mem, b);
    ReadsKept(before.mem, after.mem, b, b.ptr, Extent(before.objects[b.ptr]), b.bytes, b.size);
  }

  lemma KnownInside(mem: Memory, b: Held)
    requires ReadsAs(mem, b)
    ensures forall k: nat :: k in b.bytes ==> k < b.size
  {
  }

  lemma StillHeld(before: Heap, after: Heap, held: seq<Held>, but: set<nat>)
    requires AllOk(before.objects) && LiveKept(before, after, but) && Holds(before, held)
    requires forall i :: 0 <= i < |held| ==> held[i].ptr !in but
    ensures Holds(after, held)
  {
    hide HoldsAt, LiveKept;
    forall i | 0 <= i < |held| ensures HoldsAt(after, held[i]) {
      StillHeldAt(before, after, held[i], but);
    }
  }

  lemma HeldWithout(h: Heap, held: seq<Held>, k: nat)
    requires Holds(h, held) && k < |held|
    ensures Holds(h, Without(held, k)) && forall i :: 0 <= i < |held| - 1 ==> Without(held, k)[i].ptr != held[k].ptr
  {
    hide HoldsAt;
    var rest := Without(held, k);
    forall i | 0 <= i < |rest| ensures HoldsAt(h, rest[i]) && rest[i].ptr != held[k].ptr {
      var j := if i < k then i else i + 1;
      assert rest[i] == held[j] && HoldsAt(h, held[j]);
    }
    forall i, j | 0 <= i < j < |rest| ensures rest[i].ptr != rest[j].ptr {
      assert rest[i] == held[if i < k then i else i + 1] && rest[j] == held[if j < k then j else j + 1];
    }
  }

  lemma HeldPlus(h: Heap, held: seq<Held>, b: Held)
    requires Holds(h, held) && HoldsAt(h, b) && forall i :: 0 <= i < |held| ==> held[i].ptr != b.ptr
    ensures Holds(h, held + [b])
  {
    hide HoldsAt;
    var more := held + [b];
    forall i | 0 <= i < |more| ensures HoldsAt(h, more[i]) {
      assert i < |held| ==> HoldsAt(h, held[i]);
    }
  }

  lemma {:induction false} WrittenBytes(bytes: map<nat, nat>, off: nat, data: seq<nat>, k: nat)
    ensures k in Written(bytes, off, data) <==> k in bytes || off <= k < off + |data|
    ensures k in Written(bytes, off, data) ==>
              Written(bytes, off, data)[k] == if off <= k < off + |data| then data[k - off] % 256 else bytes[k]
    decreases |data|
  {
    if data != [] {
      WrittenBytes(bytes[off := data[0] % 256], off + 1, data[1..], k);
    }
  }

  /** A block reads as written after the write. */
  lemma WriteReads(mem: Memory, b: Held, off: nat, data: seq<nat>)
    requires ReadsAs(mem, b) && off + |data| <= b.size
    ensures ReadsAs(StoreBytes(mem, b.ptr + off, data), b.(bytes := Written(b.bytes, off, data)))
  {
    var b' := b.(bytes := Written(b.bytes, off, data));
    forall k: nat | k in b'.bytes
      ensures k < b.size && ByteOf(StoreBytes(mem, b.ptr + off, data), b.ptr, k) == b'.bytes[k]
    {
      WrittenBytes(b.bytes, off, data, k);
      StoreBytesLoads(mem, b.ptr + off, data, b.ptr + k);
      assert k in b.bytes ==> ByteOf(mem, b.ptr, k) == b.bytes[k];
    }
  }

  // ---------------------------------------------------------------- runs

  /** Serve a caller that frees, resizes and writes only blocks it holds. Every request is answered as it should be; in
    * every state the heap is in order, the caller's blocks are live, distinct, and read as it last wrote them, and no
    * other block came to life. */
  method Serve(heap: SlabAllocator, requests: seq<Request>)
    returns (results: seq<nat>, held: seq<Held>, ghost trace: seq<View>)
    requires heap.Valid() && forall i :: 0 <= i < |requests| && requests[i].Alloc? ==> IsPow2(requests[i].align)
    modifies heap, heap.phys.Repr()
    ensures heap.Valid() && IsRun(trace, requests, results)
    ensures trace[0] == View(old(heap.State()), old(heap.phys.Free()), [])
    ensures trace[|requests|] == View(heap.State(), heap.phys.Free(), held)
    ensures forall k: nat :: k < |trace| ==>
              HeapOk(trace[k].heap, heap.hhdm, trace[k].free) && Holds(trace[k].heap, trace[k].held)
    ensures forall k: nat :: k < |trace| ==>
              LiveSet(trace[k].heap) == LiveSet(old(heap.State())) + Pointers(trace[k].held)
  {
    hide HeapOk, BuddyAllocator.Valid, BuddyAllocator.Contents, FrameBitmap.Used, FrameAllocator.Free, Holds, IsPow2;
    hide Steps;
    results, held := [], [];
    NothingHeld(heap.State());
    trace := [View(heap.State(), heap.phys.Free(), held)];
    for i := 0 to |requests|
      invariant heap.Valid() && Holds(heap.State(), held) && IsRun(trace, requests[..i], results)
      invariant trace[0] == View(old(heap.State()), old(heap.phys.Free()), [])
      invariant trace[i] == View(heap.State(), heap.phys.Free(), held)
      invariant forall k: nat :: k < |trace| ==>
                  HeapOk(trace[k].heap, heap.hhdm, trace[k].free) && Holds(trace[k].heap, trace[k].held)
    {
      var p;
      p, held := ServeOne(heap, requests[i], held);
      results, trace := results + [p], trace + [View(heap.State(), heap.phys.Free(), held)];
    }
    assert requests[..|requests|] == requests;
    forall k: nat | k < |trace|
      ensures LiveSet(trace[k].heap) == LiveSet(trace[0].heap) + Pointers(trace[k].held)
    {
      LiveAreHeld(trace, requests, results, k);
    }
  }

  lemma NothingHeld(h: Heap)
    ensures Holds(h, [])
  {
  }

  method ServeOne(heap: SlabAllocator, request: Request, held: seq<Held>) returns (p: nat, held': seq<Held>)
    requires heap.Valid() && Holds(heap.State(), held) && (request.Alloc? ==> IsPow2(request.align))
    modifies heap, heap.phys.Repr()
    ensures heap.Valid() && Holds(heap.State(), held')
    ensures Steps(View(old(heap.State()), old(heap.phys.Free()), held), request, p,
                  View(heap.State(), heap.phys.Free(), held'))
  {
    hide HeapOk, BuddyAllocator.Valid, BuddyAllocator.Contents, FrameBitmap.Used, FrameAllocator.Free, IsPow2, LiveKept;
    hide CanServe, FramesFor, FirstOfClass, ListsFor, ListsMoved;
    hide HoldsAt, Written, Cut, ReadsAs;
    ghost var before := heap.State();
    HeapBasics(before, heap.hhdm, heap.phys.Free(), 0);
    p, held' := 0, held;
    match request
    case Alloc(size, align) =>
      p, held' := ServeAlloc(heap, size, align, held);
    case Dealloc(k) =>
      if k < |held| {
        HeldIs(before, held[k]);
        HeldWithout(before, held, k);
        held' := Without(held, k);
        heap.Deallocate(held[k].ptr, held[k].size, held[k].align);
        StillHeld(before, heap.State(), held', {held[k].ptr});
        assert LiveSet(heap.State()) == LiveSet(before) - {held[k].ptr};
      }
    case Realloc(k, newSize) =>
      if k < |held| {
        p, held' := ServeRealloc(heap, k, newSize, held);
      }
    case Write(k, off, data) =>
      if k < |held| && off + |data| <= held[k].size {
        held' := ServeWrite(heap, k, off, data, held);
      }
  }

  lemma HeldIs(h: Heap, b: Held)
    requires HoldsAt(h, b)
    ensures b.ptr in h.objects && h.objects[b.ptr] == Live(b.size, b.align) && IsPow2(b.align) && ReadsAs(h.mem, b)
  {
  }

  method ServeAlloc(heap: SlabAllocator, size: nat, align: nat, held: seq<Held>) returns (p: nat, held': seq<Held>)
    requires heap.Valid() && Holds(heap.State(), held) && IsPow2(align)
    modifies heap, heap.phys.Repr()
    ensures heap.Valid() && Holds(heap.State(), held')
    ensures Steps(View(old(heap.State()), old(heap.phys.Free()), held), Alloc(size, align), p,
                  View(heap.State(), heap.phys.Free(), held'))
  {
    hide HeapOk, BuddyAllocator.Valid, BuddyAllocator.Contents, FrameBitmap.Used, FrameAllocator.Free, IsPow2, LiveKept;
    hide CanServe, ListsFor;
    ghost var before := heap.State();
    HeapBasics(before, heap.hhdm, heap.phys.Free(), 0);
    p := heap.Allocate(size, align);
    StillHeld(before, heap.State(), held, {});
    held' := held;
    if p != 0 {
      held' := held + [Held(p, size, align, map[])];
      forall i | 0 <= i < |held| ensures held[i].ptr != p {
        assert HoldsAt(before, held[i]);
      }
      HeldPlus(heap.State(), held, Held(p, size, align, map[]));
      HandedLives(before, heap.State(), p, size, align);
    }
  }

  method ServeRealloc(heap: SlabAllocator, k: nat, newSize: nat, held: seq<Held>) returns (p: nat, held': seq<Held>)
    requires heap.Valid() && Holds(heap.State(), held) && k < |held|
    modifies heap, heap.phys.Repr()
    ensures heap.Valid() && Holds(heap.State(), held')
    ensures Steps(View(old(heap.State()), old(heap.phys.Free()), held), Realloc(k, newSize), p,
                  View(heap.State(), heap.phys.Free(), held'))
  {
    hide HeapOk, BuddyAllocator.Valid, BuddyAllocator.Contents, FrameBitmap.Used, FrameAllocator.Free, IsPow2, LiveKept;
    hide CanServe, ListsMoved;
    hide ReadsAs, Cut;
    ghost var before := heap.State();
    HeapBasics(before, heap.hhdm, heap.phys.Free(), 0);
    var b, rest := held[k], Without(held, k);
    assert HoldsAt(before, b);
    HeldWithout(before, held, k);
    p := heap.Reallocate(b.ptr, b.size, b.align, newSize);
    held' := held;
    if p != 0 {
      StillHeld(before, heap.State(), rest, {b.ptr});
      forall i | 0 <= i < |rest| ensures rest[i].ptr != p {
        assert HoldsAt(before, rest[i]);
      }
      CutReads(before.mem, heap.mem, b, p, newSize);
      HeldPlus(heap.State(), rest, Held(p, newSize, b.align, Cut(b.bytes, newSize)));
      held' := rest + [Held(p, newSize, b.align, Cut(b.bytes, newSize))];
    }
  }

  lemma CutReads(mem: Memory, mem': Memory, b: Held, p: nat, newSize: nat)
    requires ReadsAs(mem, b) && Copied(mem, b.ptr, mem', p, Min(Max(b.size, b.align), newSize))
    ensures ReadsAs(mem', Held(p, newSize, b.align, Cut(b.bytes, newSize)))
  {
    KnownInside(mem, b);
    ReadsKept(mem, mem', b, p, Min(Max(b.size, b.align), newSize), Cut(b.bytes, newSize), newSize);
  }

  method ServeWrite(heap: SlabAllocator, k: nat, off: nat, data: seq<nat>, held: seq<Held>) returns (held': seq<Held>)
    requires heap.Valid() && Holds(heap.State(), held) && k < |held| && off + |data| <= held[k].size
    modifies heap
    ensures heap.Valid() && Holds(heap.State(), held') && held' == HeldAfter(held, Write(k, off, data), 0)
    ensures LiveSet(heap.State()) == LiveSet(old(heap.State())) && heap.lists == old(heap.lists)
  {
    hide HeapOk, BuddyAllocator.Valid, BuddyAllocator.Contents, FrameBitmap.Used, FrameAllocator.Free, IsPow2, LiveKept;
    hide CanServe;
    hide ReadsAs, Written, StoreBytes, Extent;
    ghost var before := heap.State();
    HeapBasics(before, heap.hhdm, heap.phys.Free(), 0);
    var b := held[k];
    assert HoldsAt(before, b);
    FitsExtent(before, b);
    heap.CallerWrites(b.ptr, off, data);
    WriteReads(before.mem, b, off, data);
    held' := held[k := b.(bytes := Written(b.bytes, off, data))];
    forall i | 0 <= i < |held'| ensures HoldsAt(heap.State(), held'[i]) {
      if i != k {
        assert HoldsAt(before, held[i]) && held[i].ptr != b.ptr;
        StillHeldAt(before, heap.State(), held[i], {b.ptr});
      }
    }
  }

  lemma FitsExtent(h: Heap, b: Held)
    requires AllOk(h.objects) && HoldsAt(h, b)
    ensures ObjOk(h.objects[b.ptr]) && b.size <= Extent(h.objects[b.ptr])
  {
  }
}
