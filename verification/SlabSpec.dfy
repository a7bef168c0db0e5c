/** The slab heap on values: byte memory, intrusive free lists, and the blocks carved out of frames. */
module SlabSpec {
  import opened Layout
  import opened Arith
  import opened BuddySpec

  const CLASSES: nat := 12
  const WORD: nat := 8

  // ---------------------------------------------------------------- byte memory

  type Memory = map<nat, nat>

  /** The byte at an address. */
  function Load(mem: Memory, a: nat): nat {
    if a in mem then mem[a] % 256 else 0
  }

  /** A little-endian number of `n` bytes. */
  function LoadN(mem: Memory, a: nat, n: nat): nat
    decreases n, a
  {
    if n == 0 then 0 else Load(mem, a) + 256 * LoadN(mem, a + 1, n - 1)
  }

  function StoreN(mem: Memory, a: nat, v: nat, n: nat): Memory
    decreases n, a
  {
    if n == 0 then mem else StoreN(mem[a := v % 256], a + 1, v / 256, n - 1)
  }

  function LoadWord(mem: Memory, a: nat): nat { LoadN(mem, a, WORD) }

  function StoreWord(mem: Memory, a: nat, v: nat): Memory { StoreN(mem, a, v, WORD) }

  /** The memories hold the same bytes in a..a+n. */
  ghost predicate SameBytes(mem: Memory, mem': Memory, a: nat, n: nat) {
    forall b :: a <= b < a + n ==> Load(mem', b) == Load(mem, b)
  }

  lemma {:induction false} StoreOutside(mem: Memory, a: nat, v: nat, n: nat, b: nat)
    requires b < a || a + n <= b
    ensures Load(StoreN(mem, a, v, n), b) == Load(mem, b)
    decreases n
  {
    if n > 0 {
      StoreOutside(mem[a := v % 256], a + 1, v / 256, n - 1, b);
    }
  }

  lemma {:induction false} LoadSame(mem: Memory, mem': Memory, a: nat, n: nat)
    requires SameBytes(mem, mem', a, n)
    ensures LoadN(mem', a, n) == LoadN(mem, a, n)
    decreases n
  {
    if n > 0 {
      assert Load(mem', a) == Load(mem, a);
      LoadSame(mem, mem', a + 1, n - 1);
    }
  }

  function Pow256(n: nat): nat {
    if n == 0 then 1 else 256 * Pow256(n - 1)
  }

  lemma {:induction false} StoreThenLoad(mem: Memory, a: nat, v: nat, n: nat)
    requires v < Pow256(n)
    ensures LoadN(StoreN(mem, a, v, n), a, n) == v
    decreases n
  {
    if n > 0 {
      var mem1 := mem[a := v % 256];
      StoreOutside(mem1, a + 1, v / 256, n - 1, a);
      StoreThenLoad(mem1, a + 1, v / 256, n - 1);
    }
  }

  lemma StoreWordThenLoad(mem: Memory, a: nat, v: nat)
    requires v < U64
    ensures LoadWord(StoreWord(mem, a, v), a) == v
  {
    assert Pow256(8) == U64;
    StoreThenLoad(mem, a, v, WORD);
  }

  lemma StoreWordElsewhere(mem: Memory, a: nat, v: nat, b: nat, n: nat)
    requires b + n <= a || a + WORD <= b
    ensures SameBytes(mem, StoreWord(mem, a, v), b, n)
  {
    forall c | b <= c < b + n ensures Load(StoreWord(mem, a, v), c) == Load(mem, c) {
      StoreOutside(mem, a, v, WORD, c);
    }
  }

  // ---------------------------------------------------------------- size classes

  /** The object size of a class: 8, 16, ..., 16384. */
  function ClassSize(i: nat): nat {
    Pow2(i + 3)
  }

  lemma {:induction false} Pow2Monotone(a: nat, b: nat)
    requires a <= b
    ensures Pow2(a) <= Pow2(b)
  {
    if a < b {
      Pow2Monotone(a, b - 1);
    }
  }

  /** `class_index`: the first class that is large enough. */
  function ClassIndex(size: nat): (r: Option<nat>)
    ensures r.Some? ==> r.value < CLASSES && size <= ClassSize(r.value)
    ensures r.Some? ==> forall i :: 0 <= i < r.value ==> ClassSize(i) < size
    ensures r.None? ==> forall i :: 0 <= i < CLASSES ==> ClassSize(i) < size
  {
    FirstFit(size, 0)
  }

  /** Requests above 16 KiB have no class; otherwise less than half of an object is wasted, but on the smallest. */
  lemma ClassWaste(size: nat)
    ensures ClassIndex(size).None? <==> size > 16384
    ensures ClassIndex(size).Some? && size > 8 ==> ClassSize(ClassIndex(size).value) < 2 * size
    ensures size <= 8 ==> ClassIndex(size) == Some(0) && ClassSize(0) == 8
  {
    assert ClassSize(0) == 8 && ClassSize(11) == 16384;
    var r := ClassIndex(size);
    hide FirstFit;
    if r.Some? && r.value > 0 {
      assert ClassSize(r.value - 1) < size;
    }
  }

  function FirstFit(size: nat, from: nat): (r: Option<nat>)
    requires from <= CLASSES
    ensures r.Some? ==> from <= r.value < CLASSES && size <= ClassSize(r.value)
    ensures r.Some? ==> forall i :: from <= i < r.value ==> ClassSize(i) < size
    ensures r.None? ==> forall i :: from <= i < CLASSES ==> ClassSize(i) < size
    decreases CLASSES - from, size
  {
    if from == CLASSES then None else if size <= ClassSize(from) then Some(from) else FirstFit(size, from + 1)
  }

  lemma ClassIndexMonotone(a: nat, b: nat)
    requires a <= b && ClassIndex(b).Some?
    ensures ClassIndex(a).Some? && ClassIndex(a).value <= ClassIndex(b).value
  {
    var i, j := ClassIndex(a), ClassIndex(b).value;
    hide FirstFit, ClassSize;
    assert a <= ClassSize(j);
  }

  // ---------------------------------------------------------------- objects

  /** A block a caller holds, with its layout, or a free object of a class. */
  datatype Obj = Live(size: nat, align: nat) | Free(class_: nat)

  predicate ObjOk(o: Obj) {
    match o
    case Live(size, align) => ClassIndex(Max(size, align)).Some?
    case Free(i) => i < CLASSES
  }

  function ClassOf(o: Obj): (i: nat)
    requires ObjOk(o)
    ensures i < CLASSES
  {
    match o
    case Live(size, align) => ClassIndex(Max(size, align)).value
    case Free(i) => i
  }

  /** The bytes an object occupies. */
  function Extent(o: Obj): nat
    requires ObjOk(o)
  {
    ClassSize(ClassOf(o))
  }

  type Objects = map<nat, Obj>

  ghost predicate AllOk(objects: Objects) {
    forall p :: p in objects ==> ObjOk(objects[p])
  }

  predicate Apart(p: nat, n: nat, q: nat, m: nat) {
    p + n <= q || q + m <= p
  }

  ghost predicate Disjoint(objects: Objects)
    requires AllOk(objects)
  {
    forall p, q :: p in objects && q in objects && p != q ==> Apart(p, Extent(objects[p]), q, Extent(objects[q]))
  }

  /** An object sits at a multiple of its size, inside one page whose frame is allocated. */
  ghost predicate Placed(p: nat, class_: nat, hhdm: nat, free: set<nat>) {
    && class_ <= 9 && hhdm < p + 1 && p > 0 && AlignedBlock(p, class_ + 3) && p + ClassSize(class_) <= U64
    && p >= hhdm && FrameOf(p, hhdm) !in free
  }

  function FrameOf(p: nat, hhdm: nat): nat
    requires p >= hhdm
  {
    (p - hhdm) / PAGE_SIZE
  }

  // ---------------------------------------------------------------- free lists

  /** The list from `head` through the words stored in its own objects; 0 ends it. */
  ghost predicate Linked(mem: Memory, head: nat, list: seq<nat>)
    decreases |list|
  {
    if list == [] then head == 0
    else head == list[0] && head > 0 && Linked(mem, LoadWord(mem, head), list[1..])
  }

  ghost predicate NoDup(list: seq<nat>) {
    forall i, j :: 0 <= i < j < |list| ==> list[i] != list[j]
  }

  lemma {:induction false} LinkedSame(mem: Memory, mem': Memory, head: nat, list: seq<nat>)
    requires Linked(mem, head, list) && forall p :: p in list ==> SameBytes(mem, mem', p, WORD)
    ensures Linked(mem', head, list)
    decreases |list|
  {
    if list != [] {
      assert list[0] in list;
      LoadSame(mem, mem', head, WORD);
      LinkedSame(mem, mem', LoadWord(mem, head), list[1..]);
    }
  }

  /** List `i` holds exactly the free objects of class `i`, once each. */
  ghost predicate ListOk(mem: Memory, head: nat, list: seq<nat>, objects: Objects, i: nat) {
    Linked(mem, head, list) && NoDup(list) && forall p :: p in list <==> p in objects && objects[p] == Free(i)
  }

  datatype Heap = Heap(mem: Memory, heads: seq<nat>, lists: seq<seq<nat>>, objects: Objects)

  ghost predicate HeapOk(h: Heap, hhdm: nat, free: set<nat>) {
    && |h.heads| == CLASSES && |h.lists| == CLASSES && AllOk(h.objects) && Disjoint(h.objects)
    && (forall p :: p in h.objects ==> Placed(p, ClassOf(h.objects[p]), hhdm, free))
    && forall i :: 0 <= i < CLASSES ==> ListOk(h.mem, h.heads[i], h.lists[i], h.objects, i)
  }

  lemma ExtentAtLeastWord(o: Obj)
    requires ObjOk(o)
    ensures Extent(o) >= WORD
  {
    Pow2Monotone(3, ClassOf(o) + 3);
    assert Pow2(3) == 8;
  }

  /** A block of class `i` at `p` would overlap no other object, and is not on a free list. */
  ghost predicate CanFree(h: Heap, p: nat, i: nat)
    requires AllOk(h.objects)
  {
    && i < CLASSES && (p in h.objects ==> h.objects[p].Live?)
    && forall q :: q in h.objects && q != p ==> Apart(p, ClassSize(i), q, Extent(h.objects[q]))
  }

  function Pushed(h: Heap, p: nat, i: nat): Heap
    requires i < |h.heads| && i < |h.lists|
  {
    Heap(StoreWord(h.mem, p, h.heads[i]), h.heads[i := p], h.lists[i := [p] + h.lists[i]], h.objects[p := Free(i)])
  }

  lemma HeadsAreAddresses(h: Heap, hhdm: nat, free: set<nat>, i: nat)
    requires HeapOk(h, hhdm, free) && i < CLASSES
    ensures h.heads[i] < U64
  {
    assert ListOk(h.mem, h.heads[i], h.lists[i], h.objects, i);
    if h.lists[i] != [] {
      var p := h.heads[i];
      assert h.lists[i][0] in h.lists[i];
      Pow2Monotone(3, ClassOf(h.objects[p]) + 3);
    }
  }

  /** Putting an object on a list writes only its own first word. */
  lemma PushKeepsLists(h: Heap, hhdm: nat, free: set<nat>, p: nat, i: nat)
    requires HeapOk(h, hhdm, free) && CanFree(h, p, i) && p > 0
    ensures forall j :: 0 <= j < CLASSES ==>
              var h' := Pushed(h, p, i); ListOk(h'.mem, h'.heads[j], h'.lists[j], h'.objects, j)
  {
    var h' := Pushed(h, p, i);
    Pow2Monotone(3, i + 3);
    assert Pow2(3) == 8;
    forall j | 0 <= j < CLASSES
      ensures ListOk(h'.mem, h'.heads[j], h'.lists[j], h'.objects, j)
    {
      PushKeepsList(h, hhdm, free, p, i, j);
    }
  }

  lemma PushKeepsList(h: Heap, hhdm: nat, free: set<nat>, p: nat, i: nat, j: nat)
    requires HeapOk(h, hhdm, free) && CanFree(h, p, i) && p > 0 && j < CLASSES && ClassSize(i) >= WORD
    ensures var h' := Pushed(h, p, i); ListOk(h'.mem, h'.heads[j], h'.lists[j], h'.objects, j)
  {
    var h' := Pushed(h, p, i);
    assert ListOk(h.mem, h.heads[j], h.lists[j], h.objects, j);
    forall q | q in h.lists[j]
      ensures SameBytes(h.mem, h'.mem, q, WORD)
    {
      assert q != p;
      ExtentAtLeastWord(h.objects[q]);
      StoreWordElsewhere(h.mem, p, h.heads[i], q, WORD);
    }
    LinkedSame(h.mem, h'.mem, h.heads[j], h.lists[j]);
    if i == j {
      HeadsAreAddresses(h, hhdm, free, i);
      StoreWordThenLoad(h.mem, p, h.heads[i]);
      assert h'.lists[j][1..] == h.lists[j];
    }
  }

  lemma PushKeeps(h: Heap, hhdm: nat, free: set<nat>, p: nat, i: nat)
    requires HeapOk(h, hhdm, free) && CanFree(h, p, i) && Placed(p, i, hhdm, free)
    ensures HeapOk(Pushed(h, p, i), hhdm, free)
  {
    PushKeepsLists(h, hhdm, free, p, i);
  }

  /** No byte of any other object changes. */
  lemma PushKeepsOthers(h: Heap, p: nat, i: nat, q: nat)
    requires i < |h.heads| && i < |h.lists| && AllOk(h.objects) && CanFree(h, p, i) && q in h.objects && q != p
    ensures SameBytes(h.mem, Pushed(h, p, i).mem, q, Extent(h.objects[q]))
  {
    Pow2Monotone(3, i + 3);
    assert Pow2(3) == 8;
    StoreWordElsewhere(h.mem, p, h.heads[i], q, Extent(h.objects[q]));
  }

  function Popped(h: Heap, i: nat, o: Obj): Heap
    requires i < |h.heads| && i < |h.lists| && h.lists[i] != []
  {
    Heap(h.mem, h.heads[i := LoadWord(h.mem, h.heads[i])], h.lists[i := h.lists[i][1..]], h.objects[h.heads[i] := o])
  }

  lemma PopKeeps(h: Heap, hhdm: nat, free: set<nat>, i: nat, o: Obj)
    requires HeapOk(h, hhdm, free) && i < CLASSES && h.lists[i] != [] && ObjOk(o) && o.Live? && ClassOf(o) == i
    ensures var p := h.heads[i];
            p == h.lists[i][0] && p in h.objects && h.objects[p] == Free(i) && HeapOk(Popped(h, i, o), hhdm, free)
  {
    assert ListOk(h.mem, h.heads[i], h.lists[i], h.objects, i);
    var p, h' := h.heads[i], Popped(h, i, o);
    assert h.lists[i][0] in h.lists[i];
    forall j | 0 <= j < CLASSES
      ensures ListOk(h'.mem, h'.heads[j], h'.lists[j], h'.objects, j)
    {
      assert ListOk(h.mem, h.heads[j], h.lists[j], h.objects, j);
      if i == j {
        forall q ensures q in h.lists[i][1..] <==> q in h.lists[i] && q != p {
          if q in h.lists[i] && q != p {
            var k :| 0 <= k < |h.lists[i]| && h.lists[i][k] == q;
            assert h.lists[i][1..][k - 1] == q;
          }
        }
      }
    }
  }

  ghost predicate ObjectsOk(objects: Objects, hhdm: nat, free: set<nat>) {
    AllOk(objects) && Disjoint(objects) && forall p :: p in objects ==> Placed(p, ClassOf(objects[p]), hhdm, free)
  }

  lemma ShrinkObjects(objects: Objects, hhdm: nat, free: set<nat>, p: nat, o': Obj)
    requires ObjectsOk(objects, hhdm, free) && p in objects && objects[p].Live? && o'.Live?
    requires Max(o'.size, o'.align) <= Max(objects[p].size, objects[p].align)
    ensures ObjectsOk(objects[p := o'], hhdm, free)
  {
    hide ClassIndex, AlignedBlock, Pow2, ClassSize;
    ShrinkFits(p, objects[p], o');
    var objects' := objects[p := o'];
    assert Placed(p, ClassOf(objects[p]), hhdm, free);
    forall a, b | a in objects' && b in objects' && a != b
      ensures Apart(a, Extent(objects'[a]), b, Extent(objects'[b]))
    {
      assert Apart(a, Extent(objects[a]), b, Extent(objects[b]));
    }
  }

  /** Giving a live block a smaller layout leaves it where it is. */
  lemma ShrinkKeeps(h: Heap, hhdm: nat, free: set<nat>, p: nat, newSize: nat)
    requires HeapOk(h, hhdm, free) && p in h.objects && h.objects[p].Live?
    requires newSize <= Max(h.objects[p].size, h.objects[p].align)
    ensures HeapOk(h.(objects := h.objects[p := Live(newSize, h.objects[p].align)]), hhdm, free)
  {
    var o' := Live(newSize, h.objects[p].align);
    ShrinkObjects(h.objects, hhdm, free, p, o');
    hide ClassIndex, AlignedBlock, Pow2, ClassSize, Linked, Disjoint, Placed, ObjOk, ClassOf;
    forall j | 0 <= j < CLASSES
      ensures ListOk(h.mem, h.heads[j], h.lists[j], h.objects[p := o'], j)
    {
      assert ListOk(h.mem, h.heads[j], h.lists[j], h.objects, j);
    }
  }

  lemma ShrinkFits(p: nat, o: Obj, o': Obj)
    requires o.Live? && o'.Live? && ObjOk(o) && Max(o'.size, o'.align) <= Max(o.size, o.align)
    ensures ObjOk(o') && ClassOf(o') <= ClassOf(o) && Extent(o') <= Extent(o)
    ensures AlignedBlock(p, ClassOf(o) + 3) ==> AlignedBlock(p, ClassOf(o') + 3)
  {
    hide ClassIndex, AlignedBlock, Pow2;
    ClassIndexMonotone(Max(o'.size, o'.align), Max(o.size, o.align));
    Pow2Monotone(ClassOf(o') + 3, ClassOf(o) + 3);
    if AlignedBlock(p, ClassOf(o) + 3) {
      LowerAligned(p, ClassOf(o) + 3, ClassOf(o') + 3);
    }
  }

  lemma {:induction false} LowerAligned(p: nat, high: nat, low: nat)
    requires low <= high && AlignedBlock(p, high)
    ensures AlignedBlock(p, low)
  {
    if low < high {
      HalfAligned(p, high);
      LowerAligned(p, high - 1, low);
    }
  }

  // ---------------------------------------------------------------- copying

  /** `copy_nonoverlapping`. */
  function CopyN(mem: Memory, src: nat, dst: nat, n: nat): Memory
    decreases n, src
  {
    if n == 0 then mem else CopyN(mem, src, dst, n - 1)[dst + n - 1 := Load(mem, src + n - 1)]
  }

  lemma {:induction false} CopyOutside(mem: Memory, src: nat, dst: nat, n: nat, b: nat)
    requires b < dst || dst + n <= b
    ensures Load(CopyN(mem, src, dst, n), b) == Load(mem, b)
  {
    if n > 0 {
      CopyOutside(mem, src, dst, n - 1, b);
    }
  }

  lemma {:induction false} CopyInside(mem: Memory, src: nat, dst: nat, n: nat, k: nat)
    requires k < n
    ensures Load(CopyN(mem, src, dst, n), dst + k) == Load(mem, src + k)
  {
    if k < n - 1 {
      CopyInside(mem, src, dst, n - 1, k);
    }
  }

  /** Byte `k` of the block at `p`. */
  function ByteOf(mem: Memory, p: nat, k: nat): nat {
    Load(mem, p + k)
  }

  /** The first `n` bytes of a block are, in the other memory, the first `n` bytes of another. */
  ghost predicate Copied(mem: Memory, p: nat, mem': Memory, r: nat, n: nat) {
    forall k: nat :: k < n ==> ByteOf(mem', r, k) == ByteOf(mem, p, k)
  }

  lemma CopyCopies(mem: Memory, src: nat, dst: nat, n: nat)
    ensures Copied(mem, src, CopyN(mem, src, dst, n), dst, n)
  {
    forall k: nat | k < n ensures ByteOf(CopyN(mem, src, dst, n), dst, k) == ByteOf(mem, src, k) {
      CopyInside(mem, src, dst, n, k);
    }
  }

  lemma CopyElsewhere(mem: Memory, src: nat, dst: nat, n: nat, b: nat, m: nat)
    requires Apart(dst, n, b, m)
    ensures SameBytes(mem, CopyN(mem, src, dst, n), b, m)
  {
    forall c | b <= c < b + m ensures Load(CopyN(mem, src, dst, n), c) == Load(mem, c) {
      CopyOutside(mem, src, dst, n, c);
    }
  }

  /** The bytes a caller stores at `a`. */
  function StoreBytes(mem: Memory, a: nat, bytes: seq<nat>): Memory
    decreases |bytes|
  {
    if bytes == [] then mem else StoreBytes(mem[a := bytes[0] % 256], a + 1, bytes[1..])
  }

  lemma {:induction false} StoreBytesLoads(mem: Memory, a: nat, bytes: seq<nat>, b: nat)
    ensures Load(StoreBytes(mem, a, bytes), b) == if a <= b < a + |bytes| then bytes[b - a] % 256 else Load(mem, b)
    decreases |bytes|
  {
    if bytes != [] {
      StoreBytesLoads(mem[a := bytes[0] % 256], a + 1, bytes[1..], b);
    }
  }

  /** Whatever is written inside one live block, no free list and no other object is disturbed. */
  lemma LiveWriteKeeps(h: Heap, hhdm: nat, free: set<nat>, dst: nat, mem': Memory)
    requires HeapOk(h, hhdm, free) && dst in h.objects && h.objects[dst].Live?
    requires forall b: nat :: b < dst || dst + Extent(h.objects[dst]) <= b ==> Load(mem', b) == Load(h.mem, b)
    ensures HeapOk(h.(mem := mem'), hhdm, free)
    ensures forall q :: q in h.objects && q != dst ==> SameBytes(h.mem, mem', q, Extent(h.objects[q]))
  {
    hide Linked, Placed, ClassIndex, AlignedBlock, Pow2;
    forall q | q in h.objects && q != dst ensures SameBytes(h.mem, mem', q, Extent(h.objects[q])) {
      assert Apart(dst, Extent(h.objects[dst]), q, Extent(h.objects[q]));
    }
    forall j | 0 <= j < CLASSES
      ensures ListOk(mem', h.heads[j], h.lists[j], h.objects, j)
    {
      assert ListOk(h.mem, h.heads[j], h.lists[j], h.objects, j);
      forall q | q in h.lists[j]
        ensures SameBytes(h.mem, mem', q, WORD)
      {
        ExtentAtLeastWord(h.objects[q]);
      }
      LinkedSame(h.mem, mem', h.heads[j], h.lists[j]);
    }
  }

  lemma CopyKeeps(h: Heap, hhdm: nat, free: set<nat>, src: nat, dst: nat, n: nat)
    requires HeapOk(h, hhdm, free) && dst in h.objects && h.objects[dst].Live? && n <= Extent(h.objects[dst])
    ensures HeapOk(h.(mem := CopyN(h.mem, src, dst, n)), hhdm, free)
  {
    hide HeapOk, CopyN, Extent;
    forall b: nat | b < dst || dst + n <= b ensures Load(CopyN(h.mem, src, dst, n), b) == Load(h.mem, b) {
      CopyOutside(h.mem, src, dst, n, b);
    }
    LiveWriteKeeps(h, hhdm, free, dst, CopyN(h.mem, src, dst, n));
  }
}
