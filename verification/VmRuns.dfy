/** Whole runs of memory calls and page faults. */
module VmRuns {
  import opened Layout
  import opened Permissions
  import opened Radix
  import opened FrameAllocators
  import opened PageTables
  import opened Vmas
  import opened Buddy
  import opened FrameBitmaps
  import opened VmSpec
  import opened AddressSpaces

  datatype Call =
    | CallMmap(addr: nat, length: nat, prot: set<Prot>, flags: set<MmapFlag>)
    | CallMunmap(addr: nat, length: nat)
    | CallMprotect(addr: nat, length: nat, read: bool, write: bool, exec: bool)
    | CallFault(addr: nat, write: bool, user: bool)

  datatype Answer = Mapped(result: VmResult<nat>) | Changed(status: VmResult<()>) | Fault(outcome: FaultOutcome)

  /** Mapping addresses are page-aligned, and no address computation leaves 64 bits. */
  predicate CallOk(c: Call, mmapBase: nat) {
    match c
    case CallMmap(addr, length, _, _) =>
      Aligned(addr) && addr + AlignUp(length) < U64 && mmapBase + AlignUp(length) < U64
    case CallMunmap(addr, length) => addr + AlignUp(length) < U64
    case CallMprotect(addr, length, _, _, _) => addr + AlignUp(length) < U64
    case CallFault(_, _, _) => true
  }

  /** What a call answers and does. */
  ghost predicate Does(s: Snapshot, c: Call, base: nat, a: Answer, s': Snapshot) {
    match c
    case CallMmap(addr, length, prot, flags) => a.Mapped? && Mmapped(s, addr, length, prot, flags, base, a.result, s')
    case CallMunmap(addr, length) => a.Changed? && Munmapped(s, addr, length, a.status, s')
    case CallMprotect(addr, length, read, write, exec) =>
      a.Changed? && Mprotected(s, addr, length, ProtOf(read, write, exec), a.status, s')
    case CallFault(addr, write, user) => a.Fault? && Faulted(s, addr, write, user, a.outcome, s')
  }

  ghost predicate IsRun(trace: seq<Snapshot>, calls: seq<Call>, base: nat, answers: seq<Answer>) {
    && |trace| == |calls| + 1 == |answers| + 1
    && forall k: nat :: k < |calls| ==> Does(trace[k], calls[k], base, answers[k], trace[k + 1])
  }

  /** Areas are disjoint, every present page is in one area with its protection, and no frame has two uses: it is free,
    * a table, or under one page. */
  ghost predicate Agrees(s: Snapshot) {
    && Disjoint(s.items) && s.free !! s.tables && FramesOf(s.flat) !! s.tables
    && forall k: nat :: IsPresent(s.flat, k) ==> PageAgrees(s.items, s.flat, s.free, k)
  }

  ghost predicate Good(s: Snapshot) {
    Agrees(s) && forall v :: v in s.items ==> UserArea(v)
  }

  /** The table frames as the processor walks them. */
  datatype Mmu = Mmu(tables: Tables, root: nat)

  /** The table frames are a tree whose meaning is the flat map. */
  ghost predicate Shows(m: Mmu, flat: map<nat, Pte>) {
    exists path :: IsTree(m.tables, path, m.root) && Flattens(m.tables, m.root, flat)
  }

  ghost predicate AllShow(mmus: seq<Mmu>, trace: seq<Snapshot>) {
    |mmus| == |trace| && forall k: nat :: k < |trace| ==> Shows(mmus[k], trace[k].flat)
  }

  ghost function MmuOf(space: AddressSpace): Mmu
    reads space, space.table
  {
    Mmu(space.table.tables, space.table.cr3)
  }

  /** Any sequence of calls and faults: each answers and does what it should, and areas, page table and free frames
    * agree in every state. The table frames show the processor the page table of each state. */
  method Run(space: AddressSpace, calls: seq<Call>, mmapBase: nat)
    returns (answers: seq<Answer>, ghost trace: seq<Snapshot>, ghost mmus: seq<Mmu>)
    requires space.Valid() && Aligned(mmapBase) && forall i :: 0 <= i < |calls| ==> CallOk(calls[i], mmapBase)
    modifies space.table.Repr(), space.vma, space.vma.entries
    ensures space.Valid() && IsRun(trace, calls, mmapBase, answers) && trace[0] == old(space.Snap())
            && trace[|calls|] == space.Snap()
    ensures forall k: nat :: k < |trace| ==> Good(trace[k])
    ensures AllShow(mmus, trace) && mmus[0] == old(MmuOf(space)) && mmus[|calls|] == MmuOf(space)
  {
    hide IsTree, Flattens, FramesOk, Covered, Disjoint, VmaTree.Dense, BuddyAllocator.Valid, BuddyAllocator.Contents;
    hide FrameBitmap.Used, FrameAllocator.Free, Good, Does, Shows;
    answers, trace, mmus := [], [space.Snap()], [MmuOf(space)];
    SpaceIsGood(space);
    SpaceShows(space);
    for i := 0 to |calls|
      invariant space.Valid() && IsRun(trace, calls[..i], mmapBase, answers) && trace[0] == old(space.Snap())
                && trace[i] == space.Snap()
      invariant forall k: nat :: k < |trace| ==> Good(trace[k])
      invariant AllShow(mmus, trace) && mmus[0] == old(MmuOf(space)) && mmus[i] == MmuOf(space)
    {
      var answer := Serve(space, calls[i], mmapBase);
      SpaceIsGood(space);
      SpaceShows(space);
      answers, trace, mmus := answers + [answer], trace + [space.Snap()], mmus + [MmuOf(space)];
    }
    assert calls[..|calls|] == calls;
  }

  lemma SpaceIsGood(space: AddressSpace)
    requires space.Valid()
    ensures Good(space.Snap())
  {
    hide IsTree, Flattens, VmaTree.Dense, BuddyAllocator.Valid, BuddyAllocator.Contents, FrameBitmap.Used;
    hide FrameAllocator.Free;
    AllPagesAgree(space.vma.items, space.table.flat, space.table.phys.Free(), space.table.tables.Keys);
  }

  lemma SpaceShows(space: AddressSpace)
    requires space.Valid()
    ensures Shows(MmuOf(space), space.Snap().flat)
  {
    hide IsTree, Flattens, VmaTree.Dense, BuddyAllocator.Valid, BuddyAllocator.Contents, FrameBitmap.Used;
    hide FrameAllocator.Free, Covered, Disjoint, FramesOk;
    assert IsTree(space.table.tables, space.table.path, space.table.cr3);
  }

  method Serve(space: AddressSpace, c: Call, mmapBase: nat) returns (a: Answer)
    requires space.Valid() && Aligned(mmapBase) && CallOk(c, mmapBase)
    modifies space.table.Repr(), space.vma, space.vma.entries
    ensures space.Valid() && Does(old(space.Snap()), c, mmapBase, a, space.Snap())
  {
    hide IsTree, Flattens, FramesOk, Covered, Disjoint, VmaTree.Dense, BuddyAllocator.Valid, BuddyAllocator.Contents;
    hide FrameBitmap.Used, FrameAllocator.Free, Mmapped, Munmapped, Mprotected, Faulted;
    match c
    case CallMmap(addr, length, prot, flags) =>
      var r := space.Mmap(addr, length, prot, flags, mmapBase);
      a := Mapped(r);
    case CallMunmap(addr, length) =>
      var r := space.Munmap(addr, length);
      a := Changed(r);
    case CallMprotect(addr, length, read, write, exec) =>
      var r := space.Mprotect(addr, length, read, write, exec);
      a := Changed(r);
    case CallFault(addr, write, user) =>
      var r := space.ResolveFault(addr, write, user);
      a := Fault(r);
  }

  /** A request has one target: an mmap cannot choose. */
  lemma OneTarget(items: seq<Vma>, addr: nat, size: nat, flags: set<MmapFlag>, base: nat, r: VmResult<nat>,
                  r': VmResult<nat>)
    requires IsTarget(items, addr, size, flags, base, r) && IsTarget(items, addr, size, flags, base, r')
    ensures r == r'
  {
  }

  // ---------------------------------------------------------------- enough frames

  /** The frames of the present pages of a range. */
  ghost function FramesIn(flat: map<nat, Pte>, lo: nat, hi: nat): set<nat> {
    set k | k in flat && lo <= k < hi && Present in flat[k].flags :: flat[k].frame
  }

  lemma {:induction false} FewFrames(flat: map<nat, Pte>, lo: nat, hi: nat)
    requires lo <= hi
    ensures |FramesIn(flat, lo, hi)| <= hi - lo
    decreases hi - lo
  {
    if lo == hi {
      assert FramesIn(flat, lo, hi) == {};
    } else {
      FewFrames(flat, lo, hi - 1);
      var rest := FramesIn(flat, lo, hi - 1);
      var last := if hi - 1 in flat then {flat[hi - 1].frame} else {};
      assert FramesIn(flat, lo, hi) <= rest + last;
      SubsetCounts(FramesIn(flat, lo, hi), rest + last);
    }
  }

  lemma {:induction false} SubsetCounts(a: set<nat>, b: set<nat>)
    requires a <= b
    ensures |a| <= |b|
  {
    assert b == a + (b - a);
  }

  /** A page that is missing leaves one frame fewer. */
  lemma FewerFrames(flat: map<nat, Pte>, lo: nat, hi: nat)
    requires lo <= hi && !AllPresent(flat, lo, hi)
    ensures |FramesIn(flat, lo, hi)| < hi - lo
  {
    var k: nat :| lo <= k < hi && !IsPresent(flat, k);
    FewFrames(flat, lo, k);
    FewFrames(flat, k + 1, hi);
    var left, right := FramesIn(flat, lo, k), FramesIn(flat, k + 1, hi);
    assert FramesIn(flat, lo, hi) <= left + right;
    SubsetCounts(FramesIn(flat, lo, hi), left + right);
  }

  /** With four free frames for each page mmap does not run out; without populating, more than three are enough. */
  lemma MmapHasFrames(s: Snapshot, addr: nat, length: nat, prot: set<Prot>, flags: set<MmapFlag>, base: nat,
                      r: VmResult<nat>, s': Snapshot)
    requires Mmapped(s, addr, length, prot, flags, base, r, s')
    requires var pages := AlignUp(length) / PAGE_SIZE;
             |s.free| >= 4 * pages || (Populate !in flags && |s.free| > 3 * pages)
    ensures r != Failed(OutOfMemory)
  {
    if length > 0 {
      var size := AlignUp(length);
      var target :| IsTarget(s.items, addr, size, flags, base, target)
                    && MmappedAt(s, target, size, prot, flags, r, s');
      hide AlignUp, IsGap, Spent, AreaAdded, AllPresent, Overlaps;
      if r == Failed(OutOfMemory) {
        FailedUsed(s, s', NewArea(target.value, size, prot, flags), 3 * (size / PAGE_SIZE));
      }
    }
  }

  /** What a mapping that ran out of frames has used. */
  lemma FailedUsed(s: Snapshot, s': Snapshot, v: Vma, n: nat)
    requires Spent(s, s', n) && s'.free == {} && v.start < v.end
    requires AreaAdded(v, s.items, s'.items, s.flat, s'.flat, false) && !AllPresent(s'.flat, Vpn(v.start), Vpn(v.end))
    ensures |s.free| < n + (v.end - v.start) / PAGE_SIZE && (Populate !in v.flags ==> |s.free| <= n)
  {
    SpentCounts(s, s', n);
    var lo, hi := Vpn(v.start), Vpn(v.end);
    FewerFrames(s'.flat, lo, hi);
    var used, all := NewFrames(s.flat, s'.flat), FramesIn(s'.flat, lo, hi);
    forall f | f in used ensures f in all {
      var k :| k in s'.flat && Present in s'.flat[k].flags && !IsPresent(s.flat, k) && s'.flat[k].frame == f;
      assert Get(s'.flat, k) == s'.flat[k];
      assert !(lo <= k < hi) ==> Get(s'.flat, k) == Get(s.flat, k);
    }
    SubsetCounts(used, all);
    if Populate !in v.flags {
      assert all == {};
    }
  }

  /** With four free frames, a fault that the area permits on an absent page is paged in; a marked page needs one. */
  lemma FaultHasFrames(s: Snapshot, key: nat, prot: set<Prot>, outcome: FaultOutcome, s': Snapshot)
    requires PagedInOr(s, key, prot, outcome, s')
    ensures |s.free| >= 4 ==> outcome == DemandPaged
    ensures key in s.flat ==> (outcome == DemandPaged <==> s.free != {})
  {
    if outcome == ProtectionViolation {
      SpentCounts(s, s', 2);
      NothingNew(s.flat, s'.flat);
    } else {
      assert s'.flat[key].frame in s.free;
    }
  }

  // ---------------------------------------------------------------- where frames go

  /** The frames the address space can account for: free, under a table, or under a present page. */
  ghost function Owned(s: Snapshot): set<nat> {
    s.free + s.tables + FramesOf(s.flat)
  }

  /** The frames of the pages a successful munmap removes. */
  ghost function Dropped(s: Snapshot, c: Call, a: Answer): set<nat> {
    if c.CallMunmap? && a == Changed(Done(()))
    then FramesIn(s.flat, Vpn(c.addr), Vpn(c.addr + AlignUp(c.length))) else {}
  }

  lemma FramesGrow(flat: map<nat, Pte>, flat': map<nat, Pte>)
    requires PagesStay(flat, flat')
    ensures FramesOf(flat') == FramesOf(flat) + NewFrames(flat, flat')
  {
    forall f | f in FramesOf(flat') ensures f in FramesOf(flat) + NewFrames(flat, flat') {
      var k :| k in flat' && Present in flat'[k].flags && flat'[k].frame == f;
      if IsPresent(flat, k) {
        assert flat[k].frame == f && k in flat;
      } else {
        assert flat'[k].frame in NewFrames(flat, flat');
      }
    }
    forall f | f in FramesOf(flat) ensures f in FramesOf(flat') {
      var k :| k in flat && Present in flat[k].flags && flat[k].frame == f;
      assert IsPresent(flat, k) && k in flat' && flat'[k].frame == f;
    }
  }

  lemma SpentConserves(s: Snapshot, s': Snapshot, n: nat)
    requires Spent(s, s', n)
    ensures Owned(s') == Owned(s) && s'.free <= s.free
  {
    FramesGrow(s.flat, s'.flat);
    hide FramesOf, NewFrames, PagesStay;
    Regroup(s.free, s.tables, FramesOf(s.flat), s'.free, s'.tables, FramesOf(s'.flat), NewFrames(s.flat, s'.flat));
  }

  lemma Regroup(free: set<nat>, tables: set<nat>, mapped: set<nat>, free': set<nat>, tables': set<nat>,
                mapped': set<nat>, used: set<nat>)
    requires tables <= tables' && free == free' + (tables' - tables) + used && mapped' == mapped + used
    ensures free' + tables' + mapped' == free + tables + mapped && free' <= free
  {
  }

  lemma SameFramesConserve(flat: map<nat, Pte>, flat': map<nat, Pte>)
    requires SameFrames(flat', flat)
    ensures FramesOf(flat') == FramesOf(flat)
  {
    forall f | f in FramesOf(flat') ensures f in FramesOf(flat) {
      var k :| k in flat' && Present in flat'[k].flags && flat'[k].frame == f;
      assert IsPresent(flat', k) && IsPresent(flat, k) && Get(flat', k).frame == Get(flat, k).frame;
      assert k in flat && flat[k].frame == f;
    }
    forall f | f in FramesOf(flat) ensures f in FramesOf(flat') {
      var k :| k in flat && Present in flat[k].flags && flat[k].frame == f;
      assert IsPresent(flat, k) && IsPresent(flat', k) && Get(flat', k).frame == Get(flat, k).frame;
      assert k in flat' && flat'[k].frame == f;
    }
  }

  /** Unmapping the pages of a range drops exactly their frames. */
  lemma UnmapDrops(s: Snapshot, flat': map<nat, Pte>, lo: nat, hi: nat)
    requires Agrees(s) && NonePresent(flat', lo, hi) && Untouched(flat', s.flat, lo, hi)
    ensures FramesOf(flat') == FramesOf(s.flat) - FramesIn(s.flat, lo, hi)
  {
    var flat := s.flat;
    forall f | f in FramesOf(flat') ensures f in FramesOf(flat) - FramesIn(flat, lo, hi) {
      var k :| k in flat' && Present in flat'[k].flags && flat'[k].frame == f;
      assert IsPresent(flat', k) && !(lo <= k < hi) && Get(flat', k) == Get(flat, k);
      assert k in flat && flat[k].frame == f && IsPresent(flat, k);
      assert PageAgrees(s.items, flat, s.free, k);
      assert forall j :: j in flat && lo <= j < hi && Present in flat[j].flags ==> IsPresent(flat, j) && j != k;
    }
    forall f | f in FramesOf(flat) - FramesIn(flat, lo, hi) ensures f in FramesOf(flat') {
      var k :| k in flat && Present in flat[k].flags && flat[k].frame == f;
      assert !(lo <= k < hi) && Get(flat', k) == Get(flat, k);
      assert k in flat' && flat'[k].frame == f;
    }
  }

  /** A call loses no frame but those of the pages munmap removes, and never gives one back. */
  lemma StepConserves(s: Snapshot, c: Call, base: nat, a: Answer, s': Snapshot)
    requires Does(s, c, base, a, s') && Agrees(s)
    ensures Owned(s') == Owned(s) - Dropped(s, c, a) && Dropped(s, c, a) <= FramesOf(s.flat) && s'.free <= s.free
  {
    hide PagedIn, IsTarget, AreaAdded, Spent, PagesStay, AllPresent;
    match c {
      case CallMmap(addr, length, prot, flags) =>
        if s' != s {
          var target :| IsTarget(s.items, addr, AlignUp(length), flags, base, target)
                        && MmappedAt(s, target, AlignUp(length), prot, flags, a.result, s');
          SpentConserves(s, s', 3 * (AlignUp(length) / PAGE_SIZE));
        }
      case CallMunmap(addr, length) =>
        if a.status.Done? {
          UnmapDrops(s, s'.flat, Vpn(addr), Vpn(addr + AlignUp(length)));
          UnmapOwned(s, s', FramesIn(s.flat, Vpn(addr), Vpn(addr + AlignUp(length))));
        }
      case CallMprotect(addr, length, read, write, exec) =>
        if a.status.Done? {
          SameFramesConserve(s.flat, s'.flat);
        }
      case CallFault(addr, write, user) =>
        if s' != s {
          SpentConserves(s, s', if a.outcome == DemandPaged then 3 else 2);
        }
    }
  }

  lemma UnmapOwned(s: Snapshot, s': Snapshot, dropped: set<nat>)
    requires Agrees(s) && s'.free == s.free && s'.tables == s.tables
    requires FramesOf(s'.flat) == FramesOf(s.flat) - dropped && dropped <= FramesOf(s.flat)
    ensures Owned(s') == Owned(s) - dropped
  {
    forall f | f in dropped ensures f !in s.free && f !in s.tables {
      var k :| k in s.flat && Present in s.flat[k].flags && s.flat[k].frame == f;
      assert IsPresent(s.flat, k) && PageAgrees(s.items, s.flat, s.free, k);
    }
    hide Agrees, FramesOf;
  }

  /** The frames lost by the first `n` calls. */
  ghost function Lost(trace: seq<Snapshot>, calls: seq<Call>, answers: seq<Answer>, n: nat): set<nat>
    requires n <= |calls| == |answers| <= |trace|
  {
    if n == 0 then {} else Lost(trace, calls, answers, n - 1) + Dropped(trace[n - 1], calls[n - 1], answers[n - 1])
  }

  /** Over any run: what is free, under tables and under pages is what was there at the start without the frames of the
    * pages that were unmapped; those never come back, and no call frees a frame. */
  lemma {:induction false} FramesAreConserved(trace: seq<Snapshot>, calls: seq<Call>, base: nat, answers: seq<Answer>,
                                              n: nat)
    requires IsRun(trace, calls, base, answers) && n <= |calls|
    requires forall k: nat :: k < |trace| ==> Agrees(trace[k])
    ensures Owned(trace[n]) == Owned(trace[0]) - Lost(trace, calls, answers, n)
    ensures Lost(trace, calls, answers, n) <= Owned(trace[0]) && trace[n].free <= trace[0].free
  {
    hide Agrees, Does, Owned, Dropped;
    if n > 0 {
      FramesAreConserved(trace, calls, base, answers, n - 1);
      var s, c, a, s' := trace[n - 1], calls[n - 1], answers[n - 1], trace[n];
      assert Does(s, c, base, a, trace[n - 1 + 1]);
      StepConserves(s, c, base, a, s');
      MappedIsOwned(s);
    }
  }

  lemma MappedIsOwned(s: Snapshot)
    ensures FramesOf(s.flat) <= Owned(s) && s.free <= Owned(s)
  {
  }
}
