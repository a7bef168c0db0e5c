/** What mprotect does to a user, and what an unaligned mapping does to a page. */
module VmProtect {
  import opened Layout
  import opened Permissions
  import opened Radix
  import opened FrameAllocators
  import opened PageTables
  import opened Vmas
  import opened Buddy
  import opened FrameBitmaps
  import opened VmSpec
  import opened VmRuns

  // ---------------------------------------------------------------- after mprotect

  /** An area of exactly that range without user access. */
  ghost predicate Closed(items: seq<Vma>, start: nat, end: nat) {
    exists v :: v in items && v.start == start && v.end == end && UserAccess !in v.prot
  }

  /** The area an mprotect names has exactly the rights it asks for, and none of the user's. */
  ghost predicate Granted(items: seq<Vma>, c: Call)
    requires c.CallMprotect?
  {
    exists v :: v in items && v.start == c.addr && v.end == c.addr + AlignUp(c.length)
                && HasRights(v, c.read, c.write, c.exec)
  }

  /** The call changes or removes the area of exactly that range. */
  ghost predicate Targets(c: Call, start: nat, end: nat) {
    (c.CallMunmap? || c.CallMprotect?) && c.addr == start && c.addr + AlignUp(c.length) == end
  }

  /** An area stays as it is unless a call names its range. */
  lemma KeepsArea(s: Snapshot, c: Call, base: nat, a: Answer, s': Snapshot, v: Vma)
    requires Does(s, c, base, a, s') && v in s.items && !Targets(c, v.start, v.end)
    ensures v in s'.items
  {
    hide AlignUp, IsTarget, Untouched, NonePresent, SameFrames, Filled, AllPresent, Overlaps, UserArea, PagedIn;
    hide PagedInOr;
    if s'.items != s.items {
      var j :| 0 <= j < |s.items| && s.items[j] == v;
      match c {
        case CallMmap(addr, length, prot, flags) =>
          InMore(s.items, s'.items, v);
        case CallMunmap(addr, length) =>
          var i :| 0 <= i < |s.items| && AreaDropped(s.items, i, s'.items, addr, AlignUp(length));
          assert s'.items[if j < i then j else j - 1] == v;
        case CallMprotect(addr, length, read, write, exec) =>
          var prot := ProtOf(read, write, exec);
          var i :| 0 <= i < |s.items| && AreaReprotected(s.items, i, s'.items, addr, AlignUp(length), prot);
          assert s'.items[j] == v;
        case CallFault(_, _, _) =>
      }
    }
  }

  lemma InMore(items: seq<Vma>, items': seq<Vma>, v: Vma)
    requires v in items && exists w :: multiset(items') == multiset(items) + multiset{w}
    ensures v in items'
  {
    assert v in multiset(items) && v in multiset(items');
  }

  lemma KeepsClosed(s: Snapshot, c: Call, base: nat, a: Answer, s': Snapshot, start: nat, end: nat)
    requires Does(s, c, base, a, s') && Closed(s.items, start, end)
    requires !(c.CallMunmap? && c.addr == start && c.addr + AlignUp(c.length) == end)
    ensures Closed(s'.items, start, end)
  {
    var v :| v in s.items && v.start == start && v.end == end && UserAccess !in v.prot;
    hide Does;
    if Targets(c, start, end) {
      if s' != s {
        MprotectCloses(s, c, base, a, s');
      }
    } else {
      KeepsArea(s, c, base, a, s', v);
    }
  }

  /** The range of the mprotect at `i` is not unmapped before `j`. */
  ghost predicate StaysMapped(calls: seq<Call>, i: nat, j: nat)
    requires i < j <= |calls| && calls[i].CallMprotect?
  {
    forall m: nat :: i < m < j && calls[m].CallMunmap? ==>
      !(calls[m].addr == calls[i].addr && AlignUp(calls[m].length) == AlignUp(calls[i].length))
  }

  /** After a successful mprotect every later user fault in its range is a protection violation, until the range is
    * unmapped: the new protection never includes user access. */
  lemma {:induction false} MprotectEndsUserFaults(trace: seq<Snapshot>, calls: seq<Call>, base: nat,
                                                  answers: seq<Answer>, i: nat, j: nat)
    requires IsRun(trace, calls, base, answers) && i < j < |calls|
    requires calls[i].CallMprotect? && answers[i] == Changed(Done(()))
    requires calls[j].CallFault? && calls[j].user
    requires calls[i].addr <= AlignDown(calls[j].addr) < calls[i].addr + AlignUp(calls[i].length)
    requires Agrees(trace[j]) && StaysMapped(calls, i, j)
    ensures answers[j] == Fault(ProtectionViolation) && trace[j + 1] == trace[j]
  {
    var start, end := calls[i].addr, calls[i].addr + AlignUp(calls[i].length);
    StaysClosed(trace, calls, base, answers, i, j);
    var v :| v in trace[j].items && v.start == start && v.end == end && UserAccess !in v.prot;
    var n :| 0 <= n < |trace[j].items| && trace[j].items[n] == v;
    OneAreaPerAddress(trace[j].items, n, AlignDown(calls[j].addr));
    assert Does(trace[j], calls[j], base, answers[j], trace[j + 1]);
    assert InSomeArea(trace[j].items, AlignDown(calls[j].addr));
  }

  lemma MprotectCloses(s: Snapshot, c: Call, base: nat, a: Answer, s': Snapshot)
    requires Does(s, c, base, a, s') && c.CallMprotect? && (a == Changed(Done(())) || s' != s)
    ensures Closed(s'.items, c.addr, c.addr + AlignUp(c.length))
    ensures a == Changed(Done(())) && Granted(s'.items, c)
  {
    hide AlignUp, SameFrames, Untouched;
    var k :| 0 <= k < |s.items| && AreaReprotected(s.items, k, s'.items, c.addr, AlignUp(c.length),
                                                   ProtOf(c.read, c.write, c.exec));
    assert s'.items[k] in s'.items;
  }

  lemma {:induction false} StaysClosed(trace: seq<Snapshot>, calls: seq<Call>, base: nat, answers: seq<Answer>, i: nat,
                                       j: nat)
    requires IsRun(trace, calls, base, answers) && i < j <= |calls|
    requires calls[i].CallMprotect? && answers[i] == Changed(Done(()))
    requires StaysMapped(calls, i, j)
    ensures Closed(trace[j].items, calls[i].addr, calls[i].addr + AlignUp(calls[i].length))
    decreases j
  {
    hide Does, Closed, AlignUp;
    if j == i + 1 {
      assert Does(trace[i], calls[i], base, answers[i], trace[i + 1]);
      MprotectCloses(trace[i], calls[i], base, answers[i], trace[j]);
    } else {
      StaysClosed(trace, calls, base, answers, i, j - 1);
      assert Does(trace[j - 1], calls[j - 1], base, answers[j - 1], trace[j - 1 + 1]);
      KeepsClosed(trace[j - 1], calls[j - 1], base, answers[j - 1], trace[j], calls[i].addr,
                  calls[i].addr + AlignUp(calls[i].length));
    }
  }

  /** The processor lets a user access to page `k` through without a fault. */
  ghost predicate UserReaches(m: Mmu, k: nat, write: bool, exec: bool) {
    k < PAGES && Passes(m.tables, m.root, k, Access(true, write, exec))
  }

  /** A user reads every present page, writes it exactly when its area may be written, and executes it exactly when its
    * area may be executed: the page table knows nothing of an area's user access. */
  lemma ReachesExactlyWhen(m: Mmu, s: Snapshot, k: nat, write: bool, exec: bool)
    requires Agrees(s) && Shows(m, s.flat)
    ensures UserReaches(m, k, write, exec) <==>
            IsPresent(s.flat, k)
            && exists v :: v in s.items && v.Contains(k * PAGE_SIZE)
                           && (write ==> Write in v.prot) && (exec ==> Exec in v.prot)
  {
    LeafDecides(m, s.flat, k, Access(true, write, exec));
    hide UserReaches;
    if IsPresent(s.flat, k) {
      assert PageAgrees(s.items, s.flat, s.free, k);
    }
  }

  lemma LeafDecides(m: Mmu, flat: map<nat, Pte>, k: nat, a: Access)
    requires Shows(m, flat)
    ensures k < PAGES && Passes(m.tables, m.root, k, a) <==> k in flat && EntryPermits(flat[k], 3, a)
  {
    var path :| IsTree(m.tables, path, m.root) && Flattens(m.tables, m.root, flat);
    hide IsTree;
    if k < PAGES {
      PassesAsLeaf(m.tables, path, m.root, k, a);
      hide Passes;
      assert EntryAt(m.tables, m.root, k) == Get(flat, k);
    }
  }

  /** A fault taken in the kernel between `i` and `j` paged in page `k`. */
  ghost predicate KernelPagedIn(calls: seq<Call>, answers: seq<Answer>, i: nat, j: nat, k: nat)
    requires j <= |calls| == |answers|
  {
    exists m: nat :: i < m < j && PagesIn(calls[m], answers[m], k)
  }

  ghost predicate PagesIn(c: Call, a: Answer, k: nat) {
    c.CallFault? && !c.user && Vpn(c.addr) == k && a == Fault(DemandPaged)
  }

  /** In an area without user access, a page becomes present only by a fault taken in the kernel. */
  lemma PresentStep(s: Snapshot, c: Call, base: nat, a: Answer, s': Snapshot, start: nat, end: nat, k: nat)
    requires Does(s, c, base, a, s') && Good(s) && Closed(s.items, start, end) && Vpn(start) <= k < Vpn(end)
    requires !(c.CallMunmap? && c.addr == start && c.addr + AlignUp(c.length) == end)
    ensures IsPresent(s'.flat, k) <==> IsPresent(s.flat, k) || PagesIn(c, a, k)
  {
    var v :| v in s.items && v.start == start && v.end == end && UserAccess !in v.prot;
    var i :| 0 <= i < |s.items| && s.items[i] == v;
    AreaHasPage(s, v, k);
    hide Closed, Good, UserArea, Mmapped, Munmapped, Mprotected, Faulted;
    match c {
      case CallMmap(addr, length, prot, flags) =>
        MmapElsewhere(s, addr, length, prot, flags, base, a.result, s', i, k);
      case CallMunmap(addr, length) =>
        MunmapElsewhere(s, addr, length, a.status, s', i, k);
      case CallMprotect(addr, length, read, write, exec) =>
        MprotectKeepsPresent(s, addr, length, ProtOf(read, write, exec), a.status, s', k);
      case CallFault(addr, write, user) =>
        FaultElsewhere(s, addr, write, user, a.outcome, s', v, k);
    }
  }

  lemma SameEntry(flat: map<nat, Pte>, flat': map<nat, Pte>, k: nat)
    requires Get(flat', k) == Get(flat, k)
    ensures IsPresent(flat', k) == IsPresent(flat, k)
  {
  }

  lemma MmapElsewhere(s: Snapshot, addr: nat, length: nat, prot: set<Prot>, flags: set<MmapFlag>, base: nat,
                      r: VmResult<nat>, s': Snapshot, i: nat, k: nat)
    requires Mmapped(s, addr, length, prot, flags, base, r, s')
    requires i < |s.items| && s.items[i].Contains(k * PAGE_SIZE)
    ensures IsPresent(s'.flat, k) == IsPresent(s.flat, k)
  {
    hide IsTarget, Spent, AllPresent, Filled, IsPresent;
    if s' != s {
      var target :| IsTarget(s.items, addr, AlignUp(length), flags, base, target)
                    && MmappedAt(s, target, AlignUp(length), prot, flags, r, s');
      var w := NewArea(target.value, AlignUp(length), prot, flags);
      assert AreaAdded(w, s.items, s'.items, s.flat, s'.flat, r.Done?);
      assert !Overlapping(s.items[i], w.start, w.end);
      assert !(Vpn(w.start) <= k < Vpn(w.end));
      SameEntry(s.flat, s'.flat, k);
    }
  }

  lemma MunmapElsewhere(s: Snapshot, addr: nat, length: nat, r: VmResult<()>, s': Snapshot, i: nat, k: nat)
    requires Munmapped(s, addr, length, r, s') && Good(s) && i < |s.items| && s.items[i].Contains(k * PAGE_SIZE)
    requires !(s.items[i].start == addr && s.items[i].end == addr + AlignUp(length))
    ensures IsPresent(s'.flat, k) == IsPresent(s.flat, k)
  {
    hide IsPresent, AlignUp;
    if s' != s {
      var j :| 0 <= j < |s.items| && AreaDropped(s.items, j, s'.items, addr, AlignUp(length));
      assert s.items[j] in s.items && UserArea(s.items[j]) && i != j;
      assert !s.items[j].Contains(k * PAGE_SIZE);
      assert !(Vpn(s.items[j].start) <= k < Vpn(s.items[j].end));
      SameEntry(s.flat, s'.flat, k);
    }
  }

  lemma MprotectKeepsPresent(s: Snapshot, addr: nat, length: nat, prot: set<Prot>, r: VmResult<()>, s': Snapshot,
                             k: nat)
    requires Mprotected(s, addr, length, prot, r, s')
    ensures IsPresent(s'.flat, k) == IsPresent(s.flat, k)
  {
  }

  lemma FaultElsewhere(s: Snapshot, addr: nat, write: bool, user: bool, outcome: FaultOutcome, s': Snapshot, v: Vma,
                       k: nat)
    requires Faulted(s, addr, write, user, outcome, s') && v in s.items && UserAccess !in v.prot
    requires forall w :: w in s.items && w.Contains(k * PAGE_SIZE) ==> w == v
    requires v.Contains(k * PAGE_SIZE)
    ensures IsPresent(s'.flat, k) <==> IsPresent(s.flat, k) || (!user && Vpn(addr) == k && outcome == DemandPaged)
  {
    assert AlignDown(addr) == Vpn(addr) * PAGE_SIZE;
    hide AlignDown, Spent;
    if Vpn(addr) != k {
      assert s'.flat == s.flat || s'.flat == s.flat[Vpn(addr) := Get(s'.flat, Vpn(addr))];
    } else {
      assert InSomeArea(s.items, AlignDown(addr));
    }
  }

  /** After a successful mprotect a page of its range is present exactly when it was present then or a fault taken in
    * the kernel has paged it in since; a user fault never does. */
  lemma {:induction false} PresentAfterMprotect(trace: seq<Snapshot>, calls: seq<Call>, base: nat,
                                                answers: seq<Answer>, i: nat, j: nat, k: nat)
    requires IsRun(trace, calls, base, answers) && i < j <= |calls|
    requires calls[i].CallMprotect? && answers[i] == Changed(Done(())) && StaysMapped(calls, i, j)
    requires Vpn(calls[i].addr) <= k < Vpn(calls[i].addr + AlignUp(calls[i].length))
    requires forall m: nat :: m < |trace| ==> Good(trace[m])
    ensures IsPresent(trace[j].flat, k) <==> IsPresent(trace[i].flat, k) || KernelPagedIn(calls, answers, i, j, k)
    decreases j
  {
    hide Does, Agrees, Closed, AlignUp, IsPresent, Vpn, UserArea;
    assert Good(trace[j - 1]);
    assert Does(trace[j - 1], calls[j - 1], base, answers[j - 1], trace[j - 1 + 1]);
    if j == i + 1 {
      MprotectKeepsPages(trace[i], calls[i], base, answers[i], trace[j], k);
    } else {
      PresentAfterMprotect(trace, calls, base, answers, i, j - 1, k);
      StaysClosed(trace, calls, base, answers, i, j - 1);
      hide StaysMapped;
      PresentStep(trace[j - 1], calls[j - 1], base, answers[j - 1], trace[j], calls[i].addr,
                  calls[i].addr + AlignUp(calls[i].length), k);
      PagedInNext(calls, answers, i, j, k);
    }
  }

  /** No call names the range of the mprotect at `i` before `j`. */
  ghost predicate StaysProtected(calls: seq<Call>, i: nat, j: nat)
    requires i < j <= |calls| && calls[i].CallMprotect?
  {
    forall m: nat :: i < m < j ==> !Targets(calls[m], calls[i].addr, calls[i].addr + AlignUp(calls[i].length))
  }

  /** The area keeps exactly the rights the mprotect gave it. */
  lemma {:induction false} StaysGranted(trace: seq<Snapshot>, calls: seq<Call>, base: nat, answers: seq<Answer>, i: nat,
                                        j: nat) returns (v: Vma)
    requires IsRun(trace, calls, base, answers) && i < j <= |calls|
    requires calls[i].CallMprotect? && answers[i] == Changed(Done(())) && StaysProtected(calls, i, j)
    ensures v in trace[j].items && v.start == calls[i].addr && v.end == calls[i].addr + AlignUp(calls[i].length)
            && HasRights(v, calls[i].read, calls[i].write, calls[i].exec)
    decreases j
  {
    hide Does, AlignUp, HasRights;
    assert Does(trace[j - 1], calls[j - 1], base, answers[j - 1], trace[j - 1 + 1]);
    if j == i + 1 {
      MprotectCloses(trace[i], calls[i], base, answers[i], trace[j]);
      v :| v in trace[j].items && v.start == calls[i].addr && v.end == calls[i].addr + AlignUp(calls[i].length)
           && HasRights(v, calls[i].read, calls[i].write, calls[i].exec);
    } else {
      v := StaysGranted(trace, calls, base, answers, i, j - 1);
      KeepsArea(trace[j - 1], calls[j - 1], base, answers[j - 1], trace[j], v);
    }
  }

  /** What a user reaches. After a successful mprotect the processor lets a user access to a page of its range through
    * exactly when the page was present then or a fault taken in the kernel has paged it in since, and the mprotect
    * granted the write or the execution, if the access is one. */
  lemma ReachedAfterMprotect(trace: seq<Snapshot>, mmus: seq<Mmu>, calls: seq<Call>, base: nat, answers: seq<Answer>,
                             i: nat, j: nat, k: nat, write: bool, exec: bool)
    requires IsRun(trace, calls, base, answers) && AllShow(mmus, trace) && i < j <= |calls|
    requires calls[i].CallMprotect? && answers[i] == Changed(Done(())) && StaysProtected(calls, i, j)
    requires Vpn(calls[i].addr) <= k < Vpn(calls[i].addr + AlignUp(calls[i].length))
    requires forall m: nat :: m < |trace| ==> Good(trace[m])
    ensures UserReaches(mmus[j], k, write, exec) <==>
            && (IsPresent(trace[i].flat, k) || KernelPagedIn(calls, answers, i, j, k))
            && (write ==> calls[i].write) && (exec ==> calls[i].exec)
  {
    assert StaysMapped(calls, i, j);
    PresentAfterMprotect(trace, calls, base, answers, i, j, k);
    var v := StaysGranted(trace, calls, base, answers, i, j);
    hide IsRun, StaysProtected, StaysMapped, KernelPagedIn, IsPresent, Shows, UserReaches;
    assert Good(trace[j]) && Shows(mmus[j], trace[j].flat);
    ReachesExactlyWhen(mmus[j], trace[j], k, write, exec);
    AreaHasPage(trace[j], v, k);
  }

  lemma AreaHasPage(s: Snapshot, v: Vma, k: nat)
    requires Good(s) && v in s.items && Vpn(v.start) <= k < Vpn(v.end)
    ensures v.Contains(k * PAGE_SIZE) && forall w :: w in s.items && w.Contains(k * PAGE_SIZE) ==> w == v
  {
    var i :| 0 <= i < |s.items| && s.items[i] == v;
    assert UserArea(v) && v.Contains(k * PAGE_SIZE);
    OneAreaPerAddress(s.items, i, k * PAGE_SIZE);
  }

  lemma MprotectKeepsPages(s: Snapshot, c: Call, base: nat, a: Answer, s': Snapshot, k: nat)
    requires Does(s, c, base, a, s') && c.CallMprotect?
    ensures IsPresent(s'.flat, k) == IsPresent(s.flat, k)
  {
  }

  lemma PagedInNext(calls: seq<Call>, answers: seq<Answer>, i: nat, j: nat, k: nat)
    requires i + 1 < j <= |calls| == |answers|
    ensures KernelPagedIn(calls, answers, i, j, k) <==>
            KernelPagedIn(calls, answers, i, j - 1, k) || PagesIn(calls[j - 1], answers[j - 1], k)
  {
    hide PagesIn;
  }

  /** An anonymous mapping of one page at a fixed address where nothing is. */
  lemma MapsOne(s: Snapshot, addr: nat, prot: set<Prot>, base: nat, r: VmResult<nat>, s': Snapshot)
    requires Mmapped(s, addr, 4096, prot, {Fixed, Anonymous}, base, r, s') && |s.free| > 3
    requires Aligned(addr) && USER_ADDR_MIN <= addr < 0x100_0000
    requires |s.items| < MAX_VMAS && !Overlaps(s.items, addr, addr + 4096)
    ensures var v := NewArea(addr, 4096, prot, {Fixed, Anonymous});
            r == Done(addr) && multiset(s'.items) == multiset(s.items) + multiset{v}
    ensures |s'.free| + 3 >= |s.free| && !IsPresent(s'.flat, Vpn(addr))
    ensures forall k: nat :: k != Vpn(addr) ==> IsPresent(s'.flat, k) == IsPresent(s.flat, k)
  {
    var flags := {Fixed, Anonymous};
    AlignOne();
    MmapHasFrames(s, addr, 4096, prot, flags, base, r, s');
    hide AlignUp, Spent, Filled, AllPresent, NonePresent, Untouched, Overlaps, AreaAdded, IsGap;
    assert MmappedAt(s, Done(addr), 4096, prot, flags, r, s');
    hide Mmapped;
    assert r == Done(addr) && Spent(s, s', 3);
    NewArea1(s, s', NewArea(addr, 4096, prot, flags));
  }

  lemma AlignOne()
    ensures AlignUp(4096) == 4096
  {
  }

  lemma NewArea1(s: Snapshot, s': Snapshot, v: Vma)
    requires AreaAdded(v, s.items, s'.items, s.flat, s'.flat, true) && Populate !in v.flags && v.end == v.start + 4096
    requires Spent(s, s', 3)
    ensures multiset(s'.items) == multiset(s.items) + multiset{v}
    ensures |s'.free| + 3 >= |s.free| && !IsPresent(s'.flat, Vpn(v.start))
    ensures forall k: nat :: k != Vpn(v.start) ==> IsPresent(s'.flat, k) == IsPresent(s.flat, k)
  {
    assert Vpn(v.end) == Vpn(v.start) + 1;
    hide Filled;
    forall k: nat | k != Vpn(v.start) ensures IsPresent(s'.flat, k) == IsPresent(s.flat, k) {
      SameEntry(s.flat, s'.flat, k);
    }
    SpentCounts(s, s', 3);
    NothingNew(s.flat, s'.flat);
    MadeAtMost(s, s', 3);
  }

  lemma MadeAtMost(s: Snapshot, s': Snapshot, n: nat)
    requires Spent(s, s', n)
    ensures |s'.tables - s.tables| <= n
  {
  }

  const READ_WRITE: set<Prot> := {Read, Write, UserAccess}
  const FIRST: nat := 0x1_0000
  const SECOND: nat := 0x2_0000

  /** Two areas of one page each, mapped alike; mprotect leaves the first readable and writable. The user's first read
    * of it is refused, while that of the second is paged in. */
  const EXAMPLE: seq<Call> := [
    CallMmap(FIRST, 4096, READ_WRITE, {Fixed, Anonymous}), CallMmap(SECOND, 4096, READ_WRITE, {Fixed, Anonymous}),
    CallMprotect(FIRST, 4096, true, true, false), CallFault(FIRST, false, true), CallFault(SECOND, false, true)
  ]

  lemma MprotectExample(trace: seq<Snapshot>, mmus: seq<Mmu>, base: nat, answers: seq<Answer>)
    requires AllShow(mmus, trace)
    requires IsRun(trace, EXAMPLE, base, answers) && trace[0].items == [] && |trace[0].free| >= 12
    requires trace[0].flat == map[] && forall m: nat :: m < |trace| ==> Good(trace[m])
    ensures answers[2] == Changed(Done(()))
    ensures answers[3] == Fault(ProtectionViolation) && answers[4] == Fault(DemandPaged)
    ensures !UserReaches(mmus[5], Vpn(FIRST), false, false) && UserReaches(mmus[5], Vpn(SECOND), true, false)
  {
    AlignOne();
    hide Good, Does, AlignUp;
    TwoMapped(trace, base, answers);
    Reprotected(trace, base, answers);
    assert Vpn(FIRST) == 16 && Vpn(FIRST + 4096) == 17;
    assert AlignDown(FIRST) == FIRST;
    hide Vpn, AlignDown;
    GoodAgrees(trace[3]);
    MprotectEndsUserFaults(trace, EXAMPLE, base, answers, 2, 3);
    SecondPagedIn(trace, mmus[5], base, answers);
    ReachedAfterMprotect(trace, mmus, EXAMPLE, base, answers, 2, 5, Vpn(FIRST), false, false);
  }

  lemma GoodAgrees(s: Snapshot)
    requires Good(s)
    ensures Agrees(s)
  {
  }

  ghost function OneArea(addr: nat): Vma { NewArea(addr, 4096, READ_WRITE, {Fixed, Anonymous}) }

  lemma TwoMapped(trace: seq<Snapshot>, base: nat, answers: seq<Answer>)
    requires IsRun(trace, EXAMPLE, base, answers) && trace[0].items == [] && |trace[0].free| >= 12
    requires trace[0].flat == map[]
    ensures multiset(trace[2].items) == multiset{OneArea(FIRST), OneArea(SECOND)} && |trace[2].free| >= 6
    ensures !IsPresent(trace[2].flat, Vpn(FIRST)) && !IsPresent(trace[2].flat, Vpn(SECOND))
  {
    hide Mmapped, IsPresent;
    assert Does(trace[0], EXAMPLE[0], base, answers[0], trace[0 + 1]);
    assert Does(trace[1], EXAMPLE[1], base, answers[1], trace[1 + 1]);
    MapsOne(trace[0], FIRST, READ_WRITE, base, answers[0].result, trace[1]);
    var v := OneArea(FIRST);
    assert trace[1].items == [v] by {
      assert |trace[1].items| == |multiset(trace[1].items)| == 1;
      assert trace[1].items[0] in multiset(trace[1].items);
    }
    MapsOne(trace[1], SECOND, READ_WRITE, base, answers[1].result, trace[2]);
  }

  lemma Reprotected(trace: seq<Snapshot>, base: nat, answers: seq<Answer>)
    requires IsRun(trace, EXAMPLE, base, answers)
    requires multiset(trace[2].items) == multiset{OneArea(FIRST), OneArea(SECOND)} && |trace[2].free| >= 6
    ensures answers[2] == Changed(Done(())) && trace[3].free == trace[2].free && OneArea(SECOND) in trace[3].items
    ensures forall k: nat :: IsPresent(trace[3].flat, k) == IsPresent(trace[2].flat, k)
  {
    assert Does(trace[2], EXAMPLE[2], base, answers[2], trace[2 + 1]);
    AlignOne();
    hide AlignUp;
    var items, items' := trace[2].items, trace[3].items;
    assert OneArea(FIRST) in multiset(items) && OneArea(SECOND) in multiset(items);
    assert IsArea(items, FIRST, 4096);
    var i :| 0 <= i < |items| && AreaReprotected(items, i, items', FIRST, 4096, ProtOf(true, true, false));
    var j :| 0 <= j < |items| && items[j] == OneArea(SECOND);
    assert items'[j] == OneArea(SECOND);
  }

  lemma SecondPagedIn(trace: seq<Snapshot>, m: Mmu, base: nat, answers: seq<Answer>)
    requires IsRun(trace, EXAMPLE, base, answers) && OneArea(SECOND) in trace[3].items && |trace[3].free| >= 6
    requires !IsPresent(trace[3].flat, Vpn(SECOND)) && trace[4] == trace[3] && Good(trace[3]) && Good(trace[5])
             && Shows(m, trace[5].flat)
    ensures answers[4] == Fault(DemandPaged) && UserReaches(m, Vpn(SECOND), true, false)
  {
    assert Does(trace[4], EXAMPLE[4], base, answers[4], trace[4 + 1]);
    var s, v := trace[4], OneArea(SECOND);
    assert AlignDown(SECOND) == SECOND && v.Contains(SECOND) && InSomeArea(s.items, SECOND);
    var i :| 0 <= i < |s.items| && s.items[i] == v;
    OneAreaPerAddress(s.items, i, SECOND);
    FaultHasFrames(s, Vpn(SECOND), v.prot, answers[4].outcome, trace[5]);
    hide Shows, UserReaches;
    ReachesExactlyWhen(m, trace[5], Vpn(SECOND), true, false);
  }

  // ---------------------------------------------------------------- unaligned areas

  ghost function SnapOf(table: PageTable, items: seq<Vma>): Snapshot
    reads table, table.phys, table.phys.bitmap, table.phys.bitmap.words, table.phys.buddy
    requires table.Valid()
  {
    Snapshot(items, table.flat, table.phys.Free(), table.tables.Keys)
  }

  /** The areas let through the same writes and executions. */
  ghost predicate SameRights(v: Vma, w: Vma) {
    (Write in v.prot <==> Write in w.prot) && (Exec in v.prot <==> Exec in w.prot)
  }

  /** Pages and areas still agree exactly when some area with these rights holds the start of the page. */
  lemma FirstPageAgreesExactlyWhen(s: Snapshot, v: Vma, frame: nat, s': Snapshot)
    requires Agrees(s) && frame in s.free && !IsPresent(s.flat, Vpn(v.start))
    requires s' == s.(flat := s.flat[Vpn(v.start) := Pte(frame, FlagsFromProt(v.prot, true))], free := s.free - {frame})
    ensures Agrees(s') <==> exists w :: w in s.items && w.Contains(AlignDown(v.start)) && SameRights(v, w)
    ensures v.start < v.end ==> (v.Contains(AlignDown(v.start)) <==> Aligned(v.start))
  {
    var k, e := Vpn(v.start), Pte(frame, FlagsFromProt(v.prot, true));
    assert k * PAGE_SIZE == AlignDown(v.start) && IsPresent(s'.flat, k) && s'.flat[k] == e;
    assert forall w :: Matches(e, w) <==> SameRights(v, w);
    hide AlignDown, Vpn, FlagsFromProt;
    SpentOnPageOf(s, s', k, e);
    if Agrees(s') {
      HasArea(s', k);
    }
    if w :| w in s.items && w.Contains(k * PAGE_SIZE) && SameRights(v, w) {
      AgreesWith(s, s', k, e, w);
    }
  }

  lemma HasArea(s: Snapshot, k: nat)
    requires Agrees(s) && IsPresent(s.flat, k)
    ensures exists w :: w in s.items && w.Contains(k * PAGE_SIZE) && Matches(s.flat[k], w)
  {
    assert PageAgrees(s.items, s.flat, s.free, k);
  }

  lemma SpentOnPageOf(s: Snapshot, s': Snapshot, k: nat, e: Pte)
    requires Agrees(s) && e.frame in s.free && !IsPresent(s.flat, k) && Present in e.flags
    requires s' == s.(flat := s.flat[k := e], free := s.free - {e.frame})
    ensures FramesOf(s'.flat) == FramesOf(s.flat) + {e.frame}
  {
    GrewNone(s.tables, s.free - {e.frame}, 0);
    SpentOnPage(s, s', k, e, 0);
    FramesGrow(s.flat, s'.flat);
  }

  lemma AgreesWith(s: Snapshot, s': Snapshot, k: nat, e: Pte, w: Vma)
    requires Agrees(s) && e.frame in s.free && !IsPresent(s.flat, k) && Present in e.flags
    requires s' == s.(flat := s.flat[k := e], free := s.free - {e.frame})
    requires FramesOf(s'.flat) == FramesOf(s.flat) + {e.frame}
    requires w in s.items && w.Contains(k * PAGE_SIZE) && Matches(e, w)
    ensures Agrees(s')
  {
    hide FramesOf, Matches;
    var i :| 0 <= i < |s.items| && s.items[i] == w;
    OneAreaPerAddress(s.items, i, k * PAGE_SIZE);
    hide Disjoint, Vma.Contains;
    forall j: nat | IsPresent(s'.flat, j) ensures PageAgrees(s'.items, s'.flat, s'.free, j) {
      if j != k {
        assert IsPresent(s.flat, j) && s'.flat[j] == s.flat[j] && PageAgrees(s.items, s.flat, s.free, j);
      }
      assert forall m: nat :: IsPresent(s'.flat, m) && m != k ==>
                 IsPresent(s.flat, m) && s'.flat[m] == s.flat[m] && PageAgrees(s.items, s.flat, s.free, m);
    }
  }

  /** The first turn of populate on a marked area that may start anywhere. */
  method MapFirstPage(table: PageTable, node: nat, ghost items: seq<Vma>, v: Vma) returns (mapped: bool)
    requires table.Valid() && v in items && v.start < v.end <= USER_MMAP_LIMIT
    requires Agrees(SnapOf(table, items)) && Vpn(v.start) in table.flat && !IsPresent(table.flat, Vpn(v.start))
    modifies table.Repr()
    ensures table.Valid() && (mapped <==> old(table.phys.Free()) != {})
    ensures mapped ==>
              (Agrees(SnapOf(table, items)) <==>
               exists w :: w in items && w.Contains(AlignDown(v.start)) && SameRights(v, w))
  {
    hide IsTree, Flattens, BuddyAllocator.Valid, BuddyAllocator.Contents, FrameBitmap.Used, Agrees, Grew;
    ghost var s := SnapOf(table, items);
    var frame := table.phys.AllocOne(node);
    if frame.None? {
      return false;
    }
    var flags := FlagsFromProt(v.prot, true);
    assert Present in flags;
    hide FlagsFromProt;
    assert Key(v.start) == Vpn(v.start);
    PutPresent(table.flat, Vpn(v.start), frame.value, flags);
    hide Vpn, Key, Put, IsPresent;
    var r := table.MapPage(v.start, frame.value, flags);
    mapped := r.Ok?;
    FirstPageAgreesExactlyWhen(s, v, frame.value, SnapOf(table, items));
  }

  /** An area that mmap makes at a fixed address of 0x10800: its first page starts at 0x10000, outside it. */
  lemma UnalignedExample(s: Snapshot, frame: nat, s': Snapshot)
    requires var v := Vma(0x1_0800, 0x1_1800, {Read, UserAccess}, {Fixed, Populate}, AnonymousArea);
             && s.items == [v] && Agrees(s) && frame in s.free && !IsPresent(s.flat, 16)
             && s' == s.(flat := s.flat[16 := Pte(frame, FlagsFromProt(v.prot, true))], free := s.free - {frame})
    ensures IsPresent(s'.flat, 16) && !Agrees(s')
  {
    assert Vpn(0x1_0800) == 16 && AlignDown(0x1_0800) == 0x1_0000;
    FirstPageAgreesExactlyWhen(s, s.items[0], frame, s');
  }
}
