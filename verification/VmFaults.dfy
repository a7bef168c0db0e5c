/** What a page fault means to the program that took it, and what a new mapping lets it do. */
module VmFaults {
  import opened Layout
  import opened Permissions
  import opened Radix
  import opened PageTables
  import opened Vmas
  import opened VmSpec
  import opened VmRuns
  import opened VmProtect

  /** An area holds the address and grants the access: a user needs user access, a write the right to write. */
  ghost predicate AreaLets(items: seq<Vma>, a: nat, write: bool, user: bool) {
    exists v :: v in items && v.start <= a < v.end && (user ==> UserAccess in v.prot) && (write ==> Write in v.prot)
  }

  ghost predicate AreaExecutes(items: seq<Vma>, a: nat) {
    exists v :: v in items && v.start <= a < v.end && Exec in v.prot
  }

  /** The outcomes on which the handler returns to the program. */
  predicate Returns(outcome: FaultOutcome) {
    outcome.Handled? || outcome.DemandPaged?
  }

  /** The handler returns exactly when an area grants the access, but that frames may have run out. */
  lemma FaultReturnsExactlyWhen(s: Snapshot, addr: nat, write: bool, user: bool, outcome: FaultOutcome, s': Snapshot)
    requires Disjoint(s.items) && Faulted(s, addr, write, user, outcome, s')
    ensures |s.free| >= 4 || IsPresent(s.flat, Vpn(addr)) ==>
              (Returns(outcome) <==> AreaLets(s.items, AlignDown(addr), write, user))
    ensures Returns(outcome) ==> AreaLets(s.items, AlignDown(addr), write, user) && IsPresent(s'.flat, Vpn(addr))
    ensures outcome.BadAddress? <==> !InSomeArea(s.items, AlignDown(addr))
    ensures s'.items == s.items && (!Returns(outcome) ==> s'.flat == s.flat)
    ensures !AreaLets(s.items, AlignDown(addr), write, user) ==> s' == s
  {
    hide Disjoint, Spent;
    var a := AlignDown(addr);
    if InSomeArea(s.items, a) {
      var v :| v in s.items && v.Contains(a) && FaultIn(s, v, Vpn(addr), write, user, outcome, s');
      var i :| 0 <= i < |s.items| && s.items[i] == v;
      OneAreaPerAddress(s.items, i, a);
      assert AreaLets(s.items, a, write, user) <==>
             (user ==> UserAccess in v.prot) && (write ==> Write in v.prot);
      if AreaLets(s.items, a, write, user) && !IsPresent(s.flat, Vpn(addr)) {
        FaultHasFrames(s, Vpn(addr), v.prot, outcome, s');
      }
    }
  }

  /** When the handler returns, the processor lets the access through, unless it is a fetch from an area that must not
    * be executed: the handler does not look at the fetch bit of the error code. */
  lemma ReturnedFaultPassesExactlyWhen(m: Mmu, s: Snapshot, addr: nat, write: bool, user: bool, exec: bool,
                                       outcome: FaultOutcome, s': Snapshot)
    requires Good(s) && Good(s') && Shows(m, s'.flat)
    requires Faulted(s, addr, write, user, outcome, s') && Returns(outcome)
    ensures Vpn(addr) < PAGES && Passes(m.tables, m.root, Vpn(addr), Access(user, write, exec)) <==>
            exec ==> AreaExecutes(s.items, AlignDown(addr))
  {
    hide Shows, Passes, Faulted, Disjoint;
    var k, a := Vpn(addr), AlignDown(addr);
    assert k * PAGE_SIZE == a;
    LeafDecides(m, s'.flat, k, Access(user, write, exec));
    FaultReturnsExactlyWhen(s, addr, write, user, outcome, s');
    assert PageAgrees(s'.items, s'.flat, s'.free, k);
    var v :| v in s.items && v.Contains(a) && Matches(s'.flat[k], v)
             && forall w :: w in s.items && w.Contains(a) ==> w == v;
    var w :| w in s.items && w.start <= a < w.end && (user ==> UserAccess in w.prot) && (write ==> Write in w.prot);
    assert w.Contains(a);
    assert AreaExecutes(s.items, a) <==> Exec in v.prot by {
      if AreaExecutes(s.items, a) {
        var u :| u in s.items && u.start <= a < u.end && Exec in u.prot;
        assert u.Contains(a);
      }
    }
  }

  /** In every run, an access whose fault was handled passes, but a fetch that its area forbids. */
  lemma FaultsAreServed(trace: seq<Snapshot>, mmus: seq<Mmu>, calls: seq<Call>, base: nat, answers: seq<Answer>, i: nat,
                        exec: bool)
    requires IsRun(trace, calls, base, answers) && AllShow(mmus, trace)
    requires forall n: nat :: n < |trace| ==> Good(trace[n])
    requires i < |calls| && calls[i].CallFault? && answers[i].Fault? && Returns(answers[i].outcome)
    ensures Passes(mmus[i + 1].tables, mmus[i + 1].root, Vpn(calls[i].addr),
                   Access(calls[i].user, calls[i].write, exec))
       <==> exec ==> AreaExecutes(trace[i].items, AlignDown(calls[i].addr))
  {
    hide Shows, Passes, Good, AreaExecutes, AlignDown, Vpn;
    var c := calls[i];
    assert Does(trace[i], c, base, answers[i], trace[i + 1]);
    assert Good(trace[i]) && Good(trace[i + 1]) && Shows(mmus[i + 1], trace[i + 1].flat);
    ReturnedFaultPassesExactlyWhen(mmus[i + 1], trace[i], c.addr, c.write, c.user, exec, answers[i].outcome,
                                   trace[i + 1]);
    ReturnedFaultPassesExactlyWhen(mmus[i + 1], trace[i], c.addr, c.write, c.user, false, answers[i].outcome,
                                   trace[i + 1]);
  }

  // ---------------------------------------------------------------- a fetch that never gets through

  /** The page is there, an area grants the access, and no area may be executed. */
  ghost predicate Stuck(s: Snapshot, addr: nat, write: bool, user: bool) {
    && IsPresent(s.flat, Vpn(addr)) && AreaLets(s.items, AlignDown(addr), write, user)
    && !AreaExecutes(s.items, AlignDown(addr))
  }

  /** From there the same fetch faults for ever: each fault is answered as handled, and nothing changes. */
  lemma {:induction false} FetchFaultsForEver(trace: seq<Snapshot>, mmus: seq<Mmu>, calls: seq<Call>, base: nat,
                                              answers: seq<Answer>, i: nat, j: nat, addr: nat, write: bool, user: bool)
    requires IsRun(trace, calls, base, answers) && AllShow(mmus, trace)
    requires forall n: nat :: n < |trace| ==> Good(trace[n])
    requires i < j <= |calls| && Stuck(trace[i], addr, write, user)
    requires forall n: nat :: i <= n < j ==> calls[n] == CallFault(addr, write, user)
    ensures trace[j] == trace[i] && answers[j - 1] == Fault(Handled)
    ensures !Passes(mmus[j].tables, mmus[j].root, Vpn(addr), Access(user, write, true))
  {
    hide Shows, Passes, Good, Stuck, Vpn, AllShow, IsRun;
    if i + 1 < j {
      FetchFaultsForEver(trace, mmus, calls, base, answers, i, j - 1, addr, write, user);
    }
    assert calls[j - 1] == CallFault(addr, write, user);
    FetchFaultsAgain(trace, mmus, calls, base, answers, j - 1);
  }

  lemma FetchFaultsAgain(trace: seq<Snapshot>, mmus: seq<Mmu>, calls: seq<Call>, base: nat, answers: seq<Answer>,
                         i: nat)
    requires IsRun(trace, calls, base, answers) && AllShow(mmus, trace)
    requires forall n: nat :: n < |trace| ==> Good(trace[n])
    requires i < |calls| && calls[i].CallFault? && Stuck(trace[i], calls[i].addr, calls[i].write, calls[i].user)
    ensures trace[i + 1] == trace[i] && answers[i] == Fault(Handled)
    ensures !Passes(mmus[i + 1].tables, mmus[i + 1].root, Vpn(calls[i].addr),
                    Access(calls[i].user, calls[i].write, true))
  {
    hide Shows, Passes, Good, AreaExecutes, AreaLets, AlignDown, Vpn, AllShow, Faulted;
    var c := calls[i];
    assert Does(trace[i], c, base, answers[i], trace[i + 1]);
    StuckStays(trace[i], c.addr, c.write, c.user, answers[i].outcome, trace[i + 1]);
    FaultsAreServed(trace, mmus, calls, base, answers, i, true);
  }

  lemma StuckStays(s: Snapshot, addr: nat, write: bool, user: bool, outcome: FaultOutcome, s': Snapshot)
    requires Good(s) && Stuck(s, addr, write, user) && Faulted(s, addr, write, user, outcome, s')
    ensures outcome == Handled && s' == s
  {
    FaultReturnsExactlyWhen(s, addr, write, user, outcome, s');
  }

  const DATA: set<Prot> := {Read, UserAccess}

  /** A page mapped to be read; the user jumps to it. */
  const FETCH: seq<Call> := [
    CallMmap(FIRST, 4096, DATA, {Fixed, Anonymous}), CallFault(FIRST, false, true), CallFault(FIRST, false, true)
  ]

  lemma FetchExample(trace: seq<Snapshot>, mmus: seq<Mmu>, base: nat, answers: seq<Answer>)
    requires IsRun(trace, FETCH, base, answers) && AllShow(mmus, trace)
    requires forall n: nat :: n < |trace| ==> Good(trace[n])
    requires trace[0].items == [] && trace[0].flat == map[] && |trace[0].free| >= 7
    ensures answers[1] == Fault(DemandPaged) && answers[2] == Fault(Handled) && trace[3] == trace[2]
    ensures !Passes(mmus[3].tables, mmus[3].root, Vpn(FIRST), Access(true, false, true))
  {
    hide Shows, Passes, Good, AllShow;
    assert Does(trace[0], FETCH[0], base, answers[0], trace[0 + 1]);
    assert Does(trace[1], FETCH[1], base, answers[1], trace[1 + 1]);
    hide Mmapped, Faulted;
    MapsOne(trace[0], FIRST, DATA, base, answers[0].result, trace[1]);
    var v := NewArea(FIRST, 4096, DATA, {Fixed, Anonymous});
    assert trace[1].items == [v] by {
      assert |trace[1].items| == |multiset(trace[1].items)| == 1;
      assert trace[1].items[0] in multiset(trace[1].items);
    }
    assert Good(trace[1]);
    DataPagedIn(trace[1], v, answers[1].outcome, trace[2]);
    FetchFaultsForEver(trace, mmus, FETCH, base, answers, 2, 3, FIRST, false, true);
  }

  lemma DataPagedIn(s: Snapshot, v: Vma, outcome: FaultOutcome, s': Snapshot)
    requires Good(s) && s.items == [v] && v == NewArea(FIRST, 4096, DATA, {Fixed, Anonymous}) && |s.free| >= 4
    requires !IsPresent(s.flat, Vpn(FIRST)) && Faulted(s, FIRST, false, true, outcome, s')
    ensures outcome == DemandPaged && Stuck(s', FIRST, false, true)
  {
    assert Faulted(s, FIRST, false, true, outcome, s') && Disjoint(s.items);
    hide Faulted, Disjoint, Good;
    assert AlignDown(FIRST) == FIRST && v in s.items;
    FaultReturnsExactlyWhen(s, FIRST, false, true, outcome, s');
    PagedInOrThere(s, FIRST, outcome, s');
  }

  lemma PagedInOrThere(s: Snapshot, addr: nat, outcome: FaultOutcome, s': Snapshot)
    requires Faulted(s, addr, false, true, outcome, s') && !IsPresent(s.flat, Vpn(addr))
    ensures outcome != Handled
  {
    hide Spent, PagedIn;
  }

  // ---------------------------------------------------------------- what mmap gives

  /** The new area is the length rounded up to pages, at the address answered, with the rights asked for. */
  ghost predicate IsNewArea(v: Vma, start: nat, length: nat, prot: set<Prot>, flags: set<MmapFlag>) {
    && v.start == start && v.end == start + AlignUp(length) && v.prot == prot && v.flags == flags
    && (v.kind.StackArea? <==> Stack in flags)
    && (v.kind.MmapArea? <==> Stack !in flags && Shared in flags && Anonymous !in flags)
    && (v.kind.AnonymousArea? <==> Stack !in flags && (Anonymous in flags || Shared !in flags))
  }

  lemma MmapMeans(s: Snapshot, addr: nat, length: nat, prot: set<Prot>, flags: set<MmapFlag>, base: nat,
                  r: VmResult<nat>, s': Snapshot)
    returns (v: Vma)
    requires Mmapped(s, addr, length, prot, flags, base, r, s') && r.Done?
    ensures length > 0 && IsNewArea(v, r.value, length, prot, flags)
    ensures multiset(s'.items) == multiset(s.items) + multiset{v}
    ensures 0x1_0000 <= r.value && r.value + AlignUp(length) <= USER_MMAP_LIMIT
    ensures forall k: nat :: Vpn(r.value) <= k < Vpn(r.value + AlignUp(length)) ==>
              (IsPresent(s'.flat, k) <==> Populate in flags)
    ensures Fixed in flags ==> r.value == addr
  {
    hide Spent, Filled, Untouched, AlignUp, Overlaps, IsGap;
    var target :| IsTarget(s.items, addr, AlignUp(length), flags, base, target)
                  && MmappedAt(s, target, AlignUp(length), prot, flags, r, s');
    v := NewArea(target.value, AlignUp(length), prot, flags);
    assert AreaAdded(v, s.items, s'.items, s.flat, s'.flat, true);
  }

  /** After mmap a user reaches the pages of the area at once exactly when they were populated and the access is one
    * that was asked for. */
  lemma MmapReachesExactlyWhen(m: Mmu, s: Snapshot, addr: nat, length: nat, prot: set<Prot>, flags: set<MmapFlag>,
                               base: nat, r: VmResult<nat>, s': Snapshot, k: nat, write: bool, exec: bool)
    requires Good(s') && Shows(m, s'.flat) && Mmapped(s, addr, length, prot, flags, base, r, s') && r.Done?
    requires Vpn(r.value) <= k < Vpn(r.value + AlignUp(length))
    ensures UserReaches(m, k, write, exec) <==>
            Populate in flags && (write ==> Write in prot) && (exec ==> Exec in prot)
  {
    hide Shows, UserReaches, Mmapped, AlignUp;
    var v := MmapMeans(s, addr, length, prot, flags, base, r, s');
    assert v in multiset(s'.items);
    assert UserArea(v);
    assert v.Contains(k * PAGE_SIZE);
    GoodAgrees(s');
    var i :| 0 <= i < |s'.items| && s'.items[i] == v;
    OneAreaPerAddress(s'.items, i, k * PAGE_SIZE);
    ReachesExactlyWhen(m, s', k, write, exec);
  }
}
