/** mmap, munmap, mprotect and page faults: the area array and the page table kept in agreement. */
module AddressSpaces {
  import opened Layout
  import opened Permissions
  import opened Radix
  import opened FrameAllocators
  import opened PageTables
  import opened Vmas
  import opened Buddy
  import opened FrameBitmaps
  import opened VmSpec

  class AddressSpace {
    const table: PageTable
    const vma: VmaTree
    const node: nat

    ghost predicate Parts()
      reads this, table, table.phys, table.phys.bitmap, table.phys.bitmap.words, table.phys.buddy, vma, vma.entries
    {
      table.Valid() && vma.Valid() && table.Repr() !! {this, vma, vma.entries}
    }

    ghost predicate Frames()
      reads this, table, table.phys, table.phys.bitmap, table.phys.bitmap.words, table.phys.buddy
      requires table.Valid()
    {
      FramesOk(table.flat, table.phys.Free(), table.tables.Keys)
    }

    ghost predicate Valid()
      reads this, table, table.phys, table.phys.bitmap, table.phys.bitmap.words, table.phys.buddy, vma, vma.entries
    {
      Parts() && Frames() && Covered(vma.items, table.flat)
    }

    ghost function Snap(): Snapshot
      reads this, table, table.phys, table.phys.bitmap, table.phys.bitmap.words, table.phys.buddy, vma, vma.entries
      requires table.Valid()
    {
      Snapshot(vma.items, table.flat, table.phys.Free(), table.tables.Keys)
    }

    constructor (table: PageTable, vma: VmaTree, node: nat)
      requires table.Valid() && vma.Valid() && table.flat == map[] && vma.items == []
      requires table.Repr() !! {vma, vma.entries}
      ensures Valid() && this.table == table && this.vma == vma
    {
      this.table := table;
      this.vma := vma;
      this.node := node;
    }

    /** `map_vma_demand`: mark every page of the area for demand paging. */
    method MapVmaDemand(v: Vma) returns (ok: bool)
      requires Valid() && UserArea(v) && v.start < v.end
      modifies table.Repr()
      ensures Valid()
      ensures NonePresent(old(table.flat), Vpn(v.start), Vpn(v.end)) ==>
                Spent(old(Snap()), Snap(), 3 * v.PageCount()) && NonePresent(table.flat, Vpn(v.start), Vpn(v.end))
      ensures ok ==> Filled(table.flat, old(table.flat), Vpn(v.start), Vpn(v.end), DemandEntry(v.prot))
      ensures !ok ==> table.phys.Free() == {} && Untouched(table.flat, old(table.flat), Vpn(v.start), Vpn(v.end))
    {
      hide DemandEntry, IsTree, Flattens, FramesOk, Covered, Filled, Untouched, Disjoint, VmaTree.Dense, FlagsFromProt;
      hide PageTable.Valid, VmaTree.Valid, Frames, FrameAllocator.Free, Snap, Spent, NonePresent;
      var pages := v.PageCount();
      var flags := FlagsFromProt(v.prot, true) + {SoftwareDemand};
      ghost var before, lo, hi, s := table.flat, Vpn(v.start), Vpn(v.end), Snap();
      PagesOfArea(v);
      FillNone(before, lo, DemandEntry(v.prot));
      SpentNothing(s);
      for i := 0 to pages
        invariant Valid()
        invariant Filled(table.flat, before, lo, lo + i, DemandEntry(v.prot))
        invariant NonePresent(before, lo, hi) ==> Spent(s, Snap(), 3 * i) && NonePresent(table.flat, lo, hi)
      {
        var done := MarkPage(v, i, flags, before, s);
        if !done {
          if NonePresent(before, lo, hi) {
            SpentAtMost(s, Snap(), 3 * (i + 1), 3 * pages);
          }
          return false;
        }
      }
      ok := true;
    }

    /** The loop body: mark page `i` of the area. `s` is the state before the loop, with the pages `before`. */
    method MarkPage(v: Vma, i: nat, flags: set<Flag>, ghost before: map<nat, Pte>, ghost s: Snapshot)
      returns (done: bool)
      requires Valid() && UserArea(v) && v.start < v.end && i < v.PageCount()
      requires flags == FlagsFromProt(v.prot, true) + {SoftwareDemand}
      requires Filled(table.flat, before, Vpn(v.start), Vpn(v.start) + i, DemandEntry(v.prot))
      requires NonePresent(before, Vpn(v.start), Vpn(v.end)) ==> Spent(s, Snap(), 3 * i)
      modifies table.Repr()
      ensures Valid()
      ensures done ==> Filled(table.flat, before, Vpn(v.start), Vpn(v.start) + (i + 1), DemandEntry(v.prot))
      ensures NonePresent(before, Vpn(v.start), Vpn(v.end)) ==>
                Spent(s, Snap(), 3 * (i + 1)) && NonePresent(table.flat, Vpn(v.start), Vpn(v.end))
      ensures !done ==> table.phys.Free() == {} && Untouched(table.flat, before, Vpn(v.start), Vpn(v.end))
    {
      hide DemandEntry, IsTree, Flattens, FramesOk, Covered, Filled, Untouched, Disjoint, VmaTree.Dense, FlagsFromProt;
      hide BuddyAllocator.Valid, BuddyAllocator.Contents, FrameBitmap.Used, Spent;
      ghost var lo, hi, s1, flat := Vpn(v.start), Vpn(v.end), Snap(), table.flat;
      PagesOfArea(v);
      KeyOfPage(v.start, i);
      hide Key, UserArea, Vma.PageCount;
      FilledLeaves(flat, before, lo, lo + i, hi, DemandEntry(v.prot));
      FillNext(flat, before, lo, lo + i, DemandEntry(v.prot));
      FilledAbsent(flat, before, lo, lo + i, hi, v.prot);
      FilledAbsent(flat[lo + i := DemandEntry(v.prot)], before, lo, lo + (i + 1), hi, v.prot);
      assert NonePresent(before, lo, hi) ==> !IsPresent(flat, lo + i);
      hide NonePresent, IsPresent;
      done := DemandPage(v.start + i * PAGE_SIZE, flags, v.prot);
      if NonePresent(before, lo, hi) {
        SpentTrans(s, s1, Snap(), 3 * i, 3);
      }
    }

    method DemandPage(va: nat, flags: set<Flag>, ghost prot: set<Prot>) returns (done: bool)
      requires Valid() && flags == FlagsFromProt(prot, true) + {SoftwareDemand}
      modifies table.Repr()
      ensures Valid() && (!IsPresent(old(table.flat), Key(va)) ==> Spent(old(Snap()), Snap(), 3))
      ensures done ==> table.flat == old(table.flat)[Key(va) := DemandEntry(prot)]
      ensures !done ==> table.flat == old(table.flat) && table.phys.Free() == {}
    {
      hide FramesOk, CoveredBut, VmaTree.Valid, PageTable.Valid, FrameAllocator.Free, Grew, Spent, Key;
      ghost var s, e := Snap(), DemandEntry(prot);
      assert Pte(0, flags + {SoftwareDemand} - {Present}) == e;
      hide DemandEntry, FlagsFromProt, IsPresent;
      done := MarkEntry(va, flags, e);
      ghost var s' := Snap();
      TablesGrow(s.flat, s.free, s.tables, s'.free, s'.tables, 3);
      SpentOnMark(s, s', Key(va), e);
      DemandKeeps(s.items, s.flat, s'.free, s'.tables, Key(va), e, 0, 0);
    }

    /** `map_page_demand` as the address space sees it. */
    method MarkEntry(va: nat, flags: set<Flag>, ghost e: Pte) returns (done: bool)
      requires Parts() && e == Pte(0, flags + {SoftwareDemand} - {Present})
      modifies table.Repr()
      ensures Parts() && vma.items == old(vma.items)
      ensures Grew(old(Snap()).tables, old(Snap()).free, Snap().tables, Snap().free, 3)
      ensures table.flat == if done then old(table.flat)[Key(va) := e] else old(table.flat)
      ensures !done ==> Snap().free == {}
    {
      hide PageTable.Valid, VmaTree.Valid, FrameAllocator.Free, Grew, Key;
      ghost var s := Snap();
      var r := table.MapPageDemand(va, flags);
      GrewAtMost(s.tables, s.free, Snap().tables, Snap().free, if r.Err? then 2 else 3, 3);
      done := r.Ok?;
    }

    /** A frame that is allocated but neither a table nor mapped. */
    ghost predicate Unused(frame: nat)
      requires Parts()
      reads this, table, table.phys, table.phys.bitmap, table.phys.bitmap.words, table.phys.buddy, vma, vma.entries
    {
      && frame < table.phys.bitmap.frameCount && frame !in table.phys.Free() && frame !in table.tables.Keys
      && forall k: nat :: IsPresent(table.flat, k) ==> table.flat[k].frame != frame
    }

    method TakeFrame() returns (r: Option<nat>)
      requires Valid()
      modifies table.phys.Repr()
      ensures Valid() && table.flat == old(table.flat) && table.tables == old(table.tables)
      ensures r.None? ==> old(table.phys.Free()) == {} && table.phys.Free() == {}
      ensures r.Some? ==> Unused(r.value) && r.value in old(table.phys.Free())
                          && table.phys.Free() == old(table.phys.Free()) - {r.value}
    {
      hide IsTree, Flattens, Covered, Disjoint, VmaTree.Dense, BuddyAllocator.Valid, BuddyAllocator.Contents;
      r := table.phys.AllocOne(node);
    }

    /** Give an unused frame back. */
    method ReturnFrame(frame: nat)
      requires Valid() && Unused(frame)
      modifies table.phys.Repr()
      ensures Valid() && table.flat == old(table.flat) && table.tables == old(table.tables)
      ensures table.phys.Free() == old(table.phys.Free()) + {frame}
    {
      hide IsTree, Flattens, Covered, Disjoint, VmaTree.Dense, BuddyAllocator.Valid, BuddyAllocator.Contents;
      table.phys.FreeFrame(frame);
    }

    /** Map a page of area `v` onto an unused frame. */
    method MapFrame(v: Vma, va: nat, frame: nat) returns (done: bool)
      requires Valid() && Unused(frame) && v in vma.items && v.Contains(Key(va) * PAGE_SIZE)
      modifies table.Repr()
      ensures Valid()
      ensures Grew(old(table.tables.Keys), old(table.phys.Free()), table.tables.Keys, table.phys.Free(), 3)
      ensures Key(va) in old(table.flat) ==>
                table.tables.Keys == old(table.tables.Keys) && table.phys.Free() == old(table.phys.Free())
      ensures done ==> table.flat == old(table.flat)[Key(va) := Pte(frame, FlagsFromProt(v.prot, true))]
      ensures done ==> !IsPresent(old(table.flat), Key(va))
      ensures !done ==> table.flat == old(table.flat) && Unused(frame)
      ensures !done && !IsPresent(old(table.flat), Key(va)) ==>
                && table.phys.Free() == {} && Key(va) !in old(table.flat)
                && Grew(old(table.tables.Keys), old(table.phys.Free()), table.tables.Keys, table.phys.Free(), 2)
    {
      hide FramesOk, CoveredBut, VmaTree.Valid, PageTable.Valid, FrameAllocator.Free, Grew, Spent, Key, Vma.Contains;
      ghost var s := Snap();
      var flags := FlagsFromProt(v.prot, true);
      assert Present in flags;
      hide FlagsFromProt;
      done := MapEntry(va, frame, flags);
      ghost var s' := Snap();
      TablesGrow(s.flat, s.free, s.tables, s'.free, s'.tables, 3);
      GrewKeeps(s.tables, s.free, s'.tables, s'.free, 3, frame);
      if done {
        MapKeeps(s.items, s.flat, s'.free, s'.tables, v, Key(va), frame);
      }
    }

    /** `map_page` as the address space sees it. */
    method MapEntry(va: nat, frame: nat, flags: set<Flag>) returns (done: bool)
      requires Parts() && Present in flags
      modifies table.Repr()
      ensures Parts() && vma.items == old(vma.items)
      ensures Grew(old(Snap()).tables, old(Snap()).free, Snap().tables, Snap().free, 3)
      ensures Key(va) in old(table.flat) ==> Snap().tables == old(Snap()).tables && Snap().free == old(Snap()).free
      ensures table.flat == if done then old(table.flat)[Key(va) := Pte(frame, flags)] else old(table.flat)
      ensures done ==> !IsPresent(old(table.flat), Key(va))
      ensures !done && !IsPresent(old(table.flat), Key(va)) ==>
                && Snap().free == {} && Key(va) !in old(table.flat)
                && Grew(old(Snap()).tables, old(Snap()).free, Snap().tables, Snap().free, 2)
    {
      hide PageTable.Valid, VmaTree.Valid, FrameAllocator.Free, Grew, Key;
      ghost var s := Snap();
      PutPresent(s.flat, Key(va), frame, flags);
      hide IsPresent, Get, Put;
      var r := table.MapPage(va, frame, flags);
      GrewAtMost(s.tables, s.free, Snap().tables, Snap().free, if r.Err? && r.error == NoMemory then 2 else 3, 3);
      done := r.Ok?;
      if !done {
        assert r.error == AlreadyMapped || r.error == NoMemory;
      }
    }

    /** `populate_vma`: back every page of a demand-mapped area at once. */
    method PopulateVma(v: Vma) returns (ok: bool)
      requires Valid() && v in vma.items && UserArea(v) && v.start < v.end
      requires Marked(table.flat, Vpn(v.start), Vpn(v.end))
      modifies table.Repr()
      ensures Valid() && Untouched(table.flat, old(table.flat), Vpn(v.start), Vpn(v.end))
      ensures Spent(old(Snap()), Snap(), 0)
      ensures ok <==> AllPresent(table.flat, Vpn(v.start), Vpn(v.end))
      ensures !ok ==> table.phys.Free() == {}
    {
      hide IsTree, Flattens, FramesOk, Covered, Disjoint, VmaTree.Dense, BuddyAllocator.Valid, BuddyAllocator.Contents;
      hide PageTable.Valid, VmaTree.Valid, Frames, FrameAllocator.Free, Snap;
      hide FrameBitmap.Used, Unused, AllPresent, Untouched, Marked, Spent, Grew, FlagsFromProt;
      var pages := v.PageCount();
      ghost var before, lo, hi, s := table.flat, Vpn(v.start), Vpn(v.end), Snap();
      PagesOfArea(v);
      NothingTouched(before, lo, hi);
      SpentNothing(s);
      for i := 0 to pages
        invariant Valid() && Untouched(table.flat, before, lo, hi) && Spent(s, Snap(), 0)
        invariant AllPresent(table.flat, lo, lo + i) && Marked(table.flat, lo + i, hi)
      {
        var done := PopulatePage(v, i, before, s);
        if !done {
          return false;
        }
      }
      ok := true;
    }

    /** The loop body: back page `i`, which is marked, so that only a frame for it can be missing. */
    method PopulatePage(v: Vma, i: nat, ghost before: map<nat, Pte>, ghost s: Snapshot) returns (done: bool)
      requires Valid() && v in vma.items && UserArea(v) && v.start < v.end && i < v.PageCount()
      requires Untouched(table.flat, before, Vpn(v.start), Vpn(v.end)) && Spent(s, Snap(), 0)
      requires AllPresent(table.flat, Vpn(v.start), Vpn(v.start) + i)
      requires Marked(table.flat, Vpn(v.start) + i, Vpn(v.end))
      modifies table.Repr()
      ensures Valid() && Untouched(table.flat, before, Vpn(v.start), Vpn(v.end)) && Spent(s, Snap(), 0)
      ensures done ==> AllPresent(table.flat, Vpn(v.start), Vpn(v.start) + (i + 1))
                       && Marked(table.flat, Vpn(v.start) + (i + 1), Vpn(v.end))
      ensures !done ==> table.phys.Free() == {} && !AllPresent(table.flat, Vpn(v.start), Vpn(v.end))
    {
      hide IsTree, Flattens, FramesOk, Covered, Disjoint, VmaTree.Dense, BuddyAllocator.Valid, BuddyAllocator.Contents;
      hide FrameBitmap.Used, Unused, AllPresent, Untouched, Marked, Spent, Grew;
      assert Present in FlagsFromProt(v.prot, true);
      hide FlagsFromProt;
      ghost var flat, lo, hi, s1 := table.flat, Vpn(v.start), Vpn(v.end), Snap();
      PagesOfArea(v);
      KeyOfPage(v.start, i);
      MarkedFirst(flat, lo + i, hi);
      NotThere(flat, lo, lo + i, hi);
      assert v.Contains(Key(v.start + i * PAGE_SIZE) * PAGE_SIZE);
      hide Key, UserArea, Vma.PageCount, Vma.Contains;
      var frame := TakeFrame();
      if frame.None? {
        return false;
      }
      ghost var e := Pte(frame.value, FlagsFromProt(v.prot, true));
      PopulateNext(flat, before, lo, lo + i, hi, e);
      assert s1.free !! s1.tables;
      done := MapFrame(v, v.start + i * PAGE_SIZE, frame.value);
      assert done;
      assert Snap() == s1.(flat := flat[lo + i := e], free := s1.free - {frame.value});
      SpentOnMarked(s, s1, Snap(), lo + i, e);
    }

    /** `unmap_vma`: the area has left the array; clear its present pages. Demand entries stay. */
    method UnmapVma(v: Vma)
      requires Parts() && Frames() && UserArea(v) && v.start < v.end
      requires CoveredBut(vma.items, table.flat, Vpn(v.start), Vpn(v.end))
      modifies table.Repr()
      ensures Valid() && table.phys.Free() == old(table.phys.Free()) && table.tables.Keys == old(table.tables.Keys)
      ensures Untouched(table.flat, old(table.flat), Vpn(v.start), Vpn(v.end))
      ensures NonePresent(table.flat, Vpn(v.start), Vpn(v.end))
    {
      hide IsTree, Flattens, FramesOk, CoveredBut, Disjoint, VmaTree.Dense, BuddyAllocator.Valid;
      hide BuddyAllocator.Contents, FrameBitmap.Used, Untouched;
      var pages := v.PageCount();
      ghost var before, lo, hi := table.flat, Vpn(v.start), Vpn(v.end);
      PagesOfArea(v);
      NothingTouched(before, lo, hi);
      for i := 0 to pages
        invariant Parts() && Frames() && CoveredBut(vma.items, table.flat, lo + i, hi)
        invariant table.phys.Free() == old(table.phys.Free()) && table.tables.Keys == old(table.tables.Keys)
        invariant Untouched(table.flat, before, lo, hi)
        invariant NonePresent(table.flat, lo, lo + i)
      {
        KeyOfPage(v.start, i);
        UnmapKeeps(vma.items, table.flat, table.phys.Free(), table.tables.Keys, lo + i, hi);
        UnmapNext(table.flat, before, lo, lo + i, hi);
        if !IsPresent(table.flat, lo + i) {
          AbsentKeeps(vma.items, table.flat, lo + i, hi);
        }
        var _ := table.UnmapPage(v.start + i * PAGE_SIZE);
      }
      EmptyExemption(vma.items, table.flat, hi);
    }

    method ReprotectPage(va: nat, prot: set<Prot>, ghost v: Vma, ghost before: map<nat, Pte>, ghost hi: nat)
      requires Parts() && Frames() && v in vma.items && v.Contains(Key(va) * PAGE_SIZE) && v.prot == prot
      requires CoveredBut(vma.items, table.flat, Key(va), hi)
      requires SameFrames(table.flat, before) && Untouched(table.flat, before, Vpn(v.start), Vpn(v.end))
      requires Vpn(v.start) <= Key(va) < Vpn(v.end)
      modifies table.Repr()
      ensures Parts() && Frames() && CoveredBut(vma.items, table.flat, Key(va) + 1, hi)
      ensures table.phys.Free() == old(table.phys.Free()) && table.tables.Keys == old(table.tables.Keys)
      ensures SameFrames(table.flat, before) && Untouched(table.flat, before, Vpn(v.start), Vpn(v.end))
    {
      hide IsTree, Flattens, CoveredBut, Disjoint, VmaTree.Dense, BuddyAllocator.Valid, BuddyAllocator.Contents;
      hide FrameBitmap.Used, Untouched, SameFrames;
      ghost var key, flat := Key(va), table.flat;
      var entry := table.Resolve(va);
      if entry.Some? {
        assert IsPresent(flat, key);
        ReflaggedMatches(entry.value.frame, entry.value.flags, v);
        var flags := Reflagged(entry.value.flags, prot);
        hide Reflagged, FramesOk;
        ReflagKeeps(vma.items, flat, table.phys.Free(), table.tables.Keys, v, key, flags, hi);
        ReflagNext(flat, before, Vpn(v.start), Vpn(v.end), key, flags);
        var _ := table.SetFlags(va, flags);
      } else {
        AbsentKeeps(vma.items, flat, key, hi);
      }
    }

    /** Where a mapping goes: the address asked for, or the first gap from the hint. */
    method ChooseTarget(addr: nat, length: nat, flags: set<MmapFlag>, mmapBase: nat) returns (r: VmResult<nat>)
      requires Valid() && Aligned(addr) && Aligned(mmapBase)
      ensures IsTarget(vma.items, addr, length, flags, mmapBase, r)
      ensures r.Done? ==> Aligned(r.value)
    {
      if Fixed in flags {
        if FixedNoReplace in flags {
          var found := vma.Find(addr);
          if found.Some? {
            return Failed(Exists);
          }
        }
        return Done(addr);
      }
      var hint := if addr == 0 then mmapBase else addr;
      var gap := vma.FindGap(hint, length, USER_MMAP_LIMIT);
      if gap.None? {
        return Failed(OutOfSpace);
      }
      r := Done(gap.value);
    }

    method InsertArea(v: Vma) returns (ok: bool)
      requires Valid() && UserArea(v) && v.start < v.end
      modifies vma, vma.entries
      ensures Valid() && Snap() == old(Snap()).(items := vma.items)
      ensures ok <==> |old(vma.items)| < MAX_VMAS && !Overlaps(old(vma.items), v.start, v.end)
      ensures ok ==> multiset(vma.items) == multiset(old(vma.items)) + multiset{v} && v in vma.items
      ensures !ok ==> vma.items == old(vma.items)
    {
      hide IsTree, Flattens, FramesOk, CoveredBut, Disjoint, Overlaps, BuddyAllocator.Valid, BuddyAllocator.Contents;
      hide FrameBitmap.Used;
      ghost var items := vma.items;
      var inserted := vma.Insert(v);
      if inserted.Ok? {
        AddAreaKeeps(items, vma.items, table.flat, v);
      }
      ok := inserted.Ok?;
    }

    /** On OutOfMemory the new area stays in the array, partly mapped; every other failure changes nothing. */
    method Mmap(addr: nat, length: nat, prot: set<Prot>, flags: set<MmapFlag>, mmapBase: nat) returns (r: VmResult<nat>)
      requires Valid() && Aligned(addr) && Aligned(mmapBase)
      requires addr + AlignUp(length) < U64 && mmapBase + AlignUp(length) < U64
      modifies table.Repr(), vma, vma.entries
      ensures Valid() && Mmapped(old(Snap()), addr, length, prot, flags, mmapBase, r, Snap())
    {
      hide IsTree, Flattens, FramesOk, Covered, Disjoint, VmaTree.Dense, BuddyAllocator.Valid, BuddyAllocator.Contents;
      hide FrameBitmap.Used, PageTable.Valid, VmaTree.Valid, Frames, FrameAllocator.Free;
      hide AreaAdded, IsTarget, Spent, AllPresent, Overlaps;
      if length == 0 {
        return Failed(InvalidArgs);
      }
      ghost var s := Snap();
      var size := AlignUp(length);
      var chosen := ChooseTarget(addr, size, flags, mmapBase);
      if chosen.Failed? {
        r := chosen;
      } else if !IsUserAddress(chosen.value) || chosen.value + size > USER_MMAP_LIMIT {
        r := Failed(AccessDenied);
      } else {
        var v := NewArea(chosen.value, size, prot, flags);
        assert UserArea(v) && v.PageCount() == size / PAGE_SIZE;
        hide UserArea, Vma.PageCount;
        r := MapArea(v);
      }
      assert MmappedAt(s, chosen, size, prot, flags, r, Snap());
    }

    /** Insert the area, mark its pages, and back them when asked to. */
    method MapArea(v: Vma) returns (r: VmResult<nat>)
      requires Valid() && UserArea(v) && v.start < v.end
      modifies table.Repr(), vma, vma.entries
      ensures Valid()
      ensures if |old(vma.items)| >= MAX_VMAS || Overlaps(old(vma.items), v.start, v.end) then
                r == Failed(OutOfSpace) && Snap() == old(Snap())
              else
                && (r == Done(v.start) || (r == Failed(OutOfMemory) && table.phys.Free() == {}
                                           && !AllPresent(table.flat, Vpn(v.start), Vpn(v.end))))
                && Spent(old(Snap()), Snap(), 3 * v.PageCount())
                && AreaAdded(v, old(vma.items), vma.items, old(table.flat), table.flat, r.Done?)
    {
      hide IsTree, Flattens, FramesOk, Covered, Disjoint, VmaTree.Dense, Overlaps, BuddyAllocator.Valid;
      hide BuddyAllocator.Contents, FrameBitmap.Used, DemandEntry;
      hide Untouched, Filled, AllPresent, NonePresent, UserArea, Spent, Marked;
      ghost var before, lo, hi, s := table.flat, Vpn(v.start), Vpn(v.end), Snap();
      var inserted := InsertArea(v);
      if !inserted {
        return Failed(OutOfSpace);
      }
      FreshRange(s.items, before, v);
      PagesOfAreaExist(v);
      SpentIgnoresItems(s, vma.items);
      var marked := MapVmaDemand(v);
      if !marked {
        NotAllPresent(table.flat, lo, hi);
        return Failed(OutOfMemory);
      }
      ghost var middle, s1 := table.flat, Snap();
      DemandIsAbsent(middle, before, lo, hi, v.prot);
      if Populate in v.flags {
        var backed := PopulateVma(v);
        UntouchedTrans(table.flat, middle, before, lo, hi);
        SpentTrans(s, s1, Snap(), 3 * v.PageCount(), 0);
        if !backed {
          return Failed(OutOfMemory);
        }
      }
      r := Done(v.start);
    }

    method Munmap(addr: nat, length: nat) returns (r: VmResult<()>)
      requires Valid() && addr + AlignUp(length) < U64
      modifies table.Repr(), vma, vma.entries
      ensures Valid() && Munmapped(old(Snap()), addr, length, r, Snap())
    {
      hide IsTree, Flattens, FramesOk, CoveredBut, Disjoint, VmaTree.Dense, Untouched, NonePresent;
      hide BuddyAllocator.Valid, BuddyAllocator.Contents, FrameBitmap.Used, FrameAllocator.Free;
      if length == 0 {
        return Failed(InvalidArgs);
      }
      var size := AlignUp(length);
      ghost var items, flat := vma.items, table.flat;
      AllUserAreas(items, flat);
      var removed := vma.Remove(addr, size);
      if removed.Err? {
        return Failed(NoSuchArea);
      }
      ghost var i :| 0 <= i < |items| && items[i] == removed.value && vma.items == items[..i] + items[i + 1..];
      DropAreaKeeps(items, i, flat);
      assert items[i] in items && AreaDropped(items, i, vma.items, addr, size);
      assert IsArea(items, addr, size);
      hide IsArea, AreaDropped;
      UnmapVma(removed.value);
      r := Done(());
    }

    /** The new protection never includes user access, whatever the old one was. */
    method Mprotect(addr: nat, length: nat, read: bool, write: bool, exec: bool) returns (r: VmResult<()>)
      requires Valid() && addr + AlignUp(length) < U64
      modifies table.Repr(), vma, vma.entries
      ensures Valid() && Mprotected(old(Snap()), addr, length, ProtOf(read, write, exec), r, Snap())
      ensures r.Done? ==> Grants(Snap(), addr, AlignUp(length), read, write, exec)
    {
      hide IsTree, Flattens, FramesOk, CoveredBut, Disjoint, VmaTree.Dense, Untouched, SameFrames, ProtOf, Grants;
      hide BuddyAllocator.Valid, BuddyAllocator.Contents, FrameBitmap.Used, FrameAllocator.Free;
      if length == 0 {
        return Failed(InvalidArgs);
      }
      var size := AlignUp(length);
      ghost var items, flat := vma.items, table.flat;
      var prot := ProtOf(read, write, exec);
      AllUserAreas(items, flat);
      var updated := vma.UpdateProt(addr, size, prot);
      if updated.Err? {
        return Failed(NoSuchArea);
      }
      ghost var i :| 0 <= i < |items| && items[i].start == addr && items[i].end == addr + size
                     && vma.items == items[i := items[i].(prot := prot)];
      ReprotectKeeps(items, i, flat, prot);
      assert items[i] in items && AreaReprotected(items, i, vma.items, addr, size, prot);
      assert IsArea(items, addr, size) && HasRights(vma.items[i], read, write, exec) && UserArea(vma.items[i]);
      hide IsArea, AreaReprotected, HasRights, UserArea, Covered;
      ApplyProt(addr, size, prot, i);
      AreaGrants(Snap(), i, read, write, exec);
      r := Done(());
    }

    /** `apply_prot`: area `i` already has its new protection; give it to the present pages of the range. */
    method ApplyProt(start: nat, length: nat, prot: set<Prot>, ghost i: nat)
      requires Parts() && Frames() && i < |vma.items| && UserArea(vma.items[i]) && length > 0
      requires vma.items[i].start == start && vma.items[i].end == start + length && vma.items[i].prot == prot
      requires CoveredBut(vma.items, table.flat, Vpn(start), Vpn(start + length))
      modifies table.Repr()
      ensures Valid() && table.phys.Free() == old(table.phys.Free()) && table.tables.Keys == old(table.tables.Keys)
      ensures SameFrames(table.flat, old(table.flat))
              && Untouched(table.flat, old(table.flat), Vpn(start), Vpn(start + length))
    {
      hide IsTree, Flattens, CoveredBut, Disjoint, VmaTree.Dense, BuddyAllocator.Valid, BuddyAllocator.Contents;
      hide FrameBitmap.Used, Untouched, SameFrames, Reflagged;
      var pages := length / PAGE_SIZE;
      ghost var before, lo, hi, v := table.flat, Vpn(start), Vpn(start + length), vma.items[i];
      PagesOfArea(v);
      NothingTouched(before, lo, hi);
      for page := 0 to pages
        invariant Parts() && Frames() && CoveredBut(vma.items, table.flat, lo + page, hi)
        invariant table.phys.Free() == old(table.phys.Free()) && table.tables.Keys == old(table.tables.Keys)
        invariant SameFrames(table.flat, before) && Untouched(table.flat, before, lo, hi)
      {
        KeyOfPage(start, page);
        ReprotectPage(start + page * PAGE_SIZE, prot, v, before, hi);
      }
      EmptyExemption(vma.items, table.flat, hi);
    }

    /** `demand_page`: a new frame for one page of an area; the frame goes back when mapping it fails. */
    method DemandFault(v: Vma, va: nat) returns (outcome: FaultOutcome)
      requires Valid() && v in vma.items && v.Contains(Key(va) * PAGE_SIZE) && !IsPresent(table.flat, Key(va))
      modifies table.Repr()
      ensures Valid() && PagedInOr(old(Snap()), Key(va), v.prot, outcome, Snap())
    {
      hide IsTree, Flattens, FramesOk, Covered, Disjoint, VmaTree.Dense, BuddyAllocator.Valid, BuddyAllocator.Contents;
      hide FrameBitmap.Used, Grew, Spent, Unused;
      ghost var s := Snap();
      assert Present in FlagsFromProt(v.prot, true);
      hide FlagsFromProt;
      assert s.free !! s.tables;
      var frame := TakeFrame();
      if frame.None? {
        NoFrameLeft(s, Key(va), v.prot, Snap());
        return ProtectionViolation;
      }
      var f := frame.value;
      var mapped := MapFrame(v, va, f);
      if !mapped {
        ghost var s1 := Snap();
        ReturnFrame(f);
        assert Snap() == s1.(free := {f}) && s1.free == {};
        hide PageTable.Valid, FrameAllocator.Free, Snap;
        FrameGivenBack(s, s1, Snap(), Key(va), v.prot, f);
        return ProtectionViolation;
      }
      PageOnFrame(s, Key(va), v.prot, f, Snap());
      outcome := DemandPaged;
    }

    method ResolveFault(addr: nat, write: bool, user: bool) returns (outcome: FaultOutcome)
      requires Valid()
      modifies table.Repr()
      ensures Valid() && Faulted(old(Snap()), addr, write, user, outcome, Snap())
    {
      var page := AlignDown(addr);
      var found := vma.Find(page);
      if found.None? {
        return BadAddress;
      }
      var v := found.value;
      assert UserArea(v);
      KeyOfPage(page, 0);
      assert Key(page) == Vpn(addr) && Vpn(addr) * PAGE_SIZE == page;
      outcome := ResolveInArea(v, page, write, user);
    }

    method ResolveInArea(v: Vma, page: nat, write: bool, user: bool) returns (outcome: FaultOutcome)
      requires Valid() && v in vma.items && v.Contains(Key(page) * PAGE_SIZE)
      modifies table.Repr()
      ensures Valid() && FaultIn(old(Snap()), v, Key(page), write, user, outcome, Snap())
    {
      hide IsTree, Flattens, Covered, Disjoint, VmaTree.Dense, BuddyAllocator.Valid, BuddyAllocator.Contents;
      hide FrameBitmap.Used, PagedIn;
      if user && UserAccess !in v.prot {
        return ProtectionViolation;
      }
      if write && Write !in v.prot {
        var held := table.GetFlags(page);
        if held.None? || Cow !in held.value {
          return ProtectionViolation;
        }
      }
      var flags := table.GetFlags(page);
      if flags.Some? {
        if Cow in flags.value && write {
          assert false;
        }
        if SoftwareDemand in flags.value || Present !in flags.value {
          outcome := DemandFault(v, page);
          return;
        }
        return Handled;
      }
      outcome := DemandFault(v, page);
    }
  }
}
