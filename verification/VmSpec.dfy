/** Areas, page-table entries and free frames on values: what keeps them in agreement, and what each call does. */
module VmSpec {
  import opened Layout
  import opened Permissions
  import opened Radix
  import opened PageTables
  import opened Vmas

  datatype VmError = InvalidArgs | OutOfMemory | OutOfSpace | NoSuchArea | AccessDenied | Exists
  datatype VmResult<+T> = Done(value: T) | Failed(error: VmError)

  datatype FaultOutcome = Handled | DemandPaged | ProtectionViolation | BadAddress

  // ---------------------------------------------------------------- agreement on values

  /** Areas are page-aligned and inside the user mapping range. */
  ghost predicate UserArea(v: Vma) {
    Aligned(v.start) && Aligned(v.end) && USER_ADDR_MIN <= v.start && v.end <= USER_MMAP_LIMIT
  }

  ghost predicate IsPresent(flat: map<nat, Pte>, k: nat) {
    k in flat && Present in flat[k].flags
  }

  lemma PutPresent(flat: map<nat, Pte>, k: nat, frame: nat, flags: set<Flag>)
    requires Present in flags
    ensures Present in Get(flat, k).flags <==> IsPresent(flat, k)
    ensures Put(flat, k, Pte(frame, flags)) == flat[k := Pte(frame, flags)]
  {
  }

  /** A present entry carries the area's protection to write and execute; the user bit is always set. */
  ghost predicate Matches(e: Pte, v: Vma) {
    (Writable in e.flags <==> Write in v.prot) && (NoExecute in e.flags <==> Exec !in v.prot) && User in e.flags
  }

  ghost predicate Backed(items: seq<Vma>, flat: map<nat, Pte>, k: nat)
    requires k in flat
  {
    exists v :: v in items && v.Contains(k * PAGE_SIZE) && Matches(flat[k], v)
  }

  /** Present entries: frames are neither free, nor tables, nor shared; no entry is copy-on-write. */
  ghost predicate FramesOk(flat: map<nat, Pte>, free: set<nat>, tables: set<nat>) {
    && (forall k: nat :: k in flat ==> Cow !in flat[k].flags)
    && (forall k: nat :: IsPresent(flat, k) ==>
        SoftwareDemand !in flat[k].flags && flat[k].frame !in free && flat[k].frame !in tables)
    && forall j: nat, k: nat :: IsPresent(flat, j) && IsPresent(flat, k) && j != k ==> flat[j].frame != flat[k].frame
  }

  /** Every present page outside the page range lo..hi lies in an area and matches its protection. */
  ghost predicate CoveredBut(items: seq<Vma>, flat: map<nat, Pte>, lo: nat, hi: nat) {
    && (forall v :: v in items ==> UserArea(v))
    && forall k: nat :: IsPresent(flat, k) && !(lo <= k < hi) ==> Backed(items, flat, k)
  }

  ghost predicate Covered(items: seq<Vma>, flat: map<nat, Pte>) {
    CoveredBut(items, flat, 0, 0)
  }

  lemma AllUserAreas(items: seq<Vma>, flat: map<nat, Pte>)
    requires Covered(items, flat)
    ensures forall v :: v in items ==> UserArea(v)
  {
  }

  /** A present page lies in exactly one area, and that area's protection is what the entry says. */
  lemma PresentPageHasOneArea(items: seq<Vma>, flat: map<nat, Pte>, k: nat)
    requires Disjoint(items) && Covered(items, flat) && IsPresent(flat, k)
    ensures exists v :: v in items && v.Contains(k * PAGE_SIZE) && Matches(flat[k], v)
                        && forall w :: w in items && w.Contains(k * PAGE_SIZE) ==> w == v
  {
    assert Backed(items, flat, k);
    var v :| v in items && v.Contains(k * PAGE_SIZE) && Matches(flat[k], v);
    var i :| 0 <= i < |items| && items[i] == v;
    OneAreaPerAddress(items, i, k * PAGE_SIZE);
  }

  // ---------------------------------------------------------------- one page at a time

  /** Page-table writes may turn free frames into tables; nothing mapped is affected. */
  lemma TablesGrow(flat: map<nat, Pte>, free: set<nat>, tables: set<nat>, free': set<nat>, tables': set<nat>, n: nat)
    requires FramesOk(flat, free, tables) && Grew(tables, free, tables', free', n)
    ensures FramesOk(flat, free', tables')
  {
  }

  lemma DemandKeeps(items: seq<Vma>, flat: map<nat, Pte>, free: set<nat>, tables: set<nat>, key: nat, e: Pte, lo: nat,
                    hi: nat)
    requires CoveredBut(items, flat, lo, hi) && FramesOk(flat, free, tables) && Present !in e.flags && Cow !in e.flags
    ensures CoveredBut(items, flat[key := e], lo, hi) && FramesOk(flat[key := e], free, tables)
  {
    var flat' := flat[key := e];
    forall k: nat | IsPresent(flat', k) && !(lo <= k < hi) ensures Backed(items, flat', k) {
      assert IsPresent(flat, k) && Backed(items, flat, k);
    }
  }

  lemma UnmapKeeps(items: seq<Vma>, flat: map<nat, Pte>, free: set<nat>, tables: set<nat>, key: nat, hi: nat)
    requires CoveredBut(items, flat, key, hi) && FramesOk(flat, free, tables)
    ensures CoveredBut(items, flat - {key}, key + 1, hi) && FramesOk(flat - {key}, free, tables)
  {
    var flat' := flat - {key};
    forall k: nat | IsPresent(flat', k) && !(key + 1 <= k < hi) ensures Backed(items, flat', k) {
      assert IsPresent(flat, k) && Backed(items, flat, k);
    }
  }

  /** Mapping a page of an area onto a frame nobody uses. */
  lemma MapKeeps(items: seq<Vma>, flat: map<nat, Pte>, free: set<nat>, tables: set<nat>, v: Vma, key: nat, frame: nat)
    requires Covered(items, flat) && FramesOk(flat, free, tables)
    requires v in items && v.Contains(key * PAGE_SIZE)
    requires frame !in free && frame !in tables && forall k: nat :: IsPresent(flat, k) ==> flat[k].frame != frame
    ensures var flat' := flat[key := Pte(frame, FlagsFromProt(v.prot, true))];
            Covered(items, flat') && FramesOk(flat', free, tables)
  {
    var flat' := flat[key := Pte(frame, FlagsFromProt(v.prot, true))];
    forall k: nat | IsPresent(flat', k) ensures Backed(items, flat', k) {
      if k == key {
        assert Matches(flat'[key], v);
      } else {
        assert IsPresent(flat, k) && Backed(items, flat, k);
      }
    }
  }

  /** Giving a present page of an area the area's new protection. */
  lemma ReflagKeeps(items: seq<Vma>, flat: map<nat, Pte>, free: set<nat>, tables: set<nat>, v: Vma, key: nat,
                    flags: set<Flag>, hi: nat)
    requires CoveredBut(items, flat, key, hi) && FramesOk(flat, free, tables) && IsPresent(flat, key)
    requires v in items && v.Contains(key * PAGE_SIZE) && Matches(Pte(flat[key].frame, flags), v)
    requires Present in flags && Cow !in flags && SoftwareDemand !in flags
    ensures var flat' := flat[key := Pte(flat[key].frame, flags)];
            CoveredBut(items, flat', key + 1, hi) && FramesOk(flat', free, tables)
  {
    var flat' := flat[key := Pte(flat[key].frame, flags)];
    forall k: nat | IsPresent(flat', k) && !(key + 1 <= k < hi) ensures Backed(items, flat', k) {
      if k == key {
        assert Matches(flat'[key], v);
      } else {
        assert IsPresent(flat, k) && Backed(items, flat, k);
      }
    }
  }

  // ---------------------------------------------------------------- areas come and go

  lemma AddAreaKeeps(items: seq<Vma>, items': seq<Vma>, flat: map<nat, Pte>, v: Vma)
    requires Covered(items, flat) && UserArea(v) && multiset(items') == multiset(items) + multiset{v}
    ensures Covered(items', flat) && v in items'
  {
    forall w | w in items' ensures w in items || w == v { assert w in multiset(items'); }
    forall w | w in items || w == v ensures w in items' {
      assert w in multiset(items) + multiset{v};
      assert w in multiset(items');
    }
    forall k: nat | IsPresent(flat, k) ensures Backed(items', flat, k) { assert Backed(items, flat, k); }
  }

  /** Present pages outside a dropped area are backed by the others. */
  lemma DropAreaKeeps(items: seq<Vma>, i: nat, flat: map<nat, Pte>)
    requires Covered(items, flat) && i < |items|
    ensures var v := items[i]; CoveredBut(items[..i] + items[i + 1..], flat, Vpn(v.start), Vpn(v.end))
  {
    var v, rest := items[i], items[..i] + items[i + 1..];
    forall w | w in items && w != v ensures w in rest {
      var j :| 0 <= j < |items| && items[j] == w;
      assert w == if j < i then rest[j] else rest[j - 1];
    }
    forall k: nat | IsPresent(flat, k) && !(Vpn(v.start) <= k < Vpn(v.end)) ensures Backed(rest, flat, k) {
      assert Backed(items, flat, k);
      assert !v.Contains(k * PAGE_SIZE);
    }
  }

  lemma ReprotectKeeps(items: seq<Vma>, i: nat, flat: map<nat, Pte>, prot: set<Prot>)
    requires Covered(items, flat) && i < |items|
    ensures var v := items[i]; CoveredBut(items[i := v.(prot := prot)], flat, Vpn(v.start), Vpn(v.end))
  {
    var v, items' := items[i], items[i := items[i].(prot := prot)];
    forall w | w in items' ensures UserArea(w) {
      var j :| 0 <= j < |items'| && items'[j] == w;
      assert items[j] in items && items[i] in items;
    }
    forall w | w in items && w != v ensures w in items' {
      var j :| 0 <= j < |items| && items[j] == w;
      assert items'[j] == w;
    }
    forall k: nat | IsPresent(flat, k) && !(Vpn(v.start) <= k < Vpn(v.end)) ensures Backed(items', flat, k) {
      assert Backed(items, flat, k);
      assert v in items && UserArea(v) && !v.Contains(k * PAGE_SIZE);
    }
  }

  /** Below 2^47, a page-aligned address is looked up by its page number. */
  lemma KeyOfPage(start: nat, i: nat)
    requires Aligned(start) && start + i * PAGE_SIZE < USER_MMAP_LIMIT
    ensures Key(start + i * PAGE_SIZE) == Vpn(start) + i == Vpn(start + i * PAGE_SIZE)
    ensures (Vpn(start) + i) * PAGE_SIZE == start + i * PAGE_SIZE
  {
  }

  lemma PagesOfArea(v: Vma)
    requires UserArea(v) && v.start < v.end
    ensures v.PageCount() * PAGE_SIZE == v.end - v.start && Vpn(v.end) == Vpn(v.start) + v.PageCount()
  {
  }

  /** The entry a demand-mapped page gets. */
  function DemandEntry(prot: set<Prot>): (e: Pte)
    ensures Present !in e.flags && Cow !in e.flags && e != ZERO && SoftwareDemand in e.flags
    ensures (Writable in e.flags <==> Write in prot) && (NoExecute in e.flags <==> Exec !in prot) && User in e.flags
  {
    var flags := FlagsFromProt(prot, true) + {SoftwareDemand} + {SoftwareDemand} - {Present};
    assert SoftwareDemand in flags;
    Pte(0, flags)
  }

  /** `flat` is `before` with the pages lo..hi set to `e`. */
  ghost predicate Filled(flat: map<nat, Pte>, before: map<nat, Pte>, lo: nat, hi: nat, e: Pte) {
    forall k: nat :: Get(flat, k) == if lo <= k < hi then e else Get(before, k)
  }

  /** Pages outside lo..hi are as before. */
  ghost predicate Untouched(flat: map<nat, Pte>, before: map<nat, Pte>, lo: nat, hi: nat) {
    forall k: nat :: !(lo <= k < hi) ==> Get(flat, k) == Get(before, k)
  }

  lemma NothingTouched(flat: map<nat, Pte>, lo: nat, hi: nat)
    ensures Untouched(flat, flat, lo, hi) && AllPresent(flat, lo, lo) && SameFrames(flat, flat)
  {
  }

  lemma FillNone(flat: map<nat, Pte>, lo: nat, e: Pte)
    ensures Filled(flat, flat, lo, lo, e)
  {
  }

  lemma FilledLeaves(flat: map<nat, Pte>, before: map<nat, Pte>, lo: nat, mid: nat, hi: nat, e: Pte)
    requires Filled(flat, before, lo, mid, e) && mid <= hi
    ensures Untouched(flat, before, lo, hi)
  {
  }

  lemma FillNext(flat: map<nat, Pte>, before: map<nat, Pte>, lo: nat, hi: nat, e: Pte)
    requires Filled(flat, before, lo, hi, e) && lo <= hi
    ensures Filled(flat[hi := e], before, lo, hi + 1, e)
  {
    var flat' := flat[hi := e];
    forall k: nat ensures Get(flat', k) == if lo <= k < hi + 1 then e else Get(before, k) {
      assert Get(flat, k) == if lo <= k < hi then e else Get(before, k);
      assert k != hi ==> Get(flat', k) == Get(flat, k);
    }
  }

  ghost predicate AllPresent(flat: map<nat, Pte>, lo: nat, hi: nat) {
    forall k: nat :: lo <= k < hi ==> IsPresent(flat, k)
  }

  ghost predicate NonePresent(flat: map<nat, Pte>, lo: nat, hi: nat) {
    forall k: nat :: lo <= k < hi ==> !IsPresent(flat, k)
  }

  lemma PopulateNext(flat: map<nat, Pte>, before: map<nat, Pte>, lo: nat, mid: nat, hi: nat, e: Pte)
    requires lo <= mid < hi && AllPresent(flat, lo, mid) && Marked(flat, mid, hi)
             && Untouched(flat, before, lo, hi) && Present in e.flags
    ensures AllPresent(flat[mid := e], lo, mid + 1) && Marked(flat[mid := e], mid + 1, hi)
            && Untouched(flat[mid := e], before, lo, hi) && !AllPresent(flat, lo, hi)
  {
    var flat' := flat[mid := e];
    assert !IsPresent(flat, mid);
    forall k: nat | k != mid ensures IsPresent(flat', k) == IsPresent(flat, k) && Get(flat', k) == Get(flat, k) {}
  }

  lemma UnmapNext(flat: map<nat, Pte>, before: map<nat, Pte>, lo: nat, mid: nat, hi: nat)
    requires lo <= mid < hi && NonePresent(flat, lo, mid) && Untouched(flat, before, lo, hi)
    ensures NonePresent(flat - {mid}, lo, mid + 1) && Untouched(flat - {mid}, before, lo, hi)
    ensures !IsPresent(flat, mid) ==> NonePresent(flat, lo, mid + 1)
  {
    var flat' := flat - {mid};
    forall k: nat | k != mid ensures IsPresent(flat', k) == IsPresent(flat, k) && Get(flat', k) == Get(flat, k) {}
  }

  /** The flags a present page gets when its protection changes. */
  function Reflagged(flags: set<Flag>, prot: set<Prot>): set<Flag> {
    flags - {Writable, NoExecute, User} + FlagsFromProt(prot, true)
  }

  lemma ReflaggedMatches(frame: nat, flags: set<Flag>, v: Vma)
    requires Cow !in flags && SoftwareDemand !in flags
    ensures var f := Reflagged(flags, v.prot);
            Matches(Pte(frame, f), v) && Present in f && Cow !in f && SoftwareDemand !in f
  {
  }

  /** Same pages present, on the same frames. */
  ghost predicate SameFrames(flat: map<nat, Pte>, before: map<nat, Pte>) {
    forall k: nat :: IsPresent(flat, k) == IsPresent(before, k) && Get(flat, k).frame == Get(before, k).frame
  }

  lemma ReflagNext(flat: map<nat, Pte>, before: map<nat, Pte>, lo: nat, hi: nat, key: nat, flags: set<Flag>)
    requires SameFrames(flat, before) && Untouched(flat, before, lo, hi) && lo <= key < hi && IsPresent(flat, key)
             && Present in flags
    ensures var flat' := flat[key := Pte(flat[key].frame, flags)];
            SameFrames(flat', before) && Untouched(flat', before, lo, hi)
  {
    var flat' := flat[key := Pte(flat[key].frame, flags)];
    forall k: nat | k != key ensures IsPresent(flat', k) == IsPresent(flat, k) && Get(flat', k) == Get(flat, k) {}
    assert IsPresent(flat', key) && Get(flat', key).frame == Get(flat, key).frame;
  }

  lemma DemandIsAbsent(flat: map<nat, Pte>, before: map<nat, Pte>, lo: nat, hi: nat, prot: set<Prot>)
    requires Filled(flat, before, lo, hi, DemandEntry(prot))
    ensures NonePresent(flat, lo, hi) && Marked(flat, lo, hi) && Untouched(flat, before, lo, hi)
  {
    forall k: nat | lo <= k < hi ensures !IsPresent(flat, k) && k in flat { assert Get(flat, k) == DemandEntry(prot); }
  }

  /** A range that no area overlaps has no present page. */
  lemma FreshRange(items: seq<Vma>, flat: map<nat, Pte>, v: Vma)
    requires Covered(items, flat) && UserArea(v) && !Overlaps(items, v.start, v.end)
    ensures NonePresent(flat, Vpn(v.start), Vpn(v.end))
  {
    hide Covered, IsPresent;
    forall k: nat | Vpn(v.start) <= k < Vpn(v.end) ensures !IsPresent(flat, k) {
      PresentIsInside(items, flat, k);
    }
  }

  lemma PresentIsInside(items: seq<Vma>, flat: map<nat, Pte>, k: nat)
    requires Covered(items, flat)
    ensures IsPresent(flat, k) ==> exists w :: w in items && w.Contains(k * PAGE_SIZE)
  {
    if IsPresent(flat, k) {
      assert Backed(items, flat, k);
    }
  }

  lemma NotAllPresent(flat: map<nat, Pte>, lo: nat, hi: nat)
    requires NonePresent(flat, lo, hi) && lo < hi
    ensures !AllPresent(flat, lo, hi)
  {
    assert !IsPresent(flat, lo);
  }

  lemma FilledAbsent(flat: map<nat, Pte>, before: map<nat, Pte>, lo: nat, mid: nat, hi: nat, prot: set<Prot>)
    requires Filled(flat, before, lo, mid, DemandEntry(prot)) && mid <= hi
    ensures NonePresent(before, lo, hi) ==> NonePresent(flat, lo, hi)
  {
    if NonePresent(before, lo, hi) {
      forall k: nat | lo <= k < hi ensures !IsPresent(flat, k) {
        assert Get(flat, k) == if lo <= k < mid then DemandEntry(prot) else Get(before, k);
        assert !IsPresent(before, k);
      }
    }
  }

  lemma SpentOnMarked(s: Snapshot, s1: Snapshot, s': Snapshot, key: nat, e: Pte)
    requires Spent(s, s1, 0) && !IsPresent(s1.flat, key) && Present in e.flags && e.frame in s1.free
    requires s1.free !! s1.tables && s' == s1.(flat := s1.flat[key := e], free := s1.free - {e.frame})
    ensures Spent(s, s', 0)
  {
    GrewNone(s1.tables, s1.free - {e.frame}, 0);
    hide Spent, Grew;
    SpentOnPage(s1, s', key, e, 0);
    SpentTrans(s, s1, s', 0, 0);
  }

  lemma NotThere(flat: map<nat, Pte>, lo: nat, k: nat, hi: nat)
    requires lo <= k < hi && !IsPresent(flat, k)
    ensures !AllPresent(flat, lo, hi)
  {
  }

  lemma MarkedFirst(flat: map<nat, Pte>, lo: nat, hi: nat)
    requires Marked(flat, lo, hi) && lo < hi
    ensures lo in flat && !IsPresent(flat, lo) && !AllPresent(flat, lo, hi)
  {
    assert !IsPresent(flat, lo);
  }

  lemma PagesOfAreaExist(v: Vma)
    requires UserArea(v) && v.start < v.end
    ensures Vpn(v.start) < Vpn(v.end)
  {
  }

  /** Every page of the range is marked for demand paging. */
  ghost predicate Marked(flat: map<nat, Pte>, lo: nat, hi: nat) {
    forall k: nat :: lo <= k < hi ==> k in flat && Present !in flat[k].flags
  }

  lemma UntouchedTrans(a: map<nat, Pte>, b: map<nat, Pte>, c: map<nat, Pte>, lo: nat, hi: nat)
    requires Untouched(a, b, lo, hi) && Untouched(b, c, lo, hi)
    ensures Untouched(a, c, lo, hi)
  {
  }

  // ---------------------------------------------------------------- where frames go

  /** The areas, the flat page table, the free frames and the frames of the page tables. */
  datatype Snapshot = Snapshot(items: seq<Vma>, flat: map<nat, Pte>, free: set<nat>, tables: set<nat>)

  /** The frames of the present pages. */
  ghost function FramesOf(flat: map<nat, Pte>): set<nat> {
    set k | k in flat && Present in flat[k].flags :: flat[k].frame
  }

  /** The frames of the pages present in `flat'` and not in `flat`. */
  ghost function NewFrames(flat: map<nat, Pte>, flat': map<nat, Pte>): set<nat> {
    set k | k in flat' && Present in flat'[k].flags && !IsPresent(flat, k) :: flat'[k].frame
  }

  /** Present pages stay present on their frames. */
  ghost predicate PagesStay(flat: map<nat, Pte>, flat': map<nat, Pte>) {
    forall k: nat :: IsPresent(flat, k) ==> IsPresent(flat', k) && flat'[k].frame == flat[k].frame
  }

  /** The frames that are free no more are those of the new tables, at most `n`, and of the pages newly present. */
  ghost predicate Spent(s: Snapshot, s': Snapshot, n: nat) {
    var made, used := s'.tables - s.tables, NewFrames(s.flat, s'.flat);
    && s.tables <= s'.tables && |made| <= n && PagesStay(s.flat, s'.flat)
    && s.free == s'.free + made + used && s'.free !! made && s'.free !! used && made !! used
  }

  lemma SpentCounts(s: Snapshot, s': Snapshot, n: nat)
    requires Spent(s, s', n)
    ensures |s.free| == |s'.free| + |s'.tables - s.tables| + |NewFrames(s.flat, s'.flat)|
    ensures s'.free <= s.free
  {
    var made, used := s'.tables - s.tables, NewFrames(s.flat, s'.flat);
    assert |s'.free + made| == |s'.free| + |made|;
    assert |s'.free + made + used| == |s'.free + made| + |used|;
  }

  lemma NothingNew(flat: map<nat, Pte>, flat': map<nat, Pte>)
    requires forall k: nat :: IsPresent(flat', k) ==> IsPresent(flat, k)
    ensures NewFrames(flat, flat') == {}
  {
  }

  /** Tables grew, and no page came or went. */
  lemma SpentOnTables(s: Snapshot, s': Snapshot, n: nat)
    requires Grew(s.tables, s.free, s'.tables, s'.free, n)
    requires forall k: nat :: IsPresent(s'.flat, k) == IsPresent(s.flat, k)
    requires PagesStay(s.flat, s'.flat)
    ensures Spent(s, s', n) && NewFrames(s.flat, s'.flat) == {}
  {
    NothingNew(s.flat, s'.flat);
  }

  lemma DemandStays(flat: map<nat, Pte>, key: nat, e: Pte)
    requires !IsPresent(flat, key) && Present !in e.flags
    ensures PagesStay(flat, flat[key := e]) && forall k: nat :: IsPresent(flat[key := e], k) == IsPresent(flat, k)
  {
  }

  lemma SpentOnMark(s: Snapshot, s': Snapshot, key: nat, e: Pte)
    requires Grew(s.tables, s.free, s'.tables, s'.free, 3) && Present !in e.flags
    requires s'.flat == s.flat || s'.flat == s.flat[key := e]
    ensures !IsPresent(s.flat, key) ==> Spent(s, s', 3)
  {
    if !IsPresent(s.flat, key) {
      hide Grew, Spent;
      DemandStays(s.flat, key, e);
      SpentOnTables(s, s', 3);
    }
  }

  /** A frame was taken, and a page put on it. */
  lemma SpentOnPage(s: Snapshot, s': Snapshot, key: nat, e: Pte, n: nat)
    requires !IsPresent(s.flat, key) && Present in e.flags && s'.flat == s.flat[key := e] && s.free !! s.tables
    requires e.frame in s.free && Grew(s.tables, s.free - {e.frame}, s'.tables, s'.free, n)
    ensures Spent(s, s', n) && NewFrames(s.flat, s'.flat) == {e.frame}
  {
    assert NewFrames(s.flat, s'.flat) == {e.frame} by {
      assert key in s'.flat && s'.flat[key] == e;
      forall f | f in NewFrames(s.flat, s'.flat) ensures f == e.frame {
        var k :| k in s'.flat && Present in s'.flat[k].flags && !IsPresent(s.flat, k) && s'.flat[k].frame == f;
      }
      assert e.frame in NewFrames(s.flat, s'.flat);
    }
  }

  lemma NewInBoth(a: map<nat, Pte>, b: map<nat, Pte>, c: map<nat, Pte>)
    requires PagesStay(a, b) && PagesStay(b, c)
    ensures NewFrames(a, c) == NewFrames(a, b) + NewFrames(b, c) && PagesStay(a, c)
  {
    forall f | f in NewFrames(a, c) ensures f in NewFrames(a, b) + NewFrames(b, c) {
      var k :| k in c && Present in c[k].flags && !IsPresent(a, k) && c[k].frame == f;
      if IsPresent(b, k) {
        assert b[k].frame == f && k in b;
      } else {
        assert c[k].frame in NewFrames(b, c);
      }
    }
    forall f | f in NewFrames(a, b) ensures f in NewFrames(a, c) {
      var k :| k in b && Present in b[k].flags && !IsPresent(a, k) && b[k].frame == f;
      assert IsPresent(b, k) && k in c && c[k].frame == f;
    }
    forall f | f in NewFrames(b, c) ensures f in NewFrames(a, c) {
      var k :| k in c && Present in c[k].flags && !IsPresent(b, k) && c[k].frame == f;
      assert !IsPresent(a, k);
    }
  }

  /** What is left of what is left. */
  lemma SplitTwice(f: set<nat>, g: set<nat>, h: set<nat>, m: set<nat>, u: set<nat>, m': set<nat>, u': set<nat>)
    requires f == g + m + u && g !! m && g !! u && m !! u
    requires g == h + m' + u' && h !! m' && h !! u' && m' !! u'
    ensures f == h + (m + m') + (u + u') && h !! m + m' && h !! u + u' && m + m' !! u + u'
  {
  }

  lemma MadeInBoth(a: set<nat>, b: set<nat>, c: set<nat>)
    requires a <= b <= c
    ensures c - a == (b - a) + (c - b) && |c - a| == |b - a| + |c - b|
  {
    assert c - a == (b - a) + (c - b);
  }

  lemma SpentNothing(s: Snapshot)
    ensures Spent(s, s, 0)
  {
    NothingNew(s.flat, s.flat);
  }

  lemma SpentAtMost(s: Snapshot, s': Snapshot, m: nat, n: nat)
    requires Spent(s, s', m) && m <= n
    ensures Spent(s, s', n)
  {
    hide NewFrames, PagesStay;
  }

  /** The area array does not matter. */
  lemma SpentIgnoresItems(s: Snapshot, items: seq<Vma>)
    ensures forall s', n: nat :: Spent(s.(items := items), s', n) ==> Spent(s, s', n)
  {
    hide NewFrames, PagesStay;
  }

  /** Growth from fewer frames is growth with the frame kept aside. */
  lemma GrewBeside(tables: set<nat>, free: set<nat>, tables': set<nat>, free': set<nat>, n: nat, frame: nat)
    requires frame in free && frame !in tables && Grew(tables, free - {frame}, tables', free', n)
    ensures Grew(tables, free, tables', free' + {frame}, n)
  {
  }

  /** A frame that was neither free nor a table is still neither. */
  lemma GrewKeeps(tables: set<nat>, free: set<nat>, tables': set<nat>, free': set<nat>, n: nat, frame: nat)
    requires Grew(tables, free, tables', free', n) && frame !in free && frame !in tables
    ensures frame !in free' && frame !in tables'
  {
  }

  lemma SpentTrans(a: Snapshot, b: Snapshot, c: Snapshot, m: nat, n: nat)
    requires Spent(a, b, m) && Spent(b, c, n)
    ensures Spent(a, c, m + n)
  {
    NewInBoth(a.flat, b.flat, c.flat);
    hide PagesStay, NewFrames;
    var made, made', used, used' :=
      b.tables - a.tables, c.tables - b.tables, NewFrames(a.flat, b.flat), NewFrames(b.flat, c.flat);
    MadeInBoth(a.tables, b.tables, c.tables);
    SplitTwice(a.free, b.free, c.free, made, used, made', used');
  }

  function KindOf(flags: set<MmapFlag>): VmaKind {
    if Stack in flags then StackArea
    else if Anonymous in flags || Shared !in flags then AnonymousArea
    else MmapArea
  }

  /** Area `v` is new in the array; when `done`, its pages are marked for demand paging, or backed if populated. */
  ghost predicate AreaAdded(v: Vma, items: seq<Vma>, items': seq<Vma>, flat: map<nat, Pte>, flat': map<nat, Pte>,
                            done: bool) {
    && UserArea(v) && !Overlaps(items, v.start, v.end)
    && multiset(items') == multiset(items) + multiset{v}
    && Untouched(flat', flat, Vpn(v.start), Vpn(v.end))
    && (Populate !in v.flags ==> NonePresent(flat', Vpn(v.start), Vpn(v.end)))
    && (done && Populate !in v.flags ==> Filled(flat', flat, Vpn(v.start), Vpn(v.end), DemandEntry(v.prot)))
    && (done && Populate in v.flags ==> AllPresent(flat', Vpn(v.start), Vpn(v.end)))
  }

  /** The area at index `i`, of that start and length, is gone. */
  ghost predicate AreaDropped(items: seq<Vma>, i: nat, items': seq<Vma>, start: nat, length: nat)
    requires i < |items|
  {
    items[i].start == start && items[i].end == start + length && items' == items[..i] + items[i + 1..]
  }

  /** The area at index `i`, of that start and length, has a new protection. */
  ghost predicate AreaReprotected(items: seq<Vma>, i: nat, items': seq<Vma>, start: nat, length: nat, prot: set<Prot>)
    requires i < |items|
  {
    items[i].start == start && items[i].end == start + length && items' == items[i := items[i].(prot := prot)]
  }

  /** A page that was not present now is, on a frame that was free, with the flags of its protection. */
  ghost predicate PagedIn(flat: map<nat, Pte>, flat': map<nat, Pte>, key: nat, prot: set<Prot>, free: set<nat>) {
    && !IsPresent(flat, key) && key in flat' && flat'[key].frame in free
    && flat' == flat[key := Pte(flat'[key].frame, FlagsFromProt(prot, true))]
  }

  function ProtOf(read: bool, write: bool, exec: bool): (prot: set<Prot>)
    ensures UserAccess !in prot
    ensures (Read in prot <==> read) && (Write in prot <==> write) && (Exec in prot <==> exec)
  {
    (if read then {Read} else {}) + (if write then {Write} else {}) + (if exec then {Exec} else {})
  }

  /** The area grants exactly these rights, and never a user's. */
  ghost predicate HasRights(v: Vma, read: bool, write: bool, exec: bool) {
    (Read in v.prot <==> read) && (Write in v.prot <==> write) && (Exec in v.prot <==> exec) && UserAccess !in v.prot
  }

  /** The area of exactly that range grants these rights, and so does every present page of the range. */
  ghost predicate Grants(s: Snapshot, addr: nat, size: nat, read: bool, write: bool, exec: bool) {
    && (exists v :: v in s.items && v.start == addr && v.end == addr + size && HasRights(v, read, write, exec))
    && forall k: nat :: Vpn(addr) <= k < Vpn(addr + size) && IsPresent(s.flat, k) ==>
         (Writable in s.flat[k].flags <==> write) && (NoExecute in s.flat[k].flags <==> !exec)
  }

  lemma AreaGrants(s: Snapshot, i: nat, read: bool, write: bool, exec: bool)
    requires Disjoint(s.items) && Covered(s.items, s.flat) && i < |s.items| && UserArea(s.items[i])
    requires HasRights(s.items[i], read, write, exec)
    ensures Grants(s, s.items[i].start, s.items[i].end - s.items[i].start, read, write, exec)
  {
    var v := s.items[i];
    assert v in s.items;
    forall k: nat | Vpn(v.start) <= k < Vpn(v.end) && IsPresent(s.flat, k) ensures Matches(s.flat[k], v) {
      assert v.Contains(k * PAGE_SIZE);
      OneAreaPerAddress(s.items, i, k * PAGE_SIZE);
      assert Backed(s.items, s.flat, k);
    }
  }

  function NewArea(start: nat, length: nat, prot: set<Prot>, flags: set<MmapFlag>): Vma {
    Vma(start, start + length, prot, flags, KindOf(flags))
  }

  predicate IsUserAddress(a: nat) {
    USER_ADDR_MIN <= a <= USER_ADDR_MAX
  }

  lemma AbsentKeeps(items: seq<Vma>, flat: map<nat, Pte>, key: nat, hi: nat)
    requires CoveredBut(items, flat, key, hi) && !IsPresent(flat, key)
    ensures CoveredBut(items, flat, key + 1, hi)
  {
  }

  lemma EmptyExemption(items: seq<Vma>, flat: map<nat, Pte>, hi: nat)
    requires CoveredBut(items, flat, hi, hi)
    ensures Covered(items, flat)
  {
  }

  /** What holds of a present page: one area contains it, with its protection, and nobody else has its frame. */
  ghost predicate PageAgrees(items: seq<Vma>, flat: map<nat, Pte>, free: set<nat>, k: nat)
    requires k in flat
  {
    && (exists v :: v in items && v.Contains(k * PAGE_SIZE) && Matches(flat[k], v)
                    && forall w :: w in items && w.Contains(k * PAGE_SIZE) ==> w == v)
    && flat[k].frame !in free && forall j: nat :: IsPresent(flat, j) && j != k ==> flat[j].frame != flat[k].frame
  }

  lemma AllPagesAgree(items: seq<Vma>, flat: map<nat, Pte>, free: set<nat>, tables: set<nat>)
    requires Disjoint(items) && Covered(items, flat) && FramesOk(flat, free, tables)
    ensures forall k: nat :: IsPresent(flat, k) ==> PageAgrees(items, flat, free, k)
  {
    forall k: nat | IsPresent(flat, k) ensures PageAgrees(items, flat, free, k) {
      PresentPageHasOneArea(items, flat, k);
    }
  }

  // ---------------------------------------------------------------- what each call does

  /** `c` is the first candidate from the hint where `size` bytes fit; None when there is none. */
  ghost predicate IsGap(items: seq<Vma>, hint: nat, size: nat, c: Option<nat>) {
    match c
    case None => forall d: nat :: Candidate(hint, d) ==> !Vmas.Free(items, d, size, USER_MMAP_LIMIT)
    case Some(d) =>
      && Candidate(hint, d) && Vmas.Free(items, d, size, USER_MMAP_LIMIT)
      && forall e: nat :: Candidate(hint, e) && e < d ==> !Vmas.Free(items, e, size, USER_MMAP_LIMIT)
  }

  ghost predicate InSomeArea(items: seq<Vma>, a: nat) {
    exists v :: v in items && v.Contains(a)
  }

  /** Where a mapping goes: the fixed address, unless it must not replace an area there, or the first gap. */
  ghost predicate IsTarget(items: seq<Vma>, addr: nat, size: nat, flags: set<MmapFlag>, base: nat, r: VmResult<nat>) {
    if Fixed in flags then
      r == if FixedNoReplace in flags && InSomeArea(items, addr) then Failed(Exists) else Done(addr)
    else
      var hint := if addr == 0 then base else addr;
      (r == Failed(OutOfSpace) && IsGap(items, hint, size, None))
      || (r.Done? && IsGap(items, hint, size, Some(r.value)))
  }

  /** mmap once the target is known. */
  ghost predicate MmappedAt(s: Snapshot, target: VmResult<nat>, size: nat, prot: set<Prot>, flags: set<MmapFlag>,
                            r: VmResult<nat>, s': Snapshot) {
    if target.Failed? then r == target && s' == s
    else if !IsUserAddress(target.value) || target.value + size > USER_MMAP_LIMIT then
      r == Failed(AccessDenied) && s' == s
    else if |s.items| >= MAX_VMAS || Overlaps(s.items, target.value, target.value + size) then
      r == Failed(OutOfSpace) && s' == s
    else
      && (r == target || (r == Failed(OutOfMemory) && s'.free == {}
                          && !AllPresent(s'.flat, Vpn(target.value), Vpn(target.value + size))))
      && Spent(s, s', 3 * (size / PAGE_SIZE))
      && AreaAdded(NewArea(target.value, size, prot, flags), s.items, s'.items, s.flat, s'.flat, r.Done?)
  }

  ghost predicate Mmapped(s: Snapshot, addr: nat, length: nat, prot: set<Prot>, flags: set<MmapFlag>, base: nat,
                          r: VmResult<nat>, s': Snapshot) {
    if length == 0 then r == Failed(InvalidArgs) && s' == s
    else exists target :: IsTarget(s.items, addr, AlignUp(length), flags, base, target)
                          && MmappedAt(s, target, AlignUp(length), prot, flags, r, s')
  }

  /** Some area has exactly that start and length. */
  ghost predicate IsArea(items: seq<Vma>, start: nat, length: nat) {
    exists v :: v in items && v.start == start && v.end == start + length
  }

  ghost predicate Munmapped(s: Snapshot, addr: nat, length: nat, r: VmResult<()>, s': Snapshot) {
    var size := AlignUp(length);
    if length == 0 then r == Failed(InvalidArgs) && s' == s
    else if !IsArea(s.items, addr, size) then r == Failed(NoSuchArea) && s' == s
    else
      && r == Done(()) && s'.free == s.free && s'.tables == s.tables
      && (exists i :: 0 <= i < |s.items| && AreaDropped(s.items, i, s'.items, addr, size))
      && NonePresent(s'.flat, Vpn(addr), Vpn(addr + size)) && Untouched(s'.flat, s.flat, Vpn(addr), Vpn(addr + size))
  }

  ghost predicate Mprotected(s: Snapshot, addr: nat, length: nat, prot: set<Prot>, r: VmResult<()>, s': Snapshot) {
    var size := AlignUp(length);
    if length == 0 then r == Failed(InvalidArgs) && s' == s
    else if !IsArea(s.items, addr, size) then r == Failed(NoSuchArea) && s' == s
    else
      && r == Done(()) && s'.free == s.free && s'.tables == s.tables
      && (exists i :: 0 <= i < |s.items| && AreaReprotected(s.items, i, s'.items, addr, size, prot))
      && SameFrames(s'.flat, s.flat) && Untouched(s'.flat, s.flat, Vpn(addr), Vpn(addr + size))
  }

  /** The area lets the access through. */
  predicate Permits(v: Vma, write: bool, user: bool) {
    !(user && UserAccess !in v.prot) && !(write && Write !in v.prot)
  }

  /** A fault on a page that its area permits and that is not present: it is paged in unless frames run out. At most
    * two tables were made by then, and the one frame left is the one that was meant for the page; a page that was
    * marked needs no table. */
  ghost predicate PagedInOr(s: Snapshot, key: nat, prot: set<Prot>, outcome: FaultOutcome, s': Snapshot) {
    || (outcome == DemandPaged && PagedIn(s.flat, s'.flat, key, prot, s.free) && Spent(s, s', 3))
    || (outcome == ProtectionViolation && s'.flat == s.flat && Spent(s, s', 2) && |s'.free| <= 1
        && (key in s.flat ==> s.free == {}))
  }

  lemma NoFrameLeft(s: Snapshot, key: nat, prot: set<Prot>, s': Snapshot)
    requires s.free == {} && s' == s
    ensures PagedInOr(s, key, prot, ProtectionViolation, s')
  {
    SpentNothing(s);
    hide PagesStay, NewFrames, PagedIn;
  }

  lemma FrameGivenBack(s: Snapshot, s1: Snapshot, s': Snapshot, key: nat, prot: set<Prot>, f: nat)
    requires f in s.free && s.free !! s.tables && Grew(s.tables, s.free - {f}, s1.tables, s1.free, 2)
    requires s1.free == {} && s1.flat == s.flat && key !in s.flat && s' == s1.(free := {f})
    ensures PagedInOr(s, key, prot, ProtectionViolation, s')
  {
    GrewBeside(s.tables, s.free, s1.tables, s1.free, 2, f);
    assert s1.free + {f} == {f};
    hide Grew;
    SpentOnTables(s, s', 2);
    hide Spent, PagedIn;
  }

  lemma PageOnFrame(s: Snapshot, key: nat, prot: set<Prot>, f: nat, s': Snapshot)
    requires f in s.free && s.free !! s.tables && Grew(s.tables, s.free - {f}, s'.tables, s'.free, 3)
    requires !IsPresent(s.flat, key) && s'.flat == s.flat[key := Pte(f, FlagsFromProt(prot, true))]
    ensures PagedInOr(s, key, prot, DemandPaged, s')
  {
    SpentOnPage(s, s', key, Pte(f, FlagsFromProt(prot, true)), 3);
    hide Spent, Grew;
  }

  ghost predicate FaultIn(s: Snapshot, v: Vma, key: nat, write: bool, user: bool, outcome: FaultOutcome, s': Snapshot) {
    if !Permits(v, write, user) then outcome == ProtectionViolation && s' == s
    else if IsPresent(s.flat, key) then outcome == Handled && s' == s
    else s'.items == s.items && PagedInOr(s, key, v.prot, outcome, s')
  }

  ghost predicate Faulted(s: Snapshot, addr: nat, write: bool, user: bool, outcome: FaultOutcome, s': Snapshot) {
    if !InSomeArea(s.items, AlignDown(addr)) then outcome == BadAddress && s' == s
    else exists v :: v in s.items && v.Contains(AlignDown(addr)) && FaultIn(s, v, Vpn(addr), write, user, outcome, s')
  }
}
