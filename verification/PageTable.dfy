/** The kernel's page-table object: table frames come from the frame allocator, entries are written in place. */
module PageTables {
  import opened Layout
  import opened Radix
  import opened FrameAllocators
  import opened Permissions
  import opened Buddy
  import opened FrameBitmaps

  datatype MapError = AlreadyMapped | NotMapped | NoMemory
  datatype Result<+T> = Ok(value: T) | Err(error: MapError)

  /** The flags a mapping gets from its protection. */
  function FlagsFromProt(prot: set<Prot>, user: bool): (flags: set<Flag>)
    ensures Present in flags && Cow !in flags && SoftwareDemand !in flags
    ensures Accessed in flags && (Writable in flags <==> Write in prot) && (Dirty in flags <==> Write in prot)
    ensures NoExecute in flags <==> Exec !in prot
    ensures User in flags <==> user || UserAccess in prot
  {
    {Present, Accessed}
    + (if Write in prot then {Writable, Dirty} else {})
    + (if user || UserAccess in prot then {User} else {})
    + (if Exec !in prot then {NoExecute} else {})
  }

  /** Free frames only turned into tables, at most `n` of them. */
  ghost predicate Grew(tables: set<nat>, free: set<nat>, tables': set<nat>, free': set<nat>, n: nat) {
    tables <= tables' <= tables + free && free' == free - (tables' - tables) && |tables' - tables| <= n
  }

  lemma GrewNone(tables: set<nat>, free: set<nat>, n: nat)
    ensures Grew(tables, free, tables, free, n)
  {
  }

  lemma GrewOne(tables: set<nat>, free: set<nat>, child: nat)
    requires child in free && child !in tables
    ensures Grew(tables, free, tables + {child}, free - {child}, 1)
  {
    assert tables + {child} - tables == {child};
  }

  lemma GrewAtMost(tables: set<nat>, free: set<nat>, tables': set<nat>, free': set<nat>, m: nat, n: nat)
    requires Grew(tables, free, tables', free', m) && m <= n
    ensures Grew(tables, free, tables', free', n)
  {
  }

  lemma GrewTrans(a: set<nat>, f: set<nat>, b: set<nat>, g: set<nat>, c: set<nat>, h: set<nat>, m: nat, n: nat)
    requires Grew(a, f, b, g, m) && Grew(b, g, c, h, n)
    ensures Grew(a, f, c, h, m + n)
  {
    assert c - a == (b - a) + (c - b);
  }

  class PageTable {
    const phys: FrameAllocator
    const cr3: nat
    var tables: Tables
    ghost var path: map<nat, seq<nat>>
    /** The flat meaning of the tables. */
    ghost var flat: map<nat, Pte>

    ghost predicate Valid()
      reads this, phys, phys.bitmap, phys.bitmap.words, phys.buddy
    {
      && phys.Valid()
      && IsTree(tables, path, cr3) && Flattens(tables, cr3, flat)
      && tables.Keys !! phys.Free()
    }

    ghost function Repr(): set<object>
      reads this, phys
    {
      {this} + phys.Repr()
    }

    /** `new_empty` after its root frame was allocated and zeroed. */
    constructor (phys: FrameAllocator, root: nat)
      requires phys.Valid() && root !in phys.Free()
      ensures Valid() && this.phys == phys && cr3 == root && flat == map[] && tables.Keys == {root}
    {
      this.phys := phys;
      cr3 := root;
      tables := map[root := EmptyTable()];
      path := map[root := []];
      flat := map[];
      new;
      forall k | 0 <= k < PAGES ensures EntryAt(tables, cr3, k) == ZERO { WalkStopped(tables, cr3, k, 1, 3); }
    }

    static method NewEmpty(phys: FrameAllocator) returns (r: Option<PageTable>)
      requires phys.Valid()
      modifies phys.Repr()
      ensures phys.Valid()
      ensures r.None? <==> old(phys.Free()) == {}
      ensures r.Some? ==> fresh(r.value) && r.value.Valid() && r.value.phys == phys && r.value.flat == map[]
      ensures r.Some? ==> r.value.cr3 in old(phys.Free()) && phys.Free() == old(phys.Free()) - {r.value.cr3}
    {
      var frame := phys.AllocOne(0);
      if frame.None? {
        return None;
      }
      var table := new PageTable(phys, frame.value);
      r := Some(table);
    }

    /** Allocate, zero and link a table below entry `i` of table `t`. */
    method LinkTable(t: nat, i: nat) returns (r: Option<nat>)
      requires Valid() && t in path && |path[t]| < 3 && i < ENTRIES && Present !in tables[t][i].flags
      modifies this, phys.Repr()
      ensures Valid() && flat == old(flat)
      ensures r.None? ==> old(phys.Free()) == {} && tables == old(tables) && path == old(path) && phys.Free() == {}
      ensures r.Some? ==> r.value in old(phys.Free()) && phys.Free() == old(phys.Free()) - {r.value}
      ensures r.Some? ==> tables == Linked(old(tables), t, i, r.value)
                          && path == old(path)[r.value := old(path)[t] + [i]]
    {
      r := phys.AllocOne(0);
      if r.Some? {
        LinkFlattens(tables, path, cr3, flat, t, i, r.value);
        tables := tables[r.value := EmptyTable()];
        tables := tables[t := tables[t][i := Pte(r.value, {Present, Writable, User})]];
        path := path[r.value := path[t] + [i]];
      }
    }

    /** One level of `walk_mut`: the next table for `va`, linked first when it is missing and wanted. */
    method StepDown(va: nat, level: nat, table: nat, create: bool) returns (r: Result<nat>)
      requires Valid() && level < 3 && Walk(tables, cr3, Key(va), level) == Some(table)
      modifies this, phys.Repr()
      ensures Valid() && flat == old(flat)
      ensures Grew(old(tables.Keys), old(phys.Free()), tables.Keys, phys.Free(), 1)
      ensures !create || Key(va) in flat || r.Err? ==> tables == old(tables) && phys.Free() == old(phys.Free())
      ensures r.Ok? ==> Walk(tables, cr3, Key(va), level + 1) == Some(r.value)
      ensures r.Err? ==> Key(va) !in flat && r.error == (if create then NoMemory else NotMapped)
      ensures r.Err? && create ==> phys.Free() == {}
    {
      hide Grew, BuddyAllocator.Valid, BuddyAllocator.Contents, FrameBitmap.Used;
      ghost var key := Key(va);
      GrewNone(tables.Keys, phys.Free(), 1);
      AddressIndexIsKeyIndex(va, level);
      WalkFollowsPath(tables, path, cr3, key, level);
      var i := AddressIndex(va, level);
      var entry := tables[table][i];
      if Present in entry.flags {
        return Ok(entry.frame);
      }
      WalkStopped(tables, cr3, key, level + 1, 3);
      assert EntryAt(tables, cr3, key) == Get(flat, key);
      assert key !in flat;
      hide Flattens;
      if !create {
        return Err(NotMapped);
      }
      hide IsTree;
      r := LinkBelow(va, level, table, i);
    }

    /** Link a table where the walk for `va` stopped. */
    method LinkBelow(va: nat, level: nat, table: nat, i: nat) returns (r: Result<nat>)
      requires Valid() && level < 3 && Walk(tables, cr3, Key(va), level) == Some(table)
      requires table in path && |path[table]| == level && i == IndexAt(Key(va), level) < ENTRIES
      requires Present !in tables[table][i].flags
      modifies this, phys.Repr()
      ensures Valid() && flat == old(flat)
      ensures Grew(old(tables.Keys), old(phys.Free()), tables.Keys, phys.Free(), 1)
      ensures r.Ok? ==> Walk(tables, cr3, Key(va), level + 1) == Some(r.value)
      ensures r.Err? ==> r.error == NoMemory && phys.Free() == {} == old(phys.Free()) && tables == old(tables)
    {
      hide Grew, Flattens, BuddyAllocator.Valid, BuddyAllocator.Contents, FrameBitmap.Used;
      ghost var keys, free := tables.Keys, phys.Free();
      GrewNone(keys, free, 1);
      LinkAnyKeepsWalk(tables, path, cr3, table, i, Key(va), level);
      var child := LinkTable(table, i);
      hide IsTree;
      if child.None? {
        return Err(NoMemory);
      }
      GrewOne(keys, free, child.value);
      assert tables.Keys == keys + {child.value};
      r := Ok(child.value);
    }

    /**
     * `walk_mut`: the leaf table that holds the page's entry. Missing tables are created on demand;
     * running out of frames half-way leaves tables behind but no page changes its meaning.
     */
    method WalkMut(va: nat, create: bool) returns (r: Result<nat>)
      requires Valid()
      modifies this, phys.Repr()
      ensures Valid() && flat == old(flat)
      ensures Grew(old(tables.Keys), old(phys.Free()), tables.Keys, phys.Free(), if r.Ok? then 3 else 2)
      ensures !create || Key(va) in flat ==> tables == old(tables) && phys.Free() == old(phys.Free())
      ensures r.Ok? ==> Walk(tables, cr3, Key(va), 3) == Some(r.value) && r.value in tables
      ensures r.Err? ==> Key(va) !in flat && r.error == (if create then NoMemory else NotMapped)
      ensures r.Err? && create ==> phys.Free() == {}
    {
      hide Flattens, BuddyAllocator.Valid, BuddyAllocator.Contents, FrameBitmap.Used, Grew;
      var table := cr3;
      ghost var keys0, free0 := tables.Keys, phys.Free();
      GrewNone(keys0, free0, 0);
      for level := 0 to 3
        invariant Valid() && flat == old(flat)
        invariant Grew(keys0, free0, tables.Keys, phys.Free(), level)
        invariant !create || Key(va) in flat ==> tables == old(tables) && phys.Free() == old(phys.Free())
        invariant Walk(tables, cr3, Key(va), level) == Some(table)
      {
        ghost var keys, free := tables.Keys, phys.Free();
        var next := StepDown(va, level, table, create);
        if next.Err? {
          GrewAtMost(keys0, free0, keys, free, level, 2);
          return next;
        }
        GrewTrans(keys0, free0, keys, free, tables.Keys, phys.Free(), level, 1);
        table := next.value;
      }
      WalkFollowsPath(tables, path, cr3, Key(va), 3);
      r := Ok(table);
    }

    /** Write the entry of `va` in the leaf table found for it. */
    method WriteEntry(va: nat, leaf: nat, e: Pte)
      requires Valid() && Walk(tables, cr3, Key(va), 3) == Some(leaf) && leaf in tables
      modifies this
      ensures Valid() && flat == Put(old(flat), Key(va), e) && tables.Keys == old(tables.Keys)
      ensures phys.Free() == old(phys.Free())
    {
      AddressIndexIsKeyIndex(va, 3);
      LeafWriteFlattens(tables, path, cr3, flat, Key(va), leaf, e);
      tables := tables[leaf := tables[leaf][AddressIndex(va, 3) := e]];
      flat := Put(flat, Key(va), e);
    }

    method ReadEntry(va: nat, leaf: nat) returns (e: Pte)
      requires Valid() && Walk(tables, cr3, Key(va), 3) == Some(leaf) && leaf in tables
      ensures e == Get(flat, Key(va)) && (e == ZERO <==> Key(va) !in flat)
    {
      AddressIndexIsKeyIndex(va, 3);
      e := tables[leaf][AddressIndex(va, 3)];
      assert EntryAt(tables, cr3, Key(va)) == e;
    }

    method MapPage(va: nat, frame: nat, flags: set<Flag>) returns (r: Result<()>)
      requires Valid()
      modifies this, phys.Repr()
      ensures Valid()
      ensures Grew(old(tables.Keys), old(phys.Free()), tables.Keys, phys.Free(), if r == Err(NoMemory) then 2 else 3)
      ensures Key(va) in old(flat) ==> tables.Keys == old(tables.Keys) && phys.Free() == old(phys.Free())
      ensures r == Err(AlreadyMapped) <==> Present in Get(old(flat), Key(va)).flags
      ensures r == Err(NoMemory) ==> phys.Free() == {} && Key(va) !in old(flat)
      ensures r != Err(NotMapped)
      ensures Key(va) in old(flat) && Present !in old(flat)[Key(va)].flags ==> r.Ok?
      ensures flat == if r.Ok? then Put(old(flat), Key(va), Pte(frame, flags)) else old(flat)
    {
      hide IsTree, Flattens, BuddyAllocator.Valid, BuddyAllocator.Contents, FrameBitmap.Used, Grew;
      var leaf := WalkMut(va, true);
      if leaf.Err? {
        return Err(leaf.error);
      }
      var entry := ReadEntry(va, leaf.value);
      if Present in entry.flags {
        return Err(AlreadyMapped);
      }
      WriteEntry(va, leaf.value, Pte(frame, flags));
      r := Ok(());
    }

    /** Overwrites whatever the page held, a present mapping included. */
    method MapPageDemand(va: nat, flags: set<Flag>) returns (r: Result<()>)
      requires Valid()
      modifies this, phys.Repr()
      ensures Valid()
      ensures Grew(old(tables.Keys), old(phys.Free()), tables.Keys, phys.Free(), if r.Err? then 2 else 3)
      ensures Key(va) in old(flat) ==> tables.Keys == old(tables.Keys) && phys.Free() == old(phys.Free())
      ensures r.Err? ==> r.error == NoMemory && phys.Free() == {} && Key(va) !in old(flat)
      ensures flat == if r.Ok? then old(flat)[Key(va) := Pte(0, flags + {SoftwareDemand} - {Present})] else old(flat)
    {
      hide IsTree, Flattens, BuddyAllocator.Valid, BuddyAllocator.Contents, FrameBitmap.Used, Grew;
      var leaf := WalkMut(va, true);
      if leaf.Err? {
        return Err(leaf.error);
      }
      WriteEntry(va, leaf.value, Pte(0, flags + {SoftwareDemand} - {Present}));
      assert SoftwareDemand in flags + {SoftwareDemand} - {Present};
      r := Ok(());
    }

    /** A demand entry is not present, so it is not unmapped. */
    method UnmapPage(va: nat) returns (r: Result<nat>)
      requires Valid()
      modifies this, phys.Repr()
      ensures Valid() && tables.Keys == old(tables.Keys) && phys.Free() == old(phys.Free())
      ensures r == if Present in Get(old(flat), Key(va)).flags then Ok(old(flat)[Key(va)].frame) else Err(NotMapped)
      ensures flat == if r.Ok? then old(flat) - {Key(va)} else old(flat)
    {
      hide IsTree, Flattens, BuddyAllocator.Valid, BuddyAllocator.Contents, FrameBitmap.Used, Grew;
      var leaf := WalkMut(va, false);
      if leaf.Err? {
        return Err(leaf.error);
      }
      var entry := ReadEntry(va, leaf.value);
      if Present !in entry.flags {
        return Err(NotMapped);
      }
      WriteEntry(va, leaf.value, ZERO);
      r := Ok(entry.frame);
    }

    method GetFlags(va: nat) returns (r: Option<set<Flag>>)
      requires Valid()
      modifies this, phys.Repr()
      ensures Valid() && flat == old(flat) && tables == old(tables) && phys.Free() == old(phys.Free())
      ensures r == if Key(va) in flat then Some(flat[Key(va)].flags) else None
    {
      hide IsTree, Flattens, BuddyAllocator.Valid, BuddyAllocator.Contents, FrameBitmap.Used, Grew;
      var leaf := WalkMut(va, false);
      if leaf.Err? {
        return None;
      }
      var entry := ReadEntry(va, leaf.value);
      if entry == ZERO {
        return None;
      }
      r := Some(entry.flags);
    }

    /** Replaces all flags and keeps the frame; a frame-0 entry stripped of every flag disappears. */
    method SetFlags(va: nat, flags: set<Flag>) returns (r: Result<()>)
      requires Valid()
      modifies this, phys.Repr()
      ensures Valid() && tables.Keys == old(tables.Keys) && phys.Free() == old(phys.Free())
      ensures r == if Key(va) in old(flat) then Ok(()) else Err(NotMapped)
      ensures flat == if r.Ok? then Put(old(flat), Key(va), Pte(old(flat)[Key(va)].frame, flags)) else old(flat)
    {
      hide IsTree, Flattens, BuddyAllocator.Valid, BuddyAllocator.Contents, FrameBitmap.Used, Grew;
      var leaf := WalkMut(va, false);
      if leaf.Err? {
        return Err(leaf.error);
      }
      var entry := ReadEntry(va, leaf.value);
      if entry == ZERO {
        return Err(NotMapped);
      }
      WriteEntry(va, leaf.value, Pte(entry.frame, flags));
      r := Ok(());
    }

    method Resolve(va: nat) returns (r: Option<Pte>)
      requires Valid()
      modifies this, phys.Repr()
      ensures Valid() && flat == old(flat) && tables == old(tables) && phys.Free() == old(phys.Free())
      ensures r == if Present in Get(flat, Key(va)).flags then Some(flat[Key(va)]) else None
    {
      hide IsTree, Flattens, BuddyAllocator.Valid, BuddyAllocator.Contents, FrameBitmap.Used, Grew;
      var leaf := WalkMut(va, false);
      if leaf.Err? {
        return None;
      }
      var entry := ReadEntry(va, leaf.value);
      r := if Present in entry.flags then Some(entry) else None;
    }
  }

  lemma LinkAnyKeepsWalk(tables: Tables, path: map<nat, seq<nat>>, root: nat, t: nat, i: nat, key: nat, level: nat)
    requires IsTree(tables, path, root) && t in path && |path[t]| < 3 && i < ENTRIES && level < 3
    requires Present !in tables[t][i].flags && Walk(tables, root, key, level) == Some(t) && i == IndexAt(key, level)
    ensures forall child :: child !in path ==> Walk(Linked(tables, t, i, child), root, key, level + 1) == Some(child)
  {
    forall child: nat | child !in path
      ensures Walk(Linked(tables, t, i, child), root, key, level + 1) == Some(child)
    {
      LinkKeepsWalk(tables, path, root, t, i, child, key, level);
    }
  }

  // ---------------------------------------------------------------- whole runs

  datatype PageOp =
    | OpMap(va: nat, frame: nat, flags: set<Flag>)
    | OpDemand(va: nat, flags: set<Flag>)
    | OpUnmap(va: nat)
    | OpSetFlags(va: nat, flags: set<Flag>)

  /** What an operation means on the flat map; one that runs out of table frames does nothing. */
  function FlatStep(flat: map<nat, Pte>, op: PageOp, noMemory: bool): map<nat, Pte> {
    var old_ := Get(flat, Key(op.va));
    match op
    case OpMap(va, frame, flags) =>
      if noMemory || Present in old_.flags then flat else Put(flat, Key(va), Pte(frame, flags))
    case OpDemand(va, flags) => if noMemory then flat else flat[Key(va) := Pte(0, flags + {SoftwareDemand} - {Present})]
    case OpUnmap(va) => if Present in old_.flags then flat - {Key(va)} else flat
    case OpSetFlags(va, flags) => if Key(va) in flat then Put(flat, Key(va), Pte(old_.frame, flags)) else flat
  }

  function FlatRun(flat: map<nat, Pte>, ops: seq<PageOp>, noMemory: seq<bool>): map<nat, Pte>
    requires |ops| == |noMemory|
  {
    if ops == [] then flat
    else FlatStep(FlatRun(flat, ops[..|ops| - 1], noMemory[..|ops| - 1]), ops[|ops| - 1], noMemory[|ops| - 1])
  }

  /** The operation may have to allocate tables: it adds an entry for a page that has none. */
  ghost predicate NeedsTable(flat: map<nat, Pte>, op: PageOp) {
    (op.OpMap? || op.OpDemand?) && Key(op.va) !in flat
  }

  /** A run of page operations, then a lookup of any page: both lookups answer as the flat map does. */
  method RunThenLookUp(table: PageTable, ops: seq<PageOp>, va: nat)
    returns (noMemory: seq<bool>, flags: Option<set<Flag>>, mapping: Option<Pte>)
    requires table.Valid()
    modifies table.Repr()
    ensures table.Valid() && |noMemory| == |ops| && table.flat == FlatRun(old(table.flat), ops, noMemory)
    ensures flags == if Key(va) in table.flat then Some(table.flat[Key(va)].flags) else None
    ensures mapping == if Present in Get(table.flat, Key(va)).flags then Some(table.flat[Key(va)]) else None
    ensures forall a ::
              Passes(table.tables, table.cr3, Key(va), a) <==> mapping.Some? && EntryPermits(mapping.value, 3, a)
    ensures true in noMemory ==> table.phys.Free() == {}
    ensures forall k: nat :: k < |ops| && noMemory[k] ==>
              NeedsTable(FlatRun(old(table.flat), ops[..k], noMemory[..k]), ops[k])
  {
    noMemory := [];
    ghost var start := table.flat;
    hide IsTree, Flattens, BuddyAllocator.Valid, BuddyAllocator.Contents, FrameBitmap.Used;
    for i := 0 to |ops|
      invariant table.Valid() && |noMemory| == i && table.flat == FlatRun(start, ops[..i], noMemory)
      invariant true in noMemory ==> table.phys.Free() == {}
      invariant forall k: nat :: k < i && noMemory[k] ==> NeedsTable(FlatRun(start, ops[..k], noMemory[..k]), ops[k])
    {
      var failed := ApplyOp(table, ops[i]);
      forall k: nat | k < i ensures (noMemory + [failed])[..k] == noMemory[..k] {}
      assert ops[..i + 1][..i] == ops[..i] && (noMemory + [failed])[..i] == noMemory;
      noMemory := noMemory + [failed];
    }
    assert ops[..|ops|] == ops;
    flags := table.GetFlags(va);
    mapping := table.Resolve(va);
    forall a: Access
      ensures Passes(table.tables, table.cr3, Key(va), a) <==> mapping.Some? && EntryPermits(mapping.value, 3, a)
    {
      ProcessorAgrees(table, Key(va), a);
    }
  }

  /** The processor lets through what the flat entry permits. */
  lemma ProcessorAgrees(table: PageTable, key: nat, a: Access)
    requires table.Valid() && key < PAGES
    ensures Passes(table.tables, table.cr3, key, a) <==> EntryPermits(Get(table.flat, key), 3, a)
  {
    PassesAsLeaf(table.tables, table.path, table.cr3, key, a);
    assert EntryAt(table.tables, table.cr3, key) == Get(table.flat, key);
  }

  method ApplyOp(table: PageTable, op: PageOp) returns (noMemory: bool)
    requires table.Valid()
    modifies table.Repr()
    ensures table.Valid() && table.flat == FlatStep(old(table.flat), op, noMemory)
    ensures table.phys.Free() <= old(table.phys.Free())
    ensures noMemory ==> NeedsTable(old(table.flat), op) && table.phys.Free() == {}
  {
    hide IsTree, Flattens, BuddyAllocator.Valid, BuddyAllocator.Contents, FrameBitmap.Used;
    match op
    case OpMap(va, frame, flags) =>
      var r := table.MapPage(va, frame, flags);
      noMemory := r.Err? && r.error == NoMemory;
      assert r.Err? ==> r == Err(AlreadyMapped) || r == Err(NoMemory) || r == Err(NotMapped);
    case OpDemand(va, flags) =>
      var r := table.MapPageDemand(va, flags);
      noMemory := r.Err?;
    case OpUnmap(va) =>
      var _ := table.UnmapPage(va);
      noMemory := false;
    case OpSetFlags(va, flags) =>
      var _ := table.SetFlags(va, flags);
      noMemory := false;
  }
}
