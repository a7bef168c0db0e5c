/**
 * Four-level page tables on values: table frames hold 512 entries each, and the entries of the
 * first three levels point to further table frames. The reference meaning is a flat map from page
 * number (address bits 12..47) to entry.
 */
module Radix {
  import opened Layout
  import opened Arith

  const ENTRIES: nat := 512
  const PAGES: nat := 0x10_0000_0000 // 2^36

  datatype Flag =
    | Present | Writable | User | WriteThrough | NoCache | Accessed | Dirty | Huge | Global
    | Cow | SoftwareDemand | SoftwareFile | NoExecute

  /** A table entry: physical frame number (bits 12..51) and flag bits. */
  datatype Pte = Pte(frame: nat, flags: set<Flag>)

  const ZERO := Pte(0, {})

  type Table = t: seq<Pte> | |t| == ENTRIES witness seq(ENTRIES, _ => ZERO)
  type Tables = map<nat, Table>

  function EmptyTable(): (t: Table)
    ensures forall i :: 0 <= i < ENTRIES ==> t[i] == ZERO
  {
    seq(ENTRIES, _ => ZERO)
  }

  // ---------------------------------------------------------------- addresses

  /** The page number an address is looked up by. */
  function Key(va: nat): (k: nat)
    ensures k < PAGES
  {
    va / PAGE_SIZE % PAGES
  }

  /** The table index used at a level, from the page number. */
  function IndexAt(key: nat, level: nat): (i: nat)
    requires level <= 3
    ensures i < ENTRIES
  {
    match level
    case 0 => key / 0x800_0000 % ENTRIES
    case 1 => key / 0x4_0000 % ENTRIES
    case 2 => key / 0x200 % ENTRIES
    case _ => key % ENTRIES
  }

  /** `page_indices`: the index the code shifts out of the address. */
  function AddressIndex(va: nat, level: nat): (i: nat)
    requires level <= 3
    ensures i < ENTRIES
  {
    match level
    case 0 => va / 0x80_0000_0000 % ENTRIES
    case 1 => va / 0x4000_0000 % ENTRIES
    case 2 => va / 0x20_0000 % ENTRIES
    case _ => va / 0x1000 % ENTRIES
  }

  lemma AddressIndexIsKeyIndex(va: nat, level: nat)
    requires level <= 3
    ensures AddressIndex(va, level) == IndexAt(Key(va), level)
  {
    var page := va / PAGE_SIZE;
    var high, key := page / PAGES, page % PAGES;
    match level
    case 0 =>
      DivDiv(va, 0x1000, 0x800_0000);
      DigitOfSum(high, key, 0x800_0000, 1, ENTRIES);
    case 1 =>
      DivDiv(va, 0x1000, 0x4_0000);
      DigitOfSum(high, key, 0x4_0000, 0x200, ENTRIES);
    case 2 =>
      DivDiv(va, 0x1000, 0x200);
      DigitOfSum(high, key, 0x200, 0x4_0000, ENTRIES);
    case _ =>
      DigitOfSum(high, key, 1, 0x800_0000, ENTRIES);
  }

  /** Two pages with the same four indices are the same page. */
  lemma SameIndices(a: nat, b: nat)
    requires a < PAGES && b < PAGES
    requires forall level :: 0 <= level <= 3 ==> IndexAt(a, level) == IndexAt(b, level)
    ensures a == b
  {
    assert IndexAt(a, 0) == IndexAt(b, 0) && IndexAt(a, 1) == IndexAt(b, 1);
    assert IndexAt(a, 2) == IndexAt(b, 2) && IndexAt(a, 3) == IndexAt(b, 3);
    Digits(a);
    Digits(b);
  }

  lemma Digits(a: nat)
    requires a < PAGES
    ensures a == ((IndexAt(a, 0) * 512 + IndexAt(a, 1)) * 512 + IndexAt(a, 2)) * 512 + IndexAt(a, 3)
  {
    assert a / 0x200 / 512 == a / 0x4_0000 && a / 0x4_0000 / 512 == a / 0x800_0000;
  }

  // ---------------------------------------------------------------- the walk

  /** The table that the walk for `key` stands on at a level; level 3 is the leaf table. */
  ghost function Walk(tables: Tables, root: nat, key: nat, level: nat): Option<nat>
    requires level <= 3
  {
    if level == 0 then Some(root)
    else match Walk(tables, root, key, level - 1)
      case None => None
      case Some(t) => Descend(tables, t, IndexAt(key, level - 1))
  }

  /** The table a present entry points to. */
  ghost function Descend(tables: Tables, t: nat, i: nat): Option<nat>
    requires i < ENTRIES
  {
    if t in tables && Present in tables[t][i].flags then Some(tables[t][i].frame) else None
  }

  /** The entry the walk finds for a page; a page without tables reads as zero. */
  ghost function EntryAt(tables: Tables, root: nat, key: nat): Pte {
    match Walk(tables, root, key, 3)
    case None => ZERO
    case Some(t) => if t in tables then tables[t][IndexAt(key, 3)] else ZERO
  }

  lemma {:induction false} WalkStopped(tables: Tables, root: nat, key: nat, from: nat, level: nat)
    requires from <= level <= 3 && Walk(tables, root, key, from) == None
    ensures Walk(tables, root, key, level) == None
  {
    if from < level {
      WalkStopped(tables, root, key, from, level - 1);
    }
  }

  // ---------------------------------------------------------------- the tree invariant

  /** The indices of a page down to a level. */
  ghost function PathTo(key: nat, level: nat): (p: seq<nat>)
    requires level <= 3
    ensures |p| == level
  {
    if level == 0 then [] else PathTo(key, level - 1) + [IndexAt(key, level - 1)]
  }

  /**
   * `path` names every table frame by the indices that lead to it: a present entry of an inner
   * table points to the table one index further and withholds no right. No frame can then be reached
   * in two ways.
   */
  ghost predicate IsTree(tables: Tables, path: map<nat, seq<nat>>, root: nat) {
    && path.Keys == tables.Keys && root in path && path[root] == []
    && (forall t :: t in path ==> |path[t]| <= 3)
    && forall t, i :: t in path && 0 <= i < ENTRIES ==> ChildOk(tables, path, t, i)
  }

  /** An inner entry with these flags lets every access go on to the next table. */
  ghost predicate PassesAll(flags: set<Flag>) {
    Writable in flags && User in flags && NoExecute !in flags && Huge !in flags
  }

  ghost predicate ChildOk(tables: Tables, path: map<nat, seq<nat>>, t: nat, i: nat)
    requires t in path && i < ENTRIES && path.Keys == tables.Keys
  {
    |path[t]| < 3 && Present in tables[t][i].flags ==>
      var child := tables[t][i].frame;
      child in path && path[child] == path[t] + [i] && PassesAll(tables[t][i].flags)
  }

  /** A walk only stands on tables of the page's own path. */
  lemma {:induction false} WalkFollowsPath(tables: Tables, path: map<nat, seq<nat>>, root: nat, key: nat, level: nat)
    requires IsTree(tables, path, root) && level <= 3
    ensures var t := Walk(tables, root, key, level); t.Some? ==> t.value in path && path[t.value] == PathTo(key, level)
  {
    if level > 0 {
      WalkFollowsPath(tables, path, root, key, level - 1);
      var t := Walk(tables, root, key, level - 1);
      if t.Some? {
        assert ChildOk(tables, path, t.value, IndexAt(key, level - 1));
      }
    }
  }

  lemma {:induction false} SamePath(a: nat, b: nat, level: nat)
    requires level <= 3 && PathTo(a, level) == PathTo(b, level)
    ensures forall l :: 0 <= l < level ==> IndexAt(a, l) == IndexAt(b, l)
  {
    if level > 0 {
      var p, q := PathTo(a, level), PathTo(b, level);
      assert p[..level - 1] == PathTo(a, level - 1) && q[..level - 1] == PathTo(b, level - 1);
      assert p[level - 1] == IndexAt(a, level - 1) && q[level - 1] == IndexAt(b, level - 1);
      SamePath(a, b, level - 1);
    }
  }

  // ---------------------------------------------------------------- what the processor lets through

  datatype Access = Access(user: bool, write: bool, exec: bool)

  /** The entry the processor reads at a level. */
  ghost function EntryOnWalk(tables: Tables, root: nat, key: nat, level: nat): Pte
    requires level <= 3
  {
    match Walk(tables, root, key, level)
    case None => ZERO
    case Some(t) => if t in tables then tables[t][IndexAt(key, level)] else ZERO
  }

  /** An entry permits an access when it is present and withholds none of the rights it needs; a huge entry would end
    * the walk early. */
  ghost predicate EntryPermits(e: Pte, level: nat, a: Access) {
    && Present in e.flags && (level < 3 ==> Huge !in e.flags)
    && (a.user ==> User in e.flags) && (a.write ==> Writable in e.flags) && (a.exec ==> NoExecute !in e.flags)
  }

  /** An access passes when the entries of all four levels permit it. */
  ghost predicate Passes(tables: Tables, root: nat, key: nat, a: Access) {
    forall level :: 0 <= level <= 3 ==> EntryPermits(EntryOnWalk(tables, root, key, level), level, a)
  }

  /** The rights of a page are those of its own entry: no table above it takes any away. */
  lemma PassesAsLeaf(tables: Tables, path: map<nat, seq<nat>>, root: nat, key: nat, a: Access)
    requires IsTree(tables, path, root)
    ensures Passes(tables, root, key, a) <==> EntryPermits(EntryAt(tables, root, key), 3, a)
  {
    assert EntryOnWalk(tables, root, key, 3) == EntryAt(tables, root, key);
    if EntryPermits(EntryAt(tables, root, key), 3, a) {
      forall level | 0 <= level <= 3 ensures EntryPermits(EntryOnWalk(tables, root, key, level), level, a) {
        if level < 3 {
          InnerPermits(tables, path, root, key, level, a);
        }
      }
    }
  }

  lemma InnerPermits(tables: Tables, path: map<nat, seq<nat>>, root: nat, key: nat, level: nat, a: Access)
    requires IsTree(tables, path, root) && level < 3 && Walk(tables, root, key, 3).Some?
    ensures EntryPermits(EntryOnWalk(tables, root, key, level), level, a)
  {
    if Walk(tables, root, key, level + 1).None? {
      WalkStopped(tables, root, key, level + 1, 3);
    }
    WalkFollowsPath(tables, path, root, key, level);
    var t := Walk(tables, root, key, level).value;
    assert ChildOk(tables, path, t, IndexAt(key, level));
  }

  // ---------------------------------------------------------------- writing a leaf entry

  /** A leaf write does not disturb any walk. */
  lemma {:induction false} LeafWriteKeepsWalk(tables: Tables, path: map<nat, seq<nat>>, root: nat, leaf: nat, i: nat,
                                              e: Pte, key: nat, level: nat)
    requires IsTree(tables, path, root) && leaf in path && |path[leaf]| == 3 && i < ENTRIES && level <= 3
    ensures Walk(tables[leaf := tables[leaf][i := e]], root, key, level) == Walk(tables, root, key, level)
  {
    if level > 0 {
      LeafWriteKeepsWalk(tables, path, root, leaf, i, e, key, level - 1);
      WalkFollowsPath(tables, path, root, key, level - 1);
    }
  }

  /** A leaf write changes the entry of exactly one page. */
  lemma LeafWrite(tables: Tables, path: map<nat, seq<nat>>, root: nat, key: nat, leaf: nat, e: Pte, other: nat)
    requires IsTree(tables, path, root) && key < PAGES && other < PAGES
    requires Walk(tables, root, key, 3) == Some(leaf)
    ensures leaf in path && path[leaf] == PathTo(key, 3)
    ensures var tables' := tables[leaf := tables[leaf][IndexAt(key, 3) := e]];
            EntryAt(tables', root, other) == if other == key then e else EntryAt(tables, root, other)
  {
    WalkFollowsPath(tables, path, root, key, 3);
    WalkFollowsPath(tables, path, root, other, 3);
    LeafWriteKeepsWalk(tables, path, root, leaf, IndexAt(key, 3), e, other, 3);
    if Walk(tables, root, other, 3) == Some(leaf) && IndexAt(other, 3) == IndexAt(key, 3) {
      SamePath(other, key, 3);
      SameIndices(other, key);
    }
  }

  lemma LeafWriteKeepsTree(tables: Tables, path: map<nat, seq<nat>>, root: nat, leaf: nat, i: nat, e: Pte)
    requires IsTree(tables, path, root) && leaf in path && |path[leaf]| == 3 && i < ENTRIES
    ensures IsTree(tables[leaf := tables[leaf][i := e]], path, root)
  {
    var tables' := tables[leaf := tables[leaf][i := e]];
    forall t, j | t in path && 0 <= j < ENTRIES
      ensures ChildOk(tables', path, t, j)
    {
      assert ChildOk(tables, path, t, j);
    }
  }

  // ---------------------------------------------------------------- linking a fresh table

  function Linked(tables: Tables, t: nat, i: nat, fresh_: nat): Tables
    requires t in tables && i < ENTRIES
  {
    tables[fresh_ := EmptyTable()][t := tables[t][i := Pte(fresh_, {Present, Writable, User})]]
  }

  lemma LinkKeepsTree(tables: Tables, path: map<nat, seq<nat>>, root: nat, t: nat, i: nat, fresh_: nat)
    requires IsTree(tables, path, root) && t in path && |path[t]| < 3 && i < ENTRIES && fresh_ !in path
    ensures IsTree(Linked(tables, t, i, fresh_), path[fresh_ := path[t] + [i]], root)
  {
    var tables', path' := Linked(tables, t, i, fresh_), path[fresh_ := path[t] + [i]];
    forall s, j | s in path' && 0 <= j < ENTRIES
      ensures ChildOk(tables', path', s, j)
    {
      if s in path { assert ChildOk(tables, path, s, j); }
    }
  }

  /** Linking a fresh table keeps every walk that got through; a walk that did not can at most stand on the fresh
    * table. */
  lemma {:induction false} LinkKeepsWalk(tables: Tables, path: map<nat, seq<nat>>, root: nat, t: nat, i: nat,
                                         fresh_: nat, key: nat, level: nat)
    requires IsTree(tables, path, root) && t in path && |path[t]| < 3 && i < ENTRIES && fresh_ !in path && level <= 3
    requires Present !in tables[t][i].flags
    ensures var tables' := Linked(tables, t, i, fresh_);
            match Walk(tables, root, key, level)
            case Some(s) => Walk(tables', root, key, level) == Some(s) && s in path && |path[s]| == level
            case None => Walk(tables', root, key, level).Some? ==> Walk(tables', root, key, level).value == fresh_
  {
    if level > 0 {
      LinkKeepsWalk(tables, path, root, t, i, fresh_, key, level - 1);
      WalkFollowsPath(tables, path, root, key, level);
    }
  }

  lemma LinkKeepsView(tables: Tables, path: map<nat, seq<nat>>, root: nat, t: nat, i: nat, fresh_: nat, key: nat)
    requires IsTree(tables, path, root) && t in path && |path[t]| < 3 && i < ENTRIES && fresh_ !in path
    requires Present !in tables[t][i].flags
    ensures EntryAt(Linked(tables, t, i, fresh_), root, key) == EntryAt(tables, root, key)
  {
    LinkKeepsWalk(tables, path, root, t, i, fresh_, key, 3);
  }

  // ---------------------------------------------------------------- the flat map

  function Get(flat: map<nat, Pte>, key: nat): Pte {
    if key in flat then flat[key] else ZERO
  }

  function Put(flat: map<nat, Pte>, key: nat, e: Pte): map<nat, Pte> {
    if e == ZERO then flat - {key} else flat[key := e]
  }

  /** The tables and the flat map agree on every page; zero entries are not stored. */
  ghost predicate Flattens(tables: Tables, root: nat, flat: map<nat, Pte>) {
    && (forall k :: k in flat ==> k < PAGES && flat[k] != ZERO)
    && forall k :: 0 <= k < PAGES ==> EntryAt(tables, root, k) == Get(flat, k)
  }

  lemma LeafWriteFlattens(tables: Tables, path: map<nat, seq<nat>>, root: nat, flat: map<nat, Pte>, key: nat, leaf: nat,
                          e: Pte)
    requires IsTree(tables, path, root) && Flattens(tables, root, flat) && key < PAGES
    requires Walk(tables, root, key, 3) == Some(leaf)
    ensures leaf in path && |path[leaf]| == 3
    ensures var tables' := tables[leaf := tables[leaf][IndexAt(key, 3) := e]];
            IsTree(tables', path, root) && Flattens(tables', root, Put(flat, key, e))
  {
    LeafWrite(tables, path, root, key, leaf, e, key);
    LeafWriteKeepsTree(tables, path, root, leaf, IndexAt(key, 3), e);
    var tables' := tables[leaf := tables[leaf][IndexAt(key, 3) := e]];
    forall k | 0 <= k < PAGES
      ensures EntryAt(tables', root, k) == Get(Put(flat, key, e), k)
    {
      LeafWrite(tables, path, root, key, leaf, e, k);
    }
  }

  lemma LinkFlattens(tables: Tables, path: map<nat, seq<nat>>, root: nat, flat: map<nat, Pte>, t: nat, i: nat,
                     fresh_: nat)
    requires IsTree(tables, path, root) && Flattens(tables, root, flat)
    requires t in path && |path[t]| < 3 && i < ENTRIES && fresh_ !in path && Present !in tables[t][i].flags
    ensures IsTree(Linked(tables, t, i, fresh_), path[fresh_ := path[t] + [i]], root)
    ensures Flattens(Linked(tables, t, i, fresh_), root, flat)
  {
    LinkKeepsTree(tables, path, root, t, i, fresh_);
    forall k | 0 <= k < PAGES
      ensures EntryAt(Linked(tables, t, i, fresh_), root, k) == Get(flat, k)
    {
      LinkKeepsView(tables, path, root, t, i, fresh_, k);
    }
  }
}
