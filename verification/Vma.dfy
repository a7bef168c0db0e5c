/** Protections, and the sorted array of virtual memory areas of one address space. */
module Permissions {
  datatype Prot = Read | Write | Exec | UserAccess | GrowDown | SharedMapping

  datatype MmapFlag =
    | Shared | Private | Anonymous | Fixed | FixedNoReplace | Populate | NoReserve | Stack | HugeTlb
}

module Vmas {
  import opened Layout
  import opened Permissions

  const MAX_VMAS: nat := 256

  datatype VmaKind = AnonymousArea | FileArea | StackArea | HeapArea | MmapArea | FramebufferArea

  datatype Vma = Vma(start: nat, end: nat, prot: set<Prot>, flags: set<MmapFlag>, kind: VmaKind) {
    predicate Contains(addr: nat) {
      start <= addr < end
    }

    function PageCount(): nat
      requires start <= end
    {
      AlignUp(end - start) / PAGE_SIZE
    }
  }

  datatype VmaError = NoSpace | NotFound
  datatype VmaResult<+T> = Ok(value: T) | Err(error: VmaError)

  // ---------------------------------------------------------------- areas on values

  predicate Overlapping(v: Vma, start: nat, end: nat) {
    start < v.end && end > v.start
  }

  ghost predicate Overlaps(items: seq<Vma>, start: nat, end: nat) {
    exists i :: 0 <= i < |items| && Overlapping(items[i], start, end)
  }

  ghost predicate Sorted(items: seq<Vma>) {
    forall i, j :: 0 <= i < j < |items| ==> items[i].start <= items[j].start
  }

  /** Start-sorted, non-empty and pairwise disjoint: each area ends before the next one starts. */
  ghost predicate Disjoint(items: seq<Vma>) {
    && (forall i :: 0 <= i < |items| ==> items[i].start < items[i].end)
    && forall i, j :: 0 <= i < j < |items| ==> items[i].end <= items[j].start
  }

  /** The insertion step of the sort: behind the last area that does not start later. */
  function Insort(items: seq<Vma>, v: Vma): seq<Vma> {
    if items == [] || items[|items| - 1].start <= v.start then items + [v]
    else Insort(items[..|items| - 1], v) + [items[|items| - 1]]
  }

  function InsertionSort(items: seq<Vma>): seq<Vma> {
    if items == [] then [] else Insort(InsertionSort(items[..|items| - 1]), items[|items| - 1])
  }

  /** `j` is where the insertion step stops. */
  ghost predicate Place(items: seq<Vma>, v: Vma, j: nat) {
    && j <= |items| && (j > 0 ==> items[j - 1].start <= v.start)
    && forall k :: j <= k < |items| ==> items[k].start > v.start
  }

  function Inserted<T>(items: seq<T>, v: T, j: nat): (s: seq<T>)
    requires j <= |items|
    ensures |s| == |items| + 1
    ensures forall a :: 0 <= a < |s| ==> s[a] == if a < j then items[a] else if a == j then v else items[a - 1]
  {
    items[..j] + [v] + items[j..]
  }

  lemma InsertedMultiset<T>(items: seq<T>, v: T, j: nat)
    requires j <= |items|
    ensures multiset(Inserted(items, v, j)) == multiset(items) + multiset{v}
  {
    assert items == items[..j] + items[j..];
  }

  lemma InsertedSorted(items: seq<Vma>, v: Vma, j: nat)
    requires Sorted(items) && Place(items, v, j)
    ensures Sorted(Inserted(items, v, j))
  {
    var s := Inserted(items, v, j);
    hide Inserted;
    forall a, b | 0 <= a < b < |s|
      ensures s[a].start <= s[b].start
    {
      var left := if a < j then items[a] else if a == j then v else items[a - 1];
      var right := if b < j then items[b] else if b == j then v else items[b - 1];
      assert s[a] == left && s[b] == right;
    }
  }

  lemma InsertedDisjoint(items: seq<Vma>, v: Vma, j: nat)
    requires Disjoint(items) && Place(items, v, j) && v.start < v.end && !Overlaps(items, v.start, v.end)
    ensures Disjoint(Inserted(items, v, j))
  {
    var s := Inserted(items, v, j);
    hide Inserted;
    forall k | 0 <= k < |items| ensures if k < j then items[k].end <= v.start else v.end <= items[k].start {
      assert !Overlapping(items[k], v.start, v.end);
    }
    hide Overlaps;
    forall a, b | 0 <= a < b < |s|
      ensures s[a].end <= s[b].start
    {
      var left := if a < j then items[a] else if a == j then v else items[a - 1];
      var right := if b < j then items[b] else if b == j then v else items[b - 1];
      assert s[a] == left && s[b] == right;
    }
  }

  lemma DisjointIsSorted(items: seq<Vma>)
    requires Disjoint(items)
    ensures Sorted(items)
  {
  }

  /** Sorting a disjoint array with one more area behind it puts that area in its place. */
  lemma SortAppended(items: seq<Vma>, v: Vma)
    requires Disjoint(items) && v.start < v.end && !Overlaps(items, v.start, v.end)
    ensures var sorted := InsertionSort(items + [v]);
            Disjoint(sorted) && multiset(sorted) == multiset(items) + multiset{v}
  {
    hide *;
    DisjointIsSorted(items);
    SortedIsFixed(items);
    SortStep(items + [v], |items|);
    assert (items + [v])[..|items|] == items && (items + [v])[..|items| + 1] == items + [v];
    var j := PlaceOf(items, v);
    InsortAt(items, v, j);
    InsertedDisjoint(items, v, j);
    InsertedMultiset(items, v, j);
  }

  lemma SortStep(items: seq<Vma>, i: nat)
    requires i < |items|
    ensures InsertionSort(items[..i + 1]) == Insort(InsertionSort(items[..i]), items[i])
  {
    assert items[..i + 1][..i] == items[..i];
  }

  lemma {:induction false} InsortAt(items: seq<Vma>, v: Vma, j: nat)
    requires Place(items, v, j)
    ensures j <= |items| && Insort(items, v) == Inserted(items, v, j)
  {
    if j == |items| {
      assert items[..j] == items && items[j..] == [];
    } else {
      var n := |items| - 1;
      InsortAt(items[..n], v, j);
      assert items[..n][..j] == items[..j] && items[..n][j..] + [items[n]] == items[j..];
    }
  }

  lemma {:induction false} PlaceOf(items: seq<Vma>, v: Vma) returns (j: nat)
    requires Sorted(items)
    ensures Place(items, v, j)
  {
    if items == [] || items[|items| - 1].start <= v.start {
      j := |items|;
    } else {
      j := PlaceOf(items[..|items| - 1], v);
    }
  }

  lemma {:induction false} InsortKeeps(items: seq<Vma>, v: Vma)
    ensures multiset(Insort(items, v)) == multiset(items) + multiset{v}
  {
    if items != [] && items[|items| - 1].start > v.start {
      InsortKeeps(items[..|items| - 1], v);
      assert items == items[..|items| - 1] + [items[|items| - 1]];
    }
  }

  lemma {:induction false} SortKeeps(items: seq<Vma>)
    ensures multiset(InsertionSort(items)) == multiset(items)
  {
    if items != [] {
      var n := |items| - 1;
      assert InsertionSort(items) == Insort(InsertionSort(items[..n]), items[n]);
      hide InsertionSort, Insort;
      SortKeeps(items[..n]);
      InsortKeeps(InsertionSort(items[..n]), items[n]);
      assert items == items[..n] + [items[n]];
    }
  }

  lemma SortIsSorted(items: seq<Vma>)
    ensures Sorted(InsertionSort(items)) && |InsertionSort(items)| == |items|
    ensures multiset(InsertionSort(items)) == multiset(items)
  {
    SortKeeps(items);
    SortSorts(items);
  }

  lemma {:induction false} SortSorts(items: seq<Vma>)
    ensures Sorted(InsertionSort(items)) && |InsertionSort(items)| == |items|
  {
    if items != [] {
      var sorted, v := InsertionSort(items[..|items| - 1]), items[|items| - 1];
      SortSorts(items[..|items| - 1]);
      var j := PlaceOf(sorted, v);
      InsortAt(sorted, v, j);
      InsertedSorted(sorted, v, j);
    }
  }

  lemma {:induction false} SortedIsFixed(items: seq<Vma>)
    requires Sorted(items)
    ensures InsertionSort(items) == items
  {
    if items != [] {
      SortedIsFixed(items[..|items| - 1]);
    }
  }

  /** The areas left in an array of slots. */
  function Somes(slots: seq<Option<Vma>>): seq<Vma> {
    if slots == [] then []
    else
      var rest := Somes(slots[..|slots| - 1]);
      match slots[|slots| - 1] case None => rest case Some(v) => rest + [v]
  }

  lemma {:induction false} SomesAll(slots: seq<Option<Vma>>, items: seq<Vma>)
    requires |slots| == |items| && forall i :: 0 <= i < |slots| ==> slots[i] == Some(items[i])
    ensures Somes(slots) == items
  {
    if slots != [] {
      SomesAll(slots[..|slots| - 1], items[..|items| - 1]);
    }
  }

  lemma {:induction false} SomesWithout(slots: seq<Option<Vma>>, items: seq<Vma>, hole: nat)
    requires |slots| == |items| && hole < |slots| && slots[hole] == None
    requires forall i :: 0 <= i < |slots| && i != hole ==> slots[i] == Some(items[i])
    ensures Somes(slots) == items[..hole] + items[hole + 1..]
  {
    var n := |slots| - 1;
    if hole == n {
      SomesAll(slots[..n], items[..n]);
    } else {
      SomesWithout(slots[..n], items[..n], hole);
      assert items[..n][..hole] + items[..n][hole + 1..] + [items[n]] == items[..hole] + items[hole + 1..];
    }
  }

  // ---------------------------------------------------------------- the gap search

  /** The addresses `find_gap` tries: the hint itself, then every page boundary above it. */
  predicate Candidate(hint: nat, c: nat) {
    c == hint || (c > hint && Aligned(c))
  }

  ghost predicate Free(items: seq<Vma>, c: nat, length: nat, limit: nat) {
    c + length <= limit && !Overlaps(items, c, c + length)
  }

  /** No page boundary lies strictly between an address and the next step of the search. */
  lemma NextCandidate(hint: nat, cursor: nat, c: nat)
    requires Candidate(hint, cursor) && Candidate(hint, c) && c < AlignUp(cursor + 1)
    ensures c <= cursor
  {
  }

  // ---------------------------------------------------------------- the array

  class VmaTree {
    const entries: array<Option<Vma>>
    var len: nat
    /** The areas, in address order. */
    ghost var items: seq<Vma>

    ghost predicate Dense()
      reads this, entries
    {
      && entries.Length == MAX_VMAS && len <= MAX_VMAS && |items| == len
      && (forall i :: 0 <= i < len ==> entries[i] == Some(items[i]))
      && (forall i :: len <= i < MAX_VMAS ==> entries[i] == None)
    }

    ghost predicate Valid()
      reads this, entries
    {
      Dense() && Disjoint(items)
    }

    constructor ()
      ensures Valid() && items == [] && fresh(entries)
    {
      entries := new Option<Vma>[MAX_VMAS](_ => None);
      len := 0;
      items := [];
    }

    method HasOverlap(start: nat, end: nat) returns (b: bool)
      requires Dense()
      ensures b == Overlaps(items, start, end)
    {
      for i := 0 to len
        invariant forall k :: 0 <= k < i ==> !Overlapping(items[k], start, end)
      {
        if Overlapping(entries[i].value, start, end) {
          return true;
        }
      }
      b := false;
    }

    method Insert(vma: Vma) returns (r: VmaResult<()>)
      requires Valid() && vma.start < vma.end
      modifies this, entries
      ensures Valid()
      ensures r.Ok? <==> |old(items)| < MAX_VMAS && !Overlaps(old(items), vma.start, vma.end)
      ensures r.Ok? ==> multiset(items) == multiset(old(items)) + multiset{vma}
      ensures r.Err? ==> r.error == NoSpace && items == old(items)
    {
      var overlap := HasOverlap(vma.start, vma.end);
      if len >= MAX_VMAS || overlap {
        return Err(NoSpace);
      }
      SortAppended(items, vma);
      hide Overlaps, InsertionSort;
      Append(vma);
      SortEntries();
      r := Ok(());
    }

    method Append(vma: Vma)
      requires Dense() && len < MAX_VMAS
      modifies this, entries
      ensures Dense() && items == old(items) + [vma]
    {
      entries[len] := Some(vma);
      len := len + 1;
      items := items + [vma];
    }

    method SortEntries()
      requires Dense()
      modifies this, entries
      ensures Dense() && items == InsertionSort(old(items))
    {
      if len == 0 {
        return;
      }
      ghost var input := items;
      SortSorts(input[..1]);
      assert input[..1][..0] == [] && InsertionSort(input[..1]) == [input[0]];
      hide InsertionSort, Insort;
      for i := 1 to len
        invariant Dense() && |items| == |input|
        invariant items == InsertionSort(input[..i]) + input[i..]
      {
        ghost var sorted := InsertionSort(input[..i]);
        SortSorts(input[..i]);
        SortStep(input, i);
        assert items[..i] == sorted && items[i] == input[i] && items[i + 1..] == input[i + 1..];
        Sink(i);
      }
      assert input[..len] == input;
    }

    /** The inner loop: carry entry `i` down past every entry that starts later. */
    method Sink(i: nat)
      requires Dense() && i < len && Sorted(items[..i])
      modifies this, entries
      ensures Dense() && len == old(len)
      ensures items == Insort(old(items)[..i], old(items)[i]) + old(items)[i + 1..]
    {
      ghost var sorted, v, tail := items[..i], items[i], items[i + 1..];
      var j := i;
      while j > 0
        invariant j <= i && Dense() && len == old(len)
        invariant items == Inserted(sorted, v, j) + tail
        invariant forall k :: j <= k < i ==> sorted[k].start > v.start
      {
        var left, right := entries[j - 1].value.start, entries[j].value.start;
        assert items[j - 1] == sorted[j - 1] && items[j] == v;
        if left <= right {
          break;
        }
        entries[j - 1], entries[j] := entries[j], entries[j - 1];
        items := items[j - 1 := items[j]][j := items[j - 1]];
        j := j - 1;
      }
      InsortAt(sorted, v, j);
    }

    method Remove(start: nat, length: nat) returns (r: VmaResult<Vma>)
      requires Valid()
      modifies this, entries
      ensures Valid()
      ensures r.Err? ==> r.error == NotFound && items == old(items)
      ensures r.Err? ==> forall v :: v in items ==> v.start != start || v.end != start + length
      ensures r.Ok? ==> r.value.start == start && r.value.end == start + length
      ensures r.Ok? ==> exists i :: 0 <= i < |old(items)| && old(items)[i] == r.value
                                    && items == old(items)[..i] + old(items)[i + 1..]
    {
      var end := start + length;
      for i := 0 to len
        invariant unchanged(this) && unchanged(entries)
        invariant forall k :: 0 <= k < i ==> items[k].start != start || items[k].end != end
      {
        var vma := entries[i].value;
        if vma.start == start && vma.end == end {
          RemoveAt(i);
          return Ok(vma);
        }
      }
      r := Err(NotFound);
    }

    method RemoveAt(i: nat)
      requires Valid() && i < len
      modifies this, entries
      ensures Valid() && items == old(items)[..i] + old(items)[i + 1..]
    {
      entries[i] := None;
      SomesWithout(entries[..len], items, i);
      items := items[..i] + items[i + 1..];
      Compact();
    }

    /** Close the holes: the remaining areas move down in order. */
    method Compact()
      requires entries.Length == MAX_VMAS && len <= MAX_VMAS && items == Somes(entries[..len])
      requires forall i :: len <= i < MAX_VMAS ==> entries[i] == None
      modifies entries, this`len
      ensures Dense()
    {
      ghost var slots := entries[..len];
      var out := 0;
      for i := 0 to len
        invariant out <= i && len == old(len) && |slots| == len && items == old(items)
        invariant forall k :: i <= k < len ==> entries[k] == slots[k]
        invariant forall k :: len <= k < MAX_VMAS ==> entries[k] == None
        invariant |Somes(slots[..i])| == out && forall k :: 0 <= k < out ==> entries[k] == Some(Somes(slots[..i])[k])
      {
        assert slots[..i + 1][..i] == slots[..i];
        if entries[i].Some? {
          if out != i {
            entries[out] := entries[i];
          }
          out := out + 1;
        }
      }
      assert slots[..len] == slots;
      ClearFrom(out);
    }

    method ClearFrom(out: nat)
      requires out <= len <= MAX_VMAS == entries.Length && |items| == out
      requires forall k :: 0 <= k < out ==> entries[k] == Some(items[k])
      requires forall k :: len <= k < MAX_VMAS ==> entries[k] == None
      modifies entries, this`len
      ensures Dense() && items == old(items)
    {
      for i := out to len
        invariant len == old(len)
        invariant forall k :: 0 <= k < out ==> entries[k] == Some(items[k])
        invariant forall k :: out <= k < i || len <= k < MAX_VMAS ==> entries[k] == None
      {
        entries[i] := None;
      }
      len := out;
    }

    method Find(addr: nat) returns (r: Option<Vma>)
      requires Valid()
      ensures r.None? ==> forall v :: v in items ==> !v.Contains(addr)
      ensures r.Some? ==> r.value in items && r.value.Contains(addr)
      ensures r.Some? ==> forall v :: v in items && v.Contains(addr) ==> v == r.value
    {
      for i := 0 to len
        invariant forall k :: 0 <= k < i ==> !items[k].Contains(addr)
      {
        if entries[i].value.Contains(addr) {
          r := entries[i];
          OneAreaPerAddress(items, i, addr);
          return;
        }
      }
      r := None;
    }

    method FindGap(hint: nat, length: nat, limit: nat) returns (r: Option<nat>)
      requires Valid()
      ensures r.Some? ==> Candidate(hint, r.value) && Free(items, r.value, length, limit)
      ensures r.Some? ==> forall c: nat :: Candidate(hint, c) && c < r.value ==> !Free(items, c, length, limit)
      ensures r.None? ==> forall c: nat :: Candidate(hint, c) ==> !Free(items, c, length, limit)
    {
      var cursor := hint;
      while cursor + length <= limit
        invariant Candidate(hint, cursor)
        invariant forall c: nat :: Candidate(hint, c) && c < cursor ==> !Free(items, c, length, limit)
        decreases limit - cursor
      {
        var overlap := HasOverlap(cursor, cursor + length);
        if !overlap {
          return Some(cursor);
        }
        ghost var tried := cursor;
        cursor := AlignUp(cursor + 1);
        forall c: nat | Candidate(hint, c) && c < cursor ensures !Free(items, c, length, limit) {
          NextCandidate(hint, tried, c);
        }
      }
      r := None;
    }

    method UpdateProt(start: nat, length: nat, prot: set<Prot>) returns (r: VmaResult<()>)
      requires Valid()
      modifies this, entries
      ensures Valid() && |items| == |old(items)|
      ensures r.Err? ==> r.error == NotFound && items == old(items)
      ensures r.Err? ==> forall v :: v in items ==> v.start != start || v.end != start + length
      ensures r.Ok? ==> exists i :: 0 <= i < |items| && old(items)[i].start == start
                                    && old(items)[i].end == start + length
                                    && items == old(items)[i := old(items)[i].(prot := prot)]
    {
      var end := start + length;
      for i := 0 to len
        invariant unchanged(this) && unchanged(entries)
        invariant forall k :: 0 <= k < i ==> items[k].start != start || items[k].end != end
      {
        var vma := entries[i].value;
        if vma.start == start && vma.end == end {
          entries[i] := Some(vma.(prot := prot));
          items := items[i := vma.(prot := prot)];
          return Ok(());
        }
      }
      r := Err(NotFound);
    }
  }

  lemma OneAreaPerAddress(items: seq<Vma>, i: nat, addr: nat)
    requires Disjoint(items) && i < |items| && items[i].Contains(addr)
    ensures forall v :: v in items && v.Contains(addr) ==> v == items[i]
  {
    forall v | v in items && v.Contains(addr)
      ensures v == items[i]
    {
      var j :| 0 <= j < |items| && items[j] == v;
    }
  }
}
