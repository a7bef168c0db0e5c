/** Loading the PT_LOAD segments of an ELF image page by page. */
module ElfLoader {
  import opened Layout
  import opened Arith
  import opened Radix
  import opened Buddy
  import opened FrameBitmaps
  import opened FrameAllocators
  import opened PageTables
  import opened VmSpec

  const PT_LOAD: nat := 1
  const PF_X: nat := 1
  const PF_W: nat := 2
  const PHDR_SIZE: nat := 56

  datatype Phdr = Phdr(kind: nat, flags: nat, offset: nat, vaddr: nat, filesz: nat, memsz: nat)

  // ---------------------------------------------------------------- program headers

  /** A little-endian number of `n` bytes. */
  function NumberAt(data: seq<nat>, off: nat, n: nat): nat
    requires off + n <= |data|
    decreases n, off
  {
    if n == 0 then 0 else data[off] + 256 * NumberAt(data, off + 1, n - 1)
  }

  /** `phdr_at`: None is ParseError::Invalid. */
  function PhdrAt(data: seq<nat>, phoff: nat, phentsize: nat, index: nat): Option<Phdr> {
    var off := phoff + index * phentsize;
    if off + PHDR_SIZE > |data| then None
    else Some(Phdr(NumberAt(data, off, 4), NumberAt(data, off + 4, 4), NumberAt(data, off + 8, 8),
                   NumberAt(data, off + 16, 8), NumberAt(data, off + 32, 8), NumberAt(data, off + 40, 8)))
  }

  // ---------------------------------------------------------------- what a segment means

  /** The pages of a segment: from the page of its first byte to the page boundary behind its last. */
  function SegStart(ph: Phdr, bias: nat): nat { AlignDown(ph.vaddr + bias) }

  function SegEnd(ph: Phdr, bias: nat): nat { AlignUp(ph.vaddr + bias + ph.memsz) }

  /** What 64-bit arithmetic can hold. */
  type Word = n: nat | n < U64

  /** The sums the loader forms over a segment stay below 2^64; nothing in the loader looks. */
  ghost predicate NoOverflow(ph: Phdr, bias: nat) {
    && ph.vaddr + bias + ph.memsz + PAGE_SIZE <= U64 && ph.vaddr + bias + ph.filesz < U64
    && ph.offset + ph.filesz < U64
  }

  /** The byte the generic ABI puts at `a`: the file's bytes, then zeros. */
  function SegmentByte(data: seq<nat>, ph: Phdr, bias: nat, a: nat): nat {
    var base := ph.vaddr + bias;
    if base <= a < base + ph.filesz && ph.offset + (a - base) < |data| then data[ph.offset + (a - base)] else 0
  }

  function CopyLo(ph: Phdr, bias: nat, page: nat): nat { Max(ph.vaddr + bias, page) }

  function CopyHi(ph: Phdr, bias: nat, page: nat): nat { Min(ph.vaddr + bias + ph.filesz, page + PAGE_SIZE) }

  /** The file bytes wanted for this page all exist. */
  predicate ChunkFits(data: seq<nat>, ph: Phdr, bias: nat, page: nat) {
    var lo, hi := CopyLo(ph, bias, page), CopyHi(ph, bias, page);
    lo < hi ==> ph.offset + (lo - (ph.vaddr + bias)) + (hi - lo) <= |data|
  }

  /** What the loader puts at offset `i` of a page: a chunk that runs past the file is dropped as a whole. */
  function LoadedByte(data: seq<nat>, ph: Phdr, bias: nat, page: nat, i: nat): nat {
    if ChunkFits(data, ph, bias, page) then SegmentByte(data, ph, bias, page + i) else 0
  }

  function PageBytes(data: seq<nat>, ph: Phdr, bias: nat, page: nat): (bytes: seq<nat>)
    ensures |bytes| == PAGE_SIZE
  {
    seq(PAGE_SIZE, (i: nat) requires i < PAGE_SIZE => LoadedByte(data, ph, bias, page, i))
  }

  /** A segment whose file range is inside the file has no dropped chunk. */
  lemma WholeFileFits(data: seq<nat>, ph: Phdr, bias: nat, page: nat)
    requires ph.offset + ph.filesz <= |data|
    ensures ChunkFits(data, ph, bias, page)
  {
  }

  /** A byte is loaded as the generic ABI says exactly when its page's chunk is not dropped, or the byte is zero
    * anyway. */
  lemma ByteLoadedExactlyWhen(data: seq<nat>, ph: Phdr, bias: nat, page: nat, i: nat)
    requires i < PAGE_SIZE
    ensures PageBytes(data, ph, bias, page)[i] == SegmentByte(data, ph, bias, page + i)
       <==> ChunkFits(data, ph, bias, page) || SegmentByte(data, ph, bias, page + i) == 0
  {
  }

  /** The file holds 5 of the 10 bytes of a segment: the page loads as zeros, not as the 5 bytes. */
  lemma TruncatedFileExample()
    ensures var data, ph := [7, 7, 7, 7, 7], Phdr(PT_LOAD, 0, 0, 0x1000, 10, 10);
            SegmentByte(data, ph, 0, 0x1000) == 7 && PageBytes(data, ph, 0, 0x1000)[0] == 0
  {
    var data, ph := [7, 7, 7, 7, 7], Phdr(PT_LOAD, 0, 0, 0x1000, 10, 10);
    assert CopyLo(ph, 0, 0x1000) == 0x1000 && CopyHi(ph, 0, 0x1000) == 0x100A;
    assert !ChunkFits(data, ph, 0, 0x1000);
  }

  /** The flags of a segment's pages. */
  function SegmentFlags(pflags: nat): (flags: set<Flag>)
    ensures Present in flags && User in flags && Cow !in flags && SoftwareDemand !in flags
    ensures Writable in flags <==> pflags / PF_W % 2 == 1
    ensures NoExecute in flags <==> pflags / PF_X % 2 == 0
  {
    {Present, User}
    + (if pflags / PF_W % 2 == 1 then {Writable} else {}) + (if pflags / PF_X % 2 == 0 then {NoExecute} else {})
  }

  // ---------------------------------------------------------------- loaded pages on values

  type Pages = map<nat, seq<nat>>

  /** The page-table key of page `k`. */
  function PageKey(k: nat): nat { Key(k * PAGE_SIZE) }

  /** Present pages are backed by whole pages of bytes. */
  ghost predicate HasBytes(flat: map<nat, Pte>, pages: Pages) {
    forall k: nat :: IsPresent(flat, k) ==> flat[k].frame in pages && |pages[flat[k].frame]| == PAGE_SIZE
  }

  ghost predicate PageIs(flat: map<nat, Pte>, pages: Pages, key: nat, bytes: seq<nat>, flags: set<Flag>) {
    IsPresent(flat, key) && flat[key].frame in pages && pages[flat[key].frame] == bytes && flat[key].flags == flags
  }

  /** Page `k` is loaded as the segment wants it. */
  ghost predicate PageLoaded(flat: map<nat, Pte>, pages: Pages, data: seq<nat>, ph: Phdr, bias: nat, k: nat) {
    PageIs(flat, pages, PageKey(k), PageBytes(data, ph, bias, k * PAGE_SIZE), SegmentFlags(ph.flags))
  }

  ghost predicate Loaded(flat: map<nat, Pte>, pages: Pages, data: seq<nat>, ph: Phdr, bias: nat, lo: nat, hi: nat) {
    forall k: nat :: lo <= k < hi ==> PageLoaded(flat, pages, data, ph, bias, k)
  }

  ghost predicate NonePresentIn(flat: map<nat, Pte>, lo: nat, hi: nat) {
    forall k: nat :: lo <= k < hi ==> !IsPresent(flat, PageKey(k))
  }

  /** Present pages keep their frame, flags and contents. */
  ghost predicate Kept(flat: map<nat, Pte>, pages: Pages, flat': map<nat, Pte>, pages': Pages) {
    forall k: nat :: IsPresent(flat, k) ==>
      IsPresent(flat', k) && flat'[k] == flat[k]
      && flat[k].frame in pages && flat[k].frame in pages' && pages'[flat[k].frame] == pages[flat[k].frame]
  }

  /** The bytes a program reads: page table, then frame. */
  ghost predicate Reads(flat: map<nat, Pte>, pages: Pages, a: nat, b: nat) {
    IsPresent(flat, Key(a)) && flat[Key(a)].frame in pages
    && var page := pages[flat[Key(a)].frame]; |page| == PAGE_SIZE && page[a % PAGE_SIZE] == b
  }

  /** The page `k` is new: no present page had its number or its frame. */
  lemma AddPage(flat: map<nat, Pte>, pages: Pages, k: nat, frame: nat, bytes: seq<nat>, flags: set<Flag>,
                free: set<nat>, tables: set<nat>)
    requires FramesOk(flat, free, tables) && HasBytes(flat, pages)
    requires !IsPresent(flat, k) && frame !in free && frame !in tables && |bytes| == PAGE_SIZE
    requires forall j: nat :: IsPresent(flat, j) ==> flat[j].frame != frame
    requires Present in flags && Cow !in flags && SoftwareDemand !in flags
    ensures var flat', pages' := flat[k := Pte(frame, flags)], pages[frame := bytes];
            && FramesOk(flat', free, tables) && HasBytes(flat', pages') && Kept(flat, pages, flat', pages')
            && PageIs(flat', pages', k, bytes, flags)
  {
    var flat', pages' := flat[k := Pte(frame, flags)], pages[frame := bytes];
    forall j: nat | j != k ensures IsPresent(flat', j) == IsPresent(flat, j) {}
  }

  /** Bytes written to an unmapped frame change nothing that is mapped. */
  lemma UnmappedBytes(flat: map<nat, Pte>, pages: Pages, frame: nat, bytes: seq<nat>)
    requires HasBytes(flat, pages) && forall j: nat :: IsPresent(flat, j) ==> flat[j].frame != frame
    ensures HasBytes(flat, pages[frame := bytes]) && Kept(flat, pages, flat, pages[frame := bytes])
  {
  }

  lemma KeptSame(flat: map<nat, Pte>, pages: Pages)
    requires HasBytes(flat, pages)
    ensures Kept(flat, pages, flat, pages)
  {
  }

  lemma FrameTaken(flat: map<nat, Pte>, free: set<nat>, tables: set<nat>, frame: nat)
    requires FramesOk(flat, free, tables) && frame in free && tables !! free
    ensures FramesOk(flat, free - {frame}, tables) && frame !in tables
    ensures forall j: nat :: IsPresent(flat, j) ==> flat[j].frame != frame
  {
  }

  /** A frame is taken and filled, and tables are made of other free frames: what is mapped stays in order. */
  lemma FilledPage(flat: map<nat, Pte>, pages: Pages, free: set<nat>, tables: set<nat>, frame: nat, bytes: seq<nat>,
                   free': set<nat>, tables': set<nat>)
    requires FramesOk(flat, free, tables) && HasBytes(flat, pages) && frame in free && tables !! free
    requires Grew(tables, free - {frame}, tables', free', 3)
    ensures FramesOk(flat, free', tables') && HasBytes(flat, pages[frame := bytes])
            && Kept(flat, pages, flat, pages[frame := bytes])
  {
    FrameTaken(flat, free, tables, frame);
    UnmappedBytes(flat, pages, frame, bytes);
    TablesGrow(flat, free - {frame}, tables, free', tables', 3);
  }

  /** And the frame is mapped. */
  lemma MappedPage(flat: map<nat, Pte>, pages: Pages, free: set<nat>, tables: set<nat>, frame: nat, bytes: seq<nat>,
                   free': set<nat>, tables': set<nat>, k: nat, flags: set<Flag>)
    requires FramesOk(flat, free, tables) && HasBytes(flat, pages) && frame in free && tables !! free
    requires Grew(tables, free - {frame}, tables', free', 3) && |bytes| == PAGE_SIZE
    requires !IsPresent(flat, k) && Present in flags && Cow !in flags && SoftwareDemand !in flags
    ensures var flat', pages' := flat[k := Pte(frame, flags)], pages[frame := bytes];
            && FramesOk(flat', free', tables') && HasBytes(flat', pages') && Kept(flat, pages, flat', pages')
            && PageIs(flat', pages', k, bytes, flags) && flat' - {k} == flat - {k}
  {
    FrameTaken(flat, free, tables, frame);
    TablesGrow(flat, free - {frame}, tables, free', tables', 3);
    assert frame !in free' && frame !in tables';
    hide FramesOk, HasBytes, Kept, PageIs, Grew, IsPresent;
    AddPage(flat, pages, k, frame, bytes, flags, free', tables');
  }

  lemma LoadedKept(flat: map<nat, Pte>, pages: Pages, flat': map<nat, Pte>, pages': Pages, data: seq<nat>, ph: Phdr,
                   bias: nat, lo: nat, hi: nat)
    requires Loaded(flat, pages, data, ph, bias, lo, hi) && Kept(flat, pages, flat', pages')
    ensures Loaded(flat', pages', data, ph, bias, lo, hi)
  {
    forall k: nat | lo <= k < hi ensures PageLoaded(flat', pages', data, ph, bias, k) {
      hide PageBytes, SegmentFlags, PageKey;
      assert PageLoaded(flat, pages, data, ph, bias, k);
    }
  }

  lemma KeptTrans(flat: map<nat, Pte>, pages: Pages, flat1: map<nat, Pte>, pages1: Pages, flat2: map<nat, Pte>,
                  pages2: Pages)
    requires Kept(flat, pages, flat1, pages1) && Kept(flat1, pages1, flat2, pages2)
    ensures Kept(flat, pages, flat2, pages2)
  {
    forall k: nat | IsPresent(flat, k)
      ensures IsPresent(flat2, k) && flat2[k] == flat[k] && flat[k].frame in pages && flat[k].frame in pages2
              && pages2[flat[k].frame] == pages[flat[k].frame]
    {
      assert IsPresent(flat1, k) && flat1[k] == flat[k];
    }
  }

  /** One more page of a segment. */
  lemma LoadedNext(flat0: map<nat, Pte>, flat: map<nat, Pte>, pages: Pages, flat': map<nat, Pte>, pages': Pages,
                   data: seq<nat>, ph: Phdr, bias: nat, lo: nat, k: nat)
    requires Loaded(flat, pages, data, ph, bias, lo, k) && Kept(flat, pages, flat', pages')
             && PageLoaded(flat', pages', data, ph, bias, k)
    requires NonePresentIn(flat0, lo, k) && !IsPresent(flat0, PageKey(k))
    ensures Loaded(flat', pages', data, ph, bias, lo, k + 1) && NonePresentIn(flat0, lo, k + 1)
  {
    hide PageLoaded, Kept, PageKey;
    LoadedKept(flat, pages, flat', pages', data, ph, bias, lo, k);
  }

  lemma OnlyWiden(flat: map<nat, Pte>, flat': map<nat, Pte>, lo: nat, k: nat, hi: nat)
    requires OnlyPages(flat, flat', lo, k) && k <= hi
    ensures OnlyPages(flat, flat', lo, hi)
  {
    forall key: nat | IsPresent(flat', key) ensures IsPresent(flat, key) || InPages(key, lo, hi) {
      assert IsPresent(flat, key) || InPages(key, lo, k);
    }
  }

  lemma LoadedNone(flat: map<nat, Pte>, pages: Pages, data: seq<nat>, ph: Phdr, bias: nat, lo: nat)
    ensures Loaded(flat, pages, data, ph, bias, lo, lo) && NonePresentIn(flat, lo, lo)
  {
  }

  /** A page absent now was absent before. */
  lemma AbsentBefore(flat: map<nat, Pte>, pages: Pages, flat': map<nat, Pte>, pages': Pages, key: nat)
    requires Kept(flat, pages, flat', pages') && !IsPresent(flat', key)
    ensures !IsPresent(flat, key)
  {
  }

  ghost predicate InPages(key: nat, lo: nat, hi: nat) {
    exists k: nat :: lo <= k < hi && PageKey(k) == key
  }

  /** Only pages of the range became present. */
  ghost predicate OnlyPages(flat: map<nat, Pte>, flat': map<nat, Pte>, lo: nat, hi: nat) {
    forall key: nat :: IsPresent(flat', key) ==> IsPresent(flat, key) || InPages(key, lo, hi)
  }

  /** Page `k` cannot be loaded: it was present before, or an earlier page of the range has its key. */
  ghost predicate Blocks(flat: map<nat, Pte>, lo: nat, k: nat) {
    IsPresent(flat, PageKey(k)) || InPages(PageKey(k), lo, k)
  }

  ghost predicate Blocked(flat: map<nat, Pte>, lo: nat, hi: nat) {
    exists k: nat :: lo <= k < hi && Blocks(flat, lo, k)
  }

  lemma OnlyNext(flat: map<nat, Pte>, flat1: map<nat, Pte>, flat2: map<nat, Pte>, lo: nat, k: nat)
    requires OnlyPages(flat, flat1, lo, k) && lo <= k
    requires flat2 - {PageKey(k)} == flat1 - {PageKey(k)}
    ensures OnlyPages(flat, flat2, lo, k + 1)
  {
    hide PageKey;
    forall key: nat | IsPresent(flat2, key) ensures IsPresent(flat, key) || InPages(key, lo, k + 1) {
      if key != PageKey(k) {
        assert flat2[key] == (flat2 - {PageKey(k)})[key] && key in flat1 - {PageKey(k)};
        assert IsPresent(flat1, key);
      }
    }
  }

  // ---------------------------------------------------------------- what a loaded image means

  /** Header `i` of the image, where it is a PT_LOAD. */
  ghost predicate LoadHeader(data: seq<nat>, phoff: nat, phentsize: nat, i: nat) {
    PhdrAt(data, phoff, phentsize, i).Some? && PhdrAt(data, phoff, phentsize, i).value.kind == PT_LOAD
  }

  function FirstPage(ph: Phdr, bias: nat): nat { SegStart(ph, bias) / PAGE_SIZE }

  function LastPage(ph: Phdr, bias: nat): nat { SegEnd(ph, bias) / PAGE_SIZE }

  /** No PT_LOAD segment runs past 2^64. */
  ghost predicate NoneOverflows(data: seq<nat>, phoff: nat, phentsize: nat, bias: nat, n: nat) {
    forall i: nat :: i < n && LoadHeader(data, phoff, phentsize, i) ==>
      NoOverflow(PhdrAt(data, phoff, phentsize, i).value, bias)
  }

  /** The page belongs to the PT_LOAD segment of header `i`. */
  ghost predicate InSegment(key: nat, data: seq<nat>, phoff: nat, phentsize: nat, bias: nat, i: nat) {
    && LoadHeader(data, phoff, phentsize, i)
    && var ph := PhdrAt(data, phoff, phentsize, i).value;
    InPages(key, FirstPage(ph, bias), LastPage(ph, bias))
  }

  /** A page present after the first `n` headers was present before or is in one of their segments. */
  ghost predicate PresentFrom(flat: map<nat, Pte>, flat': map<nat, Pte>, data: seq<nat>, phoff: nat, phentsize: nat,
                              bias: nat, n: nat) {
    forall key :: IsPresent(flat', key) ==> WasTaken(flat, key, data, phoff, phentsize, bias, n)
  }

  ghost predicate WasTaken(flat: map<nat, Pte>, key: nat, data: seq<nat>, phoff: nat, phentsize: nat, bias: nat,
                           n: nat) {
    IsPresent(flat, key) || exists j: nat :: j < n && InSegment(key, data, phoff, phentsize, bias, j)
  }

  /** Two addresses of the range, 2^48 or more apart, have the same page table entry. */
  ghost predicate Wraps(key: nat, lo: nat, hi: nat) {
    exists k: nat :: lo <= k < hi && PageKey(k) == key && InPages(PageKey(k), lo, k)
  }

  /** A page of segment `i` was mapped before the load, belongs to an earlier segment, or comes up twice in its own. */
  ghost predicate Collides(flat: map<nat, Pte>, key: nat, data: seq<nat>, phoff: nat, phentsize: nat, bias: nat,
                           i: nat) {
    && InSegment(key, data, phoff, phentsize, bias, i)
    && var ph := PhdrAt(data, phoff, phentsize, i).value;
    WasTaken(flat, key, data, phoff, phentsize, bias, i) || Wraps(key, FirstPage(ph, bias), LastPage(ph, bias))
  }

  lemma PresentNext(flat: map<nat, Pte>, flat1: map<nat, Pte>, flat2: map<nat, Pte>, data: seq<nat>, phoff: nat,
                    phentsize: nat, bias: nat, n: nat)
    requires PresentFrom(flat, flat1, data, phoff, phentsize, bias, n) && LoadHeader(data, phoff, phentsize, n)
    requires var ph := PhdrAt(data, phoff, phentsize, n).value;
               OnlyPages(flat1, flat2, FirstPage(ph, bias), LastPage(ph, bias))
    ensures PresentFrom(flat, flat2, data, phoff, phentsize, bias, n + 1)
  {
    hide PhdrAt, FirstPage, LastPage, InPages;
    forall key | IsPresent(flat2, key) ensures WasTaken(flat, key, data, phoff, phentsize, bias, n + 1) {
      if InSegment(key, data, phoff, phentsize, bias, n) {
      } else {
        assert IsPresent(flat1, key);
        assert WasTaken(flat, key, data, phoff, phentsize, bias, n);
      }
    }
  }

  lemma PresentSame(flat: map<nat, Pte>, flat1: map<nat, Pte>, data: seq<nat>, phoff: nat, phentsize: nat, bias: nat,
                    n: nat)
    requires PresentFrom(flat, flat1, data, phoff, phentsize, bias, n)
    ensures PresentFrom(flat, flat1, data, phoff, phentsize, bias, n + 1)
  {
    hide InSegment;
    forall key | IsPresent(flat1, key) ensures WasTaken(flat, key, data, phoff, phentsize, bias, n + 1) {
      assert WasTaken(flat, key, data, phoff, phentsize, bias, n);
    }
  }

  lemma BlockedCollides(flat: map<nat, Pte>, flat1: map<nat, Pte>, data: seq<nat>, phoff: nat, phentsize: nat,
                        bias: nat, i: nat)
    returns (key: nat)
    requires PresentFrom(flat, flat1, data, phoff, phentsize, bias, i) && LoadHeader(data, phoff, phentsize, i)
    requires var ph := PhdrAt(data, phoff, phentsize, i).value; Blocked(flat1, FirstPage(ph, bias), LastPage(ph, bias))
    ensures Collides(flat, key, data, phoff, phentsize, bias, i)
  {
    hide PhdrAt, FirstPage, LastPage, PageKey;
    var ph := PhdrAt(data, phoff, phentsize, i).value;
    var lo, hi := FirstPage(ph, bias), LastPage(ph, bias);
    var k: nat :| lo <= k < hi && Blocks(flat1, lo, k);
    key := PageKey(k);
    assert InPages(key, lo, hi);
    assert IsPresent(flat1, key) ==> WasTaken(flat, key, data, phoff, phentsize, bias, i);
  }

  /** Header `i` is readable and, if it is a PT_LOAD, its segment is loaded. */
  ghost predicate HeaderLoaded(flat: map<nat, Pte>, pages: Pages, data: seq<nat>, phoff: nat, phentsize: nat, bias: nat,
                               i: nat) {
    var ph := PhdrAt(data, phoff, phentsize, i);
    ph.Some? && (ph.value.kind == PT_LOAD ==>
                 Loaded(flat, pages, data, ph.value, bias, FirstPage(ph.value, bias), LastPage(ph.value, bias)))
  }

  ghost predicate HeadersLoaded(flat: map<nat, Pte>, pages: Pages, data: seq<nat>, phoff: nat, phentsize: nat,
                                bias: nat, n: nat) {
    forall i: nat :: i < n ==> HeaderLoaded(flat, pages, data, phoff, phentsize, bias, i)
  }

  /** No page belongs to two segments. */
  ghost predicate Apart(a: Phdr, b: Phdr, bias: nat) {
    LastPage(a, bias) <= FirstPage(a, bias) || LastPage(b, bias) <= FirstPage(b, bias)
    || LastPage(a, bias) <= FirstPage(b, bias) || LastPage(b, bias) <= FirstPage(a, bias)
  }

  ghost predicate SegmentsApart(data: seq<nat>, phoff: nat, phentsize: nat, bias: nat, n: nat) {
    forall i: nat, j: nat ::
      i < j < n && LoadHeader(data, phoff, phentsize, i) && LoadHeader(data, phoff, phentsize, j) ==>
      Apart(PhdrAt(data, phoff, phentsize, i).value, PhdrAt(data, phoff, phentsize, j).value, bias)
  }

  lemma HeadersKept(flat: map<nat, Pte>, pages: Pages, flat': map<nat, Pte>, pages': Pages, data: seq<nat>, phoff: nat,
                    phentsize: nat, bias: nat, n: nat)
    requires HeadersLoaded(flat, pages, data, phoff, phentsize, bias, n) && Kept(flat, pages, flat', pages')
    ensures HeadersLoaded(flat', pages', data, phoff, phentsize, bias, n)
  {
    hide PhdrAt, Loaded, Kept, FirstPage, LastPage;
    forall i: nat | i < n ensures HeaderLoaded(flat', pages', data, phoff, phentsize, bias, i) {
      assert HeaderLoaded(flat, pages, data, phoff, phentsize, bias, i);
      var ph := PhdrAt(data, phoff, phentsize, i).value;
      if ph.kind == PT_LOAD {
        LoadedKept(flat, pages, flat', pages', data, ph, bias, FirstPage(ph, bias), LastPage(ph, bias));
      }
    }
  }

  /** A segment that loads onto absent pages shares no page with one already loaded. */
  lemma LoadedIsApart(flat: map<nat, Pte>, pages: Pages, data: seq<nat>, a: Phdr, b: Phdr, bias: nat)
    requires Loaded(flat, pages, data, a, bias, FirstPage(a, bias), LastPage(a, bias))
    requires NonePresentIn(flat, FirstPage(b, bias), LastPage(b, bias))
    ensures Apart(a, b, bias)
  {
    hide FirstPage, LastPage, PageKey, PageBytes, SegmentFlags;
    var k := Max(FirstPage(a, bias), FirstPage(b, bias));
    assert FirstPage(a, bias) <= k < LastPage(a, bias) ==> PageLoaded(flat, pages, data, a, bias, k);
    assert FirstPage(b, bias) <= k < LastPage(b, bias) ==> !IsPresent(flat, PageKey(k));
  }

  lemma ApartNext(flat: map<nat, Pte>, pages: Pages, data: seq<nat>, phoff: nat, phentsize: nat, bias: nat, n: nat)
    requires HeadersLoaded(flat, pages, data, phoff, phentsize, bias, n)
             && SegmentsApart(data, phoff, phentsize, bias, n)
    requires LoadHeader(data, phoff, phentsize, n) ==>
               var b := PhdrAt(data, phoff, phentsize, n).value;
                 NonePresentIn(flat, FirstPage(b, bias), LastPage(b, bias))
    ensures SegmentsApart(data, phoff, phentsize, bias, n + 1)
  {
    hide PhdrAt, Loaded, FirstPage, LastPage, Apart, NonePresentIn;
    forall i: nat, j: nat |
      i < j < n + 1 && LoadHeader(data, phoff, phentsize, i) && LoadHeader(data, phoff, phentsize, j)
      ensures Apart(PhdrAt(data, phoff, phentsize, i).value, PhdrAt(data, phoff, phentsize, j).value, bias)
    {
      if j == n {
        assert HeaderLoaded(flat, pages, data, phoff, phentsize, bias, i);
        LoadedIsApart(flat, pages, data, PhdrAt(data, phoff, phentsize, i).value,
                      PhdrAt(data, phoff, phentsize, j).value, bias);
      }
    }
  }

  lemma NoHeaders(flat: map<nat, Pte>, pages: Pages, data: seq<nat>, phoff: nat, phentsize: nat, bias: nat)
    ensures HeadersLoaded(flat, pages, data, phoff, phentsize, bias, 0)
            && SegmentsApart(data, phoff, phentsize, bias, 0)
  {
  }

  lemma HeadersNext(flat: map<nat, Pte>, pages: Pages, data: seq<nat>, phoff: nat, phentsize: nat, bias: nat, n: nat)
    requires HeadersLoaded(flat, pages, data, phoff, phentsize, bias, n)
             && HeaderLoaded(flat, pages, data, phoff, phentsize, bias, n)
    ensures HeadersLoaded(flat, pages, data, phoff, phentsize, bias, n + 1)
  {
  }

  /** The key of an address depends on its page only. */
  lemma KeyOfAddress(a: nat)
    ensures Key(a) == PageKey(a / PAGE_SIZE) && a == a / PAGE_SIZE * PAGE_SIZE + a % PAGE_SIZE
  {
  }

  lemma AddressInPages(start: nat, end: nat, a: nat)
    requires Aligned(start) && Aligned(end) && start <= a < end
    ensures start / PAGE_SIZE <= a / PAGE_SIZE < end / PAGE_SIZE
  {
  }

  /** The main result on bytes: in a loaded image each address of a segment reads as the generic ABI says. */
  lemma ImageBytes(flat: map<nat, Pte>, pages: Pages, data: seq<nat>, phoff: nat, phentsize: nat, bias: nat, n: nat,
                   i: nat, a: nat)
    requires HeadersLoaded(flat, pages, data, phoff, phentsize, bias, n) && i < n
             && LoadHeader(data, phoff, phentsize, i)
    requires var ph := PhdrAt(data, phoff, phentsize, i).value;
             SegStart(ph, bias) <= a < SegEnd(ph, bias) && ph.offset + ph.filesz <= |data|
    ensures Reads(flat, pages, a, SegmentByte(data, PhdrAt(data, phoff, phentsize, i).value, bias, a))
  {
    hide PhdrAt, Key, PageKey;
    var ph := PhdrAt(data, phoff, phentsize, i).value;
    assert HeaderLoaded(flat, pages, data, phoff, phentsize, bias, i);
    KeyOfAddress(a);
    AddressInPages(SegStart(ph, bias), SegEnd(ph, bias), a);
    assert PageLoaded(flat, pages, data, ph, bias, a / PAGE_SIZE);
    WholeFileFits(data, ph, bias, a / PAGE_SIZE * PAGE_SIZE);
    ByteLoadedExactlyWhen(data, ph, bias, a / PAGE_SIZE * PAGE_SIZE, a % PAGE_SIZE);
  }

  // ---------------------------------------------------------------- the loader

  datatype ElfError = Malformed | MapFailed

  /** A page of zeros with the page's part of the file copied in. */
  method FillPage(data: seq<nat>, ph: Phdr, bias: nat, page: nat) returns (bytes: seq<nat>)
    ensures bytes == PageBytes(data, ph, bias, page)
  {
    bytes := seq(PAGE_SIZE, _ => 0);
    var base := ph.vaddr + bias;
    var copyLo := Max(base, page);
    var copyHi := Min(base + ph.filesz, page + PAGE_SIZE);
    if copyLo < copyHi {
      var dstOff := copyLo - page;
      var srcOff := ph.offset + (copyLo - base);
      var len := copyHi - copyLo;
      if srcOff + len <= |data| {
        bytes := bytes[..dstOff] + data[srcOff..srcOff + len] + bytes[dstOff + len..];
      }
    }
    assert |bytes| == PAGE_SIZE;
    forall i: nat | i < PAGE_SIZE ensures bytes[i] == LoadedByte(data, ph, bias, page, i) {}
  }

  class Loader {
    const table: PageTable
    const node: nat
    /** The bytes of each frame that was ever filled. */
    var pages: Pages

    ghost predicate Valid()
      reads this, table, table.phys, table.phys.bitmap, table.phys.bitmap.words, table.phys.buddy
    {
      && table.Valid()
      && FramesOk(table.flat, table.phys.Free(), table.tables.Keys) && HasBytes(table.flat, pages)
    }

    /** An address space with nothing mapped. */
    constructor (table: PageTable, node: nat)
      requires table.Valid() && table.flat == map[]
      ensures Valid() && this.table == table && this.node == node
    {
      this.table := table;
      this.node := node;
      pages := map[];
    }

    /** The body of the segment loop: allocate, fill, map. */
    method LoadPage(data: seq<nat>, ph: Phdr, bias: nat, page: nat) returns (ok: bool)
      requires Valid()
      modifies this, table.Repr()
      ensures Valid() && Kept(old(table.flat), old(pages), table.flat, pages)
      ensures ok ==> !IsPresent(old(table.flat), Key(page))
                     && PageIs(table.flat, pages, Key(page), PageBytes(data, ph, bias, page), SegmentFlags(ph.flags))
      ensures table.flat - {Key(page)} == old(table.flat) - {Key(page)}
      ensures !ok ==> table.flat == old(table.flat) && (table.phys.Free() == {} || IsPresent(table.flat, Key(page)))
    {
      hide FramesOk, HasBytes, Kept, PageBytes, Key, Grew, IsPresent, FrameAllocator.Free;
      hide IsTree, Flattens, BuddyAllocator.Valid, BuddyAllocator.Contents, FrameBitmap.Used;
      var flags := SegmentFlags(ph.flags);
      assert Present in flags && Cow !in flags && SoftwareDemand !in flags;
      hide SegmentFlags, PageIs;
      ghost var flat, pages0 := table.flat, pages;
      ghost var free, tables := table.phys.Free(), table.tables.Keys;
      var frame := TakeFrame();
      if frame.None? {
        KeptSame(flat, pages0);
        return false;
      }
      var bytes := FillPage(data, ph, bias, page);
      pages := pages[frame.value := bytes];
      ok := MapFrame(page, frame.value, flags);
      FilledPage(flat, pages0, free, tables, frame.value, bytes, table.phys.Free(), table.tables.Keys);
      if ok {
        MappedPage(flat, pages0, free, tables, frame.value, bytes, table.phys.Free(), table.tables.Keys, Key(page),
                   flags);
      }
    }

    method TakeFrame() returns (r: Option<nat>)
      requires table.Valid()
      modifies table.phys.Repr()
      ensures table.Valid() && table.flat == old(table.flat) && table.tables == old(table.tables)
      ensures r.None? ==> old(table.phys.Free()) == {} && table.phys.Free() == {}
      ensures r.Some? ==> r.value in old(table.phys.Free()) && table.phys.Free() == old(table.phys.Free()) - {r.value}
    {
      hide IsTree, Flattens, BuddyAllocator.Valid, BuddyAllocator.Contents, FrameBitmap.Used;
      r := table.phys.AllocOne(node);
    }

    method MapFrame(va: nat, frame: nat, flags: set<Flag>) returns (ok: bool)
      requires table.Valid() && Present in flags
      modifies table.Repr()
      ensures table.Valid()
      ensures Grew(old(table.tables.Keys), old(table.phys.Free()), table.tables.Keys, table.phys.Free(), 3)
      ensures table.flat == if ok then old(table.flat)[Key(va) := Pte(frame, flags)] else old(table.flat)
      ensures ok ==> !IsPresent(old(table.flat), Key(va))
      ensures !ok ==> table.phys.Free() == {} || IsPresent(table.flat, Key(va))
    {
      hide IsTree, Flattens, FrameAllocator.Free, Grew, Key;
      hide BuddyAllocator.Valid, BuddyAllocator.Contents, FrameBitmap.Used;
      PutPresent(table.flat, Key(va), frame, flags);
      hide Put;
      ghost var free, tables := table.phys.Free(), table.tables.Keys;
      var r := table.MapPage(va, frame, flags);
      GrewAtMost(tables, free, table.tables.Keys, table.phys.Free(), if r == Err(NoMemory) then 2 else 3, 3);
      ok := r.Ok?;
      if !ok {
        assert r.error == AlreadyMapped || r.error == NoMemory;
      }
    }

    /** `map_segment`: load a segment page by page; the frames of a failed load stay taken. */
    method MapSegment(data: seq<nat>, ph: Phdr, bias: nat) returns (ok: bool)
      requires Valid() && NoOverflow(ph, bias)
      modifies this, table.Repr()
      ensures Valid() && Kept(old(table.flat), old(pages), table.flat, pages)
      ensures ok ==> NonePresentIn(old(table.flat), FirstPage(ph, bias), LastPage(ph, bias))
                     && Loaded(table.flat, pages, data, ph, bias, FirstPage(ph, bias), LastPage(ph, bias))
      ensures OnlyPages(old(table.flat), table.flat, FirstPage(ph, bias), LastPage(ph, bias))
      ensures !ok ==> table.phys.Free() == {} || Blocked(old(table.flat), FirstPage(ph, bias), LastPage(ph, bias))
    {
      hide IsTree, Flattens, FramesOk, HasBytes, Kept, PageBytes, Key, PageIs, Loaded, NonePresentIn, SegmentFlags;
      hide InPages;
      hide BuddyAllocator.Valid, BuddyAllocator.Contents, FrameBitmap.Used;
      ghost var flat, pages0, lo, hi := table.flat, pages, FirstPage(ph, bias), LastPage(ph, bias);
      var vaddr: Word := SegStart(ph, bias);
      var segEnd: Word := SegEnd(ph, bias);
      ghost var k: nat := lo;
      assert vaddr == k * PAGE_SIZE && segEnd == hi * PAGE_SIZE && lo <= hi;
      hide FirstPage, LastPage, SegStart, SegEnd;
      KeptSame(flat, pages0);
      LoadedNone(flat, pages, data, ph, bias, lo);
      while vaddr < segEnd
        invariant Valid() && Kept(flat, pages0, table.flat, pages)
        invariant vaddr == k * PAGE_SIZE && lo <= k <= hi && OnlyPages(flat, table.flat, lo, k)
        invariant Loaded(table.flat, pages, data, ph, bias, lo, k) && NonePresentIn(flat, lo, k)
      {
        ghost var flat1, pages1 := table.flat, pages;
        ok := LoadPage(data, ph, bias, vaddr);
        KeptTrans(flat, pages0, flat1, pages1, table.flat, pages);
        OnlyNext(flat, flat1, table.flat, lo, k);
        OnlyWiden(flat, table.flat, lo, k + 1, hi);
        if !ok {
          assert table.phys.Free() == {} || Blocks(flat, lo, k);
          return;
        }
        AbsentBefore(flat, pages0, flat1, pages1, PageKey(k));
        LoadedNext(flat, flat1, pages1, table.flat, pages, data, ph, bias, lo, k);
        vaddr := vaddr + PAGE_SIZE;
        k := k + 1;
      }
      ok := true;
    }

    /** The segment loop of `map_image`: every PT_LOAD header in turn. */
    method MapSegments(data: seq<nat>, phoff: nat, phentsize: nat, phnum: nat, bias: nat) returns (r: Option<ElfError>)
      requires Valid() && NoneOverflows(data, phoff, phentsize, bias, phnum)
      modifies this, table.Repr()
      ensures Valid() && Kept(old(table.flat), old(pages), table.flat, pages)
      ensures r.None? ==> HeadersLoaded(table.flat, pages, data, phoff, phentsize, bias, phnum)
                          && SegmentsApart(data, phoff, phentsize, bias, phnum)
      ensures r.None? ==> PresentFrom(old(table.flat), table.flat, data, phoff, phentsize, bias, phnum)
      ensures r == Some(Malformed) ==> exists i: nat :: i < phnum && PhdrAt(data, phoff, phentsize, i).None?
      ensures r == Some(MapFailed) ==>
                table.phys.Free() == {}
                || exists i: nat, key :: i < phnum && Collides(old(table.flat), key, data, phoff, phentsize, bias, i)
    {
      hide IsTree, Flattens, FramesOk, HasBytes, Kept, Loaded, NonePresentIn, Blocked, HeadersLoaded, SegmentsApart;
      hide PhdrAt, FirstPage, LastPage;
      hide Collides, OnlyPages, NoOverflow;
      hide BuddyAllocator.Valid, BuddyAllocator.Contents, FrameBitmap.Used;
      ghost var flat, pages0 := table.flat, pages;
      KeptSame(flat, pages0);
      NoHeaders(flat, pages, data, phoff, phentsize, bias);
      for i := 0 to phnum
        invariant Valid() && Kept(flat, pages0, table.flat, pages)
        invariant PresentFrom(flat, table.flat, data, phoff, phentsize, bias, i)
        invariant HeadersLoaded(table.flat, pages, data, phoff, phentsize, bias, i)
                  && SegmentsApart(data, phoff, phentsize, bias, i)
      {
        ghost var flat1, pages1 := table.flat, pages;
        var ph := PhdrAt(data, phoff, phentsize, i);
        if ph.None? {
          return Some(Malformed);
        }
        if ph.value.kind == PT_LOAD {
          var ok := MapSegment(data, ph.value, bias);
          KeptTrans(flat, pages0, flat1, pages1, table.flat, pages);
          if !ok {
            if table.phys.Free() != {} {
              ghost var key := BlockedCollides(flat, flat1, data, phoff, phentsize, bias, i);
            }
            return Some(MapFailed);
          }
          PresentNext(flat, flat1, table.flat, data, phoff, phentsize, bias, i);
          HeadersKept(flat1, pages1, table.flat, pages, data, phoff, phentsize, bias, i);
        } else {
          PresentSame(flat, table.flat, data, phoff, phentsize, bias, i);
        }
        ApartNext(flat1, pages1, data, phoff, phentsize, bias, i);
        HeadersNext(table.flat, pages, data, phoff, phentsize, bias, i);
      }
      r := None;
    }
  }
}
