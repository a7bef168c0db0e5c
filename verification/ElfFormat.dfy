/** The layout of an ELF64 program header (System V gABI, chapter 5), and loading from encoded headers. */
module ElfFormat {
  import opened Layout
  import opened Arith
  import opened Radix
  import opened VmSpec
  import opened ElfLoader

  /** All fields of an Elf64_Phdr; the loader has no use for the physical address and the alignment. */
  datatype ElfPhdr = ElfPhdr(kind: nat, flags: nat, offset: nat, vaddr: nat, paddr: nat, filesz: nat, memsz: nat,
                             align: nat)

  const U32: nat := 0x1_0000_0000

  ghost predicate InRange(h: ElfPhdr) {
    && h.kind < U32 && h.flags < U32 && h.offset < U64 && h.vaddr < U64 && h.paddr < U64 && h.filesz < U64
    && h.memsz < U64 && h.align < U64
  }

  /** A number in `n` bytes, the lowest first. */
  function LittleEndian(v: nat, n: nat): (bytes: seq<nat>)
    ensures |bytes| == n
  {
    if n == 0 then [] else [v % 256] + LittleEndian(v / 256, n - 1)
  }

  function EncodePhdr(h: ElfPhdr): (bytes: seq<nat>)
    ensures |bytes| == 56
  {
    LittleEndian(h.kind, 4) + LittleEndian(h.flags, 4) + LittleEndian(h.offset, 8) + LittleEndian(h.vaddr, 8)
    + LittleEndian(h.paddr, 8) + LittleEndian(h.filesz, 8) + LittleEndian(h.memsz, 8) + LittleEndian(h.align, 8)
  }

  /** `bytes` stands at offset `off` of the file. */
  ghost predicate StandsAt(data: seq<nat>, off: nat, bytes: seq<nat>) {
    off + |bytes| <= |data| && data[off..off + |bytes|] == bytes
  }

  function Power256(n: nat): nat {
    if n == 0 then 1 else 256 * Power256(n - 1)
  }

  /** A number is read back from where it stands. */
  lemma {:induction false} NumberRoundTrip(data: seq<nat>, off: nat, v: nat, n: nat)
    requires StandsAt(data, off, LittleEndian(v, n)) && v < Power256(n)
    ensures NumberAt(data, off, n) == v
    decreases n
  {
    if n > 0 {
      var bytes, rest := LittleEndian(v, n), LittleEndian(v / 256, n - 1);
      assert bytes[0] == v % 256 && bytes[1..] == rest;
      assert data[off] == data[off..off + n][0];
      assert data[off + 1..off + n] == data[off..off + n][1..];
      NumberRoundTrip(data, off + 1, v / 256, n - 1);
    }
  }

  lemma PartStandsAt(data: seq<nat>, off: nat, a: seq<nat>, b: seq<nat>, c: seq<nat>)
    requires StandsAt(data, off, a + b + c)
    ensures StandsAt(data, off + |a|, b)
  {
    var bytes := a + b + c;
    forall i | 0 <= i < |b| ensures data[off + |a| + i] == b[i] {
      assert data[off + (|a| + i)] == data[off..off + |bytes|][|a| + i] == bytes[|a| + i] == b[i];
    }
  }

  /** `phdr_at` reads back every header, whatever surrounds it. */
  lemma PhdrRoundTrip(data: seq<nat>, phoff: nat, phentsize: nat, index: nat, h: ElfPhdr)
    requires InRange(h) && StandsAt(data, phoff + index * phentsize, EncodePhdr(h))
    ensures PhdrAt(data, phoff, phentsize, index) == Some(Phdr(h.kind, h.flags, h.offset, h.vaddr, h.filesz, h.memsz))
  {
    var off := phoff + index * phentsize;
    assert Power256(4) == U32 && Power256(8) == U64;
    hide Power256;
    var a, b, c, d := LittleEndian(h.kind, 4), LittleEndian(h.flags, 4), LittleEndian(h.offset, 8),
                      LittleEndian(h.vaddr, 8);
    var e, f, g, i := LittleEndian(h.paddr, 8), LittleEndian(h.filesz, 8), LittleEndian(h.memsz, 8),
                      LittleEndian(h.align, 8);
    hide LittleEndian;
    FieldsStandAt(data, off, a, b, c, d, e, f, g, i);
    hide StandsAt;
    NumberRoundTrip(data, off, h.kind, 4);
    NumberRoundTrip(data, off + 4, h.flags, 4);
    NumberRoundTrip(data, off + 8, h.offset, 8);
    NumberRoundTrip(data, off + 16, h.vaddr, 8);
    NumberRoundTrip(data, off + 32, h.filesz, 8);
    NumberRoundTrip(data, off + 40, h.memsz, 8);
  }

  lemma FieldsStandAt(data: seq<nat>, off: nat, a: seq<nat>, b: seq<nat>, c: seq<nat>, d: seq<nat>, e: seq<nat>,
                      f: seq<nat>, g: seq<nat>, i: seq<nat>)
    requires |a| == |b| == 4 && |c| == |d| == |e| == |f| == |g| == |i| == 8
    requires StandsAt(data, off, a + b + c + d + e + f + g + i)
    ensures off + 56 <= |data|
    ensures StandsAt(data, off, a) && StandsAt(data, off + 4, b) && StandsAt(data, off + 8, c)
    ensures StandsAt(data, off + 16, d) && StandsAt(data, off + 32, f) && StandsAt(data, off + 40, g)
  {
    var all := a + b + c + d + e + f + g + i;
    assert all == [] + a + (b + c + d + e + f + g + i) && all == a + b + (c + d + e + f + g + i);
    assert all == (a + b) + c + (d + e + f + g + i) && all == (a + b + c) + d + (e + f + g + i);
    assert all == (a + b + c + d + e) + f + (g + i) && all == (a + b + c + d + e + f) + g + i;
    assert |all| == 56;
    PartStandsAt(data, off, [], a, b + c + d + e + f + g + i);
    PartStandsAt(data, off, a, b, c + d + e + f + g + i);
    PartStandsAt(data, off, a + b, c, d + e + f + g + i);
    PartStandsAt(data, off, a + b + c, d, e + f + g + i);
    PartStandsAt(data, off, a + b + c + d + e, f, g + i);
    PartStandsAt(data, off, a + b + c + d + e + f, g, i);
  }

  /** The pages of a segment are those that meet its range in memory. */
  lemma SegmentPages(ph: Phdr, bias: nat, k: nat)
    ensures FirstPage(ph, bias) <= k < LastPage(ph, bias) <==>
            ph.vaddr + bias < k * PAGE_SIZE + PAGE_SIZE && k * PAGE_SIZE < ph.vaddr + bias + ph.memsz
  {
  }

  /** The whole way from the file: once the headers are loaded, an address of the memory range of an encoded PT_LOAD
    * header reads the file's byte inside the file range and zero behind it. */
  lemma EncodedSegmentReads(flat: map<nat, Pte>, pages: Pages, data: seq<nat>, phoff: nat, phentsize: nat, bias: nat,
                            n: nat, i: nat, h: ElfPhdr, a: nat)
    requires HeadersLoaded(flat, pages, data, phoff, phentsize, bias, n) && i < n
    requires InRange(h) && h.kind == 1 && StandsAt(data, phoff + i * phentsize, EncodePhdr(h))
    requires h.offset + h.filesz <= |data| && h.vaddr + bias <= a < h.vaddr + bias + h.memsz
    ensures var at := a - (h.vaddr + bias); Reads(flat, pages, a, if at < h.filesz then data[h.offset + at] else 0)
  {
    PhdrRoundTrip(data, phoff, phentsize, i, h);
    var ph := Phdr(h.kind, h.flags, h.offset, h.vaddr, h.filesz, h.memsz);
    hide HeadersLoaded, PhdrAt, StandsAt, EncodePhdr, Reads;
    assert SegStart(ph, bias) <= a < SegEnd(ph, bias);
    ImageBytes(flat, pages, data, phoff, phentsize, bias, n, i, a);
  }

  /** And the page of the address has the rights the header's flags ask for: writable with bit 1, executable with
    * bit 0, and a user's. */
  lemma EncodedSegmentRights(flat: map<nat, Pte>, pages: Pages, data: seq<nat>, phoff: nat, phentsize: nat, bias: nat,
                             n: nat, i: nat, h: ElfPhdr, a: nat)
    requires HeadersLoaded(flat, pages, data, phoff, phentsize, bias, n) && i < n
    requires InRange(h) && h.kind == 1 && StandsAt(data, phoff + i * phentsize, EncodePhdr(h))
    requires h.vaddr + bias <= a < h.vaddr + bias + h.memsz
    ensures Key(a) in flat
    ensures forall write, exec :: EntryPermits(flat[Key(a)], 3, Access(true, write, exec)) <==>
              (write ==> h.flags / 2 % 2 == 1) && (exec ==> h.flags % 2 == 1)
  {
    PhdrRoundTrip(data, phoff, phentsize, i, h);
    var ph := Phdr(h.kind, h.flags, h.offset, h.vaddr, h.filesz, h.memsz);
    hide PhdrAt, StandsAt, EncodePhdr;
    assert HeaderLoaded(flat, pages, data, phoff, phentsize, bias, i);
    SegmentPages(ph, bias, a / PAGE_SIZE);
    KeyOfAddress(a);
    hide PageBytes, Key, PageKey, FirstPage, LastPage;
    assert PageLoaded(flat, pages, data, ph, bias, a / PAGE_SIZE);
  }
}
