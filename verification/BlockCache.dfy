/** The block buffer cache in front of RAM disks. */
module BlockCache {
  import opened Layout
  import opened Arith

  const BLOCK_SIZE: nat := 4096
  const CACHE_SLOTS: nat := 64

  type Bytes = seq<nat>

  datatype Entry = Entry(device: nat, block: nat, data: Bytes, dirty: bool, valid: bool)

  /** Disk contents by device id: each disk is a sequence of whole blocks. */
  type Disks = map<nat, seq<Bytes>>

  ghost predicate WholeBlocks(disks: Disks) {
    forall d, b: nat :: d in disks && b < |disks[d]| ==> |disks[d][b]| == BLOCK_SIZE
  }

  // ---------------------------------------------------------------- the disks without a cache

  /** The first bytes of `to` replaced by those of `from`, at most a block's worth. */
  function Overlay(to: Bytes, from: Bytes): (r: Bytes)
    requires |from| >= BLOCK_SIZE || |to| >= BLOCK_SIZE
    ensures |r| == |to|
    ensures forall i: nat :: i < |to| ==> r[i] == if i < BLOCK_SIZE && i < |from| then from[i] else to[i]
  {
    var len := Min(Min(|to|, |from|), BLOCK_SIZE);
    from[..len] + to[len..]
  }

  predicate InRange(disks: Disks, device: nat, block: nat) {
    device in disks && block < |disks[device]|
  }

  /** What a read leaves in the caller's buffer; an out-of-range read leaves it alone. */
  function DiskRead(disks: Disks, device: nat, block: nat, buf: Bytes): Bytes
    requires WholeBlocks(disks)
  {
    if InRange(disks, device, block) then Overlay(buf, disks[device][block]) else buf
  }

  function DiskWrite(disks: Disks, device: nat, block: nat, buf: Bytes): Disks
    requires WholeBlocks(disks)
  {
    if InRange(disks, device, block)
    then disks[device := disks[device][block := Overlay(disks[device][block], buf)]]
    else disks
  }

  lemma DiskWriteKeeps(disks: Disks, device: nat, block: nat, buf: Bytes)
    requires WholeBlocks(disks)
    ensures WholeBlocks(DiskWrite(disks, device, block, buf)) && DiskWrite(disks, device, block, buf).Keys == disks.Keys
  {
  }

  // ---------------------------------------------------------------- coherence

  /** A valid slot holds its block as it is on disk. */
  ghost predicate Coherent(e: Entry, disks: Disks) {
    |e.data| == BLOCK_SIZE && (e.valid ==> InRange(disks, e.device, e.block) && e.data == disks[e.device][e.block])
  }

  predicate Holds(e: Entry, device: nat, block: nat) {
    e.valid && e.device == device && e.block == block
  }

  ghost predicate CacheOk(es: seq<Entry>, disks: Disks) {
    && (forall i: nat :: i < |es| ==> Coherent(es[i], disks))
    && forall i: nat, j: nat :: i < j < |es| && es[i].valid && es[j].valid ==>
      !(es[i].device == es[j].device && es[i].block == es[j].block)
  }

  /** At most one valid slot per device and block. */
  lemma OneSlotPerBlock(es: seq<Entry>, disks: Disks, i: nat, j: nat, device: nat, block: nat)
    requires CacheOk(es, disks) && i < |es| && j < |es| && Holds(es[i], device, block) && Holds(es[j], device, block)
    ensures i == j
  {
  }

  /** Slot `s` now holds a block that no slot held. */
  lemma FillKeeps(es: seq<Entry>, disks: Disks, s: nat, e: Entry)
    requires CacheOk(es, disks) && s < |es| && Coherent(e, disks)
    requires forall i: nat :: i < |es| && i != s ==> !Holds(es[i], e.device, e.block)
    ensures CacheOk(es[s := e], disks)
  {
  }

  /** A write that hits slot `s` changes slot and disk alike. */
  lemma WriteHitKeeps(es: seq<Entry>, disks: Disks, s: nat, device: nat, block: nat, buf: Bytes)
    requires WholeBlocks(disks) && CacheOk(es, disks) && s < |es| && Holds(es[s], device, block)
    ensures CacheOk(es[s := es[s].(data := Overlay(es[s].data, buf), dirty := true)],
                    DiskWrite(disks, device, block, buf))
  {
    var es' := es[s := es[s].(data := Overlay(es[s].data, buf), dirty := true)];
    var disks' := DiskWrite(disks, device, block, buf);
    forall i: nat | i < |es'| ensures Coherent(es'[i], disks') {
      if i != s {
        assert Coherent(es[i], disks) && !Holds(es[i], device, block);
      }
    }
  }

  lemma WriteMissKeeps(es: seq<Entry>, disks: Disks, device: nat, block: nat, buf: Bytes)
    requires WholeBlocks(disks) && CacheOk(es, disks) && forall i: nat :: i < |es| ==> !Holds(es[i], device, block)
    ensures CacheOk(es, DiskWrite(disks, device, block, buf))
  {
    var disks' := DiskWrite(disks, device, block, buf);
    forall i: nat | i < |es| ensures Coherent(es[i], disks') {
      assert Coherent(es[i], disks) && !Holds(es[i], device, block);
    }
  }

  /** Writing a coherent slot back changes nothing. */
  lemma WriteBackChangesNothing(e: Entry, disks: Disks)
    requires WholeBlocks(disks) && Coherent(e, disks) && e.valid
    ensures DiskWrite(disks, e.device, e.block, e.data) == disks
  {
    var disk := disks[e.device];
    assert Overlay(disk[e.block], e.data) == e.data;
    assert disk[e.block := e.data] == disk;
    assert disks[e.device := disk] == disks;
  }

  // ---------------------------------------------------------------- runs

  datatype Op = Read(device: nat, block: nat, buf: Bytes) | Write(device: nat, block: nat, buf: Bytes)
    | Flush(device: nat)

  /** The answer of an operation: success, and the buffer after a read. */
  datatype Answer = Answer(ok: bool, buf: Bytes)

  /** The answer of the disks alone. */
  function Uncached(disks: Disks, op: Op): Answer
    requires WholeBlocks(disks)
  {
    match op
    case Read(device, block, buf) => Answer(InRange(disks, device, block), DiskRead(disks, device, block, buf))
    case Write(device, block, buf) => Answer(InRange(disks, device, block), buf)
    case Flush(device) => Answer(true, [])
  }

  function After(disks: Disks, op: Op): (r: Disks)
    requires WholeBlocks(disks)
    ensures WholeBlocks(r) && r.Keys == disks.Keys
  {
    if op.Write? then
      DiskWriteKeeps(disks, op.device, op.block, op.buf);
      DiskWrite(disks, op.device, op.block, op.buf)
    else disks
  }

  /** The disks after a run without a cache. */
  function UncachedDisks(disks: Disks, ops: seq<Op>): (r: Disks)
    requires WholeBlocks(disks)
    ensures WholeBlocks(r) && r.Keys == disks.Keys
  {
    if ops == [] then disks else After(UncachedDisks(disks, ops[..|ops| - 1]), ops[|ops| - 1])
  }

  /** The answers of a run without a cache, as far as they go. */
  ghost predicate Answered(disks: Disks, ops: seq<Op>, answers: seq<Answer>)
    requires WholeBlocks(disks)
  {
    && |answers| <= |ops|
    && forall k: nat :: k < |answers| ==> AnsweredAt(disks, ops, k, answers[k])
  }

  ghost predicate AnsweredAt(disks: Disks, ops: seq<Op>, k: nat, answer: Answer)
    requires WholeBlocks(disks) && k < |ops|
  {
    answer == Uncached(UncachedDisks(disks, ops[..k]), ops[k])
  }

  lemma StartsEmpty(disks: Disks, ops: seq<Op>)
    requires WholeBlocks(disks)
    ensures Answered(disks, ops, []) && UncachedDisks(disks, ops[..0]) == disks
  {
  }

  lemma AnswerHere(disks: Disks, ops: seq<Op>, now: Disks, k: nat, answer: Answer)
    requires WholeBlocks(disks) && k < |ops| && now == UncachedDisks(disks, ops[..k]) && answer == Uncached(now, ops[k])
    ensures AnsweredAt(disks, ops, k, answer)
  {
  }

  lemma AnswerNext(disks: Disks, ops: seq<Op>, answers: seq<Answer>, answer: Answer)
    requires WholeBlocks(disks) && Answered(disks, ops, answers) && |answers| < |ops|
    requires AnsweredAt(disks, ops, |answers|, answer)
    ensures Answered(disks, ops, answers + [answer])
    ensures UncachedDisks(disks, ops[..|answers| + 1]) == After(UncachedDisks(disks, ops[..|answers|]), ops[|answers|])
  {
    hide AnsweredAt, After;
    var n := |answers|;
    assert ops[..n + 1][..n] == ops[..n];
  }

  // ---------------------------------------------------------------- what a read returns

  /** Byte `i` of a block. */
  ghost predicate ByteOnDisk(disks: Disks, device: nat, block: nat, i: nat, b: nat)
    requires WholeBlocks(disks)
  {
    InRange(disks, device, block) && i < BLOCK_SIZE && disks[device][block][i] == b
  }

  /** The write reaches byte `i` of the block. */
  ghost predicate Reaches(op: Op, device: nat, block: nat, i: nat) {
    op.Write? && op.device == device && op.block == block && i < |op.buf|
  }

  /** A read answers with the bytes on disk, as far as the buffer goes, and leaves the rest of it. */
  lemma ReadReturns(disks: Disks, device: nat, block: nat, buf: Bytes)
    requires WholeBlocks(disks)
    ensures var answer := Uncached(disks, Read(device, block, buf));
            && (answer.ok <==> device in disks && block < |disks[device]|) && |answer.buf| == |buf|
            && (!answer.ok ==> answer.buf == buf)
            && (answer.ok ==> forall i: nat :: i < |buf| ==>
                  if i < BLOCK_SIZE then ByteOnDisk(disks, device, block, i, answer.buf[i])
                  else answer.buf[i] == buf[i])
  {
  }

  /** An operation leaves a byte on disk as it is unless it writes it, and then it is the byte written. */
  lemma StepByte(disks: Disks, op: Op, device: nat, block: nat, i: nat, b: nat)
    requires WholeBlocks(disks) && ByteOnDisk(disks, device, block, i, b)
    ensures ByteOnDisk(After(disks, op), device, block, i, if Reaches(op, device, block, i) then op.buf[i] else b)
  {
  }

  /** A read gets the byte that was written last. */
  lemma {:induction false} LastWriteIsRead(disks: Disks, ops: seq<Op>, k: nat, j: nat, device: nat, block: nat, i: nat)
    requires WholeBlocks(disks) && k < j <= |ops| && Reaches(ops[k], device, block, i) && i < BLOCK_SIZE
    requires InRange(disks, device, block)
    requires forall m: nat :: k < m < j ==> !Reaches(ops[m], device, block, i)
    ensures ByteOnDisk(UncachedDisks(disks, ops[..j]), device, block, i, ops[k].buf[i])
    decreases j
  {
    hide After, ByteOnDisk, InRange;
    var now := UncachedDisks(disks, ops[..j - 1]);
    assert ops[..j][..j - 1] == ops[..j - 1];
    if j == k + 1 {
      var b := SomeByte(disks, ops[..k], device, block, i);
      StepByte(now, ops[k], device, block, i, b);
    } else {
      LastWriteIsRead(disks, ops, k, j - 1, device, block, i);
      StepByte(now, ops[j - 1], device, block, i, ops[k].buf[i]);
    }
  }

  lemma {:induction false} SomeByte(disks: Disks, ops: seq<Op>, device: nat, block: nat, i: nat) returns (b: nat)
    requires WholeBlocks(disks) && InRange(disks, device, block) && i < BLOCK_SIZE
    ensures ByteOnDisk(UncachedDisks(disks, ops), device, block, i, b)
  {
    if ops == [] {
      b := disks[device][block][i];
    } else {
      var n := |ops| - 1;
      var was := SomeByte(disks, ops[..n], device, block, i);
      hide After;
      StepByte(UncachedDisks(disks, ops[..n]), ops[n], device, block, i, was);
      b := if Reaches(ops[n], device, block, i) then ops[n].buf[i] else was;
    }
  }

  // ---------------------------------------------------------------- the cache

  class BufferCache {
    var entries: seq<Entry>
    var next: nat
    /** The devices behind the cache. */
    var disks: Disks

    ghost predicate Valid()
      reads this
    {
      WholeBlocks(disks) && |entries| == CACHE_SLOTS && next < CACHE_SLOTS && CacheOk(entries, disks)
    }

    constructor (disks: Disks)
      requires WholeBlocks(disks)
      ensures Valid() && this.disks == disks
    {
      entries := seq(CACHE_SLOTS, _ => Entry(0xFFFF_FFFF, 0, seq(BLOCK_SIZE, _ => 0), false, false));
      next := 0;
      this.disks := disks;
    }

    method Find(device: nat, block: nat) returns (r: Option<nat>)
      ensures r.Some? ==> r.value < |entries| && Holds(entries[r.value], device, block)
      ensures r.None? ==> forall i: nat :: i < |entries| ==> !Holds(entries[i], device, block)
    {
      for i := 0 to |entries|
        invariant forall j: nat :: j < i ==> !Holds(entries[j], device, block)
      {
        if entries[i].valid && entries[i].device == device && entries[i].block == block {
          return Some(i);
        }
      }
      r := None;
    }

    /** The next slot in turn; its dirty flag is dropped without a write. */
    method EvictSlot() returns (slot: nat)
      requires Valid()
      modifies this
      ensures Valid() && slot == old(next) && next == (old(next) + 1) % CACHE_SLOTS && disks == old(disks)
      ensures entries == old(entries)[slot := old(entries)[slot].(dirty := false)]
    {
      slot := next;
      next := (next + 1) % CACHE_SLOTS;
      if entries[slot].dirty {
        assert Coherent(entries[slot], disks);
        entries := entries[slot := entries[slot].(dirty := false)];
      }
    }

    /** `RamDisk::read_block` into a slot's data. */
    method DeviceRead(device: nat, block: nat, data: Bytes) returns (ok: bool, data': Bytes)
      requires Valid() && |data| == BLOCK_SIZE
      ensures ok == InRange(disks, device, block) && data' == if ok then disks[device][block] else data
    {
      ok, data' := InRange(disks, device, block), data;
      if ok {
        data' := disks[device][block];
      }
    }

    /** A cached read returns exactly what the disk would. */
    method ReadBlock(device: nat, block: nat, buf: array<nat>) returns (ok: bool)
      requires Valid()
      modifies this, buf
      ensures Valid() && disks == old(disks)
      ensures ok == InRange(disks, device, block) && buf[..] == DiskRead(disks, device, block, old(buf[..]))
    {
      var idx := Find(device, block);
      var data;
      if idx.Some? {
        assert Coherent(entries[idx.value], disks);
        ok, data := true, entries[idx.value].data;
      } else {
        var slot := EvictSlot();
        assert Coherent(entries[slot], disks);
        ok, data := DeviceRead(device, block, entries[slot].data);
        if !ok {
          return;
        }
        FillKeeps(entries, disks, slot, Entry(device, block, data, false, true));
        entries := entries[slot := Entry(device, block, data, false, true)];
      }
      CopyOut(data, buf);
    }

    method CopyOut(data: Bytes, buf: array<nat>)
      requires |data| == BLOCK_SIZE
      modifies buf
      ensures buf[..] == Overlay(old(buf[..]), data)
    {
      var len := Min(buf.Length, BLOCK_SIZE);
      forall i | 0 <= i < len {
        buf[i] := data[i];
      }
    }

    /** A cached write leaves the disks as an uncached one would. */
    method WriteBlock(device: nat, block: nat, buf: array<nat>) returns (ok: bool)
      requires Valid()
      modifies this
      ensures Valid() && ok == InRange(old(disks), device, block)
              && disks == DiskWrite(old(disks), device, block, buf[..])
    {
      var idx := Find(device, block);
      DiskWriteKeeps(disks, device, block, buf[..]);
      if idx.Some? {
        WriteHitKeeps(entries, disks, idx.value, device, block, buf[..]);
        assert Coherent(entries[idx.value], disks);
        var data := Overlay(entries[idx.value].data, buf[..]);
        entries := entries[idx.value := entries[idx.value].(data := data, dirty := true)];
      } else {
        WriteMissKeeps(entries, disks, device, block, buf[..]);
      }
      ok := InRange(disks, device, block);
      disks := DiskWrite(disks, device, block, buf[..]);
    }

    /** Flushing writes dirty slots back, which never changes a disk. */
    method FlushDevice(device: nat)
      requires Valid()
      modifies this
      ensures Valid() && disks == old(disks)
      ensures forall i: nat :: i < CACHE_SLOTS ==> entries[i] == old(entries)[i].(dirty := entries[i].dirty)
      ensures forall i: nat :: i < CACHE_SLOTS && entries[i].valid && entries[i].device == device ==> !entries[i].dirty
    {
      for i := 0 to CACHE_SLOTS
        invariant Valid() && disks == old(disks)
        invariant forall j: nat :: j < CACHE_SLOTS ==> entries[j] == old(entries)[j].(dirty := entries[j].dirty)
        invariant forall j: nat :: j < i && entries[j].valid && entries[j].device == device ==> !entries[j].dirty
      {
        var e := entries[i];
        if e.valid && e.device == device && e.dirty {
          assert Coherent(e, disks);
          WriteBackChangesNothing(e, disks);
          disks := DiskWrite(disks, e.device, e.block, e.data);
          FillKeeps(entries, disks, i, e.(dirty := false));
          entries := entries[i := e.(dirty := false)];
        }
      }
    }

    /** Any run through the cache answers as the disks alone would, and leaves the same disks. */
    method Run(ops: seq<Op>) returns (answers: seq<Answer>)
      requires Valid()
      modifies this
      ensures Valid() && |answers| == |ops| && disks == UncachedDisks(old(disks), ops)
      ensures Answered(old(disks), ops, answers)
    {
      hide Coherent, CacheOk, Overlay, Uncached, After, UncachedDisks, Answered, AnsweredAt;
      answers := [];
      StartsEmpty(disks, ops);
      ghost var disks0 := disks;
      for n := 0 to |ops|
        invariant Valid() && |answers| == n && disks == UncachedDisks(disks0, ops[..n])
        invariant Answered(disks0, ops, answers)
      {
        ghost var before := disks;
        var answer := Serve(ops[n]);
        AnswerHere(disks0, ops, before, n, answer);
        AnswerNext(disks0, ops, answers, answer);
        answers := answers + [answer];
      }
      assert ops[..|ops|] == ops;
    }

    method Serve(op: Op) returns (answer: Answer)
      requires Valid()
      modifies this
      ensures Valid() && disks == After(old(disks), op) && answer == Uncached(old(disks), op)
    {
      hide Coherent, CacheOk, Overlay;
      match op {
        case Read(device, block, bytes) =>
          var buf := new nat[|bytes|](i requires 0 <= i < |bytes| => bytes[i]);
          assert buf[..] == bytes;
          var ok := ReadBlock(device, block, buf);
          answer := Answer(ok, buf[..]);
        case Write(device, block, bytes) =>
          var buf := new nat[|bytes|](i requires 0 <= i < |bytes| => bytes[i]);
          assert buf[..] == bytes;
          var ok := WriteBlock(device, block, buf);
          answer := Answer(ok, bytes);
        case Flush(device) =>
          FlushDevice(device);
          answer := Answer(true, []);
      }
    }
  }
}
