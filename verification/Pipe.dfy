/** Pipes: a ring buffer that refines a byte stream. */
module Pipes {
  import opened Arith

  const PIPE_BUF: nat := 4096

  // ---------------------------------------------------------------- the byte stream

  /** Bytes written and not yet read, and the open ends. */
  datatype Stream = Stream(bytes: seq<nat>, readRefs: nat, writeRefs: nat)

  datatype Op = Write(data: seq<nat>) | Read(room: nat) | DupRead | DupWrite | CloseRead | CloseWrite

  datatype Outcome = Wrote(count: nat) | Got(bytes: seq<nat>) | BrokenPipe | WouldBlock | Done

  /** How much of a write fits. */
  function Fits(s: Stream, data: seq<nat>): nat {
    if |s.bytes| >= PIPE_BUF then 0 else Min(|data|, PIPE_BUF - |s.bytes|)
  }

  function Result(s: Stream, op: Op): Outcome {
    match op
    case Write(data) =>
      if s.readRefs == 0 then BrokenPipe
      else if Fits(s, data) == 0 && |s.bytes| >= PIPE_BUF then WouldBlock
      else Wrote(Fits(s, data))
    case Read(room) =>
      if |s.bytes| > 0 then Got(s.bytes[..Min(room, |s.bytes|)])
      else if s.writeRefs == 0 then Got([])
      else WouldBlock
    case _ => Done
  }

  function Next(s: Stream, op: Op): Stream {
    match op
    case Write(data) => if s.readRefs == 0 then s else s.(bytes := s.bytes + data[..Fits(s, data)])
    case Read(room) => s.(bytes := s.bytes[Min(room, |s.bytes|)..])
    case DupRead => s.(readRefs := s.readRefs + 1)
    case DupWrite => s.(writeRefs := s.writeRefs + 1)
    case CloseRead => s.(readRefs := if s.readRefs > 0 then s.readRefs - 1 else 0)
    case CloseWrite => s.(writeRefs := if s.writeRefs > 0 then s.writeRefs - 1 else 0)
  }

  /** The bytes an operation put into the pipe, and those it took out. */
  function Accepted(op: Op, outcome: Outcome): seq<nat> {
    if op.Write? && outcome.Wrote? && outcome.count <= |op.data| then op.data[..outcome.count] else []
  }

  function Delivered(outcome: Outcome): seq<nat> {
    if outcome.Got? then outcome.bytes else []
  }

  function AllAccepted(ops: seq<Op>, outcomes: seq<Outcome>): seq<nat>
    requires |ops| == |outcomes|
  {
    if ops == [] then [] else
      AllAccepted(ops[..|ops| - 1], outcomes[..|ops| - 1]) + Accepted(ops[|ops| - 1], outcomes[|ops| - 1])
  }

  function AllDelivered(outcomes: seq<Outcome>): seq<nat> {
    if outcomes == [] then [] else AllDelivered(outcomes[..|outcomes| - 1]) + Delivered(outcomes[|outcomes| - 1])
  }

  /** In one operation, what is in the pipe plus what went in is what came out plus what is left. */
  lemma StepBalances(s: Stream, op: Op)
    ensures s.bytes + Accepted(op, Result(s, op)) == Delivered(Result(s, op)) + Next(s, op).bytes
    ensures |s.bytes| <= PIPE_BUF ==> |Next(s, op).bytes| <= PIPE_BUF
  {
    if op.Read? {
      var n := Min(op.room, |s.bytes|);
      assert s.bytes[..n] + s.bytes[n..] == s.bytes;
    }
  }

  /** A write is refused exactly when no reader is left, waits exactly when the pipe is full, and otherwise takes all it
    * can: the whole of the data, or as much as fills the pipe. */
  lemma WriteMeans(s: Stream, data: seq<nat>)
    requires |s.bytes| <= PIPE_BUF
    ensures var r, s' := Result(s, Write(data)), Next(s, Write(data));
            && (r == BrokenPipe <==> s.readRefs == 0)
            && (r == WouldBlock <==> s.readRefs > 0 && |s.bytes| == PIPE_BUF)
            && (r.Wrote? <==> s.readRefs > 0 && |s.bytes| < PIPE_BUF) && (!r.Wrote? ==> s' == s)
            && (r.Wrote? ==>
                  && r.count <= |data| && s' == s.(bytes := s.bytes + data[..r.count])
                  && (r.count == |data| || |s'.bytes| == PIPE_BUF))
  {
  }

  /** A read waits exactly when the pipe is empty and a writer is left; otherwise it takes the oldest bytes, as many as
    * there are or there is room for. */
  lemma ReadMeans(s: Stream, room: nat)
    ensures var r, s' := Result(s, Read(room)), Next(s, Read(room));
            && (r == WouldBlock <==> s.bytes == [] && s.writeRefs > 0) && (r.Got? <==> r != WouldBlock)
            && s' == s.(bytes := s'.bytes) && (r == WouldBlock ==> s' == s)
            && (r.Got? ==> s.bytes == r.bytes + s'.bytes && |r.bytes| <= room && (|r.bytes| == room || s'.bytes == []))
  {
    var n := Min(room, |s.bytes|);
    assert s.bytes == s.bytes[..n] + s.bytes[n..];
  }

  function Count(ops: seq<Op>, op: Op): nat {
    if ops == [] then 0 else Count(ops[..|ops| - 1], op) + if ops[|ops| - 1] == op then 1 else 0
  }

  /** Nobody closes an end that is not open. */
  ghost predicate ClosesOpen(s: Stream, ops: seq<Op>) {
    forall k: nat :: k < |ops| ==>
      && (ops[k] == CloseRead ==> Count(ops[..k], CloseRead) < s.readRefs + Count(ops[..k], DupRead))
      && (ops[k] == CloseWrite ==> Count(ops[..k], CloseWrite) < s.writeRefs + Count(ops[..k], DupWrite))
  }

  /** The references count the open ends: those at the start and the duplicates, less the ones closed. */
  lemma {:induction false} RefsAreOpenEnds(states: seq<Stream>, ops: seq<Op>, outcomes: seq<Outcome>)
    requires IsRun(states, ops, outcomes) && ClosesOpen(states[0], ops)
    ensures states[|ops|].readRefs + Count(ops, CloseRead) == states[0].readRefs + Count(ops, DupRead)
    ensures states[|ops|].writeRefs + Count(ops, CloseWrite) == states[0].writeRefs + Count(ops, DupWrite)
    decreases |ops|
  {
    hide Next, Result, Count;
    if ops == [] {
      CountNone();
    } else {
      var n := |ops| - 1;
      assert forall k: nat :: k < n ==> ops[..n][..k] == ops[..k];
      RefsAreOpenEnds(states[..n + 1], ops[..n], outcomes[..n]);
      assert states[n + 1] == Next(states[n], ops[n]);
      RefsStep(states[n], ops[n]);
      CountLast(ops);
    }
  }

  lemma CountNone()
    ensures forall op :: Count([], op) == 0
  {
  }

  lemma CountLast(ops: seq<Op>)
    requires ops != []
    ensures forall op :: Count(ops, op) == Count(ops[..|ops| - 1], op) + if ops[|ops| - 1] == op then 1 else 0
  {
  }

  /** One section moves the references by at most one. */
  lemma RefsStep(s: Stream, op: Op)
    requires (op == CloseRead ==> s.readRefs > 0) && (op == CloseWrite ==> s.writeRefs > 0)
    ensures var s' := Next(s, op);
            && s'.readRefs + (if op == CloseRead then 1 else 0) == s.readRefs + (if op == DupRead then 1 else 0)
            && s'.writeRefs + (if op == CloseWrite then 1 else 0) == s.writeRefs + (if op == DupWrite then 1 else 0)
  {
  }

  ghost predicate IsRun(states: seq<Stream>, ops: seq<Op>, outcomes: seq<Outcome>) {
    && |states| == |ops| + 1 == |outcomes| + 1
    && forall k: nat :: k < |ops| ==>
      states[k + 1] == Next(states[k], ops[k]) && outcomes[k] == Result(states[k], ops[k])
  }

  /** For any readers and writers in any order: the bytes delivered are a prefix of those accepted, and what is
    * missing is what is still in the pipe, at most 4096 bytes. */
  lemma {:induction false} DeliveredIsPrefix(states: seq<Stream>, ops: seq<Op>, outcomes: seq<Outcome>)
    requires IsRun(states, ops, outcomes) && states[0].bytes == []
    ensures AllAccepted(ops, outcomes) == AllDelivered(outcomes) + states[|ops|].bytes
            && |states[|ops|].bytes| <= PIPE_BUF
    ensures AllDelivered(outcomes) <= AllAccepted(ops, outcomes)
    decreases |ops|
  {
    hide Next, Result, Accepted, Delivered;
    if ops != [] {
      var n := |ops| - 1;
      DeliveredIsPrefix(states[..n + 1], ops[..n], outcomes[..n]);
      StepBalances(states[n], ops[n]);
      assert states[n + 1] == Next(states[n], ops[n]) && outcomes[n] == Result(states[n], ops[n]);
      Regroup(AllAccepted(ops[..n], outcomes[..n]), AllDelivered(outcomes[..n]), states[n].bytes,
              Accepted(ops[n], outcomes[n]), Delivered(outcomes[n]), states[n + 1].bytes);
    }
  }

  lemma Regroup(accepted: seq<nat>, delivered: seq<nat>, bytes: seq<nat>, a: seq<nat>, d: seq<nat>, bytes': seq<nat>)
    requires accepted == delivered + bytes && bytes + a == d + bytes'
    ensures accepted + a == (delivered + d) + bytes'
  {
    assert delivered + bytes + a == delivered + (bytes + a);
    assert delivered + (d + bytes') == delivered + d + bytes';
  }

  /** End of file: a read with room returns nothing exactly when everything accepted was delivered and no writer is
    * left. */
  lemma EndOfFileExactlyWhen(states: seq<Stream>, ops: seq<Op>, outcomes: seq<Outcome>, room: nat)
    requires IsRun(states, ops, outcomes) && states[0].bytes == [] && room > 0
    ensures Result(states[|ops|], Read(room)) == Got([]) <==>
            AllDelivered(outcomes) == AllAccepted(ops, outcomes) && states[|ops|].writeRefs == 0
    ensures ClosesOpen(states[0], ops) ==>
              (states[|ops|].writeRefs == 0 <==>
               Count(ops, CloseWrite) == states[0].writeRefs + Count(ops, DupWrite))
  {
    if ClosesOpen(states[0], ops) {
      RefsAreOpenEnds(states, ops, outcomes);
    }
    hide AllDelivered, AllAccepted, Next;
    DeliveredIsPrefix(states, ops, outcomes);
    var s := states[|ops|];
    assert AllDelivered(outcomes) == AllAccepted(ops, outcomes) <==> s.bytes == [];
  }

  lemma NoReaderStep(s: Stream, op: Op)
    requires s.readRefs == 0 && !op.DupRead?
    ensures Next(s, op).readRefs == 0 && Accepted(op, Result(s, op)) == []
            && (op.Write? ==> Result(s, op) == BrokenPipe)
  {
  }

  /** Once no reader is left, and none can be duplicated, every write is refused and no byte enters the pipe again. */
  lemma {:induction false} NoReaderNoBytes(states: seq<Stream>, ops: seq<Op>, outcomes: seq<Outcome>, i: nat)
    requires IsRun(states, ops, outcomes) && i <= |ops| && states[i].readRefs == 0
    requires forall k: nat :: i <= k < |ops| ==> !ops[k].DupRead?
    ensures states[|ops|].readRefs == 0 && AllAccepted(ops, outcomes) == AllAccepted(ops[..i], outcomes[..i])
    ensures forall k: nat :: i <= k < |ops| && ops[k].Write? ==> outcomes[k] == BrokenPipe
    decreases |ops|
  {
    hide Next, Result, Accepted;
    if i == |ops| {
      assert ops[..i] == ops && outcomes[..i] == outcomes;
    } else {
      var n := |ops| - 1;
      NoReaderNoBytes(states[..n + 1], ops[..n], outcomes[..n], i);
      NoReaderStep(states[n], ops[n]);
      assert ops[..n][..i] == ops[..i] && outcomes[..n][..i] == outcomes[..i];
      assert states[n + 1] == Next(states[n], ops[n]) && outcomes[n] == Result(states[n], ops[n]);
    }
  }

  // ---------------------------------------------------------------- the ring

  /** The `len` bytes of the ring from `head` on. */
  function Unrolled(buf: seq<nat>, head: nat, len: nat): (s: seq<nat>)
    requires |buf| == PIPE_BUF
    ensures |s| == len
  {
    seq(len, (i: nat) => buf[(head + i) % PIPE_BUF])
  }

  lemma UnrolledPush(buf: seq<nat>, head: nat, len: nat, b: nat)
    requires |buf| == PIPE_BUF && len < PIPE_BUF
    ensures Unrolled(buf[(head + len) % PIPE_BUF := b], head, len + 1) == Unrolled(buf, head, len) + [b]
  {
    var buf' := buf[(head + len) % PIPE_BUF := b];
    forall i: nat | i < len + 1 ensures Unrolled(buf', head, len + 1)[i] == (Unrolled(buf, head, len) + [b])[i] {
      if i < len {
        RingSlotsDiffer(head, i, len);
      }
    }
  }

  lemma RingSlotsDiffer(head: nat, i: nat, j: nat)
    requires i < j < PIPE_BUF
    ensures (head + i) % PIPE_BUF != (head + j) % PIPE_BUF
  {
  }

  lemma UnrolledPop(buf: seq<nat>, head: nat, len: nat)
    requires |buf| == PIPE_BUF && 0 < len && head < PIPE_BUF
    ensures Unrolled(buf, head, len) == [buf[head]] + Unrolled(buf, (head + 1) % PIPE_BUF, len - 1)
  {
    var rest := Unrolled(buf, (head + 1) % PIPE_BUF, len - 1);
    forall i: nat | i < len ensures Unrolled(buf, head, len)[i] == ([buf[head]] + rest)[i] {
      if i > 0 {
        RingIndex(head, i - 1);
      }
    }
  }

  lemma RingIndex(head: nat, i: nat)
    requires head < PIPE_BUF
    ensures (head + (i + 1)) % PIPE_BUF == ((head + 1) % PIPE_BUF + i) % PIPE_BUF
  {
  }

  lemma RingTail(head: nat, len: nat)
    ensures ((head + len) % PIPE_BUF + 1) % PIPE_BUF == (head + (len + 1)) % PIPE_BUF
  {
  }

  lemma OutNext(bytes: seq<nat>, room: seq<nat>, n: nat)
    requires n < |bytes| && n < |room|
    ensures (bytes[..n] + room[n..])[n := bytes[n]] == bytes[..n + 1] + room[n + 1..]
    ensures bytes[n..][0] == bytes[n] && bytes[n..][1..] == bytes[n + 1..]
  {
  }

  lemma ReadIs(s: Stream, room: nat)
    ensures Next(s, Read(room)) == s.(bytes := s.bytes[Min(room, |s.bytes|)..])
    ensures s.bytes != [] ==> Result(s, Read(room)) == Got(s.bytes[..Min(room, |s.bytes|)])
    ensures s.bytes == [] ==> Next(s, Read(room)) == s
    ensures s.bytes == [] ==> Result(s, Read(room)) == if s.writeRefs == 0 then Got([]) else WouldBlock
  {
  }

  class Pipe {
    const buf: array<nat>
    var head: nat
    var tail: nat
    var len: nat
    var readRefs: nat
    var writeRefs: nat

    ghost predicate Valid()
      reads this, buf
    {
      buf.Length == PIPE_BUF && head < PIPE_BUF && len <= PIPE_BUF && tail == (head + len) % PIPE_BUF
    }

    /** The stream the ring stands for. */
    ghost function View(): Stream
      requires Valid()
      reads this, buf
    {
      Stream(Unrolled(buf[..], head, len), readRefs, writeRefs)
    }

    /** `Pipe::create`. */
    constructor ()
      ensures Valid() && fresh(buf) && View() == Stream([], 1, 1)
    {
      buf := new nat[PIPE_BUF](_ => 0);
      head, tail, len, readRefs, writeRefs := 0, 0, 0, 1, 1;
    }

    method WriteOnce(data: seq<nat>) returns (written: nat)
      requires Valid()
      modifies this, buf
      ensures Valid() && written == Fits(old(View()), data)
      ensures View() == old(View()).(bytes := old(View()).bytes + data[..written])
    {
      hide Unrolled;
      written := 0;
      ghost var start := View();
      assert start.bytes + data[..0] == start.bytes && |start.bytes| == len by { ViewLength(); }
      while written < |data|
        invariant Valid() && written <= |data| && len == |start.bytes| + written && readRefs == start.readRefs
                  && writeRefs == start.writeRefs
        invariant Unrolled(buf[..], head, len) == start.bytes + data[..written]
      {
        if len >= PIPE_BUF {
          break;
        }
        ghost var ring := buf[..];
        buf[tail] := data[written];
        UnrolledPush(ring, head, len, data[written]);
        RingTail(head, len);
        tail := (tail + 1) % PIPE_BUF;
        len := len + 1;
        assert buf[..] == ring[(head + (len - 1)) % PIPE_BUF := data[written]];
        assert start.bytes + data[..written] + [data[written]] == start.bytes + data[..written + 1];
        written := written + 1;
      }
    }

    lemma ViewLength()
      requires Valid()
      ensures |View().bytes| == len
    {
    }

    method ReadOnce(out: array<nat>) returns (n: nat)
      requires Valid() && out != buf
      modifies this, out
      ensures Valid() && n == Min(out.Length, |old(View()).bytes|)
      ensures out[..n] == old(View()).bytes[..n] && out[n..] == old(out[n..])
      ensures View() == old(View()).(bytes := old(View()).bytes[n..])
    {
      hide Unrolled;
      n := 0;
      ghost var bytes, room := View().bytes, out[..];
      ViewLength();
      while n < out.Length && len > 0
        invariant Valid() && n <= out.Length && n + len == |bytes|
        invariant View() == old(View()).(bytes := bytes[n..])
        invariant out[..] == bytes[..n] + room[n..]
      {
        var b := TakeByte();
        OutNext(bytes, room, n);
        ghost var was := out[..];
        out[n] := b;
        assert out[..] == was[n := b];
        n := n + 1;
      }
      assert out[..n] == out[..][..n] && out[n..] == out[..][n..] && old(out[n..]) == room[n..];
    }

    /** One byte off the ring. */
    method TakeByte() returns (b: nat)
      requires Valid() && len > 0
      modifies this
      ensures Valid() && len == old(len) - 1 && |old(View()).bytes| == old(len) && b == old(View()).bytes[0]
      ensures View() == old(View()).(bytes := old(View()).bytes[1..])
    {
      ViewLength();
      hide Unrolled;
      UnrolledPop(buf[..], head, len);
      RingPop(head, len);
      b := buf[head];
      head := (head + 1) % PIPE_BUF;
      len := len - 1;
    }

    /** The lock section of `Pipe::write`. */
    method TryWrite(data: seq<nat>) returns (r: Outcome)
      requires Valid()
      modifies this, buf
      ensures Valid() && View() == Next(old(View()), Write(data)) && r == Result(old(View()), Write(data))
    {
      ViewLength();
      hide Unrolled;
      if readRefs == 0 {
        return BrokenPipe;
      }
      var wrote := WriteOnce(data);
      ViewLength();
      if wrote > 0 {
        return Wrote(wrote);
      }
      if len >= PIPE_BUF {
        return WouldBlock;
      }
      r := Wrote(0);
    }

    /** The lock section of `Pipe::read`. */
    method TryRead(out: array<nat>) returns (r: Outcome)
      requires Valid() && out != buf
      modifies this, out
      ensures Valid() && View() == Next(old(View()), Read(out.Length)) && r == Result(old(View()), Read(out.Length))
      ensures r.Got? ==> |r.bytes| <= out.Length && out[..] == r.bytes + old(out[..])[|r.bytes|..]
      ensures r == WouldBlock ==> out[..] == old(out[..])
    {
      ViewLength();
      ReadIs(View(), out.Length);
      hide Unrolled, Next, Result;
      if len > 0 {
        var n := ReadOnce(out);
        assert out[..] == out[..n] + out[n..];
        return Got(out[..n]);
      }
      if writeRefs == 0 {
        return Got([]);
      }
      r := WouldBlock;
    }

    method AddReader()
      requires Valid()
      modifies this
      ensures Valid() && View() == Next(old(View()), DupRead)
    {
      readRefs := readRefs + 1;
    }

    method AddWriter()
      requires Valid()
      modifies this
      ensures Valid() && View() == Next(old(View()), DupWrite)
    {
      writeRefs := writeRefs + 1;
    }

    method DropReader()
      requires Valid()
      modifies this
      ensures Valid() && View() == Next(old(View()), CloseRead)
    {
      if readRefs > 0 {
        readRefs := readRefs - 1;
      }
    }

    method DropWriter()
      requires Valid()
      modifies this
      ensures Valid() && View() == Next(old(View()), CloseWrite)
    {
      if writeRefs > 0 {
        writeRefs := writeRefs - 1;
      }
    }

    method Serve(op: Op) returns (r: Outcome)
      requires Valid()
      modifies this, buf
      ensures Valid() && View() == Next(old(View()), op) && r == Result(old(View()), op)
    {
      hide Unrolled;
      r := Done;
      match op {
        case Write(data) => r := TryWrite(data);
        case Read(room) =>
          var out := new nat[room](_ => 0);
          r := TryRead(out);
        case DupRead => AddReader();
        case DupWrite => AddWriter();
        case CloseRead => DropReader();
        case CloseWrite => DropWriter();
      }
    }

    /** Any run of lock sections on a new pipe: what came out is a prefix of what went in, at most 4096 bytes apart. */
    method Run(ops: seq<Op>) returns (outcomes: seq<Outcome>, ghost states: seq<Stream>)
      requires Valid() && View().bytes == []
      modifies this, buf
      ensures Valid() && IsRun(states, ops, outcomes) && states[0] == old(View()) && states[|ops|] == View()
      ensures AllDelivered(outcomes) <= AllAccepted(ops, outcomes)
              && |AllAccepted(ops, outcomes)| - |AllDelivered(outcomes)| == len <= PIPE_BUF
    {
      hide Unrolled, Next, Result;
      outcomes, states := [], [View()];
      for n := 0 to |ops|
        invariant Valid() && IsRun(states, ops[..n], outcomes) && states[0] == old(View()) && states[n] == View()
      {
        var r := Serve(ops[n]);
        outcomes, states := outcomes + [r], states + [View()];
      }
      assert ops[..|ops|] == ops;
      DeliveredIsPrefix(states, ops, outcomes);
      ViewLength();
    }
  }

  lemma RingPop(head: nat, len: nat)
    requires head < PIPE_BUF && len > 0
    ensures ((head + 1) % PIPE_BUF + (len - 1)) % PIPE_BUF == (head + len) % PIPE_BUF
  {
  }
}
