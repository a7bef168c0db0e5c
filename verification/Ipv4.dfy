/** The Internet checksum and the IPv4 header. */
module Ipv4 {
  import opened Layout

  type Byte = x: nat | x < 256

  const U32_LIMIT: nat := 0x1_0000_0000

  // ---------------------------------------------------------------- the checksum as arithmetic

  function Be16(hi: Byte, lo: Byte): nat {
    var h: nat, l: nat := hi, lo;
    h * 256 + l
  }

  /** The sum of the big-endian 16-bit words; an odd last byte is the high half of a word. */
  function WordSum(data: seq<Byte>): nat {
    if |data| == 0 then 0
    else if |data| == 1 then Be16(data[0], 0)
    else Be16(data[0], data[1]) + WordSum(data[2..])
  }

  /** Ones-complement value of a sum: 0 only for 0, otherwise the residue modulo 65535 in 1..65535. */
  function Folded(sum: nat): (r: nat)
    ensures r <= 0xFFFF && (r == 0 <==> sum == 0)
  {
    if sum == 0 then 0 else (sum - 1) % 0xFFFF + 1
  }

  function ChecksumOf(data: seq<Byte>): (r: nat)
    ensures r <= 0xFFFF
  {
    0xFFFF - Folded(WordSum(data))
  }

  /** One folding step keeps the ones-complement value. */
  lemma FoldStep(sum: nat)
    requires sum >= 0x10000
    ensures 0 < sum % 0x10000 + sum / 0x10000 < sum && Folded(sum % 0x10000 + sum / 0x10000) == Folded(sum)
  {
    var hi, lo := sum / 0x10000, sum % 0x10000;
    assert sum - 1 == 0xFFFF * hi + (hi + lo - 1);
    AddMultipleOf65535(hi, hi + lo - 1);
  }

  lemma AddMultipleOf65535(k: nat, x: nat)
    ensures (0xFFFF * k + x) % 0xFFFF == x % 0xFFFF
  {
  }

  /** Adding the checksum makes the ones-complement value all ones; nothing else does, but 0 and 0xFFFF count as one. */
  lemma ChecksumCompletes(sum: nat, v: nat)
    requires v <= 0xFFFF
    ensures Folded(sum + v) == 0xFFFF <==> v == 0xFFFF - Folded(sum) || (v == 0xFFFF && Folded(sum) == 0xFFFF)
  {
  }

  /** Messages of up to 131074 bytes cannot overflow the 32-bit sum. */
  lemma {:induction false} ShortEnough(data: seq<Byte>)
    ensures WordSum(data) <= (|data| + 1) / 2 * 0xFFFF
    ensures |data| <= 131074 ==> WordSum(data) < U32_LIMIT
  {
    if |data| >= 2 {
      ShortEnough(data[2..]);
    }
  }

  /** The message with the 16-bit value `v` in the field at `k`. */
  function Stored(data: seq<Byte>, k: nat, v: nat): (r: seq<Byte>)
    requires k + 1 < |data| && v <= 0xFFFF
    ensures |r| == |data|
  {
    data[k := v / 256][k + 1 := v % 256]
  }

  lemma {:induction false} StoredSum(data: seq<Byte>, k: nat, v: nat)
    requires k + 1 < |data| && k % 2 == 0 && data[k] == 0 && data[k + 1] == 0 && v <= 0xFFFF
    ensures WordSum(Stored(data, k, v)) == WordSum(data) + v
  {
    var data' := Stored(data, k, v);
    if k == 0 {
      assert data'[2..] == data[2..];
    } else {
      StoredSum(data[2..], k - 2, v);
      assert data'[2..] == Stored(data[2..], k - 2, v);
    }
  }

  /** A message with value `v` in a 16-bit-aligned field that was zero checks to zero exactly when `v` is its checksum,
    * or is 0xFFFF where the checksum is 0. */
  lemma VerifiesExactlyWhen(data: seq<Byte>, k: nat, v: nat)
    requires k + 1 < |data| && k % 2 == 0 && data[k] == 0 && data[k + 1] == 0 && v <= 0xFFFF
    ensures ChecksumOf(Stored(data, k, v)) == 0 <==> v == ChecksumOf(data) || (v == 0xFFFF && ChecksumOf(data) == 0)
  {
    hide Folded, Stored;
    StoredSum(data, k, v);
    ChecksumCompletes(WordSum(data), v);
  }

  /** `checksum`: sum the words, fold the carries, complement. */
  method Checksum(data: seq<Byte>) returns (r: nat)
    requires WordSum(data) < U32_LIMIT
    ensures r == ChecksumOf(data)
  {
    hide Folded;
    var sum, i := 0, 0;
    assert data[0..] == data;
    while i + 1 < |data|
      invariant 0 <= i <= |data| && 0 <= sum < U32_LIMIT && sum + WordSum(data[i..]) == WordSum(data)
    {
      assert data[i..][2..] == data[i + 2..];
      sum := sum + Be16(data[i], data[i + 1]);
      i := i + 2;
    }
    if i < |data| {
      sum := sum + Be16(data[i], 0);
    }
    while sum / 0x10000 != 0
      invariant 0 <= sum && Folded(sum) == Folded(WordSum(data))
      decreases sum
    {
      FoldStep(sum);
      sum := sum % 0x10000 + sum / 0x10000;
    }
    FoldedSmall(sum);
    r := 0xFFFF - sum;
  }

  lemma FoldedSmall(sum: nat)
    requires sum < 0x10000
    ensures Folded(sum) == sum
  {
  }

  // ---------------------------------------------------------------- the header

  datatype Header = Header(src: seq<Byte>, dst: seq<Byte>, protocol: Byte, ttl: Byte, totalLen: nat, headerLen: nat)

  /** The header of `build` before the checksum is stored; the total length is cut to 16 bits. */
  function Blank(src: seq<Byte>, dst: seq<Byte>, protocol: Byte, total: nat): (h: seq<Byte>)
    requires |src| == 4 && |dst| == 4
    ensures |h| == 20 && h[10] == 0 && h[11] == 0
  {
    [0x45, 0, total / 256 % 256, total % 256] + ([0, 0, 0x40, 0] + ([64, protocol, 0, 0] + (src + dst)))
  }

  function Built(src: seq<Byte>, dst: seq<Byte>, protocol: Byte, total: nat): (h: seq<Byte>)
    requires |src| == 4 && |dst| == 4
    ensures |h| == 20
  {
    var blank := Blank(src, dst, protocol, total);
    Stored(blank, 10, ChecksumOf(blank))
  }

  /** The header that `build` writes checks to zero. */
  lemma BuiltVerifies(src: seq<Byte>, dst: seq<Byte>, protocol: Byte, total: nat)
    requires |src| == 4 && |dst| == 4
    ensures ChecksumOf(Built(src, dst, protocol, total)) == 0
  {
    var blank := Blank(src, dst, protocol, total);
    hide ChecksumOf, Blank;
    VerifiesExactlyWhen(blank, 10, ChecksumOf(blank));
  }

  /** `build`: header and payload into the buffer; bytes behind them stay. */
  method Build(src: seq<Byte>, dst: seq<Byte>, protocol: Byte, payload: seq<Byte>, out: array<Byte>)
    returns (total: nat)
    requires |src| == 4 && |dst| == 4 && 20 + |payload| <= out.Length
    modifies out
    ensures total == 20 + |payload| && out[..20] == Built(src, dst, protocol, total) && ChecksumOf(out[..20]) == 0
    ensures out[20..total] == payload && out[total..] == old(out[total..])
  {
    total := 20 + |payload|;
    ghost var blank := Blank(src, dst, protocol, total);
    FillBlank(src, dst, protocol, total, out);
    ShortEnough(out[..20]);
    var csum := Checksum(out[..20]);
    hide ChecksumOf;
    ghost var was := out[..];
    out[10] := csum / 256;
    out[11] := csum % 256;
    assert out[..20] == Stored(blank, 10, csum) && out[20..] == was[20..];
    BuiltVerifies(src, dst, protocol, total);
    hide Stored, Blank, Built;
    CopyInto(out, 20, payload);
    assert out[..20] == out[..total][..20] && out[20..total] == out[..total][20..];
  }

  method FillBlank(src: seq<Byte>, dst: seq<Byte>, protocol: Byte, total: nat, out: array<Byte>)
    requires |src| == 4 && |dst| == 4 && 20 <= out.Length
    modifies out
    ensures out[..20] == Blank(src, dst, protocol, total) && out[20..] == old(out[20..])
  {
    CopyInto(out, 0, [0x45, 0, total / 256 % 256, total % 256]);
    CopyInto(out, 4, [0, 0, 0x40, 0]);
    CopyInto(out, 8, [64, protocol, 0, 0]);
    CopyInto(out, 12, src);
    CopyInto(out, 16, dst);
    assert out[..20] == [0x45, 0, total / 256 % 256, total % 256] + [0, 0, 0x40, 0] + [64, protocol, 0, 0] + src + dst;
  }

  /** Bytes copied behind the first `at`; later bytes stay. */
  method CopyInto(out: array<Byte>, at: nat, bytes: seq<Byte>)
    requires at + |bytes| <= out.Length
    modifies out
    ensures out[..at + |bytes|] == old(out[..at]) + bytes
    ensures forall i :: at + |bytes| <= i < out.Length ==> out[i] == old(out[i])
  {
    forall i | 0 <= i < |bytes| {
      out[at + i] := bytes[i];
    }
  }

  /** Header length in bytes, from the low half of the first byte. */
  function HeaderLen(verIhl: Byte): nat {
    var v: nat := verIhl;
    v % 16 * 4
  }

  /** `parse`: a non-zero checksum field must equal the checksum of the header with the field still in it. */
  function Parse(data: seq<Byte>): Option<Header> {
    if |data| < 20 || data[0] / 16 != 4 then None else
      var ihl := HeaderLen(data[0]);
      if |data| < ihl then None else
        var csum := Be16(data[10], data[11]);
        if csum != 0 && ChecksumOf(data[..ihl]) != csum then None
        else Some(Header(data[12..16], data[16..20], data[9], data[8], Be16(data[2], data[3]), ihl))
  }

  /** A header that verifies is accepted exactly when its checksum field is zero. */
  lemma ParseOfValidExactlyWhen(data: seq<Byte>)
    requires |data| >= 20 && data[0] / 16 == 4 && |data| >= HeaderLen(data[0])
             && ChecksumOf(data[..HeaderLen(data[0])]) == 0
    ensures Parse(data).Some? <==> data[10] == 0 && data[11] == 0
  {
  }

  /** Parsing what was built: it succeeds, with the values put in, exactly when the header's word sum without checksum
    * is a multiple of 65535. */
  lemma ParseOfBuiltExactlyWhen(src: seq<Byte>, dst: seq<Byte>, protocol: Byte, payload: seq<Byte>)
    requires |src| == 4 && |dst| == 4
    ensures var total := 20 + |payload|;
            var packet := Built(src, dst, protocol, total) + payload;
            && (Parse(packet).Some? <==> HeaderSum(src, dst, protocol, total) % 0xFFFF == 0)
            && (Parse(packet).Some? ==> Parse(packet).value == Header(src, dst, protocol, 64, total % 0x10000, 20))
  {
    var total := 20 + |payload|;
    var header := Built(src, dst, protocol, total);
    var packet := header + payload;
    BuiltVerifies(src, dst, protocol, total);
    BuiltFields(src, dst, protocol, total);
    StoredZeroExactlyWhen(src, dst, protocol, total);
    hide Blank, Built, ChecksumOf, WordSum, HeaderSum;
    assert packet[..20] == header && packet[12..16] == header[12..16] && packet[16..20] == header[16..20];
    assert HeaderLen(packet[0]) == 20;
    ParseOfValidExactlyWhen(packet);
  }

  lemma BuiltFields(src: seq<Byte>, dst: seq<Byte>, protocol: Byte, total: nat)
    requires |src| == 4 && |dst| == 4
    ensures var h := Built(src, dst, protocol, total);
            && h[0] == 0x45 && Be16(h[2], h[3]) == total % 0x10000 && h[8] == 64 && h[9] == protocol
            && h[12..16] == src && h[16..20] == dst
  {
    hide ChecksumOf;
  }

  lemma StoredZeroExactlyWhen(src: seq<Byte>, dst: seq<Byte>, protocol: Byte, total: nat)
    requires |src| == 4 && |dst| == 4
    ensures var h := Built(src, dst, protocol, total);
            h[10] == 0 && h[11] == 0 <==> HeaderSum(src, dst, protocol, total) % 0xFFFF == 0
  {
    var blank := Blank(src, dst, protocol, total);
    BlankSum(src, dst, protocol, total);
    hide WordSum, Blank;
    FoldedAllOnes(WordSum(blank));
  }

  lemma FoldedAllOnes(sum: nat)
    requires sum > 0
    ensures Folded(sum) == 0xFFFF <==> sum % 0xFFFF == 0
  {
  }

  lemma {:induction false} WordSumSplit(a: seq<Byte>, b: seq<Byte>)
    requires |a| % 2 == 0
    ensures WordSum(a + b) == WordSum(a) + WordSum(b)
  {
    if a == [] {
      assert a + b == b;
    } else {
      WordSumSplit(a[2..], b);
      assert (a + b)[2..] == a[2..] + b;
    }
  }

  lemma FourBytes(q: seq<Byte>)
    requires |q| == 4
    ensures WordSum(q) == Be16(q[0], q[1]) + Be16(q[2], q[3])
  {
    assert WordSum(q[2..][2..]) == 0;
  }

  /** The word sum of a header without checksum, from the values put in. */
  function HeaderSum(src: seq<Byte>, dst: seq<Byte>, protocol: Byte, total: nat): nat
    requires |src| == 4 && |dst| == 4
  {
    0x4500 + total % 0x10000 + 0x4000 + Be16(64, protocol)
    + Be16(src[0], src[1]) + Be16(src[2], src[3]) + Be16(dst[0], dst[1]) + Be16(dst[2], dst[3])
  }

  lemma BlankSum(src: seq<Byte>, dst: seq<Byte>, protocol: Byte, total: nat)
    requires |src| == 4 && |dst| == 4
    ensures WordSum(Blank(src, dst, protocol, total)) == HeaderSum(src, dst, protocol, total)
  {
    hide WordSum;
    var a: seq<Byte> := [0x45, 0, total / 256 % 256, total % 256];
    var b: seq<Byte>, c: seq<Byte> := [0, 0, 0x40, 0], [64, protocol, 0, 0];
    TotalWord(total);
    FourBytes(a);
    FourBytes(b);
    FourBytes(c);
    FourBytes(src);
    FourBytes(dst);
    var words := WordSum(a) + WordSum(b) + WordSum(c) + WordSum(src) + WordSum(dst);
    assert words == HeaderSum(src, dst, protocol, total);
    hide HeaderSum, Be16;
    WordSumSplit(a, b + (c + (src + dst)));
    WordSumSplit(b, c + (src + dst));
    WordSumSplit(c, src + dst);
    WordSumSplit(src, dst);
  }

  lemma TotalWord(total: nat)
    ensures Be16(total / 256 % 256, total % 256) == total % 0x10000
  {
  }

  /** A datagram from 10.0.0.1 to 10.0.0.2 that does not parse. */
  lemma ParseRejectsBuiltExample()
    ensures Parse(Built([10, 0, 0, 1], [10, 0, 0, 2], 17, 20) + []).None?
  {
    hide Parse, Built;
    assert HeaderSum([10, 0, 0, 1], [10, 0, 0, 2], 17, 20) == 55592;
    hide HeaderSum;
    ParseOfBuiltExactlyWhen([10, 0, 0, 1], [10, 0, 0, 2], 17, []);
  }
}
