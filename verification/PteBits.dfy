/** Page-table entries as 64-bit words, bit by bit: frame address and flag bits never disturb each other. */
module PteBits {
  import opened FrameBitmaps
  import opened Radix

  /** The bit number of each flag. */
  function BitOf(f: Flag): (i: nat)
    ensures i < WORD_BITS && !(12 <= i < 52)
  {
    match f
    case Present => 0
    case Writable => 1
    case User => 2
    case WriteThrough => 3
    case NoCache => 4
    case Accessed => 5
    case Dirty => 6
    case Huge => 7
    case Global => 8
    case Cow => 9
    case SoftwareDemand => 10
    case SoftwareFile => 11
    case NoExecute => 63
  }

  lemma OwnBit(f: Flag, g: Flag)
    requires BitOf(f) == BitOf(g)
    ensures f == g
  {
  }

  /** Bit `i` of `flags.bits()`. */
  predicate FlagBit(flags: set<Flag>, i: nat) {
    exists f :: f in flags && BitOf(f) == i
  }

  function FlagWord(flags: set<Flag>): Word {
    seq(WORD_BITS, i requires 0 <= i < WORD_BITS => FlagBit(flags, i))
  }

  function Or(a: Word, b: Word): Word {
    seq(WORD_BITS, i requires 0 <= i < WORD_BITS => a[i] || b[i])
  }

  /** `value & 0x000F_FFFF_FFFF_F000`: bits 12 to 51. */
  function AddressBits(w: Word): Word {
    seq(WORD_BITS, i requires 0 <= i < WORD_BITS => 12 <= i < 52 && w[i])
  }

  /** `PageFlags::from_bits_truncate`. */
  function FlagsOf(w: Word): set<Flag> {
    set f: Flag | w[BitOf(f)]
  }

  predicate IsZero(w: Word) {
    forall i :: 0 <= i < WORD_BITS ==> !w[i]
  }

  /**
   * Reading back an entry written as `phys | flags.bits()` recovers both parts, for every page-aligned
   * physical address; the word is zero only for frame 0 without flags.
   */
  lemma EntryRoundTrip(phys: Word, flags: set<Flag>)
    requires AddressBits(phys) == phys
    ensures AddressBits(Or(phys, FlagWord(flags))) == phys
    ensures FlagsOf(Or(phys, FlagWord(flags))) == flags
    ensures IsZero(Or(phys, FlagWord(flags))) <==> IsZero(phys) && flags == {}
  {
    var word := Or(phys, FlagWord(flags));
    forall i | 0 <= i < WORD_BITS
      ensures phys[i] ==> 12 <= i < 52
    {
      assert AddressBits(phys)[i] == (12 <= i < 52 && phys[i]);
    }
    forall f: Flag
      ensures word[BitOf(f)] <==> f in flags
    {
      if f in flags {
        assert FlagBit(flags, BitOf(f));
      } else if FlagBit(flags, BitOf(f)) {
        var g :| g in flags && BitOf(g) == BitOf(f);
        OwnBit(f, g);
      }
    }
    if flags != {} {
      var f :| f in flags;
      assert word[BitOf(f)];
    }
    assert forall i :: 0 <= i < WORD_BITS && phys[i] ==> word[i];
  }
}
