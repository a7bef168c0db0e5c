/** The dense frame bitmap: a set bit is an allocated frame, a clear bit a free one. */
module FrameBitmaps {
  import opened Layout

  const WORD_BITS: nat := 64

  /** A 64-bit word as its bits, least significant first. */
  type Word = w: seq<bool> | |w| == WORD_BITS witness seq(WORD_BITS, _ => false)

  /** All bits of an array of words, in frame order. */
  ghost function Bits(words: seq<Word>): (bits: seq<bool>)
    ensures |bits| == WORD_BITS * |words|
  {
    seq(WORD_BITS * |words|, f requires 0 <= f < WORD_BITS * |words| => words[f / WORD_BITS][f % WORD_BITS])
  }

  // ---------------------------------------------------------------- reference definitions

  /** `r` is the least clear bit in `from..limit`, or None when that range has none. */
  ghost predicate IsFirstFree(bits: seq<bool>, limit: nat, from: nat, r: Option<nat>)
    requires limit <= |bits|
  {
    match r
    case None => forall f :: from <= f < limit ==> bits[f]
    case Some(f) => from <= f < limit && !bits[f] && forall g :: from <= g < f ==> bits[g]
  }

  /** The number of clear bits in `bits`. */
  function CountClear(bits: seq<bool>): (n: nat)
    ensures n <= |bits|
  {
    if bits == [] then 0 else CountClear(bits[..|bits| - 1]) + if bits[|bits| - 1] then 0 else 1
  }

  lemma {:induction false} CountClearConcat(a: seq<bool>, b: seq<bool>)
    ensures CountClear(a + b) == CountClear(a) + CountClear(b)
  {
    if b == [] {
      assert a + b == a;
    } else {
      CountClearConcat(a, b[..|b| - 1]);
      assert (a + b)[..|a + b| - 1] == a + b[..|b| - 1];
    }
  }

  // ---------------------------------------------------------------- what the scan really finds

  /** The first frame of the word that holds `f`. */
  function WordStart(f: nat): nat {
    f / WORD_BITS * WORD_BITS
  }

  /** Bit `f` and every later bit of its word are clear: `word >> bit == 0`. */
  ghost predicate RestOfWordClear(bits: seq<bool>, f: nat) {
    forall g :: f <= g < WordStart(f) + WORD_BITS && g < |bits| ==> !bits[g]
  }

  /**
   * The scan from `start` can step back: its first free frame `first` lies in start's own word,
   * nothing after it in that word is used, and a frame before `start` in that word is free.
   */
  ghost predicate StepsBack(bits: seq<bool>, start: nat, first: nat)
  {
    && WordStart(first) == WordStart(start)
    && RestOfWordClear(bits, first)
    && exists g :: WordStart(start) <= g < start && g < |bits| && !bits[g]
  }

  /** The value `find_free_from` computes on these bits. */
  ghost predicate IsScanResult(bits: seq<bool>, limit: nat, start: nat, r: Option<nat>)
    requires limit <= |bits|
  {
    exists first: Option<nat> ::
      && IsFirstFree(bits, limit, start, first)
      && if first.Some? && StepsBack(bits, start, first.value)
         then IsFirstFree(bits, limit, WordStart(start), r)
         else r == first
  }

  /** `find_free_from` is the least free frame at or after `start` exactly when it does not step back. */
  lemma ScanExactlyWhen(bits: seq<bool>, limit: nat, start: nat, first: Option<nat>, r: Option<nat>)
    requires limit <= |bits|
    requires IsScanResult(bits, limit, start, r)
    requires IsFirstFree(bits, limit, start, first)
    ensures r == first <==> !(first.Some? && StepsBack(bits, start, first.value))
  {
    FirstFreeUnique(bits, limit, start);
    if first.Some? && StepsBack(bits, start, first.value) {
      assert IsFirstFree(bits, limit, WordStart(start), r);
      var g :| WordStart(start) <= g < start && g < |bits| && !bits[g];
      assert r != first;
    }
  }

  lemma FirstFreeUnique(bits: seq<bool>, limit: nat, from: nat)
    requires limit <= |bits|
    ensures forall a, b :: IsFirstFree(bits, limit, from, a) && IsFirstFree(bits, limit, from, b) ==> a == b
  {
    forall a: Option<nat>, b: Option<nat> | IsFirstFree(bits, limit, from, a) && IsFirstFree(bits, limit, from, b)
      ensures a == b
    {
      if a.Some? && b.Some? {
        assert !bits[a.value] && !bits[b.value];
      }
    }
  }

  /** A scan from a word boundary, `find_free` among them, never steps back. */
  lemma ScanFromBoundary(bits: seq<bool>, limit: nat, start: nat, r: Option<nat>)
    requires limit <= |bits| && start % WORD_BITS == 0
    ensures IsScanResult(bits, limit, start, r) <==> IsFirstFree(bits, limit, start, r)
  {
  }

  /** With frames 1.. of the first word free, a scan from 3 hands back frame 1. */
  lemma ScanStepsBackExample()
    ensures var bits := [true] + seq(63, _ => false);
            IsFirstFree(bits, 64, 3, Some(3)) && IsScanResult(bits, 64, 3, Some(1))
  {
    var bits := [true] + seq(63, _ => false);
    assert !bits[1] && !bits[3];
    assert IsFirstFree(bits, 64, 3, Some(3)) && StepsBack(bits, 3, 3);
    assert IsFirstFree(bits, 64, 0, Some(1));
  }

  // ---------------------------------------------------------------- the bitmap object

  class FrameBitmap {
    var words: array<Word>
    const frameCount: nat

    ghost predicate Valid()
      reads this, words
    {
      frameCount <= WORD_BITS * words.Length
    }

    ghost function Used(): (bits: seq<bool>)
      reads this, words
      ensures |bits| == WORD_BITS * words.Length
    {
      Bits(words[..])
    }

    constructor (wordCount: nat, frameCount: nat)
      requires frameCount <= WORD_BITS * wordCount
      ensures Valid() && fresh(words) && words.Length == wordCount && this.frameCount == frameCount
      ensures forall f :: 0 <= f < |Used()| ==> !Used()[f]
    {
      words := new Word[wordCount](_ => seq(WORD_BITS, _ => false));
      this.frameCount := frameCount;
    }

    method MarkAllUsed()
      requires Valid()
      modifies words
      ensures Valid() && |Used()| == old(|Used()|)
      ensures forall f :: 0 <= f < |Used()| ==> Used()[f]
    {
      for i := 0 to words.Length
        invariant forall k :: 0 <= k < i ==> words[k] == seq(WORD_BITS, _ => true)
      {
        words[i] := seq(WORD_BITS, _ => true);
      }
    }

    method Test(frame: nat) returns (used: bool)
      requires Valid() && frame < WORD_BITS * words.Length
      ensures used == Used()[frame]
    {
      used := words[frame / WORD_BITS][frame % WORD_BITS];
    }

    method IsFree(frame: nat) returns (free: bool)
      requires Valid()
      ensures free <==> frame < frameCount && !Used()[frame]
    {
      if frame >= frameCount {
        return false;
      }
      var used := Test(frame);
      free := !used;
    }

    method Set(frame: nat, used: bool)
      requires Valid() && frame < WORD_BITS * words.Length
      modifies words
      ensures Valid()
      ensures Used() == old(Used())[frame := used]
    {
      var i, bit := frame / WORD_BITS, frame % WORD_BITS;
      words[i] := words[i][bit := used];
      assert forall f :: 0 <= f < |Used()| && f != frame ==> f / WORD_BITS != i || f % WORD_BITS != bit;
      assert Used() == old(Used())[frame := used];
    }

    /** `(!word).trailing_zeros()`: the lowest clear bit, 64 when there is none. */
    method LowestClear(word: Word) returns (k: nat)
      ensures k <= WORD_BITS && (forall j :: 0 <= j < k ==> word[j]) && (k < WORD_BITS ==> !word[k])
    {
      k := 0;
      while k < WORD_BITS && word[k]
        invariant k <= WORD_BITS && forall j :: 0 <= j < k ==> word[j]
      {
        k := k + 1;
      }
    }

    /** `word >> bit == 0`. */
    method ShiftedIsZero(word: Word, bit: nat) returns (zero: bool)
      requires bit < WORD_BITS
      ensures zero <==> forall j :: bit <= j < WORD_BITS ==> !word[j]
    {
      var k := bit;
      while k < WORD_BITS && !word[k]
        invariant bit <= k <= WORD_BITS && forall j :: bit <= j < k ==> !word[j]
      {
        k := k + 1;
      }
      zero := k == WORD_BITS;
    }

    /** The whole-word test of one scan step: the lowest clear bit of a word whose rest is free. */
    method RestOfWordHit(frame: nat) returns (hit: Option<nat>)
      requires Valid() && frame < frameCount
      ensures hit.Some? <==> RestOfWordClear(Used(), frame)
      ensures hit.Some? ==> WordStart(frame) <= hit.value <= frame && !Used()[hit.value]
      ensures hit.Some? ==> forall f :: WordStart(frame) <= f < hit.value ==> Used()[f]
    {
      var i, bit := frame / WORD_BITS, frame % WORD_BITS;
      var word := words[i];
      WordBits(words[..], i);
      assert WordStart(frame) == i * WORD_BITS && frame == i * WORD_BITS + bit;
      var clear := ShiftedIsZero(word, bit);
      if clear {
        var trailing := LowestClear(word);
        assert !word[bit];
        hit := Some(frame + trailing - bit);
        WordRange(words[..], i);
      } else {
        hit := None;
        var j :| bit <= j < WORD_BITS && word[j];
        assert Used()[i * WORD_BITS + j];
      }
    }

    method FindFreeFrom(start: nat) returns (r: Option<nat>)
      requires Valid()
      ensures IsScanResult(Used(), frameCount, start, r)
    {
      r := None;
      if start >= frameCount {
        assert IsFirstFree(Used(), frameCount, start, None);
        return;
      }
      var frame := start;
      while frame < frameCount
        invariant start <= frame <= frameCount
        invariant forall f :: start <= f < frame ==> Used()[f]
      {
        var hit := RestOfWordHit(frame);
        if hit.Some? {
          ScanHit(Used(), frameCount, start, frame, hit.value);
          return hit;
        }
        var used := Test(frame);
        if !used {
          r := Some(frame);
          assert IsFirstFree(Used(), frameCount, start, r);
          return;
        }
        frame := frame + 1;
      }
      assert IsFirstFree(Used(), frameCount, start, None);
    }

    method FindFree() returns (r: Option<nat>)
      requires Valid()
      ensures IsFirstFree(Used(), frameCount, 0, r)
    {
      r := FindFreeFrom(0);
      ScanFromBoundary(Used(), frameCount, 0, r);
    }

    /** The zero bits of the first `full` words. */
    method CountFullWords(full: nat) returns (free: nat)
      requires Valid() && full <= words.Length
      ensures free == CountClear(Used()[..full * WORD_BITS])
    {
      free := 0;
      for i := 0 to full
        invariant free == CountClear(Used()[..i * WORD_BITS])
      {
        CountClearConcat(Used()[..i * WORD_BITS], words[i]);
        WordBits(words[..], i);
        assert Used()[..(i + 1) * WORD_BITS] == Used()[..i * WORD_BITS] + words[i];
        free := free + CountClear(words[i]);
      }
    }

    method CountFree() returns (free: nat)
      requires Valid()
      ensures free == CountFreeValue(Used(), frameCount)
    {
      var full := frameCount / WORD_BITS;
      free := CountFullWords(full);
      var tail := frameCount % WORD_BITS;
      if tail != 0 {
        // mask & !bits: the clear bits below `tail`; its count_zeros counts the other 64 - k bits.
        var last := words[full];
        var masked := seq(WORD_BITS, k requires 0 <= k < WORD_BITS => k < tail && !last[k]);
        WordBits(words[..], full);
        MaskedZeros(last, tail);
        assert Used()[full * WORD_BITS..frameCount] == last[..tail];
        free := free + CountClear(masked);
      }
    }
  }

  // ---------------------------------------------------------------- proofs behind the methods

  lemma WordBits(words: seq<Word>, i: nat)
    requires i < |words|
    ensures forall k :: 0 <= k < WORD_BITS ==> Bits(words)[i * WORD_BITS + k] == words[i][k]
    ensures Bits(words)[i * WORD_BITS..(i + 1) * WORD_BITS] == words[i]
  {
    forall k | 0 <= k < WORD_BITS
      ensures Bits(words)[i * WORD_BITS + k] == words[i][k]
    {
      assert (i * WORD_BITS + k) / WORD_BITS == i && (i * WORD_BITS + k) % WORD_BITS == k;
    }
  }

  lemma WordRange(words: seq<Word>, i: nat)
    requires i < |words|
    ensures forall f :: i * WORD_BITS <= f < (i + 1) * WORD_BITS ==> Bits(words)[f] == words[i][f - i * WORD_BITS]
  {
    forall f | i * WORD_BITS <= f < (i + 1) * WORD_BITS
      ensures Bits(words)[f] == words[i][f - i * WORD_BITS]
    {
      assert f / WORD_BITS == i && f % WORD_BITS == f - i * WORD_BITS;
    }
  }

  /** The fast path's candidate is the scan's result. */
  lemma ScanHit(bits: seq<bool>, limit: nat, start: nat, frame: nat, candidate: nat)
    requires |bits| % WORD_BITS == 0 && start <= frame < limit <= |bits|
    requires forall f :: start <= f < frame ==> bits[f]
    requires RestOfWordClear(bits, frame)
    requires WordStart(frame) <= candidate <= frame && !bits[candidate]
    requires forall f :: WordStart(frame) <= f < candidate ==> bits[f]
    ensures IsScanResult(bits, limit, start, Some(candidate))
  {
    var first := Some(frame);
    assert IsFirstFree(bits, limit, start, first);
    if StepsBack(bits, start, frame) {
      assert IsFirstFree(bits, limit, WordStart(start), Some(candidate));
    }
  }

  /** What `count_free` returns: its tail term counts the bits that are not free. */
  ghost function CountFreeValue(bits: seq<bool>, limit: nat): nat
    requires limit <= |bits|
  {
    var full := WordStart(limit);
    if limit % WORD_BITS == 0 then CountClear(bits[..limit])
    else CountClear(bits[..full]) + WORD_BITS - CountClear(bits[full..limit])
  }

  /** `count_free` is the number of free frames exactly when there is no partial word, or half of 64 are free in it. */
  lemma CountFreeExactlyWhen(bits: seq<bool>, limit: nat)
    requires limit <= |bits|
    ensures CountFreeValue(bits, limit) == CountClear(bits[..limit])
       <==> limit % WORD_BITS == 0 || CountClear(bits[WordStart(limit)..limit]) == WORD_BITS / 2
  {
    var full := WordStart(limit);
    assert bits[..limit] == bits[..full] + bits[full..limit];
    CountClearConcat(bits[..full], bits[full..limit]);
  }

  /** One frame, and it is free: `count_free` says 63. */
  lemma CountFreeExample()
    ensures var bits := seq(WORD_BITS, _ => false); CountClear(bits[..1]) == 1 && CountFreeValue(bits, 1) == 63
  {
    var bits := seq(WORD_BITS, _ => false);
    assert bits[..1] == [false] && bits[..0] == [] && bits[0..1] == [false];
    assert CountClear([false]) == 1;
  }

  lemma MaskedZeros(word: Word, tail: nat)
    requires tail <= WORD_BITS
    ensures CountClear(seq(WORD_BITS, k requires 0 <= k < WORD_BITS => k < tail && !word[k]))
         == WORD_BITS - CountClear(word[..tail])
  {
    MaskedZerosPrefix(word, tail, WORD_BITS);
    assert word[..tail][..tail] == word[..tail];
    var all := seq(WORD_BITS, k requires 0 <= k < WORD_BITS => k < tail && !word[k]);
    assert all[..WORD_BITS] == all;
  }

  lemma {:induction false} MaskedZerosPrefix(word: Word, tail: nat, n: nat)
    requires tail <= WORD_BITS && n <= WORD_BITS
    ensures CountClear(seq(WORD_BITS, k requires 0 <= k < WORD_BITS => k < tail && !word[k])[..n])
         == n - CountClear(word[..if n < tail then n else tail])
  {
    var all := seq(WORD_BITS, k requires 0 <= k < WORD_BITS => k < tail && !word[k]);
    if n > 0 {
      MaskedZerosPrefix(word, tail, n - 1);
      assert all[..n][..n - 1] == all[..n - 1];
      if n <= tail {
        assert word[..n][..n - 1] == word[..n - 1];
      }
    }
  }
}
