/** Bitmaps of machine words: searches and masked word loops, proved against
    the bits they stand for. */
module Bitmap {
  import opened Multiples
  import opened Bits

  /** test_bit */
  predicate TestBit(words: seq<Word>, i: nat)
    requires i < 64 * |words|
  {
    words[i / 64][i % 64]
  }

  /** No bit in [from, to) equals v. */
  ghost predicate NoneIn(words: seq<Word>, from: nat, to: nat, v: bool)
    requires to <= 64 * |words|
  {
    forall i | from <= i < to :: TestBit(words, i) != v
  }

  /** r is the least bit number in [offset, size) whose bit equals v, or size
      if there is none. */
  ghost predicate IsNext(words: seq<Word>, size: nat, offset: nat, v: bool, r: nat)
    requires size <= 64 * |words|
  {
    r <= size && NoneIn(words, offset, r, v) && (r < size ==> offset <= r && TestBit(words, r) == v)
  }

  lemma BitOfWord(words: seq<Word>, k: nat, b: nat)
    requires k < |words| && b < 64
    ensures TestBit(words, 64 * k + b) == words[k][b]
  {
  }

  lemma NoneInWord(words: seq<Word>, k: nat, lo: nat, hi: nat, v: bool)
    requires k < |words| && lo <= hi <= 64
    requires forall b | lo <= b < hi :: words[k][b] != v
    ensures NoneIn(words, 64 * k + lo, 64 * k + hi, v)
  {
    forall i | 64 * k + lo <= i < 64 * k + hi ensures TestBit(words, i) != v {
      BitOfWord(words, k, i - 64 * k);
    }
  }

  // ------------------------------------------------------------- searching

  /** Label found_middle of find_next_bit: the answer is in word p, of which
      tmp keeps the bits in [from, to) and has one set. */
  method FoundMiddle(ghost words: seq<Word>, p: nat, tmp: Word, ghost from: nat, ghost to: nat) returns (r: nat)
    requires p < |words| && from <= to <= 64 && tmp != ZERO
    requires forall b | 0 <= b < 64 :: tmp[b] == (words[p][b] && from <= b < to)
    ensures 64 * p + from <= r < 64 * p + to && NoneIn(words, 64 * p + from, r, true) && TestBit(words, r)
  {
    var f := Ffsl(tmp);
    NoneInWord(words, p, from, f, true);
    BitOfWord(words, p, f);
    r := 64 * p + f;
  }

  /** Label found_first: word p is the last one, with `left` bits. */
  method FoundFirst(ghost words: seq<Word>, p: nat, word: Word, ghost from: nat, left: nat) returns (r: nat)
    requires p < |words| && from <= left <= 64 && left > 0
    requires forall b | 0 <= b < 64 :: word[b] == (words[p][b] && from <= b)
    ensures 64 * p + from <= r <= 64 * p + left && NoneIn(words, 64 * p + from, r, true)
    ensures r < 64 * p + left ==> TestBit(words, r)
  {
    var tmp := And(word, LowOnes(left));
    assert forall b | 0 <= b < 64 :: tmp[b] == (word[b] && b < left);
    if tmp == ZERO {
      NoneInWord(words, p, from, left, true);
      return 64 * p + left;
    }
    r := FoundMiddle(words, p, tmp, from, left);
  }

  /** find_next_bit */
  method FindNextBit(addr: array<Word>, size: nat, offset: nat) returns (r: nat)
    requires size <= 64 * addr.Length
    ensures IsNext(addr[..], size, offset, true, r)
  {
    if offset >= size {
      return size;
    }
    ghost var words := addr[..];
    var p := offset / 64;
    var left := size - 64 * p;
    var off := offset % 64;
    var tmp: Word := ZERO;
    if off != 0 {
      tmp := And(addr[p], Shl(ONES, off));
      if left < 64 {
        r := FoundFirst(words, p, tmp, off, left);
        return r;
      }
      if tmp != ZERO {
        r := FoundMiddle(words, p, tmp, off, 64);
        return r;
      }
      NoneInWord(words, p, off, 64, true) by { forall b | off <= b < 64 ensures !words[p][b] { assert !tmp[b]; } }
      p, left := p + 1, left - 64;
    }
    while left >= 64
      invariant left == size - 64 * p && offset <= 64 * p <= size && NoneIn(words, offset, 64 * p, true)
    {
      tmp := addr[p];
      if tmp != ZERO {
        r := FoundMiddle(words, p, tmp, 0, 64);
        return r;
      }
      NoneInWord(words, p, 0, 64, true);
      p, left := p + 1, left - 64;
    }
    if left == 0 {
      return 64 * p;
    }
    tmp := addr[p];
    r := FoundFirst(words, p, tmp, 0, left);
  }

  /** Label found_middle of find_next_zero_bit: tmp is word p with ones outside
      [from, to), and has a clear bit. */
  method FoundMiddleZero(ghost words: seq<Word>, p: nat, tmp: Word, ghost from: nat, ghost to: nat) returns (r: nat)
    requires p < |words| && from <= to <= 64 && tmp != ONES
    requires forall b | 0 <= b < 64 :: tmp[b] == (words[p][b] || !(from <= b < to))
    ensures 64 * p + from <= r < 64 * p + to && NoneIn(words, 64 * p + from, r, false) && !TestBit(words, r)
  {
    var f := Ffz(tmp);
    NoneInWord(words, p, from, f, false);
    BitOfWord(words, p, f);
    r := 64 * p + f;
  }

  /** Label found_first of find_next_zero_bit. */
  method FoundFirstZero(ghost words: seq<Word>, p: nat, word: Word, ghost from: nat, left: nat) returns (r: nat)
    requires p < |words| && from <= left < 64
    requires forall b | 0 <= b < 64 :: word[b] == (words[p][b] || b < from)
    ensures 64 * p + from <= r <= 64 * p + left && NoneIn(words, 64 * p + from, r, false)
    ensures r < 64 * p + left ==> !TestBit(words, r)
  {
    var tmp := Or(word, Shl(ONES, left));
    assert forall b | 0 <= b < 64 :: tmp[b] == (word[b] || left <= b);
    if tmp == ONES {
      NoneInWord(words, p, from, left, false);
      return 64 * p + left;
    }
    r := FoundMiddleZero(words, p, tmp, from, left);
  }

  /** find_next_zero_bit */
  method FindNextZeroBit(addr: array<Word>, size: nat, offset: nat) returns (r: nat)
    requires size <= 64 * addr.Length
    ensures IsNext(addr[..], size, offset, false, r)
  {
    if offset >= size {
      return size;
    }
    ghost var words := addr[..];
    var p := offset / 64;
    var left := size - 64 * p;
    var off := offset % 64;
    var tmp: Word := ZERO;
    if off != 0 {
      tmp := Or(addr[p], LowOnes(off));
      if left < 64 {
        r := FoundFirstZero(words, p, tmp, off, left);
        return r;
      }
      if tmp != ONES {
        r := FoundMiddleZero(words, p, tmp, off, 64);
        return r;
      }
      NoneInWord(words, p, off, 64, false) by { forall b | off <= b < 64 ensures words[p][b] { assert tmp[b]; } }
      p, left := p + 1, left - 64;
    }
    while left >= 64
      invariant left == size - 64 * p && offset <= 64 * p <= size && NoneIn(words, offset, 64 * p, false)
    {
      tmp := addr[p];
      if tmp != ONES {
        r := FoundMiddleZero(words, p, tmp, 0, 64);
        return r;
      }
      NoneInWord(words, p, 0, 64, false);
      p, left := p + 1, left - 64;
    }
    if left == 0 {
      return 64 * p;
    }
    tmp := addr[p];
    r := FoundFirstZero(words, p, tmp, 0, left);
  }

  /** find_last_bit: the greatest set bit below size, or size if there is none. */
  method FindLastBit(addr: array<Word>, size: nat) returns (r: nat)
    requires size <= 64 * addr.Length
    ensures r <= size && (r < size ==> TestBit(addr[..], r) && NoneIn(addr[..], r + 1, size, true))
    ensures r == size ==> NoneIn(addr[..], 0, size, true)
  {
    ghost var words := addr[..];
    var k: nat := size / 64;
    if size % 64 != 0 {
      var tmp := And(addr[k], LowOnes(size % 64));
      assert forall b | 0 <= b < 64 :: tmp[b] == (words[k][b] && b < size % 64);
      if tmp != ZERO {
        var f := Flsl(tmp);
        NoneInWord(words, k, f + 1, size % 64, true);
        BitOfWord(words, k, f);
        return 64 * k + f;
      }
      NoneInWord(words, k, 0, size % 64, true);
    }
    while k > 0
      invariant 64 * k <= size && NoneIn(words, 64 * k, size, true)
    {
      k := k - 1;
      if addr[k] != ZERO {
        var f := Flsl(addr[k]);
        NoneInWord(words, k, f + 1, 64, true);
        BitOfWord(words, k, f);
        return 64 * k + f;
      }
      NoneInWord(words, k, 0, 64, true);
    }
    return size;
  }

  // ------------------------------------------------- setting and clearing

  /** `now` differs from `was` exactly in that the bits in [from, to) equal v. */
  ghost predicate Assigned(was: seq<Word>, now: seq<Word>, from: nat, to: nat, v: bool) {
    && |now| == |was|
    && forall i | 0 <= i < 64 * |was| :: TestBit(now, i) == if from <= i < to then v else TestBit(was, i)
  }

  /** Replacing word k by one that has v in [lo, hi) extends the range. */
  lemma AssignedWord(was: seq<Word>, now: seq<Word>, from: nat, k: nat, lo: nat, hi: nat, v: bool, w: Word)
    requires k < |was| && lo < hi <= 64 && from <= 64 * k + lo && (lo == 0 || from == 64 * k + lo)
    requires Assigned(was, now, from, 64 * k + lo, v)
    requires forall b | 0 <= b < 64 :: w[b] == if lo <= b < hi then v else now[k][b]
    ensures Assigned(was, now[k := w], from, 64 * k + hi, v)
  {
    var now' := now[k := w];
    forall i | 0 <= i < 64 * |was|
      ensures TestBit(now', i) == if from <= i < 64 * k + hi then v else TestBit(was, i)
    {
      var b := i % 64;
      if i / 64 == k {
        assert i == 64 * k + b && TestBit(now', i) == w[b] && TestBit(now, i) == now[k][b];
      } else {
        assert TestBit(now', i) == TestBit(now, i);
      }
    }
  }

  /** *p |= mask or *p &= ~mask, for a mask that covers [lo, hi) of the word. */
  method AssignMasked(words: array<Word>, p: nat, mask: Word, v: bool,
                      ghost was: seq<Word>, ghost from: nat, ghost lo: nat, ghost hi: nat)
    requires p < words.Length && |was| == words.Length && lo < hi <= 64
    requires from <= 64 * p + lo && (lo == 0 || from == 64 * p + lo)
    requires Assigned(was, words[..], from, 64 * p + lo, v)
    requires forall b | 0 <= b < 64 :: mask[b] == (lo <= b < hi)
    modifies words
    ensures Assigned(was, words[..], from, 64 * p + hi, v)
  {
    var w: Word := if v then Or(words[p], mask) else And(words[p], Not(mask));
    AssignedWord(was, words[..], from, p, lo, hi, v, w);
    ghost var before: seq<Word> := words[..];
    words[p] := w;
    assert words[..] == before[p := w];
  }

  /** bitmap_set and bitmap_clear differ in v only: the first, the full and the
      last words are combined with their masks. */
  method AssignRange(words: array<Word>, start: nat, nr: nat, v: bool)
    requires start + nr <= 64 * words.Length
    modifies words
    ensures Assigned(old(words[..]), words[..], start, start + nr, v)
  {
    ghost var was := words[..];
    var p, left := start / 64, nr;
    var bits := 64 - start % 64;
    var mask := Shl(ONES, start % 64);
    while left >= bits
      invariant left >= 0 && 0 < bits <= 64 && start + nr == 64 * p + 64 - bits + left && p <= words.Length
      invariant start <= 64 * p + 64 - bits && (bits == 64 || 64 * p + 64 - bits == start)
      invariant forall b | 0 <= b < 64 :: mask[b] == (64 - bits <= b)
      invariant Assigned(was, words[..], start, 64 * p + 64 - bits, v)
    {
      AssignMasked(words, p, mask, v, was, start, 64 - bits, 64);
      left, bits, mask, p := left - bits, 64, ONES, p + 1;
    }
    if left != 0 {
      LastMask(p, 64 - bits + left, LastWordMask(start + nr));
      mask := And(mask, LastWordMask(start + nr));
      AssignMasked(words, p, mask, v, was, start, 64 - bits, 64 - bits + left);
    }
  }

  lemma LastMask(p: nat, n: nat, mask: Word)
    requires 0 < n < 64 && mask == LastWordMask(64 * p + n)
    ensures forall b | 0 <= b < 64 :: mask[b] == (b < n)
  {
    assert (64 * p + n) % 64 == n;
  }

  /** bitmap_set */
  method BitmapSet(words: array<Word>, start: nat, nr: nat)
    requires start + nr <= 64 * words.Length
    modifies words
    ensures Assigned(old(words[..]), words[..], start, start + nr, true)
  {
    AssignRange(words, start, nr, true);
  }

  /** bitmap_clear */
  method BitmapClear(words: array<Word>, start: nat, nr: nat)
    requires start + nr <= 64 * words.Length
    modifies words
    ensures Assigned(old(words[..]), words[..], start, start + nr, false)
  {
    AssignRange(words, start, nr, false);
  }

  /** BITMAP_LAST_WORD_MASK */
  function LastWordMask(nbits: nat): Word {
    if nbits % 64 != 0 then LowOnes(nbits % 64) else ONES
  }

  // ------------------------------------------------------ the area search

  /** a & ~b */
  function AndNot(a: nat, b: nat): nat {
    if a == 0 then 0 else 2 * AndNot(a / 2, b / 2) + (if a % 2 == 1 && b % 2 == 0 then 1 else 0)
  }

  /** ALIGN_MASK */
  function AlignMask(x: nat, mask: nat): nat { AndNot(x + mask, mask) }

  /** A power of two. */
  ghost predicate PowerOfTwo(n: nat)
    decreases n
  {
    n == 1 || (n > 1 && n % 2 == 0 && PowerOfTwo(n / 2))
  }

  lemma {:induction false} AndNotZero(a: nat)
    ensures AndNot(a, 0) == a
  {
    if a != 0 { AndNotZero(a / 2); }
  }

  lemma HalfDiv(a: nat, p: nat)
    requires p > 0
    ensures a / 2 / p == a / (2 * p)
  {
    var q, h := a / (2 * p), a / 2;
    assert q * (2 * p) <= a < q * (2 * p) + 2 * p;
    assert q * (2 * p) == 2 * (q * p);
    assert q * p <= h < q * p + p;
    var d := h / p;
    assert d * p <= h < d * p + p;
    assert (d + 1) * p == d * p + p && (q + 1) * p == q * p + p;
    MulOrder(d, q + 1, p);
    MulOrder(q, d + 1, p);
  }

  lemma DoubleRounds(a: nat, p: nat)
    requires p > 0
    ensures 2 * AlignDown(a / 2, p) == AlignDown(a, 2 * p)
  {
    HalfDiv(a, p);
    var q := a / 2 / p;
    assert 2 * (q * p) == q * (2 * p);
  }

  /** Clearing the bits of a mask below a power of two rounds down to its multiples. */
  lemma {:induction false} AndNotRounds(a: nat, mask: nat)
    requires PowerOfTwo(mask + 1)
    ensures AndNot(a, mask) == AlignDown(a, mask + 1)
    decreases mask
  {
    if mask == 0 {
      AndNotZero(a);
    } else {
      var p := (mask + 1) / 2;
      assert mask % 2 == 1 && mask / 2 == p - 1 && AndNot(a, mask) == 2 * AndNot(a / 2, p - 1);
      AndNotRounds(a / 2, p - 1);
      DoubleRounds(a, p);
    }
  }

  /** The mask arithmetic rounds up to a multiple. */
  lemma AlignMaskRounds(x: nat, mask: nat)
    requires PowerOfTwo(mask + 1)
    ensures AlignMask(x, mask) == AlignUp(x, mask + 1)
  {
    AndNotRounds(x + mask, mask);
  }

  predicate Multiple(i: nat, c: nat)
    requires c > 0
  {
    i / c * c == i
  }

  /** An aligned index whose nr bits are all clear and inside the bitmap. */
  ghost predicate IsArea(words: seq<Word>, size: nat, nr: nat, alignMask: nat, i: nat)
    requires size <= 64 * |words|
  {
    Multiple(i, alignMask + 1) && i + nr <= size && NoneIn(words, i, i + nr, true)
  }

  lemma MultipleDiv(m: nat, c: nat)
    requires c > 0
    ensures Multiple(m * c, c)
  {
    var d := m * c / c;
    assert (d + 1) * c == d * c + c && (m + 1) * c == m * c + c;
    MulOrder(m, d + 1, c);
    MulOrder(d, m + 1, c);
  }

  lemma LeastMultiple(x: nat, m: nat, k: nat, c: nat)
    requires c > 0 && m * c < x + c && x <= k * c
    ensures m * c <= k * c
  {
    assert (k + 1) * c == k * c + c;
    MulOrder(m, k + 1, c);
    MulMonotone(m, k, c);
  }

  lemma MulMonotone(m: nat, k: nat, c: nat)
    requires m <= k
    ensures m * c <= k * c
  {
    assert (k - m) * c >= 0;
  }

  /** AlignUp gives the least multiple at or above x. */
  lemma AlignUpLeast(x: nat, c: nat, i: nat)
    requires c > 0 && x <= i && Multiple(i, c)
    ensures AlignUp(x, c) <= i
  {
    LeastMultiple(x, (x + c - 1) / c, i / c, c);
  }

  /** bitmap_find_next_zero_area: the least area at or after start if there is
      one, and otherwise an index above size. */
  method FindNextZeroArea(addr: array<Word>, size: nat, start: nat, nr: nat, alignMask: nat) returns (r: nat)
    requires size <= 64 * addr.Length && PowerOfTwo(alignMask + 1)
    ensures r <= size ==> IsArea(addr[..], size, nr, alignMask, r) && (nr > 0 ==> start <= r)
    ensures nr > 0 ==> forall i: nat :: start <= i && IsArea(addr[..], size, nr, alignMask, i) ==> r <= i
  {
    hide AlignMask;
    ghost var words, align := addr[..], alignMask + 1;
    var from := start;
    while true
      invariant start <= from
      invariant nr > 0 ==> forall i: nat | start <= i < from :: !IsArea(words, size, nr, alignMask, i)
      decreases size - from
    {
      var zero := FindNextZeroBit(addr, size, from);
      var index := AlignMask(zero, alignMask);
      AlignMaskRounds(zero, alignMask);
      forall i: nat | nr > 0 && start <= i < index ensures !IsArea(words, size, nr, alignMask, i) {
        if zero <= i && Multiple(i, align) { AlignUpLeast(zero, align, i); }
        if from <= i < zero { assert TestBit(words, i); }
      }
      var end := index + nr;
      if end > size {
        return end;
      }
      MultipleDiv((zero + align - 1) / align, align);
      var i := FindNextBit(addr, end, index);
      if i >= end {
        return index;
      }
      from := i + 1;
    }
  }
}
