/** Machine words (unsigned long, 64 bits) as the sequence of their bits,
    least significant first, with the operators the bitmap code uses. */
module Bits {

  /** All bits alike. */
  function Uniform(b: bool): (w: seq<bool>)
    ensures |w| == 64 && forall i | 0 <= i < 64 :: w[i] == b
  {
    seq(64, _ => b)
  }

  type Word = w: seq<bool> | |w| == 64 witness Uniform(false)

  const ZERO: Word := Uniform(false)
  const ONES: Word := Uniform(true)

  function And(a: Word, b: Word): Word { seq(64, i requires 0 <= i < 64 => a[i] && b[i]) }

  function Or(a: Word, b: Word): Word { seq(64, i requires 0 <= i < 64 => a[i] || b[i]) }

  function Not(a: Word): Word { seq(64, i requires 0 <= i < 64 => !a[i]) }

  /** a << n */
  function Shl(a: Word, n: nat): Word
    requires n <= 64
  {
    seq(64, i requires 0 <= i < 64 => n <= i && a[i - n])
  }

  /** a >> n */
  function Shr(a: Word, n: nat): Word
    requires n <= 64
  {
    seq(64, i requires 0 <= i < 64 => i + n < 64 && a[i + n])
  }

  /** 1UL << n */
  function OneBit(n: nat): Word
    requires n < 64
  {
    seq(64, i => i == n)
  }

  /** The constant of d ones: 0xffffffff, 0xffff, ..., 0x1 */
  function LowOnes(d: nat): Word
    requires d <= 64
  {
    Shr(ONES, 64 - d)
  }

  lemma NonZeroBit(w: Word) returns (i: nat)
    requires w != ZERO
    ensures i < 64 && w[i]
  {
    assert (forall i | 0 <= i < 64 :: !w[i]) ==> w == ZERO;
    i :| i < 64 && w[i];
  }

  /** The first set bit of the word is bit num or one of the d - 1 that follow. */
  ghost predicate FirstWithin(word: Word, num: nat, d: nat) {
    num + d <= 64 && (forall i | 0 <= i < num :: !word[i]) && exists i :: num <= i < num + d && word[i]
  }

  /** One test of bitops_ffsl: `num` clear bits have been shifted out. */
  method Halve(ghost word: Word, num: nat, w: Word, d: nat) returns (num': nat, w': Word)
    requires FirstWithin(word, num, 2 * d) && w == Shr(word, num)
    ensures FirstWithin(word, num', d) && w' == Shr(word, num')
  {
    num', w' := num, w;
    ghost var masked := And(w, LowOnes(d));
    if And(w, LowOnes(d)) == ZERO {
      forall i | num <= i < num + d ensures !word[i] { assert masked[i - num] == w[i - num] == word[i]; }
      num', w' := num + d, Shr(w, d);
      assert w' == Shr(word, num');
    } else {
      var i := NonZeroBit(masked);
      assert word[num + i];
    }
  }

  /** bitops_ffsl: the number of the lowest set bit. */
  method Ffsl(word: Word) returns (r: nat)
    requires word != ZERO
    ensures r < 64 && word[r] && forall i | 0 <= i < r :: !word[i]
  {
    var num, w := HalveTo8(word);
    num, w := Halve(word, num, w, 4);
    num, w := Halve(word, num, w, 2);
    num, w := Halve(word, num, w, 1);
    r := num;
  }

  /** The first three tests of bitops_ffsl. */
  method HalveTo8(word: Word) returns (num: nat, w: Word)
    requires word != ZERO
    ensures FirstWithin(word, num, 8) && w == Shr(word, num)
  {
    assert Shr(word, 0) == word;
    var some := NonZeroBit(word);
    num, w := Halve(word, 0, word, 32);
    num, w := Halve(word, num, w, 16);
    num, w := Halve(word, num, w, 8);
  }

  /** ffz: the number of the lowest clear bit. */
  method Ffz(word: Word) returns (r: nat)
    requires word != ONES
    ensures r < 64 && !word[r] && forall i | 0 <= i < r :: word[i]
  {
    var inverse := Not(word);
    assert forall i | 0 <= i < 64 :: inverse[i] == !word[i];
    assert inverse == ZERO ==> word == ONES;
    r := Ffsl(inverse);
  }

  /** The last set bit of the word is bit num or one of the d - 1 below it. */
  ghost predicate LastWithin(word: Word, num: nat, d: nat) {
    num < 64 && d <= num + 1 && (forall i | num < i < 64 :: !word[i]) && exists i :: num - d < i <= num && word[i]
  }

  /** One test of bitops_flsl: 63 - num clear bits have been shifted out. */
  method HalveLast(ghost word: Word, num: nat, w: Word, d: nat) returns (num': nat, w': Word)
    requires LastWithin(word, num, 2 * d) && w == Shl(word, 63 - num)
    ensures LastWithin(word, num', d) && w' == Shl(word, 63 - num')
  {
    num', w' := num, w;
    ghost var masked := And(w, Shl(ONES, 64 - d));
    if And(w, Shl(ONES, 64 - d)) == ZERO {
      forall i | num - d < i <= num ensures !word[i] { assert masked[i + 63 - num] == w[i + 63 - num] == word[i]; }
      num', w' := num - d, Shl(w, d);
      assert w' == Shl(word, 63 - num');
    } else {
      var i := NonZeroBit(masked);
      assert word[i - (63 - num)];
    }
  }

  /** bitops_flsl: the number of the highest set bit. */
  method Flsl(word: Word) returns (r: nat)
    requires word != ZERO
    ensures r < 64 && word[r] && forall i | r < i < 64 :: !word[i]
  {
    var num, w := HalveLastTo8(word);
    num, w := HalveLast(word, num, w, 4);
    num, w := HalveLast(word, num, w, 2);
    num, w := HalveLast(word, num, w, 1);
    r := num;
  }

  /** The first three tests of bitops_flsl. */
  method HalveLastTo8(word: Word) returns (num: nat, w: Word)
    requires word != ZERO
    ensures LastWithin(word, num, 8) && w == Shl(word, 63 - num)
  {
    assert Shl(word, 0) == word;
    var some := NonZeroBit(word);
    num, w := HalveLast(word, 63, word, 32);
    num, w := HalveLast(word, num, w, 16);
    num, w := HalveLast(word, num, w, 8);
  }
}
