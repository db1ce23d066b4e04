/** The AES cipher and its inverse as FIPS 197 defines them (figures 5, 12 and
    15), over any substitution box that its inverse box undoes, and the proof
    that the equivalent inverse cipher of section 5.3.5 undoes the cipher. */
module AesCipher {
  import opened AesByte
  import opened AesField

  /** The S-box and the box that inverts it. */
  datatype SBox = SBox(s: Byte -> Byte, si: Byte -> Byte)

  ghost predicate Inverts(b: SBox) {
    forall x: Byte :: b.si(b.s(x)) == x
  }

  /** The cipher state: four columns. */
  datatype Block = Block(c0: Word, c1: Word, c2: Word, c3: Word)

  function SubWord(f: Byte -> Byte, w: Word): Word {
    Word(f(w.w0), f(w.w1), f(w.w2), f(w.w3))
  }

  function SubBytes(f: Byte -> Byte, x: Block): Block {
    Block(SubWord(f, x.c0), SubWord(f, x.c1), SubWord(f, x.c2), SubWord(f, x.c3))
  }

  /** Row r moved r columns to the left. */
  function ShiftRows(x: Block): Block {
    Block(Word(x.c0.w0, x.c1.w1, x.c2.w2, x.c3.w3), Word(x.c1.w0, x.c2.w1, x.c3.w2, x.c0.w3),
          Word(x.c2.w0, x.c3.w1, x.c0.w2, x.c1.w3), Word(x.c3.w0, x.c0.w1, x.c1.w2, x.c2.w3))
  }

  /** Row r moved r columns to the right. */
  function InvShiftRows(x: Block): Block {
    Block(Word(x.c0.w0, x.c3.w1, x.c2.w2, x.c1.w3), Word(x.c1.w0, x.c0.w1, x.c3.w2, x.c2.w3),
          Word(x.c2.w0, x.c1.w1, x.c0.w2, x.c3.w3), Word(x.c3.w0, x.c2.w1, x.c1.w2, x.c0.w3))
  }

  function MixColumns(x: Block): Block {
    Block(MixColumn(x.c0), MixColumn(x.c1), MixColumn(x.c2), MixColumn(x.c3))
  }

  function InvMixColumns(x: Block): Block {
    Block(InvMixColumn(x.c0), InvMixColumn(x.c1), InvMixColumn(x.c2), InvMixColumn(x.c3))
  }

  function AddRoundKey(x: Block, k: Block): Block {
    Block(WordXor(x.c0, k.c0), WordXor(x.c1, k.c1), WordXor(x.c2, k.c2), WordXor(x.c3, k.c3))
  }

  /** Round key i of a schedule of words. */
  function RoundKey(rk: seq<Word>, i: nat): Block
    requires 4 * i + 4 <= |rk|
  {
    Block(rk[4 * i], rk[4 * i + 1], rk[4 * i + 2], rk[4 * i + 3])
  }

  ghost predicate HasRounds(rk: seq<Word>, nr: nat) {
    0 < nr && 4 * nr + 4 <= |rk|
  }

  // ------------------------------------------------------------- the cipher

  /** The state after the initial round key and n full rounds. */
  ghost function CipherRounds(b: SBox, rk: seq<Word>, x: Block, n: nat): Block
    requires 4 * n + 4 <= |rk|
  {
    if n == 0 then AddRoundKey(x, RoundKey(rk, 0))
    else AddRoundKey(MixColumns(ShiftRows(SubBytes(b.s, CipherRounds(b, rk, x, n - 1)))), RoundKey(rk, n))
  }

  ghost function Cipher(b: SBox, rk: seq<Word>, nr: nat, x: Block): Block
    requires HasRounds(rk, nr)
  {
    AddRoundKey(ShiftRows(SubBytes(b.s, CipherRounds(b, rk, x, nr - 1))), RoundKey(rk, nr))
  }

  /** The inverse cipher: every step of the cipher undone, last step first. */
  ghost function InvCipherRounds(b: SBox, rk: seq<Word>, nr: nat, y: Block, n: nat): Block
    requires HasRounds(rk, nr) && n < nr
  {
    if n == 0 then AddRoundKey(y, RoundKey(rk, nr))
    else InvMixColumns(AddRoundKey(SubBytes(b.si, InvShiftRows(InvCipherRounds(b, rk, nr, y, n - 1))),
                                   RoundKey(rk, nr - n)))
  }

  ghost function InvCipher(b: SBox, rk: seq<Word>, nr: nat, y: Block): Block
    requires HasRounds(rk, nr)
  {
    AddRoundKey(SubBytes(b.si, InvShiftRows(InvCipherRounds(b, rk, nr, y, nr - 1))), RoundKey(rk, 0))
  }

  /** The equivalent inverse cipher: the steps in the order of the cipher,
      under a schedule of its own. */
  ghost function EqInvRounds(b: SBox, dk: seq<Word>, y: Block, n: nat): Block
    requires 4 * n + 4 <= |dk|
  {
    if n == 0 then AddRoundKey(y, RoundKey(dk, 0))
    else AddRoundKey(InvMixColumns(InvShiftRows(SubBytes(b.si, EqInvRounds(b, dk, y, n - 1)))), RoundKey(dk, n))
  }

  ghost function EqInvCipher(b: SBox, dk: seq<Word>, nr: nat, y: Block): Block
    requires HasRounds(dk, nr)
  {
    AddRoundKey(InvShiftRows(SubBytes(b.si, EqInvRounds(b, dk, y, nr - 1))), RoundKey(dk, nr))
  }

  /** dk holds rk's round keys in reverse order, InvMixColumns applied to all but
      the first and the last. */
  ghost predicate DecryptSchedule(dk: seq<Word>, rk: seq<Word>, nr: nat)
    requires HasRounds(rk, nr) && HasRounds(dk, nr)
  {
    && RoundKey(dk, 0) == RoundKey(rk, nr)
    && RoundKey(dk, nr) == RoundKey(rk, 0)
    && (forall i: nat :: 0 < i < nr ==> RoundKey(dk, i) == InvMixColumns(RoundKey(rk, nr - i)))
  }

  // ------------------------------------------------- each step and its inverse

  lemma AddTwice(x: Block, k: Block)
    ensures AddRoundKey(AddRoundKey(x, k), k) == x
  {
    hide WordXor;
    WordXorCancel(x.c0, k.c0);
    WordXorCancel(x.c1, k.c1);
    WordXorCancel(x.c2, k.c2);
    WordXorCancel(x.c3, k.c3);
  }

  lemma InvMixColumnsMix(x: Block)
    ensures InvMixColumns(MixColumns(x)) == x
  {
    hide MixColumn, InvMixColumn;
    InvMixMix(x.c0);
    InvMixMix(x.c1);
    InvMixMix(x.c2);
    InvMixMix(x.c3);
  }

  lemma InvMixColumnsAdd(x: Block, k: Block)
    ensures InvMixColumns(AddRoundKey(x, k)) == AddRoundKey(InvMixColumns(x), InvMixColumns(k))
  {
    hide WordXor, InvMixColumn;
    InvMixLinear(x.c0, k.c0);
    InvMixLinear(x.c1, k.c1);
    InvMixLinear(x.c2, k.c2);
    InvMixLinear(x.c3, k.c3);
  }

  lemma SubShiftInverse(b: SBox, x: Block)
    requires Inverts(b)
    ensures SubBytes(b.si, InvShiftRows(ShiftRows(SubBytes(b.s, x)))) == x
  {
  }

  lemma ShiftSubCommute(f: Byte -> Byte, x: Block)
    ensures SubBytes(f, InvShiftRows(x)) == InvShiftRows(SubBytes(f, x))
  {
  }

  // -------------------------------------------------------------- the theorem

  /** Undoing n rounds of a cipher text leaves what entered the last ShiftRows
      and SubBytes of the round before. */
  lemma {:induction false} InvRoundsUndo(b: SBox, rk: seq<Word>, nr: nat, x: Block, n: nat)
    requires Inverts(b) && HasRounds(rk, nr) && n < nr
    ensures InvCipherRounds(b, rk, nr, Cipher(b, rk, nr, x), n) ==
            ShiftRows(SubBytes(b.s, CipherRounds(b, rk, x, nr - 1 - n)))
  {
    hide AddRoundKey, SubBytes, ShiftRows, InvShiftRows, MixColumns, InvMixColumns, RoundKey;
    if n == 0 {
      AddTwice(ShiftRows(SubBytes(b.s, CipherRounds(b, rk, x, nr - 1))), RoundKey(rk, nr));
    } else {
      InvRoundsUndo(b, rk, nr, x, n - 1);
      var inner := ShiftRows(SubBytes(b.s, CipherRounds(b, rk, x, nr - n - 1)));
      SubShiftInverse(b, CipherRounds(b, rk, x, nr - n));
      AddTwice(MixColumns(inner), RoundKey(rk, nr - n));
      InvMixColumnsMix(inner);
    }
  }

  /** The inverse cipher undoes the cipher under every schedule. */
  lemma InvCipherInverse(b: SBox, rk: seq<Word>, nr: nat, x: Block)
    requires Inverts(b) && HasRounds(rk, nr)
    ensures InvCipher(b, rk, nr, Cipher(b, rk, nr, x)) == x
  {
    hide AddRoundKey, SubBytes, ShiftRows, InvShiftRows, MixColumns, InvMixColumns, RoundKey;
    InvRoundsUndo(b, rk, nr, x, nr - 1);
    SubShiftInverse(b, CipherRounds(b, rk, x, 0));
    AddTwice(x, RoundKey(rk, 0));
  }

  lemma {:induction false} EqInvRoundsSame(b: SBox, dk: seq<Word>, rk: seq<Word>, nr: nat, y: Block, n: nat)
    requires HasRounds(rk, nr) && HasRounds(dk, nr) && n < nr
    requires DecryptSchedule(dk, rk, nr)
    ensures EqInvRounds(b, dk, y, n) == InvCipherRounds(b, rk, nr, y, n)
  {
    hide AddRoundKey, SubBytes, ShiftRows, InvShiftRows, MixColumns, InvMixColumns, RoundKey;
    if n != 0 {
      EqInvRoundsSame(b, dk, rk, nr, y, n - 1);
      var before := InvCipherRounds(b, rk, nr, y, n - 1);
      ShiftSubCommute(b.si, before);
      InvMixColumnsAdd(InvShiftRows(SubBytes(b.si, before)), RoundKey(rk, nr - n));
    }
  }

  /** Under the transformed schedule the equivalent inverse cipher is the inverse
      cipher, for every block. */
  lemma EqInvCipherSame(b: SBox, dk: seq<Word>, rk: seq<Word>, nr: nat, y: Block)
    requires HasRounds(rk, nr) && HasRounds(dk, nr) && DecryptSchedule(dk, rk, nr)
    ensures EqInvCipher(b, dk, nr, y) == InvCipher(b, rk, nr, y)
  {
    hide AddRoundKey, SubBytes, ShiftRows, InvShiftRows, MixColumns, InvMixColumns, RoundKey;
    EqInvRoundsSame(b, dk, rk, nr, y, nr - 1);
    ShiftSubCommute(b.si, InvCipherRounds(b, rk, nr, y, nr - 1));
  }

  // ------------------------------------------------------- the other way round

  /** Different numbers below n are at most n. */
  lemma {:induction false} FewNumbers(p: seq<int>, n: nat)
    requires (forall i | 0 <= i < |p| :: 0 <= p[i] < n) && forall i, j | 0 <= i < j < |p| :: p[i] != p[j]
    ensures |p| <= n
    decreases n
  {
    assert |p| > 0 ==> 0 <= p[0] < n;
    if k :| 0 <= k < |p| && p[k] == n - 1 {
      FewNumbers(p[..k] + p[k + 1..], n - 1);
    } else if n > 0 {
      FewNumbers(p, n - 1);
    }
  }

  lemma SameNumber(x: Byte, y: Byte)
    requires x as int == y as int
    ensures x == y
  {
    assert (x as int) as Byte == x && (y as int) as Byte == y;
  }

  /** The box applied k times. */
  function Times(f: Byte -> Byte, y: Byte, k: nat): Byte { if k == 0 then y else f(Times(f, y, k - 1)) }

  /** Going on from a value that the box never takes, no value comes twice. */
  lemma {:induction false} NoReturn(b: SBox, y: Byte, i: nat, j: nat)
    requires Inverts(b) && b.s(b.si(y)) != y && i < j
    ensures Times(b.s, y, i) != Times(b.s, y, j)
  {
    var x := Times(b.s, y, j - 1);
    assert b.si(b.s(x)) == x;
    if i > 0 {
      var z := Times(b.s, y, i - 1);
      assert b.si(b.s(z)) == z;
      NoReturn(b, y, i - 1, j - 1);
    }
  }

  /** A box that is undone takes every value, there being only so many bytes, so it
      undoes the box that undoes it. */
  lemma InvertsBack(b: SBox, y: Byte)
    requires Inverts(b)
    ensures b.s(b.si(y)) == y
  {
    hide Times;
    if b.s(b.si(y)) != y {
      var p := seq(257, k requires 0 <= k < 257 => Times(b.s, y, k) as int);
      forall i, j | 0 <= i < j < |p| ensures p[i] != p[j] {
        NoReturn(b, y, i, j);
        if p[i] == p[j] { SameNumber(Times(b.s, y, i), Times(b.s, y, j)); }
      }
      FewNumbers(p, 256);
    }
  }

  lemma SubWordBack(b: SBox, w: Word)
    requires Inverts(b)
    ensures SubWord(b.s, SubWord(b.si, w)) == w
  {
    InvertsBack(b, w.w0);
    InvertsBack(b, w.w1);
    InvertsBack(b, w.w2);
    InvertsBack(b, w.w3);
  }

  lemma SubShiftBack(b: SBox, x: Block)
    requires Inverts(b)
    ensures ShiftRows(SubBytes(b.s, SubBytes(b.si, InvShiftRows(x)))) == x
  {
    hide SubWord;
    var y := InvShiftRows(x);
    SubWordBack(b, y.c0);
    SubWordBack(b, y.c1);
    SubWordBack(b, y.c2);
    SubWordBack(b, y.c3);
  }

  lemma MixColumnsInv(x: Block)
    ensures MixColumns(InvMixColumns(x)) == x
  {
    hide MixColumn, InvMixColumn;
    MixInvMix(x.c0);
    MixInvMix(x.c1);
    MixInvMix(x.c2);
    MixInvMix(x.c3);
  }

  /** n rounds of the cipher undo as many of the inverse cipher. */
  lemma {:induction false} RoundsUndoInv(b: SBox, rk: seq<Word>, nr: nat, y: Block, n: nat)
    requires Inverts(b) && HasRounds(rk, nr) && n < nr
    ensures CipherRounds(b, rk, InvCipher(b, rk, nr, y), n) ==
            SubBytes(b.si, InvShiftRows(InvCipherRounds(b, rk, nr, y, nr - 1 - n)))
  {
    hide AddRoundKey, SubBytes, ShiftRows, InvShiftRows, MixColumns, InvMixColumns, RoundKey;
    var left := SubBytes(b.si, InvShiftRows(InvCipherRounds(b, rk, nr, y, nr - 1 - n)));
    AddTwice(left, RoundKey(rk, n));
    if n != 0 {
      RoundsUndoInv(b, rk, nr, y, n - 1);
      SubShiftBack(b, InvCipherRounds(b, rk, nr, y, nr - n));
      MixColumnsInv(AddRoundKey(left, RoundKey(rk, n)));
    }
  }

  /** The cipher undoes the inverse cipher under every schedule. */
  lemma CipherInverse(b: SBox, rk: seq<Word>, nr: nat, y: Block)
    requires Inverts(b) && HasRounds(rk, nr)
    ensures Cipher(b, rk, nr, InvCipher(b, rk, nr, y)) == y
  {
    hide AddRoundKey, SubBytes, ShiftRows, InvShiftRows, MixColumns, InvMixColumns, RoundKey, InvCipher;
    RoundsUndoInv(b, rk, nr, y, nr - 1);
    SubShiftBack(b, InvCipherRounds(b, rk, nr, y, 0));
    AddTwice(y, RoundKey(rk, nr));
  }
}
