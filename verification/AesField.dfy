/** Bytes as elements of GF(2^8) (section 4 of FIPS 197), as far as MixColumns
    and its inverse need them. */
module AesByte {

  type Byte = bv8

  function Xor(a: Byte, b: Byte): Byte { a ^ b }

  /** Multiplication by x modulo x^8 + x^4 + x^3 + x + 1. */
  function Xtime(b: Byte): Byte {
    if b & 0x80 != 0 then (b << 1) ^ 0x1b else b << 1
  }

  /** Multiplication by 03, 09, 0b, 0d and 0e. */
  function Mul3(b: Byte): Byte { Xor(Xtime(b), b) }

  function Mul9(b: Byte): Byte { Xor(Xtime(Xtime(Xtime(b))), b) }

  function MulB(b: Byte): Byte { Xor(Mul9(b), Xtime(b)) }

  function MulD(b: Byte): Byte { Xor(Mul9(b), Xtime(Xtime(b))) }

  function MulE(b: Byte): Byte { Xor(Xtime(Xtime(Xtime(b))), Xor(Xtime(Xtime(b)), Xtime(b))) }

  lemma XorComm(a: Byte, b: Byte)
    ensures Xor(a, b) == Xor(b, a)
  {
  }

  lemma XorAssoc(a: Byte, b: Byte, c: Byte)
    ensures Xor(Xor(a, b), c) == Xor(a, Xor(b, c))
  {
  }

  lemma XorCancel(a: Byte, b: Byte)
    ensures Xor(a, Xor(a, b)) == b && Xor(Xor(a, b), b) == a
    ensures Xor(a, 0) == a && Xor(0, a) == a && Xor(a, a) == 0
  {
  }

  lemma XorSwap(a: Byte, b: Byte, c: Byte, d: Byte)
    ensures Xor(Xor(a, b), Xor(c, d)) == Xor(Xor(a, c), Xor(b, d))
  {
    hide Xor;
    XorAssoc(a, b, Xor(c, d));
    XorAssoc(b, c, d);
    XorComm(b, c);
    XorAssoc(c, b, d);
    XorAssoc(a, c, Xor(b, d));
  }

  lemma XorCancelCommon(m: Byte, a: Byte, b: Byte)
    ensures Xor(Xor(m, a), Xor(m, b)) == Xor(a, b)
  {
    hide Xor;
    XorSwap(m, a, m, b);
    XorCancel(m, m);
    XorCancel(Xor(a, b), 0);
  }

  lemma XorRotate(a: Byte, b: Byte, c: Byte, d: Byte)
    ensures Xor(Xor(Xor(d, a), b), c) == Xor(Xor(Xor(a, b), c), d)
  {
    hide Xor;
    XorAssoc(d, a, b);
    XorAssoc(d, Xor(a, b), c);
    XorComm(d, Xor(Xor(a, b), c));
  }

  lemma XtimeLinear(a: Byte, b: Byte)
    ensures Xtime(Xor(a, b)) == Xor(Xtime(a), Xtime(b))
  {
    assert (a ^ b) << 1 == (a << 1) ^ (b << 1);
    assert (a ^ b) & 0x80 == (a & 0x80) ^ (b & 0x80);
    assert a & 0x80 == 0 || a & 0x80 == 0x80;
    assert b & 0x80 == 0 || b & 0x80 == 0x80;
  }

  lemma MulsLinear(a: Byte, b: Byte)
    ensures Mul9(Xor(a, b)) == Xor(Mul9(a), Mul9(b))
    ensures MulB(Xor(a, b)) == Xor(MulB(a), MulB(b))
    ensures MulD(Xor(a, b)) == Xor(MulD(a), MulD(b))
    ensures MulE(Xor(a, b)) == Xor(MulE(a), MulE(b))
  {
    hide Xor, Xtime;
    var a1, a2, a3 := Xtime(a), Xtime(Xtime(a)), Xtime(Xtime(Xtime(a)));
    var b1, b2, b3 := Xtime(b), Xtime(Xtime(b)), Xtime(Xtime(Xtime(b)));
    XtimeLinear(a, b);
    XtimeLinear(a1, b1);
    XtimeLinear(a2, b2);
    XorSwap(a3, b3, a, b);
    XorSwap(Mul9(a), Mul9(b), a1, b1);
    XorSwap(Mul9(a), Mul9(b), a2, b2);
    XorSwap(a2, b2, a1, b1);
    XorSwap(a3, b3, Xor(a2, a1), Xor(b2, b1));
  }

  /** Products with the coefficients of the two columns do not depend on the order. */
  lemma MulsCommute(a: Byte)
    ensures Xtime(Mul9(a)) == Mul9(Xtime(a)) && Mul3(Mul9(a)) == Mul9(Mul3(a))
    ensures Xtime(MulB(a)) == MulB(Xtime(a)) && Mul3(MulB(a)) == MulB(Mul3(a))
    ensures Xtime(MulD(a)) == MulD(Xtime(a)) && Mul3(MulD(a)) == MulD(Mul3(a))
    ensures Xtime(MulE(a)) == MulE(Xtime(a)) && Mul3(MulE(a)) == MulE(Mul3(a))
  {
    hide Xor, Xtime;
    var a1, a2, a3 := Xtime(a), Xtime(Xtime(a)), Xtime(Xtime(Xtime(a)));
    XtimeLinear(a3, a);
    XtimeLinear(Mul9(a), a1);
    XtimeLinear(Mul9(a), a2);
    XtimeLinear(a2, a1);
    XtimeLinear(a3, Xor(a2, a1));
    MulsLinear(a1, a);
  }

  lemma XorReorder(a: Byte, b: Byte, c: Byte, d: Byte)
    ensures Xor(Xor(Xor(a, b), c), d) == Xor(Xor(Xor(a, d), c), b)
    ensures Xor(Xor(Xor(a, b), c), d) == Xor(Xor(Xor(b, a), d), c)
    ensures Xor(Xor(Xor(a, b), c), d) == Xor(Xor(Xor(c, b), a), d)
    ensures Xor(Xor(Xor(a, b), c), d) == Xor(Xor(Xor(d, c), b), a)
  {
    hide Xor;
    XorEnds(a, b, c, d);
    XorLast(Xor(a, b), c, d);
    XorComm(a, b);
    XorFirst(a, b, c);
    XorEnds(d, c, b, a);
    XorFirst(d, c, b);
    XorRotate(a, b, c, d);
    XorFirst(a, b, c);
    XorLast(Xor(c, b), a, d);
    XorFirst(c, b, d);
    XorEnds(c, b, d, a);
    XorRotate(b, c, a, d);
  }

  lemma XorLast(m: Byte, c: Byte, d: Byte)
    ensures Xor(Xor(m, c), d) == Xor(Xor(m, d), c)
  {
    hide Xor;
    XorAssoc(m, c, d);
    XorComm(c, d);
    XorAssoc(m, d, c);
  }

  lemma XorFirst(a: Byte, b: Byte, c: Byte)
    ensures Xor(Xor(a, b), c) == Xor(Xor(c, b), a)
  {
    hide Xor;
    XorComm(a, b);
    XorLast(b, a, c);
    XorComm(b, c);
  }

  lemma XorEnds(a: Byte, b: Byte, c: Byte, d: Byte)
    ensures Xor(Xor(Xor(a, b), c), d) == Xor(Xor(Xor(a, d), c), b)
  {
    hide Xor;
    XorLast(Xor(a, b), c, d);
    XorLast(a, b, d);
    XorLast(Xor(a, d), b, c);
  }

  // The products of the coefficients of InvMixColumns with those of MixColumns,
  // in the order in which a column is summed: 1 on the diagonal and 0 elsewhere.

  lemma Diagonal(a: Byte)
    ensures Xor(Xor(Xor(MulE(Xtime(a)), MulB(a)), MulD(a)), Mul9(Mul3(a))) == a
  {
    hide Xor, Xtime;
    var a1, a2, a3 := Xtime(a), Xtime(Xtime(a)), Xtime(Xtime(Xtime(a)));
    var a4 := Xtime(a3);
    MulsLinear(a1, a);
    XorAssoc(MulE(a1), MulB(a), MulD(a));
    XorCancelCommon(Mul9(a), a1, a2);
    XorComm(a1, a2);
    XorAssoc(a4, a3, a2);
    XorAssoc(Xor(a4, a3), a2, Xor(a2, a1));
    XorCancel(a2, a1);
    XorSwap(a4, a1, a3, a);
    XorCancelCommon(Xor(a4, a3), a1, Xor(a1, a));
    XorCancel(a1, a);
  }

  lemma OffDiagonal1(a: Byte)
    ensures Xor(Xor(Xor(Mul9(Xtime(a)), MulE(a)), MulB(a)), MulD(Mul3(a))) == 0
  {
    hide Xor, Xtime;
    var a1, a2, a3 := Xtime(a), Xtime(Xtime(a)), Xtime(Xtime(Xtime(a)));
    MulsLinear(a1, a);
    XorSwap(Xor(Mul9(a1), MulE(a)), MulB(a), MulD(a1), MulD(a));
    XorCancelCommon(Mul9(a1), MulE(a), a3);
    XorCancelCommon(Mul9(a), a1, a2);
    XorComm(MulE(a), a3);
    XorCancel(a3, Xor(a2, a1));
    XorComm(a1, a2);
    XorCancel(Xor(a2, a1), 0);
  }

  lemma OffDiagonal2(a: Byte)
    ensures Xor(Xor(Xor(MulD(Xtime(a)), Mul9(a)), MulE(a)), MulB(Mul3(a))) == 0
  {
    hide Xor, Xtime;
    var a1, a2, a3 := Xtime(a), Xtime(Xtime(a)), Xtime(Xtime(Xtime(a)));
    var p, q := Mul9(a1), Mul9(a);
    MulsLinear(a1, a);
    XorSwap(p, a2, q, a1);
    XorAssoc(p, a3, q);
    XorComm(a3, q);
    XorAssoc(p, q, a3);
    XorAssoc(Xor(p, q), a3, MulE(a));
    XorCancelCommon(Xor(p, q), Xor(a3, MulE(a)), Xor(a2, a1));
    XorCancel(a3, Xor(a2, a1));
    XorCancel(Xor(a2, a1), 0);
  }

  lemma OffDiagonal3(a: Byte)
    ensures Xor(Xor(Xor(MulB(Xtime(a)), MulD(a)), Mul9(a)), MulE(Mul3(a))) == 0
  {
    hide Xor, Xtime;
    var a1, a2, a3 := Xtime(a), Xtime(Xtime(a)), Xtime(Xtime(Xtime(a)));
    var a4 := Xtime(a3);
    var p, q := Mul9(a1), Mul9(a);
    MulsLinear(a1, a);
    XorSwap(p, a2, q, a2);
    XorCancel(a2, a2);
    XorCancel(Xor(p, q), 0);
    XorCancel(p, q);
    XorAssoc(a3, a2, a1);
    XorComm(a4, Xor(a3, a2));
    XorCancelCommon(Xor(a3, a2), a4, a1);
    XorCancel(p, p);
  }
}

/** Columns of four bytes and MixColumns (section 5.1.3 of FIPS 197).  A 32-bit
    word of the implementation is the column of its bytes, the most significant
    byte first. */
module AesField {
  import opened AesByte

  datatype Word = Word(w0: Byte, w1: Byte, w2: Byte, w3: Byte)

  function WordXor(a: Word, b: Word): Word {
    Word(Xor(a.w0, b.w0), Xor(a.w1, b.w1), Xor(a.w2, b.w2), Xor(a.w3, b.w3))
  }

  function Sum4(a: Word, b: Word, c: Word, d: Word): Word {
    WordXor(WordXor(WordXor(a, b), c), d)
  }

  /** The byte moved one place down the column. */
  function Rotate(w: Word): Word { Word(w.w3, w.w0, w.w1, w.w2) }

  /** b.[02, 01, 01, 03] and its rotations: one byte's share of MixColumns. */
  function MixWord0(b: Byte): Word { Word(Xtime(b), b, b, Mul3(b)) }

  function MixWord1(b: Byte): Word { Word(Mul3(b), Xtime(b), b, b) }

  function MixWord2(b: Byte): Word { Word(b, Mul3(b), Xtime(b), b) }

  function MixWord3(b: Byte): Word { Word(b, b, Mul3(b), Xtime(b)) }

  /** b.[0e, 09, 0d, 0b] and its rotations: its share of InvMixColumns. */
  function InvMixWord0(b: Byte): Word { Word(MulE(b), Mul9(b), MulD(b), MulB(b)) }

  function InvMixWord1(b: Byte): Word { Word(MulB(b), MulE(b), Mul9(b), MulD(b)) }

  function InvMixWord2(b: Byte): Word { Word(MulD(b), MulB(b), MulE(b), Mul9(b)) }

  function InvMixWord3(b: Byte): Word { Word(Mul9(b), MulD(b), MulB(b), MulE(b)) }

  function MixColumn(w: Word): Word {
    Sum4(MixWord0(w.w0), MixWord1(w.w1), MixWord2(w.w2), MixWord3(w.w3))
  }

  function InvMixColumn(w: Word): Word {
    Sum4(InvMixWord0(w.w0), InvMixWord1(w.w1), InvMixWord2(w.w2), InvMixWord3(w.w3))
  }

  // --------------------------------------------------------- laws of sums

  lemma WordXorSwap(a: Word, b: Word, c: Word, d: Word)
    ensures WordXor(WordXor(a, b), WordXor(c, d)) == WordXor(WordXor(a, c), WordXor(b, d))
  {
    hide Xor;
    XorSwap(a.w0, b.w0, c.w0, d.w0);
    XorSwap(a.w1, b.w1, c.w1, d.w1);
    XorSwap(a.w2, b.w2, c.w2, d.w2);
    XorSwap(a.w3, b.w3, c.w3, d.w3);
  }

  lemma WordXorCancel(a: Word, b: Word)
    ensures WordXor(WordXor(a, b), b) == a
  {
    hide Xor;
    XorCancel(a.w0, b.w0);
    XorCancel(a.w1, b.w1);
    XorCancel(a.w2, b.w2);
    XorCancel(a.w3, b.w3);
  }

  lemma WordXorAssoc(a: Word, b: Word, c: Word)
    ensures WordXor(WordXor(a, b), c) == WordXor(a, WordXor(b, c))
  {
    hide Xor;
    XorAssoc(a.w0, b.w0, c.w0);
    XorAssoc(a.w1, b.w1, c.w1);
    XorAssoc(a.w2, b.w2, c.w2);
    XorAssoc(a.w3, b.w3, c.w3);
  }

  lemma Sum4Linear(a: Word, b: Word, c: Word, d: Word, a': Word, b': Word, c': Word, d': Word)
    ensures Sum4(WordXor(a, a'), WordXor(b, b'), WordXor(c, c'), WordXor(d, d')) ==
            WordXor(Sum4(a, b, c, d), Sum4(a', b', c', d'))
  {
    hide WordXor;
    WordXorSwap(a, a', b, b');
    WordXorSwap(WordXor(a, b), WordXor(a', b'), c, c');
    WordXorSwap(WordXor(WordXor(a, b), c), WordXor(WordXor(a', b'), c'), d, d');
  }

  // ------------------------------------------- InvMixColumns is linear

  lemma InvMixWordsLinear(a: Byte, b: Byte)
    ensures InvMixWord0(Xor(a, b)) == WordXor(InvMixWord0(a), InvMixWord0(b))
    ensures InvMixWord1(Xor(a, b)) == WordXor(InvMixWord1(a), InvMixWord1(b))
    ensures InvMixWord2(Xor(a, b)) == WordXor(InvMixWord2(a), InvMixWord2(b))
    ensures InvMixWord3(Xor(a, b)) == WordXor(InvMixWord3(a), InvMixWord3(b))
  {
    hide Xor, Mul9, MulB, MulD, MulE;
    MulsLinear(a, b);
  }

  lemma InvMixLinear(v: Word, w: Word)
    ensures InvMixColumn(WordXor(v, w)) == WordXor(InvMixColumn(v), InvMixColumn(w))
  {
    hide Xor, Sum4, InvMixWord0, InvMixWord1, InvMixWord2, InvMixWord3;
    InvMixWordsLinear(v.w0, w.w0);
    InvMixWordsLinear(v.w1, w.w1);
    InvMixWordsLinear(v.w2, w.w2);
    InvMixWordsLinear(v.w3, w.w3);
    Sum4Linear(InvMixWord0(v.w0), InvMixWord1(v.w1), InvMixWord2(v.w2), InvMixWord3(v.w3),
               InvMixWord0(w.w0), InvMixWord1(w.w1), InvMixWord2(w.w2), InvMixWord3(w.w3));
  }

  // ------------------------------------- InvMixColumns undoes MixColumns

  lemma InvMixShare0(a: Byte)
    ensures InvMixColumn(MixWord0(a)) == Word(a, 0, 0, 0)
  {
    hide Xor, Xtime, Mul3, Mul9, MulB, MulD, MulE;
    Diagonal(a);
    OffDiagonal1(a);
    OffDiagonal2(a);
    OffDiagonal3(a);
  }

  lemma InvMixRotate(w: Word)
    ensures InvMixColumn(Rotate(w)) == Rotate(InvMixColumn(w))
  {
    hide Xor, Mul9, MulB, MulD, MulE;
    var a, b, c, d := w.w0, w.w1, w.w2, w.w3;
    XorRotate(MulE(a), MulB(b), MulD(c), Mul9(d));
    XorRotate(Mul9(a), MulE(b), MulB(c), MulD(d));
    XorRotate(MulD(a), Mul9(b), MulE(c), MulB(d));
    XorRotate(MulB(a), MulD(b), Mul9(c), MulE(d));
  }

  lemma InvMixShares(a: Byte)
    ensures InvMixColumn(MixWord0(a)) == Word(a, 0, 0, 0)
    ensures InvMixColumn(MixWord1(a)) == Word(0, a, 0, 0)
    ensures InvMixColumn(MixWord2(a)) == Word(0, 0, a, 0)
    ensures InvMixColumn(MixWord3(a)) == Word(0, 0, 0, a)
  {
    hide InvMixColumn, Xtime, Mul3;
    InvMixShare0(a);
    InvMixRotate(MixWord0(a));
    InvMixRotate(MixWord1(a));
    InvMixRotate(MixWord2(a));
  }

  lemma Assemble(w: Word)
    ensures Sum4(Word(w.w0, 0, 0, 0), Word(0, w.w1, 0, 0), Word(0, 0, w.w2, 0), Word(0, 0, 0, w.w3)) == w
  {
    hide Xor;
    XorCancel(w.w0, 0);
    XorCancel(w.w1, 0);
    XorCancel(w.w2, 0);
    XorCancel(w.w3, 0);
    XorCancel(0, 0);
  }

  /** InvMixColumns undoes MixColumns, for every column. */
  lemma InvMixMix(w: Word)
    ensures InvMixColumn(MixColumn(w)) == w
  {
    hide WordXor, InvMixColumn, MixWord0, MixWord1, MixWord2, MixWord3;
    var m0, m1, m2, m3 := MixWord0(w.w0), MixWord1(w.w1), MixWord2(w.w2), MixWord3(w.w3);
    InvMixLinear(m0, m1);
    InvMixLinear(WordXor(m0, m1), m2);
    InvMixLinear(WordXor(WordXor(m0, m1), m2), m3);
    InvMixShares(w.w0);
    InvMixShares(w.w1);
    InvMixShares(w.w2);
    InvMixShares(w.w3);
    Assemble(w);
  }

  // ------------------------------------- MixColumns undoes InvMixColumns

  lemma MixWordsLinear(a: Byte, b: Byte)
    ensures MixWord0(Xor(a, b)) == WordXor(MixWord0(a), MixWord0(b))
    ensures MixWord1(Xor(a, b)) == WordXor(MixWord1(a), MixWord1(b))
    ensures MixWord2(Xor(a, b)) == WordXor(MixWord2(a), MixWord2(b))
    ensures MixWord3(Xor(a, b)) == WordXor(MixWord3(a), MixWord3(b))
  {
    hide Xor, Xtime;
    XtimeLinear(a, b);
    XorSwap(Xtime(a), Xtime(b), a, b);
  }

  lemma MixLinear(v: Word, w: Word)
    ensures MixColumn(WordXor(v, w)) == WordXor(MixColumn(v), MixColumn(w))
  {
    hide Xor, Sum4, MixWord0, MixWord1, MixWord2, MixWord3;
    MixWordsLinear(v.w0, w.w0);
    MixWordsLinear(v.w1, w.w1);
    MixWordsLinear(v.w2, w.w2);
    MixWordsLinear(v.w3, w.w3);
    Sum4Linear(MixWord0(v.w0), MixWord1(v.w1), MixWord2(v.w2), MixWord3(v.w3),
               MixWord0(w.w0), MixWord1(w.w1), MixWord2(w.w2), MixWord3(w.w3));
  }

  lemma MixShare0(a: Byte)
    ensures MixColumn(InvMixWord0(a)) == Word(a, 0, 0, 0)
  {
    hide Xor, Xtime, Mul3, Mul9, MulB, MulD, MulE;
    MulsCommute(a);
    Diagonal(a);
    OffDiagonal1(a);
    OffDiagonal2(a);
    OffDiagonal3(a);
    var p, q, r, t := MulE(a), Mul9(a), MulD(a), MulB(a);
    XorReorder(Xtime(p), Mul3(q), r, t);
    XorReorder(p, Xtime(q), Mul3(r), t);
    XorReorder(p, q, Xtime(r), Mul3(t));
    XorReorder(Mul3(p), q, r, Xtime(t));
  }

  lemma MixRotate(w: Word)
    ensures MixColumn(Rotate(w)) == Rotate(MixColumn(w))
  {
    hide Xor, Xtime, Mul3;
    var a, b, c, d := w.w0, w.w1, w.w2, w.w3;
    XorRotate(Xtime(a), Mul3(b), c, d);
    XorRotate(a, Xtime(b), Mul3(c), d);
    XorRotate(a, b, Xtime(c), Mul3(d));
    XorRotate(Mul3(a), b, c, Xtime(d));
  }

  lemma MixShares(a: Byte)
    ensures MixColumn(InvMixWord0(a)) == Word(a, 0, 0, 0)
    ensures MixColumn(InvMixWord1(a)) == Word(0, a, 0, 0)
    ensures MixColumn(InvMixWord2(a)) == Word(0, 0, a, 0)
    ensures MixColumn(InvMixWord3(a)) == Word(0, 0, 0, a)
  {
    hide MixColumn, Mul9, MulB, MulD, MulE;
    MixShare0(a);
    MixRotate(InvMixWord0(a));
    MixRotate(InvMixWord1(a));
    MixRotate(InvMixWord2(a));
  }

  /** MixColumns undoes InvMixColumns, for every column. */
  lemma MixInvMix(w: Word)
    ensures MixColumn(InvMixColumn(w)) == w
  {
    hide WordXor, MixColumn, InvMixWord0, InvMixWord1, InvMixWord2, InvMixWord3;
    var m0, m1, m2, m3 := InvMixWord0(w.w0), InvMixWord1(w.w1), InvMixWord2(w.w2), InvMixWord3(w.w3);
    MixLinear(m0, m1);
    MixLinear(WordXor(m0, m1), m2);
    MixLinear(WordXor(WordXor(m0, m1), m2), m3);
    MixShares(w.w0);
    MixShares(w.w1);
    MixShares(w.w2);
    MixShares(w.w3);
    Assemble(w);
  }
}
