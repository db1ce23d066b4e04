/** The table-driven implementation of AES: key schedules, block encryption and
    block decryption (qemu-kvm/aes.c), proved to compute the cipher and the
    inverse cipher of FIPS 197. */
module Aes {
  import opened AesByte
  import opened AesField
  import opened AesCipher

  const MAX_WORDS: nat := 60 // 4 * (AES_MAXNR + 1)

  // --------------------------------------------------------------- the tables

  function Te0(b: SBox, x: Byte): Word { MixWord0(b.s(x)) }

  function Te1(b: SBox, x: Byte): Word { MixWord1(b.s(x)) }

  function Te2(b: SBox, x: Byte): Word { MixWord2(b.s(x)) }

  function Te3(b: SBox, x: Byte): Word { MixWord3(b.s(x)) }

  function Te4(b: SBox, x: Byte): Word { Word(b.s(x), b.s(x), b.s(x), b.s(x)) }

  function Td0(b: SBox, x: Byte): Word { InvMixWord0(b.si(x)) }

  function Td1(b: SBox, x: Byte): Word { InvMixWord1(b.si(x)) }

  function Td2(b: SBox, x: Byte): Word { InvMixWord2(b.si(x)) }

  function Td3(b: SBox, x: Byte): Word { InvMixWord3(b.si(x)) }

  function Td4(b: SBox, x: Byte): Word { Word(b.si(x), b.si(x), b.si(x), b.si(x)) }

  /** The masks 0xff000000, 0x00ff0000, 0x0000ff00 and 0x000000ff. */
  function Mask0(w: Word): Word { Word(w.w0, 0, 0, 0) }

  function Mask1(w: Word): Word { Word(0, w.w1, 0, 0) }

  function Mask2(w: Word): Word { Word(0, 0, w.w2, 0) }

  function Mask3(w: Word): Word { Word(0, 0, 0, w.w3) }

  lemma MaskedSum(w0: Word, w1: Word, w2: Word, w3: Word)
    ensures Sum4(Mask0(w0), Mask1(w1), Mask2(w2), Mask3(w3)) == Word(w0.w0, w1.w1, w2.w2, w3.w3)
  {
    hide Sum4;
    Assemble(Word(w0.w0, w1.w1, w2.w2, w3.w3));
  }

  // ------------------------------------------------------ bytes and columns

  function GetWord(s: seq<Byte>, i: nat): Word
    requires i + 4 <= |s|
  {
    Word(s[i], s[i + 1], s[i + 2], s[i + 3])
  }

  function ToBlock(s: seq<Byte>): Block
    requires |s| == 16
  {
    Block(GetWord(s, 0), GetWord(s, 4), GetWord(s, 8), GetWord(s, 12))
  }

  function FromBlock(x: Block): (s: seq<Byte>)
    ensures |s| == 16
  {
    [x.c0.w0, x.c0.w1, x.c0.w2, x.c0.w3, x.c1.w0, x.c1.w1, x.c1.w2, x.c1.w3,
     x.c2.w0, x.c2.w1, x.c2.w2, x.c2.w3, x.c3.w0, x.c3.w1, x.c3.w2, x.c3.w3]
  }

  lemma BlockBytes(x: Block)
    ensures ToBlock(FromBlock(x)) == x
  {
  }

  lemma BytesBlock(s: seq<Byte>)
    requires |s| == 16
    ensures FromBlock(ToBlock(s)) == s
  {
  }

  // ---------------------------------------------------------------- rounds

  /** One full round of table look-ups, as the loops of both directions write it. */
  function EncRound(b: SBox, x: Block, k: Block): Block {
    Block(WordXor(Sum4(Te0(b, x.c0.w0), Te1(b, x.c1.w1), Te2(b, x.c2.w2), Te3(b, x.c3.w3)), k.c0),
          WordXor(Sum4(Te0(b, x.c1.w0), Te1(b, x.c2.w1), Te2(b, x.c3.w2), Te3(b, x.c0.w3)), k.c1),
          WordXor(Sum4(Te0(b, x.c2.w0), Te1(b, x.c3.w1), Te2(b, x.c0.w2), Te3(b, x.c1.w3)), k.c2),
          WordXor(Sum4(Te0(b, x.c3.w0), Te1(b, x.c0.w1), Te2(b, x.c1.w2), Te3(b, x.c2.w3)), k.c3))
  }

  function DecRound(b: SBox, x: Block, k: Block): Block {
    Block(WordXor(Sum4(Td0(b, x.c0.w0), Td1(b, x.c3.w1), Td2(b, x.c2.w2), Td3(b, x.c1.w3)), k.c0),
          WordXor(Sum4(Td0(b, x.c1.w0), Td1(b, x.c0.w1), Td2(b, x.c3.w2), Td3(b, x.c2.w3)), k.c1),
          WordXor(Sum4(Td0(b, x.c2.w0), Td1(b, x.c1.w1), Td2(b, x.c0.w2), Td3(b, x.c3.w3)), k.c2),
          WordXor(Sum4(Td0(b, x.c3.w0), Td1(b, x.c2.w1), Td2(b, x.c1.w2), Td3(b, x.c0.w3)), k.c3))
  }

  function LastEncRound(b: SBox, x: Block, k: Block): Block {
    Block(WordXor(Sum4(Mask0(Te4(b, x.c0.w0)), Mask1(Te4(b, x.c1.w1)), Mask2(Te4(b, x.c2.w2)), Mask3(Te4(b, x.c3.w3))), k.c0),
          WordXor(Sum4(Mask0(Te4(b, x.c1.w0)), Mask1(Te4(b, x.c2.w1)), Mask2(Te4(b, x.c3.w2)), Mask3(Te4(b, x.c0.w3))), k.c1),
          WordXor(Sum4(Mask0(Te4(b, x.c2.w0)), Mask1(Te4(b, x.c3.w1)), Mask2(Te4(b, x.c0.w2)), Mask3(Te4(b, x.c1.w3))), k.c2),
          WordXor(Sum4(Mask0(Te4(b, x.c3.w0)), Mask1(Te4(b, x.c0.w1)), Mask2(Te4(b, x.c1.w2)), Mask3(Te4(b, x.c2.w3))), k.c3))
  }

  function LastDecRound(b: SBox, x: Block, k: Block): Block {
    Block(WordXor(Sum4(Mask0(Td4(b, x.c0.w0)), Mask1(Td4(b, x.c3.w1)), Mask2(Td4(b, x.c2.w2)), Mask3(Td4(b, x.c1.w3))), k.c0),
          WordXor(Sum4(Mask0(Td4(b, x.c1.w0)), Mask1(Td4(b, x.c0.w1)), Mask2(Td4(b, x.c3.w2)), Mask3(Td4(b, x.c2.w3))), k.c1),
          WordXor(Sum4(Mask0(Td4(b, x.c2.w0)), Mask1(Td4(b, x.c1.w1)), Mask2(Td4(b, x.c0.w2)), Mask3(Td4(b, x.c3.w3))), k.c2),
          WordXor(Sum4(Mask0(Td4(b, x.c3.w0)), Mask1(Td4(b, x.c2.w1)), Mask2(Td4(b, x.c1.w2)), Mask3(Td4(b, x.c0.w3))), k.c3))
  }

  /** The tables fold SubBytes, ShiftRows and MixColumns into one look-up. */
  lemma TableRounds(b: SBox, x: Block, k: Block)
    ensures EncRound(b, x, k) == AddRoundKey(MixColumns(ShiftRows(SubBytes(b.s, x))), k)
    ensures DecRound(b, x, k) == AddRoundKey(InvMixColumns(InvShiftRows(SubBytes(b.si, x))), k)
  {
    hide Sum4, WordXor, MixWord0, MixWord1, MixWord2, MixWord3;
    hide InvMixWord0, InvMixWord1, InvMixWord2, InvMixWord3;
  }

  lemma LastEncRoundSteps(b: SBox, x: Block, k: Block)
    ensures LastEncRound(b, x, k) == AddRoundKey(ShiftRows(SubBytes(b.s, x)), k)
  {
    hide Sum4, WordXor, Mask0, Mask1, Mask2, Mask3;
    MaskedSum(Te4(b, x.c0.w0), Te4(b, x.c1.w1), Te4(b, x.c2.w2), Te4(b, x.c3.w3));
    MaskedSum(Te4(b, x.c1.w0), Te4(b, x.c2.w1), Te4(b, x.c3.w2), Te4(b, x.c0.w3));
    MaskedSum(Te4(b, x.c2.w0), Te4(b, x.c3.w1), Te4(b, x.c0.w2), Te4(b, x.c1.w3));
    MaskedSum(Te4(b, x.c3.w0), Te4(b, x.c0.w1), Te4(b, x.c1.w2), Te4(b, x.c2.w3));
  }

  lemma LastDecRoundSteps(b: SBox, x: Block, k: Block)
    ensures LastDecRound(b, x, k) == AddRoundKey(InvShiftRows(SubBytes(b.si, x)), k)
  {
    hide Sum4, WordXor, Mask0, Mask1, Mask2, Mask3;
    MaskedSum(Td4(b, x.c0.w0), Td4(b, x.c3.w1), Td4(b, x.c2.w2), Td4(b, x.c1.w3));
    MaskedSum(Td4(b, x.c1.w0), Td4(b, x.c0.w1), Td4(b, x.c3.w2), Td4(b, x.c2.w3));
    MaskedSum(Td4(b, x.c2.w0), Td4(b, x.c1.w1), Td4(b, x.c0.w2), Td4(b, x.c3.w3));
    MaskedSum(Td4(b, x.c3.w0), Td4(b, x.c2.w1), Td4(b, x.c1.w2), Td4(b, x.c0.w3));
  }

  // ---------------------------------------------------------- key and buffers

  /** AES_KEY: the schedule and the number of rounds. */
  class AesKey {
    const rdKey: array<Word>
    var rounds: nat

    constructor ()
      ensures fresh(rdKey) && rdKey.Length == MAX_WORDS && rounds == 0
    {
      rdKey := new Word[MAX_WORDS];
      rounds := 0;
    }

    /** What AES_encrypt and AES_decrypt need: an even number of rounds that fits. */
    ghost predicate Ready()
      reads this
    {
      rounds >= 2 && rounds % 2 == 0 && 4 * rounds + 4 <= rdKey.Length
    }
  }

  /** PUTU32 of the four state words: overwrites out[o..o+16]. */
  method PutBlock(out: array<Byte>, o: nat, x: Block)
    requires o + 16 <= out.Length
    modifies out
    ensures out[..] == old(out[..o]) + FromBlock(x) + old(out[o + 16..])
  {
    hide FromBlock;
    var s := FromBlock(x);
    var i := 0;
    while i < 16
      invariant 0 <= i <= 16
      invariant forall j | 0 <= j < i :: out[o + j] == s[j]
      invariant out[..o] == old(out[..o]) && out[o + i..] == old(out[o + i..])
    {
      out[o + i] := s[i];
      i := i + 1;
    }
    assert out[o..o + 16] == s;
    assert out[..] == out[..o] + out[o..o + 16] + out[o + 16..];
  }

  lemma CipherStep(b: SBox, rk: seq<Word>, x: Block, n: nat)
    requires 4 * n + 8 <= |rk|
    ensures EncRound(b, CipherRounds(b, rk, x, n), RoundKey(rk, n + 1)) == CipherRounds(b, rk, x, n + 1)
  {
    hide EncRound, AddRoundKey, MixColumns, ShiftRows, SubBytes, RoundKey;
    TableRounds(b, CipherRounds(b, rk, x, n), RoundKey(rk, n + 1));
  }

  lemma EqInvStep(b: SBox, dk: seq<Word>, y: Block, n: nat)
    requires 4 * n + 8 <= |dk|
    ensures DecRound(b, EqInvRounds(b, dk, y, n), RoundKey(dk, n + 1)) == EqInvRounds(b, dk, y, n + 1)
  {
    hide DecRound, AddRoundKey, InvMixColumns, InvShiftRows, SubBytes, RoundKey;
    TableRounds(b, EqInvRounds(b, dk, y, n), RoundKey(dk, n + 1));
  }

  /** The two-round loop of AES_encrypt, and its last round. */
  method EncryptBlock(b: SBox, x: Block, key: AesKey) returns (y: Block)
    requires key.Ready()
    ensures y == Cipher(b, key.rdKey[..], key.rounds, x)
  {
    hide EncRound, LastEncRound, AddRoundKey, MixColumns, ShiftRows, SubBytes;
    var rk := key.rdKey;
    ghost var n := 0;
    var s := AddRoundKey(x, Block(rk[0], rk[1], rk[2], rk[3]));
    var t := s;
    var p, r := 0, key.rounds / 2;
    while true
      invariant 0 < r <= key.rounds / 2 && p == 4 * n && n == 2 * (key.rounds / 2 - r)
      invariant s == CipherRounds(b, rk[..], x, n)
      decreases r
    {
      t := EncRound(b, s, Block(rk[p + 4], rk[p + 5], rk[p + 6], rk[p + 7]));
      CipherStep(b, rk[..], x, n);
      p := p + 8;
      r := r - 1;
      if r == 0 { break; }
      s := EncRound(b, t, Block(rk[p], rk[p + 1], rk[p + 2], rk[p + 3]));
      CipherStep(b, rk[..], x, n + 1);
      n := n + 2;
    }
    y := LastEncRound(b, t, Block(rk[p], rk[p + 1], rk[p + 2], rk[p + 3]));
    LastEncRoundSteps(b, t, RoundKey(rk[..], key.rounds));
  }

  /** AES_encrypt.  The input is read before the output is written, so the two
      may overlap. */
  method Encrypt(b: SBox, inp: array<Byte>, i: nat, out: array<Byte>, o: nat, key: AesKey)
    requires i + 16 <= inp.Length && o + 16 <= out.Length
    requires key.Ready()
    modifies out
    ensures out[..] == old(out[..o])
                       + FromBlock(Cipher(b, old(key.rdKey[..]), key.rounds, ToBlock(old(inp[i..i + 16]))))
                       + old(out[o + 16..])
  {
    hide ToBlock, FromBlock, Cipher;
    var y := EncryptBlock(b, ToBlock(inp[i..i + 16]), key);
    PutBlock(out, o, y);
  }

  /** The loop of AES_decrypt: the equivalent inverse cipher. */
  method DecryptBlock(b: SBox, y: Block, key: AesKey) returns (x: Block)
    requires key.Ready()
    ensures x == EqInvCipher(b, key.rdKey[..], key.rounds, y)
  {
    hide DecRound, LastDecRound, AddRoundKey, InvMixColumns, InvShiftRows, SubBytes;
    var rk := key.rdKey;
    ghost var n := 0;
    var s := AddRoundKey(y, Block(rk[0], rk[1], rk[2], rk[3]));
    var t := s;
    var p, r := 0, key.rounds / 2;
    while true
      invariant 0 < r <= key.rounds / 2 && p == 4 * n && n == 2 * (key.rounds / 2 - r)
      invariant s == EqInvRounds(b, rk[..], y, n)
      decreases r
    {
      t := DecRound(b, s, Block(rk[p + 4], rk[p + 5], rk[p + 6], rk[p + 7]));
      EqInvStep(b, rk[..], y, n);
      p := p + 8;
      r := r - 1;
      if r == 0 { break; }
      s := DecRound(b, t, Block(rk[p], rk[p + 1], rk[p + 2], rk[p + 3]));
      EqInvStep(b, rk[..], y, n + 1);
      n := n + 2;
    }
    x := LastDecRound(b, t, Block(rk[p], rk[p + 1], rk[p + 2], rk[p + 3]));
    LastDecRoundSteps(b, t, RoundKey(rk[..], key.rounds));
  }

  /** AES_decrypt. */
  method Decrypt(b: SBox, inp: array<Byte>, i: nat, out: array<Byte>, o: nat, key: AesKey)
    requires i + 16 <= inp.Length && o + 16 <= out.Length
    requires key.Ready()
    modifies out
    ensures out[..] == old(out[..o])
                       + FromBlock(EqInvCipher(b, old(key.rdKey[..]), key.rounds, ToBlock(old(inp[i..i + 16]))))
                       + old(out[o + 16..])
  {
    hide ToBlock, FromBlock, EqInvCipher;
    var x := DecryptBlock(b, ToBlock(inp[i..i + 16]), key);
    PutBlock(out, o, x);
  }
}

/** The key schedules (qemu-kvm/aes.c), proved to be the key expansion of
    section 5.2 of FIPS 197 and the transformed schedule of section 5.3.5. */
module AesKeySchedule {
  import opened AesByte
  import opened AesField
  import opened AesCipher
  import opened Aes

  const RCON: seq<Byte> := [0x01, 0x02, 0x04, 0x08, 0x10, 0x20, 0x40, 0x80, 0x1b, 0x36]

  /** x to the power n in the field. */
  function Power(n: nat): Byte {
    if n == 0 then 1 else Xtime(Power(n - 1))
  }

  /** The table holds the powers of x. */
  lemma RconPowers()
    ensures forall i :: 0 <= i < 10 ==> RCON[i] == Power(i)
  {
    assert Power(0) == 0x01;
    assert Power(1) == 0x02;
    assert Power(2) == 0x04;
    assert Power(3) == 0x08;
    assert Power(4) == 0x10;
    assert Power(5) == 0x20;
    assert Power(6) == 0x40;
    assert Power(7) == 0x80;
    assert Power(8) == 0x1b;
    assert Power(9) == 0x36;
  }

  function RotWord(w: Word): Word { Word(w.w1, w.w2, w.w3, w.w0) }

  function Rcon(i: nat): Word
    requires 0 < i
  {
    Word(Power(i - 1), 0, 0, 0)
  }

  /** Word |w| of the expansion, from the words before it. */
  function NextWord(b: SBox, w: seq<Word>, nk: nat): Word
    requires 0 < nk <= |w|
  {
    var n, temp := |w|, w[|w| - 1];
    WordXor(w[n - nk],
            if n % nk == 0 then WordXor(SubWord(b.s, RotWord(temp)), Rcon(n / nk))
            else if nk > 6 && n % nk == 4 then SubWord(b.s, temp)
            else temp)
  }

  /** The first n words of the expansion of a key of nk words. */
  function Expansion(b: SBox, key: seq<Byte>, nk: nat, n: nat): (w: seq<Word>)
    requires 0 < nk && 4 * nk <= |key|
    ensures |w| == n
  {
    if n == 0 then []
    else
      var w := Expansion(b, key, nk, n - 1);
      w + [if n - 1 < nk then GetWord(key, 4 * (n - 1)) else NextWord(b, w, nk)]
  }

  lemma Extended(b: SBox, key: seq<Byte>, nk: nat, rk: seq<Word>, n: nat)
    requires 0 < nk && 4 * nk <= |key| && n < |rk|
    requires rk[..n] == Expansion(b, key, nk, n)
    requires rk[n] == if n < nk then GetWord(key, 4 * n) else NextWord(b, rk[..n], nk)
    ensures rk[..n + 1] == Expansion(b, key, nk, n + 1)
  {
    hide NextWord, GetWord;
    assert rk[..n + 1] == rk[..n] + [rk[n]];
  }

  /** The sum with the masked, rotated look-ups and the round constant. */
  function RotSum(b: SBox, w: Word, temp: Word, i: nat): Word
    requires i < 10
  {
    WordXor(WordXor(WordXor(WordXor(WordXor(w, Mask0(Te4(b, temp.w1))), Mask1(Te4(b, temp.w2))),
                            Mask2(Te4(b, temp.w3))), Mask3(Te4(b, temp.w0))), Word(RCON[i], 0, 0, 0))
  }

  /** The sum with the masked look-ups in place, for 256-bit keys. */
  function PlainSum(b: SBox, w: Word, temp: Word): Word {
    WordXor(WordXor(WordXor(WordXor(w, Mask0(Te4(b, temp.w0))), Mask1(Te4(b, temp.w1))),
                    Mask2(Te4(b, temp.w2))), Mask3(Te4(b, temp.w3)))
  }

  lemma SumRegroup(w: Word, a: Word, b: Word, c: Word, d: Word)
    ensures WordXor(WordXor(WordXor(WordXor(w, a), b), c), d) == WordXor(w, Sum4(a, b, c, d))
  {
    hide WordXor;
    WordXorAssoc(w, a, b);
    WordXorAssoc(w, WordXor(a, b), c);
    WordXorAssoc(w, WordXor(WordXor(a, b), c), d);
  }

  lemma SumsOfWords(b: SBox, w: Word, temp: Word, i: nat)
    requires i < 10
    ensures RotSum(b, w, temp, i) == WordXor(w, WordXor(SubWord(b.s, RotWord(temp)), Rcon(i + 1)))
    ensures PlainSum(b, w, temp) == WordXor(w, SubWord(b.s, temp))
  {
    hide WordXor, Sum4, Mask0, Mask1, Mask2, Mask3, Power;
    RconPowers();
    SumRegroup(w, Mask0(Te4(b, temp.w1)), Mask1(Te4(b, temp.w2)), Mask2(Te4(b, temp.w3)), Mask3(Te4(b, temp.w0)));
    MaskedSum(Te4(b, temp.w1), Te4(b, temp.w2), Te4(b, temp.w3), Te4(b, temp.w0));
    WordXorAssoc(w, SubWord(b.s, RotWord(temp)), Rcon(i + 1));
    SumRegroup(w, Mask0(Te4(b, temp.w0)), Mask1(Te4(b, temp.w1)), Mask2(Te4(b, temp.w2)), Mask3(Te4(b, temp.w3)));
    MaskedSum(Te4(b, temp.w0), Te4(b, temp.w1), Te4(b, temp.w2), Te4(b, temp.w3));
  }

  /** Stores word n of the expansion behind the n words already there. */
  method Store(b: SBox, ghost key: seq<Byte>, nk: nat, rk: array<Word>, n: nat, w: Word)
    requires 0 < nk && 4 * nk <= |key| && n < rk.Length
    requires rk[..n] == Expansion(b, key, nk, n)
    requires w == if n < nk then GetWord(key, 4 * n) else NextWord(b, rk[..n], nk)
    modifies rk
    ensures rk[..n + 1] == Expansion(b, key, nk, n + 1)
    ensures rk[..n] == old(rk[..n]) && rk[n] == w
  {
    hide NextWord, GetWord, Expansion;
    rk[n] := w;
    Extended(b, key, nk, rk[..], n);
  }

  /** No substitution at word n. */
  ghost predicate Plain(nk: nat, n: nat)
    requires 0 < nk
  {
    n % nk != 0 && !(nk > 6 && n % nk == 4)
  }

  /** A new word n and the three sums that follow it. */
  method StoreFour(b: SBox, ghost key: seq<Byte>, nk: nat, rk: array<Word>, n: nat, w: Word)
    requires 4 <= nk <= n && 4 * nk <= |key| && n + 4 <= rk.Length
    requires Plain(nk, n + 1) && Plain(nk, n + 2) && Plain(nk, n + 3)
    requires rk[..n] == Expansion(b, key, nk, n)
    requires w == NextWord(b, rk[..n], nk)
    modifies rk
    ensures rk[..n + 4] == Expansion(b, key, nk, n + 4)
    ensures rk[..n] == old(rk[..n])
  {
    hide WordXor, SubWord, RotWord, Rcon, Expansion;
    var p := n - nk;
    Store(b, key, nk, rk, n, w);
    Store(b, key, nk, rk, n + 1, WordXor(rk[p + 1], rk[n]));
    Store(b, key, nk, rk, n + 2, WordXor(rk[p + 2], rk[n + 1]));
    Store(b, key, nk, rk, n + 3, WordXor(rk[p + 3], rk[n + 2]));
  }

  method Expand128(b: SBox, ghost key: seq<Byte>, rk: array<Word>)
    requires |key| >= 16 && rk.Length == MAX_WORDS
    requires rk[..4] == Expansion(b, key, 4, 4)
    modifies rk
    ensures rk[..44] == Expansion(b, key, 4, 44)
  {
    hide WordXor, RotSum, SubWord, RotWord, Rcon, Expansion;
    var i, p := 0, 0;
    while true
      invariant 0 <= i < 10 && p == 4 * i
      invariant rk[..p + 4] == Expansion(b, key, 4, p + 4)
      decreases 10 - i
    {
      SumsOfWords(b, rk[p], rk[p + 3], i);
      StoreFour(b, key, 4, rk, p + 4, RotSum(b, rk[p], rk[p + 3], i));
      i := i + 1;
      if i == 10 { return; }
      p := p + 4;
    }
  }

  method Expand192(b: SBox, ghost key: seq<Byte>, rk: array<Word>)
    requires |key| >= 24 && rk.Length == MAX_WORDS
    requires rk[..6] == Expansion(b, key, 6, 6)
    modifies rk
    ensures rk[..52] == Expansion(b, key, 6, 52)
  {
    hide WordXor, RotSum, SubWord, RotWord, Rcon, Expansion;
    var i, p := 0, 0;
    while true
      invariant 0 <= i < 8 && p == 6 * i
      invariant rk[..p + 6] == Expansion(b, key, 6, p + 6)
      decreases 8 - i
    {
      SumsOfWords(b, rk[p], rk[p + 5], i);
      StoreFour(b, key, 6, rk, p + 6, RotSum(b, rk[p], rk[p + 5], i));
      i := i + 1;
      if i == 8 { return; }
      Store(b, key, 6, rk, p + 10, WordXor(rk[p + 4], rk[p + 9]));
      Store(b, key, 6, rk, p + 11, WordXor(rk[p + 5], rk[p + 10]));
      p := p + 6;
    }
  }

  method Expand256(b: SBox, ghost key: seq<Byte>, rk: array<Word>)
    requires |key| >= 32 && rk.Length == MAX_WORDS
    requires rk[..8] == Expansion(b, key, 8, 8)
    modifies rk
    ensures rk[..60] == Expansion(b, key, 8, 60)
  {
    hide WordXor, RotSum, PlainSum, SubWord, RotWord, Rcon, Expansion;
    var i, p := 0, 0;
    while true
      invariant 0 <= i < 7 && p == 8 * i
      invariant rk[..p + 8] == Expansion(b, key, 8, p + 8)
      decreases 7 - i
    {
      SumsOfWords(b, rk[p], rk[p + 7], i);
      StoreFour(b, key, 8, rk, p + 8, RotSum(b, rk[p], rk[p + 7], i));
      i := i + 1;
      if i == 7 { return; }
      SumsOfWords(b, rk[p + 4], rk[p + 11], 0);
      StoreFour(b, key, 8, rk, p + 12, PlainSum(b, rk[p + 4], rk[p + 11]));
      p := p + 8;
    }
  }

  /** The words of a key stored as they are. */
  method StoreKey(b: SBox, userKey: seq<Byte>, nk: nat, rk: array<Word>)
    requires 0 < nk <= rk.Length && 4 * nk <= |userKey|
    modifies rk
    ensures rk[..nk] == Expansion(b, userKey, nk, nk)
  {
    hide GetWord, NextWord, Expansion;
    assert rk[..0] == Expansion(b, userKey, nk, 0) by { Empty(b, userKey, nk); }
    var i := 0;
    while i < nk
      invariant 0 <= i <= nk
      invariant rk[..i] == Expansion(b, userKey, nk, i)
    {
      Store(b, userKey, nk, rk, i, GetWord(userKey, 4 * i));
      i := i + 1;
    }
  }

  lemma Empty(b: SBox, key: seq<Byte>, nk: nat)
    requires 0 < nk && 4 * nk <= |key|
    ensures Expansion(b, key, nk, 0) == []
  {
  }

  // ------------------------------------------------------------ the two entries

  predicate KeySize(bits: int) { bits == 128 || bits == 192 || bits == 256 }

  /** Number of words in the key: Nk; the number of rounds is Nk + 6. */
  function KeyWords(bits: int): nat
    requires KeySize(bits)
  {
    bits / 32
  }

  /** AES_set_encrypt_key. */
  method SetEncryptKey(b: SBox, userKey: array?<Byte>, bits: int, key: AesKey?) returns (status: int)
    requires key != null ==> key.rdKey.Length == MAX_WORDS
    requires userKey != null && KeySize(bits) ==> 8 * userKey.Length >= bits
    modifies if key == null then {} else {key, key.rdKey}
    ensures status == if userKey == null || key == null then -1 else if !KeySize(bits) then -2 else 0
    ensures status < 0 && key != null ==> key.rounds == old(key.rounds) && key.rdKey[..] == old(key.rdKey[..])
    ensures status == 0 ==> key.Ready() && key.rounds == KeyWords(bits) + 6
    ensures status == 0 ==>
              var n := 4 * key.rounds + 4;
              key.rdKey[..n] == Expansion(b, old(userKey[..]), KeyWords(bits), n)
  {
    hide Expansion;
    if userKey == null || key == null { return -1; }
    if bits != 128 && bits != 192 && bits != 256 { return -2; }
    var rk, bytes := key.rdKey, userKey[..];
    if bits == 128 {
      key.rounds := 10;
    } else if bits == 192 {
      key.rounds := 12;
    } else {
      key.rounds := 14;
    }
    StoreKey(b, bytes, bits / 32, rk);
    if bits == 128 {
      Expand128(b, bytes, rk);
    } else if bits == 192 {
      Expand192(b, bytes, rk);
    } else {
      Expand256(b, bytes, rk);
    }
    status := 0;
  }

  // --------------------------------------------------- the decryption schedule

  lemma RoundKeyOfPrefix(rk: seq<Word>, n: nat, i: nat)
    requires 4 * i + 4 <= n <= |rk|
    ensures RoundKey(rk[..n], i) == RoundKey(rk, i)
  {
  }

  /** Exchanges round keys i and j. */
  method SwapRoundKeys(rk: array<Word>, i: nat, j: nat)
    requires i < j && 4 * j + 4 <= rk.Length
    modifies rk
    ensures RoundKey(rk[..], i) == old(RoundKey(rk[..], j)) && RoundKey(rk[..], j) == old(RoundKey(rk[..], i))
    ensures forall m: nat :: 4 * m + 4 <= rk.Length && m != i && m != j ==>
              RoundKey(rk[..], m) == old(RoundKey(rk[..], m))
  {
    var p, q := 4 * i, 4 * j;
    rk[p], rk[q] := rk[q], rk[p];
    rk[p + 1], rk[q + 1] := rk[q + 1], rk[p + 1];
    rk[p + 2], rk[q + 2] := rk[q + 2], rk[p + 2];
    rk[p + 3], rk[q + 3] := rk[q + 3], rk[p + 3];
    assert forall k :: 0 <= k < rk.Length && !(p <= k < p + 4) && !(q <= k < q + 4) ==> rk[k] == old(rk[k]);
  }

  method ReverseRoundKeys(rk: array<Word>, nr: nat)
    requires 4 * nr + 4 <= rk.Length
    modifies rk
    ensures forall m: nat :: m <= nr ==> RoundKey(rk[..], m) == old(RoundKey(rk[..], nr - m))
  {
    hide RoundKey;
    var i, j := 0, nr;
    while i < j
      invariant 0 <= i && j == nr - i && i <= j + 1
      invariant forall m: nat :: m <= nr && (m < i || j < m) ==> RoundKey(rk[..], m) == old(RoundKey(rk[..], nr - m))
      invariant forall m: nat :: i <= m <= j ==> RoundKey(rk[..], m) == old(RoundKey(rk[..], m))
    {
      SwapRoundKeys(rk, i, j);
      i, j := i + 1, j - 1;
    }
  }

  /** InvMixColumns by way of the encryption and decryption tables. */
  function TableInvMix(b: SBox, w: Word): Word {
    Sum4(Td0(b, Te4(b, w.w0).w3), Td1(b, Te4(b, w.w1).w3), Td2(b, Te4(b, w.w2).w3), Td3(b, Te4(b, w.w3).w3))
  }

  lemma TableInvMixIs(b: SBox, w: Word)
    requires Inverts(b)
    ensures TableInvMix(b, w) == InvMixColumn(w)
  {
    hide Sum4, InvMixWord0, InvMixWord1, InvMixWord2, InvMixWord3;
  }

  method InvMixRoundKey(b: SBox, rk: array<Word>, i: nat)
    requires Inverts(b) && 4 * i + 4 <= rk.Length
    modifies rk
    ensures RoundKey(rk[..], i) == InvMixColumns(old(RoundKey(rk[..], i)))
    ensures forall m: nat :: 4 * m + 4 <= rk.Length && m != i ==> RoundKey(rk[..], m) == old(RoundKey(rk[..], m))
  {
    hide TableInvMix, InvMixColumn;
    TableInvMixIs(b, rk[4 * i]);
    TableInvMixIs(b, rk[4 * i + 1]);
    TableInvMixIs(b, rk[4 * i + 2]);
    TableInvMixIs(b, rk[4 * i + 3]);
    rk[4 * i] := TableInvMix(b, rk[4 * i]);
    rk[4 * i + 1] := TableInvMix(b, rk[4 * i + 1]);
    rk[4 * i + 2] := TableInvMix(b, rk[4 * i + 2]);
    rk[4 * i + 3] := TableInvMix(b, rk[4 * i + 3]);
  }

  method InvMixRoundKeys(b: SBox, rk: array<Word>, nr: nat)
    requires Inverts(b) && 0 < nr && 4 * nr + 4 <= rk.Length
    modifies rk
    ensures RoundKey(rk[..], 0) == old(RoundKey(rk[..], 0)) && RoundKey(rk[..], nr) == old(RoundKey(rk[..], nr))
    ensures forall m: nat :: 0 < m < nr ==> RoundKey(rk[..], m) == InvMixColumns(old(RoundKey(rk[..], m)))
  {
    hide RoundKey, InvMixColumns;
    var i := 1;
    while i < nr
      invariant 1 <= i <= nr
      invariant RoundKey(rk[..], 0) == old(RoundKey(rk[..], 0))
      invariant forall m: nat :: 0 < m < i ==> RoundKey(rk[..], m) == InvMixColumns(old(RoundKey(rk[..], m)))
      invariant forall m: nat :: i <= m <= nr ==> RoundKey(rk[..], m) == old(RoundKey(rk[..], m))
    {
      InvMixRoundKey(b, rk, i);
      i := i + 1;
    }
  }

  /** AES_set_decrypt_key. */
  method SetDecryptKey(b: SBox, userKey: array?<Byte>, bits: int, key: AesKey?) returns (status: int)
    requires Inverts(b)
    requires key != null ==> key.rdKey.Length == MAX_WORDS
    requires userKey != null && KeySize(bits) ==> 8 * userKey.Length >= bits
    modifies if key == null then {} else {key, key.rdKey}
    ensures status == if userKey == null || key == null then -1 else if !KeySize(bits) then -2 else 0
    ensures status < 0 && key != null ==> key.rounds == old(key.rounds) && key.rdKey[..] == old(key.rdKey[..])
    ensures status == 0 ==> key.Ready() && key.rounds == KeyWords(bits) + 6
    ensures status == 0 ==>
              var nr := key.rounds;
              DecryptSchedule(key.rdKey[..], Expansion(b, old(userKey[..]), KeyWords(bits), 4 * nr + 4), nr)
  {
    hide Expansion, RoundKey, InvMixColumns;
    status := SetEncryptKey(b, userKey, bits, key);
    if status < 0 { return; }
    ghost var nr := key.rounds;
    ghost var w := key.rdKey[..];
    forall m: nat | m <= nr ensures RoundKey(w[..4 * nr + 4], m) == RoundKey(w, m) {
      RoundKeyOfPrefix(w, 4 * nr + 4, m);
    }
    ReverseRoundKeys(key.rdKey, key.rounds);
    InvMixRoundKeys(b, key.rdKey, key.rounds);
  }

  // ------------------------------------------------------------- the main result

  /** Decrypting with the schedule SetDecryptKey leaves undoes encrypting with
      the schedule SetEncryptKey leaves, whatever the key and the block; and on
      every block it is the inverse cipher of FIPS 197. */
  lemma DecryptUndoesEncrypt(b: SBox, ek: seq<Word>, dk: seq<Word>, w: seq<Word>, nr: nat, s: seq<Byte>)
    requires Inverts(b) && HasRounds(w, nr) && HasRounds(dk, nr) && |s| == 16
    requires |w| == 4 * nr + 4 <= |ek| && ek[..4 * nr + 4] == w && DecryptSchedule(dk, w, nr)
    ensures var c := FromBlock(Cipher(b, ek, nr, ToBlock(s)));
            FromBlock(EqInvCipher(b, dk, nr, ToBlock(c))) == s
    ensures EqInvCipher(b, dk, nr, ToBlock(s)) == InvCipher(b, w, nr, ToBlock(s))
  {
    hide Cipher, EqInvCipher, InvCipher, ToBlock, FromBlock;
    var x := ToBlock(s);
    CipherOfPrefix(b, ek, nr, x);
    var y := Cipher(b, w, nr, x);
    BlockBytes(y);
    EqInvCipherSame(b, dk, w, nr, y);
    EqInvCipherSame(b, dk, w, nr, x);
    InvCipherInverse(b, w, nr, x);
    BytesBlock(s);
  }

  /** Encrypting undoes decrypting, too: each is a permutation of the blocks. */
  lemma EncryptUndoesDecrypt(b: SBox, ek: seq<Word>, dk: seq<Word>, w: seq<Word>, nr: nat, s: seq<Byte>)
    requires Inverts(b) && HasRounds(w, nr) && HasRounds(dk, nr) && |s| == 16
    requires |w| == 4 * nr + 4 <= |ek| && ek[..4 * nr + 4] == w && DecryptSchedule(dk, w, nr)
    ensures var p := FromBlock(EqInvCipher(b, dk, nr, ToBlock(s)));
            FromBlock(Cipher(b, ek, nr, ToBlock(p))) == s
  {
    hide Cipher, EqInvCipher, InvCipher, ToBlock, FromBlock;
    var y := ToBlock(s);
    EqInvCipherSame(b, dk, w, nr, y);
    var x := InvCipher(b, w, nr, y);
    BlockBytes(x);
    CipherOfPrefix(b, ek, nr, x);
    CipherInverse(b, w, nr, y);
    BytesBlock(s);
  }

  lemma {:induction false} RoundsOfPrefix(b: SBox, rk: seq<Word>, nr: nat, x: Block, n: nat)
    requires n <= nr && 4 * nr + 4 <= |rk|
    ensures CipherRounds(b, rk[..4 * nr + 4], x, n) == CipherRounds(b, rk, x, n)
  {
    hide AddRoundKey, MixColumns, ShiftRows, SubBytes, RoundKey;
    RoundKeyOfPrefix(rk, 4 * nr + 4, n);
    if n != 0 { RoundsOfPrefix(b, rk, nr, x, n - 1); }
  }

  lemma CipherOfPrefix(b: SBox, rk: seq<Word>, nr: nat, x: Block)
    requires HasRounds(rk, nr)
    ensures Cipher(b, rk[..4 * nr + 4], nr, x) == Cipher(b, rk, nr, x)
  {
    hide AddRoundKey, ShiftRows, SubBytes, RoundKey, CipherRounds;
    RoundKeyOfPrefix(rk, 4 * nr + 4, nr);
    RoundsOfPrefix(b, rk, nr, x, nr - 1);
  }
}
