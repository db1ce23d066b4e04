/** Cipher block chaining (section 6.2 of NIST SP 800-38A) over any block cipher,
    with the partial last block that AES_cbc_encrypt (qemu-kvm/aes.c) adds. */
module CbcMode {
  import opened AesByte

  type Chunk = s: seq<Byte> | |s| == 16 witness Zeros(16)

  function Zeros(n: nat): (r: seq<Byte>)
    ensures |r| == n
  {
    seq(n, i => 0)
  }

  /** Decrypting with d undoes encrypting with e. */
  ghost predicate Paired(e: Chunk -> Chunk, d: Chunk -> Chunk) {
    forall s: Chunk :: d(e(s)) == s
  }

  function XorChunk(a: Chunk, b: Chunk): (r: Chunk) {
    seq(16, i requires 0 <= i < 16 => Xor(a[i], b[i]))
  }

  function Pad(s: seq<Byte>): (r: Chunk)
    requires |s| <= 16
  {
    s + Zeros(16 - |s|)
  }

  /** Number of bytes in the blocks that hold n bytes. */
  function Blocks(n: nat): (m: nat)
    ensures n <= m < n + 16
  {
    if n == 0 then 0 else if n < 16 then 16 else 16 + Blocks(n - 16)
  }

  /** What encryption writes: a whole number of blocks. */
  ghost function CbcEnc(e: Chunk -> Chunk, data: seq<Byte>, iv: Chunk): (r: seq<Byte>)
    ensures |r| == Blocks(|data|)
    decreases |data|
  {
    if |data| == 0 then []
    else if |data| < 16 then e(XorChunk(Pad(data), iv))
    else
      var y := e(XorChunk(data[..16], iv));
      y + CbcEnc(e, data[16..], y)
  }

  /** The chaining value encryption leaves: the last block written. */
  ghost function CbcEncIv(e: Chunk -> Chunk, data: seq<Byte>, iv: Chunk): Chunk
    decreases |data|
  {
    if |data| == 0 then iv
    else if |data| < 16 then e(XorChunk(Pad(data), iv))
    else CbcEncIv(e, data[16..], e(XorChunk(data[..16], iv)))
  }

  ghost function CbcDec(d: Chunk -> Chunk, text: seq<Byte>, n: nat, iv: Chunk): (r: seq<Byte>)
    requires |text| >= Blocks(n)
    ensures |r| == n
    decreases n
  {
    if n == 0 then []
    else if n < 16 then XorChunk(d(text[..16]), iv)[..n]
    else XorChunk(d(text[..16]), iv) + CbcDec(d, text[16..], n - 16, text[..16])
  }

  /** The chaining value decryption leaves.  After a partial block it is the
      decrypted block, not the cipher text. */
  ghost function CbcDecIv(d: Chunk -> Chunk, text: seq<Byte>, n: nat, iv: Chunk): Chunk
    requires |text| >= Blocks(n)
    decreases n
  {
    if n == 0 then iv
    else if n < 16 then d(text[..16])
    else CbcDecIv(d, text[16..], n - 16, text[..16])
  }

  // -------------------------------------------------------------- its laws

  lemma XorTwice(a: Chunk, b: Chunk)
    ensures XorChunk(XorChunk(a, b), b) == a
  {
    hide Xor;
    forall i | 0 <= i < 16 ensures XorChunk(XorChunk(a, b), b)[i] == a[i] { XorCancel(a[i], b[i]); }
  }

  /** Decryption returns the data, for every length. */
  lemma {:induction false} CbcRoundTrip(e: Chunk -> Chunk, d: Chunk -> Chunk, data: seq<Byte>, iv: Chunk)
    requires Paired(e, d)
    ensures CbcDec(d, CbcEnc(e, data, iv), |data|, iv) == data
    decreases |data|
  {
    hide XorChunk;
    if |data| == 0 {
    } else if |data| < 16 {
      XorTwice(Pad(data), iv);
      assert CbcEnc(e, data, iv)[..16] == CbcEnc(e, data, iv);
    } else {
      var y := e(XorChunk(data[..16], iv));
      CbcRoundTrip(e, d, data[16..], y);
      XorTwice(data[..16], iv);
      var rest: seq<Byte> := CbcEnc(e, data[16..], y);
      var text: seq<Byte> := y + rest;
      assert text[..16] == y && text[16..] == rest;
      assert data == data[..16] + data[16..];
    }
  }

  /** Both directions leave the same chaining value on whole blocks; on a partial
      last block decryption leaves the padded data added to the previous value. */
  lemma {:induction false} CbcIvs(e: Chunk -> Chunk, d: Chunk -> Chunk, data: seq<Byte>, z: seq<Byte>, iv: Chunk)
    requires Paired(e, d) && |data| % 16 == 0 && |z| < 16
    ensures CbcDecIv(d, CbcEnc(e, data + z, iv), |data + z|, iv) ==
            if z == [] then CbcEncIv(e, data, iv) else XorChunk(Pad(z), CbcEncIv(e, data, iv))
    decreases |data|
  {
    hide XorChunk;
    if |data| == 0 {
      assert data + z == z;
      assert CbcEnc(e, z, iv)[..|CbcEnc(e, z, iv)|] == CbcEnc(e, z, iv);
    } else {
      assert (data + z)[..16] == data[..16] && (data + z)[16..] == data[16..] + z;
      var y := e(XorChunk(data[..16], iv));
      CbcIvs(e, d, data[16..], z, y);
      var rest: seq<Byte> := CbcEnc(e, data[16..] + z, y);
      var text: seq<Byte> := y + rest;
      assert text[..16] == y && text[16..] == rest;
    }
  }

  lemma Joined(a: seq<Byte>, b: seq<Byte>, c: seq<Byte>)
    ensures a + (b + c) == (a + b) + c
  {
  }

  lemma EncNothing(e: Chunk -> Chunk, iv: Chunk)
    ensures CbcEnc(e, [], iv) == [] && CbcEncIv(e, [], iv) == iv
  {
  }

  lemma DecNothing(d: Chunk -> Chunk, text: seq<Byte>, iv: Chunk)
    requires |text| >= Blocks(0)
    ensures CbcDec(d, text, 0, iv) == [] && CbcDecIv(d, text, 0, iv) == iv
  {
  }

  lemma EncUnfold(e: Chunk -> Chunk, first: Chunk, rest: seq<Byte>, iv: Chunk)
    ensures var y := e(XorChunk(first, iv));
      CbcEnc(e, first + rest, iv) == y + CbcEnc(e, rest, y) && CbcEncIv(e, first + rest, iv) == CbcEncIv(e, rest, y)
  {
    hide XorChunk;
    var data: seq<Byte> := first + rest;
    assert data[..16] == first && data[16..] == rest;
  }

  /** A call may be split at a block boundary, in either direction. */
  lemma {:induction false} CbcEncSplits(e: Chunk -> Chunk, a: seq<Byte>, z: seq<Byte>, iv: Chunk)
    requires |a| % 16 == 0
    ensures CbcEnc(e, a + z, iv) == CbcEnc(e, a, iv) + CbcEnc(e, z, CbcEncIv(e, a, iv))
    ensures CbcEncIv(e, a + z, iv) == CbcEncIv(e, z, CbcEncIv(e, a, iv))
    decreases |a|
  {
    hide XorChunk, CbcEnc, CbcEncIv;
    if |a| == 0 {
      assert a + z == z;
      EncNothing(e, iv);
    } else {
      var first: Chunk, rest := a[..16], a[16..];
      assert a == first + rest && a + z == first + (rest + z);
      EncUnfold(e, first, rest + z, iv);
      EncUnfold(e, first, rest, iv);
      var y := e(XorChunk(first, iv));
      CbcEncSplits(e, rest, z, y);
      Joined(y, CbcEnc(e, rest, y), CbcEnc(e, z, CbcEncIv(e, rest, y)));
    }
  }

  lemma BlocksNext(n: nat)
    ensures Blocks(16 + n) == 16 + Blocks(n)
  {
  }

  lemma BlocksNone()
    ensures Blocks(0) == 0
  {
  }

  lemma {:induction false} BlocksSum(k: nat, n: nat)
    ensures Blocks(16 * k) == 16 * k && Blocks(16 * k + n) == 16 * k + Blocks(n)
  {
    hide Blocks;
    BlocksNone();
    if k != 0 {
      var m := 16 * (k - 1);
      BlocksSum(k - 1, n);
      BlocksNext(m);
      BlocksNext(m + n);
    }
  }

  lemma DecUnfold(d: Chunk -> Chunk, first: Chunk, rest: seq<Byte>, n: nat, iv: Chunk)
    requires |rest| >= Blocks(n)
    ensures Blocks(16 + n) == 16 + Blocks(n)
    ensures CbcDec(d, first + rest, 16 + n, iv) == XorChunk(d(first), iv) + CbcDec(d, rest, n, first)
    ensures CbcDecIv(d, first + rest, 16 + n, iv) == CbcDecIv(d, rest, n, first)
  {
    hide XorChunk;
    var text: seq<Byte> := first + rest;
    assert text[..16] == first && text[16..] == rest;
  }

  lemma {:induction false} CbcDecSplits(d: Chunk -> Chunk, a: seq<Byte>, z: seq<Byte>, n: nat, iv: Chunk)
    requires |a| % 16 == 0 && |z| >= Blocks(n)
    ensures Blocks(|a|) == |a| && Blocks(|a| + n) == |a| + Blocks(n)
    ensures CbcDec(d, a + z, |a| + n, iv) == CbcDec(d, a, |a|, iv) + CbcDec(d, z, n, CbcDecIv(d, a, |a|, iv))
    ensures CbcDecIv(d, a + z, |a| + n, iv) == CbcDecIv(d, z, n, CbcDecIv(d, a, |a|, iv))
    decreases |a|
  {
    hide XorChunk, CbcDec, CbcDecIv, Blocks;
    BlocksSum(|a| / 16, n);
    if |a| == 0 {
      assert a + z == z;
      DecNothing(d, a, iv);
    } else {
      var first: Chunk, rest := a[..16], a[16..];
      assert a == first + rest && a + z == first + (rest + z);
      BlocksSum(|rest| / 16, n);
      DecUnfold(d, first, rest + z, |rest| + n, iv);
      DecUnfold(d, first, rest, |rest|, iv);
      CbcDecSplits(d, rest, z, n, first);
      Joined(XorChunk(d(first), iv), CbcDec(d, rest, |rest|, first), CbcDec(d, z, n, CbcDecIv(d, rest, |rest|, first)));
    }
  }
}

/** AES_cbc_encrypt: the two directions, in place or from one buffer to another. */
module Cbc {
  import opened AesByte
  import opened AesField
  import opened AesCipher
  import opened Aes
  import opened AesKeySchedule
  import opened CbcMode
  import opened CbcBuffers

  ghost function E(b: SBox, rk: seq<Word>, nr: nat): Chunk -> Chunk
    requires HasRounds(rk, nr)
  {
    (s: Chunk) => FromBlock(Cipher(b, rk, nr, ToBlock(s)))
  }

  ghost function D(b: SBox, rk: seq<Word>, nr: nat): Chunk -> Chunk
    requires HasRounds(rk, nr)
  {
    (s: Chunk) => FromBlock(EqInvCipher(b, rk, nr, ToBlock(s)))
  }

  /** ek and dk are what the two key set-ups leave for one user key. */
  ghost predicate SameKey(b: SBox, ek: seq<Word>, dk: seq<Word>, key: seq<Byte>, bits: int) {
    && KeySize(bits) && 8 * |key| >= bits
    && var nr := KeyWords(bits) + 6;
       var w := Expansion(b, key, KeyWords(bits), 4 * nr + 4);
       |ek| >= 4 * nr + 4 && |dk| >= 4 * nr + 4 && ek[..4 * nr + 4] == w && DecryptSchedule(dk, w, nr)
  }

  lemma SchedulesPaired(b: SBox, ek: seq<Word>, dk: seq<Word>, key: seq<Byte>, bits: int)
    requires Inverts(b) && SameKey(b, ek, dk, key, bits)
    ensures Paired(E(b, ek, KeyWords(bits) + 6), D(b, dk, KeyWords(bits) + 6))
    ensures Paired(D(b, dk, KeyWords(bits) + 6), E(b, ek, KeyWords(bits) + 6))
  {
    hide Cipher, EqInvCipher, ToBlock, FromBlock, Expansion, InvCipher, DecryptSchedule;
    var nr := KeyWords(bits) + 6;
    var w := Expansion(b, key, KeyWords(bits), 4 * nr + 4);
    forall s: Chunk ensures D(b, dk, nr)(E(b, ek, nr)(s)) == s { DecryptUndoesEncrypt(b, ek, dk, w, nr, s); }
    forall s: Chunk ensures E(b, ek, nr)(D(b, dk, nr)(s)) == s { EncryptUndoesDecrypt(b, ek, dk, w, nr, s); }
  }

  /** Decrypting under the decryption key what was encrypted under the encryption
      key of the same user key, from the same initial value, returns the data. */
  lemma CbcReturnsData(b: SBox, ek: seq<Word>, dk: seq<Word>, key: seq<Byte>, bits: int, data: seq<Byte>, iv: Chunk)
    requires Inverts(b) && SameKey(b, ek, dk, key, bits)
    ensures var nr := KeyWords(bits) + 6;
            CbcDec(D(b, dk, nr), CbcEnc(E(b, ek, nr), data, iv), |data|, iv) == data
  {
    hide E, D, DecryptSchedule, Expansion;
    SchedulesPaired(b, ek, dk, key, bits);
    CbcRoundTrip(E(b, ek, KeyWords(bits) + 6), D(b, dk, KeyWords(bits) + 6), data, iv);
  }

  /** Under the schedule of a user key, encrypting within a buffer is right for whatever
      the buffer holds if and only if the output does not begin inside the input or
      the input is a single block. */
  lemma OverlapExact(b: SBox, ek: seq<Word>, dk: seq<Word>, key: seq<Byte>, bits: int, size: nat, i: nat, o: nat, n: nat, iv: Chunk)
    requires Inverts(b) && SameKey(b, ek, dk, key, bits) && i + n <= size && o + Blocks(n) <= size
    ensures Harmless(i, n, o) <==>
            forall buf: seq<Byte> | |buf| == size :: EncRight(E(b, ek, KeyWords(bits) + 6), true, buf, i, buf, o, n, iv)
  {
    hide E, D, Expansion, DecryptSchedule, EncRight;
    var e, d := E(b, ek, KeyWords(bits) + 6), D(b, dk, KeyWords(bits) + 6);
    SchedulesPaired(b, ek, dk, key, bits);
    PairedInjective(e, d);
    EncExact(e, size, i, o, n, iv);
  }

  /** Likewise for decrypting under the schedule of a user key. */
  lemma DecryptOverlapExact(b: SBox, ek: seq<Word>, dk: seq<Word>, key: seq<Byte>, bits: int, size: nat, i: nat, o: nat, n: nat, iv: Chunk)
    requires Inverts(b) && SameKey(b, ek, dk, key, bits) && i + Blocks(n) <= size && o + n <= size
    ensures Harmless(i, Blocks(n), o) <==>
            forall buf: seq<Byte> | |buf| == size ::
              DecRight(D(b, dk, KeyWords(bits) + 6), true, buf[i..i + Blocks(n)], buf, i, buf, o, n, iv)
  {
    hide E, D, Expansion, DecryptSchedule, DecRight, Blocks;
    var e, d := E(b, ek, KeyWords(bits) + 6), D(b, dk, KeyWords(bits) + 6);
    SchedulesPaired(b, ek, dk, key, bits);
    PairedInjective(d, e);
    DecExact(d, size, i, o, n, iv);
  }

  // ------------------------------------------------------------ buffers

  /** The schedule is not the buffer. */
  ghost predicate Apart(key: AesKey, a: array<Byte>) {
    var k: object := key.rdKey;
    k != a
  }

  /** tmp gets the n bytes of inp at p, padded, added to ivec. */
  method XorIn(tmp: array<Byte>, inp: array<Byte>, p: nat, n: nat, ivec: array<Byte>)
    requires tmp.Length == 16 == ivec.Length && n <= 16 && p + n <= inp.Length
    requires tmp != inp && tmp != ivec
    modifies tmp
    ensures tmp[..] == XorChunk(Pad(inp[p..p + n]), ivec[..])
  {
    hide Xor;
    var k := 0;
    while k < n
      invariant 0 <= k <= n
      invariant forall j :: 0 <= j < k ==> tmp[j] == Xor(inp[p + j], ivec[j])
    {
      tmp[k] := Xor(inp[p + k], ivec[k]);
      k := k + 1;
    }
    while k < 16
      invariant n <= k <= 16
      invariant forall j :: 0 <= j < n ==> tmp[j] == Xor(inp[p + j], ivec[j])
      invariant forall j :: n <= j < k ==> tmp[j] == ivec[j]
    {
      tmp[k] := ivec[k];
      k := k + 1;
    }
    forall j | 0 <= j < 16 ensures tmp[j] == XorChunk(Pad(inp[p..p + n]), ivec[..])[j] {
      XorCancel(ivec[j], 0);
    }
  }

  /** memcpy of one block. */
  method Copy(dst: array<Byte>, d: nat, src: array<Byte>, s: nat)
    requires d + 16 <= dst.Length && s + 16 <= src.Length && dst != src
    modifies dst
    ensures dst[..] == old(dst[..d]) + src[s..s + 16] + old(dst[d + 16..])
  {
    forall k | 0 <= k < 16 {
      dst[d + k] := src[s + k];
    }
    assert dst[d..d + 16] == src[s..s + 16];
    assert dst[..] == dst[..d] + dst[d..d + 16] + dst[d + 16..];
  }

  /** out[o..o + n] gets tmp's first n bytes added to ivec. */
  method XorOut(out: array<Byte>, o: nat, n: nat, tmp: array<Byte>, ivec: array<Byte>)
    requires tmp.Length == 16 == ivec.Length && n <= 16 && o + n <= out.Length
    requires out != tmp && out != ivec
    modifies out
    ensures out[..] == old(out[..o]) + XorChunk(tmp[..], ivec[..])[..n] + old(out[o + n..])
  {
    hide Xor;
    var k := 0;
    while k < n
      invariant 0 <= k <= n
      invariant forall j :: 0 <= j < k ==> out[o + j] == Xor(tmp[j], ivec[j])
      invariant out[..o] == old(out[..o]) && out[o + k..] == old(out[o + k..])
    {
      out[o + k] := Xor(tmp[k], ivec[k]);
      k := k + 1;
    }
    ghost var got: seq<Byte>, sum: seq<Byte> := out[o..o + n], XorChunk(tmp[..], ivec[..])[..n];
    forall j | 0 <= j < n ensures got[j] == sum[j] {
      assert got[j] == out[o + j] && sum[j] == Xor(tmp[j], ivec[j]);
    }
    assert got == sum;
    assert out[..] == out[..o] + out[o..o + n] + out[o + n..];
  }

  /** out[o..o + 16] is added to ivec in place. */
  method XorInPlace(out: array<Byte>, o: nat, ivec: array<Byte>)
    requires ivec.Length == 16 && o + 16 <= out.Length && out != ivec
    modifies out
    ensures out[..] == old(out[..o]) + XorChunk(old(out[o..o + 16]), ivec[..]) + old(out[o + 16..])
  {
    hide Xor;
    var k := 0;
    while k < 16
      invariant 0 <= k <= 16
      invariant forall j :: 0 <= j < k ==> out[o + j] == Xor(old(out[o + j]), ivec[j])
      invariant out[..o] == old(out[..o]) && out[o + k..] == old(out[o + k..])
    {
      out[o + k] := Xor(out[o + k], ivec[k]);
      k := k + 1;
    }
    ghost var got: seq<Byte>, sum: seq<Byte> := out[o..o + 16], XorChunk(old(out[o..o + 16]), ivec[..]);
    forall j | 0 <= j < 16 ensures got[j] == sum[j] {
      assert got[j] == out[o + j] && old(out[o..o + 16])[j] == old(out[o + j]);
    }
    assert got == sum;
    assert out[..] == out[..o] + out[o..o + 16] + out[o + 16..];
  }

  // --------------------------------------------------------- one block at a time

  /** A full block: tmp = in ^ ivec, encrypted into out and copied to ivec. */
  method EncStep(b: SBox, inp: array<Byte>, p: nat, out: array<Byte>, q: nat, key: AesKey, ivec: array<Byte>, tmp: array<Byte>)
    requires p + 16 <= inp.Length && q + 16 <= out.Length && ivec.Length == 16 == tmp.Length && key.Ready()
    requires ivec != inp && ivec != out && tmp != inp && tmp != out && tmp != ivec
    requires Apart(key, out) && Apart(key, ivec) && Apart(key, tmp)
    modifies out, ivec, tmp
    ensures ivec[..] == E(b, old(key.rdKey[..]), key.rounds)(XorChunk(old(inp[p..p + 16]), old(ivec[..])))
    ensures out[..] == old(out[..q]) + ivec[..] + old(out[q + 16..])
    ensures key.rdKey[..] == old(key.rdKey[..])
  {
    hide ToBlock, FromBlock, Cipher, XorChunk, Blocks, CbcEnc, CbcEncIv;
    XorIn(tmp, inp, p, 16, ivec);
    assert Pad(inp[p..p + 16]) == inp[p..p + 16];
    assert tmp[0..16] == tmp[..];
    Encrypt(b, tmp, 0, out, q, key);
    Copy(ivec, 0, out, q);
  }

  /** The partial last block: padded with ivec, encrypted in tmp. */
  method EncLast(b: SBox, inp: array<Byte>, p: nat, out: array<Byte>, q: nat, n: nat, key: AesKey, ivec: array<Byte>, tmp: array<Byte>)
    requires n < 16 && p + n <= inp.Length && q + 16 <= out.Length && ivec.Length == 16 == tmp.Length && key.Ready()
    requires ivec != inp && ivec != out && tmp != inp && tmp != out && tmp != ivec
    requires Apart(key, out) && Apart(key, ivec) && Apart(key, tmp)
    modifies out, ivec, tmp
    ensures ivec[..] == E(b, old(key.rdKey[..]), key.rounds)(XorChunk(Pad(old(inp[p..p + n])), old(ivec[..])))
    ensures out[..] == old(out[..q]) + ivec[..] + old(out[q + 16..])
    ensures key.rdKey[..] == old(key.rdKey[..])
  {
    hide ToBlock, FromBlock, Cipher, XorChunk, Pad, Blocks, CbcEnc, CbcEncIv;
    XorIn(tmp, inp, p, n, ivec);
    assert tmp[0..16] == tmp[..];
    Encrypt(b, tmp, 0, tmp, 0, key);
    Copy(out, q, tmp, 0);
    Copy(ivec, 0, tmp, 0);
  }

  /** A block decrypted into out, and ivec added. */
  method DecryptXor(b: SBox, inp: array<Byte>, p: nat, out: array<Byte>, q: nat, key: AesKey, ivec: array<Byte>)
    requires p + 16 <= inp.Length && q + 16 <= out.Length && ivec.Length == 16 && key.Ready()
    requires ivec != out && Apart(key, out)
    modifies out
    ensures out[..] == old(out[..q]) + XorChunk(D(b, old(key.rdKey[..]), key.rounds)(old(inp[p..p + 16])), ivec[..]) + old(out[q + 16..])
  {
    hide ToBlock, FromBlock, EqInvCipher, XorChunk;
    Decrypt(b, inp, p, out, q, key);
    ghost var plain: Chunk := D(b, old(key.rdKey[..]), key.rounds)(old(inp[p..p + 16]));
    assert out[q..q + 16] == plain && out[..q] == old(out[..q]) && out[q + 16..] == old(out[q + 16..]);
    XorInPlace(out, q, ivec);
  }

  /** A full block: decrypted into out, ivec added, the cipher text kept for ivec. */
  method DecStep(b: SBox, inp: array<Byte>, p: nat, out: array<Byte>, q: nat, key: AesKey, ivec: array<Byte>, tmp: array<Byte>)
    requires p + 16 <= inp.Length && q + 16 <= out.Length && ivec.Length == 16 == tmp.Length && key.Ready()
    requires ivec != inp && ivec != out && tmp != inp && tmp != out && tmp != ivec
    requires Apart(key, out) && Apart(key, ivec) && Apart(key, tmp)
    modifies out, ivec, tmp
    ensures ivec[..] == old(inp[p..p + 16])
    ensures out[..] == old(out[..q])
                       + XorChunk(D(b, old(key.rdKey[..]), key.rounds)(old(inp[p..p + 16])), old(ivec[..]))
                       + old(out[q + 16..])
    ensures key.rdKey[..] == old(key.rdKey[..])
  {
    hide D, XorChunk;
    Copy(tmp, 0, inp, p);
    assert inp[p..p + 16] == old(inp[p..p + 16]);
    DecryptXor(b, inp, p, out, q, key, ivec);
    Copy(ivec, 0, tmp, 0);
  }

  /** The partial last block; ivec gets the decrypted block. */
  method DecLast(b: SBox, inp: array<Byte>, p: nat, out: array<Byte>, q: nat, n: nat, key: AesKey, ivec: array<Byte>, tmp: array<Byte>)
    requires n < 16 && p + 16 <= inp.Length && q + n <= out.Length && ivec.Length == 16 == tmp.Length && key.Ready()
    requires ivec != inp && ivec != out && tmp != inp && tmp != out && tmp != ivec
    requires Apart(key, out) && Apart(key, ivec) && Apart(key, tmp)
    modifies out, ivec, tmp
    ensures ivec[..] == D(b, old(key.rdKey[..]), key.rounds)(old(inp[p..p + 16]))
    ensures out[..] == old(out[..q]) + XorChunk(ivec[..], old(ivec[..]))[..n] + old(out[q + n..])
    ensures key.rdKey[..] == old(key.rdKey[..])
  {
    hide ToBlock, FromBlock, EqInvCipher, XorChunk, Blocks, CbcDec, CbcDecIv;
    Copy(tmp, 0, inp, p);
    assert tmp[0..16] == tmp[..];
    Decrypt(b, tmp, 0, tmp, 0, key);
    XorOut(out, q, n, tmp, ivec);
    Copy(ivec, 0, tmp, 0);
  }

  // ------------------------------------------------------- the whole buffer

  lemma BlocksStep(n: nat)
    requires n > 0
    ensures Blocks(n) >= 16 && (n >= 16 ==> Blocks(n) == 16 + Blocks(n - 16))
  {
  }

  /** AES_cbc_encrypt with enc set, from inp + i to out + o: between buffers, in place, or
      between overlapping parts of one buffer.  The output is the chained cipher text
      unless input is overwritten before it is read. */
  method CbcEncrypt(b: SBox, inp: array<Byte>, i: nat, out: array<Byte>, o: nat, length: nat, key: AesKey, ivec: array<Byte>)
    requires i + length <= inp.Length && o + Blocks(length) <= out.Length && ivec.Length == 16 && key.Ready()
    requires ivec != inp && ivec != out && Apart(key, out) && Apart(key, ivec)
    modifies out, ivec
    ensures EncLeaves(E(b, old(key.rdKey[..]), key.rounds), inp == out, old(inp[..]), i, old(out[..]), o, length, old(ivec[..]),
                      out[..], ivec[..])
    ensures inp != out || Harmless(i, length, o) ==>
      var e, data := E(b, old(key.rdKey[..]), key.rounds), old(inp[i..i + length]);
      && out[..] == old(out[..o]) + CbcEnc(e, data, old(ivec[..])) + old(out[o + Blocks(length)..])
      && ivec[..] == CbcEncIv(e, data, old(ivec[..]))
  {
    hide E, XorChunk, Pad, CbcEnc, CbcEncIv, EncLeaves, Blocks;
    ghost var e, same := E(b, key.rdKey[..], key.rounds), inp == out;
    ghost var end, last := EncOutcome(e, same, inp[..], i, out[..], o, length, ivec[..]);
    var tmp := new Byte[16];
    var len: nat, p: nat := length, 0;
    while len >= 16
      invariant p + len == length && p + Blocks(len) == Blocks(length)
      invariant EncLeaves(e, same, inp[..], i + p, out[..], o + p, len, ivec[..], end, last)
      invariant key.rdKey[..] == old(key.rdKey[..])
    {
      BlocksStep(len);
      EncLoop(b, inp, i + p, out, o + p, len, key, ivec, tmp, e, end, last);
      len := len - 16;
      p := p + 16;
    }
    EncRest(b, inp, i + p, out, o + p, len, key, ivec, tmp, e, end, last);
    if inp != out || Harmless(i, length, o) {
      EncLeavesRight(e, same, old(inp[..]), i, old(out[..]), o, length, old(ivec[..]), out[..], ivec[..]);
      assert old(inp[..])[i..i + length] == old(inp[i..i + length]);
    }
  }

  /** One turn of the loop. */
  method EncLoop(b: SBox, inp: array<Byte>, i: nat, out: array<Byte>, o: nat, len: nat, key: AesKey, ivec: array<Byte>, tmp: array<Byte>,
                 ghost e: Chunk -> Chunk, ghost end: seq<Byte>, ghost last: seq<Byte>)
    requires 16 <= len && i + 16 <= inp.Length && o + 16 <= out.Length && ivec.Length == 16 == tmp.Length && key.Ready()
    requires ivec != inp && ivec != out && tmp != inp && tmp != out && tmp != ivec
    requires Apart(key, out) && Apart(key, ivec) && Apart(key, tmp)
    requires EncLeaves(e, inp == out, inp[..], i, out[..], o, len, ivec[..], end, last)
    requires e == E(b, key.rdKey[..], key.rounds)
    modifies out, ivec, tmp
    ensures EncLeaves(e, inp == out, inp[..], i + 16, out[..], o + 16, len - 16, ivec[..], end, last)
    ensures key.rdKey[..] == old(key.rdKey[..])
  {
    hide E, XorChunk, EncLeaves;
    EncStep(b, inp, i, out, o, key, ivec, tmp);
    CbcBuffers.EncTurn(e, inp == out, old(inp[..]), i, old(out[..]), o, len, old(ivec[..]), inp[..], out[..], ivec[..], end, last);
  }

  /** What follows the loop. */
  method EncRest(b: SBox, inp: array<Byte>, i: nat, out: array<Byte>, o: nat, len: nat, key: AesKey, ivec: array<Byte>, tmp: array<Byte>,
                 ghost e: Chunk -> Chunk, ghost end: seq<Byte>, ghost last: seq<Byte>)
    requires len < 16 && i + len <= inp.Length && o + Blocks(len) <= out.Length && ivec.Length == 16 == tmp.Length && key.Ready()
    requires ivec != inp && ivec != out && tmp != inp && tmp != out && tmp != ivec
    requires Apart(key, out) && Apart(key, ivec) && Apart(key, tmp)
    requires EncLeaves(e, inp == out, inp[..], i, out[..], o, len, ivec[..], end, last)
    requires e == E(b, key.rdKey[..], key.rounds)
    modifies out, ivec, tmp
    ensures out[..] == end && ivec[..] == last
  {
    hide E, XorChunk, Pad, EncLeaves, Blocks;
    if len != 0 {
      BlocksStep(len);
      EncLast(b, inp, i, out, o, len, key, ivec, tmp);
    }
    EncLastTurn(e, inp == out, old(inp[..]), i, old(out[..]), o, len, old(ivec[..]), out[..], ivec[..], end, last);
  }

  /** AES_cbc_encrypt with enc clear, from inp + i to out + o. */
  method CbcDecrypt(b: SBox, inp: array<Byte>, i: nat, out: array<Byte>, o: nat, length: nat, key: AesKey, ivec: array<Byte>)
    requires i + Blocks(length) <= inp.Length && o + length <= out.Length && ivec.Length == 16 && key.Ready()
    requires ivec != inp && ivec != out && Apart(key, out) && Apart(key, ivec)
    modifies out, ivec
    ensures DecLeaves(D(b, old(key.rdKey[..]), key.rounds), inp == out, old(inp[..]), i, old(out[..]), o, length, old(ivec[..]),
                      out[..], ivec[..])
    ensures inp != out || Harmless(i, Blocks(length), o) ==>
      var d, text := D(b, old(key.rdKey[..]), key.rounds), old(inp[i..i + Blocks(length)]);
      && out[..] == old(out[..o]) + CbcDec(d, text, length, old(ivec[..])) + old(out[o + length..])
      && ivec[..] == CbcDecIv(d, text, length, old(ivec[..]))
  {
    hide D, XorChunk, CbcDec, CbcDecIv, DecLeaves, Blocks;
    ghost var d, same := D(b, key.rdKey[..], key.rounds), inp == out;
    ghost var end, last := DecOutcome(d, same, inp[..], i, out[..], o, length, ivec[..]);
    var tmp := new Byte[16];
    var len: nat, p: nat := length, 0;
    while len >= 16
      invariant p + len == length && p + Blocks(len) == Blocks(length)
      invariant DecLeaves(d, same, inp[..], i + p, out[..], o + p, len, ivec[..], end, last)
      invariant key.rdKey[..] == old(key.rdKey[..])
    {
      BlocksStep(len);
      DecLoop(b, inp, i + p, out, o + p, len, key, ivec, tmp, d, end, last);
      len := len - 16;
      p := p + 16;
    }
    DecRest(b, inp, i + p, out, o + p, len, key, ivec, tmp, d, end, last);
    if inp != out || Harmless(i, Blocks(length), o) {
      DecLeavesRight(d, same, old(inp[..]), i, old(out[..]), o, length, old(ivec[..]), out[..], ivec[..]);
      assert old(inp[..])[i..i + Blocks(length)] == old(inp[i..i + Blocks(length)]);
    }
  }

  method DecLoop(b: SBox, inp: array<Byte>, i: nat, out: array<Byte>, o: nat, len: nat, key: AesKey, ivec: array<Byte>, tmp: array<Byte>,
                 ghost d: Chunk -> Chunk, ghost end: seq<Byte>, ghost last: seq<Byte>)
    requires 16 <= len && i + 16 <= inp.Length && o + 16 <= out.Length && ivec.Length == 16 == tmp.Length && key.Ready()
    requires ivec != inp && ivec != out && tmp != inp && tmp != out && tmp != ivec
    requires Apart(key, out) && Apart(key, ivec) && Apart(key, tmp)
    requires DecLeaves(d, inp == out, inp[..], i, out[..], o, len, ivec[..], end, last)
    requires d == D(b, key.rdKey[..], key.rounds)
    modifies out, ivec, tmp
    ensures DecLeaves(d, inp == out, inp[..], i + 16, out[..], o + 16, len - 16, ivec[..], end, last)
    ensures key.rdKey[..] == old(key.rdKey[..])
  {
    hide D, XorChunk, DecLeaves;
    DecStep(b, inp, i, out, o, key, ivec, tmp);
    CbcBuffers.DecTurn(d, inp == out, old(inp[..]), i, old(out[..]), o, len, old(ivec[..]), inp[..], out[..], ivec[..], end, last);
  }

  method DecRest(b: SBox, inp: array<Byte>, i: nat, out: array<Byte>, o: nat, len: nat, key: AesKey, ivec: array<Byte>, tmp: array<Byte>,
                 ghost d: Chunk -> Chunk, ghost end: seq<Byte>, ghost last: seq<Byte>)
    requires len < 16 && i + Blocks(len) <= inp.Length && o + len <= out.Length && ivec.Length == 16 == tmp.Length && key.Ready()
    requires ivec != inp && ivec != out && tmp != inp && tmp != out && tmp != ivec
    requires Apart(key, out) && Apart(key, ivec) && Apart(key, tmp)
    requires DecLeaves(d, inp == out, inp[..], i, out[..], o, len, ivec[..], end, last)
    requires d == D(b, key.rdKey[..], key.rounds)
    modifies out, ivec, tmp
    ensures out[..] == end && ivec[..] == last
  {
    hide D, XorChunk, DecLeaves, Blocks;
    if len != 0 {
      BlocksStep(len);
      DecLast(b, inp, i, out, o, len, key, ivec, tmp);
    }
    DecLastTurn(d, inp == out, old(inp[..]), i, old(out[..]), o, len, old(ivec[..]), out[..], ivec[..], end, last);
  }
}
