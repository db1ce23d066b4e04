/** Cipher block chaining from one buffer to another, or from one part of a buffer to
    another part of it, block by block; and when that is right although the parts
    overlap. */
module CbcBuffers {
  import opened AesByte
  import opened CbcMode

  /** c written over the buffer at q. */
  function Put(buf: seq<Byte>, q: nat, c: seq<Byte>): (r: seq<Byte>)
    requires q + |c| <= |buf|
    ensures |r| == |buf| && r[..q] == buf[..q] && r[q..q + |c|] == c && r[q + |c|..] == buf[q + |c|..]
  {
    buf[..q] + c + buf[q + |c|..]
  }

  /** How much a turn reads: a block, or the rest. */
  function Turn(n: nat): (m: nat)
    ensures m <= 16 && m <= n && (n > 0 ==> m > 0)
  {
    if n < 16 then n else 16
  }

  /** The block that a turn of encryption writes. */
  ghost function EncOne(e: Chunk -> Chunk, data: seq<Byte>, iv: Chunk): Chunk
    requires |data| <= 16
  {
    e(XorChunk(Pad(data), iv))
  }

  /** Encrypting n bytes from i of one buffer to o of another, which may be the same: the
      output buffer and the chaining value that are left. */
  ghost function EncBuf(e: Chunk -> Chunk, same: bool, inp: seq<Byte>, i: nat, out: seq<Byte>, o: nat, n: nat, iv: Chunk): (r: (seq<Byte>, Chunk))
    requires i + n <= |inp| && o + Blocks(n) <= |out| && (same ==> inp == out)
    ensures |r.0| == |out|
    decreases n
  {
    if n == 0 then (out, iv)
    else
      var c := EncOne(e, inp[i..i + Turn(n)], iv);
      var next := Put(out, o, c);
      if n <= 16 then (next, c) else EncBuf(e, same, if same then next else inp, i + 16, next, o + 16, n - 16, c)
  }

  /** Decrypting n bytes, of which the cipher text is at i. */
  ghost function DecBuf(d: Chunk -> Chunk, same: bool, inp: seq<Byte>, i: nat, out: seq<Byte>, o: nat, n: nat, iv: Chunk): (r: (seq<Byte>, Chunk))
    requires i + Blocks(n) <= |inp| && o + n <= |out| && (same ==> inp == out)
    ensures |r.0| == |out|
    decreases n
  {
    if n == 0 then (out, iv)
    else
      var t: Chunk := inp[i..i + 16];
      var next := Put(out, o, XorChunk(d(t), iv)[..Turn(n)]);
      if n < 16 then (next, d(t)) else DecBuf(d, same, if same then next else inp, i + 16, next, o + 16, n - 16, t)
  }

  /** Within one buffer: the output does not begin inside the input, or the input is a
      single block. */
  predicate Harmless(i: nat, n: nat, o: nat) { o <= i || i + n <= o || n <= 16 }

  ghost predicate Injective(f: Chunk -> Chunk) { forall a: Chunk, b: Chunk | f(a) == f(b) :: a == b }

  lemma PairedInjective(e: Chunk -> Chunk, d: Chunk -> Chunk)
    requires Paired(e, d)
    ensures Injective(e)
  {
    forall a: Chunk, b: Chunk | e(a) == e(b) ensures a == b { assert d(e(a)) == a && d(e(b)) == b; }
  }

  // ------------------------------------------------------------ pieces of buffers

  lemma Halves(buf: seq<Byte>, o: nat, a: seq<Byte>, b: seq<Byte>)
    requires o + |a| + |b| <= |buf|
    ensures buf[o..o + |a| + |b|] == a + b <==> buf[o..o + |a|] == a && buf[o + |a|..o + |a| + |b|] == b
  {
    var w := buf[o..o + |a| + |b|];
    assert w == w[..|a|] + w[|a|..] && w[..|a|] == buf[o..o + |a|] && w[|a|..] == buf[o + |a|..o + |a| + |b|];
    assert (a + b)[..|a|] == a && (a + b)[|a|..] == b;
  }

  /** Writing behind position i + k leaves what is before it. */
  lemma SameBlock(data: seq<Byte>, buf: seq<Byte>, i: nat, o: nat, k: nat, c: Chunk)
    requires 16 <= k < |data| && i + |data| <= |buf| && i + k < o && o + 16 <= |buf|
    requires buf[i..i + k] == data[..k] && buf[i + k] != data[k]
    ensures var next := Put(buf, o, c);
      && buf[i..i + 16] == data[..16] && next[i + 16..i + k] == data[16..][..k - 16] && next[i + k] != data[16..][k - 16]
  {
    var next := Put(buf, o, c);
    assert buf[i..i + k][..16] == buf[i..i + 16] && data[..k][..16] == data[..16];
    assert buf[i..i + k][16..] == buf[i + 16..i + k] && data[..k][16..] == data[16..][..k - 16];
    assert next[..o][i + 16..i + k] == next[i + 16..i + k] && buf[..o][i + 16..i + k] == buf[i + 16..i + k];
    assert next[..o][i + k] == buf[..o][i + k];
  }

  /** The first byte of unread input that the first block overwrites. */
  function Overwritten(i: nat, o: nat): nat { if o < i + 16 then i + 16 else o }

  /** What the first block written makes of the unread input. */
  lemma Clobbered(buf: seq<Byte>, i: nat, o: nat, n: nat, c: Chunk)
    requires i + n <= |buf| && o + 16 <= |buf| && i < o < i + n && 16 < n
    ensures var x := Overwritten(i, o); var rest := buf[i..i + n][16..]; var k := x - i - 16;
      && k < |rest| && o <= x < o + 16 && x < i + n
      && Put(buf, o, c)[i + 16..x] == rest[..k] && Put(buf, o, c)[x] == c[x - o] && rest[k] == buf[x]
  {
    var x, next := Overwritten(i, o), Put(buf, o, c);
    assert next[o..o + 16][x - o] == next[x];
    if x == o {
      assert next[..o][i + 16..x] == next[i + 16..x] && buf[..o][i + 16..x] == buf[i + 16..x];
      assert buf[i..i + n][16..][..x - i - 16] == buf[i + 16..x];
    }
  }

  /** The rest of the input is as it was. */
  lemma Unread(same: bool, inp: seq<Byte>, i: nat, out: seq<Byte>, o: nat, n: nat, c: Chunk)
    requires 16 <= n && i + n <= |inp| && o + 16 <= |out| && (same ==> inp == out && (o <= i || i + n <= o))
    ensures (if same then Put(out, o, c) else inp)[i + 16..i + n] == inp[i..i + n][16..]
  {
    var next := Put(out, o, c);
    assert inp[i..i + n][16..] == inp[i + 16..i + n];
    if same && o <= i {
      var k := i - o;
      assert next[o + 16..][k..k + n - 16] == next[i + 16..i + n] && out[o + 16..][k..k + n - 16] == out[i + 16..i + n];
    } else if same {
      assert next[..o][i + 16..i + n] == next[i + 16..i + n] && out[..o][i + 16..i + n] == out[i + 16..i + n];
    }
  }

  // ------------------------------------------------------------ encryption

  /** The buffer holds the cipher text of the data at o. */
  ghost predicate HoldsEnc(e: Chunk -> Chunk, data: seq<Byte>, iv: Chunk, buf: seq<Byte>, o: nat) {
    o + Blocks(|data|) <= |buf| && buf[o..o + Blocks(|data|)] == CbcEnc(e, data, iv)
  }

  lemma EncHead(e: Chunk -> Chunk, data: seq<Byte>, iv: Chunk)
    requires data != []
    ensures var m := Turn(|data|); var c := EncOne(e, data[..m], iv);
      && Blocks(|data|) == 16 + Blocks(|data| - m)
      && CbcEnc(e, data, iv) == c + CbcEnc(e, data[m..], c) && CbcEncIv(e, data, iv) == CbcEncIv(e, data[m..], c)
  {
    hide XorChunk;
    var m := Turn(|data|);
    assert data[..m] + data[m..] == data;
    if m == 16 {
      assert Pad(data[..16]) == data[..16];
    } else {
      assert data[..m] == data && data[m..] == [];
    }
  }

  /** A cipher text is the first block followed by the cipher text of the rest. */
  lemma EncFirst(e: Chunk -> Chunk, data: seq<Byte>, iv: Chunk, buf: seq<Byte>, o: nat)
    requires data != [] && o + Blocks(|data|) <= |buf|
    ensures var m := Turn(|data|); var c := EncOne(e, data[..m], iv);
      && Blocks(|data|) == 16 + Blocks(|data| - m)
      && (HoldsEnc(e, data, iv, buf, o) <==> buf[o..o + 16] == c && HoldsEnc(e, data[m..], c, buf, o + 16))
  {
    hide EncOne, CbcEnc, CbcEncIv, Blocks;
    var m := Turn(|data|);
    var c := EncOne(e, data[..m], iv);
    EncHead(e, data, iv);
    var rest := CbcEnc(e, data[m..], c);
    var b := Blocks(|data| - m);
    assert |rest| == b && CbcEnc(e, data, iv) == c + rest && |data[m..]| == |data| - m;
    Halves(buf, o, c, rest);
    assert o + Blocks(|data|) == o + |c| + |rest| && o + |c| == o + 16;
  }

  lemma EncBufStep(e: Chunk -> Chunk, same: bool, inp: seq<Byte>, i: nat, out: seq<Byte>, o: nat, n: nat, iv: Chunk)
    requires 16 < n && i + n <= |inp| && o + Blocks(n) <= |out| && (same ==> inp == out)
    ensures Blocks(n) == 16 + Blocks(n - 16)
    ensures var c := EncOne(e, inp[i..i + 16], iv); var next := Put(out, o, c);
      EncBuf(e, same, inp, i, out, o, n, iv) == EncBuf(e, same, if same then next else inp, i + 16, next, o + 16, n - 16, c)
  {
    hide EncOne;
  }

  lemma EncBufShort(e: Chunk -> Chunk, same: bool, inp: seq<Byte>, i: nat, out: seq<Byte>, o: nat, n: nat, iv: Chunk)
    requires n <= 16 && i + n <= |inp| && o + Blocks(n) <= |out| && (same ==> inp == out)
    ensures n == 0 ==> Blocks(n) == 0 && EncBuf(e, same, inp, i, out, o, n, iv).0 == out
    ensures n > 0 ==> Blocks(n) == 16 && EncBuf(e, same, inp, i, out, o, n, iv).0 == Put(out, o, EncOne(e, inp[i..i + n], iv))
  {
    hide EncOne;
  }

  /** Only the blocks of the output change. */
  lemma {:induction false} EncBufFrame(e: Chunk -> Chunk, same: bool, inp: seq<Byte>, i: nat, out: seq<Byte>, o: nat, n: nat, iv: Chunk, q: nat)
    requires i + n <= |inp| && o + Blocks(n) <= |out| && (same ==> inp == out) && q <= o
    ensures var end := EncBuf(e, same, inp, i, out, o, n, iv).0;
      end[..q] == out[..q] && end[o + Blocks(n)..] == out[o + Blocks(n)..]
    decreases n
  {
    hide EncOne, EncBuf, Blocks;
    if n <= 16 {
      EncBufShort(e, same, inp, i, out, o, n, iv);
      if n > 0 { Before(out, Put(out, o, EncOne(e, inp[i..i + n], iv)), o, q); }
    } else {
      EncBufStep(e, same, inp, i, out, o, n, iv);
      var c := EncOne(e, inp[i..i + 16], iv);
      var next := Put(out, o, c);
      Before(out, next, o, q);
      EncBufFrame(e, same, if same then next else inp, i + 16, next, o + 16, n - 16, c, q);
      Further(next, out, o + 16, o + Blocks(n));
    }
  }

  lemma Further(a: seq<Byte>, b: seq<Byte>, p: nat, q: nat)
    requires p <= q <= |a| == |b| && a[p..] == b[p..]
    ensures a[q..] == b[q..]
  {
    assert a[q..] == a[p..][q - p..] && b[q..] == b[p..][q - p..];
  }

  /** A block once written stays. */
  lemma EncBufFirst(e: Chunk -> Chunk, same: bool, inp: seq<Byte>, i: nat, out: seq<Byte>, o: nat, n: nat, iv: Chunk)
    requires 0 < n && i + n <= |inp| && o + Blocks(n) <= |out| && (same ==> inp == out)
    ensures Blocks(n) >= 16 && EncBuf(e, same, inp, i, out, o, n, iv).0[o..o + 16] == EncOne(e, inp[i..i + Turn(n)], iv)
  {
    hide EncOne;
    var c := EncOne(e, inp[i..i + Turn(n)], iv);
    var next, end := Put(out, o, c), EncBuf(e, same, inp, i, out, o, n, iv).0;
    if n > 16 {
      EncBufFrame(e, same, if same then next else inp, i + 16, next, o + 16, n - 16, c, o + 16);
      assert end[o..o + 16] == end[..o + 16][o..] == next[..o + 16][o..] == next[o..o + 16];
    }
  }

  ghost predicate EncRight(e: Chunk -> Chunk, same: bool, inp: seq<Byte>, i: nat, out: seq<Byte>, o: nat, n: nat, iv: Chunk)
    requires i + n <= |inp| && o + Blocks(n) <= |out| && (same ==> inp == out)
  {
    var (end, last) := EncBuf(e, same, inp, i, out, o, n, iv);
    HoldsEnc(e, inp[i..i + n], iv, end, o) && last == CbcEncIv(e, inp[i..i + n], iv)
  }

  /** One block on. */
  lemma EncNext(e: Chunk -> Chunk, same: bool, inp: seq<Byte>, i: nat, out: seq<Byte>, o: nat, n: nat, iv: Chunk)
    requires 16 < n && i + n <= |inp| && o + Blocks(n) <= |out| && (same ==> inp == out)
    ensures Blocks(n) == 16 + Blocks(n - 16)
    ensures var c := EncOne(e, inp[i..i + 16], iv); var next := Put(out, o, c); var left := if same then next else inp;
      left[i + 16..i + n] == inp[i..i + n][16..] && EncRight(e, same, left, i + 16, next, o + 16, n - 16, c) ==>
        EncRight(e, same, inp, i, out, o, n, iv)
  {
    hide EncOne, HoldsEnc, CbcEnc, CbcEncIv;
    var data, end := inp[i..i + n], EncBuf(e, same, inp, i, out, o, n, iv).0;
    assert data[..16] == inp[i..i + 16];
    EncHead(e, data, iv);
    EncFirst(e, data, iv, end, o);
    EncBufFirst(e, same, inp, i, out, o, n, iv);
  }

  lemma EncNone(e: Chunk -> Chunk, iv: Chunk, buf: seq<Byte>, o: nat)
    requires o <= |buf|
    ensures HoldsEnc(e, [], iv, buf, o) && CbcEncIv(e, [], iv) == iv
  {
  }

  lemma EncShort(e: Chunk -> Chunk, same: bool, inp: seq<Byte>, i: nat, out: seq<Byte>, o: nat, n: nat, iv: Chunk)
    requires n <= 16 && i + n <= |inp| && o + Blocks(n) <= |out| && (same ==> inp == out)
    ensures EncRight(e, same, inp, i, out, o, n, iv)
  {
    hide EncOne, HoldsEnc, CbcEnc, CbcEncIv;
    var data, end := inp[i..i + n], EncBuf(e, same, inp, i, out, o, n, iv).0;
    if n == 0 {
      EncNone(e, iv, out, o);
    } else {
      var c := EncOne(e, data, iv);
      assert data[..n] == data && data[n..] == [];
      EncHead(e, data, iv);
      EncFirst(e, data, iv, end, o);
      EncBufFirst(e, same, inp, i, out, o, n, iv);
      EncNone(e, c, end, o + 16);
    }
  }

  /** Where nothing is overwritten before it has been read, the output is the chained
      cipher text. */
  lemma {:induction false} EncHarmless(e: Chunk -> Chunk, same: bool, inp: seq<Byte>, i: nat, out: seq<Byte>, o: nat, n: nat, iv: Chunk)
    requires i + n <= |inp| && o + Blocks(n) <= |out| && (same ==> inp == out && Harmless(i, n, o))
    ensures EncRight(e, same, inp, i, out, o, n, iv)
    decreases n
  {
    hide EncOne, EncRight, Blocks;
    if n <= 16 {
      EncShort(e, same, inp, i, out, o, n, iv);
    } else {
      var c := EncOne(e, inp[i..i + 16], iv);
      var next := Put(out, o, c);
      EncNext(e, same, inp, i, out, o, n, iv);
      Unread(same, inp, i, out, o, n, c);
      EncHarmless(e, same, if same then next else inp, i + 16, next, o + 16, n - 16, c);
    }
  }

  lemma OneDiffers(e: Chunk -> Chunk, a: seq<Byte>, b: seq<Byte>, iv: Chunk)
    requires Injective(e) && |a| == |b| <= 16 && a != b
    ensures EncOne(e, a, iv) != EncOne(e, b, iv)
  {
    hide XorChunk;
    var x, y := XorChunk(Pad(a), iv), XorChunk(Pad(b), iv);
    XorTwice(Pad(a), iv);
    XorTwice(Pad(b), iv);
    assert Pad(a)[..|a|] == a && Pad(b)[..|b|] == b;
    assert x != y;
  }

  /** A byte of the input that is not the data's and lies before the output: the output
      is not the data's cipher text. */
  lemma {:induction false} EncDiffers(e: Chunk -> Chunk, data: seq<Byte>, buf: seq<Byte>, i: nat, o: nat, iv: Chunk, k: nat)
    requires Injective(e) && i + |data| <= |buf| && o + Blocks(|data|) <= |buf| && k < |data| && i + k < o
    requires buf[i..i + k] == data[..k] && buf[i + k] != data[k]
    ensures !HoldsEnc(e, data, iv, EncBuf(e, true, buf, i, buf, o, |data|, iv).0, o)
    decreases |data|
  {
    hide EncOne, HoldsEnc, Injective, EncBuf, Blocks;
    var n := |data|;
    var m := Turn(n);
    var now, was, end := buf[i..i + m], data[..m], EncBuf(e, true, buf, i, buf, o, n, iv).0;
    EncFirst(e, data, iv, end, o);
    EncBufFirst(e, true, buf, i, buf, o, n, iv);
    if k < m {
      assert now[k] != was[k];
      OneDiffers(e, now, was, iv);
    } else {
      var c := EncOne(e, now, iv);
      EncBufStep(e, true, buf, i, buf, o, n, iv);
      SameBlock(data, buf, i, o, k, c);
      EncDiffers(e, data[16..], Put(buf, o, c), i + 16, o + 16, c, k - 16);
    }
  }

  /** An output that begins inside an input of more than one block is wrong whenever the
      first block written differs, in its first byte that overwrites unread input, from
      what was there. */
  lemma EncClobbers(e: Chunk -> Chunk, buf: seq<Byte>, i: nat, o: nat, n: nat, iv: Chunk)
    requires Injective(e) && i + n <= |buf| && o + Blocks(n) <= |buf| && !Harmless(i, n, o)
    requires var x := Overwritten(i, o); buf[x] != EncOne(e, buf[i..i + 16], iv)[x - o]
    ensures !EncRight(e, true, buf, i, buf, o, n, iv)
  {
    hide EncOne, HoldsEnc, Injective;
    var data, x := buf[i..i + n], Overwritten(i, o);
    var c := EncOne(e, buf[i..i + 16], iv);
    EncFirst(e, data, iv, EncBuf(e, true, buf, i, buf, o, n, iv).0, o);
    assert data[..16] == buf[i..i + 16];
    Clobbered(buf, i, o, n, c);
    EncDiffers(e, data[16..], Put(buf, o, c), i + 16, o + 16, c, x - i - 16);
  }

  /** A buffer on which an output that begins inside the input goes wrong. */
  lemma EncFails(e: Chunk -> Chunk, size: nat, i: nat, o: nat, n: nat, iv: Chunk) returns (buf: seq<Byte>)
    requires Injective(e) && i + n <= size && o + Blocks(n) <= size && !Harmless(i, n, o)
    ensures |buf| == size && !EncRight(e, true, buf, i, buf, o, n, iv)
  {
    hide EncOne, Injective, EncRight;
    var x := Overwritten(i, o);
    buf := Zeros(size);
    var c := EncOne(e, buf[i..i + 16], iv);
    if c[x - o] == 0 {
      var was := buf;
      buf := buf[x := 1];
      assert buf[i..i + 16] == was[i..i + 16];
    }
    EncClobbers(e, buf, i, o, n, iv);
  }

  /** The exact condition: encryption from i to o within a buffer is right, whatever the
      buffer holds, if and only if the output does not begin inside the input or the
      input is a single block. */
  lemma EncExact(e: Chunk -> Chunk, size: nat, i: nat, o: nat, n: nat, iv: Chunk)
    requires Injective(e) && i + n <= size && o + Blocks(n) <= size
    ensures Harmless(i, n, o) <==> forall buf: seq<Byte> | |buf| == size :: EncRight(e, true, buf, i, buf, o, n, iv)
  {
    hide EncRight, Injective;
    if Harmless(i, n, o) {
      forall buf: seq<Byte> | |buf| == size ensures EncRight(e, true, buf, i, buf, o, n, iv) {
        EncHarmless(e, true, buf, i, buf, o, n, iv);
      }
    } else {
      var bad := EncFails(e, size, i, o, n, iv);
    }
  }

  // ------------------------------------------------------------ decryption

  lemma LongText(n: nat)
    ensures Blocks(n) > 16 <==> n > 16
  {
  }

  lemma DecHead(d: Chunk -> Chunk, text: seq<Byte>, n: nat, iv: Chunk)
    requires |text| == Blocks(n) && n > 0
    ensures |text| >= 16 && (n < 16 ==> |text| == 16) && (n >= 16 ==> |text[16..]| == Blocks(n - 16))
    ensures var t: Chunk := text[..16];
      if n < 16 then CbcDec(d, text, n, iv) == XorChunk(d(t), iv)[..n] && CbcDecIv(d, text, n, iv) == d(t)
      else CbcDec(d, text, n, iv) == XorChunk(d(t), iv) + CbcDec(d, text[16..], n - 16, t) &&
           CbcDecIv(d, text, n, iv) == CbcDecIv(d, text[16..], n - 16, t)
  {
    hide XorChunk;
  }

  lemma DecBufStep(d: Chunk -> Chunk, same: bool, inp: seq<Byte>, i: nat, out: seq<Byte>, o: nat, n: nat, iv: Chunk)
    requires 16 <= n && i + Blocks(n) <= |inp| && o + n <= |out| && (same ==> inp == out)
    ensures Blocks(n) == 16 + Blocks(n - 16)
    ensures var t: Chunk := inp[i..i + 16]; var next := Put(out, o, XorChunk(d(t), iv));
      DecBuf(d, same, inp, i, out, o, n, iv) == DecBuf(d, same, if same then next else inp, i + 16, next, o + 16, n - 16, t)
  {
    hide XorChunk;
    var x := XorChunk(d(inp[i..i + 16]), iv);
    assert x[..16] == x;
  }

  lemma DecBufShort(d: Chunk -> Chunk, same: bool, inp: seq<Byte>, i: nat, out: seq<Byte>, o: nat, n: nat, iv: Chunk)
    requires n < 16 && i + Blocks(n) <= |inp| && o + n <= |out| && (same ==> inp == out)
    ensures n == 0 ==> DecBuf(d, same, inp, i, out, o, n, iv).0 == out
    ensures n > 0 ==> Blocks(n) == 16 && DecBuf(d, same, inp, i, out, o, n, iv).0 == Put(out, o, XorChunk(d(inp[i..i + 16]), iv)[..n])
  {
    hide XorChunk;
  }

  lemma {:induction false} DecBufFrame(d: Chunk -> Chunk, same: bool, inp: seq<Byte>, i: nat, out: seq<Byte>, o: nat, n: nat, iv: Chunk, q: nat)
    requires i + Blocks(n) <= |inp| && o + n <= |out| && (same ==> inp == out) && q <= o
    ensures var end := DecBuf(d, same, inp, i, out, o, n, iv).0; end[..q] == out[..q] && end[o + n..] == out[o + n..]
    decreases n
  {
    hide XorChunk, DecBuf, Blocks;
    if n < 16 {
      DecBufShort(d, same, inp, i, out, o, n, iv);
      if n > 0 { Before(out, Put(out, o, XorChunk(d(inp[i..i + 16]), iv)[..n]), o, q); }
    } else {
      DecBufStep(d, same, inp, i, out, o, n, iv);
      var t: Chunk := inp[i..i + 16];
      var next := Put(out, o, XorChunk(d(t), iv));
      Before(out, next, o, q);
      DecBufFrame(d, same, if same then next else inp, i + 16, next, o + 16, n - 16, t, q);
      Further(next, out, o + 16, o + n);
    }
  }

  lemma Before(a: seq<Byte>, b: seq<Byte>, o: nat, q: nat)
    requires q <= o <= |a| == |b| && a[..o] == b[..o]
    ensures a[..q] == b[..q]
  {
    assert a[..q] == a[..o][..q] && b[..q] == b[..o][..q];
  }

  lemma DecBufFirst(d: Chunk -> Chunk, same: bool, inp: seq<Byte>, i: nat, out: seq<Byte>, o: nat, n: nat, iv: Chunk)
    requires 0 < n && i + Blocks(n) <= |inp| && o + n <= |out| && (same ==> inp == out)
    ensures Blocks(n) >= 16
    ensures DecBuf(d, same, inp, i, out, o, n, iv).0[o..o + Turn(n)] == XorChunk(d(inp[i..i + 16]), iv)[..Turn(n)]
  {
    hide XorChunk;
    var t: Chunk := inp[i..i + 16];
    var next, end := Put(out, o, XorChunk(d(t), iv)[..Turn(n)]), DecBuf(d, same, inp, i, out, o, n, iv).0;
    if n >= 16 {
      DecBufFrame(d, same, if same then next else inp, i + 16, next, o + 16, n - 16, t, o + 16);
      assert end[o..o + 16] == end[..o + 16][o..] == next[..o + 16][o..] == next[o..o + 16];
    }
  }

  /** The output buffer holds the plain text of `text`, and the chaining value is right. */
  ghost predicate DecRight(d: Chunk -> Chunk, same: bool, text: seq<Byte>, inp: seq<Byte>, i: nat, out: seq<Byte>, o: nat, n: nat, iv: Chunk)
    requires i + Blocks(n) <= |inp| && o + n <= |out| && |text| == Blocks(n) && (same ==> inp == out)
  {
    var (end, last) := DecBuf(d, same, inp, i, out, o, n, iv);
    end[o..o + n] == CbcDec(d, text, n, iv) && last == CbcDecIv(d, text, n, iv)
  }

  /** The first block of a right output. */
  lemma DecRightFirst(d: Chunk -> Chunk, same: bool, text: seq<Byte>, inp: seq<Byte>, i: nat, out: seq<Byte>, o: nat, n: nat, iv: Chunk)
    requires 16 <= n && i + Blocks(n) <= |inp| && o + n <= |out| && |text| == Blocks(n) && (same ==> inp == out)
    requires DecRight(d, same, text, inp, i, out, o, n, iv)
    ensures Blocks(n) == 16 + Blocks(n - 16) && XorChunk(d(inp[i..i + 16]), iv) == XorChunk(d(text[..16]), iv)
  {
    hide XorChunk, CbcDec, CbcDecIv, DecBuf, Blocks;
    DecBufStep(d, same, inp, i, out, o, n, iv);
    DecHead(d, text, n, iv);
    DecBufFirst(d, same, inp, i, out, o, n, iv);
    var x, y := XorChunk(d(inp[i..i + 16]), iv), XorChunk(d(text[..16]), iv);
    assert x[..16] == x;
    Halves(DecBuf(d, same, inp, i, out, o, n, iv).0, o, y, CbcDec(d, text[16..], n - 16, text[..16]));
  }

  /** One block on. */
  lemma DecNext(d: Chunk -> Chunk, same: bool, text: seq<Byte>, inp: seq<Byte>, i: nat, out: seq<Byte>, o: nat, n: nat, iv: Chunk)
    requires 16 <= n && i + Blocks(n) <= |inp| && o + n <= |out| && |text| == Blocks(n) && (same ==> inp == out)
    requires inp[i..i + 16] == text[..16]
    ensures Blocks(n) == 16 + Blocks(n - 16) && |text[16..]| == Blocks(n - 16)
    ensures var t: Chunk := inp[i..i + 16]; var next := Put(out, o, XorChunk(d(t), iv));
      DecRight(d, same, text, inp, i, out, o, n, iv) <==>
      DecRight(d, same, text[16..], if same then next else inp, i + 16, next, o + 16, n - 16, t)
  {
    hide XorChunk, CbcDec, CbcDecIv, DecBuf, Blocks;
    DecBufStep(d, same, inp, i, out, o, n, iv);
    var t: Chunk := inp[i..i + 16];
    var x := XorChunk(d(t), iv);
    DecHead(d, text, n, iv);
    DecBufFirst(d, same, inp, i, out, o, n, iv);
    assert x[..16] == x;
    var end := DecBuf(d, same, inp, i, out, o, n, iv).0;
    var rest := CbcDec(d, text[16..], n - 16, t);
    Halves(end, o, x, rest);
    assert o + |x| + |rest| == o + n == o + 16 + (n - 16);
  }

  lemma DecShort(d: Chunk -> Chunk, same: bool, inp: seq<Byte>, i: nat, out: seq<Byte>, o: nat, n: nat, iv: Chunk)
    requires n < 16 && i + Blocks(n) <= |inp| && o + n <= |out| && (same ==> inp == out)
    ensures DecRight(d, same, inp[i..i + Blocks(n)], inp, i, out, o, n, iv)
  {
    hide XorChunk, CbcDec, CbcDecIv;
    var text := inp[i..i + Blocks(n)];
    if n == 0 {
      DecNothing(d, text, iv);
    } else {
      DecHead(d, text, n, iv);
      DecBufFirst(d, same, inp, i, out, o, n, iv);
      assert text[..16] == inp[i..i + 16];
    }
  }

  lemma OneBlock(text: seq<Byte>)
    requires |text| == Blocks(16)
    ensures text[16..] == [] && Blocks(0) == 0
  {
  }

  lemma {:induction false} DecHarmless(d: Chunk -> Chunk, same: bool, inp: seq<Byte>, i: nat, out: seq<Byte>, o: nat, n: nat, iv: Chunk)
    requires i + Blocks(n) <= |inp| && o + n <= |out| && (same ==> inp == out && Harmless(i, Blocks(n), o))
    ensures DecRight(d, same, inp[i..i + Blocks(n)], inp, i, out, o, n, iv)
    decreases n
  {
    hide XorChunk, DecRight, Blocks;
    LongText(n);
    var text := inp[i..i + Blocks(n)];
    if n < 16 {
      DecShort(d, same, inp, i, out, o, n, iv);
    } else {
      var c := XorChunk(d(inp[i..i + 16]), iv);
      var next := Put(out, o, c);
      var left := if same then next else inp;
      assert text[..16] == inp[i..i + 16];
      DecNext(d, same, text, inp, i, out, o, n, iv);
      if n > 16 {
        Unread(same, inp, i, out, o, Blocks(n), c);
      } else {
        OneBlock(text);
      }
      assert left[i + 16..i + 16 + Blocks(n - 16)] == text[16..];
      DecHarmless(d, same, left, i + 16, next, o + 16, n - 16, inp[i..i + 16]);
    }
  }

  /** A byte of the cipher text that is not the right one and lies before the output. */
  lemma {:induction false} DecDiffers(d: Chunk -> Chunk, text: seq<Byte>, buf: seq<Byte>, i: nat, o: nat, n: nat, iv: Chunk, k: nat)
    requires Injective(d) && i + Blocks(n) <= |buf| && o + n <= |buf| && |text| == Blocks(n) && k < |text| && i + k < o
    requires buf[i..i + k] == text[..k] && buf[i + k] != text[k]
    ensures !DecRight(d, true, text, buf, i, buf, o, n, iv)
    decreases n
  {
    hide XorChunk, DecRight, Injective;
    if k < 16 {
      DecDiffersNow(d, text, buf, i, o, n, iv, k);
    } else {
      var t: Chunk := buf[i..i + 16];
      LongText(n);
      SameBlock(text, buf, i, o, k, XorChunk(d(t), iv));
      DecNext(d, true, text, buf, i, buf, o, n, iv);
      DecDiffers(d, text[16..], Put(buf, o, XorChunk(d(t), iv)), i + 16, o + 16, n - 16, t, k - 16);
    }
  }

  lemma DecDiffersNow(d: Chunk -> Chunk, text: seq<Byte>, buf: seq<Byte>, i: nat, o: nat, n: nat, iv: Chunk, k: nat)
    requires Injective(d) && i + Blocks(n) <= |buf| && o + n <= |buf| && |text| == Blocks(n) && k < |text| && k < 16
    requires buf[i + k] != text[k]
    ensures !DecRight(d, true, text, buf, i, buf, o, n, iv)
  {
    hide XorChunk, CbcDec, CbcDecIv;
    DecHead(d, text, n, iv);
    var t, right: Chunk := buf[i..i + 16], text[..16];
    assert t[k] != right[k];
    assert d(t) != d(right);
    XorTwice(d(t), iv);
    XorTwice(d(right), iv);
    if n >= 16 && DecRight(d, true, text, buf, i, buf, o, n, iv) { DecRightFirst(d, true, text, buf, i, buf, o, n, iv); }
  }

  lemma DecClobbers(d: Chunk -> Chunk, buf: seq<Byte>, i: nat, o: nat, n: nat, iv: Chunk)
    requires Injective(d) && i + Blocks(n) <= |buf| && o + n <= |buf| && !Harmless(i, Blocks(n), o)
    requires var x := Overwritten(i, o); buf[x] != XorChunk(d(buf[i..i + 16]), iv)[x - o]
    ensures !DecRight(d, true, buf[i..i + Blocks(n)], buf, i, buf, o, n, iv)
  {
    hide XorChunk, DecRight, Injective, Blocks;
    LongText(n);
    var text, x := buf[i..i + Blocks(n)], Overwritten(i, o);
    var c := XorChunk(d(buf[i..i + 16]), iv);
    assert text[..16] == buf[i..i + 16];
    DecNext(d, true, text, buf, i, buf, o, n, iv);
    Clobbered(buf, i, o, Blocks(n), c);
    DecDiffers(d, text[16..], Put(buf, o, c), i + 16, o + 16, n - 16, buf[i..i + 16], x - i - 16);
  }

  lemma DecFails(d: Chunk -> Chunk, size: nat, i: nat, o: nat, n: nat, iv: Chunk) returns (buf: seq<Byte>)
    requires Injective(d) && i + Blocks(n) <= size && o + n <= size && !Harmless(i, Blocks(n), o)
    ensures |buf| == size && !DecRight(d, true, buf[i..i + Blocks(n)], buf, i, buf, o, n, iv)
  {
    hide XorChunk, Injective, Blocks, DecRight;
    LongText(n);
    var x := Overwritten(i, o);
    buf := Zeros(size);
    var c := XorChunk(d(buf[i..i + 16]), iv);
    if c[x - o] == 0 {
      var was := buf;
      buf := buf[x := 1];
      assert buf[i..i + 16] == was[i..i + 16];
    }
    DecClobbers(d, buf, i, o, n, iv);
  }

  /** The exact condition for decryption within a buffer. */
  lemma DecExact(d: Chunk -> Chunk, size: nat, i: nat, o: nat, n: nat, iv: Chunk)
    requires Injective(d) && i + Blocks(n) <= size && o + n <= size
    ensures Harmless(i, Blocks(n), o) <==>
            forall buf: seq<Byte> | |buf| == size :: DecRight(d, true, buf[i..i + Blocks(n)], buf, i, buf, o, n, iv)
  {
    hide DecRight, Injective, Blocks;
    if Harmless(i, Blocks(n), o) {
      forall buf: seq<Byte> | |buf| == size ensures DecRight(d, true, buf[i..i + Blocks(n)], buf, i, buf, o, n, iv) {
        DecHarmless(d, true, buf, i, buf, o, n, iv);
      }
    } else {
      var bad := DecFails(d, size, i, o, n, iv);
    }
  }

  // ------------------------------------------------------- the loops, turn by turn

  /** Encrypting leaves the output buffer `end` and the chaining value `last`. */
  ghost predicate EncLeaves(e: Chunk -> Chunk, same: bool, inp: seq<Byte>, i: nat, out: seq<Byte>, o: nat, n: nat, iv: seq<Byte>,
                            end: seq<Byte>, last: seq<Byte>)
  {
    && |iv| == 16 && i + n <= |inp| && o + Blocks(n) <= |out| && (same ==> inp == out)
    && EncBuf(e, same, inp, i, out, o, n, iv) == (end, last)
  }

  ghost predicate DecLeaves(d: Chunk -> Chunk, same: bool, inp: seq<Byte>, i: nat, out: seq<Byte>, o: nat, n: nat, iv: seq<Byte>,
                            end: seq<Byte>, last: seq<Byte>)
  {
    && |iv| == 16 && i + Blocks(n) <= |inp| && o + n <= |out| && (same ==> inp == out)
    && DecBuf(d, same, inp, i, out, o, n, iv) == (end, last)
  }

  lemma EncOutcome(e: Chunk -> Chunk, same: bool, inp: seq<Byte>, i: nat, out: seq<Byte>, o: nat, n: nat, iv: Chunk)
    returns (end: seq<Byte>, last: seq<Byte>)
    requires i + n <= |inp| && o + Blocks(n) <= |out| && (same ==> inp == out)
    ensures EncLeaves(e, same, inp, i, out, o, n, iv, end, last)
  {
    end, last := EncBuf(e, same, inp, i, out, o, n, iv).0, EncBuf(e, same, inp, i, out, o, n, iv).1;
  }

  lemma DecOutcome(d: Chunk -> Chunk, same: bool, inp: seq<Byte>, i: nat, out: seq<Byte>, o: nat, n: nat, iv: Chunk)
    returns (end: seq<Byte>, last: seq<Byte>)
    requires i + Blocks(n) <= |inp| && o + n <= |out| && (same ==> inp == out)
    ensures DecLeaves(d, same, inp, i, out, o, n, iv, end, last)
  {
    end, last := DecBuf(d, same, inp, i, out, o, n, iv).0, DecBuf(d, same, inp, i, out, o, n, iv).1;
  }

  lemma EncTurn(e: Chunk -> Chunk, same: bool, inp: seq<Byte>, i: nat, out: seq<Byte>, o: nat, n: nat, iv: Chunk,
                inp': seq<Byte>, out': seq<Byte>, iv': Chunk, end: seq<Byte>, last: seq<Byte>)
    requires 16 <= n && EncLeaves(e, same, inp, i, out, o, n, iv, end, last) && i + 16 <= |inp| && o + 16 <= |out|
    requires iv' == e(XorChunk(inp[i..i + 16], iv)) && out' == out[..o] + iv' + out[o + 16..]
    requires inp' == if same then out' else inp
    ensures EncLeaves(e, same, inp', i + 16, out', o + 16, n - 16, iv', end, last)
  {
    hide XorChunk;
    assert Pad(inp[i..i + 16]) == inp[i..i + 16];
  }

  lemma EncLastTurn(e: Chunk -> Chunk, same: bool, inp: seq<Byte>, i: nat, out: seq<Byte>, o: nat, n: nat, iv: Chunk,
                    out': seq<Byte>, iv': Chunk, end: seq<Byte>, last: seq<Byte>)
    requires n < 16 && EncLeaves(e, same, inp, i, out, o, n, iv, end, last) && i + n <= |inp|
    requires if n == 0 then out' == out && iv' == iv
             else o + 16 <= |out| && iv' == e(XorChunk(Pad(inp[i..i + n]), iv)) && out' == out[..o] + iv' + out[o + 16..]
    ensures out' == end && iv' == last
  {
    hide XorChunk, Pad;
  }

  lemma DecTurn(d: Chunk -> Chunk, same: bool, inp: seq<Byte>, i: nat, out: seq<Byte>, o: nat, n: nat, iv: Chunk,
                inp': seq<Byte>, out': seq<Byte>, iv': Chunk, end: seq<Byte>, last: seq<Byte>)
    requires 16 <= n && DecLeaves(d, same, inp, i, out, o, n, iv, end, last) && i + 16 <= |inp| && o + 16 <= |out|
    requires iv' == inp[i..i + 16] && out' == out[..o] + XorChunk(d(iv'), iv) + out[o + 16..]
    requires inp' == if same then out' else inp
    ensures DecLeaves(d, same, inp', i + 16, out', o + 16, n - 16, iv', end, last)
  {
    hide XorChunk;
    var x := XorChunk(d(iv'), iv);
    assert x[..16] == x;
  }

  lemma DecLastTurn(d: Chunk -> Chunk, same: bool, inp: seq<Byte>, i: nat, out: seq<Byte>, o: nat, n: nat, iv: Chunk,
                    out': seq<Byte>, iv': Chunk, end: seq<Byte>, last: seq<Byte>)
    requires n < 16 && DecLeaves(d, same, inp, i, out, o, n, iv, end, last) && o + n <= |out|
    requires if n == 0 then out' == out && iv' == iv
             else i + 16 <= |inp| && iv' == d(inp[i..i + 16]) && out' == out[..o] + XorChunk(iv', iv)[..n] + out[o + n..]
    ensures out' == end && iv' == last
  {
    hide XorChunk;
  }

  lemma ThreeParts(end: seq<Byte>, out: seq<Byte>, o: nat, q: nat, w: seq<Byte>)
    requires o <= q <= |end| == |out| && end[..o] == out[..o] && end[q..] == out[q..] && end[o..q] == w
    ensures end == out[..o] + w + out[q..]
  {
    assert end == end[..o] + end[o..q] + end[q..];
  }

  /** The whole output buffer after a harmless encryption. */
  lemma EncLeavesRight(e: Chunk -> Chunk, same: bool, inp: seq<Byte>, i: nat, out: seq<Byte>, o: nat, n: nat, iv: Chunk, end: seq<Byte>, last: seq<Byte>)
    requires EncLeaves(e, same, inp, i, out, o, n, iv, end, last) && (same ==> Harmless(i, n, o))
    ensures i + n <= |inp| && o + Blocks(n) <= |out|
    ensures end == out[..o] + CbcEnc(e, inp[i..i + n], iv) + out[o + Blocks(n)..] && last == CbcEncIv(e, inp[i..i + n], iv)
  {
    hide CbcEnc, CbcEncIv, Blocks, EncBuf;
    EncHarmless(e, same, inp, i, out, o, n, iv);
    EncBufFrame(e, same, inp, i, out, o, n, iv, o);
    ThreeParts(end, out, o, o + Blocks(n), CbcEnc(e, inp[i..i + n], iv));
  }

  lemma DecLeavesRight(d: Chunk -> Chunk, same: bool, inp: seq<Byte>, i: nat, out: seq<Byte>, o: nat, n: nat, iv: Chunk, end: seq<Byte>, last: seq<Byte>)
    requires DecLeaves(d, same, inp, i, out, o, n, iv, end, last) && (same ==> Harmless(i, Blocks(n), o))
    ensures i + Blocks(n) <= |inp| && o + n <= |out|
    ensures var text := inp[i..i + Blocks(n)];
      end == out[..o] + CbcDec(d, text, n, iv) + out[o + n..] && last == CbcDecIv(d, text, n, iv)
  {
    hide CbcDec, CbcDecIv, Blocks, DecBuf;
    DecHarmless(d, same, inp, i, out, o, n, iv);
    DecBufFrame(d, same, inp, i, out, o, n, iv, o);
    ThreeParts(end, out, o, o + n, CbcDec(d, inp[i..i + Blocks(n)], n, iv));
  }
}
