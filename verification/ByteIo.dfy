/** Byte-granular access to a device of sectors (bdrv_pread and bdrv_pwrite in
    qemu-kvm/block.c): a partial first sector, whole sectors, a partial last one. */
module ByteIo {
  import opened Errno

  type Byte = int

  const SECTOR: nat := 512

  /** d with x put in at o. */
  function Splice(d: seq<Byte>, o: nat, x: seq<Byte>): (r: seq<Byte>)
    requires o + |x| <= |d|
    ensures |r| == |d|
  {
    d[..o] + x + d[o + |x|..]
  }

  /** Nothing outside [o, o + |x|) differs from d; inside, each byte is d's or x's. */
  ghost predicate Partial(d: seq<Byte>, e: seq<Byte>, o: nat, x: seq<Byte>) {
    && |e| == |d|
    && forall i | 0 <= i < |d| :: e[i] == d[i] || (o <= i < o + |x| && e[i] == x[i - o])
  }

  lemma SpliceTwice(d: seq<Byte>, o: nat, a: seq<Byte>, b: seq<Byte>)
    requires o + |a| + |b| <= |d|
    ensures Splice(Splice(d, o, a), o + |a|, b) == Splice(d, o, a + b)
  {
  }

  lemma SpliceIsPartial(d: seq<Byte>, o: nat, x: seq<Byte>)
    requires o + |x| <= |d|
    ensures Partial(d, Splice(d, o, x), o, x)
  {
  }

  lemma PartialAfter(d: seq<Byte>, o: nat, a: seq<Byte>, e: seq<Byte>, b: seq<Byte>)
    requires o + |a| <= |d| && Partial(Splice(d, o, a), e, o + |a|, b)
    ensures Partial(d, e, o, a + b)
  {
    var m := Splice(d, o, a);
    forall i | 0 <= i < |d| ensures e[i] == d[i] || (o <= i < o + |a + b| && e[i] == (a + b)[i - o]) {
      assert m[i] == if o <= i < o + |a| then a[i - o] else d[i];
    }
  }

  /** A whole write of a sector at s, in which x was put at offset k, is a write of
      x alone. */
  lemma SectorSplice(d: seq<Byte>, s: nat, k: nat, x: seq<Byte>)
    requires s + SECTOR <= |d| && k + |x| <= SECTOR
    ensures Splice(d, s, Splice(d[s..s + SECTOR], k, x)) == Splice(d, s + k, x)
  {
    var t := Splice(d[s..s + SECTOR], k, x);
    var a, b := Splice(d, s, t), Splice(d, s + k, x);
    forall i | 0 <= i < |d| ensures a[i] == b[i] {
      if s <= i < s + SECTOR { assert a[i] == t[i - s]; }
    }
  }

  lemma SectorPartial(d: seq<Byte>, e: seq<Byte>, s: nat, k: nat, x: seq<Byte>)
    requires s + SECTOR <= |d| && k + |x| <= SECTOR
    requires Partial(d, e, s, Splice(d[s..s + SECTOR], k, x))
    ensures Partial(d, e, s + k, x)
  {
    var t := Splice(d[s..s + SECTOR], k, x);
    forall i | 0 <= i < |d| ensures e[i] == d[i] || (s + k <= i < s + k + |x| && e[i] == x[i - s - k]) {
      if s <= i < s + SECTOR {
        assert t[i - s] == if k <= i - s < k + |x| then x[i - s - k] else d[i];
      }
    }
  }

  lemma SubSlice(d: seq<Byte>, s: nat, n: nat, k: nat, len: nat)
    requires s + n <= |d| && k + len <= n
    ensures d[s..s + n][k..k + len] == d[s + k..s + k + len]
  {
    var a, b := d[s..s + n][k..k + len], d[s + k..s + k + len];
    assert |a| == |b| && forall i | 0 <= i < len :: a[i] == b[i];
  }

  /** Writing and reading back. */
  lemma ReadBack(d: seq<Byte>, o: nat, x: seq<Byte>)
    requires o + |x| <= |d|
    ensures Splice(d, o, x)[o..o + |x|] == x
  {
  }

  class Device {
    /** The bytes of all sectors. */
    var bytes: seq<Byte>
    /** How many requests of the driver are still going to fail. */
    var faults: nat

    constructor (bytes: seq<Byte>, faults: nat)
      ensures this.bytes == bytes && this.faults == faults
    {
      this.bytes, this.faults := bytes, faults;
    }

    /** The range lies inside a device of whole sectors. */
    predicate InRange(offset: nat, count: nat)
      reads `bytes
    {
      |bytes| % SECTOR == 0 && offset + count <= |bytes|
    }

    /** Whether the driver fails this request, and with what. */
    method DriverFails() returns (ret: int)
      modifies `faults
      ensures ret <= 0 && (ret == 0 <==> faults == old(faults)) && faults <= old(faults)
    {
      var fails: bool := *;
      ret := 0;
      if fails && faults > 0 {
        faults := faults - 1;
        ret :| ret < 0;
      }
    }

    /** bdrv_read: fails past the end, and where the driver does. */
    method BdrvRead(sector: nat, nb: nat) returns (ret: int, data: seq<Byte>)
      modifies `faults
      ensures ret <= 0 && faults <= old(faults)
      ensures ret == 0 <==> SECTOR * (sector + nb) <= |bytes| && faults == old(faults)
      ensures ret == 0 ==> data == bytes[SECTOR * sector..SECTOR * (sector + nb)]
    {
      data := [];
      if SECTOR * (sector + nb) > |bytes| { return -EIO, []; }
      ret := DriverFails();
      if ret == 0 {
        data := bytes[SECTOR * sector..SECTOR * (sector + nb)];
      }
    }

    /** bdrv_write: fails past the end; may fail with some bytes written. */
    method BdrvWrite(sector: nat, data: seq<Byte>) returns (ret: int)
      modifies this
      ensures ret <= 0 && |bytes| == |old(bytes)| && faults <= old(faults)
      ensures ret == 0 <==> SECTOR * sector + |data| <= |bytes| && faults == old(faults)
      ensures ret == 0 ==> bytes == Splice(old(bytes), SECTOR * sector, data)
      ensures ret < 0 ==> Partial(old(bytes), bytes, SECTOR * sector, data)
    {
      if SECTOR * sector + |data| > |bytes| { return -EIO; }
      ret := DriverFails();
      if ret == 0 {
        bytes := Splice(bytes, SECTOR * sector, data);
      } else {
        var kept: set<nat> := *;
        var d, o := bytes, SECTOR * sector;
        bytes := seq(|d|, i requires 0 <= i < |d| => if o <= i < o + |data| && i !in kept then data[i - o] else d[i]);
      }
    }

    /** Appends the bytes read from the device at offset + p to the buffer. */
    method Fill(buf: array<Byte>, p: nat, data: seq<Byte>, ghost offset: nat, ghost count1: nat)
      requires p + |data| <= count1 <= buf.Length && Got(buf[..], bytes, offset, p) && data != []
      requires offset + p + |data| <= |bytes| && data == bytes[offset + p..offset + p + |data|]
      modifies buf
      ensures Got(buf[..], bytes, offset, p + |data|) && buf[count1..] == old(buf[count1..])
    {
      hide Got;
      Copy(buf, p, data);
      GotMore(old(buf[..]), buf[..], bytes, offset, p, data);
      AfterCopy(old(buf[..]), p, data, count1);
    }

    /** The part of bdrv_pread up to the first sector boundary. */
    method ReadHead(offset: nat, buf: array<Byte>, count1: nat) returns (ret: int, p: nat, sector: nat)
      requires count1 <= buf.Length
      modifies buf, `faults
      ensures ret <= 0 && p <= count1 && buf[count1..] == old(buf[count1..]) && faults <= old(faults)
      ensures ret == 0 ==> faults == old(faults)
      ensures InRange(offset, count1) && faults == old(faults) ==> ret == 0
      ensures ret == 0 ==> Got(buf[..], bytes, offset, p) && (p < count1 ==> SECTOR * sector == offset + p)
    {
      hide Got;
      Nothing(buf[..], bytes, offset);
      ret, p := 0, 0;
      var len := HeadLength(offset, count1);
      sector := offset / SECTOR;
      if len > 0 {
        var tmp;
        if InRange(offset, count1) { SectorInside(|bytes|, sector); }
        ret, tmp := BdrvRead(sector, 1);
        if ret < 0 { return; }
        var k := offset % SECTOR;
        SubSlice(bytes, SECTOR * sector, SECTOR, k, len);
        Fill(buf, 0, tmp[k..k + len], offset, count1);
        sector, p := sector + 1, len;
      }
    }

    /** The whole sectors of bdrv_pread. */
    method ReadWhole(sector: nat, nb: nat, buf: array<Byte>, p: nat, ghost offset: nat, ghost count1: nat) returns (ret: int)
      requires nb > 0 && p + SECTOR * nb <= count1 <= buf.Length && SECTOR * sector == offset + p && Got(buf[..], bytes, offset, p)
      modifies buf, `faults
      ensures ret <= 0 && buf[count1..] == old(buf[count1..]) && faults <= old(faults)
      ensures ret == 0 ==> faults == old(faults)
      ensures InRange(offset, count1) && faults == old(faults) ==> ret == 0
      ensures ret == 0 ==> Got(buf[..], bytes, offset, p + SECTOR * nb)
    {
      hide Got;
      var data;
      ret, data := BdrvRead(sector, nb);
      if ret < 0 { return; }
      Fill(buf, p, data, offset, count1);
    }

    /** The part of bdrv_pread in the last sector. */
    method ReadTail(sector: nat, count: nat, buf: array<Byte>, p: nat, ghost offset: nat, ghost count1: nat) returns (ret: int)
      requires 0 < count < SECTOR && p + count == count1 <= buf.Length && SECTOR * sector == offset + p && Got(buf[..], bytes, offset, p)
      modifies buf, `faults
      ensures ret <= 0 && buf[count1..] == old(buf[count1..]) && faults <= old(faults)
      ensures ret == 0 ==> faults == old(faults)
      ensures InRange(offset, count1) && faults == old(faults) ==> ret == 0
      ensures ret == 0 ==> Got(buf[..], bytes, offset, count1)
    {
      hide Got;
      var tmp;
      if InRange(offset, count1) { SectorInside(|bytes|, sector); }
      ret, tmp := BdrvRead(sector, 1);
      if ret < 0 { return; }
      Fill(buf, p, tmp[..count], offset, count1);
    }

    /** bdrv_pread: a range inside the device is read exactly if no request of the driver
        fails, and on success the buffer holds the bytes of the range. */
    method Pread(offset: nat, buf: array<Byte>, count1: nat) returns (ret: int)
      requires count1 <= buf.Length
      modifies buf, `faults
      ensures faults <= old(faults) && (ret >= 0 ==> faults == old(faults))
      ensures InRange(offset, count1) && faults == old(faults) ==> ret == count1
      ensures ret < 0 || ret == count1
      ensures ret >= 0 ==> Got(buf[..], bytes, offset, count1)
      ensures buf[count1..] == old(buf[count1..])
    {
      hide Got;
      var p, sector;
      ret, p, sector := ReadHead(offset, buf, count1);
      if ret < 0 { return; }
      var count := count1 - p;
      if count == 0 { return count1; }
      var nb := count / SECTOR;
      if nb > 0 {
        ret := ReadWhole(sector, nb, buf, p, offset, count1);
        if ret < 0 { return; }
        sector, p, count := sector + nb, p + SECTOR * nb, count - SECTOR * nb;
      }
      if count > 0 {
        ret := ReadTail(sector, count, buf, p, offset, count1);
        if ret < 0 { return; }
      }
      return count1;
    }

    static method Copy(buf: array<Byte>, p: nat, data: seq<Byte>)
      requires p + |data| <= buf.Length
      modifies buf
      ensures buf[..] == old(buf[..p]) + data + old(buf[p + |data|..])
    {
      forall i | 0 <= i < |data| {
        buf[p + i] := data[i];
      }
    }

    /** The first or the last sector: read, changed and written back. */
    method WriteWithin(sector: nat, k: nat, x: seq<Byte>) returns (ret: int)
      requires k + |x| <= SECTOR && x != []
      modifies this
      ensures ret <= 0 && |bytes| == |old(bytes)| && faults <= old(faults)
      ensures ret == 0 ==> faults == old(faults)
      ensures old(InRange(SECTOR * sector + k, |x|)) && faults == old(faults) ==> ret == 0
      ensures ret == 0 ==> SECTOR * sector + k + |x| <= |bytes| && bytes == Splice(old(bytes), SECTOR * sector + k, x)
      ensures ret < 0 ==> Partial(old(bytes), bytes, SECTOR * sector + k, x)
    {
      var tmp;
      if InRange(SECTOR * sector + k, |x|) { SectorInside(|bytes|, sector); }
      ret, tmp := BdrvRead(sector, 1);
      if ret < 0 { return; }
      ret := BdrvWrite(sector, Splice(tmp, k, x));
      if ret == 0 {
        SectorSplice(old(bytes), SECTOR * sector, k, x);
      } else {
        SectorPartial(old(bytes), bytes, SECTOR * sector, k, x);
      }
    }

    /** The part of bdrv_pwrite up to the first sector boundary. */
    method WriteHead(offset: nat, x: seq<Byte>) returns (ret: int, p: nat, sector: nat)
      modifies this
      ensures ret <= 0 && p <= |x| && |bytes| == |old(bytes)| && Partial(old(bytes), bytes, offset, x) && faults <= old(faults)
      ensures ret == 0 ==> faults == old(faults)
      ensures old(InRange(offset, |x|)) && faults == old(faults) ==> ret == 0
      ensures ret == 0 ==> Done(old(bytes), bytes, offset, x, p) && (p < |x| ==> SECTOR * sector == offset + p)
    {
      hide Splice, Partial;
      ghost var d := bytes;
      Unwritten(d, offset, x);
      ret, p := 0, 0;
      var len := HeadLength(offset, |x|);
      sector := offset / SECTOR;
      if len > 0 {
        ret := WriteWithin(sector, offset % SECTOR, x[..len]);
        PartialPrefix(d, bytes, offset, x, len, ret);
        sector, p := sector + 1, len;
      }
    }

    /** bdrv_pwrite: a range inside the device is written exactly if no request of the
        driver fails; on success exactly the bytes of the range have the new values,
        on failure no byte outside the range has changed. */
    method Pwrite(offset: nat, x: seq<Byte>) returns (ret: int)
      modifies this
      ensures faults <= old(faults) && (ret >= 0 ==> faults == old(faults))
      ensures old(InRange(offset, |x|)) && faults == old(faults) ==> ret == |x|
      ensures |bytes| == |old(bytes)| && (ret < 0 || ret == |x|)
      ensures ret >= 0 ==> Done(old(bytes), bytes, offset, x, |x|)
      ensures Partial(old(bytes), bytes, offset, x)
    {
      hide Splice, Partial, Done;
      ghost var d := bytes;
      var p, sector;
      ret, p, sector := WriteHead(offset, x);
      if ret < 0 { return; }
      var count := |x| - p;
      if count == 0 { return |x|; }
      var nb := count / SECTOR;
      if nb > 0 {
        ghost var e := bytes;
        ret := BdrvWrite(sector, x[p..p + SECTOR * nb]);
        DoneMore(d, e, bytes, offset, x, p, SECTOR * nb, ret);
        if ret < 0 { return; }
        sector, p, count := sector + nb, p + SECTOR * nb, count - SECTOR * nb;
      }
      if count > 0 {
        ghost var e := bytes;
        assert x[p..] == x[p..p + count];
        ret := WriteWithin(sector, 0, x[p..]);
        DoneMore(d, e, bytes, offset, x, p, count, ret);
        if ret < 0 { return; }
      }
      return |x|;
    }
  }

  /** A sector that begins inside a device of whole sectors lies inside it. */
  lemma SectorInside(size: nat, sector: nat)
    requires size % SECTOR == 0 && SECTOR * sector < size
    ensures SECTOR * (sector + 1) <= size
  {
  }

  /** How many of count bytes lie before the first sector boundary. */
  function HeadLength(offset: nat, count: nat): (len: nat)
    ensures len <= count && offset % SECTOR + len <= SECTOR
    ensures len == 0 ==> count == 0 || offset % SECTOR == 0
    ensures 0 < len < count ==> SECTOR * (offset / SECTOR + 1) == offset + len
  {
    var len := (SECTOR - offset % SECTOR) % SECTOR;
    if len > count then count else len
  }

  /** The buffer's first n bytes are the device's from offset on. */
  ghost predicate Got(buf: seq<Byte>, bytes: seq<Byte>, offset: nat, n: nat) {
    n == 0 || (n <= |buf| && offset + n <= |bytes| && buf[..n] == bytes[offset..offset + n])
  }

  lemma GotMore(was: seq<Byte>, buf: seq<Byte>, bytes: seq<Byte>, offset: nat, p: nat, data: seq<Byte>)
    requires p + |data| <= |was| && buf == was[..p] + data + was[p + |data|..] && Got(was, bytes, offset, p)
    requires offset + p + |data| <= |bytes| && data == bytes[offset + p..offset + p + |data|]
    ensures Got(buf, bytes, offset, p + |data|)
  {
    var n := p + |data|;
    var a, b := buf[..n], bytes[offset..offset + n];
    assert |a| == |b| == n;
    forall i | 0 <= i < n ensures a[i] == b[i] {
      if i < p {
        assert a[i] == was[..p][i] && bytes[offset..offset + p][i] == b[i];
      } else {
        assert a[i] == data[i - p];
      }
    }
    assert a == b;
  }

  lemma AfterCopy(was: seq<Byte>, p: nat, data: seq<Byte>, k: nat)
    requires p + |data| <= k <= |was|
    ensures (was[..p] + data + was[p + |data|..])[k..] == was[k..]
  {
    var a, b := (was[..p] + data + was[p + |data|..])[k..], was[k..];
    assert |a| == |b| && forall i | 0 <= i < |a| :: a[i] == b[i];
  }

  lemma Nothing(buf: seq<Byte>, bytes: seq<Byte>, offset: nat)
    ensures Got(buf, bytes, offset, 0)
  {
  }

  /** The first p bytes of x have been written over d, giving e. */
  ghost predicate Done(d: seq<Byte>, e: seq<Byte>, o: nat, x: seq<Byte>, p: nat) {
    && p <= |x| && |e| == |d|
    && if p == 0 then e == d else o + p <= |d| && e == Splice(d, o, x[..p])
  }

  lemma Unwritten(d: seq<Byte>, o: nat, x: seq<Byte>)
    ensures Partial(d, d, o, x)
  {
  }

  lemma PartialPrefix(d: seq<Byte>, e: seq<Byte>, o: nat, x: seq<Byte>, n: nat, ret: int)
    requires n <= |x| && |e| == |d|
    requires if ret < 0 then Partial(d, e, o, x[..n]) else o + n <= |d| && e == Splice(d, o, x[..n])
    ensures Partial(d, e, o, x)
  {
    if ret >= 0 { SpliceIsPartial(d, o, x[..n]); }
  }

  lemma DonePrefix(d: seq<Byte>, e: seq<Byte>, f: seq<Byte>, o: nat, x: seq<Byte>, p: nat, n: nat, ret: int)
    requires Done(d, e, o, x, p) && 0 < n && p + n <= |x| && |f| == |e|
    requires if ret < 0 then Partial(e, f, o + p, x[p..p + n]) else o + p + n <= |d| && f == Splice(e, o + p, x[p..p + n])
    ensures if ret < 0 then Partial(d, f, o, x[..p + n]) else o + p + n <= |d| && f == Splice(d, o, x[..p + n])
  {
    hide Splice, Partial;
    var a, b := x[..p], x[p..p + n];
    assert x[..p + n] == a + b;
    if p == 0 {
      assert a + b == b;
    } else if ret < 0 {
      PartialAfter(d, o, a, f, b);
    } else {
      SpliceTwice(d, o, a, b);
    }
  }

  lemma DoneMore(d: seq<Byte>, e: seq<Byte>, f: seq<Byte>, o: nat, x: seq<Byte>, p: nat, n: nat, ret: int)
    requires Done(d, e, o, x, p) && 0 < n && p + n <= |x| && |f| == |e|
    requires if ret < 0 then Partial(e, f, o + p, x[p..p + n]) else o + p + n <= |d| && f == Splice(e, o + p, x[p..p + n])
    ensures ret >= 0 ==> Done(d, f, o, x, p + n)
    ensures Partial(d, f, o, x)
  {
    hide Splice, Partial;
    DonePrefix(d, e, f, o, x, p, n, ret);
    PartialPrefix(d, f, o, x, p + n, ret);
  }

  /** What a successful write leaves, and what a read of the range then returns. */
  lemma WriteThenRead(d: seq<Byte>, e: seq<Byte>, o: nat, x: seq<Byte>, buf: seq<Byte>)
    requires Done(d, e, o, x, |x|) && Got(buf, e, o, |x|)
    ensures x != [] ==> o + |x| <= |d| && e == Splice(d, o, x) && buf[..|x|] == x
  {
    assert x[..|x|] == x;
    if x != [] { ReadBack(d, o, x); }
  }
}
