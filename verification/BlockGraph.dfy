/** Block driver states linked into chains, and the operations that move data or
    links along a chain (qemu-kvm/block.c). */
module BlockGraph {
  import opened Errno
  import opened ImageChain

  const COMMIT_BUF_SECTORS: nat := 2048

  /** What stays attached to a device when images are swapped under it. */
  datatype Features = Features(deviceName: string, dev: bool, job: bool, inUse: bool, dirtyBitmap: bool,
                               ioLimits: bool, timer: bool, copyOnRead: bool)

  /** Nothing fancy enabled. */
  predicate Anonymous(f: Features) {
    f.deviceName == "" && !f.dev && !f.job && !f.inUse && !f.dirtyBitmap && !f.ioLimits && !f.timer
  }

  /** A BlockDriverState: an open image and the device it is attached to. */
  class Bds {
    /** Whether a medium is open. */
    var drv: bool
    var format: string
    var filename: string
    var total: nat
    var data: map<nat, Value>
    var readOnly: bool
    var backing: Bds?
    var backingFile: string
    var backingFormat: string
    var feat: Features

    constructor (filename: string, format: string, total: nat, data: map<nat, Value>, backing: Bds?, feat: Features)
      ensures drv && this.filename == filename && this.total == total && this.data == data && this.backing == backing
      ensures this.feat == feat && this.format == format && !readOnly
    {
      drv, this.filename, this.format, this.total, this.data := true, filename, format, total, data;
      this.backing, this.feat, readOnly, backingFile, backingFormat := backing, feat, false, "", "";
    }
  }

  // ------------------------------------------------------------------- chains

  /** ch lists an image and the images below it, down to one without backing. */
  ghost predicate IsChain(ch: seq<Bds>)
    reads ch`backing, ch`data, ch`total
  {
    && ch != []
    && (forall i, j | 0 <= i < j < |ch| :: ch[i] != ch[j])
    && (forall i | 0 <= i < |ch| - 1 :: ch[i].backing == ch[i + 1])
    && ch[|ch| - 1].backing == null
    && (forall i, s | 0 <= i < |ch| && s in ch[i].data :: s < ch[i].total)
  }

  lemma SomeImage(ch: seq<Bds>)
    requires IsChain(ch)
    ensures ch != []
  {
  }

  lemma ChainNext(ch: seq<Bds>, i: nat)
    requires IsChain(ch) && i < |ch|
    ensures ch[i].backing == if i + 1 < |ch| then ch[i + 1] else null
  {
  }

  /** One of the first j images holds the sector. */
  ghost predicate HeldAbove(ch: seq<Bds>, j: nat, s: nat)
    requires j <= |ch|
    reads ch
  {
    exists k :: 0 <= k < j && s in ch[k].data
  }

  lemma HeldNext(ch: seq<Bds>, j: nat, s: nat)
    requires j < |ch|
    ensures HeldAbove(ch, j + 1, s) <==> HeldAbove(ch, j, s) || s in ch[j].data
  {
  }

  ghost function Images(ch: seq<Bds>): (r: seq<Image>)
    reads ch`data, ch`total
    ensures |r| == |ch| && forall i | 0 <= i < |ch| :: r[i] == Image(ch[i].total, ch[i].data)
  {
    if ch == [] then [] else [Image(ch[0].total, ch[0].data)] + Images(ch[1..])
  }

  // --------------------------------------------------------------- allocation

  /** Drivers fail some of their calls, as many as there are faults to come: whether this
      one fails, and the faults left. */
  method Fault(faults: nat) returns (fails: bool, left: nat)
    ensures left <= faults && (fails <==> left < faults)
  {
    fails, left := *, faults;
    fails := fails && faults > 0;
    if fails { left := faults - 1; }
  }

  /** bdrv_co_is_allocated: whether the sector is allocated in this image, and how
      many sectors from it on are known to be in the same state. */
  method IsAllocated(bs: Bds, sector: nat, nb: nat) returns (present: bool, n: nat)
    requires nb > 0
    ensures sector >= bs.total ==> !present && n == 0
    ensures sector < bs.total ==> 1 <= n <= nb && sector + n <= bs.total && present == (sector in bs.data)
    ensures forall x | sector <= x < sector + n :: (x in bs.data) == present
  {
    if sector >= bs.total {
      return false, 0;
    }
    present, n := sector in bs.data, 1;
    var longer: bool := *;
    while longer && n < nb && sector + n < bs.total && (sector + n in bs.data) == present
      invariant 1 <= n <= nb && sector + n <= bs.total
      invariant forall x | sector <= x < sector + n :: (x in bs.data) == present
    {
      n := n + 1;
      longer := *;
    }
  }

  /** One of the first j images ends at or before the sector. */
  ghost predicate EndsAbove(ch: seq<Bds>, j: nat, sector: nat)
    requires j <= |ch|
    reads ch`total
  {
    exists k :: 0 <= k < j && ch[k].total <= sector
  }

  lemma EndsNext(ch: seq<Bds>, j: nat, sector: nat)
    requires j < |ch|
    ensures EndsAbove(ch, j + 1, sector) <==> EndsAbove(ch, j, sector) || ch[j].total <= sector
  {
  }

  /** None of the first j images holds a sector of the run. */
  ghost predicate NoneHeld(ch: seq<Bds>, j: nat, sector: nat, n: nat)
    requires j <= |ch|
    reads ch
  {
    !HeldAbove(ch, j, sector) && forall x | sector <= x < sector + n :: !HeldAbove(ch, j, x)
  }

  lemma NoneAbove(ch: seq<Bds>, sector: nat, n: nat)
    ensures NoneHeld(ch, 0, sector, n) && !EndsAbove(ch, 0, sector)
  {
  }

  lemma NoneHeldNext(ch: seq<Bds>, j: nat, sector: nat, n: nat, m: nat)
    requires j < |ch| && NoneHeld(ch, j, sector, n) && m <= n
    requires sector !in ch[j].data && forall x | sector <= x < sector + m :: x !in ch[j].data
    ensures NoneHeld(ch, j + 1, sector, m)
  {
    HeldNext(ch, j, sector);
    var next := j + 1;
    forall x | sector <= x < sector + m ensures !HeldAbove(ch, next, x) { HeldNext(ch, j, x); }
  }

  /** bdrv_co_is_allocated_above: whether the sector is allocated in any image from
      top down to, but not including, base.  It gives no answer exactly if a driver's
      query fails. */
  method IsAllocatedAbove(top: Bds, base: Bds?, sector: nat, nb: nat, faults: nat, ghost ch: seq<Bds>, ghost j: nat)
    returns (ret: int, pnum: nat, left: nat)
    requires IsChain(ch) && ch[0] == top && nb > 0
    requires j <= |ch| && (if base in ch then j < |ch| && ch[j] == base else j == |ch|)
    ensures ret == 1 ==> HeldAbove(ch, j, sector) && forall x | sector <= x < sector + pnum :: HeldAbove(ch, j, x)
    ensures ret == 0 ==> NoneHeld(ch, j, sector, pnum) && (pnum == 0 <==> EndsAbove(ch, j, sector))
    ensures ret <= 1 && left <= faults && (ret < 0 <==> left < faults)
  {
    hide NoneHeld, EndsAbove;
    left := faults;
    NoneAbove(ch, sector, nb);
    var n: nat := nb;
    var at: Bds? := top;
    ghost var i: nat := 0;
    while at != null && at != base
      invariant i <= j && at == if i < |ch| then ch[i] else null
      invariant NoneHeld(ch, i, sector, n) && (n == 0 <==> EndsAbove(ch, i, sector))
      invariant left == faults
      decreases |ch| - i
    {
      var fails;
      fails, left := Fault(faults);
      if fails {
        var err: int :| err < 0;
        return err, 0, left;
      }
      var present, m := IsAllocated(at, sector, nb);
      if present {
        assert forall x | sector <= x < sector + m :: x in ch[i].data;
        return 1, m, left;
      }
      NoneHeldNext(ch, i, sector, n, if n > m then m else n);
      EndsNext(ch, i, sector);
      if n > m { n := m; }
      ChainNext(ch, i);
      at := at.backing;
      i := i + 1;
    }
    return 0, n, left;
  }

  // -------------------------------------------------------------------- commit

  /** Every sector held lies inside an image of this length. */
  predicate FitsIn(data: map<nat, Value>, total: nat) { forall s | s in data :: s < total }

  /** data holds the buffer's sectors from `sector` on. */
  ghost predicate Holds(data: map<nat, Value>, sector: nat, buf: seq<Value>) {
    forall s | sector <= s < sector + |buf| :: s in data && data[s] == buf[s - sector]
  }

  /** Each sector is as before, or is the buffer's. */
  ghost predicate SomeWritten(was: map<nat, Value>, data: map<nat, Value>, sector: nat, buf: seq<Value>) {
    forall s: nat :: SameAt(Image(0, data), Image(0, was), s) || (sector <= s < sector + |buf| && s in data && data[s] == buf[s - sector])
  }

  /** bdrv_write: past the end it fails; elsewhere it fails if the driver does, having
      written some of the sectors. */
  method BdrvWrite(bs: Bds, sector: nat, buf: seq<Value>, faults: nat) returns (ret: int, left: nat)
    modifies bs`data
    ensures (ret == 0 || ret == -EIO) && left <= faults
    ensures ret == 0 <==> sector + |buf| <= bs.total && left == faults
    ensures ret == 0 ==> Holds(bs.data, sector, buf)
    ensures SomeWritten(old(bs.data), bs.data, sector, buf)
    ensures sector + |buf| > bs.total ==> bs.data == old(bs.data)
  {
    left := faults;
    if sector + |buf| > bs.total {
      return -EIO, left;
    }
    var i := 0;
    while i < |buf|
      invariant 0 <= i <= |buf| && left == faults
      invariant Holds(bs.data, sector, buf[..i]) && SomeWritten(old(bs.data), bs.data, sector, buf)
    {
      var fails;
      fails, left := Fault(left);
      if fails { return -EIO, left; }
      bs.data := bs.data[sector + i := buf[i]];
      i := i + 1;
    }
    assert buf[..i] == buf;
    ret := 0;
  }

  /** The overlay has an image below it. */
  ghost predicate IsOverlay(ch: seq<Bds>)
    reads ch`backing, ch`data, ch`total
  {
    IsChain(ch) && |ch| >= 2
  }

  /** bdrv_read of one sector: from the first image of the chain that holds it. */
  method ReadSector(bs: Bds, s: nat, ghost ch: seq<Bds>) returns (v: Value)
    requires IsChain(ch) && ch[0] == bs
    ensures v == Visible(Images(ch), s)
  {
    hide Images;
    var at: Bds? := bs;
    ghost var i, chain := 0, Images(ch);
    assert chain[0..] == chain;
    while at != null
      invariant 0 <= i <= |ch| && at == if i < |ch| then ch[i] else null
      invariant Visible(chain, s) == Visible(chain[i..], s)
      decreases |ch| - i
    {
      assert chain[i..][0] == chain[i] && chain[i..][1..] == chain[i + 1..];
      if s >= at.total { return ZERO; }
      if s in at.data { return at.data[s]; }
      ChainNext(ch, i);
      at := at.backing;
      i := i + 1;
    }
    v := ZERO;
  }

  /** The buffer's sectors are what the chain shows from `sector` on. */
  ghost predicate Shows(chain: seq<Image>, sector: nat, buf: seq<Value>) {
    forall i | 0 <= i < |buf| :: buf[i] == Visible(chain, sector + i)
  }

  method BdrvRead(bs: Bds, sector: nat, n: nat, ghost ch: seq<Bds>) returns (buf: seq<Value>)
    requires IsChain(ch) && ch[0] == bs
    ensures |buf| == n && Shows(Images(ch), sector, buf)
  {
    hide IsChain, Visible, Images;
    buf := [];
    while |buf| < n
      invariant |buf| <= n && Shows(Images(ch), sector, buf)
    {
      var v := ReadSector(bs, sector + |buf|, ch);
      buf := buf + [v];
    }
  }

  /** One turn of the loop of bdrv_commit: a query of the allocation state that fails
      counts as allocated.  The guest sees no difference, whatever happens; on
      success the image below shows what the overlay shows there. */
  method CommitChunk(bs: Bds, below: Bds, sector: nat, faults: nat, ghost ch: seq<Bds>) returns (ret: int, n: nat, left: nat)
    requires IsOverlay(ch) && ch[0] == bs && ch[1] == below && sector < bs.total
    modifies below`data
    ensures IsOverlay(ch) && (ret == 0 || ret == -EIO)
    ensures SameDisk(Images(ch), old(Images(ch)))
    ensures 1 <= n && sector + n <= bs.total && left <= faults
    ensures left == faults ==> (ret == 0 <==> forall s | sector <= s < sector + n && s in bs.data :: s < below.total)
    ensures ret == 0 ==> forall s | sector <= s < sector + n :: SameBelow(Images(ch), s)
    ensures forall s: nat | s < sector || sector + n <= s :: Visible(Images(ch)[1..], s) == Visible(old(Images(ch))[1..], s)
  {
    hide Visible, Images, SameDisk, SameBelow, CopiedInto;
    var copies;
    copies, n, left := QueryAllocated(bs, sector, faults);
    ghost var before := Images(ch);
    ret := 0;
    if copies {
      Apart(ch);
      ret, left := CopySectors(bs, below, sector, n, left, ch);
      assert left == faults ==> sector + n - 1 in bs.data;
    }
    ghost var under := Image(below.total, below.data);
    assert Images(ch) == before[1 := under];
    CommitStep(before, Images(ch), under, sector, n, copies, ret == 0);
  }

  /** bdrv_is_allocated as bdrv_commit uses it. */
  method QueryAllocated(bs: Bds, sector: nat, faults: nat) returns (copies: bool, n: nat, left: nat)
    requires sector < bs.total
    ensures 1 <= n && sector + n <= bs.total && left <= faults
    ensures !copies ==> forall x | sector <= x < sector + n :: x !in bs.data
    ensures left == faults && copies ==> forall x | sector <= x < sector + n :: x in bs.data
  {
    copies, n := IsAllocated(bs, sector, COMMIT_BUF_SECTORS);
    var fails;
    fails, left := Fault(faults);
    if fails {
      copies := true;
      var run: nat :| 1 <= run && sector + run <= bs.total;
      n := run;
    }
  }

  /** The image below holds what the chain showed, in some sectors of a run or in all
      of them, and is otherwise as it was. */
  ghost predicate CopiedInto(under: Image, chain: seq<Image>, sector: nat, n: nat, all: bool)
    requires |chain| >= 2
  {
    && under.total == chain[1].total
    && (forall s: nat :: SameAt(under, chain[1], s) || (sector <= s < sector + n && HoldsVisible(under, chain, s)))
    && (all ==> forall s: nat | sector <= s < sector + n :: HoldsVisible(under, chain, s))
  }

  /** Reads a run of sectors through the chain and writes it to the image below. */
  method CopySectors(bs: Bds, below: Bds, sector: nat, n: nat, faults: nat, ghost ch: seq<Bds>) returns (ret: int, left: nat)
    requires IsOverlay(ch) && ch[0] == bs && ch[1] == below
    modifies below`data
    ensures IsOverlay(ch) && (ret == 0 || ret == -EIO) && left <= faults
    ensures ret == 0 <==> sector + n <= below.total && left == faults
    ensures CopiedInto(Image(below.total, below.data), old(Images(ch)), sector, n, ret == 0)
  {
    hide Visible, Images;
    var fails;
    fails, left := Fault(faults);
    if fails { return -EIO, left; }
    var buf := BdrvRead(bs, sector, n, ch);
    ghost var was := Images(ch);
    ret, left := BdrvWrite(below, sector, buf, left);
    Copied(was, Image(below.total, below.data), sector, buf, ret == 0);
  }

  lemma Copied(was: seq<Image>, under: Image, sector: nat, buf: seq<Value>, done: bool)
    requires |was| >= 2 && under.total == was[1].total && Shows(was, sector, buf)
    requires SomeWritten(was[1].data, under.data, sector, buf)
    requires sector + |buf| > under.total ==> under.data == was[1].data && !done
    requires done ==> Holds(under.data, sector, buf)
    ensures CopiedInto(under, was, sector, |buf|, done)
  {
    hide Visible;
    forall s: nat | sector <= s < sector + |buf| ensures buf[s - sector] == Visible(was, s) {
      var i := s - sector;
      assert sector + i == s;
    }
    forall s: nat ensures SameAt(under, was[1], s) || (sector <= s < sector + |buf| && HoldsVisible(under, was, s)) {
      assert SameAt(Image(0, under.data), Image(0, was[1].data), s) || (sector <= s < sector + |buf| && s in under.data && under.data[s] == buf[s - sector]);
    }
  }

  /** What writing visible sectors to the image below does. */
  lemma CommitStep(before: seq<Image>, after: seq<Image>, under: Image, sector: nat, n: nat, copies: bool, done: bool)
    requires |before| >= 2 && under.total == before[1].total && sector + n <= before[0].total && after == before[1 := under]
    requires !copies ==> forall x | sector <= x < sector + n :: x !in before[0].data
    requires if copies then CopiedInto(under, before, sector, n, done) else under == before[1]
    ensures SameDisk(after, before)
    ensures done ==> forall s: nat | sector <= s < sector + n :: SameBelow(after, s)
    ensures forall s: nat | s < sector || sector + n <= s :: Visible(after[1..], s) == Visible(before[1..], s)
  {
    forall s: nat ensures Visible(after, s) == Visible(before, s) { WriteBelow(before, under, s); }
    forall s: nat | s < sector || sector + n <= s ensures Visible(after[1..], s) == Visible(before[1..], s) {
      assert SameAt(under, before[1], s);
      SameSecond(before, under, s);
    }
    forall s: nat | done && sector <= s < sector + n ensures SameBelow(after, s) {
      assert after[0] == before[0] && after[1..][0] == under;
      if copies {
        assert HoldsVisible(under, before, s);
        assert Visible(after, s) == Visible(before, s);
      }
    }
  }

  lemma SameSecond(chain: seq<Image>, under: Image, s: nat)
    requires |chain| >= 2 && under.total == chain[1].total && SameAt(under, chain[1], s)
    ensures Visible(chain[1 := under][1..], s) == Visible(chain[1..], s)
  {
    var after := chain[1 := under];
    assert after[1..][0] == under && chain[1..][0] == chain[1];
    assert after[1..][1..] == chain[2..] == chain[1..][1..];
  }

  /** bdrv_make_empty of a driver: drops the allocated sectors; a failure may leave
      some of them. */
  method MakeEmpty(bs: Bds, faults: nat) returns (ret: int, left: nat)
    modifies bs`data
    ensures left <= faults && (ret == 0 <==> left == faults)
    ensures ret == 0 ==> bs.data == map[]
    ensures forall s | s in bs.data :: s in old(bs.data) && bs.data[s] == old(bs.data)[s]
  {
    var fails;
    fails, left := Fault(faults);
    if fails {
      var kept: set<nat> := *;
      bs.data := map s | s in bs.data && s in kept :: bs.data[s];
      ret :| ret < 0;
    } else {
      bs.data := map[];
      ret := 0;
    }
  }

  lemma StillBelow(before: seq<Image>, after: seq<Image>, s: nat)
    requires |before| >= 2 && |after| >= 2 && SameBelow(before, s)
    requires Visible(after, s) == Visible(before, s) && Visible(after[1..], s) == Visible(before[1..], s)
    ensures SameBelow(after, s)
  {
  }

  /** The image below shows what the overlay shows, over its whole length. */
  ghost predicate AllBelow(chain: seq<Image>)
    requires |chain| >= 2
  {
    forall s: nat | s < chain[0].total :: SameBelow(chain, s)
  }

  /** The copy loop of bdrv_commit. */
  method CopyDown(bs: Bds, below: Bds, faults: nat, ghost ch: seq<Bds>) returns (ret: int, left: nat)
    requires IsOverlay(ch) && ch[0] == bs && ch[1] == below
    modifies below`data
    ensures IsOverlay(ch) && (ret == 0 || ret == -EIO) && SameDisk(Images(ch), old(Images(ch)))
    ensures ret == 0 ==> AllBelow(Images(ch))
    ensures left <= faults && (left == faults ==> (ret == 0 <==> FitsIn(bs.data, below.total)))
  {
    hide Visible, Images, SameBelow;
    left := faults;
    var sector: nat := 0;
    while sector < bs.total
      invariant IsOverlay(ch) && sector <= bs.total && SameDisk(Images(ch), old(Images(ch)))
      invariant forall s: nat | s < sector :: SameBelow(Images(ch), s)
      invariant left <= faults && (left == faults ==> forall s | s in bs.data && s < sector :: s < below.total)
      decreases bs.total - sector
    {
      ghost var before := Images(ch);
      var n;
      ret, n, left := CommitChunk(bs, below, sector, left, ch);
      if ret != 0 { return; }
      forall s: nat | s < sector ensures SameBelow(Images(ch), s) {
        StillBelow(before, Images(ch), s);
      }
      sector := sector + n;
    }
    ret := 0;
  }

  lemma Unchanged(chain: seq<Image>)
    ensures SameDisk(chain, chain)
  {
  }

  lemma Apart(ch: seq<Bds>)
    requires IsChain(ch)
    ensures |ch| >= 2 ==> ch[0] != ch[1]
  {
  }

  /** The copy loop of bdrv_commit and the emptying of the overlay. */
  method CommitDown(bs: Bds, below: Bds, hasMakeEmpty: bool, faults: nat, ghost ch: seq<Bds>)
    returns (ret: int, left: nat, ghost copied: bool)
    requires IsOverlay(ch) && ch[0] == bs && ch[1] == below
    modifies bs`data, below`data
    ensures IsOverlay(ch) && SameDisk(Images(ch), old(Images(ch)))
    ensures copied ==> AllBelow(Images(ch))
    ensures ret == 0 ==> copied
    ensures !copied ==> bs.data == old(bs.data) && ret == -EIO
    ensures left <= faults && (left == faults ==> (ret == 0 <==> FitsIn(old(bs.data), below.total)))
  {
    hide AllBelow, Visible, Images, IsChain, FitsIn;
    Apart(ch);
    ret, left := CopyDown(bs, below, faults, ch);
    copied := ret == 0;
    if ret == 0 && hasMakeEmpty {
      ret, left := EmptyOverlay(bs, left, ch);
    }
  }

  /** bdrv_commit. `copied` says whether the whole overlay reached the image below.  If no
      driver call fails, it succeeds exactly if the media are open and not in use and
      the image below is long enough for what the overlay holds. */
  method Commit(bs: Bds, below: Bds?, hasMakeEmpty: bool, faults: nat, ghost ch: seq<Bds>)
    returns (ret: int, left: nat, ghost copied: bool)
    requires IsChain(ch) && ch[0] == bs && below == bs.backing
    modifies bs`data, (if below == null then {} else {below})`data, (if below == null then {} else {below})`readOnly
    ensures IsChain(ch) && SameDisk(Images(ch), old(Images(ch)))
    ensures copied ==> |ch| >= 2 && AllBelow(Images(ch))
    ensures ret == 0 ==> copied
    ensures !copied ==> bs.data == old(bs.data)
    ensures !bs.drv ==> ret == -ENOMEDIUM
    ensures bs.drv && below == null ==> ret == -ENOTSUP
    ensures bs.drv && below != null && (bs.feat.inUse || below.feat.inUse) ==> ret == -EBUSY
    ensures ret == -ENOMEDIUM || ret == -ENOTSUP || ret == -EBUSY || ret == -EACCES ==>
              copied || (Images(ch) == old(Images(ch)) && (below != null ==> below.readOnly == old(below.readOnly)))
    ensures below != null && !old(below.readOnly) ==> !below.readOnly
    ensures left <= faults
    ensures left == faults ==>
      (ret == 0 <==> bs.drv && below != null && !bs.feat.inUse && !below.feat.inUse && FitsIn(old(bs.data), below.total))
    ensures left == faults && below != null ==> below.readOnly == old(below.readOnly)
  {
    hide AllBelow, SameDisk, Images, IsChain, FitsIn;
    SomeImage(ch);
    ChainNext(ch, 0);
    Apart(ch);
    copied := false;
    Unchanged(Images(ch));
    left := faults;
    if !bs.drv { return -ENOMEDIUM, left, false; }
    if below == null { return -ENOTSUP, left, false; }
    if bs.feat.inUse || below.feat.inUse { return -EBUSY, left, false; }
    assert below == ch[1];
    ret, left, copied := CommitReopened(bs, below, hasMakeEmpty, faults, ch);
  }

  /** bdrv_commit past its checks: a read-only image below is reopened for writing, and
      for reading afterwards. */
  method CommitReopened(bs: Bds, below: Bds, hasMakeEmpty: bool, faults: nat, ghost ch: seq<Bds>)
    returns (ret: int, left: nat, ghost copied: bool)
    requires IsOverlay(ch) && ch[0] == bs && ch[1] == below
    modifies bs`data, below`data, below`readOnly
    ensures IsOverlay(ch) && SameDisk(Images(ch), old(Images(ch)))
    ensures copied ==> AllBelow(Images(ch))
    ensures ret == 0 ==> copied
    ensures !copied ==> bs.data == old(bs.data) && (ret == -EIO || ret == -EACCES)
    ensures ret == -EACCES && !copied ==> Images(ch) == old(Images(ch)) && below.readOnly == old(below.readOnly)
    ensures !old(below.readOnly) ==> !below.readOnly
    ensures left <= faults && (left == faults ==> (ret == 0 <==> FitsIn(old(bs.data), below.total)) && below.readOnly == old(below.readOnly))
  {
    hide AllBelow, SameDisk, Images, IsChain, FitsIn;
    Unchanged(Images(ch));
    Apart(ch);
    left, copied := faults, false;
    var ro := below.readOnly;
    if ro {
      var fails;
      fails, left := Fault(left);
      if fails { return -EACCES, left, false; }
      below.readOnly := false;
    }
    ret, left, copied := CommitDown(bs, below, hasMakeEmpty, left, ch);
    if ro {
      left := ReopenReadOnly(below, left);
    }
  }

  /** The last bdrv_reopen of bdrv_commit, whose failure is ignored. */
  method ReopenReadOnly(below: Bds, faults: nat) returns (left: nat)
    modifies below`readOnly
    ensures left <= faults && below.readOnly == (left == faults)
  {
    var fails;
    fails, left := Fault(faults);
    below.readOnly := !fails;
  }

  method EmptyOverlay(bs: Bds, faults: nat, ghost ch: seq<Bds>) returns (ret: int, left: nat)
    requires IsOverlay(ch) && ch[0] == bs
    requires AllBelow(Images(ch))
    modifies bs`data
    ensures IsOverlay(ch) && SameDisk(Images(ch), old(Images(ch)))
    ensures AllBelow(Images(ch))
    ensures left <= faults && (ret == 0 <==> left == faults)
  {
    hide Visible, SameBelow, SameDisk;
    ghost var before := Images(ch);
    ret, left := MakeEmpty(bs, faults);
    ghost var after := Images(ch);
    assert after == before[0 := after[0]];
    Emptied(before, after);
  }

  /** Emptying an overlay that has been copied down. */
  lemma Emptied(before: seq<Image>, after: seq<Image>)
    requires |before| >= 2 && |after| == |before| && after == before[0 := after[0]] && after[0].total == before[0].total
    requires forall s: nat | s < before[0].total :: SameBelow(before, s)
    requires forall s | s in after[0].data :: s in before[0].data && after[0].data[s] == before[0].data[s]
    ensures SameDisk(after, before) && forall s: nat | s < before[0].total :: SameBelow(after, s)
  {
    hide Visible;
    forall s: nat ensures Visible(after, s) == Visible(before, s) {
      EmptyTop(before, after[0], s);
    }
    forall s: nat | s < before[0].total ensures SameBelow(after, s) {
      EmptyTop(before, after[0], s);
      assert SameBelow(before, s);
    }
  }

  // ---------------------------------------------------------------- surgery

  /** bdrv_find_overlay: the image whose backing image is bs. */
  method FindOverlay(active: Bds, bs: Bds, ghost ch: seq<Bds>) returns (overlay: Bds?, ghost i: nat)
    requires IsChain(ch) && ch[0] == active
    ensures overlay == null <==> bs !in ch[1..]
    ensures overlay != null ==> i + 1 < |ch| && ch[i] == overlay && ch[i + 1] == bs
  {
    i := 0;
    if active == bs {
      return null, 0;
    }
    var at := active;
    while at.backing != null
      invariant i < |ch| && at == ch[i] && bs !in ch[..i + 1]
      decreases |ch| - i
    {
      if at.backing == bs {
        assert bs == ch[1..][i];
        return at, i;
      }
      at := at.backing;
      i := i + 1;
      assert ch[..i + 1] == ch[..i] + [ch[i]];
    }
    ChainNext(ch, i);
    assert ch[..i + 1] == ch;
    return null, i;
  }

  /** Walks from top to the image above base, collecting what is to be deleted. */
  method Collect(top: Bds, base: Bds, ghost ch: seq<Bds>, ghost i: nat) returns (found: bool, doomed: seq<Bds>)
    requires IsChain(ch) && i < |ch| && ch[i] == top
    ensures found <==> base in ch[i + 1..]
    ensures found ==> i + |doomed| < |ch| && doomed == ch[i..i + |doomed|] && ch[i + |doomed|] == base && doomed != []
  {
    doomed, found := [], false;
    var at: Bds? := top;
    while at != null
      invariant i + |doomed| <= |ch| && doomed == ch[i..i + |doomed|]
      invariant at == if i + |doomed| < |ch| then ch[i + |doomed|] else null
      invariant base !in ch[i + 1..][..if |doomed| < |ch| - i - 1 then |doomed| else |ch| - i - 1]
      decreases |ch| - |doomed|
    {
      ghost var k := |doomed|;
      doomed := doomed + [at];
      if at.backing == base {
        assert ch[i + 1..][k] == base;
        return true, doomed;
      }
      assert k < |ch| - i - 1 ==> ch[i + 1..][..k + 1] == ch[i + 1..][..k] + [ch[i + 1..][k]];
      at := at.backing;
    }
    assert ch[i + 1..][..|ch| - i - 1] == ch[i + 1..];
  }

  /** Unlinks the images to be deleted, so that closing one does not close the
      chain below it. */
  method Unlink(doomed: seq<Bds>)
    modifies doomed`backing
    ensures forall b | b in doomed :: b.backing == null
  {
    var i := 0;
    while i < |doomed|
      invariant 0 <= i <= |doomed|
      invariant forall b | b in doomed[..i] :: b.backing == null
    {
      doomed[i].backing := null;
      assert doomed[..i + 1] == doomed[..i] + [doomed[i]];
      i := i + 1;
    }
    assert doomed[..i] == doomed;
  }

  /** bdrv_change_backing_file, where the driver answers driverRet. */
  method ChangeBackingFile(bs: Bds, file: string, format: string, driverRet: int) returns (ret: int)
    modifies bs`backingFile, bs`backingFormat
    ensures ret == driverRet
    ensures ret == 0 ==> bs.backingFile == file && bs.backingFormat == format
    ensures ret != 0 ==> bs.backingFile == old(bs.backingFile) && bs.backingFormat == old(bs.backingFormat)
  {
    ret := driverRet;
    if ret == 0 {
      bs.backingFile, bs.backingFormat := file, format;
    }
  }

  /** The chain without the images from i up to, not including, j. */
  ghost function Without(ch: seq<Bds>, i: nat, j: nat): seq<Bds>
    requires i <= j <= |ch|
  {
    ch[..i] + ch[j..]
  }

  /** top is below the active image, and base is top or below it. */
  ghost predicate Below(ch: seq<Bds>, top: Bds, base: Bds) {
    exists i, j :: 0 < i <= j < |ch| && ch[i] == top && ch[j] == base
  }

  lemma BelowActive(ch: seq<Bds>, top: Bds, base: Bds)
    requires ch != [] && Below(ch, top, base)
    ensures top in ch[1..]
  {
    var i, j :| 0 < i <= j < |ch| && ch[i] == top && ch[j] == base;
    assert ch[1..][i - 1] == top;
  }

  /** An image stands at one place of a chain only. */
  lemma BelowPlace(ch: seq<Bds>, top: Bds, base: Bds, i: nat)
    requires IsChain(ch) && 0 < i < |ch| && ch[i] == top && base != top && Below(ch, top, base)
    ensures base in ch[i + 1..]
  {
    var k, j :| 0 < k <= j < |ch| && ch[k] == top && ch[j] == base;
    assert k == i;
    assert ch[i + 1..][j - i - 1] == base;
  }

  /** bdrv_drop_intermediate.  On success the images from top, at i, down to the
      one above base, at j, are gone from the chain; the driver answers driverRet
      when asked to record the new backing file. */
  method DropIntermediate(active: Bds, top: Bds, base: Bds, driverRet: int, ghost ch: seq<Bds>)
    returns (ret: int, ghost i: nat, ghost j: nat)
    requires IsChain(ch) && ch[0] == active
    modifies ch`backing, ch`backingFile, ch`backingFormat
    ensures ret != 0 ==> forall b | b in ch ::
      b.backing == old(b.backing) && b.backingFile == old(b.backingFile) && b.backingFormat == old(b.backingFormat)
    ensures ret == if !(top.drv && base.drv && Below(ch, top, base)) then -EIO else if top == base then 0 else driverRet
    ensures ret == 0 ==> 0 < i <= j < |ch| && ch[i] == top && ch[j] == base && IsChain(Without(ch, i, j))
    ensures ret == 0 ==> forall k | i <= k < j :: ch[k].backing == null
    ensures ret == 0 && i < j ==> ch[i - 1].backingFile == base.filename
  {
    hide IsChain, Without;
    i, j := 0, 0;
    SomeImage(ch);
    if !top.drv || !base.drv { return -EIO, 0, 0; }
    var newTop;
    ghost var t;
    newTop, t := FindOverlay(active, top, ch);
    if newTop == null {
      if Below(ch, top, base) { BelowActive(ch, top, base); }
      return -EIO, 0, 0;
    }
    i := t + 1;
    ChainNext(ch, t);
    if newTop.backing == base {
      j := i;
      WithoutNone(ch, i);
      return 0, i, j;
    }
    var found, doomed := Collect(top, base, ch, i);
    if !found {
      if Below(ch, top, base) { BelowPlace(ch, top, base, i); }
      return -EIO, 0, 0;
    }
    j := i + |doomed|;
    ret := ChangeBackingFile(newTop, base.filename, base.format, driverRet);
    if ret != 0 { return; }
    Relink(newTop, base, doomed, ch, i, j);
  }

  lemma WithoutNone(ch: seq<Bds>, i: nat)
    requires i <= |ch|
    ensures Without(ch, i, i) == ch
  {
  }

  /** Links the overlay to base and lets the images between go. */
  method Relink(newTop: Bds, base: Bds, doomed: seq<Bds>, ghost ch: seq<Bds>, ghost i: nat, ghost j: nat)
    requires IsChain(ch) && 0 < i <= j < |ch| && ch[i - 1] == newTop && ch[j] == base && doomed == ch[i..j]
    modifies ch`backing
    ensures IsChain(Without(ch, i, j)) && forall k | i <= k < j :: ch[k].backing == null
  {
    newTop.backing := base;
    assert forall k | 0 <= k < |ch| && (k < i || j <= k) :: ch[k] !in doomed;
    Unlink(doomed);
    forall k | i <= k < j ensures ch[k].backing == null { assert ch[k] == doomed[k - i]; }
    Relinked(ch, i, j);
  }

  lemma Relinked(ch: seq<Bds>, i: nat, j: nat)
    requires 0 < i <= j < |ch| && (forall x, y | 0 <= x < y < |ch| :: ch[x] != ch[y])
    requires forall k | 0 <= k < |ch| - 1 && (k < i - 1 || j <= k) :: ch[k].backing == ch[k + 1]
    requires ch[i - 1].backing == ch[j] && ch[|ch| - 1].backing == null
    requires forall k, s | 0 <= k < |ch| && s in ch[k].data :: s < ch[k].total
    ensures IsChain(Without(ch, i, j))
  {
    var w := Without(ch, i, j);
    assert forall k | 0 <= k < |w| :: w[k] == if k < i then ch[k] else ch[k - i + j];
  }

  /** The images of the shortened chain. */
  lemma ImagesWithout(ch: seq<Bds>, i: nat, j: nat)
    requires i <= j <= |ch|
    ensures Images(Without(ch, i, j)) == Dropped(Images(ch), i, j)
  {
    hide Images;
    var w, a, b := Without(ch, i, j), Images(Without(ch, i, j)), Dropped(Images(ch), i, j);
    forall k | 0 <= k < |w| ensures a[k] == b[k] {
      assert w[k] == if k < i then ch[k] else ch[k - i + j];
    }
  }

  /** Dropping n images from top at i on, once nothing is reported allocated in
      them for any sector, keeps the visible disk exactly when nothing is
      uncovered. */
  lemma DropKeepsDisk(ch: seq<Bds>, i: nat, n: nat)
    requires i + n <= |ch| && forall s: nat :: !HeldAbove(ch[i..], n, s)
    ensures SameDisk(Images(Without(ch, i, i + n)), Images(ch)) <==> NothingUncovered(Images(ch), i, i + n)
  {
    hide Images, Visible, SameDisk, NothingUncovered;
    forall k, s: nat | i <= k < i + n ensures s !in Images(ch)[k].data {
      assert !HeldAbove(ch[i..], n, s);
      assert ch[i..][k - i] == ch[k];
    }
    ImagesWithout(ch, i, i + n);
    DropExact(Images(ch), i, i + n);
  }

  // ------------------------------------------------------------- swap and append

  /** bdrv_swap: the contents of the two change places, while what belongs to the
      device stays with it. */
  method Swap(bsNew: Bds, bsOld: Bds)
    requires bsNew != bsOld && Anonymous(bsNew.feat)
    modifies bsNew, bsOld
    ensures Contents(bsNew) == old(Contents(bsOld)) && Contents(bsOld) == old(Contents(bsNew))
    ensures bsNew.feat == old(bsNew.feat) && bsOld.feat == old(bsOld.feat)
  {
    var tmpFeat, tmp := bsNew.feat, Contents(bsNew);
    SetContents(bsNew, Contents(bsOld));
    bsNew.feat := bsOld.feat;
    SetContents(bsOld, tmp);
    bsOld.feat := tmpFeat;
    // some fields are moved back
    tmpFeat := bsOld.feat;
    bsOld.feat := bsNew.feat;
    bsNew.feat := tmpFeat;
  }

  /** The fields of a BlockDriverState that describe the image it has open. */
  datatype Open = Open(drv: bool, format: string, filename: string, total: nat, data: map<nat, Value>, readOnly: bool,
                       backing: Bds?, backingFile: string, backingFormat: string)

  function Contents(b: Bds): Open
    reads b
  {
    Open(b.drv, b.format, b.filename, b.total, b.data, b.readOnly, b.backing, b.backingFile, b.backingFormat)
  }

  method SetContents(b: Bds, o: Open)
    modifies b
    ensures Contents(b) == o && b.feat == old(b.feat)
  {
    b.drv, b.format, b.filename, b.total, b.data := o.drv, o.format, o.filename, o.total, o.data;
    b.readOnly, b.backing, b.backingFile, b.backingFormat := o.readOnly, o.backing, o.backingFile, o.backingFormat;
  }

  /** bdrv_append: the image of bsNew becomes the top of the chain of bsTop, which
      stays the device's; the old top lives on in bsNew, below it. */
  method Append(bsNew: Bds, bsTop: Bds, ghost ch: seq<Bds>)
    requires IsChain(ch) && ch[0] == bsTop && bsNew !in ch && Anonymous(bsNew.feat)
    requires forall s | s in bsNew.data :: s < bsNew.total
    modifies bsNew, bsTop
    ensures var below := [bsNew] + ch[1..];
      && IsChain([bsTop] + below) && Images(below) == old(Images(ch))
      && Images([bsTop] + below) == [old(Image(bsNew.total, bsNew.data))] + Images(below)
    ensures bsTop.feat == old(bsTop.feat) && bsNew.feat == old(bsNew.feat)
    ensures bsTop.backingFile == old(bsTop.filename)
  {
    hide Images, IsChain;
    SomeImage(ch);
    ghost var rest := ch[1..];
    BelowTop(ch);
    assert bsNew !in rest;
    Swap(bsNew, bsTop);
    bsTop.backing := bsNew;
    bsTop.backingFile := bsNew.filename;
    bsTop.backingFormat := if bsNew.drv then bsNew.format else "";
    if rest == [] { OneImage(bsNew); } else { LongerChain(bsNew, rest); }
    LongerChain(bsTop, [bsNew] + rest);
  }

  lemma BelowTop(ch: seq<Bds>)
    requires IsChain(ch)
    ensures Images(ch) == [Image(ch[0].total, ch[0].data)] + Images(ch[1..])
    ensures ch[1..] == [] ==> ch[0].backing == null
    ensures ch[1..] != [] ==> IsChain(ch[1..]) && ch[0].backing == ch[1..][0] && ch[0] !in ch[1..]
    ensures forall s | s in ch[0].data :: s < ch[0].total
  {
    var rest := ch[1..];
    assert forall i | 0 <= i < |rest| :: rest[i] == ch[i + 1];
  }

  lemma OneImage(b: Bds)
    requires b.backing == null && forall s | s in b.data :: s < b.total
    ensures IsChain([b]) && Images([b]) == [Image(b.total, b.data)] && [b] + [] == [b] && Images([]) == []
  {
  }

  lemma LongerChain(top: Bds, rest: seq<Bds>)
    requires IsChain(rest) && top !in rest && top.backing == rest[0] && forall s | s in top.data :: s < top.total
    ensures IsChain([top] + rest) && Images([top] + rest) == [Image(top.total, top.data)] + Images(rest)
  {
    hide Images;
    var ch := [top] + rest;
    assert forall i | 0 < i < |ch| :: ch[i] == rest[i - 1];
    assert ch[|ch| - 1] == rest[|rest| - 1];
    forall i, s | 0 <= i < |ch| && s in ch[i].data ensures s < ch[i].total {
      if i > 0 { assert ch[i] == rest[i - 1]; }
    }
  }

  /** Past the end of the top image there is nothing to see below. */
  ghost predicate CutsNothing(top: Image, below: seq<Image>) {
    forall s: nat | top.total <= s :: Visible(below, s) == ZERO
  }

  /** Appending an image with nothing in it keeps the visible disk as far as the
      new image reaches, and altogether exactly when it cuts nothing off. */
  lemma AppendEmpty(top: Image, below: seq<Image>)
    requires top.data == map[]
    ensures forall s: nat | s < top.total :: Visible([top] + below, s) == Visible(below, s)
    ensures SameDisk([top] + below, below) <==> CutsNothing(top, below)
  {
    var chain := [top] + below;
    assert chain[1..] == below;
    assert forall s: nat :: Visible(chain, s) == if s < top.total then Visible(below, s) else ZERO;
    if SameDisk(chain, below) {
      forall s: nat | top.total <= s ensures Visible(below, s) == ZERO { assert Visible(chain, s) == Visible(below, s); }
    }
  }
}
