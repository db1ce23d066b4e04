/** Live block migration as a step system.

    A guest keeps writing to its disks while the migration thread reads chunks
    asynchronously, clears their dirty bits, queues completed reads and puts
    them on the stream.  Every copy of a chunk that has been requested is an
    `Entry`; at any moment the entries form one pipeline, oldest first:

        sent on the stream, then queued in blk_list, then still being read.

    The receiver keeps, for every sector, the value of the last entry that
    covers it, so the protocol is correct when the newest entry of every clean
    sector is right (or still has to be read). */
module BlockMigrationProtocol {

  /** BDRV_SECTORS_PER_DIRTY_CHUNK */
  const CHUNK: nat := 2048

  /** The contents of one sector; only equality matters to the protocol. */
  type Sector = int

  /** One requested copy of the sectors [first, first+n) of device `dev`.
      `got` holds the sectors the driver has already read into the buffer;
      `ok` is false once the read has failed. */
  datatype Entry = Entry(dev: nat, first: nat, n: nat, got: map<nat, Sector>, ok: bool)

  /** A guest write to [first, first+n) that has started and has not yet
      reached set_dirty_bitmap. */
  datatype GuestWrite = GuestWrite(dev: nat, first: nat, n: nat)

  /** A migrated device: its contents, the sectors allocated in its top image,
      its dirty bitmap and in-flight bitmap as sets of chunks, and the sector
      `front` below which the bulk phase has nothing left to request. */
  datatype Dev = Dev(disk: seq<Sector>, alloc: set<nat>, dirty: set<nat>, aio: set<nat>, front: nat)

  datatype State = State(
    devs: seq<Dev>,
    shared: bool,
    sent: seq<Entry>,
    queue: seq<Entry>,
    reading: seq<Entry>,
    writing: seq<GuestWrite>,
    stopped: bool)

  datatype Step =
    | WriteStart(dev: nat, first: nat, n: nat)
    | WriteSector(w: nat, s: nat, v: Sector)
    | WriteDone(w: nat)
    | ReadSector(r: nat, s: nat)
    | ReadDone(r: nat, ok: bool)
    | VmStop
    | BulkSkip(dev: nat, n: nat)
    | SubmitBulk(dev: nat)
    | SubmitDirty(dev: nat, chunk: nat)
    | SendDirty(dev: nat, chunk: nat)
    | FlushOne

  function ChunkOf(s: nat): nat { s / CHUNK }

  /** The chunks that set_dirty_bitmap visits for a request of n >= 1 sectors. */
  function ChunksOf(first: nat, n: nat): set<nat>
    requires n >= 1
  {
    set s: nat | first <= s < first + n :: ChunkOf(s)
  }

  function Min(a: int, b: int): int { if a < b then a else b }

  function ChunkLength(total: nat, chunk: nat): (n: nat)
    requires chunk * CHUNK < total
    ensures 1 <= n <= CHUNK && chunk * CHUNK + n <= total
  {
    Min(CHUNK, total - chunk * CHUNK)
  }

  predicate Covers(e: Entry, d: nat, s: nat) {
    e.dev == d && e.first <= s < e.first + e.n
  }

  predicate WriteCovers(w: GuestWrite, d: nat, s: nat) {
    w.dev == d && w.first <= s < w.first + w.n
  }

  predicate FullyRead(e: Entry) {
    forall s | e.first <= s < e.first + e.n :: s in e.got
  }

  function NewEntry(d: nat, total: nat, chunk: nat): Entry
    requires chunk * CHUNK < total
  {
    Entry(d, chunk * CHUNK, ChunkLength(total, chunk), map[], true)
  }

  /** The copy that one synchronous bdrv_read of a chunk returns. */
  function ReadEntry(d: nat, disk: seq<Sector>, chunk: nat): Entry
    requires chunk * CHUNK < |disk|
  {
    var n := ChunkLength(|disk|, chunk);
    Entry(d, chunk * CHUNK, n, map s: nat | chunk * CHUNK <= s < chunk * CHUNK + n :: disk[s], true)
  }

  function Remove<T>(q: seq<T>, i: nat): seq<T>
    requires i < |q|
  {
    q[..i] + q[i + 1..]
  }

  // ------------------------------------------------------------------ steps

  predicate Enabled(st: State, step: Step) {
    match step
    case WriteStart(d, first, n) =>
      !st.stopped && d < |st.devs| && n >= 1 && first + n <= |st.devs[d].disk|
    case WriteSector(w, s, _) =>
      w < |st.writing| && st.writing[w].dev < |st.devs| &&
      s < |st.devs[st.writing[w].dev].disk| && WriteCovers(st.writing[w], st.writing[w].dev, s)
    case WriteDone(w) =>
      w < |st.writing| && st.writing[w].dev < |st.devs| && st.writing[w].n >= 1
    case ReadSector(r, s) =>
      r < |st.reading| && st.reading[r].dev < |st.devs| &&
      s < |st.devs[st.reading[r].dev].disk| && Covers(st.reading[r], st.reading[r].dev, s)
    case ReadDone(r, ok) =>
      r < |st.reading| && st.reading[r].dev < |st.devs| && (ok ==> FullyRead(st.reading[r]))
    case VmStop =>
      st.reading == [] && st.writing == []
    case BulkSkip(d, n) =>
      st.shared && d < |st.devs| &&
      forall s | st.devs[d].front <= s < st.devs[d].front + n && s < |st.devs[d].disk| :: s !in st.devs[d].alloc
    case SubmitBulk(d) =>
      d < |st.devs| && st.devs[d].front < |st.devs[d].disk|
    case SubmitDirty(d, c) =>
      d < |st.devs| && c * CHUNK < |st.devs[d].disk| && c in st.devs[d].dirty && c !in st.devs[d].aio
    case SendDirty(d, c) =>
      st.stopped && st.reading == [] && d < |st.devs| && c * CHUNK < |st.devs[d].disk| && c in st.devs[d].dirty
    case FlushOne =>
      |st.queue| > 0 && st.queue[0].ok
  }

  function Next(st: State, step: Step): (st': State)
    requires Enabled(st, step)
    ensures |st'.devs| == |st.devs| && st'.shared == st.shared
    ensures forall d | 0 <= d < |st.devs| :: |st'.devs[d].disk| == |st.devs[d].disk|
  {
    match step
    case WriteStart(d, first, n) =>
      st.(writing := st.writing + [GuestWrite(d, first, n)])
    case WriteSector(w, s, v) =>
      var d := st.writing[w].dev;
      var dev := st.devs[d];
      st.(devs := st.devs[d := dev.(disk := dev.disk[s := v], alloc := dev.alloc + {s})])
    case WriteDone(w) =>
      var g := st.writing[w];
      var dev := st.devs[g.dev];
      st.(devs := st.devs[g.dev := dev.(dirty := dev.dirty + ChunksOf(g.first, g.n))],
          writing := Remove(st.writing, w))
    case ReadSector(r, s) =>
      var e := st.reading[r];
      st.(reading := st.reading[r := e.(got := e.got[s := st.devs[e.dev].disk[s]])])
    case ReadDone(r, ok) =>
      var e := st.reading[r];
      var dev := st.devs[e.dev];
      st.(reading := Remove(st.reading, r),
          queue := st.queue + [e.(ok := ok)],
          devs := st.devs[e.dev := dev.(aio := dev.aio - {ChunkOf(e.first)})])
    case VmStop =>
      st.(stopped := true)
    case BulkSkip(d, n) =>
      var dev := st.devs[d];
      st.(devs := st.devs[d := dev.(front := Min(dev.front + n, |dev.disk|))])
    case SubmitBulk(d) =>
      var dev := st.devs[d];
      var c := ChunkOf(dev.front);
      st.(reading := st.reading + [NewEntry(d, |dev.disk|, c)],
          devs := st.devs[d := dev.(dirty := dev.dirty - {c}, front := c * CHUNK + ChunkLength(|dev.disk|, c))])
    case SubmitDirty(d, c) =>
      var dev := st.devs[d];
      st.(reading := st.reading + [NewEntry(d, |dev.disk|, c)],
          devs := st.devs[d := dev.(dirty := dev.dirty - {c}, aio := dev.aio + {c})])
    case SendDirty(d, c) =>
      var dev := st.devs[d];
      st.(sent := st.sent + [ReadEntry(d, dev.disk, c)],
          devs := st.devs[d := dev.(dirty := dev.dirty - {c})])
    case FlushOne =>
      st.(sent := st.sent + [st.queue[0]], queue := st.queue[1..])
  }

  /** The read that completes is the newest one outstanding for sector s, an earlier
      one will be queued behind it with a value that is not the disk's, and neither
      a dirty bit nor a guest write will have the sector sent again. */
  predicate StaleAt(st: State, r: nat, s: nat)
    requires r < |st.reading| && st.reading[r].dev < |st.devs| && s < |st.devs[st.reading[r].dev].disk|
  {
    var d := st.reading[r].dev;
    && Covers(st.reading[r], d, s)
    && ChunkOf(s) !in st.devs[d].dirty
    && (forall w | w in st.writing :: !WriteCovers(w, d, s))
    && (forall e | e in st.reading[r + 1..] :: !Covers(e, d, s))
    && !NewestIs(st.reading[..r], true, d, s, st.devs[d].disk[s])
  }

  /** The step completes a read ahead of a stale one of a sector that the bulk phase
      has passed. */
  predicate OvertakesStale(st: State, step: Step) {
    && step.ReadDone? && step.r < |st.reading| && st.reading[step.r].dev < |st.devs|
    && var dev := st.devs[st.reading[step.r].dev];
       exists s: nat | s < dev.front && s < |dev.disk| :: StaleAt(st, step.r, s)
  }

  /** Two outstanding reads of one chunk complete in the order of submission. */
  predicate InOrder(st: State, step: Step) {
    step.ReadDone? && step.r < |st.reading| ==>
      forall j | 0 <= j < step.r :: !(st.reading[j].dev == st.reading[step.r].dev && st.reading[j].first == st.reading[step.r].first)
  }

  /** SendDirty puts a block on the stream ahead of anything still queued. */
  predicate QueueFlushed(st: State, step: Step) {
    step.SendDirty? ==> st.queue == []
  }

  predicate IsRun(st: State, steps: seq<Step>)
    decreases |steps|
  {
    steps == [] || (Enabled(st, steps[0]) && IsRun(Next(st, steps[0]), steps[1..]))
  }

  function Run(st: State, steps: seq<Step>): State
    requires IsRun(st, steps)
    decreases |steps|
  {
    if steps == [] then st else Run(Next(st, steps[0]), steps[1..])
  }

  /** A run that never completes a read ahead of a stale one and never overtakes the
      queue. */
  predicate IsOrderlyRun(st: State, steps: seq<Step>)
    decreases |steps|
  {
    steps == [] ||
    (Enabled(st, steps[0]) && !OvertakesStale(st, steps[0]) && QueueFlushed(st, steps[0]) &&
     IsOrderlyRun(Next(st, steps[0]), steps[1..]))
  }

  // -------------------------------------------------- what the receiver has

  /** A destination: the contents of each device before the stream is loaded. */
  type Disks = seq<seq<Sector>>

  /** The value of sector s of device d once the copies in p have been loaded
      over a device that held v there. */
  function Received(p: seq<Entry>, v: Sector, d: nat, s: nat): Sector
    decreases |p|
  {
    if p == [] then v
    else
      var e := p[|p| - 1];
      if Covers(e, d, s) && s in e.got then e.got[s]
      else Received(p[..|p| - 1], v, d, s)
  }

  /** The newest copy of sector s has the value v or still has to be read;
      `prior` answers for the case that no copy covers it. */
  predicate NewestIs(p: seq<Entry>, prior: bool, d: nat, s: nat, v: Sector)
    decreases |p|
  {
    if p == [] then prior
    else
      var e := p[|p| - 1];
      if Covers(e, d, s) then s in e.got ==> e.got[s] == v
      else NewestIs(p[..|p| - 1], prior, d, s, v)
  }

  function Pipeline(st: State): seq<Entry> { st.sent + st.queue + st.reading }

  // -------------------------------------------------------------- invariant

  /** An entry is one whole chunk of a device (the last chunk may be short).
      Device sizes never change, so they are taken from the destination. */
  predicate EntryOk(dst: Disks, e: Entry) {
    && e.dev < |dst|
    && e.first % CHUNK == 0
    && e.first < |dst[e.dev]|
    && e.n == ChunkLength(|dst[e.dev]|, ChunkOf(e.first))
  }

  predicate WriteOk(dst: Disks, w: GuestWrite) {
    w.dev < |dst| && w.n >= 1 && w.first + w.n <= |dst[w.dev]|
  }

  ghost predicate Shape(st: State, dst: Disks) {
    && |dst| == |st.devs|
    && (forall d | 0 <= d < |st.devs| :: |dst[d]| == |st.devs[d].disk| && st.devs[d].front <= |st.devs[d].disk|)
    && (forall e | e in st.sent :: EntryOk(dst, e) && e.ok && FullyRead(e))
    && (forall e | e in st.queue :: EntryOk(dst, e) && (e.ok ==> FullyRead(e)))
    && (forall e | e in st.reading :: EntryOk(dst, e) && e.ok)
    && (forall w | w in st.writing :: WriteOk(dst, w))
    && (st.stopped ==> st.writing == [])
  }

  /** Why a sector that the bulk phase has passed will be right in the end. */
  ghost predicate Settled(st: State, dst: Disks, d: nat, s: nat)
    requires d < |st.devs| && d < |dst| && s < |st.devs[d].disk| && s < |dst[d]|
  {
    || ChunkOf(s) in st.devs[d].dirty
    || (exists w :: w in st.writing && WriteCovers(w, d, s))
    || NewestIs(Pipeline(st), dst[d][s] == st.devs[d].disk[s], d, s, st.devs[d].disk[s])
  }

  /** Sectors not allocated in the source's top image come from a base image
      that the destination shares, so they start out equal there. */
  ghost predicate BaseShared(st: State, dst: Disks)
    requires |dst| == |st.devs|
    requires forall d | 0 <= d < |st.devs| :: |dst[d]| == |st.devs[d].disk|
  {
    st.shared ==>
      forall d, s | 0 <= d < |st.devs| && 0 <= s < |st.devs[d].disk| && s !in st.devs[d].alloc ::
        dst[d][s] == st.devs[d].disk[s] && CopiesAre(Pipeline(st), d, s, st.devs[d].disk[s])
  }

  /** Every copy of a sector in p that has been read has the value v. */
  predicate CopiesAre(p: seq<Entry>, d: nat, s: nat, v: Sector) {
    forall e | e in p && Covers(e, d, s) && s in e.got :: e.got[s] == v
  }

  ghost predicate Inv(st: State, dst: Disks) {
    && Shape(st, dst)
    && BaseShared(st, dst)
    && forall d, s | 0 <= d < |st.devs| && 0 <= s < st.devs[d].front :: Settled(st, dst, d, s)
  }

  // ------------------------------------------------- lemmas about pipelines

  lemma {:induction false} NewestConcat(p: seq<Entry>, q: seq<Entry>, prior: bool, d: nat, s: nat, v: Sector)
    ensures NewestIs(p + q, prior, d, s, v) == NewestIs(q, NewestIs(p, prior, d, s, v), d, s, v)
    decreases |q|
  {
    if q == [] {
      assert p + q == p;
    } else {
      assert (p + q)[..|p + q| - 1] == p + q[..|q| - 1];
      NewestConcat(p, q[..|q| - 1], prior, d, s, v);
    }
  }

  lemma {:induction false} NewestNone(q: seq<Entry>, prior: bool, d: nat, s: nat, v: Sector)
    requires forall e | e in q :: !Covers(e, d, s)
    ensures NewestIs(q, prior, d, s, v) == prior
    decreases |q|
  {
    if q != [] {
      NewestNone(q[..|q| - 1], prior, d, s, v);
    }
  }

  /** Copies that all have the value v leave the newest one with that value. */
  lemma {:induction false} NewestSame(q: seq<Entry>, prior: bool, d: nat, s: nat, v: Sector)
    requires CopiesAre(q, d, s, v) && prior
    ensures NewestIs(q, prior, d, s, v)
    decreases |q|
  {
    if q != [] {
      assert forall e | e in q[..|q| - 1] :: e in q;
      NewestSame(q[..|q| - 1], prior, d, s, v);
    }
  }

  /** Reading one sector of one entry keeps the newest copy right. */
  lemma {:induction false} NewestAfterRead(q: seq<Entry>, k: nat, x: nat, prior: bool, d: nat, s: nat, v: Sector, u: Sector)
    requires k < |q| && NewestIs(q, prior, d, s, v)
    requires x == s && q[k].dev == d ==> u == v
    ensures NewestIs(q[k := q[k].(got := q[k].got[x := u])], prior, d, s, v)
    decreases |q|
  {
    var q' := q[k := q[k].(got := q[k].got[x := u])];
    if k < |q| - 1 {
      assert q'[..|q| - 1] == q[..|q| - 1][k := q[k].(got := q[k].got[x := u])];
      if !Covers(q[|q| - 1], d, s) {
        NewestAfterRead(q[..|q| - 1], k, x, prior, d, s, v, u);
      }
    } else {
      assert q'[..|q| - 1] == q[..|q| - 1];
    }
  }

  lemma {:induction false} NewestCovered(q: seq<Entry>, a: bool, b: bool, d: nat, s: nat, v: Sector)
    requires exists e | e in q :: Covers(e, d, s)
    ensures NewestIs(q, a, d, s, v) == NewestIs(q, b, d, s, v)
    decreases |q|
  {
    if !Covers(q[|q| - 1], d, s) {
      var e :| e in q && Covers(e, d, s);
      assert e in q[..|q| - 1];
      NewestCovered(q[..|q| - 1], a, b, d, s, v);
    }
  }

  /** Moving an entry ahead of earlier ones keeps the newest copy right, unless the
      entry was the newest copy and the newest of the earlier ones is wrong. */
  lemma NewestMoved(q: seq<Entry>, k: nat, e: Entry, prior: bool, d: nat, s: nat, v: Sector)
    requires k < |q| && e == q[k].(ok := e.ok) && NewestIs(q, prior, d, s, v)
    ensures NewestIs([e] + Remove(q, k), prior, d, s, v) <==>
            !(Covers(q[k], d, s) && (forall f | f in q[k + 1..] :: !Covers(f, d, s)) && !NewestIs(q[..k], true, d, s, v))
  {
    hide NewestIs;
    var a, b := q[..k], q[k + 1..];
    var c, c' := NewestIs([q[k]], NewestIs(a, prior, d, s, v), d, s, v), NewestIs([e], prior, d, s, v);
    MovedParts(q, k, e, prior, d, s, v);
    NewestOne(q[k], NewestIs(a, prior, d, s, v), d, s, v);
    NewestOne(e, prior, d, s, v);
    if f :| f in b && Covers(f, d, s) {
      NewestCovered(b, c, NewestIs(a, c', d, s, v), d, s, v);
    } else {
      NewestNone(b, c, d, s, v);
      NewestNone(b, NewestIs(a, c', d, s, v), d, s, v);
    }
  }

  lemma MovedParts(q: seq<Entry>, k: nat, e: Entry, prior: bool, d: nat, s: nat, v: Sector)
    requires k < |q|
    ensures NewestIs(q, prior, d, s, v) ==
            NewestIs(q[k + 1..], NewestIs([q[k]], NewestIs(q[..k], prior, d, s, v), d, s, v), d, s, v)
    ensures NewestIs([e] + Remove(q, k), prior, d, s, v) ==
            NewestIs(q[k + 1..], NewestIs(q[..k], NewestIs([e], prior, d, s, v), d, s, v), d, s, v)
  {
    hide NewestIs;
    var a, b := q[..k], q[k + 1..];
    assert q == a + ([q[k]] + b);
    assert [e] + Remove(q, k) == [e] + (a + b);
    NewestConcat(a, [q[k]] + b, prior, d, s, v);
    NewestConcat([q[k]], b, NewestIs(a, prior, d, s, v), d, s, v);
    NewestConcat([e], a + b, prior, d, s, v);
    NewestConcat(a, b, NewestIs([e], prior, d, s, v), d, s, v);
  }

  lemma NewestOne(e: Entry, prior: bool, d: nat, s: nat, v: Sector)
    ensures NewestIs([e], prior, d, s, v) == if Covers(e, d, s) then s in e.got ==> e.got[s] == v else prior
  {
    assert [e][..0] == [];
  }

  // --------------------------------------------- every step keeps the invariant

  lemma StepKeepsShape(st: State, step: Step, dst: Disks)
    requires Shape(st, dst) && Enabled(st, step)
    ensures Shape(Next(st, step), dst)
  {
    hide Shape, Next, Enabled;
    match step {
      case SubmitBulk(d) => BulkKeepsShape(st, d, dst);
      case SubmitDirty(d, c) => DirtyKeepsShape(st, d, c, dst);
      case SendDirty(d, c) => SendKeepsShape(st, d, c, dst);
      case ReadSector(_, _) => ReadKeepsShape(st, step, dst);
      case ReadDone(_, _) => MoveKeepsShape(st, step, dst);
      case FlushOne => MoveKeepsShape(st, step, dst);
      case _ => WriteKeepsShape(st, step, dst);
    }
  }

  lemma WriteKeepsShape(st: State, step: Step, dst: Disks)
    requires step.WriteStart? || step.WriteSector? || step.WriteDone? || step.VmStop? || step.BulkSkip?
    requires Shape(st, dst) && Enabled(st, step)
    ensures Shape(Next(st, step), dst)
  {
    hide ChunksOf, EntryOk, FullyRead;
  }

  lemma MoveKeepsShape(st: State, step: Step, dst: Disks)
    requires step.ReadDone? || step.FlushOne?
    requires Shape(st, dst) && Enabled(st, step)
    ensures Shape(Next(st, step), dst)
  {
    hide ChunksOf, ChunkLength, ChunkOf;
    if step.FlushOne? {
      assert st.queue[0] in st.queue;
    } else {
      assert st.reading[step.r] in st.reading;
    }
  }

  lemma NewEntryOk(dst: Disks, d: nat, c: nat)
    requires d < |dst| && c * CHUNK < |dst[d]|
    ensures EntryOk(dst, NewEntry(d, |dst[d]|, c))
  {
  }

  lemma ReadEntryOk(dst: Disks, d: nat, disk: seq<Sector>, c: nat)
    requires d < |dst| && |disk| == |dst[d]| && c * CHUNK < |dst[d]|
    ensures EntryOk(dst, ReadEntry(d, disk, c)) && FullyRead(ReadEntry(d, disk, c))
  {
  }

  lemma BulkKeepsShape(st: State, d: nat, dst: Disks)
    requires Shape(st, dst) && Enabled(st, SubmitBulk(d))
    ensures Shape(Next(st, SubmitBulk(d)), dst)
  {
    hide WriteOk, EntryOk, FullyRead;
    NewEntryOk(dst, d, ChunkOf(st.devs[d].front));
  }

  lemma DirtyKeepsShape(st: State, d: nat, c: nat, dst: Disks)
    requires Shape(st, dst) && Enabled(st, SubmitDirty(d, c))
    ensures Shape(Next(st, SubmitDirty(d, c)), dst)
  {
    hide WriteOk, EntryOk, FullyRead;
    NewEntryOk(dst, d, c);
  }

  lemma SendKeepsShape(st: State, d: nat, c: nat, dst: Disks)
    requires Shape(st, dst) && Enabled(st, SendDirty(d, c))
    ensures Shape(Next(st, SendDirty(d, c)), dst)
  {
    hide WriteOk, EntryOk, FullyRead;
    ReadEntryOk(dst, d, st.devs[d].disk, c);
  }

  lemma ReadKeepsShape(st: State, step: Step, dst: Disks)
    requires step.ReadSector? && Shape(st, dst) && Enabled(st, step)
    ensures Shape(Next(st, step), dst)
  {
    var st' := Next(st, step);
    assert st.reading[step.r] in st.reading;
    forall e | e in st'.reading ensures EntryOk(dst, e) && e.ok {
      assert e in st.reading || e == st'.reading[step.r];
    }
  }

  lemma ReadSectorPipeline(st: State, r: nat, x: nat)
    requires Enabled(st, ReadSector(r, x))
    ensures var p, k := Pipeline(st), |st.sent| + |st.queue| + r;
      && k < |p| && p[k] == st.reading[r]
      && Pipeline(Next(st, ReadSector(r, x))) == p[k := p[k].(got := p[k].got[x := st.devs[p[k].dev].disk[x]])]
  {
    var e := st.reading[r];
    var e' := e.(got := e.got[x := st.devs[e.dev].disk[x]]);
    var a := st.sent + st.queue;
    assert (a + st.reading)[|a| + r := e'] == a + st.reading[r := e'];
  }

  lemma ReadDonePipeline(st: State, r: nat, ok: bool)
    requires Enabled(st, ReadDone(r, ok))
    ensures Pipeline(st) == (st.sent + st.queue) + st.reading
    ensures Pipeline(Next(st, ReadDone(r, ok))) ==
            (st.sent + st.queue) + ([st.reading[r].(ok := ok)] + Remove(st.reading, r))
  {
    var e := st.reading[r].(ok := ok);
    assert st.sent + (st.queue + [e]) + Remove(st.reading, r) == (st.sent + st.queue) + ([e] + Remove(st.reading, r));
  }

  lemma SubmitPipeline(st: State, step: Step)
    requires (step.SubmitBulk? || step.SubmitDirty?) && Enabled(st, step)
    ensures var c := if step.SubmitBulk? then ChunkOf(st.devs[step.dev].front) else step.chunk;
      Pipeline(Next(st, step)) == Pipeline(st) + [NewEntry(step.dev, |st.devs[step.dev].disk|, c)]
  {
    var c := if step.SubmitBulk? then ChunkOf(st.devs[step.dev].front) else step.chunk;
    var e, a := NewEntry(step.dev, |st.devs[step.dev].disk|, c), st.sent + st.queue;
    assert a + (st.reading + [e]) == (a + st.reading) + [e];
  }

  lemma SendPipeline(st: State, d: nat, c: nat)
    requires Enabled(st, SendDirty(d, c)) && st.queue == []
    ensures Pipeline(Next(st, SendDirty(d, c))) == Pipeline(st) + [ReadEntry(d, st.devs[d].disk, c)]
  {
  }

  lemma FlushPipeline(st: State)
    requires Enabled(st, FlushOne)
    ensures Pipeline(Next(st, FlushOne)) == Pipeline(st)
  {
    assert st.sent + [st.queue[0]] + st.queue[1..] == st.sent + st.queue;
  }

  lemma OtherPipeline(st: State, step: Step)
    requires step.WriteStart? || step.WriteSector? || step.WriteDone? || step.VmStop? || step.BulkSkip?
    requires Enabled(st, step)
    ensures Pipeline(Next(st, step)) == Pipeline(st)
  {
    hide ChunksOf, Remove;
  }

  /** How each step changes the pipeline. */
  lemma PipelineStep(st: State, step: Step)
    requires Enabled(st, step)
    ensures
      var p, p' := Pipeline(st), Pipeline(Next(st, step));
      match step
      case ReadSector(r, x) =>
        var k := |st.sent| + |st.queue| + r;
        k < |p| && p[k] == st.reading[r] && p' == p[k := p[k].(got := p[k].got[x := st.devs[p[k].dev].disk[x]])]
      case ReadDone(r, ok) =>
        p == (st.sent + st.queue) + st.reading &&
        p' == (st.sent + st.queue) + ([st.reading[r].(ok := ok)] + Remove(st.reading, r))
      case SubmitBulk(d) => p' == p + [NewEntry(d, |st.devs[d].disk|, ChunkOf(st.devs[d].front))]
      case SubmitDirty(d, c) => p' == p + [NewEntry(d, |st.devs[d].disk|, c)]
      case SendDirty(d, c) => st.queue == [] ==> p' == p + [ReadEntry(d, st.devs[d].disk, c)]
      case _ => p' == p
  {
    hide Pipeline, Next, Enabled, Remove, NewEntry, ReadEntry;
    match step {
      case ReadSector(r, x) => ReadSectorPipeline(st, r, x);
      case ReadDone(r, ok) => ReadDonePipeline(st, r, ok);
      case SubmitBulk(_) => SubmitPipeline(st, step);
      case SubmitDirty(_, _) => SubmitPipeline(st, step);
      case SendDirty(d, c) => if st.queue == [] { SendPipeline(st, d, c); }
      case FlushOne => FlushPipeline(st);
      case _ => OtherPipeline(st, step);
    }
  }

  /** A sector that no write has reached keeps its contents. */
  lemma UnwrittenSector(st: State, step: Step, d: nat, s: nat)
    requires Enabled(st, step) && d < |st.devs| && s < |st.devs[d].disk| && s !in Next(st, step).devs[d].alloc
    ensures s !in st.devs[d].alloc && Next(st, step).devs[d].disk[s] == st.devs[d].disk[s]
  {
    hide ChunksOf, ChunkLength, ChunkOf, Remove;
  }

  lemma CopiesAfterDone(p: seq<Entry>, reading: seq<Entry>, r: nat, ok: bool, d: nat, s: nat, v: Sector)
    requires r < |reading| && CopiesAre(p + reading, d, s, v)
    ensures CopiesAre(p + ([reading[r].(ok := ok)] + Remove(reading, r)), d, s, v)
  {
    assert reading[r] in p + reading;
    assert forall e | e in Remove(reading, r) :: e in p + reading;
  }

  lemma CopiesAfterRead(p: seq<Entry>, k: nat, x: nat, u: Sector, d: nat, s: nat, v: Sector)
    requires k < |p| && CopiesAre(p, d, s, v) && (x == s && p[k].dev == d ==> u == v)
    ensures CopiesAre(p[k := p[k].(got := p[k].got[x := u])], d, s, v)
  {
    assert p[k] in p;
  }

  lemma StepKeepsBase(st: State, step: Step, dst: Disks, d: nat, s: nat)
    requires Shape(st, dst) && BaseShared(st, dst) && Enabled(st, step)
    requires st.shared && d < |st.devs| && s < |st.devs[d].disk| && s !in Next(st, step).devs[d].alloc
    ensures dst[d][s] == Next(st, step).devs[d].disk[s]
    ensures CopiesAre(Pipeline(Next(st, step)), d, s, dst[d][s])
  {
    UnwrittenSector(st, step, d, s);
    var v, p := dst[d][s], Pipeline(st);
    assert v == st.devs[d].disk[s] && CopiesAre(p, d, s, v);
    CopiesStep(st, step, d, s, v);
  }

  lemma CopiesStep(st: State, step: Step, d: nat, s: nat, v: Sector)
    requires Enabled(st, step) && d < |st.devs| && s < |st.devs[d].disk| && st.devs[d].disk[s] == v
    requires CopiesAre(Pipeline(st), d, s, v)
    ensures CopiesAre(Pipeline(Next(st, step)), d, s, v)
  {
    PipelineStep(st, step);
    match step {
      case ReadSector(r, x) =>
        hide Next, CopiesAre, Pipeline;
        CopiesAfterRead(Pipeline(st), |st.sent| + |st.queue| + r, x, st.devs[st.reading[r].dev].disk[x], d, s, v);
      case ReadDone(r, ok) =>
        hide Next, CopiesAre, Pipeline;
        CopiesAfterDone(st.sent + st.queue, st.reading, r, ok, d, s, v);
      case SendDirty(x, c) =>
        assert forall e | e in Pipeline(Next(st, step)) :: e in Pipeline(st) || e == ReadEntry(x, st.devs[x].disk, c);
      case _ =>
        hide Next, Pipeline;
    }
  }

  /** A guest write changes a sector only while it covers it, and marks every
      sector it covered before it stops covering it. */
  lemma WriteStepSettles(st: State, step: Step, dst: Disks, d: nat, s: nat)
    requires step.WriteStart? || step.WriteSector? || step.WriteDone?
    requires Inv(st, dst) && Enabled(st, step)
    requires d < |st.devs| && s < st.devs[d].front
    ensures Settled(Next(st, step), dst, d, s)
  {
    var st' := Next(st, step);
    assert Settled(st, dst, d, s);
    PipelineStep(st, step);
    match step {
      case WriteStart(_, _, _) =>
        assert forall w | w in st.writing :: w in st'.writing;
      case WriteSector(w, x, _) =>
        if st.writing[w].dev == d && x == s {
          assert st.writing[w] in st'.writing && WriteCovers(st.writing[w], d, s);
        }
      case WriteDone(w) =>
        var g := st.writing[w];
        if WriteCovers(g, d, s) {
          assert ChunkOf(s) in ChunksOf(g.first, g.n);
        } else {
          assert forall w' | w' in st.writing && w' != g :: w' in st'.writing;
        }
    }
  }

  lemma SameChunkSameEntry(dst: Disks, a: Entry, b: Entry, d: nat, s: nat)
    requires EntryOk(dst, a) && EntryOk(dst, b) && Covers(a, d, s) && Covers(b, d, s)
    ensures a.first == b.first
  {
  }

  /** Reading a sector into a copy. */
  lemma ReadSectorSettles(st: State, r: nat, x: nat, dst: Disks, d: nat, s: nat)
    requires Inv(st, dst) && Enabled(st, ReadSector(r, x))
    requires d < |st.devs| && s < st.devs[d].front
    ensures Settled(Next(st, ReadSector(r, x)), dst, d, s)
  {
    hide NewestIs, BaseShared, Pipeline;
    var v, prior := st.devs[d].disk[s], dst[d][s] == st.devs[d].disk[s];
    assert Settled(st, dst, d, s);
    PipelineStep(st, ReadSector(r, x));
    if NewestIs(Pipeline(st), prior, d, s, v) {
      NewestAfterRead(Pipeline(st), |st.sent| + |st.queue| + r, x, prior, d, s, v, st.devs[st.reading[r].dev].disk[x]);
    }
  }

  /** No read of the chunk is outstanding from before the one that completes. */
  lemma OldestOfChunk(st: State, r: nat, ok: bool, dst: Disks, d: nat, s: nat, j: nat)
    requires Shape(st, dst) && InOrder(st, ReadDone(r, ok)) && j < r < |st.reading|
    requires Covers(st.reading[r], d, s)
    ensures !Covers(st.reading[j], d, s)
  {
    assert st.reading[j] in st.reading && st.reading[r] in st.reading;
    if Covers(st.reading[j], d, s) { SameChunkSameEntry(dst, st.reading[j], st.reading[r], d, s); }
  }

  /** Completing a read moves its copy to the end of the queue, ahead of the reads still
      outstanding: the sector stays settled exactly if that does not bring a stale
      copy to the end. */
  lemma ReadDoneSettles(st: State, r: nat, ok: bool, dst: Disks, d: nat, s: nat)
    requires Inv(st, dst) && Enabled(st, ReadDone(r, ok))
    requires d < |st.devs| && s < st.devs[d].front
    ensures Settled(Next(st, ReadDone(r, ok)), dst, d, s) <==> !(d == st.reading[r].dev && StaleAt(st, r, s))
  {
    hide NewestIs, BaseShared, Pipeline, Remove;
    var v, prior := st.devs[d].disk[s], dst[d][s] == st.devs[d].disk[s];
    var a, e := st.sent + st.queue, st.reading[r].(ok := ok);
    assert Settled(st, dst, d, s);
    PipelineStep(st, ReadDone(r, ok));
    NewestConcat(a, st.reading, prior, d, s, v);
    NewestConcat(a, [e] + Remove(st.reading, r), prior, d, s, v);
    if NewestIs(Pipeline(st), prior, d, s, v) {
      NewestMoved(st.reading, r, e, NewestIs(a, prior, d, s, v), d, s, v);
    }
  }

  /** Reads that complete in the order of submission overtake nothing. */
  lemma InOrderIsEnough(st: State, step: Step, dst: Disks)
    requires Shape(st, dst) && InOrder(st, step)
    ensures !OvertakesStale(st, step)
  {
    hide NewestIs, InOrder;
    if OvertakesStale(st, step) {
      var d := st.reading[step.r].dev;
      var s: nat :| s < st.devs[d].front && s < |st.devs[d].disk| && StaleAt(st, step.r, s);
      forall e | e in st.reading[..step.r] ensures !Covers(e, d, s) {
        var j :| 0 <= j < step.r && st.reading[j] == e;
        OldestOfChunk(st, step.r, step.ok, dst, d, s, j);
      }
      NewestNone(st.reading[..step.r], true, d, s, st.devs[d].disk[s]);
    }
  }

  /** A new copy settles every sector of its chunk whatever happened before. */
  lemma SubmitStepSettles(st: State, step: Step, dst: Disks, d: nat, s: nat)
    requires step.SubmitBulk? || step.SubmitDirty? || step.SendDirty?
    requires Inv(st, dst) && Enabled(st, step) && QueueFlushed(st, step)
    requires d < |st.devs| && s < Next(st, step).devs[d].front
    ensures Settled(Next(st, step), dst, d, s)
  {
    hide NewestIs, BaseShared, Pipeline;
    var st' := Next(st, step);
    var p, p' := Pipeline(st), Pipeline(st');
    PipelineStep(st, step);
    var e := p'[|p'| - 1];
    var v, prior := st'.devs[d].disk[s], dst[d][s] == st'.devs[d].disk[s];
    NewestLast(p, e, prior, d, s, v);
    if !Covers(e, d, s) {
      assert s < st.devs[d].front;
      assert Settled(st, dst, d, s);
    }
  }

  lemma NewestLast(p: seq<Entry>, e: Entry, prior: bool, d: nat, s: nat, v: Sector)
    ensures NewestIs(p + [e], prior, d, s, v) ==
            if Covers(e, d, s) then s in e.got ==> e.got[s] == v else NewestIs(p, prior, d, s, v)
  {
    assert (p + [e])[..|p|] == p;
  }

  lemma StepKeepsSettled(st: State, step: Step, dst: Disks, d: nat, s: nat)
    requires Inv(st, dst) && Enabled(st, step) && !OvertakesStale(st, step) && QueueFlushed(st, step)
    requires d < |st.devs| && s < Next(st, step).devs[d].front && s < |st.devs[d].disk|
    ensures Settled(Next(st, step), dst, d, s)
  {
    match step {
      case WriteStart(_, _, _) => WriteStepSettles(st, step, dst, d, s);
      case WriteSector(_, _, _) => WriteStepSettles(st, step, dst, d, s);
      case WriteDone(_) => WriteStepSettles(st, step, dst, d, s);
      case ReadSector(r, x) => ReadSectorSettles(st, r, x, dst, d, s);
      case ReadDone(r, ok) => ReadDoneSettles(st, r, ok, dst, d, s);
      case SubmitBulk(_) => SubmitStepSettles(st, step, dst, d, s);
      case SubmitDirty(_, _) => SubmitStepSettles(st, step, dst, d, s);
      case SendDirty(_, _) => SubmitStepSettles(st, step, dst, d, s);
      case VmStop => assert Settled(st, dst, d, s);
      case FlushOne => PipelineStep(st, step); assert Settled(st, dst, d, s);
      case BulkSkip(_, _) =>
        if s < st.devs[d].front {
          assert Settled(st, dst, d, s);
        } else {
          NewestSame(Pipeline(st), true, d, s, st.devs[d].disk[s]);
        }
    }
  }

  /** Every step that overtakes neither a stale read nor the queue keeps the invariant. */
  lemma StepKeepsInv(st: State, step: Step, dst: Disks)
    requires Inv(st, dst) && Enabled(st, step) && !OvertakesStale(st, step) && QueueFlushed(st, step)
    ensures Inv(Next(st, step), dst)
  {
    hide Next, Enabled, OvertakesStale;
    var st' := Next(st, step);
    StepKeepsShape(st, step, dst);
    StepKeepsBaseShared(st, step, dst);
    forall d, s | 0 <= d < |st'.devs| && 0 <= s < st'.devs[d].front ensures Settled(st', dst, d, s) {
      StepKeepsSettled(st, step, dst, d, s);
    }
  }

  lemma StepKeepsBaseShared(st: State, step: Step, dst: Disks)
    requires Shape(st, dst) && BaseShared(st, dst) && Enabled(st, step) && Shape(Next(st, step), dst)
    ensures BaseShared(Next(st, step), dst)
  {
    hide Next, Enabled, CopiesAre;
    var st' := Next(st, step);
    forall d, s | st'.shared && 0 <= d < |st'.devs| && 0 <= s < |st'.devs[d].disk| && s !in st'.devs[d].alloc
      ensures dst[d][s] == st'.devs[d].disk[s] && CopiesAre(Pipeline(st'), d, s, st'.devs[d].disk[s])
    {
      StepKeepsBase(st, step, dst, d, s);
    }
  }

  /** The exact condition for completing reads in any order. */
  lemma ReadDoneExact(st: State, r: nat, ok: bool, dst: Disks)
    requires Inv(st, dst) && Enabled(st, ReadDone(r, ok))
    ensures Inv(Next(st, ReadDone(r, ok)), dst) <==> !OvertakesStale(st, ReadDone(r, ok))
  {
    hide Settled, StaleAt, BaseShared;
    if OvertakesStale(st, ReadDone(r, ok)) {
      var d := st.reading[r].dev;
      var s: nat :| s < st.devs[d].front && s < |st.devs[d].disk| && StaleAt(st, r, s);
      ReadDoneSettles(st, r, ok, dst, d, s);
    } else {
      StepKeepsInv(st, ReadDone(r, ok), dst);
    }
  }

  lemma {:induction false} RunKeepsInv(st: State, steps: seq<Step>, dst: Disks)
    requires Inv(st, dst) && IsOrderlyRun(st, steps)
    ensures IsRun(st, steps) && Inv(Run(st, steps), dst)
    decreases |steps|
  {
    if steps != [] {
      StepKeepsInv(st, steps[0], dst);
      RunKeepsInv(Next(st, steps[0]), steps[1..], dst);
    }
  }

  /** An in-flight bit is only ever set for a chunk that is being read. */
  ghost predicate AioOk(st: State) {
    forall d, c | 0 <= d < |st.devs| && c in st.devs[d].aio :: BeingRead(st, d, c)
  }

  ghost predicate BeingRead(st: State, d: nat, c: nat) {
    exists i :: 0 <= i < |st.reading| && st.reading[i].dev == d && ChunkOf(st.reading[i].first) == c
  }

  /** A read stays outstanding until it completes. */
  lemma StaysBeingRead(st: State, step: Step, d: nat, c: nat)
    requires Enabled(st, step) && BeingRead(st, d, c)
    requires step.ReadDone? ==> !(st.reading[step.r].dev == d && ChunkOf(st.reading[step.r].first) == c)
    ensures BeingRead(Next(st, step), d, c)
  {
    hide ChunksOf, ChunkLength, ChunkOf;
    var st' := Next(st, step);
    var i :| 0 <= i < |st.reading| && st.reading[i].dev == d && ChunkOf(st.reading[i].first) == c;
    if step.ReadDone? {
      assert st'.reading[if i < step.r then i else i - 1] == st.reading[i];
    } else {
      assert st'.reading[i].dev == d && st'.reading[i].first == st.reading[i].first;
    }
  }

  /** An in-flight bit is set with a request and cleared when a read completes. */
  lemma AioStep(st: State, step: Step, d: nat, c: nat)
    requires Enabled(st, step) && d < |st.devs| && c in Next(st, step).devs[d].aio
    ensures c in st.devs[d].aio || step == SubmitDirty(d, c)
    ensures step.ReadDone? ==> !(st.reading[step.r].dev == d && ChunkOf(st.reading[step.r].first) == c)
  {
    hide ChunksOf, ChunkLength, ChunkOf, Remove;
  }

  lemma RequestIsBeingRead(st: State, d: nat, c: nat)
    requires Enabled(st, SubmitDirty(d, c))
    ensures BeingRead(Next(st, SubmitDirty(d, c)), d, c)
  {
    var st' := Next(st, SubmitDirty(d, c));
    assert st'.reading[|st.reading|].dev == d && ChunkOf(st'.reading[|st.reading|].first) == c;
  }

  lemma StepKeepsAio(st: State, step: Step)
    requires AioOk(st) && Enabled(st, step)
    ensures AioOk(Next(st, step))
  {
    hide Next, Enabled, BeingRead;
    var st' := Next(st, step);
    forall d, c | 0 <= d < |st'.devs| && c in st'.devs[d].aio ensures BeingRead(st', d, c) {
      AioStep(st, step, d, c);
      if c in st.devs[d].aio { StaysBeingRead(st, step, d, c); } else { RequestIsBeingRead(st, d, c); }
    }
  }

  lemma {:induction false} RunKeepsAio(st: State, steps: seq<Step>)
    requires AioOk(st) && IsRun(st, steps)
    ensures AioOk(Run(st, steps))
    decreases |steps|
  {
    if steps != [] {
      StepKeepsAio(st, steps[0]);
      RunKeepsAio(Next(st, steps[0]), steps[1..]);
    }
  }

  /** How many copies the steps request. */
  function Requests(steps: seq<Step>): nat {
    if steps == [] then 0
    else (if steps[0].SubmitBulk? || steps[0].SubmitDirty? || steps[0].SendDirty? then 1 else 0) + Requests(steps[1..])
  }

  /** Conservation: every copy ever requested is being read, queued or sent. */
  lemma {:induction false} RunConserves(st: State, steps: seq<Step>)
    requires IsRun(st, steps)
    ensures |Pipeline(Run(st, steps))| == |Pipeline(st)| + Requests(steps)
    decreases |steps|
  {
    if steps != [] {
      PipelineStep(st, steps[0]);
      RunConserves(Next(st, steps[0]), steps[1..]);
    }
  }

  // ------------------------------------------------------------- convergence

  lemma {:induction false} ReceivedNewest(p: seq<Entry>, u: Sector, d: nat, s: nat, v: Sector)
    requires forall e | e in p :: FullyRead(e)
    ensures NewestIs(p, u == v, d, s, v) <==> Received(p, u, d, s) == v
    decreases |p|
  {
    if p != [] {
      assert p[|p| - 1] in p;
      ReceivedNewest(p[..|p| - 1], u, d, s, v);
    }
  }

  /** Migration has just started: nothing requested, nothing marked by it; guest writes
      may be in flight. */
  ghost predicate Initial(st: State, dst: Disks) {
    && |dst| == |st.devs|
    && (forall d | 0 <= d < |st.devs| :: |dst[d]| == |st.devs[d].disk| && st.devs[d].front == 0 && st.devs[d].aio == {})
    && st.sent == [] && st.queue == [] && st.reading == []
    && (forall w | w in st.writing :: WriteOk(dst, w)) && (st.stopped ==> st.writing == [])
    && (st.shared ==> forall d, s | 0 <= d < |st.devs| && 0 <= s < |st.devs[d].disk| && s !in st.devs[d].alloc ::
          dst[d][s] == st.devs[d].disk[s])
  }

  /** What block_save_complete has established when it returns 0. */
  predicate Complete(st: State) {
    && st.stopped && st.queue == [] && st.reading == []
    && forall d | 0 <= d < |st.devs| :: st.devs[d].front == |st.devs[d].disk| && st.devs[d].dirty == {}
  }

  /** Convergence: after any orderly run from the start of migration to its
      completion, loading the stream gives the destination exactly the
      source's disks. */
  lemma Convergence(st: State, steps: seq<Step>, dst: Disks, d: nat, s: nat)
    requires Initial(st, dst) && IsOrderlyRun(st, steps)
    requires IsRun(st, steps) && Complete(Run(st, steps))
    requires d < |dst| && s < |dst[d]|
    ensures d < |Run(st, steps).devs| && s < |Run(st, steps).devs[d].disk|
    ensures Received(Run(st, steps).sent, dst[d][s], d, s) == Run(st, steps).devs[d].disk[s]
  {
    var st' := Run(st, steps);
    RunKeepsInv(st, steps, dst);
    assert Settled(st', dst, d, s);
    assert Pipeline(st') == st'.sent;
    ReceivedNewest(st'.sent, dst[d][s], d, s, st'.devs[d].disk[s]);
  }

  // ------------------------------------ when completion order does not matter

  /** No read of a chunk is submitted while another one is outstanding, which
      is what the in-flight bitmap is for. */
  predicate Exclusive(st: State, step: Step) {
    match step
    case SubmitBulk(d) =>
      d < |st.devs| ==> forall e | e in st.reading :: !(e.dev == d && ChunkOf(e.first) == ChunkOf(st.devs[d].front))
    case SubmitDirty(d, c) => forall e | e in st.reading :: !(e.dev == d && ChunkOf(e.first) == c)
    case _ => true
  }

  predicate IsExclusiveRun(st: State, steps: seq<Step>)
    decreases |steps|
  {
    steps == [] ||
    (Enabled(st, steps[0]) && Exclusive(st, steps[0]) && QueueFlushed(st, steps[0]) &&
     IsExclusiveRun(Next(st, steps[0]), steps[1..]))
  }

  predicate OneReadPerChunk(reading: seq<Entry>) {
    forall i, j | 0 <= i < j < |reading| ::
      !(reading[i].dev == reading[j].dev && ChunkOf(reading[i].first) == ChunkOf(reading[j].first))
  }

  lemma ExclusiveStep(st: State, step: Step)
    requires OneReadPerChunk(st.reading) && Enabled(st, step) && Exclusive(st, step)
    ensures OneReadPerChunk(Next(st, step).reading)
  {
    hide ChunksOf, ChunkLength;
  }

  /** If every submission respects the in-flight reads, reads may complete in
      any order: the run is orderly anyway. */
  lemma {:induction false} ExclusiveIsOrderly(st: State, steps: seq<Step>, dst: Disks)
    requires Shape(st, dst) && OneReadPerChunk(st.reading) && IsExclusiveRun(st, steps)
    ensures IsOrderlyRun(st, steps)
    decreases |steps|
  {
    hide Shape, Next, Enabled, OvertakesStale;
    if steps != [] {
      InOrderIsEnough(st, steps[0], dst);
      StepKeepsShape(st, steps[0], dst);
      ExclusiveStep(st, steps[0]);
      ExclusiveIsOrderly(Next(st, steps[0]), steps[1..], dst);
    }
  }

  // --------------------------- what happens when a hypothesis does not hold

  ghost predicate Goes(st: State, step: Step, st': State) {
    Enabled(st, step) && Next(st, step) == st'
  }

  lemma {:induction false} PathIsRun(states: seq<State>, steps: seq<Step>)
    requires |states| == |steps| + 1
    requires forall i | 0 <= i < |steps| :: Goes(states[i], steps[i], states[i + 1])
    ensures IsRun(states[0], steps) && Run(states[0], steps) == states[|steps|]
    decreases |steps|
  {
    if steps != [] {
      assert forall i | 0 <= i < |steps[1..]| :: Goes(states[1..][i], steps[1..][i], states[1..][i + 1]);
      PathIsRun(states[1..], steps[1..]);
    }
  }

  function TinyCopy(got: map<nat, Sector>): Entry { Entry(0, 0, 1, got, true) }

  /** A state of the counterexample: one device of one sector. */
  function Tiny(v: Sector, alloc: set<nat>, dirty: set<nat>, aio: set<nat>, front: nat,
                queue: seq<Entry>, reading: seq<Entry>, writing: seq<GuestWrite>): State
  {
    State([Dev([v], alloc, dirty, aio, front)], false, [], queue, reading, writing, false)
  }

  /** The counterexample: the bulk path reads 1, the guest writes 2, the dirty
      path reads 2, and the second read completes before the first. */
  function LostState(i: nat): State
    requires i <= 12
  {
    var r0, r1, r2, g := TinyCopy(map[]), TinyCopy(map[0 := 1]), TinyCopy(map[0 := 2]), GuestWrite(0, 0, 1);
    if i == 0 then Tiny(1, {}, {}, {}, 0, [], [], [])
    else if i == 1 then Tiny(1, {}, {}, {}, 1, [], [r0], [])
    else if i == 2 then Tiny(1, {}, {}, {}, 1, [], [r1], [])
    else if i == 3 then Tiny(1, {}, {}, {}, 1, [], [r1], [g])
    else if i == 4 then Tiny(2, {0}, {}, {}, 1, [], [r1], [g])
    else if i == 5 then Tiny(2, {0}, {0}, {}, 1, [], [r1], [])
    else if i == 6 then Tiny(2, {0}, {}, {0}, 1, [], [r1, r0], [])
    else if i == 7 then Tiny(2, {0}, {}, {0}, 1, [], [r1, r2], [])
    else if i == 8 then Tiny(2, {0}, {}, {}, 1, [r2], [r1], [])
    else if i == 9 then Tiny(2, {0}, {}, {}, 1, [r2, r1], [], [])
    else if i == 10 then Tiny(2, {0}, {}, {}, 1, [r2, r1], [], []).(stopped := true)
    else if i == 11 then Tiny(2, {0}, {}, {}, 1, [r1], [], []).(stopped := true, sent := [r2])
    else Tiny(2, {0}, {}, {}, 1, [], [], []).(stopped := true, sent := [r2, r1])
  }

  function LostStep(i: nat): Step
    requires i < 12
  {
    if i == 0 then SubmitBulk(0)
    else if i == 1 then ReadSector(0, 0)
    else if i == 2 then WriteStart(0, 0, 1)
    else if i == 3 then WriteSector(0, 0, 2)
    else if i == 4 then WriteDone(0)
    else if i == 5 then SubmitDirty(0, 0)
    else if i == 6 then ReadSector(1, 0)
    else if i == 7 then ReadDone(1, true)
    else if i == 8 then ReadDone(0, true)
    else if i == 9 then VmStop
    else FlushOne
  }

  lemma EmptySets()
    ensures var none: set<nat> := {}; none - {0} == none && none + {0} == {0} && {0} - {0} == none
  {
  }

  lemma LostFirstStep()
    ensures Goes(LostState(0), LostStep(0), LostState(1))
  {
    EmptySets();
  }

  lemma LostSecondStep()
    ensures Goes(LostState(1), LostStep(1), LostState(2))
  {
    var r0, r1 := TinyCopy(map[]), TinyCopy(map[0 := 1]);
    assert [r0][0 := r1] == [r1];
  }

  lemma LostThirdStep()
    ensures Goes(LostState(2), LostStep(2), LostState(3))
  {
  }

  lemma LostWriteSteps(i: nat)
    requires 3 <= i <= 4
    ensures Goes(LostState(i), LostStep(i), LostState(i + 1))
  {
    EmptySets();
    if i == 4 {
      assert ChunksOf(0, 1) == {0} by { assert ChunkOf(0) in ChunksOf(0, 1); }
      assert Remove([GuestWrite(0, 0, 1)], 0) == [];
    } else {
      assert [1][0 := 2] == [2];
    }
  }

  lemma LostSubmit()
    ensures Goes(LostState(5), LostStep(5), LostState(6))
  {
    EmptySets();
  }

  lemma LostRead()
    ensures Goes(LostState(6), LostStep(6), LostState(7))
  {
    var r0, r1, r2 := TinyCopy(map[]), TinyCopy(map[0 := 1]), TinyCopy(map[0 := 2]);
    assert [r1, r0][1 := r2] == [r1, r2];
  }

  lemma LostSecondDone()
    ensures Goes(LostState(7), ReadDone(1, true), LostState(8))
  {
    EmptySets();
    var r1, r2 := TinyCopy(map[0 := 1]), TinyCopy(map[0 := 2]);
    assert Remove([r1, r2], 1) == [r1];
  }

  lemma LostFirstDone()
    ensures Goes(LostState(8), ReadDone(0, true), LostState(9))
  {
    EmptySets();
    var r1 := TinyCopy(map[0 := 1]);
    assert Remove([r1], 0) == [];
  }

  lemma LostStop()
    ensures Goes(LostState(9), VmStop, LostState(10))
  {
  }

  lemma LostFirstFlush()
    ensures Goes(LostState(10), FlushOne, LostState(11))
  {
    var r1, r2 := TinyCopy(map[0 := 1]), TinyCopy(map[0 := 2]);
    assert [r2, r1][1..] == [r1];
  }

  lemma LostSecondFlush()
    ensures Goes(LostState(11), FlushOne, LostState(12))
  {
    var r1 := TinyCopy(map[0 := 1]);
    assert [r1][1..] == [];
  }

  /** Without in-order completion the protocol loses a guest write: the bulk
      path does not set the in-flight bit that the dirty path tests, so a
      second read of the chunk can be submitted and can complete first. */
  lemma OutOfOrderReadsDiverge() returns (st: State, dst: Disks, steps: seq<Step>)
    ensures Initial(st, dst) && |dst| == 1 && dst[0] == [0]
    ensures IsRun(st, steps) && Complete(Run(st, steps))
    ensures |Run(st, steps).devs| == 1 && Run(st, steps).devs[0].disk == [2]
    ensures Received(Run(st, steps).sent, 0, 0, 0) == 1
  {
    hide Next, Enabled, IsRun, Run, Goes;
    dst := [[0]];
    st := LostState(0);
    steps := seq(12, i requires 0 <= i < 12 => LostStep(i));
    var states := seq(13, i requires 0 <= i <= 12 => LostState(i));
    LostFirstStep();
    LostSecondStep();
    LostThirdStep();
    LostSubmit();
    LostRead();
    LostSecondDone();
    LostFirstDone();
    LostStop();
    LostFirstFlush();
    LostSecondFlush();
    forall i | 0 <= i < 12 ensures Goes(states[i], steps[i], states[i + 1]) {
      if 3 <= i <= 4 { LostWriteSteps(i); }
    }
    PathIsRun(states, steps);
  }

  /** The copies that the synchronous pass of block_save_complete puts on the
      stream: one of every dirty chunk, of no other, in any order. */
  predicate IsDirtyCopy(devs: seq<Dev>, e: Entry) {
    && e.dev < |devs| && ChunkOf(e.first) in devs[e.dev].dirty
    && ChunkOf(e.first) * CHUNK < |devs[e.dev].disk|
    && e == ReadEntry(e.dev, devs[e.dev].disk, ChunkOf(e.first))
  }

  ghost predicate DirtyCopies(devs: seq<Dev>, copies: seq<Entry>) {
    && (forall e | e in copies :: IsDirtyCopy(devs, e))
    && (forall d, c | 0 <= d < |devs| && c in devs[d].dirty && c * CHUNK < |devs[d].disk| ::
          ReadEntry(d, devs[d].disk, c) in copies)
  }

  lemma {:induction false} ReceivedConcat(p: seq<Entry>, q: seq<Entry>, v: Sector, d: nat, s: nat)
    ensures Received(p + q, v, d, s) == Received(q, Received(p, v, d, s), d, s)
    decreases |q|
  {
    if q == [] {
      assert p + q == p;
    } else {
      assert (p + q)[..|p + q| - 1] == p + q[..|q| - 1];
      ReceivedConcat(p, q[..|q| - 1], v, d, s);
    }
  }

  lemma {:induction false} ReceivedSame(q: seq<Entry>, v: Sector, d: nat, s: nat, u: Sector)
    requires CopiesAre(q, d, s, u)
    ensures Received(q, v, d, s) == u || (Received(q, v, d, s) == v && forall e | e in q && Covers(e, d, s) :: s !in e.got)
    decreases |q|
  {
    if q != [] {
      var q' := q[..|q| - 1];
      assert forall e | e in q :: e in q' || e == q[|q| - 1];
      assert forall e | e in q' :: e in q;
      assert q[|q| - 1] in q;
      ReceivedSame(q', v, d, s, u);
    }
  }

  /** A dirty sector is right after the synchronous pass; a clean one keeps
      the value that the blocks before it gave. */
  lemma AfterDirtyCopies(devs: seq<Dev>, copies: seq<Entry>, v: Sector, d: nat, s: nat)
    requires DirtyCopies(devs, copies) && d < |devs| && s < |devs[d].disk|
    ensures Received(copies, v, d, s) == if ChunkOf(s) in devs[d].dirty then devs[d].disk[s] else v
  {
    assert CopiesAre(copies, d, s, devs[d].disk[s]);
    ReceivedSame(copies, v, d, s, devs[d].disk[s]);
    var c := ChunkOf(s);
    if c in devs[d].dirty {
      var e := ReadEntry(d, devs[d].disk, c);
      assert e in copies && Covers(e, d, s) && s in e.got;
    } else {
      assert forall e | e in copies && Covers(e, d, s) :: ChunkOf(e.first) == c;
      ReceivedNone(copies, v, d, s);
    }
  }

  lemma {:induction false} ReceivedNone(q: seq<Entry>, v: Sector, d: nat, s: nat)
    requires forall e | e in q :: !Covers(e, d, s)
    ensures Received(q, v, d, s) == v
    decreases |q|
  {
    if q != [] {
      assert q[|q| - 1] in q;
      ReceivedNone(q[..|q| - 1], v, d, s);
    }
  }

  /** The destination has the source's disks after loading p. */
  ghost predicate Converged(devs: seq<Dev>, dst: Disks, p: seq<Entry>)
    requires |dst| == |devs| && forall d | 0 <= d < |devs| :: |dst[d]| == |devs[d].disk|
  {
    forall d: nat, s: nat | d < |devs| && s < |devs[d].disk| :: Received(p, dst[d][s], d, s) == devs[d].disk[s]
  }

  /** Every sector of the discarded blocks whose chunk is clean already has
      its value at the destination. */
  ghost predicate LossHarmless(devs: seq<Dev>, dst: Disks, p: seq<Entry>, lost: seq<Entry>)
    requires |dst| == |devs| && forall d | 0 <= d < |devs| :: |dst[d]| == |devs[d].disk|
  {
    forall e, s: nat | e in lost && Covers(e, e.dev, s) && e.dev < |devs| && s < |devs[e.dev].disk| ::
      ChunkOf(s) in devs[e.dev].dirty || Received(p, dst[e.dev][s], e.dev, s) == devs[e.dev].disk[s]
  }

  /** Every sector of a clean chunk beyond the bulk cursor already has its value at the
      destination. */
  ghost predicate BeyondHarmless(devs: seq<Dev>, dst: Disks, p: seq<Entry>)
    requires |dst| == |devs| && forall d | 0 <= d < |devs| :: |dst[d]| == |devs[d].disk|
  {
    forall d, s: nat | 0 <= d < |devs| && devs[d].front <= s < |devs[d].disk| ::
      ChunkOf(s) in devs[d].dirty || Received(p, dst[d][s], d, s) == devs[d].disk[s]
  }

  lemma FlushedAreRead(st: State, dst: Disks, m: nat)
    requires Shape(st, dst) && m <= |st.queue| && forall e | e in st.queue[..m] :: e.ok
    ensures forall e | e in st.sent + st.queue[..m] :: FullyRead(e)
  {
    hide FullyRead, EntryOk;
    assert forall e | e in st.queue[..m] :: e in st.queue;
  }

  lemma UntouchedByLoss(st: State, dst: Disks, m: nat, d: nat, s: nat)
    requires Inv(st, dst) && st.stopped && st.reading == [] && m <= |st.queue|
    requires forall e | e in st.queue[..m] :: e.ok
    requires d < |st.devs| && s < st.devs[d].front && ChunkOf(s) !in st.devs[d].dirty
    requires forall e | e in st.queue[m..] :: !Covers(e, d, s)
    ensures Received(st.sent + st.queue[..m], dst[d][s], d, s) == st.devs[d].disk[s]
  {
    hide NewestIs, Received, BaseShared, FullyRead, EntryOk, WriteOk, Covers;
    var p, lost, v := st.sent + st.queue[..m], st.queue[m..], st.devs[d].disk[s];
    assert Settled(st, dst, d, s);
    assert Pipeline(st) == p + lost;
    NewestConcat(p, lost, dst[d][s] == v, d, s, v);
    NewestNone(lost, NewestIs(p, dst[d][s] == v, d, s, v), d, s, v);
    FlushedAreRead(st, dst, m);
    ReceivedNewest(p, dst[d][s], d, s, v);
  }

  lemma AfterCompletion(devs: seq<Dev>, dst: Disks, p: seq<Entry>, copies: seq<Entry>, d: nat, s: nat)
    requires |dst| == |devs| && forall d | 0 <= d < |devs| :: |dst[d]| == |devs[d].disk|
    requires DirtyCopies(devs, copies) && d < |devs| && s < |devs[d].disk|
    ensures Received(p + copies, dst[d][s], d, s) ==
            if ChunkOf(s) in devs[d].dirty then devs[d].disk[s] else Received(p, dst[d][s], d, s)
  {
    ReceivedConcat(p, copies, dst[d][s], d, s);
    AfterDirtyCopies(devs, copies, Received(p, dst[d][s], d, s), d, s);
  }

  /** Completion when the first flush stops after m queued blocks, as it does
      on reaching the rate limit, and cleanup discards the rest: the
      destination converges exactly when every sector of a clean chunk that a
      discarded block holds, or that lies beyond the bulk cursor, already has
      its value there.  In particular it converges whenever nothing is
      discarded (m == |queue|) and the bulk phase is over. */
  lemma CompletionExact(st: State, dst: Disks, m: nat, copies: seq<Entry>)
    requires Inv(st, dst) && st.stopped && st.reading == [] && m <= |st.queue|
    requires forall e | e in st.queue[..m] :: e.ok
    requires DirtyCopies(st.devs, copies)
    ensures Converged(st.devs, dst, st.sent + st.queue[..m] + copies) <==>
            LossHarmless(st.devs, dst, st.sent + st.queue[..m], st.queue[m..]) &&
            BeyondHarmless(st.devs, dst, st.sent + st.queue[..m])
  {
    var p, lost, devs := st.sent + st.queue[..m], st.queue[m..], st.devs;
    if Converged(devs, dst, p + copies) {
      ConvergedIsHarmless(devs, dst, p, lost, copies);
    }
    if LossHarmless(devs, dst, p, lost) && BeyondHarmless(devs, dst, p) {
      hide Inv, DirtyCopies, Received;
      forall d: nat, s: nat | d < |devs| && s < |devs[d].disk|
        ensures Received(p + copies, dst[d][s], d, s) == devs[d].disk[s]
      {
        AfterCompletion(devs, dst, p, copies, d, s);
        if ChunkOf(s) !in devs[d].dirty && s < devs[d].front && forall e | e in lost :: !Covers(e, d, s) {
          UntouchedByLoss(st, dst, m, d, s);
        }
      }
    }
  }

  lemma ConvergedIsHarmless(devs: seq<Dev>, dst: Disks, p: seq<Entry>, lost: seq<Entry>, copies: seq<Entry>)
    requires |dst| == |devs| && forall d | 0 <= d < |devs| :: |dst[d]| == |devs[d].disk|
    requires DirtyCopies(devs, copies) && Converged(devs, dst, p + copies)
    ensures LossHarmless(devs, dst, p, lost) && BeyondHarmless(devs, dst, p)
  {
    hide DirtyCopies, Received;
    forall d: nat, s: nat | d < |devs| && s < |devs[d].disk|
      ensures ChunkOf(s) in devs[d].dirty || Received(p, dst[d][s], d, s) == devs[d].disk[s]
    {
      AfterCompletion(devs, dst, p, copies, d, s);
    }
  }

  function CutState(i: nat): State
    requires i <= 4
  {
    if i <= 2 then LostState(i)
    else Tiny(1, {}, {}, {}, 1, [TinyCopy(map[0 := 1])], [], []).(stopped := i == 4)
  }

  lemma CutSteps()
    ensures Goes(CutState(2), ReadDone(0, true), CutState(3)) && Goes(CutState(3), VmStop, CutState(4))
  {
    EmptySets();
    assert Remove([TinyCopy(map[0 := 1])], 0) == [];
  }

  /** A flush cut short by the rate limit can lose data for good: a run from the start
      of migration after which the only copy of a clean chunk is queued, and is
      discarded. */
  lemma CutShortFlushDiverges() returns (st: State, dst: Disks, steps: seq<Step>)
    ensures Initial(st, dst) && |dst| == 1 && dst[0] == [0]
    ensures IsRun(st, steps)
    ensures var end := Run(st, steps);
      && end.stopped && end.reading == [] && |end.queue| == 1
      && |end.devs| == 1 && end.devs[0].disk == [1] && end.devs[0].front == 1 && DirtyCopies(end.devs, [])
      && Received(end.sent + end.queue[..0] + [], 0, 0, 0) == 0
      && Received(end.sent + end.queue[..1] + [], 0, 0, 0) == 1
  {
    hide Next, Enabled, IsRun, Run, Goes;
    dst := [[0]];
    st := CutState(0);
    steps := [SubmitBulk(0), ReadSector(0, 0), ReadDone(0, true), VmStop];
    LostFirstStep();
    LostSecondStep();
    CutSteps();
    PathIsRun([CutState(0), CutState(1), CutState(2), CutState(3), CutState(4)], steps);
    var end := CutState(4);
    assert end.sent + end.queue[..0] + [] == [];
    assert end.sent + end.queue[..1] + [] == end.queue;
  }

  /** Completing before the bulk phase has passed every sector loses data too: what
      lies beyond the bulk cursor is neither marked nor sent. */
  lemma EarlyCompletionDiverges() returns (st: State, dst: Disks, steps: seq<Step>)
    ensures Initial(st, dst) && |dst| == 1 && dst[0] == [0]
    ensures IsRun(st, steps)
    ensures var end := Run(st, steps);
      && end.stopped && end.reading == [] && end.queue == []
      && |end.devs| == 1 && end.devs[0].disk == [1] && DirtyCopies(end.devs, [])
      && Received(end.sent + [], 0, 0, 0) == 0
  {
    hide IsRun, Run;
    dst := [[0]];
    st := LostState(0);
    steps := [VmStop];
    var end := st.(stopped := true);
    assert Goes(st, VmStop, end);
    PathIsRun([st, end], steps);
    assert end.sent + [] == [];
  }
}
