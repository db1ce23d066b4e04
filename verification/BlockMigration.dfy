/** The sender of live block migration: block_mig_state and the functions that
    drive it.  Outside events (guest writes, driver reads, completions) are
    arbitrary protocol steps taken wherever the source runs its event loop.
    Every method leaves the sender in a state that some orderly run of the
    protocol reaches, so its convergence theorem applies. */
module BlockMigration {
  import opened Errno
  import opened Multiples
  import opened BlockMigrationProtocol
  import opened BlockStream

  const BLOCK_SIZE: nat := 1048576
  const MAX_IS_ALLOCATED_SEARCH: nat := 65536

  /** The cursors of one BlkMigDevState. */
  datatype Cursor = Cursor(curSector: nat, curDirty: nat, completed: nat, bulkDone: bool)

  /** Steps taken by the guest and by the drivers, not by the migration code. */
  predicate IsOutside(step: Step) {
    step.WriteStart? || step.WriteSector? || step.WriteDone? || step.ReadSector? || step.ReadDone?
  }

  predicate OutsideRun(st: State, steps: seq<Step>) {
    IsOrderlyRun(st, steps) && forall i | 0 <= i < |steps| :: IsOutside(steps[i])
  }

  lemma {:induction false} OrderlyConcat(st: State, a: seq<Step>, step: Step)
    requires IsOrderlyRun(st, a) && IsRun(st, a)
    requires Enabled(Run(st, a), step) && !OvertakesStale(Run(st, a), step) && QueueFlushed(Run(st, a), step)
    ensures IsOrderlyRun(st, a + [step]) && IsRun(st, a + [step])
    ensures Run(st, a + [step]) == Next(Run(st, a), step)
    decreases |a|
  {
    if a == [] {
      assert a + [step] == [step] && [step][1..] == [];
    } else {
      assert (a + [step])[1..] == a[1..] + [step];
      OrderlyConcat(Next(st, a[0]), a[1..], step);
    }
  }

  lemma {:induction false} OrderlyIsRun(st: State, steps: seq<Step>)
    requires IsOrderlyRun(st, steps)
    ensures IsRun(st, steps)
    decreases |steps|
  {
    if steps != [] {
      OrderlyIsRun(Next(st, steps[0]), steps[1..]);
    }
  }

  /** The same devices, no cursor moved, and no sector deallocated. */
  ghost predicate SameFronts(a: seq<Dev>, b: seq<Dev>) {
    && |a| == |b|
    && forall d | 0 <= d < |a| :: |a[d].disk| == |b[d].disk| && a[d].front == b[d].front && a[d].alloc <= b[d].alloc
  }

  ghost predicate SameDevices(a: seq<Dev>, b: seq<Dev>) {
    |a| == |b| && forall d | 0 <= d < |a| :: |a[d].disk| == |b[d].disk|
  }

  /** What working on the bulk phase of device d leaves alone. */
  ghost predicate BulkFrame(st: State, st': State, d: nat) {
    && SameDevices(st.devs, st'.devs)
    && (forall x | 0 <= x < |st.devs| && x != d :: st'.devs[x].front == st.devs[x].front)
    && st'.shared == st.shared && st'.stopped == st.stopped && st'.sent == st.sent
    && st.queue <= st'.queue
  }

  /** What the dirty phase leaves alone: cursors of the bulk phase, the stream. */
  ghost predicate OutsideFrame(st: State, st': State) {
    && SameFronts(st.devs, st'.devs)
    && st'.shared == st.shared && st'.stopped == st.stopped && st'.sent == st.sent
    && st.queue <= st'.queue
  }

  /** What outside steps leave alone. */
  ghost predicate OutsideOnly(st: State, st': State) {
    && SameFronts(st.devs, st'.devs)
    && st'.shared == st.shared && st'.stopped == st.stopped && st'.sent == st.sent
    && st.queue <= st'.queue
    && |st'.reading| + |st'.queue| == |st.reading| + |st.queue|
  }

  lemma OutsideStepFrame(st: State, step: Step)
    requires IsOutside(step) && Enabled(st, step)
    ensures var st' := Next(st, step);
      && OutsideOnly(st, st')
      && |st'.queue| == |st.queue| + if step.ReadDone? then 1 else 0
  {
  }

  /** Where the cursors of a device stand. */
  predicate CursorOk(c: Cursor, dev: Dev) {
    var total := |dev.disk|;
    && c.completed <= c.curSector
    && c.curSector <= dev.front <= total
    && (c.curSector % CHUNK == 0 || c.curSector == total)
    && c.curDirty % CHUNK == 0
    && (c.bulkDone ==> c.curSector == total)
  }

  predicate CursorsOk(curs: seq<Cursor>, devs: seq<Dev>) {
    |curs| == |devs| && forall d | 0 <= d < |curs| :: CursorOk(curs[d], devs[d])
  }

  lemma SameFrontsCursors(curs: seq<Cursor>, a: seq<Dev>, b: seq<Dev>)
    requires SameFronts(a, b) && CursorsOk(curs, a)
    ensures CursorsOk(curs, b)
  {
  }

  /** The state st is reached from the start of migration by an orderly run. */
  ghost predicate Reached(start: State, dst: Disks, trace: seq<Step>, st: State) {
    Initial(start, dst) && IsOrderlyRun(start, trace) && IsRun(start, trace) && Run(start, trace) == st
  }

  lemma ReachedStep(start: State, dst: Disks, trace: seq<Step>, st: State, step: Step)
    requires Reached(start, dst, trace, st) && Enabled(st, step) && !OvertakesStale(st, step) && QueueFlushed(st, step)
    ensures Reached(start, dst, trace + [step], Next(st, step))
  {
    OrderlyConcat(start, trace, step);
  }

  lemma ReachedInv(start: State, dst: Disks, trace: seq<Step>, st: State)
    requires Reached(start, dst, trace, st)
    ensures Inv(st, dst)
  {
    RunKeepsInv(start, trace, dst);
  }

  /** Chunk c of device d was clean in some state that the trace passes through from
      its first `from` steps on. */
  ghost predicate SeenClean(start: State, trace: seq<Step>, from: nat, d: nat, c: nat) {
    exists k :: from <= k <= |trace| && CleanAfter(start, trace[..k], d, c)
  }

  ghost predicate CleanAfter(start: State, steps: seq<Step>, d: nat, c: nat) {
    IsRun(start, steps) && d < |Run(start, steps).devs| && c !in Run(start, steps).devs[d].dirty
  }

  lemma SeenNow(start: State, dst: Disks, trace: seq<Step>, st: State, from: nat, d: nat, c: nat)
    requires Reached(start, dst, trace, st) && from <= |trace| && d < |st.devs| && c !in st.devs[d].dirty
    ensures SeenClean(start, trace, from, d, c)
  {
    assert trace[..|trace|] == trace;
    assert CleanAfter(start, trace[..|trace|], d, c);
  }

  lemma SeenLater(start: State, trace: seq<Step>, trace': seq<Step>, from: nat, from': nat, d: nat, c: nat)
    requires SeenClean(start, trace, from, d, c) && trace <= trace' && from' <= from
    ensures SeenClean(start, trace', from', d, c)
  {
    hide CleanAfter;
    var k :| from <= k <= |trace| && CleanAfter(start, trace[..k], d, c);
    assert trace'[..k] == trace[..k];
  }

  /** A chunk that was seen clean and not a step taken since is clean. */
  lemma SeenStill(start: State, dst: Disks, trace: seq<Step>, st: State, d: nat, c: nat)
    requires Reached(start, dst, trace, st) && SeenClean(start, trace, |trace|, d, c)
    ensures d < |st.devs| && c !in st.devs[d].dirty
  {
    assert trace[..|trace|] == trace;
  }

  /** The chunks of device d from sector lo up to sector hi have been seen clean. */
  ghost predicate ScannedClean(start: State, trace: seq<Step>, from: nat, d: nat, lo: nat, hi: nat) {
    forall c: nat | lo <= c * CHUNK < hi :: SeenClean(start, trace, from, d, c)
  }

  lemma ScannedLater(start: State, trace: seq<Step>, trace': seq<Step>, from: nat, from': nat, d: nat, lo: nat, hi: nat)
    requires ScannedClean(start, trace, from, d, lo, hi) && trace <= trace' && from' <= from
    ensures ScannedClean(start, trace', from', d, lo, hi)
  {
    hide SeenClean;
    forall c: nat | lo <= c * CHUNK < hi ensures SeenClean(start, trace', from', d, c) {
      SeenLater(start, trace, trace', from, from', d, c);
    }
  }

  lemma ScannedMore(start: State, trace: seq<Step>, from: nat, d: nat, lo: nat, hi: nat)
    requires ScannedClean(start, trace, from, d, lo, hi) && hi % CHUNK == 0 && SeenClean(start, trace, from, d, ChunkOf(hi))
    ensures ScannedClean(start, trace, from, d, lo, hi + CHUNK)
  {
    hide SeenClean;
    forall c: nat | lo <= c * CHUNK < hi + CHUNK ensures SeenClean(start, trace, from, d, c) {
      if c * CHUNK >= hi { assert c == ChunkOf(hi); }
    }
  }

  lemma ScannedJoin(start: State, trace: seq<Step>, from: nat, d: nat, lo: nat, mid: nat, hi: nat)
    requires ScannedClean(start, trace, from, d, lo, mid) && ScannedClean(start, trace, from, d, mid, hi)
    ensures ScannedClean(start, trace, from, d, lo, hi)
  {
    hide SeenClean;
  }

  /** Every chunk behind a dirty cursor has been seen clean. */
  ghost predicate PassedClean(start: State, trace: seq<Step>, from: nat, curs: seq<Cursor>) {
    forall d | 0 <= d < |curs| :: ScannedClean(start, trace, from, d, 0, curs[d].curDirty)
  }

  lemma PassedLater(start: State, trace: seq<Step>, trace': seq<Step>, from: nat, from': nat, curs: seq<Cursor>, curs': seq<Cursor>)
    requires PassedClean(start, trace, from, curs) && trace <= trace' && from' <= from
    requires |curs'| == |curs| && forall d | 0 <= d < |curs| :: curs'[d].curDirty == curs[d].curDirty
    ensures PassedClean(start, trace', from', curs')
  {
    hide ScannedClean;
    forall d | 0 <= d < |curs'| ensures ScannedClean(start, trace', from', d, 0, curs'[d].curDirty) {
      ScannedLater(start, trace, trace', from, from', d, 0, curs[d].curDirty);
    }
  }

  lemma NonePassed(start: State, trace: seq<Step>, from: nat, curs: seq<Cursor>)
    requires forall d | 0 <= d < |curs| :: curs[d].curDirty == 0
    ensures PassedClean(start, trace, from, curs)
  {
  }

  lemma NoneScanned(start: State, trace: seq<Step>, from: nat, d: nat, lo: nat)
    ensures ScannedClean(start, trace, from, d, lo, lo)
  {
  }

  /** One device has been scanned further. */
  lemma PassedOne(start: State, trace: seq<Step>, trace': seq<Step>, from: nat, curs: seq<Cursor>, curs': seq<Cursor>, d: nat)
    requires PassedClean(start, trace, from, curs) && trace <= trace' && from <= |trace| && d < |curs|
    requires |curs'| == |curs| && curs' == curs[d := curs'[d]]
    requires ScannedClean(start, trace', |trace|, d, curs[d].curDirty, curs'[d].curDirty)
    ensures PassedClean(start, trace', from, curs')
  {
    hide ScannedClean;
    forall x | 0 <= x < |curs'| ensures ScannedClean(start, trace', from, x, 0, curs'[x].curDirty) {
      ScannedLater(start, trace, trace', from, from, x, 0, curs[x].curDirty);
      if x == d {
        ScannedLater(start, trace', trace', |trace|, from, d, curs[d].curDirty, curs'[d].curDirty);
        ScannedJoin(start, trace', from, d, 0, curs[d].curDirty, curs'[d].curDirty);
      }
    }
  }

  predicate Drains(st: State, steps: seq<Step>) {
    OutsideRun(st, steps) && IsRun(st, steps) && Run(st, steps).reading == [] && Run(st, steps).writing == []
  }

  /** Requests under way can always be finished, in order. */
  lemma DrainingRun(st: State, dst: Disks) returns (steps: seq<Step>)
    requires Inv(st, dst)
    ensures Drains(st, steps)
    decreases |st.writing| + |st.reading|
  {
    if st.writing != [] || st.reading != [] {
      var step := if st.writing != [] then WriteDone(0) else ReadDone(0, false);
      assert st.writing != [] ==> st.writing[0] in st.writing;
      assert st.reading != [] ==> st.reading[0] in st.reading;
      InOrderIsEnough(st, step, dst);
      StepKeepsInv(st, step, dst);
      var rest := DrainingRun(Next(st, step), dst);
      steps := [step] + rest;
      assert steps[1..] == rest;
    } else {
      steps := [];
    }
  }

  /** Some queued blocks have moved to the stream, in order; nothing else. */
  ghost predicate Flushed(st: State, st': State) {
    && |st'.queue| <= |st.queue|
    && var k := |st.queue| - |st'.queue|;
       st' == st.(sent := st.sent + st.queue[..k], queue := st.queue[k..])
  }

  lemma FlushedStep(st: State, st': State)
    requires Flushed(st, st') && st'.queue != [] && st'.queue[0].ok
    ensures Flushed(st, Next(st', FlushOne))
  {
    var k := |st.queue| - |st'.queue|;
    assert st.queue[..k + 1] == st.queue[..k] + [st.queue[k]];
    assert st.queue[k..][1..] == st.queue[k + 1..];
    assert st.sent + st.queue[..k] + [st.queue[k]] == st.sent + st.queue[..k + 1];
  }

  /** A message for a fully read block; what follows a short last chunk in the
      buffer is not determined. */
  method BlockMessage(e: Entry, name: string) returns (m: Msg)
    requires e.n <= CHUNK && FullyRead(e)
    ensures IsBlockMsg(m, e, name)
  {
    var junk: Sector := *;
    var buf := seq(CHUNK, i requires 0 <= i < CHUNK => if i < e.n then e.got[e.first + i] else junk);
    m := Block(e.first * SECTOR_SIZE + FLAG_DEVICE_BLOCK, name, buf);
  }

  /** The synchronous pass of completion, started in st0, has reached st: it
      has sent copies of chunks that were dirty in st0, and those still to be
      sent are still marked. */
  ghost predicate Syncing(st0: State, st: State) {
    && |st.devs| == |st0.devs| && |st0.sent| <= |st.sent|
    && st == st0.(sent := st.sent, devs := st.devs)
    && (forall d | 0 <= d < |st.devs| :: st.devs[d] == st0.devs[d].(dirty := st.devs[d].dirty) &&
          st.devs[d].dirty <= st0.devs[d].dirty)
    && st.sent[..|st0.sent|] == st0.sent
    && (forall e | e in st.sent[|st0.sent|..] :: IsDirtyCopy(st0.devs, e))
    && (forall d, c | 0 <= d < |st.devs| && c in st0.devs[d].dirty && c * CHUNK < |st0.devs[d].disk| ::
          c in st.devs[d].dirty || ReadEntry(d, st0.devs[d].disk, c) in st.sent[|st0.sent|..])
  }

  lemma SyncingStep(st0: State, st: State, d: nat, c: nat)
    requires Syncing(st0, st) && d < |st.devs| && c * CHUNK < |st.devs[d].disk| && c in st.devs[d].dirty
    ensures Syncing(st0, st.(sent := st.sent + [ReadEntry(d, st.devs[d].disk, c)],
                             devs := st.devs[d := st.devs[d].(dirty := st.devs[d].dirty - {c})]))
  {
    var n, e := |st0.sent|, ReadEntry(d, st.devs[d].disk, c);
    assert (st.sent + [e])[..n] == st.sent[..n] && (st.sent + [e])[n..] == st.sent[n..] + [e];
    assert IsDirtyCopy(st0.devs, e);
  }

  /** The number of dirty chunks, as get_remaining_dirty counts them. */
  function DirtyTotal(devs: seq<Dev>): nat {
    if devs == [] then 0 else |devs[0].dirty| + DirtyTotal(devs[1..])
  }

  lemma {:induction false} DirtyTotalStep(devs: seq<Dev>, d: nat, c: nat)
    requires d < |devs| && c in devs[d].dirty
    ensures DirtyTotal(devs[d := devs[d].(dirty := devs[d].dirty - {c})]) == DirtyTotal(devs) - 1
  {
    var devs' := devs[d := devs[d].(dirty := devs[d].dirty - {c})];
    if d == 0 {
      assert devs'[1..] == devs[1..];
    } else {
      assert devs'[1..] == devs[1..][d - 1 := devs[d].(dirty := devs[d].dirty - {c})];
      DirtyTotalStep(devs[1..], d - 1, c);
    }
  }

  /** No chunk behind a dirty cursor is dirty. */
  ghost predicate CleanBehind(curs: seq<Cursor>, devs: seq<Dev>) {
    |curs| == |devs| && forall d, c | 0 <= d < |devs| && c in devs[d].dirty :: c * CHUNK >= curs[d].curDirty && curs[d].curDirty % CHUNK == 0
  }

  ghost predicate SameDisks(a: seq<Dev>, b: seq<Dev>) {
    |a| == |b| && forall d | 0 <= d < |a| :: a[d].disk == b[d].disk
  }

  lemma ReachedSizes(start: State, dst: Disks, trace: seq<Step>, st: State)
    requires Reached(start, dst, trace, st)
    ensures |dst| == |st.devs| && forall d | 0 <= d < |st.devs| :: |dst[d]| == |st.devs[d].disk|
  {
    ReachedInv(start, dst, trace, st);
  }

  /** Completion, told from the state st0 after the flush, which an orderly run
      reaches, and the final state st. */
  lemma CompletedRun(start: State, dst: Disks, trace: seq<Step>, st0: State, st: State)
    requires Reached(start, dst, trace, st0) && st0.stopped && st0.reading == []
    requires SameDisks(st0.devs, st.devs) && |st0.sent| <= |st.sent| && st.sent[..|st0.sent|] == st0.sent
    requires DirtyCopies(st0.devs, st.sent[|st0.sent|..])
    ensures |dst| == |st.devs| && forall d | 0 <= d < |st.devs| :: |dst[d]| == |st.devs[d].disk|
    ensures Converged(st.devs, dst, st.sent) <==>
            LossHarmless(st0.devs, dst, st0.sent, st0.queue) && BeyondHarmless(st0.devs, dst, st0.sent)
    ensures EntriesOk(dst, st.sent)
  {
    hide Reached, BaseShared, Settled, LossHarmless, BeyondHarmless;
    ReachedInv(start, dst, trace, st0);
    var copies := st.sent[|st0.sent|..];
    assert st0.sent + st0.queue[..0] == st0.sent && st0.queue[0..] == st0.queue;
    assert st.sent == st0.sent + copies;
    CompletionExact(st0, dst, 0, copies);
    forall e | e in st.sent ensures EntryOk(dst, e) {
      assert e in st0.sent || (e in copies && IsDirtyCopy(st0.devs, e));
    }
  }

  lemma NothingInFlight(start: State, dst: Disks, trace: seq<Step>, st: State)
    requires Reached(start, dst, trace, st) && st.reading == []
    ensures forall d | 0 <= d < |st.devs| :: st.devs[d].aio == {}
  {
    RunKeepsAio(start, trace);
    forall d | 0 <= d < |st.devs| ensures st.devs[d].aio == {} {
      if c :| c in st.devs[d].aio {
        assert false;
      }
    }
  }

  /** The number of devices whose bulk phase is not finished. */
  function Unfinished(curs: seq<Cursor>): nat {
    if curs == [] then 0 else (if curs[0].bulkDone then 0 else 1) + Unfinished(curs[1..])
  }

  lemma {:induction false} UnfinishedStep(a: seq<Cursor>, b: seq<Cursor>, d: nat)
    requires |a| == |b| && d < |a| && b == a[d := b[d]] && !a[d].bulkDone
    ensures Unfinished(b) == Unfinished(a) - if b[d].bulkDone then 1 else 0
  {
    if d == 0 {
      assert b[1..] == a[1..];
    } else {
      assert b[1..] == a[1..][d - 1 := b[1..][d - 1]];
      UnfinishedStep(a[1..], b[1..], d - 1);
    }
  }

  function TotalSectors(devs: seq<Dev>): nat {
    if devs == [] then 0 else |devs[0].disk| + TotalSectors(devs[1..])
  }

  function CompletedSum(curs: seq<Cursor>): nat {
    if curs == [] then 0 else curs[0].completed + CompletedSum(curs[1..])
  }

  lemma {:induction false} CompletedConcat(a: seq<Cursor>, b: seq<Cursor>)
    ensures CompletedSum(a + b) == CompletedSum(a) + CompletedSum(b)
  {
    if a == [] {
      assert a + b == b;
    } else {
      assert (a + b)[0] == a[0] && (a + b)[1..] == a[1..] + b;
      CompletedConcat(a[1..], b);
    }
  }

  lemma CompletedSnoc(curs: seq<Cursor>, d: nat)
    requires d < |curs|
    ensures CompletedSum(curs[..d + 1]) == CompletedSum(curs[..d]) + curs[d].completed
  {
    var one := [curs[d]];
    assert curs[..d + 1] == curs[..d] + one && one[1..] == [];
    CompletedConcat(curs[..d], one);
  }

  /** No more sectors are completed than there are. */
  lemma {:induction false} CompletedBound(curs: seq<Cursor>, devs: seq<Dev>, d: nat)
    requires CursorsOk(curs, devs) && d <= |curs|
    ensures CompletedSum(curs[..d]) <= TotalSectors(devs)
  {
    if d > 0 {
      assert CursorOk(curs[0], devs[0]);
      assert curs[..d][1..] == curs[1..][..d - 1];
      CompletedBound(curs[1..], devs[1..], d - 1);
    }
  }

  lemma PercentBound(a: nat, b: nat)
    requires a <= b && b > 0
    ensures a * 100 / b <= 100 && (a == b ==> a * 100 / b == 100)
  {
    var q := a * 100 / b;
    assert q * b <= a * 100 < q * b + b;
    assert (q + 1) * b == q * b + b;
    MulOrder(q, 101, b);
    if a == b { MulOrder(100, q + 1, b); }
  }

  /** The progress reported for a sum of completed sectors. */
  function Percent(sum: nat, total: nat): nat { if total == 0 then 100 else sum * 100 / total }

  lemma PercentIsOne(sum: nat, total: nat)
    requires sum <= total
    ensures Percent(sum, total) <= 100 && (sum == total ==> Percent(sum, total) == 100)
  {
    if total > 0 { PercentBound(sum, total); }
  }

  class BlkMig {
    /** Disks, bitmaps and requests under way, blk_list, and the blocks sent. */
    var st: State
    // the rest of block_mig_state
    var curs: seq<Cursor>
    var submitted: int
    var readDone: int
    var transferred: int
    var prevProgress: int
    var bulkCompleted: bool
    // the migration stream and its error
    var stream: seq<Msg>
    var error: int
    /** How many synchronous reads are still going to fail. */
    var faults: nat
    const names: seq<string>
    // ghost history
    ghost var start: State
    ghost var dst: Disks
    ghost var trace: seq<Step>

    /** submitted counts the outstanding reads, read_done the queued blocks. */
    predicate CountsOk()
      reads this
    {
      submitted == |st.reading| && readDone == |st.queue| && transferred == |st.sent|
    }

    ghost predicate Valid()
      reads this
    {
      && Reached(start, dst, trace, st)
      && CountsOk()
      && CursorsOk(curs, st.devs)
      && (bulkCompleted ==> forall d | 0 <= d < |curs| :: curs[d].bulkDone)
      && |names| == |st.devs|
      && OnWire(stream, st.sent, names)
    }

    /** init_blk_migration and block_save_setup: tracking starts with clean
        bitmaps and cursors at 0.  Guest writes may be in flight, or the guest may be
        stopped.  With a shared base, the destination already has the sectors that
        the source's top images do not hold. */
    constructor (names: seq<string>, disks: seq<seq<Sector>>, allocs: seq<set<nat>>, writes: seq<GuestWrite>, stopped: bool,
                 shared: bool, faults: nat, ghost dst: Disks)
      requires |names| == |disks| == |allocs| == |dst|
      requires forall d | 0 <= d < |disks| :: |dst[d]| == |disks[d]|
      requires (forall w | w in writes :: WriteOk(dst, w)) && (stopped ==> writes == [])
      requires shared ==> forall d, s | 0 <= d < |disks| && 0 <= s < |disks[d]| && s !in allocs[d] :: dst[d][s] == disks[d][s]
      ensures Valid() && Aligned() && error == 0 && !bulkCompleted && this.dst == dst && this.names == names
      ensures |st.devs| == |disks| && (forall d | 0 <= d < |disks| :: st.devs[d].disk == disks[d]) && st.writing == writes
    {
      var devs := seq(|disks|, d requires 0 <= d < |disks| => Dev(disks[d], allocs[d], {}, {}, 0));
      var st := State(devs, shared, [], [], [], writes, stopped);
      this.names, this.st, this.faults := names, st, faults;
      curs := seq(|disks|, d => Cursor(0, 0, 0, false));
      submitted, readDone, transferred, prevProgress, bulkCompleted := 0, 0, 0, -1, false;
      stream, error := [Mark(FLAG_EOS)], 0;
      this.start, this.dst, trace := st, dst, [];
    }

    /** The counters add up to the blocks requested since setup: those being read,
        those queued and those sent. */
    lemma Accounting()
      requires Valid()
      ensures submitted == |st.reading| && readDone == |st.queue|
      ensures submitted + readDone + transferred == Requests(trace)
    {
      RunConserves(start, trace);
      assert Pipeline(start) == [];
    }

    /** vm_stop: the guest issues no more requests, and all requests drain. */
    method StopGuest()
      requires Valid() && Aligned()
      modifies `st, `trace, `submitted, `readDone
      ensures Valid() && Aligned() && st.stopped && st.reading == []
    {
      hide Reached, OnWire, CursorsOk;
      DrainAll();
      ReachedStep(start, dst, trace, st, VmStop);
      st, trace := Next(st, VmStop), trace + [VmStop];
    }

    /** One outside step; completing a read runs blk_mig_read_cb. */
    method OutsideStep(step: Step)
      requires Valid() && IsOutside(step) && Enabled(st, step) && !OvertakesStale(st, step)
      modifies `st, `trace, `submitted, `readDone
      ensures Valid() && st == Next(old(st), step) && trace == old(trace) + [step]
      ensures submitted + readDone == old(submitted + readDone)
    {
      hide Reached, OnWire, CursorsOk, IsOrderlyRun;
      OutsideStepFrame(st, step);
      ReachedStep(start, dst, trace, st, step);
      SameFrontsCursors(curs, st.devs, Next(st, step).devs);
      st, trace := Next(st, step), trace + [step];
      if step.ReadDone? {
        submitted, readDone := submitted - 1, readDone + 1;
      }
    }

    method RunOutside(steps: seq<Step>)
      requires Valid() && OutsideRun(st, steps)
      modifies `st, `trace, `submitted, `readDone
      ensures Valid() && OutsideOnly(old(st), st) && old(trace) <= trace
      ensures submitted + readDone == old(submitted + readDone)
      ensures IsRun(old(st), steps) && st == Run(old(st), steps)
      decreases |steps|
    {
      hide Reached, OnWire, CursorsOk, Next, Enabled, OvertakesStale;
      OrderlyIsRun(st, steps);
      if steps != [] {
        assert IsOutside(steps[0]);
        OutsideStepFrame(st, steps[0]);
        OutsideStep(steps[0]);
        RunOutside(steps[1..]);
      }
    }

    /** The event loop runs: any outside steps happen. */
    method Environment()
      requires Valid()
      modifies `st, `trace, `submitted, `readDone
      ensures Valid() && OutsideOnly(old(st), st) && old(trace) <= trace
      ensures submitted + readDone == old(submitted + readDone)
    {
      hide Reached, OnWire, CursorsOk;
      assert OutsideRun(st, []);
      var steps: seq<Step> :| OutsideRun(st, steps);
      RunOutside(steps);
    }

    /** bdrv_drain_all: the event loop runs until no request is under way. */
    method DrainAll()
      requires Valid()
      modifies `st, `trace, `submitted, `readDone
      ensures Valid() && OutsideOnly(old(st), st) && old(trace) <= trace
      ensures submitted + readDone == old(submitted + readDone)
      ensures st.reading == [] && st.writing == []
    {
      hide Reached, OnWire, CursorsOk;
      ReachedInv(start, dst, trace, st);
      ghost var some := DrainingRun(st, dst);
      assert Drains(st, some);
      var steps: seq<Step> :| Drains(st, steps);
      assert Drains(st, steps) && OutsideRun(st, steps);
      RunOutside(steps);
    }

    /** bdrv_is_allocated: whether sector s is allocated in the top image, and
        how many sectors from s on are known to be in the same state.  The
        driver may run the event loop to find out. */
    method IsAllocated(d: nat, s: nat) returns (a: bool, n: nat)
      requires Valid() && d < |st.devs| && s < |st.devs[d].disk|
      modifies `st, `trace, `submitted, `readDone
      ensures Valid() && OutsideOnly(old(st), st) && old(trace) <= trace
      ensures submitted + readDone == old(submitted + readDone)
      ensures 1 <= n <= MAX_IS_ALLOCATED_SEARCH && s + n <= |st.devs[d].disk|
      ensures a == (s in st.devs[d].alloc)
      ensures forall x | s <= x < s + n :: (x in st.devs[d].alloc) == a
    {
      hide Reached, OnWire, CursorsOk;
      Environment();
      var dev := st.devs[d];
      a := s in dev.alloc;
      n := 1;
      var longer: bool := *;
      while longer && n < MAX_IS_ALLOCATED_SEARCH && s + n < |dev.disk| && (s + n in dev.alloc) == a
        invariant 1 <= n <= MAX_IS_ALLOCATED_SEARCH && s + n <= |dev.disk|
        invariant forall x | s <= x < s + n :: (x in dev.alloc) == a
      {
        n := n + 1;
        longer := *;
      }
    }

    /** A step of the migration code itself that leaves the counters alone. */
    ghost predicate CanDo(step: Step)
      reads this
    {
      Valid() && Enabled(st, step) && !OvertakesStale(st, step) && QueueFlushed(st, step)
    }

    /** The search loop of mig_save_device_bulk: passes over sectors that are
        not allocated in the source's top image. */
    method SkipUnallocated(d: nat) returns (cur: nat)
      requires Valid() && d < |curs| && st.shared && st.devs[d].front == curs[d].curSector
      modifies `st, `trace, `submitted, `readDone
      ensures Valid() && BulkFrame(old(st), st, d) && old(trace) <= trace
      ensures submitted + readDone == old(submitted + readDone)
      ensures curs[d].curSector <= cur == st.devs[d].front <= |st.devs[d].disk|
      ensures cur < |st.devs[d].disk| ==> cur in st.devs[d].alloc
    {
      hide Reached, OnWire, Next;
      cur := curs[d].curSector;
      while cur < |st.devs[d].disk|
        invariant Valid() && BulkFrame(old(st), st, d) && old(trace) <= trace
        invariant curs[d].curSector <= cur == st.devs[d].front
        invariant submitted + readDone == old(submitted + readDone)
        decreases |st.devs[d].disk| - cur
      {
        var present, n := IsAllocated(d, cur);
        if present {
          break;
        }
        SkipStep(d, n);
        cur := cur + n;
      }
    }

    /** mig_save_device_bulk: skips what a shared base makes unnecessary and
        requests the next chunk.  Returns whether the device is finished. */
    method SaveDeviceBulk(d: nat) returns (finished: bool)
      requires Valid() && d < |curs| && st.devs[d].front == curs[d].curSector
      requires !bulkCompleted && !curs[d].bulkDone
      modifies `st, `trace, `submitted, `readDone, `curs
      ensures Valid() && BulkFrame(old(st), st, d) && old(trace) <= trace
      ensures |curs| == |old(curs)| && curs == old(curs)[d := curs[d]] && !curs[d].bulkDone && curs[d].curDirty == old(curs)[d].curDirty
      ensures st.devs[d].front == curs[d].curSector
      ensures finished <==> curs[d].curSector == |st.devs[d].disk|
      ensures old(curs)[d].completed <= curs[d].completed
      ensures finished || old(curs)[d].curSector < curs[d].curSector
      ensures var asked := submitted + readDone - old(submitted + readDone);
        && 0 <= asked <= 1 && (finished || asked == 1)
        && (asked == 1 ==> |old(trace)| < |trace| && trace[|trace| - 1] == SubmitBulk(d))
    {
      hide Reached, OnWire, Next;
      var total := |st.devs[d].disk|;
      var cur := curs[d].curSector;
      if st.shared {
        cur := SkipUnallocated(d);
      }
      if cur >= total {
        curs := curs[d := curs[d].(curSector := total, completed := total)];
        return true;
      }
      SubmitBulkStep(d);
      curs := curs[d := curs[d].(curSector := st.devs[d].front, completed := cur)];
      return curs[d].curSector >= total;
    }

    method SkipStep(d: nat, n: nat)
      requires CanDo(BulkSkip(d, n))
      modifies `st, `trace
      ensures Valid() && BulkFrame(old(st), st, d) && old(trace) <= trace
      ensures st.devs[d].front == Min(old(st).devs[d].front + n, |st.devs[d].disk|)
      ensures |st.queue| == old(|st.queue|) && |st.reading| == old(|st.reading|)
    {
      hide Reached, OnWire;
      ReachedStep(start, dst, trace, st, BulkSkip(d, n));
      st, trace := Next(st, BulkSkip(d, n)), trace + [BulkSkip(d, n)];
    }

    /** bdrv_aio_readv and bdrv_reset_dirty for the chunk at the cursor. */
    method SubmitBulkStep(d: nat)
      requires CanDo(SubmitBulk(d))
      modifies `st, `trace, `submitted
      ensures Valid() && submitted == old(submitted) + 1 && BulkFrame(old(st), st, d)
      ensures trace == old(trace) + [SubmitBulk(d)]
      ensures old(st).devs[d].front < st.devs[d].front
      ensures st.devs[d].front % CHUNK == 0 || st.devs[d].front == |st.devs[d].disk|
    {
      hide Reached, OnWire;
      ReachedStep(start, dst, trace, st, SubmitBulk(d));
      st, trace := Next(st, SubmitBulk(d)), trace + [SubmitBulk(d)];
      submitted := submitted + 1;
    }

    /** bdrv_aio_readv, bmds_set_aio_inflight and bdrv_reset_dirty. */
    method SubmitDirtyStep(d: nat, c: nat)
      requires CanDo(SubmitDirty(d, c))
      modifies `st, `trace, `submitted
      ensures Valid() && submitted == old(submitted) + 1 && OutsideFrame(old(st), st)
      ensures trace == old(trace) + [SubmitDirty(d, c)]
    {
      hide Reached, OnWire;
      ReachedStep(start, dst, trace, st, SubmitDirty(d, c));
      st, trace := Next(st, SubmitDirty(d, c)), trace + [SubmitDirty(d, c)];
      submitted := submitted + 1;
    }

    /** Between calls every bulk cursor stands where the bulk phase has got to. */
    predicate Aligned()
      reads this
    {
      |curs| == |st.devs| && forall d | 0 <= d < |curs| :: st.devs[d].front == curs[d].curSector
    }

    /** qemu_put_be64 of a progress or end-of-section word. */
    method PutMark(header: nat)
      requires OnWire(stream, st.sent, names)
      requires header % SECTOR_SIZE == FLAG_EOS || header % SECTOR_SIZE == FLAG_PROGRESS
      modifies `stream
      ensures OnWire(stream, st.sent, names) && stream == old(stream) + [Mark(header)]
    {
      stream := stream + [Mark(header)];
      assert stream[..|stream| - 1] == old(stream);
    }

    /** blk_mig_save_bulked_block: one request on the first device whose bulk
        phase is not finished, which is d; false when there is no such device. */
    method SaveBulkedBlock() returns (more: bool, ghost d: nat)
      requires Valid() && Aligned() && !bulkCompleted
      modifies `st, `trace, `submitted, `readDone, `curs, `prevProgress, `stream
      ensures Valid() && Aligned() && st.sent == old(st).sent && old(st).queue <= st.queue && old(trace) <= trace
      ensures SameDevices(old(st).devs, st.devs) && |curs| == |old(curs)|
      ensures d <= |curs| && (forall x | 0 <= x < d :: old(curs)[x].bulkDone) && (more <==> d < |curs|)
      ensures !more ==> curs == old(curs)
      ensures more ==> !old(curs)[d].bulkDone && curs == old(curs)[d := curs[d]] && curs[d].curDirty == old(curs)[d].curDirty
      ensures more ==> curs[d].bulkDone == (curs[d].curSector == |st.devs[d].disk|)
      ensures more ==> curs[d].bulkDone || old(curs)[d].curSector < curs[d].curSector
      ensures prevProgress == Percent(CompletedSum(curs[..if more then d + 1 else d]), TotalSectors(st.devs))
      ensures var asked := submitted + readDone - old(submitted + readDone);
        && 0 <= asked <= 1 && (more && !curs[d].bulkDone ==> asked == 1)
    {
      hide Reached, OnWire, Next, Enabled, CompletedSum, TotalSectors, Percent;
      var sum, x := CompletedBefore();
      more, d := x < |curs|, x;
      if more {
        var finished := SaveDeviceBulk(x);
        if finished {
          curs := curs[x := curs[x].(bulkDone := true)];
        }
        assert curs[..x] == old(curs)[..x];
        CompletedSnoc(curs, x);
        sum := sum + curs[x].completed;
      }
      CompletedBound(curs, st.devs, if more then d + 1 else d);
      ReportProgress(sum);
    }

    /** The first device whose bulk phase is not finished, and the sectors
        completed on the devices before it. */
    method CompletedBefore() returns (sum: nat, d: nat)
      ensures d <= |curs| && sum == CompletedSum(curs[..d])
      ensures (forall x | 0 <= x < d :: curs[x].bulkDone) && (d < |curs| ==> !curs[d].bulkDone)
    {
      sum, d := 0, 0;
      while d < |curs| && curs[d].bulkDone
        invariant 0 <= d <= |curs| && sum == CompletedSum(curs[..d])
        invariant forall x | 0 <= x < d :: curs[x].bulkDone
      {
        CompletedSnoc(curs, d);
        sum := sum + curs[d].completed;
        d := d + 1;
      }
    }

    /** Puts the percentage of completed sectors on the stream if it has changed. */
    method ReportProgress(sum: nat)
      requires OnWire(stream, st.sent, names) && sum <= TotalSectors(st.devs)
      modifies `stream, `prevProgress
      ensures OnWire(stream, st.sent, names)
      ensures prevProgress == Percent(sum, TotalSectors(st.devs)) <= 100 && (sum == TotalSectors(st.devs) ==> prevProgress == 100)
      ensures stream == if prevProgress == old(prevProgress) then old(stream)
                        else old(stream) + [Mark(prevProgress * SECTOR_SIZE + FLAG_PROGRESS)]
    {
      hide OnWire, Percent, TotalSectors;
      PercentIsOne(sum, TotalSectors(st.devs));
      var progress := Percent(sum, TotalSectors(st.devs));
      if progress != prevProgress {
        prevProgress := progress;
        PutMark(progress * SECTOR_SIZE + FLAG_PROGRESS);
      }
    }

    /** Drains all requests if the in-flight bit of the chunk is set. */
    method WaitOutRead(d: nat, c: nat)
      requires Valid() && d < |st.devs|
      modifies `st, `trace, `submitted, `readDone
      ensures Valid() && OutsideFrame(old(st), st) && c !in st.devs[d].aio && old(trace) <= trace
      ensures submitted + readDone == old(submitted + readDone)
    {
      hide Reached, OnWire, Next, Enabled;
      if c in st.devs[d].aio {
        DrainAll();
        NothingInFlight(start, dst, trace, st);
      }
    }

    /** Requests chunk c if it is dirty, after waiting out a read of it. */
    method RequestIfDirty(d: nat, c: nat) returns (asked: bool)
      requires Valid() && d < |st.devs| && c * CHUNK < |st.devs[d].disk|
      modifies `st, `trace, `submitted, `readDone
      ensures Valid() && OutsideFrame(old(st), st)
      ensures submitted + readDone == old(submitted + readDone) + if asked then 1 else 0
      ensures !asked ==> c !in st.devs[d].dirty
      ensures old(trace) <= trace && (asked ==> |old(trace)| < |trace| && trace[|trace| - 1] == SubmitDirty(d, c))
    {
      hide Reached, OnWire, Next;
      WaitOutRead(d, c);
      asked := c in st.devs[d].dirty;
      if asked {
        SubmitDirtyStep(d, c);
      }
    }

    method MoveDirtyCursor(d: nat, sector: nat)
      requires Valid() && d < |curs| && sector % CHUNK == 0
      modifies `curs
      ensures Valid() && curs == old(curs)[d := old(curs)[d].(curDirty := sector)]
    {
      hide Reached, OnWire, Next, Enabled;
      curs := curs[d := curs[d].(curDirty := sector)];
    }

    /** mig_save_device_dirty with is_async set: from the dirty cursor on, finds
        the next dirty chunk, waits out a read of it, and requests it.  Every chunk
        passed over was clean at some moment of the call. */
    method SaveDeviceDirtyAsync(d: nat) returns (atEnd: bool)
      requires Valid() && d < |curs|
      modifies `st, `trace, `submitted, `readDone, `curs
      ensures Valid() && OutsideFrame(old(st), st) && old(trace) <= trace
      ensures |curs| == |old(curs)| && curs == old(curs)[d := old(curs)[d].(curDirty := curs[d].curDirty)]
      ensures atEnd <==> curs[d].curDirty >= |st.devs[d].disk|
      ensures submitted + readDone == old(submitted + readDone) + if atEnd then 0 else 1
      ensures old(curs)[d].curDirty <= curs[d].curDirty
      ensures ScannedClean(start, trace, |old(trace)|, d, old(curs)[d].curDirty, curs[d].curDirty)
      ensures !atEnd ==> |old(trace)| < |trace| && trace[|trace| - 1] == SubmitDirty(d, ChunkOf(curs[d].curDirty))
    {
      hide Reached, OnWire, Next, Enabled, SeenClean, ScannedClean;
      var total := |st.devs[d].disk|;
      var sector := curs[d].curDirty;
      ghost var from, lo := |trace|, sector;
      NoneScanned(start, trace, from, d, lo);
      while sector < total
        invariant Valid() && OutsideFrame(old(st), st) && old(trace) <= trace
        invariant |curs| == |old(curs)| && curs == old(curs)[d := old(curs)[d].(curDirty := sector)]
        invariant submitted + readDone == old(submitted + readDone)
        invariant sector % CHUNK == 0 && lo <= sector && ScannedClean(start, trace, from, d, lo, sector)
        decreases total - sector
      {
        ghost var before := trace;
        var asked := RequestIfDirty(d, ChunkOf(sector));
        ScannedLater(start, before, trace, from, from, d, lo, sector);
        if asked {
          return false;
        }
        SeenNow(start, dst, trace, st, from, d, ChunkOf(sector));
        ScannedMore(start, trace, from, d, lo, sector);
        sector := sector + CHUNK;
        MoveDirtyCursor(d, sector);
      }
      return true;
    }

    /** blk_mig_save_dirty_block with is_async set: requests a dirty chunk of device d,
        all devices before it being at their end; or all are.  Whatever is behind a
        cursor has been seen clean since the trace had `from` steps. */
    method SaveDirtyBlockAsync(ghost from: nat) returns (more: bool, ghost d: nat)
      requires Valid() && from <= |trace| && PassedClean(start, trace, from, curs)
      modifies `st, `trace, `submitted, `readDone, `curs
      ensures Valid() && OutsideFrame(old(st), st) && old(trace) <= trace && PassedClean(start, trace, from, curs)
      ensures |curs| == |old(curs)| && forall x | 0 <= x < |curs| :: curs[x] == old(curs)[x].(curDirty := curs[x].curDirty)
      ensures submitted + readDone == old(submitted + readDone) + if more then 1 else 0
      ensures d <= |curs| && (more <==> d < |curs|) && forall x | 0 <= x < d :: curs[x].curDirty >= |st.devs[x].disk|
      ensures more ==> |old(trace)| < |trace| && trace[|trace| - 1] == SubmitDirty(d, ChunkOf(curs[d].curDirty))
    {
      hide Reached, OnWire, Next, Enabled, ScannedClean, PassedClean;
      var i := 0;
      while i < |curs|
        invariant 0 <= i <= |curs| && Valid() && OutsideFrame(old(st), st) && old(trace) <= trace
        invariant |curs| == |old(curs)| && PassedClean(start, trace, from, curs)
        invariant forall x | 0 <= x < |curs| :: curs[x] == old(curs)[x].(curDirty := curs[x].curDirty)
        invariant submitted + readDone == old(submitted + readDone)
        invariant forall x | 0 <= x < i :: curs[x].curDirty >= |st.devs[x].disk|
      {
        ghost var was, before := curs, trace;
        var atEnd := SaveDeviceDirtyAsync(i);
        PassedOne(start, before, trace, from, was, curs, i);
        if !atEnd {
          return true, i;
        }
        i := i + 1;
      }
      return false, i;
    }

    lemma HeadIsRead()
      requires Valid() && st.queue != [] && st.queue[0].ok
      ensures var e := st.queue[0]; e.dev < |names| && e.n <= CHUNK && FullyRead(e)
    {
      hide Reached, OnWire, CursorsOk, BaseShared, Settled, FullyRead;
      ReachedInv(start, dst, trace, st);
      assert st.queue[0] in st.queue;
    }

    /** blk_send of the head of blk_list, which is then taken off the list. */
    method SendHead()
      requires Valid() && st.queue != [] && st.queue[0].ok
      modifies `st, `trace, `stream, `readDone, `transferred
      ensures Valid() && st == Next(old(st), FlushOne) && old(stream) < stream && trace == old(trace) + [FlushOne]
    {
      hide Reached, CursorsOk, FullyRead;
      HeadIsRead();
      var e := st.queue[0];
      ReachedStep(start, dst, trace, st, FlushOne);
      var m := BlockMessage(e, names[e.dev]);
      st, trace := Next(st, FlushOne), trace + [FlushOne];
      stream := stream + [m];
      assert stream[..|stream| - 1] == old(stream) && st.sent[..|st.sent| - 1] == old(st).sent;
      readDone, transferred := readDone - 1, transferred + 1;
    }

    /** flush_blks: sends queued blocks until the list is empty, the rate limit
        is reached (cutShort) or a block turns out to hold a failed read. */
    method FlushBlks() returns (cutShort: bool)
      requires Valid() && error == 0
      modifies `st, `trace, `stream, `readDone, `transferred, `error
      ensures Valid() && Flushed(old(st), st) && old(trace) <= trace
      ensures !cutShort && error == 0 ==> st.queue == []
      ensures error != 0 ==> error == -EIO && st.queue != [] && !st.queue[0].ok
      ensures cutShort ==> st.queue != [] && error == 0
    {
      hide Reached, OnWire, CursorsOk;
      assert st.queue[0..] == st.queue && st.sent + st.queue[..0] == st.sent;
      cutShort := false;
      while st.queue != []
        invariant Valid() && Flushed(old(st), st) && old(trace) <= trace && error == 0 && !cutShort
        decreases |st.queue|
      {
        var limited: bool := *;
        if limited {
          cutShort := true;
          break;
        }
        if !st.queue[0].ok {
          error := -EIO;
          break;
        }
        FlushedStep(old(st), st);
        SendHead();
      }
    }

    /** blk_mig_reset_dirty_cursor */
    method ResetDirtyCursors()
      requires Valid()
      modifies `curs
      ensures Valid() && |curs| == |old(curs)|
      ensures forall d | 0 <= d < |curs| :: curs[d] == old(curs)[d].(curDirty := 0)
    {
      hide Reached, OnWire, Next, Enabled;
      curs := seq(|curs|, d requires 0 <= d < |curs| reads this => curs[d].(curDirty := 0));
    }

    /** The bulk phase is over, and since the trace had `from` steps every chunk of every
        device has been seen clean. */
    ghost predicate NothingToAsk(from: nat)
      reads this
    {
      && bulkCompleted && |curs| == |st.devs| && PassedClean(start, trace, from, curs)
      && forall d | 0 <= d < |curs| :: curs[d].curDirty >= |st.devs[d].disk|
    }

    /** Where the outside world has been quiet, no dirty chunk is left. */
    lemma QuietIsClean(d: nat, c: nat)
      requires Valid() && NothingToAsk(|trace|) && d < |st.devs| && c * CHUNK < |st.devs[d].disk|
      ensures c !in st.devs[d].dirty
    {
      hide Reached, OnWire, SeenClean;
      assert ScannedClean(start, trace, |trace|, d, 0, curs[d].curDirty);
      SeenStill(start, dst, trace, st, d, c);
    }

    /** The transfer loop of block_save_iterate, entered with the dirty cursors at 0:
        keeps requesting blocks while fewer than `limit` bytes are outstanding. */
    method RequestUpTo(limit: nat)
      requires Valid() && Aligned() && forall d | 0 <= d < |curs| :: curs[d].curDirty == 0
      modifies `st, `trace, `submitted, `readDone, `curs, `prevProgress, `stream, `bulkCompleted
      ensures Valid() && Aligned() && st.sent == old(st).sent && old(st).queue <= st.queue && old(trace) <= trace
      ensures submitted + readDone >= old(submitted + readDone)
      ensures submitted + readDone == old(submitted + readDone) || (submitted + readDone - 1) * BLOCK_SIZE < limit
      ensures (submitted + readDone) * BLOCK_SIZE >= limit || NothingToAsk(|old(trace)|)
      ensures old(bulkCompleted) ==> bulkCompleted
    {
      hide Reached, OnWire, Next, Enabled, PassedClean, Percent, CompletedSum, TotalSectors;
      ghost var from := |trace|;
      NonePassed(start, trace, from, curs);
      while (submitted + readDone) * BLOCK_SIZE < limit
        invariant Valid() && Aligned() && st.sent == old(st).sent && old(st).queue <= st.queue
        invariant old(trace) <= trace && PassedClean(start, trace, from, curs)
        invariant submitted + readDone >= old(submitted + readDone)
        invariant submitted + readDone == old(submitted + readDone) || (submitted + readDone - 1) * BLOCK_SIZE < limit
        invariant old(bulkCompleted) ==> bulkCompleted
        decreases limit - (submitted + readDone) * BLOCK_SIZE, Unfinished(curs), !bulkCompleted
      {
        ghost var was, before := curs, trace;
        if !bulkCompleted {
          var more;
          ghost var d;
          more, d := SaveBulkedBlock();
          PassedLater(start, before, trace, from, from, was, curs);
          if more { UnfinishedStep(was, curs, d); }
          if !more {
            bulkCompleted := true;
          }
        } else {
          var more;
          ghost var d;
          more, d := SaveDirtyBlockAsync(from);
          if !more {
            break;
          }
        }
      }
    }

    /** block_save_iterate.  A return of 1 lets the caller go on to completion;
        whether the remaining work fits the allowed downtime is up to the
        bandwidth estimate, but the bulk phase is over in any case.  `asked` is what
        was outstanding when the transfer loop ended.  It fails only on a queued
        block whose read has failed. */
    method SaveIterate(limit: nat) returns (ret: int, ghost asked: int)
      requires Valid() && Aligned() && error == 0
      modifies this
      ensures Valid() && Aligned() && old(trace) <= trace && (ret == 0 || ret == 1 || ret == -EIO)
      ensures ret == 1 ==> bulkCompleted
      ensures ret < 0 ==> error == ret && st.queue != [] && !st.queue[0].ok
      ensures ret >= 0 ==> error == 0 && (asked * BLOCK_SIZE >= limit || NothingToAsk(|old(trace)|))
      ensures ret >= 0 ==> submitted + readDone <= asked <= submitted + readDone + transferred - old(transferred)
      ensures ret >= 0 ==> stream != [] && stream[|stream| - 1] == Mark(FLAG_EOS)
      ensures start == old(start) && dst == old(dst)
    {
      hide Reached, OnWire, Next, Enabled, PassedClean;
      var cut := FlushBlks();
      asked := 0;
      if error != 0 {
        return error, asked;
      }
      ResetDirtyCursors();
      ghost var from := |trace|;
      RequestUpTo(limit);
      asked := submitted + readDone;
      ghost var before := trace;
      cut := FlushBlks();
      if error != 0 {
        return error, asked;
      }
      if asked * BLOCK_SIZE < limit { PassedLater(start, before, trace, from, |old(trace)|, curs, curs); }
      PutMark(FLAG_EOS);
      var fits: bool := *;
      ret := if bulkCompleted && fits then 1 else 0;
    }

    /** bdrv_read and blk_send of one dirty chunk, then bdrv_reset_dirty. */
    method SendDirtyNow(d: nat, c: nat, ghost st0: State)
      requires Syncing(st0, st) && OnWire(stream, st.sent, names) && |names| == |st.devs|
      requires d < |st.devs| && c * CHUNK < |st.devs[d].disk| && c in st.devs[d].dirty
      modifies `st, `stream
      ensures Syncing(st0, st) && OnWire(stream, st.sent, names)
      ensures DirtyTotal(st.devs) < DirtyTotal(old(st).devs)
      ensures st.devs == old(st).devs[d := old(st).devs[d].(dirty := old(st).devs[d].dirty - {c})]
    {
      var dev := st.devs[d];
      var e := ReadEntry(d, dev.disk, c);
      var m := BlockMessage(e, names[d]);
      SyncingStep(st0, st, d, c);
      DirtyTotalStep(st.devs, d, c);
      st := st.(sent := st.sent + [e], devs := st.devs[d := dev.(dirty := dev.dirty - {c})]);
      stream := stream + [m];
      assert stream[..|stream| - 1] == old(stream) && st.sent[..|st.sent| - 1] == old(st).sent;
    }

    /** mig_save_device_dirty with is_async clear.  Each bdrv_read that fails
        uses up one of the faults still to come; it reports an error on the
        stream and leaves the chunk dirty, and the device is not at its end. */
    method SaveDeviceDirtySync(d: nat, ghost st0: State) returns (atEnd: bool)
      requires Syncing(st0, st) && OnWire(stream, st.sent, names) && |names| == |curs| == |st.devs| && d < |curs|
      requires CleanBehind(curs, st.devs)
      modifies `st, `stream, `curs, `faults, `error
      ensures Syncing(st0, st) && OnWire(stream, st.sent, names) && |curs| == |old(curs)| && CleanBehind(curs, st.devs)
      ensures forall x | 0 <= x < |curs| && x != d :: curs[x] == old(curs)[x]
      ensures atEnd <==> curs[d].curDirty >= |st.devs[d].disk|
      ensures atEnd ==> st == old(st) && faults == old(faults) && error == old(error)
      ensures !atEnd && faults == old(faults) ==> DirtyTotal(st.devs) < DirtyTotal(old(st).devs) && error == old(error)
      ensures faults != old(faults) ==> !atEnd && faults == old(faults) - 1 && error != 0 && st == old(st)
    {
      hide Syncing, OnWire, DirtyTotal;
      var total := |st.devs[d].disk|;
      var sector := curs[d].curDirty;
      while sector < total
        invariant st == old(st) && faults == old(faults) && error == old(error) && stream == old(stream)
        invariant |curs| == |old(curs)| && curs == old(curs)[d := old(curs)[d].(curDirty := sector)]
        invariant CleanBehind(curs, st.devs)
        decreases total - sector
      {
        if ChunkOf(sector) in st.devs[d].dirty {
          var fails: bool := *;
          if fails && faults > 0 {
            faults, error := faults - 1, -EIO;
            return false;
          }
          SendDirtyNow(d, ChunkOf(sector), st0);
          return false;
        }
        sector := sector + CHUNK;
        curs := curs[d := curs[d].(curDirty := sector)];
      }
      return true;
    }

    /** blk_mig_save_dirty_block with is_async clear. */
    method SaveDirtyBlockSync(ghost st0: State) returns (more: bool)
      requires Syncing(st0, st) && OnWire(stream, st.sent, names) && |names| == |curs| == |st.devs|
      requires CleanBehind(curs, st.devs)
      modifies `st, `stream, `curs, `faults, `error
      ensures Syncing(st0, st) && OnWire(stream, st.sent, names) && |curs| == |old(curs)| && CleanBehind(curs, st.devs)
      ensures more && faults == old(faults) ==> DirtyTotal(st.devs) < DirtyTotal(old(st).devs) && error == old(error)
      ensures faults != old(faults) ==> more && faults == old(faults) - 1 && error != 0 && st == old(st)
      ensures !more ==> st == old(st) && error == old(error)
      ensures !more ==> forall d | 0 <= d < |curs| :: curs[d].curDirty >= |st.devs[d].disk|
    {
      hide Syncing, OnWire, DirtyTotal;
      var d := 0;
      while d < |curs|
        invariant 0 <= d <= |curs| && |curs| == |old(curs)|
        invariant st == old(st) && faults == old(faults) && error == old(error) && OnWire(stream, st.sent, names)
        invariant CleanBehind(curs, st.devs) && forall x | 0 <= x < d :: curs[x].curDirty >= |st.devs[x].disk|
      {
        var atEnd := SaveDeviceDirtySync(d, st0);
        if !atEnd {
          return true;
        }
        d := d + 1;
      }
      return false;
    }

    /** The loop of block_save_complete that sends the remaining dirty chunks.
        It ends because a turn either sends a chunk or meets a failing read. */
    method SendRemaining(ghost st0: State)
      requires st == st0 && OnWire(stream, st.sent, names) && |names| == |curs| == |st.devs|
      requires forall d | 0 <= d < |curs| :: curs[d].curDirty == 0
      modifies `st, `stream, `curs, `faults, `error
      ensures Syncing(st0, st) && OnWire(stream, st.sent, names)
      ensures DirtyCopies(st0.devs, st.sent[|st0.sent|..])
      ensures error == 0 ==> faults == old(faults)
      ensures faults == old(faults) ==> error == old(error)
      ensures faults <= old(faults)
      ensures forall d, c | 0 <= d < |st.devs| && c in st.devs[d].dirty :: c * CHUNK >= |st.devs[d].disk|
    {
      var more := true;
      while more
        invariant Syncing(st0, st) && OnWire(stream, st.sent, names) && |curs| == |st.devs| && CleanBehind(curs, st.devs)
        invariant error == 0 ==> faults == old(faults)
        invariant faults <= old(faults) && (faults == old(faults) ==> error == old(error))
        invariant !more ==> forall d | 0 <= d < |curs| :: curs[d].curDirty >= |st.devs[d].disk|
        decreases faults, DirtyTotal(st.devs), more
      {
        more := SaveDirtyBlockSync(st0);
      }
    }

    /** block_save_complete after its flush has left the state st0. */
    method CompleteAfterFlush(ghost st0: State) returns (ret: int)
      requires Valid() && st == st0 && error == 0 && st.stopped && st.reading == []
      modifies `st, `stream, `curs, `faults, `error
      ensures SameDisks(st0.devs, st.devs)
      ensures |dst| == |st.devs| && forall d | 0 <= d < |st.devs| :: |dst[d]| == |st.devs[d].disk|
      ensures ret == 0 ==> (Converged(st.devs, dst, st.sent) <==>
                LossHarmless(st0.devs, dst, st0.sent, st0.queue) && BeyondHarmless(st0.devs, dst, st0.sent))
      ensures st0.sent <= st.sent && DirtyCopies(st0.devs, st.sent[|st0.sent|..])
      ensures ret == 0 ==> OnWire(stream, st.sent, names) && EntriesOk(dst, st.sent)
      ensures ret == 0 <==> faults == old(faults)
      ensures faults <= old(faults) && ret == error
      ensures ret == 0 ==> stream != [] && stream[|stream| - 1] == Mark(FLAG_EOS)
    {
      hide Reached, OnWire, Converged, LossHarmless, BeyondHarmless, DirtyCopies;
      ReachedSizes(start, dst, trace, st);
      ResetDirtyCursors();
      assert submitted == 0;
      SendRemaining(st0);
      CompletedRun(start, dst, trace, st0, st);
      st := st.(queue := [], reading := []);  // blk_mig_cleanup
      PutMark(100 * SECTOR_SIZE + FLAG_PROGRESS);
      ret := error;
      if error == 0 {
        PutMark(FLAG_EOS);
      }
    }

    /** block_save_complete, called with the guest stopped and all requests
        drained.  `flushed` is the state after its only flush; what is still queued
        then is discarded.

        On success the destination converges exactly when neither the discarded
        blocks nor the sectors beyond the bulk cursor hold anything that it lacks;
        if the bulk phase is over and the flush was not cut short by the rate limit,
        it converges.  It succeeds if no read has failed and none fails. */
    method SaveComplete() returns (ret: int, cutShort: bool, ghost flushed: State)
      requires Valid() && error == 0 && st.stopped && st.reading == []
      modifies this
      ensures start == old(start) && dst == old(dst) && Flushed(old(st), flushed)
      ensures |dst| == |st.devs| && SameDisks(flushed.devs, st.devs)
      ensures forall d | 0 <= d < |st.devs| :: |dst[d]| == |st.devs[d].disk|
      ensures ret == 0 ==> (Converged(st.devs, dst, st.sent) <==>
                LossHarmless(flushed.devs, dst, flushed.sent, flushed.queue) && BeyondHarmless(flushed.devs, dst, flushed.sent))
      ensures ret == 0 && !cutShort && old(bulkCompleted) ==> Converged(st.devs, dst, st.sent)
      ensures ret == 0 ==> (cutShort <==> flushed.queue != [])
      ensures ret == 0 ==> flushed.sent <= st.sent && DirtyCopies(flushed.devs, st.sent[|flushed.sent|..])
      ensures ret == 0 ==> OnWire(stream, st.sent, names) && EntriesOk(dst, st.sent)
      ensures ret == 0 ==> stream != [] && stream[|stream| - 1] == Mark(FLAG_EOS)
      ensures ret == 0 ==> faults == old(faults)
      ensures (forall e | e in old(st).queue :: e.ok) && old(faults) == 0 ==> ret == 0
    {
      hide Reached, OnWire, Next, Enabled, DirtyCopies;
      cutShort := FlushBlks();
      flushed := st;
      ReachedSizes(start, dst, trace, st);
      if error != 0 {
        assert st.queue[0] in old(st).queue;
        return error, cutShort, flushed;
      }
      ret := CompleteAfterFlush(flushed);
    }
  }

  /** Disk migration converges: the sender completes, and the destination loads what it
      has put on the stream, section by section.  It then has exactly the source's
      disks if and only if completion lost nothing that it lacks, in particular if
      the bulk phase was over and the flush not cut short. */
  method Transfer(s: BlkMig, r: Receiver) returns (ret: int, cutShort: bool, loaded: int, ghost flushed: State)
    requires s.Valid() && s.error == 0 && s.st.stopped && s.st.reading == []
    requires Distinct(s.names) && Matches(r.disks, s.names, s.dst) && Writable(r.script, |r.script|)
    modifies s, r
    ensures |s.names| == |s.st.devs| == |s.dst| == |flushed.devs|
    ensures forall d | 0 <= d < |s.dst| :: |s.dst[d]| == |s.st.devs[d].disk| == |flushed.devs[d].disk|
    ensures (forall e | e in old(s.st).queue :: e.ok) && old(s.faults) == 0 ==> ret == 0
    ensures ret == 0 ==> loaded == 0
    ensures ret == 0 ==> (SameAsSource(r.disks, s.names, s.st.devs) <==>
              LossHarmless(flushed.devs, s.dst, flushed.sent, flushed.queue) && BeyondHarmless(flushed.devs, s.dst, flushed.sent))
    ensures ret == 0 && !cutShort && old(s.bulkCompleted) ==> SameAsSource(r.disks, s.names, s.st.devs)
    ensures ret == 0 ==> (cutShort <==> flushed.queue != []) && Flushed(old(s.st), flushed)
  {
    hide Reached, OnWire, EntriesOk, Converged, LossHarmless, BeyondHarmless, DirtyCopies, Load, Holds, SameAsSource, CursorsOk;
    loaded := 0;
    ret, cutShort, flushed := s.SaveComplete();
    if ret == 0 {
      LoadReceives(r.disks, s.stream, s.st.sent, s.names, s.dst);
      loaded := Incoming(r, s.stream);
      HoldsConverged(r.disks, s.names, s.dst, s.st.sent, s.st.devs);
    }
  }
}
