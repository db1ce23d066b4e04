/** Tracked requests and copy-on-read in the block layer, as a step system.

    Every request is a coroutine; a step is what it does between two yields.
    The image is an abstract sector store `top` over a backing image: a sector
    is allocated when `top` holds it, and is read from the backing image
    otherwise.  A copy-on-read request reads whole clusters into a bounce
    buffer and writes them back to the image; guest requests that would
    interfere must wait for it, and it for them. */
module CopyOnRead {
  import opened Multiples

  type Value = int
  const ZERO: Value := 0

  datatype Kind = GuestRead | CopyRead | GuestWrite

  /** Waiting in wait_for_overlapping_requests; Active with ordinary driver
      I/O; Checking the allocation status; Copying into the bounce buffer;
      Storing the bounce buffer; Done. */
  datatype Phase = Waiting | Active | Checking | Copying | Storing(zeroes: bool) | Done

  /** A request for [first, first+n).  `got` is what it has read so far; for a
      copying request this is the bounce buffer; `stored` is what it has written. */
  datatype Req = Req(kind: Kind, first: nat, n: nat, phase: Phase, got: map<nat, Value>, stored: set<nat>)

  datatype State = State(
    cluster: nat,
    total: nat,
    backing: map<nat, Value>,
    top: map<nat, Value>,
    reqs: seq<Req>,
    inFlight: int)

  datatype Step =
    | Enter(kind: Kind, first: nat, n: nat)
    | Begin(i: nat)
    | Check(i: nat, allSet: bool)
    | ReadSector(i: nat, s: nat)
    | WriteSector(i: nat, s: nat, v: Value)
    | FillSector(i: nat, s: nat)
    | StartStore(i: nat, zeroes: bool)
    | StoreSector(i: nat, s: nat)
    | End(i: nat, ok: bool)

  // ------------------------------------------------------------- the ranges

  /** round_to_clusters: the first sector and the length of the rounded range;
      a cluster size of 0 stands for a driver that does not report one. */
  function Rounded(c: nat, first: nat, n: nat): (nat, nat) {
    if c == 0 then (first, n)
    else
      var lo := AlignDown(first, c);
      (lo, AlignUp(first - lo + n, c))
  }

  /** tracked_request_overlaps */
  predicate Overlaps(a: nat, an: nat, b: nat, bn: nat) {
    if b >= a + an then false
    else if a >= b + bn then false
    else true
  }

  predicate InRounded(c: nat, r: Req, s: nat) {
    var (lo, len) := Rounded(c, r.first, r.n);
    lo <= s < lo + len
  }

  predicate InRange(r: Req, s: nat) { r.first <= s < r.first + r.n }

  /** In the list of tracked requests. */
  predicate Tracked(r: Req) { !r.phase.Waiting? && !r.phase.Done? }

  /** The rounded range of a does not touch the recorded range of b. */
  predicate Clear(c: nat, a: Req, b: Req) {
    var (lo, len) := Rounded(c, a.first, a.n);
    !Overlaps(b.first, b.n, lo, len)
  }

  function Visible(st: State, s: nat): Value {
    if s in st.top then st.top[s] else if s in st.backing then st.backing[s] else ZERO
  }

  // ------------------------------------------------------------------ steps

  ghost predicate Enabled(st: State, step: Step) {
    match step
    case Enter(_, first, n) => first + n <= st.total
    case Begin(i) =>
      i < |st.reqs| && st.reqs[i].phase.Waiting? &&
      forall j | 0 <= j < |st.reqs| && Tracked(st.reqs[j]) :: Clear(st.cluster, st.reqs[i], st.reqs[j])
    case Check(i, allSet) =>
      i < |st.reqs| && st.reqs[i].phase.Checking? &&
      (allSet ==> forall s | InRange(st.reqs[i], s) :: s in st.top)
    case ReadSector(i, s) =>
      i < |st.reqs| &&
      (|| (st.reqs[i].phase.Active? && !st.reqs[i].kind.GuestWrite? && InRange(st.reqs[i], s))
       || (st.reqs[i].phase.Copying? && InRounded(st.cluster, st.reqs[i], s)))
    case WriteSector(i, s, _) =>
      i < |st.reqs| && st.reqs[i].phase.Active? && st.reqs[i].kind.GuestWrite? && InRange(st.reqs[i], s)
    case FillSector(i, s) =>
      i < |st.reqs| && st.reqs[i].phase.Active? && st.reqs[i].kind.GuestWrite? &&
      InRounded(st.cluster, st.reqs[i], s) && s !in st.top
    case StartStore(i, zeroes) =>
      i < |st.reqs| && st.reqs[i].phase.Copying? &&
      (forall s | InRounded(st.cluster, st.reqs[i], s) :: s in st.reqs[i].got && (zeroes ==> st.reqs[i].got[s] == ZERO))
    case StoreSector(i, s) =>
      i < |st.reqs| && st.reqs[i].phase.Storing? && InRounded(st.cluster, st.reqs[i], s) && s in st.reqs[i].got
    case End(i, ok) =>
      i < |st.reqs| && Tracked(st.reqs[i]) &&
      (ok ==>
        match st.reqs[i].phase
        case Active =>
          if st.reqs[i].kind.GuestWrite? then forall s | InRange(st.reqs[i], s) :: s in st.reqs[i].stored
          else forall s | InRange(st.reqs[i], s) :: s in st.reqs[i].got
        case Storing(_) => forall s | InRounded(st.cluster, st.reqs[i], s) :: s in st.reqs[i].stored
        case _ => false)
  }

  function SetReq(st: State, i: nat, r: Req): State
    requires i < |st.reqs|
  {
    st.(reqs := st.reqs[i := r])
  }

  /** Where a request goes once it is tracked. */
  function FirstPhase(kind: Kind): Phase { if kind.CopyRead? then Checking else Active }

  /** A new request: a copy-on-read request counts itself in flight first, and
      any request waits for overlapping ones while that count is positive. */
  function Next(st: State, step: Step): State
    requires Enabled(st, step)
  {
    match step
    case Enter(kind, first, n) =>
      var inFlight := st.inFlight + if kind.CopyRead? then 1 else 0;
      var phase := if inFlight > 0 then Waiting else FirstPhase(kind);
      st.(reqs := st.reqs + [Req(kind, first, n, phase, map[], {})], inFlight := inFlight)
    case Begin(i) =>
      SetReq(st, i, st.reqs[i].(phase := FirstPhase(st.reqs[i].kind)))
    case Check(i, allSet) =>
      SetReq(st, i, st.reqs[i].(phase := if allSet then Active else Copying))
    case ReadSector(i, s) =>
      SetReq(st, i, st.reqs[i].(got := st.reqs[i].got[s := Visible(st, s)]))
    case WriteSector(i, s, v) =>
      SetReq(st, i, st.reqs[i].(stored := st.reqs[i].stored + {s})).(top := st.top[s := v])
    case FillSector(i, s) =>
      st.(top := st.top[s := Visible(st, s)])
    case StartStore(i, zeroes) =>
      SetReq(st, i, st.reqs[i].(phase := Storing(zeroes)))
    case StoreSector(i, s) =>
      var r := st.reqs[i];
      SetReq(st, i, r.(stored := r.stored + {s})).(top := st.top[s := if r.phase.zeroes then ZERO else r.got[s]])
    case End(i, ok) =>
      SetReq(st, i, st.reqs[i].(phase := Done)).(inFlight := st.inFlight - if st.reqs[i].kind.CopyRead? then 1 else 0)
  }

  ghost predicate IsRun(st: State, steps: seq<Step>)
    decreases |steps|
  {
    steps == [] || (Enabled(st, steps[0]) && IsRun(Next(st, steps[0]), steps[1..]))
  }

  function Run(st: State, steps: seq<Step>): State
    requires IsRun(st, steps)
    decreases |steps|
  {
    if steps == [] then st else Run(Next(st, steps[0]), steps[1..])
  }

  // ----------------------------------------------------- rounding and overlap

  /** A multiple of c at or below b is at or below b rounded down. */
  lemma BelowRounded(c: nat, k: nat, b: nat)
    requires c > 0 && k * c <= b
    ensures k * c <= AlignDown(b, c)
  {
    if k * c > b / c * c {
      MulOrder(b / c, k, c);
      assert (b / c + 1) * c <= k * c by { assert (k - b / c - 1) * c >= 0; }
    }
  }

  /** A multiple of c at or above the end of a range is at or above the end of
      the rounded range. */
  lemma AboveRounded(c: nat, k: nat, b: nat, bn: nat)
    requires c > 0 && b + bn <= k * c
    ensures AlignDown(b, c) + AlignUp(b - AlignDown(b, c) + bn, c) <= k * c
  {
    var q := b / c;
    var x := b - q * c + bn;
    var m := (x + c - 1) / c;
    MultipleAbove(c, k - q, x, m) by {
      assert (k - q) * c == k * c - q * c;
    }
    assert (q + m) * c == q * c + m * c;
    assert (k - q - m) * c == k * c - (q + m) * c;
  }

  /** The least multiple of c at or above x is at most any other one. */
  lemma MultipleAbove(c: nat, k: int, x: nat, m: nat)
    requires c > 0 && x <= k * c && m == (x + c - 1) / c
    ensures m <= k && (k - m) * c >= 0
  {
    assert m * c <= x + c - 1;
    assert (k + 1) * c == k * c + c;
    MulOrder(m, k + 1, c);
  }

  /** The end of a rounded range is a multiple of c. */
  lemma EndIsMultiple(c: nat, a: nat, an: nat) returns (k: nat)
    requires c > 0
    ensures AlignDown(a, c) + AlignUp(a - AlignDown(a, c) + an, c) == k * c
  {
    var lo := AlignDown(a, c);
    var m := (a - lo + an + c - 1) / c;
    k := a / c + m;
    assert (a / c + m) * c == a / c * c + m * c;
  }

  /** Testing the rounded range of a request against the recorded range of
      another is the same as testing both rounded ranges. */
  lemma OverlapRounded(c: nat, a: nat, an: nat, b: nat, bn: nat)
    ensures var (lo, len) := Rounded(c, a, an);
            var (blo, blen) := Rounded(c, b, bn);
            Overlaps(b, bn, lo, len) <==> Overlaps(blo, blen, lo, len)
  {
    hide AlignDown, AlignUp;
    if c > 0 {
      var lo := AlignDown(a, c);
      var end := lo + AlignUp(a - lo + an, c);
      var k := EndIsMultiple(c, a, an);
      if end <= b { BelowRounded(c, k, b); }
      LowIsMultiple(c, a);
      if b + bn <= lo { AboveRounded(c, a / c, b, bn); }
    }
  }

  lemma LowIsMultiple(c: nat, a: nat)
    requires c > 0
    ensures AlignDown(a, c) == a / c * c
  {
  }

  // -------------------------------------------------------------- exclusion

  /** The rounded ranges of two requests do not overlap. */
  predicate Apart(c: nat, a: Req, b: Req) {
    var (lo, len) := Rounded(c, a.first, a.n);
    var (blo, blen) := Rounded(c, b.first, b.n);
    !Overlaps(blo, blen, lo, len)
  }

  ghost predicate Excluded(c: nat, reqs: seq<Req>) {
    forall i, j | 0 <= i < |reqs| && 0 <= j < |reqs| && i != j &&
        Tracked(reqs[i]) && Tracked(reqs[j]) && (reqs[i].kind.CopyRead? || reqs[j].kind.CopyRead?) ::
      Apart(c, reqs[i], reqs[j])
  }

  /** How many copy-on-read requests have entered and not ended. */
  function CopyReads(reqs: seq<Req>): nat {
    if reqs == [] then 0
    else (if reqs[|reqs| - 1].kind.CopyRead? && !reqs[|reqs| - 1].phase.Done? then 1 else 0) + CopyReads(reqs[..|reqs| - 1])
  }

  lemma {:induction false} CopyReadsUpdate(reqs: seq<Req>, i: nat, r: Req)
    requires i < |reqs| && r.kind == reqs[i].kind
    ensures CopyReads(reqs[i := r]) == CopyReads(reqs)
      + (if r.kind.CopyRead? && !r.phase.Done? then 1 else 0)
      - (if r.kind.CopyRead? && !reqs[i].phase.Done? then 1 else 0)
    decreases |reqs|
  {
    var n := |reqs| - 1;
    if i == n {
      assert reqs[i := r][..n] == reqs[..n];
    } else {
      assert reqs[i := r][..n] == reqs[..n][i := r];
      CopyReadsUpdate(reqs[..n], i, r);
    }
  }

  lemma {:induction false} SomeCopyRead(reqs: seq<Req>, i: nat)
    requires i < |reqs| && reqs[i].kind.CopyRead? && !reqs[i].phase.Done?
    ensures CopyReads(reqs) > 0
    decreases |reqs|
  {
    if i < |reqs| - 1 {
      assert reqs[..|reqs| - 1][i] == reqs[i];
      SomeCopyRead(reqs[..|reqs| - 1], i);
    }
  }

  /** A request whose rounded range is clear of the recorded range of another
      is apart from it, in either order. */
  lemma ClearIsApart(c: nat, a: Req, b: Req)
    ensures Clear(c, a, b) <==> Apart(c, a, b)
    ensures Apart(c, a, b) <==> Apart(c, b, a)
  {
    OverlapRounded(c, a.first, a.n, b.first, b.n);
  }

  /** What holds of a copying request: its bounce buffer stays inside the
      rounded range and equals what the guest sees there. */
  ghost predicate BounceOk(st: State, r: Req) {
    r.phase.Copying? || r.phase.Storing? ==>
      && r.kind.CopyRead?
      && (forall s | s in r.got :: InRounded(st.cluster, r, s) && r.got[s] == Visible(st, s))
      && (r.phase.Storing? && r.phase.zeroes ==> forall s | s in r.got :: r.got[s] == ZERO)
      && (r.phase.Storing? ==> forall s | InRounded(st.cluster, r, s) :: s in r.got)
      && (forall s | s in r.stored :: s in st.top)
  }

  /** The type of a request decides the phases it can be in. */
  predicate PhaseOk(r: Req) {
    && (r.phase.Waiting? || r.phase.Checking? ==> r.got == map[] && r.stored == {})
    && (r.phase.Checking? ==> r.kind.CopyRead?)
  }

  ghost predicate Inv(st: State) {
    && st.inFlight == CopyReads(st.reqs)
    && Excluded(st.cluster, st.reqs)
    && (forall i | 0 <= i < |st.reqs| :: PhaseOk(st.reqs[i]) && BounceOk(st, st.reqs[i]))
  }

  lemma EnterKeepsCount(st: State, step: Step)
    requires step.Enter? && st.inFlight == CopyReads(st.reqs) && Enabled(st, step)
    ensures Next(st, step).inFlight == CopyReads(Next(st, step).reqs)
  {
    assert Next(st, step).reqs[..|st.reqs|] == st.reqs;
  }

  /** A step of a request changes that request alone, never its kind or range, and
      ends it only with End. */
  lemma StepOfOne(st: State, step: Step)
    requires !step.Enter? && Enabled(st, step)
    ensures step.i < |st.reqs| && |Next(st, step).reqs| == |st.reqs|
    ensures var r, r' := st.reqs[step.i], Next(st, step).reqs[step.i];
      && Next(st, step).reqs == st.reqs[step.i := r']
      && r'.kind == r.kind && r'.first == r.first && r'.n == r.n
      && (step.End? ==> Tracked(r) && r'.phase.Done?) && (!step.End? ==> (r'.phase.Done? <==> r.phase.Done?))
      && Next(st, step).inFlight == st.inFlight - if step.End? && r.kind.CopyRead? then 1 else 0
  {
    hide InRange, InRounded, Clear, Visible;
  }

  lemma StepKeepsCount(st: State, step: Step)
    requires st.inFlight == CopyReads(st.reqs) && Enabled(st, step)
    ensures Next(st, step).inFlight == CopyReads(Next(st, step).reqs)
  {
    hide Next, Enabled, CopyReads;
    if step.Enter? {
      EnterKeepsCount(st, step);
    } else {
      StepOfOne(st, step);
      CopyReadsUpdate(st.reqs, step.i, Next(st, step).reqs[step.i]);
    }
  }

  lemma StepKeepsExclusion(st: State, step: Step)
    requires Inv(st) && Enabled(st, step)
    ensures Excluded(st.cluster, Next(st, step).reqs)
  {
    hide Rounded, Overlaps, BounceOk, PhaseOk, Visible;
    var reqs, reqs' := st.reqs, Next(st, step).reqs;
    forall i, j | 0 <= i < |reqs'| && 0 <= j < |reqs'| && i != j &&
        Tracked(reqs'[i]) && Tracked(reqs'[j]) && (reqs'[i].kind.CopyRead? || reqs'[j].kind.CopyRead?)
      ensures Apart(st.cluster, reqs'[i], reqs'[j])
    {
      if i < |reqs| && j < |reqs| && Tracked(reqs[i]) && Tracked(reqs[j]) {
        assert Apart(st.cluster, reqs[i], reqs[j]);
      } else if step.Begin? {
        ClearIsApart(st.cluster, reqs[i], reqs[j]);
        ClearIsApart(st.cluster, reqs[j], reqs[i]);
      } else {
        // a request that starts untracked cannot meet a copy-on-read request
        assert step.Enter?;
        SomeCopyRead(reqs, if i < |reqs| then i else j);
        assert false;
      }
    }
  }

  /** Only a guest write changes what the guest sees, and only where it writes. */
  lemma StepVisible(st: State, step: Step, s: nat)
    requires Inv(st) && Enabled(st, step)
    ensures Visible(Next(st, step), s) == if step.WriteSector? && step.s == s then step.v else Visible(st, s)
  {
    if step.StoreSector? {
      assert BounceOk(st, st.reqs[step.i]);
    }
  }

  lemma InRangeInRounded(c: nat, r: Req, s: nat)
    requires InRange(r, s)
    ensures InRounded(c, r, s)
  {
  }

  lemma ApartDisjoint(c: nat, a: Req, b: Req, s: nat)
    requires Apart(c, a, b) && InRounded(c, b, s)
    ensures !InRounded(c, a, s)
  {
  }

  lemma StepKeepsBounce(st: State, step: Step, k: nat)
    requires Inv(st) && Enabled(st, step) && k < |Next(st, step).reqs|
    ensures BounceOk(Next(st, step), Next(st, step).reqs[k])
  {
    hide Rounded, Overlaps, Apart, CopyReads, Visible;
    var st' := Next(st, step);
    var r' := st'.reqs[k];
    if k < |st.reqs| && (r'.phase.Copying? || r'.phase.Storing?) {
      var r := st.reqs[k];
      assert BounceOk(st, r) && PhaseOk(r);
      forall s | s in r'.got ensures InRounded(st.cluster, r', s) && r'.got[s] == Visible(st', s) {
        StepVisible(st, step, s);
        if step.WriteSector? {
          assert Apart(st.cluster, r, st.reqs[step.i]);
          InRangeInRounded(st.cluster, st.reqs[step.i], step.s);
          ApartDisjoint(st.cluster, r, st.reqs[step.i], step.s);
        }
      }
    }
  }

  lemma StepKeepsInv(st: State, step: Step)
    requires Inv(st) && Enabled(st, step)
    ensures Inv(Next(st, step))
  {
    hide Rounded, Excluded, BounceOk, CopyReads, Visible;
    StepKeepsCount(st, step);
    StepKeepsExclusion(st, step);
    forall k | 0 <= k < |Next(st, step).reqs|
      ensures PhaseOk(Next(st, step).reqs[k]) && BounceOk(Next(st, step), Next(st, step).reqs[k])
    {
      assert k < |st.reqs| ==> PhaseOk(st.reqs[k]);
      StepKeepsBounce(st, step, k);
    }
  }

  predicate Initial(st: State) { st.reqs == [] && st.inFlight == 0 }

  lemma {:induction false} RunKeepsInv(st: State, steps: seq<Step>)
    requires Inv(st) && IsRun(st, steps)
    ensures Inv(Run(st, steps))
    decreases |steps|
  {
    if steps != [] {
      StepKeepsInv(st, steps[0]);
      RunKeepsInv(Next(st, steps[0]), steps[1..]);
    }
  }

  // ---------------------------------------------------------- main results

  /** The value of sector s after the guest's writes alone. */
  function GuestWrites(steps: seq<Step>, v: Value, s: nat): Value
    decreases |steps|
  {
    if steps == [] then v
    else GuestWrites(steps[1..], if steps[0].WriteSector? && steps[0].s == s then steps[0].v else v, s)
  }

  /** Copy-on-read is invisible: in every interleaving the disk the guest sees
      is the one its own writes alone would have produced. */
  lemma {:induction false} CopyOnReadInvisible(st: State, steps: seq<Step>, s: nat)
    requires Inv(st) && IsRun(st, steps)
    ensures Visible(Run(st, steps), s) == GuestWrites(steps, Visible(st, s), s)
    decreases |steps|
  {
    if steps != [] {
      StepVisible(st, steps[0], s);
      StepKeepsInv(st, steps[0]);
      CopyOnReadInvisible(Next(st, steps[0]), steps[1..], s);
    }
  }

  /** Two distinct tracked requests, one of them copy-on-read, never touch the
      same cluster, and the in-flight count is the number of copy-on-read
      requests under way. */
  lemma TrackedExclusion(st: State, steps: seq<Step>, i: nat, j: nat, s: nat)
    requires Initial(st) && IsRun(st, steps)
    requires i < |Run(st, steps).reqs| && j < |Run(st, steps).reqs| && i != j
    requires Tracked(Run(st, steps).reqs[i]) && Tracked(Run(st, steps).reqs[j]) && Run(st, steps).reqs[i].kind.CopyRead?
    ensures !(InRounded(st.cluster, Run(st, steps).reqs[i], s) && InRounded(st.cluster, Run(st, steps).reqs[j], s))
    ensures Run(st, steps).inFlight == CopyReads(Run(st, steps).reqs) > 0
  {
    RunKeepsInv(st, steps);
    RunKeepsCluster(st, steps);
    var st' := Run(st, steps);
    assert Apart(st.cluster, st'.reqs[i], st'.reqs[j]);
    SomeCopyRead(st'.reqs, i);
  }

  lemma {:induction false} RunKeepsCluster(st: State, steps: seq<Step>)
    requires IsRun(st, steps)
    ensures Run(st, steps).cluster == st.cluster
    decreases |steps|
  {
    if steps != [] {
      RunKeepsCluster(Next(st, steps[0]), steps[1..]);
    }
  }

  /** When a copy-on-read request ends well, every cluster it touched has been
      populated, and what it returns is what the guest sees at that moment. */
  lemma CopyReadAtomic(st: State, steps: seq<Step>, i: nat, s: nat)
    requires Initial(st) && IsRun(st, steps) && Enabled(Run(st, steps), End(i, true))
    requires Run(st, steps).reqs[i].phase.Storing? && InRounded(st.cluster, Run(st, steps).reqs[i], s)
    ensures s in Run(st, steps).top
    ensures s in Run(st, steps).reqs[i].got && Run(st, steps).reqs[i].got[s] == Visible(Run(st, steps), s)
  {
    RunKeepsInv(st, steps);
    RunKeepsCluster(st, steps);
    assert BounceOk(Run(st, steps), Run(st, steps).reqs[i]);
  }

  // ----------------------------------------------------------- no deadlock

  /** How many of the sectors [lo, hi) are not in a set. */
  function Missing(lo: nat, hi: nat, have: set<nat>): (m: nat)
    ensures lo <= hi ==> m <= hi - lo
    decreases hi - lo
  {
    if lo >= hi then 0 else (if lo in have then 0 else 1) + Missing(lo + 1, hi, have)
  }

  lemma {:induction false} MissingSame(lo: nat, hi: nat, have: set<nat>, s: nat)
    requires s < lo
    ensures Missing(lo, hi, have + {s}) == Missing(lo, hi, have)
    decreases hi - lo
  {
    if lo < hi { MissingSame(lo + 1, hi, have, s); }
  }

  lemma {:induction false} MissingLess(lo: nat, hi: nat, have: set<nat>, s: nat)
    requires lo <= s < hi && s !in have
    ensures Missing(lo, hi, have + {s}) < Missing(lo, hi, have)
    decreases hi - lo
  {
    if lo == s { MissingSame(lo + 1, hi, have, s); } else { MissingLess(lo + 1, hi, have, s); }
  }

  /** How many of its sectors an ordinary request has still to read or write. */
  function RangeLeft(r: Req): nat {
    Missing(r.first, r.first + r.n, if r.kind.GuestWrite? then r.stored else r.got.Keys)
  }

  function ClustersLeft(c: nat, r: Req, have: set<nat>): nat {
    var (lo, len) := Rounded(c, r.first, r.n);
    Missing(lo, lo + len, have)
  }

  /** A bound on the steps that a request still has to take. */
  function Left(c: nat, r: Req): nat {
    var len := Rounded(c, r.first, r.n).1;
    match r.phase
    case Waiting => 2 * len + r.n + 5
    case Checking => 2 * len + 4
    case Copying => len + 3 + ClustersLeft(c, r, r.got.Keys)
    case Storing(_) => 2 + ClustersLeft(c, r, r.stored)
    case Active => 1 + RangeLeft(r)
    case Done => 0
  }

  lemma GotKeys(m: map<nat, Value>, s: nat, v: Value)
    ensures m[s := v].Keys == m.Keys + {s}
  {
  }

  /** The next step of a guest write on its way to success. */
  lemma WritingStep(st: State, i: nat) returns (step: Step)
    requires i < |st.reqs| && st.reqs[i].phase.Active? && st.reqs[i].kind.GuestWrite?
    ensures !step.Enter? && step.i == i && (step.End? ==> step.ok) && Enabled(st, step)
    ensures Left(st.cluster, Next(st, step).reqs[i]) < Left(st.cluster, st.reqs[i])
  {
    hide Visible, Rounded;
    var r := st.reqs[i];
    if s: nat :| InRange(r, s) && s !in r.stored {
      step := WriteSector(i, s, Visible(st, s));
      MissingLess(r.first, r.first + r.n, r.stored, s);
    } else {
      step := End(i, true);
    }
  }

  /** The next step of an ordinary read on its way to success. */
  lemma ReadingStep(st: State, i: nat) returns (step: Step)
    requires i < |st.reqs| && st.reqs[i].phase.Active? && !st.reqs[i].kind.GuestWrite?
    ensures !step.Enter? && step.i == i && (step.End? ==> step.ok) && Enabled(st, step)
    ensures Left(st.cluster, Next(st, step).reqs[i]) < Left(st.cluster, st.reqs[i])
  {
    hide Visible, Rounded;
    var r := st.reqs[i];
    if s: nat :| InRange(r, s) && s !in r.got {
      step := ReadSector(i, s);
      GotKeys(r.got, s, Visible(st, s));
      MissingLess(r.first, r.first + r.n, r.got.Keys, s);
    } else {
      step := End(i, true);
    }
  }

  /** The next step of a request that fills its bounce buffer. */
  lemma CopyingStep(st: State, i: nat) returns (step: Step)
    requires i < |st.reqs| && st.reqs[i].phase.Copying?
    ensures !step.Enter? && step.i == i && !step.End? && Enabled(st, step)
    ensures Left(st.cluster, Next(st, step).reqs[i]) < Left(st.cluster, st.reqs[i])
  {
    hide Rounded;
    var r := st.reqs[i];
    var (lo, len) := Rounded(st.cluster, r.first, r.n);
    if s: nat :| InRounded(st.cluster, r, s) && s !in r.got {
      step := ReadSector(i, s);
      GotKeys(r.got, s, Visible(st, s));
      MissingLess(lo, lo + len, r.got.Keys, s);
    } else {
      step := StartStore(i, false);
    }
  }

  /** The next step of a request that stores its bounce buffer. */
  lemma StoringStep(st: State, i: nat) returns (step: Step)
    requires i < |st.reqs| && st.reqs[i].phase.Storing? && BounceOk(st, st.reqs[i])
    ensures !step.Enter? && step.i == i && (step.End? ==> step.ok) && Enabled(st, step)
    ensures Left(st.cluster, Next(st, step).reqs[i]) < Left(st.cluster, st.reqs[i])
  {
    hide Rounded, Visible;
    var r := st.reqs[i];
    var (lo, len) := Rounded(st.cluster, r.first, r.n);
    if s: nat :| InRounded(st.cluster, r, s) && s !in r.stored {
      step := StoreSector(i, s);
      MissingLess(lo, lo + len, r.stored, s);
    } else {
      step := End(i, true);
    }
  }

  /** The next step of any tracked request on its way to success. */
  lemma UsefulStep(st: State, i: nat) returns (step: Step)
    requires Inv(st) && i < |st.reqs| && Tracked(st.reqs[i])
    ensures !step.Enter? && step.i == i && (step.End? ==> step.ok) && Enabled(st, step)
    ensures Left(st.cluster, Next(st, step).reqs[i]) < Left(st.cluster, st.reqs[i])
  {
    assert PhaseOk(st.reqs[i]) && BounceOk(st, st.reqs[i]);
    match st.reqs[i].phase
    case Active => if st.reqs[i].kind.GuestWrite? { step := WritingStep(st, i); } else { step := ReadingStep(st, i); }
    case Checking => step := Check(i, false);
    case Copying => step := CopyingStep(st, i);
    case Storing(_) => step := StoringStep(st, i);
  }

  /** No step of the run lets a request in or fails one. */
  predicate Succeeds(steps: seq<Step>) {
    forall k | 0 <= k < |steps| :: !steps[k].Enter? && (steps[k].End? ==> steps[k].ok)
  }

  /** A tracked request can run to its successful end by steps of its own. */
  lemma FinishOne(st: State, i: nat) returns (steps: seq<Step>)
    requires Inv(st) && i < |st.reqs| && Tracked(st.reqs[i])
    ensures IsRun(st, steps) && Succeeds(steps) && forall k | 0 <= k < |steps| :: steps[k].i == i
    ensures |Run(st, steps).reqs| == |st.reqs| && Run(st, steps).reqs[i].phase.Done?
    decreases Left(st.cluster, st.reqs[i])
  {
    hide Enabled, Next, Left, Inv;
    var step := UsefulStep(st, i);
    var st' := Next(st, step);
    StepKeepsInv(st, step);
    StepOfOne(st, step);
    var rest := [];
    if !step.End? {
      StaysTracked(st, step);
      rest := FinishOne(st', i);
    }
    steps := [step] + rest;
    assert steps[1..] == rest;
  }

  lemma StaysTracked(st: State, step: Step)
    requires !step.Enter? && Enabled(st, step) && !step.End? && Tracked(st.reqs[step.i])
    ensures Next(st, step).cluster == st.cluster && Tracked(Next(st, step).reqs[step.i])
  {
    hide InRange, InRounded, Clear, Visible;
  }

  /** A request that must wait waits for a tracked one, which by steps of its own can
      run to its successful end: waiting is never circular. */
  lemma WaitsForTracked(st: State, i: nat) returns (j: nat, steps: seq<Step>)
    requires Inv(st) && i < |st.reqs| && st.reqs[i].phase.Waiting? && !Enabled(st, Begin(i))
    ensures j < |st.reqs| && j != i && Tracked(st.reqs[j]) && !Clear(st.cluster, st.reqs[i], st.reqs[j])
    ensures IsRun(st, steps) && Succeeds(steps) && forall k | 0 <= k < |steps| :: steps[k].i == j
    ensures |Run(st, steps).reqs| == |st.reqs| && Run(st, steps).reqs[j].phase.Done?
  {
    j :| 0 <= j < |st.reqs| && Tracked(st.reqs[j]) && !Clear(st.cluster, st.reqs[i], st.reqs[j]);
    steps := FinishOne(st, j);
  }

  function Work(c: nat, reqs: seq<Req>): nat {
    if reqs == [] then 0 else Left(c, reqs[|reqs| - 1]) + Work(c, reqs[..|reqs| - 1])
  }

  lemma {:induction false} WorkUpdate(c: nat, reqs: seq<Req>, i: nat, r: Req)
    requires i < |reqs| && Left(c, r) < Left(c, reqs[i])
    ensures Work(c, reqs[i := r]) < Work(c, reqs)
    decreases |reqs|
  {
    hide Left;
    var n := |reqs| - 1;
    if i == n {
      assert reqs[i := r][..n] == reqs[..n];
    } else {
      assert reqs[i := r][..n] == reqs[..n][i := r];
      WorkUpdate(c, reqs[..n], i, r);
    }
  }

  ghost predicate AllDone(reqs: seq<Req>) { forall i | 0 <= i < |reqs| :: reqs[i].phase.Done? }

  /** While some request is not done, some request can take a step on its way to
      success. */
  lemma SomeStep(st: State, i: nat) returns (step: Step)
    requires Inv(st) && i < |st.reqs| && !st.reqs[i].phase.Done?
    ensures !step.Enter? && (step.End? ==> step.ok) && Enabled(st, step) && step.i < |st.reqs|
    ensures Left(st.cluster, Next(st, step).reqs[step.i]) < Left(st.cluster, st.reqs[step.i])
  {
    if Tracked(st.reqs[i]) {
      step := UsefulStep(st, i);
    } else if Enabled(st, Begin(i)) {
      step := Begin(i);
    } else {
      var j: nat :| j < |st.reqs| && Tracked(st.reqs[j]) && !Clear(st.cluster, st.reqs[i], st.reqs[j]);
      step := UsefulStep(st, j);
    }
  }

  /** No deadlock: from any state that a run reaches, all requests can be brought to
      their successful end without new ones entering. */
  lemma CanFinish(st: State) returns (steps: seq<Step>)
    requires Inv(st)
    ensures IsRun(st, steps) && AllDone(Run(st, steps).reqs) && Succeeds(steps)
    decreases Work(st.cluster, st.reqs)
  {
    hide Enabled, Next, Left, Inv, Work;
    if AllDone(st.reqs) {
      steps := [];
    } else {
      var i: nat :| i < |st.reqs| && !st.reqs[i].phase.Done?;
      var step := SomeStep(st, i);
      var st' := Next(st, step);
      StepKeepsInv(st, step);
      StepOfOne(st, step);
      WorkUpdate(st.cluster, st.reqs, step.i, st'.reqs[step.i]);
      SameCluster(st, step);
      var rest := CanFinish(st');
      steps := [step] + rest;
      assert steps[1..] == rest;
    }
  }

  lemma SameCluster(st: State, step: Step)
    requires Enabled(st, step)
    ensures Next(st, step).cluster == st.cluster
  {
  }
}
