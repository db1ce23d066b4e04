/** The rate-limited output buffer of a migration (qemu-kvm/buffered_file.c).  The
    backend takes any number of the bytes it is offered, or says that it is not
    ready, or fails; what it will reply is a script, and once the script is used up
    it takes everything. */
module BufferedFile {
  import opened Errno

  type Byte = int

  // ------------------------------------------------------------- the backend

  /** The reply to an offer of n bytes. */
  function Reply(script: seq<int>, n: nat): int {
    if script == [] || script[0] > n then n else script[0]
  }

  function Later(script: seq<int>): seq<int> { if script == [] then [] else script[1..] }

  /** Why offering ended: nothing left, the rate limit, the backend not ready, or a
      reply of 0 or of an error. */
  datatype Stop = Emptied | Limited | NotReady | Failed(ret: int)

  /** How many bytes were taken, why offering ended, and the replies still to come. */
  datatype Offer = Offer(taken: nat, stop: Stop, script: seq<int>)

  function Taking(n: nat, o: Offer): Offer { o.(taken := n + o.taken) }

  /** What offering n buffered bytes comes to. */
  function FlushOffer(script: seq<int>, n: nat): (o: Offer)
    ensures o.taken <= n && (o.taken == n <==> o.stop.Emptied?) && !o.stop.Limited?
    ensures n == 0 ==> o == Offer(0, Emptied, script)
    ensures |o.script| <= |script| && (!o.stop.Emptied? ==> |o.script| < |script|)
    decreases n
  {
    if n == 0 then Offer(0, Emptied, script)
    else
      var r := Reply(script, n);
      if r == -EAGAIN then Offer(0, NotReady, Later(script))
      else if r <= 0 then Offer(0, Failed(r), Later(script))
      else Taking(r, FlushOffer(Later(script), n - r))
  }

  /** What offering n new bytes comes to, xfer bytes into the period. */
  function PutOffer(script: seq<int>, n: nat, xfer: nat, limit: nat): (o: Offer)
    ensures o.taken <= n && (o.taken == n <==> o.stop.Emptied?)
    ensures n == 0 ==> o == Offer(0, Emptied, script)
    ensures n > 0 && xfer > limit ==> o == Offer(0, Limited, script)
    ensures o.stop.Limited? ==> xfer + o.taken > limit
    decreases n
  {
    if n == 0 then Offer(0, Emptied, script)
    else if xfer > limit then Offer(0, Limited, script)
    else
      var r := Reply(script, n);
      if r == -EAGAIN then Offer(0, NotReady, Later(script))
      else if r <= 0 then Offer(0, Failed(r), Later(script))
      else Taking(r, PutOffer(Later(script), n - r, xfer + r, limit))
  }

  lemma FlushStep(script: seq<int>, n: nat)
    requires n > 0
    ensures var r := Reply(script, n);
      && r <= n
      && FlushOffer(script, n) == if r == -EAGAIN then Offer(0, NotReady, Later(script))
                                  else if r <= 0 then Offer(0, Failed(r), Later(script))
                                  else Taking(r, FlushOffer(Later(script), n - r))
  {
  }

  lemma PutStep(script: seq<int>, n: nat, xfer: nat, limit: nat)
    requires n > 0 && xfer <= limit
    ensures var r := Reply(script, n);
      && r <= n
      && PutOffer(script, n, xfer, limit) == if r == -EAGAIN then Offer(0, NotReady, Later(script))
                                             else if r <= 0 then Offer(0, Failed(r), Later(script))
                                             else Taking(r, PutOffer(Later(script), n - r, xfer + r, limit))
  {
  }

  // ------------------------------------------------------------ specification

  /** The buffered file: the error recorded, whether output is frozen, the bytes of
      this period and their limit, what was delivered, what is held back, and what
      the backend will reply. */
  datatype Out = Out(error: int, frozen: bool, xfer: nat, limit: nat, sent: seq<Byte>, held: seq<Byte>, script: seq<int>)

  function Flushed(o: Out): Out {
    if o.error != 0 then o
    else
      var f := FlushOffer(o.script, |o.held|);
      o.(sent := o.sent + o.held[..f.taken], held := o.held[f.taken..], script := f.script,
         frozen := o.frozen || f.stop.NotReady?, error := if f.stop.Failed? then f.stop.ret else 0)
  }

  /** The offer of n new bytes after the flush has left a. */
  function Direct(a: Out, n: nat): (p: Offer)
    ensures p.taken <= n
  {
    if a.frozen then Offer(0, NotReady, a.script) else PutOffer(a.script, n, a.xfer, a.limit)
  }

  function AfterFlush(o: Out): Out { Flushed(o.(frozen := false)) }

  function Put(o: Out, buf: seq<Byte>): Out {
    if o.error != 0 then o
    else
      var a := AfterFlush(o);
      var p := Direct(a, |buf|);
      a.(sent := a.sent + buf[..p.taken], xfer := a.xfer + p.taken, script := p.script,
         frozen := a.frozen || p.stop.NotReady?,
         error := if p.stop.Failed? then p.stop.ret else a.error,
         held := if p.stop.Failed? then a.held else a.held + buf[p.taken..])
  }

  function PutResult(o: Out, buf: seq<Byte>): int {
    if o.error != 0 then o.error else if Loses(o, |buf|) then -EINVAL else |buf|
  }

  /** The backend is going to answer an offer of new bytes with 0 or an error. */
  predicate Loses(o: Out, n: nat) {
    o.error == 0 && Direct(AfterFlush(o), n).stop.Failed?
  }

  /** The backend is going to answer the flush with 0 or an error while bytes are
      left, and then to take new ones. */
  predicate Overtakes(o: Out, n: nat) {
    o.error == 0 && FlushOffer(o.script, |o.held|).stop.Failed? && Direct(AfterFlush(o), n).taken > 0
  }

  /** What was delivered and what is held make up what was put. */
  predicate Conserved(o: Out, put: seq<Byte>) { o.sent + o.held == put }

  ghost predicate NoRepeats(s: seq<Byte>) {
    forall i, j | 0 <= i < j < |s| :: s[i] != s[j]
  }

  lemma FlushConserves(o: Out)
    ensures Flushed(o).sent + Flushed(o).held == o.sent + o.held
    ensures o.sent <= Flushed(o).sent
  {
    hide FlushOffer;
    if o.error == 0 {
      var n := FlushOffer(o.script, |o.held|).taken;
      assert o.held == o.held[..n] + o.held[n..];
    }
  }

  /** Bytes are missing, or one that was delivered is not the one that was due. */
  ghost predicate Broken(o: Out, put: seq<Byte>) {
    |o.sent| + |o.held| < |put| || exists k :: 0 <= k < |o.sent| && k < |put| && o.sent[k] != put[k]
  }

  lemma BrokenIsNotConserved(o: Out, put: seq<Byte>)
    requires Broken(o, put)
    ensures !Conserved(o, put)
  {
    if k :| 0 <= k < |o.sent| && k < |put| && o.sent[k] != put[k] {
      assert (o.sent + o.held)[k] == o.sent[k];
    }
  }

  lemma PutKeeps(o: Out, buf: seq<Byte>)
    requires o.error == 0 && !Loses(o, |buf|) && !Overtakes(o, |buf|)
    ensures Put(o, buf).sent + Put(o, buf).held == o.sent + o.held + buf
  {
    hide FlushOffer, PutOffer;
    var a := AfterFlush(o);
    var n := Direct(a, |buf|).taken;
    FlushConserves(o.(frozen := false));
    assert a.held == [] || n == 0;
    Rejoin(a.sent, a.held, buf, n);
  }

  lemma Rejoin(sent: seq<Byte>, held: seq<Byte>, buf: seq<Byte>, n: nat)
    requires n <= |buf| && (held == [] || n == 0)
    ensures (sent + buf[..n]) + (held + buf[n..]) == (sent + held) + buf
  {
    assert buf[..n] + buf[n..] == buf;
    if n == 0 {
      assert buf[..0] == [] && buf[0..] == buf;
    }
  }

  lemma PutLoses(o: Out, buf: seq<Byte>)
    requires Loses(o, |buf|)
    ensures |Put(o, buf).sent| + |Put(o, buf).held| < |o.sent| + |o.held| + |buf|
  {
    hide FlushOffer, PutOffer;
    var a := AfterFlush(o);
    FlushConserves(o.(frozen := false));
    assert |a.sent + a.held| == |o.sent + o.held|;
  }

  lemma PutOvertakes(o: Out, buf: seq<Byte>)
    requires Overtakes(o, |buf|) && NoRepeats(o.sent + o.held + buf)
    ensures Broken(Put(o, buf), o.sent + o.held + buf)
  {
    hide FlushOffer, PutOffer, NoRepeats;
    var a := AfterFlush(o);
    FlushConserves(o.(frozen := false));
    assert a.held != [] && a.sent + [buf[0]] <= Put(o, buf).sent;
    OutOfTurn(a.sent, a.held, buf);
    assert Put(o, buf).sent[|a.sent|] == buf[0];
  }

  lemma OutOfTurn(sent: seq<Byte>, held: seq<Byte>, buf: seq<Byte>)
    requires held != [] && buf != [] && NoRepeats(sent + held + buf)
    ensures (sent + held + buf)[|sent|] != buf[0]
  {
    var all, k := sent + held + buf, |sent| + |held|;
    assert all[|sent|] == held[0] && all[k] == buf[0];
  }

  /** A put keeps the stream exactly when the backend neither fails on the new bytes
      nor takes them after failing on older ones; when it does, it breaks the
      stream for good, if bytes can be told apart. */
  lemma PutExact(o: Out, put: seq<Byte>, buf: seq<Byte>)
    requires o.error == 0 && Conserved(o, put)
    ensures !Loses(o, |buf|) && !Overtakes(o, |buf|) ==> Conserved(Put(o, buf), put + buf)
    ensures NoRepeats(put + buf) && (Loses(o, |buf|) || Overtakes(o, |buf|)) ==> Broken(Put(o, buf), put + buf)
  {
    hide Put, Loses, Overtakes, NoRepeats;
    if Loses(o, |buf|) {
      PutLoses(o, buf);
    } else if !Overtakes(o, |buf|) {
      PutKeeps(o, buf);
    } else if NoRepeats(put + buf) {
      PutOvertakes(o, buf);
    }
  }

  /** Bytes are held back after a put only while the output is frozen or the rate
      limit exceeded, or because the backend failed. */
  lemma KeptBack(o: Out, buf: seq<Byte>)
    requires o.error == 0
    ensures var b := Put(o, buf);
      b.held == [] || b.frozen || b.xfer > b.limit || Loses(o, |buf|) || FlushOffer(o.script, |o.held|).stop.Failed?
  {
    hide FlushOffer, PutOffer;
    var a := AfterFlush(o);
    var p := Direct(a, |buf|);
    if a.held == [] && p.stop.Emptied? {
      assert buf[p.taken..] == [];
    }
  }

  // -------------------------------------------------------------------- runs

  datatype Op = PutOp(buf: seq<Byte>) | TickOp

  /** buffered_rate_tick while no error is recorded. */
  function Tick(o: Out): Out {
    if o.error != 0 || o.frozen then o else Flushed(o.(xfer := 0))
  }

  function Do(o: Out, op: Op): Out {
    match op
    case PutOp(buf) => Put(o, buf)
    case TickOp => Tick(o)
  }

  function Run(o: Out, ops: seq<Op>): Out
    decreases |ops|
  {
    if ops == [] then o else Run(Do(o, ops[0]), ops[1..])
  }

  /** The bytes that one call puts: none if an error is already recorded. */
  function PutOf(o: Out, op: Op): seq<Byte> {
    if op.PutOp? && o.error == 0 then op.buf else []
  }

  function PutsOf(o: Out, ops: seq<Op>): seq<Byte>
    decreases |ops|
  {
    if ops == [] then [] else PutOf(o, ops[0]) + PutsOf(Do(o, ops[0]), ops[1..])
  }

  predicate Breaks(o: Out, op: Op) {
    op.PutOp? && (Loses(o, |op.buf|) || Overtakes(o, |op.buf|))
  }

  /** Some put of the run fails on new bytes or lets them overtake. */
  predicate RunBreaks(o: Out, ops: seq<Op>)
    decreases |ops|
  {
    ops != [] && (Breaks(o, ops[0]) || RunBreaks(Do(o, ops[0]), ops[1..]))
  }

  lemma OpKeepsBroken(o: Out, put: seq<Byte>, op: Op)
    requires Broken(o, put)
    ensures Broken(Do(o, op), put + PutOf(o, op))
  {
    hide FlushOffer, PutOffer;
    var b, all := Do(o, op), put + PutOf(o, op);
    assert o.sent <= b.sent && |b.sent| + |b.held| <= |o.sent| + |o.held| + |PutOf(o, op)| by {
      FlushConserves(o.(frozen := false));
      FlushConserves(o.(xfer := 0));
      assert |AfterFlush(o).sent + AfterFlush(o).held| == |o.sent + o.held|;
      assert |Flushed(o.(xfer := 0)).sent + Flushed(o.(xfer := 0)).held| == |o.sent + o.held|;
    }
    if |o.sent| + |o.held| >= |put| {
      var k :| 0 <= k < |o.sent| && k < |put| && o.sent[k] != put[k];
      assert b.sent[k] == o.sent[k] && all[k] == put[k];
    }
  }

  lemma {:induction false} RunKeepsBroken(o: Out, put: seq<Byte>, ops: seq<Op>)
    requires Broken(o, put)
    ensures Broken(Run(o, ops), put + PutsOf(o, ops))
    decreases |ops|
  {
    hide Broken, Do, PutOf;
    if ops == [] {
      assert put + [] == put;
    } else {
      OpKeepsBroken(o, put, ops[0]);
      RunKeepsBroken(Do(o, ops[0]), put + PutOf(o, ops[0]), ops[1..]);
      assert put + PutOf(o, ops[0]) + PutsOf(Do(o, ops[0]), ops[1..]) == put + PutsOf(o, ops);
    }
  }

  lemma OpExact(o: Out, put: seq<Byte>, op: Op)
    requires Conserved(o, put)
    ensures !Breaks(o, op) ==> Conserved(Do(o, op), put + PutOf(o, op))
    ensures NoRepeats(put + PutOf(o, op)) && Breaks(o, op) ==> Broken(Do(o, op), put + PutOf(o, op))
  {
    hide Flushed, Put, Loses, Overtakes, NoRepeats, Broken;
    assert put + [] == put;
    match op
    case PutOp(buf) =>
      if o.error == 0 {
        PutExact(o, put, buf);
      } else {
        ErrorStops(o, buf);
      }
    case TickOp => FlushConserves(o.(xfer := 0));
  }

  lemma ErrorStops(o: Out, buf: seq<Byte>)
    requires o.error != 0
    ensures Put(o, buf) == o && PutResult(o, buf) == o.error && !Loses(o, |buf|) && !Overtakes(o, |buf|)
  {
  }

  /** Over any run of puts and ticks the bytes delivered and held are the bytes put,
      in order, if and only if no put of the run failed on new bytes or let them
      overtake older ones. */
  lemma {:induction false} RunExact(o: Out, put: seq<Byte>, ops: seq<Op>)
    requires Conserved(o, put) && NoRepeats(put + PutsOf(o, ops))
    ensures Conserved(Run(o, ops), put + PutsOf(o, ops)) <==> !RunBreaks(o, ops)
    decreases |ops|
  {
    hide Broken, Do, PutOf, Breaks, Conserved;
    if ops == [] {
      assert put + [] == put;
    } else {
      var b, now := Do(o, ops[0]), put + PutOf(o, ops[0]);
      assert now + PutsOf(b, ops[1..]) == put + PutsOf(o, ops);
      assert NoRepeats(now) by { Prefix(now, PutsOf(b, ops[1..])); }
      OpExact(o, put, ops[0]);
      if Breaks(o, ops[0]) {
        RunKeepsBroken(b, now, ops[1..]);
        BrokenIsNotConserved(Run(o, ops), put + PutsOf(o, ops));
      } else {
        RunExact(b, now, ops[1..]);
      }
    }
  }

  lemma Prefix(a: seq<Byte>, b: seq<Byte>)
    requires NoRepeats(a + b)
    ensures NoRepeats(a)
  {
    assert forall i | 0 <= i < |a| :: (a + b)[i] == a[i];
  }

  // ------------------------------------------------- a backend that never returns 0

  lemma {:induction false} FlushNeverZero(script: seq<int>, n: nat)
    requires 0 !in script
    ensures 0 !in FlushOffer(script, n).script
    ensures FlushOffer(script, n).stop.Failed? ==> FlushOffer(script, n).stop.ret < 0
    decreases n
  {
    if n != 0 {
      assert Reply(script, n) != 0 by { if script != [] { assert script[0] in script; } }
      var r := Reply(script, n);
      if r > 0 { FlushNeverZero(Later(script), n - r); }
    }
  }

  lemma {:induction false} PutNeverZero(script: seq<int>, n: nat, xfer: nat, limit: nat)
    requires 0 !in script
    ensures 0 !in PutOffer(script, n, xfer, limit).script
    ensures PutOffer(script, n, xfer, limit).stop.Failed? ==> PutOffer(script, n, xfer, limit).stop.ret < 0
    decreases n
  {
    if n != 0 && xfer <= limit {
      assert Reply(script, n) != 0 by { if script != [] { assert script[0] in script; } }
      var r := Reply(script, n);
      if r > 0 { PutNeverZero(Later(script), n - r, xfer + r, limit); }
    }
  }

  /** If the backend never returns 0, a put that breaks the stream records an error. */
  lemma OpNeverSilent(o: Out, op: Op)
    requires 0 !in o.script
    ensures 0 !in Do(o, op).script
    ensures Breaks(o, op) || o.error != 0 ==> Do(o, op).error != 0
  {
    hide FlushOffer, PutOffer;
    FlushNeverZero(o.script, |o.held|);
    var a := AfterFlush(o);
    if op.PutOp? && o.error == 0 { PutNeverZero(a.script, |op.buf|, a.xfer, a.limit); }
  }

  /** While the backend never returns 0, a run that ends without an error recorded has
      kept every byte in order. */
  lemma {:induction false} RunNeverSilent(o: Out, put: seq<Byte>, ops: seq<Op>)
    requires 0 !in o.script && Conserved(o, put) && Run(o, ops).error == 0
    ensures o.error == 0 && Conserved(Run(o, ops), put + PutsOf(o, ops))
    decreases |ops|
  {
    hide Do, PutOf, Breaks, Conserved;
    if ops == [] {
      assert put + [] == put;
    } else {
      var b, now := Do(o, ops[0]), put + PutOf(o, ops[0]);
      assert now + PutsOf(b, ops[1..]) == put + PutsOf(o, ops);
      OpNeverSilent(o, ops[0]);
      if b.error != 0 { ErrorStays(b, ops[1..]); }
      OpExact(o, put, ops[0]);
      RunNeverSilent(b, now, ops[1..]);
    }
  }

  lemma {:induction false} ErrorStays(o: Out, ops: seq<Op>)
    requires o.error != 0
    ensures Run(o, ops).error != 0
    decreases |ops|
  {
    if ops != [] {
      assert Do(o, ops[0]) == o;
      ErrorStays(o, ops[1..]);
    }
  }

  lemma NotReadyHolds()
    ensures Put(Out(0, false, 0, 100, [], [], [-EAGAIN, 0, 1]), [1]) == Out(0, true, 0, 100, [], [1], [0, 1])
  {
    var o := Out(0, false, 0, 100, [], [], [-EAGAIN, 0, 1]);
    assert Later(o.script) == [0, 1];
    assert AfterFlush(o) == o;
    assert Direct(o, 1) == Offer(0, NotReady, [0, 1]);
  }

  lemma ZeroLetsPass()
    ensures var a := Out(0, true, 0, 100, [], [1], [0, 1]);
      Put(a, [2]) == Out(0, false, 1, 100, [2], [1], []) && Overtakes(a, 1)
  {
    var a := Out(0, true, 0, 100, [], [1], [0, 1]);
    assert Later([0, 1]) == [1] && Later([1]) == [];
    assert FlushOffer([0, 1], 1) == Offer(0, Failed(0), [1]);
    assert AfterFlush(a) == Out(0, false, 0, 100, [], [1], [1]);
    PutStep([1], 1, 0, 100);
    assert PutOffer([1], 1, 0, 100) == Offer(1, Emptied, []);
  }

  /** The failure: not ready for byte 1, then 0 in answer to the flush, then 1 for
      byte 2.  Byte 2 is delivered first, and no error is recorded. */
  lemma ZeroReturnReorders()
    ensures var o := Out(0, false, 0, 100, [], [], [-EAGAIN, 0, 1]);
            var ops := [PutOp([1]), PutOp([2])];
            var b := Run(o, ops);
      && PutsOf(o, ops) == [1, 2] && RunBreaks(o, ops)
      && b.sent == [2] && b.held == [1] && b.error == 0
  {
    hide Put, Loses, Overtakes;
    NotReadyHolds();
    ZeroLetsPass();
    var ops := [PutOp([1]), PutOp([2])];
    assert ops[1..] == [PutOp([2])] && ops[1..][1..] == [];
  }

  // --------------------------------------------------------------- the class

  class Buffered {
    /** last_error of the file. */
    var error: int
    var freezeOutput: bool
    var bytesXfer: nat
    var xferLimit: nat
    var buffer: array<Byte>
    var bufferSize: nat
    /** What the backend has accepted, and what it will reply. */
    var delivered: seq<Byte>
    var script: seq<int>
    /** Everything that was put, and whether a put has broken the stream. */
    ghost var put: seq<Byte>
    ghost var broken: bool

    ghost predicate Shape()
      reads this
    {
      bufferSize <= buffer.Length
    }

    ghost function State(): Out
      requires Shape()
      reads this, buffer
    {
      Out(error, freezeOutput, bytesXfer, xferLimit, delivered, buffer[..bufferSize], script)
    }

    /** No byte is lost or out of order unless a put has broken the stream. */
    ghost predicate Valid()
      reads this, buffer
    {
      Shape() && (!broken ==> Conserved(State(), put))
    }

    constructor (rate: nat, script: seq<int>)
      ensures Valid() && State() == Out(0, false, 0, rate / 10, [], [], script) && put == [] && !broken && fresh(buffer)
    {
      error, freezeOutput, bytesXfer, xferLimit := 0, false, 0, rate / 10;
      buffer, bufferSize, delivered, this.script := new Byte[0], 0, [], script;
      put, broken := [], false;
    }

    /** put_buffer of the backend, offered some bytes. */
    method Backend(data: seq<Byte>) returns (ret: int)
      requires data != []
      modifies `delivered, `script
      ensures ret == Reply(old(script), |data|) && script == Later(old(script))
      ensures delivered == old(delivered) + if ret > 0 then data[..ret] else []
    {
      ret := if script == [] || script[0] > |data| then |data| else script[0];
      script := Later(script);
      if ret > 0 {
        delivered := delivered + data[..ret];
      }
    }

    /** buffered_append: grows the buffer if need be. */
    method Append(buf: seq<Byte>)
      requires Shape()
      modifies this`buffer, this`bufferSize, buffer
      ensures Shape() && buffer[..bufferSize] == old(buffer[..bufferSize]) + buf
      ensures buffer == old(buffer) || fresh(buffer)
    {
      if |buf| > buffer.Length - bufferSize {
        var bigger := new Byte[buffer.Length + |buf| + 1024];
        forall i | 0 <= i < bufferSize {
          bigger[i] := buffer[i];
        }
        buffer := bigger;
      }
      ghost var was := buffer[..bufferSize];
      var size := bufferSize;
      forall i | 0 <= i < |buf| {
        buffer[size + i] := buf[i];
      }
      bufferSize := bufferSize + |buf|;
      assert buffer[..bufferSize] == was + buf;
    }

    /** buffered_flush: offers the buffer to the backend until it is empty, the
        backend is not ready, or an error occurs. */
    method Flush()
      requires Shape()
      modifies this`delivered, this`script, this`freezeOutput, this`error, this`bufferSize, buffer
      ensures Shape() && State() == Flushed(old(State()))
    {
      hide FlushOffer;
      if error != 0 { return; }
      var offset := FlushLoop();
      Discard(offset);
    }

    /** The loop of buffered_flush; the bytes before offset have been taken. */
    method FlushLoop() returns (offset: nat)
      requires Shape() && error == 0
      modifies this`delivered, this`script, this`freezeOutput, this`error
      ensures var f := FlushOffer(old(script), bufferSize);
        && offset == f.taken && script == f.script && delivered == old(delivered) + buffer[..offset]
        && freezeOutput == (old(freezeOutput) || f.stop.NotReady?) && error == if f.stop.Failed? then f.stop.ret else 0
    {
      hide FlushOffer, Reply, Later;
      offset := 0;
      var held := buffer[..bufferSize];
      ghost var f := FlushOffer(script, |held|);
      while offset < bufferSize
        invariant offset <= bufferSize == |held| && error == 0 && freezeOutput == old(freezeOutput)
        invariant delivered == old(delivered) + held[..offset]
        invariant f == Taking(offset, FlushOffer(script, |held| - offset))
      {
        FlushStep(script, |held| - offset);
        var ret := Backend(held[offset..]);
        if ret == -EAGAIN {
          freezeOutput := true;
          return;
        }
        if ret <= 0 {
          error := ret;
          return;
        }
        assert held[..offset] + held[offset..][..ret] == held[..offset + ret];
        offset := offset + ret;
      }
    }

    /** memmove: the bytes that were sent are removed from the front. */
    method Discard(offset: nat)
      requires Shape() && offset <= bufferSize
      modifies this`bufferSize, buffer
      ensures Shape() && buffer[..bufferSize] == old(buffer[offset..bufferSize])
    {
      var moved := buffer[offset..bufferSize];
      forall i | 0 <= i < |moved| {
        buffer[i] := moved[i];
      }
      bufferSize := |moved|;
      assert buffer[..bufferSize] == moved;
    }

    /** The loop of buffered_put_buffer: offers the new bytes to the backend. */
    method PutDirect(buf: seq<Byte>) returns (offset: nat, failed: bool)
      modifies this`delivered, this`script, this`freezeOutput, this`error, this`bytesXfer
      ensures var p := if old(freezeOutput) then Offer(0, NotReady, old(script))
                       else PutOffer(old(script), |buf|, old(bytesXfer), xferLimit);
        && offset == p.taken <= |buf| && script == p.script && failed == p.stop.Failed?
        && delivered == old(delivered) + buf[..offset] && bytesXfer == old(bytesXfer) + offset
        && freezeOutput == (old(freezeOutput) || p.stop.NotReady?)
        && error == if p.stop.Failed? then p.stop.ret else old(error)
    {
      hide PutOffer, Reply, Later;
      offset, failed := 0, false;
      ghost var p := PutOffer(script, |buf|, bytesXfer, xferLimit);
      while !freezeOutput && offset < |buf|
        invariant offset <= |buf| && delivered == old(delivered) + buf[..offset] && error == old(error)
        invariant bytesXfer == old(bytesXfer) + offset && freezeOutput == old(freezeOutput)
        invariant freezeOutput ==> offset == 0 && script == old(script)
        invariant !freezeOutput ==> p == Taking(offset, PutOffer(script, |buf| - offset, bytesXfer, xferLimit))
        decreases |buf| - offset
      {
        if bytesXfer > xferLimit { return; }
        PutStep(script, |buf| - offset, bytesXfer, xferLimit);
        var ret := Backend(buf[offset..]);
        if ret == -EAGAIN {
          freezeOutput := true;
          return;
        }
        if ret <= 0 {
          error := ret;
          failed := true;
          return;
        }
        assert buf[..offset] + buf[offset..][..ret] == buf[..offset + ret];
        offset := offset + ret;
        bytesXfer := bytesXfer + ret;
      }
    }

    /** buffered_put_buffer while no error is recorded. */
    method PutLive(buf: seq<Byte>) returns (ret: int)
      requires Shape() && error == 0
      modifies this`delivered, this`script, this`freezeOutput, this`error, this`bufferSize, this`bytesXfer, this`buffer, buffer
      ensures Shape() && (buffer == old(buffer) || fresh(buffer))
      ensures State() == Put(old(State()), buf) && ret == PutResult(old(State()), buf)
    {
      hide FlushOffer, PutOffer, Flushed;
      freezeOutput := false;
      Flush();
      var offset, failed := PutDirect(buf);
      if failed { return -EINVAL; }
      Append(buf[offset..]);
      ret := |buf|;
    }

    /** buffered_put_buffer: the stream is broken from now on exactly if it was, or if
        the backend's replies make this put lose bytes or overtake older ones. */
    method PutBuffer(buf: seq<Byte>) returns (ret: int)
      requires Valid()
      modifies this, buffer
      ensures Valid() && (buffer == old(buffer) || fresh(buffer))
      ensures State() == Put(old(State()), buf) && ret == PutResult(old(State()), buf)
      ensures put == old(put) + PutOf(old(State()), PutOp(buf))
      ensures broken == (old(broken) || Breaks(old(State()), PutOp(buf)))
    {
      hide FlushOffer, PutOffer, Flushed, Put, PutResult, Loses, Overtakes, Broken, NoRepeats;
      ghost var o := State();
      if !broken { OpExact(o, put, PutOp(buf)); }
      if error != 0 {
        ErrorStops(o, buf);
        return error;
      }
      ret := PutLive(buf);
      put := put + buf;
      broken := broken || Breaks(o, PutOp(buf));
    }

    /** buffered_rate_tick while no error is recorded: a new period begins. */
    method RateTick()
      requires Valid() && error == 0
      modifies this`delivered, this`script, this`freezeOutput, this`error, this`bufferSize, this`bytesXfer, buffer
      ensures Valid() && State() == Tick(old(State()))
    {
      hide Flushed;
      if freezeOutput { return; }
      FlushConserves(State().(xfer := 0));
      bytesXfer := 0;
      Flush();
    }

    /** buffered_close: flushes until the buffer is empty or an error is recorded,
        waiting whenever the output is frozen.  The script is finite, so it ends. */
    method Close()
      requires Valid()
      modifies this`delivered, this`script, this`freezeOutput, this`error, this`bufferSize, buffer
      ensures Valid() && (error == 0 ==> bufferSize == 0)
      ensures !broken && error == 0 ==> delivered == put
    {
      hide FlushOffer;
      while error == 0 && bufferSize > 0
        invariant Valid()
        decreases error == 0, |script|, bufferSize
      {
        FlushConserves(State());
        Flush();
      }
    }
  }
}
