/** The block migration stream and its receiver, block_load. */
module BlockStream {
  import opened Errno
  import opened BlockMigrationProtocol

  const SECTOR_SIZE: nat := 512
  const FLAG_DEVICE_BLOCK: nat := 1
  const FLAG_EOS: nat := 2
  const FLAG_PROGRESS: nat := 4

  /** A header word (an address shifted by BDRV_SECTOR_BITS, flags in the low
      bits) alone, or followed by a device name and a buffer of one chunk. */
  datatype Msg =
    | Block(header: nat, name: string, buf: seq<Sector>)
    | Mark(header: nat)

  predicate HasFlag(header: nat, flag: nat)
    requires flag > 0
  {
    (header % SECTOR_SIZE) / flag % 2 == 1
  }

  /** What blk_send puts on the stream.  Past the end of a short last chunk the
      buffer holds whatever the allocator left there. */
  predicate IsBlockMsg(m: Msg, e: Entry, name: string) {
    && m.Block? && m.header == e.first * SECTOR_SIZE + FLAG_DEVICE_BLOCK && m.name == name
    && |m.buf| == CHUNK && e.n <= CHUNK
    && forall s | e.first <= s < e.first + e.n :: s in e.got && m.buf[s - e.first] == e.got[s]
  }

  /** The stream carries exactly the given copies, in order, between marks. */
  predicate OnWire(stream: seq<Msg>, sent: seq<Entry>, names: seq<string>)
    decreases |stream|
  {
    if stream == [] then sent == []
    else
      var m := stream[|stream| - 1];
      match m
      case Mark(header) =>
        (header % SECTOR_SIZE == FLAG_EOS || header % SECTOR_SIZE == FLAG_PROGRESS) &&
        OnWire(stream[..|stream| - 1], sent, names)
      case Block(_, _, _) =>
        sent != [] && sent[|sent| - 1].dev < |names| &&
        IsBlockMsg(m, sent[|sent| - 1], names[sent[|sent| - 1].dev]) &&
        OnWire(stream[..|stream| - 1], sent[..|sent| - 1], names)
  }

  // ------------------------------------------------------------ the receiver

  type Store = map<string, seq<Sector>>

  datatype Result = Ok(disks: Store) | Err(code: int)

  /** A bdrv_write of n sectors that succeeds. */
  function WriteSectors(disk: seq<Sector>, first: nat, buf: seq<Sector>, n: nat): (r: seq<Sector>)
    requires first + n <= |disk| && n <= |buf|
    ensures |r| == |disk|
    ensures forall s | 0 <= s < |disk| :: r[s] == if first <= s < first + n then buf[s - first] else disk[s]
  {
    disk[..first] + buf[..n] + disk[first + n..]
  }

  /** One turn of the loop of block_load, where bdrv_write succeeds. */
  function LoadMsg(disks: Store, m: Msg): (r: Result)
    ensures r.Err? ==> r.code < 0
    ensures r.Ok? && HasFlag(m.header, FLAG_DEVICE_BLOCK) ==> m.Block? && m.name in disks
  {
    var addr := m.header / SECTOR_SIZE;
    if HasFlag(m.header, FLAG_DEVICE_BLOCK) then
      if m.Mark? then Err(-EIO)
      else if m.name !in disks then Err(-EINVAL)
      else
        var total := |disks[m.name]|;
        if total <= 0 then Err(-EINVAL)
        else if addr > total then Err(-EIO)
        else
          var nr := if total - addr < CHUNK then total - addr else CHUNK;
          if nr > |m.buf| then Err(-EIO)
          else Ok(disks[m.name := WriteSectors(disks[m.name], addr, m.buf, nr)])
    else if HasFlag(m.header, FLAG_PROGRESS) || HasFlag(m.header, FLAG_EOS) then Ok(disks)
    else Err(-EINVAL)
  }

  function Load(disks: Store, stream: seq<Msg>): Result
    decreases |stream|
  {
    if stream == [] then Ok(disks)
    else
      match Load(disks, stream[..|stream| - 1])
      case Err(code) => Err(code)
      case Ok(disks') => LoadMsg(disks', stream[|stream| - 1])
  }

  predicate Distinct(names: seq<string>) {
    forall i, j | 0 <= i < j < |names| :: names[i] != names[j]
  }

  /** The destination has a device of the right size for every name. */
  predicate Matches(disks: Store, names: seq<string>, dst: Disks) {
    |names| == |dst| && forall d | 0 <= d < |names| :: names[d] in disks && disks[names[d]] == dst[d]
  }

  /** The destination has, in every sector, the value that the copies give. */
  ghost predicate Holds(disks: Store, names: seq<string>, dst: Disks, sent: seq<Entry>) {
    && |names| == |dst|
    && (forall d: nat | d < |names| :: names[d] in disks && |disks[names[d]]| == |dst[d]|)
    && (forall d: nat, s: nat | d < |names| && s < |dst[d]| ::
          disks[names[d]][s] == Received(sent, dst[d][s], d, s))
  }

  ghost predicate EntriesOk(dst: Disks, sent: seq<Entry>) {
    forall e | e in sent :: EntryOk(dst, e)
  }

  /** Loading a well-formed stream succeeds and leaves, in every sector, the
      value of the last copy sent of it. */
  lemma {:induction false} LoadReceives(disks: Store, stream: seq<Msg>, sent: seq<Entry>, names: seq<string>, dst: Disks)
    requires Distinct(names) && Matches(disks, names, dst) && OnWire(stream, sent, names) && EntriesOk(dst, sent)
    ensures Load(disks, stream).Ok?
    ensures Holds(Load(disks, stream).disks, names, dst, sent)
    decreases |stream|
  {
    if stream != [] {
      var m, rest := stream[|stream| - 1], stream[..|stream| - 1];
      match m {
        case Mark(header) =>
          LoadReceives(disks, rest, sent, names, dst);
        case Block(_, _, _) =>
          var e, sent' := sent[|sent| - 1], sent[..|sent| - 1];
          assert e in sent;
          LoadReceives(disks, rest, sent', names, dst);
          LoadBlock(Load(disks, rest).disks, m, e, sent', names, dst);
          assert sent' + [e] == sent;
      }
    }
  }

  lemma LoadBlock(disks: Store, m: Msg, e: Entry, sent: seq<Entry>, names: seq<string>, dst: Disks)
    requires Distinct(names) && |names| == |dst| && EntryOk(dst, e) && IsBlockMsg(m, e, names[e.dev])
    requires Holds(disks, names, dst, sent)
    ensures LoadMsg(disks, m).Ok?
    ensures Holds(LoadMsg(disks, m).disks, names, dst, sent + [e])
  {
    assert m.header / SECTOR_SIZE == e.first && m.header % SECTOR_SIZE == FLAG_DEVICE_BLOCK;
    var r := LoadMsg(disks, m).disks;
    assert r == disks[names[e.dev] := WriteSectors(disks[names[e.dev]], e.first, m.buf, e.n)];
    assert (sent + [e])[..|sent|] == sent;
    forall d: nat, s: nat | d < |names| && s < |dst[d]|
      ensures |r[names[d]]| == |dst[d]| && r[names[d]][s] == Received(sent + [e], dst[d][s], d, s)
    {
      if d != e.dev { assert names[d] != names[e.dev]; }
    }
  }

  /** End to end: if the copies on the stream converge, the receiver that loads
      it ends up with the source's disks. */
  lemma LoadConverges(disks: Store, stream: seq<Msg>, sent: seq<Entry>, names: seq<string>, dst: Disks, devs: seq<Dev>)
    requires Distinct(names) && Matches(disks, names, dst) && OnWire(stream, sent, names) && EntriesOk(dst, sent)
    requires |dst| == |devs| && forall d | 0 <= d < |devs| :: |dst[d]| == |devs[d].disk|
    requires Converged(devs, dst, sent)
    ensures Load(disks, stream).Ok?
    ensures forall d | 0 <= d < |names| :: names[d] in Load(disks, stream).disks && Load(disks, stream).disks[names[d]] == devs[d].disk
  {
    LoadReceives(disks, stream, sent, names, dst);
  }

  /** Loading section by section is loading the whole stream. */
  lemma {:induction false} LoadSections(disks: Store, a: seq<Msg>, b: seq<Msg>)
    ensures Load(disks, a + b) == match Load(disks, a) case Err(code) => Err(code) case Ok(disks') => Load(disks', b)
    decreases |b|
  {
    if b == [] {
      assert a + b == a;
    } else {
      assert (a + b)[..|a + b| - 1] == a + b[..|b| - 1];
      LoadSections(disks, a, b[..|b| - 1]);
    }
  }

  lemma LoadNone(disks: Store)
    ensures Load(disks, []) == Ok(disks) && WriteCount([]) == 0
  {
  }

  /** A stream that cannot be loaded cannot be loaded with more after it. */
  lemma LoadPrefix(disks: Store, a: seq<Msg>, b: seq<Msg>)
    requires Load(disks, a + b).Ok?
    ensures Load(disks, a).Ok?
  {
    LoadSections(disks, a, b);
  }

  /** The number of bdrv_write calls that loading the messages makes. */
  function WriteCount(msgs: seq<Msg>): nat {
    if msgs == [] then 0
    else WriteCount(msgs[..|msgs| - 1]) + if HasFlag(msgs[|msgs| - 1].header, FLAG_DEVICE_BLOCK) then 1 else 0
  }

  /** The answer of the k-th write; beyond the script all succeed. */
  function Answer(script: seq<int>, k: nat): int { if k < |script| then script[k] else 0 }

  /** The first n writes succeed. */
  predicate Writable(script: seq<int>, n: nat) { forall k | 0 <= k < n && k < |script| :: script[k] >= 0 }

  /** No end-of-section mark in the messages. */
  predicate Unended(msgs: seq<Msg>) { forall i | 0 <= i < |msgs| :: !HasFlag(msgs[i].header, FLAG_EOS) }

  /** Why block_load gave up before message `next`: the stream ended there, it cannot be
      loaded, or the destination answered the write with an error. */
  predicate GaveUp(disks: Store, script: seq<int>, msgs: seq<Msg>, pos: nat, next: nat, ret: int)
    requires pos <= next <= |msgs|
  {
    && Unended(msgs[pos..next]) && Load(disks, msgs[pos..next]).Ok? && Writable(script, WriteCount(msgs[pos..next]))
    && if next == |msgs| then ret == -EINVAL
       else if Load(disks, msgs[pos..next + 1]).Err? then ret == Load(disks, msgs[pos..next + 1]).code
       else HasFlag(msgs[next].header, FLAG_DEVICE_BLOCK) && ret == Answer(script, WriteCount(msgs[pos..next]))
  }

  /** One more message has been loaded. */
  lemma OneMore(was: Store, disks: Store, msgs: seq<Msg>, pos: nat, next: nat)
    requires pos <= next < |msgs| && Load(was, msgs[pos..next]) == Ok(disks)
    ensures Load(was, msgs[pos..next + 1]) == LoadMsg(disks, msgs[next])
    ensures WriteCount(msgs[pos..next + 1]) == WriteCount(msgs[pos..next]) + if HasFlag(msgs[next].header, FLAG_DEVICE_BLOCK) then 1 else 0
    ensures Unended(msgs[pos..next]) && !HasFlag(msgs[next].header, FLAG_EOS) ==> Unended(msgs[pos..next + 1])
  {
    hide LoadMsg, HasFlag;
    var a := msgs[pos..next + 1];
    assert a[..next - pos] == msgs[pos..next] && a[next - pos] == msgs[next];
  }

  class Receiver {
    var disks: Store
    /** What the destination's bdrv_write is going to answer. */
    var script: seq<int>

    /** bdrv_write on the destination; one that fails may have written some sectors. */
    method WriteBlock(m: Msg) returns (ret: int)
      requires HasFlag(m.header, FLAG_DEVICE_BLOCK) && LoadMsg(disks, m).Ok?
      modifies this
      ensures ret == Answer(old(script), 0) && script == if old(script) == [] then [] else old(script)[1..]
      ensures ret >= 0 ==> disks == LoadMsg(old(disks), m).disks
    {
      ret := Answer(script, 0);
      if script != [] { script := script[1..]; }
      if ret >= 0 {
        disks := LoadMsg(disks, m).disks;
      } else {
        var left: seq<Sector> := *;
        disks := disks[m.name := left];
      }
    }

    /** block_load: consumes messages from position pos up to the next
        end-of-section mark.  What it returns, and where it stops, is determined by
        the messages and the answers of the destination's writes. */
    method BlockLoad(msgs: seq<Msg>, pos: nat) returns (ret: int, next: nat)
      requires pos <= |msgs|
      modifies this
      ensures pos <= next <= |msgs| && ret <= 0
      ensures ret == 0 ==> pos < next && Load(old(disks), msgs[pos..next]) == Ok(disks)
      ensures ret == 0 ==> HasFlag(msgs[next - 1].header, FLAG_EOS) && Unended(msgs[pos..next - 1])
      ensures ret == 0 ==> Writable(old(script), WriteCount(msgs[pos..next]))
      ensures ret < 0 ==> GaveUp(old(disks), old(script), msgs, pos, next, ret)
      ensures Writable(old(script), |old(script)|) ==> Writable(script, |script|)
    {
      hide Load, LoadMsg, HasFlag, WriteCount;
      LoadNone(disks);
      next := pos;
      assert msgs[pos..next] == [];
      ghost var n := 0;
      while true
        invariant pos <= next <= |msgs|
        invariant Load(old(disks), msgs[pos..next]) == Ok(disks) && Unended(msgs[pos..next])
        invariant n == WriteCount(msgs[pos..next]) && Writable(old(script), n) && Rest(old(script), n) == script
        decreases |msgs| - next
      {
        if next == |msgs| {
          return -EINVAL, next;  // the header reads as 0
        }
        var m := msgs[next];
        OneMore(old(disks), disks, msgs, pos, next);
        if LoadMsg(disks, m).Err? {
          return LoadMsg(disks, m).code, next;
        }
        if HasFlag(m.header, FLAG_DEVICE_BLOCK) {
          RestAnswers(old(script), n);
          ret := WriteBlock(m);
          if ret < 0 {
            return ret, next;
          }
          n := n + 1;
        } else {
          MarkLoads(disks, m);
        }
        next := next + 1;
        if HasFlag(m.header, FLAG_EOS) {
          assert msgs[pos..next - 1] == msgs[pos..next][..next - 1 - pos];
          return 0, next;
        }
      }
    }
  }

  /** The answers after the first n. */
  function Rest(script: seq<int>, n: nat): seq<int> { if n < |script| then script[n..] else [] }

  lemma RestAnswers(script: seq<int>, n: nat)
    ensures Answer(Rest(script, n), 0) == Answer(script, n)
    ensures Rest(script, n + 1) == if Rest(script, n) == [] then [] else Rest(script, n)[1..]
    ensures Writable(script, n) && Answer(script, n) >= 0 ==> Writable(script, n + 1)
  {
  }

  lemma LastOf(msgs: seq<Msg>, pos: nat)
    requires pos < |msgs|
    ensures msgs[pos..|msgs|][|msgs| - 1 - pos] == msgs[|msgs| - 1]
  {
  }

  /** With writes that succeed, block_load gives up only on a section that cannot be
      loaded. */
  lemma GaveUpBadly(disks: Store, script: seq<int>, msgs: seq<Msg>, pos: nat, next: nat, ret: int)
    requires pos <= next <= |msgs| && GaveUp(disks, script, msgs, pos, next, ret) && ret < 0
    requires Writable(script, |script|) && pos < |msgs| && HasFlag(msgs[|msgs| - 1].header, FLAG_EOS)
    ensures Load(disks, msgs[pos..]).Err?
  {
    hide Load, HasFlag, WriteCount;
    LastOf(msgs, pos);
    if next < |msgs| && Load(disks, msgs[pos..]).Ok? {
      assert msgs[pos..] == msgs[pos..next + 1] + msgs[next + 1..];
      LoadPrefix(disks, msgs[pos..next + 1], msgs[next + 1..]);
    }
  }

  /** Loads the sections of an incoming migration one after the other: a stream that can
      be loaded, and ends with an end-of-section mark, is loaded as a whole. */
  method Incoming(r: Receiver, msgs: seq<Msg>) returns (ret: int)
    modifies r
    ensures Load(old(r.disks), msgs).Ok? && (msgs != [] ==> HasFlag(msgs[|msgs| - 1].header, FLAG_EOS)) &&
            Writable(old(r.script), |old(r.script)|) ==>
              ret == 0 && r.disks == Load(old(r.disks), msgs).disks
  {
    hide Load, HasFlag, WriteCount, GaveUp, Unended;
    ghost var good := Load(r.disks, msgs).Ok? && (msgs != [] ==> HasFlag(msgs[|msgs| - 1].header, FLAG_EOS)) && Writable(r.script, |r.script|);
    var pos := 0;
    ret := 0;
    LoadNone(r.disks);
    assert msgs[..0] == [];
    while pos < |msgs|
      invariant 0 <= pos <= |msgs| && ret == 0
      invariant good ==> Load(old(r.disks), msgs[..pos]) == Ok(r.disks) && Writable(r.script, |r.script|)
      decreases |msgs| - pos
    {
      ghost var disks, script, before := r.disks, r.script, pos;
      ret, pos := r.BlockLoad(msgs, pos);
      if good {
        assert msgs == msgs[..before] + msgs[before..];
        LoadSections(old(r.disks), msgs[..before], msgs[before..]);
        if ret < 0 { GaveUpBadly(disks, script, msgs, before, pos, ret); }
        assert msgs[..pos] == msgs[..before] + msgs[before..pos];
        LoadSections(old(r.disks), msgs[..before], msgs[before..pos]);
      }
      if ret < 0 { return; }
    }
    assert msgs[..pos] == msgs;
  }

  /** The destination has exactly the source's disks. */
  ghost predicate SameAsSource(disks: Store, names: seq<string>, devs: seq<Dev>)
    requires |names| == |devs|
  {
    forall d | 0 <= d < |names| :: names[d] in disks && disks[names[d]] == devs[d].disk
  }

  lemma HoldsConverged(disks: Store, names: seq<string>, dst: Disks, sent: seq<Entry>, devs: seq<Dev>)
    requires Holds(disks, names, dst, sent)
    requires |dst| == |devs| && forall d | 0 <= d < |devs| :: |dst[d]| == |devs[d].disk|
    ensures SameAsSource(disks, names, devs) <==> Converged(devs, dst, sent)
  {
    hide Received;
    if SameAsSource(disks, names, devs) {
      forall d: nat, s: nat | d < |devs| && s < |devs[d].disk| ensures Received(sent, dst[d][s], d, s) == devs[d].disk[s] {
        assert disks[names[d]][s] == Received(sent, dst[d][s], d, s);
      }
    }
  }

  lemma MarkLoads(disks: Store, m: Msg)
    requires !HasFlag(m.header, FLAG_DEVICE_BLOCK) && LoadMsg(disks, m).Ok?
    ensures LoadMsg(disks, m).disks == disks
  {
  }
}
