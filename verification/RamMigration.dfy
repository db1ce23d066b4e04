/** The sender of live RAM migration (ram_save_block, ram_save_setup,
    ram_save_iterate and ram_save_complete in qemu-kvm/arch_init.c), with XBZRLE
    off.  While the guest runs, its processors may write any page at any moment;
    each such write is in the dirty log or sets the dirty bit itself. */
module RamMigration {
  import opened Options
  import opened RamStream

  // -------------------------------------------------------------- the pages

  /** The pages of a block, in order. */
  function Pages(id: Id, n: nat): (s: seq<Loc>)
    ensures |s| == n
  {
    seq(n, i requires 0 <= i => Loc(id, i))
  }

  /** Every page, in the order of the scan. */
  function AllPages(order: seq<Id>, sizes: Sizes): seq<Loc>
    requires forall id | id in order :: id in sizes
  {
    if order == [] then [] else Pages(order[0], sizes[order[0]]) + AllPages(order[1..], sizes)
  }

  ghost predicate Distinct(order: seq<Id>) {
    forall i, j | 0 <= i < j < |order| :: order[i] != order[j]
  }

  /** The machine's list of RAM blocks: not empty, no empty block, and small
      enough for 64-bit sizes. */
  ghost predicate IsMachine(order: seq<Id>, sizes: Sizes) {
    && order != [] && Distinct(order)
    && (forall id :: id in order <==> id in sizes)
    && Sendable(Setup(order, sizes))
  }

  ghost predicate IsLoc(sizes: Sizes, l: Loc) {
    l.id in sizes && l.page < sizes[l.id]
  }

  /** Where page k of block b stands in the scan. */
  function Place(order: seq<Id>, sizes: Sizes, b: nat, k: nat): nat
    requires b <= |order|
  {
    TotalPages(order[..b], sizes) + k
  }

  lemma {:induction false} AllPagesSize(order: seq<Id>, sizes: Sizes)
    requires forall id | id in order :: id in sizes
    ensures |AllPages(order, sizes)| == TotalPages(order, sizes)
  {
    if order != [] { AllPagesSize(order[1..], sizes); }
  }

  lemma {:induction false} AllPagesConcat(a: seq<Id>, b: seq<Id>, sizes: Sizes)
    requires forall id | id in a + b :: id in sizes
    ensures AllPages(a + b, sizes) == AllPages(a, sizes) + AllPages(b, sizes)
  {
    if a == [] {
      assert a + b == b;
    } else {
      assert (a + b)[0] == a[0] && (a + b)[1..] == a[1..] + b;
      AllPagesConcat(a[1..], b, sizes);
    }
  }

  /** Page k of block b is where Place says. */
  lemma PlaceHolds(order: seq<Id>, sizes: Sizes, b: nat, k: nat)
    requires forall id | id in order :: id in sizes
    requires b < |order| && k < sizes[order[b]]
    ensures Place(order, sizes, b, k) < |AllPages(order, sizes)|
    ensures AllPages(order, sizes)[Place(order, sizes, b, k)] == Loc(order[b], k)
  {
    var front, back := order[..b], order[b..];
    assert order == front + back;
    AllPagesConcat(front, back, sizes);
    AllPagesSize(front, sizes);
    assert AllPages(back, sizes) == Pages(order[b], sizes[order[b]]) + AllPages(back[1..], sizes);
  }

  lemma {:induction false} TotalConcat(a: seq<Id>, b: seq<Id>, sizes: Sizes)
    ensures TotalPages(a + b, sizes) == TotalPages(a, sizes) + TotalPages(b, sizes)
  {
    if a == [] {
      assert a + b == b;
    } else {
      assert (a + b)[0] == a[0] && (a + b)[1..] == a[1..] + b;
      TotalConcat(a[1..], b, sizes);
    }
  }

  /** The page after page k of block b, going round. */
  function After(order: seq<Id>, sizes: Sizes, b: nat, k: nat): (nat, nat)
    requires b < |order| && order[b] in sizes
  {
    if k + 1 < sizes[order[b]] then (b, k + 1) else if b + 1 < |order| then (b + 1, 0) else (0, 0)
  }

  /** Going to the next page moves one place on, or from the last to the first. */
  lemma AfterPlace(order: seq<Id>, sizes: Sizes, b: nat, k: nat)
    requires forall id | id in order :: id in sizes && 0 < sizes[id]
    requires b < |order| && k < sizes[order[b]]
    ensures var (c, j) := After(order, sizes, b, k);
            var at, n := Place(order, sizes, b, k), TotalPages(order, sizes);
            c < |order| && j < sizes[order[c]] && at < n && Place(order, sizes, c, j) == if at + 1 == n then 0 else at + 1
  {
    hide TotalPages;
    var back := order[b + 1..];
    PlaceSplits(order, sizes, b);
    assert forall id | id in back :: id in order;
    SomePages(back, sizes);
    NoPages(sizes);
    assert order[0] in order && order[..0] == [] && (b + 1 == |order| ==> back == []);
  }

  lemma NoPages(sizes: Sizes)
    ensures TotalPages([], sizes) == 0
  {
  }

  lemma PlaceSplits(order: seq<Id>, sizes: Sizes, b: nat)
    requires (forall id | id in order :: id in sizes) && b < |order|
    ensures TotalPages(order[..b + 1], sizes) == TotalPages(order[..b], sizes) + sizes[order[b]]
    ensures TotalPages(order, sizes) == TotalPages(order[..b + 1], sizes) + TotalPages(order[b + 1..], sizes)
  {
    var front, back := order[..b + 1], order[b + 1..];
    var one: seq<Id> := [order[b]];
    assert order == front + back && front == order[..b] + one && one[1..] == [];
    TotalConcat(front, back, sizes);
    TotalConcat(order[..b], one, sizes);
  }

  lemma {:induction false} AllPagesIn(order: seq<Id>, sizes: Sizes, l: Loc)
    requires forall id | id in order :: id in sizes
    ensures l in AllPages(order, sizes) <==> l.id in order && l.page < sizes[l.id]
  {
    if order != [] {
      AllPagesIn(order[1..], sizes, l);
      var first := Pages(order[0], sizes[order[0]]);
      assert l in first <==> l.id == order[0] && l.page < sizes[l.id] by {
        if l.id == order[0] && l.page < sizes[l.id] { assert first[l.page] == l; }
      }
      assert order == [order[0]] + order[1..];
    }
  }

  lemma {:induction false} AllPagesDistinct(order: seq<Id>, sizes: Sizes, i: nat, j: nat)
    requires Distinct(order) && (forall id | id in order :: id in sizes)
    requires i < j < |AllPages(order, sizes)|
    ensures AllPages(order, sizes)[i] != AllPages(order, sizes)[j]
  {
    if order != [] {
      var n := sizes[order[0]];
      var rest := AllPages(order[1..], sizes);
      if n <= i {
        AllPagesDistinct(order[1..], sizes, i - n, j - n);
      } else if n <= j {
        AllPagesIn(order[1..], sizes, rest[j - n]);
        assert order[0] !in order[1..];
      }
    }
  }

  /** No two pages share a place. */
  lemma PlaceInjective(order: seq<Id>, sizes: Sizes, b: nat, k: nat, c: nat, j: nat)
    requires Distinct(order) && (forall id | id in order :: id in sizes)
    requires b < |order| && k < sizes[order[b]] && c < |order| && j < sizes[order[c]]
    requires Place(order, sizes, b, k) == Place(order, sizes, c, j)
    ensures b == c && k == j
  {
    PlaceHolds(order, sizes, b, k);
    PlaceHolds(order, sizes, c, j);
    assert order[b] == order[c];
  }

  function Wrap(start: nat, i: nat, n: nat): nat
    requires start < n && i <= n
  {
    if start + i < n then start + i else start + i - n
  }

  /** The first v pages from a place on, going round. */
  function Round(pages: seq<Loc>, start: nat, v: nat): (r: seq<Loc>)
    requires start < |pages| && v <= |pages|
    ensures |r| == v
  {
    seq(v, i requires 0 <= i < v => pages[Wrap(start, i, |pages|)])
  }

  /** The pages looked at are those from page k of block b on, going round. */
  ghost predicate RoundFrom(order: seq<Id>, sizes: Sizes, b: nat, k: nat, visited: seq<Loc>) {
    && b <= |order| && (forall id | id in order :: id in sizes)
    && var pages, start := AllPages(order, sizes), Place(order, sizes, b, k);
       && start < |pages| && |visited| <= |pages|
       && visited == Round(pages, start, |visited|)
  }

  ghost predicate NoRepeats(s: seq<Loc>) {
    forall i, j | 0 <= i < j < |s| :: s[i] != s[j]
  }

  lemma RoundNoRepeats(order: seq<Id>, sizes: Sizes, start: nat, v: nat)
    requires IsMachine(order, sizes) && start < |AllPages(order, sizes)| && v <= |AllPages(order, sizes)|
    ensures NoRepeats(Round(AllPages(order, sizes), start, v))
  {
    hide TotalPages;
    var pages := AllPages(order, sizes);
    forall i, j | 0 <= i < j < v ensures pages[Wrap(start, i, |pages|)] != pages[Wrap(start, j, |pages|)] {
      var a, b := Wrap(start, i, |pages|), Wrap(start, j, |pages|);
      if a < b { AllPagesDistinct(order, sizes, a, b); } else { AllPagesDistinct(order, sizes, b, a); }
    }
  }

  /** A whole round leaves no page out. */
  lemma RoundCovers(order: seq<Id>, sizes: Sizes, start: nat, l: Loc)
    requires IsMachine(order, sizes) && start < |AllPages(order, sizes)| && IsLoc(sizes, l)
    ensures l in Round(AllPages(order, sizes), start, |AllPages(order, sizes)|)
  {
    hide TotalPages;
    var pages := AllPages(order, sizes);
    AllPagesIn(order, sizes, l);
    var i :| 0 <= i < |pages| && pages[i] == l;
    var j := if i >= start then i - start else i - start + |pages|;
    assert Wrap(start, j, |pages|) == i;
    assert Round(pages, start, |pages|)[j] == l;
  }

  ghost predicate IsPlace(order: seq<Id>, sizes: Sizes, b: nat, k: nat) {
    b < |order| && order[b] in sizes && k < sizes[order[b]]
  }

  /** Going round from page k0 of block b0, v clean pages have been passed and
      page k of block b comes next. */
  ghost predicate Scanned(order: seq<Id>, sizes: Sizes, dirty: set<Loc>, b0: nat, k0: nat, v: nat, b: nat, k: nat)
    requires IsMachine(order, sizes)
  {
    && IsPlace(order, sizes, b0, k0) && IsPlace(order, sizes, b, k)
    && var pages, start := AllPages(order, sizes), Place(order, sizes, b0, k0);
       && start < |pages| && v < |pages|
       && Place(order, sizes, b, k) == Wrap(start, v, |pages|)
       && forall i | 0 <= i < v :: Round(pages, start, v)[i] !in dirty
  }

  lemma ScanStart(order: seq<Id>, sizes: Sizes, dirty: set<Loc>, b: nat, k: nat)
    requires IsMachine(order, sizes) && IsPlace(order, sizes, b, k)
    ensures Scanned(order, sizes, dirty, b, k, 0, b, k)
  {
    hide Sendable, AllPages, Place;
    PlaceHolds(order, sizes, b, k);
  }

  /** The pages looked at when the scan stands at a dirty page. */
  lemma ScanFound(order: seq<Id>, sizes: Sizes, dirty: set<Loc>, b0: nat, k0: nat, v: nat, b: nat, k: nat) returns (visited: seq<Loc>)
    requires IsMachine(order, sizes) && Scanned(order, sizes, dirty, b0, k0, v, b, k)
    ensures visited != [] && visited[|visited| - 1] == Loc(order[b], k) && NoRepeats(visited) && |visited| == v + 1
    ensures RoundFrom(order, sizes, b0, k0, visited)
    ensures forall i | 0 <= i < |visited| - 1 :: visited[i] !in dirty
  {
    hide Sendable, AllPages, Place;
    var pages, start := AllPages(order, sizes), Place(order, sizes, b0, k0);
    PlaceHolds(order, sizes, b, k);
    visited := Round(pages, start, v + 1);
    RoundNoRepeats(order, sizes, start, v + 1);
    assert forall i | 0 <= i < v :: visited[i] == Round(pages, start, v)[i];
  }

  /** Passing one more clean page: back at the start nothing is dirty. */
  lemma ScanNext(order: seq<Id>, sizes: Sizes, dirty: set<Loc>, b0: nat, k0: nat, v: nat, b: nat, k: nat)
    requires IsMachine(order, sizes) && Scanned(order, sizes, dirty, b0, k0, v, b, k)
    requires Loc(order[b], k) !in dirty && (forall l | l in dirty :: IsLoc(sizes, l))
    ensures var (c, j) := After(order, sizes, b, k);
      IsPlace(order, sizes, c, j) &&
      if c == b0 && j == k0 then v + 1 == TotalPages(order, sizes) && dirty == {}
      else v + 1 < TotalPages(order, sizes) && Scanned(order, sizes, dirty, b0, k0, v + 1, c, j)
  {
    hide Sendable, AllPages, TotalPages, Place;
    var pages, start := AllPages(order, sizes), Place(order, sizes, b0, k0);
    var (c, j) := After(order, sizes, b, k);
    AllPagesSize(order, sizes);
    Positive(order, sizes);
    AfterPlace(order, sizes, b, k);
    var n := |pages|;
    var at := Place(order, sizes, b, k);
    assert at == Wrap(start, v, n) && n == TotalPages(order, sizes);
    assert Place(order, sizes, c, j) == if at + 1 == n then 0 else at + 1;
    if Place(order, sizes, c, j) == start { PlaceInjective(order, sizes, c, j, b0, k0); }
    PlaceHolds(order, sizes, b, k);
    var passed := Round(pages, start, v + 1);
    assert forall i | 0 <= i < v + 1 :: passed[i] == if i < v then Round(pages, start, v)[i] else Loc(order[b], k);
    assert forall i | 0 <= i < v + 1 :: passed[i] !in dirty;
    if c == b0 && j == k0 {
      assert v + 1 == n;
      forall l | IsLoc(sizes, l) ensures l !in dirty {
        RoundCovers(order, sizes, start, l);
      }
    } else {
      assert v + 1 < n;
      assert Scanned(order, sizes, dirty, b0, k0, v + 1, c, j);
    }
  }

  lemma Positive(order: seq<Id>, sizes: Sizes)
    requires IsMachine(order, sizes)
    ensures forall id | id in order :: id in sizes && 0 < sizes[id]
  {
    hide TotalPages;
  }

  // ---------------------------------------------------------- duplicate pages

  /** is_dup_page: compares the page, a vector of 16 bytes at a time, with its
      first byte splatted over a vector. */
  method IsDupPage(page: Page) returns (dup: bool)
    ensures dup <==> page == Uniform(page[0], PAGE)
  {
    var val := Uniform(page[0], 16);
    var i := 0;
    while i < PAGE / 16
      invariant 0 <= i <= PAGE / 16
      invariant forall j | 0 <= j < 16 * i :: page[j] == page[0]
    {
      var v := page[16 * i..16 * i + 16];
      if v != val {
        assert Uniform(page[0], PAGE)[16 * i..16 * i + 16] == val;
        return false;
      }
      assert forall j | 16 * i <= j < 16 * i + 16 :: page[j] == v[j - 16 * i] == val[j - 16 * i];
      i := i + 1;
    }
    assert forall j | 0 <= j < PAGE :: page[j] == Uniform(page[0], PAGE)[j];
    dup := true;
  }

  // ------------------------------------------------------------------ the guest

  /** What the guest's processors may do: change pages, each change recorded in
      the log or in the dirty bits. */
  predicate GuestMay(mem: map<Loc, Page>, dirty: set<Loc>, log: set<Loc>,
                           mem': map<Loc, Page>, dirty': set<Loc>, log': set<Loc>) {
    && mem'.Keys == mem.Keys && dirty <= dirty' && log <= log'
    && dirty' <= mem.Keys && log' <= mem.Keys
    && forall l | l in mem && mem'[l] != mem[l] :: l in dirty' || l in log'
  }

  /** Every page is dirty, logged, or right at the destination. */
  ghost predicate Fresh(mem: map<Loc, Page>, dirty: set<Loc>, log: set<Loc>, got: map<Loc, Page>) {
    got.Keys == mem.Keys && forall l | l in mem :: l in dirty || l in log || got[l] == mem[l]
  }

  lemma GuestTwice(m0: map<Loc, Page>, d0: set<Loc>, g0: set<Loc>, m1: map<Loc, Page>, d1: set<Loc>, g1: set<Loc>,
                   m2: map<Loc, Page>, d2: set<Loc>, g2: set<Loc>)
    requires GuestMay(m0, d0, g0, m1, d1, g1) && GuestMay(m1, d1, g1, m2, d2, g2)
    ensures GuestMay(m0, d0, g0, m2, d2, g2)
  {
  }

  /** A page that is neither dirty nor logged has not been written. */
  lemma Unwritten(m0: map<Loc, Page>, d0: set<Loc>, g0: set<Loc>, m1: map<Loc, Page>, d1: set<Loc>, g1: set<Loc>, l: Loc)
    requires GuestMay(m0, d0, g0, m1, d1, g1) && l in m0
    ensures l in m1 && (l in d1 || l in g1 || (l !in d0 && l !in g0 && m1[l] == m0[l]))
  {
  }

  lemma GuestKeepsFresh(mem: map<Loc, Page>, dirty: set<Loc>, log: set<Loc>, mem': map<Loc, Page>, dirty': set<Loc>, log': set<Loc>, got: map<Loc, Page>)
    requires GuestMay(mem, dirty, log, mem', dirty', log') && Fresh(mem, dirty, log, got)
    ensures Fresh(mem', dirty', log', got)
  {
  }

  /** Sending page l, its dirty bit cleared before it was read. */
  lemma SendKeepsFresh(mem: map<Loc, Page>, dirty: set<Loc>, log: set<Loc>, mem': map<Loc, Page>, dirty': set<Loc>, log': set<Loc>,
                       got: map<Loc, Page>, l: Loc, page: Page)
    requires Fresh(mem, dirty, log, got) && l in mem
    requires GuestMay(mem, dirty - {l}, log, mem', dirty', log')
    requires l in dirty' || l in log' || page == mem'[l]
    ensures Fresh(mem', dirty', log', got[l := page])
  {
  }

  /** mem holds the pages of the machine, and so does the destination's RAM; only
      they are marked. */
  ghost predicate IsRam(order: seq<Id>, sizes: Sizes, mem: map<Loc, Page>, dirty: set<Loc>, log: set<Loc>, dst: map<Loc, Page>) {
    && IsMachine(order, sizes)
    && (forall l :: l in mem <==> IsLoc(sizes, l))
    && dirty <= mem.Keys && log <= mem.Keys
    && dst.Keys == mem.Keys
  }

  class RamSender {
    const order: seq<Id>
    const sizes: Sizes
    var mem: map<Loc, Page>
    var dirty: set<Loc>
    /** Pages written since the last memory_global_sync_dirty_bitmap. */
    var log: set<Loc>
    var stopped: bool
    /** last_block, an index into the list, and last_offset, in pages. */
    var lastBlock: Option<nat>
    var lastPage: nat
    var out: seq<Byte>
    /** What has been put on the stream, and the destination it goes to. */
    ghost var msgs: seq<Msg>
    ghost const dst: Ram

    ghost predicate Machine()
      reads this
    {
      IsRam(order, sizes, mem, dirty, log, dst.mem)
    }

    /** The stream holds the messages, and the receiver will read them as they
        were meant. */
    ghost predicate Framed()
      reads this
    {
      AllSendable(msgs) && out == EncodeAll(msgs) && AllUnderstood(sizes, dst, msgs)
    }

    /** The block where the next scan begins. */
    function FromBlock(): nat
      reads this
    {
      if lastBlock.Some? then lastBlock.value else 0
    }

    /** last_block is the block the receiver will remember. */
    ghost predicate InStep()
      reads this
    {
      if lastBlock.None? then dirty == mem.Keys && lastPage == 0
      else
        && lastBlock.value < |order| && order[lastBlock.value] in sizes && lastPage < sizes[order[lastBlock.value]]
        && ApplyAll(dst, msgs).cur == Some(order[lastBlock.value])
    }

    ghost predicate Valid()
      reads this
    {
      && Machine() && Framed() && InStep()
      && Fresh(mem, dirty, log, ApplyAll(dst, msgs).mem)
    }

    constructor (order: seq<Id>, sizes: Sizes, mem: map<Loc, Page>, ghost dst: Ram)
      requires IsMachine(order, sizes) && (forall l :: l in mem <==> IsLoc(sizes, l)) && dst.mem.Keys == mem.Keys
      ensures Machine() && !stopped && out == [] && msgs == [] && this.dst == dst
    {
      this.order, this.sizes, this.mem, this.dst := order, sizes, mem, dst;
      dirty, log, stopped, lastBlock, lastPage, out, msgs := {}, {}, false, None, 0, [], [];
    }

    /** The guest runs for a while. */
    method Guest()
      requires Machine()
      modifies `mem, `dirty, `log
      ensures GuestMay(old(mem), old(dirty), old(log), mem, dirty, log) && Machine()
      ensures stopped ==> mem == old(mem) && dirty == old(dirty) && log == old(log)
    {
      if !stopped {
        ghost var none := (mem, dirty, log);
        assert GuestMay(mem, dirty, log, none.0, none.1, none.2);
        var mem', dirty', log' :| GuestMay(mem, dirty, log, mem', dirty', log');
        mem, dirty, log := mem', dirty', log';
      }
    }

    /** The bytes of a page as the migration thread sees them.  A page that is
        being written is in the log or dirty, and may be seen torn. */
    method ReadPage(l: Loc) returns (p: Page)
      requires l in mem
      ensures l in dirty || l in log || p == mem[l]
    {
      p := mem[l];
      if l in dirty || l in log {
        p := *;
      }
    }

    /** save_block_hdr */
    method SaveBlockHdr(l: Loc, cont: bool, flag: nat)
      requires |l.id| < 256
      modifies `out
      ensures out == old(out) + (BeBytes(l.page * PAGE + (if cont then FLAG_CONTINUE else 0) + flag, 8) +
                                 if cont then [] else EncodeName(l.id))
    {
      hide BeBytes;
      var hdr := BeBytes(l.page * PAGE + (if cont then FLAG_CONTINUE else 0) + flag, 8);
      out := out + hdr;
      if !cont {
        out := out + [|l.id|];
        out := out + l.id;
        assert out == old(out) + (hdr + EncodeName(l.id));
      }
    }

    /** Reads the page a second time and puts it on the stream, as one byte if it was
        uniform before.  The guest may have written in between. */
    method PutBody(l: Loc, dup: bool, ghost p: Page) returns (bytes: int, ghost body: Body)
      requires Machine() && l in mem && (l in dirty || l in log || p == mem[l]) && (dup ==> p == Uniform(p[0], PAGE))
      modifies `mem, `dirty, `log, `out
      ensures Machine() && GuestMay(old(mem), old(dirty), old(log), mem, dirty, log)
      ensures l in dirty || l in log || BodyPage(body) == mem[l]
      ensures out == old(out) + EncodeBody(body) && body.Fill? == dup
      ensures bytes == 1 || bytes == PAGE
      ensures stopped ==> mem == old(mem) && dirty == old(dirty) && log == old(log)
    {
      hide GuestMay, IsRam, Uniform;
      Guest();
      Unwritten(old(mem), old(dirty), old(log), mem, dirty, log, l);
      var q := ReadPage(l);
      var tail: seq<Byte> := if dup then [q[0]] else q;
      body := if dup then Fill(q[0]) else Raw(q);
      out := out + tail;
      bytes := |tail|;
    }

    /** Reads the page and puts it on the stream, as one byte if it is uniform.
        The guest may write in between. */
    method PutPage(l: Loc, cont: bool) returns (bytes: int, ghost body: Body)
      requires Machine() && l in mem && |l.id| < 256
      modifies `mem, `dirty, `log, `out
      ensures Machine() && GuestMay(old(mem), old(dirty), old(log), mem, dirty, log)
      ensures l in dirty || l in log || BodyPage(body) == mem[l]
      ensures out == old(out) + (BeBytes(Header(PageMsg(l, cont, body)), 8) + (if cont then [] else EncodeName(l.id))) + EncodeBody(body)
      ensures bytes == 1 || bytes == PAGE
      ensures stopped ==> mem == old(mem) && dirty == old(dirty) && log == old(log)
    {
      hide Uniform, BeBytes, EncodeName, EncodeBody, BodyPage, GuestMay, IsRam;
      Guest();
      Unwritten(old(mem), old(dirty), old(log), mem, dirty, log, l);
      var p := ReadPage(l);
      var dup := IsDupPage(p);
      ghost var mem1, dirty1, log1 := mem, dirty, log;
      SaveBlockHdr(l, cont, if dup then FLAG_COMPRESS else FLAG_PAGE);
      bytes, body := PutBody(l, dup, p);
      GuestTwice(old(mem), old(dirty), old(log), mem1, dirty1, log1, mem, dirty, log);
    }

    /** The page sent by ram_save_block: the dirty bit goes first, then the page
        is read, so a write in between is not lost. */
    method SavePage(b: nat, k: nat) returns (bytes: int)
      requires Machine() && Framed() && b < |order| && k < sizes[order[b]]
      requires lastBlock == Some(b) ==> ApplyAll(dst, msgs).cur == Some(order[b])
      requires Fresh(mem, dirty, log, ApplyAll(dst, msgs).mem)
      modifies `mem, `dirty, `log, `out, `msgs
      ensures Machine() && Framed() && ApplyAll(dst, msgs).cur == Some(order[b])
      ensures Fresh(mem, dirty, log, ApplyAll(dst, msgs).mem)
      ensures bytes == 1 || bytes == PAGE
      ensures stopped ==> mem == old(mem) && dirty == old(dirty) - {Loc(order[b], k)} && log == old(log)
      ensures |msgs| == |old(msgs)| + 1 && old(msgs) <= msgs && msgs[|old(msgs)|].PageMsg? && msgs[|old(msgs)|].loc == Loc(order[b], k)
    {
      hide AllSendable, EncodeAll, AllUnderstood, ApplyAll, Encode, BeBytes, EncodeName, Sendable, Fresh, GuestMay, Understood, IsMachine;
      var l := Loc(order[b], k);
      Named(order, sizes, b);
      var cont := lastBlock == Some(b);
      dirty := dirty - {l};
      ghost var body;
      bytes, body := PutPage(l, cont);
      ghost var m := PageMsg(l, cont, body);
      PageFits(order, sizes, b, k, cont, body);
      Sent(sizes, dst, msgs, m);
      PageBytes(m);
      SendKeepsFresh(old(mem), old(dirty), old(log), mem, dirty, log, ApplyAll(dst, msgs).mem, l, BodyPage(body));
      msgs := msgs + [m];
    }

    /** The do-while loop of ram_save_block up to the first dirty page: where it
        stops, and the pages it has looked at. */
    method Scan() returns (found: bool, b: nat, k: nat, ghost visited: seq<Loc>)
      requires Machine() && InStep()
      ensures IsPlace(order, sizes, b, k) && NoRepeats(visited)
      ensures RoundFrom(order, sizes, FromBlock(), lastPage, visited)
      ensures found <==> dirty != {}
      ensures found ==> Loc(order[b], k) in dirty && visited != [] && visited[|visited| - 1] == Loc(order[b], k)
      ensures !found ==> lastBlock.Some? && b == lastBlock.value && k == lastPage && |visited| == TotalPages(order, sizes)
      ensures forall i | 0 <= i < |visited| - 1 :: visited[i] !in dirty
    {
      hide Scanned, TotalPages, Sendable, ApplyAll, NoRepeats, RoundFrom;
      b, k := FromBlock(), lastPage;
      Named(order, sizes, b);
      ghost var v, b0, k0 := 0, b, k;
      ScanStart(order, sizes, dirty, b, k);
      while true
        invariant IsPlace(order, sizes, b, k) && Scanned(order, sizes, dirty, b0, k0, v, b, k)
        invariant lastBlock.None? ==> b == b0 && k == k0
        decreases TotalPages(order, sizes) - v
      {
        visited := ScanFound(order, sizes, dirty, b0, k0, v, b, k);
        if Loc(order[b], k) in dirty {
          return true, b, k, visited;
        }
        ScanNext(order, sizes, dirty, b0, k0, v, b, k);
        k := k + 1;
        if k >= sizes[order[b]] {
          k := 0;
          b := b + 1;
          if b >= |order| { b := 0; }
        }
        v := v + 1;
        if lastBlock == Some(b) && lastPage == k { break; }
      }
      found := false;
    }

    /** ram_save_block */
    method RamSaveBlock() returns (bytes: int, ghost visited: seq<Loc>)
      requires Valid()
      modifies `mem, `dirty, `log, `out, `msgs, `lastBlock, `lastPage
      ensures Valid() && lastBlock.Some?
      ensures bytes == -1 <==> old(dirty) == {}
      ensures bytes == -1 ==> mem == old(mem) && dirty == {} && log == old(log) && msgs == old(msgs)
      ensures RoundFrom(order, sizes, old(FromBlock()), old(lastPage), visited)
      ensures bytes == -1 ==> |visited| == TotalPages(order, sizes)
      ensures bytes != -1 ==> bytes == 1 || bytes == PAGE
      ensures bytes != -1 ==> visited != [] && visited[|visited| - 1] in old(dirty)
      ensures bytes != -1 ==> |msgs| == |old(msgs)| + 1 && old(msgs) <= msgs && msgs[|old(msgs)|].PageMsg?
      ensures bytes != -1 ==> msgs[|old(msgs)|].loc == visited[|visited| - 1] == Loc(order[lastBlock.value], lastPage)
      ensures NoRepeats(visited) && forall i | 0 <= i < |visited| - 1 :: visited[i] !in old(dirty)
      ensures stopped && bytes != -1 ==> mem == old(mem) && log == old(log) && dirty == old(dirty) - {visited[|visited| - 1]}
    {
      hide AllSendable, EncodeAll, AllUnderstood, ApplyAll, TotalPages, NoRepeats, RoundFrom, Fresh, IsMachine;
      var found, b, k;
      found, b, k, visited := Scan();
      bytes := -1;
      if found {
        bytes := SavePage(b, k);
      }
      lastBlock := Some(b);
      lastPage := k;
    }

    /** The guest runs between two pages. */
    method RunGuest()
      requires Valid()
      modifies `mem, `dirty, `log
      ensures Valid()
    {
      hide AllSendable, EncodeAll, AllUnderstood, ApplyAll, Fresh, IsMachine;
      Guest();
      GuestKeepsFresh(old(mem), old(dirty), old(log), mem, dirty, log, ApplyAll(dst, msgs).mem);
    }

    /** qemu_put_be64 of the end-of-section word. */
    method PutEos()
      requires Valid()
      modifies `out, `msgs
      ensures Valid() && msgs == old(msgs) + [Eos]
    {
      hide AllSendable, EncodeAll, AllUnderstood, ApplyAll, Fresh, IsMachine, IsRam;
      Sent(sizes, dst, msgs, Eos);
      out := out + BeBytes(FLAG_EOS, 8);
      msgs := msgs + [Eos];
    }

    /** memory_global_sync_dirty_bitmap: logged pages become dirty. */
    method SyncDirtyBitmap()
      requires Valid()
      modifies `dirty, `log
      ensures Valid() && log == {} && dirty == old(dirty + log)
    {
      hide AllSendable, EncodeAll, AllUnderstood, ApplyAll, IsMachine;
      dirty := dirty + log;
      log := {};
    }

    /** ram_save_setup: every page is marked and the block list announced. */
    method RamSaveSetup()
      requires Machine() && msgs == [] && out == []
      modifies `dirty, `lastBlock, `lastPage, `out, `msgs
      ensures Valid() && msgs == [Setup(order, sizes), Eos]
    {
      hide EncodeAll, AllSendable, AllUnderstood, ApplyAll, Encode, TotalPages, EncodeBlocks, IsMachine, Sendable, Understood, BeBytes;
      lastBlock, lastPage := None, 0;
      dirty := mem.Keys;
      out := BeBytes(TotalPages(order, sizes) * PAGE + FLAG_MEM_SIZE, 8);
      PutBlocks();
      msgs := [];
      ghost var m := Setup(order, sizes);
      SetupSent(order, sizes, dst);
      msgs := msgs + [m];
      PutEos();
    }

    method PutBlocks()
      requires IsMachine(order, sizes)
      modifies `out
      ensures out == old(out) + EncodeBlocks(order, sizes)
    {
      hide BeBytes, EncodeBlocks, EncodeName, AllKnown, IsMachine;
      var i := 0;
      AllNamed(order, sizes);
      assert order[0..] == order;
      while i < |order|
        invariant 0 <= i <= |order| && AllKnown(order[i..], sizes)
        invariant out + EncodeBlocks(order[i..], sizes) == old(out) + EncodeBlocks(order, sizes)
      {
        BlocksTail(order, sizes, i);
        ghost var was, rest := out, EncodeBlocks(order[i + 1..], sizes);
        var block := EncodeName(order[i]) + BeBytes(sizes[order[i]] * PAGE, 8);
        out := out + block;
        assert was + block + rest == was + (block + rest);
        i := i + 1;
      }
      assert order[i..] == [];
      NoBlocks(sizes);
    }

    /** ram_save_iterate.  How often the loop turns is up to the rate limit and
        the clock; whether completion is due is up to the bandwidth estimate. */
    method RamSaveIterate() returns (due: bool)
      requires Valid()
      modifies `mem, `dirty, `log, `out, `msgs, `lastBlock, `lastPage
      ensures Valid() && old(msgs) <= msgs && IsSection(msgs[|old(msgs)|..])
    {
      hide AllSendable, EncodeAll, AllUnderstood, ApplyAll, Fresh, IsMachine, IsRam, NoRepeats;
      var turns: nat := *;
      while turns > 0
        invariant Valid() && old(msgs) <= msgs
        invariant forall i | |old(msgs)| <= i < |msgs| :: !msgs[i].Eos?
      {
        RunGuest();
        var bytes;
        ghost var visited;
        bytes, visited := RamSaveBlock();
        if bytes < 0 { break; }
        turns := turns - 1;
      }
      PutEos();
      due := *;
      if due {
        SyncDirtyBitmap();
        due := *;
      }
    }

    /** vm_stop: the processors stop; what they wrote stays logged. */
    method StopGuest()
      requires Valid()
      modifies `stopped
      ensures Valid() && stopped
    {
      stopped := true;
    }

    /** ram_save_complete, called with the guest stopped: ends with no page dirty
        or logged, so the stream holds every page as it is. */
    method RamSaveComplete()
      requires Valid() && stopped
      modifies `mem, `dirty, `log, `out, `msgs, `lastBlock, `lastPage
      ensures Valid() && mem == old(mem) && dirty == {} && log == {}
      ensures ApplyAll(dst, msgs).mem == mem
      ensures old(msgs) <= msgs && IsSection(msgs[|old(msgs)|..])
    {
      hide AllSendable, EncodeAll, AllUnderstood, ApplyAll, IsMachine, IsRam, NoRepeats, Fresh, InStep;
      SyncDirtyBitmap();
      while true
        invariant Valid() && mem == old(mem) && log == {} && old(msgs) <= msgs
        invariant forall i | |old(msgs)| <= i < |msgs| :: !msgs[i].Eos?
        decreases |dirty|
      {
        var bytes;
        ghost var visited;
        ghost var before := dirty;
        bytes, visited := RamSaveBlock();
        if bytes < 0 { break; }
        Smaller(before, dirty, visited[|visited| - 1]);
      }
      PutEos();
      FreshDone(mem, ApplyAll(dst, msgs).mem);
    }
  }

  lemma Smaller(s: set<Loc>, t: set<Loc>, x: Loc)
    requires x in s && t == s - {x}
    ensures |t| < |s|
  {
  }

  lemma FreshDone(mem: map<Loc, Page>, got: map<Loc, Page>)
    requires Fresh(mem, {}, {}, got)
    ensures got == mem
  {
    assert forall l | l in mem :: got[l] == mem[l];
  }

  lemma AllNamed(order: seq<Id>, sizes: Sizes)
    requires IsMachine(order, sizes)
    ensures AllKnown(order, sizes)
  {
    hide TotalPages;
  }

  lemma BlocksTail(order: seq<Id>, sizes: Sizes, i: nat)
    requires i < |order| && AllKnown(order[i..], sizes)
    ensures order[i] in sizes && |order[i]| < 256 && AllKnown(order[i + 1..], sizes)
    ensures EncodeBlocks(order[i..], sizes) ==
            EncodeName(order[i]) + BeBytes(sizes[order[i]] * PAGE, 8) + EncodeBlocks(order[i + 1..], sizes)
  {
    hide BeBytes, EncodeName;
    var rest := order[i..];
    assert rest[0] in rest && rest[1..] == order[i + 1..];
    assert forall id | id in order[i + 1..] :: id in rest;
  }

  lemma StartOfStream(sizes: Sizes, dst: Ram)
    ensures AllSendable([]) && EncodeAll([]) == [] && AllUnderstood(sizes, dst, []) && ApplyAll(dst, []) == dst
  {
  }

  /** What the first message on the stream establishes. */
  lemma SetupSent(order: seq<Id>, sizes: Sizes, dst: Ram)
    requires IsMachine(order, sizes)
    ensures var m := Setup(order, sizes);
      && AllSendable([] + [m]) && AllUnderstood(sizes, dst, [] + [m])
      && EncodeAll([] + [m]) == BeBytes(TotalPages(order, sizes) * PAGE + FLAG_MEM_SIZE, 8) + EncodeBlocks(order, sizes)
      && ApplyAll(dst, [] + [m]).mem == dst.mem
  {
    hide EncodeAll, AllSendable, AllUnderstood, ApplyAll, Encode, TotalPages, EncodeBlocks, BeBytes;
    var m := Setup(order, sizes);
    StartOfStream(sizes, dst);
    Sent(sizes, dst, [], m);
    SetupBytes(m);
  }

  lemma SetupBytes(m: Msg)
    requires m.Setup? && Sendable(m)
    ensures Encode(m) == BeBytes(Header(m), 8) + EncodeBlocks(m.order, m.sizes)
  {
    hide BeBytes, EncodeBlocks;
  }

  lemma Named(order: seq<Id>, sizes: Sizes, b: nat)
    requires IsMachine(order, sizes) && b < |order|
    ensures order[b] in sizes && IsId(order[b]) && 0 < sizes[order[b]]
  {
    assert order[b] in order;
  }

  /** A page of the machine has a header that fits, and the receiver knows it. */
  lemma PageFits(order: seq<Id>, sizes: Sizes, b: nat, k: nat, cont: bool, body: Body)
    requires IsMachine(order, sizes) && b < |order| && order[b] in sizes && k < sizes[order[b]]
    ensures var m := PageMsg(Loc(order[b], k), cont, body);
            Sendable(m) && forall cur :: (cont ==> cur == Some(order[b])) ==> Understood(sizes, cur, m)
  {
    hide TotalPages;
    Named(order, sizes, b);
    assert k * PAGE + PAGE <= sizes[order[b]] * PAGE;
    assert sizes[order[b]] * PAGE < WORD;
  }

  lemma PageBytes(m: Msg)
    requires m.PageMsg? && Sendable(m)
    ensures Encode(m) == (BeBytes(Header(m), 8) + (if m.cont then [] else EncodeName(m.loc.id))) + EncodeBody(m.body)
  {
    hide BeBytes, EncodeName, EncodeBody;
  }

  /** One message more on the stream. */
  lemma Sent(sizes: Sizes, dst: Ram, msgs: seq<Msg>, m: Msg)
    requires AllSendable(msgs) && AllUnderstood(sizes, dst, msgs)
    requires Sendable(m) && Understood(sizes, ApplyAll(dst, msgs).cur, m)
    ensures AllSendable(msgs + [m]) && EncodeAll(msgs + [m]) == EncodeAll(msgs) + Encode(m)
    ensures AllUnderstood(sizes, dst, msgs + [m]) && ApplyAll(dst, msgs + [m]) == Apply(ApplyAll(dst, msgs), m)
  {
    hide Sendable, Encode, Understood, Apply;
    var one := [m];
    assert one[1..] == [];
    EncodeConcat(msgs, one);
    UnderstoodConcat(sizes, dst, msgs, one);
    ApplyConcat(dst, msgs, one);
  }

  // -------------------------------------------------------- from end to end

  lemma {:induction false} FirstSection(msgs: seq<Msg>) returns (k: nat)
    requires msgs != [] && msgs[|msgs| - 1].Eos?
    ensures 0 < k <= |msgs| && IsSection(msgs[..k])
  {
    if msgs[0].Eos? {
      k := 1;
    } else {
      var j := FirstSection(msgs[1..]);
      k := j + 1;
      assert msgs[..k][1..] == msgs[1..][..j];
      assert forall i | 0 < i < k :: msgs[..k][i] == msgs[1..][..j][i - 1];
    }
  }

  lemma ExpectsSplit(have: Sizes, r: Ram, a: seq<Msg>, b: seq<Msg>, s: seq<Byte>, p: nat)
    requires Expects(have, r, a + b, s, p)
    ensures AllSendable(a) && AllSendable(b) && |EncodeAll(a + b)| == |EncodeAll(a)| + |EncodeAll(b)|
    ensures Expects(have, r, a, s, p) && Expects(have, ApplyAll(r, a), b, s, p + |EncodeAll(a)|)
  {
    hide EncodeAll, AllUnderstood, ApplyAll, Sendable;
    assert forall i | 0 <= i < |a| :: a[i] == (a + b)[i];
    assert forall i | 0 <= i < |b| :: b[i] == (a + b)[|a| + i];
    EncodeConcat(a, b);
    UnderstoodConcat(have, r, a, b);
    PrefixParts(EncodeAll(a), EncodeAll(b), s[p..]);
    assert s[p..][|EncodeAll(a)|..] == s[p + |EncodeAll(a)|..];
    assert EncodeAll(a) <= s[p..];
  }

  /** Loads the RAM sections of an incoming migration one after the other. */
  method Incoming(r: Receiver, stream: seq<Byte>, ghost msgs: seq<Msg>) returns (ret: int)
    requires r.Listed()
    modifies r
    ensures Expects(r.sizes, old(r.Now()), msgs, stream, 0) && ExactLength(msgs, stream, 0) &&
            (msgs != [] ==> msgs[|msgs| - 1].Eos?) ==>
              ret == 0 && r.Now() == ApplyAll(old(r.Now()), msgs)
  {
    hide Expects, EncodeAll, ApplyAll, IsSection, AllSendable, ExactLength;
    ghost var good := Expects(r.sizes, r.Now(), msgs, stream, 0) && ExactLength(msgs, stream, 0) && (msgs != [] ==> msgs[|msgs| - 1].Eos?);
    ghost var left := msgs;
    var p := 0;
    ret := 0;
    while p < |stream|
      invariant 0 <= p <= |stream| && ret == 0
      invariant good ==> Expects(r.sizes, r.Now(), left, stream, p) && (left != [] ==> left[|left| - 1].Eos?)
      invariant good ==> ExactLength(left, stream, p)
      invariant good ==> ApplyAll(r.Now(), left) == ApplyAll(old(r.Now()), msgs)
      decreases |stream| - p
    {
      ghost var k, q, before := 0, p, r.Now();
      if good {
        NotEmpty(left, stream, p);
        k := FirstSection(left);
        assert left[..k] + left[k..] == left;
        ExpectsSplit(r.sizes, r.Now(), left[..k], left[k..], stream, p);
        ApplyConcat(r.Now(), left[..k], left[k..]);
      }
      ret, p := r.RamLoad(stream, p, 4, left[..k]);
      if ret < 0 { return; }
      if good { LengthLeft(left, k, stream, q); left := left[k..]; }
    }
    if good { AtEnd(r.Now(), left, stream); }
  }

  ghost predicate ExactLength(msgs: seq<Msg>, s: seq<Byte>, p: nat) {
    AllSendable(msgs) && p + |EncodeAll(msgs)| == |s|
  }

  lemma NotEmpty(msgs: seq<Msg>, s: seq<Byte>, p: nat)
    requires ExactLength(msgs, s, p) && p < |s|
    ensures msgs != []
  {
  }

  lemma LengthLeft(msgs: seq<Msg>, k: nat, s: seq<Byte>, p: nat)
    requires ExactLength(msgs, s, p) && k <= |msgs|
    ensures AllSendable(msgs[..k]) && ExactLength(msgs[k..], s, p + |EncodeAll(msgs[..k])|)
  {
    hide EncodeAll, Sendable;
    EncodeConcat(msgs[..k], msgs[k..]);
    assert msgs[..k] + msgs[k..] == msgs;
  }

  lemma AtEnd(r: Ram, msgs: seq<Msg>, s: seq<Byte>)
    requires ExactLength(msgs, s, |s|)
    ensures ApplyAll(r, msgs) == r
  {
  }

  /** RAM migration converges: once the sender has completed, loading its stream
      gives the destination exactly the source's RAM. */
  method Transfer(s: RamSender, r: Receiver) returns (ret: int)
    requires s.Valid() && s.dirty == {} && s.log == {} && s.msgs != [] && s.msgs[|s.msgs| - 1].Eos?
    requires r.Listed() && r.sizes == s.sizes && r.Now() == s.dst
    modifies r
    ensures ret == 0 && r.mem == s.mem
  {
    hide EncodeAll, AllUnderstood, ApplyAll, AllSendable, IsMachine, Fresh;
    FreshDone(s.mem, ApplyAll(s.dst, s.msgs).mem);
    assert Expects(s.sizes, s.dst, s.msgs, s.out, 0) by { assert s.out[0..] == s.out; }
    ret := Incoming(r, s.out, s.msgs);
  }
}
