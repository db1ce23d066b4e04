/** The RAM section of the migration stream: how pages are framed, and the
    receiver that replays them (ram_load and host_from_stream_offset in
    qemu-kvm/arch_init.c), with XBZRLE off. */
module RamStream {
  import opened Errno
  import opened Options

  const PAGE: nat := 4096
  const FLAG_COMPRESS: nat := 0x02
  const FLAG_MEM_SIZE: nat := 0x04
  const FLAG_PAGE: nat := 0x08
  const FLAG_EOS: nat := 0x10
  const FLAG_CONTINUE: nat := 0x20
  const FLAG_XBZRLE: nat := 0x40

  type Byte = x: int | 0 <= x < 256

  function Uniform(ch: Byte, n: nat): (s: seq<Byte>)
    ensures |s| == n
  {
    seq(n, i => ch)
  }

  type Page = s: seq<Byte> | |s| == PAGE witness Uniform(0, PAGE)

  /** A block's name: what strlen sees, so no zero byte, and at most 255 long. */
  type Id = seq<Byte>

  predicate IsId(id: Id) { |id| < 256 && forall i | 0 <= i < |id| :: id[i] != 0 }

  /** A page of a RAM block. */
  datatype Loc = Loc(id: Id, page: nat)

  /** The names and the sizes, in pages, of the RAM blocks of a machine. */
  type Sizes = map<Id, nat>

  // ----------------------------------------------------------- big-endian words

  function BeBytes(x: nat, k: nat): (s: seq<Byte>)
    ensures |s| == k
  {
    if k == 0 then [] else BeBytes(x / 256, k - 1) + [x % 256]
  }

  function BeValue(s: seq<Byte>): nat {
    if s == [] then 0 else BeValue(s[..|s| - 1]) * 256 + s[|s| - 1]
  }

  /** Two to the power 64. */
  const WORD: nat := 0x1_0000_0000_0000_0000

  function Limit(k: nat): nat { if k == 0 then 1 else 256 * Limit(k - 1) }

  lemma {:induction false} BeRoundTrip(x: nat, k: nat)
    requires x < Limit(k)
    ensures BeValue(BeBytes(x, k)) == x
  {
    if k != 0 {
      var s := BeBytes(x, k);
      assert s[..|s| - 1] == BeBytes(x / 256, k - 1);
      BeRoundTrip(x / 256, k - 1);
    }
  }

  lemma WordRoundTrip(x: nat)
    requires x < WORD
    ensures BeValue(BeBytes(x, 8)) == x
  {
    assert Limit(4) == 0x1_0000_0000;
    assert Limit(8) == 256 * 256 * 256 * 256 * Limit(4);
    BeRoundTrip(x, 8);
  }

  // ------------------------------------------------------------------ messages

  /** A page of one byte value, or the bytes themselves. */
  datatype Body = Fill(ch: Byte) | Raw(bytes: Page)

  function BodyPage(b: Body): Page {
    match b
    case Fill(ch) => Uniform(ch, PAGE)
    case Raw(bytes) => bytes
  }

  datatype Msg =
    | Setup(order: seq<Id>, sizes: Sizes)
    | PageMsg(loc: Loc, cont: bool, body: Body)
    | Eos

  function TotalPages(order: seq<Id>, sizes: Sizes): nat {
    if order == [] then 0
    else (if order[0] in sizes then sizes[order[0]] else 0) + TotalPages(order[1..], sizes)
  }

  function EncodeName(id: Id): seq<Byte>
    requires |id| < 256
  {
    [|id|] + id
  }

  predicate AllKnown(order: seq<Id>, sizes: Sizes) {
    forall id | id in order :: id in sizes && |id| < 256
  }

  function EncodeBlocks(order: seq<Id>, sizes: Sizes): seq<Byte>
    requires AllKnown(order, sizes)
  {
    if order == [] then []
    else EncodeName(order[0]) + BeBytes(sizes[order[0]] * PAGE, 8) + EncodeBlocks(order[1..], sizes)
  }

  function EncodeBody(b: Body): seq<Byte> {
    match b
    case Fill(ch) => [ch]
    case Raw(bytes) => bytes
  }

  function Header(m: Msg): nat {
    match m
    case Setup(order, sizes) => TotalPages(order, sizes) * PAGE + FLAG_MEM_SIZE
    case PageMsg(loc, cont, body) =>
      loc.page * PAGE + (if cont then FLAG_CONTINUE else 0) + (if body.Fill? then FLAG_COMPRESS else FLAG_PAGE)
    case Eos => FLAG_EOS
  }

  /** A message the sender may put on the stream. */
  predicate Sendable(m: Msg) {
    && Header(m) < WORD
    && match m
       case Setup(order, sizes) =>
         forall id | id in order :: id in sizes && IsId(id) && 0 < sizes[id] && sizes[id] * PAGE < WORD
       case PageMsg(loc, _, _) => IsId(loc.id)
       case Eos => true
  }

  function Encode(m: Msg): (s: seq<Byte>)
    requires Sendable(m)
    ensures |s| >= 8
  {
    BeBytes(Header(m), 8) +
    match m
    case Setup(order, sizes) => EncodeBlocks(order, sizes)
    case PageMsg(loc, cont, body) => (if cont then [] else EncodeName(loc.id)) + EncodeBody(body)
    case Eos => []
  }

  predicate AllSendable(msgs: seq<Msg>) { forall i | 0 <= i < |msgs| :: Sendable(msgs[i]) }

  function EncodeAll(msgs: seq<Msg>): seq<Byte>
    requires AllSendable(msgs)
  {
    if msgs == [] then [] else Encode(msgs[0]) + EncodeAll(msgs[1..])
  }

  lemma {:induction false} EncodeConcat(a: seq<Msg>, b: seq<Msg>)
    requires AllSendable(a) && AllSendable(b)
    ensures EncodeAll(a + b) == EncodeAll(a) + EncodeAll(b)
  {
    hide Encode, Sendable;
    if a == [] {
      assert a + b == b;
    } else {
      assert (a + b)[0] == a[0] && (a + b)[1..] == a[1..] + b;
      EncodeConcat(a[1..], b);
    }
  }

  // ---------------------------------------------------------------- meaning

  /** What the receiver holds: its RAM and the block it remembers. */
  datatype Ram = Ram(mem: map<Loc, Page>, cur: Option<Id>)

  function Apply(r: Ram, m: Msg): Ram {
    if m.PageMsg? then Ram(r.mem[m.loc := BodyPage(m.body)], Some(m.loc.id)) else r
  }

  function ApplyAll(r: Ram, msgs: seq<Msg>): Ram
    decreases |msgs|
  {
    if msgs == [] then r else ApplyAll(Apply(r, msgs[0]), msgs[1..])
  }

  /** The message means the same to the receiver as to the sender: a page that
      continues a block does so for the block the receiver remembers, and the
      receiver has the block. */
  predicate Understood(have: Sizes, cur: Option<Id>, m: Msg) {
    match m
    case Setup(order, sizes) => forall id | id in order :: id in have && id in sizes && have[id] == sizes[id]
    case PageMsg(loc, cont, _) => loc.id in have && loc.page < have[loc.id] && (cont ==> cur == Some(loc.id))
    case Eos => true
  }

  predicate AllUnderstood(have: Sizes, r: Ram, msgs: seq<Msg>)
    decreases |msgs|
  {
    msgs == [] || (Understood(have, r.cur, msgs[0]) && AllUnderstood(have, Apply(r, msgs[0]), msgs[1..]))
  }

  lemma {:induction false} ApplyConcat(r: Ram, a: seq<Msg>, b: seq<Msg>)
    ensures ApplyAll(r, a + b) == ApplyAll(ApplyAll(r, a), b)
    decreases |a|
  {
    hide Apply;
    if a == [] {
      assert a + b == b;
    } else {
      assert (a + b)[0] == a[0] && (a + b)[1..] == a[1..] + b;
      ApplyConcat(Apply(r, a[0]), a[1..], b);
    }
  }

  lemma {:induction false} UnderstoodConcat(have: Sizes, r: Ram, a: seq<Msg>, b: seq<Msg>)
    ensures AllUnderstood(have, r, a + b) <==> AllUnderstood(have, r, a) && AllUnderstood(have, ApplyAll(r, a), b)
    decreases |a|
  {
    hide Apply, Understood;
    if a == [] {
      assert a + b == b;
    } else {
      assert (a + b)[0] == a[0] && (a + b)[1..] == a[1..] + b;
      UnderstoodConcat(have, Apply(r, a[0]), a[1..], b);
    }
  }

  // ------------------------------------------------------------- decoding facts

  predicate Bit(flags: nat, f: nat)
    requires f > 0
  {
    flags / f % 2 == 1
  }

  /** The low bits of a header decode to the flags that were put in. */
  lemma HeaderFlags(m: Msg)
    ensures var flags, addr := Header(m) % PAGE, Header(m) / PAGE * PAGE;
      && (Bit(flags, FLAG_MEM_SIZE) <==> m.Setup?)
      && (Bit(flags, FLAG_COMPRESS) <==> m.PageMsg? && m.body.Fill?)
      && (Bit(flags, FLAG_PAGE) <==> m.PageMsg? && m.body.Raw?)
      && (Bit(flags, FLAG_EOS) <==> m.Eos?)
      && (Bit(flags, FLAG_CONTINUE) <==> m.PageMsg? && m.cont)
      && !Bit(flags, FLAG_XBZRLE)
      && (m.PageMsg? ==> addr == m.loc.page * PAGE)
      && (m.Setup? ==> addr == TotalPages(m.order, m.sizes) * PAGE)
  {
    match m
    case Setup(order, sizes) => Split(TotalPages(order, sizes), FLAG_MEM_SIZE);
    case PageMsg(loc, cont, body) =>
      Split(loc.page, (if cont then FLAG_CONTINUE else 0) + (if body.Fill? then FLAG_COMPRESS else FLAG_PAGE));
    case Eos => Split(0, FLAG_EOS);
  }

  lemma Split(n: nat, low: nat)
    requires low < PAGE
    ensures (n * PAGE + low) % PAGE == low && (n * PAGE + low) / PAGE * PAGE == n * PAGE
  {
  }

  /** The part of a name that strncmp looks at. */
  function CString(s: seq<Byte>): seq<Byte> {
    if s == [] || s[0] == 0 then [] else [s[0]] + CString(s[1..])
  }

  lemma {:induction false} CStringOfId(id: Id)
    requires forall i | 0 <= i < |id| :: id[i] != 0
    ensures CString(id) == id
  {
    if id != [] { CStringOfId(id[1..]); }
  }

  lemma PrefixParts(a: seq<Byte>, b: seq<Byte>, s: seq<Byte>)
    requires a + b <= s
    ensures |a| <= |s| && s[..|a|] == a && b <= s[|a|..]
  {
    assert s[..|a + b|] == a + b;
    assert s[..|a|] == s[..|a + b|][..|a|];
    assert s[|a|..][..|b|] == s[..|a + b|][|a|..] == b;
  }

  // ------------------------------------------------------------- the receiver

  /** qemu_get_be64 at position p; false if the stream ends. */
  method GetBe64(stream: seq<Byte>, p: nat) returns (ok: bool, v: nat)
    requires p <= |stream|
    ensures ok <==> p + 8 <= |stream|
    ensures ok ==> v == BeValue(stream[p..p + 8])
  {
    ok, v := p + 8 <= |stream|, 0;
    if ok {
      var i := 0;
      while i < 8
        invariant 0 <= i <= 8 && v == BeValue(stream[p..p + i])
      {
        assert stream[p..p + i + 1][..i] == stream[p..p + i];
        v := v * 256 + stream[p + i];
        i := i + 1;
      }
    }
  }

  /** A length byte and that many bytes, as a C string. */
  method GetName(stream: seq<Byte>, p: nat) returns (ok: bool, id: Id, q: nat)
    requires p <= |stream|
    ensures ok <==> p < |stream| && p + 1 + stream[p] <= |stream|
    ensures ok ==> q == p + 1 + stream[p] && id == CString(stream[p + 1..q])
    ensures !ok ==> q == p
  {
    ok := p < |stream| && p + 1 + stream[p] <= |stream|;
    id, q := [], p;
    if ok {
      q := p + 1 + stream[p];
      id := CString(stream[p + 1..q]);
    }
  }

  /** Reading back a name that was written. */
  lemma NameRead(id: Id, rest: seq<Byte>, s: seq<Byte>, p: nat)
    requires IsId(id) && p <= |s| && EncodeName(id) + rest <= s[p..]
    ensures p < |s| && p + 1 + s[p] <= |s| && s[p] == |id| && CString(s[p + 1..p + 1 + s[p]]) == id
    ensures rest <= s[p + 1 + |id|..]
  {
    hide CString;
    var n := EncodeName(id);
    PrefixParts(n, rest, s[p..]);
    assert s[p..][..|n|] == n && s[p] == n[0];
    assert s[p + 1..p + 1 + |id|] == n[1..];
    assert s[p..][|n|..] == s[p + |n|..];
    CStringOfId(id);
  }

  /** Reading back a word that was written. */
  lemma WordRead(x: nat, rest: seq<Byte>, s: seq<Byte>, p: nat)
    requires x < WORD && p <= |s| && BeBytes(x, 8) + rest <= s[p..]
    ensures p + 8 <= |s| && BeValue(s[p..p + 8]) == x && rest <= s[p + 8..]
  {
    hide BeBytes, BeValue;
    PrefixParts(BeBytes(x, 8), rest, s[p..]);
    assert s[p..][..8] == s[p..p + 8] && s[p..][8..] == s[p + 8..];
    WordRoundTrip(x);
  }

  lemma BlocksSplit(order: seq<Id>, sizes: Sizes)
    requires Sendable(Setup(order, sizes)) && order != []
    ensures EncodeBlocks(order, sizes) ==
            EncodeName(order[0]) + (BeBytes(sizes[order[0]] * PAGE, 8) + EncodeBlocks(order[1..], sizes))
  {
    hide EncodeName, BeBytes;
  }

  lemma BlocksRead(order: seq<Id>, sizes: Sizes, s: seq<Byte>, p: nat)
    requires Sendable(Setup(order, sizes)) && order != [] && p <= |s| && EncodeBlocks(order, sizes) <= s[p..]
    ensures var id, q := order[0], p + 1 + |order[0]|;
      && p < |s| && p + 1 + s[p] <= |s| && p + 1 + s[p] == q && CString(s[p + 1..q]) == id
      && q + 8 <= |s| && BeValue(s[q..q + 8]) == sizes[id] * PAGE
      && EncodeBlocks(order[1..], sizes) <= s[q + 8..]
      && |EncodeBlocks(order, sizes)| == 9 + |id| + |EncodeBlocks(order[1..], sizes)|
  {
    hide BeBytes, BeValue, CString, EncodeBlocks, Header;
    var id, rest := order[0], EncodeBlocks(order[1..], sizes);
    var word := BeBytes(sizes[id] * PAGE, 8);
    BlocksSplit(order, sizes);
    NameRead(id, word + rest, s, p);
    WordRead(sizes[id] * PAGE, rest, s, p + 1 + |id|);
  }

  /** The blocks `left`, `total` bytes in all, are announced from p on, and the
      receiver has them all. */
  ghost predicate Announced(have: Sizes, left: seq<Id>, sizes: Sizes, total: nat, s: seq<Byte>, p: nat) {
    && p <= |s|
    && Sendable(Setup(left, sizes)) && Understood(have, None, Setup(left, sizes))
    && total == TotalPages(left, sizes) * PAGE && EncodeBlocks(left, sizes) <= s[p..]
  }

  lemma AnnouncedStep(have: Sizes, left: seq<Id>, sizes: Sizes, total: nat, s: seq<Byte>, p: nat)
    requires Announced(have, left, sizes, total, s, p) && total != 0
    ensures left != [] && left[0] in have
    ensures var id, q := left[0], p + 1 + |left[0]|;
      && p < |s| && p + 1 + s[p] <= |s| && p + 1 + s[p] == q && CString(s[p + 1..q]) == id
      && q + 8 <= |s| && BeValue(s[q..q + 8]) == have[id] * PAGE
      && Announced(have, left[1..], sizes, (total - have[id] * PAGE) % WORD, s, q + 8)
      && |EncodeBlocks(left, sizes)| == 9 + |id| + |EncodeBlocks(left[1..], sizes)|
  {
    hide EncodeBlocks, BeValue, CString;
    assert left[0] in left;
    var rest := TotalPages(left[1..], sizes) * PAGE;
    assert rest == total - have[left[0]] * PAGE;
    assert 0 <= rest < WORD;
    assert forall id | id in left[1..] :: id in left;
    BlocksRead(left, sizes, s, p);
  }

  lemma SomePages(order: seq<Id>, sizes: Sizes)
    requires forall id | id in order :: id in sizes && 0 < sizes[id]
    ensures order != [] ==> TotalPages(order, sizes) > 0
  {
    if order != [] { assert order[0] in order; }
  }

  lemma AnnouncedEnd(have: Sizes, left: seq<Id>, sizes: Sizes, s: seq<Byte>, p: nat)
    requires Announced(have, left, sizes, 0, s, p)
    ensures left == []
  {
    SomePages(left, sizes);
  }

  class Receiver {
    /** ram_list.blocks in the order of the list, and their sizes. */
    const order: seq<Id>
    const sizes: Sizes
    var mem: map<Loc, Page>
    /** The static block of host_from_stream_offset. */
    var cur: Option<Id>

    constructor (order: seq<Id>, sizes: Sizes, mem: map<Loc, Page>)
      requires forall id :: id in order <==> id in sizes
      ensures this.order == order && this.sizes == sizes && this.mem == mem && cur == None
      ensures Listed()
    {
      this.order, this.sizes, this.mem, cur := order, sizes, mem, None;
    }

    ghost predicate Listed()
    {
      forall id :: id in order <==> id in sizes
    }

    function Now(): Ram
      reads this
    {
      Ram(mem, cur)
    }

    /** The walk over ram_list.blocks. */
    method Find(id: Id) returns (found: bool)
      ensures found <==> id in order
    {
      var i := 0;
      while i < |order|
        invariant 0 <= i <= |order| && id !in order[..i]
      {
        if order[i] == id { return true; }
        assert order[..i + 1] == order[..i] + [order[i]];
        i := i + 1;
      }
      assert order[..i] == order;
      found := false;
    }

    /** Synchronises the block lists: every block named must be here with the
        same length. */
    method CheckBlocks(stream: seq<Byte>, p0: nat, total0: nat, ghost order0: seq<Id>, ghost sizes0: Sizes)
      returns (ret: int, p: nat)
      requires p0 <= |stream| && Listed()
      ensures p0 <= p <= |stream| && (ret == 0 || ret == -EINVAL || ret == -EIO)
      ensures Announced(sizes, order0, sizes0, total0, stream, p0) ==>
                ret == 0 && p == p0 + |EncodeBlocks(order0, sizes0)|
    {
      hide BeValue, CString, Announced, EncodeBlocks, TotalPages;
      ghost var good := Announced(sizes, order0, sizes0, total0, stream, p0);
      ghost var left := order0;
      if good { AnnouncedSendable(sizes, left, sizes0, total0, stream, p0); }
      var total: nat := total0;
      p, ret := p0, 0;
      while total != 0
        invariant p0 <= p <= |stream|
        invariant good ==> Announced(sizes, left, sizes0, total, stream, p) && Sendable(Setup(left, sizes0))
        invariant good ==> p + |EncodeBlocks(left, sizes0)| == p0 + |EncodeBlocks(order0, sizes0)|
        decreases |stream| - p
      {
        if good {
          AnnouncedStep(sizes, left, sizes0, total, stream, p);
          left := left[1..];
        }
        var ok, id, q := GetName(stream, p);
        if !ok { return -EIO, p; }
        var length: nat;
        ok, length := GetBe64(stream, q);
        if !ok { return -EIO, p; }
        p := q + 8;
        var found := Find(id);
        if !found { return -EINVAL, p; }
        if sizes[id] * PAGE != length { return -EINVAL, p; }
        total := (total - length) % WORD;
        if good { AnnouncedSendable(sizes, left, sizes0, total, stream, p); }
      }
      if good {
        AnnouncedEnd(sizes, left, sizes0, stream, p);
        NoBlocks(sizes0);
      }
    }

    /** host_from_stream_offset: which block the page belongs to. */
    method HostBlock(stream: seq<Byte>, p0: nat, flags: nat) returns (ok: bool, p: nat)
      requires p0 <= |stream| && Listed()
      modifies `cur
      ensures p0 <= p <= |stream|
      ensures Bit(flags, FLAG_CONTINUE) ==> ok == old(cur).Some? && p == p0 && cur == old(cur)
      ensures !Bit(flags, FLAG_CONTINUE) && p0 < |stream| && p0 + 1 + stream[p0] <= |stream| ==>
                var id := CString(stream[p0 + 1..p0 + 1 + stream[p0]]);
                p == p0 + 1 + stream[p0] && ok == (id in sizes) && cur == if ok then Some(id) else None
      ensures ok ==> cur.Some?
    {
      hide CString;
      p := p0;
      if Bit(flags, FLAG_CONTINUE) {
        return cur.Some?, p;
      }
      var read, id, q := GetName(stream, p);
      if !read { return false, p; }
      p := q;
      ok := Find(id);
      cur := if ok then Some(id) else None;
    }

    /** The body of the loop of ram_load: one header and what belongs to it. */
    method LoadOne(stream: seq<Byte>, p0: nat, ghost m: Msg) returns (ret: int, p: nat, eos: bool)
      requires p0 <= |stream| && Listed()
      modifies this
      ensures p0 <= p <= |stream| && ret <= 0 && (ret == 0 ==> p0 + 8 <= p)
      ensures Sendable(m) && Encode(m) <= stream[p0..] && Understood(sizes, old(cur), m) ==>
                ret == 0 && p == p0 + |Encode(m)| && Now() == Apply(old(Now()), m) && eos == m.Eos?
    {
      hide BeValue, CString, BeBytes, Encode, Announced, EncodeBlocks, TotalPages, Uniform, Sendable, Understood, Header, Bit;
      ghost var good := Sendable(m) && Encode(m) <= stream[p0..] && Understood(sizes, cur, m);
      if good { Decoded(m, sizes, cur, stream, p0); }
      p, eos := p0, false;
      var ok, hdr := GetBe64(stream, p);
      if !ok { return -EIO, p, eos; }
      p := p + 8;
      var flags, addr := hdr % PAGE, hdr / PAGE * PAGE;
      eos := Bit(flags, FLAG_EOS);
      if Bit(flags, FLAG_MEM_SIZE) {
        ghost var order0, sizes0 := if m.Setup? then m.order else [], if m.Setup? then m.sizes else map[];
        ret, p := CheckBlocks(stream, p, addr, order0, sizes0);
        if ret < 0 { return; }
      }
      ret := 0;
      if Bit(flags, FLAG_COMPRESS) {
        ok, p := HostBlock(stream, p, flags);
        if !ok { return -EINVAL, p, eos; }
        if p >= |stream| { return -EIO, p, eos; }
        mem := mem[Loc(cur.value, addr / PAGE) := Uniform(stream[p], PAGE)];
        p := p + 1;
      } else if Bit(flags, FLAG_PAGE) {
        ok, p := HostBlock(stream, p, flags);
        if !ok { return -EINVAL, p, eos; }
        if p + PAGE > |stream| { return -EIO, p, eos; }
        mem := mem[Loc(cur.value, addr / PAGE) := stream[p..p + PAGE]];
        p := p + PAGE;
      } else if Bit(flags, FLAG_XBZRLE) {
        return -EINVAL, p, eos;
      }
    }

    /** ram_load: messages up to and including the end of the section. */
    method RamLoad(stream: seq<Byte>, p0: nat, version: int, ghost msgs: seq<Msg>) returns (ret: int, p: nat)
      requires p0 <= |stream| && Listed()
      modifies this
      ensures p0 <= p <= |stream| && ret <= 0 && (ret == 0 ==> p0 < p)
      ensures version != 4 ==> ret == -EINVAL && p == p0 && Now() == old(Now())
      ensures version == 4 && IsSection(msgs) && Expects(sizes, old(Now()), msgs, stream, p0) ==>
                && ret == 0 && p == p0 + |EncodeAll(msgs)| && Now() == ApplyAll(old(Now()), msgs)
    {
      hide Expects, EncodeAll, ApplyAll, Encode, Apply, AllSendable;
      p := p0;
      if version != 4 { return -EINVAL, p; }
      ghost var good := IsSection(msgs) && Expects(sizes, Now(), msgs, stream, p0);
      ghost var left := msgs;
      if good { ExpectsStep(sizes, Now(), left, stream, p); }
      while true
        invariant p0 <= p <= |stream|
        invariant good ==> IsSection(left) && Expects(sizes, Now(), left, stream, p) && AllSendable(left)
        invariant good ==> AllSendable(msgs) && p + |EncodeAll(left)| == p0 + |EncodeAll(msgs)|
        invariant good ==> ApplyAll(Now(), left) == ApplyAll(old(Now()), msgs)
        decreases |stream| - p
      {
        ghost var m := if good then left[0] else Eos;
        if good { ExpectsStep(sizes, Now(), left, stream, p); }
        var eos: bool;
        ret, p, eos := LoadOne(stream, p, m);
        if ret < 0 { return; }
        if good { left := left[1..]; }
        if eos { break; }
      }
      ret := 0;
      if good { Nothing(Now(), left); }
    }
  }

  ghost predicate IsSection(msgs: seq<Msg>) {
    msgs != [] && msgs[|msgs| - 1].Eos? && forall i | 0 <= i < |msgs| - 1 :: !msgs[i].Eos?
  }

  /** The messages are on the stream from p on, and a receiver in state r
      understands them all. */
  ghost predicate Expects(have: Sizes, r: Ram, msgs: seq<Msg>, s: seq<Byte>, p: nat) {
    p <= |s| && AllSendable(msgs) && EncodeAll(msgs) <= s[p..] && AllUnderstood(have, r, msgs)
  }

  lemma ExpectsStep(have: Sizes, r: Ram, msgs: seq<Msg>, s: seq<Byte>, p: nat)
    requires Expects(have, r, msgs, s, p) && msgs != []
    ensures AllSendable(msgs) && Sendable(msgs[0]) && AllSendable(msgs[1..])
    ensures Encode(msgs[0]) <= s[p..] && Understood(have, r.cur, msgs[0])
    ensures Expects(have, Apply(r, msgs[0]), msgs[1..], s, p + |Encode(msgs[0])|)
    ensures |EncodeAll(msgs)| == |Encode(msgs[0])| + |EncodeAll(msgs[1..])|
    ensures ApplyAll(r, msgs) == ApplyAll(Apply(r, msgs[0]), msgs[1..])
  {
    hide Encode, Sendable, Apply, Understood;
    PrefixParts(Encode(msgs[0]), EncodeAll(msgs[1..]), s[p..]);
    assert s[p..][|Encode(msgs[0])|..] == s[p + |Encode(msgs[0])|..];
  }

  lemma Nothing(r: Ram, msgs: seq<Msg>)
    ensures msgs == [] ==> EncodeAll(msgs) == [] && ApplyAll(r, msgs) == r
  {
  }

  lemma PageDecoded(m: Msg, have: Sizes, cur: Option<Id>, s: seq<Byte>, p: nat)
    requires m.PageMsg? && Sendable(m) && p <= |s| && Encode(m) <= s[p..] && Understood(have, cur, m)
    ensures var q := if m.cont then p + 8 else p + 9 + |m.loc.id|;
      && (m.cont ==> cur == Some(m.loc.id))
      && (!m.cont ==> p + 8 < |s| && p + 9 + s[p + 8] == q <= |s| && CString(s[p + 9..q]) == m.loc.id && m.loc.id in have)
      && |Encode(m)| == q - p + |EncodeBody(m.body)| && p + |Encode(m)| <= |s|
      && s[q..p + |Encode(m)|] == EncodeBody(m.body)
  {
    hide BeValue, CString, BeBytes, EncodeBody, EncodeName, Header, Encode;
    PageEncoding(m);
    var body := EncodeBody(m.body);
    if m.cont {
      WordRead(Header(m), body, s, p);
      Found(body, s, p + 8);
    } else {
      WordRead(Header(m), EncodeName(m.loc.id) + body, s, p);
      NameRead(m.loc.id, body, s, p + 8);
      Found(body, s, p + 9 + |m.loc.id|);
    }
  }

  lemma PageEncoding(m: Msg)
    requires m.PageMsg? && Sendable(m)
    ensures Header(m) < WORD
    ensures m.cont ==> Encode(m) == BeBytes(Header(m), 8) + EncodeBody(m.body) && |Encode(m)| == 8 + |EncodeBody(m.body)|
    ensures !m.cont ==> Encode(m) == BeBytes(Header(m), 8) + (EncodeName(m.loc.id) + EncodeBody(m.body)) &&
                        |Encode(m)| == 9 + |m.loc.id| + |EncodeBody(m.body)|
  {
    hide BeBytes, EncodeBody, EncodeName;
    NameLength(m.loc.id);
    if m.cont { assert [] + EncodeBody(m.body) == EncodeBody(m.body); }
  }

  lemma NameLength(id: Id)
    requires |id| < 256
    ensures |EncodeName(id)| == 1 + |id|
  {
  }

  lemma Found(body: seq<Byte>, s: seq<Byte>, q: nat)
    requires q <= |s| && body <= s[q..]
    ensures q + |body| <= |s| && s[q..q + |body|] == body
  {
    assert s[q..][..|body|] == s[q..q + |body|];
  }

  /** What the receiver finds at p where m was put on the stream. */
  lemma Decoded(m: Msg, have: Sizes, cur: Option<Id>, s: seq<Byte>, p: nat)
    requires Sendable(m) && p <= |s| && Encode(m) <= s[p..] && Understood(have, cur, m)
    ensures p + 8 <= |s| && BeValue(s[p..p + 8]) == Header(m)
    ensures var flags, addr := Header(m) % PAGE, Header(m) / PAGE * PAGE;
      && (Bit(flags, FLAG_MEM_SIZE) <==> m.Setup?)
      && (Bit(flags, FLAG_COMPRESS) <==> m.PageMsg? && m.body.Fill?)
      && (Bit(flags, FLAG_PAGE) <==> m.PageMsg? && m.body.Raw?)
      && (Bit(flags, FLAG_EOS) <==> m.Eos?)
      && (Bit(flags, FLAG_CONTINUE) <==> m.PageMsg? && m.cont)
      && !Bit(flags, FLAG_XBZRLE)
      && (m.PageMsg? ==> addr / PAGE == m.loc.page)
      && (m.Setup? ==> Announced(have, m.order, m.sizes, addr, s, p + 8) && |Encode(m)| == 8 + |EncodeBlocks(m.order, m.sizes)|)
      && (m.Eos? ==> |Encode(m)| == 8)
    ensures m.PageMsg? ==>
      var q := if m.cont then p + 8 else p + 9 + |m.loc.id|;
      && (m.cont ==> cur == Some(m.loc.id))
      && (!m.cont ==> p + 8 < |s| && p + 9 + s[p + 8] == q <= |s| && CString(s[p + 9..q]) == m.loc.id && m.loc.id in have)
      && |Encode(m)| == q - p + |EncodeBody(m.body)| && p + |Encode(m)| <= |s|
      && s[q..p + |Encode(m)|] == EncodeBody(m.body)
  {
    hide BeValue, CString, BeBytes, TotalPages, EncodeBlocks, EncodeBody, Bit;
    HeaderFlags(m);
    var tail := Encode(m)[8..];
    assert Encode(m) == BeBytes(Header(m), 8) + tail;
    WordRead(Header(m), tail, s, p);
    if m.PageMsg? { PageDecoded(m, have, cur, s, p); }
  }

  lemma NoBlocks(sizes: Sizes)
    ensures EncodeBlocks([], sizes) == []
  {
  }

  lemma AnnouncedSendable(have: Sizes, left: seq<Id>, sizes: Sizes, total: nat, s: seq<Byte>, p: nat)
    requires Announced(have, left, sizes, total, s, p)
    ensures Sendable(Setup(left, sizes))
  {
  }
}
