/** Merging of adjacent and overlapping writes (multiwrite_merge,
    bdrv_aio_multiwrite and their callback in qemu-kvm/block.c). */
module Multiwrite {
  import opened Errno

  type Byte = int

  const SECTOR: nat := 512
  const IOV_MAX: nat := 1024

  /** An I/O vector: segments of bytes. */
  type Iov = seq<seq<Byte>>

  function Flat(v: Iov): seq<Byte> {
    if v == [] then [] else v[0] + Flat(v[1..])
  }

  /** What qemu_iovec_concat adds for the first n bytes of v: the segments up to
      there, empty ones left out, the last one cut. */
  function Take(v: Iov, n: nat): Iov {
    if n == 0 || v == [] then []
    else if v[0] == [] then Take(v[1..], n)
    else if |v[0]| <= n then [v[0]] + Take(v[1..], n - |v[0]|)
    else [v[0][..n]]
  }

  /** The sector, the number of sectors and the data of a request. */
  datatype Write = Write(sector: nat, nb: nat, iov: Iov)

  predicate Fits(w: Write) { |Flat(w.iov)| == SECTOR * w.nb }

  function Lo(w: Write): nat { SECTOR * w.sector }

  function Hi(w: Write): nat { SECTOR * w.sector + SECTOR * w.nb }

  /** Byte a of the disk is one that w writes. */
  predicate Covers(w: Write, a: nat) { Lo(w) <= a < Hi(w) }

  function ByteAt(w: Write, a: nat): Byte
    requires Fits(w) && Covers(w, a)
  {
    Flat(w.iov)[a - Lo(w)]
  }

  ghost predicate AllFit(ws: seq<Write>) { forall i | 0 <= i < |ws| :: Fits(ws[i]) }

  /** Byte a of a disk that held v there, after the writes in order. */
  ghost function After(ws: seq<Write>, v: Byte, a: nat): Byte
    requires AllFit(ws)
  {
    if ws == [] then v
    else After(ws[1..], if Covers(ws[0], a) then ByteAt(ws[0], a) else v, a)
  }

  ghost predicate SortedByStart(ws: seq<Write>) {
    forall i, j | 0 <= i < j < |ws| :: ws[i].sector <= ws[j].sector
  }

  // ------------------------------------------------------------ the algorithm

  /** The first write up to where the second starts, then all of the second. */
  function Join(a: Write, b: Write): Write
    requires a.sector <= b.sector
  {
    var iov := Take(a.iov, (b.sector - a.sector) * SECTOR) + Take(b.iov, |Flat(b.iov)|);
    Write(a.sector, |Flat(iov)| / SECTOR, iov)
  }

  predicate Merges(a: Write, b: Write) {
    b.sector <= a.sector + a.nb && |a.iov| + |b.iov| + 1 <= IOV_MAX
  }

  /** What is left of the writes after merging. */
  function Merge(cur: Write, rest: seq<Write>): seq<Write>
    requires SortedByStart([cur] + rest)
    decreases |rest|
  {
    if rest == [] then [cur]
    else
      assert ([cur] + rest)[1] == rest[0];
      if Merges(cur, rest[0]) then
        JoinSorted(cur, rest);
        Merge(Join(cur, rest[0]), rest[1..])
      else
        RestSorted(cur, rest);
        [cur] + Merge(rest[0], rest[1..])
  }

  lemma JoinSorted(cur: Write, rest: seq<Write>)
    requires SortedByStart([cur] + rest) && rest != []
    ensures cur.sector <= rest[0].sector
    ensures SortedByStart([Join(cur, rest[0])] + rest[1..])
  {
    var s := [cur] + rest;
    assert s[1] == rest[0] && s[0] == cur;
    var t := [Join(cur, rest[0])] + rest[1..];
    forall i, j | 0 <= i < j < |t| ensures t[i].sector <= t[j].sector {
      assert t[j] == s[j + 1] && t[i].sector == if i == 0 then s[0].sector else s[i + 1].sector;
    }
  }

  lemma RestSorted(cur: Write, rest: seq<Write>)
    requires SortedByStart([cur] + rest) && rest != []
    ensures SortedByStart([rest[0]] + rest[1..]) && SortedByStart(rest)
    ensures forall i | 0 <= i < |rest| :: cur.sector <= rest[i].sector
  {
    var s := [cur] + rest;
    assert [rest[0]] + rest[1..] == rest;
    forall i, j | 0 <= i < j < |rest| ensures rest[i].sector <= rest[j].sector {
      assert s[i + 1] == rest[i] && s[j + 1] == rest[j];
    }
    forall i | 0 <= i < |rest| ensures cur.sector <= rest[i].sector {
      assert s[0] == cur && s[i + 1] == rest[i];
    }
  }

  // -------------------------------------------------------------- I/O vectors

  lemma {:induction false} FlatConcat(a: Iov, b: Iov)
    ensures Flat(a + b) == Flat(a) + Flat(b)
  {
    if a == [] {
      assert a + b == b;
    } else {
      assert (a + b)[0] == a[0] && (a + b)[1..] == a[1..] + b;
      FlatConcat(a[1..], b);
    }
  }

  lemma {:induction false} FlatTake(v: Iov, n: nat)
    requires n <= |Flat(v)|
    ensures Flat(Take(v, n)) == Flat(v)[..n] && |Take(v, n)| <= |v|
  {
    if n == 0 || v == [] {
    } else if v[0] == [] {
      FlatTake(v[1..], n);
    } else if |v[0]| <= n {
      FlatTake(v[1..], n - |v[0]|);
      var t := Take(v[1..], n - |v[0]|);
      assert ([v[0]] + t)[1..] == t;
    } else {
      var one := [v[0][..n]];
      assert one[1..] == [];
      assert Flat(one) == v[0][..n];
    }
  }

  lemma JoinData(a: Write, b: Write)
    requires Fits(a) && Fits(b) && a.sector <= b.sector <= a.sector + a.nb
    ensures var n := (b.sector - a.sector) * SECTOR;
            n <= |Flat(a.iov)| && Flat(Join(a, b).iov) == Flat(a.iov)[..n] + Flat(b.iov)
    ensures |Join(a, b).iov| <= |a.iov| + |b.iov|
  {
    hide Flat, Take;
    var n := (b.sector - a.sector) * SECTOR;
    FlatTake(a.iov, n);
    FlatTake(b.iov, |Flat(b.iov)|);
    FlatConcat(Take(a.iov, n), Take(b.iov, |Flat(b.iov)|));
  }

  /** A merged write covers the part of the first before the second, and the
      second, with their bytes. */
  lemma JoinBytes(a: Write, b: Write)
    requires Fits(a) && Fits(b) && a.sector <= b.sector <= a.sector + a.nb
    ensures var j := Join(a, b);
      && Fits(j) && Lo(j) == Lo(a) && Hi(j) == Hi(b) && |j.iov| <= |a.iov| + |b.iov|
      && forall p | Covers(j, p) :: (Covers(b, p) || Covers(a, p)) && ByteAt(j, p) == if Covers(b, p) then ByteAt(b, p) else ByteAt(a, p)
  {
    hide Flat, Take;
    JoinData(a, b);
    assert |Flat(Join(a, b).iov)| == SECTOR * (b.sector - a.sector + b.nb);
  }

  // ------------------------------------------------------- what merging keeps

  ghost predicate Covered(ws: seq<Write>, a: nat) {
    exists i :: 0 <= i < |ws| && Covers(ws[i], a)
  }

  /** Byte a is written by one request, a later one ends at or before it, and none
      after that writes it again. */
  ghost predicate LosesAt(ws: seq<Write>, a: nat, i: nat, j: nat) {
    && i < j < |ws| && Covers(ws[i], a) && Hi(ws[j]) <= a
    && forall k | j < k < |ws| :: !Covers(ws[k], a)
  }

  /** No byte of the sorted requests is left exposed in this way. */
  ghost predicate NothingLost(ws: seq<Write>) {
    forall a: nat, i: nat, j: nat :: !LosesAt(ws, a, i, j)
  }

  lemma {:induction false} AfterUntouched(ws: seq<Write>, v: Byte, a: nat)
    requires AllFit(ws) && !Covered(ws, a)
    ensures After(ws, v, a) == v
  {
    if ws != [] {
      assert !Covers(ws[0], a);
      assert !Covered(ws[1..], a) by { assert forall i | 0 <= i < |ws[1..]| :: ws[1..][i] == ws[i + 1]; }
      AfterUntouched(ws[1..], v, a);
    }
  }

  lemma {:induction false} AfterCovered(ws: seq<Write>, u: Byte, v: Byte, a: nat)
    requires AllFit(ws) && Covered(ws, a)
    ensures After(ws, u, a) == After(ws, v, a)
  {
    hide Fits, ByteAt;
    var i :| 0 <= i < |ws| && Covers(ws[i], a);
    if !Covers(ws[0], a) {
      assert ws[1..][i - 1] == ws[i];
      AfterCovered(ws[1..], u, v, a);
    }
  }

  /** What JoinBytes says of a merged write. */
  ghost predicate Joins(a: Write, b: Write, j: Write)
    requires Fits(a) && Fits(b)
  {
    && Fits(j) && Lo(j) == Lo(a) && Hi(j) == Hi(b) && Lo(a) <= Lo(b) <= Hi(a)
    && forall p | Covers(j, p) :: (Covers(b, p) || Covers(a, p)) && ByteAt(j, p) == if Covers(b, p) then ByteAt(b, p) else ByteAt(a, p)
  }

  /** A byte lost after merging two requests was lost before. */
  lemma JoinLoses(s: seq<Write>, t: seq<Write>, a: nat, i: nat, j: nat)
    requires |s| == |t| + 1 >= 2 && (forall k | 1 < k < |s| :: s[k] == t[k - 1])
    requires Lo(t[0]) == Lo(s[0]) <= Lo(s[1]) && Hi(t[0]) == Hi(s[1]) && Lo(s[1]) <= Hi(s[0])
    requires LosesAt(t, a, i, j)
    ensures LosesAt(s, a, if i > 0 then i + 1 else if Covers(s[1], a) then 1 else 0, j + 1)
  {
    assert s[j + 1] == t[j];
    if i > 0 { assert s[i + 1] == t[i]; }
  }

  /** Merging two requests keeps the value of a byte that is not lost. */
  lemma JoinValue(cur: Write, r: Write, tail: seq<Write>, jn: Write, v: Byte, a: nat)
    requires Fits(cur) && Fits(r) && AllFit(tail) && Joins(cur, r, jn)
    requires Covers(cur, a) && Hi(r) <= a ==> Covered(tail, a)
    ensures AllFit([cur] + ([r] + tail)) && AllFit([jn] + tail)
    ensures After([jn] + tail, v, a) == After([cur] + ([r] + tail), v, a)
  {
    hide Fits, ByteAt, AllFit, Covered;
    var u := if Covers(cur, a) then ByteAt(cur, a) else v;
    var x := if Covers(r, a) then ByteAt(r, a) else u;
    var y := if Covers(jn, a) then ByteAt(jn, a) else v;
    AfterFirst(r, tail, u, a);
    AfterFirst(cur, [r] + tail, v, a);
    AfterFirst(jn, tail, v, a);
    if x != y {
      AfterCovered(tail, x, y, a);
    }
  }

  lemma AllFitSplit(a: seq<Write>, b: seq<Write>)
    ensures AllFit(a + b) <==> AllFit(a) && AllFit(b)
  {
    hide Fits;
    assert forall i | 0 <= i < |a| :: (a + b)[i] == a[i];
    assert forall i | 0 <= i < |b| :: (a + b)[|a| + i] == b[i];
  }

  lemma AfterFirst(w: Write, ws: seq<Write>, v: Byte, a: nat)
    requires Fits(w) && AllFit(ws)
    ensures AllFit([w] + ws)
    ensures After([w] + ws, v, a) == After(ws, if Covers(w, a) then ByteAt(w, a) else v, a)
  {
    hide Fits, ByteAt;
    assert ([w] + ws)[1..] == ws && ([w] + ws)[0] == w;
    AllFitSplit([w], ws);
  }

  ghost predicate LosesNone(ws: seq<Write>, a: nat) {
    forall i: nat, j: nat :: !LosesAt(ws, a, i, j)
  }

  lemma {:induction false} MergeFits(cur: Write, rest: seq<Write>)
    requires SortedByStart([cur] + rest) && Fits(cur) && AllFit(rest)
    ensures AllFit(Merge(cur, rest))
    decreases |rest|
  {
    hide Fits, Merges, Join;
    if rest != [] {
      if Merges(cur, rest[0]) {
        JoinSorted(cur, rest);
        JoinFits(cur, rest[0]);
        MergeFits(Join(cur, rest[0]), rest[1..]);
      } else {
        RestSorted(cur, rest);
        MergeFits(rest[0], rest[1..]);
        AllFitSplit([cur], Merge(rest[0], rest[1..]));
      }
    }
  }

  lemma JoinFits(a: Write, b: Write)
    requires Fits(a) && Fits(b) && a.sector <= b.sector && Merges(a, b)
    ensures Fits(Join(a, b)) && Joins(a, b, Join(a, b)) && |Join(a, b).iov| <= |a.iov| + |b.iov|
  {
    hide Flat, Take;
    JoinBytes(a, b);
  }

  /** Where nothing is lost, the merged requests write what the sorted requests
      write in order, whether or not the limit on the vector length was met. */
  lemma {:induction false} MergeKeeps(cur: Write, rest: seq<Write>, v: Byte, a: nat)
    requires SortedByStart([cur] + rest) && Fits(cur) && AllFit(rest)
    requires LosesNone([cur] + rest, a)
    ensures AllFit(Merge(cur, rest)) && AllFit([cur] + rest)
    ensures After(Merge(cur, rest), v, a) == After([cur] + rest, v, a)
    decreases |rest|
  {
    hide Fits, Merges, Join, After, LosesAt, SortedByStart, AllFit, ByteAt;
    MergeFits(cur, rest);
    AfterFirst(cur, rest, v, a);
    if rest == [] {
      assert [cur] + rest == [cur];
    } else {
      var r, tail := rest[0], rest[1..];
      assert rest == [r] + tail;
      AllFitSplit([r], tail);
      OneFits(r);
      if Merges(cur, r) {
        JoinSorted(cur, rest);
        JoinFits(cur, r);
        JoinSafe(cur, r, tail, Join(cur, r), a);
        JoinValue(cur, r, tail, Join(cur, r), v, a);
        MergeKeeps(Join(cur, r), tail, v, a);
      } else {
        RestSorted(cur, rest);
        RestSafe(cur, rest, a);
        var u := if Covers(cur, a) then ByteAt(cur, a) else v;
        MergeKeeps(r, tail, u, a);
        AfterFirst(cur, Merge(r, tail), v, a);
      }
    }
  }

  lemma OneFits(w: Write)
    ensures AllFit([w]) <==> Fits(w)
  {
    hide Fits;
    assert [w][0] == w;
  }

  lemma RestLoses(cur: Write, rest: seq<Write>, a: nat, i: nat, j: nat)
    requires LosesAt(rest, a, i, j)
    ensures LosesAt([cur] + rest, a, i + 1, j + 1)
  {
    var s := [cur] + rest;
    assert s[i + 1] == rest[i] && s[j + 1] == rest[j];
    assert forall k | j + 1 < k < |s| :: s[k] == rest[k - 1];
  }

  lemma RestSafe(cur: Write, rest: seq<Write>, a: nat)
    requires LosesNone([cur] + rest, a)
    ensures LosesNone(rest, a)
  {
    hide LosesAt;
    forall i: nat, j: nat ensures !LosesAt(rest, a, i, j) {
      if LosesAt(rest, a, i, j) { RestLoses(cur, rest, a, i, j); }
    }
  }

  lemma JoinSafe(cur: Write, r: Write, tail: seq<Write>, jn: Write, a: nat)
    requires Fits(cur) && Fits(r) && Joins(cur, r, jn)
    requires LosesNone([cur] + ([r] + tail), a)
    ensures LosesNone([jn] + tail, a)
    ensures Covers(cur, a) && Hi(r) <= a ==> Covered(tail, a)
  {
    hide Fits, ByteAt;
    var s, t := [cur] + ([r] + tail), [jn] + tail;
    assert s[0] == cur && s[1] == r && t[0] == jn;
    assert forall k | 1 < k < |s| :: s[k] == t[k - 1];
    forall i: nat, j: nat ensures !LosesAt(t, a, i, j) {
      if LosesAt(t, a, i, j) {
        JoinLoses(s, t, a, i, j);
      }
    }
    if Covers(cur, a) && Hi(r) <= a {
      assert !LosesAt(s, a, 0, 1);
      var k :| 1 < k < |s| && Covers(s[k], a);
      assert tail[k - 2] == s[k];
    }
  }

  // ------------------------------------------------------- what merging loses

  /** The limit on the vector length never keeps apart two requests that touch. */
  ghost predicate NeverLimited(cur: Write, rest: seq<Write>)
    requires SortedByStart([cur] + rest)
    decreases |rest|
  {
    rest == [] ||
    (JoinSorted(cur, rest);
     RestSorted(cur, rest);
     && (Lo(rest[0]) <= Hi(cur) ==> Merges(cur, rest[0]))
     && NeverLimited(if Merges(cur, rest[0]) then Join(cur, rest[0]) else rest[0], rest[1..]))
  }

  /** One turn of merging where the limit is never met: requests that touch are joined. */
  lemma NeverLimitedStep(cur: Write, r: Write, tail: seq<Write>)
    requires SortedByStart([cur] + ([r] + tail)) && NeverLimited(cur, [r] + tail)
    ensures cur.sector <= r.sector && SortedByStart([Join(cur, r)] + tail) && SortedByStart([r] + tail)
    ensures Merges(cur, r) <==> Lo(r) <= Hi(cur)
    ensures NeverLimited(if Merges(cur, r) then Join(cur, r) else r, tail)
  {
    hide Join, SortedByStart;
    var rest := [r] + tail;
    assert rest[0] == r && rest[1..] == tail;
    JoinSorted(cur, rest);
    RestSorted(cur, rest);
  }

  function Segments(ws: seq<Write>): nat {
    if ws == [] then 0 else |ws[0].iov| + Segments(ws[1..])
  }

  /** The requests have few segments, all together. */
  ghost predicate Short(ws: seq<Write>) { Segments(ws) + 1 <= IOV_MAX }

  lemma SegmentsFirst(w: Write, ws: seq<Write>)
    ensures Segments([w] + ws) == |w.iov| + Segments(ws)
  {
    assert ([w] + ws)[1..] == ws;
  }

  /** Merging two short requests leaves a short list; two that do not touch stay. */
  lemma ShortStep(cur: Write, r: Write, tail: seq<Write>)
    requires Fits(cur) && Fits(r) && Short([cur] + ([r] + tail)) && cur.sector <= r.sector
    ensures Merges(cur, r) <==> Lo(r) <= Hi(cur)
    ensures Merges(cur, r) ==> Short([Join(cur, r)] + tail)
    ensures Short([r] + tail)
  {
    hide Flat, Take, Join, Fits;
    SegmentsFirst(cur, [r] + tail);
    SegmentsFirst(r, tail);
    if Merges(cur, r) {
      JoinFits(cur, r);
      SegmentsFirst(Join(cur, r), tail);
    }
  }

  /** Few segments never meet the limit. */
  lemma {:induction false} ShortIsNeverLimited(cur: Write, rest: seq<Write>)
    requires SortedByStart([cur] + rest) && Fits(cur) && AllFit(rest) && Short([cur] + rest)
    ensures NeverLimited(cur, rest)
    decreases |rest|
  {
    hide Fits, Merges, Join, SortedByStart, AllFit, Short;
    if rest != [] {
      var r, tail := rest[0], rest[1..];
      assert rest == [r] + tail;
      AllFitSplit([r], tail);
      OneFits(r);
      JoinSorted(cur, rest);
      RestSorted(cur, rest);
      ShortStep(cur, r, tail);
      if Merges(cur, r) {
        JoinFits(cur, r);
        ShortIsNeverLimited(Join(cur, r), tail);
      } else {
        ShortIsNeverLimited(r, tail);
      }
    }
  }

  /** Two requests that do not touch never meet it either, however many segments they
      have. */
  lemma ApartIsNeverLimited(a: Write, b: Write)
    requires a.sector <= b.sector && Hi(a) < Lo(b)
    ensures SortedByStart([a] + [b]) && NeverLimited(a, [b])
  {
    hide Join;
    assert [b][1..] == [];
  }

  /** Merged requests write no byte that the requests do not. */
  lemma {:induction false} MergeCovers(cur: Write, rest: seq<Write>, a: nat)
    requires SortedByStart([cur] + rest) && Fits(cur) && AllFit(rest)
    requires !Covered([cur] + rest, a)
    ensures !Covered(Merge(cur, rest), a)
    decreases |rest|
  {
    hide Fits, Merges, Join, SortedByStart, Covers, AllFit, Covered;
    if rest == [] {
      assert [cur] + rest == [cur];
    } else {
      var r, tail := rest[0], rest[1..];
      assert rest == [r] + tail;
      CoveredFirst(cur, rest, a);
      CoveredFirst(r, tail, a);
      AllFitSplit([r], tail);
      OneFits(r);
      JoinSorted(cur, rest);
      RestSorted(cur, rest);
      if Merges(cur, r) {
        JoinFits(cur, r);
        CoveredFirst(Join(cur, r), tail, a);
        MergeCovers(Join(cur, r), tail, a);
      } else {
        MergeCovers(r, tail, a);
        CoveredFirst(cur, Merge(r, tail), a);
      }
    }
  }

  /** If the limit is never met, a byte that is lost is not written at all. */
  lemma {:induction false} MergeLoses(cur: Write, rest: seq<Write>, a: nat, i: nat, j: nat)
    requires SortedByStart([cur] + rest) && Fits(cur) && AllFit(rest) && NeverLimited(cur, rest)
    requires LosesAt([cur] + rest, a, i, j)
    ensures !Covered(Merge(cur, rest), a)
    decreases |rest|
  {
    hide Fits, Merges, Join, SortedByStart, AllFit, NeverLimited, LosesAt, Covered;
    TwoOrMore([cur] + rest, a, i, j);
    var r, tail := rest[0], rest[1..];
    assert rest == [r] + tail;
    AllFitSplit([r], tail);
    OneFits(r);
    JoinSorted(cur, rest);
    RestSorted(cur, rest);
    NeverLimitedStep(cur, r, tail);
    if Merges(cur, r) {
      JoinFits(cur, r);
      JoinedLoses(cur, r, tail, Join(cur, r), a, i, j);
      if !Covered([Join(cur, r)] + tail, a) {
        MergeCovers(Join(cur, r), tail, a);
      } else {
        var x: nat, y: nat :| LosesAt([Join(cur, r)] + tail, a, x, y);
        MergeLoses(Join(cur, r), tail, a, x, y);
      }
    } else {
      LaterLoses(cur, rest, a, i, j);
      MergeLoses(r, tail, a, i - 1, j - 1);
      CoveredFirst(cur, Merge(r, tail), a);
    }
  }

  lemma TwoOrMore(s: seq<Write>, a: nat, i: nat, j: nat)
    requires LosesAt(s, a, i, j)
    ensures |s| >= 2
  {
  }

  lemma CoveredFirst(w: Write, ws: seq<Write>, a: nat)
    ensures Covered([w] + ws, a) <==> Covers(w, a) || Covered(ws, a)
  {
    var s := [w] + ws;
    assert s[0] == w && forall k | 0 <= k < |ws| :: s[k + 1] == ws[k];
    if Covered(s, a) {
      var i :| 0 <= i < |s| && Covers(s[i], a);
      assert i > 0 ==> ws[i - 1] == s[i];
    }
  }

  lemma JoinedLoses(cur: Write, r: Write, tail: seq<Write>, jn: Write, a: nat, i: nat, j: nat)
    requires Fits(cur) && Fits(r) && Joins(cur, r, jn) && LosesAt([cur] + ([r] + tail), a, i, j)
    ensures !Covered([jn] + tail, a) || exists x: nat, y: nat :: LosesAt([jn] + tail, a, x, y)
  {
    hide LosesAt, Covered, Fits, ByteAt;
    var s, t := [cur] + ([r] + tail), [jn] + tail;
    assert s[0] == cur && s[1] == r && t[0] == jn;
    assert forall k | 1 < k < |s| :: s[k] == t[k - 1];
    MergeLosesJoined(s, t, a, i, j);
  }

  /** Two requests that do not touch: what is lost is lost in the rest. */
  lemma LaterLoses(cur: Write, rest: seq<Write>, a: nat, i: nat, j: nat)
    requires LosesAt([cur] + rest, a, i, j) && Hi(cur) < Lo(rest[0])
    requires forall k | 0 <= k < |rest| :: rest[0].sector <= rest[k].sector
    ensures i > 0 && LosesAt(rest, a, i - 1, j - 1) && !Covers(cur, a)
  {
    var s := [cur] + rest;
    assert s[0] == cur && forall k | 0 <= k < |rest| :: s[k + 1] == rest[k];
    assert s[j] == rest[j - 1];
  }

  /** Merging the first two requests: a lost byte is no longer written by any, or
      it is lost by those that remain. */
  lemma MergeLosesJoined(s: seq<Write>, t: seq<Write>, a: nat, i: nat, j: nat)
    requires |s| == |t| + 1 >= 2 && (forall k | 1 < k < |s| :: s[k] == t[k - 1])
    requires Lo(t[0]) == Lo(s[0]) <= Lo(s[1]) && Hi(t[0]) == Hi(s[1])
    requires LosesAt(s, a, i, j)
    ensures !Covered(t, a) || exists x: nat, y: nat :: LosesAt(t, a, x, y)
  {
    if Covered(t, a) {
      assert forall k | 1 <= k < |t| :: t[k] == s[k + 1];
      var x: nat :| x < |t| && Covers(t[x], a);
      assert j >= 2;
      assert LosesAt(t, a, x, j - 1);
    }
  }

  /** Merging means the same as the sorted requests for every disk exactly when
      nothing is lost, provided the limit on the vector length is not met. */
  lemma MergeExact(cur: Write, rest: seq<Write>)
    requires SortedByStart([cur] + rest) && Fits(cur) && AllFit(rest) && NeverLimited(cur, rest)
    ensures AllFit(Merge(cur, rest)) && AllFit([cur] + rest)
    ensures (forall v: Byte, a: nat :: After(Merge(cur, rest), v, a) == After([cur] + rest, v, a)) <==> NothingLost([cur] + rest)
  {
    hide Fits, Merge, LosesAt, After, SortedByStart, NeverLimited;
    var s, m := [cur] + rest, Merge(cur, rest);
    MergeFits(cur, rest);
    OneFits(cur);
    AllFitSplit([cur], rest);
    if NothingLost(s) {
      forall v: Byte, a: nat ensures After(m, v, a) == After(s, v, a) {
        MergeKeeps(cur, rest, v, a);
      }
    } else {
      var a: nat, i: nat, j: nat :| LosesAt(s, a, i, j);
      MergeLoses(cur, rest, a, i, j);
      LostIsCovered(s, a, i, j);
      var v := After(s, 0, a) + 1;
      AfterUntouched(m, v, a);
      AfterCovered(s, 0, v, a);
      assert After(m, v, a) != After(s, v, a);
    }
  }

  lemma LostIsCovered(s: seq<Write>, a: nat, i: nat, j: nat)
    requires LosesAt(s, a, i, j)
    ensures Covered(s, a)
  {
  }

  /** Nothing is lost when no request ends before one that starts earlier. */
  lemma EndsInOrder(ws: seq<Write>)
    requires forall i, j | 0 <= i < j < |ws| :: Hi(ws[i]) <= Hi(ws[j])
    ensures NothingLost(ws)
  {
  }

  /** A request that lies inside an earlier one takes the earlier one's tail with
      it: two requests for sector 0, of two sectors and of one, leave the second
      sector unwritten. */
  lemma ContainedRequestLosesTail(x: seq<Byte>, y: seq<Byte>)
    requires |x| == 1024 && |y| == 512
    ensures var a, b := Write(0, 2, [x]), Write(0, 1, [y]);
      && SortedByStart([a] + [b]) && Fits(a) && AllFit([b]) && NeverLimited(a, [b])
      && LosesAt([a] + [b], 512, 0, 1)
      && !Covered(Merge(a, [b]), 512)
  {
    var a, b := Write(0, 2, [x]), Write(0, 1, [y]);
    var one, two := [x], [y];
    assert one[1..] == [] && two[1..] == [] && Flat(one) == x && Flat(two) == y;
    var s, none: seq<Write> := [a] + [b], [];
    assert [b] + none == [b];
    SegmentsFirst(a, [b]);
    SegmentsFirst(b, none);
    assert LosesAt(s, 512, 0, 1);
    ShortIsNeverLimited(a, [b]);
    MergeLoses(a, [b], 512, 0, 1);
  }

  // ----------------------------------------------------- separated, in any order

  ghost predicate Separated(ws: seq<Write>) {
    forall i, j | 0 <= i < j < |ws| :: Hi(ws[i]) < Lo(ws[j])
  }

  /** If the limit is never met, the merged requests neither touch nor overlap. */
  lemma {:induction false} MergeSeparates(cur: Write, rest: seq<Write>)
    requires SortedByStart([cur] + rest) && Fits(cur) && AllFit(rest) && NeverLimited(cur, rest)
    ensures Separated(Merge(cur, rest))
    ensures forall k | 0 <= k < |Merge(cur, rest)| :: Lo(cur) <= Lo(Merge(cur, rest)[k])
    decreases |rest|
  {
    hide Fits, Merges, Join, SortedByStart, AllFit, NeverLimited;
    if rest != [] {
      var r, tail := rest[0], rest[1..];
      assert rest == [r] + tail;
      AllFitSplit([r], tail);
      OneFits(r);
      JoinSorted(cur, rest);
      RestSorted(cur, rest);
      NeverLimitedStep(cur, r, tail);
      if Merges(cur, r) {
        JoinFits(cur, r);
        MergeSeparates(Join(cur, r), tail);
      } else {
        MergeSeparates(r, tail);
      }
    }
  }

  lemma {:induction false} MergeStarts(cur: Write, rest: seq<Write>)
    requires SortedByStart([cur] + rest)
    ensures Merge(cur, rest) != [] && Lo(Merge(cur, rest)[0]) == Lo(cur)
    decreases |rest|
  {
    hide SortedByStart, Flat, Take;
    if rest != [] {
      JoinSorted(cur, rest);
      RestSorted(cur, rest);
      if Merges(cur, rest[0]) { MergeStarts(Join(cur, rest[0]), rest[1..]); }
    }
  }

  lemma SeparatedFirst(w: Write, ws: seq<Write>)
    requires Separated([w] + ws) && ws != []
    ensures Separated(ws) && Hi(w) < Lo(ws[0])
  {
    var s := [w] + ws;
    assert s[0] == w && forall k | 0 <= k < |ws| :: s[k + 1] == ws[k];
    assert s[1] == ws[0];
  }

  /** Merged requests that are separated show that the limit was never met. */
  lemma {:induction false} SeparatedIsNeverLimited(cur: Write, rest: seq<Write>)
    requires SortedByStart([cur] + rest) && Separated(Merge(cur, rest))
    ensures NeverLimited(cur, rest)
    decreases |rest|
  {
    hide SortedByStart, Separated, Join, Merges;
    if rest != [] {
      JoinSorted(cur, rest);
      RestSorted(cur, rest);
      if Merges(cur, rest[0]) {
        SeparatedIsNeverLimited(Join(cur, rest[0]), rest[1..]);
      } else {
        MergeStarts(rest[0], rest[1..]);
        SeparatedFirst(cur, Merge(rest[0], rest[1..]));
        SeparatedIsNeverLimited(rest[0], rest[1..]);
      }
    }
  }

  /** The merged requests neither touch nor overlap if and only if the limit is never
      met. */
  lemma SeparatedExact(cur: Write, rest: seq<Write>)
    requires SortedByStart([cur] + rest) && Fits(cur) && AllFit(rest)
    ensures Separated(Merge(cur, rest)) <==> NeverLimited(cur, rest)
  {
    hide SortedByStart, Separated, Fits, AllFit, Merge;
    if NeverLimited(cur, rest) { MergeSeparates(cur, rest); }
    if Separated(Merge(cur, rest)) { SeparatedIsNeverLimited(cur, rest); }
  }

  ghost predicate Disjoint(ws: seq<Write>) {
    forall i, j, a: nat | 0 <= i < |ws| && 0 <= j < |ws| && i != j :: !(Covers(ws[i], a) && Covers(ws[j], a))
  }

  lemma {:induction false} AfterOne(ws: seq<Write>, v: Byte, a: nat, i: nat)
    requires AllFit(ws) && i < |ws| && Covers(ws[i], a)
    requires forall j | 0 <= j < |ws| && j != i :: !Covers(ws[j], a)
    ensures After(ws, v, a) == ByteAt(ws[i], a)
  {
    hide Fits, ByteAt;
    if i == 0 {
      assert !Covered(ws[1..], a) by { assert forall j | 0 <= j < |ws[1..]| :: ws[1..][j] == ws[j + 1]; }
      AfterUntouched(ws[1..], ByteAt(ws[0], a), a);
    } else {
      assert forall j | 0 <= j < |ws[1..]| :: ws[1..][j] == ws[j + 1];
      AfterOne(ws[1..], v, a, i - 1);
    }
  }

  lemma SameCovered(ws: seq<Write>, us: seq<Write>, a: nat)
    requires multiset(ws) == multiset(us) && Covered(ws, a)
    ensures Covered(us, a)
  {
    hide Covers;
    var i :| 0 <= i < |ws| && Covers(ws[i], a);
    assert ws[i] in multiset(us);
    var j :| 0 <= j < |us| && us[j] == ws[i];
  }

  lemma Twice(s: seq<Write>, i: nat, j: nat)
    requires i < j < |s| && s[i] == s[j]
    ensures multiset(s)[s[i]] >= 2
  {
    assert s == s[..j] + [s[j]] + s[j + 1..];
    assert s[..j][i] == s[j];
  }

  lemma TwoPlaces(s: seq<Write>, x: Write) returns (i: nat, j: nat)
    requires multiset(s)[x] >= 2
    ensures i < |s| && j < |s| && i != j && s[i] == x == s[j]
  {
    assert x in s;
    i :| i < |s| && s[i] == x;
    var before, after := s[..i], s[i + 1..];
    assert s == before + [x] + after;
    if x in before {
      j :| j < |before| && before[j] == x;
    } else {
      assert x in after;
      var k :| 0 <= k < |after| && after[k] == x;
      j := i + 1 + k;
    }
  }

  /** Disjointness does not depend on the order. */
  lemma StillDisjoint(ws: seq<Write>, us: seq<Write>, i: nat, j: nat, a: nat)
    requires Disjoint(ws) && multiset(ws) == multiset(us) && i < j < |us|
    ensures !(Covers(us[i], a) && Covers(us[j], a))
  {
    hide Covers;
    if us[i] == us[j] {
      Twice(us, i, j);
      var x, y := TwoPlaces(ws, us[i]);
    } else {
      assert us[i] in multiset(ws) && us[j] in multiset(ws);
      var x: nat :| x < |ws| && ws[x] == us[i];
      var y: nat :| y < |ws| && ws[y] == us[j];
    }
  }

  /** Requests that do not overlap may complete in any order. */
  lemma AnyOrder(ws: seq<Write>, us: seq<Write>, v: Byte, a: nat)
    requires AllFit(ws) && AllFit(us) && Disjoint(ws) && multiset(ws) == multiset(us)
    ensures After(ws, v, a) == After(us, v, a)
  {
    hide Fits, ByteAt, Covers, Covered;
    if Covered(us, a) { SameCovered(us, ws, a); }
    if Covered(ws, a) {
      var i := Coverer(ws, a);
      assert ws[i] in multiset(us);
      var j :| 0 <= j < |us| && us[j] == ws[i];
      forall k | 0 <= k < |us| && k != j ensures !Covers(us[k], a) {
        if k < j { StillDisjoint(ws, us, k, j, a); } else { StillDisjoint(ws, us, j, k, a); }
      }
      AfterOne(ws, v, a, i);
      AfterOne(us, v, a, j);
    } else {
      AfterUntouched(ws, v, a);
      AfterUntouched(us, v, a);
    }
  }

  /** Separated requests do not overlap. */
  lemma SeparatedDisjoint(ws: seq<Write>)
    requires Separated(ws)
    ensures Disjoint(ws)
  {
  }

  /** The two lists leave the same bytes, whatever was there. */
  ghost predicate SameEffect(ws: seq<Write>, us: seq<Write>) {
    AllFit(ws) && AllFit(us) && forall v: Byte, a: nat :: After(ws, v, a) == After(us, v, a)
  }

  /** In whatever order the requests complete, they leave what the target list leaves. */
  ghost predicate CompletesAs(ws: seq<Write>, target: seq<Write>) {
    forall us: seq<Write> | multiset(us) == multiset(ws) :: SameEffect(us, target)
  }

  lemma FitAnyOrder(ws: seq<Write>, us: seq<Write>)
    requires AllFit(ws) && multiset(us) == multiset(ws)
    ensures AllFit(us)
  {
    hide Fits;
    forall i | 0 <= i < |us| ensures Fits(us[i]) { assert us[i] in multiset(ws); }
  }

  /** Separated requests complete as they do one after the other. */
  lemma SeparatedCompletes(ws: seq<Write>, target: seq<Write>)
    requires AllFit(ws) && Separated(ws)
    ensures CompletesAs(ws, target) <==> SameEffect(ws, target)
  {
    hide Fits, After, Separated, Disjoint, AllFit;
    SeparatedDisjoint(ws);
    if SameEffect(ws, target) {
      forall us: seq<Write> | multiset(us) == multiset(ws) ensures SameEffect(us, target) {
        FitAnyOrder(ws, us);
        forall v: Byte, a: nat ensures After(us, v, a) == After(target, v, a) { AnyOrder(ws, us, v, a); }
      }
    }
  }

  lemma Coverer(ws: seq<Write>, a: nat) returns (i: nat)
    requires Covered(ws, a)
    ensures i < |ws| && Covers(ws[i], a)
  {
    i :| i < |ws| && Covers(ws[i], a);
  }

  // --------------------------------------------------------- the requests

  /** A BlockRequest: what to write, the callback, and the error field. */
  datatype BlockRequest = BlockRequest(w: Write, cb: nat, error: int)

  function Writes(rs: seq<BlockRequest>): (ws: seq<Write>)
    ensures |ws| == |rs| && forall i | 0 <= i < |rs| :: ws[i] == rs[i].w
  {
    seq(|rs|, i requires 0 <= i < |rs| => rs[i].w)
  }

  predicate InOrder(rs: seq<BlockRequest>) {
    forall i, j | 0 <= i < j < |rs| :: rs[i].w.sector <= rs[j].w.sector
  }

  function Insert(r: BlockRequest, rs: seq<BlockRequest>): seq<BlockRequest> {
    if rs == [] || r.w.sector <= rs[0].w.sector then [r] + rs else [rs[0]] + Insert(r, rs[1..])
  }

  function Sorted(rs: seq<BlockRequest>): seq<BlockRequest> {
    if rs == [] then [] else Insert(rs[0], Sorted(rs[1..]))
  }

  lemma {:induction false} InsertAdds(r: BlockRequest, rs: seq<BlockRequest>)
    ensures multiset(Insert(r, rs)) == multiset(rs) + multiset{r}
  {
    if rs != [] && r.w.sector > rs[0].w.sector {
      InsertAdds(r, rs[1..]);
      assert rs == [rs[0]] + rs[1..];
    }
  }

  lemma {:induction false} InsertInOrder(r: BlockRequest, rs: seq<BlockRequest>)
    requires InOrder(rs)
    ensures InOrder(Insert(r, rs))
    ensures forall x | x in Insert(r, rs) :: x == r || x in rs
  {
    if rs != [] && r.w.sector > rs[0].w.sector {
      InsertInOrder(r, rs[1..]);
      var t := Insert(r, rs[1..]);
      assert forall i | 0 <= i < |t| :: t[i] in t;
    }
  }

  /** There is a sorted order, so qsort has one to find. */
  lemma {:induction false} SortedKeeps(rs: seq<BlockRequest>)
    ensures InOrder(Sorted(rs)) && multiset(Sorted(rs)) == multiset(rs)
  {
    if rs != [] {
      SortedKeeps(rs[1..]);
      InsertAdds(rs[0], Sorted(rs[1..]));
      InsertInOrder(rs[0], Sorted(rs[1..]));
      assert rs == [rs[0]] + rs[1..];
    }
  }

  /** qsort with multiwrite_req_compare: some order by start sector, not
      necessarily a stable one. */
  method SortRequests(reqs: array<BlockRequest>, n: nat)
    requires n <= reqs.Length
    modifies reqs
    ensures InOrder(reqs[..n]) && multiset(reqs[..n]) == multiset(old(reqs[..n])) && reqs[n..] == old(reqs[n..])
  {
    hide InOrder, Sorted;
    ghost var one := Sorted(reqs[..n]);
    SortedKeeps(reqs[..n]);
    assert |one| == n by { assert |multiset(one)| == |multiset(reqs[..n])|; }
    var order: seq<BlockRequest> :| |order| == n && InOrder(order) && multiset(order) == multiset(reqs[..n]);
    Store(reqs, order);
  }

  method Store(reqs: array<BlockRequest>, order: seq<BlockRequest>)
    requires |order| <= reqs.Length
    modifies reqs
    ensures reqs[..|order|] == order && reqs[|order|..] == old(reqs[|order|..])
  {
    forall i | 0 <= i < |order| {
      reqs[i] := order[i];
    }
  }

  lemma InOrderSorts(rs: seq<BlockRequest>)
    requires InOrder(rs) && rs != []
    ensures SortedByStart([Writes(rs)[0]] + Writes(rs)[1..])
  {
    assert [Writes(rs)[0]] + Writes(rs)[1..] == Writes(rs);
  }

  /** The writes before i have become `done` and the write being built is cur. */
  ghost predicate Merging(ws: seq<Write>, whole: seq<Write>, done: seq<Write>, cur: Write, i: nat) {
    i <= |ws| && SortedByStart([cur] + ws[i..]) && done + Merge(cur, ws[i..]) == whole
  }

  lemma MergingStep(ws: seq<Write>, whole: seq<Write>, done: seq<Write>, cur: Write, i: nat)
    requires Merging(ws, whole, done, cur, i) && i < |ws|
    ensures cur.sector <= ws[i].sector
    ensures Merges(cur, ws[i]) ==> Merging(ws, whole, done, Join(cur, ws[i]), i + 1)
    ensures !Merges(cur, ws[i]) ==> Merging(ws, whole, done + [cur], ws[i], i + 1)
  {
    hide Join, Merges, SortedByStart;
    var rest := ws[i..];
    assert rest[0] == ws[i] && rest[1..] == ws[i + 1..];
    JoinSorted(cur, rest);
    RestSorted(cur, rest);
  }

  lemma MergingEnd(ws: seq<Write>, whole: seq<Write>, done: seq<Write>, cur: Write)
    requires Merging(ws, whole, done, cur, |ws|)
    ensures whole == done + [cur]
  {
    assert ws[|ws|..] == [];
  }

  /** multiwrite_merge: sorts the requests and merges them in place, moving the
      requests that remain to the front; the callback and error fields stay. */
  method MultiwriteMerge(reqs: array<BlockRequest>, n: nat) returns (m: nat, ghost sorted: seq<BlockRequest>)
    requires 0 < n <= reqs.Length
    modifies reqs
    ensures |sorted| == n && multiset(sorted) == multiset(old(reqs[..n])) && InOrder(sorted)
    ensures 0 < m <= n && SortedByStart([Writes(sorted)[0]] + Writes(sorted)[1..])
    ensures Writes(reqs[..m]) == Merge(Writes(sorted)[0], Writes(sorted)[1..])
    ensures forall k | 0 <= k < n :: reqs[k].cb == sorted[k].cb && reqs[k].error == sorted[k].error
    ensures reqs[n..] == old(reqs[n..])
  {
    hide Flat, Take, Join, Merges, SortedByStart, Merge, Merging, InOrder;
    SortRequests(reqs, n);
    sorted := reqs[..n];
    InOrderSorts(sorted);
    m := MergeSorted(reqs, n, sorted);
  }

  method MergeSorted(reqs: array<BlockRequest>, n: nat, ghost sorted: seq<BlockRequest>) returns (m: nat)
    requires 0 < n <= reqs.Length && sorted == reqs[..n]
    requires SortedByStart([Writes(sorted)[0]] + Writes(sorted)[1..])
    modifies reqs
    ensures 0 < m <= n && Writes(reqs[..m]) == Merge(Writes(sorted)[0], Writes(sorted)[1..])
    ensures forall k | 0 <= k < n :: reqs[k].cb == sorted[k].cb && reqs[k].error == sorted[k].error
    ensures reqs[n..] == old(reqs[n..])
  {
    hide Join, Merges, SortedByStart, Merge, MergeLoop;
    ghost var ws := Writes(sorted);
    ghost var whole := Merge(ws[0], ws[1..]);
    ghost var done: seq<Write> := [];
    var out, i := 0, 1;
    MergeLoopStart(sorted);
    while i < n
      invariant 0 <= out < i <= n && MergeLoop(reqs[..n], sorted, whole, done, out, i)
      invariant reqs[n..] == old(reqs[n..])
    {
      MergeLoopStep(reqs[..n], sorted, whole, done, out, i);
      ghost var before, rest := reqs[..n], reqs[n..];
      if Merges(reqs[out].w, reqs[i].w) {
        reqs[out] := reqs[out].(w := Join(reqs[out].w, reqs[i].w));
        assert reqs[..n] == before[out := reqs[out]];
      } else {
        done := done + [reqs[out].w];
        out := out + 1;
        reqs[out] := reqs[out].(w := reqs[i].w);
        assert reqs[..n] == before[out := reqs[out]];
      }
      assert reqs[n..] == rest;
      i := i + 1;
    }
    m := out + 1;
    MergeLoopEnd(reqs[..n], sorted, whole, done, out);
    assert reqs[..m] == reqs[..n][..m];
  }

  /** The first requests have been merged into those up to out, the last of which is
      still being built; the callback and error fields are where they were. */
  ghost predicate MergeLoop(rs: seq<BlockRequest>, sorted: seq<BlockRequest>, whole: seq<Write>, done: seq<Write>, out: nat, i: nat) {
    && |rs| == |sorted| && out < i <= |rs| && |done| == out
    && (forall k | i <= k < |rs| :: rs[k] == sorted[k])
    && (forall k | 0 <= k < |rs| :: rs[k].cb == sorted[k].cb && rs[k].error == sorted[k].error)
    && (forall k | 0 <= k < out :: rs[k].w == done[k])
    && Merging(Writes(sorted), whole, done, rs[out].w, i)
  }

  lemma MergeLoopStart(sorted: seq<BlockRequest>)
    requires sorted != [] && SortedByStart([Writes(sorted)[0]] + Writes(sorted)[1..])
    ensures MergeLoop(sorted, sorted, Merge(Writes(sorted)[0], Writes(sorted)[1..]), [], 0, 1)
  {
    hide Merge, SortedByStart, Merging;
    MergingStart(Writes(sorted));
  }

  lemma MergeLoopStep(rs: seq<BlockRequest>, sorted: seq<BlockRequest>, whole: seq<Write>, done: seq<Write>, out: nat, i: nat)
    requires MergeLoop(rs, sorted, whole, done, out, i) && out < i < |rs|
    ensures rs[out].w.sector <= rs[i].w.sector
    ensures var cur, w := rs[out].w, rs[i].w;
      if Merges(cur, w) then MergeLoop(rs[out := rs[out].(w := Join(cur, w))], sorted, whole, done, out, i + 1)
      else MergeLoop(rs[out + 1 := rs[out + 1].(w := w)], sorted, whole, done + [cur], out + 1, i + 1)
  {
    hide Merging, Merges, Join;
    MergingStep(Writes(sorted), whole, done, rs[out].w, i);
  }

  lemma MergeLoopEnd(rs: seq<BlockRequest>, sorted: seq<BlockRequest>, whole: seq<Write>, done: seq<Write>, out: nat)
    requires MergeLoop(rs, sorted, whole, done, out, |rs|) && out < |rs|
    ensures Writes(rs[..out + 1]) == whole
    ensures forall k | 0 <= k < |rs| :: rs[k].cb == sorted[k].cb && rs[k].error == sorted[k].error
  {
    hide Merging;
    MergingEnd(Writes(sorted), whole, done, rs[out].w);
    assert Writes(rs[..out + 1]) == done + [rs[out].w];
  }

  lemma MergingStart(ws: seq<Write>)
    requires ws != [] && SortedByStart([ws[0]] + ws[1..])
    ensures Merging(ws, Merge(ws[0], ws[1..]), [], ws[0], 1)
  {
  }

  // ------------------------------------------------------------ completion

  /** The first error among the results, 0 if there is none. */
  function FirstError(rets: seq<int>): int {
    if rets == [] then 0 else if rets[0] < 0 then rets[0] else FirstError(rets[1..])
  }

  lemma {:induction false} FirstErrorSnoc(rets: seq<int>, ret: int)
    ensures FirstError(rets + [ret]) == if FirstError(rets) != 0 then FirstError(rets) else if ret < 0 then ret else 0
    ensures FirstError(rets) <= 0
  {
    if rets == [] {
      assert rets + [ret] == [ret] && [ret][1..] == [];
    } else {
      assert (rets + [ret])[1..] == rets[1..] + [ret];
      FirstErrorSnoc(rets[1..], ret);
    }
  }

  datatype Call = Call(cb: nat, ret: int)

  /** MultiwriteCB: counts the merged requests that are still under way, and holds
      the callbacks of all the original ones. */
  class MultiwriteCB {
    var error: int
    var numRequests: int
    const callbacks: seq<nat>
    /** The callbacks that have been called. */
    var calls: seq<Call>
    /** The merged requests issued, and the results of those that are done. */
    ghost var issued: nat
    ghost var rets: seq<int>

    /** No callback is called before the last merged request is done; then each is
        called once, in order, with the first error. */
    ghost predicate Valid()
      reads this
    {
      && numRequests == issued - |rets| && |rets| <= issued
      && error == FirstError(rets)
      && |calls| == (if 0 < issued == |rets| then |callbacks| else 0)
      && forall i | 0 <= i < |calls| :: calls[i] == Call(callbacks[i], FirstError(rets))
    }

    constructor (callbacks: seq<nat>)
      ensures Valid() && this.callbacks == callbacks && issued == 0 && rets == [] && calls == []
    {
      this.callbacks, error, numRequests, calls, issued, rets := callbacks, 0, 0, [], 0, [];
    }

    /** multiwrite_user_cb */
    method UserCb()
      requires calls == []
      modifies `calls
      ensures |calls| == |callbacks| && forall i | 0 <= i < |calls| :: calls[i] == Call(callbacks[i], error)
    {
      var i := 0;
      while i < |callbacks|
        invariant 0 <= i <= |callbacks| && |calls| == i
        invariant forall k | 0 <= k < i :: calls[k] == Call(callbacks[k], error)
      {
        calls := calls + [Call(callbacks[i], error)];
        i := i + 1;
      }
    }

    /** multiwrite_cb: one merged request is done. */
    method RequestDone(ret: int)
      requires Valid() && |rets| < issued
      modifies `error, `numRequests, `calls, `rets
      ensures Valid() && rets == old(rets) + [ret] && issued == old(issued)
    {
      FirstErrorSnoc(rets, ret);
      if ret < 0 && error == 0 {
        error := ret;
      }
      numRequests := numRequests - 1;
      rets := rets + [ret];
      if numRequests == 0 {
        UserCb();
      }
    }
  }

  ghost predicate RequestsFit(rs: seq<BlockRequest>) { forall i | 0 <= i < |rs| :: Fits(rs[i].w) }

  lemma FitSorted(a: seq<BlockRequest>, b: seq<BlockRequest>)
    requires RequestsFit(a) && multiset(a) == multiset(b)
    ensures AllFit(Writes(b))
  {
    hide Fits;
    forall i | 0 <= i < |b| ensures Fits(b[i].w) {
      assert b[i] in multiset(a);
    }
  }

  /** bdrv_aio_multiwrite: the writes it issues, all at once, and the record that
      will call the callbacks.  The writes are separated if and only if the limit on
      the vectors never keeps apart two that touch; then they leave, in whatever
      order they complete, what the sorted requests leave one after the other, if
      and only if nothing is lost in merging. */
  method AioMultiwrite(drv: bool, reqs: array<BlockRequest>, n: nat)
    returns (ret: int, mcb: MultiwriteCB?, submitted: seq<Write>, ghost sorted: seq<BlockRequest>)
    requires n <= reqs.Length && RequestsFit(reqs[..n])
    modifies reqs
    ensures !drv ==> ret == -1 && mcb == null && submitted == []
    ensures !drv ==> forall i | 0 <= i < n :: reqs[i] == old(reqs[i]).(error := -ENOMEDIUM)
    ensures drv ==> ret == 0 && (mcb == null <==> n == 0)
    ensures drv && n == 0 ==> submitted == []
    ensures drv && n > 0 ==>
      && fresh(mcb) && mcb.Valid() && mcb.rets == [] && mcb.issued == |submitted| > 0
      && |mcb.callbacks| == n && (forall i | 0 <= i < n :: mcb.callbacks[i] == old(reqs[i].cb))
      && |sorted| == n && multiset(sorted) == multiset(old(reqs[..n])) && InOrder(sorted)
      && AllFit(Writes(sorted)) && AllFit(submitted)
      && SortedByStart([Writes(sorted)[0]] + Writes(sorted)[1..]) && submitted == Merge(Writes(sorted)[0], Writes(sorted)[1..])
      && (NothingLost(Writes(sorted)) ==> SameEffect(submitted, Writes(sorted)))
      && (Separated(submitted) <==> NeverLimited(Writes(sorted)[0], Writes(sorted)[1..]))
      && (Separated(submitted) ==> (CompletesAs(submitted, Writes(sorted)) <==> NothingLost(Writes(sorted))))
  {
    hide Flat, Take, Join, Merges, SortedByStart, Merge, Merging, InOrder, NothingLost, SameEffect, CompletesAs, Separated, NeverLimited, Fits;
    ret, mcb, submitted, sorted := 0, null, [], [];
    if !drv {
      forall i | 0 <= i < n {
        reqs[i] := reqs[i].(error := -ENOMEDIUM);
      }
      return -1, null, [], [];
    }
    if n == 0 { return; }
    var cbs := seq(n, i requires 0 <= i < n reads reqs => reqs[i].cb);
    mcb := new MultiwriteCB(cbs);
    var m;
    ghost var given := reqs[..n];
    m, sorted := MultiwriteMerge(reqs, n);
    submitted := Writes(reqs[..m]);
    FitSorted(given, sorted);
    Meaning(Writes(sorted));
    mcb.numRequests, mcb.issued := m, m;
  }

  lemma Meaning(ws: seq<Write>)
    requires ws != [] && AllFit(ws) && SortedByStart([ws[0]] + ws[1..])
    ensures var m := Merge(ws[0], ws[1..]);
      && AllFit(m)
      && (NothingLost(ws) ==> SameEffect(m, ws))
      && (Separated(m) <==> NeverLimited(ws[0], ws[1..]))
      && (Separated(m) ==> (CompletesAs(m, ws) <==> NothingLost(ws)))
  {
    hide Flat, Merge, SortedByStart, After, Separated, NeverLimited, Fits, LosesAt, CompletesAs;
    var cur, rest := ws[0], ws[1..];
    assert [cur] + rest == ws;
    MergeFits(cur, rest);
    SeparatedExact(cur, rest);
    if NeverLimited(cur, rest) {
      MergeExact(cur, rest);
      SeparatedCompletes(Merge(cur, rest), ws);
    }
    if NothingLost(ws) {
      forall v: Byte, a: nat ensures After(Merge(cur, rest), v, a) == After(ws, v, a) {
        MergeKeeps(cur, rest, v, a);
      }
    }
  }
}
