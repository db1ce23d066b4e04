/** The linked list of bottom halves in place (qemu-kvm/async.c): qemu_bh_poll walks
    it while the callbacks, which may do anything the interface offers and poll
    again, change it under the walk. */
module BottomHalfList {

  class Bh {
    var next: Bh?
    var scheduled: bool
    var deleted: bool
    /** How often it was newly scheduled, its callback was called, and a pending call
        was dropped by cancelling or deleting. */
    ghost var asked: nat
    ghost var called: nat
    ghost var dropped: nat

    constructor (next: Bh?)
      ensures this.next == next && !scheduled && !deleted && Accounted()
    {
      this.next, scheduled, deleted := next, false, false;
      asked, called, dropped := 0, 0, 0;
    }

    /** Every scheduling has been answered by a call, was dropped, or is pending. */
    ghost predicate Accounted()
      reads `scheduled, `asked, `called, `dropped
    {
      asked == called + dropped + if scheduled then 1 else 0
    }

    ghost function Status(): Mark
      reads `scheduled, `deleted, `called, `dropped
    {
      Mark(scheduled && !deleted, called + dropped)
    }
  }

  /** Whether a call is pending, and how many have been made or dropped. */
  datatype Mark = Mark(pending: bool, settled: nat)

  /** A pending call stays pending until it is made or dropped. */
  predicate Onward(m: Mark, m': Mark) {
    m.settled <= m'.settled && (m.pending ==> m'.pending || m.settled < m'.settled)
  }

  ghost predicate AllAccounted(list: seq<Bh>)
    reads list`scheduled, list`asked, list`called, list`dropped
  {
    forall b | b in list :: b.Accounted()
  }

  /** The nodes are linked from first on in the order of the list. */
  ghost predicate Links(first: Bh?, list: seq<Bh>)
    reads list`next
  {
    && (forall i, j | 0 <= i < j < |list| :: list[i] != list[j])
    && first == (if list == [] then null else list[0])
    && (forall i | 0 <= i < |list| - 1 :: list[i].next == list[i + 1])
    && (list != [] ==> list[|list| - 1].next == null)
  }

  ghost predicate IsSuffix(tail: seq<Bh>, list: seq<Bh>) {
    |tail| <= |list| && list[|list| - |tail|..] == tail
  }

  /** The nodes that are not deleted, in order. */
  ghost function Live(list: seq<Bh>): seq<Bh>
    reads list`deleted
  {
    if list == [] then [] else (if list[0].deleted then [] else [list[0]]) + Live(list[1..])
  }

  lemma Tail(rest: seq<Bh>)
    requires rest != []
    ensures forall b | b in rest :: b == rest[0] || b in rest[1..]
  {
  }

  lemma SuffixFront(b: Bh, list: seq<Bh>)
    ensures IsSuffix(list, [b] + list)
  {
    assert ([b] + list)[1..] == list;
  }

  lemma SuffixSelf(list: seq<Bh>)
    ensures IsSuffix(list, list)
  {
  }

  lemma SuffixHead(rest: seq<Bh>, list: seq<Bh>)
    requires IsSuffix(rest, list) && rest != []
    ensures rest[0] in list
  {
    assert list[|list| - |rest|] == rest[0];
  }

  lemma SuffixTrans(a: seq<Bh>, b: seq<Bh>, c: seq<Bh>)
    requires IsSuffix(a, b) && IsSuffix(b, c)
    ensures IsSuffix(a, c)
  {
    assert c[|c| - |a|..] == c[|c| - |b|..][|b| - |a|..];
  }

  lemma SuffixTail(a: seq<Bh>, b: seq<Bh>)
    requires IsSuffix(a, b) && a != []
    ensures IsSuffix(a[1..], b)
  {
    assert b[|b| - |a| + 1..] == b[|b| - |a|..][1..];
  }

  /** Along a linked list, the next of the head of a suffix is the head of its tail. */
  lemma SuffixNext(first: Bh?, list: seq<Bh>, rest: seq<Bh>)
    requires Links(first, list) && IsSuffix(rest, list) && rest != []
    ensures rest[0].next == if |rest| > 1 then rest[1] else null
  {
    var k := |list| - |rest|;
    assert rest[0] == list[k];
    assert |rest| > 1 ==> rest[1] == list[k + 1];
    assert list[k].next == if k + 1 < |list| then list[k + 1] else null;
  }

  lemma FirstOfList(first: Bh?, list: seq<Bh>)
    requires Links(first, list)
    ensures first == if list == [] then null else list[0]
  {
  }

  lemma LinksFront(b: Bh, first: Bh?, list: seq<Bh>)
    requires Links(first, list) && b !in list && b.next == first
    ensures Links(b, [b] + list)
  {
    var l := [b] + list;
    assert forall i | 0 < i < |l| :: l[i] == list[i - 1];
  }

  class Context {
    var first: Bh?
    var nesting: nat
    ghost var list: seq<Bh>

    ghost predicate Valid()
      reads this, list
    {
      Links(first, list) && AllAccounted(list)
    }

    constructor ()
      ensures Valid() && list == [] && nesting == 0
    {
      first, nesting, list := null, 0, [];
    }

    /** qemu_bh_new */
    method New() returns (b: Bh)
      requires Valid()
      modifies `first, `list
      ensures Valid() && fresh(b) && list == [b] + old(list) && !b.scheduled && !b.deleted
    {
      hide Links;
      b := new Bh(first);
      LinksFront(b, first, list);
      first := b;
      list := [b] + list;
    }

    /** A callback, or any other code that runs between polls: it makes, schedules,
        cancels and deletes bottom halves, and polls, in any order, as deep as
        `depth`.  While a poll is under way nothing is unlinked. */
    method Outside(depth: nat)
      requires Valid()
      modifies this, list
      ensures Valid() && nesting == old(nesting)
      ensures old(nesting) > 0 ==> IsSuffix(old(list), list)
      ensures forall i | 0 <= i < |list| :: list[i] in old(list) || fresh(list[i])
      ensures forall b | b in old(list) :: Onward(old(b.Status()), b.Status())
      decreases depth, 1
    {
      hide Links, IsSuffix;
      SuffixSelf(list);
      var turns: nat := *;
      while turns > 0
        invariant Valid() && nesting == old(nesting)
        invariant old(nesting) > 0 ==> IsSuffix(old(list), list)
        invariant forall i | 0 <= i < |list| :: list[i] in old(list) || fresh(list[i])
        invariant forall b | b in old(list) :: Onward(old(b.Status()), b.Status())
      {
        ghost var before := list;
        Operation(depth);
        if old(nesting) > 0 { SuffixTrans(old(list), before, list); }
        turns := turns - 1;
      }
    }

    /** One operation of the interface. */
    method Operation(depth: nat)
      requires Valid()
      modifies this, list
      ensures Valid() && nesting == old(nesting)
      ensures old(nesting) > 0 ==> IsSuffix(old(list), list)
      ensures forall i | 0 <= i < |list| :: list[i] in old(list) || fresh(list[i])
      ensures forall b | b in old(list) :: Onward(old(b.Status()), b.Status())
      decreases depth, 0
    {
      hide Links, IsSuffix;
      SuffixSelf(list);
      var kind: nat, k: nat := *, *;
      if kind == 0 {
        var b := New();
        SuffixFront(b, old(list));
      } else if kind == 1 && depth > 0 {
        Poll(depth - 1);
      } else {
        var b := Pick(k);
        if b != null {
          Change(b, kind);
        }
      }
    }

    /** qemu_bh_schedule, qemu_bh_cancel or qemu_bh_delete. */
    static method Change(b: Bh, kind: nat)
      requires b.Accounted()
      modifies b`scheduled, b`deleted, b`asked, b`dropped
      ensures b.Accounted() && Onward(old(b.Status()), b.Status())
    {
      if kind == 2 {
        Schedule(b);
      } else if kind == 3 {
        Cancel(b);
      } else {
        Delete(b);
      }
    }

    /** Some bottom half that the code has hold of. */
    method Pick(k: nat) returns (b: Bh?)
      requires Valid()
      ensures b != null ==> b in list
    {
      b := first;
      var i := 0;
      while i < k && b != null
        invariant 0 <= i <= k && b == (if i < |list| then list[i] else null)
      {
        b := b.next;
        i := i + 1;
      }
    }

    static method Schedule(b: Bh)
      requires b.Accounted()
      modifies b`scheduled, b`asked
      ensures b.scheduled && b.Accounted()
    {
      if b.scheduled { return; }
      b.scheduled := true;
      b.asked := b.asked + 1;
    }

    static method Cancel(b: Bh)
      requires b.Accounted()
      modifies b`scheduled, b`dropped
      ensures !b.scheduled && b.Accounted() && old(b.dropped) <= b.dropped
    {
      if b.scheduled { b.dropped := b.dropped + 1; }
      b.scheduled := false;
    }

    static method Delete(b: Bh)
      requires b.Accounted()
      modifies b`scheduled, b`deleted, b`dropped
      ensures !b.scheduled && b.deleted && b.Accounted() && old(b.dropped) <= b.dropped
    {
      Cancel(b);
      b.deleted := true;
    }

    /** qemu_bh_poll.  However the callbacks change the list, the next node read
        before a callback is still linked when it returns; every call that was
        pending has been made, or dropped by cancelling or deleting; an inner poll
        unlinks nothing, and the outermost one leaves no deleted node. */
    method Poll(depth: nat)
      requires Valid()
      modifies this, list
      ensures Valid() && nesting == old(nesting)
      ensures old(nesting) > 0 ==> IsSuffix(old(list), list)
      ensures old(nesting) == 0 ==> forall b | b in list :: !b.deleted
      ensures old(nesting) == 0 ==> forall b | b in old(list) :: b in list <==> !b.deleted
      ensures forall b | b in old(list) && old(b.Status().pending) :: old(b.Status().settled) < b.Status().settled
      ensures forall i | 0 <= i < |list| :: list[i] in old(list) || fresh(list[i])
      ensures forall b | b in old(list) :: Onward(old(b.Status()), b.Status())
      decreases depth, 4
    {
      hide Links, IsSuffix, Live;
      nesting := nesting + 1;
      Walk(depth);
      nesting := nesting - 1;
      if nesting == 0 {
        ghost var before := list;
        SuffixIn(old(list), before);
        Sweep();
        LiveIn(before);
        forall i | 0 <= i < |list| ensures list[i] in old(list) || fresh(list[i]) {
          assert list[i] in before;
          var k :| 0 <= k < |before| && before[k] == list[i];
        }
      }
    }

    /** The loop of qemu_bh_poll. */
    method Walk(depth: nat)
      requires Valid() && nesting > 0
      modifies this, list
      ensures Valid() && nesting == old(nesting) && IsSuffix(old(list), list)
      ensures forall i | 0 <= i < |list| :: list[i] in old(list) || fresh(list[i])
      ensures forall b | b in old(list) :: Onward(old(b.Status()), b.Status())
      ensures forall b | b in old(list) && old(b.Status().pending) :: old(b.Status().settled) < b.Status().settled
      decreases depth, 3
    {
      hide Links, IsSuffix, AllAccounted;
      SuffixSelf(list);
      FirstOfList(first, list);
      var bh := first;
      ghost var rest := list;
      while bh != null
        invariant Valid() && nesting == old(nesting) && IsSuffix(rest, list) && IsSuffix(old(list), list)
        invariant bh == if rest == [] then null else rest[0]
        invariant forall i | 0 <= i < |list| :: list[i] in old(list) || fresh(list[i])
        invariant forall b | b in old(list) :: Onward(old(b.Status()), b.Status())
        invariant forall b | b in old(list) && old(b.Status().pending) ::
          old(b.Status().settled) < b.Status().settled || (b in rest && b.Status().pending)
        decreases |rest|
      {
        SuffixNext(first, list, rest);
        var next := bh.next;
        SuffixHead(rest, list);
        SuffixIn(old(list), list);
        if !bh.deleted && bh.scheduled {
          ghost var before := list;
          CallBack(bh, depth);
          SuffixTrans(rest, before, list);
          SuffixTrans(old(list), before, list);
        }
        SuffixTail(rest, list);
        Tail(rest);
        rest := rest[1..];
        bh := next;
      }
    }

    /** The call of a callback during a poll. */
    method CallBack(bh: Bh, depth: nat)
      requires Valid() && nesting > 0 && bh in list && bh.scheduled && !bh.deleted
      modifies this, list
      ensures Valid() && nesting == old(nesting) && IsSuffix(old(list), list)
      ensures forall i | 0 <= i < |list| :: list[i] in old(list) || fresh(list[i])
      ensures forall b | b in old(list) :: Onward(old(b.Status()), b.Status())
      ensures old(bh.Status().settled) < bh.Status().settled
      decreases depth, 2
    {
      hide Links, IsSuffix;
      bh.scheduled := false;
      bh.called := bh.called + 1;
      Outside(depth);
    }

    /** Unlinks the deleted nodes, going through the links themselves. */
    method Sweep()
      requires Valid()
      modifies `first, `list, list`next
      ensures Valid() && list == Live(old(list))
    {
      hide Links, Live, Apart, TailLinks, FrontLinks, Within, AllAccounted;

      var prev: Bh?, cur := null, first;
      ghost var kept: seq<Bh>, rest: seq<Bh> := [], list;
      FirstOfList(first, list);
      SweepStart(list);
      while cur != null
        invariant Links(first, kept + rest) && list == old(list)
        invariant cur == (if rest == [] then null else rest[0]) && prev == (if kept == [] then null else kept[|kept| - 1])
        invariant Within(rest, list) && (prev != null ==> prev in list)
        invariant kept + Live(rest) == Live(list)
        decreases |rest|
      {
        LinksAt(first, kept, rest);
        WithinStep(rest, list);
        LiveStep(kept, rest);
        var next := cur.next;
        if cur.deleted {
          Unhook(prev, next, kept, rest);
        } else {
          Moved(kept, rest);
          prev := cur;
          kept := kept + [cur];
        }
        rest := rest[1..];
        cur := next;
      }
      NoLive();
      LiveAccounted(list);
      assert kept + rest == kept;
      list := kept;
    }

    /** *bhp = bh->next: the link to the deleted node, in first or in prev, goes past
        it. */
    method Unhook(prev: Bh?, next: Bh?, ghost kept: seq<Bh>, ghost rest: seq<Bh>)
      requires rest != [] && prev == (if kept == [] then null else kept[|kept| - 1])
      requires Links(first, kept + rest) && next == if |rest| > 1 then rest[1] else null
      modifies `first, (if prev == null then {} else {prev})`next
      ensures Links(first, kept + rest[1..])
    {
      hide Links, Apart, TailLinks, FrontLinks;
      LinksAt(first, kept, rest);
      TailOfTail(rest);
      if prev == null {
        first := next;
        NoFront(first);
      } else {
        Bypass(prev, next, first, kept, rest);
      }
      Shorter(first, kept, rest);
    }
  }

  lemma LiveAccounted(list: seq<Bh>)
    requires AllAccounted(list)
    ensures AllAccounted(Live(list))
  {
    LiveIn(list);
  }

  ghost predicate Within(rest: seq<Bh>, list: seq<Bh>) { forall b | b in rest :: b in list }

  lemma SweepStart(list: seq<Bh>)
    ensures [] + list == list && [] + Live(list) == Live(list) && Within(list, list)
  {
  }

  lemma WithinStep(rest: seq<Bh>, list: seq<Bh>)
    requires Within(rest, list) && rest != []
    ensures rest[0] in list && Within(rest[1..], list)
  {
  }

  lemma LiveStep(kept: seq<Bh>, rest: seq<Bh>)
    requires rest != []
    ensures rest[0].deleted ==> kept + Live(rest[1..]) == kept + Live(rest)
    ensures !rest[0].deleted ==> (kept + [rest[0]]) + Live(rest[1..]) == kept + Live(rest)
  {
    hide Live;
    LiveFirst(rest);
  }

  lemma Moved(kept: seq<Bh>, rest: seq<Bh>)
    requires rest != []
    ensures (kept + [rest[0]]) + rest[1..] == kept + rest
  {
  }

  /** *bhp = bh->next, for a link inside the list. */
  method Bypass(prev: Bh, next: Bh?, ghost first: Bh?, ghost kept: seq<Bh>, ghost rest: seq<Bh>)
    requires rest != [] && kept != [] && kept[|kept| - 1] == prev && Apart(kept, rest)
    requires TailLinks(rest[1..]) && FrontLinks(first, kept)
    modifies prev`next
    ensures prev.next == next && TailLinks(rest[1..]) && FrontLinks(first, kept)
  {
    ghost var all := kept + rest;
    assert all[|kept| - 1] == prev;
    forall i | 0 <= i < |kept| - 1 ensures kept[i] != prev { assert all[i] == kept[i]; }
    forall i | 0 <= i < |rest| ensures rest[i] != prev { assert all[|kept| + i] == rest[i]; }
    prev.next := next;
  }

  lemma TailOfTail(rest: seq<Bh>)
    requires rest != [] && TailLinks(rest)
    ensures TailLinks(rest[1..])
  {
    var tail := rest[1..];
    forall i | 0 <= i < |tail| - 1 ensures tail[i].next == tail[i + 1] {
      assert rest[i + 1].next == rest[i + 2];
    }
    if tail != [] { assert tail[|tail| - 1] == rest[|rest| - 1]; }
  }

  lemma SuffixIn(a: seq<Bh>, b: seq<Bh>)
    requires IsSuffix(a, b)
    ensures forall x | x in a :: x in b
  {
    forall x | x in a ensures x in b {
      var i :| 0 <= i < |a| && a[i] == x;
      assert b[|b| - |a| + i] == x;
    }
  }

  lemma NoFront(first: Bh?)
    ensures FrontLinks(first, [])
  {
  }

  lemma NoLive()
    ensures Live([]) == []
  {
  }

  lemma LiveFirst(list: seq<Bh>)
    requires list != []
    ensures Live(list) == (if list[0].deleted then [] else [list[0]]) + Live(list[1..])
  {
  }

  /** What the links are around the first node of rest. */
  lemma LinksAt(first: Bh?, kept: seq<Bh>, rest: seq<Bh>)
    requires Links(first, kept + rest) && rest != []
    ensures Apart(kept, rest) && TailLinks(rest) && FrontLinks(first, kept)
    ensures rest[0].next == if |rest| > 1 then rest[1] else null
  {
    var all := kept + rest;
    assert forall i | 0 <= i < |kept| :: all[i] == kept[i];
    assert forall i | 0 <= i < |rest| :: all[|kept| + i] == rest[i];
    forall i | 0 <= i < |rest| - 1 ensures rest[i].next == rest[i + 1] {
      assert all[|kept| + i].next == all[|kept| + i + 1];
    }
    forall i | 0 <= i < |kept| - 1 ensures kept[i].next == kept[i + 1] {
      assert all[i].next == all[i + 1];
    }
  }

  /** No node occurs twice. */
  ghost predicate Apart(kept: seq<Bh>, rest: seq<Bh>) {
    forall i, j | 0 <= i < j < |kept + rest| :: (kept + rest)[i] != (kept + rest)[j]
  }

  ghost predicate TailLinks(rest: seq<Bh>)
    reads rest`next
  {
    (forall i | 0 <= i < |rest| - 1 :: rest[i].next == rest[i + 1]) && (rest != [] ==> rest[|rest| - 1].next == null)
  }

  ghost predicate FrontLinks(first: Bh?, kept: seq<Bh>)
    reads kept`next
  {
    (forall i | 0 <= i < |kept| - 1 :: kept[i].next == kept[i + 1]) && (kept != [] ==> first == kept[0])
  }

  lemma {:induction false} LiveIn(list: seq<Bh>)
    ensures forall b :: b in Live(list) <==> b in list && !b.deleted
  {
    if list != [] {
      LiveIn(list[1..]);
      assert list == [list[0]] + list[1..];
    }
  }

  /** Taking out the first node of rest. */
  lemma Shorter(first: Bh?, kept: seq<Bh>, rest: seq<Bh>)
    requires rest != [] && Apart(kept, rest) && TailLinks(rest[1..]) && FrontLinks(first, kept)
    requires var head := if |rest| > 1 then rest[1] else null;
      if kept == [] then first == head else kept[|kept| - 1].next == head
    ensures Links(first, kept + rest[1..])
  {
    var all, tail := kept + rest, rest[1..];
    var now := kept + tail;
    assert forall i | 0 <= i < |now| :: now[i] == if i < |kept| then all[i] else all[i + 1];
    forall i, j | 0 <= i < j < |now| ensures now[i] != now[j] {
      var x, y := if i < |kept| then i else i + 1, if j < |kept| then j else j + 1;
      assert all[x] != all[y];
    }
    forall i | 0 <= i < |now| - 1 ensures now[i].next == now[i + 1] {
      if i < |kept| - 1 {
        assert kept[i].next == kept[i + 1];
      } else if i >= |kept| {
        assert tail[i - |kept|].next == tail[i - |kept| + 1];
      }
    }
    if tail != [] { assert now[|now| - 1] == tail[|tail| - 1]; }
  }
}
