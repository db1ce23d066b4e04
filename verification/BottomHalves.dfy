/** Bottom halves (qemu-kvm/async.c): a list of callbacks that is walked while the
    callbacks add to it, delete from it and walk it again.  One step is what
    happens between two points where other code can run. */
module BottomHalves {
  import opened Options
  import opened NodeList

  /** Besides its flags a node counts, for specification, how often it was newly
      scheduled, how often its callback was called, and how often a pending call
      was dropped by cancelling, deleting or freeing. */
  datatype Bh = Bh(scheduled: bool, deleted: bool, asked: nat, called: nat, dropped: nat)

  /** An activation of qemu_bh_poll: the node it is at, the next one as read before
      the callback, whether the callback is running; and the nodes that were
      scheduled when it began and have not since been called, cancelled or deleted. */
  datatype Walker = Walker(cur: Option<Id>, next: Option<Id>, inCallback: bool, owed: set<Id>)

  /** The list from first_bh on, its nodes, the freed nodes, and the activations of
      qemu_bh_poll, the innermost last; their number is the nesting count. */
  datatype State = State(list: seq<Id>, bhs: map<Id, Bh>, freed: map<Id, Bh>, walkers: seq<Walker>)

  datatype Step =
    | New(id: Id)
    | Schedule(id: Id)
    | Cancel(id: Id)
    | Delete(id: Id)
    | PollEnter
    | Examine
    | CallbackReturn
    | PollExit

  // ----------------------------------------------------------------- the list

  /** The nodes from one on. */
  function From(list: seq<Id>, at: Option<Id>): set<Id> {
    if at.None? || list == [] then {}
    else if list[0] == at.value then set x | x in list
    else From(list[1..], at)
  }

  function Pending(st: State): set<Id> {
    set x | x in st.bhs && st.bhs[x].scheduled && !st.bhs[x].deleted
  }

  // ------------------------------------------------------------------- steps

  predicate Top(st: State) { st.walkers != [] }

  function Last(st: State): Walker
    requires Top(st)
  {
    st.walkers[|st.walkers| - 1]
  }

  /** Code other than qemu_bh_poll runs: outside it, or in a callback. */
  predicate OutsideRuns(st: State) { Top(st) ==> Last(st).inCallback }

  predicate Enabled(st: State, step: Step) {
    match step
    case New(id) => OutsideRuns(st) && id !in st.bhs && id !in st.freed
    case Schedule(id) => OutsideRuns(st) && id in st.bhs
    case Cancel(id) => OutsideRuns(st) && id in st.bhs
    case Delete(id) => OutsideRuns(st) && id in st.bhs
    case PollEnter => OutsideRuns(st)
    case Examine => Top(st) && !Last(st).inCallback && Last(st).cur.Some? && Last(st).cur.value in st.bhs
    case CallbackReturn => Top(st) && Last(st).inCallback
    case PollExit => Top(st) && !Last(st).inCallback && Last(st).cur.None?
  }

  /** A pending call of id has been made or dropped: no activation owes it. */
  function Settle(walkers: seq<Walker>, id: Id): (r: seq<Walker>)
    ensures |r| == |walkers| && forall i | 0 <= i < |r| :: r[i] == walkers[i].(owed := walkers[i].owed - {id})
  {
    seq(|walkers|, i requires 0 <= i < |walkers| => walkers[i].(owed := walkers[i].owed - {id}))
  }

  /** qemu_bh_cancel and qemu_bh_delete drop a pending call; so does freeing a node
      that was scheduled after it was deleted. */
  function Drop(b: Bh): Bh {
    b.(scheduled := false, dropped := b.dropped + if b.scheduled then 1 else 0)
  }

  /** The removal of deleted nodes at the end of the outermost poll. */
  function Sweep(list: seq<Id>, bhs: map<Id, Bh>): seq<Id> {
    if list == [] then []
    else if list[0] in bhs && bhs[list[0]].deleted then Sweep(list[1..], bhs)
    else [list[0]] + Sweep(list[1..], bhs)
  }

  function After(st: State, step: Step): State
    requires Enabled(st, step)
  {
    match step
    case New(id) =>
      st.(list := [id] + st.list, bhs := st.bhs[id := Bh(false, false, 0, 0, 0)])
    case Schedule(id) =>
      var b := st.bhs[id];
      if b.scheduled then st
      else st.(bhs := st.bhs[id := b.(scheduled := true, asked := b.asked + 1)])
    case Cancel(id) =>
      st.(bhs := st.bhs[id := Drop(st.bhs[id])], walkers := Settle(st.walkers, id))
    case Delete(id) =>
      st.(bhs := st.bhs[id := Drop(st.bhs[id]).(deleted := true)], walkers := Settle(st.walkers, id))
    case PollEnter =>
      st.(walkers := st.walkers + [Walker(First(st.list), None, false, Pending(st))])
    case Examine =>
      var k, w := |st.walkers| - 1, Last(st);
      var id := w.cur.value;
      var b, next := st.bhs[id], Next(st.list, id);
      if !b.deleted && b.scheduled then
        var called := Settle(st.walkers, id);
        st.(bhs := st.bhs[id := b.(scheduled := false, called := b.called + 1)],
            walkers := called[k := called[k].(next := next, inCallback := true)])
      else
        st.(walkers := st.walkers[k := w.(cur := next, next := next)])
    case CallbackReturn =>
      var k, w := |st.walkers| - 1, Last(st);
      st.(walkers := st.walkers[k := w.(cur := w.next, inCallback := false)])
    case PollExit =>
      var rest := st.walkers[..|st.walkers| - 1];
      if rest != [] then st.(walkers := rest)
      else
        State(Sweep(st.list, st.bhs),
              map x | x in st.bhs && !st.bhs[x].deleted :: st.bhs[x],
              st.freed + map x | x in st.bhs && st.bhs[x].deleted :: Drop(st.bhs[x]),
              [])
  }

  predicate IsRun(st: State, steps: seq<Step>)
    decreases |steps|
  {
    steps == [] || (Enabled(st, steps[0]) && IsRun(After(st, steps[0]), steps[1..]))
  }

  function Run(st: State, steps: seq<Step>): State
    requires IsRun(st, steps)
    decreases |steps|
  {
    if steps == [] then st else Run(After(st, steps[0]), steps[1..])
  }

  // -------------------------------------------------------------- the invariant

  /** Where an activation will go on: not at a freed node. */
  predicate WalkerOk(list: seq<Id>, w: Walker) {
    && (w.cur.Some? ==> w.cur.value in list)
    && (w.inCallback ==> w.cur.Some? && w.next == Next(list, w.cur.value))
  }

  /** What it still owes lies ahead of it. */
  predicate Ahead(list: seq<Id>, w: Walker) {
    w.owed <= From(list, if w.inCallback then w.next else w.cur)
  }

  /** Schedulings are conserved. */
  predicate Accounted(b: Bh) {
    b.asked == b.called + b.dropped + (if b.scheduled then 1 else 0)
  }

  ghost predicate Inv(st: State) {
    && Distinct(st.list)
    && (forall x :: x in st.bhs <==> x in st.list)
    && (forall x | x in st.freed :: x !in st.bhs && !st.freed[x].scheduled)
    && (forall x | x in st.bhs :: Accounted(st.bhs[x]))
    && (forall x | x in st.freed :: Accounted(st.freed[x]))
    && (forall i | 0 <= i < |st.walkers| :: WalkerOk(st.list, st.walkers[i]) && Ahead(st.list, st.walkers[i]))
    && (forall i | 0 <= i < |st.walkers| - 1 :: st.walkers[i].inCallback)
    && (forall i | 0 <= i < |st.walkers| :: st.walkers[i].owed <= Pending(st))
  }

  // ------------------------------------------------------- lemmas about the list

  /** The nodes from one on are itself and the nodes from the next on. */
  lemma {:induction false} FromNext(list: seq<Id>, id: Id)
    requires Distinct(list) && id in list
    ensures From(list, Some(id)) == {id} + From(list, Next(list, id))
    ensures id !in From(list, Next(list, id))
  {
    var rest := list[1..];
    assert forall i | 0 <= i < |rest| :: rest[i] == list[i + 1];
    NextIn(list, id);
    if list[0] == id {
      assert id !in rest;
      FromFirst(rest);
      if rest != [] { assert rest[0] != id; }
    } else {
      assert id in rest;
      FromNext(rest, id);
      NextIn(rest, id);
      if Next(rest, id).Some? { assert list[0] !in rest; }
    }
  }

  lemma FromFirst(list: seq<Id>)
    ensures From(list, First(list)) == set x | x in list
  {
  }

  lemma FromHead(x: Id, list: seq<Id>, at: Option<Id>)
    requires x !in list && (at.Some? ==> at.value in list)
    ensures From([x] + list, at) == From(list, at)
  {
    assert ([x] + list)[1..] == list;
  }

  lemma NextHead(x: Id, list: seq<Id>, id: Id)
    requires id != x
    ensures Next([x] + list, id) == Next(list, id)
  {
    assert ([x] + list)[1..] == list;
  }

  lemma {:induction false} SweepKeeps(list: seq<Id>, bhs: map<Id, Bh>)
    requires Distinct(list)
    ensures Distinct(Sweep(list, bhs))
    ensures forall x :: x in Sweep(list, bhs) <==> x in list && !(x in bhs && bhs[x].deleted)
  {
    if list != [] {
      var rest := list[1..];
      assert forall i | 0 <= i < |rest| :: rest[i] == list[i + 1];
      SweepKeeps(rest, bhs);
      assert list == [list[0]] + rest;
      assert list[0] !in rest;
    }
  }

  /** The nodes that stay keep their order. */
  lemma {:induction false} SweepFrom(list: seq<Id>, bhs: map<Id, Bh>, x: Id)
    requires Distinct(list) && x in Sweep(list, bhs)
    ensures From(Sweep(list, bhs), Some(x)) == set y | y in From(list, Some(x)) && !(y in bhs && bhs[y].deleted)
  {
    SweepKeeps(list, bhs);
    var rest := list[1..];
    assert forall i | 0 <= i < |rest| :: rest[i] == list[i + 1];
    SweepKeeps(rest, bhs);
    if list[0] != x {
      SweepFrom(rest, bhs, x);
      assert ([list[0]] + Sweep(rest, bhs))[1..] == Sweep(rest, bhs);
    }
  }

  // ------------------------------------------------- every step keeps the invariant

  lemma NewKeeps(st: State, id: Id)
    requires Inv(st) && Enabled(st, New(id))
    ensures Inv(After(st, New(id)))
  {
    hide From, Next;
    var st' := After(st, New(id));
    assert id !in st.list;
    forall i | 0 <= i < |st.walkers| ensures WalkerOk(st'.list, st.walkers[i]) && Ahead(st'.list, st.walkers[i]) {
      var w := st.walkers[i];
      assert WalkerOk(st.list, w) && Ahead(st.list, w);
      if w.inCallback {
        NextHead(id, st.list, w.cur.value);
        NextIn(st.list, w.cur.value);
        FromHead(id, st.list, w.next);
      } else {
        FromHead(id, st.list, w.cur);
      }
    }
    assert Pending(st) <= Pending(st');
  }

  lemma FlagsKeep(st: State, step: Step)
    requires step.Schedule? || step.Cancel? || step.Delete?
    requires Inv(st) && Enabled(st, step)
    ensures Inv(After(st, step))
  {
    hide From, Next;
    var st' := After(st, step);
    var id := step.id;
    assert Accounted(st.bhs[id]);
    forall i | 0 <= i < |st'.walkers|
      ensures WalkerOk(st.list, st'.walkers[i]) && Ahead(st.list, st'.walkers[i]) && st'.walkers[i].owed <= Pending(st')
    {
      assert WalkerOk(st.list, st.walkers[i]) && Ahead(st.list, st.walkers[i]) && st.walkers[i].owed <= Pending(st);
    }
  }

  lemma EnterKeeps(st: State)
    requires Inv(st) && Enabled(st, PollEnter)
    ensures Inv(After(st, PollEnter))
  {
    hide From, Next;
    FromFirst(st.list);
    var st' := After(st, PollEnter);
    assert st'.walkers[|st.walkers|].owed == Pending(st);
    forall x | x in Pending(st) ensures x in From(st.list, First(st.list)) {
      assert x in st.bhs && x in st.list;
    }
  }

  lemma ReturnKeeps(st: State)
    requires Inv(st) && Enabled(st, CallbackReturn)
    ensures Inv(After(st, CallbackReturn))
  {
    hide From, Next;
    var w := Last(st);
    assert WalkerOk(st.list, w) && Ahead(st.list, w);
    NextIn(st.list, w.cur.value);
  }

  lemma ExamineKeeps(st: State)
    requires Inv(st) && Enabled(st, Examine)
    ensures Inv(After(st, Examine))
  {
    hide From, Next;
    var st' := After(st, Examine);
    var k, w := |st.walkers| - 1, Last(st);
    var id := w.cur.value;
    assert WalkerOk(st.list, w) && Ahead(st.list, w) && w.owed <= Pending(st);
    NextIn(st.list, id);
    FromNext(st.list, id);
    assert Accounted(st.bhs[id]);
    forall i | 0 <= i < |st'.walkers|
      ensures WalkerOk(st.list, st'.walkers[i]) && Ahead(st.list, st'.walkers[i]) && st'.walkers[i].owed <= Pending(st')
    {
      assert WalkerOk(st.list, st.walkers[i]) && Ahead(st.list, st.walkers[i]) && st.walkers[i].owed <= Pending(st);
    }
  }

  lemma ExitKeeps(st: State)
    requires Inv(st) && Enabled(st, PollExit)
    ensures Inv(After(st, PollExit))
  {
    hide From, Next, Sweep;
    SweepKeeps(st.list, st.bhs);
  }

  lemma StepKeeps(st: State, step: Step)
    requires Inv(st) && Enabled(st, step)
    ensures Inv(After(st, step))
  {
    hide Inv, After;
    match step
    case New(id) => NewKeeps(st, id);
    case Schedule(_) => FlagsKeep(st, step);
    case Cancel(_) => FlagsKeep(st, step);
    case Delete(_) => FlagsKeep(st, step);
    case PollEnter => EnterKeeps(st);
    case Examine => ExamineKeeps(st);
    case CallbackReturn => ReturnKeeps(st);
    case PollExit => ExitKeeps(st);
  }

  lemma {:induction false} RunKeeps(st: State, steps: seq<Step>)
    requires Inv(st) && IsRun(st, steps)
    ensures Inv(Run(st, steps))
    decreases |steps|
  {
    hide Inv, After, Enabled;
    if steps != [] {
      StepKeeps(st, steps[0]);
      RunKeeps(After(st, steps[0]), steps[1..]);
    }
  }

  // -------------------------------------------------------------- what follows

  predicate Initial(st: State) { st.list == [] && st.bhs == map[] && st.freed == map[] && st.walkers == [] }

  /** No activation of qemu_bh_poll ever stands at, or will go on to, a node that
      has been freed, whatever the callbacks do. */
  lemma NoDanglingWalker(st: State, steps: seq<Step>, i: nat)
    requires Initial(st) && IsRun(st, steps) && i < |Run(st, steps).walkers|
    ensures var s := Run(st, steps); var w := s.walkers[i];
      && (w.cur.Some? ==> w.cur.value in s.bhs && w.cur.value !in s.freed)
      && (w.inCallback && w.next.Some? ==> w.next.value in s.bhs && w.next.value !in s.freed)
  {
    hide From, Next, After;
    RunKeeps(st, steps);
    var s := Run(st, steps);
    var w := s.walkers[i];
    assert WalkerOk(s.list, w);
    if w.cur.Some? {
      Listed(s, w.cur.value);
      NextIn(s.list, w.cur.value);
      if w.inCallback && w.next.Some? { Listed(s, w.next.value); }
    }
  }

  lemma Listed(st: State, x: Id)
    requires Inv(st) && x in st.list
    ensures x in st.bhs && x !in st.freed
  {
  }

  /** An activation never gets stuck at a node that is gone: it can examine the node
      it is at, return from its callback, or end. */
  lemma PollProceeds(st: State, steps: seq<Step>)
    requires Initial(st) && IsRun(st, steps) && Top(Run(st, steps))
    ensures var s := Run(st, steps); Enabled(s, Examine) || Enabled(s, CallbackReturn) || Enabled(s, PollExit)
  {
    hide From, Next, After;
    RunKeeps(st, steps);
    var s := Run(st, steps);
    assert WalkerOk(s.list, Last(s));
    if Last(s).cur.Some? { Listed(s, Last(s).cur.value); }
  }

  /** The end of the outermost poll frees every node that was deleted and no other;
      the others stay as they are, in the same order. */
  lemma OutermostSweeps(st: State, steps: seq<Step>)
    requires Initial(st) && IsRun(st, steps) && Enabled(Run(st, steps), PollExit) && |Run(st, steps).walkers| == 1
    ensures var before := Run(st, steps); var s := After(before, PollExit);
      && s.walkers == []
      && (forall x :: x in s.list <==> x in before.list && x in before.bhs && !before.bhs[x].deleted)
      && (forall x :: x in s.bhs <==> x in s.list)
      && (forall x | x in s.bhs :: x in before.bhs && s.bhs[x] == before.bhs[x])
      && (forall x | x in before.bhs && before.bhs[x].deleted :: x in s.freed)
      && (forall x | x in s.list :: From(s.list, Some(x)) <= From(before.list, Some(x)))
  {
    hide From, Next, Sweep;
    RunKeeps(st, steps);
    var s := Run(st, steps);
    SweepKeeps(s.list, s.bhs);
    forall x | x in Sweep(s.list, s.bhs) ensures From(Sweep(s.list, s.bhs), Some(x)) <= From(s.list, Some(x)) {
      SweepFrom(s.list, s.bhs, x);
    }
  }

  /** Every scheduling is answered by one call, was dropped by cancelling, deleting or
      freeing, or is still pending; a freed node has nothing pending. */
  lemma SchedulingsConserved(st: State, steps: seq<Step>, x: Id)
    requires Initial(st) && IsRun(st, steps)
    ensures var s := Run(st, steps);
      && (x in s.bhs ==> s.bhs[x].asked == s.bhs[x].called + s.bhs[x].dropped + (if s.bhs[x].scheduled then 1 else 0))
      && (x in s.freed ==> s.freed[x].asked == s.freed[x].called + s.freed[x].dropped)
  {
    RunKeeps(st, steps);
  }

  /** When a poll ends, everything that was scheduled when it began has been called,
      cancelled or deleted. */
  lemma PollMissesNothing(st: State, steps: seq<Step>)
    requires Initial(st) && IsRun(st, steps) && Enabled(Run(st, steps), PollExit)
    ensures Last(Run(st, steps)).owed == {}
  {
    RunKeeps(st, steps);
    var s := Run(st, steps);
    assert Ahead(s.list, Last(s));
  }
}
