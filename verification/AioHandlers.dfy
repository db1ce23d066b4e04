/** AIO handlers (qemu-kvm/aio.c): a list of file descriptors' handlers that
    qemu_aio_wait walks while their callbacks register, remove and wait again.
    One step is what happens between two points where other code can run. */
module AioHandlers {
  import opened Options
  import opened NodeList

  datatype Handler = Handler(fd: int, deleted: bool)

  /** A walk of qemu_aio_wait: the one that fills the descriptor sets, or the one
      that dispatches.  It stands at a node, whose callback may be running. */
  datatype Walk = Walk(dispatch: bool, node: Option<Id>, inCallback: bool)

  datatype State = State(list: seq<Id>, nodes: map<Id, Handler>, freed: set<Id>, walks: seq<Walk>)

  datatype Step =
    | SetHandler(fd: int, id: Id)
    | RemoveHandler(fd: int)
    | Enter(dispatch: bool)
    | Call
    | Return
    | Advance
    | Leave

  function Remove(list: seq<Id>, id: Id): seq<Id> {
    if list == [] then [] else if list[0] == id then list[1..] else [list[0]] + Remove(list[1..], id)
  }

  /** find_aio_handler: the first node for fd that is not deleted. */
  function Find(list: seq<Id>, nodes: map<Id, Handler>, fd: int): Option<Id> {
    if list == [] then None
    else if list[0] in nodes && nodes[list[0]].fd == fd && !nodes[list[0]].deleted then Some(list[0])
    else Find(list[1..], nodes, fd)
  }

  /** walking_handlers: a filling walk holds it throughout, a dispatching one while
      it is at a node. */
  function Walking(walks: seq<Walk>): nat {
    if walks == [] then 0
    else Walking(walks[..|walks| - 1]) + (if walks[|walks| - 1].dispatch && walks[|walks| - 1].node.None? then 0 else 1)
  }

  predicate Top(st: State) { st.walks != [] }

  function Last(st: State): Walk
    requires Top(st)
  {
    st.walks[|st.walks| - 1]
  }

  function Others(st: State): seq<Walk>
    requires Top(st)
  {
    st.walks[..|st.walks| - 1]
  }

  predicate OutsideRuns(st: State) { Top(st) ==> Last(st).inCallback }

  function Unlink(st: State, id: Id): State {
    st.(list := Remove(st.list, id), nodes := map x | x in st.nodes && x != id :: st.nodes[x], freed := st.freed + {id})
  }

  /** A walk is at a node that is still there. */
  predicate AtNode(st: State) { Top(st) && Last(st).node.Some? && Last(st).node.value in st.nodes }

  predicate Enabled(st: State, step: Step) {
    match step
    case SetHandler(_, id) => OutsideRuns(st) && id !in st.nodes && id !in st.freed
    case RemoveHandler(_) => OutsideRuns(st)
    case Enter(_) => OutsideRuns(st)
    case Call => AtNode(st) && !Last(st).inCallback && (Last(st).dispatch ==> !st.nodes[Last(st).node.value].deleted)
    case Return => Top(st) && Last(st).inCallback
    case Advance => AtNode(st) && !Last(st).inCallback
    case Leave => Top(st) && Last(st).node.None? && !Last(st).inCallback
  }

  function After(st: State, step: Step): State
    requires Enabled(st, step)
  {
    match step
    case SetHandler(fd, id) =>
      if Find(st.list, st.nodes, fd).Some? then st
      else st.(list := [id] + st.list, nodes := st.nodes[id := Handler(fd, false)])
    case RemoveHandler(fd) =>
      var found := Find(st.list, st.nodes, fd);
      if found.None? || found.value !in st.nodes then st
      else if Walking(st.walks) > 0 then
        st.(nodes := st.nodes[found.value := st.nodes[found.value].(deleted := true)])
      else Unlink(st, found.value)
    case Enter(dispatch) =>
      st.(walks := st.walks + [Walk(dispatch, First(st.list), false)])
    case Call =>
      st.(walks := Others(st) + [Last(st).(inCallback := true)])
    case Return =>
      st.(walks := Others(st) + [Last(st).(inCallback := false)])
    case Advance =>
      var id := Last(st).node.value;
      var moved := st.(walks := Others(st) + [Last(st).(node := Next(st.list, id))]);
      if Last(st).dispatch && Walking(Others(st)) == 0 && st.nodes[id].deleted then Unlink(moved, id) else moved
    case Leave =>
      st.(walks := Others(st))
  }

  predicate IsRun(st: State, steps: seq<Step>)
    decreases |steps|
  {
    steps == [] || (Enabled(st, steps[0]) && IsRun(After(st, steps[0]), steps[1..]))
  }

  function Run(st: State, steps: seq<Step>): State
    requires IsRun(st, steps)
    decreases |steps|
  {
    if steps == [] then st else Run(After(st, steps[0]), steps[1..])
  }

  // -------------------------------------------------------------- the invariant

  ghost predicate Inv(st: State) {
    && Distinct(st.list)
    && (forall x :: x in st.nodes <==> x in st.list)
    && (forall x | x in st.nodes :: x !in st.freed)
    && (forall x, y | x in st.nodes && y in st.nodes && x != y && !st.nodes[x].deleted && !st.nodes[y].deleted ::
          st.nodes[x].fd != st.nodes[y].fd)
    && (forall i | 0 <= i < |st.walks| && st.walks[i].node.Some? :: st.walks[i].node.value in st.list)
    && (forall i | 0 <= i < |st.walks| && st.walks[i].inCallback :: st.walks[i].node.Some?)
    && (forall i | 0 <= i < |st.walks| - 1 :: st.walks[i].inCallback)
  }

  lemma {:induction false} RemoveKeeps(list: seq<Id>, id: Id)
    requires Distinct(list)
    ensures Distinct(Remove(list, id)) && forall x :: x in Remove(list, id) <==> x in list && x != id
  {
    if list != [] {
      var rest := list[1..];
      assert forall i | 0 <= i < |rest| :: rest[i] == list[i + 1];
      assert list == [list[0]] + rest && list[0] !in rest;
      if list[0] != id { RemoveKeeps(rest, id); }
    }
  }

  /** Finds the live node of fd, or there is none. */
  lemma {:induction false} FindFinds(list: seq<Id>, nodes: map<Id, Handler>, fd: int)
    ensures Find(list, nodes, fd).Some? ==>
              var x := Find(list, nodes, fd).value; x in list && x in nodes && nodes[x].fd == fd && !nodes[x].deleted
    ensures Find(list, nodes, fd).None? ==> forall x | x in list && x in nodes :: nodes[x].fd != fd || nodes[x].deleted
  {
    if list != [] { FindFinds(list[1..], nodes, fd); }
  }

  /** Code that runs in a callback holds walking_handlers. */
  lemma WalkingHeld(st: State)
    requires Inv(st) && OutsideRuns(st) && Walking(st.walks) == 0
    ensures st.walks == []
  {
  }

  lemma {:induction false} CallbacksHold(walks: seq<Walk>)
    requires forall i | 0 <= i < |walks| :: walks[i].inCallback && walks[i].node.Some?
    ensures Walking(walks) == |walks|
  {
    if walks != [] { CallbacksHold(walks[..|walks| - 1]); }
  }

  lemma SetKeeps(st: State, fd: int, id: Id)
    requires Inv(st) && Enabled(st, SetHandler(fd, id))
    ensures Inv(After(st, SetHandler(fd, id)))
  {
    hide Find, Walking;
    FindFinds(st.list, st.nodes, fd);
  }

  lemma UnlinkKeeps(st: State, id: Id)
    requires Inv(st) && id in st.list
    requires forall i | 0 <= i < |st.walks| :: st.walks[i].node != Some(id)
    ensures Inv(Unlink(st, id))
  {
    hide Remove;
    RemoveKeeps(st.list, id);
    var st' := Unlink(st, id);
    forall i | 0 <= i < |st.walks| && st.walks[i].node.Some? ensures st.walks[i].node.value in st'.list {
      assert st.walks[i].node.value != id;
    }
  }

  lemma RemoveHandlerKeeps(st: State, fd: int)
    requires Inv(st) && Enabled(st, RemoveHandler(fd))
    ensures Inv(After(st, RemoveHandler(fd)))
  {
    hide Find, Walking, Remove, Unlink;
    FindFinds(st.list, st.nodes, fd);
    var found := Find(st.list, st.nodes, fd);
    if found.Some? && Walking(st.walks) == 0 {
      WalkingHeld(st);
      UnlinkKeeps(st, found.value);
    }
  }

  lemma EnterKeeps(st: State, dispatch: bool)
    requires Inv(st) && Enabled(st, Enter(dispatch))
    ensures Inv(After(st, Enter(dispatch)))
  {
    hide Walking;
  }

  lemma AdvanceKeeps(st: State)
    requires Inv(st) && Enabled(st, Advance)
    ensures Inv(After(st, Advance))
  {
    hide Walking, Next, Remove, Unlink;
    var id := Last(st).node.value;
    NextIn(st.list, id);
    var moved := st.(walks := Others(st) + [Last(st).(node := Next(st.list, id))]);
    assert Inv(moved);
    if Walking(Others(st)) == 0 {
      CallbacksHold(Others(st));
      assert moved.walks == [moved.walks[0]];
      UnlinkKeeps(moved, id);
    }
  }

  lemma StepKeeps(st: State, step: Step)
    requires Inv(st) && Enabled(st, step)
    ensures Inv(After(st, step))
  {
    match step
    case SetHandler(fd, id) => SetKeeps(st, fd, id);
    case RemoveHandler(fd) => RemoveHandlerKeeps(st, fd);
    case Enter(d) => EnterKeeps(st, d);
    case Advance => AdvanceKeeps(st);
    case Call => hide Walking; hide Find; hide Unlink;
    case Return => hide Walking; hide Find; hide Unlink;
    case Leave => hide Walking; hide Find; hide Unlink;
  }

  lemma {:induction false} RunKeeps(st: State, steps: seq<Step>)
    requires Inv(st) && IsRun(st, steps)
    ensures Inv(Run(st, steps))
    decreases |steps|
  {
    hide Inv, After, Enabled;
    if steps != [] {
      StepKeeps(st, steps[0]);
      RunKeeps(After(st, steps[0]), steps[1..]);
    }
  }

  predicate Initial(st: State) { st.list == [] && st.nodes == map[] && st.freed == {} && st.walks == [] }

  /** No walk ever stands at a freed node, and it can always go on. */
  lemma NoDanglingWalk(st: State, steps: seq<Step>)
    requires Initial(st) && IsRun(st, steps)
    ensures var s := Run(st, steps);
      && (forall i | 0 <= i < |s.walks| && s.walks[i].node.Some? :: s.walks[i].node.value in s.nodes && s.walks[i].node.value !in s.freed)
      && (Top(s) ==> Enabled(s, Return) || Enabled(s, Advance) || Enabled(s, Leave))
  {
    hide After;
    RunKeeps(st, steps);
    var s := Run(st, steps);
    forall i | 0 <= i < |s.walks| && s.walks[i].node.Some?
      ensures s.walks[i].node.value in s.nodes && s.walks[i].node.value !in s.freed
    {
      Listed(s, s.walks[i].node.value);
    }
  }

  lemma Listed(st: State, x: Id)
    requires Inv(st) && x in st.list
    ensures x in st.nodes && x !in st.freed
  {
  }

  /** A descriptor has at most one handler that is not deleted, and it is the one
      that find_aio_handler returns. */
  lemma OneHandlerPerFd(st: State, steps: seq<Step>, fd: int, x: Id)
    requires Initial(st) && IsRun(st, steps)
    requires x in Run(st, steps).nodes && Run(st, steps).nodes[x] == Handler(fd, false)
    ensures Find(Run(st, steps).list, Run(st, steps).nodes, fd) == Some(x)
  {
    hide After, Find;
    RunKeeps(st, steps);
    var s := Run(st, steps);
    FindFinds(s.list, s.nodes, fd);
    assert x in s.list;
  }
}
