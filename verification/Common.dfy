/** Error numbers, as the host defines them. */
module Errno {
  const EIO: int := 5
  const EAGAIN: int := 11
  const EACCES: int := 13
  const EBUSY: int := 16
  const EINVAL: int := 22
  const ENOTSUP: int := 95
  const ENOMEDIUM: int := 123
}

module Options {
  datatype Option<T> = None | Some(value: T)
}

/** Multiples of a number: order and rounding. */
module Multiples {
  function AlignDown(x: nat, c: nat): (r: nat)
    requires c > 0
    ensures r <= x < r + c
  {
    x / c * c
  }

  function AlignUp(x: nat, c: nat): (r: nat)
    requires c > 0
    ensures x <= r < x + c
  {
    (x + c - 1) / c * c
  }

  lemma MulOrder(m: int, k: int, c: nat)
    requires c > 0 && m * c < k * c
    ensures m < k
  {
    assert (m - k) * c == m * c - k * c;
  }
}

/** Singly linked lists of nodes, as the order in which a walk meets them. */
module NodeList {
  import opened Options

  /** Names of nodes; a node that has been freed is never named again. */
  type Id = int

  function First(list: seq<Id>): Option<Id> { if list == [] then None else Some(list[0]) }

  /** node->next */
  function Next(list: seq<Id>, id: Id): Option<Id> {
    if list == [] then None else if list[0] == id then First(list[1..]) else Next(list[1..], id)
  }

  predicate Distinct(list: seq<Id>) { forall i, j | 0 <= i < j < |list| :: list[i] != list[j] }

  lemma {:induction false} NextIn(list: seq<Id>, id: Id)
    requires Distinct(list)
    ensures Next(list, id).Some? ==> Next(list, id).value in list && Next(list, id).value != id
  {
    if list != [] {
      assert forall i | 0 <= i < |list[1..]| :: list[1..][i] == list[i + 1];
      if list[0] != id { NextIn(list[1..], id); }
    }
  }
}
