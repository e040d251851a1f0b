/** The intrusive priority queue of `shared/queue.h`: a circular doubly linked list, with the
    smallest priority first and the one to leave next at the end. */
module Queue {

  datatype ProcessState = CHOSEN | ACTIVABLE | SLEEPING | BLOCKED_ON_SEM | BLOCKED_ON_MSG_SEND | BLOCKED_ON_MSG_RCV | ZOMBIE

  /** A list head, or an element with its link.  An element on no list has null links. */
  class Node {
    var prev: Node?
    var next: Node?
    const prio: int
    var state: ProcessState

    constructor (prio: int, state: ProcessState)
      ensures this.prio == prio && this.state == state && prev == null && next == null
    {
      this.prio, this.state := prio, state;
      prev, next := null, null;
    }
  }

  /** INIT_LIST_HEAD */
  method InitHead(head: Node)
    modifies head`prev, head`next
    ensures Ring(head, [])
  {
    head.prev, head.next := head, head;
  }

  /** The k-th element of the list; the head stands before the first and after the last. */
  function Nth(head: Node, L: seq<Node>, k: int): Node {
    if 0 <= k < |L| then L[k] else head
  }

  ghost predicate Distinct(L: seq<Node>) {
    forall i, j :: 0 <= i < j < |L| ==> L[i] != L[j]
  }

  /** The elements of L, in order, form a ring with the head. */
  ghost predicate Ring(head: Node, L: seq<Node>)
    reads head, L
  {
    && head !in L && Distinct(L)
    && forall k {:trigger LinkedAt(head, L, k)} :: -1 <= k < |L| ==> LinkedAt(head, L, k)
  }

  /** Place k and the one after it point to each other. */
  ghost predicate LinkedAt(head: Node, L: seq<Node>, k: int)
    reads head, L
  {
    var a, b := Nth(head, L, k), Nth(head, L, k + 1);
    a.next == b && b.prev == a
  }

  ghost predicate Sorted(L: seq<Node>) {
    forall i, j :: 0 <= i < j < |L| ==> L[i].prio <= L[j].prio
  }

  // -------------------------------------------------------------- order

  /** Where queue_add puts an element of priority p: before the first that is not below p. */
  ghost predicate Place(L: seq<Node>, p: int, k: int) {
    0 <= k <= |L| && (forall i :: 0 <= i < k ==> L[i].prio < p) && (k < |L| ==> L[k].prio >= p)
  }

  function Inserted(L: seq<Node>, k: int, x: Node): seq<Node>
    requires 0 <= k <= |L|
  {
    L[..k] + [x] + L[k..]
  }

  function Removed(L: seq<Node>, k: int): seq<Node>
    requires 0 <= k < |L|
  {
    L[..k] + L[k + 1..]
  }

  lemma InsertedSorted(L: seq<Node>, k: int, x: Node)
    requires Sorted(L) && Place(L, x.prio, k)
    ensures Sorted(Inserted(L, k, x))
    ensures multiset(Inserted(L, k, x)) == multiset(L) + multiset{x}
  {
    assert L == L[..k] + L[k..];
  }

  lemma RemovedSorted(L: seq<Node>, k: int)
    requires Sorted(L) && 0 <= k < |L|
    ensures Sorted(Removed(L, k)) && multiset(Removed(L, k)) == multiset(L) - multiset{L[k]}
  {
    assert L == L[..k] + [L[k]] + L[k + 1..];
  }

  /** Elements of equal priority stand with the latest arrival first. */
  ghost predicate Aged(L: seq<Node>, arrival: Node -> int) {
    forall i, j :: 0 <= i < j < |L| && L[i].prio == L[j].prio ==> arrival(L[i]) > arrival(L[j])
  }

  lemma InsertedAged(L: seq<Node>, k: int, x: Node, arrival: Node -> int)
    requires Sorted(L) && Aged(L, arrival) && Place(L, x.prio, k) && forall i :: 0 <= i < |L| ==> arrival(L[i]) < arrival(x)
    ensures Aged(Inserted(L, k, x), arrival)
  {
  }

  lemma RemovedAged(L: seq<Node>, k: int, arrival: Node -> int)
    requires Aged(L, arrival) && 0 <= k < |L|
    ensures Aged(Removed(L, k), arrival)
  {
  }

  /** The last element is the oldest of those with the highest priority. */
  lemma LastIsOldest(L: seq<Node>, arrival: Node -> int, i: int)
    requires Sorted(L) && Aged(L, arrival) && 0 <= i < |L| - 1
    ensures var top := L[|L| - 1];
            L[i].prio < top.prio || (L[i].prio == top.prio && arrival(L[i]) > arrival(top))
  {
  }

  // ------------------------------------------------------------- links

  /** The places of the ring, the head being at -1, are different nodes. */
  lemma NthDiffer(head: Node, L: seq<Node>, i: int, j: int)
    requires head !in L && Distinct(L) && -1 <= i < |L| && -1 <= j < |L| && i != j
    ensures Nth(head, L, i) != Nth(head, L, j)
  {
  }

  /** The place after the last is the head's, which is also the one before the first. */
  function Wrap(L: seq<Node>, k: int): int {
    if k == |L| then -1 else k
  }

  lemma NthInserted(head: Node, L: seq<Node>, k: int, x: Node, j: int)
    requires 0 <= k <= |L| && -1 <= j <= |L| + 1
    ensures Nth(head, Inserted(L, k, x), j) == if j == k then x else Nth(head, L, if j < k then j else j - 1)
  {
  }

  lemma NthRemoved(head: Node, L: seq<Node>, k: int, j: int)
    requires 0 <= k < |L| && -1 <= j < |L|
    ensures Nth(head, Removed(L, k), j) == Nth(head, L, if j < k then j else j + 1)
  {
  }

  lemma OtherPlaces(head: Node, L: seq<Node>, k: int)
    requires head !in L && Distinct(L) && -1 <= k < |L|
    ensures forall j {:trigger Nth(head, L, j)} :: -1 <= j < |L| && j != k ==> Nth(head, L, j) != Nth(head, L, k)
  {
    forall j | -1 <= j < |L| && j != k ensures Nth(head, L, j) != Nth(head, L, k) {
      NthDiffer(head, L, j, k);
    }
  }

  /** The links of all places of the list, the head's first. */
  ghost function Links(head: Node, L: seq<Node>): (ls: seq<(Node?, Node?)>)
    reads head, L
    ensures |ls| == |L| + 1
    ensures forall i {:trigger ls[i]} :: 0 <= i <= |L| ==> ls[i] == (Nth(head, L, i - 1).next, Nth(head, L, i - 1).prev)
  {
    seq(|L| + 1, i requires 0 <= i <= |L| reads head, L => (Nth(head, L, i - 1).next, Nth(head, L, i - 1).prev))
  }

  /** A ring is told from its links: the list stays well formed while they stay. */
  ghost predicate Chain(head: Node, L: seq<Node>, ls: seq<(Node?, Node?)>)
    requires |ls| == |L| + 1
  {
    && head !in L && Distinct(L)
    && forall k {:trigger ChainAt(head, L, ls, k)} :: 0 <= k <= |L| ==> ChainAt(head, L, ls, k)
  }

  ghost predicate ChainAt(head: Node, L: seq<Node>, ls: seq<(Node?, Node?)>, k: int)
    requires |ls| == |L| + 1 && 0 <= k <= |L|
  {
    ls[k].0 == Nth(head, L, k) && ls[if k == |L| then 0 else k + 1].1 == Nth(head, L, k - 1)
  }

  lemma RingChain(head: Node, L: seq<Node>)
    ensures Ring(head, L) <==> Chain(head, L, Links(head, L))
  {
    var ls := Links(head, L);
    if Ring(head, L) {
      forall k | 0 <= k <= |L| ensures ChainAt(head, L, ls, k) {
        assert LinkedAt(head, L, k - 1);
      }
    }
    if Chain(head, L, ls) {
      forall k | -1 <= k < |L| ensures LinkedAt(head, L, k) {
        assert ChainAt(head, L, ls, k + 1);
      }
    }
  }

  // --------------------------------------------------------- operations

  /** Where queue_add stops: the first element that is not of smaller priority, or the head. */
  method FindPlace(p: int, head: Node, ghost L: seq<Node>) returns (cur: Node, ghost k: int)
    requires Ring(head, L)
    ensures Place(L, p, k) && cur == Nth(head, L, k)
  {
    k := 0;
    assert LinkedAt(head, L, -1);
    cur := head.next;
    while cur != head && cur.prio < p
      invariant 0 <= k <= |L| && cur == Nth(head, L, k)
      invariant forall i :: 0 <= i < k ==> L[i].prio < p
      decreases |L| - k
    {
      assert LinkedAt(head, L, k);
      cur := cur.next;
      k := k + 1;
    }
  }

  /** queue_add: behind all elements of smaller priority, before all others. */
  method Add(x: Node, head: Node, ghost L: seq<Node>) returns (ghost k: int)
    requires Ring(head, L) && x !in L && x != head && x.prev == null && x.next == null
    modifies head, x, L
    ensures Place(L, x.prio, k) && Ring(head, Inserted(L, k, x))
    ensures forall y :: y in L || y == x || y == head ==> y.state == old(y.state)
  {
    var cur;
    cur, k := FindPlace(x.prio, head, L);
    assert LinkedAt(head, L, k - 1);
    OtherPlaces(head, L, k - 1);
    OtherPlaces(head, L, Wrap(L, k));
    var before := cur.prev;
    x.next := cur;
    x.prev := before;
    before.next := x;
    cur.prev := x;
    ghost var M := Inserted(L, k, x);
    forall j | -1 <= j < |M| ensures LinkedAt(head, M, j) {
      NthInserted(head, L, k, x, j);
      NthInserted(head, L, k, x, j + 1);
      if j != k - 1 && j != k {
        var i := if j < k then j else j - 1;
        assert old(LinkedAt(head, L, i));
        assert Nth(head, L, i + 1) == Nth(head, L, Wrap(L, i + 1));
      }
    }
  }

  /** __queue_top: the element that would leave next, or null. */
  method Top(head: Node, ghost L: seq<Node>) returns (x: Node?)
    requires Ring(head, L)
    ensures x == if L == [] then null else L[|L| - 1]
  {
    assert LinkedAt(head, L, -1) && LinkedAt(head, L, |L| - 1);
    if head.next == head {
      return null;
    }
    x := head.prev;
  }

  /** __queue_out: takes off the last element. */
  method Out(head: Node, ghost L: seq<Node>) returns (x: Node?)
    requires Ring(head, L)
    modifies head, L
    ensures L == [] ==> x == null && Ring(head, L)
    ensures L != [] ==> x == L[|L| - 1] && Ring(head, Removed(L, |L| - 1)) && x.prev == null && x.next == null
    ensures forall y :: y in L || y == head ==> y.state == old(y.state)
  {
    assert LinkedAt(head, L, -1) && LinkedAt(head, L, |L| - 1);
    if head.next == head {
      return null;
    }
    ghost var k := |L| - 1;
    assert LinkedAt(head, L, k - 1);
    OtherPlaces(head, L, k - 1);
    OtherPlaces(head, L, k);
    x := head.prev;
    var before := x.prev;
    head.prev := before;
    before.next := head;
    x.prev := null;
    x.next := null;
    ghost var M := Removed(L, k);
    forall j | -1 <= j < |M| ensures LinkedAt(head, M, j) {
      NthRemoved(head, L, k, j);
      NthRemoved(head, L, k, j + 1);
      if j != k - 1 { assert old(LinkedAt(head, L, j)); }
    }
  }

  /** queue_del: takes off an element anywhere in the list. */
  method Del(x: Node, ghost head: Node, ghost L: seq<Node>, ghost k: int)
    requires Ring(head, L) && 0 <= k < |L| && L[k] == x
    modifies head, L
    ensures Ring(head, Removed(L, k)) && x.prev == null && x.next == null
    ensures forall y :: y in L || y == head ==> y.state == old(y.state)
  {
    assert LinkedAt(head, L, k - 1) && LinkedAt(head, L, k);
    OtherPlaces(head, L, k - 1);
    OtherPlaces(head, L, k);
    OtherPlaces(head, L, Wrap(L, k + 1));
    var before, after := x.prev, x.next;
    before.next := after;
    after.prev := before;
    x.next := null;
    x.prev := null;
    ghost var M := Removed(L, k);
    forall j | -1 <= j < |M| ensures LinkedAt(head, M, j) {
      NthRemoved(head, L, k, j);
      NthRemoved(head, L, k, j + 1);
      if j != k - 1 {
        var i := if j < k then j else j + 1;
        assert old(LinkedAt(head, L, i));
        assert Nth(head, L, i + 1) == Nth(head, L, Wrap(L, i + 1));
      }
    }
  }
}
