/** Any sequence of queue_add, queue_out and queue_del of `shared/queue.h` on one list: a queue by
    priority, and by arrival among equals. */
module QueueRun {
  import opened Queue

  datatype Op = DoAdd(x: Node) | DoOut | DoDel(x: Node)

  /** An element of the queue, with the operation that brought it. */
  datatype Entry = Entry(x: Node, at: nat)

  ghost function Names(L: seq<Entry>): seq<Node> {
    seq(|L|, i requires 0 <= i < |L| => L[i].x)
  }

  /** The first place from k on of an element that is not below p. */
  ghost function PlaceFrom(L: seq<Node>, p: int, k: nat): (r: nat)
    requires k <= |L| && forall i :: 0 <= i < k ==> L[i].prio < p
    ensures Place(L, p, r)
    decreases |L| - k
  {
    if k < |L| && L[k].prio < p then PlaceFrom(L, p, k + 1) else k
  }

  ghost function Find(L: seq<Node>, x: Node): (k: nat)
    requires x in L
    ensures k < |L| && L[k] == x
  {
    if L[0] == x then 0 else 1 + Find(L[1..], x)
  }

  /** The queue after one more operation. */
  ghost function Do(L: seq<Entry>, op: Op, at: nat): seq<Entry> {
    match op
    case DoAdd(x) =>
      if x in Names(L) then L else var k := PlaceFrom(Names(L), x.prio, 0); L[..k] + [Entry(x, at)] + L[k..]
    case DoOut =>
      if L == [] then L else L[..|L| - 1]
    case DoDel(x) =>
      if x in Names(L) then var k := Find(Names(L), x); L[..k] + L[k + 1..] else L
  }

  ghost function After(ops: seq<Op>): seq<Entry> {
    if ops == [] then [] else Do(After(ops[..|ops| - 1]), ops[|ops| - 1], |ops| - 1)
  }

  /** What queue_out returns. */
  ghost function Answer(L: seq<Entry>, op: Op): Node? {
    if op.DoOut? && L != [] then L[|L| - 1].x else null
  }

  // ------------------------------------------------------- the promise

  /** d has to wait for e: it has a smaller priority, or the same and came later. */
  ghost predicate Waits(d: Entry, e: Entry) {
    d.x.prio < e.x.prio || (d.x.prio == e.x.prio && d.at > e.at)
  }

  ghost predicate InOrder(L: seq<Entry>, n: nat) {
    && (forall i {:trigger L[i]} :: 0 <= i < |L| ==> L[i].at < n)
    && forall i, j {:trigger L[i], L[j]} :: 0 <= i < j < |L| ==> L[i].x != L[j].x && Waits(L[i], L[j])
  }

  /** What an operation does to the elements waiting, whatever their order. */
  ghost predicate Fair(B: multiset<Entry>, op: Op, at: nat, B': multiset<Entry>, out: Node?) {
    match op
    case DoAdd(x) => out == null && B' == (if Waiting(B, x) then B else B + multiset{Entry(x, at)})
    case DoDel(x) => out == null && !Waiting(B', x) && if Waiting(B, x) then Without(B, x, B') else B' == B
    case DoOut =>
      if B == multiset{} then out == null && B' == B
      else exists e :: e in B && out == e.x && B' == B - multiset{e} && forall d :: d in B && d != e ==> Waits(d, e)
  }

  ghost predicate Waiting(B: multiset<Entry>, x: Node) {
    exists e :: e in B && e.x == x
  }

  ghost predicate Without(B: multiset<Entry>, x: Node, B': multiset<Entry>) {
    exists e :: e in B && e.x == x && B' == B - multiset{e}
  }

  lemma ListedWaits(L: seq<Entry>, x: Node)
    ensures x in Names(L) <==> Waiting(multiset(L), x)
  {
    forall e | e in multiset(L) ensures e.x in Names(L) {
      var i :| 0 <= i < |L| && L[i] == e;
      assert Names(L)[i] == e.x;
    }
    if x in Names(L) {
      var k := Find(Names(L), x);
      assert L[k] in multiset(L);
    }
  }

  /** Every operation keeps the order. */
  lemma DoInOrder(L: seq<Entry>, op: Op, n: nat)
    requires InOrder(L, n)
    ensures InOrder(Do(L, op, n), n + 1)
  {
    match op
    case DoAdd(x) => if x !in Names(L) { AddInOrder(L, PlaceFrom(Names(L), x.prio, 0), x, n); }
    case DoOut =>
    case DoDel(x) => if x in Names(L) { DelInOrder(L, Find(Names(L), x), n); }
  }

  lemma AddInOrder(L: seq<Entry>, k: nat, x: Node, n: nat)
    requires InOrder(L, n) && x !in Names(L) && Place(Names(L), x.prio, k)
    ensures InOrder(L[..k] + [Entry(x, n)] + L[k..], n + 1)
  {
    var e := Entry(x, n);
    var M := L[..k] + [e] + L[k..];
    forall i | 0 <= i < |L| ensures L[i].x != x && (if i < k then Waits(L[i], e) else Waits(e, L[i])) {
      assert Names(L)[i] == L[i].x;
      if k < i { assert Names(L)[k] == L[k].x && Waits(L[k], L[i]); }
    }
    forall i, j | 0 <= i < j < |M| ensures M[i].x != M[j].x && Waits(M[i], M[j]) {
      Shifted(L, k, e, i);
      Shifted(L, k, e, j);
    }
  }

  lemma Shifted(L: seq<Entry>, k: nat, e: Entry, i: nat)
    requires k <= |L| && i <= |L|
    ensures (L[..k] + [e] + L[k..])[i] == if i < k then L[i] else if i == k then e else L[i - 1]
  {
  }

  lemma DelInOrder(L: seq<Entry>, k: nat, n: nat)
    requires InOrder(L, n) && k < |L|
    ensures InOrder(L[..k] + L[k + 1..], n + 1)
  {
    var M := L[..k] + L[k + 1..];
    forall i | 0 <= i < |M| ensures M[i] == L[if i < k then i else i + 1] {}
  }

  lemma NamesDiffer(L: seq<Entry>, n: nat)
    requires InOrder(L, n)
    ensures Distinct(Names(L))
  {
    forall i, j | 0 <= i < j < |L| ensures Names(L)[i] != Names(L)[j] {
      assert L[i].x != L[j].x;
    }
  }

  /** And does to the elements what a queue by priority and arrival does. */
  lemma DoFair(L: seq<Entry>, op: Op, n: nat)
    requires InOrder(L, n)
    ensures Fair(multiset(L), op, n, multiset(Do(L, op, n)), Answer(L, op))
  {
    match op
    case DoAdd(x) => AddFair(L, x, n);
    case DoOut => if L != [] { OutFair(L, n); }
    case DoDel(x) => DropFair(L, x, n);
  }

  lemma AddFair(L: seq<Entry>, x: Node, n: nat)
    ensures Fair(multiset(L), DoAdd(x), n, multiset(Do(L, DoAdd(x), n)), null)
  {
    ListedWaits(L, x);
    if x !in Names(L) {
      var k := PlaceFrom(Names(L), x.prio, 0);
      assert L == L[..k] + L[k..];
    }
  }

  lemma DropFair(L: seq<Entry>, x: Node, n: nat)
    requires InOrder(L, n)
    ensures Fair(multiset(L), DoDel(x), n, multiset(Do(L, DoDel(x), n)), null)
  {
    ListedWaits(L, x);
    NamesDiffer(L, n);
    if x in Names(L) { DelFair(L, x); }
  }

  lemma OutFair(L: seq<Entry>, n: nat)
    requires InOrder(L, n) && L != []
    ensures Fair(multiset(L), DoOut, n, multiset(Do(L, DoOut, n)), Answer(L, DoOut))
  {
    var e := L[|L| - 1];
    assert L == L[..|L| - 1] + [e];
    assert e in multiset(L) && multiset(L[..|L| - 1]) == multiset(L) - multiset{e};
    forall d | d in multiset(L) && d != e ensures Waits(d, e) {
      var i :| 0 <= i < |L| && L[i] == d;
    }
  }

  lemma DelFair(L: seq<Entry>, x: Node)
    requires Distinct(Names(L)) && x in Names(L)
    ensures var k := Find(Names(L), x);
            var B := multiset(L[..k] + L[k + 1..]);
            !Waiting(B, x) && Without(multiset(L), x, B)
  {
    var k := Find(Names(L), x);
    var M := L[..k] + L[k + 1..];
    assert L == L[..k] + [L[k]] + L[k + 1..];
    assert multiset(L) == multiset(M) + multiset{L[k]};
    forall e: Entry | e in multiset(M) ensures e.x != x {
      var i :| 0 <= i < |M| && M[i] == e;
      assert e == L[if i < k then i else i + 1];
      assert Names(L)[if i < k then i else i + 1] != Names(L)[k];
    }
    assert L[k] in multiset(L);
  }

  lemma AfterOne(ops: seq<Op>, i: nat)
    requires i < |ops|
    ensures After(ops[..i + 1]) == Do(After(ops[..i]), ops[i], i)
  {
    assert ops[..i + 1][..i] == ops[..i];
  }

  lemma {:induction false} RunInOrder(ops: seq<Op>, i: nat)
    requires i <= |ops|
    ensures InOrder(After(ops[..i]), i)
  {
    if i > 0 {
      RunInOrder(ops, i - 1);
      AfterOne(ops, i - 1);
      DoInOrder(After(ops[..i - 1]), ops[i - 1], i - 1);
    }
  }

  /** Over every sequence of operations: the list is sorted, in order of arrival among equals, and
      each operation did to the elements what it should. */
  lemma RunFair(ops: seq<Op>, i: nat)
    requires i < |ops|
    ensures InOrder(After(ops[..i]), i)
    ensures Fair(multiset(After(ops[..i])), ops[i], i, multiset(After(ops[..i + 1])), Answer(After(ops[..i]), ops[i]))
  {
    RunInOrder(ops, i);
    AfterOne(ops, i);
    DoFair(After(ops[..i]), ops[i], i);
  }

  // ----------------------------------------------------- on the links

  /** The nodes form the ring of the queue, and those not in it have no links. */
  ghost predicate Linked(head: Node, nodes: set<Node>, L: seq<Entry>)
    reads head, nodes
  {
    && head !in nodes && (forall x :: x in Names(L) ==> x in nodes)
    && Ring(head, Names(L))
    && (forall x :: x in nodes && x !in Names(L) ==> x.prev == null && x.next == null)
    && (forall x :: x in Names(L) ==> x.prev != null && x.next != null)
  }

  /** One operation; adding a linked element, or deleting one that is not, fails the assertion of
      the macro, and is left out. */
  method Perform(head: Node, nodes: set<Node>, op: Op, ghost L: seq<Entry>, ghost at: nat) returns (out: Node?)
    requires Linked(head, nodes, L) && (!op.DoOut? ==> op.x in nodes)
    modifies head, nodes
    ensures Linked(head, nodes, Do(L, op, at)) && out == Answer(L, op)
  {
    out := null;
    match op
    case DoAdd(x) =>
      if x.prev == null && x.next == null {
        AddOne(head, nodes, x, L, at);
      }
    case DoOut =>
      out := OutOne(head, nodes, L);
    case DoDel(x) =>
      if x.prev != null && x.next != null {
        DelOne(head, nodes, x, L);
      }
  }

  lemma SamePlace(L: seq<Node>, p: int, j: int, k: int)
    requires Place(L, p, j) && Place(L, p, k)
    ensures j == k
  {
  }

  /** The elements of a ring have links. */
  lemma RingLinks(head: Node, L: seq<Node>)
    requires Ring(head, L)
    ensures forall x :: x in L ==> x.prev != null && x.next != null
  {
    forall x | x in L ensures x.prev != null && x.next != null {
      var k :| 0 <= k < |L| && L[k] == x;
      assert LinkedAt(head, L, k - 1) && LinkedAt(head, L, k);
    }
  }

  method AddOne(head: Node, nodes: set<Node>, x: Node, ghost L: seq<Entry>, ghost at: nat)
    requires Linked(head, nodes, L) && x in nodes && x !in Names(L)
    modifies head, nodes
    ensures Linked(head, nodes, Do(L, DoAdd(x), at))
  {
    ghost var k := Add(x, head, Names(L));
    SamePlace(Names(L), x.prio, k, PlaceFrom(Names(L), x.prio, 0));
    NamesInserted(L, k, Entry(x, at));
    RingLinks(head, Inserted(Names(L), k, x));
  }

  lemma NamesInserted(L: seq<Entry>, k: nat, e: Entry)
    requires k <= |L|
    ensures Names(L[..k] + [e] + L[k..]) == Inserted(Names(L), k, e.x)
    ensures forall y :: y in Inserted(Names(L), k, e.x) <==> y in Names(L) || y == e.x
  {
    var N := Names(L);
    assert N == N[..k] + N[k..];
  }

  method OutOne(head: Node, nodes: set<Node>, ghost L: seq<Entry>) returns (out: Node?)
    requires Linked(head, nodes, L)
    modifies head, nodes
    ensures Linked(head, nodes, Do(L, DoOut, 0)) && out == Answer(L, DoOut)
  {
    out := Out(head, Names(L));
    if L != [] {
      NamesRemoved(L, |L| - 1);
      assert L[..|L| - 1] + L[|L| - 1 + 1..] == L[..|L| - 1];
      RingLinks(head, Removed(Names(L), |L| - 1));
    }
  }

  lemma NamesRemoved(L: seq<Entry>, k: nat)
    requires k < |L|
    ensures Names(L[..k] + L[k + 1..]) == Removed(Names(L), k)
    ensures forall y :: y in Names(L) <==> y in Removed(Names(L), k) || y == L[k].x
  {
    var N := Names(L);
    assert N == N[..k] + [N[k]] + N[k + 1..];
  }

  method DelOne(head: Node, nodes: set<Node>, x: Node, ghost L: seq<Entry>)
    requires Linked(head, nodes, L) && x in Names(L)
    modifies head, nodes
    ensures Linked(head, nodes, Do(L, DoDel(x), 0))
  {
    ghost var k := Find(Names(L), x);
    Del(x, head, Names(L), k);
    NamesRemoved(L, k);
    RingLinks(head, Removed(Names(L), k));
  }

  /** Any sequence of operations on an empty list: what is returned and what is linked in the end
      are those of the queue by priority and arrival. */
  method Run(head: Node, nodes: set<Node>, ops: seq<Op>) returns (outs: seq<Node?>)
    requires Ring(head, []) && head !in nodes && forall x :: x in nodes ==> x.prev == null && x.next == null
    requires forall i {:trigger ops[i]} :: 0 <= i < |ops| && !ops[i].DoOut? ==> ops[i].x in nodes
    modifies head, nodes
    ensures Ring(head, Names(After(ops))) && |outs| == |ops|
    ensures forall i {:trigger outs[i]} :: 0 <= i < |ops| ==> outs[i] == Answer(After(ops[..i]), ops[i])
  {
    outs := [];
    var i := 0;
    assert Names([]) == [];
    while i < |ops|
      invariant 0 <= i == |outs| <= |ops| && Linked(head, nodes, After(ops[..i]))
      invariant forall j {:trigger outs[j]} :: 0 <= j < i ==> outs[j] == Answer(After(ops[..j]), ops[j])
    {
      AfterOne(ops, i);
      var out := Perform(head, nodes, ops[i], After(ops[..i]), i);
      outs := outs + [out];
      i := i + 1;
    }
    assert ops[..|ops|] == ops;
  }
}
