/** ordonnance of `kernel/process.c`: the choice of the next process, over the priority queues. */
module Scheduler {
  import opened Queue

  // ------------------------------------------- lists beside each other

  /** Two lists share no node. */
  ghost predicate Apart(a: Node, A: seq<Node>, b: Node, B: seq<Node>) {
    a != b && a !in B && b !in A && forall x :: x in A ==> x !in B
  }

  lemma ApartInserted(a: Node, A: seq<Node>, b: Node, B: seq<Node>, k: int, x: Node)
    requires Apart(a, A, b, B) && 0 <= k <= |A| && x != b && x !in B
    ensures Apart(a, Inserted(A, k, x), b, B) && Apart(b, B, a, Inserted(A, k, x))
  {
  }

  lemma ApartRemoved(a: Node, A: seq<Node>, b: Node, B: seq<Node>, k: int)
    requires Apart(a, A, b, B) && 0 <= k < |A|
    ensures Apart(a, Removed(A, k), b, B) && Apart(b, B, a, Removed(A, k))
  {
    assert forall x :: x in Removed(A, k) ==> x in A;
  }

  /** queue_add leaves a list beside it alone. */
  method AddBeside(x: Node, head: Node, ghost L: seq<Node>, ghost a: Node, ghost A: seq<Node>, ghost b: Node, ghost B: seq<Node>)
    returns (ghost k: int)
    requires Ring(head, L) && x !in L && x != head && x.prev == null && x.next == null
    requires Ring(a, A) && Apart(head, L, a, A) && x != a && x !in A
    requires Ring(b, B) && Apart(head, L, b, B) && x != b && x !in B
    modifies head, x, L
    ensures Place(L, x.prio, k) && Ring(head, Inserted(L, k, x)) && Ring(a, A) && Ring(b, B)
    ensures forall y :: y in L || y == x || y == head ==> y.state == old(y.state)
  {
    ghost var la, lb := Links(a, A), Links(b, B);
    RingChain(a, A);
    RingChain(b, B);
    k := Add(x, head, L);
    assert forall i :: 0 <= i < |A| ==> A[i] in A;
    assert forall i :: 0 <= i < |B| ==> B[i] in B;
    assert la == Links(a, A) && lb == Links(b, B);
    RingChain(a, A);
    RingChain(b, B);
  }

  /** queue_out leaves lists beside it alone. */
  method OutBeside(head: Node, ghost L: seq<Node>, ghost a: Node, ghost A: seq<Node>, ghost b: Node, ghost B: seq<Node>)
    returns (x: Node?)
    requires Ring(head, L) && Ring(a, A) && Apart(head, L, a, A) && Ring(b, B) && Apart(head, L, b, B)
    modifies head, L
    ensures L == [] ==> x == null && Ring(head, L)
    ensures L != [] ==> x == L[|L| - 1] && Ring(head, Removed(L, |L| - 1)) && x.prev == null && x.next == null
    ensures Ring(a, A) && Ring(b, B)
    ensures forall y :: y in L || y == head ==> y.state == old(y.state)
  {
    ghost var la, lb := Links(a, A), Links(b, B);
    RingChain(a, A);
    RingChain(b, B);
    x := Out(head, L);
    assert forall i :: 0 <= i < |A| ==> A[i] in A;
    assert forall i :: 0 <= i < |B| ==> B[i] in B;
    assert la == Links(a, A) && lb == Links(b, B);
    RingChain(a, A);
    RingChain(b, B);
  }

  class Kernel {
    var chosen: Node
    const processList: Node
    const sleepingList: Node
    const toKillList: Node

    ghost var P: seq<Node>
    ghost var S: seq<Node>
    ghost var T: seq<Node>
    ghost var nodes: set<Node>  // the heads and all processes

    /** The three lists, empty, and the process that runs. */
    constructor (first: Node)
      requires first.prev == null && first.next == null
      ensures Valid() && chosen == first && P == S == T == []
    {
      var a := new Node(0, CHOSEN);
      var b := new Node(0, CHOSEN);
      var c := new Node(0, CHOSEN);
      InitHead(a);
      InitHead(b);
      InitHead(c);
      processList, sleepingList, toKillList := a, b, c;
      chosen := first;
      P, S, T := [], [], [];
      nodes := {a, b, c, first};
    }

    /** No process is in two lists, and the heads are no processes. */
    ghost predicate Separate()
      reads this
    {
      && Apart(processList, P, sleepingList, S) && Apart(processList, P, toKillList, T) && Apart(sleepingList, S, toKillList, T)
      && (forall x :: x in P ==> x in nodes) && (forall x :: x in S ==> x in nodes) && (forall x :: x in T ==> x in nodes)
      && {processList, sleepingList, toKillList} <= nodes
    }

    ghost predicate Head(x: Node) {
      x == processList || x == sleepingList || x == toKillList
    }

    /** Three well-formed lists. */
    ghost predicate Lists()
      reads this, processList, sleepingList, toKillList, P, S, T
    {
      Ring(processList, P) && Ring(sleepingList, S) && Ring(toKillList, T) && Separate()
    }

    /** A process on no list. */
    ghost predicate Loose(x: Node)
      reads this, x
    {
      x.prev == null && x.next == null && x !in P && x !in S && x !in T && !Head(x) && x in nodes
    }

    ghost predicate Valid()
      reads this, processList, sleepingList, toKillList, P, S, T, chosen
    {
      Lists() && Loose(chosen)
    }

    /** Every process the kernel can reach. */
    ghost function Processes(): multiset<Node>
      reads this
    {
      All(P, S, T, chosen)
    }

    /** queue_out on process_list */
    method TakeReady() returns (x: Node?)
      requires Lists()
      modifies this`P, processList, P
      ensures Lists()
      ensures old(P) == [] ==> x == null && P == []
      ensures old(P) != [] ==> x == old(P)[|old(P)| - 1] && P == old(P)[..|old(P)| - 1] && Loose(x)
      ensures old(P) != [] ==> multiset(P) + multiset{x} == old(multiset(P))
      ensures forall y :: y in nodes ==> y.state == old(y.state)
    {
      x := OutBeside(processList, P, sleepingList, S, toKillList, T);
      if P != [] {
        ApartRemoved(processList, P, sleepingList, S, |P| - 1);
        ApartRemoved(processList, P, toKillList, T, |P| - 1);
        RemovedLast(P);
        P := Removed(P, |P| - 1);
      }
    }

    /** queue_add on process_list */
    method PutReady(x: Node) returns (ghost k: int)
      requires Lists() && Loose(x)
      modifies this`P, processList, x, P
      ensures Lists() && Place(old(P), x.prio, k) && P == Inserted(old(P), k, x) && Added(x, old(P), P)
      ensures forall y :: y in nodes && y != x && old(Loose(y)) ==> Loose(y)
      ensures forall y :: y in nodes ==> y.state == old(y.state)
    {
      k := AddBeside(x, processList, P, sleepingList, S, toKillList, T);
      ApartInserted(processList, P, sleepingList, S, k, x);
      ApartInserted(processList, P, toKillList, T, k, x);
      InsertedAdded(P, k, x);
      P := Inserted(P, k, x);
    }

    /** queue_add on sleeping_list */
    method PutSleeping(x: Node) returns (ghost k: int)
      requires Lists() && Loose(x)
      modifies this`S, sleepingList, x, S
      ensures Lists() && Place(old(S), x.prio, k) && S == Inserted(old(S), k, x) && Added(x, old(S), S)
      ensures forall y :: y in nodes && y != x && old(Loose(y)) ==> Loose(y)
      ensures forall y :: y in nodes ==> y.state == old(y.state)
    {
      k := AddBeside(x, sleepingList, S, processList, P, toKillList, T);
      ApartInserted(sleepingList, S, processList, P, k, x);
      ApartInserted(sleepingList, S, toKillList, T, k, x);
      InsertedAdded(S, k, x);
      S := Inserted(S, k, x);
    }

    /** queue_add on toKill_list */
    method PutToKill(x: Node) returns (ghost k: int)
      requires Lists() && Loose(x)
      modifies this`T, toKillList, x, T
      ensures Lists() && Place(old(T), x.prio, k) && T == Inserted(old(T), k, x) && Added(x, old(T), T)
      ensures forall y :: y in nodes && y != x && old(Loose(y)) ==> Loose(y)
      ensures forall y :: y in nodes ==> y.state == old(y.state)
    {
      k := AddBeside(x, toKillList, T, processList, P, sleepingList, S);
      ApartInserted(toKillList, T, processList, P, k, x);
      ApartInserted(toKillList, T, sleepingList, S, k, x);
      InsertedAdded(T, k, x);
      T := Inserted(T, k, x);
    }

    /** One zombie goes from the end of process_list to toKill_list. */
    method BuryOne()
      requires Valid() && P != []
      modifies this`P, this`T, nodes
      ensures Valid() && P == old(P)[..|old(P)| - 1] && SameSum(old(P), old(T), P, T)
      ensures forall x :: x in nodes ==> x.state == old(x.state)
    {
      assert chosen !in P;
      var cour := TakeReady();
      assert Loose(chosen);
      ghost var k := PutToKill(cour);
    }

    /** The test of the loop, and one round of it. */
    method BuryTop(ghost P0: seq<Node>, ghost dead: set<Node>) returns (again: bool)
      requires Valid() && Zombies() <= dead && Shortened(P0, dead, P)
      modifies this`P, this`T, nodes
      ensures Valid() && Zombies() <= dead && Shortened(P0, dead, P) && SameSum(old(P), old(T), P, T)
      ensures forall x :: x in nodes ==> x.state == old(x.state)
      ensures if again then |P| < |old(P)| else P == [] || P[|P| - 1] !in Zombies()
    {
      var top := Top(processList, P);
      again := top != null && top.state == ZOMBIE;
      if again {
        assert top in P;
        ghost var P1 := P;
        BuryOne();
        ShortenOne(P0, dead, P1, P);
      }
    }

    /** The zombies at the end of process_list go to toKill_list. */
    method BuryLoop()
      requires Valid()
      modifies this`P, this`T, nodes
      ensures Valid() && Shortened(old(P), old(Zombies()), P) && SameSum(old(P), old(T), P, T)
      ensures P == [] || P[|P| - 1] !in Zombies()
      ensures forall x :: x in nodes ==> x.state == old(x.state)
    {
      ghost var P0, dead := P, Zombies();
      var again := true;
      while again
        invariant Valid() && Zombies() <= dead && Shortened(P0, dead, P) && SameSum(P0, old(T), P, T)
        invariant forall x :: x in nodes ==> x.state == old(x.state)
        invariant again || P == [] || P[|P| - 1] !in Zombies()
        decreases again, |P|
      {
        again := BuryTop(P0, dead);
      }
    }

    /** The same: the first living processes of the list stay, the last of which is no zombie. */
    method Bury() returns (ghost living: nat)
      requires Valid()
      modifies this`P, this`T, nodes
      ensures Valid() && living <= |old(P)| && P == old(P)[..living] && Shortened(old(P), old(Zombies()), P)
      ensures living > 0 ==> old(P)[living - 1] !in old(Zombies())
      ensures multiset(T) == multiset(old(T)) + multiset(old(P)[living..]) && Processes() == old(Processes())
      ensures forall x :: x in nodes ==> x.state == old(x.state)
    {
      ghost var P0, T0 := P, T;
      BuryLoop();
      living := |P|;
      BuriedRest(P0, T0, P, T);
      BuriedAll(P0, S, T0, P, T, chosen);
      assert P == P0[..living];
    }

    /** A process on no list changes state. */
    method SetState(x: Node, st: ProcessState)
      requires Lists() && Loose(x)
      modifies x`state
      ensures Lists() && Loose(x) && x.state == st
    {
      x.state := st;
    }

    /** What becomes of the process that gives way: ready again, asleep, or to be buried.  In any
        other state it is on no list. */
    method PutBack(former: Node)
      requires Lists() && Loose(former)
      modifies this`P, this`S, this`T, nodes
      ensures Lists() && (Sorted(old(P)) ==> Sorted(P))
      ensures Gone(former, old(former.state), old(P), old(S), old(T))
      ensures forall y :: y in nodes && y != former ==> y.state == old(y.state)
      ensures forall y :: y in nodes && y != former && old(Loose(y)) ==> Loose(y)
    {
      ghost var k;
      if former.state == CHOSEN {
        SetState(former, ACTIVABLE);
        k := PutReady(former);
      } else if former.state == SLEEPING {
        k := PutSleeping(former);
      } else if former.state == ZOMBIE {
        k := PutToKill(former);
      }
    }

    /** The process former, of the given state, has gone where its state says: one list has it besides
        what it had, and the others are as they were. */
    ghost predicate Gone(former: Node, st: ProcessState, P0: seq<Node>, S0: seq<Node>, T0: seq<Node>)
      reads this, former
    {
      && former.state == (if st == CHOSEN then ACTIVABLE else st)
      && (if st == CHOSEN then Added(former, P0, P) && InPlace(former, P0, P) else P == P0)
      && (if st == SLEEPING then Added(former, S0, S) && InPlace(former, S0, S) else S == S0)
      && (if st == ZOMBIE then Added(former, T0, T) && InPlace(former, T0, T) else T == T0)
      && (st !in {CHOSEN, SLEEPING, ZOMBIE} ==> Loose(former))
    }

    /** ordonnance.  living is the number of ready processes left when the zombies at the end of
        the list are gone: the last of them is chosen, and the former one goes where its state says.
        No process is lost, unless the former one is blocked. */
    method Ordonnance() returns (ghost living: nat)
      requires Valid() && Sorted(P)
      modifies this`chosen, this`P, this`S, this`T, nodes
      ensures Valid() && Sorted(P)
      ensures living <= |old(P)| && Shortened(old(P), old(Zombies()), old(P)[..living])
      ensures forall j :: living <= j < |old(P)| ==> old(P)[j] in T
      ensures living == 0 ==> chosen == old(chosen) && P == [] && S == old(S) && chosen.state == old(chosen.state)
      ensures living > 0 ==> chosen == old(P)[living - 1] && chosen !in old(Zombies()) && chosen.state == CHOSEN && chosen != old(chosen)
      ensures living > 0 ==> GoneTo(old(chosen), old(chosen.state))
      ensures living > 0 ==> Queued(old(chosen), old(chosen.state), old(P)[..living - 1], P, old(S), S)
      ensures Processes() == old(Processes()) <==> chosen == old(chosen) || old(chosen.state) in {CHOSEN, SLEEPING, ZOMBIE}
      ensures Processes() == old(Processes()) || Processes() + multiset{old(chosen)} == old(Processes())
      ensures forall y :: y in nodes && y != chosen && y != old(chosen) ==> y.state == old(y.state)
    {
      ghost var all, former, st := Processes(), chosen, chosen.state;
      living := ChooseNext();
      LossTells(Processes(), Lost(former, st), all);
    }

    /** The same, with what is lost. */
    method ChooseNext() returns (ghost living: nat)
      requires Valid() && Sorted(P)
      modifies this`chosen, this`P, this`S, this`T, nodes
      ensures Valid() && Sorted(P)
      ensures living <= |old(P)| && Shortened(old(P), old(Zombies()), old(P)[..living])
      ensures forall j :: living <= j < |old(P)| ==> old(P)[j] in T
      ensures living == 0 ==> chosen == old(chosen) && P == [] && S == old(S) && chosen.state == old(chosen.state)
      ensures living > 0 ==> chosen == old(P)[living - 1] && chosen !in old(Zombies()) && chosen.state == CHOSEN && chosen != old(chosen)
      ensures living > 0 ==> GoneTo(old(chosen), old(chosen.state))
      ensures living > 0 ==> Queued(old(chosen), old(chosen.state), old(P)[..living - 1], P, old(S), S)
      ensures Processes() + Lost(old(chosen), old(chosen.state)) == old(Processes())
      ensures forall y :: y in nodes && y != chosen && y != old(chosen) ==> y.state == old(y.state)
    {
      ghost var P0, T0 := P, T;
      living := Bury();
      ghost var T1 := T;
      Elect(P0, living);
      GainedRest(P0, living, T0, T1, T);
    }

    /** The former chosen process is where its state says, and only there. */
    ghost predicate GoneTo(former: Node, st: ProcessState)
      reads this, former
    {
      && former.state == (if st == CHOSEN then ACTIVABLE else st)
      && (former in P <==> st == CHOSEN) && (former in S <==> st == SLEEPING) && (former in T <==> st == ZOMBIE)
    }

    /** The last ready process, if there is one, takes over. */
    method Elect(ghost Q: seq<Node>, ghost n: nat)
      requires Valid() && Sorted(P) && n <= |Q| && P == Q[..n]
      modifies this`chosen, this`P, this`S, this`T, nodes
      ensures Valid() && Sorted(P) && multiset(old(T)) <= multiset(T)
      ensures if n == 0 then chosen == old(chosen) && chosen.state == old(chosen.state) && P == [] && S == old(S) && T == old(T)
              else chosen == Q[n - 1] && chosen != old(chosen) && chosen.state == CHOSEN && GoneTo(old(chosen), old(chosen.state))
      ensures n > 0 ==> Queued(old(chosen), old(chosen.state), Q[..n - 1], P, old(S), S)
      ensures Processes() + Lost(old(chosen), old(chosen.state)) == old(Processes())
      ensures forall y :: y in nodes && y != chosen && y != old(chosen) ==> y.state == old(y.state)
    {
      assert chosen !in P;
      ghost var P0, S0, T0, former, st := P, S, T, chosen, chosen.state;
      var toChoose := TakeReady();
      if toChoose != null {
        assert Loose(chosen);
        ghost var P1 := P;
        Switch(toChoose);
        GoneFar(former, st, P1, S0, T0);
        assert P1 == Q[..n - 1];
        assert Queued(former, st, P1, P, S0, S);
        GoneTotal(P0, S0, T0, P1, P, S, T, former, toChoose, st);
      }
    }

    /** What a switch away from a process of this state loses. */
    ghost function Lost(former: Node, st: ProcessState): multiset<Node>
      reads this
    {
      if chosen == former then multiset{} else Dropped(former, st)
    }

    /** The next process takes over from the chosen one. */
    method Switch(toChoose: Node)
      requires Valid() && Loose(toChoose) && toChoose != chosen && Sorted(P)
      modifies this`chosen, this`P, this`S, this`T, nodes
      ensures Valid() && Sorted(P) && chosen == toChoose && chosen.state == CHOSEN
      ensures Gone(old(chosen), old(chosen.state), old(P), old(S), old(T))
      ensures forall y :: y in nodes && y != toChoose && y != old(chosen) ==> y.state == old(y.state)
    {
      SetState(toChoose, CHOSEN);
      var former := chosen;
      PutBack(former);
      chosen := toChoose;
    }

    lemma GoneFar(former: Node, st: ProcessState, P0: seq<Node>, S0: seq<Node>, T0: seq<Node>)
      requires Gone(former, st, P0, S0, T0) && former !in P0 && former !in S0 && former !in T0
      ensures GoneTo(former, st) && multiset(T0) <= multiset(T)
    {
    }

    // ------------------------------------------------ semaphores

    /** bloque_sur_semaphore: if another process takes over, the chosen one is on no list any more. */
    method BlockOnSemaphore() returns (ghost living: nat)
      requires Valid() && Sorted(P)
      modifies this`chosen, this`P, this`S, this`T, nodes
      ensures Valid() && Sorted(P)
      ensures living > 0 ==> chosen != old(chosen) && old(chosen) !in Processes()
      ensures living > 0 ==> Processes() + multiset{old(chosen)} == old(Processes())
      ensures old(chosen).state == BLOCKED_ON_SEM
    {
      SetState(chosen, BLOCKED_ON_SEM);
      living := Ordonnance();
    }

    /** A process on process_list becomes ready. */
    method SetReady(x: Node)
      requires Valid() && x in P
      modifies x`state
      ensures Valid() && x.state == ACTIVABLE
    {
      assert forall y :: y in P ==> y !in S && y !in T && y != sleepingList && y != toKillList;
      ghost var ls := Links(processList, P);
      RingChain(processList, P);
      x.state := ACTIVABLE;
      assert ls == Links(processList, P);
      RingChain(processList, P);
    }

    /** passe_activable, for the process x: it is looked for on process_list only, and nothing
        happens to a process that is not there. */
    method MakeReady(x: Node)
      requires Valid() && x in nodes
      modifies P
      ensures Valid()
      ensures x.state == if x in P then ACTIVABLE else old(x.state)
      ensures forall y :: y in nodes && y != x ==> y.state == old(y.state)
    {
      ghost var i := 0;
      assert LinkedAt(processList, P, -1);
      var cour := processList.next;
      while cour != processList
        invariant 0 <= i <= |P| && cour == Nth(processList, P, i) && x !in P[..i]
        decreases |P| - i
      {
        if cour == x {
          SetReady(cour);
          return;
        }
        assert LinkedAt(processList, P, i);
        cour := cour.next;
        i := i + 1;
      }
      assert P[..i] == P;
    }

    ghost function Zombies(): set<Node>
      reads this, P
    {
      set x | x in P && x.state == ZOMBIE
    }
  }

  // ----------------------------------------------------- the lists' values

  /** x has come to the list, which stays in order if it was. */
  ghost predicate Added(x: Node, L: seq<Node>, M: seq<Node>) {
    x in M && multiset(M) == multiset(L) + multiset{x} && (Sorted(L) ==> Sorted(M))
  }

  /** The two lists of processes that run again: the former one is in its place in one of them, or in none. */
  ghost predicate Queued(former: Node, st: ProcessState, P0: seq<Node>, P: seq<Node>, S0: seq<Node>, S: seq<Node>) {
    && (if st == CHOSEN then InPlace(former, P0, P) else P == P0)
    && (if st == SLEEPING then InPlace(former, S0, S) else S == S0)
  }

  /** It stands where queue_add puts it. */
  ghost predicate InPlace(x: Node, L: seq<Node>, M: seq<Node>) {
    exists k {:trigger Place(L, x.prio, k)} :: Place(L, x.prio, k) && M == Inserted(L, k, x)
  }

  lemma InsertedAdded(L: seq<Node>, k: int, x: Node)
    requires Place(L, x.prio, k)
    ensures Added(x, L, Inserted(L, k, x))
  {
    assert L == L[..k] + L[k..];
    assert Inserted(L, k, x)[k] == x;
    if Sorted(L) { InsertedSorted(L, k, x); }
  }

  ghost function All(P: seq<Node>, S: seq<Node>, T: seq<Node>, c: Node): multiset<Node> {
    multiset(P) + multiset(S) + multiset(T) + multiset{c}
  }

  /** What a switch away from a process of this state loses. */
  ghost function Dropped(former: Node, st: ProcessState): multiset<Node> {
    if st in {CHOSEN, SLEEPING, ZOMBIE} then multiset{} else multiset{former}
  }

  ghost predicate SameSum(P: seq<Node>, T: seq<Node>, P': seq<Node>, T': seq<Node>) {
    multiset(P) + multiset(T) == multiset(P') + multiset(T')
  }

  lemma BuriedRest(P0: seq<Node>, T0: seq<Node>, P: seq<Node>, T: seq<Node>)
    requires SameSum(P0, T0, P, T) && P <= P0
    ensures multiset(T) == multiset(T0) + multiset(P0[|P|..])
  {
    var rest := P0[|P|..];
    assert P0 == P + rest;
    assert multiset(T) == multiset(P) + multiset(T) - multiset(P);
    assert multiset(T0) + multiset(rest) == multiset(P) + multiset(rest) + multiset(T0) - multiset(P);
  }

  lemma BuriedAll(P0: seq<Node>, S: seq<Node>, T0: seq<Node>, P: seq<Node>, T: seq<Node>, c: Node)
    requires SameSum(P0, T0, P, T)
    ensures All(P, S, T, c) == All(P0, S, T0, c)
  {
    assert multiset(P) + multiset(S) + multiset(T) == multiset(P) + multiset(T) + multiset(S);
    assert multiset(P0) + multiset(S) + multiset(T0) == multiset(P0) + multiset(T0) + multiset(S);
    assert All(P, S, T, c) == multiset(P) + multiset(T) + multiset(S) + multiset{c};
    assert All(P0, S, T0, c) == multiset(P0) + multiset(T0) + multiset(S) + multiset{c};
  }

  lemma GoneTotal(P0: seq<Node>, S0: seq<Node>, T0: seq<Node>, P1: seq<Node>, P: seq<Node>, S: seq<Node>, T: seq<Node>,
                  former: Node, next: Node, st: ProcessState)
    requires multiset(P1) + multiset{next} == multiset(P0)
    requires if st == CHOSEN then Added(former, P1, P) else P == P1
    requires if st == SLEEPING then Added(former, S0, S) else S == S0
    requires if st == ZOMBIE then Added(former, T0, T) else T == T0
    ensures All(P, S, T, next) + Dropped(former, st) == All(P0, S0, T0, former)
  {
    var b := multiset(P1) + multiset(S0) + multiset(T0);
    assert multiset(P) + multiset(S) + multiset(T) + Dropped(former, st) == b + multiset{former};
    Regroup(multiset(P) + multiset(S) + multiset(T), Dropped(former, st), b, multiset{former}, multiset{next});
    assert b + multiset{next} == multiset(P0) + multiset(S0) + multiset(T0);
    assert All(P, S, T, next) == multiset(P) + multiset(S) + multiset(T) + multiset{next};
    assert All(P0, S0, T0, former) == b + multiset{next} + multiset{former};
  }

  lemma Regroup(a: multiset<Node>, d: multiset<Node>, b: multiset<Node>, x: multiset<Node>, y: multiset<Node>)
    requires a + d == b + x
    ensures a + y + d == b + y + x
  {
    assert a + y + d == a + d + y;
  }

  /** A is B without what is lost. */
  lemma LossTells(A: multiset<Node>, lost: multiset<Node>, B: multiset<Node>)
    requires A + lost == B
    ensures A == B <==> lost == multiset{}
  {
    assert lost == B - A;
  }

  /** What a list gained is in it. */
  lemma GainedRest(L: seq<Node>, n: nat, T0: seq<Node>, T1: seq<Node>, T: seq<Node>)
    requires n <= |L| && multiset(T1) == multiset(T0) + multiset(L[n..]) && multiset(T1) <= multiset(T)
    ensures forall j :: n <= j < |L| ==> L[j] in T
  {
    forall j | n <= j < |L| ensures L[j] in T {
      assert L[j] == L[n..][j - n];
      assert L[j] in multiset(T1);
    }
  }

  /** P is P0 without some zombies at its end. */
  ghost predicate Shortened(P0: seq<Node>, dead: set<Node>, P: seq<Node>) {
    P <= P0 && forall j :: |P| <= j < |P0| ==> P0[j] in dead
  }

  /** With the list in order, the process chosen is the oldest of highest priority among those that
      are no zombies. */
  lemma ChosenFirst(P0: seq<Node>, dead: set<Node>, n: nat, arrival: Node -> int, j: int)
    requires Sorted(P0) && Aged(P0, arrival) && 0 < n <= |P0| && Shortened(P0, dead, P0[..n])
    requires 0 <= j < |P0| && P0[j] !in dead && P0[j] != P0[n - 1]
    ensures var first := P0[n - 1];
            P0[j].prio < first.prio || (P0[j].prio == first.prio && arrival(P0[j]) > arrival(first))
  {
  }

  lemma ShortenOne(P0: seq<Node>, dead: set<Node>, P: seq<Node>, P': seq<Node>)
    requires Shortened(P0, dead, P) && P != [] && P' == P[..|P| - 1] && P[|P| - 1] in dead
    ensures Shortened(P0, dead, P')
  {
  }

  lemma RemovedLast(L: seq<Node>)
    requires L != []
    ensures Removed(L, |L| - 1) == L[..|L| - 1] && multiset(L) == multiset(L[..|L| - 1]) + multiset{L[|L| - 1]}
  {
    assert L == L[..|L| - 1] + [L[|L| - 1]];
  }
}
