/** The dining philosophers of `user/tests/test20`, for any number of seats from three up:
    every interleaving of the processes, with semaphores as atomic P and V on counters. */
module Dining {

  const ROUNDS := 6

  /** The shared memory of struct philo, and the philosophers' semaphores. */
  datatype Shared = Shared(f: seq<int>, bloque: seq<int>, etat: seq<char>, s: seq<nat>)

  /** The critical sections of a process, in the order of one round; Fin comes after the last. */
  datatype Section = Prendre | Mange | FinMange | Poser | Pense | FinPense | Fin

  /** Where a process is: about to wait for the mutex, inside a section, about to signal the
      mutex, waiting for its forks, or finished. */
  datatype Pc = Want(sec: Section) | Inside(sec: Section) | Leaving(sec: Section) | Attend | Done

  datatype State = State(n: nat, m: Shared, mutex: nat, pc: seq<Pc>, round: seq<nat>)

  /** (i + 1) % NR_PHILO and (i + NR_PHILO - 1) % NR_PHILO */
  function Right(i: nat, n: nat): (r: nat)
    requires i < n
    ensures r < n && r == if i + 1 == n then 0 else i + 1
  {
    (i + 1) % n
  }

  function Left(i: nat, n: nat): (l: nat)
    requires i < n
    ensures l < n && l == if i == 0 then n - 1 else i - 1
  {
    assert i > 0 ==> (i + n - 1) % n == i - 1 by { if i > 0 { Wrap(i - 1, n); } }
    (i + n - 1) % n
  }

  lemma Wrap(i: nat, n: nat)
    requires i < n
    ensures (i + n) % n == i
  {
  }

  ghost predicate Sized(m: Shared, n: nat) {
    3 <= n && |m.f| == |m.bloque| == |m.etat| == |m.s| == n
  }

  // ----------------------------------------------- the critical sections

  /** test: both forks of i are free */
  predicate Test(m: Shared, i: nat)
    requires Sized(m, |m.f|) && i < |m.f|
  {
    m.f[i] == 0 && m.f[Right(i, |m.f|)] == 0
  }

  /** Inside prendre_fourchettes: take both forks and signal oneself, or be marked as blocked. */
  function Take(m: Shared, i: nat): Shared
    requires Sized(m, |m.f|) && i < |m.f|
  {
    if Test(m, i) then m.(f := m.f[i := 1][Right(i, |m.f|) := 1], s := m.s[i := m.s[i] + 1])
    else m.(bloque := m.bloque[i := 1])
  }

  /** The fork `own` passes to the blocked neighbour `to`, whose other fork is `other`, if that one
      is free; else it is put down. */
  function Pass(m: Shared, own: nat, to: nat, other: nat): Shared
    requires Sized(m, |m.f|) && own < |m.f| && to < |m.f| && other < |m.f|
  {
    if m.bloque[to] != 0 && m.f[other] == 0
    then m.(f := m.f[other := 1], bloque := m.bloque[to := 0], s := m.s[to := m.s[to] + 1])
    else m.(f := m.f[own := 0])
  }

  /** Inside poser_fourchettes: first the left neighbour, then the right one. */
  function Give(m: Shared, i: nat): Shared
    requires Sized(m, |m.f|) && i < |m.f|
  {
    var n := |m.f|;
    var l, r := Left(i, n), Right(i, n);
    Pass(Pass(m, i, l, l), r, r, Right(r, n))
  }

  /** Whether process i, when it puts down its forks, wakes its left and its right neighbour: one that is
      blocked and whose other fork is free.  They compete for that fork only at a table of three, where
      the left one gets it. */
  function Wakes(m: Shared, i: nat): (bool, bool)
    requires Sized(m, |m.f|) && i < |m.f|
  {
    var n := |m.f|;
    var l, r := Left(i, n), Right(i, n);
    var left := m.bloque[l] != 0 && m.f[l] == 0;
    (left, m.bloque[r] != 0 && m.f[Right(r, n)] == 0 && !(n == 3 && left))
  }

  /** Place by place: who is woken gets the fork put down and its other one; all else stays. */
  lemma Given(m: Shared, i: nat, j: nat)
    requires Sized(m, |m.f|) && i < |m.f| && j < |m.f|
    ensures var m', n, (left, right) := Give(m, i), |m.f|, Wakes(m, i);
            var l, r := Left(i, n), Right(i, n);
            var woken := (left && j == l) || (right && j == r);
            && |m'.f| == |m'.bloque| == |m'.s| == n && m'.etat == m.etat
            && m'.s[j] == m.s[j] + (if woken then 1 else 0) && m'.bloque[j] == (if woken then 0 else m.bloque[j])
            && m'.f[j] == if (left && j == l) || (right && j == Right(r, n)) then 1
                          else if (!left && j == i) || (!right && j == r) then 0 else m.f[j]
  {
    var n := |m.f|;
    var l, r := Left(i, n), Right(i, n);
    var rr, m1 := Right(r, n), Pass(m, i, l, l);
    Around(i, n);
    Passed(m, i, l, l, j);
    Passed(m, i, l, l, r);
    Passed(m, i, l, l, rr);
    Passed(m1, r, r, rr, j);
  }

  lemma Passed(m: Shared, own: nat, to: nat, other: nat, j: nat)
    requires Sized(m, |m.f|) && own < |m.f| && to < |m.f| && other < |m.f| && j < |m.f|
    ensures var m', w := Pass(m, own, to, other), m.bloque[to] != 0 && m.f[other] == 0;
            && Sized(m', |m.f|) && m'.etat == m.etat
            && m'.s[j] == m.s[j] + (if w && j == to then 1 else 0) && m'.bloque[j] == (if w && j == to then 0 else m.bloque[j])
            && m'.f[j] == if w && j == other then 1 else if !w && j == own then 0 else m.f[j]
  {
  }

  /** The seats around i are different, but for the ones at both ends at a table of three. */
  lemma Around(i: nat, n: nat)
    requires i < n && n >= 3
    ensures var l, r := Left(i, n), Right(i, n);
            var rr := Right(r, n);
            l != i && r != i && l != r && rr != i && rr != r && (rr == l <==> n == 3)
  {
  }

  function Body(m: Shared, i: nat, sec: Section): Shared
    requires Sized(m, |m.f|) && i < |m.f|
  {
    match sec
    case Prendre => Take(m, i)
    case Poser => Give(m, i)
    case Mange => m.(etat := m.etat[i := 'm'])
    case Pense => m.(etat := m.etat[i := 'p'])
    case _ => m.(etat := m.etat[i := '-'])
  }

  // -------------------------------------------------------------- steps

  ghost predicate WellFormed(st: State) {
    Sized(st.m, st.n) && |st.pc| == |st.round| == st.n
  }

  predicate Enabled(st: State, i: nat)
    requires WellFormed(st) && i < st.n
  {
    match st.pc[i]
    case Want(_) => st.mutex > 0
    case Attend => st.m.s[i] > 0
    case Done => false
    case _ => true
  }

  /** What follows a critical section. */
  function After(sec: Section, round: nat): Pc {
    match sec
    case Prendre => Attend
    case Mange => Want(FinMange)
    case FinMange => Want(Poser)
    case Poser => Want(Pense)
    case Pense => Want(FinPense)
    case FinPense => if round + 1 < ROUNDS then Want(Prendre) else Want(Fin)
    case Fin => Done
  }

  /** One step of process i: wait for the mutex, run the section, signal the mutex, or wait for the forks. */
  function Step(st: State, i: nat): State
    requires WellFormed(st) && i < st.n && Enabled(st, i)
  {
    match st.pc[i]
    case Want(sec) => st.(mutex := st.mutex - 1, pc := st.pc[i := Inside(sec)])
    case Inside(sec) => st.(m := Body(st.m, i, sec), pc := st.pc[i := Leaving(sec)])
    case Leaving(sec) =>
      st.(mutex := st.mutex + 1, pc := st.pc[i := After(sec, st.round[i])],
          round := if sec == FinPense then st.round[i := st.round[i] + 1] else st.round)
    case Attend => st.(m := st.m.(s := st.m.s[i := st.m.s[i] - 1]), pc := st.pc[i := Want(Mange)])
  }

  function Initial(n: nat): State {
    State(n, Shared(seq(n, _ => 0), seq(n, _ => 0), seq(n, _ => '-'), seq(n, _ => 0)), 1,
          seq(n, _ => Want(Prendre)), seq(n, _ => 0))
  }

  // ---------------------------------------------------------- invariant

  predicate Holding(pc: Pc) {
    pc.Inside? || pc.Leaving?
  }

  /** Between asking for its forks and getting them. */
  predicate Waiting(pc: Pc) {
    pc == Leaving(Prendre) || pc == Attend
  }

  /** Past the wait for the forks, and before putting them down. */
  predicate Eating(pc: Pc) {
    match pc
    case Want(sec) => sec.Mange? || sec.FinMange? || sec.Poser?
    case Inside(sec) => sec.Mange? || sec.FinMange? || sec.Poser?
    case Leaving(sec) => sec.Mange? || sec.FinMange?
    case _ => false
  }

  /** i owns both its forks; they may have been handed to it while it waits. */
  ghost predicate Owns(st: State, i: nat)
    requires WellFormed(st) && i < st.n
  {
    Eating(st.pc[i]) || (Waiting(st.pc[i]) && st.m.s[i] == 1)
  }

  /** Fork j is marked as taken exactly if one of its two neighbours owns its forks.  X is the set
      of forks that a process inside poser_fourchettes has yet to deal with. */
  ghost predicate ForkOk(st: State, X: set<nat>, j: nat)
    requires WellFormed(st) && j < st.n
  {
    && st.m.f[j] == (if Owns(st, j) || Owns(st, Left(j, st.n)) || j in X then 1 else 0)
    && (j in X ==> !Owns(st, j) && !Owns(st, Left(j, st.n)))
  }

  /** Of two neighbours at most one owns its forks. */
  ghost predicate Apart(st: State, i: nat)
    requires WellFormed(st) && i < st.n
  {
    !(Owns(st, i) && Owns(st, Right(i, st.n)))
  }

  /** The semaphore counts at most one grant, the flag is set exactly while i is blocked, and a
      blocked philosopher misses a fork that a neighbour holds. */
  ghost predicate SeatOk(st: State, i: nat)
    requires WellFormed(st) && i < st.n
  {
    && st.m.s[i] <= 1 && (st.m.s[i] == 1 ==> Waiting(st.pc[i]))
    && st.m.bloque[i] == (if Waiting(st.pc[i]) && st.m.s[i] == 0 then 1 else 0)
    && (st.m.bloque[i] == 1 ==> st.m.f[i] == 1 || st.m.f[Right(i, st.n)] == 1)
  }

  /** What is displayed for a process: 'm' exactly between the two writes of manger. */
  function Shown(pc: Pc): char {
    if pc == Leaving(Mange) || pc == Want(FinMange) || pc == Inside(FinMange) then 'm'
    else if pc == Leaving(Pense) || pc == Want(FinPense) || pc == Inside(FinPense) then 'p'
    else '-'
  }

  ghost predicate EtatOk(st: State, i: nat)
    requires WellFormed(st) && i < st.n
  {
    st.m.etat[i] == Shown(st.pc[i])
  }

  ghost predicate RoundOk(st: State, i: nat)
    requires WellFormed(st) && i < st.n
  {
    match st.pc[i]
    case Want(Fin) => st.round[i] == ROUNDS
    case Inside(Fin) => st.round[i] == ROUNDS
    case Leaving(Fin) => st.round[i] == ROUNDS
    case Done => st.round[i] == ROUNDS
    case _ => st.round[i] < ROUNDS
  }

  ghost predicate MutexOk(st: State)
    requires WellFormed(st)
  {
    && st.mutex <= 1
    && (st.mutex == 1 ==> forall i {:trigger st.pc[i]} :: 0 <= i < st.n ==> !Holding(st.pc[i]))
    && (st.mutex == 0 ==> exists i {:trigger st.pc[i]} :: 0 <= i < st.n && Holding(st.pc[i]))
    && (forall i, j {:trigger st.pc[i], st.pc[j]} :: 0 <= i < st.n && 0 <= j < st.n && Holding(st.pc[i]) && Holding(st.pc[j]) ==> i == j)
  }

  /** The invariant about forks, flags and semaphores, in the midst of putting down X. */
  ghost predicate Seated(st: State, X: set<nat>) {
    && WellFormed(st)
    && (forall i: nat {:trigger ForkOk(st, X, i)} :: i < st.n ==> ForkOk(st, X, i))
    && (forall i: nat {:trigger Apart(st, i)} :: i < st.n ==> Apart(st, i))
    && (forall i: nat {:trigger SeatOk(st, i)} :: i < st.n ==> SeatOk(st, i))
  }

  ghost predicate Inv(st: State) {
    && Seated(st, {}) && MutexOk(st)
    && (forall i: nat {:trigger EtatOk(st, i)} :: i < st.n ==> EtatOk(st, i))
    && (forall i: nat {:trigger RoundOk(st, i)} :: i < st.n ==> RoundOk(st, i))
  }

  lemma InitialOk(n: nat)
    requires n >= 3
    ensures Inv(Initial(n))
  {
  }

  lemma Neighbours(i: nat, n: nat)
    requires i < n && n >= 3
    ensures Left(Right(i, n), n) == i && Right(Left(i, n), n) == i
    ensures Left(i, n) != i && Right(i, n) != i && Left(i, n) != Right(i, n)
    ensures Right(Right(i, n), n) != i
  {
  }

  /** Steps that leave the forks, and who owns them, as they are. */
  lemma SameOwners(st: State, X: set<nat>, st': State)
    requires Seated(st, X) && WellFormed(st') && st'.n == st.n && st'.m.f == st.m.f && st'.m.bloque == st.m.bloque
    requires forall i: nat {:trigger Owns(st', i)} :: i < st.n ==> Owns(st', i) == Owns(st, i)
    requires forall i: nat {:trigger SeatOk(st', i)} :: i < st.n ==> SeatOk(st', i)
    ensures Seated(st', X)
  {
    forall i: nat | i < st.n ensures ForkOk(st', X, i) && Apart(st', i) {
      assert ForkOk(st, X, i) && Apart(st, i);
      assert Owns(st', Left(i, st.n)) == Owns(st, Left(i, st.n));
      assert Owns(st', Right(i, st.n)) == Owns(st, Right(i, st.n));
    }
  }

  /** Taking both forks, when both are free. */
  lemma TakeKeeps(st: State, i: nat)
    requires Seated(st, {}) && i < st.n && st.pc[i] == Inside(Prendre)
    ensures Seated(st.(m := Take(st.m, i), pc := st.pc[i := Leaving(Prendre)]), {})
  {
    var n := st.n;
    var st' := st.(m := Take(st.m, i), pc := st.pc[i := Leaving(Prendre)]);
    var r := Right(i, n);
    Neighbours(i, n);
    assert ForkOk(st, {}, i) && ForkOk(st, {}, r) && SeatOk(st, i);
    forall j: nat | j < n ensures ForkOk(st', {}, j) && Apart(st', j) && SeatOk(st', j) {
      Neighbours(j, n);
      assert ForkOk(st, {}, j) && Apart(st, j) && SeatOk(st, j);
      assert ForkOk(st, {}, Right(j, n));
    }
  }

  /** Passing on one fork, or putting it down. */
  lemma PassKeeps(st: State, X: set<nat>, i: nat, own: nat, to: nat, other: nat)
    requires Seated(st, X) && i < st.n && own in X && !Waiting(st.pc[i])
    requires (own == i && to == other == Left(i, st.n)) ||
             (own == to == Right(i, st.n) && other == Right(to, st.n))
    ensures Seated(st.(m := Pass(st.m, own, to, other)), X - {own})
  {
    var st' := st.(m := Pass(st.m, own, to, other));
    forall j: nat | j < st.n ensures ForkOk(st', X - {own}, j) && Apart(st', j) && SeatOk(st', j) {
      PassFork(st, X, i, own, to, other, j);
      PassSeat(st, X, i, own, to, other, j);
    }
  }

  /** The fork own is to go to the neighbour to of i, which also needs the fork other. */
  ghost predicate Passing(st: State, X: set<nat>, i: nat, own: nat, to: nat, other: nat) {
    && Seated(st, X) && i < st.n && own in X && !Waiting(st.pc[i])
    && ((own == i && to == other == Left(i, st.n)) || (own == to == Right(i, st.n) && other == Right(to, st.n)))
  }

  lemma PassFork(st: State, X: set<nat>, i: nat, own: nat, to: nat, other: nat, j: nat)
    requires Passing(st, X, i, own, to, other) && j < st.n
    ensures var st' := st.(m := Pass(st.m, own, to, other)); WellFormed(st') && ForkOk(st', X - {own}, j)
  {
    var n := st.n;
    Neighbours(i, n);
    Neighbours(to, n);
    Neighbours(j, n);
    PassOwner(st, X, i, own, to, other, j);
    PassOwner(st, X, i, own, to, other, Left(j, n));
    assert ForkOk(st, X, own) && ForkOk(st, X, other) && ForkOk(st, X, j);
  }

  /** Whoever gets the fork owns both now; nothing else changes owners. */
  lemma PassOwner(st: State, X: set<nat>, i: nat, own: nat, to: nat, other: nat, j: nat)
    requires Passing(st, X, i, own, to, other) && j < st.n
    ensures var passed := st.m.bloque[to] != 0 && st.m.f[other] == 0;
            var st' := st.(m := Pass(st.m, own, to, other));
            WellFormed(st') && (Owns(st', j) <==> Owns(st, j) || (j == to && passed)) && (passed ==> !Owns(st, to))
  {
    assert SeatOk(st, to) && SeatOk(st, j);
  }

  lemma PassSeat(st: State, X: set<nat>, i: nat, own: nat, to: nat, other: nat, j: nat)
    requires Passing(st, X, i, own, to, other) && j < st.n
    ensures var st' := st.(m := Pass(st.m, own, to, other));
            WellFormed(st') && Apart(st', j) && SeatOk(st', j)
  {
    var n := st.n;
    Neighbours(i, n);
    Neighbours(to, n);
    Neighbours(j, n);
    assert ForkOk(st, X, own) && ForkOk(st, X, other) && SeatOk(st, to);
    assert ForkOk(st, X, j) && Apart(st, j) && SeatOk(st, j);
    assert ForkOk(st, X, Right(j, n));
  }

  lemma PassDisplay(m: Shared, own: nat, to: nat, other: nat)
    requires Sized(m, |m.f|) && own < |m.f| && to < |m.f| && other < |m.f|
    ensures Pass(m, own, to, other).etat == m.etat && Sized(Pass(m, own, to, other), |m.f|)
  {
  }

  /** Putting down both forks. */
  lemma GiveKeeps(st: State, i: nat)
    requires Seated(st, {}) && i < st.n && st.pc[i] == Inside(Poser)
    ensures Seated(st.(m := Give(st.m, i), pc := st.pc[i := Leaving(Poser)]), {})
  {
    var n := st.n;
    var l, r := Left(i, n), Right(i, n);
    Neighbours(i, n);
    var st0 := st.(pc := st.pc[i := Leaving(Poser)]);
    Released(st, i, st0);
    PassKeeps(st0, {i, r}, i, i, l, l);
    var st1 := st0.(m := Pass(st0.m, i, l, l));
    assert {i, r} - {i} == {r};
    PassKeeps(st1, {r}, i, r, r, Right(r, n));
    assert {r} - {r} == {};
  }

  /** i no longer counts as owner; its two forks remain to be dealt with. */
  lemma Released(st: State, i: nat, st0: State)
    requires Seated(st, {}) && i < st.n && st.pc[i] == Inside(Poser) && st0 == st.(pc := st.pc[i := Leaving(Poser)])
    ensures Seated(st0, {i, Right(i, st.n)})
  {
    var n := st.n;
    var X := {i, Right(i, n)};
    Neighbours(i, n);
    assert Apart(st, i) && Apart(st, Left(i, n)) && SeatOk(st, i);
    forall j: nat | j < n ensures ForkOk(st0, X, j) && Apart(st0, j) && SeatOk(st0, j) {
      Neighbours(j, n);
      assert ForkOk(st, {}, j) && Apart(st, j) && SeatOk(st, j);
    }
  }

  lemma SeatedStep(st: State, i: nat)
    requires Inv(st) && i < st.n && Enabled(st, i)
    ensures Seated(Step(st, i), {})
  {
    var st' := Step(st, i);
    assert SeatOk(st, i) && RoundOk(st, i);
    match st.pc[i]
    case Inside(sec) =>
      if sec == Prendre {
        TakeKeeps(st, i);
      } else if sec == Poser {
        GiveKeeps(st, i);
      } else {
        QuietStep(st, i);
      }
    case _ => QuietStep(st, i);
  }

  /** Steps other than taking and giving leave ownership alone. */
  lemma QuietStep(st: State, i: nat)
    requires Inv(st) && i < st.n && Enabled(st, i)
    requires st.pc[i] != Inside(Prendre) && st.pc[i] != Inside(Poser)
    ensures Seated(Step(st, i), {})
  {
    var st' := Step(st, i);
    assert SeatOk(st, i);
    forall j: nat | j < st.n ensures Owns(st', j) == Owns(st, j) && SeatOk(st', j) {
      assert SeatOk(st, j);
    }
    SameOwners(st, {}, st');
  }

  lemma MutexStep(st: State, i: nat)
    requires Inv(st) && i < st.n && Enabled(st, i)
    ensures MutexOk(Step(st, i))
  {
    var st' := Step(st, i);
    if st.pc[i].Want? || st.pc[i].Inside? {
      assert Holding(st'.pc[i]);
    } else if st.mutex == 0 {
      var j :| 0 <= j < st.n && Holding(st.pc[j]);
      assert st'.pc[j] == st.pc[j] || st'.mutex == 1;
    }
  }

  lemma DisplayStep(st: State, i: nat)
    requires Inv(st) && i < st.n && Enabled(st, i)
    ensures WellFormed(Step(st, i))
    ensures forall j: nat {:trigger EtatOk(Step(st, i), j)} :: j < st.n ==> EtatOk(Step(st, i), j)
    ensures forall j: nat {:trigger RoundOk(Step(st, i), j)} :: j < st.n ==> RoundOk(Step(st, i), j)
  {
    var st' := Step(st, i);
    assert EtatOk(st, i) && RoundOk(st, i);
    if st.pc[i] == Inside(Poser) {
      PassDisplay(st.m, i, Left(i, st.n), Left(i, st.n));
    }
    forall j: nat | j < st.n ensures EtatOk(st', j) && RoundOk(st', j) {
      DisplayEtat(st, i, j);
      DisplayRound(st, i, j);
    }
  }

  lemma DisplayEtat(st: State, i: nat, j: nat)
    requires Inv(st) && i < st.n && Enabled(st, i) && j < st.n
    ensures WellFormed(Step(st, i)) && EtatOk(Step(st, i), j)
  {
    assert EtatOk(st, i) && EtatOk(st, j);
    if st.pc[i] == Inside(Poser) {
      PassDisplay(st.m, i, Left(i, st.n), Left(i, st.n));
    }
  }

  lemma DisplayRound(st: State, i: nat, j: nat)
    requires Inv(st) && i < st.n && Enabled(st, i) && j < st.n
    ensures WellFormed(Step(st, i)) && RoundOk(Step(st, i), j)
  {
    assert RoundOk(st, i) && RoundOk(st, j);
    if st.pc[i] == Inside(Poser) {
      PassDisplay(st.m, i, Left(i, st.n), Left(i, st.n));
    }
  }

  /** The invariant holds after every step of any process. */
  lemma StepKeeps(st: State, i: nat)
    requires Inv(st) && i < st.n && Enabled(st, i)
    ensures Inv(Step(st, i))
  {
    SeatedStep(st, i);
    MutexStep(st, i);
    DisplayStep(st, i);
  }

  // --------------------------------------------------------- whole runs

  /** Any interleaving: the processes named in turn take a step, if they can. */
  function Play(st: State, turns: seq<nat>): State
    requires WellFormed(st)
    decreases |turns|
  {
    if turns == [] then st
    else if turns[0] < st.n && Enabled(st, turns[0]) then Play(Step(st, turns[0]), turns[1..])
    else Play(st, turns[1..])
  }

  lemma {:induction false} PlayKeeps(st: State, turns: seq<nat>)
    requires Inv(st)
    ensures Inv(Play(st, turns)) && Play(st, turns).n == st.n
    decreases |turns|
  {
    if turns != [] {
      if turns[0] < st.n && Enabled(st, turns[0]) {
        StepKeeps(st, turns[0]);
        PlayKeeps(Step(st, turns[0]), turns[1..]);
      } else {
        PlayKeeps(st, turns[1..]);
      }
    }
  }

  /** In every reachable state: neighbours never both eat, a fork is taken exactly when one of its
      neighbours owns both of its forks, no semaphore exceeds one, and whoever is blocked has a
      neighbour that owns its forks, so that no wake-up is lost. */
  lemma Safety(n: nat, turns: seq<nat>, i: nat)
    requires n >= 3 && i < n
    ensures var st := Play(Initial(n), turns);
            && WellFormed(st) && st.n == n
            && !(st.m.etat[i] == 'm' && st.m.etat[Right(i, n)] == 'm')
            && (st.m.f[i] == if Owns(st, i) || Owns(st, Left(i, n)) then 1 else 0)
            && !(Owns(st, i) && Owns(st, Right(i, n)))
            && st.mutex <= 1 && st.m.s[i] <= 1
            && (st.m.bloque[i] != 0 ==> Owns(st, Left(i, n)) || Owns(st, Right(i, n)))
  {
    InitialOk(n);
    PlayKeeps(Initial(n), turns);
    var st := Play(Initial(n), turns);
    var r := Right(i, n);
    Neighbours(i, n);
    assert EtatOk(st, i) && EtatOk(st, r) && Apart(st, i);
    assert ForkOk(st, {}, i) && ForkOk(st, {}, r) && SeatOk(st, i);
  }

  /** At most one process is between its wait for the mutex and its signal. */
  lemma MutualExclusion(n: nat, turns: seq<nat>, i: nat, j: nat)
    requires n >= 3 && i < n && j < n && i != j
    ensures var st := Play(Initial(n), turns); WellFormed(st) && st.n == n && !(Holding(st.pc[i]) && Holding(st.pc[j]))
  {
    InitialOk(n);
    PlayKeeps(Initial(n), turns);
  }

  // ----------------------------------------------------------- progress

  /** Unless all have finished, some process can take a step. */
  lemma NoDeadlock(st: State, k: nat) returns (i: nat)
    requires Inv(st) && k < st.n && st.pc[k] != Done
    ensures i < st.n && Enabled(st, i)
  {
    i := k;
    if st.mutex == 0 {
      var j: nat :| j < st.n && Holding(st.pc[j]);
      i := j;
    } else if !Enabled(st, k) {
      assert SeatOk(st, k) && ForkOk(st, {}, k) && ForkOk(st, {}, Right(k, st.n));
      Neighbours(k, st.n);
      i := if Owns(st, Left(k, st.n)) then Left(k, st.n) else Right(k, st.n);
    }
  }

  /** How many steps a process still has to take, from each place in its program. */
  function Work(pc: Pc, round: nat): int {
    var later := (ROUNDS - 1 - round) * 19 + 3;
    match pc
    case Want(sec) => 3 + Rest(sec, later)
    case Inside(sec) => 2 + Rest(sec, later)
    case Leaving(sec) => 1 + Rest(sec, later)
    case Attend => 16 + later
    case Done => 0
  }

  function Rest(sec: Section, later: int): int {
    match sec
    case Prendre => 16 + later
    case Mange => 12 + later
    case FinMange => 9 + later
    case Poser => 6 + later
    case Pense => 3 + later
    case FinPense => later
    case Fin => 0
  }

  function WorkFrom(st: State, i: nat): int
    requires WellFormed(st) && i <= st.n
    decreases st.n - i
  {
    if i == st.n then 0 else Work(st.pc[i], st.round[i]) + WorkFrom(st, i + 1)
  }

  lemma {:induction false} WorkOnce(st: State, i: nat, k: nat)
    requires Inv(st) && i < st.n && Enabled(st, i) && k <= st.n
    ensures WellFormed(Step(st, i)) && WorkFrom(Step(st, i), k) == WorkFrom(st, k) - if k <= i then 1 else 0
    decreases st.n - k
  {
    StepKeeps(st, i);
    if k < st.n {
      WorkOnce(st, i, k + 1);
      assert RoundOk(st, i);
    }
  }

  lemma {:induction false} WorkLeft(st: State, k: nat)
    requires Inv(st) && k <= st.n
    ensures WorkFrom(st, k) >= 0
    ensures WorkFrom(st, k) == 0 ==> forall i :: k <= i < st.n ==> st.pc[i] == Done
    ensures (forall i :: k <= i < st.n ==> st.pc[i] == Done) ==> WorkFrom(st, k) == 0
    decreases st.n - k
  {
    if k < st.n {
      WorkLeft(st, k + 1);
      assert RoundOk(st, k);
    }
  }

  lemma {:induction false} InitialWork(n: nat, k: nat)
    requires n >= 3 && k <= n
    ensures WorkFrom(Initial(n), k) == (n - k) * (19 * ROUNDS + 3)
    decreases n - k
  {
    if k < n { InitialWork(n, k + 1); }
  }

  /** Every turn is a step that can be taken. */
  predicate Effective(st: State, turns: seq<nat>)
    requires WellFormed(st)
    decreases |turns|
  {
    turns == [] || (turns[0] < st.n && Enabled(st, turns[0]) && Effective(Step(st, turns[0]), turns[1..]))
  }

  lemma {:induction false} WorkDone(st: State, turns: seq<nat>)
    requires Inv(st) && Effective(st, turns)
    ensures WellFormed(Play(st, turns)) && WorkFrom(Play(st, turns), 0) == WorkFrom(st, 0) - |turns|
    decreases |turns|
  {
    PlayKeeps(st, turns);
    if turns != [] {
      StepKeeps(st, turns[0]);
      WorkOnce(st, turns[0], 0);
      WorkDone(Step(st, turns[0]), turns[1..]);
    }
  }

  /** Every run ends: no run has more than n * 117 steps, and one that cannot go on has exactly that
      many, with every process finished after its six rounds. */
  lemma Termination(n: nat, turns: seq<nat>)
    requires n >= 3 && WellFormed(Initial(n)) && Effective(Initial(n), turns)
    ensures |turns| <= n * 117
    ensures var st := Play(Initial(n), turns);
            WellFormed(st) && st.n == n &&
            ((forall i: nat :: i < n ==> !Enabled(st, i)) <==> |turns| == n * 117) &&
            (|turns| == n * 117 <==> forall i: nat :: i < n ==> st.pc[i] == Done)
  {
    InitialOk(n);
    PlayKeeps(Initial(n), turns);
    WorkDone(Initial(n), turns);
    InitialWork(n, 0);
    var st := Play(Initial(n), turns);
    WorkLeft(st, 0);
    if k: nat :| k < n && st.pc[k] != Done {
      var i := NoDeadlock(st, k);
    }
  }

  /** At the end all forks lie on the table, nobody is blocked, and all semaphores are as at the start. */
  lemma Finished(st: State, i: nat)
    requires Inv(st) && i < st.n && forall k :: 0 <= k < st.n ==> st.pc[k] == Done
    ensures st.m.f[i] == 0 && st.m.bloque[i] == 0 && st.m.s[i] == 0 && st.mutex == 1
    ensures st.m.etat[i] == '-' && st.round[i] == ROUNDS
  {
    assert ForkOk(st, {}, i) && SeatOk(st, i) && EtatOk(st, i) && RoundOk(st, i);
    assert forall j {:trigger st.pc[j]} :: 0 <= j < st.n ==> !Holding(st.pc[j]);
  }
}
