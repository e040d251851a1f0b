/** The producers and consumers of `user/tests/test17`: any number of processes, every
    interleaving, with semaphores as atomic P and V on counters. */
module Buffer {
  import Words
  import opened Arith

  const CAPACITY := 100

  newtype Byte = x: int | 0 <= x < 256

  /** The shared buffer with its positions, which are unsigned 32-bit words. */
  datatype Shared = Shared(buf: seq<Byte>, wpos: nat, rpos: nat)

  ghost predicate Sized(m: Shared) {
    |m.buf| == CAPACITY
  }

  /** buf[(wpos++) % 100] = x */
  function Put(m: Shared, x: Byte): Shared
    requires Sized(m)
  {
    Shared(m.buf[m.wpos % CAPACITY := x], (m.wpos + 1) % Words.WORD, m.rpos)
  }

  /** buf[(rpos++) % 100] */
  function Front(m: Shared): Byte
    requires Sized(m)
  {
    m.buf[m.rpos % CAPACITY]
  }

  /** Where a process is in buf_send or buf_receive: idle, with a token, in the critical section
      before and after its statement, about to signal the other side, about to count. */
  datatype Pc =
    | SendIdle | SendToken(x: Byte) | SendIn(x: Byte) | SendOut | SendSignal
    | RecvIdle | RecvToken | RecvIn | RecvOut(x: Byte) | RecvSignal(x: Byte) | RecvCount(x: Byte)

  /** sent and got are the values in the order they were written and read; received is the
      table of counts, as a multiset. */
  datatype State = State(m: Shared, wsem: nat, rsem: nat, mutex: nat, pc: seq<Pc>,
                         received: multiset<Byte>, sent: seq<Byte>, got: seq<Byte>)

  predicate Enabled(st: State, i: nat)
    requires i < |st.pc|
  {
    match st.pc[i]
    case SendIdle => st.wsem > 0
    case RecvIdle => st.rsem > 0
    case SendToken(_) => st.mutex > 0
    case RecvToken => st.mutex > 0
    case _ => true
  }

  /** One step of process i; x is the value it sends if it starts a send. */
  function Step(st: State, i: nat, x: Byte): State
    requires i < |st.pc| && Enabled(st, i) && Sized(st.m)
  {
    match st.pc[i]
    case SendIdle => st.(wsem := st.wsem - 1, pc := st.pc[i := SendToken(x)])
    case SendToken(y) => st.(mutex := st.mutex - 1, pc := st.pc[i := SendIn(y)])
    case SendIn(y) => st.(m := Put(st.m, y), pc := st.pc[i := SendOut], sent := st.sent + [y])
    case SendOut => st.(mutex := st.mutex + 1, pc := st.pc[i := SendSignal])
    case SendSignal => st.(rsem := st.rsem + 1, pc := st.pc[i := SendIdle])
    case RecvIdle => st.(rsem := st.rsem - 1, pc := st.pc[i := RecvToken])
    case RecvToken => st.(mutex := st.mutex - 1, pc := st.pc[i := RecvIn])
    case RecvIn =>
      st.(m := st.m.(rpos := (st.m.rpos + 1) % Words.WORD), pc := st.pc[i := RecvOut(Front(st.m))], got := st.got + [Front(st.m)])
    case RecvOut(y) => st.(mutex := st.mutex + 1, pc := st.pc[i := RecvSignal(y)])
    case RecvSignal(y) => st.(wsem := st.wsem + 1, pc := st.pc[i := RecvCount(y)])
    case RecvCount(y) => st.(received := st.received + multiset{y}, pc := st.pc[i := RecvIdle])
  }

  predicate Idle(pc: Pc) {
    pc.SendIdle? || pc.RecvIdle?
  }

  function Initial(buf: seq<Byte>, pc: seq<Pc>): State {
    State(Shared(buf, 0, 0), CAPACITY, 0, 1, pc, multiset{}, [], [])
  }

  // ----------------------------------------------------------- counting

  /** A free place promised to someone: to a sender with a token, or to be given back by a receiver. */
  predicate Free(pc: Pc) {
    pc.SendToken? || pc.SendIn? || pc.RecvOut? || pc.RecvSignal?
  }

  /** A value promised to someone: to be announced by a sender, or to a receiver with a token. */
  predicate Full(pc: Pc) {
    pc.SendOut? || pc.SendSignal? || pc.RecvToken? || pc.RecvIn?
  }

  predicate Inside(pc: Pc) {
    pc.SendIn? || pc.SendOut? || pc.RecvIn? || pc.RecvOut?
  }

  /** How many processes are in a state of the given kind. */
  function Count(pc: seq<Pc>, kind: Pc -> bool): nat {
    if pc == [] then 0 else (if kind(pc[0]) then 1 else 0) + Count(pc[1..], kind)
  }

  lemma {:induction false} CountOne(pc: seq<Pc>, kind: Pc -> bool, i: nat, p: Pc)
    requires i < |pc|
    ensures Count(pc[i := p], kind) == Count(pc, kind) + (if kind(p) then 1 else 0) - (if kind(pc[i]) then 1 else 0)
    ensures kind(pc[i]) ==> Count(pc, kind) >= 1
  {
    if i > 0 {
      CountOne(pc[1..], kind, i - 1, p);
      assert pc[i := p][1..] == pc[1..][i - 1 := p];
    } else {
      assert pc[i := p][1..] == pc[1..];
    }
  }

  lemma {:induction false} CountNone(pc: seq<Pc>, kind: Pc -> bool)
    requires forall i :: 0 <= i < |pc| ==> !kind(pc[i])
    ensures Count(pc, kind) == 0
  {
    if pc != [] {
      assert forall i :: 0 <= i < |pc[1..]| ==> pc[1..][i] == pc[i + 1];
      CountNone(pc[1..], kind);
    }
  }

  /** A receiver has read v and not yet counted it. */
  function Carrying(v: Byte): Pc -> bool {
    (p: Pc) => p == RecvOut(v) || p == RecvSignal(v) || p == RecvCount(v)
  }

  // ---------------------------------------------------------- invariant

  /** Tokens: each of the hundred places is free for someone or full for someone. */
  ghost predicate Tokens(st: State) {
    && |st.sent| - |st.got| == st.rsem + Count(st.pc, Full)
    && CAPACITY - (|st.sent| - |st.got|) == st.wsem + Count(st.pc, Free)
  }

  ghost predicate Exclusive(st: State) {
    st.mutex + Count(st.pc, Inside) == 1
  }

  /** The buffer holds what has been written and not read, and reads follow the order of writes. */
  ghost predicate Fifo(st: State) {
    && Sized(st.m) && |st.got| <= |st.sent| && st.got == st.sent[..|st.got|]
    && st.m.wpos == |st.sent| % Words.WORD && st.m.rpos == |st.got| % Words.WORD
    && forall k {:trigger st.sent[k]} :: |st.got| <= k < |st.sent| ==> st.m.buf[k % CAPACITY] == st.sent[k]
  }

  ghost predicate Counted(st: State) {
    forall v: Byte {:trigger Carrying(v)} :: st.received[v] + Count(st.pc, Carrying(v)) == multiset(st.got)[v]
  }

  ghost predicate Inv(st: State) {
    Tokens(st) && Exclusive(st) && Fifo(st) && Counted(st)
  }

  lemma InitialOk(buf: seq<Byte>, pc: seq<Pc>)
    requires |buf| == CAPACITY && forall i :: 0 <= i < |pc| ==> Idle(pc[i])
    ensures Inv(Initial(buf, pc))
  {
    CountNone(pc, Full);
    CountNone(pc, Free);
    CountNone(pc, Inside);
    forall v: Byte ensures Count(pc, Carrying(v)) == 0 {
      CountNone(pc, Carrying(v));
    }
  }

  /** What a step does to the number of processes of a kind. */
  lemma CountStep(st: State, i: nat, x: Byte, kind: Pc -> bool)
    requires i < |st.pc| && Enabled(st, i) && Sized(st.m)
    ensures var st' := Step(st, i, x);
            |st'.pc| == |st.pc|
            && Count(st'.pc, kind) == Count(st.pc, kind) + (if kind(st'.pc[i]) then 1 else 0) - (if kind(st.pc[i]) then 1 else 0)
  {
    CountOne(st.pc, kind, i, Step(st, i, x).pc[i]);
  }

  lemma TokensStep(st: State, i: nat, x: Byte)
    requires Inv(st) && i < |st.pc| && Enabled(st, i)
    ensures Tokens(Step(st, i, x))
  {
    CountStep(st, i, x, Full);
    CountStep(st, i, x, Free);
  }

  lemma ExclusiveStep(st: State, i: nat, x: Byte)
    requires Exclusive(st) && Sized(st.m) && i < |st.pc| && Enabled(st, i)
    ensures Exclusive(Step(st, i, x))
  {
    CountStep(st, i, x, Inside);
  }

  lemma CountedStep(st: State, i: nat, x: Byte)
    requires Inv(st) && i < |st.pc| && Enabled(st, i)
    ensures Counted(Step(st, i, x))
  {
    var st' := Step(st, i, x);
    forall v: Byte ensures st'.received[v] + Count(st'.pc, Carrying(v)) == multiset(st'.got)[v] {
      CountedOne(st, i, x, v);
    }
  }

  lemma CountedOne(st: State, i: nat, x: Byte, v: Byte)
    requires i < |st.pc| && Enabled(st, i) && Sized(st.m)
    requires st.received[v] + Count(st.pc, Carrying(v)) == multiset(st.got)[v]
    ensures var st' := Step(st, i, x); st'.received[v] + Count(st'.pc, Carrying(v)) == multiset(st'.got)[v]
  {
    var st' := Step(st, i, x);
    CountOne(st.pc, Carrying(v), i, st'.pc[i]);
    match st.pc[i]
    case RecvIn =>
      assert multiset(st'.got) == multiset(st.got) + multiset{Front(st.m)};
    case RecvCount(y) =>
      assert st'.got == st.got;
    case _ =>
      assert st'.got == st.got && st'.received == st.received;
  }

  /** Different values in the buffer are in different places. */
  lemma Places(j: nat, k: nat)
    requires j < k < j + CAPACITY
    ensures j % CAPACITY != k % CAPACITY
  {
    var p, r := Split(j, CAPACITY);
    var q, s := Split(k, CAPACITY);
  }

  /** Writing, as long as the write position does not wrap around. */
  lemma PutKeeps(st: State, y: Byte)
    requires Fifo(st) && |st.sent| - |st.got| < CAPACITY && |st.sent| < Words.WORD
    ensures Fifo(st.(m := Put(st.m, y), sent := st.sent + [y]))
  {
    var st' := st.(m := Put(st.m, y), sent := st.sent + [y]);
    ModUnique(|st.sent|, Words.WORD, 0, |st.sent|);
    forall k | |st'.got| <= k < |st'.sent| ensures st'.m.buf[k % CAPACITY] == st'.sent[k] {
      if k < |st.sent| {
        Places(k, |st.sent|);
        assert st.m.buf[k % CAPACITY] == st.sent[k];
      }
    }
  }

  /** Reading. */
  lemma FrontKeeps(st: State)
    requires Fifo(st) && |st.got| < |st.sent| && |st.sent| <= Words.WORD
    ensures Fifo(st.(m := st.m.(rpos := (st.m.rpos + 1) % Words.WORD), got := st.got + [Front(st.m)]))
    ensures Front(st.m) == st.sent[|st.got|]
  {
    assert st.m.buf[|st.got| % CAPACITY] == st.sent[|st.got|];
  }

  lemma FifoStep(st: State, i: nat, x: Byte)
    requires Inv(st) && i < |st.pc| && Enabled(st, i) && |Step(st, i, x).sent| <= Words.WORD
    ensures Fifo(Step(st, i, x))
  {
    match st.pc[i]
    case SendIn(y) =>
      CountOne(st.pc, Free, i, SendOut);
      PutKeeps(st, y);
    case RecvIn =>
      CountOne(st.pc, Full, i, SendIdle);
      FrontKeeps(st);
    case _ =>
  }

  lemma StepKeeps(st: State, i: nat, x: Byte)
    requires Inv(st) && i < |st.pc| && Enabled(st, i) && |Step(st, i, x).sent| <= Words.WORD
    ensures Inv(Step(st, i, x))
  {
    TokensStep(st, i, x);
    ExclusiveStep(st, i, x);
    CountedStep(st, i, x);
    FifoStep(st, i, x);
  }

  // --------------------------------------------------------- whole runs

  /** Any interleaving: the processes named in turn take a step, if they can. */
  function Play(st: State, turns: seq<(nat, Byte)>): State
    requires Sized(st.m)
    decreases |turns|
  {
    if turns == [] then st
    else
      var (i, x) := turns[0];
      if i < |st.pc| && Enabled(st, i) then Play(Step(st, i, x), turns[1..]) else Play(st, turns[1..])
  }

  lemma {:induction false} SentGrows(st: State, turns: seq<(nat, Byte)>)
    requires Sized(st.m)
    ensures |st.sent| <= |Play(st, turns).sent| && |Play(st, turns).pc| == |st.pc|
    decreases |turns|
  {
    if turns != [] {
      var (i, x) := turns[0];
      if i < |st.pc| && Enabled(st, i) { SentGrows(Step(st, i, x), turns[1..]); } else { SentGrows(st, turns[1..]); }
    }
  }

  lemma {:induction false} PlayKeeps(st: State, turns: seq<(nat, Byte)>)
    requires Inv(st) && |Play(st, turns).sent| <= Words.WORD
    ensures Inv(Play(st, turns))
    decreases |turns|
  {
    if turns != [] {
      var (i, x) := turns[0];
      if i < |st.pc| && Enabled(st, i) {
        SentGrows(Step(st, i, x), turns[1..]);
        StepKeeps(st, i, x);
        PlayKeeps(Step(st, i, x), turns[1..]);
      } else {
        PlayKeeps(st, turns[1..]);
      }
    }
  }

  /** In every reachable state with at most 2^32 writes: at most a hundred values wait, the k-th
      value read is the k-th written, and what receivers counted or still hold is what was read. */
  lemma Safety(buf: seq<Byte>, pc: seq<Pc>, turns: seq<(nat, Byte)>)
    requires |buf| == CAPACITY && forall i :: 0 <= i < |pc| ==> Idle(pc[i])
    requires |Play(Initial(buf, pc), turns).sent| <= Words.WORD
    ensures var st := Play(Initial(buf, pc), turns);
            && 0 <= |st.sent| - |st.got| <= CAPACITY
            && st.got <= st.sent
            && forall v: Byte {:trigger Carrying(v)} :: st.received[v] + Count(st.pc, Carrying(v)) == multiset(st.got)[v]
  {
    InitialOk(buf, pc);
    PlayKeeps(Initial(buf, pc), turns);
  }

  /** Conservation: the semaphores and the tokens held by operations in progress make a hundred,
      and no two processes are in their critical sections.  This holds beyond 2^32 writes too. */
  ghost predicate Balance(st: State) {
    st.wsem + st.rsem + Count(st.pc, Free) + Count(st.pc, Full) == CAPACITY && st.mutex + Count(st.pc, Inside) == 1
  }

  lemma BalanceStep(st: State, i: nat, x: Byte)
    requires Balance(st) && Sized(st.m) && i < |st.pc| && Enabled(st, i)
    ensures Balance(Step(st, i, x))
  {
    CountStep(st, i, x, Full);
    CountStep(st, i, x, Free);
    ExclusiveStep(st, i, x);
  }

  lemma {:induction false} BalanceKept(st: State, turns: seq<(nat, Byte)>)
    requires Balance(st) && Sized(st.m)
    ensures Balance(Play(st, turns))
    decreases |turns|
  {
    if turns != [] {
      var (i, x) := turns[0];
      if i < |st.pc| && Enabled(st, i) {
        BalanceStep(st, i, x);
        BalanceKept(Step(st, i, x), turns[1..]);
      } else {
        BalanceKept(st, turns[1..]);
      }
    }
  }

  /** With a sender and a receiver, some process can always take a step. */
  lemma NoDeadlock(st: State, p: nat, c: nat) returns (i: nat)
    requires Balance(st) && p < |st.pc| && c < |st.pc|
    requires Sender(st.pc[p]) && !Sender(st.pc[c])
    ensures i < |st.pc| && Enabled(st, i)
  {
    if i0 :| 0 <= i0 < |st.pc| && Enabled(st, i0) {
      i := i0;
    } else {
      forall j | 0 <= j < |st.pc| ensures !Inside(st.pc[j]) {
        assert !Enabled(st, j);
      }
      CountNone(st.pc, Inside);
      forall j | 0 <= j < |st.pc| ensures !Free(st.pc[j]) && !Full(st.pc[j]) {
        assert !Enabled(st, j);
      }
      CountNone(st.pc, Free);
      CountNone(st.pc, Full);
      i := if st.wsem > 0 then p else c;
    }
  }

  predicate Sender(pc: Pc) {
    pc.SendIdle? || pc.SendToken? || pc.SendIn? || pc.SendOut? || pc.SendSignal?
  }

  /** When all processes are idle the buffer's tokens are all in the semaphores; if all that was
      written has been read, they are as at the start, and every value was counted once. */
  lemma Quiescent(st: State)
    requires Inv(st) && (forall i :: 0 <= i < |st.pc| ==> Idle(st.pc[i]))
    ensures st.mutex == 1 && st.rsem == |st.sent| - |st.got| && st.wsem == CAPACITY - st.rsem
    ensures st.received == multiset(st.got)
    ensures st.rsem == 0 ==> st.received == multiset(st.sent)
  {
    CountNone(st.pc, Full);
    CountNone(st.pc, Free);
    CountNone(st.pc, Inside);
    forall v: Byte ensures st.received[v] == multiset(st.got)[v] {
      CountNone(st.pc, Carrying(v));
    }
    assert st.rsem == 0 ==> st.got == st.sent;
  }

  // ----------------------------------------------- what is sent is written

  /** The sends begun in a run, with who began them and the value given. */
  function Begun(st: State, turns: seq<(nat, Byte)>): seq<(nat, Byte)>
    requires Sized(st.m)
    decreases |turns|
  {
    if turns == [] then []
    else
      var (i, x) := turns[0];
      if i < |st.pc| && Enabled(st, i) then
        (if st.pc[i].SendIdle? then [(i, x)] else []) + Begun(Step(st, i, x), turns[1..])
      else Begun(st, turns[1..])
  }

  /** The values that came to `sent` in a run, with who wrote them. */
  function Written(st: State, turns: seq<(nat, Byte)>): seq<(nat, Byte)>
    requires Sized(st.m)
    decreases |turns|
  {
    if turns == [] then []
    else
      var (i, x) := turns[0];
      if i < |st.pc| && Enabled(st, i) then News(st, i, x) + Written(Step(st, i, x), turns[1..])
      else Written(st, turns[1..])
  }

  function News(st: State, i: nat, x: Byte): seq<(nat, Byte)>
    requires i < |st.pc| && Enabled(st, i) && Sized(st.m)
  {
    var st' := Step(st, i, x);
    if |st'.sent| > |st.sent| then [(i, st'.sent[|st.sent|])] else []
  }

  function Values(ws: seq<(nat, Byte)>): seq<Byte> {
    seq(|ws|, k requires 0 <= k < |ws| => ws[k].1)
  }

  /** The values of process j alone, in order. */
  function Of(ws: seq<(nat, Byte)>, j: nat): seq<Byte> {
    if ws == [] then [] else (if ws[0].0 == j then [ws[0].1] else []) + Of(ws[1..], j)
  }

  lemma {:induction false} OfBoth(a: seq<(nat, Byte)>, b: seq<(nat, Byte)>, j: nat)
    ensures Of(a + b, j) == Of(a, j) + Of(b, j)
  {
    if a == [] {
      assert a + b == b;
    } else {
      assert (a + b)[1..] == a[1..] + b && (a + b)[0] == a[0];
      OfBoth(a[1..], b, j);
      Assoc(if a[0].0 == j then [a[0].1] else [], Of(a[1..], j), Of(b, j));
    }
  }

  lemma Assoc(a: seq<Byte>, b: seq<Byte>, c: seq<Byte>)
    ensures a + (b + c) == (a + b) + c
  {
  }

  lemma ValuesBoth(a: seq<(nat, Byte)>, b: seq<(nat, Byte)>)
    ensures Values(a + b) == Values(a) + Values(b)
  {
  }

  /** The value a process was given and has yet to write. */
  function Pending(pc: Pc): seq<Byte> {
    match pc
    case SendToken(x) => [x]
    case SendIn(x) => [x]
    case _ => []
  }

  /** One step gives process j a value, or writes the one it has, or neither. */
  lemma PendingStep(st: State, i: nat, x: Byte, j: nat)
    requires i < |st.pc| && j < |st.pc| && Enabled(st, i) && Sized(st.m)
    ensures var st' := Step(st, i, x);
            var given := if st.pc[i].SendIdle? then [(i, x)] else [];
            && st.sent <= st'.sent && |st'.pc| == |st.pc|
            && Pending(st.pc[j]) + Of(given, j) == Of(News(st, i, x), j) + Pending(st'.pc[j])
  {
    var st' := Step(st, i, x);
    match st.pc[i]
    case SendIn(y) =>
      assert News(st, i, x) == [(i, y)];
    case _ =>
      assert News(st, i, x) == [];
  }

  /** In every run each process writes the values it was given, in the order it was given them; at
      most the last one is still to be written. */
  lemma {:induction false} WritesGiven(st: State, turns: seq<(nat, Byte)>, j: nat)
    requires Sized(st.m) && j < |st.pc|
    ensures |Play(st, turns).pc| == |st.pc|
    ensures Pending(st.pc[j]) + Of(Begun(st, turns), j) == Of(Written(st, turns), j) + Pending(Play(st, turns).pc[j])
    decreases |turns|
  {
    if turns != [] {
      var (i, x) := turns[0];
      if i < |st.pc| && Enabled(st, i) {
        var st' := Step(st, i, x);
        var given := if st.pc[i].SendIdle? then [(i, x)] else [];
        WritesGiven(st', turns[1..], j);
        PendingStep(st, i, x, j);
        OfBoth(given, Begun(st', turns[1..]), j);
        OfBoth(News(st, i, x), Written(st', turns[1..]), j);
        Joined(Pending(st.pc[j]), Of(given, j), Of(Begun(st', turns[1..]), j), Of(News(st, i, x), j), Pending(st'.pc[j]),
               Of(Written(st', turns[1..]), j), Pending(Play(st, turns).pc[j]));
      } else {
        WritesGiven(st, turns[1..], j);
      }
    }
  }

  lemma Joined(a: seq<Byte>, g: seq<Byte>, b: seq<Byte>, n: seq<Byte>, p: seq<Byte>, w: seq<Byte>, q: seq<Byte>)
    requires a + g == n + p && p + b == w + q
    ensures a + (g + b) == (n + w) + q
  {
    assert a + (g + b) == (a + g) + b;
    assert (n + p) + b == n + (p + b);
    assert n + (w + q) == (n + w) + q;
  }

  /** And what came to `sent` is exactly that. */
  lemma {:induction false} SentIsWritten(st: State, turns: seq<(nat, Byte)>)
    requires Sized(st.m)
    ensures Play(st, turns).sent == st.sent + Values(Written(st, turns))
    decreases |turns|
  {
    if turns == [] {
      assert st.sent + Values([]) == st.sent;
    } else {
      var (i, x) := turns[0];
      if i < |st.pc| && Enabled(st, i) {
        var st' := Step(st, i, x);
        NewsSent(st, i, x);
        SentIsWritten(st', turns[1..]);
        ValuesBoth(News(st, i, x), Written(st', turns[1..]));
        Assoc(st.sent, Values(News(st, i, x)), Values(Written(st', turns[1..])));
      } else {
        SentIsWritten(st, turns[1..]);
      }
    }
  }

  lemma NewsSent(st: State, i: nat, x: Byte)
    requires i < |st.pc| && Enabled(st, i) && Sized(st.m)
    ensures Step(st, i, x).sent == st.sent + Values(News(st, i, x))
  {
    PendingStep(st, i, x, i);
    assert Values([]) == [];
  }

  /** A sender was given v and has not yet written it. */
  function Owing(v: Byte): Pc -> bool {
    (p: Pc) => p == SendToken(v) || p == SendIn(v)
  }

  /** 1 if the step gives a process the value v to send */
  function Gives(st: State, i: nat, x: Byte, v: Byte): nat
    requires i < |st.pc|
  {
    if st.pc[i].SendIdle? && x == v then 1 else 0
  }

  lemma OwingStep(st: State, i: nat, x: Byte, v: Byte)
    requires i < |st.pc| && Enabled(st, i) && Sized(st.m)
    ensures var st' := Step(st, i, x);
            Count(st.pc, Owing(v)) + Gives(st, i, x, v) + multiset(st.sent)[v] == multiset(st'.sent)[v] + Count(st'.pc, Owing(v))
  {
    var st' := Step(st, i, x);
    CountOne(st.pc, Owing(v), i, st'.pc[i]);
    match st.pc[i]
    case SendIn(y) => assert multiset(st'.sent) == multiset(st.sent) + multiset{y};
    case _ => assert st'.sent == st.sent;
  }

  /** Nothing is written but what was given to buf_send, and nothing given is lost: together with
      what is yet to be written the values sent are those of the sends begun. */
  lemma {:induction false} AllSent(st: State, turns: seq<(nat, Byte)>, v: Byte)
    requires Sized(st.m)
    ensures Count(st.pc, Owing(v)) + multiset(st.sent)[v] + multiset(Values(Begun(st, turns)))[v]
            == multiset(Play(st, turns).sent)[v] + Count(Play(st, turns).pc, Owing(v))
    decreases |turns|
  {
    if turns == [] {
      assert Values([]) == [];
    } else {
      var (i, x) := turns[0];
      if i < |st.pc| && Enabled(st, i) {
        OwingStep(st, i, x, v);
        AllSent(Step(st, i, x), turns[1..], v);
        BegunOne(st, i, x, Begun(Step(st, i, x), turns[1..]), v);
      } else {
        AllSent(st, turns[1..], v);
      }
    }
  }

  lemma BegunOne(st: State, i: nat, x: Byte, b: seq<(nat, Byte)>, v: Byte)
    requires i < |st.pc|
    ensures multiset(Values((if st.pc[i].SendIdle? then [(i, x)] else []) + b))[v] == Gives(st, i, x, v) + multiset(Values(b))[v]
  {
    if st.pc[i].SendIdle? { assert Values([(i, x)] + b) == [x] + Values(b); } else { assert [] + b == b; }
  }

  /** From the start: each value has been written as often as it was given to buf_send, but for those
      still on the way; and each process's values in the order it was given them. */
  lemma SentAsGiven(buf: seq<Byte>, pc: seq<Pc>, turns: seq<(nat, Byte)>, v: Byte, j: nat)
    requires |buf| == CAPACITY && forall i :: 0 <= i < |pc| ==> Idle(pc[i])
    requires j < |pc|
    ensures var st0 := Initial(buf, pc);
            var st := Play(st0, turns);
            && multiset(st.sent)[v] + Count(st.pc, Owing(v)) == multiset(Values(Begun(st0, turns)))[v]
            && st.sent == Values(Written(st0, turns)) && |st.pc| == |pc|
            && Of(Begun(st0, turns), j) == Of(Written(st0, turns), j) + Pending(st.pc[j])
  {
    var st0 := Initial(buf, pc);
    CountNone(pc, Owing(v));
    AllSent(st0, turns, v);
    SentIsWritten(st0, turns);
    assert [] + Values(Written(st0, turns)) == Values(Written(st0, turns));
    WritesGiven(st0, turns, j);
    assert Pending(pc[j]) == [];
    assert [] + Of(Begun(st0, turns), j) == Of(Begun(st0, turns), j);
  }

  // ---------------------------------------------------- past the wrap

  lemma {:induction false} PlayBoth(st: State, a: seq<(nat, Byte)>, b: seq<(nat, Byte)>)
    requires Sized(st.m)
    ensures Sized(Play(st, a).m) && Play(st, a + b) == Play(Play(st, a), b)
    decreases |a|
  {
    if a == [] {
      assert a + b == b;
    } else {
      var (i, x) := a[0];
      assert (a + b)[0] == a[0] && (a + b)[1..] == a[1..] + b;
      if i < |st.pc| && Enabled(st, i) { PlayBoth(Step(st, i, x), a[1..], b); } else { PlayBoth(st, a[1..], b); }
    }
  }

  /** One sender and one receiver, both idle. */
  ghost predicate Pair(st: State) {
    st.pc == [SendIdle, RecvIdle] && st.mutex == 1 && Sized(st.m)
  }

  lemma OneTurn(st: State, i: nat, x: Byte, turns: seq<(nat, Byte)>)
    requires Sized(st.m) && i < |st.pc| && Enabled(st, i)
    ensures Play(st, [(i, x)] + turns) == Play(Step(st, i, x), turns)
  {
    assert ([(i, x)] + turns)[1..] == turns;
  }

  function Turns(i: nat, x: Byte, k: nat): seq<(nat, Byte)> {
    if k == 0 then [] else [(i, x)] + Turns(i, x, k - 1)
  }

  lemma SendOnce(st: State, x: Byte)
    requires Pair(st) && st.wsem > 0
    ensures Play(st, Turns(0, x, 5)) == st.(m := Put(st.m, x), wsem := st.wsem - 1, rsem := st.rsem + 1, sent := st.sent + [x])
  {
    var s1 := Step(st, 0, x);
    var s2 := Step(s1, 0, x);
    OneTurn(st, 0, x, Turns(0, x, 4));
    OneTurn(s1, 0, x, Turns(0, x, 3));
    assert s2 == st.(wsem := st.wsem - 1, mutex := 0, pc := [SendIn(x), RecvIdle]);
    SendRest(st, s2, x);
  }

  lemma SendRest(st: State, s2: State, x: Byte)
    requires Pair(st) && st.wsem > 0 && s2 == st.(wsem := st.wsem - 1, mutex := 0, pc := [SendIn(x), RecvIdle])
    ensures Play(s2, Turns(0, x, 3)) == st.(m := Put(st.m, x), wsem := st.wsem - 1, rsem := st.rsem + 1, sent := st.sent + [x])
  {
    var s3 := Step(s2, 0, x);
    var s4 := Step(s3, 0, x);
    OneTurn(s2, 0, x, Turns(0, x, 2));
    OneTurn(s3, 0, x, Turns(0, x, 1));
    OneTurn(s4, 0, x, Turns(0, x, 0));
  }

  lemma ReceiveOnce(st: State, x: Byte)
    requires Pair(st) && st.rsem > 0
    ensures var y := Front(st.m);
            Play(st, Turns(1, x, 6)) == st.(m := st.m.(rpos := (st.m.rpos + 1) % Words.WORD), wsem := st.wsem + 1, rsem := st.rsem - 1,
                                            received := st.received + multiset{y}, got := st.got + [y])
  {
    var s1 := Step(st, 1, x);
    var s2 := Step(s1, 1, x);
    var s3 := Step(s2, 1, x);
    var s4 := Step(s3, 1, x);
    var s5 := Step(s4, 1, x);
    OneTurn(st, 1, x, Turns(1, x, 5));
    OneTurn(s1, 1, x, Turns(1, x, 4));
    OneTurn(s2, 1, x, Turns(1, x, 3));
    OneTurn(s3, 1, x, Turns(1, x, 2));
    OneTurn(s4, 1, x, Turns(1, x, 1));
    OneTurn(s5, 1, x, Turns(1, x, 0));
  }

  /** From st, k values have been sent, the first of them x, and none received. */
  ghost predicate Filled(st: State, st': State, x: Byte, k: nat) {
    && Pair(st') && st'.wsem == st.wsem - k && st'.rsem == st.rsem + k && st'.m.rpos == st.m.rpos && st'.got == st.got
    && st'.m.wpos == (st.m.wpos + k) % Words.WORD && st.sent <= st'.sent && |st'.sent| == |st.sent| + k
    && (k > 0 ==> st'.sent[|st.sent|] == x)
  }

  lemma FilledMore(st: State, s: State, x: Byte, k: nat)
    requires Filled(st, s, x, k) && s.wsem > 0
    ensures Filled(st, s.(m := Put(s.m, x), wsem := s.wsem - 1, rsem := s.rsem + 1, sent := s.sent + [x]), x, k + 1)
  {
    Wrap(st.m.wpos, k);
  }

  lemma Wrap(w: nat, k: nat)
    ensures ((w + k) % Words.WORD + 1) % Words.WORD == (w + k + 1) % Words.WORD
  {
  }

  /** k values are sent, one after the other. */
  lemma {:induction false} SendMany(st: State, x: Byte, k: nat) returns (turns: seq<(nat, Byte)>)
    requires Pair(st) && st.wsem >= k && st.m.wpos < Words.WORD
    ensures Filled(st, Play(st, turns), x, k)
  {
    if k == 0 {
      turns := [];
    } else {
      var rest := SendMany(st, x, k - 1);
      PlayBoth(st, rest, Turns(0, x, 5));
      SendOnce(Play(st, rest), x);
      FilledMore(st, Play(st, rest), x, k - 1);
      turns := rest + Turns(0, x, 5);
    }
  }

  /** n values have been sent and as many received. */
  ghost predicate Level(st: State, n: nat) {
    Pair(st) && st.wsem == CAPACITY && st.rsem == 0 && |st.sent| == |st.got| == n && st.m.wpos == st.m.rpos == n % Words.WORD
  }

  lemma LevelMore(s: State, x: Byte, n: nat) returns (turns: seq<(nat, Byte)>)
    requires Level(s, n)
    ensures Level(Play(s, turns), n + 1)
  {
    SendOnce(s, x);
    ReceiveOnce(Play(s, Turns(0, x, 5)), x);
    turns := Turns(0, x, 5) + Turns(1, x, 6);
    PlayBoth(s, Turns(0, x, 5), Turns(1, x, 6));
    Wrap(0, n);
  }

  /** n values are sent and received, one at a time. */
  lemma {:induction false} Pump(st: State, x: Byte, n: nat) returns (turns: seq<(nat, Byte)>)
    requires Level(st, 0)
    ensures Level(Play(st, turns), n)
  {
    if n == 0 {
      turns := [];
    } else {
      var rest := Pump(st, x, n - 1);
      var more := LevelMore(Play(st, rest), x, n - 1);
      PlayBoth(st, rest, more);
      turns := rest + more;
    }
  }

  /** Where the next write and the next read go: both to the first place. */
  lemma Meeting(s1: State, s2: State)
    requires Level(s1, Words.WORD - 96) && Filled(s1, s2, 1, 96)
    ensures s2.m.wpos == 0 && s2.m.rpos % CAPACITY == 0 && s2.wsem == 4 && s2.rsem == 96
    ensures |s2.sent| == Words.WORD && s2.sent[Words.WORD - 96] == 1 && |s2.got| == Words.WORD - 96
  {
  }

  lemma Overwritten(s2: State) returns (turns: seq<(nat, Byte)>)
    requires Pair(s2) && s2.m.wpos == 0 && s2.m.rpos % CAPACITY == 0 && s2.wsem > 0
    ensures var st := Play(s2, turns); |st.sent| == |s2.sent| + 1 && s2.sent <= st.sent && st.got == s2.got + [2]
  {
    SendOnce(s2, 2);
    var s3 := Play(s2, Turns(0, 2, 5));
    ReceiveOnce(s3, 0);
    turns := Turns(0, 2, 5) + Turns(1, 0, 6);
    PlayBoth(s2, Turns(0, 2, 5), Turns(1, 0, 6));
  }

  /** One more value sent than fits before the wrap-around, and one received. */
  lemma Clash(s1: State, s2: State) returns (turns: seq<(nat, Byte)>)
    requires Level(s1, Words.WORD - 96) && Filled(s1, s2, 1, 96)
    ensures var st := Play(s2, turns); |st.sent| == Words.WORD + 1 && |st.got| <= |st.sent| && !(st.got <= st.sent)
  {
    Meeting(s1, s2);
    turns := Overwritten(s2);
    var st := Play(s2, turns);
    assert st.got[Words.WORD - 96] == 2 && st.sent[Words.WORD - 96] == 1;
  }

  /** The bound of 2^32 writes cannot be dropped: 2^32 is not a multiple of 100, so value number 2^32
      goes to the place of number 2^32 - 96, and a run with one more write reads a wrong value. */
  lemma WrapBreaks(buf: seq<Byte>) returns (turns: seq<(nat, Byte)>)
    requires |buf| == CAPACITY
    ensures var st := Play(Initial(buf, [SendIdle, RecvIdle]), turns);
            |st.sent| == Words.WORD + 1 && |st.got| <= |st.sent| && !(st.got <= st.sent)
  {
    var s0 := Initial(buf, [SendIdle, RecvIdle]);
    var t1 := Pump(s0, 0, Words.WORD - 96);
    var s1 := Play(s0, t1);
    var t2 := SendMany(s1, 1, 96);
    var t3 := Clash(s1, Play(s1, t2));
    turns := t1 + (t2 + t3);
    PlayBoth(s0, t1, t2 + t3);
    PlayBoth(s1, t2, t3);
  }

  // ------------------------------------------------------------ in place

  /** The shared memory of test17. */
  class SharedBuffer {
    var buf: array<Byte>
    var wpos: nat
    var rpos: nat

    ghost predicate Valid()
      reads this
    {
      buf.Length == CAPACITY && wpos < Words.WORD && rpos < Words.WORD
    }

    ghost function View(): (m: Shared)
      reads this, buf
      requires Valid()
      ensures Sized(m)
    {
      Shared(buf[..], wpos, rpos)
    }

    /** The statement of buf_send inside its critical section. */
    method Write(x: Byte)
      requires Valid()
      modifies this`wpos, buf
      ensures Valid() && View() == Put(old(View()), x)
    {
      buf[wpos % buf.Length] := x;
      wpos := (wpos + 1) % Words.WORD;
    }

    /** The statement of buf_receive inside its critical section. */
    method Read() returns (x: Byte)
      requires Valid()
      modifies this`rpos
      ensures Valid() && x == Front(old(View())) && View() == old(View()).(rpos := (old(rpos) + 1) % Words.WORD)
    {
      x := buf[rpos % buf.Length];
      rpos := (rpos + 1) % Words.WORD;
    }
  }
}
