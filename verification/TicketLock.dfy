/**
 The ticket spinlock of kernel/src/cpu/spinlock.c as a state machine: any number of
 CPUs, each between two of its atomic steps, in any interleaving.
 */
module TicketLock {
  import opened Words
  import opened Counting

  /**
   Where a CPU is. Tickets are numbered without bound; the word the CPU holds is the
   number modulo 2^32. `Loaded` and `Matched` are inside spin_try_acquire, after its
   first and second load.
   */
  datatype Cpu = Idle | Waiting(ticket: nat) | Holding(ticket: nat) | Loaded(ticket: nat) | Matched(ticket: nat)

  /**
   The two words of the lock; how often each has been incremented; the CPUs; and, for
   the proofs, who has the tickets from `served` on, and the tickets in order of entry.
   */
  datatype State = State(front: u32, back: u32, served: nat, drawn: nat, cpus: seq<Cpu>, queue: seq<int>, entered: seq<nat>)

  datatype Action = FetchAdd | PollFront | Release | LoadBack | LoadFront | CompareExchange

  function Start(n: nat): State {
    State(0, 0, 0, 0, seq(n, _ => Idle), [], [])
  }

  /** One atomic step of CPU `i`; a step the CPU is not at changes nothing. */
  function Step(s: State, i: nat, a: Action): (s': State)
    requires i < |s.cpus|
    ensures |s'.cpus| == |s.cpus|
  {
    match (s.cpus[i], a)
    case (Idle, FetchAdd) =>
      s.(back := Add32(s.back, 1), drawn := s.drawn + 1, cpus := s.cpus[i := Waiting(s.drawn)], queue := s.queue + [i])
    case (Waiting(t), PollFront) =>
      if s.front == Wrap32(t) then s.(cpus := s.cpus[i := Holding(t)], entered := s.entered + [t]) else s
    case (Holding(t), Release) =>
      s.(front := Add32(s.front, 1), served := s.served + 1, cpus := s.cpus[i := Idle],
         queue := if s.queue == [] then [] else s.queue[1..])
    case (Idle, LoadBack) => s.(cpus := s.cpus[i := Loaded(s.drawn)])
    case (Loaded(t), LoadFront) => s.(cpus := s.cpus[i := if s.front == Wrap32(t) then Matched(t) else Idle])
    case (Matched(t), CompareExchange) =>
      if s.back == Wrap32(t) then
        s.(back := Add32(s.back, 1), drawn := s.drawn + 1, cpus := s.cpus[i := Holding(s.drawn)],
           queue := s.queue + [i], entered := s.entered + [s.drawn])
      else s.(cpus := s.cpus[i := Idle])
    case _ => s
  }

  // ------------------------------------------------------------- the invariant

  ghost predicate HasTicket(c: Cpu) {
    c.Waiting? || c.Holding?
  }

  /** The words count modulo 2^32. */
  ghost predicate Counters(s: State) {
    s.front == Wrap32(s.served) && s.back == Wrap32(s.drawn) && |s.queue| == s.drawn - s.served
  }

  /** The tickets in [served, drawn) are exactly the outstanding ones, each with one CPU. */
  ghost predicate Outstanding(s: State) {
    && (forall k :: 0 <= k < |s.queue| ==>
          0 <= s.queue[k] < |s.cpus| && HasTicket(s.cpus[s.queue[k]]) && s.cpus[s.queue[k]].ticket == s.served + k)
    && (forall i :: 0 <= i < |s.cpus| && HasTicket(s.cpus[i]) ==>
          0 <= s.cpus[i].ticket - s.served < |s.queue| && s.queue[s.cpus[i].ticket - s.served] == i)
  }

  /** Only the first ticket holds the lock, and a CPU in the middle of a try has seen an old value. */
  ghost predicate Positions(s: State) {
    forall i :: 0 <= i < |s.cpus| ==>
      && (s.cpus[i].Holding? ==> s.cpus[i].ticket == s.served)
      && (s.cpus[i].Loaded? ==> s.cpus[i].ticket <= s.drawn)
      && (s.cpus[i].Matched? ==> s.cpus[i].ticket <= s.served)
  }

  ghost predicate Held(s: State) {
    s.queue != [] && 0 <= s.queue[0] < |s.cpus| && s.cpus[s.queue[0]].Holding?
  }

  /** The tickets have entered in order, without a gap. */
  ghost predicate InOrder(s: State) {
    && |s.entered| == s.served + (if Held(s) then 1 else 0)
    && forall j :: 0 <= j < |s.entered| ==> s.entered[j] == j
  }

  ghost predicate Inv(s: State) {
    Counters(s) && Outstanding(s) && Positions(s) && InOrder(s)
  }

  /** Fewer CPUs than tickets, and no try spans 2^32 acquisitions. */
  ghost predicate Calm(s: State) {
    |s.cpus| < U32_LIMIT && forall i :: 0 <= i < |s.cpus| && (s.cpus[i].Loaded? || s.cpus[i].Matched?) ==>
      s.drawn - s.cpus[i].ticket < U32_LIMIT
  }

  lemma {:induction false} WrapInjective(x: nat, y: nat)
    requires x <= y < x + U32_LIMIT && Wrap32(x) == Wrap32(y)
    ensures x == y
  {
    if x >= U32_LIMIT {
      WrapInjective(x - U32_LIMIT, y - U32_LIMIT);
    }
  }

  lemma {:induction false} WrapNext(n: nat)
    ensures Wrap32(n + 1) == Add32(Wrap32(n), 1)
  {
    if n >= U32_LIMIT {
      WrapNext(n - U32_LIMIT);
    }
  }

  /** No more tickets are outstanding than there are CPUs. */
  lemma {:induction false} FewOutstanding(s: State)
    requires Inv(s)
    ensures s.drawn - s.served <= |s.cpus|
  {
    AtMost(s.queue, |s.cpus|);
  }

  // ------------------------------------------------------------------ the steps

  lemma {:induction false} FetchAddKeeps(s: State, i: nat)
    requires Inv(s) && i < |s.cpus| && s.cpus[i].Idle?
    ensures Whole(Inv(Step(s, i, FetchAdd)))
  {
    WrapNext(s.drawn);
  }

  /** A waiting CPU sees its own word exactly when its ticket is the next to be served. */
  lemma {:induction false} PollSees(s: State, i: nat)
    requires Inv(s) && Calm(s) && i < |s.cpus| && s.cpus[i].Waiting?
    ensures s.front == Wrap32(s.cpus[i].ticket) <==> s.cpus[i].ticket == s.served
  {
    FewOutstanding(s);
    if s.front == Wrap32(s.cpus[i].ticket) {
      WrapInjective(s.served, s.cpus[i].ticket);
    }
  }

  lemma {:induction false} PollKeeps(s: State, i: nat)
    requires Inv(s) && Calm(s) && i < |s.cpus| && s.cpus[i].Waiting?
    ensures Whole(Inv(Step(s, i, PollFront)))
    ensures Step(s, i, PollFront).cpus[i].Holding? <==> s.cpus[i].ticket == s.served
  {
    PollSees(s, i);
  }

  lemma {:induction false} ReleaseKeeps(s: State, i: nat)
    requires Inv(s) && i < |s.cpus| && s.cpus[i].Holding?
    ensures Inv(Step(s, i, Release))
  {
    WrapNext(s.served);
    var s' := Step(s, i, Release);
    assert s.queue[0] == i;
    assert forall k :: 0 <= k < |s'.queue| ==> s'.queue[k] == s.queue[k + 1];
  }

  /** A try that has read the back word finds the front word equal only if nobody has been served since. */
  lemma {:induction false} LoadFrontSees(s: State, i: nat)
    requires Inv(s) && Calm(s) && i < |s.cpus| && s.cpus[i].Loaded? && s.front == Wrap32(s.cpus[i].ticket)
    ensures s.cpus[i].ticket == s.served
  {
    FewOutstanding(s);
    var t := s.cpus[i].ticket;
    if t <= s.served {
      WrapInjective(t, s.served);
    } else {
      WrapInjective(s.served, t);
    }
  }

  lemma {:induction false} LoadFrontKeeps(s: State, i: nat)
    requires Inv(s) && Calm(s) && i < |s.cpus| && s.cpus[i].Loaded?
    ensures Whole(Inv(Step(s, i, LoadFront)))
    ensures Step(s, i, LoadFront).cpus[i].Matched? ==> s.cpus[i].ticket == s.served
  {
    if s.front == Wrap32(s.cpus[i].ticket) {
      LoadFrontSees(s, i);
    }
  }

  /** A successful exchange finds the lock free. */
  lemma {:induction false} CompareExchangeKeeps(s: State, i: nat)
    requires Inv(s) && Calm(s) && i < |s.cpus| && s.cpus[i].Matched?
    ensures Whole(Inv(Step(s, i, CompareExchange)))
    ensures Step(s, i, CompareExchange).cpus[i].Holding? ==> s.served == s.drawn == s.cpus[i].ticket
  {
    if s.back == Wrap32(s.cpus[i].ticket) {
      WrapInjective(s.cpus[i].ticket, s.drawn);
      WrapNext(s.drawn);
    }
  }

  lemma {:induction false} LoadBackKeeps(s: State, i: nat)
    requires Inv(s) && i < |s.cpus| && s.cpus[i].Idle?
    ensures Whole(Inv(Step(s, i, LoadBack)))
  {
  }

  lemma {:induction false} StepKeeps(s: State, i: nat, a: Action)
    requires Inv(s) && Calm(s) && i < |s.cpus|
    ensures Whole(Inv(Step(s, i, a)))
  {
    match (s.cpus[i], a)
    case (Idle, FetchAdd) => FetchAddKeeps(s, i);
    case (Waiting(_), PollFront) => PollKeeps(s, i);
    case (Holding(_), Release) => ReleaseKeeps(s, i);
    case (Idle, LoadBack) => LoadBackKeeps(s, i);
    case (Loaded(_), LoadFront) => LoadFrontKeeps(s, i);
    case (Matched(_), CompareExchange) => CompareExchangeKeeps(s, i);
    case _ =>
  }

  // ----------------------------------------------------------------- whole runs

  /** Steps of these CPUs, in some order. */
  ghost predicate Steps(n: nat, steps: seq<(nat, Action)>) {
    forall k :: 0 <= k < |steps| ==> steps[k].0 < n
  }

  ghost function Run(s: State, steps: seq<(nat, Action)>): State
    requires Steps(|s.cpus|, steps)
    decreases |steps|
  {
    if steps == [] then s else Run(Step(s, steps[0].0, steps[0].1), steps[1..])
  }

  ghost predicate CalmRun(s: State, steps: seq<(nat, Action)>)
    decreases |steps|
  {
    && Steps(|s.cpus|, steps)
    && (steps != [] ==> Calm(s) && CalmRun(Step(s, steps[0].0, steps[0].1), steps[1..]))
  }

  lemma {:induction false} RunKeeps(s: State, steps: seq<(nat, Action)>)
    requires Inv(s) && CalmRun(s, steps)
    ensures Inv(Run(s, steps))
    decreases |steps|
  {
    if steps != [] {
      StepKeeps(s, steps[0].0, steps[0].1);
      RunKeeps(Step(s, steps[0].0, steps[0].1), steps[1..]);
    }
  }

  /** In every run of any number of CPUs, at most one holds the lock. */
  lemma {:induction false} MutualExclusion(n: nat, steps: seq<(nat, Action)>, i: nat, j: nat)
    requires CalmRun(Start(n), steps)
    requires var s := Run(Start(n), steps); i < |s.cpus| && j < |s.cpus| && s.cpus[i].Holding? && s.cpus[j].Holding?
    ensures i == j
  {
    RunKeeps(Start(n), steps);
  }

  /** In every run the CPUs enter in the order in which they drew their tickets. */
  lemma {:induction false} FirstComeFirstServed(n: nat, steps: seq<(nat, Action)>, j: nat)
    requires CalmRun(Start(n), steps) && j < |Run(Start(n), steps).entered|
    ensures Run(Start(n), steps).entered[j] == j
  {
    RunKeeps(Start(n), steps);
  }

  /** While a ticket is out, some CPU holds the lock or enters with its next poll. */
  lemma {:induction false} NeverStuck(s: State) returns (i: nat)
    requires Inv(s) && Calm(s) && s.served < s.drawn
    ensures i < |s.cpus| && (s.cpus[i].Holding? || (s.cpus[i].Waiting? && Step(s, i, PollFront).cpus[i].Holding?))
  {
    i := s.queue[0];
    if s.cpus[i].Waiting? {
      PollKeeps(s, i);
    }
  }

  /** The exchange is sound exactly when it fails or finds no ticket outstanding. */
  lemma {:induction false} ExchangeExactly(s: State, i: nat)
    requires Inv(s) && i < |s.cpus| && s.cpus[i].Matched?
    ensures Inv(Step(s, i, CompareExchange)) <==> (s.back == Wrap32(s.cpus[i].ticket) ==> s.served == s.drawn)
  {
    var s' := Step(s, i, CompareExchange);
    if s.back == Wrap32(s.cpus[i].ticket) {
      WrapNext(s.drawn);
      if s.served != s.drawn {
        assert s'.cpus[i] == Holding(s.drawn);
        assert !Positions(s');
      }
    }
  }

  // ---------------------------------------------------------- a run that is not calm

  lemma {:induction false} RunConcat(s: State, a: seq<(nat, Action)>, b: seq<(nat, Action)>)
    requires Steps(|s.cpus|, a) && Steps(|s.cpus|, b)
    ensures Steps(|s.cpus|, a + b) && |Run(s, a).cpus| == |s.cpus| && Run(s, a + b) == Run(Run(s, a), b)
    decreases |a|
  {
    if a == [] {
      assert a + b == b;
    } else {
      assert (a + b)[1..] == a[1..] + b;
      RunConcat(Step(s, a[0].0, a[0].1), a[1..], b);
    }
  }

  /** CPU 0 in the middle of a try that began with ticket 0, after `k` acquisitions of CPU 1. */
  ghost function Asleep(k: nat): State {
    State(Wrap32(k), Wrap32(k), k, k, [Matched(0), Idle], [], seq(k, j => j))
  }

  /** CPU 1 takes the lock. */
  lemma {:induction false} Acquires(k: nat)
    ensures Run(Asleep(k), [(1, FetchAdd), (1, PollFront)]) ==
              State(Wrap32(k), Wrap32(k + 1), k, k + 1, [Matched(0), Holding(k)], [1], seq(k + 1, j => j))
  {
    WrapNext(k);
    assert seq(k, j => j) + [k] == seq(k + 1, j => j);
    var s := Step(Asleep(k), 1, FetchAdd);
    assert s.cpus == [Matched(0), Waiting(k)] && s.queue == [1];
    var s' := Step(s, 1, PollFront);
    assert s'.cpus == [Matched(0), Holding(k)];
    assert [(1, FetchAdd), (1, PollFront)][1..] == [(1, PollFront)];
    assert Run(s, [(1, PollFront)]) == s';
  }

  lemma {:induction false} OneRound(k: nat) returns (steps: seq<(nat, Action)>)
    ensures Steps(2, steps) && Run(Asleep(k), steps) == Asleep(k + 1)
  {
    var a, b := [(1, FetchAdd), (1, PollFront)], [(1, Release)];
    Acquires(k);
    WrapNext(k);
    var s := Run(Asleep(k), a);
    assert Step(s, 1, Release).cpus == [Matched(0), Idle];
    assert Run(s, b) == Step(s, 1, Release);
    RunConcat(Asleep(k), a, b);
    steps := a + b;
  }

  lemma {:induction false} Rounds(k: nat) returns (steps: seq<(nat, Action)>)
    ensures Steps(2, steps) && Run(Asleep(0), steps) == Asleep(k)
  {
    if k == 0 {
      steps := [];
    } else {
      var a := Rounds(k - 1);
      var b := OneRound(k - 1);
      RunConcat(Asleep(0), a, b);
      steps := a + b;
    }
  }

  lemma {:induction false} FallsAsleep()
    ensures Steps(2, [(0, LoadBack), (0, LoadFront)]) && Run(Start(2), [(0, LoadBack), (0, LoadFront)]) == Asleep(0)
  {
    var s := Step(Start(2), 0, LoadBack);
    assert s.cpus == [Loaded(0), Idle];
    var s' := Step(s, 0, LoadFront);
    assert s'.cpus == [Matched(0), Idle] && s'.entered == seq(0, j => j);
    assert [(0, LoadBack), (0, LoadFront)][1..] == [(0, LoadFront)];
    assert Run(s, [(0, LoadFront)]) == s';
  }

  /** A try that sleeps through 2^32 acquisitions enters beside the holder: a run from the start in which two CPUs hold the lock. */
  lemma {:induction false} LongSleep() returns (steps: seq<(nat, Action)>)
    ensures Steps(2, steps)
    ensures var s := Run(Start(2), steps);
            && |s.cpus| == 2 && s.cpus[0] == Matched(0) && s.drawn == U32_LIMIT && s.cpus[1].Holding?
            && var s' := Step(s, 0, CompareExchange); s'.cpus[0].Holding? && s'.cpus[1].Holding?
  {
    var a, c := [(0, LoadBack), (0, LoadFront)], [(1, FetchAdd), (1, PollFront)];
    var b := Rounds(U32_LIMIT - 1);
    FallsAsleep();
    RunConcat(Start(2), a, b);
    RunConcat(Start(2), a + b, c);
    Acquires(U32_LIMIT - 1);
    steps := a + b + c;
  }
}
