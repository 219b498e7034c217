/** One-time construction (libcxxrt/guard.cpp, the two-word guard of the i686 target; section 3.3 of the
    Itanium C++ ABI). Any number of threads, each with a program counter; every step is one atomic access. */
module Guard {

  const INITIAL := 0
  const LOCKED := 0x8000_0000
  const INITIALISED := 1

  datatype Pc =
    | Idle           // outside the three functions
    | FastTest       // acquire: about to read the init word
    | Swap           // acquire: about to compare-and-swap the lock word
    | Won            // acquire: lock obtained, about to check for the init race
    | BackOff        // acquire: initialised meanwhile, about to drop the lock
    | Retest         // acquire: lock was held, about to look at the init word again
    | Yield          // acquire: about to yield and loop
    | Constructing   // acquire returned 1
    | ReleaseSwap    // release: about to compare-and-swap the init word
    | ReleaseUnlock  // release: about to clear the lock word
    | AbortSwap      // abort: about to compare-and-swap the lock word
    | Failed         // an assertion did not hold

  /** What the thread does next where the program leaves it free. */
  datatype Choice = Acquire | Release | Abort | Continue

  datatype Step = Step(thread: nat, choice: Choice)

  /** `result[t]` is what thread t's last acquire returned, -1 if none has; `releases` counts the release
      calls whose swap succeeded. */
  datatype State = State(init: int, lock: int, pc: seq<Pc>, result: seq<int>, releases: nat)

  ghost predicate Initial(s: State) {
    s.init == INITIAL && s.lock == INITIAL && s.releases == 0 && |s.result| == |s.pc|
    && forall t :: 0 <= t < |s.pc| ==> s.pc[t] == Idle && s.result[t] == -1
  }

  function Goto(s: State, t: nat, pc: Pc): State
    requires t < |s.pc|
  {
    s.(pc := s.pc[t := pc])
  }

  function Return(s: State, t: nat, value: int): State
    requires t < |s.pc| == |s.result|
  {
    s.(pc := s.pc[t := if value == 1 then Constructing else Idle], result := s.result[t := value])
  }

  /** One step; a choice that does not apply leaves the state alone. Only a thread whose acquire returned 1
      releases or aborts, as the ABI requires of compiled code. */
  function Next(s: State, e: Step): State
    requires |s.result| == |s.pc|
  {
    var t := e.thread;
    if t >= |s.pc| then s
    else match (s.pc[t], e.choice) {
      case (Idle, Acquire) => Goto(s, t, FastTest)
      case (FastTest, Continue) => if s.init == INITIALISED then Return(s, t, 0) else Goto(s, t, Swap)
      case (Swap, Continue) =>
        if s.lock == INITIAL then Goto(s.(lock := LOCKED), t, Won)
        else if s.lock == LOCKED then Goto(s, t, Retest)
        else Goto(s, t, Failed)
      case (Won, Continue) => if s.init != INITIALISED then Return(s, t, 1) else Goto(s, t, BackOff)
      case (BackOff, Continue) => Return(s.(lock := INITIAL), t, 0)
      case (Retest, Continue) => if s.init == INITIALISED then Return(s, t, 0) else Goto(s, t, Yield)
      case (Yield, Continue) => Goto(s, t, Swap)
      case (Constructing, Release) => Goto(s, t, ReleaseSwap)
      case (Constructing, Abort) => Goto(s, t, AbortSwap)
      case (ReleaseSwap, Continue) =>
        if s.init == INITIAL then Goto(s.(init := INITIALISED, releases := s.releases + 1), t, ReleaseUnlock)
        else Goto(s, t, Failed)
      case (ReleaseUnlock, Continue) => Goto(s.(lock := INITIAL), t, Idle)
      case (AbortSwap, Continue) =>
        if s.lock == LOCKED then Goto(s.(lock := INITIAL), t, Idle) else Goto(s, t, Failed)
      case _ => s
    }
  }

  function Run(s: State, schedule: seq<Step>): State
    requires |s.result| == |s.pc|
    decreases |schedule|
  {
    if schedule == [] then s else Run(Next(s, schedule[0]), schedule[1..])
  }

  // ---------------------------------------------------------------- the invariant

  predicate HoldsLock(pc: Pc) {
    pc in {Won, BackOff, Constructing, ReleaseSwap, ReleaseUnlock, AbortSwap}
  }

  /** Between an acquire that returned 1 and the end of its release or abort. */
  predicate Owns(pc: Pc) {
    pc in {Constructing, ReleaseSwap, ReleaseUnlock, AbortSwap}
  }

  ghost predicate ThreadOk(s: State, t: nat)
    requires t < |s.pc| == |s.result|
  {
    && s.pc[t] != Failed
    && (s.pc[t] in {Constructing, ReleaseSwap, AbortSwap} ==> s.init == INITIAL)
    && (s.pc[t] in {BackOff, ReleaseUnlock} ==> s.init == INITIALISED)
    && (s.result[t] == 0 ==> s.init == INITIALISED)
    && (HoldsLock(s.pc[t]) ==> s.lock == LOCKED)
  }

  ghost predicate Inv(s: State) {
    && |s.result| == |s.pc|
    && s.lock in {INITIAL, LOCKED} && s.init == s.releases && s.releases <= 1
    && (forall t: nat :: t < |s.pc| ==> ThreadOk(s, t))
    && (forall t, u :: 0 <= t < |s.pc| && 0 <= u < |s.pc| && HoldsLock(s.pc[t]) && HoldsLock(s.pc[u]) ==> t == u)
    && (s.lock == LOCKED ==> exists t :: 0 <= t < |s.pc| && HoldsLock(s.pc[t]))
  }

  /** A step moves its own thread, and changes the two words only as the lock's holder or by taking it. */
  lemma NextIsLocal(s: State, e: Step)
    requires Inv(s) && e.thread < |s.pc|
    ensures var n := Next(s, e);
            && |n.pc| == |s.pc| == |n.result|
            && (forall u :: 0 <= u < |s.pc| && u != e.thread ==> n.pc[u] == s.pc[u] && n.result[u] == s.result[u])
            && ThreadOk(n, e.thread)
            && n.lock in {INITIAL, LOCKED} && n.init == n.releases && s.init <= n.init <= 1
            && (n.init != s.init || n.lock < s.lock ==> HoldsLock(s.pc[e.thread]))
            && (n.lock > s.lock ==> s.lock == INITIAL)
            && (HoldsLock(n.pc[e.thread]) ==> n.lock == LOCKED && (HoldsLock(s.pc[e.thread]) || s.lock == INITIAL))
            && (n.lock == LOCKED && HoldsLock(s.pc[e.thread]) ==> HoldsLock(n.pc[e.thread]))
            && (n.lock == LOCKED && s.lock == INITIAL ==> HoldsLock(n.pc[e.thread]))
  {
    assert ThreadOk(s, e.thread);
  }

  lemma NextKeepsInv(s: State, e: Step)
    requires Inv(s)
    ensures Inv(Next(s, e)) && |Next(s, e).pc| == |s.pc|
    ensures s.init <= Next(s, e).init && s.releases <= Next(s, e).releases
  {
    if e.thread < |s.pc| {
      var n := Next(s, e);
      NextIsLocal(s, e);
      forall t: nat | t < |n.pc| ensures ThreadOk(n, t) {
        assert ThreadOk(s, t);
      }
      forall t, u | 0 <= t < |n.pc| && 0 <= u < |n.pc| && HoldsLock(n.pc[t]) && HoldsLock(n.pc[u])
        ensures t == u
      {
        assert ThreadOk(s, t) && ThreadOk(s, u);
      }
      if n.lock == LOCKED && s.lock == LOCKED {
        var h :| 0 <= h < |s.pc| && HoldsLock(s.pc[h]);
        assert HoldsLock(n.pc[h]);
      }
    }
  }

  lemma {:induction false} RunKeepsInv(s: State, schedule: seq<Step>)
    requires Inv(s)
    ensures Inv(Run(s, schedule)) && |Run(s, schedule).pc| == |s.pc|
    ensures s.init <= Run(s, schedule).init && s.releases <= Run(s, schedule).releases
    decreases |schedule|
  {
    if schedule != [] {
      NextKeepsInv(s, schedule[0]);
      RunKeepsInv(Next(s, schedule[0]), schedule[1..]);
    }
  }

  // ---------------------------------------------------------------- what every run satisfies

  lemma InitialInv(s: State)
    requires Initial(s)
    ensures Inv(s)
  {
    forall t: nat | t < |s.pc| ensures ThreadOk(s, t) {}
  }

  /** At most one thread is between an acquire that returned 1 and its release or abort, and no assertion
      of the three functions fails. */
  lemma Safety(s: State, schedule: seq<Step>, t: nat, u: nat)
    requires Initial(s) && t < |s.pc| && u < |s.pc|
    ensures |Run(s, schedule).pc| == |s.pc|
    ensures Owns(Run(s, schedule).pc[t]) && Owns(Run(s, schedule).pc[u]) ==> t == u
    ensures Run(s, schedule).pc[t] != Failed
  {
    InitialInv(s);
    RunKeepsInv(s, schedule);
    assert ThreadOk(Run(s, schedule), t);
  }

  lemma {:induction false} RunAppend(s: State, a: seq<Step>, b: seq<Step>)
    requires Inv(s)
    ensures |Run(s, a).result| == |Run(s, a).pc| && Run(s, a + b) == Run(Run(s, a), b)
    decreases |a|
  {
    RunKeepsInv(s, a);
    if a == [] {
      assert a + b == b;
    } else {
      NextKeepsInv(s, a[0]);
      assert (a + b)[0] == a[0] && (a + b)[1..] == a[1..] + b;
      RunAppend(Next(s, a[0]), a[1..], b);
    }
  }

  /** Over a whole run at most one release succeeds; the init word is set exactly when one has, and stays
      set whatever follows; an acquire that returned 0 did so after that release. */
  lemma ExactlyOnce(s: State, schedule: seq<Step>, later: seq<Step>, t: nat)
    requires Initial(s) && t < |s.pc|
    ensures var now := Run(s, schedule);
            && |now.result| == |now.pc| == |s.pc|
            && now.releases <= 1 && (now.init == INITIALISED <==> now.releases == 1)
            && (now.result[t] == 0 ==> now.releases == 1)
            && (now.releases == 1 ==> Run(s, schedule + later).releases == 1 && Run(s, schedule + later).init == INITIALISED)
  {
    InitialInv(s);
    RunKeepsInv(s, schedule);
    RunAppend(s, schedule, later);
    RunKeepsInv(Run(s, schedule), later);
    assert ThreadOk(Run(s, schedule), t);
  }

  /** The construction that acquire granted happens before any acquire returns 0, and is never granted
      again after the release: a thread is granted construction only while no release has succeeded. */
  lemma GrantOnlyBeforeRelease(s: State, e: Step)
    requires Inv(s) && e.thread < |s.pc|
    requires s.pc[e.thread] != Constructing && Next(s, e).pc[e.thread] == Constructing
    ensures s.releases == 0 && Next(s, e).result[e.thread] == 1
  {
    assert ThreadOk(s, e.thread);
  }

  // ---------------------------------------------------------------- retrying

  function Alone(t: nat, n: nat): seq<Step> {
    seq(n, i => Step(t, Continue))
  }

  lemma AloneUnfolds(s: State, t: nat, n: nat)
    requires |s.result| == |s.pc| && n > 0
    ensures |Next(s, Step(t, Continue)).result| == |Next(s, Step(t, Continue)).pc|
    ensures Run(s, Alone(t, n)) == Run(Next(s, Step(t, Continue)), Alone(t, n - 1))
  {
    assert Alone(t, n)[1..] == Alone(t, n - 1);
  }

  lemma {:induction false} Settled(s: State, t: nat, n: nat)
    requires |s.result| == |s.pc| && t < |s.pc| && s.pc[t] in {Idle, Constructing}
    ensures Run(s, Alone(t, n)) == s
  {
    if n > 0 {
      AloneUnfolds(s, t, n);
      Settled(s, t, n - 1);
    }
  }

  predicate InAcquire(pc: Pc) {
    pc in {FastTest, Swap, Retest, Yield}
  }

  /** The steps of its own an acquire still needs when the lock is free. */
  function StepsLeft(pc: Pc): nat {
    match pc
    case FastTest => 4 case Retest => 5 case Yield => 4 case Swap => 3 case Won => 2 case BackOff => 1 case _ => 0
  }

  ghost predicate Answered(s: State, t: nat) {
    t < |s.pc| == |s.result| && s.result[t] == (if s.releases == 0 then 1 else 0)
    && s.pc[t] == if s.releases == 0 then Constructing else Idle
  }

  /** Whenever the lock is free, or just taken by itself, a thread anywhere in acquire returns within five
      steps of its own: 1 if no release has succeeded, else 0. */
  lemma {:induction false} FreeLockAnswers(s: State, t: nat, n: nat)
    requires Inv(s) && t < |s.pc| && n >= StepsLeft(s.pc[t])
    requires (InAcquire(s.pc[t]) && s.lock == INITIAL) || s.pc[t] in {Won, BackOff}
    ensures Answered(Run(s, Alone(t, n)), t) && |Run(s, Alone(t, n)).pc| == |s.pc|
    ensures Run(s, Alone(t, n)).lock == (if s.releases == 0 then LOCKED else INITIAL)
    ensures Run(s, Alone(t, n)).releases == s.releases
    decreases n
  {
    var next := Next(s, Step(t, Continue));
    assert ThreadOk(s, t);
    NextKeepsInv(s, Step(t, Continue));
    AloneUnfolds(s, t, n);
    if next.pc[t] in {Idle, Constructing} {
      Settled(next, t, n - 1);
    } else {
      FreeLockAnswers(next, t, n - 1);
    }
  }

  function Call(t: nat, c: Choice, n: nat): seq<Step> {
    [Step(t, c)] + Alone(t, n)
  }

  lemma CallUnfolds(s: State, t: nat, c: Choice, n: nat)
    requires |s.result| == |s.pc|
    ensures |Next(s, Step(t, c)).result| == |Next(s, Step(t, c)).pc|
    ensures Run(s, Call(t, c, n)) == Run(Next(s, Step(t, c)), Alone(t, n))
  {
    assert Call(t, c, n)[1..] == Alone(t, n);
  }

  /** An acquire that starts while the lock is free returns within its own steps: 1 if no release has
      succeeded, else 0. */
  lemma AcquireAnswers(s: State, t: nat)
    requires Inv(s) && t < |s.pc| && s.pc[t] == Idle && s.lock == INITIAL
    ensures var n := Run(s, Call(t, Acquire, 4));
            Answered(n, t) && |n.pc| == |s.pc| && n.releases == s.releases
            && n.lock == (if s.releases == 0 then 0x8000_0000 else 0)
  {
    NextKeepsInv(s, Step(t, Acquire));
    CallUnfolds(s, t, Acquire, 4);
    FreeLockAnswers(Next(s, Step(t, Acquire)), t, 4);
  }

  /** A release sets the guard and frees the lock: the constructed object is never constructed again. */
  lemma ReleaseSets(s: State, t: nat)
    requires Inv(s) && t < |s.pc| && s.pc[t] == Constructing
    ensures var n := Run(s, Call(t, Release, 2));
            Inv(n) && |n.pc| == |s.pc| && n.init == INITIALISED && n.releases == 1 && n.lock == INITIAL && n.pc[t] == Idle
  {
    assert ThreadOk(s, t);
    CallUnfolds(s, t, Release, 2);
    AloneUnfolds(Next(s, Step(t, Release)), t, 2);
    AloneUnfolds(Next(Next(s, Step(t, Release)), Step(t, Continue)), t, 1);
    RunKeepsInv(s, Call(t, Release, 2));
  }

  /** An acquire that starts once the guard is set returns 0 at its first look, whoever holds the lock. */
  lemma AcquireOnceSet(s: State, u: nat)
    requires Inv(s) && u < |s.pc| && s.pc[u] == Idle && s.init == INITIALISED
    ensures var n := Run(s, Call(u, Acquire, 1));
            |n.pc| == |s.pc| == |n.result| && n.result[u] == 0 && n.pc[u] == Idle && n.lock == s.lock && n.init == s.init
  {
    CallUnfolds(s, u, Acquire, 1);
    AloneUnfolds(Next(s, Step(u, Acquire)), u, 1);
  }

  /** An abort leaves the guard as it was before its acquire: free and unset. */
  lemma AbortResets(s: State, t: nat)
    requires Inv(s) && t < |s.pc| && s.pc[t] == Constructing
    ensures var n := Run(s, Call(t, Abort, 1));
            Inv(n) && |n.pc| == |s.pc| && n.lock == INITIAL && n.init == INITIAL && n.releases == 0 && n.pc[t] == Idle
            && forall u :: 0 <= u < |s.pc| && u != t ==> n.pc[u] == s.pc[u]
  {
    assert ThreadOk(s, t);
    CallUnfolds(s, t, Abort, 1);
    AloneUnfolds(Next(s, Step(t, Abort)), t, 1);
    RunKeepsInv(s, Call(t, Abort, 1));
  }

  /** After an abort the guard is ready to grant again: to a thread that waits in acquire, and to one that
      calls it later. */
  lemma AbortIsRetryable(s: State, t: nat, u: nat)
    requires Inv(s) && t < |s.pc| && s.pc[t] == Constructing && u < |s.pc|
    ensures var after := Run(s, Call(t, Abort, 1));
            && |after.pc| == |s.pc| == |after.result|
            && (u != t && InAcquire(s.pc[u]) ==> Answered(Run(after, Alone(u, 5)), u) && Run(after, Alone(u, 5)).result[u] == 1)
            && (u == t || s.pc[u] == Idle ==>
                  Answered(Run(after, Call(u, Acquire, 4)), u) && Run(after, Call(u, Acquire, 4)).result[u] == 1)
  {
    AbortResets(s, t);
    var after := Run(s, Call(t, Abort, 1));
    if u != t && InAcquire(s.pc[u]) { FreeLockAnswers(after, u, 5); }
    if u == t || s.pc[u] == Idle { AcquireAnswers(after, u); }
  }

  /** In the window of release between setting the init word and clearing the lock, no other acquire can be
      granted, and one that starts or looks again returns 0 at its next step. */
  lemma ReleaseWindow(s: State, t: nat, u: nat)
    requires Inv(s) && t < |s.pc| && s.pc[t] == ReleaseUnlock && u < |s.pc| && u != t
    ensures !HoldsLock(s.pc[u])
    ensures s.pc[u] in {FastTest, Retest} ==> Next(s, Step(u, Continue)).result[u] == 0
    ensures s.pc[u] == Swap ==> Next(s, Step(u, Continue)).pc[u] == Retest
    ensures Next(s, Step(t, Continue)).lock == INITIAL && Next(s, Step(t, Continue)).init == INITIALISED
  {
    assert ThreadOk(s, t);
  }
}
