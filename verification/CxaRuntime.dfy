/** The exception functions themselves (libcxxrt/exception.cc), step by step on the fields they update.
    Each is proved to keep `Refines` and to do to the control stacks what its caller is doing. */
module CxaRuntime {
  import opened ControlStack
  import opened Exceptions

  // ---------------------------------------------------------------- what a program may do next

  datatype Event =
    | Throw(t: nat, e: Ptr)                       // __cxa_throw of a newly allocated exception
    | BeginCatch(t: nat, e: Ptr)
    | EndCatch(t: nat)
    | Rethrow(t: nat)
    | CurrentPrimary(t: nat)                      // std::current_exception
    | CopyPtr(p: Ptr)                             // an exception_ptr is copied
    | DropPtr(p: Ptr)                             // an exception_ptr is destroyed
    | RethrowPrimary(t: nat, p: Ptr, d: Ptr)      // std::rethrow_exception, through a new dependent d

  /** The ABI's rules: only what is in flight is caught, handlers nest, and an exception_ptr is used only
      while it is held. A new exception has an address the allocator has not given out. */
  ghost predicate Allowed(u: Use, ev: Event) {
    match ev
    case Throw(t, e) => t < |u.ctl| && !Live(u, e)
    case BeginCatch(t, e) => t < |u.ctl| && CanCatch(u.ctl[t], e)
    case EndCatch(t) => t < |u.ctl| && CanEnd(u.ctl[t])
    case Rethrow(t) => t < |u.ctl| && CanRethrow(u.ctl[t])
    case CurrentPrimary(t) => t < |u.ctl|
    case CopyPtr(p) => u.holders[p] > 0
    case DropPtr(p) => u.holders[p] > 0
    case RethrowPrimary(t, p, d) => t < |u.ctl| && u.holders[p] > 0 && !Live(u, d)
  }

  /** The primary exception behind the innermost caught one of a thread. */
  function PrimaryOf(u: Use, e: Ptr): Ptr {
    if e in u.deps then u.deps[e] else e
  }

  ghost function After(u: Use, ev: Event): Use
    requires Allowed(u, ev)
  {
    match ev
    case Throw(t, e) => Move(u, t, Thrown(u.ctl[t], e))
    case BeginCatch(t, e) => Move(u, t, Catch(u.ctl[t], e))
    case EndCatch(t) => EndHasCaught(u.ctl[t]); Ended(u, t)
    case Rethrow(t) => Move(u, t, Rethrown(u.ctl[t]))
    case CurrentPrimary(t) =>
      if Caught(u.ctl[t]) == [] then u
      else Use(u.ctl, u.holders + multiset{PrimaryOf(u, Caught(u.ctl[t])[0])}, u.deps)
    case CopyPtr(p) => Use(u.ctl, u.holders + multiset{p}, u.deps)
    case DropPtr(p) => Use(u.ctl, u.holders - multiset{p}, u.deps)
    case RethrowPrimary(t, p, d) => Use(u.ctl[t := Thrown(u.ctl[t], d)], u.holders, u.deps[d := p])
  }

  /** How a rethrow ends. */
  datatype Rethrowing = Resumed | Terminated | AssertionFailed

  function RethrowingOf(c: Stack): Rethrowing {
    if Caught(c) == [] then Terminated else if InFlight(c, Caught(c)[0]) then AssertionFailed else Resumed
  }

  /** The program ends here: a rethrow of nothing, or of an exception in flight already. */
  ghost predicate Stops(u: Use, ev: Event) {
    ev.Rethrow? && ev.t < |u.ctl| && RethrowingOf(u.ctl[ev.t]) != Resumed
  }

  class Runtime {
    var exns: map<Ptr, Exn>
    /** `caughtExceptions` of each thread; 0 is the null pointer. */
    var caught: seq<int>
    ghost var use: Use

    ghost predicate Valid()
      reads this
    {
      Refines(exns, caught, use)
    }

    constructor (threads: nat)
      ensures Valid() && exns == map[] && use == Use(seq(threads, i => []), multiset{}, map[])
    {
      exns, caught := map[], seq(threads, i => 0);
      use := Use(seq(threads, i => []), multiset{}, map[]);
      new;
      assert forall e :: !Active(use, e);
      forall e: Ptr ensures RefsRightAt(exns, use, e) {}
    }

    /** `__cxa_allocate_exception` and `__cxa_throw`; `e` is the zeroed memory the allocator returned. */
    method ThrowNew(t: nat, e: Ptr)
      requires Valid() && Allowed(use, Throw(t, e))
      modifies this
      ensures Valid() && use == After(old(use), Throw(t, e))
    {
      hide Refines, Live, Active, Caught, Mentions;
      LiveIsAllocated(exns, caught, use, e);
      ThrowRefines(exns, caught, use, t, e);
      exns := exns[e := Exn(0, 0, 1, false, 0)];
      use := After(use, Throw(t, e));
    }

    /** `__cxa_begin_catch` for a native exception. */
    method BeginCatchOf(t: nat, e: Ptr)
      requires Valid() && Allowed(use, BeginCatch(t, e))
      modifies this
      ensures Valid() && use == After(old(use), BeginCatch(t, e))
    {
      assert Mentions(use.ctl[t], e) && Active(use, e) && RefsRightAt(exns, use, e);
      ghost var before, lists := exns, caught;
      var ex := exns[e];
      if ex.handlerCount == 0 {
        ex := ex.(next := caught[t]);
        caught := caught[t := e];
      }
      if ex.handlerCount < 0 {
        ex := ex.(handlerCount := -ex.handlerCount + 1);
      } else {
        ex := ex.(handlerCount := ex.handlerCount + 1);
      }
      exns := exns[e := ex];
      CatchRefines(before, lists, use, t, e, ex);
      use := After(use, BeginCatch(t, e));
    }

    /** `__cxa_rethrow`: it terminates the program when nothing is caught, and its assertion fails when the
        innermost caught exception is in flight already. */
    method RethrowCaught(t: nat) returns (r: Rethrowing)
      requires Valid() && t < |use.ctl|
      modifies this
      ensures Valid() && r == RethrowingOf(old(use).ctl[t])
      ensures r == Terminated <==> Caught(old(use).ctl[t]) == []
      ensures r == AssertionFailed <==> Caught(old(use).ctl[t]) != [] && InFlight(old(use).ctl[t], Caught(old(use).ctl[t])[0])
      ensures if r == Resumed then use == After(old(use), Rethrow(t))
              else use == old(use) && exns == old(exns) && caught == old(caught)
    {
      RethrowAssertionIff(exns, caught, use, t);
      if caught[t] == 0 { return Terminated; }
      var ex: Ptr := caught[t];
      if exns[ex].handlerCount <= 0 { return AssertionFailed; }
      var x := exns[ex].(handlerCount := -exns[ex].handlerCount);
      RethrowRefines(exns, caught, use, t, ex, x);
      exns := exns[ex := x];
      use := After(use, Rethrow(t));
      return Resumed;
    }

    lemma InnermostIsLive(t: nat) returns (e: Ptr)
      requires Valid() && t < |use.ctl| && Caught(use.ctl[t]) != []
      ensures e == caught[t] == Caught(use.ctl[t])[0]
      ensures e in exns && Mentions(use.ctl[t], e) && exns[e].handlerCount == HandlerCount(use.ctl[t], e)
      ensures exns[e].dependent == (e in use.deps)
      ensures e in use.deps ==> exns[e].primary == use.deps[e] && use.deps[e] in exns && use.deps[e] !in use.deps
    {
      e := Caught(use.ctl[t])[0];
      CaughtAreHandled(use.ctl[t], e);
      assert Mentions(use.ctl[t], e) && CountRightAt(exns, use, t, e) && RefsRightAt(exns, use, e);
      if e in use.deps {
        assert e in Sharers(use.deps, use.deps[e]) && RefsRightAt(exns, use, use.deps[e]);
      }
    }

    method ReleaseException(e: Ptr)
      requires Releasable(exns, e)
      modifies this`exns
      ensures exns == Released(old(exns), e)
      decreases if exns[e].dependent then 1 else 0, 0
    {
      if exns[e].dependent {
        FreeDependentException(e);
        return;
      }
      exns := exns[e := exns[e].(referenceCount := exns[e].referenceCount - 1)];
      if exns[e].referenceCount == 0 {
        exns := exns - {e};
      }
    }

    method FreeDependentException(d: Ptr)
      requires Releasable(exns, d) && exns[d].dependent
      modifies this`exns
      ensures exns == Released(old(exns), d)
      decreases 0, 1
    {
      if exns[d].primary != 0 {
        ReleaseException(exns[d].primary);
      }
      exns := exns - {d};
    }

    /** `__cxa_end_catch`: there is an exception to end, and no field of a freed one is read. */
    method EndInnermost(t: nat)
      requires Valid() && Allowed(use, EndCatch(t))
      modifies this
      ensures Valid() && use == After(old(use), EndCatch(t))
    {
      EndKeepsNesting(use.ctl[t]);
      ghost var e := InnermostIsLive(t);
      assert caught[t] != 0;
      var ex: Ptr := caught[t];
      EndMentions(use.ctl[t], ex);
      ghost var before, lists := exns, caught;
      var deleteException := true;
      if exns[ex].handlerCount < 0 {
        exns := exns[ex := exns[ex].(handlerCount := exns[ex].handlerCount + 1)];
        deleteException := false;
      } else {
        exns := exns[ex := exns[ex].(handlerCount := exns[ex].handlerCount - 1)];
      }
      ghost var x := exns[ex];
      if x.handlerCount == 0 && deleteException {
        EndReleases(before, lists, use, t, x);
      } else {
        EndKeeps(before, lists, use, t, x);
      }
      if exns[ex].handlerCount == 0 {
        caught := caught[t := exns[ex].next];
        if deleteException {
          ReleaseException(ex);
        }
      }
      use := After(use, EndCatch(t));
    }

    /** `__cxa_current_primary_exception`: NULL when nothing is caught. */
    method CurrentPrimaryException(t: nat) returns (p: int)
      requires Valid() && Allowed(use, CurrentPrimary(t))
      modifies this
      ensures Valid() && use == After(old(use), CurrentPrimary(t))
      ensures Caught(old(use).ctl[t]) == [] ==> p == 0
      ensures Caught(old(use).ctl[t]) != [] ==> p == PrimaryOf(old(use), Caught(old(use).ctl[t])[0])
    {
      if caught[t] == 0 { return 0; }
      ghost var e := InnermostIsLive(t);
      var ex: Ptr := caught[t];
      if exns[ex].dependent {
        ex := exns[ex].primary;
      }
      HolderRefines(exns, caught, use, ex);
      exns := exns[ex := exns[ex].(referenceCount := exns[ex].referenceCount + 1)];
      use := After(use, CurrentPrimary(t));
      p := ex;
    }

    /** `__cxa_increment_exception_refcount`. */
    method IncrementRefcount(p: int)
      requires Valid() && (p == 0 || (p > 0 && Allowed(use, CopyPtr(p))))
      modifies this
      ensures Valid() && use == if p == 0 then old(use) else After(old(use), CopyPtr(p))
    {
      hide Refines, Live, Active, Caught, Mentions;
      if p == 0 { return; }
      LiveIsAllocated(exns, caught, use, p);
      if exns[p].dependent { return; }
      HolderRefines(exns, caught, use, p);
      exns := exns[p := exns[p].(referenceCount := exns[p].referenceCount + 1)];
      use := After(use, CopyPtr(p));
    }

    /** `__cxa_decrement_exception_refcount`. */
    method DecrementRefcount(p: int)
      requires Valid() && (p == 0 || (p > 0 && Allowed(use, DropPtr(p))))
      modifies this
      ensures Valid() && use == if p == 0 then old(use) else After(old(use), DropPtr(p))
    {
      hide Refines, Live, Active, Caught, Mentions;
      if p == 0 { return; }
      HolderReleases(exns, caught, use, p);
      ReleaseException(p);
      use := After(use, DropPtr(p));
    }

    /** `__cxa_rethrow_primary_exception`; `d` is the zeroed memory the allocator returned. */
    method RethrowPrimaryException(t: nat, p: int, d: Ptr)
      requires Valid() && (p == 0 || (p > 0 && Allowed(use, RethrowPrimary(t, p, d))))
      modifies this
      ensures Valid() && use == if p == 0 then old(use) else After(old(use), RethrowPrimary(t, p, d))
    {
      hide Refines, Live, Active, Caught, Mentions;
      if p == 0 { return; }
      LiveIsAllocated(exns, caught, use, p);
      LiveIsAllocated(exns, caught, use, d);
      DependentRefines(exns, caught, use, t, p, d);
      assert !exns[p].dependent;
      exns := exns[d := Exn(0, 0, 0, true, p)];
      if !exns[p].dependent {
        exns := exns[p := exns[p].(referenceCount := exns[p].referenceCount + 1)];
      }
      use := After(use, RethrowPrimary(t, p, d));
    }

    /** One event of a program. */
    method Perform(ev: Event) returns (stopped: bool)
      requires Valid() && (Allowed(use, ev) || Stops(use, ev))
      modifies this
      ensures Valid() && stopped == Stops(old(use), ev)
      ensures use == if stopped then old(use) else After(old(use), ev)
    {
      stopped := false;
      match ev
      case Throw(t, e) => ThrowNew(t, e);
      case BeginCatch(t, e) => BeginCatchOf(t, e);
      case EndCatch(t) => EndInnermost(t);
      case Rethrow(t) =>
        var r := RethrowCaught(t);
        stopped := r != Resumed;
      case CurrentPrimary(t) => var p := CurrentPrimaryException(t);
      case CopyPtr(p) => IncrementRefcount(p);
      case DropPtr(p) => DecrementRefcount(p);
      case RethrowPrimary(t, p, d) => RethrowPrimaryException(t, p, d);
    }

    /** Any run of a program, over any number of threads, up to a rethrow that ends it. */
    method PerformAll(events: seq<Event>) returns (stopped: bool)
      requires Valid() && AllAllowed(use, events)
      modifies this
      ensures Valid() && use == AfterAll(old(use), events) && stopped == StopsIn(old(use), events)
    {
      hide Refines, Allowed, Stops, After, AllAllowed, AfterAll, StopsIn;
      var k := 0;
      while k < |events|
        invariant 0 <= k <= |events|
        invariant Valid() && AllAllowed(use, events[k..])
        invariant AfterAll(use, events[k..]) == AfterAll(old(use), events)
        invariant StopsIn(use, events[k..]) == StopsIn(old(use), events)
      {
        assert events[k..][0] == events[k] && events[k..][1..] == events[k + 1..];
        AllowedStep(use, events[k..]);
        stopped := Perform(events[k]);
        if stopped { return; }
        k := k + 1;
      }
      NothingLeft(use, events[k..]);
      stopped := false;
    }
  }

  /** Every event until the program stops is one the ABI allows. */
  ghost predicate AllAllowed(u: Use, events: seq<Event>)
    decreases |events|
  {
    events == [] || Stops(u, events[0]) || (Allowed(u, events[0]) && AllAllowed(After(u, events[0]), events[1..]))
  }

  ghost function AfterAll(u: Use, events: seq<Event>): Use
    requires AllAllowed(u, events)
    decreases |events|
  {
    if events == [] || Stops(u, events[0]) then u else AfterAll(After(u, events[0]), events[1..])
  }

  ghost predicate StopsIn(u: Use, events: seq<Event>)
    requires AllAllowed(u, events)
    decreases |events|
  {
    events != [] && (Stops(u, events[0]) || StopsIn(After(u, events[0]), events[1..]))
  }

  /** A cleanup that rethrows while the exception it cleans up for is being unwound: throw, catch, rethrow,
      and rethrow again. The assertion fails. */
  lemma CleanupRethrowStops(e: Ptr)
    ensures var u := Use([[]], multiset{}, map[]);
            var events := [Throw(0, e), BeginCatch(0, e), Rethrow(0), Rethrow(0)];
            AllAllowed(u, events) && StopsIn(u, events) && AfterAll(u, events).ctl == [[Handler(e), Flight(e)]]
            && RethrowingOf([Handler(e), Flight(e)]) == AssertionFailed
  {
    var u0 := Use([[]], multiset{}, map[]);
    assert !Active(u0, e) && Sharers(u0.deps, e) == {};
    var u1, u2, u3 := Move(u0, 0, [Flight(e)]), Move(u0, 0, [Handler(e)]), Move(u0, 0, [Handler(e), Flight(e)]);
    assert Thrown([], e) == [Flight(e)] && After(u0, Throw(0, e)) == u1;
    assert Catch([Flight(e)], e) == [Handler(e)] && After(u1, BeginCatch(0, e)) == u2;
    assert Front([Handler(e)]) == [] && Caught([Handler(e)]) == [e];
    assert Rethrown([Handler(e)]) == [Handler(e), Flight(e)] && After(u2, Rethrow(0)) == u3;
    assert Front([Handler(e), Flight(e)]) == [Handler(e)] && Caught(u3.ctl[0]) == [e];
    assert Flight(e) in u3.ctl[0] && Stops(u3, Rethrow(0));
    var events := [Throw(0, e), BeginCatch(0, e), Rethrow(0), Rethrow(0)];
    StepAllowed(u3, [Rethrow(0)]);
    StepAllowed(u2, [Rethrow(0), Rethrow(0)]);
    StepAllowed(u1, [BeginCatch(0, e), Rethrow(0), Rethrow(0)]);
    StepAllowed(u0, events);
  }

  lemma NothingLeft(u: Use, events: seq<Event>)
    requires events == []
    ensures AllAllowed(u, events) && AfterAll(u, events) == u && !StopsIn(u, events)
  {}

  lemma AllowedStep(u: Use, events: seq<Event>)
    requires events != [] && AllAllowed(u, events)
    ensures if Stops(u, events[0]) then AfterAll(u, events) == u && StopsIn(u, events)
            else Allowed(u, events[0]) && AllAllowed(After(u, events[0]), events[1..])
                 && AfterAll(u, events) == AfterAll(After(u, events[0]), events[1..])
                 && StopsIn(u, events) == StopsIn(After(u, events[0]), events[1..])
  {}

  /** A rethrow with nothing caught terminates the program. */
  lemma BareRethrowTerminates()
    ensures var u := Use([[]], multiset{}, map[]);
            AllAllowed(u, [Rethrow(0)]) && StopsIn(u, [Rethrow(0)]) && RethrowingOf(u.ctl[0]) == Terminated
  {}

  lemma LifeUntilHeld(e: Ptr)
    ensures var u := Use([[]], multiset{}, map[]);
            var held := [Throw(0, e), BeginCatch(0, e), CurrentPrimary(0), EndCatch(0)];
            && AllAllowed(u, held) && !StopsIn(u, held) && AfterAll(u, held) == Use([[]], multiset{e}, map[])
  {
    var u0 := Use([[]], multiset{}, map[]);
    assert !Active(u0, e) && Sharers(u0.deps, e) == {};
    var u1, u2 := Move(u0, 0, [Flight(e)]), Move(u0, 0, [Handler(e)]);
    assert Thrown([], e) == [Flight(e)] && After(u0, Throw(0, e)) == u1;
    assert Catch([Flight(e)], e) == [Handler(e)] && After(u1, BeginCatch(0, e)) == u2;
    assert Front([Handler(e)]) == [] && Caught([Handler(e)]) == [e];
    var u3 := Use(u2.ctl, multiset{e}, map[]);
    assert After(u2, CurrentPrimary(0)) == u3;
    var u4 := Use([[]], multiset{e}, map[]);
    assert End([Handler(e)]) == [] && After(u3, EndCatch(0)) == u4;
    NothingLeft(u4, []);
    StepAllowed(u3, [EndCatch(0)]);
    StepAllowed(u2, [CurrentPrimary(0), EndCatch(0)]);
    StepAllowed(u1, [BeginCatch(0, e), CurrentPrimary(0), EndCatch(0)]);
    StepAllowed(u0, [Throw(0, e), BeginCatch(0, e), CurrentPrimary(0), EndCatch(0)]);
  }

  lemma LifeThroughDependent(e: Ptr, d: Ptr)
    requires e != d
    ensures var u := Use([[]], multiset{e}, map[]);
            var again := [RethrowPrimary(0, e, d), BeginCatch(0, d), EndCatch(0)];
            AllAllowed(u, again) && !StopsIn(u, again) && AfterAll(u, again) == u
  {
    var u0 := Use([[]], multiset{e}, map[]);
    assert !Active(u0, d) && Sharers(u0.deps, d) == {};
    var u1, u2 := Use([[Flight(d)]], multiset{e}, map[d := e]), Use([[Handler(d)]], multiset{e}, map[d := e]);
    assert Thrown([], d) == [Flight(d)] && After(u0, RethrowPrimary(0, e, d)) == u1;
    assert Catch([Flight(d)], d) == [Handler(d)] && After(u1, BeginCatch(0, d)) == u2;
    assert Front([Handler(d)]) == [] && Caught([Handler(d)]) == [d];
    assert End([Handler(d)]) == [] && !Mentions([], d) && map[d := e] - {d} == map[];
    assert After(u2, EndCatch(0)) == u0;
    NothingLeft(u0, []);
    StepAllowed(u2, [EndCatch(0)]);
    StepAllowed(u1, [BeginCatch(0, d), EndCatch(0)]);
    StepAllowed(u0, [RethrowPrimary(0, e, d), BeginCatch(0, d), EndCatch(0)]);
  }

  lemma LifeEnds(e: Ptr)
    ensures var u := Use([[]], multiset{e}, map[]);
            var last := [CopyPtr(e), DropPtr(e), DropPtr(e)];
            && Live(u, e) && AllAllowed(u, last) && !StopsIn(u, last)
            && AfterAll(u, last) == Use([[]], multiset{}, map[]) && !Live(AfterAll(u, last), e)
  {
    var u, twice := Use([[]], multiset{e}, map[]), Use([[]], multiset{e, e}, map[]);
    var none := Use([[]], multiset{}, map[]);
    assert After(u, CopyPtr(e)) == twice && After(twice, DropPtr(e)) == u && After(u, DropPtr(e)) == none;
    NothingLeft(none, []);
    StepAllowed(u, [DropPtr(e)]);
    StepAllowed(twice, [DropPtr(e), DropPtr(e)]);
    StepAllowed(u, [CopyPtr(e), DropPtr(e), DropPtr(e)]);
    NothingLives(e);
  }

  lemma NothingLives(e: Ptr)
    ensures !Live(Use([[]], multiset{}, map[]), e)
  {
    var u := Use([[]], multiset{}, map[]);
    assert !Active(u, e) && Sharers(u.deps, e) == {};
  }

  /** A whole life: thrown, caught, and held by an `exception_ptr` beyond its handler; thrown again through a
      dependent exception, caught, and still held; copied and let go twice. It lives until then, and nothing
      is left. */
  lemma WholeLife(e: Ptr, d: Ptr)
    requires e != d
    ensures var none, held := Use([[]], multiset{}, map[]), Use([[]], multiset{e}, map[]);
            var events := [Throw(0, e), BeginCatch(0, e), CurrentPrimary(0), EndCatch(0)];
            AllAllowed(none, events) && !StopsIn(none, events) && AfterAll(none, events) == held
    ensures var held := Use([[]], multiset{e}, map[]);
            var events := [RethrowPrimary(0, e, d), BeginCatch(0, d), EndCatch(0)];
            AllAllowed(held, events) && !StopsIn(held, events) && AfterAll(held, events) == held
    ensures var none, held := Use([[]], multiset{}, map[]), Use([[]], multiset{e}, map[]);
            var events := [CopyPtr(e), DropPtr(e), DropPtr(e)];
            && Live(held, e) && AllAllowed(held, events) && !StopsIn(held, events)
            && AfterAll(held, events) == none && !Live(none, e)
  {
    hide *;
    LifeUntilHeld(e);
    LifeThroughDependent(e, d);
    LifeEnds(e);
  }

  lemma StepAllowed(u: Use, events: seq<Event>)
    requires events != [] && (Stops(u, events[0]) || (Allowed(u, events[0]) && AllAllowed(After(u, events[0]), events[1..])))
    ensures AllAllowed(u, events)
    ensures AfterAll(u, events) == if Stops(u, events[0]) then u else AfterAll(After(u, events[0]), events[1..])
    ensures StopsIn(u, events) == (Stops(u, events[0]) || StopsIn(After(u, events[0]), events[1..]))
  {}

  // ---------------------------------------------------------------- what a valid state and a step mean

  /** A thread's caught list has no cycle and no duplicate, and holds exactly the exceptions of the thread
      whose handler count is not zero. */
  lemma CaughtListIsExact(exns: map<Ptr, Exn>, caught: seq<int>, u: Use, t: nat, e: Ptr)
    requires Refines(exns, caught, u) && t < |u.ctl|
    ensures Chain(exns, caught[t], Caught(u.ctl[t])) && NoDuplicates(Caught(u.ctl[t]))
    ensures e in Caught(u.ctl[t]) <==> (Mentions(u.ctl[t], e) && e in exns && exns[e].handlerCount != 0)
    ensures e in exns && exns[e].handlerCount != 0 ==> exists v :: 0 <= v < |u.ctl| && e in Caught(u.ctl[v])
  {
    CaughtNoDuplicates(u.ctl[t]);
    CaughtAreHandled(u.ctl[t], e);
    assert CountRightAt(exns, u, t, e) && IdleCountAt(exns, u, e);
    if Active(u, e) {
      var v :| 0 <= v < |u.ctl| && Mentions(u.ctl[v], e);
      CaughtAreHandled(u.ctl[v], e);
      assert CountRightAt(exns, u, v, e);
    }
  }

  /** A rethrown exception whose last handler is unwound leaves the caught list alive, and can be caught. */
  lemma RethrownSurvives(u: Use, t: nat, e: Ptr)
    requires Conforming(u) && t < |u.ctl| && Allowed(u, EndCatch(t))
    requires Last(u.ctl[t]) == Flight(e) && Depth(u.ctl[t], e) == 1 && Caught(u.ctl[t]) != [] && Caught(u.ctl[t])[0] == e
    ensures var w := After(u, EndCatch(t));
            && Live(w, e) && e !in Caught(w.ctl[t]) && CanCatch(w.ctl[t], e)
  {
    EndKeepsNesting(u.ctl[t]);
    CaughtAreHandled(End(u.ctl[t]), e);
    EndMentions(u.ctl[t], e);
    assert Mentions(After(u, EndCatch(t)).ctl[t], e);
  }

  lemma EndRevivesNothing(u: Use, t: nat, e: Ptr)
    requires Conforming(u) && Allowed(u, EndCatch(t))
    ensures Live(After(u, EndCatch(t)), e) ==> Live(u, e)
  {
    var c := u.ctl[t];
    EndKeepsNesting(c);
    if Mentions(End(c), Caught(c)[0]) {
      forall y: Ptr ensures Mentions(End(c), y) <==> Mentions(c, y) { EndMentions(c, y); }
      SameMentions(u, t, End(c));
    } else {
      EndedActive(u, t);
      EndedReasons(u, t);
    }
  }

  lemma CurrentRevivesNothing(u: Use, t: nat, e: Ptr)
    requires Conforming(u) && Allowed(u, CurrentPrimary(t))
    ensures Live(After(u, CurrentPrimary(t)), e) ==> Live(u, e)
  {
    if Caught(u.ctl[t]) != [] {
      var x := Caught(u.ctl[t])[0];
      CaughtAreHandled(u.ctl[t], x);
      assert Mentions(u.ctl[t], x) && Active(u, x);
      if x in u.deps { assert x in Sharers(u.deps, u.deps[x]); }
      HolderReasons(u, After(u, CurrentPrimary(t)), PrimaryOf(u, x), 1);
    }
  }

  /** Only an allocation brings an exception to life: between two frees of an address lies a new throw. */
  lemma OnlyAllocationRevives(u: Use, ev: Event, e: Ptr)
    requires Conforming(u) && Allowed(u, ev)
    ensures Live(After(u, ev), e) ==>
              Live(u, e) || (ev.Throw? && ev.e == e) || (ev.RethrowPrimary? && ev.d == e)
  {
    match ev
    case Throw(t, n) => FlightActive(u, t, n, After(u, ev));
    case BeginCatch(t, n) =>
      CatchKeepsNesting(u.ctl[t], n);
      SameMentions(u, t, Catch(u.ctl[t], n));
    case EndCatch(t) => EndRevivesNothing(u, t, e);
    case Rethrow(t) =>
      var c := u.ctl[t];
      CaughtAreHandled(c, Caught(c)[0]);
      FlightKeepsNesting(c, Caught(c)[0]);
      SameMentions(u, t, Rethrown(c));
    case CurrentPrimary(t) => CurrentRevivesNothing(u, t, e);
    case CopyPtr(p) => HolderReasons(u, After(u, ev), p, 1);
    case DropPtr(p) => HolderReasons(u, After(u, ev), p, -1);
    case RethrowPrimary(t, p, d) => DependentReasons(u, t, p, d, After(u, ev));
  }
}
