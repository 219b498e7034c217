/** What a conforming program does with exceptions, thread by thread (section 2.5 of the Itanium C++ ABI:
    Exception Handling): the nesting of active handlers and of exceptions being unwound. */
module ControlStack {

  type Ptr = p: int | p > 0 witness 1

  /** `Handler(e)`: a catch handler entered for e and not yet left. `Flight(e)`: e is being unwound; what
      lies above it runs in a cleanup of that unwinding. The top is the last item. */
  datatype Item = Handler(e: Ptr) | Flight(e: Ptr)

  type Stack = seq<Item>

  function Last<T>(s: seq<T>): T
    requires s != []
  {
    s[|s| - 1]
  }

  function Front<T>(s: seq<T>): seq<T>
    requires s != []
  {
    s[..|s| - 1]
  }

  /** The exceptions with active handlers, innermost first, each once. */
  function Caught(c: Stack): seq<Ptr> {
    if c == [] then []
    else match Last(c)
      case Flight(_) => Caught(Front(c))
      case Handler(e) =>
        var below := Caught(Front(c));
        if below != [] && below[0] == e then below else [e] + below
  }

  function Depth(c: Stack, e: Ptr): nat {
    if c == [] then 0 else (if Last(c) == Handler(e) then 1 else 0) + Depth(Front(c), e)
  }

  predicate InFlight(c: Stack, e: Ptr) {
    Flight(e) in c
  }

  predicate Mentions(c: Stack, e: Ptr) {
    Handler(e) in c || Flight(e) in c
  }

  /** An exception goes on the stack only while it is not already in flight there, and only if no other
      exception was caught since it was. */
  predicate Nested(c: Stack) {
    c == [] ||
    (Nested(Front(c)) && !InFlight(Front(c), Last(c).e) &&
     (Depth(Front(c), Last(c).e) > 0 ==> Caught(Front(c)) != [] && Caught(Front(c))[0] == Last(c).e))
  }

  predicate NoDuplicates(s: seq<Ptr>) {
    forall i, j :: 0 <= i < j < |s| ==> s[i] != s[j]
  }

  lemma {:induction false} CaughtAreHandled(c: Stack, e: Ptr)
    ensures e in Caught(c) <==> Depth(c, e) > 0
    ensures Depth(c, e) > 0 <==> Handler(e) in c
  {
    if c != [] {
      CaughtAreHandled(Front(c), e);
      assert c == Front(c) + [Last(c)];
    }
  }

  lemma {:induction false} CaughtNoDuplicates(c: Stack)
    requires Nested(c)
    ensures NoDuplicates(Caught(c))
  {
    if c != [] {
      CaughtNoDuplicates(Front(c));
      CaughtAreHandled(Front(c), Last(c).e);
    }
  }

  lemma Snoc(c: Stack, i: Item)
    ensures Front(c + [i]) == c && Last(c + [i]) == i
  {}

  // ---------------------------------------------------------------- the five moves

  /** `throw`, or a dependent exception's `throw`: a new exception takes flight. */
  function Thrown(c: Stack, e: Ptr): Stack { c + [Flight(e)] }

  /** A handler catches the exception whose unwinding is under way. */
  predicate CanCatch(c: Stack, e: Ptr) { c != [] && Last(c) == Flight(e) }
  function Catch(c: Stack, e: Ptr): Stack
    requires CanCatch(c, e)
  {
    Front(c) + [Handler(e)]
  }

  /** A handler is left: at its end, or because an exception is unwound through it. */
  predicate CanEnd(c: Stack) {
    c != [] && (Last(c).Handler? || (Front(c) != [] && Last(Front(c)).Handler?))
  }
  function End(c: Stack): Stack
    requires CanEnd(c)
  {
    if Last(c).Handler? then Front(c) else Front(Front(c)) + [Last(c)]
  }

  /** `throw;` rethrows the innermost caught exception, unless it is in flight already. */
  predicate CanRethrow(c: Stack) { Caught(c) != [] && !InFlight(c, Caught(c)[0]) }
  function Rethrown(c: Stack): Stack
    requires CanRethrow(c)
  {
    c + [Flight(Caught(c)[0])]
  }

  lemma CatchKeepsNesting(c: Stack, e: Ptr)
    requires Nested(c) && CanCatch(c, e)
    ensures Nested(Catch(c, e)) && !InFlight(Catch(c, e), e)
    ensures Caught(Catch(c, e)) == if Depth(c, e) > 0 then Caught(c) else [e] + Caught(c)
    ensures forall x :: Depth(Catch(c, e), x) == Depth(c, x) + if x == e then 1 else 0
    ensures forall x :: x != e ==> (InFlight(Catch(c, e), x) <==> InFlight(c, x))
    ensures forall x :: Mentions(Catch(c, e), x) <==> Mentions(c, x)
  {
    var d := Front(c);
    Snoc(d, Handler(e));
    Snoc(d, Flight(e));
    assert c == d + [Flight(e)] && Catch(c, e) == d + [Handler(e)];
    CaughtAreHandled(d, e);
    DepthSnoc(d, Flight(e));
    DepthSnoc(d, Handler(e));
    ItemsSnoc(d, Flight(e));
    ItemsSnoc(d, Handler(e));
    assert InFlight(d, e) <==> Flight(e) in d;
    hide Depth, InFlight, Mentions;
  }

  lemma DepthSnoc(c: Stack, i: Item)
    ensures forall x :: Depth(c + [i], x) == (if i == Handler(x) then 1 else 0) + Depth(c, x)
  {
    Snoc(c, i);
  }

  lemma ItemsSnoc(c: Stack, i: Item)
    ensures forall x :: InFlight(c + [i], x) <==> i == Flight(x) || InFlight(c, x)
    ensures forall x :: Mentions(c + [i], x) <==> i.e == x || Mentions(c, x)
  {}

  lemma EndHasCaught(c: Stack)
    requires CanEnd(c)
    ensures Caught(c) != []
  {}

  /** Leaving the innermost handler, for the exception x it handles: x is in flight exactly when it is what
      unwinds through the handler, and x leaves the caught list exactly when this was its last handler. */
  lemma EndKeepsNesting(c: Stack)
    requires Nested(c) && CanEnd(c)
    ensures Nested(End(c)) && Caught(c) != []
    ensures var x := Caught(c)[0];
            && Depth(c, x) > 0 && (InFlight(c, x) <==> Last(c) == Flight(x))
            && Caught(End(c)) == (if Depth(c, x) == 1 then Caught(c)[1..] else Caught(c))
            && (forall y :: Depth(End(c), y) == Depth(c, y) - if y == x then 1 else 0)
            && (forall y :: InFlight(End(c), y) <==> InFlight(c, y))
  {
    assert c == Front(c) + [Last(c)];
    if Last(c).Handler? {
      EndOfHandler(c);
    } else {
      EndThroughHandler(c);
    }
  }

  lemma EndThroughHandler(c: Stack)
    requires Nested(c) && c != [] && Last(c).Flight? && Front(c) != [] && Last(Front(c)).Handler?
    ensures Nested(End(c)) && Caught(c) != []
    ensures var x := Caught(c)[0];
            && Depth(c, x) > 0 && (InFlight(c, x) <==> Last(c) == Flight(x))
            && Caught(End(c)) == (if Depth(c, x) == 1 then Caught(c)[1..] else Caught(c))
            && (forall y :: Depth(End(c), y) == Depth(c, y) - if y == x then 1 else 0)
            && (forall y :: InFlight(End(c), y) <==> InFlight(c, y))
  {
    var d, f := Front(c), Last(c);
    assert c == d + [f] && d == Front(d) + [Last(d)];
    EndOfHandler(d);
    CaughtAreHandled(d, f.e);
    CaughtAreHandled(Front(d), f.e);
    CaughtNoDuplicates(d);
    if Depth(Front(d), f.e) > 0 {
      assert f.e == Last(d).e;
    }
    FlightKeepsNesting(Front(d), f.e);
  }

  lemma EndOfHandler(c: Stack)
    requires Nested(c) && c != [] && Last(c).Handler?
    ensures var x := Last(c).e;
            && Caught(c) != [] && Caught(c)[0] == x && !InFlight(c, x) && Depth(c, x) > 0
            && Caught(Front(c)) == (if Depth(c, x) == 1 then Caught(c)[1..] else Caught(c))
            && (forall y :: InFlight(Front(c), y) <==> InFlight(c, y))
  {
    assert c == Front(c) + [Last(c)];
    CaughtAreHandled(Front(c), Last(c).e);
  }

  lemma FlightKeepsNesting(c: Stack, e: Ptr)
    requires Nested(c) && !InFlight(c, e)
    requires Depth(c, e) > 0 ==> Caught(c) != [] && Caught(c)[0] == e
    ensures Nested(c + [Flight(e)]) && Caught(c + [Flight(e)]) == Caught(c)
    ensures forall x :: Depth(c + [Flight(e)], x) == Depth(c, x)
    ensures forall x :: InFlight(c + [Flight(e)], x) <==> x == e || InFlight(c, x)
  {
    Snoc(c, Flight(e));
  }
}
