/** The bookkeeping of exceptions (libcxxrt/exception.cc): signed handler counts, the caught list of each
    thread, reference counts, and dependent exceptions. It is proved against `ControlStack`: the counts and
    lists always say exactly what the program's control stacks say. */
module Exceptions {
  import opened ControlStack

  /** The fields of `__cxa_exception` and `__cxa_dependent_exception` that lifetime depends on. */
  datatype Exn = Exn(next: int, handlerCount: int, referenceCount: int, dependent: bool, primary: int)

  /** What the program is doing: a control stack for each thread, the live `exception_ptr`s by the primary
      exception each holds, and the live dependent exceptions with their primaries. */
  datatype Use = Use(ctl: seq<Stack>, holders: multiset<Ptr>, deps: map<Ptr, Ptr>)

  ghost predicate Active(u: Use, e: Ptr) {
    exists t :: 0 <= t < |u.ctl| && Mentions(u.ctl[t], e)
  }

  function Sharers(deps: map<Ptr, Ptr>, p: Ptr): set<Ptr> {
    set d | d in deps && deps[d] == p
  }

  lemma SharersAdded(deps: map<Ptr, Ptr>, d: Ptr, p: Ptr)
    requires d !in deps
    ensures forall y :: |Sharers(deps[d := p], y)| == |Sharers(deps, y)| + if y == p then 1 else 0
  {
    forall y: Ptr ensures Sharers(deps[d := p], y) == if y == p then Sharers(deps, y) + {d} else Sharers(deps, y) {}
  }

  lemma SharersDropped(deps: map<Ptr, Ptr>, d: Ptr)
    requires d in deps
    ensures |Sharers(deps, deps[d])| > 0
    ensures forall y :: |Sharers(deps - {d}, y)| == |Sharers(deps, y)| - if y == deps[d] then 1 else 0
  {
    assert d in Sharers(deps, deps[d]);
    forall y: Ptr ensures Sharers(deps - {d}, y) == if y == deps[d] then Sharers(deps, y) - {d} else Sharers(deps, y) {}
  }

  lemma NotSharedAmongSharers(u: Use, d: Ptr)
    requires Conforming(u) && d in u.deps
    ensures Sharers(u.deps, d) == Sharers(u.deps - {d}, d) == {}
  {}

  /** The reasons a primary exception has to live: being in flight or caught, the `exception_ptr`s that
      hold it, and the dependent exceptions that share it. */
  ghost function Refs(u: Use, p: Ptr): nat {
    (if Active(u, p) then 1 else 0) + u.holders[p] + |Sharers(u.deps, p)|
  }

  ghost predicate Live(u: Use, e: Ptr) {
    if e in u.deps then Active(u, e) else Refs(u, e) > 0
  }

  ghost predicate Conforming(u: Use) {
    && (forall t :: 0 <= t < |u.ctl| ==> Nested(u.ctl[t]))
    && (forall t, v, e :: 0 <= t < |u.ctl| && 0 <= v < |u.ctl| && Mentions(u.ctl[t], e) && Mentions(u.ctl[v], e) ==> t == v)
    && (forall d :: d in u.deps ==> Active(u, d) && u.deps[d] !in u.deps && u.holders[d] == 0)
  }

  /** Negative while the exception is in flight out of its own handlers. */
  function HandlerCount(c: Stack, e: Ptr): int {
    if InFlight(c, e) then -(Depth(c, e) as int) else Depth(c, e)
  }

  /** The list from `head` through `next` is exactly `list`, and ends. */
  ghost predicate Chain(exns: map<Ptr, Exn>, head: int, list: seq<Ptr>)
    decreases |list|
  {
    if list == [] then head == 0
    else head == list[0] && list[0] in exns && Chain(exns, exns[list[0]].next, list[1..])
  }

  /** Each thread's list holds exactly the exceptions with active handlers there, innermost first. */
  ghost predicate ListsRight(exns: map<Ptr, Exn>, caught: seq<int>, u: Use) {
    |caught| == |u.ctl| && forall t :: 0 <= t < |u.ctl| ==> Chain(exns, caught[t], Caught(u.ctl[t]))
  }

  ghost predicate CountRightAt(exns: map<Ptr, Exn>, u: Use, t: int, e: Ptr) {
    0 <= t < |u.ctl| && Mentions(u.ctl[t], e) ==> e in exns && exns[e].handlerCount == HandlerCount(u.ctl[t], e)
  }

  ghost predicate IdleCountAt(exns: map<Ptr, Exn>, u: Use, e: Ptr) {
    e in exns && !Active(u, e) ==> exns[e].handlerCount == 0
  }

  ghost predicate CountsRight(exns: map<Ptr, Exn>, u: Use) {
    (forall t, e :: CountRightAt(exns, u, t, e)) && (forall e :: IdleCountAt(exns, u, e))
  }

  /** An exception is allocated exactly while it is live, and a primary's reference count is its reasons
      to live. */
  ghost predicate RefsRightAt(exns: map<Ptr, Exn>, u: Use, e: Ptr) {
    && (e in exns <==> Live(u, e))
    && (e in exns ==> exns[e].dependent == (e in u.deps))
    && (e in exns && e in u.deps ==> exns[e].primary == u.deps[e])
    && (e in exns && e !in u.deps ==> exns[e].referenceCount == Refs(u, e))
  }

  ghost predicate RefsRight(exns: map<Ptr, Exn>, u: Use) {
    forall e :: RefsRightAt(exns, u, e)
  }

  ghost predicate Refines(exns: map<Ptr, Exn>, caught: seq<int>, u: Use) {
    Conforming(u) && ListsRight(exns, caught, u) && CountsRight(exns, u) && RefsRight(exns, u)
  }

  // ---------------------------------------------------------------- lists

  lemma {:induction false} ChainFrame(before: map<Ptr, Exn>, after: map<Ptr, Exn>, head: int, list: seq<Ptr>)
    requires Chain(before, head, list)
    requires forall e :: e in list && e in before ==> e in after && after[e].next == before[e].next
    ensures Chain(after, head, list)
    decreases |list|
  {
    if list != [] {
      assert list[0] in list;
      assert forall e :: e in list[1..] ==> e in list;
      ChainFrame(before, after, before[list[0]].next, list[1..]);
    }
  }

  // ---------------------------------------------------------------- moves of one thread

  function Move(u: Use, t: nat, c: Stack): Use
    requires t < |u.ctl|
  {
    u.(ctl := u.ctl[t := c])
  }

  lemma ActiveAfterMove(u: Use, t: nat, c: Stack, e: Ptr)
    requires t < |u.ctl| && Conforming(u) && (Mentions(c, e) ==> forall v :: 0 <= v < |u.ctl| && v != t ==> !Mentions(u.ctl[v], e))
    ensures Mentions(u.ctl[t], e) || Mentions(c, e) ==> (Active(Move(u, t, c), e) <==> Mentions(c, e))
    ensures !Mentions(u.ctl[t], e) && !Mentions(c, e) ==> (Active(Move(u, t, c), e) <==> Active(u, e))
  {
    var w := Move(u, t, c);
    if Active(u, e) {
      var v :| 0 <= v < |u.ctl| && Mentions(u.ctl[v], e);
      assert v != t ==> Mentions(w.ctl[v], e);
    }
    if Mentions(c, e) { assert Mentions(w.ctl[t], e); }
  }

  /** A move that mentions the same exceptions leaves every reason to live as it was. */
  lemma SameMentions(u: Use, t: nat, c: Stack)
    requires t < |u.ctl| && Conforming(u) && Nested(c)
    requires forall e :: Mentions(c, e) <==> Mentions(u.ctl[t], e)
    ensures Conforming(Move(u, t, c))
    ensures forall e :: Active(Move(u, t, c), e) <==> Active(u, e)
    ensures forall e :: Refs(Move(u, t, c), e) == Refs(u, e)
  {
    var w := Move(u, t, c);
    forall e: Ptr ensures Active(w, e) <==> Active(u, e) {
      if Mentions(u.ctl[t], e) { assert Mentions(w.ctl[t], e); }
      ActiveAfterMove(u, t, c, e);
    }
  }

  /** Exceptions other than `e` keep their links. */
  lemma OtherListsKept(exns: map<Ptr, Exn>, caught: seq<int>, u: Use, t: nat, e: Ptr, x: Exn)
    requires Conforming(u) && ListsRight(exns, caught, u) && t < |u.ctl| && e in exns
    requires Mentions(u.ctl[t], e)
    ensures forall v :: 0 <= v < |u.ctl| && v != t ==> Chain(exns[e := x], caught[v], Caught(u.ctl[v]))
    ensures x.next == exns[e].next || e !in Caught(u.ctl[t]) ==> Chain(exns[e := x], caught[t], Caught(u.ctl[t]))
  {
    forall v | 0 <= v < |u.ctl| && v != t ensures Chain(exns[e := x], caught[v], Caught(u.ctl[v])) {
      CaughtAreHandled(u.ctl[v], e);
      ChainFrame(exns, exns[e := x], caught[v], Caught(u.ctl[v]));
    }
    if x.next == exns[e].next || e !in Caught(u.ctl[t]) {
      ChainFrame(exns, exns[e := x], caught[t], Caught(u.ctl[t]));
    }
  }

  /** A step that touches only links and handler counts of the same exceptions keeps the references right. */
  lemma SameRefs(exns: map<Ptr, Exn>, e: Ptr, x: Exn, u: Use, w: Use)
    requires RefsRight(exns, u) && e in exns && w.deps == u.deps
    requires x.dependent == exns[e].dependent && x.primary == exns[e].primary && x.referenceCount == exns[e].referenceCount
    requires forall y :: Active(w, y) <==> Active(u, y)
    requires forall y :: Refs(w, y) == Refs(u, y)
    ensures RefsRight(exns[e := x], w)
  {
    var n := exns[e := x];
    forall y: Ptr ensures RefsRightAt(n, w, y) { assert RefsRightAt(exns, u, y); }
  }

  /** A step of thread t that changes the handler count of `e` alone. */
  lemma CountsAfter(exns: map<Ptr, Exn>, e: Ptr, x: Exn, u: Use, t: nat, c: Stack)
    requires Conforming(u) && CountsRight(exns, u) && t < |u.ctl| && e in exns
    requires Mentions(c, e) && Mentions(u.ctl[t], e)
    requires x.handlerCount == HandlerCount(c, e)
    requires forall y :: y != e && Mentions(c, y) ==> Mentions(u.ctl[t], y) && HandlerCount(c, y) == HandlerCount(u.ctl[t], y)
    requires forall y :: Active(Move(u, t, c), y) <==> Active(u, y)
    ensures CountsRight(exns[e := x], Move(u, t, c))
  {
    var n, w := exns[e := x], Move(u, t, c);
    forall v: int, y: Ptr ensures CountRightAt(n, w, v, y) {
      assert CountRightAt(exns, u, v, y);
    }
    forall y: Ptr ensures IdleCountAt(n, w, y) {
      assert IdleCountAt(exns, u, y);
      assert Mentions(w.ctl[t], e);
    }
  }

  lemma CatchLists(exns: map<Ptr, Exn>, caught: seq<int>, u: Use, t: nat, e: Ptr, x: Exn)
    requires Refines(exns, caught, u) && t < |u.ctl| && CanCatch(u.ctl[t], e) && e in exns
    requires x.next == if exns[e].handlerCount == 0 then caught[t] else exns[e].next
    ensures ListsRight(exns[e := x], if exns[e].handlerCount == 0 then caught[t := e] else caught,
                       Move(u, t, Catch(u.ctl[t], e)))
  {
    var c := u.ctl[t];
    assert Mentions(c, e) && CountRightAt(exns, u, t, e);
    CatchKeepsNesting(c, e);
    CaughtAreHandled(c, e);
    OtherListsKept(exns, caught, u, t, e, x);
    assert ([e] + Caught(c))[1..] == Caught(c);
  }

  lemma CatchRefines(exns: map<Ptr, Exn>, caught: seq<int>, u: Use, t: nat, e: Ptr, x: Exn)
    requires Refines(exns, caught, u) && t < |u.ctl| && CanCatch(u.ctl[t], e) && e in exns
    requires var n := exns[e].handlerCount;
             x == exns[e].(next := if n == 0 then caught[t] else exns[e].next, handlerCount := if n < 0 then -n + 1 else n + 1)
    ensures Refines(exns[e := x], if exns[e].handlerCount == 0 then caught[t := e] else caught,
                    Move(u, t, Catch(u.ctl[t], e)))
  {
    var c, c' := u.ctl[t], Catch(u.ctl[t], e);
    assert Mentions(c, e) && CountRightAt(exns, u, t, e);
    CatchLists(exns, caught, u, t, e, x);
    CatchKeepsNesting(c, e);
    SameMentions(u, t, c');
    CountsAfter(exns, e, x, u, t, c');
    SameRefs(exns, e, x, u, Move(u, t, c'));
  }

  // ---------------------------------------------------------------- releasing

  /** `releaseException` on a primary exception, and on either kind. */
  function ReleasedPrimary(exns: map<Ptr, Exn>, p: Ptr): map<Ptr, Exn>
    requires p in exns
  {
    if exns[p].referenceCount == 1 then exns - {p}
    else exns[p := exns[p].(referenceCount := exns[p].referenceCount - 1)]
  }

  ghost predicate Releasable(exns: map<Ptr, Exn>, e: Ptr) {
    e in exns && (exns[e].dependent ==> exns[e].primary != e && exns[e].primary > 0
                                        && exns[e].primary in exns && !exns[exns[e].primary].dependent)
  }

  ghost function Released(exns: map<Ptr, Exn>, e: Ptr): map<Ptr, Exn>
    requires Releasable(exns, e)
  {
    if exns[e].dependent then ReleasedPrimary(exns, exns[e].primary) - {e} else ReleasedPrimary(exns, e)
  }

  /** What survives a release keeps its links and counts. */
  lemma ReleaseFrame(exns: map<Ptr, Exn>, e: Ptr)
    requires Releasable(exns, e)
    ensures forall y :: y in Released(exns, e) ==>
              y in exns && Released(exns, e)[y] == exns[y].(referenceCount := Released(exns, e)[y].referenceCount)
  {}

  /** One reason fewer for a primary exception: it is freed exactly when that was the last. */
  lemma PrimaryReleased(exns: map<Ptr, Exn>, u: Use, w: Use, p: Ptr)
    requires RefsRight(exns, u) && p in exns && p !in u.deps && w.deps == u.deps
    requires Refs(w, p) == Refs(u, p) - 1
    requires forall y :: y != p ==> (Active(w, y) <==> Active(u, y)) && Refs(w, y) == Refs(u, y)
    ensures RefsRight(ReleasedPrimary(exns, p), w)
  {
    forall y: Ptr ensures RefsRightAt(ReleasedPrimary(exns, p), w, y) { assert RefsRightAt(exns, u, y); }
  }

  /** A dependent exception that is left is freed, and its primary has one reason fewer. */
  lemma DependentReleased(exns: map<Ptr, Exn>, u: Use, w: Use, d: Ptr)
    requires RefsRight(exns, u) && Conforming(u) && d in exns && d in u.deps && w.deps == u.deps - {d}
    requires !Live(w, d) && Refs(u, u.deps[d]) > 0 && Refs(w, u.deps[d]) == Refs(u, u.deps[d]) - 1
    requires forall y :: y != d ==> (Active(w, y) <==> Active(u, y)) && (y != u.deps[d] ==> Refs(w, y) == Refs(u, y))
    ensures Releasable(exns, d) && RefsRight(Released(exns, d), w)
  {
    var p := u.deps[d];
    assert RefsRightAt(exns, u, p) && RefsRightAt(exns, u, d);
    forall y: Ptr ensures RefsRightAt(Released(exns, d), w, y) {
      assert RefsRightAt(exns, u, y);
      DependentReleasedAt(exns, u, w, d, y);
    }
  }

  lemma DependentReleasedAt(exns: map<Ptr, Exn>, u: Use, w: Use, d: Ptr, y: Ptr)
    requires Releasable(exns, d) && exns[d].dependent && d in u.deps && u.deps[d] !in u.deps
    requires exns[d].primary == u.deps[d] && w.deps == u.deps - {d} && !Live(w, d)
    requires RefsRightAt(exns, u, y)
    requires y != d ==> (Active(w, y) <==> Active(u, y)) && Refs(w, y) == Refs(u, y) - if y == u.deps[d] then 1 else 0
    ensures RefsRightAt(Released(exns, d), w, y)
  {}

  // ---------------------------------------------------------------- leaving a handler

  /** Control stacks after thread t leaves its innermost handler: a dependent exception with neither handler
      nor flight left is gone. */
  function Ended(u: Use, t: nat): Use
    requires t < |u.ctl| && CanEnd(u.ctl[t]) && Caught(u.ctl[t]) != []
  {
    var x, c := Caught(u.ctl[t])[0], End(u.ctl[t]);
    Use(u.ctl[t := c], u.holders, if Mentions(c, x) then u.deps else u.deps - {x})
  }

  lemma EndMentions(c: Stack, y: Ptr)
    requires Nested(c) && CanEnd(c)
    ensures Caught(c) != [] && Mentions(c, Caught(c)[0])
    ensures Mentions(End(c), y) ==> Mentions(c, y)
    ensures y != Caught(c)[0] ==> (Mentions(End(c), y) <==> Mentions(c, y)) && HandlerCount(End(c), y) == HandlerCount(c, y)
    ensures y == Caught(c)[0] ==> HandlerCount(c, y) != 0
    ensures y == Caught(c)[0] ==> (Mentions(End(c), y) <==> HandlerCount(c, y) < 0 || HandlerCount(c, y) > 1)
    ensures y == Caught(c)[0] ==>
              HandlerCount(End(c), y) == (if HandlerCount(c, y) < 0 then HandlerCount(c, y) + 1 else HandlerCount(c, y) - 1)
  {
    EndKeepsNesting(c);
    CaughtAreHandled(c, y);
    CaughtAreHandled(End(c), y);
    CaughtAreHandled(c, Caught(c)[0]);
  }

  /** The list of a thread whose innermost exception's last handler was left. */
  lemma EndLists(exns: map<Ptr, Exn>, caught: seq<int>, u: Use, t: nat, x: Exn)
    requires Conforming(u) && ListsRight(exns, caught, u) && t < |u.ctl| && CanEnd(u.ctl[t])
    requires Caught(u.ctl[t]) != [] && Caught(u.ctl[t])[0] in exns && x.next == exns[Caught(u.ctl[t])[0]].next
    ensures var e := Caught(u.ctl[t])[0];
            ListsRight(exns[e := x], if Depth(u.ctl[t], e) == 1 then caught[t := x.next] else caught, Ended(u, t))
  {
    var c := u.ctl[t];
    var e := Caught(c)[0];
    EndMentions(c, e);
    EndKeepsNesting(c);
    CaughtNoDuplicates(c);
    OtherListsKept(exns, caught, u, t, e, x);
    assert Chain(exns, exns[e].next, Caught(c)[1..]);
    ChainFrame(exns, exns[e := x], exns[e].next, Caught(c)[1..]);
  }

  /** The handler left was not the last, or the exception is in flight through it: it is not released. */
  lemma EndKeeps(exns: map<Ptr, Exn>, caught: seq<int>, u: Use, t: nat, x: Exn)
    requires Refines(exns, caught, u) && t < |u.ctl| && CanEnd(u.ctl[t])
    requires Caught(u.ctl[t]) != [] && Mentions(End(u.ctl[t]), Caught(u.ctl[t])[0]) && Caught(u.ctl[t])[0] in exns
    requires x == exns[Caught(u.ctl[t])[0]].(handlerCount := HandlerCount(End(u.ctl[t]), Caught(u.ctl[t])[0]))
    ensures var e := Caught(u.ctl[t])[0];
            Refines(exns[e := x], if Depth(u.ctl[t], e) == 1 then caught[t := x.next] else caught, Ended(u, t))
  {
    var c := u.ctl[t];
    var e := Caught(c)[0];
    EndKeepsNesting(c);
    EndLists(exns, caught, u, t, x);
    forall y: Ptr ensures (Mentions(End(c), y) <==> Mentions(c, y)) && (y != e ==> HandlerCount(End(c), y) == HandlerCount(c, y)) {
      EndMentions(c, y);
    }
    SameMentions(u, t, End(c));
    CountsAfter(exns, e, x, u, t, End(c));
    SameRefs(exns, e, x, u, Move(u, t, End(c)));
  }

  lemma EndedActive(u: Use, t: nat)
    requires Conforming(u) && t < |u.ctl| && CanEnd(u.ctl[t]) && Caught(u.ctl[t]) != []
    requires !Mentions(End(u.ctl[t]), Caught(u.ctl[t])[0])
    ensures var e, w := Caught(u.ctl[t])[0], Ended(u, t);
            && Conforming(w) && Active(u, e) && !Active(w, e)
            && forall y :: y != e ==> (Active(w, y) <==> Active(u, y))
  {
    var c := u.ctl[t];
    var e, w := Caught(c)[0], Ended(u, t);
    EndKeepsNesting(c);
    forall y: Ptr ensures Mentions(End(c), y) ==> Mentions(c, y) { EndMentions(c, y); }
    EndMentions(c, e);
    forall y: Ptr ensures Active(w, y) <==> y != e && Active(u, y) {
      EndMentions(c, y);
      ActiveAfterMove(u, t, End(c), y);
      assert Active(w, y) <==> Active(Move(u, t, End(c)), y);
    }
  }

  /** The reasons to live after the last handler of an exception not in flight is left. */
  lemma EndedReasons(u: Use, t: nat)
    requires Conforming(u) && t < |u.ctl| && CanEnd(u.ctl[t]) && Caught(u.ctl[t]) != []
    requires !Mentions(End(u.ctl[t]), Caught(u.ctl[t])[0])
    ensures var e, w := Caught(u.ctl[t])[0], Ended(u, t);
            && (e !in u.deps ==> Refs(w, e) == Refs(u, e) - 1 && forall y :: y != e ==> Refs(w, y) == Refs(u, y))
            && (e in u.deps ==> !Live(w, e) && Refs(u, u.deps[e]) > 0 && Refs(w, u.deps[e]) == Refs(u, u.deps[e]) - 1
                                && forall y :: y != e && y != u.deps[e] ==> Refs(w, y) == Refs(u, y))
  {
    hide Nested, Mentions, Caught, End, Active, Sharers;
    var e, w := Caught(u.ctl[t])[0], Ended(u, t);
    EndedActive(u, t);
    if e in u.deps {
      SharersDropped(u.deps, e);
      NotSharedAmongSharers(u, e);
    } else {
      assert w.deps == u.deps;
    }
  }

  lemma EndReleasesRefs(mid: map<Ptr, Exn>, u: Use, t: nat)
    requires Conforming(u) && RefsRight(mid, u) && t < |u.ctl| && CanEnd(u.ctl[t])
    requires Caught(u.ctl[t]) != [] && !Mentions(End(u.ctl[t]), Caught(u.ctl[t])[0]) && Caught(u.ctl[t])[0] in mid
    ensures Releasable(mid, Caught(u.ctl[t])[0]) && RefsRight(Released(mid, Caught(u.ctl[t])[0]), Ended(u, t))
  {
    var e := Caught(u.ctl[t])[0];
    EndedActive(u, t);
    EndedReasons(u, t);
    assert RefsRightAt(mid, u, e);
    if e in u.deps {
      DependentReleased(mid, u, Ended(u, t), e);
    } else {
      PrimaryReleased(mid, u, Ended(u, t), e);
    }
  }

  /** The counts after the handler is left, those of the exception it handled apart. */
  lemma EndedCounts(exns: map<Ptr, Exn>, u: Use, t: nat, e: Ptr, x: Exn)
    requires Conforming(u) && CountsRight(exns, u) && t < |u.ctl| && CanEnd(u.ctl[t])
    requires Caught(u.ctl[t]) != [] && e == Caught(u.ctl[t])[0] && !Mentions(End(u.ctl[t]), e) && x.handlerCount == 0
    ensures CountsRight(exns[e := x], Ended(u, t))
  {
    var n, w := exns[e := x], Ended(u, t);
    EndedActive(u, t);
    EndMentions(u.ctl[t], e);
    forall v: int, y: Ptr ensures CountRightAt(n, w, v, y) {
      EndMentions(u.ctl[t], y);
      assert CountRightAt(exns, u, v, y);
    }
    forall y: Ptr ensures IdleCountAt(n, w, y) { assert IdleCountAt(exns, u, y); }
  }

  /** The last handler of an exception not in flight is left: the exception leaves the list and is released. */
  lemma EndReleases(exns: map<Ptr, Exn>, caught: seq<int>, u: Use, t: nat, x: Exn)
    requires Refines(exns, caught, u) && t < |u.ctl| && CanEnd(u.ctl[t])
    requires Caught(u.ctl[t]) != [] && !Mentions(End(u.ctl[t]), Caught(u.ctl[t])[0]) && Caught(u.ctl[t])[0] in exns
    requires x == exns[Caught(u.ctl[t])[0]].(handlerCount := 0)
    ensures var e := Caught(u.ctl[t])[0];
            && Releasable(exns[e := x], e)
            && Refines(Released(exns[e := x], e), caught[t := x.next], Ended(u, t))
  {
    var e := Caught(u.ctl[t])[0];
    EndMentions(u.ctl[t], e);
    EndKeepsNesting(u.ctl[t]);
    EndedActive(u, t);
    EndLists(exns, caught, u, t, x);
    SameRefs(exns, e, x, u, u);
    EndReleasesRefs(exns[e := x], u, t);
    EndedCounts(exns, u, t, e, x);
    SurvivorsRight(exns[e := x], caught[t := x.next], Ended(u, t), e);
  }

  /** Lists and counts that are right before a release are right after it, for what is still active. */
  lemma SurvivorsRight(mid: map<Ptr, Exn>, caught: seq<int>, w: Use, e: Ptr)
    requires Releasable(mid, e) && RefsRight(Released(mid, e), w) && Conforming(w)
    requires ListsRight(mid, caught, w) && CountsRight(mid, w)
    ensures ListsRight(Released(mid, e), caught, w) && CountsRight(Released(mid, e), w)
  {
    var n := Released(mid, e);
    ReleaseFrame(mid, e);
    forall y | Active(w, y) ensures y in n { assert RefsRightAt(n, w, y); }
    forall v: int, y: Ptr ensures CountRightAt(n, w, v, y) { assert CountRightAt(mid, w, v, y); }
    forall y: Ptr ensures IdleCountAt(n, w, y) { assert IdleCountAt(mid, w, y); }
    forall v | 0 <= v < |w.ctl| ensures Chain(n, caught[v], Caught(w.ctl[v])) {
      forall y | y in Caught(w.ctl[v]) ensures y in n { CaughtAreHandled(w.ctl[v], y); assert Active(w, y); }
      ChainFrame(mid, n, caught[v], Caught(w.ctl[v]));
    }
  }

  // ---------------------------------------------------------------- taking flight

  lemma FlightActive(u: Use, t: nat, e: Ptr, w: Use)
    requires Conforming(u) && t < |u.ctl| && !Active(u, e) && w.ctl == u.ctl[t := Thrown(u.ctl[t], e)]
    ensures Nested(w.ctl[t]) && Caught(w.ctl[t]) == Caught(u.ctl[t]) && HandlerCount(w.ctl[t], e) == 0
    ensures forall y :: Mentions(w.ctl[t], y) <==> (y == e || Mentions(u.ctl[t], y))
    ensures forall y :: y != e ==> HandlerCount(w.ctl[t], y) == HandlerCount(u.ctl[t], y)
    ensures forall y :: Active(w, y) <==> (y == e || Active(u, y))
  {
    var c := u.ctl[t];
    assert !Mentions(c, e);
    CaughtAreHandled(c, e);
    FlightKeepsNesting(c, e);
    forall y: Ptr ensures Active(w, y) <==> (y == e || Active(u, y)) {
      if Active(u, y) {
        var v :| 0 <= v < |u.ctl| && Mentions(u.ctl[v], y);
        assert Mentions(w.ctl[v], y);
      }
      assert Mentions(w.ctl[t], e);
    }
  }

  /** A fresh exception on one stack keeps the stacks apart. */
  lemma FlightConforms(u: Use, t: nat, e: Ptr, w: Use)
    requires Conforming(u) && t < |u.ctl| && !Active(u, e) && w.ctl == u.ctl[t := Thrown(u.ctl[t], e)]
    requires w.holders == u.holders
    requires forall d :: d in w.deps ==> Active(w, d) && w.deps[d] !in w.deps && w.holders[d] == 0
    ensures Conforming(w)
  {
    FlightActive(u, t, e, w);
    forall a, b, y | 0 <= a < |w.ctl| && 0 <= b < |w.ctl| && Mentions(w.ctl[a], y) && Mentions(w.ctl[b], y)
      ensures a == b
    {
      if y == e {
        assert a != t ==> Active(u, e);
        assert b != t ==> Active(u, e);
      } else {
        assert Mentions(u.ctl[a], y) && Mentions(u.ctl[b], y);
      }
    }
  }

  /** A fresh exception in flight: lists and counts. */
  lemma FlightRight(exns: map<Ptr, Exn>, caught: seq<int>, u: Use, t: nat, e: Ptr, x: Exn, w: Use)
    requires Conforming(u) && ListsRight(exns, caught, u) && CountsRight(exns, u)
    requires t < |u.ctl| && e !in exns && !Active(u, e) && x.handlerCount == 0
    requires w.ctl == u.ctl[t := Thrown(u.ctl[t], e)]
    ensures ListsRight(exns[e := x], caught, w) && CountsRight(exns[e := x], w)
  {
    hide Nested, Caught, Active, Mentions, HandlerCount;
    FlightActive(u, t, e, w);
    var n := exns[e := x];
    forall v | 0 <= v < |w.ctl| ensures Chain(n, caught[v], Caught(w.ctl[v])) {
      ChainFrame(exns, n, caught[v], Caught(u.ctl[v]));
    }
    forall v: int, y: Ptr ensures CountRightAt(n, w, v, y) { assert CountRightAt(exns, u, v, y); }
    forall y: Ptr ensures IdleCountAt(n, w, y) { assert IdleCountAt(exns, u, y); }
  }

  /** One reason more for a primary exception. */
  lemma PrimaryGains(exns: map<Ptr, Exn>, u: Use, w: Use, p: Ptr)
    requires RefsRight(exns, u) && p in exns && p !in u.deps && w.deps == u.deps
    requires Refs(w, p) == Refs(u, p) + 1
    requires forall y :: y != p ==> (Active(w, y) <==> Active(u, y)) && Refs(w, y) == Refs(u, y)
    ensures RefsRight(exns[p := exns[p].(referenceCount := exns[p].referenceCount + 1)], w)
  {
    var n := exns[p := exns[p].(referenceCount := exns[p].referenceCount + 1)];
    forall y: Ptr ensures RefsRightAt(n, w, y) { assert RefsRightAt(exns, u, y); }
  }

  /** Changing one exception's reference count is no matter for lists and counts. */
  lemma SameListsAndCounts(exns: map<Ptr, Exn>, caught: seq<int>, u: Use, w: Use, p: Ptr, refs: int)
    requires ListsRight(exns, caught, u) && CountsRight(exns, u) && p in exns && w.ctl == u.ctl
    ensures ListsRight(exns[p := exns[p].(referenceCount := refs)], caught, w)
    ensures CountsRight(exns[p := exns[p].(referenceCount := refs)], w)
  {
    var n := exns[p := exns[p].(referenceCount := refs)];
    forall v | 0 <= v < |w.ctl| ensures Chain(n, caught[v], Caught(w.ctl[v])) {
      ChainFrame(exns, n, caught[v], Caught(u.ctl[v]));
    }
    forall v: int, y: Ptr ensures CountRightAt(n, w, v, y) { assert CountRightAt(exns, u, v, y); }
    forall y: Ptr ensures IdleCountAt(n, w, y) {
      assert IdleCountAt(exns, u, y);
      assert Active(w, y) <==> Active(u, y);
    }
  }

  /** `throw`. */
  lemma ThrowRefines(exns: map<Ptr, Exn>, caught: seq<int>, u: Use, t: nat, e: Ptr)
    requires Refines(exns, caught, u) && t < |u.ctl| && e !in exns
    ensures Refines(exns[e := Exn(0, 0, 1, false, 0)], caught, Move(u, t, Thrown(u.ctl[t], e)))
  {
    var w := Move(u, t, Thrown(u.ctl[t], e));
    assert RefsRightAt(exns, u, e);
    FlightActive(u, t, e, w);
    FlightConforms(u, t, e, w);
    FlightRight(exns, caught, u, t, e, Exn(0, 0, 1, false, 0), w);
    var n := exns[e := Exn(0, 0, 1, false, 0)];
    forall y: Ptr ensures RefsRightAt(n, w, y) {
      assert RefsRightAt(exns, u, y);
    }
  }

  /** `throw;`: the count changes sign and the exception takes flight again. */
  lemma RethrowRefines(exns: map<Ptr, Exn>, caught: seq<int>, u: Use, t: nat, e: Ptr, x: Exn)
    requires Refines(exns, caught, u) && t < |u.ctl| && CanRethrow(u.ctl[t]) && e == Caught(u.ctl[t])[0] && e in exns
    requires x == exns[e].(handlerCount := -exns[e].handlerCount)
    ensures exns[e].handlerCount > 0
    ensures Refines(exns[e := x], caught, Move(u, t, Rethrown(u.ctl[t])))
  {
    var c := u.ctl[t];
    CaughtAreHandled(c, e);
    FlightKeepsNesting(c, e);
    assert Mentions(c, e) && Mentions(Rethrown(c), e) && CountRightAt(exns, u, t, e);
    SameMentions(u, t, Rethrown(c));
    CountsAfter(exns, e, x, u, t, Rethrown(c));
    SameRefs(exns, e, x, u, Move(u, t, Rethrown(c)));
    OtherListsKept(exns, caught, u, t, e, x);
  }

  /** What the source asserts of a rethrow, that the count is positive, holds exactly when the innermost
      caught exception is not in flight already. */
  lemma RethrowAssertionIff(exns: map<Ptr, Exn>, caught: seq<int>, u: Use, t: nat)
    requires Refines(exns, caught, u) && t < |u.ctl|
    ensures Caught(u.ctl[t]) == [] <==> caught[t] == 0
    ensures Caught(u.ctl[t]) != [] ==>
              caught[t] == Caught(u.ctl[t])[0] && Caught(u.ctl[t])[0] in exns
              && (exns[Caught(u.ctl[t])[0]].handlerCount > 0 <==> CanRethrow(u.ctl[t]))
  {
    var c := u.ctl[t];
    if Caught(c) != [] {
      var e := Caught(c)[0];
      CaughtAreHandled(c, e);
      assert Mentions(c, e) && CountRightAt(exns, u, t, e);
    }
  }

  // ---------------------------------------------------------------- exception_ptr

  /** An address is allocated exactly while it is live; what an `exception_ptr` holds is a live primary. */
  lemma LiveIsAllocated(exns: map<Ptr, Exn>, caught: seq<int>, u: Use, p: Ptr)
    requires Refines(exns, caught, u)
    ensures p in exns <==> Live(u, p)
    ensures u.holders[p] > 0 ==> p in exns && !exns[p].dependent && p !in u.deps
  {
    assert RefsRightAt(exns, u, p);
  }

  lemma HolderReasons(u: Use, w: Use, p: Ptr, n: int)
    requires Conforming(u) && p !in u.deps && w.ctl == u.ctl && w.deps == u.deps
    requires w.holders[p] == u.holders[p] + n && forall y :: y != p ==> w.holders[y] == u.holders[y]
    ensures Conforming(w) && Refs(w, p) == Refs(u, p) + n
    ensures forall y :: Active(w, y) <==> Active(u, y)
    ensures forall y :: y != p ==> Refs(w, y) == Refs(u, y)
  {
    assert forall y :: Active(w, y) <==> Active(u, y);
  }

  /** One `exception_ptr` more. */
  lemma HolderRefines(exns: map<Ptr, Exn>, caught: seq<int>, u: Use, p: Ptr)
    requires Refines(exns, caught, u) && p in exns && p !in u.deps
    ensures Refines(exns[p := exns[p].(referenceCount := exns[p].referenceCount + 1)], caught,
                    Use(u.ctl, u.holders + multiset{p}, u.deps))
  {
    var w := Use(u.ctl, u.holders + multiset{p}, u.deps);
    HolderReasons(u, w, p, 1);
    PrimaryGains(exns, u, w, p);
    SameListsAndCounts(exns, caught, u, w, p, exns[p].referenceCount + 1);
  }

  /** One `exception_ptr` fewer. */
  lemma HolderReleases(exns: map<Ptr, Exn>, caught: seq<int>, u: Use, p: Ptr)
    requires Refines(exns, caught, u) && u.holders[p] > 0
    ensures p in exns && p !in u.deps && Releasable(exns, p)
    ensures Refines(Released(exns, p), caught, Use(u.ctl, u.holders - multiset{p}, u.deps))
  {
    var w := Use(u.ctl, u.holders - multiset{p}, u.deps);
    assert RefsRightAt(exns, u, p);
    HolderReasons(u, w, p, -1);
    PrimaryReleased(exns, u, w, p);
    SameListsAndCounts(exns, caught, u, w, p, exns[p].referenceCount);
    assert exns[p := exns[p].(referenceCount := exns[p].referenceCount)] == exns;
    SurvivorsRight(exns, caught, w, p);
  }

  lemma DependentReasons(u: Use, t: nat, p: Ptr, d: Ptr, w: Use)
    requires Conforming(u) && t < |u.ctl| && p !in u.deps && d !in u.deps && p != d && !Active(u, d) && Refs(u, d) == 0
    requires w == Use(u.ctl[t := Thrown(u.ctl[t], d)], u.holders, u.deps[d := p])
    ensures Conforming(w) && Active(w, d) && Refs(w, p) == Refs(u, p) + 1
    ensures forall y :: y != d ==> (Active(w, y) <==> Active(u, y))
    ensures forall y :: y != d && y != p ==> Refs(w, y) == Refs(u, y)
  {
    hide Nested, Mentions, Caught, Depth, InFlight, Active;
    FlightActive(u, t, d, w);
    SharersAdded(u.deps, d, p);
    assert w.holders[d] == 0;
    forall x | x in u.deps ensures u.deps[x] != d { assert x in Sharers(u.deps, u.deps[x]); }
    FlightConforms(u, t, d, w);
  }

  lemma DependentRefsAt(exns: map<Ptr, Exn>, u: Use, p: Ptr, d: Ptr, w: Use, y: Ptr)
    requires RefsRightAt(exns, u, y) && p in exns && p !in u.deps && d !in exns && w.deps == u.deps[d := p]
    requires Active(w, d)
    requires y != d ==> (Active(w, y) <==> Active(u, y)) && Refs(w, y) == Refs(u, y) + if y == p then 1 else 0
    ensures RefsRightAt(exns[d := Exn(0, 0, 0, true, p)][p := exns[p].(referenceCount := exns[p].referenceCount + 1)], w, y)
  {}

  /** A dependent exception takes flight for the primary that an `exception_ptr` holds. */
  lemma DependentRefines(exns: map<Ptr, Exn>, caught: seq<int>, u: Use, t: nat, p: Ptr, d: Ptr)
    requires Refines(exns, caught, u) && t < |u.ctl| && u.holders[p] > 0 && d !in exns
    ensures p in exns && p !in u.deps && p != d
    ensures Refines(exns[d := Exn(0, 0, 0, true, p)][p := exns[p].(referenceCount := exns[p].referenceCount + 1)], caught,
                    Use(u.ctl[t := Thrown(u.ctl[t], d)], u.holders, u.deps[d := p]))
  {
    var w := Use(u.ctl[t := Thrown(u.ctl[t], d)], u.holders, u.deps[d := p]);
    var mid := exns[d := Exn(0, 0, 0, true, p)];
    assert RefsRightAt(exns, u, d) && RefsRightAt(exns, u, p);
    DependentReasons(u, t, p, d, w);
    var n := mid[p := exns[p].(referenceCount := exns[p].referenceCount + 1)];
    forall y: Ptr ensures RefsRightAt(n, w, y) {
      assert RefsRightAt(exns, u, y);
      DependentRefsAt(exns, u, p, d, w, y);
    }
    FlightRight(exns, caught, u, t, d, Exn(0, 0, 0, true, p), w);
    SameListsAndCounts(mid, caught, w, w, p, exns[p].referenceCount + 1);
  }
}
