/** The thread ring and the round-robin scheduler (kernel/proc/thread.cpp, kernel/proc/scheduler.cpp). */
module Scheduler {
  import opened ContextSwitch

  const KERNEL_STACKS := 0xE000_0000

  /** Where a thread is in memory: its stack and saved stack pointer, and its `stack_ptr` field. */
  datatype Place = Place(home: Home, stackPtrCell: int)

  class Thread {
    const id: int
    const place: Place
    const entry: int
    var prev: Thread?
    var next: Thread?

    constructor (id: int, place: Place, entry: int)
      ensures this.id == id && this.place == place && this.entry == entry
      ensures prev == null && next == null
    {
      this.id, this.place, this.entry := id, place, entry;
      prev, next := null, null;
    }
  }

  /** The index after `i` on a ring of `n`. */
  function Succ(i: nat, n: nat): nat {
    if i + 1 < n then i + 1 else 0
  }

  predicate Part(p: Place, a: int) { Belongs(p.home, a) || a == p.stackPtrCell }

  function HomesOf(places: seq<Place>): seq<Home> {
    seq(|places|, i requires 0 <= i < |places| => places[i].home)
  }

  ghost predicate PlacesApart(places: seq<Place>) {
    && Apart(HomesOf(places))
    && forall i, j :: 0 <= i < |places| && 0 <= j < |places| ==>
         !Belongs(places[i].home, places[j].stackPtrCell) && (i != j ==> places[i].stackPtrCell != places[j].stackPtrCell)
  }

  lemma PartsApart(places: seq<Place>, i: nat, j: nat, a: int)
    requires PlacesApart(places) && i < |places| && j < |places| && i != j && Part(places[i], a)
    ensures !Part(places[j], a)
  {
    assert HomesOf(places)[i] == places[i].home && HomesOf(places)[j] == places[j].home;
    if Belongs(places[i].home, a) { HomesApart(HomesOf(places), i, j, a); }
  }

  lemma LastPlaceIsSound(places: seq<Place>)
    requires PlacesApart(places) && places != []
    ensures var p := places[|places| - 1];
            && (p.home.espCell + 4 <= p.home.stack || p.home.Top() <= p.home.espCell)
            && !Belongs(p.home, p.stackPtrCell)
  {
    assert HomesOf(places)[|places| - 1] == places[|places| - 1].home;
  }

  /** Every thread but `busy` is parked with its context. */
  ghost predicate AllParked(mem: Memory, places: seq<Place>, parked: seq<Context>, busy: int) {
    forall i: nat :: i < |places| && i < |parked| && i != busy ==> Parked(mem, places[i].home, parked[i])
  }

  /** The cells the first dispatch reads name the threads' saved registers. */
  ghost predicate SeedsReady(mem: Memory, places: seq<Place>, parked: seq<Context>) {
    forall i: nat :: i < |places| && i < |parked| ==> Read(mem, places[i].stackPtrCell) == parked[i].esp - SAVED
  }

  /** Writing only the parts of a new thread parks it and leaves the others as they were. */
  lemma SeedingKeeps(places: seq<Place>, place: Place, before: Memory, after: Memory, parked: seq<Context>, c: Context, busy: int)
    requires PlacesApart(places + [place]) && AllParked(before, places, parked, busy) && |parked| == |places| && busy < |places|
    requires forall a :: !Part(place, a) ==> Read(after, a) == Read(before, a)
    requires Parked(after, place.home, c) && Read(after, place.stackPtrCell) == c.esp - SAVED
    ensures AllParked(after, places + [place], parked + [c], busy)
    ensures SeedsReady(before, places, parked) ==> SeedsReady(after, places + [place], parked + [c])
  {
    var all := places + [place];
    forall i: nat, a | i < |places| && Part(places[i], a) ensures Read(after, a) == Read(before, a) {
      assert all[i] == places[i];
      PartsApart(all, i, |places|, a);
    }
    forall i: nat | i < |places|
      ensures i != busy ==> Parked(after, places[i].home, parked[i])
      ensures Read(after, places[i].stackPtrCell) == Read(before, places[i].stackPtrCell)
    {
      assert Part(places[i], places[i].stackPtrCell);
      if i != busy {
        forall a | Belongs(places[i].home, a) ensures Read(after, a) == Read(before, a) { assert Part(places[i], a); }
        ParkedFrame(before, after, places[i].home, parked[i]);
      }
    }
  }

  // ---------------------------------------------------------------- the call of the switch, on values

  /** Room on the running thread's stack for the call and the four registers. */
  predicate HasRoom(m: Machine, h: Home) { h.stack + 28 <= m.esp <= h.Top() }

  /** The machine as the switch is entered. */
  function Entered(m: Machine, rEsp: int, last: int, next: int, ret: int): Machine {
    var mem := if rEsp > KERNEL_STACKS then m.mem[last := rEsp] else m.mem;
    m.(esp := m.esp - 12, mem := mem[m.esp - 4 := next][m.esp - 8 := last][m.esp - 12 := ret])
  }

  lemma EnteredRuns(s: System, homes: seq<Home>, next: nat, rEsp: int, ret: int)
    requires ContextSwitch.Valid(s, homes) && next < |homes| && next != s.running && HasRoom(s.m, homes[s.running])
    ensures var m := Entered(s.m, rEsp, homes[s.running].espCell, homes[next].espCell, ret);
            && Runs(s, s.(m := m), homes) && Calling(m, homes[s.running])
            && Read(m.mem, m.esp + 8) == homes[next].espCell
            && CallContext(m) == Context(s.m.ebp, s.m.ebx, s.m.esi, s.m.edi, s.m.esp - 8, ret)
  {
    var m := Entered(s.m, rEsp, homes[s.running].espCell, homes[next].espCell, ret);
    forall i: nat, a: int | i < |homes| && i != s.running && Belongs(homes[i], a)
      ensures Read(m.mem, a) == Read(s.m.mem, a)
    {
      HomesApart(homes, i, s.running, a);
    }
  }

  /** The switch of `Scheduler::next`, on values: the next thread gets its context back, and the running
      one is parked with what it called with. */
  lemma SwitchResult(m0: Machine, places: seq<Place>, parked: seq<Context>, cur: nat, next: nat, rEsp: int, ret: int)
    requires PlacesApart(places) && AllParked(m0.mem, places, parked, cur) && |parked| == |places| && cur < |places| && next < |places| && next != cur
    requires HasRoom(m0, places[cur].home)
    ensures var m := Entered(m0, rEsp, places[cur].home.espCell, places[next].home.espCell, ret);
            var t := Resumed(Suspend(m), places[next].home.espCell);
            && AllParked(t.mem, places, parked[cur := Context(m0.ebp, m0.ebx, m0.esi, m0.edi, m0.esp - 8, ret)], next)
            && ContextOf(t) == parked[next]
  {
    hide PlacesApart, AllParked, HasRoom, Entered, Suspend, Resumed, Calling, CallContext, ContextSwitch.Valid, Runs, Parked;
    var homes, s := HomesOf(places), System(m0, cur, parked);
    assert homes[cur] == places[cur].home && homes[next] == places[next].home;
    AsSystem(m0, places, parked, cur);
    var m := Entered(m0, rEsp, homes[cur].espCell, homes[next].espCell, ret);
    var t := System(Resumed(Suspend(m), homes[next].espCell), next, parked[cur := CallContext(m)]);
    EnteredRuns(s, homes, next, rEsp, ret);
    RunsKeepsValid(s, s.(m := m), homes);
    SwitchRestores(s.(m := m), t, homes, next);
    FromSystem(t, places);
  }

  lemma AsSystem(m: Machine, places: seq<Place>, parked: seq<Context>, cur: nat)
    requires PlacesApart(places) && AllParked(m.mem, places, parked, cur) && |parked| == |places| && cur < |places|
    ensures ContextSwitch.Valid(System(m, cur, parked), HomesOf(places))
  {
    hide Apart, Parked;
  }

  lemma FromSystem(s: System, places: seq<Place>)
    requires ContextSwitch.Valid(s, HomesOf(places)) && |s.parked| == |places|
    ensures AllParked(s.m.mem, places, s.parked, s.running)
  {
    hide Apart, Parked;
    forall i: nat | i < |places| && i != s.running ensures Parked(s.m.mem, places[i].home, s.parked[i]) {
      assert HomesOf(places)[i] == places[i].home;
    }
  }

  /** The two words the first dispatch pushes overlap no thread. */
  ghost predicate OnOtherStack(m: Machine, places: seq<Place>) {
    forall i: nat, a: int :: i < |places| && Part(places[i], a) ==> !Overlap(m.esp - 4, a) && !Overlap(m.esp - 8, a)
  }

  /** The first dispatch, on values. */
  lemma FirstResult(m0: Machine, places: seq<Place>, parked: seq<Context>, ret: int)
    requires OnOtherStack(m0, places) && AllParked(m0.mem, places, parked, -1) && |parked| == |places| > 0
    requires Read(m0.mem, places[0].stackPtrCell) == parked[0].esp - SAVED
    ensures var cell := places[0].stackPtrCell;
            var mem := m0.mem[m0.esp - 4 := cell][m0.esp - 8 := ret];
            && Read(mem, m0.esp - 8 + 4) == cell
            && ContextOf(Resumed(m0.(esp := m0.esp - 8, mem := mem), cell)) == parked[0]
            && Resumed(m0.(esp := m0.esp - 8, mem := mem), cell).mem == mem
            && AllParked(mem, places, parked, -1) && AllParked(mem, places, parked, 0)
  {
    var cell := places[0].stackPtrCell;
    var mem := m0.mem[m0.esp - 4 := cell][m0.esp - 8 := ret];
    forall i: nat, a | i < |places| && Part(places[i], a) ensures Read(mem, a) == Read(m0.mem, a) {}
    forall i: nat | i < |places| ensures Parked(mem, places[i].home, parked[i]) {
      forall a | Belongs(places[i].home, a) ensures Read(mem, a) == Read(m0.mem, a) { assert Part(places[i], a); }
      ParkedFrame(m0.mem, mem, places[i].home, parked[i]);
    }
    assert Part(places[0], cell) && Parked(mem, places[0].home, parked[0]);
  }

  // ---------------------------------------------------------------- the scheduler on values

  /** The machine, where the threads are, the contexts they are parked with, and the running one. */
  datatype View = View(m: Machine, places: seq<Place>, parked: seq<Context>, cur: nat, started: bool)

  /** The running thread runs on, to the machine `after`; or it is interrupted with stack pointer `rEsp` and
      `Scheduler::next` is called, `ret` being the address after the call of the switch. */
  datatype Event = Slice(after: Machine) | Tick(rEsp: int, ret: int)

  function Busy(v: View): int { if v.started then v.cur else -1 }

  ghost predicate Sound(v: View) {
    && PlacesApart(v.places) && |v.parked| == |v.places| && v.cur < |v.places|
    && AllParked(v.m.mem, v.places, v.parked, Busy(v))
    && (!v.started ==> v.cur == 0 && SeedsReady(v.m.mem, v.places, v.parked))
  }

  /** Memory of every thread but the busy one is untouched. */
  ghost predicate OthersUntouched(before: Memory, after: Memory, places: seq<Place>, busy: int) {
    forall i: nat, a: int :: i < |places| && i != busy && Part(places[i], a) ==> Read(after, a) == Read(before, a)
  }

  /** A slice stays off the other threads' memory. A tick needs room on the running thread's stack and another
      thread to go to; the first one comes on a stack that is no thread's. */
  ghost predicate Can(v: View, e: Event) {
    match e
    case Slice(after) => OthersUntouched(v.m.mem, after.mem, v.places, Busy(v))
    case Tick(_, _) =>
      v.cur < |v.places|
      && if v.started then |v.places| >= 2 && HasRoom(v.m, v.places[v.cur].home) else OnOtherStack(v.m, v.places)
  }

  /** A tick is possible with two threads and 28 bytes left on the running thread's stack; at first, on a stack
      that lies below all the threads' memory. */
  lemma TickIsPossible(v: View, rEsp: int, ret: int)
    requires v.cur < |v.places|
    ensures v.started && |v.places| >= 2 && v.places[v.cur].home.stack + 28 <= v.m.esp <= v.places[v.cur].home.stack + 4096 ==>
              Can(v, Tick(rEsp, ret))
    ensures !v.started && (forall i: nat, a: int :: i < |v.places| && Part(v.places[i], a) ==> v.m.esp <= a) ==>
              Can(v, Tick(rEsp, ret))
    ensures forall m: Machine :: m.mem == v.m.mem ==> Can(v, Event.Slice(m))
  {}

  /** What the running thread is parked with when a tick switches it out. */
  function SwitchedOut(m: Machine, ret: int): Context {
    Context(m.ebp, m.ebx, m.esi, m.edi, m.esp - 8, ret)
  }

  function Switched(m: Machine, last: Place, next: Place, rEsp: int, ret: int): Machine {
    Resumed(Suspend(Entered(m, rEsp, last.home.espCell, next.home.espCell, ret)), next.home.espCell)
  }

  function Dispatched(m: Machine, p: Place, ret: int): Machine {
    Resumed(m.(esp := m.esp - 8, mem := m.mem[m.esp - 4 := p.stackPtrCell][m.esp - 8 := ret]), p.stackPtrCell)
  }

  function After(v: View, e: Event): View
    requires v.cur < |v.places| == |v.parked|
  {
    match e
    case Slice(after) => v.(m := after)
    case Tick(rEsp, ret) =>
      var next := Succ(v.cur, |v.places|);
      if v.started
      then View(Switched(v.m, v.places[v.cur], v.places[next], rEsp, ret), v.places,
                v.parked[v.cur := SwitchedOut(v.m, ret)], next, true)
      else v.(m := Dispatched(v.m, v.places[0], ret), started := true)
  }

  lemma SliceKeepsParked(before: Memory, after: Memory, places: seq<Place>, parked: seq<Context>, busy: int)
    requires AllParked(before, places, parked, busy) && OthersUntouched(before, after, places, busy)
    ensures AllParked(after, places, parked, busy)
    ensures busy == -1 && SeedsReady(before, places, parked) ==> SeedsReady(after, places, parked)
  {
    forall i: nat | i < |places| && i < |parked| && i != busy ensures Parked(after, places[i].home, parked[i]) {
      forall a | Belongs(places[i].home, a) ensures Read(after, a) == Read(before, a) { assert Part(places[i], a); }
      ParkedFrame(before, after, places[i].home, parked[i]);
    }
    forall i: nat | i < |places| ensures busy == -1 ==> Read(after, places[i].stackPtrCell) == Read(before, places[i].stackPtrCell) {
      assert Part(places[i], places[i].stackPtrCell);
    }
  }

  /** Every event leaves all threads but the running one parked; a tick gives the next thread of the ring, or
      at first the root, the context it was parked with. */
  lemma AfterSound(v: View, e: Event)
    requires Sound(v) && Can(v, e)
    ensures Sound(After(v, e)) && After(v, e).places == v.places
    ensures e.Tick? ==> After(v, e).started && ContextOf(After(v, e).m) == v.parked[After(v, e).cur]
  {
    hide PlacesApart, AllParked, OthersUntouched, OnOtherStack, HasRoom, SeedsReady, Switched, Dispatched;
    match e
    case Slice(after) => SliceKeepsParked(v.m.mem, after.mem, v.places, v.parked, Busy(v));
    case Tick(rEsp, ret) =>
      if v.started {
        TickSwitches(v, rEsp, ret);
      } else {
        TickDispatches(v, ret);
      }
  }

  lemma TickSwitches(v: View, rEsp: int, ret: int)
    requires Sound(v) && v.started && |v.places| >= 2 && HasRoom(v.m, v.places[v.cur].home)
    ensures var next := Succ(v.cur, |v.places|);
            var t := Switched(v.m, v.places[v.cur], v.places[next], rEsp, ret);
            && AllParked(t.mem, v.places, v.parked[v.cur := SwitchedOut(v.m, ret)], next)
            && ContextOf(t) == v.parked[next] && next < |v.places| && next != v.cur
  {
    hide PlacesApart, AllParked, HasRoom, Entered, Suspend, Resumed;
    SwitchResult(v.m, v.places, v.parked, v.cur, Succ(v.cur, |v.places|), rEsp, ret);
  }

  lemma TickDispatches(v: View, ret: int)
    requires Sound(v) && !v.started && OnOtherStack(v.m, v.places)
    ensures var t := Dispatched(v.m, v.places[0], ret);
            && AllParked(t.mem, v.places, v.parked, 0) && ContextOf(t) == v.parked[0]
            && Read(v.m.mem[v.m.esp - 4 := v.places[0].stackPtrCell][v.m.esp - 8 := ret], v.m.esp - 4) == v.places[0].stackPtrCell
  {
    hide PlacesApart, AllParked, OnOtherStack, Resumed;
    FirstResult(v.m, v.places, v.parked, ret);
  }

  // ---------------------------------------------------------------- whole runs

  ghost predicate IsRun(states: seq<View>, events: seq<Event>) {
    |states| == |events| + 1 && Sound(states[0])
    && forall k :: 0 <= k < |events| ==> Follows(states[k], events[k], states[k + 1])
  }

  ghost predicate Follows(v: View, e: Event, w: View) {
    v.cur < |v.places| == |v.parked| && Can(v, e) && w == After(v, e)
  }

  lemma {:induction false} RunSound(states: seq<View>, events: seq<Event>, k: nat)
    requires IsRun(states, events) && k < |states|
    ensures Sound(states[k]) && states[k].places == states[0].places
  {
    hide Sound, Can, After;
    if k > 0 {
      RunSound(states, events, k - 1);
      assert Follows(states[k - 1], events[k - 1], states[k]);
      AfterSound(states[k - 1], events[k - 1]);
    }
  }

  ghost predicate CanAll(v: View, events: seq<Event>)
    decreases |events|
  {
    events == []
    || (v.cur < |v.places| == |v.parked| && Can(v, events[0]) && CanAll(After(v, events[0]), events[1..]))
  }

  ghost function AfterAll(v: View, events: seq<Event>): View
    requires CanAll(v, events)
    decreases |events|
  {
    if events == [] then v else AfterAll(After(v, events[0]), events[1..])
  }

  lemma CanStep(v: View, events: seq<Event>)
    requires events != [] && CanAll(v, events)
    ensures v.cur < |v.places| == |v.parked| && Can(v, events[0]) && CanAll(After(v, events[0]), events[1..])
    ensures AfterAll(v, events) == AfterAll(After(v, events[0]), events[1..])
  {}

  lemma NothingLeft(v: View, events: seq<Event>)
    requires events == []
    ensures CanAll(v, events) && AfterAll(v, events) == v
  {}

  /** The states a sequence of events goes through. */
  ghost function StatesOf(v: View, events: seq<Event>): seq<View>
    requires CanAll(v, events)
    decreases |events|
  {
    [v] + if events == [] then [] else StatesOf(After(v, events[0]), events[1..])
  }

  lemma {:induction false} StatesAreRun(v: View, events: seq<Event>)
    requires Sound(v) && CanAll(v, events)
    ensures IsRun(StatesOf(v, events), events)
    ensures StatesOf(v, events)[0] == v && StatesOf(v, events)[|events|] == AfterAll(v, events)
    decreases |events|
  {
    if events != [] {
      var w := After(v, events[0]);
      var rest := StatesOf(w, events[1..]);
      AfterSound(v, events[0]);
      StatesAreRun(w, events[1..]);
      hide Sound, Can, After;
      var states := [v] + rest;
      assert StatesOf(v, events) == states;
      forall k | 0 <= k < |events| ensures Follows(states[k], events[k], states[k + 1]) {
        if k > 0 { assert Follows(rest[k - 1], events[1..][k - 1], rest[k]); }
      }
    }
  }

  /** The event switches thread i out. */
  predicate SwitchesOut(v: View, e: Event, i: nat) { e.Tick? && v.started && v.cur == i }

  lemma StepParked(v: View, e: Event, i: nat)
    requires Sound(v) && Can(v, e) && i < |v.places|
    ensures i < |v.parked| == |After(v, e).parked|
    ensures After(v, e).parked[i] == if SwitchesOut(v, e, i) then SwitchedOut(v.m, e.ret) else v.parked[i]
  {}

  lemma RunStepParked(states: seq<View>, events: seq<Event>, i: nat, k: nat)
    requires IsRun(states, events) && i < |states[0].places| && k < |events| && !SwitchesOut(states[k], events[k], i)
    ensures |states[k].parked| == |states[k + 1].parked| == |states[0].places| && states[k + 1].parked[i] == states[k].parked[i]
  {
    RunSound(states, events, k);
    hide Can, After;
    assert Follows(states[k], events[k], states[k + 1]);
    StepParked(states[k], events[k], i);
    RunSound(states, events, k + 1);
  }

  lemma {:induction false} ParkedSince(states: seq<View>, events: seq<Event>, i: nat, j: nat, k: nat)
    requires IsRun(states, events) && i < |states[0].places| && j <= k < |states|
    requires forall n :: j <= n < k ==> !SwitchesOut(states[n], events[n], i)
    ensures |states[j].parked| == |states[k].parked| == |states[0].places| && states[k].parked[i] == states[j].parked[i]
  {
    if j < k {
      hide IsRun, SwitchesOut;
      RunLength(states, events);
      ParkedSince(states, events, i, j, k - 1);
      RunStepParked(states, events, i, k - 1);
    } else {
      RunSound(states, events, j);
    }
  }

  lemma RunLength(states: seq<View>, events: seq<Event>)
    requires IsRun(states, events)
    ensures |states| == |events| + 1
  {}

  /** On any run of slices and ticks: the thread a tick dispatches gets exactly the registers, stack pointer
      and return address it was last switched out with; if it has not been yet, those it was parked with at
      the start of the run, which are the seeded ones for a new thread. */
  lemma DispatchRestores(states: seq<View>, events: seq<Event>, i: nat, k: nat)
    requires IsRun(states, events) && k < |events| && events[k].Tick? && states[k + 1].cur == i
    ensures i < |states[0].parked|
    ensures (forall n :: 0 <= n < k ==> !SwitchesOut(states[n], events[n], i)) ==>
              ContextOf(states[k + 1].m) == states[0].parked[i]
    ensures forall j :: 0 <= j < k && SwitchesOut(states[j], events[j], i)
                        && (forall n :: j < n < k ==> !SwitchesOut(states[n], events[n], i)) ==>
              ContextOf(states[k + 1].m) == SwitchedOut(states[j].m, events[j].ret)
  {
    RunSound(states, events, 0);
    RunSound(states, events, k);
    RunSound(states, events, k + 1);
    hide Can, After;
    assert Follows(states[k], events[k], states[k + 1]);
    AfterSound(states[k], events[k]);
    if forall n :: 0 <= n < k ==> !SwitchesOut(states[n], events[n], i) { ParkedSince(states, events, i, 0, k); }
    forall j | 0 <= j < k && SwitchesOut(states[j], events[j], i) && forall n :: j < n < k ==> !SwitchesOut(states[n], events[n], i)
      ensures ContextOf(states[k + 1].m) == SwitchedOut(states[j].m, events[j].ret)
    {
      RunSound(states, events, j);
      assert Follows(states[j], events[j], states[j + 1]);
      StepParked(states[j], events[j], i);
      ParkedSince(states, events, i, j + 1, k);
    }
  }

  // ---------------------------------------------------------------- fairness

  /** The threads that the ticks among events a to b dispatch. */
  function DispatchOrder(states: seq<View>, events: seq<Event>, a: nat, b: nat): seq<nat>
    requires a <= b <= |events| && |states| == |events| + 1
    decreases b - a
  {
    if a == b then []
    else (if events[a].Tick? then [states[a + 1].cur] else []) + DispatchOrder(states, events, a + 1, b)
  }

  /** The indices from the one after i on, round the ring. */
  function RoundFrom(i: nat, n: nat, k: nat): seq<nat>
    decreases k
  {
    if k == 0 then [] else [Succ(i, n)] + RoundFrom(Succ(i, n), n, k - 1)
  }

  /** Where the ring stands: before the first dispatch, just before the root. */
  function Position(v: View): nat {
    if v.started || v.places == [] then v.cur else |v.places| - 1
  }

  lemma TickMoves(v: View, e: Event)
    requires Sound(v) && Can(v, e)
    ensures Position(After(v, e)) == if e.Tick? then Succ(Position(v), |v.places|) else Position(v)
    ensures e.Tick? ==> After(v, e).cur == Position(After(v, e))
  {}

  lemma {:induction false} TicksGoRound(states: seq<View>, events: seq<Event>, a: nat, b: nat)
    requires IsRun(states, events) && a <= b <= |events|
    ensures var order := DispatchOrder(states, events, a, b);
            order == RoundFrom(Position(states[a]), |states[0].places|, |order|)
    decreases b - a
  {
    if a < b {
      RunSound(states, events, a);
      hide Sound, Can, After, Position;
      assert Follows(states[a], events[a], states[a + 1]);
      TickMoves(states[a], events[a]);
      TicksGoRound(states, events, a + 1, b);
    }
  }

  lemma {:induction false} RoundBeforeWrap(i: nat, n: nat, k: nat)
    requires i + k < n
    ensures |RoundFrom(i, n, k)| == k && forall j :: 0 <= j < k ==> RoundFrom(i, n, k)[j] == i + 1 + j
    decreases k
  {
    if k > 0 { RoundBeforeWrap(i + 1, n, k - 1); }
  }

  lemma {:induction false} RoundToWrap(i: nat, n: nat, k: nat)
    requires i < n && n - i <= k <= n
    ensures |RoundFrom(i, n, k)| == k
    ensures forall j :: 0 <= j < k ==> RoundFrom(i, n, k)[j] == if i + 1 + j < n then i + 1 + j else i + 1 + j - n
    decreases n - i
  {
    if i + 1 == n {
      RoundBeforeWrap(0, n, k - 1);
    } else {
      RoundToWrap(i + 1, n, k - 1);
    }
  }

  /** The place of thread t in a round that starts after i. */
  function Turn(i: nat, n: nat, t: nat): int { if t > i then t - i - 1 else t - i - 1 + n }

  /** Among n threads, any n consecutive ticks of a run, whatever slices lie between them, dispatch every
      thread exactly once, and end where they began. */
  lemma RoundRunsEachOnce(states: seq<View>, events: seq<Event>, a: nat, b: nat, t: nat)
    requires IsRun(states, events) && a <= b <= |events| && t < |states[0].places|
    requires |DispatchOrder(states, events, a, b)| == |states[0].places|
    ensures var order := DispatchOrder(states, events, a, b);
            && (exists k :: 0 <= k < |order| && order[k] == t)
            && (forall k, l :: 0 <= k < l < |order| ==> order[k] != order[l])
            && order[|order| - 1] == Position(states[a])
  {
    RunSound(states, events, a);
    var n, i := |states[0].places|, Position(states[a]);
    TicksGoRound(states, events, a, b);
    RoundToWrap(i, n, n);
    var order := DispatchOrder(states, events, a, b);
    assert 0 <= Turn(i, n, t) < n && order[Turn(i, n, t)] == t;
  }

  function Seeded(t: Thread): Context {
    Context(0, 0, 0, 0, t.place.home.Top(), t.entry)
  }

  lemma SeedsPark(mem: Memory, t: Thread)
    requires t.place.home.espCell + 4 <= t.place.home.stack || t.place.home.Top() <= t.place.home.espCell
    requires !Belongs(t.place.home, t.place.stackPtrCell)
    ensures var top := t.place.home.Top();
            var stack := mem[top - 4 := t.entry][top - 8 := 0][top - 12 := 0][top - 16 := 0][top - 20 := 0];
            var after := stack[t.place.stackPtrCell := top - 20][t.place.home.espCell := top - 20];
            && Parked(after, t.place.home, Seeded(t)) && Read(after, t.place.stackPtrCell) == top - SAVED
            && Read(after, t.place.home.stack + 4092) == t.entry && Read(after, t.place.home.espCell) == t.place.home.stack + 4076
            && forall a :: !Part(t.place, a) ==> Read(after, a) == Read(mem, a)
  {}

  ghost predicate PlacedAt(ring: seq<Thread>, places: seq<Place>) {
    |places| == |ring| && forall i: nat :: i < |ring| ==> ring[i].place == places[i]
  }

  ghost predicate AllSeeded(ring: seq<Thread>, parked: seq<Context>) {
    forall i: nat :: i < |ring| && i < |parked| ==> parked[i] == Seeded(ring[i])
  }

  lemma OneMoreThread(ring: seq<Thread>, places: seq<Place>, parked: seq<Context>, t: Thread)
    requires PlacedAt(ring, places) && |parked| == |ring|
    ensures PlacedAt(ring + [t], places + [t.place])
    ensures AllSeeded(ring, parked) ==> AllSeeded(ring + [t], parked + [Seeded(t)])
  {}

  lemma SizesAgree(ring: seq<Thread>, places: seq<Place>)
    requires PlacedAt(ring, places)
    ensures |places| == |ring|
  {}

  lemma SeededTop(t: Thread)
    ensures Seeded(t).esp == t.place.home.Top() && Seeded(t) == Context(0, 0, 0, 0, t.place.home.stack + 4096, t.entry)
  {}

  lemma PrefixApart(where: seq<Place>, k: nat)
    requires PlacesApart(where) && k < |where|
    ensures where[..k] + [where[k]] == where[..k + 1] && PlacesApart(where[..k + 1])
  {
    var h, g := HomesOf(where), HomesOf(where[..k + 1]);
    assert forall i :: 0 <= i < |g| ==> g[i] == h[i];
  }

  class Threads {
    var threadRoot: Thread?
    var threadRunning: Thread?
    var started: bool
    var nextTid: int
    const cpu: Cpu
    /** The threads in creation order, the running one's place, and the contexts they are parked with. */
    ghost var ring: seq<Thread>
    ghost var places: seq<Place>
    ghost var cur: nat
    ghost var parked: seq<Context>

    /** `next` and `prev` are inverse and go once round all threads in creation order; a lone thread has no
        `prev`. */
    ghost predicate IsRing()
      reads `threadRoot, `ring, ring
    {
      && (forall i, j :: 0 <= i < j < |ring| ==> ring[i] != ring[j])
      && threadRoot == (if ring == [] then null else ring[0])
      && (forall i: nat :: i < |ring| ==> ring[i].next == ring[Succ(i, |ring|)])
      && (|ring| == 1 ==> ring[0].prev == null)
      && (|ring| > 1 ==> forall i: nat :: i < |ring| ==> ring[Succ(i, |ring|)].prev == ring[i])
    }

    /** Every thread but the running one is parked; before the first dispatch, every thread is as seeded. */
    ghost predicate Valid()
      reads this, ring, cpu
    {
      && IsRing() && |parked| == |ring| && PlacedAt(ring, places)
      && PlacesApart(places)
      && (threadRunning != null ==> cur < |ring| && threadRunning == ring[cur])
      && (started ==> threadRunning != null)
      && AllParked(cpu.mem, places, parked, if started then cur else -1)
      && (!started ==> cur == 0 && SeedsReady(cpu.mem, places, parked) && AllSeeded(ring, parked))
    }

    /** The scheduler on values, once a thread is chosen to run. */
    ghost function Now(): View
      reads this, cpu
    {
      View(cpu.State(), places, parked, cur, started)
    }

    lemma NowIsSound()
      requires Valid() && threadRunning != null
      ensures Sound(Now())
    {}

    /** A lone thread has no `prev`: going on to the next thread and back fails exactly for a ring of one. */
    lemma PrevOfNext(i: nat)
      requires IsRing() && i < |ring|
      ensures ring[i].next != null && (ring[i].next.prev == null <==> |ring| == 1)
      ensures |ring| > 1 ==> ring[i].next.prev == ring[i]
    {}

    constructor (cpu: Cpu)
      ensures Valid() && ring == [] && threadRunning == null && !started && this.cpu == cpu && nextTid == 1
    {
      hide Parked, Part, Seeded;
      threadRoot, threadRunning, started, nextTid := null, null, false, 1;
      this.cpu := cpu;
      ring, places, cur, parked := [], [], 0, [];
    }

    /** The new thread's stack: its entry point, then four zeroes; both saved pointers name the last zero. */
    method SeedStack(t: Thread)
      requires t.place.home.espCell + 4 <= t.place.home.stack || t.place.home.Top() <= t.place.home.espCell
      requires !Belongs(t.place.home, t.place.stackPtrCell)
      modifies cpu
      ensures Parked(cpu.mem, t.place.home, Seeded(t)) && Read(cpu.mem, t.place.stackPtrCell) == t.place.home.Top() - SAVED
      ensures Read(cpu.mem, t.place.home.stack + 4092) == t.entry && Read(cpu.mem, t.place.home.espCell) == t.place.home.stack + 4076
      ensures forall a :: !Part(t.place, a) ==> Read(cpu.mem, a) == Read(old(cpu.mem), a)
    {
      hide Parked, Part, Read, Belongs, Seeded;
      SeedsPark(cpu.mem, t);
      var sp := t.place.home.Top();
      sp := sp - 4;
      cpu.mem := cpu.mem[sp := t.entry];
      sp := sp - 4;
      cpu.mem := cpu.mem[sp := 0];
      sp := sp - 4;
      cpu.mem := cpu.mem[sp := 0];
      sp := sp - 4;
      cpu.mem := cpu.mem[sp := 0];
      sp := sp - 4;
      cpu.mem := cpu.mem[sp := 0];
      cpu.mem := cpu.mem[t.place.stackPtrCell := sp][t.place.home.espCell := sp];
    }

    /** The ring insertion: the walk finds the last thread, and the new one goes between it and the root. */
    method Insert(thread: Thread)
      requires IsRing() && thread !in ring && thread.prev == null && thread.next == null
      modifies `threadRoot, `ring, thread, ring
      ensures IsRing() && ring == old(ring) + [thread]
    {
      if threadRoot == null {
        threadRoot := thread;
        thread.next := thread;
      } else {
        ghost var i := 0;
        var t := threadRoot;
        while t.next != threadRoot
          invariant i < |ring| && t == ring[i]
          decreases |ring| - i
        {
          t := t.next;
          i := i + 1;
        }
        thread.prev := t;
        t.next := thread;
        thread.next := threadRoot;
        threadRoot.prev := thread;
      }
      ring := ring + [thread];
    }

    /** `start_thread`; the allocator gives memory apart from every other thread's. */
    method StartThread(place: Place, entry: int) returns (thread: Thread)
      requires Valid() && PlacesApart(places + [place])
      modifies this, ring, cpu
      ensures Valid() && fresh(thread) && ring == old(ring) + [thread]
      ensures parked == old(parked) + [Context(0, 0, 0, 0, place.home.stack + 4096, entry)]
      ensures thread.place == place && thread.entry == entry && places == old(places) + [place]
      ensures thread.id == old(nextTid) && nextTid == old(nextTid) + 1
      ensures started == old(started) && threadRunning == old(threadRunning) && cur == old(cur)
    {
      hide PlacesApart, AllParked, Parked, Part, Read, Seeded, Succ, SeedsReady, PlacedAt, AllSeeded;
      thread := new Thread(nextTid, place, entry);
      ghost var mem := cpu.mem;
      LastPlaceIsSound(places + [place]);
      OneMoreThread(ring, places, parked, thread);
      SizesAgree(ring, places);
      SeededTop(thread);
      SeedStack(thread);
      SeedingKeeps(places, place, mem, cpu.mem, parked, Seeded(thread), if started then cur else -1);
      Insert(thread);
      places := places + [place];
      parked := parked + [Seeded(thread)];
      nextTid := nextTid + 1;
    }

    method SwitchToNext(rEsp: int, ret: int)
      requires Valid() && |ring| >= 2 && started && HasRoom(cpu.State(), places[cur].home)
      modifies `threadRunning, `cur, `parked, cpu
      ensures Valid() && threadRunning != null && Now() == After(old(Now()), Tick(rEsp, ret))
    {
      hide PlacesApart, AllParked, HasRoom, Resumed, Suspend, Entered, SeedsReady;
      ghost var m, next := cpu.State(), Succ(cur, |ring|);
      TickSwitches(Now(), rEsp, ret);
      var running := threadRunning;
      threadRunning := threadRunning.next;
      assert threadRunning == ring[next] && threadRunning.prev == running;
      CallSwitch(rEsp, running.place.home.espCell, threadRunning.prev.place.home.espCell, threadRunning.place.home.espCell, ret);
      parked := parked[cur := SwitchedOut(m, ret)];
      cur := next;
    }

    /** The state save when the interrupted stack is a kernel one, then the call of the switch. */
    method CallSwitch(rEsp: int, saveCell: int, last: int, next: int, ret: int)
      requires saveCell == last
      modifies cpu
      ensures cpu.State() == Resumed(Suspend(Entered(old(cpu.State()), rEsp, last, next, ret)), next)
    {
      ghost var m := cpu.State();
      if rEsp > KERNEL_STACKS {
        cpu.mem := cpu.mem[saveCell := rEsp];
      }
      cpu.Push(next);
      cpu.Push(last);
      cpu.Push(ret);
      assert cpu.State() == Entered(m, rEsp, last, next, ret);
      cpu.SwitchContext();
    }

    method FirstDispatch(ret: int)
      requires Valid() && threadRunning != null && !started && OnOtherStack(cpu.State(), places)
      modifies `started, cpu
      ensures Valid() && started && forall rEsp :: Now() == After(old(Now()), Tick(rEsp, ret))
    {
      hide PlacesApart, AllParked, OnOtherStack, Resumed, SeedsReady;
      TickDispatches(Now(), ret);
      started := true;
      cpu.Push(threadRunning.place.stackPtrCell);
      cpu.Push(ret);
      cpu.SetContext();
    }

    /** `Scheduler::next`, called in the interrupted state `rEsp`; `ret` is the address after the call of the
        switch. */
    method Next(rEsp: int, ret: int)
      requires Valid() && threadRunning != null && Can(Now(), Tick(rEsp, ret))
      modifies this, cpu
      ensures Valid() && threadRunning != null && ring == old(ring) && Now() == After(old(Now()), Tick(rEsp, ret))
    {
      if started {
        SwitchToNext(rEsp, ret);
      } else {
        FirstDispatch(ret);
      }
    }

    /** Between two calls the running thread does what it likes with the machine, but for the other threads'
        memory. */
    method RunSlice(m: Machine)
      requires Valid() && threadRunning != null && Can(Now(), Event.Slice(m))
      modifies cpu
      ensures Valid() && Now() == After(old(Now()), Event.Slice(m))
    {
      hide PlacesApart, AllParked, OthersUntouched, SeedsReady;
      SliceKeepsParked(cpu.mem, m.mem, places, parked, if started then cur else -1);
      cpu.Load(m);
    }

    /** Any run of slices and calls of `Scheduler::next`. */
    method RunAll(events: seq<Event>)
      requires Valid() && threadRunning != null && CanAll(Now(), events)
      modifies this, cpu
      ensures Valid() && threadRunning != null && ring == old(ring) && Now() == AfterAll(old(Now()), events)
    {
      hide Can, After, CanAll, AfterAll, IsRing, PlacesApart, AllParked, PlacedAt, AllSeeded, SeedsReady;
      var k := 0;
      while k < |events|
        invariant 0 <= k <= |events| && Valid() && threadRunning != null && ring == old(ring)
        invariant CanAll(Now(), events[k..]) && AfterAll(Now(), events[k..]) == AfterAll(old(Now()), events)
      {
        assert events[k..][0] == events[k] && events[k..][1..] == events[k + 1..];
        CanStep(Now(), events[k..]);
        match events[k] {
          case Slice(after) => RunSlice(after);
          case Tick(rEsp, ret) => Next(rEsp, ret);
        }
        k := k + 1;
      }
      NothingLeft(Now(), events[k..]);
    }

    /** `init_kthreads`: four threads, and the first of them is the one to run. */
    method InitKthreads(where: seq<Place>, entries: seq<int>)
      requires Valid() && ring == [] && !started && |where| == |entries| == 4 && PlacesApart(where)
      modifies this, cpu
      ensures Valid() && places == where && !started
      ensures |parked| == 4 && forall i :: 0 <= i < 4 ==> parked[i] == Context(0, 0, 0, 0, where[i].home.stack + 4096, entries[i])
      ensures |ring| == 4 && threadRunning == ring[0] && forall i :: 0 <= i < 4 ==> fresh(ring[i]) && ring[i].entry == entries[i]
    {
      hide PlacesApart, IsRing, AllParked, SeedsReady, PlacedAt, AllSeeded;
      SizesAgree(ring, places);
      assert where[..0] == places && where[..4] == where;
      PrefixApart(where, 0);
      var t0 := StartThread(where[0], entries[0]);
      PrefixApart(where, 1);
      var t1 := StartThread(where[1], entries[1]);
      PrefixApart(where, 2);
      var t2 := StartThread(where[2], entries[2]);
      PrefixApart(where, 3);
      var t3 := StartThread(where[3], entries[3]);
      RootIsFirst();
      threadRunning := threadRoot;
    }

    lemma RootIsFirst()
      requires IsRing() && ring != []
      ensures threadRoot == ring[0]
    {}
  }
}
