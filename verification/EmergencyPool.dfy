/** The emergency buffers for exceptions (libcxxrt/exception.cc; section 3.3.1 of the Itanium C++ ABI:
    Exception Handling): sixteen 1 KiB buffers under a lock and a condition variable, used by any number of
    threads when `calloc` has nothing left. Every step is one access to shared state, or one library call. */
module EmergencyPool {

  const BUFFERS := 16
  const BUFFER_SIZE := 1024
  const POOL_SIZE := BUFFERS * BUFFER_SIZE
  const HELD_LIMIT := 3

  type Contents = s: seq<int> | |s| == BUFFER_SIZE witness seq(BUFFER_SIZE, i => 0)

  datatype Pc =
    | Idle
    | TryHeap(size: nat)          // alloc_or_die: about to call calloc
    | Test(size: nat)             // emergency_malloc: about to check the size and the thread's count
    | MallocLock(size: nat)       // about to lock, first or after waking
    | Retry(size: nat)            // locked, about to call calloc again and then to scan
    | Waiting(size: nat)          // asleep on the condition variable
    | UnlockHeap(m: int)          // locked, with memory from calloc
    | UnlockBuffer(i: nat)        // locked, with buffer i marked
    | Count(i: nat)               // about to add to the thread's count
    | Find(p: int)                // free_exception, for a pointer into the pool: about to look for its slot
    | Zero(i: nat)                // about to clear buffer i
    | FreeLock(i: nat)            // about to lock
    | Unmark(i: nat)              // locked, about to unmark buffer i
    | FreeUnlock                  // locked, after signalling
    | Terminated                  // std::terminate
    | Failed                      // the slot assertion did not hold

  /** `owned[t]` are the pointers thread t holds, `held` the threads' counts, `marked` the source's
      `buffer_allocated`. Two history variables: the thread that answers for each buffer now, and the one
      that last allocated it. */
  datatype State = State(base: int, pc: seq<Pc>, owned: seq<set<int>>, held: seq<int>, lock: int,
                         marked: seq<bool>, contents: seq<Contents>, holder: seq<int>, allocBy: seq<int>)

  datatype Choice =
    | Allocate(size: nat)         // alloc_or_die is called
    | Free(p: int)                // free_exception is called for a pointer the thread holds
    | Write(i: nat, k: nat, b: int)
    | Give(p: int, to: nat)       // an exception changes hands
    | Continue(m: int)            // the next step; m is what calloc returns if it calls it

  function BufferAt(base: int, i: nat): int { base + BUFFER_SIZE * i }

  predicate InPool(base: int, p: int) { base <= p < base + POOL_SIZE }

  function AllZero(): Contents { seq(BUFFER_SIZE, i => 0) }

  predicate Shape(s: State) {
    |s.owned| == |s.held| == |s.pc| && |s.marked| == |s.contents| == |s.holder| == |s.allocBy| == BUFFERS && s.base > 0
  }

  /** What calloc may return: 0, or memory outside the pool. */
  predicate FromHeap(s: State, m: int) { m == 0 || (m > 0 && !InPool(s.base, m)) }

  /** The lowest unmarked buffer from `i` on, or BUFFERS. */
  function Scan(marked: seq<bool>, i: nat): nat
    requires |marked| == BUFFERS && i <= BUFFERS
    decreases BUFFERS - i
  {
    if i == BUFFERS || !marked[i] then i else Scan(marked, i + 1)
  }

  lemma {:induction false} ScanFinds(marked: seq<bool>, i: nat)
    requires |marked| == BUFFERS && i <= BUFFERS
    ensures i <= Scan(marked, i) <= BUFFERS
    ensures Scan(marked, i) < BUFFERS ==> !marked[Scan(marked, i)]
    ensures forall j :: i <= j < Scan(marked, i) ==> marked[j]
    decreases BUFFERS - i
  {
    if i < BUFFERS && marked[i] { ScanFinds(marked, i + 1); }
  }

  /** The slot a pointer is the start of, from `i` on, or BUFFERS. */
  function Slot(base: int, p: int, i: nat): nat
    requires i <= BUFFERS
    decreases BUFFERS - i
  {
    if i == BUFFERS || p == BufferAt(base, i) then i else Slot(base, p, i + 1)
  }

  lemma {:induction false} SlotFinds(base: int, p: int, i: nat)
    requires i <= BUFFERS
    ensures i <= Slot(base, p, i) <= BUFFERS
    ensures Slot(base, p, i) < BUFFERS ==> p == BufferAt(base, Slot(base, p, i))
    ensures forall j: nat :: i <= j < Slot(base, p, i) ==> p != BufferAt(base, j)
    decreases BUFFERS - i
  {
    if i < BUFFERS && p != BufferAt(base, i) { SlotFinds(base, p, i + 1); }
  }

  function Goto(s: State, t: nat, pc: Pc): State
    requires t < |s.pc|
  {
    s.(pc := s.pc[t := pc])
  }

  function Gain(s: State, t: nat, p: int): State
    requires Shape(s) && t < |s.pc|
  {
    s.(pc := s.pc[t := Idle], owned := s.owned[t := s.owned[t] + {p}])
  }

  function Lose(s: State, t: nat, p: int, pc: Pc): State
    requires Shape(s) && t < |s.pc|
  {
    s.(pc := s.pc[t := pc], owned := s.owned[t := s.owned[t] - {p}])
  }

  /** A request of an idle thread. */
  function Request(s: State, t: nat, c: Choice): State
    requires Shape(s) && t < |s.pc|
  {
    match c
    case Allocate(size) => Goto(s, t, TryHeap(size))
    case Free(p) =>
      if p !in s.owned[t] then s
      else if InPool(s.base, p) then Lose(s, t, p, Find(p))
      else Lose(s, t, p, Idle)
    case Write(i, k, b) =>
      if i < BUFFERS && k < BUFFER_SIZE && BufferAt(s.base, i) in s.owned[t]
      then s.(contents := s.contents[i := s.contents[i][k := b]]) else s
    case Give(p, to) =>
      if p in s.owned[t] && to < |s.pc| && to != t
      then
        var i := Slot(s.base, p, 0);
        s.(owned := s.owned[t := s.owned[t] - {p}][to := s.owned[to] + {p}],
           holder := if i < BUFFERS then s.holder[i := to] else s.holder)
      else s
    case Continue(_) => s
  }

  /** The next step inside `alloc_or_die` and `emergency_malloc`. */
  function AdvanceMalloc(s: State, t: nat, m: int): State
    requires Shape(s) && t < |s.pc|
  {
    match s.pc[t]
    case TryHeap(size) => if m != 0 then Gain(s, t, m) else Goto(s, t, Test(size))
    case Test(size) =>
      if size > BUFFER_SIZE || s.held[t] > HELD_LIMIT then Goto(s, t, Terminated) else Goto(s, t, MallocLock(size))
    case MallocLock(size) => if s.lock == -1 then Goto(s.(lock := t), t, Retry(size)) else s
    case Retry(size) =>
      if m != 0 then Goto(s, t, UnlockHeap(m))
      else if Scan(s.marked, 0) < BUFFERS then Mark(s, t, Scan(s.marked, 0))
      else Goto(s.(lock := -1), t, Waiting(size))
    case Waiting(size) => Goto(s, t, MallocLock(size))
    case UnlockHeap(p) => Gain(s.(lock := -1), t, p)
    case UnlockBuffer(i) => Goto(s.(lock := -1), t, Count(i))
    case Count(i) => Gain(s.(held := s.held[t := s.held[t] + 1]), t, BufferAt(s.base, i))
    case _ => s
  }

  function Mark(s: State, t: nat, i: nat): State
    requires Shape(s) && t < |s.pc| && i < BUFFERS
  {
    s.(marked := s.marked[i := true], holder := s.holder[i := t], allocBy := s.allocBy[i := t],
       pc := s.pc[t := UnlockBuffer(i)])
  }

  /** The next step inside `emergency_malloc_free`. */
  function AdvanceFree(s: State, t: nat): State
    requires Shape(s) && t < |s.pc|
  {
    match s.pc[t]
    case Find(p) =>
      var i := Slot(s.base, p, 0);
      if i < BUFFERS then Goto(s, t, Zero(i)) else Goto(s, t, Failed)
    case Zero(i) =>
      if i < BUFFERS then Goto(s.(contents := s.contents[i := AllZero()]), t, FreeLock(i)) else s
    case FreeLock(i) => if s.lock == -1 then Goto(s.(lock := t), t, Unmark(i)) else s
    case Unmark(i) =>
      if i < BUFFERS then Goto(s.(marked := s.marked[i := false]), t, FreeUnlock) else s
    case FreeUnlock => Goto(s.(lock := -1), t, Idle)
    case _ => s
  }

  predicate Freeing(pc: Pc) { pc.Find? || pc.Zero? || pc.FreeLock? || pc.Unmark? || pc.FreeUnlock? }

  function Advance(s: State, t: nat, m: int): State
    requires Shape(s) && t < |s.pc|
  {
    if Freeing(s.pc[t]) then AdvanceFree(s, t) else AdvanceMalloc(s, t, m)
  }

  function Next(s: State, t: nat, c: Choice): State
    requires Shape(s)
  {
    if t >= |s.pc| then s
    else if s.pc[t] == Idle then Request(s, t, c)
    else match c case Continue(m) => Advance(s, t, m) case _ => s
  }

  // ---------------------------------------------------------------- the invariant

  predicate Locked(pc: Pc) {
    pc.Retry? || pc.UnlockHeap? || pc.UnlockBuffer? || pc.Unmark? || pc.FreeUnlock?
  }

  /** The buffer a thread is in the middle of allocating or freeing. */
  function Carried(s: State, t: nat): int
    requires t < |s.pc|
  {
    match s.pc[t]
    case UnlockBuffer(i) => i case Count(i) => i case Zero(i) => i case FreeLock(i) => i case Unmark(i) => i
    case Find(p) => Slot(s.base, p, 0)
    case _ => -1
  }

  /** Thread t answers for buffer i: it holds its pointer, or carries it. */
  predicate Answers(s: State, t: nat, i: nat)
    requires Shape(s) && t < |s.pc|
  {
    BufferAt(s.base, i) in s.owned[t] || Carried(s, t) == i
  }

  ghost predicate ThreadOk(s: State, t: nat)
    requires Shape(s) && t < |s.pc|
  {
    && s.pc[t] != Failed
    && (Locked(s.pc[t]) <==> s.lock == t)
    && -1 <= Carried(s, t) < BUFFERS
    && (s.pc[t].Find? ==> InPool(s.base, s.pc[t].p))
    && (s.pc[t].UnlockHeap? ==> !InPool(s.base, s.pc[t].m))
    && (Carried(s, t) >= 0 ==> BufferAt(s.base, Carried(s, t)) !in s.owned[t])
    && (forall p :: p in s.owned[t] && InPool(s.base, p) ==> Slot(s.base, p, 0) < BUFFERS)
    && 0 <= s.held[t] <= 4
    && (s.pc[t].MallocLock? || s.pc[t].Retry? || s.pc[t].Waiting? || s.pc[t].UnlockBuffer? || s.pc[t].Count? ==> s.held[t] <= 3)
  }

  /** A marked buffer has exactly one thread answering for it, an unmarked one has none and is all zero. */
  ghost predicate BufferOk(s: State, i: nat)
    requires Shape(s) && i < BUFFERS
  {
    && (forall t: nat :: t < |s.pc| && Answers(s, t, i) ==> s.marked[i] && s.holder[i] == t)
    && (s.marked[i] ==> 0 <= s.holder[i] < |s.pc| && Answers(s, s.holder[i], i))
    && (!s.marked[i] ==> s.contents[i] == AllZero())
  }

  /** From allocation to the hand-over, and from the clearing to the release, a buffer is all zero. */
  ghost predicate CleanOk(s: State, t: nat)
    requires Shape(s) && t < |s.pc|
  {
    0 <= Carried(s, t) < BUFFERS && !s.pc[t].Find? && !s.pc[t].Zero? ==> s.contents[Carried(s, t)] == AllZero()
  }

  ghost predicate Inv(s: State) {
    && Shape(s)
    && (s.lock == -1 || 0 <= s.lock < |s.pc|)
    && (forall t: nat :: t < |s.pc| ==> ThreadOk(s, t) && CleanOk(s, t))
    && (forall i: nat :: i < BUFFERS ==> BufferOk(s, i))
  }

  lemma SlotOfBuffer(s: State, i: nat)
    requires i < BUFFERS
    ensures Slot(s.base, BufferAt(s.base, i), 0) == i && InPool(s.base, BufferAt(s.base, i))
  {
    SlotFinds(s.base, BufferAt(s.base, i), 0);
  }

  /** What thread t's step did to buffer i: nothing, or t began to answer for it, or t ceased to. */
  ghost predicate BufferStep(s: State, n: State, t: nat, i: nat)
    requires Shape(s) && Shape(n) && |n.pc| == |s.pc| && t < |s.pc| && i < BUFFERS
  {
    && (n.contents[i] == s.contents[i] || Answers(s, t, i))
    && (|| (n.marked[i] == s.marked[i] && n.holder[i] == s.holder[i] && (Answers(n, t, i) <==> Answers(s, t, i)))
        || (!s.marked[i] && n.marked[i] && n.holder[i] == t && Answers(n, t, i))
        || (Answers(s, t, i) && !n.marked[i] && !Answers(n, t, i) && n.contents[i] == AllZero()))
  }

  ghost predicate LocalStep(s: State, n: State, t: nat)
    requires Shape(s) && t < |s.pc|
  {
    && Shape(n) && n.base == s.base && |n.pc| == |s.pc|
    && (forall u: nat :: u < |s.pc| && u != t ==> n.pc[u] == s.pc[u] && n.owned[u] == s.owned[u] && n.held[u] == s.held[u])
    && (n.lock == s.lock || ((n.lock == -1 || n.lock == t) && (s.lock == -1 || s.lock == t)))
    && ThreadOk(n, t) && CleanOk(n, t)
    && (forall i: nat :: i < BUFFERS ==> BufferStep(s, n, t, i))
  }

  lemma OtherThread(s: State, n: State, t: nat, u: nat)
    requires Inv(s) && t < |s.pc| && LocalStep(s, n, t) && u < |s.pc| && u != t
    ensures ThreadOk(n, u) && CleanOk(n, u) && Carried(n, u) == Carried(s, u)
    ensures forall i: nat :: i < BUFFERS ==> (Answers(n, u, i) <==> Answers(s, u, i))
  {
    assert ThreadOk(s, u) && CleanOk(s, u);
    if 0 <= Carried(s, u) {
      var i: nat := Carried(s, u);
      assert BufferOk(s, i) && BufferStep(s, n, t, i) && Answers(s, u, i);
    }
  }

  lemma LocalStepKeepsInv(s: State, n: State, t: nat)
    requires Inv(s) && t < |s.pc| && LocalStep(s, n, t)
    ensures Inv(n)
  {
    forall u: nat | u < |n.pc| ensures ThreadOk(n, u) && CleanOk(n, u) {
      if u != t { OtherThread(s, n, t, u); }
    }
    forall i: nat | i < BUFFERS ensures BufferOk(n, i) {
      assert BufferOk(s, i) && BufferStep(s, n, t, i);
      forall u: nat | u < |n.pc| && u != t ensures Answers(n, u, i) <==> Answers(s, u, i) {
        OtherThread(s, n, t, u);
      }
    }
  }

  lemma InvAt(s: State, t: nat)
    requires Inv(s) && t < |s.pc|
    ensures Shape(s) && ThreadOk(s, t) && CleanOk(s, t)
  {}

  /** A step that leaves the buffers alone and keeps what the thread answers for. */
  lemma QuietStep(s: State, n: State, t: nat)
    requires Inv(s) && t < |s.pc| && n.base == s.base && Shape(n) && |n.pc| == |s.pc|
    requires n == s.(pc := s.pc[t := n.pc[t]], owned := s.owned[t := n.owned[t]], held := s.held[t := n.held[t]], lock := n.lock)
    requires n.lock == s.lock || ((n.lock == -1 || n.lock == t) && (s.lock == -1 || s.lock == t))
    requires ThreadOk(n, t) && CleanOk(n, t)
    requires forall i: nat :: i < BUFFERS ==> (Answers(n, t, i) <==> Answers(s, t, i))
    ensures LocalStep(s, n, t)
  {}

  lemma MarkIsLocal(s: State, t: nat)
    requires Inv(s) && t < |s.pc| && s.pc[t].Retry? && Scan(s.marked, 0) < BUFFERS
    ensures LocalStep(s, Mark(s, t, Scan(s.marked, 0)), t)
  {
    var k := Scan(s.marked, 0);
    var n := Mark(s, t, k);
    assert ThreadOk(s, t);
    ScanFinds(s.marked, 0);
    assert BufferOk(s, k) && !Answers(s, t, k);
    forall i: nat | i < BUFFERS ensures BufferStep(s, n, t, i) {
      assert BufferOk(s, i);
    }
  }

  lemma RetryIsLocal(s: State, t: nat, m: int)
    requires Inv(s) && t < |s.pc| && FromHeap(s, m) && s.pc[t].Retry?
    ensures LocalStep(s, Advance(s, t, m), t)
  {
    InvAt(s, t);
    hide Inv, LocalStep, Scan;
    if m == 0 && Scan(s.marked, 0) < BUFFERS {
      MarkIsLocal(s, t);
    } else {
      QuietStep(s, Advance(s, t, m), t);
    }
  }

  lemma UnlockIsLocal(s: State, t: nat, m: int)
    requires Inv(s) && t < |s.pc| && s.pc[t].UnlockBuffer?
    ensures LocalStep(s, Advance(s, t, m), t)
  {
    assert ThreadOk(s, t) && CleanOk(s, t);
    QuietStep(s, Advance(s, t, m), t);
  }

  lemma CountIsLocal(s: State, t: nat, m: int)
    requires Inv(s) && t < |s.pc| && s.pc[t].Count?
    ensures LocalStep(s, Advance(s, t, m), t)
  {
    var n := Advance(s, t, m);
    assert ThreadOk(s, t);
    SlotOfBuffer(s, s.pc[t].i);
    QuietStep(s, n, t);
  }

  lemma FreeTouchesOne(s: State, t: nat, m: int)
    requires Inv(s) && t < |s.pc| && (s.pc[t].Zero? || s.pc[t].Unmark?)
    ensures LocalStep(s, Advance(s, t, m), t)
  {
    var n := Advance(s, t, m);
    assert ThreadOk(s, t) && CleanOk(s, t);
    forall i: nat | i < BUFFERS ensures BufferStep(s, n, t, i) {
      assert BufferOk(s, i);
    }
  }

  lemma FreeMovesOn(s: State, t: nat, m: int)
    requires Inv(s) && t < |s.pc| && (s.pc[t].Find? || s.pc[t].FreeLock? || s.pc[t].FreeUnlock?)
    ensures LocalStep(s, Advance(s, t, m), t)
  {
    InvAt(s, t);
    hide Inv, LocalStep;
    QuietStep(s, Advance(s, t, m), t);
  }

  lemma AdvanceIsLocal(s: State, t: nat, m: int)
    requires Inv(s) && t < |s.pc| && FromHeap(s, m)
    ensures LocalStep(s, Advance(s, t, m), t)
  {
    InvAt(s, t);
    hide Inv, LocalStep, ThreadOk, Advance;
    match s.pc[t]
    case Retry(_) => RetryIsLocal(s, t, m);
    case Count(_) => CountIsLocal(s, t, m);
    case Find(_) => FreeMovesOn(s, t, m);
    case Zero(_) => FreeTouchesOne(s, t, m);
    case FreeLock(_) => FreeMovesOn(s, t, m);
    case Unmark(_) => FreeTouchesOne(s, t, m);
    case FreeUnlock => FreeMovesOn(s, t, m);
    case UnlockBuffer(_) => UnlockIsLocal(s, t, m);
    case _ => PlainIsLocal(s, t, m);
  }

  /** Memory from calloc lies outside the pool. */
  lemma HeapGainIsLocal(s: State, t: nat, m: int)
    requires Inv(s) && t < |s.pc| && FromHeap(s, m) && ((s.pc[t].TryHeap? && m != 0) || s.pc[t].UnlockHeap?)
    ensures LocalStep(s, Advance(s, t, m), t)
  {
    InvAt(s, t);
    hide Inv, LocalStep;
    forall i: nat | i < BUFFERS ensures InPool(s.base, BufferAt(s.base, i)) {}
    QuietStep(s, Advance(s, t, m), t);
  }

  lemma PlainIsLocal(s: State, t: nat, m: int)
    requires Inv(s) && t < |s.pc| && FromHeap(s, m)
    requires s.pc[t].Idle? || s.pc[t].TryHeap? || s.pc[t].Test? || s.pc[t].MallocLock? || s.pc[t].Waiting?
             || s.pc[t].UnlockHeap? || s.pc[t].Terminated? || s.pc[t].Failed?
    ensures LocalStep(s, Advance(s, t, m), t)
  {
    InvAt(s, t);
    hide Inv, LocalStep;
    if (s.pc[t].TryHeap? && m != 0) || s.pc[t].UnlockHeap? {
      HeapGainIsLocal(s, t, m);
    } else {
      QuietStep(s, Advance(s, t, m), t);
    }
  }

  // ---------------------------------------------------------------- requests

  lemma FreeRequestIsLocal(s: State, t: nat, p: int)
    requires Inv(s) && t < |s.pc| && s.pc[t] == Idle
    ensures LocalStep(s, Request(s, t, Free(p)), t)
  {
    InvAt(s, t);
    hide Inv, LocalStep;
    if p in s.owned[t] && !InPool(s.base, p) {
      FreeToHeapIsLocal(s, t, p);
    } else {
      SlotFinds(s.base, p, 0);
      var n := Request(s, t, Free(p));
      forall i: nat | i < BUFFERS ensures Answers(n, t, i) <==> Answers(s, t, i) { SlotOfBuffer(s, i); }
      QuietStep(s, n, t);
    }
  }

  lemma FreeToHeapIsLocal(s: State, t: nat, p: int)
    requires Inv(s) && t < |s.pc| && s.pc[t] == Idle && p in s.owned[t] && !InPool(s.base, p)
    ensures LocalStep(s, Lose(s, t, p, Idle), t)
  {
    InvAt(s, t);
    hide Inv, LocalStep;
    forall i: nat | i < BUFFERS ensures p != BufferAt(s.base, i) { SlotOfBuffer(s, i); }
    QuietStep(s, Lose(s, t, p, Idle), t);
  }

  lemma WriteRequestIsLocal(s: State, t: nat, i: nat, k: nat, b: int)
    requires Inv(s) && t < |s.pc| && s.pc[t] == Idle
    ensures LocalStep(s, Request(s, t, Write(i, k, b)), t)
  {
    assert ThreadOk(s, t);
    var n := Request(s, t, Write(i, k, b));
    forall j: nat | j < BUFFERS ensures BufferStep(s, n, t, j) {}
  }

  lemma GiveAnswers(s: State, t: nat, p: int, to: nat, u: nat, i: nat)
    requires Inv(s) && t < |s.pc| && s.pc[t] == Idle && u < |s.pc| && i < BUFFERS
    requires p in s.owned[t] && to < |s.pc| && to != t
    ensures Answers(Request(s, t, Give(p, to)), u, i) <==> if BufferAt(s.base, i) == p then u == to else Answers(s, u, i)
    ensures BufferAt(s.base, i) == p <==> Slot(s.base, p, 0) == i
  {
    SlotOfBuffer(s, i);
    SlotFinds(s.base, p, 0);
    assert BufferOk(s, i);
    var n := Request(s, t, Give(p, to));
    assert n.pc == s.pc && n.base == s.base && Carried(n, u) == Carried(s, u);
    if BufferAt(s.base, i) == p {
      assert Answers(s, t, i);
      assert u != t ==> !Answers(s, u, i);
    }
  }

  /** A pointer that changes hands: the receiver answers for its buffer in the giver's place. */
  lemma GiveKeepsInv(s: State, t: nat, p: int, to: nat)
    requires Inv(s) && t < |s.pc| && s.pc[t] == Idle
    ensures Inv(Request(s, t, Give(p, to)))
  {
    var n := Request(s, t, Give(p, to));
    if n != s {
      forall u: nat | u < |n.pc| ensures ThreadOk(n, u) && CleanOk(n, u) {
        GiveThread(s, t, p, to, u);
      }
      forall i: nat | i < BUFFERS ensures BufferOk(n, i) {
        assert BufferOk(s, i);
        forall u: nat | u < |n.pc|
          ensures Answers(n, u, i) <==> if BufferAt(s.base, i) == p then u == to else Answers(s, u, i)
        {
          GiveAnswers(s, t, p, to, u, i);
        }
        GiveAnswers(s, t, p, to, t, i);
        if BufferAt(s.base, i) == p { assert Answers(s, t, i); }
      }
    }
  }

  lemma CarriedIsNotHeld(s: State, t: nat, p: int, u: nat)
    requires Inv(s) && t < |s.pc| && s.pc[t] == Idle && u < |s.pc| && p in s.owned[t] && 0 <= Carried(s, u)
    ensures Carried(s, u) < BUFFERS && BufferAt(s.base, Carried(s, u)) != p
  {
    assert ThreadOk(s, u);
    var i: nat := Carried(s, u);
    assert BufferOk(s, i) && Answers(s, u, i);
    assert BufferAt(s.base, i) == p ==> Answers(s, t, i);
  }

  lemma GiveThread(s: State, t: nat, p: int, to: nat, u: nat)
    requires Inv(s) && t < |s.pc| && s.pc[t] == Idle && u < |s.pc|
    requires p in s.owned[t] && to < |s.pc| && to != t
    ensures ThreadOk(Request(s, t, Give(p, to)), u) && CleanOk(Request(s, t, Give(p, to)), u)
  {
    assert ThreadOk(s, u) && CleanOk(s, u) && ThreadOk(s, t);
    if 0 <= Carried(s, u) { CarriedIsNotHeld(s, t, p, u); }
  }

  /** A step of any thread; calloc returns nothing from the pool. */
  ghost predicate Enabled(s: State, c: Choice) {
    c.Continue? ==> FromHeap(s, c.m)
  }

  lemma NextKeepsInv(s: State, t: nat, c: Choice)
    requires Inv(s) && Enabled(s, c)
    ensures Inv(Next(s, t, c))
  {
    if t < |s.pc| && s.pc[t] == Idle {
      match c
      case Allocate(size) =>
        assert ThreadOk(s, t);
        QuietStep(s, Next(s, t, c), t);
        LocalStepKeepsInv(s, Next(s, t, c), t);
      case Free(p) =>
        FreeRequestIsLocal(s, t, p);
        LocalStepKeepsInv(s, Next(s, t, c), t);
      case Write(i, k, b) =>
        WriteRequestIsLocal(s, t, i, k, b);
        LocalStepKeepsInv(s, Next(s, t, c), t);
      case Give(p, to) => GiveKeepsInv(s, t, p, to);
      case Continue(_) =>
    } else if t < |s.pc| && c.Continue? {
      AdvanceIsLocal(s, t, c.m);
      LocalStepKeepsInv(s, Next(s, t, c), t);
    }
  }

  // ---------------------------------------------------------------- the four-buffer limit

  /** The buffers thread t allocated and nobody has freed. */
  function AllocatedBy(marked: seq<bool>, allocBy: seq<int>, t: int): set<nat>
    requires |marked| == |allocBy| == BUFFERS
  {
    set i: nat | i < BUFFERS && marked[i] && allocBy[i] == t
  }

  lemma MarkedOne(marked: seq<bool>, allocBy: seq<int>, i: nat, t: int, u: int)
    requires |marked| == |allocBy| == BUFFERS && i < BUFFERS && !marked[i]
    ensures |AllocatedBy(marked[i := true], allocBy[i := t], u)| == |AllocatedBy(marked, allocBy, u)| + if u == t then 1 else 0
  {
    assert AllocatedBy(marked[i := true], allocBy[i := t], u) ==
           if u == t then AllocatedBy(marked, allocBy, u) + {i} else AllocatedBy(marked, allocBy, u);
  }

  lemma UnmarkedOne(marked: seq<bool>, allocBy: seq<int>, i: nat, u: int)
    requires |marked| == |allocBy| == BUFFERS && i < BUFFERS
    ensures |AllocatedBy(marked[i := false], allocBy, u)| <= |AllocatedBy(marked, allocBy, u)|
  {
    assert AllocatedBy(marked[i := false], allocBy, u) == AllocatedBy(marked, allocBy, u) - {i};
  }

  /** One more than the count while the thread is between marking a buffer and counting it. */
  function Charged(s: State, t: nat): int
    requires Shape(s) && t < |s.pc|
  {
    s.held[t] + if s.pc[t].UnlockBuffer? || s.pc[t].Count? then 1 else 0
  }

  ghost predicate Limited(s: State)
    requires Shape(s)
  {
    forall t: nat :: t < |s.pc| ==> |AllocatedBy(s.marked, s.allocBy, t)| <= Charged(s, t)
  }

  /** Same marks, and no thread charged less. */
  ghost predicate SameMarks(s: State, n: State)
    requires Shape(s) && Shape(n)
  {
    n.marked == s.marked && n.allocBy == s.allocBy && |n.pc| == |s.pc|
    && forall u: nat :: u < |s.pc| ==> Charged(n, u) >= Charged(s, u) && n.held[u] >= s.held[u]
  }

  lemma RequestSameMarks(s: State, t: nat, c: Choice)
    requires Shape(s) && t < |s.pc| && s.pc[t] == Idle
    ensures SameMarks(s, Request(s, t, c))
  {}

  lemma FreeSameMarks(s: State, t: nat)
    requires Shape(s) && t < |s.pc| && Freeing(s.pc[t]) && !s.pc[t].Unmark?
    ensures SameMarks(s, AdvanceFree(s, t))
  {}

  lemma MallocSameMarks(s: State, t: nat, m: int)
    requires Shape(s) && t < |s.pc| && !Freeing(s.pc[t])
    requires s.pc[t].Retry? ==> m != 0 || Scan(s.marked, 0) >= BUFFERS
    ensures SameMarks(s, AdvanceMalloc(s, t, m))
  {}

  lemma MarkLimit(s: State, t: nat, i: nat)
    requires Shape(s) && Limited(s) && t < |s.pc| && s.pc[t].Retry? && i < BUFFERS && !s.marked[i]
    ensures Limited(Mark(s, t, i))
  {
    var n := Mark(s, t, i);
    forall u: nat | u < |n.pc| ensures |AllocatedBy(n.marked, n.allocBy, u)| <= Charged(n, u) {
      MarkedOne(s.marked, s.allocBy, i, t, u);
    }
  }

  lemma UnmarkLimit(s: State, t: nat)
    requires Shape(s) && Limited(s) && t < |s.pc| && s.pc[t].Unmark?
    ensures Limited(AdvanceFree(s, t))
  {
    var n, i := AdvanceFree(s, t), s.pc[t].i;
    forall u: nat | u < |n.pc| ensures |AllocatedBy(n.marked, n.allocBy, u)| <= Charged(n, u) {
      if i < BUFFERS { UnmarkedOne(s.marked, s.allocBy, i, u); }
    }
  }

  lemma NextKeepsLimit(s: State, t: nat, c: Choice)
    requires Shape(s) && Limited(s)
    ensures Shape(Next(s, t, c)) && |Next(s, t, c).pc| == |s.pc| && Limited(Next(s, t, c))
    ensures forall u: nat :: u < |s.pc| ==> s.held[u] <= Next(s, t, c).held[u]
  {
    if t < |s.pc| {
      if s.pc[t] == Idle {
        RequestSameMarks(s, t, c);
      } else if c.Continue? {
        AdvanceKeepsLimit(s, t, c.m);
      }
    }
  }

  lemma AdvanceKeepsLimit(s: State, t: nat, m: int)
    requires Shape(s) && Limited(s) && t < |s.pc|
    ensures Shape(Advance(s, t, m)) && |Advance(s, t, m).pc| == |s.pc| && Limited(Advance(s, t, m))
    ensures forall u: nat :: u < |s.pc| ==> s.held[u] <= Advance(s, t, m).held[u]
  {
    if s.pc[t].Retry? && m == 0 && Scan(s.marked, 0) < BUFFERS {
      ScanFinds(s.marked, 0);
      MarkLimit(s, t, Scan(s.marked, 0));
    } else if s.pc[t].Unmark? {
      UnmarkLimit(s, t);
    } else if Freeing(s.pc[t]) {
      FreeSameMarks(s, t);
    } else {
      MallocSameMarks(s, t, m);
    }
  }

  // ---------------------------------------------------------------- runs

  datatype Step = Step(thread: nat, choice: Choice)

  ghost predicate Runs(s: State, steps: seq<Step>, last: State)
    requires Shape(s)
    decreases |steps|
  {
    if steps == [] then last == s
    else Enabled(s, steps[0].choice) && Shape(Next(s, steps[0].thread, steps[0].choice))
         && Runs(Next(s, steps[0].thread, steps[0].choice), steps[1..], last)
  }

  /** A run may go on with any step of any thread; only calloc is held to NULL or memory outside the pool. */
  lemma RunGoesOn(s: State, t: nat, c: Choice)
    requires Shape(s)
    ensures Shape(Next(s, t, c))
    ensures Runs(s, [Step(t, c)], Next(s, t, c)) <==>
            !c.Continue? || c.m == 0 || (c.m > 0 && !(s.base <= c.m < s.base + 16384))
  {
    NextShape(s, t, c);
    hide Next;
    assert [Step(t, c)][1..] == [];
  }

  ghost predicate Initial(s: State) {
    && Shape(s) && s.lock == -1
    && (forall t :: 0 <= t < |s.pc| ==> s.pc[t] == Idle && s.owned[t] == {} && s.held[t] == 0)
    && (forall i :: 0 <= i < BUFFERS ==> !s.marked[i] && s.contents[i] == AllZero())
  }

  lemma InitialInv(s: State)
    requires Initial(s)
    ensures Inv(s) && Limited(s)
  {
    forall t: nat | t < |s.pc| ensures ThreadOk(s, t) && CleanOk(s, t) && AllocatedBy(s.marked, s.allocBy, t) == {} {}
  }

  lemma {:induction false} RunKeepsInv(s: State, steps: seq<Step>, last: State)
    requires Inv(s) && Limited(s) && Runs(s, steps, last)
    ensures Inv(last) && Limited(last) && |last.pc| == |s.pc|
    ensures forall t: nat :: t < |s.pc| ==> s.held[t] <= last.held[t]
    decreases |steps|
  {
    if steps != [] {
      NextKeepsInv(s, steps[0].thread, steps[0].choice);
      NextKeepsLimit(s, steps[0].thread, steps[0].choice);
      RunKeepsInv(Next(s, steps[0].thread, steps[0].choice), steps[1..], last);
    }
  }

  /** Only requests that fit a buffer get past the test. */
  ghost predicate SizesFit(s: State) {
    forall t: nat :: t < |s.pc| && (s.pc[t].MallocLock? || s.pc[t].Retry? || s.pc[t].Waiting?) ==> s.pc[t].size <= 1024
  }

  lemma OwnSize(s: State, t: nat, c: Choice)
    requires Shape(s) && t < |s.pc|
    ensures var n := Next(s, t, c);
            && |n.pc| == |s.pc| && (forall u: nat :: u < |s.pc| && u != t ==> n.pc[u] == s.pc[u])
            && (n.pc[t].MallocLock? || n.pc[t].Retry? || n.pc[t].Waiting? ==>
                  (s.pc[t].Test? && n.pc[t].size <= 1024)
                  || ((s.pc[t].MallocLock? || s.pc[t].Retry? || s.pc[t].Waiting?) && n.pc[t].size == s.pc[t].size))
  {
    hide Scan, Slot;
  }

  lemma NextKeepsSizes(s: State, t: nat, c: Choice)
    requires Shape(s) && SizesFit(s)
    ensures SizesFit(Next(s, t, c))
  {
    if t < |s.pc| { OwnSize(s, t, c); }
    hide Next;
    StaysOut(s, t, c);
  }

  lemma StaysOut(s: State, t: nat, c: Choice)
    requires Shape(s)
    ensures t >= |s.pc| ==> Next(s, t, c) == s
  {}

  lemma {:induction false} RunKeepsSizes(s: State, steps: seq<Step>, last: State)
    requires Shape(s) && SizesFit(s) && Runs(s, steps, last)
    ensures SizesFit(last)
    decreases |steps|
  {
    if steps != [] {
      NextKeepsSizes(s, steps[0].thread, steps[0].choice);
      RunKeepsSizes(Next(s, steps[0].thread, steps[0].choice), steps[1..], last);
    }
  }

  /** On every run: no buffer has two owners, an unmarked buffer is all zero, the slot assertion never
      fails, no thread has more than four buffers it allocated and nobody freed, and whoever waits for a buffer
      asked for no more than one holds. */
  lemma PoolSafety(s: State, steps: seq<Step>, last: State, t: nat, u: nat, i: nat)
    requires Initial(s) && Runs(s, steps, last) && t < |s.pc| && u < |s.pc| && i < BUFFERS
    ensures Inv(last) && |last.pc| == |s.pc|
    ensures BufferAt(last.base, i) in last.owned[t] && BufferAt(last.base, i) in last.owned[u] ==> t == u
    ensures BufferAt(last.base, i) in last.owned[t] ==> last.marked[i]
    ensures !last.marked[i] ==> forall k :: 0 <= k < 1024 ==> last.contents[i][k] == 0
    ensures last.pc[t] != Failed
    ensures |AllocatedBy(last.marked, last.allocBy, t)| <= 4
    ensures last.pc[t].MallocLock? || last.pc[t].Retry? || last.pc[t].Waiting? ==> last.pc[t].size <= 1024
  {
    InitialInv(s);
    RunKeepsSizes(s, steps, last);
    RunKeepsInv(s, steps, last);
    assert ThreadOk(last, t) && BufferOk(last, i);
    assert BufferAt(last.base, i) in last.owned[t] ==> Answers(last, t, i);
    assert BufferAt(last.base, i) in last.owned[u] ==> Answers(last, u, i);
  }

  /** A buffer is all zero when a thread receives it from `emergency_malloc`. */
  lemma HandedOverZero(s: State, t: nat, m: int)
    requires Inv(s) && t < |s.pc| && s.pc[t].Count?
    ensures s.pc[t].i < BUFFERS && Shape(Advance(s, t, m))
    ensures BufferAt(s.base, s.pc[t].i) in Advance(s, t, m).owned[t]
    ensures forall k :: 0 <= k < 1024 ==> Advance(s, t, m).contents[s.pc[t].i][k] == 0
  {
    assert ThreadOk(s, t) && CleanOk(s, t);
  }

  /** `free_exception` routes a pointer by its address alone, and rightly: a held pointer into the pool is
      the start of a marked buffer and goes to that buffer's slot; every other goes to `free`. */
  lemma FreeFindsAllocator(s: State, t: nat, p: int)
    requires Inv(s) && t < |s.pc| && s.pc[t] == Idle && p in s.owned[t]
    ensures var n := Request(s, t, Free(p));
            if InPool(s.base, p)
            then Slot(s.base, p, 0) < BUFFERS && s.marked[Slot(s.base, p, 0)] && Advance(n, t, 0).pc[t] == Zero(Slot(s.base, p, 0))
            else n.pc[t] == Idle && (forall i: nat :: i < BUFFERS ==> p != BufferAt(s.base, i))
  {
    assert ThreadOk(s, t);
    SlotFinds(s.base, p, 0);
    if InPool(s.base, p) {
      assert BufferOk(s, Slot(s.base, p, 0)) && Answers(s, t, Slot(s.base, p, 0));
    }
  }

  // ---------------------------------------------------------------- what a call does by itself

  lemma NextShape(s: State, t: nat, c: Choice)
    requires Shape(s)
    ensures Shape(Next(s, t, c)) && |Next(s, t, c).pc| == |s.pc|
  {
    if t < |s.pc| && s.pc[t] == Idle {
      RequestShape(s, t, c);
    } else if t < |s.pc| && c.Continue? {
      AdvanceShape(s, t, c.m);
    }
    hide Request, Advance;
  }

  lemma RequestShape(s: State, t: nat, c: Choice)
    requires Shape(s) && t < |s.pc|
    ensures Shape(Request(s, t, c)) && |Request(s, t, c).pc| == |s.pc|
  {
    hide Slot;
  }

  lemma AdvanceShape(s: State, t: nat, m: int)
    requires Shape(s) && t < |s.pc|
    ensures Shape(Advance(s, t, m)) && |Advance(s, t, m).pc| == |s.pc|
  {
    hide Slot, Scan;
  }

  /** Thread t takes these steps and nobody else moves. */
  function Steps(s: State, t: nat, choices: seq<Choice>): (n: State)
    requires Shape(s)
    ensures Shape(n) && |n.pc| == |s.pc|
    decreases |choices|
  {
    if choices == [] then s
    else
      NextShape(s, t, choices[0]);
      Steps(Next(s, t, choices[0]), t, choices[1..])
  }

  lemma StepsSplit(s: State, t: nat, c: Choice, rest: seq<Choice>)
    requires Shape(s)
    ensures Shape(Next(s, t, c)) && Steps(s, t, [c] + rest) == Steps(Next(s, t, c), t, rest)
  {
    NextShape(s, t, c);
    assert ([c] + rest)[1..] == rest;
  }

  /** calloc returns m at the first of n steps, and would return NULL at the others. */
  function Then(m: int, n: nat): seq<Choice> {
    [Continue(m)] + seq(n, i => Continue(0))
  }

  lemma ThenSplit(s: State, t: nat, m: int, n: nat)
    requires Shape(s)
    ensures Shape(Next(s, t, Continue(m)))
    ensures Steps(s, t, Then(m, n)) == if n == 0 then Next(s, t, Continue(m)) else Steps(Next(s, t, Continue(m)), t, Then(0, n - 1))
  {
    StepsSplit(s, t, Continue(m), seq(n, i => Continue(0)));
    if n > 0 { assert seq(n, i => Continue(0)) == Then(0, n - 1); }
  }

  /** What a holder writes is in its buffer, and a pointer given away is its new holder's. */
  lemma RequestsAreSeen(s: State, t: nat, i: nat, k: nat, b: int, to: nat)
    requires Shape(s) && t < |s.pc| && s.pc[t] == Idle && i < 16 && s.base + 1024 * i in s.owned[t]
    requires k < 1024 && to < |s.pc| && to != t
    ensures Next(s, t, Write(i, k, b)) == s.(contents := s.contents[i := s.contents[i][k := b]])
    ensures Next(s, t, Give(s.base + 1024 * i, to)).owned
            == s.owned[t := s.owned[t] - {s.base + 1024 * i}][to := s.owned[to] + {s.base + 1024 * i}]
  {}

  /** calloc has memory: the caller gets it, and the pool is not touched. */
  lemma HeapAnswers(s: State, t: nat, size: nat, m: int)
    requires Shape(s) && t < |s.pc| && s.pc[t] == Idle && m != 0
    ensures Steps(s, t, [Allocate(size)] + Then(m, 0)) == s.(owned := s.owned[t := s.owned[t] + {m}])
  {
    StepsSplit(s, t, Allocate(size), Then(m, 0));
    ThenSplit(Goto(s, t, TryHeap(size)), t, m, 0);
    assert s.pc[t := TryHeap(size)][t := Idle] == s.pc;
  }

  /** calloc has none, and the request is for more than a buffer, or the thread has had its four: the program
      ends at the next step, and nothing was handed out. */
  lemma TooMuchTerminates(s: State, t: nat, size: nat)
    requires Shape(s) && t < |s.pc| && s.pc[t] == Idle && (size > 1024 || s.held[t] > 3)
    ensures Steps(s, t, [Allocate(size)] + Then(0, 1)) == s.(pc := s.pc[t := Terminated])
  {
    StepsSplit(s, t, Allocate(size), Then(0, 1));
    ThenSplit(Goto(s, t, TryHeap(size)), t, 0, 1);
    ThenSplit(Goto(s, t, Test(size)), t, 0, 0);
    assert s.pc[t := TryHeap(size)][t := Test(size)][t := Terminated] == s.pc[t := Terminated];
  }

  /** What a thread leaves that was given buffer k. */
  ghost predicate Granted(s: State, n: State, t: nat, k: nat)
    requires Shape(s) && Shape(n) && t < |s.pc| == |n.pc| && k < 16
  {
    && !s.marked[k] && (forall j :: 0 <= j < k ==> s.marked[j])
    && n.owned == s.owned[t := s.owned[t] + {s.base + 1024 * k}] && n.marked == s.marked[k := true]
    && n.pc == s.pc[t := Idle] && n.lock == -1 && n.held == s.held[t := s.held[t] + 1] && n.contents == s.contents
    && n.base == s.base
  }

  lemma GrantedFrom(s: State, before: State, n: State, t: nat, k: nat, pc: Pc)
    requires Shape(s) && Shape(n) && t < |s.pc| == |n.pc| && k < 16 && before == s.(pc := s.pc[t := pc])
    requires Granted(before, n, t, k)
    ensures Granted(s, n, t, k)
  {
    Overwrite(s.pc, t, pc, Idle);
  }

  /** One step each. */
  lemma AtTryHeap(s: State, t: nat, size: nat)
    requires Shape(s) && t < |s.pc| && s.pc[t] == TryHeap(size)
    ensures Next(s, t, Continue(0)) == s.(pc := s.pc[t := Test(size)])
  {}

  lemma AtTest(s: State, t: nat, size: nat)
    requires Shape(s) && t < |s.pc| && s.pc[t] == Test(size) && size <= 1024 && s.held[t] <= 3
    ensures Next(s, t, Continue(0)) == s.(pc := s.pc[t := MallocLock(size)])
  {}

  lemma AtMallocLock(s: State, t: nat, size: nat)
    requires Shape(s) && t < |s.pc| && s.pc[t] == MallocLock(size) && s.lock == -1
    ensures Next(s, t, Continue(0)) == s.(lock := t, pc := s.pc[t := Retry(size)])
  {}

  lemma AtRetry(s: State, t: nat, size: nat)
    requires Shape(s) && t < |s.pc| && s.pc[t] == Retry(size)
    ensures var k := Scan(s.marked, 0);
            if k < BUFFERS
            then Next(s, t, Continue(0))
                 == s.(marked := s.marked[k := true], holder := s.holder[k := t], allocBy := s.allocBy[k := t],
                       pc := s.pc[t := UnlockBuffer(k)])
            else Next(s, t, Continue(0)) == s.(lock := -1, pc := s.pc[t := Waiting(size)])
  {
    ScanFinds(s.marked, 0);
  }

  lemma AtUnlockBuffer(s: State, t: nat, k: nat)
    requires Shape(s) && t < |s.pc| && s.pc[t] == UnlockBuffer(k)
    ensures Next(s, t, Continue(0)) == s.(lock := -1, pc := s.pc[t := Count(k)])
  {}

  lemma AtCount(s: State, t: nat, k: nat)
    requires Shape(s) && t < |s.pc| && s.pc[t] == Count(k)
    ensures Next(s, t, Continue(0))
            == s.(held := s.held[t := s.held[t] + 1], pc := s.pc[t := Idle], owned := s.owned[t := s.owned[t] + {s.base + 1024 * k}])
  {}

  lemma Overwrite(pc: seq<Pc>, t: nat, a: Pc, b: Pc)
    requires t < |pc|
    ensures pc[t := a][t := b] == pc[t := b]
  {}

  /** Locked, with a buffer unmarked and calloc refusing. */
  lemma RetryAnswers(s: State, t: nat, size: nat)
    requires Shape(s) && t < |s.pc| && s.pc[t] == Retry(size) && false in s.marked
    ensures var k := Scan(s.marked, 0); k < 16 && Granted(s, Steps(s, t, Then(0, 2)), t, k)
  {
    hide Next, Steps, Scan, Then;
    ScanFinds(s.marked, 0);
    var k := Scan(s.marked, 0);
    var free :| 0 <= free < 16 && !s.marked[free];
    assert k <= free;
    AtRetry(s, t, size);
    ThenSplit(s, t, 0, 2);
    var s2 := Next(s, t, Continue(0));
    AtUnlockBuffer(s2, t, k);
    ThenSplit(s2, t, 0, 1);
    var s3 := Next(s2, t, Continue(0));
    AtCount(s3, t, k);
    ThenSplit(s3, t, 0, 0);
    Overwrite(s.pc, t, UnlockBuffer(k), Count(k));
    Overwrite(s.pc, t, Count(k), Idle);
  }

  /** The lock is free and a buffer unmarked: a thread that wants the lock, first or after waking, takes the
      lowest unmarked buffer if calloc still refuses. */
  lemma LockAnswers(s: State, t: nat, size: nat)
    requires Shape(s) && t < |s.pc| && s.pc[t] == MallocLock(size) && s.lock == -1 && false in s.marked
    ensures var k := Scan(s.marked, 0); k < 16 && Granted(s, Steps(s, t, Then(0, 3)), t, k)
  {
    hide Next, Steps, Scan, Then;
    AtMallocLock(s, t, size);
    ThenSplit(s, t, 0, 3);
    var s1 := Next(s, t, Continue(0));
    RetryAnswers(s1, t, size);
    Overwrite(s.pc, t, Retry(size), Idle);
  }

  /** An allocation of at most 1024 bytes that calloc refuses, by a thread that has not had its four, with the
      lock free and a buffer unmarked: in its own steps the caller gets the lowest unmarked buffer. */
  lemma AllocationAnswers(s: State, t: nat, size: nat)
    requires Shape(s) && t < |s.pc| && s.pc[t] == Idle && size <= 1024 && s.held[t] <= 3
    requires s.lock == -1 && false in s.marked
    ensures var k := Scan(s.marked, 0); k < 16 && Granted(s, Steps(s, t, [Allocate(size)] + Then(0, 5)), t, k)
  {
    AtAllocate(s, t, size);
    hide Next, Steps, Scan, Then, Granted;
    StepsSplit(s, t, Allocate(size), Then(0, 5));
    var s1 := Next(s, t, Allocate(size));
    AtTryHeap(s1, t, size);
    ThenSplit(s1, t, 0, 5);
    var s2 := Next(s1, t, Continue(0));
    Overwrite(s.pc, t, TryHeap(size), Test(size));
    AtTest(s2, t, size);
    ThenSplit(s2, t, 0, 4);
    var s3 := Next(s2, t, Continue(0));
    Overwrite(s.pc, t, Test(size), MallocLock(size));
    LockAnswers(s3, t, size);
    GrantedFrom(s, s3, Steps(s3, t, Then(0, 3)), t, Scan(s.marked, 0), MallocLock(size));
  }

  lemma AtAllocate(s: State, t: nat, size: nat)
    requires Shape(s) && t < |s.pc| && s.pc[t] == Idle
    ensures Next(s, t, Allocate(size)) == s.(pc := s.pc[t := TryHeap(size)])
  {}

  /** A thread that waits, once it is woken and a buffer is unmarked. */
  lemma WaiterAnswers(s: State, t: nat, size: nat)
    requires Shape(s) && t < |s.pc| && s.pc[t] == Waiting(size) && s.lock == -1 && false in s.marked
    ensures var k := Scan(s.marked, 0); k < 16 && Granted(s, Steps(s, t, Then(0, 4)), t, k)
  {
    AtWaiting(s, t, size);
    hide Next, Steps, Scan, Then, Granted;
    ThenSplit(s, t, 0, 4);
    var s1 := Next(s, t, Continue(0));
    LockAnswers(s1, t, size);
    GrantedFrom(s, s1, Steps(s1, t, Then(0, 3)), t, Scan(s.marked, 0), MallocLock(size));
  }

  lemma AtWaiting(s: State, t: nat, size: nat)
    requires Shape(s) && t < |s.pc| && s.pc[t] == Waiting(size)
    ensures Next(s, t, Continue(0)) == s.(pc := s.pc[t := MallocLock(size)])
  {}

  /** With every buffer marked the thread goes to sleep and leaves the lock free. */
  lemma AllMarkedWaits(s: State, t: nat, size: nat)
    requires Shape(s) && t < |s.pc| && s.pc[t] == MallocLock(size) && s.lock == -1 && false !in s.marked
    ensures Steps(s, t, Then(0, 1)) == s.(pc := s.pc[t := Waiting(size)])
  {
    hide Next, Steps, Scan, Then;
    ScanFinds(s.marked, 0);
    AtMallocLock(s, t, size);
    ThenSplit(s, t, 0, 1);
    var s1 := Next(s, t, Continue(0));
    AtRetry(s1, t, size);
    ThenSplit(s1, t, 0, 0);
    Overwrite(s.pc, t, Retry(size), Waiting(size));
  }

  lemma AtRetryWithMemory(s: State, t: nat, size: nat, m: int)
    requires Shape(s) && t < |s.pc| && s.pc[t] == Retry(size) && m != 0
    ensures Next(s, t, Continue(m)) == s.(pc := s.pc[t := UnlockHeap(m)])
  {}

  lemma AtUnlockHeap(s: State, t: nat, m: int)
    requires Shape(s) && t < |s.pc| && s.pc[t] == UnlockHeap(m)
    ensures Next(s, t, Continue(0)) == s.(lock := -1, pc := s.pc[t := Idle], owned := s.owned[t := s.owned[t] + {m}])
  {}

  /** Memory that calloc has by the time the lock is held is taken, whether or not a buffer is unmarked. */
  lemma RetryTakesMemory(s: State, t: nat, size: nat, m: int)
    requires Shape(s) && t < |s.pc| && s.pc[t] == Retry(size) && m != 0
    ensures Steps(s, t, Then(m, 1)) == s.(lock := -1, pc := s.pc[t := Idle], owned := s.owned[t := s.owned[t] + {m}])
  {
    hide Next, Steps, Then;
    AtRetryWithMemory(s, t, size, m);
    ThenSplit(s, t, m, 1);
    var s1 := Next(s, t, Continue(m));
    AtUnlockHeap(s1, t, m);
    ThenSplit(s1, t, 0, 0);
    Overwrite(s.pc, t, UnlockHeap(m), Idle);
  }

  /** `free_exception` of a buffer, with the lock free: the buffer is zeroed and unmarked again. Any other
      pointer the thread holds leaves the pool alone. */
  lemma FreeAnswers(s: State, t: nat, p: int)
    requires Shape(s) && t < |s.pc| && s.pc[t] == Idle && p in s.owned[t] && s.lock == -1
    ensures forall k: nat :: k < 16 && p == s.base + 1024 * k ==>
              Steps(s, t, [Free(p)] + Then(0, 4))
              == s.(owned := s.owned[t := s.owned[t] - {p}], marked := s.marked[k := false], contents := s.contents[k := AllZero()])
    ensures !(s.base <= p < s.base + 16384) ==>
              Steps(s, t, [Free(p)]) == s.(owned := s.owned[t := s.owned[t] - {p}])
  {
    forall k: nat | k < 16 && p == s.base + 1024 * k
      ensures Steps(s, t, [Free(p)] + Then(0, 4))
              == s.(owned := s.owned[t := s.owned[t] - {p}], marked := s.marked[k := false], contents := s.contents[k := AllZero()])
    {
      FreeBuffer(s, t, p, k);
    }
    if !(s.base <= p < s.base + 16384) {
      StepsSplit(s, t, Free(p), []);
      assert [Free(p)] + [] == [Free(p)] && s.pc[t := Idle] == s.pc;
    }
  }

  lemma AtFree(s: State, t: nat, p: int)
    requires Shape(s) && t < |s.pc| && s.pc[t] == Idle && p in s.owned[t] && s.base <= p < s.base + 16384
    ensures Next(s, t, Free(p)) == s.(pc := s.pc[t := Find(p)], owned := s.owned[t := s.owned[t] - {p}])
  {}

  lemma AtFind(s: State, t: nat, k: nat)
    requires Shape(s) && t < |s.pc| && k < 16 && s.pc[t] == Find(s.base + 1024 * k)
    ensures Next(s, t, Continue(0)) == s.(pc := s.pc[t := Zero(k)])
  {
    SlotOfBuffer(s, k);
    hide Slot;
  }

  /** A pointer into the pool that starts no buffer would fail the assertion. */
  lemma SlotAssertion(s: State, t: nat, p: int)
    requires Shape(s) && t < |s.pc| && s.pc[t] == Find(p)
    ensures Next(s, t, Continue(0)).pc[t] == Failed <==> forall k: nat :: k < 16 ==> p != BufferAt(s.base, k)
  {
    SlotFinds(s.base, p, 0);
  }

  lemma AtZero(s: State, t: nat, k: nat)
    requires Shape(s) && t < |s.pc| && k < 16 && s.pc[t] == Zero(k)
    ensures Next(s, t, Continue(0)) == s.(contents := s.contents[k := AllZero()], pc := s.pc[t := FreeLock(k)])
  {}

  lemma AtFreeLock(s: State, t: nat, k: nat)
    requires Shape(s) && t < |s.pc| && s.pc[t] == FreeLock(k) && s.lock == -1
    ensures Next(s, t, Continue(0)) == s.(lock := t, pc := s.pc[t := Unmark(k)])
  {}

  lemma AtUnmark(s: State, t: nat, k: nat)
    requires Shape(s) && t < |s.pc| && k < 16 && s.pc[t] == Unmark(k)
    ensures Next(s, t, Continue(0)) == s.(marked := s.marked[k := false], pc := s.pc[t := FreeUnlock])
  {}

  lemma AtFreeUnlock(s: State, t: nat)
    requires Shape(s) && t < |s.pc| && s.pc[t] == FreeUnlock
    ensures Next(s, t, Continue(0)) == s.(lock := -1, pc := s.pc[t := Idle])
  {}

  lemma FreeBuffer(s: State, t: nat, p: int, k: nat)
    requires Shape(s) && t < |s.pc| && s.pc[t] == Idle && p in s.owned[t] && s.lock == -1
    requires k < 16 && p == s.base + 1024 * k
    ensures Steps(s, t, [Free(p)] + Then(0, 4))
            == s.(owned := s.owned[t := s.owned[t] - {p}], marked := s.marked[k := false], contents := s.contents[k := AllZero()])
  {
    hide Next, Steps, Then, AllZero;
    AtFree(s, t, p);
    StepsSplit(s, t, Free(p), Then(0, 4));
    var s1 := Next(s, t, Free(p));
    AtFind(s1, t, k);
    ThenSplit(s1, t, 0, 4);
    var s2 := Next(s1, t, Continue(0));
    Overwrite(s.pc, t, Find(p), Zero(k));
    AtZero(s2, t, k);
    ThenSplit(s2, t, 0, 3);
    var s3 := Next(s2, t, Continue(0));
    Overwrite(s.pc, t, Zero(k), FreeLock(k));
    AtFreeLock(s3, t, k);
    ThenSplit(s3, t, 0, 2);
    var s4 := Next(s3, t, Continue(0));
    Overwrite(s.pc, t, FreeLock(k), Unmark(k));
    AtUnmark(s4, t, k);
    ThenSplit(s4, t, 0, 1);
    var s5 := Next(s4, t, Continue(0));
    Overwrite(s.pc, t, Unmark(k), FreeUnlock);
    AtFreeUnlock(s5, t);
    ThenSplit(s5, t, 0, 0);
    Overwrite(s.pc, t, FreeUnlock, Idle);
    assert s.pc[t := Idle] == s.pc;
  }
}
