/** The context switch (kernel/asm/switch.s), instruction by instruction, and what it preserves over whole
    runs of threads that each use only their own stack. Addresses and words are 32-bit; memory is read and
    written a word at a time, and two words overlap when their addresses are less than 4 apart. */
module ContextSwitch {

  const STACK_SIZE := 4096
  const SAVED := 20

  type Memory = map<int, int>

  /** Registers and memory. */
  datatype Machine = Machine(eax: int, ebx: int, ecx: int, esi: int, edi: int, ebp: int, esp: int, eip: int, mem: Memory)

  function Read(mem: Memory, a: int): int { if a in mem then mem[a] else 0 }

  /** What the return from the switch loads, with the stack pointer and address it leaves. */
  datatype Context = Context(ebp: int, ebx: int, esi: int, edi: int, esp: int, eip: int)

  function ContextOf(m: Machine): Context {
    Context(m.ebp, m.ebx, m.esi, m.edi, m.esp, m.eip)
  }

  // ---------------------------------------------------------------- the instructions

  class Cpu {
    var eax: int
    var ebx: int
    var ecx: int
    var esi: int
    var edi: int
    var ebp: int
    var esp: int
    var eip: int
    var mem: Memory

    function State(): Machine
      reads this
    {
      Machine(eax, ebx, ecx, esi, edi, ebp, esp, eip, mem)
    }

    constructor (m: Machine)
      ensures State() == m
    {
      eax, ebx, ecx, esi, edi, ebp, esp, eip, mem := m.eax, m.ebx, m.ecx, m.esi, m.edi, m.ebp, m.esp, m.eip, m.mem;
    }

    /** Other code runs, and leaves the machine so. */
    method Load(m: Machine)
      modifies this
      ensures State() == m
    {
      eax, ebx, ecx, esi, edi, ebp, esp, eip, mem := m.eax, m.ebx, m.ecx, m.esi, m.edi, m.ebp, m.esp, m.eip, m.mem;
    }

    method Push(w: int)
      modifies this
      ensures State() == old(State()).(esp := old(esp) - 4, mem := old(mem)[old(esp) - 4 := w])
    {
      esp := esp - 4;
      mem := mem[esp := w];
    }

    method Pop() returns (w: int)
      modifies this
      ensures w == Read(mem, old(esp)) && State() == old(State()).(esp := old(esp) + 4)
    {
      w := Read(mem, esp);
      esp := esp + 4;
    }

    /** `switch_context(last_esp, next_esp)`, entered by a call. */
    method SwitchContext()
      modifies this
      ensures State() == Resumed(Suspend(old(State())), Read(old(mem), old(esp) + 8))
    {
      eax := Read(mem, esp + 4);
      ecx := Read(mem, esp + 8);
      SaveRegisters();
      mem := mem[eax := esp];
      ghost var saved := Suspend(old(State()));
      assert State() == saved.(esp := esp, ecx := ecx);
      LoadRegisters();
      SameWhenLoaded(saved, old(esp) - 16, Read(old(mem), old(esp) + 8));
    }

    method SaveRegisters()
      modifies this
      ensures State() == old(State()).(esp := old(esp) - 16,
                mem := old(mem)[old(esp) - 4 := ebp][old(esp) - 8 := ebx][old(esp) - 12 := esi][old(esp) - 16 := edi])
    {
      Push(ebp);
      Push(ebx);
      Push(esi);
      Push(edi);
    }

    /** The tail both routines end with. */
    method LoadRegisters()
      modifies this
      ensures State() == Resumed(old(State()), old(ecx))
    {
      esp := Read(mem, ecx);
      edi := Pop();
      esi := Pop();
      ebx := Pop();
      ebp := Pop();
      eip := Pop();
    }

    /** `set_context(next_esp)`, entered by a call. */
    method SetContext()
      modifies this
      ensures State() == Resumed(old(State()), Read(old(mem), old(esp) + 4))
    {
      ecx := Read(mem, esp + 4);
      LoadRegisters();
    }
  }

  /** The first half of the switch: the outgoing thread's four registers go below its return address, and
      the address of the last goes to the cell named by the first argument. */
  function Suspend(m: Machine): Machine {
    var mem := m.mem[m.esp - 4 := m.ebp][m.esp - 8 := m.ebx][m.esp - 12 := m.esi][m.esp - 16 := m.edi];
    m.(eax := Read(m.mem, m.esp + 4), mem := mem[Read(m.mem, m.esp + 4) := m.esp - 16])
  }

  /** The second half: everything is loaded from the stack whose saved pointer is in `cell`. */
  function Resumed(m: Machine, cell: int): Machine {
    var esp := Read(m.mem, cell);
    m.(ecx := cell, edi := Read(m.mem, esp), esi := Read(m.mem, esp + 4), ebx := Read(m.mem, esp + 8),
       ebp := Read(m.mem, esp + 12), eip := Read(m.mem, esp + 16), esp := esp + SAVED)
  }

  /** Loading does not look at the stack pointer or the cell register it replaces. */
  lemma SameWhenLoaded(m: Machine, esp: int, cell: int)
    ensures Resumed(m.(esp := esp, ecx := cell), cell) == Resumed(m, cell)
  {}

  // ---------------------------------------------------------------- threads in memory

  /** Where a thread's stack begins, and where its saved stack pointer is kept. */
  datatype Home = Home(stack: int, espCell: int) {
    function Top(): int { stack + STACK_SIZE }
  }

  predicate Overlap(a: int, b: int) { a - 4 < b < a + 4 }

  predicate OnStack(h: Home, a: int) { h.stack <= a && a + 4 <= h.Top() }

  /** Stacks do not overlap, nor do the cells, and no cell overlaps a stack. */
  ghost predicate Apart(homes: seq<Home>) {
    && (forall i, j :: 0 <= i < |homes| && 0 <= j < |homes| && i != j ==>
          homes[i].Top() <= homes[j].stack || homes[j].Top() <= homes[i].stack)
    && (forall i, j :: 0 <= i < |homes| && 0 <= j < |homes| && i != j ==> !Overlap(homes[i].espCell, homes[j].espCell))
    && (forall i, j :: 0 <= i < |homes| && 0 <= j < |homes| ==>
          homes[i].espCell + 4 <= homes[j].stack || homes[j].Top() <= homes[i].espCell)
  }

  /** The thread at home `h` is switched out, and a switch to it will restore `c`. */
  ghost predicate Parked(mem: Memory, h: Home, c: Context) {
    && h.stack <= c.esp - SAVED && c.esp <= h.Top()
    && Read(mem, h.espCell) == c.esp - SAVED
    && Read(mem, c.esp - 20) == c.edi && Read(mem, c.esp - 16) == c.esi && Read(mem, c.esp - 12) == c.ebx
    && Read(mem, c.esp - 8) == c.ebp && Read(mem, c.esp - 4) == c.eip
  }

  /** Memory of thread `h`: its stack and its cell. */
  predicate Belongs(h: Home, a: int) { OnStack(h, a) || a == h.espCell }

  lemma ParkedFrame(before: Memory, after: Memory, h: Home, c: Context)
    requires Parked(before, h, c)
    requires forall a :: Belongs(h, a) ==> Read(after, a) == Read(before, a)
    ensures Parked(after, h, c)
  {}

  lemma ResumeRestores(m: Machine, h: Home, c: Context)
    requires Parked(m.mem, h, c)
    ensures ContextOf(Resumed(m, h.espCell)) == c && Resumed(m, h.espCell).mem == m.mem
  {}

  /** A thread about to be switched out: it has called the switch with its own cell as first argument, and
      has room for four more words. */
  ghost predicate Calling(m: Machine, h: Home) {
    && h.stack <= m.esp - 16 && m.esp + 4 <= h.Top()
    && Read(m.mem, m.esp + 4) == h.espCell
  }

  /** The context a thread is switched out with: its registers, and the return address it called with. */
  function CallContext(m: Machine): Context {
    Context(m.ebp, m.ebx, m.esi, m.edi, m.esp + 4, Read(m.mem, m.esp))
  }

  lemma SuspendParks(m: Machine, h: Home)
    requires Calling(m, h) && (h.espCell + 4 <= h.stack || h.Top() <= h.espCell)
    ensures Parked(Suspend(m).mem, h, CallContext(m))
    ensures forall a :: !Belongs(h, a) ==> Read(Suspend(m).mem, a) == Read(m.mem, a)
  {}

  lemma HomesApart(homes: seq<Home>, i: nat, j: nat, a: int)
    requires Apart(homes) && i < |homes| && j < |homes| && i != j && Belongs(homes[i], a)
    ensures !Belongs(homes[j], a)
  {}

  // ---------------------------------------------------------------- whole runs

  /** The machine, the thread that runs, and (as history) the context each thread was last switched out
      with, or was seeded with. */
  datatype System = System(m: Machine, running: nat, parked: seq<Context>)

  ghost predicate Valid(s: System, homes: seq<Home>) {
    && Apart(homes) && |s.parked| == |homes| && s.running < |homes|
    && forall i: nat :: i < |homes| && i != s.running ==> Parked(s.m.mem, homes[i], s.parked[i])
  }

  /** The running thread runs: any registers, and any memory but the other threads' stacks and cells. */
  ghost predicate Runs(s: System, t: System, homes: seq<Home>) {
    && t.running == s.running && t.parked == s.parked
    && forall i: nat, a: int :: i < |homes| && i != s.running && Belongs(homes[i], a) ==> Read(t.m.mem, a) == Read(s.m.mem, a)
  }

  /** The running thread switches to thread `next`. */
  ghost predicate Switches(s: System, t: System, homes: seq<Home>, next: nat) {
    && s.running < |homes| && next < |homes| && next != s.running && |s.parked| == |homes|
    && Calling(s.m, homes[s.running]) && Read(s.m.mem, s.m.esp + 8) == homes[next].espCell
    && t.m == Resumed(Suspend(s.m), homes[next].espCell)
    && t.running == next && t.parked == s.parked[s.running := CallContext(s.m)]
  }

  lemma RunsKeepsValid(s: System, t: System, homes: seq<Home>)
    requires Valid(s, homes) && Runs(s, t, homes)
    ensures Valid(t, homes)
  {
    forall i: nat | i < |homes| && i != t.running ensures Parked(t.m.mem, homes[i], t.parked[i]) {
      ParkedFrame(s.m.mem, t.m.mem, homes[i], s.parked[i]);
    }
  }

  /** A switch resumes its thread with exactly the context the thread was switched out with, and every
      other thread stays parked. */
  lemma SwitchRestores(s: System, t: System, homes: seq<Home>, next: nat)
    requires Valid(s, homes) && Switches(s, t, homes, next)
    ensures Valid(t, homes)
    ensures ContextOf(t.m) == s.parked[next]
  {
    var mem := Suspend(s.m).mem;
    SuspendParks(s.m, homes[s.running]);
    forall i: nat | i < |homes| && i != s.running ensures Parked(mem, homes[i], s.parked[i]) {
      forall a | Belongs(homes[i], a) ensures Read(mem, a) == Read(s.m.mem, a) {
        HomesApart(homes, i, s.running, a);
      }
      ParkedFrame(s.m.mem, mem, homes[i], s.parked[i]);
    }
    ResumeRestores(Suspend(s.m), homes[next], s.parked[next]);
  }

  datatype Event = Slice | Switch(next: nat)

  ghost predicate Step(s: System, t: System, homes: seq<Home>, e: Event) {
    match e
    case Slice => Runs(s, t, homes)
    case Switch(next) => Switches(s, t, homes, next)
  }

  ghost predicate IsRun(states: seq<System>, events: seq<Event>, homes: seq<Home>) {
    |states| == |events| + 1
    && forall k :: 0 <= k < |events| ==> Step(states[k], states[k + 1], homes, events[k])
  }

  lemma {:induction false} RunKeepsValid(states: seq<System>, events: seq<Event>, homes: seq<Home>, k: nat)
    requires IsRun(states, events, homes) && Valid(states[0], homes) && k < |states|
    ensures Valid(states[k], homes)
  {
    if k > 0 {
      RunKeepsValid(states, events, homes, k - 1);
      assert Step(states[k - 1], states[k], homes, events[k - 1]);
      match events[k - 1]
      case Slice => RunsKeepsValid(states[k - 1], states[k], homes);
      case Switch(next) => SwitchRestores(states[k - 1], states[k], homes, next);
    }
  }

  /** Between the switch that parks thread i and the one that resumes it, its recorded context stays. */
  lemma {:induction false} ParkedMeanwhile(states: seq<System>, events: seq<Event>, homes: seq<Home>, i: nat, j: nat, k: nat)
    requires IsRun(states, events, homes) && Valid(states[0], homes) && i < |homes| && j <= k < |states|
    requires forall n :: j <= n < k ==> states[n].running != i
    ensures |states[j].parked| == |states[k].parked| == |homes| && states[k].parked[i] == states[j].parked[i]
  {
    RunKeepsValid(states, events, homes, j);
    RunKeepsValid(states, events, homes, k);
    if j < k {
      ParkedMeanwhile(states, events, homes, i, j, k - 1);
      assert Step(states[k - 1], states[k], homes, events[k - 1]);
    }
  }

  /** On any run, for a thread i switched out by step j and next resumed by step k: it gets back exactly
      the four registers, the stack pointer and the return address it called the switch with. */
  lemma ContextPreserved(states: seq<System>, events: seq<Event>, homes: seq<Home>, i: nat, j: nat, k: nat)
    requires IsRun(states, events, homes) && Valid(states[0], homes) && i < |homes| && j < k < |events|
    requires events[j].Switch? && states[j].running == i
    requires events[k] == Switch(i) && forall n :: j < n <= k ==> states[n].running != i
    ensures ContextOf(states[k + 1].m) == CallContext(states[j].m)
  {
    RunKeepsValid(states, events, homes, j);
    RunKeepsValid(states, events, homes, k);
    assert Step(states[j], states[j + 1], homes, events[j]) && Step(states[k], states[k + 1], homes, events[k]);
    ParkedMeanwhile(states, events, homes, i, j + 1, k);
    SwitchRestores(states[k], states[k + 1], homes, i);
  }

  /** A thread first resumed by step k gets the context it had at the start of the run. */
  lemma FirstResumed(states: seq<System>, events: seq<Event>, homes: seq<Home>, i: nat, k: nat)
    requires IsRun(states, events, homes) && Valid(states[0], homes) && i < |homes| && k < |events|
    requires events[k] == Switch(i) && forall n :: 0 <= n <= k ==> states[n].running != i
    ensures i < |states[0].parked| && ContextOf(states[k + 1].m) == states[0].parked[i]
  {
    RunKeepsValid(states, events, homes, k);
    assert Step(states[k], states[k + 1], homes, events[k]);
    ParkedMeanwhile(states, events, homes, i, 0, k);
    SwitchRestores(states[k], states[k + 1], homes, i);
  }
}
