/** Whole runs of `MapPage`: which frame serves what, and that no frame ever serves two purposes. */
module FrameOwnership {
  import opened FrameAllocator
  import opened Paging
  import opened PagingProofs

  /** What a frame can be used for: a page table, or the page at an index of a table. */
  datatype Use = Table(pd: nat) | Data(pd: nat, pt: nat)

  function FrameFor(s: Space, u: Use): Option<FrameIndex> {
    match u
    case Table(pd) => if HasTable(s, pd) then Some(FrameOf(Entry(s, pd))) else None
    case Data(pd, pt) =>
      if HasTable(s, pd) && pt < ENTRIES && Present(s.ram[FrameOf(Entry(s, pd))][pt])
      then Some(FrameOf(s.ram[FrameOf(Entry(s, pd))][pt])) else None
  }

  /** Every use outside `given` (pages entered at a caller's own address) has a frame to itself: above the
      kernel image, not free, not the directory, and different from every other use's. */
  ghost predicate Private(s: Space, given: set<Use>, kernelEnd: nat) {
    && Sound(s) && s.dir <= kernelEnd && (forall f :: f in s.free ==> f > kernelEnd)
    && (forall pd :: Table(pd) !in given)
    && (forall u :: u !in given && FrameFor(s, u).Some? ==>
                      FrameFor(s, u).value > kernelEnd && FrameFor(s, u).value !in s.free)
    && (forall u, v :: u !in given && v !in given && u != v && FrameFor(s, u).Some? && FrameFor(s, v).Some? ==>
                         FrameFor(s, u) != FrameFor(s, v))
  }

  /** `t` uses exactly the frames `s` uses, and possibly the newly taken `f` for `u`. */
  ghost predicate OneMoreUse(s: Space, t: Space, u: Use, f: FrameIndex) {
    && FrameFor(s, u).None? && FrameFor(t, u) == Some(f)
    && forall v :: v != u ==> FrameFor(t, v) == FrameFor(s, v)
  }

  lemma TakenFrameIsPrivate(s: Space, t: Space, u: Use, f: FrameIndex, given: set<Use>, kernelEnd: nat)
    requires Private(s, given, kernelEnd) && Sound(t) && t.dir == s.dir
    requires f in s.free && t.free == s.free - {f} && OneMoreUse(s, t, u, f)
    ensures Private(t, given, kernelEnd)
  {}

  lemma AddTableUses(s: Space, pd: nat, given: set<Use>, kernelEnd: nat)
    requires Private(s, given, kernelEnd) && pd < RECURSIVE && !Present(Entry(s, pd)) && s.free != {}
    ensures Private(AddTable(s, pd), given, kernelEnd)
  {
    var t := AddTable(s, pd);
    var f := NextFrame(s.free);
    AddTableKeepsPages(s, pd);
    EntryBits(f * FRAME_SIZE);
    LowHalfOfFrame(f);
    assert t.ram[f] == ZeroFrame();
    assert FrameOf(Entry(t, pd)) == f;
    forall v | v != Table(pd) ensures FrameFor(t, v) == FrameFor(s, v) {
      if HasTable(s, v.pd) && v.pd != pd {
        assert t.ram[FrameOf(Entry(s, v.pd))] == s.ram[FrameOf(Entry(s, v.pd))];
      }
    }
    TakenFrameIsPrivate(s, t, Table(pd), f, given, kernelEnd);
  }

  function PageUse(va: Word): Use { Data(PdIndex(va), PtIndex(va)) }

  /** The pages given away to callers' own addresses grow by an unmapped page entered at such an address. */
  function Given(s: Space, va: Word, pa: Word, given: set<Use>): set<Use> {
    if pa != 0 && Walk(s.ram, s.dir, va).None? then given + {PageUse(va)} else given
  }

  lemma AddPageUses(s: Space, va: Word, pa: Word, given: set<Use>, kernelEnd: nat)
    requires Private(s, given, kernelEnd) && HasTable(s, PdIndex(va))
    requires pa == 0 && Walk(s.ram, s.dir, va).None? ==> s.free != {}
    ensures Private(AddPage(s, PdIndex(va), PtIndex(va), pa), Given(s, va, pa, given), kernelEnd)
  {
    var t := AddPage(s, PdIndex(va), PtIndex(va), pa);
    AddPageMaps(s, va, pa);
    if !Present(TableWord(s, va)) {
      var f := NextFrame(s.free);
      var address := if pa == 0 then f * FRAME_SIZE else pa;
      EntryBits(address);
      forall v | v != PageUse(va) ensures FrameFor(t, v) == FrameFor(s, v) {
        if v.Data? && HasTable(s, v.pd) && v.pt < ENTRIES {
          if v.pd == PdIndex(va) { assert v.pt != PtIndex(va); }
        }
      }
      if pa == 0 { TakenFrameIsPrivate(s, t, PageUse(va), f, given, kernelEnd); }
    }
  }

  // ---------------------------------------------------------------- one call

  /** The frames the call takes are there: one for a missing table, then one for a missing page without an
      address of its own. */
  ghost predicate Served(s: Space, va: Word, pa: Word)
    requires FreeInRange(s.free)
  {
    TableAvailable(s, va)
    && (pa == 0 && Walk(s.ram, s.dir, va).None? ==> AddTable(s, PdIndex(va)).free != {})
  }

  /** Served calls are exactly those that do not make a table or a page of frame 0, which NULL stands for; two
      free frames serve any call. */
  lemma ServedIff(s: Space, va: Word, pa: Word)
    requires Sound(s) && Ordinary(s, va)
    ensures var t := Map(s, va, pa);
            Served(s, va, pa) <==>
            && (!Present(Entry(s, PdIndex(va))) ==> FrameOf(t.ram[s.dir][PdIndex(va)]) != 0)
            && (pa == 0 && Walk(s.ram, s.dir, va).None? ==> Walk(t.ram, s.dir, va) != Some(0))
    ensures |s.free| >= 2 ==> Served(s, va, pa)
  {
    var pd := PdIndex(va);
    if TableAvailable(s, va) {
      var mid := AddTable(s, pd);
      AddTableKeepsPages(s, pd);
      AddPageMaps(mid, va, pa);
      if !Present(Entry(s, pd)) {
        NewTableFrame(s, pd);
        assert mid.free == s.free - {Lowest(s.free)} && |mid.free| == |s.free| - 1;
      }
    } else {
      ExhaustedMap(s, va, pa);
    }
  }

  lemma CallUses(s: Space, va: Word, pa: Word, given: set<Use>, kernelEnd: nat)
    requires Private(s, given, kernelEnd) && Ordinary(s, va) && Served(s, va, pa)
    ensures Private(Map(s, va, pa), Given(s, va, pa, given), kernelEnd)
    ensures Walk(Map(s, va, pa).ram, s.dir, va).Some?
    ensures forall other: Word :: Ordinary(s, other) ==> Ordinary(Map(s, va, pa), other)
  {
    var pd := PdIndex(va);
    var mid := AddTable(s, pd);
    AddTableKeepsPages(s, pd);
    if !Present(Entry(s, pd)) { AddTableUses(s, pd, given, kernelEnd); }
    AddPageUses(mid, va, pa, given, kernelEnd);
    AddPageMaps(mid, va, pa);
  }

  /** A page the allocator gave a frame to, mapped through an ordinary table. */
  ghost predicate Owned(s: Space, va: Word, given: set<Use>) {
    HasTable(s, PdIndex(va)) && PageUse(va) !in given && Walk(s.ram, s.dir, va).Some?
  }

  lemma OwnedFrame(s: Space, va: Word, given: set<Use>, kernelEnd: nat)
    requires Private(s, given, kernelEnd) && Owned(s, va, given)
    ensures FrameFor(s, PageUse(va)) == Walk(s.ram, s.dir, va)
    ensures var f := Walk(s.ram, s.dir, va).value;
            && f !in s.free && f != s.dir
            && (forall pd :: HasTable(s, pd) ==> FrameOf(Entry(s, pd)) != f)
            && forall u :: u !in given && u != PageUse(va) ==> FrameFor(s, u) != Some(f)
  {
    assert FrameFor(s, PageUse(va)) == Walk(s.ram, s.dir, va);
    forall pd | HasTable(s, pd) ensures FrameOf(Entry(s, pd)) != Walk(s.ram, s.dir, va).value {
      assert FrameFor(s, Table(pd)).Some? && Table(pd) !in given;
    }
  }

  /** A call moves no page that was mapped, and changes no byte of one with a frame of its own. */
  lemma CallKeepsContents(s: Space, va: Word, pa: Word, given: set<Use>, kernelEnd: nat, other: Word)
    requires Private(s, given, kernelEnd) && Ordinary(s, va) && Served(s, va, pa) && Owned(s, other, given)
    ensures var t := Map(s, va, pa);
            && Owned(t, other, Given(s, va, pa, given)) && Walk(t.ram, s.dir, other) == Walk(s.ram, s.dir, other)
            && t.ram[Walk(s.ram, s.dir, other).value] == s.ram[Walk(s.ram, s.dir, other).value]
  {
    var pd := PdIndex(va);
    var f := Walk(s.ram, s.dir, other).value;
    var mid := AddTable(s, pd);
    OwnedFrame(s, other, given, kernelEnd);
    AddTableKeepsPages(s, pd);
    AddPageMaps(mid, va, pa);
    SamePage(va, other);
    assert mid.ram[f] == s.ram[f];
    assert f != FrameOf(Entry(mid, pd)) by {
      if !Present(Entry(s, pd)) { NewTableFrame(s, pd); }
    }
  }

  lemma NewTableFrame(s: Space, pd: nat)
    requires Sound(s) && pd < RECURSIVE && !Present(Entry(s, pd)) && s.free != {}
    ensures FrameOf(Entry(AddTable(s, pd), pd)) == Lowest(s.free)
  {
    EntryBits(NextFrame(s.free) * FRAME_SIZE);
  }

  // ---------------------------------------------------------------- one store

  /** A store that hits neither the directory nor a frame that serves something else: to a page with a frame
      of its own, or to memory of the caller's. */
  ghost predicate StoreAllowed(s: Space, va: Word, given: set<Use>) {
    && PdIndex(va) != RECURSIVE && Walk(s.ram, s.dir, va).Some? && Walk(s.ram, s.dir, va).value != s.dir
    && forall u :: u !in given && u != PageUse(va) ==> FrameFor(s, u) != Walk(s.ram, s.dir, va)
  }

  lemma OwnedIsWritable(s: Space, va: Word, given: set<Use>, kernelEnd: nat)
    requires Private(s, given, kernelEnd) && Owned(s, va, given)
    ensures StoreAllowed(s, va, given)
  {
    OwnedFrame(s, va, given, kernelEnd);
  }

  ghost function AfterStore(s: Space, va: Word, w: Word): Space
    requires Walk(s.ram, s.dir, va).Some?
  {
    Space(Store(s.ram, s.dir, va, w), s.dir, s.free)
  }

  /** A store moves no page, and frames serve what they did. */
  lemma StoreKeepsPrivate(s: Space, va: Word, w: Word, given: set<Use>, kernelEnd: nat)
    requires Private(s, given, kernelEnd) && StoreAllowed(s, va, given)
    ensures Private(AfterStore(s, va, w), given, kernelEnd)
    ensures forall other: Word :: PdIndex(other) != RECURSIVE ==>
                                    Walk(AfterStore(s, va, w).ram, s.dir, other) == Walk(s.ram, s.dir, other)
    ensures forall other: Word :: Owned(s, other, given) ==> Owned(AfterStore(s, va, w), other, given)
  {
    var f, t := Walk(s.ram, s.dir, va).value, AfterStore(s, va, w);
    assert t.ram[s.dir] == s.ram[s.dir];
    forall pd | HasTable(s, pd) ensures t.ram[FrameOf(Entry(s, pd))] == s.ram[FrameOf(Entry(s, pd))] {
      assert FrameFor(s, Table(pd)).Some? && Table(pd) !in given && Table(pd) != PageUse(va);
    }
    SameUses(s, t);
    SoundWithSameDirectory(s, t);
    forall other: Word | PdIndex(other) != RECURSIVE ensures Walk(t.ram, s.dir, other) == Walk(s.ram, s.dir, other) {
      if HasTable(s, PdIndex(other)) { assert TableWord(t, other) == TableWord(s, other); }
    }
  }

  lemma SameUses(s: Space, t: Space)
    requires t.dir == s.dir && t.ram[s.dir] == s.ram[s.dir]
    requires forall pd :: HasTable(s, pd) ==> t.ram[FrameOf(Entry(s, pd))] == s.ram[FrameOf(Entry(s, pd))]
    ensures forall pd :: HasTable(t, pd) <==> HasTable(s, pd)
    ensures forall u :: FrameFor(t, u) == FrameFor(s, u)
  {
    assert forall pd: nat :: pd < ENTRIES ==> Entry(t, pd) == Entry(s, pd);
  }

  predicate SameCell(a: Word, b: Word) { Page(a) == Page(b) && WordIndex(a) == WordIndex(b) }

  /** What was stored at an address of a page with a frame of its own is seen there, and at no other address
      of such a page: addresses are memory cells. */
  lemma StoreIsPrivate(s: Space, va: Word, w: Word, given: set<Use>, kernelEnd: nat, other: Word)
    requires Private(s, given, kernelEnd) && StoreAllowed(s, va, given) && Owned(s, other, given)
    ensures Walk(AfterStore(s, va, w).ram, s.dir, other) == Walk(s.ram, s.dir, other)
    ensures Load(AfterStore(s, va, w).ram, s.dir, other) == if SameCell(va, other) then w else Load(s.ram, s.dir, other)
  {
    StoreKeepsPrivate(s, va, w, given, kernelEnd);
    SamePage(va, other);
    if Page(va) == Page(other) {
      assert Walk(s.ram, s.dir, va) == Walk(s.ram, s.dir, other);
    } else {
      OwnedFrame(s, other, given, kernelEnd);
      assert PageUse(other) != PageUse(va);
    }
  }

  // ---------------------------------------------------------------- runs

  /** `MapPage` is called, or a word is stored. */
  datatype Event = Call(va: Word, pa: Word) | Write(va: Word, w: Word)

  ghost predicate Can(s: Space, e: Event, given: set<Use>) {
    match e
    case Call(va, pa) => FreeInRange(s.free) && Ordinary(s, va) && Served(s, va, pa)
    case Write(va, _) => StoreAllowed(s, va, given)
  }

  ghost function Next(s: Space, e: Event, given: set<Use>): Space
    requires Can(s, e, given)
  {
    match e
    case Call(va, pa) => Map(s, va, pa)
    case Write(va, w) => AfterStore(s, va, w)
  }

  ghost function NextGiven(s: Space, e: Event, given: set<Use>): set<Use> {
    match e
    case Call(va, pa) => Given(s, va, pa, given)
    case Write(_, _) => given
  }

  ghost predicate CanAll(s: Space, events: seq<Event>, given: set<Use>)
    decreases |events|
  {
    events == [] ||
    (Can(s, events[0], given) && CanAll(Next(s, events[0], given), events[1..], NextGiven(s, events[0], given)))
  }

  ghost function Run(s: Space, events: seq<Event>, given: set<Use>): Space
    requires CanAll(s, events, given)
    decreases |events|
  {
    if events == [] then s
    else Run(Next(s, events[0], given), events[1..], NextGiven(s, events[0], given))
  }

  ghost function RunGiven(s: Space, events: seq<Event>, given: set<Use>): set<Use>
    requires CanAll(s, events, given)
    decreases |events|
  {
    if events == [] then given
    else RunGiven(Next(s, events[0], given), events[1..], NextGiven(s, events[0], given))
  }

  /** Every page outside the window that was mapped is where it was. */
  ghost predicate PagesKept(s: Space, t: Space) {
    t.dir == s.dir
    && forall va: Word :: PdIndex(va) != RECURSIVE && Walk(s.ram, s.dir, va).Some? ==>
         Walk(t.ram, t.dir, va) == Walk(s.ram, s.dir, va)
  }

  lemma NextKeepsPrivate(s: Space, e: Event, given: set<Use>, kernelEnd: nat)
    requires Private(s, given, kernelEnd) && Can(s, e, given)
    ensures Private(Next(s, e, given), NextGiven(s, e, given), kernelEnd) && PagesKept(s, Next(s, e, given))
    ensures e.Call? ==> Walk(Next(s, e, given).ram, s.dir, e.va).Some?
  {
    match e
    case Call(va, pa) =>
      CallUses(s, va, pa, given, kernelEnd);
      MapPageTranslates(s, va, pa);
      forall other: Word | PdIndex(other) != RECURSIVE && Walk(s.ram, s.dir, other).Some?
        ensures Walk(Map(s, va, pa).ram, s.dir, other) == Walk(s.ram, s.dir, other)
      {
        SamePage(va, other);
      }
    case Write(va, w) => StoreKeepsPrivate(s, va, w, given, kernelEnd);
  }

  lemma RunAt(s: Space, events: seq<Event>, given: set<Use>)
    requires CanAll(s, events, given) && events != []
    ensures var t, g := Next(s, events[0], given), NextGiven(s, events[0], given);
            && CanAll(t, events[1..], g) && Run(s, events, given) == Run(t, events[1..], g)
            && RunGiven(s, events, given) == RunGiven(t, events[1..], g)
  {}

  /** Along any run of calls and stores while frames remain: every table and every allocated page has a frame
      of its own above the kernel image, slot 1023 still names the directory, every call's page is mapped,
      and no page that was mapped has moved. */
  lemma {:induction false} RunKeepsFramesPrivate(s: Space, events: seq<Event>, given: set<Use>, kernelEnd: nat)
    requires Private(s, given, kernelEnd) && CanAll(s, events, given)
    ensures Private(Run(s, events, given), RunGiven(s, events, given), kernelEnd)
    ensures Run(s, events, given).dir == s.dir && Recursive(Run(s, events, given).ram, s.dir)
    ensures PagesKept(s, Run(s, events, given))
    ensures forall k :: 0 <= k < |events| && events[k].Call? ==>
                          Walk(Run(s, events, given).ram, s.dir, events[k].va).Some?
    decreases |events|
  {
    if events != [] {
      var t, g := Next(s, events[0], given), NextGiven(s, events[0], given);
      NextKeepsPrivate(s, events[0], given, kernelEnd);
      RunAt(s, events, given);
      RunKeepsFramesPrivate(t, events[1..], g, kernelEnd);
      hide Next, Run, RunGiven, CanAll, Private, Walk;
      forall k | 0 <= k < |events| && events[k].Call?
        ensures Walk(Run(s, events, given).ram, s.dir, events[k].va).Some?
      {
        if k > 0 { assert events[k] == events[1..][k - 1]; }
      }
    }
  }

  /** What the stores of a run leave in the cell of an address that held w. */
  function LastWritten(events: seq<Event>, a: Word, w: Word): Word {
    if events == [] then w
    else LastWritten(events[1..], a, if events[0].Write? && SameCell(events[0].va, a) then events[0].w else w)
  }

  lemma NextKeepsCells(s: Space, e: Event, given: set<Use>, kernelEnd: nat, a: Word)
    requires Private(s, given, kernelEnd) && Can(s, e, given) && Owned(s, a, given)
    ensures var t := Next(s, e, given);
            && Owned(t, a, NextGiven(s, e, given)) && t.dir == s.dir
            && Load(t.ram, s.dir, a) == LastWritten([e], a, Load(s.ram, s.dir, a))
  {
    match e
    case Call(va, pa) => CallKeepsContents(s, va, pa, given, kernelEnd, a);
    case Write(va, w) =>
      StoreKeepsPrivate(s, va, w, given, kernelEnd);
      StoreIsPrivate(s, va, w, given, kernelEnd, a);
  }

  /** Along any such run a page with a frame of its own is memory: each of its words is what was last stored
      through its address, or what it was. */
  lemma {:induction false} RunKeepsCells(s: Space, events: seq<Event>, given: set<Use>, kernelEnd: nat, a: Word)
    requires Private(s, given, kernelEnd) && CanAll(s, events, given) && Owned(s, a, given)
    ensures var t := Run(s, events, given);
            && Owned(t, a, RunGiven(s, events, given)) && t.dir == s.dir
            && Load(t.ram, s.dir, a) == LastWritten(events, a, Load(s.ram, s.dir, a))
    decreases |events|
  {
    if events != [] {
      var e := events[0];
      NextKeepsPrivate(s, e, given, kernelEnd);
      NextKeepsCells(s, e, given, kernelEnd, a);
      RunAt(s, events, given);
      hide Next, Can, Private, Owned, Run, RunGiven, CanAll;
      RunKeepsCells(Next(s, e, given), events[1..], NextGiven(s, e, given), kernelEnd, a);
    }
  }

  // ---------------------------------------------------------------- the ends of a run

  const KERNEL_SLOT := 768
  const BOOT_LARGE_PAGE: Word := 0x83

  /** The directory the boot code leaves: one large page for the kernel and nothing else. */
  ghost predicate BootDirectory(ram: Ram, dir: FrameIndex) {
    forall i :: 0 <= i < ENTRIES ==> ram[dir][i] == if i == KERNEL_SLOT then BOOT_LARGE_PAGE else 0
  }

  /** The state after both constructors, from which every run starts, is private. */
  lemma BootIsPrivate(boot: Ram, s: Space, kernelEnd: nat)
    requires BootDirectory(boot, s.dir) && 0 < s.dir <= kernelEnd && s.dir < FRAMES
    requires s.ram == Poke(boot, s.dir, RECURSIVE, TableEntry(s.dir * FRAME_SIZE))
    requires forall f :: f in s.free ==> kernelEnd < f < FRAMES
    ensures Private(s, {}, kernelEnd)
    ensures forall va: Word :: Ordinary(s, va) <==> !(0xC000_0000 <= va < 0xC040_0000) && va < 0xFFC0_0000
  {
    EntryBits(s.dir * FRAME_SIZE);
    LowHalfOfFrame(s.dir);
    assert Large(BOOT_LARGE_PAGE) by {
      assert BitSet(0x83, 7) == BitSet(0x41, 6) == BitSet(0x20, 5) == BitSet(0x10, 4);
      assert BitSet(0x10, 4) == BitSet(8, 3) == BitSet(4, 2) == BitSet(2, 1) == BitSet(1, 0);
    }
    ZeroHasNoBits(PRESENT);
    assert forall pd :: !HasTable(s, pd);
  }
}
