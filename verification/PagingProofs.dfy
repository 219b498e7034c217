/** What `MapPage` promises, proved of its effect on frames: the requested page translates, every other
    page translates as before, and along whole runs no frame serves two purposes. */
module PagingProofs {
  import opened FrameAllocator
  import opened Paging

  // ---------------------------------------------------------------- one call

  function Entry(s: Space, pd: nat): Word
    requires pd < ENTRIES
  {
    s.ram[s.dir][pd]
  }

  predicate HasTable(s: Space, pd: nat) {
    pd < RECURSIVE && Present(Entry(s, pd)) && !Large(Entry(s, pd))
  }

  /** The directory entries `MapPage` is meant for: absent or an ordinary table, and not the window's own. */
  predicate Ordinary(s: Space, va: Word) {
    PdIndex(va) != RECURSIVE && (Present(Entry(s, PdIndex(va))) ==> !Large(Entry(s, PdIndex(va))))
  }

  /** Slot 1023 names the directory; the tables are distinct frames, none free and none the directory. */
  ghost predicate Sound(s: Space) {
    && Recursive(s.ram, s.dir)
    && FreeInRange(s.free)
    && s.dir != 0 && s.dir !in s.free
    && (forall pd :: HasTable(s, pd) ==> FrameOf(Entry(s, pd)) != s.dir && FrameOf(Entry(s, pd)) !in s.free)
    && (forall p, q :: HasTable(s, p) && HasTable(s, q) && p != q ==>
                         FrameOf(Entry(s, p)) != FrameOf(Entry(s, q)))
  }

  lemma LowHalfOfFrame(f: nat)
    requires f < FRAMES
    ensures FrameOf(f * FRAME_SIZE) == f && !Large(f * FRAME_SIZE)
  {
    assert BitSet(f * FRAME_SIZE, 7) == BitSet(f * 2048, 6) == BitSet(f * 1024, 5);
    assert BitSet(f * 1024, 5) == BitSet(f * 512, 4) == BitSet(f * 256, 3);
    assert BitSet(f * 256, 3) == BitSet(f * 128, 2) == BitSet(f * 64, 1) == BitSet(f * 32, 0);
  }

  /** Installing a table moves no page: what the new entry makes reachable is all absent. */
  lemma AddTableKeepsPages(s: Space, pd: nat)
    requires Sound(s) && pd < RECURSIVE
    requires Present(Entry(s, pd)) ==> !Large(Entry(s, pd))
    requires !Present(Entry(s, pd)) ==> s.free != {}
    ensures Sound(AddTable(s, pd)) && HasTable(AddTable(s, pd), pd)
    ensures forall p :: 0 <= p < ENTRIES && p != pd ==> Entry(AddTable(s, pd), p) == Entry(s, p)
    ensures forall va: Word :: PdIndex(va) != RECURSIVE ==>
                                 Walk(AddTable(s, pd).ram, s.dir, va) == Walk(s.ram, s.dir, va)
  {
    var t := AddTable(s, pd);
    if !Present(Entry(s, pd)) {
      var f := NextFrame(s.free);
      EntryBits(f * FRAME_SIZE);
      LowHalfOfFrame(f);
      assert t.ram[s.dir] == s.ram[s.dir][pd := TableEntry(f * FRAME_SIZE)];
      assert t.ram[f] == ZeroFrame();
      assert FrameOf(Entry(t, pd)) == f;
      assert forall p :: 0 <= p < ENTRIES && p != pd ==> Entry(t, p) == Entry(s, p);
      forall p | HasTable(t, p)
        ensures p == pd || (HasTable(s, p) && Entry(t, p) == Entry(s, p))
      {}
      forall va: Word | PdIndex(va) != RECURSIVE
        ensures Walk(t.ram, s.dir, va) == Walk(s.ram, s.dir, va)
      {
        if PdIndex(va) != pd && HasTable(s, PdIndex(va)) {
          assert t.ram[FrameOf(Entry(s, PdIndex(va)))] == s.ram[FrameOf(Entry(s, PdIndex(va)))];
        }
      }
    }
  }

  /** The word of `va` in its table. */
  function TableWord(s: Space, va: Word): Word {
    s.ram[FrameOf(Entry(s, PdIndex(va)))][PtIndex(va)]
  }

  /** The address entered for a page: the caller's, or a frame of the allocator when that is 0. */
  ghost function Target(free: set<nat>, pa: Word): FrameIndex
    requires FreeInRange(free)
  {
    if pa == 0 then NextFrame(free) else FrameOf(pa)
  }

  /** Memory differs from `s` in the one word of `va`'s table at `va`'s index. */
  ghost predicate TableWordSet(s: Space, t: Space, va: Word, w: Word) {
    var table := FrameOf(Entry(s, PdIndex(va)));
    t.dir == s.dir && t.ram == Poke(s.ram, table, PtIndex(va), w)
  }

  /** Changing one word of a table changes the translation of that one page. */
  lemma SetTableWord(s: Space, t: Space, va: Word, w: Word)
    requires Sound(s) && HasTable(s, PdIndex(va)) && TableWordSet(s, t, va, w)
    ensures t.ram[s.dir] == s.ram[s.dir]
    ensures Walk(t.ram, s.dir, va) == if Present(w) then Some(FrameOf(w)) else None
    ensures forall other: Word :: PdIndex(other) != RECURSIVE && Page(other) != Page(va) ==>
              Walk(t.ram, s.dir, other) == Walk(s.ram, s.dir, other)
  {
    assert t.ram[s.dir] == s.ram[s.dir];
    forall other: Word | PdIndex(other) != RECURSIVE && Page(other) != Page(va)
      ensures Walk(t.ram, s.dir, other) == Walk(s.ram, s.dir, other)
    {
      SamePage(va, other);
      if HasTable(s, PdIndex(other)) {
        assert TableWord(t, other) == TableWord(s, other);
      }
    }
  }

  /** Fewer free frames and the same directory: still sound. */
  lemma SoundWithSameDirectory(s: Space, t: Space)
    requires Sound(s) && t.dir == s.dir && t.ram[s.dir] == s.ram[s.dir] && t.free <= s.free
    ensures Sound(t)
  {
    assert forall p: nat | p < ENTRIES :: Entry(t, p) == Entry(s, p);
    assert forall p :: HasTable(t, p) <==> HasTable(s, p);
  }

  /** A page that is entered: one word of its table changes. */
  lemma AddPageSets(s: Space, va: Word, pa: Word)
    requires Sound(s) && HasTable(s, PdIndex(va))
    ensures var t := AddPage(s, PdIndex(va), PtIndex(va), pa);
            if Present(TableWord(s, va)) then t == s
            else t.free <= s.free && exists w :: TableWordSet(s, t, va, w) && Present(w) && FrameOf(w) == Target(s.free, pa)
  {
    if !Present(TableWord(s, va)) {
      var address := if pa == 0 then NextFrame(s.free) * FRAME_SIZE else pa;
      EntryBits(address);
      assert TableWordSet(s, AddPage(s, PdIndex(va), PtIndex(va), pa), va, PageEntry(address));
    }
  }

  lemma WalkOfTable(s: Space, va: Word)
    requires HasTable(s, PdIndex(va))
    ensures Walk(s.ram, s.dir, va) == if Present(TableWord(s, va)) then Some(FrameOf(TableWord(s, va))) else None
  {}

  /** Entering a page makes it translate and changes no other page. */
  lemma AddPageMaps(s: Space, va: Word, pa: Word)
    requires Sound(s) && HasTable(s, PdIndex(va))
    ensures var t := AddPage(s, PdIndex(va), PtIndex(va), pa);
            && Sound(t) && t.ram[s.dir] == s.ram[s.dir]
            && (Walk(s.ram, s.dir, va).Some? ==> t == s)
            && (Walk(s.ram, s.dir, va).None? ==> Walk(t.ram, s.dir, va) == Some(Target(s.free, pa)))
            && forall other: Word :: PdIndex(other) != RECURSIVE && Page(other) != Page(va) ==>
                 Walk(t.ram, s.dir, other) == Walk(s.ram, s.dir, other)
  {
    AddPageSets(s, va, pa);
    WalkOfTable(s, va);
    hide AddPage, Sound, Walk, TableWord, HasTable, Target;
    var t := AddPage(s, PdIndex(va), PtIndex(va), pa);
    if !Present(TableWord(s, va)) {
      var w :| TableWordSet(s, t, va, w) && Present(w) && FrameOf(w) == Target(s.free, pa);
      SetTableWord(s, t, va, w);
      SoundWithSameDirectory(s, t);
    }
  }

  lemma SamePage(va: Word, other: Word)
    ensures Page(va) == Page(other) <==> (PdIndex(va) == PdIndex(other) && PtIndex(va) == PtIndex(other))
  {
    assert PdIndex(va) == Page(va) / ENTRIES && PdIndex(other) == Page(other) / ENTRIES;
  }

  /** The free frames `MapPage` needs for a table. */
  ghost predicate TableAvailable(s: Space, va: Word) {
    Present(Entry(s, PdIndex(va))) || s.free != {}
  }

  /** After `MapPage(va, pa)` an unmapped `va` translates to `pa`, or to the lowest frame left after the
      table's; a mapped `va` changes nothing; every other page outside the window keeps its translation. */
  lemma MapPageTranslates(s: Space, va: Word, pa: Word)
    requires Sound(s) && Ordinary(s, va) && TableAvailable(s, va)
    ensures var t := Map(s, va, pa);
            var left := AddTable(s, PdIndex(va)).free;
            && Sound(t) && t.dir == s.dir
            && (Walk(s.ram, s.dir, va).Some? ==> t == s)
            && (Walk(s.ram, s.dir, va).None? ==> Walk(t.ram, s.dir, va) == Some(Target(left, pa)))
            && forall other: Word :: PdIndex(other) != RECURSIVE && Page(other) != Page(va) ==>
                 Walk(t.ram, s.dir, other) == Walk(s.ram, s.dir, other)
  {
    AddTableKeepsPages(s, PdIndex(va));
    AddPageMaps(AddTable(s, PdIndex(va)), va, pa);
  }

  // ---------------------------------------------------------------- where the promise ends

  /** "An already mapped page changes nothing" holds exactly when the page is in an ordinary table, or the
      large page's entry, read as a table, happens to hold a present word at the page's index. */
  lemma MappedUnchangedIff(s: Space, va: Word, pa: Word)
    requires FreeInRange(s.free) && Walk(s.ram, s.dir, va).Some?
    ensures Map(s, va, pa) == s <==> !Large(Entry(s, PdIndex(va))) || Present(TableWord(s, va))
  {
    if !Present(TableWord(s, va)) {
      var address := if pa == 0 then NextFrame(s.free) * FRAME_SIZE else pa;
      EntryBits(address);
      assert Present(TableWordAt(Map(s, va, pa), FrameOf(Entry(s, PdIndex(va))), PtIndex(va)));
    }
  }

  function TableWordAt(s: Space, f: FrameIndex, i: nat): Word
    requires i < ENTRIES
  {
    s.ram[f][i]
  }

  /** Every other page outside the window translates as before. */
  ghost predicate OthersKept(s: Space, va: Word, pa: Word)
    requires FreeInRange(s.free)
  {
    forall other: Word :: PdIndex(other) != RECURSIVE && Page(other) != Page(va) ==>
      Walk(Map(s, va, pa).ram, s.dir, other) == Walk(s.ram, s.dir, other)
  }

  function AddressAt(pd: nat, pt: nat): Word
    requires pd < ENTRIES && pt < ENTRIES
  {
    pd * 0x40_0000 + pt * FRAME_SIZE
  }

  lemma AddressNames(pd: nat, pt: nat)
    requires pd < ENTRIES && pt < ENTRIES
    ensures PdIndex(AddressAt(pd, pt)) == pd && PtIndex(AddressAt(pd, pt)) == pt
  {
    assert Page(AddressAt(pd, pt)) == pd * ENTRIES + pt;
  }

  /** A table already in frame 0 shows nothing but what the call will leave there: the target at va's index. */
  ghost predicate FrameZeroHarmless(s: Space, va: Word, pa: Word)
    requires FreeInRange(s.free)
  {
    forall p, i :: HasTable(s, p) && FrameOf(Entry(s, p)) == 0 && 0 <= i < ENTRIES ==>
      var w := TableWordAt(s, 0, i);
      if i == PtIndex(va) then Present(w) && FrameOf(w) == Target(s.free, pa) else !Present(w)
  }

  /** The call with no frame left: the missing table becomes frame 0, emptied but for the page's word. */
  lemma ExhaustedMap(s: Space, va: Word, pa: Word)
    requires Sound(s) && PdIndex(va) != RECURSIVE && !Present(Entry(s, PdIndex(va))) && s.free == {}
    ensures var t := Map(s, va, pa);
            && (forall p: nat :: p < ENTRIES && p != PdIndex(va) ==> t.ram[s.dir][p] == s.ram[s.dir][p])
            && HasTable(t, PdIndex(va)) && t.dir == s.dir && FrameOf(t.ram[s.dir][PdIndex(va)]) == 0
            && (forall f: FrameIndex :: f != 0 && f != s.dir ==> t.ram[f] == s.ram[f])
            && (forall i: nat :: i < ENTRIES && i != PtIndex(va) ==> !Present(t.ram[0][i]))
            && Present(t.ram[0][PtIndex(va)]) && FrameOf(t.ram[0][PtIndex(va)]) == Target(s.free, pa)
  {
    var address := if pa == 0 then 0 else pa;
    EntryBits(0);
    EntryBits(address);
    LowHalfOfFrame(0);
    ZeroHasNoBits(PRESENT);
    var mid := AddTable(s, PdIndex(va));
    assert mid.ram[0] == ZeroFrame() && mid.free == {};
    assert mid.ram[s.dir] == s.ram[s.dir][PdIndex(va) := TableEntry(0)];
    assert Map(s, va, pa).ram == Poke(mid.ram, 0, PtIndex(va), PageEntry(address));
  }

  /** With no frame left, one other page: it shows what frame 0 shows now if its table is there or new. */
  lemma ExhaustedOther(s: Space, va: Word, pa: Word, other: Word)
    requires Sound(s) && PdIndex(va) != RECURSIVE && !Present(Entry(s, PdIndex(va))) && s.free == {}
    requires PdIndex(other) != RECURSIVE && Page(other) != Page(va)
    ensures Walk(Map(s, va, pa).ram, s.dir, other) ==
            if HasTable(s, PdIndex(other)) && FrameOf(Entry(s, PdIndex(other))) == 0
            then (if PtIndex(other) == PtIndex(va) then Some(Target(s.free, pa)) else None)
            else Walk(s.ram, s.dir, other)
  {
    ExhaustedMap(s, va, pa);
    SamePage(va, other);
    var t := Map(s, va, pa);
    var pd := PdIndex(other);
    hide Map, BitSet;
    if pd == PdIndex(va) {
      assert Walk(s.ram, s.dir, other) == None;
    } else {
      SameEntryWalk(s, t, va, other);
    }
  }

  /** The same directory entry, and the same memory but for frame 0 and the directory. */
  lemma SameEntryWalk(s: Space, t: Space, va: Word, other: Word)
    requires Sound(s) && t.ram[s.dir][PdIndex(other)] == s.ram[s.dir][PdIndex(other)] && PdIndex(other) != RECURSIVE
    requires forall f: FrameIndex :: f != 0 && f != s.dir ==> t.ram[f] == s.ram[f]
    ensures Walk(t.ram, s.dir, other) ==
            if HasTable(s, PdIndex(other)) && FrameOf(Entry(s, PdIndex(other))) == 0
            then (if Present(t.ram[0][PtIndex(other)]) then Some(FrameOf(t.ram[0][PtIndex(other)])) else None)
            else Walk(s.ram, s.dir, other)
  {
    hide BitSet, Recursive, FreeInRange;
    if HasTable(s, PdIndex(other)) { assert FrameOf(Entry(s, PdIndex(other))) != s.dir; }
  }

  /** A call for an ordinary entry keeps every other page exactly when its table is there or a frame is left
      for it, or what frame 0 already shows as a table is what the call leaves there. */
  lemma OthersKeptIff(s: Space, va: Word, pa: Word)
    requires Sound(s) && Ordinary(s, va)
    ensures OthersKept(s, va, pa) <==> TableAvailable(s, va) || FrameZeroHarmless(s, va, pa)
  {
    if TableAvailable(s, va) {
      MapPageTranslates(s, va, pa);
    } else {
      if FrameZeroHarmless(s, va, pa) {
        forall other: Word | PdIndex(other) != RECURSIVE && Page(other) != Page(va)
          ensures Walk(Map(s, va, pa).ram, s.dir, other) == Walk(s.ram, s.dir, other)
        {
          ExhaustedOther(s, va, pa, other);
          if HasTable(s, PdIndex(other)) { assert TableWordAt(s, FrameOf(Entry(s, PdIndex(other))), PtIndex(other)) == TableWord(s, other); }
        }
      }
      if OthersKept(s, va, pa) {
        forall p, i | HasTable(s, p) && FrameOf(Entry(s, p)) == 0 && 0 <= i < ENTRIES
          ensures var w := TableWordAt(s, 0, i);
                  if i == PtIndex(va) then Present(w) && FrameOf(w) == Target(s.free, pa) else !Present(w)
        {
          var other := AddressAt(p, i);
          AddressNames(p, i);
          SamePage(va, other);
          ExhaustedOther(s, va, pa, other);
          assert TableWordAt(s, 0, i) == TableWord(s, other);
        }
      }
    }
  }

  /** It does fail: with no frame left, two missing tables both become frame 0, and the second call unmaps
      the first page. */
  lemma ExhaustedTablesCollide(s: Space, va: Word, pa: Word, vb: Word, pb: Word)
    requires Sound(s) && s.free == {} && pa != 0 && pb != 0
    requires PdIndex(va) != PdIndex(vb) && PtIndex(va) != PtIndex(vb)
    requires PdIndex(va) != RECURSIVE && PdIndex(vb) != RECURSIVE
    requires !Present(Entry(s, PdIndex(va))) && !Present(Entry(s, PdIndex(vb)))
    ensures Walk(Map(s, va, pa).ram, s.dir, va) == Some(FrameOf(pa))
    ensures Walk(Map(Map(s, va, pa), vb, pb).ram, s.dir, va) == None
  {
    EntryBits(0);
    EntryBits(pa);
    EntryBits(pb);
    LowHalfOfFrame(0);
    var t := Map(s, va, pa);
    assert t.ram[0] == ZeroFrame()[PtIndex(va) := PageEntry(pa)];
    assert Entry(t, PdIndex(va)) == TableEntry(0) && Entry(t, PdIndex(vb)) == Entry(s, PdIndex(vb));
    var u := Map(t, vb, pb);
    assert u.ram[0] == ZeroFrame()[PtIndex(vb) := PageEntry(pb)];
    assert Entry(u, PdIndex(va)) == TableEntry(0);
  }

  // ---------------------------------------------------------------- calls inside the window

  /** The address that goes into the new word. */
  ghost function TargetAddress(free: set<nat>, pa: Word): Word
    requires FreeInRange(free)
  {
    if pa == 0 then NextFrame(free) * FRAME_SIZE else pa
  }

  /** A call for an unmapped page of the window turns the frame it enters, with whatever that holds, into the
      page table of a whole absent directory entry, or, when bit 7 of the address is set, into a large page. */
  lemma WindowCallInstallsTable(s: Space, va: Word, pa: Word, other: Word)
    requires Sound(s)
    requires PdIndex(va) == RECURSIVE && Walk(s.ram, s.dir, va).None? && PdIndex(other) == PtIndex(va)
    ensures Walk(s.ram, s.dir, other).None?
    ensures var a := TargetAddress(s.free, pa);
            var stale := TableWordAt(Map(s, va, pa), FrameOf(a), PtIndex(other));
            && (stale == TableWordAt(s, FrameOf(a), PtIndex(other)) || (FrameOf(a) == s.dir && PtIndex(other) == PtIndex(va)))
            && Walk(Map(s, va, pa).ram, s.dir, other) ==
               if Large(a) then Some(a / 0x40_0000 * ENTRIES + PtIndex(other))
               else if Present(stale) then Some(FrameOf(stale)) else None
  {
    var a := TargetAddress(s.free, pa);
    EntryBits(a);
    assert Entry(s, RECURSIVE) == s.ram[s.dir][RECURSIVE] && TableWord(s, va) == s.ram[s.dir][PtIndex(va)];
    assert !Present(s.ram[s.dir][PtIndex(va)]);
    assert Map(s, va, pa).ram == Poke(s.ram, s.dir, PtIndex(va), PageEntry(a));
    assert PageEntry(a) / 0x40_0000 == FrameOf(PageEntry(a)) / ENTRIES && a / 0x40_0000 == FrameOf(a) / ENTRIES;
  }

  /** A call inside the window keeps every page outside it exactly when the frame it enters holds no present
      word and the address has bit 7 clear. */
  lemma WindowCallHarmlessIff(s: Space, va: Word, pa: Word)
    requires Sound(s) && PdIndex(va) == RECURSIVE && Walk(s.ram, s.dir, va).None?
    ensures var a := TargetAddress(s.free, pa);
            OthersKept(s, va, pa) <==>
            !Large(a) && forall i: nat :: i < ENTRIES ==> !Present(TableWordAt(s, FrameOf(a), i))
  {
    var a := TargetAddress(s.free, pa);
    if OthersKept(s, va, pa) {
      WindowCallShows(s, va, pa, 0);
      forall i: nat | i < ENTRIES ensures !Large(a) && !Present(TableWordAt(s, FrameOf(a), i)) {
        WindowCallShows(s, va, pa, i);
      }
    }
    if !Large(a) && forall i: nat :: i < ENTRIES ==> !Present(TableWordAt(s, FrameOf(a), i)) {
      assert TableWordAt(s, s.dir, RECURSIVE) == s.ram[s.dir][RECURSIVE];
      forall other: Word | PdIndex(other) != RECURSIVE && Page(other) != Page(va)
        ensures Walk(Map(s, va, pa).ram, s.dir, other) == Walk(s.ram, s.dir, other)
      {
        if PdIndex(other) == PtIndex(va) {
          WindowCallInstallsTable(s, va, pa, other);
        } else {
          WindowCallElsewhere(s, va, pa, other);
        }
      }
    }
  }

  /** A present word of the frame, or bit 7, shows up at an address that was not mapped. */
  lemma WindowCallShows(s: Space, va: Word, pa: Word, i: nat)
    requires Sound(s) && PdIndex(va) == RECURSIVE && Walk(s.ram, s.dir, va).None? && i < ENTRIES && OthersKept(s, va, pa)
    ensures var a := TargetAddress(s.free, pa); !Large(a) && !Present(TableWordAt(s, FrameOf(a), i))
  {
    var a := TargetAddress(s.free, pa);
    var pd := PtIndex(va);
    assert Present(s.ram[s.dir][RECURSIVE]);
    assert pd != RECURSIVE;
    var self, other := AddressAt(pd, RECURSIVE), AddressAt(pd, i);
    AddressNames(pd, i);
    AddressNames(pd, RECURSIVE);
    SamePage(va, self);
    SamePage(va, other);
    WindowCallInstallsTable(s, va, pa, self);
    WindowCallInstallsTable(s, va, pa, other);
    hide Map, Walk, Sound;
    assert TableWordAt(s, s.dir, RECURSIVE) == s.ram[s.dir][RECURSIVE];
  }

  lemma WindowCallElsewhere(s: Space, va: Word, pa: Word, other: Word)
    requires Sound(s) && PdIndex(va) == RECURSIVE && Walk(s.ram, s.dir, va).None?
    requires PdIndex(other) != RECURSIVE && PdIndex(other) != PtIndex(va)
    ensures Walk(Map(s, va, pa).ram, s.dir, other) == Walk(s.ram, s.dir, other)
  {
    var a := TargetAddress(s.free, pa);
    EntryBits(a);
    assert TableWord(s, va) == s.ram[s.dir][PtIndex(va)];
    assert Map(s, va, pa).ram == Poke(s.ram, s.dir, PtIndex(va), PageEntry(a));
    if HasTable(s, PdIndex(other)) { assert FrameOf(Entry(s, PdIndex(other))) != s.dir; }
  }
}
