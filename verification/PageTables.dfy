/** The page table manager (kernel/memory/manager.cpp). Every access goes through a virtual address and
    the MMU, as the kernel's own accesses do; the contracts say which physical words were meant. */
module PageTables {
  import opened FrameAllocator
  import opened Paging
  import opened PagingProofs

  class PageTableManager {
    var ram: Ram
    const dir: FrameIndex
    const pageDir: Word
    const phys: BitmapAllocator

    /** The boot code maps the page holding the directory with a large page. */
    ghost predicate DirectoryMapped(ram: Ram) {
      var slot := ram[dir][PdIndex(pageDir)];
      pageDir % FRAME_SIZE == 0 && Present(slot) && Large(slot)
      && slot / 0x40_0000 * ENTRIES + PtIndex(pageDir) == dir
    }

    ghost predicate Valid()
      reads this, phys.bitmap
    {
      phys.Valid() && DirectoryMapped(ram) && Recursive(ram, dir)
      && FreeInRange(phys.Free()) && dir != 0 && dir !in phys.Free()
    }

    ghost function Now(): Space
      requires phys.Valid()
      reads this, phys.bitmap
    {
      Space(ram, dir, phys.Free())
    }

    /** An access through the directory's own address reaches the directory. */
    lemma DirectoryWord(i: nat)
      requires DirectoryMapped(ram) && i < ENTRIES
      ensures pageDir + 4 * i < 0x1_0000_0000
      ensures Walk(ram, dir, pageDir + 4 * i) == Some(dir) && WordIndex(pageDir + 4 * i) == i
    {
      var va := pageDir + 4 * i;
      assert Page(va) == Page(pageDir) && va % FRAME_SIZE == 4 * i;
      SamePage(va, pageDir);
    }

    method LoadWord(va: Word) returns (w: Word)
      requires Walk(ram, dir, va).Some?
      ensures w == Load(ram, dir, va)
    {
      w := ram[Walk(ram, dir, va).value][WordIndex(va)];
    }

    method StoreWord(va: Word, w: Word)
      requires Walk(ram, dir, va).Some?
      modifies this`ram
      ensures ram == Store(old(ram), dir, va, w)
    {
      var f := Walk(ram, dir, va).value;
      ram := ram[f := ram[f][WordIndex(va) := w]];
    }

    /** Slot 1023 is pointed at the directory, by its physical address. */
    constructor (memory: Ram, cr3: FrameIndex, virtualAddress: Word, physicalAddress: Word, frames: BitmapAllocator)
      requires frames.Valid() && FreeInRange(frames.Free()) && cr3 != 0 && cr3 !in frames.Free() && cr3 < FRAMES
      requires physicalAddress == cr3 * FRAME_SIZE && virtualAddress % FRAME_SIZE == 0
      requires PdIndex(virtualAddress) != RECURSIVE
      requires var slot := memory[cr3][PdIndex(virtualAddress)];
               Present(slot) && Large(slot) && slot / 0x40_0000 * ENTRIES + PtIndex(virtualAddress) == cr3
      ensures Valid() && dir == cr3 && pageDir == virtualAddress && phys == frames
      ensures ram == Poke(memory, dir, RECURSIVE, TableEntry(physicalAddress))
    {
      ram := memory;
      dir, pageDir, phys := cr3, virtualAddress, frames;
      new;
      DirectoryWord(RECURSIVE);
      EntryBits(physicalAddress);
      LowHalfOfFrame(cr3);
      StoreWord(pageDir + 4 * RECURSIVE, TableEntry(physicalAddress));
    }

    function GetFromVirtualAddress(pageIndex: nat): (table: Word)
      requires pageIndex < ENTRIES
      ensures forall i: nat :: i < ENTRIES ==> table + 4 * i == WindowAddress(pageIndex, i)
    {
      0xFFC0_0000 + pageIndex * FRAME_SIZE
    }

    /** Writes to absent entries leave the two slots that make the directory reachable. */
    lemma PresentSlotsKept(before: Ram, after: Ram)
      requires DirectoryMapped(before) && Recursive(before, dir)
      requires forall i: nat :: i < ENTRIES && Present(before[dir][i]) ==> after[dir][i] == before[dir][i]
      ensures DirectoryMapped(after) && Recursive(after, dir)
    {}

    method MapPage(va: Word, pa: Word)
      requires Valid()
      modifies this`ram, phys.bitmap
      ensures Valid()
      ensures Now() == Map(old(Now()), va, pa)
    {
      var pd, pt := PdIndex(va), PtIndex(va);
      DirectoryWord(pd);
      var pde := LoadWord(pageDir + 4 * pd);
      if !Present(pde) {
        InstallTable(pd);
      }
      EnterPage(pd, pt, pa);
    }

    /** The branch of `MapPage` for an absent directory entry. */
    method InstallTable(pd: nat)
      requires Valid() && pd < ENTRIES && !Present(ram[dir][pd])
      modifies this`ram, phys.bitmap
      ensures Valid() && Present(ram[dir][pd])
      ensures Now() == AddTable(old(Now()), pd)
    {
      ghost var start, f := ram, NextFrame(old(phys.Free()));
      var address := phys.AllocatePage();
      assert phys.Free() == old(phys.Free()) - {f} && address == f * FRAME_SIZE;
      StoreEntry(pd, address);
      ZeroTable(pd, f);
      PresentSlotsKept(start, ram);
    }

    method StoreEntry(pd: nat, address: Word)
      requires DirectoryMapped(ram) && Recursive(ram, dir) && pd < ENTRIES && !Present(ram[dir][pd])
      modifies this`ram
      ensures ram == Poke(old(ram), dir, pd, TableEntry(address)) && Recursive(ram, dir)
      ensures Present(ram[dir][pd]) && FrameOf(ram[dir][pd]) == FrameOf(address)
    {
      DirectoryWord(pd);
      EntryBits(address);
      StoreWord(pageDir + 4 * pd, TableEntry(address));
    }

    /** The table that entry `pd` names is zeroed, word by word, through the window. */
    method ZeroTable(pd: nat, ghost f: FrameIndex)
      requires pd < ENTRIES && Recursive(ram, dir)
      requires Present(ram[dir][pd]) && FrameOf(ram[dir][pd]) == f != dir
      modifies this`ram
      ensures ram == Zeroed(old(ram), f)
    {
      var table := GetFromVirtualAddress(pd);
      var i := 0;
      while i < ENTRIES
        invariant 0 <= i <= ENTRIES
        invariant forall g :: 0 <= g < PHYSICAL_FRAMES && g != f ==> ram[g] == old(ram)[g]
        invariant forall j :: 0 <= j < i ==> ram[f][j] == 0
      {
        WindowReachesTable(ram, dir, pd, i);
        StoreWord(table + 4 * i, 0);
        i := i + 1;
      }
      assert ram[f] == ZeroFrame();
      assert ram == Zeroed(old(ram), f);
    }

    /** The rest of `MapPage`: the page is entered unless it is present. */
    method EnterPage(pd: nat, pt: nat, pa: Word)
      requires Valid() && pd < ENTRIES && pt < ENTRIES && Present(ram[dir][pd])
      modifies this`ram, phys.bitmap
      ensures Valid()
      ensures Now() == AddPage(old(Now()), pd, pt, pa)
    {
      hide Recursive, DirectoryMapped, PageEntry, Present;
      var table := GetFromVirtualAddress(pd);
      WindowReachesTable(ram, dir, pd, pt);
      var pte := LoadWord(table + 4 * pt);
      if !Present(pte) {
        var address := pa;
        if pa == 0 {
          address := phys.AllocatePage();
          assert phys.Free() == old(phys.Free()) - {NextFrame(old(phys.Free()))};
        }
        ghost var start := ram;
        StoreWord(table + 4 * pt, PageEntry(address));
        PresentSlotsKept(start, ram);
      }
    }
  }
}
