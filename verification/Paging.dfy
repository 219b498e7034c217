/** Physical memory, the 32-bit paging walk (section 4.3 of the Intel SDM, volume 3A), and what
    `MapPage` does to both, stated on physical frames (kernel/memory/manager.cpp). */
module Paging {
  import opened FrameAllocator

  const PHYSICAL_FRAMES := 0x10_0000
  const ENTRIES := 1024
  const RECURSIVE := 1023

  // Bits of a directory or table entry.
  const PRESENT := 0
  const WRITABLE := 1
  const USER := 2
  const CACHE_DISABLE := 5
  const LARGE := 7

  type Frame = s: seq<Word> | |s| == ENTRIES witness seq(ENTRIES, i => 0)

  /** All of physical memory, as frames of 1024 words. */
  type Ram = s: seq<Frame> | |s| == PHYSICAL_FRAMES
    ghost witness seq<Frame>(PHYSICAL_FRAMES, i => ZeroFrame())

  function ZeroFrame(): (frame: Frame)
    ensures forall i :: 0 <= i < ENTRIES ==> frame[i] == 0
  {
    seq(ENTRIES, i => 0)
  }

  type FrameIndex = f: nat | f < PHYSICAL_FRAMES

  // ---------------------------------------------------------------- entries and addresses

  predicate Present(entry: Word) { BitSet(entry, PRESENT) }
  predicate Large(entry: Word) { BitSet(entry, LARGE) }
  function FrameOf(entry: Word): FrameIndex { entry / FRAME_SIZE }

  function PdIndex(va: Word): nat { va / 0x40_0000 }
  function PtIndex(va: Word): nat { va / FRAME_SIZE % ENTRIES }
  function WordIndex(va: Word): nat { va % FRAME_SIZE / 4 }
  function Page(va: Word): nat { va / FRAME_SIZE }

  /** `entry |= (1 << bit)`. */
  function WithFlag(entry: Word, bit: nat): Word
    requires bit < 32
  {
    WordWidth();
    BitsStayInWord(entry, bit, 32);
    WithBit(entry, bit)
  }

  function PageEntry(address: Word): Word {
    WithFlag(WithFlag(WithFlag(address, PRESENT), WRITABLE), USER)
  }

  function TableEntry(address: Word): Word {
    WithFlag(PageEntry(address), CACHE_DISABLE)
  }

  lemma ShiftedByFour(w: nat, n: nat)
    requires n >= 4
    ensures Shifted(w, n) == Shifted(w / 16, n - 4)
  {
    assert Shifted(w, n) == Shifted(w / 2, n - 1);
    assert Shifted(w / 2, n - 1) == Shifted(w / 2 / 2, n - 2);
    assert Shifted(w / 2 / 2, n - 2) == Shifted(w / 2 / 2 / 2, n - 3);
    assert w / 2 / 2 / 2 / 2 == w / 16;
  }

  lemma ShiftedByPage(entry: Word)
    ensures Shifted(entry, 12) == FrameOf(entry)
  {
    ShiftedByFour(entry, 12);
    ShiftedByFour(entry / 16, 8);
    ShiftedByFour(entry / 16 / 16, 4);
  }

  lemma FlagBits(entry: Word, bit: nat)
    requires bit < 12
    ensures FrameOf(WithFlag(entry, bit)) == FrameOf(entry)
    ensures Present(WithFlag(entry, bit)) <==> (bit == PRESENT || Present(entry))
    ensures Large(WithFlag(entry, bit)) <==> (bit == LARGE || Large(entry))
  {
    WithBitSets(entry, bit, PRESENT);
    WithBitSets(entry, bit, LARGE);
    WithBitKeepsHighPart(entry, bit, 12);
    ShiftedByPage(entry);
    ShiftedByPage(WithFlag(entry, bit));
  }

  lemma EntryBits(address: Word)
    ensures Present(TableEntry(address)) && Present(PageEntry(address))
    ensures Large(TableEntry(address)) == Large(PageEntry(address)) == Large(address)
    ensures FrameOf(TableEntry(address)) == FrameOf(PageEntry(address)) == FrameOf(address)
  {
    var p := WithFlag(address, PRESENT);
    FlagBits(address, PRESENT);
    FlagBits(p, WRITABLE);
    FlagBits(WithFlag(p, WRITABLE), USER);
    FlagBits(PageEntry(address), CACHE_DISABLE);
  }

  /** Bit by bit: present, read/write and user are set in every entry, cache disable in a table's, and the
      rest is the address's. */
  lemma EntryFlags(address: Word, j: nat)
    ensures BitSet(PageEntry(address), j) <==> j <= 2 || BitSet(address, j)
    ensures BitSet(TableEntry(address), j) <==> j <= 2 || j == 5 || BitSet(address, j)
  {
    var p := WithFlag(address, PRESENT);
    var q := WithFlag(p, WRITABLE);
    WithBitSets(address, PRESENT, j);
    WithBitSets(p, WRITABLE, j);
    WithBitSets(q, USER, j);
    WithBitSets(PageEntry(address), CACHE_DISABLE, j);
  }

  // ---------------------------------------------------------------- the walk

  datatype Option<T> = None | Some(value: T)

  /** The frame the MMU finds for a virtual address, or None for a page fault. */
  function Walk(ram: Ram, dir: FrameIndex, va: Word): Option<FrameIndex>
  {
    var pde := ram[dir][PdIndex(va)];
    if !Present(pde) then None
    else if Large(pde) then Some(pde / 0x40_0000 * ENTRIES + PtIndex(va))
    else
      var pte := ram[FrameOf(pde)][PtIndex(va)];
      if Present(pte) then Some(FrameOf(pte)) else None
  }

  function Poke(ram: Ram, f: FrameIndex, i: nat, w: Word): Ram
    requires i < ENTRIES
  {
    ram[f := ram[f][i := w]]
  }

  function Zeroed(ram: Ram, f: FrameIndex): Ram {
    ram[f := ZeroFrame()]
  }

  /** A word read or written through virtual address `va`; the caller shows that `va` is mapped. */
  function Load(ram: Ram, dir: FrameIndex, va: Word): Word
    requires Walk(ram, dir, va).Some?
  {
    ram[Walk(ram, dir, va).value][WordIndex(va)]
  }

  function Store(ram: Ram, dir: FrameIndex, va: Word, w: Word): Ram
    requires Walk(ram, dir, va).Some?
  {
    Poke(ram, Walk(ram, dir, va).value, WordIndex(va), w)
  }

  // ---------------------------------------------------------------- the recursive window

  /** Slot 1023 of the directory names the directory itself. */
  ghost predicate Recursive(ram: Ram, dir: FrameIndex)
  {
    var slot := ram[dir][RECURSIVE];
    Present(slot) && !Large(slot) && FrameOf(slot) == dir
  }

  function WindowAddress(pd: nat, i: nat): Word
    requires pd < ENTRIES && i < ENTRIES
  {
    0xFFC0_0000 + pd * FRAME_SIZE + 4 * i
  }

  /** An address of the window reaches the word of the table that the directory entry names. */
  lemma WindowReachesTable(ram: Ram, dir: FrameIndex, pd: nat, i: nat)
    requires pd < ENTRIES && i < ENTRIES
    requires Recursive(ram, dir)
    ensures Walk(ram, dir, WindowAddress(pd, i)) ==
            (if Present(ram[dir][pd]) then Some(FrameOf(ram[dir][pd])) else None)
    ensures WordIndex(WindowAddress(pd, i)) == i
  {
    var va := WindowAddress(pd, i);
    assert PdIndex(va) == RECURSIVE;
    assert Page(va) == 0xFFC00 + pd;
    assert PtIndex(va) == pd;
  }

  // ---------------------------------------------------------------- MapPage on frames

  /** What the memory manager works on: memory, the directory CR3 names, and the free frames. */
  datatype Space = Space(ram: Ram, dir: FrameIndex, free: set<nat>)

  /** `AllocatePage`, as a frame number: 0 stands for the NULL of an exhausted allocator. */
  ghost function NextFrame(free: set<nat>): nat {
    if free == {} then 0 else Lowest(free)
  }

  ghost predicate FreeInRange(free: set<nat>) {
    forall f :: f in free ==> 0 < f < FRAMES
  }

  /** A directory entry is installed for a missing table, whose frame is zeroed. */
  ghost function AddTable(s: Space, pd: nat): Space
    requires pd < ENTRIES && FreeInRange(s.free)
  {
    if Present(s.ram[s.dir][pd]) then s
    else
      var f := NextFrame(s.free);
      Space(Zeroed(Poke(s.ram, s.dir, pd, TableEntry(f * FRAME_SIZE)), f), s.dir, s.free - {f})
  }

  /** A missing page is entered in its table. */
  ghost function AddPage(s: Space, pd: nat, pt: nat, pa: Word): Space
    requires pd < ENTRIES && pt < ENTRIES && FreeInRange(s.free)
  {
    var table := FrameOf(s.ram[s.dir][pd]);
    if Present(s.ram[table][pt]) then s
    else
      var f := NextFrame(s.free);
      if pa == 0 then Space(Poke(s.ram, table, pt, PageEntry(f * FRAME_SIZE)), s.dir, s.free - {f})
      else Space(Poke(s.ram, table, pt, PageEntry(pa)), s.dir, s.free)
  }

  ghost function Map(s: Space, va: Word, pa: Word): Space
    requires FreeInRange(s.free)
  {
    AddPage(AddTable(s, PdIndex(va)), PdIndex(va), PtIndex(va), pa)
  }
}
