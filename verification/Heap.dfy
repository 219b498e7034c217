/** The kernel heap (kernel/memory/heap.cpp): a list of blocks, each with a 12-byte header, in pages that
    are mapped and zeroed on demand. Memory is the bytes of the mapped pages, by virtual address; that
    mapping and storing do to them what is said here is proved in `HeapMemory`. */
module Heap {

  const HEAP_START := 0xE000_0000
  const PAGE_SIZE := 4096
  const HEADER := 12
  /** The page-table window begins here; the heap must end below it. */
  const WINDOW := 0xFFC0_0000

  type Word = w: int | 0 <= w < 0x1_0000_0000
  type Byte = b: int | 0 <= b < 256
  type Memory = map<int, Byte>

  // ---------------------------------------------------------------- words in memory

  ghost predicate AllZero(mem: Memory, lo: int, hi: int) {
    forall a :: lo <= a < hi ==> a in mem && mem[a] == 0
  }

  ghost predicate KeptOutside(before: Memory, after: Memory, lo: int, hi: int) {
    forall a :: a in before && !(lo <= a < hi) ==> a in after && after[a] == before[a]
  }

  ghost predicate Mapped(mem: Memory, lo: int, hi: int) {
    forall a :: lo <= a < hi ==> a in mem
  }

  function Little(b0: Byte, b1: Byte, b2: Byte, b3: Byte): Word {
    b0 as int + 0x100 * b1 as int + 0x1_0000 * b2 as int + 0x100_0000 * b3 as int
  }

  function Read32(mem: Memory, a: int): Word
    requires a in mem && a + 1 in mem && a + 2 in mem && a + 3 in mem
  {
    Little(mem[a], mem[a + 1], mem[a + 2], mem[a + 3])
  }

  /** Byte `k` of a word, the lowest first. */
  function ByteOf(w: Word, k: nat): Byte {
    if k == 0 then w % 0x100 else ByteOf(w / 0x100, k - 1)
  }

  lemma LittleSplits(w: Word)
    ensures Little(ByteOf(w, 0), ByteOf(w, 1), ByteOf(w, 2), ByteOf(w, 3)) == w
  {
    var high := w / 0x100;
    var higher := high / 0x100;
    assert w == 0x100 * high + w % 0x100;
    assert high == 0x100 * higher + high % 0x100;
    assert higher == 0x100 * (higher / 0x100) + higher % 0x100;
    assert ByteOf(w, 2) == higher % 0x100 && ByteOf(w, 3) == higher / 0x100;
  }

  /** `after` is `before` with the word `w` stored at `a`. */
  ghost predicate Wrote(before: Memory, after: Memory, a: int, w: Word) {
    && WordAt(after, a, w)
    && forall k :: k in before && !(a <= k < a + 4) ==> k in after && after[k] == before[k]
  }

  ghost predicate WordAt(mem: Memory, a: int, w: Word) {
    a in mem && a + 1 in mem && a + 2 in mem && a + 3 in mem && Read32(mem, a) == w
  }

  /** A header: `in_use` and the 31-bit `size` share the first word, then `next` and `prev`. */
  datatype Header = Header(first: Word, next: Word, prev: Word)

  function FirstWord(inUse: bool, size: Word): Word {
    (if inUse then 1 else 0) + 2 * (size % 0x8000_0000)
  }

  /** The 31-bit field of the first word. */
  function SizeField(first: Word): Word {
    first / 2
  }

  lemma SizeFieldOf(size: Word)
    requires size < 0x8000_0000
    ensures SizeField(FirstWord(true, size)) == size
  {}

  ghost predicate BytesAre(mem: Memory, a: int, w: int) {
    a in mem && a + 1 in mem && a + 2 in mem && a + 3 in mem
    && w == mem[a] as int + 0x100 * mem[a + 1] as int + 0x1_0000 * mem[a + 2] as int + 0x100_0000 * mem[a + 3] as int
  }

  lemma WordBytes(mem: Memory, a: int, w: Word)
    requires WordAt(mem, a, w)
    ensures BytesAre(mem, a, w)
  {}

  /** The twelve bytes of a header: the low bit of the first word is `in_use`, the 31 bits above it the size. */
  lemma HeaderBytes(mem: Memory, a: int, size: Word, next: Word, prev: Word)
    requires HeaderAt(mem, a, Header(FirstWord(true, size), next, prev)) && size < 0x8000_0000
    ensures BytesAre(mem, a, 2 * size + 1) && BytesAre(mem, a + 4, next) && BytesAre(mem, a + 8, prev)
  {
    hide WordAt, BytesAre;
    WordBytes(mem, a, FirstWord(true, size));
    WordBytes(mem, a + 4, next);
    WordBytes(mem, a + 8, prev);
  }

  ghost predicate HeaderAt(mem: Memory, a: int, h: Header) {
    WordAt(mem, a, h.first) && WordAt(mem, a + 4, h.next) && WordAt(mem, a + 8, h.prev)
  }

  lemma WordKept(before: Memory, after: Memory, a: int, w: Word, b: int, v: Word)
    requires Wrote(before, after, a, w) && WordAt(before, b, v) && (b + 4 <= a || a + 4 <= b)
    ensures WordAt(after, b, v)
  {}

  /** Equal bytes are equal headers. */
  lemma SameHeader(m: Memory, n: Memory, a: int, h: Header)
    requires HeaderAt(m, a, h)
    requires forall k :: a <= k < a + HEADER && k in m ==> k in n && n[k] == m[k]
    ensures HeaderAt(n, a, h)
  {}

  // ---------------------------------------------------------------- blocks

  /** A block: its header's address, and its size with the header. */
  datatype Block = Block(at: int, size: int) {
    function End(): int { at + size }
    function Payload(): int { at + HEADER }
  }

  /** The blocks tile the heap from its start. */
  ghost predicate Tiled(blocks: seq<Block>) {
    && (forall i :: 0 <= i < |blocks| ==> blocks[i].size > HEADER)
    && (blocks != [] ==> blocks[0].at == HEAP_START)
    && (forall i, j :: 0 <= i < |blocks| && j == i + 1 && j < |blocks| ==> blocks[j].at == blocks[i].End())
  }

  function HeapEnd(blocks: seq<Block>): int {
    if blocks == [] then HEAP_START else blocks[|blocks| - 1].End()
  }

  lemma {:induction false} TiledInOrder(blocks: seq<Block>, i: nat, j: nat)
    requires Tiled(blocks) && i < j < |blocks|
    ensures HEAP_START <= blocks[i].at && blocks[i].End() <= blocks[j].at
    decreases j
  {
    if j > i + 1 { TiledInOrder(blocks, i, j - 1); }
    if i > 0 { TiledInOrder(blocks, 0, i); }
  }

  lemma TiledBounds(blocks: seq<Block>, i: nat)
    requires Tiled(blocks) && i < |blocks|
    ensures HEAP_START <= blocks[i].at && blocks[i].End() <= HeapEnd(blocks)
  {
    if i > 0 { TiledInOrder(blocks, 0, i); }
    if i < |blocks| - 1 { TiledInOrder(blocks, i, |blocks| - 1); }
  }

  /** The header every block must have: the list runs through the blocks in order, except that a single
      block names itself as its successor. */
  function ExpectedHeader(blocks: seq<Block>, i: nat): Header
    requires i < |blocks| && Words(blocks)
  {
    Header(FirstWord(true, blocks[i].size),
           if i + 1 < |blocks| then blocks[i + 1].at else if |blocks| == 1 then HEAP_START else 0,
           if i == 0 then HEAP_START else blocks[i - 1].at)
  }

  predicate Words(blocks: seq<Block>) {
    forall i :: 0 <= i < |blocks| ==> 0 <= blocks[i].at < 0x1_0000_0000 && 0 <= blocks[i].size < 0x8000_0000
  }

  ghost predicate HeaderRight(mem: Memory, blocks: seq<Block>, i: nat)
    requires i < |blocks| && Words(blocks)
  {
    HeaderAt(mem, blocks[i].at, ExpectedHeader(blocks, i))
  }

  ghost predicate HeadersRight(mem: Memory, blocks: seq<Block>)
    requires Words(blocks)
  {
    forall i :: 0 <= i < |blocks| ==> HeaderRight(mem, blocks, i)
  }

  /** Headers are made of the bytes below the heap's end. */
  lemma HeadersBelowEnd(m: Memory, n: Memory, blocks: seq<Block>)
    requires Tiled(blocks) && Words(blocks) && HeadersRight(m, blocks)
    requires forall a :: HEAP_START <= a < HeapEnd(blocks) && a in m ==> a in n && n[a] == m[a]
    ensures HeadersRight(n, blocks)
  {
    forall i: nat | i < |blocks| ensures HeaderRight(n, blocks, i) {
      assert HeaderRight(m, blocks, i);
      TiledBounds(blocks, i);
      SameHeader(m, n, blocks[i].at, ExpectedHeader(blocks, i));
    }
  }

  // ---------------------------------------------------------------- linking a block

  /** The stores of one allocation: the new block's header, then its predecessor's `next`. */
  ghost predicate Linked(m0: Memory, m1: Memory, m2: Memory, m3: Memory, m4: Memory, at: Word, size: Word, found: Word) {
    && Wrote(m0, m1, at, FirstWord(true, size))
    && Wrote(m1, m2, at + 4, 0)
    && Wrote(m2, m3, at + 8, found)
    && Wrote(m3, m4, found + 4, at)
  }

  /** The new block's header; the first block is its own predecessor, so its `next` becomes itself. */
  lemma NewHeader(m0: Memory, m1: Memory, m2: Memory, m3: Memory, m4: Memory, at: Word, size: Word, found: Word)
    requires Linked(m0, m1, m2, m3, m4, at, size, found) && (found == at || found + HEADER <= at)
    ensures HeaderAt(m4, at, Header(FirstWord(true, size), if found == at then at else 0, found))
  {
    var first := FirstWord(true, size);
    WordKept(m1, m2, at + 4, 0, at, first);
    WordKept(m2, m3, at + 8, found, at, first);
    WordKept(m3, m4, found + 4, at, at, first);
    WordKept(m3, m4, found + 4, at, at + 8, found);
    if found != at {
      WordKept(m2, m3, at + 8, found, at + 4, 0);
      WordKept(m3, m4, found + 4, at, at + 4, 0);
    }
  }

  /** A word of an earlier header, other than the predecessor's `next`, is kept. */
  lemma OldWord(m0: Memory, m1: Memory, m2: Memory, m3: Memory, m4: Memory, at: Word, size: Word, found: Word, b: int, v: Word)
    requires Linked(m0, m1, m2, m3, m4, at, size, found)
    requires WordAt(m0, b, v) && b + 4 <= at && (b + 4 <= found + 4 || found + 8 <= b)
    ensures WordAt(m4, b, v)
  {
    WordKept(m0, m1, at, FirstWord(true, size), b, v);
    WordKept(m1, m2, at + 4, 0, b, v);
    WordKept(m2, m3, at + 8, found, b, v);
    WordKept(m3, m4, found + 4, at, b, v);
  }

  lemma WroteKeepsMapped(before: Memory, after: Memory, a: int, w: Word)
    requires Wrote(before, after, a, w)
    ensures forall k :: k in before ==> k in after
  {}

  ghost predicate KeptByLink(before: Memory, after: Memory, at: int, found: int) {
    && (forall k :: k in before ==> k in after)
    && forall a :: a in before && !(at <= a < at + HEADER) && !(found + 4 <= a < found + 8) ==> after[a] == before[a]
  }

  /** Nothing is unmapped, and every byte outside the new header and the predecessor's `next` is kept. */
  lemma OldBytes(m0: Memory, m1: Memory, m2: Memory, m3: Memory, m4: Memory, at: Word, size: Word, found: Word)
    requires Linked(m0, m1, m2, m3, m4, at, size, found)
    ensures KeptByLink(m0, m4, at, found)
  {
    WroteKeepsMapped(m0, m1, at, FirstWord(true, size));
    WroteKeepsMapped(m1, m2, at + 4, 0);
    WroteKeepsMapped(m2, m3, at + 8, found);
    WroteKeepsMapped(m3, m4, found + 4, at);
    forall a | a in m0 && !(at <= a < at + HEADER) && !(found + 4 <= a < found + 8)
      ensures a in m4 && m4[a] == m0[a]
    {
      assert m1[a] == m0[a];
      assert m2[a] == m1[a];
      assert m3[a] == m2[a];
    }
  }

  function LastAt(blocks: seq<Block>): int {
    if blocks == [] then HEAP_START else blocks[|blocks| - 1].at
  }

  lemma HeaderKept(m0: Memory, m1: Memory, m2: Memory, m3: Memory, m4: Memory, blocks: seq<Block>, size: Word, i: nat)
    requires Tiled(blocks) && Words(blocks) && HeadersRight(m0, blocks) && i < |blocks|
    requires HEAP_START <= HeapEnd(blocks) < WINDOW && size < 0x8000_0000
    requires Linked(m0, m1, m2, m3, m4, HeapEnd(blocks), size, LastAt(blocks))
    ensures HeaderRight(m4, blocks + [Block(HeapEnd(blocks), size)], i)
  {
    var at, found := HeapEnd(blocks), LastAt(blocks);
    var b, h := blocks[i].at, ExpectedHeader(blocks, i);
    assert HeaderRight(m0, blocks, i);
    if i < |blocks| - 1 { TiledInOrder(blocks, i, |blocks| - 1); }
    OldWord(m0, m1, m2, m3, m4, at, size, found, b, h.first);
    OldWord(m0, m1, m2, m3, m4, at, size, found, b + 8, h.prev);
    if i < |blocks| - 1 { OldWord(m0, m1, m2, m3, m4, at, size, found, b + 4, h.next); }
  }

  lemma TiledMore(blocks: seq<Block>, size: Word)
    requires Tiled(blocks) && Words(blocks) && HEADER < size && HEAP_START <= HeapEnd(blocks) && HeapEnd(blocks) + size <= WINDOW
    ensures Tiled(blocks + [Block(HeapEnd(blocks), size)]) && Words(blocks + [Block(HeapEnd(blocks), size)])
    ensures LastAt(blocks) == HeapEnd(blocks) || LastAt(blocks) + HEADER <= HeapEnd(blocks)
  {
    if blocks != [] { TiledBounds(blocks, |blocks| - 1); }
  }

  lemma NewHeaderRight(m: Memory, blocks: seq<Block>, size: Word)
    requires Tiled(blocks) && Words(blocks) && HEAP_START <= HeapEnd(blocks) < WINDOW && size < 0x8000_0000
    requires Words(blocks + [Block(HeapEnd(blocks), size)])
    requires 0 <= LastAt(blocks) < 0x1_0000_0000 && (LastAt(blocks) == HeapEnd(blocks) || LastAt(blocks) + HEADER <= HeapEnd(blocks))
    requires HeaderAt(m, HeapEnd(blocks),
                      Header(FirstWord(true, size), if LastAt(blocks) == HeapEnd(blocks) then HeapEnd(blocks) else 0, LastAt(blocks)))
    ensures HeaderRight(m, blocks + [Block(HeapEnd(blocks), size)], |blocks|)
  {
    hide HeaderAt;
    if blocks != [] { TiledBounds(blocks, |blocks| - 1); }
  }

  lemma LinkExtendsList(m0: Memory, m1: Memory, m2: Memory, m3: Memory, m4: Memory, blocks: seq<Block>, size: Word)
    requires Tiled(blocks) && Words(blocks) && HeadersRight(m0, blocks) && HEADER < size
    requires HEAP_START <= HeapEnd(blocks) && HeapEnd(blocks) + size <= WINDOW
    requires Linked(m0, m1, m2, m3, m4, HeapEnd(blocks), size, LastAt(blocks))
    ensures Tiled(blocks + [Block(HeapEnd(blocks), size)]) && Words(blocks + [Block(HeapEnd(blocks), size)])
    ensures HeadersRight(m4, blocks + [Block(HeapEnd(blocks), size)])
  {
    TiledMore(blocks, size);
    LastInHeap(blocks);
    var at, found := HeapEnd(blocks), LastAt(blocks);
    var longer := blocks + [Block(at, size)];
    hide Tiled, Words, HeaderRight, Linked, HeaderAt, HeapEnd, LastAt, FirstWord;
    NewHeader(m0, m1, m2, m3, m4, at, size, found);
    NewHeaderRight(m4, blocks, size);
    forall i: nat | i < |longer|
      ensures HeaderRight(m4, longer, i)
    {
      if i < |blocks| { HeaderKept(m0, m1, m2, m3, m4, blocks, size, i); }
    }
  }

  lemma LastInHeap(blocks: seq<Block>)
    requires Tiled(blocks) && Words(blocks)
    ensures 0 <= LastAt(blocks) < 0x1_0000_0000
  {}

  // ---------------------------------------------------------------- the allocator

  /** Addresses an allocation must leave alone: outside the heap, and in earlier blocks up to the last
      block's `next`. */
  predicate UntouchedBy(blocks: seq<Block>, a: int, newTop: int) {
    if a < HEAP_START then true
    else if a < HeapEnd(blocks) then !(LastAt(blocks) + 4 <= a < LastAt(blocks) + 8)
    else newTop <= a
  }

  ghost predicate KeptApart(before: Memory, after: Memory, blocks: seq<Block>, newTop: int) {
    forall a :: a in before && UntouchedBy(blocks, a, newTop) ==> a in after && after[a] == before[a]
  }

  ghost predicate ZeroPayload(mem: Memory, b: Block) {
    AllZero(mem, b.Payload(), b.End())
  }

  /** An allocation keeps every block's payload. */
  lemma PayloadKept(before: Memory, after: Memory, blocks: seq<Block>, i: nat, newTop: int)
    requires Tiled(blocks) && i < |blocks| && KeptApart(before, after, blocks, newTop)
    requires ZeroPayload(before, blocks[i])
    ensures ZeroPayload(after, blocks[i])
  {
    TiledBounds(blocks, i);
    if i < |blocks| - 1 { TiledInOrder(blocks, i, |blocks| - 1); }
    forall a | blocks[i].Payload() <= a < blocks[i].End() ensures a in after && after[a] == 0 {
      assert a in before && UntouchedBy(blocks, a, newTop);
    }
  }

  /** New pages, then a header: what is zero and what is kept. */
  lemma AfterLink(start: Memory, mapped: Memory, linked: Memory, blocks: seq<Block>,
                  oldTop: int, newTop: int, at: int, found: int)
    requires at == HeapEnd(blocks) && found == LastAt(blocks) && HEAP_START <= found
    requires found == at || found + HEADER <= at
    requires HEAP_START <= at <= oldTop <= newTop && at + HEADER <= newTop
    requires AllZero(start, at, oldTop) && KeptOutside(start, mapped, oldTop, newTop) && AllZero(mapped, oldTop, newTop)
    requires KeptByLink(mapped, linked, at, found)
    ensures AllZero(linked, at + HEADER, newTop) && KeptApart(start, linked, blocks, newTop)
  {
    forall a | at + HEADER <= a < newTop ensures a in linked && linked[a] == 0 {
      if a < oldTop { assert a in start; }
      assert a in mapped && mapped[a] == 0;
    }
    forall a | a in start && UntouchedBy(blocks, a, newTop) ensures a in linked && linked[a] == start[a] {
      assert a in mapped && mapped[a] == start[a];
    }
  }

  // ---------------------------------------------------------------- pages

  /** The page is all that is new; what was there is as it was. */
  ghost predicate PageAdded(before: Memory, after: Memory, page: int) {
    && Mapped(after, page, page + PAGE_SIZE)
    && (forall a :: a in before ==> a in after && after[a] == before[a])
    && (forall a :: a in after ==> a in before || page <= a < page + PAGE_SIZE)
  }

  ghost predicate PageZeroed(before: Memory, after: Memory, page: int) {
    && after.Keys == before.Keys
    && forall a :: a in after ==> after[a] == if page <= a < page + PAGE_SIZE then 0 else before[a]
  }

  lemma NothingGrown(mem: Memory, top: int)
    ensures AllZero(mem, top, top) && KeptOutside(mem, mem, top, top)
  {}

  lemma NextPage(top: int)
    requires top % PAGE_SIZE == 0 && HEAP_START <= top < WINDOW
    ensures (top + PAGE_SIZE) % PAGE_SIZE == 0 && top + PAGE_SIZE <= WINDOW
  {}

  lemma AddedIsMapped(before: Memory, after: Memory, page: int)
    requires PageAdded(before, after, page)
    ensures Mapped(after, page, page + PAGE_SIZE)
  {}

  /** One page more, mapped and zeroed. */
  lemma GrownByPage(start: Memory, before: Memory, added: Memory, zeroed: Memory, lo: int, top: int)
    requires lo <= top && Mapped(before, HEAP_START, top) && AllZero(before, lo, top) && KeptOutside(start, before, lo, top)
    requires PageAdded(before, added, top) && PageZeroed(added, zeroed, top)
    ensures Mapped(zeroed, HEAP_START, top + PAGE_SIZE)
    ensures AllZero(zeroed, lo, top + PAGE_SIZE) && KeptOutside(start, zeroed, lo, top + PAGE_SIZE)
  {
    forall a | a in before ensures a in zeroed && zeroed[a] == if top <= a < top + PAGE_SIZE then 0 else before[a] {
      assert a in added;
    }
    forall a | top <= a < top + PAGE_SIZE ensures a in zeroed && zeroed[a] == 0 { assert a in added; }
  }

  class KernelHeap {
    var kheapTop: Word
    var kheapStart: Word
    var mem: Memory
    /** What a frame holds before it is first mapped at an address. */
    const stale: int -> Byte
    ghost var blocks: seq<Block>

    ghost predicate Valid()
      reads this
    {
      && Tiled(blocks) && Words(blocks)
      && kheapTop % PAGE_SIZE == 0 && HEAP_START <= HeapEnd(blocks) <= kheapTop <= WINDOW
      && kheapStart == (if blocks == [] then 0 else HEAP_START)
      && (blocks == [] ==> kheapTop == HEAP_START)
      && Mapped(mem, HEAP_START, kheapTop)
      && HeadersRight(mem, blocks)
      && AllZero(mem, HeapEnd(blocks), kheapTop)
    }

    constructor (memory: Memory, contents: int -> Byte)
      ensures Valid() && blocks == [] && mem == memory
    {
      kheapTop, kheapStart, mem, stale, blocks := HEAP_START, 0, memory, contents, [];
    }

    /** `MapPage(page)` with no address of its own: what was unmapped appears with its frame's old contents. */
    method MapPage(page: Word)
      requires page % PAGE_SIZE == 0
      modifies this`mem
      ensures PageAdded(old(mem), mem, page)
    {
      mem := (map a | page <= a < page + PAGE_SIZE :: stale(a)) + mem;
    }

    method ZeroPage(page: Word)
      requires Mapped(mem, page, page + PAGE_SIZE)
      modifies this`mem
      ensures PageZeroed(old(mem), mem, page)
    {
      var i := 0;
      while i < PAGE_SIZE
        invariant 0 <= i <= PAGE_SIZE
        invariant mem.Keys == old(mem).Keys
        invariant forall a :: a in mem ==> mem[a] == if page <= a < page + i then 0 else old(mem)[a]
      {
        mem := mem[page + i := 0];
        i := i + 1;
      }
    }

    /** Pages are mapped and zeroed from `kheapTop` up, until they cover `endAddr`. */
    method MapHeapPages(endAddr: Word)
      requires endAddr <= WINDOW
      requires kheapTop % PAGE_SIZE == 0 && HEAP_START <= kheapTop <= WINDOW && Mapped(mem, HEAP_START, kheapTop)
      modifies this`mem, this`kheapTop
      ensures kheapTop % PAGE_SIZE == 0 && old(kheapTop) <= kheapTop <= WINDOW && endAddr <= kheapTop
      ensures kheapTop == old(kheapTop) || (kheapTop >= old(kheapTop) + PAGE_SIZE && kheapTop < endAddr + PAGE_SIZE)
      ensures Mapped(mem, HEAP_START, kheapTop)
      ensures AllZero(mem, old(kheapTop), kheapTop) && KeptOutside(old(mem), mem, old(kheapTop), kheapTop)
    {
      hide PageAdded, PageZeroed, AllZero, KeptOutside, Mapped;
      NothingGrown(mem, kheapTop);
      while endAddr > kheapTop
        invariant kheapTop % PAGE_SIZE == 0 && old(kheapTop) <= kheapTop <= WINDOW
        invariant kheapTop == old(kheapTop) || (kheapTop >= old(kheapTop) + PAGE_SIZE && kheapTop < endAddr + PAGE_SIZE)
        invariant Mapped(mem, HEAP_START, kheapTop)
        invariant AllZero(mem, old(kheapTop), kheapTop) && KeptOutside(old(mem), mem, old(kheapTop), kheapTop)
        decreases WINDOW - kheapTop
      {
        ghost var before := mem;
        MapPage(kheapTop);
        ghost var added := mem;
        AddedIsMapped(before, added, kheapTop);
        ZeroPage(kheapTop);
        NextPage(kheapTop);
        GrownByPage(old(mem), before, added, mem, old(kheapTop), kheapTop);
        kheapTop := kheapTop + PAGE_SIZE;
      }
    }

    /** The walk to the last block stops at a zero `next`, or at a block that names itself. */
    method FindLast() returns (found: Word)
      requires Tiled(blocks) && Words(blocks) && HeadersRight(mem, blocks) && kheapStart == HEAP_START
      requires blocks == [] ==> WordAt(mem, HEAP_START + 4, 0)
      ensures found == LastAt(blocks)
    {
      ghost var i := 0;
      found := kheapStart;
      while Read32(mem, found + 4) != 0 && found != Read32(mem, found + 4)
        invariant if blocks == [] then found == HEAP_START
                  else 0 <= i < |blocks| && found == blocks[i].at && HeaderRight(mem, blocks, i)
        decreases |blocks| - i
      {
        found := Read32(mem, found + 4);
        i := i + 1;
      }
    }

    method Store32(a: Word, w: Word)
      modifies this`mem
      ensures Wrote(old(mem), mem, a, w)
    {
      LittleSplits(w);
      mem := mem[a := ByteOf(w, 0)][a + 1 := ByteOf(w, 1)][a + 2 := ByteOf(w, 2)][a + 3 := ByteOf(w, 3)];
    }

    /** A block of `size` bytes and its header are appended. Its memory is mapped and all zero, and no byte
        of an earlier block changes, except the link of the last one. */
    method Vmalloc(size: Word) returns (p: Word)
      requires Valid()
      requires size > 0 ==> HeapEnd(blocks) + HEADER + size <= WINDOW
      modifies this
      ensures Valid()
      ensures size == 0 ==> p == 0 && blocks == old(blocks) && mem == old(mem)
      ensures size > 0 ==>
                && blocks == old(blocks) + [Block(HeapEnd(old(blocks)), size + 12)]
                && p == HeapEnd(old(blocks)) + 12 && p + size <= kheapTop && AllZero(mem, p, p + size)
                && (old(blocks) == [] ==> p == 0xE000_000C)
      ensures KeptApart(old(mem), mem, old(blocks), kheapTop)
    {
      if size == 0 { return 0; }
      if kheapStart == 0 {
        InitHeap();
      }
      var found, endOfBlock := Locate();
      AppendBlock(endOfBlock, size + HEADER, found);
      p := endOfBlock + HEADER;
    }

    /** What the holder of a block may do with it: the heap stays valid whatever it stores there. */
    method StoreInBlock(ghost i: nat, a: Word, b: Byte)
      requires Valid() && i < |blocks| && blocks[i].Payload() <= a < blocks[i].End()
      modifies this`mem
      ensures Valid() && a in old(mem) && mem == old(mem)[a := b]
    {
      TiledBounds(blocks, i);
      ghost var before := mem;
      mem := mem[a := b];
      forall k: nat | k < |blocks| ensures HeaderRight(mem, blocks, k) {
        assert HeaderRight(before, blocks, k);
        if k < i { TiledInOrder(blocks, k, i); }
        if i < k { TiledInOrder(blocks, i, k); }
        SameHeader(before, mem, blocks[k].at, ExpectedHeader(blocks, k));
      }
    }

    /** Any run of allocations from a valid heap: each call adds a block of its own size, and the payloads
        handed out are still mapped and zero when the run ends. */
    method VmallocAll(sizes: seq<Word>) returns (regions: seq<int>)
      requires Valid() && (forall k :: 0 <= k < |sizes| ==> sizes[k] > 0)
      requires HeapEnd(blocks) + Needed(sizes) <= WINDOW
      modifies this
      ensures Valid() && |regions| == |sizes|
      ensures HandedOut(blocks, |old(blocks)|, regions, sizes)
      ensures forall j :: |old(blocks)| <= j < |blocks| ==> ZeroPayload(mem, blocks[j])
    {
      regions := [];
      ghost var n := |blocks|;
      var k := 0;
      while k < |sizes|
        invariant 0 <= k <= |sizes| && |regions| == k
        invariant Valid() && HeapEnd(blocks) + Needed(sizes[k..]) <= WINDOW
        invariant HandedOut(blocks, n, regions, sizes[..k])
        invariant forall j :: n <= j < |blocks| ==> ZeroPayload(mem, blocks[j])
      {
        assert sizes[k..][0] == sizes[k] && sizes[k..][1..] == sizes[k + 1..];
        ghost var before, tiles := mem, blocks;
        var p := Vmalloc(sizes[k]);
        forall j | n <= j < |tiles| ensures ZeroPayload(mem, tiles[j]) {
          PayloadKept(before, mem, tiles, j, kheapTop);
        }
        regions := regions + [p];
        k := k + 1;
      }
      assert sizes[..k] == sizes;
    }

    /** `Valid`, once the heap has been initialised. */
    ghost predicate Started()
      reads this
    {
      && Tiled(blocks) && Words(blocks) && kheapStart == HEAP_START
      && kheapTop % PAGE_SIZE == 0 && HEAP_START <= HeapEnd(blocks) <= kheapTop <= WINDOW
      && Mapped(mem, HEAP_START, kheapTop) && HeadersRight(mem, blocks)
      && AllZero(mem, HeapEnd(blocks), kheapTop)
    }

    /** The walk, and the end of the block it stops at. */
    method Locate() returns (found: Word, endOfBlock: Word)
      requires Started()
      requires blocks == [] ==> WordAt(mem, HEAP_START, 0) && WordAt(mem, HEAP_START + 4, 0)
      ensures found == LastAt(blocks) && endOfBlock == HeapEnd(blocks)
    {
      found := FindLast();
      var foundSize := BlockSize(found);
      endOfBlock := found + foundSize;
    }

    /** Pages for a block of `size` bytes, then the block itself. */
    method AppendBlock(endOfBlock: Word, size: Word, found: Word)
      requires Started() && found == LastAt(blocks) && endOfBlock == HeapEnd(blocks)
      requires HEADER < size && endOfBlock + size <= WINDOW
      modifies this`mem, this`kheapTop, this`blocks
      ensures Started() && blocks == old(blocks) + [Block(endOfBlock, size)]
      ensures HeapEnd(blocks) == endOfBlock + size
      ensures kheapTop == old(kheapTop) || kheapTop >= old(kheapTop) + PAGE_SIZE
      ensures AllZero(mem, endOfBlock + HEADER, kheapTop) && KeptApart(old(mem), mem, old(blocks), kheapTop)
    {
      if blocks != [] { TiledBounds(blocks, |blocks| - 1); }
      ghost var start := mem;
      MapHeapPages(endOfBlock + size);
      HeadersBelowEnd(start, mem, blocks);
      ghost var mapped, before := mem, blocks;
      LinkBlock(endOfBlock, size, found);
      AfterLink(start, mapped, mem, before, old(kheapTop), kheapTop, endOfBlock, found);
    }

    /** The first page is mapped and zeroed, so that the first header reads as empty. */
    method InitHeap()
      requires Valid() && kheapStart == 0
      modifies this`mem, this`kheapStart, this`kheapTop
      ensures kheapStart == HEAP_START == kheapTop && HeadersRight(mem, blocks)
      ensures WordAt(mem, HEAP_START, 0) && WordAt(mem, HEAP_START + 4, 0)
      ensures forall a :: a in old(mem) && !(HEAP_START <= a < HEAP_START + PAGE_SIZE) ==> a in mem && mem[a] == old(mem)[a]
    {
      MapPage(HEAP_START);
      ZeroPage(HEAP_START);
      kheapStart, kheapTop := HEAP_START, HEAP_START;
    }

    /** The size field of the block found; the zeroed first header reads as size 0. */
    method BlockSize(found: Word) returns (size: Word)
      requires Tiled(blocks) && Words(blocks) && HeadersRight(mem, blocks) && found == LastAt(blocks)
      requires blocks == [] ==> WordAt(mem, HEAP_START, 0)
      ensures found + size == HeapEnd(blocks)
    {
      assert blocks != [] ==> HeaderRight(mem, blocks, |blocks| - 1);
      var first := Read32(mem, found);
      ghost var last := |blocks| - 1;
      if blocks != [] { SizeFieldOf(blocks[last].size); }
      size := SizeField(first);
    }

    /** The new header is written and its predecessor linked to it. */
    method LinkBlock(at: Word, size: Word, found: Word)
      requires Tiled(blocks) && Words(blocks) && HeadersRight(mem, blocks)
      requires found == LastAt(blocks) && at == HeapEnd(blocks) && at >= HEAP_START
      requires HEADER < size && at + size <= WINDOW
      modifies this`mem, this`blocks
      ensures blocks == old(blocks) + [Block(at, size)] && HeapEnd(blocks) == at + size
      ensures Tiled(blocks) && Words(blocks) && HeadersRight(mem, blocks)
      ensures KeptByLink(old(mem), mem, at, found)
    {
      hide Wrote, Tiled, Words, HeaderRight, HeadersRight, KeptByLink;
      TiledMore(blocks, size);
      ghost var m0 := mem;
      Store32(at, FirstWord(true, size));
      ghost var m1 := mem;
      Store32(at + 4, 0);
      ghost var m2 := mem;
      Store32(at + 8, found);
      ghost var m3 := mem;
      Store32(found + 4, at);
      LinkExtendsList(m0, m1, m2, m3, mem, blocks, size);
      OldBytes(m0, m1, m2, m3, mem, at, size, found);
      blocks := blocks + [Block(at, size)];
    }
  }

  function Needed(sizes: seq<Word>): nat {
    if sizes == [] then 0 else HEADER + sizes[0] + Needed(sizes[1..])
  }

  // ---------------------------------------------------------------- what a valid heap means

  /** Block `n + k` is the one the `k`th call of a run was given. */
  ghost predicate HandedOut(blocks: seq<Block>, n: nat, regions: seq<int>, sizes: seq<Word>) {
    |blocks| == n + |sizes| && |regions| == |sizes|
    && forall k :: 0 <= k < |sizes| ==> blocks[n + k] == Block(regions[k] - HEADER, sizes[k] + HEADER)
  }

  /** The regions of a run lie one above the other with room for a header below each, above every earlier
      block and below the heap's end: they are pairwise disjoint and overlap no header. */
  lemma RegionsDisjoint(blocks: seq<Block>, n: nat, regions: seq<int>, sizes: seq<Word>, j: nat)
    requires Tiled(blocks) && HandedOut(blocks, n, regions, sizes) && j < |sizes|
    ensures HEAP_START + HEADER <= regions[j] && regions[j] + sizes[j] <= HeapEnd(blocks)
    ensures forall i :: 0 <= i < j ==> regions[i] + sizes[i] + HEADER <= regions[j]
    ensures forall b: nat :: b < |blocks| && b != n + j ==>
              blocks[b].End() + HEADER <= regions[j] || regions[j] + sizes[j] <= blocks[b].at
  {
    TiledBounds(blocks, n + j);
    forall b: nat | b < n + j ensures blocks[b].End() + HEADER <= regions[j] { TiledInOrder(blocks, b, n + j); }
    forall b: nat | n + j < b < |blocks| ensures regions[j] + sizes[j] <= blocks[b].at { TiledInOrder(blocks, n + j, b); }
    forall i | 0 <= i < j ensures regions[i] + sizes[i] + HEADER <= regions[j] {
      assert blocks[n + i].End() + HEADER <= regions[j];
    }
  }
}
