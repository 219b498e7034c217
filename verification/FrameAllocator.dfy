/** The physical frame allocator: one bit per 4 KiB frame, set when the frame is free
    (kernel/memory/manager.cpp). Physical addresses are `int`s below 2^32. */
module FrameAllocator {

  const BITMAP_SIZE := 4096
  const FRAMES := 32 * BITMAP_SIZE
  const FRAME_SIZE := 4096
  const MULTIBOOT_MEMORY_AVAILABLE := 1

  type Word = w: int | 0 <= w < 0x1_0000_0000

  /** One entry of the boot loader's memory map. */
  datatype Region = Region(kind: Word, base: Word, length: Word)

  /** The last byte of frame f lies in an available region, whose end wraps as the source's does. */
  ghost predicate InAvailable(f: nat, regions: seq<Region>) {
    exists k :: 0 <= k < |regions| && EndsIn(f, regions[k])
  }

  predicate EndsIn(f: nat, r: Region) {
    r.kind == 1 && r.base < (f + 1) * 4096 <= (r.base + r.length) % 0x1_0000_0000
  }

  /** In frame numbers: rounded down at both ends. */
  lemma EndsInFrames(f: nat, r: Region)
    ensures EndsIn(f, r) <==>
            r.kind == MULTIBOOT_MEMORY_AVAILABLE
            && r.base / FRAME_SIZE <= f < (r.base + r.length) % 0x1_0000_0000 / FRAME_SIZE
  {}

  /** A frame freed for a region lies wholly in it, except the first when the region starts inside it. */
  lemma WhollyInside(f: nat, r: Region)
    requires EndsIn(f, r)
    ensures r.base <= f * 4096 <==> !(f == r.base / 4096 && r.base % 4096 != 0)
  {}

  /** Bit `i` of a word: the test `(w & (1 << i)) != 0`. */
  predicate BitSet(w: nat, i: nat) {
    if i == 0 then w % 2 == 1 else BitSet(w / 2, i - 1)
  }

  /** `w | (1 << i)` and `w & ~(1 << i)`. */
  function WithBit(w: nat, i: nat): nat {
    if i == 0 then w / 2 * 2 + 1 else WithBit(w / 2, i - 1) * 2 + w % 2
  }

  function WithoutBit(w: nat, i: nat): nat {
    if i == 0 then w / 2 * 2 else WithoutBit(w / 2, i - 1) * 2 + w % 2
  }

  lemma {:induction false} WithBitSets(w: nat, i: nat, j: nat)
    ensures BitSet(WithBit(w, i), j) <==> (i == j || BitSet(w, j))
  {
    if i > 0 && j > 0 { WithBitSets(w / 2, i - 1, j - 1); }
  }

  lemma {:induction false} WithoutBitClears(w: nat, i: nat, j: nat)
    ensures BitSet(WithoutBit(w, i), j) <==> (i != j && BitSet(w, j))
  {
    if i > 0 && j > 0 { WithoutBitClears(w / 2, i - 1, j - 1); }
  }

  /** `w >> n`. */
  function Shifted(w: nat, n: nat): nat {
    if n == 0 then w else Shifted(w / 2, n - 1)
  }

  lemma {:induction false} WithBitKeepsHighPart(w: nat, i: nat, n: nat)
    requires i < n
    ensures Shifted(WithBit(w, i), n) == Shifted(w, n)
  {
    if i > 0 { WithBitKeepsHighPart(w / 2, i - 1, n - 1); }
  }

  function Pow2(n: nat): nat {
    if n == 0 then 1 else 2 * Pow2(n - 1)
  }

  /** As numbers: bit `i` counts 2^i, and is set or cleared by adding or taking that. */
  lemma {:induction false} BitMeans(w: nat, i: nat)
    ensures WithBit(w, i) == w + if BitSet(w, i) then 0 else Pow2(i)
    ensures WithoutBit(w, i) == w - if BitSet(w, i) then Pow2(i) else 0
  {
    if i > 0 { BitMeans(w / 2, i - 1); }
  }

  /** Neither operation leaves the word's width. */
  lemma {:induction false} BitsStayInWord(w: nat, i: nat, width: nat)
    requires w < Pow2(width) && i < width
    ensures WithoutBit(w, i) <= w <= WithBit(w, i) < Pow2(width)
  {
    if i > 0 { BitsStayInWord(w / 2, i - 1, width - 1); }
  }

  lemma {:induction false} ZeroHasNoBits(i: nat)
    ensures !BitSet(0, i)
  {
    if i > 0 { ZeroHasNoBits(i - 1); }
  }

  lemma WordWidth()
    ensures Pow2(32) == 0x1_0000_0000
  {
    assert Pow2(8) == 0x100;
    assert Pow2(16) == 0x1_0000;
    assert Pow2(24) == 0x100_0000;
  }

  ghost predicate FrameBit(bits: seq<Word>, f: nat)
    requires |bits| == BITMAP_SIZE && f < FRAMES
  {
    BitSet(bits[f / 32], f % 32)
  }

  ghost function FreeFrames(bits: seq<Word>): set<nat>
    requires |bits| == BITMAP_SIZE
  {
    set f: nat | f < FRAMES && FrameBit(bits, f)
  }

  lemma {:induction false} LowestExists(free: set<nat>) returns (m: nat)
    requires free != {}
    ensures m in free && forall f :: f in free ==> m <= f
  {
    m :| m in free;
    var rest := free - {m};
    if rest == {} {
      assert free == {m};
    } else {
      var low := LowestExists(rest);
      forall f | f in free ensures m <= f || low <= f { assert f == m || f in rest; }
      m := if m < low then m else low;
    }
  }

  ghost function Lowest(free: set<nat>): (m: nat)
    requires free != {}
    ensures m in free && forall f :: f in free ==> m <= f
  {
    assert exists m :: m in free && forall f :: f in free ==> m <= f by {
      var m := LowestExists(free);
    }
    var m :| m in free && forall f :: f in free ==> m <= f;
    m
  }

  class BitmapAllocator {
    const bitmap: array<Word>

    ghost predicate Valid() {
      bitmap.Length == BITMAP_SIZE
    }

    ghost function Free(): set<nat>
      requires Valid()
      reads bitmap
    {
      FreeFrames(bitmap[..])
    }

    /** The source never clears `bitmap`: `stale` is whatever it held. The last frame of every
        available region must have a bit, since the source does not check it. */
    constructor (stale: seq<Word>, regions: seq<Region>, kernelEnd: Word)
      requires |stale| == BITMAP_SIZE
      requires forall k :: 0 <= k < |regions| && regions[k].kind == MULTIBOOT_MEMORY_AVAILABLE ==>
                             (regions[k].base + regions[k].length) % 0x1_0000_0000 / FRAME_SIZE <= FRAMES
      requires kernelEnd / FRAME_SIZE < FRAMES
      ensures Valid() && fresh(bitmap)
      ensures forall f: nat :: f in Free() <==>
                f < 131072 && f * 4096 > kernelEnd && (f in FreeFrames(stale) || InAvailable(f, regions))
    {
      bitmap := new Word[BITMAP_SIZE](i requires 0 <= i < BITMAP_SIZE => stale[i]);
      new;
      assert bitmap[..] == stale;
      var index := 0;
      while index < |regions|
        invariant 0 <= index <= |regions|
        invariant forall f: nat :: f in Free() <==>
                    f < FRAMES && (f in FreeFrames(stale) || InAvailable(f, regions[..index]))
      {
        ghost var before := Free();
        var entry := regions[index];
        if entry.kind == MULTIBOOT_MEMORY_AVAILABLE {
          var first, end := entry.base / FRAME_SIZE, (entry.base + entry.length) % 0x1_0000_0000 / FRAME_SIZE;
          var page := first;
          while page < end
            invariant first <= page && (page <= end || page == first)
            invariant forall f: nat :: f in Free() <==> f in before || (f < FRAMES && first <= f < page)
          {
            PageFree(page);
            page := page + 1;
          }
        }
        assert regions[..index + 1] == regions[..index] + [entry];
        forall f: nat
          ensures InAvailable(f, regions[..index + 1]) <==>
                  (InAvailable(f, regions[..index])
                   || (entry.kind == MULTIBOOT_MEMORY_AVAILABLE
                       && entry.base / FRAME_SIZE <= f < (entry.base + entry.length) % 0x1_0000_0000 / FRAME_SIZE))
        {
          AvailableSnoc(f, regions[..index], entry);
          EndsInFrames(f, entry);
        }
        index := index + 1;
      }
      assert regions[..index] == regions;
      ghost var all := Free();
      var kernelEndPage := kernelEnd / FRAME_SIZE;
      var page := 0;
      while page < kernelEndPage + 1
        invariant page <= kernelEndPage + 1
        invariant forall f: nat :: f in Free() <==> f in all && f >= page
      {
        PageTaken(page);
        page := page + 1;
      }
    }

    method PageFree(page: nat)
      requires Valid() && page < FRAMES
      modifies bitmap
      ensures Free() == old(Free()) + {page}
    {
      ghost var was := bitmap[..];
      WordWidth();
      BitsStayInWord(was[page / 32], page % 32, 32);
      bitmap[page / 32] := WithBit(bitmap[page / 32], page % 32);
      forall f: nat | f < FRAMES
        ensures FrameBit(bitmap[..], f) <==> f == page || FrameBit(was, f)
      {
        if f / 32 == page / 32 { WithBitSets(was[page / 32], page % 32, f % 32); }
      }
    }

    method PageTaken(page: nat)
      requires Valid() && page < FRAMES
      modifies bitmap
      ensures Free() == old(Free()) - {page}
    {
      ghost var was := bitmap[..];
      WordWidth();
      BitsStayInWord(was[page / 32], page % 32, 32);
      bitmap[page / 32] := WithoutBit(bitmap[page / 32], page % 32);
      forall f: nat | f < FRAMES
        ensures FrameBit(bitmap[..], f) <==> f != page && FrameBit(was, f)
      {
        if f / 32 == page / 32 { WithoutBitClears(was[page / 32], page % 32, f % 32); }
      }
    }

    /** The address of the lowest free frame, which is then taken; 0 (NULL) when none is free. */
    method AllocatePage() returns (address: Word)
      requires Valid()
      modifies bitmap
      ensures address == NextAddress(old(Free())) && Free() == Left(old(Free()), 1)
      ensures old(Free()) == {} ==> address == 0 && bitmap[..] == old(bitmap[..])
      ensures old(Free()) != {} ==>
                address == FRAME_SIZE * Lowest(old(Free())) && Free() == old(Free()) - {Lowest(old(Free()))}
    {
      var chunk := 0;
      while chunk < BITMAP_SIZE
        invariant 0 <= chunk <= BITMAP_SIZE
        invariant bitmap[..] == old(bitmap[..])
        invariant forall f: nat :: f < 32 * chunk ==> f !in Free()
      {
        if bitmap[chunk] != 0 {
          var bit := 0;
          while bit < 32
            invariant 0 <= bit <= 32
            invariant bitmap[..] == old(bitmap[..])
            invariant forall f: nat :: f < 32 * chunk + bit ==> f !in Free()
          {
            if BitSet(bitmap[chunk], bit) {
              var page := chunk * 32 + bit;
              assert page / 32 == chunk && page % 32 == bit && FrameBit(bitmap[..], page);
              assert page in Free() && page == Lowest(Free());
              PageTaken(page);
              return FRAME_SIZE * page;
            }
            assert (32 * chunk + bit) / 32 == chunk && (32 * chunk + bit) % 32 == bit;
            bit := bit + 1;
          }
        } else {
          forall f: nat | f < 32 * (chunk + 1)
            ensures f !in Free()
          {
            if f >= 32 * chunk { assert f / 32 == chunk; ZeroHasNoBits(f % 32); }
          }
        }
        chunk := chunk + 1;
      }
      forall f: nat ensures f !in Free() { assert f < FRAMES ==> f < 32 * chunk; }
      assert Free() == {};
      return 0;
    }
  }

  lemma AvailableSnoc(f: nat, regions: seq<Region>, last: Region)
    ensures InAvailable(f, regions + [last]) <==> (InAvailable(f, regions) || EndsIn(f, last))
  {
    var longer := regions + [last];
    if EndsIn(f, last) { assert longer[|regions|] == last; }
    if InAvailable(f, regions) {
      var k :| 0 <= k < |regions| && EndsIn(f, regions[k]);
      assert longer[k] == regions[k];
    }
  }

  // ---------------------------------------------------------------- runs of allocations

  /** What `AllocatePage` returns, and the free frames it leaves. */
  ghost function NextAddress(free: set<nat>): nat {
    if free == {} then 0 else FRAME_SIZE * Lowest(free)
  }

  ghost function Left(free: set<nat>, n: nat): set<nat> {
    if n == 0 then free
    else var before := Left(free, n - 1); if before == {} then {} else before - {Lowest(before)}
  }

  lemma {:induction false} LeftCounts(free: set<nat>, n: nat)
    ensures Left(free, n) <= free && |Left(free, n)| == if n <= |free| then |free| - n else 0
  {
    if n > 0 { LeftCounts(free, n - 1); }
  }

  /** What earlier calls took is lower than what is left. */
  lemma {:induction false} TakenInOrder(free: set<nat>, m: nat, n: nat)
    requires m < n && Left(free, m) != {}
    ensures Lowest(Left(free, m)) !in Left(free, n) && forall f :: f in Left(free, n) ==> Lowest(Left(free, m)) < f
    decreases n
  {
    if m < n - 1 { TakenInOrder(free, m, n - 1); }
  }

  /** In any number of calls after the constructor, whose free frames all lie above the kernel's: call n
      returns NULL exactly when the frames have run out, otherwise the address of a frame that was free at
      first, higher than every address before it. */
  lemma NullMeansExhausted(free: set<nat>, kernelPage: nat, n: nat)
    requires forall f :: f in free ==> f > kernelPage
    ensures NextAddress(Left(free, n)) == 0 <==> n >= |free|
    ensures n < |free| ==> NextAddress(Left(free, n)) / FRAME_SIZE in free
    ensures forall m: nat :: m < n < |free| ==> NextAddress(Left(free, m)) < NextAddress(Left(free, n))
  {
    LeftCounts(free, n);
    forall m: nat | m < n < |free| ensures NextAddress(Left(free, m)) < NextAddress(Left(free, n)) {
      LeftCounts(free, m);
      TakenInOrder(free, m, n);
    }
  }
}
