/** The bytes the heap works on (kernel/memory/heap.cpp) are bytes of physical memory seen through the page
    tables: mapping a page and storing a byte do to them what `Heap` says. */
module HeapMemory {
  import opened FrameAllocator
  import opened Paging
  import opened PagingProofs
  import opened FrameOwnership
  import Heap

  /** A byte of a word, the lowest first, and a word with one byte replaced. */
  function ByteIn(w: Word, k: nat): Heap.Byte { Heap.ByteOf(w, k) }

  function WithByte(w: nat, k: nat, b: Heap.Byte): nat {
    if k == 0 then w / 0x100 * 0x100 + b else WithByte(w / 0x100, k - 1, b) * 0x100 + w % 0x100
  }

  lemma Low(h: nat, l: nat)
    requires l < 0x100
    ensures (h * 0x100 + l) % 0x100 == l && (h * 0x100 + l) / 0x100 == h
  {}

  lemma {:induction false} WithByteSets(w: Word, k: nat, b: Heap.Byte, j: nat)
    requires WithByte(w, k, b) < 0x1_0000_0000
    ensures ByteIn(WithByte(w, k, b), j) == if j == k then b else ByteIn(w, j)
  {
    var high := if k == 0 then w / 0x100 else WithByte(w / 0x100, k - 1, b);
    Low(high, if k == 0 then b else w % 0x100);
    if j > 0 && k > 0 { WithByteSets(w / 0x100, k - 1, b, j - 1); }
  }

  lemma WithByteStep(w: nat, k: nat, b: Heap.Byte, limit: nat)
    requires if k == 0 then w < 0x100 * limit else WithByte(w / 0x100, k - 1, b) < limit
    ensures WithByte(w, k, b) < 0x100 * limit
  {}

  lemma WithByteInWord(w: Word, k: nat, b: Heap.Byte)
    requires k < 4
    ensures WithByte(w, k, b) < 0x1_0000_0000
  {
    if k > 2 { WithByteStep(w / 0x100 / 0x100 / 0x100, k - 3, b, 1); }
    if k > 1 { WithByteStep(w / 0x100 / 0x100, k - 2, b, 0x100); }
    if k > 0 { WithByteStep(w / 0x100, k - 1, b, 0x1_0000); }
    WithByteStep(w, k, b, 0x100_0000);
  }

  /** The word of the cell of a, with the byte of a replaced. */
  function Updated(s: Space, a: Word, b: Heap.Byte): Word
    requires Walk(s.ram, s.dir, a).Some?
  {
    WithByteInWord(Load(s.ram, s.dir, a), a % 4, b);
    WithByte(Load(s.ram, s.dir, a), a % 4, b)
  }

  // ---------------------------------------------------------------- what the heap sees

  /** The bytes of the pages that have a frame of their own, by virtual address. */
  ghost predicate Shows(mem: Heap.Memory, s: Space, given: set<Use>) {
    && (forall a :: a in mem ==> 0 <= a < 0x1_0000_0000)
    && (forall a: Word :: a in mem <==> Owned(s, a, given))
    && forall a: Word :: a in mem ==> mem[a] == ByteIn(Load(s.ram, s.dir, a), a % 4)
  }

  /** There are such bytes in every state. */
  lemma SomethingShows(s: Space, given: set<Use>)
    ensures exists m :: Shows(m, s, given)
  {
    ghost var m: Heap.Memory :=
      map a: int | 0 <= a < 0x1_0000_0000 && Owned(s, a, given) :: ByteIn(Load(s.ram, s.dir, a), a % 4);
    hide Owned, Load, ByteIn;
    assert Shows(m, s, given);
  }

  /** `MapPage` without an address of its own, for a page whose frames are there: the bytes seen before are
      as they were, and the page is all that is new. This is the contract of the heap's `MapPage`. */
  lemma MapPageShows(s: Space, page: Word, given: set<Use>, kernelEnd: nat, m: Heap.Memory, n: Heap.Memory)
    requires Private(s, given, kernelEnd) && Ordinary(s, page) && Served(s, page, 0)
    requires page % FRAME_SIZE == 0 && PageUse(page) !in given
    requires Shows(m, s, given) && Shows(n, Map(s, page, 0), given)
    ensures Heap.PageAdded(m, n, page)
  {
    hide Private, Owned, Ordinary, Served, Map, Load, Walk;
    forall a | page <= a < page + FRAME_SIZE ensures a in n {
      OwnedAfterCall(s, page, given, kernelEnd, a);
      var word: Word := a;
      assert word in n;
    }
    forall a: Word | a in m ensures a in n && n[a] == m[a] {
      ByteKept(s, page, given, kernelEnd, a);
    }
    forall a: Word | a in n ensures a in m || page <= a < page + FRAME_SIZE {
      if Page(a) == Page(page) {
        assert page <= a < page + FRAME_SIZE;
      } else {
        OwnedBeforeCall(s, page, given, kernelEnd, a);
      }
    }
  }

  lemma ByteKept(s: Space, page: Word, given: set<Use>, kernelEnd: nat, a: Word)
    requires Private(s, given, kernelEnd) && Ordinary(s, page) && Served(s, page, 0) && Owned(s, a, given)
    ensures var t := Map(s, page, 0);
            Owned(t, a, given) && Walk(t.ram, t.dir, a).Some? && Load(t.ram, t.dir, a) == Load(s.ram, s.dir, a)
  {
    CallKeepsContents(s, page, 0, given, kernelEnd, a);
  }

  lemma OwnedAfterCall(s: Space, page: Word, given: set<Use>, kernelEnd: nat, a: int)
    requires Private(s, given, kernelEnd) && Ordinary(s, page) && Served(s, page, 0)
    requires page % FRAME_SIZE == 0 && PageUse(page) !in given && page <= a < page + FRAME_SIZE
    ensures a < 0x1_0000_0000 && Owned(Map(s, page, 0), a, given)
  {
    var word: Word := a;
    assert Page(word) == Page(page);
    SamePage(word, page);
    AddTableKeepsPages(s, PdIndex(page));
    AddPageMaps(AddTable(s, PdIndex(page)), page, 0);
    var mid, t := AddTable(s, PdIndex(page)), Map(s, page, 0);
    assert Entry(t, PdIndex(page)) == Entry(mid, PdIndex(page));
    CallUses(s, page, 0, given, kernelEnd);
  }

  lemma OwnedBeforeCall(s: Space, page: Word, given: set<Use>, kernelEnd: nat, a: Word)
    requires Private(s, given, kernelEnd) && Ordinary(s, page) && Served(s, page, 0)
    requires Page(a) != Page(page) && Owned(Map(s, page, 0), a, given)
    ensures Owned(s, a, given)
  {
    MapPageTranslates(s, page, 0);
    AddTableKeepsPages(s, PdIndex(page));
    AddPageMaps(AddTable(s, PdIndex(page)), page, 0);
    var mid, t := AddTable(s, PdIndex(page)), Map(s, page, 0);
    assert Entry(t, PdIndex(a)) == Entry(mid, PdIndex(a));
    assert Walk(s.ram, s.dir, a).Some?;
    assert PdIndex(a) != PdIndex(page) ==> Entry(mid, PdIndex(a)) == Entry(s, PdIndex(a));
  }

  /** A word the heap reads is the word of physical memory its address names. */
  lemma WordShows(s: Space, a: Word, given: set<Use>, m: Heap.Memory)
    requires Shows(m, s, given) && a % 4 == 0 && a in m
    ensures a + 1 in m && a + 2 in m && a + 3 in m && Heap.Read32(m, a) == Load(s.ram, s.dir, a)
  {
    hide Owned, Load, Walk;
    NextByteShows(s, a, 1, given);
    NextByteShows(s, a, 2, given);
    NextByteShows(s, a, 3, given);
    Heap.LittleSplits(Load(s.ram, s.dir, a));
  }

  lemma NextByteShows(s: Space, a: Word, k: nat, given: set<Use>)
    requires a % 4 == 0 && k < 4 && Owned(s, a, given)
    ensures a + k < 0x1_0000_0000 && (a + k) % 4 == k
    ensures Owned(s, a + k, given) && Walk(s.ram, s.dir, a).Some? && Load(s.ram, s.dir, a + k) == Load(s.ram, s.dir, a)
  {
    SameCellMeans(a, a + k);
    SamePage(a, a + k);
    SameCellLoad(s, a, a + k);
  }

  /** A byte stored at an address the heap sees changes that byte and no other, and moves nothing. */
  lemma StoreShows(s: Space, a: Word, b: Heap.Byte, given: set<Use>, kernelEnd: nat, m: Heap.Memory, n: Heap.Memory)
    requires Private(s, given, kernelEnd) && Shows(m, s, given) && a in m
    ensures Owned(s, a, given) && StoreAllowed(s, a, given)
    ensures var t := AfterStore(s, a, Updated(s, a, b));
            Private(t, given, kernelEnd) && (Shows(n, t, given) ==> n == m[a := b])
  {
    OwnedIsWritable(s, a, given, kernelEnd);
    StoreKeepsPrivate(s, a, Updated(s, a, b), given, kernelEnd);
    var t := AfterStore(s, a, Updated(s, a, b));
    if Shows(n, t, given) {
      forall x: Word ensures (x in n <==> x in m) && (x in m ==> n[x] == if x == a then b else m[x]) {
        StoreShowsAt(s, a, b, given, kernelEnd, m, n, x);
      }
      OneByteChanged(m, n, a, b);
    }
  }

  lemma OneByteChanged(m: Heap.Memory, n: Heap.Memory, a: Word, b: Heap.Byte)
    requires a in m && (forall x :: x in m || x in n ==> 0 <= x < 0x1_0000_0000)
    requires forall x: Word :: (x in n <==> x in m) && (x in m ==> n[x] == if x == a then b else m[x])
    ensures n == m[a := b]
  {
    var u := m[a := b];
    forall x ensures x in n <==> x in u {
      if x in n { var y: Word := x; assert y in m; }
      if x in u { var y: Word := x; assert y in n; }
    }
    forall x | x in n ensures n[x] == u[x] { var y: Word := x; assert y in m; }
  }

  lemma StoreShowsAt(s: Space, a: Word, b: Heap.Byte, given: set<Use>, kernelEnd: nat, m: Heap.Memory, n: Heap.Memory, x: Word)
    requires Private(s, given, kernelEnd) && Owned(s, a, given)
    requires Shows(m, s, given) && Shows(n, AfterStore(s, a, Updated(s, a, b)), given)
    ensures (x in n <==> x in m) && (x in m ==> n[x] == if x == a then b else m[x])
  {
    OwnedIsWritable(s, a, given, kernelEnd);
    var w := Updated(s, a, b);
    StoreDisownsNothing(s, a, w, given, kernelEnd, x);
    if Owned(s, x, given) {
      StoreIsPrivate(s, a, w, given, kernelEnd, x);
      hide Private, Owned, Walk, AfterStore, ByteIn;
      SameCellMeans(a, x);
      if SameCell(a, x) {
        SameCellLoad(s, a, x);
        WithByteInWord(Load(s.ram, s.dir, a), a % 4, b);
        WithByteSets(Load(s.ram, s.dir, a), a % 4, b, x % 4);
      }
    }
  }

  lemma SameCellLoad(s: Space, a: Word, x: Word)
    requires SameCell(a, x) && Walk(s.ram, s.dir, a).Some?
    ensures Walk(s.ram, s.dir, x).Some? && Load(s.ram, s.dir, x) == Load(s.ram, s.dir, a)
  {
    SamePage(a, x);
  }

  lemma StoreDisownsNothing(s: Space, a: Word, w: Word, given: set<Use>, kernelEnd: nat, x: Word)
    requires Private(s, given, kernelEnd) && StoreAllowed(s, a, given)
    ensures Owned(AfterStore(s, a, w), x, given) <==> Owned(s, x, given)
  {
    StoreKeepsPrivate(s, a, w, given, kernelEnd);
    var t := AfterStore(s, a, w);
    assert t.ram[s.dir] == s.ram[s.dir];
    assert Entry(t, PdIndex(x)) == Entry(s, PdIndex(x));
  }

  lemma SameCellMeans(a: Word, b: Word)
    ensures SameCell(a, b) <==> a / 4 == b / 4
  {
    assert a / 4 == Page(a) * 1024 + WordIndex(a);
    assert b / 4 == Page(b) * 1024 + WordIndex(b);
  }
}
