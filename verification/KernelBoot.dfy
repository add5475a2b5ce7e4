/** The kernel heap before the coremap is set up: its pages come from ram_stealmem (kern/arch/mips/mips/ram.c), and
    coremap_bootstrap (kern/vm/coremap.c) builds the coremap with the heap's help. */
module KernelBoot {
  import opened Words
  import opened KheapState
  import opened KheapSteps
  import opened KheapPages
  import opened KernelHeap
  import H = Kheap
  import C = Coremap

  /** 508 megabytes */
  const MAXRAM: nat := 508 * 1024 * 1024

  const WORD_SIZE: nat := 4
  const ENTRY_SIZE: nat := 12

  /** All memory of the heap was stolen: it lies below the first address still free. */
  function Below(firstpaddr: nat): Frames { Frames(firstpaddr, 0, map[]) }

  lemma BelowIs(m: Frames, first: nat, p: nat, n: nat)
    requires m == Below(first)
    ensures Based(m, p, n) <==> KSEG0 <= p && p + PAGE_SIZE * n <= KSEG0 + first
  {
  }

  /** What lies below one address lies below a higher one. */
  lemma Raised(b: Book, first: nat, m: Frames)
    requires Backed(b, Below(first)) && KSEG0 + first <= AddrOf(m.first, m.fixed)
    ensures Backed(b, m)
  {
    hide AddrOf;
    forall p | p in b.own && b.own[p].Sub? ensures Based(m, p, 1) { BelowIs(Below(first), first, p, 1); }
    forall c | c in b.big ensures Based(m, c, b.big[c]) { BelowIs(Below(first), first, c, b.big[c]); }
  }

  /** Memory past the first free address is none of the heap's. */
  lemma PastGiven(h: Heap, b: Book, first: nat, n: nat)
    requires Sound(h, b) && Backed(b, Below(first)) && first % PAGE_SIZE == 0 && first + PAGE_SIZE * n <= MAXRAM
    ensures H.Given(b, KSEG0 + first, n)
  {
    hide Sound, Backed;
    forall p: nat | PageIn(p, KSEG0 + first, n) ensures p !in b.own {
      if p in b.own {
        var g := HeapFrame(h, b, Below(first), p);
      }
    }
  }

  lemma SubRaised(b: Book, b': Book, first: nat)
    requires Backed(b, Below(first)) && KSEG0 + first in b'.own
    requires b'.own == b.own[KSEG0 + first := b'.own[KSEG0 + first]] && b'.big == b.big
    ensures Backed(b', Below(first + PAGE_SIZE))
  {
    Raised(b, first, Below(first + PAGE_SIZE));
    BelowIs(Below(first + PAGE_SIZE), first + PAGE_SIZE, KSEG0 + first, 1);
    hide Based;
  }

  lemma BigRaised(b: Book, first: nat, n: nat, sz: nat)
    requires Backed(b, Below(first))
    ensures Backed(BigBook(b, KSEG0 + first, n, sz), Below(first + PAGE_SIZE * n))
  {
    Raised(b, first, Below(first + PAGE_SIZE * n));
    BelowIs(Below(first + PAGE_SIZE * n), first + PAGE_SIZE * n, KSEG0 + first, n);
    hide Based, PageIn;
  }

  lemma LessBelow(b: Book, b': Book, first: nat)
    requires Backed(b, Below(first)) && b'.own == b.own && b'.big == b.big
    ensures Backed(b', Below(first))
  {
  }

  class Boot {
    const heap: H.Heap
    var firstpaddr: nat
    const lastpaddr: nat

    ghost predicate Valid()
      reads this, heap, heap.refs, heap.inuse, heap.bases
    {
      && heap.Valid() && 0 < firstpaddr <= lastpaddr <= MAXRAM && firstpaddr % PAGE_SIZE == 0
      && Backed(heap.book, Below(firstpaddr))
    }

    /** ram_bootstrap; first is where the kernel's own image ends */
    constructor (first: nat, ramsize: nat)
      requires 0 < first <= ramsize && first <= MAXRAM && first % PAGE_SIZE == 0
      ensures Valid() && fresh(heap) && heap.book.live == map[] && firstpaddr == first
    {
      heap := new H.Heap();
      firstpaddr := first;
      lastpaddr := if ramsize > MAXRAM then MAXRAM else ramsize;
    }

    /** ram_stealmem, in 32 bits */
    method Stealmem(npages: nat) returns (paddr: nat)
      requires PAGE_SIZE * npages < U32 && firstpaddr <= lastpaddr <= MAXRAM
      modifies `firstpaddr
      ensures var sum := old(firstpaddr) + PAGE_SIZE * npages;
              if sum <= lastpaddr then paddr == old(firstpaddr) && firstpaddr == sum
              else if sum < U32 then paddr == 0 && firstpaddr == old(firstpaddr)
              else paddr == old(firstpaddr) && firstpaddr == sum - U32 < old(firstpaddr)
    {
      var size := npages * PAGE_SIZE;
      if (firstpaddr + size) % U32 > lastpaddr { return 0; }
      paddr := firstpaddr;
      firstpaddr := (firstpaddr + size) % U32;
    }

    /** kmalloc of whole pages. A request that takes the end of memory past 2^32 is granted, and the first free address
        falls back. */
    method BigKmalloc(sz: nat) returns (r: nat)
      requires Valid() && H.LARGEST_SUBPAGE_SIZE <= sz < U32
      modifies this, heap, heap.refs, heap.inuse, heap.bases
      ensures r == if lastpaddr < old(firstpaddr) + PAGE_SIZE * H.PagesFor(sz) < U32 then 0 else KSEG0 + old(firstpaddr)
      ensures r == 0 ==> firstpaddr == old(firstpaddr)
      ensures old(firstpaddr) + PAGE_SIZE * H.PagesFor(sz) < U32 ==> Valid() && firstpaddr >= old(firstpaddr)
      ensures old(firstpaddr) + PAGE_SIZE * H.PagesFor(sz) >= U32 ==>
                firstpaddr < old(firstpaddr)
      ensures sz > U32 - PAGE_SIZE || old(firstpaddr) + PAGE_SIZE * H.PagesFor(sz) >= U32 || r == 0 ==>
                heap.book == old(heap.book)
      ensures sz <= U32 - PAGE_SIZE && old(firstpaddr) + PAGE_SIZE * H.PagesFor(sz) < U32 && r != 0 ==>
                r !in old(heap.book.live) && heap.book.live == old(heap.book.live)[r := sz]
    {
      hide Ok, Sound, Backed, H.Given, BigBook, SameOn, PageOf;
      PagesFit(sz);
      ghost var h, b := heap.View(), heap.book;
      var first, n := firstpaddr, H.PagesFor(sz);
      H.OkIs(h, b);
      var pa := Stealmem(n);
      if pa == 0 { return 0; }
      r := KSEG0 + pa;
      if first + PAGE_SIZE * n <= lastpaddr {
        PastGiven(h, b, first, n);
        var used;
        r, used := heap.Kmalloc(sz, r);
        if n > 0 {
          BigRaised(b, first, n, sz);
        }
      }
    }

    /** No free block for a small request, and no reference or no memory for a new page */
    ghost predicate OutOfMemory(sz: nat)
      reads this, heap, heap.refs, heap.inuse, heap.bases
      requires heap.Shape()
    {
      H.Exhausted(heap.View(), sz, if firstpaddr + PAGE_SIZE <= lastpaddr then 1 else 0)
    }

    /** subpage_kmalloc, as in KernelHeap.Memory.SmallKmalloc */
    method SmallKmalloc(sz: nat) returns (r: nat)
      requires Valid() && sz < H.LARGEST_SUBPAGE_SIZE
      modifies this, heap, heap.refs, heap.inuse, heap.bases
      ensures Valid() && firstpaddr >= old(firstpaddr)
      ensures r == 0 <==> old(OutOfMemory(sz))
      ensures r == 0 ==> OutOfMemory(sz) && heap.book == old(heap.book) && firstpaddr == old(firstpaddr)
      ensures r != 0 ==> r !in old(heap.book.live) && heap.book.live == old(heap.book.live)[r := sz]
    {
      hide Ok, Sound, Backed, H.Given, H.Exhausted, H.NoBlock, H.RightSize, SameOn, PageOf, InUse;
      ghost var h, b, first := heap.View(), heap.book, firstpaddr;
      H.OkIs(h, b);
      GivenNone(b, 1);
      var used;
      r, used := heap.SubpageKmalloc(sz, 0);
      WordsSmall(h, b);
      ExhaustedBy(h, sz, 1);
      if r != 0 {
        LessBelow(b, heap.book, first);
        return;
      }
      var left := heap.RefLeft();
      if !left { return; }
      var pa := Stealmem(1);
      if pa == 0 { return; }
      PastGiven(h, b, first, 1);
      ExhaustedBy(h, sz, KSEG0 + pa);
      r, used := heap.SubpageKmalloc(sz, KSEG0 + pa);
      SubRaised(b, heap.book, first);
    }

    /** kfree; free_kpages looks into the coremap, which is not there yet. */
    method Kfree(ptr: nat) returns (crashed: bool)
      requires Valid() && (ptr == 0 || ptr in heap.book.live)
      modifies heap, heap.refs, heap.inuse, heap.bases
      ensures heap.book.live == old(heap.book.live) - {ptr} && (!crashed ==> Valid())
      ensures crashed <==> ptr != 0 && forall a :: a in heap.book.live ==> PageOf(a) != PageOf(ptr)
    {
      hide Ok, Sound, Backed, PageOf, OnlyBlock, Extent, FreeBook;
      ghost var h, b := heap.View(), heap.book;
      H.OkIs(h, b);
      if ptr != 0 { PagePositive(h, b, ptr); }
      var freed := heap.Kfree(ptr);
      crashed := freed != 0;
      if !crashed { LessBelow(b, heap.book, firstpaddr); }
    }

    ghost predicate NoMap()
      reads this, heap, heap.refs, heap.inuse, heap.bases
      requires heap.Shape() && firstpaddr <= lastpaddr
    {
      var sz := WORD_SIZE * ((lastpaddr - firstpaddr) / PAGE_SIZE);
      if sz < H.LARGEST_SUBPAGE_SIZE then OutOfMemory(sz) else firstpaddr + PAGE_SIZE * H.PagesFor(sz) > lastpaddr
    }

    /** The array of n entry addresses */
    method MakeMap(n: nat) returns (r: nat)
      requires Valid() && n == (lastpaddr - firstpaddr) / PAGE_SIZE
      modifies this, heap, heap.refs, heap.inuse, heap.bases
      ensures Valid() && firstpaddr >= old(firstpaddr)
      ensures r == 0 <==> old(NoMap())
      ensures r == 0 ==> heap.book == old(heap.book)
      ensures r != 0 ==> r !in old(heap.book.live) && heap.book.live == old(heap.book.live)[r := WORD_SIZE * n]
    {
      hide Ok, Sound, Backed, H.PagesFor, H.Exhausted;
      MapSmall(n, firstpaddr, lastpaddr);
      if WORD_SIZE * n >= H.LARGEST_SUBPAGE_SIZE {
        r := BigKmalloc(WORD_SIZE * n);
      } else {
        r := SmallKmalloc(WORD_SIZE * n);
      }
    }

    /** The loop that allocates n entries */
    method MakeEntries(n: nat) returns (ok: bool)
      requires Valid()
      modifies this, heap, heap.refs, heap.inuse, heap.bases
      ensures Valid() && firstpaddr >= old(firstpaddr)
      ensures !ok ==> OutOfMemory(ENTRY_SIZE)
      ensures ok ==> |heap.book.live| == |old(heap.book.live)| + n
      ensures forall a :: a in old(heap.book.live) ==> a in heap.book.live
    {
      hide Ok, Sound, Backed, H.Exhausted;
      var i := 0;
      while i < n
        invariant 0 <= i <= n && Valid() && firstpaddr >= old(firstpaddr)
        invariant |heap.book.live| == |old(heap.book.live)| + i
        invariant forall a :: a in old(heap.book.live) ==> a in heap.book.live
      {
        var entry := SmallKmalloc(ENTRY_SIZE);
        if entry == 0 { return false; }
        i := i + 1;
      }
      ok := true;
    }

    /** coremap_bootstrap: the map and its entries are kmalloced before it is set up, and what has been stolen by
        then is fixed. null stands for its panics, which mean that memory is used up. Whatever the heap had been asked
        for, the two allocators are then in order. */
    method CoremapBootstrap(contents: seq<byte>) returns (mem: Memory?)
      requires Valid() && |contents| == PAGE_SIZE * ((lastpaddr - firstpaddr) / PAGE_SIZE)
      modifies this, heap, heap.refs, heap.inuse, heap.bases
      ensures old(NoMap()) ==> mem == null
      ensures mem == null ==> Valid() && (old(NoMap()) || OutOfMemory(ENTRY_SIZE))
      ensures mem != null ==>
                mem.Valid() && mem.heap == heap && mem.frames.firstaddr == old(firstpaddr) && mem.frames.blocks == map[]
      ensures mem != null ==>
                mem.frames.cm.Length == (lastpaddr - old(firstpaddr)) / PAGE_SIZE && mem.frames.ram == contents &&
                |heap.book.live| == |old(heap.book.live)| + 1 + mem.frames.cm.Length
      ensures mem != null ==>
                forall k :: 0 <= k < mem.frames.cm.Length ==>
                  mem.frames.cm[k] == if old(firstpaddr) + PAGE_SIZE * k < firstpaddr then C.TAIL else C.FREE
      ensures forall a :: a in old(heap.book.live) ==> a in heap.book.live
    {
      hide Ok, Sound, Backed, C.Decomposed, H.PagesFor, H.Exhausted, OutOfMemory, NoMap;
      var lo := firstpaddr;
      var n := (lastpaddr - lo) / PAGE_SIZE;
      var cm := MakeMap(n);
      if cm == 0 { return null; }
      var ok := MakeEntries(n);
      if !ok { return null; }
      var frames := new C.Coremap(lo, lastpaddr, firstpaddr, contents);
      FixedPast(lo, lastpaddr, firstpaddr, frames.fixed, n);
      Raised(heap.book, firstpaddr, Frames(lo, frames.fixed, map[]));
      mem := new Memory(heap, frames);
    }
  }

  lemma PagesFit(sz: nat)
    requires sz < U32
    ensures PAGE_SIZE * H.PagesFor(sz) < U32 && (sz > U32 - PAGE_SIZE ==> H.PagesFor(sz) == 0)
    ensures H.LARGEST_SUBPAGE_SIZE <= sz <= U32 - PAGE_SIZE ==> H.PagesFor(sz) > 0
  {
  }

  lemma MapSmall(n: nat, lo: nat, hi: nat)
    requires lo <= hi <= MAXRAM && n == (hi - lo) / PAGE_SIZE
    ensures WORD_SIZE * n < 0x10_0000 && lo + PAGE_SIZE * H.PagesFor(WORD_SIZE * n) < U32
  {
  }

  lemma FixedPast(lo: nat, hi: nat, free: nat, fixed: nat, n: nat)
    requires lo <= free <= hi && lo % PAGE_SIZE == 0 && free % PAGE_SIZE == 0 && n == (hi - lo) / PAGE_SIZE &&
             fixed <= n
    requires fixed < n ==> free <= lo + PAGE_SIZE * fixed
    ensures KSEG0 + free <= AddrOf(lo, fixed)
  {
    if fixed == n { Rounded(lo, hi, free, n); }
  }

  lemma Rounded(lo: nat, hi: nat, free: nat, n: nat)
    requires lo <= free <= hi && lo % PAGE_SIZE == 0 && free % PAGE_SIZE == 0 && n == (hi - lo) / PAGE_SIZE
    ensures free <= lo + PAGE_SIZE * n
  {
    var p, q := lo / PAGE_SIZE, free / PAGE_SIZE;
    assert lo == PAGE_SIZE * p && free == PAGE_SIZE * q;
    assert hi - lo < PAGE_SIZE * (n + 1);
  }

  lemma PagePositive(h: Heap, b: Book, a: nat)
    requires Sound(h, b) && a in b.live
    ensures PageOf(a) > 0
  {
    hide Sound, PageOf;
    LivePage(h, b, a);
    if b.own[PageOf(a)].Sub? { LiveSub(h, b, a); } else { LiveBig(h, b, a); }
  }
}
