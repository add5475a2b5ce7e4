/** The kernel heap on the page allocator: kmalloc and kfree (kern/lib/kheap.c) with alloc_kpages and free_kpages
    (kern/vm/vm_tlb.c), which take frames from the coremap (kern/vm/coremap.c) and address them in KSEG0. Pages the heap
    was given before the coremap was set up lie below the first frame it manages or in its fixed frames. */
module KernelHeap {
  import opened Words
  import opened KheapState
  import opened KheapSteps
  import opened KheapPages
  import H = Kheap
  import C = Coremap

  const KSEG0: nat := 0x8000_0000

  /** What the coremap manages: its first address, how many frames are fixed, and the blocks it has handed out. */
  datatype Frames = Frames(first: nat, fixed: nat, blocks: map<nat, nat>)

  /** PADDR_TO_KVADDR of frame k */
  function AddrOf(first: nat, k: nat): nat { KSEG0 + first + PAGE_SIZE * k }

  /** The frame an address lies in */
  function FrameOf(first: nat, a: nat): nat
    requires a >= KSEG0 + first
  {
    (a - KSEG0 - first) / PAGE_SIZE
  }

  /** The n pages from p on are a block of the coremap. */
  predicate HeadOf(m: Frames, p: nat, n: nat) {
    && p >= KSEG0 + m.first && p == AddrOf(m.first, FrameOf(m.first, p))
    && FrameOf(m.first, p) in m.blocks && m.blocks[FrameOf(m.first, p)] == n
  }

  /** The n pages from p on were stolen before the coremap was set up: they end below its first free frame. */
  predicate Stolen(m: Frames, p: nat, n: nat) {
    KSEG0 <= p && p + PAGE_SIZE * n <= AddrOf(m.first, m.fixed)
  }

  predicate Based(m: Frames, p: nat, n: nat) { HeadOf(m, p, n) || Stolen(m, p, n) }

  /** Every page of small blocks, and every whole-page allocation, is stolen or a block of the coremap of its own. */
  ghost predicate Backed(b: Book, m: Frames) {
    && (forall p :: p in b.own && b.own[p].Sub? ==> Based(m, p, 1))
    && (forall c :: c in b.big ==> Based(m, c, b.big[c]))
  }

  lemma FrameAddr(first: nat, k: nat)
    ensures FrameOf(first, AddrOf(first, k)) == k
  {
  }

  lemma AddrFrame(first: nat, p: nat)
    requires first % PAGE_SIZE == 0 && p % PAGE_SIZE == 0 && p >= KSEG0 + first
    ensures p == AddrOf(first, FrameOf(first, p))
  {
  }

  /** A page inside a run is one of its frames. */
  lemma InRun(first: nat, p: nat, k: nat, n: nat)
    requires first % PAGE_SIZE == 0 && PageIn(p, AddrOf(first, k), n)
    ensures p >= KSEG0 + first && p == AddrOf(first, FrameOf(first, p)) && k <= FrameOf(first, p) < k + n
  {
  }

  /** A page lies in frame g of the coremap's block at h. */
  predicate InBlock(m: Frames, p: nat, h: nat) {
    && p >= KSEG0 + m.first && p == AddrOf(m.first, FrameOf(m.first, p))
    && h in m.blocks && h <= FrameOf(m.first, p) < h + m.blocks[h]
  }

  /** Pages of the heap are stolen or lie in blocks of the coremap. */
  lemma HeapFrame(h: Heap, b: Book, m: Frames, p: nat) returns (g: nat)
    requires Sound(h, b) && Backed(b, m) && m.first % PAGE_SIZE == 0 && p in b.own
    ensures Stolen(m, p, 1) || InBlock(m, p, g)
  {
    hide Listed, PagesOk, SubsOk, BigsOk, LivesOk, AddrOf, FrameOf, PageIn, HeadOf, Stolen, InBlock;
    if b.own[p].Sub? {
      g := RunFrame(m, p, p, 1);
    } else {
      var c := b.own[p].base;
      assert OwnedOk(h, b, p, b.own[p]);
      g := RunFrame(m, p, c, b.big[c]);
    }
  }

  lemma RunFrame(m: Frames, p: nat, c: nat, n: nat) returns (g: nat)
    requires Based(m, c, n) && (PageIn(p, c, n) || (p == c && n == 1)) && m.first % PAGE_SIZE == 0
    ensures Stolen(m, p, 1) || InBlock(m, p, g)
  {
    g := 0;
    if HeadOf(m, c, n) {
      g := FrameOf(m.first, c);
      if PageIn(p, c, n) { InRun(m.first, p, g, n); }
    } else {
      StolenPart(m, c, n, p);
    }
  }

  lemma StolenPart(m: Frames, c: nat, n: nat, p: nat)
    requires Stolen(m, c, n) && m.first % PAGE_SIZE == 0 && (PageIn(p, c, n) || (p == c && n == 1))
    ensures Stolen(m, p, 1)
  {
    if PageIn(p, c, n) {
      var e := AddrOf(m.first, m.fixed);
      assert e % PAGE_SIZE == 0 && p < e;
      assert p == PAGE_SIZE * (p / PAGE_SIZE) && e == PAGE_SIZE * (e / PAGE_SIZE);
    }
  }

  lemma RunApart(blocks: map<nat, nat>, k: nat, n: nat, g: nat)
    requires k !in blocks && C.AllApart(blocks[k := n]) && g in blocks
    ensures C.Apart(g, blocks[g], k, n)
  {
    assert C.Apart(g, blocks[k := n][g], k, blocks[k := n][k]);
  }

  /** Every live block of the heap lies inside one block of the coremap, or below its first free frame: in memory that
      nobody else is given. */
  lemma LiveBacked(h: Heap, b: Book, m: Frames, a: nat)
    requires Sound(h, b) && Backed(b, m) && a in b.live
    ensures a + Extent(h, b, a) <= AddrOf(m.first, m.fixed) ||
            exists g :: g in m.blocks && AddrOf(m.first, g) <= a &&
              a + Extent(h, b, a) <= AddrOf(m.first, g) + PAGE_SIZE * m.blocks[g]
  {
    hide Sound, Backed, AddrOf, FrameOf, PageOf, Size;
    FreedHead(h, b, m, a);
    if a in b.big {
      BigIsNotSub(h, b, a);
      PageOfBig(h, b, a);
      if HeadOf(m, a, b.big[a]) { assert AddrOf(m.first, FrameOf(m.first, a)) <= a; }
    } else {
      LivePart(h, b, a);
      if HeadOf(m, PageOf(a), 1) { assert AddrOf(m.first, FrameOf(m.first, PageOf(a))) <= a; }
    }
  }

  lemma PageOfBig(h: Heap, b: Book, c: nat)
    requires Sound(h, b) && c in b.big
    ensures PageOf(c) == c
  {
    hide Listed, PagesOk, SubsOk, OwnersOk, LivesOk;
    assert BigOk(b, c);
  }

  /** Frames just taken from the coremap belong to no page of the heap. */
  lemma FreshRun(h: Heap, b: Book, m: Frames, k: nat, n: nat, p: nat)
    requires Sound(h, b) && Backed(b, m) && m.first % PAGE_SIZE == 0
    requires m.fixed <= k && k !in m.blocks && C.AllApart(m.blocks[k := n]) && PageIn(p, AddrOf(m.first, k), n)
    ensures p !in b.own
  {
    hide Sound, Backed, FrameOf, PageIn;
    InRun(m.first, p, k, n);
    if p in b.own {
      var g := HeapFrame(h, b, m, p);
      if g in m.blocks { RunApart(m.blocks, k, n, g); }
    }
  }

  // ---- what each step does to the pages

  lemma BasedKept(m: Frames, k: nat, n: nat, p: nat, j: nat)
    requires Based(m, p, j) && k !in m.blocks
    ensures Based(m.(blocks := m.blocks[k := n]), p, j)
  {
    hide AddrOf, FrameOf;
  }

  lemma BasedNew(m: Frames, k: nat, n: nat)
    ensures Based(m.(blocks := m.blocks[k := n]), AddrOf(m.first, k), n)
  {
    FrameAddr(m.first, k);
    hide FrameOf;
  }

  /** More blocks in the coremap take nothing from the heap. */
  lemma MoreBlocks(b: Book, m: Frames, k: nat, n: nat)
    requires Backed(b, m) && k !in m.blocks
    ensures Backed(b, m.(blocks := m.blocks[k := n]))
  {
    hide Based;
    var m' := m.(blocks := m.blocks[k := n]);
    forall p | p in b.own && b.own[p].Sub? ensures Based(m', p, 1) { BasedKept(m, k, n, p, 1); }
    forall c | c in b.big ensures Based(m', c, b.big[c]) { BasedKept(m, k, n, c, b.big[c]); }
  }

  lemma SubBacked(b: Book, b': Book, m: Frames, k: nat, page: nat)
    requires Backed(b, m) && k !in m.blocks && page == AddrOf(m.first, k)
    requires page in b'.own && b'.own == b.own[page := b'.own[page]] && b'.big == b.big
    ensures Backed(b', m.(blocks := m.blocks[k := 1]))
  {
    hide Based, AddrOf;
    MoreBlocks(b, m, k, 1);
    BasedNew(m, k, 1);
  }

  lemma BigBacked(b: Book, m: Frames, k: nat, n: nat, sz: nat)
    requires Backed(b, m) && k !in m.blocks
    ensures Backed(BigBook(b, AddrOf(m.first, k), n, sz), m.(blocks := m.blocks[k := n]))
  {
    hide Based, AddrOf, PageIn;
    MoreBlocks(b, m, k, n);
    BasedNew(m, k, n);
  }

  lemma BasedLost(m: Frames, q: nat, p: nat, n: nat)
    requires Based(m, p, n) && q != p && q >= KSEG0 + m.first && q == AddrOf(m.first, FrameOf(m.first, q))
    ensures Based(m.(blocks := m.blocks - {FrameOf(m.first, q)}), p, n)
  {
    hide AddrOf, FrameOf;
  }

  /** One page of the heap goes, and its block of the coremap, if it has one, with it. */
  lemma LessBacked(b: Book, b': Book, m: Frames, q: nat)
    requires Backed(b, m) && q >= KSEG0 + m.first && q == AddrOf(m.first, FrameOf(m.first, q))
    requires forall p :: p in b'.own && b'.own[p].Sub? ==> p in b.own && b.own[p] == b'.own[p] && p != q
    requires forall c :: c in b'.big ==> c in b.big && b.big[c] == b'.big[c] && c != q
    ensures Backed(b', m.(blocks := m.blocks - {FrameOf(m.first, q)}))
  {
    hide Based, AddrOf, FrameOf;
    var m' := m.(blocks := m.blocks - {FrameOf(m.first, q)});
    forall p | p in b'.own && b'.own[p].Sub? ensures Based(m', p, 1) { BasedLost(m, q, p, 1); }
    forall c | c in b'.big ensures Based(m', c, b'.big[c]) { BasedLost(m, q, c, b.big[c]); }
  }

  /** What kfree hands back is a page of small blocks or a whole allocation. */
  lemma FreedHead(h: Heap, b: Book, m: Frames, ptr: nat)
    requires Sound(h, b) && Backed(b, m) && ptr in b.live
    ensures ptr !in b.big ==> PageOf(ptr) in b.own && b.own[PageOf(ptr)].Sub? && Based(m, PageOf(ptr), 1)
    ensures ptr in b.big ==> Based(m, ptr, b.big[ptr]) && b.big[ptr] > 0
  {
    hide Listed, PagesOk, SubsOk, Based, PageOf, PageIn;
    assert OwnedOk(h, b, PageOf(ptr), b.own[PageOf(ptr)]);
    if ptr in b.big { assert BigOk(b, ptr); }
  }

  lemma BigIsNotSub(h: Heap, b: Book, c: nat)
    requires Sound(h, b) && c in b.big
    ensures c in b.own && b.own[c] == Big(c) && c % PAGE_SIZE == 0
  {
    hide Listed, PagesOk, SubsOk, OwnersOk, LivesOk;
    assert BigOk(b, c);
    assert PageIn(c, c, b.big[c]);
  }

  lemma SubFreed(h: Heap, b: Book, b': Book, m: Frames, ptr: nat)
    requires Sound(h, b) && Backed(b, m) && m.first % PAGE_SIZE == 0 && ptr in b.live && ptr !in b.big
    requires b'.big == b.big && b'.own == b.own - {PageOf(ptr)}
    ensures Based(m, PageOf(ptr), 1)
    ensures PageOf(ptr) >= KSEG0 + m.first ==> Backed(b', m.(blocks := m.blocks - {FrameOf(m.first, PageOf(ptr))}))
  {
    hide Sound, Based, PageOf, AddrOf, FrameOf, Backed;
    FreedHead(h, b, m, ptr);
    forall c | c in b.big ensures c != PageOf(ptr) { BigIsNotSub(h, b, c); }
    if PageOf(ptr) >= KSEG0 + m.first {
      AddrFrame(m.first, PageOf(ptr));
      LessBacked(b, b', m, PageOf(ptr));
    }
  }

  lemma BigFreed(h: Heap, b: Book, m: Frames, ptr: nat)
    requires Sound(h, b) && Backed(b, m) && m.first % PAGE_SIZE == 0 && ptr in b.live && ptr in b.big
    ensures Based(m, ptr, b.big[ptr]) && b.big[ptr] > 0
    ensures ptr >= KSEG0 + m.first ==> Backed(FreeBook(b, ptr), m.(blocks := m.blocks - {FrameOf(m.first, ptr)}))
  {
    hide Sound, Based, AddrOf, FrameOf, Backed, PageIn;
    FreedHead(h, b, m, ptr);
    BigIsNotSub(h, b, ptr);
    if ptr >= KSEG0 + m.first {
      AddrFrame(m.first, ptr);
      LessBacked(b, FreeBook(b, ptr), m, ptr);
    }
  }

  lemma AddressOf(first: nat, a: nat, k: nat)
    requires a >= first && (a - first) % PAGE_SIZE == 0 && k == (a - first) / PAGE_SIZE
    ensures KSEG0 + a == AddrOf(first, k) && FrameOf(first, KSEG0 + a) == k
  {
    FrameAddr(first, k);
  }

  /** What the coremap hands out is what the heap expects of alloc_kpages. */
  lemma RunGiven(h: Heap, b: Book, m: Frames, len: nat, k: nat, n: nat)
    requires Sound(h, b) && Backed(b, m) && m.first % PAGE_SIZE == 0 && m.fixed <= k
    requires k !in m.blocks && C.AllApart(m.blocks[k := n]) && k + n <= len && m.first + PAGE_SIZE * len <= 0x2000_0000
    ensures H.Given(b, AddrOf(m.first, k), n)
  {
    hide Sound, Backed, PageIn;
    forall p: nat | PageIn(p, AddrOf(m.first, k), n) ensures p !in b.own { FreshRun(h, b, m, k, n, p); }
  }

  /** A page of small blocks has something live on it between calls. */
  lemma KeptPage(h: Heap, b: Book, p: nat)
    requires Ok(h, b) && p in b.own && b.own[p].Sub?
    ensures !forall a :: a in b.live ==> PageOf(a) != p
  {
    hide Listed, PagesOk, SubsOk, BigsOk, LivesOk, PageOf, BlkOf, PerPage;
    var i := b.own[p].i;
    assert OwnedOk(h, b, p, b.own[p]);
    H.FullIs(h, b, i);
  }

  lemma NoneOn(h: Heap, b: Book, p: nat)
    requires Sound(h, b) && p !in b.own
    ensures forall a :: a in b.live ==> PageOf(a) != p
  {
    hide Sound, PageOf;
    forall a | a in b.live ensures PageOf(a) != p { LivePage(h, b, a); }
  }

  lemma BigLive(h: Heap, b: Book, c: nat)
    requires Sound(h, b) && c in b.big
    ensures c in b.live
  {
    hide Listed, PagesOk, SubsOk, OwnersOk, LivesOk;
    assert BigOk(b, c);
  }

  /** The blocks determine the map. */
  lemma SameMap(cm: seq<C.Entry>, cm': seq<C.Entry>, fixed: nat, blocks: map<nat, nat>)
    requires |cm| == |cm'| && C.Decomposed(cm, fixed, blocks) && C.Decomposed(cm', fixed, blocks)
    ensures cm == cm'
  {
    forall i | 0 <= i < |cm| ensures cm[i] == cm'[i] { SameEntry(cm, cm', fixed, blocks, i); }
  }

  lemma SameEntry(cm: seq<C.Entry>, cm': seq<C.Entry>, fixed: nat, blocks: map<nat, nat>, i: nat)
    requires |cm| == |cm'| && C.Decomposed(cm, fixed, blocks) && C.Decomposed(cm', fixed, blocks) && i < |cm|
    ensures cm[i] == cm'[i]
  {
    hide C.AllApart, C.Block;
    if h :| h in blocks && C.Covers(h, blocks[h], i) {
      BlockEntry(cm, h, blocks[h], i);
      BlockEntry(cm', h, blocks[h], i);
    }
  }

  lemma BlockEntry(cm: seq<C.Entry>, h: nat, n: nat, i: nat)
    requires C.Block(cm, h, n) && C.Covers(h, n, i)
    ensures i < |cm| && cm[i] == if i == h then C.Entry(true, n) else C.TAIL
  {
  }

  /** What a grant of sz bytes at r does: r is new, and lies on a page the heap had or on frames just taken for it. */
  ghost predicate Granted(b: Book, blocks: map<nat, nat>, b': Book, blocks': map<nat, nat>, first: nat, r: nat,
                          sz: nat) {
    && r !in b.live && b'.live == b.live[r := sz]
    && if blocks' == blocks then b'.own == b.own && b'.big == b.big
       else PageOf(r) >= KSEG0 + first && PageOf(r) !in b.own && FrameOf(first, PageOf(r)) !in blocks &&
            blocks' - {FrameOf(first, PageOf(r))} == blocks
  }

  lemma OldGranted(b: Book, blocks: map<nat, nat>, b': Book, first: nat, r: nat, sz: nat)
    requires r !in b.live && b'.live == b.live[r := sz] && b'.own == b.own && b'.big == b.big
    ensures Granted(b, blocks, b', blocks, first, r, sz)
  {
  }

  lemma NewGranted(b: Book, blocks: map<nat, nat>, b': Book, first: nat, n: nat, r: nat, sz: nat)
    requires r !in b.live && b'.live == b.live[r := sz] && PageOf(r) >= KSEG0 + first && PageOf(r) !in b.own
    requires FrameOf(first, PageOf(r)) !in blocks
    ensures Granted(b, blocks, b', blocks[FrameOf(first, PageOf(r)) := n], first, r, sz)
  {
    hide FrameOf, PageOf;
  }

  lemma BigGranted(h: Heap, b: Book, first: nat, blocks: map<nat, nat>, k: nat, n: nat, sz: nat)
    requires Sound(h, b) && first % PAGE_SIZE == 0 && k !in blocks && n > 0 && H.Given(b, AddrOf(first, k), n)
    requires AddrOf(first, k) !in b.live
    ensures Granted(b, blocks, BigBook(b, AddrOf(first, k), n, sz), blocks[k := n], first, AddrOf(first, k), sz)
  {
    hide Sound, PageIn;
    var page := AddrOf(first, k);
    FrameAddr(first, k);
    assert PageOf(page) == page;
    assert page !in b.own by { HeadIn(page, n); }
    hide AddrOf, FrameOf, PageOf, H.Given;
    NewGranted(b, blocks, BigBook(b, page, n, sz), first, n, page, sz);
  }

  lemma HeadIn(page: nat, n: nat)
    requires page % PAGE_SIZE == 0 && n > 0
    ensures PageIn(page, page, n)
  {
  }

  lemma GivenNone(b: Book, n: nat)
    ensures H.Given(b, 0, n)
  {
  }

  lemma PagesNeeded(sz: nat)
    requires H.LARGEST_SUBPAGE_SIZE <= sz < U32
    ensures H.PagesFor(sz) < U32 && (H.PagesFor(sz) > 0 <==> sz <= U32 - PAGE_SIZE)
  {
  }

  lemma ExhaustedBy(h: Heap, sz: nat, page: nat)
    requires |h.inuse| == INUSE_WORDS
    ensures H.Exhausted(h, sz, 0) <==> H.NoBlock(h, sz)
    ensures page != 0 ==>
              (H.Exhausted(h, sz, page) <==> H.NoBlock(h, sz) && forall k :: 0 <= k < NPAGEREFS ==> InUse(h.inuse, k))
  {
    hide H.NoBlock, InUse;
  }

  lemma WordsSmall(h: Heap, b: Book)
    requires Sound(h, b)
    ensures |h.inuse| == INUSE_WORDS && forall k :: 0 <= k < INUSE_WORDS ==> h.inuse[k] < Two(32)
  {
    hide Listed, Owned, PagesOk;
  }

  lemma KeptBacked(b: Book, b': Book, m: Frames)
    requires Backed(b, m) && b'.own == b.own && b'.big == b.big
    ensures Backed(b', m)
  {
  }

  lemma BlocksApart(cm: seq<C.Entry>, fixed: nat, blocks: map<nat, nat>)
    requires C.Decomposed(cm, fixed, blocks)
    ensures C.AllApart(blocks) && fixed <= |cm| && forall k :: k in blocks ==> fixed <= k
  {
  }

  /** An entry in use for no frames is none that getppages leaves. */
  lemma MapRuined(cm: seq<C.Entry>, fixed: nat, blocks: map<nat, nat>)
    requires |cm| > 0 && cm[0] == C.Entry(true, 0)
    ensures !C.Decomposed(cm, fixed, blocks)
  {
    hide C.AllApart;
  }

  /** Where a page of the heap is in the map: at the head of a block past the fixed frames, or in a fixed frame. */
  lemma EntryAt(cm: seq<C.Entry>, m: Frames, a: nat, n: nat)
    requires C.Decomposed(cm, m.fixed, m.blocks) && n > 0 && Based(m, a, n) && a >= KSEG0 + m.first
    ensures FrameOf(m.first, a) < |cm|
    ensures if FrameOf(m.first, a) < m.fixed then FrameOf(m.first, a) !in m.blocks && cm[FrameOf(m.first, a)] == C.TAIL
            else FrameOf(m.first, a) in m.blocks && cm[FrameOf(m.first, a)].size > 0
  {
    hide C.AllApart, C.CoveredOk;
    var k := FrameOf(m.first, a);
    if k in m.blocks {
      assert C.Block(cm, k, m.blocks[k]);
    } else {
      StolenFrame(m, a, n);
    }
  }

  lemma StolenFrame(m: Frames, a: nat, n: nat)
    requires Stolen(m, a, n) && n > 0 && a >= KSEG0 + m.first
    ensures FrameOf(m.first, a) < m.fixed
  {
  }

  /** Addresses of the heap's pages are in KSEG0. */
  lemma InKseg(m: Frames, a: nat, n: nat, len: nat, cm: seq<C.Entry>)
    requires Based(m, a, n) && n > 0 && C.Decomposed(cm, m.fixed, m.blocks) && |cm| == len &&
             m.first + PAGE_SIZE * len <= 0x2000_0000
    ensures KSEG0 <= a < U32
  {
    hide C.AllApart, C.CoveredOk;
    if HeadOf(m, a, n) { assert C.Block(cm, FrameOf(m.first, a), n); }
  }

  /** Freeing a block just granted gives back exactly the frames taken for it. */
  lemma GrantedBack(h: Heap, b: Book, blocks: map<nat, nat>, h': Heap, b': Book, blocks': map<nat, nat>, first: nat,
                    r: nat, sz: nat, m: Frames)
    requires Ok(h, b) && Ok(h', b') && Backed(b', m) && Granted(b, blocks, b', blocks', first, r, sz)
    ensures r in b'.live && b'.live - {r} == b.live
    ensures if blocks' == blocks then !forall a :: a in b.live ==> PageOf(a) != PageOf(r)
            else (forall a :: a in b.live ==> PageOf(a) != PageOf(r)) && PageOf(r) >= KSEG0 + first &&
                 blocks' - {FrameOf(first, PageOf(r))} == blocks
  {
    hide Ok, Sound, PageOf, FrameOf, Backed, Based;
    H.OkIs(h, b);
    H.OkIs(h', b');
    if blocks' == blocks {
      if r in b'.big { BigLive(h, b, r); }
      FreedHead(h', b', m, r);
      KeptPage(h, b, PageOf(r));
    } else {
      NoneOn(h, b, PageOf(r));
    }
  }

  // ---- the two allocators together

  class Memory {
    const heap: H.Heap
    const frames: C.Coremap

    ghost predicate Separate() {
      heap.Shape() && {frames as object, frames.cm} !! {heap as object, heap.refs, heap.inuse, heap.bases}
    }

    ghost function View(): Frames
      reads frames
    {
      Frames(frames.firstaddr, frames.fixed, frames.blocks)
    }

    /** The machine has less than half a gigabyte of memory, which KSEG0 maps. */
    ghost predicate Valid()
      reads heap, heap.refs, heap.inuse, heap.bases, frames, frames.cm
    {
      && Separate() && heap.Valid() && frames.Valid() && frames.firstaddr + PAGE_SIZE * frames.cm.Length <= 0x2000_0000
      && Backed(heap.book, View())
    }

    /** A heap in use, on a coremap just set up over the memory it was given */
    constructor (h: H.Heap, cm: C.Coremap)
      requires h.Valid() && cm.Valid() && cm.firstaddr + PAGE_SIZE * cm.cm.Length <= 0x2000_0000
      requires {cm as object, cm.cm} !! {h as object, h.refs, h.inuse, h.bases}
      requires Backed(h.book, Frames(cm.firstaddr, cm.fixed, cm.blocks))
      ensures Valid() && frames == cm && heap == h
    {
      frames := cm;
      heap := h;
    }

    ghost function Frame(a: nat): nat
      requires a >= KSEG0 + frames.firstaddr
    {
      FrameOf(frames.firstaddr, a)
    }

    lemma FrameIndex(a: nat)
      requires KSEG0 <= a < U32 && frames.firstaddr + PAGE_SIZE * frames.cm.Length <= 0x2000_0000
      ensures a >= KSEG0 + frames.firstaddr ==> frames.Index(a - KSEG0) == Frame(a)
      ensures a < KSEG0 + frames.firstaddr ==> frames.Index(a - KSEG0) >= frames.cm.Length
    {
      var d := a - KSEG0 - frames.firstaddr;
      if d < 0 { assert d % U32 == d + U32; } else { assert d % U32 == d; }
    }

    /** alloc_kpages of at least one page. What it returns is what the heap relies on: pages the heap does not own.
        crashed tells that getppages read past the end of the map. */
    method AllocKpages(npages: nat) returns (page: nat, crashed: bool)
      requires Valid() && 0 < npages < U32
      modifies frames, frames.cm
      ensures frames.Valid() && frames.fixed == old(frames.fixed) && H.Given(heap.book, page, npages)
      ensures page == 0 <==> !C.Fits(old(frames.cm[..]), npages)
      ensures crashed <==> page == 0 && (frames.cm.Length == 0 || !old(frames.cm[frames.cm.Length - 1]).use)
      ensures page == 0 ==> frames.blocks == old(frames.blocks)
      ensures page != 0 ==> page >= KSEG0 + frames.firstaddr && page == AddrOf(frames.firstaddr, Frame(page))
      ensures page != 0 ==>
                Frame(page) !in old(frames.blocks) && frames.blocks == old(frames.blocks)[Frame(page) := npages]
    {
      hide Ok, Sound, Backed, C.Decomposed, C.Claimed, C.FreeRun, H.Given, C.Fits;
      ghost var m := View();
      var pa := frames.Getppages(npages);
      if pa.OffEnd? || pa.a == 0 {
        GivenNone(heap.book, npages);
        return 0, pa.OffEnd?;
      }
      page, crashed := KSEG0 + pa.a, false;
      ghost var k := (pa.a - frames.firstaddr) / PAGE_SIZE;
      AddressOf(frames.firstaddr, pa.a, k);
      BlocksApart(frames.cm[..], frames.fixed, frames.blocks);
      H.OkIs(heap.View(), heap.book);
      assert k in frames.blocks;
      RunGiven(heap.View(), heap.book, m, frames.cm.Length, k, npages);
    }

    /** kmalloc of whole pages */
    method BigKmalloc(sz: nat) returns (r: nat, crashed: bool)
      requires Valid() && H.LARGEST_SUBPAGE_SIZE <= sz <= U32 - PAGE_SIZE
      modifies heap, heap.refs, heap.inuse, heap.bases, frames, frames.cm
      ensures Valid() && frames.fixed == old(frames.fixed)
      ensures r == 0 <==> !C.Fits(old(frames.cm[..]), H.PagesFor(sz))
      ensures crashed ==> r == 0
      ensures r == 0 ==> heap.book == old(heap.book) && frames.blocks == old(frames.blocks)
      ensures r != 0 ==> Granted(old(heap.book), old(frames.blocks), heap.book, frames.blocks, frames.firstaddr, r, sz)
    {
      hide Ok, Sound, Backed, H.Given, H.PagesFor, C.Decomposed, C.Fits, AddrOf, FrameOf, BigBook, SameOn, PageOf;
      ghost var b, m := heap.book, View();
      PagesNeeded(sz);
      var page;
      page, crashed := AllocKpages(H.PagesFor(sz));
      ghost var h := heap.View();
      var used;
      r, used := heap.Kmalloc(sz, page);
      if r != 0 {
        BigBacked(b, m, Frame(page), H.PagesFor(sz), sz);
        H.OkIs(h, b);
        BigGranted(h, b, frames.firstaddr, m.blocks, Frame(page), H.PagesFor(sz), sz);
      }
    }

    /** subpage_kmalloc. It asks for a page when it has no free block but a reference to put a new page under; a
        first call, with no page to be had, tells whether there is a free block. */
    method SmallKmalloc(sz: nat) returns (r: nat, crashed: bool)
      requires Valid() && sz < H.LARGEST_SUBPAGE_SIZE
      modifies heap, heap.refs, heap.inuse, heap.bases, frames, frames.cm
      ensures Valid() && frames.fixed == old(frames.fixed)
      ensures r == 0 <==> old(H.Exhausted(heap.View(), sz, if C.Fits(frames.cm[..], 1) then 1 else 0))
      ensures crashed ==> r == 0
      ensures r == 0 ==> heap.book == old(heap.book) && frames.blocks == old(frames.blocks)
      ensures r != 0 ==> Granted(old(heap.book), old(frames.blocks), heap.book, frames.blocks, frames.firstaddr, r, sz)
    {
      hide Ok, Sound, Backed, H.Given, H.Exhausted, H.NoBlock, H.RightSize, C.Decomposed, C.Fits, AddrOf, FrameOf,
           SameOn, PageOf, InUse;
      ghost var h, b, m := heap.View(), heap.book, View();
      H.OkIs(h, b);
      GivenNone(b, 1);
      var used;
      crashed := false;
      r, used := heap.SubpageKmalloc(sz, 0);
      WordsSmall(h, b);
      ExhaustedBy(h, sz, 1);
      if r != 0 {
        KeptBacked(b, heap.book, m);
        OldGranted(b, m.blocks, heap.book, frames.firstaddr, r, sz);
        return;
      }
      var left := heap.RefLeft();
      if !left {
        return;
      }
      var page;
      page, crashed := AllocKpages(1);
      ExhaustedBy(h, sz, page);
      r, used := heap.SubpageKmalloc(sz, page);
      if used {
        H.GivenOne(b, page);
        SubBacked(b, heap.book, m, Frame(page), page);
        NewGranted(b, m.blocks, heap.book, frames.firstaddr, 1, r, sz);
      }
    }

    /** kmalloc. A request within a page of 2^32 wraps to no pages: it is granted the first frame of memory, which it
        does not own, and ruins the map; every other request keeps the invariant. */
    method Kmalloc(sz: nat) returns (r: nat, crashed: bool)
      requires Valid() && sz < U32
      modifies heap, heap.refs, heap.inuse, heap.bases, frames, frames.cm
      ensures Valid() <==> sz <= U32 - PAGE_SIZE || frames.cm.Length == 0
      ensures sz > U32 - PAGE_SIZE ==> heap.book == old(heap.book) && (crashed <==> frames.cm.Length == 0)
      ensures sz > U32 - PAGE_SIZE ==> r == if frames.cm.Length == 0 then 0 else KSEG0 + frames.firstaddr
      ensures crashed ==> r == 0
      ensures sz <= U32 - PAGE_SIZE ==> frames.fixed == old(frames.fixed)
      ensures sz <= U32 - PAGE_SIZE && r == 0 ==> heap.book == old(heap.book) && frames.blocks == old(frames.blocks)
      ensures sz <= U32 - PAGE_SIZE && r != 0 ==>
                Granted(old(heap.book), old(frames.blocks), heap.book, frames.blocks, frames.firstaddr, r, sz)
      ensures H.LARGEST_SUBPAGE_SIZE <= sz <= U32 - PAGE_SIZE ==>
                (r == 0 <==> !C.Fits(old(frames.cm[..]), H.PagesFor(sz)))
      ensures sz < H.LARGEST_SUBPAGE_SIZE ==>
                (r == 0 <==> old(H.Exhausted(heap.View(), sz, if C.Fits(frames.cm[..], 1) then 1 else 0)))
    {
      hide Ok, Sound, Backed, C.Decomposed, C.Fits, H.PagesFor, Granted, H.Exhausted;
      if sz < H.LARGEST_SUBPAGE_SIZE {
        r, crashed := SmallKmalloc(sz);
      } else if sz <= U32 - PAGE_SIZE {
        r, crashed := BigKmalloc(sz);
      } else {
        PagesNeeded(sz);
        var pa := frames.Getppages(H.PagesFor(sz));
        if pa.OffEnd? { return 0, true; }
        r, crashed := KSEG0 + pa.a, false;
        MapRuined(frames.cm[..], frames.fixed, frames.blocks);
      }
    }

    /** kfree. freed is the address passed to free_kpages, or 0. ungetppages runs off the map exactly for memory
        below its first frame, for frame 0, and for frame 1 if that is fixed; another fixed frame stays as it is, and
        the frames of a block go back. */
    method Kfree(ptr: nat) returns (freed: nat, crashed: bool)
      requires Valid() && (ptr == 0 || ptr in heap.book.live)
      modifies heap, heap.refs, heap.inuse, heap.bases, frames, frames.cm
      ensures heap.book.live == old(heap.book.live) - {ptr} && (ptr == 0 ==> freed == 0)
      ensures ptr != 0 ==>
                freed == if forall a :: a in heap.book.live ==> PageOf(a) != PageOf(ptr) then PageOf(ptr) else 0
      ensures crashed <==>
                freed != 0 &&
                (freed < KSEG0 + frames.firstaddr || Frame(freed) == 0 || (Frame(freed) == 1 && old(frames.fixed) > 1))
      ensures !crashed ==> Valid() && frames.fixed == old(frames.fixed)
      ensures !crashed && (freed == 0 || Frame(freed) < frames.fixed) ==> frames.blocks == old(frames.blocks)
      ensures !crashed && freed != 0 && Frame(freed) >= frames.fixed ==>
                Frame(freed) in old(frames.blocks) && frames.blocks == old(frames.blocks) - {Frame(freed)}
    {
      hide Ok, Sound, Backed, C.Decomposed, C.Released, AddrOf, FrameOf, FreeBook, PageOf, OnlyBlock, Extent, Based;
      ghost var h, b, m := heap.View(), heap.book, View();
      H.OkIs(h, b);
      freed := heap.Kfree(ptr);
      if freed == 0 {
        KeptBacked(b, heap.book, m);
        return 0, false;
      }
      ghost var n := if ptr in b.big then b.big[ptr] else 1;
      if ptr in b.big {
        BigFreed(h, b, m, ptr);
        BigIsNotSub(h, b, ptr);
        PageOfBig(h, b, ptr);
      } else {
        SubFreed(h, b, heap.book, m, ptr);
      }
      InKseg(m, freed, n, frames.cm.Length, frames.cm[..]);
      FrameIndex(freed);
      if freed >= KSEG0 + frames.firstaddr { EntryAt(frames.cm[..], m, freed, n); }
      crashed := frames.Ungetppages(freed - KSEG0);
    }

    /** A block allocated and freed again leaves the two allocators as they were; only without fixed frames can the
        free run off the map. */
    method MallocFree(sz: nat) returns (r: nat, crashed: bool)
      requires Valid() && sz <= U32 - PAGE_SIZE
      modifies heap, heap.refs, heap.inuse, heap.bases, frames, frames.cm
      ensures crashed ==> r == 0 || old(frames.fixed) == 0
      ensures !crashed ==> Valid() && heap.book.live == old(heap.book.live)
      ensures !crashed ==> frames.blocks == old(frames.blocks) && frames.cm[..] == old(frames.cm[..])
    {
      hide Ok, Sound, Backed, C.Decomposed, C.Fits, H.PagesFor, H.Exhausted, PageOf, FrameOf, Granted;
      ghost var h, b, blocks, cm := heap.View(), heap.book, frames.blocks, frames.cm[..];
      r, crashed := Kmalloc(sz);
      if r != 0 {
        ghost var h1, b1 := heap.View(), heap.book;
        BlocksApart(frames.cm[..], frames.fixed, frames.blocks);
        GrantedBack(h, b, blocks, h1, b1, frames.blocks, frames.firstaddr, r, sz, View());
        var freed;
        freed, crashed := Kfree(r);
        if crashed { return; }
      }
      SameMap(cm, frames.cm[..], frames.fixed, blocks);
    }
  }
}
