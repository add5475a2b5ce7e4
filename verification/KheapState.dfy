/** The state of the kernel heap (kern/lib/kheap.c) as values, and what every call keeps: page references in two
    kinds of linked list and a bitmap, and free blocks chained through their own first words. */
module KheapState {
  import opened Words
  import opened Bitmap
  import opened Lists

  const PAGE_SIZE: nat := 4096
  const NSIZES: nat := 8
  const NPAGEREFS: nat := 256
  const INUSE_WORDS: nat := 8
  const INVALID_OFFSET: nat := 0xffff
  const NULL: int := -1
  function Size(b: nat): (sz: nat)
    requires b < NSIZES
    ensures 16 <= sz <= 2048 && sz % 16 == 0 && PAGE_SIZE % sz == 0
  {
    if b == 0 then 16 else if b == 1 then 32 else if b == 2 then 64 else if b == 3 then 128
    else if b == 4 then 256 else if b == 5 then 512 else if b == 6 then 1024 else 2048
  }

  function PerPage(b: nat): (n: nat)
    requires b < NSIZES
    ensures n * Size(b) == PAGE_SIZE && n >= 2
  {
    PAGE_SIZE / Size(b)
  }

  /** struct pageref; a pointer to one is its index, NULL is -1 */
  datatype Ref = Ref(nextSame: int, nextAll: int, pab: nat, offset: nat, nfree: nat)

  function PageOf(a: nat): (p: nat)
    ensures p % PAGE_SIZE == 0 && p <= a < p + PAGE_SIZE
  {
    a - a % PAGE_SIZE
  }

  function BlkOf(pab: nat): nat { pab % PAGE_SIZE }

  /** MKPAB */
  function Mkpab(page: nat, blk: nat): (pab: nat)
    requires page % PAGE_SIZE == 0 && blk < PAGE_SIZE
    ensures PageOf(pab) == page && BlkOf(pab) == blk
  {
    page + blk
  }

  /** The allocator's memory; mem holds the words that have been written. */
  datatype Heap = Heap(refs: seq<Ref>, inuse: seq<nat>, bases: seq<int>, allbase: int, mem: map<nat, nat>)

  datatype Owner = Sub(i: nat) | Big(base: nat)

  /** What the memory stands for: the two kinds of page list, each page's free list, the size asked for at each live
      address, the page count of each live whole-page allocation, and who owns each page. */
  datatype Book = Book(all: seq<nat>, same: seq<seq<nat>>, free: seq<seq<nat>>, live: map<nat, nat>, big: map<nat, nat>,
                       own: map<nat, Owner>)

  // ---- lists of page references

  function Link(r: Ref, all: bool): int { if all then r.nextAll else r.nextSame }

  function Head(list: seq<nat>): int { if list == [] then NULL else list[0] }

  /** Following the all (or samesize) links from base visits exactly the list. */
  predicate Linked(refs: seq<Ref>, all: bool, base: int, list: seq<nat>) {
    && base == Head(list)
    && forall k :: 0 <= k < |list| ==> list[k] < |refs| && Link(refs[list[k]], all) == Head(list[k + 1..])
  }

  predicate InUse(inuse: seq<nat>, k: nat)
    requires k < 32 * |inuse|
  {
    Bit(inuse[k / 32], k % 32)
  }

  ghost predicate Shaped(h: Heap, b: Book) {
    && |h.refs| == NPAGEREFS && |h.inuse| == INUSE_WORDS && |h.bases| == NSIZES
    && |b.same| == NSIZES && |b.free| == NPAGEREFS
    && (forall k :: 0 <= k < INUSE_WORDS ==> h.inuse[k] < Two(32))
  }

  /** The all list is the pages in use. */
  ghost predicate AllOk(refs: seq<Ref>, inuse: seq<nat>, base: int, all: seq<nat>)
    requires |refs| == NPAGEREFS && |inuse| == INUSE_WORDS
  {
    && NoDup(all) && Linked(refs, true, base, all)
    && (forall i :: i in all ==> i < NPAGEREFS && BlkOf(refs[i].pab) < NSIZES)
    && (forall i :: 0 <= i < NPAGEREFS ==> (InUse(inuse, i) <==> i in all))
  }

  ghost predicate SameOk(refs: seq<Ref>, bases: seq<int>, same: seq<seq<nat>>)
    requires |bases| == |same| == NSIZES
  {
    forall c :: 0 <= c < NSIZES ==> NoDup(same[c]) && Linked(refs, false, bases[c], same[c])
  }

  ghost predicate BySize(refs: seq<Ref>, all: seq<nat>, same: seq<seq<nat>>)
    requires |refs| == NPAGEREFS && |same| == NSIZES
  {
    forall c :: 0 <= c < NSIZES ==> OfSize(refs, all, c, same[c])
  }

  ghost predicate OfSize(refs: seq<Ref>, all: seq<nat>, c: nat, list: seq<nat>)
    requires |refs| == NPAGEREFS
  {
    forall i :: i in list <==> i in all && i < NPAGEREFS && BlkOf(refs[i].pab) == c
  }

  /** Each page in use is on the all list once and on the list of its block size once, and nothing else is. */
  ghost predicate Listed(h: Heap, b: Book)
    requires Shaped(h, b)
  {
    AllOk(h.refs, h.inuse, h.allbase, b.all) && SameOk(h.refs, h.bases, b.same) && BySize(h.refs, b.all, b.same)
  }

  // ---- pages of blocks

  /** An address where a block of the page begins. */
  predicate Slot(page: nat, sz: nat, a: nat)
    requires sz > 0
  {
    page <= a < page + PAGE_SIZE && (a - page) % sz == 0
  }

  /** The word in block k of a free list: the address of the next block, or NULL */
  function After(list: seq<nat>, k: nat): nat { if k + 1 < |list| then list[k + 1] else 0 }

  /** The free list as the page's words and its reference tell it. */
  predicate Chained(r: Ref, mem: map<nat, nat>, list: seq<nat>) {
    && r.nfree == |list|
    && r.offset == (if list == [] then INVALID_OFFSET else list[0] - PageOf(r.pab))
    && forall k :: 0 <= k < |list| ==> list[k] in mem && mem[list[k]] == After(list, k)
  }

  /** Every block of the page is free, and then on the free list once, or live and large enough. */
  ghost predicate Filled(page: nat, sz: nat, list: seq<nat>, live: map<nat, nat>)
    requires sz > 0
  {
    && NoDup(list)
    && (forall a :: a in list ==> Slot(page, sz, a))
    && (forall a :: Slot(page, sz, a) ==> (a in list <==> a !in live))
    && (forall a :: a in live && PageOf(a) == page ==> Slot(page, sz, a) && live[a] <= sz)
  }

  ghost predicate PageOk(r: Ref, mem: map<nat, nat>, list: seq<nat>, live: map<nat, nat>) {
    && BlkOf(r.pab) < NSIZES && PageOf(r.pab) > 0 && PageOf(r.pab) + PAGE_SIZE <= U32
    && Chained(r, mem, list) && Filled(PageOf(r.pab), Size(BlkOf(r.pab)), list, live)
  }

  predicate PageIn(p: nat, base: nat, n: nat) { p % PAGE_SIZE == 0 && base <= p < base + PAGE_SIZE * n }

  ghost predicate OwnedOk(h: Heap, b: Book, p: nat, o: Owner)
    requires Shaped(h, b)
  {
    match o
    case Sub(i) => i in b.all && i < NPAGEREFS && PageOf(h.refs[i].pab) == p
    case Big(c) => c in b.big && PageIn(p, c, b.big[c])
  }

  ghost predicate BigOk(b: Book, c: nat)
    requires c in b.big
  {
    && c in b.live && c > 0 && c % PAGE_SIZE == 0 && b.live[c] <= PAGE_SIZE * b.big[c] && b.big[c] > 0
    && forall p :: PageIn(p, c, b.big[c]) ==> p in b.own && b.own[p] == Big(c)
  }

  ghost predicate OwnersOk(h: Heap, b: Book)
    requires Shaped(h, b)
  {
    forall p :: p in b.own ==> OwnedOk(h, b, p, b.own[p])
  }

  ghost predicate SubsOk(refs: seq<Ref>, all: seq<nat>, own: map<nat, Owner>) {
    forall i :: i in all && i < |refs| ==> PageOf(refs[i].pab) in own && own[PageOf(refs[i].pab)] == Sub(i)
  }

  ghost predicate BigsOk(b: Book) {
    forall c :: c in b.big ==> BigOk(b, c)
  }

  ghost predicate LivesOk(live: map<nat, nat>, own: map<nat, Owner>) {
    forall a :: a in live ==> PageOf(a) in own && (own[PageOf(a)].Big? ==> own[PageOf(a)].base == a)
  }

  /** Pages have one owner each, and every live block lies in a page of its owner. */
  ghost predicate Owned(h: Heap, b: Book)
    requires Shaped(h, b)
  {
    OwnersOk(h, b) && SubsOk(h.refs, b.all, b.own) && BigsOk(b) && LivesOk(b.live, b.own)
  }

  ghost predicate PagesOk(h: Heap, b: Book)
    requires Shaped(h, b)
  {
    forall i :: i in b.all && i < NPAGEREFS ==> PageOk(h.refs[i], h.mem, b.free[i], b.live)
  }

  /** No page in use is all free. */
  ghost predicate NoneEmpty(h: Heap, b: Book)
    requires Shaped(h, b)
  {
    forall i :: i in b.all && i < NPAGEREFS && BlkOf(h.refs[i].pab) < NSIZES ==>
      h.refs[i].nfree < PerPage(BlkOf(h.refs[i].pab))
  }

  /** What holds between any two steps inside a call */
  ghost predicate Sound(h: Heap, b: Book) {
    Shaped(h, b) && Listed(h, b) && Owned(h, b) && PagesOk(h, b)
  }

  ghost predicate Ok(h: Heap, b: Book) {
    Sound(h, b) && NoneEmpty(h, b)
  }

  // ---- what it means

  /** The extent of the live block at a. */
  ghost function Extent(h: Heap, b: Book, a: nat): nat
    requires Sound(h, b) && a in b.live
  {
    match b.own[PageOf(a)]
    case Sub(i) => Size(BlkOf(h.refs[i].pab))
    case Big(c) => PAGE_SIZE * b.big[c]
  }

  lemma SlotsApart(page: nat, sz: nat, a: nat, c: nat)
    requires sz > 0 && PAGE_SIZE % sz == 0 && Slot(page, sz, a) && Slot(page, sz, c) && a < c
    ensures a + sz <= c && c + sz <= page + PAGE_SIZE
  {
    Multiples(a - page, c - page, sz);
    Multiples(c - page, PAGE_SIZE, sz);
  }

  lemma Scale(m: nat, x: int, y: int)
    requires x <= y
    ensures m * x <= m * y
  {
  }

  lemma Multiples(x: nat, y: nat, m: nat)
    requires m > 0 && x % m == 0 && y % m == 0 && x < y
    ensures x + m <= y
  {
    assert x == m * (x / m) && y == m * (y / m);
    if y / m <= x / m { Scale(m, y / m, x / m); }
    Scale(m, x / m + 1, y / m);
  }

  lemma SlotFits(page: nat, sz: nat, a: nat)
    requires sz > 0 && PAGE_SIZE % sz == 0 && Slot(page, sz, a)
    ensures a + sz <= page + PAGE_SIZE
  {
    Multiples(a - page, PAGE_SIZE, sz);
  }

  lemma LivePage(h: Heap, b: Book, a: nat)
    requires Sound(h, b) && a in b.live
    ensures PageOf(a) in b.own && |h.refs| == NPAGEREFS
  {
    hide Listed, PagesOk, BigOk, OwnedOk;
  }

  /** A live block in a page of blocks is one of them. */
  lemma LiveSub(h: Heap, b: Book, a: nat)
    requires Sound(h, b) && a in b.live && b.own[PageOf(a)].Sub?
    ensures var i := b.own[PageOf(a)].i;
            && i in b.all && i < NPAGEREFS && PageOf(h.refs[i].pab) == PageOf(a) && BlkOf(h.refs[i].pab) < NSIZES
            && Slot(PageOf(a), Size(BlkOf(h.refs[i].pab)), a) && b.live[a] <= Size(BlkOf(h.refs[i].pab))
            && PageOf(a) > 0
  {
    hide Listed, Chained, NoDup, BigOk;
    var i := b.own[PageOf(a)].i;
    assert OwnedOk(h, b, PageOf(a), b.own[PageOf(a)]);
    assert PageOk(h.refs[i], h.mem, b.free[i], b.live);
  }

  lemma LiveBig(h: Heap, b: Book, a: nat)
    requires Sound(h, b) && a in b.live && b.own[PageOf(a)].Big?
    ensures b.own[PageOf(a)].base == a && a in b.big && BigOk(b, a)
  {
    hide Listed, PagesOk, BigOk;
    assert OwnedOk(h, b, PageOf(a), b.own[PageOf(a)]);
  }

  lemma LivePart(h: Heap, b: Book, a: nat)
    requires Sound(h, b) && a in b.live
    ensures b.live[a] <= Extent(h, b, a) && Extent(h, b, a) >= 16 && a % 16 == 0 && a > 0
    ensures a + Extent(h, b, a) <= PageOf(a) + PAGE_SIZE || b.own[PageOf(a)].Big?
  {
    hide Sound, Size, PageOf;
    LivePage(h, b, a);
    if b.own[PageOf(a)].Sub? {
      LiveSub(h, b, a);
      var sz := Size(BlkOf(h.refs[b.own[PageOf(a)].i].pab));
      Sixteen(PageOf(a), sz, a);
      SlotFits(PageOf(a), sz, a);
    } else {
      LiveBig(h, b, a);
    }
  }

  lemma Sixteen(p: nat, sz: nat, a: nat)
    requires sz > 0 && sz % 16 == 0 && p % 16 == 0 && Slot(p, sz, a)
    ensures a % 16 == 0
  {
    assert a - p == sz * ((a - p) / sz);
    assert sz == 16 * (sz / 16);
    var q := (sz / 16) * ((a - p) / sz);
    assert a - p == 16 * q;
  }

  /** Live blocks are disjoint, 16-aligned and at least as large as was asked for. */
  lemma LiveDisjoint(h: Heap, b: Book, a: nat, c: nat)
    requires Sound(h, b) && a in b.live && c in b.live && a < c
    ensures a + Extent(h, b, a) <= c
    ensures b.live[a] <= Extent(h, b, a) && a % 16 == 0 && a > 0
  {
    LivePage(h, b, a);
    LivePart(h, b, a);
    hide Sound, Size, PageOf, Extent, BigOk;
    if b.own[PageOf(a)].Big? { BigApart(h, b, a, c); } else { SubApart(h, b, a, c); }
  }

  lemma SubApart(h: Heap, b: Book, a: nat, c: nat)
    requires Sound(h, b) && a in b.live && c in b.live && a < c && b.own[PageOf(a)].Sub?
    ensures a + Extent(h, b, a) <= c
  {
    hide Sound, Size, PageOf, Slot, BlkOf;
    LivePart(h, b, a);
    if PageOf(a) == PageOf(c) {
      LiveSub(h, b, a);
      LiveSub(h, b, c);
      SlotsApart(PageOf(a), Extent(h, b, a), a, c);
    } else {
      PagesApart(a, c);
    }
  }

  lemma PagesApart(a: nat, c: nat)
    requires a < c && PageOf(a) != PageOf(c)
    ensures PageOf(a) + PAGE_SIZE <= c
  {
    var p, q := PageOf(a), PageOf(c);
    hide PageOf;
    assert p == PAGE_SIZE * (p / PAGE_SIZE) && q == PAGE_SIZE * (q / PAGE_SIZE);
  }

  lemma BigApart(h: Heap, b: Book, a: nat, c: nat)
    requires Sound(h, b) && a in b.live && c in b.live && a < c && b.own[PageOf(a)].Big?
    ensures a + Extent(h, b, a) <= c
  {
    hide Sound, PageOf, BigOk;
    LiveBig(h, b, a);
    if c < a + Extent(h, b, a) { InBig(h, b, a, c); }
  }

  /** Nothing live begins inside a whole-page allocation. */
  lemma InBig(h: Heap, b: Book, a: nat, c: nat)
    requires Sound(h, b) && a in b.live && c in b.live && b.own[PageOf(a)].Big?
    requires a in b.big && a <= c < a + PAGE_SIZE * b.big[a]
    ensures a == c
  {
    hide Sound;
    LiveBig(h, b, a);
    assert PageIn(PageOf(c), a, b.big[a]);
    LiveBig(h, b, c);
  }

  // ---- a step on one page

  lemma PageAgain(p: nat, a: nat)
    requires p % PAGE_SIZE == 0 && p <= a < p + PAGE_SIZE
    ensures PageOf(a) == p
  {
  }

  predicate SameOn<T(==)>(m: map<nat, T>, m': map<nat, T>, a: nat) {
    (a in m <==> a in m') && (a in m && a in m' ==> m[a] == m'[a])
  }

  /** What happens on other pages does not matter to a page. */
  lemma PageFrame(r: Ref, mem: map<nat, nat>, mem': map<nat, nat>, list: seq<nat>, live: map<nat, nat>, live': map<nat,
                  nat>)
    requires PageOk(r, mem, list, live)
    requires forall a :: PageOf(a) == PageOf(r.pab) ==> SameOn(mem, mem', a) && SameOn(live, live', a)
    ensures PageOk(r, mem', list, live')
  {
    var p, sz := PageOf(r.pab), Size(BlkOf(r.pab));
    hide NoDup, PageOf;
    forall a | Slot(p, sz, a) ensures SameOn(mem, mem', a) && SameOn(live, live', a) { PageAgain(p, a); }
    forall k | 0 <= k < |list| ensures list[k] in mem' && mem'[list[k]] == mem[list[k]] {
      assert Slot(p, sz, list[k]);
      assert SameOn(mem, mem', list[k]);
    }
    assert Chained(r, mem', list);
    assert Filled(p, sz, list, live');
  }

  /** The lists and the bitmap do not look at the free lists. */
  ghost predicate SameLinks(refs: seq<Ref>, refs': seq<Ref>) {
    && |refs'| == |refs|
    && forall i :: 0 <= i < |refs| ==>
         refs'[i].nextAll == refs[i].nextAll && refs'[i].nextSame == refs[i].nextSame && refs'[i].pab == refs[i].pab
  }

  lemma ListedFrame(h: Heap, h': Heap, b: Book, b': Book)
    requires Shaped(h, b) && Shaped(h', b') && Listed(h, b)
    requires SameLinks(h.refs, h'.refs) && h'.inuse == h.inuse && h'.bases == h.bases && h'.allbase == h.allbase
    requires b'.all == b.all && b'.same == b.same
    ensures Listed(h', b')
  {
    hide NoDup, InUse, BlkOf;
    assert AllOk(h'.refs, h'.inuse, h'.allbase, b'.all);
    assert SameOk(h'.refs, h'.bases, b'.same);
    hide AllOk, SameOk;
  }

  lemma OwnedFrame(h: Heap, h': Heap, b: Book, b': Book)
    requires Shaped(h, b) && Shaped(h', b') && Owned(h, b)
    requires SameLinks(h.refs, h'.refs) && b'.all == b.all && b'.big == b.big && b'.own == b.own
    requires forall a :: a in b'.live ==> a in b.live || (PageOf(a) in b.own && b.own[PageOf(a)].Sub?)
    requires forall c :: c in b.big ==> c in b'.live && c in b.live && b'.live[c] == b.live[c]
    ensures Owned(h', b')
  {
    hide PageOf, PageIn;
    forall p | p in b'.own ensures OwnedOk(h', b', p, b'.own[p]) { assert OwnedOk(h, b, p, b.own[p]); }
    forall c | c in b'.big ensures BigOk(b', c) { assert BigOk(b, c); }
  }

  /** Page i changes its free list and its live blocks; nothing else moves. */
  ghost predicate OnPage(h: Heap, h': Heap, b: Book, b': Book, i: nat)
    requires Shaped(h, b) && i < NPAGEREFS
  {
    && Shaped(h', b') && SameLinks(h.refs, h'.refs) && h'.inuse == h.inuse && h'.bases == h.bases
    && h'.allbase == h.allbase
    && b' == b.(free := b.free[i := b'.free[i]], live := b'.live)
    && h'.refs == h.refs[i := h'.refs[i]]
    && forall a :: PageOf(a) != PageOf(h.refs[i].pab) ==> SameOn(h.mem, h'.mem, a) && SameOn(b.live, b'.live, a)
  }

  lemma OnPageKeeps(h: Heap, h': Heap, b: Book, b': Book, i: nat)
    requires Sound(h, b) && i in b.all && i < NPAGEREFS && OnPage(h, h', b, b', i)
    requires PageOk(h'.refs[i], h'.mem, b'.free[i], b'.live)
    ensures Sound(h', b')
  {
    hide Listed, Owned, PageOk;
    ListedFrame(h, h', b, b');
    OthersOk(h, h', b, b', i);
    LiveOwned(h, h', b, b', i);
  }

  lemma OthersOk(h: Heap, h': Heap, b: Book, b': Book, i: nat)
    requires Sound(h, b) && i in b.all && i < NPAGEREFS && OnPage(h, h', b, b', i)
    requires PageOk(h'.refs[i], h'.mem, b'.free[i], b'.live)
    ensures PagesOk(h', b')
  {
    hide Listed, PageOk, PageOf, BigOk, OwnedOk, SameOn;
    forall j | j in b'.all && j < NPAGEREFS ensures PageOk(h'.refs[j], h'.mem, b'.free[j], b'.live) {
      if j != i {
        assert PageOf(h.refs[j].pab) != PageOf(h.refs[i].pab);
        PageFrame(h.refs[j], h.mem, h'.mem, b.free[j], b.live, b'.live);
      }
    }
  }

  lemma LiveOwned(h: Heap, h': Heap, b: Book, b': Book, i: nat)
    requires Sound(h, b) && i in b.all && i < NPAGEREFS && OnPage(h, h', b, b', i)
    ensures Owned(h', b')
  {
    hide Listed, PagesOk, PageOf, BigOk, OwnedOk;
    forall a | a in b'.live && a !in b.live ensures PageOf(a) in b.own && b.own[PageOf(a)].Sub? {
      if PageOf(a) != PageOf(h.refs[i].pab) { assert SameOn(b.live, b'.live, a); }
    }
    forall c | c in b.big ensures c in b'.live && c in b.live && b'.live[c] == b.live[c] {
      BigElsewhere(h, b, i, c);
      assert SameOn(b.live, b'.live, c);
    }
    OwnedFrame(h, h', b, b');
  }

  lemma BigElsewhere(h: Heap, b: Book, i: nat, c: nat)
    requires Sound(h, b) && i in b.all && i < NPAGEREFS && c in b.big
    ensures c in b.live && PageOf(c) != PageOf(h.refs[i].pab)
  {
    hide Listed, PagesOk, OwnedOk;
    assert BigOk(b, c);
    assert PageIn(c, c, b.big[c]);
  }
}
