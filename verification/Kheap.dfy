/** Model of the kernel heap, kern/lib/kheap.c. The page allocator behind alloc_kpages and free_kpages is a parameter:
    a call is told the address alloc_kpages would give it, and tells what it passed to free_kpages. */
module Kheap {
  import opened Words
  import opened Bitmap
  import opened Lists
  import opened KheapState
  import opened KheapSteps
  import opened KheapPages

  const LARGEST_SUBPAGE_SIZE: nat := 2048
  const DEADBEEF: nat := 0xdeadbeef

  /** The number of pages kmalloc asks for; the sum is taken in 32 bits. */
  function PagesFor(sz: nat): nat { (sz + PAGE_SIZE - 1) % U32 / PAGE_SIZE }

  /** They hold the request exactly when the sum does not wrap. */
  lemma PagesEnough(sz: nat)
    requires 0 < sz < U32
    ensures PAGE_SIZE * PagesFor(sz) >= sz <==> sz <= U32 - PAGE_SIZE
    ensures sz > U32 - PAGE_SIZE ==> PagesFor(sz) == 0
  {
  }

  /** What alloc_kpages may return: 0, or whole pages that nobody owns. */
  ghost predicate Given(b: Book, page: nat, n: nat) {
    page == 0 ||
    (page % PAGE_SIZE == 0 && page + PAGE_SIZE * n <= U32 && forall p: nat :: PageIn(p, page, n) ==> p !in b.own)
  }

  lemma FlipWord(s: seq<nat>, t: seq<nat>, i: nat, on: bool)
    requires |s| == |t| == INUSE_WORDS && i < NPAGEREFS && t == s[i / 32 := t[i / 32]] && t[i / 32] < Two(32)
    requires forall k :: 0 <= k < INUSE_WORDS ==> s[k] < Two(32)
    requires forall k: nat :: Bit(t[i / 32], k) == if k == i % 32 then on else Bit(s[i / 32], k)
    ensures FlipsBit(s, t, i, on)
  {
    forall k | 0 <= k < NPAGEREFS ensures InUse(t, k) <==> if k == i then on else InUse(s, k) {
      if k / 32 == i / 32 { assert k % 32 == i % 32 ==> k == i; }
    }
  }

  class Heap {
    const refs: array<Ref>
    const inuse: array<nat>
    const bases: array<int>
    var allbase: int
    var mem: map<nat, nat>
    ghost var book: Book

    ghost predicate Shape()
    {
      refs.Length == NPAGEREFS && inuse.Length == INUSE_WORDS && bases.Length == NSIZES &&
      (inuse as object) != (bases as object)
    }

    ghost function View(): KheapState.Heap
      reads this, refs, inuse, bases
    {
      KheapState.Heap(refs[..], inuse[..], bases[..], allbase, mem)
    }

    ghost predicate Valid()
      reads this, refs, inuse, bases
    {
      Shape() && Ok(View(), book)
    }

    /** The static variables as the program starts */
    constructor ()
      ensures Valid() && fresh(refs) && fresh(inuse) && fresh(bases) && book.live == map[] && book.own == map[]
    {
      refs := new Ref[NPAGEREFS](_ => Ref(NULL, NULL, 0, 0, 0));
      inuse := new nat[INUSE_WORDS](_ => 0);
      bases := new int[NSIZES](_ => NULL);
      allbase := NULL;
      mem := map[];
      book := Book([], [[], [], [], [], [], [], [], []], seq(NPAGEREFS, _ => []), map[], map[], map[]);
      new;
      EmptyOk(View(), book);
    }

    /** allocpageref: the lowest reference not in use */
    method AllocPageRef() returns (j: int)
      requires Shape() && forall k :: 0 <= k < INUSE_WORDS ==> inuse[k] < Two(32)
      modifies inuse
      ensures j == NULL ==> inuse[..] == old(inuse[..]) && forall k :: 0 <= k < NPAGEREFS ==> InUse(inuse[..], k)
      ensures j != NULL ==>
                0 <= j < NPAGEREFS && !InUse(old(inuse[..]), j) && FlipsBit(old(inuse[..]), inuse[..], j, true)
      ensures j != NULL ==> forall k :: 0 <= k < j ==> InUse(old(inuse[..]), k)
    {
      var i := 0;
      while i < INUSE_WORDS
        invariant 0 <= i <= INUSE_WORDS && inuse[..] == old(inuse[..])
        invariant forall k :: 0 <= k < 32 * i ==> InUse(inuse[..], k)
      {
        if inuse[i] == 0xffff_ffff {
          FullWord(inuse[..], i);
          i := i + 1;
          continue;
        }
        var b := 0;
        while b < 32
          invariant 0 <= b <= 32 && inuse[..] == old(inuse[..])
          invariant forall k: nat :: k < b ==> Bit(inuse[i], k)
        {
          if !Bit(inuse[i], b) {
            inuse[i] := Or(inuse[i], b, 32);
            j := i * 32 + b;
            FlipWord(old(inuse[..]), inuse[..], j, true);
            return;
          }
          b := b + 1;
        }
        WordWidth();
        var c := HasClear(inuse[i], 32);
        assert false;
      }
      j := NULL;
    }

    /** Whether allocpageref would find a reference */
    method RefLeft() returns (left: bool)
      requires Shape() && forall k :: 0 <= k < INUSE_WORDS ==> inuse[k] < Two(32)
      ensures left <==> !forall k :: 0 <= k < NPAGEREFS ==> InUse(inuse[..], k)
    {
      var i := 0;
      while i < INUSE_WORDS
        invariant 0 <= i <= INUSE_WORDS
        invariant forall k :: 0 <= k < 32 * i ==> InUse(inuse[..], k)
      {
        if inuse[i] != 0xffff_ffff {
          WordWidth();
          ghost var c := HasClear(inuse[i], 32);
          assert !InUse(inuse[..], 32 * i + c);
          return true;
        }
        FullWord(inuse[..], i);
        i := i + 1;
      }
      left := false;
    }

    /** freepageref */
    method FreePageRef(j: nat)
      requires Shape() && (forall k :: 0 <= k < INUSE_WORDS ==> inuse[k] < Two(32)) && j < NPAGEREFS &&
               InUse(inuse[..], j)
      modifies inuse
      ensures FlipsBit(old(inuse[..]), inuse[..], j, false)
    {
      inuse[j / 32] := AndNot(inuse[j / 32], j % 32, 32);
      FlipWord(old(inuse[..]), inuse[..], j, false);
    }

    /** The search of subpage_kmalloc: a page of the size with a free block. */
    method FindFree(b: nat) returns (pr: int)
      requires Shape() && b < NSIZES && Shaped(View(), book) && Linked(refs[..], false, bases[b], book.same[b])
      ensures pr == NULL ==> forall i :: i in book.same[b] && i < NPAGEREFS ==> refs[i].nfree == 0
      ensures pr != NULL ==> 0 <= pr < NPAGEREFS && pr in book.same[b] && refs[pr].nfree > 0
    {
      ghost var list, k := book.same[b], 0;
      pr := bases[b];
      assert list[0..] == list;
      while pr != NULL
        invariant 0 <= k <= |list| && pr == Head(list[k..])
        invariant forall j :: 0 <= j < k ==> list[j] < NPAGEREFS && refs[list[j]].nfree == 0
        decreases |list| - k
      {
        assert pr == list[k];
        if refs[pr].nfree > 0 { return; }
        pr := refs[pr].nextSame;
        k := k + 1;
      }
    }

    /** doalloc: take the first block of the page's free list */
    method TakeBlock(pr: nat, sz: nat) returns (a: nat)
      requires Shape() && Sound(View(), book) && pr in book.all && pr < NPAGEREFS && refs[pr].nfree > 0 &&
               sz <= Size(BlkOf(refs[pr].pab))
      modifies refs, `book
      ensures Sound(View(), book) && a !in old(book.live) && a > 0
      ensures book == old(book).(free := old(book.free)[pr := book.free[pr]], live := old(book.live)[a := sz])
      ensures PageOf(a) == PageOf(old(refs[pr]).pab) && Slot(PageOf(a), Size(BlkOf(old(refs[pr]).pab)), a)
      ensures refs[..] == old(refs[..])[pr := refs[pr]] && refs[pr].pab == old(refs[pr]).pab &&
              refs[pr].nfree < old(refs[pr]).nfree
    {
      hide Sound, PageOk, PageOf, BlkOf, Size, Slot;
      ghost var h := View();
      ShapedIs(h, book);
      PageIs(h, book, pr);
      FirstFree(refs[pr], mem, book.free[pr], book.live);
      assert refs[pr].offset < PAGE_SIZE;
      var page := PageOf(refs[pr].pab);
      a := page + refs[pr].offset;
      var next := mem[a];
      refs[pr] := refs[pr].(nfree := refs[pr].nfree - 1);
      if next != 0 {
        assert refs[pr].nfree > 0 && next - page < PAGE_SIZE;
        refs[pr] := refs[pr].(offset := next - page);
      } else {
        assert refs[pr].nfree == 0;
        refs[pr] := refs[pr].(offset := INVALID_OFFSET);
      }
      assert View() == h.(refs := h.refs[pr := TakenRef(h.refs[pr], h.mem[book.free[pr][0]])]);
      TakeKeeps(h, View(), book, pr, sz);
      book := book.(free := book.free[pr := book.free[pr][1..]], live := book.live[book.free[pr][0] := sz]);
    }

    /** Chain the blocks of a fresh page, last block first. */
    method Thread(page: nat, sz: nat, n: nat) returns (fl: nat)
      requires sz > 0 && n > 0 && n * sz == PAGE_SIZE && page % PAGE_SIZE == 0
      modifies `mem
      ensures Threaded(mem, FreshList(page, sz, n)) && fl == page + (n - 1) * sz
      ensures forall a :: PageOf(a) != page ==> SameOn(old(mem), mem, a)
    {
      fl := page;
      mem := mem[fl := 0];
      ghost var before := old(mem);
      PageAgain(page, page);
      var i := 1;
      while i < n
        invariant 1 <= i <= n && fl == page + (i - 1) * sz && Threaded(mem, FreshList(page, sz, i))
        invariant forall a :: PageOf(a) != page ==> SameOn(before, mem, a)
      {
        ghost var was := mem;
        fl := page + i * sz;
        var prev := page + (i - 1) * sz;
        mem := mem[fl := prev];
        FreshStep(was, page, sz, i, n);
        i := i + 1;
      }
    }

    /** Set up a fresh page under reference pr and put it at the head of its two lists. */
    method MakePage(pr: nat, page: nat, b: nat, ghost inuse0: seq<nat>)
      requires Shape() && pr < NPAGEREFS && b < NSIZES && page > 0 && page % PAGE_SIZE == 0 &&
               page + PAGE_SIZE <= U32 && page !in book.own
      requires |inuse0| == INUSE_WORDS && Sound(View().(inuse := inuse0), book) && !InUse(inuse0, pr) &&
               FlipsBit(inuse0, inuse[..], pr, true)
      modifies this`allbase, this`mem, this`book, refs, bases
      ensures Sound(View(), book) && book == NewBook(old(book), pr, page, b, book.free[pr])
      ensures refs[pr].nfree == PerPage(b) && PageOf(refs[pr].pab) == page && BlkOf(refs[pr].pab) == b &&
              refs[..] == old(refs[..])[pr := refs[pr]]
      ensures forall a :: PageOf(a) != page ==> SameOn(old(mem), mem, a)
    {
      hide Sound, PageOf, BlkOf, Size, Threaded, FlipsBit, FreshList, SameOn, PageOk, Brought, Listed, PerPage, InUse,
           Mkpab;
      ghost var h := View().(inuse := inuse0);
      ShapedIs(h, book);
      hide Shaped;
      var n := PerPage(b);
      var fl := Thread(page, Size(b), n);
      var offset := fl - page;
      refs[pr] := Ref(bases[b], allbase, Mkpab(page, b), offset, n);
      bases[b] := pr;
      allbase := pr;
      ghost var list, h1 := FreshList(page, Size(b), n), View();
      FreshPage(h, book, refs[pr], mem, page, b);
      assert h1.bases == h.bases[b := pr] && h1.refs == h.refs[pr := refs[pr]];
      BroughtIs(h, h1, book, pr, page, b, list);
      BroughtKeeps(h, h1, book, pr, page, b, list);
      book := NewBook(book, pr, page, b, list);
      assert View() == h1;
    }

    /** The part of subpage_kmalloc that makes a page when none has a free block. */
    method FromNewPage(sz: nat, page: nat, b: nat) returns (r: nat, used: bool)
      requires Valid() && b < NSIZES && sz <= Size(b) && Given(book, page, 1)
      modifies this, refs, inuse, bases
      ensures Valid()
      ensures r == 0 ==> View() == old(View()) && book == old(book) && !used
      ensures r != 0 ==>
                r !in old(book.live) && book.live == old(book.live)[r := sz] && book.big == old(book.big) && used
      ensures !used ==> book.own == old(book.own)
      ensures used ==>
                page != 0 && page in book.own && book.own[page].Sub? &&
                book.own == old(book.own)[page := book.own[page]]
      ensures used ==> r != 0 && PageOf(r) == page
      ensures forall a :: PageOf(a) != page || !used ==> SameOn(old(mem), mem, a)
      ensures r == 0 <==> page == 0 || forall k :: 0 <= k < NPAGEREFS ==> InUse(old(inuse[..]), k)
      ensures r != 0 ==> SizeIs(View(), book, r, Size(b))
    {
      hide Sound, Size, BlkOf, Given, InUse, PageOf, Slot, Extent;
      ghost var h, b0 := View(), book;
      ShapedIs(h, book);
      hide Shaped;
      var pr := AllocPageRef();
      if pr == NULL {
        assert View() == h;
        used, r := false, 0;
        return;
      }
      if page == 0 {
        FreePageRef(pr);
        SameWords(h.inuse, inuse[..]);
        assert View() == h;
        used, r := false, 0;
        return;
      }
      assert View().(inuse := h.inuse) == h;
      GivenOne(b0, page);
      MakePage(pr, page, b, h.inuse);
      used := true;
      ghost var h1, b1 := View(), book;
      ShapedIs(h1, b1);
      r := TakeBlock(pr, sz);
      OnPages(View(), book, r, pr);
      FreshTaken(h, h1, View(), b0, b1, book, pr, page, b);
    }

    /** subpage_kmalloc. used tells whether the page went into the heap. */
    method SubpageKmalloc(sz: nat, page: nat) returns (r: nat, used: bool)
      requires Valid() && sz <= LARGEST_SUBPAGE_SIZE && Given(book, page, 1)
      modifies this, refs, inuse, bases
      ensures Valid()
      ensures r == 0 ==> View() == old(View()) && book == old(book) && !used
      ensures r != 0 ==> r !in old(book.live) && book.live == old(book.live)[r := sz] && book.big == old(book.big)
      ensures !used ==> book.own == old(book.own)
      ensures used ==>
                page != 0 && page in book.own && book.own[page].Sub? &&
                book.own == old(book.own)[page := book.own[page]]
      ensures used ==> r != 0 && PageOf(r) == page
      ensures forall a :: PageOf(a) != page || !used ==> SameOn(old(mem), mem, a)
      ensures r == 0 <==> old(Exhausted(View(), sz, page))
      ensures r != 0 ==> (used <==> old(NoBlock(View(), sz)))
      ensures r != 0 ==> RightSize(View(), book, sz, r)
    {
      hide Ok, Sound, Size, BlkOf, Given, InUse, PageOf, Slot, NoBlock, Linked, Shaped, Exhausted, Fits, SizeIs,
           RightSize;
      var b := BlockType(sz);
      FitsIs(sz, b);
      ghost var h, b0 := View(), book;
      OkIs(h, b0);
      SameIs(h, b0, b);
      var pr := FindFree(b);
      if pr != NULL {
        HasBlock(h, b0, sz, b, pr);
        NotExhausted(h, sz, page);
        r := FromPage(sz, pr, b);
        used := false;
      } else {
        NoneHasBlock(h, b0, sz, b);
        r, used := FromNewPage(sz, page, b);
        ExhaustedIs(h, b0, sz, page);
      }
      if r != 0 { RightSizeIs(View(), book, sz, r, b); }
    }

    method FromPage(sz: nat, pr: nat, b: nat) returns (r: nat)
      requires Valid() && b < NSIZES && pr in book.same[b] && pr < NPAGEREFS && refs[pr].nfree > 0 && sz <= Size(b)
      modifies this, refs
      ensures Valid() && r > 0 && r !in old(book.live) && book.live == old(book.live)[r := sz] &&
              book.big == old(book.big)
      ensures book.own == old(book.own) && mem == old(mem) && SizeIs(View(), book, r, Size(b))
    {
      hide Sound, Size, BlkOf, PageOf, Slot, NoneEmpty, Extent;
      ghost var h, b0 := View(), book;
      TypeIs(h, b0, pr, b);
      r := TakeBlock(pr, sz);
      TakeDown(h, View(), b0, book, pr);
      OnPages(View(), book, r, pr);
    }

    /** The search of subpage_kfree: the page an address lies on. */
    method FindPage(ptr: nat) returns (pr: int)
      requires Shape() && Shaped(View(), book) && Linked(refs[..], true, allbase, book.all)
      ensures pr == NULL ==> forall i :: i in book.all && i < NPAGEREFS ==> PageOf(ptr) != PageOf(refs[i].pab)
      ensures pr != NULL ==> 0 <= pr < NPAGEREFS && pr in book.all && PageOf(ptr) == PageOf(refs[pr].pab)
    {
      ghost var list, k := book.all, 0;
      pr := allbase;
      assert list[0..] == list;
      while pr != NULL
        invariant 0 <= k <= |list| && pr == Head(list[k..])
        invariant forall j :: 0 <= j < k ==> list[j] < NPAGEREFS && PageOf(ptr) != PageOf(refs[list[j]].pab)
        decreases |list| - k
      {
        assert pr == list[k];
        var page := PageOf(refs[pr].pab);
        if ptr >= page && ptr < page + PAGE_SIZE { PageAgain(page, ptr); return; }
        pr := refs[pr].nextAll;
        k := k + 1;
      }
    }

    /** fill_deadbeef */
    method FillDeadbeef(ptr: nat, len: nat)
      modifies `mem
      ensures OnlyBlock(old(mem), mem, ptr, len)
      ensures forall i :: 0 <= i < len / 4 ==> ptr + 4 * i in mem && mem[ptr + 4 * i] == DEADBEEF
    {
      var i := 0;
      while i < len / 4
        invariant 0 <= i <= len / 4 && OnlyBlock(old(mem), mem, ptr, len)
        invariant forall j :: 0 <= j < i ==> ptr + 4 * j in mem && mem[ptr + 4 * j] == DEADBEEF
      {
        OnlyMore(old(mem), mem, ptr, len, ptr + 4 * i, DEADBEEF);
        mem := mem[ptr + 4 * i := DEADBEEF];
        i := i + 1;
      }
    }

    /** Give a live block back to its page's free list. */
    method PutBlock(pr: nat, ptr: nat)
      requires Shape() && Sound(View(), book) && pr in book.all && pr < NPAGEREFS && ptr in book.live &&
               PageOf(ptr) == PageOf(refs[pr].pab)
      requires BlkOf(refs[pr].pab) < NSIZES
      modifies this, refs
      ensures Sound(View(), book) && allbase == old(allbase)
      ensures book == old(book).(free := old(book.free)[pr := book.free[pr]], live := old(book.live) - {ptr})
      ensures refs[..] == old(refs[..])[pr := refs[pr]] && refs[pr].pab == old(refs[pr]).pab &&
              refs[pr].nfree == old(refs[pr]).nfree + 1
      ensures OnlyBlock(old(mem), mem, ptr, Size(BlkOf(refs[pr].pab)))
    {
      hide Sound, PageOf, BlkOf, Size, Slot, OnlyBlock, PageOk;
      ghost var h := View();
      ShapedIs(h, book);
      PageIs(h, book, pr);
      BlockInside(refs[pr], mem, book.free[pr], book.live, ptr);
      var sz := Size(BlkOf(refs[pr].pab));
      FillDeadbeef(ptr, sz);
      var next := if refs[pr].offset == INVALID_OFFSET then 0 else PageOf(refs[pr].pab) + refs[pr].offset;
      OnlyMore(h.mem, mem, ptr, sz, ptr, next);
      mem := mem[ptr := next];
      refs[pr] := refs[pr].(offset := ptr - PageOf(refs[pr].pab));
      refs[pr] := refs[pr].(nfree := refs[pr].nfree + 1);
      assert refs[..] == h.refs[pr := PutRef(h.refs[pr], ptr)];
      PutKeeps(h, View(), book, pr, ptr);
      book := book.(free := book.free[pr := [ptr] + book.free[pr]], live := book.live - {ptr});
    }

    /** The first loop of remove_lists */
    method RemoveSame(pr: nat, b: nat) returns (ghost k: nat)
      requires Shape() && b < NSIZES && pr < NPAGEREFS && |book.same| == NSIZES && NoDup(book.same[b]) &&
               pr in book.same[b]
      requires Linked(refs[..], false, bases[b], book.same[b])
      modifies refs, bases
      ensures k < |book.same[b]| && book.same[b][k] == pr && Linked(refs[..], false, bases[b], Cut(book.same[b], k))
      ensures bases[..] == old(bases[..])[b := bases[b]]
      ensures Relinked(old(refs[..]), refs[..], false, book.same[b])
    {
      hide Linked, NoDup, Relinked, Cut;
      ghost var list := book.same[b];
      var guy, cur := NULL, bases[b];
      k := 0;
      ghost var s, base := refs[..], bases[b];
      FirstIs(s, false, base, list);
      ghost var p :| 0 <= p < |list| && list[p] == pr;
      while cur != pr
        invariant 0 <= k <= p && cur == list[k] && guy == (if k == 0 then NULL else list[k - 1])
        decreases p - k
        invariant refs[..] == s && bases[..] == old(bases[..])
      {
        NextIs(s, false, base, list, k);
        guy := cur;
        cur := refs[cur].nextSame;
        k := k + 1;
      }
      NextIs(s, false, base, list, k);
      PrevIs(s, false, base, list, k);
      if guy == NULL {
        bases[b] := refs[pr].nextSame;
      } else {
        refs[guy] := refs[guy].(nextSame := refs[pr].nextSame);
      }
      assert refs[..] == if k == 0 then s else s[guy := SetLink(s[guy], false, Link(s[pr], false))];
      CutAt(s, refs[..], false, base, bases[b], list, k);
    }

    /** The second loop of remove_lists */
    method RemoveAll(pr: nat) returns (ghost k: nat)
      requires Shape() && pr < NPAGEREFS && NoDup(book.all) && pr in book.all &&
               Linked(refs[..], true, allbase, book.all)
      modifies refs, `allbase
      ensures k < |book.all| && book.all[k] == pr && Linked(refs[..], true, allbase, Cut(book.all, k))
      ensures Relinked(old(refs[..]), refs[..], true, book.all)
    {
      hide Linked, NoDup, Relinked, Cut;
      ghost var list := book.all;
      var guy, cur := NULL, allbase;
      k := 0;
      ghost var s, base := refs[..], allbase;
      FirstIs(s, true, base, list);
      ghost var p :| 0 <= p < |list| && list[p] == pr;
      while cur != pr
        invariant 0 <= k <= p && cur == list[k] && guy == (if k == 0 then NULL else list[k - 1])
        decreases p - k
        invariant refs[..] == s && allbase == base
      {
        NextIs(s, true, base, list, k);
        guy := cur;
        cur := refs[cur].nextAll;
        k := k + 1;
      }
      NextIs(s, true, base, list, k);
      PrevIs(s, true, base, list, k);
      if guy == NULL {
        allbase := refs[pr].nextAll;
      } else {
        refs[guy] := refs[guy].(nextAll := refs[pr].nextAll);
      }
      assert refs[..] == if k == 0 then s else s[guy := SetLink(s[guy], true, Link(s[pr], true))];
      CutAt(s, refs[..], true, base, allbase, list, k);
    }

    /** A page with every block free leaves the heap: remove_lists, then freepageref. */
    method DropPage(pr: nat, b: nat)
      requires Shape() && Sound(View(), book) && b < NSIZES && pr in book.same[b] && pr < NPAGEREFS
      requires forall a :: a in book.live ==> PageOf(a) != PageOf(refs[pr].pab)
      modifies this, refs, inuse, bases
      ensures Sound(View(), book) && mem == old(mem) && book.live == old(book.live) && book.big == old(book.big)
      ensures book.own == old(book.own) - {PageOf(old(refs[pr]).pab)} && book.free == old(book.free)
      ensures forall i :: i in book.all <==> i in old(book.all) && i != pr
      ensures forall i :: 0 <= i < NPAGEREFS ==> SameBlocks(old(refs[i]), refs[i])
    {
      hide Sound, PageOf, BlkOf, Linked, NoDup, InUse, FlipsBit, Relinked, Cut, SameBlocks, Dropped;
      ghost var h, page := View(), PageOf(refs[pr].pab);
      SameIs(h, book, b);
      ListsAre(h, book, b);
      ghost var ks := RemoveSame(pr, b);
      ghost var r1 := refs[..];
      KeepsLinked(h.refs, r1, false, book.same[b], allbase, book.all);
      ghost var ka := RemoveAll(pr);
      KeepsLinked(r1, refs[..], true, book.all, bases[b], Cut(book.same[b], ks));
      FreePageRef(pr);
      RelinkedBoth(h.refs, r1, refs[..], book.same[b], book.all);
      DroppedIs(h, View(), book, pr, b, ks, ka);
      DroppedKeeps(h, View(), book, pr, b, ks, ka);
      CutMembers(book.all, ka);
      book := DropBook(book, page, b, ks, ka);
    }

    /** subpage_kfree. freed is the page passed to free_kpages, or 0. */
    method SubpageKfree(ptr: nat) returns (rc: int, freed: nat)
      requires Valid() && ptr in book.live
      modifies this, refs, inuse, bases
      ensures Valid() && book.big == old(book.big)
      ensures rc == -1 <==> ptr in old(book.big)
      ensures rc == -1 ==> View() == old(View()) && book == old(book) && freed == 0
      ensures rc != -1 ==> rc == 0 && book.live == old(book.live) - {ptr}
      ensures rc != -1 ==> OnlyBlock(old(mem), mem, ptr, old(Extent(View(), book, ptr)))
      ensures rc != -1 ==> freed == if forall a :: a in book.live ==> PageOf(a) != PageOf(ptr) then PageOf(ptr) else 0
      ensures book.own == old(book.own) - if freed == 0 then {} else {freed}
    {
      hide Ok, Sound, PageOf, BlkOf, Size, PerPage, Slot, OnlyBlock, Linked, NoDup, Shaped, PageOk, Extent, SameBlocks;
      ghost var h, b := View(), book;
      OkIs(h, b);
      ListsAre(h, b, 0);
      var pr := FindPage(ptr);
      if pr == NULL {
        NotOnPages(h, b, ptr);
        return -1, 0;
      }
      OnPages(h, b, ptr, pr);
      var blk := BlkOf(refs[pr].pab);
      var page := PageOf(refs[pr].pab);
      var offset := ptr - page;
      assert offset < PAGE_SIZE && offset % Size(blk) == 0;
      PutBlock(pr, ptr);
      ghost var h1, b1 := View(), book;
      FullIs(h1, b1, pr);
      assert refs[pr].nfree <= PerPage(blk);
      rc, freed := 0, 0;
      if refs[pr].nfree == PerPage(blk) {
        SameIs(h1, b1, blk);
        DropPage(pr, blk);
        freed := page;
        DropFine(h, h1, View(), b, b1, book, pr);
      } else {
        PutFine(h, h1, b, b1, pr);
      }
    }

    /** kmalloc. page is what alloc_kpages returns if it is called; used tells whether the heap now owns it. */
    method Kmalloc(sz: nat, page: nat) returns (r: nat, used: bool)
      requires Valid() && sz < U32 && Given(book, page, if sz >= LARGEST_SUBPAGE_SIZE then PagesFor(sz) else 1)
      modifies this, refs, inuse, bases
      ensures Valid()
      ensures sz > U32 - PAGE_SIZE ==> r == page && View() == old(View()) && book == old(book)
      ensures sz <= U32 - PAGE_SIZE && r == 0 ==> View() == old(View()) && book == old(book)
      ensures sz <= U32 - PAGE_SIZE && r != 0 ==> r !in old(book.live) && book.live == old(book.live)[r := sz]
      ensures sz >= LARGEST_SUBPAGE_SIZE ==>
                r == page && mem == old(mem) && (used ==> r in book.big && book.big[r] == PagesFor(sz))
      ensures sz < LARGEST_SUBPAGE_SIZE ==>
                (r == 0 <==> old(Exhausted(View(), sz, page))) && (used <==> r != 0 && old(NoBlock(View(), sz)))
      ensures sz < LARGEST_SUBPAGE_SIZE && r != 0 ==> RightSize(View(), book, sz, r)
      ensures forall a :: PageOf(a) != page || !used ==> SameOn(old(mem), mem, a)
      ensures !used ==> book.own == old(book.own) && book.big == old(book.big)
      ensures used && sz >= LARGEST_SUBPAGE_SIZE ==> page != 0 && book == BigBook(old(book), page, PagesFor(sz), sz)
      ensures used && sz < LARGEST_SUBPAGE_SIZE ==> page != 0 && r != 0 && PageOf(r) == page
      ensures sz < LARGEST_SUBPAGE_SIZE ==> book.big == old(book.big)
      ensures used && sz < LARGEST_SUBPAGE_SIZE ==>
                page in book.own && book.own[page].Sub? && book.own == old(book.own)[page := book.own[page]]
      ensures sz >= LARGEST_SUBPAGE_SIZE ==> (used <==> page != 0 && PagesFor(sz) > 0)
    {
      if sz >= LARGEST_SUBPAGE_SIZE {
        hide Sound, NoneEmpty, Given, PageOf, BigBook;
        var npages := PagesFor(sz);
        PagesEnough(sz);
        used, r := page != 0 && npages > 0, page;
        if page != 0 && npages > 0 {
          GivenMany(book, page, npages);
          BigKeeps(View(), book, page, npages, sz);
          BigStays(View(), book, page, npages, sz);
          book := BigBook(book, page, npages, sz);
        }
        return;
      }
      hide Ok, Given, PageOf, Exhausted, NoBlock, RightSize;
      r, used := SubpageKmalloc(sz, page);
    }

    /** kfree. freed is the address passed to free_kpages, or 0. */
    method Kfree(ptr: nat) returns (freed: nat)
      requires Valid() && (ptr == 0 || ptr in book.live)
      modifies this, refs, inuse, bases
      ensures Valid() && book.live == old(book.live) - {ptr}
      ensures ptr == 0 ==> View() == old(View()) && book == old(book) && freed == 0
      ensures ptr != 0 ==> freed == if forall a :: a in book.live ==> PageOf(a) != PageOf(ptr) then PageOf(ptr) else 0
      ensures ptr != 0 ==> OnlyBlock(old(mem), mem, ptr, old(Extent(View(), book, ptr)))
      ensures ptr != 0 && ptr in old(book.big) ==> freed == ptr && book == FreeBook(old(book), ptr)
      ensures ptr == 0 || ptr !in old(book.big) ==>
                book.big == old(book.big) && book.own == old(book.own) - if freed == 0 then {} else {freed}
    {
      hide Ok, Sound, NoneEmpty, PageOf, OnlyBlock, FreeBook, Extent;
      ghost var h, b := View(), book;
      OkIs(h, b);
      if ptr == 0 {
        ZeroDead(h, b);
        return 0;
      }
      var rc;
      rc, freed := SubpageKfree(ptr);
      if rc != 0 {
        FreeFine(h, b, ptr);
        assert ptr % PAGE_SIZE == 0;
        freed := ptr;
        book := FreeBook(book, ptr);
      }
    }

    /** The owner of a live block writes a word of it. */
    method Store(ptr: nat, x: nat, v: nat)
      requires Valid() && ptr in book.live && ptr <= x < ptr + Extent(View(), book, ptr) && x % 4 == 0 && v < U32
      modifies `mem
      ensures Valid() && mem == old(mem)[x := v]
    {
      hide Ok, Sound, Extent;
      ghost var h := View();
      OkIs(h, book);
      StoreKeeps(h, book, ptr, x, v);
      mem := mem[x := v];
      assert View() == h.(mem := h.mem[x := v]);
    }
  }

  // ---- proofs for the methods above

  /** The fresh page's reference and words describe the fresh list. */
  lemma FreshPage(h: KheapState.Heap, b: Book, r: Ref, mem: map<nat, nat>, page: nat, blk: nat)
    requires Sound(h, b) && blk < NSIZES && page > 0 && page % PAGE_SIZE == 0 && page + PAGE_SIZE <= U32 &&
             page !in b.own
    requires Threaded(mem, FreshList(page, Size(blk), PerPage(blk))) && PageOf(r.pab) == page && BlkOf(r.pab) == blk
    requires r.nfree == PerPage(blk) && r.offset == (PerPage(blk) - 1) * Size(blk)
    ensures PageOk(r, mem, FreshList(page, Size(blk), PerPage(blk)), b.live)
  {
    hide PageOf, BlkOf, Size, PerPage, FreshList;
    forall a | a in b.live ensures PageOf(a) != page { hide Sound; LivePage(h, b, a); }
    hide Sound;
    FreshFilled(page, Size(blk), PerPage(blk), b.live);
    FreshChain(r, mem, page, Size(blk), PerPage(blk));
    hide Filled, Chained, Threaded;
  }

  lemma FreshChain(r: Ref, mem: map<nat, nat>, page: nat, sz: nat, n: nat)
    requires n > 0 && Threaded(mem, FreshList(page, sz, n)) && PageOf(r.pab) == page && r.nfree == n &&
             r.offset == (n - 1) * sz
    ensures Chained(r, mem, FreshList(page, sz, n))
  {
    hide PageOf, FreshList;
  }

  lemma BroughtIs(h: KheapState.Heap, h': KheapState.Heap, b: Book, i: nat, page: nat, blk: nat, list: seq<nat>)
    requires Shaped(h, b) && i < NPAGEREFS && blk < NSIZES && page > 0 && page % PAGE_SIZE == 0 && page !in b.own
    requires |h'.refs| == NPAGEREFS && |h'.inuse| == INUSE_WORDS && FlipsBit(h.inuse, h'.inuse, i, true) &&
             !InUse(h.inuse, i)
    requires h'.refs == h.refs[i := h'.refs[i]] && h'.refs[i].nextSame == h.bases[blk] &&
             h'.refs[i].nextAll == h.allbase
    requires PageOf(h'.refs[i].pab) == page && BlkOf(h'.refs[i].pab) == blk && h'.bases == h.bases[blk := i] &&
             h'.allbase == i
    requires PageOk(h'.refs[i], h'.mem, list, b.live) && forall a :: PageOf(a) != page ==> SameOn(h.mem, h'.mem, a)
    ensures Brought(h, h', b, i, page, blk, list)
  {
    hide PageOk, FlipsBit, PageOf, BlkOf;
  }

  lemma EmptyOk(h: KheapState.Heap, b: Book)
    requires Shaped(h, b) && h.allbase == NULL && b.all == [] && b.live == map[] && b.big == map[] && b.own == map[]
    requires forall k :: 0 <= k < INUSE_WORDS ==> h.inuse[k] == 0
    requires forall c :: 0 <= c < NSIZES ==> h.bases[c] == NULL && b.same[c] == []
    ensures Ok(h, b)
  {
    forall i | 0 <= i < NPAGEREFS ensures !InUse(h.inuse, i) { ZeroBit(i % 32); }
    hide InUse, PageOk;
  }

  lemma OnlyMore(mem: map<nat, nat>, mem': map<nat, nat>, a: nat, sz: nat, y: nat, v: nat)
    requires OnlyBlock(mem, mem', a, sz) && a <= y < a + sz
    ensures OnlyBlock(mem, mem'[y := v], a, sz)
  {
    var m := mem'[y := v];
    forall x: nat | !(a <= x < a + sz) ensures SameOn(mem, m, x) { assert SameOn(mem, mem', x); }
  }

  function SetLink(r: Ref, all: bool, v: int): Ref { if all then r.(nextAll := v) else r.(nextSame := v) }

  /** Only links of one kind changed, and only those of members of the list. */
  predicate Relinked(s: seq<Ref>, t: seq<Ref>, all: bool, list: seq<nat>) {
    && |s| == |t|
    && (forall j :: 0 <= j < |s| ==> SameBlocks(s[j], t[j]) && Link(t[j], !all) == Link(s[j], !all))
    && (forall j :: 0 <= j < |s| && j !in list ==> Link(t[j], all) == Link(s[j], all))
  }

  lemma CutAt(s: seq<Ref>, t: seq<Ref>, all: bool, base: int, base': int, list: seq<nat>, k: nat)
    requires Linked(s, all, base, list) && NoDup(list) && k < |list| && list[k] < |s| && (k > 0 ==> list[k - 1] < |s|)
    requires base' == if k == 0 then Link(s[list[k]], all) else base
    requires t == if k == 0 then s else s[list[k - 1] := SetLink(s[list[k - 1]], all, Link(s[list[k]], all))]
    ensures Linked(t, all, base', Cut(list, k)) && Relinked(s, t, all, list)
  {
    assert Relinked(s, t, all, list) by { hide Linked, NoDup; }
    hide Relinked;
    CutLinked(s, t, all, base, base', list, k);
  }

  /** Links of the other kind are as they were. */
  lemma KeepsLinked(s: seq<Ref>, t: seq<Ref>, all: bool, list: seq<nat>, base: int, other: seq<nat>)
    requires Relinked(s, t, all, list) && Linked(s, !all, base, other)
    ensures Linked(t, !all, base, other)
  {
    LinkedFrame(s, t, !all, base, other);
  }

  lemma RelinkedBoth(s: seq<Ref>, t: seq<Ref>, u: seq<Ref>, same: seq<nat>, all: seq<nat>)
    requires Relinked(s, t, false, same) && Relinked(t, u, true, all)
    ensures |u| == |s| && forall j :: 0 <= j < |s| ==> SameBlocks(s[j], u[j])
    ensures forall j :: 0 <= j < |s| && j !in same ==> u[j].nextSame == s[j].nextSame
  {
    forall j | 0 <= j < |s| ensures SameBlocks(s[j], u[j]) && (j !in same ==> u[j].nextSame == s[j].nextSame) {
      assert SameBlocks(s[j], t[j]) && SameBlocks(t[j], u[j]);
      assert Link(u[j], false) == Link(t[j], false);
      if j !in same { assert Link(t[j], false) == Link(s[j], false); }
    }
  }

  lemma ListsAre(h: KheapState.Heap, b: Book, c: nat)
    requires Sound(h, b) && c < NSIZES
    ensures Shaped(h, b) && NoDup(b.all) && Linked(h.refs, true, h.allbase, b.all) && NoDup(b.same[c]) &&
            Linked(h.refs, false, h.bases[c], b.same[c])
  {
    hide Owned, PagesOk, Linked, NoDup, InUse, BlkOf, BySize;
  }

  lemma DroppedIs(h: KheapState.Heap, h': KheapState.Heap, b: Book, i: nat, blk: nat, ks: nat, ka: nat)
    requires Shaped(h, b) && blk < NSIZES && ks < |b.same[blk]| && ka < |b.all| && b.same[blk][ks] == i &&
             b.all[ka] == i && i < NPAGEREFS
    requires BlkOf(h.refs[i].pab) == blk && |h'.refs| == NPAGEREFS && |h'.inuse| == INUSE_WORDS &&
             FlipsBit(h.inuse, h'.inuse, i, false)
    requires |h'.bases| == NSIZES && h'.bases == h.bases[blk := h'.bases[blk]] && h'.mem == h.mem
    requires Linked(h'.refs, true, h'.allbase, Cut(b.all, ka)) &&
             Linked(h'.refs, false, h'.bases[blk], Cut(b.same[blk], ks))
    requires forall j :: 0 <= j < NPAGEREFS ==> SameBlocks(h.refs[j], h'.refs[j])
    requires forall j :: 0 <= j < NPAGEREFS && j !in b.same[blk] ==> h'.refs[j].nextSame == h.refs[j].nextSame
    ensures Dropped(h, h', b, i, blk, ks, ka)
  {
    hide Linked, FlipsBit, SameBlocks, Cut, BlkOf;
  }

  lemma FirstIs(refs: seq<Ref>, all: bool, base: int, list: seq<nat>)
    requires Linked(refs, all, base, list) && list != []
    ensures base == list[0]
  {
  }

  lemma NextIs(refs: seq<Ref>, all: bool, base: int, list: seq<nat>, k: nat)
    requires Linked(refs, all, base, list) && k < |list|
    ensures list[k] < |refs| && Link(refs[list[k]], all) == if k + 1 < |list| then list[k + 1] else NULL
  {
    assert k + 1 < |list| ==> list[k + 1..][0] == list[k + 1];
  }

  lemma PrevIs(refs: seq<Ref>, all: bool, base: int, list: seq<nat>, k: nat)
    requires Linked(refs, all, base, list) && NoDup(list) && k < |list|
    ensures k > 0 ==> list[k - 1] < |refs| && list[k - 1] != list[k]
  {
  }

  lemma SameIs(h: KheapState.Heap, b: Book, c: nat)
    requires Sound(h, b) && c < NSIZES
    ensures Shaped(h, b) && Linked(h.refs, false, h.bases[c], b.same[c])
    ensures forall i :: i in b.same[c] <==> i in b.all && i < NPAGEREFS && BlkOf(h.refs[i].pab) == c
    ensures forall i :: 0 <= i < NPAGEREFS ==> (i in b.all <==> InUse(h.inuse, i))
    ensures forall i :: i in b.all ==> i < NPAGEREFS
  {
    hide Owned, PagesOk, Linked, NoDup, InUse, BlkOf;
    assert OfSize(h.refs, b.all, c, b.same[c]);
  }

  lemma TypeIs(h: KheapState.Heap, b: Book, i: nat, c: nat)
    requires Sound(h, b) && c < NSIZES && i in b.same[c]
    ensures i in b.all && i < NPAGEREFS && BlkOf(h.refs[i].pab) == c
  {
    hide Sound, BlkOf;
    SameIs(h, b, c);
  }

  /** No page of the right block size has a free block. */
  ghost predicate NoBlock(h: KheapState.Heap, sz: nat) {
    forall i, c ::
      (0 <= i < |h.refs| && i < 32 * |h.inuse| && 0 <= c < NSIZES && InUse(h.inuse, i) && Fits(sz, c) &&
       BlkOf(h.refs[i].pab) == c) ==> h.refs[i].nfree == 0
  }

  /** c is the block type for sz. */
  predicate Fits(sz: nat, c: nat)
    requires c < NSIZES
  {
    sz <= Size(c) && (c > 0 ==> Size(c - 1) < sz)
  }

  ghost predicate Exhausted(h: KheapState.Heap, sz: nat, page: nat) {
    NoBlock(h, sz) && (page == 0 || forall k :: 0 <= k < NPAGEREFS && k < 32 * |h.inuse| ==> InUse(h.inuse, k))
  }

  ghost predicate SizeIs(h: KheapState.Heap, b: Book, a: nat, n: nat) {
    Sound(h, b) && a in b.live && Extent(h, b, a) == n
  }

  /** The block is of the smallest size that holds the request. */
  ghost predicate RightSize(h: KheapState.Heap, b: Book, sz: nat, a: nat) {
    exists c :: 0 <= c < NSIZES && Fits(sz, c) && SizeIs(h, b, a, Size(c))
  }

  lemma RightSizeIs(h: KheapState.Heap, b: Book, sz: nat, a: nat, c: nat)
    requires c < NSIZES && Fits(sz, c) && SizeIs(h, b, a, Size(c))
    ensures RightSize(h, b, sz, a)
  {
    hide SizeIs, Fits;
  }

  lemma FitsOne(sz: nat, b: nat, c: nat)
    requires b < NSIZES && c < NSIZES && Fits(sz, b) && Fits(sz, c)
    ensures b == c
  {
  }

  lemma FitsIs(sz: nat, b: nat)
    requires b < NSIZES && sz <= Size(b) && forall c :: 0 <= c < b ==> Size(c) < sz
    ensures Fits(sz, b)
  {
  }

  lemma OkIs(h: KheapState.Heap, b: Book)
    requires Ok(h, b)
    ensures Sound(h, b) && Shaped(h, b)
  {
    hide Listed, Owned, PagesOk, NoneEmpty;
  }

  lemma NotExhausted(h: KheapState.Heap, sz: nat, page: nat)
    requires !NoBlock(h, sz)
    ensures !Exhausted(h, sz, page)
  {
    hide NoBlock;
  }

  lemma ExhaustedIs(h: KheapState.Heap, b: Book, sz: nat, page: nat)
    requires Shaped(h, b) && NoBlock(h, sz)
    ensures Exhausted(h, sz, page) <==> page == 0 || forall k :: 0 <= k < NPAGEREFS ==> InUse(h.inuse, k)
  {
    hide NoBlock, InUse;
  }

  lemma HasBlock(h: KheapState.Heap, b: Book, sz: nat, c: nat, i: nat)
    requires Sound(h, b) && c < NSIZES && Fits(sz, c) && i in b.same[c] && i < NPAGEREFS && h.refs[i].nfree > 0
    ensures !NoBlock(h, sz)
  {
    hide Sound, BlkOf, Fits, InUse;
    SameIs(h, b, c);
  }

  lemma NoneHasBlock(h: KheapState.Heap, b: Book, sz: nat, c: nat)
    requires Sound(h, b) && c < NSIZES && Fits(sz, c) && forall i :: i in b.same[c] && i < NPAGEREFS ==>
               h.refs[i].nfree == 0
    ensures NoBlock(h, sz)
  {
    hide Sound, BlkOf, Fits, InUse;
    SameIs(h, b, c);
    forall i, d | 0 <= i < |h.refs| && i < 32 * |h.inuse| && 0 <= d < NSIZES && InUse(h.inuse, i) && Fits(sz, d) &&
                  BlkOf(h.refs[i].pab) == d
      ensures h.refs[i].nfree == 0
    {
      FitsOne(sz, c, d);
    }
  }

  /** Taking a block from a page leaves no page all free that was not. */
  lemma TakeDown(h: KheapState.Heap, h': KheapState.Heap, b: Book, b': Book, i: nat)
    requires Sound(h, b) && Sound(h', b') && NoneEmpty(h, b) && b'.all == b.all && i < NPAGEREFS
    requires h'.refs == h.refs[i := h'.refs[i]] && h'.refs[i].pab == h.refs[i].pab && h'.refs[i].nfree < h.refs[i].nfree
    ensures Ok(h', b')
  {
    ShapedIs(h, b);
    ShapedIs(h', b');
    hide Sound, BlkOf, PerPage;
  }

  lemma GivenOne(b: Book, page: nat)
    requires Given(b, page, 1) && page > 0
    ensures page % PAGE_SIZE == 0 && page + PAGE_SIZE <= U32 && page !in b.own
  {
    assert page % PAGE_SIZE == 0 ==> PageIn(page, page, 1);
  }

  lemma {:induction false} SameBits(x: nat, y: nat, w: nat)
    requires x < Two(w) && y < Two(w) && forall k: nat :: k < w ==> Bit(x, k) == Bit(y, k)
    ensures x == y
    decreases w
  {
    if w > 0 {
      assert Bit(x, 0) == Bit(y, 0);
      forall k: nat | k < w - 1 ensures Bit(x / 2, k) == Bit(y / 2, k) { assert Bit(x, k + 1) == Bit(y, k + 1); }
      SameBits(x / 2, y / 2, w - 1);
    }
  }

  /** Words with the same bits in use are the same. */
  lemma SameWords(s: seq<nat>, t: seq<nat>)
    requires |s| == |t| == INUSE_WORDS && forall k :: 0 <= k < INUSE_WORDS ==> s[k] < Two(32) && t[k] < Two(32)
    requires forall k :: 0 <= k < NPAGEREFS ==> (InUse(s, k) <==> InUse(t, k))
    ensures s == t
  {
    hide InUse, Two;
    forall i | 0 <= i < INUSE_WORDS ensures s[i] == t[i] { SameWord(s, t, i); }
  }

  lemma SameWord(s: seq<nat>, t: seq<nat>, i: nat)
    requires |s| == |t| == INUSE_WORDS && i < INUSE_WORDS && s[i] < Two(32) && t[i] < Two(32)
    requires forall k :: 0 <= k < NPAGEREFS ==> (InUse(s, k) <==> InUse(t, k))
    ensures s[i] == t[i]
  {
    hide Two, Bit;
    forall k: nat | k < 32 ensures Bit(s[i], k) == Bit(t[i], k) {
      assert InUse(s, 32 * i + k) <==> InUse(t, 32 * i + k);
    }
    hide InUse;
    SameBits(s[i], t[i], 32);
  }

  /** A page made and then drawn on is a page in use with something live. */
  lemma FreshTaken(h: KheapState.Heap, h1: KheapState.Heap, h2: KheapState.Heap, b: Book, b1: Book, b2: Book, i: nat,
                   page: nat, c: nat)
    requires Sound(h, b) && NoneEmpty(h, b) && Shaped(h1, b1) && Sound(h2, b2) && i < NPAGEREFS && c < NSIZES
    requires b1 == NewBook(b, i, page, c, b1.free[i]) && h1.refs == h.refs[i := h1.refs[i]] &&
             BlkOf(h1.refs[i].pab) == c && h1.refs[i].nfree == PerPage(c)
    requires b2.all == b1.all && h2.refs == h1.refs[i := h2.refs[i]] && h2.refs[i].pab == h1.refs[i].pab &&
             h2.refs[i].nfree < h1.refs[i].nfree
    ensures Ok(h2, b2)
  {
    ShapedIs(h, b);
    ShapedIs(h2, b2);
    hide Sound, BlkOf, PerPage;
  }

  lemma NotOnPages(h: KheapState.Heap, b: Book, a: nat)
    requires Sound(h, b) && a in b.live && forall i :: i in b.all && i < NPAGEREFS ==>
               PageOf(a) != PageOf(h.refs[i].pab)
    ensures a in b.big
  {
    hide Sound, PageOf, BigOk;
    LivePage(h, b, a);
    if b.own[PageOf(a)].Sub? { LiveSub(h, b, a); } else { LiveBig(h, b, a); }
  }

  lemma OnPages(h: KheapState.Heap, b: Book, a: nat, i: nat)
    requires Sound(h, b) && a in b.live && i in b.all && i < NPAGEREFS && PageOf(a) == PageOf(h.refs[i].pab)
    ensures BlkOf(h.refs[i].pab) < NSIZES && Slot(PageOf(a), Size(BlkOf(h.refs[i].pab)), a) && a !in b.big &&
            PageOf(a) > 0
    ensures Extent(h, b, a) == Size(BlkOf(h.refs[i].pab))
    ensures i in b.same[BlkOf(h.refs[i].pab)]
    ensures a >= PageOf(a) && a - PageOf(a) < PAGE_SIZE && (a - PageOf(a)) % Size(BlkOf(h.refs[i].pab)) == 0
  {
    hide Sound, PageOf, BlkOf, Size, PageOk, BigOk;
    ShapedIs(h, b);
    PageIs(h, b, i);
    LiveSub(h, b, a);
    SameIs(h, b, BlkOf(h.refs[i].pab));
    if a in b.big { BigElsewhere(h, b, i, a); }
  }

  /** The count of a page's free blocks tells whether anything on it is live. */
  lemma FullIs(h: KheapState.Heap, b: Book, i: nat)
    requires Sound(h, b) && i in b.all && i < NPAGEREFS
    ensures BlkOf(h.refs[i].pab) < NSIZES && h.refs[i].nfree <= PerPage(BlkOf(h.refs[i].pab))
    ensures h.refs[i].nfree == PerPage(BlkOf(h.refs[i].pab)) <==>
              forall a :: a in b.live ==> PageOf(a) != PageOf(h.refs[i].pab)
  {
    PageIs(h, b, i);
    var blk := BlkOf(h.refs[i].pab);
    hide Sound, Filled, PageOf;
    AllFree(PageOf(h.refs[i].pab), Size(blk), PerPage(blk), b.free[i], b.live);
  }

  lemma PutFine(h: KheapState.Heap, h1: KheapState.Heap, b: Book, b1: Book, i: nat)
    requires Ok(h, b) && Sound(h1, b1) && b1.all == b.all && i < NPAGEREFS && |h1.refs| == |h.refs| == NPAGEREFS &&
             h1.refs == h.refs[i := h1.refs[i]]
    requires BlkOf(h1.refs[i].pab) < NSIZES && h1.refs[i].nfree < PerPage(BlkOf(h1.refs[i].pab))
    ensures Ok(h1, b1)
  {
    ShapedIs(h1, b1);
    hide Sound, BlkOf, PerPage;
  }

  lemma DropFine(h: KheapState.Heap, h1: KheapState.Heap, h2: KheapState.Heap, b: Book, b1: Book, b2: Book, i: nat)
    requires Ok(h, b) && Sound(h2, b2) && b1.all == b.all && i < NPAGEREFS &&
             |h1.refs| == |h2.refs| == |h.refs| == NPAGEREFS
    requires h1.refs == h.refs[i := h1.refs[i]] && forall j :: j in b2.all <==> j in b1.all && j != i
    requires forall j :: 0 <= j < NPAGEREFS ==> SameBlocks(h1.refs[j], h2.refs[j])
    ensures Ok(h2, b2)
  {
    ShapedIs(h2, b2);
    hide Sound, BlkOf, PerPage;
    forall j | j in b2.all && j < NPAGEREFS && BlkOf(h2.refs[j].pab) < NSIZES
      ensures h2.refs[j].nfree < PerPage(BlkOf(h2.refs[j].pab))
    {
      assert SameBlocks(h1.refs[j], h2.refs[j]);
    }
  }

  lemma GivenMany(b: Book, page: nat, n: nat)
    requires Given(b, page, n) && page > 0
    ensures page % PAGE_SIZE == 0 && forall p: nat :: PageIn(p, page, n) ==> p !in b.own
  {
    hide PageIn;
  }

  lemma BigStays(h: KheapState.Heap, b: Book, base: nat, n: nat, sz: nat)
    requires Ok(h, b) && Sound(h, BigBook(b, base, n, sz))
    ensures Ok(h, BigBook(b, base, n, sz)) && BigBook(b, base, n, sz).live == b.live[base := sz]
    ensures base in BigBook(b, base, n, sz).big && BigBook(b, base, n, sz).big[base] == n
  {
    ShapedIs(h, BigBook(b, base, n, sz));
    hide Sound, PerPage, BigPages;
  }

  lemma ZeroDead(h: KheapState.Heap, b: Book)
    requires Sound(h, b)
    ensures 0 !in b.live && b.live - {0} == b.live
  {
    hide Sound, Extent;
    if 0 in b.live { LivePart(h, b, 0); }
  }

  /** Freeing a whole-page allocation gives back all of it, and nothing else begins there. */
  lemma FreeFine(h: KheapState.Heap, b: Book, ptr: nat)
    requires Ok(h, b) && ptr in b.big
    ensures Ok(h, FreeBook(b, ptr)) && FreeBook(b, ptr).live == b.live - {ptr} && ptr % PAGE_SIZE == 0 &&
            PageOf(ptr) == ptr
    ensures forall a :: a in FreeBook(b, ptr).live ==> PageOf(a) != PageOf(ptr)
    ensures OnlyBlock(h.mem, h.mem, ptr, Extent(h, b, ptr))
  {
    var b' := FreeBook(b, ptr);
    FreeKeeps(h, b, ptr);
    ShapedIs(h, b');
    hide Sound, PerPage, PageOf, BigPages;
    OwnedIs(h, b);
    BigIs(h, b, ptr);
    PageAgain(ptr, ptr);
    InOwn(b, ptr);
    hide NoneEmpty, Shaped;
    forall a | a in b'.live ensures PageOf(a) != PageOf(ptr) {
      if PageOf(a) == PageOf(ptr) { LiveBig(h, b, a); }
    }
    hide Extent;
  }

  /** A write inside a live block misses every word the heap keeps. */
  lemma StoreKeeps(h: KheapState.Heap, b: Book, ptr: nat, x: nat, v: nat)
    requires Ok(h, b) && ptr in b.live && ptr <= x < ptr + Extent(h, b, ptr)
    ensures Ok(h.(mem := h.mem[x := v]), b)
  {
    var h' := h.(mem := h.mem[x := v]);
    ShapedIs(h, b);
    hide Extent, PerPage;
    assert NoneEmpty(h', b) by { hide Sound; }
    hide NoneEmpty, PageOk;
    ListedFrame(h, h', b, b);
    OwnedIs(h, b);
    assert Owned(h', b) by { hide Sound; OwnedFrame(h, h', b, b) by { hide OwnersOk, SubsOk, LivesOk, PageOf; } }
    hide Listed, Owned;
    forall i | i in b.all && i < NPAGEREFS ensures PageOk(h.refs[i], h'.mem, b.free[i], b.live) {
      StoreMisses(h, b, ptr, x, i);
      StorePage(h.refs[i], h.mem, b.free[i], b.live, x, v);
    }
  }

  lemma StorePage(r: Ref, mem: map<nat, nat>, list: seq<nat>, live: map<nat, nat>, x: nat, v: nat)
    requires PageOk(r, mem, list, live) && x !in list
    ensures PageOk(r, mem[x := v], list, live)
  {
    hide Filled, PageOf, Size, BlkOf;
  }

  lemma StoreMisses(h: KheapState.Heap, b: Book, ptr: nat, x: nat, i: nat)
    requires Sound(h, b) && ptr in b.live && ptr <= x < ptr + Extent(h, b, ptr) && i in b.all && i < NPAGEREFS
    ensures PageOk(h.refs[i], h.mem, b.free[i], b.live) && x !in b.free[i]
  {
    hide Sound, PageOf, BlkOf, Size, PageOk, Extent;
    ShapedIs(h, b);
    PageIs(h, b, i);
    if x in b.free[i] {
      FreeSlot(h.refs[i], h.mem, b.free[i], b.live, x);
      if PageOf(ptr) == PageOf(x) { SamePage(h, b, ptr, x, i); } else { OtherPage(h, b, ptr, x, i); }
    }
  }

  lemma FreeSlot(r: Ref, mem: map<nat, nat>, list: seq<nat>, live: map<nat, nat>, x: nat)
    requires PageOk(r, mem, list, live) && x in list
    ensures BlkOf(r.pab) < NSIZES && Slot(PageOf(r.pab), Size(BlkOf(r.pab)), x) && x !in live &&
            PageOf(x) == PageOf(r.pab)
  {
    hide Chained, NoDup;
    PageAgain(PageOf(r.pab), x);
  }

  lemma SamePage(h: KheapState.Heap, b: Book, ptr: nat, x: nat, i: nat)
    requires Sound(h, b) && ptr in b.live && x !in b.live && i in b.all && i < NPAGEREFS &&
             PageOf(ptr) == PageOf(x) == PageOf(h.refs[i].pab)
    requires BlkOf(h.refs[i].pab) < NSIZES && Slot(PageOf(x), Size(BlkOf(h.refs[i].pab)), x) && ptr <= x
    ensures ptr + Extent(h, b, ptr) <= x
  {
    hide Sound, PageOf, BlkOf, Size, PageOk, BigOk;
    ShapedIs(h, b);
    OnPages(h, b, ptr, i);
    SlotsApart(PageOf(x), Size(BlkOf(h.refs[i].pab)), ptr, x);
  }

  lemma OtherPage(h: KheapState.Heap, b: Book, ptr: nat, x: nat, i: nat)
    requires Sound(h, b) && ptr in b.live && i in b.all && i < NPAGEREFS &&
             PageOf(ptr) != PageOf(x) == PageOf(h.refs[i].pab) && ptr <= x
    ensures ptr + Extent(h, b, ptr) <= x
  {
    hide Sound, PageOf, PageOk;
    LivePage(h, b, ptr);
    LivePart(h, b, ptr);
    PageIs(h, b, i);
    if b.own[PageOf(ptr)].Big? {
      LiveBig(h, b, ptr);
      var n := b.big[ptr];
      assert x < ptr + Extent(h, b, ptr) ==> PageIn(PageOf(x), ptr, n);
    }
  }

  lemma FreshStep(mem: map<nat, nat>, page: nat, sz: nat, i: nat, n: nat)
    requires sz > 0 && 0 < i < n && n * sz == PAGE_SIZE && page % PAGE_SIZE == 0 &&
             Threaded(mem, FreshList(page, sz, i))
    ensures Threaded(mem[page + i * sz := page + (i - 1) * sz], FreshList(page, sz, i + 1)) &&
            PageOf(page + i * sz) == page
  {
    hide PageOf, FreshList, Threaded;
    FreshApart(page, sz, i);
    Scale(sz, i + 1, n);
    PageAgain(page, page + i * sz);
    ThreadMore(mem, FreshList(page, sz, i), page + i * sz);
  }

  lemma FreshApart(page: nat, sz: nat, i: nat)
    requires sz > 0 && i > 0
    ensures page + i * sz !in FreshList(page, sz, i) &&
            FreshList(page, sz, i + 1) == [page + i * sz] + FreshList(page, sz, i)
    ensures FreshList(page, sz, i)[0] == page + (i - 1) * sz
  {
    hide NoDup, SlotSet;
    FreshMembers(page, sz, i);
    assert page + i * sz !in SlotSet(page, sz, i);
  }

  lemma FullWord(s: seq<nat>, i: nat)
    requires i < |s| && s[i] == 0xffff_ffff
    ensures forall k :: 32 * i <= k < 32 * (i + 1) ==> InUse(s, k)
  {
    WordWidth();
    forall k | 32 * i <= k < 32 * (i + 1) ensures InUse(s, k) { AllOnes(32, k % 32); }
  }

  /** blocktype: the smallest size that holds the request */
  method BlockType(sz: nat) returns (b: nat)
    requires sz <= LARGEST_SUBPAGE_SIZE
    ensures b < NSIZES && sz <= Size(b) && forall c :: 0 <= c < b ==> Size(c) < sz
  {
    b := 0;
    while b < NSIZES
      invariant b <= NSIZES && (b == NSIZES ==> LARGEST_SUBPAGE_SIZE < sz)
      invariant forall c :: 0 <= c < b ==> Size(c) < sz
    {
      if sz <= Size(b) { return; }
      b := b + 1;
    }
    assert false;
  }
}
