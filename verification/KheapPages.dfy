/** Pages coming into the heap and leaving it. */
module KheapPages {
  import opened Words
  import opened Bitmap
  import opened Lists
  import opened KheapState
  import opened KheapSteps

  // ---- linked lists of page references

  lemma PushLinked(refs: seq<Ref>, refs': seq<Ref>, all: bool, base: int, list: seq<nat>, i: nat)
    requires Linked(refs, all, base, list) && |refs'| == |refs| && i < |refs| && i !in list &&
             Link(refs'[i], all) == base
    requires forall j :: 0 <= j < |refs| && j != i ==> Link(refs'[j], all) == Link(refs[j], all)
    ensures Linked(refs', all, i, [i] + list)
  {
    var l := [i] + list;
    forall k | 0 <= k < |l| ensures l[k] < |refs'| && Link(refs'[l[k]], all) == Head(l[k + 1..]) {
      if k == 0 {
        assert l[1..] == list;
      } else {
        assert l[k] == list[k - 1] && l[k + 1..] == list[k..];
      }
    }
  }

  function Cut(list: seq<nat>, k: nat): seq<nat>
    requires k < |list|
  {
    list[..k] + list[k + 1..]
  }

  lemma CutMembers(list: seq<nat>, k: nat)
    requires k < |list| && NoDup(list)
    ensures NoDup(Cut(list, k)) && forall x :: x in Cut(list, k) <==> x in list && x != list[k]
  {
    var l := Cut(list, k);
    forall x ensures x in l <==> x in list && x != list[k] {
      if x in list && x != list[k] {
        var j :| 0 <= j < |list| && list[j] == x;
        assert x == if j < k then l[j] else l[j - 1];
      }
    }
  }

  /** The slot that pointed to element k now points past it. */
  lemma CutLinked(refs: seq<Ref>, refs': seq<Ref>, all: bool, base: int, base': int, list: seq<nat>, k: nat)
    requires Linked(refs, all, base, list) && NoDup(list) && k < |list| && |refs'| == |refs|
    requires base' == if k == 0 then Link(refs[list[0]], all) else base
    requires k > 0 ==> Link(refs'[list[k - 1]], all) == Link(refs[list[k]], all)
    requires forall j :: 0 <= j < |refs| && (k > 0 ==> j != list[k - 1]) ==> Link(refs'[j], all) == Link(refs[j], all)
    ensures Linked(refs', all, base', Cut(list, k))
  {
    var l := Cut(list, k);
    assert base' == Head(l) by { if k == 0 { assert l == list[1..]; } }
    forall m | 0 <= m < |l| ensures l[m] < |refs'| && Link(refs'[l[m]], all) == Head(l[m + 1..]) {
      if m < k {
        assert l[m] == list[m] && Link(refs[list[m]], all) == Head(list[m + 1..]);
        if m + 1 == k { assert l[m + 1..] == list[k + 1..]; }
      } else {
        assert l[m] == list[m + 1] && l[m + 1..] == list[m + 2..];
      }
    }
  }

  // ---- a fresh page

  /** The free list of a fresh page: its blocks from the last to the first. */
  function FreshList(page: nat, sz: nat, n: nat): (l: seq<nat>)
    ensures |l| == n && (n > 0 ==> l[0] == At(page, sz, n - 1))
  {
    if n == 0 then [] else [At(page, sz, n - 1)] + FreshList(page, sz, n - 1)
  }

  lemma {:induction false} FreshMembers(page: nat, sz: nat, n: nat)
    requires sz > 0
    ensures NoDup(FreshList(page, sz, n)) && forall a :: a in FreshList(page, sz, n) <==> a in SlotSet(page, sz, n)
  {
    hide At;
    if n > 0 {
      FreshMembers(page, sz, n - 1);
      var a, l, s := At(page, sz, n - 1), FreshList(page, sz, n - 1), SlotSet(page, sz, n - 1);
      assert a !in s && FreshList(page, sz, n) == [a] + l && SlotSet(page, sz, n) == s + {a};
      hide NoDup, FreshList, SlotSet;
      Cons(a, l);
    }
  }

  lemma FreshFilled(page: nat, sz: nat, n: nat, live: map<nat, nat>)
    requires sz > 0 && n * sz == PAGE_SIZE && page % PAGE_SIZE == 0 && forall a :: a in live ==> PageOf(a) != page
    ensures Filled(page, sz, FreshList(page, sz, n), live)
  {
    FreshMembers(page, sz, n);
    var list := FreshList(page, sz, n);
    hide NoDup, FreshList;
    forall a | a in list ensures Slot(page, sz, a) { SetSlots(page, sz, n, a); }
    forall a | Slot(page, sz, a) ensures a in list && a !in live { SlotIndex(page, sz, n, a); PageSlot(page, sz, a); }
  }

  /** The words of a free list, without its reference. */
  predicate Threaded(mem: map<nat, nat>, list: seq<nat>) {
    forall k :: 0 <= k < |list| ==> list[k] in mem && mem[list[k]] == After(list, k)
  }

  lemma ThreadMore(mem: map<nat, nat>, list: seq<nat>, a: nat)
    requires Threaded(mem, list) && a !in list
    ensures Threaded(mem[a := if list == [] then 0 else list[0]], [a] + list)
  {
    var l, m := [a] + list, mem[a := if list == [] then 0 else list[0]];
    forall k | 0 <= k < |l| ensures l[k] in m && m[l[k]] == After(l, k) {
      if k > 0 { assert l[k] == list[k - 1] && After(l, k) == After(list, k - 1); }
    }
  }

  ghost predicate FlipsBit(inuse: seq<nat>, inuse': seq<nat>, i: nat, on: bool)
    requires |inuse| == |inuse'| == INUSE_WORDS
  {
    && (forall k :: 0 <= k < INUSE_WORDS ==> inuse'[k] < Two(32))
    && forall k :: 0 <= k < NPAGEREFS ==> (InUse(inuse', k) <==> if k == i then on else InUse(inuse, k))
  }

  function NewBook(b: Book, i: nat, page: nat, blk: nat, list: seq<nat>): Book
    requires |b.same| == NSIZES && |b.free| == NPAGEREFS && i < NPAGEREFS && blk < NSIZES
  {
    b.(all := [i] + b.all, same := b.same[blk := [i] + b.same[blk]], free := b.free[i := list],
       own := b.own[page := Sub(i)])
  }

  /** A fresh page has been set up under reference i and put at the head of its two lists. */
  ghost predicate Brought(h: Heap, h': Heap, b: Book, i: nat, page: nat, blk: nat, list: seq<nat>)
    requires Shaped(h, b)
  {
    && i < NPAGEREFS && blk < NSIZES && page > 0 && page % PAGE_SIZE == 0 && page !in b.own
    && |h'.refs| == NPAGEREFS && |h'.inuse| == INUSE_WORDS && FlipsBit(h.inuse, h'.inuse, i, true) && !InUse(h.inuse, i)
    && h'.refs == h.refs[i := h'.refs[i]] && h'.refs[i].nextSame == h.bases[blk] && h'.refs[i].nextAll == h.allbase
    && PageOf(h'.refs[i].pab) == page && BlkOf(h'.refs[i].pab) == blk
    && h'.bases == h.bases[blk := i] && h'.allbase == i
    && PageOk(h'.refs[i], h'.mem, list, b.live)
    && forall a :: PageOf(a) != page ==> SameOn(h.mem, h'.mem, a)
  }

  lemma BroughtKeeps(h: Heap, h': Heap, b: Book, i: nat, page: nat, blk: nat, list: seq<nat>)
    requires Sound(h, b) && Brought(h, h', b, i, page, blk, list)
    ensures Sound(h', NewBook(b, i, page, blk, list))
  {
    var b' := NewBook(b, i, page, blk, list);
    hide PageOk, Owned, PagesOk, PageOf;
    NewListed(h, h', b, i, page, blk, list);
    NewOwned(h, h', b, i, page, blk, list);
    NewPages(h, h', b, i, page, blk, list);
  }

  lemma NewListed(h: Heap, h': Heap, b: Book, i: nat, page: nat, blk: nat, list: seq<nat>)
    requires Sound(h, b) && Brought(h, h', b, i, page, blk, list)
    ensures Shaped(h', NewBook(b, i, page, blk, list)) && Listed(h', NewBook(b, i, page, blk, list)) && i !in b.all
  {
    hide PageOk, Owned, PagesOk, PageOf, AllOk, SameOk, BySize;
    NewAll(h.refs, h'.refs, h.inuse, h'.inuse, h.allbase, b.all, i);
    NewSame(h.refs, h'.refs, h.bases, b.all, b.same, i, blk);
  }

  lemma NewAll(refs: seq<Ref>, refs': seq<Ref>, inuse: seq<nat>, inuse': seq<nat>, base: int, all: seq<nat>, i: nat)
    requires |refs| == |refs'| == NPAGEREFS && |inuse| == |inuse'| == INUSE_WORDS && AllOk(refs, inuse, base, all) &&
             i < NPAGEREFS
    requires FlipsBit(inuse, inuse', i, true) && !InUse(inuse, i) && refs' == refs[i := refs'[i]] &&
             refs'[i].nextAll == base
    requires BlkOf(refs'[i].pab) < NSIZES
    ensures AllOk(refs', inuse', i, [i] + all) && i !in all
  {
    hide Linked, NoDup, InUse, BlkOf;
    Cons(i, all);
    PushLinked(refs, refs', true, base, all, i);
  }

  lemma NewSame(refs: seq<Ref>, refs': seq<Ref>, bases: seq<int>, all: seq<nat>, same: seq<seq<nat>>, i: nat, blk: nat)
    requires |refs| == |refs'| == NPAGEREFS && |bases| == |same| == NSIZES && blk < NSIZES && i < NPAGEREFS && i !in all
    requires SameOk(refs, bases, same) && BySize(refs, all, same)
    requires refs' == refs[i := refs'[i]] && refs'[i].nextSame == bases[blk] && BlkOf(refs'[i].pab) == blk
    ensures SameOk(refs', bases[blk := i], same[blk := [i] + same[blk]]) &&
            BySize(refs', [i] + all, same[blk := [i] + same[blk]])
  {
    hide Linked, NoDup, BlkOf;
    Cons(i, same[blk]);
    PushLinked(refs, refs', false, bases[blk], same[blk], i);
    forall c | 0 <= c < NSIZES && c != blk ensures Linked(refs', false, bases[c], same[c]) {
      LinkedFrame(refs, refs', false, bases[c], same[c]);
    }
    var same' := same[blk := [i] + same[blk]];
    forall c | 0 <= c < NSIZES ensures OfSize(refs', [i] + all, c, same'[c]) { assert OfSize(refs, all, c, same[c]); }
  }

  lemma LinkedFrame(refs: seq<Ref>, refs': seq<Ref>, all: bool, base: int, list: seq<nat>)
    requires Linked(refs, all, base, list) && |refs'| == |refs|
    requires forall j :: j in list && j < |refs| ==> Link(refs'[j], all) == Link(refs[j], all)
    ensures Linked(refs', all, base, list)
  {
  }

  lemma NewOwned(h: Heap, h': Heap, b: Book, i: nat, page: nat, blk: nat, list: seq<nat>)
    requires Sound(h, b) && Brought(h, h', b, i, page, blk, list) && Shaped(h', NewBook(b, i, page, blk, list)) &&
             i !in b.all
    ensures Owned(h', NewBook(b, i, page, blk, list))
  {
    hide PageOk, PagesOk, PageOf, Listed, FlipsBit, Owned, SameOn;
    AddSub(h, h', b, NewBook(b, i, page, blk, list), i, page);
  }

  lemma AddSub(h: Heap, h': Heap, b: Book, b': Book, i: nat, page: nat)
    requires Shaped(h, b) && Shaped(h', b') && Owned(h, b) && i < NPAGEREFS && i !in b.all && b'.all == [i] + b.all &&
             page !in b.own
    requires b'.own == b.own[page := Sub(i)] && b'.big == b.big && h'.refs == h.refs[i := h'.refs[i]] &&
             PageOf(h'.refs[i].pab) == page
    requires b'.live == b.live
    ensures Owned(h', b')
  {
    hide PageOf, OwnersOk, SubsOk, BigsOk, LivesOk;
    NewOwners(h, h', b, b', i, page);
    NewSubs(h.refs, h'.refs, b.all, b.own, i, page);
    BigsMono(b, b');
    LivesMono(b.live, b'.live, b.own, b'.own);
  }

  lemma NewOwners(h: Heap, h': Heap, b: Book, b': Book, i: nat, page: nat)
    requires Shaped(h, b) && Shaped(h', b') && OwnersOk(h, b) && i < NPAGEREFS && i !in b.all && b'.all == [i] + b.all
    requires b'.own == b.own[page := Sub(i)] && b'.big == b.big && h'.refs == h.refs[i := h'.refs[i]] &&
             PageOf(h'.refs[i].pab) == page
    ensures OwnersOk(h', b')
  {
    hide PageOf, PageIn;
    forall p | p in b'.own ensures OwnedOk(h', b', p, b'.own[p]) {
      if p != page { assert OwnedOk(h, b, p, b.own[p]); }
    }
  }

  lemma NewSubs(refs: seq<Ref>, refs': seq<Ref>, all: seq<nat>, own: map<nat, Owner>, i: nat, page: nat)
    requires SubsOk(refs, all, own) && i < |refs| == |refs'| && i !in all && refs' == refs[i := refs'[i]] &&
             page !in own
    requires PageOf(refs'[i].pab) == page
    ensures SubsOk(refs', [i] + all, own[page := Sub(i)])
  {
    hide PageOf;
  }

  /** Whole-page allocations keep what they have as long as their pages keep their owner. */
  lemma BigsMono(b: Book, b': Book)
    requires BigsOk(b)
    requires forall c :: c in b'.big ==>
               c in b.big && b'.big[c] == b.big[c] && (c in b.live ==> c in b'.live && b'.live[c] == b.live[c])
    requires forall p :: p in b.own && b.own[p].Big? && b.own[p].base in b'.big ==> p in b'.own && b'.own[p] == b.own[p]
    ensures BigsOk(b')
  {
    hide PageIn;
    forall c | c in b'.big ensures BigOk(b', c) { assert BigOk(b, c); }
  }

  lemma LivesMono(live: map<nat, nat>, live': map<nat, nat>, own: map<nat, Owner>, own': map<nat, Owner>)
    requires LivesOk(live, own)
    requires forall a :: a in live' ==> a in live
    requires forall a :: a in live' && PageOf(a) in own ==> PageOf(a) in own' && own'[PageOf(a)] == own[PageOf(a)]
    ensures LivesOk(live', own')
  {
    hide PageOf;
  }

  lemma NewPages(h: Heap, h': Heap, b: Book, i: nat, page: nat, blk: nat, list: seq<nat>)
    requires Sound(h, b) && Brought(h, h', b, i, page, blk, list) && Shaped(h', NewBook(b, i, page, blk, list))
    ensures PagesOk(h', NewBook(b, i, page, blk, list))
  {
    var b' := NewBook(b, i, page, blk, list);
    hide PageOk, PageOf, Listed, FlipsBit, PageIn, BigOk, OwnedOk;
    forall j | j in b'.all && j < NPAGEREFS ensures PageOk(h'.refs[j], h'.mem, b'.free[j], b'.live) {
      if j != i { PageFrame(h.refs[j], h.mem, h'.mem, b.free[j], b.live, b.live); }
    }
  }

  // ---- an empty page

  function DropBook(b: Book, page: nat, blk: nat, ks: nat, ka: nat): Book
    requires blk < |b.same| && ks < |b.same[blk]| && ka < |b.all|
  {
    b.(all := Cut(b.all, ka), same := b.same[blk := Cut(b.same[blk], ks)], own := b.own - {page})
  }

  /** Reference i has been taken off its two lists and given back. */
  ghost predicate Dropped(h: Heap, h': Heap, b: Book, i: nat, blk: nat, ks: nat, ka: nat)
    requires Shaped(h, b)
  {
    && blk < NSIZES && ks < |b.same[blk]| && ka < |b.all| && b.same[blk][ks] == i && b.all[ka] == i && i < NPAGEREFS
    && BlkOf(h.refs[i].pab) == blk
    && |h'.refs| == NPAGEREFS && |h'.inuse| == INUSE_WORDS && FlipsBit(h.inuse, h'.inuse, i, false)
    && |h'.bases| == NSIZES && h'.bases == h.bases[blk := h'.bases[blk]] && h'.mem == h.mem
    && Linked(h'.refs, true, h'.allbase, Cut(b.all, ka)) && Linked(h'.refs, false, h'.bases[blk], Cut(b.same[blk], ks))
    && (forall j :: 0 <= j < NPAGEREFS ==> SameBlocks(h.refs[j], h'.refs[j]))
    && (forall j :: 0 <= j < NPAGEREFS && j !in b.same[blk] ==> h'.refs[j].nextSame == h.refs[j].nextSame)
  }

  predicate SameBlocks(r: Ref, r': Ref) { r'.pab == r.pab && r'.offset == r.offset && r'.nfree == r.nfree }

  lemma DroppedKeeps(h: Heap, h': Heap, b: Book, i: nat, blk: nat, ks: nat, ka: nat)
    requires Sound(h, b) && Dropped(h, h', b, i, blk, ks, ka) && forall a :: a in b.live ==>
               PageOf(a) != PageOf(h.refs[i].pab)
    ensures Sound(h', DropBook(b, PageOf(h.refs[i].pab), blk, ks, ka))
  {
    var page := PageOf(h.refs[i].pab);
    hide PagesOk, Owned, PageOf, Linked, NoDup, InUse;
    DropListed(h, h', b, i, blk, ks, ka);
    CutMembers(b.all, ka);
    hide Listed, Cut;
    DropOwned(h, h', b, i, page, DropBook(b, page, blk, ks, ka));
    DropPages(h, h', b, DropBook(b, page, blk, ks, ka));
  }

  lemma DropListed(h: Heap, h': Heap, b: Book, i: nat, blk: nat, ks: nat, ka: nat)
    requires Sound(h, b) && Dropped(h, h', b, i, blk, ks, ka)
    ensures var b' := DropBook(b, PageOf(h.refs[i].pab), blk, ks, ka); Shaped(h', b') && Listed(h', b')
    ensures NoDup(b.all)
  {
    hide PagesOk, Owned, PageOf, Linked, NoDup, InUse, BlkOf, Cut;
    assert NoDup(b.same[blk]);
    CutMembers(b.all, ka);
    CutMembers(b.same[blk], ks);
    assert AllOk(h'.refs, h'.inuse, h'.allbase, Cut(b.all, ka)) by { hide SameOk, BySize; }
    hide AllOk;
    DropSame(h.refs, h'.refs, h.bases, h'.bases, b.all, b.same, i, blk, Cut(b.all, ka), Cut(b.same[blk], ks));
    hide SameOk, BySize;
  }

  lemma DropSame(refs: seq<Ref>, refs': seq<Ref>, bases: seq<int>, bases': seq<int>, all: seq<nat>, same: seq<seq<nat>>,
                 i: nat, blk: nat, all': seq<nat>, list: seq<nat>)
    requires |refs| == |refs'| == NPAGEREFS && |bases| == |bases'| == |same| == NSIZES && blk < NSIZES && i < NPAGEREFS
    requires SameOk(refs, bases, same) && BySize(refs, all, same) && bases' == bases[blk := bases'[blk]] &&
             BlkOf(refs[i].pab) == blk
    requires Linked(refs', false, bases'[blk], list) && NoDup(list)
    requires forall x :: x in list <==> x in same[blk] && x != i
    requires forall x :: x in all' <==> x in all && x != i
    requires forall j :: 0 <= j < NPAGEREFS ==> refs'[j].pab == refs[j].pab
    requires forall j :: 0 <= j < NPAGEREFS && j !in same[blk] ==> refs'[j].nextSame == refs[j].nextSame
    ensures SameOk(refs', bases', same[blk := list]) && BySize(refs', all', same[blk := list])
  {
    hide Linked, NoDup, BlkOf;
    forall c | 0 <= c < NSIZES && c != blk ensures Linked(refs', false, bases'[c], same[c]) {
      assert OfSize(refs, all, c, same[c]) && OfSize(refs, all, blk, same[blk]);
      LinkedFrame(refs, refs', false, bases[c], same[c]);
    }
    var same' := same[blk := list];
    forall c | 0 <= c < NSIZES ensures OfSize(refs', all', c, same'[c]) { assert OfSize(refs, all, c, same[c]); }
  }

  lemma DropOwned(h: Heap, h': Heap, b: Book, i: nat, page: nat, b': Book)
    requires Sound(h, b) && Shaped(h', b') && i in b.all && i < NPAGEREFS && page == PageOf(h.refs[i].pab)
    requires forall j :: 0 <= j < NPAGEREFS ==> SameBlocks(h.refs[j], h'.refs[j])
    requires forall j :: j in b'.all <==> j in b.all && j != i
    requires b'.live == b.live && b'.big == b.big && b'.own == b.own - {page} && forall a :: a in b.live ==>
               PageOf(a) != page
    ensures Owned(h', b')
  {
    hide PageOk, PagesOk, PageOf, Listed, OwnersOk, SubsOk, BigsOk, LivesOk;
    PageIs(h, b, i);
    DropOwners(h, h', b, b', i, page);
    DropSubs(h.refs, h'.refs, b.all, b'.all, b.own, i, page);
    BigsMono(b, b');
    LivesMono(b.live, b'.live, b.own, b'.own);
  }

  lemma DropOwners(h: Heap, h': Heap, b: Book, b': Book, i: nat, page: nat)
    requires Shaped(h, b) && Shaped(h', b') && OwnersOk(h, b) && b'.own == b.own - {page} && b'.big == b.big
    requires i < NPAGEREFS && page == PageOf(h.refs[i].pab) && page in b.own && b.own[page] == Sub(i)
    requires forall j :: 0 <= j < NPAGEREFS ==> SameBlocks(h.refs[j], h'.refs[j])
    requires forall j :: j in b'.all <==> j in b.all && j != i
    ensures OwnersOk(h', b')
  {
    hide PageOf, PageIn;
    forall p | p in b'.own ensures OwnedOk(h', b', p, b'.own[p]) { assert OwnedOk(h, b, p, b.own[p]); }
  }

  lemma DropSubs(refs: seq<Ref>, refs': seq<Ref>, all: seq<nat>, all': seq<nat>, own: map<nat, Owner>, i: nat,
                 page: nat)
    requires SubsOk(refs, all, own) && |refs| == |refs'| && i < |refs| && page in own && own[page] == Sub(i)
    requires forall j :: 0 <= j < |refs| ==> SameBlocks(refs[j], refs'[j])
    requires forall j :: j in all' <==> j in all && j != i
    ensures SubsOk(refs', all', own - {page})
  {
    hide PageOf;
    forall j | j in all' && j < |refs'|
      ensures PageOf(refs'[j].pab) in own - {page} && (own - {page})[PageOf(refs'[j].pab)] == Sub(j)
    {
      assert SameBlocks(refs[j], refs'[j]);
    }
  }

  lemma DropPages(h: Heap, h': Heap, b: Book, b': Book)
    requires Sound(h, b) && Shaped(h', b') && h'.mem == h.mem && b'.free == b.free && b'.live == b.live
    requires forall j :: 0 <= j < NPAGEREFS ==> SameBlocks(h.refs[j], h'.refs[j])
    requires forall j :: j in b'.all ==> j in b.all
    ensures PagesOk(h', b')
  {
    hide PageOf, Listed, Owned, Filled;
    forall j | j in b'.all && j < NPAGEREFS ensures PageOk(h'.refs[j], h'.mem, b'.free[j], b'.live) {
      assert PageOk(h.refs[j], h.mem, b.free[j], b.live) && SameBlocks(h.refs[j], h'.refs[j]);
    }
  }

  // ---- whole-page allocations

  ghost function BigPages(base: nat, n: nat): (s: set<nat>)
    ensures forall p: nat :: p in s <==> PageIn(p, base, n)
  {
    set p: nat | base <= p < base + PAGE_SIZE * n && PageIn(p, base, n)
  }

  ghost function BigBook(b: Book, base: nat, n: nat, sz: nat): Book {
    b.(live := b.live[base := sz], big := b.big[base := n], own := b.own + map p | p in BigPages(base, n) :: Big(base))
  }

  /** Listed and PagesOk do not look at whole-page allocations. */
  lemma BigFrame(h: Heap, b: Book, b': Book)
    requires Sound(h, b) && b'.all == b.all && b'.same == b.same && b'.free == b.free && Owned(h, b')
    requires forall a :: a in b.live && a in b'.live ==> b.live[a] == b'.live[a]
    requires forall a :: (a in b.live) != (a in b'.live) ==> PageOf(a) !in b.own || b.own[PageOf(a)].Big?
    ensures Sound(h, b')
  {
    hide PageOk, PageOf, Owned;
    ListedFrame(h, h, b, b');
    hide Listed;
    forall i | i in b.all && i < NPAGEREFS ensures PageOk(h.refs[i], h.mem, b.free[i], b'.live) {
      PageIs(h, b, i);
      PageFrame(h.refs[i], h.mem, h.mem, b.free[i], b.live, b'.live);
    }
  }

  lemma NotLive(h: Heap, b: Book, a: nat)
    requires Sound(h, b) && PageOf(a) !in b.own
    ensures a !in b.live
  {
    hide Listed, PagesOk, OwnersOk, BigsOk, SubsOk, PageOf;
  }

  lemma BigKeeps(h: Heap, b: Book, base: nat, n: nat, sz: nat)
    requires Sound(h, b) && base > 0 && base % PAGE_SIZE == 0 && n > 0 && sz <= PAGE_SIZE * n &&
             forall p: nat :: PageIn(p, base, n) ==> p !in b.own
    ensures Sound(h, BigBook(b, base, n, sz)) && base !in b.live
  {
    hide Sound, Owned, Shaped, BigPages, PageOf;
    PageAgain(base, base);
    assert PageIn(base, base, n);
    hide PageIn;
    NotLive(h, b, base);
    OwnedIs(h, b);
    BigOwned(h, b, base, n, sz);
    BigFrame(h, b, BigBook(b, base, n, sz));
  }

  lemma OwnedIs(h: Heap, b: Book)
    requires Sound(h, b)
    ensures Shaped(h, b) && Owned(h, b)
  {
    hide Listed, PagesOk, Owned;
  }

  lemma BigOwned(h: Heap, b: Book, base: nat, n: nat, sz: nat)
    requires Shaped(h, b) && Owned(h, b) && base > 0 && base % PAGE_SIZE == 0 && n > 0 && sz <= PAGE_SIZE * n &&
             base !in b.live
    requires PageOf(base) == base && PageIn(base, base, n)
    requires forall p: nat :: PageIn(p, base, n) ==> p !in b.own
    ensures Owned(h, BigBook(b, base, n, sz))
  {
    var b' := BigBook(b, base, n, sz);
    hide BigPages, PageIn, PageOf;
    if base in b.big { BigIs(h, b, base); }
    hide OwnersOk, BigsOk, SubsOk, LivesOk;
    BigOwners(h, b, base, n, sz);
    BigBigs(b, base, n, sz);
    BigRest(h.refs, b, base, n, sz);
  }

  lemma BigOwners(h: Heap, b: Book, base: nat, n: nat, sz: nat)
    requires Shaped(h, b) && OwnersOk(h, b) && base !in b.big && forall p: nat :: PageIn(p, base, n) ==> p !in b.own
    ensures OwnersOk(h, BigBook(b, base, n, sz))
  {
    var b' := BigBook(b, base, n, sz);
    hide BigPages, PageIn, PageOf;
    forall p | p in b'.own ensures OwnedOk(h, b', p, b'.own[p]) { if p in b.own { assert OwnedOk(h, b, p, b.own[p]); } }
  }

  lemma BigBigs(b: Book, base: nat, n: nat, sz: nat)
    requires BigsOk(b) && base !in b.big && base !in b.live && base > 0 && base % PAGE_SIZE == 0 && n > 0 &&
             sz <= PAGE_SIZE * n
    requires forall p: nat :: PageIn(p, base, n) ==> p !in b.own
    ensures BigsOk(BigBook(b, base, n, sz))
  {
    var b' := BigBook(b, base, n, sz);
    hide BigPages, PageIn;
    forall c | c in b'.big ensures BigOk(b', c) { if c != base { assert BigOk(b, c); } }
  }

  lemma BigRest(refs: seq<Ref>, b: Book, base: nat, n: nat, sz: nat)
    requires SubsOk(refs, b.all, b.own) && LivesOk(b.live, b.own) && PageOf(base) == base && PageIn(base, base, n)
    requires forall p: nat :: PageIn(p, base, n) ==> p !in b.own
    ensures var b' := BigBook(b, base, n, sz); SubsOk(refs, b'.all, b'.own) && LivesOk(b'.live, b'.own)
  {
    hide BigPages, PageIn, PageOf;
  }

  ghost function FreeBook(b: Book, base: nat): Book
    requires base in b.big
  {
    b.(live := b.live - {base}, big := b.big - {base}, own := b.own - BigPages(base, b.big[base]))
  }

  lemma FreeKeeps(h: Heap, b: Book, base: nat)
    requires Sound(h, b) && base in b.big
    ensures Sound(h, FreeBook(b, base))
  {
    hide Sound, Owned, Shaped, BigPages, PageIn, PageOf, BigOk;
    OwnedIs(h, b);
    BigIs(h, b, base);
    PageAgain(base, base);
    InOwn(b, base);
    FreeOwned(h, b, base);
    BigFrame(h, b, FreeBook(b, base));
  }

  lemma BigIs(h: Heap, b: Book, base: nat)
    requires Shaped(h, b) && Owned(h, b) && base in b.big
    ensures BigOk(b, base) && base % PAGE_SIZE == 0 && base in b.live
  {
    hide OwnersOk, SubsOk, LivesOk, PageOf, PageIn;
    assert BigOk(b, base);
  }

  lemma InOwn(b: Book, base: nat)
    requires base in b.big && BigOk(b, base)
    ensures base in b.own && b.own[base] == Big(base)
  {
    assert PageIn(base, base, b.big[base]);
  }

  lemma FreeOwned(h: Heap, b: Book, base: nat)
    requires Shaped(h, b) && Owned(h, b) && base in b.big && BigOk(b, base) && PageOf(base) == base
    ensures Owned(h, FreeBook(b, base))
  {
    var b' := FreeBook(b, base);
    hide PageIn, PageOf, SubsOk, LivesOk;
    assert forall p :: p in BigPages(base, b.big[base]) ==> p in b.own && b.own[p] == Big(base);
    hide BigPages, BigOk;
    assert OwnersOk(h, b') by {
      hide BigsOk;
      forall p | p in b'.own ensures OwnedOk(h, b', p, b'.own[p]) {
        assert OwnedOk(h, b, p, b.own[p]);
      }
    }
    hide OwnersOk;
    BigsMono(b, b');
    FreeRest(h, b, base);
  }

  lemma FreeRest(h: Heap, b: Book, base: nat)
    requires base in b.big && SubsOk(h.refs, b.all, b.own) && LivesOk(b.live, b.own)
    requires forall p :: p in BigPages(base, b.big[base]) ==> p in b.own && b.own[p] == Big(base)
    ensures SubsOk(h.refs, FreeBook(b, base).all, FreeBook(b, base).own) &&
            LivesOk(FreeBook(b, base).live, FreeBook(b, base).own)
  {
    hide BigPages, PageOf;
    assert SubsOk(h.refs, FreeBook(b, base).all, FreeBook(b, base).own) by { hide LivesOk; }
    hide SubsOk;
    LivesMono(b.live, b.live - {base}, b.own, b.own - BigPages(base, b.big[base]));
  }
}
