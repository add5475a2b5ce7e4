/** What the pieces of subpage_kmalloc and subpage_kfree do to the state, and that they keep it sound. */
module KheapSteps {
  import opened Words
  import opened Bitmap
  import opened Lists
  import opened KheapState

  // ---- taking a block and putting one back

  lemma Tail(s: seq<nat>)
    requires s != [] && NoDup(s)
    ensures NoDup(s[1..]) && s[0] !in s[1..] && forall a :: a in s <==> a == s[0] || a in s[1..]
  {
    assert s == [s[0]] + s[1..];
  }

  lemma Cons(a: nat, s: seq<nat>)
    requires NoDup(s) && a !in s
    ensures NoDup([a] + s) && forall c :: c in [a] + s <==> c == a || c in s
  {
  }

  /** The reference after the first block of its free list is taken. */
  function TakenRef(r: Ref, next: nat): Ref
    requires r.nfree > 0 && (next != 0 ==> next >= PageOf(r.pab))
  {
    r.(nfree := r.nfree - 1, offset := if next != 0 then next - PageOf(r.pab) else INVALID_OFFSET)
  }

  lemma FirstFree(r: Ref, mem: map<nat, nat>, list: seq<nat>, live: map<nat, nat>)
    requires PageOk(r, mem, list, live) && r.nfree > 0
    ensures r.offset < PAGE_SIZE && r.nfree == |list| && list != [] && list[0] == PageOf(r.pab) + r.offset &&
            list[0] in mem && list[0] !in live && list[0] > 0
    ensures PageOf(list[0]) == PageOf(r.pab) && Slot(PageOf(r.pab), Size(BlkOf(r.pab)), list[0])
    ensures mem[list[0]] == After(list, 0)
    ensures |list| > 1 ==> PageOf(r.pab) <= list[1] < PageOf(r.pab) + PAGE_SIZE && list[1] > 0
  {
    hide NoDup;
    assert Slot(PageOf(r.pab), Size(BlkOf(r.pab)), list[0]);
    if |list| > 1 { assert Slot(PageOf(r.pab), Size(BlkOf(r.pab)), list[1]); }
    PageAgain(PageOf(r.pab), list[0]);
  }

  lemma TakePage(r: Ref, mem: map<nat, nat>, list: seq<nat>, live: map<nat, nat>, sz: nat)
    requires PageOk(r, mem, list, live) && r.nfree > 0 && sz <= Size(BlkOf(r.pab))
    requires list != [] && list[0] in mem && (mem[list[0]] != 0 ==> mem[list[0]] >= PageOf(r.pab))
    ensures PageOk(TakenRef(r, mem[list[0]]), mem, list[1..], live[list[0] := sz])
  {
    FirstFree(r, mem, list, live);
    hide NoDup, PageOf, Size, BlkOf;
    TakeChain(r, mem, list);
    TakeFilled(PageOf(r.pab), Size(BlkOf(r.pab)), list, live, sz);
  }

  lemma TakeChain(r: Ref, mem: map<nat, nat>, list: seq<nat>)
    requires Chained(r, mem, list) && list != [] && list[0] in mem && mem[list[0]] == After(list, 0)
    requires |list| > 1 ==> list[1] >= PageOf(r.pab) && list[1] > 0
    ensures Chained(TakenRef(r, mem[list[0]]), mem, list[1..])
  {
    hide PageOf;
    var l := list[1..];
    forall k | 0 <= k < |l| ensures l[k] in mem && mem[l[k]] == After(l, k) {
      assert l[k] == list[k + 1];
      assert After(l, k) == After(list, k + 1);
    }
  }

  lemma TakeFilled(page: nat, sz: nat, list: seq<nat>, live: map<nat, nat>, n: nat)
    requires sz > 0 && Filled(page, sz, list, live) && list != [] && n <= sz
    ensures Filled(page, sz, list[1..], live[list[0] := n])
  {
    Tail(list);
    hide NoDup, PageOf, Slot;
  }

  function PutRef(r: Ref, a: nat): Ref
    requires a >= PageOf(r.pab)
  {
    r.(nfree := r.nfree + 1, offset := a - PageOf(r.pab))
  }

  /** Outside the block nothing changed. */
  ghost predicate OnlyBlock(mem: map<nat, nat>, mem': map<nat, nat>, a: nat, sz: nat) {
    forall x: nat :: !(a <= x < a + sz) ==> SameOn(mem, mem', x)
  }

  lemma PutPage(r: Ref, mem: map<nat, nat>, mem': map<nat, nat>, list: seq<nat>, live: map<nat, nat>, a: nat)
    requires PageOk(r, mem, list, live) && a in live && PageOf(a) == PageOf(r.pab)
    requires OnlyBlock(mem, mem', a, Size(BlkOf(r.pab))) && a in mem'
    requires mem'[a] == if r.offset == INVALID_OFFSET then 0 else PageOf(r.pab) + r.offset
    ensures PageOk(PutRef(r, a), mem', [a] + list, live - {a})
  {
    var p, sz := PageOf(r.pab), Size(BlkOf(r.pab));
    assert Slot(p, sz, a);
    Cons(a, list);
    hide NoDup, PageOf, Size, BlkOf;
    forall k | 0 <= k < |list| ensures SameOn(mem, mem', list[k]) {
      assert Slot(p, sz, list[k]);
      if a < list[k] { SlotsApart(p, sz, a, list[k]); }
    }
    forall k | 0 <= k < |list| ensures p <= list[k] < p + PAGE_SIZE { assert Slot(p, sz, list[k]); }
    PutChain(r, mem, mem', list, a);
    assert Filled(p, sz, [a] + list, live - {a});
  }

  lemma PutChain(r: Ref, mem: map<nat, nat>, mem': map<nat, nat>, list: seq<nat>, a: nat)
    requires Chained(r, mem, list) && a >= PageOf(r.pab) && a in mem' && forall k :: 0 <= k < |list| ==>
               SameOn(mem, mem', list[k])
    requires forall k :: 0 <= k < |list| ==> PageOf(r.pab) <= list[k] < PageOf(r.pab) + PAGE_SIZE
    requires mem'[a] == if r.offset == INVALID_OFFSET then 0 else PageOf(r.pab) + r.offset
    ensures Chained(PutRef(r, a), mem', [a] + list)
  {
    hide PageOf;
    var l := [a] + list;
    forall k | 0 <= k < |l| ensures l[k] in mem' && mem'[l[k]] == After(l, k) {
      if k > 0 { assert l[k] == list[k - 1] && SameOn(mem, mem', list[k - 1]) && After(l, k) == After(list, k - 1); }
    }
  }

  lemma TakeKeeps(h: Heap, h': Heap, b: Book, i: nat, sz: nat)
    requires Sound(h, b) && i in b.all && i < NPAGEREFS && h.refs[i].nfree > 0 && sz <= Size(BlkOf(h.refs[i].pab))
    requires b.free[i] != [] && b.free[i][0] in h.mem &&
             (h.mem[b.free[i][0]] != 0 ==> h.mem[b.free[i][0]] >= PageOf(h.refs[i].pab))
    requires h' == h.(refs := h.refs[i := TakenRef(h.refs[i], h.mem[b.free[i][0]])])
    ensures Sound(h', b.(free := b.free[i := b.free[i][1..]], live := b.live[b.free[i][0] := sz]))
  {
    var b', r := b.(free := b.free[i := b.free[i][1..]], live := b.live[b.free[i][0] := sz]), h.refs[i];
    PageIs(h, b, i);
    FirstFree(r, h.mem, b.free[i], b.live);
    TakePage(r, h.mem, b.free[i], b.live, sz);
    ShapedIs(h, b);
    hide Sound, PageOk, Shaped;
    TakeOnPage(h, h', b, i, sz);
    OnPageKeeps(h, h', b, b', i);
  }

  lemma TakeOnPage(h: Heap, h': Heap, b: Book, i: nat, sz: nat)
    requires Shaped(h, b) && i < NPAGEREFS && h.refs[i].nfree > 0 && b.free[i] != [] &&
             PageOf(b.free[i][0]) == PageOf(h.refs[i].pab)
    requires b.free[i][0] in h.mem && (h.mem[b.free[i][0]] != 0 ==> h.mem[b.free[i][0]] >= PageOf(h.refs[i].pab))
    requires h' == h.(refs := h.refs[i := TakenRef(h.refs[i], h.mem[b.free[i][0]])])
    ensures OnPage(h, h', b, b.(free := b.free[i := b.free[i][1..]], live := b.live[b.free[i][0] := sz]), i)
  {
    hide PageOf;
  }

  lemma PutKeeps(h: Heap, h': Heap, b: Book, i: nat, a: nat)
    requires Sound(h, b) && i in b.all && i < NPAGEREFS && a in b.live && PageOf(a) == PageOf(h.refs[i].pab)
    requires h' == h.(refs := h.refs[i := PutRef(h.refs[i], a)], mem := h'.mem) &&
             OnlyBlock(h.mem, h'.mem, a, Size(BlkOf(h.refs[i].pab)))
    requires a in h'.mem && h'.mem[a] == if h.refs[i].offset == INVALID_OFFSET then 0
               else PageOf(h.refs[i].pab) + h.refs[i].offset
    ensures Sound(h', b.(free := b.free[i := [a] + b.free[i]], live := b.live - {a}))
  {
    var b', r := b.(free := b.free[i := [a] + b.free[i]], live := b.live - {a}), h.refs[i];
    PageIs(h, b, i);
    PutPage(r, h.mem, h'.mem, b.free[i], b.live, a);
    BlockInside(r, h.mem, b.free[i], b.live, a);
    ShapedIs(h, b);
    hide Sound, PageOk, Shaped, Size, BlkOf, PageOf;
    PutOnPage(h, h', b, i, a, Size(BlkOf(r.pab)));
    OnPageKeeps(h, h', b, b', i);
  }

  lemma PutOnPage(h: Heap, h': Heap, b: Book, i: nat, a: nat, sz: nat)
    requires Shaped(h, b) && i < NPAGEREFS && PageOf(h.refs[i].pab) <= a && a + sz <= PageOf(h.refs[i].pab) + PAGE_SIZE
    requires h' == h.(refs := h.refs[i := PutRef(h.refs[i], a)], mem := h'.mem) && OnlyBlock(h.mem, h'.mem, a, sz) &&
             PageOf(a) == PageOf(h.refs[i].pab)
    ensures OnPage(h, h', b, b.(free := b.free[i := [a] + b.free[i]], live := b.live - {a}), i)
  {
    hide PageOf;
    forall x: nat | PageOf(x) != PageOf(h.refs[i].pab)
      ensures SameOn(h.mem, h'.mem, x) && SameOn(b.live, b.live - {a}, x)
    {
      if a <= x < a + sz { PageAgain(PageOf(h.refs[i].pab), x); }
    }
  }

  lemma BlockInside(r: Ref, mem: map<nat, nat>, list: seq<nat>, live: map<nat, nat>, a: nat)
    requires PageOk(r, mem, list, live) && a in live && PageOf(a) == PageOf(r.pab)
    ensures PageOf(r.pab) <= a && a + Size(BlkOf(r.pab)) <= PageOf(r.pab) + PAGE_SIZE &&
            Slot(PageOf(r.pab), Size(BlkOf(r.pab)), a)
  {
    hide NoDup, Chained;
    SlotFits(PageOf(r.pab), Size(BlkOf(r.pab)), a);
  }

  lemma ShapedIs(h: Heap, b: Book)
    requires Sound(h, b)
    ensures Shaped(h, b)
  {
    hide Listed, Owned, PagesOk;
  }

  lemma PageIs(h: Heap, b: Book, i: nat)
    requires Sound(h, b) && i in b.all && i < NPAGEREFS
    ensures PageOk(h.refs[i], h.mem, b.free[i], b.live) && PageOf(h.refs[i].pab) in b.own &&
            b.own[PageOf(h.refs[i].pab)] == Sub(i)
  {
    hide Listed, PageOk, BigOk, OwnedOk;
  }

  // ---- a page is all free exactly when nothing on it is live

  /** Where block k of a page begins */
  function At(page: nat, sz: nat, k: nat): nat { page + k * sz }

  function SlotSet(page: nat, sz: nat, n: nat): (s: set<nat>)
    requires sz > 0
    ensures |s| == n && forall a :: a in s ==> page <= a < At(page, sz, n)
  {
    if n == 0 then {} else
      assert n * sz == (n - 1) * sz + sz;
      SlotSet(page, sz, n - 1) + {At(page, sz, n - 1)}
  }

  lemma {:induction false} SlotInSet(page: nat, sz: nat, n: nat, k: nat)
    requires sz > 0 && k < n
    ensures At(page, sz, k) in SlotSet(page, sz, n)
  {
    hide At;
    if k < n - 1 { SlotInSet(page, sz, n - 1, k); }
  }

  lemma {:induction false} SetSlots(page: nat, sz: nat, n: nat, a: nat)
    requires sz > 0 && a in SlotSet(page, sz, n)
    ensures a >= page && (a - page) % sz == 0
  {
    if a != page + (n - 1) * sz { SetSlots(page, sz, n - 1, a); } else { Mod(n - 1, sz); }
  }

  lemma Mod(k: nat, m: nat)
    requires m > 0
    ensures (k * m) % m == 0
  {
    var a := k * m;
    var q := a / m;
    assert a == m * q + a % m;
    if q < k { Scale(m, q + 1, k); }
    if q > k { Scale(m, k + 1, q); }
  }

  lemma Subset(x: set<nat>, y: set<nat>)
    requires x <= y
    ensures |x| <= |y| && (|x| == |y| ==> x == y)
  {
    assert y == x + (y - x);
    assert x != y ==> y - x != {};
  }

  lemma AllFree(page: nat, sz: nat, n: nat, list: seq<nat>, live: map<nat, nat>)
    requires sz > 0 && n * sz == PAGE_SIZE && page % PAGE_SIZE == 0 && Filled(page, sz, list, live)
    ensures |list| <= n
    ensures |list| == n <==> forall a :: a in live ==> PageOf(a) != page
  {
    var free, slots := Elems(list), SlotSet(page, sz, n);
    assert forall a :: Slot(page, sz, a) <==> a in slots by {
      forall a | Slot(page, sz, a) ensures a in slots { SlotIndex(page, sz, n, a); }
      forall a | a in slots ensures Slot(page, sz, a) { SetSlots(page, sz, n, a); }
    }
    hide NoDup, SlotSet, Slot;
    Subset(free, slots);
    if |list| == n {
      forall a | a in live ensures PageOf(a) != page { assert a in slots ==> a in list; }
    }
    if forall a :: a in live ==> PageOf(a) != page {
      forall a | a in slots ensures a in free { PageSlot(page, sz, a); }
      assert free == slots;
    }
  }

  lemma PageSlot(page: nat, sz: nat, a: nat)
    requires sz > 0 && page % PAGE_SIZE == 0 && Slot(page, sz, a)
    ensures PageOf(a) == page
  {
    PageAgain(page, a);
  }

  lemma SlotIndex(page: nat, sz: nat, n: nat, a: nat)
    requires sz > 0 && n * sz == PAGE_SIZE && Slot(page, sz, a)
    ensures a in SlotSet(page, sz, n)
  {
    var k := (a - page) / sz;
    assert a - page == sz * k;
    if k >= n { Scale(sz, n, k); }
    SlotInSet(page, sz, n, k);
  }
}
