/** Model of the page allocator, kern/vm/coremap.c, from coremap_bootstrap on. The pages handed out before that by
    ram_stealmem, and what the machine reports about its memory, are parameters. */
module Coremap {
  import opened Words
  import opened Lists

  const PAGE_SIZE: nat := 4096
  /** struct coremap_entry; its paddr is firstaddr plus PAGE_SIZE times its index */
  datatype Entry = Entry(use: bool, size: int)

  const FREE := Entry(false, 0)
  const TAIL := Entry(true, -1)

  /** What getppages does: return an address, 0 for none, or read cm[cm_size]. */
  datatype Got = Addr(a: nat) | OffEnd

  // ---- the map as a value

  predicate FreeRun(cm: seq<Entry>, s: nat, n: nat) {
    s + n <= |cm| && forall i :: s <= i < s + n ==> !cm[i].use
  }

  predicate Block(cm: seq<Entry>, h: nat, n: nat) {
    0 < n && h + n <= |cm| && cm[h] == Entry(true, n) && forall i :: h < i < h + n ==> cm[i] == TAIL
  }

  predicate Covers(h: nat, n: nat, i: int) { h <= i < h + n }

  predicate Apart(h: nat, n: nat, g: nat, m: nat) { h + n <= g || g + m <= h }

  predicate FixedOk(cm: seq<Entry>, fixed: nat) { fixed <= |cm| && forall i :: 0 <= i < fixed ==> cm[i] == TAIL }

  ghost predicate BlocksOk(cm: seq<Entry>, fixed: nat, blocks: map<nat, nat>) {
    forall h :: h in blocks ==> fixed <= h && Block(cm, h, blocks[h])
  }

  ghost predicate AllApart(blocks: map<nat, nat>) {
    forall h, g :: h in blocks && g in blocks && h != g ==> Apart(h, blocks[h], g, blocks[g])
  }

  ghost predicate CoveredOk(cm: seq<Entry>, fixed: nat, blocks: map<nat, nat>) {
    forall i :: fixed <= i < |cm| ==> cm[i] == FREE || exists h :: h in blocks && Covers(h, blocks[h], i)
  }

  /** The map is the fixed frames, then free frames and the live blocks, which do not overlap. */
  ghost predicate Decomposed(cm: seq<Entry>, fixed: nat, blocks: map<nat, nat>) {
    FixedOk(cm, fixed) && BlocksOk(cm, fixed, blocks) && AllApart(blocks) && CoveredOk(cm, fixed, blocks)
  }

  function Claimed(cm: seq<Entry>, k: nat, n: nat): (r: seq<Entry>)
    requires 0 < n && k + n <= |cm|
    ensures |r| == |cm|
    ensures forall i :: 0 <= i < |cm| ==>
              r[i] == if i == k then Entry(true, n) else if k < i < k + n then TAIL else cm[i]
  {
    cm[..k] + [Entry(true, n)] + Rep(TAIL, n - 1) + cm[k + n..]
  }

  function Released(cm: seq<Entry>, k: nat, n: nat): (r: seq<Entry>)
    requires k + n <= |cm|
    ensures |r| == |cm| && forall i :: 0 <= i < |cm| ==> r[i] == if k <= i < k + n then FREE else cm[i]
  {
    cm[..k] + Rep(FREE, n) + cm[k + n..]
  }

  lemma BlockMisses(cm: seq<Entry>, h: nat, m: nat, k: nat, n: nat)
    requires Block(cm, h, m) && FreeRun(cm, k, n) && n > 0
    ensures Apart(h, m, k, n)
  {
    var i := if h < k then k else h;
    assert h <= i < h + m ==> cm[i].use;
  }

  /** A free run meets no block and no fixed frame, and its frames are all free with size 0. */
  lemma RunFree(cm: seq<Entry>, fixed: nat, blocks: map<nat, nat>, k: nat, n: nat)
    requires Decomposed(cm, fixed, blocks) && FreeRun(cm, k, n) && n > 0
    ensures fixed <= k && k !in blocks && (forall i :: k <= i < k + n ==> cm[i] == FREE)
    ensures forall h :: h in blocks ==> Apart(h, blocks[h], k, n)
  {
    assert !cm[k].use;
    forall h | h in blocks ensures Apart(h, blocks[h], k, n) && blocks[h] > 0 {
      hide CoveredOk, AllApart;
      assert Block(cm, h, blocks[h]);
      BlockMisses(cm, h, blocks[h], k, n);
    }
    hide AllApart, BlocksOk;
  }

  lemma ClaimKeeps(cm: seq<Entry>, fixed: nat, blocks: map<nat, nat>, k: nat, n: nat)
    requires Decomposed(cm, fixed, blocks) && FreeRun(cm, k, n) && n > 0
    ensures Decomposed(Claimed(cm, k, n), fixed, blocks[k := n]) && k !in blocks
  {
    RunFree(cm, fixed, blocks, k, n);
    hide Claimed, FreeRun, CoveredOk, AllApart, BlocksOk;
    ClaimBlocks(cm, fixed, blocks, k, n);
    ClaimApart(blocks, k, n);
    ClaimCovered(cm, fixed, blocks, k, n);
  }

  lemma ClaimBlocks(cm: seq<Entry>, fixed: nat, blocks: map<nat, nat>, k: nat, n: nat)
    requires BlocksOk(cm, fixed, blocks) && k + n <= |cm| && n > 0 && fixed <= k && k !in blocks
    requires forall h :: h in blocks ==> Apart(h, blocks[h], k, n)
    ensures BlocksOk(Claimed(cm, k, n), fixed, blocks[k := n])
  {
    var cm', blocks' := Claimed(cm, k, n), blocks[k := n];
    hide Claimed;
    forall h | h in blocks' ensures Block(cm', h, blocks'[h]) {
      if h != k { assert Block(cm, h, blocks[h]) && Apart(h, blocks[h], k, n); }
    }
  }

  lemma ClaimApart(blocks: map<nat, nat>, k: nat, n: nat)
    requires AllApart(blocks) && forall h :: h in blocks ==> Apart(h, blocks[h], k, n)
    ensures AllApart(blocks[k := n])
  {
  }

  lemma ClaimCovered(cm: seq<Entry>, fixed: nat, blocks: map<nat, nat>, k: nat, n: nat)
    requires CoveredOk(cm, fixed, blocks) && k + n <= |cm| && n > 0 && k !in blocks
    ensures CoveredOk(Claimed(cm, k, n), fixed, blocks[k := n])
  {
    var cm', blocks' := Claimed(cm, k, n), blocks[k := n];
    hide Claimed;
    forall i | fixed <= i < |cm'| ensures cm'[i] == FREE || exists h :: h in blocks' && Covers(h, blocks'[h], i) {
      if k <= i < k + n { assert Covers(k, blocks'[k], i); } else { Uncovered(cm, fixed, blocks, blocks', i); }
    }
  }

  /** A frame a block covers is still covered by it. */
  lemma Uncovered(cm: seq<Entry>, fixed: nat, blocks: map<nat, nat>, blocks': map<nat, nat>, i: nat)
    requires CoveredOk(cm, fixed, blocks) && fixed <= i < |cm|
    requires forall h :: h in blocks && Covers(h, blocks[h], i) ==> h in blocks' && blocks'[h] == blocks[h]
    ensures cm[i] == FREE || exists h :: h in blocks' && Covers(h, blocks'[h], i)
  {
    if cm[i] != FREE {
      var h :| h in blocks && Covers(h, blocks[h], i);
      assert h in blocks' && Covers(h, blocks'[h], i);
    }
  }

  lemma ReleaseKeeps(cm: seq<Entry>, fixed: nat, blocks: map<nat, nat>, k: nat)
    requires Decomposed(cm, fixed, blocks) && k in blocks
    ensures k + blocks[k] <= |cm| && Decomposed(Released(cm, k, blocks[k]), fixed, blocks - {k})
  {
    assert Block(cm, k, blocks[k]) && fixed <= k;
    hide Released, CoveredOk;
    ReleaseBlocks(cm, fixed, blocks, k);
    assert AllApart(blocks - {k}) by { hide BlocksOk; }
    hide AllApart, BlocksOk;
    ReleaseCovered(cm, fixed, blocks, k);
  }

  lemma ReleaseBlocks(cm: seq<Entry>, fixed: nat, blocks: map<nat, nat>, k: nat)
    requires BlocksOk(cm, fixed, blocks) && AllApart(blocks) && k in blocks && k + blocks[k] <= |cm|
    ensures BlocksOk(Released(cm, k, blocks[k]), fixed, blocks - {k})
  {
    var cm', blocks' := Released(cm, k, blocks[k]), blocks - {k};
    hide Released;
    forall h | h in blocks' ensures Block(cm', h, blocks'[h]) {
      assert Block(cm, h, blocks[h]) && Apart(h, blocks[h], k, blocks[k]);
    }
  }

  lemma ReleaseCovered(cm: seq<Entry>, fixed: nat, blocks: map<nat, nat>, k: nat)
    requires CoveredOk(cm, fixed, blocks) && k in blocks && k + blocks[k] <= |cm|
    ensures CoveredOk(Released(cm, k, blocks[k]), fixed, blocks - {k})
  {
    var cm', blocks' := Released(cm, k, blocks[k]), blocks - {k};
    hide Released;
    forall i | fixed <= i < |cm'| ensures cm'[i] == FREE || exists h :: h in blocks' && Covers(h, blocks'[h], i) {
      if !Covers(k, blocks[k], i) { Uncovered(cm, fixed, blocks, blocks', i); }
    }
  }

  /** ungetppages undoes getppages exactly. */
  lemma Undone(cm: seq<Entry>, fixed: nat, blocks: map<nat, nat>, k: nat, n: nat)
    requires Decomposed(cm, fixed, blocks) && FreeRun(cm, k, n) && n > 0
    ensures Released(Claimed(cm, k, n), k, n) == cm && blocks[k := n] - {k} == blocks
  {
    RunFree(cm, fixed, blocks, k, n);
    ClaimKeeps(cm, fixed, blocks, k, n);
    hide Claimed, Released, Decomposed;
    assert Released(Claimed(cm, k, n), k, n) == cm;
  }

  /** A run fits somewhere. */
  ghost predicate Fits(cm: seq<Entry>, n: nat) { exists s: nat :: FreeRun(cm, s, n) }

  class Coremap {
    const firstaddr: nat
    const cm: array<Entry>
    var ram: seq<byte>
    ghost var fixed: nat
    ghost var blocks: map<nat, nat>

    ghost predicate Valid()
      reads this, cm
    {
      && firstaddr > 0 && firstaddr % PAGE_SIZE == 0 && firstaddr + PAGE_SIZE * cm.Length < U32
      && |ram| == PAGE_SIZE * cm.Length && Decomposed(cm[..], fixed, blocks)
    }

    /** coremap_bootstrap; memory is from lo to hi and what lies below free is in use by then */
    constructor (lo: nat, hi: nat, free: nat, contents: seq<byte>)
      requires 0 < lo <= hi < U32 && lo % PAGE_SIZE == 0 && |contents| == PAGE_SIZE * ((hi - lo) / PAGE_SIZE)
      ensures Valid() && fresh(cm) && firstaddr == lo && cm.Length == (hi - lo) / PAGE_SIZE && blocks == map[] &&
              ram == contents
      ensures forall i :: 0 <= i < cm.Length ==> cm[i] == if lo + PAGE_SIZE * i < free then TAIL else FREE
      ensures fixed <= cm.Length && (fixed < cm.Length ==> free <= lo + PAGE_SIZE * fixed)
    {
      firstaddr := lo;
      var n := (hi - lo) / PAGE_SIZE;
      var m := new Entry[n](_ => FREE);
      ram, blocks := contents, map[];
      var i := 0;
      while i < n && lo + PAGE_SIZE * i < free
        invariant 0 <= i <= n && fresh(m) && forall j :: 0 <= j < i ==> lo + PAGE_SIZE * j < free
        invariant forall j :: 0 <= j < n ==> m[j] == if j < i then TAIL else FREE
      {
        m[i] := TAIL;
        i := i + 1;
      }
      cm := m;
      fixed := i;
    }

    /** The search of getppages: how many frames in a row are still wanted, and where the run began. */
    method Search(npages: nat) returns (found: bool, k: nat, offEnd: bool)
      requires npages > 0
      ensures found ==> !offEnd && FreeRun(cm[..], k, npages) && forall s: nat :: s < k ==> !FreeRun(cm[..], s, npages)
      ensures !found ==> !Fits(cm[..], npages)
      ensures !found ==> (offEnd <==> cm.Length == 0 || !cm[cm.Length - 1].use)
    {
      var cont, i := npages, 0;
      found, k, offEnd := false, 0, false;
      while i <= cm.Length
        invariant 0 <= i <= cm.Length && 0 <= cont <= npages && npages - cont <= i
        invariant forall j :: i - (npages - cont) <= j < i ==> !cm[j].use
        invariant i > npages - cont ==> cm[i - (npages - cont) - 1].use
        invariant 0 < i == cm.Length ==> !cm[i - 1].use
        invariant forall s: nat :: s + npages < i ==> !FreeRun(cm[..], s, npages)
        invariant cont > 0 ==> forall s: nat :: s + npages <= i ==> !FreeRun(cm[..], s, npages)
      {
        if cont == 0 {
          found, k := true, i - npages;
          return;
        } else if i == cm.Length {
          offEnd := true;
          return;
        } else if !cm[i].use {
          cont := cont - 1;
        } else if i == cm.Length - 1 {
          assert forall s: nat :: s + npages == cm.Length ==> !FreeRun(cm[..], s, npages);
          return;
        } else {
          cont := npages;
        }
        i := i + 1;
      }
    }

    /** getppages. The frames it hands out are filled with zeros. */
    method Getppages(npages: nat) returns (r: Got)
      requires Valid() && npages < U32
      modifies this, cm
      ensures npages > 0 ==> Valid() && fixed == old(fixed)
      ensures npages > 0 ==>
                (r == OffEnd <==> !Fits(old(cm[..]), npages) && (cm.Length == 0 || !old(cm[cm.Length - 1]).use))
      ensures npages > 0 ==>
                (r == Addr(0) <==> !Fits(old(cm[..]), npages) && cm.Length > 0 && old(cm[cm.Length - 1]).use)
      ensures npages > 0 && (r == OffEnd || r == Addr(0)) ==>
                cm[..] == old(cm[..]) && ram == old(ram) && blocks == old(blocks)
      ensures npages > 0 && r != OffEnd && r != Addr(0) ==> GotBlock(old(cm[..]), old(ram), old(blocks), npages, r.a)
      ensures npages == 0 && cm.Length > 0 ==>
                r == Addr(firstaddr) && cm[..] == old(cm[..])[0 := Entry(true, 0)] && ram == old(ram)
      ensures npages == 0 ==>
                fixed == old(fixed) && blocks == old(blocks) && (cm.Length == 0 ==> r == OffEnd && Valid())
    {
      hide Decomposed, Claimed, FreeRun;
      if npages == 0 {
        if cm.Length == 0 { return OffEnd; }
        cm[0] := Entry(true, 0);
        return Addr(firstaddr);
      }
      var found, k, offEnd := Search(npages);
      if !found { return if offEnd then OffEnd else Addr(0); }
      ghost var was := cm[..];
      RunIn(was, k, npages);
      r := Addr(firstaddr + PAGE_SIZE * k);
      cm[k] := Entry(true, npages);
      ram := ram[..PAGE_SIZE * k] + Zeros(PAGE_SIZE * npages) + ram[PAGE_SIZE * (k + npages)..];
      var i := k + 1;
      while i < k + npages
        modifies cm
        invariant k < i <= k + npages
        invariant forall j :: 0 <= j < cm.Length ==>
                    cm[j] == if j == k then Entry(true, npages) else if k < j < i then TAIL else was[j]
      {
        cm[i] := TAIL;
        i := i + 1;
      }
      assert cm[..] == Claimed(was, k, npages);
      ClaimKeeps(was, fixed, blocks, k, npages);
      blocks := blocks[k := npages];
    }

    /** The lowest run that fits, claimed, entered as a block and filled with zeros; every other byte is as it was. */
    ghost predicate GotBlock(cm0: seq<Entry>, ram0: seq<byte>, blocks0: map<nat, nat>, n: nat, a: nat)
      reads this, cm
    {
      && a >= firstaddr && (a - firstaddr) % PAGE_SIZE == 0 && n > 0 && |ram0| == PAGE_SIZE * |cm0|
      && var k := (a - firstaddr) / PAGE_SIZE;
         && FreeRun(cm0, k, n) && (forall s: nat :: s < k ==> !FreeRun(cm0, s, n))
         && k !in blocks0 && blocks == blocks0[k := n]
         && k + n <= |cm0| && cm[..] == Claimed(cm0, k, n)
         && ram == ram0[..PAGE_SIZE * k] + Zeros(PAGE_SIZE * n) + ram0[PAGE_SIZE * (k + n)..]
    }

    /** The index ungetppages computes, in 32 bits */
    function Index(paddr: nat): nat {
      (paddr - firstaddr) % U32 / PAGE_SIZE
    }

    /** ungetppages. The index runs down in 32 bits; faulted tells that it lay off the map or ran off it. */
    method Ungetppages(paddr: nat) returns (faulted: bool)
      requires Valid() && paddr < U32
      modifies this, cm
      ensures faulted <==>
                Index(paddr) >= cm.Length || Index(paddr) == 0 || (Index(paddr) == 1 && old(cm[1]).size == -1)
      ensures !faulted ==> Valid() && fixed == old(fixed) && ram == old(ram) && blocks == old(blocks) - {Index(paddr)}
      ensures !faulted && Index(paddr) !in old(blocks) ==> cm[..] == old(cm[..])
      ensures !faulted && Index(paddr) in old(blocks) ==> Index(paddr) + old(blocks[Index(paddr)]) <= cm.Length
      ensures !faulted && Index(paddr) in old(blocks) ==>
                cm[..] == Released(old(cm[..]), Index(paddr), old(blocks[Index(paddr)]))
    {
      hide Decomposed, Released;
      var index := (paddr - firstaddr) % U32 / PAGE_SIZE;
      if index >= cm.Length { return true; }
      ghost var was, n := cm[..], cm[index].size;
      EntryIs(was, fixed, blocks, index);
      var i := (index + cm[index].size - 1) % U32;
      faulted := false;
      while i >= index
        modifies cm
        invariant 0 <= i < U32 && (n > 0 ==> i < index + n || i == U32 - 1)
        invariant index > 0 && n > 0 ==> index - 1 <= i < index + n
        invariant n > 0 ==> index + n <= cm.Length
        invariant n <= 0 && index >= 2 ==> i < index
        invariant n <= 0 ==> cm[..] == was && (i < index || i >= cm.Length)
        invariant index == 0 || (index == 1 && n == -1) ==> i >= index
        invariant n > 0 && i < index + n ==>
                    forall j :: 0 <= j < cm.Length ==> cm[j] == if i < j < index + n then FREE else was[j]
        decreases if i == U32 - 1 && index == 0 then 0 else i + 1
      {
        if i >= cm.Length { return true; }
        cm[i] := FREE;
        i := (i - 1) % U32;
      }
      if n > 0 {
        assert cm[..] == Released(was, index, n);
        ReleaseKeeps(was, fixed, blocks, index);
        blocks := blocks - {index};
      }
    }
  }

  lemma RunIn(cm: seq<Entry>, k: nat, n: nat)
    requires FreeRun(cm, k, n)
    ensures k + n <= |cm|
  {
  }

  /** What an entry's size says: a live block's length, part of a block or fixed, or free. */
  lemma EntryIs(cm: seq<Entry>, fixed: nat, blocks: map<nat, nat>, i: nat)
    requires Decomposed(cm, fixed, blocks) && i < |cm|
    ensures i in blocks ==> cm[i].size == blocks[i] > 0 && i + blocks[i] <= |cm|
    ensures i !in blocks ==> cm[i].size == -1 || cm[i].size == 0
  {
    if i in blocks {
      assert Block(cm, i, blocks[i]);
    } else if i >= fixed && cm[i] != FREE {
      var h :| h in blocks && Covers(h, blocks[h], i);
      assert Block(cm, h, blocks[h]);
    }
  }
}
