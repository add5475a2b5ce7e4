/** Model of sfs_truncate (kern/fs/sfs/sfs_vnode.c). */
module SfsTruncate {
  import opened Lists
  import opened Words
  import opened SfsState
  import opened SfsBlocks
  import opened SfsVolume
  import opened SfsMeta

  /** File i has lost the blocks in gone and nothing else has changed. */
  ghost predicate Cut(s: Fs, t: Fs, own: Owner, own': Owner, i: nat, gone: set<nat>) {
    && Frame(s, t, own, own', i)
    && (forall k: nat :: k < MAXBLOCKS ==> Ptr(t, i, k) == if k in gone then 0 else Ptr(s, i, k))
    && (forall off: nat :: Byte(t, i, off) == if off / BLOCKSIZE in gone then 0 else Byte(s, i, off))
    && (forall j: nat :: IsNode(own, j) && j != i ==> SameBytes(s, t, j))
  }

  lemma CutTrans(s: Fs, t: Fs, u: Fs, own: Owner, own1: Owner, own2: Owner, i: nat, gone: set<nat>, gone': set<nat>)
    requires Cut(s, t, own, own1, i, gone) && Cut(t, u, own1, own2, i, gone')
    ensures Cut(s, u, own, own2, i, gone + gone')
  {
    hide NodeAt, Ptr, Byte;
    FrameTrans(s, t, u, own, own1, own2, i);
    forall j: nat | IsNode(own, j) && j != i ensures SameBytes(s, u, j) {
      assert SameBytes(s, t, j) && SameBytes(t, u, j);
    }
  }

  /** Freeing the block mapped at (i, k), if any, releases one more slot. */
  lemma ReleaseOne(s: Fs, own: Owner, i: nat, gone: set<nat>, k: nat, marks: seq<bool>, marks': seq<bool>)
    requires Consistent(s, own) && IsNode(own, i) && k <= INDIRECT && k !in gone
    requires Released(own, i, gone, s.marks, marks)
    requires var b := Ptr(s, i, k); |marks'| == |marks| && if b == 0 || b >= |marks| then marks' == marks
               else marks' == marks[b := false]
    ensures Released(own, i, gone + {k}, s.marks, marks')
  {
    hide Ptr, CacheOk;
    forall b: nat | b < |marks| ensures marks'[b] <==> s.marks[b] && b in Without(own, i, gone + {k}) {
      assert marks[b] <==> s.marks[b] && b in Without(own, i, gone);
      if b in own && own[b] == Part(i, k) { assert Ptr(s, i, k) == b; }
    }
  }

  /** A block mapped outside gone is still marked. */
  lemma StillMarked(s: Fs, own: Owner, i: nat, gone: set<nat>, k: nat, marks: seq<bool>)
    requires Consistent(s, own) && IsNode(own, i) && k <= INDIRECT && k !in gone && Ptr(s, i, k) != 0
    requires Released(own, i, gone, s.marks, marks)
    ensures Ptr(s, i, k) < |marks| && marks[Ptr(s, i, k)] && Ptr(s, i, k) < |s.disk|
  {
    hide Ptr, CacheOk;
    assert Ptr(s, i, k) in own && own[Ptr(s, i, k)] == Part(i, k);
    assert Ptr(s, i, k) in Without(own, i, gone);
  }

  // ---- direct blocks

  /** The cached inode of i is the only thing besides the freemap that differs, and it is dirty if it does. */
  ghost predicate OnlyInode(s: Fs, t: Fs, i: nat) {
    && i in s.vnodes && i in t.vnodes && t.disk == s.disk && |t.marks| == |s.marks|
    && t.vnodes == s.vnodes[i := t.vnodes[i]] && t.vnodes[i].refs == s.vnodes[i].refs
    && (t.vnodes[i].dirty || t.vnodes[i] == s.vnodes[i])
    && SameMeta(s.vnodes[i].inode, t.vnodes[i].inode)
  }

  lemma DirectCut(s: Fs, t: Fs, own: Owner, i: nat, gone: set<nat>)
    requires Consistent(s, own) && OnlyInode(s, t, i) && Released(own, i, gone, s.marks, t.marks)
    requires forall k: nat :: k in gone ==> k < NDIRECT
    requires t.vnodes[i].inode.indirect == s.vnodes[i].inode.indirect
    requires forall k: nat :: k < NDIRECT ==>
               t.vnodes[i].inode.direct[k] == if k in gone then 0 else s.vnodes[i].inode.direct[k]
    ensures Consistent(t, Without(own, i, gone)) && Cut(s, t, own, Without(own, i, gone), i, gone)
  {
    hide Byte, MarksOwned, PartsOwned;
    Live(s, own, i);
    Detach(s, own, t, i, gone);
  }

  /** sfs_truncate's loop over the direct blocks */
  method TruncDirect(fs: Volume, i: nat, blocklen: nat)
    requires fs.Valid() && i in fs.vnodes
    modifies fs, fs.freemap.v
    ensures fs.Valid() && i in fs.vnodes
    ensures Cut(old(fs.View()), fs.View(), old(fs.own), fs.own, i, Range(blocklen, NDIRECT))
    ensures fs.vnodes[i].inode.indirect == old(fs.vnodes[i].inode.indirect)
  {
    hide Consistent, Cut, Ptr, Byte, Released, NodeAt, MetaOk;
    ghost var s, gone := fs.View(), {};
    Live(s, fs.own, i);
    NoneReleased(s, fs.own, i);
    var k := 0;
    while k < NDIRECT
      invariant 0 <= k <= NDIRECT && fs.MapOk() && fs.own == old(fs.own)
      invariant OnlyInode(s, fs.View(), i) && fs.vnodes[i].inode.indirect == s.vnodes[i].inode.indirect
      invariant gone == Range(blocklen, k)
      invariant Released(fs.own, i, gone, s.marks, fs.marks)
      invariant forall m :: 0 <= m < NDIRECT ==>
                  fs.vnodes[i].inode.direct[m] == if m in gone then 0 else s.vnodes[i].inode.direct[m]
    {
      var block := fs.vnodes[i].inode.direct[k];
      PtrDirect(s, i, k);
      ghost var marks := fs.marks;
      if k >= blocklen && block != 0 {
        StillMarked(s, fs.own, i, gone, k, fs.marks);
        fs.Bfree(block);
        var v := fs.vnodes[i];
        fs.vnodes := fs.vnodes[i := Vnode(v.inode.(direct := v.inode.direct[k := 0]), true, v.refs)];
      }
      if k >= blocklen {
        ReleaseOne(s, fs.own, i, gone, k, marks, fs.marks);
        gone := gone + {k};
      }
      k := k + 1;
    }
    DirectCut(s, fs.View(), fs.own, i, gone);
    fs.own := Without(fs.own, i, gone);
    assert gone == Range(blocklen, NDIRECT);
  }

  lemma NoneReleased(s: Fs, own: Owner, i: nat)
    requires Consistent(s, own)
    ensures Released(own, i, {}, s.marks, s.marks)
  {
    assert Without(own, i, {}) == own;
  }

  // ---- blocks of the indirect block

  lemma UnmappedCut(s: Fs, own: Owner, i: nat, gone: set<nat>)
    requires forall k: nat :: k in gone && k < MAXBLOCKS ==> Ptr(s, i, k) == 0
    ensures Cut(s, s, own, own, i, gone)
  {
    hide Ptr;
  }

  lemma IndexPtrs(s: Fs, t: Fs, own: Owner, i: nat, gone: set<nat>, idbuf: seq<u32>)
    requires Consistent(s, own) && i in s.vnodes && 0 < s.vnodes[i].inode.indirect < |s.disk|
    requires |idbuf| == DBPERIDB && forall k: nat :: k in gone ==> NDIRECT <= k < MAXBLOCKS
    requires t == s.(disk := t.disk, marks := t.marks)
    requires t.disk == s.disk[s.vnodes[i].inode.indirect := ToBytes(idbuf)]
    requires forall k: nat :: NDIRECT <= k < MAXBLOCKS ==> idbuf[k - NDIRECT] == if k in gone then 0 else Ptr(s, i, k)
    ensures forall k: nat :: k <= INDIRECT ==> Ptr(t, i, k) == if k in gone then 0 else Ptr(s, i, k)
    ensures forall j: nat, m: nat :: IsNode(own, j) && m <= INDIRECT && j != i ==> Ptr(t, j, m) == Ptr(s, j, m)
  {
    hide Byte, MarksOwned, ToWords, ToBytes;
    var p := s.vnodes[i].inode.indirect;
    Live(s, own, i);
    assert p == Ptr(s, i, INDIRECT) && own[p] == Part(i, INDIRECT);
    WordsRoundTrip(idbuf);
    forall j: nat, m: nat | IsNode(own, j) && m <= INDIRECT && j != i ensures Ptr(t, j, m) == Ptr(s, j, m) {
      assert NodeAt(s, j).indirect == Ptr(s, j, INDIRECT);
    }
  }

  /** The indirect block has been rewritten as idbuf. */
  lemma IndexCut(s: Fs, t: Fs, own: Owner, i: nat, gone: set<nat>, idbuf: seq<u32>)
    requires Consistent(s, own) && i in s.vnodes && 0 < s.vnodes[i].inode.indirect < |s.disk|
    requires |idbuf| == DBPERIDB && forall k: nat :: k in gone ==> NDIRECT <= k < MAXBLOCKS
    requires Released(own, i, gone, s.marks, t.marks) && t == s.(disk := t.disk, marks := t.marks)
    requires t.disk == s.disk[s.vnodes[i].inode.indirect := ToBytes(idbuf)]
    requires forall k: nat :: NDIRECT <= k < MAXBLOCKS ==> idbuf[k - NDIRECT] == if k in gone then 0 else Ptr(s, i, k)
    ensures Consistent(t, Without(own, i, gone)) && Cut(s, t, own, Without(own, i, gone), i, gone)
  {
    hide Byte, Ptr, MarksOwned, ToBytes, NodeOf;
    var p := s.vnodes[i].inode.indirect;
    Live(s, own, i);
    PtrIndirect(s, i);
    assert own[p] == Part(i, INDIRECT);
    IndexPtrs(s, t, own, i, gone, idbuf);
    hide PartsOwned;
    assert CacheOk(t, own);
    Detach(s, own, t, i, gone);
  }

  /** The indirect block held nothing any more and has been freed too. */
  lemma IndexFreed(s: Fs, t: Fs, own: Owner, i: nat, gone: set<nat>)
    requires Consistent(s, own) && OnlyInode(s, t, i) && t.vnodes[i].inode == s.vnodes[i].inode.(indirect := 0)
    requires Released(own, i, gone + {INDIRECT}, s.marks, t.marks)
    requires forall k: nat :: k in gone ==> NDIRECT <= k < MAXBLOCKS
    requires forall k: nat :: NDIRECT <= k < MAXBLOCKS && k !in gone ==> Ptr(s, i, k) == 0
    ensures Consistent(t, Without(own, i, gone + {INDIRECT})) &&
            Cut(s, t, own, Without(own, i, gone + {INDIRECT}), i, gone)
    ensures Ptr(t, i, INDIRECT) == 0
  {
    hide Byte, MarksOwned, PartsOwned, ToWords, ToBytes;
    Live(s, own, i);
    ByteBeyond(s, i);
    Detach(s, own, t, i, gone + {INDIRECT});
  }

  /** The indexed blocks that truncation to blocklen blocks discards: those after file block blocklen. */
  function IndexGone(blocklen: nat, hi: nat): set<nat> {
    Range(Max(NDIRECT, blocklen + 1), hi)
  }

  /** sfs_truncate's loop over a loaded indirect block */
  method FreeIndexed(fs: Volume, i: nat, blocklen: nat, idbuf0: seq<u32>)
      returns (idbuf: seq<u32>, hasnonzero: bool, iddirty: bool)
    requires fs.Valid() && i in fs.vnodes && |idbuf0| == DBPERIDB
    requires forall k: nat :: NDIRECT <= k < MAXBLOCKS ==> idbuf0[k - NDIRECT] == Ptr(fs.View(), i, k)
    modifies fs`marks, fs`freemapdirty, fs.freemap.v
    ensures fs.MapOk() && |fs.marks| == |old(fs.marks)| && |idbuf| == DBPERIDB
    ensures Released(fs.own, i, IndexGone(blocklen, MAXBLOCKS), old(fs.marks), fs.marks)
    ensures forall m :: 0 <= m < DBPERIDB ==>
              idbuf[m] == if m + NDIRECT in IndexGone(blocklen, MAXBLOCKS) then 0 else idbuf0[m]
    ensures !iddirty ==> idbuf == idbuf0
    ensures !hasnonzero <==> forall m :: 0 <= m < DBPERIDB ==> idbuf[m] == 0
    ensures blocklen < NDIRECT ==> !hasnonzero
  {
    hide Consistent, Ptr, Byte, Released, MetaOk;
    ghost var s := fs.View();
    Live(s, fs.own, i);
    NoneReleased(s, fs.own, i);
    idbuf, hasnonzero, iddirty := idbuf0, false, false;
    var j := 0;
    while j < DBPERIDB
      invariant 0 <= j <= DBPERIDB && |idbuf| == DBPERIDB && fs.MapOk() && |fs.marks| == |s.marks|
      invariant Released(fs.own, i, IndexGone(blocklen, NDIRECT + j), s.marks, fs.marks)
      invariant forall m :: 0 <= m < DBPERIDB ==>
                  idbuf[m] == if m + NDIRECT in IndexGone(blocklen, NDIRECT + j) then 0 else idbuf0[m]
      invariant !iddirty ==> idbuf == idbuf0
      invariant !hasnonzero <==> forall m :: 0 <= m < j ==> idbuf[m] == 0
      invariant blocklen < NDIRECT ==> !hasnonzero
    {
      ghost var k, marks, gone := NDIRECT + j, fs.marks, IndexGone(blocklen, NDIRECT + j);
      assert idbuf[j] == Ptr(s, i, k);
      if blocklen < NDIRECT + j && idbuf[j] != 0 {
        StillMarked(s, fs.own, i, gone, k, fs.marks);
        fs.Bfree(idbuf[j]);
        idbuf := idbuf[j := 0];
        iddirty := true;
      }
      if blocklen < NDIRECT + j {
        ReleaseOne(s, fs.own, i, gone, k, marks, fs.marks);
        assert gone + {k} == IndexGone(blocklen, k + 1);
      } else {
        assert gone == IndexGone(blocklen, k + 1);
      }
      if idbuf[j] != 0 {
        hasnonzero := true;
      }
      j := j + 1;
    }
  }

  /** The indirect block that holds no block any more is freed as well. */
  method FreeIndirect(fs: Volume, i: nat, ghost s: Fs, ghost gone: set<nat>)
    requires Consistent(s, fs.own) && i in s.vnodes && s.vnodes[i].inode.indirect != 0 && INDIRECT !in gone
    requires fs.MapOk() && fs.View() == s.(marks := fs.marks) && |fs.marks| == |s.marks| &&
             Released(fs.own, i, gone, s.marks, fs.marks)
    requires forall k: nat :: k in gone ==> NDIRECT <= k < MAXBLOCKS
    requires forall k: nat :: NDIRECT <= k < MAXBLOCKS && k !in gone ==> Ptr(s, i, k) == 0
    modifies fs, fs.freemap.v
    ensures fs.Valid() && i in fs.vnodes && fs.vnodes[i].inode.indirect == 0
    ensures Cut(s, fs.View(), old(fs.own), fs.own, i, gone)
  {
    hide Consistent, Cut, Ptr, Byte, Released, NodeAt, MetaOk;
    Live(s, fs.own, i);
    PtrIndirect(s, i);
    StillMarked(s, fs.own, i, gone, INDIRECT, fs.marks);
    fs.Bfree(fs.vnodes[i].inode.indirect);
    ReleaseOne(s, fs.own, i, gone, INDIRECT, old(fs.marks), fs.marks);
    var v := fs.vnodes[i];
    fs.vnodes := fs.vnodes[i := Vnode(v.inode.(indirect := 0), true, v.refs)];
    IndexFreed(s, fs.View(), fs.own, i, gone);
    fs.own := Without(fs.own, i, gone + {INDIRECT});
  }

  /** The indirect block that still holds blocks is written back if it changed. */
  method KeepIndirect(fs: Volume, i: nat, ghost s: Fs, ghost gone: set<nat>, idbuf: seq<u32>, iddirty: bool)
    requires Consistent(s, fs.own) && i in s.vnodes && 0 < s.vnodes[i].inode.indirect < |s.disk| && |idbuf| == DBPERIDB
    requires fs.MapOk() && fs.View() == s.(marks := fs.marks) && Released(fs.own, i, gone, s.marks, fs.marks)
    requires forall k: nat :: k in gone ==> NDIRECT <= k < MAXBLOCKS
    requires forall k: nat :: NDIRECT <= k < MAXBLOCKS ==> idbuf[k - NDIRECT] == if k in gone then 0 else Ptr(s, i, k)
    requires !iddirty ==> forall k: nat :: NDIRECT <= k < MAXBLOCKS ==> idbuf[k - NDIRECT] == Ptr(s, i, k)
    modifies fs, fs.freemap.v
    ensures fs.Valid() && i in fs.vnodes && fs.vnodes == old(fs.vnodes)
    ensures Cut(s, fs.View(), old(fs.own), fs.own, i, gone)
  {
    hide Consistent, Cut, Ptr, Byte, Released, NodeAt, MetaOk;
    if iddirty {
      PtrIndirect(s, i);
      InUse(s, fs.own, i, INDIRECT);
      MetaKept(fs.disk, fs.vnodes[i].inode.indirect, ToBytes(idbuf), fs.marks, fs.freemapdirty);
      fs.disk := fs.disk[fs.vnodes[i].inode.indirect := ToBytes(idbuf)];
      IndexCut(s, fs.View(), fs.own, i, gone, idbuf);
    } else {
      IndexKept(s, fs.View(), fs.own, i, gone, idbuf);
    }
    fs.own := Without(fs.own, i, gone);
  }

  /** The part of sfs_truncate that deals with the indirect block */
  method TruncIndirect(fs: Volume, i: nat, blocklen: nat)
    requires fs.Valid() && i in fs.vnodes
    modifies fs, fs.freemap.v
    ensures fs.Valid() && i in fs.vnodes
    ensures Cut(old(fs.View()), fs.View(), old(fs.own), fs.own, i, IndexGone(blocklen, MAXBLOCKS))
    ensures fs.vnodes[i].inode.indirect ==
            if Emptied(old(fs.View()), i, blocklen) then 0 else old(fs.vnodes[i].inode.indirect)
    ensures blocklen < NDIRECT ==> fs.vnodes[i].inode.indirect == 0
  {
    hide Consistent, Cut, Ptr, Byte, Released, NodeAt, MetaOk;
    ghost var s, gone := fs.View(), IndexGone(blocklen, MAXBLOCKS);
    var idblock := fs.vnodes[i].inode.indirect;
    var highblock := NDIRECT + DBPERIDB - 1;
    if blocklen < highblock && idblock != 0 {
      PtrIndirect(s, i);
      InUse(s, fs.own, i, INDIRECT);
      PtrIndexed(s, i);
      var idbuf, hasnonzero, iddirty := FreeIndexed(fs, i, blocklen, ToWords(fs.disk[idblock]));
      if !hasnonzero {
        forall k: nat | NDIRECT <= k < MAXBLOCKS && k !in gone ensures Ptr(s, i, k) == 0 {
          assert idbuf[k - NDIRECT] == 0;
        }
        FreeIndirect(fs, i, s, gone);
      } else {
        ghost var m :| 0 <= m < DBPERIDB && idbuf[m] != 0;
        assert m + NDIRECT !in gone && Ptr(s, i, m + NDIRECT) != 0;
        KeepIndirect(fs, i, s, gone, idbuf, iddirty);
      }
    } else {
      if idblock == 0 {
        forall k: nat | k in gone && k < MAXBLOCKS ensures Ptr(s, i, k) == 0 { NoIndirect(s, i, k); }
      }
      UnmappedCut(s, fs.own, i, gone);
    }
  }

  lemma PtrIndexed(s: Fs, i: nat)
    requires i in s.vnodes && 0 < s.vnodes[i].inode.indirect < |s.disk|
    ensures forall k: nat :: NDIRECT <= k < MAXBLOCKS ==>
              ToWords(s.disk[s.vnodes[i].inode.indirect])[k - NDIRECT] == Ptr(s, i, k)
  {
  }

  /** No block past the new end was mapped. */
  lemma IndexKept(s: Fs, t: Fs, own: Owner, i: nat, gone: set<nat>, idbuf: seq<u32>)
    requires Consistent(s, own) && i in s.vnodes && |idbuf| == DBPERIDB
    requires forall k: nat :: k in gone ==> NDIRECT <= k < MAXBLOCKS
    requires Released(own, i, gone, s.marks, t.marks) && t == s.(marks := t.marks)
    requires forall k: nat :: NDIRECT <= k < MAXBLOCKS ==> idbuf[k - NDIRECT] == Ptr(s, i, k)
    requires forall k: nat :: k in gone ==> idbuf[k - NDIRECT] == 0
    ensures Consistent(t, Without(own, i, gone)) && Cut(s, t, own, Without(own, i, gone), i, gone)
  {
    hide Byte, Ptr, MarksOwned, PartsOwned;
    Live(s, own, i);
    SameDiskPtrs(s, t);
    Detach(s, own, t, i, gone);
  }

  lemma SameDiskPtrs(s: Fs, t: Fs)
    requires t == s.(marks := t.marks)
    ensures forall j: nat, m: nat :: Ptr(t, j, m) == Ptr(s, j, m)
  {
  }

  /** DIVROUNDUP of a length, an off_t, kept in an unsigned word */
  function BlockLen(len: i32): nat {
    ToU32(CDiv(ToInt(ToU32(len + BLOCKSIZE - 1)), BLOCKSIZE))
  }

  /** It is the number of blocks up to the largest file; a length just below 0 counts as no blocks, any other negative
      one, or one whose rounding up overflows, as more than a file can have. */
  lemma BlockLenIs(len: i32)
    ensures 0 <= len <= MAXBLOCKS * BLOCKSIZE ==> BlockLen(len) == (len + BLOCKSIZE - 1) / BLOCKSIZE
    ensures len > MAXBLOCKS * BLOCKSIZE ==> BlockLen(len) > MAXBLOCKS
    ensures -2 * BLOCKSIZE + 1 < len < 0 ==> BlockLen(len) == 0
    ensures len <= -2 * BLOCKSIZE + 1 ==> BlockLen(len) > MAXBLOCKS
  {
    var sum := len + BLOCKSIZE - 1;
    if sum < 0 { Wrapped(sum); } else { Unwrapped(sum); }
    var x := ToInt(ToU32(sum));
    assert x == if sum < 0x8000_0000 then sum else sum - U32;
    hide ToU32;
    var q := CDiv(x, BLOCKSIZE);
    assert x >= 0 ==> q == x / BLOCKSIZE;
    assert x < 0 ==> q == -(-x / BLOCKSIZE) && (q == 0 <==> -x < BLOCKSIZE) && q > -0x80_0000;
    if q < 0 { Wrapped(q); } else { Unwrapped(q); }
  }

  /** The blocks discarded by a truncation to len bytes. */
  function Gone(len: i32): set<nat> {
    Range(BlockLen(len), NDIRECT) + IndexGone(BlockLen(len), MAXBLOCKS)
  }

  /** Truncation to blocklen blocks looks into the indirect block and leaves nothing in it. */
  ghost predicate Emptied(s: Fs, i: nat, blocklen: nat) {
    && blocklen < NDIRECT + DBPERIDB - 1
    && forall k: nat :: NDIRECT <= k < MAXBLOCKS && k !in IndexGone(blocklen, MAXBLOCKS) ==> Ptr(s, i, k) == 0
  }

  /** File i has been truncated to len bytes. */
  ghost predicate Truncated(s: Fs, t: Fs, own: Owner, own': Owner, i: nat, len: i32) {
    && Others(s, t, own, own', i)
    && (forall k: nat :: k < MAXBLOCKS ==> Ptr(t, i, k) == if k in Gone(len) then 0 else Ptr(s, i, k))
    && Ptr(t, i, INDIRECT) == (if Emptied(s, i, BlockLen(len)) then 0 else Ptr(s, i, INDIRECT))
    && (forall off: nat :: Byte(t, i, off) == if off / BLOCKSIZE in Gone(len) then 0 else Byte(s, i, off))
    && (forall j: nat :: IsNode(own, j) && j != i ==> SameBytes(s, t, j))
  }

  lemma CutResized(s: Fs, t: Fs, u: Fs, own: Owner, own1: Owner, i: nat, len: i32)
    requires Cut(s, t, own, own1, i, Gone(len)) && Others(t, u, own1, own1, i) && SameAll(t, u, own1) && IsNode(own1, i)
    requires SamePtrs(t, u, own1) && Ptr(t, i, INDIRECT) == if Emptied(s, i, BlockLen(len)) then 0
               else Ptr(s, i, INDIRECT)
    ensures Truncated(s, u, own, own1, i, len)
  {
    hide NodeAt, Ptr, Byte, Gone, Emptied;
    OthersTrans(s, t, u, own, own1, own1, i);
    assert SameBytes(t, u, i);
    forall j: nat | IsNode(own, j) && j != i ensures SameBytes(s, u, j) {
      assert SameBytes(s, t, j) && SameBytes(t, u, j);
    }
  }

  /** Both loops of sfs_truncate */
  method CutTo(fs: Volume, i: nat, blocklen: nat)
    requires fs.Valid() && i in fs.vnodes
    modifies fs, fs.freemap.v
    ensures fs.Valid() && i in fs.vnodes
    ensures Cut(old(fs.View()), fs.View(), old(fs.own), fs.own, i,
                Range(blocklen, NDIRECT) + IndexGone(blocklen, MAXBLOCKS))
    ensures fs.vnodes[i].inode.indirect == if Emptied(old(fs.View()), i, blocklen) then 0
              else old(fs.vnodes[i].inode.indirect)
    ensures blocklen < NDIRECT ==> fs.vnodes[i].inode.indirect == 0
  {
    hide Consistent, Byte, Ptr, NodeAt, SameAll, Cut, Volume.MapOk, Emptied, Range, IndexGone;
    ghost var s := fs.View();
    TruncDirect(fs, i, blocklen);
    ghost var s1, own1 := fs.View(), fs.own;
    TruncIndirect(fs, i, blocklen);
    CutTrans(s, s1, fs.View(), old(fs.own), own1, fs.own, i, Range(blocklen, NDIRECT), IndexGone(blocklen, MAXBLOCKS));
    SameEmptied(s, s1, old(fs.own), own1, i, blocklen);
  }

  /** sfs_truncate */
  method Truncate(fs: Volume, i: nat, len: i32)
    requires fs.Valid() && i in fs.vnodes
    modifies fs, fs.freemap.v
    ensures fs.Valid() && i in fs.vnodes
    ensures Truncated(old(fs.View()), fs.View(), old(fs.own), fs.own, i, len)
    ensures fs.vnodes[i].inode.size == ToU32(len) && fs.vnodes[i].dirty
    ensures fs.vnodes[i].inode.kind == old(fs.vnodes[i].inode.kind) &&
            fs.vnodes[i].inode.links == old(fs.vnodes[i].inode.links)
    ensures len == 0 ==> fs.vnodes[i].inode.indirect == 0
  {
    hide Consistent, Byte, Ptr, NodeAt, SameAll, Truncated, Cut, MetaOk, BlockLen, Emptied, Range, IndexGone, ToU32;
    ghost var s := fs.View();
    BlockLenIs(len);
    CutTo(fs, i, BlockLen(len));
    ghost var s2 := fs.View();
    CutMeta(s, s2, old(fs.own), fs.own, i, Gone(len));
    var v := fs.vnodes[i];
    fs.vnodes := fs.vnodes[i := Vnode(v.inode.(size := ToU32(len)), true, v.refs)];
    SetMeta(s2, fs.own, i, fs.vnodes[i].inode, fs.View());
    Live(s2, fs.own, i);
    PtrIndirect(s, i);
    PtrIndirect(s2, i);
    CutResized(s, s2, fs.View(), old(fs.own), fs.own, i, len);
  }

  /** The direct blocks have no say in what becomes of the indirect block. */
  lemma SameEmptied(s: Fs, t: Fs, own: Owner, own': Owner, i: nat, blocklen: nat)
    requires Cut(s, t, own, own', i, Range(blocklen, NDIRECT))
    ensures Emptied(t, i, blocklen) <==> Emptied(s, i, blocklen)
  {
    hide Ptr, Byte, NodeAt, Frame;
  }

  lemma CutMeta(s: Fs, t: Fs, own: Owner, own': Owner, i: nat, gone: set<nat>)
    requires Cut(s, t, own, own', i, gone) && i in s.vnodes && i in t.vnodes
    ensures SameMeta(s.vnodes[i].inode, t.vnodes[i].inode)
  {
    hide Ptr, Byte;
  }

  // ---- what a truncation keeps and what it leaves behind

  /** Every byte below the new length is kept. */
  lemma TruncateKeeps(s: Fs, t: Fs, own: Owner, own': Owner, i: nat, len: i32, off: nat)
    requires Truncated(s, t, own, own', i, len) && off < len
    ensures Byte(t, i, off) == Byte(s, i, off)
  {
    hide Byte, Ptr, BlockLen;
    BlockLenIs(len);
    ByteBeyond(s, i);
    ByteBeyond(t, i);
    if off / BLOCKSIZE < MAXBLOCKS { assert off / BLOCKSIZE !in Gone(len); }
  }

  /** First byte past len that is certain to read as zero: the last block is kept whole, and among the
      blocks of the indirect block the code also keeps the one after the last. */
  function ResidueEnd(len: nat): nat {
    var blocklen := (len + BLOCKSIZE - 1) / BLOCKSIZE;
    BLOCKSIZE * if NDIRECT <= blocklen < MAXBLOCKS then blocklen + 1 else blocklen
  }

  /** Truncation leaves only zeros past the new end exactly when the residue was zero already. */
  lemma TruncateTail(s: Fs, t: Fs, own: Owner, own': Owner, i: nat, len: i32)
    requires len >= 0 && Truncated(s, t, own, own', i, len)
    ensures (forall off: nat :: off >= len ==> Byte(t, i, off) == 0) <==>
            (forall off: nat :: len <= off < ResidueEnd(len) ==> Byte(s, i, off) == 0)
  {
    hide Ptr;
    forall off: nat | off >= len ensures Byte(t, i, off) == if off < ResidueEnd(len) then Byte(s, i, off) else 0 {
      ResidueBlocks(len, off);
      ByteBeyond(s, i);
    }
  }

  lemma ResidueBlocks(len: i32, off: nat)
    requires 0 <= len <= off
    ensures off < ResidueEnd(len) ==> off / BLOCKSIZE !in Gone(len)
    ensures off >= ResidueEnd(len) ==> off / BLOCKSIZE in Gone(len) || off / BLOCKSIZE >= MAXBLOCKS
  {
    hide BlockLen;
    BlockLenIs(len);
    var blocklen := (len + BLOCKSIZE - 1) / BLOCKSIZE;
    assert off / BLOCKSIZE >= blocklen || off / BLOCKSIZE == blocklen - 1;
  }

  /** A negative length empties the file if it is above -1023 and leaves its blocks alone otherwise; either way
      the size, read as an off_t, is negative. */
  lemma TruncateNegative(s: Fs, t: Fs, own: Owner, own': Owner, i: nat, len: i32, off: nat)
    requires len < 0 && Truncated(s, t, own, own', i, len)
    ensures Byte(t, i, off) == if len > -1023 then 0 else Byte(s, i, off)
    ensures ToInt(ToU32(len)) == len
  {
    hide Byte, Ptr, Gone;
    ByteBeyond(s, i);
    ByteBeyond(t, i);
    if off / BLOCKSIZE < MAXBLOCKS { NegativeGone(len, off / BLOCKSIZE); }
    Wrapped(len);
  }

  lemma NegativeGone(len: i32, k: nat)
    requires len < 0 && k < MAXBLOCKS
    ensures k in Gone(len) <==> len > -1023
  {
    hide BlockLen;
    BlockLenIs(len);
  }

  /** Truncating to 20 blocks leaves file block 20 readable: its contents come back when the file grows. */
  lemma StaleBlock(s: Fs, t: Fs, own: Owner, own': Owner, i: nat)
    requires Truncated(s, t, own, own', i, 20 * BLOCKSIZE)
    ensures Byte(t, i, 20 * BLOCKSIZE) == Byte(s, i, 20 * BLOCKSIZE)
  {
    hide Byte, Ptr;
    ResidueBlocks(20 * BLOCKSIZE, 20 * BLOCKSIZE);
  }
}
