/** How the elementary changes of a volume act on ownership and on file contents. */
module SfsBlocks {
  import opened Words
  import opened SfsState

  ghost predicate SameMeta(n: Inode, m: Inode) {
    n.size == m.size && n.kind == m.kind && n.links == m.links
  }

  ghost predicate SameBytes(s: Fs, t: Fs, i: nat) {
    forall off: nat :: Byte(t, i, off) == Byte(s, i, off)
  }

  ghost predicate SameNodes(own: Owner, own': Owner) {
    forall i: nat :: IsNode(own', i) == IsNode(own, i)
  }

  /** Nothing but file i has changed. */
  ghost predicate Others(s: Fs, t: Fs, own: Owner, own': Owner, i: nat) {
    && SameNodes(own, own') && |t.disk| == |s.disk| && |t.marks| == |s.marks|
    && t.vnodes.Keys == s.vnodes.Keys
    && (forall j :: j in s.vnodes ==> t.vnodes[j].refs == s.vnodes[j].refs)
    && (forall j: nat :: IsNode(own, j) && j != i ==> NodeAt(t, j) == NodeAt(s, j))
  }

  /** Nothing but file i's blocks and the dirty flag of its cached inode has changed. */
  ghost predicate Frame(s: Fs, t: Fs, own: Owner, own': Owner, i: nat) {
    Others(s, t, own, own', i) && SameMeta(NodeAt(s, i), NodeAt(t, i))
  }

  ghost predicate SameAll(s: Fs, t: Fs, own: Owner) {
    forall j: nat :: IsNode(own, j) ==> SameBytes(s, t, j)
  }

  ghost predicate Full(s: Fs) {
    forall b: nat :: b < |s.marks| ==> s.marks[b]
  }

  /** File i differs by exactly the bytes data written at off; no other file differs. */
  ghost predicate Wrote(s: Fs, t: Fs, own: Owner, i: nat, off: nat, data: seq<byte>) {
    && (forall o: nat :: Byte(t, i, o) == if off <= o < off + |data| then data[o - off] else Byte(s, i, o))
    && (forall j: nat :: IsNode(own, j) && j != i ==> SameBytes(s, t, j))
  }

  /** Blocks of file i that were mapped stay where they are. */
  ghost predicate Kept(s: Fs, t: Fs, i: nat) {
    forall k: nat :: k <= INDIRECT && Ptr(s, i, k) != 0 ==> Ptr(t, i, k) == Ptr(s, i, k)
  }

  /** Nothing has changed between a volume and itself. */
  lemma FrameSelf(s: Fs, own: Owner, i: nat)
    ensures Frame(s, s, own, own, i) && SameAll(s, s, own) && Kept(s, s, i)
  {
  }

  lemma FrameTrans(s: Fs, t: Fs, u: Fs, own: Owner, own1: Owner, own2: Owner, i: nat)
    requires Frame(s, t, own, own1, i) && Frame(t, u, own1, own2, i)
    ensures Frame(s, u, own, own2, i)
  {
    hide NodeAt;
  }

  lemma KeptTrans(s: Fs, t: Fs, u: Fs, i: nat)
    requires Kept(s, t, i) && Kept(t, u, i)
    ensures Kept(s, u, i)
  {
    hide Ptr;
  }

  lemma OthersTrans(s: Fs, t: Fs, u: Fs, own: Owner, own1: Owner, own2: Owner, i: nat)
    requires Others(s, t, own, own1, i) && Others(t, u, own1, own2, i)
    ensures Others(s, u, own, own2, i)
  {
    hide NodeAt;
  }

  lemma SameAllTrans(s: Fs, t: Fs, u: Fs, own: Owner, own1: Owner)
    requires SameAll(s, t, own) && SameAll(t, u, own1) && SameNodes(own, own1)
    ensures SameAll(s, u, own)
  {
    hide Byte;
    forall j: nat, off: nat | IsNode(own, j) ensures Byte(u, j, off) == Byte(s, j, off) {
      assert SameBytes(s, t, j) && SameBytes(t, u, j);
    }
  }

  /** Slot (i, k) is the only slot whose pointer may differ. */
  ghost predicate OtherPtrs(s: Fs, t: Fs, own: Owner, i: nat, k: nat) {
    forall j: nat, m: nat :: IsNode(own, j) && m <= INDIRECT && (j != i || m != k) ==> Ptr(t, j, m) == Ptr(s, j, m)
  }

  /** Data blocks keep their contents. */
  ghost predicate SameData(s: Fs, t: Fs, own: Owner) {
    && |t.disk| == |s.disk|
    && forall p: nat :: p in own && own[p].Part? && own[p].slot < MAXBLOCKS && p < |s.disk| ==> t.disk[p] == s.disk[p]
  }

  ghost predicate SamePtrs(s: Fs, t: Fs, own: Owner) {
    forall j: nat, m: nat :: IsNode(own, j) && m <= INDIRECT ==> Ptr(t, j, m) == Ptr(s, j, m)
  }

  lemma SamePtrsOwned(s: Fs, t: Fs, own: Owner)
    requires PartsOwned(s, own) && SamePtrs(s, t, own)
    ensures PartsOwned(t, own)
  {
  }

  lemma SamePtrsBytes(s: Fs, t: Fs, own: Owner)
    requires PartsOwned(s, own) && SamePtrs(s, t, own) && SameData(s, t, own)
    ensures SameAll(s, t, own)
  {
    forall j: nat, off: nat | IsNode(own, j) ensures Byte(t, j, off) == Byte(s, j, off) {
      var m := off / BLOCKSIZE;
      if m < MAXBLOCKS { assert Ptr(t, j, m) == Ptr(s, j, m); }
    }
  }

  // ---- a free block is hung on an empty slot

  /** A block the freemap shows as free is a real block of the volume, and no one's. */
  lemma FreeInRange(s: Fs, own: Owner, b: nat)
    requires MarksOwned(s, own) && b < |s.marks| && !s.marks[b]
    ensures b !in own && 0 < b < |s.disk| && !Reserved(|s.disk|, b)
  {
    assert b !in own;
  }

  lemma AttachMarks(s: Fs, own: Owner, t: Fs, r: Role, b: nat)
    requires MarksOwned(s, own) && !r.Meta?
    requires b < |s.marks| && !s.marks[b] && t.marks == s.marks[b := true] && |s.disk| == |t.disk|
    ensures MarksOwned(t, own[b := r]) && b !in own && 0 < b < |s.disk|
  {
    assert b !in own;
  }

  lemma AttachParts(s: Fs, own: Owner, t: Fs, i: nat, k: nat, b: nat)
    requires PartsOwned(s, own) && IsNode(own, i) && k <= INDIRECT && Ptr(s, i, k) == 0
    requires b !in own && b != 0
    requires Ptr(t, i, k) == b && OtherPtrs(s, t, own, i, k)
    ensures PartsOwned(t, own[b := Part(i, k)]) && SameNodes(own, own[b := Part(i, k)])
  {
  }

  lemma AttachBytes(s: Fs, own: Owner, t: Fs, i: nat, k: nat, b: nat)
    requires PartsOwned(s, own) && IsNode(own, i) && k <= INDIRECT && Ptr(s, i, k) == 0
    requires SameData(s, t, own) && 0 < b < |t.disk| && t.disk[b] == ZERO
    requires Ptr(t, i, k) == b && OtherPtrs(s, t, own, i, k)
    ensures SameAll(s, t, own)
  {
    forall j: nat | IsNode(own, j) ensures SameBytes(s, t, j) {
      forall off: nat ensures Byte(t, j, off) == Byte(s, j, off) {
        var m := off / BLOCKSIZE;
        if m < MAXBLOCKS && (j != i || m != k) { assert Ptr(t, j, m) == Ptr(s, j, m); }
      }
    }
  }

  /** A newly allocated, zeroed block hung on an empty slot changes the contents of no file. */
  lemma Attach(s: Fs, own: Owner, t: Fs, i: nat, k: nat, b: nat)
    requires Consistent(s, own) && IsNode(own, i) && k <= INDIRECT && Ptr(s, i, k) == 0
    requires b < |s.disk| && b < |s.marks| && !s.marks[b] && t.marks == s.marks[b := true]
    requires SameData(s, t, own) && t.disk[b] == ZERO
    requires Ptr(t, i, k) == b && OtherPtrs(s, t, own, i, k) && CacheOk(t, own)
    ensures Consistent(t, own[b := Part(i, k)]) && SameNodes(own, own[b := Part(i, k)])
    ensures SameAll(s, t, own)
  {
    AttachMarks(s, own, t, Part(i, k), b);
    AttachParts(s, own, t, i, k, b);
    AttachBytes(s, own, t, i, k, b);
  }

  /** Zeroing a free block moves no pointer. */
  lemma FreeBlock(s: Fs, own: Owner, b: nat, c: Fs)
    requires Consistent(s, own) && b < |s.disk| && b !in own && c == s.(disk := s.disk[b := ZERO])
    ensures forall j: nat :: IsNode(own, j) ==> NodeAt(c, j) == NodeAt(s, j)
    ensures SamePtrs(s, c, own)
    ensures Consistent(c, own)
  {
    hide Byte, ToWords, ToBytes;
    forall j: nat | IsNode(own, j) ensures NodeAt(c, j) == NodeAt(s, j) {}
    forall j: nat, m: nat | IsNode(own, j) && m <= INDIRECT ensures Ptr(c, j, m) == Ptr(s, j, m) {
      assert NodeAt(s, j).indirect == Ptr(s, j, INDIRECT);
    }
  }

  /** A loaded vnode's cached inode is replaced and marked dirty. */
  function SetNode(s: Fs, i: nat, n: Inode): Fs
    requires i in s.vnodes
  {
    s.(vnodes := s.vnodes[i := Vnode(n, true, s.vnodes[i].refs)])
  }

  /** The volume after balloc returned b: marked and zeroed. */
  function Cleared(s: Fs, b: nat): Fs
    requires b < |s.disk| && b < |s.marks|
  {
    s.(disk := s.disk[b := ZERO], marks := s.marks[b := true])
  }

  lemma DirectLinks(s: Fs, own: Owner, i: nat, k: nat, b: nat, t: Fs)
    requires Consistent(s, own) && i in s.vnodes && k < NDIRECT && b < |s.disk| && b !in own
    requires var n := s.vnodes[i].inode; t == SetNode(Cleared(s, b), i, n.(direct := n.direct[k := b]))
    ensures Ptr(t, i, k) == b && OtherPtrs(s, t, own, i, k)
  {
    hide Byte, MarksOwned, PartsOwned, CacheOk, ToWords, ToBytes;
    var c := s.(disk := s.disk[b := ZERO]);
    FreeBlock(s, own, b, c);
    forall j: nat, m: nat | IsNode(own, j) && m <= INDIRECT && (j != i || m != k) ensures Ptr(t, j, m) == Ptr(s, j, m) {
      assert Ptr(c, j, m) == Ptr(s, j, m);
    }
  }

  lemma HangDirect(s: Fs, own: Owner, i: nat, k: nat, b: nat, t: Fs)
    requires Consistent(s, own) && i in s.vnodes && k < NDIRECT && Ptr(s, i, k) == 0
    requires b < |s.disk| && b < |s.marks| && !s.marks[b]
    requires var n := s.vnodes[i].inode; t == SetNode(Cleared(s, b), i, n.(direct := n.direct[k := b]))
    ensures Consistent(t, own[b := Part(i, k)]) && Ptr(t, i, k) == b
    ensures Frame(s, t, own, own[b := Part(i, k)], i) && SameAll(s, t, own) && Kept(s, t, i)
  {
    hide Byte, Ptr, MarksOwned, PartsOwned, SameAll;
    FreeInRange(s, own, b);
    DirectLinks(s, own, i, k, b, t);
    Attach(s, own, t, i, k, b);
  }

  lemma IndirectLinks(s: Fs, own: Owner, i: nat, b: nat, t: Fs)
    requires Consistent(s, own) && i in s.vnodes && Ptr(s, i, INDIRECT) == 0 && b < |s.disk| && b !in own && b != 0
    requires t == SetNode(Cleared(s, b), i, s.vnodes[i].inode.(indirect := b))
    ensures Ptr(t, i, INDIRECT) == b && OtherPtrs(s, t, own, i, INDIRECT)
  {
    hide Byte, MarksOwned, PartsOwned, CacheOk, ToWords, ToBytes;
    ZeroWords(DBPERIDB);
    var c := s.(disk := s.disk[b := ZERO]);
    FreeBlock(s, own, b, c);
    forall j: nat, m: nat | IsNode(own, j) && m <= INDIRECT && (j != i || m != INDIRECT)
      ensures Ptr(t, j, m) == Ptr(s, j, m)
    {
      assert Ptr(c, j, m) == Ptr(s, j, m);
    }
  }

  lemma HangIndirect(s: Fs, own: Owner, i: nat, b: nat, t: Fs)
    requires Consistent(s, own) && i in s.vnodes && Ptr(s, i, INDIRECT) == 0
    requires b < |s.disk| && b < |s.marks| && !s.marks[b]
    requires t == SetNode(Cleared(s, b), i, s.vnodes[i].inode.(indirect := b))
    ensures Consistent(t, own[b := Part(i, INDIRECT)]) && Ptr(t, i, INDIRECT) == b
    ensures Frame(s, t, own, own[b := Part(i, INDIRECT)], i) && SameAll(s, t, own) && Kept(s, t, i)
    ensures OtherPtrs(s, t, own, i, INDIRECT)
  {
    hide Byte, Ptr, MarksOwned, PartsOwned, SameAll;
    FreeInRange(s, own, b);
    IndirectLinks(s, own, i, b, t);
    Attach(s, own, t, i, INDIRECT, b);
  }

  /** The indirect block of i is rewritten with word k - NDIRECT set to v. */
  function SetIndexed(s: Fs, i: nat, k: nat, v: u32): Fs
    requires NDIRECT <= k < MAXBLOCKS && 0 < NodeAt(s, i).indirect < |s.disk|
  {
    var p := NodeAt(s, i).indirect;
    s.(disk := s.disk[p := ToBytes(ToWords(s.disk[p])[k - NDIRECT := v])])
  }

  lemma IndexedPtrs(s: Fs, own: Owner, i: nat, k: nat, v: u32, j: nat)
    requires Consistent(s, own) && IsNode(own, i) && IsNode(own, j)
    requires NDIRECT <= k < MAXBLOCKS && 0 < NodeAt(s, i).indirect < |s.disk|
    ensures NodeAt(SetIndexed(s, i, k, v), j) == NodeAt(s, j)
    ensures forall m: nat :: m <= INDIRECT ==>
              Ptr(SetIndexed(s, i, k, v), j, m) == if j == i && m == k then v else Ptr(s, j, m)
  {
    hide Byte, ToWords, ToBytes;
    var p := NodeAt(s, i).indirect;
    assert p == Ptr(s, i, INDIRECT) && own[p] == Part(i, INDIRECT);
    assert NodeAt(s, j).indirect == Ptr(s, j, INDIRECT);
    WordsRoundTrip(ToWords(s.disk[p])[k - NDIRECT := v]);
  }

  lemma IndexedLinks(s: Fs, own: Owner, i: nat, k: nat, b: nat, t: Fs)
    requires Consistent(s, own) && i in s.vnodes && NDIRECT <= k < MAXBLOCKS
    requires Ptr(s, i, INDIRECT) != 0 && NodeAt(s, i).indirect < |s.disk|
    requires b < |s.disk| && b !in own
    requires t == SetIndexed(Cleared(s, b), i, k, b)
    ensures Ptr(t, i, k) == b && OtherPtrs(s, t, own, i, k)
  {
    hide Byte, ToWords, ToBytes;
    var c := s.(disk := s.disk[b := ZERO]);
    assert Ptr(s, i, INDIRECT) in own;
    FreeBlock(s, own, b, c);
    forall j: nat, m: nat | IsNode(own, j) && m <= INDIRECT
      ensures Ptr(t, j, m) == if j == i && m == k then b else Ptr(s, j, m)
    {
      IndexedPtrs(c, own, i, k, b, j);
      assert Ptr(SetIndexed(c, i, k, b), j, m) == if j == i && m == k then b else Ptr(c, j, m);
    }
  }

  lemma HangIndexed(s: Fs, own: Owner, i: nat, k: nat, b: nat, t: Fs)
    requires Consistent(s, own) && i in s.vnodes && NDIRECT <= k < MAXBLOCKS && Ptr(s, i, k) == 0
    requires Ptr(s, i, INDIRECT) != 0 && NodeAt(s, i).indirect < |s.disk|
    requires b < |s.disk| && b < |s.marks| && !s.marks[b]
    requires t == SetIndexed(Cleared(s, b), i, k, b)
    ensures Consistent(t, own[b := Part(i, k)]) && Ptr(t, i, k) == b
    ensures Frame(s, t, own, own[b := Part(i, k)], i) && SameAll(s, t, own) && Kept(s, t, i)
  {
    hide Byte, Ptr, MarksOwned, SameAll;
    FreeInRange(s, own, b);
    PtrIndirect(s, i);
    InUse(s, own, i, INDIRECT);
    IndexedLinks(s, own, i, k, b, t);
    Attach(s, own, t, i, k, b);
  }

  // ---- a data block is rewritten

  /** Writing the block mapped at (i, k) changes those bytes of file i and nothing else. */
  lemma WriteData(s: Fs, own: Owner, i: nat, k: nat, x: Block, t: Fs)
    requires Consistent(s, own) && IsNode(own, i) && k < MAXBLOCKS && Ptr(s, i, k) != 0
    requires Ptr(s, i, k) < |s.disk| && t == s.(disk := s.disk[Ptr(s, i, k) := x])
    ensures Consistent(t, own)
    ensures forall j: nat :: IsNode(own, j) ==> NodeAt(t, j) == NodeAt(s, j)
    ensures SamePtrs(s, t, own)
    ensures forall j: nat :: IsNode(own, j) && j != i ==> SameBytes(s, t, j)
    ensures forall off: nat :: Byte(t, i, off) == if off / BLOCKSIZE == k then x[off % BLOCKSIZE] else Byte(s, i, off)
  {
    hide ToWords, ToBytes;
    var p := Ptr(s, i, k);
    assert own[p] == Part(i, k);
    forall j: nat, m: nat | IsNode(own, j) && m <= INDIRECT ensures Ptr(t, j, m) == Ptr(s, j, m) {
      assert NodeAt(s, j).indirect == Ptr(s, j, INDIRECT);
    }
    forall j: nat, off: nat | IsNode(own, j) ensures off / BLOCKSIZE < MAXBLOCKS ==>
        Byte(t, j, off) == if j == i && off / BLOCKSIZE == k then x[off % BLOCKSIZE] else Byte(s, j, off) {
      if off / BLOCKSIZE < MAXBLOCKS { assert Ptr(t, j, off / BLOCKSIZE) == Ptr(s, j, off / BLOCKSIZE); }
    }
  }

  // ---- an inode's size, type or link count changes

  lemma MarksSame(s: Fs, t: Fs, own: Owner)
    requires MarksOwned(s, own) && t.marks == s.marks && |t.disk| == |s.disk|
    ensures MarksOwned(t, own)
  {
  }

  lemma SetMetaPtr(s: Fs, i: nat, n: Inode, j: nat, m: nat)
    requires i in s.vnodes && n.direct == s.vnodes[i].inode.direct && n.indirect == s.vnodes[i].inode.indirect
    ensures Ptr(SetNode(s, i, n), j, m) == Ptr(s, j, m)
  {
    hide ToWords, NodeOf;
  }

  lemma SetMeta(s: Fs, own: Owner, i: nat, n: Inode, t: Fs)
    requires Consistent(s, own) && i in s.vnodes && t == SetNode(s, i, n)
    requires n.direct == s.vnodes[i].inode.direct && n.indirect == s.vnodes[i].inode.indirect
    ensures Consistent(t, own) && NodeAt(t, i) == n && Others(s, t, own, own, i)
    ensures SamePtrs(s, t, own) && SameAll(s, t, own)
  {
    hide Byte, Ptr, MarksOwned, PartsOwned, NodeOf, SameAll;
    forall j: nat, m: nat | IsNode(own, j) && m <= INDIRECT ensures Ptr(t, j, m) == Ptr(s, j, m) {
      SetMetaPtr(s, i, n, j, m);
    }
    MarksSame(s, t, own);
    SamePtrsOwned(s, t, own);
    SamePtrsBytes(s, t, own);
  }

  // ---- blocks of one file are freed

  /** The roles that remain when file i gives up the slots in gone. */
  function Without(own: Owner, i: nat, gone: set<nat>): Owner {
    map b | b in own && !(own[b].Part? && own[b].ino == i && own[b].slot in gone) :: own[b]
  }

  /** The freemap with those blocks released. */
  ghost predicate Released(own: Owner, i: nat, gone: set<nat>, marks: seq<bool>, marks': seq<bool>) {
    && |marks'| == |marks|
    && forall b: nat {:trigger marks'[b]} :: b < |marks| ==> (marks'[b] <==> marks[b] && b in Without(own, i, gone))
  }

  lemma Detach(s: Fs, own: Owner, t: Fs, i: nat, gone: set<nat>)
    requires Consistent(s, own) && IsNode(own, i) && Released(own, i, gone, s.marks, t.marks)
    requires |t.disk| == |s.disk| && SameData(s, t, Without(own, i, gone))
    requires forall k: nat :: k <= INDIRECT ==> Ptr(t, i, k) == if k in gone then 0 else Ptr(s, i, k)
    requires forall j: nat, m: nat :: IsNode(own, j) && m <= INDIRECT && j != i ==> Ptr(t, j, m) == Ptr(s, j, m)
    requires CacheOk(t, own)
    ensures Consistent(t, Without(own, i, gone)) && SameNodes(own, Without(own, i, gone))
    ensures forall j: nat :: IsNode(own, j) && j != i ==> SameBytes(s, t, j)
    ensures forall off: nat :: Byte(t, i, off) == if off / BLOCKSIZE in gone then 0 else Byte(s, i, off)
  {
    DetachParts(s, own, t, i, gone);
    DetachMarks(s, own, t, i, gone);
    DetachBytes(s, own, t, i, gone);
  }

  lemma DetachMarks(s: Fs, own: Owner, t: Fs, i: nat, gone: set<nat>)
    requires MarksOwned(s, own) && Released(own, i, gone, s.marks, t.marks) && |t.disk| == |s.disk|
    ensures MarksOwned(t, Without(own, i, gone)) && SameNodes(own, Without(own, i, gone))
  {
    var own' := Without(own, i, gone);
    forall b: nat ensures b in own' && own'[b].Meta? <==> b in own && own[b].Meta? {}
    forall b: nat | b < |s.marks| ensures t.marks[b] <==> b in own' {}
  }

  lemma DetachParts(s: Fs, own: Owner, t: Fs, i: nat, gone: set<nat>)
    requires PartsOwned(s, own) && IsNode(own, i)
    requires forall k: nat :: k <= INDIRECT ==> Ptr(t, i, k) == if k in gone then 0 else Ptr(s, i, k)
    requires forall j: nat, m: nat :: IsNode(own, j) && m <= INDIRECT && j != i ==> Ptr(t, j, m) == Ptr(s, j, m)
    ensures PartsOwned(t, Without(own, i, gone))
  {
  }

  lemma DetachBytes(s: Fs, own: Owner, t: Fs, i: nat, gone: set<nat>)
    requires PartsOwned(s, own) && IsNode(own, i) && |t.disk| == |s.disk| && SameData(s, t, Without(own, i, gone))
    requires forall k: nat :: k <= INDIRECT ==> Ptr(t, i, k) == if k in gone then 0 else Ptr(s, i, k)
    requires forall j: nat, m: nat :: IsNode(own, j) && m <= INDIRECT && j != i ==> Ptr(t, j, m) == Ptr(s, j, m)
    ensures forall j: nat :: IsNode(own, j) && j != i ==> SameBytes(s, t, j)
    ensures forall off: nat :: Byte(t, i, off) == if off / BLOCKSIZE in gone then 0 else Byte(s, i, off)
  {
    forall j: nat, off: nat | IsNode(own, j)
      ensures Byte(t, j, off) == if j == i && off / BLOCKSIZE in gone then 0 else Byte(s, j, off)
    {
      var m := off / BLOCKSIZE;
      if m < MAXBLOCKS {
        assert Ptr(t, j, m) == if j == i && m in gone then 0 else Ptr(s, j, m);
      }
    }
  }

  // ---- inodes are created, loaded, written back, unloaded and discarded

  /** A fresh inode: balloc's zeroed block, loaded with its type forced. */
  lemma NewNode(s: Fs, own: Owner, b: nat, kind: u16, t: Fs)
    requires Consistent(s, own) && b < |s.disk| && !s.marks[b]
    requires t == Cleared(s, b).(vnodes := s.vnodes[b := Vnode(EMPTY.(kind := kind), true, 1)])
    ensures Consistent(t, own[b := Node]) && b !in own && b !in s.vnodes && b != 0 &&
            NodeAt(t, b) == EMPTY.(kind := kind)
    ensures forall off: nat :: Byte(t, b, off) == 0
    ensures forall j: nat :: IsNode(own, j) ==> NodeAt(t, j) == NodeAt(s, j) && SameBytes(s, t, j)
  {
    hide ToWords, ToBytes;
    AttachMarks(s, own, t, Node, b);
    var c := s.(disk := s.disk[b := ZERO]);
    FreeBlock(s, own, b, c);
    forall j: nat, m: nat | IsNode(own, j) && m <= INDIRECT ensures Ptr(t, j, m) == Ptr(s, j, m) {
      assert Ptr(c, j, m) == Ptr(s, j, m);
    }
    SamePtrsBytes(s, t, own);
    forall m: nat | m <= INDIRECT ensures Ptr(t, b, m) == 0 {}
    NewParts(s, own, t, b);
  }

  lemma NewParts(s: Fs, own: Owner, t: Fs, b: nat)
    requires PartsOwned(s, own) && SamePtrs(s, t, own) && b !in own
    requires forall m: nat :: m <= INDIRECT ==> Ptr(t, b, m) == 0
    ensures PartsOwned(t, own[b := Node])
  {
  }

  /** Changing only how inodes are cached, with every inode's value kept, changes nothing else. */
  lemma Recached(s: Fs, own: Owner, t: Fs)
    requires Consistent(s, own) && t.marks == s.marks && |t.disk| == |s.disk| && CacheOk(t, own)
    requires forall j: nat :: IsNode(own, j) ==> NodeAt(t, j) == NodeAt(s, j)
    requires forall p: nat :: p < |s.disk| && p in own && own[p].Part? ==> t.disk[p] == s.disk[p]
    ensures Consistent(t, own)
    ensures SameAll(s, t, own) && SamePtrs(s, t, own)
  {
    hide Byte, MarksOwned, ToWords, ToBytes;
    forall j: nat, m: nat | IsNode(own, j) && m <= INDIRECT ensures Ptr(t, j, m) == Ptr(s, j, m) {
      assert NodeAt(s, j).indirect == Ptr(s, j, INDIRECT);
    }
    MarksSame(s, t, own);
    SamePtrsOwned(s, t, own);
    SamePtrsBytes(s, t, own);
  }

  /** An inode without blocks is unloaded and its own block released. */
  lemma DropNode(s: Fs, own: Owner, i: nat, t: Fs)
    requires Consistent(s, own) && i in s.vnodes && i < |s.marks| && forall k: nat :: k <= INDIRECT ==>
               Ptr(s, i, k) == 0
    requires t == s.(marks := s.marks[i := false], vnodes := s.vnodes - {i})
    ensures Consistent(t, own - {i})
    ensures forall j: nat :: IsNode(own, j) && j != i ==> NodeAt(t, j) == NodeAt(s, j) && SameBytes(s, t, j)
  {
    hide Byte, ToWords, ToBytes;
    var own' := own - {i};
    assert PartsOwned(s, own');
    forall j: nat, m: nat | IsNode(own', j) && m <= INDIRECT ensures Ptr(t, j, m) == Ptr(s, j, m) {}
    SamePtrsOwned(s, t, own');
    SamePtrsBytes(s, t, own');
  }
}
