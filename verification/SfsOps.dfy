/** Model of the vnode operations of kern/fs/sfs/sfs_vnode.c: lookup, creat, link, remove, rename and reclaim. */
module SfsOps {
  import opened Words
  import opened Uio
  import opened SfsState
  import opened SfsBlocks
  import opened SfsTransfer
  import opened SfsVolume
  import opened SfsMeta
  import opened SfsTruncate
  import opened SfsDirent
  import opened SfsDir

  /** Link counts agree with the directory; an inode is allocated only while it is named or loaded. */
  ghost predicate LinksOk(s: Fs, own: Owner) {
    && (forall i: nat :: IsNode(own, i) ==> NodeAt(s, i).links == Count(Dir(s), i) + if i == ROOT then 1 else 0)
    && (forall i: nat :: IsNode(own, i) ==> i in s.vnodes || i == ROOT || Count(Dir(s), i) > 0)
    && (forall i: nat :: IsNode(own, i) && i != ROOT ==> NodeAt(s, i).kind == TYPE_FILE)
    && (forall k :: 0 <= k < |Dir(s)| && Dir(s)[k].ino != 0 ==> IsNode(own, Dir(s)[k].ino))
  }

  ghost predicate DirOk(s: Fs, own: Owner) {
    RootOk(s, own) && Unique(Dir(s)) && LinksOk(s, own)
  }

  /** The invariant of every reachable state. */
  ghost predicate Sound(fs: Volume)
    reads fs, fs.freemap.v
  {
    fs.Valid() && DirOk(fs.View(), fs.own)
  }

  /** References held on inode i. */
  function Refs(s: Fs, i: nat): nat {
    if i in s.vnodes then s.vnodes[i].refs else 0
  }

  ghost predicate SameRefs(s: Fs, t: Fs) {
    forall i: nat :: Refs(t, i) == Refs(s, i)
  }

  /** The files, other than the directory, have the same type, size and bytes. */
  ghost predicate SameFiles(s: Fs, t: Fs, own: Owner) {
    forall j: nat :: IsNode(own, j) && j != ROOT ==>
      SameBytes(s, t, j) && NodeAt(t, j).size == NodeAt(s, j).size && NodeAt(t, j).kind == NodeAt(s, j).kind
  }

  // ---- loading and releasing vnodes

  function Loaded(s: Fs, i: nat): Fs {
    s.(vnodes := s.vnodes[i := if i in s.vnodes then s.vnodes[i].(refs := s.vnodes[i].refs + 1)
                               else Vnode(NodeAt(s, i), false, 1)])
  }

  lemma LoadedSame(s: Fs, own: Owner, i: nat)
    requires Consistent(s, own) && IsNode(own, i)
    ensures Consistent(Loaded(s, i), own) && SameAll(s, Loaded(s, i), own)
    ensures forall j: nat :: NodeAt(Loaded(s, i), j) == NodeAt(s, j)
  {
    hide Byte, Ptr, MarksOwned, PartsOwned, SameAll;
    Recached(s, own, Loaded(s, i));
  }

  /** Invariants that depend only on files and directory survive when these do. */
  lemma StillOk(s: Fs, t: Fs, own: Owner, own': Owner)
    requires DirOk(s, own) && SameNodes(own, own')
    requires forall j: nat :: IsNode(own, j) ==>
               NodeAt(t, j).links == NodeAt(s, j).links && NodeAt(t, j).kind == NodeAt(s, j).kind
    requires SameBytes(s, t, ROOT) && NodeAt(t, ROOT).size == NodeAt(s, ROOT).size
    requires forall j: nat :: IsNode(own, j) && j in s.vnodes && j !in t.vnodes ==> j == ROOT || NodeAt(s, j).links > 0
    ensures DirOk(t, own') && Dir(t) == Dir(s)
  {
    hide NodeAt, Byte, Dir, Count;
    DirSame(s, t);
  }

  /** Every loaded inode, and the one to be loaded, is a file or directory in a marked block of the volume. */
  lemma Loadable(s: Fs, own: Owner, i: nat)
    requires Consistent(s, own) && DirOk(s, own) && (i in s.vnodes || IsNode(own, i))
    ensures i < |s.disk| <= |s.marks| && s.marks[i] && NodeAt(s, i).kind in {TYPE_FILE, TYPE_DIR}
  {
    hide NodeAt, PartsOwned, Dir, Count, Unique, Reserved;
    assert i in own;
  }

  /** sfs_loadvnode of an allocated inode; none of its panics can fire. */
  method LoadVnode(fs: Volume, i: nat)
    requires Sound(fs) && IsNode(fs.own, i)
    modifies fs`vnodes
    ensures Sound(fs) && fs.View() == Loaded(old(fs.View()), i)
    ensures SameAll(old(fs.View()), fs.View(), fs.own) && Dir(fs.View()) == Dir(old(fs.View()))
    ensures forall j: nat :: NodeAt(fs.View(), j) == NodeAt(old(fs.View()), j)
  {
    hide Byte, Ptr, MarksOwned, PartsOwned, CacheOk, SameAll, DirOk, Dir, MetaOk;
    ghost var s := fs.View();
    LoadedSame(s, fs.own, i);
    forall j | j in fs.vnodes || j == i ensures j < |fs.disk| && j < 8 * fs.freemap.v.Length && fs.freemap.IsSet(j) {
      Loadable(s, fs.own, j);
    }
    if i in fs.vnodes {
      fs.vnodes := fs.vnodes[i := fs.vnodes[i].(refs := fs.vnodes[i].refs + 1)];
    } else {
      var n := NodeOf(fs.disk[i]);
      Loadable(s, fs.own, i);
      assert n.kind == TYPE_FILE || n.kind == TYPE_DIR;
      fs.vnodes := fs.vnodes[i := Vnode(n, false, 1)];
    }
    assert fs.View() == Loaded(s, i);
    LoadedOk(s, fs.own, i);
  }

  lemma LoadedOk(s: Fs, own: Owner, i: nat)
    requires Consistent(s, own) && IsNode(own, i) && DirOk(s, own)
    ensures DirOk(Loaded(s, i), own) && Dir(Loaded(s, i)) == Dir(s)
  {
    hide Consistent, NodeAt, DirOk, Dir, Byte;
    LoadedSame(s, own, i);
    StillRoot(s, own);
    assert SameBytes(s, Loaded(s, i), ROOT);
    StillOk(s, Loaded(s, i), own, own);
  }

  lemma StillRoot(s: Fs, own: Owner)
    requires DirOk(s, own)
    ensures IsNode(own, ROOT)
  {
  }

  function Synced(s: Fs, i: nat): Fs
    requires i in s.vnodes && i < |s.disk|
  {
    if s.vnodes[i].dirty then
      s.(disk := s.disk[i := NodeBlock(s.vnodes[i].inode)], vnodes := s.vnodes[i := s.vnodes[i].(dirty := false)])
    else s
  }

  lemma SyncedSame(s: Fs, own: Owner, i: nat)
    requires Consistent(s, own) && i in s.vnodes && i < |s.disk|
    ensures var t := Synced(s, i); Consistent(t, own) && SameAll(s, t, own) && SamePtrs(s, t, own)
    ensures forall j: nat :: NodeAt(Synced(s, i), j) == NodeAt(s, j)
  {
    hide Byte, Ptr, MarksOwned, PartsOwned, SameAll, NodeOf, NodeBlock;
    NodeRoundTrip(s.vnodes[i].inode);
    Recached(s, own, Synced(s, i));
  }

  /** sfs_sync_inode */
  method SyncInode(fs: Volume, i: nat)
    requires fs.Valid() && i in fs.vnodes
    modifies fs`disk, fs`vnodes
    ensures fs.Valid() && i < |fs.disk| && i in fs.vnodes && !fs.vnodes[i].dirty
    ensures i < |old(fs.disk)| && fs.View() == Synced(old(fs.View()), i)
    ensures SameAll(old(fs.View()), fs.View(), fs.own)
    ensures forall j: nat :: NodeAt(fs.View(), j) == NodeAt(old(fs.View()), j)
  {
    hide Byte, Ptr, MarksOwned, PartsOwned, CacheOk, SameAll, NodeOf, NodeBlock, NodeAt, MetaOk;
    InRange(fs.View(), fs.own, i);
    SyncedSame(fs.View(), fs.own, i);
    if fs.vnodes[i].dirty {
      MetaKept(fs.disk, i, NodeBlock(fs.vnodes[i].inode), fs.marks, fs.freemapdirty);
      fs.disk := fs.disk[i := NodeBlock(fs.vnodes[i].inode)];
      fs.vnodes := fs.vnodes[i := fs.vnodes[i].(dirty := false)];
    }
  }

  lemma InRange(s: Fs, own: Owner, i: nat)
    requires Consistent(s, own) && i in s.vnodes
    ensures i < |s.disk| && i < |s.marks| && s.marks[i] && !Reserved(|s.disk|, i)
  {
    assert i in own;
  }

  /** An inode that is still named is unloaded. */
  lemma Unloaded(s: Fs, own: Owner, i: nat)
    requires Consistent(s, own) && i in s.vnodes && !s.vnodes[i].dirty
    ensures var t := s.(vnodes := s.vnodes - {i}); Consistent(t, own) && SameAll(s, t, own)
    ensures forall j: nat :: IsNode(own, j) ==> NodeAt(s.(vnodes := s.vnodes - {i}), j) == NodeAt(s, j)
  {
    hide Byte, Ptr, MarksOwned, PartsOwned, SameAll;
    Recached(s, own, s.(vnodes := s.vnodes - {i}));
  }

  /** What releasing the last reference on inode i may do: forget it, and free it if it has no name. */
  ghost predicate Released1(s: Fs, t: Fs, own: Owner, own': Owner, i: nat, freed: bool) {
    && (forall j: nat :: IsNode(own', j) <==> IsNode(own, j) && !(freed && j == i))
    && (forall j: nat :: IsNode(own', j) ==> NodeAt(t, j) == NodeAt(s, j) && SameBytes(s, t, j))
  }

  lemma KeptFile(s: Fs, own: Owner, i: nat, t: Fs)
    requires Consistent(s, own) && i in s.vnodes && i < |s.disk| &&
             t == Synced(s, i).(vnodes := Synced(s, i).vnodes - {i})
    ensures Consistent(t, own) && Released1(s, t, own, own, i, false)
  {
    hide Consistent, Byte, Ptr, NodeAt;
    SyncedSame(s, own, i);
    Unloaded(Synced(s, i), own, i);
    forall j: nat | IsNode(own, j) ensures SameBytes(s, t, j) {
      assert SameBytes(s, Synced(s, i), j) && SameBytes(Synced(s, i), t, j);
    }
  }

  lemma FreedFile(s: Fs, s1: Fs, own: Owner, own1: Owner, i: nat, t: Fs)
    requires Truncated(s, s1, own, own1, i, 0) && Consistent(s1, own1) && i in s1.vnodes &&
             s1.vnodes[i].inode.indirect == 0
    requires i < |s1.disk| && i < |s1.marks| &&
             t == Synced(s1, i).(marks := s1.marks[i := false], vnodes := Synced(s1, i).vnodes - {i})
    ensures Consistent(t, own1 - {i}) && Released1(s, t, own, own1 - {i}, i, true)
  {
    hide Consistent, Byte, Ptr, NodeAt;
    var s2 := Synced(s1, i);
    SyncedSame(s1, own1, i);
    PtrIndirect(s1, i);
    Live(s1, own1, i);
    forall k: nat | k <= INDIRECT ensures Ptr(s2, i, k) == 0 { AllGone(k); }
    DropNode(s2, own1, i, t);
    forall j: nat | IsNode(own1, j) && j != i ensures SameBytes(s, t, j) && NodeAt(t, j) == NodeAt(s, j) {
      assert SameBytes(s, s1, j) && SameBytes(s1, s2, j) && SameBytes(s2, t, j);
    }
  }

  /** Truncation to zero gives up every block. */
  lemma AllGone(k: nat)
    ensures k < MAXBLOCKS ==> k in Gone(0)
  {
  }

  /** sfs_reclaim of a vnode with one reference left: a file with links stays, one without goes, blocks and all. */
  method Reclaim(fs: Volume, i: nat)
    requires Sound(fs) && i in fs.vnodes
    modifies fs, fs.freemap.v
    ensures fs.Valid() &&
            Released1(old(fs.View()), fs.View(), old(fs.own), fs.own, i, old(fs.vnodes[i].inode.links) == 0)
    ensures fs.vnodes.Keys == old(fs.vnodes.Keys) - {i}
    ensures forall j: nat :: Refs(fs.View(), j) == if j == i then 0 else Refs(old(fs.View()), j)
  {
    hide Consistent, Byte, Ptr, NodeAt, SameAll, DirOk, NodeBlock, MetaOk;
    ghost var s, own := fs.View(), fs.own;
    InRange(s, own, i);
    if fs.vnodes[i].inode.links == 0 {
      Truncate(fs, i, 0);
    }
    ghost var s1, own1 := fs.View(), fs.own;
    SyncInode(fs, i);
    if fs.vnodes[i].inode.links == 0 {
      InRange(fs.View(), fs.own, i);
      fs.Bfree(i);
    }
    fs.vnodes := fs.vnodes - {i};
    if s.vnodes[i].inode.links == 0 {
      FreedFile(s, s1, own, own1, i, fs.View());
      fs.own := fs.own - {i};
    } else {
      KeptFile(s, own, i, fs.View());
    }
  }

  lemma ReleasedOk(s: Fs, t: Fs, own: Owner, own': Owner, i: nat, freed: bool)
    requires DirOk(s, own) && Released1(s, t, own, own', i, freed) && IsNode(own, i)
    requires forall j: nat :: j != i ==> (j in t.vnodes <==> j in s.vnodes)
    requires if freed then NodeAt(s, i).links == 0 else i in t.vnodes || NodeAt(s, i).links > 0
    ensures DirOk(t, own') && Dir(t) == Dir(s)
  {
    hide NodeAt, Byte, Dir, Count;
    assert IsNode(own', ROOT);
    DirSame(s, t);
    forall k | 0 <= k < |Dir(t)| && Dir(t)[k].ino != 0 ensures IsNode(own', Dir(t)[k].ino) {
      CountSome(Dir(s), k);
    }
  }

  lemma FewerRefs(s: Fs, own: Owner, i: nat, t: Fs)
    requires Consistent(s, own) && i in s.vnodes && s.vnodes[i].refs > 1
    requires t == s.(vnodes := s.vnodes[i := s.vnodes[i].(refs := s.vnodes[i].refs - 1)])
    ensures Consistent(t, own) && Released1(s, t, own, own, i, false)
  {
    hide Byte, Ptr, MarksOwned, PartsOwned;
    Recached(s, own, t);
  }

  /** VOP_DECREF: one reference fewer; the last one reclaims the vnode. */
  method Decref(fs: Volume, i: nat)
    requires Sound(fs) && i in fs.vnodes
    modifies fs, fs.freemap.v
    ensures Sound(fs) && Dir(fs.View()) == Dir(old(fs.View()))
    ensures Released1(old(fs.View()), fs.View(), old(fs.own), fs.own, i,
                      old(fs.vnodes[i].refs == 1 && fs.vnodes[i].inode.links == 0))
    ensures forall j: nat :: Refs(fs.View(), j) == if j == i then old(fs.vnodes[i].refs) - 1
              else Refs(old(fs.View()), j)
  {
    hide Consistent, Byte, Ptr, DirOk, Released1, Dir, MetaOk;
    ghost var s, own := fs.View(), fs.own;
    Live(s, own, i);
    RefsPositive(s, own, i);
    if fs.vnodes[i].refs > 1 {
      fs.vnodes := fs.vnodes[i := fs.vnodes[i].(refs := fs.vnodes[i].refs - 1)];
      FewerRefs(s, own, i, fs.View());
      ReleasedOk(s, fs.View(), own, fs.own, i, false);
    } else {
      Reclaim(fs, i);
      ReleasedOk(s, fs.View(), own, fs.own, i, s.vnodes[i].inode.links == 0);
    }
  }

  lemma RefsPositive(s: Fs, own: Owner, i: nat)
    requires Consistent(s, own) && i in s.vnodes
    ensures s.vnodes[i].refs > 0
  {
  }

  // ---- creating inodes and changing names

  lemma NewOk(s: Fs, t: Fs, own: Owner, b: nat)
    requires DirOk(s, own) && b !in own && b != 0 && b != ROOT
    requires t.vnodes.Keys == s.vnodes.Keys + {b} && NodeAt(t, b).links == 0 && NodeAt(t, b).kind == TYPE_FILE
    requires forall j: nat :: IsNode(own, j) ==> NodeAt(t, j) == NodeAt(s, j) && SameBytes(s, t, j)
    ensures DirOk(t, own[b := Node]) && Dir(t) == Dir(s)
  {
    hide NodeAt, Byte, Dir, Count;
    assert IsNode(own, ROOT);
    DirSame(s, t);
    if Count(Dir(s), b) > 0 {
      var k := CountNone(Dir(s), b);
      assert false;
    }
  }

  lemma ClearedBlock(s: Fs, b: nat)
    requires b < |s.disk| && b < |s.marks|
    ensures |Cleared(s, b).disk| == |s.disk| && Cleared(s, b).disk[b] == ZERO && Cleared(s, b).vnodes == s.vnodes
  {
  }

  /** sfs_makeobj of a file: a fresh inode, loaded once, empty and without links. */
  method MakeObj(fs: Volume) returns (err: Error, b: nat)
    requires Sound(fs)
    modifies fs, fs.freemap.v
    ensures Sound(fs) && Dir(fs.View()) == Dir(old(fs.View()))
    ensures err == OK || err == ENOSPC
    ensures err == ENOSPC ==> fs.View() == old(fs.View()) && fs.own == old(fs.own) && Full(fs.View())
    ensures err == OK ==>
              b !in old(fs.own) && b != 0 && b != ROOT && b < 0x1_0000_0000 && fs.own == old(fs.own)[b := Node]
    ensures err == OK ==>
              b !in old(fs.vnodes) && fs.vnodes == old(fs.vnodes)[b := Vnode(EMPTY.(kind := TYPE_FILE), true, 1)]
    ensures err == OK ==> forall off: nat :: Byte(fs.View(), b, off) == 0
    ensures err == OK ==>
              forall j: nat :: IsNode(old(fs.own), j) ==>
                NodeAt(fs.View(), j) == NodeAt(old(fs.View()), j) && SameBytes(old(fs.View()), fs.View(), j)
  {
    hide Consistent, Byte, Ptr, DirOk, Dir, NodeAt, NodeOf, Cleared, MetaOk;
    ghost var s, own := fs.View(), fs.own;
    err, b := fs.Balloc();
    if err != OK {
      return;
    }
    ClearedBlock(s, b);
    ZeroNode();
    var n := NodeOf(fs.disk[b]);
    assert n.kind == TYPE_INVAL;
    fs.vnodes := fs.vnodes[b := Vnode(n.(kind := TYPE_FILE), true, 1)];
    NewNode(s, own, b, TYPE_FILE, fs.View());
    fs.own := fs.own[b := Node];
    StillRoot(s, own);
    NewOk(s, fs.View(), own, b);
  }

  /** The directory was rewritten as d' and the link count of i set accordingly. */
  ghost predicate Relinked(s: Fs, t: Fs, own: Owner, own': Owner, i: nat, d': seq<Dirent>, links: int) {
    && SameNodes(own, own') && t.vnodes.Keys == s.vnodes.Keys && IsNode(own, i)
    && Dir(t) == d' && RootOk(t, own')
    && NodeAt(t, i).links == links
    && (forall j: nat :: IsNode(own, j) && j != i ==> NodeAt(t, j).links == NodeAt(s, j).links)
    && SameFiles(s, t, own)
  }

  lemma RelinkedOk(s: Fs, t: Fs, own: Owner, own': Owner, i: nat, d': seq<Dirent>, links: int)
    requires DirOk(s, own) && Relinked(s, t, own, own', i, d', links) && i in s.vnodes
    requires Unique(d') && links == Count(d', i) + if i == ROOT then 1 else 0
    requires forall j: nat :: j != 0 && j != i ==> Count(d', j) == Count(Dir(s), j)
    requires forall k :: 0 <= k < |d'| && d'[k].ino != 0 ==> IsNode(own, d'[k].ino)
    requires !IsNode(own, 0)
    ensures DirOk(t, own')
  {
    hide NodeAt, Byte, Dir, Count, SameBytes;
  }

  lemma LinksBound(s: Fs, own: Owner, i: nat)
    requires DirOk(s, own) && IsNode(own, i)
    ensures Count(Dir(s), i) <= 1144 && NodeAt(s, i).links <= 1145
    ensures NodeAt(s, i).links == Count(Dir(s), i) + if i == ROOT then 1 else 0
  {
    hide NodeAt;
  }

  lemma NotZero(s: Fs, own: Owner)
    requires Consistent(s, own)
    ensures !IsNode(own, 0) && forall i: nat :: IsNode(own, i) ==> i < 0x1_0000_0000
  {
    hide PartsOwned, CacheOk;
    assert 0 in own ==> 0 < |s.marks|;
  }

  /** The link count of a loaded inode is set: the last step of link, remove and rename. */
  method SetLinks(fs: Volume, i: nat, links: u16, ghost s: Fs, ghost own: Owner)
    requires fs.Valid() && i in fs.vnodes && RootOk(fs.View(), fs.own)
    requires Others(s, fs.View(), own, fs.own, ROOT) && ROOT in s.vnodes && ROOT in fs.vnodes
    requires fs.vnodes[ROOT].inode.links == s.vnodes[ROOT].inode.links
    requires forall j: nat :: IsNode(own, j) && j != ROOT ==> SameBytes(s, fs.View(), j)
    modifies fs`vnodes
    ensures fs.Valid() && SameRefs(s, fs.View()) && fs.vnodes.Keys == old(fs.vnodes.Keys)
    ensures Relinked(s, fs.View(), own, fs.own, i, Dir(old(fs.View())), links)
  {
    hide Consistent, Byte, Ptr, Dir, MetaOk;
    ghost var t := fs.View();
    var v := fs.vnodes[i];
    fs.vnodes := fs.vnodes[i := Vnode(v.inode.(links := links), true, v.refs)];
    SetMeta(t, fs.own, i, fs.vnodes[i].inode, fs.View());
    Live(t, fs.own, i);
    assert SameBytes(t, fs.View(), ROOT);
    DirSame(t, fs.View());
    forall j: nat | IsNode(own, j) && j != ROOT ensures SameBytes(s, fs.View(), j) {
      assert SameBytes(s, t, j) && SameBytes(t, fs.View(), j);
    }
  }

  /** sfs_link: a new name for a loaded inode. */
  method Link(fs: Volume, name: Name, i: nat) returns (err: Error, slot: nat)
    requires Sound(fs) && ROOT in fs.vnodes && i in fs.vnodes
    modifies fs, fs.freemap.v
    ensures Sound(fs) && SameNodes(old(fs.own), fs.own) && fs.vnodes.Keys == old(fs.vnodes.Keys)
    ensures SameRefs(old(fs.View()), fs.View()) && SameFiles(old(fs.View()), fs.View(), old(fs.own))
    ensures err == EEXIST <==> exists j: nat :: Bound(Dir(old(fs.View())), name, j)
    ensures err in {OK, EEXIST, ENAMETOOLONG, ENOSPC, EINVAL}
    ensures err == ENAMETOOLONG <==> |name| >= NAMELEN && forall j: nat :: !Bound(Dir(old(fs.View())), name, j)
    ensures (err == ENOSPC ==> Full(fs.View())) && (err == EINVAL ==> DirFull(old(fs.View())))
    ensures err == OK ==>
              slot <= |Dir(old(fs.View()))| && (slot < |Dir(old(fs.View()))| ==> Dir(old(fs.View()))[slot].ino == 0)
    ensures i < 0x1_0000_0000 && Dir(fs.View()) == if err == OK
              then Put(Dir(old(fs.View())), slot, Dirent(i, name)) else Dir(old(fs.View()))
  {
    hide Consistent, Byte, Ptr, Dir, NodeAt, SameAll, Put, Unique, SameFiles, Relinked, DirOk, Others, SameRefs, MetaOk;
    ghost var s, own := fs.View(), fs.own;
    NotZero(s, own);
    Live(s, own, i);
    DirParts(s, own);
    err, slot := DirLink(fs, name, i);
    OthersKeys(s, fs.View(), own, fs.own, ROOT);
    if err != OK {
      LinkFailed(s, fs.View(), own, fs.own);
      return;
    }
    LinksBound(s, own, i);
    ghost var t, own1 := fs.View(), fs.own;
    LoadedLinks(s, t, own, own1, i);
    SetLinks(fs, i, fs.vnodes[i].inode.links + 1, s, own);
    LinkDone(s, fs.View(), own, fs.own, i, name, slot);
  }

  lemma OthersKeys(s: Fs, t: Fs, own: Owner, own': Owner, i: nat)
    requires Others(s, t, own, own', i)
    ensures t.vnodes.Keys == s.vnodes.Keys && SameNodes(own, own')
  {
  }

  lemma DirParts(s: Fs, own: Owner)
    requires DirOk(s, own)
    ensures RootOk(s, own) && Unique(Dir(s)) && IsNode(own, ROOT)
  {
  }

  lemma LoadedLinks(s: Fs, t: Fs, own: Owner, own': Owner, i: nat)
    requires Others(s, t, own, own', ROOT) && i in s.vnodes && i in t.vnodes && IsNode(own, i)
    requires ROOT in s.vnodes && ROOT in t.vnodes && t.vnodes[ROOT].inode.links == s.vnodes[ROOT].inode.links
    ensures t.vnodes[i].inode.links == s.vnodes[i].inode.links == NodeAt(s, i).links
  {
    if i != ROOT { assert NodeAt(t, i) == NodeAt(s, i); }
  }

  lemma LinkFailed(s: Fs, t: Fs, own: Owner, own': Owner)
    requires DirOk(s, own) && Others(s, t, own, own', ROOT) && RootOk(t, own') && Dir(t) == Dir(s)
    requires ROOT in s.vnodes && ROOT in t.vnodes && t.vnodes[ROOT].inode.links == s.vnodes[ROOT].inode.links
    requires forall j: nat :: IsNode(own, j) && j != ROOT ==> SameBytes(s, t, j)
    ensures DirOk(t, own') && SameFiles(s, t, own) && SameRefs(s, t)
  {
    hide Byte, Dir, Count, SameBytes;
  }

  lemma LinkDone(s: Fs, t: Fs, own: Owner, own': Owner, i: nat, name: Name, slot: nat)
    requires DirOk(s, own) && i in s.vnodes && 0 < i < 0x1_0000_0000 && IsNode(own, i) && !IsNode(own, 0)
    requires slot <= |Dir(s)| && (slot < |Dir(s)| ==> Dir(s)[slot].ino == 0) && forall j: nat :: !Bound(Dir(s), name, j)
    requires Relinked(s, t, own, own', i, Put(Dir(s), slot, Dirent(i, name)), NodeAt(s, i).links + 1)
    ensures DirOk(t, own') && SameFiles(s, t, own) && Dir(t) == Put(Dir(s), slot, Dirent(i, name))
  {
    hide NodeAt, Byte, Dir, Count, SameFiles;
    var d' := Put(Dir(s), slot, Dirent(i, name));
    PutBinds(Dir(s), slot, Dirent(i, name));
    RelinkedOk(s, t, own, own', i, d', NodeAt(s, i).links + 1);
  }

  /** A name is taken away from a loaded inode: the body of sfs_remove and the end of sfs_rename. */
  method Unlink(fs: Volume, slot: nat, i: nat)
    requires Sound(fs) && ROOT in fs.vnodes && i in fs.vnodes
    requires slot < |Dir(fs.View())| && Dir(fs.View())[slot].ino == i
    modifies fs, fs.freemap.v
    ensures Sound(fs) && SameNodes(old(fs.own), fs.own) && fs.vnodes.Keys == old(fs.vnodes.Keys)
    ensures SameRefs(old(fs.View()), fs.View()) && SameFiles(old(fs.View()), fs.View(), old(fs.own))
    ensures Dir(fs.View()) == Dir(old(fs.View()))[slot := FREE]
  {
    hide Consistent, Byte, Ptr, Dir, NodeAt, SameAll, Unique, SameFiles, Relinked, DirOk, Others, SameRefs, MetaOk;
    ghost var s, own := fs.View(), fs.own;
    NotZero(s, own);
    Live(s, own, i);
    DirParts(s, own);
    DirUnlink(fs, slot);
    OthersKeys(s, fs.View(), own, fs.own, ROOT);
    LinksBound(s, own, i);
    CountSome(Dir(s), slot);
    LoadedLinks(s, fs.View(), own, fs.own, i);
    assert fs.vnodes[i].inode.links > 0;
    SetLinks(fs, i, fs.vnodes[i].inode.links - 1, s, own);
    UnlinkDone(s, fs.View(), own, fs.own, i, slot);
  }

  lemma UnlinkDone(s: Fs, t: Fs, own: Owner, own': Owner, i: nat, slot: nat)
    requires DirOk(s, own) && i in s.vnodes && IsNode(own, i) && !IsNode(own, 0)
    requires slot < |Dir(s)| && Dir(s)[slot].ino == i
    requires Relinked(s, t, own, own', i, Dir(s)[slot := FREE], NodeAt(s, i).links - 1)
    ensures DirOk(t, own') && SameFiles(s, t, own) && Dir(t) == Dir(s)[slot := FREE]
  {
    hide NodeAt, Byte, Dir, Count, SameFiles;
    FreeUnbinds(Dir(s), slot);
    RelinkedOk(s, t, own, own', i, Dir(s)[slot := FREE], NodeAt(s, i).links - 1);
  }

  /** sfs_lookonce: the inode a name stands for, loaded; its zero-link-count panic cannot fire. */
  method LookOnce(fs: Volume, name: Name) returns (err: Error, i: nat, slot: nat)
    requires Sound(fs) && ROOT in fs.vnodes
    modifies fs, fs.freemap.v
    ensures Sound(fs) && fs.own == old(fs.own)
    ensures err == OK || err == ENOENT
    ensures err == ENOENT ==> fs.View() == old(fs.View()) && forall j: nat :: !Bound(Dir(fs.View()), name, j)
    ensures err == OK ==>
              IsNode(fs.own, i) && fs.View() == Loaded(old(fs.View()), i) && Dir(fs.View()) == Dir(old(fs.View()))
    ensures err == OK ==>
              slot < |Dir(fs.View())| && i != 0 && Dir(fs.View())[slot].ino == i && Dir(fs.View())[slot].name == name
    ensures err == OK ==>
              SameAll(old(fs.View()), fs.View(), fs.own) &&
              forall j: nat :: NodeAt(fs.View(), j) == NodeAt(old(fs.View()), j)
  {
    hide Consistent, Byte, Ptr, Dir, NodeAt, SameAll, Unique, DirOk, Loaded, MetaOk;
    DirParts(fs.View(), fs.own);
    var empty;
    err, i, slot, empty := FindName(fs, name);
    if err != OK {
      return;
    }
    NamedNode(fs.View(), fs.own, slot);
    LoadVnode(fs, i);
  }

  /** What a name stands for is an allocated inode with links. */
  lemma NamedNode(s: Fs, own: Owner, slot: nat)
    requires DirOk(s, own) && slot < |Dir(s)| && Dir(s)[slot].ino != 0
    ensures IsNode(own, Dir(s)[slot].ino) && NodeAt(s, Dir(s)[slot].ino).links > 0
  {
    hide NodeAt, Dir;
    CountSome(Dir(s), slot);
  }

  /** Every file allocated before and after has the same type, size and bytes. */
  ghost predicate Preserved(s: Fs, t: Fs, own: Owner, own': Owner) {
    forall j: nat :: IsNode(own, j) && IsNode(own', j) && j != ROOT ==>
      SameBytes(s, t, j) && NodeAt(t, j).size == NodeAt(s, j).size && NodeAt(t, j).kind == NodeAt(s, j).kind
  }

  /** A vnode is loaded, the directory changes, and the reference is dropped again. */
  lemma LoadWorkDrop(s: Fs, s1: Fs, s2: Fs, t: Fs, own: Owner, own2: Owner, own': Owner, i: nat, freed: bool)
    requires s1 == Loaded(s, i) && SameAll(s, s1, own) && forall j: nat :: NodeAt(s1, j) == NodeAt(s, j)
    requires SameNodes(own, own2) && SameFiles(s1, s2, own) && SameRefs(s1, s2)
    requires Released1(s2, t, own2, own', i, freed)
    requires forall j: nat :: Refs(t, j) == if j == i then Refs(s2, i) - 1 else Refs(s2, j)
    ensures Preserved(s, t, own, own') && SameRefs(s, t)
    ensures forall j: nat :: IsNode(own', j) <==> IsNode(own, j) && !(freed && j == i)
  {
    hide NodeAt, Byte;
    forall j: nat | IsNode(own, j) && IsNode(own', j) && j != ROOT
      ensures SameBytes(s, t, j) && NodeAt(t, j).size == NodeAt(s, j).size && NodeAt(t, j).kind == NodeAt(s, j).kind
    {
      assert SameBytes(s, s1, j) && SameBytes(s1, s2, j) && SameBytes(s2, t, j);
    }
    forall j: nat ensures Refs(t, j) == Refs(s, j) { assert Refs(s2, j) == Refs(s1, j); }
  }

  /** sfs_remove: exactly that name goes; the file goes with its last name unless someone holds it. */
  method Remove(fs: Volume, name: Name) returns (err: Error)
    requires Sound(fs) && ROOT in fs.vnodes
    modifies fs, fs.freemap.v
    ensures Sound(fs) && (err == OK || err == ENOENT)
    ensures err == ENOENT ==> fs.View() == old(fs.View()) && fs.own == old(fs.own)
    ensures err == ENOENT <==> forall j: nat :: !Bound(Dir(old(fs.View())), name, j)
    ensures err == OK ==> forall n: Name, j: nat :: Bound(Dir(fs.View()), n, j) <==>
              n != name && Bound(Dir(old(fs.View())), n, j)
    ensures Preserved(old(fs.View()), fs.View(), old(fs.own), fs.own) && SameRefs(old(fs.View()), fs.View())
    ensures forall j: nat :: IsNode(fs.own, j) ==> IsNode(old(fs.own), j)
    ensures forall j: nat :: IsNode(old(fs.own), j) && !IsNode(fs.own, j) ==>
              Bound(Dir(old(fs.View())), name, j) && j !in old(fs.vnodes)
  {
    hide Consistent, Byte, Ptr, Dir, NodeAt, SameAll, Unique, DirOk, SameFiles, Released1, SameRefs, Preserved, Bound,
         Loaded, Refs, Volume.MapOk;
    ghost var s, own := fs.View(), fs.own;
    DirParts(s, own);
    PreservedSelf(s, own);
    var i, slot;
    err, i, slot := LookOnce(fs, name);
    if err != OK {
      return;
    }
    ghost var s1 := fs.View();
    SlotBound(Dir(s), slot);
    LoadedRoot(s, i);
    Unlink(fs, slot, i);
    ghost var s2, own2 := fs.View(), fs.own;
    ghost var freed := fs.vnodes[i].refs == 1 && fs.vnodes[i].inode.links == 0;
    Decref(fs, i);
    RefsAre(s2, i);
    LoadWorkDrop(s, s1, s2, fs.View(), own, own2, fs.own, i, freed);
    UnboundName(Dir(s), Dir(fs.View()), slot, name);
    if i in s.vnodes { RefsPositive(s, own, i); }
    if freed { OneRef(s, s1, s2, i); }
  }

  lemma UnboundName(d: seq<Dirent>, d': seq<Dirent>, k: nat, name: Name)
    requires k < |d| && d[k].ino != 0 && d[k].name == name && Unique(d) && d' == d[k := FREE]
    ensures forall n: Name, j: nat :: Bound(d', n, j) <==> n != name && Bound(d, n, j)
  {
    hide Bound, Unique;
    forall n: Name, j: nat ensures Bound(d', n, j) <==> n != name && Bound(d, n, j) { FreeUnbindsName(d, k, n, j); }
  }

  lemma PreservedSelf(s: Fs, own: Owner)
    ensures Preserved(s, s, own, own) && SameRefs(s, s) && SameNodes(own, own)
  {
  }

  lemma LoadedRoot(s: Fs, i: nat)
    ensures Loaded(s, i).vnodes.Keys == s.vnodes.Keys + {i}
  {
  }

  lemma RefsAre(s: Fs, i: nat)
    requires i in s.vnodes
    ensures Refs(s, i) == s.vnodes[i].refs
  {
  }

  lemma OneRef(s: Fs, s1: Fs, s2: Fs, i: nat)
    requires s1 == Loaded(s, i) && SameRefs(s1, s2) && Refs(s2, i) == 1
    requires i in s.vnodes ==> s.vnodes[i].refs > 0
    ensures i !in s.vnodes
  {
    assert Refs(s1, i) == 1;
  }

  lemma SameFilesTrans(s: Fs, t: Fs, u: Fs, own: Owner, own1: Owner)
    requires SameFiles(s, t, own) && SameFiles(t, u, own1) && SameNodes(own, own1) && SameRefs(s, t) && SameRefs(t, u)
    ensures SameFiles(s, u, own) && SameRefs(s, u)
  {
    hide NodeAt, Byte, Refs;
    forall j: nat | IsNode(own, j) && j != ROOT
      ensures SameBytes(s, u, j) && NodeAt(u, j).size == NodeAt(s, j).size && NodeAt(u, j).kind == NodeAt(s, j).kind
    {
      assert SameBytes(s, t, j) && SameBytes(t, u, j);
    }
  }

  /** Link counts follow the directory. */
  lemma LinksFollow(s: Fs, t: Fs, own: Owner, own': Owner)
    requires DirOk(s, own) && DirOk(t, own') && SameNodes(own, own') && !IsNode(own, 0)
    requires forall j: nat :: j != 0 ==> Count(Dir(t), j) == Count(Dir(s), j)
    ensures forall j: nat :: IsNode(own, j) ==> NodeAt(t, j).links == NodeAt(s, j).links
  {
    hide NodeAt, Dir, Count;
  }

  /** The middle of sfs_rename: link under the new name, then unlink the old slot; the undo path is dead code. */
  method MoveName(fs: Volume, n1: Name, n2: Name, i: nat, slot1: nat) returns (err: Error)
    requires Sound(fs) && ROOT in fs.vnodes && i in fs.vnodes
    requires slot1 < |Dir(fs.View())| && i != 0 && Dir(fs.View())[slot1].ino == i && Dir(fs.View())[slot1].name == n1
    modifies fs, fs.freemap.v
    ensures Sound(fs) && SameNodes(old(fs.own), fs.own) && fs.vnodes.Keys == old(fs.vnodes.Keys)
    ensures SameRefs(old(fs.View()), fs.View()) && SameFiles(old(fs.View()), fs.View(), old(fs.own))
    ensures err == EEXIST <==> exists j: nat :: Bound(Dir(old(fs.View())), n2, j)
    ensures err != OK ==> Dir(fs.View()) == Dir(old(fs.View()))
    ensures err == OK ==> Renamed(Dir(old(fs.View())), Dir(fs.View()), n1, n2, i)
    ensures err in {OK, EEXIST, ENAMETOOLONG, ENOSPC, EINVAL}
    ensures forall j: nat :: j != 0 ==> Count(Dir(fs.View()), j) == Count(Dir(old(fs.View())), j)
    ensures exists k: nat :: k < |Dir(fs.View())| && Dir(fs.View())[k].ino == i
  {
    hide Consistent, Byte, Ptr, Dir, NodeAt, SameAll, Unique, DirOk, SameFiles, SameRefs, Bound, Put, Count, Renamed,
         MetaOk;
    ghost var s, own := fs.View(), fs.own;
    DirParts(s, own);
    var slot2;
    err, slot2 := Link(fs, n2, i);
    ghost var s2, own2 := fs.View(), fs.own;
    if err == OK {
      PutOther(Dir(s), slot2, Dirent(i, n2), slot1);
      Unlink(fs, slot1, i);
      SameFilesTrans(s, s2, fs.View(), own, own2);
      NameMoved(Dir(s), slot1, slot2, n2, Dir(s2), Dir(fs.View()));
    } else {
      assert Dir(fs.View())[slot1].ino == i;
    }
  }

  /** sfs_rename. NOTFILE stands for its assertion that the old name is a regular file, which fails when
      that name is a hard link to the root directory. */
  method Rename(fs: Volume, n1: Name, n2: Name) returns (err: Error)
    requires Sound(fs) && ROOT in fs.vnodes
    modifies fs, fs.freemap.v
    ensures Sound(fs)
    ensures err == ENOENT <==> forall j: nat :: !Bound(Dir(old(fs.View())), n1, j)
    ensures err == NOTFILE <==> Bound(Dir(old(fs.View())), n1, ROOT)
    ensures err == EEXIST ==> exists j: nat :: Bound(Dir(old(fs.View())), n2, j)
    ensures err == OK ==> forall j: nat :: !Bound(Dir(old(fs.View())), n2, j)
    ensures err == OK ==>
              exists i: nat ::
                Bound(Dir(old(fs.View())), n1, i) && Renamed(Dir(old(fs.View())), Dir(fs.View()), n1, n2, i)
    ensures err != OK ==> Dir(fs.View()) == Dir(old(fs.View()))
    ensures Preserved(old(fs.View()), fs.View(), old(fs.own), fs.own) && SameNodes(old(fs.own), fs.own)
    ensures err != NOTFILE ==> SameRefs(old(fs.View()), fs.View())
    ensures forall j: nat :: IsNode(fs.own, j) ==> NodeAt(fs.View(), j).links == NodeAt(old(fs.View()), j).links
  {
    hide Consistent, Byte, Ptr, Dir, NodeAt, SameAll, Unique, DirOk, SameFiles, Released1, SameRefs, Preserved, Bound,
         Count, Renamed, Loaded, Refs, SameNodes, Volume.MapOk;
    ghost var s, own := fs.View(), fs.own;
    DirParts(s, own);
    NotZero(s, own);
    PreservedSelf(s, own);
    var i, slot1;
    err, i, slot1 := LookOnce(fs, n1);
    if err != OK {
      return;
    }
    ghost var s1 := fs.View();
    OnlyBinding(Dir(s), slot1);
    assert Bound(Dir(s), n1, i);
    LoadedRoot(s, i);
    if i == ROOT {
      LoadedPreserved(s, s1, own);
      return NOTFILE;
    }
    err := MoveName(fs, n1, n2, i, slot1);
    ghost var s3, own3 := fs.View(), fs.own;
    ghost var k: nat :| k < |Dir(s3)| && Dir(s3)[k].ino == i;
    NamedNode(s3, own3, k);
    RefsAre(s3, i);
    LoadedInode(s3, i);
    Decref(fs, i);
    RenameDone(s, s1, s3, fs.View(), own, own3, fs.own, i);
  }

  lemma RenameDone(s: Fs, s1: Fs, s3: Fs, t: Fs, own: Owner, own3: Owner, own': Owner, i: nat)
    requires s1 == Loaded(s, i) && SameAll(s, s1, own) && forall j: nat :: NodeAt(s1, j) == NodeAt(s, j)
    requires SameNodes(own, own3) && SameFiles(s1, s3, own) && SameRefs(s1, s3) &&
             Released1(s3, t, own3, own', i, false)
    requires forall j: nat :: Refs(t, j) == if j == i then Refs(s3, i) - 1 else Refs(s3, j)
    requires DirOk(s, own) && DirOk(t, own') && !IsNode(own, 0)
    requires forall j: nat :: j != 0 ==> Count(Dir(t), j) == Count(Dir(s), j)
    ensures Preserved(s, t, own, own') && SameRefs(s, t) && SameNodes(own, own')
    ensures forall j: nat :: IsNode(own', j) ==> NodeAt(t, j).links == NodeAt(s, j).links
  {
    hide NodeAt, Byte, Dir, Count, SameAll, SameFiles, Loaded, Refs, Preserved, DirOk, SameRefs, Released1;
    LoadWorkDrop(s, s1, s3, t, own, own3, own', i, false);
    LinksFollow(s, t, own, own');
  }

  lemma LoadedInode(s: Fs, i: nat)
    requires i in s.vnodes
    ensures NodeAt(s, i) == s.vnodes[i].inode
  {
  }

  /** The root can be given a second name, and renaming it by that name fails the assertion that only files are
      renamed. */
  method RenameRoot(fs: Volume, n1: Name, n2: Name) returns (linked: Error, renamed: Error)
    requires Sound(fs) && ROOT in fs.vnodes
    modifies fs, fs.freemap.v
    ensures Sound(fs) && (linked == OK ==> renamed == NOTFILE)
    ensures |n1| < NAMELEN && (forall j: nat :: !Bound(Dir(old(fs.View())), n1, j)) && linked != OK ==>
              (linked == ENOSPC && Full(fs.View())) || (linked == EINVAL && DirFull(old(fs.View())))
  {
    hide Consistent, Dir, DirOk, SameFiles, Preserved, MetaOk, DirFull, Full;
    var slot;
    linked, slot := Link(fs, n1, ROOT);
    renamed := OK;
    if linked == OK {
      SlotBound(Dir(fs.View()), slot);
      renamed := Rename(fs, n1, n2);
    }
  }

  lemma LoadedPreserved(s: Fs, t: Fs, own: Owner)
    requires SameAll(s, t, own) && forall j: nat :: NodeAt(t, j) == NodeAt(s, j)
    ensures Preserved(s, t, own, own) && SameNodes(own, own)
  {
    hide NodeAt, Byte;
  }

  /** A file allocated between s and t: empty, with one name and one reference. */
  ghost predicate Created(s: Fs, t: Fs, own: Owner, own': Owner, i: nat) {
    && !IsNode(own, i) && (forall j: nat :: IsNode(own', j) <==> IsNode(own, j) || j == i)
    && NodeAt(t, i).size == 0 && NodeAt(t, i).kind == TYPE_FILE && NodeAt(t, i).links == 1
    && (forall off: nat :: Byte(t, i, off) == 0)
    && (forall j: nat :: Refs(t, j) == if j == i then 1 else Refs(s, j))
  }

  /** The bindings of d' are those of d and (name, i). */
  ghost predicate Extended(d: seq<Dirent>, d': seq<Dirent>, name: Name, i: nat) {
    forall n: Name, j: nat :: Bound(d', n, j) <==> (n == name && j == i) || Bound(d, n, j)
  }

  /** sfs_creat of a name that does not exist yet. */
  method CreateNew(fs: Volume, name: Name) returns (err: Error, i: nat)
    requires Sound(fs) && ROOT in fs.vnodes && forall j: nat :: !Bound(Dir(fs.View()), name, j)
    modifies fs, fs.freemap.v
    ensures Sound(fs) && err in {OK, ENAMETOOLONG, ENOSPC, EINVAL}
    ensures Preserved(old(fs.View()), fs.View(), old(fs.own), fs.own)
    ensures err == OK ==> Created(old(fs.View()), fs.View(), old(fs.own), fs.own, i)
    ensures err == OK ==> Extended(Dir(old(fs.View())), Dir(fs.View()), name, i)
    ensures err != OK ==>
              Dir(fs.View()) == Dir(old(fs.View())) && SameNodes(old(fs.own), fs.own) &&
              SameRefs(old(fs.View()), fs.View())
  {
    hide Consistent, Byte, Ptr, Dir, NodeAt, SameAll, Unique, DirOk, SameFiles, Released1, SameRefs, Preserved, Bound,
         Put, Count, Created, Extended, Refs, MetaOk;
    ghost var s, own := fs.View(), fs.own;
    PreservedSelf(s, own);
    DirParts(s, own);
    err, i := MakeObj(fs);
    if err != OK {
      return;
    }
    ghost var s1, own1 := fs.View(), fs.own;
    var slot;
    err, slot := Link(fs, name, i);
    ghost var s2, own2 := fs.View(), fs.own;
    if err != OK {
      LoadedInode(s1, i);
      StillUnlinked(s1, s2, own1, own2, i);
      Decref(fs, i);
      CreateUndone(s, s1, s2, fs.View(), own, own1, own2, fs.own, i);
    } else {
      PutBinds(Dir(s), slot, Dirent(i, name));
      CreateDone(s, s1, s2, own, own1, own2, i, name, slot);
    }
  }

  lemma StillUnlinked(s1: Fs, s2: Fs, own1: Owner, own2: Owner, i: nat)
    requires DirOk(s1, own1) && DirOk(s2, own2) && Dir(s2) == Dir(s1) && SameNodes(own1, own2) && SameRefs(s1, s2)
    requires i in s1.vnodes && IsNode(own1, i) && NodeAt(s1, i).links == 0 && s1.vnodes[i].refs == 1 && i in s2.vnodes
    ensures s2.vnodes[i].refs == 1 && s2.vnodes[i].inode.links == 0
  {
    hide Dir, Count;
    assert Refs(s2, i) == Refs(s1, i);
    assert NodeAt(s2, i) == s2.vnodes[i].inode;
  }

  ghost predicate Made(s: Fs, s1: Fs, own: Owner, own1: Owner, i: nat) {
    && i !in own && own1 == own[i := Node] && i !in s.vnodes
    && s1.vnodes == s.vnodes[i := Vnode(EMPTY.(kind := TYPE_FILE), true, 1)]
    && (forall off: nat :: Byte(s1, i, off) == 0)
    && (forall j: nat :: IsNode(own, j) ==> NodeAt(s1, j) == NodeAt(s, j) && SameBytes(s, s1, j))
  }

  lemma CreateUndone(s: Fs, s1: Fs, s2: Fs, t: Fs, own: Owner, own1: Owner, own2: Owner, own': Owner, i: nat)
    requires Made(s, s1, own, own1, i) && SameNodes(own1, own2) && SameFiles(s1, s2, own1) && SameRefs(s1, s2)
    requires Released1(s2, t, own2, own', i, true)
    requires forall j: nat :: Refs(t, j) == if j == i then 0 else Refs(s2, j)
    ensures Preserved(s, t, own, own') && SameNodes(own, own') && SameRefs(s, t)
  {
    hide NodeAt, Byte;
    forall j: nat | IsNode(own, j) && IsNode(own', j) && j != ROOT
      ensures SameBytes(s, t, j) && NodeAt(t, j).size == NodeAt(s, j).size && NodeAt(t, j).kind == NodeAt(s, j).kind
    {
      assert SameBytes(s, s1, j) && SameBytes(s1, s2, j) && SameBytes(s2, t, j);
    }
    forall j: nat ensures Refs(t, j) == Refs(s, j) { assert Refs(s2, j) == Refs(s1, j); }
  }

  lemma CreateDone(s: Fs, s1: Fs, t: Fs, own: Owner, own1: Owner, own': Owner, i: nat, name: Name, slot: nat)
    requires DirOk(s, own) && Made(s, s1, own, own1, i) && DirOk(s1, own1) && Dir(s1) == Dir(s)
    requires SameNodes(own1, own') && SameFiles(s1, t, own1) && SameRefs(s1, t) && DirOk(t, own')
    requires 0 < i < 0x1_0000_0000 && i != ROOT && slot <= |Dir(s)| && Dir(t) == Put(Dir(s), slot, Dirent(i, name))
    requires forall n: Name, j: nat :: Bound(Put(Dir(s), slot, Dirent(i, name)), n, j) <==>
               (n == name && j == i) || Bound(Dir(s), n, j)
    requires Count(Put(Dir(s), slot, Dirent(i, name)), i) == Count(Dir(s), i) + 1
    ensures Preserved(s, t, own, own') && Created(s, t, own, own', i) && Extended(Dir(s), Dir(t), name, i)
  {
    hide Byte, Dir, Count, Put, Bound;
    assert NodeAt(s1, i) == EMPTY.(kind := TYPE_FILE);
    forall j: nat | IsNode(own, j) && j != ROOT
      ensures SameBytes(s, t, j) && NodeAt(t, j).size == NodeAt(s, j).size && NodeAt(t, j).kind == NodeAt(s, j).kind
    {
      assert SameBytes(s, s1, j) && SameBytes(s1, t, j);
    }
    assert SameBytes(s1, t, i);
    forall j: nat ensures Refs(t, j) == if j == i then 1 else Refs(s, j) { assert Refs(t, j) == Refs(s1, j); }
  }

  /** sfs_creat */
  method Creat(fs: Volume, name: Name, excl: bool) returns (err: Error, i: nat)
    requires Sound(fs) && ROOT in fs.vnodes
    modifies fs, fs.freemap.v
    ensures Sound(fs) && err in {OK, EEXIST, ENAMETOOLONG, ENOSPC, EINVAL}
    ensures err == EEXIST <==> excl && exists j: nat :: Bound(Dir(old(fs.View())), name, j)
    ensures Preserved(old(fs.View()), fs.View(), old(fs.own), fs.own)
    ensures err != OK ==>
              Dir(fs.View()) == Dir(old(fs.View())) && SameNodes(old(fs.own), fs.own) &&
              SameRefs(old(fs.View()), fs.View())
    ensures err == OK && Bound(Dir(old(fs.View())), name, i) ==>
              fs.View() == Loaded(old(fs.View()), i) && fs.own == old(fs.own) && Dir(fs.View()) == Dir(old(fs.View()))
    ensures err == OK && !Bound(Dir(old(fs.View())), name, i) ==>
              Created(old(fs.View()), fs.View(), old(fs.own), fs.own, i) &&
              Extended(Dir(old(fs.View())), Dir(fs.View()), name, i)
  {
    hide Consistent, Byte, Ptr, Dir, NodeAt, SameAll, Unique, DirOk, SameRefs, Preserved, Bound, Loaded, Created,
         Extended, MetaOk;
    ghost var s, own := fs.View(), fs.own;
    PreservedSelf(s, own);
    DirParts(s, own);
    var slot, empty;
    err, i, slot, empty := FindName(fs, name);
    if err == OK {
      OnlyBinding(Dir(s), slot);
      assert Bound(Dir(s), name, i);
      if excl {
        return EEXIST, 0;
      }
      NamedNode(s, own, slot);
      LoadVnode(fs, i);
      LoadedPreserved(s, fs.View(), own);
    } else {
      err, i := CreateNew(fs, name);
    }
  }

  // ---- file contents

  lemma FileChanged(s: Fs, t: Fs, own: Owner, own': Owner, i: nat)
    requires DirOk(s, own) && Others(s, t, own, own', i) && i != ROOT && SameBytes(s, t, ROOT)
    requires NodeAt(t, i).links == NodeAt(s, i).links && NodeAt(t, i).kind == NodeAt(s, i).kind
    ensures DirOk(t, own') && Dir(t) == Dir(s) && SameRefs(s, t)
  {
    hide NodeAt, Byte, Dir, Count;
    assert IsNode(own, ROOT);
    StillOk(s, t, own, own');
  }

  /** sfs_read and sfs_write on a file */
  method FileIo(fs: Volume, i: nat, u: Uio) returns (err: Error)
    requires Sound(fs) && i in fs.vnodes && i != ROOT && u.Valid() && u.offset < 0x8000_0000
    modifies fs, fs.freemap.v, u
    ensures Sound(fs) && u.Valid() && Dir(fs.View()) == Dir(old(fs.View())) && SameRefs(old(fs.View()), fs.View())
    ensures Others(old(fs.View()), fs.View(), old(fs.own), fs.own, i)
    ensures u.offset >= old(u.offset)
    ensures u.Advanced(old(u.base), old(u.iovlen), old(u.offset), old(u.resid), u.offset - old(u.offset))
    ensures Transfer(old(fs.View()), fs.View(), old(fs.own), fs.own, i, old(u.offset), u.offset - old(u.offset),
                     u.write, old(u.mem), u.mem, old(u.base))
    ensures i in fs.vnodes && u.offset < 0x8000_0000
    ensures Resized(old(fs.vnodes[i].inode), fs.vnodes[i].inode, EndOf(u.write, u.offset))
    ensures err == OK && u.write ==> u.resid == 0
    ensures err == OK && !u.write ==>
              u.offset - old(u.offset) == Readable(old(fs.vnodes[i].inode.size), old(u.offset), old(u.resid))
    ensures err == EINVAL ==> u.offset == Max(old(u.offset), MAXBLOCKS * BLOCKSIZE)
    ensures u.write && err == OK ==> Within(old(u.offset), old(u.resid))
    ensures u.write && err == EINVAL ==> !Within(old(u.offset), old(u.resid))
    ensures !u.write ==> (err == OK <==> ReadFits(old(fs.vnodes[i].inode.size), old(u.offset), old(u.resid)))
    ensures err == OK || err == EINVAL || (err == ENOSPC && u.write && Full(fs.View()))
  {
    hide Consistent, Byte, Ptr, Dir, NodeAt, DirOk, Others, Transfer, SameRefs, MetaOk;
    ghost var s, own := fs.View(), fs.own;
    LoadedInode(s, i);
    DirParts(s, own);
    err := fs.Io(i, u);
    LoadedInode(fs.View(), i);
    OtherBytes(s, fs.View(), own, fs.own, i, old(u.offset), u.offset - old(u.offset), u.write, old(u.mem), u.mem,
               old(u.base));
    FileChanged(s, fs.View(), own, fs.own, i);
  }

  /** sfs_read and sfs_write at a negative offset */
  method NegativeFileIo(fs: Volume, i: nat, off: i32, resid: nat, write: bool) returns (out: Outcome)
    requires Sound(fs) && i in fs.vnodes && i != ROOT && off < 0 && resid < U32
    modifies fs, fs.freemap.v
    ensures Sound(fs) && Dir(fs.View()) == Dir(old(fs.View())) && SameRefs(old(fs.View()), fs.View())
    ensures Others(old(fs.View()), fs.View(), old(fs.own), fs.own, i) && SameAll(old(fs.View()), fs.View(), old(fs.own))
    ensures i in fs.vnodes
    ensures Resized(old(fs.vnodes[i].inode), fs.vnodes[i].inode, if write && out.Returned? then off else -0x8000_0000)
    ensures if Going(write, old(fs.vnodes[i].inode.size), off) then
              EndsAs(out, off, Wanted(write, old(fs.vnodes[i].inode.size), off, resid),
                     write && Full(fs.View()) && Ptr(old(fs.View()), i, 0) == 0)
            else out == Returned(OK)
  {
    hide Consistent, Byte, Ptr, Dir, NodeAt, DirOk, Others, SameRefs, MetaOk, EndsAs;
    ghost var s, own := fs.View(), fs.own;
    LoadedInode(s, i);
    DirParts(s, own);
    out := fs.NegativeIo(i, off, resid, write);
    LoadedInode(fs.View(), i);
    FileChanged(s, fs.View(), own, fs.own, i);
  }

  lemma OtherBytes(s: Fs, t: Fs, own: Owner, own': Owner, i: nat, off: nat, n: nat, write: bool, mem: seq<byte>,
                   mem': seq<byte>, base: nat)
    requires Transfer(s, t, own, own', i, off, n, write, mem, mem', base) && i != ROOT && IsNode(own, ROOT)
    ensures SameBytes(s, t, ROOT)
  {
    hide Byte;
  }

  /** sfs_truncate on a file */
  method FileTruncate(fs: Volume, i: nat, len: i32)
    requires Sound(fs) && i in fs.vnodes && i != ROOT
    modifies fs, fs.freemap.v
    ensures Sound(fs) && Dir(fs.View()) == Dir(old(fs.View())) && SameRefs(old(fs.View()), fs.View())
    ensures Truncated(old(fs.View()), fs.View(), old(fs.own), fs.own, i, len)
    ensures i in fs.vnodes && fs.vnodes[i].inode.size == ToU32(len)
  {
    hide Consistent, Byte, Ptr, Dir, NodeAt, DirOk, SameRefs, MetaOk;
    ghost var s, own := fs.View(), fs.own;
    LoadedInode(s, i);
    DirParts(s, own);
    Truncate(fs, i, len);
    LoadedInode(fs.View(), i);
    FileChanged(s, fs.View(), own, fs.own, i);
  }

  /** A byte written at offset 10240 is still there after the file is cut to 10240 bytes and grown again, unless the
      volume runs full. */
  method StaleByte(fs: Volume, i: nat) returns (err: Error, seen: seq<byte>)
    requires Sound(fs) && i in fs.vnodes && i != ROOT
    modifies fs, fs.freemap.v
    ensures Sound(fs) && (err == OK ==> seen == [7]) && (err == OK || (err == ENOSPC && Full(fs.View())))
  {
    hide Consistent, Byte, Ptr, Dir, DirOk, Volume.MapOk, SameRefs, NodeAt, Truncated, Resized, Readable, Others;
    seen := [];
    var u := new Uio([7], 20 * BLOCKSIZE, true);
    err := FileIo(fs, i, u);
    if err != OK {
      return;
    }
    ghost var s := fs.View();
    assert Byte(s, i, 20 * BLOCKSIZE) == 7;
    ghost var own := fs.own;
    FileTruncate(fs, i, 20 * BLOCKSIZE);
    StaleBlock(s, fs.View(), own, fs.own, i);
    Unwrapped(20 * BLOCKSIZE);
    err, seen := GrowAndRead(fs, i);
  }

  /** Grow a file of 10240 bytes by a byte at 10241 and read what is at 10240. */
  method GrowAndRead(fs: Volume, i: nat) returns (err: Error, seen: seq<byte>)
    requires Sound(fs) && i in fs.vnodes && i != ROOT && fs.vnodes[i].inode.size == 20 * BLOCKSIZE
    modifies fs, fs.freemap.v
    ensures Sound(fs) && (err == OK ==> seen == [Byte(old(fs.View()), i, 20 * BLOCKSIZE)])
    ensures err == OK || (err == ENOSPC && Full(fs.View()))
  {
    hide Consistent, Byte, Ptr, Dir, DirOk, Volume.MapOk, SameRefs, NodeAt, Others;
    seen := [];
    var u := new Uio([1], 20 * BLOCKSIZE + 1, true);
    err := FileIo(fs, i, u);
    if err != OK {
      return;
    }
    assert fs.vnodes[i].inode.size == 20 * BLOCKSIZE + 2 by { Unwrapped(20 * BLOCKSIZE + 2); }
    assert Byte(fs.View(), i, 20 * BLOCKSIZE) == Byte(old(fs.View()), i, 20 * BLOCKSIZE);
    u := new Uio([0], 20 * BLOCKSIZE, false);
    err := FileIo(fs, i, u);
    seen := u.mem;
  }

  /** A read of 2^31 bytes from a file of one byte does not stop there: it returns all the blocks a file can have, and
      EINVAL. */
  method ReadPastEnd(fs: Volume, i: nat) returns (err: Error, seen: seq<byte>)
    requires Sound(fs) && i in fs.vnodes && i != ROOT
    modifies fs, fs.freemap.v
    ensures Sound(fs) && i in fs.vnodes && fs.vnodes[i].inode.size == 1
    ensures err == EINVAL && |seen| == MAXBLOCKS * BLOCKSIZE
    ensures forall k :: 0 <= k < |seen| ==> seen[k] == Byte(fs.View(), i, k)
  {
    hide Consistent, Byte, Ptr, Dir, DirOk, Volume.MapOk, SameRefs, NodeAt, Truncated, Others;
    FileTruncate(fs, i, 1);
    Unwrapped(1);
    var u := new Uio(Zeros(0x8000_0000), 0, false);
    err := FileIo(fs, i, u);
    seen := u.mem[..u.offset];
  }

  // ---- every run

  datatype Op =
    | OpRoot
    | OpLookup(name: Name)
    | OpCreat(name: Name, excl: bool)
    | OpLink(name: Name, ino: nat)
    | OpRemove(name: Name)
    | OpRename(from: Name, to: Name)
    | OpWrite(ino: nat, off: i32, data: seq<byte>)
    | OpRead(ino: nat, off: i32, n: u32)
    | OpTruncate(ino: nat, len: i32)
    | OpSync(ino: nat)
    | OpIncref(ino: nat)
    | OpDecref(ino: nat)

  method ReadWrite(fs: Volume, i: nat, off: i32, data: seq<byte>, write: bool) returns (alive: bool)
    requires Sound(fs) && i in fs.vnodes && i != ROOT && |data| < U32
    modifies fs, fs.freemap.v
    ensures Sound(fs) && (off >= 0 ==> alive)
  {
    hide DirOk, Consistent, Others, Transfer, MetaOk, EndsAs, SameAll;
    alive := true;
    if off < 0 {
      var out := NegativeFileIo(fs, i, off, |data|, write);
      alive := out.Returned?;
    } else {
      var u := new Uio(data, off, write);
      var _ := FileIo(fs, i, u);
    }
  }

  /** One operation by a caller that holds the vnodes it uses; the caller of directory operations holds the root. A
      buffer has a 32-bit size. alive tells that no assertion failed and sfs_partialio stayed in its buffer. */
  method Perform(fs: Volume, op: Op) returns (alive: bool)
    requires Sound(fs)
    modifies fs, fs.freemap.v
    ensures Sound(fs)
    ensures op.OpRename? ==>
              (alive <==> !(ROOT in old(fs.vnodes) && Bound(Dir(old(fs.View())), op.from, ROOT)))
    ensures !alive ==> op.OpRename? || ((op.OpWrite? || op.OpRead?) && op.off < 0)
  {
    hide DirOk, Consistent, Others, Transfer, Truncated, Preserved, SameFiles, Released1, MetaOk;
    alive := true;
    match op
    case OpRoot => RootLoad(fs);
    case OpLookup(name) =>
      if ROOT in fs.vnodes { var _, _, _ := LookOnce(fs, name); }
    case OpCreat(name, excl) =>
      if ROOT in fs.vnodes { var _, _ := Creat(fs, name, excl); }
    case OpLink(name, ino) =>
      if ROOT in fs.vnodes && ino in fs.vnodes { var _, _ := Link(fs, name, ino); }
    case OpRemove(name) =>
      if ROOT in fs.vnodes { var _ := Remove(fs, name); }
    case OpRename(from, to) =>
      if ROOT in fs.vnodes {
        var err := Rename(fs, from, to);
        alive := err != NOTFILE;
      }
    case OpWrite(ino, off, data) =>
      if ino in fs.vnodes && ino != ROOT && |data| < U32 { alive := ReadWrite(fs, ino, off, data, true); }
    case OpRead(ino, off, n) =>
      if ino in fs.vnodes && ino != ROOT { alive := ReadWrite(fs, ino, off, Zeros(n), false); }
    case OpTruncate(ino, len) =>
      if ino in fs.vnodes && ino != ROOT { FileTruncate(fs, ino, len); }
    case OpSync(ino) =>
      if ino in fs.vnodes { Sync(fs, ino); }
    case OpIncref(ino) =>
      if ino in fs.vnodes { Incref(fs, ino); }
    case OpDecref(ino) =>
      if ino in fs.vnodes { Decref(fs, ino); }
  }

  /** VOP_INCREF of a vnode that is held, as sfs_lookparent does for the root */
  method Incref(fs: Volume, i: nat)
    requires Sound(fs) && i in fs.vnodes
    modifies fs`vnodes
    ensures Sound(fs) && fs.View() == Loaded(old(fs.View()), i)
  {
    hide Byte, Ptr, MarksOwned, PartsOwned, SameAll, DirOk, Dir, MetaOk;
    ghost var s := fs.View();
    DirParts(s, fs.own);
    fs.vnodes := fs.vnodes[i := fs.vnodes[i].(refs := fs.vnodes[i].refs + 1)];
    assert fs.View() == Loaded(s, i);
    LoadedSame(s, fs.own, i);
    LoadedOk(s, fs.own, i);
  }

  /** sfs_getroot */
  method RootLoad(fs: Volume)
    requires Sound(fs)
    modifies fs`vnodes
    ensures Sound(fs) && ROOT in fs.vnodes && fs.View() == Loaded(old(fs.View()), ROOT)
  {
    hide Consistent, Byte, Ptr, Dir, NodeAt, DirOk, MetaOk;
    DirParts(fs.View(), fs.own);
    LoadVnode(fs, ROOT);
  }

  /** sfs_fsync */
  method Sync(fs: Volume, i: nat)
    requires Sound(fs) && i in fs.vnodes
    modifies fs`disk, fs`vnodes
    ensures Sound(fs) && i < |old(fs.disk)| && fs.View() == Synced(old(fs.View()), i)
  {
    hide Consistent, Byte, Ptr, Dir, NodeAt, DirOk, MetaOk;
    ghost var s := fs.View();
    DirParts(s, fs.own);
    SyncInode(fs, i);
    assert SameBytes(s, fs.View(), ROOT);
    SyncedKeys(s, i);
    StillOk(s, fs.View(), fs.own, fs.own);
  }

  lemma SyncedKeys(s: Fs, i: nat)
    requires i in s.vnodes && i < |s.disk|
    ensures Synced(s, i).vnodes.Keys == s.vnodes.Keys
  {
  }

  /** Every run of operations keeps the invariant; it ends where an operation does not. */
  method Run(fs: Volume, ops: seq<Op>) returns (alive: bool)
    requires Sound(fs)
    modifies fs, fs.freemap.v
    ensures Sound(fs)
  {
    alive := true;
    for n := 0 to |ops|
      invariant Sound(fs)
    {
      alive := Perform(fs, ops[n]);
      if !alive { return; }
    }
  }

  // ---- what the invariant means

  /** An inode is in use when it is the root, loaded, or named. */
  ghost predicate InodeInUse(s: Fs, i: nat) {
    i == ROOT || i in s.vnodes || exists n: Name :: Bound(Dir(s), n, i)
  }

  lemma NodesInUse(s: Fs, own: Owner, i: nat)
    requires Consistent(s, own) && DirOk(s, own)
    ensures IsNode(own, i) <==> InodeInUse(s, i)
  {
    hide NodeAt, Dir, MarksOwned, PartsOwned;
    if IsNode(own, i) && Count(Dir(s), i) > 0 {
      var k := CountNone(Dir(s), i);
      NotZero(s, own);
      SlotBound(Dir(s), k);
    }
  }

  /** The freemap marks exactly the reserved blocks, the inodes in use, and the blocks these map. */
  lemma FreemapExact(s: Fs, own: Owner, b: nat)
    requires Consistent(s, own) && DirOk(s, own) && b < |s.marks|
    ensures s.marks[b] <==> Reserved(|s.disk|, b) || InodeInUse(s, b) ||
                            (b != 0 && exists i: nat, k: nat :: InodeInUse(s, i) && k <= INDIRECT && Ptr(s, i, k) == b)
  {
    hide Ptr, DirOk, InodeInUse;
    NodesInUse(s, own, b);
    if b in own && own[b].Part? {
      NodesInUse(s, own, own[b].ino);
    }
    if i: nat, k: nat :| InodeInUse(s, i) && k <= INDIRECT && Ptr(s, i, k) == b && b != 0 {
      NodesInUse(s, own, i);
    }
  }

  /** No block has two owners: pointers of inodes in use are distinct, and none points at an inode or a reserved
      block. */
  lemma SingleOwner(s: Fs, own: Owner, i: nat, k: nat, j: nat, m: nat)
    requires Consistent(s, own) && DirOk(s, own) && InodeInUse(s, i) && InodeInUse(s, j)
    requires k <= INDIRECT && m <= INDIRECT && Ptr(s, i, k) != 0
    ensures Ptr(s, i, k) == Ptr(s, j, m) ==> i == j && k == m
    ensures Ptr(s, i, k) < |s.disk| && !Reserved(|s.disk|, Ptr(s, i, k)) && !InodeInUse(s, Ptr(s, i, k))
  {
    hide Ptr, DirOk, InodeInUse;
    NodesInUse(s, own, i);
    NodesInUse(s, own, j);
    NodesInUse(s, own, Ptr(s, i, k));
    assert own[Ptr(s, i, k)] == Part(i, k);
  }
}
