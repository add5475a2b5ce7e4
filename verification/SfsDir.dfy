/** Model of the directory routines of kern/fs/sfs/sfs_vnode.c. */
module SfsDir {
  import opened Words
  import opened Uio
  import opened SfsState
  import opened SfsBlocks
  import opened SfsTransfer
  import opened SfsVolume
  import opened SfsMeta
  import opened SfsDirent

  function SlotAt(s: Fs, k: nat): Dirent {
    DirentOf(FileBytes(s, ROOT, DIRSIZE * k, DIRSIZE))
  }

  /** The root directory's entries. */
  function Dir(s: Fs): (d: seq<Dirent>)
    ensures |d| == NodeAt(s, ROOT).size / DIRSIZE
    ensures forall k :: 0 <= k < |d| ==> d[k] == SlotAt(s, k)
  {
    seq(NodeAt(s, ROOT).size / DIRSIZE, k requires k >= 0 => SlotAt(s, k))
  }

  /** The root directory is a directory with whole entries in mapped range. */
  ghost predicate RootOk(s: Fs, own: Owner) {
    && IsNode(own, ROOT) && NodeAt(s, ROOT).kind == TYPE_DIR
    && NodeAt(s, ROOT).size % DIRSIZE == 0 && NodeAt(s, ROOT).size <= MAXBLOCKS * BLOCKSIZE
  }

  /** Every entry is used, and the directory is as long as a file can be. */
  ghost predicate DirFull(s: Fs) {
    NodeAt(s, ROOT).size == MAXBLOCKS * BLOCKSIZE && forall k :: 0 <= k < |Dir(s)| ==> Dir(s)[k].ino != 0
  }

  lemma DirSame(s: Fs, t: Fs)
    requires NodeAt(t, ROOT).size == NodeAt(s, ROOT).size && SameBytes(s, t, ROOT)
    ensures Dir(t) == Dir(s)
  {
    hide Byte, NodeAt, DirentOf;
    forall k | 0 <= k < |Dir(s)| ensures Dir(t)[k] == Dir(s)[k] {
      assert FileBytes(t, ROOT, DIRSIZE * k, DIRSIZE) == FileBytes(s, ROOT, DIRSIZE * k, DIRSIZE);
    }
  }

  /** Writing an entry's bytes at a slot's offset rewrites that slot and no other. */
  lemma DirWritten(s: Fs, t: Fs, own: Owner, k: nat, e: Dirent)
    requires NodeAt(s, ROOT).size % DIRSIZE == 0 && k <= |Dir(s)| && |e.name| < NAMELEN
    requires Wrote(s, t, own, ROOT, DIRSIZE * k, DirentBytes(e))
    requires NodeAt(t, ROOT).size == if k < |Dir(s)| then NodeAt(s, ROOT).size else NodeAt(s, ROOT).size + DIRSIZE
    ensures Dir(t) == Put(Dir(s), k, e)
  {
    hide Byte, NodeAt, DirentOf, DirentBytes;
    DirentRoundTrip(e);
    forall m | 0 <= m < |Dir(t)| ensures Dir(t)[m] == Put(Dir(s), k, e)[m] {
      if m == k {
        assert FileBytes(t, ROOT, DIRSIZE * m, DIRSIZE) == DirentBytes(e);
      } else {
        assert FileBytes(t, ROOT, DIRSIZE * m, DIRSIZE) == FileBytes(s, ROOT, DIRSIZE * m, DIRSIZE);
      }
    }
  }

  /** The block of a slot in use is mapped. */
  lemma UsedMapped(s: Fs, k: nat)
    requires SlotAt(s, k).ino != 0
    ensures Ptr(s, ROOT, DIRSIZE * k / BLOCKSIZE) != 0 && DIRSIZE * k / BLOCKSIZE < MAXBLOCKS
  {
    hide Ptr, CString;
    var b := FileBytes(s, ROOT, DIRSIZE * k, DIRSIZE);
    assert b[0] != 0 || b[1] != 0 || b[2] != 0 || b[3] != 0;
    var q :| 0 <= q < 4 && b[q] != 0;
    assert (DIRSIZE * k + q) / BLOCKSIZE == DIRSIZE * k / BLOCKSIZE;
  }

  /** sfs_readdir; its short-entry panic cannot fire. */
  method ReadDir(fs: Volume, slot: nat) returns (e: Dirent)
    requires fs.Valid() && ROOT in fs.vnodes && RootOk(fs.View(), fs.own) && slot < |Dir(fs.View())|
    modifies fs, fs.freemap.v
    ensures fs.Valid() && fs.View() == old(fs.View()) && fs.own == old(fs.own)
    ensures e == Dir(fs.View())[slot]
  {
    hide Consistent, Byte, Ptr, DirentOf, Others, SameAll, Splice, MetaOk;
    var u := new Uio(Zeros(DIRSIZE), DIRSIZE * slot, false);
    var err := fs.Io(ROOT, u);
    assert err == OK && u.resid == 0;
    assert u.mem == FileBytes(fs.View(), ROOT, DIRSIZE * slot, DIRSIZE);
    e := DirentOf(u.mem);
  }

  /** sfs_writedir; its short-write panic cannot fire, and a failed write changes no entry. */
  method WriteDir(fs: Volume, e: Dirent, slot: nat) returns (err: Error)
    requires fs.Valid() && ROOT in fs.vnodes && RootOk(fs.View(), fs.own) && slot <= |Dir(fs.View())| &&
             |e.name| < NAMELEN
    modifies fs, fs.freemap.v
    ensures fs.Valid() && ROOT in fs.vnodes && RootOk(fs.View(), fs.own)
    ensures Others(old(fs.View()), fs.View(), old(fs.own), fs.own, ROOT)
    ensures fs.vnodes[ROOT].inode.links == old(fs.vnodes[ROOT].inode.links)
    ensures forall j: nat :: IsNode(old(fs.own), j) && j != ROOT ==> SameBytes(old(fs.View()), fs.View(), j)
    ensures err == OK || (err == ENOSPC && Full(fs.View())) ||
            (err == EINVAL && DIRSIZE * slot >= MAXBLOCKS * BLOCKSIZE)
    ensures Dir(fs.View()) == if err == OK then Put(Dir(old(fs.View())), slot, e) else Dir(old(fs.View()))
    ensures slot < |Dir(old(fs.View()))| && Dir(old(fs.View()))[slot].ino != 0 ==> err == OK
  {
    hide Consistent, Byte, Ptr, DirentOf, DirentBytes, SameAll, Put, Transfer, MetaOk;
    ghost var s, own := fs.View(), fs.own;
    var u := new Uio(DirentBytes(e), DIRSIZE * slot, true);
    err := fs.Io(ROOT, u);
    ghost var n := u.offset - DIRSIZE * slot;
    if err != OK { SlotStop(slot, n); }
    WroteEntry(s, fs.View(), own, fs.own, slot, e, n, u.mem);
    if slot < |Dir(s)| && Dir(s)[slot].ino != 0 {
      UsedMapped(s, slot);
      assert err == OK;
    }
  }

  /** A write of one entry that stops early stops at its start. */
  lemma SlotStop(slot: nat, n: nat)
    requires n == 0 || ((DIRSIZE * slot + n) % BLOCKSIZE == 0 && n < DIRSIZE)
    ensures n == 0
  {
  }

  lemma WroteEntry(s: Fs, t: Fs, own: Owner, own': Owner, slot: nat, e: Dirent, n: nat, mem: seq<byte>)
    requires NodeAt(s, ROOT).size % DIRSIZE == 0 && NodeAt(s, ROOT).size <= MAXBLOCKS * BLOCKSIZE
    requires slot <= |Dir(s)| && |e.name| < NAMELEN && (n == 0 || n == DIRSIZE)
    requires Transfer(s, t, own, own', ROOT, DIRSIZE * slot, n, true, DirentBytes(e), mem, 0)
    requires Resized(NodeAt(s, ROOT), NodeAt(t, ROOT), DIRSIZE * slot + n)
    ensures Dir(t) == if n == 0 then Dir(s) else Put(Dir(s), slot, e)
    ensures forall j: nat :: IsNode(own, j) && j != ROOT ==> SameBytes(s, t, j)
  {
    hide Byte, NodeAt, DirentOf, DirentBytes, Put;
    if n == 0 {
      DirSame(s, t);
    } else {
      assert DirentBytes(e)[0..DIRSIZE] == DirentBytes(e);
      DirWritten(s, t, own, slot, e);
    }
  }

  /** sfs_dir_findname; its duplicate-name assertion cannot fail. */
  method FindName(fs: Volume, name: Name) returns (err: Error, ino: nat, slot: nat, empty: int)
    requires fs.Valid() && ROOT in fs.vnodes && RootOk(fs.View(), fs.own) && Unique(Dir(fs.View()))
    modifies fs, fs.freemap.v
    ensures fs.Valid() && fs.View() == old(fs.View()) && fs.own == old(fs.own)
    ensures err == OK || err == ENOENT
    ensures err == OK ==>
              slot < |Dir(fs.View())| && ino != 0 && Dir(fs.View())[slot].ino == ino &&
              Dir(fs.View())[slot].name == name
    ensures err == ENOENT ==> forall i: nat :: !Bound(Dir(fs.View()), name, i)
    ensures -1 <= empty < |Dir(fs.View())| && (empty >= 0 ==> Dir(fs.View())[empty].ino == 0)
    ensures empty < 0 ==> forall k :: 0 <= k < |Dir(fs.View())| ==> Dir(fs.View())[k].ino != 0
  {
    hide Consistent, RootOk, Dir, SlotAt, NodeAt, Byte, MetaOk;
    ghost var d := Dir(fs.View());
    RootSize(fs.View());
    var nentries := fs.vnodes[ROOT].inode.size / DIRSIZE;
    var found := false;
    ino, slot, empty := 0, 0, -1;
    var k := 0;
    while k < nentries
      invariant 0 <= k <= nentries == |d| && fs.Valid() && fs.View() == old(fs.View()) && fs.own == old(fs.own)
      invariant found ==> slot < k && ino != 0 && d[slot].ino == ino && d[slot].name == name
      invariant !found ==> forall m :: 0 <= m < k && d[m].ino != 0 ==> d[m].name != name
      invariant -1 <= empty < k && (empty >= 0 ==> d[empty].ino == 0)
      invariant empty < 0 ==> forall m :: 0 <= m < k ==> d[m].ino != 0
    {
      var e := ReadDir(fs, k);
      if e.ino == 0 {
        empty := k;
      } else if e.name == name {
        assert !found;
        found := true;
        slot := k;
        ino := e.ino;
      }
      k := k + 1;
    }
    err := if found then OK else ENOENT;
  }

  /** Only past the end of a directory of the largest size is there no block for a slot. */
  lemma LastSlot(s: Fs, own: Owner, slot: nat)
    requires RootOk(s, own) && slot <= |Dir(s)|
    ensures DIRSIZE * slot >= MAXBLOCKS * BLOCKSIZE ==>
              slot == |Dir(s)| && NodeAt(s, ROOT).size == MAXBLOCKS * BLOCKSIZE
  {
    hide NodeAt, Byte, SlotAt;
  }

  /** sfs_dir_link */
  method DirLink(fs: Volume, name: Name, ino: nat) returns (err: Error, slot: nat)
    requires fs.Valid() && ROOT in fs.vnodes && RootOk(fs.View(), fs.own) && Unique(Dir(fs.View())) &&
             0 < ino < 0x1_0000_0000
    modifies fs, fs.freemap.v
    ensures fs.Valid() && ROOT in fs.vnodes && RootOk(fs.View(), fs.own)
    ensures Others(old(fs.View()), fs.View(), old(fs.own), fs.own, ROOT)
    ensures fs.vnodes[ROOT].inode.links == old(fs.vnodes[ROOT].inode.links)
    ensures forall j: nat :: IsNode(old(fs.own), j) && j != ROOT ==> SameBytes(old(fs.View()), fs.View(), j)
    ensures err == EEXIST <==> exists i: nat :: Bound(Dir(old(fs.View())), name, i)
    ensures err in {OK, EEXIST, ENAMETOOLONG, ENOSPC, EINVAL}
    ensures err == ENAMETOOLONG <==> |name| >= NAMELEN && forall i: nat :: !Bound(Dir(old(fs.View())), name, i)
    ensures (err == ENOSPC ==> Full(fs.View())) && (err == EINVAL ==> DirFull(old(fs.View())))
    ensures err == OK ==> |name| < NAMELEN && slot <= |Dir(old(fs.View()))|
    ensures err == OK && slot < |Dir(old(fs.View()))| ==> Dir(old(fs.View()))[slot].ino == 0
    ensures Dir(fs.View()) == if err == OK then Put(Dir(old(fs.View())), slot, Dirent(ino, name))
              else Dir(old(fs.View()))
  {
    hide Consistent, RootOk, Byte, NodeAt, Put, DirentOf, MetaOk;
    ghost var d := Dir(fs.View());
    slot := 0;
    var i, k, empty;
    err, i, k, empty := FindName(fs, name);
    SelfSame(fs.View(), fs.own);
    if err == OK {
      assert Bound(d, name, i);
      return EEXIST, 0;
    }
    if |name| + 1 > NAMELEN {
      return ENAMETOOLONG, 0;
    }
    slot := if empty < 0 then fs.vnodes[ROOT].inode.size / DIRSIZE else empty;
    RootSize(fs.View());
    LastSlot(fs.View(), fs.own, slot);
    err := WriteDir(fs, Dirent(ino, name), slot);
  }

  /** sfs_dir_unlink of a slot in use, which never fails. */
  method DirUnlink(fs: Volume, slot: nat)
    requires fs.Valid() && ROOT in fs.vnodes && RootOk(fs.View(), fs.own)
    requires slot < |Dir(fs.View())| && Dir(fs.View())[slot].ino != 0
    modifies fs, fs.freemap.v
    ensures fs.Valid() && ROOT in fs.vnodes && RootOk(fs.View(), fs.own)
    ensures Others(old(fs.View()), fs.View(), old(fs.own), fs.own, ROOT)
    ensures fs.vnodes[ROOT].inode.links == old(fs.vnodes[ROOT].inode.links)
    ensures forall j: nat :: IsNode(old(fs.own), j) && j != ROOT ==> SameBytes(old(fs.View()), fs.View(), j)
    ensures Dir(fs.View()) == Dir(old(fs.View()))[slot := FREE]
  {
    hide Consistent, RootOk, Byte, NodeAt, DirentOf, MetaOk;
    var err := WriteDir(fs, FREE, slot);
  }

  lemma SelfSame(s: Fs, own: Owner)
    ensures Others(s, s, own, own, ROOT) && forall j: nat :: IsNode(own, j) && j != ROOT ==> SameBytes(s, s, j)
  {
    FrameSelf(s, own, ROOT);
  }

  lemma RootSize(s: Fs)
    requires ROOT in s.vnodes
    ensures |Dir(s)| == s.vnodes[ROOT].inode.size / DIRSIZE
  {
  }
}
