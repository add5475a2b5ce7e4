/** Model of kern/fs/sfs/sfs_fs.c: mounting, sync and unmounting. */
module SfsMount {
  import opened Words
  import opened SfsState
  import opened SfsMeta
  import opened SfsBlocks
  import opened SfsVolume
  import opened SfsDirent
  import opened SfsDir
  import opened SfsOps
  import opened SfsFormat
  import B = Bitmap

  // ---- reading the bitmap

  /** sfs_mapio, reading. The device refuses a block past its end, on which sfs_rblock panics: ok is then false. */
  method MapIo(fm: B.Bitmap, device: seq<Block>, nblocks: nat) returns (ok: bool)
    requires fm.Valid() && fm.nbits == BitmapSize(nblocks)
    modifies fm.v
    ensures fm.Valid() && (ok <==> MapFits(|device|, nblocks))
    ensures ok ==>
              forall b: nat :: b < fm.nbits ==>
                MAP_LOCATION + b / BLOCKBITS < |device| && fm.Bits()[b] == MapBit(device, b)
  {
    hide BitBlocks, MapCopied, MapBit, B.BitAt;
    var mapsize := BitBlocks(nblocks);
    var j := 0;
    CopiedNone(fm.v[..], device);
    while j < mapsize
      invariant 0 <= j <= mapsize && (j > 0 ==> MAP_LOCATION + j <= |device|)
      invariant MapCopied(fm.v[..], device, j)
    {
      if MAP_LOCATION + j >= |device| {
        LeftoverNone(fm);
        return false;
      }
      ReadInto(fm.v, j, device);
      j := j + 1;
    }
    LeftoverNone(fm);
    CopiedBits(fm.v[..], device, mapsize);
    ok := true;
  }

  /** A bitmap of whole blocks has no leftover bits. */
  lemma LeftoverNone(fm: B.Bitmap)
    requires fm.v.Length == (fm.nbits + 7) / 8 && fm.nbits % BLOCKBITS == 0
    ensures fm.Valid()
  {
  }

  /** The first j blocks of a buffer are the first j map blocks of the device. */
  ghost predicate MapCopied(v: seq<byte>, device: seq<Block>, j: nat) {
    forall m: nat :: m < j ==>
      MAP_LOCATION + m < |device| && (m + 1) * BLOCKSIZE <= |v| && Chunk(v, m) == device[MAP_LOCATION + m]
  }

  lemma CopiedNone(v: seq<byte>, device: seq<Block>)
    ensures MapCopied(v, device, 0)
  {
  }

  lemma CopiedBits(v: seq<byte>, device: seq<Block>, n: nat)
    requires MapCopied(v, device, n) && |v| == n * BLOCKSIZE
    ensures forall b: nat :: b < 8 * |v| ==>
              MAP_LOCATION + b / BLOCKBITS < |device| && B.BitAt(v, b) == MapBit(device, b)
  {
    hide B.BitAt;
    forall b: nat | b < 8 * |v| ensures MAP_LOCATION + b / BLOCKBITS < |device| && B.BitAt(v, b) == MapBit(device, b) {
      BitInBlock(v, b);
    }
  }

  /** sfs_rblock of map block j into block j of a buffer */
  method ReadInto(v: array<byte>, j: nat, device: seq<Block>)
    requires (j + 1) * BLOCKSIZE <= v.Length && MAP_LOCATION + j < |device| && MapCopied(v[..], device, j)
    modifies v
    ensures MapCopied(v[..], device, j + 1)
  {
    ghost var was := v[..];
    var lo, x := j * BLOCKSIZE, device[MAP_LOCATION + j];
    forall q | 0 <= q < BLOCKSIZE {
      v[lo + q] := x[q];
    }
    assert forall q :: lo <= q < lo + BLOCKSIZE ==> v[q] == x[q - lo];
    assert Chunk(v[..], j) == x;
    forall m: nat | m < j ensures (m + 1) * BLOCKSIZE <= v.Length && Chunk(v[..], m) == Chunk(was, m) {
      assert (m + 1) * BLOCKSIZE <= lo;
    }
  }

  // ---- mounting

  /** The volume size a device's superblock claims. */
  function Claimed(device: seq<Block>): u32
    requires device != []
  {
    ToWords(device[0])[1]
  }

  /** The map blocks of a volume of nblocks lie on a device of this size. */
  predicate MapFits(size: nat, nblocks: nat) {
    BitBlocks(nblocks) == 0 || MAP_LOCATION + BitBlocks(nblocks) <= size
  }

  /** The blocks of the device that belong to the volume. */
  function VolumeOn(device: seq<Block>): seq<Block>
    requires device != []
  {
    if Claimed(device) <= |device| then device[..Claimed(device)] else device
  }

  /** The bits of a device's map blocks. */
  ghost function MapBits(device: seq<Block>): (marks: seq<bool>)
    requires device != [] && MapFits(|device|, Claimed(device))
    ensures |marks| == BitmapSize(Claimed(device))
  {
    seq(BitmapSize(Claimed(device)), b requires 0 <= b < BitmapSize(Claimed(device)) => MapBit(device, b))
  }

  /** The files of a state are consistent, and its directory agrees with them. */
  ghost predicate Holds(s: Fs, own: Owner) {
    Consistent(s, own) && DirOk(s, own)
  }

  ghost predicate Intact(s: Fs) {
    exists own: Owner :: Holds(s, own)
  }

  /** What a device must hold for the volume on it to satisfy the invariant of every run. */
  ghost predicate Mountable(device: seq<Block>)
    requires device != [] && MapFits(|device|, Claimed(device))
  {
    MetaOk(VolumeOn(device), MapBits(device), false) && Intact(Fs(VolumeOn(device), MapBits(device), map[]))
  }

  datatype Mounting = Mounted | BadMagic | Panicked

  /** sfs_domount of any device: refused for its magic number, stopped at a map block past the end, or mounted
      with the freemap the map blocks hold. The volume is then sound exactly when the device was. */
  method Mount(device: seq<Block>) returns (r: Mounting, fs: Volume?)
    requires device != []
    ensures r == BadMagic <==> ToWords(device[0])[0] != MAGIC
    ensures r == Panicked <==> ToWords(device[0])[0] == MAGIC && !MapFits(|device|, Claimed(device))
    ensures r == Mounted ==> fs != null && fresh(fs) && fresh(fs.freemap.v)
    ensures r == Mounted ==> fs.View() == Fs(VolumeOn(device), MapBits(device), map[])
    ensures r == Mounted ==> (Sound(fs) <==> Mountable(device))
  {
    hide Consistent, DirOk, Dir, ToWords, MetaOk, BitBlocks;
    var super := ToWords(device[0]);
    if super[0] != MAGIC {
      return BadMagic, null;
    }
    var nblocks := super[1];
    var fm := new B.Bitmap(BitmapSize(nblocks));
    var ok := MapIo(fm, device, nblocks);
    if !ok {
      return Panicked, null;
    }
    assert fm.Bits() == MapBits(device);
    ghost var s := Fs(VolumeOn(device), MapBits(device), map[]);
    ghost var roles: Owner := map[];
    if Intact(s) {
      roles :| Holds(s, roles);
    }
    fs := new Volume(if nblocks <= |device| then device[..nblocks] else device, fm, roles);
    assert fs.View() == s;
    if Sound(fs) {
      assert Holds(s, fs.own);
    }
    r := Mounted;
  }

  // ---- mounting what mksfs wrote

  function InitialOwner(n: nat, size: nat): Owner {
    map b: nat | b < size && Initial(n, b) :: if b == ROOT then Node else Meta
  }

  /** A formatted device with its bitmap loaded is consistent, and its directory is empty. */
  lemma FreshVolume(disk: seq<Block>, marks: seq<bool>)
    requires Formatted(disk) && |marks| == BitmapSize(|disk|) && MapWritten(disk, marks)
    ensures var s, own := Fs(disk, marks, map[]), InitialOwner(|disk|, |marks|); Holds(s, own) && Dir(s) == []
  {
    hide NodeOf, NodeBlock, Byte, Dir, DirOk, BitBlocks;
    var s, own := Fs(disk, marks, map[]), InitialOwner(|disk|, |marks|);
    NodeRoundTrip(ROOTNODE);
    assert NodeAt(s, ROOT) == ROOTNODE;
    MapSize(|disk|);
    forall i: nat ensures IsNode(own, i) <==> i == ROOT {}
    forall b: nat ensures b in own <==> b < |marks| && marks[b] { assert b < |marks| ==> marks[b] == MapBit(disk, b); }
    forall b: nat | b < |marks| ensures (b in own && own[b].Meta?) <==> Reserved(|disk|, b) {}
    assert MarksOwned(s, own);
    forall k: nat | k <= INDIRECT ensures Ptr(s, ROOT, k) == 0 {}
    assert PartsOwned(s, own);
    EmptyDir(s, own);
  }

  lemma EmptyDir(s: Fs, own: Owner)
    requires NodeAt(s, ROOT) == ROOTNODE && forall i: nat :: IsNode(own, i) <==> i == ROOT
    ensures DirOk(s, own) && Dir(s) == []
  {
    hide NodeAt, Byte, SlotAt;
    assert Dir(s) == [];
    assert Count(Dir(s), ROOT) == 0;
  }

  lemma SuperWords(n: u32)
    ensures ToWords(SuperBlock(n))[0] == MAGIC && ToWords(SuperBlock(n))[1] == n
  {
    WordsRoundTrip([MAGIC, n] + NullWords(126));
  }

  /** Every device mksfs formats mounts as a sound, empty volume. */
  lemma FormattedMounts(disk: seq<Block>)
    requires Formatted(disk)
    ensures ToWords(disk[0])[0] == MAGIC && Claimed(disk) == |disk| && VolumeOn(disk) == disk &&
            MapFits(|disk|, |disk|) && Mountable(disk)
    ensures Dir(Fs(disk, MapBits(disk), map[])) == []
  {
    hide ToWords, SuperBlock, BitBlocks, NodeBlock, Dir, DirOk, Consistent;
    SuperWords(|disk|);
    MapSize(|disk|);
    FreshVolume(disk, MapBits(disk));
  }

  // ---- sync

  /** No cached inode waits to be written. */
  ghost predicate AllClean(s: Fs) {
    forall i :: i in s.vnodes ==> !s.vnodes[i].dirty
  }

  /** The same files under the same names, held by the same users. */
  ghost predicate SameVolume(s: Fs, t: Fs, own: Owner) {
    && t.marks == s.marks && t.vnodes.Keys == s.vnodes.Keys && SameRefs(s, t) && Dir(t) == Dir(s)
    && forall j: nat :: IsNode(own, j) ==> NodeAt(t, j) == NodeAt(s, j) && SameBytes(s, t, j)
  }

  lemma SameVolumeTrans(s: Fs, m: Fs, t: Fs, own: Owner)
    requires SameVolume(s, m, own) && SameVolume(m, t, own)
    ensures SameVolume(s, t, own)
  {
    hide NodeAt, Byte, Dir, Refs;
  }

  lemma SyncedVolume(s: Fs, own: Owner, i: nat)
    requires Holds(s, own) && i in s.vnodes && i < |s.disk|
    ensures SameVolume(s, Synced(s, i), own)
  {
    hide Consistent, NodeAt, Byte, Dir, DirOk;
    SyncedSame(s, own, i);
    SyncedKeys(s, i);
    DirParts(s, own);
    assert SameBytes(s, Synced(s, i), ROOT);
    StillOk(s, Synced(s, i), own, own);
  }

  /** Rewriting blocks that belong to no file changes no file. */
  lemma MapRewritten(s: Fs, own: Owner, t: Fs)
    requires Holds(s, own) && t == s.(disk := t.disk) && |t.disk| == |s.disk|
    requires forall b: nat :: b < |s.disk| && !Reserved(|s.disk|, b) ==> t.disk[b] == s.disk[b]
    ensures Holds(t, own) && SameVolume(s, t, own)
  {
    hide Byte, Ptr, Dir, DirOk, MarksOwned, PartsOwned, NodeOf;
    forall p: nat | p < |s.disk| && p in own && !own[p].Meta? ensures t.disk[p] == s.disk[p] { NotReserved(s, own, p); }
    Recached(s, own, t);
    DirParts(s, own);
    StillOk(s, t, own, own);
  }

  lemma NotReserved(s: Fs, own: Owner, p: nat)
    requires MarksOwned(s, own) && p < |s.disk| && p in own && !own[p].Meta?
    ensures !Reserved(|s.disk|, p)
  {
  }

  /** After sfs_mapio has written it, the bitmap is on disk. */
  lemma MapOnDisk(disk: seq<Block>, disk': seq<Block>, bits: seq<byte>, marks: seq<bool>)
    requires MetaOk(disk, marks, true) && |disk'| == |disk| && disk'[0] == disk[0]
    requires 8 * |bits| == |marks| && forall b: nat :: b < |marks| ==> marks[b] == B.BitAt(bits, b)
    requires BitBlocks(|disk|) * BLOCKSIZE == |bits|
    requires forall j: nat :: j < BitBlocks(|disk|) ==> disk'[MAP_LOCATION + j] == Chunk(bits, j)
    ensures MetaOk(disk', marks, false)
  {
    hide BitBlocks, ToWords;
    forall b: nat | b < |marks| ensures MAP_LOCATION + b / BLOCKBITS < |disk'| && MapBit(disk', b) == marks[b] {
      BitInBlock(bits, b);
    }
  }

  /** The end of sfs_sync: the freemap, if it has changed. */
  method SyncMap(fs: Volume)
    requires Sound(fs)
    modifies fs`disk, fs`freemapdirty
    ensures Sound(fs) && !fs.freemapdirty && SameVolume(old(fs.View()), fs.View(), fs.own)
  {
    hide Consistent, DirOk, Dir, MetaOk, BitBlocks, NodeAt, Byte;
    ghost var s := fs.View();
    if fs.freemapdirty {
      MapShape(fs.disk, fs.marks);
      fs.disk := WriteMap(fs.disk, fs.freemap.v[..], BitBlocks(|fs.disk|));
      fs.freemapdirty := false;
      MapOnDisk(s.disk, fs.disk, fs.freemap.v[..], fs.marks);
    }
    MapRewritten(s, fs.own, fs.View());
  }

  lemma MapShape(disk: seq<Block>, marks: seq<bool>)
    requires MetaOk(disk, marks, true)
    ensures MAP_LOCATION + BitBlocks(|disk|) <= |disk| && |marks| == BitBlocks(|disk|) * BLOCKBITS && disk != []
  {
    hide BitBlocks;
  }

  /** sfs_sync: every cached inode and then the freemap go to disk. Nothing sets the superblock's dirty flag. */
  method SyncFs(fs: Volume)
    requires Sound(fs)
    modifies fs`disk, fs`vnodes, fs`freemapdirty
    ensures Sound(fs) && !fs.freemapdirty && AllClean(fs.View()) && SameVolume(old(fs.View()), fs.View(), fs.own)
  {
    hide Consistent, DirOk, Dir, MetaOk, NodeAt, Byte, SameVolume;
    ghost var s := fs.View();
    SameVolumeSelf(s, fs.own);
    var todo := fs.vnodes.Keys;
    while todo != {}
      modifies fs`disk, fs`vnodes
      invariant Sound(fs) && SameVolume(s, fs.View(), fs.own) && todo <= fs.vnodes.Keys
      invariant forall i :: i in fs.vnodes && i !in todo ==> !fs.vnodes[i].dirty
      decreases |todo|
    {
      var i: nat :| i in todo;
      ghost var m := fs.View();
      Sync(fs, i);
      SyncedVolume(m, fs.own, i);
      SameVolumeTrans(s, m, fs.View(), fs.own);
      SyncedKeys(m, i);
      todo := todo - {i};
    }
    ghost var m := fs.View();
    SyncMap(fs);
    SameVolumeTrans(s, m, fs.View(), fs.own);
  }

  lemma SameVolumeSelf(s: Fs, own: Owner)
    ensures SameVolume(s, s, own)
  {
  }

  // ---- what is on disk after a sync

  /** The volume as a mount of its disk alone shows it. */
  function OnDisk(s: Fs): Fs { s.(vnodes := map[]) }

  lemma DiskAlone(s: Fs, own: Owner)
    requires Consistent(s, own) && AllClean(s)
    ensures Consistent(OnDisk(s), own) && SameAll(s, OnDisk(s), own) && SamePtrs(s, OnDisk(s), own)
    ensures forall j: nat :: IsNode(own, j) ==> NodeAt(OnDisk(s), j) == NodeAt(s, j)
  {
    hide Byte, Ptr, MarksOwned, PartsOwned, NodeOf, SameAll, SamePtrs;
    Recached(s, own, OnDisk(s));
  }

  /** No file is open that has lost its last name. */
  ghost predicate NoOrphans(s: Fs) {
    forall i :: i in s.vnodes ==> i == ROOT || s.vnodes[i].inode.links > 0
  }

  lemma DiskDir(s: Fs, own: Owner)
    requires Holds(s, own) && AllClean(s)
    ensures Dir(OnDisk(s)) == Dir(s)
  {
    hide Consistent, Byte, Dir, NodeAt;
    DiskAlone(s, own);
    DirParts(s, own);
    assert SameBytes(s, OnDisk(s), ROOT);
    DirSame(s, OnDisk(s));
  }

  lemma NamedOnDisk(s: Fs, own: Owner)
    requires Holds(s, own) && AllClean(s) && NoOrphans(s)
    ensures Holds(OnDisk(s), own)
  {
    hide Consistent, Byte, Dir, DirOk, NodeAt;
    DiskAlone(s, own);
    DirParts(s, own);
    assert SameBytes(s, OnDisk(s), ROOT);
    forall j: nat | j in s.vnodes ensures j == ROOT || NodeAt(s, j).links > 0 { LoadedInode(s, j); }
    StillOk(s, OnDisk(s), own, own);
  }

  lemma Unnamed(s: Fs, own: Owner, own': Owner, i: nat)
    requires Holds(s, own) && AllClean(s) && i in s.vnodes && i != ROOT && s.vnodes[i].inode.links == 0 &&
             Holds(OnDisk(s), own')
    ensures !IsNode(own', i)
  {
    hide Consistent, Byte, Dir, NodeAt;
    LoadedInode(s, i);
    Live(s, own, i);
    DiskDir(s, own);
    NodesInUse(OnDisk(s), own', i);
    if n: Name :| Bound(Dir(s), n, i) {
      BoundCount(Dir(s), n, i);
    }
  }

  /** Whatever the blocks of the disk are in use for, a loaded inode is not part of a file. */
  lemma StillNode(s: Fs, own: Owner, own': Owner, i: nat)
    requires Holds(s, own) && AllClean(s) && i in s.vnodes && Holds(OnDisk(s), own')
    ensures IsNode(own', i)
  {
    hide Byte, Ptr, Dir, DirOk, NodeAt, CacheOk, MarksOwned;
    InRange(s, own, i);
    Live(s, own, i);
    DiskAlone(s, own);
    DiskDir(s, own);
    if !IsNode(own', i) {
      MarkedPart(OnDisk(s), own', i);
      var j := own'[i].ino;
      NodesInUse(OnDisk(s), own', j);
      NodesInUse(s, own, j);
      assert false;
    }
  }

  lemma MarkedPart(s: Fs, own: Owner, b: nat)
    requires MarksOwned(s, own) && b < |s.marks| && s.marks[b] && !Reserved(|s.disk|, b) && !IsNode(own, b)
    ensures b in own && own[b].Part?
  {
    assert b in own;
  }

  /** A synced disk satisfies the invariant on its own exactly when no open file has lost its last name. */
  lemma SyncedDisk(s: Fs, own: Owner)
    requires Holds(s, own) && AllClean(s)
    ensures Intact(OnDisk(s)) <==> NoOrphans(s)
  {
    hide Holds;
    if NoOrphans(s) {
      NamedOnDisk(s, own);
    } else {
      var i :| i in s.vnodes && i != ROOT && s.vnodes[i].inode.links == 0;
      if own': Owner :| Holds(OnDisk(s), own') {
        StillNode(s, own, own', i);
        Unnamed(s, own, own', i);
        assert false;
      }
    }
  }

  // ---- unmounting and mounting again

  /** The second volume holds what the first one held: the same free blocks, files and names. */
  ghost predicate Reopened(s: Fs, t: Fs, own: Owner, own': Owner) {
    && t.marks == s.marks && Dir(t) == Dir(s) && SameNodes(own, own')
    && forall j: nat :: IsNode(own, j) ==> NodeAt(t, j) == NodeAt(s, j) && SameBytes(s, t, j)
  }

  /** What is mounted from a synced disk is what was synced. */
  lemma DiskMounts(s: Fs, own: Owner)
    requires Holds(s, own) && AllClean(s) && MetaOk(s.disk, s.marks, false)
    ensures s.disk != [] && ToWords(s.disk[0])[0] == MAGIC && MapFits(|s.disk|, Claimed(s.disk))
    ensures VolumeOn(s.disk) == s.disk && MapBits(s.disk) == s.marks && (Mountable(s.disk) <==> NoOrphans(s))
  {
    hide ToWords, BitBlocks, Holds;
    assert Claimed(s.disk) == |s.disk|;
    assert VolumeOn(s.disk) == s.disk;
    assert MapBits(s.disk) == s.marks;
    SyncedDisk(s, own);
  }

  lemma DiskReopened(s0: Fs, s: Fs, own: Owner, own': Owner)
    requires SameVolume(s0, s, own) && Holds(s, own) && AllClean(s) && Holds(OnDisk(s), own') && NoOrphans(s)
    ensures Reopened(s0, OnDisk(s), own, own')
  {
    hide Consistent, Byte, Dir, DirOk, NodeAt;
    DiskAlone(s, own);
    DiskDir(s, own);
    NamedOnDisk(s, own);
    forall i: nat ensures IsNode(own', i) == IsNode(own, i) {
      NodesInUse(OnDisk(s), own, i);
      NodesInUse(OnDisk(s), own', i);
    }
    forall j: nat | IsNode(own, j) ensures SameBytes(s0, OnDisk(s), j) {
      assert SameBytes(s0, s, j) && SameBytes(s, OnDisk(s), j);
    }
  }

  /** FS_SYNC, and then a mount of the disk as it stands, as after a restart: the volume found is sound exactly
      when no open file had lost its last name, and it is then the volume that was synced. */
  method SyncMount(fs: Volume) returns (again: Volume)
    requires Sound(fs)
    modifies fs`disk, fs`vnodes, fs`freemapdirty
    ensures Sound(fs) && !fs.freemapdirty && SameVolume(old(fs.View()), fs.View(), fs.own)
    ensures fresh(again) && again.vnodes == map[]
    ensures Sound(again) <==> NoOrphans(old(fs.View()))
    ensures Sound(again) ==> Reopened(old(fs.View()), again.View(), fs.own, again.own)
  {
    hide Consistent, DirOk, Dir, MetaOk, NodeAt, Byte, SameVolume, ToWords, BitBlocks, Reopened, SameNodes;
    ghost var s0 := fs.View();
    SyncFs(fs);
    ghost var s := fs.View();
    DiskMounts(s, fs.own);
    SameOrphans(s0, s, fs.own);
    var r, v := Mount(fs.disk);
    assert r == Mounted;
    again := v;
    if Sound(again) {
      DiskReopened(s0, s, fs.own, again.own);
    }
  }

  lemma SameOrphans(s: Fs, t: Fs, own: Owner)
    requires SameVolume(s, t, own) && Consistent(t, own)
    ensures NoOrphans(t) <==> NoOrphans(s)
  {
    hide Byte, Dir;
    forall i | i in s.vnodes ensures t.vnodes[i].inode == s.vnodes[i].inode { Live(t, own, i); }
  }

  /** vfs_unmount: FS_SYNC and then sfs_unmount, refused while any vnode is loaded. Its assertions hold. */
  method Unmount(fs: Volume) returns (err: Error)
    requires Sound(fs)
    modifies fs`disk, fs`vnodes, fs`freemapdirty
    ensures Sound(fs) && SameVolume(old(fs.View()), fs.View(), fs.own)
    ensures err == EBUSY <==> old(fs.vnodes) != map[]
    ensures err == OK || err == EBUSY
    ensures err == OK ==> OnDisk(fs.View()) == fs.View() && MetaOk(fs.disk, fs.marks, false)
  {
    SyncFs(fs);
    if fs.vnodes.Keys != {} {
      return EBUSY;
    }
    assert !fs.freemapdirty;
    err := OK;
  }

  /** A volume unmounted and mounted again has the same free blocks, the same directory and the same files. */
  method Remount(fs: Volume) returns (err: Error, again: Volume?)
    requires Sound(fs)
    modifies fs`disk, fs`vnodes, fs`freemapdirty
    ensures err == OK || err == EBUSY
    ensures err == EBUSY <==> old(fs.vnodes) != map[]
    ensures Sound(fs)
    ensures err == OK ==>
              again != null && fresh(again) && fresh(again.freemap.v) && Sound(again) && again.vnodes == map[]
    ensures err == OK ==> Reopened(old(fs.View()), again.View(), fs.own, again.own)
  {
    hide Consistent, DirOk, Dir, MetaOk, NodeAt, Byte, SameVolume, ToWords, BitBlocks, Reopened, SameNodes;
    ghost var s0 := fs.View();
    err := Unmount(fs);
    if err != OK {
      return err, null;
    }
    ghost var s := fs.View();
    DiskMounts(s, fs.own);
    var r, v := Mount(fs.disk);
    assert r == Mounted;
    again := v;
    DiskReopened(s0, s, fs.own, again.own);
  }

  /** A device's whole life: mksfs, a mount, and any sessions of operations, each ended by an attempt to unmount
      and mount again. Every state in it satisfies the invariant. */
  method Lifetime(device: seq<Block>, sessions: seq<seq<Op>>) returns (fs: Volume?)
    requires 3 <= |device| <= MAXBLOCKCOUNT
    ensures fs != null && Sound(fs)
  {
    hide Consistent, DirOk, Dir, MetaOk, Reopened, ToWords, BitBlocks, Mountable, Formatted;
    var res, disk := Mksfs(device);
    FormattedMounts(disk);
    var r;
    r, fs := Mount(disk);
    assert r == Mounted;
    for n := 0 to |sessions|
      invariant fs != null && fresh(fs) && fresh(fs.freemap.v) && Sound(fs)
    {
      var alive := Run(fs, sessions[n]);
      if !alive { return; }
      var err, again := Remount(fs);
      if err == OK {
        fs := again;
      }
    }
  }
}
