/** On-disk structures of SFS (kern/include/kern/sfs.h) and the state of a mounted volume. */
module SfsState {
  import opened Words

  const BLOCKSIZE: nat := 512
  const NDIRECT: nat := 15
  const DBPERIDB: nat := 128
  const ROOT: nat := 1
  const MAP_LOCATION: nat := 2
  const BLOCKBITS: nat := 4096
  const TYPE_INVAL: u16 := 0
  const TYPE_FILE: u16 := 1
  const TYPE_DIR: u16 := 2

  /** Blocks a file can map: the direct ones, then those of the one indirect block. */
  const MAXBLOCKS: nat := 143
  /** Pointer slot of an inode that holds the indirect block itself. */
  const INDIRECT: nat := 143

  type Block = b: seq<byte> | |b| == 512 witness Zeros(512)
  const ZERO: Block := Zeros(512)

  datatype InodeRec = Inode(size: u32, kind: u16, links: u16, direct: seq<u32>, indirect: u32)
  type Inode = n: InodeRec | |n.direct| == 15 witness Inode(0, 0, 0, NullWords(15), 0)

  /** struct sfs_inode overlaid on a block. */
  function NodeOf(b: Block): Inode {
    var w := ToWords(b);
    Inode(w[0], w[1] / 0x1_0000, w[1] % 0x1_0000, w[2..17], w[17])
  }

  function NodeWords(n: Inode): (w: seq<u32>)
    ensures |w| == 128
  {
    [n.size, n.kind * 0x1_0000 + n.links] + n.direct + [n.indirect] + NullWords(110)
  }

  function NodeBlock(n: Inode): Block {
    ToBytes(NodeWords(n))
  }

  lemma NodeRoundTrip(n: Inode)
    ensures NodeOf(NodeBlock(n)) == n
  {
    hide ToWords, ToBytes;
    var w := NodeWords(n);
    WordsRoundTrip(w);
    assert w[2..17] == n.direct;
    assert w[1] / 0x1_0000 == n.kind && w[1] % 0x1_0000 == n.links;
  }

  const EMPTY: Inode := Inode(0, 0, 0, NullWords(15), 0)

  lemma ZeroNode()
    ensures NodeOf(ZERO) == EMPTY
  {
    ZeroWords(128);
    assert ToWords(ZERO)[2..17] == EMPTY.direct;
  }

  /** struct sfs_vnode: the cached inode, its dirty flag and the vnode's reference count. */
  datatype Vnode = Vnode(inode: Inode, dirty: bool, refs: nat)

  /** A mounted volume: the device, the free-block bitmap and the table of loaded vnodes. */
  datatype Fs = Fs(disk: seq<Block>, marks: seq<bool>, vnodes: map<nat, Vnode>)

  /** The inode the kernel would use for i: the cached one if loaded, else the one on disk. */
  function NodeAt(s: Fs, i: nat): Inode {
    if i in s.vnodes then s.vnodes[i].inode
    else if i < |s.disk| then NodeOf(s.disk[i])
    else EMPTY
  }

  /** Entry k of an inode's block map, 0 when unmapped. */
  function Entry(disk: seq<Block>, n: Inode, k: nat): nat {
    if k < NDIRECT then n.direct[k]
    else if k == INDIRECT then n.indirect
    else if k < MAXBLOCKS && 0 < n.indirect < |disk| then ToWords(disk[n.indirect])[k - NDIRECT]
    else 0
  }

  function Ptr(s: Fs, i: nat, k: nat): nat {
    Entry(s.disk, NodeAt(s, i), k)
  }

  function BlockAt(disk: seq<Block>, p: nat): Block {
    if 0 < p < |disk| then disk[p] else ZERO
  }

  /** Byte off of file i; unmapped blocks and blocks past the largest file read as zero. */
  function Byte(s: Fs, i: nat, off: nat): byte {
    if off / BLOCKSIZE < MAXBLOCKS then BlockAt(s.disk, Ptr(s, i, off / BLOCKSIZE))[off % BLOCKSIZE] else 0
  }

  /** What a block is in use for. */
  datatype Role = Meta | Node | Part(ino: nat, slot: nat)
  type Owner = map<nat, Role>

  predicate IsNode(own: Owner, i: nat) {
    i in own && own[i] == Node
  }

  /** SFS_BITBLOCKS and SFS_BITMAPSIZE, whose rounding up wraps at 32 bits */
  function BitBlocks(nblocks: nat): nat { (nblocks + BLOCKBITS - 1) % 0x1_0000_0000 / BLOCKBITS }
  function BitmapSize(nblocks: nat): nat { BitBlocks(nblocks) * BLOCKBITS }

  /** The superblock, the bitmap's own blocks and everything past the end of the volume. */
  predicate Reserved(nblocks: nat, b: nat) {
    b == 0 || MAP_LOCATION <= b < MAP_LOCATION + BitBlocks(nblocks) || b >= nblocks
  }

  /** The largest volume whose every byte has a 32-bit offset on the device. */
  const MAXVOLUME: nat := 0x40_0000

  /** The freemap marks exactly the blocks that have a role. */
  ghost predicate MarksOwned(s: Fs, own: Owner) {
    && |s.marks| >= |s.disk| && |s.disk| <= MAXVOLUME
    && (forall b: nat {:trigger b in own} :: b in own <==> b < |s.marks| && s.marks[b])
    && (forall b: nat {:trigger b in own} :: b < |s.marks| ==> ((b in own && own[b].Meta?) <==> Reserved(|s.disk|, b)))
  }

  /** Every mapped block is owned by exactly the slot that maps it, and every owned part is mapped. */
  ghost predicate PartsOwned(s: Fs, own: Owner) {
    && (forall i: nat, k: nat :: IsNode(own, i) && k <= INDIRECT && Ptr(s, i, k) != 0 ==>
          Ptr(s, i, k) in own && own[Ptr(s, i, k)] == Part(i, k))
    && (forall b :: b in own && own[b].Part? ==>
          b != 0 && IsNode(own, own[b].ino) && own[b].slot <= INDIRECT && Ptr(s, own[b].ino, own[b].slot) == b)
  }

  /** Loaded vnodes are live inodes, and a clean one agrees with the disk. */
  ghost predicate CacheOk(s: Fs, own: Owner) {
    forall i :: i in s.vnodes ==>
      IsNode(own, i) && i < |s.disk| && s.vnodes[i].refs > 0 &&
      (!s.vnodes[i].dirty ==> s.vnodes[i].inode == NodeOf(s.disk[i]))
  }

  ghost predicate Consistent(s: Fs, own: Owner) {
    && MarksOwned(s, own)
    && (forall i: nat :: IsNode(own, i) ==> i < |s.disk|)
    && PartsOwned(s, own)
    && CacheOk(s, own)
  }

  lemma NoIndirect(s: Fs, i: nat, k: nat)
    requires i in s.vnodes && s.vnodes[i].inode.indirect == 0 && k >= NDIRECT
    ensures Ptr(s, i, k) == 0
  {
  }

  lemma PtrDirect(s: Fs, i: nat, k: nat)
    requires i in s.vnodes && k < NDIRECT
    ensures Ptr(s, i, k) == s.vnodes[i].inode.direct[k]
  {
  }

  lemma PtrIndirect(s: Fs, i: nat)
    requires i in s.vnodes
    ensures Ptr(s, i, INDIRECT) == s.vnodes[i].inode.indirect
  {
  }

  /** A mapped block is in range, marked, and none of the volume's own blocks. */
  lemma InUse(s: Fs, own: Owner, i: nat, k: nat)
    requires Consistent(s, own) && i in s.vnodes && k <= INDIRECT
    ensures |s.disk| <= |s.marks| && |s.disk| <= MAXVOLUME
    ensures Ptr(s, i, k) != 0 ==> Ptr(s, i, k) < |s.disk| && s.marks[Ptr(s, i, k)] && Ptr(s, i, k) in own
    ensures Ptr(s, i, k) != 0 ==> !Reserved(|s.disk|, Ptr(s, i, k))
  {
    if Ptr(s, i, k) != 0 { assert Ptr(s, i, k) in own; }
  }

  lemma Live(s: Fs, own: Owner, i: nat)
    requires Consistent(s, own) && i in s.vnodes
    ensures IsNode(own, i)
  {
  }

  lemma ByteBeyond(s: Fs, i: nat)
    ensures forall off: nat :: off / BLOCKSIZE >= MAXBLOCKS ==> Byte(s, i, off) == 0
  {
  }

  lemma PtrBeyond(s: Fs, i: nat)
    ensures forall k: nat :: k > INDIRECT ==> Ptr(s, i, k) == 0
  {
  }
}
