/** Model of the block-level and file-level routines of kern/fs/sfs/sfs_vnode.c. */
module SfsVolume {
  import opened Words
  import opened Uio
  import opened SfsState
  import opened SfsBlocks
  import opened SfsTransfer
  import opened SfsMeta
  import B = Bitmap

  datatype Error = OK | ENOSPC | EINVAL | ENOENT | EEXIST | ENAMETOOLONG | EBUSY | NOTFILE

  /** The inode keeps its type and links, and its size, read as an off_t, is raised to end. */
  ghost predicate Resized(n: Inode, m: Inode, end: i32) {
    m.kind == n.kind && m.links == n.links && m.size == if end > ToInt(n.size) then ToU32(end) else n.size
  }

  /** Where a transfer leaves the end of a file: nowhere, for a read. */
  function EndOf(write: bool, offset: nat): i32
    requires offset < 0x8000_0000
  {
    if write then offset else -0x8000_0000
  }

  /** How much a read of resid bytes at off may return, from a file whose size is read as an off_t. */
  function Readable(size: u32, off: int, resid: nat): nat {
    if off >= ToInt(size) then 0 else Min(resid, ToInt(size) - off)
  }

  /** n bytes at off lie in blocks that a file can have; none, at a block boundary, need no block. */
  predicate Within(off: nat, n: nat) {
    off + n <= MAXBLOCKS * BLOCKSIZE || (n == 0 && off % BLOCKSIZE == 0)
  }

  /** When a read succeeds: past the end of file, where it returns nothing; and elsewhere if its end is an off_t,
      so that it stops at the end of file, and the bytes up to there lie in blocks a file can have. */
  predicate ReadFits(size: u32, off: nat, resid: nat) {
    off >= ToInt(size) || (off + resid < 0x8000_0000 && Within(off, Readable(size, off, resid)))
  }

  lemma BlockEnd(off: nat, len: nat)
    requires off / BLOCKSIZE < MAXBLOCKS && off % BLOCKSIZE + len <= BLOCKSIZE
    ensures off + len <= MAXBLOCKS * BLOCKSIZE && (off % BLOCKSIZE + len == BLOCKSIZE ==> (off + len) % BLOCKSIZE == 0)
  {
  }

  /** How sfs_io ends at a negative offset: it returns, or an assertion of sfs_partialio fails, or sfs_partialio moves
      bytes that lie before its buffer. */
  datatype Outcome = Returned(err: Error) | Failed | OffBuffer

  /** How many bytes sfs_io sets out to move. */
  function Wanted(write: bool, size: u32, off: int, resid: nat): nat {
    if write || off + resid >= 0x8000_0000 then resid else Readable(size, off, resid)
  }

  /** sfs_io looks for blocks, not at end of file. */
  predicate Going(write: bool, size: u32, off: int) { write || off < ToInt(size) }

  /** The end of a read as an off_t is above the size exactly if it is so as a number and is no more than an off_t
      holds. */
  lemma EndPos(size: i32, off: int, resid: nat)
    requires -0x8000_0000 <= off < size && resid < U32
    ensures ToInt(ToU32(off + resid)) > size <==> size < off + resid < 0x8000_0000
    ensures off + resid < 0x8000_0000 ==> ToInt(ToU32(off + resid)) == off + resid
  {
    if off + resid < 0 {
      Wrapped(off + resid);
    } else if off + resid < U32 {
      Unwrapped(off + resid);
    } else {
      assert (off + resid) % U32 == off + resid - U32;
    }
  }

  /** How sfs_io begins: a read stops at end of file, and extraresid is what it leaves of the residue. The end of a read
      that does not fit an off_t is below the size, so that nothing is left. */
  method Clip(write: bool, filesize: u32, off: int, resid: nat) returns (eof: bool, extraresid: nat)
    requires -0x8000_0000 <= off < 0x8000_0000 && resid < U32
    ensures eof <==> !Going(write, filesize, off)
    ensures !eof ==> extraresid <= resid && resid - extraresid == Wanted(write, filesize, off, resid)
  {
    eof, extraresid := false, 0;
    if !write {
      var size, endpos := ToInt(filesize), ToInt(ToU32(off + resid));
      if off >= size {
        return true, 0;
      }
      EndPos(size, off, resid);
      if endpos > size {
        extraresid := endpos as int - size as int;
        assert resid > extraresid;
      }
    }
  }

  /** From off to the next block boundary */
  function ToBoundary(off: int): nat { -off % BLOCKSIZE }

  /** How the blocks of a transfer of n bytes at a negative offset end; full tells that there is no room for block 0. */
  predicate EndsAs(out: Outcome, off: int, n: nat, full: bool) {
    if n < ToBoundary(off) then out == Failed
    else if n == 0 then out == Returned(OK)
    else if off + BLOCKSIZE <= 0 then out == Returned(EINVAL)
    else out == OffBuffer || (out == Returned(ENOSPC) && full)
  }

  /** At a negative offset the bytes to skip, a negative number, are a large unsigned one. The length up to the
      end of the block is then too large by as many, and the sum is a block again; only a shorter transfer can fail
      the assertion. The block number, too, is large, except for the last 511 offsets, where it is 0. */
  lemma NegativeBlock(off: int, n: nat)
    requires -0x8000_0000 <= off < 0 && n < U32
    ensures ToU32(CMod(off, BLOCKSIZE)) == 0 <==> ToBoundary(off) == 0
    ensures var skip := ToU32(CMod(off, BLOCKSIZE));
            skip != 0 ==>
              (ToU32(skip + Min(ToU32(BLOCKSIZE - skip), n)) <= BLOCKSIZE <==> ToBoundary(off) <= n)
    ensures if off + BLOCKSIZE > 0 then ToU32(CDiv(off, BLOCKSIZE)) == 0 else ToU32(CDiv(off, BLOCKSIZE)) >= MAXBLOCKS
  {
    var r := ToBoundary(off);
    if r > 0 {
      Wrapped(-r);
      Wrapped(BLOCKSIZE - (U32 - r));
      Unwrapped(BLOCKSIZE + r);
      var len := Min(BLOCKSIZE + r, n);
      assert ToU32(BLOCKSIZE - (U32 - r)) == BLOCKSIZE + r;
      assert ToU32(U32 - r + len) == if len >= r then len - r else U32 - r + len;
    }
    var q := (-off) / BLOCKSIZE;
    if q > 0 { Wrapped(-q); }
  }

  class Volume {
    var disk: seq<Block>
    const freemap: B.Bitmap
    var freemapdirty: bool
    var vnodes: map<nat, Vnode>
    /** What each block in use is for; ghost, so the kernel keeps no such table. */
    ghost var own: Owner
    /** The freemap's bits. */
    ghost var marks: seq<bool>

    ghost function View(): Fs
      reads this
    {
      Fs(disk, marks, vnodes)
    }

    ghost predicate MapOk()
      reads this, freemap.v
    {
      freemap.Valid() && marks == freemap.Bits() && MetaOk(disk, marks, freemapdirty)
    }

    ghost predicate Valid()
      reads this, freemap.v
    {
      MapOk() && Consistent(View(), own)
    }

    /** A volume just mounted: no vnode is loaded and nothing is dirty. */
    constructor (device: seq<Block>, fm: B.Bitmap, ghost roles: Owner)
      requires fm.Valid()
      ensures disk == device && freemap == fm && !freemapdirty && vnodes == map[] && own == roles && marks == fm.Bits()
    {
      disk := device;
      freemap := fm;
      freemapdirty := false;
      vnodes := map[];
      own := roles;
      marks := fm.Bits();
    }

    /** sfs_balloc: the lowest free block, marked and zeroed. Its range panic cannot fire. */
    method Balloc() returns (err: Error, b: nat)
      requires Valid()
      modifies this`disk, this`marks, this`freemapdirty, freemap.v
      ensures MapOk()
      ensures err == OK || err == ENOSPC
      ensures err == OK ==>
                0 < b < |old(disk)| && b < 0x1_0000_0000 && b !in own && b < |old(View()).marks| &&
                !old(View()).marks[b]
      ensures err == OK ==> View() == Cleared(old(View()), b)
      ensures err == OK ==> forall c: nat :: c < b ==> old(View()).marks[c]
      ensures err == ENOSPC ==> View() == old(View()) && Full(View())
    {
      hide MetaOk;
      var found, index := freemap.Alloc();
      if !found {
        return ENOSPC, 0;
      }
      b := index;
      FreeInRange(old(View()), own, b);
      freemapdirty := true;
      assert b < |disk|;
      MetaDirty(disk, marks, freemap.Bits(), old(freemapdirty));
      MetaKept(disk, b, ZERO, freemap.Bits(), true);
      disk := disk[b := ZERO];
      marks := freemap.Bits();
      err := OK;
    }

    /** sfs_bfree */
    method Bfree(b: nat)
      requires MapOk() && b < |View().marks| && View().marks[b]
      modifies this`marks, this`freemapdirty, freemap.v
      ensures MapOk() && View() == old(View()).(marks := old(View()).marks[b := false])
    {
      hide MetaOk;
      freemap.Unmark(b);
      freemapdirty := true;
      MetaDirty(disk, marks, freemap.Bits(), old(freemapdirty));
      marks := freemap.Bits();
    }

    /** sfs_bmap, direct blocks. The "marked free" panic cannot fire. */
    method BmapDirect(i: nat, k: nat, doalloc: bool) returns (err: Error, block: nat)
      requires Valid() && i in vnodes && k < NDIRECT
      modifies this, freemap.v
      ensures Valid() && Frame(old(View()), View(), old(own), own, i) && SameAll(old(View()), View(), old(own)) &&
              Kept(old(View()), View(), i)
      ensures err == OK || err == ENOSPC
      ensures err == OK ==> block == Ptr(View(), i, k) && (doalloc ==> block != 0)
      ensures !doalloc ==> err == OK && View() == old(View()) && own == old(own)
      ensures err == ENOSPC ==> Full(View()) && View() == old(View()) && Ptr(old(View()), i, k) == 0
    {
      hide Byte, Ptr, Frame, Kept, SameAll, MarksOwned, PartsOwned, CacheOk, MetaOk;
      FrameSelf(View(), own, i);
      PtrDirect(View(), i, k);
      err := OK;
      block := vnodes[i].inode.direct[k];
      if block == 0 && doalloc {
        err, block := Balloc();
        if err != OK {
          return;
        }
        var v := vnodes[i];
        vnodes := vnodes[i := Vnode(v.inode.(direct := v.inode.direct[k := block]), true, v.refs)];
        HangDirect(old(View()), own, i, k, block, View());
        own := own[block := Part(i, k)];
      }
      InUse(View(), own, i, k);
      assert block != 0 ==> block < |disk| && View().marks[block];
    }

    /** sfs_bmap, the indirect block itself when it is missing. */
    method AddIndirect(i: nat) returns (err: Error)
      requires Valid() && i in vnodes && vnodes[i].inode.indirect == 0
      modifies this, freemap.v
      ensures Valid() && Frame(old(View()), View(), old(own), own, i) && SameAll(old(View()), View(), old(own)) &&
              Kept(old(View()), View(), i)
      ensures err == OK || err == ENOSPC
      ensures err == OK ==> OtherPtrs(old(View()), View(), old(own), i, INDIRECT)
      ensures err == OK ==> 0 < vnodes[i].inode.indirect < |disk| && disk[vnodes[i].inode.indirect] == ZERO
      ensures err == ENOSPC ==> Full(View()) && View() == old(View())
    {
      hide Byte, Ptr, Frame, Kept, SameAll, MarksOwned, PartsOwned, CacheOk, MetaOk;
      FrameSelf(View(), own, i);
      PtrIndirect(View(), i);
      var block;
      err, block := Balloc();
      if err != OK {
        return;
      }
      var v := vnodes[i];
      vnodes := vnodes[i := Vnode(v.inode.(indirect := block), true, v.refs)];
      HangIndirect(old(View()), own, i, block, View());
      own := own[block := Part(i, INDIRECT)];
    }

    /** sfs_bmap, a missing entry of an indirect block that is present: it is added and the block written back. */
    method AddIndexed(i: nat, k: nat) returns (err: Error, block: nat)
      requires Valid() && i in vnodes && NDIRECT <= k < MAXBLOCKS && Ptr(View(), i, k) == 0
      requires vnodes[i].inode.indirect != 0
      modifies this, freemap.v
      ensures Valid() && Frame(old(View()), View(), old(own), own, i) && SameAll(old(View()), View(), old(own)) &&
              Kept(old(View()), View(), i)
      ensures err == OK || err == ENOSPC
      ensures err == OK ==> block == Ptr(View(), i, k) && block != 0
      ensures err == ENOSPC ==> Full(View()) && View() == old(View())
    {
      hide Byte, Ptr, Frame, Kept, SameAll, MarksOwned, PartsOwned, CacheOk, MetaOk;
      FrameSelf(View(), own, i);
      var p := vnodes[i].inode.indirect;
      PtrIndirect(View(), i);
      InUse(View(), own, i, INDIRECT);
      var idbuf := ToWords(disk[p]);
      err, block := Balloc();
      if err != OK {
        return;
      }
      MetaKept(disk, p, ToBytes(idbuf[k - NDIRECT := block]), marks, freemapdirty);
      disk := disk[p := ToBytes(idbuf[k - NDIRECT := block])];
      HangIndexed(old(View()), own, i, k, block, View());
      own := own[block := Part(i, k)];
    }

    /** sfs_bmap: the disk block of file block k, allocated on demand. Allocation changes no file's bytes. */
    method Bmap(i: nat, k: nat, doalloc: bool) returns (err: Error, block: nat)
      requires Valid() && i in vnodes
      modifies this, freemap.v
      ensures i in vnodes
      ensures Valid() && Frame(old(View()), View(), old(own), own, i) && SameAll(old(View()), View(), old(own)) &&
              Kept(old(View()), View(), i)
      ensures err == EINVAL <==> k >= MAXBLOCKS
      ensures err == EINVAL ==> View() == old(View()) && own == old(own)
      ensures err == OK || err == ENOSPC || err == EINVAL
      ensures err == OK ==> block == Ptr(View(), i, k) && (doalloc ==> block != 0)
      ensures !doalloc ==> err != ENOSPC && View() == old(View()) && own == old(own)
      ensures err == ENOSPC ==> Full(View()) && Ptr(old(View()), i, k) == 0
    {
      hide Consistent, Byte, Ptr, NodeAt, SameAll, Kept, MapOk;
      FrameSelf(View(), own, i);
      if k < NDIRECT {
        err, block := BmapDirect(i, k, doalloc);
        return;
      }
      if (k - NDIRECT) / DBPERIDB > 0 {
        return EINVAL, 0;
      }
      err, block := OK, 0;
      var idblock := vnodes[i].inode.indirect;
      if idblock == 0 && !doalloc {
        NoIndirect(View(), i, k);
        return;
      }
      if idblock == 0 {
        NoIndirect(View(), i, k);
        err := AddIndirect(i);
        if err != OK {
          return;
        }
      }
      ghost var mid, own1 := View(), own;
      err, block := BmapIndexed(i, k, doalloc);
      FrameTrans(old(View()), mid, View(), old(own), own1, own, i);
      SameAllTrans(old(View()), mid, View(), old(own), own1);
      KeptTrans(old(View()), mid, View(), i);
    }

    /** sfs_bmap once the indirect block is present: load it and look up or add the entry. */
    method BmapIndexed(i: nat, k: nat, doalloc: bool) returns (err: Error, block: nat)
      requires Valid() && i in vnodes && NDIRECT <= k < MAXBLOCKS && vnodes[i].inode.indirect != 0
      modifies this, freemap.v
      ensures Valid() && Frame(old(View()), View(), old(own), own, i) && SameAll(old(View()), View(), old(own)) &&
              Kept(old(View()), View(), i)
      ensures err == OK || err == ENOSPC
      ensures err == OK ==> block == Ptr(View(), i, k) && (doalloc ==> block != 0)
      ensures !doalloc ==> err == OK && View() == old(View()) && own == old(own)
      ensures err == ENOSPC ==> Full(View()) && View() == old(View()) && Ptr(old(View()), i, k) == 0
    {
      hide Byte, SameAll, MarksOwned, PartsOwned, CacheOk, MetaOk;
      FrameSelf(View(), own, i);
      PtrIndirect(View(), i);
      InUse(View(), own, i, INDIRECT);
      err := OK;
      var idbuf := ToWords(disk[vnodes[i].inode.indirect]);
      block := idbuf[k - NDIRECT];
      assert block == Ptr(View(), i, k);
      if block == 0 && doalloc {
        err, block := AddIndexed(i, k);
      }
      InUse(View(), own, i, k);
      assert err == OK && block != 0 ==> block < |disk| && View().marks[block];
    }

    /** sfs_partialio: part of one block, read-modify-write when writing. */
    method PartialIo(i: nat, u: Uio, skip: nat, len: nat) returns (err: Error)
      requires Valid() && i in vnodes && u.Valid()
      requires skip == u.offset % BLOCKSIZE && skip + len <= BLOCKSIZE && len <= u.resid
      modifies this, freemap.v, u
      ensures Valid() && u.Valid() && i in vnodes
      ensures u.Advanced(old(u.base), old(u.iovlen), old(u.offset), old(u.resid), if err == OK then len else 0)
      ensures Moved(old(View()), View(), old(own), own, i, old(u.offset), if err == OK then len else 0,
                    u.write, old(u.mem), u.mem, old(u.base))
      ensures err == OK ==> u.offset <= MAXBLOCKS * BLOCKSIZE && (skip + len == BLOCKSIZE ==> u.offset % BLOCKSIZE == 0)
      ensures err == EINVAL <==> old(u.offset) / BLOCKSIZE >= MAXBLOCKS
      ensures err == OK || err == EINVAL ||
              (err == ENOSPC && u.write && Full(View()) && Ptr(old(View()), i, u.offset / BLOCKSIZE) == 0)
    {
      hide Consistent, Byte, NodeAt, Ptr, SameAll, Moved, Splice, MetaOk, Frame, Kept, Full, Reserved;
      var fileblock := u.offset / BLOCKSIZE;
      var diskblock;
      err, diskblock := Bmap(i, fileblock, u.write);
      ghost var mid := View();
      InUse(mid, own, i, Min(fileblock, INDIRECT));
      if err != OK {
        NoneMoved(old(View()), mid, old(own), own, i, u.offset, u.write, u.mem, u.base);
        return;
      }
      BlockEnd(u.offset, len);
      PartRw(diskblock, u, skip, len);
      if u.write {
        MetaKept(mid.disk, diskblock, disk[diskblock], marks, freemapdirty);
        BlockWritten(old(View()), mid, View(), old(own), own, i, old(u.offset), fileblock, len, old(u.mem),
                     old(u.base));
      } else {
        BlockRead(mid, own, i, old(u.offset), fileblock, len, old(u.mem), u.mem, old(u.base));
      }
    }

    /** The end of sfs_partialio: the block, or zeros, in a buffer; uiomove; and the buffer written back. */
    method PartRw(diskblock: nat, u: Uio, skip: nat, len: nat)
      requires u.Valid() && (if diskblock == 0 then !u.write else diskblock < |disk|) && skip + len <= BLOCKSIZE &&
               len <= u.resid
      modifies this`disk, u
      ensures u.Valid() && u.Advanced(old(u.base), old(u.iovlen), old(u.offset), old(u.resid), len)
      ensures u.write ==> u.mem == old(u.mem)
      ensures u.write ==> disk == old(disk)[diskblock := Splice(old(disk)[diskblock], skip, u.mem[old(u.base)..u.base])]
      ensures !u.write ==>
                disk == old(disk) &&
                u.mem == Splice(old(u.mem), old(u.base), BlockAt(disk, diskblock)[skip..skip + len])
    {
      hide Splice, MetaOk;
      var iobuf := if diskblock == 0 then ZERO else disk[diskblock];
      iobuf := u.MoveWithin(iobuf, skip, len);
      if u.write {
        disk := disk[diskblock := iobuf];
      }
    }

    /** sfs_blockio: one whole block, moved straight between the device and the uio. */
    method BlockIo(i: nat, u: Uio) returns (err: Error)
      requires Valid() && i in vnodes && u.Valid()
      requires u.offset % BLOCKSIZE == 0 && u.resid >= BLOCKSIZE
      modifies this, freemap.v, u
      ensures Valid() && u.Valid() && i in vnodes
      ensures u.Advanced(old(u.base), old(u.iovlen), old(u.offset), old(u.resid), if err == OK then BLOCKSIZE else 0)
      ensures Moved(old(View()), View(), old(own), own, i, old(u.offset), if err == OK then BLOCKSIZE else 0,
                    u.write, old(u.mem), u.mem, old(u.base))
      ensures err == OK ==> u.offset <= MAXBLOCKS * BLOCKSIZE
      ensures err == EINVAL <==> old(u.offset) / BLOCKSIZE >= MAXBLOCKS
      ensures err == OK || err == EINVAL ||
              (err == ENOSPC && u.write && Full(View()) && Ptr(old(View()), i, u.offset / BLOCKSIZE) == 0)
    {
      hide Consistent, Byte, NodeAt, Ptr, SameAll, Moved, Splice, MetaOk, Frame, Kept, Full, Reserved;
      var fileblock := u.offset / BLOCKSIZE;
      var diskblock;
      err, diskblock := Bmap(i, fileblock, u.write);
      ghost var mid := View();
      InUse(mid, own, i, Min(fileblock, INDIRECT));
      if err != OK {
        NoneMoved(old(View()), mid, old(own), own, i, u.offset, u.write, u.mem, u.base);
        return;
      }
      if diskblock == 0 {
        var ok := u.MoveZeros(BLOCKSIZE);
        assert ZERO[0..BLOCKSIZE] == Zeros(BLOCKSIZE);
        BlockRead(mid, own, i, old(u.offset), fileblock, BLOCKSIZE, old(u.mem), u.mem, old(u.base));
        return;
      }
      SwapRw(diskblock, u);
      if u.write {
        MetaKept(mid.disk, diskblock, disk[diskblock], marks, freemapdirty);
        BlockWritten(old(View()), mid, View(), old(own), own, i, old(u.offset), fileblock, BLOCKSIZE, old(u.mem),
                     old(u.base));
      } else {
        BlockRead(mid, own, i, old(u.offset), fileblock, BLOCKSIZE, old(u.mem), u.mem, old(u.base));
      }
    }

    /** The end of sfs_blockio: device I/O with the uio's offset and residue substituted and restored. */
    method SwapRw(diskblock: nat, u: Uio)
      requires u.Valid() && diskblock < |disk| <= MAXVOLUME && u.resid >= BLOCKSIZE
      modifies this`disk, u
      ensures u.Valid() && u.Advanced(old(u.base), old(u.iovlen), old(u.offset), old(u.resid), BLOCKSIZE)
      ensures u.write ==> u.mem == old(u.mem)
      ensures u.write ==> disk == old(disk)[diskblock := Splice(old(disk)[diskblock], 0, u.mem[old(u.base)..u.base])]
      ensures !u.write ==> disk == old(disk) && u.mem == Splice(old(u.mem), old(u.base), disk[diskblock][0..BLOCKSIZE])
    {
      hide Splice, MetaOk;
      var saveoff, saveres := u.offset, u.resid;
      var diskoff := diskblock * BLOCKSIZE;
      assert diskoff + BLOCKSIZE <= 0x8000_0000;
      u.offset := diskoff;
      u.resid := BLOCKSIZE;
      var sector := u.MoveWithin(disk[diskblock], 0, BLOCKSIZE);
      if u.write {
        disk := disk[diskblock := sector];
      }
      u.offset := u.offset - diskoff + saveoff;
      u.resid := u.resid - BLOCKSIZE + saveres;
    }

    /** sfs_io's loop over whole blocks. */
    method WholeBlocks(i: nat, u: Uio) returns (err: Error)
      requires Valid() && i in vnodes && u.Valid() && u.offset % BLOCKSIZE == 0
      modifies this, freemap.v, u
      ensures Valid() && u.Valid() && i in vnodes && u.offset % BLOCKSIZE == 0
      ensures u.offset >= old(u.offset)
      ensures u.Advanced(old(u.base), old(u.iovlen), old(u.offset), old(u.resid), u.offset - old(u.offset))
      ensures Moved(old(View()), View(), old(own), own, i, old(u.offset), u.offset - old(u.offset),
                    u.write, old(u.mem), u.mem, old(u.base))
      ensures err == OK ==> u.resid < BLOCKSIZE
      ensures err != OK ==> u.offset == old(u.offset) || (u.offset % BLOCKSIZE == 0 && u.resid > 0)
      ensures err == EINVAL ==> u.offset / BLOCKSIZE >= MAXBLOCKS
      ensures u.offset <= MAXBLOCKS * BLOCKSIZE || u.offset == old(u.offset)
      ensures err == OK || err == EINVAL ||
              (err == ENOSPC && u.write && Full(View()) && Ptr(old(View()), i, u.offset / BLOCKSIZE) == 0)
    {
      hide Consistent, Moved, Ptr, MapOk;
      MovedNone(View(), own, i, u.offset, u.write, u.mem, u.base);
      err := OK;
      var nblocks := u.resid / BLOCKSIZE;
      var n := 0;
      while n < nblocks
        invariant err == OK && 0 <= n <= nblocks && u.resid == old(u.resid) - n * BLOCKSIZE &&
                  u.offset == old(u.offset) + n * BLOCKSIZE
        invariant Valid() && u.Valid() && i in vnodes
        invariant u.Advanced(old(u.base), old(u.iovlen), old(u.offset), old(u.resid), u.offset - old(u.offset))
        invariant Moved(old(View()), View(), old(own), own, i, old(u.offset), u.offset - old(u.offset),
                        u.write, old(u.mem), u.mem, old(u.base))
        invariant u.offset <= MAXBLOCKS * BLOCKSIZE || u.offset == old(u.offset)
      {
        ghost var mid, own1, mem1, off1 := View(), own, u.mem, u.offset;
        err := BlockIo(i, u);
        MovedTrans(old(View()), mid, View(), old(own), own1, own, i, old(u.offset), off1 - old(u.offset),
                   u.offset - off1,
                   u.write, old(u.mem), mem1, u.mem, old(u.base));
        if err != OK {
          return;
        }
        n := n + 1;
      }
    }

    /** sfs_io from a block boundary on: whole blocks, then a trailing partial block. */
    method AlignedIo(i: nat, u: Uio) returns (err: Error)
      requires Valid() && i in vnodes && u.Valid() && u.offset % BLOCKSIZE == 0
      modifies this, freemap.v, u
      ensures Valid() && u.Valid() && i in vnodes
      ensures u.offset >= old(u.offset)
      ensures u.Advanced(old(u.base), old(u.iovlen), old(u.offset), old(u.resid), u.offset - old(u.offset))
      ensures Moved(old(View()), View(), old(own), own, i, old(u.offset), u.offset - old(u.offset),
                    u.write, old(u.mem), u.mem, old(u.base))
      ensures err == OK ==> u.resid == 0
      ensures err != OK ==> u.offset == old(u.offset) || (u.offset % BLOCKSIZE == 0 && u.resid > 0)
      ensures err == EINVAL ==> u.offset / BLOCKSIZE >= MAXBLOCKS
      ensures u.offset <= MAXBLOCKS * BLOCKSIZE || u.offset == old(u.offset)
      ensures err == OK || err == EINVAL ||
              (err == ENOSPC && u.write && Full(View()) && Ptr(old(View()), i, u.offset / BLOCKSIZE) == 0)
    {
      hide Consistent, Moved, Ptr, MapOk;
      err := WholeBlocks(i, u);
      if err != OK || u.resid == 0 {
        return;
      }
      ghost var mid, own1, mem1, off1 := View(), own, u.mem, u.offset;
      err := PartialIo(i, u, 0, u.resid);
      MovedTrans(old(View()), mid, View(), old(own), own1, own, i, old(u.offset), off1 - old(u.offset), u.offset - off1,
                 u.write, old(u.mem), mem1, u.mem, old(u.base));
    }

    /** The block-by-block part of sfs_io: a leading partial block, then the rest. */
    method IoBlocks(i: nat, u: Uio) returns (err: Error)
      requires Valid() && i in vnodes && u.Valid()
      modifies this, freemap.v, u
      ensures Valid() && u.Valid() && i in vnodes
      ensures u.offset >= old(u.offset)
      ensures u.Advanced(old(u.base), old(u.iovlen), old(u.offset), old(u.resid), u.offset - old(u.offset))
      ensures Moved(old(View()), View(), old(own), own, i, old(u.offset), u.offset - old(u.offset),
                    u.write, old(u.mem), u.mem, old(u.base))
      ensures err == OK ==> u.resid == 0
      ensures err != OK ==> u.offset == old(u.offset) || (u.offset % BLOCKSIZE == 0 && u.resid > 0)
      ensures err == EINVAL ==> u.offset == Max(old(u.offset), MAXBLOCKS * BLOCKSIZE)
      ensures u.offset <= MAXBLOCKS * BLOCKSIZE || u.offset == old(u.offset)
      ensures err == OK ==> Within(old(u.offset), old(u.resid))
      ensures err == EINVAL ==> !Within(old(u.offset), old(u.resid))
      ensures err == OK || err == EINVAL ||
              (err == ENOSPC && u.write && Full(View()) && Ptr(old(View()), i, u.offset / BLOCKSIZE) == 0)
    {
      hide Consistent, Moved, Ptr, MapOk;
      MovedNone(View(), own, i, u.offset, u.write, u.mem, u.base);
      err := OK;
      var blkoff := u.offset % BLOCKSIZE;
      if blkoff != 0 {
        err := PartialIo(i, u, blkoff, Min(BLOCKSIZE - blkoff, u.resid));
      }
      if err != OK || u.resid == 0 {
        return;
      }
      ghost var mid, own1, mem1, off1 := View(), own, u.mem, u.offset;
      err := AlignedIo(i, u);
      MovedTrans(old(View()), mid, View(), old(own), own1, own, i, old(u.offset), off1 - old(u.offset), u.offset - off1,
                 u.write, old(u.mem), mem1, u.mem, old(u.base));
    }

    /** The end of sfs_io for a write: the file length is adjusted. */
    method GrowTo(i: nat, end: i32)
      requires Valid() && i in vnodes
      modifies this`vnodes
      ensures Valid() && i in vnodes && Others(old(View()), View(), own, own, i) && SameAll(old(View()), View(), own)
      ensures Resized(old(vnodes[i].inode), vnodes[i].inode, end)
    {
      hide Consistent, Byte, Ptr, SameAll, MetaOk;
      FrameSelf(View(), own, i);
      if end > ToInt(vnodes[i].inode.size) {
        var v := vnodes[i];
        vnodes := vnodes[i := Vnode(v.inode.(size := ToU32(end)), true, v.refs)];
        SetMeta(old(View()), own, i, vnodes[i].inode, View());
      }
    }

    /** The blocks of a transfer, and the new size of a file written to */
    method IoGrow(i: nat, u: Uio) returns (err: Error)
      requires Valid() && i in vnodes && u.Valid() && u.offset < 0x8000_0000
      modifies this, freemap.v, u
      ensures Valid() && u.Valid() && i in vnodes
      ensures u.offset >= old(u.offset)
      ensures u.Advanced(old(u.base), old(u.iovlen), old(u.offset), old(u.resid), u.offset - old(u.offset))
      ensures Transfer(old(View()), View(), old(own), own, i, old(u.offset), u.offset - old(u.offset),
                       u.write, old(u.mem), u.mem, old(u.base))
      ensures Others(old(View()), View(), old(own), own, i)
      ensures u.offset < 0x8000_0000 && Resized(old(vnodes[i].inode), vnodes[i].inode, EndOf(u.write, u.offset))
      ensures err == OK ==> u.resid == 0
      ensures err != OK ==> u.offset == old(u.offset) || (u.offset % BLOCKSIZE == 0 && u.resid > 0)
      ensures u.offset <= MAXBLOCKS * BLOCKSIZE || u.offset == old(u.offset)
      ensures err == EINVAL ==> u.offset == Max(old(u.offset), MAXBLOCKS * BLOCKSIZE)
      ensures err == OK ==> Within(old(u.offset), old(u.resid))
      ensures err == EINVAL ==> !Within(old(u.offset), old(u.resid))
      ensures err == OK || err == EINVAL ||
              (err == ENOSPC && u.write && Full(View()) && Ptr(old(View()), i, u.offset / BLOCKSIZE) == 0)
    {
      hide Consistent, Byte, Ptr, Transfer, SameAll, MapOk;
      err := IoBlocks(i, u);
      ghost var mid, own1 := View(), own;
      if u.write {
        GrowTo(i, u.offset);
        OthersTrans(old(View()), mid, View(), old(own), own1, own, i);
        TransferThenSame(old(View()), mid, View(), old(own), own1, i, old(u.offset), u.offset - old(u.offset),
                         old(u.mem), u.mem, old(u.base));
      }
    }

    /** sfs_io: a read stops at end of file, unless its end is too large for an off_t: then it goes on to the last block
        a file can have. A write grows the file to where it stopped. */
    method Io(i: nat, u: Uio) returns (err: Error)
      requires Valid() && i in vnodes && u.Valid() && u.offset < 0x8000_0000
      modifies this, freemap.v, u
      ensures Valid() && u.Valid() && i in vnodes
      ensures u.offset >= old(u.offset)
      ensures u.Advanced(old(u.base), old(u.iovlen), old(u.offset), old(u.resid), u.offset - old(u.offset))
      ensures Transfer(old(View()), View(), old(own), own, i, old(u.offset), u.offset - old(u.offset),
                       u.write, old(u.mem), u.mem, old(u.base))
      ensures Others(old(View()), View(), old(own), own, i)
      ensures u.offset < 0x8000_0000 && Resized(old(vnodes[i].inode), vnodes[i].inode, EndOf(u.write, u.offset))
      ensures err == OK && u.write ==> u.resid == 0
      ensures err == OK && !u.write ==>
                u.offset - old(u.offset) == Readable(old(vnodes[i].inode.size), old(u.offset), old(u.resid))
      ensures err != OK ==> u.offset == old(u.offset) || (u.offset % BLOCKSIZE == 0 && u.resid > 0)
      ensures u.offset <= MAXBLOCKS * BLOCKSIZE || u.offset == old(u.offset)
      ensures err == EINVAL ==> u.offset == Max(old(u.offset), MAXBLOCKS * BLOCKSIZE)
      ensures u.write && err == OK ==> Within(old(u.offset), old(u.resid))
      ensures u.write && err == EINVAL ==> !Within(old(u.offset), old(u.resid))
      ensures !u.write ==> (err == OK <==> ReadFits(old(vnodes[i].inode.size), old(u.offset), old(u.resid)))
      ensures err == OK || err == EINVAL ||
              (err == ENOSPC && u.write && Full(View()) && Ptr(old(View()), i, u.offset / BLOCKSIZE) == 0)
    {
      hide Consistent, Byte, Ptr, Transfer, SameAll, MapOk, Full;
      FrameSelf(View(), own, i);
      SelfTransfer(View(), own, i, u.offset, u.write, u.mem, u.base);
      var eof, extraresid := Clip(u.write, vnodes[i].inode.size, u.offset, u.resid);
      if eof {
        return OK;
      }
      u.resid := u.resid - extraresid;
      err := IoGrow(i, u);
      u.resid := u.resid + extraresid;
    }

    /** The blocks of a transfer at a negative offset: the leading partial block, or the first of the others. */
    method NegativeBlocks(i: nat, off: i32, n: nat, write: bool) returns (out: Outcome)
      requires Valid() && i in vnodes && off < 0 && n < U32
      modifies this, freemap.v
      ensures Valid() && i in vnodes
      ensures Frame(old(View()), View(), old(own), own, i) && SameAll(old(View()), View(), old(own))
      ensures Kept(old(View()), View(), i)
      ensures !write ==> View() == old(View()) && own == old(own)
      ensures EndsAs(out, off, n, write && Full(View()) && Ptr(old(View()), i, 0) == 0)
    {
      hide Consistent, Byte, Ptr, SameAll, MapOk, Full, Kept;
      FrameSelf(View(), own, i);
      NegativeBlock(off, n);
      var blkoff := ToU32(CMod(off, BLOCKSIZE));
      var err, block := OK, 0;
      if blkoff != 0 {
        var len := Min(ToU32(BLOCKSIZE - blkoff), n);
        if ToU32(blkoff + len) > BLOCKSIZE {
          return Failed;
        }
        err, block := Bmap(i, ToU32(CDiv(off, BLOCKSIZE)), write);
        if err == OK {
          return OffBuffer;
        }
      } else if n > 0 {
        err, block := Bmap(i, ToU32(CDiv(off, BLOCKSIZE)), write);
      }
      return Returned(err);
    }

    /** sfs_io at a negative offset, which moves nothing unless it leaves sfs_partialio's buffer; the model stops
        there. */
    method NegativeIo(i: nat, off: i32, resid: nat, write: bool) returns (out: Outcome)
      requires Valid() && i in vnodes && off < 0 && resid < U32
      modifies this, freemap.v
      ensures Valid() && i in vnodes
      ensures Others(old(View()), View(), old(own), own, i) && SameAll(old(View()), View(), old(own))
      ensures !write ==> View() == old(View()) && own == old(own)
      ensures Resized(old(vnodes[i].inode), vnodes[i].inode, if write && out.Returned? then off else -0x8000_0000)
      ensures if Going(write, old(vnodes[i].inode.size), off) then
                EndsAs(out, off, Wanted(write, old(vnodes[i].inode.size), off, resid),
                       write && Full(View()) && Ptr(old(View()), i, 0) == 0)
              else out == Returned(OK)
    {
      hide Consistent, Byte, Ptr, SameAll, MapOk;
      FrameSelf(View(), own, i);
      var eof, extraresid := Clip(write, vnodes[i].inode.size, off, resid);
      if eof {
        return Returned(OK);
      }
      out := NegativeBlocks(i, off, resid - extraresid, write);
      ghost var mid, own1 := View(), own;
      if write && out.Returned? {
        GrowTo(i, off);
        OthersTrans(old(View()), mid, View(), old(own), own1, own, i);
        SameAllTrans(old(View()), mid, View(), old(own), own1);
      }
    }
  }
}
