/** Model of sbin/mksfs/mksfs.c. */
module SfsFormat {
  import opened Words
  import opened SfsState
  import opened SfsMeta
  import B = Bitmap

  const MAXBITBLOCKS: nat := 32
  /** The largest volume whose bitmap mksfs has room for. */
  const MAXBLOCKCOUNT: nat := 0x2_0000

  /** What the freemap of a fresh volume marks: superblock, root inode, bitmap blocks and bits past the end. */
  predicate Initial(fsblocks: nat, b: nat) {
    b == ROOT || Reserved(fsblocks, b)
  }

  datatype MkResult = Done | TooLarge | AssertFailed

  /** doallocbit; false is its assertion failing */
  method DoAllocBit(bitbuf: array<byte>, bit: nat) returns (ok: bool)
    requires bit < 8 * bitbuf.Length
    modifies bitbuf
    ensures ok <==> !old(B.BitAt(bitbuf[..], bit))
    ensures ok ==>
              forall b: nat :: b < 8 * bitbuf.Length ==>
                B.BitAt(bitbuf[..], b) == (b == bit || old(B.BitAt(bitbuf[..], b)))
  {
    B.ByteWidth();
    var x := bit / 8;
    if B.Bit(bitbuf[x], bit % 8) {
      return false;
    }
    ghost var s := bitbuf[..];
    bitbuf[x] := B.Or(bitbuf[x], bit % 8, 8);
    B.BitSet(s, bitbuf[..], bit, true);
    ok := true;
  }

  /** Calls of doallocbit for bits lo, ..., hi - 1 */
  method AllocRange(bitbuf: array<byte>, lo: nat, hi: nat) returns (ok: bool)
    requires hi <= 8 * bitbuf.Length
    modifies bitbuf
    ensures ok <==> forall b: nat :: lo <= b < hi ==> !old(B.BitAt(bitbuf[..], b))
    ensures ok ==>
              forall b: nat :: b < 8 * bitbuf.Length ==>
                B.BitAt(bitbuf[..], b) == (lo <= b < hi || old(B.BitAt(bitbuf[..], b)))
  {
    ghost var s := bitbuf[..];
    var i := lo;
    while i < hi
      invariant lo <= i && (i == lo || i <= hi)
      invariant forall b: nat :: lo <= b < i ==> b < hi && !B.BitAt(s, b)
      invariant forall b: nat :: b < 8 * bitbuf.Length ==> B.BitAt(bitbuf[..], b) == (lo <= b < i || B.BitAt(s, b))
    {
      assert B.BitAt(bitbuf[..], i) == B.BitAt(s, i);
      ok := DoAllocBit(bitbuf, i);
      if !ok {
        return;
      }
      i := i + 1;
    }
    ok := true;
  }

  /** The marking part of writebitmap, on the static zeroed buffer. It fails an assertion exactly on volumes
      of one or two blocks, where the bitmap block lies past the end and is marked twice. The test for a volume
      too large lets through those of the last 4095 sizes, for which the size of the bitmap wraps to zero. */
  method MarkInitial(fsblocks: u32) returns (res: MkResult, bitbuf: array<byte>)
    ensures fresh(bitbuf) && bitbuf.Length == MAXBITBLOCKS * BLOCKSIZE
    ensures res == TooLarge <==> MAXBLOCKCOUNT < fsblocks <= 0x1_0000_0000 - BLOCKBITS
    ensures res == AssertFailed <==> fsblocks == 1 || fsblocks == 2
    ensures res == Done ==> BitmapSize(fsblocks) <= 8 * bitbuf.Length
    ensures res == Done && 0 < fsblocks <= MAXBLOCKCOUNT ==>
              forall b: nat :: b < BitmapSize(fsblocks) ==> B.BitAt(bitbuf[..], b) == Initial(fsblocks, b)
  {
    var nbits, nblocks := BitmapSize(fsblocks), BitBlocks(fsblocks);
    MapSize(fsblocks);
    bitbuf := new byte[MAXBITBLOCKS * BLOCKSIZE](_ => 0);
    if nblocks > MAXBITBLOCKS {
      return TooLarge, bitbuf;
    }
    forall b: nat | b < 8 * bitbuf.Length ensures !B.BitAt(bitbuf[..], b) { B.ZeroBit(b % 8); }
    var ok := AllocRange(bitbuf, 0, MAP_LOCATION);
    assert ok;
    ok := AllocRange(bitbuf, MAP_LOCATION, MAP_LOCATION + nblocks);
    assert ok;
    ghost var s := bitbuf[..];
    assert forall b: nat :: b < 8 * bitbuf.Length ==> B.BitAt(s, b) == (b < MAP_LOCATION + nblocks);
    ok := AllocRange(bitbuf, fsblocks, nbits);
    if fsblocks == 1 || fsblocks == 2 { assert B.BitAt(s, fsblocks); }
    res := if ok then Done else AssertFailed;
  }

  /** The number of map blocks: it fits the buffer, or wraps to none, or is too large. */
  lemma MapSize(n: u32)
    ensures BitBlocks(n) > MAXBITBLOCKS <==> MAXBLOCKCOUNT < n <= 0x1_0000_0000 - BLOCKBITS
    ensures n > 0x1_0000_0000 - BLOCKBITS ==> BitBlocks(n) == 0
    ensures 3 <= n <= MAXBLOCKCOUNT ==> MAP_LOCATION + BitBlocks(n) <= n <= BitmapSize(n)
    ensures 1 <= n <= 2 ==> BitBlocks(n) == 1
  {
  }

  const ROOTNODE: Inode := Inode(0, TYPE_DIR, 1, NullWords(15), 0)

  /** writesuper; the volume name is left out */
  function SuperBlock(nblocks: u32): Block {
    ToBytes([MAGIC, nblocks] + NullWords(126))
  }

  /** A device as mksfs leaves it. */
  ghost predicate Formatted(disk: seq<Block>) {
    && 3 <= |disk| <= MAXBLOCKCOUNT && MAP_LOCATION + BitBlocks(|disk|) <= |disk|
    && disk[0] == SuperBlock(|disk|) && disk[ROOT] == NodeBlock(ROOTNODE)
    && forall b: nat :: b < BitmapSize(|disk|) ==> MapBit(disk, b) == Initial(|disk|, b)
  }

  /** Block j of a byte string. */
  function Chunk(s: seq<byte>, j: nat): Block
    requires (j + 1) * BLOCKSIZE <= |s|
  {
    s[j * BLOCKSIZE..(j + 1) * BLOCKSIZE]
  }

  /** Bit b of a byte string is bit b mod 4096 of its 512-byte block b / 4096. */
  lemma BitInBlock(s: seq<byte>, b: nat)
    requires b < 8 * |s| && |s| % BLOCKSIZE == 0
    ensures (b / BLOCKBITS + 1) * BLOCKSIZE <= |s| && B.BitAt(s, b) == B.BitAt(Chunk(s, b / BLOCKBITS), b % BLOCKBITS)
  {
    var j, r := b / BLOCKBITS, b % BLOCKBITS;
    assert b / 8 == j * BLOCKSIZE + r / 8 && b % 8 == r % 8;
  }

  /** The end of writebitmap, and sfs_mapio writing: the buffer goes to the map blocks. */
  method WriteMap(device: seq<Block>, bits: seq<byte>, nblocks: nat) returns (disk: seq<Block>)
    requires MAP_LOCATION + nblocks <= |device| && nblocks * BLOCKSIZE <= |bits|
    ensures |disk| == |device|
    ensures forall b: nat :: b < |disk| && !(MAP_LOCATION <= b < MAP_LOCATION + nblocks) ==> disk[b] == device[b]
    ensures forall j: nat :: j < nblocks ==> disk[MAP_LOCATION + j] == Chunk(bits, j)
  {
    disk := device;
    var i := 0;
    while i < nblocks
      invariant 0 <= i <= nblocks && |disk| == |device|
      invariant forall b: nat :: b < |disk| && !(MAP_LOCATION <= b < MAP_LOCATION + i) ==> disk[b] == device[b]
      invariant forall j: nat :: j < i ==> disk[MAP_LOCATION + j] == Chunk(bits, j)
    {
      disk := disk[MAP_LOCATION + i := Chunk(bits, i)];
      i := i + 1;
    }
  }

  /** mksfs's writes to a device of at least two blocks. Above the largest size it formats, mksfs reports
      success exactly where the bitmap size wraps, and then the blocks of the map are as they were. */
  method Mksfs(device: seq<Block>) returns (res: MkResult, disk: seq<Block>)
    requires 2 <= |device| < 0x1_0000_0000
    ensures res == Done <==> 3 <= |device| <= MAXBLOCKCOUNT || |device| > 0x1_0000_0000 - BLOCKBITS
    ensures res == AssertFailed <==> |device| == 2
    ensures res == Done ==> |disk| == |device| && (Formatted(disk) <==> |device| <= MAXBLOCKCOUNT)
    ensures res == Done && |device| > MAXBLOCKCOUNT ==> disk[MAP_LOCATION..] == device[MAP_LOCATION..]
  {
    hide ToBytes, NodeWords, BitBlocks;
    disk := device[0 := SuperBlock(|device|)][ROOT := NodeBlock(ROOTNODE)];
    ghost var d := disk;
    var bitbuf;
    res, bitbuf := MarkInitial(|device|);
    MapSize(|device|);
    if res != Done {
      return;
    }
    disk := WriteMap(disk, bitbuf[..], BitBlocks(|device|));
    assert disk[0] == d[0] && disk[ROOT] == d[ROOT];
    if |device| <= MAXBLOCKCOUNT {
      forall b: nat | b < BitmapSize(|disk|) ensures MapBit(disk, b) == Initial(|disk|, b) {
        BitInBlock(bitbuf[..], b);
      }
    } else {
      assert disk == d;
    }
  }
}
