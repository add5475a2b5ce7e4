/** The blocks of an SFS volume that belong to no file: the superblock and the free-block bitmap
    (kern/include/kern/sfs.h). */
module SfsMeta {
  import opened Words
  import opened SfsState
  import B = Bitmap

  const MAGIC: u32 := 0xabadf001

  /** Bit b of the bitmap as it lies in the map blocks of a device. */
  predicate MapBit(disk: seq<Block>, b: nat)
    requires MAP_LOCATION + b / BLOCKBITS < |disk|
  {
    B.BitAt(disk[MAP_LOCATION + b / BLOCKBITS], b % BLOCKBITS)
  }

  /** The map blocks hold these bits. */
  ghost predicate MapWritten(disk: seq<Block>, marks: seq<bool>) {
    forall b: nat :: b < |marks| ==> MAP_LOCATION + b / BLOCKBITS < |disk| && MapBit(disk, b) == marks[b]
  }

  /** The superblock is in place, and while the freemap is clean the map blocks agree with it. */
  ghost predicate MetaOk(disk: seq<Block>, marks: seq<bool>, dirty: bool) {
    && MAP_LOCATION + BitBlocks(|disk|) <= |disk| <= MAXVOLUME && |marks| == BitmapSize(|disk|)
    && ToWords(disk[0])[0] == MAGIC && ToWords(disk[0])[1] == |disk|
    && (!dirty ==> MapWritten(disk, marks))
  }

  /** Writing any other block keeps both. */
  lemma MetaKept(disk: seq<Block>, p: nat, x: Block, marks: seq<bool>, dirty: bool)
    requires MetaOk(disk, marks, dirty) && p < |disk| && !Reserved(|disk|, p)
    ensures MetaOk(disk[p := x], marks, dirty)
  {
    hide ToWords;
    var t := disk[p := x];
    if !dirty {
      forall b: nat | b < |marks| ensures MAP_LOCATION + b / BLOCKBITS < |t| && MapBit(t, b) == marks[b] {
        assert MAP_LOCATION + b / BLOCKBITS < |disk| && MapBit(disk, b) == marks[b];
        MapBlock(|disk|, b);
      }
    }
  }

  lemma MapBlock(n: nat, b: nat)
    requires b < BitmapSize(n)
    ensures Reserved(n, MAP_LOCATION + b / BLOCKBITS)
  {
  }

  /** A changed bitmap is not on disk yet. */
  lemma MetaDirty(disk: seq<Block>, marks: seq<bool>, marks': seq<bool>, dirty: bool)
    requires MetaOk(disk, marks, dirty) && |marks'| == |marks|
    ensures MetaOk(disk, marks', true)
  {
  }
}
