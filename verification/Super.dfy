/** The disk layout: log, block bitmap, inode bitmap, inodes, data. */
module Super {
  import opened Bytes

  datatype FsSuper = FsSuper(size: nat, nLog: nat, nBlockBitmap: nat, nInodeBitmap: nat, nInodeBlk: nat)
  {
    predicate Valid() { 0 < nLog && size < U64 }

    function MaxBnum(): nat { size }
    function BitmapBlockStart(): nat { nLog }
    function BitmapInodeStart(): nat { BitmapBlockStart() + nBlockBitmap }
    function InodeStart(): nat { BitmapInodeStart() + nInodeBitmap }
    function DataStart(): nat { InodeStart() + nInodeBlk }

    predicate Data(b: nat) { DataStart() <= b < MaxBnum() }

    /** What AssertValidBlock demands of a block number. */
    predicate ValidBlock(b: nat) { b == 0 || Data(b) }
  }
}
