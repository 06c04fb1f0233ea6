/** The records and constants of include/lab4_fs_types.h, at the level the operations read and write them. */
module Layout {

  datatype Option<+T> = None | Some(value: T)

  const SECTOR_SIZE: nat := 512
  const BLK_SIZE_SHIFT: nat := 3
  const CLUSTER_SIZE: nat := 4096
  const ENTRY_SIZE: nat := 128      // of a directory entry and of an inode
  const SLOTS: nat := 32            // directory entries in a cluster
  const INODES: nat := 32           // inodes in the one-cluster inode table
  const FNAME_SIZE: nat := 116
  const U32: nat := 0x1_0000_0000

  const SIGNATURE: nat := 0x3442414C
  const NUM_RESV_INO: nat := 3
  const ROOT_INO: nat := 2
  const DAREA_OFFSET: nat := 4      // clusters before the data area
  const MAX_FILES_PER_DIR: nat := 0x7FFFFFFF
  const START_OPEN_FILE: nat := 3
  const MAX_OPEN_FILE: nat := 16

  datatype Kind = Unused | File | Directory

  /** struct lab4_inode; `block` is i_blocks[0], a byte address on the device. */
  datatype Inode = Inode(ino: nat, kind: Kind, size: nat, version: nat, links: nat, ptr: nat, block: nat)

  const ZERO_INODE := Inode(0, Unused, 0, 0, 0, 0, 0)

  datatype Flag = Empty | Used | Deleted

  /** struct lab4_dir_entry. */
  datatype Slot = Slot(ino: nat, flag: Flag, version: nat, name: string)

  const EMPTY_SLOT := Slot(0, Empty, 0, "")

  /** The contents of a data cluster: a table of directory entries or plain bytes. */
  datatype Cluster = Entries(slots: seq<Slot>) | Bytes(data: seq<bv8>)

  function Zeros(n: nat): (z: seq<bv8>)
    ensures |z| == n && forall i :: 0 <= i < n ==> z[i] == 0
  {
    seq(n, _ => 0)
  }

  const ZERO_CLUSTER := Bytes(Zeros(CLUSTER_SIZE))

  /** The two dot entries do_mkdir and the formatter write into a new directory cluster. */
  function DotSlots(self: nat, parent: nat): (s: seq<Slot>)
    ensures |s| == SLOTS
  {
    [Slot(self, Used, 0, "."), Slot(parent, Used, 0, "..")] + seq(SLOTS - 2, _ => EMPTY_SLOT)
  }

  /** struct lab4_super_block: geometry, counters and allocation hints. */
  datatype Super = Super(
    signature: nat, sectorSize: nat, sizeShift: nat, sectors: nat, rootIno: nat,
    ibitmapSize: nat, dareaStart: nat, dareaSize: nat,
    freeInodes: int, freeBlocks: int, lastIno: nat, lastBlk: nat)

  /** struct lab4_sb_info: what a mount derives from the superblock, starts and sizes in bytes. */
  datatype SbInfo = SbInfo(
    clusterSize: nat, rootIno: nat, ibitmapSize: nat, dareaStart: nat, dareaSize: nat,
    lastIno: nat, lastBlk: nat)

  /** lab4_fill_super. */
  function FillSuper(sb: Super): SbInfo {
    var cluster := sb.sectorSize * Pow2(sb.sizeShift);
    SbInfo(cluster, sb.rootIno, sb.ibitmapSize * cluster, sb.dareaStart * cluster, sb.dareaSize * cluster,
           sb.lastIno, sb.lastBlk)
  }

  function Pow2(n: nat): nat {
    if n == 0 then 1 else 2 * Pow2(n - 1)
  }

  /** struct lab4_file_table. */
  datatype OpenFile = OpenFile(used: bool, ino: nat, size: nat, rwoffset: nat, flags: nat)

  const CLOSED := OpenFile(false, 0, 0, 0, 0)

  datatype Status = Success | Error | NoEntry | Exists | NotEmpty | NameTooLong
}
