/** Fixed-width integers, the records of file_system.h and the error kinds
    that the engine throws. */
module Types {

  /** An unsigned byte, as stored in a block (C++ `uint8_t`). */
  type Byte = x: int | 0 <= x < 0x100
  type U8 = x: int | 0 <= x < 0x100
  type U16 = x: int | 0 <= x < 0x1_0000
  type U32 = x: int | 0 <= x < 0x1_0000_0000
  type Bytes = seq<Byte>

  // Constants of file_system.h
  const InodeSize: nat := 32
  const DirectCount: nat := 5
  const WriteBufferSize: nat := 64
  const MaxFileSize: nat := 0x10_0000  // 1 << 20
  const EmptyType: U8 := 0
  const DirType: U8 := 1
  const FileType: U8 := 2
  const SymDir: U8 := 3
  const SymFile: U8 := 4
  const DirNameSize: nat := 6
  const DirEntrySize: nat := 8
  const OneByte: nat := 256
  /** The simulated disk is 1024 KiB whatever the block size. */
  const DiskKiB: nat := 1024

  // Characters the path code looks for
  const Slash: Byte := 47
  const Space: Byte := 32
  const Dot: Byte := 46

  /** Wrap-around of C++ unsigned arithmetic. */
  function ToU16(x: int): (r: U16)
    ensures 0 <= x < 0x1_0000 ==> r == x
  {
    x % 0x1_0000
  }

  function ToU32(x: int): (r: U32)
    ensures 0 <= x < 0x1_0000_0000 ==> r == x
  {
    x % 0x1_0000_0000
  }

  /** The creation time fields of an inode; set_inode_time reads the wall
      clock, so the model takes the clock reading as a value. */
  datatype Time = Time(year: U16, month: U8, day: U8, hour: U8, min: U8, sec: U8)

  /** A clock reading: the year is 1900 + tm_year, never zero. */
  type Clock = t: Time | t.year != 0 witness Time(1970, 0, 1, 0, 0, 0)

  const ZeroTime: Time := Time(0, 0, 0, 0, 0, 0)

  type DirectPointers = s: seq<U16> | |s| == DirectCount witness [0, 0, 0, 0, 0]

  const NoDirect: DirectPointers := [0, 0, 0, 0, 0]

  /** struct inode: 5 direct block addresses and single, double and triple
      indirect addresses, all 16 bits wide. */
  datatype Inode = Inode(
    time: Time,
    size: U32,
    itype: U8,
    linkCount: U16,
    ba: DirectPointers,
    si: U16,
    di: U16,
    ti: U16)

  /** The value-initialised inode that `inodes.resize` creates: every field 0. */
  const ZeroInode: Inode := Inode(ZeroTime, 0, 0, 0, NoDirect, 0, 0, 0)

  /** The inode invariant of an empty slot: type empty, size 0, no links and
      no block pointers. */
  predicate IsEmptyInode(i: Inode) {
    && i.itype == EmptyType
    && i.size == 0
    && i.linkCount == 0
    && i.ba == NoDirect
    && i.si == 0 && i.di == 0 && i.ti == 0
  }

  predicate IsDirType(t: U8) { t == DirType || t == SymDir }
  predicate IsFileType(t: U8) { t == FileType || t == SymFile }

  lemma ZeroInodeIsEmpty()
    ensures IsEmptyInode(ZeroInode)
    ensures ZeroInode.time.year == 0
  {
  }

  /** The superblock. file_system.h lists eight 16-bit fields; the engine also
      keeps the first and last block of the free-inode list (inode_head and
      inode_tail), which the model adds as two more 16-bit fields. */
  datatype Superblock = Superblock(
    blockSize: U16,
    rootDirAddress: U16,
    inodePos: U16,
    inodeCount: U16,
    freeInodeCount: U16,
    fbCount: U16,
    fbHead: U16,
    fbTail: U16,
    inodeHead: U16,
    inodeTail: U16)

  /** block_size_byte */
  function BlockBytes(sb: Superblock): nat { 1024 * sb.blockSize }
  /** node_cap: the addresses a free-list node holds before its next cell. */
  function NodeCap(sb: Superblock): int { BlockBytes(sb) / 2 - 1 }
  /** block_cap: the address cells of a whole block. */
  function BlockCap(sb: Superblock): nat { BlockBytes(sb) / 2 }

  /** The exceptions the engine throws, by C++ type; Undefined marks inputs on
      which the C++ code has undefined behaviour, NotModelled the parts of the
      engine this model does not cover, IoFailure a read past the image. */
  datatype Error =
    | InvalidArgument
    | LengthError
    | RangeError
    | LogicError
    | RuntimeError
    | OverflowError
    | IoFailure
    | Undefined
    | NotModelled

  datatype Result<+T> = Ok(value: T) | Err(error: Error) {
    predicate IsFailure() { Err? }
    function PropagateFailure<U>(): Result<U>
      requires Err?
    {
      Err(error)
    }
    function Extract(): T
      requires Ok?
    {
      value
    }
  }

  datatype Option<+T> = None | Some(value: T)

  /** The in-memory state of a file_system object: the superblock, the inode
      table, and the backing file as a sequence of blocks. */
  datatype Image = Image(sb: Superblock, inodes: seq<Inode>, disk: seq<Bytes>)

  /** What every file_system object satisfies: the inode vector holds
      inode_count records, the inode table starts after the superblock block,
      and every block of the backing file is block_size_byte long. */
  predicate Sized(img: Image) {
    && img.sb.blockSize >= 1
    && img.sb.inodeHead >= 1
    && |img.inodes| == img.sb.inodeCount
    && forall b | 0 <= b < |img.disk| :: |img.disk[b]| == BlockBytes(img.sb)
  }

  /** The image after a state-changing operation that succeeded, with the
      value it returned. */
  datatype Done<+T> = Done(img: Image, value: T)
}
