/** What create_file leaves on disk: the free-block list, the free-inode list
    and the root directory. */
module InitialImage {
  import opened Types
  import opened BlockCodec
  import opened Layout

  /** The addresses held by the list nodes first .. last-1, in block order. */
  function ListEntries(disk: seq<Bytes>, first: nat, last: nat): seq<U16>
    requires first <= last <= |disk|
    requires forall b :: first <= b < last ==> |disk[b]| >= 2
    decreases last - first
  {
    if first == last then [] else NodeEntries(disk[first]) + ListEntries(disk, first + 1, last)
  }

  /** Nodes first .. last-1 where node b lists the numbers from
      Offset(lo, b - first, cap) = lo + (b - first) * cap, at most cap of them
      and all below stop. */
  predicate ConsecutiveNodes(disk: seq<Bytes>, first: nat, last: nat, lo: int, cap: nat, stop: int)
    requires first <= last <= |disk|
    requires forall b :: first <= b < last ==> |disk[b]| >= 2
  {
    forall b | first <= b < last ::
      NodeEntries(disk[b]) == Range(Min(Offset(lo, b - first, cap), stop), Min(Offset(lo, b - first, cap) + cap, stop))
  }

  lemma SameBlock(x: Bytes, y: Bytes, z: Bytes)
    requires x == y && y == z
    ensures x == z
  {
  }

  lemma CreateFileAt(sb: Superblock, b: nat)
    requires 1 <= sb.blockSize <= 512 && b < TotalBlocks(sb.blockSize)
    ensures CreateFile(sb)[b] == InitialBlock(sb, b)
  {
    BlocksFromAt(sb, 0, TotalBlocks(sb.blockSize), b);
  }

  lemma InitialBlockInInodeList(sb: Superblock, b: nat)
    requires 1 <= sb.blockSize <= 512 && sb.inodeHead <= b <= sb.inodeTail
    ensures InitialBlock(sb, b) == InodeNode(Cap(sb), sb.freeInodeCount, sb.inodeHead, sb.rootDirAddress, b)
  {
  }

  lemma InitialBlockInFreeList(sb: Superblock, b: nat)
    requires 1 <= sb.blockSize <= 512
    requires sb.inodeHead <= sb.inodeTail < sb.rootDirAddress < sb.fbTail <= b <= sb.fbHead
    ensures InitialBlock(sb, b) == FreeBlockNode(Cap(sb), sb.rootDirAddress, sb.fbTail, sb.fbHead, b)
  {
  }

  /** Block b of the initial disk, from inode_head to inode_tail, is
      free-inode node b - inode_head. */
  lemma InitialInodeNodeIs(sb: Superblock, b: nat)
    requires 1 <= sb.blockSize <= 512
    requires sb.inodeHead <= b <= sb.inodeTail < TotalBlocks(sb.blockSize)
    ensures CreateFile(sb)[b] == InodeNode(Cap(sb), sb.freeInodeCount, sb.inodeHead, sb.rootDirAddress, b)
  {
    CreateFileAt(sb, b);
    InitialBlockInInodeList(sb, b);
    SameBlock(CreateFile(sb)[b], InitialBlock(sb, b),
      InodeNode(Cap(sb), sb.freeInodeCount, sb.inodeHead, sb.rootDirAddress, b));
  }

  /** Block b of the initial disk, from fb_tail to fb_head, is free-block node
      b - fb_tail. */
  lemma InitialFreeNodeIs(sb: Superblock, b: nat)
    requires 1 <= sb.blockSize <= 512
    requires sb.inodeHead <= sb.inodeTail < sb.rootDirAddress < sb.fbTail
    requires sb.fbTail <= b <= sb.fbHead < TotalBlocks(sb.blockSize)
    ensures CreateFile(sb)[b] == FreeBlockNode(Cap(sb), sb.rootDirAddress, sb.fbTail, sb.fbHead, b)
  {
    CreateFileAt(sb, b);
    InitialBlockInFreeList(sb, b);
    SameBlock(CreateFile(sb)[b], InitialBlock(sb, b),
      FreeBlockNode(Cap(sb), sb.rootDirAddress, sb.fbTail, sb.fbHead, b));
  }

  lemma InitialRootIs(sb: Superblock)
    requires 1 <= sb.blockSize <= 512
    requires sb.inodeHead <= sb.inodeTail < sb.rootDirAddress < TotalBlocks(sb.blockSize)
    ensures CreateFile(sb)[sb.rootDirAddress] == RootBlock(sb)
  {
    CreateFileAt(sb, sb.rootDirAddress);
  }

  /** What free-inode block b on the initial disk holds; the superblock
      fields it depends on are passed as plain numbers. */
  lemma InodeNodeOnDisk(sb: Superblock, b: nat, lo: int, cap: nat, fic: U16, head: U16, root: U16)
    requires 1 <= sb.blockSize <= 512 && sb.inodeHead <= b <= sb.inodeTail < TotalBlocks(sb.blockSize)
    requires cap == Cap(sb) && fic == sb.freeInodeCount && head == sb.inodeHead && root == sb.rootDirAddress
    requires lo == Offset(1, b - head, cap)
    ensures NodeEntries(CreateFile(sb)[b]) == Range(Min(lo, fic + 1), Min(lo + cap, fic + 1))
    ensures CellValue(CreateFile(sb)[b], cap) == if b + 1 < root - head then ToU16(b + 1) else 0
  {
    InitialInodeNodeIs(sb, b);
    InodeNodeFacts(cap, fic, head, root, b, lo);
  }

  /** What free-block node b on the initial disk holds. */
  lemma FreeNodeOnDisk(sb: Superblock, b: nat, lo: int, cap: nat, root: U16, tail: U16, head: U16)
    requires 1 <= sb.blockSize <= 512
    requires sb.inodeHead <= sb.inodeTail < sb.rootDirAddress < sb.fbTail
    requires sb.fbTail <= b <= sb.fbHead < TotalBlocks(sb.blockSize)
    requires cap == Cap(sb) && root == sb.rootDirAddress && tail == sb.fbTail && head == sb.fbHead
    requires lo == Offset(root + 1, b - tail, cap)
    ensures NodeEntries(CreateFile(sb)[b]) == Range(Min(lo, tail), Min(lo + cap, tail))
    ensures CellValue(CreateFile(sb)[b], cap) == if b != head then ToU16(b + 1) else 0
  {
    InitialFreeNodeIs(sb, b);
    FreeBlockNodeFacts(cap, root, tail, head, b, lo);
  }

  /** Nodes b .. last-1 of a run of consecutive nodes list the numbers from
      node b's first one up to stop, provided the run covers stop. */
  lemma {:induction false} ListOfConsecutiveNodes(
    disk: seq<Bytes>, first: nat, last: nat, b: nat, lo: int, cap: nat, stop: int)
    requires first <= b <= last <= |disk| && cap >= 1
    requires forall i :: first <= i < last ==> |disk[i]| >= 2
    requires ConsecutiveNodes(disk, first, last, lo, cap, stop)
    requires Offset(lo, last - first, cap) >= stop
    ensures ListEntries(disk, b, last) == Range(Min(Offset(lo, b - first, cap), stop), stop)
    decreases last - b
  {
    var m := Offset(lo, b - first, cap);
    if b < last {
      assert Offset(lo, b + 1 - first, cap) == m + cap;
      ListOfConsecutiveNodes(disk, first, last, b + 1, lo, cap, stop);
      var x := NodeEntries(disk[b]);
      assert x == Range(Min(m, stop), Min(m + cap, stop));
      RangeGlue(x, ListEntries(disk, b + 1, last), m, cap, stop);
    } else {
      assert m >= stop;
    }
  }

  /** The numbers of one node followed by those of the nodes after it. */
  lemma RangeGlue(x: seq<U16>, y: seq<U16>, m: int, cap: nat, stop: int)
    requires x == Range(Min(m, stop), Min(m + cap, stop))
    requires y == Range(Min(m + cap, stop), stop)
    ensures x + y == Range(Min(m, stop), stop)
  {
    RangeSplit(Min(m, stop), Min(m + cap, stop), stop);
  }

  /** A run of consecutive nodes from lo that covers stop lists lo .. stop-1. */
  lemma ListOfNodes(disk: seq<Bytes>, first: nat, last: nat, lo: int, cap: nat, stop: int)
    requires first <= last <= |disk| && cap >= 1
    requires forall b :: first <= b < last ==> |disk[b]| >= 2
    requires ConsecutiveNodes(disk, first, last, lo, cap, stop)
    requires lo <= stop <= Offset(lo, last - first, cap)
    ensures ListEntries(disk, first, last) == Range(lo, stop)
  {
    ListOfConsecutiveNodes(disk, first, last, first, lo, cap, stop);
    assert Min(Offset(lo, first - first, cap), stop) == lo;
  }

  /** The initial free-block list: nodes fb_tail .. fb_head together list the
      blocks root + 1 .. fb_tail - 1 once each, in increasing order; every node
      but fb_head holds the next node's number in its last cell, and fb_head
      holds 0 there. */
  lemma InitialFreeBlockList(sb: Superblock)
    requires WellFormedLayout(sb)
    ensures sb.fbHead < |CreateFile(sb)|
    ensures ListEntries(CreateFile(sb), sb.fbTail, sb.fbHead + 1)
      == Range(sb.rootDirAddress + 1, sb.fbTail)
    ensures forall i | sb.fbTail <= i <= sb.fbHead ::
      CellValue(CreateFile(sb)[i], Cap(sb)) == if i == sb.fbHead then 0 else i + 1
  {
    OffsetIs(sb.rootDirAddress + 1, FbNodes(sb), Cap(sb));
    FreeBlockListCovers(sb, sb.rootDirAddress + 1, Cap(sb), sb.fbTail);
  }

  lemma FreeBlockListCovers(sb: Superblock, lo: int, cap: nat, stop: int)
    requires 1 <= sb.blockSize <= 512 && cap == Cap(sb) && lo == sb.rootDirAddress + 1 && stop == sb.fbTail
    requires sb.inodeHead <= sb.inodeTail < sb.rootDirAddress < sb.fbTail
    requires sb.fbTail <= sb.fbHead < TotalBlocks(sb.blockSize)
    requires Offset(lo, sb.fbHead + 1 - sb.fbTail, cap) >= stop
    ensures ListEntries(CreateFile(sb), sb.fbTail, sb.fbHead + 1) == Range(lo, stop)
    ensures forall i | sb.fbTail <= i <= sb.fbHead ::
      CellValue(CreateFile(sb)[i], cap) == if i == sb.fbHead then 0 else i + 1
  {
    FreeBlockEntriesOnDisk(sb, lo, cap, stop);
    FreeBlockLinksOnDisk(sb, cap);
    ListOfNodes(CreateFile(sb), sb.fbTail, sb.fbHead + 1, lo, cap, stop);
  }

  lemma FreeBlockEntriesOnDisk(sb: Superblock, lo: int, cap: nat, stop: int)
    requires 1 <= sb.blockSize <= 512 && cap == Cap(sb) && lo == sb.rootDirAddress + 1 && stop == sb.fbTail
    requires sb.inodeHead <= sb.inodeTail < sb.rootDirAddress < sb.fbTail
    requires sb.fbTail <= sb.fbHead < TotalBlocks(sb.blockSize)
    ensures ConsecutiveNodes(CreateFile(sb), sb.fbTail, sb.fbHead + 1, lo, cap, stop)
  {
    forall b | sb.fbTail <= b < sb.fbHead + 1
      ensures NodeEntries(CreateFile(sb)[b])
        == Range(Min(Offset(lo, b - sb.fbTail, cap), stop), Min(Offset(lo, b - sb.fbTail, cap) + cap, stop))
    {
      FreeNodeOnDisk(sb, b, Offset(lo, b - sb.fbTail, cap), cap, sb.rootDirAddress, sb.fbTail, sb.fbHead);
    }
  }

  /** Each free-block node but fb_head links to the next block. */
  lemma FreeBlockLinksOnDisk(sb: Superblock, cap: nat)
    requires 1 <= sb.blockSize <= 512 && cap == Cap(sb)
    requires sb.inodeHead <= sb.inodeTail < sb.rootDirAddress < sb.fbTail
    requires sb.fbTail <= sb.fbHead < TotalBlocks(sb.blockSize)
    ensures forall i | sb.fbTail <= i <= sb.fbHead ::
      CellValue(CreateFile(sb)[i], cap) == if i == sb.fbHead then 0 else i + 1
  {
    forall i | sb.fbTail <= i <= sb.fbHead
      ensures CellValue(CreateFile(sb)[i], cap) == if i == sb.fbHead then 0 else i + 1
    {
      FreeNodeOnDisk(sb, i, Offset(sb.rootDirAddress + 1, i - sb.fbTail, cap), cap, sb.rootDirAddress, sb.fbTail, sb.fbHead);
    }
  }

  /** The initial free-inode list: its nodes together list inode numbers
      1 .. inode_count - 1 in increasing order. No node's last cell is set,
      because the test on file_system.cpp:120 compares an absolute block number
      with the number of list blocks and never succeeds. */
  lemma InitialFreeInodeList(sb: Superblock)
    requires WellFormedLayout(sb)
    ensures sb.inodeTail < |CreateFile(sb)|
    ensures ListEntries(CreateFile(sb), sb.inodeHead, sb.inodeTail + 1) == Range(1, sb.inodeCount)
    ensures forall b | sb.inodeHead <= b <= sb.inodeTail :: CellValue(CreateFile(sb)[b], Cap(sb)) == 0
  {
    OffsetIs(1, InodeNodes(sb), Cap(sb));
    FreeInodeListCovers(sb, Cap(sb), sb.freeInodeCount + 1);
  }

  lemma FreeInodeListCovers(sb: Superblock, cap: nat, stop: int)
    requires 1 <= sb.blockSize <= 512 && cap == Cap(sb) && stop == sb.freeInodeCount + 1
    requires InodeNodes(sb) <= sb.inodeHead <= sb.inodeTail
    requires sb.rootDirAddress == sb.inodeTail + 1 < TotalBlocks(sb.blockSize)
    requires Offset(1, sb.inodeTail + 1 - sb.inodeHead, cap) >= stop
    ensures ListEntries(CreateFile(sb), sb.inodeHead, sb.inodeTail + 1) == Range(1, stop)
    ensures forall b | sb.inodeHead <= b <= sb.inodeTail :: CellValue(CreateFile(sb)[b], cap) == 0
  {
    InodeEntriesOnDisk(sb, cap, stop);
    InodeLinksOnDisk(sb, cap);
    ListOfNodes(CreateFile(sb), sb.inodeHead, sb.inodeTail + 1, 1, cap, stop);
  }

  lemma InodeEntriesOnDisk(sb: Superblock, cap: nat, stop: int)
    requires 1 <= sb.blockSize <= 512 && cap == Cap(sb) && stop == sb.freeInodeCount + 1
    requires sb.inodeHead <= sb.inodeTail < TotalBlocks(sb.blockSize)
    ensures ConsecutiveNodes(CreateFile(sb), sb.inodeHead, sb.inodeTail + 1, 1, cap, stop)
  {
    forall b | sb.inodeHead <= b < sb.inodeTail + 1
      ensures NodeEntries(CreateFile(sb)[b])
        == Range(Min(Offset(1, b - sb.inodeHead, cap), stop), Min(Offset(1, b - sb.inodeHead, cap) + cap, stop))
    {
      InodeNodeOnDisk(sb, b, Offset(1, b - sb.inodeHead, cap), cap, sb.freeInodeCount, sb.inodeHead, sb.rootDirAddress);
    }
  }

  /** The free-inode list blocks number fewer than inode_head, so no block
      passes the linking test and every last cell stays 0. */
  lemma InodeLinksOnDisk(sb: Superblock, cap: nat)
    requires 1 <= sb.blockSize <= 512 && cap == Cap(sb)
    requires InodeNodes(sb) <= sb.inodeHead <= sb.inodeTail
    requires sb.rootDirAddress == sb.inodeTail + 1 < TotalBlocks(sb.blockSize)
    ensures forall b | sb.inodeHead <= b <= sb.inodeTail :: CellValue(CreateFile(sb)[b], cap) == 0
  {
    forall b | sb.inodeHead <= b <= sb.inodeTail
      ensures CellValue(CreateFile(sb)[b], cap) == 0
    {
      InodeNodeOnDisk(sb, b, Offset(1, b - sb.inodeHead, cap), cap, sb.freeInodeCount, sb.inodeHead, sb.rootDirAddress);
    }
  }

  /** The root directory block holds "." and ".." for inode 0. */
  lemma InitialRootDirectory(sb: Superblock)
    requires WellFormedLayout(sb)
    ensures var r := CreateFile(sb)[sb.rootDirAddress];
      && EntryInodeNo(r, 16, 0) == Ok(0) && EntryName(r, 0) == [Dot]
      && EntryInodeNo(r, 16, 1) == Ok(0) && EntryName(r, 1) == [Dot, Dot]
  {
    InitialRootIs(sb);
    var r := RootBlock(sb);
    var e1 := CreateDirEntry(0, [Dot]).value;
    var e2 := CreateDirEntry(0, [Dot, Dot]).value;
    var z := Zeros(BlockBytes(sb) - 16);
    DirEntryRoundTrip(0, [Dot], e2 + z);
    DirEntryRoundTrip(0, [Dot, Dot], z);
    assert r == e1 + (e2 + z);
    assert r[8..] == e2 + z;
    assert r[8..16] == (e2 + z)[0..8];
  }
}
