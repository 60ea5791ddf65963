# unix-like-filesystem engine, modelled in Dafny

This project models the engine of a small Unix-like file system. The
engine keeps the whole file system in one backing file. That file holds a
superblock, an inode table, a linked free-inode list, the root-directory
block, the free data blocks and a linked free-block list.

The model replaces the backing file by a value `Image(sb, inodes, disk)`:
- `sb` is the superblock;
- `inodes` is the inode vector;
- `disk` is the sequence of blocks, each a sequence of bytes.

Every engine routine becomes a function on that value. A routine either
returns the new image or an `Error` named after the C++ exception it
throws. Three error kinds have no C++ exception behind them:
- `Undefined` marks inputs on which the C++ code has undefined behaviour,
  such as an inode index past the vector;
- `NotModelled` marks a branch this model does not cover;
- `IoFailure` marks a read past the end of the backing file.

The wall clock that stamps inodes is a parameter `now`.

Modules, in dependency order:
- `Types`: the fixed-width integers, the `inode` and `superblock` records,
  the constants of `file_system.h`, `Result` and `Error`.
- `BlockCodec`: the byte-level codecs of `data_block`:
  - big-endian address cells, whose signed `char` high byte sign-extends;
  - free-list node fill counts;
  - 8-byte directory entries.
- `DataBlock`: `data_block` as a class over an `array`, with the methods
  that change it in place.
- `Layout`: the region boundaries the two-argument constructor computes,
  with its node-reservation loop as a method. Also the initial disk that
  `create_file` writes.
- `InitialImage`: what the initial disk holds. The free-block list covers
  the data blocks, the free-inode list covers every inode but the root, and
  the root block holds "." and "..".
- `BlockAlloc`, `InodeAlloc`: the two free-list allocators, plus the inode
  routines `init_inode`, `empty_inode_blocks` and `clear_inode`.
- `Walks`: `load_inode_blocks` and its tree walk,
  `load_occupied_inode_blocks` and `copy_system_file_to_buf`.
- `Directory`: path splitting, path resolution, `new_file_args` and
  `check_file_to_delete`.
- `FileWrite`: `write` on the direct-pointer tier.
- `Ops`: `mkdir`, `remove_dir_entry`, `rmdir`, `del` and `hard_link`.
- `Fsck`: the free-list walks and counting maps of `fsck`.
- `Engine`: class `FileSystem`, whose fields are the superblock, the inode
  vector and the disk. Its methods perform the allocators and the
  directory operations step by step, as the C++ object does. Each method
  is proved to reach the image that the value model computes, and to
  return the error the value model returns.

Some routines are not part of this model: `args_reader.cpp`,
`file_system_oper.cpp` and `make_file_system.cpp`.

## Model

| member | source | states |
|---|---|---|
| Types.ToU16 | file_system.cpp:30-31 | a value below 2^16 converts to a 16-bit field unchanged |
| Types.ZeroInodeIsEmpty | file_system.h:57-78 | an all-zero inode has the empty type, size 0, no links and no block pointers, and is undated |
| BlockCodec.Zeros | file_system.cpp:104-107 | a block of n bytes, each of them zero |
| BlockCodec.WordAt | file_system.cpp:1387-1395 | the value read at a cell equals the unsigned big-endian word modulo 2^16; it equals that word exactly when the high byte is below 0x80 |
| BlockCodec.WithWord | file_system.cpp:1448-1455 | after storing a at byte p, the word at p is a modulo 2^16 and every other byte is unchanged |
| BlockCodec.GetAddress | file_system.cpp:1387-1395 | get_address fails with range_error exactly when the cell lies past the block; otherwise it returns the cell's value modulo 2^16 |
| BlockCodec.WithCell | file_system.cpp:1448-1455 | after setting cell k, cell k holds v and every other cell keeps its value |
| BlockCodec.WordRoundTrip | file_system.cpp:1387-1395 | storing a word and reading it back gives a modulo 2^16, and exactly a when a < 0x8000 |
| BlockCodec.SetThenGetAddress | file_system.cpp:1387-1395 | set_address(k, a) then get_address(k) succeeds and returns a when a < 0x8000, otherwise a value equal to a modulo 2^16 |
| BlockCodec.Push | file_system.cpp:1425-1433 | push_address grows the size by 2 even when it throws; it succeeds exactly when the new size fits, then writes a at the old size and leaves the other bytes alone |
| BlockCodec.Pop | file_system.cpp:1435-1446 | pop_address throws invalid_argument when the size is below 2; otherwise it returns the last word (sign-extended), shrinks the size by 2 and zeroes the word |
| BlockCodec.PushThenPop | file_system.cpp:1425-1446 | push then pop returns the pushed address (exactly, below 0x8000), restores the size and leaves the cell zero; over a zero cell it restores the whole block |
| BlockCodec.HighAddressSignExtends | file_system.cpp:1435-1446 | pushing 0x8000 and popping it returns 0xFF8000: the signed high byte sign-extends |
| BlockCodec.FirstZeroFrom | file_system.cpp:1401-1410 | the scan stops at the first zero cell at or after i, or at the limit; every cell it passes is non-zero |
| BlockCodec.FbSize | file_system.cpp:1401-1410 | get_fb_size is the number of leading non-zero cells among the node_cap cells before the next-pointer cell |
| BlockCodec.NodeEntries | file_system.cpp:1401-1410 | the entries of a free-list node are its leading non-zero cells, get_fb_size of them |
| BlockCodec.LeadingCellsNonZero | file_system.cpp:1401-1410 | every cell below get_fb_size holds a non-zero value |
| BlockCodec.FbSizeIs | file_system.cpp:1401-1410 | a count m of leading non-zero cells that ends at a zero cell or at node_cap is get_fb_size |
| BlockCodec.CellZeroIsZeroValue | file_system.cpp:1401-1410 | a cell counts as empty exactly when its value is 0 |
| BlockCodec.PushEntry | file_system.cpp:1425-1433 | writing a non-zero address into the first free cell of a tidy node appends it to the node's entries and keeps the node tidy |
| BlockCodec.PopEntry | file_system.cpp:1435-1446 | zeroing the last filled cell removes the last entry and keeps the others in order |
| BlockCodec.CStr | file_system.cpp:1412-1417 | the C string of a byte sequence is its longest prefix without a NUL; it ends at a NUL or at the end |
| BlockCodec.CStrOfTerminated | file_system.cpp:1412-1417 | a NUL-free name followed by nothing or by a NUL reads back as the name itself |
| BlockCodec.DirEntryCount | file_system.cpp:1419-1423 | get_dir_entry_count fails with logic_error exactly when the size is not a multiple of 8; otherwise it returns size / 8 |
| BlockCodec.EntryInodeNo | file_system.cpp:1377-1385 | get_entry_inode_no(i) fails with range_error exactly when entry i lies past the used size; otherwise it returns the big-endian word at 8i |
| BlockCodec.EntryNameAsWritten | file_system.cpp:1475-1478 | the 8 bytes from the name on, cut at the first NUL: undefined when they reach past the array, at most 8 NUL-free bytes otherwise, and equal to the 6-byte name whenever the name field or the byte after it holds a NUL |
| BlockCodec.EntryName | file_system.cpp:1475-1478 | the corrected name reader: an entry's 6 name bytes up to the first NUL, at most 6 bytes and no NUL |
| BlockCodec.CreateDirEntry | file_system.cpp:171-186 | create_dir_entry fails with invalid_argument exactly when the name is longer than 6 or contains '/' or ' '; otherwise it gives 8 bytes: the inode number big-endian, the name, then zeros |
| BlockCodec.DirEntryRoundTrip | file_system.cpp:171-186 | whatever follows it, a created entry reads back its inode number and name |
| BlockCodec.DirEntryRoundTripAsWritten | file_system.cpp:1475-1478 | with two bytes after the entry, the name reader as written gives back the name when it is shorter than 6 or the next byte is zero |
| BlockCodec.SixByteNameSpillsAsWritten | file_system.cpp:1475-1478 | for a 6-byte name followed by an entry for inode 256, the reader as written returns seven bytes; the corrected reader returns the name |
| DataBlock.Block.Load | file_system.cpp:1353-1361 | the block gets a fresh array holding a copy of the bytes, with the given size and block number |
| DataBlock.Block.Zeroed | file_system.cpp:1465-1473 | the block gets a fresh array of blk_size zero bytes, size 0 and block number 0 |
| DataBlock.Block.PushAddress | file_system.cpp:1425-1433 | the array and size become those of Push; ok reports whether it fitted |
| DataBlock.Block.PopAddress | file_system.cpp:1435-1446 | the array and size become those of Pop and the popped address is returned; on an error nothing changes |
| DataBlock.Block.SetAddress | file_system.cpp:1448-1455 | it succeeds exactly when the cell fits in the array and then sets that one cell; on range_error the array is unchanged |
| DataBlock.Block.ClearBlock | file_system.cpp:1457-1463 | the array becomes all zeros and the size 0 |
| DataBlock.Block.GetAddress | file_system.cpp:1387-1395 | the result is the codec's get_address of the array |
| DataBlock.Block.GetFbSize | file_system.cpp:1401-1410 | the loop's count is the number of leading non-zero cells |
| DataBlock.Block.GetEntryInodeNo | file_system.cpp:1377-1385 | the result is the codec's get_entry_inode_no over the used size |
| DataBlock.Block.GetEntryName | file_system.cpp:1412-1417 | it fails with invalid_argument exactly when the entry lies past the used size; otherwise it returns the as-written read of the whole array, undefined at the last entry of a full array |
| DataBlock.Block.GetDirEntryCount | file_system.cpp:1419-1423 | the result is the codec's entry count of the used size |
| DataBlock.SetAddressAsWritten | file_system.cpp:1448-1455 | the guard as written refuses only index + 1 > cap, though the store reaches byte 2·index + 1 |
| DataBlock.SetAddressGuardAdmitsOverrun | file_system.cpp:1448-1455 | index cap/2 passes the guard as written, yet its two bytes lie past the block |
| Layout.TotalBlocks | file_system.cpp:47 | the disk has between 2 and 1024 blocks for block sizes 1 to 512 KiB |
| Layout.DiskBlocksBounds | file_system.cpp:47 | 1024 / block_size lies between 2 and 1024 |
| Layout.ReserveListNodes | file_system.cpp:49-60 | the loop that reserves free-block list nodes ends with fb_tail = total − ⌈(total − first free) / (node_cap + 1)⌉ |
| Layout.ReserveOutcome | file_system.cpp:59-64 | the constructor's final test fails exactly when fewer than two blocks follow the root; otherwise fb_tail lies past the first free block and before the end |
| Layout.NodeCountBounds | file_system.cpp:49-60 | ⌈m / (node_cap + 1)⌉ nodes, between 1 and m − 1, hold the m − nodes free blocks, at most node_cap each and more than node_cap·(nodes − 1) |
| Layout.LoopNodes | file_system.cpp:53-58 | after c reservations with j of node_cap cells used, the count of reserved nodes is ⌈m / (node_cap + 1)⌉ |
| Layout.InodeSpanCells | file_system.cpp:33-44 | the free-inode list spans ⌈(inode_count − 1) / node_cap⌉ blocks |
| Layout.InodeSpanBelowHead | file_system.cpp:33-44 | for two or more inodes, the free-inode span is smaller than inode_head |
| Layout.SpanFacts | file_system.cpp:33-44 | the free-inode span is 0 exactly for one inode; otherwise it is below inode_head and just large enough to list the free inodes at node_cap apiece |
| Layout.LayoutOfIs | file_system.cpp:27-71 | the constructor's superblock, field by field: length_error when the free-inode span is zero, invalid_argument when no free block fits |
| Layout.LayoutProperties | file_system.cpp:27-71 | construction fails with length_error exactly for one inode, and succeeds exactly when two or more blocks follow the root; a success yields a well-formed layout with the given block size, inode count and inode_head |
| Layout.LayoutWellFormed | file_system.cpp:33-64 | a superblock built from spans that fit has inode_pos 1 < inode_head ≤ inode_tail, the root right after, fb_count ≥ 1 free blocks, fb_head the last block, and every inode but the root free |
| Layout.ComputeLayout | file_system.cpp:27-71 | the constructor, run as a method with the reservation loop, returns the closed-form layout |
| Layout.NodeBlockCells | file_system.cpp:110-124 | a node filled by pushes holds exactly the given entries, followed by its next cell when it is linked |
| Layout.Encode16At | file_system.cpp:1425-1433 | value k of a node is stored big-endian at bytes 2k and 2k + 1: its high byte, then its low byte |
| Layout.Range | file_system.cpp:109-118 | the numbers lo, lo + 1, …, hi − 1 |
| Layout.ListNodeFacts | file_system.cpp:110-149 | a list node built for lo .. hi lists exactly those numbers and holds its successor (or 0) in cell node_cap |
| Layout.ListNodeFromFacts | file_system.cpp:110-149 | a node that starts at lo and is cut at stop lists the numbers of lo .. lo + cap below stop |
| Layout.InodeNodeFacts | file_system.cpp:110-124 | free-inode node b lists the next node_cap inode numbers up to free_inode_count; its next cell follows the test of line 120 |
| Layout.FreeBlockNodeFacts | file_system.cpp:136-149 | free-block node b lists the next node_cap data blocks below fb_tail; every node but fb_head links to the next block |
| Layout.BlocksFromAt | file_system.cpp:73-152 | block i of the written sequence is the block create_file writes at i |
| Layout.InitialBlockLengths | file_system.cpp:73-152 | every block create_file writes is block_size_byte long |
| Layout.BlocksFrom | file_system.cpp:73-152 | the blocks written from b up to total are total − b blocks, each block_size_byte long |
| Layout.CreateFile | file_system.cpp:73-152 | create_file writes total_blocks blocks of block_size_byte bytes each |
| Layout.InitialInodes | file_system.cpp:29-31 | the constructor's inode vector has inode_count inodes |
| Layout.Format | file_system.cpp:27-152 | a constructed image is sized and well formed, with the block size and inode count asked for |
| InitialImage.InitialBlockInInodeList | file_system.cpp:110-124 | each block from inode_head to inode_tail is a free-inode list node |
| InitialImage.InitialBlockInFreeList | file_system.cpp:136-149 | each block from fb_tail to fb_head is a free-block list node |
| InitialImage.InitialRootIs | file_system.cpp:125-128 | the root block is the root directory block |
| InitialImage.CreateFileAt | file_system.cpp:73-152 | block b of the initial disk is the block create_file writes at position b |
| InitialImage.InitialInodeNodeIs | file_system.cpp:110-124 | on disk, each block from inode_head to inode_tail is its free-inode node |
| InitialImage.InitialFreeNodeIs | file_system.cpp:136-149 | on disk, each block from fb_tail to fb_head is its free-block node |
| InitialImage.InodeNodeOnDisk | file_system.cpp:110-124 | free-inode node b on disk lists the next node_cap inode numbers up to free_inode_count, and its next cell follows the test of line 120 |
| InitialImage.FreeNodeOnDisk | file_system.cpp:136-149 | free-block node b on disk lists the next node_cap data blocks below fb_tail |
| InitialImage.ListOfConsecutiveNodes | file_system.cpp:110-149 | the entries of nodes b .. last, concatenated, run on from where node b starts, up to stop |
| InitialImage.FreeBlockEntriesOnDisk | file_system.cpp:136-149 | the free-block nodes on disk are consecutive, each listing the next node_cap blocks from root + 1 |
| InitialImage.FreeBlockLinksOnDisk | file_system.cpp:146-147 | each free-block node links to the next block, and fb_head links to 0 |
| InitialImage.FreeBlockListCovers | file_system.cpp:131-149 | the free-block nodes together list root + 1 .. fb_tail − 1 in order, linked block to block |
| InitialImage.InodeEntriesOnDisk | file_system.cpp:110-124 | the free-inode nodes on disk are consecutive, each listing the next node_cap inode numbers from 1 |
| InitialImage.InodeLinksOnDisk | file_system.cpp:120-121 | with the root right after inode_tail, every free-inode node holds 0 in its next cell |
| InitialImage.FreeInodeListCovers | file_system.cpp:109-124 | the free-inode nodes together list 1 .. free_inode_count in order, and their next cells are 0 |
| InitialImage.ListOfNodes | file_system.cpp:136-149 | consecutive nodes, each listing the next node_cap numbers, together list lo .. stop in order |
| InitialImage.InitialFreeBlockList | file_system.cpp:131-149 | after create_file the free-block nodes together list root + 1 .. fb_tail − 1 once each and in increasing order; every node but fb_head links to the next block |
| InitialImage.InitialFreeInodeList | file_system.cpp:109-124 | after create_file the free-inode nodes together list inode numbers 1 .. inode_count − 1 in order |
| InitialImage.InitialRootDirectory | file_system.cpp:125-128 | the root block holds "." and "..", both naming inode 0 |
| BlockAlloc.LoadBlock | file_system.cpp:307-317 | loading succeeds exactly for a block inside the disk and returns its bytes |
| BlockAlloc.GetFreeBlock | file_system.cpp:625-651 | get_free_block throws length_error exactly when fb_head or fb_count is 0; otherwise fb_count drops by exactly 1 and only fb_tail and fb_head may change in the superblock |
| BlockAlloc.GetFreeBlockTakesLast | file_system.cpp:632-647 | it returns the tail node's last entry and removes it, with the other blocks unchanged; an empty tail node is itself returned and the tail moves to its next cell |
| BlockAlloc.PutFreeBlock | file_system.cpp:653-680 | put_free_block raises fb_count by 1 (16-bit) and may move only fb_tail |
| BlockAlloc.PutFreeBlockAppends | file_system.cpp:655-677 | a tail node with room gets the block appended; a full tail makes the freed block a cleared node linked to the old tail |
| BlockAlloc.EmptyNodeIsEmpty | file_system.cpp:669-671 | a cleared node holds no entries and links to the given block |
| BlockAlloc.PutThenGet | file_system.cpp:625-680 | put_free_block(b) then get_free_block() returns b and the image before, except that after a full tail b's block holds the new node |
| BlockAlloc.PutThenGetRoom | file_system.cpp:625-680 | with room in the tail node, put then get restores the image exactly |
| BlockAlloc.PutThenGetFull | file_system.cpp:625-680 | with a full tail node, put then get returns b and restores the superblock and the list |
| InodeAlloc.InitInode | file_system.cpp:154-169 | init_inode stamps the inode with the time and empties it; it is undefined past the vector; nothing else changes |
| InodeAlloc.PutFreeBlocks | file_system.cpp:1177-1178 | freeing a list of blocks raises fb_count by their number and leaves the inodes alone |
| InodeAlloc.EmptyInodeBlocks | file_system.cpp:1174-1185 | empty_inode_blocks zeroes the inode's five direct and three indirect pointers, raises fb_count by the number of blocks the inode occupied, and leaves the other inodes alone; it is undefined past the vector |
| InodeAlloc.Cleared | file_system.cpp:1187-1195 | a cleared inode is empty and undated |
| InodeAlloc.ClearInode | file_system.cpp:1187-1195 | clear_inode leaves the inode cleared (empty and undated), raises fb_count by the number of blocks it occupied, and leaves the other inodes alone |
| InodeAlloc.ClearInodeIdempotent | file_system.cpp:1187-1195 | clearing an inode twice gives the same image as clearing it once |
| InodeAlloc.GetFreeInode | file_system.cpp:569-595 | get_free_inode (pop sized by the tail's count) throws runtime_error exactly when no inode is free; otherwise free_inode_count drops by 1 and the inodes stay |
| InodeAlloc.GetFreeInodeTakesLast | file_system.cpp:575-591 | it returns the tail node's last inode number (last in, first out) and clears that cell, with other blocks unchanged |
| InodeAlloc.GetFreeInodeAsWritten | file_system.cpp:569-595 | get_free_inode as written, with the pop sized free_inode_count·2 mod (block_size_byte − 2), still refuses exactly when no inode is free |
| InodeAlloc.GetFreeInodeAgrees | file_system.cpp:574 | when the count modulo node_cap matches the tail's fill, the as-written pop size is right and both versions agree |
| InodeAlloc.PopSize | file_system.cpp:574 | when the count modulo node_cap is n, the as-written pop size free_inode_count·2 mod (block_size_byte − 2) is 2n |
| InodeAlloc.GetFreeInodeFailsOnFullTail | file_system.cpp:574-589 | when free_inode_count is a non-zero multiple of node_cap, the as-written version throws invalid_argument while the corrected one succeeds |
| InodeAlloc.PushFreeInode | file_system.cpp:597-618 | the list half of put_free_inode keeps the inodes and free_inode_count, and fails only with an I/O failure or length_error |
| InodeAlloc.PushFreeInodeRoom | file_system.cpp:614-617 | into a tail node with room, index goes into the next cell; no other cell, block or superblock field changes |
| InodeAlloc.PushFreeInodeFull | file_system.cpp:604-612 | from a full tail node, inode_tail moves to the block get_free_block hands out; that block's last cell links the old tail and its first cell holds index, while its other cells keep the block's stale bytes |
| InodeAlloc.PutFreeInode | file_system.cpp:597-623 | put_free_inode raises free_inode_count by 1 and leaves exactly that inode cleared |
| InodeAlloc.PutThenGetInode | file_system.cpp:569-623 | for an inode without blocks and a tail node with room, put_free_inode(i) then get_free_inode() returns i, with the image as before except that inode i is cleared |
| InodeAlloc.PutClearedInode | file_system.cpp:597-623 | for a tail node with room, put_free_inode appends i, bumps the count and clears inode i |
| InodeAlloc.GetPushedInode | file_system.cpp:569-595 | get_free_inode after such a push takes i back and restores the count and the node |
| Directory.FindInBlock | file_system.cpp:248-249 | the search in one block reports a name only if an entry has it, with that entry's inode number, and reports none only when no entry from j on has it |
| Directory.FindIn | file_system.cpp:247-262 | the search over the loaded blocks finds a matching entry's inode number, or reports none exactly when no entry matches |
| Directory.FirstSlash | file_system.cpp:226 | the first '/' of a path, or none when it has none |
| Directory.LastSlash | file_system.cpp:1019 | the last '/' of a path, or none when it has none |
| Directory.GetDirInode | file_system.cpp:217-223 | "/" resolves to inode 0; a failure is invalid_argument, logic_error, undefined behaviour or an I/O failure |
| Directory.DirInodeFrom | file_system.cpp:225-264 | the walk down the path fails only with invalid_argument, logic_error, undefined behaviour or an I/O failure |
| Directory.ResolveTopLevel | file_system.cpp:217-264 | "/name" resolves to the inode number the root's entry for name gives, or invalid_argument when none matches |
| Directory.TrailingSlashSame | file_system.cpp:232-238 | "/name/" resolves like "/name" |
| Directory.FirstSlashAfter | file_system.cpp:226 | in name followed by '/', the first slash sits right after the name |
| Directory.SplitArg | file_system.cpp:1019-1030 | the split succeeds exactly when the argument has a '/', a name after it of at most 6 bytes and no space; path ++ name is the argument |
| Directory.NewFileArgs | file_system.cpp:1017-1060 | on success the parent is a directory, the name is the split name, and "present" says whether the parent holds that name; with error_when_exists it is never present |
| Directory.NewFileArgsExisting | file_system.cpp:1044-1049 | a name that exists makes new_file_args with error_when_exists throw invalid_argument |
| Directory.CheckFileToDelete | file_system.cpp:1124-1145 | on success the name is neither "." nor "..", the target is not the root, and the target and parent are what path resolution gives |
| Walks.TreeBlocks | file_system.cpp:351-378 | the indirect-tree walk loads blocks from the disk, whole blocks, and the blocks loaded plus those left over give the count asked for |
| Walks.CellsBlocks | file_system.cpp:374-376 | the walk over a tree node's cells keeps the same count of blocks loaded plus left over |
| Walks.FromDiskAppend | file_system.cpp:351-378 | blocks loaded whole from the disk stay so when two walks are joined |
| Walks.FromDiskUniform | file_system.cpp:307-317 | blocks loaded from a sized disk are all block_size_byte long |
| Walks.DirectBlocks | file_system.cpp:272-278 | the first n direct blocks load exactly when their pointers lie inside the disk, in pointer order |
| Walks.InodeBlocks | file_system.cpp:267-305 | load_inode_blocks loads blocks from the disk and accounts for the whole block count; for at most 5 blocks it loads exactly ba[0], ba[1], … in order |
| Walks.Fit | file_system.cpp:1080-1091 | bytes cut or zero-padded to the requested size |
| Walks.ReadFile | file_system.cpp:1080-1091 | copy_system_file_to_buf yields exactly size bytes |
| Walks.FlattenAt | file_system.cpp:1083-1089 | byte j·n + k of the copied buffer is byte k of block j |
| Walks.FlattenLength | file_system.cpp:1083-1089 | the copied buffer of m blocks of n bytes is m·n bytes long |
| Walks.FitFlattenAt | file_system.cpp:1080-1091 | byte j·n + o of the fitted buffer, below the size, is byte o of block j |
| Walks.ReadFileBlocks | file_system.cpp:1080-1091 | the bytes read are the loaded blocks, concatenated and fitted to the size |
| Walks.ReadDirectFile | file_system.cpp:1080-1091 | for a direct-tier file, byte p = j·n + o of the read equals byte o of block ba[j] |
| Walks.ReadDirectRange | file_system.cpp:1080-1091 | a run of bytes inside one direct block reads back as that run of the block |
| Walks.ReadDirectAll | file_system.cpp:1080-1091 | a direct-tier file whose blocks hold data reads back exactly data |
| Walks.ReadDirectOk | file_system.cpp:267-286 | a direct-tier file with its pointers inside the disk can be read |
| Walks.ReadOneBlockFile | file_system.cpp:1080-1091 | a one-block file reads back the first size bytes of ba[0] |
| Walks.TreeOccupied | file_system.cpp:879-896 | the occupied-block walk of a tree lists the tree's root address first and only non-zero addresses |
| Walks.CellsOccupied | file_system.cpp:891-894 | the walk over a node's cells lists only non-zero addresses |
| Walks.FirstZeroDirect | file_system.cpp:868-873 | the scan of ba stops at its first zero pointer |
| Walks.OccupiedBlocks | file_system.cpp:866-877 | load_occupied_inode_blocks lists the direct pointers up to the first zero (and nothing more when one is zero), then the trees; it is undefined past the vector |
| Walks.OccupiedAreRead | file_system.cpp:866-877 | for a direct-tier inode, the occupied blocks are exactly the blocks load_inode_blocks reads |
| FileWrite.StartTier | file_system.cpp:418-432 | a start past the direct tier lies in tier 5 or 6, or write throws runtime_error |
| FileWrite.StartFrom | file_system.cpp:416-433 | a block index below 6 is taken as the start; otherwise the tier test decides |
| FileWrite.StartBlockAsWritten | file_system.cpp:416-417 | the shift as written is undefined for a shift of 32 or more; inside the first block it starts at 0; its start never lies past pos, and from byte block_size_byte to the end of the direct tier it lies before the block holding pos |
| FileWrite.StartBlock | file_system.cpp:416-417 | the corrected start never lies past pos, and on the first six blocks it is the block holding pos; a failure is runtime_error |
| FileWrite.FillFrom | file_system.cpp:446-449 | the block's bytes from off on take the data; the other bytes stay |
| FileWrite.Filled | file_system.cpp:446-449 | a buffered block keeps its length once its chunk is copied in |
| FileWrite.Taken | file_system.cpp:446 | the inner loop copies until the block or the data ends, at least one byte when data remains |
| FileWrite.Kept | file_system.cpp:444-451 | the block kept for write-back is the inode's block ba[cur], whole |
| FileWrite.EnsureBlock | file_system.cpp:437-440 | an allocated pointer is kept; a zero pointer gets a block from get_free_block |
| FileWrite.Turn | file_system.cpp:435-453 | one turn of the block loop advances cur, consumes data and keeps one block |
| FileWrite.DirectLoop | file_system.cpp:435-453 | the block loop fails only when allocation fails, and every block it keeps fits the disk |
| FileWrite.DirectWhile | file_system.cpp:435-453 | the loop test: it fails only when allocation fails, and what it keeps fits the disk |
| FileWrite.DirectTurn | file_system.cpp:435-453 | one turn followed by the rest of the loop: it fails only when allocation fails |
| FileWrite.DirectLoopTurns | file_system.cpp:435-453 | a loop with data and a direct block left takes one turn and goes on from its result |
| FileWrite.DirectLoopDone | file_system.cpp:435 | the loop stops with the state unchanged when the data or the direct blocks run out |
| FileWrite.Flush | file_system.cpp:562-567 | writing back the kept blocks leaves every other block unchanged |
| FileWrite.FlushKeepsSizes | file_system.cpp:562-567 | write-back keeps every block at block_size_byte bytes |
| FileWrite.WriteWith | file_system.cpp:401-459 | write keeps the image's shape, block size and free_inode_count |
| FileWrite.Write | file_system.cpp:401-459 | write is undefined past the vector, throws runtime_error when the file is at the cap or pos is past its size, and otherwise keeps the image's shape |
| FileWrite.WriteAsWritten | file_system.cpp:401-459 | write as written keeps the image's shape, is undefined past the vector or for a shift of 32 or more, and throws runtime_error when the file is at the cap or pos is past its size |
| FileWrite.DirectLoopCount | file_system.cpp:435-453 | the loop keeps one block per block index it passes, in order after those kept before |
| FileWrite.DirectLoopOthers | file_system.cpp:435-453 | the loop changes no inode but the one written |
| FileWrite.DirectLoopOnlyPointers | file_system.cpp:435-453 | the loop changes only that inode's direct pointers |
| FileWrite.DirectLoopKeepsSet | file_system.cpp:437-440 | a non-zero pointer keeps its block |
| FileWrite.DirectLoopKeptAt | file_system.cpp:444-451 | the block kept for index m is the one the inode points to at m when the loop ends |
| FileWrite.DirectLoopReached | file_system.cpp:435-453 | the loop only reaches block indices that the data covers |
| FileWrite.KeptLands | file_system.cpp:446-449 | in the block kept by one turn, offset o holds the data byte meant for it |
| FileWrite.DirectLoopLands | file_system.cpp:435-453 | every byte the loop writes lands in its block at the right offset |
| FileWrite.DirectLoopLastKept | file_system.cpp:444-457 | with distinct pointers, the block kept for index j is buffered once, so no later copy overwrites it |
| FileWrite.DirectLoopWritten | file_system.cpp:435-457 | after the loop and write-back, with distinct pointers, byte o of block ba[j] holds the data byte for j·n + o |
| FileWrite.FlushAt | file_system.cpp:562-567 | the last buffered copy of a block is what the disk holds after write-back |
| FileWrite.FlushedByte | file_system.cpp:562-567 | after write-back, the block of the last buffered copy is block_size_byte long and holds its bytes |
| FileWrite.WriteStarts | file_system.cpp:401-459 | a non-empty write starts at block pos / block_size_byte and flushes the loop's kept blocks |
| FileWrite.WriteLands | file_system.cpp:401-459 | after write, byte j·n + o of the data sits at byte o of block ba[j], when the blocks written are distinct |
| FileWrite.WriteFrame | file_system.cpp:401-459 | write changes only the written inode's direct pointers and keeps the pointers already set |
| FileWrite.WriteOneBlock | file_system.cpp:435-453 | a write within one block is that block's bytes replaced from pos mod n |
| FileWrite.WriteOneBlockLands | file_system.cpp:435-453 | after such a write the block holds the data at its offset |
| FileWrite.WriteFromStart | file_system.cpp:401-459 | a write at 0 puts each byte of the data at its block and offset |
| FileWrite.StartBlockAsWrittenLags | file_system.cpp:416-417 | with 1 KiB blocks, position 1024 starts at block 0 as written but at block 1 corrected |
| FileWrite.StartBlockHoldsPos | file_system.cpp:416-417 | the corrected start block on the direct tier is the block that holds pos |
| FileWrite.DirectLoopShift | file_system.cpp:435-453 | the block loop reads the position only through its offset in the block: from a position with the same offset it fills the same blocks with the same bytes |
| FileWrite.WriteAsWrittenShifted | file_system.cpp:401-459 | write as written at pos, with start block q among the first six, is the corrected write at q·block_size_byte + pos mod block_size_byte, which is at or before pos |
| FileWrite.WriteAsWrittenAt1024 | file_system.cpp:416-446 | with 1 KiB blocks, write as written at byte 1024 of a file of at least 1024 bytes is the corrected write at byte 0 |
| Ops.DotEntries | file_system.cpp:682-693 | the two entries of a new directory read back as "." naming itself and ".." naming the parent |
| Ops.NewDirectory | file_system.cpp:386-390 | creating a directory needs a free inode (runtime_error otherwise) and returns an inode number inside the vector |
| Ops.AddEntry | file_system.cpp:391-396 | appending an entry is undefined past the vector and throws runtime_error when the parent is at the size cap |
| Ops.Mkdir | file_system.cpp:380-399 | mkdir throws what new_file_args throws, runtime_error when no inode is free, and otherwise returns the new inode number |
| Ops.FindEntry | file_system.cpp:1153-1158 | the search finds the first entry from i on with the name, or none exactly when no entry has it |
| Ops.SearchEntries | file_system.cpp:1151-1160 | the search loop reports the first entry at index ≥ 1 with the name, and position 1 with done false when there is none |
| Ops.EraseEntry | file_system.cpp:1163-1164 | erasing entry k drops those 8 bytes and keeps the bytes before and after in order |
| Ops.Remaining | file_system.cpp:1149-1164 | the directory bytes without the removed entry are 8 bytes shorter than the directory |
| Ops.RemoveDirEntry | file_system.cpp:1147-1172 | remove_dir_entry throws what the search throws, keeps the image's shape, the block size and free_inode_count |
| Ops.Rewrite | file_system.cpp:1165-1166 | rewriting a directory keeps the image's shape, the block size and free_inode_count |
| Ops.WriteBack | file_system.cpp:1166-1171 | writing back the entries keeps the image's shape, the block size and free_inode_count |
| Ops.RemoveDirEntryRewrites | file_system.cpp:1147-1172 | removal is the rewrite of the remaining entries |
| Ops.RewriteWritesBack | file_system.cpp:1165-1166 | the rewrite is the write-back from the emptied inode |
| Ops.WriteBackShrinks | file_system.cpp:1166-1171 | the write-back shrinks the size by 8 and stamps the time |
| Ops.Rmdir | file_system.cpp:1106-1122 | rmdir throws what check_file_to_delete throws, and invalid_argument unless the target is a directory of size 16; a success removed such a target |
| Ops.FreeInode | file_system.cpp:1118-1119 | clear then put_free_inode leaves exactly that inode cleared and raises free_inode_count by 1 |
| Ops.Del | file_system.cpp:1229-1253 | del throws what check_file_to_delete throws, and invalid_argument unless the target is a file or symbolic file |
| Ops.DropLink | file_system.cpp:1240-1251 | the link-count rule of del: logic_error for 0, freeing for 1, a decrement by exactly 1 above |
| Ops.HardLink | file_system.cpp:1197-1214 | hard_link throws what new_file_args throws, then what resolving the source throws |
| Ops.Link | file_system.cpp:1203-1211 | linking keeps the image's shape and block size |
| Ops.RmdirSteps | file_system.cpp:1106-1122 | rmdir of an empty directory is the entry removal followed by freeing the inode |
| Ops.DelSteps | file_system.cpp:1229-1253 | del of a file is the entry removal followed by the link-count rule |
| Ops.HardLinkLinks | file_system.cpp:1197-1214 | hard_link is the link of the resolved source under the split name |
| Ops.LinkCounts | file_system.cpp:1203-1211 | linking appends the entry, then raises the source's link count by 1 |
| Ops.NewDirectoryInode | file_system.cpp:386-390 | the new directory is the inode get_free_inode hands out: dated now, size 16, directory type, one link; no other inode changes |
| Ops.NewDirectoryDots | file_system.cpp:386-390 | the new directory reads back as "." naming itself and ".." naming the parent, in its first block |
| Ops.AddEntryInode | file_system.cpp:391-396 | the parent grows by 8, is stamped, keeps its set pointers; no other inode changes |
| Ops.AddEntryLands | file_system.cpp:391-394 | the new entry's 8 bytes sit at the parent's old size in its block |
| Ops.EntryReadsBack | file_system.cpp:1377-1417 | an entry stored at an 8-aligned position reads back its inode number and name |
| Ops.SlotReadsBack | file_system.cpp:1080-1091 | the bytes of the last entry read back from the file as they sit in its block |
| Ops.AddEntryReadsBack | file_system.cpp:391-396 | reading the parent after the append gives the new entry at its old size |
| Ops.AddEntryInBlock | file_system.cpp:391-396 | into an allocated block the append changes exactly that block's 8 bytes and no pointer |
| Ops.MkdirRefusesExisting | file_system.cpp:1044-1049 | mkdir of an existing name throws invalid_argument |
| Ops.MkdirInodes | file_system.cpp:380-399 | mkdir of a new name: the new inode is the one handed out, a directory of size 16 with one link; the parent grows by 8; no other inode changes |
| Ops.MkdirSteps | file_system.cpp:380-399 | mkdir is new_file_args, then the new directory, then the parent's entry |
| Ops.MkdirEntry | file_system.cpp:391-396 | after mkdir the parent's entry at its old size names the new inode under the new name |
| Ops.MkdirAppends | file_system.cpp:391-396 | mkdir's append changes exactly those 8 bytes of the parent's block |
| Ops.MkdirDots | file_system.cpp:387-390 | after mkdir the new directory reads as "." and ".." naming itself and the parent |
| Ops.RemainingErases | file_system.cpp:1149-1164 | remove_dir_entry's search throws logic_error exactly when no entry at index ≥ 1 has the name; otherwise it erases the first such entry and keeps the others in order |
| Ops.RemoveDirEntryInode | file_system.cpp:1147-1172 | after removal the directory is 8 bytes shorter, stamped, its trees emptied; no other inode changes |
| Ops.RemoveDirEntryReadsBack | file_system.cpp:1147-1172 | after removal the directory reads back exactly the remaining entries |
| Ops.RmdirEffect | file_system.cpp:1106-1122 | after rmdir the target is cleared and freed and the parent is 8 bytes shorter; no other inode changes |
| Ops.DelEffect | file_system.cpp:1229-1253 | after del the file is cleared and freed when its link count was 1, decremented when above 1; the parent is 8 bytes shorter |
| Ops.DropLinkEffect | file_system.cpp:1240-1251 | the link-count rule changes only the target: freed at 1, decremented above |
| Ops.DelCorruptLinkCount | file_system.cpp:1240-1245 | del of a file with link count 0 throws logic_error |
| Ops.HardLinkEffect | file_system.cpp:1197-1214 | after hard_link the source's link count is up by 1, the parent is 8 bytes larger and the disk is the entry append |
| Ops.HardLinkAppends | file_system.cpp:1203-1204 | hard_link's append changes exactly the 8 bytes at the parent's old size |
| Fsck.Addresses | file_system.cpp:848-850 | the node's first n cells, as get_address reads them |
| Fsck.CellAtSmall | file_system.cpp:848-850 | a cell value below 0x8000 reads back unchanged |
| Fsck.FreeBlockWalk | file_system.cpp:831-855 | the walk from 0 lists nothing; a position past the disk is an I/O failure |
| Fsck.FreeBlocks | file_system.cpp:831-855 | the corrected walk from fb_tail lists nothing for tail 0 and fails with an I/O error past the disk |
| Fsck.FreeBlocksAsWritten | file_system.cpp:831-855 | wherever fsck's walk as written is defined, it lists the same free blocks as the corrected walk |
| Fsck.WalkAgrees | file_system.cpp:836-855 | wherever the walk as written is defined, the corrected walk gives the same list |
| Fsck.FreeInodes | file_system.cpp:1320-1337 | the walk from inode_tail succeeds exactly when that node is non-empty, and then lists exactly its filled cells |
| Fsck.FreeInodeWalk | file_system.cpp:1320-1337 | the walk from 0 lists nothing |
| Fsck.Tally | file_system.cpp:1272-1275 | the count map has a key for each listed value, and counts its occurrences |
| Fsck.Touch | file_system.cpp:1276-1279 | touching keys adds them with count 0 and keeps existing counts |
| Fsck.TallyStep | file_system.cpp:1272-1273 | counting one more element bumps its count by one |
| Fsck.TallyLoop | file_system.cpp:1272-1273 | the counting loop builds the count map of the list |
| Fsck.TouchedTally | file_system.cpp:1272-1279 | a count map touched with extra keys counts the list over those keys as well |
| Fsck.CountEntries | file_system.cpp:817-820 | the entry counts succeed exactly when every block's size is a multiple of 8 |
| Fsck.ScanDirs | file_system.cpp:800-829 | the directory scan succeeds exactly when every dated directory's blocks load and each holds a whole number of entries; a failure is an I/O failure or logic_error |
| Fsck.OccupiedFrom | file_system.cpp:800-829 | a block is listed exactly when some dated inode occupies it |
| Fsck.Numbers | file_system.cpp:1283-1291 | the inode numbers 0 .. n − 1 |
| Fsck.BuildTallies | file_system.cpp:1265-1292 | both block maps count their own list over the keys of both; the free-inode map counts the free list over every inode number; the in-use map is 1 exactly for typed inodes |
| Fsck.RunFsck | file_system.cpp:1255-1292 | fsck's four maps: each block map counts its list over every free or occupied block, the free-inode map counts the walk, the in-use map marks typed inodes |
| Fsck.SmallNodeAddresses | file_system.cpp:848-850 | for entries below 0x8000 the addresses read are the node's entries |
| Fsck.WalkConsecutive | file_system.cpp:831-855 | over consecutively linked nodes the walk lists their entries in order |
| Fsck.WalkListsRange | file_system.cpp:831-855 | a free list whose nodes list lo .. stop gives exactly that walk |
| Fsck.FreshFreeBlocks | file_system.cpp:831-855 | on a new disk the free-block walk lists root + 1 .. fb_tail − 1 |
| Fsck.FreshFreeList | file_system.cpp:131-149 | a new disk has a non-empty free-block tail, every node linked to the next block, listing root + 1 .. fb_tail − 1 |
| Fsck.FreshInodeTail | file_system.cpp:109-124 | a new disk has a non-empty free-inode tail node |
| Fsck.FreshInodeTypes | file_system.cpp:65-71 | a new inode vector has at least two inodes, the root a directory and the others of the empty type |
| Fsck.EmptyTailWalk | file_system.cpp:836-846 | with an empty tail node and more nodes, the walk as written hits undefined behaviour, while corrected it lists the tail node and then the rest |
| Fsck.FreshOccupied | file_system.cpp:800-829 | on a new image only the root block is occupied and the directory scan succeeds |
| Fsck.UndatedFrom | file_system.cpp:800-829 | undated inodes contribute no occupied blocks, and the directory scan passes them |
| Fsck.TwoEntryDirectory | file_system.cpp:800-829 | a directory of two entries in block r occupies just r, and its entries count |
| Fsck.OnlyFirstDated | file_system.cpp:800-829 | when only the root is dated, the occupied list is the root's block |
| Fsck.RunFsckOk | file_system.cpp:1255-1292 | fsck succeeds when its three walks succeed |
| Fsck.FreshTallies | file_system.cpp:1255-1292 | on a new image fsck succeeds, with the free walk and the occupied list as computed |
| Fsck.ReportedBlocks | file_system.cpp:1265-1279 | the block maps then report each free block once free and never occupied, and the root once occupied and never free |
| Fsck.ReportedInodes | file_system.cpp:1280-1292 | the in-use map then marks the root alone |
| Fsck.FreshBlockMaps | file_system.cpp:1265-1279 | maps that count the free range against the root, and the root against the free range, give the block report |
| Fsck.FreeMapShape | file_system.cpp:1272-1279 | the free map then has keys root .. fb_tail − 1, with count 1 for each free block |
| Fsck.FullMapShape | file_system.cpp:1272-1279 | the occupied map then has the same keys, 0 for each free block and 1 for the root |
| Fsck.FormatIsFresh | file_system.cpp:27-152 | a constructed file system is a new image |
| Fsck.FreshFsck | file_system.cpp:1255-1292 | fsck of a new file system reports every free block once in the free list, the root block once occupied, and the root alone in use |
| Engine.FileSystem.constructor | file_system.cpp:194-215 | the object stands for the given image |
| Engine.FileSystem.LoadByBlockNo | file_system.cpp:307-317 | loading gives a fresh block holding the disk's bytes, with the size and number asked for; it fails past the disk |
| Engine.FileSystem.WriteBlock | file_system.cpp:319-326 | writing a block replaces exactly that disk block with its bytes |
| Engine.FileSystem.GetFreeBlock | file_system.cpp:625-651 | the method reaches the state and result of the allocator model; on an error the state is unchanged |
| Engine.FileSystem.PutFreeBlock | file_system.cpp:653-680 | the method reaches the image of the model; on an error the inodes and disk are unchanged |
| Engine.FileSystem.GetFreeInode | file_system.cpp:569-595 | the method reaches the state and result of the inode allocator model; on an error nothing changes |
| Engine.FileSystem.InitInode | file_system.cpp:154-169 | the method reaches init_inode's image; on an error nothing changes |
| Engine.FileSystem.EmptyInodeBlocks | file_system.cpp:1174-1185 | the loop over the occupied blocks reaches empty_inode_blocks's image and error |
| Engine.FileSystem.ClearInode | file_system.cpp:1187-1195 | the method reaches clear_inode's image and error |
| Engine.FileSystem.PushFreeInode | file_system.cpp:599-618 | the method reaches the list half of put_free_inode |
| Engine.FileSystem.PutFreeInode | file_system.cpp:597-623 | the method reaches put_free_inode's image and error |
| Engine.FileSystem.Write | file_system.cpp:401-459 | the method reaches write's image; on an error nothing changes |
| Engine.FileSystem.InitDirectory | file_system.cpp:682-693 | the inode becomes a directory of size 16 with one link, and the block's first 16 bytes hold "." and ".." |
| Engine.FileSystem.NewDirectory | file_system.cpp:386-390 | the method reaches the new directory's image and number |
| Engine.FileSystem.AddEntry | file_system.cpp:391-396 | the method reaches the entry append's image |
| Engine.FileSystem.Mkdir | file_system.cpp:380-399 | the method reaches mkdir's image, number and error |
| Engine.FileSystem.RemainingEntries | file_system.cpp:1149-1164 | the method's search and erase give the remaining directory bytes of the model |
| Engine.FileSystem.RemoveDirEntry | file_system.cpp:1147-1172 | the method reaches remove_dir_entry's image and error |
| Engine.FileSystem.Rewrite | file_system.cpp:1165-1166 | the method reaches the rewrite's image |
| Engine.FileSystem.WriteBack | file_system.cpp:1166-1171 | the method reaches the write-back's image |
| Engine.FileSystem.FreeInode | file_system.cpp:1118-1119 | the method reaches the clear-and-free image |
| Engine.FileSystem.Rmdir | file_system.cpp:1106-1122 | the method reaches rmdir's image and error |
| Engine.FileSystem.DropLink | file_system.cpp:1240-1251 | the method reaches the link-count rule's image and error |
| Engine.FileSystem.Del | file_system.cpp:1229-1253 | the method reaches del's image and error |
| Engine.FileSystem.HardLink | file_system.cpp:1197-1214 | the method reaches hard_link's image and error |
| Engine.FileSystem.Link | file_system.cpp:1203-1211 | the method reaches the link step's image and error |

## Left out

- Host file I/O is replaced by the in-memory `disk`. This covers the
  streams of `create_file`, the file-loading constructor,
  `load_by_block_no`, `write_block`, `write_superblock`, `write_inode`,
  `copy_file` and `read_file`. A read past the backing file becomes
  `IoFailure`.
- The byte images of `superblock` and `inode` (raw struct dumps) depend on
  the host layout, so the model keeps fields, not bytes. The inode record
  size of 32 enters the model only through the inode table's block count
  (`Layout.InodeHeadOf`). The byte offset that `write_inode` writes at is
  not modelled.
- `file_system.h` declares eight superblock fields, but `file_system.cpp`
  also uses `inode_head` and `inode_tail`. The model's superblock has all
  ten fields and follows the code.
- `set_inode_time` reads the wall clock; the model takes the time as the
  parameter `now`.
- `list_folders`, `dumpe2fs` and fsck's printing are output only. The fsck
  model keeps the computed lists and maps. It drops the name map, which
  fsck clears unused.
- `list_folders` skips entries 0 and 1 of every block, not only "." and
  ".." of the first block. This is not modelled, because the routine only
  prints.
- The write-back buffer of `write` is modelled as one `Flush` at the end,
  which is what the batching amounts to.
- The single, double and triple indirect tiers of `write` and
  `write_helper` are not modelled: their start arithmetic is inconsistent.
  `FileWrite.Write` returns `NotModelled` for data that reaches past the
  five direct blocks. The path that starts such a write is modelled as far
  as its `runtime_error` cases.
- The branch of `get_free_inode` for an empty tail node reuses a reference
  to a popped vector element. `InodeAlloc.GetFreeInode` returns
  `NotModelled` there.
- InodeAlloc.GetFreeInode: sizes the pop by the tail node's own count (the
  corrected version, see Findings); `Engine.FileSystem.GetFreeInode`
  follows it.
- The next pointers of the free-inode nodes are left as `create_file`
  writes them. Line 120 compares a block number with a count, so no
  property is claimed about them.
- `soft_link`, `copy_file`, `write_str_to_file`, `init_file`, `test2` and
  the `main` and argument-reading wrappers are left out. They are file
  import and export, driver code, or CLI dispatch.
- The path walks (`Fsck.FreeBlockWalk`, `Fsck.FreeInodeWalk`) stop with
  `NotModelled` after as many nodes as the disk has blocks. A cyclic list,
  on which the source recurses without end, is therefore not modelled.
- The value model returns no image when an operation throws. The `Engine`
  methods keep the partial state that the source leaves, and their
  contracts then state only the error.
- Ops.DropLink: its contract states the link-count rule case by case, much
  as its body does. Ops.DelEffect and Ops.DropLinkEffect state what the
  rule does to the inodes.
- FileWrite.WriteLands, Ops.RemoveDirEntryReadsBack: the byte-level
  read-back facts assume that the blocks written are distinct. This holds
  when the free list hands out distinct blocks; the model does not prove
  that.
- The block loops of `write` are modelled as recursion over a loop state,
  not as a `while` method.
- Three corrections from Findings are used by the rest of the model, as
  the Findings rows say, so the members below are stated of the corrected
  behaviour and promise less than a statement of the source's would.
  Names are read with the 6-byte reader `BlockCodec.EntryName`. The
  source's 8-byte read differs only for a 6-byte name whose next byte is
  not NUL (the next entry's inode number is at least 256), or at the last
  entry of an array, where it is undefined; `BlockCodec.EntryNameAsWritten`
  states that agreement. `write` starts at block pos / block_size_byte;
  the source's shift agrees below byte block_size_byte and otherwise
  writes where the corrected write at `FileWrite.WriteAsWrittenShifted`'s
  position would. fsck walks the free-block list with the corrected walk,
  which `Fsck.WalkAgrees` shows equal to the source's wherever that is
  defined.
- Directory.FindInBlock: matches names with the 6-byte reader, so it finds a 6-byte name that the source's 8-byte read misses.
- Directory.FindIn: matches names with the 6-byte reader (see Directory.FindInBlock).
- Directory.GetDirInode: resolves path components with the 6-byte reader; the source throws invalid_argument for a 6-byte component whose next byte is not NUL.
- Directory.DirInodeFrom: resolves path components with the 6-byte reader (see Directory.GetDirInode).
- Directory.ResolveTopLevel: "/name" is resolved with the 6-byte reader (see Directory.GetDirInode).
- Directory.NewFileArgs: decides "present" with the 6-byte reader; the source can miss a present 6-byte name.
- Directory.NewFileArgsExisting: "exists" is judged by the 6-byte reader; the source lets such a duplicate through.
- Directory.CheckFileToDelete: resolves the target with the 6-byte reader.
- Ops.FindEntry: compares names with the 6-byte reader; the source's read also reaches 2 bytes past the directory buffer at its last entry.
- Ops.SearchEntries: compares names with the 6-byte reader (see Ops.FindEntry).
- Ops.Remaining: finds the entry with the 6-byte reader; the source throws logic_error for a 6-byte name whose next byte is not NUL.
- Ops.RemainingErases: "has the name" is judged by the 6-byte reader (see Ops.Remaining).
- Ops.RemoveDirEntry: finds the entry with the 6-byte reader (see Ops.Remaining).
- Ops.Rmdir: resolves and removes with the 6-byte reader.
- Ops.Del: resolves and removes with the 6-byte reader.
- Ops.EntryReadsBack: reads the entry back with the 6-byte reader; the source's read adds the next byte to a 6-byte name when it is not NUL.
- Ops.Mkdir: checks for the name with the 6-byte reader and appends with the corrected start block; the source can accept a duplicate 6-byte name and, from parent size block_size_byte on, writes the entry over an earlier one.
- Ops.MkdirRefusesExisting: "existing" is judged by the 6-byte reader (see Ops.Mkdir).
- Ops.HardLink: checks and resolves names with the 6-byte reader and appends with the corrected start block (see Ops.Mkdir).
- Ops.AddEntry: appends with the corrected start block; from parent size block_size_byte on, the source's write lands at an earlier block.
- Ops.Link: appends through Ops.AddEntry with the corrected start block.
- Ops.AddEntryLands: the entry sits at the parent's old size because of the corrected start block.
- Ops.AddEntryReadsBack: holds for the corrected start block; with the source's start the read-back holds only below parent size block_size_byte.
- Ops.AddEntryInBlock: the changed block is the one the corrected start names.
- Ops.MkdirEntry: holds for the corrected start block (see Ops.AddEntryReadsBack).
- Ops.MkdirAppends: the changed bytes are the ones the corrected start names.
- Ops.HardLinkEffect: the parent's disk change is the one the corrected start names.
- Ops.HardLinkAppends: the changed bytes are the ones the corrected start names.
- FileWrite.Write: starts at block pos / block_size_byte, where the source shifts pos by 10 + block_size; FileWrite.WriteAsWritten follows the source and FileWrite.WriteAsWrittenShifted relates the two.
- FileWrite.WriteStarts: states the corrected start block.
- FileWrite.WriteLands: holds for the corrected start block.
- FileWrite.WriteOneBlock: holds for the corrected start block.
- FileWrite.WriteOneBlockLands: holds for the corrected start block.
- Fsck.FreeBlocks: uses the corrected walk, which is defined on a list whose empty tail node is not the head, where the source's walk is undefined.
- Fsck.RunFsck: runs on Fsck.FreeBlocks, so it gives maps where the source is undefined.
- Fsck.ScanDirs: does not read the entry names, so the source's 2-byte over-read at the last entry of a full directory block is not flagged.
- Engine.FileSystem.Write: commits FileWrite.Write, with the corrected start block.
- Engine.FileSystem.AddEntry: follows Ops.AddEntry, with the corrected start block.
- Engine.FileSystem.Mkdir: follows Ops.Mkdir (6-byte reader, corrected start block).
- Engine.FileSystem.HardLink: follows Ops.HardLink (6-byte reader, corrected start block).
- Engine.FileSystem.Link: follows Ops.Link, with the corrected start block.
- Engine.FileSystem.RemainingEntries: its search loop uses the 6-byte reader (see Ops.Remaining).
- Engine.FileSystem.RemoveDirEntry: follows Ops.RemoveDirEntry (6-byte reader).
- Engine.FileSystem.Rmdir: follows Ops.Rmdir (6-byte reader).
- Engine.FileSystem.Del: follows Ops.Del (6-byte reader).

## Findings

| source | as written | input that shows it | evidently intended | confidence | as-written member | corrected member |
|---|---|---|---|---|---|---|
| file_system.cpp:1475-1478 | `get_entry_name_from_arr` takes 8 bytes from the start of the name, 2 more than the name field, and cuts them at the first NUL | an entry named "abcdef" followed by an entry for inode 256 reads back as "abcdef" plus byte 1 | read at most the 6 name bytes | not executed | BlockCodec.SixByteNameSpillsAsWritten | BlockCodec.DirEntryRoundTrip |
| file_system.cpp:574 | `get_free_inode` sizes the pop as free_inode_count·2 mod (block_size_byte − 2), which is 0 when the count is a multiple of node_cap | 1 KiB blocks, 511 free inodes in a full tail node: the pop throws invalid_argument | size the pop by the tail node's own entry count | not executed | InodeAlloc.GetFreeInodeFailsOnFullTail | InodeAlloc.GetFreeInode |
| file_system.cpp:1448-1455 | `set_address` guards with index + 1 > cap, but writes bytes 2·index and 2·index + 1 | index cap/2 passes the guard and writes past the block | guard with 2·index + 2 > cap | not executed | DataBlock.SetAddressGuardAdmitsOverrun | DataBlock.Block.SetAddress |
| file_system.cpp:836-846 | `get_all_free_blocks` lacks a return after the empty-tail branch's recursive call, then reads the node it has released | a free list whose tail node is empty and is not the head | return after listing the tail node and the rest | not executed | Fsck.EmptyTailWalk | Fsck.FreeBlocks |
| file_system.cpp:416-417 | `write` starts at block pos >> (10 + block_size), which treats block_size as a power-of-two exponent | 1 KiB blocks, pos 1024: the write starts at block 0 instead of block 1, so an entry appended to a 1024-byte directory is written over "." | start at block pos / block_size_byte | not executed | FileWrite.StartBlockAsWrittenLags | FileWrite.StartBlockHoldsPos |
