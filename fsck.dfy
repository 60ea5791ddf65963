/** fsck: the free-block and free-inode lists walked, the blocks every dated
    inode occupies listed, and the counting maps built from them: for every
    block address, how often it appears in the free list and how often among
    the occupied blocks; for every inode number, how often it appears in the
    free-inode list and whether the inode is in use. The printing is not
    modelled. */
module Fsck {
  import opened Types
  import opened BlockCodec
  import opened Layout
  import opened Walks
  import opened InitialImage

  // ------------------------------------------------------------ list walks

  /** get_address(k) for the first n cells of a list node, the high byte
      sign-extended as get_address reads it. */
  function Addresses(node: Bytes, n: nat): (r: seq<nat>)
    requires 2 * n <= |node|
    ensures |r| == n && forall k | 0 <= k < n :: r[k] == CellAt(node, k)
  {
    seq(n, k requires 0 <= k < n => CellAt(node, k))
  }

  /** Every block of the disk is a list node of cap cells and a next cell. */
  predicate NodeSized(disk: seq<Bytes>, cap: nat) {
    forall b | 0 <= b < |disk| :: |disk[b]| == 2 * cap + 2
  }

  /** get_all_free_blocks(res, pos) over the free-block list from tail to
      head. A node lists its filled cells and, unless it is the head, the walk
      goes on at the node its last cell names; 0 ends the walk. An empty
      tail node is listed itself, as get_free_block would hand it out. As
      written, that branch lacks a return: after the recursive call the
      source reads the node it has already released, which is undefined;
      corrected, the walk ends there. The walk gives up after fuel nodes (a
      cycle in the list makes the source recurse without end). */
  function FreeBlockWalk(disk: seq<Bytes>, cap: nat, tail: nat, head: nat, pos: nat, fuel: nat, asWritten: bool)
    : (r: Result<seq<nat>>)
    requires NodeSized(disk, cap)
    ensures pos == 0 ==> r == Ok([])
    ensures pos != 0 && pos >= |disk| ==> r == Err(IoFailure)
    decreases fuel
  {
    if pos == 0 then Ok([])
    else if pos >= |disk| then Err(IoFailure)
    else if fuel == 0 then Err(NotModelled)
    else
      var node := disk[pos];
      var n := FbSize(node);
      var next := CellAt(node, cap);
      if n == 0 && tail == pos then
        if head == tail then Ok([pos])
        else
          var rest :- FreeBlockWalk(disk, cap, tail, head, next, fuel - 1, asWritten);
          if asWritten then Err(Undefined) else Ok([pos] + rest)
      else
        var addrs := Addresses(node, n);
        if pos != head then
          var rest :- FreeBlockWalk(disk, cap, tail, head, next, fuel - 1, asWritten);
          Ok(addrs + rest)
        else Ok(addrs)
  }

  /** The free blocks fsck collects, from fb_tail on, with the corrected
      walk. */
  function FreeBlocks(img: Image): (r: Result<seq<nat>>)
    requires Sized(img)
    ensures img.sb.fbTail == 0 ==> r == Ok([])
    ensures img.sb.fbTail != 0 && img.sb.fbTail >= |img.disk| ==> r == Err(IoFailure)
  {
    FreeBlockWalk(img.disk, Cap(img.sb), img.sb.fbTail, img.sb.fbHead, img.sb.fbTail, |img.disk|, false)
  }

  /** Wherever fsck's walk as written is defined, it collects the same free
      blocks as the corrected walk. */
  lemma FreeBlocksAsWritten(img: Image)
    requires Sized(img)
    ensures var w := FreeBlockWalk(img.disk, Cap(img.sb), img.sb.fbTail, img.sb.fbHead, img.sb.fbTail, |img.disk|, true);
      w.Ok? ==> FreeBlocks(img) == w
  {
    WalkAgrees(img.disk, Cap(img.sb), img.sb.fbTail, img.sb.fbHead, img.sb.fbTail, |img.disk|);
  }

  /** The corrected walk differs from the walk as written only where the
      latter is undefined. */
  lemma {:induction false} WalkAgrees(disk: seq<Bytes>, cap: nat, tail: nat, head: nat, pos: nat, fuel: nat)
    requires NodeSized(disk, cap)
    ensures var w := FreeBlockWalk(disk, cap, tail, head, pos, fuel, true);
      w.Ok? ==> FreeBlockWalk(disk, cap, tail, head, pos, fuel, false) == w
    decreases fuel
  {
    if pos != 0 && pos < |disk| && fuel != 0 {
      WalkAgrees(disk, cap, tail, head, CellAt(disk[pos], cap), fuel - 1);
    }
  }

  /** get_all_free_inodes_rec(res, pos): logic_error at an empty node;
      otherwise the node's filled cells, and the walk goes on at its last
      cell unless pos is inode_tail. */
  function FreeInodeWalk(disk: seq<Bytes>, cap: nat, tail: nat, pos: nat, fuel: nat): (r: Result<seq<nat>>)
    requires NodeSized(disk, cap)
    ensures pos == 0 ==> r == Ok([])
    decreases fuel
  {
    if pos == 0 then Ok([])
    else if pos >= |disk| then Err(IoFailure)
    else if fuel == 0 then Err(NotModelled)
    else
      var node := disk[pos];
      var n := FbSize(node);
      if n == 0 then Err(LogicError)
      else
        var addrs := Addresses(node, n);
        if pos != tail then
          var rest :- FreeInodeWalk(disk, cap, tail, CellAt(node, cap), fuel - 1);
          Ok(addrs + rest)
        else Ok(addrs)
  }

  /** The free inodes fsck collects: the walk starts at inode_tail, so it
      stops after that node, listing the inode numbers of that node only
      (logic_error if it is empty). */
  function FreeInodes(img: Image): (r: Result<seq<nat>>)
    requires Sized(img)
    ensures img.sb.inodeTail == 0 ==> r == Ok([])
    ensures 0 < img.sb.inodeTail < |img.disk| ==>
      var node := img.disk[img.sb.inodeTail];
      && (r.Ok? <==> FbSize(node) > 0)
      && (r.Ok? ==> r.value == Addresses(node, FbSize(node)))
  {
    FreeInodeWalk(img.disk, Cap(img.sb), img.sb.inodeTail, img.sb.inodeTail, |img.disk|)
  }

  // --------------------------------------------------------- counting maps

  /** How often each value occurs in xs: free_map[blk]++ over a list. */
  function Tally(xs: seq<nat>): (r: map<nat, nat>)
    ensures forall k :: k in r <==> k in xs
    ensures forall k | k in r :: r[k] == multiset(xs)[k]
  {
    if xs == [] then map[]
    else
      var m := Tally(xs[..|xs| - 1]);
      var x := xs[|xs| - 1];
      assert xs == xs[..|xs| - 1] + [x];
      m[x := (if x in m then m[x] else 0) + 1]
  }

  /** m[k] = m[k] for every k of keys: std::map's operator[] adds a missing
      key with count 0 and changes no count. */
  function Touch(m: map<nat, nat>, keys: seq<nat>): (r: map<nat, nat>)
    ensures forall k :: k in r <==> k in m || k in keys
    ensures forall k | k in r :: r[k] == if k in m then m[k] else 0
  {
    map k | k in m.Keys + (set x | x in keys) :: if k in m then m[k] else 0
  }

  /** Extending a prefix by one element adds one to that element's count. */
  lemma TallyStep(xs: seq<nat>, i: nat)
    requires i < |xs|
    ensures var m := Tally(xs[..i]);
      Tally(xs[..i + 1]) == m[xs[i] := (if xs[i] in m then m[xs[i]] else 0) + 1]
  {
    assert xs[..i + 1][..i] == xs[..i];
  }

  /** A tally built by a loop, as fsck builds its maps: one increment per
      element, in order. */
  method TallyLoop(xs: seq<nat>) returns (m: map<nat, nat>)
    ensures m == Tally(xs)
  {
    m := map[];
    var i := 0;
    while i < |xs|
      invariant 0 <= i <= |xs|
      invariant m == Tally(xs[..i])
    {
      var x := xs[i];
      TallyStep(xs, i);
      m := m[x := (if x in m then m[x] else 0) + 1];
      i := i + 1;
    }
    assert xs[..|xs|] == xs;
  }

  // ------------------------------------------------ what fsck collects

  /** The walk get_all_occupied_names_blocks makes over the directories
      (inodes with a date and the directory type): it loads each one's
      blocks and counts their entries, so it fails with the first error of
      load_inode_blocks or get_dir_entry_count. The names it records are
      cleared by fsck unused. */
  function ScanDirs(img: Image, i: nat): (r: Result<()>)
    requires Sized(img)
    ensures r.Ok? <==> forall j | i <= j < |img.inodes| && img.inodes[j].time.year != 0 && img.inodes[j].itype == DirType ::
      DirScans(img, img.inodes[j])
    ensures r.Err? ==> r.error in {IoFailure, LogicError}
    decreases |img.inodes| - i
  {
    if i >= |img.inodes| then Ok(())
    else
      var ino := img.inodes[i];
      if ino.time.year != 0 && ino.itype == DirType then
        var w :- InodeBlocks(img, ino);
        var _ :- CountEntries(w.blocks);
        ScanDirs(img, i + 1)
      else ScanDirs(img, i + 1)
  }

  /** A directory whose blocks load and each hold whole entries. */
  predicate DirScans(img: Image, ino: Inode)
    requires Sized(img)
  {
    && InodeBlocks(img, ino).Ok?
    && forall k | 0 <= k < |InodeBlocks(img, ino).value.blocks| :: InodeBlocks(img, ino).value.blocks[k].size % DirEntrySize == 0
  }

  /** get_dir_entry_count of every loaded block. */
  function CountEntries(blocks: seq<Loaded>): (r: Result<()>)
    ensures r.Ok? <==> forall k | 0 <= k < |blocks| :: blocks[k].size % DirEntrySize == 0
    ensures r.Err? ==> r.error == LogicError
  {
    if blocks == [] then Ok(())
    else
      var _ :- DirEntryCount(blocks[0].size);
      var rest := CountEntries(blocks[1..]);
      assert forall k | 1 <= k < |blocks| :: blocks[1..][k - 1] == blocks[k];
      rest
  }

  /** The blocks each inode with a date occupies, inode by inode: blk_map's
      lists, concatenated in key order. A block is listed exactly when some
      dated inode from i on occupies it. */
  function OccupiedFrom(img: Image, i: nat): (r: Result<seq<nat>>)
    requires Sized(img)
    ensures r.Ok? ==> forall b :: b in r.value <==>
      exists j | i <= j < |img.inodes| :: img.inodes[j].time.year != 0 && OccupiedBlocks(img, j).Ok? && b in OccupiedBlocks(img, j).value
    decreases |img.inodes| - i
  {
    if i >= |img.inodes| then Ok([])
    else if img.inodes[i].time.year == 0 then OccupiedFrom(img, i + 1)
    else
      var own :- OccupiedBlocks(img, i);
      var rest :- OccupiedFrom(img, i + 1);
      Ok(own + rest)
  }

  /** The four maps fsck prints: per block address, its count in the free
      list and among the occupied blocks; per inode number, its count in the
      free-inode list and 1 when the inode is in use. */
  datatype Tallies = Tallies(freeMap: map<nat, nat>, fullMap: map<nat, nat>,
    freeInodes: map<nat, nat>, fullInodes: map<nat, nat>)

  /** m counts xs and has a key for every value of xs and of keys: the
      shape of each map fsck builds by incrementing over one list and then
      touching the values of another. */
  ghost predicate CountsOf(m: map<nat, nat>, xs: seq<nat>, keys: seq<nat>) {
    && (forall k :: k in m <==> k in xs || k in keys)
    && (forall k | k in m :: m[k] == multiset(xs)[k])
  }

  /** A tally touched with more keys still counts its list. */
  lemma TouchedTally(xs: seq<nat>, keys: seq<nat>)
    ensures CountsOf(Touch(Tally(xs), keys), xs, keys)
  {
    var m := Touch(Tally(xs), keys);
    forall k | k in m ensures m[k] == multiset(xs)[k] {
      if k !in xs { assert multiset(xs)[k] == 0; }
    }
  }

  /** The inode numbers 0 .. n - 1. */
  function Numbers(n: nat): (r: seq<nat>)
    ensures |r| == n && forall k | 0 <= k < n :: r[k] == k
    ensures forall k: nat :: k in r <==> k < n
  {
    var r := seq(n, k => k);
    forall k: nat | k < n ensures k in r { assert r[k] == k; }
    r
  }

  /** The maps built from the three lists fsck collects. */
  function BuildTallies(img: Image, fblocks: seq<nat>, oblocks: seq<nat>, flist: seq<nat>): (t: Tallies)
    requires Sized(img)
    ensures CountsOf(t.freeMap, fblocks, oblocks)
    ensures CountsOf(t.fullMap, oblocks, fblocks)
    ensures CountsOf(t.freeInodes, flist, Numbers(img.sb.inodeCount))
    ensures forall i: nat :: i in t.fullInodes <==> i < img.sb.inodeCount
    ensures forall i | i in t.fullInodes :: t.fullInodes[i] == if img.inodes[i].itype != EmptyType then 1 else 0
  {
    TouchedTally(fblocks, oblocks);
    TouchedTally(oblocks, fblocks);
    TouchedTally(flist, Numbers(img.sb.inodeCount));
    Tallies(Touch(Tally(fblocks), oblocks), Touch(Tally(oblocks), fblocks),
      Touch(Tally(flist), Numbers(img.sb.inodeCount)),
      map i | 0 <= i < img.sb.inodeCount :: if img.inodes[i].itype != EmptyType then 1 else 0)
  }

  /** fsck's maps. Both block maps have the same keys, the blocks that are
      free or occupied; each counts its own list. The free-inode map counts
      the free-inode list over every inode number; the in-use map is 1 for
      exactly the inodes with a type. */
  function RunFsck(img: Image): (r: Result<Tallies>)
    requires Sized(img)
    ensures r.Ok? ==> FreeBlocks(img).Ok? && ScanDirs(img, 0).Ok? && OccupiedFrom(img, 0).Ok? && FreeInodes(img).Ok?
    ensures r.Ok? ==>
      && CountsOf(r.value.freeMap, FreeBlocks(img).value, OccupiedFrom(img, 0).value)
      && CountsOf(r.value.fullMap, OccupiedFrom(img, 0).value, FreeBlocks(img).value)
      && CountsOf(r.value.freeInodes, FreeInodes(img).value, Numbers(img.sb.inodeCount))
    ensures r.Ok? ==>
      && (forall i: nat :: i in r.value.fullInodes <==> i < img.sb.inodeCount)
      && (forall i | i in r.value.fullInodes :: r.value.fullInodes[i] == if img.inodes[i].itype != EmptyType then 1 else 0)
  {
    var fblocks :- FreeBlocks(img);
    var _ :- ScanDirs(img, 0);
    var oblocks :- OccupiedFrom(img, 0);
    var flist :- FreeInodes(img);
    Ok(BuildTallies(img, fblocks, oblocks, flist))
  }

  // ------------------------------------------------------------ properties

  /** A cell below 0x8000 reads the same signed and unsigned. */
  lemma CellAtSmall(arr: Bytes, k: nat)
    requires 2 * k + 2 <= |arr| && CellValue(arr, k) < 0x8000
    ensures CellAt(arr, k) == CellValue(arr, k)
  {
  }

  /** Every address of a list holds below 0x8000, so get_address reads it
      unchanged. */
  predicate SmallEntries(xs: seq<U16>) {
    forall k | 0 <= k < |xs| :: xs[k] < 0x8000
  }

  /** Both halves of a list of small addresses are small. */
  lemma SmallSplit(xs: seq<U16>, ys: seq<U16>)
    requires SmallEntries(xs + ys)
    ensures SmallEntries(xs) && SmallEntries(ys)
  {
    assert forall k | 0 <= k < |ys| :: ys[k] == (xs + ys)[|xs| + k];
    assert forall k | 0 <= k < |xs| :: xs[k] == (xs + ys)[k];
  }

  /** A node whose entries are small reads them back through get_address. */
  lemma SmallNodeAddresses(node: Bytes)
    requires |node| >= 2 && SmallEntries(NodeEntries(node))
    ensures Addresses(node, FbSize(node)) == NodeEntries(node)
  {
    var own := NodeEntries(node);
    forall k | 0 <= k < FbSize(node) ensures CellAt(node, k) == own[k] {
      CellAtSmall(node, k);
    }
  }

  /** On a run of free-list nodes b .. head, each naming the next in its last
      cell and all holding addresses below 0x8000, the walk from b lists the
      nodes' entries in block order, as written and corrected alike (an empty
      node that is not the tail is skipped). */
  lemma {:induction false} WalkConsecutive(disk: seq<Bytes>, cap: nat, tail: nat, head: nat, b: nat, fuel: nat, asWritten: bool)
    requires NodeSized(disk, cap)
    requires 1 <= tail <= b <= head < |disk| && head < 0x8000 && fuel > head - b
    requires b == tail ==> FbSize(disk[b]) > 0
    requires forall i | b <= i < head :: CellValue(disk[i], cap) == i + 1
    requires SmallEntries(ListEntries(disk, b, head + 1))
    ensures FreeBlockWalk(disk, cap, tail, head, b, fuel, asWritten).Ok?
    ensures FreeBlockWalk(disk, cap, tail, head, b, fuel, asWritten).value == ListEntries(disk, b, head + 1)
    decreases head - b
  {
    var node := disk[b];
    var rest := ListEntries(disk, b + 1, head + 1);
    assert ListEntries(disk, b, head + 1) == NodeEntries(node) + rest;
    SmallSplit(NodeEntries(node), rest);
    SmallNodeAddresses(node);
    if b != head {
      CellAtSmall(node, cap);
      WalkConsecutive(disk, cap, tail, head, b + 1, fuel - 1, asWritten);
    }
  }

  /** A well-linked free-block list whose nodes list lo .. stop - 1 in
      order: fsck's walk from fb_tail lists exactly those. */
  lemma WalkListsRange(img: Image, lo: nat, stop: nat)
    requires Sized(img)
    requires 1 <= img.sb.fbTail <= img.sb.fbHead < |img.disk| && img.sb.fbHead < 0x8000 && stop < 0x8000
    requires FbSize(img.disk[img.sb.fbTail]) > 0
    requires forall i | img.sb.fbTail <= i < img.sb.fbHead :: CellValue(img.disk[i], Cap(img.sb)) == i + 1
    requires ListEntries(img.disk, img.sb.fbTail, img.sb.fbHead + 1) == Range(lo, stop)
    ensures FreeBlocks(img) == Ok(Range(lo, stop))
  {
    var sb := img.sb;
    WalkConsecutive(img.disk, Cap(sb), sb.fbTail, sb.fbHead, sb.fbTail, |img.disk|, false);
    var expected: seq<nat> := Range(lo, stop);
    assert FreeBlocks(img).value == expected;
  }

  /** Right after create_file, fsck's free-block walk lists exactly the free
      blocks root + 1 .. fb_tail - 1, each once and in order. */
  lemma FreshFreeBlocks(img: Image)
    requires Sized(img) && WellFormedLayout(img.sb) && img.disk == CreateFile(img.sb)
    ensures FreeBlocks(img) == Ok(Range(img.sb.rootDirAddress + 1, img.sb.fbTail))
  {
    FreshFreeList(img.sb);
    WalkListsRange(img, img.sb.rootDirAddress + 1, img.sb.fbTail);
  }

  /** The facts about create_file's free-block list that the walk needs. */
  lemma FreshFreeList(sb: Superblock)
    requires WellFormedLayout(sb)
    ensures var disk := CreateFile(sb);
      && 1 <= sb.fbTail <= sb.fbHead < |disk| && sb.fbHead < 0x8000
      && FbSize(disk[sb.fbTail]) > 0
      && (forall i | sb.fbTail <= i < sb.fbHead :: CellValue(disk[i], Cap(sb)) == i + 1)
      && ListEntries(disk, sb.fbTail, sb.fbHead + 1) == Range(sb.rootDirAddress + 1, sb.fbTail)
  {
    InitialFreeBlockList(sb);
    FreeNodeOnDisk(sb, sb.fbTail, Offset(sb.rootDirAddress + 1, 0, Cap(sb)), Cap(sb), sb.rootDirAddress, sb.fbTail, sb.fbHead);
    assert |NodeEntries(CreateFile(sb)[sb.fbTail])| > 0;
  }

  /** Once get_free_block has emptied the tail node (and it is not also the
      head), fsck's walk as written reads the released node and is
      undefined, whatever the rest of the list holds; corrected, it lists
      the tail node itself followed by the rest of the list. */
  lemma EmptyTailWalk(disk: seq<Bytes>, cap: nat, tail: nat, head: nat, fuel: nat)
    requires NodeSized(disk, cap) && 1 <= tail < |disk| && head != tail && fuel >= 1
    requires FbSize(disk[tail]) == 0
    ensures FreeBlockWalk(disk, cap, tail, head, tail, fuel, true).Err?
    ensures var rest := FreeBlockWalk(disk, cap, tail, head, CellAt(disk[tail], cap), fuel - 1, false);
      && (rest.Ok? ==> FreeBlockWalk(disk, cap, tail, head, tail, fuel, false) == Ok([tail] + rest.value))
      && (rest.Err? ==> FreeBlockWalk(disk, cap, tail, head, tail, fuel, false) == rest)
  {
  }

  // ------------------------------------------------- a freshly made system

  /** Inodes from i on that were never dated add no blocks and no
      directories. */
  lemma {:induction false} UndatedFrom(img: Image, i: nat)
    requires Sized(img)
    requires forall j | i <= j < |img.inodes| :: img.inodes[j].time.year == 0
    ensures OccupiedFrom(img, i) == Ok([])
    ensures ScanDirs(img, i) == Ok(())
    decreases |img.inodes| - i
  {
    if i < |img.inodes| {
      UndatedFrom(img, i + 1);
    }
  }

  /** A directory of two entries whose one block is block r, as create_file
      leaves the root: it occupies block r alone, and the scan of its block
      counts two entries. */
  lemma TwoEntryDirectory(img: Image, index: nat, r: nat)
    requires Sized(img) && index < |img.inodes| && 0 < r < |img.disk|
    requires img.inodes[index].size == 2 * DirEntrySize && img.inodes[index].ba == [r, 0, 0, 0, 0]
    ensures OccupiedBlocks(img, index) == Ok([r])
    ensures InodeBlocks(img, img.inodes[index]).Ok?
    ensures CountEntries(InodeBlocks(img, img.inodes[index]).value.blocks) == Ok(())
  {
    var ino := img.inodes[index];
    assert FirstZeroDirect(ino.ba) == 1;
    assert ino.ba[..1] == [r];
    CeilDivUnique(16, BlockBytes(img.sb), 1);
    var w := InodeBlocks(img, ino);
    assert w.Ok? && |w.value.blocks| == 1 && w.value.blocks[0].size == 16;
  }

  /** Only the first inode dated: fsck sees its blocks alone, and scans its
      directory alone. */
  lemma OnlyFirstDated(img: Image, r: nat)
    requires Sized(img) && |img.inodes| >= 1 && img.inodes[0].time.year != 0
    requires OccupiedBlocks(img, 0) == Ok([r]) && OccupiedFrom(img, 1) == Ok([])
    requires ScanDirs(img, 1) == Ok(()) && img.inodes[0].itype == DirType
    requires InodeBlocks(img, img.inodes[0]).Ok?
    requires CountEntries(InodeBlocks(img, img.inodes[0]).value.blocks) == Ok(())
    ensures OccupiedFrom(img, 0) == Ok([r])
    ensures ScanDirs(img, 0) == Ok(())
  {
    assert [r] + [] == [r];
  }

  /** After construction only the root directory is dated: it occupies its
      one block, and its 16 bytes count as two entries. */
  lemma FreshOccupied(img: Image, now: Clock)
    requires Sized(img) && WellFormedLayout(img.sb) && img.disk == CreateFile(img.sb)
    requires img.inodes == InitialInodes(img.sb, now)
    ensures OccupiedFrom(img, 0) == Ok([img.sb.rootDirAddress])
    ensures ScanDirs(img, 0) == Ok(())
  {
    var sb := img.sb;
    assert img.inodes[0] == Inode(now, 2 * DirEntrySize, DirType, 1, [sb.rootDirAddress, 0, 0, 0, 0], 0, 0, 0);
    assert forall j | 1 <= j < |img.inodes| :: img.inodes[j] == ZeroInode;
    ZeroInodeIsEmpty();
    UndatedFrom(img, 1);
    TwoEntryDirectory(img, 0, sb.rootDirAddress);
    OnlyFirstDated(img, sb.rootDirAddress);
  }

  /** The last free-inode node create_file writes is not empty: the inode
      numbers fill the nodes from inode_head on, and the last node holds at
      least one of them. */
  lemma FreshInodeTail(sb: Superblock)
    requires WellFormedLayout(sb)
    ensures sb.inodeTail < |CreateFile(sb)| && FbSize(CreateFile(sb)[sb.inodeTail]) > 0
  {
    var cap := Cap(sb);
    var k: nat := sb.inodeTail - sb.inodeHead;
    var lo := Offset(1, k, cap);
    OffsetIs(1, k, cap);
    assert lo < sb.freeInodeCount + 1;
    InodeNodeOnDisk(sb, sb.inodeTail, lo, cap, sb.freeInodeCount, sb.inodeHead, sb.rootDirAddress);
    assert |NodeEntries(CreateFile(sb)[sb.inodeTail])| > 0;
  }

  /** A range holds each of its values once. */
  lemma {:induction false} RangeOnce(lo: int, hi: int, b: int)
    requires lo <= b < hi
    ensures multiset(Range(lo, hi))[b] == 1
    decreases hi - lo
  {
    assert Range(lo, hi) == [lo] + Range(lo + 1, hi);
    if b == lo {
      assert b !in Range(lo + 1, hi);
    } else {
      RangeOnce(lo + 1, hi, b);
    }
  }

  /** What fsck reports for a consistent fresh system with the root
      directory in block root and the free blocks root + 1 .. tail - 1: each
      free block once free and never occupied, the root block once occupied
      and never free, no other block, and inode 0 alone in use among n. */
  ghost predicate FreshReport(t: Tallies, root: nat, tail: nat, n: nat) {
    BlockReport(t, root, tail) && InodeReport(t, n)
  }

  /** The block half of FreshReport. */
  ghost predicate BlockReport(t: Tallies, root: nat, tail: nat) {
    && (forall b: nat :: b in t.freeMap <==> root <= b < tail)
    && (forall b: nat :: b in t.fullMap <==> root <= b < tail)
    && (forall b | root < b < tail :: t.freeMap[b] == 1 && t.fullMap[b] == 0)
    && (tail > root ==> t.freeMap[root] == 0 && t.fullMap[root] == 1)
  }

  /** The inode half of FreshReport. */
  ghost predicate InodeReport(t: Tallies, n: nat) {
    && (forall i: nat :: i in t.fullInodes <==> i < n)
    && (n >= 1 ==> t.fullInodes[0] == 1)
    && (forall i | 1 <= i < n :: t.fullInodes[i] == 0)
  }

  /** The block maps of a fresh system, from the two lists fsck collects. */
  lemma FreshBlockMaps(t: Tallies, root: nat, tail: nat, fb: seq<nat>, ob: seq<nat>)
    requires root < tail && fb == Range(root + 1, tail) && ob == [root]
    requires CountsOf(t.freeMap, fb, ob)
    requires CountsOf(t.fullMap, ob, fb)
    ensures BlockReport(t, root, tail)
  {
    RangeMembers(root + 1, tail, fb);
    RangeCounts(root + 1, tail, fb);
    FreeMapShape(t.freeMap, root, tail, fb, ob);
    FullMapShape(t.fullMap, root, tail, fb, ob);
  }

  /** The keys of a range are exactly the numbers it spans. */
  lemma RangeMembers(lo: nat, hi: nat, r: seq<nat>)
    requires r == Range(lo, hi)
    ensures forall k: nat :: k in r <==> lo <= k < hi
  {
    forall k: nat | lo <= k < hi ensures k in r {
      assert r[k - lo] == k;
    }
  }

  /** A range holds each number it spans once. */
  lemma RangeCounts(lo: nat, hi: nat, r: seq<nat>)
    requires r == Range(lo, hi)
    ensures forall k: nat | lo <= k < hi :: multiset(r)[k] == 1
  {
    forall k: nat | lo <= k < hi ensures multiset(r)[k] == 1 {
      RangeOnce(lo, hi, k);
    }
  }

  /** The free tally of a fresh system: each free block once, the root
      block as a key counted zero times. */
  lemma FreeMapShape(m: map<nat, nat>, root: nat, tail: nat, fb: seq<nat>, ob: seq<nat>)
    requires root < tail && ob == [root]
    requires forall k: nat :: k in fb <==> root < k < tail
    requires forall k: nat | root < k < tail :: multiset(fb)[k] == 1
    requires CountsOf(m, fb, ob)
    ensures forall b: nat :: b in m <==> root <= b < tail
    ensures forall b | root < b < tail :: m[b] == 1
    ensures m[root] == 0
  {
    assert root !in fb;
  }

  /** The occupied tally of a fresh system: the root block once, each free
      block as a key counted zero times. */
  lemma FullMapShape(m: map<nat, nat>, root: nat, tail: nat, fb: seq<nat>, ob: seq<nat>)
    requires root < tail && ob == [root]
    requires forall k: nat :: k in fb <==> root < k < tail
    requires CountsOf(m, ob, fb)
    ensures forall b: nat :: b in m <==> root <= b < tail
    ensures forall b | root < b < tail :: m[b] == 0
    ensures m[root] == 1
  {
  }

  /** fsck succeeds once each of its four collections does. */
  lemma RunFsckOk(img: Image, fb: seq<nat>, ob: seq<nat>)
    requires Sized(img) && FreeBlocks(img) == Ok(fb) && ScanDirs(img, 0) == Ok(())
    requires OccupiedFrom(img, 0) == Ok(ob) && FreeInodes(img).Ok?
    ensures RunFsck(img).Ok?
  {
  }

  /** The inode table create_file's constructor leaves: the root directory
      and empty inodes. */
  lemma FreshInodeTypes(img: Image, now: Clock)
    requires WellFormedLayout(img.sb) && img.inodes == InitialInodes(img.sb, now)
    ensures |img.inodes| == img.sb.inodeCount >= 2
    ensures img.inodes[0].itype == DirType
    ensures forall i | 1 <= i < |img.inodes| :: img.inodes[i].itype == EmptyType
  {
  }

  /** fsck on a system create_file has just written: the free blocks, the
      root directory's block and the tail free-inode node are what it
      collects. */
  lemma FreshTallies(img: Image, now: Clock, root: nat, tail: nat, fb: seq<nat>, ob: seq<nat>)
    requires Sized(img) && WellFormedLayout(img.sb) && img.disk == CreateFile(img.sb)
    requires img.inodes == InitialInodes(img.sb, now)
    requires root == img.sb.rootDirAddress && tail == img.sb.fbTail
    requires fb == Range(root + 1, tail) && ob == [root]
    ensures FreeBlocks(img) == Ok(fb) && OccupiedFrom(img, 0) == Ok(ob)
    ensures RunFsck(img).Ok?
  {
    var sb := img.sb;
    FreshFreeBlocks(img);
    FreshOccupied(img, now);
    FreshInodeTail(sb);
    RunFsckOk(img, fb, ob);
  }

  /** fsck's block maps when it listed the free blocks root + 1 .. tail - 1
      and the root block as occupied. */
  lemma ReportedBlocks(img: Image, root: nat, tail: nat, fb: seq<nat>, ob: seq<nat>)
    requires Sized(img) && root < tail && fb == Range(root + 1, tail) && ob == [root]
    requires RunFsck(img).Ok? && FreeBlocks(img) == Ok(fb) && OccupiedFrom(img, 0) == Ok(ob)
    ensures BlockReport(RunFsck(img).value, root, tail)
  {
    FreshBlockMaps(RunFsck(img).value, root, tail, fb, ob);
  }

  /** fsck's inode maps when only inode 0 has a type. */
  lemma ReportedInodes(img: Image)
    requires Sized(img) && RunFsck(img).Ok? && |img.inodes| >= 1 && img.inodes[0].itype == DirType
    requires forall i | 1 <= i < |img.inodes| :: img.inodes[i].itype == EmptyType
    ensures InodeReport(RunFsck(img).value, img.sb.inodeCount)
  {
  }

  /** A system as the constructor and create_file leave it. */
  ghost predicate Fresh(img: Image, now: Clock) {
    && Sized(img) && WellFormedLayout(img.sb)
    && img.disk == CreateFile(img.sb) && img.inodes == InitialInodes(img.sb, now)
  }

  /** Every system Format makes is fresh. */
  lemma FormatIsFresh(bs: nat, n: nat, now: Clock, img: Image)
    requires 1 <= bs <= 512 && 1 <= n < 0x1_0000 && Format(bs, n, now) == Ok(img)
    ensures Fresh(img, now) && img.sb.inodeCount == n
  {
  }

  /** fsck on a freshly made file system succeeds and finds it consistent. */
  lemma FreshFsck(img: Image, now: Clock)
    requires Fresh(img, now)
    ensures RunFsck(img).Ok?
    ensures FreshReport(RunFsck(img).value, img.sb.rootDirAddress, img.sb.fbTail, img.sb.inodeCount)
  {
    var root: nat, tail: nat := img.sb.rootDirAddress, img.sb.fbTail;
    var fb: seq<nat>, ob: seq<nat> := Range(root + 1, tail), [root];
    FreshTallies(img, now, root, tail, fb, ob);
    FreshInodeTypes(img, now);
    ReportedBlocks(img, root, tail, fb, ob);
    ReportedInodes(img);
  }
}
