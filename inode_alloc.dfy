/** The inode operations: init_inode, empty_inode_blocks, clear_inode and
    the free-inode allocator get_free_inode / put_free_inode. The free-inode
    list is a chain of list nodes like the free-block list; inode_tail is the
    node that gives and takes inode numbers. */
module InodeAlloc {
  import opened Types
  import opened BlockCodec
  import opened Layout
  import opened BlockAlloc
  import opened Walks

  /** Adding k to a number already cut to 16 bits and cutting again. */
  lemma ToU16Add(a: int, k: int)
    ensures ToU16(ToU16(a) + k) == ToU16(a + k)
  {
    var q := a / 0x1_0000;
    assert a == q * 0x1_0000 + ToU16(a);
    assert a + k == q * 0x1_0000 + (ToU16(a) + k);
  }

  /** init_inode(i) with the clock reading now: every field 0 but the time. */
  function InitInode(img: Image, i: nat, now: Clock): (r: Result<Image>)
    ensures i >= |img.inodes| <==> r == Err(Undefined)
    ensures r.Ok? ==>
      && r.value.sb == img.sb && r.value.disk == img.disk
      && |r.value.inodes| == |img.inodes|
      && IsEmptyInode(r.value.inodes[i]) && r.value.inodes[i].time == now
      && forall j | 0 <= j < |img.inodes| && j != i :: r.value.inodes[j] == img.inodes[j]
  {
    if i >= |img.inodes| then Err(Undefined)
    else Ok(img.(inodes := img.inodes[i := Inode(now, 0, EmptyType, 0, NoDirect, 0, 0, 0)]))
  }

  /** put_free_block for each number in order (each cut to 16 bits, as the
      uint16_t parameter does). fb_count grows by the count of numbers;
      fb_head and every other superblock field but fb_tail stay. */
  function PutFreeBlocks(img: Image, bnos: seq<nat>): (r: Result<Image>)
    requires Sized(img)
    ensures r.Ok? ==> Sized(r.value) && r.value.inodes == img.inodes && |r.value.disk| == |img.disk|
    ensures r.Ok? ==> r.value.sb == img.sb.(fbCount := ToU16(img.sb.fbCount + |bnos|), fbTail := r.value.sb.fbTail)
    ensures r.Err? ==> r.error == IoFailure
    decreases |bnos|
  {
    if bnos == [] then Ok(img)
    else
      var img1 :- PutFreeBlock(img, ToU16(bnos[0]));
      var r := PutFreeBlocks(img1, bnos[1..]);
      ToU16Add(img.sb.fbCount + 1, |bnos| - 1);
      r
  }

  /** empty_inode_blocks(index): every block load_occupied_inode_blocks lists
      goes back to the free-block list, and all block pointers become 0. */
  function EmptyInodeBlocks(img: Image, index: nat): (r: Result<Image>)
    requires Sized(img)
    ensures index >= |img.inodes| ==> r == Err(Undefined)
    ensures r.Ok? ==> Sized(r.value) && |r.value.inodes| == |img.inodes| && |r.value.disk| == |img.disk|
    ensures r.Ok? ==> var ino := img.inodes[index];
      && r.value.inodes[index] == ino.(ba := NoDirect, si := 0, di := 0, ti := 0)
      && (forall j | 0 <= j < |img.inodes| && j != index :: r.value.inodes[j] == img.inodes[j])
    ensures r.Ok? ==> OccupiedBlocks(img, index).Ok?
    ensures r.Ok? ==> r.value.sb == img.sb.(
      fbCount := ToU16(img.sb.fbCount + |OccupiedBlocks(img, index).value|), fbTail := r.value.sb.fbTail)
    ensures r.Err? ==> r.error in {Undefined, IoFailure}
  {
    var blocks :- OccupiedBlocks(img, index);
    var img1 :- PutFreeBlocks(img, blocks);
    var ino := img1.inodes[index];
    Ok(img1.(inodes := img1.inodes[index := ino.(ba := NoDirect, si := 0, di := 0, ti := 0)]))
  }

  /** The inode clear_inode leaves: no blocks, size 0, type empty, date
      0, no links; the time of day is kept. */
  function Cleared(ino: Inode): (r: Inode)
    ensures IsEmptyInode(r) && r.time.year == 0
  {
    ino.(ba := NoDirect, si := 0, di := 0, ti := 0, size := 0, itype := EmptyType,
      time := ino.time.(day := 0, month := 0, year := 0), linkCount := 0)
  }

  /** clear_inode(index): empty_inode_blocks, then the inode is empty. */
  function ClearInode(img: Image, index: nat): (r: Result<Image>)
    requires Sized(img)
    ensures index >= |img.inodes| ==> r == Err(Undefined)
    ensures r.Ok? ==> Sized(r.value) && |r.value.inodes| == |img.inodes| && |r.value.disk| == |img.disk|
    ensures r.Ok? ==>
      && IsEmptyInode(r.value.inodes[index]) && r.value.inodes[index].time.year == 0
      && r.value.inodes[index] == Cleared(img.inodes[index])
      && (forall j | 0 <= j < |img.inodes| && j != index :: r.value.inodes[j] == img.inodes[j])
    ensures r.Ok? ==> OccupiedBlocks(img, index).Ok?
    ensures r.Ok? ==> r.value.sb == img.sb.(
      fbCount := ToU16(img.sb.fbCount + |OccupiedBlocks(img, index).value|), fbTail := r.value.sb.fbTail)
    ensures r.Err? ==> r.error in {Undefined, IoFailure}
  {
    var img1 :- EmptyInodeBlocks(img, index);
    Ok(img1.(inodes := img1.inodes[index := Cleared(img.inodes[index])]))
  }

  /** A cleared inode holds no blocks, so clearing it again changes nothing. */
  lemma ClearInodeIdempotent(img: Image, index: nat)
    requires Sized(img) && ClearInode(img, index).Ok?
    ensures ClearInode(ClearInode(img, index).value, index) == ClearInode(img, index)
  {
    var c := ClearInode(img, index).value;
    assert OccupiedBlocks(c, index) == Ok([]);
    assert c.inodes[index := Cleared(c.inodes[index])] == c.inodes;
  }

  // ------------------------------------------------------------ get_free_inode

  /** get_free_inode, with the pop sized by the tail node's own count of
      entries: runtime_error when no inode is free; otherwise the tail node
      gives its last entry and free_inode_count drops by one. The branch for
      an empty tail node is not modelled. */
  function GetFreeInode(img: Image): (r: Result<Done<U16>>)
    requires Sized(img)
    ensures img.sb.freeInodeCount == 0 <==> r == Err(RuntimeError)
    ensures r.Err? ==> r.error in {RuntimeError, IoFailure, NotModelled}
    ensures r.Ok? ==>
      && Sized(r.value.img) && r.value.img.inodes == img.inodes
      && r.value.img.sb == img.sb.(freeInodeCount := img.sb.freeInodeCount - 1)
      && |r.value.img.disk| == |img.disk|
  {
    var sb := img.sb;
    if sb.freeInodeCount == 0 then Err(RuntimeError)
    else
      var node :- LoadBlock(img, sb.inodeTail);
      var n := FbSize(node);
      if n == 0 then Err(NotModelled)
      else
        var p := Pop(node, 2 * n).value;
        Ok(Done(img.(sb := sb.(freeInodeCount := sb.freeInodeCount - 1),
          disk := img.disk[sb.inodeTail := p.arr]), ToU16(p.value)))
  }

  /** What get_free_inode takes: the last entry of the tail node, which keeps
      the others in order (a stack); no other block changes. */
  lemma GetFreeInodeTakesLast(img: Image)
    requires Sized(img) && GetFreeInode(img).Ok?
    ensures var t := img.disk[img.sb.inodeTail];
      var r := GetFreeInode(img).value;
      var n := FbSize(t);
      && n > 0 && r.value == NodeEntries(t)[n - 1]
      && r.img.disk[img.sb.inodeTail] == WithCell(t, n - 1, 0)
      && NodeEntries(r.img.disk[img.sb.inodeTail]) == NodeEntries(t)[..n - 1]
      && (forall b | 0 <= b < |img.disk| && b != img.sb.inodeTail :: r.img.disk[b] == img.disk[b])
  {
    var t := img.disk[img.sb.inodeTail];
    var n := FbSize(t);
    var p := Pop(t, 2 * n).value;
    assert p.arr == WithCell(t, n - 1, 0);
    assert p.value % 0x1_0000 == CellValue(t, n - 1);
    PopEntry(t);
  }

  /** get_free_inode as written: the pop is sized free_inode_count * 2 mod
      (block_size_byte - 2), which is 0 when the count is a multiple of
      node_cap, and the pop then throws invalid_argument. */
  function GetFreeInodeAsWritten(img: Image): (r: Result<Done<U16>>)
    requires Sized(img)
    ensures img.sb.freeInodeCount == 0 <==> r == Err(RuntimeError)
  {
    var sb := img.sb;
    if sb.freeInodeCount == 0 then Err(RuntimeError)
    else
      var tailSize := (sb.freeInodeCount * 2) % (BlockBytes(sb) - 2);
      var node :- LoadBlock(img, sb.inodeTail);
      var n := FbSize(node);
      if n == 0 then Err(NotModelled)
      else
        var p :- Pop(node, tailSize);
        Ok(Done(img.(sb := sb.(freeInodeCount := sb.freeInodeCount - 1),
          disk := img.disk[sb.inodeTail := p.arr]), ToU16(p.value)))
  }

  lemma ModOf(x: nat, q: nat, m: nat, r: nat)
    requires m >= 1 && r < m && x == q * m + r
    ensures x % m == r
  {
    var q2 := x / m;
    assert x == q2 * m + x % m;
    if q2 > q {
      MulLe(q + 1, q2, m);
    } else if q2 < q {
      MulLe(q2 + 1, q, m);
    }
  }

  lemma PopSize(fic: nat, cap: nat, n: nat)
    requires cap >= 1 && fic % cap == n
    ensures (fic * 2) % (2 * cap) == 2 * n
  {
    var q := fic / cap;
    assert fic == q * cap + n;
    assert q * (2 * cap) == 2 * (q * cap);
    ModOf(fic * 2, q, 2 * cap, 2 * n);
  }

  /** When the tail node holds free_inode_count mod node_cap entries, and
      that is not 0, the pop as written is the pop by the node's count. */
  lemma GetFreeInodeAgrees(img: Image)
    requires Sized(img) && img.sb.inodeTail < |img.disk|
    requires img.sb.freeInodeCount % Cap(img.sb) == FbSize(img.disk[img.sb.inodeTail])
    ensures GetFreeInodeAsWritten(img) == GetFreeInode(img)
  {
    PopSize(img.sb.freeInodeCount, Cap(img.sb), FbSize(img.disk[img.sb.inodeTail]));
    assert BlockBytes(img.sb) - 2 == 2 * Cap(img.sb);
  }

  /** When free_inode_count is a multiple of node_cap and the tail node has
      entries, get_free_inode as written throws although inodes are free. */
  lemma GetFreeInodeFailsOnFullTail(img: Image)
    requires Sized(img) && img.sb.inodeTail < |img.disk|
    requires img.sb.freeInodeCount != 0 && img.sb.freeInodeCount % Cap(img.sb) == 0
    requires FbSize(img.disk[img.sb.inodeTail]) > 0
    ensures GetFreeInodeAsWritten(img) == Err(InvalidArgument)
    ensures GetFreeInode(img).Ok?
  {
    PopSize(img.sb.freeInodeCount, Cap(img.sb), 0);
    assert BlockBytes(img.sb) - 2 == 2 * Cap(img.sb);
  }

  // ------------------------------------------------------------ put_free_inode

  /** The list half of put_free_inode(index). A tail node with room takes
      index as its last entry. A full tail node stays as it is: a block from
      get_free_block becomes the tail, its last cell links to the old tail and
      its first cell holds index; the block is not cleared first. */
  function PushFreeInode(img: Image, index: U16): (r: Result<Image>)
    requires Sized(img)
    ensures r.Ok? ==> Sized(r.value) && r.value.inodes == img.inodes && |r.value.disk| == |img.disk|
    ensures r.Ok? ==> r.value.sb.freeInodeCount == img.sb.freeInodeCount
    ensures r.Err? ==> r.error in {IoFailure, LengthError}
  {
    var sb := img.sb;
    var node :- LoadBlock(img, sb.inodeTail);
    var n := FbSize(node);
    if n == Cap(sb) then
      var g :- GetFreeBlock(img);
      var newTail := g.value;
      var blk :- LoadBlock(g.img, newTail);
      Ok(g.img.(sb := g.img.sb.(inodeTail := newTail),
        disk := g.img.disk[newTail := WithCell(WithCell(blk, Cap(sb), sb.inodeTail), 0, index)]))
    else
      Ok(img.(disk := img.disk[sb.inodeTail := Push(node, 2 * n, index).arr]))
  }

  /** Into a tail node with room, index goes into the next cell, and nothing
      else changes. */
  lemma PushFreeInodeRoom(img: Image, index: U16)
    requires Sized(img) && PushFreeInode(img, index).Ok?
    ensures img.sb.inodeTail < |img.disk|
    ensures FbSize(img.disk[img.sb.inodeTail]) < Cap(img.sb) ==>
      var r := PushFreeInode(img, index).value;
      var t, u := img.disk[img.sb.inodeTail], r.disk[img.sb.inodeTail];
      && r.sb == img.sb
      && CellValue(u, FbSize(t)) == index
      && (forall c | 0 <= c <= Cap(img.sb) && c != FbSize(t) :: CellValue(u, c) == CellValue(t, c))
      && forall b | 0 <= b < |img.disk| && b != img.sb.inodeTail :: r.disk[b] == img.disk[b]
  {
  }

  /** From a full tail node, the block get_free_block hands out becomes the
      tail: its last cell links the old tail and its first cell holds index,
      while its other cells keep whatever the block held before. */
  lemma PushFreeInodeFull(img: Image, index: U16)
    requires Sized(img) && PushFreeInode(img, index).Ok?
    ensures img.sb.inodeTail < |img.disk|
    ensures FbSize(img.disk[img.sb.inodeTail]) == Cap(img.sb) ==>
      && GetFreeBlock(img).Ok?
      && var r := PushFreeInode(img, index).value;
      var g := GetFreeBlock(img).value;
      && g.value < |g.img.disk| == |img.disk|
      && r.sb == g.img.sb.(inodeTail := g.value)
      && var u := r.disk[g.value];
      && CellValue(u, Cap(img.sb)) == img.sb.inodeTail
      && CellValue(u, 0) == index
      && (forall c | 0 < c < Cap(img.sb) :: CellValue(u, c) == CellValue(g.img.disk[g.value], c))
      && forall b | 0 <= b < |img.disk| && b != g.value :: r.disk[b] == g.img.disk[b]
  {
  }

  /** put_free_inode(index): the list half, then free_inode_count grows by
      one (16-bit) and the inode is cleared. */
  function PutFreeInode(img: Image, index: U16): (r: Result<Image>)
    requires Sized(img)
    ensures r.Ok? ==> index < |img.inodes|
    ensures r.Ok? ==> Sized(r.value) && |r.value.inodes| == |img.inodes| && |r.value.disk| == |img.disk|
    ensures r.Ok? ==> r.value.inodes[index] == Cleared(img.inodes[index])
    ensures r.Ok? ==> forall j | 0 <= j < |img.inodes| && j != index :: r.value.inodes[j] == img.inodes[j]
    ensures r.Ok? ==> r.value.sb.freeInodeCount == ToU16(img.sb.freeInodeCount + 1)
    ensures r.Err? ==> r.error in {Undefined, IoFailure, LengthError}
  {
    var img1 :- PushFreeInode(img, index);
    ClearInode(img1.(sb := img1.sb.(freeInodeCount := ToU16(img1.sb.freeInodeCount + 1))), index)
  }

  /** put_free_inode(i) then get_free_inode() hands i back, for an inode that
      holds no blocks (rmdir and del clear the inode first) and a tidy tail
      node with room: the image is the one before, with inode i cleared. */
  lemma PutThenGetInode(img: Image, index: U16)
    requires Sized(img) && img.sb.inodeTail < |img.disk| && index < |img.inodes|
    requires img.inodes[index].ba[0] == 0 && index != 0 && img.sb.freeInodeCount < 0xFFFF
    requires NodeTidy(img.disk[img.sb.inodeTail]) && FbSize(img.disk[img.sb.inodeTail]) < Cap(img.sb)
    ensures PutFreeInode(img, index).Ok?
    ensures GetFreeInode(PutFreeInode(img, index).value)
      == Ok(Done(img.(inodes := img.inodes[index := Cleared(img.inodes[index])]), index))
  {
    PutClearedInode(img, index);
    GetPushedInode(img, index, PutFreeInode(img, index).value);
  }

  /** put_free_inode(i) on an inode that holds no blocks clears it, writes i
      into the next cell of a tidy tail node with room, and adds one to the
      free-inode count. */
  lemma PutClearedInode(img: Image, index: U16)
    requires Sized(img) && img.sb.inodeTail < |img.disk| && index < |img.inodes|
    requires img.inodes[index].ba[0] == 0 && index != 0 && img.sb.freeInodeCount < 0xFFFF
    requires NodeTidy(img.disk[img.sb.inodeTail]) && FbSize(img.disk[img.sb.inodeTail]) < Cap(img.sb)
    ensures var t := img.disk[img.sb.inodeTail];
      PutFreeInode(img, index) == Ok(img.(
        sb := img.sb.(freeInodeCount := img.sb.freeInodeCount + 1),
        disk := img.disk[img.sb.inodeTail := WithCell(t, FbSize(t), index)],
        inodes := img.inodes[index := Cleared(img.inodes[index])]))
  {
    var tail := img.sb.inodeTail;
    var t := img.disk[tail];
    var n := FbSize(t);
    var u := WithCell(t, n, index);
    assert Push(t, 2 * n, index).arr == u;
    var img1 := img.(disk := img.disk[tail := u]);
    var img2 := img1.(sb := img1.sb.(freeInodeCount := img.sb.freeInodeCount + 1));
    assert OccupiedBlocks(img2, index) == Ok([]);
    assert PushFreeInode(img, index) == Ok(img1);
    var e := img2.(inodes := img2.inodes[index := img.inodes[index].(ba := NoDirect, si := 0, di := 0, ti := 0)]);
    assert EmptyInodeBlocks(img2, index) == Ok(e);
    var mid := img2.(inodes := img2.inodes[index := Cleared(img.inodes[index])]);
    assert e.(inodes := e.inodes[index := Cleared(img.inodes[index])]) == mid;
  }

  /** get_free_inode right after that put takes i back off the tail node and
      restores the node and the count. */
  lemma GetPushedInode(img: Image, index: U16, mid: Image)
    requires Sized(img) && img.sb.inodeTail < |img.disk| && index < |img.inodes|
    requires index != 0 && img.sb.freeInodeCount < 0xFFFF
    requires NodeTidy(img.disk[img.sb.inodeTail]) && FbSize(img.disk[img.sb.inodeTail]) < Cap(img.sb)
    requires var t := img.disk[img.sb.inodeTail];
      mid == img.(
        sb := img.sb.(freeInodeCount := img.sb.freeInodeCount + 1),
        disk := img.disk[img.sb.inodeTail := WithCell(t, FbSize(t), index)],
        inodes := img.inodes[index := Cleared(img.inodes[index])])
    ensures Sized(mid)
    ensures GetFreeInode(mid) == Ok(Done(img.(inodes := img.inodes[index := Cleared(img.inodes[index])]), index))
  {
    var tail := img.sb.inodeTail;
    var t := img.disk[tail];
    var n := FbSize(t);
    var u := WithCell(t, n, index);
    assert Push(t, 2 * n, index).arr == u;
    PushEntry(t, index);
    CellZeroIsZeroValue(t, n);
    PushThenPop(t, 2 * n, index);
    var p := Pop(u, 2 * n + 2).value;
    assert p.arr == t && ToU16(p.value) == index;
    assert mid.disk[tail] == u && FbSize(u) == n + 1;
    assert mid.sb.(freeInodeCount := mid.sb.freeInodeCount - 1) == img.sb;
    assert GetFreeInode(mid) == Ok(Done(mid.(sb := img.sb, disk := mid.disk[tail := p.arr]), ToU16(p.value)));
    assert mid.disk[tail := t] == img.disk;
  }
}
