/** get_free_block and put_free_block: the free-block list is a chain of
    list nodes from fb_tail to fb_head; each node holds up to node_cap free
    block numbers in its first cells and the number of the next node in its
    last cell. A block is taken from, and given back to, the tail node. */
module BlockAlloc {
  import opened Types
  import opened BlockCodec
  import opened Layout

  /** load_by_block_no: the stream throws when the block lies past the end of
      the backing file. */
  function LoadBlock(img: Image, bno: nat): (r: Result<Bytes>)
    ensures r.Ok? <==> bno < |img.disk|
    ensures r.Ok? ==> r.value == img.disk[bno]
    ensures r.Err? ==> r.error == IoFailure
  {
    if bno < |img.disk| then Ok(img.disk[bno]) else Err(IoFailure)
  }

  /** get_free_block. length_error when the list is exhausted (fb_head or
      fb_count is 0). Otherwise fb_count drops by one and the tail node gives
      its last address; a tail node without addresses is itself handed out and
      the tail moves to the next node, the list ending when that is 0. The
      address is cut to 16 bits, as the uint16_t result does. */
  function GetFreeBlock(img: Image): (r: Result<Done<U16>>)
    requires Sized(img)
    ensures (img.sb.fbHead == 0 || img.sb.fbCount == 0) <==> r == Err(LengthError)
    ensures r.Err? ==> r.error in {LengthError, IoFailure}
    ensures r.Ok? ==> Sized(r.value.img) && r.value.img.inodes == img.inodes
    ensures r.Ok? ==> r.value.img.sb == img.sb.(fbCount := img.sb.fbCount - 1,
      fbTail := r.value.img.sb.fbTail, fbHead := r.value.img.sb.fbHead)
  {
    var sb := img.sb;
    if sb.fbHead == 0 || sb.fbCount == 0 then Err(LengthError)
    else
      var node :- LoadBlock(img, sb.fbTail);
      var n := FbSize(node);
      var sb1 := sb.(fbCount := sb.fbCount - 1);
      if n == 0 then
        var next := CellValue(node, Cap(sb));
        Ok(Done(img.(sb := sb1.(fbTail := next, fbHead := if next == 0 then 0 else sb.fbHead)), sb.fbTail))
      else
        var p := Pop(node, 2 * n).value;
        Ok(Done(img.(sb := sb1, disk := img.disk[sb.fbTail := p.arr]), ToU16(p.value)))
  }

  /** What get_free_block does to the list: from a tail node with addresses it
      takes the last one and the node keeps the others (a stack); from an empty
      tail node it hands out the node and moves the tail to its last cell. */
  lemma GetFreeBlockTakesLast(img: Image)
    requires Sized(img) && GetFreeBlock(img).Ok?
    ensures var t := img.disk[img.sb.fbTail];
      var r := GetFreeBlock(img).value;
      var n := FbSize(t);
      if n > 0 then
        && r.value == NodeEntries(t)[n - 1]
        && r.img.sb.fbTail == img.sb.fbTail && r.img.sb.fbHead == img.sb.fbHead
        && |r.img.disk| == |img.disk|
        && NodeEntries(r.img.disk[img.sb.fbTail]) == NodeEntries(t)[..n - 1]
        && (NodeTidy(t) ==> NodeTidy(r.img.disk[img.sb.fbTail]))
        && (forall b | 0 <= b < |img.disk| && b != img.sb.fbTail :: r.img.disk[b] == img.disk[b])
      else
        && r.value == img.sb.fbTail && r.img.disk == img.disk
        && r.img.sb.fbTail == CellValue(t, Cap(img.sb))
        && r.img.sb.fbHead == (if r.img.sb.fbTail == 0 then 0 else img.sb.fbHead)
  {
    var t := img.disk[img.sb.fbTail];
    var n := FbSize(t);
    if n > 0 {
      var p := Pop(t, 2 * n).value;
      assert p.arr == WithCell(t, n - 1, 0);
      assert p.value % 0x1_0000 == CellValue(t, n - 1);
      PopEntry(t);
    }
  }

  /** put_free_block(bno). fb_count grows by one (16-bit). If the tail node
      is full, block bno becomes the new tail: it is cleared and its last cell
      links to the old tail. Otherwise bno is pushed onto the tail node. */
  function PutFreeBlock(img: Image, bno: U16): (r: Result<Image>)
    requires Sized(img)
    ensures r.Ok? <==> img.sb.fbTail < |img.disk| && (FbSize(img.disk[img.sb.fbTail]) == Cap(img.sb) ==> bno < |img.disk|)
    ensures r.Err? ==> r.error == IoFailure
    ensures r.Ok? ==> Sized(r.value) && r.value.inodes == img.inodes && |r.value.disk| == |img.disk|
    ensures r.Ok? ==> r.value.sb == img.sb.(fbCount := ToU16(img.sb.fbCount + 1), fbTail := r.value.sb.fbTail)
  {
    var sb := img.sb;
    var node :- LoadBlock(img, sb.fbTail);
    var n := FbSize(node);
    var sb1 := sb.(fbCount := ToU16(sb.fbCount + 1));
    if n == Cap(sb) then
      var _ :- LoadBlock(img, bno);
      Ok(img.(sb := sb1.(fbTail := bno), disk := img.disk[bno := EmptyNode(sb, sb.fbTail)]))
    else
      Ok(img.(sb := sb1, disk := img.disk[sb.fbTail := Push(node, 2 * n, bno).arr]))
  }

  /** What put_free_block does to the list: a non-zero bno joins a tidy tail
      node that has room as its last address; a full tail node is left alone
      and bno becomes an empty node that links to it. */
  lemma PutFreeBlockAppends(img: Image, bno: U16)
    requires Sized(img) && PutFreeBlock(img, bno).Ok?
    ensures var t := img.disk[img.sb.fbTail];
      var r := PutFreeBlock(img, bno).value;
      if FbSize(t) < Cap(img.sb) then
        && r.sb.fbTail == img.sb.fbTail
        && (forall b | 0 <= b < |img.disk| && b != img.sb.fbTail :: r.disk[b] == img.disk[b])
        && (NodeTidy(t) && bno != 0 ==>
              NodeEntries(r.disk[img.sb.fbTail]) == NodeEntries(t) + [bno] && NodeTidy(r.disk[img.sb.fbTail]))
      else
        && r.sb.fbTail == bno && r.disk[bno] == EmptyNode(img.sb, img.sb.fbTail)
        && (forall b | 0 <= b < |img.disk| && b != bno :: r.disk[b] == img.disk[b])
  {
    var t := img.disk[img.sb.fbTail];
    var n := FbSize(t);
    if n < Cap(img.sb) {
      assert Push(t, 2 * n, bno).arr == WithCell(t, n, bno);
      if NodeTidy(t) && bno != 0 {
        PushEntry(t, bno);
      }
    } else {
      EmptyNodeIsEmpty(img.sb, img.sb.fbTail);
    }
  }

  /** A cleared block whose last cell links to next is an empty, tidy node. */
  lemma EmptyNodeIsEmpty(sb: Superblock, next: U16)
    requires sb.blockSize >= 1
    ensures var z := EmptyNode(sb, next);
      FbSize(z) == 0 && NodeEntries(z) == [] && NodeTidy(z) && CellValue(z, Cap(sb)) == next
  {
    var z := WithCell(Zeros(BlockBytes(sb)), Cap(sb), next);
    forall k | 0 <= k < Cap(sb)
      ensures CellZero(z, k)
    {
      CellZeroIsZeroValue(z, k);
      CellZeroIsZeroValue(Zeros(BlockBytes(sb)), k);
    }
    FbSizeIs(z, 0);
  }

  /** put_free_block(b) then get_free_block() hands b back and restores the
      superblock. When the tail node had room, the whole image is as before;
      otherwise b was made the new, empty tail node and stays cleared. */
  lemma PutThenGet(img: Image, bno: U16)
    requires Sized(img) && img.sb.fbTail < |img.disk| && bno < |img.disk|
    requires img.sb.fbHead != 0 && img.sb.fbTail != 0 && img.sb.fbCount < 0xFFFF
    requires NodeTidy(img.disk[img.sb.fbTail]) && bno != 0
    ensures PutFreeBlock(img, bno).Ok?
    ensures var g := GetFreeBlock(PutFreeBlock(img, bno).value);
      if FbSize(img.disk[img.sb.fbTail]) < Cap(img.sb) then g == Ok(Done(img, bno))
      else g == Ok(Done(img.(disk := img.disk[bno := EmptyNode(img.sb, img.sb.fbTail)]), bno))
  {
    if FbSize(img.disk[img.sb.fbTail]) < Cap(img.sb) {
      PutThenGetRoom(img, bno);
    } else {
      PutThenGetFull(img, bno);
    }
  }

  /** The node put_free_block makes of a block: cleared, linking to next. */
  function EmptyNode(sb: Superblock, next: U16): (r: Bytes)
    requires sb.blockSize >= 1
    ensures |r| == BlockBytes(sb)
  {
    WithCell(Zeros(BlockBytes(sb)), Cap(sb), next)
  }

  lemma PutThenGetRoom(img: Image, bno: U16)
    requires Sized(img) && img.sb.fbTail < |img.disk| && bno < |img.disk|
    requires img.sb.fbHead != 0 && img.sb.fbCount < 0xFFFF
    requires NodeTidy(img.disk[img.sb.fbTail]) && bno != 0
    requires FbSize(img.disk[img.sb.fbTail]) < Cap(img.sb)
    ensures PutFreeBlock(img, bno).Ok?
    ensures GetFreeBlock(PutFreeBlock(img, bno).value) == Ok(Done(img, bno))
  {
    var tail := img.sb.fbTail;
    var t := img.disk[tail];
    var n := FbSize(t);
    var u := WithCell(t, n, bno);
    assert Push(t, 2 * n, bno).arr == u;
    var mid := img.(sb := img.sb.(fbCount := img.sb.fbCount + 1), disk := img.disk[tail := u]);
    assert PutFreeBlock(img, bno) == Ok(mid);
    PushEntry(t, bno);
    CellZeroIsZeroValue(t, n);
    PushThenPop(t, 2 * n, bno);
    var p := Pop(u, 2 * n + 2).value;
    assert p.arr == t && ToU16(p.value) == bno;
    assert mid.disk[tail] == u && FbSize(u) == n + 1;
    assert mid.sb.(fbCount := mid.sb.fbCount - 1) == img.sb;
    assert GetFreeBlock(mid) == Ok(Done(mid.(sb := img.sb, disk := mid.disk[tail := p.arr]), ToU16(p.value)));
    assert mid.disk[tail := t] == img.disk;
  }

  lemma PutThenGetFull(img: Image, bno: U16)
    requires Sized(img) && img.sb.fbTail < |img.disk| && bno < |img.disk|
    requires img.sb.fbHead != 0 && img.sb.fbTail != 0 && img.sb.fbCount < 0xFFFF
    requires FbSize(img.disk[img.sb.fbTail]) == Cap(img.sb)
    ensures PutFreeBlock(img, bno).Ok?
    ensures GetFreeBlock(PutFreeBlock(img, bno).value)
      == Ok(Done(img.(disk := img.disk[bno := EmptyNode(img.sb, img.sb.fbTail)]), bno))
  {
    var tail := img.sb.fbTail;
    var z := EmptyNode(img.sb, tail);
    var mid := img.(sb := img.sb.(fbCount := img.sb.fbCount + 1, fbTail := bno), disk := img.disk[bno := z]);
    assert PutFreeBlock(img, bno) == Ok(mid);
    EmptyNodeIsEmpty(img.sb, tail);
    assert mid.disk[bno] == z;
  }
}
