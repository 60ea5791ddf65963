/** The region boundaries the file_system(block_size, inode_count)
    constructor computes, and the initial disk that create_file writes.

    Order on disk: superblock, inode table, free-inode list nodes, root
    directory block, free data blocks, free-block list nodes. */
module Layout {
  import opened Types
  import opened BlockCodec

  /** The source's `ceil` of a quotient of doubles; exact for the magnitudes
      that occur here (both operands below 2^22). */
  function CeilDiv(a: nat, b: nat): nat
    requires b > 0
  {
    (a + b - 1) / b
  }

  /** CeilDiv(a, b) is the least r with r * b >= a. */
  lemma CeilDivBounds(a: nat, b: nat)
    requires b > 0
    ensures CeilDiv(a, b) * b >= a
    ensures CeilDiv(a, b) == 0 || (CeilDiv(a, b) - 1) * b < a
  {
    var q := (a + b - 1) / b;
    assert q * b + (a + b - 1) % b == a + b - 1;
  }

  lemma MulLe(x: int, y: int, b: nat)
    requires x <= y
    ensures x * b <= y * b
  {
    assert y * b - x * b == (y - x) * b;
  }

  lemma CeilDivUnique(a: nat, b: nat, c: nat)
    requires b > 0 && c >= 1
    requires (c - 1) * b < a <= c * b
    ensures CeilDiv(a, b) == c
  {
    CeilDivBounds(a, b);
    var r := CeilDiv(a, b);
    if r < c {
      MulLe(r, c - 1, b);
    } else if r > c {
      MulLe(c, r - 1, b);
    }
  }

  lemma CeilDivLe(a: nat, b: nat)
    requires b >= 1
    ensures CeilDiv(a, b) <= a
  {
    CeilDivBounds(a, b);
    var r := CeilDiv(a, b);
    if r > a {
      MulLe(a, r - 1, b);
      MulLe(1, b, a);
    }
  }

  /** ceil(2x / 2c) == ceil(x / c): the free-inode span in cells. */
  lemma CeilDivHalves(x: nat, c: nat)
    requires c >= 1
    ensures CeilDiv(2 * x, 2 * c) == CeilDiv(x, c)
  {
    CeilDivBounds(2 * x, 2 * c);
    var r := CeilDiv(2 * x, 2 * c);
    assert r * (2 * c) == 2 * (r * c);
    if r >= 1 {
      assert (r - 1) * (2 * c) == 2 * ((r - 1) * c);
      CeilDivUnique(x, c, r);
    } else {
      assert x == 0;
    }
  }

  /** Blocks on the 1024 KiB disk. */
  function TotalBlocks(bs: nat): (r: nat)
    requires 1 <= bs <= 512
    ensures 2 <= r <= DiskKiB
  {
    DiskBlocksBounds(bs);
    DiskKiB / bs
  }

  lemma DiskBlocksBounds(bs: nat)
    requires 1 <= bs <= 512
    ensures 2 <= DiskKiB / bs <= DiskKiB
  {
    var t := DiskKiB / bs;
    assert t * bs + DiskKiB % bs == DiskKiB;
    if t < 2 {
      MulLe(t, 1, bs);
    }
  }

  /** node_cap for a block size: the address cells of a block but the last. */
  function CapOf(bs: nat): nat
    requires bs >= 1
  {
    512 * bs - 1
  }

  /** First block after the inode table. */
  function InodeHeadOf(bs: nat, n: nat): nat
    requires bs >= 1
  {
    1 + CeilDiv(InodeSize * n, 1024 * bs)
  }

  /** Blocks of the free-inode list: two bytes per free inode, the last cell
      of each block kept for the next pointer. */
  function InodeSpanOf(bs: nat, n: nat): nat
    requires bs >= 1 && n >= 1
  {
    CeilDiv(2 * n - 2, 1024 * bs - 2)
  }

  /** The block numbers and counters of a successful construction, or the
      exception it throws: length_error when no free-inode block is needed
      (one inode), invalid_argument when fewer than two blocks remain after the
      root directory. The free-block list takes one node for every
      node_cap + 1 remaining blocks, rounded up; the other remaining blocks
      are free. */
  function LayoutOf(bs: nat, n: nat): (r: Result<Superblock>)
    requires 1 <= bs <= 512 && 1 <= n < 0x1_0000
  {
    var head := InodeHeadOf(bs, n);
    var span := InodeSpanOf(bs, n);
    if span == 0 then Err(LengthError)
    else
      var root := head + span;
      var p := root + 1;
      var total := TotalBlocks(bs);
      if total < p + 2 then Err(InvalidArgument)
      else
        var nodes := CeilDiv(total - p, CapOf(bs) + 1);
        CeilDivLe(total - p, CapOf(bs) + 1);
        var free := total - p - nodes;
        Ok(Superblock(bs, root, 1, n, n - 1, free, total - 1, p + free, head, root - 1))
  }

  /** node_cap of a superblock's block size. */
  function Cap(sb: Superblock): nat
    requires 1 <= sb.blockSize
  {
    CapOf(sb.blockSize)
  }

  /** The free-block list nodes fb_tail .. fb_head. */
  function FbNodes(sb: Superblock): int {
    sb.fbHead - sb.fbTail + 1
  }

  /** The free-inode list blocks inode_head .. inode_tail. */
  function InodeNodes(sb: Superblock): int {
    sb.inodeTail - sb.inodeHead + 1
  }

  /** What a successful construction promises: inode_pos = 1 < inode_head <=
      inode_tail, the root directory right after the free-inode list, the
      free data blocks right after the root, fb_tail <= fb_head = last block,
      at least one free block, every block after the root either free or a
      list node, each list with room for its entries (the last free-block
      node may hold nothing), and all inodes but the root free; the free-inode list has fewer blocks than
      the blocks before it. */
  predicate WellFormedLayout(sb: Superblock) {
    && 1 <= sb.blockSize <= 512
    && 2 <= sb.inodeCount
    && sb.inodePos == 1 < sb.inodeHead <= sb.inodeTail
    && sb.rootDirAddress == sb.inodeTail + 1
    && sb.rootDirAddress + 1 <= sb.fbTail <= sb.fbHead == TotalBlocks(sb.blockSize) - 1
    && sb.fbCount == sb.fbTail - (sb.rootDirAddress + 1) >= 1
    && sb.fbCount + FbNodes(sb) == TotalBlocks(sb.blockSize) - (sb.rootDirAddress + 1)
    && (FbNodes(sb) - 1) * Cap(sb) <= sb.fbCount <= FbNodes(sb) * Cap(sb)
    && sb.freeInodeCount == sb.inodeCount - 1
    && (InodeNodes(sb) - 1) * Cap(sb) < sb.freeInodeCount <= InodeNodes(sb) * Cap(sb)
    && InodeNodes(sb) < sb.inodeHead
  }

  lemma MulSucc(x: int, c: int)
    ensures x * (c + 1) == x * c + x
  {
  }

  lemma MulAtLeast(x: nat, c: nat)
    requires c >= 1
    ensures x * c >= x
  {
    MulLe(1, c, x);
  }

  /** The free-block list of m blocks after the root takes between 1 and
      m - 1 nodes, and the free blocks it leaves fill every node but the last
      completely. */
  lemma NodeCountBounds(m: nat, cap: nat)
    requires cap >= 1 && m >= 2
    ensures var nodes := CeilDiv(m, cap + 1);
      1 <= nodes <= m - 1 && (nodes - 1) * cap <= m - nodes <= nodes * cap
  {
    var nodes := CeilDiv(m, cap + 1);
    CeilDivBounds(m, cap + 1);
    MulSucc(m - 1, cap);
    MulAtLeast(m - 1, cap);
    CeilDivLeast(m, cap + 1, m - 1);
    MulSucc(nodes, cap);
    if nodes >= 1 {
      MulSucc(nodes - 1, cap);
    }
  }

  lemma CeilDivLeast(a: nat, b: nat, c: nat)
    requires b >= 1 && a <= c * b
    ensures CeilDiv(a, b) <= c
  {
    CeilDivBounds(a, b);
    var r := CeilDiv(a, b);
    if r > c {
      MulLe(c, r - 1, b);
    }
  }

  /** ceil(n-1 / node_cap) <= ceil(32n / block_size_byte): the free-inode list
      needs no more blocks than the inode table. */
  lemma InodeSpanBelowHead(bs: nat, n: nat)
    requires 1 <= bs <= 512 && n >= 2
    ensures InodeSpanOf(bs, n) < InodeHeadOf(bs, n)
  {
    var cap := CapOf(bs);
    var bsb := 1024 * bs;
    var h := CeilDiv(InodeSize * n, bsb);
    CeilDivBounds(InodeSize * n, bsb);
    CeilDivHalves(n - 1, cap);
    assert 2 * (n - 1) == 2 * n - 2 && 2 * cap == bsb - 2;
    if h >= 1 {
      MulLe(1024, bsb, h - 1);
      assert (h - 1) * 1024 <= (h - 1) * bsb < 32 * n;
      assert h <= n;
    }
    assert h * bsb >= 32 * n;
    assert h * bsb == 2 * (h * cap) + 2 * h;
    assert h * cap >= n - 1;
    CeilDivLeast(n - 1, cap, h);
  }

  /** The free-inode span in node_cap units: ceil((n-1) / node_cap). */
  lemma InodeSpanCells(bs: nat, n: nat)
    requires 1 <= bs <= 512 && n >= 1
    ensures InodeSpanOf(bs, n) == CeilDiv(n - 1, CapOf(bs))
  {
    var cap := CapOf(bs);
    CeilDivHalves(n - 1, cap);
    assert 2 * (n - 1) == 2 * n - 2 && 2 * cap == 1024 * bs - 2;
  }

  /** The superblock of a successful construction, from its parts. */
  lemma LayoutWellFormed(bs: nat, n: nat, head: nat, span: nat, total: nat, nodes: nat)
    requires 1 <= bs <= 512 && 2 <= n < 0x1_0000 && total == TotalBlocks(bs)
    requires 1 <= span < head && (span - 1) * CapOf(bs) < n - 1 <= span * CapOf(bs)
    requires head + span + 3 <= total
    requires 1 <= nodes <= total - (head + span + 1) - 1
    requires (nodes - 1) * CapOf(bs) <= total - (head + span + 1) - nodes <= nodes * CapOf(bs)
    ensures var p := head + span + 1;
      var free := total - p - nodes;
      WellFormedLayout(Superblock(bs, head + span, 1, n, n - 1, free, total - 1, p + free, head, head + span - 1))
  {
  }

  /** The free-inode span is empty exactly for one inode, and otherwise has
      room for the n - 1 free inodes and no block to spare. */
  lemma SpanFacts(bs: nat, n: nat)
    requires 1 <= bs <= 512 && 1 <= n < 0x1_0000
    ensures InodeSpanOf(bs, n) == 0 <==> n == 1
    ensures n >= 2 ==> var span := InodeSpanOf(bs, n);
      && span < InodeHeadOf(bs, n)
      && (span - 1) * CapOf(bs) < n - 1 <= span * CapOf(bs)
  {
    InodeSpanCells(bs, n);
    CeilDivBounds(n - 1, CapOf(bs));
    if n >= 2 {
      InodeSpanBelowHead(bs, n);
    }
  }

  lemma {:induction false} LayoutProperties(bs: nat, n: nat)
    requires 1 <= bs <= 512 && 1 <= n < 0x1_0000
    ensures LayoutOf(bs, n) == Err(LengthError) <==> n == 1
    ensures LayoutOf(bs, n).Err? ==> LayoutOf(bs, n).error in {LengthError, InvalidArgument}
    ensures LayoutOf(bs, n).Ok? <==>
      n >= 2 && TotalBlocks(bs) >= InodeHeadOf(bs, n) + InodeSpanOf(bs, n) + 3
    ensures LayoutOf(bs, n).Ok? ==>
      var sb := LayoutOf(bs, n).value;
      && WellFormedLayout(sb)
      && sb.blockSize == bs && sb.inodeCount == n
      && sb.inodeHead == InodeHeadOf(bs, n)
      && InodeNodes(sb) == InodeSpanOf(bs, n)
  {
    SpanFacts(bs, n);
    var head := InodeHeadOf(bs, n);
    var span := InodeSpanOf(bs, n);
    var total := TotalBlocks(bs);
    var p := head + span + 1;
    if n >= 2 && total >= p + 2 {
      var nodes := CeilDiv(total - p, CapOf(bs) + 1);
      NodeCountBounds(total - p, CapOf(bs));
      LayoutWellFormed(bs, n, head, span, total, nodes);
    }
  }

  /** Step of the constructor's loop analysis: with c nodes reserved when the
      walk stopped, c is the number of nodes the closed form takes. */
  lemma LoopNodes(m: nat, cap: nat, c: nat, j: nat)
    requires cap >= 1 && c >= 1 && 1 <= j <= cap
    requires (c - 1) * cap + j + c - 1 <= m <= (c - 1) * cap + j + c
    ensures CeilDiv(m, cap + 1) == c
  {
    assert (c - 1) * (cap + 1) == (c - 1) * cap + c - 1;
    assert c * (cap + 1) == (c - 1) * cap + cap + c;
    CeilDivUnique(m, cap + 1, c);
  }

  /** The constructor's loop over the blocks after the root: every
      node_cap + 1 steps it reserves one more block at the end for a list
      node by lowering last_free_block; fb_tail is the block after the last
      free one. */
  method ReserveListNodes(fbPos: nat, total: nat, nodeCap: nat) returns (fbTail: int)
    requires nodeCap >= 1 && total >= 2
    ensures fbPos < total ==> fbTail == total - CeilDiv(total - fbPos, nodeCap + 1)
    ensures fbPos >= total ==> fbTail == total - 1
  {
    var lastFree: int := total - 2;
    var nodeAddressCount := nodeCap - 1;
    var i := fbPos;
    var j := 0;
    ghost var c := 1;
    ghost var base := 0;
    while i < lastFree + 1
      invariant c >= 1 && lastFree == total - 1 - c
      invariant 0 <= j <= nodeCap
      invariant base == (c - 1) * nodeCap
      invariant i - fbPos == base + j
      invariant j == 0 ==> c == 1 && i == fbPos
      invariant i == fbPos || i <= lastFree + 2
      decreases lastFree + 1 - i
    {
      if j == nodeAddressCount + 1 {
        j := 0;
        lastFree := lastFree - 1;
        assert c * nodeCap == (c - 1) * nodeCap + nodeCap;
        c := c + 1;
        base := base + nodeCap;
      }
      i := i + 1;
      j := j + 1;
    }
    fbTail := lastFree + 1;
    if i > fbPos {
      LoopNodes(total - fbPos, nodeCap, c, j);
    } else if fbPos < total {
      assert total - fbPos == 1;
      CeilDivUnique(1, nodeCap + 1, 1);
    }
  }

  /** LayoutOf spelled out over its intermediate values. */
  lemma LayoutOfIs(bs: nat, n: nat, head: nat, span: nat, total: nat, fbTail: int)
    requires 1 <= bs <= 512 && 1 <= n < 0x1_0000
    requires head == InodeHeadOf(bs, n) && span == InodeSpanOf(bs, n) && total == TotalBlocks(bs)
    requires head + span + 3 <= total ==>
      fbTail == total - CeilDiv(total - (head + span + 1), CapOf(bs) + 1) && head + span + 2 <= fbTail < total
    ensures LayoutOf(bs, n) ==
      if span == 0 then Err(LengthError)
      else if total < head + span + 3 then Err(InvalidArgument)
      else Ok(Superblock(bs, head + span, 1, n, n - 1, fbTail - (head + span + 1), total - 1, fbTail,
        head, head + span - 1))
  {
  }

  /** The constructor's test on the reserved nodes fails exactly when fewer
      than two blocks follow the root directory. */
  lemma ReserveOutcome(total: nat, fbPos: nat, cap: nat, fbTail: int)
    requires cap >= 1 && total >= 2
    requires fbPos < total ==> fbTail == total - CeilDiv(total - fbPos, cap + 1)
    requires fbPos >= total ==> fbTail == total - 1
    ensures (fbPos > fbTail || fbTail - fbPos < 1) <==> total < fbPos + 2
    ensures total >= fbPos + 2 ==> fbPos + 1 <= fbTail < total
  {
    if total >= fbPos + 2 {
      NodeCountBounds(total - fbPos, cap);
    } else if fbPos == total - 1 {
      CeilDivUnique(1, cap + 1, 1);
    }
  }

  /** The file_system(block_size, inode_count) constructor. */
  method ComputeLayout(bs: nat, n: nat) returns (r: Result<Superblock>)
    requires 1 <= bs <= 512 && 1 <= n < 0x1_0000
    ensures r == LayoutOf(bs, n)
  {
    var bsb := 1024 * bs;
    var nodeCap := bsb / 2 - 1;
    var head := 1 + CeilDiv(InodeSize * n, bsb);
    var span := CeilDiv(2 * n - 2, bsb - 2);
    var tail := head + span - 1;
    var total := DiskKiB / bs;
    var fbPos := head + span + 1;
    var fbTail := ReserveListNodes(fbPos, total, nodeCap);
    ReserveOutcome(total, fbPos, nodeCap, fbTail);
    LayoutOfIs(bs, n, head, span, total, fbTail);
    if head > tail {
      return Err(LengthError);
    }
    var root := tail + 1;
    var fbHead := total - 1;
    var fbCount := fbTail - fbPos;
    if fbPos > fbTail || fbCount < 1 {
      return Err(InvalidArgument);
    }
    r := Ok(Superblock(bs, root, 1, n, n - 1, fbCount, fbHead, fbTail, head, tail));
  }

  // ------------------------------------------------------ initial image

  /** The big-endian bytes of a sequence of 16-bit cells. */
  function Encode16(s: seq<U16>): (r: Bytes)
    ensures |r| == 2 * |s|
  {
    if |s| == 0 then [] else [s[0] / 0x100, s[0] % 0x100] + Encode16(s[1..])
  }

  lemma {:induction false} Encode16At(s: seq<U16>, k: nat)
    requires k < |s|
    ensures Encode16(s)[2 * k] == s[k] / 0x100 && Encode16(s)[2 * k + 1] == s[k] % 0x100
  {
    if k > 0 {
      Encode16At(s[1..], k - 1);
      assert 2 * k - 2 == 2 * (k - 1);
    }
  }

  /** A list node of node_cap + 1 cells holding entries in its first cells
      and, when linked, next in its last cell; every other byte is 0. This is
      the block create_file builds with push_address and set_address. */
  function NodeBlock(cap: nat, entries: seq<U16>, linked: bool, next: U16): (r: Bytes)
    requires |entries| <= cap
    ensures |r| == 2 * cap + 2
  {
    Encode16(entries) + Zeros(2 * (cap - |entries|)) + Encode16([if linked then next else 0])
  }

  lemma NodeBlockCells(cap: nat, entries: seq<U16>, linked: bool, next: U16)
    requires |entries| <= cap
    requires forall k | 0 <= k < |entries| :: entries[k] != 0
    ensures var b := NodeBlock(cap, entries, linked, next);
      && FbSize(b) == |entries|
      && (forall k | 0 <= k < |entries| :: CellValue(b, k) == entries[k])
      && CellValue(b, cap) == (if linked then next else 0)
  {
    var b := NodeBlock(cap, entries, linked, next);
    var n := |entries|;
    forall k | 0 <= k < n
      ensures CellValue(b, k) == entries[k] && !CellZero(b, k)
    {
      Encode16At(entries, k);
    }
    var v: U16 := if linked then next else 0;
    Encode16At([v], 0);
    assert b[2 * cap] == v / 0x100 && b[2 * cap + 1] == v % 0x100;
    if n < cap {
      assert b[2 * n] == 0 && b[2 * n + 1] == 0;
      assert CellZero(b, n);
    }
  }

  /** The consecutive numbers lo, lo+1, ..., hi-1. */
  function Range(lo: int, hi: int): (r: seq<int>)
    ensures |r| == if hi > lo then hi - lo else 0
    ensures forall k | 0 <= k < |r| :: r[k] == lo + k
    decreases hi - lo
  {
    if hi <= lo then [] else [lo] + Range(lo + 1, hi)
  }

  lemma {:induction false} RangeSplit(lo: int, mid: int, hi: int)
    requires lo <= mid <= hi
    ensures Range(lo, mid) + Range(mid, hi) == Range(lo, hi)
  {
    var a := Range(lo, mid) + Range(mid, hi);
    assert |a| == |Range(lo, hi)|;
    forall k | 0 <= k < |a|
      ensures a[k] == Range(lo, hi)[k]
    {
      if k < mid - lo {
        assert a[k] == Range(lo, mid)[k];
      } else {
        assert a[k] == Range(mid, hi)[k - (mid - lo)];
      }
    }
  }

  /** Range(lo, hi) as 16-bit cell values. */
  function Cells16(lo: int, hi: int): (r: seq<U16>)
    requires 0 <= lo && hi <= 0x1_0000
    ensures r == Range(lo, hi)
  {
    var s := Range(lo, hi);
    seq(|s|, k requires 0 <= k < |s| => s[k])
  }

  function Min(a: int, b: int): int { if a < b then a else b }

  /** lo + k * cap, by repeated addition: the first number node k lists. */
  function Offset(lo: int, k: nat, cap: nat): (r: int)
    ensures r >= lo
  {
    if k == 0 then lo else Offset(lo, k - 1, cap) + cap
  }

  lemma {:induction false} OffsetIs(lo: int, k: nat, cap: nat)
    ensures Offset(lo, k, cap) == lo + k * cap
  {
    if k > 0 {
      OffsetIs(lo, k - 1, cap);
      assert (k - 1) * cap + cap == k * cap;
    }
  }

  /** A list node of 2 * cap + 2 bytes holding lo .. hi-1 (nothing when
      hi <= lo) and, when linked, next in its last cell. */
  function ListNode(cap: nat, lo: int, hi: int, linked: bool, next: U16): (r: Bytes)
    requires 1 <= lo && hi <= 0x1_0000 && hi - lo <= cap
    ensures |r| == 2 * cap + 2
  {
    NodeBlock(cap, if lo <= hi then Cells16(lo, hi) else [], linked, next)
  }

  /** The entries and the last cell of a list node built by create_file: its
      entries are lo .. hi-1 and its last cell holds next when linked. */
  lemma ListNodeFacts(cap: nat, lo: int, hi: int, linked: bool, next: U16)
    requires cap >= 1
    requires 1 <= lo && hi <= 0x1_0000 && hi - lo <= cap
    ensures NodeEntries(ListNode(cap, lo, hi, linked, next)) == Range(lo, hi)
    ensures CellValue(ListNode(cap, lo, hi, linked, next), cap) == (if linked then next else 0)
  {
    var entries: seq<U16> := if lo <= hi then Cells16(lo, hi) else [];
    assert entries == Range(lo, hi);
    var b := NodeBlock(cap, entries, linked, next);
    assert ListNode(cap, lo, hi, linked, next) == b;
    NodeBlockCells(cap, entries, linked, next);
    assert NodeEntries(b) == entries;
  }

  /** Range from lo, cut at stop. */
  lemma RangeCut(lo: int, hi: int, stop: int)
    requires lo <= hi
    ensures Range(lo, Min(hi, stop)) == Range(Min(lo, stop), Min(hi, stop))
  {
  }

  /** The list node that holds lo, lo + 1, ... up to cap numbers and below
      stop, with next in its last cell when linked. */
  function ListNodeFrom(cap: nat, lo: int, stop: int, linked: bool, next: U16): (r: Bytes)
    requires cap >= 1 && 1 <= lo && stop <= 0x1_0000
    ensures |r| == 2 * cap + 2
  {
    ListNode(cap, lo, Min(lo + cap, stop), linked, next)
  }

  /** The list node from lo holds the numbers from lo below stop, at most cap
      of them, and next in its last cell when linked. */
  lemma ListNodeFromFacts(cap: nat, lo: int, stop: int, linked: bool, next: U16)
    requires cap >= 1 && 1 <= lo && stop <= 0x1_0000
    ensures NodeEntries(ListNodeFrom(cap, lo, stop, linked, next)) == Range(Min(lo, stop), Min(lo + cap, stop))
    ensures CellValue(ListNodeFrom(cap, lo, stop, linked, next), cap) == if linked then next else 0
  {
    var hi := Min(lo + cap, stop);
    assert ListNodeFrom(cap, lo, stop, linked, next) == ListNode(cap, lo, hi, linked, next);
    ListNodeFacts(cap, lo, hi, linked, next);
    RangeCut(lo, lo + cap, stop);
  }

  /** Free-inode list block b, the list starting at block head: the inode
      numbers from Offset(1, b - head, node_cap) up to free_inode_count, at
      most node_cap of them. Its last cell is set only when b + 1 is below
      root - head, which compares a block number with the number of list
      blocks. */
  function InodeNode(cap: nat, freeCount: U16, head: U16, root: U16, b: nat): (r: Bytes)
    requires cap >= 1 && head <= b
    ensures |r| == 2 * cap + 2
  {
    ListNodeFrom(cap, Offset(1, b - head, cap), freeCount + 1, b + 1 < root - head, ToU16(b + 1))
  }

  /** Free-inode block b lists the inode numbers from lo = Offset(1, b - head,
      node_cap) below free_inode_count + 1, and links to the next block only
      when the constructor's test on the block number succeeds. */
  lemma InodeNodeFacts(cap: nat, freeCount: U16, head: U16, root: U16, b: nat, lo: int)
    requires cap >= 1 && head <= b && lo == Offset(1, b - head, cap)
    ensures NodeEntries(InodeNode(cap, freeCount, head, root, b))
      == Range(Min(lo, freeCount + 1), Min(lo + cap, freeCount + 1))
    ensures CellValue(InodeNode(cap, freeCount, head, root, b), cap)
      == if b + 1 < root - head then ToU16(b + 1) else 0
  {
    ListNodeFromFacts(cap, lo, freeCount + 1, b + 1 < root - head, ToU16(b + 1));
  }

  /** Free-block node b (from fb_tail = tail up to fb_head = head): the next at
      most node_cap free data blocks, counted up from root + 1, and the next
      node's number unless b is fb_head. */
  function FreeBlockNode(cap: nat, root: U16, tail: U16, head: U16, b: nat): (r: Bytes)
    requires cap >= 1 && tail <= b
    ensures |r| == 2 * cap + 2
  {
    ListNodeFrom(cap, Offset(root + 1, b - tail, cap), tail, b != head, ToU16(b + 1))
  }

  /** Free-block node b lists the block numbers from lo = Offset(root + 1,
      b - tail, node_cap) below fb_tail, and links to the next node unless it
      is fb_head. */
  lemma FreeBlockNodeFacts(cap: nat, root: U16, tail: U16, head: U16, b: nat, lo: int)
    requires cap >= 1 && tail <= b && lo == Offset(root + 1, b - tail, cap)
    ensures NodeEntries(FreeBlockNode(cap, root, tail, head, b)) == Range(Min(lo, tail), Min(lo + cap, tail))
    ensures CellValue(FreeBlockNode(cap, root, tail, head, b), cap) == if b != head then ToU16(b + 1) else 0
  {
    ListNodeFromFacts(cap, lo, tail, b != head, ToU16(b + 1));
  }

  /** The root directory block: "." and ".." both pointing to inode 0. */
  function RootBlock(sb: Superblock): (r: Bytes)
    requires 1 <= sb.blockSize <= 512
    ensures |r| == BlockBytes(sb)
  {
    CreateDirEntry(0, [Dot]).value + CreateDirEntry(0, [Dot, Dot]).value + Zeros(BlockBytes(sb) - 16)
  }

  /** Block b as create_file writes it. The superblock and the inode table
      are kept as records, so their blocks appear here as zeros. */
  function InitialBlock(sb: Superblock, b: nat): Bytes
    requires 1 <= sb.blockSize <= 512
  {
    if b < sb.inodeHead then Zeros(BlockBytes(sb))
    else if b <= sb.inodeTail then InodeNode(Cap(sb), sb.freeInodeCount, sb.inodeHead, sb.rootDirAddress, b)
    else if b == sb.rootDirAddress then RootBlock(sb)
    else if b < sb.fbTail || b > sb.fbHead then Zeros(BlockBytes(sb))
    else FreeBlockNode(Cap(sb), sb.rootDirAddress, sb.fbTail, sb.fbHead, b)
  }

  lemma InitialBlockLengths(sb: Superblock)
    requires 1 <= sb.blockSize <= 512
    ensures forall b: nat :: |InitialBlock(sb, b)| == BlockBytes(sb)
  {
  }

  /** Blocks b .. total - 1 as create_file writes them. */
  function BlocksFrom(sb: Superblock, b: nat, total: nat): (r: seq<Bytes>)
    requires 1 <= sb.blockSize <= 512 && b <= total
    ensures |r| == total - b
    ensures forall i | 0 <= i < |r| :: |r[i]| == BlockBytes(sb)
    decreases total - b
  {
    InitialBlockLengths(sb);
    if b == total then [] else [InitialBlock(sb, b)] + BlocksFrom(sb, b + 1, total)
  }

  lemma {:induction false} BlocksFromAt(sb: Superblock, b: nat, total: nat, i: nat)
    requires 1 <= sb.blockSize <= 512 && b <= i < total
    ensures BlocksFrom(sb, b, total)[i - b] == InitialBlock(sb, i)
    decreases i - b
  {
    if i > b {
      BlocksFromAt(sb, b + 1, total, i);
      assert BlocksFrom(sb, b, total)[i - b] == BlocksFrom(sb, b + 1, total)[i - (b + 1)];
    }
  }

  /** create_file: the whole disk, TotalBlocks blocks. */
  function CreateFile(sb: Superblock): (disk: seq<Bytes>)
    requires 1 <= sb.blockSize <= 512
    ensures |disk| == TotalBlocks(sb.blockSize)
    ensures forall b | 0 <= b < |disk| :: |disk[b]| == BlockBytes(sb)
  {
    BlocksFrom(sb, 0, TotalBlocks(sb.blockSize))
  }

  /** The inode table after construction: inode 0 is the root directory (the
      clock reading, size 16 for "." and "..", its block at
      root_dir_address, one link); every other inode is all zeros. */
  function InitialInodes(sb: Superblock, now: Clock): (r: seq<Inode>)
    requires WellFormedLayout(sb)
    ensures |r| == sb.inodeCount
  {
    [Inode(now, 2 * DirEntrySize, DirType, 1, [sb.rootDirAddress, 0, 0, 0, 0], 0, 0, 0)]
      + seq(sb.inodeCount - 1, _ => ZeroInode)
  }

  /** A formatted file system, or the constructor's exception. */
  function Format(bs: nat, n: nat, now: Clock): (r: Result<Image>)
    requires 1 <= bs <= 512 && 1 <= n < 0x1_0000
    ensures r.Ok? ==> Sized(r.value) && WellFormedLayout(r.value.sb)
    ensures r.Ok? ==> r.value.sb.blockSize == bs && r.value.sb.inodeCount == n
  {
    var sb :- LayoutOf(bs, n);
    LayoutProperties(bs, n);
    Ok(Image(sb, InitialInodes(sb, now), CreateFile(sb)))
  }
}
