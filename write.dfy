/** write(inode_index, pos, size, buf), direct-pointer tier. The source
    computes the first block to write, fills blocks ba[cur], ba[cur + 1], ...
    from pos on (allocating a block for a zero pointer), keeps every filled
    block in the inode_blocks buffer and writes the buffer back at the end.
    Data that reaches past the 5 direct blocks goes to the indirect tiers,
    which this model does not cover. */
module FileWrite {
  import opened Types
  import opened BlockCodec
  import opened Layout
  import opened BlockAlloc
  import opened Walks

  function Pow2(n: nat): (r: nat)
    ensures r >= 1
  {
    if n == 0 then 1 else 2 * Pow2(n - 1)
  }

  /** The branches of write after the direct test, for blocks of n bytes
      holding cap addresses: the double-indirect range starts the walk at tier
      5, the triple-indirect range at tier 6, and any other position is
      refused with runtime_error. */
  function StartTier(n: nat, cap: nat, pos: nat): (r: Result<nat>)
    ensures r.Ok? ==> r.value >= DirectCount
    ensures r.Err? ==> r.error == RuntimeError
  {
    var cap2: nat := cap * cap;
    var span2: nat := cap2 * n;
    var offDi: nat := cap * n + DirectCount * n;
    var offTi: nat := offDi + span2;
    if pos >= offDi && pos - offDi < span2 then Ok(DirectCount)
    else if pos >= offTi && pos - offTi < cap * span2 then Ok(DirectCount + 1)
    else Err(RuntimeError)
  }

  function Quot(a: nat, n: nat): nat
    requires n >= 1
  {
    a / n
  }

  /** The start test of write: a block index q below 6 is used as it is. */
  function StartFrom(q: nat, n: nat, cap: nat, pos: nat): (r: Result<nat>)
    ensures q < DirectCount + 1 ==> r == Ok(q)
    ensures q >= DirectCount + 1 ==> r == StartTier(n, cap, pos)
  {
    if q < DirectCount + 1 then Ok(q) else StartTier(n, cap, pos)
  }

  /** The first block as written: pos >> (10 + block_size). The shift counts
      KiB as if block_size were a power of two exponent; a shift of a 32-bit
      position by 32 or more is undefined. 2^(10 + block_size) is at least
      twice block_size_byte, so from byte block_size_byte on the start lies
      before the block that holds pos. */
  function StartBlockAsWritten(sb: Superblock, pos: nat): (r: Result<nat>)
    requires sb.blockSize >= 1
    ensures 10 + sb.blockSize >= 32 <==> r == Err(Undefined)
    ensures 10 + sb.blockSize < 32 && pos < BlockBytes(sb) ==> r == Ok(0)
    ensures r.Ok? ==> r.value * BlockBytes(sb) <= pos
    ensures r.Ok? && BlockBytes(sb) <= pos < (DirectCount + 1) * BlockBytes(sb) ==> r.value < pos / BlockBytes(sb)
  {
    var shift: nat := 10 + sb.blockSize;
    if shift >= 32 then Err(Undefined)
    else
      Pow2Doubles(sb.blockSize);
      StartFromLags(BlockBytes(sb), BlockCap(sb), Pow2(shift), pos);
      StartFrom(Quot(pos, Pow2(shift)), BlockBytes(sb), BlockCap(sb), pos)
  }

  lemma StartFromLags(n: nat, cap: nat, m: nat, pos: nat)
    requires n >= 1 && cap >= 1 && m >= 2 * n
    ensures var r := StartFrom(Quot(pos, m), n, cap, pos);
      && (pos < n ==> r == Ok(0))
      && (r.Ok? ==> r.value * n <= pos)
      && (r.Ok? && n <= pos < (DirectCount + 1) * n ==> r.value < pos / n)
  {
    QuotLags(pos, n, m);
    StartTierPast(n, cap, pos);
    if pos < n {
      QuotSmall(pos, m);
    }
    if pos < (DirectCount + 1) * n {
      QuotBelow(pos, n, DirectCount + 1);
    }
  }

  /** The first block of the byte at pos: pos div block_size_byte, which is
      the block holding pos as long as that is one of the first six. */
  function StartBlock(sb: Superblock, pos: nat): (r: Result<nat>)
    requires sb.blockSize >= 1
    ensures pos < (DirectCount + 1) * BlockBytes(sb) ==>
      r.Ok? && r.value * BlockBytes(sb) <= pos < r.value * BlockBytes(sb) + BlockBytes(sb)
    ensures r.Ok? ==> r.value * BlockBytes(sb) <= pos
    ensures r.Err? ==> r.error == RuntimeError
  {
    var n := BlockBytes(sb);
    DivStart(pos, n);
    StartTierPast(n, BlockCap(sb), pos);
    QuotBelow(pos, n, DirectCount + 1);
    StartFrom(Quot(pos, n), n, BlockCap(sb), pos)
  }

  lemma QuotBelow(pos: nat, n: nat, k: nat)
    requires n >= 1
    ensures pos < k * n ==> Quot(pos, n) < k
  {
    if pos < k * n && Quot(pos, n) >= k {
      MulLe(k, Quot(pos, n), n);
    }
  }

  /** The tiers past the direct blocks start beyond their first block. */
  lemma StartTierPast(n: nat, cap: nat, pos: nat)
    requires cap >= 1
    ensures StartTier(n, cap, pos).Ok? ==> StartTier(n, cap, pos).value * n <= pos
  {
    MulLe(1, cap, n);
  }

  /** 2^(10 + k) is at least 2 * 1024 * k. */
  lemma {:induction false} Pow2Doubles(k: nat)
    requires k >= 1
    ensures Pow2(10 + k) >= 2 * (1024 * k)
  {
    if k == 1 {
      Pow2Grows(11);
    } else {
      Pow2Doubles(k - 1);
    }
  }

  /** Dividing by m >= 2n gives a block index at most pos / n, and below it
      once pos reaches n. */
  lemma QuotLags(pos: nat, n: nat, m: nat)
    requires n >= 1 && m >= 2 * n
    ensures Quot(pos, m) * n <= pos
    ensures pos >= n ==> Quot(pos, m) < pos / n
  {
    var q, b := pos / m, pos / n;
    MulLe(2 * n, m, q);
    assert q * m <= pos;
    DivStart(pos, n);
    if pos >= n && 2 * q >= b + 1 {
      MulLe(b + 1, 2 * q, n);
    }
  }

  /** The inner loop: the block's bytes from off on replaced by data, as far
      as the block reaches. */
  function FillFrom(blk: Bytes, off: nat, data: Bytes): (r: Bytes)
    requires off <= |blk| && |data| <= |blk| - off
    ensures |r| == |blk|
    ensures forall i | 0 <= i < |blk| :: r[i] == if off <= i < off + |data| then data[i - off] else blk[i]
  {
    blk[..off] + data + blk[off + |data|..]
  }

  /** A block kept in the inode_blocks buffer: block bno as loaded (base),
      with chunk copied in from byte off on. */
  datatype Pending = Pending(bno: nat, base: Bytes, off: nat, chunk: Bytes)

  /** The chunk fits in the block from off on. */
  predicate Bounded(p: Pending) {
    p.off + |p.chunk| <= |p.base|
  }

  /** The bytes a kept block holds. */
  function Filled(p: Pending): (r: Bytes)
    requires Bounded(p)
    ensures |r| == |p.base|
  {
    FillFrom(p.base, p.off, p.chunk)
  }

  /** The state of the direct loop: the image, the buffer, the next block
      index, the position and the data not yet written. */
  datatype Loop = Loop(img: Image, pending: seq<Pending>, cur: nat, pos: nat, rest: Bytes)

  /** Every kept block lies within the image and is a whole block. */
  predicate PendingFits(img: Image, pending: seq<Pending>) {
    forall k | 0 <= k < |pending| :: pending[k].bno < |img.disk| && |pending[k].base| == BlockBytes(img.sb)
      && pending[k].off + |pending[k].chunk| <= BlockBytes(img.sb)
  }

  /** A state the loop can run from. */
  predicate LoopOk(index: nat, s: Loop) {
    Sized(s.img) && index < |s.img.inodes| && PendingFits(s.img, s.pending)
  }

  /** img1 is img with pointer cur of inode index possibly set, and the
      block sizes and counts kept. */
  predicate Grown(img: Image, img1: Image, index: nat, cur: nat)
    requires index < |img.inodes| && cur < DirectCount
  {
    && Sized(img1) && |img1.inodes| == |img.inodes| && |img1.disk| == |img.disk|
    && img1.sb.blockSize == img.sb.blockSize && img1.sb.freeInodeCount == img.sb.freeInodeCount
    && (forall i | 0 <= i < |img.inodes| && i != index :: img1.inodes[i] == img.inodes[i])
    && img1.inodes[index] == img.inodes[index].(ba := img.inodes[index].ba[cur := img1.inodes[index].ba[cur]])
    && (img.inodes[index].ba[cur] != 0 ==> img1.inodes[index].ba[cur] == img.inodes[index].ba[cur])
  }

  /** A direct pointer that is 0 gets a block from get_free_block; the
      inode is changed in memory only. */
  function EnsureBlock(img: Image, index: nat, cur: nat): (r: Result<Image>)
    requires Sized(img) && index < |img.inodes| && cur < DirectCount
    ensures img.inodes[index].ba[cur] != 0 ==> r == Ok(img)
    ensures r.Ok? ==> Grown(img, r.value, index, cur)
    ensures r.Err? ==> r.error in {IoFailure, LengthError}
  {
    var ino := img.inodes[index];
    if ino.ba[cur] != 0 then Ok(img)
    else
      var g :- GetFreeBlock(img);
      Ok(g.img.(inodes := g.img.inodes[index := ino.(ba := ino.ba[cur := g.value])]))
  }

  /** How many bytes the inner loop writes into a block of n bytes from
      offset pos mod n: up to the end of the block or of the data. */
  function Taken(pos: nat, n: nat, len: nat): (k: nat)
    requires n >= 1
    ensures k <= len && pos % n + k <= n
    ensures k == len || pos % n + k == n
    ensures len >= 1 ==> k >= 1
  {
    Min(n - pos % n, len)
  }

  /** The block the direct loop keeps at index cur. */
  function Kept(img1: Image, index: nat, cur: nat, pos: nat, data: Bytes, n: nat): (p: Pending)
    requires Sized(img1) && index < |img1.inodes| && cur < DirectCount && n == BlockBytes(img1.sb)
    requires img1.inodes[index].ba[cur] < |img1.disk|
    ensures p.bno == img1.inodes[index].ba[cur] && |p.base| == n && p.off + |p.chunk| <= n
  {
    var b := img1.inodes[index].ba[cur];
    Pending(b, img1.disk[b], pos % n, data[..Taken(pos, n, |data|)])
  }

  /** s1 is s after one pass of the loop body: pointer s.cur set (when it
      was 0), the block it names loaded and kept with the next chunk of the
      data copied in, and the position and the data moved past that chunk. */
  predicate Turned(index: nat, s: Loop, s1: Loop)
    requires LoopOk(index, s) && s.cur < DirectCount
  {
    && LoopOk(index, s1) && Grown(s.img, s1.img, index, s.cur)
    && s1.cur == s.cur + 1
    && s1.img.inodes[index].ba[s.cur] < |s1.img.disk|
    && var n := BlockBytes(s.img.sb);
      var k := Taken(s.pos, n, |s.rest|);
      && s1.pos == s.pos + k && s1.rest == s.rest[k..]
      && s1.pending == s.pending + [Kept(s1.img, index, s.cur, s.pos, s.rest, n)]
  }

  /** One turn of the direct loop at block index cur: a zero pointer gets a
      block from get_free_block, the block is read from the backing file and
      filled from pos mod block_size_byte on, and kept. */
  function Turn(index: nat, s: Loop): (r: Result<Loop>)
    requires LoopOk(index, s) && s.cur < DirectCount && s.rest != []
    ensures r.Ok? ==> Turned(index, s, r.value)
    ensures r.Err? ==> r.error in {IoFailure, LengthError}
  {
    var img1 :- EnsureBlock(s.img, index, s.cur);
    var b := img1.inodes[index].ba[s.cur];
    var _ :- LoadBlock(img1, b);
    var n := BlockBytes(s.img.sb);
    var k := Taken(s.pos, n, |s.rest|);
    Ok(Loop(img1, s.pending + [Kept(img1, index, s.cur, s.pos, s.rest, n)], s.cur + 1, s.pos + k, s.rest[k..]))
  }

  /** What a run of the direct loop keeps: the image's sizes, and kept
      blocks of the block size inside the disk. */
  predicate LoopFits(img: Image, index: nat, l: Loop) {
    && LoopOk(index, l) && |l.img.inodes| == |img.inodes| && |l.img.disk| == |img.disk|
    && l.img.sb.blockSize == img.sb.blockSize && l.img.sb.freeInodeCount == img.sb.freeInodeCount
  }

  /** The direct loop, from block index s.cur on, while data remains: the
      test cur_block < direct_count. */
  function DirectLoop(index: nat, s: Loop): (r: Result<Loop>)
    requires LoopOk(index, s)
    ensures r.Ok? ==> LoopFits(s.img, index, r.value)
    ensures r.Err? ==> r.error in {IoFailure, LengthError}
    decreases |s.rest|, 2
  {
    if s.cur >= DirectCount then Ok(s)
    else DirectWhile(index, s)
  }

  /** The direct loop's second test, size > 0. */
  function DirectWhile(index: nat, s: Loop): (r: Result<Loop>)
    requires LoopOk(index, s) && s.cur < DirectCount
    ensures r.Ok? ==> LoopFits(s.img, index, r.value)
    ensures r.Err? ==> r.error in {IoFailure, LengthError}
    decreases |s.rest|, 1
  {
    if s.rest == [] then Ok(s)
    else DirectTurn(index, s)
  }

  /** One pass of the direct loop's body, then the rest of the loop. */
  function DirectTurn(index: nat, s: Loop): (r: Result<Loop>)
    requires LoopOk(index, s) && s.cur < DirectCount && s.rest != []
    ensures r.Ok? ==> LoopFits(s.img, index, r.value)
    ensures r.Err? ==> r.error in {IoFailure, LengthError}
    decreases |s.rest|, 0
  {
    var s1 :- Turn(index, s);
    DirectLoop(index, s1)
  }

  /** write_inode_blocks_buffer: the kept blocks written back in order. */
  function Flush(disk: seq<Bytes>, pending: seq<Pending>): (r: seq<Bytes>)
    requires forall k | 0 <= k < |pending| :: pending[k].bno < |disk| && Bounded(pending[k])
    ensures |r| == |disk|
    ensures forall b | 0 <= b < |disk| && (forall k | 0 <= k < |pending| :: pending[k].bno != b) :: r[b] == disk[b]
    decreases |pending|
  {
    if pending == [] then disk
    else
      var r := Flush(disk[pending[0].bno := Filled(pending[0])], pending[1..]);
      assert forall k | 1 <= k < |pending| :: pending[1..][k - 1] == pending[k];
      r
  }

  /** Blocks of m bytes written over blocks of m bytes leave every block m
      bytes long. */
  lemma {:induction false} FlushKeepsSizes(disk: seq<Bytes>, pending: seq<Pending>, m: nat)
    requires forall k | 0 <= k < |pending| :: pending[k].bno < |disk| && Bounded(pending[k]) && |pending[k].base| == m
    requires forall b | 0 <= b < |disk| :: |disk[b]| == m
    ensures forall b | 0 <= b < |disk| :: |Flush(disk, pending)[b]| == m
    decreases |pending|
  {
    if pending != [] {
      assert forall k | 1 <= k < |pending| :: pending[1..][k - 1] == pending[k];
      FlushKeepsSizes(disk[pending[0].bno := Filled(pending[0])], pending[1..], m);
    }
  }

  /** The checks write makes before it writes: the inode's size is below
      max_file_size and pos is not past it (runtime_error otherwise). */
  function WriteWith(img: Image, index: nat, pos: nat, data: Bytes, start: Result<nat>): (r: Result<Image>)
    requires Sized(img)
    ensures r.Ok? ==> Sized(r.value) && |r.value.inodes| == |img.inodes| && |r.value.disk| == |img.disk|
    ensures r.Ok? ==> r.value.sb.blockSize == img.sb.blockSize && r.value.sb.freeInodeCount == img.sb.freeInodeCount
  {
    if index >= |img.inodes| then Err(Undefined)
    else if img.inodes[index].size >= MaxFileSize || pos > img.inodes[index].size then Err(RuntimeError)
    else
      var cur :- start;
      var l :- DirectLoop(index, Loop(img, [], cur, pos, data));
      if l.rest != [] then Err(NotModelled)
      else
        var disk := Flush(l.img.disk, l.pending);
        FlushKeepsSizes(l.img.disk, l.pending, BlockBytes(img.sb));
        Ok(l.img.(disk := disk))
  }

  /** write(inode_index, pos, size, buf) as written, first block by shift. */
  function WriteAsWritten(img: Image, index: nat, pos: nat, data: Bytes): (r: Result<Image>)
    requires Sized(img)
    ensures r.Ok? ==> Sized(r.value) && |r.value.inodes| == |img.inodes| && |r.value.disk| == |img.disk|
    ensures r.Ok? ==> r.value.sb.blockSize == img.sb.blockSize && r.value.sb.freeInodeCount == img.sb.freeInodeCount
    ensures index >= |img.inodes| ==> r == Err(Undefined)
    ensures index < |img.inodes| && (img.inodes[index].size >= MaxFileSize || pos > img.inodes[index].size) ==>
      r == Err(RuntimeError)
    ensures (index < |img.inodes| && img.inodes[index].size < MaxFileSize && pos <= img.inodes[index].size
      && 10 + img.sb.blockSize >= 32) ==> r == Err(Undefined)
  {
    WriteWith(img, index, pos, data, StartBlockAsWritten(img.sb, pos))
  }

  /** write(inode_index, pos, size, buf), the first block being the one that
      holds byte pos. */
  function Write(img: Image, index: nat, pos: nat, data: Bytes): (r: Result<Image>)
    requires Sized(img)
    ensures r.Ok? ==> Sized(r.value) && |r.value.inodes| == |img.inodes| && |r.value.disk| == |img.disk|
    ensures r.Ok? ==> r.value.sb.blockSize == img.sb.blockSize && r.value.sb.freeInodeCount == img.sb.freeInodeCount
    ensures index >= |img.inodes| ==> r == Err(Undefined)
    ensures index < |img.inodes| && (img.inodes[index].size >= MaxFileSize || pos > img.inodes[index].size) ==>
      r == Err(RuntimeError)
  {
    WriteWith(img, index, pos, data, StartBlock(img.sb, pos))
  }

  // ------------------------------------------------------------ properties

  /** When cur * n <= pos < cur * n + n, byte pos lies in block cur at offset
      pos - cur * n. */
  lemma BlockOf(pos: nat, cur: nat, n: nat)
    requires n >= 1 && cur * n <= pos < cur * n + n
    ensures pos / n == cur && pos % n == pos - cur * n
  {
    var q := pos / n;
    assert pos == q * n + pos % n;
    if q < cur {
      MulLe(q + 1, cur, n);
    } else if q > cur {
      MulLe(cur + 1, q, n);
    }
  }

  lemma MulAdd(x: nat, y: nat, n: nat)
    ensures (x + y) * n == x * n + y * n
  {
  }

  /** The direct loop from a state with data left and a block index below
      5 goes on from the state one turn gives. */
  lemma DirectLoopTurns(index: nat, s: Loop) returns (s1: Loop)
    requires LoopOk(index, s) && s.cur < DirectCount && s.rest != []
    requires DirectLoop(index, s).Ok?
    ensures Turned(index, s, s1) && DirectLoop(index, s) == DirectLoop(index, s1)
  {
    assert DirectLoop(index, s) == DirectWhile(index, s);
    assert DirectWhile(index, s) == DirectTurn(index, s);
    s1 := Turn(index, s).value;
  }

  /** The direct loop stops at block index 5 or when no data remains. */
  lemma DirectLoopDone(index: nat, s: Loop)
    requires LoopOk(index, s) && (s.cur >= DirectCount || s.rest == [])
    ensures DirectLoop(index, s) == Ok(s)
  {
  }

  /** The direct loop keeps one block per index it passes, after the ones
      kept before. */
  lemma {:induction false} DirectLoopCount(index: nat, s: Loop)
    requires LoopOk(index, s) && DirectLoop(index, s).Ok?
    ensures var l := DirectLoop(index, s).value;
      && (s.cur < DirectCount ==> s.cur <= l.cur <= DirectCount) && (s.cur >= DirectCount ==> l.cur == s.cur)
      && |l.pending| == |s.pending| + (l.cur - s.cur)
      && l.pending[..|s.pending|] == s.pending
    decreases |s.rest|
  {
    if s.cur < DirectCount && s.rest != [] {
      var s1 := DirectLoopTurns(index, s);
      DirectLoopCount(index, s1);
      var l := DirectLoop(index, s1).value;
      assert l.pending[..|s.pending|] == l.pending[..|s1.pending|][..|s.pending|];
    } else {
      DirectLoopDone(index, s);
    }
  }

  /** The direct loop changes no other inode. */
  lemma {:induction false} DirectLoopOthers(index: nat, s: Loop)
    requires LoopOk(index, s) && DirectLoop(index, s).Ok?
    ensures forall i | 0 <= i < |s.img.inodes| && i != index ::
      DirectLoop(index, s).value.img.inodes[i] == s.img.inodes[i]
    decreases |s.rest|
  {
    if s.cur < DirectCount && s.rest != [] {
      var s1 := DirectLoopTurns(index, s);
      DirectLoopOthers(index, s1);
    } else {
      DirectLoopDone(index, s);
    }
  }

  /** Of the written inode, the direct loop changes the block pointers only. */
  lemma {:induction false} DirectLoopOnlyPointers(index: nat, s: Loop)
    requires LoopOk(index, s) && DirectLoop(index, s).Ok?
    ensures var ino := DirectLoop(index, s).value.img.inodes[index];
      ino == s.img.inodes[index].(ba := ino.ba)
    decreases |s.rest|
  {
    if s.cur < DirectCount && s.rest != [] {
      var s1 := DirectLoopTurns(index, s);
      DirectLoopOnlyPointers(index, s1);
    } else {
      DirectLoopDone(index, s);
    }
  }

  /** The direct loop sets a pointer only where it was 0, and only at an
      index from s.cur on. */
  lemma {:induction false} DirectLoopKeepsSet(index: nat, s: Loop, m: nat)
    requires LoopOk(index, s) && DirectLoop(index, s).Ok?
    requires m < DirectCount && (m < s.cur || s.img.inodes[index].ba[m] != 0)
    ensures DirectLoop(index, s).value.img.inodes[index].ba[m] == s.img.inodes[index].ba[m]
    decreases |s.rest|
  {
    if s.cur < DirectCount && s.rest != [] {
      var s1 := DirectLoopTurns(index, s);
      DirectLoopKeepsSet(index, s1, m);
    } else {
      DirectLoopDone(index, s);
    }
  }

  /** Each block the loop keeps is the block that the inode's pointer at
      that index names at the end. */
  lemma {:induction false} DirectLoopKeptAt(index: nat, s: Loop, l: Loop, m: nat)
    requires LoopOk(index, s) && DirectLoop(index, s) == Ok(l)
    requires s.cur <= m < l.cur
    ensures m < DirectCount && |s.pending| + (m - s.cur) < |l.pending|
    ensures l.pending[|s.pending| + (m - s.cur)].bno == l.img.inodes[index].ba[m]
    decreases |s.rest|
  {
    if s.cur >= DirectCount || s.rest == [] {
      DirectLoopDone(index, s);
      assert false;
    }
    var s1 := DirectLoopTurns(index, s);
    DirectLoopCount(index, s1);
    if m == s.cur {
      DirectLoopKeepsSet(index, s1, m);
      assert l.pending[|s.pending|] == l.pending[..|s1.pending|][|s.pending|];
    } else {
      DirectLoopKeptAt(index, s1, l, m);
    }
  }

  /** Every index the loop passes was reached while data remained: block
      index m starts, at m * n, before the end of the data. at is the offset
      s.cur * n where block index s.cur starts. */
  lemma {:induction false} DirectLoopReached(index: nat, s: Loop, n: nat, at: nat, l: Loop, m: nat)
    requires LoopOk(index, s) && n == BlockBytes(s.img.sb) && DirectLoop(index, s) == Ok(l)
    requires at == s.cur * n && (s.rest == [] || at <= s.pos < at + n)
    requires s.cur <= m < l.cur
    ensures m * n < s.pos + |s.rest|
    decreases |s.rest|
  {
    if s.cur >= DirectCount || s.rest == [] {
      DirectLoopDone(index, s);
      assert false;
    }
    var s1 := DirectLoopTurns(index, s);
    if m > s.cur {
      BlockOf(s.pos, s.cur, n);
      MulAdd(s.cur, 1, n);
      DirectLoopReached(index, s1, n, at + n, l, m);
    }
  }

  /** Byte cur * n + o of the file, when it lies in the chunk, is byte o of
      the block kept for block index cur. */
  lemma KeptLands(img1: Image, index: nat, cur: nat, pos: nat, data: Bytes, n: nat, o: nat)
    requires Sized(img1) && index < |img1.inodes| && cur < DirectCount && n == BlockBytes(img1.sb)
    requires img1.inodes[index].ba[cur] < |img1.disk|
    requires cur * n <= pos < cur * n + n && o < n && pos <= cur * n + o < pos + |data|
    ensures Bounded(Kept(img1, index, cur, pos, data, n))
    ensures Filled(Kept(img1, index, cur, pos, data, n))[o] == data[cur * n + o - pos]
  {
    BlockOf(pos, cur, n);
  }

  /** Where the direct loop puts each byte: byte j * n + o of the file, when
      it lies in the written range, is byte o of the block kept for block
      index j. */
  lemma {:induction false} DirectLoopLands(index: nat, s: Loop, n: nat, at: nat, l: Loop, j: nat, o: nat)
    requires LoopOk(index, s) && n == BlockBytes(s.img.sb) && DirectLoop(index, s) == Ok(l)
    requires at == s.cur * n && (s.rest == [] || at <= s.pos < at + n)
    requires l.rest == [] && s.cur <= j && o < n && s.pos <= j * n + o < s.pos + |s.rest|
    ensures j < l.cur && |s.pending| + (j - s.cur) < |l.pending|
    ensures Bounded(l.pending[|s.pending| + (j - s.cur)]) && o < |l.pending[|s.pending| + (j - s.cur)].base|
    ensures Filled(l.pending[|s.pending| + (j - s.cur)])[o] == s.rest[j * n + o - s.pos]
    decreases |s.rest|
  {
    if s.cur >= DirectCount || s.rest == [] {
      DirectLoopDone(index, s);
      assert false;
    }
    var s1 := DirectLoopTurns(index, s);
    BlockOf(s.pos, s.cur, n);
    DirectLoopCount(index, s1);
    if j == s.cur {
      assert l.pending[|s.pending|] == l.pending[..|s1.pending|][|s.pending|];
      KeptLands(s1.img, index, s.cur, s.pos, s.rest, n, o);
    } else {
      MulAdd(s.cur, 1, n);
      MulLe(s.cur + 1, j, n);
      DirectLoopLands(index, s1, n, at + n, l, j, o);
      assert s1.rest[j * n + o - s1.pos] == s.rest[j * n + o - s.pos];
    }
  }

  /** A kept block that no later kept block overwrites is on the disk after
      write_inode_blocks_buffer. */
  lemma {:induction false} FlushAt(disk: seq<Bytes>, pending: seq<Pending>, m: nat)
    requires forall k | 0 <= k < |pending| :: pending[k].bno < |disk| && Bounded(pending[k])
    requires m < |pending| && forall k | m < k < |pending| :: pending[k].bno != pending[m].bno
    ensures Flush(disk, pending)[pending[m].bno] == Filled(pending[m])
    decreases |pending|
  {
    var d1 := disk[pending[0].bno := Filled(pending[0])];
    assert forall k | 1 <= k < |pending| :: pending[1..][k - 1] == pending[k];
    if m > 0 {
      FlushAt(d1, pending[1..], m - 1);
    }
  }

  /** The first block write uses is the block that holds byte pos, and the
      whole range lies in the direct blocks. */
  lemma WriteStarts(img: Image, index: nat, pos: nat, data: Bytes, n: nat)
    requires Sized(img) && n == BlockBytes(img.sb)
    requires Write(img, index, pos, data).Ok? && data != []
    ensures index < |img.inodes| && pos / n < DirectCount
    ensures var l := DirectLoop(index, Loop(img, [], pos / n, pos, data));
      l.Ok? && l.value.rest == [] && Write(img, index, pos, data) == Ok(l.value.img.(disk := Flush(l.value.img.disk, l.value.pending)))
  {
    var q := Quot(pos, n);
    assert StartBlock(img.sb, pos) == StartFrom(q, n, BlockCap(img.sb), pos);
  }

  lemma DivStart(pos: nat, n: nat)
    requires n >= 1
    ensures pos / n * n <= pos < pos / n * n + n
  {
  }

  /** When the pointers passed after index j differ from pointer j, no
      block kept after the one for index j is the same block. */
  lemma DirectLoopLastKept(index: nat, s: Loop, l: Loop, j: nat)
    requires LoopOk(index, s) && s.pending == [] && DirectLoop(index, s) == Ok(l)
    requires s.cur <= j < l.cur
    requires forall m | j < m < DirectCount && m < l.cur :: l.img.inodes[index].ba[m] != l.img.inodes[index].ba[j]
    ensures j - s.cur < |l.pending|
    ensures forall m | j - s.cur < m < |l.pending| :: l.pending[m].bno != l.pending[j - s.cur].bno
  {
    DirectLoopCount(index, s);
    DirectLoopKeptAt(index, s, l, j);
    forall m | j - s.cur < m < |l.pending|
      ensures l.pending[m].bno != l.pending[j - s.cur].bno
    {
      DirectLoopKeptAt(index, s, l, s.cur + m);
    }
  }

  /** What the direct loop and the flush after it do to a byte: byte j * n
      + o of the written range ends up as byte o of the block that pointer j
      names, as long as the pointers of the written blocks are distinct. */
  lemma DirectLoopWritten(index: nat, s: Loop, n: nat, at: nat, l: Loop, j: nat, o: nat)
    requires LoopOk(index, s) && s.pending == [] && n == BlockBytes(s.img.sb) && DirectLoop(index, s) == Ok(l)
    requires at == s.cur * n && at <= s.pos < at + n
    requires l.rest == [] && o < n && s.pos <= j * n + o < s.pos + |s.rest|
    requires forall m | j < m < DirectCount && m < l.cur :: l.img.inodes[index].ba[m] != l.img.inodes[index].ba[j]
    ensures j < DirectCount && l.img.inodes[index].ba[j] < |l.img.disk|
    ensures |Flush(l.img.disk, l.pending)[l.img.inodes[index].ba[j]]| == n
    ensures Flush(l.img.disk, l.pending)[l.img.inodes[index].ba[j]][o] == s.rest[j * n + o - s.pos]
  {
    if j < s.cur {
      MulLe(j + 1, s.cur, n);
    }
    DirectLoopLands(index, s, n, at, l, j, o);
    DirectLoopKeptAt(index, s, l, j);
    var d := j - s.cur;
    DirectLoopLastKept(index, s, l, j);
    FlushedByte(l.img, l.pending, d, o, n);
  }

  /** After the flush, the block of a pending write that no later pending
      write names holds that write's bytes, and keeps its size. */
  lemma FlushedByte(img: Image, pending: seq<Pending>, d: nat, o: nat, n: nat)
    requires Sized(img) && n == BlockBytes(img.sb) && PendingFits(img, pending)
    requires d < |pending| && o < n
    requires forall k | d < k < |pending| :: pending[k].bno != pending[d].bno
    ensures pending[d].bno < |img.disk| && |Flush(img.disk, pending)[pending[d].bno]| == n
    ensures o < |Filled(pending[d])| && Flush(img.disk, pending)[pending[d].bno][o] == Filled(pending[d])[o]
  {
    FlushAt(img.disk, pending, d);
    FlushKeepsSizes(img.disk, pending, n);
  }

  /** write puts every byte where a later read finds it: byte j * n + o of
      the written range is byte o of the block that direct pointer j names
      afterwards, as long as the pointers of the written blocks are distinct. */
  lemma WriteLands(img: Image, index: nat, pos: nat, data: Bytes, n: nat, j: nat, o: nat)
    requires Sized(img) && n == BlockBytes(img.sb)
    requires Write(img, index, pos, data).Ok?
    requires o < n && pos <= j * n + o < pos + |data|
    requires var ba := Write(img, index, pos, data).value.inodes[index].ba;
      forall j1, j2 | 0 <= j1 < j2 < DirectCount && pos < j1 * n + n && j2 * n < pos + |data| :: ba[j1] != ba[j2]
    ensures j < DirectCount
    ensures var r := Write(img, index, pos, data).value;
      r.inodes[index].ba[j] < |r.disk| && r.disk[r.inodes[index].ba[j]][o] == data[j * n + o - pos]
  {
    WriteStarts(img, index, pos, data, n);
    var c := pos / n;
    DivStart(pos, n);
    var s0 := Loop(img, [], c, pos, data);
    var l := DirectLoop(index, s0).value;
    if j < c {
      MulLe(j + 1, c, n);
    }
    forall m | j < m < DirectCount && m < l.cur
      ensures l.img.inodes[index].ba[m] != l.img.inodes[index].ba[j]
    {
      DirectLoopReached(index, s0, n, c * n, l, m);
    }
    DirectLoopWritten(index, s0, n, c * n, l, j, o);
  }

  /** write changes no inode but the one written, and of it only the direct
      pointers that were 0. */
  lemma WriteFrame(img: Image, index: nat, pos: nat, data: Bytes)
    requires Sized(img) && Write(img, index, pos, data).Ok? && data != []
    ensures var r := Write(img, index, pos, data).value;
      && index < |img.inodes|
      && (forall i | 0 <= i < |img.inodes| && i != index :: r.inodes[i] == img.inodes[i])
      && r.inodes[index] == img.inodes[index].(ba := r.inodes[index].ba)
      && (forall m | 0 <= m < DirectCount && img.inodes[index].ba[m] != 0 :: r.inodes[index].ba[m] == img.inodes[index].ba[m])
  {
    var n := BlockBytes(img.sb);
    WriteStarts(img, index, pos, data, n);
    var c := pos / n;
    var r := Write(img, index, pos, data).value;
    var s0 := Loop(img, [], c, pos, data);
    DirectLoopOthers(index, s0);
    DirectLoopOnlyPointers(index, s0);
    forall m | 0 <= m < DirectCount && img.inodes[index].ba[m] != 0
      ensures r.inodes[index].ba[m] == img.inodes[index].ba[m]
    {
      DirectLoopKeepsSet(index, s0, m);
    }
  }
  /** A write that fits in the block holding byte pos changes only that
      block, after the block is taken from the free list when its pointer was
      0: the block gets the data from offset pos mod n on and keeps its other
      bytes. */
  lemma WriteOneBlock(img: Image, index: nat, pos: nat, data: Bytes, n: nat)
    requires Sized(img) && n == BlockBytes(img.sb)
    requires Write(img, index, pos, data).Ok? && data != []
    requires pos % n + |data| <= n
    ensures index < |img.inodes| && pos / n < DirectCount
    ensures EnsureBlock(img, index, pos / n).Ok?
    ensures var e := EnsureBlock(img, index, pos / n).value;
      var b := e.inodes[index].ba[pos / n];
      b < |e.disk| && Write(img, index, pos, data) == Ok(e.(disk := e.disk[b := FillFrom(e.disk[b], pos % n, data)]))
  {
    WriteStarts(img, index, pos, data, n);
    var c := pos / n;
    var s0 := Loop(img, [], c, pos, data);
    assert DirectLoop(index, s0) == DirectWhile(index, s0);
    assert DirectWhile(index, s0) == DirectTurn(index, s0);
    var s1 := Turn(index, s0).value;
    assert s1.rest == [];
    DirectLoopDone(index, s1);
    var e := EnsureBlock(img, index, c).value;
    assert s1.img == e;
    var p := Kept(e, index, c, pos, data, n);
    assert s1.pending == [p];
    assert p.chunk == data;
    assert Flush(e.disk, [p]) == e.disk[p.bno := Filled(p)];
  }

  /** After a write that fits in one block, block ba[pos / n]
      holds the data from offset pos mod n on. */
  lemma WriteOneBlockLands(img: Image, index: nat, pos: nat, data: Bytes, n: nat)
    requires Sized(img) && n == BlockBytes(img.sb)
    requires Write(img, index, pos, data).Ok? && data != []
    requires pos % n + |data| <= n
    ensures index < |img.inodes| && pos / n < DirectCount
    ensures var r := Write(img, index, pos, data).value; var b := r.inodes[index].ba[pos / n];
      b < |r.disk| && r.disk[b][pos % n .. pos % n + |data|] == data
  {
    WriteOneBlock(img, index, pos, data, n);
  }

  /** A write from position 0 of data spanning at most 5 blocks, with
      distinct pointers for the written blocks, leaves byte j * n + o of data
      at offset o of the block direct pointer j names. */
  lemma WriteFromStart(img: Image, index: nat, data: Bytes, n: nat)
    requires Sized(img) && n == BlockBytes(img.sb) && Write(img, index, 0, data).Ok?
    requires var ba := Write(img, index, 0, data).value.inodes[index].ba;
      forall j1, j2 | 0 <= j1 < j2 < DirectCount && j2 * n < |data| :: ba[j1] != ba[j2]
    ensures index < |img.inodes|
    ensures var r := Write(img, index, 0, data).value;
      forall j | 0 <= j < DirectCount && j * n < |data| :: r.inodes[index].ba[j] < |r.disk|
    ensures var r := Write(img, index, 0, data).value;
      forall j, o | 0 <= j < DirectCount && 0 <= o < n && j * n + o < |data| ::
        r.disk[r.inodes[index].ba[j]][o] == data[j * n + o]
  {
    var r := Write(img, index, 0, data).value;
    forall j | 0 <= j < DirectCount && j * n < |data|
      ensures r.inodes[index].ba[j] < |r.disk|
    {
      WriteLands(img, index, 0, data, n, j, 0);
    }
    forall j, o | 0 <= j < DirectCount && 0 <= o < n && j * n + o < |data|
      ensures r.disk[r.inodes[index].ba[j]][o] == data[j * n + o]
    {
      WriteLands(img, index, 0, data, n, j, o);
    }
  }

  /** The shift as written picks the wrong first block: with blocks of
      1 KiB, byte 1024 is the first byte of block 1, but pos >> 11 is 0, so
      the write starts in block 0 (at offset 1024 mod 1024 = 0). */
  lemma StartBlockAsWrittenLags(sb: Superblock)
    requires sb.blockSize == 1
    ensures StartBlockAsWritten(sb, 1024) == Ok(0)
    ensures StartBlock(sb, 1024) == Ok(1)
  {
    assert Pow2(11) == 2048 by {
      assert Pow2(1) == 2 && Pow2(2) == 4 && Pow2(3) == 8 && Pow2(4) == 16 && Pow2(5) == 32;
      assert Pow2(6) == 64 && Pow2(7) == 128 && Pow2(8) == 256 && Pow2(9) == 512 && Pow2(10) == 1024;
    }
  }

  /** The first block write uses is the block that holds byte pos, for every
      position inside the direct blocks and the single-indirect range, and
      both computations agree on the first block. */
  lemma StartBlockHoldsPos(sb: Superblock, pos: nat)
    requires sb.blockSize >= 1 && pos < (DirectCount + 1) * BlockBytes(sb)
    ensures StartBlock(sb, pos) == Ok(pos / BlockBytes(sb))
    ensures StartBlock(sb, pos).value * BlockBytes(sb) <= pos < StartBlock(sb, pos).value * BlockBytes(sb) + BlockBytes(sb)
  {
    var n := BlockBytes(sb);
    var q, o := BlockAndOffset(pos, n);
    if q >= DirectCount + 1 {
      MulLe(DirectCount + 1, q, n);
    }
  }

  /** q * n + x with x < n divides into q and x. */
  lemma DivOfMulAdd(q: nat, x: nat, n: nat)
    requires x < n
    ensures (q * n + x) / n == q && (q * n + x) % n == x
  {
    var a := q * n + x;
    DivStart(a, n);
    if a / n > q {
      MulLe(q + 1, a / n, n);
    } else if a / n < q {
      MulLe(a / n + 1, q, n);
    }
  }

  /** Adding whole blocks keeps the offset in the block. */
  lemma ModAddMul(q: nat, x: nat, n: nat)
    requires n >= 1
    ensures (q * n + x) % n == x % n
  {
    var qx, r := x / n, x % n;
    DivStart(x, n);
    assert q * n + x == (q + qx) * n + r;
    DivOfMulAdd(q + qx, r, n);
  }

  /** Positions with the same offset in their block stay so after k bytes. */
  lemma ModShift(a: nat, b: nat, k: nat, n: nat)
    requires n >= 1 && a % n == b % n
    ensures (a + k) % n == (b + k) % n
  {
    var qa, ra := BlockAndOffset(a, n);
    var qb, rb := BlockAndOffset(b, n);
    var x := ra + k;
    assert a + k == qa * n + x;
    assert b + k == qb * n + x;
    ModAddMul(qa, x, n);
    ModAddMul(qb, x, n);
  }

  /** A turn reads the position only through its offset in the block. */
  lemma TurnShift(index: nat, s: Loop, p: nat)
    requires LoopOk(index, s) && s.cur < DirectCount && s.rest != []
    requires p % BlockBytes(s.img.sb) == s.pos % BlockBytes(s.img.sb)
    ensures var r, r1 := Turn(index, s), Turn(index, s.(pos := p));
      && (r.Err? ==> r1 == r)
      && (r.Ok? ==> r.value.pos >= s.pos && r1 == Ok(r.value.(pos := p + (r.value.pos - s.pos))))
  {
  }

  /** The direct loop run from a position with the same offset in its block
      fills the same blocks with the same bytes; only the final position
      differs. */
  lemma {:induction false} DirectLoopShift(index: nat, s: Loop, p: nat)
    requires LoopOk(index, s) && p % BlockBytes(s.img.sb) == s.pos % BlockBytes(s.img.sb)
    ensures var r, r1 := DirectLoop(index, s), DirectLoop(index, s.(pos := p));
      && (r.Err? ==> r1 == r)
      && (r.Ok? ==> r1.Ok? && r1.value.(pos := r.value.pos) == r.value)
    decreases |s.rest|
  {
    var s1 := s.(pos := p);
    if s.cur < DirectCount && s.rest != [] {
      assert DirectLoop(index, s) == DirectTurn(index, s);
      assert DirectLoop(index, s1) == DirectTurn(index, s1);
      TurnShift(index, s, p);
      if Turn(index, s).Ok? {
        var t := Turn(index, s).value;
        var k := t.pos - s.pos;
        ModShift(s.pos, p, k, BlockBytes(s.img.sb));
        DirectLoopShift(index, t, p + k);
        assert Turn(index, s1) == Ok(t.(pos := p + k));
      }
    }
  }

  /** write as written at pos, with the shift's start block q among the
      first six, is the corrected write at position q * n + pos mod n: the
      data goes where the corrected write would put it for that position,
      which is pos itself only when q is the block holding pos. */
  lemma WriteAsWrittenShifted(img: Image, index: nat, pos: nat, data: Bytes)
    requires Sized(img) && index < |img.inodes| && pos <= img.inodes[index].size
    requires StartBlockAsWritten(img.sb, pos).Ok? && StartBlockAsWritten(img.sb, pos).value < DirectCount + 1
    ensures var n := BlockBytes(img.sb); var at := StartBlockAsWritten(img.sb, pos).value * n + pos % n;
      at <= pos && WriteAsWritten(img, index, pos, data) == Write(img, index, at, data)
  {
    var n := BlockBytes(img.sb);
    var q := StartBlockAsWritten(img.sb, pos).value;
    var at := q * n + pos % n;
    ShiftedStart(q, pos, n);
    assert StartBlock(img.sb, at) == Ok(q);
    WriteWithShift(img, index, at, pos, data, q);
  }

  /** The block q and the offset of pos in its block give a position at or
      before pos, in block q, at the same offset. */
  lemma ShiftedStart(q: nat, pos: nat, n: nat)
    requires n >= 1 && q * n <= pos
    ensures q * n + pos % n <= pos
    ensures (q * n + pos % n) / n == q && (q * n + pos % n) % n == pos % n
  {
    DivStart(pos, n);
    if q > pos / n {
      MulLe(pos / n + 1, q, n);
    }
    MulLe(q, pos / n, n);
    DivOfMulAdd(q, pos % n, n);
  }

  /** Two writes from the same start block at positions with the same offset
      in their block, both past the size checks, give the same image. */
  lemma WriteWithShift(img: Image, index: nat, at: nat, pos: nat, data: Bytes, q: nat)
    requires Sized(img) && index < |img.inodes| && at <= pos <= img.inodes[index].size
    requires at % BlockBytes(img.sb) == pos % BlockBytes(img.sb)
    ensures WriteWith(img, index, pos, data, Ok(q)) == WriteWith(img, index, at, data, Ok(q))
  {
    DirectLoopShift(index, Loop(img, [], q, at, data), pos);
  }

  /** With 1 KiB blocks, write as written at byte 1024 is the corrected
      write at byte 0: the data lands over the start of block 0. A directory
      of 128 entries thus gets its next entry written over ".". */
  lemma WriteAsWrittenAt1024(img: Image, index: nat, data: Bytes)
    requires Sized(img) && img.sb.blockSize == 1 && index < |img.inodes| && 1024 <= img.inodes[index].size
    ensures WriteAsWritten(img, index, 1024, data) == Write(img, index, 0, data)
  {
    StartBlockAsWrittenLags(img.sb);
    WriteAsWrittenShifted(img, index, 1024, data);
  }

  lemma QuotSmall(a: nat, m: nat)
    requires a < m
    ensures Quot(a, m) == 0
  {
  }

  /** 2^k is at least 1024 * (k - 9) for k >= 10. */
  lemma {:induction false} Pow2Grows(k: nat)
    requires k >= 10
    ensures Pow2(k) >= 1024 * (k - 9)
  {
    if k == 10 {
      assert Pow2(10) == 1024 by {
        assert Pow2(1) == 2 && Pow2(2) == 4 && Pow2(3) == 8 && Pow2(4) == 16 && Pow2(5) == 32;
        assert Pow2(6) == 64 && Pow2(7) == 128 && Pow2(8) == 256 && Pow2(9) == 512;
      }
    } else {
      Pow2Grows(k - 1);
    }
  }
}
