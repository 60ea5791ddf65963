/** The pointer-tree walks: load_inode_blocks (the blocks of a file, in file
    order, as data_block values), load_occupied_inode_blocks (every block
    number an inode holds, index blocks included) and copy_system_file_to_buf
    (a file's first bytes). An inode has 5 direct pointers, then a single,
    double and triple indirect pointer; an index block holds block_cap
    2-byte cells. */
module Walks {
  import opened Types
  import opened BlockCodec
  import opened Layout
  import opened BlockAlloc

  /** A block as load_by_block_no leaves it: its number, its bytes and the
      used size it was loaded with. */
  datatype Loaded = Loaded(bno: nat, arr: Bytes, size: nat)

  /** The blocks a walk loaded and the count of blocks it still had to load. */
  datatype Walk = Walk(blocks: seq<Loaded>, rem: nat)

  /** Every loaded block is the disk's block of that number. */
  predicate FromDisk(img: Image, blocks: seq<Loaded>) {
    forall k | 0 <= k < |blocks| :: blocks[k].bno < |img.disk| && blocks[k].arr == img.disk[blocks[k].bno]
  }

  /** Every loaded block counts its whole block as used. */
  predicate AllFull(img: Image, blocks: seq<Loaded>) {
    forall k | 0 <= k < |blocks| :: blocks[k].size == BlockBytes(img.sb)
  }

  lemma FromDiskAppend(img: Image, a: seq<Loaded>, b: seq<Loaded>)
    requires FromDisk(img, a) && FromDisk(img, b) && AllFull(img, a) && AllFull(img, b)
    ensures FromDisk(img, a + b) && AllFull(img, a + b)
  {
    forall k | 0 <= k < |a + b|
      ensures (a + b)[k].bno < |img.disk| && (a + b)[k].arr == img.disk[(a + b)[k].bno]
      ensures (a + b)[k].size == BlockBytes(img.sb)
    {
      if k >= |a| {
        assert (a + b)[k] == b[k - |a|];
      }
    }
  }

  // ------------------------------------------------------ load_inode_blocks

  /** load_inode_blocks_helper(bno, size, rem, level): nothing once rem is 0;
      at level 0 block bno is one data block, loaded whole; above it block bno
      is an index block whose cells are walked in order (sign-extended, as
      get_address reads them) while blocks remain. The count of blocks
      loaded plus the count left over is the count asked for. */
  function TreeBlocks(img: Image, bno: nat, rem: nat, level: nat): (r: Result<Walk>)
    requires Sized(img)
    ensures r.Ok? ==> |r.value.blocks| + r.value.rem == rem
    ensures r.Ok? ==> FromDisk(img, r.value.blocks) && AllFull(img, r.value.blocks)
    ensures r.Err? ==> r.error == IoFailure
    decreases level, BlockCap(img.sb) + 1
  {
    if rem == 0 then Ok(Walk([], 0))
    else
      var node :- LoadBlock(img, bno);
      if level == 0 then Ok(Walk([Loaded(bno, node, BlockBytes(img.sb))], rem - 1))
      else CellsBlocks(img, node, 0, rem, level)
  }

  /** The loop over cells i .. block_cap - 1 of an index block. */
  function CellsBlocks(img: Image, node: Bytes, i: nat, rem: nat, level: nat): (r: Result<Walk>)
    requires Sized(img) && |node| == BlockBytes(img.sb) && 1 <= level && i <= BlockCap(img.sb)
    ensures r.Ok? ==> |r.value.blocks| + r.value.rem == rem
    ensures r.Ok? ==> FromDisk(img, r.value.blocks) && AllFull(img, r.value.blocks)
    ensures r.Err? ==> r.error == IoFailure
    decreases level, BlockCap(img.sb) - i
  {
    if i == BlockCap(img.sb) || rem == 0 then Ok(Walk([], rem))
    else
      var w1 :- TreeBlocks(img, CellAt(node, i), rem, level - 1);
      var w2 :- CellsBlocks(img, node, i + 1, w1.rem, level);
      FromDiskAppend(img, w1.blocks, w2.blocks);
      Ok(Walk(w1.blocks + w2.blocks, w2.rem))
  }

  /** The first n direct blocks, each loaded whole. */
  function DirectBlocks(img: Image, ba: DirectPointers, n: nat): (r: Result<seq<Loaded>>)
    requires Sized(img) && n <= DirectCount
    ensures r.Ok? <==> forall j | 0 <= j < n :: ba[j] < |img.disk|
    ensures r.Ok? ==> |r.value| == n && FromDisk(img, r.value) && AllFull(img, r.value)
    ensures r.Ok? ==> forall j | 0 <= j < n :: r.value[j].bno == ba[j]
    ensures r.Err? ==> r.error == IoFailure
  {
    if n == 0 then Ok([])
    else
      var d :- DirectBlocks(img, ba, n - 1);
      var b :- LoadBlock(img, ba[n - 1]);
      FromDiskAppend(img, d, [Loaded(ba[n - 1], b, BlockBytes(img.sb))]);
      Ok(d + [Loaded(ba[n - 1], b, BlockBytes(img.sb))])
  }

  /** The number of blocks a file of the given size spans. */
  function BlockCount(sb: Superblock, size: nat): nat
    requires sb.blockSize >= 1
  {
    CeilDiv(size, BlockBytes(sb))
  }

  /** load_inode_blocks: the file's blocks in order. A file of at most 5
      blocks uses direct blocks only; its last block is loaded with the
      bytes that remain of the file as its used size, every other block whole.
      A longer file uses all 5 direct blocks and then the single, double and
      triple indirect trees in turn: logic_error when a tree that is needed
      has a zero pointer. The blocks loaded and the blocks left over (when
      even the triple tree runs out) add up to the file's block count. */
  function InodeBlocks(img: Image, ino: Inode): (r: Result<Walk>)
    requires Sized(img)
    ensures r.Ok? ==> |r.value.blocks| + r.value.rem == BlockCount(img.sb, ino.size)
    ensures r.Ok? ==> FromDisk(img, r.value.blocks)
    ensures r.Ok? && BlockCount(img.sb, ino.size) <= DirectCount ==>
      && r.value.rem == 0
      && (forall j | 0 <= j < |r.value.blocks| :: r.value.blocks[j].bno == ino.ba[j])
      && (forall j | 0 <= j < |r.value.blocks| - 1 :: r.value.blocks[j].size == BlockBytes(img.sb))
    ensures r.Err? ==> r.error in {IoFailure, LogicError}
  {
    var bsb := BlockBytes(img.sb);
    var bc := BlockCount(img.sb, ino.size);
    if bc == 0 then Ok(Walk([], 0))
    else if bc <= DirectCount then
      var d :- DirectBlocks(img, ino.ba, bc - 1);
      var last :- LoadBlock(img, ino.ba[bc - 1]);
      CeilDivBounds(ino.size, bsb);
      var tail := Loaded(ino.ba[bc - 1], last, ino.size - (bc - 1) * bsb);
      assert FromDisk(img, d + [tail]) by {
        forall k | 0 <= k < |d| + 1
          ensures (d + [tail])[k].bno < |img.disk| && (d + [tail])[k].arr == img.disk[(d + [tail])[k].bno]
        {
          if k < |d| {
            assert (d + [tail])[k] == d[k];
          }
        }
      }
      Ok(Walk(d + [tail], 0))
    else
      var d :- DirectBlocks(img, ino.ba, DirectCount);
      var w1 :- if ino.si == 0 then Err(LogicError) else TreeBlocks(img, ino.si, bc - DirectCount, 1);
      FromDiskAppend(img, d, w1.blocks);
      if w1.rem == 0 then Ok(Walk(d + w1.blocks, 0))
      else
        var w2 :- if ino.di == 0 then Err(LogicError) else TreeBlocks(img, ino.di, w1.rem, 2);
        FromDiskAppend(img, d + w1.blocks, w2.blocks);
        if w2.rem == 0 then Ok(Walk(d + w1.blocks + w2.blocks, 0))
        else
          var w3 :- if ino.ti == 0 then Err(LogicError) else TreeBlocks(img, ino.ti, w2.rem, 3);
          FromDiskAppend(img, d + w1.blocks + w2.blocks, w3.blocks);
          Ok(Walk(d + w1.blocks + w2.blocks + w3.blocks, w3.rem))
  }

  // ----------------------------------------------- copy_system_file_to_buf

  /** The bytes of the loaded blocks, whole blocks, one after the other. */
  function Flatten(blocks: seq<Loaded>): (r: Bytes)
  {
    if blocks == [] then [] else Flatten(blocks[..|blocks| - 1]) + blocks[|blocks| - 1].arr
  }

  /** s cut or zero-padded to n bytes, as a zero-initialised buffer of n bytes
      that s is copied into. */
  function Fit(s: Bytes, n: nat): (r: Bytes)
    ensures |r| == n
    ensures forall k | 0 <= k < n :: r[k] == if k < |s| then s[k] else 0
  {
    if |s| >= n then s[..n] else s + Zeros(n - |s|)
  }

  /** copy_system_file_to_buf(iinode, buf, size): the first size bytes of
      the file's blocks; bytes past the last block stay zero. */
  function ReadFile(img: Image, index: nat, size: nat): (r: Result<Bytes>)
    requires Sized(img)
    ensures r.Ok? ==> |r.value| == size
    ensures r.Err? ==> r.error in {Undefined, IoFailure, LogicError}
  {
    if index >= |img.inodes| then Err(Undefined)
    else
      var w :- InodeBlocks(img, img.inodes[index]);
      Ok(Fit(Flatten(w.blocks), size))
  }

  /** Every loaded block has n bytes. */
  predicate Uniform(blocks: seq<Loaded>, n: nat) {
    forall k | 0 <= k < |blocks| :: |blocks[k].arr| == n
  }

  lemma FromDiskUniform(img: Image, blocks: seq<Loaded>)
    requires Sized(img) && FromDisk(img, blocks)
    ensures Uniform(blocks, BlockBytes(img.sb))
  {
  }

  lemma IndexBelow(j: nat, k: nat, n: nat, m: nat)
    requires j < m && k < n
    ensures j * n + k < m * n
  {
    MulLe(j + 1, m, n);
  }

  lemma {:induction false} FlattenLength(blocks: seq<Loaded>, n: nat)
    requires Uniform(blocks, n)
    ensures |Flatten(blocks)| == |blocks| * n
    decreases |blocks|
  {
    if blocks != [] {
      var init := blocks[..|blocks| - 1];
      assert Uniform(init, n) by {
        forall i | 0 <= i < |init| ensures init[i] == blocks[i] { }
      }
      FlattenLength(init, n);
      assert Flatten(blocks) == Flatten(init) + blocks[|blocks| - 1].arr;
      MulSucc(n, |init|);
    }
  }

  /** Byte k of block j is byte j * n + k of the flattened blocks. */
  lemma {:induction false} FlattenAt(blocks: seq<Loaded>, n: nat, j: nat, k: nat)
    requires Uniform(blocks, n) && j < |blocks| && k < n
    ensures j * n + k < |Flatten(blocks)| && Flatten(blocks)[j * n + k] == blocks[j].arr[k]
    decreases |blocks|
  {
    var init := blocks[..|blocks| - 1];
    assert Uniform(init, n) by {
      forall i | 0 <= i < |init| ensures init[i] == blocks[i] { }
    }
    FlattenLength(blocks, n);
    FlattenLength(init, n);
    IndexBelow(j, k, n, |blocks|);
    var p := j * n + k;
    if j < |init| {
      FlattenAt(init, n, j, k);
      assert blocks[j] == init[j];
    } else {
      assert p - |Flatten(init)| == k;
    }
  }

  /** For a file of at most 5 blocks, byte o of its j-th block (when that byte
      lies below the file size) is what copy_system_file_to_buf puts at
      j * block_size_byte + o: byte o of direct block j. */
  lemma ReadDirectFile(img: Image, index: nat, n: nat, j: nat, o: nat, p: nat)
    requires Sized(img) && index < |img.inodes| && n == BlockBytes(img.sb)
    requires BlockCount(img.sb, img.inodes[index].size) <= DirectCount
    requires j < BlockCount(img.sb, img.inodes[index].size) && o < n
    requires p == j * n + o && p < img.inodes[index].size
    requires ReadFile(img, index, img.inodes[index].size).Ok?
    ensures img.inodes[index].ba[j] < |img.disk|
    ensures var buf, blk := ReadFile(img, index, img.inodes[index].size).value, img.disk[img.inodes[index].ba[j]];
      && |buf| == img.inodes[index].size && |blk| == n
      && p < |buf| && buf[p] == blk[o]
  {
    var ino := img.inodes[index];
    ReadFileBlocks(img, index);
    var blocks := InodeBlocks(img, ino).value.blocks;
    FromDiskUniform(img, blocks);
    FitFlattenAt(blocks, n, j, o, ino.size, ReadFile(img, index, ino.size).value);
    assert blocks[j].bno == ino.ba[j];
  }

  /** Byte o of block j sits at j * n + o of the blocks laid end to end and
      cut to a size beyond that position. */
  lemma {:induction false} FitFlattenAt(blocks: seq<Loaded>, n: nat, j: nat, o: nat, size: nat, buf: Bytes)
    requires Uniform(blocks, n) && j < |blocks| && o < n && j * n + o < size
    requires buf == Fit(Flatten(blocks), size)
    ensures buf[j * n + o] == blocks[j].arr[o]
  {
    var p := j * n + o;
    FlattenAt(blocks, n, j, o);
    var flat := Flatten(blocks);
    assert p < |flat| && flat[p] == blocks[j].arr[o];
    assert buf[p] == flat[p];
  }

  /** A file read whole is its loaded blocks laid end to end, cut to its
      size. */
  lemma ReadFileBlocks(img: Image, index: nat)
    requires Sized(img) && index < |img.inodes| && ReadFile(img, index, img.inodes[index].size).Ok?
    ensures InodeBlocks(img, img.inodes[index]).Ok?
    ensures ReadFile(img, index, img.inodes[index].size).value
      == Fit(Flatten(InodeBlocks(img, img.inodes[index]).value.blocks), img.inodes[index].size)
  {
  }

  /** The bytes off .. off + len of direct block j of a file of at most 5
      blocks read back at base + off, base being j * n, when they lie below
      the file size. */
  lemma ReadDirectRange(img: Image, index: nat, n: nat, j: nat, base: nat, off: nat, len: nat)
    requires Sized(img) && index < |img.inodes| && n == BlockBytes(img.sb) && base == j * n
    requires BlockCount(img.sb, img.inodes[index].size) <= DirectCount
    requires j < BlockCount(img.sb, img.inodes[index].size) && 1 <= len && off + len <= n
    requires base + off + len <= img.inodes[index].size
    requires ReadFile(img, index, img.inodes[index].size).Ok?
    ensures img.inodes[index].ba[j] < |img.disk|
    ensures ReadFile(img, index, img.inodes[index].size).value[base + off .. base + off + len]
      == img.disk[img.inodes[index].ba[j]][off .. off + len]
  {
    var buf := ReadFile(img, index, img.inodes[index].size).value;
    ReadDirectFile(img, index, n, j, off, base + off);
    var blk := img.disk[img.inodes[index].ba[j]];
    forall o | off <= o < off + len
      ensures buf[base + o] == blk[o]
    {
      ReadDirectFile(img, index, n, j, o, base + o);
    }
    SliceAt(buf, blk, base, off, len);
  }

  /** Two sequences agreeing from base + off and from off for len bytes have
      equal slices there. */
  lemma {:induction false} SliceAt(buf: Bytes, blk: Bytes, base: nat, off: nat, len: nat)
    requires base + off + len <= |buf| && off + len <= |blk|
    requires forall o | off <= o < off + len :: buf[base + o] == blk[o]
    ensures buf[base + off .. base + off + len] == blk[off .. off + len]
  {
    var a, b := buf[base + off .. base + off + len], blk[off .. off + len];
    forall k | 0 <= k < len ensures a[k] == b[k] {
      assert buf[base + (off + k)] == blk[off + k];
    }
  }

  /** Byte p is byte o of block j. */
  lemma BlockAndOffset(p: nat, n: nat) returns (j: nat, o: nat)
    requires n >= 1
    ensures p == j * n + o && o < n && j == p / n && o == p % n
  {
    j, o := p / n, p % n;
  }

  /** A non-empty file of at most 5 blocks whose direct block j holds, at
      every offset o, byte j * n + o of data reads back as data. */
  lemma ReadDirectAll(img: Image, index: nat, n: nat, data: Bytes)
    requires Sized(img) && index < |img.inodes| && n == BlockBytes(img.sb)
    requires |data| == img.inodes[index].size && 1 <= |data| <= DirectCount * n
    requires forall j | 0 <= j < DirectCount && j * n < |data| :: img.inodes[index].ba[j] < |img.disk|
    requires forall j, o | 0 <= j < DirectCount && 0 <= o < n && j * n + o < |data| ::
      img.disk[img.inodes[index].ba[j]][o] == data[j * n + o]
    ensures ReadFile(img, index, |data|) == Ok(data)
  {
    ReadDirectOk(img, index, n, data);
    var buf := ReadFile(img, index, |data|).value;
    var bc := BlockCount(img.sb, |data|);
    CeilDivBounds(|data|, n);
    forall p | 0 <= p < |data|
      ensures buf[p] == data[p]
    {
      var j, o := BlockAndOffset(p, n);
      if j >= bc {
        MulLe(bc, j, n);
      }
      ReadDirectFile(img, index, n, j, o, p);
    }
    assert buf == data;
  }

  /** Such a file is read without error: every block it needs is on the
      disk. */
  lemma ReadDirectOk(img: Image, index: nat, n: nat, data: Bytes)
    requires Sized(img) && index < |img.inodes| && n == BlockBytes(img.sb)
    requires |data| == img.inodes[index].size && 1 <= |data| <= DirectCount * n
    requires forall j | 0 <= j < DirectCount && j * n < |data| :: img.inodes[index].ba[j] < |img.disk|
    ensures BlockCount(img.sb, |data|) <= DirectCount
    ensures ReadFile(img, index, |data|).Ok?
  {
    var ino := img.inodes[index];
    var bc := BlockCount(img.sb, |data|);
    CeilDivBounds(|data|, n);
    if bc > DirectCount {
      MulLe(DirectCount, bc - 1, n);
    }
    forall j | 0 <= j < bc
      ensures ino.ba[j] < |img.disk|
    {
      MulLe(j, bc - 1, n);
    }
    assert DirectBlocks(img, ino.ba, bc - 1).Ok?;
    assert InodeBlocks(img, ino).Ok?;
  }

  /** A non-empty file that fits in one block reads back as the first bytes of the
      block its first direct pointer names. */
  lemma ReadOneBlockFile(img: Image, index: nat)
    requires Sized(img) && index < |img.inodes|
    requires 1 <= img.inodes[index].size <= BlockBytes(img.sb) && img.inodes[index].ba[0] < |img.disk|
    ensures ReadFile(img, index, img.inodes[index].size)
      == Ok(img.disk[img.inodes[index].ba[0]][..img.inodes[index].size])
  {
    var ino := img.inodes[index];
    CeilDivUnique(ino.size, BlockBytes(img.sb), 1);
    assert DirectBlocks(img, ino.ba, 0) == Ok([]);
    var tail := Loaded(ino.ba[0], img.disk[ino.ba[0]], ino.size);
    assert InodeBlocks(img, ino) == Ok(Walk([] + [tail], 0));
    assert Flatten([tail]) == img.disk[ino.ba[0]] by {
      assert [tail][..0] == [];
    }
  }

  // -------------------------------------------- load_occupied_inode_blocks

  /** load_occupied_inode_blocks_helper(address, level): nothing for address
      0; at level 0 the address itself; above it the index block's own
      number, then the walk of each of its non-zero cells in order. */
  function TreeOccupied(img: Image, address: nat, level: nat): (r: Result<seq<nat>>)
    requires Sized(img)
    ensures r.Ok? ==> forall k | 0 <= k < |r.value| :: r.value[k] != 0
    ensures r.Ok? && address != 0 ==> |r.value| >= 1 && r.value[0] == address
    ensures r.Ok? && address == 0 ==> r.value == []
    ensures r.Err? ==> r.error == IoFailure
    decreases level, BlockCap(img.sb) + 1
  {
    if address == 0 then Ok([])
    else if level == 0 then Ok([address])
    else
      var node :- LoadBlock(img, address);
      var rest :- CellsOccupied(img, node, 0, level);
      Ok([address] + rest)
  }

  function CellsOccupied(img: Image, node: Bytes, i: nat, level: nat): (r: Result<seq<nat>>)
    requires Sized(img) && |node| == BlockBytes(img.sb) && 1 <= level && i <= BlockCap(img.sb)
    ensures r.Ok? ==> forall k | 0 <= k < |r.value| :: r.value[k] != 0
    ensures r.Err? ==> r.error == IoFailure
    decreases level, BlockCap(img.sb) - i
  {
    if i == BlockCap(img.sb) then Ok([])
    else
      var here :- if CellAt(node, i) != 0 then TreeOccupied(img, CellAt(node, i), level - 1) else Ok([]);
      var rest :- CellsOccupied(img, node, i + 1, level);
      Ok(here + rest)
  }

  /** The index of the first zero direct pointer, or 5. */
  function FirstZeroDirect(ba: DirectPointers): (r: nat)
    ensures r <= DirectCount
    ensures forall j | 0 <= j < r :: ba[j] != 0
    ensures r < DirectCount ==> ba[r] == 0
  {
    if ba[0] == 0 then 0 else if ba[1] == 0 then 1 else if ba[2] == 0 then 2
    else if ba[3] == 0 then 3 else if ba[4] == 0 then 4 else 5
  }

  /** load_occupied_inode_blocks(index): the direct pointers up to the first
      zero one, which ends the walk; when all 5 are set, then the single,
      double and triple indirect trees. Every number listed is non-zero. */
  function OccupiedBlocks(img: Image, index: nat): (r: Result<seq<nat>>)
    requires Sized(img)
    ensures index >= |img.inodes| <==> r == Err(Undefined)
    ensures r.Ok? ==> forall k | 0 <= k < |r.value| :: r.value[k] != 0
    ensures r.Ok? ==> var ino := img.inodes[index]; var z := FirstZeroDirect(ino.ba);
      (z < DirectCount ==> r.value == ino.ba[..z]) && |r.value| >= z && r.value[..z] == ino.ba[..z]
    ensures r.Err? ==> r.error in {Undefined, IoFailure}
  {
    if index >= |img.inodes| then Err(Undefined)
    else
      var ino := img.inodes[index];
      var z := FirstZeroDirect(ino.ba);
      if z < DirectCount then Ok(ino.ba[..z])
      else
        var s :- TreeOccupied(img, ino.si, 1);
        var d :- TreeOccupied(img, ino.di, 2);
        var t :- TreeOccupied(img, ino.ti, 3);
        Ok(ino.ba + s + d + t)
  }

  /** The blocks empty_inode_blocks frees are the blocks load_inode_blocks
      reads, when a file of at most 4 blocks sets exactly that many direct
      pointers. */
  lemma OccupiedAreRead(img: Image, index: nat)
    requires Sized(img) && index < |img.inodes|
    requires var ino := img.inodes[index]; var bc := BlockCount(img.sb, ino.size);
      && bc < DirectCount && FirstZeroDirect(ino.ba) == bc
    requires InodeBlocks(img, img.inodes[index]).Ok?
    ensures var w := InodeBlocks(img, img.inodes[index]).value;
      OccupiedBlocks(img, index) == Ok(seq(|w.blocks|, j requires 0 <= j < |w.blocks| => w.blocks[j].bno))
  {
    var ino := img.inodes[index];
    var w := InodeBlocks(img, ino).value;
    var bnos := seq(|w.blocks|, j requires 0 <= j < |w.blocks| => w.blocks[j].bno);
    assert bnos == ino.ba[..FirstZeroDirect(ino.ba)];
  }
}
