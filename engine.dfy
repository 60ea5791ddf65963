/** The object behind file_system's allocators and directory operations:
    its fields are the superblock, the inode vector and the blocks of the
    backing file, and every method is proved to reach the image the value
    model in BlockAlloc, InodeAlloc, FileWrite and Ops computes. The free
    list methods and init_directory load blocks into data_block objects and
    change them in place with the block's own methods; the inode methods
    update the inode vector; write and the directory reads compute their
    result with the value model, write committing the new image whole, and
    the directory operations are these steps in the source's order. On an
    exception the state is left as the source leaves it, with the steps done
    so far. */
module Engine {
  import opened Types
  import opened BlockCodec
  import opened Layout
  import opened DataBlock
  import opened Walks
  import opened Directory
  import BlockAlloc
  import InodeAlloc
  import FileWrite
  import Ops

  class FileSystem {
    var sb: Superblock
    var inodes: seq<Inode>
    var disk: seq<Bytes>

    /** The value this object stands for. */
    function State(): Image
      reads this
    {
      Image(sb, inodes, disk)
    }

    constructor (img: Image)
      ensures State() == img
    {
      sb := img.sb;
      inodes := img.inodes;
      disk := img.disk;
    }

    /** Every field replaced by those of img. */
    method Commit(img: Image)
      modifies this
      ensures State() == img
    {
      sb, inodes, disk := img.sb, img.inodes, img.disk;
    }

    /** load_by_block_no(bno, size): a fresh copy of block bno whose used size
        is size; the stream throws past the end of the backing file. */
    method LoadByBlockNo(bno: nat, size: nat) returns (r: Result<Block>)
      ensures r.Ok? <==> bno < |disk|
      ensures r.Err? ==> r.error == IoFailure
      ensures r.Ok? ==> fresh(r.value) && fresh(r.value.arr)
      ensures r.Ok? ==> r.value.arr[..] == disk[bno] && r.value.size == size && r.value.bno == bno
    {
      if bno >= |disk| {
        return Err(IoFailure);
      }
      var b := new Block.Load(disk[bno], size, bno);
      return Ok(b);
    }

    /** write_block(b): the block's bytes replace block b.bno. */
    method WriteBlock(b: Block)
      requires b.bno < |disk|
      modifies this
      ensures sb == old(sb) && inodes == old(inodes)
      ensures disk == old(disk)[b.bno := b.arr[..]]
    {
      disk := disk[b.bno := b.arr[..]];
    }

    // ------------------------------------------------------- free blocks

    /** get_free_block */
    method GetFreeBlock() returns (r: Result<U16>)
      requires Sized(State())
      modifies this
      ensures var s := BlockAlloc.GetFreeBlock(old(State()));
        && (s.Ok? ==> r == Ok(s.value.value) && State() == s.value.img)
        && (s.Err? ==> r == Err(s.error) && State() == old(State()))
    {
      if sb.fbHead == 0 || sb.fbCount == 0 {
        return Err(LengthError);
      }
      var loaded := LoadByBlockNo(sb.fbTail, 0);
      if loaded.Err? {
        return Err(loaded.error);
      }
      var fb := loaded.value;
      var freeBlocks := fb.GetFbSize();
      fb.size := freeBlocks * 2;
      sb := sb.(fbCount := sb.fbCount - 1);
      if freeBlocks == 0 {
        var next := fb.GetAddress(Cap(sb));
        sb := sb.(fbTail := ToU16(next.value));
        if sb.fbTail == 0 {
          sb := sb.(fbHead := 0);
        }
        r := Ok(ToU16(fb.bno));
      } else {
        var res := fb.PopAddress();
        WriteBlock(fb);
        r := Ok(ToU16(res.value));
      }
    }

    /** put_free_block(bno). The count is raised and, for a full tail, the
        tail moved to bno before bno is loaded, so a failed load leaves both
        changed, as in the source. */
    method PutFreeBlock(bno: U16) returns (r: Result<()>)
      requires Sized(State())
      modifies this
      ensures var s := BlockAlloc.PutFreeBlock(old(State()), bno);
        && (s.Ok? ==> r == Ok(()) && State() == s.value)
        && (s.Err? ==> r == Err(s.error) && inodes == old(inodes) && disk == old(disk))
    {
      var loaded := LoadByBlockNo(sb.fbTail, 0);
      if loaded.Err? {
        return Err(loaded.error);
      }
      var fb := loaded.value;
      var fbSize := fb.GetFbSize();
      fb.size := fbSize * 2;
      sb := sb.(fbCount := ToU16(sb.fbCount + 1));
      if Cap(sb) == fbSize {
        var temp := sb.fbTail;
        sb := sb.(fbTail := bno);
        var target := LoadByBlockNo(bno, 0);
        if target.Err? {
          return Err(target.error);
        }
        var nb := target.value;
        nb.ClearBlock();
        var _ := nb.SetAddress(Cap(sb), temp);
        WriteBlock(nb);
      } else {
        var _ := fb.PushAddress(bno);
        WriteBlock(fb);
      }
      return Ok(());
    }

    // ------------------------------------------------------- free inodes

    /** get_free_inode, with the tail node loaded at the size of its own
        entries, as GetFreeInode in InodeAlloc corrects it. */
    method GetFreeInode() returns (r: Result<U16>)
      requires Sized(State())
      modifies this
      ensures var s := InodeAlloc.GetFreeInode(old(State()));
        && (s.Ok? ==> r == Ok(s.value.value) && State() == s.value.img)
        && (s.Err? ==> r == Err(s.error) && State() == old(State()))
    {
      if sb.freeInodeCount == 0 {
        return Err(RuntimeError);
      }
      var loaded := LoadByBlockNo(sb.inodeTail, 0);
      if loaded.Err? {
        return Err(loaded.error);
      }
      var fb := loaded.value;
      var nodeSize := fb.GetFbSize();
      if nodeSize == 0 {
        return Err(NotModelled);
      }
      fb.size := 2 * nodeSize;
      var res := fb.PopAddress();
      WriteBlock(fb);
      sb := sb.(freeInodeCount := sb.freeInodeCount - 1);
      return Ok(ToU16(res.value));
    }

    /** init_inode(i) at clock reading now. */
    method InitInode(i: nat, now: Clock) returns (r: Result<()>)
      modifies this
      ensures var s := InodeAlloc.InitInode(old(State()), i, now);
        && (s.Ok? ==> r == Ok(()) && State() == s.value)
        && (s.Err? ==> r == Err(s.error) && State() == old(State()))
    {
      if i >= |inodes| {
        return Err(Undefined);
      }
      inodes := inodes[i := Inode(now, 0, EmptyType, 0, NoDirect, 0, 0, 0)];
      return Ok(());
    }

    /** empty_inode_blocks(iindex): put_free_block for every block the inode
        occupies, in the order load_occupied_inode_blocks lists them, then
        all its pointers 0. */
    method EmptyInodeBlocks(iindex: nat) returns (r: Result<()>)
      requires Sized(State())
      modifies this
      ensures var s := InodeAlloc.EmptyInodeBlocks(old(State()), iindex);
        && (s.Ok? ==> r == Ok(()) && State() == s.value)
        && (s.Err? ==> r == Err(s.error))
    {
      var blocks := OccupiedBlocks(State(), iindex);
      if blocks.Err? {
        return Err(blocks.error);
      }
      var blockSet := blocks.value;
      ghost var start := State();
      var i := 0;
      while i < |blockSet|
        invariant i <= |blockSet|
        invariant Sized(State()) && inodes == start.inodes
        invariant InodeAlloc.PutFreeBlocks(start, blockSet) == InodeAlloc.PutFreeBlocks(State(), blockSet[i..])
      {
        ghost var before := State();
        var put := PutFreeBlock(ToU16(blockSet[i]));
        assert blockSet[i..][1..] == blockSet[i + 1..];
        if put.Err? {
          return Err(put.error);
        }
        assert State() == BlockAlloc.PutFreeBlock(before, ToU16(blockSet[i])).value;
        i := i + 1;
      }
      var ino := inodes[iindex];
      inodes := inodes[iindex := ino.(ba := NoDirect, si := 0, di := 0, ti := 0)];
      return Ok(());
    }

    /** clear_inode(index): empty_inode_blocks, then size 0, type empty, date
        0 and no links. */
    method ClearInode(index: nat) returns (r: Result<()>)
      requires Sized(State())
      modifies this
      ensures var s := InodeAlloc.ClearInode(old(State()), index);
        && (s.Ok? ==> r == Ok(()) && State() == s.value)
        && (s.Err? ==> r == Err(s.error))
    {
      r := EmptyInodeBlocks(index);
      if r.Err? {
        return;
      }
      var ino := inodes[index];
      inodes := inodes[index := ino.(size := 0, itype := EmptyType,
        time := ino.time.(day := 0, month := 0, year := 0), linkCount := 0)];
    }

    /** The list half of put_free_inode(index). For a full tail node a block
        from get_free_block becomes the tail, linked to the old one, and takes
        index as its first entry; otherwise index is pushed onto the tail. */
    method PushFreeInode(index: U16) returns (r: Result<()>)
      requires Sized(State())
      modifies this
      ensures var s := InodeAlloc.PushFreeInode(old(State()), index);
        && (s.Ok? ==> r == Ok(()) && State() == s.value)
        && (s.Err? ==> r == Err(s.error))
    {
      var loaded := LoadByBlockNo(sb.inodeTail, 0);
      if loaded.Err? {
        return Err(loaded.error);
      }
      var fb := loaded.value;
      var nodeSize := fb.GetFbSize();
      fb.size := nodeSize * 2;
      if nodeSize == Cap(sb) {
        var temp := sb.inodeTail;
        var got := GetFreeBlock();
        if got.Err? {
          return Err(got.error);
        }
        sb := sb.(inodeTail := got.value);
        var next := LoadByBlockNo(sb.inodeTail, 0);
        if next.Err? {
          return Err(next.error);
        }
        var nb := next.value;
        var _ := nb.SetAddress(Cap(sb), temp);
        var _ := nb.PushAddress(index);
        WriteBlock(nb);
      } else {
        var _ := fb.PushAddress(index);
        WriteBlock(fb);
      }
      return Ok(());
    }

    /** put_free_inode(index): the list half, then the count raised by one
        (16-bit) and the inode cleared. */
    method PutFreeInode(index: U16) returns (r: Result<()>)
      requires Sized(State())
      modifies this
      ensures var s := InodeAlloc.PutFreeInode(old(State()), index);
        && (s.Ok? ==> r == Ok(()) && State() == s.value)
        && (s.Err? ==> r == Err(s.error))
    {
      r := PushFreeInode(index);
      if r.Err? {
        return;
      }
      sb := sb.(freeInodeCount := ToU16(sb.freeInodeCount + 1));
      r := ClearInode(index);
    }

    // --------------------------------------------------------- directories

    /** write(index, pos, data): the direct tier of write, whose effect is
        FileWrite.Write. */
    method Write(index: nat, pos: nat, data: Bytes) returns (r: Result<()>)
      requires Sized(State())
      modifies this
      ensures var s := FileWrite.Write(old(State()), index, pos, data);
        && (s.Ok? ==> r == Ok(()) && State() == s.value)
        && (s.Err? ==> r == Err(s.error) && State() == old(State()))
    {
      var w := FileWrite.Write(State(), index, pos, data);
      if w.Err? {
        return Err(w.error);
      }
      Commit(w.value);
      return Ok(());
    }

    /** init_directory(db, index, parent): inode index becomes a directory of
        one link and size 16, and the first 16 bytes of db hold "." naming
        index and ".." naming parent. */
    method InitDirectory(db: Block, index: U16, parent: U16)
      requires index < |inodes| && 2 * DirEntrySize <= db.arr.Length
      modifies this, db.arr
      ensures sb == old(sb) && disk == old(disk)
      ensures inodes == old(inodes)[index := Ops.AsDirectory(old(inodes)[index])]
      ensures db.arr[..2 * DirEntrySize] == Ops.DotEntries(index, parent)
    {
      var ino := inodes[index];
      inodes := inodes[index := ino.(linkCount := 1, itype := DirType, size := 2 * DirEntrySize)];
      var dirEnt := CreateDirEntry(index, [Dot]).value;
      var dirEnt2 := CreateDirEntry(parent, [Dot, Dot]).value;
      var a := db.arr;
      for l := 0 to DirEntrySize
        modifies a
        invariant a[..l] == dirEnt[..l]
        invariant a[DirEntrySize .. DirEntrySize + l] == dirEnt2[..l]
      {
        a[l] := dirEnt[l];
        a[l + DirEntrySize] := dirEnt2[l];
      }
      assert a[..2 * DirEntrySize] == a[..DirEntrySize] + a[DirEntrySize .. 2 * DirEntrySize];
    }

    /** The new directory of mkdir: get_free_inode, init_inode,
        init_directory on a zeroed block, and the two entries written. */
    method NewDirectory(parent: U16, now: Clock) returns (r: Result<U16>)
      requires Sized(State())
      modifies this
      ensures var s := Ops.NewDirectory(old(State()), parent, now);
        && (s.Ok? ==> r == Ok(s.value.value) && State() == s.value.img)
        && (s.Err? ==> r == Err(s.error))
    {
      var got := GetFreeInode();
      if got.Err? {
        return Err(got.error);
      }
      var newi := got.value;
      var init := InitInode(newi, now);
      if init.Err? {
        return Err(init.error);
      }
      var temp := new Block.Zeroed(BlockBytes(sb));
      InitDirectory(temp, newi, parent);
      var w := Write(newi, 0, temp.arr[..2 * DirEntrySize]);
      if w.Err? {
        return Err(w.error);
      }
      return Ok(newi);
    }

    /** An entry for index named name appended to directory parent: written
        at the parent's size, then the parent's time set and its size grown
        by 8, as mkdir and hard_link do. */
    method AddEntry(parent: nat, index: U16, name: Bytes, now: Clock) returns (r: Result<()>)
      requires Sized(State()) && |name| <= DirNameSize && Slash !in name && Space !in name
      modifies this
      ensures var s := Ops.AddEntry(old(State()), parent, index, name, now);
        && (s.Ok? ==> r == Ok(()) && State() == s.value)
        && (s.Err? ==> r == Err(s.error))
    {
      var dirEnt := CreateDirEntry(index, name).value;
      var pos := if parent < |inodes| then inodes[parent].size else 0;
      r := Write(parent, pos, dirEnt);
      if r.Err? {
        return;
      }
      var p := inodes[parent];
      inodes := inodes[parent := p.(time := now, size := ToU32(p.size + DirEntrySize))];
    }

    /** mkdir(arg) at clock reading now; the result is the new inode. */
    method Mkdir(arg: Bytes, now: Clock) returns (r: Result<U16>)
      requires Sized(State())
      modifies this
      ensures var s := Ops.Mkdir(old(State()), arg, now);
        && (s.Ok? ==> r == Ok(s.value.value) && State() == s.value.img)
        && (s.Err? ==> r == Err(s.error))
    {
      var nf := NewFileArgs(State(), arg, true);
      if nf.Err? {
        return Err(nf.error);
      }
      var newi := NewDirectory(nf.value.parent, now);
      if newi.Err? {
        return newi;
      }
      var added := AddEntry(nf.value.parent, newi.value, nf.value.name, now);
      if added.Err? {
        return Err(added.error);
      }
      return newi;
    }

    /** The first half of remove_dir_entry(iindex, name): the directory read
        whole, the first entry after "." with the name found (logic_error
        when none is), and its 8 bytes erased from the buffer. */
    method RemainingEntries(iindex: nat, name: Bytes) returns (r: Result<Bytes>)
      requires Sized(State())
      ensures r == Ops.Remaining(State(), iindex, name)
    {
      if iindex >= |inodes| {
        return Err(Undefined);
      }
      var fsize := inodes[iindex].size;
      var read := ReadFile(State(), iindex, fsize);
      if read.Err? {
        return Err(read.error);
      }
      var buf := read.value;
      Ops.EntryCount(fsize);
      var done, toRmPos := Ops.SearchEntries(buf, name, fsize / DirEntrySize);
      if !done {
        return Err(LogicError);
      }
      buf := buf[..DirEntrySize * toRmPos] + buf[DirEntrySize * toRmPos + DirEntrySize..];
      return Ok(buf);
    }

    /** remove_dir_entry(iindex, name) at clock reading now. */
    method RemoveDirEntry(iindex: nat, name: Bytes, now: Clock) returns (r: Result<()>)
      requires Sized(State())
      modifies this
      ensures var s := Ops.RemoveDirEntry(old(State()), iindex, name, now);
        && (s.Ok? ==> r == Ok(()) && State() == s.value)
        && (s.Err? ==> r == Err(s.error))
    {
      var kept := RemainingEntries(iindex, name);
      if kept.Err? {
        return Err(kept.error);
      }
      Ops.RemoveDirEntryRewrites(State(), iindex, name, now, kept.value);
      r := Rewrite(iindex, kept.value, now);
    }

    /** The directory's blocks given back, then kept written over it. */
    method Rewrite(iindex: nat, kept: Bytes, now: Clock) returns (r: Result<()>)
      requires Sized(State())
      modifies this
      ensures var s := Ops.Rewrite(old(State()), iindex, kept, now);
        && (s.Ok? ==> r == Ok(()) && State() == s.value)
        && (s.Err? ==> r == Err(s.error))
    {
      ghost var img0 := State();
      r := EmptyInodeBlocks(iindex);
      if r.Err? {
        return;
      }
      Ops.RewriteWritesBack(img0, iindex, kept, now, State());
      r := WriteBack(iindex, kept, now);
    }

    /** kept written from position 0, then the size lowered by 8 and the
        time set. */
    method WriteBack(iindex: nat, kept: Bytes, now: Clock) returns (r: Result<()>)
      requires Sized(State())
      modifies this
      ensures var s := Ops.WriteBack(old(State()), iindex, kept, now);
        && (s.Ok? ==> r == Ok(()) && State() == s.value)
        && (s.Err? ==> r == Err(s.error))
    {
      ghost var img0 := State();
      r := Write(iindex, 0, kept);
      if r.Err? {
        return;
      }
      if inodes[iindex].size < DirEntrySize {
        return Err(LogicError);
      }
      Ops.WriteBackShrinks(img0, iindex, kept, now, State());
      var ino := inodes[iindex];
      inodes := inodes[iindex := ino.(size := ino.size - DirEntrySize, time := now)];
    }

    /** clear_inode then put_free_inode, as rmdir and del give an inode back. */
    method FreeInode(index: U16) returns (r: Result<()>)
      requires Sized(State())
      modifies this
      ensures var s := Ops.FreeInode(old(State()), index);
        && (s.Ok? ==> r == Ok(()) && State() == s.value)
        && (s.Err? ==> r == Err(s.error))
    {
      r := ClearInode(index);
      if r.Err? {
        return;
      }
      r := PutFreeInode(index);
    }

    /** rmdir(arg) at clock reading now. */
    method Rmdir(arg: Bytes, now: Clock) returns (r: Result<()>)
      requires Sized(State())
      modifies this
      ensures var s := Ops.Rmdir(old(State()), arg, now);
        && (s.Ok? ==> r == Ok(()) && State() == s.value)
        && (s.Err? ==> r == Err(s.error))
    {
      ghost var img0 := State();
      var check := CheckFileToDelete(State(), arg);
      if check.Err? {
        return Err(check.error);
      }
      var rm := check.value;
      if rm.toRm >= |inodes| {
        return Err(Undefined);
      }
      if !IsDirType(inodes[rm.toRm].itype) {
        return Err(InvalidArgument);
      }
      if inodes[rm.toRm].size != 2 * DirEntrySize {
        return Err(InvalidArgument);
      }
      Ops.RmdirSteps(img0, arg, now);
      r := RemoveDirEntry(rm.parent, rm.name, now);
      if r.Err? {
        return;
      }
      r := FreeInode(rm.toRm);
    }

    /** The end of del once the entry is gone. */
    method DropLink(index: U16) returns (r: Result<()>)
      requires Sized(State())
      modifies this
      ensures var s := Ops.DropLink(old(State()), index);
        && (s.Ok? ==> r == Ok(()) && State() == s.value)
        && (s.Err? ==> r == Err(s.error))
    {
      if index as nat >= |inodes| {
        return Err(Undefined);
      }
      var i := inodes[index];
      if i.linkCount == 0 {
        return Err(LogicError);
      } else if i.linkCount == 1 {
        r := FreeInode(index);
      } else {
        inodes := inodes[index := i.(linkCount := i.linkCount - 1)];
        r := Ok(());
      }
    }

    /** del(arg) at clock reading now. */
    method Del(arg: Bytes, now: Clock) returns (r: Result<()>)
      requires Sized(State())
      modifies this
      ensures var s := Ops.Del(old(State()), arg, now);
        && (s.Ok? ==> r == Ok(()) && State() == s.value)
        && (s.Err? ==> r == Err(s.error))
    {
      ghost var img0 := State();
      var check := CheckFileToDelete(State(), arg);
      if check.Err? {
        return Err(check.error);
      }
      var rm := check.value;
      if rm.toRm >= |inodes| {
        return Err(Undefined);
      }
      if !IsFileType(inodes[rm.toRm].itype) {
        return Err(InvalidArgument);
      }
      Ops.DelSteps(img0, arg, now);
      r := RemoveDirEntry(rm.parent, rm.name, now);
      if r.Err? {
        return;
      }
      r := DropLink(rm.toRm);
    }

    /** hard_link(src, dest) at clock reading now. */
    method HardLink(src: Bytes, dest: Bytes, now: Clock) returns (r: Result<()>)
      requires Sized(State())
      modifies this
      ensures var s := Ops.HardLink(old(State()), src, dest, now);
        && (s.Ok? ==> r == Ok(()) && State() == s.value)
        && (s.Err? ==> r == Err(s.error))
    {
      var nf := NewFileArgs(State(), dest, true);
      if nf.Err? {
        return Err(nf.error);
      }
      var srcIndex := GetDirInode(State(), src);
      if srcIndex.Err? {
        return Err(srcIndex.error);
      }
      Ops.HardLinkLinks(State(), src, dest, now, nf.value, srcIndex.value);
      r := Link(nf.value.parent, srcIndex.value, nf.value.name, now);
    }

    /** The entry naming srcIndex appended to parent, then the link count of
        srcIndex raised. */
    method Link(parent: nat, srcIndex: U16, name: Bytes, now: Clock) returns (r: Result<()>)
      requires Sized(State()) && |name| <= DirNameSize && Slash !in name && Space !in name
      modifies this
      ensures var s := Ops.Link(old(State()), parent, srcIndex, name, now);
        && (s.Ok? ==> r == Ok(()) && State() == s.value)
        && (s.Err? ==> r == Err(s.error))
    {
      ghost var img0 := State();
      r := AddEntry(parent, srcIndex, name, now);
      if r.Err? {
        return;
      }
      if srcIndex as nat >= |inodes| {
        return Err(Undefined);
      }
      Ops.LinkCounts(img0, parent, srcIndex, name, now, State());
      var ino := inodes[srcIndex];
      inodes := inodes[srcIndex := ino.(linkCount := ToU16(ino.linkCount + 1))];
    }
  }
}
