/** The directory operations of file_system: mkdir, hard_link, del and
    rmdir, with remove_dir_entry, which they share. Every operation reads the
    image it is given and returns the image it leaves; write_inode, which
    copies inodes back to the backing file, is not modelled, so the inode
    vector is the inode table. */
module Ops {
  import opened Types
  import opened BlockCodec
  import opened Layout
  import opened Walks
  import opened Directory
  import opened InodeAlloc
  import opened FileWrite

  // ------------------------------------------------------------------ mkdir

  /** The first two entries init_directory puts in a new directory's block:
      "." naming the directory itself and ".." naming its parent. */
  function DotEntries(index: U16, parent: U16): (r: Bytes)
    ensures |r| == 2 * DirEntrySize
    ensures EntryInodeNo(r, 16, 0) == Ok(index) && EntryName(r, 0) == [Dot]
    ensures EntryInodeNo(r, 16, 1) == Ok(parent) && EntryName(r, 1) == [Dot, Dot]
  {
    var a := CreateDirEntry(index, [Dot]).value;
    var b := CreateDirEntry(parent, [Dot, Dot]).value;
    DirEntryRoundTrip(index, [Dot], b);
    DirEntryRoundTrip(parent, [Dot, Dot], []);
    assert b + [] == b;
    assert (a + b)[8] == b[0] && (a + b)[9] == b[1];
    assert (a + b)[10..16] == b[2..8];
    a + b
  }

  /** The inode fields init_directory sets: one link, directory type, and the
      size of the two entries. */
  function AsDirectory(ino: Inode): Inode {
    ino.(linkCount := 1, itype := DirType, size := 2 * DirEntrySize)
  }

  /** The new directory of mkdir: an inode taken from the free list,
      initialised at clock reading now and made a directory whose block holds
      "." and "..", written with write. The result carries its number. */
  function NewDirectory(img: Image, parent: U16, now: Clock): (r: Result<Done<U16>>)
    requires Sized(img)
    ensures img.sb.freeInodeCount == 0 ==> r == Err(RuntimeError)
    ensures r.Ok? ==> Sized(r.value.img) && |r.value.img.inodes| == |img.inodes| && |r.value.img.disk| == |img.disk|
    ensures r.Ok? ==> r.value.img.sb.blockSize == img.sb.blockSize
    ensures r.Ok? ==> r.value.value < |img.inodes|
  {
    var g :- GetFreeInode(img);
    var newi := g.value;
    var img1 :- InitInode(g.img, newi, now);
    var img2 := img1.(inodes := img1.inodes[newi := AsDirectory(img1.inodes[newi])]);
    var img3 :- Write(img2, newi, 0, DotEntries(newi, parent));
    Ok(Done(img3, newi))
  }

  /** The entry index for name appended to directory parent, as mkdir and
      hard_link add it: written at the parent's size, after which the
      parent's time is set and its size grows by 8 (a 32-bit field). */
  function AddEntry(img: Image, parent: nat, index: U16, name: Bytes, now: Clock): (r: Result<Image>)
    requires Sized(img) && |name| <= DirNameSize && Slash !in name && Space !in name
    ensures r.Ok? ==> Sized(r.value) && |r.value.inodes| == |img.inodes| && |r.value.disk| == |img.disk|
    ensures r.Ok? ==> r.value.sb.blockSize == img.sb.blockSize
    ensures parent >= |img.inodes| ==> r == Err(Undefined)
    ensures parent < |img.inodes| && img.inodes[parent].size >= MaxFileSize ==> r == Err(RuntimeError)
  {
    var ent := CreateDirEntry(index, name).value;
    var img1 :- Write(img, parent, if parent < |img.inodes| then img.inodes[parent].size else 0, ent);
    var p := img1.inodes[parent];
    Ok(img1.(inodes := img1.inodes[parent := p.(time := now, size := ToU32(p.size + DirEntrySize))]))
  }

  /** mkdir(arg) at clock reading now: the parent and the name checked by
      new_file_args (the name must not exist yet), a new directory made, and
      an entry naming it appended to the parent. The result carries the new
      inode number. */
  function Mkdir(img: Image, arg: Bytes, now: Clock): (r: Result<Done<U16>>)
    requires Sized(img)
    ensures NewFileArgs(img, arg, true).Err? ==> r == Err(NewFileArgs(img, arg, true).error)
    ensures NewFileArgs(img, arg, true).Ok? && img.sb.freeInodeCount == 0 ==> r == Err(RuntimeError)
    ensures r.Ok? ==> Sized(r.value.img) && |r.value.img.inodes| == |img.inodes| && |r.value.img.disk| == |img.disk|
    ensures r.Ok? ==> r.value.img.sb.blockSize == img.sb.blockSize
    ensures r.Ok? ==> r.value.value < |img.inodes|
  {
    var nf :- NewFileArgs(img, arg, true);
    var d :- NewDirectory(img, nf.parent, now);
    var img1 :- AddEntry(d.img, nf.parent, d.value, nf.name, now);
    Ok(Done(img1, d.value))
  }

  // ------------------------------------------------------- remove_dir_entry

  /** The search of remove_dir_entry: the first entry index from i on, below
      count, whose name is name. */
  function FindEntry(buf: Bytes, name: Bytes, i: nat, count: nat): (r: Option<nat>)
    requires DirEntrySize * count <= |buf|
    ensures r.Some? ==> i <= r.value < count && EntryName(buf, r.value) == name
    ensures r.Some? ==> forall k | i <= k < r.value :: EntryName(buf, k) != name
    ensures r.None? ==> forall k | i <= k < count :: EntryName(buf, k) != name
    decreases count - i
  {
    if i >= count then None
    else if EntryName(buf, i) == name then Some(i)
    else FindEntry(buf, name, i + 1, count)
  }

  /** remove_dir_entry's loop over the entries 1 .. count - 1, stopping at
      the first whose name matches; to_rm_pos stays 1 when none does. */
  method SearchEntries(buf: Bytes, name: Bytes, count: nat) returns (done: bool, toRmPos: nat)
    requires DirEntrySize * count <= |buf|
    ensures done <==> FindEntry(buf, name, 1, count).Some?
    ensures done ==> toRmPos == FindEntry(buf, name, 1, count).value
    ensures !done ==> toRmPos == 1
  {
    done, toRmPos := false, 1;
    var i := 1;
    while i < count && !done
      invariant 1 <= i
      invariant !done ==> FindEntry(buf, name, i, count) == FindEntry(buf, name, 1, count) && toRmPos == 1
      invariant done ==> FindEntry(buf, name, 1, count) == Some(toRmPos)
      decreases count - i, if done then 0 else 1
    {
      if EntryName(buf, i) == name {
        done, toRmPos := true, i;
      }
      i := i + 1;
    }
  }

  /** The buffer with the 8 bytes of entry k erased: the entries before it
      stay where they are, every later byte moves 8 places down. */
  function EraseEntry(buf: Bytes, k: nat): (r: Bytes)
    requires DirEntrySize * k + DirEntrySize <= |buf|
    ensures |r| == |buf| - DirEntrySize
    ensures forall p | 0 <= p < DirEntrySize * k :: r[p] == buf[p]
    ensures forall p | DirEntrySize * k <= p < |r| :: r[p] == buf[p + DirEntrySize]
  {
    buf[..8 * k] + buf[8 * k + 8..]
  }

  /** The buffer remove_dir_entry writes back: the directory's file, read
      whole, with the first entry after "." that has the name erased;
      logic_error when there is none. */
  function Remaining(img: Image, iindex: nat, name: Bytes): (r: Result<Bytes>)
    requires Sized(img)
    ensures iindex >= |img.inodes| ==> r == Err(Undefined)
    ensures r.Ok? ==> iindex < |img.inodes| && 2 * DirEntrySize <= img.inodes[iindex].size
    ensures r.Ok? ==> |r.value| == img.inodes[iindex].size - DirEntrySize
  {
    if iindex >= |img.inodes| then Err(Undefined)
    else
      var fsize := img.inodes[iindex].size;
      var buf :- ReadFile(img, iindex, fsize);
      var found := FindEntry(buf, name, 1, fsize / DirEntrySize);
      if found.None? then Err(LogicError)
      else Ok(EraseEntry(buf, found.value))
  }

  /** remove_dir_entry(iindex, name) at clock reading now: the remaining
      entries computed, the directory's blocks given back, the buffer
      written from position 0, and the size lowered by 8 (logic_error if it
      is below 8), the time set. */
  function RemoveDirEntry(img: Image, iindex: nat, name: Bytes, now: Clock): (r: Result<Image>)
    requires Sized(img)
    ensures Remaining(img, iindex, name).Err? ==> r == Err(Remaining(img, iindex, name).error)
    ensures r.Ok? ==> Sized(r.value) && |r.value.inodes| == |img.inodes| && |r.value.disk| == |img.disk|
    ensures r.Ok? ==> r.value.sb.blockSize == img.sb.blockSize && r.value.sb.freeInodeCount == img.sb.freeInodeCount
  {
    var kept :- Remaining(img, iindex, name);
    Rewrite(img, iindex, kept, now)
  }

  /** The second half of remove_dir_entry: the directory's blocks given back
      and the remaining entries kept written from position 0. */
  function Rewrite(img: Image, iindex: nat, kept: Bytes, now: Clock): (r: Result<Image>)
    requires Sized(img)
    ensures r.Ok? ==> Sized(r.value) && |r.value.inodes| == |img.inodes| && |r.value.disk| == |img.disk|
    ensures r.Ok? ==> r.value.sb.blockSize == img.sb.blockSize && r.value.sb.freeInodeCount == img.sb.freeInodeCount
  {
    var img1 :- EmptyInodeBlocks(img, iindex);
    WriteBack(img1, iindex, kept, now)
  }

  /** The last step of remove_dir_entry: kept written from position 0 into
      the emptied directory, its size lowered by 8 (logic_error if the write
      left it below 8) and its time set. */
  function WriteBack(img: Image, iindex: nat, kept: Bytes, now: Clock): (r: Result<Image>)
    requires Sized(img)
    ensures r.Ok? ==> Sized(r.value) && |r.value.inodes| == |img.inodes| && |r.value.disk| == |img.disk|
    ensures r.Ok? ==> r.value.sb.blockSize == img.sb.blockSize && r.value.sb.freeInodeCount == img.sb.freeInodeCount
  {
    var img2 :- Write(img, iindex, 0, kept);
    var ino := img2.inodes[iindex];
    if ino.size < DirEntrySize then Err(LogicError)
    else Ok(img2.(inodes := img2.inodes[iindex := ino.(size := ino.size - DirEntrySize, time := now)]))
  }

  /** remove_dir_entry continues with the kept entries once they are found. */
  lemma RemoveDirEntryRewrites(img: Image, iindex: nat, name: Bytes, now: Clock, kept: Bytes)
    requires Sized(img) && Remaining(img, iindex, name) == Ok(kept)
    ensures RemoveDirEntry(img, iindex, name, now) == Rewrite(img, iindex, kept, now)
  {
  }

  /** The rewrite continues on the image whose directory blocks were given back. */
  lemma RewriteWritesBack(img: Image, iindex: nat, kept: Bytes, now: Clock, img1: Image)
    requires Sized(img) && EmptyInodeBlocks(img, iindex) == Ok(img1)
    ensures Rewrite(img, iindex, kept, now) == WriteBack(img1, iindex, kept, now)
  {
  }

  /** After a write that leaves at least one entry, the size drops by 8. */
  lemma WriteBackShrinks(img: Image, iindex: nat, kept: Bytes, now: Clock, img2: Image)
    requires Sized(img) && Write(img, iindex, 0, kept) == Ok(img2)
    requires iindex < |img2.inodes| && img2.inodes[iindex].size >= DirEntrySize
    ensures var ino := img2.inodes[iindex];
      WriteBack(img, iindex, kept, now)
        == Ok(img2.(inodes := img2.inodes[iindex := ino.(size := ino.size - DirEntrySize, time := now)]))
  {
  }

  // ------------------------------------------------------------------ rmdir

  /** rmdir(arg) at clock reading now: check_file_to_delete, then the target
      must be a directory or a symbolic directory (invalid_argument) holding
      only "." and ".." (size 16, invalid_argument otherwise); its entry is
      removed from the parent, and the inode cleared and given back. */
  function Rmdir(img: Image, arg: Bytes, now: Clock): (r: Result<Image>)
    requires Sized(img)
    ensures CheckFileToDelete(img, arg).Err? ==> r == Err(CheckFileToDelete(img, arg).error)
    ensures CheckFileToDelete(img, arg).Ok? && CheckFileToDelete(img, arg).value.toRm < |img.inodes| ==>
      var ino := img.inodes[CheckFileToDelete(img, arg).value.toRm];
      (!IsDirType(ino.itype) || ino.size != 2 * DirEntrySize) ==> r == Err(InvalidArgument)
    ensures r.Ok? ==> Sized(r.value) && |r.value.inodes| == |img.inodes| && |r.value.disk| == |img.disk|
    ensures r.Ok? ==> CheckFileToDelete(img, arg).Ok? && CheckFileToDelete(img, arg).value.toRm < |img.inodes|
    ensures r.Ok? ==> var ino := img.inodes[CheckFileToDelete(img, arg).value.toRm];
      IsDirType(ino.itype) && ino.size == 2 * DirEntrySize
  {
    var rm :- CheckFileToDelete(img, arg);
    if rm.toRm >= |img.inodes| then Err(Undefined)
    else
      var ino := img.inodes[rm.toRm];
      if !IsDirType(ino.itype) then Err(InvalidArgument)
      else if ino.size != 2 * DirEntrySize then Err(InvalidArgument)
      else
        var img1 :- RemoveDirEntry(img, rm.parent, rm.name, now);
        FreeInode(img1, rm.toRm)
  }

  /** clear_inode(index) then put_free_inode(index), as rmdir and del give
      an inode back: the inode is cleared, the free-inode count grows by one
      (16-bit), and no other inode changes. */
  function FreeInode(img: Image, index: U16): (r: Result<Image>)
    requires Sized(img)
    ensures index >= |img.inodes| ==> r == Err(Undefined)
    ensures r.Ok? ==> Sized(r.value) && |r.value.inodes| == |img.inodes| && |r.value.disk| == |img.disk|
    ensures r.Ok? ==> r.value.inodes[index] == Cleared(img.inodes[index])
    ensures r.Ok? ==> forall j | 0 <= j < |img.inodes| && j != index :: r.value.inodes[j] == img.inodes[j]
    ensures r.Ok? ==> r.value.sb.freeInodeCount == ToU16(img.sb.freeInodeCount + 1)
  {
    var img1 :- ClearInode(img, index);
    assert Cleared(Cleared(img.inodes[index])) == Cleared(img.inodes[index]);
    PutFreeInode(img1, index)
  }

  // -------------------------------------------------------------------- del

  /** del(arg) at clock reading now: check_file_to_delete, then the target
      must be a file or a symbolic file (invalid_argument); its entry is
      removed from the parent. A link count of 0 is logic_error; the last
      link clears the inode and gives it back; otherwise the count drops by
      one. */
  function Del(img: Image, arg: Bytes, now: Clock): (r: Result<Image>)
    requires Sized(img)
    ensures CheckFileToDelete(img, arg).Err? ==> r == Err(CheckFileToDelete(img, arg).error)
    ensures CheckFileToDelete(img, arg).Ok? && CheckFileToDelete(img, arg).value.toRm < |img.inodes| ==>
      !IsFileType(img.inodes[CheckFileToDelete(img, arg).value.toRm].itype) ==> r == Err(InvalidArgument)
    ensures r.Ok? ==> Sized(r.value) && |r.value.inodes| == |img.inodes| && |r.value.disk| == |img.disk|
    ensures r.Ok? ==> CheckFileToDelete(img, arg).Ok? && CheckFileToDelete(img, arg).value.toRm < |img.inodes|
    ensures r.Ok? ==> IsFileType(img.inodes[CheckFileToDelete(img, arg).value.toRm].itype)
  {
    var rm :- CheckFileToDelete(img, arg);
    if rm.toRm >= |img.inodes| then Err(Undefined)
    else if !IsFileType(img.inodes[rm.toRm].itype) then Err(InvalidArgument)
    else
      var img1 :- RemoveDirEntry(img, rm.parent, rm.name, now);
      DropLink(img1, rm.toRm)
  }

  /** The end of del, once the entry is gone: a link count of 0 is
      logic_error; the last link gives the inode back; otherwise the count
      drops by exactly one and nothing else changes. */
  function DropLink(img: Image, index: U16): (r: Result<Image>)
    requires Sized(img)
    ensures index >= |img.inodes| ==> r == Err(Undefined)
    ensures index < |img.inodes| && img.inodes[index].linkCount == 0 ==> r == Err(LogicError)
    ensures index < |img.inodes| && img.inodes[index].linkCount == 1 ==> r == FreeInode(img, index)
    ensures index < |img.inodes| && img.inodes[index].linkCount > 1 ==>
      r == Ok(img.(inodes := img.inodes[index := img.inodes[index].(linkCount := img.inodes[index].linkCount - 1)]))
  {
    if index >= |img.inodes| then Err(Undefined)
    else
      var ino := img.inodes[index];
      if ino.linkCount == 0 then Err(LogicError)
      else if ino.linkCount == 1 then FreeInode(img, index)
      else Ok(img.(inodes := img.inodes[index := ino.(linkCount := ino.linkCount - 1)]))
  }

  // -------------------------------------------------------------- hard_link

  /** hard_link(src, dest) at clock reading now: new_file_args on dest (the
      name must not exist yet), src resolved, an entry naming src's inode
      appended to dest's parent, and src's link count raised by one in its
      16-bit field. */
  function HardLink(img: Image, src: Bytes, dest: Bytes, now: Clock): (r: Result<Image>)
    requires Sized(img)
    ensures NewFileArgs(img, dest, true).Err? ==> r == Err(NewFileArgs(img, dest, true).error)
    ensures NewFileArgs(img, dest, true).Ok? && GetDirInode(img, src).Err? ==> r == Err(GetDirInode(img, src).error)
    ensures r.Ok? ==> Sized(r.value) && |r.value.inodes| == |img.inodes| && |r.value.disk| == |img.disk|
    ensures r.Ok? ==> r.value.sb.blockSize == img.sb.blockSize
  {
    var nf :- NewFileArgs(img, dest, true);
    var srcIndex :- GetDirInode(img, src);
    Link(img, nf.parent, srcIndex, nf.name, now)
  }

  /** The second half of hard_link: the entry appended to the parent, then
      the link count of the inode it names raised by one in its 16-bit field. */
  function Link(img: Image, parent: nat, srcIndex: U16, name: Bytes, now: Clock): (r: Result<Image>)
    requires Sized(img) && |name| <= DirNameSize && Slash !in name && Space !in name
    ensures r.Ok? ==> Sized(r.value) && |r.value.inodes| == |img.inodes| && |r.value.disk| == |img.disk|
    ensures r.Ok? ==> r.value.sb.blockSize == img.sb.blockSize
  {
    var img1 :- AddEntry(img, parent, srcIndex, name, now);
    if srcIndex as nat >= |img1.inodes| then Err(Undefined)
    else
      var ino := img1.inodes[srcIndex];
      Ok(img1.(inodes := img1.inodes[srcIndex := ino.(linkCount := ToU16(ino.linkCount + 1))]))
  }

  /** rmdir, past its checks, is remove_dir_entry on the parent followed by
      giving the inode back. */
  lemma RmdirSteps(img: Image, arg: Bytes, now: Clock)
    requires Sized(img) && CheckFileToDelete(img, arg).Ok?
    requires var rm := CheckFileToDelete(img, arg).value;
      rm.toRm < |img.inodes| && IsDirType(img.inodes[rm.toRm].itype) && img.inodes[rm.toRm].size == 2 * DirEntrySize
    ensures var rm := CheckFileToDelete(img, arg).value; var s := RemoveDirEntry(img, rm.parent, rm.name, now);
      && (s.Err? ==> Rmdir(img, arg, now) == Err(s.error))
      && (s.Ok? ==> Rmdir(img, arg, now) == FreeInode(s.value, rm.toRm))
  {
  }

  /** del, past its checks, is remove_dir_entry on the parent followed by
      dropping one link. */
  lemma DelSteps(img: Image, arg: Bytes, now: Clock)
    requires Sized(img) && CheckFileToDelete(img, arg).Ok?
    requires var rm := CheckFileToDelete(img, arg).value;
      rm.toRm < |img.inodes| && IsFileType(img.inodes[rm.toRm].itype)
    ensures var rm := CheckFileToDelete(img, arg).value; var s := RemoveDirEntry(img, rm.parent, rm.name, now);
      && (s.Err? ==> Del(img, arg, now) == Err(s.error))
      && (s.Ok? ==> Del(img, arg, now) == DropLink(s.value, rm.toRm))
  {
  }

  /** hard_link continues with the parent and name of dest and the inode of src. */
  lemma HardLinkLinks(img: Image, src: Bytes, dest: Bytes, now: Clock, nf: NewFile, srcIndex: U16)
    requires Sized(img) && NewFileArgs(img, dest, true) == Ok(nf) && GetDirInode(img, src) == Ok(srcIndex)
    ensures |nf.name| <= DirNameSize && Slash !in nf.name && Space !in nf.name
    ensures HardLink(img, src, dest, now) == Link(img, nf.parent, srcIndex, nf.name, now)
  {
  }

  /** Once the entry is appended, the link count of src's inode goes up. */
  lemma LinkCounts(img: Image, parent: nat, srcIndex: U16, name: Bytes, now: Clock, img1: Image)
    requires Sized(img) && |name| <= DirNameSize && Slash !in name && Space !in name
    requires AddEntry(img, parent, srcIndex, name, now) == Ok(img1) && srcIndex as nat < |img1.inodes|
    ensures var ino := img1.inodes[srcIndex];
      Link(img, parent, srcIndex, name, now)
        == Ok(img1.(inodes := img1.inodes[srcIndex := ino.(linkCount := ToU16(ino.linkCount + 1))]))
  {
  }

  // ------------------------------------------------------------ properties

  /** The new directory is the inode get_free_inode hands out, and it is an
      empty directory: time now, size 16, directory type, one link, no
      indirect blocks. No other inode changes. */
  lemma NewDirectoryInode(img: Image, parent: U16, now: Clock)
    requires Sized(img) && NewDirectory(img, parent, now).Ok?
    ensures GetFreeInode(img).Ok?
    ensures var d := NewDirectory(img, parent, now).value; var newi := d.value;
      && newi == GetFreeInode(img).value.value
      && d.img.inodes[newi] == Inode(now, 2 * DirEntrySize, DirType, 1, d.img.inodes[newi].ba, 0, 0, 0)
      && (forall j | 0 <= j < |img.inodes| && j != newi :: d.img.inodes[j] == img.inodes[j])
  {
    var g := GetFreeInode(img).value;
    var newi := g.value;
    var img1 := InitInode(g.img, newi, now).value;
    var img2 := img1.(inodes := img1.inodes[newi := AsDirectory(img1.inodes[newi])]);
    WriteFrame(img2, newi, 0, DotEntries(newi, parent));
  }

  /** The new directory's block holds "." and "..": reading its 16 bytes
      back gives the entries naming itself and its parent. */
  lemma NewDirectoryDots(img: Image, parent: U16, now: Clock)
    requires Sized(img) && NewDirectory(img, parent, now).Ok?
    ensures var d := NewDirectory(img, parent, now).value;
      ReadFile(d.img, d.value, 2 * DirEntrySize) == Ok(DotEntries(d.value, parent))
    ensures var d := NewDirectory(img, parent, now).value; var b := d.img.inodes[d.value].ba[0];
      b < |d.img.disk| && d.img.disk[b][..2 * DirEntrySize] == DotEntries(d.value, parent)
  {
    var g := GetFreeInode(img).value;
    var newi := g.value;
    var img1 := InitInode(g.img, newi, now).value;
    var img2 := img1.(inodes := img1.inodes[newi := AsDirectory(img1.inodes[newi])]);
    var dots := DotEntries(newi, parent);
    NewDirectoryInode(img, parent, now);
    WriteOneBlockLands(img2, newi, 0, dots, BlockBytes(img.sb));
    var r := NewDirectory(img, parent, now).value.img;
    ReadOneBlockFile(r, newi);
  }

  /** add_dir_entry's frame: the parent's size grows by exactly 8 (it was
      below max_file_size, so the 32-bit field does not wrap) and its time is
      set; of its block pointers only those that were 0 may change. No other
      inode changes. */
  lemma AddEntryInode(img: Image, parent: nat, index: U16, name: Bytes, now: Clock)
    requires Sized(img) && |name| <= DirNameSize && Slash !in name && Space !in name
    requires AddEntry(img, parent, index, name, now).Ok?
    ensures parent < |img.inodes| && img.inodes[parent].size < MaxFileSize
    ensures var r := AddEntry(img, parent, index, name, now).value; var p := img.inodes[parent];
      && r.inodes[parent] == p.(time := now, size := p.size + DirEntrySize, ba := r.inodes[parent].ba)
      && (forall m | 0 <= m < DirectCount && p.ba[m] != 0 :: r.inodes[parent].ba[m] == p.ba[m])
      && (forall i | 0 <= i < |img.inodes| && i != parent :: r.inodes[i] == img.inodes[i])
  {
    var ent := CreateDirEntry(index, name).value;
    WriteFrame(img, parent, img.inodes[parent].size, ent);
  }

  /** An offset that is a multiple of 8 inside a block of a multiple of 8
      bytes leaves room for a whole entry. */
  lemma EntryFits(pos: nat, n: nat)
    requires n >= 1 && pos % 8 == 0 && n % 8 == 0
    ensures pos % n + 8 <= n && (pos % n) % 8 == 0
  {
    var q := pos / n;
    var k := n / 8;
    assert q * n == 8 * (q * k);
    assert pos == q * n + pos % n;
  }

  /** A block holds a whole number of entries. */
  lemma BlockHoldsEntries(sb: Superblock)
    ensures BlockBytes(sb) % DirEntrySize == 0
  {
    assert BlockBytes(sb) == DirEntrySize * (128 * sb.blockSize);
  }

  /** The entry lands where the parent's size pointed: when that size is a
      multiple of 8, the 8 bytes at its offset in the block that holds it
      are the entry create_dir_entry made. */
  lemma AddEntryLands(img: Image, parent: nat, index: U16, name: Bytes, now: Clock)
    requires Sized(img) && |name| <= DirNameSize && Slash !in name && Space !in name
    requires AddEntry(img, parent, index, name, now).Ok?
    requires parent < |img.inodes| && img.inodes[parent].size % DirEntrySize == 0
    ensures var pos := img.inodes[parent].size; var n := BlockBytes(img.sb);
      var r := AddEntry(img, parent, index, name, now).value;
      && pos / n < DirectCount && pos % n + DirEntrySize <= n
      && var b := r.inodes[parent].ba[pos / n];
        b < |r.disk| && r.disk[b][pos % n .. pos % n + DirEntrySize] == CreateDirEntry(index, name).value
  {
    var ent := CreateDirEntry(index, name).value;
    var pos := img.inodes[parent].size;
    var n := BlockBytes(img.sb);
    BlockHoldsEntries(img.sb);
    EntryFits(pos, n);
    WriteOneBlockLands(img, parent, pos, ent, n);
    var img1 := Write(img, parent, pos, ent).value;
    var r := AddEntry(img, parent, index, name, now).value;
    assert r.disk == img1.disk && r.inodes[parent].ba == img1.inodes[parent].ba;
  }

  /** An entry create_dir_entry made, found at a position that is a
      multiple of 8, reads back its inode number and name. */
  lemma EntryReadsBack(buf: Bytes, pos: nat, index: U16, name: Bytes)
    requires CreateDirEntry(index, name).Ok? && 0 !in name
    requires pos % DirEntrySize == 0 && pos + DirEntrySize <= |buf|
    requires buf[pos .. pos + DirEntrySize] == CreateDirEntry(index, name).value
    ensures EntryInodeNo(buf, pos + DirEntrySize, pos / DirEntrySize) == Ok(index)
    ensures EntryName(buf, pos / DirEntrySize) == name
  {
    var ent := CreateDirEntry(index, name).value;
    DirEntryRoundTrip(index, name, []);
    assert ent + [] == ent;
    assert buf[pos] == ent[0] && buf[pos + 1] == ent[1];
    assert buf[pos + 2 .. pos + 8] == ent[2..8];
  }

  lemma DivMod(pos: nat, n: nat)
    requires n >= 1
    ensures pos == pos / n * n + pos % n && pos / n * n >= 0 && pos % n <= pos
  {
  }

  /** An entry at a multiple of 8 within a block ends in that block, so a
      file that ends with it spans one block more than the blocks before. */
  lemma EntryBlock(pos: nat, sb: Superblock)
    requires sb.blockSize >= 1 && pos % BlockBytes(sb) + DirEntrySize <= BlockBytes(sb)
    ensures var n := BlockBytes(sb);
      pos / n * n == pos - pos % n && BlockCount(sb, pos + DirEntrySize) == pos / n + 1
  {
    var n := BlockBytes(sb);
    var j := pos / n;
    DivMod(pos, n);
    MulAdd(j, 1, n);
    CeilDivUnique(pos + 8, n, j + 1);
  }

  /** The 8 bytes at offset pos mod n of the block that holds byte pos
      of a file ending at pos + 8 read back at pos. */
  lemma SlotReadsBack(img: Image, index: nat, pos: nat, j: nat, off: nat, ent: Bytes)
    requires Sized(img) && index < |img.inodes| && img.inodes[index].size == pos + DirEntrySize
    requires j == pos / BlockBytes(img.sb) && off == pos % BlockBytes(img.sb)
    requires j < DirectCount && off + DirEntrySize <= BlockBytes(img.sb)
    requires img.inodes[index].ba[j] < |img.disk| && img.disk[img.inodes[index].ba[j]][off .. off + DirEntrySize] == ent
    requires ReadFile(img, index, pos + DirEntrySize).Ok?
    ensures ReadFile(img, index, pos + DirEntrySize).value[pos .. pos + DirEntrySize] == ent
  {
    EntryBlock(pos, img.sb);
    ReadDirectRange(img, index, BlockBytes(img.sb), j, pos - off, off, 8);
  }

  /** Read back after add_dir_entry, the parent's file ends with the new
      entry: at entry index old size / 8 it names the given inode under the
      given name. */
  lemma AddEntryReadsBack(img: Image, parent: nat, index: U16, name: Bytes, now: Clock, pos: nat)
    requires Sized(img) && |name| <= DirNameSize && Slash !in name && Space !in name && 0 !in name
    requires AddEntry(img, parent, index, name, now).Ok?
    requires parent < |img.inodes| && pos == img.inodes[parent].size && pos % DirEntrySize == 0
    requires ReadFile(AddEntry(img, parent, index, name, now).value, parent, pos + DirEntrySize).Ok?
    ensures EntryInodeNo(ReadFile(AddEntry(img, parent, index, name, now).value, parent, pos + DirEntrySize).value,
      pos + DirEntrySize, pos / DirEntrySize) == Ok(index)
    ensures EntryName(ReadFile(AddEntry(img, parent, index, name, now).value, parent, pos + DirEntrySize).value,
      pos / DirEntrySize) == name
  {
    var r := AddEntry(img, parent, index, name, now).value;
    AddEntryInode(img, parent, index, name, now);
    AddEntryLands(img, parent, index, name, now);
    var n := BlockBytes(img.sb);
    SlotReadsBack(r, parent, pos, pos / n, pos % n, CreateDirEntry(index, name).value);
    EntryReadsBack(ReadFile(r, parent, pos + 8).value, pos, index, name);
  }

  /** When the parent's block at the entry's position already exists, only
      that block changes, and only in the 8 bytes of the entry; no block is
      allocated, so the superblock stays. */
  lemma AddEntryInBlock(img: Image, parent: nat, index: U16, name: Bytes, now: Clock, j: nat, off: nat)
    requires Sized(img) && |name| <= DirNameSize && Slash !in name && Space !in name
    requires AddEntry(img, parent, index, name, now).Ok?
    requires parent < |img.inodes| && img.inodes[parent].size % DirEntrySize == 0
    requires j == img.inodes[parent].size / BlockBytes(img.sb) && off == img.inodes[parent].size % BlockBytes(img.sb)
    requires j < DirectCount && img.inodes[parent].ba[j] != 0
    ensures var r := AddEntry(img, parent, index, name, now).value; var b := img.inodes[parent].ba[j];
      && b < |img.disk| && off + DirEntrySize <= BlockBytes(img.sb)
      && r.sb == img.sb && r.inodes[parent].ba == img.inodes[parent].ba
      && r.disk == img.disk[b := FillFrom(img.disk[b], off, CreateDirEntry(index, name).value)]
  {
    var ent := CreateDirEntry(index, name).value;
    var pos := img.inodes[parent].size;
    var n := BlockBytes(img.sb);
    BlockHoldsEntries(img.sb);
    EntryFits(pos, n);
    WriteOneBlock(img, parent, pos, ent, n);
    assert EnsureBlock(img, parent, j) == Ok(img);
    var b := img.inodes[parent].ba[j];
    var img1 := img.(disk := img.disk[b := FillFrom(img.disk[b], off, ent)]);
    assert Write(img, parent, pos, ent) == Ok(img1);
    AddEntryOfWrite(img, parent, index, name, now, img1);
  }

  /** The append is the write at the parent's size, then the parent's time
      and size. */
  lemma AddEntryOfWrite(img: Image, parent: nat, index: U16, name: Bytes, now: Clock, img1: Image)
    requires Sized(img) && |name| <= DirNameSize && Slash !in name && Space !in name && parent < |img.inodes|
    requires Write(img, parent, img.inodes[parent].size, CreateDirEntry(index, name).value) == Ok(img1)
    ensures parent < |img1.inodes|
    ensures var p := img1.inodes[parent];
      AddEntry(img, parent, index, name, now) == Ok(img1.(inodes := img1.inodes[parent := p.(time := now, size := ToU32(p.size + DirEntrySize))]))
  {
  }

  // ------------------------------------------------------------ mkdir's effect

  /** mkdir refuses a name that exists in the parent: when new_file_args
      without the check finds the entry, mkdir fails with invalid_argument. */
  lemma MkdirRefusesExisting(img: Image, arg: Bytes, now: Clock)
    requires Sized(img) && NewFileArgs(img, arg, false).Ok? && NewFileArgs(img, arg, false).value.present
    ensures Mkdir(img, arg, now) == Err(InvalidArgument)
  {
    NewFileArgsExisting(img, arg);
  }

  /** What mkdir does to the inode table: the name was not in the parent;
      the new directory is the inode get_free_inode gave, an empty directory
      (size 16, one link, time now); the parent's size grows by 8 and its time
      is set; no other inode changes. */
  lemma MkdirInodes(img: Image, arg: Bytes, now: Clock)
    requires Sized(img) && Mkdir(img, arg, now).Ok?
    requires Mkdir(img, arg, now).value.value != NewFileArgs(img, arg, true).value.parent
    ensures var nf := NewFileArgs(img, arg, true).value; var parent := nf.parent;
      var r := Mkdir(img, arg, now).value.img; var newi := Mkdir(img, arg, now).value.value;
      && FindIn(InodeBlocks(img, img.inodes[parent]).value.blocks, nf.name) == Ok(None)
      && GetFreeInode(img).Ok? && newi == GetFreeInode(img).value.value
      && r.inodes[newi] == Inode(now, 2 * DirEntrySize, DirType, 1, r.inodes[newi].ba, 0, 0, 0)
      && img.inodes[parent].size < MaxFileSize
      && r.inodes[parent] == img.inodes[parent].(time := now, size := img.inodes[parent].size + DirEntrySize,
           ba := r.inodes[parent].ba)
      && (forall i | 0 <= i < |img.inodes| && i != newi && i != parent :: r.inodes[i] == img.inodes[i])
  {
    var nf := NewFileArgs(img, arg, true).value;
    var d := NewDirectory(img, nf.parent, now).value;
    NewDirectoryInode(img, nf.parent, now);
    AddEntryInode(d.img, nf.parent, d.value, nf.name, now);
  }

  /** mkdir is new_file_args, then NewDirectory, then AddEntry. */
  lemma MkdirSteps(img: Image, arg: Bytes, now: Clock)
    requires Sized(img) && Mkdir(img, arg, now).Ok?
    ensures NewFileArgs(img, arg, true).Ok?
    ensures var nf := NewFileArgs(img, arg, true).value;
      && NewDirectory(img, nf.parent, now).Ok?
      && var d := NewDirectory(img, nf.parent, now).value;
        && AddEntry(d.img, nf.parent, d.value, nf.name, now).Ok?
        && Mkdir(img, arg, now) == Ok(Done(AddEntry(d.img, nf.parent, d.value, nf.name, now).value, d.value))
  {
  }

  /** Read back after mkdir, the parent's file ends with the new entry: at
      entry index old size / 8 it names the new directory under the name
      given (a command-line argument, so without NUL bytes). */
  lemma MkdirEntry(img: Image, arg: Bytes, now: Clock, parent: nat, pos: nat)
    requires Sized(img) && Mkdir(img, arg, now).Ok? && 0 !in arg
    requires parent == NewFileArgs(img, arg, true).value.parent && Mkdir(img, arg, now).value.value != parent
    requires pos == img.inodes[parent].size && pos % DirEntrySize == 0
    requires ReadFile(Mkdir(img, arg, now).value.img, parent, pos + DirEntrySize).Ok?
    ensures var buf := ReadFile(Mkdir(img, arg, now).value.img, parent, pos + DirEntrySize).value;
      EntryInodeNo(buf, pos + DirEntrySize, pos / DirEntrySize) == Ok(Mkdir(img, arg, now).value.value)
      && EntryName(buf, pos / DirEntrySize) == NewFileArgs(img, arg, true).value.name
  {
    var nf := NewFileArgs(img, arg, true).value;
    var t := SplitArg(arg).value;
    assert arg == t.path + t.name;
    assert 0 !in nf.name by {
      forall k | 0 <= k < |t.name| ensures t.name[k] != 0 {
        assert t.name[k] == arg[|t.path| + k];
      }
    }
    var d := NewDirectory(img, parent, now).value;
    MkdirSteps(img, arg, now);
    NewDirectoryInode(img, parent, now);
    assert d.value != parent;
    assert d.img.inodes[parent] == img.inodes[parent];
    var r := AddEntry(d.img, parent, d.value, nf.name, now).value;
    assert Mkdir(img, arg, now).value == Done(r, d.value);
    AddEntryReadsBack(d.img, parent, d.value, nf.name, now, pos);
  }

  /** When the parent's block at the entry's position already exists, mkdir
      changes, after making the new directory, only that block, and only in
      the 8 bytes of the new entry. */
  lemma MkdirAppends(img: Image, arg: Bytes, now: Clock, parent: nat, j: nat, off: nat)
    requires Sized(img) && Mkdir(img, arg, now).Ok?
    requires parent == NewFileArgs(img, arg, true).value.parent && Mkdir(img, arg, now).value.value != parent
    requires img.inodes[parent].size % DirEntrySize == 0
    requires j == img.inodes[parent].size / BlockBytes(img.sb) && off == img.inodes[parent].size % BlockBytes(img.sb)
    requires j < DirectCount && img.inodes[parent].ba[j] != 0
    ensures var b := img.inodes[parent].ba[j];
      var d := NewDirectory(img, parent, now).value; var r := Mkdir(img, arg, now).value.img;
      && b < |d.img.disk| && off + DirEntrySize <= BlockBytes(img.sb)
      && r.disk == d.img.disk[b := FillFrom(d.img.disk[b], off, CreateDirEntry(d.value, NewFileArgs(img, arg, true).value.name).value)]
  {
    var nf := NewFileArgs(img, arg, true).value;
    var d := NewDirectory(img, parent, now).value;
    NewDirectoryInode(img, parent, now);
    AddEntryInBlock(d.img, parent, d.value, nf.name, now, j, off);
  }

  /** After mkdir the new directory reads back as "." naming itself and ".."
      naming the parent, when the parent's block at the entry's position
      already existed and is not the new directory's block. */
  lemma MkdirDots(img: Image, arg: Bytes, now: Clock, parent: nat, j: nat, off: nat)
    requires Sized(img) && Mkdir(img, arg, now).Ok?
    requires parent == NewFileArgs(img, arg, true).value.parent && Mkdir(img, arg, now).value.value != parent
    requires img.inodes[parent].size % DirEntrySize == 0
    requires j == img.inodes[parent].size / BlockBytes(img.sb) && off == img.inodes[parent].size % BlockBytes(img.sb)
    requires j < DirectCount && img.inodes[parent].ba[j] != 0
    requires img.inodes[parent].ba[j] != Mkdir(img, arg, now).value.img.inodes[Mkdir(img, arg, now).value.value].ba[0]
    ensures var r := Mkdir(img, arg, now).value;
      ReadFile(r.img, r.value, 2 * DirEntrySize) == Ok(DotEntries(r.value, parent))
  {
    var nf := NewFileArgs(img, arg, true).value;
    var d := NewDirectory(img, parent, now).value;
    var r := Mkdir(img, arg, now).value.img;
    NewDirectoryInode(img, parent, now);
    NewDirectoryDots(img, parent, now);
    AddEntryInBlock(d.img, parent, d.value, nf.name, now, j, off);
    AddEntryInode(d.img, parent, d.value, nf.name, now);
    assert r.inodes[d.value] == d.img.inodes[d.value];
    ReadOneBlockFile(r, d.value);
  }

  // -------------------------------------------------- remove_dir_entry's effect

  /** A directory of size bytes holds entries 0 .. size / 8 - 1. */
  lemma EntryCount(size: nat)
    ensures DirEntrySize * (size / DirEntrySize) <= size < DirEntrySize * (size / DirEntrySize) + DirEntrySize
  {
  }

  /** What remove_dir_entry's search finds: logic_error exactly when no entry
      after "." has the name; otherwise the buffer is the directory's file
      with the first such entry erased. */
  lemma RemainingErases(img: Image, iindex: nat, name: Bytes)
    requires Sized(img) && iindex < |img.inodes|
    requires ReadFile(img, iindex, img.inodes[iindex].size).Ok?
    ensures var buf := ReadFile(img, iindex, img.inodes[iindex].size).value; var r := Remaining(img, iindex, name);
      r.Err? ==> (r.error == LogicError
        && forall k | 1 <= k && DirEntrySize * k + DirEntrySize <= |buf| :: EntryName(buf, k) != name)
    ensures var buf := ReadFile(img, iindex, img.inodes[iindex].size).value; var r := Remaining(img, iindex, name);
      r.Ok? ==> exists k | 1 <= k && DirEntrySize * k + DirEntrySize <= |buf| ::
        && EntryName(buf, k) == name
        && (forall i | 1 <= i < k :: EntryName(buf, i) != name)
        && r.value == EraseEntry(buf, k)
  {
    var size := img.inodes[iindex].size;
    var buf := ReadFile(img, iindex, size).value;
    var count := size / DirEntrySize;
    EntryCount(size);
    var found := FindEntry(buf, name, 1, count);
    if found.None? {
      forall k | 1 <= k && DirEntrySize * k + DirEntrySize <= |buf|
        ensures EntryName(buf, k) != name
      {
        assert k < count;
      }
    } else {
      var k := found.value;
      assert DirEntrySize * k + DirEntrySize <= |buf|;
      assert Remaining(img, iindex, name) == Ok(EraseEntry(buf, k));
    }
  }

  /** remove_dir_entry's frame: the directory's size drops by exactly 8 (it
      held at least 16 bytes), its time is set, its tree pointers are 0; no
      other inode changes. */
  lemma RemoveDirEntryInode(img: Image, iindex: nat, name: Bytes, now: Clock)
    requires Sized(img) && RemoveDirEntry(img, iindex, name, now).Ok?
    ensures Remaining(img, iindex, name).Ok?
    ensures iindex < |img.inodes| && 2 * DirEntrySize <= img.inodes[iindex].size
    ensures var r := RemoveDirEntry(img, iindex, name, now).value; var ino := img.inodes[iindex];
      && r.inodes[iindex] == ino.(size := ino.size - DirEntrySize, time := now, ba := r.inodes[iindex].ba, si := 0, di := 0, ti := 0)
      && (forall i | 0 <= i < |img.inodes| && i != iindex :: r.inodes[i] == img.inodes[i])
  {
    var kept := Remaining(img, iindex, name).value;
    var img1 := EmptyInodeBlocks(img, iindex).value;
    WriteFrame(img1, iindex, 0, kept);
  }

  /** Read back after remove_dir_entry, the directory is the buffer with the
      entry erased, for a directory of at most 5 blocks whose new blocks are
      distinct. */
  lemma RemoveDirEntryReadsBack(img: Image, iindex: nat, name: Bytes, now: Clock)
    requires Sized(img) && RemoveDirEntry(img, iindex, name, now).Ok? && iindex < |img.inodes|
    requires img.inodes[iindex].size <= DirectCount * BlockBytes(img.sb)
    requires var ba := RemoveDirEntry(img, iindex, name, now).value.inodes[iindex].ba;
      forall j1, j2 | 0 <= j1 < j2 < DirectCount && j2 * BlockBytes(img.sb) < img.inodes[iindex].size - DirEntrySize ::
        ba[j1] != ba[j2]
    ensures Remaining(img, iindex, name).Ok?
    ensures var r := RemoveDirEntry(img, iindex, name, now).value;
      ReadFile(r, iindex, r.inodes[iindex].size) == Ok(Remaining(img, iindex, name).value)
  {
    var kept := Remaining(img, iindex, name).value;
    var img1 := EmptyInodeBlocks(img, iindex).value;
    var img2 := Write(img1, iindex, 0, kept).value;
    var r := RemoveDirEntry(img, iindex, name, now).value;
    RemoveDirEntryInode(img, iindex, name, now);
    assert r.disk == img2.disk && r.inodes[iindex].ba == img2.inodes[iindex].ba;
    var n := BlockBytes(img.sb);
    WriteFromStart(img1, iindex, kept, n);
    ReadDirectAll(r, iindex, n, kept);
  }

  // ------------------------------------------------------ rmdir's and del's effect

  /** What rmdir does to the inodes: the entry is removed from the parent
      (whose size drops by 8 and whose time is set), the directory's inode
      is cleared, the free-inode count grows by one, and no other inode
      changes. */
  lemma RmdirEffect(img: Image, arg: Bytes, now: Clock, toRm: U16, parent: U16, name: Bytes)
    requires Sized(img) && Rmdir(img, arg, now).Ok?
    requires CheckFileToDelete(img, arg) == Ok(Removal(toRm, parent, name)) && toRm != parent
    ensures RemoveDirEntry(img, parent, name, now).Ok? && parent < |img.inodes|
    ensures var r := Rmdir(img, arg, now).value; var p := img.inodes[parent];
      && r.inodes[toRm] == Cleared(img.inodes[toRm])
      && r.sb.freeInodeCount == ToU16(img.sb.freeInodeCount + 1)
      && r.inodes[parent] == p.(size := p.size - DirEntrySize, time := now, ba := r.inodes[parent].ba, si := 0, di := 0, ti := 0)
      && (forall i | 0 <= i < |img.inodes| && i != toRm && i != parent :: r.inodes[i] == img.inodes[i])
  {
    var img1 := RemoveDirEntry(img, parent, name, now).value;
    RemoveDirEntryInode(img, parent, name, now);
    assert img1.inodes[toRm] == img.inodes[toRm];
    assert Rmdir(img, arg, now) == FreeInode(img1, toRm);
  }

  /** del of the last link: the entry is removed from the parent, the
      file's inode is cleared and the free-inode count grows by one. del of
      one of several links: the link count drops by exactly one and the
      free-inode count stays. No other inode changes. */
  lemma DelEffect(img: Image, arg: Bytes, now: Clock, toRm: U16, parent: U16, name: Bytes)
    requires Sized(img) && Del(img, arg, now).Ok?
    requires CheckFileToDelete(img, arg) == Ok(Removal(toRm, parent, name)) && toRm != parent
    ensures RemoveDirEntry(img, parent, name, now).Ok? && parent < |img.inodes|
    ensures var r := Del(img, arg, now).value; var f := img.inodes[toRm];
      && f.linkCount >= 1
      && (f.linkCount == 1 ==> r.inodes[toRm] == Cleared(f) && r.sb.freeInodeCount == ToU16(img.sb.freeInodeCount + 1))
      && (f.linkCount > 1 ==> r.inodes[toRm] == f.(linkCount := f.linkCount - 1) && r.sb.freeInodeCount == img.sb.freeInodeCount)
    ensures var r := Del(img, arg, now).value; var p := img.inodes[parent];
      && r.inodes[parent] == p.(size := p.size - DirEntrySize, time := now, ba := r.inodes[parent].ba, si := 0, di := 0, ti := 0)
      && (forall i | 0 <= i < |img.inodes| && i != toRm && i != parent :: r.inodes[i] == img.inodes[i])
  {
    var img1 := RemoveDirEntry(img, parent, name, now).value;
    RemoveDirEntryInode(img, parent, name, now);
    assert img1.inodes[toRm] == img.inodes[toRm];
    assert Del(img, arg, now) == DropLink(img1, toRm);
    DropLinkEffect(img1, toRm);
  }

  /** The end of del on its own: a successful drop leaves a link count that
      was at least 1, clears the inode and gives it back on the last link,
      lowers the count by one otherwise, and changes no other inode. */
  lemma DropLinkEffect(img: Image, index: U16)
    requires Sized(img) && DropLink(img, index).Ok?
    ensures var r := DropLink(img, index).value;
      && index < |img.inodes| && |r.inodes| == |img.inodes|
      && (forall i | 0 <= i < |img.inodes| && i != index :: r.inodes[i] == img.inodes[i])
    ensures var r := DropLink(img, index).value; var f := img.inodes[index];
      && f.linkCount >= 1
      && (f.linkCount == 1 ==> r.inodes[index] == Cleared(f) && r.sb.freeInodeCount == ToU16(img.sb.freeInodeCount + 1))
      && (f.linkCount > 1 ==> r.inodes[index] == f.(linkCount := f.linkCount - 1) && r.sb.freeInodeCount == img.sb.freeInodeCount)
  {
  }

  /** A file whose link count is already 0 is refused with logic_error, once
      its entry is removed. */
  lemma DelCorruptLinkCount(img: Image, arg: Bytes, now: Clock, toRm: U16, parent: U16, name: Bytes)
    requires Sized(img) && CheckFileToDelete(img, arg) == Ok(Removal(toRm, parent, name)) && toRm != parent
    requires toRm < |img.inodes| && IsFileType(img.inodes[toRm].itype) && img.inodes[toRm].linkCount == 0
    requires RemoveDirEntry(img, parent, name, now).Ok?
    ensures Del(img, arg, now) == Err(LogicError)
  {
    RemoveDirEntryInode(img, parent, name, now);
  }

  // ------------------------------------------------------ hard_link's effect

  /** What hard_link does to the inodes: the name was not in dest's parent;
      src's link count grows by one (16-bit); the parent's size grows by 8
      and its time is set; no other inode changes. The blocks are those
      add_dir_entry leaves. */
  lemma HardLinkEffect(img: Image, src: Bytes, dest: Bytes, now: Clock, parent: U16, srcIndex: U16)
    requires Sized(img) && HardLink(img, src, dest, now).Ok?
    requires NewFileArgs(img, dest, true).Ok? && NewFileArgs(img, dest, true).value.parent == parent
    requires GetDirInode(img, src) == Ok(srcIndex) && srcIndex != parent
    ensures var nf := NewFileArgs(img, dest, true).value;
      && FindIn(InodeBlocks(img, img.inodes[parent]).value.blocks, nf.name) == Ok(None)
      && AddEntry(img, parent, srcIndex, nf.name, now).Ok?
      && HardLink(img, src, dest, now).value.disk == AddEntry(img, parent, srcIndex, nf.name, now).value.disk
    ensures var r := HardLink(img, src, dest, now).value; var s := img.inodes[srcIndex]; var p := img.inodes[parent];
      && r.inodes[srcIndex] == s.(linkCount := ToU16(s.linkCount + 1))
      && r.inodes[parent] == p.(time := now, size := p.size + DirEntrySize, ba := r.inodes[parent].ba)
      && (forall m | 0 <= m < DirectCount && p.ba[m] != 0 :: r.inodes[parent].ba[m] == p.ba[m])
      && (forall i | 0 <= i < |img.inodes| && i != srcIndex && i != parent :: r.inodes[i] == img.inodes[i])
  {
    var nf := NewFileArgs(img, dest, true).value;
    AddEntryInode(img, parent, srcIndex, nf.name, now);
  }

  /** When dest's parent's block at the entry's position already exists,
      hard_link changes only that block, and only in the 8 bytes of the entry
      naming src's inode. */
  lemma HardLinkAppends(img: Image, src: Bytes, dest: Bytes, now: Clock, parent: U16, srcIndex: U16, j: nat, off: nat)
    requires Sized(img) && HardLink(img, src, dest, now).Ok?
    requires NewFileArgs(img, dest, true).Ok? && NewFileArgs(img, dest, true).value.parent == parent
    requires GetDirInode(img, src) == Ok(srcIndex)
    requires img.inodes[parent].size % DirEntrySize == 0
    requires j == img.inodes[parent].size / BlockBytes(img.sb) && off == img.inodes[parent].size % BlockBytes(img.sb)
    requires j < DirectCount && img.inodes[parent].ba[j] != 0
    ensures var b := img.inodes[parent].ba[j];
      && b < |img.disk| && off + DirEntrySize <= BlockBytes(img.sb)
      && HardLink(img, src, dest, now).value.disk
        == img.disk[b := FillFrom(img.disk[b], off, CreateDirEntry(srcIndex, NewFileArgs(img, dest, true).value.name).value)]
  {
    var nf := NewFileArgs(img, dest, true).value;
    AddEntryInBlock(img, parent, srcIndex, nf.name, now, j, off);
  }
}
