/** The directory engine: entry lookup in a directory's blocks, path
    resolution (get_dir_inode and its helper) and the argument checks of
    new_file_args and check_file_to_delete. Paths and names are byte strings;
    directory contents are 8-byte entries in the directory's file blocks. */
module Directory {
  import opened Types
  import opened BlockCodec
  import opened Layout
  import opened Walks

  /** Entry j lies within the block's used size and its bytes. */
  predicate InBlock(b: Loaded, j: nat) {
    j < b.size / DirEntrySize && DirEntrySize * j + DirEntrySize <= |b.arr|
  }

  /** The entry of name in block b at index j or after, up to count entries:
      the inode number of the first one whose name matches. */
  function FindInBlock(b: Loaded, name: Bytes, j: nat, count: nat): (r: Result<Option<U16>>)
    requires count == b.size / DirEntrySize
    ensures r.Err? ==> r.error == Undefined
    ensures r == Ok(None) ==> forall i: nat | j <= i && InBlock(b, i) :: EntryName(b.arr, i) != name
    ensures r.Ok? && r.value.Some? ==>
      exists i: nat | j <= i && InBlock(b, i) :: EntryName(b.arr, i) == name && WordValue(b.arr, 8 * i) == r.value.value
    decreases count - j
  {
    if j >= count then Ok(None)
    else if 8 * j + 8 > |b.arr| then Err(Undefined)
    else if EntryName(b.arr, j) == name then Ok(Some(WordValue(b.arr, 8 * j)))
    else FindInBlock(b, name, j + 1, count)
  }

  /** The scan of get_dir_inode_helper and new_file_args: the blocks in
      order, each block's entries in order (logic_error when a block's size is
      not a multiple of 8), the first entry named name. */
  function FindIn(blocks: seq<Loaded>, name: Bytes): (r: Result<Option<U16>>)
    ensures r.Err? ==> r.error in {LogicError, Undefined}
    ensures r == Ok(None) ==>
      forall k: nat, i: nat | k < |blocks| && InBlock(blocks[k], i) :: EntryName(blocks[k].arr, i) != name
    ensures r.Ok? && r.value.Some? ==>
      exists k: nat, i: nat | k < |blocks| && InBlock(blocks[k], i) ::
        EntryName(blocks[k].arr, i) == name && WordValue(blocks[k].arr, 8 * i) == r.value.value
  {
    if blocks == [] then Ok(None)
    else
      var count :- DirEntryCount(blocks[0].size);
      var found :- FindInBlock(blocks[0], name, 0, count);
      if found.Some? then Ok(found)
      else
        var r := FindIn(blocks[1..], name);
        assert forall k | 1 <= k < |blocks| :: blocks[k] == blocks[1..][k - 1];
        r
  }

  /** The index of the first slash in s, if any. */
  function FirstSlash(s: Bytes): (r: Option<nat>)
    ensures r.Some? ==> r.value < |s| && s[r.value] == Slash && Slash !in s[..r.value]
    ensures r.None? ==> Slash !in s
  {
    if s == [] then None
    else if s[0] == Slash then Some(0)
    else
      var t := FirstSlash(s[1..]);
      if t.None? then None
      else
        assert s[..t.value + 1] == [s[0]] + s[1..][..t.value];
        Some(t.value + 1)
  }

  /** The index of the last slash in s, if any. */
  function LastSlash(s: Bytes): (r: Option<nat>)
    ensures r.Some? ==> r.value < |s| && s[r.value] == Slash && Slash !in s[r.value + 1..]
    ensures r.None? ==> Slash !in s
  {
    if s == [] then None
    else if s[|s| - 1] == Slash then Some(|s| - 1)
    else
      var t := LastSlash(s[..|s| - 1]);
      if t.None? then None
      else
        assert s[t.value + 1..] == s[..|s| - 1][t.value + 1..] + [s[|s| - 1]];
        Some(t.value)
  }

  /** get_dir_inode(path): "/" is inode 0; otherwise the first character is
      dropped and the rest resolved from the root inode. */
  function GetDirInode(img: Image, path: Bytes): (r: Result<U16>)
    requires Sized(img)
    ensures path == [Slash] ==> r == Ok(0)
    ensures r.Err? ==> r.error in {InvalidArgument, LogicError, Undefined, IoFailure}
  {
    if path == [Slash] then Ok(0)
    else if |img.inodes| == 0 then Err(Undefined)
    else DirInodeFrom(img, if path == [] then [] else path[1..], img.inodes[0])
  }

  /** get_dir_inode_helper(path, i): the part of path up to the first slash
      is looked up among the entries of directory inode i. On the last level
      (no slash, or only a trailing one) the entry's inode number is the
      result; otherwise the rest of the path is resolved from that inode.
      invalid_argument when no entry matches. An empty path on the last level
      makes the source pop a character from an empty string. */
  function DirInodeFrom(img: Image, path: Bytes, ino: Inode): (r: Result<U16>)
    requires Sized(img)
    ensures r.Err? ==> r.error in {InvalidArgument, LogicError, Undefined, IoFailure}
    decreases |path|
  {
    var slash := FirstSlash(path);
    var w :- InodeBlocks(img, ino);
    var lastLevel := slash.None? || |path| == slash.value + 1;
    if lastLevel && path == [] then Err(Undefined)
    else
      var searched := if slash.None? then path else path[..slash.value];
      var found :- FindIn(w.blocks, searched);
      if found.None? then Err(InvalidArgument)
      else if lastLevel then Ok(found.value)
      else if found.value >= |img.inodes| then Err(Undefined)
      else DirInodeFrom(img, path[slash.value + 1..], img.inodes[found.value])
  }

  /** A one-level path "/name" resolves to the first entry named name in the
      root directory, and fails with invalid_argument when there is none. */
  lemma ResolveTopLevel(img: Image, name: Bytes)
    requires Sized(img) && |img.inodes| >= 1 && name != [] && Slash !in name
    requires InodeBlocks(img, img.inodes[0]).Ok?
    ensures var f := FindIn(InodeBlocks(img, img.inodes[0]).value.blocks, name);
      GetDirInode(img, [Slash] + name) ==
        if f.Err? then Err(f.error) else if f.value.None? then Err(InvalidArgument) else Ok(f.value.value)
  {
    assert ([Slash] + name)[1..] == name;
    assert FirstSlash(name).None?;
  }

  /** A trailing slash names the same entry: "/name/" resolves as "/name". */
  lemma TrailingSlashSame(img: Image, name: Bytes)
    requires Sized(img) && |img.inodes| >= 1 && name != [] && Slash !in name
    ensures GetDirInode(img, [Slash] + name + [Slash]) == GetDirInode(img, [Slash] + name)
  {
    var p := name + [Slash];
    assert ([Slash] + name + [Slash])[1..] == p;
    assert ([Slash] + name)[1..] == name;
    assert FirstSlash(name).None?;
    FirstSlashAfter(name);
    assert p[..|name|] == name;
  }

  lemma FirstSlashAfter(name: Bytes)
    requires Slash !in name
    ensures FirstSlash(name + [Slash]) == Some(|name|)
  {
    var p := name + [Slash];
    assert p[|name|] == Slash;
  }

  // ------------------------------------------------------------ argument checks

  /** What new_file_args and check_file_to_delete split an argument into. */
  datatype Target = Target(path: Bytes, name: Bytes, lastSlash: nat)

  /** The checks both functions share: a slash is needed, the name after the
      last one has at most 6 characters and neither it nor the path holds a
      space. */
  function SplitArg(arg: Bytes): (r: Result<Target>)
    ensures r.Err? ==> r.error == InvalidArgument
    ensures r.Ok? <==>
      LastSlash(arg).Some? && |arg[LastSlash(arg).value + 1..]| <= DirNameSize && Space !in arg
    ensures r.Ok? ==>
      && r.value.lastSlash < |arg| && arg[r.value.lastSlash] == Slash
      && r.value.path == arg[..r.value.lastSlash + 1] && r.value.name == arg[r.value.lastSlash + 1..]
      && arg == r.value.path + r.value.name
      && |r.value.name| <= DirNameSize && Slash !in r.value.name && Space !in r.value.name
  {
    var ls := LastSlash(arg);
    if ls.None? then Err(InvalidArgument)
    else
      var path := arg[..ls.value + 1];
      var name := arg[ls.value + 1..];
      assert arg == path + name;
      if |name| > DirNameSize then Err(InvalidArgument)
      else if Slash in name || Space in name then Err(InvalidArgument)
      else if Space in path then Err(InvalidArgument)
      else Ok(Target(path, name, ls.value))
  }

  /** What new_file_args returns: the parent directory's inode, and whether
      an entry of that name already exists there. */
  datatype NewFile = NewFile(path: Bytes, name: Bytes, parent: U16, present: bool)

  /** new_file_args(arg, error_when_exists): the argument split, the parent
      path resolved (without its trailing slash, unless it is "/"), the parent
      checked to be a directory or a symbolic directory, and its entries
      searched for the name. invalid_argument when the name exists and
      error_when_exists is set. */
  function NewFileArgs(img: Image, arg: Bytes, errorWhenExists: bool): (r: Result<NewFile>)
    requires Sized(img)
    ensures r.Ok? ==> SplitArg(arg).Ok? && r.value.name == SplitArg(arg).value.name
    ensures r.Ok? ==> r.value.parent < |img.inodes| && IsDirType(img.inodes[r.value.parent].itype)
    ensures r.Ok? && errorWhenExists ==> !r.value.present
    ensures r.Ok? ==> InodeBlocks(img, img.inodes[r.value.parent]).Ok?
    ensures r.Ok? ==> var f := FindIn(InodeBlocks(img, img.inodes[r.value.parent]).value.blocks, r.value.name);
      f.Ok? && (r.value.present <==> f.value.Some?)
  {
    var t :- SplitArg(arg);
    var path := if t.lastSlash != 0 then t.path[..t.lastSlash] else t.path;
    var parent :- GetDirInode(img, path);
    if parent >= |img.inodes| then Err(Undefined)
    else
      var i := img.inodes[parent];
      if !IsDirType(i.itype) then Err(InvalidArgument)
      else
        var w :- InodeBlocks(img, i);
        var found :- FindIn(w.blocks, t.name);
        if found.Some? && errorWhenExists then Err(InvalidArgument)
        else Ok(NewFile(path, t.name, parent, found.Some?))
  }

  /** With error_when_exists set, a name new_file_args finds is refused
      with invalid_argument. */
  lemma NewFileArgsExisting(img: Image, arg: Bytes)
    requires Sized(img) && NewFileArgs(img, arg, false).Ok? && NewFileArgs(img, arg, false).value.present
    ensures NewFileArgs(img, arg, true) == Err(InvalidArgument)
  {
    var t := SplitArg(arg).value;
    var path := if t.lastSlash != 0 then t.path[..t.lastSlash] else t.path;
    var parent := GetDirInode(img, path).value;
    var w := InodeBlocks(img, img.inodes[parent]).value;
    assert FindIn(w.blocks, t.name).value.Some?;
  }

  /** What check_file_to_delete returns: the inode to remove, its parent and
      the entry name. */
  datatype Removal = Removal(toRm: U16, parent: U16, name: Bytes)

  /** check_file_to_delete(arg): the checks of the split, the names "." and
      ".." refused, both the argument and its parent path (with the trailing
      slash) resolved, and the root refused as a target. */
  function CheckFileToDelete(img: Image, arg: Bytes): (r: Result<Removal>)
    requires Sized(img)
    ensures r.Ok? ==> SplitArg(arg).Ok? && r.value.name == SplitArg(arg).value.name
    ensures r.Ok? ==> r.value.name != [Dot] && r.value.name != [Dot, Dot] && r.value.toRm != 0
    ensures r.Ok? ==> GetDirInode(img, arg) == Ok(r.value.toRm)
    ensures r.Ok? ==> GetDirInode(img, SplitArg(arg).value.path) == Ok(r.value.parent)
  {
    var t :- SplitArg(arg);
    if t.name == [Dot] || t.name == [Dot, Dot] then Err(InvalidArgument)
    else
      var toRm :- GetDirInode(img, arg);
      var parent :- GetDirInode(img, t.path);
      if toRm == 0 then Err(InvalidArgument)
      else Ok(Removal(toRm, parent, t.name))
  }
}
