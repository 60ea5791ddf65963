/** The views of a data_block's bytes: 2-byte big-endian address cells,
    free-list nodes and 8-byte directory entries. Every function reads a
    block's bytes as a sequence; the class in DataBlock changes them. */
module BlockCodec {
  import opened Types

  function Zeros(n: nat): (r: Bytes)
    ensures |r| == n
    ensures forall j | 0 <= j < n :: r[j] == 0
  {
    seq(n, _ => 0)
  }

  // ---------------------------------------------------------------- cells

  /** `((uint16_t)arr[p]) << 8` with `char` signed: a high byte of 0x80 or more
      is sign-extended before the shift. */
  function HighAsWritten(b: Byte): nat {
    if b < 0x80 then b * 0x100 else (b + 0xFF00) * 0x100
  }

  /** The unsigned big-endian value of the two bytes at p. */
  function WordValue(arr: Bytes, p: nat): U16
    requires p + 2 <= |arr|
  {
    (arr[p] as int) * 0x100 + arr[p + 1]
  }

  /** What get_address and pop_address return for the two bytes at p: the
      low byte read unsigned, the high byte sign-extended. */
  function WordAt(arr: Bytes, p: nat): (r: nat)
    requires p + 2 <= |arr|
    ensures r % 0x1_0000 == WordValue(arr, p)
    ensures r == WordValue(arr, p) <==> arr[p] < 0x80
  {
    arr[p + 1] + HighAsWritten(arr[p])
  }

  /** Writes the low 16 bits of a big-endian at byte p, as push_address and
      set_address do with their `(uint8_t)` casts. */
  function WithWord(arr: Bytes, p: nat, a: nat): (r: Bytes)
    requires p + 2 <= |arr|
    ensures |r| == |arr|
    ensures WordValue(r, p) == a % 0x1_0000
    ensures forall j | 0 <= j < |arr| && j != p && j != p + 1 :: r[j] == arr[j]
  {
    arr[p := (a / 0x100) % 0x100][p + 1 := a % 0x100]
  }

  /** Unsigned cell k: a block's bytes 2k and 2k+1. */
  function CellValue(arr: Bytes, k: nat): U16
    requires 2 * k + 2 <= |arr|
  {
    WordValue(arr, 2 * k)
  }

  /** get_address(k) once its range check passed. */
  function CellAt(arr: Bytes, k: nat): nat
    requires 2 * k + 2 <= |arr|
  {
    WordAt(arr, 2 * k)
  }

  /** data_block::get_address: range_error when the cell lies past the
      block's capacity. */
  function GetAddress(arr: Bytes, index: nat): (r: Result<nat>)
    ensures r.Err? <==> 2 * index + 2 > |arr|
    ensures r.Err? ==> r.error == RangeError
    ensures r.Ok? ==> r.value % 0x1_0000 == CellValue(arr, index)
  {
    if index * 2 + 2 > |arr| then Err(RangeError) else Ok(CellAt(arr, index))
  }

  function WithCell(arr: Bytes, k: nat, v: U16): (r: Bytes)
    requires 2 * k + 2 <= |arr|
    ensures |r| == |arr|
    ensures CellValue(r, k) == v
    ensures forall c | 0 <= c < |arr| / 2 && c != k :: CellValue(r, c) == CellValue(arr, c)
  {
    WithWord(arr, 2 * k, v)
  }

  lemma {:induction false} WordRoundTrip(arr: Bytes, p: nat, a: nat)
    requires p + 2 <= |arr|
    ensures WordValue(WithWord(arr, p, a), p) == a % 0x1_0000
    ensures a < 0x8000 ==> WordAt(WithWord(arr, p, a), p) == a
  {
    var r := WithWord(arr, p, a);
    if a < 0x8000 {
      assert r[p] == a / 0x100 < 0x80;
    }
  }

  /** set_address(k, a) then get_address(k): a, for an address below 0x8000
      (a larger one comes back sign-extended, equal to a modulo 2^16). */
  lemma SetThenGetAddress(arr: Bytes, k: nat, a: U16)
    requires 2 * k + 2 <= |arr|
    ensures GetAddress(WithCell(arr, k, a), k).Ok?
    ensures GetAddress(WithCell(arr, k, a), k).value % 0x1_0000 == a
    ensures a < 0x8000 ==> GetAddress(WithCell(arr, k, a), k) == Ok(a)
  {
    WordRoundTrip(arr, 2 * k, a);
  }

  // ------------------------------------------------------- push and pop

  /** The bytes and size after push_address(a). The size grows by 2 before the
      capacity test, so a push that throws still leaves the size bumped. */
  datatype PushResult = PushResult(arr: Bytes, size: nat, ok: bool)

  function Push(arr: Bytes, size: nat, a: nat): (r: PushResult)
    ensures r.size == size + 2
    ensures r.ok <==> size + 2 <= |arr|
    ensures |r.arr| == |arr|
    ensures r.ok ==> WordValue(r.arr, size) == a % 0x1_0000
    ensures r.ok ==> forall j | 0 <= j < |arr| && j != size && j != size + 1 :: r.arr[j] == arr[j]
    ensures !r.ok ==> r.arr == arr
  {
    if size + 2 > |arr| then PushResult(arr, size + 2, false)
    else PushResult(WithWord(arr, size, a), size + 2, true)
  }

  datatype PopResult = PopResult(value: nat, arr: Bytes, size: nat)

  /** pop_address: invalid_argument when fewer than two bytes are used;
      otherwise the size drops by 2, the last word is returned and zeroed.
      A size past the array (left by a failed push) would read outside it. */
  function Pop(arr: Bytes, size: nat): (r: Result<PopResult>)
    ensures size < 2 ==> r == Err(InvalidArgument)
    ensures 2 <= size <= |arr| ==> r.Ok? && r.value.size == size - 2
    ensures r.Ok? ==> 2 <= size <= |arr| && r.value.value == WordAt(arr, size - 2)
    ensures r.Ok? ==> |r.value.arr| == |arr| && WordValue(r.value.arr, size - 2) == 0
  {
    if size < 2 then Err(InvalidArgument)
    else if size > |arr| then Err(Undefined)
    else Ok(PopResult(WordAt(arr, size - 2), WithWord(arr, size - 2, 0), size - 2))
  }

  /** push_address(a) then pop_address() returns a, restores the size and
      leaves the word zero; when that word was zero before the push, the block
      is exactly as before. a must be below 0x8000 because pop_address
      sign-extends the high byte. */
  lemma {:induction false} PushThenPop(arr: Bytes, size: nat, a: nat)
    requires size + 2 <= |arr|
    ensures Pop(Push(arr, size, a).arr, Push(arr, size, a).size).Ok?
    ensures var p := Pop(Push(arr, size, a).arr, Push(arr, size, a).size).value;
      && p.value % 0x1_0000 == a % 0x1_0000
      && (a < 0x8000 ==> p.value == a)
      && p.size == size && WordValue(p.arr, size) == 0
    ensures WordValue(arr, size) == 0 ==>
      Pop(Push(arr, size, a).arr, Push(arr, size, a).size).value.arr == arr
  {
    var pushed := Push(arr, size, a);
    WordRoundTrip(arr, size, a);
    var p := Pop(pushed.arr, pushed.size).value;
    if WordValue(arr, size) == 0 {
      assert arr[size] == 0 && arr[size + 1] == 0;
      assert p.arr == arr;
    }
  }

  /** An address that uses the top bit does not survive the round trip: the
      sign-extended high byte adds 0xFF0000. */
  lemma HighAddressSignExtends(arr: Bytes, size: nat)
    requires size + 2 <= |arr|
    ensures Pop(Push(arr, size, 0x8000).arr, size + 2).value.value == 0xFF8000
  {
    var pushed := Push(arr, size, 0x8000);
    assert pushed.arr[size] == 0x80 && pushed.arr[size + 1] == 0;
  }

  // ------------------------------------------------- free-list node view

  predicate CellZero(arr: Bytes, k: nat)
    requires 2 * k + 2 <= |arr|
  {
    arr[2 * k] == 0 && arr[2 * k + 1] == 0
  }

  /** Index of the first zero cell in [i, limit), or limit. */
  function FirstZeroFrom(arr: Bytes, i: nat, limit: nat): (r: nat)
    requires i <= limit && 2 * limit <= |arr|
    ensures i <= r <= limit
    ensures forall k | i <= k < r :: !CellZero(arr, k)
    ensures r < limit ==> CellZero(arr, r)
    decreases limit - i
  {
    if i == limit then i
    else if CellZero(arr, i) then i
    else FirstZeroFrom(arr, i + 1, limit)
  }

  /** get_fb_size: the number of leading non-zero cells among the first
      cap/2 - 1, that is, how many addresses a free-list node holds. */
  function FbSize(arr: Bytes): (r: nat)
    requires |arr| >= 2
    ensures r <= |arr| / 2 - 1
    ensures forall k | 0 <= k < r :: !CellZero(arr, k)
    ensures r < |arr| / 2 - 1 ==> CellZero(arr, r)
  {
    FirstZeroFrom(arr, 0, |arr| / 2 - 1)
  }

  /** The addresses a free-list node holds, as 16-bit values. */
  function NodeEntries(arr: Bytes): (r: seq<U16>)
    requires |arr| >= 2
    ensures |r| == FbSize(arr)
    ensures forall k | 0 <= k < |r| :: r[k] == CellValue(arr, k) && r[k] != 0
  {
    LeadingCellsNonZero(arr);
    seq(FbSize(arr), k requires 0 <= k < FbSize(arr) => CellValue(arr, k))
  }

  lemma LeadingCellsNonZero(arr: Bytes)
    requires |arr| >= 2
    ensures forall k | 0 <= k < FbSize(arr) :: CellValue(arr, k) != 0
  {
    forall k | 0 <= k < FbSize(arr)
      ensures CellValue(arr, k) != 0
    {
      assert !CellZero(arr, k);
    }
  }

  lemma CellZeroIsZeroValue(arr: Bytes, k: nat)
    requires 2 * k + 2 <= |arr|
    ensures CellZero(arr, k) <==> CellValue(arr, k) == 0
  {
  }

  /** The cell count FbSize stops at is the first zero cell, or the limit. */
  lemma FbSizeIs(arr: Bytes, m: nat)
    requires |arr| >= 2 && m <= |arr| / 2 - 1
    requires forall k | 0 <= k < m :: !CellZero(arr, k)
    requires m < |arr| / 2 - 1 ==> CellZero(arr, m)
    ensures FbSize(arr) == m
  {
  }

  /** A free-list node whose cells after the filled ones are all zero, as
      create_file, push_address and pop_address leave them. */
  ghost predicate NodeTidy(arr: Bytes)
    requires |arr| >= 2
  {
    forall k | FbSize(arr) <= k < |arr| / 2 - 1 :: CellZero(arr, k)
  }

  /** Writing a non-zero address into the first free cell of a tidy node that
      is not full appends it to the node's addresses. */
  lemma PushEntry(arr: Bytes, a: U16)
    requires |arr| >= 2 && NodeTidy(arr) && FbSize(arr) < |arr| / 2 - 1 && a != 0
    ensures var r := WithCell(arr, FbSize(arr), a);
      && FbSize(r) == FbSize(arr) + 1
      && NodeEntries(r) == NodeEntries(arr) + [a]
      && NodeTidy(r)
  {
    var n := FbSize(arr);
    var r := WithCell(arr, n, a);
    forall k | 0 <= k < |arr| / 2 - 1
      ensures CellZero(r, k) <==> (k > n)
    {
      CellZeroIsZeroValue(r, k);
      CellZeroIsZeroValue(arr, k);
    }
    FbSizeIs(r, n + 1);
    assert NodeEntries(r) == NodeEntries(arr) + [a];
  }

  /** Zeroing the last filled cell of a node removes its last address. */
  lemma PopEntry(arr: Bytes)
    requires |arr| >= 2 && FbSize(arr) > 0
    ensures var r := WithCell(arr, FbSize(arr) - 1, 0);
      && FbSize(r) == FbSize(arr) - 1
      && NodeEntries(r) == NodeEntries(arr)[..FbSize(arr) - 1]
      && (NodeTidy(arr) ==> NodeTidy(r))
  {
    var n := FbSize(arr);
    var r := WithCell(arr, n - 1, 0);
    forall k | 0 <= k < |arr| / 2 - 1
      ensures CellZero(r, k) <==> (k == n - 1 || CellZero(arr, k))
    {
      CellZeroIsZeroValue(r, k);
      CellZeroIsZeroValue(arr, k);
    }
    FbSizeIs(r, n - 1);
    assert NodeEntries(r) == NodeEntries(arr)[..n - 1];
  }

  // ------------------------------------------------ directory-entry view

  /** The prefix of s before its first NUL, as strlen sees it. */
  function CStr(s: Bytes): (r: Bytes)
    ensures |r| <= |s| && r == s[..|r|]
    ensures 0 !in r
    ensures |r| < |s| ==> s[|r|] == 0
  {
    if s == [] || s[0] == 0 then [] else [s[0]] + CStr(s[1..])
  }

  lemma {:induction false} CStrOfTerminated(name: Bytes, rest: Bytes)
    requires 0 !in name
    requires rest == [] || rest[0] == 0
    ensures CStr(name + rest) == name
  {
    if name != [] {
      assert (name + rest)[1..] == name[1..] + rest;
      CStrOfTerminated(name[1..], rest);
    } else {
      assert name + rest == rest;
    }
  }

  /** data_block::get_dir_entry_count: logic_error unless the used size is a
      whole number of entries. */
  function DirEntryCount(size: nat): (r: Result<nat>)
    ensures r.Ok? <==> size % DirEntrySize == 0
    ensures r.Ok? ==> r.value * DirEntrySize == size
    ensures r.Err? ==> r.error == LogicError
  {
    if size % 8 != 0 then Err(LogicError) else Ok(size / 8)
  }

  /** data_block::get_entry_inode_no: range_error past the used size, and the
      entry's first two bytes read unsigned big-endian. */
  function EntryInodeNo(arr: Bytes, size: nat, index: nat): (r: Result<U16>)
    requires size <= |arr|
    ensures r.Ok? <==> 8 * index + 8 <= size
    ensures r.Err? ==> r.error == RangeError
    ensures r.Ok? ==> r.value == WordValue(arr, 8 * index)
  {
    if index * 8 + 8 > size then Err(RangeError) else Ok((arr[8 * index] as int) * 0x100 + arr[8 * index + 1])
  }

  /** CStr stops inside a when a holds a NUL or when b starts with one. */
  lemma {:induction false} CStrOfPrefix(a: Bytes, b: Bytes)
    ensures (0 in a || b == [] || b[0] == 0) ==> CStr(a + b) == CStr(a)
  {
    if !(0 in a || b == [] || b[0] == 0) {
    } else if a == [] {
      assert a + b == b;
    } else if a[0] != 0 {
      assert (a + b)[1..] == a[1..] + b;
      CStrOfPrefix(a[1..], b);
    }
  }

  /** get_entry_name_from_arr as written: it copies dir_entry_size (8) bytes
      from the name's first byte, so the two bytes after a 6-byte name (the
      next entry's inode number) are part of what strlen scans, and reading
      the last entry of an array sized to the used bytes goes 2 bytes past
      its end, which is undefined behaviour. It agrees with the 6-byte reader
      whenever the name field holds a NUL or the next byte is NUL. */
  function EntryNameAsWritten(arr: Bytes, index: nat): (r: Result<Bytes>)
    ensures r.Ok? <==> 8 * index + 10 <= |arr|
    ensures r.Err? ==> r.error == Undefined
    ensures r.Ok? ==> |r.value| <= DirEntrySize && 0 !in r.value
    ensures r.Ok? && (0 in arr[8 * index + 2 .. 8 * index + 8] || arr[8 * index + 8] == 0)
      ==> r.value == EntryName(arr, index)
  {
    var start := 8 * index + 2;
    if start + 8 > |arr| then Err(Undefined)
    else
      var name, next := arr[start .. start + 6], arr[start + 6 .. start + 8];
      assert arr[start .. start + 8] == name + next;
      CStrOfPrefix(name, next);
      Ok(CStr(arr[start .. start + 8]))
  }

  /** The name of entry index: its 6 name bytes up to the first NUL. */
  function EntryName(arr: Bytes, index: nat): (r: Bytes)
    requires 8 * index + 8 <= |arr|
    ensures |r| <= DirNameSize && 0 !in r
  {
    CStr(arr[8 * index + 2 .. 8 * index + 8])
  }

  /** create_dir_entry: invalid_argument for a name longer than 6 bytes or
      containing '/' or ' '; otherwise the inode number big-endian, the name
      and NUL padding, 8 bytes in all. */
  function CreateDirEntry(index: U16, name: Bytes): (r: Result<Bytes>)
    ensures r.Ok? <==> |name| <= DirNameSize && Slash !in name && Space !in name
    ensures r.Err? ==> r.error == InvalidArgument
    ensures r.Ok? ==> |r.value| == DirEntrySize && WordValue(r.value, 0) == index
    ensures r.Ok? ==> r.value[2 .. 2 + |name|] == name
    ensures r.Ok? ==> forall j | 2 + |name| <= j < DirEntrySize :: r.value[j] == 0
  {
    if |name| > 6 then Err(InvalidArgument)
    else if Slash in name || Space in name then Err(InvalidArgument)
    else Ok([index / 0x100, index % 0x100] + name + Zeros(6 - |name|))
  }

  /** An entry made by create_dir_entry reads back its inode number and its
      name (a name without NUL bytes, as every C string is). */
  lemma {:induction false} DirEntryRoundTrip(index: U16, name: Bytes, rest: Bytes)
    requires CreateDirEntry(index, name).Ok?
    requires 0 !in name
    ensures var e := CreateDirEntry(index, name).value + rest;
      EntryInodeNo(e, 8, 0) == Ok(index) && EntryName(e, 0) == name
  {
    var e := CreateDirEntry(index, name).value + rest;
    assert e[2..8] == name + Zeros(6 - |name|);
    CStrOfTerminated(name, Zeros(6 - |name|));
  }

  /** With the as-written name decoder the round trip holds for names of at
      most 5 bytes, and for 6-byte names only when the byte after the entry is
      NUL; it needs two bytes after the entry to be defined at all. */
  lemma {:induction false} DirEntryRoundTripAsWritten(index: U16, name: Bytes, rest: Bytes)
    requires CreateDirEntry(index, name).Ok?
    requires 0 !in name
    requires |rest| >= 2
    requires |name| < DirNameSize || rest[0] == 0
    ensures EntryNameAsWritten(CreateDirEntry(index, name).value + rest, 0) == Ok(name)
  {
    var e := CreateDirEntry(index, name).value + rest;
    assert e[2..8] == name + Zeros(6 - |name|);
    if |name| < DirNameSize {
      assert e[2 + |name|] == 0;
    }
    DirEntryRoundTrip(index, name, rest);
  }

  /** Counterexample: a 6-byte name followed by the entry of inode 256 reads
      back with the extra byte 0x01. */
  lemma SixByteNameSpillsAsWritten()
    ensures var e := CreateDirEntry(1, [97, 98, 99, 100, 101, 102]).value
                   + CreateDirEntry(256, [120]).value;
      EntryNameAsWritten(e, 0) == Ok([97, 98, 99, 100, 101, 102, 1])
      && EntryName(e, 0) == [97, 98, 99, 100, 101, 102]
  {
    var e := CreateDirEntry(1, [97, 98, 99, 100, 101, 102]).value
           + CreateDirEntry(256, [120]).value;
    assert e[2..10] == [97, 98, 99, 100, 101, 102, 1, 0];
    assert e[2..8] == [97, 98, 99, 100, 101, 102];
    CStrOfTerminated([97, 98, 99, 100, 101, 102, 1], [0]);
    CStrOfTerminated([97, 98, 99, 100, 101, 102], []);
    assert [97, 98, 99, 100, 101, 102, 1] + [0] == e[2..10];
    assert [97, 98, 99, 100, 101, 102] + [] == e[2..8];
  }
}
