/** class data_block: a block's bytes with the used size and the block
    number it was loaded from. The methods change the array in place; each
    is specified by the pure view in BlockCodec. */
module DataBlock {
  import opened Types
  import opened BlockCodec

  class Block {
    var arr: array<Byte>
    var size: nat
    var bno: nat

    /** data_block(const char*, size, cap, bno): a copy of cap bytes. */
    constructor Load(data: Bytes, size: nat, bno: nat)
      ensures fresh(arr)
      ensures arr[..] == data && this.size == size && this.bno == bno
    {
      var a := new Byte[|data|];
      for i := 0 to |data|
        invariant a[..i] == data[..i]
      {
        a[i] := data[i];
      }
      arr := a;
      this.size := size;
      this.bno := bno;
    }

    /** data_block(size_t): blk_size zero bytes, size 0, block number 0. */
    constructor Zeroed(blkSize: nat)
      ensures fresh(arr)
      ensures arr[..] == Zeros(blkSize) && size == 0 && bno == 0
    {
      var a := new Byte[blkSize];
      for i := 0 to blkSize
        invariant a[..i] == Zeros(blkSize)[..i]
      {
        a[i] := 0;
      }
      arr := a;
      size := 0;
      bno := 0;
    }

    /** push_address: the size grows by two first; ok is false where the
        source throws invalid_argument because the block is full. */
    method PushAddress(address: nat) returns (ok: bool)
      modifies this, arr
      ensures arr == old(arr) && bno == old(bno)
      ensures var p := Push(old(arr[..]), old(size), address);
        arr[..] == p.arr && size == p.size && ok == p.ok
    {
      size := size + 2;
      if size > arr.Length {
        return false;
      }
      arr[size - 1] := address % 0x100;
      arr[size - 2] := (address / 0x100) % 0x100;
      return true;
    }

    /** pop_address */
    method PopAddress() returns (r: Result<nat>)
      modifies this, arr
      ensures arr == old(arr) && bno == old(bno)
      ensures var p := Pop(old(arr[..]), old(size));
        if p.Ok? then r == Ok(p.value.value) && arr[..] == p.value.arr && size == p.value.size
        else r == Err(p.error) && arr[..] == old(arr[..]) && size == old(size)
    {
      if size < 2 {
        return Err(InvalidArgument);
      }
      if size > arr.Length {
        return Err(Undefined);
      }
      size := size - 2;
      var res := arr[size + 1] + HighAsWritten(arr[size]);
      arr[size] := 0;
      arr[size + 1] := 0;
      return Ok(res);
    }

    /** set_address with the range check the two written bytes need:
        range_error unless cell index lies inside the block. */
    method SetAddress(index: nat, address: U16) returns (r: Result<()>)
      modifies arr
      ensures r.Ok? <==> 2 * index + 2 <= arr.Length
      ensures r.Ok? ==> arr[..] == WithCell(old(arr[..]), index, address)
      ensures r.Err? ==> r.error == RangeError && arr[..] == old(arr[..])
    {
      if 2 * index + 2 > arr.Length {
        return Err(RangeError);
      }
      arr[2 * index + 1] := address % 0x100;
      arr[2 * index] := address / 0x100;
      return Ok(());
    }

    /** clear_block */
    method ClearBlock()
      modifies this, arr
      ensures arr == old(arr) && bno == old(bno)
      ensures arr[..] == Zeros(arr.Length) && size == 0
    {
      var a := arr;
      for i := 0 to a.Length
        modifies a
        invariant a[..i] == Zeros(a.Length)[..i]
      {
        a[i] := 0;
      }
      size := 0;
    }

    method GetAddress(index: nat) returns (r: Result<nat>)
      ensures r == BlockCodec.GetAddress(arr[..], index)
    {
      if index * 2 + 2 > arr.Length {
        return Err(RangeError);
      }
      return Ok(arr[index * 2 + 1] + HighAsWritten(arr[index * 2]));
    }

    /** get_fb_size: the scan stops at the first cell whose two bytes are 0. */
    method GetFbSize() returns (r: nat)
      requires arr.Length >= 2
      ensures r == FbSize(arr[..])
    {
      var i := 0;
      while i < arr.Length / 2 - 1
        invariant 0 <= i <= arr.Length / 2 - 1
        invariant FirstZeroFrom(arr[..], i, arr.Length / 2 - 1) == FbSize(arr[..])
      {
        if arr[2 * i] == 0 && arr[2 * i + 1] == 0 {
          break;
        }
        i := i + 1;
      }
      return i;
    }

    method GetEntryInodeNo(index: nat) returns (r: Result<U16>)
      requires size <= arr.Length
      ensures r == EntryInodeNo(arr[..], size, index)
    {
      if index * 8 + 8 > size {
        return Err(RangeError);
      }
      return Ok((arr[index * 8] as int) * 0x100 + arr[index * 8 + 1]);
    }

    /** get_entry_name: invalid_argument past the used size, otherwise the
        name as get_entry_name_from_arr reads it from the whole array. */
    method GetEntryName(index: nat) returns (r: Result<Bytes>)
      requires size <= arr.Length
      ensures 8 * index + 8 > size ==> r == Err(InvalidArgument)
      ensures 8 * index + 8 <= size ==> r == EntryNameAsWritten(arr[..], index)
    {
      if index * 8 + 8 > size {
        return Err(InvalidArgument);
      }
      return EntryNameAsWritten(arr[..], index);
    }

    method GetDirEntryCount() returns (r: Result<nat>)
      ensures r == DirEntryCount(size)
    {
      if size % 8 != 0 {
        return Err(LogicError);
      }
      return Ok(size / 8);
    }
  }

  /** set_address as written: the guard compares the cell index, not the
      offset of its second byte, with the capacity, so indices from cap/2 to
      cap-1 pass it and write outside the array. */
  function SetAddressAsWritten(arr: Bytes, index: nat, address: U16): (r: Result<Bytes>)
    ensures r == Err(RangeError) <==> index + 1 > |arr|
    ensures r.Ok? ==> 2 * index + 2 <= |arr| && r.value == WithCell(arr, index, address)
  {
    if index + 1 > |arr| then Err(RangeError)
    else if 2 * index + 2 > |arr| then Err(Undefined)
    else Ok(WithCell(arr, index, address))
  }

  /** Counterexample: on any block of at least two bytes, cell cap/2 passes the
      as-written guard and its write runs past the array, while the corrected
      guard rejects it. */
  lemma SetAddressGuardAdmitsOverrun(arr: Bytes)
    requires |arr| >= 2
    ensures SetAddressAsWritten(arr, |arr| / 2, 1) == Err(Undefined)
    ensures 2 * (|arr| / 2) + 2 > |arr|
  {
  }
}
