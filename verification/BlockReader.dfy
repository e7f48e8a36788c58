/** The block and byte readers (StreamBlockReader.h, StreamBlockReader.cpp) and the plain file stream over them
    (NormalFile of Rsync.cpp). However the disk cuts its reads, they refine a cursor over the file.

    The disk is the file's contents and a choice, made afresh at each read, of how many bytes to deliver.
    The overlapped read and its buffer are merged into the moment it is waited for. */
module BlockReader {
  import opened ByteStrings
  import opened RingBuffer

  const DISK_BLOCK_SIZE := 8192

  /** Moving n bytes from the front of the pending bytes to the end of the block moves nothing else. */
  lemma MovedBytes(filled: Bytes, pending: Bytes, n: nat, later: Bytes)
    requires n <= |pending|
    ensures (filled + pending[..n]) + (pending[n..] + later) == filled + (pending + later)
  {
  }

  /** What was delivered and what is left make up the whole, so the delivered part is its prefix. */
  lemma Delivered(got: Bytes, rest: Bytes, all: Bytes, n: nat)
    requires got + rest == all && |got| <= n && (|got| < n ==> rest == [])
    ensures got == Take(all, n) && rest == all[Min(n, |all|)..] && rest == all[|got|..]
    ensures got == [] && n > 0 ==> all == []
  {
    assert all[..|got|] == got && all[|got|..] == rest;
  }

  lemma TakeAndDrop(s: Bytes, n: nat)
    ensures Take(s, n) + s[Min(n, |s|)..] == s
  {
  }

  /** StreamBlockReader and BlockByBlockReader. A null current_buffer is an empty one here: the source treats
      the two alike. */
  class BlockByBlockReader {
    /** What the reader has still to deliver: the file from the cursor on. */
    ghost var Rest: Bytes
    ghost var Repr: set<object>

    const file: Bytes
    const blockSize: nat
    var offset: nat
    var eof: bool
    var currentBuffer: CircularBuffer

    ghost predicate Valid()
      reads this, Repr
      ensures Valid() ==> this in Repr
    {
      && this in Repr && currentBuffer in Repr && currentBuffer.data in Repr
      && Repr == {this, currentBuffer, currentBuffer.data}
      && blockSize > 0
      && currentBuffer.Valid() && currentBuffer.SinglePiece()
      && Rest == currentBuffer.Contents + From(file, offset)
      && (eof ==> Rest == [])
    }

    constructor (file: Bytes, blockSize: nat)
      ensures Valid() && fresh(Repr)
      ensures this.file == file && Rest == file && !eof
      ensures this.blockSize == if blockSize == 0 then DISK_BLOCK_SIZE else blockSize
    {
      this.file := file;
      this.blockSize := if blockSize == 0 then DISK_BLOCK_SIZE else blockSize;
      offset, eof := 0, false;
      currentBuffer := new CircularBuffer(0);
      Rest := file;
      new;
      Repr := {this, currentBuffer, currentBuffer.data};
    }

    /** Drops what was read ahead and moves the cursor. */
    method Seek(target: nat)
      requires Valid()
      modifies Repr
      ensures Valid() && fresh(Repr - old(Repr))
      ensures Rest == From(file, target)
    {
      currentBuffer := new CircularBuffer(0);
      eof := false;
      offset := target;
      Rest := From(file, target);
      Repr := {this, currentBuffer, currentBuffer.data};
    }

    /** Waits for the read at `offset`: some bytes, at most one disk block, or the end of the file. */
    method FinishRead() returns (block: CircularBuffer)
      modifies this`offset, this`eof
      ensures fresh(block) && fresh(block.data) && block.Valid() && block.SinglePiece()
      ensures block.Contents + From(file, offset) == From(file, old(offset))
      ensures block.size == 0 ==> offset == old(offset) && From(file, offset) == [] && eof
      ensures block.size > 0 ==> offset > old(offset) && eof == old(eof)
    {
      if offset >= |file| {
        eof := true;
        block := new CircularBuffer(0);
        return;
      }
      var bytesRead: nat :| 1 <= bytesRead <= DISK_BLOCK_SIZE && offset + bytesRead <= |file|;
      block := new CircularBuffer(DISK_BLOCK_SIZE);
      FillFromDisk(block, bytesRead);
      offset := offset + bytesRead;
    }

    /** The bytes the disk delivers arrive in the buffer, which is then trimmed to them. */
    method FillFromDisk(block: CircularBuffer, bytesRead: nat)
      requires block.Valid() && block.start == 0 && block.size == block.data.Length
      requires bytesRead <= block.size && offset + bytesRead <= |file|
      modifies block, block.data
      ensures block.Valid() && block.SinglePiece() && block.data == old(block.data)
      ensures block.Contents == file[offset..offset + bytesRead]
    {
      block.MemCpy(0, file[offset..], bytesRead);
      block.Contents := block.data[..];
      block.Trim(bytesRead);
    }

    /** pop_buffer from the block read ahead into a block being filled. */
    method MovePending(dst: CircularBuffer)
      requires Valid() && dst !in Repr && dst.data !in Repr
      requires currentBuffer.size > 0
      requires dst.Valid() && dst.start == 0 && dst.size < dst.data.Length
      modifies this`Rest, currentBuffer`size, currentBuffer`start, currentBuffer`Contents
      modifies dst`size, dst`Contents, dst.data
      ensures Valid() && dst.Valid()
      ensures old(dst.size) < dst.size
      ensures dst.Contents + Rest == old(dst.Contents + Rest)
    {
      hide From;
      hide Mod;
      hide Queue;
      ghost var pending, filled := currentBuffer.Contents, dst.Contents;
      dst.RoomFromStart();
      currentBuffer.PopBuffer(dst);
      Rest := currentBuffer.Contents + From(file, offset);
      MovedBytes(filled, pending, Min(|pending|, dst.data.Length - |filled|), From(file, offset));
    }

    /** Fills dst with the next block; at the end of the file a shorter one. Once the end has been seen, dst
        is left as it was. */
    method NextBlock(dst: CircularBuffer) returns (any: bool)
      requires Valid() && dst !in Repr && dst.data !in Repr
      modifies Repr, dst, dst.data
      ensures Valid() && fresh(Repr - old(Repr))
      ensures dst.data == old(dst.data) || fresh(dst.data)
      ensures dst !in Repr && dst.data !in Repr
      ensures any <==> old(Rest) != []
      ensures old(eof) ==>
        && dst.data == old(dst.data) && dst.data[..] == old(dst.data[..])
        && dst.size == old(dst.size) && dst.start == old(dst.start) && dst.Contents == old(dst.Contents)
      ensures !old(eof) ==>
        && dst.Valid() && dst.start == 0 && dst.data.Length == blockSize
        && dst.Contents == Take(old(Rest), blockSize)
      ensures Rest == old(Rest)[Min(blockSize, |old(Rest)|)..]
    {
      if eof {
        return false;
      }
      ghost var all := Rest;
      dst.Realloc(blockSize);
      dst.ResetSize();
      FillBlock(dst);
      Delivered(dst.Contents, Rest, all, blockSize);
      any := dst.size != 0;
    }

    /** The loop of next_block, on a block that has just been emptied. */
    method FillBlock(dst: CircularBuffer)
      requires Valid() && dst !in Repr && dst.data !in Repr
      requires dst.Valid() && dst.start == 0 && dst.size == 0 && dst.data.Length == blockSize
      modifies Repr, dst`size, dst`Contents, dst.data
      ensures Valid() && fresh(Repr - old(Repr))
      ensures dst.Valid() && dst !in Repr && dst.data !in Repr
      ensures dst.Contents + Rest == old(Rest)
      ensures dst.size < blockSize ==> Rest == []
    {
      ghost var all := Rest;
      var read := false;
      while dst.size < blockSize
        invariant Valid() && fresh(Repr - old(Repr))
        invariant dst.Valid() && dst !in Repr && dst.data !in Repr
        invariant dst.Contents + Rest == all
        invariant read && currentBuffer.size == 0 ==> Rest == []
        decreases blockSize - dst.size, |From(file, offset)|, !read
      {
        if currentBuffer.size > 0 {
          MovePending(dst);
          read := false;
        } else if !read {
          currentBuffer := FinishRead();
          Repr := {this, currentBuffer, currentBuffer.data};
          read := true;
        } else {
          eof := true;
          break;
        }
      }
    }
  }

  /** The next block of a reader goes into a buffer; buffer and reader together still hold what was left. */
  method FillAhead(reader: BlockByBlockReader, dst: CircularBuffer)
    requires reader.Valid() && !reader.eof && dst !in reader.Repr && dst.data !in reader.Repr
    modifies reader.Repr, dst, dst.data
    ensures reader.Valid() && fresh(reader.Repr - old(reader.Repr))
    ensures dst.data == old(dst.data) || fresh(dst.data)
    ensures dst !in reader.Repr && dst.data !in reader.Repr
    ensures dst.Valid() && dst.SinglePiece() && dst.size <= reader.blockSize
    ensures dst.Contents + reader.Rest == old(reader.Rest)
    ensures dst.size == 0 ==> reader.Rest == []
  {
    assert reader.blockSize > 0;
    TakeAndDrop(reader.Rest, reader.blockSize);
    hide BlockByBlockReader.Valid;
    var _ := reader.NextBlock(dst);
  }

  /** ByteByByteReader: whole blocks and single bytes from one cursor. */
  class ByteByByteReader {
    /** The file from the cursor on. */
    ghost var Rest: Bytes
    ghost var Repr: set<object>

    const reader: BlockByBlockReader
    var currentBuffer2: CircularBuffer

    ghost predicate Valid()
      reads this, Repr
      ensures Valid() ==> this in Repr && currentBuffer2 in Repr
    {
      && this in Repr && reader in Repr && reader.Repr <= Repr && this !in reader.Repr
      && currentBuffer2 in Repr && currentBuffer2.data in Repr
      && currentBuffer2 !in reader.Repr && currentBuffer2.data !in reader.Repr
      && Repr == {this, currentBuffer2, currentBuffer2.data} + reader.Repr
      && reader.Valid()
      && currentBuffer2.Valid() && currentBuffer2.SinglePiece()
      && currentBuffer2.size <= reader.blockSize
      && Rest == currentBuffer2.Contents + reader.Rest
    }

    /** The look-ahead block is empty only at the end of the file. Seek breaks this and WholeBlock restores it. */
    ghost predicate Primed()
      reads this, currentBuffer2
    {
      currentBuffer2.size == 0 ==> Rest == []
    }

    constructor (file: Bytes, blockSize: nat)
      ensures Valid() && fresh(Repr) && Primed()
      ensures reader.file == file && Rest == file
      ensures reader.blockSize == if blockSize == 0 then DISK_BLOCK_SIZE else blockSize
    {
      reader := new BlockByBlockReader(file, blockSize);
      currentBuffer2 := new CircularBuffer(1);
      Rest := file;
      new;
      hide BlockByBlockReader.Valid, ByteByByteReader.Valid, ByteByByteReader.Primed, CircularBuffer.Valid, From;
      ghost var mine := {this, currentBuffer2, currentBuffer2.data} + reader.Repr;
      assert fresh(mine);
      Start();
      assert fresh(Repr - mine);
    }

    /** Fills the look-ahead block of a reader that has not read yet. */
    method Start()
      requires reader.Valid() && !reader.eof && this !in reader.Repr
      requires currentBuffer2 !in reader.Repr && currentBuffer2.data !in reader.Repr && Rest == reader.Rest
      modifies this`Repr, reader.Repr, currentBuffer2, currentBuffer2.data
      ensures Valid() && Primed()
      ensures fresh(Repr - old({this, currentBuffer2, currentBuffer2.data} + reader.Repr))
    {
      hide BlockByBlockReader.Valid, CircularBuffer.Valid, From;
      FillAhead(reader, currentBuffer2);
      Repr := {this, currentBuffer2, currentBuffer2.data} + reader.Repr;
    }

    method Seek(target: nat)
      requires Valid()
      modifies Repr
      ensures Valid() && fresh(Repr - old(Repr))
      ensures Rest == From(reader.file, target)
      ensures currentBuffer2.size == 0
    {
      reader.Seek(target);
      currentBuffer2 := new CircularBuffer(1);
      currentBuffer2.ResetSize();
      Rest := From(reader.file, target);
      Repr := {this, currentBuffer2, currentBuffer2.data} + reader.Repr;
    }

    /** Refills the empty look-ahead block; the cursor does not move. */
    method ReadMore2() returns (any: bool)
      requires Valid() && currentBuffer2.size == 0
      modifies Repr
      ensures Valid() && fresh(Repr - old(Repr))
      ensures Rest == old(Rest) && Primed()
      ensures any <==> currentBuffer2.size > 0
      ensures currentBuffer2.Contents == Take(Rest, reader.blockSize)
    {
      TakeAndDrop(reader.Rest, reader.blockSize);
      var _ := reader.NextBlock(currentBuffer2);
      any := currentBuffer2.size != 0;
      Repr := {this, currentBuffer2, currentBuffer2.data} + reader.Repr;
    }

    /** The next byte. Right after Seek the look-ahead block is empty and the answer is false. */
    method NextByte() returns (any: bool, b: byte)
      requires Valid()
      modifies Repr
      ensures Valid() && fresh(Repr - old(Repr))
      ensures any == (old(currentBuffer2.size) > 0)
      ensures any ==> [b] + Rest == old(Rest) && Primed()
      ensures !any ==> Rest == old(Rest) && currentBuffer2.size == 0
    {
      if currentBuffer2.size == 0 {
        return false, 0;
      }
      b := currentBuffer2.Pop();
      Associative([b], currentBuffer2.Contents, reader.Rest);
      Rest := currentBuffer2.Contents + reader.Rest;
      if currentBuffer2.size == 0 {
        var _ := ReadMore2();
      }
      any := true;
    }

    /** pop_buffer from the look-ahead block into a block being filled. */
    method MoveAhead(dst: CircularBuffer)
      requires Valid() && dst !in Repr && dst.data !in Repr
      requires dst.Valid() && dst.start == 0 && dst.size < dst.data.Length
      modifies this`Rest, currentBuffer2`size, currentBuffer2`start, currentBuffer2`Contents
      modifies dst`size, dst`Contents, dst.data
      ensures Valid() && dst.Valid()
      ensures dst.size == Min(old(dst.size + currentBuffer2.size), dst.data.Length)
      ensures dst.size < dst.data.Length ==> currentBuffer2.size == 0
      ensures dst.Contents + Rest == old(dst.Contents + Rest)
    {
      hide From;
      hide Mod;
      hide Queue;
      ghost var ahead, filled := currentBuffer2.Contents, dst.Contents;
      dst.RoomFromStart();
      currentBuffer2.PopBuffer(dst);
      Rest := currentBuffer2.Contents + reader.Rest;
      MovedBytes(filled, ahead, Min(|ahead|, dst.data.Length - |filled|), reader.Rest);
    }

    /** The next block: as many bytes as a block has, or all that are left. */
    method WholeBlock(dst: CircularBuffer) returns (any: bool)
      requires Valid() && dst !in Repr && dst.data !in Repr
      modifies Repr, dst, dst.data
      ensures Valid() && fresh(Repr - old(Repr)) && Primed()
      ensures dst.data == old(dst.data) || fresh(dst.data)
      ensures dst !in Repr && dst.data !in Repr
      ensures any <==> old(Rest) != []
      ensures any ==>
        && dst.Valid() && dst.start == 0 && dst.data.Length == reader.blockSize
        && dst.Contents == Take(old(Rest), reader.blockSize)
        && Rest == old(Rest)[|dst.Contents|..]
      ensures !any ==> Rest == []
    {
      hide From;
      hide Take;
      ghost var all := Rest;
      if currentBuffer2.size == 0 {
        var _ := ReadMore2();
      }
      if currentBuffer2.size == 0 {
        return false;
      }
      dst.Realloc(reader.blockSize);
      dst.ResetSize();
      FillWhole(dst);
      Delivered(dst.Contents, Rest, all, reader.blockSize);
      any := true;
    }

    /** The two pop_buffer calls of whole_block: a block spans at most two look-ahead blocks. */
    method FillWhole(dst: CircularBuffer)
      requires Valid() && dst !in Repr && dst.data !in Repr
      requires dst.Valid() && dst.start == 0 && dst.size == 0 && dst.data.Length == reader.blockSize
      requires currentBuffer2.size > 0
      modifies Repr, dst`size, dst`Contents, dst.data
      ensures Valid() && fresh(Repr - old(Repr)) && Primed()
      ensures dst.Valid() && dst !in Repr && dst.data !in Repr
      ensures dst.Contents + Rest == old(Rest)
      ensures 0 < dst.size
      ensures dst.size < reader.blockSize ==> Rest == []
    {
      hide From;
      hide Take;
      hide Queue;
      hide BlockByBlockReader.Valid;
      MoveAhead(dst);
      if dst.size != dst.data.Length {
        var more := ReadMore2();
        if !more {
          return;
        }
        MoveAhead(dst);
      }
      if currentBuffer2.size == 0 {
        var _ := ReadMore2();
      }
    }
  }

  /** The unread bytes of a simple_buffer are its last. */
  function Carried(temp: Bytes, tempSize: nat): (r: Bytes)
    requires tempSize <= |temp|
    ensures |r| == tempSize
  {
    temp[|temp| - tempSize..]
  }

  lemma CarriedWhole(temp: Bytes)
    ensures Carried(temp, |temp|) == temp && Carried(temp, 0) == []
  {
  }

  /** NormalFile: a byte stream with a carry-over buffer. */
  class NormalFile {
    /** The file from the cursor on. */
    ghost var Rest: Bytes
    ghost var Repr: set<object>

    const reader: BlockByBlockReader
    var temp: Bytes
    var tempSize: nat

    ghost predicate Valid()
      reads this, Repr
      ensures Valid() ==> this in Repr
    {
      && this in Repr && reader in Repr && this !in reader.Repr
      && Repr == {this} + reader.Repr
      && reader.Valid()
      && tempSize <= |temp|
      && Rest == Carried(temp, tempSize) + reader.Rest
    }

    constructor (file: Bytes)
      ensures Valid() && fresh(Repr) && reader.file == file && Rest == file
    {
      reader := new BlockByBlockReader(file, 0);
      temp, tempSize := [], 0;
      Rest := file;
      new;
      hide Carried;
      hide From;
      assert [] + file == file;
      Repr := {this} + reader.Repr;
    }

    method Seek(target: nat)
      requires Valid()
      modifies Repr
      ensures Valid() && fresh(Repr - old(Repr))
      ensures Rest == From(reader.file, target)
    {
      reader.Seek(target);
      tempSize := 0;
      Rest := From(reader.file, target);
      Repr := {this} + reader.Repr;
    }

    /** The next block of the reader becomes the carry-over buffer; the cursor does not move. */
    method Refill() returns (any: bool)
      requires Valid() && tempSize == 0
      modifies Repr
      ensures Valid() && fresh(Repr - old(Repr))
      ensures Rest == old(Rest)
      ensures if any then tempSize > 0 else tempSize == 0 && Rest == []
    {
      CarriedWhole(temp);
      assert Rest == reader.Rest;
      hide Carried, BlockByBlockReader.Valid;
      var bytes;
      any, bytes := NextBytes();
      if any {
        temp := bytes;
        tempSize := |bytes|;
        CarriedWhole(temp);
      }
      Repr := {this} + reader.Repr;
    }

    method NextBytes() returns (any: bool, bytes: Bytes)
      requires reader.Valid()
      modifies reader.Repr
      ensures reader.Valid() && fresh(reader.Repr - old(reader.Repr))
      ensures any ==> bytes != [] && bytes + reader.Rest == old(reader.Rest)
      ensures !any ==> reader.Rest == [] && old(reader.Rest) == []
    {
      assert (reader.eof ==> reader.Rest == []) && reader.blockSize > 0;
      hide Take, Flatten, BlockByBlockReader.Valid, CircularBuffer.Valid;
      var buffer := new CircularBuffer(1);
      TakeAndDrop(reader.Rest, reader.blockSize);
      any := reader.NextBlock(buffer);
      bytes := [];
      if any {
        var pieces := buffer.Pieces();
        bytes := Flatten(pieces);
      }
    }

    /** memcpy from the carry-over buffer. */
    method TakeCarried(size: nat) returns (carried: Bytes)
      requires Valid() && tempSize > 0 && size > 0
      modifies this`tempSize, this`Rest
      ensures Valid()
      ensures 0 < |carried| <= size
      ensures carried + Rest == old(Rest)
    {
      hide From;
      var consumed := Min(tempSize, size);
      var unread := Carried(temp, tempSize);
      MovedBytes([], unread, consumed, reader.Rest);
      carried := unread[..consumed];
      tempSize := tempSize - consumed;
      Rest := unread[consumed..] + reader.Rest;
    }

    /** Reads size bytes, fewer only at the end of the file, whatever is left in the carry-over buffer. */
    method Read(size0: nat) returns (dst: Bytes)
      requires Valid()
      modifies Repr
      ensures Valid() && fresh(Repr - old(Repr))
      ensures dst == Take(old(Rest), size0)
      ensures Rest == old(Rest)[|dst|..]
    {
      var size := size0;
      ghost var all := Rest;
      dst := [];
      while size > 0
        invariant Valid() && fresh(Repr - old(Repr))
        invariant 0 <= size <= size0 && |dst| == size0 - size
        invariant dst + Rest == all
        decreases size, if tempSize == 0 then 1 else 0
      {
        if tempSize > 0 {
          var carried := TakeCarried(size);
          Associative(dst, carried, Rest);
          dst := dst + carried;
          size := size - |carried|;
        } else {
          var any := Refill();
          if !any {
            break;
          }
        }
      }
      Delivered(dst, Rest, all, size0);
    }

    /** Any series of reads, one after the other. */
    method ReadSeries(sizes: seq<nat>) returns (slices: seq<Bytes>)
      requires Valid()
      modifies Repr
      ensures Valid() && fresh(Repr - old(Repr))
      ensures slices == Reads(old(Rest), sizes)
      decreases |sizes|
    {
      if sizes == [] {
        return [];
      }
      var first := Read(sizes[0]);
      var others := ReadSeries(sizes[1..]);
      slices := [first] + others;
    }
  }

  /** What a series of reads delivers from the bytes left. */
  function Reads(rest: Bytes, sizes: seq<nat>): seq<Bytes>
    decreases |sizes|
  {
    if sizes == [] then []
    else
      var first := Take(rest, sizes[0]);
      [first] + Reads(rest[|first|..], sizes[1..])
  }

  function Total(sizes: seq<nat>): nat {
    if sizes == [] then 0 else sizes[0] + Total(sizes[1..])
  }

  /** After seek(offset), a series of reads returns consecutive slices of the file, short only at its end. */
  lemma {:induction false} ReadsAreSlices(file: Bytes, offset: nat, sizes: seq<nat>, k: nat)
    requires k < |sizes|
    ensures |Reads(From(file, offset), sizes)| == |sizes|
    ensures Reads(From(file, offset), sizes)[k] == Slice(file, offset + Total(sizes[..k]), sizes[k])
    decreases |sizes|
  {
    hide Slice, From, Reads, Total;
    ReadsStep(file, offset, sizes);
    TotalStep(sizes, k);
    ReadsLength(From(file, offset + sizes[0]), sizes[1..]);
    if k > 0 {
      ReadsAreSlices(file, offset + sizes[0], sizes[1..], k - 1);
    }
  }

  lemma TotalStep(sizes: seq<nat>, k: nat)
    requires k < |sizes|
    ensures Total(sizes[..k]) == if k == 0 then 0 else sizes[0] + Total(sizes[1..][..k - 1])
  {
    if k > 0 {
      assert sizes[..k][1..] == sizes[1..][..k - 1];
    }
  }

  lemma ReadsStep(file: Bytes, offset: nat, sizes: seq<nat>)
    requires sizes != []
    ensures Reads(From(file, offset), sizes)
         == [Slice(file, offset, sizes[0])] + Reads(From(file, offset + sizes[0]), sizes[1..])
  {
    hide From, Take;
    FromAfterSlice(file, offset, sizes[0]);
  }

  lemma {:induction false} ReadsLength(rest: Bytes, sizes: seq<nat>)
    ensures |Reads(rest, sizes)| == |sizes|
    decreases |sizes|
  {
    if sizes != [] {
      ReadsLength(rest[|Take(rest, sizes[0])|..], sizes[1..]);
    }
  }
}
