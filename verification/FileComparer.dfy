/** The imperative comparer (FileComparer.cpp) and the digest of a file (the RsyncableFile constructors).

    The hashing thread runs beside the comparer: between any two of the comparer's steps on the shared queue it
    takes an arbitrary number of turns. The comparer computes the commands of Delta.dfy and leaves the table and
    digest of the new file, for every choice of the disk and of the scheduler. */
module Comparer {
  import opened ByteStrings
  import opened RollingChecksum
  import opened RingBuffer
  import opened BlockTable
  import opened BlockSearch
  import opened BlockReader
  import opened DeltaCommands
  import opened Matcher
  import opened Delta
  import opened Choices
  import opened HashingThread

  // ---------- digesting a file ----------

  /** One turn of the digest loop: the next block and its item. */
  method NextItem(stream: BlockByBlockReader, buffer: CircularBuffer, offset: nat, sha: Sha)
    returns (any: bool, block: Bytes, item: Item)
    requires stream.Valid() && buffer !in stream.Repr && buffer.data !in stream.Repr
    modifies stream.Repr, buffer, buffer.data
    ensures stream.Valid() && fresh(stream.Repr - old(stream.Repr))
    ensures buffer !in stream.Repr && buffer.data !in stream.Repr
    ensures buffer.data == old(buffer.data) || fresh(buffer.data)
    ensures any <==> old(stream.Rest) != []
    ensures any ==>
      && block == Take(old(stream.Rest), stream.blockSize)
      && stream.Rest == old(stream.Rest)[|block|..]
      && item == ItemOf(block, offset, sha)
    ensures !any ==> stream.Rest == []
  {
    any := stream.NextBlock(buffer);
    if any {
      var checksum := buffer.ComputeChecksum();
      var pieces := buffer.Pieces();
      block := Flatten(pieces);
      item := Item(checksum, sha(block), offset);
    } else {
      block, item := [], Item(0, 0, offset);
    }
  }

  /** Items and bytes collected so far, and those of the rest, make up the whole file. */
  ghost predicate Collected(items: seq<Item>, hashed: Bytes, rest: Bytes, file: Bytes, blockSize: nat, offset: nat,
                            sha: Sha)
    requires blockSize > 0
  {
    && items + BlockItems(rest, blockSize, offset, sha) == BlockItems(file, blockSize, 0, sha)
    && hashed + rest == file
  }

  lemma CollectedNone(file: Bytes, blockSize: nat, sha: Sha)
    requires blockSize > 0
    ensures Collected([], [], file, file, blockSize, 0, sha)
  {
  }

  lemma CollectOne(items: seq<Item>, hashed: Bytes, rest: Bytes, file: Bytes, blockSize: nat, offset: nat, sha: Sha,
                   block: Bytes, item: Item, later: Bytes)
    requires blockSize > 0 && rest != [] && block == Take(rest, blockSize) && later == rest[|block|..]
    requires item == ItemOf(block, offset, sha)
    requires Collected(items, hashed, rest, file, blockSize, offset, sha)
    ensures Collected(items + [item], hashed + block, later, file, blockSize, offset + |block|, sha)
  {
    Associative(items, [item], BlockItems(later, blockSize, offset + |block|, sha));
    Associative(hashed, block, later);
  }

  lemma CollectedAll(items: seq<Item>, hashed: Bytes, file: Bytes, blockSize: nat, offset: nat, sha: Sha)
    requires blockSize > 0 && Collected(items, hashed, [], file, blockSize, offset, sha)
    ensures items == BlockItems(file, blockSize, 0, sha) && hashed == file
  {
    assert items + [] == items && hashed + [] == hashed;
  }

  /** RsyncableFile(path): the table, bitmap, digest and block size of a file. */
  method DigestFile(file: Bytes, sha: Sha) returns (r: RsyncableFile)
    ensures r.Valid()
    ensures r.table == ScratchTable(file, r.blockSize, sha)
    ensures r.digest == sha(file)
    ensures r.blockSize == BlockSizeOf(|file|)
  {
    var blockSize := ScalerFunction(|file|);
    var items, digest := DigestBlocks(file, blockSize, sha);
    var table := Sort(items);
    var bitmap := InitBitmap(table);
    r := RsyncableFile(table, bitmap, blockSize, digest);
  }

  method DigestBlocks(file: Bytes, blockSize: nat, sha: Sha) returns (items: seq<Item>, digest: Digest)
    requires blockSize > 0
    ensures items == BlockItems(file, blockSize, 0, sha)
    ensures digest == sha(file)
  {
    hide Collected;
    hide BlockItems;
    hide ItemOf;
    hide Take;
    hide BlockByBlockReader.Valid;
    CollectedNone(file, blockSize, sha);
    var stream := new BlockByBlockReader(file, blockSize);
    var buffer := new CircularBuffer(1);
    items := [];
    var hashed: Bytes := [];
    var offset: nat := 0;
    while true
      invariant stream.Valid() && fresh(stream.Repr) && stream.blockSize == blockSize
      invariant fresh(buffer) && fresh(buffer.data) && buffer !in stream.Repr && buffer.data !in stream.Repr
      invariant Collected(items, hashed, stream.Rest, file, blockSize, offset, sha)
      decreases |stream.Rest|
    {
      ghost var rest := stream.Rest;
      var any, block, item := NextItem(stream, buffer, offset, sha);
      if !any {
        break;
      }
      CollectOne(items, hashed, rest, file, blockSize, offset, sha, block, item, stream.Rest);
      items := items + [item];
      hashed := hashed + block;
      offset := offset + |block|;
    }
    CollectedAll(items, hashed, file, blockSize, offset, sha);
    digest := sha(hashed);
  }

  /** Rolling the window one byte further: a byte enters, or at the end of the file none does. */
  lemma WindowSlides(file: Bytes, at: nat, blockSize: nat)
    requires at < |file| && blockSize > 0
    ensures var w := Slice(file, at, blockSize);
            && w != []
            && Slice(file, at + 1, blockSize)
               == w[1..] + (if at + |w| < |file| then [file[at + |w|]] else [])
            && (at + |w| < |file| ==> |w| == blockSize)
  {
    SliceIs(file, at, blockSize);
    SliceIs(file, at + 1, blockSize);
  }

  lemma HeadOfRest(file: Bytes, at: nat, b: byte, rest: Bytes)
    requires at < |file| && [b] + rest == From(file, at)
    ensures b == file[at] && rest == From(file, at + 1)
  {
    assert ([b] + rest)[0] == b && ([b] + rest)[1..] == rest;
  }

  datatype State = Initial | InMatching | InNonMatching | Final

  class FileComparer {
    ghost var Repr: set<object>
    /** The bytes handed to add_byte and add_block so far. */
    ghost var fed: Bytes
    /** Where the window stands in the new file. */
    ghost var pos: nat

    const newFile: Bytes
    const oldFile: RsyncableFile
    const sha: Sha
    /** Whether matching_increment returns the block size, as the native copy does, or the window size. */
    const native: bool
    const newBlockSize: nat
    const reader: ByteByByteReader
    const buffer: CircularBuffer
    var checksum: u32
    var newOffset: nat
    var oldOffset: nat
    var result: seq<RsyncCommand>
    var state: State
    var pipe: Pipeline

    ghost predicate Valid()
      reads this, Repr
      ensures Valid() ==> this in Repr && Spec().Valid()
      ensures Valid() ==> buffer in Repr && buffer.data in Repr && reader.Repr <= Repr && this !in reader.Repr
    {
      && this in Repr && reader in Repr && reader.Repr <= Repr && buffer in Repr && buffer.data in Repr
      && this !in reader.Repr && buffer !in reader.Repr && buffer.data !in reader.Repr
      && Repr == {this, buffer, buffer.data} + reader.Repr
      && reader.Valid() && reader.reader.file == newFile && reader.reader.blockSize == oldFile.blockSize
      && oldFile.Valid()
      && |newFile| < TWO_TO_63
      && fed + reader.Rest == newFile
      && pipe.blockSize == newBlockSize && pipe.phase == Running && Inv(pipe, fed, sha)
    }

    /** The window is the block at pos, the reader stands right behind it, and the checksum is the window's. */
    ghost predicate AtWindow()
      reads this, Repr
    {
      && Valid()
      && pos < |newFile|
      && newOffset == pos
      && HasWindow()
      && checksum == Checksum(buffer.Contents)
    }

    ghost predicate HasWindow()
      reads this, Repr
      ensures HasWindow() ==> Valid() && pos <= |newFile|
    {
      && Valid()
      && pos <= |newFile|
      && buffer.Valid() && buffer.data.Length == oldFile.blockSize && buffer.start < buffer.data.Length
      && buffer.Contents == Slice(newFile, pos, oldFile.blockSize)
      && reader.Rest == From(newFile, pos + |buffer.Contents|)
      && reader.Primed()
    }

    ghost function Spec(): Matching {
      MatchingOf(oldFile.table, oldFile.blockSize, sha, newFile, native)
    }

    /** The commands the run will end with, seen from the current state. */
    ghost function Outcome(): seq<RsyncCommand>
      reads this
      requires Spec().Valid()
      requires state.InMatching? || state.InNonMatching? ==> pos < |newFile|
    {
      match state
      case Initial => Spec().Compare()
      case InMatching => Spec().Match(pos, oldOffset, result)
      case InNonMatching => Spec().NonMatch(pos, result)
      case Final => result
    }

    constructor (newFile: Bytes, oldFile: RsyncableFile, sha: Sha, native: bool)
      requires oldFile.Valid() && |newFile| < TWO_TO_63
      ensures Valid() && fresh(Repr)
      ensures this.newFile == newFile && this.oldFile == oldFile && this.sha == sha && this.native == native
      ensures state == Initial && Ready()
      ensures newBlockSize == BlockSizeOf(|newFile|)
    {
      hide Inv;
      hide BlockByBlockReader.Valid;
      hide ByteByByteReader.Valid;
      hide CircularBuffer.Valid;
      hide RsyncableFile.Valid;
      var blockSize := ScalerFunction(|newFile|);
      this.newFile, this.oldFile, this.sha, this.native := newFile, oldFile, sha, native;
      newBlockSize := blockSize;
      reader := new ByteByByteReader(newFile, oldFile.blockSize);
      buffer := new CircularBuffer(1);
      checksum, newOffset, oldOffset, result, state := 0, 0, 0, [], Initial;
      pipe := Started(blockSize);
      fed, pos := [], 0;
      new;
      StartedInv(blockSize, sha);
      assert [] + newFile == newFile;
      Repr := {this, buffer, buffer.data} + reader.Repr;
    }

    // ---------- the hashing thread ----------

    /** The hashing thread takes any number of turns. */
    method LetThreadRun()
      requires Inv(pipe, fed, sha)
      modifies this`pipe
      ensures Inv(pipe, fed, sha)
      ensures pipe.blockSize == old(pipe.blockSize) && pipe.phase == old(pipe.phase)
      ensures pipe.newBuffer == old(pipe.newBuffer)
    {
      hide Inv;
      var turns: nat :| true;
      while turns > 0
        invariant Inv(pipe, fed, sha)
        invariant pipe.blockSize == old(pipe.blockSize) && pipe.phase == old(pipe.phase)
        invariant pipe.newBuffer == old(pipe.newBuffer)
      {
        if Enabled(pipe, ThreadStep) {
          ThreadKeepsInv(pipe, fed, sha);
          pipe := Next(pipe, ThreadStep, sha);
        }
        turns := turns - 1;
      }
    }

    /** add_block, and add_byte for a single byte. */
    method AddBlock(bytes: Bytes)
      requires Inv(pipe, fed, sha) && pipe.phase == Running
      modifies this`pipe, this`fed
      ensures Inv(pipe, fed, sha) && pipe.phase == Running && pipe.blockSize == old(pipe.blockSize)
      ensures fed == old(fed) + bytes
    {
      hide FullThenShort, AllFull, QueueShape, Items, Flatten;
      var rest := bytes;
      while rest != []
        invariant Inv(pipe, fed, sha) && pipe.phase == Running && pipe.blockSize == old(pipe.blockSize)
        invariant fed + rest == old(fed) + bytes
        decreases |rest|
      {
        LetThreadRun();
        var consumed := Min(pipe.blockSize - |pipe.newBuffer|, |rest|);
        var chunk := rest[..consumed];
        FeedKeepsInv(pipe, chunk, fed, sha);
        Associative(fed, chunk, rest[consumed..]);
        assert chunk + rest[consumed..] == rest;
        pipe := Next(pipe, Feed(chunk), sha);
        fed := fed + chunk;
        rest := rest[consumed..];
      }
      LetThreadRun();
    }

    /** request_thread_stop: the rest of new_buffer, then the terminator. */
    method RequestThreadStop()
      requires Inv(pipe, fed, sha) && pipe.phase == Running
      modifies this`pipe
      ensures Inv(pipe, fed, sha) && pipe.phase == Closed && pipe.blockSize == old(pipe.blockSize)
    {
      hide Inv;
      FlushKeepsInv(pipe, fed, sha);
      pipe := Next(pipe, Flush, sha);
      LetThreadRun();
      TerminateKeepsInv(pipe, fed, sha);
      pipe := Next(pipe, Terminate, sha);
    }

    /** The stop, then waiting for the thread to end. */
    method Finished()
      requires Valid() && fed == newFile
      modifies this`pipe
      ensures pipe.done
      ensures pipe.table == ByProductTable(newFile, newBlockSize, sha)
      ensures pipe.digest == Some(sha(newFile))
    {
      assert Inv(pipe, fed, sha) && pipe.phase == Running && pipe.blockSize == newBlockSize;
      hide FileComparer.Valid, Inv, Next, ByProductTable;
      RequestThreadStop();
      while !pipe.done
        invariant Inv(pipe, fed, sha) && pipe.phase == Closed && pipe.blockSize == newBlockSize
        decreases |pipe.queue|
      {
        WaitStep(pipe, fed, sha);
        pipe := Next(pipe, ThreadStep, sha);
      }
      DoneTable(pipe, fed, sha);
    }

    // ---------- reading and searching ----------

    /** Reading leaves the state and the commands alone. */
    twostate predicate CommandsUnchanged()
      reads this
    {
      state == old(state) && result == old(result) && newOffset == old(newOffset) && oldOffset == old(oldOffset)
    }

    /** read_another_block, and the checksum of the new window, at position `next`. */
    method ReadMoreData(ghost next: nat) returns (any: bool)
      requires Valid() && next <= |newFile| && reader.Rest == From(newFile, next)
      modifies Repr
      ensures Valid() && fresh(Repr - old(Repr)) && CommandsUnchanged()
      ensures any <==> next < |newFile|
      ensures any ==> HasWindow() && pos == next && checksum == Checksum(buffer.Contents)
      ensures !any ==> fed == newFile
    {
      hide FileComparer.Valid, HasWindow, BlockByBlockReader.Valid, ByteByByteReader.Valid, Inv, Queue, Checksum;
      any := NextWindow(next);
    }

    method NextWindow(ghost next: nat) returns (any: bool)
      requires Valid() && next <= |newFile| && reader.Rest == From(newFile, next)
      modifies this`Repr, this`fed, this`pipe, this`pos, this`checksum, reader.Repr, buffer, buffer.data
      ensures Valid() && fresh(Repr - old(Repr))
      ensures any <==> next < |newFile|
      ensures any ==> HasWindow() && pos == next && checksum == Checksum(buffer.Contents)
      ensures !any ==> fed == newFile
    {
      hide FileComparer.Valid, BlockByBlockReader.Valid, ByteByByteReader.Valid, ByteByByteReader.Primed;
      hide CircularBuffer.Valid, CircularBuffer.InRange, Inv, Queue, RsyncableFile.Valid, Checksum;
      any := ReadAnotherBlock();
      if any {
        FromAfterSlice(newFile, next, oldFile.blockSize);
        hide From, Slice;
        MoveWindow(next);
        RecomputeChecksum();
      }
    }

    method RecomputeChecksum()
      requires Valid() && buffer.Valid()
      modifies this`checksum
      ensures Valid() && buffer.Valid() && checksum == Checksum(buffer.Contents)
      ensures reader.Primed() == old(reader.Primed())
    {
      hide BlockByBlockReader.Valid;
      hide ByteByByteReader.Valid;
      hide CircularBuffer.Valid;
      hide RsyncableFile.Valid;
      hide Inv;
      hide Checksum;
      checksum := buffer.ComputeChecksum();
    }

    /** read_another_block. */
    method ReadAnotherBlock() returns (any: bool)
      requires Valid()
      modifies this`Repr, this`fed, this`pipe, reader.Repr, buffer, buffer.data
      ensures Valid() && fresh(Repr - old(Repr)) && reader.Primed()
      ensures any <==> old(reader.Rest) != []
      ensures any ==>
        && buffer.Valid() && buffer.start < buffer.data.Length == oldFile.blockSize
        && buffer.Contents == Take(old(reader.Rest), oldFile.blockSize)
        && reader.Rest == old(reader.Rest)[|buffer.Contents|..]
      ensures !any ==> fed == newFile
    {
      hide BlockByBlockReader.Valid;
      hide Inv;
      hide Queue;
      hide RsyncableFile.Valid;
      hide From;
      hide Take;
      ghost var rest := reader.Rest;
      any := reader.WholeBlock(buffer);
      Repr := {this, buffer, buffer.data} + reader.Repr;
      if any {
        TakeAndDrop(rest, oldFile.blockSize);
        Associative(fed, buffer.Contents, reader.Rest);
        AddWindow();
      } else {
        assert fed + [] == fed;
      }
    }

    /** add_block(circular_buffer &): process_whole hands over the stretches of the window. */
    method AddWindow()
      requires Inv(pipe, fed, sha) && pipe.phase == Running
      requires buffer.Valid()
      modifies this`pipe, this`fed
      ensures Inv(pipe, fed, sha) && pipe.phase == Running && pipe.blockSize == old(pipe.blockSize)
      ensures fed == old(fed) + buffer.Contents
    {
      hide Inv;
      hide Queue;
      hide Flatten;
      ghost var before := fed;
      var pieces := buffer.Pieces();
      TwoPieces(pieces, buffer.Contents);
      AddBlock(pieces[0]);
      if |pieces| == 2 {
        Associative(before, pieces[0], pieces[1]);
        AddBlock(pieces[1]);
      }
    }

    /** Rolls the window by one byte; near the end of the file it shrinks instead. */
    method NonMatchingReadMoreData() returns (any: bool)
      requires HasWindow() && pos < |newFile| && checksum == Checksum(buffer.Contents)
      modifies Repr
      ensures HasWindow() && fresh(Repr - old(Repr)) && CommandsUnchanged()
      ensures pos == old(pos) + 1 && checksum == Checksum(buffer.Contents)
      ensures any <==> pos < |newFile|
      ensures !any ==> fed == newFile
    {
      hide FileComparer.Valid, HasWindow, BlockByBlockReader.Valid, ByteByByteReader.Valid, Inv, Queue, Checksum;
      any := SlideWindow();
    }

    method SlideWindow() returns (any: bool)
      requires HasWindow() && pos < |newFile| && checksum == Checksum(buffer.Contents)
      modifies this`Repr, this`fed, this`pipe, this`pos, this`checksum, reader.Repr
      modifies buffer`size, buffer`start, buffer`Contents, buffer.data
      ensures HasWindow() && fresh(Repr - old(Repr))
      ensures pos == old(pos) + 1 && checksum == Checksum(buffer.Contents)
      ensures any <==> pos < |newFile|
      ensures !any ==> fed == newFile
    {
      hide BlockByBlockReader.Valid, Inv, Queue, RsyncableFile.Valid, Checksum, Subtract, Add, From, Slice;
      ghost var window := buffer.Contents;
      WindowSlides(newFile, pos, oldFile.blockSize);
      PopOldest();
      hide FileComparer.Valid;
      var more := RollIn(pos + |window|);
      MoveWindow(pos + 1);
      any := more || buffer.size > 0;
    }

    /** The byte at `at` enters the window, if the file has one there. */
    method RollIn(ghost at: nat) returns (more: bool)
      requires Valid() && reader.Primed() && at <= |newFile| && reader.Rest == From(newFile, at)
      requires buffer.Valid() && buffer.start < buffer.data.Length && buffer.size < buffer.data.Length
      requires checksum == Checksum(buffer.Contents)
      modifies this`Repr, this`fed, this`checksum, this`pipe, reader.Repr, buffer`size, buffer`Contents, buffer.data
      ensures Valid() && reader.Primed() && fresh(Repr - old(Repr))
      ensures buffer.Valid() && checksum == Checksum(buffer.Contents)
      ensures more <==> at < |newFile|
      ensures buffer.Contents == old(buffer.Contents) + if more then [newFile[at]] else []
      ensures reader.Rest == From(newFile, if more then at + 1 else at)
      ensures !more ==> fed == newFile
    {
      hide CircularBuffer.Valid;
      hide BlockByBlockReader.Valid;
      hide Inv;
      hide RsyncableFile.Valid;
      hide Checksum;
      hide From;
      var b;
      more, b := ReadAnotherByte();
      if more {
        HeadOfRest(newFile, at, b, reader.Rest);
        PushNewest(b);
      }
    }

    ghost method MoveWindow(next: nat)
      requires Valid()
      modifies this`pos
      ensures Valid() && pos == next
      ensures buffer.Valid() == old(buffer.Valid()) && reader.Primed() == old(reader.Primed())
    {
      hide BlockByBlockReader.Valid;
      hide ByteByByteReader.Valid;
      hide CircularBuffer.Valid;
      hide RsyncableFile.Valid;
      hide Inv;
      pos := next;
    }

    method PopOldest()
      requires Valid() && buffer.Valid() && buffer.size > 0 && checksum == Checksum(buffer.Contents)
      requires buffer.start < buffer.data.Length
      modifies this`checksum, buffer`size, buffer`start, buffer`Contents
      ensures Valid() && buffer.Valid() && buffer.start < buffer.data.Length
      ensures buffer.Contents == old(buffer.Contents)[1..] && checksum == Checksum(buffer.Contents)
      ensures reader.Rest == old(reader.Rest) && reader.Primed() == old(reader.Primed())
    {
      hide BlockByBlockReader.Valid;
      hide ByteByByteReader.Valid;
      hide CircularBuffer.Valid;
      hide RsyncableFile.Valid;
      hide Inv;
      hide Checksum;
      hide Subtract;
      SubtractIsPop(buffer.Contents);
      var size := buffer.size;
      var popped := buffer.Pop();
      assert popped == old(buffer.Contents)[0] && buffer.Contents == old(buffer.Contents)[1..];
      checksum := Subtract(checksum, popped, size);
    }

    method PushNewest(b: byte)
      requires Valid() && buffer.Valid() && buffer.start < buffer.data.Length && buffer.size < buffer.data.Length
      requires checksum == Checksum(buffer.Contents)
      modifies this`checksum, buffer`size, buffer`Contents, buffer.data
      ensures Valid() && buffer.Valid()
      ensures buffer.Contents == old(buffer.Contents) + [b] && checksum == Checksum(buffer.Contents)
      ensures reader.Rest == old(reader.Rest) && reader.Primed() == old(reader.Primed())
    {
      hide BlockByBlockReader.Valid;
      hide ByteByByteReader.Valid;
      hide CircularBuffer.Valid;
      hide RsyncableFile.Valid;
      hide Inv;
      hide Checksum;
      hide Add;
      AddIsPush(buffer.Contents, b);
      var _ := buffer.Push(b);
      checksum := Add(checksum, b, buffer.size);
    }

    /** read_another_byte. */
    method ReadAnotherByte() returns (more: bool, b: byte)
      requires Valid() && reader.Primed()
      modifies this`Repr, this`fed, this`pipe, reader.Repr
      ensures Valid() && fresh(Repr - old(Repr)) && reader.Primed()
      ensures more <==> old(reader.Rest) != []
      ensures more ==> [b] + reader.Rest == old(reader.Rest)
      ensures !more ==> reader.Rest == [] && fed == newFile
      ensures unchanged(buffer) && buffer.Valid() == old(buffer.Valid())
    {
      hide CircularBuffer.Valid;
      hide BlockByBlockReader.Valid;
      hide ByteByByteReader.Valid;
      hide Inv;
      hide Queue;
      hide RsyncableFile.Valid;
      hide From;
      more, b := reader.NextByte();
      Repr := {this, buffer, buffer.data} + reader.Repr;
      if more {
        Associative(fed, [b], reader.Rest);
        AddBlock([b]);
      } else {
        assert fed + [] == fed;
      }
    }

    /** search: sets old_offset when it succeeds. */
    method SearchWindow(offsetValid: bool, target: nat) returns (found: bool)
      requires HasWindow() && checksum == Checksum(buffer.Contents)
      modifies this`oldOffset
      ensures HasWindow() && checksum == Checksum(buffer.Contents)
      ensures var r := Spec().look(pos, TargetOf(offsetValid, target));
              found == r.Some? && (found ==> oldOffset == r.value)
    {
      hide Inv;
      hide Queue;
      hide BlockByBlockReader.Valid;
      hide ByteByByteReader.Valid;
      hide Find;
      var offset;
      found, offset := Search(oldFile, checksum, buffer, sha, offsetValid, target);
      if found {
        oldOffset := offset;
      }
    }

    // ---------- the states ----------

    /** What the state functions keep, and what a state function may be entered with. */
    ghost predicate Ready()
      reads this, Repr
    {
      && Valid()
      && match state
         case Initial => result == [] && fed == []
         case InMatching => AtWindow()
         case InNonMatching => AtWindow()
         case Final => fed == newFile
    }

    method Enter(next: State)
      requires Valid()
      modifies this`state
      ensures state == next && Valid() && AtWindow() == old(AtWindow())
    {
      hide Inv;
      hide BlockByBlockReader.Valid;
      hide ByteByByteReader.Valid;
      hide CircularBuffer.Valid;
      hide RsyncableFile.Valid;
      state := next;
    }

    /** Appends an empty command. */
    method BeginCommand(offset: nat, fromOld: bool)
      requires AtWindow()
      modifies this`result
      ensures AtWindow() && result == old(result) + [NewCommand(offset, fromOld)]
    {
      hide Inv;
      hide BlockByBlockReader.Valid;
      hide ByteByByteReader.Valid;
      hide CircularBuffer.Valid;
      hide RsyncableFile.Valid;
      result := result + [NewCommand(offset, fromOld)];
    }

    /** reset_state. */
    method ResetState()
      requires Valid() && fed == []
      modifies this`Repr, reader.Repr
      ensures Valid() && fresh(Repr - old(Repr)) && fed == [] && reader.Rest == From(newFile, 0)
    {
      hide Inv;
      hide BlockByBlockReader.Valid;
      hide CircularBuffer.Valid;
      hide RsyncableFile.Valid;
      reader.Seek(0);
      assert From(newFile, 0) == newFile;
      assert [] + newFile == newFile;
      Repr := {this, buffer, buffer.data} + reader.Repr;
    }

    method StateInitial()
      requires Ready() && state == Initial
      modifies Repr
      ensures Ready() && fresh(Repr - old(Repr))
      ensures Outcome() == old(Outcome()) && state != Initial
      ensures state != Final ==> pos == 0
    {
      hide BlockByBlockReader.Valid, ByteByByteReader.Valid, CircularBuffer.Valid, Inv, RsyncableFile.Valid;
      hide Checksum, Slice, From, Matching.Match, Matching.NonMatch, Matching.Compare;
      CompareTurn(Spec());
      ResetState();
      StartOffsets();
      hide FileComparer.Valid;
      var any := ReadMoreData(0);
      if !any {
        Enter(Final);
        return;
      }
      FirstState();
    }

    /** The first search decides between matching and not matching. */
    method FirstState()
      requires AtWindow() && pos == 0 && result == []
      modifies this`oldOffset, this`state
      ensures Ready() && (state.InMatching? || state.InNonMatching?)
      ensures Outcome() == Spec().Compare()
    {
      hide BlockByBlockReader.Valid, ByteByByteReader.Valid, CircularBuffer.Valid, Inv, RsyncableFile.Valid;
      hide Checksum, Slice, Find, From, Matching.Match, Matching.NonMatch, Matching.Compare, FileComparer.Valid;
      CompareTurn(Spec());
      var found := SearchWindow(false, 0);
      Enter(if found then InMatching else InNonMatching);
    }

    method StartOffsets()
      requires Valid()
      modifies this`newOffset, this`oldOffset
      ensures Valid() && newOffset == 0 && oldOffset == 0
    {
      hide BlockByBlockReader.Valid;
      hide ByteByByteReader.Valid;
      hide CircularBuffer.Valid;
      hide Inv;
      hide RsyncableFile.Valid;
      newOffset := 0;
      oldOffset := 0;
    }

    method StateMatching()
      requires Ready() && state == InMatching
      modifies Repr
      ensures Ready() && fresh(Repr - old(Repr))
      ensures Outcome() == old(Outcome())
      ensures state == Final || (state == InNonMatching && pos > old(pos))
    {
      hide Matching.Extend;
      hide Matching.NonMatch;
      hide FileComparer.Valid;
      hide FileComparer.HasWindow;
      hide Inv;
      hide BlockByBlockReader.Valid;
      hide ByteByByteReader.Valid;
      hide CircularBuffer.Valid;
      hide RsyncableFile.Valid;
      ghost var outcome := Outcome();
      while true
        invariant AtWindow() && fresh(Repr - old(Repr)) && state == InMatching && pos >= old(pos)
        invariant Spec().Match(pos, oldOffset, result) == outcome
        decreases |newFile| - pos
      {
        BeginCommand(oldOffset, true);
        while true
          invariant AtWindow() && fresh(Repr - old(Repr)) && state == InMatching && pos >= old(pos)
          invariant result != [] && Spec().Extend(pos, result) == outcome
          decreases |newFile| - pos
        {
          var any, found, target := MatchingTurn();
          if !any {
            Enter(Final);
            return;
          }
          if !found {
            Enter(InNonMatching);
            return;
          }
          if oldOffset != target {
            break;
          }
        }
      }
    }

    /** new_offset and last->length grow together. */
    method GrowCommand(increment: nat)
      requires AtWindow() && result != []
      modifies this`newOffset, this`result
      ensures HasWindow() && checksum == Checksum(buffer.Contents)
      ensures newOffset == old(newOffset) + increment
      ensures result == Front(old(result)) + [Last(old(result)).Grow(increment)]
    {
      hide Inv;
      hide BlockByBlockReader.Valid;
      hide ByteByByteReader.Valid;
      hide CircularBuffer.Valid;
      hide RsyncableFile.Valid;
      newOffset := newOffset + increment;
      result := Front(result) + [Last(result).Grow(increment)];
    }

    /** The body of the inner loop of state_Matching. */
    method MatchingTurn() returns (any: bool, found: bool, target: nat)
      requires AtWindow() && result != []
      modifies Repr
      ensures Valid() && fresh(Repr - old(Repr)) && state == old(state)
      ensures any ==> AtWindow() && pos > old(pos)
      ensures !any ==> fed == newFile
      ensures result != []
      ensures old(Spec().Extend(pos, result)) ==
        if !any then result
        else if !found then Spec().NonMatch(pos, result)
        else if oldOffset == target then Spec().Extend(pos, result)
        else Spec().Match(pos, oldOffset, result)
    {
      hide Matching.Extend;
      hide Matching.NonMatch;
      hide Matching.Match;
      hide FileComparer.Valid;
      hide FileComparer.HasWindow;
      hide Inv;
      hide BlockByBlockReader.Valid;
      hide ByteByByteReader.Valid;
      hide CircularBuffer.Valid;
      hide RsyncableFile.Valid;
      hide Find;
      hide Checksum;
      hide Slice;
      ExtendTurn(Spec(), pos, result);
      found, target := false, 0;
      var increment := MatchingIncrement();
      ghost var next := pos + |buffer.Contents|;
      GrowCommand(increment);
      any := ReadMoreData(next);
      if any {
        target := Last(result).fileOffset + Last(result).GetLength();
        found := SearchWindow(true, target);
      }
    }

    method MatchingIncrement() returns (increment: nat)
      requires AtWindow()
      ensures increment == Spec().MatchingIncrement(pos)
      ensures |buffer.Contents| == Spec().WindowSize(pos)
      ensures reader.Rest == From(newFile, pos + |buffer.Contents|)
    {
      hide Inv;
      hide BlockByBlockReader.Valid;
      hide ByteByByteReader.Valid;
      hide RsyncableFile.Valid;
      hide From;
      hide Slice;
      increment := if native then oldFile.blockSize else buffer.size;
    }

    method StateNonMatching()
      requires Ready() && state == InNonMatching
      modifies Repr
      ensures Ready() && fresh(Repr - old(Repr))
      ensures Outcome() == old(Outcome())
      ensures state == Final || (state == InMatching && pos > old(pos))
    {
      hide Matching.Advance;
      hide Matching.Match;
      hide FileComparer.Valid;
      hide FileComparer.HasWindow;
      hide Inv;
      hide BlockByBlockReader.Valid;
      hide ByteByByteReader.Valid;
      hide CircularBuffer.Valid;
      hide RsyncableFile.Valid;
      ghost var outcome := Outcome();
      BeginCommand(newOffset, false);
      var found := false;
      while !found
        invariant AtWindow() && fresh(Repr - old(Repr)) && state == InNonMatching && pos >= old(pos)
        invariant !found ==> result != [] && Spec().Advance(pos, result) == outcome
        invariant found ==> pos > old(pos) && Spec().Match(pos, oldOffset, result) == outcome
        decreases !found, |newFile| - pos
      {
        var any;
        any, found := NonMatchingTurn();
        if !any {
          Enter(Final);
          return;
        }
      }
      Enter(InMatching);
    }

    /** The body of the loop of state_NonMatching. */
    method NonMatchingTurn() returns (any: bool, found: bool)
      requires AtWindow() && result != []
      modifies Repr
      ensures Valid() && fresh(Repr - old(Repr)) && state == old(state)
      ensures any ==> AtWindow() && pos > old(pos)
      ensures !any ==> fed == newFile
      ensures result != []
      ensures old(Spec().Advance(pos, result)) ==
        if !any then result
        else if !found then Spec().Advance(pos, result)
        else Spec().Match(pos, oldOffset, result)
    {
      hide Matching.Advance;
      hide Matching.Match;
      hide FileComparer.Valid;
      hide FileComparer.HasWindow;
      hide Inv;
      hide BlockByBlockReader.Valid;
      hide ByteByByteReader.Valid;
      hide CircularBuffer.Valid;
      hide RsyncableFile.Valid;
      hide Find;
      hide Checksum;
      hide Slice;
      AdvanceTurn(Spec(), pos, result);
      found := false;
      GrowCommand(1);
      any := NonMatchingReadMoreData();
      if any {
        found := SearchWindow(false, 0);
      }
    }

    /** What the commands are chosen from. */
    ghost function Inputs(): Comparison {
      Comparison(oldFile.table, oldFile.blockSize, sha, newFile)
    }

    lemma ChoosesWell()
      requires Spec().Valid()
      ensures !native ==> Complete(Inputs(), Spec().Compare())
      ensures |newFile| + oldFile.blockSize < TWO_TO_63 ==> WellChosen(Inputs(), Spec().Compare())
    {
      if native {
        if |newFile| + oldFile.blockSize < TWO_TO_63 {
          EveryNativeRunChoosesWell(Inputs());
        }
      } else {
        EveryRunChoosesWell(Inputs());
      }
    }

    /** The loop of process(), to the end of the hashing thread. */
    method RunStates()
      requires Ready() && state == Initial
      modifies Repr
      ensures result == Spec().Compare()
      ensures pipe.done
      ensures pipe.table == ByProductTable(newFile, newBlockSize, sha)
      ensures pipe.digest == Some(sha(newFile))
    {
      hide Inv, BlockByBlockReader.Valid, ByteByByteReader.Valid, CircularBuffer.Valid, RsyncableFile.Valid;
      hide Matching.Match, Matching.NonMatch, Matching.Compare, HasWindow, Checksum, Slice, From, ByProductTable;
      StateInitial();
      while state != Final
        invariant Ready() && fresh(Repr - old(Repr)) && state != Initial
        invariant Outcome() == old(Outcome())
        decreases state != Final, if state == Final then 0 else |newFile| - pos
      {
        match state {
          case InMatching => StateMatching();
          case InNonMatching => StateNonMatching();
        }
      }
      Finished();
    }

    /** process(): runs the states, then stops the hashing thread. Whatever the disk and the scheduler did, the
        commands are the ones to choose and the thread leaves the table and digest of the new file. */
    method Process()
      requires Ready() && state == Initial
      modifies Repr
      ensures result == Spec().Compare()
      ensures !native ==> Complete(Inputs(), result)
      ensures |newFile| + oldFile.blockSize < TWO_TO_63 ==> WellChosen(Inputs(), result)
      ensures pipe.done
      ensures pipe.table == ByProductTable(newFile, newBlockSize, sha)
      ensures pipe.digest == Some(sha(newFile))
    {
      hide Inv, BlockByBlockReader.Valid, ByteByByteReader.Valid, CircularBuffer.Valid, RsyncableFile.Valid;
      hide Matching.Compare, Complete, WellChosen;
      ChoosesWell();
      RunStates();
    }
  }

  /** RsyncableFile(const FileComparer &): the new file becomes the old file of the next comparison. */
  method TableOfNewFile(c: FileComparer) returns (r: RsyncableFile)
    requires c.pipe.done && c.pipe.digest.Some? && Sorted(c.pipe.table) && c.newBlockSize > 0
    ensures r.Valid() && r.table == c.pipe.table && r.blockSize == c.newBlockSize
    ensures Some(r.digest) == c.pipe.digest
  {
    var bitmap := InitBitmap(c.pipe.table);
    r := RsyncableFile(c.pipe.table, bitmap, c.newBlockSize, c.pipe.digest.value);
  }

  /** One whole comparison. The commands are the ones to choose, they rebuild the new file from the old one, and the
      table left behind serves the next comparison as one digested from scratch would. */
  method CompareFiles(oldFile: RsyncableFile, ghost oldBytes: Bytes, newFile: Bytes, sha: Sha)
    returns (commands: seq<RsyncCommand>, next: RsyncableFile)
    requires oldFile.Valid() && |oldBytes| < TWO_TO_63 && |newFile| < TWO_TO_63
    requires Describes(oldFile.table, oldBytes, oldFile.blockSize, sha)
    requires NoCollision(oldFile.table, oldFile.blockSize, sha, oldBytes, newFile)
    ensures commands == Commands(oldFile.table, oldFile.blockSize, sha, newFile)
    ensures Complete(Comparison(oldFile.table, oldFile.blockSize, sha, newFile), commands)
    ensures Apply(commands, oldBytes, newFile) == newFile
    ensures Tiles(commands, |oldBytes|) && TotalLength(commands) == |newFile|
    ensures next.Valid() && Describes(next.table, newFile, next.blockSize, sha) && next.digest == sha(newFile)
    ensures next.blockSize == BlockSizeOf(|newFile|) && next.table == ByProductTable(newFile, next.blockSize, sha)
  {
    hide Describes;
    hide NoCollision;
    hide RsyncableFile.Valid;
    hide FileComparer.Valid;
    hide FileComparer.Ready;
    hide Matching.Compare;
    hide BlockItems;
    var c := new FileComparer(newFile, oldFile, sha, false);
    c.Process();
    CommandsRebuild(oldFile.table, oldFile.blockSize, sha, oldBytes, newFile);
    TablesDescribe(newFile, c.newBlockSize, sha);
    commands := c.result;
    next := TableOfNewFile(c);
  }
}
